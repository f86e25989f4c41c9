/** The style object pool (utils.py:22-55): an insertion-ordered list of style objects that
    registers a named style only once. */
module StylePool {
  import opened Common

  /** A style object: its `name` attribute (None when it has none) and the rest of it. */
  datatype Style<V> = Style(name: Option<string>, body: V)

  /** A name that Python treats as true: present and not empty. */
  predicate Truthy(name: Option<string>)
  {
    name.Some? && name.value != ""
  }

  /** Whether some item of the pool carries the name. */
  predicate Registered<V>(pool: seq<Style<V>>, name: Option<string>)
  {
    exists i :: 0 <= i < |pool| && pool[i].name == name
  }

  /** The pool after offering one value: a value whose truthy name is already registered
      is dropped, any other is appended. */
  function AddOne<V>(pool: seq<Style<V>>, v: Style<V>): (r: seq<Style<V>>)
  {
    if Drops(pool, v) then pool else pool + [v]
  }

  /** Whether the pool drops the value: its name is truthy and already registered. */
  predicate Drops<V>(pool: seq<Style<V>>, v: Style<V>)
  {
    Truthy(v.name) && Registered(pool, v.name)
  }

  /** The pool after offering the values one after the other. */
  function AddAll<V>(pool: seq<Style<V>>, values: seq<Style<V>>): (r: seq<Style<V>>)
    decreases |values|
  {
    if values == [] then pool else AddAll(AddOne(pool, values[0]), values[1..])
  }

  /** No two items share a truthy name. */
  predicate DistinctNames<V>(pool: seq<Style<V>>)
  {
    forall i, j :: 0 <= i < j < |pool| && Truthy(pool[i].name) ==> pool[i].name != pool[j].name
  }

  /** A value without a name, or with an empty one, is always appended. */
  lemma UnnamedAppended<V>(pool: seq<Style<V>>, v: Style<V>)
    requires !Truthy(v.name)
    ensures AddOne(pool, v) == pool + [v]
  {
  }

  /** A value whose truthy name is registered leaves the pool as it is. */
  lemma RegisteredUnchanged<V>(pool: seq<Style<V>>, v: Style<V>)
    requires Truthy(v.name) && Registered(pool, v.name)
    ensures AddOne(pool, v) == pool
  {
  }

  /** Adding keeps the existing items in place and appends values, in argument order; each
      value ends up with its name registered. */
  lemma {:induction false} AddAllExtends<V>(pool: seq<Style<V>>, values: seq<Style<V>>)
    ensures |pool| <= |AddAll(pool, values)| <= |pool| + |values|
    ensures AddAll(pool, values)[..|pool|] == pool
    ensures forall k :: |pool| <= k < |AddAll(pool, values)| ==> AddAll(pool, values)[k] in values
    ensures forall k :: 0 <= k < |values| ==> Registered(AddAll(pool, values), values[k].name)
    decreases |values|
  {
    if values != [] {
      var next := AddOne(pool, values[0]);
      AddAllExtends(next, values[1..]);
      var r := AddAll(pool, values);
      assert r[..|next|] == next;
      assert r[..|pool|] == next[..|pool|];
      forall k | |pool| <= k < |r|
        ensures r[k] in values
      {
        if k < |next| {
          assert r[k] == next[k] == values[0];
        } else {
          assert r[k] in values[1..];
        }
      }
      forall k | 0 <= k < |values|
        ensures Registered(r, values[k].name)
      {
        if k == 0 {
          var i :| 0 <= i < |next| && next[i].name == values[0].name;
          assert r[i] == next[i];
        } else {
          assert values[k] == values[1..][k - 1];
        }
      }
    }
  }

  /** Distinct truthy names stay distinct. */
  lemma {:induction false} AddAllKeepsDistinct<V>(pool: seq<Style<V>>, values: seq<Style<V>>)
    requires DistinctNames(pool)
    ensures DistinctNames(AddAll(pool, values))
    decreases |values|
  {
    if values != [] {
      var v := values[0];
      var next := AddOne(pool, v);
      if next != pool {
        assert next == pool + [v];
        forall i, j | 0 <= i < j < |next| && Truthy(next[i].name)
          ensures next[i].name != next[j].name
        {
          if j == |pool| {
            assert next[i] == pool[i];
          }
        }
      }
      AddAllKeepsDistinct(next, values[1..]);
    }
  }

  /** Within one call, of two values sharing a truthy name only the first is added. */
  lemma {:induction false} SecondNamesakeDropped<V>(pool: seq<Style<V>>, a: Style<V>, b: Style<V>)
    requires Truthy(a.name) && b.name == a.name
    ensures AddAll(pool, [a, b]) == AddOne(pool, a)
  {
    var next := AddOne(pool, a);
    assert Registered(next, a.name) by {
      if next != pool {
        assert next[|pool|] == a;
      }
    }
    assert [a, b][1..] == [b];
    assert [b][1..] == [];
    assert AddAll(pool, [a, b]) == AddAll(next, [b]);
    assert AddAll(next, [b]) == AddAll(AddOne(next, b), []);
  }

  /** Offering one more value is offering it to the pool the earlier values left. */
  lemma {:induction false} AddAllSnoc<V>(pool: seq<Style<V>>, values: seq<Style<V>>, v: Style<V>)
    ensures AddAll(pool, values + [v]) == AddOne(AddAll(pool, values), v)
    decreases |values|
  {
    if values == [] {
      assert [v][1..] == [];
    } else {
      assert (values + [v])[1..] == values[1..] + [v];
      AddAllSnoc(AddOne(pool, values[0]), values[1..], v);
    }
  }

  /** Within one call, a value whose truthy name an earlier value carries is dropped: the
      pool the earlier values leave does not change when it is offered. */
  lemma NamesakeDropped<V>(pool: seq<Style<V>>, values: seq<Style<V>>, i: nat, j: nat)
    requires i < j < |values| && Truthy(values[i].name) && values[j].name == values[i].name
    ensures AddOne(AddAll(pool, values[..j]), values[j]) == AddAll(pool, values[..j])
    ensures AddAll(pool, values[..j + 1]) == AddAll(pool, values[..j])
  {
    AddAllExtends(pool, values[..j]);
    assert values[..j][i] == values[i];
    assert values[..j + 1] == values[..j] + [values[j]];
    AddAllSnoc(pool, values[..j], values[j]);
  }

  /** The positions of the values that a call appends, in increasing order. */
  function AddedPositions<V>(pool: seq<Style<V>>, values: seq<Style<V>>): (pos: seq<nat>)
    ensures forall k :: 0 <= k < |pos| ==> pos[k] < |values|
  {
    if values == [] then []
    else
      var init := values[..|values| - 1];
      AddedPositions(pool, init) + (if Drops(AddAll(pool, init), values[|values| - 1]) then [] else [|values| - 1])
  }

  /** The appended items are a subsequence of the values in argument order: the k-th
      appended item is the value at the k-th added position, the positions increase
      strictly, and a value is appended exactly when the pool left by the values before it
      does not drop it. */
  lemma AddAllInOrder<V>(pool: seq<Style<V>>, values: seq<Style<V>>)
    ensures |AddAll(pool, values)| == |pool| + |AddedPositions(pool, values)|
    ensures forall k :: 0 <= k < |AddedPositions(pool, values)| ==>
              AddAll(pool, values)[|pool| + k] == values[AddedPositions(pool, values)[k]]
    ensures forall k, l :: 0 <= k < l < |AddedPositions(pool, values)| ==>
              AddedPositions(pool, values)[k] < AddedPositions(pool, values)[l]
    ensures forall i :: 0 <= i < |values| ==>
              (i in AddedPositions(pool, values) <==> !Drops(AddAll(pool, values[..i]), values[i]))
  {
    AddedPositionsPick(pool, values);
    AddedPositionsIncrease(pool, values);
    AddedPositionsExact(pool, values);
  }

  lemma {:induction false} AddedPositionsPick<V>(pool: seq<Style<V>>, values: seq<Style<V>>)
    ensures |AddAll(pool, values)| == |pool| + |AddedPositions(pool, values)|
    ensures forall k :: 0 <= k < |AddedPositions(pool, values)| ==>
              AddAll(pool, values)[|pool| + k] == values[AddedPositions(pool, values)[k]]
  {
    if values != [] {
      var n := |values| - 1;
      var init := values[..n];
      AddedPositionsPick(pool, init);
      assert values == init + [values[n]];
      AddAllSnoc(pool, init, values[n]);
      var pos := AddedPositions(pool, values);
      var initPos := AddedPositions(pool, init);
      forall k | 0 <= k < |initPos|
        ensures AddAll(pool, values)[|pool| + k] == values[pos[k]]
      {
        assert pos[k] == initPos[k] && values[pos[k]] == init[initPos[k]];
      }
    }
  }

  lemma {:induction false} AddedPositionsIncrease<V>(pool: seq<Style<V>>, values: seq<Style<V>>)
    ensures forall k, l :: 0 <= k < l < |AddedPositions(pool, values)| ==>
              AddedPositions(pool, values)[k] < AddedPositions(pool, values)[l]
  {
    if values != [] {
      AddedPositionsIncrease(pool, values[..|values| - 1]);
    }
  }

  lemma {:induction false} AddedPositionsExact<V>(pool: seq<Style<V>>, values: seq<Style<V>>)
    ensures forall i :: 0 <= i < |values| ==>
              (i in AddedPositions(pool, values) <==> !Drops(AddAll(pool, values[..i]), values[i]))
  {
    if values != [] {
      var n := |values| - 1;
      var init := values[..n];
      AddedPositionsExact(pool, init);
      forall i | 0 <= i < n
        ensures values[..i] == init[..i] && values[i] == init[i]
      {
      }
    }
  }

  class StyleSet<V> {
    /** The registered style objects, in insertion order. */
    var items: seq<Style<V>>

    /** An empty pool. */
    constructor()
      ensures items == []
    {
      items := [];
    }

    /** `get_by_name`: the first item whose name equals the query (an unnamed item matches
        a query for no name), or `default` when none does. */
    method GetByName(name: Option<string>, default: Option<Style<V>>) returns (ret: Option<Style<V>>)
      ensures !Registered(items, name) ==> ret == default
      ensures Registered(items, name) ==>
                exists i :: 0 <= i < |items| && items[i].name == name && ret == Some(items[i])
                            && forall j :: 0 <= j < i ==> items[j].name != name
    {
      ret := default;
      var ref: Option<Style<V>> := None;
      var i := 0;
      while i < |items|
        invariant 0 <= i <= |items|
        invariant forall j :: 0 <= j < i ==> items[j].name != name
        invariant ref == None
      {
        if items[i].name == name {
          ref := Some(items[i]);
          break;
        }
        i := i + 1;
      }
      if ref.Some? {
        ret := ref;
      }
    }

    /** `add`: offers the values in order, appending those not already registered by name. */
    method Add(values: seq<Style<V>>)
      modifies this
      ensures items == AddAll(old(items), values)
    {
      var i := 0;
      while i < |values|
        invariant 0 <= i <= |values|
        invariant AddAll(items, values[i..]) == AddAll(old(items), values)
      {
        var value := values[i];
        assert values[i..][1..] == values[i + 1..];
        var existing: Option<Style<V>> := None;
        if Truthy(value.name) {
          existing := GetByName(value.name, None);
        }
        if existing.Some? {
          i := i + 1;
          continue;
        }
        items := items + [value];
        i := i + 1;
      }
    }
  }
}
