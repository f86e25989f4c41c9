/** Blank-marker run merging (htmlconv.py:258-298): the flattened sequence is cut at its
    blank markers, the markers are dropped, a run of one node passes through on its own and
    a longer run becomes one group. The merge is stated for any blank predicate; the
    translator uses HtmlTree.IsBlank. */
module Merge {
  import opened Common
  import opened HtmlTree

  /** What `_rollover` hands on for a run: nothing, the bare element, or a copy of the run. */
  function Emit<T>(run: seq<T>): (r: seq<Item<T>>)
  {
    if |run| == 0 then [] else if |run| == 1 then [Single(run[0])] else [Group(run)]
  }

  function EmitAll<T>(runs: seq<seq<T>>): (r: seq<Item<T>>)
  {
    if runs == [] then [] else Emit(runs[0]) + EmitAll(runs[1..])
  }

  function Singles<T>(s: seq<T>): (r: seq<Item<T>>)
    ensures |r| == |s|
    ensures forall i :: 0 <= i < |s| ==> r[i] == Single(s[i])
  {
    seq(|s|, i requires 0 <= i < |s| => Single(s[i]))
  }

  /** The nodes an item stands for, and those of a sequence of items in order. */
  function NodesOf<T>(item: Item<T>): (r: seq<T>)
  {
    match item
    case Single(n) => [n]
    case Group(ns) => ns
  }

  function Contents<T>(items: seq<Item<T>>): (r: seq<T>)
  {
    if items == [] then [] else NodesOf(items[0]) + Contents(items[1..])
  }

  /** The merged sequence: unchanged when there is no marker, empty when every element is one,
      otherwise the runs between markers as emitted by `_rollover`. */
  function Merged<T>(tags: seq<T>, blank: T -> bool): (r: seq<Item<T>>)
  {
    var count := |Filter(tags, blank)|;
    if count == 0 then Singles(tags)
    else if count == |tags| then []
    else EmitAll(Split(tags, blank))
  }

  predicate WellFormedItem<T>(item: Item<T>)
  {
    item.Group? ==> |item.nodes| >= 2
  }

  lemma {:induction false} ContentsAppend<T>(a: seq<Item<T>>, b: seq<Item<T>>)
    ensures Contents(a + b) == Contents(a) + Contents(b)
  {
    if a == [] {
      assert a + b == b;
    } else {
      assert (a + b)[0] == a[0] && (a + b)[1..] == a[1..] + b;
      ContentsAppend(a[1..], b);
    }
  }

  lemma {:induction false} EmitAllFacts<T>(runs: seq<seq<T>>)
    ensures Contents(EmitAll(runs)) == Concat(runs)
    ensures forall i :: 0 <= i < |EmitAll(runs)| ==> WellFormedItem(EmitAll(runs)[i])
  {
    if runs != [] {
      EmitAllFacts(runs[1..]);
      ContentsAppend(Emit(runs[0]), EmitAll(runs[1..]));
      var r := runs[0];
      if |r| == 1 {
        assert [r[0]] == r;
        assert Contents([Single(r[0])]) == [r[0]] + Contents([]);
      } else if |r| > 1 {
        assert Contents([Group(r)]) == r + Contents([]);
      }
    }
  }

  lemma {:induction false} SinglesContents<T>(s: seq<T>)
    ensures Contents(Singles(s)) == s
  {
    if s != [] {
      assert Singles(s)[1..] == Singles(s[1..]);
      SinglesContents(s[1..]);
    }
  }

  /** Concatenating the runs of a split gives the input without its separators. */
  lemma {:induction false} SplitConcat<T>(s: seq<T>, isSep: T -> bool)
    ensures Concat(Split(s, isSep)) == Filter(s, Not(isSep))
    decreases |s|
  {
    var k := FirstIndex(s, isSep);
    KeepRun(s[..k], isSep);
    if k == |s| {
      assert s[..k] == s;
      assert Concat([s]) == s + Concat([s][1..]);
    } else {
      var rest := s[k + 1..];
      SplitConcat(rest, isSep);
      SplitAtSeparator(s, isSep, k);
      FilterAtSeparator(s, isSep, k);
    }
  }

  lemma SplitAtSeparator<T>(s: seq<T>, isSep: T -> bool, k: nat)
    requires k == FirstIndex(s, isSep) && k < |s|
    ensures Concat(Split(s, isSep)) == s[..k] + Concat(Split(s[k + 1..], isSep))
  {
    var runs := Split(s, isSep);
    assert runs == [s[..k]] + Split(s[k + 1..], isSep);
    assert runs[0] == s[..k] && runs[1..] == Split(s[k + 1..], isSep);
  }

  lemma FilterAtSeparator<T>(s: seq<T>, isSep: T -> bool, k: nat)
    requires k < |s| && isSep(s[k])
    ensures Filter(s, Not(isSep)) == Filter(s[..k], Not(isSep)) + Filter(s[k + 1..], Not(isSep))
  {
    var rest := s[k + 1..];
    assert s == s[..k] + ([s[k]] + rest);
    FilterAppend(s[..k], [s[k]] + rest, Not(isSep));
    assert ([s[k]] + rest)[0] == s[k] && ([s[k]] + rest)[1..] == rest;
  }

  /** A separator-free run survives the filter that drops separators. */
  lemma KeepRun<T>(run: seq<T>, isSep: T -> bool)
    requires forall j :: 0 <= j < |run| ==> !isSep(run[j])
    ensures Filter(run, Not(isSep)) == run
  {
    assert forall j :: 0 <= j < |run| ==> Not(isSep)(run[j]);
    FilterAll(run, Not(isSep));
  }

  /** Blank markers are dropped and nothing else is: the merged items hold exactly the
      non-blank elements, in their original order. */
  lemma MergedKeepsNonBlank<T>(tags: seq<T>, blank: T -> bool)
    ensures Contents(Merged(tags, blank)) == Filter(tags, Not(blank))
  {
    var count := |Filter(tags, blank)|;
    if count == 0 {
      SinglesContents(tags);
      forall i | 0 <= i < |tags|
        ensures Not(blank)(tags[i])
      {
        if blank(tags[i]) {
          assert tags == tags[..i] + [tags[i]] + tags[i + 1..];
          FilterAppend(tags[..i] + [tags[i]], tags[i + 1..], blank);
          FilterAppend(tags[..i], [tags[i]], blank);
        }
      }
      FilterAll(tags, Not(blank));
    } else if count == |tags| {
      AllSatisfy(tags, blank);
      NoneSatisfy(tags, Not(blank));
    } else {
      EmitAllFacts(Split(tags, blank));
      SplitConcat(tags, blank);
    }
  }

  /** A filter as long as its input kept every element. */
  lemma {:induction false} AllSatisfy<T>(s: seq<T>, p: T -> bool)
    requires |Filter(s, p)| == |s|
    ensures forall i :: 0 <= i < |s| ==> p(s[i])
  {
    if s != [] {
      assert |Filter(s, p)| == (if p(s[0]) then 1 else 0) + |Filter(s[1..], p)|;
      AllSatisfy(s[1..], p);
      assert forall i :: 1 <= i < |s| ==> s[i] == s[1..][i - 1];
    }
  }

  /** Every group the merge produces holds at least two elements, and no element of any
      item is a blank marker. */
  lemma MergedShape<T>(tags: seq<T>, blank: T -> bool)
    ensures forall i :: 0 <= i < |Merged(tags, blank)| ==> WellFormedItem(Merged(tags, blank)[i])
    ensures forall x :: x in Contents(Merged(tags, blank)) ==> !blank(x)
  {
    MergedKeepsNonBlank(tags, blank);
    if 0 < |Filter(tags, blank)| < |tags| {
      EmitAllFacts(Split(tags, blank));
    }
    forall x | x in Contents(Merged(tags, blank))
      ensures !blank(x)
    {
      var i :| 0 <= i < |Filter(tags, Not(blank))| && Filter(tags, Not(blank))[i] == x;
    }
  }

  /** The shortcut for an all-blank sequence agrees with the general rule: whenever there is
      a marker, the result is the non-empty runs between markers. */
  lemma MergedIsRuns<T>(tags: seq<T>, blank: T -> bool)
    requires |Filter(tags, blank)| > 0
    ensures Merged(tags, blank) == EmitAll(Split(tags, blank))
  {
    if |Filter(tags, blank)| == |tags| {
      AllSatisfy(tags, blank);
      AllBlankRunsEmpty(tags, blank);
    }
  }

  lemma {:induction false} AllBlankRunsEmpty<T>(s: seq<T>, blank: T -> bool)
    requires forall i :: 0 <= i < |s| ==> blank(s[i])
    ensures EmitAll(Split(s, blank)) == []
    decreases |s|
  {
    if s != [] {
      assert FirstIndex(s, blank) == 0;
      assert Split(s, blank) == [s[..0]] + Split(s[1..], blank);
      AllBlankRunsEmpty(s[1..], blank);
      assert Split(s, blank)[1..] == Split(s[1..], blank);
    } else {
      var runs: seq<seq<T>> := [[]];
      assert Split(s, blank) == runs;
      assert EmitAll(runs) == Emit(runs[0]) + EmitAll(runs[1..]);
    }
  }

  /** The walk `_merge_tag` makes over the rest of the sequence with `stack` the run so far. */
  function Walk<T>(stack: seq<T>, rest: seq<T>, blank: T -> bool): (r: seq<Item<T>>)
    decreases |rest|
  {
    if rest == [] then Emit(stack)
    else if blank(rest[0]) then Emit(stack) + Walk([], rest[1..], blank)
    else Walk(stack + [rest[0]], rest[1..], blank)
  }

  /** The walk emits the runs between markers. */
  lemma {:induction false} WalkEmitsRuns<T>(stack: seq<T>, rest: seq<T>, blank: T -> bool)
    requires forall j :: 0 <= j < |stack| ==> !blank(stack[j])
    ensures Walk(stack, rest, blank) == EmitAll(Split(stack + rest, blank))
    decreases |rest|
  {
    if rest == [] {
      assert stack + rest == stack;
      LastRun(stack, blank);
    } else if blank(rest[0]) {
      RunThenMarker(stack, rest, blank);
      WalkEmitsRuns([], rest[1..], blank);
      assert [] + rest[1..] == rest[1..];
    } else {
      WalkEmitsRuns(stack + [rest[0]], rest[1..], blank);
      assert (stack + [rest[0]]) + rest[1..] == stack + rest;
    }
  }

  /** `_merge_tag`: flags the markers, counts them, and in the mixed case walks the sequence
      with a run stack that is emitted at every marker and at the end. */
  method MergeTag<T>(tags: seq<T>, blank: T -> bool) returns (newTags: seq<Item<T>>)
    ensures newTags == Merged(tags, blank)
  {
    newTags := [];
    var count := |Filter(tags, blank)|;
    if count > 0 {
      if count < |tags| {
        var stack: seq<T> := [];
        assert tags[0..] == tags;
        for i := 0 to |tags|
          invariant newTags + Walk(stack, tags[i..], blank) == Walk([], tags, blank)
        {
          assert tags[i..][0] == tags[i] && tags[i..][1..] == tags[i + 1..];
          if blank(tags[i]) {
            assert newTags + (Emit(stack) + Walk([], tags[i + 1..], blank))
                == (newTags + Emit(stack)) + Walk([], tags[i + 1..], blank);
            newTags := newTags + Emit(stack);
            stack := [];
          } else {
            stack := stack + [tags[i]];
          }
        }
        newTags := newTags + Emit(stack);
        WalkEmitsRuns([], tags, blank);
        assert [] + tags == tags;
      }
    } else {
      newTags := newTags + Singles(tags);
    }
  }

  /** A marker-free run at the end is emitted on its own. */
  lemma LastRun<T>(run: seq<T>, blank: T -> bool)
    requires forall j :: 0 <= j < |run| ==> !blank(run[j])
    ensures EmitAll(Split(run, blank)) == Emit(run)
  {
    assert Split(run, blank) == [run];
    assert EmitAll([run]) == Emit(run) + EmitAll([]);
  }

  /** A marker right after a marker-free run closes that run. */
  lemma RunThenMarker<T>(run: seq<T>, rest: seq<T>, blank: T -> bool)
    requires forall j :: 0 <= j < |run| ==> !blank(run[j])
    requires rest != [] && blank(rest[0])
    ensures EmitAll(Split(run + rest, blank)) == Emit(run) + EmitAll(Split(rest[1..], blank))
  {
    var s := run + rest;
    assert s[|run|] == rest[0];
    assert FirstIndex(s, blank) == |run| by {
      FirstIndexAt(s, blank, |run|);
    }
    assert s[..|run|] == run && s[|run| + 1..] == rest[1..];
    var runs := Split(s, blank);
    assert runs == [run] + Split(rest[1..], blank);
    assert runs[0] == run && runs[1..] == Split(rest[1..], blank);
  }

  lemma FirstIndexAt<T>(s: seq<T>, p: T -> bool, k: nat)
    requires k < |s| && p(s[k])
    requires forall j :: 0 <= j < k ==> !p(s[j])
    ensures FirstIndex(s, p) == k
  {
  }

  /** `[P1, BR, P2, P3, BR, P4]` merges to P1, a group of P2 and P3, and P4. */
  lemma MergeExample(p1: int, p2: int, p3: int, p4: int, br: int, blank: int -> bool)
    requires blank(br) && !blank(p1) && !blank(p2) && !blank(p3) && !blank(p4)
    ensures Merged([p1, br, p2, p3, br, p4], blank) == [Single(p1), Group([p2, p3]), Single(p4)]
  {
    var s := [p1, br, p2, p3, br, p4];
    assert s == [p1] + [br] + s[2..];
    FilterAppend([p1] + [br], s[2..], blank);
    FilterAppend([p1], [br], blank);
    MergedIsRuns(s, blank);
    WalkEmitsRuns([], s, blank);
    assert [] + s == s;
    assert Walk([p2, p3], s[4..], blank) == [Group([p2, p3])] + Walk([], [p4], blank) by {
      assert s[4..][1..] == [p4];
    }
    assert Walk([], [p4], blank) == [Single(p4)] by {
      assert Walk([], [p4], blank) == Walk([p4], [], blank);
    }
    assert Walk([], s, blank) == [Single(p1)] + Walk([p2, p3], s[4..], blank) by {
      assert Walk([], s, blank) == Walk([p1], s[1..], blank);
      assert Walk([p1], s[1..], blank) == [Single(p1)] + Walk([], s[2..], blank);
      assert s[2..][0] == p2 && s[2..][1..] == s[3..] && [] + [p2] == [p2];
      assert Walk([], s[2..], blank) == Walk([p2], s[3..], blank);
      assert s[3..][0] == p3 && s[3..][1..] == s[4..] && [p2] + [p3] == [p2, p3];
      assert Walk([p2], s[3..], blank) == Walk([p2, p3], s[4..], blank);
    }
  }
}
