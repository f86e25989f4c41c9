/** Sequence and string helpers shared by the whole model: Option and Result, filtering,
    Python's `split` on a separator, `strip`, ASCII lower-casing and decimal formatting. */
module Common {

  datatype Option<T> = None | Some(value: T)

  datatype Result<T, E> = Ok(value: T) | Err(error: E)

  /** Index of the first element of `s` that satisfies `p`, or `|s|` when there is none. */
  function FirstIndex<T>(s: seq<T>, p: T -> bool): (k: nat)
    ensures k <= |s|
    ensures forall j :: 0 <= j < k ==> !p(s[j])
    ensures k < |s| ==> p(s[k])
  {
    if s == [] then 0 else if p(s[0]) then 0 else 1 + FirstIndex(s[1..], p)
  }

  /** The elements of `s` that satisfy `p`, in order. */
  function Filter<T>(s: seq<T>, p: T -> bool): (r: seq<T>)
    ensures |r| <= |s|
    ensures forall i :: 0 <= i < |r| ==> p(r[i])
  {
    if s == [] then [] else (if p(s[0]) then [s[0]] else []) + Filter(s[1..], p)
  }

  lemma {:induction false} FilterSubset<T>(s: seq<T>, p: T -> bool)
    ensures forall x :: x in Filter(s, p) ==> x in s
  {
    if s != [] {
      FilterSubset(s[1..], p);
    }
  }

  /** The positions of the elements of `s` that satisfy `p`, in increasing order. */
  function FilterPositions<T>(s: seq<T>, p: T -> bool): (pos: seq<nat>)
    ensures forall k :: 0 <= k < |pos| ==> pos[k] < |s|
  {
    if s == [] then []
    else
      var rest := FilterPositions(s[1..], p);
      (if p(s[0]) then [0] else []) + seq(|rest|, k requires 0 <= k < |rest| => rest[k] + 1)
  }

  /** `Filter` keeps exactly the elements that satisfy `p`, in order: its k-th element is
      the element at the k-th position, the positions increase strictly, and every element
      that satisfies `p` is at one of them. */
  lemma FilterAtPositions<T>(s: seq<T>, p: T -> bool)
    ensures |FilterPositions(s, p)| == |Filter(s, p)|
    ensures forall k :: 0 <= k < |Filter(s, p)| ==> Filter(s, p)[k] == s[FilterPositions(s, p)[k]]
    ensures forall k, l :: 0 <= k < l < |FilterPositions(s, p)| ==> FilterPositions(s, p)[k] < FilterPositions(s, p)[l]
    ensures forall i :: 0 <= i < |s| && p(s[i]) ==> i in FilterPositions(s, p)
  {
    FilterPositionsPick(s, p);
    FilterPositionsIncrease(s, p);
    FilterPositionsCover(s, p);
  }

  lemma {:induction false} FilterPositionsPick<T>(s: seq<T>, p: T -> bool)
    ensures |FilterPositions(s, p)| == |Filter(s, p)|
    ensures forall k :: 0 <= k < |Filter(s, p)| ==> Filter(s, p)[k] == s[FilterPositions(s, p)[k]]
  {
    if s != [] {
      FilterPositionsPick(s[1..], p);
      var pos := FilterPositions(s, p);
      var rest := FilterPositions(s[1..], p);
      var d := if p(s[0]) then 1 else 0;
      forall k | d <= k < |pos|
        ensures Filter(s, p)[k] == s[pos[k]]
      {
        assert pos[k] == rest[k - d] + 1;
        assert Filter(s, p)[k] == Filter(s[1..], p)[k - d];
      }
    }
  }

  lemma {:induction false} FilterPositionsIncrease<T>(s: seq<T>, p: T -> bool)
    ensures forall k, l :: 0 <= k < l < |FilterPositions(s, p)| ==> FilterPositions(s, p)[k] < FilterPositions(s, p)[l]
  {
    if s != [] {
      FilterPositionsIncrease(s[1..], p);
    }
  }

  lemma {:induction false} FilterPositionsCover<T>(s: seq<T>, p: T -> bool)
    ensures forall i :: 0 <= i < |s| && p(s[i]) ==> i in FilterPositions(s, p)
  {
    if s != [] {
      FilterPositionsCover(s[1..], p);
      var rest := FilterPositions(s[1..], p);
      var d := if p(s[0]) then 1 else 0;
      forall i | 0 < i < |s| && p(s[i])
        ensures i in FilterPositions(s, p)
      {
        assert s[i] == s[1..][i - 1];
        var k :| 0 <= k < |rest| && rest[k] == i - 1;
        assert FilterPositions(s, p)[k + d] == i;
      }
    }
  }

  /** The complement of a predicate. */
  function Not<T>(p: T -> bool): (r: T -> bool)
  {
    x => !p(x)
  }

  lemma {:induction false} FilterAppend<T>(a: seq<T>, b: seq<T>, p: T -> bool)
    ensures Filter(a + b, p) == Filter(a, p) + Filter(b, p)
  {
    if a != [] {
      assert (a + b)[0] == a[0] && (a + b)[1..] == a[1..] + b;
      FilterAppend(a[1..], b, p);
    } else {
      assert a + b == b;
    }
  }

  lemma {:induction false} FilterAll<T>(s: seq<T>, p: T -> bool)
    requires forall i :: 0 <= i < |s| ==> p(s[i])
    ensures Filter(s, p) == s
    ensures Filter(s, Not(p)) == []
  {
    if s != [] {
      FilterAll(s[1..], p);
    }
  }

  /** Concatenation of a sequence of sequences. */
  function Concat<T>(ss: seq<seq<T>>): (r: seq<T>)
  {
    if ss == [] then [] else ss[0] + Concat(ss[1..])
  }

  lemma {:induction false} ConcatAppend<T>(a: seq<seq<T>>, b: seq<seq<T>>)
    ensures Concat(a + b) == Concat(a) + Concat(b)
  {
    if a != [] {
      assert (a + b)[0] == a[0] && (a + b)[1..] == a[1..] + b;
      ConcatAppend(a[1..], b);
    } else {
      assert a + b == b;
    }
  }

  /** Python's `s.split(sep)` generalised to any separator predicate: the runs between
      separators, with `n` separators giving `n + 1` (possibly empty) runs. */
  function Split<T>(s: seq<T>, isSep: T -> bool): (runs: seq<seq<T>>)
    ensures |runs| >= 1
    decreases |s|
  {
    var k := FirstIndex(s, isSep);
    if k == |s| then [s] else [s[..k]] + Split(s[k + 1..], isSep)
  }

  /** Puts the separators back between the runs: runs[0] + [seps[0]] + runs[1] + ... */
  function Rejoin<T>(runs: seq<seq<T>>, seps: seq<T>): (r: seq<T>)
    requires |runs| == |seps| + 1
  {
    if seps == [] then runs[0] else runs[0] + [seps[0]] + Rejoin(runs[1..], seps[1..])
  }

  /** Splitting loses nothing: one run more than there are separators, no run holds a
      separator, and putting the separators back between the runs gives the input. */
  lemma {:induction false} SplitRejoin<T>(s: seq<T>, isSep: T -> bool)
    ensures |Split(s, isSep)| == |Filter(s, isSep)| + 1
    ensures forall i, j :: 0 <= i < |Split(s, isSep)| && 0 <= j < |Split(s, isSep)[i]| ==> !isSep(Split(s, isSep)[i][j])
    ensures Rejoin(Split(s, isSep), Filter(s, isSep)) == s
    decreases |s|
  {
    var k := FirstIndex(s, isSep);
    if k == |s| {
      FilterAll(s, Not(isSep));
      NoneSatisfy(s, isSep);
    } else {
      var rest := s[k + 1..];
      assert s == s[..k] + [s[k]] + rest;
      FilterAppend(s[..k] + [s[k]], rest, isSep);
      FilterAppend(s[..k], [s[k]], isSep);
      NoneSatisfy(s[..k], isSep);
      assert Filter([s[k]], isSep) == [s[k]];
      SplitRejoin(rest, isSep);
      var runs := Split(s, isSep);
      assert runs == [s[..k]] + Split(rest, isSep);
      assert runs[1..] == Split(rest, isSep);
    }
  }

  lemma {:induction false} NoneSatisfy<T>(s: seq<T>, p: T -> bool)
    requires forall i :: 0 <= i < |s| ==> !p(s[i])
    ensures Filter(s, p) == []
  {
    if s != [] {
      NoneSatisfy(s[1..], p);
    }
  }

  /** The characters Python 2.7's `unicode.strip()` removes (`isspace()` is true of them
      under its Unicode 5.2 tables, which still count U+180E). */
  predicate IsSpace(c: char)
  {
    c in {' ', '\t', '\n', '\r', '\U{0B}', '\U{0C}', '\U{1C}', '\U{1D}', '\U{1E}', '\U{1F}',
          '\U{85}', '\U{A0}', '\U{1680}', '\U{180E}', '\U{2028}', '\U{2029}', '\U{202F}', '\U{205F}', '\U{3000}'}
    || ('\U{2000}' <= c <= '\U{200A}')
  }

  /** Number of leading whitespace characters. */
  function LeadingSpaces(s: string): (n: nat)
    ensures n <= |s|
    ensures forall j :: 0 <= j < n ==> IsSpace(s[j])
    ensures n < |s| ==> !IsSpace(s[n])
  {
    if s != [] && IsSpace(s[0]) then 1 + LeadingSpaces(s[1..]) else 0
  }

  /** Number of trailing whitespace characters. */
  function TrailingSpaces(s: string): (n: nat)
    ensures n <= |s|
    ensures forall j :: |s| - n <= j < |s| ==> IsSpace(s[j])
    ensures n < |s| ==> !IsSpace(s[|s| - n - 1])
  {
    if s != [] && IsSpace(s[|s| - 1]) then 1 + TrailingSpaces(s[..|s| - 1]) else 0
  }

  /** `r` is `s` with `a` whitespace characters cut from its start and `b` from its end. */
  predicate TrimmedBy(s: string, a: nat, b: nat, r: string)
  {
    && a + b <= |s| && r == s[a..|s| - b]
    && (forall j :: 0 <= j < a ==> IsSpace(s[j]))
    && (forall j :: |s| - b <= j < |s| ==> IsSpace(s[j]))
  }

  /** Python's `strip()`: the text without leading and trailing whitespace. */
  function Strip(s: string): (r: string)
    ensures r == [] <==> forall j :: 0 <= j < |s| ==> IsSpace(s[j])
    ensures r != [] ==> !IsSpace(r[0]) && !IsSpace(r[|r| - 1])
    ensures forall j :: 0 <= j < |r| ==> r[j] in s
    ensures exists a: nat, b: nat :: TrimmedBy(s, a, b, r)
  {
    var a := LeadingSpaces(s);
    var b := TrailingSpaces(s[a..]);
    StripFacts(s, a, b);
    s[a..|s| - b]
  }

  lemma StripFacts(s: string, a: nat, b: nat)
    requires a == LeadingSpaces(s) && b == TrailingSpaces(s[a..])
    ensures a + b <= |s| && TrimmedBy(s, a, b, s[a..|s| - b])
    ensures a + b == |s| <==> forall j :: 0 <= j < |s| ==> IsSpace(s[j])
    ensures a + b < |s| ==> !IsSpace(s[a]) && !IsSpace(s[|s| - b - 1])
  {
    TrailingCut(s, a, b);
    if a + b < |s| {
      StripEnds(s, a, b);
    }
  }

  /** When something is left, it starts and ends with a character that is not whitespace. */
  lemma StripEnds(s: string, a: nat, b: nat)
    requires a == LeadingSpaces(s) && b == TrailingSpaces(s[a..]) && a + b < |s|
    ensures !IsSpace(s[a]) && !IsSpace(s[|s| - b - 1])
  {
    var rest := s[a..];
    assert s[|s| - b - 1] == rest[|rest| - b - 1];
  }

  /** The trailing whitespace of the text after its leading whitespace is that of the text. */
  lemma TrailingCut(s: string, a: nat, b: nat)
    requires a <= |s| && b == TrailingSpaces(s[a..])
    ensures forall j :: |s| - b <= j < |s| ==> IsSpace(s[j])
  {
    forall j | |s| - b <= j < |s|
      ensures IsSpace(s[j])
    {
      assert s[j] == s[a..][j - a];
    }
  }

  function LowerChar(c: char): (r: char)
  {
    if 'A' <= c <= 'Z' then (c as int + 32) as char else c
  }

  /** ASCII lower-casing, which is all the tag-name comparisons of the source need. */
  function Lower(s: string): (r: string)
    ensures |r| == |s|
  {
    seq(|s|, i requires 0 <= i < |s| => LowerChar(s[i]))
  }

  function DigitChar(d: nat): (c: char)
    requires d < 10
  {
    ('0' as int + d) as char
  }

  function DigitValue(c: char): (r: int)
  {
    c as int - '0' as int
  }

  /** Python's `str(n)` for a natural number: its decimal digits, most significant first. */
  function FormatDecimal(n: nat): (r: string)
    ensures |r| >= 1
    ensures forall j :: 0 <= j < |r| ==> '0' <= r[j] <= '9'
  {
    if n < 10 then [DigitChar(n)]
    else FormatDecimal(n / 10) + [DigitChar(n % 10)]
  }

  /** Python's `int(s)` for a string of decimal digits. */
  function ParseDecimal(s: string): (r: int)
  {
    if s == [] then 0 else ParseDecimal(s[..|s| - 1]) * 10 + DigitValue(s[|s| - 1])
  }

  /** Formatting a number in decimal and reading it back gives the number. */
  lemma {:induction false} FormatParseRoundTrip(n: nat)
    ensures ParseDecimal(FormatDecimal(n)) == n
  {
    if n < 10 {
      assert FormatDecimal(n)[..0] == [];
    } else {
      var head := FormatDecimal(n / 10);
      var s := head + [DigitChar(n % 10)];
      assert s[..|s| - 1] == head;
      FormatParseRoundTrip(n / 10);
    }
  }
}
