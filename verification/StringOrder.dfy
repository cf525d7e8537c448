/** The ascending order in which the ledger's string columns are sorted
    (lexicographic by character code, as for UTF-8 bytes), and sorted lists
    without duplicates built by insertion. */
module StringOrder {

  /** `a` sorts strictly before `b`: a proper prefix, or smaller at the first
      position where they differ. */
  predicate Less(a: string, b: string)
    decreases |a|
  {
    if |b| == 0 then false
    else if |a| == 0 then true
    else if a[0] != b[0] then a[0] < b[0]
    else Less(a[1..], b[1..])
  }

  lemma {:induction false} LessIrreflexive(a: string)
    ensures !Less(a, a)
    decreases |a|
  {
    if |a| > 0 {
      LessIrreflexive(a[1..]);
    }
  }

  lemma {:induction false} LessTransitive(a: string, b: string, c: string)
    requires Less(a, b) && Less(b, c)
    ensures Less(a, c)
    decreases |a|
  {
    if |a| > 0 && a[0] == b[0] && b[0] == c[0] {
      LessTransitive(a[1..], b[1..], c[1..]);
    }
  }

  /** Any two different strings are ordered one way or the other. */
  lemma {:induction false} LessTotal(a: string, b: string)
    requires a != b
    ensures Less(a, b) || Less(b, a)
    decreases |a|
  {
    if |a| > 0 && |b| > 0 && a[0] == b[0] {
      assert a == [a[0]] + a[1..] && b == [b[0]] + b[1..];
      LessTotal(a[1..], b[1..]);
    }
  }

  /** Ascending without duplicates. */
  predicate StrictlySorted(xs: seq<string>)
  {
    forall i, j :: 0 <= i < |xs| && 0 <= j < |xs| && j == i + 1 ==> Less(xs[i], xs[j])
  }

  lemma {:induction false} SortedHeadBelow(xs: seq<string>, k: int)
    requires StrictlySorted(xs) && 0 < k < |xs|
    ensures Less(xs[0], xs[k])
    decreases k
  {
    if k > 1 {
      SortedHeadBelow(xs, k - 1);
      LessTransitive(xs[0], xs[k - 1], xs[k]);
    }
  }

  lemma SortedTail(xs: seq<string>)
    requires StrictlySorted(xs) && |xs| > 0
    ensures StrictlySorted(xs[1..])
  {
    var t := xs[1..];
    forall i, j | 0 <= i < |t| && 0 <= j < |t| && j == i + 1
      ensures Less(t[i], t[j])
    {
      assert t[i] == xs[i + 1] && t[j] == xs[j + 1];
    }
  }

  /** A sorted list holds each string once. */
  lemma SortedDistinct(xs: seq<string>)
    requires StrictlySorted(xs)
    ensures forall i, j :: 0 <= i < j < |xs| ==> xs[i] != xs[j]
  {
    forall i, j | 0 <= i < j < |xs|
      ensures xs[i] != xs[j]
    {
      SortedHeadBelow(xs[i..], j - i);
      LessIrreflexive(xs[i]);
    }
  }

  /** `x` added to a sorted list, in its place, unless it is there already. */
  function Insert(xs: seq<string>, x: string): (r: seq<string>)
    requires StrictlySorted(xs)
    ensures StrictlySorted(r)
    ensures forall y :: y in r <==> y in xs || y == x
    ensures |r| > 0 && (Less(r[0], x) || r[0] == x)
    ensures |r| > 0 && |xs| > 0 ==> r[0] == x || r[0] == xs[0]
    decreases |xs|
  {
    if |xs| == 0 then [x]
    else if x == xs[0] then xs
    else if Less(x, xs[0]) then [x] + xs
    else
      SortedTail(xs);
      LessTotal(x, xs[0]);
      var rest := Insert(xs[1..], x);
      assert forall y :: y in xs <==> y == xs[0] || y in xs[1..] by {
        assert xs == [xs[0]] + xs[1..];
      }
      if |xs| > 1 then SortedHeadBelow(xs, 1); [xs[0]] + rest
      else [xs[0]] + rest
  }

  /** The strings of `ys`, ascending, each once (`unique` then `sort`). */
  function SortedUnique(ys: seq<string>): (r: seq<string>)
    ensures StrictlySorted(r)
    ensures forall y :: y in r <==> y in ys
  {
    if |ys| == 0 then []
    else
      assert forall y :: y in ys <==> y in ys[..|ys| - 1] || y == ys[|ys| - 1] by {
        assert ys == ys[..|ys| - 1] + [ys[|ys| - 1]];
      }
      Insert(SortedUnique(ys[..|ys| - 1]), ys[|ys| - 1])
  }

  /** The sorted list of a set of strings is determined by the set. */
  lemma {:induction false} SortedUniqueDetermined(xs: seq<string>, ys: seq<string>)
    requires StrictlySorted(xs) && StrictlySorted(ys)
    requires forall y :: y in xs <==> y in ys
    ensures xs == ys
    decreases |xs|
  {
    SameEmptiness(xs, ys);
    if |xs| > 0 {
      if xs[0] != ys[0] {
        assert xs[0] in ys && ys[0] in xs;
        var i :| 0 <= i < |ys| && ys[i] == xs[0];
        var j :| 0 <= j < |xs| && xs[j] == ys[0];
        assert i > 0 && j > 0;
        SortedHeadBelow(ys, i);
        SortedHeadBelow(xs, j);
        LessTransitive(xs[0], ys[0], xs[0]);
        LessIrreflexive(xs[0]);
      }
      SortedTail(xs);
      SortedTail(ys);
      SortedDistinct(xs);
      SortedDistinct(ys);
      assert xs == [xs[0]] + xs[1..] && ys == [ys[0]] + ys[1..];
      forall y
        ensures y in xs[1..] <==> y in ys[1..]
      {
        if y in xs[1..] {
          var k :| 1 <= k < |xs| && xs[k] == y;
          assert y in ys;
          var m :| 0 <= m < |ys| && ys[m] == y;
          assert m != 0;
          assert ys[1..][m - 1] == y;
        }
        if y in ys[1..] {
          var k :| 1 <= k < |ys| && ys[k] == y;
          assert y in xs;
          var m :| 0 <= m < |xs| && xs[m] == y;
          assert m != 0;
          assert xs[1..][m - 1] == y;
        }
      }
      SortedUniqueDetermined(xs[1..], ys[1..]);
      assert xs == [xs[0]] + xs[1..] && ys == [ys[0]] + ys[1..];
    }
  }

  lemma SameEmptiness(xs: seq<string>, ys: seq<string>)
    requires forall y :: y in xs <==> y in ys
    ensures |xs| == 0 <==> |ys| == 0
  {
    if |xs| > 0 {
      assert xs[0] in ys;
    }
    if |ys| > 0 {
      assert ys[0] in xs;
    }
  }
}
