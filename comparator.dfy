/** Ordering of empty cells by their number of variants, and the list sort
    that the solver applies with it. */
module VariantCountComparator {
  import opened EmptyCells

  /** compare: negative, zero or positive as `a` has fewer, as many or more
      variants than `b`. Both sizes are non-negative, so the subtraction
      cannot overflow a 32-bit int. */
  function Compare(a: EmptyCell, b: EmptyCell): (r: int)
    ensures r < 0 <==> |a.variants| < |b.variants|
    ensures r == 0 <==> |a.variants| == |b.variants|
    ensures r > 0 <==> |a.variants| > |b.variants|
  {
    |a.variants| - |b.variants|
  }

  lemma CompareAntisymmetric(a: EmptyCell, b: EmptyCell)
    ensures Compare(a, b) == -Compare(b, a)
  {
  }

  lemma CompareReflexive(a: EmptyCell)
    ensures Compare(a, a) == 0
  {
  }

  lemma CompareTransitive(a: EmptyCell, b: EmptyCell, c: EmptyCell)
    requires Compare(a, b) <= 0 && Compare(b, c) <= 0
    ensures Compare(a, c) <= 0
  {
  }

  predicate SortedByVariantCount(s: seq<EmptyCell>) {
    forall i, j | 0 <= i < j < |s| :: Compare(s[i], s[j]) <= 0
  }

  lemma ConsKeepsSorted(x: EmptyCell, s: seq<EmptyCell>)
    requires SortedByVariantCount(s)
    requires forall y | y in s :: Compare(x, y) <= 0
    ensures SortedByVariantCount([x] + s)
  {
    var r := [x] + s;
    forall i, j | 0 <= i < j < |r| ensures Compare(r[i], r[j]) <= 0 {
      if i == 0 {
        assert r[j] == s[j - 1] && r[j] in s;
      } else {
        assert r[i] == s[i - 1] && r[j] == s[j - 1];
      }
    }
  }

  /** Inserts x in front of the first element it does not exceed. */
  function Insert(x: EmptyCell, s: seq<EmptyCell>): (r: seq<EmptyCell>)
    requires SortedByVariantCount(s)
    ensures SortedByVariantCount(r)
    ensures multiset(r) == multiset(s) + multiset{x}
    ensures |r| == |s| + 1
  {
    if s == [] || Compare(x, s[0]) <= 0 then
      FrontKeepsSorted(x, s);
      [x] + s
    else
      TailSorted(s);
      var rest := Insert(x, s[1..]);
      assert s == [s[0]] + s[1..];
      HeadBoundsRest(x, s, rest);
      ConsKeepsSorted(s[0], rest);
      [s[0]] + rest
  }

  lemma FrontKeepsSorted(x: EmptyCell, s: seq<EmptyCell>)
    requires SortedByVariantCount(s) && (s == [] || Compare(x, s[0]) <= 0)
    ensures SortedByVariantCount([x] + s)
  {
    forall y | y in s ensures Compare(x, y) <= 0 {
      var k :| 0 <= k < |s| && s[k] == y;
      if k > 0 {
        assert Compare(s[0], s[k]) <= 0;
      }
    }
    ConsKeepsSorted(x, s);
  }

  lemma TailSorted(s: seq<EmptyCell>)
    requires SortedByVariantCount(s) && s != []
    ensures SortedByVariantCount(s[1..])
  {
    forall i, j | 0 <= i < j < |s| - 1 ensures Compare(s[1..][i], s[1..][j]) <= 0 {
      assert s[1..][i] == s[i + 1] && s[1..][j] == s[j + 1];
    }
  }

  /** The head of s does not exceed any element of rest, a reordering of the
      tail of s together with an x that the head does not exceed. */
  lemma HeadBoundsRest(x: EmptyCell, s: seq<EmptyCell>, rest: seq<EmptyCell>)
    requires SortedByVariantCount(s) && s != [] && Compare(s[0], x) <= 0
    requires multiset(rest) == multiset(s[1..]) + multiset{x}
    ensures forall y | y in rest :: Compare(s[0], y) <= 0
  {
    forall y | y in rest ensures Compare(s[0], y) <= 0 {
      assert y in multiset(rest);
      if y != x {
        assert y in s[1..];
        var k :| 0 <= k < |s| - 1 && s[1..][k] == y;
        assert s[k + 1] == y;
      }
    }
  }

  /** Collections.sort with this comparator: a stable sort (each element is
      inserted in front of the equal ones that followed it). */
  function SortByVariantCount(s: seq<EmptyCell>): (r: seq<EmptyCell>)
    ensures SortedByVariantCount(r)
    ensures multiset(r) == multiset(s)
    ensures |r| == |s|
  {
    if s == [] then []
    else
      assert s == [s[0]] + s[1..];
      Insert(s[0], SortByVariantCount(s[1..]))
  }
}
