/** The java.util.List operations the solver relies on, over sequences of
    integers: contains, indexOf, remove(Object) and removeAll. */
module Lists {

  predicate NoDuplicates(s: seq<int>) {
    forall i, j | 0 <= i < j < |s| :: s[i] != s[j]
  }

  predicate StrictlyIncreasing(s: seq<int>) {
    forall i, j | 0 <= i < j < |s| :: s[i] < s[j]
  }

  /** indexOf: the first index holding v, or -1 when v does not occur. */
  function IndexOf(s: seq<int>, v: int): (i: int)
    ensures -1 <= i < |s|
    ensures i == -1 <==> v !in s
    ensures 0 <= i ==> s[i] == v && v !in s[..i]
  {
    if s == [] then -1
    else if s[0] == v then 0
    else
      var j := IndexOf(s[1..], v);
      if j == -1 then -1 else j + 1
  }

  /** remove(Object): deletes the first occurrence of v, keeping the order of
      the other elements; a list without v is returned as it is. */
  function RemoveFirst(s: seq<int>, v: int): (r: seq<int>)
    ensures v !in s ==> r == s
    ensures v in s ==>
              && |r| == |s| - 1
              && exists i | 0 <= i < |s| :: s[i] == v && v !in s[..i] && r == s[..i] + s[i + 1..]
    ensures multiset(r) == multiset(s) - multiset{v}
  {
    var i := IndexOf(s, v);
    if i < 0 then s
    else
      assert s == s[..i] + [s[i]] + s[i + 1..];
      s[..i] + s[i + 1..]
  }

  /** Removing v from a list without duplicates removes every occurrence of v
      and nothing else, and leaves a list without duplicates. */
  lemma RemoveFirstWithoutDuplicates(s: seq<int>, v: int)
    requires NoDuplicates(s)
    ensures NoDuplicates(RemoveFirst(s, v))
    ensures forall w :: w in RemoveFirst(s, v) <==> w in s && w != v
  {
    if v in s {
      var i := IndexOf(s, v);
      assert RemoveFirst(s, v) == s[..i] + s[i + 1..];
      DeleteAtWithoutDuplicates(s, i);
    }
  }

  /** Deleting index i of a list without duplicates deletes exactly s[i]. */
  lemma DeleteAtWithoutDuplicates(s: seq<int>, i: int)
    requires NoDuplicates(s) && 0 <= i < |s|
    ensures NoDuplicates(s[..i] + s[i + 1..])
    ensures forall w :: w in s[..i] + s[i + 1..] <==> w in s && w != s[i]
  {
    var r := s[..i] + s[i + 1..];
    assert |r| == |s| - 1;
    assert forall k | 0 <= k < i :: r[k] == s[k];
    assert forall k | i <= k < |r| :: r[k] == s[k + 1];
    forall w ensures w in r <==> w in s && w != s[i] {
      if w in s && w != s[i] {
        var k :| 0 <= k < |s| && s[k] == w;
        if k < i { assert r[k] == w; } else { assert r[k - 1] == w; }
      }
    }
  }

  /** removeAll: the elements of s that do not occur in t, in their order. */
  function RemoveAll(s: seq<int>, t: seq<int>): (r: seq<int>)
    ensures |r| <= |s|
    ensures forall x :: x in r <==> x in s && x !in t
    ensures StrictlyIncreasing(s) ==> StrictlyIncreasing(r)
  {
    if s == [] then []
    else
      var init := RemoveAll(s[..|s| - 1], t);
      var last := s[|s| - 1];
      assert forall x | x in s[..|s| - 1] :: x in s;
      assert forall x | x in s :: x in s[..|s| - 1] || x == last;
      assert StrictlyIncreasing(s) ==> StrictlyIncreasing(init + [last]) by {
        if StrictlyIncreasing(s) {
          assert StrictlyIncreasing(s[..|s| - 1]);
          forall x | x in init ensures x < last {
            var k :| 0 <= k < |s| - 1 && s[k] == x;
          }
          AppendLargerKeepsIncreasing(init, last);
        }
      }
      if last in t then init
      else init + [last]
  }

  lemma AppendLargerKeepsIncreasing(s: seq<int>, x: int)
    requires StrictlyIncreasing(s)
    requires forall y | y in s :: y < x
    ensures StrictlyIncreasing(s + [x])
  {
    var r := s + [x];
    forall i, j | 0 <= i < j < |r| ensures r[i] < r[j] {
      assert r[i] == s[i] && r[i] in s;
    }
  }
}
