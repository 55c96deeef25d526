/** Listing a finite set of ids in ascending order, as `ORDER BY id` does. */
module Ordering {

  predicate Increasing(s: seq<int>)
  {
    forall i, j :: 0 <= i < j < |s| ==> s[i] < s[j]
  }

  /** A non-empty set has a member. */
  lemma HasMember(s: set<int>)
    requires s != {}
    ensures exists y :: y in s
  {
    if forall y :: y !in s {
      assert false;
    }
  }

  lemma {:induction false} MinExists(s: set<int>)
    requires s != {}
    ensures exists m :: m in s && forall x :: x in s ==> m <= x
    decreases |s|
  {
    HasMember(s);
    var y :| y in s;
    if s == {y} {
      assert forall x :: x in s ==> y <= x;
    } else {
      MinExists(s - {y});
      var m :| m in s - {y} && forall x :: x in s - {y} ==> m <= x;
      var least := if y < m then y else m;
      forall x | x in s
        ensures least <= x
      {
        if x != y {
          assert x in s - {y};
        }
      }
      assert least in s;
    }
  }

  /** The smallest element of a non-empty set. */
  function SetMin(s: set<int>): (m: int)
    requires s != {}
    ensures m in s && forall x :: x in s ==> m <= x
  {
    MinExists(s);
    var m :| m in s && forall x :: x in s ==> m <= x;
    m
  }

  /** The elements of `s`, each once, in ascending order. */
  function SortedElements(s: set<int>): (r: seq<int>)
    ensures |r| == |s|
    ensures Increasing(r)
    ensures forall x :: x in s <==> x in r
    decreases |s|
  {
    if s == {} then []
    else
      var m := SetMin(s);
      [m] + SortedElements(s - {m})
  }

  /** In an increasing sequence, the first `k` elements are all below any later one. */
  lemma PrefixBelowRest(s: seq<int>, k: nat, x: int)
    requires Increasing(s) && k <= |s|
    requires x in s && x !in s[..k]
    ensures forall i :: 0 <= i < k ==> s[i] < x
  {
    forall i | 0 <= i < k
      ensures s[i] < x
    {
      assert s[i] in s[..k];
    }
  }

  /**
    The first `k` elements of `s` in ascending order: `k` members of `s`,
    increasing, and all below every member of `s` they leave out.
  */
  lemma SmallestFirst(s: set<int>, k: nat)
    requires k <= |s|
    ensures var ids := SortedElements(s)[..k];
      && |ids| == k && Increasing(ids)
      && (forall i :: 0 <= i < k ==> ids[i] in s)
      && (forall x, i :: x in s && x !in ids && 0 <= i < k ==> ids[i] < x)
  {
    var all := SortedElements(s);
    var ids := all[..k];
    forall i | 0 <= i < k
      ensures ids[i] in s
    {
      assert ids[i] == all[i] && all[i] in all;
    }
    forall i, j | 0 <= i < j < k
      ensures ids[i] < ids[j]
    {
      assert ids[i] == all[i] && ids[j] == all[j];
    }
    forall x | x in s && x !in ids
      ensures forall i :: 0 <= i < k ==> ids[i] < x
    {
      PrefixBelowRest(all, k, x);
    }
  }
}
