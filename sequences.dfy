/**
 * The std::vector idioms the AIMF state is built from: a front-to-back scan
 * that stops at the first element satisfying a test, and `erase` of that
 * element. FirstIndex is the reference definition of the scan; the loop
 * methods of AimfState are proved to agree with it.
 */
module Sequences {
  import opened AimfTypes

  /** r is where a front-to-back scan of s for p stops: the first match, or None when nothing matches. */
  ghost predicate IsFirstMatch<T>(s: seq<T>, p: T -> bool, r: Option<nat>)
  {
    match r
    case Some(i) => i < |s| && p(s[i]) && forall j :: 0 <= j < i ==> !p(s[j])
    case None => forall j :: 0 <= j < |s| ==> !p(s[j])
  }

  /** The index of the first element of s satisfying p. */
  function FirstIndex<T>(s: seq<T>, p: T -> bool): (r: Option<nat>)
    ensures IsFirstMatch(s, p, r)
  {
    if |s| == 0 then None
    else if p(s[0]) then Some(0)
    else match FirstIndex(s[1..], p)
      case None => None
      case Some(i) => Some(i + 1)
  }

  /** A scan has only one possible outcome. */
  lemma FirstMatchUnique<T>(s: seq<T>, p: T -> bool, r: Option<nat>)
    requires IsFirstMatch(s, p, r)
    ensures r == FirstIndex(s, p)
  {
  }

  /** The loop of every Find* operation: an iterator walk that returns at the first match. */
  method Scan<T>(s: seq<T>, p: T -> bool) returns (r: Option<nat>)
    ensures IsFirstMatch(s, p, r)
  {
    var i := 0;
    while i < |s|
      invariant i <= |s|
      invariant forall j :: 0 <= j < i ==> !p(s[j])
    {
      if p(s[i]) {
        return Some(i);
      }
      i := i + 1;
    }
    return None;
  }

  /** vector::erase of the element at i. */
  function RemoveAt<T>(s: seq<T>, i: nat): (r: seq<T>)
    requires i < |s|
    ensures |r| == |s| - 1
    ensures forall j :: 0 <= j < i ==> r[j] == s[j]
    ensures forall j :: i <= j < |r| ==> r[j] == s[j + 1]
  {
    s[..i] + s[i + 1..]
  }

  /** Erase of the first element satisfying p; nothing changes when none does. */
  function RemoveFirst<T>(s: seq<T>, p: T -> bool): seq<T>
  {
    if |s| == 0 then []
    else if p(s[0]) then s[1..]
    else [s[0]] + RemoveFirst(s[1..], p)
  }

  /** Erasing the first match removes exactly that element and keeps the order of the rest. */
  lemma {:induction false} RemoveFirstAt<T>(s: seq<T>, p: T -> bool, i: nat)
    requires IsFirstMatch(s, p, Some(i))
    ensures RemoveFirst(s, p) == RemoveAt(s, i)
    decreases |s|
  {
    if i > 0 {
      assert !p(s[0]);
      assert IsFirstMatch(s[1..], p, Some(i - 1)) by {
        forall j | 0 <= j < i - 1
          ensures !p(s[1..][j])
        {
          assert s[1..][j] == s[j + 1];
        }
      }
      RemoveFirstAt(s[1..], p, i - 1);
      assert s[1..][..i - 1] == s[1..i];
      assert s[1..][i..] == s[i + 1..];
      assert [s[0]] + s[1..i] == s[..i];
    }
  }

  /** Erasing an element that is not there changes nothing. */
  lemma {:induction false} RemoveFirstAbsent<T>(s: seq<T>, p: T -> bool)
    requires IsFirstMatch(s, p, None)
    ensures RemoveFirst(s, p) == s
    decreases |s|
  {
    if |s| > 0 {
      assert !p(s[0]);
      assert IsFirstMatch(s[1..], p, None) by {
        forall j | 0 <= j < |s| - 1
          ensures !p(s[1..][j])
        {
          assert s[1..][j] == s[j + 1];
        }
      }
      RemoveFirstAbsent(s[1..], p);
      assert [s[0]] + s[1..] == s;
    }
  }

  /** Erase-first removes exactly one occurrence, of the first match, from the multiset of elements. */
  lemma RemoveFirstMultiset<T>(s: seq<T>, p: T -> bool)
    ensures FirstIndex(s, p).None? ==> multiset(RemoveFirst(s, p)) == multiset(s)
    ensures FirstIndex(s, p).Some? ==>
      multiset(RemoveFirst(s, p)) + multiset{s[FirstIndex(s, p).value]} == multiset(s)
  {
    match FirstIndex(s, p)
    case None =>
      RemoveFirstAbsent(s, p);
    case Some(i) =>
      RemoveFirstAt(s, p, i);
      assert s == s[..i] + [s[i]] + s[i + 1..];
  }
}
