/** Lists of integer handles: the per-bin free-page lists and the per-class
    spare-segment lists are sequences of handles without repetitions. */
module Handles {

  /** No handle occurs twice. */
  ghost predicate NoDup(s: seq<nat>)
  {
    forall i, j :: 0 <= i < j < |s| ==> s[i] != s[j]
  }

  /** The list with every occurrence of x taken out, in the original order. */
  function Without(s: seq<nat>, x: nat): (r: seq<nat>)
    ensures forall y :: y in r <==> y in s && y != x
    ensures NoDup(s) ==> NoDup(r)
    ensures |r| <= |s|
  {
    if |s| == 0 then []
    else
      var rest := Without(s[1..], x);
      if s[0] == x then rest
      else
        assert NoDup(s) ==> s[0] !in s[1..];
        [s[0]] + rest
  }

  /** Pushing a new handle in front keeps the list free of repetitions. */
  lemma {:induction false} NoDupPush(x: nat, s: seq<nat>)
    requires NoDup(s) && x !in s
    ensures NoDup([x] + s)
  {
    forall i, j | 0 <= i < j < |[x] + s|
      ensures ([x] + s)[i] != ([x] + s)[j]
    {
      if i > 0 {
        assert ([x] + s)[i] == s[i - 1];
      }
      assert ([x] + s)[j] == s[j - 1];
    }
  }

  /** Popping the head leaves a list without repetitions that no longer holds the head. */
  lemma {:induction false} NoDupPop(s: seq<nat>)
    requires NoDup(s) && |s| > 0
    ensures NoDup(s[1..]) && s[0] !in s[1..]
  {
    forall y | y in s[1..]
      ensures y != s[0]
    {
      var t :| 0 <= t < |s[1..]| && s[1..][t] == y;
      assert s[t + 1] == y;
    }
  }

  /** L is the list s with x present exactly when `present` holds, and no repetitions. */
  ghost predicate Relisted(L: seq<nat>, s: seq<nat>, x: nat, present: bool)
  {
    NoDup(L) && forall y :: y in L <==> (y in s && y != x) || (y == x && present)
  }

  /** Popping the head takes it off the list. */
  lemma {:induction false} RelistedPop(s: seq<nat>)
    requires NoDup(s) && |s| > 0
    ensures Relisted(s[1..], s, s[0], false)
  {
    NoDupPop(s);
    assert s == [s[0]] + s[1..];
  }

  /** Pushing a handle the list does not hold puts it on the list. */
  lemma {:induction false} RelistedPush(s: seq<nat>, x: nat)
    requires NoDup(s) && x !in s
    ensures Relisted([x] + s, s, x, true)
  {
    NoDupPush(x, s);
  }

  /** Leaving the list alone keeps a handle exactly as listed as it was. */
  lemma {:induction false} RelistedKeep(s: seq<nat>, x: nat)
    requires NoDup(s)
    ensures Relisted(s, s, x, x in s)
  {
  }

  /** Without takes a handle off the list. */
  lemma {:induction false} RelistedDrop(s: seq<nat>, x: nat)
    requires NoDup(s)
    ensures Relisted(Without(s, x), s, x, false)
  {
  }
}
