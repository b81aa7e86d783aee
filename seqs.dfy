/** Counting and searching over sequences: the two loops the coordinator
    runs over its task lists. */
module Seqs {

  /** The number of elements of s satisfying p. */
  function CountWhere<T>(s: seq<T>, p: T -> bool): (n: nat)
    ensures n <= |s|
    decreases |s|
  {
    if s == [] then 0 else CountWhere(s[..|s| - 1], p) + (if p(s[|s| - 1]) then 1 else 0)
  }

  /** Replacing one element changes the count only by what that element contributes. */
  lemma {:induction false} CountWhereUpdate<T>(s: seq<T>, i: nat, x: T, p: T -> bool)
    requires i < |s|
    ensures CountWhere(s[i := x], p)
         == CountWhere(s, p) - (if p(s[i]) then 1 else 0) + (if p(x) then 1 else 0)
    decreases |s|
  {
    var t := s[i := x];
    if i == |s| - 1 {
      assert t[..|t| - 1] == s[..|s| - 1];
    } else {
      assert t[..|t| - 1] == s[..|s| - 1][i := x];
      CountWhereUpdate(s[..|s| - 1], i, x, p);
    }
  }

  /** No element satisfies p exactly when the count is zero. */
  lemma {:induction false} CountWhereZero<T>(s: seq<T>, p: T -> bool)
    ensures CountWhere(s, p) == 0 <==> forall k :: 0 <= k < |s| ==> !p(s[k])
    decreases |s|
  {
    if s != [] {
      var init := s[..|s| - 1];
      CountWhereZero(init, p);
      assert forall k :: 0 <= k < |init| ==> init[k] == s[k];
    }
  }

  /** Every element satisfies p exactly when the count is the length. */
  lemma {:induction false} CountWhereAll<T>(s: seq<T>, p: T -> bool)
    ensures CountWhere(s, p) == |s| <==> forall k :: 0 <= k < |s| ==> p(s[k])
    decreases |s|
  {
    if s != [] {
      var init := s[..|s| - 1];
      CountWhereAll(init, p);
      assert forall k :: 0 <= k < |init| ==> init[k] == s[k];
    }
  }

  /** Sequences that agree on p elementwise have the same count. */
  lemma {:induction false} CountWhereSame<T>(s: seq<T>, t: seq<T>, p: T -> bool)
    requires |s| == |t|
    requires forall k :: 0 <= k < |s| ==> p(s[k]) == p(t[k])
    ensures CountWhere(s, p) == CountWhere(t, p)
    decreases |s|
  {
    if s != [] {
      CountWhereSame(s[..|s| - 1], t[..|t| - 1], p);
    }
  }

  /** The lowest index whose element satisfies p, or |s| when there is none. */
  function FirstWhere<T>(s: seq<T>, p: T -> bool): (i: nat)
    ensures i <= |s|
    ensures i < |s| ==> p(s[i])
    ensures forall j :: 0 <= j < i ==> !p(s[j])
    decreases |s|
  {
    if s == [] then 0
    else if p(s[0]) then 0
    else 1 + FirstWhere(s[1..], p)
  }

  /** Some element of a non-empty set: one step of ranging over a Go map,
      whose order is unspecified. */
  method Pick<T>(s: set<T>) returns (x: T)
    requires s != {}
    ensures x in s
  {
    x :| x in s;
  }
}
