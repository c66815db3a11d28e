/** Shared vocabulary: optional values, and two facts about sequences that proofs ask for by name. */
module Basics {
  datatype Option<+T> = None | Some(value: T) {
    function UnwrapOr(otherwise: T): T {
      match this
      case Some(v) => v
      case None => otherwise
    }
  }

  lemma Assoc<T>(a: seq<T>, b: seq<T>, c: seq<T>)
    ensures (a + b) + c == a + (b + c)
  {
  }

  lemma TailOfAppend<T>(a: seq<T>, b: seq<T>)
    requires a != []
    ensures (a + b)[0] == a[0] && (a + b)[1..] == a[1..] + b
  {
  }

  lemma TakeSnoc<T>(s: seq<T>, n: nat)
    requires 0 < n <= |s|
    ensures s[..n - 1] + [s[n - 1]] == s[..n] && s[..n] <= s
  {
  }

  lemma FrontAndLast<T>(s: seq<T>)
    requires s != []
    ensures s[..|s| - 1] + [s[|s| - 1]] == s
  {
  }

  lemma PrefixMembers<T>(a: seq<T>, b: seq<T>)
    requires a <= b
    ensures forall x :: x in a ==> x in b
  {
    assert forall i :: 0 <= i < |a| ==> a[i] == b[i];
  }
}
