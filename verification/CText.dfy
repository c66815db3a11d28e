/** Text in fixed buffers: characters up to a terminating NUL. */
module CText {
  import opened IniText

  /** From index `p` on, the buffer holds the text `s` and its terminator. */
  ghost predicate Holds(a: array<char>, p: nat, s: string)
    reads a
  {
    && p + |s| < a.Length && a[p + |s|] == NUL && NUL !in s
    && forall i {:trigger s[i]} :: 0 <= i < |s| ==> a[p + i] == s[i]
  }

  /** The text from a later index on is the rest of the text. */
  lemma HoldsFrom(a: array<char>, p: nat, s: string, k: nat)
    requires Holds(a, p, s) && k <= |s|
    ensures Holds(a, p + k, s[k..])
  {
    var rest := s[k..];
    assert forall i :: 0 <= i < |rest| ==> rest[i] == s[k + i];
    assert forall x :: x in rest ==> x in s;
  }

  method Strlen(a: array<char>, p: nat, ghost s: string) returns (n: nat)
    requires Holds(a, p, s)
    ensures n == |s|
  {
    n := 0;
    while a[p + n] != NUL
      invariant n <= |s| && (n < |s| ==> a[p + n] == s[n])
      decreases |s| - n
    {
      n := n + 1;
    }
  }

  /** Copies as much of a text as fits, always terminated. */
  method Strncpy0(dest: array<char>, src: array<char>, p: nat, ghost s: string)
    requires Holds(src, p, s) && dest != src && dest.Length > 0
    modifies dest
    ensures Holds(dest, 0, Truncate(s, dest.Length))
    ensures Holds(dest, 0, if |s| < dest.Length then s else s[..dest.Length - 1])
  {
    var i := 0;
    while i < dest.Length && src[p + i] != NUL
      invariant i <= dest.Length && i <= |s|
      invariant forall k :: 0 <= k < i ==> dest[k] == s[k]
    {
      assert i < |s| ==> src[p + i] == s[i];
      dest[i] := src[p + i];
      i := i + 1;
    }
    assert i < |s| ==> src[p + i] == s[i];
    while i < dest.Length
      invariant i <= dest.Length
      invariant forall k :: 0 <= k < i && k < |s| ==> dest[k] == s[k]
      invariant forall k :: |s| <= k < i ==> dest[k] == NUL
    {
      dest[i] := NUL;
      i := i + 1;
    }
    dest[dest.Length - 1] := NUL;
    ghost var t := Truncate(s, dest.Length);
    assert forall i :: 0 <= i < |t| ==> t[i] == s[i];
    assert forall x :: x in t ==> x in s;
  }

  /** The text held at an index, as a handler sees it. */
  method TextAt(a: array<char>, p: nat, ghost s: string) returns (text: string)
    requires Holds(a, p, s)
    ensures text == s
  {
    var n := Strlen(a, p, s);
    text := a[p..p + n];
    assert forall i :: 0 <= i < |s| ==> text[i] == s[i];
  }
}
