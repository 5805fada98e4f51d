// Sequences, C strings, buffers of characters, and the C library calls on them.
module Sequences {

  predicate Distinct<T(==)>(s: seq<T>) {
    forall i, j :: 0 <= i < j < |s| ==> s[i] != s[j]
  }

  lemma DistinctParts<T>(a: seq<T>, n: T, b: seq<T>)
    requires Distinct(a + [n] + b)
    ensures Distinct(a) && Distinct(b) && Distinct(a + b) && n !in a && n !in b
    ensures forall k :: k in a ==> k !in b
    ensures forall k :: k in a + [n] + b <==> k in a || k == n || k in b
  {
    var all := a + [n] + b;
    assert forall i :: 0 <= i < |a| ==> all[i] == a[i];
    assert all[|a|] == n;
    assert forall i :: 0 <= i < |b| ==> all[|a| + 1 + i] == b[i];
  }

  function FirstOr<T>(part: seq<T>, other: T): T {
    if part == [] then other else part[0]
  }

  function LastOr<T>(part: seq<T>, other: T): T {
    if part == [] then other else part[|part| - 1]
  }

  function Concat(parts: seq<string>): string {
    if parts == [] then "" else parts[0] + Concat(parts[1..])
  }

  lemma {:induction false} ConcatSum(a: seq<string>, b: seq<string>)
    ensures Concat(a + b) == Concat(a) + Concat(b)
  {
    if a == [] {
      assert a + b == b;
    } else {
      assert (a + b)[1..] == a[1..] + b;
      ConcatSum(a[1..], b);
      assert a[0] + (Concat(a[1..]) + Concat(b)) == a[0] + Concat(a[1..]) + Concat(b);
    }
  }

  lemma ConcatOne(s: string)
    ensures Concat([s]) == s
  {
    assert [s][1..] == [];
  }

  /** memcpy into a buffer, from a source that does not overlap it. */
  method MemCpy(output: array<char>, at: nat, source: string)
    requires at + |source| <= output.Length
    modifies output
    ensures output[..at] == old(output[..at]) && output[at..at + |source|] == source
    ensures forall k :: at + |source| <= k < output.Length ==> output[k] == old(output[k])
  {
    var i := 0;
    while i < |source|
      invariant 0 <= i <= |source|
      invariant forall k :: 0 <= k < at || at + i <= k < output.Length ==> output[k] == old(output[k])
      invariant forall k :: 0 <= k < i ==> output[at + k] == source[k]
    {
      output[at + i] := source[i];
      i := i + 1;
    }
  }

  lemma Grow(output: array<char>, a: nat, b: nat, done: string, more: string)
    requires a <= b <= output.Length && output[..a] == done && output[a..b] == more
    ensures output[..b] == done + more && b == |done + more|
  {}

  // ---- C strings ----

  /** strlen: the length of the text up to the first NUL. */
  function Strlen(s: string): (n: nat)
    ensures n <= |s| && '\0' !in s[..n] && (n < |s| ==> s[n] == '\0')
  {
    if s == "" || s[0] == '\0' then 0
    else
      var n := Strlen(s[1..]);
      assert s[..n + 1] == [s[0]] + s[1..][..n];
      n + 1
  }

  predicate NulFree(s: string) {
    '\0' !in s
  }

  /** What is left of a text that is handed on as a C string. */
  function CString(s: string): string {
    s[..Strlen(s)]
  }

  /** A C string is free of NUL, and only texts without NUL are handed on whole. */
  lemma CStringIs(s: string)
    ensures NulFree(CString(s)) && CString(CString(s)) == CString(s)
    ensures CString(s) == s <==> NulFree(s)
  {
    Unchanged(s);
    Unchanged(CString(s));
  }

  lemma Unchanged(s: string)
    ensures NulFree(s) ==> CString(s) == s
  {
    assert Strlen(s) < |s| ==> s[Strlen(s)] in s;
  }
}
