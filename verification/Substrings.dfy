// Searching in C strings: strstr, and cutting a text at a substring.
module Substrings {
  import opened Options

  predicate OccursAt(s: string, t: string, i: nat) {
    i + |t| <= |s| && s[i..i + |t|] == t
  }

  /** strstr: the first place where `t` occurs. */
  function StrStr(s: string, t: string): (r: Option<nat>)
    ensures r.Some? ==> OccursAt(s, t, r.value) && forall i: nat :: i < r.value ==> !OccursAt(s, t, i)
    ensures r.None? ==> forall i: nat :: !OccursAt(s, t, i)
  {
    if OccursAt(s, t, 0) then Some(0)
    else if s == "" then None
    else
      var r := StrStr(s[1..], t);
      Shifted(s, t);
      if r.Some? then Some(r.value + 1) else None
  }

  predicate Contains(s: string, t: string): (r: bool)
    ensures r <==> exists i: nat :: OccursAt(s, t, i)
  {
    StrStr(s, t).Some?
  }

  lemma Shifted(s: string, t: string)
    requires s != ""
    ensures forall i: nat :: OccursAt(s, t, i + 1) <==> OccursAt(s[1..], t, i)
    ensures forall i: nat :: i > 0 ==> (OccursAt(s, t, i) <==> OccursAt(s[1..], t, i - 1))
  {
    forall i: nat
      ensures OccursAt(s, t, i + 1) <==> OccursAt(s[1..], t, i)
    {
      if i + 1 + |t| <= |s| {
        assert s[1..][i..i + |t|] == s[i + 1..i + 1 + |t|];
      }
    }
    forall i: nat | i > 0
      ensures OccursAt(s, t, i) <==> OccursAt(s[1..], t, i - 1)
    {
      assert OccursAt(s, t, (i - 1) + 1) <==> OccursAt(s[1..], t, i - 1);
    }
  }

  /** An occurrence in a part is an occurrence in the whole. */
  lemma OccursInPart(s: string, t: string, from: nat, to: nat, i: nat)
    requires from <= to <= |s|
    ensures OccursAt(s[from..to], t, i) <==> OccursAt(s, t, from + i) && from + i + |t| <= to
  {
    if from + i + |t| <= to {
      var a, b := s[from..to][i..i + |t|], s[from + i..from + i + |t|];
      assert |a| == |b| && forall j :: 0 <= j < |a| ==> a[j] == b[j];
    }
  }
}
