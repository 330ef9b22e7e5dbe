/** Substring search, as std::string::find and strstr provide it. */
module Strings {
  import opened Options

  /** isspace in the C locale. */
  predicate IsSpace(c: char) {
    c == ' ' || c == '\t' || c == '\n' || c == '\r' || c == 11 as char || c == 12 as char
  }

  predicate OccursAt(s: string, pat: string, i: nat) {
    i + |pat| <= |s| && s[i..i + |pat|] == pat
  }

  lemma OccursByOctets(s: string, pat: string, i: nat)
    ensures OccursAt(s, pat, i) <==> i + |pat| <= |s| && forall k :: 0 <= k < |pat| ==> s[i + k] == pat[k]
  {
    if i + |pat| <= |s| {
      var w := s[i..i + |pat|];
      assert forall k :: 0 <= k < |w| ==> w[k] == s[i + k];
    }
  }

  /** The first occurrence of pat at or after from. */
  function Find(s: string, pat: string, from: nat): (r: Option<nat>)
    ensures r.Some? ==> from <= r.value && r.value + |pat| <= |s|
    decreases |s| - from
  {
    if from + |pat| > |s| then None
    else if OccursAt(s, pat, from) then Some(from)
    else Find(s, pat, from + 1)
  }

  /** What Find promises: an occurrence with none before it, or no occurrence at all. */
  lemma {:induction false} FindFirst(s: string, pat: string, from: nat)
    ensures Find(s, pat, from).Some? ==> OccursAt(s, pat, Find(s, pat, from).value)
    ensures forall i {:trigger OccursAt(s, pat, i)} ::
              from <= i && (Find(s, pat, from).None? || i < Find(s, pat, from).value) ==> !OccursAt(s, pat, i)
    decreases |s| - from
  {
    if from + |pat| <= |s| && !OccursAt(s, pat, from) {
      FindFirst(s, pat, from + 1);
    }
  }

  predicate Contains(s: string, pat: string) {
    Find(s, pat, 0).Some?
  }

  /** Find is determined by being an occurrence with none before it. */
  lemma {:induction false} FindIs(s: string, pat: string, from: nat, p: nat)
    requires from <= p && OccursAt(s, pat, p)
    requires forall i :: from <= i < p ==> !OccursAt(s, pat, i)
    ensures Find(s, pat, from) == Some(p)
  {
    FindFirst(s, pat, from);
  }

  lemma {:induction false} ContainsAt(s: string, pat: string, i: nat)
    requires OccursAt(s, pat, i)
    ensures Contains(s, pat)
  {
    FindFirst(s, pat, 0);
  }

  lemma {:induction false} NotContains(s: string, pat: string)
    requires forall i: nat :: !OccursAt(s, pat, i)
    ensures !Contains(s, pat)
  {
    FindFirst(s, pat, 0);
  }

  lemma {:induction false} OccursAtShift(s: string, pat: string, k: nat, i: nat)
    requires k <= |s|
    ensures OccursAt(s[k..], pat, i) <==> OccursAt(s, pat, k + i)
  {
    if k + i + |pat| <= |s| {
      assert s[k..][i..i + |pat|] == s[k + i..k + i + |pat|];
    }
  }

  lemma {:induction false} FindShift(s: string, pat: string, k: nat)
    requires k <= |s|
    ensures Find(s, pat, k).None? <==> Find(s[k..], pat, 0).None?
    ensures Find(s, pat, k).Some? ==> Find(s, pat, k).value == k + Find(s[k..], pat, 0).value
  {
    forall i: nat ensures OccursAt(s[k..], pat, i) <==> OccursAt(s, pat, k + i) {
      OccursAtShift(s, pat, k, i);
    }
    var r, q := Find(s, pat, k), Find(s[k..], pat, 0);
    FindFirst(s, pat, k);
    FindFirst(s[k..], pat, 0);
    if r.Some? {
      assert OccursAt(s[k..], pat, r.value - k);
    }
    if q.Some? {
      assert OccursAt(s, pat, k + q.value);
    }
    if r.Some? && q.Some? {
      assert !(q.value < r.value - k);
    }
  }

  /** Occurrences in the front of u + v do not see v. */
  lemma {:induction false} OccursInPrefix(u: string, v: string, pat: string, i: nat)
    requires i + |pat| <= |u|
    ensures OccursAt(u + v, pat, i) <==> OccursAt(u, pat, i)
  {
    assert (u + v)[i..i + |pat|] == u[i..i + |pat|];
  }
}
