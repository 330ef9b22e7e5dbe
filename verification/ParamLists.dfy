/** Parameter lookup (src/param_string.c) said octet by octet, and on lists joined by any separators. */
module ParamLists {
  import opened Options
  import opened Strings
  import opened ParamString

  /** The text in front of the first ';'. */
  function UpToSemicolon(t: string): string {
    if t == "" || t[0] == ';' then "" else [t[0]] + UpToSemicolon(t[1..])
  }

  lemma {:induction false} FindSemicolon(s: string, i: nat)
    requires i <= |s|
    ensures i < |s| && s[i] == ';' ==> Find(s, ";", i) == Some(i)
    ensures i < |s| && s[i] != ';' ==> Find(s, ";", i) == Find(s, ";", i + 1)
    ensures i == |s| ==> Find(s, ";", i) == None
  {
    if i < |s| {
      assert s[i..i + 1] == [s[i]];
    }
  }

  lemma {:induction false} ValueByOctets(s: string, i: nat)
    requires i <= |s|
    ensures ValueFrom(s, i) == UpToSemicolon(s[i..])
    decreases |s| - i
  {
    FindSemicolon(s, i);
    hide Find;
    if i < |s| {
      var t := s[i + 1..];
      assert s[i..] == [s[i]] + t && s[i..][1..] == t;
      assert UpToSemicolon(s[i..]) == if s[i] == ';' then "" else [s[i]] + UpToSemicolon(t);
      if s[i] == ';' {
        assert s[i..i] == "";
      } else {
        ValueByOctets(s, i + 1);
        hide UpToSemicolon;
        var r := Find(s, ";", i + 1);
        assert r.Some? ==> s[i..r.value] == [s[i]] + s[i + 1..r.value];
      }
    }
  }

  lemma {:induction false} UpToSemicolonJoin(v: string, t: string)
    requires forall i :: 0 <= i < |v| ==> v[i] != ';'
    ensures UpToSemicolon(v + t) == v + UpToSemicolon(t)
  {
    if v == "" {
      assert v + t == t && "" + UpToSemicolon(t) == UpToSemicolon(t);
    } else {
      UpToSemicolonJoin(v[1..], t);
      assert (v + t)[1..] == v[1..] + t && v == [v[0]] + v[1..];
    }
  }

  // ----- the lookup, octet by octet -----

  /** "name=" at the start, behind a ';' or behind a space. */
  predicate StandsAt(s: string, name: string, q: nat) {
    && q + |name| < |s| && s[q..q + |name|] == name && s[q + |name|] == '='
    && (q == 0 || s[q - 1] == ';' || s[q - 1] == ' ')
  }

  lemma StandsIsBinding(s: string, name: string, q: nat)
    ensures StandsAt(s, name, q) <==> BindingAt(s, name, 0, q)
  {
  }

  /** The value is that behind the last "name=", up to a ';' or the end. */
  lemma LookupByOctets(s: string, name: string, q: nat)
    requires StandsAt(s, name, q) && forall p: nat :: p > q ==> !StandsAt(s, name, p)
    ensures q + |name| + 1 <= |s| && Lookup(s, name) == Some(UpToSemicolon(s[q + |name| + 1..]))
  {
    StandsIsBinding(s, name, q);
    forall p: nat | p > q ensures !BindingAt(s, name, 0, p) {
      StandsIsBinding(s, name, p);
    }
    BindingHasEqual(s, name, 0, q);
    ValueByOctets(s, q + |name| + 1);
    hide StandsAt, BindingAt, ValueFrom, UpToSemicolon;
    LastBindingIs(s, name, |s|, q);
  }

  lemma LookupOfMissing(s: string, name: string)
    requires forall q: nat :: !StandsAt(s, name, q)
    ensures Lookup(s, name) == None
  {
    forall p: nat ensures !BindingAt(s, name, 0, p) {
      StandsIsBinding(s, name, p);
    }
    NoBinding(s, name);
  }

  // ----- lists joined by any separators -----

  predicate Separators(sep: string) {
    sep != "" && forall i :: 0 <= i < |sep| ==> sep[i] == ';' || sep[i] == ' '
  }

  function FormatWith(bs: seq<Binding>, sep: string): string {
    if |bs| == 0 then "" else if |bs| == 1 then Text(bs[0]) else Text(bs[0]) + sep + FormatWith(bs[1..], sep)
  }

  /** The last value under the name; when the separators begin with a space, what follows belongs to it, up to a ';'. */
  function LastValue(bs: seq<Binding>, sep: string, name: string): Option<string> {
    if |bs| == 0 then None
    else
      var later := LastValue(bs[1..], sep, name);
      if later.Some? then later
      else if bs[0].key != name then None
      else Some(bs[0].value + if |bs| == 1 then "" else UpToSemicolon(sep + FormatWith(bs[1..], sep)))
  }

  lemma NothingInFront(b: Binding, sep: string, t: string, name: string, q: nat)
    requires WellFormed(b) && PlainName(name) && Separators(sep) && 0 < q < |Text(b)| + |sep|
    ensures !BindingAt(Text(b) + (sep + t), name, 0, q)
  {
    var s, n := Text(b) + (sep + t), |Text(b)|;
    if q <= n {
      NoBindingInside(b, sep + t, name, q);
    } else {
      assert s[q] == sep[q - n];
      assert q + |name| <= |s| ==> s[q..q + |name|][0] == s[q];
    }
  }

  lemma Behind(u: string, sep: string, t: string, name: string, q: nat)
    requires PlainName(name) && Separators(sep)
    ensures BindingAt(u + (sep + t), name, 0, |u| + |sep| + q) <==> BindingAt(t, name, 0, q)
  {
    var s, m := u + (sep + t), |u| + |sep|;
    assert s[m..] == t && s[m - 1] == sep[|sep| - 1];
    OccursAtShift(s, name, m, q);
    hide OccursAt;
    if q > 0 && q <= |t| {
      assert s[m + q - 1] == t[q - 1];
    }
    if q + |name| < |t| {
      assert s[m + q + |name|] == t[q + |name|];
    }
  }

  lemma ValueBehind(u: string, t: string, i: nat)
    requires i <= |t|
    ensures ValueFrom(u + t, |u| + i) == ValueFrom(t, i)
  {
    hide *;
    ValueByOctets(u + t, |u| + i);
    ValueByOctets(t, i);
    SliceBehind(u, t, i);
  }

  lemma SliceBehind(u: string, t: string, i: nat)
    requires i <= |t|
    ensures (u + t)[|u| + i..] == t[i..]
  {
  }

  lemma ValueOfFirst(b: Binding, r: string)
    requires WellFormed(b)
    ensures |b.key| + 1 <= |Text(b) + r|
    ensures ValueFrom(Text(b) + r, |b.key| + 1) == b.value + UpToSemicolon(r)
  {
    var s, i := Text(b) + r, |b.key| + 1;
    assert s[i..] == b.value + r;
    ValueByOctets(s, i);
    UpToSemicolonJoin(b.value, r);
  }

  lemma {:induction false} LookupConsWith(b: Binding, sep: string, t: string, name: string)
    requires WellFormed(b) && PlainName(name) && Separators(sep)
    ensures Lookup(Text(b) + (sep + t), name)
         == if Lookup(t, name).Some? then Lookup(t, name)
            else if b.key == name then Some(b.value + UpToSemicolon(sep + t)) else None
  {
    hide BindingAt, ValueFrom, Text, WellFormed, Separators, UpToSemicolon, PlainName, LastBindingBefore;
    var u := Text(b);
    var s, m := u + (sep + t), |u| + |sep|;
    forall q: nat ensures BindingAt(s, name, 0, m + q) <==> BindingAt(t, name, 0, q) {
      Behind(u, sep, t, name, q);
    }
    forall q | 0 < q < m ensures !BindingAt(s, name, 0, q) {
      NothingInFront(b, sep, t, name, q);
    }
    BindingAtStart(b, sep + t, name);
    var r := LastBindingBefore(t, name, |t|);
    if r.Some? {
      forall p | m + r.value < p < |s| ensures !BindingAt(s, name, 0, p) {
        assert !BindingAt(t, name, 0, p - m);
      }
      LastBindingIs(s, name, |s|, m + r.value);
      BindingInRange(t, name, r.value);
      ValueBehind(u + sep, t, r.value + |name| + 1);
      assert (u + sep) + t == s;
    } else {
      forall p | 0 < p < |s| ensures !BindingAt(s, name, 0, p) {
        if p >= m {
          assert !BindingAt(t, name, 0, p - m);
        }
      }
      if b.key == name {
        ValueOfFirst(b, sep + t);
        OnlyBinding(s, name, 0);
      } else {
        NoBinding(s, name);
      }
    }
  }

  lemma OnlyBinding(s: string, name: string, q: nat)
    requires BindingAt(s, name, 0, q) && forall p :: q < p < |s| ==> !BindingAt(s, name, 0, p)
    ensures q < |s| && LastBindingBefore(s, name, |s|) == Some(q)
  {
    LastBindingIs(s, name, |s|, q);
  }

  lemma NoBinding(s: string, name: string)
    requires forall p :: 0 <= p < |s| ==> !BindingAt(s, name, 0, p)
    ensures LastBindingBefore(s, name, |s|) == None
  {
    hide BindingAt;
  }

  /** On every formatted list, however its bindings are separated, the lookup is that of the last value. */
  lemma {:induction false} LookupOfSeparated(bs: seq<Binding>, sep: string, name: string)
    requires PlainName(name) && Separators(sep) && forall i :: 0 <= i < |bs| ==> WellFormed(bs[i])
    ensures Got(FormatWith(bs, sep), name) == Lookup(FormatWith(bs, sep), name) == LastValue(bs, sep, name)
  {
    PlainIsClean(name);
    assert bs != [] ==> WellFormed(bs[0]) && forall i :: 0 <= i < |bs[1..]| ==> WellFormed(bs[1..][i]);
    hide *;
    GotIsLookup(FormatWith(bs, sep), name);
    Unrolled(bs, sep, name);
    if |bs| == 0 {
      NothingToFind(bs, name);
    } else {
      LookupOne(bs[0], name);
      LookupOfSeparated(bs[1..], sep, name);
      LookupConsWith(bs[0], sep, FormatWith(bs[1..], sep), name);
    }
  }

  lemma {:induction false} Unrolled(bs: seq<Binding>, sep: string, name: string)
    ensures |bs| == 0 ==> FormatWith(bs, sep) == "" && LastValue(bs, sep, name) == None
    ensures |bs| == 1 ==> FormatWith(bs, sep) == Text(bs[0])
    ensures |bs| == 1 ==> LastValue(bs, sep, name) == if bs[0].key == name then Some(bs[0].value) else None
    ensures |bs| > 1 ==> FormatWith(bs, sep) == Text(bs[0]) + (sep + FormatWith(bs[1..], sep))
    ensures |bs| > 1 ==>
              LastValue(bs, sep, name)
              == if LastValue(bs[1..], sep, name).Some? then LastValue(bs[1..], sep, name)
                 else if bs[0].key == name
                 then Some(bs[0].value + UpToSemicolon(sep + FormatWith(bs[1..], sep))) else None
  {
    hide Text, UpToSemicolon;
    if |bs| == 1 {
      assert bs[1..] == [] && LastValue(bs[1..], sep, name) == None;
      assert bs[0].value + "" == bs[0].value;
    } else if |bs| > 1 {
      var u, t := Text(bs[0]), FormatWith(bs[1..], sep);
      assert u + sep + t == u + (sep + t);
    }
  }

  /** When the separators begin with a ';', as "; " does, that is plain last-binding lookup. */
  lemma {:induction false} LastValueIsLast(bs: seq<Binding>, sep: string, name: string)
    requires Separators(sep) && sep[0] == ';'
    ensures LastValue(bs, sep, name) == LastOf(bs, name)
  {
    if |bs| > 0 {
      LastValueIsLast(bs[1..], sep, name);
      LastOfFront(bs, name);
      hide LastOf;
      assert bs[0].value + "" == bs[0].value;
    }
  }
}
