/** Looking up a parameter in "name=value;name=value" strings (src/param_string.c). */
module ParamString {
  import opened Options
  import opened Strings

  predicate IsSeparator(c: char) {
    c == ';' || c == ' '
  }

  /** A name that cannot be confused with the syntax around it. */
  predicate PlainName(name: string) {
    name != "" && forall i :: 0 <= i < |name| ==> name[i] != '=' && !IsSeparator(name[i])
  }

  /** "name=" stands at q, at the start of the text or after a separator. */
  predicate BindingAt(s: string, name: string, base: nat, q: nat) {
    && base <= q
    && OccursAt(s, name, q) && q + |name| < |s| && s[q + |name|] == '='
    && (q == base || IsSeparator(s[q - 1]))
  }

  /** The last binding that starts before k. */
  function LastBindingBefore(s: string, name: string, k: nat): (r: Option<nat>)
    ensures r.Some? ==> r.value < k && BindingAt(s, name, 0, r.value)
    ensures forall q :: (if r.Some? then r.value + 1 else 0) <= q < k ==> !BindingAt(s, name, 0, q)
  {
    if k == 0 then None
    else if BindingAt(s, name, 0, k - 1) then Some(k - 1)
    else LastBindingBefore(s, name, k - 1)
  }

  /** The text from i up to the next ';' or the end. */
  function ValueFrom(s: string, i: nat): string
    requires i <= |s|
  {
    match Find(s, ";", i)
    case None => s[i..]
    case Some(e) => s[i..e]
  }

  /** The value that the header promises: that of the last binding of the name. */
  function Lookup(s: string, name: string): (v: Option<string>) {
    match LastBindingBefore(s, name, |s|)
    case None => None
    case Some(q) => Some(ValueFrom(s, q + |name| + 1))
  }

  // ----- key=value lists -----

  datatype Binding = Binding(key: string, value: string)

  predicate WellFormed(b: Binding) {
    && (forall i :: 0 <= i < |b.key| ==> b.key[i] != '=' && !IsSeparator(b.key[i]))
    && (forall i :: 0 <= i < |b.value| ==> !IsSeparator(b.value[i]))
  }

  function Text(b: Binding): string {
    b.key + "=" + b.value
  }

  function Format(bs: seq<Binding>): string {
    if |bs| == 0 then "" else if |bs| == 1 then Text(bs[0]) else Text(bs[0]) + ";" + Format(bs[1..])
  }

  /** Plain last-binding lookup on the list. */
  function LastOf(bs: seq<Binding>, name: string): Option<string> {
    if |bs| == 0 then None
    else
      var b := bs[|bs| - 1];
      if b.key == name then Some(b.value) else LastOf(bs[..|bs| - 1], name)
  }

  lemma {:induction false} LastOfFront(bs: seq<Binding>, name: string)
    requires |bs| > 0
    ensures LastOf(bs, name) == if LastOf(bs[1..], name).Some? then LastOf(bs[1..], name)
                                else if bs[0].key == name then Some(bs[0].value) else None
  {
    if |bs| == 1 {
      assert bs[..0] == [] && bs[1..] == [];
    } else {
      var init := bs[..|bs| - 1];
      LastOfFront(init, name);
      assert init[1..] == bs[1..][..|bs| - 2] && bs[1..][|bs| - 2] == bs[|bs| - 1];
    }
  }

  lemma {:induction false} LastBindingIs(s: string, name: string, k: nat, q: nat)
    requires q < k && BindingAt(s, name, 0, q)
    requires forall p :: q < p < k ==> !BindingAt(s, name, 0, p)
    ensures LastBindingBefore(s, name, k) == Some(q)
  {
  }

  /** A name at the very start of a binding's text is its key. */
  lemma BindingAtStart(b: Binding, t: string, name: string)
    requires WellFormed(b) && PlainName(name)
    ensures BindingAt(Text(b) + t, name, 0, 0) <==> name == b.key
  {
    var s := Text(b) + t;
    assert s == b.key + ("=" + b.value + t);
    assert s[|b.key|] == '=' && s[..|b.key|] == b.key;
    if BindingAt(s, name, 0, 0) {
      assert s[..|name|] == name;
    }
  }

  /** No binding starts inside the first one or on the separator after it. */
  lemma NoBindingInside(b: Binding, t: string, name: string, q: nat)
    requires WellFormed(b) && 0 < q <= |Text(b)|
    ensures !BindingAt(Text(b) + t, name, 0, q)
  {
    var s := Text(b) + t;
    assert s[q - 1] == Text(b)[q - 1];
    if q - 1 > |b.key| {
      assert s[q - 1] == b.value[q - 1 - |b.key| - 1];
    }
  }

  /** Bindings after the separator are those of the remaining text. */
  lemma BindingShift(u: string, t: string, name: string, q: nat)
    requires PlainName(name)
    ensures BindingAt(u + ";" + t, name, 0, |u| + 1 + q) <==> BindingAt(t, name, 0, q)
  {
    var s := u + ";" + t;
    assert s[|u| + 1..] == t && s[|u|] == ';';
    OccursAtShift(s, name, |u| + 1, q);
    if q > 0 && q <= |t| {
      assert s[|u| + q] == t[q - 1];
    }
    if q + |name| < |t| {
      assert s[|u| + 1 + q + |name|] == t[q + |name|];
    }
  }

  lemma ValueShift(u: string, t: string, i: nat)
    requires i <= |t|
    ensures ValueFrom(u + ";" + t, |u| + 1 + i) == ValueFrom(t, i)
  {
    hide Find;
    var s := u + ";" + t;
    FindShift(s, ";", |u| + 1 + i);
    FindShift(t, ";", i);
    assert s[|u| + 1 + i..] == t[i..];
    if Find(t, ";", i).Some? {
      var e := Find(t, ";", i).value;
      assert s[|u| + 1 + i..|u| + 1 + e] == t[i..e];
    }
  }

  lemma FirstValue(b: Binding, t: string)
    requires WellFormed(b) && (t == "" || t[0] == ';')
    ensures ValueFrom(Text(b) + t, |b.key| + 1) == b.value
  {
    hide Find;
    var s, i := Text(b) + t, |b.key| + 1;
    FindFirst(s, ";", i);
    forall j | i <= j < |Text(b)| ensures !OccursAt(s, ";", j) {
      assert s[j] == b.value[j - i];
    }
    if t != "" {
      assert s[|Text(b)|..|Text(b)| + 1] == ";";
      assert OccursAt(s, ";", |Text(b)|);
    }
    assert s[i..|Text(b)|] == b.value;
  }

  lemma {:induction false} LookupCons(b: Binding, t: string, name: string)
    requires WellFormed(b) && PlainName(name)
    ensures Lookup(Text(b) + ";" + t, name)
         == if Lookup(t, name).Some? then Lookup(t, name) else if b.key == name then Some(b.value) else None
  {
    hide BindingAt, ValueFrom, Text, WellFormed;
    var u := Text(b);
    var s := u + ";" + t;
    assert s == u + (";" + t);
    forall q: nat ensures BindingAt(s, name, 0, |u| + 1 + q) <==> BindingAt(t, name, 0, q) {
      BindingShift(u, t, name, q);
    }
    forall q | 0 < q <= |u| ensures !BindingAt(s, name, 0, q) {
      NoBindingInside(b, ";" + t, name, q);
    }
    BindingAtStart(b, ";" + t, name);
    var r := LastBindingBefore(t, name, |t|);
    if r.Some? {
      forall p | |u| + 1 + r.value < p < |s| ensures !BindingAt(s, name, 0, p) {
        assert !BindingAt(t, name, 0, p - |u| - 1);
      }
      LastBindingIs(s, name, |s|, |u| + 1 + r.value);
      BindingInRange(t, name, r.value);
      ValueShift(u, t, r.value + |name| + 1);
    } else {
      forall p | 0 < p < |s| ensures !BindingAt(s, name, 0, p) {
        if p > |u| {
          assert !BindingAt(t, name, 0, p - |u| - 1);
        }
      }
      if b.key == name {
        LastBindingIs(s, name, |s|, 0);
        FirstValue(b, ";" + t);
      }
    }
  }

  lemma BindingInRange(s: string, name: string, q: nat)
    requires BindingAt(s, name, 0, q)
    ensures q + |name| + 1 <= |s|
  {
  }

  lemma {:induction false} LookupOne(b: Binding, name: string)
    requires WellFormed(b) && PlainName(name)
    ensures Lookup(Text(b), name) == if b.key == name then Some(b.value) else None
  {
    hide ValueFrom;
    var s := Text(b);
    assert s + "" == s;
    BindingAtStart(b, "", name);
    forall q | 0 < q <= |s| ensures !BindingAt(s, name, 0, q) {
      NoBindingInside(b, "", name, q);
    }
    if b.key == name {
      LastBindingIs(s, name, |s|, 0);
      FirstValue(b, "");
    }
  }

  /** On a formatted list the lookup is last-binding lookup. */
  lemma {:induction false} LookupOfFormat(bs: seq<Binding>, name: string)
    requires PlainName(name) && forall i :: 0 <= i < |bs| ==> WellFormed(bs[i])
    ensures Lookup(Format(bs), name) == LastOf(bs, name)
  {
    hide Lookup, WellFormed, LastOf;
    if |bs| == 0 {
      NothingToFind(bs, name);
    } else {
      LastOfFront(bs, name);
      if |bs| == 1 {
        LookupOne(bs[0], name);
        NothingToFind(bs[1..], name);
      } else {
        LookupOfFormat(bs[1..], name);
        LookupCons(bs[0], Format(bs[1..]), name);
      }
    }
  }

  lemma NothingToFind(bs: seq<Binding>, name: string)
    requires bs == []
    ensures Lookup("", name) == None == LastOf(bs, name)
  {
  }

  // ----- what the scan finds -----

  /** find_param_occurence_of from pos on, in the text that starts at base: false matches are skipped whole. */
  function Scan(s: string, name: string, base: nat, pos: nat): (r: Option<nat>)
    requires name != "" && base <= pos <= |s|
    ensures r.Some? ==> pos <= r.value && r.value + |name| < |s|
    ensures r.Some? ==> BindingAt(s, name, base, r.value)
    decreases |s| - pos
  {
    match Find(s, name, pos)
    case None => None
    case Some(p) =>
      FindFirst(s, name, pos);
      if BindingAt(s, name, base, p) then Some(p) else Scan(s, name, base, p + |name|)
  }

  lemma {:induction false} ScanStep(s: string, name: string, base: nat, pos: nat)
    requires name != "" && base <= pos <= |s|
    ensures var r := Find(s, name, pos);
            if r.None? then Scan(s, name, base, pos) == None
            else
              && OccursAt(s, name, r.value)
              && Scan(s, name, base, pos) == if BindingAt(s, name, base, r.value) then r
                                             else Scan(s, name, base, r.value + |name|)
  {
    FindFirst(s, name, pos);
  }

  /** find_last_param_occurence_of: each search restarts behind the name found. */
  function ScanLast(s: string, name: string, pos: nat): (r: Option<nat>)
    requires name != "" && pos <= |s|
    ensures r.Some? ==> OccursAt(s, name, r.value) && r.value + |name| < |s| && s[r.value + |name|] == '='
    decreases |s| - pos
  {
    match Scan(s, name, pos, pos)
    case None => None
    case Some(p) =>
      var later := ScanLast(s, name, p + |name|);
      if later.Some? then later else Some(p)
  }

  lemma {:induction false} ScanLastStep(s: string, name: string, pos: nat)
    requires name != "" && pos <= |s|
    ensures var r := Scan(s, name, pos, pos);
            if r.None? then ScanLast(s, name, pos) == None
            else
              && r.value + |name| < |s|
              && ScanLast(s, name, pos) == if ScanLast(s, name, r.value + |name|).Some?
                                           then ScanLast(s, name, r.value + |name|) else r
  {
  }

  lemma EqualExists(s: string, name: string, q: nat)
    requires q + |name| < |s| && s[q + |name|] == '='
    ensures Find(s, "=", q).Some? && Find(s, "=", q).value <= q + |name|
  {
    FindFirst(s, "=", q);
    assert s[q + |name|..q + |name| + 1] == "=";
    assert OccursAt(s, "=", q + |name|);
  }

  /** The whole value that get_value would copy: what follows the first '=' at or after the name found. */
  function Got(s: string, name: string): (v: Option<string>)
    requires name != ""
  {
    match ScanLast(s, name, 0)
    case None => None
    case Some(q) =>
      EqualExists(s, name, q);
      Some(ValueFrom(s, Find(s, "=", q).value + 1))
  }

  // ----- for which names that is the last binding -----

  /** No '=', and behind none of its separators does the name begin again. */
  predicate CleanName(name: string) {
    && name != ""
    && (forall i :: 0 <= i < |name| ==> name[i] != '=')
    && (forall q :: 0 < q < |name| && IsSeparator(name[q - 1]) ==> name[q..] != name[..|name| - q])
  }

  lemma PlainIsClean(name: string)
    requires PlainName(name)
    ensures CleanName(name)
  {
  }

  /** The scan skips a whole name after a false match: nothing can begin in there. */
  lemma SkipIsSafe(s: string, name: string, base: nat, p: nat, q: nat)
    requires CleanName(name) && OccursAt(s, name, p) && p < q < p + |name|
    ensures !BindingAt(s, name, base, q) || q == base
  {
    var k := q - p;
    assert s[q - 1] == s[p..p + |name|][k - 1] == name[k - 1];
    if OccursAt(s, name, q) {
      assert name[k..] == s[p..p + |name|][k..] == s[q..p + |name|] == s[q..q + |name|][..|name| - k];
    }
  }

  /** r is the first binding at or after pos in the text that starts at base, or there is none. */
  ghost predicate FirstBinding(s: string, name: string, base: nat, pos: nat, r: Option<nat>) {
    && (r.Some? ==> pos <= r.value && BindingAt(s, name, base, r.value))
    && forall q :: pos <= q && (r.None? || q < r.value) ==> !BindingAt(s, name, base, q)
  }

  /** The scan finds the first binding. */
  lemma {:induction false} ScanIsFirst(s: string, name: string, base: nat, pos: nat)
    requires CleanName(name) && base <= pos <= |s|
    ensures FirstBinding(s, name, base, pos, Scan(s, name, base, pos))
    decreases |s| - pos
  {
    hide Find, IsSeparator, CleanName;
    FindFirst(s, name, pos);
    var r := Find(s, name, pos);
    if r.Some? && !BindingAt(s, name, base, r.value) {
      var p := r.value;
      NameNotEmpty(name);
      ScanIsFirst(s, name, base, p + |name|);
      forall q | pos <= q < p + |name| ensures !BindingAt(s, name, base, q) {
        if p < q {
          SkipIsSafe(s, name, base, p, q);
        }
      }
    }
  }

  lemma NameNotEmpty(name: string)
    requires CleanName(name)
    ensures name != ""
  {
  }

  /** Restarting behind a binding finds the bindings of the whole text and no others. */
  lemma RestartIsSafe(s: string, name: string, p: nat, q: nat)
    requires CleanName(name) && BindingAt(s, name, 0, p) && p < q
    ensures BindingAt(s, name, p + |name|, q) <==> BindingAt(s, name, 0, q)
  {
    if q < p + |name| {
      SkipIsSafe(s, name, 0, p, q);
    }
  }

  /** Restarting finds the last binding of the whole text. */
  lemma {:induction false} ScanLastIsLast(s: string, name: string, pos: nat, last: Option<nat>)
    requires CleanName(name) && pos <= |s|
    requires if last.Some? then pos == last.value + |name| && BindingAt(s, name, 0, last.value) else pos == 0
    ensures LastBindingBefore(s, name, |s|) == if ScanLast(s, name, pos).Some? then ScanLast(s, name, pos) else last
    decreases |s| - pos
  {
    hide BindingAt, CleanName, Scan;
    NameNotEmpty(name);
    ScanIsFirst(s, name, pos, pos);
    var found := Scan(s, name, pos, pos);
    if found.None? {
      NoLaterBinding(s, name, last, pos);
    } else {
      BindingHasEqual(s, name, pos, found.value);
      if last.Some? {
        RestartIsSafe(s, name, last.value, found.value);
      }
      ScanLastIsLast(s, name, found.value + |name|, found);
    }
  }

  lemma BindingHasEqual(s: string, name: string, base: nat, q: nat)
    requires BindingAt(s, name, base, q)
    ensures base <= q && q + |name| < |s| && s[q + |name|] == '='
  {
  }

  lemma {:induction false} NoLaterBinding(s: string, name: string, last: Option<nat>, pos: nat)
    requires CleanName(name)
    requires if last.Some? then pos == last.value + |name| && BindingAt(s, name, 0, last.value) else pos == 0
    requires forall q :: pos <= q ==> !BindingAt(s, name, pos, q)
    ensures last == LastBindingBefore(s, name, |s|)
  {
    hide CleanName;
    if last.Some? {
      forall p | last.value < p < |s| ensures !BindingAt(s, name, 0, p) {
        RestartIsSafe(s, name, last.value, p);
      }
      LastBindingIs(s, name, |s|, last.value);
    } else {
      var r := LastBindingBefore(s, name, |s|);
      assert r.Some? ==> !BindingAt(s, name, 0, r.value);
    }
  }

  lemma EqualAfterName(s: string, name: string, q: nat)
    requires CleanName(name) && BindingAt(s, name, 0, q)
    ensures Find(s, "=", q) == Some(q + |name|)
  {
    forall i | q <= i < q + |name| ensures !OccursAt(s, "=", i) {
      assert s[i] == s[q..q + |name|][i - q] == name[i - q];
    }
    assert s[q + |name|..q + |name| + 1] == "=";
    FindIs(s, "=", q, q + |name|);
  }

  lemma {:induction false} GotIsLookup(s: string, name: string)
    requires CleanName(name)
    ensures Got(s, name) == Lookup(s, name)
  {
    hide CleanName, ValueFrom, Find, BindingAt, ScanLast;
    NameNotEmpty(name);
    ScanLastIsLast(s, name, 0, None);
    var q := ScanLast(s, name, 0);
    if q.Some? {
      EqualAfterName(s, name, q.value);
    }
  }

  /** What the code reads from a formatted list is the last value listed under the name. */
  lemma GotOfFormat(bs: seq<Binding>, name: string)
    requires PlainName(name) && forall i :: 0 <= i < |bs| ==> WellFormed(bs[i])
    ensures Got(Format(bs), name) == LastOf(bs, name)
  {
    PlainIsClean(name);
    hide *;
    GotIsLookup(Format(bs), name);
    LookupOfFormat(bs, name);
  }

  /** A name that begins again behind one of its separators: the skip steps over a binding. */
  lemma {:induction false} OverlapMissed(name: string, q: nat)
    requires name != "" && 0 < q < |name| && IsSeparator(name[q - 1]) && name[q..] == name[..|name| - q]
    requires forall i :: 0 <= i < |name| ==> name[i] != '='
    ensures var s := name[..q] + name + "="; Got(s, name) == None && Lookup(s, name).Some?
  {
    var n, s := |name|, name[..q] + name + "=";
    assert s[..n] == name[..q] + name[..n - q] == name;
    assert s[n] == name[n - q] && s[q..q + n] == name && s[q - 1] == name[q - 1];
    hide Find, Scan, LastBindingBefore, ValueFrom;
    FindIs(s, name, 0, 0);
    ScanStep(s, name, 0, 0);
    NothingBehind(name, q);
    ScanStep(s, name, 0, n);
    hide ScanLast;
    ScanLastStep(s, name, 0);
    assert BindingAt(s, name, 0, q);
  }

  lemma {:induction false} NothingBehind(name: string, q: nat)
    requires 0 < q < |name| && forall i :: 0 <= i < |name| ==> name[i] != '='
    ensures Find(name[..q] + name + "=", name, |name|).None?
  {
    var n, s := |name|, name[..q] + name + "=";
    FindFirst(s, name, n);
    forall p: nat | n <= p ensures !OccursAt(s, name, p) {
      assert name[n - 1] != '=' && s[n + q] == '=';
      assert p + n <= |s| ==> p + n == n + q + 1 && s[p..p + n][n - 1] == s[n + q];
    }
  }

  /** With nothing but 'x' behind it, the first binding is the only one. */
  lemma {:induction false} OnlyAtStart(s: string, name: string)
    requires name != "" && |name| < |s| && s[..|name|] == name && s[|name|] == '='
    requires forall i :: |name| < i < |s| ==> s[i] == 'x'
    ensures BindingAt(s, name, 0, 0) && forall q :: 0 < q ==> !BindingAt(s, name, 0, q)
    ensures ScanLast(s, name, 0) == Some(0)
  {
    hide Find, Scan, ScanLast;
    var n := |name|;
    FindIs(s, name, 0, 0);
    ScanStep(s, name, 0, 0);
    ScanLastStep(s, name, 0);
    ScanLastStep(s, name, n);
    forall q: nat | 0 < q ensures !BindingAt(s, name, 0, q) {
      assert q + n < |s| ==> s[q + n] == 'x';
    }
  }

  lemma OneOctet(s: string, c: char, i: nat)
    requires OccursAt(s, [c], i)
    ensures s[i] == c
  {
    assert s[i] == s[i..i + 1][0];
  }

  lemma {:induction false} ValueOfXs(s: string, n: nat)
    requires n < |s| && forall i :: n < i < |s| ==> s[i] == 'x'
    ensures ValueFrom(s, n + 1) == s[n + 1..]
  {
    FindFirst(s, ";", n + 1);
    var r := Find(s, ";", n + 1);
    if r.Some? {
      OneOctet(s, ';', r.value);
    }
  }

  lemma {:induction false} ValueFromInside(s: string, e: nat, n: nat)
    requires e < n && |s| == 2 * n + 1 && forall i :: n <= i < |s| ==> s[i] != ';'
    ensures |ValueFrom(s, e + 1)| != n
  {
    FindFirst(s, ";", e + 1);
    var r := Find(s, ";", e + 1);
    if r.Some? {
      OneOctet(s, ';', r.value);
    }
  }

  /** A name that holds a '=': the value starts inside the name. */
  lemma {:induction false} EqualInNameMisread(name: string, e: nat, s: string)
    requires e < |name| && name[e] == '=' && forall i :: 0 <= i < e ==> name[i] != '='
    requires |s| == 2 * |name| + 1 && s[..|name|] == name && s[|name|] == '='
    requires forall i :: |name| < i < |s| ==> s[i] == 'x'
    ensures Got(s, name) != Lookup(s, name)
  {
    hide *;
    var n := |name|;
    OnlyAtStart(s, name);
    EqualInside(s, name, e);
    ValueOfXs(s, n);
    ValueFromInside(s, e, n);
    LastBindingIs(s, name, |s|, 0);
    GotAt(s, name, 0, e);
    LookupAt(s, name, 0);
    assert |s[n + 1..]| == n;
  }

  lemma {:induction false} GotAt(s: string, name: string, q: nat, e: nat)
    requires name != "" && ScanLast(s, name, 0) == Some(q) && Find(s, "=", q) == Some(e) && e < |s|
    ensures Got(s, name) == Some(ValueFrom(s, e + 1))
  {
    hide ScanLast, Find, ValueFrom;
  }

  lemma {:induction false} LookupAt(s: string, name: string, q: nat)
    requires LastBindingBefore(s, name, |s|) == Some(q)
    ensures q + |name| + 1 <= |s| && Lookup(s, name) == Some(ValueFrom(s, q + |name| + 1))
  {
    hide LastBindingBefore, ValueFrom;
  }

  lemma {:induction false} EqualInside(s: string, name: string, e: nat)
    requires e < |name| <= |s| && s[..|name|] == name && name[e] == '=' && forall i :: 0 <= i < e ==> name[i] != '='
    ensures Find(s, "=", 0) == Some(e)
  {
    assert forall i :: 0 <= i <= e ==> s[i] == name[i] == s[i..i + 1][0];
    assert s[e..e + 1] == "=";
    FindIs(s, "=", 0, e);
  }

  lemma {:induction false} SomewhereMisread(name: string)
    requires name != "" && !CleanName(name)
    ensures exists s :: Got(s, name) != Lookup(s, name)
  {
    hide Got, Lookup;
    if i :| 0 <= i < |name| && name[i] == '=' {
      FirstEqual(name, i);
    } else {
      var q :| 0 < q < |name| && IsSeparator(name[q - 1]) && name[q..] == name[..|name| - q];
      OverlapMissed(name, q);
    }
  }

  /** The code looks up the last binding in every text if and only if the name is clean. */
  lemma {:induction false} LookupExactly(name: string)
    requires name != ""
    ensures (forall s :: Got(s, name) == Lookup(s, name)) <==> CleanName(name)
  {
    hide *;
    if CleanName(name) {
      forall s ensures Got(s, name) == Lookup(s, name) {
        GotIsLookup(s, name);
      }
    } else {
      SomewhereMisread(name);
    }
  }

  lemma {:induction false} FirstEqual(name: string, i: nat)
    requires i < |name| && name[i] == '='
    ensures exists s :: Got(s, name) != Lookup(s, name)
    decreases i
  {
    hide Got, Lookup;
    if j :| 0 <= j < i && name[j] == '=' {
      FirstEqual(name, j);
    } else {
      EqualInNameMisread(name, i, name + "=" + seq(|name|, _ => 'x'));
    }
  }

  // ----- the code -----

  /** find_param_occurence_of: the first binding in the text that starts at base. */
  method FindParam(s: string, base: nat, name: string) returns (r: Option<nat>)
    requires name != "" && base <= |s|
    ensures r == Scan(s, name, base, base)
    ensures CleanName(name) ==> FirstBinding(s, name, base, base, r)
  {
    hide *;
    var pos := base;
    while true
      invariant base <= pos <= |s| && Scan(s, name, base, base) == Scan(s, name, base, pos)
      decreases |s| - pos
    {
      ScanStep(s, name, base, pos);
      r := Find(s, name, pos);
      if r.None? {
        break;
      }
      var p := r.value;
      BindingTest(s, name, base, p);
      var equal := p + |name| < |s| && s[p + |name|] == '=';
      if p == base {
        if equal { break; }
      } else if IsSeparator(s[p - 1]) && equal {
        break;
      }
      pos := p + |name|;
    }
    if CleanName(name) {
      ScanIsFirst(s, name, base, base);
    }
  }

  lemma BindingTest(s: string, name: string, base: nat, p: nat)
    requires base <= p && OccursAt(s, name, p) && p + |name| <= |s| && name != ""
    ensures BindingAt(s, name, base, p)
       <==> p + |name| < |s| && s[p + |name|] == '=' && (p == base || IsSeparator(s[p - 1]))
  {
  }

  /** find_last_param_occurence_of */
  method FindLastParam(s: string, name: string) returns (last: Option<nat>)
    requires name != ""
    ensures last == ScanLast(s, name, 0)
    ensures CleanName(name) ==> last == LastBindingBefore(s, name, |s|)
  {
    hide *;
    var pos := 0;
    last := None;
    while true
      invariant pos <= |s|
      invariant ScanLast(s, name, 0) == if ScanLast(s, name, pos).Some? then ScanLast(s, name, pos) else last
      decreases |s| - pos
    {
      var found := FindParam(s, pos, name);
      ScanLastStep(s, name, pos);
      if found.None? {
        break;
      }
      last := found;
      pos := found.value + |name|;
    }
    if CleanName(name) {
      ScanLastIsLast(s, name, 0, None);
    }
  }

  function Min(a: int, b: int): (m: int)
    ensures m <= a && m <= b && (m == a || m == b)
  {
    if a < b then a else b
  }

  /** bctbx_param_string_get_value: the value, cut to the room there is, then NULs. */
  method GetValue(s: string, name: string, result: array<char>) returns (found: bool)
    requires name != "" && 0 < result.Length < 0x8000_0000 && |s| < 0x8000_0000
    modifies result
    ensures found == Got(s, name).Some?
    ensures !found ==> forall k :: 0 <= k < result.Length ==> result[k] == '\0'
    ensures found ==>
              var v := Got(s, name).value;
              var n := Min(result.Length - 1, |v|);
              && result[..n] == v[..n]
              && forall k :: n <= k < result.Length ==> result[k] == '\0'
    ensures CleanName(name) ==> Got(s, name) == Lookup(s, name)
  {
    hide Find, CleanName, ScanLast, LastBindingBefore, ValueFrom, Lookup;
    if CleanName(name) {
      GotIsLookup(s, name);
    }
    var pos := FindLastParam(s, name);
    forall k | 0 <= k < result.Length { result[k] := '\0'; }
    if pos.Some? {
      EqualExists(s, name, pos.value);
      var equal := Find(s, "=", pos.value);
      if equal.Some? {
        var v := ValueFrom(s, equal.value + 1);
        var copied := Min(result.Length - 1, |v|);
        forall k | 0 <= k < copied { result[k] := v[k]; }
        result[copied] := '\0';
        return true;
      }
    }
    return false;
  }
}
