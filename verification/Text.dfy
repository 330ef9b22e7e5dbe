/** Splitting and replacing on a delimiter (src/utils/utils.cc). */
module Text {
  import opened Options
  import opened Strings

  /** The pieces between successive leftmost occurrences of d. */
  function Split(s: string, d: string): (ps: seq<string>)
    requires d != ""
    ensures |ps| >= 1
    decreases |s|
  {
    match Find(s, d, 0)
    case None => [s]
    case Some(p) => [s[..p]] + Split(s[p + |d|..], d)
  }

  function Join(ps: seq<string>, d: string): string
    requires |ps| >= 1
  {
    if |ps| == 1 then ps[0] else ps[0] + d + Join(ps[1..], d)
  }

  /** No piece holds d, and d does not begin inside a piece either. */
  ghost predicate Leftmost(ps: seq<string>, d: string) {
    && (forall k :: 0 <= k < |ps| ==> !Contains(ps[k], d))
    && (forall k :: 0 <= k < |ps| - 1 ==> Find(ps[k] + d, d, 0) == Some(|ps[k]|))
  }

  lemma {:induction false} FindDecomposes(s: string, d: string, k: nat)
    requires Find(s, d, k).Some?
    ensures var p := Find(s, d, k).value; k <= p && p + |d| <= |s| && s == s[..p] + d + s[p + |d|..]
  {
    FindFirst(s, d, k);
  }

  lemma {:induction false} JoinCons(u: string, ps: seq<string>, d: string)
    requires |ps| >= 1
    ensures Join([u] + ps, d) == u + d + Join(ps, d)
  {
    assert ([u] + ps)[1..] == ps;
  }

  lemma {:induction false} JoinOfSplit(s: string, d: string)
    requires d != ""
    ensures Join(Split(s, d), d) == s
    decreases |s|
  {
    hide Find, Join;
    match Find(s, d, 0)
    case None =>
      JoinSingle(s, d);
    case Some(p) =>
      FindDecomposes(s, d, 0);
      JoinOfSplit(s[p + |d|..], d);
      JoinCons(s[..p], Split(s[p + |d|..], d), d);
  }

  lemma {:induction false} JoinSingle(s: string, d: string)
    ensures Join([s], d) == s
  {
  }

  lemma {:induction false} FirstPieceLeftmost(s: string, d: string, p: nat)
    requires d != "" && Find(s, d, 0) == Some(p)
    ensures !Contains(s[..p], d) && Find(s[..p] + d, d, 0) == Some(p)
  {
    FindFirst(s, d, 0);
    var u := s[..p];
    assert u + s[p..] == s && u + d == s[..p + |d|] && s[..p + |d|] + s[p + |d|..] == s;
    forall i | 0 <= i < p ensures !OccursAt(u + d, d, i) && !OccursAt(u, d, i) {
      OccursInPrefix(s[..p + |d|], s[p + |d|..], d, i);
      if i + |d| <= |u| {
        OccursInPrefix(u, s[p..], d, i);
      }
    }
    FindIs(u + d, d, 0, p);
    NotContains(u, d);
  }

  lemma {:induction false} SplitIsLeftmost(s: string, d: string)
    requires d != ""
    ensures Leftmost(Split(s, d), d)
    decreases |s|
  {
    hide Find;
    match Find(s, d, 0)
    case None =>
    case Some(p) =>
      FirstPieceLeftmost(s, d, p);
      SplitIsLeftmost(s[p + |d|..], d);
  }

  /** The first occurrence of d in u + d + v, when u + d has none earlier. */
  lemma {:induction false} FindAfterPiece(u: string, d: string, v: string)
    requires d != "" && Find(u + d, d, 0) == Some(|u|)
    ensures Find(u + d + v, d, 0) == Some(|u|)
  {
    FindFirst(u + d, d, 0);
    forall i | 0 <= i <= |u| ensures OccursAt(u + d + v, d, i) <==> OccursAt(u + d, d, i) {
      OccursInPrefix(u + d, v, d, i);
    }
    FindIs(u + d + v, d, 0, |u|);
  }

  lemma {:induction false} SplitCons(u: string, d: string, v: string)
    requires d != "" && Find(u + d, d, 0) == Some(|u|)
    ensures Split(u + d + v, d) == [u] + Split(v, d)
  {
    FindAfterPiece(u, d, v);
    assert (u + d + v)[..|u|] == u && (u + d + v)[|u| + |d|..] == v;
  }

  /** Split is the only leftmost decomposition: joining determines it. */
  lemma {:induction false} SplitOfJoin(ps: seq<string>, d: string)
    requires d != "" && |ps| >= 1 && Leftmost(ps, d)
    ensures Split(Join(ps, d), d) == ps
  {
    hide Find;
    if |ps| > 1 {
      SplitOfJoin(ps[1..], d);
      SplitCons(ps[0], d, Join(ps[1..], d));
    }
  }

  /** One search step of the loops below, seen on the text not yet consumed. */
  lemma {:induction false} SplitStep(s: string, d: string, k: nat)
    requires d != "" && k <= |s|
    ensures match Find(s, d, k)
            case None => Split(s[k..], d) == [s[k..]]
            case Some(p) => Split(s[k..], d) == [s[k..p]] + Split(s[p + |d|..], d)
  {
    hide Find;
    FindShift(s, d, k);
    var t := s[k..];
    if Find(s, d, k).Some? {
      var p := Find(s, d, k).value;
      FindDecomposes(s, d, k);
      var q := p - k;
      assert t[..q] == s[k..p] && t[q + |d|..] == s[p + |d|..];
      assert Split(t, d) == [t[..q]] + Split(t[q + |d|..], d);
    }
  }

  method SplitString(str: string, delimiter: string) returns (out: seq<string>)
    requires delimiter != ""
    ensures out == Split(str, delimiter)
  {
    hide Split, Find;
    out := [];
    var pos, oldPos := 0, 0;
    assert str[0..] == str;
    while Find(str, delimiter, pos).Some?
      invariant pos == oldPos <= |str|
      invariant out + Split(str[oldPos..], delimiter) == Split(str, delimiter)
      decreases |str| - pos
    {
      SplitStep(str, delimiter, oldPos);
      pos := Find(str, delimiter, pos).value;
      out := out + [str[oldPos..pos]];
      oldPos := pos + |delimiter|;
      pos := oldPos;
    }
    SplitStep(str, delimiter, oldPos);
    out := out + [str[oldPos..]];
  }

  /** The leftmost occurrence is replaced, and what comes in its place is not looked at again. */
  lemma {:induction false} ReplaceFirst(u: string, v: string, from: string, to: string)
    requires from != "" && forall i: nat :: i < |u| ==> !OccursAt(u + (from + v), from, i)
    ensures Join(Split(u + (from + v), from), to) == u + to + Join(Split(v, from), to)
  {
    var s := u + (from + v);
    assert s[|u|..|u| + |from|] == from;
    FindIs(s, from, 0, |u|);
    assert s[..|u|] == u && s[|u| + |from|..] == v;
    hide Find, Join;
    JoinCons(u, Split(v, from), to);
  }

  /** Text without an occurrence stays as it is. */
  lemma {:induction false} ReplaceNothing(s: string, from: string, to: string)
    requires from != "" && forall i: nat :: !OccursAt(s, from, i)
    ensures Join(Split(s, from), to) == s
  {
    FindFirst(s, from, 0);
  }

  /** replace(source, from, to, true): every piece boundary becomes `to`, which is never searched again. */
  method ReplaceAll(original: string, from: string, to: string) returns (source: string)
    requires from != ""
    ensures source == Join(Split(original, from), to)
  {
    hide Split, Find;
    source := original;
    var start := 0;
    assert source[0..] == original;
    while Find(source, from, start).Some?
      invariant start <= |source|
      invariant source[..start] + Join(Split(source[start..], from), to) == Join(Split(original, from), to)
      decreases |source| - start
    {
      SplitStep(source, from, start);
      var p := Find(source, from, start).value;
      ghost var before, piece, after := source[..start], source[start..p], source[p + |from|..];
      assert Split(source[start..], from)[1..] == Split(after, from);
      source := source[..p] + to + source[p + |from|..];
      start := p + |to|;
      assert source[..start] == before + piece + to && source[start..] == after;
    }
    SplitStep(source, from, start);
    assert source[..start] + source[start..] == source;
  }
}
