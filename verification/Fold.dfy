/** Line folding and unfolding (src/utils/utils.cc; section 3.2 of RFC 6350). */
module Fold {
  import opened Options
  import opened Strings
  import opened Text

  const CRLF := "\r\n"
  const LF := "\n"

  /** A line longer than 75 octets is cut after 74; what follows starts with a space and counts anew. */
  function FoldLine(l: string): (f: string)
    ensures |f| >= |l| && f[..if |l| < 74 then |l| else 74] == l[..if |l| < 74 then |l| else 74]
    decreases |l|
  {
    if |l| <= 75 then l else l[..74] + CRLF + FoldLine(" " + l[74..])
  }

  /** Every line that ends in CRLF is folded; the text after the last CRLF is left alone. */
  function FoldText(s: string): string
    decreases |s|
  {
    match Find(s, CRLF, 0)
    case None => s
    case Some(p) => FoldLine(s[..p]) + CRLF + FoldText(s[p + 2..])
  }

  /** An end of line followed by one whitespace octet is dropped together with it. */
  function UnfoldWith(s: string, e: string): (u: string)
    requires e != ""
    ensures |u| <= |s|
    decreases |s|
  {
    match Find(s, e, 0)
    case None => s
    case Some(p) =>
      if p + |e| < |s| && IsSpace(s[p + |e|])
      then s[..p] + UnfoldWith(s[p + |e| + 1..], e)
      else s[..p + |e|] + UnfoldWith(s[p + |e|..], e)
  }

  function EndLine(s: string): (e: string)
    ensures e == CRLF || e == LF
  {
    if Contains(s, CRLF) then CRLF else LF
  }

  function Unfold(s: string): string {
    UnfoldWith(s, EndLine(s))
  }

  // ----- searching for the end of a line -----

  lemma {:induction false} CrlfAt(s: string, i: nat)
    ensures OccursAt(s, CRLF, i) <==> i + 1 < |s| && s[i] == '\r' && s[i + 1] == '\n'
  {
    if i + 2 <= |s| {
      assert s[i..i + 2] == [s[i], s[i + 1]];
    }
  }

  /** e never starts inside u when y follows. */
  ghost predicate Quiet(u: string, y: string, e: string) {
    forall i :: 0 <= i < |u| ==> !OccursAt(u + y, e, i)
  }

  lemma {:induction false} FindAfterQuiet(u: string, y: string, e: string)
    requires Quiet(u, y, e)
    ensures Find(u + y, e, 0).None? <==> Find(y, e, 0).None?
    ensures Find(y, e, 0).Some? ==> Find(u + y, e, 0) == Some(|u| + Find(y, e, 0).value)
  {
    hide Find;
    assert (u + y)[|u|..] == y;
    FindShift(u + y, e, |u|);
    FindFirst(u + y, e, 0);
    FindFirst(u + y, e, |u|);
    if Find(y, e, 0).Some? {
      FindIs(u + y, e, 0, |u| + Find(y, e, 0).value);
    }
  }

  lemma {:induction false} UnfoldUnrolls(s: string, e: string, p: nat)
    requires e != "" && Find(s, e, 0) == Some(p) && p + |e| <= |s|
    ensures UnfoldWith(s, e) == if p + |e| < |s| && IsSpace(s[p + |e|])
                                then s[..p] + UnfoldWith(s[p + |e| + 1..], e)
                                else s[..p + |e|] + UnfoldWith(s[p + |e|..], e)
  {
    hide Find, IsSpace, OccursAt;
  }

  lemma {:induction false} UnfoldNothing(s: string, e: string)
    requires e != "" && Find(s, e, 0).None?
    ensures UnfoldWith(s, e) == s
  {
  }

  lemma SliceAppended(u: string, y: string, k: nat)
    requires k <= |y|
    ensures (u + y)[..|u| + k] == u + y[..k] && (u + y)[|u| + k..] == y[k..]
  {
  }

  lemma {:induction false} UnfoldQuiet(u: string, y: string, e: string)
    requires e != "" && Quiet(u, y, e)
    ensures UnfoldWith(u + y, e) == u + UnfoldWith(y, e)
  {
    hide Find, IsSpace, UnfoldWith, Quiet, OccursAt;
    FindAfterQuiet(u, y, e);
    if Find(y, e, 0).None? {
      UnfoldNothing(y, e);
      UnfoldNothing(u + y, e);
    } else {
      var p := Find(y, e, 0).value;
      var k := p + |e|;
      UnfoldUnrolls(y, e, p);
      UnfoldUnrolls(u + y, e, |u| + p);
      if k < |y| && IsSpace(y[k]) {
        SliceAppended(u, y, p);
        SliceAppended(u, y, k + 1);
        var w := UnfoldWith(y[k + 1..], e);
        assert UnfoldWith(u + y, e) == (u + y[..p]) + w == u + (y[..p] + w);
      } else {
        SliceAppended(u, y, k);
        var w := UnfoldWith(y[k..], e);
        assert UnfoldWith(u + y, e) == (u + y[..k]) + w == u + (y[..k] + w);
      }
    }
  }

  lemma {:induction false} CancelPrefix(u: string, a: string, b: string)
    requires u + a == u + b
    ensures a == b
  {
    assert a == (u + a)[|u|..] && b == (u + b)[|u|..];
  }

  lemma {:induction false} LineQuiet(l: string, x: string)
    requires !Contains(l, CRLF)
    ensures Quiet(l, CRLF + x, CRLF)
  {
    var s := l + (CRLF + x);
    FindFirst(l, CRLF, 0);
    forall i | 0 <= i < |l| ensures !OccursAt(s, CRLF, i) {
      CrlfAt(s, i);
      CrlfAt(l, i);
    }
  }

  /** The first line of a text is free of CRLF. */
  lemma {:induction false} FirstLine(s: string)
    requires Contains(s, CRLF)
    ensures var p := Find(s, CRLF, 0).value;
            p + 2 <= |s| && s == s[..p] + (CRLF + s[p + 2..]) && !Contains(s[..p], CRLF)
  {
    var p := Find(s, CRLF, 0).value;
    FindDecomposes(s, CRLF, 0);
    FindFirst(s, CRLF, 0);
    assert s == s[..p] + (CRLF + s[p + 2..]);
    forall i: nat ensures !OccursAt(s[..p], CRLF, i) {
      CrlfAt(s[..p], i);
      CrlfAt(s, i);
    }
    NotContains(s[..p], CRLF);
  }

  /** And a text made of such a line starts with it. */
  lemma {:induction false} LineFound(l: string, x: string)
    requires !Contains(l, CRLF)
    ensures Find(l + (CRLF + x), CRLF, 0) == Some(|l|)
  {
    LineQuiet(l, x);
    CrlfAt(CRLF + x, 0);
    FindIs(CRLF + x, CRLF, 0, 0);
    FindAfterQuiet(l, CRLF + x, CRLF);
  }

  lemma {:induction false} FoldTextLine(l: string, x: string)
    requires !Contains(l, CRLF)
    ensures FoldText(l + (CRLF + x)) == FoldLine(l) + (CRLF + FoldText(x))
  {
    hide Find;
    var s := l + (CRLF + x);
    LineFound(l, x);
    assert s[..|l|] == l && s[|l| + 2..] == x;
    assert FoldLine(l) + CRLF + FoldText(x) == FoldLine(l) + (CRLF + FoldText(x));
  }

  lemma {:induction false} UnfoldAtCrlf(x: string)
    ensures UnfoldWith(CRLF + x, CRLF)
         == if x != "" && IsSpace(x[0]) then UnfoldWith(x[1..], CRLF) else CRLF + UnfoldWith(x, CRLF)
  {
    hide Find, IsSpace, UnfoldWith;
    var s := CRLF + x;
    LineFound("", x);
    assert "" + s == s;
    UnfoldUnrolls(s, CRLF, 0);
    assert s[2..] == x && s[..2] == CRLF;
    if x != "" {
      assert s[3..] == x[1..] && s[2] == x[0];
    }
  }

  lemma {:induction false} SuffixFree(l: string, k: nat)
    requires k <= |l| && !Contains(l, CRLF)
    ensures !Contains(" " + l[k..], CRLF)
  {
    FindFirst(l, CRLF, 0);
    forall i: nat ensures !OccursAt(" " + l[k..], CRLF, i) {
      CrlfAt(" " + l[k..], i);
      if i > 0 {
        CrlfAt(l, k + i - 1);
      }
    }
    NotContains(" " + l[k..], CRLF);
  }

  // ----- unfolding undoes folding -----

  lemma {:induction false} SpaceQuiet(y: string)
    ensures UnfoldWith(" " + y, CRLF) == " " + UnfoldWith(y, CRLF)
  {
    CrlfAt(" " + y, 0);
    UnfoldQuiet(" ", y, CRLF);
  }

  /** The folded side: the CRLF and the space behind u go away. */
  lemma {:induction false} UnfoldFoldedSide(u: string, y: string)
    requires !Contains(u, CRLF) && y != "" && y[0] == ' '
    ensures UnfoldWith(u + (CRLF + y), CRLF) == u + UnfoldWith(y[1..], CRLF)
  {
    LineQuiet(u, y);
    hide Find, Contains, UnfoldWith, IsSpace, Quiet, OccursAt;
    UnfoldQuiet(u, CRLF + y, CRLF);
    UnfoldAtSpace(y);
  }

  lemma {:induction false} UnfoldAtSpace(y: string)
    requires y != "" && y[0] == ' '
    ensures UnfoldWith(CRLF + y, CRLF) == UnfoldWith(y[1..], CRLF)
  {
    UnfoldAtCrlf(y);
  }

  /** The unfolded side: the line is whole. */
  lemma {:induction false} UnfoldWholeSide(l: string, k: nat, x: string)
    requires !Contains(l, CRLF) && k <= |l|
    ensures UnfoldWith(l + (CRLF + x), CRLF) == l[..k] + UnfoldWith(l[k..] + (CRLF + x), CRLF)
  {
    var u, rest := l[..k], l[k..] + (CRLF + x);
    LineQuiet(l, x);
    assert l + (CRLF + x) == u + rest;
    assert u + l[k..] == l;
    QuietPrefix(u, l[k..], CRLF + x);
    hide Find, Contains, UnfoldWith, IsSpace, FoldLine, Quiet, OccursAt;
    UnfoldQuiet(u, rest, CRLF);
  }

  lemma {:induction false} QuietPrefix(u: string, v: string, z: string)
    requires Quiet(u + v, z, CRLF)
    ensures Quiet(u, v + z, CRLF)
  {
    assert u + v + z == u + (v + z);
  }

  lemma {:induction false} FoldLineStep(l: string) returns (g: string)
    requires |l| > 75
    ensures FoldLine(" " + l[74..]) == " " + g && FoldLine(l) == l[..74] + CRLF + (" " + g)
  {
    var m := " " + l[74..];
    var f := FoldLine(m);
    assert f[0] == m[0] == ' ' by { assert f[..1] == f[..if |m| < 74 then |m| else 74][..1]; }
    g := f[1..];
    assert f == " " + g;
  }

  /** Unfolding a folded line is unfolding the line. */
  lemma {:induction false} UnfoldFoldLine(l: string, x: string)
    requires !Contains(l, CRLF)
    ensures UnfoldWith(FoldLine(l) + (CRLF + x), CRLF) == UnfoldWith(l + (CRLF + x), CRLF)
    decreases |l|
  {
    if |l| > 75 {
      var z, m := CRLF + x, " " + l[74..];
      SuffixFree(l, 74);
      UnfoldFoldLine(m, x);
      var g := FoldLineStep(l);
      PrefixFree(l, 74);
      hide Find, Contains, UnfoldWith, IsSpace, FoldLine, Quiet, OccursAt;
      var y := (" " + g) + z;
      assert FoldLine(l) + z == l[..74] + (CRLF + y);
      assert y[1..] == g + z;
      UnfoldFoldedSide(l[..74], y);
      UnfoldWholeSide(l, 74, x);
      UnfoldPastSpace(g, l[74..], z);
    }
  }

  /** A space in front of both texts does not matter. */
  lemma {:induction false} UnfoldPastSpace(g: string, r: string, z: string)
    requires UnfoldWith((" " + g) + z, CRLF) == UnfoldWith((" " + r) + z, CRLF)
    ensures UnfoldWith(g + z, CRLF) == UnfoldWith(r + z, CRLF)
  {
    hide Find, Contains, UnfoldWith, IsSpace, FoldLine, Quiet, OccursAt;
    assert (" " + g) + z == " " + (g + z) && (" " + r) + z == " " + (r + z);
    SpaceQuiet(g + z);
    SpaceQuiet(r + z);
    CancelPrefix(" ", UnfoldWith(g + z, CRLF), UnfoldWith(r + z, CRLF));
  }

  lemma {:induction false} PrefixFree(l: string, k: nat)
    requires k <= |l| && !Contains(l, CRLF)
    ensures !Contains(l[..k], CRLF)
  {
    FindFirst(l, CRLF, 0);
    forall i: nat ensures !OccursAt(l[..k], CRLF, i) {
      CrlfAt(l[..k], i);
      CrlfAt(l, i);
    }
    NotContains(l[..k], CRLF);
  }

  /** Folding keeps the first octet of a text and whether a CRLF stands there. */
  lemma {:induction false} FoldTextStart(s: string)
    ensures FoldText(s) == "" <==> s == ""
    ensures s != "" ==> FoldText(s)[0] == s[0]
    ensures OccursAt(FoldText(s), CRLF, 0) <==> OccursAt(s, CRLF, 0)
  {
    hide Find;
    if Contains(s, CRLF) {
      FirstLine(s);
      var p := Find(s, CRLF, 0).value;
      var l, x := s[..p], s[p + 2..];
      var f := FoldLine(l);
      FoldTextLine(l, x);
      CrlfAt(FoldText(s), 0);
      CrlfAt(s, 0);
      if |l| >= 2 {
        var k := if |l| < 74 then |l| else 74;
        assert f[..k][0] == l[..k][0] && f[..k][1] == l[..k][1];
      } else if |l| == 1 {
        assert f == l;
      }
    }
  }

  lemma {:induction false} UnfoldHead(x: string)
    requires x != "" && !OccursAt(x, CRLF, 0)
    ensures UnfoldWith(x, CRLF) == x[..1] + UnfoldWith(x[1..], CRLF)
  {
    hide UnfoldWith;
    assert x == x[..1] + x[1..];
    UnfoldQuiet(x[..1], x[1..], CRLF);
  }

  /** What stands after an end of line unfolds alike before and after folding, with its first octet or without. */
  lemma {:induction false} UnfoldTail(x: string)
    requires x != "" && UnfoldWith(FoldText(x), CRLF) == UnfoldWith(x, CRLF)
    requires OccursAt(x, CRLF, 0) ==> UnfoldWith(FoldText(x[2..]), CRLF) == UnfoldWith(x[2..], CRLF)
    ensures FoldText(x) != "" && UnfoldWith(FoldText(x)[1..], CRLF) == UnfoldWith(x[1..], CRLF)
  {
    hide Find, UnfoldWith, FoldText;
    FoldTextStart(x);
    var f := FoldText(x);
    if OccursAt(x, CRLF, 0) {
      assert x == "" + (CRLF + x[2..]);
      EmptyLineFree();
      FoldTextLine("", x[2..]);
      assert f == CRLF + FoldText(x[2..]);
      assert f[1..] == LF + FoldText(x[2..]) && x[1..] == LF + x[2..];
      LfQuiet(FoldText(x[2..]));
      LfQuiet(x[2..]);
    } else {
      UnfoldHead(x);
      UnfoldHead(f);
      assert f[..1] == x[..1];
      CancelPrefix(x[..1], UnfoldWith(x[1..], CRLF), UnfoldWith(f[1..], CRLF));
    }
  }

  lemma {:induction false} EmptyLineFree()
    ensures !Contains("", CRLF)
  {
  }

  lemma {:induction false} LfQuiet(y: string)
    ensures UnfoldWith(LF + y, CRLF) == LF + UnfoldWith(y, CRLF)
  {
    CrlfAt(LF + y, 0);
    UnfoldQuiet(LF, y, CRLF);
  }

  lemma {:induction false} UnfoldFoldText(s: string)
    ensures UnfoldWith(FoldText(s), CRLF) == UnfoldWith(s, CRLF)
    decreases |s|
  {
    hide Find, UnfoldWith, IsSpace;
    if Contains(s, CRLF) {
      FirstLine(s);
      var p := Find(s, CRLF, 0).value;
      var l, x := s[..p], s[p + 2..];
      FoldTextLine(l, x);
      UnfoldFoldLine(l, FoldText(x));
      LineQuiet(l, x);
      LineQuiet(l, FoldText(x));
      UnfoldQuiet(l, CRLF + x, CRLF);
      UnfoldQuiet(l, CRLF + FoldText(x), CRLF);
      UnfoldAtCrlf(x);
      UnfoldAtCrlf(FoldText(x));
      UnfoldFoldText(x);
      FoldTextStart(x);
      if x != "" {
        if OccursAt(x, CRLF, 0) {
          CrlfAt(x, 0);
          UnfoldFoldText(x[2..]);
        }
        UnfoldTail(x);
      }
    }
  }

  lemma {:induction false} FoldKeepsEndLine(s: string)
    ensures EndLine(FoldText(s)) == EndLine(s)
  {
    hide Find;
    if Contains(s, CRLF) {
      FirstLine(s);
      var p := Find(s, CRLF, 0).value;
      var l, x := s[..p], s[p + 2..];
      FoldTextLine(l, x);
      var f := FoldText(s);
      CrlfAt(f, |FoldLine(l)|);
      ContainsAt(f, CRLF, |FoldLine(l)|);
    }
  }

  /** Unfolding a folded text is unfolding the text. */
  lemma {:induction false} UnfoldOfFold(s: string)
    ensures Unfold(FoldText(s)) == Unfold(s)
  {
    FoldKeepsEndLine(s);
    UnfoldFoldText(s);
    if !Contains(s, CRLF) {
      assert FoldText(s) == s;
    }
  }

  /** No end of line is followed by a whitespace octet. */
  ghost predicate Clean(s: string, e: string) {
    forall i :: 0 <= i && OccursAt(s, e, i) && i + |e| < |s| ==> !IsSpace(s[i + |e|])
  }

  lemma {:induction false} NoOverlap(s: string, e: string, p: nat, i: nat)
    requires (e == CRLF || e == LF) && OccursAt(s, e, p) && OccursAt(s, e, i) && p < i
    ensures p + |e| <= i
  {
    CrlfAt(s, p);
    CrlfAt(s, i);
  }

  lemma {:induction false} UnfoldFixpoint(s: string, e: string)
    requires e == CRLF || e == LF
    ensures UnfoldWith(s, e) == s <==> Clean(s, e)
    decreases |s|
  {
    hide Find, IsSpace;
    FindFirst(s, e, 0);
    if Find(s, e, 0).Some? {
      FindDecomposes(s, e, 0);
      var p := Find(s, e, 0).value;
      var k := p + |e|;
      if k < |s| && IsSpace(s[k]) {
        assert |UnfoldWith(s, e)| < |s|;
      } else {
        UnfoldFixpoint(s[k..], e);
        assert s == s[..k] + s[k..];
        forall i: nat ensures OccursAt(s[k..], e, i) <==> OccursAt(s, e, k + i) {
          OccursAtShift(s, e, k, i);
        }
        CleanSplits(s, e, p);
      }
    }
  }

  lemma {:induction false} CleanSplits(s: string, e: string, p: nat)
    requires e == CRLF || e == LF
    requires Find(s, e, 0) == Some(p) && p + |e| <= |s|
    requires p + |e| < |s| ==> !IsSpace(s[p + |e|])
    ensures Clean(s, e) <==> Clean(s[p + |e|..], e)
  {
    hide Find, IsSpace;
    FindFirst(s, e, 0);
    var k := p + |e|;
    forall i: nat ensures OccursAt(s[k..], e, i) <==> OccursAt(s, e, k + i) {
      OccursAtShift(s, e, k, i);
    }
    if Clean(s[k..], e) {
      forall i | 0 <= i && OccursAt(s, e, i) && i + |e| < |s| ensures !IsSpace(s[i + |e|]) {
        if i > p {
          NoOverlap(s, e, p, i);
          assert OccursAt(s[k..], e, i - k);
        }
      }
    }
    if Clean(s, e) {
      forall i | 0 <= i && OccursAt(s[k..], e, i) && i + |e| < |s[k..]| ensures !IsSpace(s[k..][i + |e|]) {
        assert OccursAt(s, e, k + i);
      }
    }
  }

  /** Round trip, exactly: the end of line in use must never be followed by whitespace. */
  lemma {:induction false} UnfoldUndoesFold(s: string)
    ensures Unfold(FoldText(s)) == s <==> Clean(s, EndLine(s))
  {
    hide Find, UnfoldWith;
    UnfoldOfFold(s);
    UnfoldFixpoint(s, EndLine(s));
  }

  // ----- folded lines are short, and folding again changes nothing -----

  ghost predicate LinesFit(s: string) {
    forall k :: 0 <= k < |Split(s, CRLF)| - 1 ==> |Split(s, CRLF)[k]| <= 75
  }

  lemma {:induction false} SplitLine(l: string, x: string)
    requires !Contains(l, CRLF)
    ensures Split(l + (CRLF + x), CRLF) == [l] + Split(x, CRLF)
  {
    hide Find, Split;
    LineFound(l, "");
    assert l + (CRLF + "") == l + CRLF;
    SplitCons(l, CRLF, x);
    assert l + CRLF + x == l + (CRLF + x);
  }

  lemma {:induction false} LinesFitCons(l: string, x: string)
    requires !Contains(l, CRLF)
    ensures LinesFit(l + (CRLF + x)) <==> |l| <= 75 && LinesFit(x)
  {
    hide Split;
    SplitLine(l, x);
    var a, b := Split(l + (CRLF + x), CRLF), Split(x, CRLF);
    assert a[0] == l && a[1..] == b;
    if LinesFit(l + (CRLF + x)) {
      forall k | 0 <= k < |b| - 1 ensures |b[k]| <= 75 {
        assert a[k + 1] == b[k];
      }
    }
  }

  lemma {:induction false} FoldLineFits(l: string, x: string)
    requires !Contains(l, CRLF) && LinesFit(x)
    ensures LinesFit(FoldLine(l) + (CRLF + x))
    decreases |l|
  {
    hide LinesFit, Find;
    if |l| <= 75 {
      LinesFitCons(l, x);
    } else {
      var m := " " + l[74..];
      SuffixFree(l, 74);
      FoldLineFits(m, x);
      PrefixFree(l, 74);
      LinesFitCons(l[..74], FoldLine(m) + (CRLF + x));
      assert FoldLine(l) + (CRLF + x) == l[..74] + (CRLF + (FoldLine(m) + (CRLF + x)));
    }
  }

  /** Every CRLF-ended line of a folded text has at most 75 octets. */
  lemma {:induction false} FoldedLinesFit(s: string)
    ensures LinesFit(FoldText(s))
    decreases |s|
  {
    hide Find;
    if Contains(s, CRLF) {
      FirstLine(s);
      var p := Find(s, CRLF, 0).value;
      var l, x := s[..p], s[p + 2..];
      FoldedLinesFit(x);
      FoldTextLine(l, x);
      FoldLineFits(l, FoldText(x));
    } else {
      assert Split(s, CRLF) == [s];
    }
  }

  /** Folding leaves a text alone exactly when its lines already fit. */
  lemma {:induction false} FoldFixpoint(s: string)
    ensures FoldText(s) == s <==> LinesFit(s)
    decreases |s|
  {
    hide Find;
    if Contains(s, CRLF) {
      FirstLine(s);
      var p := Find(s, CRLF, 0).value;
      var l, x := s[..p], s[p + 2..];
      FoldFixpoint(x);
      FoldTextLine(l, x);
      LinesFitCons(l, x);
      FoldTextGrows(x);
      if FoldText(s) == s {
        assert |FoldLine(l)| == |l| && |FoldText(x)| == |x|;
        assert s[p + 2..] == (FoldLine(l) + (CRLF + FoldText(x)))[p + 2..] == FoldText(x);
      }
    } else {
      assert Split(s, CRLF) == [s];
    }
  }

  lemma {:induction false} FoldTextGrows(s: string)
    ensures |FoldText(s)| >= |s|
    decreases |s|
  {
    hide Find;
    if Contains(s, CRLF) {
      FirstLine(s);
      FoldTextGrows(s[Find(s, CRLF, 0).value + 2..]);
    }
  }

  lemma {:induction false} FoldIdempotent(s: string)
    ensures FoldText(FoldText(s)) == FoldText(s)
  {
    FoldedLinesFit(s);
    FoldFixpoint(FoldText(s));
  }

  // ----- the code: a string edited in place -----

  /** A long first line: its first 74 octets are final, the rest starts over behind a space. */
  lemma {:induction false} FoldCut(l: string, x: string)
    requires !Contains(l, CRLF) && |l| > 75
    ensures FoldText(l + (CRLF + x)) == l[..74] + CRLF + FoldText(" " + l[74..] + (CRLF + x))
  {
    hide Find, FoldText;
    SuffixFree(l, 74);
    FoldTextLine(l, x);
    FoldTextLine(" " + l[74..], x);
  }

  lemma Regroup(u: string, v: string, w: string)
    ensures u + v + w == u + (v + w)
  {
  }

  lemma {:induction false} FoldCutAt(l: string, x: string) returns (h: string, z: string)
    requires !Contains(l, CRLF) && |l| > 75
    ensures |h| == 74 && l + (CRLF + x) == h + z && FoldText(h + z) == h + CRLF + FoldText(" " + z)
  {
    h, z := l[..74], l[74..] + (CRLF + x);
    FoldCut(l, x);
    hide Find, FoldText, FoldLine, Contains, OccursAt;
    Regroup(" ", l[74..], CRLF + x);
    Regroup(h, l[74..], CRLF + x);
    assert l == h + l[74..];
  }

  /** What is done so far and the folding of the rest stay the same when a long line is cut. */
  lemma {:induction false} CutLine(s: string, k: nat, h: string, z: string)
    requires k <= |s| && s[k..] == h + z && |h| == 74 && FoldText(h + z) == h + CRLF + FoldText(" " + z)
    ensures var r := s[..k + 74] + "\r\n " + s[k + 74..];
            k + 76 <= |r| == |s| + 3 && r[..k + 76] + FoldText(r[k + 76..]) == s[..k] + FoldText(s[k..])
  {
    CutSlices(s, k, h, z);
    hide *;
    Regroup(s[..k], h + CRLF, FoldText(" " + z));
  }

  lemma {:induction false} CutSlices(s: string, k: nat, h: string, z: string)
    requires k <= |s| && s[k..] == h + z && |h| == 74
    ensures var r := s[..k + 74] + "\r\n " + s[k + 74..];
            |r| == |s| + 3 && r[..k + 76] == s[..k] + (h + CRLF) && r[k + 76..] == " " + z
  {
    assert s == s[..k] + (h + z);
    assert s[..k + 74] == s[..k] + h && s[k + 74..] == z;
  }

  lemma {:induction false} FoldTextNothing(s: string)
    requires Find(s, CRLF, 0).None?
    ensures FoldText(s) == s
  {
  }

  method FoldString(str: string) returns (output: string)
    ensures output == FoldText(str)
  {
    hide Find, FoldText, FoldLine, Contains;
    output := str;
    var crlf := 0;
    var more := true;
    assert output[..0] + FoldText(output[0..]) == FoldText(str) by { assert output[0..] == str; }
    while more
      invariant crlf <= |output|
      invariant output[..crlf] + FoldText(output[crlf..]) == FoldText(str)
      invariant !more ==> output == FoldText(str)
      decreases |output| - crlf, more
    {
      ghost var done, rest := output[..crlf], output[crlf..];
      FindShift(output, CRLF, crlf);
      var next := Find(output, CRLF, crlf);
      if next.Some? {
        ghost var p := next.value - crlf;
        ghost var l, x := FirstLineOf(rest, p);
        if next.value - crlf > 75 {
          ghost var h, z := FoldCutAt(l, x);
          CutLine(output, crlf, h, z);
          output := output[..crlf + 74] + "\r\n " + output[crlf + 74..];
          crlf := crlf + 76;
        } else {
          FoldShort(l, x);
          crlf := next.value + 2;
          assert output[..crlf] == done + (l + CRLF) && output[crlf..] == x;
        }
      } else {
        FoldTextNothing(rest);
        assert done + rest == output;
        more := false;
      }
    }
  }

  lemma {:induction false} FoldShort(l: string, x: string)
    requires !Contains(l, CRLF) && |l| <= 75
    ensures FoldText(l + (CRLF + x)) == l + CRLF + FoldText(x)
  {
    hide Find, FoldText;
    FoldTextLine(l, x);
  }

  lemma {:induction false} FirstLineOf(s: string, p: nat) returns (l: string, x: string)
    requires Find(s, CRLF, 0) == Some(p)
    ensures |l| == p && s == l + (CRLF + x) && !Contains(l, CRLF)
  {
    FirstLine(s);
    l, x := s[..p], s[p + 2..];
  }

  /** What unfolding is going to yield when the text before k is final. */
  ghost function Pending(s: string, e: string, k: nat): string
    requires e != "" && k <= |s|
  {
    s[..k] + UnfoldWith(s[k..], e)
  }

  /** One step of unfolding, seen on the text from k on. */
  lemma {:induction false} UnfoldFrom(s: string, e: string, k: nat, p: nat)
    requires e != "" && k <= |s| && Find(s, e, k) == Some(p)
    ensures UnfoldWith(s[k..], e) == if p + |e| < |s| && IsSpace(s[p + |e|])
                                     then s[k..p] + UnfoldWith(s[p + |e| + 1..], e)
                                     else s[k..p + |e|] + UnfoldWith(s[p + |e|..], e)
  {
    hide Find, UnfoldWith, IsSpace;
    FindShift(s, e, k);
    var t, q := s[k..], p - k;
    UnfoldUnrolls(t, e, q);
    assert t[..q] == s[k..p] && t[..q + |e|] == s[k..p + |e|] && t[q + |e|..] == s[p + |e|..];
    if p + |e| < |s| {
      assert t[q + |e| + 1..] == s[p + |e| + 1..] && t[q + |e|] == s[p + |e|];
    }
  }

  lemma {:induction false} PendingErase(s: string, e: string, k: nat, p: nat)
    requires e != "" && k <= |s| && Find(s, e, k) == Some(p)
    requires p + |e| < |s| && IsSpace(s[p + |e|])
    ensures Pending(s[..p] + s[p + |e| + 1..], e, p) == Pending(s, e, k)
  {
    hide Find, UnfoldWith, IsSpace;
    UnfoldFrom(s, e, k, p);
    var s' := s[..p] + s[p + |e| + 1..];
    var w := UnfoldWith(s'[p..], e);
    assert s'[p..] == s[p + |e| + 1..] && s'[..p] == s[..k] + s[k..p];
    assert (s[..k] + s[k..p]) + w == s[..k] + (s[k..p] + w);
  }

  lemma {:induction false} PendingKeep(s: string, e: string, k: nat, p: nat)
    requires e != "" && k <= |s| && Find(s, e, k) == Some(p)
    requires !(p + |e| < |s| && IsSpace(s[p + |e|]))
    ensures Pending(s, e, p + |e|) == Pending(s, e, k)
  {
    hide Find, UnfoldWith, IsSpace;
    UnfoldFrom(s, e, k, p);
    var q := p + |e|;
    var w := UnfoldWith(s[q..], e);
    assert s[..q] == s[..k] + s[k..q];
    assert (s[..k] + s[k..q]) + w == s[..k] + (s[k..q] + w);
  }

  lemma {:induction false} PendingEnds(s: string, e: string, k: nat)
    requires e != "" && k <= |s|
    ensures Find(s, e, k).None? ==> Pending(s, e, k) == s
    ensures Pending(s, e, 0) == UnfoldWith(s, e)
  {
    hide Find, UnfoldWith;
    assert s[0..] == s;
    if Find(s, e, k).None? {
      FindShift(s, e, k);
      UnfoldNothing(s[k..], e);
    }
  }

  method UnfoldString(str: string) returns (output: string)
    ensures output == Unfold(str)
  {
    hide Find, UnfoldWith, IsSpace, Pending;
    output := str;
    var endline := CRLF;
    var crlf := Find(output, endline, 0);
    if crlf.None? {
      endline := LF;
      crlf := Find(output, endline, 0);
    }
    ghost var k: nat := 0;
    PendingEnds(output, endline, 0);
    while crlf.Some?
      invariant (endline == CRLF || endline == LF) && k <= |output| && crlf == Find(output, endline, k)
      invariant Pending(output, endline, k) == Unfold(str)
      decreases |output| - k
    {
      var p := crlf.value;
      if p + |endline| < |output| && IsSpace(output[p + |endline|]) {
        PendingErase(output, endline, k, p);
        output := output[..p] + output[p + |endline| + 1..];
      } else {
        PendingKeep(output, endline, k, p);
        p := p + |endline|;
      }
      k := p;
      crlf := Find(output, endline, p);
    }
    PendingEnds(output, endline, k);
  }

  /** A blank line does not survive: the carriage return that opens it counts as whitespace. */
  lemma BlankLineLost()
    ensures !Clean("a\r\n\r\nb", EndLine("a\r\n\r\nb"))
    ensures Unfold(FoldText("a\r\n\r\nb")) != "a\r\n\r\nb"
  {
    var s := "a\r\n\r\nb";
    CrlfAt(s, 1);
    ContainsAt(s, CRLF, 1);
    assert s[1 + |CRLF|] == '\r' && IsSpace(s[1 + |CRLF|]);
    UnfoldUndoesFold(s);
  }
}
