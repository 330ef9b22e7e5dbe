/** Folding and unfolding (src/utils/utils.cc) said octet by octet. */
module FoldOctets {
  import opened Options
  import opened Strings
  import opened Text
  import opened Fold

  // ----- ends of line -----

  /** isspace in the C locale, by octet. */
  predicate White(c: char) {
    9 <= c as int <= 13 || c as int == 32
  }

  predicate HasCrlf(s: string) {
    exists i :: 0 <= i < |s| - 1 && s[i] == '\r' && s[i + 1] == '\n'
  }

  lemma LfAt(s: string, i: nat)
    ensures OccursAt(s, LF, i) <==> i < |s| && s[i] == '\n'
  {
    if i < |s| {
      assert s[i..i + 1] == [s[i]];
    }
  }

  lemma EndLineByOctets(s: string)
    ensures EndLine(s) == if HasCrlf(s) then "\r\n" else "\n"
  {
    hide Find;
    FindFirst(s, CRLF, 0);
    if Contains(s, CRLF) {
      CrlfAt(s, Find(s, CRLF, 0).value);
    } else if i :| 0 <= i < |s| - 1 && s[i] == '\r' && s[i + 1] == '\n' {
      CrlfAt(s, i);
      ContainsAt(s, CRLF, i);
    }
  }

  /** Text without CRLF stays as it is exactly when no line feed is followed by white space; text with CRLF
      exactly when no CRLF is. */
  lemma UnfoldFixpointByOctets(s: string)
    ensures !HasCrlf(s) ==>
              (Unfold(s) == s <==> forall i :: 0 <= i < |s| - 1 && s[i] == '\n' ==> !White(s[i + 1]))
    ensures HasCrlf(s) ==>
              (Unfold(s) == s <==>
                forall i :: 0 <= i < |s| - 2 && s[i] == '\r' && s[i + 1] == '\n' ==> !White(s[i + 2]))
  {
    EndLineByOctets(s);
    UnfoldFixpoint(s, EndLine(s));
    hide Find, HasCrlf, UnfoldWith, EndLine, OccursAt, White, IsSpace, Clean;
    if HasCrlf(s) {
      CleanCrlf(s);
    } else {
      CleanLf(s);
    }
  }

  lemma CleanLf(s: string)
    ensures Clean(s, "\n") <==> forall i :: 0 <= i < |s| - 1 && s[i] == '\n' ==> !White(s[i + 1])
  {
    hide OccursAt, IsSpace, White;
    if !Clean(s, LF) {
      var i: nat :| OccursAt(s, LF, i) && i + 1 < |s| && IsSpace(s[i + 1]);
      LfAt(s, i);
      WhiteIsSpace(s[i + 1]);
    }
    if i: int :| 0 <= i < |s| - 1 && s[i] == '\n' && White(s[i + 1]) {
      LfAt(s, i);
      WhiteIsSpace(s[i + 1]);
    }
  }

  lemma CleanCrlf(s: string)
    ensures Clean(s, "\r\n") <==>
              forall i :: 0 <= i < |s| - 2 && s[i] == '\r' && s[i + 1] == '\n' ==> !White(s[i + 2])
  {
    hide OccursAt, IsSpace, White;
    if !Clean(s, CRLF) {
      var i: nat :| OccursAt(s, CRLF, i) && i + 2 < |s| && IsSpace(s[i + 2]);
      CrlfAt(s, i);
      WhiteIsSpace(s[i + 2]);
    }
    if i: int :| 0 <= i < |s| - 2 && s[i] == '\r' && s[i + 1] == '\n' && White(s[i + 2]) {
      CrlfAt(s, i);
      WhiteIsSpace(s[i + 2]);
    }
  }

  // ----- unfolding, end of line by end of line -----

  lemma {:induction false} UnfoldAtLf(v: string)
    ensures UnfoldWith("\n" + v, "\n")
         == if v != "" && IsSpace(v[0]) then UnfoldWith(v[1..], "\n") else "\n" + UnfoldWith(v, "\n")
  {
    hide Find, IsSpace, UnfoldWith;
    var s := LF + v;
    LfAt(s, 0);
    FindIs(s, LF, 0, 0);
    UnfoldUnrolls(s, LF, 0);
    assert s[1..] == v && s[..1] == LF;
    if v != "" {
      assert s[2..] == v[1..] && s[1] == v[0] && s[..0] == "";
      assert "" + UnfoldWith(v[1..], LF) == UnfoldWith(v[1..], LF);
    }
  }

  lemma QuietLf(u: string, y: string)
    requires forall i :: 0 <= i < |u| ==> u[i] != '\n'
    ensures Quiet(u, y, LF)
  {
    forall i | 0 <= i < |u| ensures !OccursAt(u + y, LF, i) {
      LfAt(u + y, i);
    }
  }

  lemma QuietCrlf(u: string, v: string)
    requires !HasCrlf(u)
    ensures Quiet(u, CRLF + v, CRLF)
  {
    var s := u + (CRLF + v);
    forall i | 0 <= i < |u| ensures !OccursAt(s, CRLF, i) {
      CrlfAt(s, i);
      assert i + 1 < |u| ==> s[i] == u[i] && s[i + 1] == u[i + 1];
      assert i + 1 == |u| ==> s[i + 1] == '\r';
    }
  }

  lemma WhiteIsSpace(c: char)
    ensures White(c) <==> IsSpace(c)
  {
  }

  /** With line feeds: the first one goes away together with white space behind it, or stays. */
  lemma UnfoldAtLineFeed(u: string, v: string)
    requires forall i :: 0 <= i < |u| ==> u[i] != '\n'
    ensures UnfoldWith(u + ("\n" + v), "\n")
         == u + if v != "" && White(v[0]) then UnfoldWith(v[1..], "\n") else "\n" + UnfoldWith(v, "\n")
  {
    QuietLf(u, LF + v);
    hide UnfoldWith, IsSpace, White, Quiet;
    UnfoldQuiet(u, LF + v, LF);
    UnfoldAtLf(v);
    if v != "" {
      WhiteIsSpace(v[0]);
    }
  }

  /** The same with CRLF. */
  lemma UnfoldAtFirstCrlf(u: string, v: string)
    requires !HasCrlf(u)
    ensures UnfoldWith(u + ("\r\n" + v), "\r\n")
         == u + if v != "" && White(v[0]) then UnfoldWith(v[1..], "\r\n") else "\r\n" + UnfoldWith(v, "\r\n")
  {
    QuietCrlf(u, v);
    hide UnfoldWith, IsSpace, White, Quiet, HasCrlf;
    UnfoldQuiet(u, CRLF + v, CRLF);
    UnfoldAtCrlf(v);
    if v != "" {
      WhiteIsSpace(v[0]);
    }
  }

  /** And text without an end of line stays as it is. */
  lemma UnfoldWithoutEnd(s: string)
    requires forall i :: 0 <= i < |s| ==> s[i] != '\n'
    ensures Unfold(s) == s
  {
    assert !HasCrlf(s);
    UnfoldFixpointByOctets(s);
  }

  lemma UnfoldsLineFeed()
    ensures Unfold("a\n b") == "ab"
  {
    var s := "a\n b";
    assert !HasCrlf(s);
    EndLineByOctets(s);
    UnfoldAtLineFeed("a", " b");
    assert "a" + ("\n" + " b") == s && " b"[1..] == "b";
    UnfoldWithoutEnd("b");
    EndLineByOctets("b");
    assert !HasCrlf("b");
    hide UnfoldWith, EndLine;
    assert "a" + "b" == "ab";
  }

  // ----- where a line is cut -----

  /** How many cuts a line of n octets needs: each leaves 73 octets fewer, until at most 75 are left. */
  function Cuts(n: nat): nat {
    if n <= 75 then 0 else (n - 3) / 73
  }

  lemma CutsStep(n: nat)
    requires n > 75
    ensures Cuts(n) == Cuts(n - 73) + 1
  {
  }

  /** The folded line is three octets longer for each cut; the cuts stand at octets 74, 150, 226 and so on. */
  lemma {:induction false} FoldLineCuts(l: string, j: nat)
    requires j < Cuts(|l|)
    ensures |FoldLine(l)| == |l| + 3 * Cuts(|l|) && 76 * j + 77 <= |FoldLine(l)|
    ensures FoldLine(l)[76 * j + 74..76 * j + 77] == "\r\n "
    decreases |l|
  {
    var m := " " + l[74..];
    CutsStep(|l|);
    FoldLineLength(l);
    FoldLineLength(m);
    var f, g := FoldLine(l), FoldLine(m);
    assert f == l[..74] + CRLF + g && g[0] == ' ' by { FoldLineStarts(l); }
    hide FoldLine, Cuts;
    if j > 0 {
      FoldLineCuts(m, j - 1);
      assert f[76 * j + 74..76 * j + 77] == g[76 * (j - 1) + 74..76 * (j - 1) + 77];
    } else {
      assert f[74..77] == [CRLF[0], CRLF[1], g[0]];
    }
  }

  lemma {:induction false} FoldLineStarts(l: string)
    requires |l| > 75
    ensures FoldLine(l) == l[..74] + CRLF + FoldLine(" " + l[74..])
    ensures |FoldLine(" " + l[74..])| > 0 && FoldLine(" " + l[74..])[0] == ' '
  {
    var g := FoldLineStep(l);
  }

  lemma {:induction false} FoldLineLength(l: string)
    ensures |FoldLine(l)| == |l| + 3 * Cuts(|l|)
    decreases |l|
  {
    if |l| > 75 {
      CutsStep(|l|);
      FoldLineLength(" " + l[74..]);
    }
  }

  /** The cuts in front of octet p of the line. */
  function CutsBefore(n: nat, p: nat): nat {
    if p == 0 then 0 else if (p - 1) / 73 < Cuts(n) then (p - 1) / 73 else Cuts(n)
  }

  /** Every octet of the line stands behind the cuts in front of it. */
  lemma {:induction false} FoldLineAt(l: string, p: nat)
    requires p < |l|
    ensures p + 3 * CutsBefore(|l|, p) < |FoldLine(l)| && FoldLine(l)[p + 3 * CutsBefore(|l|, p)] == l[p]
    decreases |l|
  {
    FoldLineLength(l);
    if |l| > 75 {
      CutsStep(|l|);
      var m := " " + l[74..];
      if p >= 74 {
        assert m[p - 73] == l[p];
        FoldLineAt(m, p - 73);
        CutsBeforeStep(|l|, p);
      }
    }
  }

  lemma CutsBeforeStep(n: nat, p: nat)
    requires n > 75 && 74 <= p < n
    ensures CutsBefore(n, p) == CutsBefore(n - 73, p - 73) + 1
  {
  }

  // ----- and which lines -----

  /** All but the last piece. */
  function FoldPieces(ps: seq<string>): (fs: seq<string>)
    requires |ps| >= 1
    ensures |fs| == |ps|
  {
    if |ps| == 1 then ps else [FoldLine(ps[0])] + FoldPieces(ps[1..])
  }

  /** Folding cuts at CRLF, folds every line but what is behind the last CRLF, and puts the lines together again. */
  lemma {:induction false} FoldBySplit(s: string)
    ensures FoldText(s) == Join(FoldPieces(Split(s, "\r\n")), "\r\n")
    decreases |s|
  {
    hide Find, FoldLine, Join;
    match Find(s, CRLF, 0)
    case None =>
      assert Split(s, CRLF) == [s];
      JoinSingle(s, CRLF);
    case Some(p) =>
      FindDecomposes(s, CRLF, 0);
      var rest := Split(s[p + 2..], CRLF);
      assert Split(s, CRLF) == [s[..p]] + rest;
      FoldBySplit(s[p + 2..]);
      assert ([s[..p]] + rest)[1..] == rest;
      assert FoldPieces([s[..p]] + rest) == [FoldLine(s[..p])] + FoldPieces(rest);
      JoinCons(FoldLine(s[..p]), FoldPieces(rest), CRLF);
  }
}
