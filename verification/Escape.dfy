/** Percent escaping (src/parser.c; section 2.1 of RFC 3986). */
module Escape {
  import opened Options
  import opened Strings

  /** A NUL-terminated C string: its octets before the terminator. */
  predicate IsCString(s: string) {
    forall i :: 0 <= i < |s| ==> 0 < s[i] as int < 256
  }

  /** bctbx_noescape_rules_t: one entry per octet, 1 for those written as they are. */
  type Rules = r: seq<int> | |r| == 256 witness seq(256, _ => 0)

  function HexDigit(n: nat): (c: char)
    requires n < 16
    ensures HexValue(c) == Some(n) && c != '%'
  {
    if n < 10 then (n + '0' as int) as char else (n - 10 + 'a' as int) as char
  }

  function HexValue(c: char): (v: Option<nat>)
    ensures v.Some? ==> v.value < 16
  {
    if '0' <= c <= '9' then Some(c as int - '0' as int)
    else if 'a' <= c <= 'f' then Some(c as int - 'a' as int + 10)
    else if 'A' <= c <= 'F' then Some(c as int - 'A' as int + 10)
    else None
  }

  function EscapeChar(c: char, rules: Rules): (e: string)
    requires c as int < 256
    ensures |e| == 1 || |e| == 3
  {
    if rules[c as int] == 1 then [c] else ['%', HexDigit(c as int / 16), HexDigit(c as int % 16)]
  }

  function EscapeText(s: string, rules: Rules): string
    requires IsCString(s)
  {
    if s == "" then "" else EscapeChar(s[0], rules) + EscapeText(s[1..], rules)
  }

  /** is_escaped_char: a percent sign with two octets before the terminator. */
  predicate IsEscaped(s: string) {
    |s| >= 3 && s[0] == '%'
  }

  function SkipSpace(t: string): (u: string)
    ensures |u| <= |t| && (u != "" ==> !IsSpace(u[0]))
  {
    if t != "" && IsSpace(t[0]) then SkipSpace(t[1..]) else t
  }

  function Octet(n: int): char {
    (n % 256) as char
  }

  /** The octet that sscanf stores for "%02x", by section 7.21.6.2 of C11: white space is skipped, then at most two
      octets are read, a sign among them. None when they are no number, nor when they are a bare "0x":
      then nothing is stored. */
  function ScanHex(t: string): Option<char> {
    var u := SkipSpace(t);
    if u == "" then None
    else
      var second := if |u| > 1 then HexValue(u[1]) else None;
      if u[0] == '+' || u[0] == '-' then
        if second.None? then None
        else Some(Octet(if u[0] == '-' then 0 - second.value as int else second.value))
      else
        match HexValue(u[0])
        case None => None
        case Some(v) =>
          if second.Some? then Some(Octet(v * 16 + second.value))
          else if u[0] == '0' && |u| > 1 && (u[1] == 'x' || u[1] == 'X') then None
          else Some(Octet(v))
  }

  /** The unescaped text; None when an escape stores nothing. */
  function UnescapeText(s: string): (u: Option<string>)
    ensures u.Some? ==> |u.value| <= |s|
  {
    if s == "" then Some("")
    else if IsEscaped(s) then
      var c, rest := ScanHex(s[1..]), UnescapeText(s[3..]);
      if c.None? || rest.None? then None else Some([c.value] + rest.value)
    else
      var rest := UnescapeText(s[1..]);
      if rest.None? then None else Some([s[0]] + rest.value)
  }

  // ----- which octets are written and read -----

  lemma DigitsAt(n: nat)
    requires n < 16
    ensures HexDigit(n) == "0123456789abcdef"[n]
  {
  }

  /** An exempt octet stands for itself; any other becomes a percent sign and two lower-case digits, high one first. */
  lemma EscapeOfOctet(c: char, rules: Rules)
    requires 0 < c as int < 256
    ensures rules[c as int] == 1 ==> EscapeText([c], rules) == [c]
    ensures rules[c as int] != 1 ==>
              EscapeText([c], rules)
              == ['%', "0123456789abcdef"[c as int / 16], "0123456789abcdef"[c as int % 16]]
  {
    assert [c][1..] == "";
    assert EscapeText([c], rules) == EscapeChar(c, rules) + "" == EscapeChar(c, rules);
    DigitsAt(c as int / 16);
    DigitsAt(c as int % 16);
  }

  /** Escaping goes octet by octet. */
  lemma {:induction false} EscapeOfJoin(s: string, t: string, rules: Rules)
    requires IsCString(s) && IsCString(t)
    ensures IsCString(s + t) && EscapeText(s + t, rules) == EscapeText(s, rules) + EscapeText(t, rules)
  {
    hide EscapeChar;
    if s == "" {
      assert s + t == t && "" + EscapeText(t, rules) == EscapeText(t, rules);
    } else {
      EscapeOfJoin(s[1..], t, rules);
      assert (s + t)[1..] == s[1..] + t && (s + t)[0] == s[0];
      var e, u, v := EscapeChar(s[0], rules), EscapeText(s[1..], rules), EscapeText(t, rules);
      assert e + (u + v) == (e + u) + v;
    }
  }

  /** The digits, in either case. */
  lemma HexValueByOctet(c: char, v: nat)
    ensures HexValue(c) == Some(v) <==> v < 16 && (c == "0123456789abcdef"[v] || c == "0123456789ABCDEF"[v])
  {
  }

  /** How "%02x" reads: white space is passed over. */
  lemma ScanPastSpace(c: char, t: string)
    requires 9 <= c as int <= 13 || c as int == 32
    ensures ScanHex([c] + t) == ScanHex(t)
  {
    assert ([c] + t)[1..] == t;
    assert SkipSpace([c] + t) == SkipSpace(t);
  }

  /** One digit is enough, except that a bare "0x" is no number; no digit at all stores nothing. */
  lemma ScanDigit(c: char, d: char, t: string)
    requires c != '+' && c != '-' && !(9 <= c as int <= 13 || c as int == 32)
    ensures ScanHex([c, d] + t)
         == if HexValue(c).None? || (c == '0' && (d == 'x' || d == 'X')) then None
            else if HexValue(d).Some? then Some((HexValue(c).value * 16 + HexValue(d).value) as char)
            else Some(HexValue(c).value as char)
    ensures ScanHex([c]) == if HexValue(c).None? then None else Some(HexValue(c).value as char)
    ensures ScanHex("") == None
  {
    ScanFirst(c, [d] + t);
    ScanFirst(c, []);
    assert [c] + ([d] + t) == [c, d] + t && [c] + [] == [c];
  }

  /** A sign takes up one of the two octets, and needs a digit. */
  lemma ScanSign(d: char, t: string)
    ensures ScanHex(['+', d] + t) == if HexValue(d).None? then None else Some(HexValue(d).value as char)
    ensures ScanHex(['-', d] + t)
         == if HexValue(d).None? then None else Some(((256 - HexValue(d).value) % 256) as char)
    ensures ScanHex("+") == ScanHex("-") == None
  {
    ScanFirst('+', [d] + t);
    ScanFirst('-', [d] + t);
    ScanFirst('+', []);
    ScanFirst('-', []);
    assert ['+'] + ([d] + t) == ['+', d] + t && ['-'] + ([d] + t) == ['-', d] + t;
    assert ['+'] + [] == "+" && ['-'] + [] == "-";
  }

  lemma ScanFirst(c: char, t: string)
    ensures !IsSpace(c) ==> SkipSpace([c] + t) == [c] + t
  {
  }

  // ----- round trip -----

  /** Two hexadecimal digits are read as the octet that section 2.1 of RFC 3986 means. */
  lemma TwoDigitsRead(h: char, l: char, t: string)
    requires HexValue(h).Some? && HexValue(l).Some?
    ensures ScanHex([h, l] + t) == Some((HexValue(h).value * 16 + HexValue(l).value) as char)
  {
    var u := [h, l] + t;
    assert SkipSpace(u) == u && u[0] == h && u[1] == l;
  }

  /** One escaped octet in front of a text is read back as that octet. */
  lemma {:induction false} UnescapeOne(c: char, t: string, rules: Rules)
    requires 0 < c as int < 256 && rules['%' as int] != 1
    ensures UnescapeText(EscapeChar(c, rules) + t)
         == if UnescapeText(t).None? then None else Some([c] + UnescapeText(t).value)
  {
    var e := EscapeChar(c, rules);
    var s := e + t;
    if |e| == 1 {
      assert s[0] == c && s[1..] == t && c != '%';
    } else {
      TwoDigitsRead(e[1], e[2], t);
      hide ScanHex, HexDigit, HexValue;
      assert s[0] == '%' && s[1..] == [e[1], e[2]] + t && s[3..] == t;
    }
  }

  lemma {:induction false} UnescapeOfEscape(s: string, rules: Rules)
    requires IsCString(s) && rules['%' as int] != 1
    ensures UnescapeText(EscapeText(s, rules)) == Some(s)
  {
    hide UnescapeText, EscapeChar;
    if s == "" {
      UnescapeEmpty();
    } else {
      UnescapeOfEscape(s[1..], rules);
      UnescapeOne(s[0], EscapeText(s[1..], rules), rules);
      assert [s[0]] + s[1..] == s;
    }
  }

  lemma UnescapeEmpty()
    ensures UnescapeText("") == Some("")
  {
  }

  /** With the percent sign itself exempt, "%AA" is never read back. */
  lemma {:induction false} PercentMustBeEscaped(rules: Rules)
    requires rules['%' as int] == 1
    ensures IsCString("%AA") && UnescapeText(EscapeText("%AA", rules)) != Some("%AA")
  {
    hide UnescapeText;
    var s := "%AA";
    var a := EscapeChar('A', rules);
    assert s[1..] == "AA" && "AA"[1..] == "A" && "A"[1..] == "";
    assert EscapeText("A", rules) == a + "" == a;
    assert EscapeText("AA", rules) == a + a;
    var t := EscapeText(s, rules);
    assert t == "%" + (a + a);
    if |a| == 1 {
      assert t == "%AA";
      UnescapeTriple(t);
    } else {
      assert t[0] == t[1] == '%';
      UnescapeTriple(t);
    }
  }

  lemma {:induction false} UnescapeTriple(t: string)
    requires IsEscaped(t) && (t[1] == '%' || |t| == 3)
    ensures UnescapeText(t).None? || |UnescapeText(t).value| == 1
  {
    if |t| == 3 {
      assert t[3..] == "";
    }
  }

  /** Unescaping undoes escaping for every string exactly when the percent sign is not exempt. */
  lemma {:induction false} RoundTripExactly(rules: Rules)
    ensures (forall s :: IsCString(s) ==> UnescapeText(EscapeText(s, rules)) == Some(s))
       <==> rules['%' as int] != 1
  {
    hide UnescapeText, EscapeText;
    if rules['%' as int] != 1 {
      forall s | IsCString(s) ensures UnescapeText(EscapeText(s, rules)) == Some(s) {
        UnescapeOfEscape(s, rules);
      }
    } else {
      PercentMustBeEscaped(rules);
    }
  }

  /** Escaping an octet more. */
  lemma {:induction false} EscapeSnoc(s: string, i: nat, rules: Rules)
    requires IsCString(s) && i < |s|
    ensures EscapeText(s[..i + 1], rules) == EscapeText(s[..i], rules) + EscapeChar(s[i], rules)
  {
    hide EscapeChar;
    var u := s[..i + 1];
    if i == 0 {
      assert u[1..] == "";
      assert EscapeText(u, rules) == EscapeChar(s[0], rules) + "";
    } else {
      EscapeSnoc(s[1..], i - 1, rules);
      assert s[1..][..i] == u[1..] && s[1..][..i - 1] == s[..i][1..];
      assert s[1..][i - 1] == s[i] && u[0] == s[0] == s[..i][0];
    }
  }

  lemma EscapeEmpty(s: string, rules: Rules)
    requires s == ""
    ensures EscapeText(s, rules) == ""
  {
  }

  // ----- all strings: escapes that store nothing -----

  /** One escape or plain octet, and the rest. */
  lemma {:induction false} UnescapeStep(s: string)
    requires s != "" && UnescapeText(s).Some?
    ensures IsEscaped(s) ==>
              && ScanHex(s[1..]).Some? && UnescapeText(s[3..]).Some?
              && UnescapeText(s).value == [ScanHex(s[1..]).value] + UnescapeText(s[3..]).value
    ensures !IsEscaped(s) ==> UnescapeText(s[1..]).Some? && UnescapeText(s).value == [s[0]] + UnescapeText(s[1..]).value
  {
  }

  /** How many octets one escape or plain octet takes up. */
  function Used(s: string): nat {
    if IsEscaped(s) then 3 else 1
  }

  /** c may be read from the front of s: what sscanf stores, or anything when it stores nothing. */
  predicate ReadFrom(s: string, c: char)
    requires s != ""
  {
    if IsEscaped(s) then ScanHex(s[1..]).Some? ==> Some(c) == ScanHex(s[1..]) else c == s[0]
  }

  /** Every escape that unescaping comes to stores an octet. */
  predicate EscapesStore(s: string) {
    s != "" ==> (IsEscaped(s) ==> ScanHex(s[1..]).Some?) && EscapesStore(s[Used(s)..])
  }

  /** out may be the unescaped form of s. */
  predicate Reads(s: string, out: string) {
    if s == "" then out == ""
    else out != "" && ReadFrom(s, out[0]) && Reads(s[Used(s)..], out[1..])
  }

  lemma {:induction false} UnescapesWhole(s: string)
    ensures UnescapeText(s).Some? <==> EscapesStore(s)
  {
    hide ScanHex;
    if s != "" {
      UnescapesWhole(s[Used(s)..]);
    }
  }

  /** When every escape stores an octet there is one unescaped form. */
  lemma {:induction false} ReadsWellFormed(s: string, out: string)
    ensures UnescapeText(s).Some? ==> (Reads(s, out) <==> out == UnescapeText(s).value)
  {
    hide ScanHex;
    if s != "" && out != "" && UnescapeText(s).Some? {
      UnescapeStep(s);
      ReadsWellFormed(s[Used(s)..], out[1..]);
      assert out == [out[0]] + out[1..];
    }
  }

  /** Otherwise the variable read was never set, and there are several. */
  lemma {:induction false} ReadsSeveral(s: string) returns (a: string, b: string)
    ensures Reads(s, a) && Reads(s, b)
    ensures a != b <==> !EscapesStore(s)
  {
    hide ScanHex;
    if s == "" {
      a, b := "", "";
    } else {
      var x, y := ReadsSeveral(s[Used(s)..]);
      var c, d := s[0], s[0];
      if IsEscaped(s) {
        var read := ScanHex(s[1..]);
        c, d := if read.Some? then read.value else 'a', if read.Some? then read.value else 'b';
      }
      a, b := [c] + x, [d] + y;
      assert a[0] == c && b[0] == d && a[1..] == x && b[1..] == y;
    }
  }

  /** The result of unescaping is determined if and only if every escape stores an octet: two hexadecimal
      digits do, and so does one, with white space or a sign before it. */
  lemma {:induction false} UnescapeDetermined(s: string)
    ensures (forall a, b :: Reads(s, a) && Reads(s, b) ==> a == b) <==> EscapesStore(s)
  {
    hide *;
    UnescapesWhole(s);
    if EscapesStore(s) {
      forall a, b | Reads(s, a) && Reads(s, b) ensures a == b {
        ReadsWellFormed(s, a);
        ReadsWellFormed(s, b);
      }
    } else {
      var a, b := ReadsSeveral(s);
    }
  }

  /** One digit is enough: "%4G" is always the octet 4, and the G is passed over. */
  lemma OneDigitRead()
    ensures UnescapeText("%4G") == Some([4 as char])
  {
    var s := "%4G";
    assert s[1..] == "4G" && s[3..] == "";
    assert ScanHex("4G") == Some(4 as char) by {
      assert HexValue('G').None? && HexValue('4') == Some(4) && SkipSpace("4G") == "4G";
    }
    assert UnescapeText("") == Some("") && IsEscaped(s);
    assert [4 as char] + "" == [4 as char];
  }

  /** done has been read, and tail is still to be read. */
  ghost predicate Continues(s: string, done: string, tail: string) {
    forall rest :: Reads(tail, rest) ==> Reads(s, done + rest)
  }

  lemma {:induction false} ContinuesStart(s: string)
    ensures Continues(s, "", s)
  {
    hide Reads;
    forall rest: string ensures "" + rest == rest {
    }
  }

  lemma {:induction false} ContinuesStep(s: string, done: string, tail: string, c: char)
    requires Continues(s, done, tail) && tail != "" && ReadFrom(tail, c)
    ensures Used(tail) <= |tail| && Continues(s, done + [c], tail[Used(tail)..])
  {
    forall rest | Reads(tail[Used(tail)..], rest) ensures Reads(s, done + [c] + rest) {
      assert ([c] + rest)[1..] == rest;
      assert Reads(tail, [c] + rest);
      assert done + ([c] + rest) == done + [c] + rest;
    }
  }

  lemma {:induction false} ContinuesEnd(s: string, done: string)
    requires Continues(s, done, "")
    ensures Reads(s, done)
  {
    assert Reads("", "");
    assert done + "" == done;
  }

  lemma UsedSome(s: string)
    requires s != ""
    ensures 1 <= Used(s) <= |s|
  {
  }

  // ----- the code: growing output buffers -----

  method Grow(buffer: array<char>, size: nat) returns (a: array<char>)
    requires buffer.Length <= size
    ensures fresh(a) && a.Length == size && a[..buffer.Length] == buffer[..]
  {
    a := new char[size](_ => '\0');
    forall k | 0 <= k < buffer.Length { a[k] := buffer[k]; }
  }

  /** snprintf(a + at, room, "%%%02x", c): with room for the terminator nothing is cut. */
  method PrintEscape(a: array<char>, at: nat, room: nat, c: char) returns (written: nat)
    requires c as int < 256 && 4 <= room && at + room <= a.Length
    modifies a
    ensures written == 3
    ensures a[..at + 3] == old(a[..at]) + ['%', HexDigit(c as int / 16), HexDigit(c as int % 16)]
  {
    a[at] := '%';
    a[at + 1] := HexDigit(c as int / 16);
    a[at + 2] := HexDigit(c as int % 16);
    a[at + 3] := '\0';
    written := 3;
  }

  method EscapeString(buff: string, noescapes: Rules) returns (output: array<char>, n: nat)
    requires IsCString(buff)
    ensures n < output.Length && output[n] == '\0'
    ensures output[..n] == EscapeText(buff, noescapes)
  {
    hide HexDigit, EscapeText;
    var size := |buff|;
    var origSize := size;
    output := new char[size + 1](_ => '\0');
    n := 0;
    var i := 0;
    EscapeEmpty(buff[..0], noescapes);
    while i < |buff|
      invariant 0 <= i <= |buff| && fresh(output)
      invariant output.Length == size + 1 && n <= size
      invariant output[..n] == EscapeText(buff[..i], noescapes)
    {
      var c := buff[i];
      EscapeSnoc(buff, i, noescapes);
      ghost var before := output[..n];
      if size < n + 3 {
        size := size + if origSize / 2 > 3 then origSize / 2 else 3;
        output := Grow(output, size + 1);
      }
      assert n + 3 <= size && output[..n] == before;
      if noescapes[c as int] == 1 {
        output[n] := c;
        n := n + 1;
        assert output[..n] == before + EscapeChar(c, noescapes);
      } else {
        var written := PrintEscape(output, n, size + 1 - n, c);
        n := n + written;
        assert output[..n] == before + EscapeChar(c, noescapes);
      }
      i := i + 1;
    }
    assert buff[..i] == buff;
    output[n] := '\0';
  }

  /** bctbx_get_char on the text from a on: the octet read and the number of octets consumed. When
      sscanf stores nothing the octet is that of a variable that was never set. */
  method GetChar(a: string) returns (c: char, used: nat)
    requires a != ""
    ensures ReadFrom(a, c) && used == Used(a) <= |a|
  {
    if a[0] == '%' && |a| > 1 && |a| > 2 {
      var read := ScanHex(a[1..]);
      if read.Some? {
        c := read.value;
      } else {
        c := *;
      }
      used := 3;
    } else {
      c := a[0];
      used := 1;
    }
  }

  /** bctbx_unescaped_string on any string: the index stays within it, and each escape or plain octet
      becomes one octet, in order. */
  method UnescapeString(buff: string) returns (output: array<char>, n: nat)
    ensures n < output.Length == |buff| + 1 && output[n] == '\0'
    ensures Reads(buff, output[..n])
    ensures UnescapeText(buff).Some? ==> output[..n] == UnescapeText(buff).value
  {
    hide *;
    output := new char[|buff| + 1](_ => '\0');
    n := 0;
    var i := 0;
    assert buff[0..] == buff;
    ContinuesStart(buff);
    assert output[..0] == "";
    while i < |buff|
      invariant 0 <= n <= i <= |buff|
      invariant Continues(buff, output[..n], buff[i..])
    {
      ghost var before, rest := output[..n], buff[i..];
      var c, used := GetChar(buff[i..]);
      UsedSome(rest);
      output[n] := c;
      assert rest[used..] == buff[i + used..];
      ContinuesStep(buff, before, rest, c);
      i := i + used;
      n := n + 1;
      assert output[..n] == before + [c];
    }
    output[n] := '\0';
    assert buff[i..] == "";
    ContinuesEnd(buff, output[..n]);
    ReadsWellFormed(buff, output[..n]);
  }
}
