/** JSON strings (escapeJson and JsonParser::parseString in includes/opendb/frontend/JsonEncoder.hpp). */
module Json {
  import opened BitMath
  import opened Versions

  const QUOTE: Byte := 0x22
  const BACKSLASH: Byte := 0x5C
  const LOWER_U: Byte := 0x75

  // ----- escaping -----

  function HexDigit(v: nat): Byte
    requires v < 16
  {
    if v < 10 then 0x30 + v else 0x41 + v - 10
  }

  /** The letter after the backslash of a short escape, if the byte has one. */
  function ShortEscape(c: Byte): Option<Byte> {
    if c == QUOTE then Some(QUOTE)
    else if c == BACKSLASH then Some(BACKSLASH)
    else if c == 8 then Some(0x62)
    else if c == 12 then Some(0x66)
    else if c == 10 then Some(0x6E)
    else if c == 13 then Some(0x72)
    else if c == 9 then Some(0x74)
    else None
  }

  function EscapeByte(c: Byte): (r: seq<Byte>)
    ensures r != []
  {
    if ShortEscape(c).Some? then [BACKSLASH, ShortEscape(c).value]
    else if c < 0x20 then [BACKSLASH, LOWER_U, 0x30, 0x30, HexDigit(c / 16), HexDigit(c % 16)]
    else [c]
  }

  function Escaped(s: seq<Byte>): seq<Byte> {
    if s == [] then [] else EscapeByte(s[0]) + Escaped(s[1..])
  }

  method EscapeOne(c: Byte) returns (piece: seq<Byte>)
    ensures piece == EscapeByte(c)
  {
    if c == QUOTE { piece := [BACKSLASH, QUOTE]; }
    else if c == BACKSLASH { piece := [BACKSLASH, BACKSLASH]; }
    else if c == 8 { piece := [BACKSLASH, 0x62]; }
    else if c == 12 { piece := [BACKSLASH, 0x66]; }
    else if c == 10 { piece := [BACKSLASH, 0x6E]; }
    else if c == 13 { piece := [BACKSLASH, 0x72]; }
    else if c == 9 { piece := [BACKSLASH, 0x74]; }
    else if c < 0x20 { piece := [BACKSLASH, LOWER_U, 0x30, 0x30, HexDigit(c / 16), HexDigit(c % 16)]; }
    else { piece := [c]; }
  }

  method EscapeJson(s: seq<Byte>) returns (out: seq<Byte>)
    ensures out == Escaped(s)
  {
    out := [];
    var i := 0;
    assert s[0..] == s;
    while i < |s|
      invariant i <= |s| && out + Escaped(s[i..]) == Escaped(s)
    {
      assert s[i..][1..] == s[i + 1..];
      var piece := EscapeOne(s[i]);
      out := out + piece;
      i := i + 1;
    }
  }

  /** The text between the quotes contains no control byte, as section 7 of RFC 8259 requires. */
  lemma {:induction false} EscapedHasNoControls(s: seq<Byte>)
    ensures forall b :: b in Escaped(s) ==> b >= 0x20
  {
    if s != [] {
      EscapedHasNoControls(s[1..]);
    }
  }

  predicate Plain(c: Byte) {
    c >= 0x20 && c != 0x22 && c != 0x5C
  }

  /** Only quotes, backslashes and control bytes are written differently. */
  lemma {:induction false} EscapesOnlyThese(s: seq<Byte>)
    ensures Escaped(s) == s <==> forall b :: b in s ==> Plain(b)
    ensures |Escaped(s)| >= |s|
  {
    if s != [] {
      hide EscapeByte, Plain;
      var c, rest := s[0], s[1..];
      EscapesOnlyThese(rest);
      EscapeSize(c);
      assert s == [c] + rest;
      if Escaped(s) == s {
        assert Escaped(s) == EscapeByte(c) + Escaped(rest);
        assert |EscapeByte(c)| == 1;
        assert Escaped(s)[1..] == Escaped(rest) && s[1..] == rest;
      }
      if forall b :: b in s ==> Plain(b) {
        assert c in s && forall b :: b in rest ==> b in s;
      }
    }
  }

  lemma EscapeSize(c: Byte)
    ensures EscapeByte(c) == [c] <==> Plain(c)
    ensures |EscapeByte(c)| >= 1 && (|EscapeByte(c)| == 1 <==> Plain(c))
  {
  }

  // ----- parsing -----

  function HexValue(h: Byte): Option<nat> {
    if 0x30 <= h <= 0x39 then Some(h - 0x30)
    else if 0x61 <= h <= 0x66 then Some(h - 0x61 + 10)
    else if 0x41 <= h <= 0x46 then Some(h - 0x41 + 10)
    else None
  }

  function Pow16(n: nat): nat {
    if n == 0 then 1 else 16 * Pow16(n - 1)
  }

  /** The value of n hex digits at a position, or nothing if one of them is not a hex digit. */
  function HexNumber(s: seq<Byte>, pos: nat, n: nat): (r: Option<nat>)
    requires pos + n <= |s|
    ensures r.Some? ==> r.value < Pow16(n)
    decreases n
  {
    if n == 0 then Some(0)
    else
      var front, v := HexNumber(s, pos, n - 1), HexValue(s[pos + n - 1]);
      if front.None? || v.None? then None else Some(front.value * 16 + v.value)
  }

  /** A basic-plane code as UTF-8. */
  function Utf8(code: nat): seq<Byte>
    requires code < 0x10000
  {
    if code < 0x80 then [code]
    else if code < 0x800 then [0xC0 + code / 64, 0x80 + code % 64]
    else [0xE0 + code / 4096, 0x80 + (code / 64) % 64, 0x80 + code % 64]
  }

  function Unescape(esc: Byte): Option<Byte> {
    if esc == QUOTE then Some(QUOTE)
    else if esc == BACKSLASH then Some(BACKSLASH)
    else if esc == 0x2F then Some(0x2F)
    else if esc == 0x62 then Some(8)
    else if esc == 0x66 then Some(12)
    else if esc == 0x6E then Some(10)
    else if esc == 0x72 then Some(13)
    else if esc == 0x74 then Some(9)
    else None
  }

  /** A parsed string and the position right after its closing quote. */
  datatype Parsed = Parsed(text: seq<Byte>, next: nat)

  /** The bytes an escape stands for, read right after its backslash. */
  function EscapeAt(s: seq<Byte>, pos: nat): (r: Option<Parsed>)
    requires pos < |s|
    ensures r.Some? ==> pos < r.value.next <= |s|
  {
    if Unescape(s[pos]).Some? then Some(Parsed([Unescape(s[pos]).value], pos + 1))
    else if s[pos] != LOWER_U || pos + 5 > |s| then None
    else
      var code := HexNumber(s, pos + 1, 4);
      if code.None? then None else Some(Parsed(Utf8(code.value), pos + 5))
  }

  /** The loop of the parser: what the characters from `pos` on add to `out`. */
  function ParseBody(s: seq<Byte>, pos: nat, out: seq<Byte>): Option<Parsed>
    decreases |s| - pos
  {
    if pos >= |s| then None
    else if s[pos] == QUOTE then Some(Parsed(out, pos + 1))
    else if s[pos] != BACKSLASH then ParseBody(s, pos + 1, out + [s[pos]])
    else if pos + 1 >= |s| then None
    else
      var e := EscapeAt(s, pos + 1);
      if e.None? then None else ParseBody(s, e.value.next, out + e.value.text)
  }

  function ParseString(s: seq<Byte>, pos: nat): Option<Parsed> {
    if pos < |s| && s[pos] == QUOTE then ParseBody(s, pos + 1, []) else None
  }

  class JsonParser {
    const s: seq<Byte>
    var pos: nat

    constructor (s: seq<Byte>)
      ensures this.s == s && pos == 0
    {
      this.s := s;
      pos := 0;
    }

    method ParseHex() returns (ok: bool, code: nat)
      requires pos + 4 <= |s|
      modifies this
      ensures ok <==> HexNumber(s, old(pos), 4).Some?
      ensures ok ==> HexNumber(s, old(pos), 4) == Some(code) && pos == old(pos) + 4
      ensures old(pos) <= pos <= old(pos) + 4
    {
      hide HexNumber;
      code := 0;
      var i := 0;
      HexNone(s, pos);
      while i < 4
        invariant i <= 4 && pos == old(pos) + i
        invariant HexNumber(s, old(pos), i) == Some(code)
      {
        var h := s[pos];
        var v: nat;
        if 0x30 <= h <= 0x39 { v := h - 0x30; }
        else if 0x61 <= h <= 0x66 { v := h - 0x61 + 10; }
        else if 0x41 <= h <= 0x46 { v := h - 0x41 + 10; }
        else {
          HexFails(s, old(pos), i);
          return false, code;
        }
        HexStep(s, old(pos), i, code, v);
        code := code * 16 + v;
        pos := pos + 1;
        i := i + 1;
      }
      ok := true;
    }

    /** What follows a backslash: one letter, or u and four hex digits. */
    method ParseEscape() returns (ok: bool, piece: seq<Byte>)
      requires pos < |s|
      modifies this
      ensures old(pos) < pos <= |s|
      ensures ok <==> EscapeAt(s, old(pos)).Some?
      ensures ok ==> EscapeAt(s, old(pos)) == Some(Parsed(piece, pos))
    {
      var esc := s[pos];
      pos := pos + 1;
      piece := [];
      if esc == QUOTE { piece := [QUOTE]; }
      else if esc == BACKSLASH { piece := [BACKSLASH]; }
      else if esc == 0x2F { piece := [0x2F]; }
      else if esc == 0x62 { piece := [8]; }
      else if esc == 0x66 { piece := [12]; }
      else if esc == 0x6E { piece := [10]; }
      else if esc == 0x72 { piece := [13]; }
      else if esc == 0x74 { piece := [9]; }
      else if esc == LOWER_U {
        if pos + 4 > |s| {
          return false, [];
        }
        var hexOk, code := ParseHex();
        if !hexOk {
          return false, [];
        }
        piece := Utf8(code);
      } else {
        return false, [];
      }
      ok := true;
    }

    /** On success `out` is the text between the quotes and the position is right after them. */
    method ParseStringHere() returns (ok: bool, out: seq<Byte>)
      modifies this
      ensures ok <==> ParseString(s, old(pos)).Some?
      ensures ok ==> ParseString(s, old(pos)) == Some(Parsed(out, pos))
    {
      out := [];
      if pos >= |s| || s[pos] != QUOTE {
        return false, out;
      }
      pos := pos + 1;
      while pos < |s|
        invariant ParseString(s, old(pos)) == ParseBody(s, pos, out)
        decreases |s| - pos
      {
        var c := s[pos];
        if c == QUOTE {
          pos := pos + 1;
          return true, out;
        }
        if c == BACKSLASH {
          pos := pos + 1;
          if pos >= |s| {
            return false, out;
          }
          var escOk, piece := ParseEscape();
          if !escOk {
            return false, out;
          }
          out := out + piece;
        } else {
          out := out + [c];
          pos := pos + 1;
        }
      }
      ok := false;
    }
  }

  lemma HexNone(s: seq<Byte>, pos: nat)
    requires pos <= |s|
    ensures HexNumber(s, pos, 0) == Some(0)
  {
  }

  lemma HexStep(s: seq<Byte>, pos: nat, n: nat, code: nat, v: nat)
    requires pos + n < |s| && HexNumber(s, pos, n) == Some(code) && HexValue(s[pos + n]) == Some(v)
    ensures HexNumber(s, pos, n + 1) == Some(code * 16 + v)
  {
  }

  /** One bad digit spoils the number. */
  lemma {:induction false} HexFails(s: seq<Byte>, pos: nat, i: nat)
    requires i < 4 && pos + 4 <= |s| && HexValue(s[pos + i]).None?
    ensures HexNumber(s, pos, 4).None?
  {
    var k := i + 1;
    while k < 4
      invariant i < k <= 4 && HexNumber(s, pos, k).None?
    {
      k := k + 1;
    }
  }

  // ----- round trip -----

  /** The bytes of an escape stand at the position. */
  predicate EscapeStands(s: seq<Byte>, n: nat, next: nat, c: Byte) {
    next == n + |EscapeByte(c)| < |s| && s[n..next] == EscapeByte(c)
  }

  lemma EscapeUndone(s: seq<Byte>, n: nat, next: nat, c: Byte)
    requires EscapeStands(s, n, next, c) && next > n + 1
    ensures s[n] == BACKSLASH && EscapeAt(s, n + 1) == Some(Parsed([c], next))
  {
    var e := EscapeByte(c);
    assert forall i :: 0 <= i < |e| ==> s[n + i] == s[n..next][i];
    assert s[n] == e[0] && s[n + 1] == e[1];
    if ShortEscape(c).None? {
      assert s[n + 2] == e[2] && s[n + 3] == e[3] && s[n + 4] == e[4] && s[n + 5] == e[5];
      HexOfByte(s, n + 2, c);
    }
  }

  lemma PlainByte(s: seq<Byte>, n: nat, next: nat, c: Byte)
    requires EscapeStands(s, n, next, c) && next == n + 1
    ensures s[n] == c && c != QUOTE && c != BACKSLASH
  {
    assert s[n] == s[n..next][0];
  }

  /** The parser undoes the escape of one byte and moves past it. */
  lemma ByteRoundTrip(s: seq<Byte>, n: nat, next: nat, c: Byte, out: seq<Byte>, out': seq<Byte>)
    requires EscapeStands(s, n, next, c) && out' == out + [c]
    ensures ParseBody(s, n, out) == ParseBody(s, next, out')
  {
    hide EscapeAt, EscapeByte;
    assert next > n by { EscapeLonger(c); }
    if next == n + 1 {
      PlainByte(s, n, next, c);
    } else {
      EscapeUndone(s, n, next, c);
    }
  }

  lemma EscapeLonger(c: Byte)
    ensures |EscapeByte(c)| > 0
  {
  }

  lemma HexRoundTrip(v: nat)
    requires v < 16
    ensures HexValue(HexDigit(v)) == Some(v)
  {
  }

  lemma HexOfByte(s: seq<Byte>, pos: nat, c: Byte)
    requires pos + 4 <= |s| && s[pos] == s[pos + 1] == 0x30
    requires s[pos + 2] == HexDigit(c / 16) && s[pos + 3] == HexDigit(c % 16)
    ensures HexNumber(s, pos, 4) == Some(c)
  {
    HexRoundTrip(c / 16);
    HexRoundTrip(c % 16);
    assert HexNumber(s, pos, 0) == Some(0);
    assert HexNumber(s, pos, 1) == Some(0);
    assert HexNumber(s, pos, 2) == Some(0);
    assert HexNumber(s, pos, 3) == Some(c / 16);
  }

  /** The bytes stand at the position, followed by a quote. */
  predicate QuotedStands(text: seq<Byte>, n: nat, bs: seq<Byte>) {
    n + |bs| < |text| && text[n..n + |bs|] == bs && text[n + |bs|] == QUOTE
  }

  lemma QuotedApart(text: seq<Byte>, n: nat, a: seq<Byte>, b: seq<Byte>)
    requires QuotedStands(text, n, a + b)
    ensures text[n..n + |a|] == a && QuotedStands(text, n + |a|, b)
  {
    var whole := text[n..n + |a + b|];
    assert whole[..|a|] == text[n..n + |a|] && whole[|a|..] == text[n + |a|..n + |a| + |b|];
  }

  lemma ClosingQuote(text: seq<Byte>, n: nat, out: seq<Byte>)
    requires n < |text| && text[n] == QUOTE
    ensures ParseBody(text, n, out) == Some(Parsed(out, n + 1))
  {
  }

  lemma {:induction false} BodyRoundTrip(text: seq<Byte>, n: nat, end: nat, s: seq<Byte>, out: seq<Byte>)
    requires QuotedStands(text, n, Escaped(s)) && end == n + |Escaped(s)| + 1
    ensures ParseBody(text, n, out) == Some(Parsed(out + s, end))
    decreases |s|
  {
    hide ParseBody, EscapeByte;
    if s == [] {
      assert out + s == out;
      ClosingQuote(text, n, out);
    } else {
      var next, out' := n + |EscapeByte(s[0])|, out + [s[0]];
      QuotedApart(text, n, EscapeByte(s[0]), Escaped(s[1..]));
      BodyRoundTrip(text, next, end, s[1..], out');
      assert out' + s[1..] == out + s;
      ByteRoundTrip(text, n, next, s[0], out, out');
    }
  }

  /** Wherever a quoted escape stands in a text, the parser reads the original bytes back and stops
      right after the closing quote. */
  lemma StringRoundTrip(pre: seq<Byte>, s: seq<Byte>, post: seq<Byte>)
    ensures ParseString(pre + [QUOTE] + Escaped(s) + [QUOTE] + post, |pre|) == Some(Parsed(s, |pre| + |Escaped(s)| + 2))
  {
    hide ParseBody, Escaped;
    var text, n := pre + [QUOTE] + Escaped(s) + [QUOTE] + post, |pre| + 1;
    assert text[|pre|] == QUOTE;
    assert text[n..n + |Escaped(s)|] == Escaped(s) && text[n + |Escaped(s)|] == QUOTE;
    BodyRoundTrip(text, n, |pre| + |Escaped(s)| + 2, s, []);
    assert [] + s == s;
  }

  /** Different strings have different escapes. */
  lemma EscapeInjective(a: seq<Byte>, b: seq<Byte>)
    requires Escaped(a) == Escaped(b)
    ensures a == b
  {
    StringRoundTrip([], a, []);
    StringRoundTrip([], b, []);
  }

  /** A decoder for the UTF-8 forms the parser writes. */
  function Utf8Code(bytes: seq<Byte>): nat {
    if |bytes| == 1 then bytes[0]
    else if |bytes| == 2 && bytes[0] >= 0xC0 && bytes[1] >= 0x80 then
      (bytes[0] as int - 0xC0) * 64 + (bytes[1] as int - 0x80)
    else if |bytes| == 3 && bytes[0] >= 0xE0 && bytes[1] >= 0x80 && bytes[2] >= 0x80 then
      (bytes[0] as int - 0xE0) * 4096 + (bytes[1] as int - 0x80) * 64 + (bytes[2] as int - 0x80)
    else 0
  }

  /** The UTF-8 bytes of every four-digit escape give its code back. */
  lemma Utf8RoundTrip(code: nat)
    requires code < 0x10000
    ensures Utf8Code(Utf8(code)) == code
  {
    assert code / 4096 == code / 64 / 64;
  }

  // ----- the grammar -----

  /** A hex digit and, from ten on, the case of its letter. */
  datatype Digit = Digit(value: nat, lower: bool)

  /** The ways to write a character of a string: as it is, as a short escape, or by its code. */
  datatype Piece = Raw(c: Byte) | Short(letter: Byte) | Unicode(digits: seq<Digit>)

  /** The eight short escapes of section 7 of RFC 8259: letter and meaning. */
  function ShortMeaning(): map<Byte, Byte> {
    map[0x22 := 0x22, 0x5C := 0x5C, 0x2F := 0x2F, 0x62 := 8, 0x66 := 12, 0x6E := 10, 0x72 := 13, 0x74 := 9]
  }

  predicate PieceOk(p: Piece) {
    match p
    case Raw(c) => c != 0x22 && c != 0x5C
    case Short(letter) => letter in ShortMeaning()
    case Unicode(ds) => |ds| == 4 && forall d :: d in ds ==> d.value < 16
  }

  function DigitByte(d: Digit): Byte
    requires d.value < 16
  {
    if d.value < 10 then 0x30 + d.value else if d.lower then 0x61 + d.value - 10 else 0x41 + d.value - 10
  }

  function CodeOf(ds: seq<Digit>): nat
    requires |ds| == 4
  {
    ds[0].value * 4096 + ds[1].value * 256 + ds[2].value * 16 + ds[3].value
  }

  function PieceText(p: Piece): (r: seq<Byte>)
    requires PieceOk(p)
    ensures r != []
  {
    match p
    case Raw(c) => [c]
    case Short(letter) => [0x5C, letter]
    case Unicode(ds) => [0x5C, 0x75, DigitByte(ds[0]), DigitByte(ds[1]), DigitByte(ds[2]), DigitByte(ds[3])]
  }

  lemma CodeBound(ds: seq<Digit>)
    requires PieceOk(Unicode(ds))
    ensures CodeOf(ds) < 0x10000
  {
    assert ds[0] in ds && ds[1] in ds && ds[2] in ds && ds[3] in ds;
  }

  function PieceMeaning(p: Piece): seq<Byte>
    requires PieceOk(p)
  {
    match p
    case Raw(c) => [c]
    case Short(letter) => [ShortMeaning()[letter]]
    case Unicode(ds) => CodeBound(ds); Utf8(CodeOf(ds))
  }

  predicate PiecesOk(ps: seq<Piece>) {
    forall p :: p in ps ==> PieceOk(p)
  }

  function Texts(ps: seq<Piece>): seq<Byte>
    requires PiecesOk(ps)
  {
    if ps == [] then [] else PieceText(ps[0]) + Texts(ps[1..])
  }

  function Meanings(ps: seq<Piece>): seq<Byte>
    requires PiecesOk(ps)
  {
    if ps == [] then [] else PieceMeaning(ps[0]) + Meanings(ps[1..])
  }

  lemma DigitReads(d: Digit)
    requires d.value < 16
    ensures HexValue(DigitByte(d)) == Some(d.value)
  {
  }

  lemma DigitsRead(s: seq<Byte>, n: nat, ds: seq<Digit>)
    requires PieceOk(Unicode(ds)) && n + 4 <= |s|
    requires forall i :: 0 <= i < 4 ==> ds[i].value < 16 && s[n + i] == DigitByte(ds[i])
    ensures HexNumber(s, n, 4) == Some(CodeOf(ds))
  {
    DigitReads(ds[0]);
    DigitReads(ds[1]);
    DigitReads(ds[2]);
    DigitReads(ds[3]);
    HexNone(s, n);
    HexStep(s, n, 0, 0, ds[0].value);
    HexStep(s, n, 1, ds[0].value, ds[1].value);
    HexStep(s, n, 2, ds[0].value * 16 + ds[1].value, ds[2].value);
    HexStep(s, n, 3, (ds[0].value * 16 + ds[1].value) * 16 + ds[2].value, ds[3].value);
  }

  /** The parser reads one piece, however it is written, and moves past it. */
  lemma PieceReads(s: seq<Byte>, n: nat, next: nat, p: Piece, out: seq<Byte>)
    requires PieceOk(p) && next == n + |PieceText(p)| < |s| && s[n..next] == PieceText(p)
    ensures ParseBody(s, n, out) == ParseBody(s, next, out + PieceMeaning(p))
  {
    hide HexNumber, HexValue;
    assert forall i :: 0 <= i < |PieceText(p)| ==> s[n + i] == PieceText(p)[i];
    match p
    case Raw(c) => assert s[n] == c;
    case Short(letter) => assert s[n] == 0x5C && s[n + 1] == letter;
    case Unicode(ds) =>
      assert s[n] == 0x5C && s[n + 1] == 0x75;
      forall i | 0 <= i < 4 ensures ds[i].value < 16 && s[n + 2 + i] == DigitByte(ds[i]) {
        assert ds[i] in ds;
        assert s[n + (2 + i)] == PieceText(p)[2 + i];
      }
      DigitsRead(s, n + 2, ds);
      CodeBound(ds);
  }

  lemma {:induction false} PiecesRead(s: seq<Byte>, n: nat, end: nat, ps: seq<Piece>, out: seq<Byte>)
    requires PiecesOk(ps) && QuotedStands(s, n, Texts(ps)) && end == n + |Texts(ps)| + 1
    ensures ParseBody(s, n, out) == Some(Parsed(out + Meanings(ps), end))
    decreases |ps|
  {
    hide ParseBody, PieceText, PieceMeaning, PieceOk;
    if ps == [] {
      assert out + Meanings(ps) == out;
      ClosingQuote(s, n, out);
    } else {
      var next, out' := n + |PieceText(ps[0])|, out + PieceMeaning(ps[0]);
      QuotedApart(s, n, PieceText(ps[0]), Texts(ps[1..]));
      PiecesRead(s, next, end, ps[1..], out');
      assert out' + Meanings(ps[1..]) == out + Meanings(ps);
      PieceReads(s, n, next, ps[0], out);
    }
  }

  lemma DigitAt(s: seq<Byte>, n: nat, i: nat) returns (d: Digit)
    requires n + 4 <= |s| && i < 4 && HexNumber(s, n, 4).Some?
    ensures d.value < 16 && s[n + i] == DigitByte(d)
  {
    if HexValue(s[n + i]).None? {
      HexFails(s, n, i);
    }
    d := Digit(HexValue(s[n + i]).value, s[n + i] >= 0x61);
  }

  /** A piece stands wherever the parser goes on. */
  lemma PieceFound(s: seq<Byte>, n: nat, out: seq<Byte>) returns (p: Piece, next: nat)
    requires n < |s| && s[n] != QUOTE && ParseBody(s, n, out).Some?
    ensures PieceOk(p) && next == n + |PieceText(p)| < |s| && s[n..next] == PieceText(p)
  {
    hide ParseBody, HexNumber, DigitByte;
    MoreToCome(s, n, out);
    if s[n] != BACKSLASH {
      p, next := Raw(s[n]), n + 1;
    } else if Unescape(s[n + 1]).Some? {
      p, next := Short(s[n + 1]), n + 2;
    } else {
      p := CodeFound(s, n);
      next := n + 6;
    }
  }

  lemma CodeFound(s: seq<Byte>, n: nat) returns (p: Piece)
    requires n + 6 <= |s| && s[n] == 0x5C && s[n + 1] == 0x75 && HexNumber(s, n + 2, 4).Some?
    ensures PieceOk(p) && |PieceText(p)| == 6 && s[n..n + 6] == PieceText(p)
  {
    hide HexNumber, DigitByte;
    var d0 := DigitAt(s, n + 2, 0);
    var d1 := DigitAt(s, n + 2, 1);
    var d2 := DigitAt(s, n + 2, 2);
    var d3 := DigitAt(s, n + 2, 3);
    p := Unicode([d0, d1, d2, d3]);
  }

  /** A string never ends without its closing quote. */
  lemma MoreToCome(s: seq<Byte>, n: nat, out: seq<Byte>)
    requires n < |s| && s[n] != QUOTE && ParseBody(s, n, out).Some?
    ensures s[n] != BACKSLASH ==> n + 1 < |s|
    ensures s[n] == BACKSLASH ==> n + 1 < |s| && EscapeAt(s, n + 1).Some? && EscapeAt(s, n + 1).value.next < |s|
  {
  }

  lemma {:induction false} PiecesFound(s: seq<Byte>, n: nat, out: seq<Byte>) returns (ps: seq<Piece>)
    requires ParseBody(s, n, out).Some?
    ensures PiecesOk(ps) && QuotedStands(s, n, Texts(ps))
    decreases |s| - n
  {
    hide PieceText, PieceMeaning, PieceOk;
    if s[n] == QUOTE {
      ps := [];
    } else {
      var p, next := PieceFound(s, n, out);
      PieceReads(s, n, next, p, out);
      var rest := PiecesFound(s, next, out + PieceMeaning(p));
      ps := [p] + rest;
      assert ps[1..] == rest;
      assert s[n..n + |Texts(ps)|] == s[n..next] + s[next..next + |Texts(rest)|];
    }
  }

  /**
   The parser accepts exactly the strings of the grammar: what it reads at a position is the meaning of
   characters written there between quotes, raw, as short escapes or by code, and every such way of
   writing is read.
   */
  lemma ParsesGrammar(s: seq<Byte>, pos: nat, text: seq<Byte>, next: nat)
    ensures ParseString(s, pos) == Some(Parsed(text, next)) <==>
            exists ps ::
              && PiecesOk(ps) && pos < |s| && s[pos] == 0x22 && QuotedStands(s, pos + 1, Texts(ps))
              && text == Meanings(ps) && next == pos + 1 + |Texts(ps)| + 1
  {
    hide ParseBody, PiecesOk, Texts, Meanings, QuotedStands;
    if ParseString(s, pos) == Some(Parsed(text, next)) {
      var ps := PiecesFound(s, pos + 1, []);
      PiecesRead(s, pos + 1, pos + 1 + |Texts(ps)| + 1, ps, []);
      assert [] + Meanings(ps) == Meanings(ps);
    }
    if ps :| PiecesOk(ps) && pos < |s| && s[pos] == 0x22 && QuotedStands(s, pos + 1, Texts(ps))
             && text == Meanings(ps) && next == pos + 1 + |Texts(ps)| + 1 {
      PiecesRead(s, pos + 1, next, ps, []);
      assert [] + Meanings(ps) == Meanings(ps);
    }
  }
}
