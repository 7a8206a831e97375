/** `encodeURIComponent`, as the job summary links use it: every character
    outside the unreserved set `A-Z a-z 0-9 - _ . ! ~ * ' ( )` becomes the
    UTF-8 bytes of its code point, each written `%XX` with upper-case hex
    digits. Its partner is a decoder that reads such text back.
    Strings are sequences of Unicode scalar values, so the lone-surrogate
    case in which `encodeURIComponent` throws cannot arise. */
module UriEncoding {
  import opened JobTypes

  /** A byte value. */
  newtype Byte = b: int | 0 <= b < 256

  /** The characters `encodeURIComponent` leaves as they are. */
  predicate IsUnreserved(c: char)
  {
    || ('A' <= c <= 'Z') || ('a' <= c <= 'z') || ('0' <= c <= '9')
    || c == '-' || c == '_' || c == '.' || c == '!' || c == '~'
    || c == '*' || c == '\'' || c == '(' || c == ')'
  }

  predicate AllUnreserved(s: string)
  {
    forall i :: 0 <= i < |s| ==> IsUnreserved(s[i])
  }

  // ------------------------------------------------------------- hex digits

  function HexDigit(n: int): (c: char)
    requires 0 <= n < 16
    ensures IsUnreserved(c) && c != '%'
  {
    if n < 10 then (('0' as int) + n) as char else (('A' as int) + n - 10) as char
  }

  /** The value of an upper-case hex digit. */
  function HexValue(c: char): Option<int>
  {
    if '0' <= c <= '9' then Some((c as int) - ('0' as int))
    else if 'A' <= c <= 'F' then Some((c as int) - ('A' as int) + 10)
    else None
  }

  lemma HexValueOfDigit(n: int)
    requires 0 <= n < 16
    ensures HexValue(HexDigit(n)) == Some(n)
  {
  }

  // ------------------------------------------------------------------ UTF-8

  /** The UTF-8 encoding of a code point: one byte below 0x80, two below
      0x800, three below 0x10000, four otherwise. */
  function Utf8(c: char): (bytes: seq<Byte>)
    ensures 1 <= |bytes| <= 4
  {
    var cp := c as int;
    if cp < 0x80 then
      [cp as Byte]
    else if cp < 0x800 then
      [(0xC0 + cp / 64) as Byte, (0x80 + cp % 64) as Byte]
    else if cp < 0x10000 then
      [(0xE0 + cp / 4096) as Byte, (0x80 + (cp / 64) % 64) as Byte, (0x80 + cp % 64) as Byte]
    else
      [(0xF0 + cp / 262144) as Byte, (0x80 + (cp / 4096) % 64) as Byte,
       (0x80 + (cp / 64) % 64) as Byte, (0x80 + cp % 64) as Byte]
  }

  predicate IsContinuation(b: Byte)
  {
    0x80 <= b < 0xC0
  }

  /** How many bytes a sequence starting with lead byte b has, or 0 when b
      cannot start one. */
  function SequenceLength(b: Byte): int
  {
    if b < 0x80 then 1
    else if 0xC2 <= b < 0xE0 then 2
    else if 0xE0 <= b < 0xF0 then 3
    else if 0xF0 <= b < 0xF5 then 4
    else 0
  }

  /** The code point of a well-formed UTF-8 sequence: rejects stray or
      missing continuation bytes, over-long forms, surrogates and values
      above 0x10FFFF. */
  function Utf8Decode(bytes: seq<Byte>): Option<char>
  {
    if |bytes| == 0 || SequenceLength(bytes[0]) != |bytes| then None
    else if exists i :: 1 <= i < |bytes| && !IsContinuation(bytes[i]) then None
    else
      var b0 := bytes[0] as int;
      var cp :=
        if |bytes| == 1 then b0
        else if |bytes| == 2 then (b0 - 0xC0) * 64 + (bytes[1] as int - 0x80)
        else if |bytes| == 3 then
          (b0 - 0xE0) * 4096 + (bytes[1] as int - 0x80) * 64 + (bytes[2] as int - 0x80)
        else
          (b0 - 0xF0) * 262144 + (bytes[1] as int - 0x80) * 4096
          + (bytes[2] as int - 0x80) * 64 + (bytes[3] as int - 0x80);
      var least := if |bytes| == 1 then 0 else if |bytes| == 2 then 0x80
                   else if |bytes| == 3 then 0x800 else 0x10000;
      if cp < least || cp >= 0x110000 || (0xD800 <= cp < 0xE000) then None
      else Some(cp as char)
  }

  lemma DivMod64(n: int)
    requires n >= 0
    ensures n == (n / 64) * 64 + n % 64
    ensures n / 4096 == (n / 64) / 64
    ensures n / 262144 == (n / 4096) / 64
  {
  }

  /** Decoding the bytes of a code point gives that code point back. */
  lemma Utf8RoundTrip(c: char)
    ensures Utf8Decode(Utf8(c)) == Some(c)
  {
    var cp := c as int;
    if cp < 0x80 {
    } else if cp < 0x800 {
      Utf8RoundTripTwo(c);
    } else if cp < 0x10000 {
      Utf8RoundTripThree(c);
    } else {
      Utf8RoundTripFour(c);
    }
  }

  lemma Utf8RoundTripTwo(c: char)
    requires 0x80 <= c as int < 0x800
    ensures Utf8Decode(Utf8(c)) == Some(c)
  {
    var cp := c as int;
    DivMod64(cp);
    var bytes := Utf8(c);
    assert bytes == [(0xC0 + cp / 64) as Byte, (0x80 + cp % 64) as Byte];
    assert IsContinuation(bytes[1]);
  }

  lemma Utf8RoundTripThree(c: char)
    requires 0x800 <= c as int < 0x10000
    ensures Utf8Decode(Utf8(c)) == Some(c)
  {
    var cp := c as int;
    DivMod64(cp);
    DivMod64(cp / 64);
    var bytes := Utf8(c);
    assert bytes == [(0xE0 + cp / 4096) as Byte, (0x80 + (cp / 64) % 64) as Byte, (0x80 + cp % 64) as Byte];
    assert IsContinuation(bytes[1]) && IsContinuation(bytes[2]);
  }

  lemma Utf8RoundTripFour(c: char)
    requires 0x10000 <= c as int
    ensures Utf8Decode(Utf8(c)) == Some(c)
  {
    var cp := c as int;
    DivMod64(cp);
    DivMod64(cp / 64);
    DivMod64(cp / 4096);
    var bytes := Utf8(c);
    assert bytes == [(0xF0 + cp / 262144) as Byte, (0x80 + (cp / 4096) % 64) as Byte,
                     (0x80 + (cp / 64) % 64) as Byte, (0x80 + cp % 64) as Byte];
    assert IsContinuation(bytes[1]) && IsContinuation(bytes[2]) && IsContinuation(bytes[3]);
    assert bytes[0] as int == 0xF0 + cp / 262144 < 0xF5;
  }

  // --------------------------------------------------------- the two layers

  /** A piece of encoded text: a character kept as it is, or one `%XX` byte. */
  datatype Unit = Literal(c: char) | Escaped(b: Byte)

  function EscapeBytes(bytes: seq<Byte>): (u: seq<Unit>)
    ensures |u| == |bytes|
    ensures forall i :: 0 <= i < |u| ==> u[i] == Escaped(bytes[i])
  {
    if bytes == [] then [] else [Escaped(bytes[0])] + EscapeBytes(bytes[1..])
  }

  /** What one character becomes. */
  function CharUnits(c: char): seq<Unit>
  {
    if IsUnreserved(c) then [Literal(c)] else EscapeBytes(Utf8(c))
  }

  function Units(s: string): seq<Unit>
  {
    if s == [] then [] else CharUnits(s[0]) + Units(s[1..])
  }

  function RenderUnit(u: Unit): string
  {
    match u
    case Literal(c) => [c]
    case Escaped(b) => ['%', HexDigit(b as int / 16), HexDigit(b as int % 16)]
  }

  function Render(us: seq<Unit>): string
  {
    if us == [] then [] else RenderUnit(us[0]) + Render(us[1..])
  }

  /** `encodeURIComponent(s)`. */
  function EncodeURIComponent(s: string): (r: string)
    ensures forall i :: 0 <= i < |r| ==> IsUnreserved(r[i]) || r[i] == '%'
  {
    if s == [] then []
    else
      var head := Render(CharUnits(s[0]));
      RenderAlphabet(CharUnits(s[0]));
      head + EncodeURIComponent(s[1..])
  }

  /** Rendered text consists of unreserved characters and '%' when every
      literal is unreserved. */
  lemma {:induction false} RenderAlphabet(us: seq<Unit>)
    requires forall i :: 0 <= i < |us| && us[i].Literal? ==> IsUnreserved(us[i].c)
    ensures forall i :: 0 <= i < |Render(us)| ==> IsUnreserved(Render(us)[i]) || Render(us)[i] == '%'
  {
    if us != [] {
      RenderAlphabet(us[1..]);
    }
  }

  lemma {:induction false} EncodeIsRenderedUnits(s: string)
    ensures EncodeURIComponent(s) == Render(Units(s))
  {
    if s != [] {
      EncodeIsRenderedUnits(s[1..]);
      RenderAppend(CharUnits(s[0]), Units(s[1..]));
    }
  }

  lemma {:induction false} RenderAppend(a: seq<Unit>, b: seq<Unit>)
    ensures Render(a + b) == Render(a) + Render(b)
  {
    if a != [] {
      assert (a + b)[1..] == a[1..] + b;
      RenderAppend(a[1..], b);
    } else {
      assert a + b == b;
    }
  }

  /** Text of unreserved characters is left unchanged. */
  lemma {:induction false} EncodeUnreservedIsIdentity(s: string)
    requires AllUnreserved(s)
    ensures EncodeURIComponent(s) == s
  {
    if s != [] {
      EncodeUnreservedIsIdentity(s[1..]);
      assert [Literal(s[0])][1..] == [];
      assert Render(CharUnits(s[0])) == [s[0]];
      assert s == [s[0]] + s[1..];
    }
  }

  // ------------------------------------------------------------ decoding

  /** Reads `%XX` escapes and plain characters; None for a '%' that is not
      followed by two hex digits. */
  function Parse(t: string): Option<seq<Unit>>
  {
    if t == [] then Some([])
    else if t[0] != '%' then
      match Parse(t[1..])
      case None => None
      case Some(rest) => Some([Literal(t[0])] + rest)
    else if |t| < 3 || HexValue(t[1]).None? || HexValue(t[2]).None? then None
    else
      match Parse(t[3..])
      case None => None
      case Some(rest) => Some([Escaped((16 * HexValue(t[1]).value + HexValue(t[2]).value) as Byte)] + rest)
  }

  /** Parsing reads one rendered unit back and goes on with the rest. */
  lemma ParseUnit(u: Unit, r: string)
    requires u.Literal? ==> u.c != '%'
    ensures Parse(RenderUnit(u) + r) ==
      match Parse(r)
      case None => None
      case Some(rest) => Some([u] + rest)
  {
    var t := RenderUnit(u) + r;
    match u
    case Literal(c) =>
      assert t[1..] == r;
    case Escaped(b) =>
      assert t[3..] == r;
      HexValueOfDigit(b as int / 16);
      HexValueOfDigit(b as int % 16);
  }

  lemma {:induction false} ParseRender(us: seq<Unit>)
    requires forall i :: 0 <= i < |us| && us[i].Literal? ==> us[i].c != '%'
    ensures Parse(Render(us)) == Some(us)
  {
    if us != [] {
      ParseRender(us[1..]);
      ParseUnit(us[0], Render(us[1..]));
      assert [us[0]] + us[1..] == us;
    }
  }

  /** The first `n` units as bytes, when they are all escapes. */
  function Bytes(us: seq<Unit>, n: nat): Option<seq<Byte>>
    requires n <= |us|
  {
    if n == 0 then Some([])
    else if !us[0].Escaped? then None
    else
      match Bytes(us[1..], n - 1)
      case None => None
      case Some(rest) => Some([us[0].b] + rest)
  }

  /** Turns escapes back into characters through UTF-8. */
  function DecodeUnits(us: seq<Unit>): Option<string>
    decreases |us|
  {
    if us == [] then Some([])
    else if us[0].Literal? then
      match DecodeUnits(us[1..])
      case None => None
      case Some(rest) => Some([us[0].c] + rest)
    else
      var n := SequenceLength(us[0].b);
      if n == 0 || n > |us| then None
      else
        match Bytes(us, n)
        case None => None
        case Some(bytes) =>
          match Utf8Decode(bytes)
          case None => None
          case Some(c) =>
            match DecodeUnits(us[n..])
            case None => None
            case Some(rest) => Some([c] + rest)
  }

  /** The inverse of `EncodeURIComponent`: literal characters and `%XX`
      escapes with upper-case hex digits forming well-formed UTF-8; None for
      anything else. It stands for `decodeURIComponent` on text this model
      encodes; lower-case hex digits, which `decodeURIComponent` also reads,
      are not accepted. */
  function DecodeURIComponent(t: string): Option<string>
  {
    match Parse(t)
    case None => None
    case Some(us) => DecodeUnits(us)
  }

  lemma {:induction false} BytesOfEscaped(bytes: seq<Byte>, rest: seq<Unit>)
    ensures var us := EscapeBytes(bytes) + rest;
            Bytes(us, |bytes|) == Some(bytes)
  {
    if bytes != [] {
      var us := EscapeBytes(bytes) + rest;
      assert us[1..] == EscapeBytes(bytes[1..]) + rest;
      BytesOfEscaped(bytes[1..], rest);
      assert [bytes[0]] + bytes[1..] == bytes;
    }
  }

  lemma Utf8LeadLength(c: char)
    ensures SequenceLength(Utf8(c)[0]) == |Utf8(c)|
  {
    var cp := c as int;
    if cp >= 0x80 && cp < 0x800 {
      assert cp / 64 >= 2;
    }
  }

  lemma DecodeCharUnits(c: char, rest: seq<Unit>)
    ensures DecodeUnits(CharUnits(c) + rest) ==
      match DecodeUnits(rest)
      case None => None
      case Some(s) => Some([c] + s)
  {
    var us := CharUnits(c) + rest;
    if IsUnreserved(c) {
      assert us[1..] == rest;
    } else {
      var bytes := Utf8(c);
      var n := |bytes|;
      Utf8LeadLength(c);
      BytesOfEscaped(bytes, rest);
      Utf8RoundTrip(c);
      assert us[0] == Escaped(bytes[0]);
      assert us[n..] == rest;
    }
  }

  lemma {:induction false} DecodeUnitsOfUnits(s: string)
    ensures DecodeUnits(Units(s)) == Some(s)
  {
    if s != [] {
      DecodeUnitsOfUnits(s[1..]);
      DecodeCharUnits(s[0], Units(s[1..]));
      assert [s[0]] + s[1..] == s;
    }
  }

  lemma UnitsLiterals(s: string)
    ensures forall i :: 0 <= i < |Units(s)| && Units(s)[i].Literal? ==> IsUnreserved(Units(s)[i].c)
  {
    if s != [] {
      UnitsLiterals(s[1..]);
      var a: seq<Unit> := CharUnits(s[0]);
      var b: seq<Unit> := Units(s[1..]);
      var ab: seq<Unit> := a + b;
      assert Units(s) == ab;
      forall i | 0 <= i < |ab| && ab[i].Literal? ensures IsUnreserved(ab[i].c) {
        if i >= |a| {
          assert ab[i] == b[i - |a|];
        }
      }
    }
  }

  /** `decodeURIComponent(encodeURIComponent(s)) === s` for every string. */
  lemma EncodeDecodeRoundTrip(s: string)
    ensures DecodeURIComponent(EncodeURIComponent(s)) == Some(s)
  {
    EncodeIsRenderedUnits(s);
    UnitsLiterals(s);
    ParseRender(Units(s));
    DecodeUnitsOfUnits(s);
  }
}
