/** Python's `urllib.parse.quote_plus` with its defaults (`safe=''`,
    `encoding='utf-8'`): the text is encoded as UTF-8, the bytes of the
    unreserved set of section 2.3 of RFC 3986 pass through, a space becomes
    `+` as application/x-www-form-urlencoded serialization prescribes, and
    every other byte becomes a `%XX` triplet with upper-case hexadecimal
    digits as in section 2.1 of RFC 3986.

    The module also gives the strict inverse, `UnquotePlus`, used only to
    state what the encoding preserves. */
module UrlEncoding {
  import opened Wrappers
  import Strings

  type byte = x: int | 0 <= x < 256

  const Space: byte := 32
  const HexDigits := "0123456789ABCDEF"

  /** ALPHA / DIGIT / "-" / "." / "_" / "~" (section 2.3 of RFC 3986). */
  predicate IsUnreservedByte(b: byte) {
    || 'A' as int <= b <= 'Z' as int
    || 'a' as int <= b <= 'z' as int
    || '0' as int <= b <= '9' as int
    || b == '_' as int || b == '.' as int || b == '-' as int || b == '~' as int
  }

  predicate IsUnreserved(c: char) {
    c as int < 128 && IsUnreservedByte(c as int)
  }

  /** The characters `quote_plus` can emit. */
  predicate IsQuotedChar(c: char) {
    IsUnreserved(c) || c == '+' || c == '%'
  }

  // ---------------------------------------------------------------------
  // UTF-8

  /** The UTF-8 encoding of one Unicode scalar value. */
  function EncodeChar(c: char): (bs: seq<byte>)
    ensures 1 <= |bs| <= 4
    ensures |bs| == 1 <==> c as int < 0x80
    ensures c as int < 0x80 ==> bs == [c as int]
  {
    var cp := c as int;
    if cp < 0x80 then [cp]
    else if cp < 0x800 then [0xC0 + cp / 64, 0x80 + cp % 64]
    else if cp < 0x1_0000 then [0xE0 + cp / 4096, 0x80 + (cp / 64) % 64, 0x80 + cp % 64]
    else [0xF0 + cp / 262144, 0x80 + (cp / 4096) % 64, 0x80 + (cp / 64) % 64, 0x80 + cp % 64]
  }

  /** `s.encode("utf-8")`. Dafny characters are scalar values, so there are
      no lone surrogates and the encoding cannot fail. */
  function Utf8Encode(s: string): (bs: seq<byte>)
    ensures |bs| >= |s|
    ensures (forall i :: 0 <= i < |s| ==> s[i] as int < 0x80) ==>
      |bs| == |s| && forall i :: 0 <= i < |s| ==> bs[i] == s[i] as int
  {
    if |s| == 0 then [] else EncodeChar(s[0]) + Utf8Encode(s[1..])
  }

  predicate IsContinuation(b: byte) {
    0x80 <= b < 0xC0
  }

  /** Decodes the UTF-8 sequence at the front of `bs`: the character and the
      number of bytes it occupies, or `None` when the bytes are malformed
      (a bad lead or continuation byte, an over-long form, a surrogate or a
      value past U+10FFFF). */
  function DecodeFirst(bs: seq<byte>): (r: Option<(char, nat)>)
    requires |bs| > 0
    ensures r.Some? ==> 1 <= r.value.1 <= |bs|
  {
    var b0: int := bs[0];
    if b0 < 0x80 then Some((b0 as char, 1))
    else if 0xC0 <= b0 < 0xE0 && |bs| >= 2 && IsContinuation(bs[1]) then
      var cp: int := (b0 - 0xC0) * 64 + (bs[1] as int - 0x80);
      if cp < 0x80 then None else Some((cp as char, 2))
    else if 0xE0 <= b0 < 0xF0 && |bs| >= 3 && IsContinuation(bs[1]) && IsContinuation(bs[2]) then
      var cp: int := (b0 - 0xE0) * 4096 + (bs[1] as int - 0x80) * 64 + (bs[2] as int - 0x80);
      if cp < 0x800 || 0xD800 <= cp < 0xE000 then None else Some((cp as char, 3))
    else if 0xF0 <= b0 < 0xF8 && |bs| >= 4 && IsContinuation(bs[1]) && IsContinuation(bs[2])
         && IsContinuation(bs[3]) then
      var cp: int := (b0 - 0xF0) * 262144 + (bs[1] as int - 0x80) * 4096 + (bs[2] as int - 0x80) * 64 + (bs[3] as int - 0x80);
      if 0x1_0000 <= cp < 0x11_0000 then Some((cp as char, 4)) else None
    else None
  }

  /** `bs.decode("utf-8")`, with `None` for malformed input. */
  function Utf8Decode(bs: seq<byte>): Option<string>
    decreases |bs|
  {
    if |bs| == 0 then Some("")
    else match DecodeFirst(bs)
      case None => None
      case Some((c, n)) =>
        match Utf8Decode(bs[n..])
        case None => None
        case Some(rest) => Some([c] + rest)
  }

  lemma DivSplit(x: nat, a: nat)
    requires a > 0
    ensures x == (x / a) * a + x % a
    ensures 0 <= x % a < a
  {
  }

  lemma DivDiv64(x: nat)
    ensures x / 4096 == (x / 64) / 64
    ensures x / 262144 == (x / 4096) / 64
  {
    var q := x / 64;
    DivSplit(x, 64);
    DivSplit(q, 64);
    assert x == (q / 64) * 4096 + (q % 64) * 64 + x % 64;
    var q2 := x / 4096;
    DivSplit(x, 4096);
    DivSplit(q2, 64);
  }

  /** Decoding the encoding of a character gives the character back, and
      consumes exactly its bytes. */
  lemma EncodeCharDecodes(c: char, rest: seq<byte>)
    ensures DecodeFirst(EncodeChar(c) + rest) == Some((c, |EncodeChar(c)|))
  {
    var cp := c as int;
    if cp < 0x80 {
    } else if cp < 0x800 {
      TwoByteDecodes(c, rest);
    } else if cp < 0x1_0000 {
      ThreeByteDecodes(c, rest);
    } else {
      FourByteDecodes(c, rest);
    }
  }

  lemma TwoByteDecodes(c: char, rest: seq<byte>)
    requires 0x80 <= c as int < 0x800
    ensures DecodeFirst(EncodeChar(c) + rest) == Some((c, 2))
  {
    var cp := c as int;
    var bs := EncodeChar(c) + rest;
    DivSplit(cp, 64);
    assert bs[0] == 0xC0 + cp / 64 && bs[1] == 0x80 + cp % 64;
  }

  lemma ThreeByteDecodes(c: char, rest: seq<byte>)
    requires 0x800 <= c as int < 0x1_0000
    ensures DecodeFirst(EncodeChar(c) + rest) == Some((c, 3))
  {
    var cp := c as int;
    var bs := EncodeChar(c) + rest;
    DivSplit(cp, 64);
    DivSplit(cp / 64, 64);
    DivDiv64(cp);
    assert bs[0] == 0xE0 + cp / 4096;
    assert bs[1] == 0x80 + (cp / 64) % 64 && bs[2] == 0x80 + cp % 64;
    assert cp == (cp / 4096) * 4096 + ((cp / 64) % 64) * 64 + cp % 64;
  }

  lemma FourByteDecodes(c: char, rest: seq<byte>)
    requires 0x1_0000 <= c as int
    ensures DecodeFirst(EncodeChar(c) + rest) == Some((c, 4))
  {
    var cp := c as int;
    var bs := EncodeChar(c) + rest;
    DivSplit(cp, 64);
    DivSplit(cp / 64, 64);
    DivSplit(cp / 4096, 64);
    DivDiv64(cp);
    assert bs[0] == 0xF0 + cp / 262144;
    assert bs[1] == 0x80 + (cp / 4096) % 64;
    assert bs[2] == 0x80 + (cp / 64) % 64 && bs[3] == 0x80 + cp % 64;
    assert cp == (cp / 262144) * 262144 + ((cp / 4096) % 64) * 4096 + ((cp / 64) % 64) * 64 + cp % 64;
  }

  /** UTF-8 decoding undoes UTF-8 encoding. */
  lemma {:induction false} Utf8RoundTrip(s: string)
    ensures Utf8Decode(Utf8Encode(s)) == Some(s)
  {
    if |s| > 0 {
      var head := EncodeChar(s[0]);
      var tail := Utf8Encode(s[1..]);
      assert Utf8Encode(s) == head + tail;
      EncodeCharDecodes(s[0], tail);
      Utf8RoundTrip(s[1..]);
      DecodeStep(head + tail, s[0], |head|, s[1..]);
      assert (head + tail)[|head|..] == tail;
      assert s == [s[0]] + s[1..];
    }
  }

  /** Decoding proceeds character by character. */
  lemma DecodeStep(bs: seq<byte>, c: char, n: nat, t: string)
    requires |bs| > 0 && DecodeFirst(bs) == Some((c, n))
    requires Utf8Decode(bs[n..]) == Some(t)
    ensures Utf8Decode(bs) == Some([c] + t)
  {
  }

  // ---------------------------------------------------------------------
  // Percent-encoding

  /** The text one byte turns into. `quote_plus` first quotes with the space
      made safe and then replaces every space by `+`; since no `%XX` triplet
      contains a space, that is the same as mapping each byte on its own. */
  function QuoteByte(b: byte): (s: string)
    ensures 1 <= |s| <= 3
    ensures forall i :: 0 <= i < |s| ==> IsQuotedChar(s[i])
  {
    if IsUnreservedByte(b) then [b as char]
    else if b == Space then "+"
    else
      HexDigitsUnreserved();
      ['%', HexDigits[b / 16], HexDigits[b % 16]]
  }

  lemma HexDigitsUnreserved()
    ensures forall i :: 0 <= i < |HexDigits| ==> IsUnreserved(HexDigits[i])
  {
    forall i | 0 <= i < |HexDigits|
      ensures IsUnreserved(HexDigits[i])
    {
      assert '0' <= HexDigits[i] <= '9' || 'A' <= HexDigits[i] <= 'F';
    }
  }

  /** `quote_from_bytes` followed by the space-to-plus replacement. */
  function QuoteBytes(bs: seq<byte>): (q: string)
    ensures |bs| <= |q| <= 3 * |bs|
    ensures forall i :: 0 <= i < |q| ==> IsQuotedChar(q[i])
  {
    if |bs| == 0 then "" else QuoteByte(bs[0]) + QuoteBytes(bs[1..])
  }

  /** `quote_plus(s)`. */
  function QuotePlus(s: string): (q: string)
    ensures |q| >= |s|
    ensures ' ' !in q
    ensures forall i :: 0 <= i < |q| ==> IsQuotedChar(q[i])
  {
    QuoteBytes(Utf8Encode(s))
  }

  // ---------------------------------------------------------------------
  // The inverse

  predicate IsHexDigit(c: char) {
    '0' <= c <= '9' || 'A' <= c <= 'F' || 'a' <= c <= 'f'
  }

  function HexValue(c: char): (v: nat)
    requires IsHexDigit(c)
    ensures v < 16
  {
    if '0' <= c <= '9' then c as int - '0' as int
    else if 'A' <= c <= 'F' then c as int - 'A' as int + 10
    else c as int - 'a' as int + 10
  }

  function Prepend(b: byte, r: Option<seq<byte>>): Option<seq<byte>> {
    match r
    case None => None
    case Some(bs) => Some([b] + bs)
  }

  /** The bytes an application/x-www-form-urlencoded value stands for: `+`
      is a space, `%XX` is the byte XX and any other ASCII character is
      itself. Unlike Python's lenient `unquote_plus`, a stray `%` or a
      non-ASCII character makes the text malformed. */
  function FormDecode(q: string): Option<seq<byte>>
    decreases |q|
  {
    if |q| == 0 then Some([])
    else if q[0] == '+' then Prepend(Space, FormDecode(q[1..]))
    else if q[0] == '%' then
      if |q| >= 3 && IsHexDigit(q[1]) && IsHexDigit(q[2])
      then Prepend(HexValue(q[1]) * 16 + HexValue(q[2]), FormDecode(q[3..]))
      else None
    else if q[0] as int < 128 then Prepend(q[0] as int, FormDecode(q[1..]))
    else None
  }

  /** The text a quoted value stands for. */
  function UnquotePlus(q: string): Option<string> {
    match FormDecode(q)
    case None => None
    case Some(bs) => Utf8Decode(bs)
  }

  /** The upper-case digits `quote` writes read back as their value. */
  lemma HexDigitValue(n: nat)
    requires n < 16
    ensures IsHexDigit(HexDigits[n]) && HexValue(HexDigits[n]) == n
  {
  }

  /** Decoding the text of one byte, followed by anything, gives that byte
      first. */
  lemma QuoteByteDecodes(b: byte, rest: string)
    ensures FormDecode(QuoteByte(b) + rest) == Prepend(b, FormDecode(rest))
  {
    var q := QuoteByte(b) + rest;
    if IsUnreservedByte(b) {
      assert q[1..] == rest;
    } else if b == Space {
      assert q[1..] == rest;
    } else {
      HexDigitValue(b / 16);
      HexDigitValue(b % 16);
      assert q[3..] == rest;
    }
  }

  /** Form-decoding undoes the byte quoting. */
  lemma {:induction false} QuoteBytesDecodes(bs: seq<byte>)
    ensures FormDecode(QuoteBytes(bs)) == Some(bs)
  {
    if |bs| > 0 {
      QuoteByteDecodes(bs[0], QuoteBytes(bs[1..]));
      QuoteBytesDecodes(bs[1..]);
      assert bs == [bs[0]] + bs[1..];
    }
  }

  /** `unquote_plus(quote_plus(s)) == s`: nothing of the text is lost. */
  lemma QuotePlusRoundTrip(s: string)
    ensures UnquotePlus(QuotePlus(s)) == Some(s)
  {
    QuoteBytesDecodes(Utf8Encode(s));
    Utf8RoundTrip(s);
  }

  /** Text made of unreserved characters and spaces is quoted by turning
      each space into `+` and leaving everything else alone. */
  lemma {:induction false} QuotePlusOfUnreserved(s: string)
    requires forall i :: 0 <= i < |s| ==> IsUnreserved(s[i]) || s[i] == ' '
    ensures QuotePlus(s) == Strings.ReplaceChar(s, ' ', '+')
  {
    if |s| > 0 {
      QuotePlusOfUnreserved(s[1..]);
      QuotePlusFirst(s);
      Strings.ReplaceCharFirst(s, ' ', '+');
    }
  }

  /** An unreserved or space first character is quoted on its own. */
  lemma QuotePlusFirst(s: string)
    requires |s| > 0 && (IsUnreserved(s[0]) || s[0] == ' ')
    ensures QuotePlus(s) == [if s[0] == ' ' then '+' else s[0]] + QuotePlus(s[1..])
  {
    assert Utf8Encode(s) == [s[0] as int] + Utf8Encode(s[1..]);
    assert QuoteByte(s[0] as int) == [if s[0] == ' ' then '+' else s[0]];
  }
}
