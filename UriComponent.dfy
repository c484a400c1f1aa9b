/**
 * `encodeURIComponent` and `decodeURIComponent` (section 19.2.6 of
 * ECMA-262): every character outside the unreserved set becomes the
 * `%XY` escapes of its UTF-8 bytes, and decoding turns every escape back,
 * failing (a `URIError`) on a malformed escape or byte sequence.
 *
 * Characters are Unicode scalar values, so the lone surrogates that make
 * `encodeURIComponent` throw cannot occur.
 */
module UriComponent {
  import opened Wrappers

  type Byte = x: int | 0 <= x < 256

  /** The characters `encodeURIComponent` leaves alone. */
  predicate IsUnreserved(c: char) {
    || ('A' <= c <= 'Z') || ('a' <= c <= 'z') || ('0' <= c <= '9')
    || c == '-' || c == '_' || c == '.' || c == '!' || c == '~' || c == '*' || c == '\'' || c == '(' || c == ')'
  }

  /** Encoding writes upper-case hexadecimal digits. */
  function HexDigit(d: int): (c: char)
    requires 0 <= d < 16
    ensures IsUnreserved(c)
  {
    if d < 10 then ('0' as int + d) as char else ('A' as int + d - 10) as char
  }

  /** Decoding accepts either case. */
  function HexValue(c: char): (r: Option<int>)
    ensures r.Some? ==> 0 <= r.value < 16
  {
    if '0' <= c <= '9' then Some(c as int - '0' as int)
    else if 'A' <= c <= 'F' then Some(c as int - 'A' as int + 10)
    else if 'a' <= c <= 'f' then Some(c as int - 'a' as int + 10)
    else None
  }

  function PercentEncodeByte(b: Byte): string {
    ['%', HexDigit(b / 16), HexDigit(b % 16)]
  }

  /** The escapes of a byte sequence, three characters per byte. */
  function PercentEncode(bytes: seq<Byte>): (r: string)
    ensures |r| == 3 * |bytes|
  {
    seq(3 * |bytes|, k requires 0 <= k < 3 * |bytes| => PercentEncodeByte(bytes[k / 3])[k % 3])
  }

  /** The UTF-8 encoding of a scalar value. */
  function Utf8(c: char): (bytes: seq<Byte>)
    ensures 1 <= |bytes| <= 4
  {
    var cp := c as int;
    if cp < 0x80 then [cp]
    else if cp < 0x800 then [0xC0 + cp / 64, 0x80 + cp % 64]
    else if cp < 0x10000 then [0xE0 + cp / 4096, 0x80 + (cp / 64) % 64, 0x80 + cp % 64]
    else [0xF0 + cp / 262144, 0x80 + (cp / 4096) % 64, 0x80 + (cp / 64) % 64, 0x80 + cp % 64]
  }

  function EncodeChar(c: char): (r: string)
    ensures 1 <= |r|
    ensures forall k :: 0 <= k < |r| ==> IsUnreserved(r[k]) || r[k] == '%'
  {
    if IsUnreserved(c) then [c] else PercentEncode(Utf8(c))
  }

  /** `encodeURIComponent`: only unreserved characters and `%` escapes remain. */
  function Encode(s: string): (r: string)
    ensures |r| >= |s|
    ensures forall k :: 0 <= k < |r| ==> IsUnreserved(r[k]) || r[k] == '%'
  {
    if s == [] then [] else EncodeChar(s[0]) + Encode(s[1..])
  }

  /** The byte written as `%XY` at index k, if that is an escape. */
  function PercentByteAt(s: string, k: nat): Option<Byte> {
    if k + 3 <= |s| && s[k] == '%' && HexValue(s[k + 1]).Some? && HexValue(s[k + 2]).Some?
    then Some(16 * HexValue(s[k + 1]).value + HexValue(s[k + 2]).value)
    else None
  }

  /** The length of the UTF-8 sequence a leading byte opens; 0 for a byte no sequence starts with. */
  function SequenceLength(b: Byte): nat {
    if b < 0x80 then 1
    else if b < 0xC0 then 0
    else if b < 0xE0 then 2
    else if b < 0xF0 then 3
    else if b < 0xF8 then 4
    else 0
  }

  /** The value bits of a leading byte of a sequence of length n. */
  function LeadPayload(b: Byte, n: nat): int {
    if n == 2 then b - 0xC0 else if n == 3 then b - 0xE0 else if n == 4 then b - 0xF0 else b
  }

  /** Reads `count` continuation escapes from index k, appending their six bits each to `acc`. */
  function Continuations(s: string, k: nat, count: nat, acc: int): (r: Option<int>)
    ensures r.Some? && count > 0 ==> k + 3 * count <= |s|
    decreases count
  {
    if count == 0 then Some(acc)
    else match PercentByteAt(s, k)
      case None => None
      case Some(b) =>
        if 0x80 <= b < 0xC0 then Continuations(s, k + 3, count - 1, acc * 64 + (b - 0x80)) else None
  }

  /** The smallest value a sequence of length n may carry (shorter forms are overlong). */
  function MinValue(n: nat): int {
    if n == 2 then 0x80 else if n == 3 then 0x800 else 0x10000
  }

  predicate IsScalar(v: int) {
    0 <= v < 0xD800 || 0xE000 <= v < 0x110000
  }

  /** The first decoded character and the number of input characters it takes. */
  function DecodeOne(s: string): (r: Option<(char, nat)>)
    requires s != []
    ensures r.Some? ==> 1 <= r.value.1 <= |s|
    ensures s[0] != '%' ==> r == Some((s[0], 1))
  {
    if s[0] != '%' then Some((s[0], 1))
    else match PercentByteAt(s, 0)
      case None => None
      case Some(b) =>
        var n := SequenceLength(b);
        if n == 0 then None
        else if n == 1 then Some((b as char, 3))
        else match Continuations(s, 3, n - 1, LeadPayload(b, n))
          case None => None
          case Some(v) => if MinValue(n) <= v && IsScalar(v) then Some((v as char, 3 * n)) else None
  }

  /** `decodeURIComponent`; `None` stands for the `URIError` it throws. */
  function Decode(s: string): (r: Option<string>)
    ensures r.Some? ==> |r.value| <= |s|
    decreases |s|
  {
    if s == [] then Some([])
    else match DecodeOne(s)
      case None => None
      case Some((c, len)) =>
        match Decode(s[len..])
        case None => None
        case Some(t) => Some([c] + t)
  }

  lemma HexRoundTrip(d: int)
    requires 0 <= d < 16
    ensures HexValue(HexDigit(d)) == Some(d)
  {
  }

  /** The i-th escape of an encoded byte sequence reads back as the i-th byte. */
  lemma PercentByteOfEncoding(bytes: seq<Byte>, rest: string, i: nat)
    requires i < |bytes|
    ensures PercentByteAt(PercentEncode(bytes) + rest, 3 * i) == Some(bytes[i])
  {
    var s := PercentEncode(bytes) + rest;
    var b := bytes[i];
    assert s[3 * i] == '%';
    assert s[3 * i + 1] == HexDigit(b / 16);
    assert s[3 * i + 2] == HexDigit(b % 16);
    HexRoundTrip(b / 16);
    HexRoundTrip(b % 16);
  }

  lemma SixBitGroups(cp: nat)
    ensures (cp / 4096) * 64 + (cp / 64) % 64 == cp / 64
    ensures (cp / 262144) * 64 + (cp / 4096) % 64 == cp / 4096
    ensures (cp / 64) * 64 + cp % 64 == cp
  {
  }

  lemma DecodeOneAscii(c: char, rest: string)
    requires !IsUnreserved(c) && (c as int) < 0x80
    ensures DecodeOne(PercentEncode(Utf8(c)) + rest) == Some((c, 3))
  {
    PercentByteOfEncoding(Utf8(c), rest, 0);
  }

  lemma DecodeOneTwoBytes(c: char, rest: string)
    requires 0x80 <= (c as int) < 0x800
    ensures DecodeOne(PercentEncode(Utf8(c)) + rest) == Some((c, 6))
  {
    var s := PercentEncode(Utf8(c)) + rest;
    var cp := c as int;
    SixBitGroups(cp);
    PercentByteOfEncoding(Utf8(c), rest, 0);
    PercentByteOfEncoding(Utf8(c), rest, 1);
    assert Continuations(s, 3, 1, cp / 64) == Some(cp);
  }

  /** The leading byte of a three-byte sequence. */
  lemma LeadByteThree(cp: int)
    requires 0x800 <= cp < 0x10000
    ensures 0xE0 <= 0xE0 + cp / 4096 < 0xF0
  {
  }

  /** The leading byte of a four-byte sequence. */
  lemma LeadByteFour(cp: int)
    requires 0x10000 <= cp < 0x110000
    ensures 0xF0 <= 0xF0 + cp / 262144 < 0xF8
  {
  }

  lemma ThreeByteContinuations(s: string, cp: nat, b1: Byte, b2: Byte)
    requires b1 == 0x80 + (cp / 64) % 64 && b2 == 0x80 + cp % 64
    requires PercentByteAt(s, 3) == Some(b1) && PercentByteAt(s, 6) == Some(b2)
    ensures Continuations(s, 3, 2, cp / 4096) == Some(cp)
  {
    SixBitGroups(cp);
    ContinuationStep(s, 6, 0, cp / 64, b2);
    ContinuationStep(s, 3, 1, cp / 4096, b1);
  }

  lemma Utf8Three(c: char)
    requires 0x800 <= (c as int) < 0x10000
    ensures Utf8(c) == [0xE0 + (c as int) / 4096, 0x80 + ((c as int) / 64) % 64, 0x80 + (c as int) % 64]
  {
  }

  /** Escapes of the three bytes of a code point decode to it. */
  lemma ThreeByteSequence(s: string, cp: nat)
    requires 0x800 <= cp < 0x10000 && IsScalar(cp)
    requires PercentByteAt(s, 0) == Some(0xE0 + cp / 4096)
    requires PercentByteAt(s, 3) == Some(0x80 + (cp / 64) % 64)
    requires PercentByteAt(s, 6) == Some(0x80 + cp % 64)
    ensures DecodeOne(s) == Some((cp as char, 9))
  {
    var b0 := 0xE0 + cp / 4096;
    LeadByteThree(cp);
    assert SequenceLength(b0) == 3 && LeadPayload(b0, 3) == cp / 4096;
    ThreeByteContinuations(s, cp, 0x80 + (cp / 64) % 64, 0x80 + cp % 64);
    DecodeOneOfSequence(s, b0, 3, cp);
  }

  lemma DecodeOneThreeBytes(c: char, rest: string)
    requires 0x800 <= (c as int) < 0x10000
    ensures DecodeOne(PercentEncode(Utf8(c)) + rest) == Some((c, 9))
  {
    var bytes := Utf8(c);
    Utf8Three(c);
    PercentByteOfEncoding(bytes, rest, 0);
    PercentByteOfEncoding(bytes, rest, 1);
    PercentByteOfEncoding(bytes, rest, 2);
    ThreeByteSequence(PercentEncode(bytes) + rest, c as int);
  }

  lemma ContinuationStep(s: string, k: nat, count: nat, acc: int, b: Byte)
    requires PercentByteAt(s, k) == Some(b) && 0x80 <= b < 0xC0
    ensures Continuations(s, k, count + 1, acc) == Continuations(s, k + 3, count, acc * 64 + (b - 0x80))
  {
  }

  lemma FourByteContinuations(s: string, cp: nat, b1: Byte, b2: Byte, b3: Byte)
    requires b1 == 0x80 + (cp / 4096) % 64 && b2 == 0x80 + (cp / 64) % 64 && b3 == 0x80 + cp % 64
    requires PercentByteAt(s, 3) == Some(b1) && PercentByteAt(s, 6) == Some(b2) && PercentByteAt(s, 9) == Some(b3)
    ensures Continuations(s, 3, 3, cp / 262144) == Some(cp)
  {
    SixBitGroups(cp);
    ContinuationStep(s, 9, 0, cp / 64, b3);
    ContinuationStep(s, 6, 1, cp / 4096, b2);
    ContinuationStep(s, 3, 2, cp / 262144, b1);
  }

  lemma Utf8Four(c: char)
    requires 0x10000 <= (c as int)
    ensures Utf8(c) == [0xF0 + (c as int) / 262144, 0x80 + ((c as int) / 4096) % 64,
                        0x80 + ((c as int) / 64) % 64, 0x80 + (c as int) % 64]
  {
  }

  /** Escapes of the four bytes of a code point decode to it. */
  lemma FourByteSequence(s: string, cp: nat)
    requires 0x10000 <= cp < 0x110000
    requires PercentByteAt(s, 0) == Some(0xF0 + cp / 262144)
    requires PercentByteAt(s, 3) == Some(0x80 + (cp / 4096) % 64)
    requires PercentByteAt(s, 6) == Some(0x80 + (cp / 64) % 64)
    requires PercentByteAt(s, 9) == Some(0x80 + cp % 64)
    ensures DecodeOne(s) == Some((cp as char, 12))
  {
    var b0 := 0xF0 + cp / 262144;
    LeadByteFour(cp);
    assert SequenceLength(b0) == 4 && LeadPayload(b0, 4) == cp / 262144;
    FourByteContinuations(s, cp, 0x80 + (cp / 4096) % 64, 0x80 + (cp / 64) % 64, 0x80 + cp % 64);
    DecodeOneOfSequence(s, b0, 4, cp);
  }

  lemma DecodeOneFourBytes(c: char, rest: string)
    requires 0x10000 <= (c as int)
    ensures DecodeOne(PercentEncode(Utf8(c)) + rest) == Some((c, 12))
  {
    var bytes := Utf8(c);
    Utf8Four(c);
    PercentByteOfEncoding(bytes, rest, 0);
    PercentByteOfEncoding(bytes, rest, 1);
    PercentByteOfEncoding(bytes, rest, 2);
    PercentByteOfEncoding(bytes, rest, 3);
    FourByteSequence(PercentEncode(bytes) + rest, c as int);
  }

  lemma DecodeOneOfSequence(s: string, b: Byte, n: nat, v: int)
    requires s != [] && s[0] == '%' && PercentByteAt(s, 0) == Some(b)
    requires SequenceLength(b) == n && n > 1
    requires Continuations(s, 3, n - 1, LeadPayload(b, n)) == Some(v)
    requires MinValue(n) <= v && IsScalar(v)
    ensures DecodeOne(s) == Some((v as char, 3 * n))
  {
  }

  /** Decoding the encoding of one character gives it back and consumes exactly that encoding. */
  lemma DecodeOneEncodeChar(c: char, rest: string)
    ensures DecodeOne(EncodeChar(c) + rest) == Some((c, |EncodeChar(c)|))
  {
    if !IsUnreserved(c) {
      var cp := c as int;
      if cp < 0x80 {
        DecodeOneAscii(c, rest);
      } else if cp < 0x800 {
        DecodeOneTwoBytes(c, rest);
      } else if cp < 0x10000 {
        DecodeOneThreeBytes(c, rest);
      } else {
        DecodeOneFourBytes(c, rest);
      }
    }
  }

  /** `decodeURIComponent(encodeURIComponent(s)) === s`. */
  lemma {:induction false} DecodeEncode(s: string)
    ensures Decode(Encode(s)) == Some(s)
    decreases |s|
  {
    if s != [] {
      var e := EncodeChar(s[0]);
      DecodeOneEncodeChar(s[0], Encode(s[1..]));
      assert (e + Encode(s[1..]))[|e|..] == Encode(s[1..]);
      DecodeEncode(s[1..]);
      assert [s[0]] + s[1..] == s;
    }
  }

  /** Text without `%` decodes to itself. */
  lemma {:induction false} DecodeWithoutEscapes(s: string)
    requires forall k :: 0 <= k < |s| ==> s[k] != '%'
    ensures Decode(s) == Some(s)
    decreases |s|
  {
    if s != [] {
      DecodeWithoutEscapes(s[1..]);
      assert [s[0]] + s[1..] == s;
    }
  }
}
