/** ECMAScript `encodeURIComponent` / `decodeURIComponent` on strings of
    Unicode scalar values: characters outside the unreserved set of RFC 3986
    (section 2.3, plus `!~*'()`) are written as the `%XX` escapes (section 2.1)
    of their UTF-8 bytes (RFC 3629, section 3); decoding accepts either hex case
    and fails with `URIError` on a malformed escape or an invalid UTF-8 sequence. */
module Uri {
  import opened Wrappers

  type Byte = b: int | 0 <= b < 256

  datatype UriError = URIError

  /** The characters `encodeURIComponent` copies unchanged. */
  predicate IsUnreserved(c: char) {
    || ('A' <= c <= 'Z') || ('a' <= c <= 'z') || ('0' <= c <= '9')
    || c == '-' || c == '_' || c == '.' || c == '!' || c == '~' || c == '*' || c == '\'' || c == '(' || c == ')'
  }

  predicate IsUpperHex(c: char) {
    ('0' <= c <= '9') || ('A' <= c <= 'F')
  }

  // ---------------------------------------------------------------------
  // Encoding
  // ---------------------------------------------------------------------

  /** The UTF-8 bytes of one code point. */
  function Utf8(c: char): (bs: seq<Byte>)
    ensures 1 <= |bs| <= 4
  {
    var v := c as int;
    if v < 0x80 then [v]
    else if v < 0x800 then [0xC0 + v / 64, 0x80 + v % 64]
    else if v < 0x10000 then [0xE0 + v / 4096, 0x80 + (v / 64) % 64, 0x80 + v % 64]
    else [0xF0 + v / 262144, 0x80 + (v / 4096) % 64, 0x80 + (v / 64) % 64, 0x80 + v % 64]
  }

  function HexDigit(d: int): (c: char)
    requires 0 <= d < 16
    ensures IsUpperHex(c)
  {
    if d < 10 then ('0' as int + d) as char else ('A' as int + d - 10) as char
  }

  /** `%XY`, upper-case hex, for one byte. */
  function Escape(b: Byte): (r: string)
    ensures |r| == 3 && r[0] == '%' && IsUpperHex(r[1]) && IsUpperHex(r[2])
  {
    ['%', HexDigit(b / 16), HexDigit(b % 16)]
  }

  function Escapes(bs: seq<Byte>): (r: string)
    ensures |r| == 3 * |bs|
    ensures forall i :: 0 <= i < |r| ==> r[i] == '%' || IsUpperHex(r[i])
    decreases |bs|
  {
    if |bs| == 0 then "" else Escape(bs[0]) + Escapes(bs[1..])
  }

  function EncodeChar(c: char): (r: string)
    ensures |r| > 0
    ensures forall i :: 0 <= i < |r| ==> r[i] == '%' || IsUpperHex(r[i]) || (IsUnreserved(r[i]) && r[i] == c)
  {
    if IsUnreserved(c) then [c] else Escapes(Utf8(c))
  }

  /** `encodeURIComponent(s)`: every output character is `%`, an upper-case
      hex digit, or an unreserved character copied from `s`. */
  function EncodeComponent(s: string): (r: string)
    ensures forall i :: 0 <= i < |r| ==> r[i] == '%' || IsUpperHex(r[i]) || (IsUnreserved(r[i]) && r[i] in s)
    decreases |s|
  {
    if |s| == 0 then ""
    else
      var head := EncodeChar(s[0]);
      var tail := EncodeComponent(s[1..]);
      assert forall i :: 0 <= i < |tail| && tail[i] in s[1..] ==> tail[i] in s;
      head + tail
  }

  // ---------------------------------------------------------------------
  // Decoding
  // ---------------------------------------------------------------------

  function HexValue(c: char): Option<int> {
    if '0' <= c <= '9' then Some(c as int - '0' as int)
    else if 'A' <= c <= 'F' then Some(c as int - 'A' as int + 10)
    else if 'a' <= c <= 'f' then Some(c as int - 'a' as int + 10)
    else None
  }

  /** The byte of the escape `%XY` at the start of `s`, if there is one. */
  function EscapedByte(s: string): (r: Option<Byte>)
    ensures r.Some? ==> |s| >= 3
  {
    if |s| >= 3 && s[0] == '%' && HexValue(s[1]).Some? && HexValue(s[2]).Some?
    then Some(16 * HexValue(s[1]).value + HexValue(s[2]).value)
    else None
  }

  /** The length of the UTF-8 sequence a byte leads (its count of leading one
      bits, 1 for `0xxxxxxx`), or 0 when it cannot lead one. */
  function SequenceLength(b: Byte): (n: nat)
    ensures n <= 4
  {
    if b < 0x80 then 1
    else if b < 0xC0 then 0
    else if b < 0xE0 then 2
    else if b < 0xF0 then 3
    else if b < 0xF8 then 4
    else 0
  }

  /** The payload bits of a lead byte of an `n`-byte sequence. */
  function LeadBits(b: Byte, n: nat): int {
    b - (if n == 2 then 0xC0 else if n == 3 then 0xE0 else 0xF0)
  }

  /** Reads `count` escaped continuation bytes (`10xxxxxx`), shifting six
      payload bits per byte into `acc`. */
  function Continuations(s: string, count: nat, acc: int): (r: Option<int>)
    ensures r.Some? ==> |s| >= 3 * count
    decreases count
  {
    if count == 0 then Some(acc)
    else match EscapedByte(s)
      case None => None
      case Some(b) =>
        if 0x80 <= b < 0xC0 then Continuations(s[3..], count - 1, acc * 64 + (b - 0x80)) else None
  }

  /** The code point is what an `n`-byte sequence may encode: no over-long
      form, no surrogate, nothing above U+10FFFF. */
  predicate WellFormed(n: nat, cp: int) {
    || (n == 2 && 0x80 <= cp < 0x800)
    || (n == 3 && 0x800 <= cp < 0x10000 && !(0xD800 <= cp < 0xE000))
    || (n == 4 && 0x10000 <= cp <= 0x10FFFF)
  }

  /** Decodes the escape group at the start of `s`: the character and the
      number of input characters it spans. */
  function DecodeEscapes(s: string): (r: Option<(char, nat)>)
    ensures r.Some? ==> 3 <= r.value.1 <= |s|
  {
    match EscapedByte(s)
    case None => None
    case Some(b) =>
      var n := SequenceLength(b);
      if n == 0 then None
      else if n == 1 then Some((b as char, 3))
      else match Continuations(s[3..], n - 1, LeadBits(b, n))
        case None => None
        case Some(cp) => if WellFormed(n, cp) then Some((cp as char, 3 * n)) else None
  }

  function Prepend(c: char, r: Result<string, UriError>): Result<string, UriError> {
    match r
    case Success(t) => Success([c] + t)
    case Failure(e) => Failure(e)
  }

  /** `decodeURIComponent(s)`. */
  function DecodeComponent(s: string): Result<string, UriError>
    decreases |s|
  {
    if |s| == 0 then Success("")
    else if s[0] != '%' then Prepend(s[0], DecodeComponent(s[1..]))
    else match DecodeEscapes(s)
      case None => Failure(URIError)
      case Some((c, k)) => Prepend(c, DecodeComponent(s[k..]))
  }

  // ---------------------------------------------------------------------
  // Round trip
  // ---------------------------------------------------------------------

  lemma EscapedByteOfEscape(b: Byte, rest: string)
    ensures EscapedByte(Escape(b) + rest) == Some(b)
  {
    var s := Escape(b) + rest;
    assert s[1] == HexDigit(b / 16) && s[2] == HexDigit(b % 16);
  }

  /** The value continuation bytes carry after a lead payload `acc`. */
  function Shifted(acc: int, bs: seq<Byte>): int
    decreases |bs|
  {
    if |bs| == 0 then acc else Shifted(acc * 64 + (bs[0] as int - 0x80), bs[1..])
  }

  lemma ShiftedOne(acc: int, a: Byte)
    ensures Shifted(acc, [a]) == acc * 64 + a - 0x80
  {
    assert [a][1..] == [];
  }

  lemma ShiftedTwo(acc: int, a: Byte, b: Byte)
    ensures Shifted(acc, [a, b]) == (acc * 64 + a - 0x80) * 64 + b - 0x80
  {
    assert [a, b][1..] == [b];
    ShiftedOne(acc * 64 + a - 0x80, b);
  }

  lemma ShiftedThree(acc: int, a: Byte, b: Byte, c: Byte)
    ensures Shifted(acc, [a, b, c]) == ((acc * 64 + a - 0x80) * 64 + b - 0x80) * 64 + c - 0x80
  {
    assert [a, b, c][1..] == [b, c];
    ShiftedTwo(acc * 64 + a - 0x80, b, c);
  }

  lemma {:induction false} ContinuationsOfEscapes(bs: seq<Byte>, rest: string, acc: int)
    requires forall i :: 0 <= i < |bs| ==> 0x80 <= bs[i] < 0xC0
    ensures Continuations(Escapes(bs) + rest, |bs|, acc) == Some(Shifted(acc, bs))
    decreases |bs|
  {
    if |bs| > 0 {
      var s := Escapes(bs) + rest;
      assert s == Escape(bs[0]) + (Escapes(bs[1..]) + rest);
      EscapedByteOfEscape(bs[0], Escapes(bs[1..]) + rest);
      assert s[3..] == Escapes(bs[1..]) + rest;
      ContinuationsOfEscapes(bs[1..], rest, acc * 64 + (bs[0] - 0x80));
    }
  }

  /** The bytes of `Utf8(c)` decode back to `c`: the lead byte announces the
      right length, the others are continuation bytes, and the payload bits
      reassemble the code point. */
  lemma Utf8Decodes(c: char)
    ensures var bs := Utf8(c);
      && SequenceLength(bs[0]) == |bs|
      && (forall i :: 1 <= i < |bs| ==> 0x80 <= bs[i] < 0xC0)
      && (|bs| == 1 ==> bs[0] == c as int)
      && (|bs| > 1 ==> Shifted(LeadBits(bs[0], |bs|), bs[1..]) == c as int && WellFormed(|bs|, c as int))
  {
    var v := c as int;
    var bs := Utf8(c);
    if v < 0x80 {
    } else if v < 0x800 {
      assert bs[1..] == [bs[1]];
      ShiftedOne(v / 64, bs[1]);
    } else if v < 0x10000 {
      assert bs[1..] == [bs[1], bs[2]];
      ShiftedTwo(v / 4096, bs[1], bs[2]);
      assert v / 4096 == (v / 64) / 64;
    } else {
      assert bs[1..] == [bs[1], bs[2], bs[3]];
      ShiftedThree(v / 262144, bs[1], bs[2], bs[3]);
      assert v / 262144 == (v / 4096) / 64;
      assert v / 4096 == (v / 64) / 64;
    }
  }

  /** The escapes of a reserved character decode to it in one step that
      consumes exactly them. */
  lemma DecodeEscapedChar(c: char, rest: string)
    requires !IsUnreserved(c)
    ensures (EncodeChar(c) + rest)[0] == '%'
    ensures DecodeEscapes(EncodeChar(c) + rest) == Some((c, |EncodeChar(c)|))
  {
    var s := EncodeChar(c) + rest;
    var bs := Utf8(c);
    Utf8Decodes(c);
    assert s == Escape(bs[0]) + (Escapes(bs[1..]) + rest);
    EscapedByteOfEscape(bs[0], Escapes(bs[1..]) + rest);
    assert s[3..] == Escapes(bs[1..]) + rest;
    if |bs| > 1 {
      ContinuationsOfEscapes(bs[1..], rest, LeadBits(bs[0], |bs|));
    }
    assert |EncodeChar(c)| == 3 * |bs|;
  }

  lemma DecodeEncodedChar(c: char, rest: string)
    ensures DecodeComponent(EncodeChar(c) + rest) == Prepend(c, DecodeComponent(rest))
  {
    var s := EncodeChar(c) + rest;
    if IsUnreserved(c) {
      assert s[0] == c && s[1..] == rest;
    } else {
      DecodeEscapedChar(c, rest);
      assert s[|EncodeChar(c)|..] == rest;
    }
  }

  /** `decodeURIComponent(encodeURIComponent(s)) == s`. */
  lemma {:induction false} DecodeEncode(s: string)
    ensures DecodeComponent(EncodeComponent(s)) == Success(s)
    decreases |s|
  {
    if |s| > 0 {
      DecodeEncode(s[1..]);
      DecodeEncodedChar(s[0], EncodeComponent(s[1..]));
      assert [s[0]] + s[1..] == s;
    }
  }
}
