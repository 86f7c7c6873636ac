/** UTF-8 (RFC 3629) for the outbound frame and the inbound reply: a
    command goes on the wire as its UTF-8 bytes followed by one carriage
    return; a reply is decoded strictly, as Python's `bytes.decode('utf-8')`
    does, rejecting overlong forms, surrogates and truncated sequences. */
module Utf8 {

  type Byte = b: int | 0 <= b < 256

  datatype Option<T> = None | Some(value: T)

  /** The frame terminator, `\r`. */
  const CR: Byte := 13

  /** Every character is in the 7-bit range. */
  predicate IsAscii(s: string) {
    forall i :: 0 <= i < |s| ==> s[i] as int < 0x80
  }

  lemma AsciiConcat(a: string, b: string)
    requires IsAscii(a) && IsAscii(b)
    ensures IsAscii(a + b)
  {
    forall i | 0 <= i < |a + b| ensures (a + b)[i] as int < 0x80 {
      if i >= |a| {
        assert (a + b)[i] == b[i - |a|];
      }
    }
  }

  predicate IsContinuation(b: Byte) {
    0x80 <= b < 0xC0
  }

  /** The bytes of one scalar value (section 3 of RFC 3629). */
  function EncodeChar(c: char): (r: seq<Byte>)
    ensures 1 <= |r| <= 4
    ensures |r| == 1 <==> c as int < 0x80
    ensures |r| == 1 ==> r[0] == c as int
    ensures |r| > 1 ==> forall i :: 0 <= i < |r| ==> r[i] >= 0x80
  {
    var n := c as int;
    if n < 0x80 then [n]
    else if n < 0x800 then [0xC0 + n / 64, 0x80 + n % 64]
    else if n < 0x10000 then [0xE0 + n / 64 / 64, 0x80 + n / 64 % 64, 0x80 + n % 64]
    else [0xF0 + n / 64 / 64 / 64, 0x80 + n / 64 / 64 % 64, 0x80 + n / 64 % 64, 0x80 + n % 64]
  }

  /** `str.encode('utf-8')`. */
  function Encode(s: string): (r: seq<Byte>)
    ensures |s| <= |r| <= 4 * |s|
  {
    if s == [] then [] else EncodeChar(s[0]) + Encode(s[1..])
  }

  /** Decodes the scalar value at the head of `bs`, with its byte length;
      `None` when the head is not a well-formed UTF-8 sequence. */
  function DecodeChar(bs: seq<Byte>): (r: Option<(char, nat)>)
    requires bs != []
    ensures r.Some? ==> 1 <= r.value.1 <= |bs| && r.value.1 <= 4
  {
    var b0: int := bs[0];
    if b0 < 0x80 then Some((b0 as char, 1))
    else if 0xC2 <= b0 < 0xE0 && 2 <= |bs| && IsContinuation(bs[1]) then
      var b1: int := bs[1];
      Some((((b0 - 0xC0) * 64 + (b1 - 0x80)) as char, 2))
    else if 0xE0 <= b0 < 0xF0 && 3 <= |bs| && IsContinuation(bs[1]) && IsContinuation(bs[2]) then
      var b1: int, b2: int := bs[1], bs[2];
      var n := (b0 - 0xE0) * 4096 + (b1 - 0x80) * 64 + (b2 - 0x80);
      if 0x800 <= n && !(0xD800 <= n < 0xE000) then Some((n as char, 3)) else None
    else if 0xF0 <= b0 < 0xF5 && 4 <= |bs| && IsContinuation(bs[1]) && IsContinuation(bs[2])
         && IsContinuation(bs[3]) then
      var b1: int, b2: int, b3: int := bs[1], bs[2], bs[3];
      var n := (b0 - 0xF0) * 262144 + (b1 - 0x80) * 4096 + (b2 - 0x80) * 64 + (b3 - 0x80);
      if 0x10000 <= n <= 0x10FFFF then Some((n as char, 4)) else None
    else None
  }

  /** `bytes.decode('utf-8')`: `None` where Python raises `UnicodeDecodeError`. */
  function Decode(bs: seq<Byte>): (r: Option<string>)
    ensures r.Some? ==> |r.value| <= |bs|
    decreases |bs|
  {
    if bs == [] then Some([])
    else
      match DecodeChar(bs)
      case None => None
      case Some((c, k)) =>
        match Decode(bs[k..])
        case None => None
        case Some(rest) => Some([c] + rest)
  }

  /** The outbound frame: the command's UTF-8 bytes and a closing `\r`. */
  function Frame(comando: string): (r: seq<Byte>)
    ensures |r| >= 1 && r[|r| - 1] == CR
    ensures r[..|r| - 1] == Encode(comando)
  {
    Encode(comando) + [CR]
  }

  // Properties of the encoding

  lemma DecodeEncodeTwo(c: char, rest: seq<Byte>)
    requires 0x80 <= c as int < 0x800
    ensures DecodeChar(EncodeChar(c) + rest) == Some((c, 2))
  {
    var n := c as int;
    var bs := EncodeChar(c) + rest;
    assert bs[0] == 0xC0 + n / 64 && bs[1] == 0x80 + n % 64;
  }

  lemma DecodeEncodeThree(c: char, rest: seq<Byte>)
    requires 0x800 <= c as int < 0x10000
    ensures DecodeChar(EncodeChar(c) + rest) == Some((c, 3))
  {
    var n := c as int;
    var m1 := n / 64;
    var m2 := m1 / 64;
    assert n == m1 * 64 + n % 64 && m1 == m2 * 64 + m1 % 64;
    var bs := EncodeChar(c) + rest;
    assert bs[0] == 0xE0 + m2 && bs[1] == 0x80 + m1 % 64 && bs[2] == 0x80 + n % 64;
    assert m2 * 4096 + (m1 % 64) * 64 + n % 64 == n;
  }

  lemma DecodeEncodeFour(c: char, rest: seq<Byte>)
    requires 0x10000 <= c as int
    ensures DecodeChar(EncodeChar(c) + rest) == Some((c, 4))
  {
    var n := c as int;
    var m1 := n / 64;
    var m2 := m1 / 64;
    var m3 := m2 / 64;
    assert n == m1 * 64 + n % 64 && m1 == m2 * 64 + m1 % 64 && m2 == m3 * 64 + m2 % 64;
    var bs := EncodeChar(c) + rest;
    assert bs[0] == 0xF0 + m3 && bs[1] == 0x80 + m2 % 64;
    assert bs[2] == 0x80 + m1 % 64 && bs[3] == 0x80 + n % 64;
    assert m3 * 262144 + (m2 % 64) * 4096 + (m1 % 64) * 64 + n % 64 == n;
  }

  /** Decoding inverts the encoding of a single scalar value, whatever
      follows it. */
  lemma DecodeEncodeChar(c: char, rest: seq<Byte>)
    ensures DecodeChar(EncodeChar(c) + rest) == Some((c, |EncodeChar(c)|))
  {
    var n := c as int;
    if n < 0x80 {
    } else if n < 0x800 {
      DecodeEncodeTwo(c, rest);
    } else if n < 0x10000 {
      DecodeEncodeThree(c, rest);
    } else {
      DecodeEncodeFour(c, rest);
    }
  }

  /** Round trip: the reply decoder reads back every encoded string. */
  lemma {:induction false} DecodeEncode(s: string)
    ensures Decode(Encode(s)) == Some(s)
  {
    if s != [] {
      var head := EncodeChar(s[0]);
      var bs := Encode(s);
      DecodeEncodeChar(s[0], Encode(s[1..]));
      assert bs[|head|..] == Encode(s[1..]);
      DecodeEncode(s[1..]);
      assert [s[0]] + s[1..] == s;
    }
  }

  /** The frame is unambiguous: dropping its last byte and decoding gives the
      command back. */
  lemma FrameRoundTrip(comando: string)
    ensures Decode(Frame(comando)[..|Frame(comando)| - 1]) == Some(comando)
  {
    DecodeEncode(comando);
  }

  /** Euclidean division by 64 takes a value apart into its quotient and
      remainder. */
  lemma Base64Digits(q: int, d: int)
    requires 0 <= q && 0 <= d < 64
    ensures (q * 64 + d) / 64 == q && (q * 64 + d) % 64 == d
  {
  }

  lemma EncodeDecodeTwo(bs: seq<Byte>)
    requires 2 <= |bs| && 0xC2 <= bs[0] < 0xE0 && IsContinuation(bs[1])
    ensures DecodeChar(bs).Some? && DecodeChar(bs).value.1 == 2
    ensures bs[..2] == EncodeChar(DecodeChar(bs).value.0)
  {
    var b0: int, b1: int := bs[0], bs[1];
    var n := (b0 - 0xC0) * 64 + (b1 - 0x80);
    Base64Digits(b0 - 0xC0, b1 - 0x80);
    assert DecodeChar(bs) == Some((n as char, 2));
  }

  lemma EncodeDecodeThree(bs: seq<Byte>)
    requires 3 <= |bs| && 0xE0 <= bs[0] < 0xF0 && IsContinuation(bs[1]) && IsContinuation(bs[2])
    requires DecodeChar(bs).Some?
    ensures DecodeChar(bs).value.1 == 3
    ensures bs[..3] == EncodeChar(DecodeChar(bs).value.0)
  {
    var b0: int, b1: int, b2: int := bs[0], bs[1], bs[2];
    var m1 := (b0 - 0xE0) * 64 + (b1 - 0x80);
    var n := m1 * 64 + (b2 - 0x80);
    Base64Digits(m1, b2 - 0x80);
    Base64Digits(b0 - 0xE0, b1 - 0x80);
    assert DecodeChar(bs) == Some((n as char, 3));
  }

  lemma EncodeDecodeFour(bs: seq<Byte>)
    requires 4 <= |bs| && 0xF0 <= bs[0] < 0xF5
    requires IsContinuation(bs[1]) && IsContinuation(bs[2]) && IsContinuation(bs[3])
    requires DecodeChar(bs).Some?
    ensures DecodeChar(bs).value.1 == 4
    ensures bs[..4] == EncodeChar(DecodeChar(bs).value.0)
  {
    var b0: int, b1: int, b2: int, b3: int := bs[0], bs[1], bs[2], bs[3];
    var m2 := (b0 - 0xF0) * 64 + (b1 - 0x80);
    var m1 := m2 * 64 + (b2 - 0x80);
    var n := m1 * 64 + (b3 - 0x80);
    Base64Digits(m1, b3 - 0x80);
    Base64Digits(m2, b2 - 0x80);
    Base64Digits(b0 - 0xF0, b1 - 0x80);
    assert DecodeChar(bs) == Some((n as char, 4));
  }

  /** Strictness of one scalar value: every head sequence the decoder
      accepts is exactly the encoding of the character it yields, so no
      overlong form, surrogate or out-of-range value gets through. */
  lemma EncodeDecodeChar(bs: seq<Byte>)
    requires bs != [] && DecodeChar(bs).Some?
    ensures bs[..DecodeChar(bs).value.1] == EncodeChar(DecodeChar(bs).value.0)
  {
    var b0: int := bs[0];
    if b0 < 0x80 {
    } else if 0xC2 <= b0 < 0xE0 && 2 <= |bs| && IsContinuation(bs[1]) {
      EncodeDecodeTwo(bs);
    } else if 0xE0 <= b0 < 0xF0 && 3 <= |bs| && IsContinuation(bs[1]) && IsContinuation(bs[2]) {
      EncodeDecodeThree(bs);
    } else {
      EncodeDecodeFour(bs);
    }
  }

  /** A successful decode is the head character followed by the decode of
      the bytes after it. */
  lemma DecodeStep(bs: seq<Byte>)
    requires bs != [] && Decode(bs).Some?
    ensures DecodeChar(bs).Some? && Decode(bs[DecodeChar(bs).value.1..]).Some?
    ensures Decode(bs).value
            == [DecodeChar(bs).value.0] + Decode(bs[DecodeChar(bs).value.1..]).value
  {
  }

  /** Reassembles the encoding of a decoded string from its head and tail. */
  lemma EncodeGlue(bs: seq<Byte>, c: char, k: nat, s: string, rest: string)
    requires k <= |bs| && s == [c] + rest
    requires bs[..k] == EncodeChar(c) && Encode(rest) == bs[k..]
    ensures Encode(s) == bs
  {
    assert s[0] == c && s[1..] == rest;
    assert bs == bs[..k] + bs[k..];
  }

  /** Strict decoding: every byte string the decoder accepts is the
      encoding of the text it yields. */
  lemma {:induction false} EncodeDecode(bs: seq<Byte>)
    requires Decode(bs).Some?
    ensures Encode(Decode(bs).value) == bs
    decreases |bs|
  {
    if bs != [] {
      DecodeStep(bs);
      var k := DecodeChar(bs).value.1;
      EncodeDecodeChar(bs);
      EncodeDecode(bs[k..]);
      EncodeGlue(bs, DecodeChar(bs).value.0, k, Decode(bs).value, Decode(bs[k..]).value);
    }
  }

  /** The decoder accepts exactly the encodings: `bs` decodes to `s` if and
      only if `bs` is the encoding of `s`. */
  lemma DecodeExactlyEncodings(bs: seq<Byte>, s: string)
    ensures Decode(bs) == Some(s) <==> bs == Encode(s)
  {
    if Decode(bs) == Some(s) {
      EncodeDecode(bs);
    }
    if bs == Encode(s) {
      DecodeEncode(s);
    }
  }

  /** Instances of strictness: an overlong NUL, an encoded surrogate, a
      truncated sequence and a value above U+10FFFF are all rejected. */
  lemma RejectsMalformed()
    ensures Decode([0xC0, 0x80]).None?
    ensures Decode([0xED, 0xA0, 0x80]).None?
    ensures Decode([0xE2, 0x82]).None?
    ensures Decode([0xF4, 0x90, 0x80, 0x80]).None?
  {
  }

  /** A carriage return byte occurs in the encoding exactly where the command
      itself holds `\r`: in a command without one, the terminator is the only
      CR of the frame. */
  lemma {:induction false} CarriageReturnOnlyFromCommand(s: string)
    ensures CR in Encode(s) <==> '\r' in s
  {
    if s != [] {
      CarriageReturnOnlyFromCommand(s[1..]);
      assert s == [s[0]] + s[1..];
      assert CR in EncodeChar(s[0]) <==> s[0] == '\r';
    }
  }

  /** ASCII text encodes byte for byte. */
  lemma {:induction false} EncodeAscii(s: string)
    requires IsAscii(s)
    ensures |Encode(s)| == |s|
    ensures forall i :: 0 <= i < |s| ==> Encode(s)[i] == s[i] as int
  {
    if s != [] {
      EncodeAscii(s[1..]);
    }
  }
}
