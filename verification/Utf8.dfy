/** A Rust `String` is a sequence of Unicode scalar values stored as UTF-8 (RFC 3629).
    Dafny's `char` ranges over exactly the scalar values, so a `String` is a `string` here. */
module Utf8 {
  import opened Base

  /** `n` split into its high part and a continuation byte holding its low six bits. */
  function Tail(n: int): int {
    0x80 + n % 0x40
  }

  function Join(high: int, continuation: int): int {
    high * 0x40 + (continuation - 0x80)
  }

  function EncodeChar(c: char): (b: seq<byte>)
    ensures 1 <= |b| <= 4
  {
    var n := c as int;
    if n < 0x80 then [n]
    else if n < 0x800 then [0xC0 + n / 0x40, Tail(n)]
    else if n < 0x1_0000 then [0xE0 + n / 0x40 / 0x40, Tail(n / 0x40), Tail(n)]
    else [0xF0 + n / 0x40 / 0x40 / 0x40, Tail(n / 0x40 / 0x40), Tail(n / 0x40), Tail(n)]
  }

  function Encode(s: string): seq<byte> {
    if s == [] then [] else EncodeChar(s[0]) + Encode(s[1..])
  }

  predicate IsContinuation(b: seq<byte>, i: nat) {
    i < |b| && 0x80 <= b[i] < 0xC0
  }

  /** The scalar value at the front of `b` and its width; None for overlong forms, surrogates,
      values past U+10FFFF and truncated sequences. */
  function DecodeChar(b: seq<byte>): (r: Option<(char, nat)>)
    requires b != []
    ensures r.Some? ==> 1 <= r.value.1 <= |b|
  {
    if b[0] < 0x80 then
      Some((b[0] as char, 1))
    else if 0xC2 <= b[0] < 0xE0 && IsContinuation(b, 1) then
      Some((Join(b[0] - 0xC0, b[1]) as char, 2))
    else if 0xE0 <= b[0] < 0xF0 && IsContinuation(b, 1) && IsContinuation(b, 2) then
      var n := Join(Join(b[0] - 0xE0, b[1]), b[2]);
      if 0x800 <= n && !(0xD800 <= n < 0xE000) then Some((n as char, 3)) else None
    else if 0xF0 <= b[0] < 0xF5 && IsContinuation(b, 1) && IsContinuation(b, 2) && IsContinuation(b, 3) then
      var n := Join(Join(Join(b[0] - 0xF0, b[1]), b[2]), b[3]);
      if 0x1_0000 <= n < 0x11_0000 then Some((n as char, 4)) else None
    else
      None
  }

  /** Strict decoding, as `std::str::from_utf8` does it. */
  function Decode(b: seq<byte>): Option<string> {
    if b == [] then Some("")
    else
      match DecodeChar(b)
      case None => None
      case Some((c, n)) =>
        match Decode(b[n..])
        case None => None
        case Some(s) => Some([c] + s)
  }

  lemma DecodeCharOfEncode(c: char, t: seq<byte>)
    ensures DecodeChar(EncodeChar(c) + t) == Some((c, |EncodeChar(c)|))
  {
    var e := EncodeChar(c);
    assert (e + t)[..|e|] == e;
    assert forall i | 0 <= i < |e| :: (e + t)[i] == e[i];
  }

  /** Characters of the examples in section 7 of RFC 3629, one of each length. */
  lemma Examples()
    ensures EncodeChar('A') == [0x41] && EncodeChar('\U{0391}') == [0xCE, 0x91]
    ensures EncodeChar('\U{2262}') == [0xE2, 0x89, 0xA2] && EncodeChar('\U{D55C}') == [0xED, 0x95, 0x9C]
    ensures EncodeChar('\U{233B4}') == [0xF0, 0xA3, 0x8E, 0xB4]
  {
  }

  /** UTF-8 text round-trips, so distinct strings have distinct encodings. */
  lemma {:induction false} DecodeOfEncode(s: string)
    ensures Decode(Encode(s)) == Some(s)
  {
    if s != [] {
      DecodeCharOfEncode(s[0], Encode(s[1..]));
      assert Encode(s)[|EncodeChar(s[0])|..] == Encode(s[1..]);
      DecodeOfEncode(s[1..]);
      assert [s[0]] + s[1..] == s;
    }
  }

  lemma SplitOfJoin(high: int, continuation: int)
    requires 0 <= high && 0x80 <= continuation < 0xC0
    ensures Join(high, continuation) / 0x40 == high && Tail(Join(high, continuation)) == continuation
  {
  }

  lemma EncodeTwo(a: byte, b: byte, n: int)
    requires 0xC2 <= a < 0xE0 && 0x80 <= b < 0xC0 && n == Join(a - 0xC0, b)
    ensures 0x80 <= n < 0x800 && EncodeChar(n as char) == [a, b]
  {
    SplitOfJoin(a - 0xC0, b);
  }

  lemma EncodeThree(a: byte, b: byte, c: byte, n: int)
    requires 0xE0 <= a < 0xF0 && 0x80 <= b < 0xC0 && 0x80 <= c < 0xC0 && n == Join(Join(a - 0xE0, b), c)
    requires 0x800 <= n < 0x1_0000 && !(0xD800 <= n < 0xE000)
    ensures EncodeChar(n as char) == [a, b, c]
  {
    SplitOfJoin(a - 0xE0, b);
    SplitOfJoin(Join(a - 0xE0, b), c);
  }

  lemma EncodeFour(a: byte, b: byte, c: byte, d: byte, n: int)
    requires 0xF0 <= a < 0xF5 && 0x80 <= b < 0xC0 && 0x80 <= c < 0xC0 && 0x80 <= d < 0xC0
    requires n == Join(Join(Join(a - 0xF0, b), c), d) && 0x1_0000 <= n < 0x11_0000
    ensures EncodeChar(n as char) == [a, b, c, d]
  {
    SplitOfJoin(a - 0xF0, b);
    SplitOfJoin(Join(a - 0xF0, b), c);
    SplitOfJoin(Join(Join(a - 0xF0, b), c), d);
  }

  lemma EncodeCharOfDecode(b: seq<byte>)
    requires b != [] && DecodeChar(b).Some?
    ensures b[..DecodeChar(b).value.1] == EncodeChar(DecodeChar(b).value.0)
  {
    var n := DecodeChar(b).value.0 as int;
    if b[0] < 0x80 {
    } else if b[0] < 0xE0 {
      EncodeTwo(b[0], b[1], n);
    } else if b[0] < 0xF0 {
      EncodeThree(b[0], b[1], b[2], n);
    } else {
      EncodeFour(b[0], b[1], b[2], b[3], n);
    }
  }

  /** Only the encoding of a string decodes, so decoding is injective. */
  lemma {:induction false} EncodeOfDecode(b: seq<byte>)
    requires Decode(b).Some?
    ensures Encode(Decode(b).value) == b
  {
    if b != [] {
      var n := DecodeChar(b).value.1;
      EncodeCharOfDecode(b);
      EncodeOfDecode(b[n..]);
      assert b == b[..n] + b[n..];
    }
  }
}
