/** Certificate pins: writing a digest as hex, reading it back, and the verifier's comparison. */
module Pins {
  import opened Base
  import opened Text
  import Utf8
  import Configuration

  type Digest = d: seq<byte> | |d| == 32 witness seq(32, i => 0)

  // ---- Writing ----

  function HexDigit(n: nat): char
    requires n < 16
  {
    "0123456789abcdef"[n]
  }

  function Hex(d: seq<byte>): string {
    seq(2 * |d|, i requires 0 <= i < 2 * |d| => if i % 2 == 0 then HexDigit(d[i / 2] / 16) else HexDigit(d[i / 2] % 16))
  }

  method PinHex(digest: seq<byte>) returns (out: string)
    ensures out == Hex(digest)
  {
    out := [];
    for i := 0 to |digest|
      invariant out == Hex(digest[..i])
    {
      var b := digest[i];
      ghost var before := out;
      out := out + [HexDigit(b / 16), HexDigit(b % 16)];
      assert forall j | 0 <= j < i :: digest[..i][j] == digest[..i + 1][j];
    }
    assert digest[..|digest|] == digest;
  }

  /** What a lower-case hex digit stands for. */
  function Worth(c: char): int {
    if c <= '9' then c as int - '0' as int else 10 + c as int - 'a' as int
  }

  /** Two lower-case digits for each byte, the high one first. */
  lemma HexSpells(d: seq<byte>, k: nat)
    requires k < |d|
    ensures var hi, lo := Hex(d)[2 * k], Hex(d)[2 * k + 1];
            && ('0' <= hi <= '9' || 'a' <= hi <= 'f') && ('0' <= lo <= '9' || 'a' <= lo <= 'f')
            && 16 * Worth(hi) + Worth(lo) == d[k]
  {
    HexAt(d, k);
    DigitIsWorth(d[k] / 16);
    DigitIsWorth(d[k] % 16);
  }

  lemma HexAt(d: seq<byte>, k: nat)
    requires k < |d|
    ensures Hex(d)[2 * k] == HexDigit(d[k] / 16) && Hex(d)[2 * k + 1] == HexDigit(d[k] % 16)
  {
    assert 2 * k % 2 == 0 && (2 * k + 1) % 2 == 1 && 2 * k / 2 == k && (2 * k + 1) / 2 == k;
  }

  lemma DigitIsWorth(n: nat)
    requires n < 16
    ensures var c := HexDigit(n);
            ('0' <= c <= '9' || 'a' <= c <= 'f') && Worth(c) == n
  {
  }

  // ---- Reading ----

  function Nibble(b: int): Option<nat> {
    if '0' as int <= b <= '9' as int then Some(b - '0' as int)
    else if 'a' as int <= b <= 'f' as int then Some(10 + b - 'a' as int)
    else if 'A' as int <= b <= 'F' as int then Some(10 + b - 'A' as int)
    else None
  }

  predicate AllNibbles(s: seq<byte>) {
    forall i | 0 <= i < |s| :: Nibble(s[i]).Some?
  }

  /** The bytes that `s` spells, two hex digits each. */
  function Spelled(s: seq<byte>): seq<byte>
    requires AllNibbles(s) && |s| % 2 == 0
  {
    seq(|s| / 2, i requires 0 <= i < |s| / 2 => DigitPair(s, i))
  }

  function DigitPair(s: seq<byte>, i: nat): byte
    requires AllNibbles(s) && 2 * i + 1 < |s|
  {
    NibbleIsSmall(s[2 * i]);
    NibbleIsSmall(s[2 * i + 1]);
    16 * Nibble(s[2 * i]).value + Nibble(s[2 * i + 1]).value
  }

  lemma NibbleIsSmall(b: int)
    ensures Nibble(b).Some? ==> Nibble(b).value < 16
  {
  }

  function HexDecode(file: seq<byte>): Option<seq<byte>> {
    match Utf8.Decode(file)
    case None => None
    case Some(text) =>
      var s := Utf8.Encode(Trim(text));
      if |s| % 2 == 0 && AllNibbles(s) then Some(Spelled(s)) else None
  }

  method DecodeHex(file: seq<byte>) returns (r: Option<seq<byte>>)
    ensures r == HexDecode(file)
  {
    var text := Utf8.Decode(file);
    if text.None? { return None; }
    var s := Utf8.Encode(Trim(text.value));
    if |s| % 2 != 0 { return None; }
    var out: seq<byte> := [];
    var i := 0;
    while i < |s|
      invariant 0 <= i <= |s| && i % 2 == 0 && |out| == i / 2
      invariant forall k | 0 <= k < i :: Nibble(s[k]).Some?
      invariant forall k | 0 <= k < i / 2 ::
                  out[k] == 16 * Nibble(s[2 * k]).value + Nibble(s[2 * k + 1]).value
    {
      var hi, lo := Nibble(s[i]), Nibble(s[i + 1]);
      if hi.None? { return None; }
      if lo.None? { return None; }
      NibbleIsSmall(s[i]);
      NibbleIsSmall(s[i + 1]);
      out := out + [16 * hi.value + lo.value];
      i := i + 2;
    }
    assert out == Spelled(s);
    r := Some(out);
  }

  // ---- The verifier ----

  /** Accepts a certificate by its digest; a pin file that is no hex text is compared raw. */
  predicate Accepts(digestOf: seq<byte> -> Digest, pinFile: seq<byte>, certificate: seq<byte>) {
    digestOf(certificate) == (match HexDecode(pinFile) case Some(b) => b case None => pinFile)
  }

  // ---- Round trips ----

  function Ascii(s: string): seq<int> {
    seq(|s|, i requires 0 <= i < |s| => s[i] as int)
  }

  lemma {:induction false} EncodeAscii(s: string)
    requires forall i | 0 <= i < |s| :: s[i] < 128 as char
    ensures Utf8.Encode(s) == Ascii(s)
  {
    if s != [] {
      EncodeAscii(s[1..]);
      assert Ascii(s) == [s[0] as int] + Ascii(s[1..]);
    }
  }

  predicate IsHexText(s: string) {
    |s| % 2 == 0 && forall i | 0 <= i < |s| :: Configuration.IsHexDigit(s[i])
  }

  function LowerChar(c: char): char {
    if 'A' <= c <= 'Z' then (c as int + 32) as char else c
  }

  function Lower(s: string): string {
    seq(|s|, i requires 0 <= i < |s| => LowerChar(s[i]))
  }

  lemma HexTextIsRead(s: string)
    requires IsHexText(s)
    ensures AllNibbles(Ascii(s)) && HexDecode(Utf8.Encode(s)) == Some(Spelled(Ascii(s)))
  {
    Utf8.DecodeOfEncode(s);
    TrimOfPadded([], s, []);
    assert [] + s + [] == s;
    EncodeAscii(s);
    forall i | 0 <= i < |s| ensures Nibble(Ascii(s)[i]).Some? {
      DigitOfNibble(s[i]);
    }
  }

  lemma PairIsRead(s: string, k: nat)
    requires IsHexText(s) && AllNibbles(Ascii(s)) && k < |s| / 2
    ensures var b := DigitPair(Ascii(s), k);
            HexDigit(b / 16) == LowerChar(s[2 * k]) && HexDigit(b % 16) == LowerChar(s[2 * k + 1])
  {
    DigitOfNibble(s[2 * k]);
    DigitOfNibble(s[2 * k + 1]);
    SplitByte(Nibble(s[2 * k] as int).value, Nibble(s[2 * k + 1] as int).value, DigitPair(Ascii(s), k));
  }

  lemma SplitByte(hi: nat, lo: nat, b: int)
    requires lo < 16 && b == 16 * hi + lo
    ensures b / 16 == hi && b % 16 == lo
  {
  }

  /** Hex text decodes to the bytes whose lower-case hex is that text up to letter case. */
  lemma HexTextDecodes(s: string)
    requires IsHexText(s)
    ensures HexDecode(Utf8.Encode(s)).Some?
    ensures |HexDecode(Utf8.Encode(s)).value| == |s| / 2
    ensures Hex(HexDecode(Utf8.Encode(s)).value) == Lower(s)
  {
    HexTextIsRead(s);
    var d := Spelled(Ascii(s));
    forall i | 0 <= i < |s| ensures Hex(d)[i] == Lower(s)[i] {
      PairIsRead(s, i / 2);
      assert d[i / 2] == DigitPair(Ascii(s), i / 2);
      assert i == 2 * (i / 2) || i == 2 * (i / 2) + 1;
    }
  }

  lemma DigitOfNibble(c: char)
    requires Configuration.IsHexDigit(c)
    ensures Nibble(c as int).Some? && Nibble(c as int).value < 16
    ensures HexDigit(Nibble(c as int).value) == LowerChar(c)
  {
  }

  lemma HexIsHexText(d: seq<byte>)
    ensures IsHexText(Hex(d)) && Lower(Hex(d)) == Hex(d)
  {
    forall i | 0 <= i < |Hex(d)|
      ensures Configuration.IsHexDigit(Hex(d)[i]) && LowerChar(Hex(d)[i]) == Hex(d)[i]
    {
      var n := if i % 2 == 0 then d[i / 2] / 16 else d[i / 2] % 16;
      assert Hex(d)[i] == HexDigit(n);
    }
  }

  lemma HexIsInjective(a: seq<byte>, b: seq<byte>)
    requires Hex(a) == Hex(b)
    ensures a == b
  {
    assert |Hex(a)| == 2 * |a| && |Hex(b)| == 2 * |b|;
    forall k | 0 <= k < |a| ensures a[k] == b[k] {
      assert Hex(a)[2 * k] == HexDigit(a[k] / 16) && Hex(b)[2 * k] == HexDigit(b[k] / 16);
      assert Hex(a)[2 * k + 1] == HexDigit(a[k] % 16) && Hex(b)[2 * k + 1] == HexDigit(b[k] % 16);
      DigitIsInjective(a[k] / 16, b[k] / 16);
      DigitIsInjective(a[k] % 16, b[k] % 16);
    }
  }

  lemma DigitIsInjective(m: nat, n: nat)
    requires m < 16 && n < 16
    ensures HexDigit(m) == HexDigit(n) ==> m == n
  {
  }

  /** Every digest is read back from its pin. */
  lemma PinRoundTrip(d: Digest)
    ensures HexDecode(Utf8.Encode(Hex(d))) == Some(d)
    ensures Configuration.IsPin(Hex(d))
  {
    HexIsHexText(d);
    HexTextDecodes(Hex(d));
    HexIsInjective(HexDecode(Utf8.Encode(Hex(d))).value, d);
  }

  /** A pin that pairing accepts makes the verifier accept exactly the certificates whose own pin
      is that text up to letter case. */
  lemma AcceptedPinVerifies(digestOf: seq<byte> -> Digest, pin: string, certificate: seq<byte>)
    requires Configuration.IsPin(pin)
    ensures HexDecode(Utf8.Encode(pin)).Some? && |HexDecode(Utf8.Encode(pin)).value| == 32
    ensures Accepts(digestOf, Utf8.Encode(pin), certificate) <==> Hex(digestOf(certificate)) == Lower(pin)
  {
    HexTextDecodes(pin);
    if Hex(digestOf(certificate)) == Lower(pin) {
      HexIsInjective(digestOf(certificate), HexDecode(Utf8.Encode(pin)).value);
    }
  }

  /** Two accepted pins name the same digest exactly if they differ only in letter case. */
  lemma SamePinIff(a: string, b: string)
    requires Configuration.IsPin(a) && Configuration.IsPin(b)
    ensures HexDecode(Utf8.Encode(a)) == HexDecode(Utf8.Encode(b)) <==> Lower(a) == Lower(b)
  {
    HexTextDecodes(a);
    HexTextDecodes(b);
    if Lower(a) == Lower(b) {
      HexIsInjective(HexDecode(Utf8.Encode(a)).value, HexDecode(Utf8.Encode(b)).value);
    }
  }

  // ---- Every pin file ----

  lemma NibbleIsDigit(c: char)
    requires Nibble(Utf8.EncodeChar(c)[0]).Some?
    ensures Configuration.IsHexDigit(c) && Utf8.EncodeChar(c) == [c as int]
  {
  }

  lemma {:induction false} NibblesAreDigits(s: string)
    requires AllNibbles(Utf8.Encode(s))
    ensures forall i | 0 <= i < |s| :: Configuration.IsHexDigit(s[i])
    ensures |Utf8.Encode(s)| == |s|
  {
    if s != [] {
      var first, rest := Utf8.EncodeChar(s[0]), Utf8.Encode(s[1..]);
      assert Utf8.Encode(s)[0] == first[0];
      NibbleIsDigit(s[0]);
      forall i | 0 <= i < |rest| ensures Nibble(rest[i]).Some? {
        assert rest[i] == Utf8.Encode(s)[i + 1];
      }
      NibblesAreDigits(s[1..]);
    }
  }

  lemma DigitsAreNibbles(s: string)
    requires IsHexText(s)
    ensures AllNibbles(Utf8.Encode(s)) && |Utf8.Encode(s)| == |s|
  {
    HexTextIsRead(s);
    EncodeAscii(s);
  }

  /** A pin file is hex text exactly if it is UTF-8 for an even number of hex digits between
      whitespace, and is then compared in lower case with the certificate's own pin; any other file
      is compared with the digest byte for byte. */
  lemma VerifierIs(digestOf: seq<byte> -> Digest, file: seq<byte>, certificate: seq<byte>)
    ensures var text := Utf8.Decode(file);
            Accepts(digestOf, file, certificate) <==>
            if text.Some? && IsHexText(Trim(text.value)) then Hex(digestOf(certificate)) == Lower(Trim(text.value))
            else digestOf(certificate) == file
  {
    var text := Utf8.Decode(file);
    if text.Some? {
      var s := Trim(text.value);
      if IsHexText(s) {
        DigitsAreNibbles(s);
        HexOfSpelled(s);
        if Hex(digestOf(certificate)) == Lower(s) {
          HexIsInjective(digestOf(certificate), Spelled(Utf8.Encode(s)));
        }
      } else if AllNibbles(Utf8.Encode(s)) {
        NibblesAreDigits(s);
      }
    }
  }

  lemma HexOfSpelled(s: string)
    requires IsHexText(s) && AllNibbles(Utf8.Encode(s)) && |Utf8.Encode(s)| % 2 == 0
    ensures Hex(Spelled(Utf8.Encode(s))) == Lower(s)
  {
    HexTextIsRead(s);
    HexTextDecodes(s);
    EncodeAscii(s);
  }
}
