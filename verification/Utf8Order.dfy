/** Rust compares strings by their UTF-8 bytes; that is the order by scalar values. */
module Utf8Order {
  import opened Base
  import opened Sorting
  import opened Utf8

  predicate BytesLeq(a: seq<byte>, b: seq<byte>) {
    a == [] || (b != [] && (a[0] < b[0] || (a[0] == b[0] && BytesLeq(a[1..], b[1..]))))
  }

  /** `a` and `b` first differ at `k`, where `a` is smaller. */
  predicate SmallerAt(a: seq<byte>, b: seq<byte>, k: nat) {
    k < |a| && k < |b| && a[..k] == b[..k] && a[k] < b[k]
  }

  lemma {:induction false} DecidedAt(a: seq<byte>, b: seq<byte>, s: seq<byte>, t: seq<byte>, k: nat)
    requires SmallerAt(a, b, k)
    ensures BytesLeq(a + s, b + t) && !BytesLeq(b + t, a + s)
    decreases k
  {
    if k > 0 {
      assert a[..k][0] == b[..k][0];
      assert a[1..][..k - 1] == a[..k][1..] == b[..k][1..] == b[1..][..k - 1];
      DecidedAt(a[1..], b[1..], s, t, k - 1);
      assert (a + s)[1..] == a[1..] + s && (b + t)[1..] == b[1..] + t;
    }
  }

  lemma {:induction false} SharedFront(a: seq<byte>, s: seq<byte>, t: seq<byte>)
    ensures BytesLeq(a + s, a + t) <==> BytesLeq(s, t)
  {
    if a == [] {
      assert a + s == s && a + t == t;
    } else {
      SharedFront(a[1..], s, t);
      assert (a + s)[1..] == a[1..] + s && (a + t)[1..] == a[1..] + t;
    }
  }

  lemma TailOrder(m: int, n: int)
    requires 0 <= m < n
    ensures m / 0x40 < n / 0x40 || (m / 0x40 == n / 0x40 && Tail(m) < Tail(n))
  {
  }

  /** Sequences whose last bytes are the tails of `m` and `n`, and whose fronts compare as the
      quotients do. */
  lemma LastByte(a: seq<byte>, b: seq<byte>, m: int, n: int, k: nat) returns (at: nat)
    requires 0 <= m < n && |a| == |b| > 1
    requires a[|a| - 1] == Tail(m) && b[|a| - 1] == Tail(n)
    requires m / 0x40 == n / 0x40 ==> a[..|a| - 1] == b[..|a| - 1]
    requires m / 0x40 < n / 0x40 ==> SmallerAt(a, b, k)
    ensures SmallerAt(a, b, at)
  {
    TailOrder(m, n);
    at := if m / 0x40 == n / 0x40 then |a| - 1 else k;
  }

  lemma TwoInOrder(m: int, n: int, a: seq<byte>, b: seq<byte>) returns (k: nat)
    requires 0x80 <= m < n < 0x800
    requires a == [0xC0 + m / 0x40, Tail(m)] && b == [0xC0 + n / 0x40, Tail(n)]
    ensures SmallerAt(a, b, k)
  {
    k := LastByte(a, b, m, n, 0);
  }

  lemma ThreeInOrder(m: int, n: int, a: seq<byte>, b: seq<byte>) returns (k: nat)
    requires 0x800 <= m < n < 0x1_0000
    requires a == [0xE0 + m / 0x40 / 0x40, Tail(m / 0x40), Tail(m)]
    requires b == [0xE0 + n / 0x40 / 0x40, Tail(n / 0x40), Tail(n)]
    ensures SmallerAt(a, b, k)
  {
    k := 0;
    if m / 0x40 < n / 0x40 {
      k := LastByte(a[..2], b[..2], m / 0x40, n / 0x40, 0);
      assert a[..k] == a[..2][..k] && b[..k] == b[..2][..k];
    }
    k := LastByte(a, b, m, n, k);
  }

  lemma FourInOrder(m: int, n: int, a: seq<byte>, b: seq<byte>) returns (k: nat)
    requires 0x1_0000 <= m < n < 0x11_0000
    requires a == [0xF0 + m / 0x40 / 0x40 / 0x40, Tail(m / 0x40 / 0x40), Tail(m / 0x40), Tail(m)]
    requires b == [0xF0 + n / 0x40 / 0x40 / 0x40, Tail(n / 0x40 / 0x40), Tail(n / 0x40), Tail(n)]
    ensures SmallerAt(a, b, k)
  {
    k := 0;
    if m / 0x40 < n / 0x40 {
      if m / 0x40 / 0x40 < n / 0x40 / 0x40 {
        k := LastByte(a[..2], b[..2], m / 0x40 / 0x40, n / 0x40 / 0x40, 0);
        assert a[..3][..k] == a[..2][..k] && b[..3][..k] == b[..2][..k];
      }
      k := LastByte(a[..3], b[..3], m / 0x40, n / 0x40, k);
      assert a[..k] == a[..3][..k] && b[..k] == b[..3][..k];
    }
    k := LastByte(a, b, m, n, k);
  }

  /** The range of a character's first byte tells its width. */
  lemma LeadByte(c: char)
    ensures var e := EncodeChar(c);
            match |e|
            case 1 => e[0] == c as int < 0x80
            case 2 => 0xC0 <= e[0] < 0xE0
            case 3 => 0xE0 <= e[0] < 0xF0
            case _ => 0xF0 <= e[0]
  {
  }

  lemma WidthsGrow(c: char, d: char)
    requires c < d
    ensures |EncodeChar(c)| <= |EncodeChar(d)|
  {
  }

  lemma CharsInOrder(c: char, d: char) returns (k: nat)
    requires c < d
    ensures SmallerAt(EncodeChar(c), EncodeChar(d), k)
  {
    var a, b := EncodeChar(c), EncodeChar(d);
    WidthsGrow(c, d);
    if |a| < |b| || |a| == 1 {
      LeadByte(c);
      LeadByte(d);
      k := 0;
    } else {
      k := SameWidth(c as int, d as int, a, b);
    }
  }

  lemma SameWidth(m: int, n: int, a: seq<byte>, b: seq<byte>) returns (k: nat)
    requires 0 <= m < n < 0x11_0000 && !(0xD800 <= m < 0xE000) && !(0xD800 <= n < 0xE000)
    requires a == EncodeChar(m as char) && b == EncodeChar(n as char) && |a| == |b| > 1
    ensures SmallerAt(a, b, k)
  {
    if |a| == 2 {
      k := TwoInOrder(m, n, a, b);
    } else if |a| == 3 {
      k := ThreeInOrder(m, n, a, b);
    } else {
      k := FourInOrder(m, n, a, b);
    }
  }

  /** Sorting by `Leq` is sorting by the bytes of the names. */
  lemma {:induction false} ByteOrderIsCharOrder(s: string, t: string)
    ensures BytesLeq(Encode(s), Encode(t)) <==> Leq(s, t)
  {
    if s != [] && t != [] {
      var rs, rt := Encode(s[1..]), Encode(t[1..]);
      if s[0] == t[0] {
        SharedFront(EncodeChar(s[0]), rs, rt);
        ByteOrderIsCharOrder(s[1..], t[1..]);
      } else if s[0] < t[0] {
        var k := CharsInOrder(s[0], t[0]);
        DecidedAt(EncodeChar(s[0]), EncodeChar(t[0]), rs, rt, k);
      } else {
        var k := CharsInOrder(t[0], s[0]);
        DecidedAt(EncodeChar(t[0]), EncodeChar(s[0]), rt, rs, k);
      }
    }
  }
}
