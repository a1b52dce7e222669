/** Trimming of strings. */
module Text {
  /** The Unicode White_Space property. */
  predicate IsWhitespace(c: char) {
    var n := c as int;
    9 <= n <= 13 || n == 0x20 || n == 0x85 || n == 0xA0 || n == 0x1680 || 0x2000 <= n <= 0x200A
    || n == 0x2028 || n == 0x2029 || n == 0x202F || n == 0x205F || n == 0x3000
  }

  lemma AsciiWhitespace(c: char)
    ensures c < 128 as char ==> (IsWhitespace(c) <==> c == ' ' || c == '\t' || c == '\n' || c == '\r' || c == 11 as char || c == 12 as char)
  {
  }

  function TrimStart(s: string): string {
    if s != [] && IsWhitespace(s[0]) then TrimStart(s[1..]) else s
  }

  function TrimEnd(s: string): string {
    if s != [] && IsWhitespace(s[|s| - 1]) then TrimEnd(s[..|s| - 1]) else s
  }

  function Trim(s: string): string {
    TrimEnd(TrimStart(s))
  }

  /** No whitespace at either end. */
  predicate Trimmed(s: string) {
    s != [] ==> !IsWhitespace(s[0]) && !IsWhitespace(s[|s| - 1])
  }

  predicate AllWhitespace(s: string) {
    forall i | 0 <= i < |s| :: IsWhitespace(s[i])
  }

  lemma {:induction false} TrimStartOf(w: string, s: string)
    requires AllWhitespace(w) && (s != [] ==> !IsWhitespace(s[0]))
    ensures TrimStart(w + s) == s
  {
    if w == [] {
      assert w + s == s;
    } else {
      assert (w + s)[1..] == w[1..] + s;
      TrimStartOf(w[1..], s);
    }
  }

  lemma {:induction false} TrimEndOf(s: string, w: string)
    requires AllWhitespace(w) && (s != [] ==> !IsWhitespace(s[|s| - 1]))
    ensures TrimEnd(s + w) == s
  {
    if w == [] {
      assert s + w == s;
    } else {
      assert (s + w)[..|s + w| - 1] == s + w[..|w| - 1];
      TrimEndOf(s, w[..|w| - 1]);
    }
  }

  lemma {:induction false} TrimStartOfWhitespace(w: string)
    requires AllWhitespace(w)
    ensures TrimStart(w) == []
  {
    if w != [] {
      TrimStartOfWhitespace(w[1..]);
    }
  }

  /** Trimming removes exactly the whitespace around a trimmed string. */
  lemma TrimOfPadded(w: string, s: string, v: string)
    requires AllWhitespace(w) && AllWhitespace(v) && Trimmed(s)
    ensures Trim(w + s + v) == s
  {
    if s == [] {
      assert w + s + v == w + v;
      TrimStartOfWhitespace(w + v);
    } else {
      assert w + s + v == w + (s + v);
      TrimStartOf(w, s + v);
      TrimEndOf(s, v);
    }
  }

  lemma {:induction false} TrimStartSplit(s: string) returns (w: string)
    ensures AllWhitespace(w) && s == w + TrimStart(s)
    ensures TrimStart(s) != [] ==> !IsWhitespace(TrimStart(s)[0])
  {
    w := [];
    if s != [] && IsWhitespace(s[0]) {
      w := TrimStartSplit(s[1..]);
      w := [s[0]] + w;
    }
  }

  lemma {:induction false} TrimEndSplit(s: string) returns (w: string)
    ensures AllWhitespace(w) && s == TrimEnd(s) + w
    ensures TrimEnd(s) != [] ==> !IsWhitespace(TrimEnd(s)[|TrimEnd(s)| - 1])
  {
    w := [];
    if s != [] && IsWhitespace(s[|s| - 1]) {
      w := TrimEndSplit(s[..|s| - 1]);
      w := w + [s[|s| - 1]];
    }
  }

  /** Conversely, any string is its trimmed self between two runs of whitespace. */
  lemma TrimSplit(s: string) returns (w: string, v: string)
    ensures AllWhitespace(w) && AllWhitespace(v) && Trimmed(Trim(s)) && s == w + Trim(s) + v
  {
    w := TrimStartSplit(s);
    v := TrimEndSplit(TrimStart(s));
    assert w + (Trim(s) + v) == w + Trim(s) + v;
    assert Trim(s) != [] ==> Trim(s)[0] == TrimStart(s)[0];
  }
}
