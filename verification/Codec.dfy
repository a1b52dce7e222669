/** The bincode 1 body layout (an assumption about the library): fixed-width little-endian
    integers, u32 variant tags, u64 lengths, one-byte option tags and bools.

    A message body is a path of variant tags, which selects a record type, followed by that
    record's fields in declaration order. `PutX(v, t)` is the bytes of `v` in front of the tail
    `t`; `GetX(b)` reads an X off the front of `b`. */
module Codec {
  import opened Base
  import opened Wire
  import Utf8

  datatype Parsed<+T> = Parsed(value: T, rest: seq<byte>) | Malformed {
    predicate IsFailure() {
      Malformed?
    }

    function PropagateFailure<U>(): Parsed<U>
      requires Malformed?
    {
      Malformed
    }

    function Extract(): (T, seq<byte>)
      requires Parsed?
    {
      (value, rest)
    }
  }

  datatype Field =
    | U32(u32: u32)
    | U64(u64: u64)
    | I64(i64: i64)
    | OptionI32(optionI32: Option<i32>)
    | OptionI64(optionI64: Option<i64>)
    | Flag(flag: bool)
    | Blob(blob: seq<byte>)
    | Text(text: string)
    | Entries(entries: seq<DirEntry>)

  datatype Kind = AU32 | AU64 | AnI64 | AnOptionI32 | AnOptionI64 | AFlag | ABlob | AText | AnEntries

  datatype Message = Message(tags: seq<u32>, fields: seq<Field>)

  // ---- Integers, bools, buffers and text ----

  function Range(width: nat): nat {
    if width == 0 then 1 else 0x100 * Range(width - 1)
  }

  function PutLe(n: nat, width: nat, t: seq<byte>): (b: seq<byte>)
    requires n < Range(width)
    ensures |b| == width + |t|
    decreases width, n, |t|
  {
    if width == 0 then t else [n % 0x100] + PutLe(n / 0x100, width - 1, t)
  }

  /** The integer in the first `width` bytes. */
  function Value(b: seq<byte>, width: nat): (n: nat)
    requires width <= |b|
    ensures n < Range(width)
    decreases width, |b|
  {
    if width == 0 then 0 else b[0] + 0x100 * Value(b[1..], width - 1)
  }

  function GetLe(width: nat, b: seq<byte>): (r: Parsed<nat>)
    ensures r.Parsed? ==> r.value < Range(width)
  {
    if |b| < width then Malformed else Parsed(Value(b, width), b[width..])
  }

  lemma {:induction false} GetLeOfPut(n: nat, width: nat, t: seq<byte>)
    requires n < Range(width)
    ensures GetLe(width, PutLe(n, width, t)) == Parsed(n, t)
  {
    if width > 0 {
      GetLeOfPut(n / 0x100, width - 1, t);
      assert PutLe(n, width, t)[1..] == PutLe(n / 0x100, width - 1, t);
    }
  }

  lemma {:induction false} PutLeOfGet(width: nat, b: seq<byte>)
    requires width <= |b|
    ensures PutLe(Value(b, width), width, b[width..]) == b
  {
    if width > 0 {
      PutLeOfGet(width - 1, b[1..]);
      var high := Value(b[1..], width - 1);
      var n := b[0] + 0x100 * high;
      assert n % 0x100 == b[0] && n / 0x100 == high;
      assert b[1..][width - 1..] == b[width..];
      assert PutLe(n, width, b[width..]) == [b[0]] + PutLe(high, width - 1, b[width..]);
    }
  }

  const WORD: nat := 0x1_0000_0000_0000_0000
  const HALF_WORD: nat := 0x8000_0000_0000_0000
  const HALF_U32: nat := 0x8000_0000

  /** What an `as u64` cast of a length keeps; no buffer in memory reaches 2^64 bytes. */
  function Length(n: nat): (r: nat)
    ensures r < Range(8)
    ensures n < WORD ==> r == n
  {
    n % 0x1_0000_0000_0000_0000
  }

  /** Two's complement with `half` non-negative values. */
  function Wrap(x: int, half: int): int {
    if x < 0 then x + 2 * half else x
  }

  function Unwrap(n: int, half: int): int {
    if n < half then n else n - 2 * half
  }

  function PutBool(v: bool, t: seq<byte>): seq<byte> {
    [if v then 1 else 0] + t
  }

  /** Any byte but 0 and 1 is refused. */
  function GetBool(b: seq<byte>): Parsed<bool> {
    if b != [] && b[0] < 2 then Parsed(b[0] == 1, b[1..]) else Malformed
  }

  function PutBlob(d: seq<byte>, t: seq<byte>): (b: seq<byte>)
    ensures |b| == 8 + |d| + |t|
  {
    PutLe(Length(|d|), 8, d + t)
  }

  function GetBlob(b: seq<byte>): Parsed<seq<byte>> {
    var (n, rest) :- GetLe(8, b);
    if |rest| < n then Malformed else Parsed(rest[..n], rest[n..])
  }

  function GetText(b: seq<byte>): Parsed<string> {
    var (d, rest) :- GetBlob(b);
    match Utf8.Decode(d)
    case None => Malformed
    case Some(s) => Parsed(s, rest)
  }

  /** An option of a signed integer: a tag byte, then the integer if there is one. */
  function PutOption(v: Option<int>, half: int, width: nat, t: seq<byte>): (b: seq<byte>)
    requires v.Some? ==> -half <= v.value < half && 2 * half == Range(width)
    ensures |t| < |b| <= 1 + width + |t|
  {
    match v
    case None => PutBool(false, t)
    case Some(x) => PutBool(true, PutLe(Wrap(x, half), width, t))
  }

  function GetOption(half: int, width: nat, b: seq<byte>): (r: Parsed<Option<int>>)
    requires 2 * half == Range(width)
    ensures r.Parsed? && r.value.Some? ==> -half <= r.value.value < half
  {
    var (some, b1) :- GetBool(b);
    if !some then Parsed(None, b1)
    else
      var (n, rest) :- GetLe(width, b1);
      Parsed(Some(Unwrap(n, half)), rest)
  }

  lemma GetOptionOfPut(v: Option<int>, half: int, width: nat, t: seq<byte>)
    requires v.Some? ==> -half <= v.value < half
    requires 2 * half == Range(width)
    ensures GetOption(half, width, PutOption(v, half, width, t)) == Parsed(v, t)
  {
    if v.Some? {
      GetLeOfPut(Wrap(v.value, half), width, t);
    }
  }

  lemma PutOptionOfGet(half: int, width: nat, b: seq<byte>)
    requires 2 * half == Range(width)
    requires GetOption(half, width, b).Parsed?
    ensures PutOption(GetOption(half, width, b).value, half, width, GetOption(half, width, b).rest) == b
  {
    assert PutBool(GetBool(b).value, b[1..]) == b;
    if GetBool(b).value {
      PutLeOfGet(width, b[1..]);
    }
  }

  lemma GetBlobOfPut(d: seq<byte>, t: seq<byte>)
    requires |PutBlob(d, t)| < WORD
    ensures GetBlob(PutBlob(d, t)) == Parsed(d, t)
  {
    GetLeOfPut(|d|, 8, d + t);
    assert (d + t)[..|d|] == d && (d + t)[|d|..] == t;
  }

  lemma PutBlobOfGet(b: seq<byte>)
    requires GetBlob(b).Parsed?
    ensures PutBlob(GetBlob(b).value, GetBlob(b).rest) == b
  {
    PutLeOfGet(8, b);
    assert b[8..] == GetBlob(b).value + GetBlob(b).rest;
  }

  lemma GetTextOfPut(s: string, t: seq<byte>)
    requires |PutBlob(Utf8.Encode(s), t)| < WORD
    ensures GetText(PutBlob(Utf8.Encode(s), t)) == Parsed(s, t)
  {
    GetBlobOfPut(Utf8.Encode(s), t);
    Utf8.DecodeOfEncode(s);
  }

  lemma PutTextOfGet(b: seq<byte>)
    requires GetText(b).Parsed?
    ensures PutBlob(Utf8.Encode(GetText(b).value), GetText(b).rest) == b
  {
    PutBlobOfGet(b);
    Utf8.EncodeOfDecode(GetBlob(b).value);
  }

  // ---- Directory entries ----

  function PutEntry(e: DirEntry, t: seq<byte>): (b: seq<byte>)
    ensures |t| < |b|
  {
    PutBlob(Utf8.Encode(e.name), PutBool(e.isDir, PutLe(e.size, 8, t)))
  }

  function GetEntry(b: seq<byte>): Parsed<DirEntry> {
    var (name, b1) :- GetText(b);
    var (isDir, b2) :- GetBool(b1);
    var (size, rest) :- GetLe(8, b2);
    Parsed(DirEntry(name, isDir, size), rest)
  }

  lemma GetEntryOfPut(e: DirEntry, t: seq<byte>)
    requires |PutEntry(e, t)| < WORD
    ensures GetEntry(PutEntry(e, t)) == Parsed(e, t)
  {
    var b2 := PutLe(e.size, 8, t);
    GetTextOfPut(e.name, PutBool(e.isDir, b2));
    assert PutBool(e.isDir, b2)[1..] == b2;
    GetLeOfPut(e.size, 8, t);
  }

  lemma PutEntryOfGet(b: seq<byte>)
    requires GetEntry(b).Parsed?
    ensures PutEntry(GetEntry(b).value, GetEntry(b).rest) == b
  {
    PutTextOfGet(b);
    var b1 := GetText(b).rest;
    var b2 := GetBool(b1).rest;
    assert PutBool(GetBool(b1).value, b2) == b1;
    PutLeOfGet(8, b2);
  }

  function PutEntries(es: seq<DirEntry>, t: seq<byte>): (b: seq<byte>)
    ensures |es| + |t| <= |b|
  {
    if es == [] then t else PutEntry(es[0], PutEntries(es[1..], t))
  }

  function GetEntries(n: nat, b: seq<byte>): (r: Parsed<seq<DirEntry>>)
    ensures r.Parsed? ==> |r.value| == n
  {
    if n == 0 then Parsed([], b)
    else
      var (e, b1) :- GetEntry(b);
      var (es, rest) :- GetEntries(n - 1, b1);
      Parsed([e] + es, rest)
  }

  lemma {:induction false} GetEntriesOfPut(es: seq<DirEntry>, t: seq<byte>)
    requires |PutEntries(es, t)| < WORD
    ensures GetEntries(|es|, PutEntries(es, t)) == Parsed(es, t)
  {
    if es != [] {
      GetEntriesOfPut(es[1..], t);
      GetEntryOfPut(es[0], PutEntries(es[1..], t));
      assert [es[0]] + es[1..] == es;
    }
  }

  lemma {:induction false} PutEntriesOfGet(n: nat, b: seq<byte>)
    requires GetEntries(n, b).Parsed?
    ensures PutEntries(GetEntries(n, b).value, GetEntries(n, b).rest) == b
  {
    if n > 0 {
      PutEntryOfGet(b);
      var b1 := GetEntry(b).rest;
      PutEntriesOfGet(n - 1, b1);
      assert GetEntries(n, b).value[1..] == GetEntries(n - 1, b1).value;
    }
  }

  /** A `Vec<DirEntry>`: its length, then its elements. */
  function PutListing(es: seq<DirEntry>, t: seq<byte>): (b: seq<byte>)
    ensures |t| <= |b|
  {
    PutLe(Length(|es|), 8, PutEntries(es, t))
  }

  function GetListing(b: seq<byte>): Parsed<seq<DirEntry>> {
    var (n, b1) :- GetLe(8, b);
    GetEntries(n, b1)
  }

  lemma GetListingOfPut(es: seq<DirEntry>, t: seq<byte>)
    requires |PutListing(es, t)| < WORD
    ensures GetListing(PutListing(es, t)) == Parsed(es, t)
  {
    GetLeOfPut(|es|, 8, PutEntries(es, t));
    GetEntriesOfPut(es, t);
  }

  lemma PutListingOfGet(b: seq<byte>)
    requires GetListing(b).Parsed?
    ensures PutListing(GetListing(b).value, GetListing(b).rest) == b
  {
    PutLeOfGet(8, b);
    PutEntriesOfGet(Value(b, 8), b[8..]);
  }

  // ---- Fields ----

  function KindOf(f: Field): Kind {
    match f
    case U32(_) => AU32
    case U64(_) => AU64
    case I64(_) => AnI64
    case OptionI32(_) => AnOptionI32
    case OptionI64(_) => AnOptionI64
    case Flag(_) => AFlag
    case Blob(_) => ABlob
    case Text(_) => AText
    case Entries(_) => AnEntries
  }

  function PutField(f: Field, t: seq<byte>): (b: seq<byte>)
    ensures |t| <= |b|
  {
    match f
    case U32(n) => PutLe(n, 4, t)
    case U64(n) => PutLe(n, 8, t)
    case I64(x) => PutLe(Wrap(x, HALF_WORD), 8, t)
    case OptionI32(v) => PutOption(v, HALF_U32, 4, t)
    case OptionI64(v) => PutOption(v, HALF_WORD, 8, t)
    case Flag(v) => PutBool(v, t)
    case Blob(d) => PutBlob(d, t)
    case Text(s) => PutBlob(Utf8.Encode(s), t)
    case Entries(es) => PutListing(es, t)
  }

  function GetField(k: Kind, b: seq<byte>): Parsed<Field> {
    match k
    case AU32 =>
      var (n, rest) :- GetLe(4, b);
      Parsed(U32(n), rest)
    case AU64 =>
      var (n, rest) :- GetLe(8, b);
      Parsed(U64(n), rest)
    case AnI64 =>
      var (n, rest) :- GetLe(8, b);
      Parsed(I64(Unwrap(n, HALF_WORD)), rest)
    case AnOptionI32 =>
      var (v, rest) :- GetOption(HALF_U32, 4, b);
      Parsed(OptionI32(v), rest)
    case AnOptionI64 =>
      var (v, rest) :- GetOption(HALF_WORD, 8, b);
      Parsed(OptionI64(v), rest)
    case AFlag =>
      var (v, rest) :- GetBool(b);
      Parsed(Flag(v), rest)
    case ABlob =>
      var (d, rest) :- GetBlob(b);
      Parsed(Blob(d), rest)
    case AText =>
      var (s, rest) :- GetText(b);
      Parsed(Text(s), rest)
    case AnEntries =>
      var (es, rest) :- GetListing(b);
      Parsed(Entries(es), rest)
  }

  predicate IsNumber(k: Kind) {
    k.AU32? || k.AU64? || k.AnI64?
  }

  predicate IsSmall(k: Kind) {
    k.AnOptionI32? || k.AnOptionI64? || k.AFlag?
  }

  /** Reading a field off its own bytes gives it back and leaves the tail. */
  ghost predicate FieldRoundTrips(f: Field, t: seq<byte>) {
    GetField(KindOf(f), PutField(f, t)) == Parsed(f, t)
  }

  lemma NumberOfPut(f: Field, t: seq<byte>)
    requires IsNumber(KindOf(f))
    ensures FieldRoundTrips(f, t)
  {
    match f
    case U32(n) => GetLeOfPut(n, 4, t);
    case U64(n) => GetLeOfPut(n, 8, t);
    case I64(x) => GetLeOfPut(Wrap(x, HALF_WORD), 8, t);
  }

  lemma SmallOfPut(f: Field, t: seq<byte>)
    requires IsSmall(KindOf(f))
    ensures FieldRoundTrips(f, t)
  {
    match f
    case OptionI32(v) => GetOptionOfPut(v, HALF_U32, 4, t);
    case OptionI64(v) => GetOptionOfPut(v, HALF_WORD, 8, t);
    case Flag(_) =>
  }

  lemma BlobOfPut(d: seq<byte>, t: seq<byte>)
    requires |PutField(Blob(d), t)| < WORD
    ensures FieldRoundTrips(Blob(d), t)
  {
    GetBlobOfPut(d, t);
  }

  lemma TextOfPut(s: string, t: seq<byte>)
    requires |PutField(Text(s), t)| < WORD
    ensures FieldRoundTrips(Text(s), t)
  {
    GetTextOfPut(s, t);
  }

  lemma EntriesField(b: seq<byte>, es: seq<DirEntry>, t: seq<byte>)
    requires GetListing(b) == Parsed(es, t)
    ensures GetField(AnEntries, b) == Parsed(Entries(es), t)
  {
  }

  lemma EntriesOfPut(es: seq<DirEntry>, t: seq<byte>)
    requires |PutField(Entries(es), t)| < WORD
    ensures FieldRoundTrips(Entries(es), t)
  {
    GetListingOfPut(es, t);
    EntriesField(PutListing(es, t), es, t);
  }

  lemma GetFieldOfPut(f: Field, t: seq<byte>)
    requires |PutField(f, t)| < WORD
    ensures FieldRoundTrips(f, t)
  {
    if IsNumber(KindOf(f)) {
      NumberOfPut(f, t);
    } else if IsSmall(KindOf(f)) {
      SmallOfPut(f, t);
    } else if f.Blob? {
      BlobOfPut(f.blob, t);
    } else if f.Text? {
      TextOfPut(f.text, t);
    } else {
      EntriesOfPut(f.entries, t);
    }
  }

  /** Only the bytes of a field of kind `k` are read as one. */
  ghost predicate FieldIsCanonical(k: Kind, b: seq<byte>)
    requires GetField(k, b).Parsed?
  {
    var r := GetField(k, b);
    KindOf(r.value) == k && PutField(r.value, r.rest) == b
  }

  lemma NumberOfGet(k: Kind, b: seq<byte>)
    requires IsNumber(k) && GetField(k, b).Parsed?
    ensures FieldIsCanonical(k, b)
  {
    PutLeOfGet(if k.AU32? then 4 else 8, b);
  }

  lemma SmallOfGet(k: Kind, b: seq<byte>)
    requires IsSmall(k) && GetField(k, b).Parsed?
    ensures FieldIsCanonical(k, b)
  {
    match k
    case AnOptionI32 => PutOptionOfGet(HALF_U32, 4, b);
    case AnOptionI64 => PutOptionOfGet(HALF_WORD, 8, b);
    case AFlag =>
  }

  lemma BlobOfGet(b: seq<byte>)
    requires GetField(ABlob, b).Parsed?
    ensures FieldIsCanonical(ABlob, b)
  {
    PutBlobOfGet(b);
  }

  lemma TextOfGet(b: seq<byte>)
    requires GetField(AText, b).Parsed?
    ensures FieldIsCanonical(AText, b)
  {
    PutTextOfGet(b);
  }

  lemma EntriesOfGet(b: seq<byte>)
    requires GetField(AnEntries, b).Parsed?
    ensures FieldIsCanonical(AnEntries, b)
  {
    PutListingOfGet(b);
  }

  lemma PutFieldOfGet(k: Kind, b: seq<byte>)
    requires GetField(k, b).Parsed?
    ensures FieldIsCanonical(k, b)
  {
    if IsNumber(k) {
      NumberOfGet(k, b);
    } else if IsSmall(k) {
      SmallOfGet(k, b);
    } else if k.ABlob? {
      BlobOfGet(b);
    } else if k.AText? {
      TextOfGet(b);
    } else {
      EntriesOfGet(b);
    }
  }
}
