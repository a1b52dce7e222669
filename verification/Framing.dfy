/** Length-prefixed frames around message bodies. */
module Framing {
  import opened Base
  import opened Wire
  import opened Codec
  import opened Messages
  import Utf8

  const U32_RANGE: nat := 0x1_0000_0000

  datatype Verdict<+T> = Decoded(value: T, consumed: nat) | NeedMore(missing: nat) | BadBody

  // ---- Bodies ----

  function Body(m: Message): seq<byte> {
    PutMessage(m, [])
  }

  lemma Assoc(a: seq<byte>, b: seq<byte>, c: seq<byte>)
    ensures a + (b + c) == (a + b) + c
  {
  }

  lemma {:induction false} LeInFront(n: nat, width: nat, t: seq<byte>)
    requires n < Range(width)
    ensures PutLe(n, width, t) == PutLe(n, width, []) + t
  {
    if width > 0 {
      LeInFront(n / 0x100, width - 1, t);
    }
  }

  lemma {:induction false} EntriesInFront(es: seq<DirEntry>, t: seq<byte>)
    ensures PutEntries(es, t) == PutEntries(es, []) + t
  {
    if es != [] {
      var rest := PutEntries(es[1..], []);
      EntriesInFront(es[1..], t);
      EntryInFront(es[0], rest + t);
      EntryInFront(es[0], rest);
      Assoc(PutEntry(es[0], []), rest, t);
    }
  }

  lemma BlobInFront(d: seq<byte>, t: seq<byte>)
    ensures PutBlob(d, t) == PutBlob(d, []) + t
  {
    var n := Length(|d|);
    LeInFront(n, 8, d + t);
    LeInFront(n, 8, d + []);
    assert d + [] == d;
    Assoc(PutLe(n, 8, []), d, t);
  }

  lemma FlagInFront(v: bool, a: seq<byte>, t: seq<byte>)
    ensures PutBool(v, a + t) == PutBool(v, a) + t
  {
    Assoc([if v then 1 else 0], a, t);
  }

  lemma EntryInFront(e: DirEntry, t: seq<byte>)
    ensures PutEntry(e, t) == PutEntry(e, []) + t
  {
    var name, size := Utf8.Encode(e.name), PutLe(e.size, 8, []);
    var rest := PutBool(e.isDir, size);
    LeInFront(e.size, 8, t);
    FlagInFront(e.isDir, size, t);
    BlobInFront(name, rest + t);
    BlobInFront(name, rest);
    Assoc(PutBlob(name, []), rest, t);
  }

  lemma FieldInFront(f: Field, t: seq<byte>)
    ensures PutField(f, t) == PutField(f, []) + t
  {
    match f
    case U32(n) => LeInFront(n, 4, t);
    case U64(n) => LeInFront(n, 8, t);
    case I64(x) => LeInFront(Wrap(x, HALF_WORD), 8, t);
    case OptionI32(v) => OptionInFront(v, HALF_U32, 4, t);
    case OptionI64(v) => OptionInFront(v, HALF_WORD, 8, t);
    case Flag(_) =>
    case Blob(d) => BlobInFront(d, t);
    case Text(s) => BlobInFront(Utf8.Encode(s), t);
    case Entries(es) => ListingInFront(es, t);
  }

  lemma OptionInFront(v: Option<int>, half: int, width: nat, t: seq<byte>)
    requires v.Some? ==> -half <= v.value < half && 2 * half == Range(width)
    ensures PutOption(v, half, width, t) == PutOption(v, half, width, []) + t
  {
    if v.Some? {
      LeInFront(Wrap(v.value, half), width, t);
    }
  }

  lemma ListingInFront(es: seq<DirEntry>, t: seq<byte>)
    ensures PutListing(es, t) == PutListing(es, []) + t
  {
    var n := Length(|es|);
    EntriesInFront(es, t);
    LeInFront(n, 8, PutEntries(es, t));
    LeInFront(n, 8, PutEntries(es, []));
    Assoc(PutLe(n, 8, []), PutEntries(es, []), t);
  }

  lemma {:induction false} FieldsInFront(fs: seq<Field>, t: seq<byte>)
    ensures PutFields(fs, t) == PutFields(fs, []) + t
  {
    if fs != [] {
      var rest := PutFields(fs[1..], []);
      FieldsInFront(fs[1..], t);
      FieldInFront(fs[0], rest + t);
      FieldInFront(fs[0], rest);
      Assoc(PutField(fs[0], []), rest, t);
    }
  }

  lemma {:induction false} TagsInFront(tags: seq<u32>, t: seq<byte>)
    ensures PutTags(tags, t) == PutTags(tags, []) + t
  {
    if tags != [] {
      var rest := PutTags(tags[1..], []);
      TagsInFront(tags[1..], t);
      LeInFront(tags[0], 4, rest + t);
      LeInFront(tags[0], 4, rest);
      Assoc(PutLe(tags[0], 4, []), rest, t);
    }
  }

  lemma BodyInFront(m: Message, t: seq<byte>)
    ensures PutMessage(m, t) == Body(m) + t
  {
    var fields := PutFields(m.fields, []);
    FieldsInFront(m.fields, t);
    TagsInFront(m.tags, fields + t);
    TagsInFront(m.tags, fields);
    Assoc(PutTags(m.tags, []), fields, t);
  }

  // ---- Frames ----

  /** The u32 cast of the body length drops its high bits. */
  function Frame(body: seq<byte>): (b: seq<byte>)
    ensures |b| == 4 + |body|
  {
    PutLe(|body| % 0x1_0000_0000, 4, body)
  }

  method Encode(body: seq<byte>) returns (out: seq<byte>)
    ensures out == Frame(body)
  {
    var len := |body| % 0x1_0000_0000;
    out := PutLe(len, 4, []);
    LeInFront(len, 4, body);
    out := out + body;
  }

  function DecodeMessage(layout: Layout, buf: seq<byte>): (v: Verdict<Message>)
    ensures v.Decoded? ==> Fills(layout, v.value) && 4 <= v.consumed <= |buf|
    ensures v.NeedMore? ==> v.missing > 0
  {
    if |buf| < 4 then NeedMore(4 - |buf|)
    else
      var len := Value(buf, 4);
      if |buf| < 4 + len then NeedMore(4 + len - |buf|)
      else
        match GetMessage(layout, [], buf[4..4 + len])
        case Malformed => BadBody
        case Parsed(m, _) =>
          PutMessageOfGet(layout, [], buf[4..4 + len]);
          Decoded(m, 4 + len)
  }

  /** A frame's header reads back as its body's length unless the cast wrapped it. */
  lemma FrameParts(body: seq<byte>, t: seq<byte>)
    ensures Value(Frame(body) + t, 4) == |body| % 0x1_0000_0000
    ensures (Frame(body) + t)[4..] == body + t
  {
    var len := |body| % 0x1_0000_0000;
    LeInFront(len, 4, body);
    LeInFront(len, 4, body + t);
    GetLeOfPut(len, 4, body + t);
    Assoc(PutLe(len, 4, []), body, t);
  }

  lemma GetMessageOfBody(layout: Layout, m: Message, padding: seq<byte>)
    requires Fills(layout, m) && |Body(m) + padding| < WORD
    ensures GetMessage(layout, [], Body(m) + padding) == Parsed(m, padding)
  {
    BodyInFront(m, padding);
    assert m.tags[0..] == m.tags && m.tags[..0] == [];
    GetMessageOfPut(layout, m, 0, padding);
  }

  lemma BodyOfFrame(body: seq<byte>, t: seq<byte>)
    requires |body| < U32_RANGE
    ensures Value(Frame(body) + t, 4) == |body|
    ensures (Frame(body) + t)[4..4 + |body|] == body
  {
    FrameParts(body, t);
    assert (Frame(body) + t)[4..][..|body|] == body;
  }

  /** An encoded message followed by anything decodes to itself and consumes exactly its frame;
      bytes of the frame past the message's own are skipped. */
  lemma DecodeOfFrame(layout: Layout, m: Message, padding: seq<byte>, t: seq<byte>)
    requires Fills(layout, m) && |Body(m) + padding| < U32_RANGE
    ensures DecodeMessage(layout, Frame(Body(m) + padding) + t) == Decoded(m, |Frame(Body(m) + padding)|)
  {
    BodyOfFrame(Body(m) + padding, t);
    GetMessageOfBody(layout, m, padding);
  }

  lemma FrameOfDecoded(layout: Layout, buf: seq<byte>)
    requires DecodeMessage(layout, buf).Decoded?
    ensures var v := DecodeMessage(layout, buf);
            var padding := GetMessage(layout, [], buf[4..v.consumed]).rest;
            && |Body(v.value) + padding| < U32_RANGE
            && buf == Frame(Body(v.value) + padding) + buf[v.consumed..]
            && v.consumed == |Frame(Body(v.value) + padding)|
  {
    var n := DecodeMessage(layout, buf).consumed;
    var body := buf[4..n];
    var r := GetMessage(layout, [], body);
    PutMessageOfGet(layout, [], body);
    assert r.value.tags[0..] == r.value.tags;
    BodyInFront(r.value, r.rest);
    HeaderInFront(buf, n, n - 4);
  }

  lemma IntegerInFront(buf: seq<byte>, width: nat, body: seq<byte>, t: seq<byte>)
    requires width <= |buf| && buf[width..] == body + t
    ensures buf == PutLe(Value(buf, width), width, body) + t
  {
    var n := Value(buf, width);
    PutLeOfGet(width, buf);
    LeInFront(n, width, body + t);
    LeInFront(n, width, body);
    Assoc(PutLe(n, width, []), body, t);
  }

  lemma HeaderInFront(buf: seq<byte>, n: nat, len: nat)
    requires 4 <= n <= |buf| && Value(buf, 4) == len && len == n - 4
    ensures len < U32_RANGE && buf == Frame(buf[4..n]) + buf[n..]
  {
    var body, t := buf[4..n], buf[n..];
    assert buf[4..] == body + t;
    IntegerInFront(buf, 4, body, t);
    FrameOfShort(body, len);
  }

  lemma FrameOfShort(body: seq<byte>, len: nat)
    requires len == |body| < U32_RANGE
    ensures Frame(body) == PutLe(len, 4, body)
  {
  }

  /** `decode` succeeds on exactly the buffers that start with the frame of a message, possibly
      padded inside the frame. */
  lemma DecodedIff(layout: Layout, buf: seq<byte>, m: Message, n: nat)
    ensures DecodeMessage(layout, buf) == Decoded(m, n) <==>
            && Fills(layout, m)
            && exists padding, t :: IsPaddedFrame(buf, m, n, padding, t)
  {
    if DecodeMessage(layout, buf) == Decoded(m, n) {
      FrameOfDecoded(layout, buf);
      assert IsPaddedFrame(buf, m, n, GetMessage(layout, [], buf[4..n]).rest, buf[n..]);
    }
    if Fills(layout, m) {
      forall padding, t | IsPaddedFrame(buf, m, n, padding, t)
        ensures DecodeMessage(layout, buf) == Decoded(m, n)
      {
        DecodeOfFrame(layout, m, padding, t);
      }
    }
  }

  /** `buf` is the `n`-byte frame of `m` with `padding` inside it, then `t`. */
  ghost predicate IsPaddedFrame(buf: seq<byte>, m: Message, n: nat, padding: seq<byte>, t: seq<byte>) {
    && |Body(m) + padding| < U32_RANGE
    && buf == Frame(Body(m) + padding) + t
    && n == |Frame(Body(m) + padding)|
  }

  /** A proper prefix of a frame asks for exactly what is missing: first of the header, then of
      the frame. */
  lemma DecodeOfPrefix(layout: Layout, body: seq<byte>, k: nat)
    requires |body| < U32_RANGE && k < |Frame(body)|
    ensures DecodeMessage(layout, Frame(body)[..k]) == NeedMore(if k < 4 then 4 - k else |Frame(body)| - k)
  {
    if 4 <= k {
      FrameParts(body, []);
      PrefixValue(Frame(body)[..k], Frame(body)[k..], 4);
      assert Frame(body)[..k] + Frame(body)[k..] == Frame(body) + [];
    }
  }

  lemma {:induction false} PrefixValue(b: seq<byte>, t: seq<byte>, width: nat)
    requires width <= |b|
    ensures Value(b + t, width) == Value(b, width)
  {
    if width > 0 {
      PrefixValue(b[1..], t, width - 1);
      assert (b + t)[1..] == b[1..] + t;
    }
  }

  /** A verdict on a buffer stands however the buffer is extended, and NeedMore(n) means that
      fewer than n further bytes settle nothing. */
  lemma VerdictIsStable(layout: Layout, buf: seq<byte>, t: seq<byte>)
    ensures var v := DecodeMessage(layout, buf);
            match v
            case NeedMore(n) => |t| < n ==> DecodeMessage(layout, buf + t) == NeedMore(n - |t|)
            case _ => DecodeMessage(layout, buf + t) == v
  {
    if 4 <= |buf| {
      PrefixValue(buf, t, 4);
      var len := Value(buf, 4);
      if 4 + len <= |buf| {
        assert (buf + t)[4..4 + len] == buf[4..4 + len];
      }
    }
  }

  /** The header describes the body exactly when the body is shorter than 2^32 bytes. */
  lemma FrameIsExactIff(body: seq<byte>, t: seq<byte>)
    ensures Value(Frame(body) + t, 4) == |body| <==> |body| < U32_RANGE
  {
    FrameParts(body, t);
  }

  // ---- Requests and responses ----

  function EncodeRequest(r: Request): seq<byte> {
    Frame(Body(RequestMessage(r)))
  }

  function EncodeResponse(r: Response): seq<byte> {
    Frame(Body(ResponseMessage(r)))
  }

  predicate RequestFits(r: Request) {
    |Body(RequestMessage(r))| < U32_RANGE
  }

  predicate ResponseFits(r: Response) {
    |Body(ResponseMessage(r))| < U32_RANGE
  }

  function DecodeRequest(buf: seq<byte>): (v: Verdict<Request>)
    ensures v.Decoded? ==> 4 <= v.consumed <= |buf|
  {
    match DecodeMessage(RequestLayout, buf)
    case Decoded(m, n) => Decoded(RequestOf(m), n)
    case NeedMore(n) => NeedMore(n)
    case BadBody => BadBody
  }

  function DecodeResponse(buf: seq<byte>): (v: Verdict<Response>)
    ensures v.Decoded? ==> 4 <= v.consumed <= |buf|
  {
    match DecodeMessage(ResponseLayout, buf)
    case Decoded(m, n) => Decoded(ResponseOf(m), n)
    case NeedMore(n) => NeedMore(n)
    case BadBody => BadBody
  }

  /** Every request is recovered from its frame, whatever follows; a cut frame asks for the rest. */
  lemma RequestRoundTrip(r: Request, t: seq<byte>)
    requires RequestFits(r)
    ensures DecodeRequest(EncodeRequest(r) + t) == Decoded(r, |EncodeRequest(r)|)
    ensures forall k: nat | k < |EncodeRequest(r)| ::
              DecodeRequest(EncodeRequest(r)[..k]) == NeedMore(if k < 4 then 4 - k else |EncodeRequest(r)| - k)
  {
    var m := RequestMessage(r);
    RequestFills(r);
    assert Body(m) + [] == Body(m);
    DecodeOfFrame(RequestLayout, m, [], t);
    forall k: nat | k < |EncodeRequest(r)| {
      DecodeOfPrefix(RequestLayout, Body(m), k);
    }
  }

  lemma ResponseRoundTrip(r: Response, t: seq<byte>)
    requires ResponseFits(r)
    ensures DecodeResponse(EncodeResponse(r) + t) == Decoded(r, |EncodeResponse(r)|)
    ensures forall k: nat | k < |EncodeResponse(r)| ::
              DecodeResponse(EncodeResponse(r)[..k]) == NeedMore(if k < 4 then 4 - k else |EncodeResponse(r)| - k)
  {
    var m := ResponseMessage(r);
    ResponseFills(r);
    assert Body(m) + [] == Body(m);
    DecodeOfFrame(ResponseLayout, m, [], t);
    forall k: nat | k < |EncodeResponse(r)| {
      DecodeOfPrefix(ResponseLayout, Body(m), k);
    }
  }

  /** The requests a buffer decodes to, both ways: its own frame, up to padding inside the frame. */
  lemma DecodedRequestIff(buf: seq<byte>, r: Request, n: nat)
    ensures DecodeRequest(buf) == Decoded(r, n) <==>
            exists padding, t :: IsPaddedFrame(buf, RequestMessage(r), n, padding, t)
  {
    RequestFills(r);
    DecodedIff(RequestLayout, buf, RequestMessage(r), n);
    if DecodeRequest(buf) == Decoded(r, n) {
      RequestMessageOf(DecodeMessage(RequestLayout, buf).value);
    }
  }
}
