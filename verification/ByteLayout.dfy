/** The bytes of every message piece by piece: an account of the wire format that does not go
    through the codec. */
module ByteLayout {
  import opened Base
  import opened Wire
  import opened Codec
  import opened Messages
  import opened Framing
  import Utf8

  // ---- Pieces ----

  /** The low 32 bits, least significant byte first. */
  function Le4(n: nat): seq<byte> {
    [n % 0x100, n / 0x100 % 0x100, n / 0x1_0000 % 0x100, n / 0x100_0000 % 0x100]
  }

  function Le8(n: nat): seq<byte> {
    Le4(n) + Le4(n / 0x1_0000_0000)
  }

  /** Two's complement. */
  function Signed4(x: int): seq<byte> {
    Le4(x % 0x1_0000_0000)
  }

  function Signed8(x: int): seq<byte> {
    Le8(x % 0x1_0000_0000_0000_0000)
  }

  function Bool(b: bool): seq<byte> {
    [if b then 1 else 0]
  }

  function Bytes(d: seq<byte>): seq<byte> {
    Le8(|d|) + d
  }

  function Chars(s: string): seq<byte> {
    Bytes(Utf8.Encode(s))
  }

  function Flat(pieces: seq<seq<byte>>): seq<byte> {
    if pieces == [] then [] else pieces[0] + Flat(pieces[1..])
  }

  function EntryBytes(e: DirEntry): seq<byte> {
    Chars(e.name) + (Bool(e.isDir) + Le8(e.size))
  }

  function EntriesBytes(es: seq<DirEntry>): seq<byte> {
    if es == [] then [] else EntryBytes(es[0]) + EntriesBytes(es[1..])
  }

  // ---- Messages ----

  function RequestPieces(r: Request): seq<seq<byte>> {
    match r
    case ReadFile(q) => [[0, 0, 0, 0], Chars(q.path), Le8(q.maxBytes)]
    case WriteFile(q) =>
      [[1, 0, 0, 0], Chars(q.path), Bytes(q.data),
       if q.ifMtimeMatches.Some? then [1] + Signed8(q.ifMtimeMatches.value) else [0]]
    case ListDir(q) => [[2, 0, 0, 0], Chars(q.path)]
    case Exec(q) => [[3, 0, 0, 0], Chars(q.command), Le4(q.timeoutMs), Le8(q.maxOutputBytes)]
    case Ping => [[4, 0, 0, 0]]
  }

  function ErrorPieces(e: DaemonError): seq<seq<byte>> {
    match e
    case PathNotAllowed(path) => [[0, 0, 0, 0], Chars(path)]
    case NotFound(path) => [[1, 0, 0, 0], Chars(path)]
    case PermissionDenied(message) => [[2, 0, 0, 0], Chars(message)]
    case Io(message) => [[3, 0, 0, 0], Chars(message)]
    case SizeLimitExceeded(requested, max) => [[4, 0, 0, 0], Le8(requested), Le8(max)]
    case Timeout => [[5, 0, 0, 0]]
    case MtimeMismatch(expected, actual) => [[6, 0, 0, 0], Signed8(expected), Signed8(actual)]
    case Other(message) => [[7, 0, 0, 0], Chars(message)]
  }

  function OkPieces(r: Response): seq<seq<byte>> {
    match r
    case ReadFileResult(Ok(v)) => [Bytes(v.data), Signed8(v.mtime), Le8(v.size)]
    case WriteFileResult(Ok(v)) => [Signed8(v.mtime)]
    case ListDirResult(Ok(v)) => [Le8(|v.entries|) + EntriesBytes(v.entries)]
    case ExecResult(Ok(v)) =>
      [Bytes(v.stdout), Bytes(v.stderr), if v.exitCode.Some? then [1] + Signed4(v.exitCode.value) else [0],
       Le4(v.durationMs), Bool(v.timedOut), Bool(v.outputTruncated)]
    case _ => []
  }

  function ResponsePieces(r: Response): seq<seq<byte>> {
    match r
    case Pong => [[4, 0, 0, 0]]
    case ReadFileResult(Err(e)) => [[0, 0, 0, 0], [1, 0, 0, 0]] + ErrorPieces(e)
    case WriteFileResult(Err(e)) => [[1, 0, 0, 0], [1, 0, 0, 0]] + ErrorPieces(e)
    case ListDirResult(Err(e)) => [[2, 0, 0, 0], [1, 0, 0, 0]] + ErrorPieces(e)
    case ExecResult(Err(e)) => [[3, 0, 0, 0], [1, 0, 0, 0]] + ErrorPieces(e)
    case ReadFileResult(Ok(_)) => [[0, 0, 0, 0], [0, 0, 0, 0]] + OkPieces(r)
    case WriteFileResult(Ok(_)) => [[1, 0, 0, 0], [0, 0, 0, 0]] + OkPieces(r)
    case ListDirResult(Ok(_)) => [[2, 0, 0, 0], [0, 0, 0, 0]] + OkPieces(r)
    case ExecResult(Ok(_)) => [[3, 0, 0, 0], [0, 0, 0, 0]] + OkPieces(r)
  }

  // ---- The codec writes them ----

  lemma FourBytes(n: nat, width: nat, t: seq<byte>)
    requires n < Range(width + 4)
    ensures n / 0x1_0000_0000 < Range(width) && PutLe(n, width + 4, t) == Le4(n) + PutLe(n / 0x1_0000_0000, width, t)
  {
    var n1, n2, n3, n4 := n / 0x100, n / 0x1_0000, n / 0x100_0000, n / 0x1_0000_0000;
    assert Range(width + 4) == 0x100 * Range(width + 3) && Range(width + 3) == 0x100 * Range(width + 2);
    assert Range(width + 2) == 0x100 * Range(width + 1) && Range(width + 1) == 0x100 * Range(width);
    assert n1 / 0x100 == n2 && n2 / 0x100 == n3 && n3 / 0x100 == n4;
    assert PutLe(n3, width + 1, t) == [n3 % 0x100] + PutLe(n4, width, t);
    assert PutLe(n2, width + 2, t) == [n2 % 0x100] + PutLe(n3, width + 1, t);
    assert PutLe(n1, width + 3, t) == [n1 % 0x100] + PutLe(n2, width + 2, t);
  }

  lemma Ranges()
    ensures Range(0) == 1 && Range(4) == 0x1_0000_0000 && Range(8) == 0x1_0000_0000_0000_0000
  {
    assert Range(2) == 0x1_0000 && Range(3) == 0x100_0000;
    assert Range(5) == 0x100_0000_0000 && Range(6) == 0x1_0000_0000_0000 && Range(7) == 0x100_0000_0000_0000;
  }

  lemma FourIs(n: nat, t: seq<byte>)
    requires n < 0x1_0000_0000
    ensures PutLe(n, 4, t) == Le4(n) + t
  {
    Ranges();
    FourBytes(n, 0, t);
  }

  lemma EightIs(n: nat, t: seq<byte>)
    requires n < 0x1_0000_0000_0000_0000
    ensures PutLe(n, 8, t) == Le8(n) + t
  {
    Ranges();
    FourBytes(n, 4, t);
    FourBytes(n / 0x1_0000_0000, 0, t);
    Assoc(Le4(n), Le4(n / 0x1_0000_0000), t);
  }

  lemma LengthIs(n: nat, t: seq<byte>)
    ensures PutLe(Length(n), 8, t) == Le8(n) + t
  {
    EightIs(n % 0x1_0000_0000_0000_0000, t);
    LowWord(n);
  }

  lemma LowWord(n: nat)
    ensures Le8(n % 0x1_0000_0000_0000_0000) == Le8(n)
  {
    var m, q := n % 0x1_0000_0000_0000_0000, n / 0x1_0000_0000_0000_0000;
    assert n == 0x1_0000_0000_0000_0000 * q + m;
    LowBytes(m, 0x1_0000_0000 * q);
    assert n / 0x1_0000_0000 == m / 0x1_0000_0000 + 0x1_0000_0000 * q;
    LowBytes(m / 0x1_0000_0000, q);
  }

  lemma LowByte(m: nat, q: nat)
    ensures (m + 0x100 * q) % 0x100 == m % 0x100
  {
  }

  lemma LowBytes(m: nat, q: nat)
    ensures Le4(m + 0x1_0000_0000 * q) == Le4(m)
  {
    var n := m + 0x1_0000_0000 * q;
    assert n / 0x100 == m / 0x100 + 0x100_0000 * q;
    assert n / 0x1_0000 == m / 0x1_0000 + 0x1_0000 * q;
    assert n / 0x100_0000 == m / 0x100_0000 + 0x100 * q;
    LowByte(m, 0x100_0000 * q);
    LowByte(m / 0x100, 0x1_0000 * q);
    LowByte(m / 0x1_0000, 0x100 * q);
    LowByte(m / 0x100_0000, q);
  }

  lemma BytesIs(d: seq<byte>, t: seq<byte>)
    ensures PutBlob(d, t) == Bytes(d) + t
  {
    LengthIs(|d|, d + t);
    Assoc(Le8(|d|), d, t);
  }

  lemma EntryIs(e: DirEntry, t: seq<byte>)
    ensures PutEntry(e, t) == EntryBytes(e) + t
  {
    var size := Le8(e.size);
    EightIs(e.size, t);
    BytesIs(Utf8.Encode(e.name), Bool(e.isDir) + (size + t));
    Assoc(Bool(e.isDir), size, t);
    Assoc(Chars(e.name), Bool(e.isDir) + size, t);
  }

  lemma {:induction false} EntriesIs(es: seq<DirEntry>, t: seq<byte>)
    ensures PutEntries(es, t) == EntriesBytes(es) + t
  {
    if es != [] {
      EntriesIs(es[1..], t);
      EntryIs(es[0], EntriesBytes(es[1..]) + t);
      Assoc(EntryBytes(es[0]), EntriesBytes(es[1..]), t);
    }
  }

  function FieldBytes(f: Field): seq<byte> {
    match f
    case U32(n) => Le4(n)
    case U64(n) => Le8(n)
    case I64(x) => Signed8(x)
    case OptionI32(v) => if v.Some? then [1] + Signed4(v.value) else [0]
    case OptionI64(v) => if v.Some? then [1] + Signed8(v.value) else [0]
    case Flag(b) => Bool(b)
    case Blob(d) => Bytes(d)
    case Text(s) => Chars(s)
    case Entries(es) => Le8(|es|) + EntriesBytes(es)
  }

  lemma WrapIs(x: i64)
    ensures Wrap(x, HALF_WORD) == x % 0x1_0000_0000_0000_0000
  {
  }

  lemma SmallWrapIs(x: i32)
    ensures Wrap(x, HALF_U32) == x % 0x1_0000_0000
  {
  }

  lemma SignedIs(x: i64, t: seq<byte>)
    ensures PutLe(Wrap(x, HALF_WORD), 8, t) == Signed8(x) + t
  {
    WrapIs(x);
    EightIs(Wrap(x, HALF_WORD), t);
  }

  lemma OptionIs(v: Option<i64>, t: seq<byte>)
    ensures PutOption(v, HALF_WORD, 8, t) == FieldBytes(OptionI64(v)) + t
  {
    if v.Some? {
      SignedIs(v.value, t);
      Assoc([1], Signed8(v.value), t);
    }
  }

  lemma SmallOptionIs(v: Option<i32>, t: seq<byte>)
    ensures PutOption(v, HALF_U32, 4, t) == FieldBytes(OptionI32(v)) + t
  {
    if v.Some? {
      SmallWrapIs(v.value);
      FourIs(Wrap(v.value, HALF_U32), t);
      Assoc([1], Signed4(v.value), t);
    }
  }

  lemma ListingIs(es: seq<DirEntry>, t: seq<byte>)
    ensures PutListing(es, t) == FieldBytes(Entries(es)) + t
  {
    EntriesIs(es, t);
    LengthIs(|es|, EntriesBytes(es) + t);
    Assoc(Le8(|es|), EntriesBytes(es), t);
  }

  lemma FieldIs(f: Field, t: seq<byte>)
    ensures PutField(f, t) == FieldBytes(f) + t
  {
    match f
    case U32(n) => FourIs(n, t);
    case U64(n) => EightIs(n, t);
    case I64(x) => SignedIs(x, t);
    case OptionI32(v) => SmallOptionIs(v, t);
    case OptionI64(v) => OptionIs(v, t);
    case Flag(_) =>
    case Blob(d) => BytesIs(d, t);
    case Text(s) => BytesIs(Utf8.Encode(s), t);
    case Entries(es) => ListingIs(es, t);
  }

  function TagPieces(tags: seq<u32>): seq<seq<byte>> {
    seq(|tags|, i requires 0 <= i < |tags| => Le4(tags[i]))
  }

  function FieldPieces(fs: seq<Field>): seq<seq<byte>> {
    seq(|fs|, i requires 0 <= i < |fs| => FieldBytes(fs[i]))
  }

  lemma {:induction false} FieldsAre(fs: seq<Field>)
    ensures PutFields(fs, []) == Flat(FieldPieces(fs))
  {
    if fs != [] {
      FieldsAre(fs[1..]);
      FieldIs(fs[0], PutFields(fs[1..], []));
      assert FieldPieces(fs)[1..] == FieldPieces(fs[1..]);
    }
  }

  lemma {:induction false} TagsAre(tags: seq<u32>, pieces: seq<seq<byte>>)
    ensures PutTags(tags, Flat(pieces)) == Flat(TagPieces(tags) + pieces)
  {
    var all := TagPieces(tags) + pieces;
    if tags == [] {
      assert all == pieces;
    } else {
      var rest := PutTags(tags[1..], Flat(pieces));
      TagsAre(tags[1..], pieces);
      assert all[0] == Le4(tags[0]) && all[1..] == TagPieces(tags[1..]) + pieces;
      FourIs(tags[0], rest);
    }
  }

  lemma BodyIs(m: Message, tags: seq<seq<byte>>, fields: seq<seq<byte>>)
    requires TagPieces(m.tags) == tags && FieldPieces(m.fields) == fields
    ensures Body(m) == Flat(tags + fields)
  {
    FieldsAre(m.fields);
    TagsAre(m.tags, FieldPieces(m.fields));
  }

  lemma FrameIs(body: seq<byte>)
    ensures Frame(body) == Le4(|body|) + body
  {
    FourIs(|body| % 0x1_0000_0000, body);
    LowBytes(|body| % 0x1_0000_0000, |body| / 0x1_0000_0000);
  }

  /** The bytes of a request's frame: the body's length, the request's number and its fields in order. */
  lemma RequestBytes(r: Request)
    ensures EncodeRequest(r) == Le4(|Flat(RequestPieces(r))|) + Flat(RequestPieces(r))
  {
    var m, pieces := RequestMessage(r), RequestPieces(r);
    RequestTags(r);
    RequestFields(r);
    BodyIs(m, pieces[..1], pieces[1..]);
    assert pieces[..1] + pieces[1..] == pieces;
    FrameIs(Flat(pieces));
  }

  lemma RequestTags(r: Request)
    ensures TagPieces(RequestMessage(r).tags) == RequestPieces(r)[..1]
  {
  }

  lemma RequestFields(r: Request)
    ensures FieldPieces(RequestMessage(r).fields) == RequestPieces(r)[1..]
  {
  }

  lemma ErrorTags(tag: u32, e: DaemonError)
    ensures TagPieces(ErrMessage(tag, e).tags) == [Le4(tag), [1, 0, 0, 0], ErrorPieces(e)[0]]
  {
  }

  lemma ErrorFields(tag: u32, e: DaemonError)
    ensures FieldPieces(ErrMessage(tag, e).fields) == ErrorPieces(e)[1..]
  {
  }

  lemma ErrorIs(tag: u32, e: DaemonError)
    ensures Body(ErrMessage(tag, e)) == Flat([Le4(tag), [1, 0, 0, 0]] + ErrorPieces(e))
  {
    var tags := [Le4(tag), [1, 0, 0, 0], ErrorPieces(e)[0]];
    ErrorTags(tag, e);
    ErrorFields(tag, e);
    BodyIs(ErrMessage(tag, e), tags, ErrorPieces(e)[1..]);
    assert tags + ErrorPieces(e)[1..] == [Le4(tag), [1, 0, 0, 0]] + ErrorPieces(e);
  }

  predicate IsOk(r: Response) {
    match r
    case ReadFileResult(v) => v.Ok?
    case WriteFileResult(v) => v.Ok?
    case ListDirResult(v) => v.Ok?
    case ExecResult(v) => v.Ok?
    case Pong => false
  }

  function TagOf(r: Response): u32 {
    match r
    case ReadFileResult(_) => 0
    case WriteFileResult(_) => 1
    case ListDirResult(_) => 2
    case ExecResult(_) => 3
    case Pong => 4
  }

  lemma OkTags(r: Response)
    requires IsOk(r)
    ensures TagPieces(ResponseMessage(r).tags) == [Le4(TagOf(r)), [0, 0, 0, 0]]
  {
  }

  lemma OkFields(r: Response)
    requires IsOk(r)
    ensures FieldPieces(ResponseMessage(r).fields) == OkPieces(r)
  {
  }

  lemma OkIs(r: Response)
    requires IsOk(r)
    ensures Body(ResponseMessage(r)) == Flat([Le4(TagOf(r)), [0, 0, 0, 0]] + OkPieces(r))
  {
    OkTags(r);
    OkFields(r);
    BodyIs(ResponseMessage(r), [Le4(TagOf(r)), [0, 0, 0, 0]], OkPieces(r));
  }

  lemma PongIs()
    ensures Body(ResponseMessage(Pong)) == Flat([[4, 0, 0, 0]])
  {
    assert TagPieces([4]) == [[4, 0, 0, 0]];
    BodyIs(ResponseMessage(Pong), [[4, 0, 0, 0]], []);
    assert [[4, 0, 0, 0]] + [] == [[4, 0, 0, 0]];
  }

  predicate IsErr(r: Response, e: DaemonError) {
    match r
    case ReadFileResult(v) => v == Err(e)
    case WriteFileResult(v) => v == Err(e)
    case ListDirResult(v) => v == Err(e)
    case ExecResult(v) => v == Err(e)
    case Pong => false
  }

  lemma ErrShape(r: Response, e: DaemonError)
    requires IsErr(r, e)
    ensures ResponseMessage(r) == ErrMessage(TagOf(r), e)
    ensures ResponsePieces(r) == [Le4(TagOf(r)), [1, 0, 0, 0]] + ErrorPieces(e)
  {
  }

  lemma OkShape(r: Response)
    requires IsOk(r)
    ensures ResponsePieces(r) == [Le4(TagOf(r)), [0, 0, 0, 0]] + OkPieces(r)
  {
  }

  lemma Shapes(r: Response)
    ensures r.Pong? || IsOk(r) || exists e :: IsErr(r, e)
  {
    match r
    case ReadFileResult(v) => assert v.Err? ==> IsErr(r, v.error);
    case WriteFileResult(v) => assert v.Err? ==> IsErr(r, v.error);
    case ListDirResult(v) => assert v.Err? ==> IsErr(r, v.error);
    case ExecResult(v) => assert v.Err? ==> IsErr(r, v.error);
    case Pong =>
  }

  lemma BodyOfResponse(r: Response)
    ensures Body(ResponseMessage(r)) == Flat(ResponsePieces(r))
  {
    Shapes(r);
    if r.Pong? {
      PongIs();
    } else if IsOk(r) {
      OkShape(r);
      OkIs(r);
    } else {
      var e :| IsErr(r, e);
      ErrShape(r, e);
      ErrorIs(TagOf(r), e);
    }
  }

  /** The bytes of a response's frame: the body's length, the response's number, which of Ok and Err it
      is, the error's number if it is one, and the fields in order. */
  lemma ResponseBytes(r: Response)
    ensures EncodeResponse(r) == Le4(|Flat(ResponsePieces(r))|) + Flat(ResponsePieces(r))
  {
    BodyOfResponse(r);
    FrameIs(Flat(ResponsePieces(r)));
  }
}
