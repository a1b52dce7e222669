/** Message bodies: the variant tags and record layouts of Request and Response, and the codec
    driven by those layouts. */
module Messages {
  import opened Base
  import opened Wire
  import opened Codec

  /** What follows the variant tags read so far. */
  datatype Step = NextTag | Record(kinds: seq<Kind>) | NoSuchVariant

  type Layout = seq<u32> -> Step

  function KindsOf(fs: seq<Field>): (ks: seq<Kind>)
    ensures |ks| == |fs|
  {
    seq(|fs|, i requires 0 <= i < |fs| => KindOf(fs[i]))
  }

  /** `m` is a value of the type laid out by `layout`. */
  ghost predicate Fills(layout: Layout, m: Message) {
    && (forall k | 0 <= k < |m.tags| :: layout(m.tags[..k]) == NextTag)
    && layout(m.tags) == Record(KindsOf(m.fields))
  }

  // ---- The generic codec ----

  function PutFields(fs: seq<Field>, t: seq<byte>): (b: seq<byte>)
    ensures |t| <= |b|
  {
    if fs == [] then t else PutField(fs[0], PutFields(fs[1..], t))
  }

  function GetFields(ks: seq<Kind>, b: seq<byte>): Parsed<seq<Field>> {
    if ks == [] then Parsed([], b)
    else
      var (f, b1) :- GetField(ks[0], b);
      var (fs, rest) :- GetFields(ks[1..], b1);
      Parsed([f] + fs, rest)
  }

  function PutTags(tags: seq<u32>, t: seq<byte>): (b: seq<byte>)
    ensures |b| == 4 * |tags| + |t|
  {
    if tags == [] then t else PutLe(tags[0], 4, PutTags(tags[1..], t))
  }

  function PutMessage(m: Message, t: seq<byte>): seq<byte> {
    PutTags(m.tags, PutFields(m.fields, t))
  }

  function GetMessage(layout: Layout, tags: seq<u32>, b: seq<byte>): Parsed<Message>
    decreases |b|
  {
    match layout(tags)
    case NoSuchVariant => Malformed
    case Record(kinds) =>
      var (fields, rest) :- GetFields(kinds, b);
      Parsed(Message(tags, fields), rest)
    case NextTag =>
      if |b| < 4 then Malformed else GetMessage(layout, tags + [Value(b, 4)], b[4..])
  }

  lemma {:induction false} GetFieldsOfPut(fs: seq<Field>, t: seq<byte>)
    requires |PutFields(fs, t)| < WORD
    ensures GetFields(KindsOf(fs), PutFields(fs, t)) == Parsed(fs, t)
  {
    if fs != [] {
      GetFieldOfPut(fs[0], PutFields(fs[1..], t));
      GetFieldsOfPut(fs[1..], t);
      assert KindsOf(fs)[1..] == KindsOf(fs[1..]);
      assert [fs[0]] + fs[1..] == fs;
    }
  }

  lemma {:induction false} PutFieldsOfGet(ks: seq<Kind>, b: seq<byte>)
    requires GetFields(ks, b).Parsed?
    ensures KindsOf(GetFields(ks, b).value) == ks
    ensures PutFields(GetFields(ks, b).value, GetFields(ks, b).rest) == b
  {
    if ks != [] {
      PutFieldOfGet(ks[0], b);
      var b1 := GetField(ks[0], b).rest;
      PutFieldsOfGet(ks[1..], b1);
      var fs := GetFields(ks, b).value;
      assert fs[1..] == GetFields(ks[1..], b1).value;
      assert KindsOf(fs) == [KindOf(fs[0])] + KindsOf(fs[1..]);
    }
  }

  /** Reading `m` back after the first `k` of its tags. */
  lemma {:induction false} GetMessageOfPut(layout: Layout, m: Message, k: nat, t: seq<byte>)
    requires Fills(layout, m) && k <= |m.tags|
    requires |PutTags(m.tags[k..], PutFields(m.fields, t))| < WORD
    ensures GetMessage(layout, m.tags[..k], PutTags(m.tags[k..], PutFields(m.fields, t))) == Parsed(m, t)
    decreases |m.tags| - k
  {
    var fields := PutFields(m.fields, t);
    if k == |m.tags| {
      assert m.tags[..k] == m.tags;
      GetFieldsOfPut(m.fields, t);
    } else {
      var rest := m.tags[k + 1..];
      GetLeOfPut(m.tags[k], 4, PutTags(rest, fields));
      assert m.tags[k..][1..] == rest;
      assert m.tags[..k] + [m.tags[k]] == m.tags[..k + 1];
      GetMessageOfPut(layout, m, k + 1, t);
    }
  }

  /** Whatever parses is laid out as `layout` says and is the encoding of what was read. */
  lemma {:induction false} PutMessageOfGet(layout: Layout, tags: seq<u32>, b: seq<byte>)
    requires GetMessage(layout, tags, b).Parsed?
    requires forall k | 0 <= k < |tags| :: layout(tags[..k]) == NextTag
    ensures var r := GetMessage(layout, tags, b);
            && Fills(layout, r.value)
            && tags <= r.value.tags
            && PutTags(r.value.tags[|tags|..], PutFields(r.value.fields, r.rest)) == b
    decreases |b|
  {
    match layout(tags)
    case NoSuchVariant =>
    case Record(kinds) =>
      PutFieldsOfGet(kinds, b);
    case NextTag =>
      var more := tags + [Value(b, 4)];
      PutLeOfGet(4, b);
      assert forall k | 0 <= k < |more| :: more[..k] == tags[..k];
      assert tags[..|tags|] == tags;
      PutMessageOfGet(layout, more, b[4..]);
      var r := GetMessage(layout, more, b[4..]);
      assert r.value.tags[|tags|..][1..] == r.value.tags[|more|..];
  }

  // ---- Requests ----

  function RequestLayout(tags: seq<u32>): Step {
    if tags == [] then NextTag
    else if |tags| > 1 then NoSuchVariant
    else
      match tags[0]
      case 0 => Record([AText, AU64])
      case 1 => Record([AText, ABlob, AnOptionI64])
      case 2 => Record([AText])
      case 3 => Record([AText, AU32, AU64])
      case 4 => Record([])
      case _ => NoSuchVariant
  }

  function RequestMessage(r: Request): Message {
    match r
    case ReadFile(q) => Message([0], [Text(q.path), U64(q.maxBytes)])
    case WriteFile(q) => Message([1], [Text(q.path), Blob(q.data), OptionI64(q.ifMtimeMatches)])
    case ListDir(q) => Message([2], [Text(q.path)])
    case Exec(q) => Message([3], [Text(q.command), U32(q.timeoutMs), U64(q.maxOutputBytes)])
    case Ping => Message([4], [])
  }

  lemma FieldKinds(f: seq<Field>)
    ensures forall i | 0 <= i < |f| :: KindOf(f[i]) == KindsOf(f)[i]
  {
  }

  function RequestOf(m: Message): Request
    requires Fills(RequestLayout, m)
  {
    FieldKinds(m.fields);
    var f := m.fields;
    match m.tags[0]
    case 0 => ReadFile(ReadFileReq(f[0].text, f[1].u64))
    case 1 => WriteFile(WriteFileReq(f[0].text, f[1].blob, f[2].optionI64))
    case 2 => ListDir(ListDirReq(f[0].text))
    case 3 => Exec(ExecReq(f[0].text, f[1].u32, f[2].u64))
    case _ => Ping
  }

  lemma RequestFills(r: Request)
    ensures Fills(RequestLayout, RequestMessage(r))
    ensures RequestOf(RequestMessage(r)) == r
  {
    var m := RequestMessage(r);
    assert m.tags[..0] == [];
  }

  lemma RequestMessageOf(m: Message)
    requires Fills(RequestLayout, m)
    ensures RequestMessage(RequestOf(m)) == m
  {
    FieldKinds(m.fields);
    assert m.tags == [m.tags[0]];
    assert RequestMessage(RequestOf(m)).fields == m.fields;
  }

  // ---- Responses ----

  function ErrorLayout(tag: u32): Step {
    match tag
    case 4 => Record([AU64, AU64])
    case 5 => Record([])
    case 6 => Record([AnI64, AnI64])
    case _ => if tag < 8 then Record([AText]) else NoSuchVariant
  }

  /** The success record of the response with tag `tag`. */
  function OkLayout(tag: u32): Step {
    match tag
    case 0 => Record([ABlob, AnI64, AU64])
    case 1 => Record([AnI64])
    case 2 => Record([AnEntries])
    case 3 => Record([ABlob, ABlob, AnOptionI32, AU32, AFlag, AFlag])
    case _ => NoSuchVariant
  }

  /** Response tag; then for all but Pong the Result tag; then for Err the error's tag. */
  function ResponseLayout(tags: seq<u32>): Step {
    match |tags|
    case 0 => NextTag
    case 1 => if tags[0] < 4 then NextTag else if tags[0] == 4 then Record([]) else NoSuchVariant
    case 2 =>
      if tags[0] >= 4 then NoSuchVariant
      else if tags[1] == 0 then OkLayout(tags[0])
      else if tags[1] == 1 then NextTag
      else NoSuchVariant
    case 3 => if tags[0] < 4 && tags[1] == 1 then ErrorLayout(tags[2]) else NoSuchVariant
    case _ => NoSuchVariant
  }

  function ErrorMessage(e: DaemonError): Message {
    match e
    case PathNotAllowed(path) => Message([0], [Text(path)])
    case NotFound(path) => Message([1], [Text(path)])
    case PermissionDenied(message) => Message([2], [Text(message)])
    case Io(message) => Message([3], [Text(message)])
    case SizeLimitExceeded(requested, max) => Message([4], [U64(requested), U64(max)])
    case Timeout => Message([5], [])
    case MtimeMismatch(expected, actual) => Message([6], [I64(expected), I64(actual)])
    case Other(message) => Message([7], [Text(message)])
  }

  function ResponseMessage(r: Response): Message {
    match r
    case ReadFileResult(Ok(v)) => Message([0, 0], [Blob(v.data), I64(v.mtime), U64(v.size)])
    case WriteFileResult(Ok(v)) => Message([1, 0], [I64(v.mtime)])
    case ListDirResult(Ok(v)) => Message([2, 0], [Entries(v.entries)])
    case ExecResult(Ok(v)) =>
      Message([3, 0], [Blob(v.stdout), Blob(v.stderr), OptionI32(v.exitCode), U32(v.durationMs),
                       Flag(v.timedOut), Flag(v.outputTruncated)])
    case ReadFileResult(Err(e)) => ErrMessage(0, e)
    case WriteFileResult(Err(e)) => ErrMessage(1, e)
    case ListDirResult(Err(e)) => ErrMessage(2, e)
    case ExecResult(Err(e)) => ErrMessage(3, e)
    case Pong => Message([4], [])
  }

  function ErrMessage(tag: u32, e: DaemonError): Message {
    Message([tag, 1] + ErrorMessage(e).tags, ErrorMessage(e).fields)
  }

  function ErrorOf(tag: u32, f: seq<Field>): DaemonError
    requires ErrorLayout(tag) == Record(KindsOf(f))
  {
    FieldKinds(f);
    match tag
    case 0 => PathNotAllowed(f[0].text)
    case 1 => NotFound(f[0].text)
    case 2 => PermissionDenied(f[0].text)
    case 3 => Io(f[0].text)
    case 4 => SizeLimitExceeded(f[0].u64, f[1].u64)
    case 5 => Timeout
    case 6 => MtimeMismatch(f[0].i64, f[1].i64)
    case _ => Other(f[0].text)
  }

  function ResponseOf(m: Message): Response
    requires Fills(ResponseLayout, m)
  {
    FieldKinds(m.fields);
    var f := m.fields;
    if |m.tags| == 1 then Pong
    else if |m.tags| == 2 then
      match m.tags[0]
      case 0 => ReadFileResult(Ok(ReadFileResp(f[0].blob, f[1].i64, f[2].u64)))
      case 1 => WriteFileResult(Ok(WriteFileResp(f[0].i64)))
      case 2 => ListDirResult(Ok(ListDirResp(f[0].entries)))
      case _ => ExecResult(Ok(ExecResp(f[0].blob, f[1].blob, f[2].optionI32, f[3].u32, f[4].flag, f[5].flag)))
    else
      var e := ErrorOf(m.tags[2], f);
      match m.tags[0]
      case 0 => ReadFileResult(Err(e))
      case 1 => WriteFileResult(Err(e))
      case 2 => ListDirResult(Err(e))
      case _ => ExecResult(Err(e))
  }

  lemma ErrorRoundTrip(e: DaemonError)
    ensures ErrorLayout(ErrorMessage(e).tags[0]) == Record(KindsOf(ErrorMessage(e).fields))
    ensures |ErrorMessage(e).tags| == 1
    ensures ErrorOf(ErrorMessage(e).tags[0], ErrorMessage(e).fields) == e
  {
  }

  lemma ErrorMessageOf(tag: u32, f: seq<Field>)
    requires ErrorLayout(tag) == Record(KindsOf(f))
    ensures ErrorMessage(ErrorOf(tag, f)) == Message([tag], f)
  {
    FieldKinds(f);
    assert ErrorMessage(ErrorOf(tag, f)).fields == f;
  }

  lemma ResponseFills(r: Response)
    ensures Fills(ResponseLayout, ResponseMessage(r))
    ensures ResponseOf(ResponseMessage(r)) == r
  {
    var m := ResponseMessage(r);
    if |m.tags| == 3 {
      var e := if r.ReadFileResult? then r.readFile.error
               else if r.WriteFileResult? then r.writeFile.error
               else if r.ListDirResult? then r.listDir.error
               else r.exec.error;
      ErrorRoundTrip(e);
    }
  }

  lemma ResponseMessageOf(m: Message)
    requires Fills(ResponseLayout, m)
    ensures ResponseMessage(ResponseOf(m)) == m
  {
    FieldKinds(m.fields);
    assert m.tags[..0] == [];
    if |m.tags| > 1 {
      assert m.tags[..1] == [m.tags[0]];
    }
    if |m.tags| == 3 {
      ErrorMessageOf(m.tags[2], m.fields);
    }
    assert ResponseMessage(ResponseOf(m)).tags == m.tags;
    assert ResponseMessage(ResponseOf(m)).fields == m.fields;
  }
}
