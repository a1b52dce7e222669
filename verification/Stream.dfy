/** What a byte stream of requests means: parse it whole, dispatch each request, concatenate the
    responses. The server loop in Rpc is proved against this, and the one-shot tunnel handler is
    compared with it. */
module Stream {
  import opened Base
  import opened Wire
  import opened Codec
  import opened Messages
  import opened Framing

  /** One call of a reader: no bytes means end of stream. */
  datatype Read = Got(bytes: seq<byte>) | Failed

  datatype Outcome = Clean | UnexpectedEof | InvalidData | ReadFailed | WriteFailed

  datatype Run<S> = Run(state: S, output: seq<byte>, outcome: Outcome)

  type Dispatcher<!S> = (S, Request) -> (S, Response)

  /** All bytes a reader delivers before it ends or fails. */
  function Delivered(calls: seq<Read>): seq<byte> {
    if calls == [] || calls[0].Failed? || calls[0].bytes == [] then []
    else calls[0].bytes + Delivered(calls[1..])
  }

  predicate Breaks(calls: seq<Read>) {
    calls != [] && (calls[0].Failed? || (calls[0].bytes != [] && Breaks(calls[1..])))
  }

  // ---- The specification ----

  function Parse(bytes: seq<byte>): (seq<Request>, seq<byte>)
    decreases |bytes|
  {
    match DecodeRequest(bytes)
    case Decoded(r, n) =>
      var (rs, rest) := Parse(bytes[n..]);
      ([r] + rs, rest)
    case _ => ([], bytes)
  }

  function DispatchAll<S>(step: Dispatcher<S>, s: S, rs: seq<Request>): (r: (S, seq<Response>))
    ensures |r.1| == |rs|
  {
    if rs == [] then (s, [])
    else
      var (s', resp) := step(s, rs[0]);
      var (end, resps) := DispatchAll(step, s', rs[1..]);
      (end, [resp] + resps)
  }

  function EncodeRequests(rs: seq<Request>): seq<byte> {
    if rs == [] then [] else EncodeRequest(rs[0]) + EncodeRequests(rs[1..])
  }

  function EncodeResponses(rs: seq<Response>): seq<byte> {
    if rs == [] then [] else EncodeResponse(rs[0]) + EncodeResponses(rs[1..])
  }

  /** How a stream ends whose unparsed bytes are `rest`. */
  function Ending(rest: seq<byte>, broken: bool): Outcome {
    if DecodeRequest(rest).BadBody? then InvalidData
    else if broken then ReadFailed
    else if rest == [] then Clean
    else UnexpectedEof
  }

  function Expected<S>(step: Dispatcher<S>, s: S, bytes: seq<byte>, broken: bool): Run<S> {
    var (rs, rest) := Parse(bytes);
    var (end, resps) := DispatchAll(step, s, rs);
    Run(end, EncodeResponses(resps), Ending(rest, broken))
  }

  // ---- An output that may fail ----

  /** What an output will still take: so many bytes and so many flushes; None is no limit. */
  datatype Room = Room(bytes: Option<nat>, flushes: Option<nat>)

  const NO_LIMIT := Room(None, None)

  function Minus(limit: Option<nat>, n: nat): Option<nat> {
    if limit.None? || limit.value < n then limit else Some(limit.value - n)
  }

  predicate Within(n: nat, limit: Option<nat>) {
    limit.None? || n <= limit.value
  }

  /** What is left after a frame of `n` bytes has been written and flushed. */
  function Less(room: Room, n: nat): Room {
    Room(Minus(room.bytes, n), Minus(room.flushes, 1))
  }

  function Cut(bytes: seq<byte>, limit: Option<nat>): seq<byte> {
    if Within(|bytes|, limit) then bytes else bytes[..limit.value]
  }

  predicate Takes(room: Room, n: nat) {
    Within(n, room.bytes) && Within(1, room.flushes)
  }

  /** Dispatching and writing until the output takes no more, and whether it took everything. The
      request whose response does not get through has been carried out. */
  function DispatchInto<S>(step: Dispatcher<S>, s: S, rs: seq<Request>, room: Room): (S, seq<byte>, bool) {
    if rs == [] then (s, [], true)
    else
      var (s', resp) := step(s, rs[0]);
      var frame := EncodeResponse(resp);
      if Takes(room, |frame|) then
        var (end, output, ok) := DispatchInto(step, s', rs[1..], Less(room, |frame|));
        (end, frame + output, ok)
      else (s', Cut(frame, room.bytes), false)
  }

  /** The whole run with an output that has `room`. */
  function ExpectedInto<S>(step: Dispatcher<S>, s: S, bytes: seq<byte>, broken: bool, room: Room): Run<S> {
    var (rs, rest) := Parse(bytes);
    var (end, output, ok) := DispatchInto(step, s, rs, room);
    Run(end, output, if ok then Ending(rest, broken) else WriteFailed)
  }

  lemma ExpectedIntoStep<S>(step: Dispatcher<S>, s: S, bytes: seq<byte>, broken: bool, room: Room)
    requires DecodeRequest(bytes).Decoded?
    ensures var v := DecodeRequest(bytes);
            var (s', resp) := step(s, v.value);
            var frame := EncodeResponse(resp);
            ExpectedInto(step, s, bytes, broken, room)
            == if Takes(room, |frame|) then
                 var r := ExpectedInto(step, s', bytes[v.consumed..], broken, Less(room, |frame|));
                 Run(r.state, frame + r.output, r.outcome)
               else Run(s', Cut(frame, room.bytes), WriteFailed)
  {
    var v := DecodeRequest(bytes);
    var (rs, rest) := Parse(bytes[v.consumed..]);
    var all := [v.value] + rs;
    assert Parse(bytes) == (all, rest);
    assert all[0] == v.value && all[1..] == rs;
  }

  /** The responses that are written at all: the one whose flush fails is the last. */
  function Attempted(resps: seq<Response>, flushes: Option<nat>): seq<Response> {
    if Within(|resps|, flushes) then resps else resps[..flushes.value + 1]
  }

  lemma CutInFront(a: seq<byte>, b: seq<byte>, limit: Option<nat>)
    requires Within(|a|, limit)
    ensures Cut(a + b, limit) == a + Cut(b, Minus(limit, |a|))
  {
  }

  lemma AttemptedStep(resp: Response, resps: seq<Response>, flushes: Option<nat>)
    ensures Attempted([resp] + resps, flushes)
            == [resp] + if Within(1, flushes) then Attempted(resps, Minus(flushes, 1)) else []
  {
  }

  lemma EncodeStep(resp: Response, resps: seq<Response>)
    ensures EncodeResponses([resp] + resps) == EncodeResponse(resp) + EncodeResponses(resps)
  {
    assert ([resp] + resps)[1..] == resps;
  }

  lemma WithinStep(a: nat, b: nat, limit: Option<nat>)
    ensures Within(a + b, limit) <==> Within(a, limit) && Within(b, Minus(limit, a))
  {
  }

  /** The next response gets through. */
  lemma OneMoreTaken(resp: Response, resps: seq<Response>, room: Room, output: seq<byte>)
    requires var left := Less(room, |EncodeResponse(resp)|);
             Takes(room, |EncodeResponse(resp)|) && output == Cut(EncodeResponses(Attempted(resps, left.flushes)), left.bytes)
    ensures EncodeResponse(resp) + output == Cut(EncodeResponses(Attempted([resp] + resps, room.flushes)), room.bytes)
  {
    var tail := Attempted(resps, Minus(room.flushes, 1));
    AttemptedStep(resp, resps, room.flushes);
    EncodeStep(resp, tail);
    CutInFront(EncodeResponse(resp), EncodeResponses(tail), room.bytes);
  }

  lemma CutShort(a: seq<byte>, b: seq<byte>, limit: Option<nat>)
    requires !Within(|a|, limit)
    ensures Cut(a + b, limit) == Cut(a, limit)
  {
    assert (a + b)[..limit.value] == a[..limit.value];
  }

  /** The next response does not. */
  lemma OneMoreFails(resp: Response, resps: seq<Response>, room: Room)
    requires !Takes(room, |EncodeResponse(resp)|)
    ensures Cut(EncodeResponse(resp), room.bytes) == Cut(EncodeResponses(Attempted([resp] + resps, room.flushes)), room.bytes)
  {
    AttemptedStep(resp, resps, room.flushes);
    if Within(1, room.flushes) {
      var tail := Attempted(resps, Minus(room.flushes, 1));
      EncodeStep(resp, tail);
      CutShort(EncodeResponse(resp), EncodeResponses(tail), room.bytes);
    } else {
      EncodeStep(resp, []);
      assert [resp] + [] == [resp] && EncodeResponse(resp) + [] == EncodeResponse(resp);
    }
  }

  lemma {:induction false} DispatchIntoIs<S>(step: Dispatcher<S>, s: S, rs: seq<Request>, room: Room)
    ensures var (end, resps) := DispatchAll(step, s, rs);
            var (now, output, ok) := DispatchInto(step, s, rs, room);
            && output == Cut(EncodeResponses(Attempted(resps, room.flushes)), room.bytes)
            && (ok <==> Within(|EncodeResponses(resps)|, room.bytes) && Within(|resps|, room.flushes))
            && (ok ==> now == end)
  {
    if rs != [] {
      var (s', resp) := step(s, rs[0]);
      var frame, resps := EncodeResponse(resp), DispatchAll(step, s', rs[1..]).1;
      EncodeStep(resp, resps);
      WithinStep(|frame|, |EncodeResponses(resps)|, room.bytes);
      WithinStep(1, |resps|, room.flushes);
      if Takes(room, |frame|) {
        DispatchIntoIs(step, s', rs[1..], Less(room, |frame|));
        OneMoreTaken(resp, resps, room, DispatchInto(step, s', rs[1..], Less(room, |frame|)).1);
      } else {
        OneMoreFails(resp, resps, room);
      }
    }
  }

  lemma {:induction false} EncodeConcat(a: seq<Response>, b: seq<Response>)
    ensures EncodeResponses(a + b) == EncodeResponses(a) + EncodeResponses(b)
  {
    if a == [] {
      assert a + b == b;
    } else {
      assert a + b == [a[0]] + (a[1..] + b);
      EncodeConcat(a[1..], b);
      EncodeStep(a[0], a[1..] + b);
      Assoc(EncodeResponse(a[0]), EncodeResponses(a[1..]), EncodeResponses(b));
    }
  }

  lemma AttemptedIsPrefix(resps: seq<Response>, flushes: Option<nat>)
    ensures EncodeResponses(Attempted(resps, flushes)) <= EncodeResponses(resps)
  {
    if !Within(|resps|, flushes) {
      var k := flushes.value + 1;
      assert resps == resps[..k] + resps[k..];
      EncodeConcat(resps[..k], resps[k..]);
    }
  }

  /** An output with room for everything makes no difference; one that fails, writing or flushing,
      has taken as much as it had room for of the responses up to the one that fails. */
  lemma OutputIsPrefix<S>(step: Dispatcher<S>, s: S, bytes: seq<byte>, broken: bool, room: Room)
    ensures var all, r := Expected(step, s, bytes, broken), ExpectedInto(step, s, bytes, broken, room);
            var resps := DispatchAll(step, s, Parse(bytes).0).1;
            if Within(|all.output|, room.bytes) && Within(|resps|, room.flushes) then r == all
            else r.outcome == WriteFailed && r.output == Cut(EncodeResponses(Attempted(resps, room.flushes)), room.bytes)
  {
    DispatchIntoIs(step, s, Parse(bytes).0, room);
  }

  /** What an output has taken is a prefix of all the responses: as long as its room if that is what
      stopped it, and up to the response whose flush failed if that did. */
  lemma OutputIsPartOfAll<S>(step: Dispatcher<S>, s: S, bytes: seq<byte>, broken: bool, room: Room)
    ensures var all, r := Expected(step, s, bytes, broken), ExpectedInto(step, s, bytes, broken, room);
            && r.output <= all.output
            && (room.flushes.None? && room.bytes.Some? && room.bytes.value < |all.output| ==>
                  |r.output| == room.bytes.value)
            && (room.bytes.None? && room.flushes.Some? && room.flushes.value < |Parse(bytes).0| ==>
                  r.output == EncodeResponses(DispatchAll(step, s, Parse(bytes).0).1[..room.flushes.value + 1]))
  {
    var resps := DispatchAll(step, s, Parse(bytes).0).1;
    OutputIsPrefix(step, s, bytes, broken, room);
    AttemptedIsPrefix(resps, room.flushes);
    CutIsPrefix(EncodeResponses(Attempted(resps, room.flushes)), EncodeResponses(resps), room.bytes);
  }

  lemma CutIsPrefix(a: seq<byte>, b: seq<byte>, limit: Option<nat>)
    requires a <= b
    ensures Cut(a, limit) <= b
    ensures limit.Some? && limit.value < |a| ==> |Cut(a, limit)| == limit.value
  {
  }

  // ---- Its properties ----

  lemma RequestVerdictIsStable(buf: seq<byte>, t: seq<byte>)
    ensures !DecodeRequest(buf).NeedMore? ==> DecodeRequest(buf + t) == DecodeRequest(buf)
  {
    VerdictIsStable(RequestLayout, buf, t);
  }

  lemma ExpectedStep<S>(step: Dispatcher<S>, s: S, bytes: seq<byte>, broken: bool)
    requires DecodeRequest(bytes).Decoded?
    ensures var v := DecodeRequest(bytes);
            var (s', resp) := step(s, v.value);
            var r := Expected(step, s', bytes[v.consumed..], broken);
            Expected(step, s, bytes, broken) == Run(r.state, EncodeResponse(resp) + r.output, r.outcome)
  {
    var v := DecodeRequest(bytes);
    var (rs, rest) := Parse(bytes[v.consumed..]);
    var all := [v.value] + rs;
    assert Parse(bytes) == (all, rest);
    assert all[0] == v.value && all[1..] == rs;
    var (s', resp) := step(s, v.value);
    var (end, resps) := DispatchAll(step, s', rs);
    assert ([resp] + resps)[1..] == resps;
  }

  lemma ParseStep(r: Request, t: seq<byte>)
    requires RequestFits(r)
    ensures Parse(EncodeRequest(r) + t) == ([r] + Parse(t).0, Parse(t).1)
  {
    RequestRoundTrip(r, t);
    assert (EncodeRequest(r) + t)[|EncodeRequest(r)|..] == t;
  }

  /** Parsing peels whole frames off the front, in order, until no request can be decoded. */
  lemma {:induction false} ParseOfEncoded(rs: seq<Request>, rest: seq<byte>)
    requires forall r | r in rs :: RequestFits(r)
    requires !DecodeRequest(rest).Decoded?
    ensures Parse(EncodeRequests(rs) + rest) == (rs, rest)
  {
    if rs == [] {
      assert EncodeRequests(rs) + rest == rest;
    } else {
      var t := EncodeRequests(rs[1..]);
      Assoc(EncodeRequest(rs[0]), t, rest);
      ParseStep(rs[0], t + rest);
      ParseOfEncoded(rs[1..], rest);
      assert [rs[0]] + rs[1..] == rs;
    }
  }

  /** A client that sends whole requests gets every response, in order, and a clean end. */
  lemma CleanSession<S>(step: Dispatcher<S>, s: S, rs: seq<Request>)
    requires forall r | r in rs :: RequestFits(r)
    ensures var (end, resps) := DispatchAll(step, s, rs);
            Expected(step, s, EncodeRequests(rs), false) == Run(end, EncodeResponses(resps), Clean)
  {
    ParseOfEncoded(rs, []);
    assert EncodeRequests(rs) + [] == EncodeRequests(rs);
  }

  function ParseResponses(bytes: seq<byte>): (seq<Response>, seq<byte>)
    decreases |bytes|
  {
    match DecodeResponse(bytes)
    case Decoded(r, n) =>
      var (rs, rest) := ParseResponses(bytes[n..]);
      ([r] + rs, rest)
    case _ => ([], bytes)
  }

  /** The client reads back exactly the responses that were emitted. */
  lemma {:induction false} ClientReadsResponses(resps: seq<Response>)
    requires forall r | r in resps :: ResponseFits(r)
    ensures ParseResponses(EncodeResponses(resps)) == (resps, [])
  {
    if resps != [] {
      var t := EncodeResponses(resps[1..]);
      ResponseRoundTrip(resps[0], t);
      assert EncodeResponses(resps)[|EncodeResponse(resps[0])|..] == t;
      ClientReadsResponses(resps[1..]);
      assert [resps[0]] + resps[1..] == resps;
    }
  }

  /** A stream cut anywhere inside its last frame is answered up to that frame, then ends in
      UnexpectedEof. */
  lemma CutSession<S>(step: Dispatcher<S>, s: S, rs: seq<Request>, last: Request, k: nat)
    requires forall r | r in rs :: RequestFits(r)
    requires RequestFits(last) && 0 < k < |EncodeRequest(last)|
    ensures var (end, resps) := DispatchAll(step, s, rs);
            Expected(step, s, EncodeRequests(rs) + EncodeRequest(last)[..k], false)
            == Run(end, EncodeResponses(resps), UnexpectedEof)
  {
    RequestRoundTrip(last, []);
    ParseOfEncoded(rs, EncodeRequest(last)[..k]);
  }

  /** A read that fails, between frames or inside one, ends the session with ReadFailed after the
      responses to every whole frame. */
  lemma BrokenSession<S>(step: Dispatcher<S>, s: S, rs: seq<Request>, last: Request, k: nat)
    requires forall r | r in rs :: RequestFits(r)
    requires RequestFits(last) && k < |EncodeRequest(last)|
    ensures var (end, resps) := DispatchAll(step, s, rs);
            Expected(step, s, EncodeRequests(rs) + EncodeRequest(last)[..k], true)
            == Run(end, EncodeResponses(resps), ReadFailed)
  {
    RequestRoundTrip(last, []);
    ParseOfEncoded(rs, EncodeRequest(last)[..k]);
  }

  /** A frame whose body is no request ends the session with InvalidData, after the responses to
      everything before it and regardless of what follows it. */
  lemma BadFrameSession<S>(step: Dispatcher<S>, s: S, rs: seq<Request>, bad: seq<byte>, t: seq<byte>, broken: bool)
    requires forall r | r in rs :: RequestFits(r)
    requires DecodeRequest(bad).BadBody?
    ensures var (end, resps) := DispatchAll(step, s, rs);
            Expected(step, s, EncodeRequests(rs) + (bad + t), broken)
            == Run(end, EncodeResponses(resps), InvalidData)
  {
    RequestVerdictIsStable(bad, t);
    ParseOfEncoded(rs, bad + t);
  }

  // ---- The tunnel's stream handler ----

  const MAX_TUNNEL_BODY: nat := 0x400_0000

  datatype StreamEnd = Answered(output: seq<byte>) | TooLarge | Truncated | Undecodable

  /** One RPC on its own stream, read with exact-length reads. */
  function HandleStream<S>(step: Dispatcher<S>, s: S, bytes: seq<byte>): (S, StreamEnd) {
    if |bytes| < 4 then (s, Truncated)
    else
      var len := Value(bytes, 4);
      if len > MAX_TUNNEL_BODY then (s, TooLarge)
      else if |bytes| - 4 < len then (s, Truncated)
      else
        match GetMessage(RequestLayout, [], bytes[4..4 + len])
        case Malformed => (s, Undecodable)
        case Parsed(m, _) =>
          PutMessageOfGet(RequestLayout, [], bytes[4..4 + len]);
          var (s', resp) := step(s, RequestOf(m));
          (s', Answered(EncodeResponse(resp)))
  }

  /** The second framing path agrees with the first on everything but its size limit: it answers
      exactly the streams whose first frame decodes and declares at most 64 MiB, with the response
      the server loop would emit first, and it never changes the state otherwise. */
  lemma TunnelAgreesWithServer<S>(step: Dispatcher<S>, s: S, bytes: seq<byte>)
    ensures var (s', end) := HandleStream(step, s, bytes);
            var v := DecodeRequest(bytes);
            && (end.Answered? <==> v.Decoded? && v.consumed <= 4 + 67_108_864)
            && (end.Answered? ==>
                  && (s', end.output) == (step(s, v.value).0, EncodeResponse(step(s, v.value).1))
                  && end.output <= Expected(step, s, bytes, false).output)
            && (end.Undecodable? ==> v.BadBody?)
            && (end.Truncated? ==> v.NeedMore?)
            && (end.TooLarge? <==> 4 <= |bytes| && Value(bytes, 4) > 67_108_864)
            && (!end.Answered? ==> s' == s)
  {
    if DecodeRequest(bytes).Decoded? {
      ExpectedStep(step, s, bytes, false);
    }
  }
}
