/** The server loop: reads chunks, decodes frames from a buffer, dispatches, writes frames back. */
module Rpc {
  import opened Base
  import opened Wire
  import opened Messages
  import opened Framing
  import opened Stream
  import opened Handlers

  function Stepper(site: Site, oracle: Oracle): Dispatcher<World> {
    (w, r) => Handlers.Step(site, oracle, w, r)
  }

  /** `step` is what the daemon of this site does with a request. */
  ghost predicate Drives(step: Dispatcher<World>, site: Site, oracle: Oracle) {
    forall w, r {:trigger Handlers.Step(site, oracle, w, r)} :: step(w, r) == Handlers.Step(site, oracle, w, r)
  }

  lemma StepperDrives(site: Site, oracle: Oracle)
    ensures Drives(Stepper(site, oracle), site, oracle)
  {
  }

  /** An output that fails once it has taken so many bytes or so many flushes, if ever. */
  class Sink {
    const room: Room
    var written: seq<byte>
    var flushed: nat

    constructor (room: Room)
      ensures this.room == room && written == [] && flushed == 0
    {
      this.room, written, flushed := room, [], 0;
    }

    ghost predicate Valid()
      reads this
    {
      Within(|written|, room.bytes) && Within(flushed, room.flushes)
    }

    ghost function Left(): Room
      reads this
    {
      Room(Minus(room.bytes, |written|), Minus(room.flushes, flushed))
    }

    /** All of the frame, or as much of it as there is room for. */
    method WriteAll(frame: seq<byte>) returns (ok: bool)
      requires Valid()
      modifies `written
      ensures Valid() && (ok <==> Within(|frame|, old(Left()).bytes))
      ensures written == old(written) + Cut(frame, old(Left()).bytes)
    {
      ok := Within(|written| + |frame|, room.bytes);
      written := written + if ok then frame else frame[..room.bytes.value - |written|];
    }

    method Flush() returns (ok: bool)
      requires Valid()
      modifies `flushed
      ensures Valid() && (ok <==> Within(1, old(Left()).flushes))
      ensures flushed == old(flushed) + if ok then 1 else 0
    {
      ok := Within(flushed + 1, room.flushes);
      if ok {
        flushed := flushed + 1;
      }
    }

    /** Writes a frame and flushes. */
    method Put(frame: seq<byte>) returns (ok: bool)
      requires Valid()
      modifies this
      ensures Valid() && (ok <==> Takes(old(Left()), |frame|))
      ensures written == old(written) + Cut(frame, old(Left()).bytes)
      ensures ok ==> Left() == Less(old(Left()), |frame|)
    {
      ok := WriteAll(frame);
      if ok {
        ok := Flush();
      }
    }
  }

  /** What is still to happen: the run from `s` on the buffered bytes and everything unread, into
      the room that is left. */
  ghost function Remaining(step: Dispatcher<World>, s: World, buf: seq<byte>, calls: seq<Read>, left: Room): Run<World> {
    ExpectedInto(step, s, buf + Delivered(calls), Breaks(calls), left)
  }

  /** The whole run is what has been written so far and what is still to happen. */
  ghost predicate Continues(whole: Run<World>, written: seq<byte>, step: Dispatcher<World>, s: World,
                            buf: seq<byte>, calls: seq<Read>, left: Room)
  {
    var rest := Remaining(step, s, buf, calls, left);
    whole == Run(rest.state, written + rest.output, rest.outcome)
  }

  /** What carrying out `request` and writing its response does to the state and the output. */
  ghost predicate Responded(step: Dispatcher<World>, s: World, request: Request, written: seq<byte>, left: Room,
                            s': World, written': seq<byte>, left': Room, ok: bool)
  {
    var (next, resp) := step(s, request);
    var frame := EncodeResponse(resp);
    && s' == next && written' == written + Cut(frame, left.bytes)
    && (ok <==> Takes(left, |frame|)) && (ok ==> left' == Less(left, |frame|))
  }

  lemma FrameServed(whole: Run<World>, written: seq<byte>, step: Dispatcher<World>, s: World,
                    buf: seq<byte>, calls: seq<Read>, left: Room,
                    s': World, written': seq<byte>, left': Room, ok: bool)
    requires Continues(whole, written, step, s, buf, calls, left) && DecodeRequest(buf).Decoded?
    requires Responded(step, s, DecodeRequest(buf).value, written, left, s', written', left', ok)
    ensures if ok then Continues(whole, written', step, s', buf[DecodeRequest(buf).consumed..], calls, left')
            else whole == Run(s', written', WriteFailed)
  {
    var v := DecodeRequest(buf);
    var n := v.consumed;
    RequestVerdictIsStable(buf, Delivered(calls));
    assert (buf + Delivered(calls))[n..] == buf[n..] + Delivered(calls);
    ExpectedIntoStep(step, s, buf + Delivered(calls), Breaks(calls), left);
    if ok {
      var frame := EncodeResponse(step(s, v.value).1);
      Assoc(written, frame, Remaining(step, s', buf[n..], calls, left').output);
    }
  }

  lemma ChunkBuffered(whole: Run<World>, written: seq<byte>, step: Dispatcher<World>, s: World,
                      buf: seq<byte>, calls: seq<Read>, left: Room)
    requires Continues(whole, written, step, s, buf, calls, left)
    requires calls != [] && calls[0].Got? && calls[0].bytes != []
    ensures Continues(whole, written, step, s, buf + calls[0].bytes, calls[1..], left)
  {
    Assoc(buf, calls[0].bytes, Delivered(calls[1..]));
  }

  /** Nothing more can be decoded, or nothing more will be read. */
  lemma StreamOver(whole: Run<World>, written: seq<byte>, step: Dispatcher<World>, s: World,
                   buf: seq<byte>, calls: seq<Read>, left: Room)
    requires Continues(whole, written, step, s, buf, calls, left)
    requires DecodeRequest(buf).BadBody? || (DecodeRequest(buf).NeedMore? && Delivered(calls) == [])
    ensures whole == Run(s, written, Ending(buf, Breaks(calls)))
  {
    RequestVerdictIsStable(buf, Delivered(calls));
    assert DecodeRequest(buf).NeedMore? ==> buf + Delivered(calls) == buf;
    assert written + [] == written;
  }

  lemma Begins(whole: Run<World>, written: seq<byte>, step: Dispatcher<World>, s: World,
               buf: seq<byte>, calls: seq<Read>, room: Room, left: Room)
    requires whole == ExpectedInto(step, s, Delivered(calls), Breaks(calls), room)
    requires written == [] && buf == [] && left == Room(Minus(room.bytes, 0), Minus(room.flushes, 0))
    ensures Continues(whole, written, step, s, buf, calls, left)
  {
    assert left == room;
    assert buf + Delivered(calls) == Delivered(calls);
    assert written + whole.output == whole.output;
  }

  /** Carries out one request, writes its response and flushes. */
  method Respond(d: Daemon, request: Request, output: Sink, ghost step: Dispatcher<World>) returns (ok: bool)
    requires output.Valid() && Drives(step, d.site, d.oracle)
    modifies d, output
    ensures output.Valid()
    ensures Responded(step, old(d.View()), request, old(output.written), old(output.Left()),
                      d.View(), output.written, output.Left(), ok)
  {
    var response := d.Dispatch(request);
    var frame := Encode(Body(ResponseMessage(response)));
    ok := output.Put(frame);
  }

  /** However the input is cut into chunks, the loop leaves the state, writes the bytes and ends
      with the outcome of parsing the whole input and dispatching request by request, up to the
      response that the output does not take. */
  method Serve(d: Daemon, calls: seq<Read>, output: Sink, ghost step: Dispatcher<World>) returns (outcome: Outcome)
    requires Drives(step, d.site, d.oracle)
    requires output.Valid() && output.written == [] && output.flushed == 0
    modifies d, output
    ensures output.Valid()
    ensures Run(d.View(), output.written, outcome)
            == ExpectedInto(step, old(d.View()), Delivered(calls), Breaks(calls), output.room)
  {
    ghost var whole := ExpectedInto(step, d.View(), Delivered(calls), Breaks(calls), output.room);
    var buf: seq<byte> := [];
    var unread := calls;
    ghost var s, left := d.View(), output.Left();
    Begins(whole, output.written, step, s, buf, unread, output.room, left);
    while true
      invariant output.Valid() && s == d.View() && left == output.Left()
      invariant Continues(whole, output.written, step, s, buf, unread, left)
      decreases |unread|, |buf|
    {
      match DecodeRequest(buf) {
        case Decoded(request, consumed) =>
          ghost var had := output.written;
          var ok := Respond(d, request, output, step);
          FrameServed(whole, had, step, s, buf, unread, left, d.View(), output.written, output.Left(), ok);
          if !ok { return WriteFailed; }
          buf := buf[consumed..];
          s, left := d.View(), output.Left();
        case NeedMore(_) =>
          if unread != [] && unread[0].Got? && unread[0].bytes != [] {
            ChunkBuffered(whole, output.written, step, s, buf, unread, left);
            buf, unread := buf + unread[0].bytes, unread[1..];
          } else {
            StreamOver(whole, output.written, step, s, buf, unread, left);
            if unread != [] && unread[0].Failed? { return ReadFailed; }
            return if buf == [] then Clean else UnexpectedEof;
          }
        case BadBody =>
          StreamOver(whole, output.written, step, s, buf, unread, left);
          return InvalidData;
      }
    }
  }

  // ---- Chunking ----

  function Concat(chunks: seq<seq<byte>>): seq<byte> {
    if chunks == [] then [] else chunks[0] + Concat(chunks[1..])
  }

  predicate NoneEmpty(chunks: seq<seq<byte>>) {
    forall i | 0 <= i < |chunks| :: chunks[i] != []
  }

  function Reads(chunks: seq<seq<byte>>): seq<Read> {
    seq(|chunks|, i requires 0 <= i < |chunks| => Got(chunks[i]))
  }

  /** A split into non-empty chunks delivers the unsplit input, up to the end of file or the call that
      fails; whatever a reader would answer after that is never seen. */
  lemma {:induction false} ChunksDeliver(chunks: seq<seq<byte>>, after: seq<Read>)
    requires NoneEmpty(chunks)
    requires after == [] || after[0] == Got([]) || after[0] == Failed
    ensures Delivered(Reads(chunks) + after) == Concat(chunks)
    ensures Breaks(Reads(chunks) + after) <==> after != [] && after[0] == Failed
  {
    if chunks == [] {
      assert Reads(chunks) + after == after;
    } else {
      ChunksDeliver(chunks[1..], after);
      assert (Reads(chunks) + after)[1..] == Reads(chunks[1..]) + after;
    }
  }

  /** Cutting the same bytes differently changes nothing a client or the disk can see. */
  lemma ChunkingIsIrrelevant(step: Dispatcher<World>, s: World, a: seq<seq<byte>>, b: seq<seq<byte>>, room: Room)
    requires NoneEmpty(a) && NoneEmpty(b)
    requires Concat(a) == Concat(b)
    ensures ExpectedInto(step, s, Delivered(Reads(a)), Breaks(Reads(a)), room)
            == ExpectedInto(step, s, Delivered(Reads(b)), Breaks(Reads(b)), room)
            == ExpectedInto(step, s, Concat(a), false, room)
  {
    ChunksDeliver(a, []);
    ChunksDeliver(b, []);
    assert Reads(a) + [] == Reads(a) && Reads(b) + [] == Reads(b);
  }
}
