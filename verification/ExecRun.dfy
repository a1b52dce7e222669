/** Running a child process: its capped output readers and its polling loop. */
module ExecRun {
  import opened Base

  // ---- Output ----

  /** One call of a pipe reader; a reader that has run dry keeps answering end of file. */
  datatype Piece = Bytes(bytes: seq<byte>) | Eof | Broken

  /** All bytes up to the first end of file, empty read or error. */
  function Output(pieces: seq<Piece>): seq<byte> {
    if pieces == [] || !pieces[0].Bytes? || pieces[0].bytes == [] then []
    else pieces[0].bytes + Output(pieces[1..])
  }

  /** The calls made until the stream ends, the one that ends it included. */
  function CallsToEnd(pieces: seq<Piece>): nat {
    if pieces == [] then 1
    else if !pieces[0].Bytes? || pieces[0].bytes == [] then 1
    else 1 + CallsToEnd(pieces[1..])
  }

  /** A pipe: what each call of `read` will answer, and how many calls have been made. */
  class Pipe {
    const pieces: seq<Piece>
    var calls: nat

    constructor (pieces: seq<Piece>)
      ensures this.pieces == pieces && calls == 0
    {
      this.pieces := pieces;
      calls := 0;
    }

    function Left(): seq<Piece>
      reads this
    {
      if calls <= |pieces| then pieces[calls..] else []
    }

    method Next() returns (p: Piece)
      modifies this
      ensures calls == old(calls) + 1
      ensures p == if old(Left()) == [] then Eof else old(Left())[0]
      ensures Left() == if old(Left()) == [] then [] else old(Left())[1..]
    {
      p := if calls < |pieces| then pieces[calls] else Eof;
      calls := calls + 1;
    }
  }

  predicate Ends(p: Piece) {
    !p.Bytes? || p.bytes == []
  }

  /** Reads and drops everything up to the end of the stream. */
  method Drain(pipe: Pipe)
    modifies pipe
    ensures pipe.calls == old(pipe.calls) + CallsToEnd(old(pipe.Left()))
  {
    var p := pipe.Next();
    while !Ends(p)
      invariant if Ends(p) then pipe.calls == old(pipe.calls) + CallsToEnd(old(pipe.Left()))
                else pipe.calls + CallsToEnd(pipe.Left()) == old(pipe.calls) + CallsToEnd(old(pipe.Left()))
      decreases |pipe.Left()|, if Ends(p) then 0 else 1
    {
      p := pipe.Next();
    }
  }

  lemma OutputStep(pieces: seq<Piece>)
    requires pieces != [] && !Ends(pieces[0])
    ensures Output(pieces) == pieces[0].bytes + Output(pieces[1..])
    ensures CallsToEnd(pieces) == 1 + CallsToEnd(pieces[1..])
  {
  }

  /** Keeps the first `max` bytes of the stream, says whether there were more, and reads the
      stream to its end so that the child never blocks on a full pipe. */
  method ReadCapped(pipe: Pipe, max: nat) returns (buf: seq<byte>, truncated: bool)
    modifies pipe
    ensures buf == Output(old(pipe.Left()))[..Min(max, |Output(old(pipe.Left()))|)]
    ensures truncated <==> |Output(old(pipe.Left()))| > max
    ensures pipe.calls == old(pipe.calls) + CallsToEnd(old(pipe.Left()))
  {
    ghost var all, end := Output(pipe.Left()), pipe.calls + CallsToEnd(pipe.Left());
    buf, truncated := [], false;
    while true
      invariant |buf| <= max && !truncated
      invariant buf + Output(pipe.Left()) == all
      invariant pipe.calls + CallsToEnd(pipe.Left()) == end
      decreases |pipe.Left()|
    {
      ghost var left, had := pipe.Left(), buf;
      var p := pipe.Next();
      if Ends(p) {
        assert Output(left) == [];
        break;
      }
      OutputStep(left);
      var room := max - |buf|;
      if room == 0 {
        truncated := true;
        Drain(pipe);
        break;
      }
      var take := Min(|p.bytes|, room);
      buf := buf + p.bytes[..take];
      KeepsPrefix(had, p.bytes, take, Output(pipe.Left()));
      if take < |p.bytes| {
        truncated := true;
        Drain(pipe);
        break;
      }
    }
  }

  lemma KeepsPrefix(had: seq<byte>, chunk: seq<byte>, take: nat, rest: seq<byte>)
    requires take <= |chunk|
    ensures (had + chunk[..take]) + (chunk[take..] + rest) == had + (chunk + rest)
    ensures take == |chunk| ==> (had + chunk[..take]) + rest == had + (chunk + rest)
  {
    assert chunk == chunk[..take] + chunk[take..];
  }

  function Pieces(chunks: seq<seq<byte>>): seq<Piece> {
    seq(|chunks|, i requires 0 <= i < |chunks| => Bytes(chunks[i]))
  }

  function Joined(chunks: seq<seq<byte>>): seq<byte> {
    if chunks == [] then [] else chunks[0] + Joined(chunks[1..])
  }

  /** A stream is what its reads deliver up to the first end of file, empty read or error. */
  lemma {:induction false} OutputIsJoined(chunks: seq<seq<byte>>, after: seq<Piece>)
    requires forall i | 0 <= i < |chunks| :: chunks[i] != []
    requires after != [] ==> after[0] == Eof || after[0] == Broken || after[0] == Bytes([])
    ensures Output(Pieces(chunks) + after) == Joined(chunks)
    ensures CallsToEnd(Pieces(chunks) + after) == |chunks| + 1
  {
    if chunks == [] {
      assert Pieces(chunks) + after == after;
    } else {
      OutputIsJoined(chunks[1..], after);
      assert (Pieces(chunks) + after)[1..] == Pieces(chunks[1..]) + after;
    }
  }

  // ---- Waiting ----

  const MS: nat := 1_000_000
  const TICK: nat := 25_000_000

  datatype Status = Running | Exited(code: Option<i32>) | WaitError(message: string)

  /** A child as polling sees it: its status at the k-th poll and the nanoseconds elapsed then. */
  datatype Timeline = Timeline(status: nat -> Status, elapsed: nat -> nat)

  /** Between a poll that finds the child running and the next one the loop sleeps a full tick. */
  ghost predicate Paced(c: Timeline) {
    forall k: nat :: c.status(k).Running? ==> c.elapsed(k) + TICK <= c.elapsed(k + 1)
  }

  type Child = c: Timeline | Paced(c) witness Timeline(k => Exited(None), k => 0)

  datatype Wait = Finished(code: Option<i32>) | TimedOut | WaitFailed(message: string)

  predicate Decisive(c: Timeline, timeoutMs: nat, k: nat) {
    !c.status(k).Running? || timeoutMs * MS <= c.elapsed(k)
  }

  /** The first poll at or after `k` that decides the wait. */
  function DecidingPoll(c: Child, timeoutMs: nat, k: nat): (d: nat)
    ensures k <= d && Decisive(c, timeoutMs, d)
    ensures forall j | k <= j < d :: !Decisive(c, timeoutMs, j)
    decreases timeoutMs * MS - c.elapsed(k)
  {
    if Decisive(c, timeoutMs, k) then k else DecidingPoll(c, timeoutMs, k + 1)
  }

  function WaitAt(c: Timeline, k: nat): Wait {
    match c.status(k)
    case Running => TimedOut
    case Exited(code) => Finished(code)
    case WaitError(message) => WaitFailed(message)
  }

  function WaitFor(c: Child, timeoutMs: nat): Wait {
    WaitAt(c, DecidingPoll(c, timeoutMs, 0))
  }

  method Poll(c: Child, timeoutMs: nat) returns (w: Wait, polls: nat)
    ensures w == WaitFor(c, timeoutMs)
    ensures polls == DecidingPoll(c, timeoutMs, 0) + 1
  {
    polls := 0;
    while true
      invariant DecidingPoll(c, timeoutMs, 0) == DecidingPoll(c, timeoutMs, polls)
      decreases timeoutMs * MS - c.elapsed(polls)
    {
      var status := c.status(polls);
      match status {
        case Exited(code) => return Finished(code), polls + 1;
        case WaitError(message) => return WaitFailed(message), polls + 1;
        case Running =>
          if timeoutMs * MS <= c.elapsed(polls) { return TimedOut, polls + 1; }
      }
      polls := polls + 1;
    }
  }

  lemma {:induction false} ElapsedBound(c: Child, timeoutMs: nat, k: nat)
    requires k <= DecidingPoll(c, timeoutMs, 0)
    ensures k * TICK <= c.elapsed(k)
  {
    if k > 0 {
      ElapsedBound(c, timeoutMs, k - 1);
      assert !Decisive(c, timeoutMs, k - 1);
    }
  }

  /** The `k`-th poll is the first at or after the deadline, and no poll saw the child ended. */
  ghost predicate StillRunningAtDeadline(c: Child, timeoutMs: nat, k: nat) {
    && c.status(k).Running? && timeoutMs * 1_000_000 <= c.elapsed(k)
    && forall j: nat | j < k :: c.status(j).Running? && c.elapsed(j) < timeoutMs * 1_000_000
  }

  /** The loop polls at most once per tick of the timeout plus once more, and reports a timeout
      exactly when a poll finds the child still running at or after the deadline. */
  lemma PollsAreBounded(c: Child, timeoutMs: nat)
    ensures DecidingPoll(c, timeoutMs, 0) + 1 <= (timeoutMs + 24) / 25 + 1
    ensures WaitFor(c, timeoutMs).TimedOut? <==> exists k: nat :: StillRunningAtDeadline(c, timeoutMs, k)
  {
    var d := DecidingPoll(c, timeoutMs, 0);
    if d > 0 {
      ElapsedBound(c, timeoutMs, d - 1);
      assert !Decisive(c, timeoutMs, d - 1);
      assert (d - 1) * 25 < timeoutMs;
    }
    forall j: nat | j < d
      ensures c.status(j).Running? && c.elapsed(j) < timeoutMs * MS
    {
      assert !Decisive(c, timeoutMs, j);
    }
    if WaitFor(c, timeoutMs).TimedOut? {
      assert StillRunningAtDeadline(c, timeoutMs, d);
    }
    if k: nat :| StillRunningAtDeadline(c, timeoutMs, k) {
      assert Decisive(c, timeoutMs, k);
      assert d < k ==> Decisive(c, timeoutMs, d);
    }
  }
}
