/** A reader or a writer left to itself: what it ends in, and that it can always end. */
module SoloRead {
  import opened Base
  import opened Wire
  import opened Interleaving
  import opened InterleavingSafety
  import opened InterleavingReads
  import opened SoloWrite
  import Codec
  import H = Handlers

  // ---- Reading alone ----

  /** What a reader may be refused for: there is no file, or it is over the cap. */
  predicate Readable(s: State, p: Path, cap: nat) {
    Bound(s, p) && |Current(s, p).data| <= cap
  }

  /** How far reader `t` has come since `s`, and whether a call has failed; nothing but the reader
      itself changes. */
  ghost predicate ReadsOn(s: State, t: nat, task: Task, failed: bool) {
    match task
    case Reader(p, cap, ReadStart) => true
    case Reader(p, cap, Statted(stamp, _)) => Readable(s, p, cap) && stamp == Current(s, p).stamp
    case Reader(p, cap, Reading(stamp, _, fd, _, buf)) =>
      Readable(s, p, cap) && stamp == Current(s, p).stamp && fd == s.dir[Plain(p)] && buf <= Current(s, p).data
    case Reader(p, cap, ReadDone(stamp, _, _, _, data)) =>
      Readable(s, p, cap) && stamp == Current(s, p).stamp && data == Current(s, p).data
    case Reader(p, cap, ReadFailed) => failed || !Readable(s, p, cap)
    case Writer(_, _, _, _) => false
  }

  lemma ReadStep(start: State, s: State, t: nat, task: Task, move: Move, failed: bool)
    requires t < |s.tasks| && s.tasks[t].Reader? && s.tasks[t].path == task.path
    requires ReadsOn(s, t, task, failed) && Step(start, SetTask(s, t, task), Run(t, move)).Some?
    ensures var s' := Step(start, SetTask(s, t, task), Run(t, move)).value;
            && t < |s'.tasks| && s' == SetTask(s, t, s'.tasks[t]) && s'.tasks[t].path == task.path
            && ReadsOn(s, t, s'.tasks[t], failed || move.Fail?)
            && s'.tasks[t].Reader? && s'.tasks[t].cap == task.cap
  {
  }

  lemma {:induction false} SoloReadRun(start: State, s: State, t: nat, task: Task, actions: seq<Action>, failed: bool)
    requires t < |s.tasks| && s.tasks[t].Reader? && s.tasks[t].path == task.path
    requires ReadsOn(s, t, task, failed) && Solo(actions, t) && Execute(start, SetTask(s, t, task), actions).Some?
    ensures var s' := Execute(start, SetTask(s, t, task), actions).value;
            && t < |s'.tasks| && s' == SetTask(s, t, s'.tasks[t])
            && ReadsOn(s, t, s'.tasks[t], failed || Fails(actions))
            && s'.tasks[t].Reader? && s'.tasks[t].path == task.path && s'.tasks[t].cap == task.cap
    decreases |actions|
  {
    if actions != [] {
      var s', move := Step(start, SetTask(s, t, task), actions[0]).value, actions[0].move;
      ReadStep(start, s, t, task, move, failed);
      SoloReadRun(start, s, t, s'.tasks[t], actions[1..], failed || move.Fail?);
      FailsSplit(actions);
    }
  }

  /** The environment of a serial read of the file `p`: policy admits it, its path leads there, and
      it can be examined. */
  ghost predicate Opens(l: H.Luck, s: State, q: ReadFileReq, p: Path) {
    l.allowed(q.path) && l.statError.None? && l.entry(q.path) == if Bound(s, p) then Some(p) else None
  }

  /** Any run of the reader by itself that ends, ends as the serial handler does: with the whole file
      and its stamp, or, if no call fails, refused for no other reason than a missing file or one
      over the cap. */
  lemma SoloReadIsSerial(start: State, s: State, actions: seq<Action>, t: nat,
                         files: map<string, H.Version>, site: H.Site, l: H.Luck, q: ReadFileReq)
    requires t < |s.tasks|
    requires s.tasks[t] == Reader(s.tasks[t].path, H.Lesser(q.maxBytes, site.cfg.maxReadBytes), ReadStart)
    requires Solo(actions, t) && Execute(start, s, actions).Some?
    requires Mirrors(s, files) && Opens(l, s, q, s.tasks[t].path)
    ensures var p, cap, s' := s.tasks[t].path, s.tasks[t].cap, Execute(start, s, actions).value;
            var result := H.ReadFileSpec(site, l, files, q).1;
            && t < |s'.tasks| && s'.tasks[t].Reader? && s' == SetTask(s, t, s'.tasks[t])
            && match s'.tasks[t].rpc
               case ReadDone(stamp, _, _, _, data) =>
                 && Bound(s, p) && data == Current(s, p).data && stamp == Current(s, p).stamp && |data| <= cap
                 && (l.readError.None? ==> result == Ok(ReadFileResp(data, stamp, |data|)))
               case ReadFailed =>
                 && (Fails(actions) || !Bound(s, p) || |Current(s, p).data| > cap)
                 && (!Bound(s, p) ==> result == Err(NotFound(q.path)))
                 && (Bound(s, p) && cap < |Current(s, p).data| < 0x1_0000_0000_0000_0000 ==>
                       result == Err(SizeLimitExceeded(|Current(s, p).data|, cap)))
               case _ => true
  {
    var task := s.tasks[t];
    assert SetTask(s, t, task) == s;
    SoloReadRun(start, s, t, task, actions, false);
    assert MirrorsAt(s, files, task.path);
  }

  // ---- A task can always end ----

  predicate Answered(task: Task) {
    match task
    case Reader(_, _, pc) => pc.ReadDone? || pc.ReadFailed?
    case Writer(_, _, _, pc) => pc.WriteDone? || pc.WriteFailed?
  }

  /** What a writer does next, if it writes `chunk` bytes at a time. */
  function NextMove(task: Task, chunk: nat, at: i64): Move
    requires task.Writer?
  {
    match task.wpc
    case WriteStart => Check
    case Checked => CreateTemp(at)
    case Staged(_, w) => if w < |task.data| then WriteSome(Min(chunk, |task.data| - w), at) else Sync
    case Synced(_) => Rename
    case _ => Restat
  }

  /** How many moves are left at most. */
  function Left(task: Task): nat
    requires task.Writer?
  {
    match task.wpc
    case WriteStart => |task.data| + 5
    case Checked => |task.data| + 4
    case Staged(_, w) => if w <= |task.data| then |task.data| - w + 3 else 3
    case Synced(_) => 2
    case Renamed => 1
    case _ => 0
  }

  lemma NextMoveIsOpen(start: State, s: State, t: nat, chunk: nat, at: i64)
    requires t < |s.tasks| && s.tasks[t].Writer? && TaskOk(s, t, s.tasks[t]) && !Ended(s.tasks[t]) && chunk > 0
    ensures var next := Step(start, s, Run(t, NextMove(s.tasks[t], chunk, at)));
            && next.Some? && t < |next.value.tasks| && next.value.tasks[t].Writer?
            && Left(next.value.tasks[t]) < Left(s.tasks[t]) && !next.value.tasks[t].wpc.Killed?
  {
  }

  /** However far a writer has come, and whatever the others have done, it can end by itself, writing
      in pieces of any size. */
  lemma {:induction false} WriterCanEnd(start: State, s: State, t: nat, chunk: nat, at: i64) returns (actions: seq<Action>)
    requires Inv(start, s) && t < |s.tasks| && s.tasks[t].Writer? && !s.tasks[t].wpc.Killed? && chunk > 0
    ensures Solo(actions, t) && !Fails(actions) && Execute(start, s, actions).Some?
    ensures var s' := Execute(start, s, actions).value;
            t < |s'.tasks| && Answered(s'.tasks[t])
    decreases Left(s.tasks[t])
  {
    actions := [];
    if !Answered(s.tasks[t]) {
      var move := NextMove(s.tasks[t], chunk, at);
      assert TaskOk(s, t, s.tasks[t]);
      NextMoveIsOpen(start, s, t, chunk, at);
      var s' := Step(start, s, Run(t, move)).value;
      StepKeeps(start, s, s', Run(t, move));
      var rest := WriterCanEnd(start, s', t, chunk, at);
      actions := [Run(t, move)] + rest;
      Prepended(start, s, t, move, rest);
    }
  }

  lemma Prepended(start: State, s: State, t: nat, move: Move, rest: seq<Action>)
    requires !move.Fail? && Solo(rest, t) && !Fails(rest) && Step(start, s, Run(t, move)).Some?
    ensures var actions := [Run(t, move)] + rest;
            && Solo(actions, t) && !Fails(actions)
            && Execute(start, s, actions) == Execute(start, Step(start, s, Run(t, move)).value, rest)
  {
    assert ([Run(t, move)] + rest)[1..] == rest;
    FailsSplit([Run(t, move)] + rest);
  }

  function NextRead(s: State, task: Task, chunk: nat): Move
    requires task.Reader?
  {
    match task.rpc
    case ReadStart => Stat
    case Statted(_, _) => Open
    case Reading(_, _, fd, _, buf) =>
      if fd < |s.inodes| && |buf| < |s.inodes[fd].data| then ReadSome(Min(chunk, |s.inodes[fd].data| - |buf|)) else FinishRead
    case _ => Stat
  }

  function LeftToRead(s: State, task: Task): nat
    requires task.Reader?
  {
    match task.rpc
    case ReadStart => (if Bound(s, task.path) then |Current(s, task.path).data| else 0) + 3
    case Statted(_, _) => (if Bound(s, task.path) then |Current(s, task.path).data| else 0) + 2
    case Reading(_, _, fd, _, buf) =>
      if fd < |s.inodes| && |buf| <= |s.inodes[fd].data| then |s.inodes[fd].data| - |buf| + 1 else 1
    case _ => 0
  }

  lemma NextReadIsOpen(start: State, s: State, t: nat, chunk: nat)
    requires t < |s.tasks| && s.tasks[t].Reader? && TaskOk(s, t, s.tasks[t]) && !Answered(s.tasks[t]) && chunk > 0
    ensures var next := Step(start, s, Run(t, NextRead(s, s.tasks[t], chunk)));
            && next.Some? && t < |next.value.tasks| && next.value.tasks[t].Reader?
            && LeftToRead(next.value, next.value.tasks[t]) < LeftToRead(s, s.tasks[t])
  {
  }

  /** So can a reader. */
  lemma {:induction false} ReaderCanEnd(start: State, s: State, t: nat, chunk: nat) returns (actions: seq<Action>)
    requires Inv(start, s) && t < |s.tasks| && s.tasks[t].Reader? && chunk > 0
    ensures Solo(actions, t) && !Fails(actions) && Execute(start, s, actions).Some?
    ensures var s' := Execute(start, s, actions).value;
            t < |s'.tasks| && Answered(s'.tasks[t])
    decreases LeftToRead(s, s.tasks[t])
  {
    actions := [];
    if !Answered(s.tasks[t]) {
      var move := NextRead(s, s.tasks[t], chunk);
      assert TaskOk(s, t, s.tasks[t]);
      NextReadIsOpen(start, s, t, chunk);
      var s' := Step(start, s, Run(t, move)).value;
      StepKeeps(start, s, s', Run(t, move));
      var rest := ReaderCanEnd(start, s', t, chunk);
      actions := [Run(t, move)] + rest;
      Prepended(start, s, t, move, rest);
    }
  }

  // ---- Answers stand ----

  lemma AnswerStays(start: State, s: State, s': State, a: Action, t: nat)
    requires Step(start, s, a) == Some(s') && t < |s.tasks| && Answered(s.tasks[t])
    ensures t < |s'.tasks| && s'.tasks[t] == s.tasks[t]
  {
    if a.Run? {
      OneMoves(start, s, s', a.t, a.move);
    }
  }

  /** What has been answered stays answered, through any moves, crashes and power losses. */
  lemma {:induction false} AnswerStands(start: State, s: State, actions: seq<Action>, t: nat)
    requires Execute(start, s, actions).Some? && t < |s.tasks| && Answered(s.tasks[t])
    ensures var s' := Execute(start, s, actions).value;
            t < |s'.tasks| && s'.tasks[t] == s.tasks[t]
    decreases |actions|
  {
    if actions != [] {
      var s' := Step(start, s, actions[0]).value;
      AnswerStays(start, s, s', actions[0], t);
      AnswerStands(start, s', actions[1..], t);
    }
  }
}
