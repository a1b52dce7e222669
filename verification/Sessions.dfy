/** Serial runs of requests, as the server loop performs them: what conditional writes guarantee,
    and what the audit log tells. */
module Sessions {
  import opened Base
  import opened Wire
  import opened Framing
  import opened Handlers
  import opened History
  import opened Answers
  import Audit
  import Codec
  import E = ExecRun
  import Rpc
  import Stream

  /** `worlds[k]` is the world before request `k`, the last one the world at the end. */
  datatype Session = Session(site: Site, oracle: Oracle, requests: seq<Request>,
                             worlds: seq<World>, answers: seq<Response>)
  {
    ghost predicate Valid() {
      && |worlds| == |requests| + 1 && |answers| == |requests|
      && forall k :: 0 <= k < |requests| ==> StepAt(k)
    }

    ghost predicate StepAt(k: nat) {
      && k < |requests| < |worlds| && k < |answers|
      && (worlds[k + 1], answers[k]) == Step(site, oracle, worlds[k], requests[k])
    }

    function Luck(k: nat): Handlers.Luck
      requires k < |worlds|
    {
      oracle(worlds[k].turn)
    }
  }

  /** The run of `requests` from `w`. */
  ghost function SessionOf(site: Site, oracle: Oracle, w: World, requests: seq<Request>): (s: Session)
    ensures s.Valid() && s.worlds[0] == w
    ensures (s.site, s.oracle, s.requests) == (site, oracle, requests)
    decreases |requests|
  {
    if requests == [] then Session(site, oracle, [], [w], [])
    else
      var (w', answer) := Step(site, oracle, w, requests[0]);
      var rest := SessionOf(site, oracle, w', requests[1..]);
      Prepended(site, oracle, w, requests, rest);
      Session(site, oracle, requests, [w] + rest.worlds, [answer] + rest.answers)
  }

  lemma Prepended(site: Site, oracle: Oracle, w: World, requests: seq<Request>, rest: Session)
    requires requests != [] && rest.Valid() && rest.requests == requests[1..]
    requires (rest.site, rest.oracle) == (site, oracle)
    requires rest.worlds[0] == Step(site, oracle, w, requests[0]).0
    ensures var answer := Step(site, oracle, w, requests[0]).1;
            Session(site, oracle, requests, [w] + rest.worlds, [answer] + rest.answers).Valid()
  {
    var answer := Step(site, oracle, w, requests[0]).1;
    var s := Session(site, oracle, requests, [w] + rest.worlds, [answer] + rest.answers);
    forall k | 0 <= k < |requests|
      ensures s.StepAt(k)
    {
      if k > 0 { assert rest.StepAt(k - 1); }
    }
  }

  /** What the server loop is specified by, from any world and for any requests, is a session. */
  lemma {:induction false} ServerRunsSessions(site: Site, oracle: Oracle, w: World, requests: seq<Request>)
    ensures var s := SessionOf(site, oracle, w, requests);
            Stream.DispatchAll(Rpc.Stepper(site, oracle), w, requests) == (s.worlds[|requests|], s.answers)
    decreases |requests|
  {
    if requests != [] {
      ServerRunsSessions(site, oracle, Step(site, oracle, w, requests[0]).0, requests[1..]);
    }
  }

  /** End to end: a client that sends whole requests, cut into chunks in any way, drives the daemon
      through the session of those requests and reads back its answers, all of them, in order. */
  lemma ClientSeesSession(site: Site, oracle: Oracle, w: World, requests: seq<Request>, chunks: seq<seq<byte>>)
    requires forall r | r in requests :: RequestFits(r)
    requires Rpc.NoneEmpty(chunks) && Rpc.Concat(chunks) == Stream.EncodeRequests(requests)
    requires forall r | r in SessionOf(site, oracle, w, requests).answers :: ResponseFits(r)
    ensures var s := SessionOf(site, oracle, w, requests);
            var calls := Rpc.Reads(chunks);
            var run := Stream.ExpectedInto(Rpc.Stepper(site, oracle), w, Stream.Delivered(calls), Stream.Breaks(calls), Stream.NO_LIMIT);
            && run.state == s.worlds[|requests|] && run.outcome == Stream.Clean
            && Stream.ParseResponses(run.output) == (s.answers, [])
  {
    Rpc.ChunksDeliver(chunks, []);
    assert Rpc.Reads(chunks) + [] == Rpc.Reads(chunks);
    Stream.CleanSession(Rpc.Stepper(site, oracle), w, requests);
    Stream.OutputIsPrefix(Rpc.Stepper(site, oracle), w, Stream.EncodeRequests(requests), false, Stream.NO_LIMIT);
    ServerRunsSessions(site, oracle, w, requests);
    Stream.ClientReadsResponses(SessionOf(site, oracle, w, requests).answers);
  }

  // ---- Files ----

  function At(w: World, e: string): Option<Version> {
    if e in w.files then Some(w.files[e]) else None
  }

  function StampOf(v: Version): int {
    MtimeNs(v.modified)
  }

  /** The version that request `k` installs at entry `e`, if it is a write there that succeeds. */
  ghost function Written(s: Session, k: nat, e: string): Option<Version>
    requires s.Valid() && k < |s.requests|
  {
    match (s.requests[k], s.answers[k])
    case (WriteFile(q), WriteFileResult(Ok(_))) =>
      if s.Luck(k).target(q.path) == e then Some(Version(q.data, s.Luck(k).write.modified)) else None
    case _ => None
  }

  /** A request changes at most one file, and only by installing all the data of a write that it
      reports as successful. */
  lemma OnlyWritesChangeFiles(s: Session, k: nat, e: string)
    requires s.Valid() && k < |s.requests|
    ensures At(s.worlds[k + 1], e) == if Written(s, k, e).Some? then Written(s, k, e) else At(s.worlds[k], e)
  {
    assert s.StepAt(k);
  }

  /** A conditional write succeeds only if its path leads to a file with the stamp it names. */
  lemma ConditionHolds(s: Session, k: nat)
    requires s.Valid() && k < |s.requests|
    requires s.requests[k].WriteFile? && s.requests[k].writeFile.ifMtimeMatches.Some?
    requires s.answers[k].WriteFileResult? && s.answers[k].writeFile.Ok?
    ensures var e := s.Luck(k).entry(s.requests[k].writeFile.path);
            && e.Some? && At(s.worlds[k], e.value).Some?
            && StampOf(At(s.worlds[k], e.value).value) == s.requests[k].writeFile.ifMtimeMatches.value
  {
    assert s.StepAt(k);
  }

  /** What stands at `e` before each request, and at the end. */
  ghost function States(s: Session, e: string): seq<Option<Version>>
    requires s.Valid()
  {
    seq(|s.requests| + 1, k requires 0 <= k <= |s.requests| => At(s.worlds[k], e))
  }

  ghost function Writes(s: Session, e: string): seq<Option<Version>>
    requires s.Valid()
  {
    seq(|s.requests|, k requires 0 <= k < |s.requests| => Written(s, k, e))
  }

  lemma FileHistory(s: Session, e: string)
    requires s.Valid()
    ensures Follows(States(s, e), Writes(s, e))
  {
    forall k | 0 <= k < |s.requests|
      ensures States(s, e)[k + 1] == if Writes(s, e)[k].Some? then Writes(s, e)[k] else States(s, e)[k]
    {
      OnlyWritesChangeFiles(s, k, e);
    }
  }

  /** No two versions that ever stand at `e` carry the same stamp. */
  ghost predicate DistinctStamps(s: Session, e: string)
    requires s.Valid()
  {
    FileHistory(s, e);
    Distinct(States(s, e), Writes(s, e), StampOf)
  }

  /** The last request strictly between `i` and `j` that writes `e`. */
  ghost function LastBetween(s: Session, e: string, i: nat, j: nat): (last: Option<nat>)
    requires s.Valid() && i < j <= |s.requests|
    ensures last.Some? ==> i < last.value < j && Written(s, last.value, e).Some?
    ensures last.None? <==> forall k | i < k < j :: Written(s, k, e).None?
  {
    var last := LastWrite(Writes(s, e), i + 1, j);
    assert forall k | i < k < j :: Writes(s, e)[k] == Written(s, k, e);
    last
  }

  /** What answer `i` says stands at `e`, with stamp `m`: the bytes read, or the bytes just
      written. */
  ghost function Reported(s: Session, i: nat, e: string, m: i64): Option<seq<byte>>
    requires s.Valid() && i < |s.requests|
  {
    match (s.requests[i], s.answers[i])
    case (ReadFile(q), ReadFileResult(Ok(v))) =>
      if s.Luck(i).entry(q.path) == Some(e) && v.mtime == m then Some(v.data) else None
    case (WriteFile(q), WriteFileResult(Ok(v))) =>
      if s.Luck(i).target(q.path) == e && v.mtime == m && !s.Luck(i).restatFails then Some(q.data) else None
    case _ => None
  }

  lemma ReportIsTrue(s: Session, i: nat, e: string, m: i64)
    requires s.Valid() && i < |s.requests| && Reported(s, i, e, m).Some?
    ensures var now := At(s.worlds[i + 1], e);
            now.Some? && now.value.data == Reported(s, i, e, m).value && StampOf(now.value) == m
  {
    assert s.StepAt(i);
    OnlyWritesChangeFiles(s, i, e);
  }

  /** Between the report `i` and request `j` nothing changes what stands at `e` but the last write
      in between. */
  lemma StandsBefore(s: Session, e: string, i: nat, j: nat)
    requires s.Valid() && i < j < |s.requests| && At(s.worlds[i + 1], e).Some?
    ensures At(s.worlds[j], e) == match LastBetween(s, e, i, j)
                                  case None => At(s.worlds[i + 1], e)
                                  case Some(k) => Written(s, k, e)
  {
    FileHistory(s, e);
    StandsSince(States(s, e), Writes(s, e), i + 1, j);
    assert States(s, e)[j] == At(s.worlds[j], e) && States(s, e)[i + 1] == At(s.worlds[i + 1], e);
  }

  /** Request `j` rewrites the file `e` on the condition that its stamp is still `m`: its path leads
      to `e`, through no link at its end. */
  ghost predicate Rewrites(s: Session, j: nat, e: string, m: i64)
    requires s.Valid() && j < |s.requests|
  {
    && s.requests[j].WriteFile? && s.requests[j].writeFile.ifMtimeMatches == Some(m)
    && s.Luck(j).entry(s.requests[j].writeFile.path) == Some(e)
    && s.Luck(j).target(s.requests[j].writeFile.path) == e
  }

  /** No request in between gives `e` the stamp `m` again. */
  ghost predicate NotReused(s: Session, e: string, i: nat, j: nat, m: i64)
    requires s.Valid() && i < j <= |s.requests|
  {
    forall k | i < k < j && Written(s, k, e).Some? :: StampOf(Written(s, k, e).value) != m
  }

  /** A conditional write that succeeds on a stamp an earlier answer reported, and that no version
      since has reused, replaces exactly the version reported: nothing was written to the file in
      between, so no update is lost. */
  lemma NoLostUpdate(s: Session, i: nat, j: nat, e: string, m: i64)
    requires s.Valid() && i < j < |s.requests| && Reported(s, i, e, m).Some?
    requires Rewrites(s, j, e, m) && Written(s, j, e).Some? && NotReused(s, e, i, j, m)
    ensures LastBetween(s, e, i, j).None?
    ensures var was := At(s.worlds[j], e);
            was.Some? && was.value.data == Reported(s, i, e, m).value && StampOf(was.value) == m
    ensures At(s.worlds[j + 1], e) == Some(Version(s.requests[j].writeFile.data, s.Luck(j).write.modified))
  {
    ReportIsTrue(s, i, e, m);
    ConditionHolds(s, j);
    StandsBefore(s, e, i, j);
    OnlyWritesChangeFiles(s, j, e);
  }

  /** Nothing but the condition can stop write `j`: policy and disk let it through. */
  ghost predicate Unhindered(s: Session, j: nat)
    requires s.Valid() && j < |s.requests| && s.requests[j].WriteFile?
  {
    && s.site.cfg.policy.WritesAllowed() && s.Luck(j).allowed(s.requests[j].writeFile.path)
    && s.Luck(j).statError.None? && WriteFailure(s.Luck(j).write, s.requests[j].writeFile.data).None?
  }

  lemma UnhinderedAnswer(s: Session, j: nat, e: string, m: i64)
    requires s.Valid() && j < |s.requests| && Rewrites(s, j, e, m) && Unhindered(s, j) && At(s.worlds[j], e).Some?
    ensures var stamp := MtimeNs(At(s.worlds[j], e).value.modified);
            if stamp == m then Written(s, j, e).Some?
            else Written(s, j, e).None? && s.answers[j] == WriteFileResult(Err(MtimeMismatch(m, stamp)))
  {
    assert s.StepAt(j);
  }

  /** Exactly when the condition lets a write through: if nothing was written to the file since the
      report, or if the last thing written carries the reported stamp again, which is exactly when
      an update is lost. Otherwise the answer names the stamp that stands instead. */
  lemma ConditionalWriteIff(s: Session, i: nat, j: nat, e: string, m: i64)
    requires s.Valid() && i < j < |s.requests| && Reported(s, i, e, m).Some?
    requires Rewrites(s, j, e, m) && Unhindered(s, j)
    ensures var last := LastBetween(s, e, i, j);
            && (Written(s, j, e).Some? <==> last.None? || StampOf(Written(s, last.value, e).value) == m)
            && (Written(s, j, e).None? ==>
                  last.Some? && s.answers[j]
                                == WriteFileResult(Err(MtimeMismatch(m, MtimeNs(Written(s, last.value, e).value.modified)))))
  {
    ReportIsTrue(s, i, e, m);
    StandsBefore(s, e, i, j);
    UnhinderedAnswer(s, j, e, m);
  }

  /** The law of conditional writes over the files' own times: between versions whose times an i64
      holds, the write goes through exactly if nothing was written since the report or the last
      version written has the very time, to the nanosecond, of the one reported. */
  lemma ConditionalWriteByTime(s: Session, i: nat, j: nat, e: string, m: i64)
    requires s.Valid() && i < j < |s.requests| && Reported(s, i, e, m).Some?
    requires Rewrites(s, j, e, m) && Unhindered(s, j)
    requires At(s.worlds[i + 1], e).Some? ==> InRange(At(s.worlds[i + 1], e).value.modified)
    requires forall k | i < k < j && Written(s, k, e).Some? :: InRange(Written(s, k, e).value.modified)
    ensures var was, last := At(s.worlds[i + 1], e), LastBetween(s, e, i, j);
            && was.Some?
            && (Written(s, j, e).Some? <==> last.None? || Written(s, last.value, e).value.modified == was.value.modified)
  {
    ReportIsTrue(s, i, e, m);
    ConditionalWriteIff(s, i, j, e, m);
    StampIsTime(At(s.worlds[i + 1], e).value.modified);
    if LastBetween(s, e, i, j).Some? {
      StampIsTime(Written(s, LastBetween(s, e, i, j).value, e).value.modified);
    }
  }

  /** No two versions that ever stand at `e` have the same time, and an i64 holds them all. */
  ghost predicate DistinctTimes(s: Session, e: string)
    requires s.Valid()
  {
    && (At(s.worlds[0], e).Some? ==> InRange(At(s.worlds[0], e).value.modified))
    && (forall k | 0 <= k < |s.requests| && Written(s, k, e).Some? :: InRange(Written(s, k, e).value.modified))
    && (forall j, k | 0 <= j < k < |s.requests| && Written(s, j, e).Some? && Written(s, k, e).Some? ::
          Written(s, j, e).value.modified != Written(s, k, e).value.modified)
    && (forall k | 0 <= k < |s.requests| && Written(s, k, e).Some? && At(s.worlds[0], e).Some? ::
          Written(s, k, e).value.modified != At(s.worlds[0], e).value.modified)
  }

  lemma StampsDiffer(a: Version, b: Version)
    requires InRange(a.modified) && InRange(b.modified) && a.modified != b.modified
    ensures StampOf(a) != StampOf(b)
  {
    StampIsTime(a.modified);
    StampIsTime(b.modified);
  }

  /** Distinct times are distinct stamps. */
  lemma DistinctTimesGiveDistinctStamps(s: Session, e: string)
    requires s.Valid() && DistinctTimes(s, e)
    ensures DistinctStamps(s, e)
  {
    var states, writes := States(s, e), Writes(s, e);
    FileHistory(s, e);
    assert forall k | 0 <= k < |writes| :: writes[k] == Written(s, k, e);
    assert states[0] == At(s.worlds[0], e);
    forall j, k | 0 <= j < k < |writes| && writes[j].Some? && writes[k].Some?
      ensures StampOf(writes[j].value) != StampOf(writes[k].value)
    {
      StampsDiffer(Written(s, j, e).value, Written(s, k, e).value);
    }
    forall k | 0 <= k < |writes| && writes[k].Some? && states[0].Some?
      ensures StampOf(writes[k].value) != StampOf(states[0].value)
    {
      StampsDiffer(Written(s, k, e).value, states[0].value);
    }
  }

  /** Where no two versions of a file ever carry the same stamp, no reported stamp is reused. */
  lemma DistinctStampsAreNotReused(s: Session, i: nat, j: nat, e: string, m: i64)
    requires s.Valid() && DistinctStamps(s, e)
    requires i < j <= |s.requests| && Reported(s, i, e, m).Some?
    ensures NotReused(s, e, i, j, m)
  {
    var states, writes := States(s, e), Writes(s, e);
    FileHistory(s, e);
    ReportIsTrue(s, i, e, m);
    assert states[i + 1] == At(s.worlds[i + 1], e);
    forall k | i < k < j && Written(s, k, e).Some?
      ensures StampOf(Written(s, k, e).value) != m
    {
      assert writes[k] == Written(s, k, e) == states[k + 1];
      assert !Untouched(writes, i + 1, k + 1);
      if StampOf(writes[k].value) == m {
        EqualStampsMeanUntouched(states, writes, StampOf, i + 1, k + 1);
      }
    }
  }

  /** In read-only mode no request of any session changes a file. */
  lemma {:induction false} ReadOnlyKeepsFiles(s: Session, k: nat)
    requires s.Valid() && k <= |s.requests| && s.site.cfg.policy.ReadOnly?
    ensures s.worlds[k].files == s.worlds[0].files
  {
    if k > 0 {
      ReadOnlyKeepsFiles(s, k - 1);
      assert s.StepAt(k - 1);
    }
  }

  // ---- The audit log ----

  /** The outcome that the log gives for what was answered with `error`, if it says so in its own
      words. */
  predicate Explains(outcome: Audit.OpResult, error: DaemonError) {
    match error
    case PathNotAllowed(_) => outcome == Audit.Denied(Audit.NotInWorkspace)
    case SizeLimitExceeded(size, max) => outcome == Audit.Denied(Audit.SizeOverCap(size, max))
    case MtimeMismatch(expected, actual) =>
      || outcome == Audit.Denied(Audit.MtimeDiffers(expected, actual))
      || (actual == 0 && outcome == Audit.Denied(Audit.MissingButExpected(expected)))
    case Io(message) => outcome == Audit.Error(message)
    case Timeout => outcome == Audit.Error("timed out")
    case _ => !outcome.Ok?
  }

  /** `v` tells what happened to request `r`, answered by `resp`. */
  predicate Tells(v: Audit.Event, r: Request, resp: Response) {
    match (r, resp)
    case (ReadFile(q), ReadFileResult(result)) =>
      && v.Read? && v.path == q.path
      && (v.result.Ok? <==> result.Ok?) && (result.Err? ==> Explains(v.result, result.error))
      && (v.result.Denied? <==> result.Err? && (result.error.PathNotAllowed? || result.error.SizeLimitExceeded?))
      && (result.Err? && result.error.NotFound? ==> v.result == Audit.Error("not found"))
      && (result.Err? && result.error.PermissionDenied? ==> v.result == Audit.Error("permission denied"))
      && v.bytes == (if result.Ok? then result.value.size else 0)
      && (result.Ok? && |result.value.data| < 0x1_0000_0000_0000_0000 ==> v.bytes == |result.value.data|)
    case (WriteFile(q), WriteFileResult(result)) =>
      && v.Write? && v.path == q.path && v.mtimeCheck == q.ifMtimeMatches.Some?
      && (v.result.Ok? <==> result.Ok?) && (result.Err? ==> Explains(v.result, result.error))
      && (result == Err(PermissionDenied("read-only mode")) && v.result.Denied? ==> v.result == Audit.Denied(Audit.ReadOnlyMode))
      && (|q.data| < 0x1_0000_0000_0000_0000 ==> v.bytes == |q.data|)
    case (ListDir(q), ListDirResult(result)) =>
      && v.List? && v.path == q.path
      && (v.result.Ok? <==> result.Ok?) && (result.Err? ==> Explains(v.result, result.error))
      && (v.result.Denied? <==> result.Err? && result.error.PathNotAllowed?)
      && (result.Err? && result.error.NotFound? ==> v.result == Audit.Error("not found"))
      && (result.Err? && result.error.PermissionDenied? ==> v.result == Audit.Error("permission denied"))
      && v.entries == (if result.Ok? then |result.value.entries| else 0)
    case (Exec(q), ExecResult(result)) =>
      && v.Exec? && v.cmd == q.command
      && (v.result.Ok? <==> result.Ok?) && (result.Err? ==> Explains(v.result, result.error))
      && (result.Err? && result.error.PermissionDenied? ==>
            v.result == Audit.Denied(Audit.ExecDenied(result.error.message)))
      && (v.timedOut <==> result == Err(Timeout))
      && (result.Err? ==> v.exitCode == None)
      && (result.Ok? ==> (v.exitCode, v.durationMs, v.outputTruncated)
                         == (result.value.exitCode, result.value.durationMs, result.value.outputTruncated))
      && (result.Ok? ==> !result.value.timedOut)
    case _ => false
  }

  ghost predicate Recorded(s: Session, k: nat)
    requires s.Valid() && k < |s.requests|
  {
    !s.requests[k].Ping? && s.Luck(k).logged
  }

  /** `events` tells of the recorded ones among the first `k` requests, one event each, in order. */
  ghost predicate TellsAll(s: Session, events: seq<Audit.Event>, k: nat)
    requires s.Valid() && k <= |s.requests|
  {
    if k == 0 then events == []
    else if !Recorded(s, k - 1) then TellsAll(s, events, k - 1)
    else
      var n := |events|;
      && n > 0 && Tells(events[n - 1], s.requests[k - 1], s.answers[k - 1])
      && TellsAll(s, events[..n - 1], k - 1)
  }

  lemma ReadIsTold(site: Site, l: Luck, files: map<string, Version>, q: ReadFileReq)
    ensures var (v, result) := ReadFileSpec(site, l, files, q);
            Tells(v, ReadFile(q), ReadFileResult(result))
  {
  }

  lemma WriteIsTold(site: Site, l: Luck, files: map<string, Version>, q: WriteFileReq)
    ensures var (_, op, result) := WriteFileSpec(site, l, files, q);
            Tells(Audit.Write(q.path, Codec.Length(|q.data|), q.ifMtimeMatches.Some?, op),
                  WriteFile(q), WriteFileResult(result))
  {
  }

  lemma ListIsTold(site: Site, l: Luck, q: ListDirReq)
    ensures var (v, result) := ListDirSpec(site, l, q);
            Tells(v, ListDir(q), ListDirResult(result))
  {
  }

  lemma ExecIsTold(site: Site, l: Luck, q: ExecReq)
    ensures var (v, result) := ExecSpec(site, l, q);
            Tells(v, Exec(q), ExecResult(result))
  {
  }

  /** What the log says of a command that did not come to an end by itself: the time it took, and for
      one that was stopped at its deadline whether output was missing. */
  lemma StoppedIsTold(site: Site, l: Luck, q: ExecReq)
    requires site.execAllowed(q.command) && l.exec.Spawned?
    ensures var (v, result) := ExecSpec(site, l, q);
            var max := if q.maxOutputBytes < site.cfg.maxOutputBytes then q.maxOutputBytes else site.cfg.maxOutputBytes;
            && (result == Err(Timeout) ==>
                  && v.durationMs == (if l.exec.totalMs > 0xFFFF_FFFF then 0xFFFF_FFFF else l.exec.totalMs)
                  && (v.outputTruncated <==> |E.Output(l.exec.stdout)| > max || |E.Output(l.exec.stderr)| > max))
            && (result.Err? && result.error.Io? ==>
                  v.durationMs == l.exec.totalMs % 0x1_0000_0000 && !v.timedOut && !v.outputTruncated)
  {
  }

  /** One request appends its event if it is recorded, and nothing otherwise. */
  lemma OneEvent(s: Session, k: nat)
    requires s.Valid() && k < |s.requests|
    ensures var was, now := s.worlds[k].log, s.worlds[k + 1].log;
            if Recorded(s, k) then
              now != [] && now[..|now| - 1] == was && Tells(now[|now| - 1], s.requests[k], s.answers[k])
            else now == was
  {
    assert s.StepAt(k);
    var l, files := s.Luck(k), s.worlds[k].files;
    match s.requests[k]
    case ReadFile(q) => ReadIsTold(s.site, l, files, q);
    case WriteFile(q) => WriteIsTold(s.site, l, files, q);
    case ListDir(q) => ListIsTold(s.site, l, q);
    case Exec(q) => ExecIsTold(s.site, l, q);
    case Ping =>
  }

  /** Over any run the log only grows, and what it gains tells of every recorded request, in
      order: exactly one event for each request but Ping whose append succeeded. */
  lemma {:induction false} LogTellsTheRun(s: Session, k: nat)
    requires s.Valid() && k <= |s.requests|
    ensures var now := s.worlds[k].log;
            s.worlds[0].log <= now && TellsAll(s, now[|s.worlds[0].log|..], k)
  {
    if k > 0 {
      LogTellsTheRun(s, k - 1);
      OneEvent(s, k - 1);
      var n := |s.worlds[0].log|;
      var was, now := s.worlds[k - 1].log, s.worlds[k].log;
      if Recorded(s, k - 1) {
        assert now[n..][..|now[n..]| - 1] == was[n..];
      }
    }
  }
}
