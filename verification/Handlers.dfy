/** The request handlers, one request at a time, over a disk and an audit log.

    Whatever the environment decides (I/O errors, clocks, directory contents, child processes) is
    drawn from an oracle, one `Luck` per request. */
module Handlers {
  import opened Base
  import opened Wire
  import opened ExecRun
  import opened Configuration
  import Audit
  import Codec
  import L = ListDir

  datatype IoKind = NoSuchFile | NotPermitted | SomethingElse
  datatype IoError = IoError(kind: IoKind, text: string)

  /** `modified` is nanoseconds from the epoch, if the file system keeps such a time. */
  datatype Version = Version(data: seq<byte>, modified: Option<int>)

  datatype ExecLuck =
    | SpawnFails(message: string)
    | Spawned(child: Child, stdout: seq<Piece>, stderr: seq<Piece>, totalMs: nat)

  /** Where writing a file breaks off: its directory or temp file cannot be made, the disk has room
      for so many bytes only, or the sync or the rename fails. */
  datatype Stage = NoParent | NoTemp | Full(room: nat) | NoSync | NoRename

  /** `accepts` bounds what a write call takes of the rest; `modified` is the new file's time. */
  datatype WriteLuck = WriteLuck(accepts: nat -> nat, breaks: Option<(Stage, IoError)>, modified: Option<int>)

  /** `allowed` is the policy's verdict on paths, `entry` the file a path leads to, if it leads
      anywhere, and `target` the entry that a write to a path replaces. They may differ from one
      request to the next, as directories and links come and go. */
  datatype Luck = Luck(
    allowed: string -> bool,
    entry: string -> Option<string>,
    target: string -> string,
    statError: Option<IoError>,
    readError: Option<IoError>,
    write: WriteLuck,
    restatFails: bool,
    logged: bool,
    listing: Result<seq<L.Item>, IoError>,
    exec: ExecLuck)

  type Oracle = nat -> Luck

  /** What stays fixed while the daemon runs: its configuration and the verdicts on commands. */
  datatype Site = Site(cfg: Config, execAllowed: string -> bool)

  datatype World = World(files: map<string, Version>, log: seq<Audit.Event>, turn: nat)

  /** Nanoseconds as an i64; 0 for times before the epoch or not kept. */
  function MtimeNs(modified: Option<int>): i64 {
    if modified.None? || modified.value < 0 then 0
    else
      var n := modified.value % 0x1_0000_0000_0000_0000;
      if n < 0x8000_0000_0000_0000 then n else n - 0x1_0000_0000_0000_0000
  }

  /** A time from the epoch on is its own stamp, to the nanosecond, as long as an i64 holds it (until
      the year 2262), and keeps its low 64 bits after that; any other time gives 0. */
  lemma StampIsTime(modified: Option<int>)
    ensures modified.None? || modified.value < 0 ==> MtimeNs(modified) == 0
    ensures modified.Some? && 0 <= modified.value < 0x8000_0000_0000_0000 ==> MtimeNs(modified) == modified.value
    ensures modified.Some? && 0 <= modified.value ==> (modified.value - MtimeNs(modified)) % 0x1_0000_0000_0000_0000 == 0
  {
  }

  function Lesser(a: u64, b: u64): u64 {
    if a <= b then a else b
  }

  /** The file that a path leads to. */
  function Found(l: Luck, files: map<string, Version>, path: string): Option<Version> {
    var e := l.entry(path);
    if e.Some? && e.value in files then Some(files[e.value]) else None
  }

  /** How writing `data` ends: a full disk stops only data it has no room for. */
  function WriteFailure(l: WriteLuck, data: seq<byte>): Option<IoError> {
    match l.breaks
    case None => None
    case Some((Full(room), e)) => if room < |data| then Some(e) else None
    case Some((_, e)) => Some(e)
  }

  /** Whatever breaks off a write fails it, but for a disk that has room for all of the data. */
  lemma DiskDecides(l: WriteLuck, data: seq<byte>)
    ensures l.breaks.None? ==> WriteFailure(l, data).None?
    ensures l.breaks.Some? ==>
              var (stage, error) := l.breaks.value;
              WriteFailure(l, data) == if stage.Full? && |data| <= stage.room then None else Some(error)
  {
  }

  // ---- Specifications ----

  function ReadFileSpec(site: Site, l: Luck, files: map<string, Version>, q: ReadFileReq)
    : (Audit.Event, DaemonResult<ReadFileResp>)
  {
    var cap := Lesser(q.maxBytes, site.cfg.maxReadBytes);
    var found := Found(l, files, q.path);
    if !l.allowed(q.path) then
      (Audit.Read(q.path, 0, Audit.Denied(Audit.NotInWorkspace)), Err(PathNotAllowed(q.path)))
    else if (l.statError.None? && found.None?) || (l.statError.Some? && l.statError.value.kind.NoSuchFile?) then
      (Audit.Read(q.path, 0, Audit.Error("not found")), Err(NotFound(q.path)))
    else if l.statError.Some? && l.statError.value.kind.NotPermitted? then
      (Audit.Read(q.path, 0, Audit.Error("permission denied")), Err(PermissionDenied(q.path)))
    else if l.statError.Some? then
      (Audit.Read(q.path, 0, Audit.Error(l.statError.value.text)), Err(Io(l.statError.value.text)))
    else
      var v := found.value;
      var size := Codec.Length(|v.data|);
      if size > cap then
        (Audit.Read(q.path, 0, Audit.Denied(Audit.SizeOverCap(size, cap))), Err(SizeLimitExceeded(size, cap)))
      else if l.readError.Some? then
        (Audit.Read(q.path, 0, Audit.Error(l.readError.value.text)), Err(Io(l.readError.value.text)))
      else
        (Audit.Read(q.path, size, Audit.Ok), Ok(ReadFileResp(v.data, MtimeNs(v.modified), size)))
  }

  /** Why a conditional write is refused: the modification time reported as actual. */
  function CheckFails(l: Luck, found: Option<Version>, expected: Option<i64>): Option<(Audit.Reason, i64)> {
    if expected.None? then None
    else if found.Some? && l.statError.None? then
      var actual := MtimeNs(found.value.modified);
      if actual != expected.value then Some((Audit.MtimeDiffers(expected.value, actual), actual)) else None
    else Some((Audit.MissingButExpected(expected.value), 0))
  }

  function FromIo(e: IoError, path: string): DaemonError {
    match e.kind
    case NoSuchFile => NotFound(path)
    case NotPermitted => PermissionDenied(path)
    case SomethingElse => Io(e.text)
  }

  function WriteFileSpec(site: Site, l: Luck, files: map<string, Version>, q: WriteFileReq)
    : (map<string, Version>, Audit.OpResult, DaemonResult<WriteFileResp>)
  {
    var refusal := CheckFails(l, Found(l, files, q.path), q.ifMtimeMatches);
    var failure := WriteFailure(l.write, q.data);
    if !site.cfg.policy.WritesAllowed() then
      (files, Audit.Denied(Audit.ReadOnlyMode), Err(PermissionDenied("read-only mode")))
    else if !l.allowed(q.path) then
      (files, Audit.Denied(Audit.NotInWorkspace), Err(PathNotAllowed(q.path)))
    else if refusal.Some? then
      (files, Audit.Denied(refusal.value.0), Err(MtimeMismatch(q.ifMtimeMatches.value, refusal.value.1)))
    else if failure.Some? then
      (files, Audit.Error(failure.value.text), Err(FromIo(failure.value, q.path)))
    else
      (files[l.target(q.path) := Version(q.data, l.write.modified)], Audit.Ok,
       Ok(WriteFileResp(if l.restatFails then 0 else MtimeNs(l.write.modified))))
  }

  function ListDirSpec(site: Site, l: Luck, q: ListDirReq): (Audit.Event, DaemonResult<ListDirResp>) {
    if !l.allowed(q.path) then
      (Audit.List(q.path, 0, Audit.Denied(Audit.NotInWorkspace)), Err(PathNotAllowed(q.path)))
    else
      match l.listing
      case Ok(items) =>
        var es := L.Listing(items);
        (Audit.List(q.path, |es|, Audit.Ok), Ok(ListDirResp(es)))
      case Err(e) =>
        (Audit.List(q.path, 0, Audit.Error(match e.kind
                                           case NoSuchFile => "not found"
                                           case NotPermitted => "permission denied"
                                           case SomethingElse => e.text)),
         Err(FromIo(e, q.path)))
  }

  function DenialOf(policy: PolicyMode): string {
    match policy
    case ReadOnly(_) => "read-only mode"
    case WorkspaceAllowlistExec(_, _) => "command not in allowlist"
    case _ => "exec denied by policy"
  }

  function Capped(pieces: seq<Piece>, max: nat): seq<byte> {
    Output(pieces)[..Min(max, |Output(pieces)|)]
  }

  function ExecSpec(site: Site, l: Luck, q: ExecReq): (Audit.Event, DaemonResult<ExecResp>) {
    if !site.execAllowed(q.command) then
      var why := DenialOf(site.cfg.policy);
      (Audit.Exec(q.command, None, 0, false, false, Audit.Denied(Audit.ExecDenied(why))), Err(PermissionDenied(why)))
    else
      match l.exec
      case SpawnFails(message) =>
        (Audit.Exec(q.command, None, 0, false, false, Audit.Error(message)), Err(Io(message)))
      case Spawned(child, out, err, total) =>
        var max := Lesser(q.maxOutputBytes, site.cfg.maxOutputBytes);
        var truncated := |Output(out)| > max || |Output(err)| > max;
        var duration := if total < 0x1_0000_0000 then total else 0xFFFF_FFFF;
        match WaitFor(child, EffectiveTimeoutMs(site.cfg, q.timeoutMs))
        case WaitFailed(message) =>
          (Audit.Exec(q.command, None, total % 0x1_0000_0000, false, false, Audit.Error(message)), Err(Io(message)))
        case TimedOut =>
          (Audit.Exec(q.command, None, duration, true, truncated, Audit.Error("timed out")), Err(Timeout))
        case Finished(code) =>
          (Audit.Exec(q.command, code, duration, false, truncated, Audit.Ok),
           Ok(ExecResp(Capped(out, max), Capped(err, max), code, duration, false, truncated)))
  }

  function Logged(w: World, l: Luck, e: Audit.Event): World {
    w.(log := if l.logged then w.log + [e] else w.log, turn := w.turn + 1)
  }

  /** One request: the new world and the response. */
  function Step(site: Site, oracle: Oracle, w: World, r: Request): (World, Response) {
    var l := oracle(w.turn);
    match r
    case ReadFile(q) =>
      var (event, result) := ReadFileSpec(site, l, w.files, q);
      (Logged(w, l, event), ReadFileResult(result))
    case WriteFile(q) =>
      var (files, op, result) := WriteFileSpec(site, l, w.files, q);
      var event := Audit.Write(q.path, Codec.Length(|q.data|), q.ifMtimeMatches.Some?, op);
      (Logged(w, l, event).(files := files), WriteFileResult(result))
    case ListDir(q) =>
      var (event, result) := ListDirSpec(site, l, q);
      (Logged(w, l, event), ListDirResult(result))
    case Exec(q) =>
      var (event, result) := ExecSpec(site, l, q);
      (Logged(w, l, event), ExecResult(result))
    case Ping => (w.(turn := w.turn + 1), Pong)
  }

  // ---- The handlers ----

  class Daemon {
    const site: Site
    const oracle: Oracle
    var files: map<string, Version>
    var temp: Option<seq<byte>>
    var log: seq<Audit.Event>
    var turn: nat

    constructor (site: Site, oracle: Oracle, files: map<string, Version>)
      ensures this.site == site && this.oracle == oracle && View() == World(files, [], 0)
    {
      this.site, this.oracle, this.files, temp, log, turn := site, oracle, files, None, [], 0;
    }

    ghost function View(): World
      reads this
    {
      World(files, log, turn)
    }

    /** Appends to the audit log; callers ignore a failure. */
    method Record(l: Luck, e: Audit.Event)
      modifies `log
      ensures log == if l.logged then old(log) + [e] else old(log)
    {
      if l.logged {
        log := log + [e];
      }
    }

    method HandleRead(l: Luck, q: ReadFileReq) returns (result: DaemonResult<ReadFileResp>)
      modifies `log
      ensures result == ReadFileSpec(site, l, files, q).1
      ensures log == if l.logged then old(log) + [ReadFileSpec(site, l, files, q).0] else old(log)
    {
      if !l.allowed(q.path) {
        Record(l, Audit.Read(q.path, 0, Audit.Denied(Audit.NotInWorkspace)));
        return Err(PathNotAllowed(q.path));
      }
      var cap := Lesser(q.maxBytes, site.cfg.maxReadBytes);
      var found := Found(l, files, q.path);
      if (l.statError.None? && found.None?) || (l.statError.Some? && l.statError.value.kind.NoSuchFile?) {
        Record(l, Audit.Read(q.path, 0, Audit.Error("not found")));
        return Err(NotFound(q.path));
      }
      if l.statError.Some? {
        var error := l.statError.value;
        if error.kind.NotPermitted? {
          Record(l, Audit.Read(q.path, 0, Audit.Error("permission denied")));
          return Err(PermissionDenied(q.path));
        }
        Record(l, Audit.Read(q.path, 0, Audit.Error(error.text)));
        return Err(Io(error.text));
      }
      var meta := found.value;
      var size := Codec.Length(|meta.data|);
      if size > cap {
        Record(l, Audit.Read(q.path, 0, Audit.Denied(Audit.SizeOverCap(size, cap))));
        return Err(SizeLimitExceeded(size, cap));
      }
      if l.readError.Some? {
        Record(l, Audit.Read(q.path, 0, Audit.Error(l.readError.value.text)));
        return Err(Io(l.readError.value.text));
      }
      var data := meta.data;
      var bytes := Codec.Length(|data|);
      Record(l, Audit.Read(q.path, bytes, Audit.Ok));
      result := Ok(ReadFileResp(data, MtimeNs(meta.modified), bytes));
    }

    /** Fills a temp file piece by piece, syncs it and renames it into place. Wherever it breaks
        off, every file is as it was and no temp file is left. */
    method AtomicWrite(l: WriteLuck, target: string, data: seq<byte>) returns (error: Option<IoError>)
      modifies `files, `temp
      ensures error == WriteFailure(l, data)
      ensures files == if error.Some? then old(files) else old(files)[target := Version(data, l.modified)]
      ensures temp == None
    {
      var stage := if l.breaks.Some? then Some(l.breaks.value.0) else None;
      temp := None;
      if stage == Some(NoParent) || stage == Some(NoTemp) { return Some(l.breaks.value.1); }
      temp := Some([]);
      var calls := 0;
      while |temp.value| < |data|
        invariant temp.Some? && temp.value <= data
        invariant stage.Some? && stage.value.Full? ==> |temp.value| <= stage.value.room
        invariant files == old(files)
        decreases |data| - |temp.value|
      {
        var n := |temp.value|;
        var take := Min(l.accepts(calls) + 1, |data| - n);
        if stage.Some? && stage.value.Full? {
          if n == stage.value.room {
            temp := None;
            return Some(l.breaks.value.1);
          }
          take := Min(take, stage.value.room - n);
        }
        temp := Some(temp.value + data[n..n + take]);
        calls := calls + 1;
      }
      if stage == Some(NoSync) || stage == Some(NoRename) {
        temp := None;
        return Some(l.breaks.value.1);
      }
      assert temp.value == data;
      files, temp := files[target := Version(temp.value, l.modified)], None;
      error := None;
    }

    method HandleWrite(l: Luck, q: WriteFileReq) returns (result: DaemonResult<WriteFileResp>)
      modifies `files, `temp, `log
      ensures var (after, op, r) := WriteFileSpec(site, l, old(files), q);
              && files == after && result == r
              && log == if l.logged then old(log) + [Audit.Write(q.path, Codec.Length(|q.data|), q.ifMtimeMatches.Some?, op)]
                        else old(log)
    {
      var bytes := Codec.Length(|q.data|);
      var check := q.ifMtimeMatches.Some?;
      if !site.cfg.policy.WritesAllowed() {
        Record(l, Audit.Write(q.path, bytes, check, Audit.Denied(Audit.ReadOnlyMode)));
        return Err(PermissionDenied("read-only mode"));
      }
      if !l.allowed(q.path) {
        Record(l, Audit.Write(q.path, bytes, check, Audit.Denied(Audit.NotInWorkspace)));
        return Err(PathNotAllowed(q.path));
      }
      if q.ifMtimeMatches.Some? {
        var expected, found := q.ifMtimeMatches.value, Found(l, files, q.path);
        if found.Some? && l.statError.None? {
          var actual := MtimeNs(found.value.modified);
          if actual != expected {
            Record(l, Audit.Write(q.path, bytes, true, Audit.Denied(Audit.MtimeDiffers(expected, actual))));
            return Err(MtimeMismatch(expected, actual));
          }
        } else {
          Record(l, Audit.Write(q.path, bytes, true, Audit.Denied(Audit.MissingButExpected(expected))));
          return Err(MtimeMismatch(expected, 0));
        }
      }
      var error := AtomicWrite(l.write, l.target(q.path), q.data);
      if error.Some? {
        Record(l, Audit.Write(q.path, bytes, check, Audit.Error(error.value.text)));
        return Err(FromIo(error.value, q.path));
      }
      var mtime: i64 := if l.restatFails then 0 else MtimeNs(files[l.target(q.path)].modified);
      Record(l, Audit.Write(q.path, bytes, check, Audit.Ok));
      result := Ok(WriteFileResp(mtime));
    }

    method HandleList(l: Luck, q: ListDirReq) returns (result: DaemonResult<ListDirResp>)
      modifies `log
      ensures result == ListDirSpec(site, l, q).1
      ensures log == if l.logged then old(log) + [ListDirSpec(site, l, q).0] else old(log)
    {
      if !l.allowed(q.path) {
        Record(l, Audit.List(q.path, 0, Audit.Denied(Audit.NotInWorkspace)));
        return Err(PathNotAllowed(q.path));
      }
      if l.listing.Err? {
        var error := l.listing.error;
        match error.kind {
          case NoSuchFile =>
            Record(l, Audit.List(q.path, 0, Audit.Error("not found")));
            return Err(NotFound(q.path));
          case NotPermitted =>
            Record(l, Audit.List(q.path, 0, Audit.Error("permission denied")));
            return Err(PermissionDenied(q.path));
          case SomethingElse =>
            Record(l, Audit.List(q.path, 0, Audit.Error(error.text)));
            return Err(Io(error.text));
        }
      }
      var entries := L.ListEntries(l.listing.value);
      Record(l, Audit.List(q.path, |entries|, Audit.Ok));
      result := Ok(ListDirResp(entries));
    }

    method HandleExec(l: Luck, q: ExecReq) returns (result: DaemonResult<ExecResp>)
      modifies `log
      ensures result == ExecSpec(site, l, q).1
      ensures log == if l.logged then old(log) + [ExecSpec(site, l, q).0] else old(log)
    {
      if !site.execAllowed(q.command) {
        var why := DenialOf(site.cfg.policy);
        Record(l, Audit.Exec(q.command, None, 0, false, false, Audit.Denied(Audit.ExecDenied(why))));
        return Err(PermissionDenied(why));
      }
      var timeout := EffectiveTimeoutMs(site.cfg, q.timeoutMs);
      var max := Lesser(q.maxOutputBytes, site.cfg.maxOutputBytes);
      if l.exec.SpawnFails? {
        Record(l, Audit.Exec(q.command, None, 0, false, false, Audit.Error(l.exec.message)));
        return Err(Io(l.exec.message));
      }
      var outPipe := new Pipe(l.exec.stdout);
      var errPipe := new Pipe(l.exec.stderr);
      assert outPipe.Left() == l.exec.stdout && errPipe.Left() == l.exec.stderr;
      var wait, polls := Poll(l.exec.child, timeout);
      if wait.WaitFailed? {
        Record(l, Audit.Exec(q.command, None, l.exec.totalMs % 0x1_0000_0000, false, false, Audit.Error(wait.message)));
        return Err(Io(wait.message));
      }
      var stdout, outCut := ReadCapped(outPipe, max);
      var stderr, errCut := ReadCapped(errPipe, max);
      var truncated := outCut || errCut;
      var duration: u32 := if l.exec.totalMs < 0x1_0000_0000 then l.exec.totalMs else 0xFFFF_FFFF;
      if wait.TimedOut? {
        Record(l, Audit.Exec(q.command, None, duration, true, truncated, Audit.Error("timed out")));
        return Err(Timeout);
      }
      Record(l, Audit.Exec(q.command, wait.code, duration, false, truncated, Audit.Ok));
      result := Ok(ExecResp(stdout, stderr, wait.code, duration, false, truncated));
    }

    method Dispatch(r: Request) returns (resp: Response)
      modifies `files, `temp, `log, `turn
      ensures (View(), resp) == Step(site, oracle, old(View()), r)
    {
      var l := oracle(turn);
      match r {
        case ReadFile(q) =>
          var result := HandleRead(l, q);
          resp := ReadFileResult(result);
        case WriteFile(q) =>
          var result := HandleWrite(l, q);
          resp := WriteFileResult(result);
        case ListDir(q) =>
          var result := HandleList(l, q);
          resp := ListDirResult(result);
        case Exec(q) =>
          var result := HandleExec(l, q);
          resp := ExecResult(result);
        case Ping => resp := Pong;
      }
      turn := turn + 1;
    }
  }
}
