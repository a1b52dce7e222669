/** ReadFile and WriteFile handlers running concurrently, one task per tunnel stream, over one
    file system. A task moves one system call at a time; any number of tasks interleave freely;
    a call may fail, the process may die, and the machine may lose power, between any two moves. */
module Interleaving {
  import opened Base

  type Data = seq<byte>

  /** The directory entry a request's path resolves to. */
  type Path = string

  /** Temp files get fresh random names, here told apart by the number of their maker. */
  datatype Name = Plain(path: Path) | Temp(task: nat)

  datatype Inode = Inode(data: Data, stamp: i64, synced: bool)

  // `statAt` and `openAt` are indices into the history of versions of the path, kept for the proof.
  datatype ReaderPc =
    | ReadStart
    | Statted(stamp: i64, statAt: nat)
    | Reading(stamp: i64, statAt: nat, fd: nat, openAt: nat, buf: Data)
    | ReadDone(stamp: i64, statAt: nat, fd: nat, openAt: nat, data: Data)
    | ReadFailed

  datatype WriterPc =
    | WriteStart
    | Checked
    | Staged(tmp: nat, written: nat)
    | Synced(tmp: nat)
    | Renamed
    | WriteDone(stamp: i64)
    | WriteFailed
    | Killed(renamed: bool)

  datatype Task =
    | Reader(path: Path, cap: nat, rpc: ReaderPc)
    | Writer(path: Path, data: Data, expected: Option<i64>, wpc: WriterPc)

  /** `versions` records, per path, every inode ever put in place there, in order. No step's guard
      reads it. */
  datatype State = State(dir: map<Name, nat>, inodes: seq<Inode>, tasks: seq<Task>, versions: map<Path, seq<nat>>)

  datatype Move =
    | Stat | Open | ReadSome(n: nat) | FinishRead
    | Check | CreateTemp(at: i64) | WriteSome(n: nat, at: i64) | Sync | Rename | Restat
    | Fail

  datatype Action =
    | Spawn(task: Task)
    | Run(t: nat, move: Move)
    | Kill
    | PowerLoss(torn: seq<Inode>, back: map<Path, Option<nat>>)

  // ---- Reading the state ----

  function Versions(s: State, p: Path): seq<nat> {
    if p in s.versions then s.versions[p] else []
  }

  predicate Bound(s: State, p: Path) {
    Plain(p) in s.dir && s.dir[Plain(p)] < |s.inodes|
  }

  function Current(s: State, p: Path): Inode
    requires Bound(s, p)
  {
    s.inodes[s.dir[Plain(p)]]
  }

  // ---- Steps ----

  predicate IsNew(task: Task) {
    match task
    case Reader(_, _, pc) => pc == ReadStart
    case Writer(_, _, _, pc) => pc == WriteStart
  }

  function SetTask(s: State, t: nat, task: Task): State
    requires t < |s.tasks|
  {
    s.(tasks := s.tasks[t := task])
  }

  function IndexOf(ids: seq<nat>, id: nat): (i: nat)
    ensures id in ids ==> i < |ids| && ids[i] == id
  {
    if ids == [] || ids[0] == id then 0 else 1 + IndexOf(ids[1..], id)
  }

  /** The index of the version that stands at a bound path. */
  function CurrentVersion(s: State, p: Path): nat {
    if Plain(p) in s.dir then IndexOf(Versions(s, p), s.dir[Plain(p)]) else 0
  }

  function ReaderPcAfter(s: State, task: Task, move: Move): Option<ReaderPc>
    requires task.Reader?
  {
    var p := task.path;
    match (task.rpc, move)
    case (ReadStart, Stat) =>
      if !Bound(s, p) || |Current(s, p).data| > task.cap then Some(ReadFailed)
      else Some(Statted(Current(s, p).stamp, CurrentVersion(s, p)))
    case (Statted(stamp, statAt), Open) =>
      if !Bound(s, p) then Some(ReadFailed)
      else Some(Reading(stamp, statAt, s.dir[Plain(p)], CurrentVersion(s, p), []))
    case (Reading(stamp, statAt, fd, openAt, buf), ReadSome(n)) =>
      if fd < |s.inodes| && 0 < n && |buf| + n <= |s.inodes[fd].data|
      then Some(Reading(stamp, statAt, fd, openAt, buf + s.inodes[fd].data[|buf|..|buf| + n]))
      else None
    case (Reading(stamp, statAt, fd, openAt, buf), FinishRead) =>
      if fd < |s.inodes| && |s.inodes[fd].data| <= |buf|
      then Some(ReadDone(stamp, statAt, fd, openAt, buf))
      else None
    case (ReadStart, Fail) => Some(ReadFailed)
    case (Statted(_, _), Fail) => Some(ReadFailed)
    case (Reading(_, _, _, _, _), Fail) => Some(ReadFailed)
    case _ => None
  }

  predicate CheckPasses(s: State, p: Path, expected: Option<i64>) {
    expected.Some? ==> Bound(s, p) && Current(s, p).stamp == expected.value
  }

  function WriterStep(s: State, t: nat, move: Move): Option<State>
    requires t < |s.tasks| && s.tasks[t].Writer?
  {
    var task := s.tasks[t];
    var p := task.path;
    match (task.wpc, move)
    case (WriteStart, Check) =>
      Some(SetTask(s, t, task.(wpc := if CheckPasses(s, p, task.expected) then Checked else WriteFailed)))
    case (Checked, CreateTemp(at)) =>
      var id := |s.inodes|;
      Some(SetTask(s, t, task.(wpc := Staged(id, 0)))
           .(inodes := s.inodes + [Inode([], at, false)], dir := s.dir[Temp(t) := id]))
    case (Staged(tmp, w), WriteSome(n, at)) =>
      if tmp < |s.inodes| && 0 < n && w + n <= |task.data|
      then
        var more := s.inodes[tmp].data + task.data[w..w + n];
        Some(SetTask(s, t, task.(wpc := Staged(tmp, w + n)))
             .(inodes := s.inodes[tmp := Inode(more, at, false)]))
      else None
    case (Staged(tmp, w), Sync) =>
      if tmp < |s.inodes| && w == |task.data|
      then Some(SetTask(s, t, task.(wpc := Synced(tmp)))
                .(inodes := s.inodes[tmp := s.inodes[tmp].(synced := true)]))
      else None
    case (Synced(tmp), Rename) =>
      if Temp(t) in s.dir
      then
        var id := s.dir[Temp(t)];
        Some(SetTask(s, t, task.(wpc := Renamed))
             .(dir := (s.dir - {Temp(t)})[Plain(p) := id], versions := s.versions[p := Versions(s, p) + [id]]))
      else None
    case (Renamed, Restat) =>
      Some(SetTask(s, t, task.(wpc := WriteDone(if Bound(s, p) then Current(s, p).stamp else 0))))
    case _ => None
  }

  /** An I/O error: an unfinished write reports it and its temp file is deleted, but once the
      rename has happened only the final stat is left, and its failure still answers Ok. */
  function WriterFails(s: State, t: nat): Option<State>
    requires t < |s.tasks| && s.tasks[t].Writer?
  {
    var task := s.tasks[t];
    match task.wpc
    case Renamed => Some(SetTask(s, t, task.(wpc := WriteDone(0))))
    case WriteDone(_) => None
    case WriteFailed => None
    case Killed(_) => None
    case _ => Some(SetTask(s, t, task.(wpc := WriteFailed)).(dir := s.dir - {Temp(t)}))
  }

  /** The process dies: finished tasks keep their results, temp files stay behind. */
  function AfterKill(task: Task): Task {
    match task
    case Reader(_, _, pc) => if pc.ReadDone? then task else task.(rpc := ReadFailed)
    case Writer(_, _, _, pc) =>
      if pc.WriteDone? || pc.WriteFailed? || pc.Killed? then task
      else task.(wpc := Killed(pc.Renamed?))
  }

  function KillAll(s: State): State {
    s.(tasks := seq(|s.tasks|, i requires 0 <= i < |s.tasks| => AfterKill(s.tasks[i])))
  }

  /** What may survive a power loss: synced inodes keep their contents and others may hold
      anything; a path may fall back to an earlier version, or to absence if it was absent in
      `start`. */
  predicate MaySurvive(start: State, s: State, torn: seq<Inode>, back: map<Path, Option<nat>>) {
    && |torn| == |s.inodes|
    && (forall i | 0 <= i < |torn| :: s.inodes[i].synced ==> torn[i] == s.inodes[i])
    && (forall p | p in back ::
          match back[p]
          case Some(k) => k < |Versions(s, p)|
          case None => Plain(p) !in start.dir)
  }

  function DirAfterLoss(s: State, back: map<Path, Option<nat>>): map<Name, nat>
    requires forall p | p in back && back[p].Some? :: back[p].value < |Versions(s, p)|
  {
    map n | n in s.dir.Keys + (set p | p in back :: Plain(p)) &&
            (n.Temp? || n.path !in back || back[n.path].Some?)
          :: if n.Temp? || n.path !in back then s.dir[n] else Versions(s, n.path)[back[n.path].value]
  }

  function Step(start: State, s: State, a: Action): Option<State> {
    match a
    case Spawn(task) => if IsNew(task) then Some(s.(tasks := s.tasks + [task])) else None
    case Run(t, move) =>
      if t >= |s.tasks| then None
      else if s.tasks[t].Writer? then (if move.Fail? then WriterFails(s, t) else WriterStep(s, t, move))
      else
        (match ReaderPcAfter(s, s.tasks[t], move)
         case None => None
         case Some(pc) => Some(SetTask(s, t, s.tasks[t].(rpc := pc))))
    case Kill => Some(KillAll(s))
    case PowerLoss(torn, back) =>
      if MaySurvive(start, s, torn, back)
      then Some(KillAll(s).(inodes := torn, dir := DirAfterLoss(s, back)))
      else None
  }

  function Execute(start: State, s: State, actions: seq<Action>): Option<State>
    decreases |actions|
  {
    if actions == [] then Some(s)
    else
      match Step(start, s, actions[0])
      case None => None
      case Some(s') => Execute(start, s', actions[1..])
  }

  /** Before the daemon starts: no tasks, every file on stable storage. */
  ghost predicate Init(s: State) {
    && s.tasks == []
    && (forall n | n in s.dir :: n.Plain? && s.dir[n] < |s.inodes| && s.inodes[s.dir[n]].synced)
    && (forall p :: Versions(s, p) == if Plain(p) in s.dir then [s.dir[Plain(p)]] else [])
  }
}
