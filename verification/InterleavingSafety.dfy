/** What every step of the concurrent handlers keeps, and what follows for whole runs. */
module InterleavingSafety {
  import opened Base
  import opened Interleaving

  // ---- The invariant ----

  /** A write whose rename has taken place. */
  predicate Committed(task: Task) {
    task.Writer? && (task.wpc.Renamed? || task.wpc.WriteDone? || task.wpc == Killed(true))
  }

  predicate Wrote(task: Task, p: Path, d: Data) {
    Committed(task) && task.path == p && task.data == d
  }

  /** `d` is what the path held at the start, or all the data of a write that took effect. */
  ghost predicate CompleteVersion(start: State, s: State, p: Path, d: Data) {
    || (Bound(start, p) && Current(start, p).data == d)
    || exists t :: 0 <= t < |s.tasks| && Wrote(s.tasks[t], p, d)
  }

  ghost predicate VersionOk(start: State, s: State, p: Path, id: nat) {
    id < |s.inodes| && s.inodes[id].synced && CompleteVersion(start, s, p, s.inodes[id].data)
  }

  ghost predicate HistoryOk(start: State, s: State) {
    forall p, k | 0 <= k < |Versions(s, p)| :: VersionOk(start, s, p, Versions(s, p)[k])
  }

  /** A version is put in place once. */
  ghost predicate Once(s: State) {
    forall p, j, k | 0 <= j < k < |Versions(s, p)| :: Versions(s, p)[j] != Versions(s, p)[k]
  }

  ghost predicate BindingOk(start: State, s: State, p: Path) {
    && (Plain(p) in s.dir ==> s.dir[Plain(p)] in Versions(s, p))
    && (Plain(p) in start.dir ==> Plain(p) in s.dir)
  }

  function TmpOf(task: Task): Option<nat> {
    match task
    case Writer(_, _, _, Staged(tmp, _)) => Some(tmp)
    case Writer(_, _, _, Synced(tmp)) => Some(tmp)
    case _ => None
  }

  /** The indices of a reader are those of the versions it has examined and opened. */
  ghost predicate StatOk(s: State, p: Path, stamp: i64, statAt: nat) {
    && statAt < |Versions(s, p)| && Versions(s, p)[statAt] < |s.inodes|
    && s.inodes[Versions(s, p)[statAt]].stamp == stamp
  }

  ghost predicate OpenOk(s: State, p: Path, fd: nat, openAt: nat) {
    && openAt < |Versions(s, p)| && Versions(s, p)[openAt] == fd
    && fd < |s.inodes|
  }

  ghost predicate TaskOk(s: State, t: nat, task: Task) {
    match task
    case Reader(p, _, Statted(stamp, statAt)) => StatOk(s, p, stamp, statAt)
    case Reader(p, _, Reading(stamp, statAt, fd, openAt, buf)) =>
      StatOk(s, p, stamp, statAt) && OpenOk(s, p, fd, openAt) && buf <= s.inodes[fd].data
    case Reader(p, _, ReadDone(stamp, statAt, fd, openAt, data)) =>
      StatOk(s, p, stamp, statAt) && OpenOk(s, p, fd, openAt) && data == s.inodes[fd].data
    case Writer(_, data, _, Staged(tmp, w)) =>
      TempOk(s, t, tmp) && w <= |data| && s.inodes[tmp].data == data[..w]
    case Writer(_, data, _, Synced(tmp)) =>
      TempOk(s, t, tmp) && s.inodes[tmp].synced && s.inodes[tmp].data == data
    case _ => true
  }

  ghost predicate TempOk(s: State, t: nat, tmp: nat) {
    tmp < |s.inodes| && Temp(t) in s.dir && s.dir[Temp(t)] == tmp
  }

  ghost predicate Unversioned(s: State, id: nat) {
    forall p, k | 0 <= k < |Versions(s, p)| :: Versions(s, p)[k] != id
  }

  /** No temp file is shared between tasks or already in place. */
  ghost predicate TempsPrivate(s: State) {
    forall t | 0 <= t < |s.tasks| && TmpOf(s.tasks[t]).Some? ::
      && Unversioned(s, TmpOf(s.tasks[t]).value)
      && forall u | 0 <= u < |s.tasks| && u != t :: TmpOf(s.tasks[u]) != TmpOf(s.tasks[t])
  }

  ghost predicate Inv(start: State, s: State) {
    && HistoryOk(start, s)
    && (forall p :: BindingOk(start, s, p))
    && (forall t | 0 <= t < |s.tasks| :: TaskOk(s, t, s.tasks[t]))
    && TempsPrivate(s)
    && Once(s)
  }

  // ---- What no step takes back ----

  ghost predicate SameJob(a: Task, b: Task) {
    && a.path == b.path
    && (a.Reader? <==> b.Reader?)
    && (a.Writer? ==> a.data == b.data && (Committed(a) ==> Committed(b)))
  }

  ghost predicate Grows(s: State, s': State) {
    && |s.inodes| <= |s'.inodes|
    && (forall p, k | 0 <= k < |Versions(s, p)| && Versions(s, p)[k] < |s.inodes| ::
          s'.inodes[Versions(s, p)[k]] == s.inodes[Versions(s, p)[k]])
    && (forall p :: Versions(s, p) <= Versions(s', p))
    && |s.tasks| <= |s'.tasks|
    && (forall t | 0 <= t < |s.tasks| :: SameJob(s.tasks[t], s'.tasks[t]))
  }

  lemma VersionGrows(start: State, s: State, s': State, p: Path, id: nat)
    requires Grows(s, s') && VersionOk(start, s, p, id) && id in Versions(s, p)
    ensures VersionOk(start, s', p, id)
  {
    var d := s.inodes[id].data;
    if t :| 0 <= t < |s.tasks| && Wrote(s.tasks[t], p, d) {
      assert SameJob(s.tasks[t], s'.tasks[t]);
      assert Wrote(s'.tasks[t], p, d);
    }
  }

  lemma HistoryGrows(start: State, s: State, s': State)
    requires HistoryOk(start, s) && Grows(s, s')
    ensures forall p, k | 0 <= k < |Versions(s, p)| :: VersionOk(start, s', p, Versions(s', p)[k])
  {
    forall p, k | 0 <= k < |Versions(s, p)|
      ensures VersionOk(start, s', p, Versions(s', p)[k])
    {
      assert Versions(s, p) <= Versions(s', p);
      VersionGrows(start, s, s', p, Versions(s, p)[k]);
    }
  }

  /** A reader's facts do not depend on what others do. */
  lemma ReaderGrows(start: State, s: State, s': State, t: nat)
    requires Inv(start, s) && Grows(s, s')
    requires t < |s.tasks| && s.tasks[t].Reader?
    ensures TaskOk(s', t, s.tasks[t])
  {
    var p := s.tasks[t].path;
    assert TaskOk(s, t, s.tasks[t]);
    assert Versions(s, p) <= Versions(s', p);
    assert forall k | 0 <= k < |Versions(s, p)| :: VersionOk(start, s, p, Versions(s, p)[k]);
  }

  // ---- Steps that leave every path alone ----

  /** Steps that leave every path's binding and history alone and change only inodes that are no
      path's version. */
  ghost predicate OnTheSide(s: State, s': State, t: nat) {
    && t < |s.tasks| && |s'.tasks| == |s.tasks|
    && SameJob(s.tasks[t], s'.tasks[t])
    && (forall u | 0 <= u < |s.tasks| && u != t :: s'.tasks[u] == s.tasks[u])
    && s'.versions == s.versions
    && (forall n | n != Temp(t) :: (n in s'.dir <==> n in s.dir) && (n in s.dir ==> s'.dir[n] == s.dir[n]))
    && |s.inodes| <= |s'.inodes|
  }

  /** The only inode that changes is the one `t` works on. */
  ghost predicate OnlyTmp(s: State, s': State, t: nat)
    requires |s.inodes| <= |s'.inodes| && t < |s.tasks|
  {
    forall i | 0 <= i < |s.inodes| && TmpOf(s.tasks[t]) != Some(i) :: s'.inodes[i] == s.inodes[i]
  }

  lemma SideGrows(start: State, s: State, s': State, t: nat)
    requires Inv(start, s) && OnTheSide(s, s', t) && OnlyTmp(s, s', t)
    ensures Grows(s, s')
  {
    forall p ensures Versions(s', p) == Versions(s, p) {}
    assert TmpOf(s.tasks[t]).Some? ==> Unversioned(s, TmpOf(s.tasks[t]).value);
  }

  lemma SideKeeps(start: State, s: State, s': State, t: nat)
    requires Inv(start, s) && OnTheSide(s, s', t) && OnlyTmp(s, s', t)
    requires TaskOk(s', t, s'.tasks[t])
    requires match TmpOf(s'.tasks[t])
             case None => true
             case Some(id) => TmpOf(s.tasks[t]) == Some(id) || (TmpOf(s.tasks[t]).None? && id == |s.inodes|)
    ensures Inv(start, s') && Grows(s, s')
  {
    SideGrows(start, s, s', t);
    HistoryGrows(start, s, s');
    forall p ensures Versions(s', p) == Versions(s, p) && BindingOk(start, s', p) {
      assert BindingOk(start, s, p);
    }
    forall u | 0 <= u < |s'.tasks| ensures TaskOk(s', u, s'.tasks[u]) {
      if u != t {
        SideTask(start, s, s', t, u);
      }
    }
    SidePrivate(start, s, s', t);
  }

  lemma SideTask(start: State, s: State, s': State, t: nat, u: nat)
    requires Inv(start, s) && OnTheSide(s, s', t) && OnlyTmp(s, s', t) && Grows(s, s')
    requires u < |s.tasks| && u != t
    ensures TaskOk(s', u, s.tasks[u])
  {
    assert TaskOk(s, u, s.tasks[u]);
    if s.tasks[u].Reader? {
      ReaderGrows(start, s, s', u);
    } else {
      assert TmpOf(s.tasks[u]).Some? ==> TmpOf(s.tasks[t]) != TmpOf(s.tasks[u]);
    }
  }

  lemma SidePrivate(start: State, s: State, s': State, t: nat)
    requires Inv(start, s) && OnTheSide(s, s', t)
    requires match TmpOf(s'.tasks[t])
             case None => true
             case Some(id) => TmpOf(s.tasks[t]) == Some(id) || (TmpOf(s.tasks[t]).None? && id == |s.inodes|)
    ensures TempsPrivate(s')
  {
    forall p ensures Versions(s', p) == Versions(s, p) {}
    forall u | 0 <= u < |s.tasks| && TmpOf(s.tasks[u]).Some?
      ensures TmpOf(s.tasks[u]).value < |s.inodes| && Unversioned(s', TmpOf(s.tasks[u]).value)
    {
      assert TaskOk(s, u, s.tasks[u]);
      assert Unversioned(s, TmpOf(s.tasks[u]).value);
    }
    assert forall p, k | 0 <= k < |Versions(s, p)| :: VersionOk(start, s, p, Versions(s, p)[k]);
    assert Unversioned(s', |s.inodes|);
  }

  lemma ReaderKeeps(start: State, s: State, s': State, t: nat, move: Move)
    requires Inv(start, s) && t < |s.tasks| && s.tasks[t].Reader?
    requires Step(start, s, Run(t, move)) == Some(s')
    ensures Inv(start, s') && Grows(s, s')
  {
    var task := s.tasks[t];
    var p := task.path;
    var task' := task.(rpc := ReaderPcAfter(s, task, move).value);
    assert TaskOk(s, t, task);
    assert BindingOk(start, s, p);
    assert forall k | 0 <= k < |Versions(s, p)| :: VersionOk(start, s, p, Versions(s, p)[k]);
    assert s'.tasks[t] == task' && TaskOk(s', t, task');
    SideKeeps(start, s, s', t);
  }

  lemma WriterPcKeeps(start: State, s: State, s': State, t: nat, move: Move)
    requires Inv(start, s) && t < |s.tasks| && s.tasks[t].Writer?
    requires move.Check? || move.Restat?
    requires Step(start, s, Run(t, move)) == Some(s')
    ensures Inv(start, s') && Grows(s, s')
  {
    SideKeeps(start, s, s', t);
  }

  lemma TempStepKeeps(start: State, s: State, s': State, t: nat, move: Move)
    requires Inv(start, s) && t < |s.tasks| && s.tasks[t].Writer?
    requires move.CreateTemp? || move.Sync? || move.Fail?
    requires Step(start, s, Run(t, move)) == Some(s')
    ensures Inv(start, s') && Grows(s, s')
  {
    var task := s.tasks[t];
    assert TaskOk(s, t, task);
    if move.Sync? {
      assert task.data[..task.wpc.written] == task.data;
    }
    SideKeeps(start, s, s', t);
  }

  lemma WriteSomeKeeps(start: State, s: State, s': State, t: nat, n: nat, at: i64)
    requires Inv(start, s) && t < |s.tasks| && s.tasks[t].Writer?
    requires Step(start, s, Run(t, WriteSome(n, at))) == Some(s')
    ensures Inv(start, s') && Grows(s, s')
  {
    var task := s.tasks[t];
    var w := task.wpc.written;
    assert TaskOk(s, t, task);
    assert task.data[..w] + task.data[w..w + n] == task.data[..w + n];
    SideKeeps(start, s, s', t);
  }

  // ---- The commit point ----

  /** `id` has been moved from `t`'s temp name onto its path. */
  ghost predicate Moved(s: State, s': State, t: nat, id: nat) {
    && t < |s.tasks| && s.tasks[t].Writer? && s.tasks[t].wpc == Synced(id)
    && s'.inodes == s.inodes
    && |s'.tasks| == |s.tasks|
    && s'.tasks[t] == s.tasks[t].(wpc := Renamed)
    && (forall u | 0 <= u < |s.tasks| && u != t :: s'.tasks[u] == s.tasks[u])
    && (forall q :: Versions(s', q) == if q == s.tasks[t].path then Versions(s, q) + [id] else Versions(s, q))
    && (forall q | q != s.tasks[t].path :: Plain(q) in s'.dir <==> Plain(q) in s.dir)
    && (forall q | q != s.tasks[t].path && Plain(q) in s.dir :: s'.dir[Plain(q)] == s.dir[Plain(q)])
    && Plain(s.tasks[t].path) in s'.dir && s'.dir[Plain(s.tasks[t].path)] == id
    && (forall u | u != t :: Temp(u) in s'.dir <==> Temp(u) in s.dir)
    && (forall u | u != t && Temp(u) in s.dir :: s'.dir[Temp(u)] == s.dir[Temp(u)])
  }

  lemma MovedGrows(s: State, s': State, t: nat, id: nat)
    requires Moved(s, s', t, id)
    ensures Grows(s, s')
  {
  }

  lemma MovedVersion(start: State, s: State, s': State, t: nat, id: nat)
    requires Moved(s, s', t, id) && TaskOk(s, t, s.tasks[t])
    ensures VersionOk(start, s', s.tasks[t].path, id)
  {
    assert Wrote(s'.tasks[t], s.tasks[t].path, s.tasks[t].data);
  }

  lemma MovedHistory(start: State, s: State, s': State, t: nat, id: nat)
    requires HistoryOk(start, s) && Grows(s, s') && Moved(s, s', t, id)
    requires VersionOk(start, s', s.tasks[t].path, id)
    ensures HistoryOk(start, s')
  {
    forall p, k | 0 <= k < |Versions(s', p)|
      ensures VersionOk(start, s', p, Versions(s', p)[k])
    {
      if k < |Versions(s, p)| {
        assert Versions(s', p)[k] == Versions(s, p)[k];
        VersionGrows(start, s, s', p, Versions(s, p)[k]);
      }
    }
  }

  lemma MovedBinding(start: State, s: State, s': State, t: nat, id: nat, q: Path)
    requires BindingOk(start, s, q) && Moved(s, s', t, id)
    ensures BindingOk(start, s', q)
  {
  }

  lemma MovedTasks(start: State, s: State, s': State, t: nat, id: nat, u: nat)
    requires Inv(start, s) && Moved(s, s', t, id) && Grows(s, s')
    requires u < |s.tasks|
    ensures TaskOk(s', u, s'.tasks[u])
  {
    assert TaskOk(s, u, s.tasks[u]);
    if u != t && s.tasks[u].Reader? {
      ReaderGrows(start, s, s', u);
    }
  }

  lemma MovedPrivate(start: State, s: State, s': State, t: nat, id: nat)
    requires Inv(start, s) && Moved(s, s', t, id)
    ensures TempsPrivate(s')
  {
    forall u | 0 <= u < |s'.tasks| && TmpOf(s'.tasks[u]).Some?
      ensures Unversioned(s', TmpOf(s'.tasks[u]).value)
    {
      assert Unversioned(s, TmpOf(s.tasks[u]).value);
      assert TmpOf(s.tasks[u]) != TmpOf(s.tasks[t]);
    }
  }

  lemma MovedAllTasks(start: State, s: State, s': State, t: nat, id: nat)
    requires Inv(start, s) && Moved(s, s', t, id) && Grows(s, s')
    ensures forall u | 0 <= u < |s'.tasks| :: TaskOk(s', u, s'.tasks[u])
  {
    forall u | 0 <= u < |s'.tasks| ensures TaskOk(s', u, s'.tasks[u]) {
      MovedTasks(start, s, s', t, id, u);
    }
  }

  lemma MovedOnce(start: State, s: State, s': State, t: nat, id: nat)
    requires Inv(start, s) && Moved(s, s', t, id)
    ensures Once(s')
  {
    assert Unversioned(s, TmpOf(s.tasks[t]).value);
  }

  lemma MovedKeeps(start: State, s: State, s': State, t: nat, id: nat)
    requires Inv(start, s) && Moved(s, s', t, id)
    ensures Inv(start, s') && Grows(s, s')
  {
    MovedGrows(s, s', t, id);
    assert TaskOk(s, t, s.tasks[t]);
    MovedVersion(start, s, s', t, id);
    MovedHistory(start, s, s', t, id);
    MovedPrivate(start, s, s', t, id);
    MovedAllTasks(start, s, s', t, id);
    MovedOnce(start, s, s', t, id);
    forall q ensures BindingOk(start, s', q) {
      MovedBinding(start, s, s', t, id, q);
    }
  }

  lemma RenameMoves(start: State, s: State, s': State, t: nat)
    requires t < |s.tasks| && s.tasks[t].Writer? && TaskOk(s, t, s.tasks[t])
    requires Step(start, s, Run(t, Rename)) == Some(s')
    ensures s.tasks[t].wpc.Synced? && Moved(s, s', t, s.tasks[t].wpc.tmp)
  {
  }

  lemma RenameKeeps(start: State, s: State, s': State, t: nat)
    requires Inv(start, s) && t < |s.tasks| && s.tasks[t].Writer?
    requires Step(start, s, Run(t, Rename)) == Some(s')
    ensures Inv(start, s') && Grows(s, s')
  {
    assert TaskOk(s, t, s.tasks[t]);
    RenameMoves(start, s, s', t);
    MovedKeeps(start, s, s', t, s.tasks[t].wpc.tmp);
  }

  // ---- Steps of the environment ----

  lemma SpawnGrows(start: State, s: State, s': State, task: Task)
    requires Step(start, s, Spawn(task)) == Some(s')
    ensures Grows(s, s') && s' == s.(tasks := s.tasks + [task]) && TmpOf(task).None? && !Committed(task)
  {
    forall p ensures Versions(s', p) == Versions(s, p) {}
  }

  lemma SpawnBinding(start: State, s: State, task: Task, p: Path)
    requires BindingOk(start, s, p)
    ensures BindingOk(start, s.(tasks := s.tasks + [task]), p)
  {
    assert Versions(s.(tasks := s.tasks + [task]), p) == Versions(s, p);
  }

  lemma SpawnTask(start: State, s: State, task: Task, u: nat)
    requires Inv(start, s) && IsNew(task) && u <= |s.tasks|
    ensures var s' := s.(tasks := s.tasks + [task]);
            TaskOk(s', u, s'.tasks[u])
  {
    if u < |s.tasks| {
      assert TaskOk(s, u, s.tasks[u]);
    }
  }

  lemma SpawnPrivate(start: State, s: State, task: Task)
    requires TempsPrivate(s) && TmpOf(task).None?
    ensures TempsPrivate(s.(tasks := s.tasks + [task]))
  {
    var s' := s.(tasks := s.tasks + [task]);
    forall p ensures Versions(s', p) == Versions(s, p) {}
    forall u | 0 <= u < |s'.tasks| && TmpOf(s'.tasks[u]).Some?
      ensures Unversioned(s', TmpOf(s'.tasks[u]).value)
    {
      assert Unversioned(s, TmpOf(s.tasks[u]).value);
    }
  }

  lemma SpawnKeeps(start: State, s: State, s': State, task: Task)
    requires Inv(start, s) && Step(start, s, Spawn(task)) == Some(s')
    ensures Inv(start, s') && Grows(s, s')
  {
    SpawnGrows(start, s, s', task);
    SpawnPrivate(start, s, task);
    HistoryGrows(start, s, s');
    forall p ensures Versions(s', p) == Versions(s, p) && BindingOk(start, s', p) {
      assert BindingOk(start, s, p);
      SpawnBinding(start, s, task, p);
    }
    forall u | 0 <= u < |s'.tasks| ensures TaskOk(s', u, s'.tasks[u]) {
      SpawnTask(start, s, task, u);
    }
  }

  lemma CrashGrows(start: State, s: State, s': State, a: Action)
    requires Inv(start, s) && (a.Kill? || a.PowerLoss?) && Step(start, s, a) == Some(s')
    ensures Grows(s, s') && s'.versions == s.versions
    ensures |s'.tasks| == |s.tasks|
    ensures forall u | 0 <= u < |s.tasks| :: s'.tasks[u] == AfterKill(s.tasks[u])
  {
    forall p ensures Versions(s', p) == Versions(s, p) {}
    assert forall p, k | 0 <= k < |Versions(s, p)| :: VersionOk(start, s, p, Versions(s, p)[k]);
  }

  lemma CrashBindings(start: State, s: State, s': State, a: Action, p: Path)
    requires Inv(start, s) && (a.Kill? || a.PowerLoss?) && Step(start, s, a) == Some(s')
    ensures BindingOk(start, s', p)
  {
    assert BindingOk(start, s, p);
    assert Versions(s', p) == Versions(s, p);
  }

  /** Losing every unfinished task, and whatever a power loss may take with them. */
  lemma CrashKeeps(start: State, s: State, s': State, a: Action)
    requires Inv(start, s) && (a.Kill? || a.PowerLoss?) && Step(start, s, a) == Some(s')
    ensures Inv(start, s') && Grows(s, s')
  {
    CrashGrows(start, s, s', a);
    forall p ensures Versions(s', p) == Versions(s, p) && BindingOk(start, s', p) {
      CrashBindings(start, s, s', a, p);
    }
    HistoryGrows(start, s, s');
    forall u | 0 <= u < |s'.tasks|
      ensures TaskOk(s', u, s'.tasks[u]) && TmpOf(s'.tasks[u]).None?
    {
      if s.tasks[u].Reader? {
        ReaderGrows(start, s, s', u);
      }
    }
  }

  lemma StepKeeps(start: State, s: State, s': State, a: Action)
    requires Inv(start, s) && Step(start, s, a) == Some(s')
    ensures Inv(start, s') && Grows(s, s')
  {
    match a
    case Spawn(task) => SpawnKeeps(start, s, s', task);
    case Kill => CrashKeeps(start, s, s', a);
    case PowerLoss(_, _) => CrashKeeps(start, s, s', a);
    case Run(t, move) =>
      if s.tasks[t].Reader? {
        ReaderKeeps(start, s, s', t, move);
      } else if move.Check? || move.Restat? {
        WriterPcKeeps(start, s, s', t, move);
      } else if move.Rename? {
        RenameKeeps(start, s, s', t);
      } else if move.WriteSome? {
        WriteSomeKeeps(start, s, s', t, move.n, move.at);
      } else {
        TempStepKeeps(start, s, s', t, move);
      }
  }

  lemma GrowsOn(start: State, a: State, b: State, c: State)
    requires Inv(start, a) && Grows(a, b) && Grows(b, c)
    ensures Grows(a, c)
  {
    forall p, k | 0 <= k < |Versions(a, p)| && Versions(a, p)[k] < |a.inodes|
      ensures c.inodes[Versions(a, p)[k]] == a.inodes[Versions(a, p)[k]]
    {
      assert Versions(a, p) <= Versions(b, p);
      assert Versions(b, p)[k] == Versions(a, p)[k];
    }
    forall p ensures Versions(a, p) <= Versions(c, p) {
      assert Versions(a, p) <= Versions(b, p) && Versions(b, p) <= Versions(c, p);
    }
    forall t | 0 <= t < |a.tasks| ensures SameJob(a.tasks[t], c.tasks[t]) {
      assert SameJob(a.tasks[t], b.tasks[t]) && SameJob(b.tasks[t], c.tasks[t]);
    }
  }

  lemma {:induction false} RunKeeps(start: State, s: State, actions: seq<Action>)
    requires Inv(start, s) && Execute(start, s, actions).Some?
    ensures var s' := Execute(start, s, actions).value;
            Inv(start, s') && Grows(s, s')
    decreases |actions|
  {
    if actions != [] {
      var s' := Step(start, s, actions[0]).value;
      StepKeeps(start, s, s', actions[0]);
      RunKeeps(start, s', actions[1..]);
      GrowsOn(start, s, s', Execute(start, s', actions[1..]).value);
    }
  }

  lemma InitHolds(start: State)
    requires Init(start)
    ensures Inv(start, start)
  {
  }

  // ---- Whole runs ----

  /** In every run, however interleaved and whatever crashes: no path is ever torn or loses its
      file, the data of a write that failed is never seen, and a completed read returns one
      complete version. */
  lemma NoTornVersion(start: State, actions: seq<Action>)
    requires Init(start) && Execute(start, start, actions).Some?
    ensures var s := Execute(start, start, actions).value;
            && (forall p | Bound(start, p) :: Bound(s, p))
            && (forall p | Bound(s, p) :: CompleteVersion(start, s, p, Current(s, p).data))
            && (forall t | 0 <= t < |s.tasks| && s.tasks[t].Reader? && s.tasks[t].rpc.ReadDone? ::
                  CompleteVersion(start, s, s.tasks[t].path, s.tasks[t].rpc.data))
  {
    var s := Execute(start, start, actions).value;
    InitHolds(start);
    RunKeeps(start, start, actions);
    forall p, id | id in Versions(s, p) ensures VersionOk(start, s, p, id) {
      var k :| 0 <= k < |Versions(s, p)| && Versions(s, p)[k] == id;
      assert VersionOk(start, s, p, Versions(s, p)[k]);
    }
    forall p | Plain(p) in s.dir || Plain(p) in start.dir
      ensures Bound(s, p) && VersionOk(start, s, p, s.dir[Plain(p)])
    {
      assert BindingOk(start, s, p);
    }
    forall t | 0 <= t < |s.tasks| && s.tasks[t].Reader? && s.tasks[t].rpc.ReadDone?
      ensures CompleteVersion(start, s, s.tasks[t].path, s.tasks[t].rpc.data)
    {
      assert TaskOk(s, t, s.tasks[t]);
      assert VersionOk(start, s, s.tasks[t].path, s.tasks[t].rpc.fd);
    }
  }
}
