/** What becomes of the writes of a concurrent run: each one that took effect put its data in place
    once, and nothing else ever put anything in place. */
module InterleavingWrites {
  import opened Base
  import opened Interleaving
  import opened InterleavingSafety

  // ---- Every effective write is in the history ----

  /** Version `k` of the writer's path is a durable file with all of its data. */
  ghost predicate LandedAt(s: State, task: Task, k: nat)
    requires task.Writer?
  {
    && k < |Versions(s, task.path)| && Versions(s, task.path)[k] < |s.inodes|
    && s.inodes[Versions(s, task.path)[k]].data == task.data
    && s.inodes[Versions(s, task.path)[k]].synced
  }

  ghost predicate Landed(s: State) {
    forall t | 0 <= t < |s.tasks| && Committed(s.tasks[t]) :: exists k :: LandedAt(s, s.tasks[t], k)
  }

  /** The move that makes a write take effect. */
  predicate IsRename(s: State, a: Action) {
    a.Run? && a.move.Rename? && a.t < |s.tasks| && s.tasks[a.t].Writer? && s.tasks[a.t].wpc.Synced?
  }

  lemma TasksStay(start: State, s: State, s': State, a: Action)
    requires Step(start, s, a) == Some(s')
    ensures |s.tasks| <= |s'.tasks|
  {
  }

  lemma WriterCommits(s: State, s': State, u: nat, move: Move, t: nat)
    requires u < |s.tasks| && s.tasks[u].Writer? && t < |s.tasks|
    requires (if move.Fail? then WriterFails(s, u) else WriterStep(s, u, move)) == Some(s')
    ensures |s'.tasks| == |s.tasks| && s'.tasks[t].path == s.tasks[t].path
    ensures Committed(s'.tasks[t]) <==>
            Committed(s.tasks[t]) || (move.Rename? && s.tasks[u].wpc.Synced? && u == t)
  {
    if u == t {
      assert Committed(s.tasks[t]) <==> s.tasks[t].wpc.Renamed? || s.tasks[t].wpc.WriteDone? || s.tasks[t].wpc == Killed(true);
    }
  }

  lemma ReaderCommits(s: State, s': State, u: nat, move: Move, t: nat)
    requires u < |s.tasks| && s.tasks[u].Reader? && t < |s.tasks|
    requires ReaderPcAfter(s, s.tasks[u], move).Some?
    requires s' == SetTask(s, u, s.tasks[u].(rpc := ReaderPcAfter(s, s.tasks[u], move).value))
    ensures |s'.tasks| == |s.tasks| && s'.tasks[t].path == s.tasks[t].path
    ensures Committed(s'.tasks[t]) <==> Committed(s.tasks[t])
  {
  }

  /** Whose write takes effect in a step: only the renaming task's, and only then. */
  lemma CommitsByRename(start: State, s: State, s': State, a: Action, t: nat)
    requires Step(start, s, a) == Some(s') && t < |s'.tasks|
    ensures |s.tasks| <= |s'.tasks|
    ensures t < |s.tasks| ==> s'.tasks[t].path == s.tasks[t].path
    ensures Committed(s'.tasks[t]) <==>
            (t < |s.tasks| && Committed(s.tasks[t])) || (IsRename(s, a) && a.t == t)
  {
    TasksStay(start, s, s', a);
    match a
    case Run(u, move) =>
      if s.tasks[u].Writer? {
        WriterCommits(s, s', u, move, t);
      } else {
        ReaderCommits(s, s', u, move, t);
      }
    case _ => CrashCommits(start, s, s', a, t);
  }

  lemma CrashCommits(start: State, s: State, s': State, a: Action, t: nat)
    requires !a.Run? && Step(start, s, a) == Some(s') && t < |s'.tasks|
    ensures t < |s.tasks| ==> s'.tasks[t].path == s.tasks[t].path
    ensures Committed(s'.tasks[t]) <==> t < |s.tasks| && Committed(s.tasks[t])
  {
  }

  lemma RenameLands(start: State, s: State, s': State, t: nat)
    requires Inv(start, s) && t < |s.tasks| && s.tasks[t].Writer? && s.tasks[t].wpc.Synced?
    requires WriterStep(s, t, Rename) == Some(s')
    ensures var p := s.tasks[t].path;
            s'.tasks[t].Writer? && LandedAt(s', s'.tasks[t], |Versions(s, p)|)
            && Versions(s', p) == Versions(s, p) + [s.dir[Temp(t)]]
            && forall q | q != p :: Versions(s', q) == Versions(s, q)
  {
    assert TaskOk(s, t, s.tasks[t]);
  }

  lemma LandedKept(start: State, s: State, s': State, a: Action, t: nat)
    requires Inv(start, s) && Grows(s, s') && Landed(s)
    requires t < |s.tasks| <= |s'.tasks| && Committed(s.tasks[t])
    ensures exists k :: LandedAt(s', s'.tasks[t], k)
  {
    var task := s.tasks[t];
    assert SameJob(task, s'.tasks[t]);
    var k :| LandedAt(s, task, k);
    assert Versions(s, task.path) <= Versions(s', task.path);
    assert LandedAt(s', s'.tasks[t], k);
  }

  lemma StepLands(start: State, s: State, s': State, a: Action)
    requires Inv(start, s) && Landed(s) && Step(start, s, a) == Some(s')
    ensures Landed(s')
  {
    StepKeeps(start, s, s', a);
    forall t | 0 <= t < |s'.tasks| && Committed(s'.tasks[t])
      ensures exists k :: LandedAt(s', s'.tasks[t], k)
    {
      CommitsByRename(start, s, s', a, t);
      if t < |s.tasks| && Committed(s.tasks[t]) {
        LandedKept(start, s, s', a, t);
      } else {
        RenameLands(start, s, s', t);
      }
    }
  }

  // ---- Nothing else is ----

  /** How many writes to `p` took effect. */
  function Effective(tasks: seq<Task>, p: Path): nat {
    if tasks == [] then 0
    else
      var last := tasks[|tasks| - 1];
      Effective(tasks[..|tasks| - 1], p) + (if Committed(last) && last.path == p then 1 else 0)
  }

  ghost predicate SameEffects(a: seq<Task>, b: seq<Task>) {
    && |a| <= |b|
    && (forall t | 0 <= t < |a| :: a[t].path == b[t].path && (Committed(a[t]) <==> Committed(b[t])))
    && (forall t | |a| <= t < |b| :: !Committed(b[t]))
  }

  lemma {:induction false} EffectiveSame(a: seq<Task>, b: seq<Task>, p: Path)
    requires SameEffects(a, b)
    ensures Effective(a, p) == Effective(b, p)
  {
    if b != [] {
      EffectiveSame(if |a| == |b| then a[..|a| - 1] else a, b[..|b| - 1], p);
    }
  }

  lemma {:induction false} EffectiveUpdate(tasks: seq<Task>, t: nat, task: Task, p: Path)
    requires t < |tasks| && task.path == tasks[t].path && !Committed(tasks[t]) && Committed(task)
    ensures Effective(tasks[t := task], p) == Effective(tasks, p) + (if task.path == p then 1 else 0)
  {
    var n := |tasks| - 1;
    if t < n {
      EffectiveUpdate(tasks[..n], t, task, p);
      assert tasks[t := task][..n] == tasks[..n][t := task];
    } else {
      assert tasks[t := task][..n] == tasks[..n];
    }
  }

  lemma OtherStepsChangeNoVersion(start: State, s: State, s': State, a: Action)
    requires Step(start, s, a) == Some(s') && !IsRename(s, a)
    ensures s'.versions == s.versions
  {
  }

  /** A step adds a version to a path exactly when it makes a write to that path take effect. */
  lemma StepConserves(start: State, s: State, s': State, a: Action, p: Path)
    requires Inv(start, s) && Step(start, s, a) == Some(s')
    ensures |Versions(s', p)| - |Versions(s, p)| == Effective(s'.tasks, p) - Effective(s.tasks, p)
  {
    if IsRename(s, a) {
      RenameLands(start, s, s', a.t);
      EffectiveUpdate(s.tasks, a.t, s'.tasks[a.t], p);
      assert s'.tasks == s.tasks[a.t := s'.tasks[a.t]];
    } else {
      OtherStepsChangeNoVersion(start, s, s', a);
      forall t | 0 <= t < |s'.tasks|
        ensures Committed(s'.tasks[t]) <==> t < |s.tasks| && Committed(s.tasks[t])
        ensures t < |s.tasks| ==> s'.tasks[t].path == s.tasks[t].path
      {
        CommitsByRename(start, s, s', a, t);
      }
      TasksStay(start, s, s', a);
      EffectiveSame(s.tasks, s'.tasks, p);
    }
  }

  lemma {:induction false} RunLands(start: State, s: State, actions: seq<Action>, p: Path)
    requires Inv(start, s) && Landed(s) && Execute(start, s, actions).Some?
    ensures var s' := Execute(start, s, actions).value;
            && Landed(s')
            && |Versions(s', p)| - |Versions(s, p)| == Effective(s'.tasks, p) - Effective(s.tasks, p)
    decreases |actions|
  {
    if actions != [] {
      var s' := Step(start, s, actions[0]).value;
      StepKeeps(start, s, s', actions[0]);
      StepLands(start, s, s', actions[0]);
      StepConserves(start, s, s', actions[0], p);
      RunLands(start, s', actions[1..], p);
    }
  }

  /** In every run, with crashes anywhere: the data of each write that took effect, acknowledged or
      not, was put in place whole and durably, and a path got exactly one version per such write
      and no other. */
  lemma EachWriteLandsOnce(start: State, actions: seq<Action>, p: Path)
    requires Init(start) && Execute(start, start, actions).Some?
    ensures var s := Execute(start, start, actions).value;
            && (forall t | 0 <= t < |s.tasks| && Committed(s.tasks[t]) :: exists k :: LandedAt(s, s.tasks[t], k))
            && |Versions(s, p)| == |Versions(start, p)| + Effective(s.tasks, p)
  {
    InitHolds(start);
    RunLands(start, start, actions, p);
  }

  // ---- Temp files ----

  /** A temp file is there only while its maker works on it, or after its maker was killed. */
  ghost predicate TempUsed(s: State, t: nat) {
    Temp(t) in s.dir ==>
      t < |s.tasks| && s.tasks[t].Writer? && (TmpOf(s.tasks[t]).Some? || s.tasks[t].wpc == Killed(false))
  }

  lemma WriterCleansUp(s: State, s': State, u: nat, move: Move, t: nat)
    requires u < |s.tasks| && s.tasks[u].Writer? && TempUsed(s, t)
    requires (if move.Fail? then WriterFails(s, u) else WriterStep(s, u, move)) == Some(s')
    ensures TempUsed(s', t)
  {
  }

  lemma StepCleansUp(start: State, s: State, s': State, a: Action, t: nat)
    requires Step(start, s, a) == Some(s') && TempUsed(s, t)
    ensures TempUsed(s', t)
  {
    if a.Run? && s.tasks[a.t].Writer? {
      WriterCleansUp(s, s', a.t, a.move, t);
    }
  }

  lemma {:induction false} RunCleansUp(start: State, s: State, actions: seq<Action>, t: nat)
    requires TempUsed(s, t) && Execute(start, s, actions).Some?
    ensures TempUsed(Execute(start, s, actions).value, t)
    decreases |actions|
  {
    if actions != [] {
      var s' := Step(start, s, actions[0]).value;
      StepCleansUp(start, s, s', actions[0], t);
      RunCleansUp(start, s', actions[1..], t);
    }
  }

  /** In every run, a writer that has answered, whether Ok or with an error, has left no temp file:
      only one that was killed on its way to the rename leaves one. */
  lemma NoTempIsLeft(start: State, actions: seq<Action>, t: nat)
    requires Init(start) && Execute(start, start, actions).Some?
    ensures var s := Execute(start, start, actions).value;
            t < |s.tasks| && s.tasks[t].Writer? && Temp(t) in s.dir ==>
              s.tasks[t].wpc.Staged? || s.tasks[t].wpc.Synced? || s.tasks[t].wpc == Killed(false)
  {
    RunCleansUp(start, start, actions, t);
  }

  // ---- What stands ----

  /** What stands at the path is the version put there last. */
  ghost predicate Latest(s: State, p: Path) {
    var vs := Versions(s, p);
    vs != [] && Plain(p) in s.dir && s.dir[Plain(p)] == vs[|vs| - 1]
  }

  predicate IsRenameOf(s: State, a: Action, p: Path) {
    IsRename(s, a) && s.tasks[a.t].path == p
  }

  predicate Undoes(a: Action, p: Path) {
    a.PowerLoss? && p in a.back
  }

  ghost predicate SameThere(s: State, s': State, p: Path) {
    && Versions(s', p) == Versions(s, p)
    && (Plain(p) in s'.dir <==> Plain(p) in s.dir)
    && (Plain(p) in s.dir ==> s'.dir[Plain(p)] == s.dir[Plain(p)])
  }

  lemma WriterLeaves(start: State, s: State, s': State, u: nat, move: Move, p: Path)
    requires u < |s.tasks| && s.tasks[u].Writer? && Step(start, s, Run(u, move)) == Some(s')
    requires !IsRenameOf(s, Run(u, move), p)
    ensures SameThere(s, s', p)
  {
  }

  lemma OthersLeave(start: State, s: State, s': State, a: Action, p: Path)
    requires Step(start, s, a) == Some(s') && !Undoes(a, p)
    requires a.Run? ==> a.t < |s.tasks| && s.tasks[a.t].Reader?
    ensures SameThere(s, s', p)
  {
  }

  /** The one step that changes what stands at a path, short of a power loss that undoes a rename
      there, is a rename to it. */
  lemma StepStands(start: State, s: State, s': State, a: Action, p: Path)
    requires Inv(start, s) && Step(start, s, a) == Some(s') && !Undoes(a, p)
    ensures if IsRenameOf(s, a, p) then Latest(s', p) && |Versions(s', p)| == |Versions(s, p)| + 1
            else SameThere(s, s', p)
  {
    if a.Run? && s.tasks[a.t].Writer? {
      if IsRenameOf(s, a, p) {
        RenameLands(start, s, s', a.t);
        RenameBinds(s, s', a.t);
      } else {
        WriterLeaves(start, s, s', a.t, a.move, p);
      }
    } else {
      OthersLeave(start, s, s', a, p);
    }
  }

  lemma RenameBinds(s: State, s': State, t: nat)
    requires t < |s.tasks| && s.tasks[t].Writer? && s.tasks[t].wpc.Synced?
    requires WriterStep(s, t, Rename) == Some(s')
    ensures Plain(s.tasks[t].path) in s'.dir && Temp(t) in s.dir && s'.dir[Plain(s.tasks[t].path)] == s.dir[Temp(t)]
  {
  }

  /** How many renames to `p` a run makes. */
  function Renames(start: State, s: State, actions: seq<Action>, p: Path): nat
    decreases |actions|
  {
    if actions == [] then 0
    else
      match Step(start, s, actions[0])
      case None => 0
      case Some(s') => (if IsRenameOf(s, actions[0], p) then 1 else 0) + Renames(start, s', actions[1..], p)
  }

  ghost predicate NeverUndone(actions: seq<Action>, p: Path) {
    forall i | 0 <= i < |actions| :: !Undoes(actions[i], p)
  }

  /** Over a stretch of a run in which no power loss undoes a rename to the path: without a rename
      to it what stands is unchanged, and with one the path ends up at its latest version. */
  lemma {:induction false} RunStands(start: State, s: State, actions: seq<Action>, p: Path)
    requires Inv(start, s) && Execute(start, s, actions).Some? && NeverUndone(actions, p)
    ensures var s', n := Execute(start, s, actions).value, Renames(start, s, actions, p);
            && |Versions(s', p)| == |Versions(s, p)| + n
            && (if n == 0 then SameThere(s, s', p) else Latest(s', p))
    decreases |actions|
  {
    if actions != [] {
      var s' := Step(start, s, actions[0]).value;
      StepKeeps(start, s, s', actions[0]);
      assert !Undoes(actions[0], p);
      StepStands(start, s, s', actions[0], p);
      assert forall i | 0 <= i < |actions[1..]| :: actions[1..][i] == actions[i + 1];
      RunStands(start, s', actions[1..], p);
    }
  }

  /** Unless a power loss undoes a rename there, a path always holds its latest version. */
  lemma LatestUnlessUndone(start: State, actions: seq<Action>, p: Path)
    requires Init(start) && Execute(start, start, actions).Some? && NeverUndone(actions, p)
    ensures Bound(Execute(start, start, actions).value, p) ==> Latest(Execute(start, start, actions).value, p)
  {
    InitHolds(start);
    RunStands(start, start, actions, p);
    assert Versions(start, p) == if Plain(p) in start.dir then [start.dir[Plain(p)]] else [];
  }

  // ---- Conditions ----

  predicate Passed(task: Task) {
    task.Writer? && (task.wpc.Checked? || task.wpc.Staged? || task.wpc.Synced? || Committed(task))
  }

  ghost predicate StampAt(s: State, p: Path, k: nat, m: i64) {
    k < |Versions(s, p)| && Versions(s, p)[k] < |s.inodes| && s.inodes[Versions(s, p)[k]].stamp == m
  }

  /** The writer's condition named the stamp of a version its path has had. */
  ghost predicate Saw(s: State, task: Task) {
    task.Writer? && task.expected.Some? ==> exists k :: StampAt(s, task.path, k, task.expected.value)
  }

  ghost predicate AllSaw(s: State) {
    forall t | 0 <= t < |s.tasks| && Passed(s.tasks[t]) :: Saw(s, s.tasks[t])
  }

  predicate SameWrite(a: Task, b: Task) {
    a.Writer? && b.Writer? && a.path == b.path && a.expected == b.expected
  }

  lemma WriterPasses(s: State, s': State, u: nat, move: Move, t: nat)
    requires u < |s.tasks| && s.tasks[u].Writer? && t < |s.tasks|
    requires (if move.Fail? then WriterFails(s, u) else WriterStep(s, u, move)) == Some(s')
    ensures |s'.tasks| == |s.tasks|
    ensures Passed(s'.tasks[t]) ==>
              SameWrite(s.tasks[t], s'.tasks[t])
              && (Passed(s.tasks[t]) || CheckPasses(s, s.tasks[t].path, s.tasks[t].expected))
  {
  }

  /** A task gets past its check only by passing it. */
  lemma PassesByCheck(start: State, s: State, s': State, a: Action, t: nat)
    requires Step(start, s, a) == Some(s') && t < |s'.tasks| && Passed(s'.tasks[t])
    ensures t < |s.tasks| && SameWrite(s.tasks[t], s'.tasks[t])
    ensures Passed(s.tasks[t]) || CheckPasses(s, s.tasks[t].path, s.tasks[t].expected)
  {
    match a
    case Run(u, move) =>
      if s.tasks[u].Writer? {
        TasksKept(start, s, s', a);
        WriterPasses(s, s', u, move, t);
      }
    case _ =>
  }

  lemma TasksKept(start: State, s: State, s': State, a: Action)
    requires a.Run? && Step(start, s, a) == Some(s')
    ensures |s'.tasks| == |s.tasks|
  {
  }

  lemma StampKept(s: State, s': State, p: Path, k: nat, m: i64)
    requires Grows(s, s') && StampAt(s, p, k, m)
    ensures StampAt(s', p, k, m)
  {
    assert Versions(s, p) <= Versions(s', p);
    assert Versions(s', p)[k] == Versions(s, p)[k];
  }

  lemma SawKept(start: State, s: State, s': State, a: Task, b: Task)
    requires Inv(start, s) && Grows(s, s') && SameWrite(a, b)
    requires Saw(s, a) || CheckPasses(s, a.path, a.expected)
    ensures Saw(s', b)
  {
    if a.expected.Some? {
      var p, m := a.path, a.expected.value;
      assert BindingOk(start, s, p);
      if CheckPasses(s, p, Some(m)) {
        var k :| 0 <= k < |Versions(s, p)| && Versions(s, p)[k] == s.dir[Plain(p)];
        assert StampAt(s, p, k, m);
      }
      var j :| StampAt(s, p, j, m);
      StampKept(s, s', p, j, m);
    }
  }

  lemma StepSaw(start: State, s: State, s': State, a: Action)
    requires Inv(start, s) && AllSaw(s) && Step(start, s, a) == Some(s')
    ensures AllSaw(s')
  {
    StepKeeps(start, s, s', a);
    forall t | 0 <= t < |s'.tasks| && Passed(s'.tasks[t])
      ensures Saw(s', s'.tasks[t])
    {
      PassesByCheck(start, s, s', a, t);
      SawKept(start, s, s', s.tasks[t], s'.tasks[t]);
    }
  }

  lemma {:induction false} RunSaw(start: State, s: State, actions: seq<Action>)
    requires Inv(start, s) && AllSaw(s) && Execute(start, s, actions).Some?
    ensures AllSaw(Execute(start, s, actions).value)
    decreases |actions|
  {
    if actions != [] {
      var s' := Step(start, s, actions[0]).value;
      StepKeeps(start, s, s', actions[0]);
      StepSaw(start, s, s', actions[0]);
      RunSaw(start, s', actions[1..]);
    }
  }

  /** In every run, a conditional write takes effect only if its path has had a version with the
      stamp it named; in particular it never creates a file that was never there. */
  lemma EffectNeedsMatch(start: State, actions: seq<Action>, t: nat)
    requires Init(start) && Execute(start, start, actions).Some?
    requires var s := Execute(start, start, actions).value;
             t < |s.tasks| && Committed(s.tasks[t]) && s.tasks[t].expected.Some?
    ensures var s := Execute(start, start, actions).value;
            exists k :: StampAt(s, s.tasks[t].path, k, s.tasks[t].expected.value)
  {
    InitHolds(start);
    RunSaw(start, start, actions);
    assert Saw(Execute(start, start, actions).value, Execute(start, start, actions).value.tasks[t]);
  }
}
