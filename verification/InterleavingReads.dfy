/** What a completed read tells about later checks, and a check about the rename that follows it. */
module InterleavingReads {
  import opened Base
  import opened Interleaving
  import opened InterleavingSafety
  import opened InterleavingWrites

  /** Each version of the path got its own modification time. */
  ghost predicate DistinctStamps(s: State, p: Path) {
    var vs := Versions(s, p);
    forall j, k | 0 <= j < k < |vs| && vs[j] < |s.inodes| && vs[k] < |s.inodes| ::
      s.inodes[vs[j]].stamp != s.inodes[vs[k]].stamp
  }

  // ---- Readers move forward ----

  /** A reader opens the version it has examined, or a later one. */
  ghost predicate Ordered(s: State, task: Task) {
    match task
    case Reader(p, _, Statted(_, statAt)) => Plain(p) in s.dir && statAt <= CurrentVersion(s, p)
    case Reader(_, _, Reading(_, statAt, _, openAt, _)) => statAt <= openAt
    case Reader(_, _, ReadDone(_, statAt, _, openAt, _)) => statAt <= openAt
    case _ => true
  }

  ghost predicate AllOrdered(s: State) {
    forall t | 0 <= t < |s.tasks| :: Ordered(s, s.tasks[t])
  }

  /** A version is put in place once, so its index is the one place where it occurs. */
  lemma IndexIsUnique(start: State, s: State, p: Path, k: nat)
    requires Inv(start, s) && k < |Versions(s, p)|
    ensures IndexOf(Versions(s, p), Versions(s, p)[k]) == k
  {
    var i := IndexOf(Versions(s, p), Versions(s, p)[k]);
    assert Versions(s, p)[i] == Versions(s, p)[k];
  }

  lemma CurrentMovesForward(start: State, s: State, s': State, a: Action, p: Path)
    requires Inv(start, s) && Inv(start, s') && Step(start, s, a) == Some(s') && !a.PowerLoss?
    requires Plain(p) in s.dir
    ensures Plain(p) in s'.dir && CurrentVersion(s, p) <= CurrentVersion(s', p)
  {
    StepStands(start, s, s', a, p);
    assert BindingOk(start, s, p);
    if IsRenameOf(s, a, p) {
      IndexIsUnique(start, s', p, |Versions(s', p)| - 1);
    }
  }

  /** A reader's own step. */
  lemma ReaderStepOrdered(start: State, s: State, s': State, t: nat, move: Move)
    requires t < |s.tasks| && s.tasks[t].Reader? && Step(start, s, Run(t, move)) == Some(s')
    requires Ordered(s, s.tasks[t])
    ensures t < |s'.tasks| && Ordered(s', s'.tasks[t])
  {
  }

  /** Any other step leaves a reader as it is, or kills it. */
  lemma OtherStepReader(start: State, s: State, s': State, a: Action, t: nat)
    requires Step(start, s, a) == Some(s') && t < |s'.tasks| && s'.tasks[t].Reader?
    requires !(a.Run? && a.t == t)
    ensures s'.tasks[t].rpc.ReadDone? || s'.tasks[t].rpc.Reading? || s'.tasks[t].rpc.Statted? ==>
              t < |s.tasks| && s'.tasks[t] == s.tasks[t]
    ensures a.PowerLoss? ==> !s'.tasks[t].rpc.Statted?
    ensures s'.tasks[t].rpc.Statted? ==> t < |s.tasks| && s'.tasks[t] == s.tasks[t]
  {
  }

  lemma StepOrdered(start: State, s: State, s': State, a: Action)
    requires Inv(start, s) && AllOrdered(s) && Step(start, s, a) == Some(s')
    ensures AllOrdered(s')
  {
    StepKeeps(start, s, s', a);
    forall t | 0 <= t < |s'.tasks| && s'.tasks[t].Reader? ensures Ordered(s', s'.tasks[t]) {
      if a.Run? && a.t == t {
        assert Ordered(s, s.tasks[t]);
        ReaderStepOrdered(start, s, s', t, a.move);
      } else {
        OtherStepReader(start, s, s', a, t);
        OtherOrdered(start, s, s', a, t);
      }
    }
  }

  lemma OtherOrdered(start: State, s: State, s': State, a: Action, t: nat)
    requires Inv(start, s) && Inv(start, s') && AllOrdered(s) && Step(start, s, a) == Some(s')
    requires t < |s'.tasks| && s'.tasks[t].Reader?
    requires s'.tasks[t].rpc.ReadDone? || s'.tasks[t].rpc.Reading? || s'.tasks[t].rpc.Statted? ==>
               t < |s.tasks| && s'.tasks[t] == s.tasks[t]
    requires a.PowerLoss? ==> !s'.tasks[t].rpc.Statted?
    ensures Ordered(s', s'.tasks[t])
  {
    var p := s'.tasks[t].path;
    if s'.tasks[t].rpc.Statted? {
      assert Ordered(s, s.tasks[t]);
      CurrentMovesForward(start, s, s', a, p);
    } else if s'.tasks[t].rpc.ReadDone? || s'.tasks[t].rpc.Reading? {
      assert Ordered(s, s.tasks[t]);
    }
  }

  lemma {:induction false} RunOrdered(start: State, s: State, actions: seq<Action>)
    requires Inv(start, s) && AllOrdered(s) && Execute(start, s, actions).Some?
    ensures AllOrdered(Execute(start, s, actions).value)
    decreases |actions|
  {
    if actions != [] {
      var s' := Step(start, s, actions[0]).value;
      StepKeeps(start, s, s', actions[0]);
      StepOrdered(start, s, s', actions[0]);
      RunOrdered(start, s', actions[1..]);
    }
  }

  // ---- The size cap ----

  /** The version that a reader has examined obeys its cap. */
  ghost predicate CapOkAt(s: State, p: Path, cap: nat, statAt: nat) {
    && statAt < |Versions(s, p)| && Versions(s, p)[statAt] < |s.inodes|
    && |s.inodes[Versions(s, p)[statAt]].data| <= cap
  }

  ghost predicate CapOk(s: State, task: Task) {
    match task
    case Reader(p, cap, Statted(_, statAt)) => CapOkAt(s, p, cap, statAt)
    case Reader(p, cap, Reading(_, statAt, _, _, _)) => CapOkAt(s, p, cap, statAt)
    case Reader(p, cap, ReadDone(_, statAt, _, _, _)) => CapOkAt(s, p, cap, statAt)
    case _ => true
  }

  ghost predicate AllCapOk(s: State) {
    forall t | 0 <= t < |s.tasks| :: CapOk(s, s.tasks[t])
  }

  lemma CapKept(start: State, s: State, s': State, task: Task)
    requires Inv(start, s) && Grows(s, s') && CapOk(s, task)
    ensures CapOk(s', task)
  {
    assert Versions(s, task.path) <= Versions(s', task.path);
  }

  lemma ReaderStepCap(start: State, s: State, s': State, t: nat, move: Move)
    requires Inv(start, s) && t < |s.tasks| && s.tasks[t].Reader? && Step(start, s, Run(t, move)) == Some(s')
    requires CapOk(s, s.tasks[t])
    ensures t < |s'.tasks| && CapOk(s', s'.tasks[t])
  {
    assert BindingOk(start, s, s.tasks[t].path);
    assert Versions(s', s.tasks[t].path) == Versions(s, s.tasks[t].path);
  }

  lemma StepCapOk(start: State, s: State, s': State, a: Action)
    requires Inv(start, s) && AllCapOk(s) && Step(start, s, a) == Some(s')
    ensures AllCapOk(s')
  {
    StepKeeps(start, s, s', a);
    forall t | 0 <= t < |s'.tasks| && s'.tasks[t].Reader? ensures CapOk(s', s'.tasks[t]) {
      if a.Run? && a.t == t {
        assert CapOk(s, s.tasks[t]);
        ReaderStepCap(start, s, s', t, a.move);
      } else {
        OtherStepReader(start, s, s', a, t);
        OtherCapOk(start, s, s', t);
      }
    }
  }

  lemma OtherCapOk(start: State, s: State, s': State, t: nat)
    requires Inv(start, s) && Grows(s, s') && AllCapOk(s) && t < |s'.tasks| && s'.tasks[t].Reader?
    requires s'.tasks[t].rpc.ReadDone? || s'.tasks[t].rpc.Reading? || s'.tasks[t].rpc.Statted? ==>
               t < |s.tasks| && s'.tasks[t] == s.tasks[t]
    ensures CapOk(s', s'.tasks[t])
  {
    if s'.tasks[t].rpc.ReadDone? || s'.tasks[t].rpc.Reading? || s'.tasks[t].rpc.Statted? {
      assert CapOk(s, s.tasks[t]);
      CapKept(start, s, s', s.tasks[t]);
    }
  }

  lemma {:induction false} RunCapOk(start: State, s: State, actions: seq<Action>)
    requires Inv(start, s) && AllCapOk(s) && Execute(start, s, actions).Some?
    ensures AllCapOk(Execute(start, s, actions).value)
    decreases |actions|
  {
    if actions != [] {
      var s' := Step(start, s, actions[0]).value;
      StepKeeps(start, s, s', actions[0]);
      StepCapOk(start, s, s', actions[0]);
      RunCapOk(start, s', actions[1..]);
    }
  }

  /** In every run, a completed read obeys its cap if it opened the version it had examined; the
      size of a version put in place in between is not looked at. */
  lemma ReadObeysCap(start: State, actions: seq<Action>, r: nat)
    requires Init(start) && Execute(start, start, actions).Some?
    requires var s := Execute(start, start, actions).value;
             r < |s.tasks| && s.tasks[r].Reader? && s.tasks[r].rpc.ReadDone?
             && s.tasks[r].rpc.openAt == s.tasks[r].rpc.statAt
    ensures var task := Execute(start, start, actions).value.tasks[r];
            |task.rpc.data| <= task.cap
  {
    var s := Execute(start, start, actions).value;
    InitHolds(start);
    RunKeeps(start, start, actions);
    RunCapOk(start, start, actions);
    assert TaskOk(s, r, s.tasks[r]) && CapOk(s, s.tasks[r]);
  }

  // ---- Checks after a read ----

  /** Once a read has answered (data, m), in any run and whatever crashed before or since: the check
      of a write conditional on m passes exactly while the version stands whose stat the read made.
      The path then holds `data`, except that a reader whose open came after a rename, and that
      rename was undone since, has paired the stamp with the later version's data. */
  lemma CheckSeesWhatWasRead(start: State, actions: seq<Action>, r: nat)
    requires Init(start) && Execute(start, start, actions).Some?
    requires var s := Execute(start, start, actions).value;
             r < |s.tasks| && s.tasks[r].Reader? && s.tasks[r].rpc.ReadDone? && DistinctStamps(s, s.tasks[r].path)
    ensures var s := Execute(start, start, actions).value;
            var p, done := s.tasks[r].path, s.tasks[r].rpc;
            && done.statAt <= done.openAt < |Versions(s, p)|
            && (CheckPasses(s, p, Some(done.stamp)) <==> Bound(s, p) && CurrentVersion(s, p) == done.statAt)
            && (CheckPasses(s, p, Some(done.stamp)) && (Latest(s, p) || done.openAt == done.statAt) ==>
                  Current(s, p).data == done.data)
  {
    var s := Execute(start, start, actions).value;
    InitHolds(start);
    RunKeeps(start, start, actions);
    RunOrdered(start, start, actions);
    ReadIsPaired(start, s, r);
  }

  lemma ReadIsPaired(start: State, s: State, r: nat)
    requires Inv(start, s) && AllOrdered(s)
    requires r < |s.tasks| && s.tasks[r].Reader? && s.tasks[r].rpc.ReadDone? && DistinctStamps(s, s.tasks[r].path)
    ensures var p, done := s.tasks[r].path, s.tasks[r].rpc;
            && done.statAt <= done.openAt < |Versions(s, p)|
            && (CheckPasses(s, p, Some(done.stamp)) <==> Bound(s, p) && CurrentVersion(s, p) == done.statAt)
            && (CheckPasses(s, p, Some(done.stamp)) && (Latest(s, p) || done.openAt == done.statAt) ==>
                  Current(s, p).data == done.data)
  {
    var p, done, vs := s.tasks[r].path, s.tasks[r].rpc, Versions(s, s.tasks[r].path);
    assert TaskOk(s, r, s.tasks[r]) && Ordered(s, s.tasks[r]);
    if Bound(s, p) {
      assert BindingOk(start, s, p);
      assert s.dir[Plain(p)] in vs;
      var c := CurrentVersion(s, p);
      assert vs[c] == s.dir[Plain(p)];
      assert c < done.statAt ==> s.inodes[vs[c]].stamp != s.inodes[vs[done.statAt]].stamp;
      assert done.statAt < c ==> s.inodes[vs[done.statAt]].stamp != s.inodes[vs[c]].stamp;
      if Latest(s, p) {
        IndexIsUnique(start, s, p, |vs| - 1);
      }
    }
  }

  // ---- From the check to the rename ----

  predicate Ended(task: Task) {
    task.Writer? && (task.wpc.WriteDone? || task.wpc.WriteFailed? || task.wpc.Killed?)
  }

  lemma WriterMoves(s: State, s': State, u: nat, move: Move)
    requires u < |s.tasks| && s.tasks[u].Writer?
    requires (if move.Fail? then WriterFails(s, u) else WriterStep(s, u, move)) == Some(s')
    ensures |s'.tasks| == |s.tasks| && !Ended(s.tasks[u])
    ensures s'.tasks[u].Writer? && s'.tasks[u].path == s.tasks[u].path
    ensures forall w | 0 <= w < |s.tasks| && w != u :: s'.tasks[w] == s.tasks[w]
  {
  }

  /** A task that moves is not at its end, and its move leaves the others alone. */
  lemma OneMoves(start: State, s: State, s': State, u: nat, move: Move)
    requires Step(start, s, Run(u, move)) == Some(s')
    ensures u < |s.tasks| == |s'.tasks| && !Ended(s.tasks[u])
    ensures s.tasks[u].Writer? ==> s'.tasks[u].Writer? && s'.tasks[u].path == s.tasks[u].path
    ensures forall w | 0 <= w < |s.tasks| && w != u :: s'.tasks[w] == s.tasks[w]
  {
    if s.tasks[u].Writer? {
      WriterMoves(s, s', u, move);
    }
  }

  lemma EndedStays(start: State, s: State, s': State, a: Action, w: nat)
    requires Step(start, s, a) == Some(s') && w < |s.tasks| && Ended(s.tasks[w])
    ensures w < |s'.tasks| && Ended(s'.tasks[w])
  {
    if a.Run? {
      OneMoves(start, s, s', a.t, a.move);
    }
  }

  lemma CrashEnds(start: State, s: State, s': State, a: Action, w: nat)
    requires (a.Kill? || a.PowerLoss?) && Step(start, s, a) == Some(s')
    requires w < |s.tasks| && s.tasks[w].Writer?
    ensures w < |s'.tasks| && Ended(s'.tasks[w])
  {
  }

  lemma WriterStays(start: State, s: State, s': State, a: Action, w: nat)
    requires Step(start, s, a) == Some(s') && w < |s.tasks| && s.tasks[w].Writer?
    ensures w < |s'.tasks| && s'.tasks[w].Writer? && s'.tasks[w].path == s.tasks[w].path
  {
    if a.Run? {
      OneMoves(start, s, s', a.t, a.move);
    }
  }

  lemma {:induction false} EndedForGood(start: State, s: State, actions: seq<Action>, w: nat)
    requires Execute(start, s, actions).Some? && w < |s.tasks| && Ended(s.tasks[w])
    ensures var t := Execute(start, s, actions).value;
            w < |t.tasks| && Ended(t.tasks[w])
    decreases |actions|
  {
    if actions != [] {
      var s' := Step(start, s, actions[0]).value;
      EndedStays(start, s, s', actions[0], w);
      EndedForGood(start, s', actions[1..], w);
    }
  }

  /** A writer that is still at work has seen no crash. */
  lemma {:induction false} NoCrashWhileWorking(start: State, s: State, actions: seq<Action>, w: nat)
    requires Execute(start, s, actions).Some? && w < |s.tasks| && s.tasks[w].Writer?
    requires var t := Execute(start, s, actions).value;
             w < |t.tasks| && !Ended(t.tasks[w])
    ensures forall i | 0 <= i < |actions| :: !actions[i].Kill? && !actions[i].PowerLoss?
    ensures Execute(start, s, actions).value.tasks[w].path == s.tasks[w].path
    decreases |actions|
  {
    if actions != [] {
      var s' := Step(start, s, actions[0]).value;
      WriterStays(start, s, s', actions[0], w);
      if actions[0].Kill? || actions[0].PowerLoss? {
        CrashEnds(start, s, s', actions[0], w);
        EndedForGood(start, s', actions[1..], w);
      } else {
        NoCrashWhileWorking(start, s', actions[1..], w);
        forall i | 0 <= i < |actions| ensures !actions[i].Kill? && !actions[i].PowerLoss? {
          if i > 0 { assert actions[i] == actions[1..][i - 1]; }
        }
      }
    }
  }

  /** The promise of a conditional write, and when it is kept. Writer `w` passes its check on stamp
      `m` after `before`, and is about to rename after `between`: the version that its rename
      replaces still has stamp `m` exactly if no rename to the path has come in between, and is then
      the very version it checked. */
  lemma RenameReplacesWhatWasChecked(start: State, before: seq<Action>, between: seq<Action>, w: nat, m: i64)
    requires Init(start) && Execute(start, start, before).Some?
    requires var s := Execute(start, start, before).value;
             && w < |s.tasks| && s.tasks[w].Writer? && s.tasks[w].wpc.WriteStart?
             && s.tasks[w].expected == Some(m) && CheckPasses(s, s.tasks[w].path, Some(m))
             && Execute(start, s, [Run(w, Check)] + between).Some?
    requires var s := Execute(start, start, before).value;
             var t := Execute(start, s, [Run(w, Check)] + between).value;
             w < |t.tasks| && t.tasks[w].Writer? && t.tasks[w].wpc.Synced? && DistinctStamps(t, s.tasks[w].path)
    ensures var s := Execute(start, start, before).value;
            var p, t := s.tasks[w].path, Execute(start, s, [Run(w, Check)] + between).value;
            && Bound(t, p) && Step(start, t, Run(w, Rename)).Some?
            && (Current(t, p).stamp == m <==> Renames(start, s, [Run(w, Check)] + between, p) == 0)
            && (Current(t, p).stamp == m ==> t.dir[Plain(p)] == s.dir[Plain(p)] && Current(t, p) == Current(s, p))
  {
    var s, moves := Execute(start, start, before).value, [Run(w, Check)] + between;
    var p, t := s.tasks[w].path, Execute(start, s, moves).value;
    InitHolds(start);
    RunKeeps(start, start, before);
    RunKeeps(start, s, moves);
    NoCrashWhileWorking(start, s, moves, w);
    RunStands(start, s, moves, p);
    assert TaskOk(t, w, t.tasks[w]);
    StampSinceCheck(start, s, t, p, m, Renames(start, s, moves, p));
  }

  lemma StampSinceCheck(start: State, s: State, t: State, p: Path, m: i64, n: nat)
    requires Inv(start, s) && Inv(start, t) && Grows(s, t) && DistinctStamps(t, p)
    requires CheckPasses(s, p, Some(m)) && |Versions(t, p)| == |Versions(s, p)| + n
    requires if n == 0 then SameThere(s, t, p) else Latest(t, p)
    ensures Bound(t, p) && (Current(t, p).stamp == m <==> n == 0)
    ensures n == 0 ==> t.dir[Plain(p)] == s.dir[Plain(p)] && Current(t, p) == Current(s, p)
  {
    var vs, vt := Versions(s, p), Versions(t, p);
    assert BindingOk(start, s, p);
    var c := CurrentVersion(s, p);
    assert vs[c] == s.dir[Plain(p)] && vs <= vt && vt[c] == vs[c];
    assert t.inodes[vt[c]] == s.inodes[vs[c]];
    assert VersionOk(start, t, p, vt[|vt| - 1]);
  }

  // ---- The stamp that a write answers ----

  /** Writer `w` renames after `before`, and after `between` is about to examine its path: the answer
      is the stamp of the version that stands then. It is the stamp of the very file that was put in
      place if no other rename to the path has come in between, and of no other case if the path's
      stamps are distinct. */
  lemma WriteAnswersItsStamp(start: State, before: seq<Action>, between: seq<Action>, w: nat)
    requires Init(start) && Execute(start, start, before).Some?
    requires var s := Execute(start, start, before).value;
             && w < |s.tasks| && s.tasks[w].Writer? && s.tasks[w].wpc.Synced?
             && Execute(start, s, [Run(w, Rename)] + between).Some?
    requires var t := Execute(start, Execute(start, start, before).value, [Run(w, Rename)] + between).value;
             w < |t.tasks| && t.tasks[w].Writer? && t.tasks[w].wpc.Renamed?
    ensures var s := Execute(start, start, before).value;
            var t := Execute(start, s, [Run(w, Rename)] + between).value;
            var p, tmp, end := s.tasks[w].path, s.tasks[w].wpc.tmp, Step(start, t, Run(w, Restat));
            && Bound(t, p) && tmp < |s.inodes| && s.inodes[tmp].data == s.tasks[w].data
            && end == Some(SetTask(t, w, t.tasks[w].(wpc := WriteDone(Current(t, p).stamp))))
            && (Renames(start, s, [Run(w, Rename)] + between, p) == 1 ==> Current(t, p) == s.inodes[tmp])
            && (DistinctStamps(t, p) && Current(t, p).stamp == s.inodes[tmp].stamp ==>
                  Renames(start, s, [Run(w, Rename)] + between, p) == 1)
  {
    var s := Execute(start, start, before).value;
    InitHolds(start);
    RunKeeps(start, start, before);
    assert ([Run(w, Rename)] + between)[1..] == between;
    var s1 := Step(start, s, Run(w, Rename)).value;
    StampAfterRename(start, s, s1, between, w);
    RestatAnswers(start, Execute(start, s1, between).value, w);
  }

  lemma RestatAnswers(start: State, t: State, w: nat)
    requires w < |t.tasks| && t.tasks[w].Writer? && t.tasks[w].wpc.Renamed? && Bound(t, t.tasks[w].path)
    ensures Step(start, t, Run(w, Restat))
            == Some(SetTask(t, w, t.tasks[w].(wpc := WriteDone(Current(t, t.tasks[w].path).stamp))))
  {
  }

  lemma StampAfterRename(start: State, s: State, s1: State, between: seq<Action>, w: nat)
    requires Inv(start, s) && w < |s.tasks| && s.tasks[w].Writer? && s.tasks[w].wpc.Synced?
    requires Step(start, s, Run(w, Rename)) == Some(s1) && Execute(start, s1, between).Some?
    requires var t := Execute(start, s1, between).value;
             w < |t.tasks| && t.tasks[w].Writer? && t.tasks[w].wpc.Renamed?
    ensures var t := Execute(start, s1, between).value;
            var p, tmp, n := s.tasks[w].path, s.tasks[w].wpc.tmp, Renames(start, s1, between, s.tasks[w].path);
            && t.tasks[w].path == p && Bound(t, p) && tmp < |s.inodes| && s.inodes[tmp].data == s.tasks[w].data
            && (n == 0 ==> Current(t, p) == s.inodes[tmp])
            && (DistinctStamps(t, p) && Current(t, p).stamp == s.inodes[tmp].stamp ==> n == 0)
  {
    var p, t := s.tasks[w].path, Execute(start, s1, between).value;
    assert TaskOk(s, w, s.tasks[w]);
    StepKeeps(start, s, s1, Run(w, Rename));
    StepStands(start, s, s1, Run(w, Rename), p);
    RenameMoves(start, s, s1, w);
    NoCrashWhileWorking(start, s1, between, w);
    RunKeeps(start, s1, between);
    RunStands(start, s1, between, p);
    StampSinceRename(start, s, s1, t, p, s.tasks[w].wpc.tmp, Renames(start, s1, between, p));
  }

  lemma StampSinceRename(start: State, s: State, s1: State, t: State, p: Path, tmp: nat, n: nat)
    requires Inv(start, s1) && Inv(start, t) && Grows(s1, t) && Latest(s1, p)
    requires s1.inodes == s.inodes && tmp < |s.inodes| && s1.dir[Plain(p)] == tmp
    requires |Versions(t, p)| == |Versions(s1, p)| + n && if n == 0 then SameThere(s1, t, p) else Latest(t, p)
    ensures Bound(t, p) && (n == 0 ==> Current(t, p) == s.inodes[tmp])
    ensures DistinctStamps(t, p) && Current(t, p).stamp == s.inodes[tmp].stamp ==> n == 0
  {
    var vs, vt := Versions(s1, p), Versions(t, p);
    var k := |vs| - 1;
    assert vs <= vt && vt[k] == vs[k] == tmp;
    assert t.inodes[tmp] == s1.inodes[tmp];
    assert VersionOk(start, t, p, vt[|vt| - 1]);
  }
}
