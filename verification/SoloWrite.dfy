/** The write handler's separate system calls, made with no other task in between, amount to the
    write of the serial daemon. */
module SoloWrite {
  import opened Base
  import opened Wire
  import opened Interleaving
  import H = Handlers

  predicate Solo(actions: seq<Action>, t: nat) {
    forall i | 0 <= i < |actions| :: actions[i].Run? && actions[i].t == t
  }

  /** Some call of the run fails. */
  predicate Fails(actions: seq<Action>) {
    exists i | 0 <= i < |actions| ::
      actions[i].Run? && actions[i].move.Fail?
  }

  // ---- Runs of one writer ----

  ghost predicate SameAt(s0: State, s: State, q: Path) {
    && (Plain(q) in s.dir <==> Plain(q) in s0.dir)
    && (Plain(q) in s0.dir ==> s.dir[Plain(q)] == s0.dir[Plain(q)])
  }

  ghost predicate PathsKept(s0: State, s: State) {
    forall q :: SameAt(s0, s, q)
  }

  ghost predicate IsNewFile(s0: State, s: State, id: nat, data: Data) {
    |s0.inodes| <= id < |s.inodes| && s.inodes[id].data == data
  }

  /** The path holds a new file with all of the data, and every other path is as it was. */
  ghost predicate Replaced(s0: State, s: State, p: Path, data: Data) {
    && (forall q | q != p :: SameAt(s0, s, q))
    && Plain(p) in s.dir && IsNewFile(s0, s, s.dir[Plain(p)], data)
  }

  ghost predicate InTemp(s0: State, s: State, t: nat, tmp: nat, data: Data) {
    Temp(t) in s.dir && s.dir[Temp(t)] == tmp && IsNewFile(s0, s, tmp, data)
  }

  /** How far writer `t` has come since `s0`, where it had not begun, and whether a call has failed. */
  ghost predicate Stands(s0: State, s: State, t: nat, failed: bool)
    requires t < |s0.tasks| && s0.tasks[t].Writer? && t < |s.tasks| && s.tasks[t].Writer?
  {
    var task := s.tasks[t];
    match task.wpc
    case WriteStart => PathsKept(s0, s)
    case WriteFailed => PathsKept(s0, s) && (failed || !CheckPasses(s0, task.path, task.expected))
    case Checked => PathsKept(s0, s) && CheckPasses(s0, task.path, task.expected)
    case Staged(tmp, w) =>
      PathsKept(s0, s) && CheckPasses(s0, task.path, task.expected)
      && w <= |task.data| && InTemp(s0, s, t, tmp, task.data[..w])
    case Synced(tmp) =>
      PathsKept(s0, s) && CheckPasses(s0, task.path, task.expected) && InTemp(s0, s, t, tmp, task.data)
    case Renamed => CheckPasses(s0, task.path, task.expected) && Replaced(s0, s, task.path, task.data)
    case WriteDone(stamp) =>
      CheckPasses(s0, task.path, task.expected) && Replaced(s0, s, task.path, task.data)
      && (stamp == Current(s, task.path).stamp || (failed && stamp == 0))
    case Killed(_) => false
  }

  ghost predicate OnItsWay(s0: State, s: State, t: nat, failed: bool) {
    && t < |s0.tasks| && s0.tasks[t].Writer? && t < |s.tasks| && s.tasks[t].Writer?
    && s.tasks[t].(wpc := WriteStart) == s0.tasks[t].(wpc := WriteStart)
    && |s0.inodes| <= |s.inodes| && (forall i | 0 <= i < |s0.inodes| :: s.inodes[i] == s0.inodes[i])
    && (forall q | Plain(q) in s0.dir :: s0.dir[Plain(q)] < |s0.inodes|)
    && Stands(s0, s, t, failed)
  }

  lemma CheckStep(s0: State, s: State, s': State, t: nat, failed: bool)
    requires OnItsWay(s0, s, t, failed) && WriterStep(s, t, Check) == Some(s')
    ensures OnItsWay(s0, s', t, failed)
  {
    var task := s.tasks[t];
    forall q ensures SameAt(s0, s', q) {
      assert SameAt(s0, s, q);
    }
    assert SameAt(s0, s, task.path);
    assert CheckPasses(s, task.path, task.expected) <==> CheckPasses(s0, task.path, task.expected);
  }

  lemma FillStep(s0: State, s: State, s': State, t: nat, move: Move, failed: bool)
    requires move.CreateTemp? || move.WriteSome? || move.Sync?
    requires OnItsWay(s0, s, t, failed) && WriterStep(s, t, move) == Some(s')
    ensures OnItsWay(s0, s', t, failed)
  {
    var task := s.tasks[t];
    forall q ensures SameAt(s0, s', q) {
      assert SameAt(s0, s, q);
    }
    if move.WriteSome? {
      var w := task.wpc.written;
      assert task.data[..w] + task.data[w..w + move.n] == task.data[..w + move.n];
    } else if move.Sync? {
      assert task.data[..task.wpc.written] == task.data;
    }
  }

  lemma RenameStep(s0: State, s: State, s': State, t: nat, failed: bool)
    requires OnItsWay(s0, s, t, failed) && WriterStep(s, t, Rename) == Some(s')
    ensures OnItsWay(s0, s', t, failed)
  {
    forall q | q != s.tasks[t].path ensures SameAt(s0, s', q) {
      assert SameAt(s0, s, q);
    }
  }

  lemma RestatStep(s0: State, s: State, s': State, t: nat, failed: bool)
    requires OnItsWay(s0, s, t, failed) && WriterStep(s, t, Restat) == Some(s')
    ensures OnItsWay(s0, s', t, failed)
  {
    forall q | q != s.tasks[t].path ensures SameAt(s0, s', q) {
      assert SameAt(s0, s, q);
    }
  }

  lemma FailStep(s0: State, s: State, s': State, t: nat, failed: bool)
    requires OnItsWay(s0, s, t, failed) && WriterFails(s, t) == Some(s')
    ensures OnItsWay(s0, s', t, true)
  {
    forall q | q != s.tasks[t].path || !s.tasks[t].wpc.Renamed? ensures SameAt(s0, s', q) {
      assert SameAt(s0, s, q);
    }
  }

  lemma SoloStep(start: State, s0: State, s: State, s': State, t: nat, move: Move, failed: bool)
    requires OnItsWay(s0, s, t, failed) && Step(start, s, Run(t, move)) == Some(s')
    ensures OnItsWay(s0, s', t, failed || move.Fail?)
  {
    if move.Fail? {
      FailStep(s0, s, s', t, failed);
    } else if move.Check? {
      CheckStep(s0, s, s', t, failed);
    } else if move.Rename? {
      RenameStep(s0, s, s', t, failed);
    } else if move.Restat? {
      RestatStep(s0, s, s', t, failed);
    } else {
      FillStep(s0, s, s', t, move, failed);
    }
  }

  lemma {:induction false} SoloRun(start: State, s0: State, s: State, actions: seq<Action>, t: nat, failed: bool)
    requires OnItsWay(s0, s, t, failed) && Solo(actions, t) && Execute(start, s, actions).Some?
    ensures OnItsWay(s0, Execute(start, s, actions).value, t, failed || Fails(actions))
    decreases |actions|
  {
    if actions != [] {
      var s', move := Step(start, s, actions[0]).value, actions[0].move;
      SoloStep(start, s0, s, s', t, move, failed);
      SoloRun(start, s0, s', actions[1..], t, failed || move.Fail?);
      FailsSplit(actions);
    }
  }

  lemma FailsSplit(actions: seq<Action>)
    requires actions != [] && actions[0].Run?
    ensures Fails(actions) <==> actions[0].move.Fail? || Fails(actions[1..])
  {
    if Fails(actions[1..]) {
      var i :| 0 <= i < |actions[1..]| && actions[1..][i].Run? && actions[1..][i].move.Fail?;
      assert actions[i + 1] == actions[1..][i];
    }
    if Fails(actions) && !actions[0].move.Fail? {
      var i :| 0 <= i < |actions| && actions[i].Run? && actions[i].move.Fail?;
      assert actions[1..][i - 1] == actions[i];
    }
  }

  // ---- Against the serial handler ----

  ghost predicate MirrorsAt(s: State, files: map<string, H.Version>, p: Path) {
    && (p in files <==> Bound(s, p))
    && (p in files ==> files[p].data == Current(s, p).data && H.MtimeNs(files[p].modified) == Current(s, p).stamp)
  }

  /** The serial daemon's files are the files of the machine, with their stamps. */
  ghost predicate Mirrors(s: State, files: map<string, H.Version>) {
    forall p :: MirrorsAt(s, files, p)
  }

  /** The environment of a serial write of the file `p`: policy admits it, its path leads there
      through no link at its end, and it can be examined. */
  ghost predicate Admits(site: H.Site, l: H.Luck, s: State, q: WriteFileReq, p: Path) {
    && site.cfg.policy.WritesAllowed() && l.allowed(q.path) && l.statError.None?
    && l.target(q.path) == p && (l.entry(q.path) == if Bound(s, p) then Some(p) else None)
  }

  /** Any run of the writer by itself that ends, ends as the serial handler does: all of the data in
      place and its stamp answered, or every file as it was and an error, and refused exactly if the
      condition fails. What goes wrong on the disk is what the serial handler is told goes wrong; if
      no call fails, a write that ends has been refused by its condition or answers the stamp of the
      file it left. */
  lemma SoloWriteIsSerial(start: State, s: State, actions: seq<Action>, t: nat,
                          files: map<string, H.Version>, site: H.Site, l: H.Luck, q: WriteFileReq)
    requires t < |s.tasks| && s.tasks[t] == Writer(s.tasks[t].path, q.data, q.ifMtimeMatches, WriteStart)
    requires forall p | Plain(p) in s.dir :: s.dir[Plain(p)] < |s.inodes|
    requires Solo(actions, t) && Execute(start, s, actions).Some?
    requires Mirrors(s, files) && Admits(site, l, s, q, s.tasks[t].path)
    ensures var p, s' := s.tasks[t].path, Execute(start, s, actions).value;
            var (after, _, result) := H.WriteFileSpec(site, l, files, q);
            && t < |s'.tasks| && s'.tasks[t].Writer?
            && match s'.tasks[t].wpc
               case WriteDone(stamp) =>
                 && Bound(s', p) && Current(s', p).data == q.data && CheckPasses(s, p, q.ifMtimeMatches)
                 && (stamp == Current(s', p).stamp || (Fails(actions) && stamp == 0))
                 && (H.WriteFailure(l.write, q.data).None? && H.MtimeNs(l.write.modified) == Current(s', p).stamp ==>
                       Mirrors(s', after)
                       && ((l.restatFails <==> stamp != Current(s', p).stamp) ==> result == Ok(WriteFileResp(stamp))))
               case WriteFailed =>
                 && Mirrors(s', files) && (Fails(actions) || !CheckPasses(s, p, q.ifMtimeMatches))
                 && (!CheckPasses(s, p, q.ifMtimeMatches) || H.WriteFailure(l.write, q.data).Some? ==>
                       after == files && result.Err?
                       && (result.error.MtimeMismatch? <==> !CheckPasses(s, p, q.ifMtimeMatches)))
               case Renamed => true
               case _ => Mirrors(s', files)
  {
    assert OnItsWay(s, s, t, false);
    SoloRun(start, s, s, actions, t, false);
    var p, s' := s.tasks[t].path, Execute(start, s, actions).value;
    SerialCheck(site, l, s, files, q, p);
    if s'.tasks[t].wpc.WriteDone? {
      ReplacedMirrors(s, s', files, p, q.data, l.write.modified);
    } else if !s'.tasks[t].wpc.Renamed? {
      KeptMirrors(s, s', files);
    }
  }

  lemma SerialCheck(site: H.Site, l: H.Luck, s: State, files: map<string, H.Version>, q: WriteFileReq, p: Path)
    requires Mirrors(s, files) && Admits(site, l, s, q, p)
    ensures var (after, _, result) := H.WriteFileSpec(site, l, files, q);
            if !CheckPasses(s, p, q.ifMtimeMatches) then
              after == files && result.Err? && result.error.MtimeMismatch?
            else if H.WriteFailure(l.write, q.data).Some? then
              after == files && result.Err? && !result.error.MtimeMismatch?
            else
              after == files[p := H.Version(q.data, l.write.modified)]
              && result == Ok(WriteFileResp(if l.restatFails then 0 else H.MtimeNs(l.write.modified)))
  {
    assert MirrorsAt(s, files, p);
  }

  lemma KeptMirrors(s: State, s': State, files: map<string, H.Version>)
    requires Mirrors(s, files) && PathsKept(s, s')
    requires |s.inodes| <= |s'.inodes| && forall i | 0 <= i < |s.inodes| :: s'.inodes[i] == s.inodes[i]
    requires forall p | Plain(p) in s.dir :: s.dir[Plain(p)] < |s.inodes|
    ensures Mirrors(s', files)
  {
    forall p ensures MirrorsAt(s', files, p) {
      assert SameAt(s, s', p) && MirrorsAt(s, files, p);
    }
  }

  lemma ReplacedMirrors(s: State, s': State, files: map<string, H.Version>, p: Path, data: Data, modified: Option<int>)
    requires Mirrors(s, files) && Replaced(s, s', p, data)
    requires |s.inodes| <= |s'.inodes| && forall i | 0 <= i < |s.inodes| :: s'.inodes[i] == s.inodes[i]
    requires forall p | Plain(p) in s.dir :: s.dir[Plain(p)] < |s.inodes|
    ensures Bound(s', p) && Current(s', p).data == data
    ensures H.MtimeNs(modified) == Current(s', p).stamp ==> Mirrors(s', files[p := H.Version(data, modified)])
  {
    var after := files[p := H.Version(data, modified)];
    forall r | r != p ensures MirrorsAt(s', after, r) {
      assert SameAt(s, s', r) && MirrorsAt(s, files, r);
    }
  }
}
