/** Runs showing that the conditions of the concurrent guarantees cannot be dropped. */
module InterleavingLimits {
  import opened Base
  import opened Interleaving
  import opened InterleavingSafety
  import opened InterleavingWrites
  import opened InterleavingReads

  lemma {:induction false} ExecuteConcat(start: State, s: State, a: seq<Action>, b: seq<Action>)
    requires Execute(start, s, a).Some?
    ensures Execute(start, s, a + b) == Execute(start, Execute(start, s, a).value, b)
    decreases |a|
  {
    if a == [] {
      assert a + b == b;
    } else {
      assert (a + b)[1..] == a[1..] + b;
      ExecuteConcat(start, Step(start, s, a[0]).value, a[1..], b);
    }
  }

  lemma Then(start: State, done: seq<Action>, s: State, a: Action)
    requires Execute(start, start, done) == Some(s) && Step(start, s, a).Some?
    ensures Execute(start, start, done + [a]) == Some(Step(start, s, a).value)
  {
    ExecuteConcat(start, start, done, [a]);
    var s' := Step(start, s, a).value;
    assert Execute(start, s', []) == Some(s');
    assert [a][1..] == [];
  }

  const FILE: Path := "f"

  /** One file holding byte 0, last modified at 1. */
  function OneFile(): State {
    State(map[Plain(FILE) := 0], [Inode([0], 1, true)], [], map[FILE := [0]])
  }

  lemma OneFileIsInit()
    ensures Init(OneFile())
  {
    forall p ensures Versions(OneFile(), p) == if p == FILE then [0] else [] {}
  }

  function StageMoves(t: nat, n: nat, at: i64): seq<Action> {
    [Run(t, CreateTemp(at)), Run(t, WriteSome(n, at))]
  }

  /** The moves of writer `t` from its check to its rename, for `n` bytes written at once. */
  function WriteMoves(t: nat, n: nat, at: i64): seq<Action> {
    StageMoves(t, n, at) + [Run(t, Sync), Run(t, Rename)]
  }

  lemma TwoMoves(start: State, s: State, a: Action, b: Action)
    requires Step(start, s, a).Some? && Step(start, Step(start, s, a).value, b).Some?
    ensures Execute(start, s, [a, b]) == Step(start, Step(start, s, a).value, b)
  {
    var s1 := Step(start, s, a).value;
    var s2 := Step(start, s1, b).value;
    assert [a, b][1..] == [b] && [b][1..] == [];
    assert Execute(start, s2, []) == Some(s2);
    assert Execute(start, s1, [b]) == Some(s2);
  }

  function StagedState(s: State, t: nat, at: i64): State
    requires t < |s.tasks| && s.tasks[t].Writer?
  {
    var id := |s.inodes|;
    SetTask(s, t, s.tasks[t].(wpc := Staged(id, |s.tasks[t].data|)))
    .(inodes := s.inodes + [Inode(s.tasks[t].data, at, false)], dir := s.dir[Temp(t) := id])
  }

  lemma StageLands(start: State, s: State, t: nat, at: i64)
    requires t < |s.tasks| && s.tasks[t].Writer? && s.tasks[t].wpc == Checked && |s.tasks[t].data| > 0
    ensures Execute(start, s, StageMoves(t, |s.tasks[t].data|, at)) == Some(StagedState(s, t, at))
  {
    var task := s.tasks[t];
    var s1 := Step(start, s, Run(t, CreateTemp(at))).value;
    var n := |task.data|;
    assert [] + task.data[0..0 + n] == task.data;
    var s2 := Step(start, s1, Run(t, WriteSome(n, at))).value;
    assert s2.inodes == StagedState(s, t, at).inodes;
    assert s2.tasks == StagedState(s, t, at).tasks;
    TwoMoves(start, s, Run(t, CreateTemp(at)), Run(t, WriteSome(n, at)));
  }

  /** A writer that has passed its check puts its data in place. */
  lemma WriteLands(start: State, s: State, t: nat, at: i64)
    requires t < |s.tasks| && s.tasks[t].Writer? && s.tasks[t].wpc == Checked && |s.tasks[t].data| > 0
    ensures var r := Execute(start, s, WriteMoves(t, |s.tasks[t].data|, at));
            var p := s.tasks[t].path;
            && r == Some(State((s.dir - {Temp(t)})[Plain(p) := |s.inodes|],
                               s.inodes + [Inode(s.tasks[t].data, at, true)],
                               s.tasks[t := s.tasks[t].(wpc := Renamed)],
                               s.versions[p := Versions(s, p) + [|s.inodes|]]))
  {
    var p := s.tasks[t].path;
    StageLands(start, s, t, at);
    var s2 := StagedState(s, t, at);
    ExecuteConcat(start, s, StageMoves(t, |s.tasks[t].data|, at), [Run(t, Sync), Run(t, Rename)]);
    var s3 := Step(start, s2, Run(t, Sync)).value;
    assert s3.inodes == s.inodes + [Inode(s.tasks[t].data, at, true)];
    var s4 := Step(start, s3, Run(t, Rename)).value;
    assert s4.dir == (s.dir - {Temp(t)})[Plain(p) := |s.inodes|];
    assert s4.tasks == s.tasks[t := s.tasks[t].(wpc := Renamed)];
    TwoMoves(start, s2, Run(t, Sync), Run(t, Rename));
  }

  lemma After(start: State, done: seq<Action>, s: State, more: seq<Action>, s': State)
    requires Execute(start, start, done) == Some(s) && Execute(start, s, more) == Some(s')
    ensures Execute(start, start, done + more) == Some(s')
  {
    ExecuteConcat(start, start, done, more);
  }

  /** The state after task `t` moves in a way that changes only that task. */
  lemma MoveTask(start: State, done: seq<Action>, s: State, t: nat, move: Move, task: Task)
    requires t < |s.tasks|
    requires Execute(start, start, done) == Some(s) && Step(start, s, Run(t, move)) == Some(SetTask(s, t, task))
    ensures Execute(start, start, done + [Run(t, move)]) == Some(SetTask(s, t, task))
  {
    Then(start, done, s, Run(t, move));
  }

  /** The one file after `versions` have been put in place of it, one after the other. */
  function History(inodes: seq<Inode>, tasks: seq<Task>): State
    requires inodes != []
  {
    State(map[Plain(FILE) := |inodes| - 1], inodes, tasks, map[FILE := seq(|inodes|, i => i)])
  }

  lemma HistoryIsLatest(inodes: seq<Inode>, tasks: seq<Task>)
    requires inodes != []
    ensures CurrentVersion(History(inodes, tasks), FILE) == |inodes| - 1 && Latest(History(inodes, tasks), FILE)
  {
    assert Versions(History(inodes, tasks), FILE)[|inodes| - 1] == |inodes| - 1;
  }

  lemma NextHistory(inodes: seq<Inode>, tasks: seq<Task>, t: nat, v: Inode, after: seq<Task>)
    requires inodes != []
    ensures var s := History(inodes, tasks);
            History(inodes + [v], after)
            == State((s.dir - {Temp(t)})[Plain(FILE) := |inodes|], inodes + [v], after,
                     s.versions[FILE := Versions(s, FILE) + [|inodes|]])
  {
    var s, s' := History(inodes, tasks), History(inodes + [v], after);
    assert (s.dir - {Temp(t)})[Plain(FILE) := |inodes|] == s'.dir;
    assert Versions(s, FILE) + [|inodes|] == s'.versions[FILE];
    assert s.versions[FILE := Versions(s, FILE) + [|inodes|]] == s'.versions;
  }

  /** WriteLands on such a state. */
  lemma NextVersion(done: seq<Action>, inodes: seq<Inode>, tasks: seq<Task>, t: nat, at: i64)
    requires inodes != [] && t < |tasks|
    requires Execute(OneFile(), OneFile(), done) == Some(History(inodes, tasks))
    requires tasks[t].Writer? && tasks[t].wpc == Checked && |tasks[t].data| > 0 && tasks[t].path == FILE
    ensures Execute(OneFile(), OneFile(), done + WriteMoves(t, |tasks[t].data|, at))
            == Some(History(inodes + [Inode(tasks[t].data, at, true)], tasks[t := tasks[t].(wpc := Renamed)]))
  {
    var s := History(inodes, tasks);
    WriteLands(OneFile(), s, t, at);
    var after := tasks[t := tasks[t].(wpc := Renamed)];
    NextHistory(inodes, tasks, t, Inode(tasks[t].data, at, true), after);
    After(OneFile(), done, s, WriteMoves(t, |tasks[t].data|, at), History(inodes + [Inode(tasks[t].data, at, true)], after));
  }

  lemma TwoSpawned(a: Task, b: Task)
    requires IsNew(a) && IsNew(b)
    ensures Execute(OneFile(), OneFile(), [Spawn(a), Spawn(b)]) == Some(OneFile().(tasks := [a, b]))
  {
    var s1 := Step(OneFile(), OneFile(), Spawn(a)).value;
    var s2 := Step(OneFile(), s1, Spawn(b)).value;
    assert s2.tasks == [a, b];
    TwoMoves(OneFile(), OneFile(), Spawn(a), Spawn(b));
  }

  /** Two tasks are started and each makes a move that changes only itself. */
  lemma TwoMoved(a: Task, b: Task, moveA: Move, moveB: Move, a': Task, b': Task) returns (done: seq<Action>)
    requires IsNew(a) && IsNew(b)
    requires var s := OneFile().(tasks := [a, b]);
             && Step(OneFile(), s, Run(0, moveA)) == Some(SetTask(s, 0, a'))
             && Step(OneFile(), SetTask(s, 0, a'), Run(1, moveB)) == Some(SetTask(SetTask(s, 0, a'), 1, b'))
    ensures Execute(OneFile(), OneFile(), done) == Some(History([Inode([0], 1, true)], [a', b']))
  {
    var s := OneFile().(tasks := [a, b]);
    TwoSpawned(a, b);
    MoveTask(OneFile(), [Spawn(a), Spawn(b)], s, 0, moveA, a');
    MoveTask(OneFile(), [Spawn(a), Spawn(b)] + [Run(0, moveA)], SetTask(s, 0, a'), 1, moveB, b');
    done := [Spawn(a), Spawn(b)] + [Run(0, moveA)] + [Run(1, moveB)];
    var end := SetTask(SetTask(s, 0, a'), 1, b');
    assert end.tasks == [a', b'];
    assert end.versions[FILE] == seq(1, i => i);
    assert end.versions == History([Inode([0], 1, true)], [a', b']).versions;
  }

  lemma TwoChecked() returns (done: seq<Action>)
    ensures Execute(OneFile(), OneFile(), done)
            == Some(History([Inode([0], 1, true)], [Writer(FILE, [1], Some(1), Checked), Writer(FILE, [2], Some(1), Checked)]))
  {
    var a, b := Writer(FILE, [1], Some(1), WriteStart), Writer(FILE, [2], Some(1), WriteStart);
    done := TwoMoved(a, b, Check, Check, a.(wpc := Checked), b.(wpc := Checked));
  }

  lemma FirstCommitted() returns (done: seq<Action>)
    ensures Execute(OneFile(), OneFile(), done)
            == Some(History([Inode([0], 1, true), Inode([1], 2, true)],
                            [Writer(FILE, [1], Some(1), Renamed), Writer(FILE, [2], Some(1), Checked)]))
  {
    done := TwoChecked();
    var a, b := Writer(FILE, [1], Some(1), Checked), Writer(FILE, [2], Some(1), Checked);
    NextVersion(done, [Inode([0], 1, true)], [a, b], 0, 2);
    assert [Inode([0], 1, true)] + [Inode([1], 2, true)] == [Inode([0], 1, true), Inode([1], 2, true)];
    assert [a, b][0 := a.(wpc := Renamed)] == [a.(wpc := Renamed), b];
    done := done + WriteMoves(0, 1, 2);
  }

  /** Two writers conditional on the same version both took effect, the second over the first. */
  ghost predicate BothCommit(start: State, actions: seq<Action>, s: State) {
    && Init(start) && Execute(start, start, actions) == Some(s)
    && s.tasks == [Writer(FILE, [1], Some(1), Renamed), Writer(FILE, [2], Some(1), Renamed)]
    && Bound(s, FILE) && Current(s, FILE).data == [2]
    && DistinctStamps(s, FILE)
  }

  lemma SecondCommitted(done: seq<Action>, before: seq<Inode>, tasks: seq<Task>, after: seq<Task>)
    requires before == [Inode([0], 1, true), Inode([1], 2, true)]
    requires tasks == [Writer(FILE, [1], Some(1), Renamed), Writer(FILE, [2], Some(1), Checked)]
    requires after == tasks[1 := tasks[1].(wpc := Renamed)]
    requires Execute(OneFile(), OneFile(), done) == Some(History(before, tasks)) && Init(OneFile())
    ensures BothCommit(OneFile(), done + WriteMoves(1, 1, 3), History(before + [Inode([2], 3, true)], after))
  {
    NextVersion(done, before, tasks, 1, 3);
  }

  /** The check and the rename are separate moves: two writers conditional on the same version can
      both pass and both commit, and the first one's data is overwritten unseen. */
  lemma BothConditionalWritesCommit()
    ensures exists start, actions, s :: BothCommit(start, actions, s)
  {
    OneFileIsInit();
    var done := FirstCommitted();
    var a, b := Writer(FILE, [1], Some(1), Renamed), Writer(FILE, [2], Some(1), Checked);
    SecondCommitted(done, [Inode([0], 1, true), Inode([1], 2, true)], [a, b], [a, b][1 := b.(wpc := Renamed)]);
  }

  /** The data a reader of the one file returns, moved from its stat to its end. */
  function Done(stamp: i64, fd: nat, openAt: nat, data: Data): Task {
    Reader(FILE, 1, ReadDone(stamp, 0, fd, openAt, data))
  }

  lemma ReadLands(start: State, done: seq<Action>, s: State)
    requires Execute(start, start, done) == Some(s) && 0 < |s.tasks|
    requires s.tasks[0] == Reader(FILE, 1, Statted(1, 0))
    requires Bound(s, FILE) && |Current(s, FILE).data| > 0
    ensures var fd := s.dir[Plain(FILE)];
            Execute(start, start, done + ReadMoves(|Current(s, FILE).data|))
            == Some(SetTask(s, 0, Done(1, fd, CurrentVersion(s, FILE), Current(s, FILE).data)))
  {
    var fd, last, data := s.dir[Plain(FILE)], CurrentVersion(s, FILE), Current(s, FILE).data;
    var n := |data|;
    assert [] + data[0..0 + n] == data;
    var r1 := Reader(FILE, 1, Reading(1, 0, fd, last, []));
    var r2 := Reader(FILE, 1, Reading(1, 0, fd, last, data));
    MoveTask(start, done, s, 0, Open, r1);
    var s1 := SetTask(s, 0, r1);
    MoveTask(start, done + [Run(0, Open)], s1, 0, ReadSome(n), r2);
    var s2 := SetTask(s1, 0, r2);
    assert s2 == SetTask(s, 0, r2);
    MoveTask(start, done + [Run(0, Open)] + [Run(0, ReadSome(n))], s2, 0, FinishRead, Done(1, fd, last, data));
    assert SetTask(s2, 0, Done(1, fd, last, data)) == SetTask(s, 0, Done(1, fd, last, data));
    assert done + [Run(0, Open)] + [Run(0, ReadSome(n))] + [Run(0, FinishRead)] == done + ReadMoves(n);
  }

  function ReadMoves(n: nat): seq<Action> {
    [Run(0, Open), Run(0, ReadSome(n)), Run(0, FinishRead)]
  }

  /** A reader that has done its stat, beside a writer of `data` that has passed its check. */
  lemma Prelude(data: Data) returns (done: seq<Action>)
    ensures Execute(OneFile(), OneFile(), done)
            == Some(History([Inode([0], 1, true)], [Reader(FILE, 1, Statted(1, 0)), Writer(FILE, data, None, Checked)]))
  {
    var r, w := Reader(FILE, 1, ReadStart), Writer(FILE, data, None, WriteStart);
    done := TwoMoved(r, w, Stat, Check, Reader(FILE, 1, Statted(1, 0)), w.(wpc := Checked));
  }

  /** A finished read whose stamp passes the check although its data is not what the path holds. */
  ghost predicate Fooled(start: State, actions: seq<Action>, s: State) {
    && Init(start) && Execute(start, start, actions) == Some(s)
    && |s.tasks| > 0 && s.tasks[0].Reader? && s.tasks[0].rpc.ReadDone?
    && CheckPasses(s, FILE, Some(s.tasks[0].rpc.stamp))
    && Current(s, FILE).data != s.tasks[0].rpc.data
  }

  /** With a clock too coarse to tell two versions apart, a conditional write passes its check on
      data that was never read. */
  lemma ReusedStampFoolsCheck()
    ensures exists start, actions, s :: Fooled(start, actions, s) && Latest(s, FILE)
  {
    OneFileIsInit();
    var done := Prelude([9]);
    var v0, w := Inode([0], 1, true), Writer(FILE, [9], None, Checked);
    var s := History([v0], [Reader(FILE, 1, Statted(1, 0)), w]);
    ReadLands(OneFile(), done, s);
    var done' := done + ReadMoves(1);
    var r := Done(1, 0, 0, [0]);
    assert SetTask(s, 0, r) == History([v0], [r, w]);
    NextVersion(done', [v0], [r, w], 1, 1);
    assert Fooled(OneFile(), done' + WriteMoves(1, 1, 1), History([v0] + [Inode([9], 1, true)], [r, w][1 := w.(wpc := Renamed)]));
  }

  lemma ReadOfSecondVersion() returns (done: seq<Action>)
    ensures Execute(OneFile(), OneFile(), done)
            == Some(History([Inode([0], 1, true), Inode([9], 2, true)],
                            [Done(1, 1, 1, [9]), Writer(FILE, [9], None, Renamed)]))
  {
    done := Prelude([9]);
    var v0, v1, w := Inode([0], 1, true), Inode([9], 2, true), Writer(FILE, [9], None, Checked);
    var r := Reader(FILE, 1, Statted(1, 0));
    NextVersion(done, [v0], [r, w], 1, 2);
    assert [v0] + [v1] == [v0, v1] && [r, w][1 := w.(wpc := Renamed)] == [r, w.(wpc := Renamed)];
    var s := History([v0, v1], [r, w.(wpc := Renamed)]);
    HistoryIsLatest([v0, v1], [r, w.(wpc := Renamed)]);
    ReadLands(OneFile(), done + WriteMoves(1, 1, 2), s);
    done := done + WriteMoves(1, 1, 2) + ReadMoves(1);
    assert SetTask(s, 0, Done(1, 1, 1, [9])) == History([v0, v1], [Done(1, 1, 1, [9]), w.(wpc := Renamed)]);
  }

  /** A rename that a power loss undoes brings back a version after a reader has paired its stamp
      with the next version's data. */
  lemma UndoneRenameFoolsCheck()
    ensures exists start, actions, s :: Fooled(start, actions, s) && DistinctStamps(s, FILE)
  {
    OneFileIsInit();
    var done := ReadOfSecondVersion();
    var s := History([Inode([0], 1, true), Inode([9], 2, true)],
                     [Done(1, 1, 1, [9]), Writer(FILE, [9], None, Renamed)]);
    var loss := PowerLoss(s.inodes, map[FILE := Some(0)]);
    Then(OneFile(), done, s, loss);
    var s' := Step(OneFile(), s, loss).value;
    assert s'.tasks[0] == Done(1, 1, 1, [9]);
    assert s'.dir[Plain(FILE)] == Versions(s, FILE)[0];
    assert Fooled(OneFile(), done + [loss], s');
  }

  /** A completed read of more bytes than its cap. */
  ghost predicate OverCap(start: State, actions: seq<Action>, s: State) {
    && Init(start) && Execute(start, start, actions) == Some(s)
    && |s.tasks| > 0 && s.tasks[0].Reader? && s.tasks[0].rpc.ReadDone?
    && |s.tasks[0].rpc.data| > s.tasks[0].cap
  }

  /** A longer version that is put in place between the stat and the open is read whole. */
  lemma ReadMayExceedCap()
    ensures exists start, actions, s :: OverCap(start, actions, s)
  {
    OneFileIsInit();
    var done := Prelude([8, 9]);
    var v0, v1, w := Inode([0], 1, true), Inode([8, 9], 2, true), Writer(FILE, [8, 9], None, Checked);
    var r := Reader(FILE, 1, Statted(1, 0));
    NextVersion(done, [v0], [r, w], 1, 2);
    assert [v0] + [v1] == [v0, v1] && [r, w][1 := w.(wpc := Renamed)] == [r, w.(wpc := Renamed)];
    var s := History([v0, v1], [r, w.(wpc := Renamed)]);
    HistoryIsLatest([v0, v1], [r, w.(wpc := Renamed)]);
    ReadLands(OneFile(), done + WriteMoves(1, 2, 2), s);
    assert OverCap(OneFile(), done + WriteMoves(1, 2, 2) + ReadMoves(2), SetTask(s, 0, Done(1, 1, 1, [8, 9])));
  }

  // ---- What a power loss can do ----

  /** A power loss can leave anything in a file that was not synced, ... */
  lemma LossMayTear(start: State, s: State, i: nat, left: Inode)
    requires i < |s.inodes| && !s.inodes[i].synced
    ensures var s' := Step(start, s, PowerLoss(s.inodes[i := left], map[]));
            s'.Some? && s'.value.inodes == s.inodes[i := left] && s'.value.dir == s.dir
  {
    assert DirAfterLoss(s, map[]) == s.dir;
  }

  /** ... put any earlier version of a path back in place, ... */
  lemma LossMayUndo(start: State, s: State, p: Path, k: nat)
    requires k < |Versions(s, p)|
    ensures var s' := Step(start, s, PowerLoss(s.inodes, map[p := Some(k)]));
            s'.Some? && Plain(p) in s'.value.dir && s'.value.dir[Plain(p)] == Versions(s, p)[k]
  {
  }

  /** ... and remove a file that was not there at the start. */
  lemma LossMayRemove(start: State, s: State, p: Path)
    requires Plain(p) !in start.dir
    ensures var s' := Step(start, s, PowerLoss(s.inodes, map[p := None]));
            s'.Some? && Plain(p) !in s'.value.dir
  {
  }
}
