/** When each kind of request succeeds, and with what. */
module Answers {
  import opened Base
  import opened Wire
  import opened ExecRun
  import opened Configuration
  import opened Handlers
  import Codec
  import Sorting
  import L = ListDir

  /** A read succeeds exactly when policy admits the path, the file is there, it can be examined and
      read, and it obeys both size limits; it answers with the whole file and its stamp. A file
      that is only too large is refused with its size and the smaller limit. */
  lemma ReadSucceedsIff(site: Site, oracle: Oracle, w: World, q: ReadFileReq)
    ensures var resp := Step(site, oracle, w, ReadFile(q)).1;
            var l := oracle(w.turn);
            var found := Found(l, w.files, q.path);
            var reachable := l.allowed(q.path) && found.Some? && l.statError.None?;
            var fits := reachable && Codec.Length(|found.value.data|) <= q.maxBytes
                        && Codec.Length(|found.value.data|) <= site.cfg.maxReadBytes;
            && resp.ReadFileResult?
            && (resp.readFile.Ok? <==> fits && l.readError.None?)
            && (resp.readFile.Ok? ==>
                  resp.readFile.value
                  == ReadFileResp(found.value.data, MtimeNs(found.value.modified), Codec.Length(|found.value.data|)))
            && (resp.readFile.Ok? && InRange(found.value.modified) ==>
                  resp.readFile.value.mtime == found.value.modified.value)
            && (resp.readFile.Err? && resp.readFile.error.SizeLimitExceeded? <==> reachable && !fits)
            && (reachable && !fits ==>
                  resp.readFile.error.requested == Codec.Length(|found.value.data|) > resp.readFile.error.max
                  && resp.readFile.error.max in {q.maxBytes, site.cfg.maxReadBytes})
  {
    var found := Found(oracle(w.turn), w.files, q.path);
    if found.Some? {
      StampIsTime(found.value.modified);
    }
  }

  /** A modification time that an i64 of nanoseconds since the epoch holds. */
  predicate InRange(modified: Option<int>) {
    modified.Some? && 0 <= modified.value < 0x8000_0000_0000_0000
  }

  /** What a failed read reports, case by case. */
  lemma ReadFailsWith(site: Site, oracle: Oracle, w: World, q: ReadFileReq)
    ensures var resp := Step(site, oracle, w, ReadFile(q)).1;
            var l := oracle(w.turn);
            var found, denied := Found(l, w.files, q.path), !l.allowed(q.path);
            && resp.ReadFileResult?
            && (resp.readFile == Err(PathNotAllowed(q.path)) <==> denied)
            && (resp.readFile == Err(NotFound(q.path)) <==>
                !denied && if l.statError.Some? then l.statError.value.kind.NoSuchFile? else found.None?)
            && (resp.readFile == Err(PermissionDenied(q.path)) <==>
                !denied && l.statError.Some? && l.statError.value.kind.NotPermitted?)
            && (!denied && l.statError.Some? && l.statError.value.kind.SomethingElse? ==>
                  resp.readFile == Err(Io(l.statError.value.text)))
            && (resp.readFile.Err? && resp.readFile.error.Io? && l.statError.None? ==>
                  l.readError.Some? && resp.readFile == Err(Io(l.readError.value.text)))
  {
  }

  /** A write takes effect exactly when the mode allows writing, policy admits the path, its
      condition (if any) holds of a file that is there, and the disk cooperates; a mode without
      writing refuses before anything else is looked at. */
  lemma WriteSucceedsIff(site: Site, oracle: Oracle, w: World, q: WriteFileReq)
    ensures var (now, resp) := Step(site, oracle, w, WriteFile(q));
            var l := oracle(w.turn);
            var found := Found(l, w.files, q.path);
            var current := q.ifMtimeMatches.Some? ==>
                             found.Some? && l.statError.None? && MtimeNs(found.value.modified) == q.ifMtimeMatches.value;
            && resp.WriteFileResult?
            && (q.ifMtimeMatches.Some? && found.Some? && l.statError.None? && InRange(found.value.modified) ==>
                  (current <==> found.value.modified == Some(q.ifMtimeMatches.value as int)))
            && (resp.writeFile.Ok? <==>
                  site.cfg.policy.WritesAllowed() && l.allowed(q.path) && current && WriteFailure(l.write, q.data).None?)
            && (now.files == if resp.writeFile.Ok? then w.files[l.target(q.path) := Version(q.data, l.write.modified)]
                             else w.files)
            && (resp.writeFile.Err? && resp.writeFile.error.MtimeMismatch? <==>
                  site.cfg.policy.WritesAllowed() && l.allowed(q.path) && !current)
            && (!site.cfg.policy.WritesAllowed() ==> resp == WriteFileResult(Err(PermissionDenied("read-only mode"))))
            && (resp.writeFile.Ok? && !l.restatFails && InRange(l.write.modified) ==>
                  resp.writeFile.value.mtime == l.write.modified.value)
            && (resp.writeFile.Ok? && l.restatFails ==> resp.writeFile.value.mtime == 0)
  {
    var l := oracle(w.turn);
    var found := Found(l, w.files, q.path);
    StampIsTime(l.write.modified);
    if found.Some? {
      StampIsTime(found.value.modified);
    }
  }

  /** What a write reports that policy and its condition let through but the disk does not, and what
      one reports whose condition fails. */
  lemma WriteFailsWith(site: Site, oracle: Oracle, w: World, q: WriteFileReq)
    requires site.cfg.policy.WritesAllowed()
    ensures var resp := Step(site, oracle, w, WriteFile(q)).1;
            var l := oracle(w.turn);
            var found, failure := Found(l, w.files, q.path), WriteFailure(l.write, q.data);
            && resp.WriteFileResult?
            && (resp.writeFile == Err(PathNotAllowed(q.path)) <==> !l.allowed(q.path))
            && (resp.writeFile.Err? && resp.writeFile.error.MtimeMismatch? ==>
                  && q.ifMtimeMatches == Some(resp.writeFile.error.expected)
                  && (found.Some? && l.statError.None? ==> resp.writeFile.error.actual == MtimeNs(found.value.modified))
                  && (found.None? || l.statError.Some? ==> resp.writeFile.error.actual == 0))
            && (resp.writeFile.Err? && !resp.writeFile.error.PathNotAllowed? && !resp.writeFile.error.MtimeMismatch? ==>
                  && failure.Some?
                  && (failure.value.kind.NoSuchFile? ==> resp.writeFile.error == NotFound(q.path))
                  && (failure.value.kind.NotPermitted? ==> resp.writeFile.error == PermissionDenied(q.path))
                  && (failure.value.kind.SomethingElse? ==> resp.writeFile.error == Io(failure.value.text)))
  {
  }

  /** A listing succeeds exactly when policy admits the path and the directory can be opened, and it
      shows exactly the visible entries, strictly sorted by name. */
  lemma ListSucceedsIff(site: Site, oracle: Oracle, w: World, q: ListDirReq)
    ensures var resp := Step(site, oracle, w, ListDir(q)).1;
            var listing := oracle(w.turn).listing;
            && resp.ListDirResult?
            && (resp.listDir.Ok? <==> oracle(w.turn).allowed(q.path) && listing.Ok?)
            && (resp.listDir.Ok? && L.IsDirectory(listing.value) ==>
                  var es := resp.listDir.value.entries;
                  && (forall i, j | 0 <= i < j < |es| :: Sorting.Leq(es[i].name, es[j].name) && es[i].name != es[j].name)
                  && (forall e :: e in es <==>
                        exists i ::
                          && 0 <= i < |listing.value| && listing.value[i].Item? && listing.value[i].name == Some(e.name)
                          && (e.name == [] || e.name[0] != '.')
                          && listing.value[i].meta.Some? && e.isDir == listing.value[i].meta.value.isDir
                          && e.size == if e.isDir then 0 else listing.value[i].meta.value.len))
  {
    var listing := oracle(w.turn).listing;
    if oracle(w.turn).allowed(q.path) && listing.Ok? && L.IsDirectory(listing.value) {
      L.ListingIsExact(listing.value);
    }
  }

  lemma ListFailsWith(site: Site, oracle: Oracle, w: World, q: ListDirReq)
    ensures var resp := Step(site, oracle, w, ListDir(q)).1;
            var l := oracle(w.turn);
            && resp.ListDirResult?
            && (resp.listDir == Err(PathNotAllowed(q.path)) <==> !l.allowed(q.path))
            && (l.allowed(q.path) && l.listing.Err? ==>
                  && (l.listing.error.kind.NoSuchFile? ==> resp.listDir == Err(NotFound(q.path)))
                  && (l.listing.error.kind.NotPermitted? ==> resp.listDir == Err(PermissionDenied(q.path)))
                  && (l.listing.error.kind.SomethingElse? ==> resp.listDir == Err(Io(l.listing.error.text))))
  {
  }

  /** Poll `k` is the first to find the child ended, and none before it was past the deadline. */
  ghost predicate ExitsInTime(c: Child, timeoutMs: nat, k: nat) {
    && c.status(k).Exited?
    && forall j: nat | j < k :: c.status(j).Running? && c.elapsed(j) < timeoutMs * 1_000_000
  }

  /** Poll `k` fails, and none before it was past the deadline or found the child ended. */
  ghost predicate WaitBreaks(c: Child, timeoutMs: nat, k: nat) {
    && c.status(k).WaitError?
    && forall j: nat | j < k :: c.status(j).Running? && c.elapsed(j) < timeoutMs * 1_000_000
  }

  lemma WaitIsExact(c: Child, timeoutMs: nat)
    ensures WaitFor(c, timeoutMs).Finished? <==> exists k: nat :: ExitsInTime(c, timeoutMs, k)
    ensures forall k: nat | ExitsInTime(c, timeoutMs, k) :: WaitFor(c, timeoutMs) == Finished(c.status(k).code)
    ensures WaitFor(c, timeoutMs).WaitFailed? <==> exists k: nat :: WaitBreaks(c, timeoutMs, k)
    ensures forall k: nat | WaitBreaks(c, timeoutMs, k) :: WaitFor(c, timeoutMs) == WaitFailed(c.status(k).message)
  {
    var d := DecidingPoll(c, timeoutMs, 0);
    forall j: nat | j < d
      ensures c.status(j).Running? && c.elapsed(j) < timeoutMs * 1_000_000
    {
      assert !Decisive(c, timeoutMs, j);
    }
    if WaitFor(c, timeoutMs).Finished? {
      assert ExitsInTime(c, timeoutMs, d);
    }
    if WaitFor(c, timeoutMs).WaitFailed? {
      assert WaitBreaks(c, timeoutMs, d);
    }
    forall k: nat | ExitsInTime(c, timeoutMs, k) || WaitBreaks(c, timeoutMs, k)
      ensures k == d
    {
      assert Decisive(c, timeoutMs, d) && Decisive(c, timeoutMs, k);
    }
  }

  /** A command is refused exactly when policy does not permit it, and one that cannot be started
      reports why. */
  lemma ExecRefusedIff(site: Site, oracle: Oracle, w: World, q: ExecReq)
    ensures var resp := Step(site, oracle, w, Exec(q)).1;
            var x := oracle(w.turn).exec;
            && resp.ExecResult?
            && (resp.exec.Err? && resp.exec.error.PermissionDenied? <==> !site.execAllowed(q.command))
            && (!site.execAllowed(q.command) ==>
                  resp == ExecResult(Err(PermissionDenied(if site.cfg.policy.ReadOnly? then "read-only mode"
                                                          else if site.cfg.policy.WorkspaceAllowlistExec? then "command not in allowlist"
                                                          else "exec denied by policy"))))
            && (site.execAllowed(q.command) && x.SpawnFails? ==> resp == ExecResult(Err(Io(x.message))))
  {
  }

  /** A permitted command that starts is given the time it asks for, or the configured maximum if it
      asks for none or for more. It is answered with its exit code and the heads of its two
      streams exactly when some poll finds it ended before any poll at or after the deadline finds
      it running, and with a timeout exactly in the latter case. */
  lemma ExecSucceedsIff(site: Site, oracle: Oracle, w: World, q: ExecReq)
    requires site.execAllowed(q.command) && oracle(w.turn).exec.Spawned?
    ensures var resp := Step(site, oracle, w, Exec(q)).1;
            var x := oracle(w.turn).exec;
            var most, asked := site.cfg.maxExecTimeoutMs, q.timeoutMs;
            var timeout := if asked == 0 || most < asked then most else asked;
            var max := if q.maxOutputBytes < site.cfg.maxOutputBytes then q.maxOutputBytes else site.cfg.maxOutputBytes;
            && resp.ExecResult?
            && (resp.exec.Ok? <==> exists k: nat :: ExitsInTime(x.child, timeout, k))
            && (resp == ExecResult(Err(Timeout)) <==> exists k: nat :: StillRunningAtDeadline(x.child, timeout, k))
            && (resp.exec.Ok? ==>
                  var v := resp.exec.value;
                  && (forall k: nat | ExitsInTime(x.child, timeout, k) :: v.exitCode == x.child.status(k).code)
                  && v.stdout <= Output(x.stdout) && |v.stdout| == Min(max, |Output(x.stdout)|)
                  && v.stderr <= Output(x.stderr) && |v.stderr| == Min(max, |Output(x.stderr)|)
                  && (v.outputTruncated <==> v.stdout != Output(x.stdout) || v.stderr != Output(x.stderr))
                  && v.durationMs == (if x.totalMs > 0xFFFF_FFFF then 0xFFFF_FFFF else x.totalMs)
                  && !v.timedOut)
            && (resp.exec.Err? && resp.exec.error.Io? <==> exists k: nat :: WaitBreaks(x.child, timeout, k))
            && (forall k: nat | WaitBreaks(x.child, timeout, k) :: resp == ExecResult(Err(Io(x.child.status(k).message))))
  {
    var x := oracle(w.turn).exec;
    var timeout := EffectiveTimeoutMs(site.cfg, q.timeoutMs);
    TimeoutIs(site.cfg, q.timeoutMs);
    WaitIsExact(x.child, timeout);
    PollsAreBounded(x.child, timeout);
    var v := Step(site, oracle, w, Exec(q)).1.exec;
    if v.Ok? {
      assert v.value.stdout == Output(x.stdout)[..|v.value.stdout|];
      assert v.value.stderr == Output(x.stderr)[..|v.value.stderr|];
    }
  }

  /** A ping is answered and changes nothing. */
  lemma PingIsPong(site: Site, oracle: Oracle, w: World)
    ensures var (now, resp) := Step(site, oracle, w, Ping);
            resp == Pong && now.files == w.files && now.log == w.log
  {
  }
}
