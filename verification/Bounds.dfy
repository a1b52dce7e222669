/** Limits the configuration puts on answers: how large their frames get, and how often the daemon
    polls a child. */
module Bounds {
  import opened Base
  import opened Wire
  import opened Codec
  import opened Messages
  import opened Framing
  import opened Configuration
  import opened ExecRun
  import opened Handlers

  // ---- Frame sizes ----

  lemma FieldsLength(fs: seq<Field>)
    ensures |fs| > 0 ==> PutFields(fs, []) == PutField(fs[0], PutFields(fs[1..], []))
  {
  }

  lemma ReadFrameLength(v: ReadFileResp)
    ensures |EncodeResponse(ReadFileResult(Ok(v)))| == 36 + |v.data|
  {
    var fs := [Blob(v.data), I64(v.mtime), U64(v.size)];
    assert fs[1..] == [I64(v.mtime), U64(v.size)] && fs[2..] == [U64(v.size)];
    FieldsLength(fs);
    FieldsLength(fs[1..]);
    FieldsLength(fs[2..]);
  }

  function OptionLength(v: Option<i32>): nat {
    if v.None? then 1 else 5
  }

  lemma ExecTailLength(fs: seq<Field>, v: ExecResp)
    requires fs == [OptionI32(v.exitCode), U32(v.durationMs), Flag(v.timedOut), Flag(v.outputTruncated)]
    ensures |PutFields(fs, [])| == 6 + OptionLength(v.exitCode)
  {
    assert fs[1..] == [U32(v.durationMs), Flag(v.timedOut), Flag(v.outputTruncated)];
    assert fs[2..] == [Flag(v.timedOut), Flag(v.outputTruncated)] && fs[3..] == [Flag(v.outputTruncated)];
    FieldsLength(fs);
    FieldsLength(fs[1..]);
    FieldsLength(fs[2..]);
    FieldsLength(fs[3..]);
  }

  lemma ExecFrameLength(v: ExecResp)
    ensures |EncodeResponse(ExecResult(Ok(v)))| == 34 + OptionLength(v.exitCode) + |v.stdout| + |v.stderr|
  {
    var tail := [OptionI32(v.exitCode), U32(v.durationMs), Flag(v.timedOut), Flag(v.outputTruncated)];
    var fs := [Blob(v.stdout), Blob(v.stderr)] + tail;
    assert fs[1..] == [Blob(v.stderr)] + tail && fs[1..][1..] == tail;
    ExecTailLength(tail, v);
    FieldsLength(fs);
    FieldsLength(fs[1..]);
    assert ResponseMessage(ExecResult(Ok(v))).fields == fs;
  }

  /** Files are shorter than 2^64 bytes. */
  ghost predicate Sane(files: map<string, Version>) {
    forall e | e in files :: |files[e].data| < 0x1_0000_0000_0000_0000
  }

  /** A successful read answers in 36 bytes and the data, and the data obeys both caps. */
  lemma ReadFrameBound(site: Site, oracle: Oracle, w: World, q: ReadFileReq)
    requires Sane(w.files)
    ensures var resp := Handlers.Step(site, oracle, w, ReadFile(q)).1;
            resp.readFile.Ok? ==>
              && |EncodeResponse(resp)| == 36 + |resp.readFile.value.data|
              && |resp.readFile.value.data| <= Lesser(q.maxBytes, site.cfg.maxReadBytes)
  {
    var resp := Handlers.Step(site, oracle, w, ReadFile(q)).1;
    if resp.readFile.Ok? {
      ReadFrameLength(resp.readFile.value);
    }
  }

  /** A successful command answers in at most 39 bytes and its output; the cap applies to each
      stream by itself. */
  lemma ExecFrameBound(site: Site, oracle: Oracle, w: World, q: ExecReq)
    ensures var resp := Handlers.Step(site, oracle, w, Exec(q)).1;
            var max := Lesser(q.maxOutputBytes, site.cfg.maxOutputBytes);
            resp.exec.Ok? ==>
              && |EncodeResponse(resp)| <= 39 + 2 * max
              && |resp.exec.value.stdout| <= max && |resp.exec.value.stderr| <= max
  {
    var resp := Handlers.Step(site, oracle, w, Exec(q)).1;
    if resp.exec.Ok? {
      ExecFrameLength(resp.exec.value);
    }
  }

  /** When the two streams of an answer obey the cap together, as its comment has it: if all of the
      output does, or the cap is 0, or one of the streams is empty. */
  lemma CombinedCapIff(site: Site, oracle: Oracle, w: World, q: ExecReq)
    ensures var resp := Handlers.Step(site, oracle, w, Exec(q)).1;
            var max, x := Lesser(q.maxOutputBytes, site.cfg.maxOutputBytes), oracle(w.turn).exec;
            resp.exec.Ok? ==>
              && x.Spawned?
              && (|resp.exec.value.stdout| + |resp.exec.value.stderr| <= max <==>
                  || |Output(x.stdout)| + |Output(x.stderr)| <= max
                  || max == 0 || Output(x.stdout) == [] || Output(x.stderr) == [])
  {
  }

  /** An answer with more output than the hard ceiling. */
  ghost predicate OverCombined(site: Site, oracle: Oracle, w: World, q: ExecReq) {
    var resp := Handlers.Step(site, oracle, w, Exec(q)).1;
    resp.exec.Ok? && |resp.exec.value.stdout| + |resp.exec.value.stderr| > site.cfg.maxOutputBytes
  }

  /** A command that ends at once, after one byte on each stream. */
  function OneByteEach(): Luck {
    Luck(p => true, p => None, p => p, None, None, WriteLuck(n => 0, None, None), false, true, Ok([]),
         Spawned(Timeline(k => Exited(None), k => 0), [Bytes([1])], [Bytes([1])], 0))
  }

  lemma CombinedCapBreaks()
    ensures exists site, oracle, w, q :: OverCombined(site, oracle, w, q)
  {
    var site := Site(DEFAULTS.(maxOutputBytes := 1), c => true);
    var oracle: Oracle := n => OneByteEach();
    var w, q := World(map[], [], 0), ExecReq("", 0, 1);
    var x := oracle(w.turn).exec;
    assert Decisive(x.child, EffectiveTimeoutMs(site.cfg, q.timeoutMs), 0);
    assert x.stdout[1..] == [] && x.stderr[1..] == [] && [1] + [] == [1];
    assert Output(x.stdout) == [1] && Output(x.stderr) == [1];
    assert OverCombined(site, oracle, w, q);
  }

  predicate LimitsFit(cfg: Config) {
    cfg.maxReadBytes <= 0x1_0000_0000 - 33 && cfg.maxOutputBytes <= 0x8000_0000 - 18
  }

  /** Under such limits the length header of every successful read or command answer is exact, and
      the client decodes exactly what was answered. */
  lemma LargeAnswersFit(site: Site, oracle: Oracle, w: World, r: Request, t: seq<byte>)
    requires Sane(w.files) && LimitsFit(site.cfg)
    ensures var resp := Handlers.Step(site, oracle, w, r).1;
            (r.ReadFile? && resp.readFile.Ok?) || (r.Exec? && resp.exec.Ok?) ==>
              ResponseFits(resp) && DecodeResponse(EncodeResponse(resp) + t) == Decoded(resp, |EncodeResponse(resp)|)
  {
    var resp := Handlers.Step(site, oracle, w, r).1;
    if r.ReadFile? && resp.readFile.Ok? {
      ReadFrameBound(site, oracle, w, r.readFile);
      ResponseRoundTrip(resp, t);
    } else if r.Exec? && resp.exec.Ok? {
      ExecFrameBound(site, oracle, w, r.exec);
      ResponseRoundTrip(resp, t);
    }
  }

  /** The limits are tight: one byte more and the header no longer tells the length. */
  lemma ReadFitsIff(v: ReadFileResp)
    ensures ResponseFits(ReadFileResult(Ok(v))) <==> |v.data| <= 0x1_0000_0000 - 33
  {
    ReadFrameLength(v);
  }

  lemma ExecFitsIff(v: ExecResp)
    ensures ResponseFits(ExecResult(Ok(v))) <==>
            |v.stdout| + |v.stderr| + OptionLength(v.exitCode) <= 0x1_0000_0000 - 31
  {
    ExecFrameLength(v);
  }

  lemma DefaultLimitsFit()
    ensures LimitsFit(DEFAULTS)
  {
  }

  // ---- Polls ----

  /** Whatever the policy files and the request say, a daemon that loaded its configuration polls
      a child at most 24001 times. */
  lemma LoadedPollBound(user: Option<Config>, system: Option<Config>, requested: u32, c: Child)
    ensures DecidingPoll(c, EffectiveTimeoutMs(Loaded(user, system), requested), 0) + 1 <= 24_001
  {
    LoadedTimeoutIsCapped(user, system, requested);
    PollsAreBounded(c, EffectiveTimeoutMs(Loaded(user, system), requested));
  }
}
