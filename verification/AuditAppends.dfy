/** Appending to one day's log file as the system sees it: a line and its newline are two appends,
    and other tasks, or the end of the process, may come in between.

    Two entries on one line do not parse, and neither does an empty line. */
module AuditAppends {
  import opened Base
  import AuditLog

  type Entry = AuditLog.Entry

  datatype Append = Line(entry: Entry) | Newline

  // ---- Reading back ----

  function Whole(line: seq<Entry>): seq<Entry> {
    if |line| == 1 then line else []
  }

  /** The entries parsed from the rest of a file, after `line` on the current line. */
  function ReadFrom(file: seq<Append>, line: seq<Entry>): seq<Entry> {
    if file == [] then Whole(line)
    else
      match file[0]
      case Line(e) => ReadFrom(file[1..], line + [e])
      case Newline => Whole(line) + ReadFrom(file[1..], [])
  }

  function ReadBack(file: seq<Append>): seq<Entry> {
    ReadFrom(file, [])
  }

  function Entries(file: seq<Append>): seq<Entry> {
    if file == [] then []
    else (if file[0].Line? then [file[0].entry] else []) + Entries(file[1..])
  }

  predicate LineEnds(file: seq<Append>) {
    file == [] || file[0].Newline?
  }

  /** The entries with no other line directly before or after them; `joined` says whether the first
      append continues a line. */
  function Alone(file: seq<Append>, joined: bool): seq<Entry> {
    if file == [] then []
    else
      match file[0]
      case Line(e) => (if !joined && LineEnds(file[1..]) then [e] else []) + Alone(file[1..], true)
      case Newline => Alone(file[1..], false)
  }

  lemma {:induction false} ReadFromAlone(file: seq<Append>, line: seq<Entry>)
    ensures ReadFrom(file, line) == (if LineEnds(file) then Whole(line) else []) + Alone(file, line != [])
  {
    if file != [] {
      match file[0]
      case Line(e) =>
        ReadFromAlone(file[1..], line + [e]);
        assert line == [] ==> line + [e] == [e];
      case Newline => ReadFromAlone(file[1..], []);
    }
  }

  /** The audit command reads back exactly the entries that stand alone on their line. */
  lemma ReadBackIsAlone(file: seq<Append>)
    ensures ReadBack(file) == Alone(file, false)
  {
    ReadFromAlone(file, []);
  }

  /** No line follows a line. */
  predicate Unglued(file: seq<Append>) {
    forall i | 0 <= i < |file| - 1 :: file[i].Line? ==> file[i + 1].Newline?
  }

  lemma {:induction false} AloneIff(file: seq<Append>, joined: bool)
    ensures |Alone(file, joined)| <= |Entries(file)|
    ensures Alone(file, joined) == Entries(file) <==> Unglued(file) && (joined ==> LineEnds(file))
  {
    if file != [] {
      var rest := file[1..];
      AloneIff(rest, file[0].Line?);
      assert Unglued(file) <==> Unglued(rest) && (file[0].Line? ==> LineEnds(rest)) by {
        assert forall i | 0 <= i < |rest| :: rest[i] == file[i + 1];
        if Unglued(file) {
          assert file[0].Line? && rest != [] ==> file[1].Newline?;
        }
      }
      if file[0].Line? && !(!joined && LineEnds(rest)) {
        assert |Alone(file, joined)| < |Entries(file)|;
      } else if file[0].Line? {
        assert Alone(file, joined)[1..] == Alone(rest, true) && Entries(file)[1..] == Entries(rest);
      }
    }
  }

  /** Everything written is read back, in order, exactly if no line was appended right after a
      line. */
  lemma NothingIsLostIff(file: seq<Append>)
    ensures ReadBack(file) == Entries(file) <==> Unglued(file)
  {
    ReadBackIsAlone(file);
    AloneIff(file, false);
  }

  // ---- Tasks ----

  datatype Action = Begin(task: nat, entry: Entry) | End(task: nat) | Stop

  /** A log file and the tasks that have written a line but not yet its newline. */
  datatype Log = Log(file: seq<Append>, pending: set<nat>)

  /** `Stop` is the end of the process: what is pending stays unfinished. */
  function Step(log: Log, a: Action): Option<Log> {
    match a
    case Begin(t, e) => if t in log.pending then None else Some(Log(log.file + [Line(e)], log.pending + {t}))
    case End(t) => if t in log.pending then Some(Log(log.file + [Newline], log.pending - {t})) else None
    case Stop => Some(log.(pending := {}))
  }

  function Run(log: Log, actions: seq<Action>): Option<Log>
    decreases |actions|
  {
    if actions == [] then Some(log)
    else
      match Step(log, actions[0])
      case None => None
      case Some(next) => Run(next, actions[1..])
  }

  const EMPTY := Log([], {})

  /** Every line is begun when the file does not end in one. */
  predicate Spaced(log: Log, actions: seq<Action>)
    decreases |actions|
  {
    if actions == [] then true
    else
      && (actions[0].Begin? && log.file != [] ==> log.file[|log.file| - 1].Newline?)
      && match Step(log, actions[0])
         case None => true
         case Some(next) => Spaced(next, actions[1..])
  }

  lemma UngluedAppend(file: seq<Append>, a: Append)
    ensures Unglued(file + [a]) <==> Unglued(file) && (file != [] && file[|file| - 1].Line? ==> a.Newline?)
  {
    var all := file + [a];
    if Unglued(all) {
      forall i | 0 <= i < |file| - 1 ensures file[i].Line? ==> file[i + 1].Newline? {
        assert all[i] == file[i] && all[i + 1] == file[i + 1];
      }
      if file != [] {
        assert all[|file| - 1] == file[|file| - 1] && all[|file|] == a;
      }
    }
  }

  lemma {:induction false} RunUnglued(log: Log, actions: seq<Action>)
    requires Run(log, actions).Some?
    ensures Unglued(Run(log, actions).value.file) <==> Unglued(log.file) && Spaced(log, actions)
    decreases |actions|
  {
    if actions != [] {
      var next := Step(log, actions[0]).value;
      RunUnglued(next, actions[1..]);
      match actions[0]
      case Begin(_, e) => UngluedAppend(log.file, Line(e));
      case End(_) => UngluedAppend(log.file, Newline);
      case Stop =>
    }
  }

  /** For every interleaving of any number of tasks, stopped and restarted at any point: the audit
      command sees every entry, in order, exactly if each line was begun with the file not ending
      in an unfinished one. */
  lemma AppendsSurviveIff(actions: seq<Action>)
    requires Run(EMPTY, actions).Some?
    ensures var file := Run(EMPTY, actions).value.file;
            ReadBack(file) == Entries(file) <==> Spaced(EMPTY, actions)
  {
    RunUnglued(EMPTY, actions);
    NothingIsLostIff(Run(EMPTY, actions).value.file);
  }

  lemma GluedAreLost(a: Entry, b: Entry, file: seq<Append>)
    requires file == [Line(a), Line(b), Newline, Newline]
    ensures Entries(file) == [a, b] && ReadBack(file) == []
  {
    assert file[1..] == [Line(b), Newline, Newline] && file[1..][1..] == [Newline, Newline];
    assert Entries([Newline, Newline]) == [] by {
      assert [Newline, Newline][1..] == [Newline];
    }
    ReadBackIsAlone(file);
    assert Alone([Newline, Newline], true) == [] by {
      assert [Newline, Newline][1..] == [Newline];
    }
  }

  lemma BothAppend(a: Entry, b: Entry)
    ensures Run(EMPTY, [Begin(0, a), Begin(1, b), End(0), End(1)]) == Some(Log([Line(a), Line(b), Newline, Newline], {}))
  {
    var s1, s2 := Log([Line(a)], {0}), Log([Line(a), Line(b)], {0, 1});
    var s3, s4 := Log([Line(a), Line(b), Newline], {1}), Log([Line(a), Line(b), Newline, Newline], {});
    assert EMPTY.file + [Line(a)] == s1.file && s1.file + [Line(b)] == s2.file;
    assert s2.file + [Newline] == s3.file && s3.file + [Newline] == s4.file;
    assert EMPTY.pending + {0} == s1.pending && s1.pending + {1} == s2.pending;
    assert s2.pending - {0} == s3.pending && s3.pending - {1} == s4.pending;
    RunStep(s3, s4, End(1), []);
    RunStep(s2, s3, End(0), [End(1)]);
    RunStep(s1, s2, Begin(1, b), [End(0), End(1)]);
    RunStep(EMPTY, s1, Begin(0, a), [Begin(1, b), End(0), End(1)]);
    assert [Begin(0, a)] + [Begin(1, b), End(0), End(1)] == [Begin(0, a), Begin(1, b), End(0), End(1)];
    assert [Begin(1, b)] + [End(0), End(1)] == [Begin(1, b), End(0), End(1)] && [End(1)] + [] == [End(1)];
    assert [End(0)] + [End(1)] == [End(0), End(1)];
  }

  /** Two tasks of the tunnel can lose both their events. */
  lemma TwoTasksLoseBoth(a: Entry, b: Entry)
    ensures exists actions, log ::
              Run(EMPTY, actions) == Some(log) && Entries(log.file) == [a, b] && ReadBack(log.file) == []
  {
    BothAppend(a, b);
    GluedAreLost(a, b, [Line(a), Line(b), Newline, Newline]);
  }

  lemma RunStep(log: Log, next: Log, a: Action, rest: seq<Action>)
    requires Step(log, a) == Some(next)
    ensures Run(log, [a] + rest) == Run(next, rest)
  {
    assert ([a] + rest)[1..] == rest;
  }

  // ---- The serial loop ----

  /** Each request's line and newline, one request after the other. */
  function Serial(es: seq<Entry>): seq<Append> {
    if es == [] then [] else [Line(es[0]), Newline] + Serial(es[1..])
  }

  /** A file written by the serial loop reads back as the entries written. */
  lemma {:induction false} SerialReadsBack(es: seq<Entry>)
    ensures ReadBack(Serial(es)) == es
  {
    if es != [] {
      var file := Serial(es);
      SerialReadsBack(es[1..]);
      assert file[1..] == [Newline] + Serial(es[1..]) && file[1..][1..] == Serial(es[1..]);
      assert ReadFrom(file, []) == ReadFrom(file[1..], [es[0]]);
      assert [es[0]] + es[1..] == es;
    }
  }
}
