/** The audit log on disk, one file per UTC day, and the command that reads it back.

    Lines are kept as the entries they serialise; reading a line back gives its entry. */
module AuditLog {
  import opened Base
  import opened Sorting
  import opened Calendar
  import Audit

  const NS_PER_DAY: nat := 86_400_000_000_000

  /** Nanoseconds since the epoch, before the year 10000. */
  type Time = t: nat | DateOf(t / NS_PER_DAY).year <= 9999 witness 0

  datatype Entry = Entry(ts: Time, mode: string, event: Audit.Event)

  function DayOf(e: Entry): Day {
    e.ts / NS_PER_DAY
  }

  type Files = map<string, seq<Entry>>

  // ---- Selections ----

  function OfDay(es: seq<Entry>, day: nat): seq<Entry> {
    if es == [] then []
    else if DayOf(es[0]) == day then [es[0]] + OfDay(es[1..], day)
    else OfDay(es[1..], day)
  }

  function Since(es: seq<Entry>, since: nat): seq<Entry> {
    if es == [] then []
    else if es[0].ts < since then Since(es[1..], since)
    else [es[0]] + Since(es[1..], since)
  }

  function Last<T>(s: seq<T>, n: nat): seq<T> {
    if |s| <= n then s else s[|s| - n..]
  }

  ghost predicate Rising(at: seq<nat>) {
    forall i, j | 0 <= i < j < |at| :: at[i] < at[j]
  }

  ghost predicate StandsAt(es: seq<Entry>, picked: seq<Entry>, at: seq<nat>) {
    |at| == |picked| && forall i | 0 <= i < |at| :: at[i] < |es| && es[at[i]] == picked[i]
  }

  ghost predicate Keeps(es: seq<Entry>, keep: Entry -> bool, at: seq<nat>) {
    forall k: nat | k < |es| :: keep(es[k]) <==> k in at
  }

  /** `picked` holds exactly the entries of `es` to keep, each as often as `es` does and in its order:
      it is what stands at the rising places `at`. */
  ghost predicate Selects(es: seq<Entry>, picked: seq<Entry>, keep: Entry -> bool) {
    exists at ::
      Rising(at) && StandsAt(es, picked, at) && Keeps(es, keep, at)
  }

  function Shifted(at: seq<nat>): (r: seq<nat>)
    ensures |r| == |at| && forall i | 0 <= i < |at| :: r[i] == at[i] + 1
  {
    seq(|at|, i requires 0 <= i < |at| => at[i] + 1)
  }

  lemma ShiftedKeeps(es: seq<Entry>, keep: Entry -> bool, at: seq<nat>)
    requires es != [] && Keeps(es[1..], keep, at)
    ensures Keeps(es, keep, if keep(es[0]) then [0] + Shifted(at) else Shifted(at))
  {
    var all := if keep(es[0]) then [0] + Shifted(at) else Shifted(at);
    assert 0 in all <==> keep(es[0]);
    forall k: nat | 0 < k < |es| ensures keep(es[k]) <==> k in all {
      assert es[1..][k - 1] == es[k];
      assert k in all <==> k in Shifted(at);
      ShiftedHas(at, k - 1);
    }
  }

  lemma ShiftedHas(at: seq<nat>, k: nat)
    ensures k + 1 in Shifted(at) <==> k in at
  {
    if k in at {
      var i :| 0 <= i < |at| && at[i] == k;
      assert Shifted(at)[i] == k + 1;
    }
  }

  lemma ShiftedRises(at: seq<nat>)
    requires Rising(at)
    ensures Rising(Shifted(at)) && Rising([0] + Shifted(at))
  {
    var all := [0] + Shifted(at);
    forall i, j | 0 <= i < j < |all| ensures all[i] < all[j] {
      assert all[j] == at[j - 1] + 1;
      assert i > 0 ==> all[i] == at[i - 1] + 1;
    }
  }

  lemma ShiftedStands(es: seq<Entry>, picked: seq<Entry>, at: seq<nat>)
    requires es != [] && StandsAt(es[1..], picked, at)
    ensures StandsAt(es, picked, Shifted(at)) && StandsAt(es, [es[0]] + picked, [0] + Shifted(at))
  {
    forall i | 0 <= i < |at| ensures Shifted(at)[i] < |es| && es[Shifted(at)[i]] == picked[i] {
      assert es[1..][at[i]] == es[at[i] + 1];
    }
  }

  lemma SelectsOnward(es: seq<Entry>, picked: seq<Entry>, keep: Entry -> bool)
    requires es != [] && Selects(es[1..], picked, keep)
    ensures Selects(es, if keep(es[0]) then [es[0]] + picked else picked, keep)
  {
    var at :| Rising(at) && StandsAt(es[1..], picked, at) && Keeps(es[1..], keep, at);
    ShiftedRises(at);
    ShiftedStands(es, picked, at);
    ShiftedKeeps(es, keep, at);
  }

  /** The entries from `since` on, that very moment included. */
  lemma {:induction false} SinceSelects(es: seq<Entry>, since: nat)
    ensures Selects(es, Since(es, since), (e: Entry) => since <= e.ts)
  {
    if es == [] {
      assert Rising([]) && StandsAt(es, [], []) && Keeps(es, (e: Entry) => since <= e.ts, []);
    } else {
      SinceSelects(es[1..], since);
      SelectsOnward(es, Since(es[1..], since), (e: Entry) => since <= e.ts);
    }
  }

  /** The entries of the 24 hours that begin `day` days after the epoch. */
  lemma {:induction false} OfDaySelects(es: seq<Entry>, day: nat)
    ensures Selects(es, OfDay(es, day),
                    (e: Entry) => day * 86_400_000_000_000 <= e.ts < (day + 1) * 86_400_000_000_000)
  {
    var keep := (e: Entry) => day * 86_400_000_000_000 <= e.ts < (day + 1) * 86_400_000_000_000;
    if es == [] {
      assert Rising([]) && StandsAt(es, [], []) && Keeps(es, keep, []);
    } else {
      OfDaySelects(es[1..], day);
      assert DayOf(es[0]) == day <==> keep(es[0]);
      SelectsOnward(es, OfDay(es[1..], day), keep);
    }
  }

  lemma {:induction false} OfDayConcat(a: seq<Entry>, b: seq<Entry>, day: nat)
    ensures OfDay(a + b, day) == OfDay(a, day) + OfDay(b, day)
  {
    if a == [] {
      assert a + b == b;
    } else {
      assert (a + b)[1..] == a[1..] + b;
      OfDayConcat(a[1..], b, day);
    }
  }

  lemma {:induction false} SinceConcat(a: seq<Entry>, b: seq<Entry>, since: nat)
    ensures Since(a + b, since) == Since(a, since) + Since(b, since)
  {
    if a == [] {
      assert a + b == b;
    } else {
      assert (a + b)[1..] == a[1..] + b;
      SinceConcat(a[1..], b, since);
    }
  }

  // ---- The stable sort by day ----

  ghost predicate InDayOrder(es: seq<Entry>) {
    forall i, j | 0 <= i < j < |es| :: DayOf(es[i]) <= DayOf(es[j])
  }

  /** `es` is `flat` stably sorted by day: in day order, and each day's entries as in `flat`. */
  ghost predicate IsDaySort(flat: seq<Entry>, es: seq<Entry>) {
    InDayOrder(es) && forall day: nat :: OfDay(es, day) == OfDay(flat, day)
  }

  lemma {:induction false} OfDayHead(es: seq<Entry>, day: nat)
    requires OfDay(es, day) != []
    ensures exists i :: 0 <= i < |es| && DayOf(es[i]) == day
  {
    if DayOf(es[0]) != day {
      OfDayHead(es[1..], day);
      var i :| 0 <= i < |es[1..]| && DayOf(es[1..][i]) == day;
      assert DayOf(es[i + 1]) == day;
    }
  }

  lemma HeadDay(a: seq<Entry>, b: seq<Entry>)
    requires a != [] && InDayOrder(b) && OfDay(a, DayOf(a[0])) == OfDay(b, DayOf(a[0]))
    ensures b != [] && DayOf(b[0]) <= DayOf(a[0])
  {
    OfDayHead(b, DayOf(a[0]));
  }

  /** There is only one such sequence. */
  lemma {:induction false} DaySortIsUnique(a: seq<Entry>, b: seq<Entry>)
    requires InDayOrder(a) && InDayOrder(b)
    requires forall day: nat :: OfDay(a, day) == OfDay(b, day)
    ensures a == b
    decreases |a|
  {
    if a == [] {
      if b != [] {
        HeadDay(b, a);
      }
    } else {
      HeadDay(a, b);
      HeadDay(b, a);
      var day := DayOf(a[0]);
      assert OfDay(a, day)[0] == a[0] && OfDay(b, day)[0] == b[0];
      forall d: nat ensures OfDay(a[1..], d) == OfDay(b[1..], d) {
        assert OfDay(a, d) == OfDay(b, d);
        if d == day {
          assert OfDay(a, d)[1..] == OfDay(a[1..], d) && OfDay(b, d)[1..] == OfDay(b[1..], d);
        }
      }
      DaySortIsUnique(a[1..], b[1..]);
      assert a == [a[0]] + a[1..] && b == [b[0]] + b[1..];
    }
  }

  // ---- Daily files ----

  /** The daily files hold exactly the log `flat`, split by day. */
  ghost predicate Partitions(flat: seq<Entry>, files: Files) {
    && (forall name | name in files :: exists day: Day :: name == FileName(day) && files[name] != [])
    && (forall day: Day :: FileName(day) in files <==> OfDay(flat, day) != [])
    && (forall day: Day | FileName(day) in files :: files[FileName(day)] == OfDay(flat, day))
  }

  function Appended(files: Files, e: Entry): Files {
    var name := FileName(DayOf(e));
    files[name := (if name in files then files[name] else []) + [e]]
  }

  lemma SameName(a: Day, b: Day)
    requires FileName(a) == FileName(b)
    ensures a == b
  {
    if a < b {
      NamesAdvance(a, b);
    } else if b < a {
      NamesAdvance(b, a);
    }
  }

  lemma AppendPartitions(flat: seq<Entry>, files: Files, e: Entry)
    requires Partitions(flat, files)
    ensures Partitions(flat + [e], Appended(files, e))
  {
    var today := DayOf(e);
    var after := Appended(files, e);
    forall day: Day
      ensures FileName(day) in after <==> OfDay(flat + [e], day) != []
      ensures FileName(day) in after ==> after[FileName(day)] == OfDay(flat + [e], day)
    {
      OfDayConcat(flat, [e], day);
      if FileName(day) == FileName(today) {
        SameName(day, today);
      }
    }
    forall name | name in after ensures exists day: Day :: name == FileName(day) && after[name] != [] {
      if name != FileName(today) {
        assert name in files;
      }
    }
  }

  /** Reading the files one after the other. */
  function Gathered(files: Files, names: seq<string>): seq<Entry> {
    if names == [] then []
    else
      var last := names[|names| - 1];
      Gathered(files, names[..|names| - 1]) + (if last in files then files[last] else [])
  }

  function Identity(name: string): string {
    name
  }

  /** `names` lists some of the files in name order. */
  ghost predicate InOrder(files: Files, names: seq<string>) {
    && Sorted(Identity, names) && DistinctKeys(Identity, names)
    && forall i | 0 <= i < |names| :: names[i] in files
  }

  lemma {:induction false} GatheredOfDay(flat: seq<Entry>, files: Files, names: seq<string>, day: Day)
    requires Partitions(flat, files) && InOrder(files, names)
    ensures OfDay(Gathered(files, names), day) == if FileName(day) in names then OfDay(flat, day) else []
  {
    if names != [] {
      var rest, name := names[..|names| - 1], names[|names| - 1];
      GatheredOfDay(flat, files, rest, day);
      OfDayConcat(Gathered(files, rest), files[name], day);
      var d: Day :| name == FileName(d) && files[name] != [];
      OfDayTwice(flat, d, day);
      if FileName(day) == name {
        SameName(d, day);
        assert forall i | 0 <= i < |rest| :: Identity(names[i]) != Identity(name);
      } else {
        assert FileName(day) in names <==> FileName(day) in rest;
      }
    }
  }

  lemma {:induction false} OfDayTwice(es: seq<Entry>, d: nat, day: nat)
    ensures OfDay(OfDay(es, d), day) == if d == day then OfDay(es, d) else []
    ensures forall e | e in OfDay(es, d) :: DayOf(e) == d
  {
    if es != [] {
      OfDayTwice(es[1..], d, day);
      if DayOf(es[0]) == d {
        assert OfDay(es, d)[1..] == OfDay(es[1..], d);
      }
    }
  }

  /** A day whose file comes before the file of `d` is not later than `d`. */
  lemma NamesReflectDays(a: Day, d: Day)
    requires Leq(FileName(a), FileName(d))
    ensures a <= d
  {
    if d < a {
      NamesAdvance(d, a);
      LeqAntisymmetric(FileName(a), FileName(d));
    }
  }

  lemma OrderedConcat(a: seq<Entry>, b: seq<Entry>, d: nat)
    requires InDayOrder(a) && (forall e | e in a :: DayOf(e) <= d) && (forall e | e in b :: DayOf(e) == d)
    ensures InDayOrder(a + b)
  {
    forall i, j | 0 <= i < j < |a + b| ensures DayOf((a + b)[i]) <= DayOf((a + b)[j]) {
      assert i < |a| ==> (a + b)[i] in a;
      assert i >= |a| ==> (a + b)[i] in b;
      assert j >= |a| ==> (a + b)[j] in b;
    }
  }

  lemma NoLaterDay(names: seq<string>, d: Day, e: Entry)
    requires names != [] && Sorted(Identity, names) && names[|names| - 1] == FileName(d)
    requires FileName(DayOf(e)) in names[..|names| - 1]
    ensures DayOf(e) <= d
  {
    var i :| 0 <= i < |names| - 1 && names[i] == FileName(DayOf(e));
    assert Leq(Identity(names[i]), Identity(names[|names| - 1]));
    NamesReflectDays(DayOf(e), d);
  }

  /** A file holds the entries of one day. */
  lemma DayOfFile(flat: seq<Entry>, files: Files, name: string) returns (d: Day)
    requires Partitions(flat, files) && name in files
    ensures name == FileName(d) && forall e | e in files[name] :: DayOf(e) == d
  {
    d :| name == FileName(d) && files[name] != [];
    OfDayTwice(flat, d, d);
  }

  lemma {:induction false} GatheredNames(flat: seq<Entry>, files: Files, names: seq<string>)
    requires Partitions(flat, files) && InOrder(files, names)
    ensures forall e | e in Gathered(files, names) :: FileName(DayOf(e)) in names
  {
    if names != [] {
      GatheredNames(flat, files, names[..|names| - 1]);
      var d := DayOfFile(flat, files, names[|names| - 1]);
    }
  }

  lemma {:induction false} GatheredDays(flat: seq<Entry>, files: Files, names: seq<string>)
    requires Partitions(flat, files) && InOrder(files, names)
    ensures InDayOrder(Gathered(files, names))
  {
    if names != [] {
      var rest, name := names[..|names| - 1], names[|names| - 1];
      GatheredDays(flat, files, rest);
      GatheredNames(flat, files, rest);
      var d := DayOfFile(flat, files, name);
      forall e | e in Gathered(files, rest) ensures DayOf(e) <= d {
        NoLaterDay(names, d, e);
      }
      OrderedConcat(Gathered(files, rest), files[name], d);
    }
  }

  /** All files, read in name order, give the log stably sorted by day. */
  lemma FilesGiveDaySort(flat: seq<Entry>, files: Files, names: seq<string>)
    requires Partitions(flat, files) && InOrder(files, names)
    requires forall name | name in files :: name in names
    ensures IsDaySort(flat, Gathered(files, names))
  {
    GatheredDays(flat, files, names);
    forall day: nat ensures OfDay(Gathered(files, names), day) == OfDay(flat, day) {
      if DateOf(day).year <= 9999 {
        GatheredOfDay(flat, files, names, day);
      } else {
        NoSuchDay(flat, day);
        NoSuchDay(Gathered(files, names), day);
      }
    }
  }

  lemma {:induction false} NoSuchDay(es: seq<Entry>, day: nat)
    requires DateOf(day).year > 9999
    ensures OfDay(es, day) == []
  {
    if es != [] {
      NoSuchDay(es[1..], day);
    }
  }

  /** With a clock that never steps back a day the log is its own sort. */
  lemma ChronologicalIsSorted(flat: seq<Entry>, es: seq<Entry>)
    requires InDayOrder(flat) && IsDaySort(flat, es)
    ensures es == flat
  {
    DaySortIsUnique(es, flat);
  }

  // ---- The log directory ----

  method ReadLines(lines: seq<Entry>, since: nat) returns (entries: seq<Entry>)
    ensures entries == Since(lines, since)
  {
    entries := [];
    for j := 0 to |lines|
      invariant entries == Since(lines[..j], since)
    {
      SinceConcat(lines[..j], [lines[j]], since);
      assert lines[..j] + [lines[j]] == lines[..j + 1];
      if lines[j].ts < since { continue; }
      entries := entries + [lines[j]];
    }
    assert lines[..|lines|] == lines;
  }

  /** The audit directory; `flat` is every entry ever written, in order. */
  class LogDir {
    var files: Files
    ghost var flat: seq<Entry>

    ghost predicate Valid()
      reads this
    {
      Partitions(flat, files)
    }

    constructor ()
      ensures Valid() && flat == []
    {
      files, flat := map[], [];
    }

    method Write(mode: string, event: Audit.Event, now: Time)
      requires Valid()
      modifies this
      ensures Valid() && flat == old(flat) + [Entry(now, mode, event)]
      ensures files == Appended(old(files), Entry(now, mode, event))
    {
      var e := Entry(now, mode, event);
      var name := FileName(DayOf(e));
      ghost var was := files;
      files := files[name := (if name in files then files[name] else []) + [e]];
      assert files == Appended(was, e);
      AppendPartitions(flat, was, e);
      flat := flat + [e];
    }

    method Gather(names: seq<string>, since: nat) returns (entries: seq<Entry>)
      requires forall i | 0 <= i < |names| :: names[i] in files
      ensures entries == Since(Gathered(files, names), since)
    {
      entries := [];
      for i := 0 to |names|
        invariant entries == Since(Gathered(files, names[..i]), since)
      {
        assert names[..i + 1][..i] == names[..i];
        SinceConcat(Gathered(files, names[..i]), files[names[i]], since);
        var more := ReadLines(files[names[i]], since);
        entries := entries + more;
      }
      assert names[..|names|] == names;
    }

    /** Shows the last `limit` entries from `since` on. `listing` is the directory enumeration, in
        whatever order the system gives it. */
    method ShowAudit(listing: seq<string>, since: nat, limit: nat) returns (shown: seq<Entry>, total: nat)
      requires Valid()
      requires DistinctKeys(Identity, listing) && forall name :: name in listing <==> name in files
      ensures IsAuditOf(flat, since, limit, shown, total)
    {
      var names := Sort(Identity, listing);
      SortedListing(files, listing);
      var entries := Gather(names, since);
      total := |entries|;
      shown := Last(entries, limit);
      FilesGiveDaySort(flat, files, names);
      AuditOf(flat, Gathered(files, names), since, limit);
    }
  }

  /** `shown` is the end of the `total` entries of `es` from `since` on: all of them, or the last
      `limit`. */
  ghost predicate Shows(es: seq<Entry>, kept: seq<Entry>, since: nat, limit: nat, shown: seq<Entry>, total: nat) {
    && Selects(es, kept, (e: Entry) => since <= e.ts)
    && total == |kept| && |shown| == Min(limit, total)
    && kept[total - |shown|..] == shown
  }

  /** What the command shows of the log `flat`: the last `limit` of the entries from `since` on in
      the stable day order, which is the order of writing if no day was stepped back over. */
  ghost predicate IsAuditOf(flat: seq<Entry>, since: nat, limit: nat, shown: seq<Entry>, total: nat) {
    && (exists es, kept ::
          IsDaySort(flat, es) && Shows(es, kept, since, limit, shown, total))
    && (InDayOrder(flat) ==>
          exists kept ::
            Shows(flat, kept, since, limit, shown, total))
  }

  lemma AuditOf(flat: seq<Entry>, es: seq<Entry>, since: nat, limit: nat)
    requires IsDaySort(flat, es)
    ensures IsAuditOf(flat, since, limit, Last(Since(es, since), limit), |Since(es, since)|)
  {
    var kept := Since(es, since);
    SinceSelects(es, since);
    assert Shows(es, kept, since, limit, Last(kept, limit), |kept|);
    if InDayOrder(flat) {
      ChronologicalIsSorted(flat, es);
    }
  }

  lemma SortedListing(files: Files, listing: seq<string>)
    requires DistinctKeys(Identity, listing) && forall name :: name in listing <==> name in files
    ensures InOrder(files, Sort(Identity, listing))
    ensures forall name :: name in Sort(Identity, listing) <==> name in files
  {
    SortSorts(Identity, listing);
    var names := Sort(Identity, listing);
    PermutationKeepsDistinct(Identity, listing, names);
    forall name ensures name in names <==> name in files {
      assert name in multiset(names) <==> name in multiset(listing);
    }
  }
}
