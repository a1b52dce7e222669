/** Recovering a cloud base URL from a pasted URL: trailing slashes and up to six known paths are
    stripped off its end. */
module CloudUrl {
  import opened Base
  import opened Text

  const SUFFIXES: seq<string> := [
    "/v1/mcp", "/v1/agent/enroll", "/v1/agent", "/v1", "/account/agents", "/account/signup",
    "/account/login", "/account", "/admin/tenants", "/admin", "/docs"]

  const PASSES: nat := 6

  function TrimSlashes(s: string): string {
    if s != [] && s[|s| - 1] == '/' then TrimSlashes(s[..|s| - 1]) else s
  }

  predicate EndsWith(s: string, f: string) {
    |f| <= |s| && s[|s| - |f|..] == f
  }

  /** The first listed suffix that `s` ends with. */
  function Match(list: seq<string>, s: string): (r: Option<string>)
    ensures r.Some? ==> r.value in list && EndsWith(s, r.value)
    ensures r.None? ==> forall f | f in list :: !EndsWith(s, f)
  {
    if list == [] then None
    else if EndsWith(s, list[0]) then Some(list[0])
    else Match(list[1..], s)
  }

  function Peel(list: seq<string>, s: string): string {
    match Match(list, s)
    case None => s
    case Some(f) => TrimSlashes(s[..|s| - |f|])
  }

  function PeelAll(list: seq<string>, s: string, passes: nat): string
    decreases passes
  {
    if passes == 0 || Match(list, s).None? then s else PeelAll(list, Peel(list, s), passes - 1)
  }

  function Normalise(list: seq<string>, input: string): string {
    PeelAll(list, TrimSlashes(Trim(input)), PASSES)
  }

  lemma {:induction false} TrimSlashesShortens(s: string)
    ensures TrimSlashes(s) <= s
    ensures TrimSlashes(s) != [] ==> TrimSlashes(s)[|TrimSlashes(s)| - 1] != '/'
    ensures forall i | |TrimSlashes(s)| <= i < |s| :: s[i] == '/'
  {
    if s != [] && s[|s| - 1] == '/' {
      TrimSlashesShortens(s[..|s| - 1]);
    }
  }

  lemma PeelShortens(list: seq<string>, s: string)
    requires forall f | f in list :: f != []
    ensures if Match(list, s).None? then Peel(list, s) == s else |Peel(list, s)| < |s|
  {
    if Match(list, s).Some? {
      TrimSlashesShortens(s[..|s| - |Match(list, s).value|]);
    }
  }

  /** One pass over the suffixes. */
  method StripOne(list: seq<string>, before: string) returns (s: string)
    ensures s == Peel(list, before)
  {
    s := before;
    var i := 0;
    while i < |list|
      invariant 0 <= i <= |list|
      invariant Match(list[i..], s) == Match(list, s)
    {
      assert list[i..][1..] == list[i + 1..];
      if EndsWith(s, list[i]) {
        s := s[..|s| - |list[i]|];
        s := TrimSlashes(s);
        return;
      }
      i := i + 1;
    }
  }

  method Strip(list: seq<string>, input: string) returns (s: string)
    requires forall f | f in list :: f != []
    ensures s == Normalise(list, input)
  {
    s := TrimSlashes(Trim(input));
    var pass := 0;
    while pass < PASSES
      invariant pass <= PASSES
      invariant PeelAll(list, s, PASSES - pass) == Normalise(list, input)
    {
      var before := |s|;
      PeelShortens(list, s);
      s := StripOne(list, s);
      if |s| == before { break; }
      pass := pass + 1;
    }
  }

  // ---- The list of suffixes ----

  /** Every suffix starts with a slash and ends with neither slash nor whitespace, and none is a
      suffix of another. */
  ghost predicate Apart(list: seq<string>) {
    && (forall f | f in list :: f != [] && f[0] == '/' && f[|f| - 1] != '/' && !IsWhitespace(f[|f| - 1]))
    && (forall f, g | f in list && g in list && f != g :: !EndsWith(f, g))
  }

  lemma SharedTail(f: string, g: string, k: nat)
    requires EndsWith(f, g) && 1 <= k <= |g|
    ensures f[|f| - k] == g[|g| - k]
  {
    assert f[|f| - k] == f[|f| - |g|..][|g| - k];
  }

  /** Tells the suffixes apart by their ends: last three characters, or four where those agree. */
  function EndCode(f: string): (char, char, char, char)
    requires |f| >= 3
  {
    (f[|f| - 1], f[|f| - 2], f[|f| - 3],
     if |f| > 3 && f[|f| - 3] == 'n' && f[|f| - 1] == 's' then f[|f| - 4] else '/')
  }

  lemma EndCodesDiffer(i: nat, j: nat)
    requires i < |SUFFIXES| && j < |SUFFIXES|
    requires EndCode(SUFFIXES[i]) == EndCode(SUFFIXES[j])
    ensures i == j
  {
  }

  lemma SuffixShapes(i: nat)
    requires i < |SUFFIXES|
    ensures var f := SUFFIXES[i];
            |f| >= 3 && f[0] == '/' && f[|f| - 1] != '/' && !IsWhitespace(f[|f| - 1]) && (|f| == 3 ==> f[2] != 's')
  {
  }

  lemma SameEndCode(f: string, g: string)
    requires EndsWith(f, g) && |g| >= 3
    requires (|g| == 3 ==> g[2] != 's')
    ensures EndCode(f) == EndCode(g)
  {
    SharedTail(f, g, 1);
    SharedTail(f, g, 2);
    SharedTail(f, g, 3);
    if |g| > 3 {
      SharedTail(f, g, 4);
    }
  }

  lemma SuffixesAreApart()
    ensures Apart(SUFFIXES)
  {
    forall f | f in SUFFIXES
      ensures f != [] && f[0] == '/' && f[|f| - 1] != '/' && !IsWhitespace(f[|f| - 1])
    {
      var i := Listing(SUFFIXES, f);
      SuffixShapes(i);
    }
    forall f, g | f in SUFFIXES && g in SUFFIXES && f != g ensures !EndsWith(f, g) {
      var i, j := Listing(SUFFIXES, f), Listing(SUFFIXES, g);
      SuffixShapes(j);
      if EndsWith(f, g) {
        SameEndCode(f, g);
        EndCodesDiffer(i, j);
      }
    }
  }

  function Listing(list: seq<string>, f: string): (i: nat)
    requires f in list
    ensures i < |list| && list[i] == f
  {
    if list[0] == f then 0 else 1 + Listing(list[1..], f)
  }

  method NormaliseCloudUrl(input: string) returns (s: string)
    ensures s == Normalise(SUFFIXES, input) && Apart(SUFFIXES)
  {
    SuffixesAreApart();
    s := Strip(SUFFIXES, input);
  }

  lemma ShorterOfTwo(s: string, f: string, g: string)
    requires EndsWith(s, f) && EndsWith(s, g) && |g| <= |f|
    ensures EndsWith(f, g)
  {
    assert f[|f| - |g|..] == s[|s| - |f|..][|f| - |g|..] == s[|s| - |g|..];
  }

  /** So no string ends with two of them. */
  lemma SuffixIsUnique(list: seq<string>, s: string, f: string, g: string)
    requires Apart(list) && f in list && g in list && EndsWith(s, f) && EndsWith(s, g)
    ensures f == g
  {
    if |g| <= |f| {
      ShorterOfTwo(s, f, g);
    } else {
      ShorterOfTwo(s, g, f);
    }
  }

  ghost predicate SameMembers(list: seq<string>, other: seq<string>) {
    forall f :: f in other <==> f in list
  }

  lemma SameMatch(list: seq<string>, other: seq<string>, s: string)
    requires Apart(list) && SameMembers(list, other)
    ensures Match(other, s) == Match(list, s)
  {
    if Match(list, s).Some? && Match(other, s).Some? {
      SuffixIsUnique(list, s, Match(list, s).value, Match(other, s).value);
    }
  }

  /** Both lists find the same suffix on every string. */
  ghost predicate MatchAlike(list: seq<string>, other: seq<string>) {
    forall s :: Match(other, s) == Match(list, s)
  }

  lemma {:induction false} PeelAllIgnoresOrder(list: seq<string>, other: seq<string>, s: string, passes: nat)
    requires MatchAlike(list, other)
    ensures PeelAll(other, s, passes) == PeelAll(list, s, passes)
    decreases passes
  {
    assert Match(other, s) == Match(list, s);
    if passes > 0 && Match(list, s).Some? {
      PeelAllIgnoresOrder(list, other, Peel(list, s), passes - 1);
    }
  }

  /** The order in which the suffixes are listed never matters. */
  lemma OrderIsIrrelevant(list: seq<string>, other: seq<string>, input: string)
    requires Apart(list) && SameMembers(list, other)
    ensures Normalise(other, input) == Normalise(list, input)
  {
    forall s ensures Match(other, s) == Match(list, s) {
      SameMatch(list, other, s);
    }
    PeelAllIgnoresOrder(list, other, TrimSlashes(Trim(input)), PASSES);
  }

  // ---- Pasted URLs ----

  /** A known path as pasted, with the extra slashes in front of it. */
  datatype PastedPath = PastedPath(slashes: nat, suffix: string)

  function Slashes(n: nat): string {
    seq(n, i => '/')
  }

  function Pasted(base: string, parts: seq<PastedPath>): string {
    if parts == [] then base
    else
      var last := parts[|parts| - 1];
      Pasted(base, parts[..|parts| - 1]) + Slashes(last.slashes) + last.suffix
  }

  predicate Listed(list: seq<string>, parts: seq<PastedPath>) {
    forall i | 0 <= i < |parts| :: parts[i].suffix in list
  }

  predicate EndsInSlash(s: string) {
    s != [] && s[|s| - 1] == '/'
  }

  /** What normalisation is meant to end with. */
  predicate Clean(list: seq<string>, s: string) {
    Trimmed(s) && !EndsInSlash(s) && forall f | f in list :: !EndsWith(s, f)
  }

  lemma {:induction false} TrimSlashesOf(s: string, n: nat)
    requires !EndsInSlash(s)
    ensures TrimSlashes(s + Slashes(n)) == s
  {
    if n == 0 {
      assert s + Slashes(n) == s;
    } else {
      assert (s + Slashes(n))[..|s| + n - 1] == s + Slashes(n - 1);
      TrimSlashesOf(s, n - 1);
    }
  }

  lemma PastedEnds(list: seq<string>, base: string, parts: seq<PastedPath>)
    requires Apart(list) && Listed(list, parts) && parts != []
    ensures var s := Pasted(base, parts);
            s != [] && EndsWith(s, parts[|parts| - 1].suffix) && !EndsInSlash(s) && !IsWhitespace(s[|s| - 1])
  {
    var f := parts[|parts| - 1].suffix;
    assert f in list;
    var s := Pasted(base, parts);
    assert s[|s| - |f|..] == f;
    assert s[|s| - 1] == f[|f| - 1];
  }

  /** One pass takes off exactly the last part. */
  lemma PeelPasted(list: seq<string>, base: string, parts: seq<PastedPath>)
    requires Apart(list) && !EndsInSlash(base) && Listed(list, parts) && parts != []
    ensures Match(list, Pasted(base, parts)).Some?
    ensures Peel(list, Pasted(base, parts)) == Pasted(base, parts[..|parts| - 1])
  {
    var last, rest := parts[|parts| - 1], parts[..|parts| - 1];
    PastedEnds(list, base, parts);
    if rest != [] {
      PastedEnds(list, base, rest);
    }
    PeelOne(list, Pasted(base, rest), last);
  }

  lemma PeelOne(list: seq<string>, before: string, last: PastedPath)
    requires Apart(list) && last.suffix in list && !EndsInSlash(before)
    ensures var s := before + Slashes(last.slashes) + last.suffix;
            Match(list, s).Some? && Peel(list, s) == before
  {
    var s := before + Slashes(last.slashes) + last.suffix;
    assert EndsWith(s, last.suffix);
    SuffixIsUnique(list, s, Match(list, s).value, last.suffix);
    assert s[..|s| - |last.suffix|] == before + Slashes(last.slashes);
    TrimSlashesOf(before, last.slashes);
  }

  /** What is left of the parts after so many passes. */
  function LeftAfter(parts: seq<PastedPath>, passes: nat): seq<PastedPath> {
    if |parts| <= passes then [] else parts[..|parts| - passes]
  }

  predicate PeelsTo(list: seq<string>, s: string, t: string) {
    Match(list, s).Some? && Peel(list, s) == t
  }

  /** Each string peels to the one before it, and the first one has nothing to peel. */
  ghost predicate Peelings(list: seq<string>, chain: seq<string>) {
    && chain != [] && Match(list, chain[0]).None?
    && forall k :: 0 < k < |chain| ==> PeelsTo(list, chain[k], chain[k - 1])
  }

  lemma PeelAllStep(list: seq<string>, s: string, t: string, passes: nat, end: string)
    requires passes > 0 && PeelsTo(list, s, t) && PeelAll(list, t, passes - 1) == end
    ensures PeelAll(list, s, passes) == end
  {
  }

  lemma {:induction false} PeelAllOf(list: seq<string>, chain: seq<string>, n: nat, passes: nat)
    requires Peelings(list, chain) && n < |chain|
    ensures PeelAll(list, chain[n], passes) == chain[if n <= passes then 0 else n - passes]
    decreases passes
  {
    if passes > 0 && n > 0 {
      assert PeelsTo(list, chain[n], chain[n - 1]);
      PeelAllOf(list, chain, n - 1, passes - 1);
      PeelAllStep(list, chain[n], chain[n - 1], passes, chain[if n <= passes then 0 else n - passes]);
    }
  }

  lemma PeelsPasted(list: seq<string>, base: string, parts: seq<PastedPath>, k: nat)
    requires Apart(list) && !EndsInSlash(base) && Listed(list, parts) && 0 < k <= |parts|
    ensures PeelsTo(list, Pasted(base, parts[..k]), Pasted(base, parts[..k - 1]))
  {
    var some := parts[..k];
    assert some[..|some| - 1] == parts[..k - 1];
    PeelPasted(list, base, some);
  }

  lemma PeelAllPasted(list: seq<string>, base: string, parts: seq<PastedPath>, passes: nat)
    requires Apart(list) && !EndsInSlash(base) && Match(list, base).None? && Listed(list, parts)
    ensures PeelAll(list, Pasted(base, parts), passes) == Pasted(base, LeftAfter(parts, passes))
  {
    var n := |parts|;
    var chain := seq(n + 1, k requires 0 <= k <= n => Pasted(base, parts[..k]));
    forall k | 0 < k < |chain| ensures PeelsTo(list, chain[k], chain[k - 1]) {
      PeelsPasted(list, base, parts, k);
    }
    assert parts[..0] == [] && parts[..n] == parts;
    PeelAllOf(list, chain, n, passes);
  }

  function Input(w: string, base: string, parts: seq<PastedPath>, slashes: nat, v: string): string {
    w + (Pasted(base, parts) + Slashes(slashes)) + v
  }

  lemma {:induction false} PastedStarts(list: seq<string>, base: string, parts: seq<PastedPath>)
    requires Apart(list) && Clean(list, base) && Listed(list, parts)
    ensures Pasted(base, parts) != [] ==> !IsWhitespace(Pasted(base, parts)[0])
  {
    if parts != [] {
      PastedStarts(list, base, parts[..|parts| - 1]);
      assert parts[|parts| - 1].suffix in list;
    }
  }

  /** From a clean base with known paths pasted after it, any runs of slashes between and after
      them and whitespace around the whole, the last six paths are taken off; with at most six
      nothing remains of them and the result is the base itself. */
  lemma RecoversBase(list: seq<string>, w: string, base: string, parts: seq<PastedPath>, slashes: nat, v: string)
    requires Apart(list) && AllWhitespace(w) && AllWhitespace(v) && Clean(list, base) && Listed(list, parts)
    ensures Normalise(list, Input(w, base, parts, slashes, v)) == Pasted(base, LeftAfter(parts, PASSES))
  {
    PastedIsTrimmed(list, base, parts, slashes);
    TrimOfPadded(w, Pasted(base, parts) + Slashes(slashes), v);
    TrimSlashesOf(Pasted(base, parts), slashes);
    PeelAllPasted(list, base, parts, PASSES);
  }

  lemma PastedIsTrimmed(list: seq<string>, base: string, parts: seq<PastedPath>, slashes: nat)
    requires Apart(list) && Clean(list, base) && Listed(list, parts)
    ensures Trimmed(Pasted(base, parts) + Slashes(slashes)) && !EndsInSlash(Pasted(base, parts))
  {
    PastedStarts(list, base, parts);
    if parts != [] {
      PastedEnds(list, base, parts);
    }
  }

  // ---- Every input ----

  lemma TrimSlashesSplit(s: string) returns (n: nat)
    ensures s == TrimSlashes(s) + Slashes(n)
  {
    TrimSlashesShortens(s);
    n := |s| - |TrimSlashes(s)|;
  }

  lemma PeelSplit(list: seq<string>, s: string) returns (part: PastedPath)
    requires Match(list, s).Some?
    ensures part.suffix in list && !EndsInSlash(Peel(list, s))
    ensures s == Peel(list, s) + Slashes(part.slashes) + part.suffix
  {
    var f := Match(list, s).value;
    var cut := s[..|s| - |f|];
    TrimSlashesShortens(cut);
    var n := TrimSlashesSplit(cut);
    part := PastedPath(n, f);
    assert s == cut + f;
  }

  lemma {:induction false} PeelAllSplit(list: seq<string>, s: string, passes: nat) returns (parts: seq<PastedPath>)
    requires !EndsInSlash(s)
    ensures Listed(list, parts) && |parts| <= passes && s == Pasted(PeelAll(list, s, passes), parts)
    ensures !EndsInSlash(PeelAll(list, s, passes))
    decreases passes
  {
    parts := [];
    if passes > 0 && Match(list, s).Some? {
      var part := PeelSplit(list, s);
      var rest := PeelAllSplit(list, Peel(list, s), passes - 1);
      parts := rest + [part];
      assert parts[..|parts| - 1] == rest;
      PeelAllStep(list, s, Peel(list, s), passes, PeelAll(list, Peel(list, s), passes - 1));
    }
  }

  /** Whatever the input, the result is a prefix of the trimmed input, and only slashes and at most
      six listed suffixes come off. */
  lemma OnlyPartsAreRemoved(list: seq<string>, input: string)
    ensures var r := Normalise(list, input);
            && !EndsInSlash(r)
            && exists w, parts, slashes, v ::
                 && AllWhitespace(w) && AllWhitespace(v) && Listed(list, parts) && |parts| <= PASSES
                 && input == Input(w, r, parts, slashes, v)
  {
    var w, v := TrimSplit(input);
    var s := Trim(input);
    TrimSlashesShortens(s);
    var slashes := TrimSlashesSplit(s);
    var parts := PeelAllSplit(list, TrimSlashes(s), PASSES);
    assert input == Input(w, Normalise(list, input), parts, slashes, v);
  }

  lemma FixedIsTrimmed(list: seq<string>, s: string)
    requires Normalise(list, s) == s
    ensures Trim(s) == s && TrimSlashes(s) == s && Trimmed(s)
  {
    var w, v := TrimSplit(s);
    TrimSlashesShortens(Trim(s));
    PeelAllShortens(list, TrimSlashes(Trim(s)), PASSES);
    assert w == [] && v == [];
  }

  lemma CleanIsFixed(list: seq<string>, s: string)
    requires Apart(list) && Clean(list, s)
    ensures Normalise(list, s) == s
  {
    RecoversBase(list, [], s, [], 0, []);
    assert Input([], s, [], 0, []) == s;
  }

  /** The fixed points are the clean strings. */
  lemma FixedIffClean(list: seq<string>, s: string)
    requires Apart(list)
    ensures Normalise(list, s) == s <==> Clean(list, s)
  {
    if Clean(list, s) {
      CleanIsFixed(list, s);
    } else if Normalise(list, s) == s {
      FixedIsTrimmed(list, s);
      TrimSlashesShortens(s);
      PeelShortens(list, s);
      PeelAllShortens(list, Peel(list, s), PASSES - 1);
    }
  }

  lemma {:induction false} PeelAllShortens(list: seq<string>, s: string, passes: nat)
    ensures |PeelAll(list, s, passes)| <= |s|
    decreases passes
  {
    if passes > 0 && Match(list, s).Some? {
      TrimSlashesShortens(s[..|s| - |Match(list, s).value|]);
      PeelAllShortens(list, Peel(list, s), passes - 1);
    }
  }

  /** `input` is a clean base with at most six known paths pasted after it. */
  ghost predicate Recoverable(list: seq<string>, input: string) {
    exists w, base, parts, slashes, v ::
      && AllWhitespace(w) && AllWhitespace(v) && Clean(list, base) && Listed(list, parts) && |parts| <= PASSES
      && input == Input(w, base, parts, slashes, v)
  }

  /** Normalising twice is normalising once exactly on those inputs. */
  lemma IdempotentIff(list: seq<string>, input: string)
    requires Apart(list)
    ensures Normalise(list, Normalise(list, input)) == Normalise(list, input) <==> Recoverable(list, input)
  {
    var r := Normalise(list, input);
    FixedIffClean(list, r);
    if Clean(list, r) {
      OnlyPartsAreRemoved(list, input);
      var w, parts, slashes, v :| && AllWhitespace(w) && AllWhitespace(v) && Listed(list, parts) && |parts| <= PASSES
                                  && input == Input(w, r, parts, slashes, v);
    }
    if Recoverable(list, input) {
      var w, base, parts, slashes, v :|
        && AllWhitespace(w) && AllWhitespace(v) && Clean(list, base) && Listed(list, parts) && |parts| <= PASSES
        && input == Input(w, base, parts, slashes, v);
      RecoversBase(list, w, base, parts, slashes, v);
    }
  }

  ghost predicate TakesTwoRounds(list: seq<string>, input: string) {
    Normalise(list, Normalise(list, input)) != Normalise(list, input)
  }

  ghost predicate MayTakeTwoRounds(list: seq<string>) {
    exists input :: TakesTwoRounds(list, input)
  }

  lemma OneRoundLeavesOne(list: seq<string>, base: string, part: PastedPath)
    requires Apart(list) && part.suffix in list && Clean(list, base)
    ensures Normalise(list, Input([], base, [part, part, part, part, part, part, part], 0, [])) == Pasted(base, [part])
  {
    var parts := [part, part, part, part, part, part, part];
    RecoversBase(list, [], base, parts, 0, []);
    assert parts[..1] == [part];
  }

  lemma OneIsNotFixed(list: seq<string>, base: string, part: PastedPath)
    requires Apart(list) && part.suffix in list
    ensures Normalise(list, Pasted(base, [part])) != Pasted(base, [part])
  {
    PastedEnds(list, base, [part]);
    FixedIffClean(list, Pasted(base, [part]));
  }

  lemma SevenOf(list: seq<string>, base: string)
    requires Apart(list) && list != [] && Clean(list, base)
    ensures MayTakeTwoRounds(list)
  {
    var part := PastedPath(0, list[0]);
    OneRoundLeavesOne(list, base, part);
    OneIsNotFixed(list, base, part);
    assert TakesTwoRounds(list, Input([], base, [part, part, part, part, part, part, part], 0, []));
  }

  lemma ShortIsClean(list: seq<string>, s: string)
    requires list == SUFFIXES && |s| == 1 && s[0] != '/' && !IsWhitespace(s[0])
    ensures Clean(list, s)
  {
    forall f | f in list ensures !EndsWith(s, f) {
      SuffixShapes(Listing(SUFFIXES, f));
    }
  }

  lemma PlainIsClean(list: seq<string>, s: string)
    requires list == SUFFIXES && s == "a"
    ensures Clean(list, s)
  {
    ShortIsClean(list, s);
  }

  lemma SuffixesAreListed(list: seq<string>)
    requires list == SUFFIXES
    ensures Apart(list) && list != []
  {
    SuffixesAreApart();
  }

  /** The daemon's own list takes two rounds over seven pasted paths. */
  lemma SevenPathsAreTooMany(list: seq<string>)
    requires list == SUFFIXES
    ensures MayTakeTwoRounds(list)
  {
    var base := "a";
    SuffixesAreListed(list);
    PlainIsClean(list, base);
    SevenOf(list, base);
  }

  // ---- The daemon's own list ----

  predicate AreKnownPaths(list: seq<string>) {
    list == ["/v1/mcp", "/v1/agent/enroll", "/v1/agent", "/v1", "/account/agents", "/account/signup",
             "/account/login", "/account", "/admin/tenants", "/admin", "/docs"]
  }

  lemma TheList(list: seq<string>)
    requires AreKnownPaths(list)
    ensures list == SUFFIXES
  {
  }

  /** With the daemon's own list: any known paths, up to six of them, with any runs of slashes come
      off a base that ends in none of them. */
  lemma KnownPathsComeOff(list: seq<string>, w: string, base: string, parts: seq<PastedPath>, slashes: nat, v: string)
    requires AreKnownPaths(list) && AllWhitespace(w) && AllWhitespace(v)
    requires Trimmed(base) && !EndsInSlash(base) && forall f | f in list :: !EndsWith(base, f)
    requires |parts| <= 6 && forall i | 0 <= i < |parts| :: parts[i].suffix in list
    ensures list == SUFFIXES
    ensures Normalise(list, w + (Pasted(base, parts) + Slashes(slashes)) + v) == base
  {
    TheList(list);
    SuffixesAreListed(list);
    UpToSixComeOff(list, w, base, parts, slashes, v);
  }

  lemma UpToSixComeOff(list: seq<string>, w: string, base: string, parts: seq<PastedPath>, slashes: nat, v: string)
    requires Apart(list) && AllWhitespace(w) && AllWhitespace(v) && Clean(list, base) && Listed(list, parts)
    requires |parts| <= 6
    ensures Normalise(list, w + (Pasted(base, parts) + Slashes(slashes)) + v) == base
  {
    RecoversBase(list, w, base, parts, slashes, v);
  }
}
