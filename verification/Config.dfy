/** The daemon's configuration: policy modes, limits, and the load / edit / save cycle of its
    command-line tools over the system and user policy files. */
module Configuration {
  import opened Base
  import Paths

  const DEFAULT_ENDPOINT := "https://cloud.membrane.example.com:443"
  const DEFAULT_EXEC_TIMEOUT_MS: u32 := 60_000
  const MAX_EXEC_TIMEOUT_MS: u32 := 600_000
  const DEFAULT_MAX_OUTPUT: u64 := 0x10_0000
  const DEFAULT_MAX_READ: u64 := 0x100_0000

  datatype PolicyMode =
    | Unrestricted
    | Workspace(roots: seq<Paths.Path>)
    | WorkspaceAllowlistExec(roots: seq<Paths.Path>, execAllowlist: seq<string>)
    | ReadOnly(roots: seq<Paths.Path>)
  {
    function Roots(): Option<seq<Paths.Path>> {
      if Unrestricted? then None else Some(roots)
    }

    predicate WritesAllowed() {
      !ReadOnly?
    }
  }

  datatype Config = Config(endpoint: string, policy: PolicyMode, maxExecTimeoutMs: u32,
                           maxOutputBytes: u64, maxReadBytes: u64)

  const DEFAULTS := Config(DEFAULT_ENDPOINT, Unrestricted, DEFAULT_EXEC_TIMEOUT_MS, DEFAULT_MAX_OUTPUT, DEFAULT_MAX_READ)

  function Pick<T(==)>(system: T, user: T, default: T): T {
    if system != default then system else user
  }

  /** Every system field that differs from its default replaces the user's. */
  function Merge(user: Config, system: Config): Config {
    Config(Pick(system.endpoint, user.endpoint, DEFAULTS.endpoint),
           Pick(system.policy, user.policy, DEFAULTS.policy),
           Pick(system.maxExecTimeoutMs, user.maxExecTimeoutMs, DEFAULTS.maxExecTimeoutMs),
           Pick(system.maxOutputBytes, user.maxOutputBytes, DEFAULTS.maxOutputBytes),
           Pick(system.maxReadBytes, user.maxReadBytes, DEFAULTS.maxReadBytes))
  }

  function Clamp(timeoutMs: u32): u32 {
    if timeoutMs > MAX_EXEC_TIMEOUT_MS then MAX_EXEC_TIMEOUT_MS else timeoutMs
  }

  function Loaded(user: Option<Config>, system: Option<Config>): Config {
    var merged :=
      match (user, system)
      case (None, None) => DEFAULTS
      case (Some(u), None) => u
      case (None, Some(s)) => s
      case (Some(u), Some(s)) => Merge(u, s);
    merged.(maxExecTimeoutMs := Clamp(merged.maxExecTimeoutMs))
  }

  function EffectiveTimeoutMs(cfg: Config, requested: u32): u32 {
    var t := if requested == 0 then cfg.maxExecTimeoutMs else requested;
    if t < cfg.maxExecTimeoutMs then t else cfg.maxExecTimeoutMs
  }

  /** A request that asks for no time, or for more than is configured, gets what is configured; any
      other gets what it asks for. */
  lemma TimeoutIs(cfg: Config, requested: u32)
    ensures requested == 0 ==> EffectiveTimeoutMs(cfg, requested) == cfg.maxExecTimeoutMs
    ensures 0 < requested <= cfg.maxExecTimeoutMs ==> EffectiveTimeoutMs(cfg, requested) == requested
    ensures requested > cfg.maxExecTimeoutMs ==> EffectiveTimeoutMs(cfg, requested) == cfg.maxExecTimeoutMs
  {
  }

  /** Which modes confine paths, and that all but one allow writing. */
  lemma ModesAre(roots: seq<Paths.Path>, bins: seq<string>)
    ensures Unrestricted.Roots() == None && Unrestricted.WritesAllowed()
    ensures Workspace(roots).Roots() == Some(roots) && Workspace(roots).WritesAllowed()
    ensures WorkspaceAllowlistExec(roots, bins).Roots() == Some(roots) && WorkspaceAllowlistExec(roots, bins).WritesAllowed()
    ensures ReadOnly(roots).Roots() == Some(roots) && !ReadOnly(roots).WritesAllowed()
  {
  }

  /** A configuration without a policy file, or with one only: what the file says, with at most ten
      minutes for a command. */
  lemma LoadedAlone(cfg: Config)
    ensures Loaded(None, None) == Config("https://cloud.membrane.example.com:443", Unrestricted, 60_000, 1_048_576, 16_777_216)
    ensures Loaded(Some(cfg), None) == Loaded(None, Some(cfg))
            == cfg.(maxExecTimeoutMs := if cfg.maxExecTimeoutMs <= 600_000 then cfg.maxExecTimeoutMs else 600_000)
  {
  }

  // ---- Commands ----

  /** `word` is the lower-cased mode argument. */
  function ModeOf(word: string, roots: seq<Paths.Path>, allowBins: seq<string>): Option<PolicyMode> {
    if word == "unrestricted" then Some(Unrestricted)
    else if roots == [] then None
    else if word == "workspace" then Some(Workspace(roots))
    else if word == "allowlist" || word == "workspaceallowlistexec" then
      if allowBins == [] then None else Some(WorkspaceAllowlistExec(roots, allowBins))
    else if word == "readonly" then Some(ReadOnly(roots))
    else None
  }

  /** Which words and arguments give which mode; anything else is refused. */
  lemma ModeWords(word: string, roots: seq<Paths.Path>, bins: seq<string>)
    ensures var m := ModeOf(word, roots, bins);
            && (m == Some(Unrestricted) <==> word == "unrestricted")
            && (m == Some(Workspace(roots)) <==> word == "workspace" && roots != [])
            && (m == Some(WorkspaceAllowlistExec(roots, bins)) <==>
                (word == "allowlist" || word == "workspaceallowlistexec") && roots != [] && bins != [])
            && (m == Some(ReadOnly(roots)) <==> word == "readonly" && roots != [])
            && (m.Some? ==> m.value in {Unrestricted, Workspace(roots), WorkspaceAllowlistExec(roots, bins), ReadOnly(roots)})
  {
  }

  predicate IsHexDigit(c: char) {
    '0' <= c <= '9' || 'a' <= c <= 'f' || 'A' <= c <= 'F'
  }

  predicate IsPin(pin: string) {
    |pin| == 64 && forall i | 0 <= i < |pin| :: IsHexDigit(pin[i])
  }

  /** `certOk` says whether the token's certificate parses. */
  datatype Command =
    | SetMode(word: string, roots: seq<Paths.Path>, allowBins: seq<string>)
    | Pair(endpoint: string, pin: string, certOk: bool)

  /** The configuration a command saves, if it gets that far. */
  function Edited(cfg: Config, c: Command): Option<Config> {
    match c
    case SetMode(word, roots, bins) =>
      (match ModeOf(word, roots, bins)
       case None => None
       case Some(mode) => Some(cfg.(policy := mode)))
    case Pair(endpoint, pin, certOk) =>
      if certOk && IsPin(pin) then Some(cfg.(endpoint := endpoint)) else None
  }

  /** A pairing is accepted exactly with a readable token whose pin is 64 hex digits, and changes the
      endpoint alone; a mode is accepted exactly if it is one, and changes the policy alone. */
  lemma EditIs(cfg: Config, endpoint: string, pin: string, certOk: bool, word: string, roots: seq<Paths.Path>, bins: seq<string>)
    ensures Edited(cfg, Pair(endpoint, pin, certOk))
            == if certOk && |pin| == 64
                  && forall i | 0 <= i < 64 :: '0' <= pin[i] <= '9' || 'a' <= pin[i] <= 'f' || 'A' <= pin[i] <= 'F'
               then Some(cfg.(endpoint := endpoint)) else None
    ensures Edited(cfg, SetMode(word, roots, bins))
            == if ModeOf(word, roots, bins).Some? then Some(cfg.(policy := ModeOf(word, roots, bins).value)) else None
  {
  }

  /** The two policy files and the pin file. The system file is written by nobody here. */
  class PolicyFiles {
    const system: Option<Config>
    var user: Option<Config>
    var pin: Option<string>

    constructor (system: Option<Config>, user: Option<Config>, pin: Option<string>)
      ensures this.system == system && this.user == user && this.pin == pin
    {
      this.system, this.user, this.pin := system, user, pin;
    }

    method Load() returns (cfg: Config)
      ensures cfg == Loaded(user, system)
    {
      cfg := DEFAULTS;
      match (user, system) {
        case (None, None) =>
        case (Some(u), None) => cfg := u;
        case (None, Some(s)) => cfg := s;
        case (Some(u), Some(s)) => cfg := Merge(u, s);
      }
      if cfg.maxExecTimeoutMs > MAX_EXEC_TIMEOUT_MS {
        cfg := cfg.(maxExecTimeoutMs := MAX_EXEC_TIMEOUT_MS);
      }
    }

    method SaveUser(cfg: Config)
      modifies `user
      ensures user == Some(cfg)
    {
      user := Some(cfg);
    }

    /** Loads, edits one field, saves; a refused command changes nothing. */
    method Execute(c: Command) returns (ok: bool)
      modifies `user, `pin
      ensures user == UserAfter(system, old(user), c)
      ensures ok <==> Edited(Loaded(old(user), system), c).Some?
      ensures pin == if c.Pair? && ok then Some(c.pin) else old(pin)
    {
      var cfg := Load();
      match c {
        case SetMode(word, roots, bins) =>
          var mode := ModeOf(word, roots, bins);
          if mode.None? { return false; }
          cfg := cfg.(policy := mode.value);
        case Pair(endpoint, hex, certOk) =>
          if !certOk { return false; }
          if !IsPin(hex) { return false; }
          pin := Some(hex);
          if cfg.endpoint != endpoint {
            cfg := cfg.(endpoint := endpoint);
          }
      }
      SaveUser(cfg);
      ok := true;
    }
  }

  // ---- Runs of commands ----

  function UserAfter(system: Option<Config>, user: Option<Config>, c: Command): Option<Config> {
    match Edited(Loaded(user, system), c)
    case None => user
    case Some(cfg) => Some(cfg)
  }

  function UserAfterAll(system: Option<Config>, user: Option<Config>, cs: seq<Command>): Option<Config> {
    if cs == [] then user
    else UserAfter(system, UserAfterAll(system, user, cs[..|cs| - 1]), cs[|cs| - 1])
  }

  /** The last policy a successful command asked for, or `initial`. */
  function LastMode(cs: seq<Command>, initial: PolicyMode): PolicyMode {
    if cs == [] then initial
    else
      match cs[|cs| - 1]
      case SetMode(word, roots, bins) =>
        (match ModeOf(word, roots, bins)
         case Some(mode) => mode
         case None => LastMode(cs[..|cs| - 1], initial))
      case Pair(_, _, _) => LastMode(cs[..|cs| - 1], initial)
  }

  function LastEndpoint(cs: seq<Command>, initial: string): string {
    if cs == [] then initial
    else
      match cs[|cs| - 1]
      case Pair(endpoint, pin, certOk) =>
        if certOk && IsPin(pin) then endpoint else LastEndpoint(cs[..|cs| - 1], initial)
      case SetMode(_, _, _) => LastEndpoint(cs[..|cs| - 1], initial)
  }

  /** The system's value of a field rules where the system sets one. */
  predicate Rules<T(==)>(system: Option<Config>, field: Config -> T) {
    system.Some? && field(system.value) != field(DEFAULTS)
  }

  /** After any run of commands under a fixed system policy, a reload gives the system's value of
      every field the system sets off its default, else the last value a command set, else what
      was loaded before the run; the limits never move. */
  lemma {:induction false} ReloadAfterRun(system: Option<Config>, user: Option<Config>, cs: seq<Command>)
    ensures var before := Loaded(user, system);
            var after := Loaded(UserAfterAll(system, user, cs), system);
            && after.policy == (if Rules(system, (c: Config) => c.policy) then system.value.policy
                                else LastMode(cs, before.policy))
            && after.endpoint == (if Rules(system, (c: Config) => c.endpoint) then system.value.endpoint
                                  else LastEndpoint(cs, before.endpoint))
            && after.maxExecTimeoutMs == before.maxExecTimeoutMs <= MAX_EXEC_TIMEOUT_MS
            && after.maxOutputBytes == before.maxOutputBytes
            && after.maxReadBytes == before.maxReadBytes
  {
    if cs != [] {
      ReloadAfterRun(system, user, cs[..|cs| - 1]);
    }
  }

  // ---- What the system file does not do ----

  /** Whether a loaded field is the system's: if the system sets it off its default, or the user
      leaves it there too. */
  lemma OverridesIff(user: Config, system: Config)
    ensures var cfg := Loaded(Some(user), Some(system));
            && (cfg.endpoint == system.endpoint <==> system.endpoint != DEFAULTS.endpoint || user.endpoint == DEFAULTS.endpoint)
            && (cfg.policy == system.policy <==> system.policy != DEFAULTS.policy || user.policy == DEFAULTS.policy)
            && (cfg.maxExecTimeoutMs == Clamp(system.maxExecTimeoutMs) <==>
                system.maxExecTimeoutMs != DEFAULTS.maxExecTimeoutMs || user.maxExecTimeoutMs == DEFAULTS.maxExecTimeoutMs)
            && (cfg.maxOutputBytes == system.maxOutputBytes <==>
                system.maxOutputBytes != DEFAULTS.maxOutputBytes || user.maxOutputBytes == DEFAULTS.maxOutputBytes)
            && (cfg.maxReadBytes == system.maxReadBytes <==>
                system.maxReadBytes != DEFAULTS.maxReadBytes || user.maxReadBytes == DEFAULTS.maxReadBytes)
  {
  }

  /** A system file that asks for the default does not get it. */
  lemma DefaultDoesNotOverride()
    ensures exists user: Config, system: Config ::
              system.maxReadBytes == DEFAULTS.maxReadBytes != user.maxReadBytes
              && Loaded(Some(user), Some(system)).maxReadBytes != system.maxReadBytes
  {
    var user, system := DEFAULTS.(maxReadBytes := 1), DEFAULTS;
    assert Loaded(Some(user), Some(system)).maxReadBytes == 1;
  }

  /** The system has no say on the field that `c` edits, or `c` sets the system's own value. */
  predicate Agrees(system: Config, c: Command) {
    match c
    case SetMode(word, roots, bins) => system.policy == DEFAULTS.policy || ModeOf(word, roots, bins) == Some(system.policy)
    case Pair(endpoint, _, _) => system.endpoint == DEFAULTS.endpoint || endpoint == system.endpoint
  }

  /** A command copies the system's values into the user file: right after one that is accepted,
      taking the system file away changes nothing that is loaded, exactly if the system agrees on
      the one field the command edits. */
  lemma RemovalIsSeenIff(system: Config, user: Option<Config>, c: Command)
    requires Edited(Loaded(user, Some(system)), c).Some?
    ensures var after := UserAfter(Some(system), user, c);
            Loaded(after, None) == Loaded(after, Some(system)) <==> Agrees(system, c)
  {
  }

  /** The last command of a run that is accepted. */
  function LastAccepted(system: Option<Config>, user: Option<Config>, cs: seq<Command>): (last: Option<nat>)
    ensures last.Some? ==> last.value < |cs|
  {
    if cs == [] then None
    else
      var n := |cs| - 1;
      if Edited(Loaded(UserAfterAll(system, user, cs[..n]), system), cs[n]).Some? then Some(n)
      else LastAccepted(system, user, cs[..n])
  }

  /** The user file is what the last accepted command saved. */
  lemma {:induction false} FileAfterRun(system: Option<Config>, user: Option<Config>, cs: seq<Command>)
    ensures match LastAccepted(system, user, cs)
            case None => UserAfterAll(system, user, cs) == user
            case Some(i) =>
              && Edited(Loaded(UserAfterAll(system, user, cs[..i]), system), cs[i]).Some?
              && UserAfterAll(system, user, cs) == UserAfter(system, UserAfterAll(system, user, cs[..i]), cs[i])
  {
    if cs != [] {
      var n := |cs| - 1;
      if Edited(Loaded(UserAfterAll(system, user, cs[..n]), system), cs[n]).None? {
        FileAfterRun(system, user, cs[..n]);
        var last := LastAccepted(system, user, cs[..n]);
        assert last.Some? ==> cs[..n][..last.value] == cs[..last.value];
      }
    }
  }

  lemma LeftBehind(system: Config, user: Option<Config>, c: Command)
    requires Edited(Loaded(user, Some(system)), c).Some?
    ensures var loaded := Loaded(user, Some(system));
            var left := Loaded(UserAfter(Some(system), user, c), None);
            && left.policy == LastMode([c], loaded.policy)
            && left.endpoint == LastEndpoint([c], loaded.endpoint)
            && (left.maxExecTimeoutMs, left.maxOutputBytes, left.maxReadBytes)
               == (loaded.maxExecTimeoutMs, loaded.maxOutputBytes, loaded.maxReadBytes)
  {
    assert [c][..0] == [];
  }

  /** What a machine loads whose system file is taken away after a run of commands. Without an
      accepted command, what the user file said. Else the value the last accepted command set, and
      in every other field the system's value if the system set one, so that even the user's own
      earlier choice is gone; and the removal is seen exactly if the system disagrees with that
      last command. */
  lemma SystemValuesOutliveTheSystemFile(system: Config, user: Option<Config>, cs: seq<Command>)
    ensures var before := Loaded(user, Some(system));
            var file := UserAfterAll(Some(system), user, cs);
            var left := Loaded(file, None);
            match LastAccepted(Some(system), user, cs)
            case None => left == Loaded(user, None)
            case Some(i) =>
              && (left == Loaded(file, Some(system)) <==> Agrees(system, cs[i]))
              && left.policy == LastMode([cs[i]], if system.policy != DEFAULTS.policy then system.policy
                                                  else LastMode(cs[..i], before.policy))
              && left.endpoint == LastEndpoint([cs[i]], if system.endpoint != DEFAULTS.endpoint then system.endpoint
                                                        else LastEndpoint(cs[..i], before.endpoint))
              && (left.maxExecTimeoutMs, left.maxOutputBytes, left.maxReadBytes)
                 == (before.maxExecTimeoutMs, before.maxOutputBytes, before.maxReadBytes)
  {
    FileAfterRun(Some(system), user, cs);
    match LastAccepted(Some(system), user, cs)
    case None =>
    case Some(i) =>
      ReloadAfterRun(Some(system), user, cs[..i]);
      var file := UserAfterAll(Some(system), user, cs[..i]);
      RemovalIsSeenIff(system, file, cs[i]);
      LeftBehind(system, file, cs[i]);
  }

  /** A user who chose a mode, and paired later, is left with the mode of a system file that is no
      longer there. */
  lemma OwnChoiceIsOverwritten()
    ensures exists system: Config, user: Option<Config>, mode: Command, pair: Command ::
              && mode.SetMode? && pair.Pair?
              && ModeOf(mode.word, mode.roots, mode.allowBins) == Some(Unrestricted)
              && Loaded(UserAfterAll(Some(system), user, [mode, pair]), None).policy == system.policy != Unrestricted
  {
    var system := DEFAULTS.(policy := Workspace([]));
    var mode, pair := SetMode("unrestricted", [], []), Pair("e", seq(64, i => '0'), true);
    var cs := [mode, pair];
    assert cs[..1] == [mode] && cs[..1][..0] == [];
    var first := UserAfter(Some(system), None, mode);
    assert UserAfterAll(Some(system), None, []) == None;
    assert UserAfterAll(Some(system), None, [mode]) == first;
    assert UserAfterAll(Some(system), None, cs) == UserAfter(Some(system), first, pair);
    assert Loaded(first, Some(system)).policy == system.policy;
  }

  /** No request can make a loaded configuration wait longer than ten minutes. */
  lemma LoadedTimeoutIsCapped(user: Option<Config>, system: Option<Config>, requested: u32)
    ensures EffectiveTimeoutMs(Loaded(user, system), requested) <= MAX_EXEC_TIMEOUT_MS
  {
  }
}
