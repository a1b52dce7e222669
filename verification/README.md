# Membrane daemon: a verified model

The membrane daemon lets a cloud service read, write and list files and run commands on a customer's
machine. It answers length-prefixed requests, one at a time over stdio or one per tunnel stream, under
a local policy, and records each operation in an audit log. This project models that daemon in Dafny
and proves what its protocol, its handlers and its command-line tools are for.

## What is modelled

**The RPC stream** (`Utf8`, `Wire`, `Codec`, `Messages`, `Framing`, `ByteLayout`, `Stream`, `Rpc`).
Message bodies follow the bincode 1 default layout: fixed-width little-endian integers, u32 variant tags,
u64 lengths, one-byte option tags and bools. That layout is an assumption about the library; everything
above it is proved. A `Layout` maps the variant tags read so far to what comes next, so one codec serves
requests and responses; `ByteLayout` writes out the same bytes without it. `Stream.Expected` says what a
byte stream means: parse it whole, dispatch each request, concatenate the responses. `Rpc.Serve` is the
loop of `serve` with its growing and draining buffer, proved to compute exactly that, however the input is
cut into chunks.

**The handlers, serially** (`Handlers`, `Answers`, `Sessions`, `History`, `Bounds`, `ListDir`, `ExecRun`,
`Audit`). `Handlers.Daemon` is a class whose methods follow the handlers branch by branch over a file
map, a temp file and an event log. What the environment decides (I/O errors, clocks, listings, children,
where a path leads and what the policy says of it) comes from an oracle indexed by the request's turn, so
a run is determined and all runs are covered. A `Session` is such a run; the theorems about conditional
writes and the audit log hold for every session.

**The handlers, concurrently** (`Interleaving`, `InterleavingSafety`, `InterleavingWrites`,
`InterleavingReads`, `InterleavingLimits`, `SoloWrite`, `SoloRead`, `AuditAppends`). The tunnel spawns a
task per stream, so handlers interleave. The machine moves one system call of one task at a time: stat,
open, partial reads; check, temp file, partial writes, fsync, rename, final stat. Calls may fail, the
process may die and the machine may lose power between any two moves. After a power loss, synced inodes
keep their contents, unsynced ones may hold anything, and renames may be undone. `SoloWrite` and
`SoloRead` tie the moves of one task, made with no other in between, to the serial handlers.
`AuditAppends` is the log file under concurrent tasks, whose lines and newlines are separate appends.

**Path policy** (`Paths`, `Placement`, `Confinement`). A tree with symbolic links and `..`, resolved as in
section 4.13 of the POSIX.1-2017 Base Definitions with a bound on links, and the component-wise prefix
check that falls back to the spelled path when resolution fails. `Placement` says where a write puts its
file: at an entry of the directory its path ends in, which `create_dir_all` may make first (a walk that
makes what it misses and may leave it again), replacing and not following a link there. `Confinement`
ties a tree to what the handlers answer and write.

**Configuration, pins, URLs and the audit command** (`Configuration`, `Pins`, `Text`, `CloudUrl`,
`Calendar`, `AuditLog`, `Sorting`, `Utf8Order`).

## Where the code differs from its documentation

- The comment at `membrane-daemon/src/config.rs:124` caps stdout and stderr combined; the code caps each
  stream (`membrane-daemon/src/handlers/exec.rs:89-90`). The model follows the code: the frame bound has
  twice the cap. `Bounds.CombinedCapIff` says exactly when an answer obeys the cap as documented, and
  `CombinedCapBreaks` gives one that does not.
- The hard ceiling on a single file read (`membrane-daemon/src/config.rs:127-130`) is checked on the file that was
  examined. A concurrent read may open a later, larger version (`InterleavingLimits.ReadMayExceedCap`); it
  obeys the cap if it opens the version it examined (`InterleavingReads.ReadObeysCap`).
- The modes are documented as confining paths to their roots (`membrane-daemon/src/config.rs:30-34`,
  `membrane-daemon/src/handlers/write_file.rs:5`, `README.md:21-22`). For what a path leads to that holds, through
  links and dot-dots (`Confinement.ReadStaysInside`, `ListStaysInside`, `RewriteStaysInside`). A write whose
  path leads to no node is checked by its spelling, and one that replaces a link by the link's target
  (`membrane-daemon/src/config.rs:65`), which does not say where the file will be
  (`Placement.SpellingDoesNotConfine`). It lands under a root exactly if what exists of its landing place
  passes the same check (`Placement.LandsInsideIff`, `Confinement.WriteLandsInsideIff`). Where no directory
  that is made is left again by a dot-dot, that is the nearest parent that exists
  (`Placement.NewFileInsideIff`); in general that parent does not decide (`Placement.ParentDoesNotDecide`).
- `if_mtime_matches` is documented as preventing lost-write races (`membrane-wire/src/lib.rs:61-63`). In
  serial runs it does, unless a later version carries the reported time again (`Sessions.NoLostUpdate`,
  `Sessions.ConditionalWriteIff`). In concurrent runs the check and the rename are separate steps:
  `BothConditionalWritesCommit` is a run in which both writers pass, and `RenameReplacesWhatWasChecked` says
  exactly when the version replaced is the one checked. `ReusedStampFoolsCheck` and
  `UndoneRenameFoolsCheck` show why `CheckSeesWhatWasRead` has its conditions.
- Every operation is documented as recorded in the audit log (`membrane-daemon/src/handlers/mod.rs:1-3`). Two
  tasks that append at once can put their entries on one line, and the audit command then shows neither
  (`AuditAppends.TwoTasksLoseBoth`); `AppendsSurviveIff` says exactly when nothing is lost.
- `normalise_cloud_url` is documented to always end up with a bare base (`membrane-daemon/src/main.rs:325-328`).
  It makes six passes and trims whitespace once, so it is idempotent exactly on the inputs described by
  `CloudUrl.Recoverable`.
- `merge_into` is documented as letting every system field override (`membrane-daemon/src/config.rs:202-204`). A
  field of the system file does so exactly if it is off its default, or the user leaves it there
  (`Configuration.OverridesIff`, `DefaultDoesNotOverride`). And an accepted command copies the system's values
  into the user file: `SystemValuesOutliveTheSystemFile` says for every run what is loaded once the system
  file is gone, and exactly when that differs; `OwnChoiceIsOverwritten` is a run that loses the user's own
  mode.

## Model

| member | source | states |
|---|---|---|
| Utf8.DecodeOfEncode | membrane-wire/src/lib.rs:38-83 | every string in a message survives its UTF-8 bytes |
| Utf8.EncodeOfDecode | membrane-wire/src/lib.rs:197-198 | only the UTF-8 encoding of a string is accepted as text: no overlong forms, surrogates or truncated sequences |
| Utf8.Examples | membrane-wire/src/lib.rs:173-174 | the encoding is that of RFC 3629, on one of its examples for each length |
| Codec.GetFieldOfPut | membrane-wire/src/lib.rs:38-146 | every field of every message type is read back from its bytes, in front of any tail |
| Codec.PutFieldOfGet | membrane-wire/src/lib.rs:38-146 | conversely, whatever is read as a field is followed from exactly that field's own bytes |
| Messages.GetMessageOfPut | membrane-wire/src/lib.rs:173-174 | a message is read back from its body, from any number of tags already consumed |
| Messages.PutMessageOfGet | membrane-wire/src/lib.rs:197-199 | whatever parses is a value of the expected type and starts with exactly its own encoding |
| Messages.RequestFills | membrane-wire/src/lib.rs:152-159 | each request lays out as its enum variant says, and the layout determines the request |
| Messages.RequestMessageOf | membrane-wire/src/lib.rs:152-159 | and every body laid out as a request is that of the request it is read as |
| Messages.ResponseFills | membrane-wire/src/lib.rs:128-168 | the same for responses, with their nested result and error variants |
| Messages.ResponseMessageOf | membrane-wire/src/lib.rs:128-168 | and every body laid out as a response is that of the response it is read as |
| Framing.Encode | membrane-wire/src/lib.rs:173-180 | `encode` builds the frame: the body length cast to u32, little-endian, then the body |
| Framing.DecodeMessage | membrane-wire/src/lib.rs:187-200 | a decoded message has the expected type and consumes between 4 bytes and the whole buffer; a request for more asks for at least one byte |
| Framing.FrameIsExactIff | membrane-wire/src/lib.rs:175 | the header tells the body's length exactly if the body is shorter than 2^32 bytes |
| Framing.DecodeOfFrame | membrane-wire/src/lib.rs:187-200 | a frame followed by anything decodes to its message and consumes exactly the frame; bytes inside the frame past the message are skipped |
| Framing.DecodedIff | membrane-wire/src/lib.rs:187-200 | `decode` succeeds on exactly the buffers that start with a possibly padded frame of a message of the type |
| Framing.DecodeOfPrefix | membrane-wire/src/lib.rs:185-196 | a proper prefix of a frame asks for exactly what is missing, first of the header, then of the frame |
| Framing.VerdictIsStable | membrane-wire/src/lib.rs:187-200 | a decoded message or an error stands however the buffer is extended, and fewer bytes than asked for settle nothing |
| Framing.RequestRoundTrip | membrane-wire/src/lib.rs:173-200 | every request under 2^32 bytes is recovered from its frame in front of any tail, and every cut of the frame asks for the rest |
| Framing.ResponseRoundTrip | membrane-wire/src/lib.rs:173-200 | the same for every response |
| Framing.DecodedRequestIff | membrane-wire/src/lib.rs:187-200 | the buffers that decode to a given request, both ways |
| ByteLayout.RequestBytes | membrane-wire/src/lib.rs:151-180 | the bytes of every request's frame written out: the body's length, the request's number, then its fields in order, integers least significant byte first |
| ByteLayout.ResponseBytes | membrane-wire/src/lib.rs:128-180 | the bytes of every response's frame written out: the response's number, which of Ok and Err, the error's number, and the fields in order, negative integers in two's complement |
| Stream.ParseOfEncoded | membrane-daemon/src/rpc.rs:25-33 | parsing peels whole frames off in order and stops at what is no frame |
| Stream.CleanSession | membrane-daemon/src/rpc.rs:25-48 | a client that sends whole requests gets every response, in order, and a clean end |
| Stream.CutSession | membrane-daemon/src/rpc.rs:38-45 | a stream cut inside a frame is answered up to that frame, then ends in UnexpectedEof |
| Stream.BrokenSession | membrane-daemon/src/rpc.rs:36-46 | a read that fails, between frames or inside one, ends in ReadFailed after the responses to every whole frame |
| Stream.BadFrameSession | membrane-daemon/src/rpc.rs:48-53 | a frame whose body is no request ends in InvalidData after the responses to everything before it, whatever follows |
| Stream.ClientReadsResponses | membrane-daemon/src/rpc.rs:30-32 | the client decodes exactly the emitted responses and nothing is left over |
| Stream.OutputIsPrefix | membrane-daemon/src/rpc.rs:30-32 | an output with room for everything makes no difference; one that fails, writing or flushing, has taken as much as it had room for of the responses up to the one that fails |
| Stream.OutputIsPartOfAll | membrane-daemon/src/rpc.rs:30-32 | what a failing output has taken is a prefix of all the responses: exactly as long as its room if it ran out of that, and up to the response whose flush failed if that stopped it |
| Rpc.Sink.WriteAll | membrane-daemon/src/rpc.rs:31 | a frame is written whole, or as far as the output has room |
| Rpc.Sink.Put | membrane-daemon/src/rpc.rs:31-32 | a frame gets through exactly if there is room for it and the flush after it succeeds; a failed flush leaves it written |
| Rpc.Respond | membrane-daemon/src/rpc.rs:29-32 | one request is carried out and its encoded response written and flushed; the request is carried out even if the output then fails |
| Stream.TunnelAgreesWithServer | membrane-daemon/src/tunnel.rs:167-201 | the per-stream handler answers exactly the streams whose first frame decodes and declares at most 64 MiB, with the response the server loop would emit first, and otherwise leaves the state alone |
| Rpc.Serve | membrane-daemon/src/rpc.rs:20-56 | the loop's final state, output and outcome are those of parsing the whole input and dispatching request by request, up to the response that a failing write or flush stops; it terminates by unread calls, then buffered bytes |
| Rpc.ChunksDeliver | membrane-daemon/src/rpc.rs:36-46 | any split into non-empty chunks delivers the unsplit input, nothing after the first empty or failing read is seen, and the run is broken exactly if it was a failing one |
| Rpc.ChunkingIsIrrelevant | membrane-daemon/src/rpc.rs:20-56 | two splits of the same bytes give the same state, output and outcome, whatever the output has room for |
| Handlers.Daemon.AtomicWrite | membrane-daemon/src/handlers/write_file.rs:95-107 | however the data is split into write calls and wherever the write breaks off, either all of the data is in place or an error is returned and every file is as it was; no temp file is left |
| Handlers.DiskDecides | membrane-daemon/src/handlers/write_file.rs:95-107 | whatever breaks off a write fails it, but for a full disk that has room for all of the data |
| Handlers.Daemon.HandleList | membrane-daemon/src/handlers/list_dir.rs:17-77 | the list handler answers and logs as its specification says |
| Handlers.Daemon.HandleExec | membrane-daemon/src/handlers/exec.rs:25-146 | the exec handler's two capped readers, its polling loop and its audit paths answer and log as its specification says |
| Handlers.Daemon.Dispatch | membrane-daemon/src/handlers/mod.rs:21-29 | one request takes the daemon's whole state to the specified next state and response |
| Handlers.StampIsTime | membrane-daemon/src/handlers/read_file.rs:98-102 | a time from the epoch on is its own stamp, in nanoseconds, as long as an i64 holds it, and any other time gives 0 |
| Answers.ReadSucceedsIff | membrane-daemon/src/handlers/read_file.rs:21-102 | exactly when a read succeeds and with what, its stamp being the file's time in nanoseconds, and exactly when it is refused for its size |
| Answers.ReadFailsWith | membrane-daemon/src/handlers/read_file.rs:21-78 | which failure each failed read reports: path not allowed, not found, permission denied or the I/O error |
| Answers.WriteSucceedsIff | membrane-daemon/src/handlers/write_file.rs:25-92 | exactly when a write succeeds, what the files are then, exactly when it is refused for its condition (for a time an i64 holds: exactly if it is not the named one), and that it answers the new file's time |
| Answers.WriteFailsWith | membrane-daemon/src/handlers/write_file.rs:33-115 | which failure each failed write reports, and the expected and actual stamps of a failed condition |
| Answers.ListSucceedsIff | membrane-daemon/src/handlers/list_dir.rs:20-76 | exactly when a listing succeeds, and that it shows, strictly sorted, exactly the entries with UTF-8 names without a leading dot and readable metadata, with their directory flags and sizes |
| Answers.ListFailsWith | membrane-daemon/src/handlers/list_dir.rs:20-52 | which failure each failed listing reports |
| Answers.ExecRefusedIff | membrane-daemon/src/handlers/exec.rs:26-83 | a command is refused exactly when policy does not permit it, with the words of its mode, and one that cannot be started reports why |
| Answers.WaitIsExact | membrane-daemon/src/handlers/exec.rs:96-122 | a command finishes for the daemon exactly if some poll finds it ended before any poll at or after the deadline finds it running |
| Answers.ExecSucceedsIff | membrane-daemon/src/handlers/exec.rs:43-146 | a command is given the time it asks for, or the configured maximum if it asks for none or more; exactly when it is answered with its result, with a timeout or with an I/O error, and that the result holds its exit code, its duration and the heads of its two streams, flagged as truncated exactly if something is missing |
| Answers.PingIsPong | membrane-daemon/src/handlers/mod.rs:27 | a ping is answered and changes nothing |
| Sessions.SessionOf | membrane-daemon/src/rpc.rs:25-33 | every list of requests has a run from every world |
| Sessions.ServerRunsSessions | membrane-daemon/src/rpc.rs:25-33 | the worlds and answers of that run are what the server loop's specification dispatches |
| Sessions.ClientSeesSession | membrane-daemon/src/rpc.rs:20-56 | end to end: whole requests in any chunks drive the daemon through their session and the client reads back its answers |
| Sessions.OnlyWritesChangeFiles | membrane-daemon/src/handlers/write_file.rs:72-81 | a request changes at most one file, by installing all the data of a write reported as successful; every failed write leaves all files alone |
| Sessions.ConditionHolds | membrane-daemon/src/handlers/write_file.rs:43-70 | a conditional write succeeds only if its path leads to a file with the stamp it names |
| Sessions.ReportIsTrue | membrane-daemon/src/handlers/read_file.rs:80-92 | what a read or write answer says of a file's data and stamp is true when it is given |
| Sessions.NoLostUpdate | membrane-daemon/src/handlers/write_file.rs:43-92 | in every serial run, a successful conditional write on a reported stamp that no version since has reused replaces exactly the version reported, with no write in between |
| Sessions.ConditionalWriteIff | membrane-daemon/src/handlers/write_file.rs:43-92 | where policy and disk let it through, it succeeds if and only if nothing wrote the file since the report or the last write since carries the same stamp, and otherwise names the stamp that stands; no assumption on stamps |
| Sessions.ConditionalWriteByTime | membrane-daemon/src/handlers/write_file.rs:43-92 | the same over the files' own times: among versions whose times an i64 holds, it succeeds if and only if nothing wrote the file since the report or the last write since left the very same time, to the nanosecond |
| Sessions.DistinctStampsAreNotReused | membrane-daemon/src/handlers/read_file.rs:98-102 | where no two versions of a file carry the same stamp, no reported stamp is reused |
| Sessions.DistinctTimesGiveDistinctStamps | membrane-daemon/src/handlers/read_file.rs:98-102 | versions with distinct times that an i64 holds have distinct stamps |
| Sessions.ReadOnlyKeepsFiles | membrane-daemon/src/config.rs:73-76 | in read-only mode no run changes a file |
| Sessions.OneEvent | membrane-daemon/src/handlers/mod.rs:1-3 | one request appends one event that tells its path or command, outcome, sizes and exit data, and Ping none |
| Sessions.LogTellsTheRun | membrane-daemon/src/handlers/mod.rs:21-29 | over every run the log grows by exactly one matching event per request but Ping whose append succeeds, in order |
| Sessions.StoppedIsTold | membrane-daemon/src/handlers/exec.rs:96-139 | what the log says of a command that was stopped at its deadline or could not be waited for: its duration, and whether output was missing |
| History.StaysSince | membrane-daemon/src/handlers/write_file.rs:95-107 | a file keeps its version until the next write and never vanishes |
| History.StandsSince | membrane-daemon/src/handlers/write_file.rs:95-107 | what stands is what stood, or else what was written last |
| History.EqualStampsMeanUntouched | membrane-daemon/src/handlers/write_file.rs:43-55 | with distinct stamps, the same stamp twice means nothing was written in between |
| Bounds.ReadFrameBound | membrane-daemon/src/handlers/read_file.rs:31-66 | a successful read answers in 36 bytes plus the data, which obeys both caps |
| Bounds.ExecFrameBound | membrane-daemon/src/handlers/exec.rs:45-90 | a successful command answers in at most 39 bytes plus twice the smaller cap |
| Bounds.CombinedCapIff | membrane-daemon/src/config.rs:124-126 | an answer obeys the cap on both streams together if and only if all output does, or the cap is 0, or a stream is empty |
| Bounds.CombinedCapBreaks | membrane-daemon/src/handlers/exec.rs:89-90 | an answer with more output than the ceiling |
| Bounds.LargeAnswersFit | membrane-wire/src/lib.rs:173-180 | under read and output limits of 2^32-33 and 2^31-18 these answers have exact headers and decode to themselves |
| Bounds.ReadFitsIff | membrane-wire/src/lib.rs:175 | the read limit is tight |
| Bounds.ExecFitsIff | membrane-wire/src/lib.rs:175 | exactly which command results fit a frame |
| Bounds.DefaultLimitsFit | membrane-daemon/src/config.rs:16-20 | the default limits are within those bounds |
| Bounds.LoadedPollBound | membrane-daemon/src/handlers/exec.rs:96-122 | under any loaded configuration and any request the daemon polls a child at most 24001 times |
| ListDir.ListEntries | membrane-daemon/src/handlers/list_dir.rs:54-68 | the loop and the sort compute the listing |
| ListDir.ListingIsExact | membrane-daemon/src/handlers/list_dir.rs:54-68 | the listing is strictly sorted by name and holds exactly the entries with readable metadata, UTF-8 names and no leading dot, with their directory flags, directories with size 0 and others with their length |
| ListDir.ListingIgnoresOrder | membrane-daemon/src/handlers/list_dir.rs:54-68 | it depends on the directory's entries only, not on the order they are enumerated in |
| Sorting.SortSorts | membrane-daemon/src/handlers/list_dir.rs:68 | the sort is ordered and a permutation |
| Sorting.SortedIsUnique | membrane-daemon/src/handlers/list_dir.rs:68 | with distinct keys there is only one sorted arrangement |
| Utf8Order.ByteOrderIsCharOrder | membrane-daemon/src/handlers/list_dir.rs:68 | the order used here is the byte order of the names' UTF-8 that `cmp` compares |
| ExecRun.ReadCapped | membrane-daemon/src/handlers/exec.rs:164-205 | for every way a stream is split into reads: exactly the first min(max, total) bytes, truncated if and only if there were more, and the whole stream consumed |
| ExecRun.OutputIsJoined | membrane-daemon/src/handlers/exec.rs:164-187 | a stream is what its reads deliver up to the first end of file, empty read or error |
| ExecRun.Drain | membrane-daemon/src/handlers/exec.rs:179-184 | draining reads up to and including the call that ends the stream |
| ExecRun.Poll | membrane-daemon/src/handlers/exec.rs:96-122 | the polling loop stops at the first poll that decides and reports what it saw |
| ExecRun.PollsAreBounded | membrane-daemon/src/handlers/exec.rs:94-122 | at most one poll per 25 ms of timeout plus one, and a timeout exactly if a poll finds the child running at or after the deadline |
| InterleavingSafety.StepKeeps | membrane-daemon/src/tunnel.rs:148-162 | the invariant over files, temp files, versions and task positions is kept by every step of every task, by errors, by process death and by power loss |
| InterleavingSafety.RunKeeps | membrane-daemon/src/tunnel.rs:148-162 | hence by every run, and nothing a run has put in place is taken back from its history |
| InterleavingSafety.NoTornVersion | membrane-daemon/src/handlers/write_file.rs:95-107 | in every interleaving with crashes anywhere, each path holds its initial content or all the data of a write that took effect, and every completed read returns one such version |
| InterleavingWrites.StepLands | membrane-daemon/src/handlers/write_file.rs:95-107 | every step keeps that each write that took effect is a durable version of its path with all of its data |
| InterleavingWrites.StepConserves | membrane-daemon/src/handlers/write_file.rs:104-105 | a step adds a version to a path exactly when it makes a write to that path take effect |
| InterleavingWrites.EachWriteLandsOnce | membrane-daemon/src/handlers/write_file.rs:72-92 | in every run, crashes included, a path gets exactly one version per write that took effect, with all of its data, on stable storage |
| InterleavingWrites.NoTempIsLeft | membrane-daemon/src/handlers/write_file.rs:102-105 | in every run, a write that has answered, with success or an error, has left no temp file; only one killed before its rename leaves one |
| InterleavingWrites.StepStands | membrane-daemon/src/handlers/write_file.rs:104-105 | the one step that changes what stands at a path, short of a power loss that undoes a rename there, is a rename to it, and then its latest version stands |
| InterleavingWrites.RunStands | membrane-daemon/src/handlers/write_file.rs:104-105 | over any stretch of a run without such a loss, a path gains one version per rename to it; without a rename nothing changes there, with one the latest version stands |
| InterleavingWrites.LatestUnlessUndone | membrane-daemon/src/handlers/write_file.rs:104-105 | unless a power loss undoes a rename there, a path always holds its latest version |
| InterleavingWrites.PassesByCheck | membrane-daemon/src/handlers/write_file.rs:43-70 | a writer gets past its check only if the condition holds at that moment |
| InterleavingWrites.EffectNeedsMatch | membrane-daemon/src/handlers/write_file.rs:43-70 | in every run, a conditional write takes effect only if its path has had a version with the stamp it named, so it never creates a file that was never there |
| InterleavingReads.StepOrdered | membrane-daemon/src/handlers/read_file.rs:34-69 | every step keeps that a reader opens the version it has examined or a later one |
| InterleavingReads.ReadObeysCap | membrane-daemon/src/handlers/read_file.rs:59-69 | in every run, a completed read that opened the version it had examined obeys its cap |
| InterleavingReads.CheckSeesWhatWasRead | membrane-daemon/src/handlers/read_file.rs:34-80 | in every run, after a read answered (data, m), a check on m passes exactly while the version stands that the read examined; the path then holds data, unless the read opened a later version and the path has been moved back since |
| InterleavingReads.NoCrashWhileWorking | membrane-daemon/src/tunnel.rs:157-161 | a writer still at work has seen no crash |
| InterleavingReads.RenameReplacesWhatWasChecked | membrane-daemon/src/handlers/write_file.rs:43-73 | a writer passes its check on m and later renames: the version its rename replaces still has stamp m if and only if no rename to the path came in between, and is then the very version it checked |
| InterleavingReads.WriteAnswersItsStamp | membrane-daemon/src/handlers/write_file.rs:72-92 | a writer renames and later examines its path: it answers the stamp of the version that stands then, which is that of its own file if no other rename to the path came in between, and with distinct stamps only then |
| SoloWrite.SoloWriteIsSerial | membrane-daemon/src/handlers/write_file.rs:43-92 | any run of a writer's system calls by itself ends as the serial handler does: all of the data in place and its stamp answered, or every file as it was and an error; if no call fails it is refused exactly if the condition fails, and otherwise answers the stamp of the file it left |
| SoloRead.SoloReadIsSerial | membrane-daemon/src/handlers/read_file.rs:33-92 | any run of a reader's system calls by itself ends as the serial handler does: the whole file and its stamp; if no call fails, refused only for a missing file or one over the cap |
| SoloRead.WriterCanEnd | membrane-daemon/src/handlers/write_file.rs:95-107 | from every reachable state, whatever the others have done, a writer that was not killed can end by itself without a failing call, writing in pieces of any size |
| SoloRead.ReaderCanEnd | membrane-daemon/src/handlers/read_file.rs:68-92 | so can a reader |
| SoloRead.AnswerStands | membrane-daemon/src/tunnel.rs:157-161 | what a task has answered stays answered through any moves, crashes and power losses |
| InterleavingLimits.BothConditionalWritesCommit | membrane-daemon/src/handlers/write_file.rs:43-73 | from an initial state, a run in which two writes conditional on the same stamp both take effect |
| InterleavingLimits.ReusedStampFoolsCheck | membrane-daemon/src/handlers/read_file.rs:80 | from an initial state, a run in which a reused stamp lets the check pass on other content |
| InterleavingLimits.UndoneRenameFoolsCheck | membrane-daemon/src/handlers/write_file.rs:104-105 | from an initial state, a run in which a rename undone by a power loss does, although stamps are distinct |
| InterleavingLimits.ReadMayExceedCap | membrane-daemon/src/handlers/read_file.rs:34-69 | from an initial state, a run in which a longer version put in place between stat and open is read whole |
| InterleavingLimits.LossMayTear | membrane-daemon/src/handlers/write_file.rs:10-12 | a power loss can leave anything in a file that was not synced |
| InterleavingLimits.LossMayUndo | membrane-daemon/src/handlers/write_file.rs:10-12 | and put any earlier version of a path back |
| Paths.WalkEndsAtNode | membrane-daemon/src/config.rs:65 | resolution ends at an existing node that is no link |
| Paths.CanonicalResolves | membrane-daemon/src/config.rs:65 | a canonical path resolves to the node it spells |
| Paths.LinkMeansItsTarget | membrane-daemon/src/config.rs:65 | a link in the middle of a path stands for its target: for the whole way so far if that is absolute, for the link alone if it is relative |
| Paths.DotDotTakesBack | membrane-daemon/src/config.rs:65 | a dot-dot after a directory takes back its name, and at the root does nothing |
| Paths.FortyLinksResolve | membrane-daemon/src/config.rs:65 | a chain of links resolves to its end if and only if it has at most forty |
| Paths.NoRoots | membrane-daemon/src/config.rs:64 | without roots every path is allowed, and with an empty list of them none |
| Paths.PartsGoOn | membrane-daemon/src/config.rs:68 | the prefix check compares names and dot-dots one by one and skips dots |
| Paths.FirstParts | membrane-daemon/src/config.rs:68 | after the root directory or, in a relative path, a dot at its front |
| Paths.AllowedIff | membrane-daemon/src/config.rs:63-70 | what the check admits, for every path: one that resolves, exactly if a root resolves to an ancestor of the node touched or is an unresolvable root of one described shape; one that does not, exactly if its spelling continues a root |
| Paths.ProperRootsConfine | membrane-daemon/src/config.rs:63-70 | with non-empty, dot-free or existing roots, whatever a path leads to is admitted exactly if it is under a root, through any links and dot-dots; a root that does not resolve admits nothing |
| Paths.ConfinesIff | membrane-daemon/src/config.rs:63-70 | exactly which root lists confine every path that resolves |
| Placement.MakeExtends | membrane-daemon/src/handlers/write_file.rs:99-101 | making missing directories leaves everything that stood as it was |
| Placement.MadeIsReached | membrane-daemon/src/handlers/write_file.rs:99-104 | once they are made, the parent leads where the making ended, so that is where the rename goes |
| Placement.LandsUnderItsName | membrane-daemon/src/handlers/write_file.rs:96-105 | only a path that ends in a name is written, under that name, in what its directory part leads to once that has been made |
| Placement.DanglingLinkStops | membrane-daemon/src/handlers/write_file.rs:99-101 | nothing is made where a link leads to nothing: with such a link on the way the making fails |
| Placement.LandsInsideIff | membrane-daemon/src/config.rs:63-70 | wherever a write puts its file, directories made and left included: under a root if and only if the longest existing part of the place passes the check |
| Placement.LandingIsThere | membrane-daemon/src/handlers/write_file.rs:104 | a path that leads to a node lands where something stands |
| Placement.NewFileInsideIff | membrane-daemon/src/config.rs:63-70 | where no directory that is made is left again: a write that finds no node at its place, or a link, lands under a root if and only if its nearest existing parent passes the check |
| Placement.StraightIsLanding | membrane-daemon/src/handlers/write_file.rs:96-104 | such a path lands straight below its nearest existing parent |
| Placement.OldFileInsideIff | membrane-daemon/src/config.rs:63-70 | a write that replaces a file its path leads to lands there, and under a root if and only if the path passes the check |
| Placement.PlainSpellingConfines | membrane-daemon/src/config.rs:65 | with roots that exist, the check on a new file spelled plainly (absolute, no links, no dots) does say whether it lands under a root |
| Placement.SpellingDoesNotConfine | membrane-daemon/src/config.rs:65 | in general it does not: a tree, a root and a path that passes the check and lands under no root |
| Placement.ParentDoesNotDecide | membrane-daemon/src/handlers/write_file.rs:99-101 | nor does the nearest existing parent decide for every path: one that has a directory made under the root and leaves it, and the root, again |
| Confinement.ReadStaysInside | membrane-daemon/src/handlers/read_file.rs:21-92 | whatever a rooted daemon answers a read with is the contents of a file under a root, the one the path leads to |
| Confinement.ListStaysInside | membrane-daemon/src/handlers/list_dir.rs:20-76 | whatever it answers a listing with are entries of a directory under a root, the one the path leads to |
| Confinement.RefusedIffOutside | membrane-daemon/src/config.rs:63-70 | a read, a listing or (where the mode lets it) a write of a path that leads to a node is refused as outside if and only if that node is under no root |
| Confinement.WriteLandsInsideIff | membrane-daemon/src/handlers/write_file.rs:33-92 | a successful write changes exactly the file at its landing place, and that is under a root if and only if what exists of the place passes the check |
| Confinement.StraightWriteLandsInsideIff | membrane-daemon/src/handlers/write_file.rs:95-107 | where no directory that is made is left again, it is under a root if and only if its nearest existing parent passes the check |
| Confinement.RewriteStaysInside | membrane-daemon/src/handlers/write_file.rs:33-92 | a write whose path leads to a node, and every conditional write, changes only a file under a root, unless it replaces a link |
| Configuration.PolicyFiles.Execute | membrane-daemon/src/main.rs:238-274 | a mode or pairing command loads, edits one field and saves; a refused command changes nothing, and an accepted pairing stores its pin |
| Configuration.EditIs | membrane-daemon/src/pairing.rs:119-140 | a pairing is accepted exactly with a readable token whose pin is 64 hex digits and changes the endpoint alone; a mode changes the policy alone |
| Configuration.ModeWords | membrane-daemon/src/main.rs:244-267 | which words and arguments give which mode; anything else is refused |
| Configuration.ModesAre | membrane-daemon/src/config.rs:52-76 | which modes have roots, and that all but one allow writing |
| Configuration.LoadedAlone | membrane-daemon/src/config.rs:156-180 | what is loaded without a policy file, or with one only: its values, with at most ten minutes for a command |
| Configuration.ReloadAfterRun | membrane-daemon/src/config.rs:156-217 | after any run of commands a reload gives the system's value of every field it sets off default, else the last value set, else the value before; limits never move |
| Configuration.OverridesIff | membrane-daemon/src/config.rs:202-217 | a loaded field is the system's if and only if the system sets it off its default or the user leaves it there |
| Configuration.DefaultDoesNotOverride | membrane-daemon/src/config.rs:207-208 | a system file that asks for the default does not get it |
| Configuration.RemovalIsSeenIff | membrane-daemon/src/main.rs:269-270 | after an accepted command, taking the system file away changes what is loaded unless the system agrees on the one field the command edits |
| Configuration.SystemValuesOutliveTheSystemFile | membrane-daemon/src/main.rs:238-274 | for every run of commands, what is loaded once the system file is gone: what the last accepted command set, and in the other fields the system's value where it set one, else the last value set; and exactly when that differs from what was loaded with it |
| Configuration.OwnChoiceIsOverwritten | membrane-daemon/src/pairing.rs:134-140 | a run after which the user's own mode is replaced by that of a system file that is gone |
| Configuration.LoadedTimeoutIsCapped | membrane-daemon/src/config.rs:169-180 | no request makes a loaded configuration wait more than ten minutes |
| Configuration.TimeoutIs | membrane-daemon/src/config.rs:177-180 | a request for no time or for more than is configured gets what is configured; any other gets what it asks for |
| Pins.PinHex | membrane-daemon/src/pairing.rs:185-192 | the loop writes the digest in lower-case hex |
| Pins.HexSpells | membrane-daemon/src/pairing.rs:185-192 | the text has two lower-case digits for each byte, the high one first |
| Pins.DecodeHex | membrane-daemon/src/tunnel.rs:369-388 | the loop decodes trimmed hex text and refuses odd lengths and other characters |
| Pins.HexTextDecodes | membrane-daemon/src/tunnel.rs:369-388 | hex text decodes to the bytes whose hex is that text up to letter case |
| Pins.PinRoundTrip | membrane-daemon/src/pairing.rs:185-192 | every digest is read back from its pin, and the pin is one that pairing accepts |
| Pins.AcceptedPinVerifies | membrane-daemon/src/tunnel.rs:323-346 | an accepted pin decodes to 32 bytes, and the verifier then accepts exactly the certificates whose own pin is that text up to letter case |
| Pins.SamePinIff | membrane-daemon/src/pairing.rs:119-126 | two accepted pins decode equally exactly if they differ only in letter case |
| Pins.VerifierIs | membrane-daemon/src/tunnel.rs:323-388 | for every pin file: hex text between whitespace admits exactly the certificates whose own pin is that text up to letter case, and any other file those whose digest it is byte for byte |
| Text.TrimOfPadded | membrane-daemon/src/tunnel.rs:370 | trimming removes exactly the whitespace around a trimmed text |
| Text.TrimSplit | membrane-daemon/src/main.rs:330 | every text is its trimmed self between whitespace |
| Text.AsciiWhitespace | membrane-daemon/src/main.rs:330 | which ASCII characters are trimmed |
| CloudUrl.StripOne | membrane-daemon/src/main.rs:350-356 | one pass strips the first listed suffix that matches and the slashes before it |
| CloudUrl.Strip | membrane-daemon/src/main.rs:330-359 | trimming and at most six passes compute the normal form for any list of non-empty suffixes |
| CloudUrl.NormaliseCloudUrl | membrane-daemon/src/main.rs:329-360 | the function does so for its own list |
| CloudUrl.SuffixesAreApart | membrane-daemon/src/main.rs:335-347 | no listed suffix is a suffix of another |
| CloudUrl.OrderIsIrrelevant | membrane-daemon/src/main.rs:335-358 | so the order of the list never matters, on any input |
| CloudUrl.RecoversBase | membrane-daemon/src/main.rs:329-360 | from a clean base with any number of known paths pasted after it, with any slashes between and after and whitespace around, the last six come off; with at most six the result is the base |
| CloudUrl.KnownPathsComeOff | membrane-daemon/src/main.rs:329-360 | with the daemon's own eleven paths: up to six of them, with any slashes and whitespace, come off a base that ends in none of them |
| CloudUrl.OnlyPartsAreRemoved | membrane-daemon/src/main.rs:329-360 | on every input the result is a prefix of the trimmed input, and only slashes and at most six listed suffixes come off |
| CloudUrl.FixedIffClean | membrane-daemon/src/main.rs:329-360 | the fixed points are the trimmed strings that end in neither a slash nor a listed suffix |
| CloudUrl.IdempotentIff | membrane-daemon/src/main.rs:331-334 | normalising twice is normalising once exactly on clean bases with at most six known paths after them |
| CloudUrl.SevenPathsAreTooMany | membrane-daemon/src/main.rs:335-348 | with the list of the source, seven pasted paths take two rounds |
| Calendar.DatesAdvance | membrane-daemon/src/audit.rs:89 | later days have later dates |
| Calendar.DateIsOfDay | membrane-daemon/src/audit.rs:89 | each day's date is the Gregorian date of that day, by a closed formula for the days up to a date |
| Calendar.NamesAdvance | membrane-daemon/src/audit.rs:89-90 | up to the year 9999 the daily file names sort strictly as their days do |
| Calendar.NameSpellsDay | membrane-daemon/src/audit.rs:89-90 | a file name is the date's year, month and day in four, two and two decimal digits between dashes, and `.jsonl` |
| AuditLog.AppendPartitions | membrane-daemon/src/audit.rs:85-101 | appending to the day's file keeps the daily files an exact partition of the whole log |
| AuditLog.DaySortIsUnique | membrane-daemon/src/main.rs:290-300 | a log has only one stable sort by day |
| AuditLog.FilesGiveDaySort | membrane-daemon/src/main.rs:290-300 | all files read in name order are the stable sort by day of everything written |
| AuditLog.ChronologicalIsSorted | membrane-daemon/src/main.rs:290-300 | with a clock that steps back over no day this is the order of writing |
| AuditLog.ReadLines | membrane-daemon/src/main.rs:295-299 | reading a file keeps the entries from the given time on |
| AuditLog.SinceSelects | membrane-daemon/src/main.rs:298 | what is kept are exactly the entries at or after the given time, in order and as often as they are there |
| AuditLog.OfDaySelects | membrane-daemon/src/audit.rs:89 | the entries of a day are exactly those of its 24 hours, in order and as often as they are there |
| AuditAppends.ReadBackIsAlone | membrane-daemon/src/main.rs:295-297 | the audit command reads back exactly the entries that stand alone on their line |
| AuditAppends.AppendsSurviveIff | membrane-daemon/src/audit.rs:96-101 | for every interleaving of tasks, stopped and restarted anywhere: every entry is read back, in order, if and only if each line was begun with the file not ending in an unfinished one |
| AuditAppends.TwoTasksLoseBoth | membrane-daemon/src/audit.rs:99 | two tasks that append at once can lose both their entries |
| AuditAppends.SerialReadsBack | membrane-daemon/src/audit.rs:96-101 | a file written by the serial loop reads back as the entries written |
| AuditLog.LogDir.Write | membrane-daemon/src/audit.rs:85-101 | writing appends one entry to the day's file and keeps the partition, under any clock |
| AuditLog.LogDir.Gather | membrane-daemon/src/main.rs:293-300 | the loop over files collects their entries from the given time on, in file order |
| AuditLog.LogDir.ShowAudit | membrane-daemon/src/main.rs:289-314 | after any run of writes, in any enumeration order, the command counts exactly the entries at or after the given time and shows the last `limit` of them, or all, in the stable day order in general and in the order of writing under a clock that steps back over no day |

## Left out

- The bincode layout itself, including size limits of the library, is an assumption; so are the TOML and JSON texts of policies and audit lines, which are kept as the values they serialise.
- QUIC, TLS, certificates, enrolment, DNS, reconnecting, endpoint parsing and pairing tokens: network I/O and foreign libraries. BLAKE3 is any function to 32 bytes.
- Services, paths of the platform, command-line parsing, printing and tracing. The mode word is taken as already lower-cased, and the `--since` argument as already parsed.
- Handlers.Daemon.HandleExec: what a command does to the disk is not modelled, so theorems about files speak of commands that leave those files alone; the working directory and environment of the child are left out, and the two reader threads are run one after the other, after the wait. A panicking reader and the joins after a kill are not modelled.
- Whether a command is in the allowlist is a given predicate in `Site`. What paths lead to, and the policy's verdict on them, are drawn for each request; `Confinement.Shows` is what a tree makes of them. Sizes and contents of directories and special files are not modelled: a request on one is answered by the oracle's errors.
- Handlers.Daemon.HandleList: the raw directory items come from the oracle; `Confinement.ListsPath` ties them to a tree.
- Sessions.NoLostUpdate: speaks of runs without outside writers; for concurrent tasks see RenameReplacesWhatWasChecked.
- Interleaving is a transition system on values, not a class: any number of tasks share one state, and the proofs compare arbitrary states of a run. Paths are entries a request resolves to, and the final component of a write is not a symbolic link. Directory fsync is left out: a rename may be undone by a power loss.
- Confinement: the tree does not change between the check of a request and its use, and roots are judged as they stand then, so a root that does not exist yet encloses nothing. `create_dir_all` is modelled by what it makes; its failures half way are I/O errors, and directories it made stay.
- AuditLog.LogDir.Write: is one append here, as in the serial loop; an append that is split or comes in between another is the subject of AuditAppends.
- AuditLog.LogDir.ShowAudit: foreign and unreadable files in the audit directory, the column format of the output and years past 9999 are left out.
- Configuration.PolicyFiles.Execute: the certificate file and I/O errors while saving are left out.
- Pins.AcceptedPinVerifies: certificate parsing and handshake signatures are not part of this model.
