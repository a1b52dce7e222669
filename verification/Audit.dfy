/** The events of the audit log. Message texts are kept as the facts they are formatted from. */
module Audit {
  import opened Base

  datatype Reason =
    | NotInWorkspace
    | ReadOnlyMode
    | SizeOverCap(size: nat, cap: nat)
    | MtimeDiffers(expected: i64, actual: i64)
    | MissingButExpected(expectedMtime: i64)
    | ExecDenied(why: string)

  datatype OpResult = Ok | Denied(reason: Reason) | Error(message: string)

  datatype Event =
    | Read(path: string, bytes: nat, result: OpResult)
    | Write(path: string, bytes: nat, mtimeCheck: bool, result: OpResult)
    | List(path: string, entries: nat, result: OpResult)
    | Exec(cmd: string, exitCode: Option<i32>, durationMs: u32, timedOut: bool, outputTruncated: bool, result: OpResult)
    | Lifecycle(event: string, detail: string)
}
