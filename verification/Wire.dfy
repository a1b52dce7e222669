/** The messages of the wire protocol: one Request per RPC, answered by one Response. */
module Wire {
  import opened Base

  datatype ReadFileReq = ReadFileReq(path: string, maxBytes: u64)
  datatype ReadFileResp = ReadFileResp(data: seq<byte>, mtime: i64, size: u64)

  datatype WriteFileReq = WriteFileReq(path: string, data: seq<byte>, ifMtimeMatches: Option<i64>)
  datatype WriteFileResp = WriteFileResp(mtime: i64)

  datatype ListDirReq = ListDirReq(path: string)
  datatype DirEntry = DirEntry(name: string, isDir: bool, size: u64)
  datatype ListDirResp = ListDirResp(entries: seq<DirEntry>)

  datatype ExecReq = ExecReq(command: string, timeoutMs: u32, maxOutputBytes: u64)
  datatype ExecResp = ExecResp(stdout: seq<byte>, stderr: seq<byte>, exitCode: Option<i32>,
                               durationMs: u32, timedOut: bool, outputTruncated: bool)

  datatype DaemonError =
    | PathNotAllowed(path: string)
    | NotFound(path: string)
    | PermissionDenied(message: string)
    | Io(message: string)
    | SizeLimitExceeded(requested: u64, max: u64)
    | Timeout
    | MtimeMismatch(expected: i64, actual: i64)
    | Other(message: string)

  type DaemonResult<+T> = Result<T, DaemonError>

  datatype Request =
    | ReadFile(readFile: ReadFileReq)
    | WriteFile(writeFile: WriteFileReq)
    | ListDir(listDir: ListDirReq)
    | Exec(exec: ExecReq)
    | Ping

  datatype Response =
    | ReadFileResult(readFile: DaemonResult<ReadFileResp>)
    | WriteFileResult(writeFile: DaemonResult<WriteFileResp>)
    | ListDirResult(listDir: DaemonResult<ListDirResp>)
    | ExecResult(exec: DaemonResult<ExecResp>)
    | Pong
}
