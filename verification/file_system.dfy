/** What the `File` classes share: the open mode, the tables that turn it into the arguments of
    `open` and `CreateFileW`, the executable-bit arithmetic, and the operating-system calls, each
    an oracle that is a fixed function of its arguments (the file system does not change between
    calls in this model). */
module FileSystem {
  import opened Wrappers
  import opened Platform
  import opened FileHandle

  /** `enum class FileMode : u8 { READ, WRITE, READ_WRITE }` */
  datatype FileMode = Read | Write | ReadWrite

  // POSIX `open` flags. `O_CREAT` differs between Linux and macOS.
  const O_RDONLY: bv32 := 0
  const O_RDWR: bv32 := 2
  const O_ACCMODE: bv32 := 3
  function OCreat(p: Posix): bv32 { if p.Linux? then 0x40 else 0x200 }
  function OExcl(p: Posix): bv32 { if p.Linux? then 0x80 else 0x800 }

  // Permission bits of `<sys/stat.h>`.
  const S_IRUSR: bv32 := 0x100
  const S_IWUSR: bv32 := 0x80
  const S_IXUSR: bv32 := 0x40
  const S_IRGRP: bv32 := 0x20
  const S_IWGRP: bv32 := 0x10
  const S_IXGRP: bv32 := 0x8
  const S_IROTH: bv32 := 0x4
  const S_IWOTH: bv32 := 0x2
  const S_IXOTH: bv32 := 0x1

  const READ_BITS: bv32 := S_IRUSR | S_IRGRP | S_IROTH
  const WRITE_BITS: bv32 := S_IWUSR | S_IWGRP | S_IWOTH
  const EXEC_BITS: bv32 := S_IXUSR | S_IXGRP | S_IXOTH

  /** The access flags of the mode table: read-only for `READ`, read-write otherwise. */
  function PosixAccess(mode: FileMode): (access: bv32)
    ensures mode.Read? <==> access == O_RDONLY
    ensures !mode.Read? <==> access == O_RDWR
  {
    if mode.Read? then O_RDONLY else O_RDWR
  }

  /** The permission bits of the mode table. */
  function PosixPermissions(mode: FileMode): (perms: bv32)
    ensures perms & READ_BITS == (if mode.Write? then 0 else READ_BITS)
    ensures perms & WRITE_BITS == (if mode.Read? then 0 else WRITE_BITS)
    ensures perms & EXEC_BITS == 0
    ensures perms & !(READ_BITS | WRITE_BITS) == 0
  {
    match mode
    case Read => READ_BITS
    case Write => WRITE_BITS
    case ReadWrite => READ_BITS | WRITE_BITS
  }

  /** The flags passed to `open`: the access flags, plus `O_CREAT` when the path does not exist. */
  function PosixOpenFlags(p: Posix, mode: FileMode, pathExists: bool): (flags: bv32)
    ensures flags & O_ACCMODE == PosixAccess(mode)
    ensures flags & OCreat(p) != 0 <==> !pathExists
    ensures flags & !(O_ACCMODE | OCreat(p)) == 0
  {
    if pathExists then PosixAccess(mode) else PosixAccess(mode) | OCreat(p)
  }

  // Windows `CreateFileW` arguments.
  const GENERIC_READ: bv32 := 0x8000_0000
  const GENERIC_WRITE: bv32 := 0x4000_0000
  const CREATE_NEW: nat := 1
  const OPEN_EXISTING: nat := 3

  /** The desired-access table of the Windows `File`. */
  function WindowsAccess(mode: FileMode): (access: bv32)
    ensures access & GENERIC_READ != 0 <==> !mode.Write?
    ensures access & GENERIC_WRITE != 0 <==> !mode.Read?
    ensures access & !(GENERIC_READ | GENERIC_WRITE) == 0
  {
    match mode
    case Read => GENERIC_READ
    case Write => GENERIC_WRITE
    case ReadWrite => GENERIC_READ | GENERIC_WRITE
  }

  /** `OPEN_EXISTING` for a path that exists, `CREATE_NEW` otherwise. */
  function Disposition(pathExists: bool): (d: nat)
    ensures d == OPEN_EXISTING <==> pathExists
    ensures d == CREATE_NEW <==> !pathExists
  {
    if pathExists then OPEN_EXISTING else CREATE_NEW
  }

  /** The mode `set_executable` hands to `fchmod`: all three execute bits set, or all cleared. */
  function ExecMode(mode: bv32, executable: bool): (r: bv32)
    ensures executable ==> r & EXEC_BITS == EXEC_BITS
    ensures !executable ==> r & EXEC_BITS == 0
    ensures r & !EXEC_BITS == mode & !EXEC_BITS
  {
    if executable then mode | EXEC_BITS else mode & !EXEC_BITS
  }

  /** `is_executable`: any one of the three execute bits. */
  predicate HasExecBit(mode: bv32)
  {
    (mode & S_IXUSR == S_IXUSR) || (mode & S_IXGRP == S_IXGRP) || (mode & S_IXOTH == S_IXOTH)
  }

  /** Setting makes a file executable, clearing makes it not, and applying either twice is the
      same as applying it once; the test reads exactly the execute bits. */
  lemma ExecBitLaws(mode: bv32, executable: bool)
    ensures HasExecBit(ExecMode(mode, executable)) == executable
    ensures ExecMode(ExecMode(mode, executable), executable) == ExecMode(mode, executable)
    ensures HasExecBit(mode) <==> mode & EXEC_BITS != 0
  {
    var m := ExecMode(mode, executable);
    assert HasExecBit(m) <==> m & EXEC_BITS != 0 by {
      ExecBitsAnyOf(m);
    }
    ExecBitsAnyOf(mode);
  }

  lemma ExecBitsAnyOf(mode: bv32)
    ensures HasExecBit(mode) <==> mode & EXEC_BITS != 0
  {
    assert mode & EXEC_BITS == (mode & S_IXUSR) | (mode & S_IXGRP) | (mode & S_IXOTH);
  }

  /** A signed 64-bit value, the type of `st_size` and `LARGE_INTEGER::QuadPart`. */
  type i64 = x: int | -0x8000_0000_0000_0000 <= x < 0x8000_0000_0000_0000

  /** What `fstat` reports: `st_mode` and the signed `st_size`. */
  datatype Stat = Stat(mode: bv32, size: i64)

  /** The POSIX calls the `File` classes make, on descriptors. */
  datatype PosixOs = PosixOs(
    fileExists: string -> bool,
    open: (string, bv32, bv32) -> int,
    close: int -> bool,
    fstat: int -> Option<Stat>,
    fchmod: (int, bv32) -> bool,
    ftruncate: (int, int) -> bool)

  /** The Windows calls the `File` classes make, on handle values. */
  datatype WindowsOs = WindowsOs(
    fileExists: string -> bool,
    initSecurityDescriptor: bool,
    createFile: (string, bv32, nat) -> int,
    closeHandle: int -> bool,
    fileSize: int -> Option<i64>,
    setFilePointer: (int, int) -> bool,
    setEndOfFile: int -> bool,
    binaryType: string -> bool)

  datatype FileError =
    | AlreadyOpened
    | NotOpened
    | SecurityDescriptorFailed
    | OpenFailed
    | CloseFailed
    | StatFailed
    | ChmodFailed
    | SetPointerFailed
    | TruncateFailed
    | ResetPointerFailed

  /** `static_cast<usize>` of a signed 64-bit value. */
  function ToUsize(x: i64): (r: usize)
    ensures x >= 0 ==> r == x
    ensures x < 0 ==> r == x + 0x1_0000_0000_0000_0000
  {
    if x >= 0 then x else x + 0x1_0000_0000_0000_0000
  }

  /** `static_cast` of a `usize` to a signed 64-bit offset. */
  function ToOffset(size: usize): (r: i64)
    ensures size < 0x8000_0000_0000_0000 ==> r == size
    ensures ToUsize(r) == size
  {
    if size < 0x8000_0000_0000_0000 then size else size - 0x1_0000_0000_0000_0000
  }

  type usize = x: nat | x < 0x1_0000_0000_0000_0000

  /** `set_executable` on POSIX: read the mode, then write it back with the execute bits set or
      cleared. */
  function PosixSetExecutable(os: PosixOs, h: FileHandle, executable: bool): (r: Outcome<FileError>)
    ensures os.fstat(h.value).None? ==> r == Fail(StatFailed)
    ensures os.fstat(h.value).Some? ==>
              (r.Pass? <==> os.fchmod(h.value, ExecMode(os.fstat(h.value).value.mode, executable)))
    ensures r.Fail? ==> r.error in {StatFailed, ChmodFailed}
  {
    match os.fstat(h.value)
    case None => Fail(StatFailed)
    case Some(st) => if os.fchmod(h.value, ExecMode(st.mode, executable)) then Pass else Fail(ChmodFailed)
  }

  /** `is_executable` on POSIX, once the handle is known to be usable. */
  function PosixIsExecutable(os: PosixOs, h: FileHandle): (r: Result<bool, FileError>)
    ensures os.fstat(h.value).None? <==> r == Failure(StatFailed)
    ensures os.fstat(h.value).Some? ==> r == Success(HasExecBit(os.fstat(h.value).value.mode))
  {
    match os.fstat(h.value)
    case None => Failure(StatFailed)
    case Some(st) => Success(HasExecBit(st.mode))
  }

  /** `get_size` on POSIX: `st_size` as a `usize`. */
  function PosixSize(os: PosixOs, h: FileHandle): (r: Result<usize, FileError>)
    ensures os.fstat(h.value).None? <==> r == Failure(StatFailed)
    ensures os.fstat(h.value).Some? && os.fstat(h.value).value.size >= 0 ==>
              r == Success(os.fstat(h.value).value.size)
  {
    match os.fstat(h.value)
    case None => Failure(StatFailed)
    case Some(st) => Success(ToUsize(st.size))
  }

  /** `resize` on POSIX: `ftruncate` to the size as a signed offset. */
  function PosixResize(os: PosixOs, h: FileHandle, size: usize): (r: Outcome<FileError>)
    ensures r.Pass? <==> os.ftruncate(h.value, ToOffset(size))
    ensures r.Fail? ==> r.error == TruncateFailed
  {
    if os.ftruncate(h.value, ToOffset(size)) then Pass else Fail(TruncateFailed)
  }

  /** `get_size` on Windows: `GetFileSizeEx`, as a `usize`. */
  function WindowsSize(os: WindowsOs, h: FileHandle): (r: Result<usize, FileError>)
    ensures os.fileSize(h.value).None? <==> r == Failure(StatFailed)
    ensures os.fileSize(h.value).Some? && os.fileSize(h.value).value >= 0 ==>
              r == Success(os.fileSize(h.value).value)
  {
    match os.fileSize(h.value)
    case None => Failure(StatFailed)
    case Some(q) => Success(ToUsize(q))
  }

  /** `resize` on Windows: move the file pointer to the size, cut the file there, move the
      pointer back to the start. The first call that fails decides the error. */
  function WindowsResize(os: WindowsOs, h: FileHandle, size: usize): (r: Outcome<FileError>)
    ensures r.Pass? <==> os.setFilePointer(h.value, ToOffset(size)) && os.setEndOfFile(h.value)
                         && os.setFilePointer(h.value, 0)
    ensures !os.setFilePointer(h.value, ToOffset(size)) ==> r == Fail(SetPointerFailed)
    ensures os.setFilePointer(h.value, ToOffset(size)) && !os.setEndOfFile(h.value) ==> r == Fail(TruncateFailed)
    ensures r == Fail(ResetPointerFailed) ==> os.setEndOfFile(h.value) && !os.setFilePointer(h.value, 0)
  {
    if !os.setFilePointer(h.value, ToOffset(size)) then Fail(SetPointerFailed)
    else if !os.setEndOfFile(h.value) then Fail(TruncateFailed)
    else if !os.setFilePointer(h.value, 0) then Fail(ResetPointerFailed)
    else Pass
  }
}
