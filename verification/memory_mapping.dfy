/** `memory_mapping.hpp` and the tables every mapping shares: the `MappingAccess` flags, the
    conversions between them and a file's open mode, and the protection and flag words that
    `mmap`, `CreateFileMappingW` and `MapViewOfFileEx` receive. */
module MemoryMapping {
  import opened Platform
  import opened Wrappers
  import opened FileSystem

  /** Why a mapping operation failed. */
  datatype MapError =
    | AlreadyMapped
    | NotMapped
    | FileFailed(cause: FileError)
    | ZeroSize
    | SecurityDescriptorFailed
    | HandleFailed
    | MapFailed
    | UnmapFailed
    | SyncFailed

  /** Two operators of the kstd headers this code relies on, whose definitions are not part of
      this model: `flagTest(access, flag)` is the value of `!(access & flag)`, which the code
      takes as "the flag is set"; `notExecutable(r)` is the value of `!r` for the result of
      `File::is_executable`. */
  datatype Operators = Operators(
    flagTest: (Access, Access) -> bool,
    notExecutable: Result<bool, FileError> -> bool)

  /** `MappingAccess`, a `u8` bit set. */
  type Access = bv8

  const NONE: Access := 0
  const READ: Access := 0x01
  const WRITE: Access := 0x02
  const EXECUTE: Access := 0x04

  /** `(access & flag) == flag`, the flag test of the header and of the older mappings. */
  predicate Has(access: Access, flag: Access)
  {
    access & flag == flag
  }

  /** `derive_file_mode` as written: the `READ` and `WRITE` results are exchanged, so a mapping
      that only reads opens its file for writing and one that only writes opens it read-only. */
  function DeriveFileModeAsWritten(access: Access): (mode: FileMode)
    ensures Has(access, READ) && Has(access, WRITE) ==> mode == ReadWrite
    ensures !Has(access, READ) && Has(access, WRITE) ==> mode == Read
    ensures !Has(access, WRITE) ==> mode == Write
  {
    var readable := Has(access, READ);
    var writable := Has(access, WRITE);
    if readable && writable then ReadWrite
    else if writable then Read
    else Write
  }

  /** `derive_file_mode` with the two branches the right way round: the file is opened for
      writing exactly when the mapping writes, and for reading otherwise. */
  function DeriveFileMode(access: Access): (mode: FileMode)
    ensures mode.Read? <==> !Has(access, WRITE)
    ensures mode.Write? <==> Has(access, WRITE) && !Has(access, READ)
    ensures mode.ReadWrite? <==> Has(access, WRITE) && Has(access, READ)
  {
    var readable := Has(access, READ);
    var writable := Has(access, WRITE);
    if readable && writable then ReadWrite
    else if writable then Write
    else Read
  }

  /** `derive_access`: the flags a file mode stands for. */
  function DeriveAccess(mode: FileMode): (access: Access)
    ensures Has(access, READ) <==> !mode.Write?
    ensures Has(access, WRITE) <==> !mode.Read?
    ensures !Has(access, EXECUTE)
  {
    match mode
    case Write => WRITE
    case ReadWrite => READ | WRITE
    case Read => READ
  }

  /** As written, a mode survives the trip through flags and back only when it is `READ_WRITE`:
      `READ` comes back as `WRITE` and `WRITE` as `READ`. */
  lemma RoundTripAsWritten(mode: FileMode)
    ensures DeriveFileModeAsWritten(DeriveAccess(mode)) == mode <==> mode.ReadWrite?
    ensures mode.Read? ==> DeriveFileModeAsWritten(DeriveAccess(mode)) == Write
    ensures mode.Write? ==> DeriveFileModeAsWritten(DeriveAccess(mode)) == Read
  {
  }

  /** With the branches exchanged back, every mode survives the round trip. */
  lemma RoundTrip(mode: FileMode)
    ensures DeriveFileMode(DeriveAccess(mode)) == mode
  {
  }

  /** `EXECUTE` and any bit above it play no part in either direction. */
  lemma ExecuteIgnored(access: Access)
    ensures DeriveFileMode(access | EXECUTE) == DeriveFileMode(access)
    ensures DeriveFileModeAsWritten(access | EXECUTE) == DeriveFileModeAsWritten(access)
    ensures DeriveFileMode(access & (READ | WRITE)) == DeriveFileMode(access)
  {
    assert Has(access | EXECUTE, READ) == Has(access, READ);
    assert Has(access | EXECUTE, WRITE) == Has(access, WRITE);
    assert Has(access & (READ | WRITE), READ) == Has(access, READ);
    assert Has(access & (READ | WRITE), WRITE) == Has(access, WRITE);
  }

  // `mmap` protection and flags.
  const PROT_READ: bv32 := 0x1
  const PROT_WRITE: bv32 := 0x2
  const PROT_EXEC: bv32 := 0x4
  const MAP_SHARED: bv32 := 0x01
  const MAP_FILE: bv32 := 0
  /** Linux only; macOS has no such flag. */
  const MAP_EXECUTABLE: bv32 := 0x1000
  /** `(void*)-1`, what `mmap` returns when it fails. */
  const MAP_FAILED: int := 0xFFFF_FFFF_FFFF_FFFF
  /** `nullptr` */
  const NULL: int := 0

  /** The `prot` argument: one bit per granted kind of access. */
  function PosixProt(readable: bool, writable: bool, executable: bool): (prot: bv32)
    ensures prot & PROT_READ != 0 <==> readable
    ensures prot & PROT_WRITE != 0 <==> writable
    ensures prot & PROT_EXEC != 0 <==> executable
    ensures prot & !(PROT_READ | PROT_WRITE | PROT_EXEC) == 0
  {
    (if readable then PROT_READ else 0) | (if writable then PROT_WRITE else 0) | (if executable then PROT_EXEC else 0)
  }

  /** The `flags` argument: a shared mapping, executable on Linux when the mapping executes. */
  function PosixMapFlags(p: Posix, executable: bool): (flags: bv32)
    ensures flags & MAP_SHARED != 0
    ensures flags & MAP_EXECUTABLE != 0 <==> p.Linux? && executable
  {
    if p.Linux? && executable then MAP_SHARED | MAP_FILE | MAP_EXECUTABLE else MAP_SHARED | MAP_FILE
  }

  /** `mmap` with `MAP_SHARED` and `PROT_WRITE` needs a descriptor opened for reading and
      writing. With the corrected mode table a mapping whose flags ask to write always opens
      its file that way; as written, a mapping that only writes opens it read-only. */
  lemma SharedWriteNeedsReadWrite(access: Access)
    ensures Has(access, WRITE) ==> PosixAccess(DeriveFileMode(access)) == O_RDWR
    ensures PosixAccess(DeriveFileModeAsWritten(WRITE)) == O_RDONLY
    ensures PosixProt(Has(WRITE, READ), Has(WRITE, WRITE), false) & PROT_WRITE != 0
  {
  }

  // `CreateFileMappingW` page protections and `MapViewOfFileEx` access rights.
  const PAGE_READONLY: bv32 := 0x02
  const PAGE_READWRITE: bv32 := 0x04
  const PAGE_EXECUTE_READ: bv32 := 0x20
  const PAGE_EXECUTE_READWRITE: bv32 := 0x40
  const FILE_MAP_WRITE: bv32 := 0x0002
  const FILE_MAP_READ: bv32 := 0x0004
  const FILE_MAP_ALL_ACCESS: bv32 := 0x000F_001F
  const FILE_MAP_EXECUTE: bv32 := 0x0020

  /** The page protection: writable pages when the mapping writes, read-only ones when it only
      reads, executable variants of either when it executes, none otherwise. */
  function PageProtection(readable: bool, writable: bool, executable: bool): (prot: bv32)
    ensures writable ==> prot == (if executable then PAGE_EXECUTE_READWRITE else PAGE_READWRITE)
    ensures !writable && readable ==> prot == (if executable then PAGE_EXECUTE_READ else PAGE_READONLY)
    ensures !writable && !readable ==> prot == 0
  {
    if writable then (if executable then PAGE_EXECUTE_READWRITE else PAGE_READWRITE)
    else if readable then (if executable then PAGE_EXECUTE_READ else PAGE_READONLY)
    else 0
  }

  /** The view access: all access for reading and writing, write or read access alone
      otherwise, plus `FILE_MAP_EXECUTE` when the mapping executes. */
  function ViewAccess(readable: bool, writable: bool, executable: bool): (access: bv32)
    ensures access & FILE_MAP_WRITE != 0 <==> writable
    ensures access & FILE_MAP_READ != 0 <==> readable
    ensures access & FILE_MAP_EXECUTE != 0 <==> executable
    ensures readable && writable ==> access & FILE_MAP_ALL_ACCESS == FILE_MAP_ALL_ACCESS
  {
    var base: bv32 :=
      if writable && readable then FILE_MAP_ALL_ACCESS
      else if writable then FILE_MAP_WRITE
      else if readable then FILE_MAP_READ
      else 0;
    if executable then base | FILE_MAP_EXECUTE else base
  }

  /** Whether a view with the given access rights may be taken of pages with the given
      protection: writing needs writable pages, executing executable ones, reading any. */
  predicate PageAllows(prot: bv32, access: bv32)
  {
    && (access & FILE_MAP_WRITE != 0 ==> prot == PAGE_READWRITE || prot == PAGE_EXECUTE_READWRITE)
    && (access & FILE_MAP_EXECUTE != 0 ==> prot == PAGE_EXECUTE_READ || prot == PAGE_EXECUTE_READWRITE)
    && (access & FILE_MAP_READ != 0 ==> prot != 0)
  }

  /** The two tables agree: whenever the mapping reads or writes, the view it asks for is one
      its pages permit. A mapping that does neither gets no protection at all. */
  lemma ProtectionCoversView(readable: bool, writable: bool, executable: bool)
    ensures readable || writable ==>
              PageAllows(PageProtection(readable, writable, executable), ViewAccess(readable, writable, executable))
    ensures !readable && !writable ==> PageProtection(readable, writable, executable) == 0
  {
  }
}
