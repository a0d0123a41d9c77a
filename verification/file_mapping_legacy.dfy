/** `src/macos/file_mapping.cpp` and `src/windows/file_mapping.cpp`: the older `FileMapping` of
    namespace `platform::mm`, which opens and maps its file in the constructor (throwing on any
    failure), moves like the older `File`, and unmaps in its destructor. */
module LegacyMapping {
  import opened Wrappers
  import opened Platform
  import opened FileHandle
  import opened FileSystem
  import opened MemoryMapping
  import Files
  import LegacyFile

  /** The object's fields: the file, the access, the mapped address and, on Windows, the handle
      of the file-mapping object. */
  datatype Mapping = Mapping(file: Files.File, access: Access, address: int, handle: FileHandle)

  /** The default constructor: no file, no access, nothing mapped. */
  function Default(b: Build): (m: Mapping)
    ensures m.access == NONE && m.address == NULL
    ensures LegacyFile.Owned(b, m.file) == {} && !IsValid(b, m.handle)
  {
    Mapping(LegacyFile.Default(b), NONE, NULL, DefaultHandle(b))
  }

  /** The size the constructors map: the file's size, or 1 after growing an empty file (or one
      whose size cannot be read) to one byte; a failure to grow it throws. */
  function SizeToMap(size: Result<usize, FileError>, grow: Outcome<FileError>): (r: Result<usize, MapError>)
    ensures size.UnwrapOr(0) != 0 ==> r == Success(size.value)
    ensures size.UnwrapOr(0) == 0 && grow.Pass? ==> r == Success(1)
    ensures size.UnwrapOr(0) == 0 && grow.Fail? ==> r == Failure(FileFailed(grow.error))
  {
    var n := size.UnwrapOr(0);
    if n != 0 then Success(n)
    else if grow.Fail? then Failure(FileFailed(grow.error))
    else Success(1)
  }

  /** The calls of the macOS mapping. */
  datatype MacMapOs = MacMapOs(
    mmap: (usize, bv32, bv32, int) -> int,
    munmap: (int, usize) -> bool,
    msync: (int, usize) -> bool)

  /** The macOS constructor once its file is open: make the file executable when the mapping
      executes and the file does not say it is, size it, then `mmap` it with one protection bit
      per access flag. A failed `mmap` (`MAP_FAILED`, or `NULL`) throws. */
  function MacMapFile(ops: Operators, os: PosixOs, mos: MacMapOs, f: Files.File, access: Access): (r: Result<Mapping, MapError>)
    ensures r.Success? ==> r.value.file == f && r.value.access == access && r.value.handle == DefaultHandle(PosixBuild)
    ensures r.Success? ==> r.value.address != NULL && r.value.address != MAP_FAILED
    ensures r.Success? ==>
              var size := SizeToMap(PosixSize(os, f.handle), PosixResize(os, f.handle, 1));
              && size.Success?
              && r.value.address == mos.mmap(size.value, PosixProt(Has(access, READ), Has(access, WRITE), Has(access, EXECUTE)),
                                             MAP_SHARED | MAP_FILE, f.handle.value)
  {
    var readable := Has(access, READ);
    var writable := Has(access, WRITE);
    var executable := Has(access, EXECUTE);
    var exec := if executable && ops.notExecutable(PosixIsExecutable(os, f.handle)) then PosixSetExecutable(os, f.handle, true) else Pass;
    if exec.Fail? then Failure(FileFailed(exec.error))
    else match SizeToMap(PosixSize(os, f.handle), PosixResize(os, f.handle, 1))
      case Failure(e) => Failure(e)
      case Success(size) =>
        var address := mos.mmap(size, PosixProt(readable, writable, executable), MAP_SHARED | MAP_FILE, f.handle.value);
        if address == NULL || address == MAP_FAILED then Failure(MapFailed)
        else Success(Mapping(f, access, address, DefaultHandle(PosixBuild)))
  }

  /** The macOS constructor's mapping step as written: the result of `mmap` is compared against
      `nullptr` only, which `mmap` does not return on failure, so `MAP_FAILED` is kept as the
      address. */
  function MacMapFileAsWritten(ops: Operators, os: PosixOs, mos: MacMapOs, f: Files.File, access: Access): (r: Result<Mapping, MapError>)
    ensures r.Success? ==> r.value.file == f && r.value.access == access && r.value.address != NULL
    ensures r.Success? ==>
              var size := SizeToMap(PosixSize(os, f.handle), PosixResize(os, f.handle, 1));
              && size.Success?
              && r.value.address == mos.mmap(size.value, PosixProt(Has(access, READ), Has(access, WRITE), Has(access, EXECUTE)),
                                             MAP_SHARED | MAP_FILE, f.handle.value)
    ensures MacMapFile(ops, os, mos, f, access).Success? ==> r == MacMapFile(ops, os, mos, f, access)
  {
    var readable := Has(access, READ);
    var writable := Has(access, WRITE);
    var executable := Has(access, EXECUTE);
    var exec := if executable && ops.notExecutable(PosixIsExecutable(os, f.handle)) then PosixSetExecutable(os, f.handle, true) else Pass;
    if exec.Fail? then Failure(FileFailed(exec.error))
    else match SizeToMap(PosixSize(os, f.handle), PosixResize(os, f.handle, 1))
      case Failure(e) => Failure(e)
      case Success(size) =>
        var address := mos.mmap(size, PosixProt(readable, writable, executable), MAP_SHARED | MAP_FILE, f.handle.value);
        if address == NULL then Failure(MapFailed)
        else Success(Mapping(f, access, address, DefaultHandle(PosixBuild)))
  }

  /** When `mmap` fails, the constructor as written does not throw: the object holds
      `MAP_FAILED` as its address and counts as mapped, where the corrected step fails. */
  lemma MacMapFailureGoesUnnoticed(ops: Operators, os: PosixOs, mos: MacMapOs, f: Files.File, access: Access)
    requires !Has(access, EXECUTE)
    requires SizeToMap(PosixSize(os, f.handle), PosixResize(os, f.handle, 1)).Success?
    requires mos.mmap(SizeToMap(PosixSize(os, f.handle), PosixResize(os, f.handle, 1)).value,
                      PosixProt(Has(access, READ), Has(access, WRITE), false), MAP_SHARED | MAP_FILE, f.handle.value) == MAP_FAILED
    ensures MacMapFileAsWritten(ops, os, mos, f, access).Success?
    ensures MacMapFileAsWritten(ops, os, mos, f, access).value.address == MAP_FAILED
    ensures MacMapFile(ops, os, mos, f, access) == Failure(MapFailed)
  {
  }

  /** The macOS constructor: the older `File` in the mode the access implies, then the mapping. */
  function MacConstruct(ops: Operators, os: PosixOs, mos: MacMapOs, path: string, access: Access): (r: Result<Mapping, MapError>)
    ensures LegacyFile.PosixConstruct(MacOs, os, path, DeriveFileMode(access)).Failure? ==>
              r == Failure(FileFailed(LegacyFile.PosixConstruct(MacOs, os, path, DeriveFileMode(access)).error))
    ensures r.Success? ==>
              && LegacyFile.PosixConstruct(MacOs, os, path, DeriveFileMode(access)).Success?
              && r.value.file == LegacyFile.PosixConstruct(MacOs, os, path, DeriveFileMode(access)).value
              && r.value.file.path == path && r.value.file.mode == DeriveFileMode(access)
              && IsValid(PosixBuild, r.value.file.handle)
              && r.value.access == access && r.value.address != NULL
  {
    match LegacyFile.PosixConstruct(MacOs, os, path, DeriveFileMode(access))
    case Failure(e) => Failure(FileFailed(e))
    case Success(f) => MacMapFile(ops, os, mos, f, access)
  }

  /** The macOS constructor as written: the file is opened in the mode of the exchanged
      `derive_file_mode` table, then mapped with the `nullptr`-only test. */
  function MacConstructAsWritten(ops: Operators, os: PosixOs, mos: MacMapOs, path: string, access: Access): (r: Result<Mapping, MapError>)
    ensures LegacyFile.PosixConstruct(MacOs, os, path, DeriveFileModeAsWritten(access)).Failure? ==>
              r == Failure(FileFailed(LegacyFile.PosixConstruct(MacOs, os, path, DeriveFileModeAsWritten(access)).error))
    ensures r.Success? ==>
              && LegacyFile.PosixConstruct(MacOs, os, path, DeriveFileModeAsWritten(access)).Success?
              && r.value.file == LegacyFile.PosixConstruct(MacOs, os, path, DeriveFileModeAsWritten(access)).value
              && r.value.file.mode == DeriveFileModeAsWritten(access)
              && r.value.access == access && r.value.address != NULL
  {
    match LegacyFile.PosixConstruct(MacOs, os, path, DeriveFileModeAsWritten(access))
    case Failure(e) => Failure(FileFailed(e))
    case Success(f) => MacMapFileAsWritten(ops, os, mos, f, access)
  }

  /** As written, a mapping that only reads opens its file read-write (`O_RDWR`) with write-only
      permission bits, and a mapping that only writes opens it `O_RDONLY` yet asks `mmap` for
      `PROT_WRITE`. The corrected constructor opens them read-only and write-only. */
  lemma MacConstructModesAsWritten(ops: Operators, os: PosixOs, mos: MacMapOs, path: string, pathExists: bool)
    ensures MacConstructAsWritten(ops, os, mos, path, READ).Success? ==>
              MacConstructAsWritten(ops, os, mos, path, READ).value.file.mode == Write
    ensures PosixOpenFlags(MacOs, DeriveFileModeAsWritten(READ), pathExists) & O_ACCMODE == O_RDWR
    ensures PosixPermissions(DeriveFileModeAsWritten(READ)) & READ_BITS == 0
    ensures MacConstructAsWritten(ops, os, mos, path, WRITE).Success? ==>
              MacConstructAsWritten(ops, os, mos, path, WRITE).value.file.mode == Read
    ensures PosixOpenFlags(MacOs, DeriveFileModeAsWritten(WRITE), pathExists) & O_ACCMODE == O_RDONLY
    ensures PosixProt(Has(WRITE, READ), Has(WRITE, WRITE), Has(WRITE, EXECUTE)) & PROT_WRITE != 0
    ensures MacConstruct(ops, os, mos, path, READ).Success? ==> MacConstruct(ops, os, mos, path, READ).value.file.mode == Read
    ensures MacConstruct(ops, os, mos, path, WRITE).Success? ==> MacConstruct(ops, os, mos, path, WRITE).value.file.mode == Write
  {
  }

  /** The calls of the Windows mapping. */
  datatype WinMapOs = WinMapOs(
    createFileMapping: (int, bv32) -> int,
    mapView: (int, bv32) -> int,
    unmapView: int -> bool,
    closeHandle: int -> bool)

  /** The Windows constructor once its file is open: `set_executable` does nothing on Windows,
      so only the size step can fail before the file-mapping object and the view are
      requested. */
  function WinMapFile(os: WindowsOs, wos: WinMapOs, f: Files.File, access: Access): (r: Result<Mapping, MapError>)
    ensures r.Success? ==> r.value.file == f && r.value.access == access
    ensures r.Success? ==> r.value.address != NULL && IsValid(WindowsBuild, r.value.handle)
    ensures r.Success? ==>
              var readable := Has(access, READ);
              var writable := Has(access, WRITE);
              var executable := Has(access, EXECUTE);
              && r.value.handle.value == wos.createFileMapping(f.handle.value, PageProtection(readable, writable, executable))
              && r.value.address == wos.mapView(r.value.handle.value, ViewAccess(readable, writable, executable))
  {
    var readable := Has(access, READ);
    var writable := Has(access, WRITE);
    var executable := Has(access, EXECUTE);
    match SizeToMap(WindowsSize(os, f.handle), WindowsResize(os, f.handle, 1))
    case Failure(e) => Failure(e)
    case Success(_) =>
      var h := FileHandle(wos.createFileMapping(f.handle.value, PageProtection(readable, writable, executable)));
      if !IsValid(WindowsBuild, h) then Failure(HandleFailed)
      else
        var address := wos.mapView(h.value, ViewAccess(readable, writable, executable));
        if address == NULL then Failure(MapFailed)
        else Success(Mapping(f, access, address, h))
  }

  /** The Windows constructor. */
  function WinConstruct(os: WindowsOs, wos: WinMapOs, path: string, access: Access): (r: Result<Mapping, MapError>)
    ensures LegacyFile.WindowsConstruct(os, path, DeriveFileMode(access)).Failure? ==>
              r == Failure(FileFailed(LegacyFile.WindowsConstruct(os, path, DeriveFileMode(access)).error))
    ensures r.Success? ==>
              && LegacyFile.WindowsConstruct(os, path, DeriveFileMode(access)).Success?
              && r.value.file == LegacyFile.WindowsConstruct(os, path, DeriveFileMode(access)).value
              && IsValid(WindowsBuild, r.value.file.handle) && IsValid(WindowsBuild, r.value.handle)
              && r.value.access == access && r.value.address != NULL
  {
    match LegacyFile.WindowsConstruct(os, path, DeriveFileMode(access))
    case Failure(e) => Failure(FileFailed(e))
    case Success(f) => WinMapFile(os, wos, f, access)
  }

  /** The Windows constructor as written: the file is opened in the mode of the exchanged
      `derive_file_mode` table. */
  function WinConstructAsWritten(os: WindowsOs, wos: WinMapOs, path: string, access: Access): (r: Result<Mapping, MapError>)
    ensures LegacyFile.WindowsConstruct(os, path, DeriveFileModeAsWritten(access)).Failure? ==>
              r == Failure(FileFailed(LegacyFile.WindowsConstruct(os, path, DeriveFileModeAsWritten(access)).error))
    ensures r.Success? ==>
              && LegacyFile.WindowsConstruct(os, path, DeriveFileModeAsWritten(access)).Success?
              && r.value.file == LegacyFile.WindowsConstruct(os, path, DeriveFileModeAsWritten(access)).value
              && r.value.file.mode == DeriveFileModeAsWritten(access)
              && r.value.access == access && r.value.address != NULL
  {
    match LegacyFile.WindowsConstruct(os, path, DeriveFileModeAsWritten(access))
    case Failure(e) => Failure(FileFailed(e))
    case Success(f) => WinMapFile(os, wos, f, access)
  }

  /** As written, a Windows mapping that only reads opens its file with `GENERIC_WRITE` and
      without `GENERIC_READ`, yet asks for a read-only page protection and view; the corrected
      constructor opens it with `GENERIC_READ`. */
  lemma WinConstructReadAsWritten(os: WindowsOs, wos: WinMapOs, path: string)
    ensures WinConstructAsWritten(os, wos, path, READ).Success? ==>
              WinConstructAsWritten(os, wos, path, READ).value.file.mode == Write
    ensures WindowsAccess(DeriveFileModeAsWritten(READ)) & GENERIC_READ == 0
    ensures WindowsAccess(DeriveFileModeAsWritten(READ)) & GENERIC_WRITE != 0
    ensures PageProtection(Has(READ, READ), Has(READ, WRITE), Has(READ, EXECUTE)) == PAGE_READONLY
    ensures WindowsAccess(DeriveFileMode(READ)) & GENERIC_READ != 0
  {
  }

  /** The copy constructor maps the other object's path again with its access. */
  function MacCopy(ops: Operators, os: PosixOs, mos: MacMapOs, other: Mapping): (r: Result<Mapping, MapError>)
    ensures r == MacConstruct(ops, os, mos, other.file.path, other.access)
    ensures r.Success? ==> r.value.file.path == other.file.path && r.value.access == other.access
  {
    MacConstruct(ops, os, mos, other.file.path, other.access)
  }

  /** The Windows copy constructor, likewise: the other object's path mapped again with its
      access. */
  function WinCopy(os: WindowsOs, wos: WinMapOs, other: Mapping): (r: Result<Mapping, MapError>)
    ensures r == WinConstruct(os, wos, other.file.path, other.access)
    ensures r.Success? ==> r.value.file.path == other.file.path && r.value.access == other.access
  {
    WinConstruct(os, wos, other.file.path, other.access)
  }

  /** The two objects after a move. */
  datatype Moved = Moved(target: Mapping, source: Mapping)

  /** The move constructor as written: file, access and address move and the source's address
      is nulled. The Windows file-mapping handle is not in the list, so the new object starts
      with a default handle and the old one keeps the real one. */
  function MoveConstructAsWritten(b: Build, other: Mapping): (r: Moved)
    ensures r.target.file == other.file && r.target.access == other.access && r.target.address == other.address
    ensures r.target.handle == DefaultHandle(b)
    ensures r.source.address == NULL && r.source.handle == other.handle
    ensures LegacyFile.Owned(b, r.source.file) == {}
  {
    var files := LegacyFile.MoveConstruct(b, other.file);
    Moved(Mapping(files.target, other.access, other.address, DefaultHandle(b)),
          other.(file := files.source, address := NULL))
  }

  /** The move constructor with the handle moved along with the address. */
  function MoveConstruct(b: Build, other: Mapping): (r: Moved)
    ensures r.target == other
    ensures r.source.address == NULL && !IsValid(b, r.source.handle)
    ensures LegacyFile.Owned(b, r.source.file) == {}
  {
    var files := LegacyFile.MoveConstruct(b, other.file);
    Moved(other, Mapping(files.source, other.access, NULL, DefaultHandle(b)))
  }

  /** Move assignment as written: the same fields, into an existing object that keeps its own
      file-mapping handle and drops its own view without unmapping it. */
  function MoveAssign(b: Build, self: Mapping, other: Mapping): (r: Moved)
    ensures r.target == other.(handle := self.handle)
    ensures r.source.address == NULL
    ensures LegacyFile.Owned(b, r.source.file) == {}
  {
    var files := LegacyFile.MoveAssign(b, self.file, other.file);
    Moved(Mapping(files.target, other.access, other.address, self.handle),
          other.(file := files.source, address := NULL))
  }

  /** What a destructor releases: the view it unmaps, the file-mapping handle it closes and the
      file descriptor or handle the `File` member closes after it. */
  datatype Teardown = Teardown(unmapped: Option<int>, closedMapping: Option<int>, closedFile: Option<int>)

  /** The macOS destructor: unmap only a mapped object whose file has a readable, non-zero
      size (over that size); the file member then closes a valid descriptor. */
  function MacDestroy(os: PosixOs, mos: MacMapOs, m: Mapping): (r: Teardown)
    ensures r.unmapped.Some? <==> m.address != NULL && PosixSize(os, m.file.handle).UnwrapOr(0) != 0
    ensures r.unmapped.Some? ==> r.unmapped.value == m.address
    ensures r.closedMapping.None?
    ensures r.closedFile == LegacyFile.Destroy(PosixBuild, m.file)
  {
    var unmapped := if m.address != NULL && PosixSize(os, m.file.handle).UnwrapOr(0) != 0 then Some(m.address) else None;
    Teardown(unmapped, None, LegacyFile.Destroy(PosixBuild, m.file))
  }

  /** The Windows destructor: a mapped object unmaps its view and closes its file-mapping
      handle, whatever that handle is; the file member then closes a valid file handle. */
  function WinDestroy(m: Mapping): (r: Teardown)
    ensures r.unmapped.Some? <==> m.address != NULL
    ensures r.closedMapping.Some? <==> m.address != NULL
    ensures m.address != NULL ==> r.unmapped == Some(m.address) && r.closedMapping == Some(m.handle.value)
    ensures r.closedFile == LegacyFile.Destroy(WindowsBuild, m.file)
  {
    if m.address != NULL then Teardown(Some(m.address), Some(m.handle.value), LegacyFile.Destroy(WindowsBuild, m.file))
    else Teardown(None, None, LegacyFile.Destroy(WindowsBuild, m.file))
  }

  /** As written, moving a constructed Windows mapping loses its file-mapping handle: the new
      object's destructor closes the default handle, and the old object, no longer mapped,
      closes nothing. */
  lemma MovedHandleNeverClosed(m: Mapping)
    requires m.address != NULL && IsValid(WindowsBuild, m.handle)
    ensures var r := MoveConstructAsWritten(WindowsBuild, m);
            && WinDestroy(r.target).closedMapping == Some(INVALID_HANDLE_VALUE)
            && WinDestroy(r.source).closedMapping == None
            && m.handle.value != INVALID_HANDLE_VALUE
  {
  }

  /** With the handle moved, the new object releases exactly what the old one would have, and
      the old one releases no mapping. */
  lemma MoveKeepsTeardown(m: Mapping)
    ensures var r := MoveConstruct(WindowsBuild, m);
            && WinDestroy(r.target) == WinDestroy(m)
            && WinDestroy(r.source) == Teardown(None, None, None)
  {
  }

  /** `resize` only resizes the file; the mapping keeps its address. */
  function MacResize(os: PosixOs, m: Mapping, size: usize): (r: Outcome<MapError>)
    ensures r.Pass? <==> os.ftruncate(m.file.handle.value, ToOffset(size))
  {
    if PosixResize(os, m.file.handle, size).Pass? then Pass else Fail(FileFailed(TruncateFailed))
  }

  function WinResize(os: WindowsOs, m: Mapping, size: usize): (r: Outcome<MapError>)
    ensures r.Pass? <==> WindowsResize(os, m.file.handle, size).Pass?
  {
    match WindowsResize(os, m.file.handle, size)
    case Pass => Pass
    case Fail(e) => Fail(FileFailed(e))
  }

  /** `sync` on macOS: an unreadable size is the error; otherwise `msync` over the size decides.
      There is no mapped check. */
  function MacSync(os: PosixOs, mos: MacMapOs, m: Mapping): (r: Outcome<MapError>)
    ensures PosixSize(os, m.file.handle).Failure? ==> r == Fail(FileFailed(PosixSize(os, m.file.handle).error))
    ensures PosixSize(os, m.file.handle).Success? ==> (r.Pass? <==> mos.msync(m.address, PosixSize(os, m.file.handle).value))
  {
    match PosixSize(os, m.file.handle)
    case Failure(e) => Fail(FileFailed(e))
    case Success(size) => if mos.msync(m.address, size) then Pass else Fail(SyncFailed)
  }

  /** `sync` on Windows does nothing and always succeeds, mapped or not. */
  function WinSync(m: Mapping): (r: Outcome<MapError>)
    ensures r.Pass?
  {
    Pass
  }
}
