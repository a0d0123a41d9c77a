/** `src/file.cpp`: a `File` that is created closed and opened, closed and queried through
    explicit calls, each of which checks whether the file is open. One state record, one
    transition function per member. */
module Files {
  import opened Wrappers
  import opened Platform
  import opened FileHandle
  import opened FileSystem

  /** A `File`: its path, its mode and its handle. It is open exactly when the handle is valid. */
  datatype File = File(path: string, mode: FileMode, handle: FileHandle)

  predicate IsOpen(b: Build, f: File)
  {
    IsValid(b, f.handle)
  }

  /** A member call that may change the file: the state afterwards and the call's result. */
  datatype FileStep = FileStep(file: File, outcome: Outcome<FileError>)

  /** The constructor: path and mode stored, not open. */
  function NewFile(b: Build, path: string, mode: FileMode): (f: File)
    ensures f.path == path && f.mode == mode
    ensures !IsOpen(b, f)
  {
    File(path, mode, DefaultHandle(b))
  }

  /** `File::open` on POSIX. */
  function PosixOpen(p: Posix, os: PosixOs, f: File): (r: FileStep)
    ensures IsOpen(PosixBuild, f) ==> r == FileStep(f, Fail(AlreadyOpened))
    ensures !IsOpen(PosixBuild, f) ==>
              var pathExists := os.fileExists(f.path);
              r.file == f.(handle := FileHandle(os.open(f.path, PosixOpenFlags(p, f.mode, pathExists), PosixPermissions(f.mode))))
    ensures !IsOpen(PosixBuild, f) ==> (r.outcome.Pass? <==> IsOpen(PosixBuild, r.file))
    ensures r.outcome.Fail? ==> r.outcome.error in {AlreadyOpened, OpenFailed}
  {
    if IsOpen(PosixBuild, f) then FileStep(f, Fail(AlreadyOpened))
    else
      var pathExists := os.fileExists(f.path);
      var h := FileHandle(os.open(f.path, PosixOpenFlags(p, f.mode, pathExists), PosixPermissions(f.mode)));
      var g := f.(handle := h);
      if IsValid(PosixBuild, h) then FileStep(g, Pass) else FileStep(g, Fail(OpenFailed))
  }

  /** `File::open` on Windows: a security descriptor first, then `CreateFileW`. */
  function WindowsOpen(os: WindowsOs, f: File): (r: FileStep)
    ensures IsOpen(WindowsBuild, f) ==> r == FileStep(f, Fail(AlreadyOpened))
    ensures !IsOpen(WindowsBuild, f) && !os.initSecurityDescriptor ==> r == FileStep(f, Fail(SecurityDescriptorFailed))
    ensures !IsOpen(WindowsBuild, f) && os.initSecurityDescriptor ==>
              var pathExists := os.fileExists(f.path);
              && r.file == f.(handle := FileHandle(os.createFile(f.path, WindowsAccess(f.mode), Disposition(pathExists))))
              && (r.outcome.Pass? <==> IsOpen(WindowsBuild, r.file))
  {
    if IsOpen(WindowsBuild, f) then FileStep(f, Fail(AlreadyOpened))
    else if !os.initSecurityDescriptor then FileStep(f, Fail(SecurityDescriptorFailed))
    else
      var pathExists := os.fileExists(f.path);
      var h := FileHandle(os.createFile(f.path, WindowsAccess(f.mode), Disposition(pathExists)));
      var g := f.(handle := h);
      if IsValid(WindowsBuild, h) then FileStep(g, Pass) else FileStep(g, Fail(OpenFailed))
  }

  /** `File::close` on POSIX: only an open file can be closed; a failed `close` keeps the handle;
      a successful one leaves the file not open. */
  function PosixClose(os: PosixOs, f: File): (r: FileStep)
    ensures !IsOpen(PosixBuild, f) ==> r == FileStep(f, Fail(NotOpened))
    ensures IsOpen(PosixBuild, f) && !os.close(f.handle.value) ==> r == FileStep(f, Fail(CloseFailed))
    ensures r.outcome.Pass? <==> IsOpen(PosixBuild, f) && os.close(f.handle.value)
    ensures r.outcome.Pass? ==> !IsOpen(PosixBuild, r.file) && r.file == f.(handle := DefaultHandle(PosixBuild))
  {
    if !IsOpen(PosixBuild, f) then FileStep(f, Fail(NotOpened))
    else if !os.close(f.handle.value) then FileStep(f, Fail(CloseFailed))
    else FileStep(f.(handle := DefaultHandle(PosixBuild)), Pass)
  }

  /** `File::close` on Windows, with `CloseHandle`. */
  function WindowsClose(os: WindowsOs, f: File): (r: FileStep)
    ensures !IsOpen(WindowsBuild, f) ==> r == FileStep(f, Fail(NotOpened))
    ensures IsOpen(WindowsBuild, f) && !os.closeHandle(f.handle.value) ==> r == FileStep(f, Fail(CloseFailed))
    ensures r.outcome.Pass? <==> IsOpen(WindowsBuild, f) && os.closeHandle(f.handle.value)
    ensures r.outcome.Pass? ==> !IsOpen(WindowsBuild, r.file) && r.file == f.(handle := DefaultHandle(WindowsBuild))
  {
    if !IsOpen(WindowsBuild, f) then FileStep(f, Fail(NotOpened))
    else if !os.closeHandle(f.handle.value) then FileStep(f, Fail(CloseFailed))
    else FileStep(f.(handle := DefaultHandle(WindowsBuild)), Pass)
  }

  /** Opening a closed file and closing it again, when both calls succeed, gives back the
      file as constructed. */
  lemma OpenThenClose(p: Posix, os: PosixOs, path: string, mode: FileMode)
    requires PosixOpen(p, os, NewFile(PosixBuild, path, mode)).outcome.Pass?
    requires os.close(PosixOpen(p, os, NewFile(PosixBuild, path, mode)).file.handle.value)
    ensures PosixClose(os, PosixOpen(p, os, NewFile(PosixBuild, path, mode)).file)
            == FileStep(NewFile(PosixBuild, path, mode), Pass)
  {
  }

  /** `File::set_executable` on POSIX. There is no open check: `fstat` on an invalid
      descriptor is what fails. On Windows the member does nothing and succeeds. */
  function SetExecutable(b: Build, os: PosixOs, f: File, executable: bool): (r: Outcome<FileError>)
    ensures b.WindowsBuild? ==> r == Pass
    ensures b.PosixBuild? ==> r == PosixSetExecutable(os, f.handle, executable)
  {
    if b.WindowsBuild? then Pass else PosixSetExecutable(os, f.handle, executable)
  }

  /** `File::is_executable` on POSIX: an error when not open, otherwise any execute bit. */
  function PosixFileIsExecutable(os: PosixOs, f: File): (r: Result<bool, FileError>)
    ensures !IsOpen(PosixBuild, f) ==> r == Failure(NotOpened)
    ensures IsOpen(PosixBuild, f) && os.fstat(f.handle.value).None? ==> r == Failure(StatFailed)
    ensures IsOpen(PosixBuild, f) && os.fstat(f.handle.value).Some? ==>
              r == Success(HasExecBit(os.fstat(f.handle.value).value.mode))
  {
    if !IsOpen(PosixBuild, f) then Failure(NotOpened) else PosixIsExecutable(os, f.handle)
  }

  /** `File::is_executable` on Windows: whether `GetBinaryTypeW` recognises the path. */
  function WindowsFileIsExecutable(os: WindowsOs, f: File): (r: Result<bool, FileError>)
    ensures r == Success(os.binaryType(f.path))
  {
    Success(os.binaryType(f.path))
  }

  /** `File::get_size` on POSIX. */
  function PosixFileSize(os: PosixOs, f: File): (r: Result<usize, FileError>)
    ensures !IsOpen(PosixBuild, f) ==> r == Failure(NotOpened)
    ensures IsOpen(PosixBuild, f) ==> r == PosixSize(os, f.handle)
  {
    if !IsOpen(PosixBuild, f) then Failure(NotOpened) else PosixSize(os, f.handle)
  }

  /** `File::get_size` on Windows. */
  function WindowsFileSize(os: WindowsOs, f: File): (r: Result<usize, FileError>)
    ensures !IsOpen(WindowsBuild, f) ==> r == Failure(NotOpened)
    ensures IsOpen(WindowsBuild, f) ==> r == WindowsSize(os, f.handle)
  {
    if !IsOpen(WindowsBuild, f) then Failure(NotOpened) else WindowsSize(os, f.handle)
  }

  /** `File::resize` on POSIX. */
  function PosixFileResize(os: PosixOs, f: File, size: usize): (r: Outcome<FileError>)
    ensures !IsOpen(PosixBuild, f) ==> r == Fail(NotOpened)
    ensures IsOpen(PosixBuild, f) ==> (r.Pass? <==> os.ftruncate(f.handle.value, ToOffset(size)))
  {
    if !IsOpen(PosixBuild, f) then Fail(NotOpened) else PosixResize(os, f.handle, size)
  }

  /** `File::resize` on Windows. */
  function WindowsFileResize(os: WindowsOs, f: File, size: usize): (r: Outcome<FileError>)
    ensures !IsOpen(WindowsBuild, f) ==> r == Fail(NotOpened)
    ensures IsOpen(WindowsBuild, f) ==> r == WindowsResize(os, f.handle, size)
  {
    if !IsOpen(WindowsBuild, f) then Fail(NotOpened) else WindowsResize(os, f.handle, size)
  }

  /** The queries that check for an open file fail on a file that was never opened, whatever
      the system would answer. */
  lemma ClosedFileRefusesQueries(os: PosixOs, path: string, mode: FileMode, size: usize)
    ensures PosixFileIsExecutable(os, NewFile(PosixBuild, path, mode)) == Failure(NotOpened)
    ensures PosixFileResize(os, NewFile(PosixBuild, path, mode), size) == Fail(NotOpened)
    ensures PosixClose(os, NewFile(PosixBuild, path, mode)).outcome == Fail(NotOpened)
  {
  }
}
