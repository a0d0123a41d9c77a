/** `src/macos/file.cpp` and `src/windows/file.cpp`: the older `File` of namespace
    `platform::file`, opened by its constructor (which throws on failure), with value
    semantics through copies and moves, and closed by its destructor. There is no open check
    in its members: they go straight to the handle. */
module LegacyFile {
  import opened Wrappers
  import opened Platform
  import opened FileHandle
  import opened FileSystem
  import Files

  /** The object's fields; `Files.File` has the same three. */
  type File = Files.File

  /** The handles an object will close when it is destroyed: its handle when valid, none
      otherwise. */
  function Owned(b: Build, f: File): (hs: set<int>)
    ensures hs == (if IsValid(b, f.handle) then {f.handle.value} else {})
  {
    if IsValid(b, f.handle) then {f.handle.value} else {}
  }

  /** The default constructor: mode `READ`, an empty path, an invalid handle. */
  function Default(b: Build): (f: File)
    ensures f.mode == Read && f.path == ""
    ensures Owned(b, f) == {}
  {
    Files.File("", Read, DefaultHandle(b))
  }

  /** The POSIX constructor (the file is macOS-only, hence `O_CREAT` of macOS by default): open
      with the mode table, and throw when the descriptor is invalid. */
  function PosixConstruct(p: Posix, os: PosixOs, path: string, mode: FileMode): (r: Result<File, FileError>)
    ensures r.Failure? <==> !IsValid(PosixBuild, FileHandle(os.open(path, PosixOpenFlags(p, mode, os.fileExists(path)), PosixPermissions(mode))))
    ensures r.Failure? ==> r.error == OpenFailed
    ensures r.Success? ==> r.value.path == path && r.value.mode == mode && Owned(PosixBuild, r.value) == {r.value.handle.value}
  {
    var h := FileHandle(os.open(path, PosixOpenFlags(p, mode, os.fileExists(path)), PosixPermissions(mode)));
    if IsValid(PosixBuild, h) then Success(Files.File(path, mode, h)) else Failure(OpenFailed)
  }

  /** The Windows constructor: a security descriptor, then `CreateFileW` with the access and
      disposition tables; throws when either fails. */
  function WindowsConstruct(os: WindowsOs, path: string, mode: FileMode): (r: Result<File, FileError>)
    ensures !os.initSecurityDescriptor ==> r == Failure(SecurityDescriptorFailed)
    ensures os.initSecurityDescriptor ==>
              (r.Failure? <==> !IsValid(WindowsBuild, FileHandle(os.createFile(path, WindowsAccess(mode), Disposition(os.fileExists(path))))))
    ensures r.Success? ==> r.value.path == path && r.value.mode == mode && Owned(WindowsBuild, r.value) == {r.value.handle.value}
  {
    if !os.initSecurityDescriptor then Failure(SecurityDescriptorFailed)
    else
      var h := FileHandle(os.createFile(path, WindowsAccess(mode), Disposition(os.fileExists(path))));
      if IsValid(WindowsBuild, h) then Success(Files.File(path, mode, h)) else Failure(OpenFailed)
  }

  /** Constructing is opening a closed `File`: the constructor succeeds exactly when `open` on
      a freshly constructed `Files.File` does, and both reach the same fields. */
  lemma PosixConstructIsOpen(p: Posix, os: PosixOs, path: string, mode: FileMode)
    ensures var step := Files.PosixOpen(p, os, Files.NewFile(PosixBuild, path, mode));
            && (PosixConstruct(p, os, path, mode).Success? <==> step.outcome.Pass?)
            && (step.outcome.Pass? ==> PosixConstruct(p, os, path, mode).value == step.file)
  {
  }

  lemma WindowsConstructIsOpen(os: WindowsOs, path: string, mode: FileMode)
    ensures var step := Files.WindowsOpen(os, Files.NewFile(WindowsBuild, path, mode));
            && (WindowsConstruct(os, path, mode).Success? <==> step.outcome.Pass?)
            && (step.outcome.Pass? ==> WindowsConstruct(os, path, mode).value == step.file)
  {
  }

  /** The copy constructor opens the other object's path again, in its mode. */
  function PosixCopy(p: Posix, os: PosixOs, other: File): (r: Result<File, FileError>)
    ensures r == PosixConstruct(p, os, other.path, other.mode)
    ensures r.Success? ==> r.value.path == other.path && r.value.mode == other.mode
  {
    PosixConstruct(p, os, other.path, other.mode)
  }

  /** The two objects after a move: the one moved into and the one moved from. */
  datatype Moved = Moved(target: File, source: File)

  /** The move constructor: the new object takes path, mode and handle; the source keeps its
      mode, its path is emptied and its handle becomes invalid. */
  function MoveConstruct(b: Build, other: File): (r: Moved)
    ensures r.target == other
    ensures Owned(b, r.source) == {}
    ensures Owned(b, r.target) + Owned(b, r.source) == Owned(b, other)
  {
    Moved(other, other.(path := "", handle := DefaultHandle(b)))
  }

  /** Move assignment: the same transfer into an existing object. Its old handle is overwritten
      without being closed. */
  function MoveAssign(b: Build, self: File, other: File): (r: Moved)
    ensures r.target == other
    ensures Owned(b, r.source) == {}
    ensures Owned(b, r.target) + Owned(b, r.source) == Owned(b, other)
  {
    Moved(other, other.(path := "", handle := DefaultHandle(b)))
  }

  /** The handle an object held before a move assignment is owned by neither object afterwards
      unless the source held the same value: no destructor will close it. */
  lemma MoveAssignDropsHandle(b: Build, self: File, other: File)
    requires IsValid(b, self.handle) && self.handle != other.handle
    ensures var r := MoveAssign(b, self, other);
            self.handle.value !in Owned(b, r.target) + Owned(b, r.source)
  {
  }

  /** A move assignment that closes what the object held: the transfer, and the handle closed
      on the way, if any. */
  datatype Reassigned = Reassigned(moved: Moved, closed: Option<int>)

  /** Move assignment as intended: the object's own handle is closed first, as its destructor
      would, and then the other's fields are taken over as before. */
  function MoveAssignClosing(b: Build, self: File, other: File): (r: Reassigned)
    ensures r.moved.target == other && Owned(b, r.moved.source) == {}
    ensures r.closed.Some? <==> IsValid(b, self.handle)
    ensures r.closed.Some? ==> r.closed.value == self.handle.value
  {
    Reassigned(MoveAssign(b, self, other), Destroy(b, self))
  }

  /** With the held handle closed first, no handle is lost: every handle the two objects owned
      before is either closed by the assignment or owned by one of them afterwards, and the
      closed one is owned by neither. */
  lemma MoveAssignClosingLosesNothing(b: Build, self: File, other: File)
    requires self.handle != other.handle
    ensures var r := MoveAssignClosing(b, self, other);
            var closed := if r.closed.Some? then {r.closed.value} else {};
            && Owned(b, self) + Owned(b, other) == Owned(b, r.moved.target) + Owned(b, r.moved.source) + closed
            && closed !! Owned(b, r.moved.target) + Owned(b, r.moved.source)
  {
  }

  /** Copy assignment. Assigning an object to itself changes nothing; otherwise a new object is
      constructed from the other's path and mode and moved in, so a throwing constructor leaves
      the object as it was and a successful one replaces it (dropping the old handle, as move
      assignment does). `aliased` is the `this == &other` test. */
  function PosixCopyAssign(p: Posix, os: PosixOs, self: File, other: File, aliased: bool): (r: Result<File, FileError>)
    requires aliased ==> self == other
    ensures aliased ==> r == Success(self)
    ensures !aliased ==> (r.Failure? <==> PosixConstruct(p, os, other.path, other.mode).Failure?)
    ensures !aliased && r.Success? ==> r.value.path == other.path && r.value.mode == other.mode
                                       && IsValid(PosixBuild, r.value.handle)
  {
    if aliased then Success(self)
    else
      match PosixConstruct(p, os, other.path, other.mode)
      case Failure(e) => Failure(e)
      case Success(tmp) => Success(MoveAssign(PosixBuild, self, tmp).target)
  }

  /** The destructor: the handle `close` (or `CloseHandle`) is called on, if any. */
  function Destroy(b: Build, f: File): (closed: Option<int>)
    ensures closed.Some? <==> IsValid(b, f.handle)
    ensures closed.Some? ==> closed.value == f.handle.value
  {
    if IsValid(b, f.handle) then Some(f.handle.value) else None
  }

  /** Destroying both objects after a move closes exactly what the original would have
      closed, and closes it once. */
  lemma MoveThenDestroyClosesOnce(b: Build, f: File)
    ensures var m := MoveConstruct(b, f);
            && Destroy(b, m.source) == None
            && Destroy(b, m.target) == Destroy(b, f)
  {
  }

  /** `set_executable` of this `File`: on macOS the `fstat`/`fchmod` sequence on whatever handle
      it holds, on Windows nothing. */
  function SetExecutable(b: Build, os: PosixOs, f: File, executable: bool): (r: Outcome<FileError>)
    ensures b.WindowsBuild? ==> r == Pass
    ensures b.PosixBuild? && os.fstat(f.handle.value).Some? ==>
              (r.Pass? <==> os.fchmod(f.handle.value, ExecMode(os.fstat(f.handle.value).value.mode, executable)))
    ensures b.PosixBuild? && os.fstat(f.handle.value).None? ==> r == Fail(StatFailed)
  {
    if b.WindowsBuild? then Pass else PosixSetExecutable(os, f.handle, executable)
  }

  /** `is_executable` of this `File` on macOS: no open check, so a moved-from or default object
      answers whatever `fstat` on the invalid descriptor answers. */
  function PosixIsExecutableOf(os: PosixOs, f: File): (r: Result<bool, FileError>)
    ensures os.fstat(f.handle.value).None? <==> r.Failure?
    ensures os.fstat(f.handle.value).Some? ==> r == Success(HasExecBit(os.fstat(f.handle.value).value.mode))
  {
    PosixIsExecutable(os, f.handle)
  }

  /** Where the two `File` classes part: on a file that is not open, the newer one refuses
      `is_executable` and `resize` without a system call, the older one passes the invalid
      descriptor to the system. */
  lemma LegacySkipsOpenCheck(os: PosixOs, size: usize)
    requires os.fstat(INVALID_DESCRIPTOR).Some?
    requires os.ftruncate(INVALID_DESCRIPTOR, ToOffset(size))
    ensures PosixIsExecutableOf(os, Default(PosixBuild)).Success?
    ensures Files.PosixFileIsExecutable(os, Default(PosixBuild)) == Failure(NotOpened)
    ensures PosixResize(os, Default(PosixBuild).handle, size) == Pass
    ensures Files.PosixFileResize(os, Default(PosixBuild), size) == Fail(NotOpened)
  {
  }
}
