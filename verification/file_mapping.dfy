/** `src/file_mapping.cpp`: a `FileMapping` owns a closed `File` and maps it on request. `map`
    opens the file and maps it, `unmap` unmaps it and closes the file, `resize` unmaps, resizes
    the file and maps again, `sync` flushes the mapped bytes. The steps that differ between
    the builds (`soft_map`, `soft_unmap`, the flush of `sync`) are given per build and the
    members built from them once, over a `Backend`. */
module FileMappings {
  import opened Wrappers
  import opened Platform
  import opened FileHandle
  import opened FileSystem
  import opened MemoryMapping
  import Files

  /** A `FileMapping`: the file, the access it was created with, the mapped address (`NULL` when
      unmapped) and, on Windows, the handle of the file-mapping object. */
  datatype FileMapping = FileMapping(file: Files.File, access: Access, address: int, handle: FileHandle)

  predicate IsMapped(m: FileMapping)
  {
    m.address != NULL
  }

  /** A member call: the mapping afterwards and the call's result. */
  datatype MapStep = MapStep(mapping: FileMapping, outcome: Outcome<MapError>)

  /** The constructor: the file is created (not opened) in the mode the access implies. */
  function NewMapping(b: Build, path: string, access: Access): (m: FileMapping)
    ensures !IsMapped(m) && !Files.IsOpen(b, m.file)
    ensures m.file.path == path && m.file.mode == DeriveFileMode(access) && m.access == access
  {
    FileMapping(Files.NewFile(b, path, DeriveFileMode(access)), access, NULL, DefaultHandle(b))
  }

  /** The `File` members a mapping calls, bound to one build's system calls. */
  datatype FileOps = FileOps(
    open: Files.File -> Files.FileStep,
    close: Files.File -> Files.FileStep,
    isExecutable: Files.File -> Result<bool, FileError>,
    setExecutable: Files.File -> Outcome<FileError>,
    size: Files.File -> Result<usize, FileError>,
    resize: (Files.File, usize) -> Outcome<FileError>)

  function PosixFiles(p: Posix, os: PosixOs): FileOps
  {
    FileOps(
      f => Files.PosixOpen(p, os, f),
      f => Files.PosixClose(os, f),
      f => Files.PosixFileIsExecutable(os, f),
      f => Files.SetExecutable(PosixBuild, os, f, true),
      f => Files.PosixFileSize(os, f),
      (f: Files.File, n: usize) => Files.PosixFileResize(os, f, n))
  }

  function WindowsFiles(os: WindowsOs): FileOps
  {
    FileOps(
      f => Files.WindowsOpen(os, f),
      f => Files.WindowsClose(os, f),
      f => Files.WindowsFileIsExecutable(os, f),
      f => Pass,
      f => Files.WindowsFileSize(os, f),
      (f: Files.File, n: usize) => Files.WindowsFileResize(os, f, n))
  }

  function Lift(o: Outcome<FileError>): (r: Outcome<MapError>)
    ensures r.Pass? <==> o.Pass?
    ensures o.Fail? ==> r == Fail(FileFailed(o.error))
  {
    if o.Pass? then Pass else Fail(FileFailed(o.error))
  }

  /** The part of `soft_map` before the system is asked for a mapping: an executable mapping
      first makes its file executable when the file does not say it is, then the size to map is
      the file's size, or 1 after growing the file to one byte when the size is 0 or cannot be
      read. */
  function Prepare(ops: Operators, fs: FileOps, m: FileMapping): (r: Result<usize, MapError>)
    ensures r.Success? ==> r.value >= 1
    ensures r.Success? ==> (match fs.size(m.file)
                            case Success(n) => if n == 0 then r.value == 1 && fs.resize(m.file, 1).Pass? else r.value == n
                            case Failure(_) => r.value == 1 && fs.resize(m.file, 1).Pass?)
    ensures r.Failure? ==> r.error.FileFailed?
    ensures !ops.flagTest(m.access, EXECUTE) && fs.size(m.file).Success? && fs.size(m.file).value > 0 ==> r.Success?
  {
    var executable := ops.flagTest(m.access, EXECUTE);
    var exec := if executable && ops.notExecutable(fs.isExecutable(m.file)) then fs.setExecutable(m.file) else Pass;
    if exec.Fail? then Failure(FileFailed(exec.error))
    else
      var size := fs.size(m.file).UnwrapOr(0);
      if size != 0 then Success(size)
      else if fs.resize(m.file, 1).Fail? then Failure(FileFailed(fs.resize(m.file, 1).error))
      else Success(1)
  }

  /** The mapping calls of POSIX. Addresses are plain integers; `mmap` answers `MAP_FAILED`
      when it fails. */
  datatype PosixMapOs = PosixMapOs(
    mmap: (usize, bv32, bv32, int) -> int,
    munmap: (int, usize) -> bool,
    msync: (int, usize) -> bool)

  /** The POSIX `mmap` call of `soft_map`, with the protection and flags the access asks for. */
  function PosixMmap(p: Posix, ops: Operators, mos: PosixMapOs, m: FileMapping, size: usize): int
  {
    var readable := ops.flagTest(m.access, READ);
    var writable := ops.flagTest(m.access, WRITE);
    var executable := ops.flagTest(m.access, EXECUTE);
    mos.mmap(size, PosixProt(readable, writable, executable), PosixMapFlags(p, executable), m.file.handle.value)
  }

  /** `soft_map` on POSIX as written: the result of `mmap` is compared against `nullptr`, which
      `mmap` does not return on failure, and stored either way. */
  function PosixSoftMapAsWritten(p: Posix, ops: Operators, fs: FileOps, mos: PosixMapOs, m: FileMapping): (r: MapStep)
    ensures IsMapped(m) ==> r == MapStep(m, Fail(AlreadyMapped))
    ensures r.outcome.Pass? ==> Prepare(ops, fs, m).Success?
                                && r.mapping.address == PosixMmap(p, ops, mos, m, Prepare(ops, fs, m).value)
  {
    if IsMapped(m) then MapStep(m, Fail(AlreadyMapped))
    else match Prepare(ops, fs, m)
      case Failure(e) => MapStep(m, Fail(e))
      case Success(size) =>
        var address := PosixMmap(p, ops, mos, m, size);
        if address == NULL then MapStep(m.(address := address), Fail(MapFailed))
        else MapStep(m.(address := address), Pass)
  }

  /** When `mmap` fails, the mapping as written reports success and counts as mapped, at the
      address `MAP_FAILED`. */
  lemma MapFailureGoesUnnoticed(p: Posix, ops: Operators, fs: FileOps, mos: PosixMapOs, m: FileMapping)
    requires !IsMapped(m) && Prepare(ops, fs, m).Success?
    requires PosixMmap(p, ops, mos, m, Prepare(ops, fs, m).value) == MAP_FAILED
    ensures PosixSoftMapAsWritten(p, ops, fs, mos, m).outcome == Pass
    ensures IsMapped(PosixSoftMapAsWritten(p, ops, fs, mos, m).mapping)
    ensures PosixSoftMapAsWritten(p, ops, fs, mos, m).mapping.address == MAP_FAILED
  {
  }

  /** `soft_map` on POSIX with the failure test `mmap` documents: a mapping that fails leaves
      the object unmapped, and success means mapped at the address `mmap` returned. */
  function PosixSoftMap(p: Posix, ops: Operators, fs: FileOps, mos: PosixMapOs, m: FileMapping): (r: MapStep)
    ensures IsMapped(m) ==> r == MapStep(m, Fail(AlreadyMapped))
    ensures !IsMapped(m) ==> (r.outcome.Pass? <==> IsMapped(r.mapping))
    ensures r.mapping.file == m.file && r.mapping.access == m.access
    ensures !IsMapped(m) && Prepare(ops, fs, m).Failure? ==> r == MapStep(m, Fail(Prepare(ops, fs, m).error))
    ensures r.outcome.Pass? ==>
              && Prepare(ops, fs, m).Success?
              && r.mapping.address == PosixMmap(p, ops, mos, m, Prepare(ops, fs, m).value)
              && r.mapping.address != MAP_FAILED
  {
    if IsMapped(m) then MapStep(m, Fail(AlreadyMapped))
    else match Prepare(ops, fs, m)
      case Failure(e) => MapStep(m, Fail(e))
      case Success(size) =>
        var address := PosixMmap(p, ops, mos, m, size);
        if address == NULL || address == MAP_FAILED then MapStep(m, Fail(MapFailed))
        else MapStep(m.(address := address), Pass)
  }

  /** `soft_unmap` on POSIX: the length is the file's size, which must be readable and not 0. */
  function PosixSoftUnmap(fs: FileOps, mos: PosixMapOs, m: FileMapping): (r: MapStep)
    ensures !IsMapped(m) ==> r == MapStep(m, Fail(NotMapped))
    ensures r.outcome.Pass? <==> IsMapped(m) && fs.size(m.file).UnwrapOr(0) != 0
                                 && mos.munmap(m.address, fs.size(m.file).UnwrapOr(0))
    ensures r.outcome.Pass? ==> r.mapping == m.(address := NULL)
    ensures r.outcome.Fail? ==> r.mapping == m
    ensures IsMapped(m) && fs.size(m.file).UnwrapOr(0) == 0 ==> r.outcome == Fail(ZeroSize)
  {
    if !IsMapped(m) then MapStep(m, Fail(NotMapped))
    else
      var size := fs.size(m.file).UnwrapOr(0);
      if size == 0 then MapStep(m, Fail(ZeroSize))
      else if !mos.munmap(m.address, size) then MapStep(m, Fail(UnmapFailed))
      else MapStep(m.(address := NULL), Pass)
  }

  /** The flush of `sync` on POSIX: `msync` over the file's size. */
  function PosixFlush(fs: FileOps, mos: PosixMapOs, m: FileMapping): (r: Outcome<MapError>)
    ensures fs.size(m.file).Failure? ==> r == Fail(FileFailed(fs.size(m.file).error))
    ensures fs.size(m.file).Success? ==> (r.Pass? <==> mos.msync(m.address, fs.size(m.file).value))
  {
    match fs.size(m.file)
    case Failure(e) => Fail(FileFailed(e))
    case Success(size) => if mos.msync(m.address, size) then Pass else Fail(SyncFailed)
  }

  /** The mapping calls of Windows. */
  datatype WindowsMapOs = WindowsMapOs(
    createFileMapping: (int, bv32) -> int,
    mapView: (int, bv32) -> int,
    unmapView: int -> bool,
    closeHandle: int -> bool)

  /** `soft_map` on Windows: a file-mapping object with the page protection, then a view with
      the view access. A failure keeps whatever handle was obtained. */
  function WindowsSoftMap(ops: Operators, fs: FileOps, wos: WindowsMapOs, m: FileMapping): (r: MapStep)
    ensures IsMapped(m) ==> r == MapStep(m, Fail(AlreadyMapped))
    ensures !IsMapped(m) ==> (r.outcome.Pass? <==> IsMapped(r.mapping))
    ensures r.mapping.file == m.file && r.mapping.access == m.access
    ensures r.outcome.Pass? ==> IsValid(WindowsBuild, r.mapping.handle)
    ensures !IsMapped(m) && Prepare(ops, fs, m).Failure? ==> r == MapStep(m, Fail(Prepare(ops, fs, m).error))
    ensures r.outcome.Pass? ==>
              var readable := ops.flagTest(m.access, READ);
              var writable := ops.flagTest(m.access, WRITE);
              var executable := ops.flagTest(m.access, EXECUTE);
              && Prepare(ops, fs, m).Success?
              && r.mapping.handle.value == wos.createFileMapping(m.file.handle.value, PageProtection(readable, writable, executable))
              && r.mapping.address == wos.mapView(r.mapping.handle.value, ViewAccess(readable, writable, executable))
  {
    if IsMapped(m) then MapStep(m, Fail(AlreadyMapped))
    else match Prepare(ops, fs, m)
      case Failure(e) => MapStep(m, Fail(e))
      case Success(_) =>
        var readable := ops.flagTest(m.access, READ);
        var writable := ops.flagTest(m.access, WRITE);
        var executable := ops.flagTest(m.access, EXECUTE);
        var h := FileHandle(wos.createFileMapping(m.file.handle.value, PageProtection(readable, writable, executable)));
        if !IsValid(WindowsBuild, h) then MapStep(m.(handle := h), Fail(HandleFailed))
        else
          var address := wos.mapView(h.value, ViewAccess(readable, writable, executable));
          if address == NULL then MapStep(m.(handle := h), Fail(MapFailed))
          else MapStep(m.(handle := h, address := address), Pass)
  }

  /** `soft_unmap` on Windows: unmap the view, then close the file-mapping object; the second
      call is skipped when the first fails. */
  function WindowsSoftUnmap(wos: WindowsMapOs, m: FileMapping): (r: MapStep)
    ensures !IsMapped(m) ==> r == MapStep(m, Fail(NotMapped))
    ensures r.outcome.Pass? <==> IsMapped(m) && wos.unmapView(m.address) && wos.closeHandle(m.handle.value)
    ensures r.outcome.Pass? ==> r.mapping == m.(address := NULL, handle := DefaultHandle(WindowsBuild))
    ensures r.outcome.Fail? ==> r.mapping == m
  {
    if !IsMapped(m) then MapStep(m, Fail(NotMapped))
    else if !wos.unmapView(m.address) || !wos.closeHandle(m.handle.value) then MapStep(m, Fail(UnmapFailed))
    else MapStep(m.(address := NULL, handle := DefaultHandle(WindowsBuild)), Pass)
  }

  /** One build's steps. */
  datatype Backend = Backend(
    files: FileOps,
    softMap: FileMapping -> MapStep,
    softUnmap: FileMapping -> MapStep,
    flush: FileMapping -> Outcome<MapError>)

  function PosixBackend(p: Posix, ops: Operators, os: PosixOs, mos: PosixMapOs): Backend
  {
    var fs := PosixFiles(p, os);
    Backend(fs, m => PosixSoftMap(p, ops, fs, mos, m), m => PosixSoftUnmap(fs, mos, m), m => PosixFlush(fs, mos, m))
  }

  function WindowsBackend(ops: Operators, os: WindowsOs, wos: WindowsMapOs): Backend
  {
    var fs := WindowsFiles(os);
    Backend(fs, m => WindowsSoftMap(ops, fs, wos, m), m => WindowsSoftUnmap(wos, m), m => Pass)
  }

  /** What the members need of a build's steps: mapping refuses a mapped object and otherwise
      succeeds exactly when it leaves the object mapped; unmapping refuses an unmapped object
      and leaves it unmapped when it succeeds; neither touches the file. */
  ghost predicate Sound(be: Backend)
  {
    && (forall m :: IsMapped(m) ==> be.softMap(m) == MapStep(m, Fail(AlreadyMapped)))
    && (forall m :: !IsMapped(m) ==> (be.softMap(m).outcome.Pass? <==> IsMapped(be.softMap(m).mapping)))
    && (forall m :: be.softMap(m).mapping.file == m.file)
    && (forall m :: !IsMapped(m) ==> be.softUnmap(m) == MapStep(m, Fail(NotMapped)))
    && (forall m :: be.softUnmap(m).outcome.Pass? ==> !IsMapped(be.softUnmap(m).mapping))
    && (forall m :: be.softUnmap(m).mapping.file == m.file)
  }

  lemma PosixBackendSound(p: Posix, ops: Operators, os: PosixOs, mos: PosixMapOs)
    ensures Sound(PosixBackend(p, ops, os, mos))
  {
  }

  lemma WindowsBackendSound(ops: Operators, os: WindowsOs, wos: WindowsMapOs)
    ensures Sound(WindowsBackend(ops, os, wos))
  {
  }

  /** `map`: open the file, then `soft_map`; a failed `open` stops there. */
  function Map(be: Backend, m: FileMapping): (r: MapStep)
    ensures be.files.open(m.file).outcome.Fail? ==>
              r == MapStep(m.(file := be.files.open(m.file).file), Fail(FileFailed(be.files.open(m.file).outcome.error)))
    ensures be.files.open(m.file).outcome.Pass? ==> r == be.softMap(m.(file := be.files.open(m.file).file))
  {
    var step := be.files.open(m.file);
    if step.outcome.Fail? then MapStep(m.(file := step.file), Fail(FileFailed(step.outcome.error)))
    else be.softMap(m.(file := step.file))
  }

  /** `unmap`: `soft_unmap`, then close the file. */
  function Unmap(be: Backend, m: FileMapping): (r: MapStep)
    ensures be.softUnmap(m).outcome.Fail? ==> r == be.softUnmap(m)
    ensures be.softUnmap(m).outcome.Pass? ==>
              var closed := be.files.close(be.softUnmap(m).mapping.file);
              r == MapStep(be.softUnmap(m).mapping.(file := closed.file), Lift(closed.outcome))
  {
    var u := be.softUnmap(m);
    if u.outcome.Fail? then u
    else
      var closed := be.files.close(u.mapping.file);
      MapStep(u.mapping.(file := closed.file), Lift(closed.outcome))
  }

  /** `resize`: an unmapped mapping only resizes its file; a mapped one is unmapped, its file
      resized and mapped again, and the first failing step ends the call. */
  function Resize(be: Backend, m: FileMapping, size: usize): (r: MapStep)
    ensures !IsMapped(m) ==> r == MapStep(m, Lift(be.files.resize(m.file, size)))
    ensures IsMapped(m) && be.softUnmap(m).outcome.Fail? ==> r == be.softUnmap(m)
  {
    if !IsMapped(m) then MapStep(m, Lift(be.files.resize(m.file, size)))
    else
      var u := be.softUnmap(m);
      if u.outcome.Fail? then u
      else
        var resized := be.files.resize(u.mapping.file, size);
        if resized.Fail? then MapStep(u.mapping, Lift(resized))
        else be.softMap(u.mapping)
  }

  /** `sync`: an error when not mapped, otherwise the build's flush. */
  function Sync(be: Backend, m: FileMapping): (r: Outcome<MapError>)
    ensures !IsMapped(m) ==> r == Fail(NotMapped)
    ensures IsMapped(m) ==> r == be.flush(m)
  {
    if !IsMapped(m) then Fail(NotMapped) else be.flush(m)
  }

  /** A successful `resize` leaves the mapping mapped exactly when it was mapped before, and the
      file is the same file. */
  lemma ResizeKeepsMappedState(be: Backend, m: FileMapping, size: usize)
    requires Sound(be)
    ensures Resize(be, m, size).outcome.Pass? ==> IsMapped(Resize(be, m, size).mapping) == IsMapped(m)
    ensures Resize(be, m, size).mapping.file == m.file
  {
    if IsMapped(m) {
      var u := be.softUnmap(m);
      if u.outcome.Pass? {
        assert !IsMapped(u.mapping);
        assert be.softMap(u.mapping).mapping.file == u.mapping.file;
      }
    }
  }

  /** A successful `map` of a fresh mapping leaves it mapped over an open file; a failed one
      leaves it unmapped. */
  lemma MapFromNew(b: Build, be: Backend, path: string, access: Access)
    requires Sound(be)
    ensures var r := Map(be, NewMapping(b, path, access));
            r.outcome.Pass? <==> IsMapped(r.mapping)
  {
    var m := NewMapping(b, path, access);
    var step := be.files.open(m.file);
    if step.outcome.Pass? {
      assert !IsMapped(m.(file := step.file));
    }
  }

  /** A successful `unmap` leaves the mapping unmapped, and `sync` then refuses. */
  lemma UnmapThenSyncRefuses(be: Backend, m: FileMapping)
    requires Sound(be)
    ensures Unmap(be, m).outcome.Pass? ==> !IsMapped(Unmap(be, m).mapping)
    ensures Unmap(be, m).outcome.Pass? ==> Sync(be, Unmap(be, m).mapping) == Fail(NotMapped)
  {
    var u := be.softUnmap(m);
    if u.outcome.Pass? {
      assert !IsMapped(u.mapping);
    }
  }
}
