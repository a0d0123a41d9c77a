/** `src/named_mapping.cpp`: a `NamedMapping` maps a named shared-memory object of a given
    size. `map` creates the object and maps it, `unmap` unmaps and releases it, `resize` changes
    the size and maps again when it was mapped, `sync` flushes it. As for `FileMapping`, the
    per-build steps are given separately and the members that combine them once. */
module NamedMappings {
  import opened Wrappers
  import opened Platform
  import opened FileHandle
  import opened FileSystem
  import opened MemoryMapping

  /** A `NamedMapping`: its name, access, size, the shared-memory handle and the mapped
      address (`NULL` when unmapped). */
  datatype NamedMapping = NamedMapping(name: string, access: Access, size: usize, handle: FileHandle, address: int)

  predicate IsMapped(n: NamedMapping)
  {
    n.address != NULL
  }

  datatype NamedStep = NamedStep(mapping: NamedMapping, outcome: Outcome<MapError>)

  /** The constructor: name, access and size stored, nothing mapped. */
  function NewNamedMapping(b: Build, name: string, access: Access, size: usize): (n: NamedMapping)
    ensures n.name == name && n.access == access && n.size == size
    ensures !IsMapped(n) && !IsValid(b, n.handle)
  {
    NamedMapping(name, access, size, DefaultHandle(b), NULL)
  }

  /** The flags of `shm_open`: always create and fail if the name exists; read-write when the
      mapping writes, read-only otherwise. */
  function ShmFlags(p: Posix, readable: bool, writable: bool): (flags: bv32)
    ensures flags & OCreat(p) != 0 && flags & OExcl(p) != 0
    ensures flags & O_ACCMODE == (if writable then O_RDWR else O_RDONLY)
    ensures flags & !(OCreat(p) | OExcl(p) | O_ACCMODE) == 0
  {
    var create: bv32 := if p.Linux? then 0x40 | 0x80 else 0x200 | 0x800;
    var access := if writable then O_RDWR else if readable then O_RDONLY else 0;
    assert create & O_ACCMODE == 0 && create & !(OCreat(p) | OExcl(p) | O_ACCMODE) == 0;
    create | access
  }

  /** The permissions of `shm_open`: owner read, write and execute as the mapping asks. */
  function ShmPermissions(readable: bool, writable: bool, executable: bool): (perms: bv32)
    ensures perms & S_IRUSR != 0 <==> readable
    ensures perms & S_IWUSR != 0 <==> writable
    ensures perms & S_IXUSR != 0 <==> executable
    ensures perms & !(S_IRUSR | S_IWUSR | S_IXUSR) == 0
  {
    (if readable then S_IRUSR else 0) | (if writable then S_IWUSR else 0) | (if executable then S_IXUSR else 0)
  }

  /** The POSIX calls of a named mapping. */
  datatype ShmOs = ShmOs(
    shmOpen: (string, bv32, bv32) -> int,
    mmap: (usize, bv32, bv32, int) -> int,
    munmap: (int, usize) -> bool,
    close: int -> bool,
    shmUnlink: string -> bool,
    msync: (int, usize) -> bool)

  /** `map` on POSIX: `shm_open`, then `mmap` of the whole size. A failure keeps the handle
      obtained; a failed `mmap` (`MAP_FAILED`, or `NULL`) leaves the object unmapped. */
  function PosixMap(p: Posix, ops: Operators, os: ShmOs, n: NamedMapping): (r: NamedStep)
    ensures IsMapped(n) ==> r == NamedStep(n, Fail(AlreadyMapped))
    ensures !IsMapped(n) ==> (r.outcome.Pass? <==> IsMapped(r.mapping))
    ensures r.mapping.(handle := n.handle, address := n.address) == n
    ensures !IsMapped(n) ==>
              var readable := ops.flagTest(n.access, READ);
              var writable := ops.flagTest(n.access, WRITE);
              var executable := ops.flagTest(n.access, EXECUTE);
              && r.mapping.handle == FileHandle(os.shmOpen(n.name, ShmFlags(p, readable, writable), ShmPermissions(readable, writable, executable)))
              && (r.outcome.Pass? ==> IsValid(PosixBuild, r.mapping.handle))
              && (r.outcome.Pass? ==>
                    r.mapping.address == os.mmap(n.size, PosixProt(readable, writable, executable), PosixMapFlags(p, executable), r.mapping.handle.value))
  {
    if IsMapped(n) then NamedStep(n, Fail(AlreadyMapped))
    else
      var readable := ops.flagTest(n.access, READ);
      var writable := ops.flagTest(n.access, WRITE);
      var executable := ops.flagTest(n.access, EXECUTE);
      var h := FileHandle(os.shmOpen(n.name, ShmFlags(p, readable, writable), ShmPermissions(readable, writable, executable)));
      if !IsValid(PosixBuild, h) then NamedStep(n.(handle := h), Fail(HandleFailed))
      else
        var address := os.mmap(n.size, PosixProt(readable, writable, executable), PosixMapFlags(p, executable), h.value);
        if address == NULL || address == MAP_FAILED then NamedStep(n.(handle := h), Fail(MapFailed))
        else NamedStep(n.(handle := h, address := address), Pass)
  }

  /** The `shm_open` handle `map` asks for. */
  function ShmHandle(p: Posix, ops: Operators, os: ShmOs, n: NamedMapping): FileHandle
  {
    var readable := ops.flagTest(n.access, READ);
    var writable := ops.flagTest(n.access, WRITE);
    var executable := ops.flagTest(n.access, EXECUTE);
    FileHandle(os.shmOpen(n.name, ShmFlags(p, readable, writable), ShmPermissions(readable, writable, executable)))
  }

  /** The `mmap` call of `map` over that handle. */
  function ShmMmap(p: Posix, ops: Operators, os: ShmOs, n: NamedMapping): int
  {
    var readable := ops.flagTest(n.access, READ);
    var writable := ops.flagTest(n.access, WRITE);
    var executable := ops.flagTest(n.access, EXECUTE);
    os.mmap(n.size, PosixProt(readable, writable, executable), PosixMapFlags(p, executable), ShmHandle(p, ops, os, n).value)
  }

  /** `map` on POSIX as written: the result of `mmap` is stored and compared against `nullptr`
      only, which `mmap` does not return on failure. */
  function PosixMapAsWritten(p: Posix, ops: Operators, os: ShmOs, n: NamedMapping): (r: NamedStep)
    ensures IsMapped(n) ==> r == NamedStep(n, Fail(AlreadyMapped))
    ensures r.mapping.(handle := n.handle, address := n.address) == n
    ensures !IsMapped(n) ==> r.mapping.handle == ShmHandle(p, ops, os, n)
    ensures !IsMapped(n) ==>
              (r.outcome.Pass? <==> IsValid(PosixBuild, ShmHandle(p, ops, os, n)) && ShmMmap(p, ops, os, n) != NULL)
    ensures r.outcome.Pass? ==> r.mapping.address == ShmMmap(p, ops, os, n)
  {
    if IsMapped(n) then NamedStep(n, Fail(AlreadyMapped))
    else
      var h := ShmHandle(p, ops, os, n);
      if !IsValid(PosixBuild, h) then NamedStep(n.(handle := h), Fail(HandleFailed))
      else
        var address := ShmMmap(p, ops, os, n);
        if address == NULL then NamedStep(n.(handle := h, address := address), Fail(MapFailed))
        else NamedStep(n.(handle := h, address := address), Pass)
  }

  /** When `mmap` fails, `map` as written reports success and the object counts as mapped, at
      the address `MAP_FAILED`; the corrected `map` reports the failure and stays unmapped. */
  lemma NamedMapFailureGoesUnnoticed(p: Posix, ops: Operators, os: ShmOs, n: NamedMapping)
    requires !IsMapped(n) && IsValid(PosixBuild, ShmHandle(p, ops, os, n))
    requires ShmMmap(p, ops, os, n) == MAP_FAILED
    ensures PosixMapAsWritten(p, ops, os, n).outcome == Pass
    ensures IsMapped(PosixMapAsWritten(p, ops, os, n).mapping)
    ensures PosixMapAsWritten(p, ops, os, n).mapping.address == MAP_FAILED
    ensures PosixMap(p, ops, os, n).outcome == Fail(MapFailed) && !IsMapped(PosixMap(p, ops, os, n).mapping)
  {
  }

  /** `unmap` on POSIX: `munmap`, `close` and `shm_unlink` in turn, stopping at the first that
      fails and leaving the object as it was; success releases handle and address. */
  function PosixUnmap(os: ShmOs, n: NamedMapping): (r: NamedStep)
    ensures !IsMapped(n) ==> r == NamedStep(n, Fail(NotMapped))
    ensures r.outcome.Pass? <==> IsMapped(n) && os.munmap(n.address, n.size) && os.close(n.handle.value) && os.shmUnlink(n.name)
    ensures r.outcome.Pass? ==> r.mapping == n.(handle := DefaultHandle(PosixBuild), address := NULL)
    ensures r.outcome.Fail? ==> r.mapping == n
  {
    if !IsMapped(n) then NamedStep(n, Fail(NotMapped))
    else if !os.munmap(n.address, n.size) || !os.close(n.handle.value) || !os.shmUnlink(n.name) then NamedStep(n, Fail(UnmapFailed))
    else NamedStep(n.(handle := DefaultHandle(PosixBuild), address := NULL), Pass)
  }

  /** The Windows calls of a named mapping. */
  datatype NamedWindowsOs = NamedWindowsOs(
    initSecurityDescriptor: bool,
    createNamedMapping: (string, bv32, bv32, usize) -> int,
    mapView: (int, bv32) -> int,
    unmapView: int -> bool,
    closeHandle: int -> bool)

  /** `map` on Windows: a security descriptor, a named file-mapping object of the size with the
      page protection, then a view with the view access. */
  function WindowsMap(ops: Operators, os: NamedWindowsOs, n: NamedMapping): (r: NamedStep)
    ensures IsMapped(n) ==> r == NamedStep(n, Fail(AlreadyMapped))
    ensures !IsMapped(n) && !os.initSecurityDescriptor ==> r == NamedStep(n, Fail(MapError.SecurityDescriptorFailed))
    ensures !IsMapped(n) ==> (r.outcome.Pass? <==> IsMapped(r.mapping))
    ensures r.mapping.(handle := n.handle, address := n.address) == n
    ensures r.outcome.Pass? ==> IsValid(WindowsBuild, r.mapping.handle)
    ensures r.outcome.Pass? ==>
              var readable := ops.flagTest(n.access, READ);
              var writable := ops.flagTest(n.access, WRITE);
              var executable := ops.flagTest(n.access, EXECUTE);
              && r.mapping.handle.value == os.createNamedMapping(n.name, ViewAccess(readable, writable, executable),
                                                                 PageProtection(readable, writable, executable), n.size)
              && r.mapping.address == os.mapView(r.mapping.handle.value, ViewAccess(readable, writable, executable))
  {
    if IsMapped(n) then NamedStep(n, Fail(AlreadyMapped))
    else if !os.initSecurityDescriptor then NamedStep(n, Fail(MapError.SecurityDescriptorFailed))
    else
      var readable := ops.flagTest(n.access, READ);
      var writable := ops.flagTest(n.access, WRITE);
      var executable := ops.flagTest(n.access, EXECUTE);
      var view := ViewAccess(readable, writable, executable);
      var h := FileHandle(os.createNamedMapping(n.name, view, PageProtection(readable, writable, executable), n.size));
      if !IsValid(WindowsBuild, h) then NamedStep(n.(handle := h), Fail(HandleFailed))
      else
        var address := os.mapView(h.value, view);
        if address == NULL then NamedStep(n.(handle := h), Fail(MapFailed))
        else NamedStep(n.(handle := h, address := address), Pass)
  }

  /** `unmap` on Windows: unmap the view, then close the handle. */
  function WindowsUnmap(os: NamedWindowsOs, n: NamedMapping): (r: NamedStep)
    ensures !IsMapped(n) ==> r == NamedStep(n, Fail(NotMapped))
    ensures r.outcome.Pass? <==> IsMapped(n) && os.unmapView(n.address) && os.closeHandle(n.handle.value)
    ensures r.outcome.Pass? ==> r.mapping == n.(handle := DefaultHandle(WindowsBuild), address := NULL)
    ensures r.outcome.Fail? ==> r.mapping == n
  {
    if !IsMapped(n) then NamedStep(n, Fail(NotMapped))
    else if !os.unmapView(n.address) || !os.closeHandle(n.handle.value) then NamedStep(n, Fail(UnmapFailed))
    else NamedStep(n.(handle := DefaultHandle(WindowsBuild), address := NULL), Pass)
  }

  /** One build's `map`, `unmap` and the flush of `sync`. */
  datatype Backend = Backend(
    mapStep: NamedMapping -> NamedStep,
    unmapStep: NamedMapping -> NamedStep,
    flush: NamedMapping -> Outcome<MapError>)

  function PosixBackend(p: Posix, ops: Operators, os: ShmOs): Backend
  {
    Backend(n => PosixMap(p, ops, os, n), n => PosixUnmap(os, n),
            (n: NamedMapping) => if os.msync(n.address, n.size) then Pass else Fail(SyncFailed))
  }

  function WindowsBackend(ops: Operators, os: NamedWindowsOs): Backend
  {
    Backend(n => WindowsMap(ops, os, n), n => WindowsUnmap(os, n), n => Pass)
  }

  /** What `resize` needs of a build: `map` refuses a mapped object, otherwise succeeds exactly
      when it leaves the object mapped; `unmap` leaves the object unmapped when it succeeds and
      unchanged when it fails; neither changes name, access or size. */
  ghost predicate Sound(be: Backend)
  {
    && (forall n :: !IsMapped(n) ==> (be.mapStep(n).outcome.Pass? <==> IsMapped(be.mapStep(n).mapping)))
    && (forall n :: be.mapStep(n).mapping.size == n.size)
    && (forall n :: be.unmapStep(n).outcome.Pass? ==> !IsMapped(be.unmapStep(n).mapping))
    && (forall n :: be.unmapStep(n).outcome.Fail? ==> be.unmapStep(n).mapping == n)
    && (forall n :: be.unmapStep(n).mapping.size == n.size)
  }

  lemma PosixBackendSound(p: Posix, ops: Operators, os: ShmOs)
    ensures Sound(PosixBackend(p, ops, os))
  {
  }

  lemma WindowsBackendSound(ops: Operators, os: NamedWindowsOs)
    ensures Sound(WindowsBackend(ops, os))
  {
  }

  /** `resize`: unmap when mapped (a failure ends the call with the size unchanged), take the
      new size, map again when it was mapped. */
  function Resize(be: Backend, n: NamedMapping, size: usize): (r: NamedStep)
    ensures !IsMapped(n) ==> r == NamedStep(n.(size := size), Pass)
    ensures IsMapped(n) && be.unmapStep(n).outcome.Fail? ==> r == be.unmapStep(n)
  {
    if !IsMapped(n) then NamedStep(n.(size := size), Pass)
    else
      var u := be.unmapStep(n);
      if u.outcome.Fail? then u
      else be.mapStep(u.mapping.(size := size))
  }

  /** `sync`: an error when not mapped, the build's flush otherwise. */
  function Sync(be: Backend, n: NamedMapping): (r: Outcome<MapError>)
    ensures !IsMapped(n) ==> r == Fail(NotMapped)
    ensures IsMapped(n) ==> r == be.flush(n)
  {
    if !IsMapped(n) then Fail(NotMapped) else be.flush(n)
  }

  /** A successful `resize` has the new size and is mapped exactly when it was before; a
      `resize` whose unmapping fails keeps the old size. */
  lemma ResizeLaws(be: Backend, n: NamedMapping, size: usize)
    requires Sound(be)
    ensures Resize(be, n, size).outcome.Pass? ==> Resize(be, n, size).mapping.size == size
    ensures Resize(be, n, size).outcome.Pass? ==> IsMapped(Resize(be, n, size).mapping) == IsMapped(n)
    ensures IsMapped(n) && be.unmapStep(n).outcome.Fail? ==> Resize(be, n, size).mapping == n
  {
    if IsMapped(n) {
      var u := be.unmapStep(n);
      if u.outcome.Pass? {
        assert !IsMapped(u.mapping.(size := size));
        assert be.mapStep(u.mapping.(size := size)).mapping.size == size;
      }
    }
  }
}
