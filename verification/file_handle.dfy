/** `file_handle.hpp`: a native file handle (a descriptor on POSIX, a `HANDLE` on Windows)
    wrapped so that it knows its invalid values. */
module FileHandle {
  import opened Platform

  /** `INVALID_HANDLE_VALUE`, the pointer `(HANDLE)-1` on a 64-bit system. */
  const INVALID_HANDLE_VALUE: int := 0xFFFF_FFFF_FFFF_FFFF
  /** A null `HANDLE`. */
  const NULL_HANDLE: int := 0
  /** The invalid descriptor on POSIX. */
  const INVALID_DESCRIPTOR: int := -1

  /** The raw handle value: a descriptor, or the address a `HANDLE` holds. */
  datatype FileHandle = FileHandle(value: int)

  /** `KSTD_INVALID_FILE_HANDLE` of a build. */
  function InvalidValue(b: Build): int
  {
    if b.WindowsBuild? then INVALID_HANDLE_VALUE else INVALID_DESCRIPTOR
  }

  /** `FileHandle::is_valid` */
  predicate IsValid(b: Build, h: FileHandle)
  {
    if b.WindowsBuild? then h.value != NULL_HANDLE && h.value != INVALID_HANDLE_VALUE
    else h.value != INVALID_DESCRIPTOR
  }

  /** The default constructor: the build's invalid value. */
  function DefaultHandle(b: Build): (h: FileHandle)
    ensures !IsValid(b, h)
    ensures h.value == InvalidValue(b)
  {
    FileHandle(InvalidValue(b))
  }

  /** `operator==` and `operator!=` on handles compare the raw values. */
  predicate HandleEquals(a: FileHandle, b: FileHandle)
  {
    a.value == b.value
  }

  predicate HandleDiffers(a: FileHandle, b: FileHandle)
  {
    a.value != b.value
  }

  /** Wrapping and converting back returns the raw value; the two comparisons are complementary
      and agree with identity of the value; validity excludes exactly the build's invalid
      values. */
  lemma HandleLaws(b: Build, v: int, x: FileHandle, y: FileHandle)
    ensures FileHandle(v).value == v
    ensures HandleEquals(x, y) <==> x == y
    ensures HandleDiffers(x, y) <==> !HandleEquals(x, y)
    ensures b.PosixBuild? ==> (IsValid(b, FileHandle(v)) <==> v != -1)
    ensures b.WindowsBuild? ==> (IsValid(b, FileHandle(v)) <==> v !in {NULL_HANDLE, INVALID_HANDLE_VALUE})
  {
  }
}
