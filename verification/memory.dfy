/** `memory.hpp`: aligned allocation on POSIX. `alloc_aligned` takes a block one `usize` larger
    than asked, writes the requested size into that first word and hands out the address just
    past it; `free_aligned` steps back over the word to free the block; `realloc_aligned`
    allocates anew, copies the old bytes across and frees the old block.

    The heap is a map from block addresses to block contents. The underlying `aligned_alloc` is a
    bump allocator above every live block that never fails, and the bytes it hands out are a
    parameter (their values are unspecified). */
module Memory {
  import opened Text
  import opened Wrappers

  /** `sizeof(usize)` on a 64-bit target. */
  const WORD: nat := 8

  type usize = x: nat | x < 0x1_0000_0000_0000_0000

  /** `256^n`, the number of values `n` little-endian bytes can hold. */
  function Pow256(n: nat): (r: nat)
    ensures r >= 1
  {
    if n == 0 then 1 else 256 * Pow256(n - 1)
  }

  /** The `n` little-endian bytes of `v` (the byte order of the 64-bit targets). */
  function LeBytes(v: nat, n: nat): (bs: seq<byte>)
    ensures |bs| == n
  {
    if n == 0 then [] else [(v % 256) as byte] + LeBytes(v / 256, n - 1)
  }

  /** The value little-endian bytes stand for. */
  function LeValue(bs: seq<byte>): (v: nat)
    ensures v < Pow256(|bs|)
  {
    if |bs| == 0 then 0 else bs[0] as nat + 256 * LeValue(bs[1..])
  }

  /** Reading back what was written gives the value, as long as it fits. */
  lemma {:induction false} LeRoundTrip(v: nat, n: nat)
    requires v < Pow256(n)
    ensures LeValue(LeBytes(v, n)) == v
  {
    if n > 0 {
      var bs := LeBytes(v, n);
      assert bs[1..] == LeBytes(v / 256, n - 1);
      LeRoundTrip(v / 256, n - 1);
    }
  }

  lemma WordFits(v: usize)
    ensures v < Pow256(WORD)
  {
    assert Pow256(WORD) == 0x1_0000_0000_0000_0000 by {
      assert Pow256(0) == 1;
      assert Pow256(4) == 0x1_0000_0000;
    }
  }

  /** The live blocks by start address, and the address below which every block lies. */
  datatype Heap = Heap(blocks: map<int, seq<byte>>, top: nat)

  /** Every block holds at least its size word, and none reaches past `top`. */
  ghost predicate Valid(h: Heap)
  {
    forall b :: b in h.blocks ==> WORD <= |h.blocks[b]| && b + |h.blocks[b]| <= h.top
  }

  /** The smallest multiple of `alignment` at or above `x`. */
  function AlignUp(x: nat, alignment: nat): (r: nat)
    requires alignment > 0
    ensures r % alignment == 0 && x <= r < x + alignment
  {
    if x % alignment == 0 then x
    else
      var k := x / alignment + 1;
      MultipleMod(alignment, k);
      alignment * k
  }

  lemma MultipleMod(a: nat, k: nat)
    requires a > 0
    ensures (a * k) % a == 0
  {
    var y := a * k;
    var m := k - y / a;
    assert y % a == a * m by {
      assert y == a * (y / a) + y % a;
      assert a * k - a * (y / a) == a * (k - y / a);
    }
    assert a * (m - 1) == a * m - a;
    assert a * (m - 1) < 0;
    assert m < 1;
    assert m >= 0;
  }

  /** A pointer `alloc_aligned` handed out: one word into a live block. */
  predicate IsUserPointer(h: Heap, p: int)
  {
    p - WORD in h.blocks && |h.blocks[p - WORD]| >= WORD
  }

  /** The size word stored just before a user pointer. */
  function Header(h: Heap, p: int): (size: nat)
    requires IsUserPointer(h, p)
  {
    LeValue(h.blocks[p - WORD][..WORD])
  }

  /** The bytes a user pointer can reach. */
  function UserSize(h: Heap, p: int): (n: nat)
    requires IsUserPointer(h, p)
    ensures n + WORD == |h.blocks[p - WORD]|
  {
    |h.blocks[p - WORD]| - WORD
  }

  datatype Allocation = Allocation(heap: Heap, pointer: int)

  /** A block whose first word holds `size`, followed by the unspecified bytes `contents`. */
  function SizedBlock(size: usize, contents: seq<byte>): (block: seq<byte>)
    requires |contents| == size
    ensures |block| == WORD + size && LeValue(block[..WORD]) == size
  {
    var block := LeBytes(size, WORD) + contents;
    WordFits(size);
    LeRoundTrip(size, WORD);
    assert block[..WORD] == LeBytes(size, WORD);
    block
  }

  /** `alloc_aligned(size, alignment)` as written: an aligned block of `size + sizeof(usize)`
      bytes whose first word holds `size`; the pointer returned is one word into it, so it is
      the block, not the pointer, that is aligned. `contents` stands for the unspecified bytes
      the user part starts with. */
  function AllocAlignedAsWritten(h: Heap, size: usize, alignment: nat, contents: seq<byte>): (r: Allocation)
    requires Valid(h) && alignment > 0 && |contents| == size
    ensures Valid(r.heap)
    ensures IsUserPointer(r.heap, r.pointer) && (r.pointer - WORD) % alignment == 0
    ensures r.pointer - WORD !in h.blocks
    ensures Header(r.heap, r.pointer) == size && UserSize(r.heap, r.pointer) == size
    ensures r.heap.blocks == h.blocks[r.pointer - WORD := r.heap.blocks[r.pointer - WORD]]
  {
    var base := AlignUp(h.top, alignment);
    var block := SizedBlock(size, contents);
    Allocation(Heap(h.blocks[base := block], base + |block|), base + WORD)
  }

  /** As written, the pointer is aligned exactly when the alignment divides the size word: for
      any alignment, the pointer lies `8 mod alignment` past a multiple of it. */
  lemma {:induction false} AsWrittenAlignment(h: Heap, size: usize, alignment: nat, contents: seq<byte>)
    requires Valid(h) && alignment > 0 && |contents| == size
    ensures AllocAlignedAsWritten(h, size, alignment, contents).pointer % alignment == WORD % alignment
    ensures AllocAlignedAsWritten(h, size, alignment, contents).pointer % alignment == 0 <==> WORD % alignment == 0
  {
    var p := AllocAlignedAsWritten(h, size, alignment, contents).pointer;
    var k := (p - WORD) / alignment;
    assert p - WORD == alignment * k;
    ShiftMod(alignment, k, WORD);
  }

  /** Adding a multiple of `a` leaves the remainder modulo `a` as it was. */
  lemma ShiftMod(a: nat, k: nat, x: nat)
    requires a > 0
    ensures (a * k + x) % a == x % a
  {
    assert x == a * (x / a) + x % a;
    assert a * k + x == a * (k + x / a) + x % a;
    ModUnique(a, a * k + x, k + x / a, x % a);
  }

  /** A remainder is the only one in range: `y == a * q + r` with `0 <= r < a` fixes `r`. */
  lemma ModUnique(a: nat, y: int, q: int, r: int)
    requires a > 0 && y == a * q + r && 0 <= r < a
    ensures y % a == r
  {
    var d := q - y / a;
    assert y == a * (y / a) + y % a;
    assert a * d == y % a - r;
    MultipleInRangeIsZero(a, d);
  }

  /** The only multiple of `a` strictly between `-a` and `a` is zero. */
  lemma MultipleInRangeIsZero(a: int, d: int)
    requires a > 0 && -a < a * d < a
    ensures d == 0
  {
  }

  /** `alloc_aligned(8, 16)` as written hands out a pointer 8 bytes past a 16-byte boundary,
      while the corrected allocation hands out a 16-aligned one. */
  lemma AllocSixteenMisaligned(h: Heap, contents: seq<byte>)
    requires Valid(h) && |contents| == 8
    ensures AllocAlignedAsWritten(h, 8, 16, contents).pointer % 16 == 8
    ensures AllocAligned(h, 8, 16, contents).pointer % 16 == 0
  {
    AsWrittenAlignment(h, 8, 16, contents);
  }

  /** `alloc_aligned(size, alignment)` with the header padded to keep the user pointer aligned:
      the pointer is the first multiple of the alignment with room for the size word below it
      and above every live block. The size word sits just below the pointer, so `free_aligned`
      steps back one word as before; the heap records a block from its size word on, and the
      padding below it is address space no block uses. */
  function AllocAligned(h: Heap, size: usize, alignment: nat, contents: seq<byte>): (r: Allocation)
    requires Valid(h) && alignment > 0 && |contents| == size
    ensures Valid(r.heap)
    ensures IsUserPointer(r.heap, r.pointer) && r.pointer % alignment == 0
    ensures r.pointer - WORD !in h.blocks && r.pointer - WORD >= h.top
    ensures Header(r.heap, r.pointer) == size && UserSize(r.heap, r.pointer) == size
    ensures r.heap.blocks == h.blocks[r.pointer - WORD := r.heap.blocks[r.pointer - WORD]]
  {
    var p := AlignUp(h.top + WORD, alignment);
    var block := SizedBlock(size, contents);
    Allocation(Heap(h.blocks[p - WORD := block], p + size), p)
  }

  /** `free_aligned(p)`: the block one word below `p` is released, and only it. */
  function FreeAligned(h: Heap, p: int): (r: Heap)
    requires Valid(h) && IsUserPointer(h, p)
    ensures Valid(r)
    ensures r.blocks == h.blocks - {p - WORD}
  {
    h.(blocks := h.blocks - {p - WORD})
  }

  /** `n` bytes at `offset` past a user pointer. */
  function Load(h: Heap, p: int, offset: nat, n: nat): (bs: seq<byte>)
    requires IsUserPointer(h, p) && offset + n <= UserSize(h, p)
    ensures |bs| == n
  {
    h.blocks[p - WORD][WORD + offset..WORD + offset + n]
  }

  /** Two byte strings of one length that differ at most in `[lo, hi)`. */
  predicate SameOutside(a: seq<byte>, b: seq<byte>, lo: int, hi: int)
  {
    |a| == |b| && forall i :: 0 <= i < |a| && !(lo <= i < hi) ==> a[i] == b[i]
  }

  /** Writing bytes at `offset` past a user pointer; the header and every other block stay. */
  function Store(h: Heap, p: int, offset: nat, data: seq<byte>): (r: Heap)
    requires Valid(h) && IsUserPointer(h, p) && offset + |data| <= UserSize(h, p)
    ensures Valid(r) && IsUserPointer(r, p) && UserSize(r, p) == UserSize(h, p)
    ensures Load(r, p, offset, |data|) == data
    ensures r.blocks.Keys == h.blocks.Keys
    ensures forall b :: b in h.blocks && b != p - WORD ==> r.blocks[b] == h.blocks[b]
    ensures Header(r, p) == Header(h, p)
    ensures SameOutside(r.blocks[p - WORD], h.blocks[p - WORD], WORD + offset, WORD + offset + |data|)
  {
    var block := h.blocks[p - WORD];
    var updated := block[..WORD + offset] + data + block[WORD + offset + |data|..];
    assert updated[..WORD] == block[..WORD];
    assert updated[WORD + offset..WORD + offset + |data|] == data;
    h.(blocks := h.blocks[p - WORD := updated])
  }

  /** `realloc_aligned(p, old_size, size, alignment)` as written: a new block of `size`, then
      `old_size` bytes copied into it. When the block shrinks (`old_size > size`) that copy
      writes past the end of the new block, which is undefined behaviour; the model reports it
      as no result. Otherwise it is the corrected operation. */
  function ReallocAlignedAsWritten(h: Heap, p: int, oldSize: usize, size: usize, alignment: nat, contents: seq<byte>): (r: Option<Allocation>)
    requires Valid(h) && IsUserPointer(h, p) && alignment > 0 && |contents| == size
    requires oldSize <= UserSize(h, p)
    ensures r.None? <==> oldSize > size
    ensures r.Some? ==> r.value == ReallocAligned(h, p, oldSize, size, alignment, contents)
  {
    if oldSize > size then None else Some(ReallocAligned(h, p, oldSize, size, alignment, contents))
  }

  /** `realloc_aligned` copying no more than both blocks hold: a new block of `size` whose first
      `min(old_size, size)` bytes are the old block's, the old block freed, every other block
      untouched. */
  function ReallocAligned(h: Heap, p: int, oldSize: usize, size: usize, alignment: nat, contents: seq<byte>): (r: Allocation)
    requires Valid(h) && IsUserPointer(h, p) && alignment > 0 && |contents| == size
    requires oldSize <= UserSize(h, p)
    ensures Valid(r.heap) && IsUserPointer(r.heap, r.pointer) && r.pointer % alignment == 0
    ensures Header(r.heap, r.pointer) == size && UserSize(r.heap, r.pointer) == size
    ensures oldSize <= size ==> Load(r.heap, r.pointer, 0, oldSize) == Load(h, p, 0, oldSize)
    ensures size < oldSize ==> Load(r.heap, r.pointer, 0, size) == Load(h, p, 0, size)
    ensures p - WORD !in r.heap.blocks
    ensures forall b :: b in h.blocks && b != p - WORD ==> b in r.heap.blocks && r.heap.blocks[b] == h.blocks[b]
    ensures r.heap.blocks.Keys == h.blocks.Keys - {p - WORD} + {r.pointer - WORD}
  {
    var n := if oldSize <= size then oldSize else size;
    var a := AllocAligned(h, size, alignment, contents);
    var copied := Store(a.heap, a.pointer, 0, Load(h, p, 0, n));
    assert IsUserPointer(copied, p);
    Allocation(FreeAligned(copied, p), a.pointer)
  }

  /** Shrinking a block: as written the copy runs past the new block, while the corrected
      operation keeps the first `size` bytes. */
  lemma ShrinkOverruns(h: Heap, p: int, oldSize: usize, size: usize, alignment: nat, contents: seq<byte>)
    requires Valid(h) && IsUserPointer(h, p) && alignment > 0 && |contents| == size
    requires size < oldSize <= UserSize(h, p)
    ensures ReallocAlignedAsWritten(h, p, oldSize, size, alignment, contents).None?
    ensures var r := ReallocAligned(h, p, oldSize, size, alignment, contents);
            UserSize(r.heap, r.pointer) == size && Load(r.heap, r.pointer, 0, size) == Load(h, p, 0, size)
  {
  }

  /** `sizeof(Foo)` in the tests: two `u16` fields, padded to the pointer alignment. */
  const FOO_SIZE: usize := 8

  /** A `Foo{x, y}` as it lies in memory. */
  function FooBytes(x: nat, y: nat): (bs: seq<byte>)
    requires x < 0x1_0000 && y < 0x1_0000
    ensures |bs| == 4
  {
    LeBytes(x, 2) + LeBytes(y, 2)
  }

  /** The realloc test: a `Foo` written into a fresh block survives the block being doubled;
      the second `Foo` slot of the new block can be written without disturbing the first, and
      the user pointer is pointer-aligned. */
  lemma ReallocKeepsFoo(h: Heap, fresh1: seq<byte>, fresh2: seq<byte>)
    requires Valid(h) && |fresh1| == FOO_SIZE && |fresh2| == 2 * FOO_SIZE
    ensures var a := AllocAligned(h, FOO_SIZE, WORD, fresh1);
            var written := Store(a.heap, a.pointer, 0, FooBytes(1337, 69));
            var grown := ReallocAligned(written, a.pointer, FOO_SIZE, 2 * FOO_SIZE, WORD, fresh2);
            var second := Store(grown.heap, grown.pointer, FOO_SIZE, FooBytes(444, 222));
            && Load(grown.heap, grown.pointer, 0, 4) == FooBytes(1337, 69)
            && Load(second, grown.pointer, FOO_SIZE, 4) == FooBytes(444, 222)
            && Load(second, grown.pointer, 0, 4) == FooBytes(1337, 69)
            && grown.pointer % WORD == 0
  {
    var foo, bar := FooBytes(1337, 69), FooBytes(444, 222);
    var a := AllocAligned(h, FOO_SIZE, WORD, fresh1);
    var written := Store(a.heap, a.pointer, 0, foo);
    var grown := ReallocAligned(written, a.pointer, FOO_SIZE, 2 * FOO_SIZE, WORD, fresh2);
    LoadPrefix(written, a.pointer, FOO_SIZE, 4);
    LoadPrefix(grown.heap, grown.pointer, FOO_SIZE, 4);
    var second := Store(grown.heap, grown.pointer, FOO_SIZE, bar);
    StoreKeepsBefore(grown.heap, grown.pointer, FOO_SIZE, bar, 4);
  }

  /** A shorter load from the start is a prefix of a longer one. */
  lemma LoadPrefix(h: Heap, p: int, n: nat, m: nat)
    requires IsUserPointer(h, p) && m <= n <= UserSize(h, p)
    ensures Load(h, p, 0, m) == Load(h, p, 0, n)[..m]
  {
  }

  /** A store leaves the bytes before it as they were. */
  lemma StoreKeepsBefore(h: Heap, p: int, offset: nat, data: seq<byte>, n: nat)
    requires Valid(h) && IsUserPointer(h, p) && offset + |data| <= UserSize(h, p) && n <= offset
    ensures Load(Store(h, p, offset, data), p, 0, n) == Load(h, p, 0, n)
  {
    var r := Store(h, p, offset, data);
    forall i | 0 <= i < n ensures Load(r, p, 0, n)[i] == Load(h, p, 0, n)[i] {
      assert r.blocks[p - WORD][WORD + i] == h.blocks[p - WORD][WORD + i];
    }
  }
}
