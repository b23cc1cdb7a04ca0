/** The libc allocation shim over a byte-addressed heap (crates/smirk-wasm/src/wasm_libc_shim.rs), on
    wasm32: a `usize` has four bytes. */
module Allocator {
  import opened Outcomes
  import opened ByteStrings

  const HEADER_SIZE := 16
  const ALIGN := 16
  const USIZE_MAX := 0xFFFF_FFFF
  const ISIZE_MAX := 0x7FFF_FFFF
  const NULL := 0
  const UNDEFINED := "undefined behaviour"

  type usize = u32

  /** Linear memory, and the blocks the Rust allocator has handed out and not taken back: address and the
      layout size it was asked for. */
  datatype Heap = Heap(mem: Bytes, live: map<nat, nat>)

  /** What the Rust allocator answers: an address or null, and the memory it leaves behind. */
  datatype Answer = Answer(raw: nat, after: Bytes)

  /** The layout of a request; the shim stops where `Layout` would refuse. */
  function UserLayout(size: usize): Outcome<nat> {
    if size + HEADER_SIZE > USIZE_MAX then Panic("allocation size overflow")
    else if size + HEADER_SIZE > ISIZE_MAX - (ALIGN - 1) then Panic("invalid layout")
    else Ok(size + HEADER_SIZE)
  }

  // ----- memory ------------------------------------------------------------------------------

  function Patch(mem: Bytes, at: nat, data: Bytes): (m: Bytes)
    requires at + |data| <= |mem|
    ensures |m| == |mem|
    ensures m[at..at + |data|] == data
  {
    mem[..at] + data + mem[at + |data|..]
  }

  predicate Apart(a: nat, m: nat, b: nat, n: nat) {
    a + m <= b || b + n <= a
  }

  lemma PatchElsewhere(mem: Bytes, at: nat, data: Bytes, from: nat, n: nat)
    requires at + |data| <= |mem| && from + n <= |mem| && Apart(at, |data|, from, n)
    ensures Patch(mem, at, data)[from..from + n] == mem[from..from + n]
  {
  }

  // ----- the Rust allocator ------------------------------------------------------------------

  /** Every live block but `except` has the bytes it had. */
  ghost predicate Keeps(h: Heap, after: Bytes, except: set<nat>) {
    |after| == |h.mem| &&
    forall raw | raw in h.live && raw !in except ::
      raw + h.live[raw] <= |h.mem| && after[raw..raw + h.live[raw]] == h.mem[raw..raw + h.live[raw]]
  }

  /** What `alloc` promises: null, or an aligned range apart from every live block; live blocks untouched. */
  ghost predicate Honest(h: Heap, total: nat, answer: Answer) {
    && Keeps(h, answer.after, {})
    && (answer.raw != NULL ==>
          && answer.raw % ALIGN == 0 && answer.raw + total <= |h.mem|
          && forall raw | raw in h.live :: Apart(answer.raw, total, raw, h.live[raw]))
  }

  function Alloc(h: Heap, total: nat, answer: Answer): (Heap, nat) {
    (Heap(answer.after, if answer.raw == NULL then h.live else h.live[answer.raw := total]), answer.raw)
  }

  /** `dealloc` is undefined unless the block is live and was allocated with the same layout. */
  function Dealloc(h: Heap, raw: nat, total: nat, after: Bytes): (r: Outcome<Heap>)
    ensures r.Ok? <==> raw in h.live && h.live[raw] == total
  {
    if raw in h.live && h.live[raw] == total then Ok(Heap(after, h.live - {raw})) else Err(UNDEFINED)
  }

  // ----- the shim ----------------------------------------------------------------------------

  function Malloc(h: Heap, size: usize, answer: Answer): Outcome<(Heap, nat)> {
    if size == 0 then Ok((h, ALIGN)) else
    var total :- UserLayout(size);
    var (claimed, raw) := Alloc(h, total, answer);
    if raw == NULL then Ok((claimed, NULL))
    else if raw + 4 > |claimed.mem| then Err(UNDEFINED)
    else Ok((claimed.(mem := Patch(claimed.mem, raw, LeBytes32(size))), raw + HEADER_SIZE))
  }

  /** The requested size stored ahead of a pointer. */
  function StoredSize(h: Heap, ptr: nat): Outcome<usize> {
    if ptr < HEADER_SIZE || ptr - HEADER_SIZE + 4 > |h.mem| then Err(UNDEFINED)
    else Ok(LeValue32(h.mem[ptr - HEADER_SIZE..ptr - HEADER_SIZE + 4]))
  }

  function Free(h: Heap, ptr: nat, after: Bytes): Outcome<Heap> {
    if ptr == NULL || ptr == ALIGN then Ok(h) else
    var size :- StoredSize(h, ptr);
    var total :- UserLayout(size);
    Dealloc(h, ptr - HEADER_SIZE, total, after)
  }

  function Zeros(n: nat): (b: Bytes)
    ensures |b| == n
  {
    seq(n, _ => 0)
  }

  function Product(nmemb: usize, size: usize): nat {
    nmemb * size
  }

  function Calloc(h: Heap, nmemb: usize, size: usize, answer: Answer): Outcome<(Heap, nat)> {
    var total := Product(nmemb, size);
    if total > USIZE_MAX then Panic("calloc multiplication overflow") else
    var (made, ptr) :- Malloc(h, total, answer);
    if ptr == NULL || total == 0 then Ok((made, ptr))
    else if ptr + total > |made.mem| then Err(UNDEFINED)
    else Ok((made.(mem := Patch(made.mem, ptr, Zeros(total))), ptr))
  }

  /** The first half of a move: allocate and copy as much as both sizes have. */
  function CopyOver(h: Heap, ptr: nat, newSize: usize, answer: Answer): Outcome<(Heap, nat)> {
    var oldSize :- StoredSize(h, ptr);
    var (made, moved) :- Malloc(h, newSize, answer);
    if moved == NULL then Ok((made, NULL)) else
    var n := Min(oldSize, newSize);
    if ptr + n > |made.mem| || moved + n > |made.mem| then Err(UNDEFINED)
    else Ok((made.(mem := Patch(made.mem, moved, made.mem[ptr..ptr + n])), moved))
  }

  /** Allocate, copy, free. */
  function Realloc(h: Heap, ptr: nat, newSize: usize, answer: Answer, after: Bytes): Outcome<(Heap, nat)> {
    if ptr == NULL then Malloc(h, newSize, answer)
    else if newSize == 0 then
      var freed :- Free(h, ptr, after);
      Ok((freed, NULL))
    else if ptr == ALIGN then Malloc(h, newSize, answer)
    else
      var (copied, moved) :- CopyOver(h, ptr, newSize, answer);
      if moved == NULL then Ok((copied, NULL)) else
      var freed :- Free(copied, ptr, after);
      Ok((freed, moved))
  }

  function Min(a: nat, b: nat): nat {
    if a < b then a else b
  }

  // ----- the invariant -----------------------------------------------------------------------

  /** A live block's header holds the size whose layout the block was allocated with. */
  ghost predicate WellFormed(h: Heap, raw: nat)
    requires raw in h.live
  {
    && raw != NULL && raw % ALIGN == 0 && raw + h.live[raw] <= |h.mem|
    && h.live[raw] > HEADER_SIZE
    && UserLayout(LeValue32(h.mem[raw..raw + 4])) == Ok(h.live[raw])
  }

  ghost predicate Valid(h: Heap) {
    && |h.mem| <= USIZE_MAX + 1
    && (forall raw | raw in h.live :: WellFormed(h, raw))
    && (forall a, b | a in h.live && b in h.live && a != b :: Apart(a, h.live[a], b, h.live[b]))
  }

  /** A pointer a client holds: null, the size-0 sentinel, or just past a live block's header. */
  ghost predicate Held(h: Heap, ptr: nat) {
    ptr == NULL || ptr == ALIGN || (ptr >= HEADER_SIZE && ptr - HEADER_SIZE in h.live)
  }

  /** The block a pointer gives back; null and the sentinel give none. */
  function Released(ptr: nat): set<nat> {
    if ptr < HEADER_SIZE || ptr == ALIGN then {} else {ptr - HEADER_SIZE}
  }

  /** Blocks live in both heaps have the same size and bytes, headers included. */
  ghost predicate SameBlock(h: Heap, h': Heap, raw: nat) {
    && raw in h.live && raw in h'.live && h.live[raw] == h'.live[raw]
    && raw + h.live[raw] <= |h.mem| && |h.mem| == |h'.mem|
    && h'.mem[raw..raw + h.live[raw]] == h.mem[raw..raw + h.live[raw]]
  }

  lemma SameBlockWellFormed(h: Heap, h': Heap, raw: nat)
    requires SameBlock(h, h', raw) && WellFormed(h, raw)
    ensures WellFormed(h', raw)
  {
    RangeWithin(h.mem, raw, h.live[raw], raw, 4);
    RangeWithin(h'.mem, raw, h.live[raw], raw, 4);
  }

  /** The heap after a request was met: the block added, its header written. */
  ghost function Added(h: Heap, size: usize, answer: Answer): Heap
    requires answer.raw + 4 <= |answer.after|
  {
    Heap(Patch(answer.after, answer.raw, LeBytes32(size)), h.live[answer.raw := size + HEADER_SIZE])
  }

  lemma AddedKeeps(h: Heap, size: usize, answer: Answer, b: nat)
    requires Valid(h) && Honest(h, size + HEADER_SIZE, answer) && answer.raw != NULL && b in h.live
    ensures answer.raw != b && SameBlock(h, Added(h, size, answer), b) && WellFormed(Added(h, size, answer), b)
  {
    hide LeBytes32, LeValue32, Patch, UserLayout;
    assert WellFormed(h, b);
    assert Apart(answer.raw, size + HEADER_SIZE, b, h.live[b]);
    PatchElsewhere(answer.after, answer.raw, LeBytes32(size), b, h.live[b]);
    SameBlockWellFormed(h, Added(h, size, answer), b);
  }

  lemma AddedValid(h: Heap, size: usize, answer: Answer)
    requires Valid(h) && Honest(h, size + HEADER_SIZE, answer) && answer.raw != NULL
    requires size != 0 && UserLayout(size).Ok?
    ensures answer.raw !in h.live && Valid(Added(h, size, answer))
    ensures forall raw | raw in h.live :: SameBlock(h, Added(h, size, answer), raw)
  {
    hide LeBytes32, LeValue32, Patch, SameBlock;
    var h' := Added(h, size, answer);
    LeReadsBack(size);
    assert WellFormed(h', answer.raw);
    forall b | b in h.live
      ensures answer.raw != b && SameBlock(h, h', b) && WellFormed(h', b)
    {
      AddedKeeps(h, size, answer, b);
    }
  }

  lemma Untouched(h: Heap, after: Bytes)
    requires Valid(h) && Keeps(h, after, {})
    ensures Valid(Heap(after, h.live))
    ensures forall raw | raw in h.live :: SameBlock(h, Heap(after, h.live), raw)
  {
    hide LeValue32, UserLayout;
    forall b | b in h.live
      ensures SameBlock(h, Heap(after, h.live), b) && WellFormed(Heap(after, h.live), b)
    {
      assert WellFormed(h, b);
      SameBlockWellFormed(h, Heap(after, h.live), b);
    }
  }

  /** `malloc` stops only on sizes no layout has; otherwise it keeps every block, and hands out null, the
      sentinel for size 0, or a new aligned block of the requested size. */
  lemma MallocKeeps(h: Heap, size: usize, answer: Answer)
    requires Valid(h) && Honest(h, size + HEADER_SIZE, answer)
    ensures Malloc(h, size, answer).Panic? <==> size > ISIZE_MAX - (ALIGN - 1) - HEADER_SIZE
    ensures !Malloc(h, size, answer).Err?
    ensures Malloc(h, size, answer).Ok? ==>
      var (h', ptr) := Malloc(h, size, answer).value;
      && Valid(h')
      && (forall raw | raw in h.live :: SameBlock(h, h', raw))
      && (if size == 0 then ptr == ALIGN && h' == h
          else if answer.raw == NULL then ptr == NULL && h'.live == h.live
          else ptr == answer.raw + HEADER_SIZE && ptr - HEADER_SIZE !in h.live
               && h'.live == h.live[ptr - HEADER_SIZE := size + HEADER_SIZE])
  {
    hide LeBytes32, LeValue32, Patch, Valid, SameBlock;
    if UserLayout(size).Ok? {
      if size == 0 {
        Untouched(h, h.mem);
      } else if answer.raw == NULL {
        Untouched(h, answer.after);
      } else {
        AddedValid(h, size, answer);
      }
    }
  }

  /** A held pointer's block is found by its header, whatever it was asked for. */
  lemma FreeGives(h: Heap, ptr: nat, after: Bytes)
    requires Valid(h) && Held(h, ptr) && ptr != NULL && ptr != ALIGN
    ensures ptr - HEADER_SIZE in h.live
    ensures Free(h, ptr, after) == Ok(Heap(after, h.live - {ptr - HEADER_SIZE}))
  {
    hide LeValue32;
    assert WellFormed(h, ptr - HEADER_SIZE);
  }

  /** Taking a block away leaves the others as they were. */
  lemma Without(h: Heap, raw: nat, after: Bytes)
    requires Valid(h) && Keeps(h, after, {raw})
    ensures var h' := Heap(after, h.live - {raw});
      Valid(h') && forall b | b in h'.live :: SameBlock(h, h', b)
  {
    hide LeValue32, UserLayout;
    var h' := Heap(after, h.live - {raw});
    forall b | b in h'.live
      ensures SameBlock(h, h', b) && WellFormed(h', b)
    {
      assert WellFormed(h, b);
      SameBlockWellFormed(h, h', b);
    }
  }

  /** `free` of a held pointer always finds the layout its block was allocated with, takes that block away
      and touches no other. */
  lemma FreeKeeps(h: Heap, ptr: nat, after: Bytes)
    requires Valid(h) && Held(h, ptr)
    requires Keeps(h, after, Released(ptr))
    ensures Free(h, ptr, after).Ok?
    ensures var h' := Free(h, ptr, after).value;
      && Valid(h')
      && h'.live == h.live - Released(ptr)
      && (forall raw | raw in h'.live :: SameBlock(h, h', raw))
  {
    hide Valid, SameBlock, Keeps;
    if ptr == NULL || ptr == ALIGN {
      Itself(h);
    } else {
      FreeGives(h, ptr, after);
      Without(h, ptr - HEADER_SIZE, after);
    }
  }

  /** A write that stays off every live header. */
  ghost predicate OffHeaders(h: Heap, at: nat, n: nat) {
    at + n <= |h.mem| && forall raw | raw in h.live :: Apart(at, n, raw, HEADER_SIZE)
  }

  /** Such a write keeps the heap valid, and every block it misses. */
  lemma WriteKeeps(h: Heap, at: nat, data: Bytes)
    requires Valid(h) && OffHeaders(h, at, |data|)
    ensures Valid(h.(mem := Patch(h.mem, at, data)))
    ensures forall raw | raw in h.live && Apart(at, |data|, raw, h.live[raw]) ::
      SameBlock(h, h.(mem := Patch(h.mem, at, data)), raw)
  {
    hide LeValue32, UserLayout, Patch;
    var h' := h.(mem := Patch(h.mem, at, data));
    forall b | b in h.live
      ensures WellFormed(h', b)
      ensures Apart(at, |data|, b, h.live[b]) ==> SameBlock(h, h', b)
    {
      assert WellFormed(h, b) && Apart(at, |data|, b, HEADER_SIZE);
      PatchElsewhere(h.mem, at, data, b, 4);
      if Apart(at, |data|, b, h.live[b]) {
        PatchElsewhere(h.mem, at, data, b, h.live[b]);
      }
    }
  }

  /** A write into a block's contents. */
  lemma WriteInside(h: Heap, raw: nat, at: nat, data: Bytes)
    requires Valid(h) && raw in h.live && raw + HEADER_SIZE <= at && at + |data| <= raw + h.live[raw]
    ensures OffHeaders(h, at, |data|)
    ensures forall b | b in h.live && b != raw :: Apart(at, |data|, b, h.live[b])
  {
    assert WellFormed(h, raw);
    forall b | b in h.live && b != raw
      ensures Apart(at, |data|, b, h.live[b]) && Apart(at, |data|, b, HEADER_SIZE)
    {
      assert WellFormed(h, b) && Apart(raw, h.live[raw], b, h.live[b]);
    }
  }

  /** `calloc` keeps every block and hands out zeroed memory; it stops only where the product, or the
      layout, overflows. */
  lemma CallocKeeps(h: Heap, nmemb: usize, size: usize, total: nat, answer: Answer)
    requires Valid(h) && total == Product(nmemb, size) && Honest(h, total + HEADER_SIZE, answer)
    ensures Calloc(h, nmemb, size, answer).Panic? <==> total > ISIZE_MAX - (ALIGN - 1) - HEADER_SIZE
    ensures !Calloc(h, nmemb, size, answer).Err?
    ensures Calloc(h, nmemb, size, answer).Ok? ==>
      var (h', ptr) := Calloc(h, nmemb, size, answer).value;
      && Valid(h')
      && (forall raw | raw in h.live :: SameBlock(h, h', raw))
      && (if total == 0 then ptr == ALIGN && h' == h
          else if answer.raw == NULL then ptr == NULL && h'.live == h.live
          else ptr == answer.raw + HEADER_SIZE && ptr - HEADER_SIZE !in h.live
               && h'.live == h.live[ptr - HEADER_SIZE := total + HEADER_SIZE]
               && Holds(h', ptr, Zeros(total)))
  {
    hide LeValue32, UserLayout, Patch, SameBlock, Malloc, OffHeaders;
    if total <= USIZE_MAX {
      MallocKeeps(h, total, answer);
      if Malloc(h, total, answer).Ok? {
        var (made, ptr) := Malloc(h, total, answer).value;
        if ptr != NULL && total > 0 {
          FillNew(h, made, ptr, Zeros(total));
        }
      }
    }
  }

  ghost predicate Holds(h: Heap, at: nat, data: Bytes) {
    at + |data| <= |h.mem| && h.mem[at..at + |data|] == data
  }

  lemma BlockInside(h: Heap, raw: nat)
    requires Valid(h) && raw in h.live
    ensures raw + h.live[raw] <= |h.mem|
  {
    hide LeValue32, UserLayout;
    assert WellFormed(h, raw);
  }

  /** Writing into a block that was just added leaves the older blocks as they were. */
  lemma FillNew(h: Heap, made: Heap, ptr: nat, data: Bytes)
    requires Valid(made) && ptr >= HEADER_SIZE && ptr - HEADER_SIZE !in h.live && ptr - HEADER_SIZE in made.live
    requires ptr + |data| <= ptr - HEADER_SIZE + made.live[ptr - HEADER_SIZE]
    requires forall raw | raw in h.live :: SameBlock(h, made, raw)
    ensures ptr + |data| <= |made.mem|
    ensures var h' := made.(mem := Patch(made.mem, ptr, data));
      Valid(h') && (forall raw | raw in h.live :: SameBlock(h, h', raw)) && Holds(h', ptr, data)
  {
    hide LeValue32, UserLayout, Patch, OffHeaders, SameBlock, Valid;
    BlockInside(made, ptr - HEADER_SIZE);
    WriteInside(made, ptr - HEADER_SIZE, ptr, data);
    WriteKeeps(made, ptr, data);
    var h' := made.(mem := Patch(made.mem, ptr, data));
    forall raw | raw in h.live
      ensures SameBlock(h, h', raw)
    {
      StillLive(h, made, raw);
      assert SameBlock(made, h', raw);
      SameBlockTrans(h, made, h', raw);
    }
  }

  /** The header of a held block gives its size. */
  lemma StoredSizeIs(h: Heap, ptr: nat)
    requires Valid(h) && ptr >= HEADER_SIZE && ptr - HEADER_SIZE in h.live
    ensures StoredSize(h, ptr).Ok? && StoredSize(h, ptr).value + HEADER_SIZE == h.live[ptr - HEADER_SIZE]
    ensures ptr + StoredSize(h, ptr).value <= |h.mem|
  {
    hide LeValue32;
    assert WellFormed(h, ptr - HEADER_SIZE);
  }

  /** What the new block starts with: the old contents, as far as both sizes go. The old block is still
      there. */
  lemma CopyKeeps(h: Heap, ptr: nat, newSize: usize, answer: Answer)
    requires Valid(h) && ptr >= HEADER_SIZE && ptr - HEADER_SIZE in h.live && newSize != 0
    requires Honest(h, newSize + HEADER_SIZE, answer)
    ensures CopyOver(h, ptr, newSize, answer).Panic? <==> newSize > ISIZE_MAX - (ALIGN - 1) - HEADER_SIZE
    ensures !CopyOver(h, ptr, newSize, answer).Err?
    ensures CopyOver(h, ptr, newSize, answer).Ok? ==>
      var (h', moved) := CopyOver(h, ptr, newSize, answer).value;
      && Valid(h')
      && (forall raw | raw in h.live :: SameBlock(h, h', raw))
      && (if answer.raw == NULL then moved == NULL && h'.live == h.live
          else
            && moved == answer.raw + HEADER_SIZE && moved - HEADER_SIZE !in h.live
            && h'.live == h.live[moved - HEADER_SIZE := newSize + HEADER_SIZE]
            && Copied(h, h', ptr, moved, Min(StoredSize(h, ptr).value, newSize)))
  {
    hide LeValue32, UserLayout, Patch, SameBlock, Malloc, StoredSize, Valid, Honest;
    StoredSizeIs(h, ptr);
    MallocKeeps(h, newSize, answer);
    if Malloc(h, newSize, answer).Ok? {
      var (made, moved) := Malloc(h, newSize, answer).value;
      if moved != NULL {
        CopyInto(h, made, ptr, moved, Min(StoredSize(h, ptr).value, newSize));
      }
    }
  }

  lemma CopyInto(h: Heap, made: Heap, ptr: nat, moved: nat, n: nat)
    requires Valid(h) && Valid(made) && ptr >= HEADER_SIZE && ptr - HEADER_SIZE in h.live
    requires n + HEADER_SIZE <= h.live[ptr - HEADER_SIZE]
    requires moved >= HEADER_SIZE && moved - HEADER_SIZE !in h.live && moved - HEADER_SIZE in made.live
    requires n + HEADER_SIZE <= made.live[moved - HEADER_SIZE]
    requires forall raw | raw in h.live :: SameBlock(h, made, raw)
    ensures ptr + n <= |made.mem| && moved + n <= |made.mem|
    ensures var h' := made.(mem := Patch(made.mem, moved, made.mem[ptr..ptr + n]));
      && Valid(h')
      && (forall raw | raw in h.live :: SameBlock(h, h', raw))
      && Copied(h, h', ptr, moved, n)
  {
    hide LeValue32, UserLayout, Patch, SameBlock, Valid;
    assert SameBlock(h, made, ptr - HEADER_SIZE);
    SameContents(h, made, ptr, n);
    FillNew(h, made, moved, made.mem[ptr..ptr + n]);
  }

  /** The first `n` bytes at `to` in the new heap are those at `from` in the old one. */
  ghost predicate Copied(h: Heap, h': Heap, from: nat, to: nat, n: nat) {
    from + n <= |h.mem| && to + n <= |h'.mem| && h'.mem[to..to + n] == h.mem[from..from + n]
  }

  lemma SameContents(h: Heap, h': Heap, ptr: nat, n: nat)
    requires ptr >= HEADER_SIZE && SameBlock(h, h', ptr - HEADER_SIZE) && n + HEADER_SIZE <= h.live[ptr - HEADER_SIZE]
    ensures Copied(h, h', ptr, ptr, n)
  {
    var raw := ptr - HEADER_SIZE;
    RangeWithin(h.mem, raw, h.live[raw], ptr, n);
    RangeWithin(h'.mem, raw, h.live[raw], ptr, n);
  }

  /** The memory the allocator leaves at each step of a `realloc`. */
  ghost predicate HonestMove(h: Heap, ptr: nat, newSize: usize, answer: Answer, after: Bytes) {
    && Honest(h, newSize + HEADER_SIZE, answer)
    && (ptr != NULL && newSize == 0 ==> Keeps(h, after, Released(ptr)))
    && (ptr > ALIGN && newSize != 0 && CopyOver(h, ptr, newSize, answer).Ok? ==>
          Keeps(CopyOver(h, ptr, newSize, answer).value.0, after, Released(ptr)))
  }

  /** `realloc` of a block: null leaves it untouched; otherwise the new block starts with the old contents,
      as far as both sizes go, the old block is gone, and no other is touched. */
  lemma ReallocKeeps(h: Heap, ptr: nat, newSize: usize, answer: Answer, after: Bytes)
    requires Valid(h) && ptr > ALIGN && Held(h, ptr) && newSize != 0 && HonestMove(h, ptr, newSize, answer, after)
    ensures Realloc(h, ptr, newSize, answer, after).Panic? <==> newSize > ISIZE_MAX - (ALIGN - 1) - HEADER_SIZE
    ensures !Realloc(h, ptr, newSize, answer, after).Err?
    ensures Realloc(h, ptr, newSize, answer, after).Ok? ==>
      var (h', moved) := Realloc(h, ptr, newSize, answer, after).value;
      && Valid(h')
      && (forall raw | raw in h.live && raw != ptr - HEADER_SIZE :: SameBlock(h, h', raw))
      && (if answer.raw == NULL then moved == NULL && h'.live == h.live && SameBlock(h, h', ptr - HEADER_SIZE)
          else
            && moved == answer.raw + HEADER_SIZE && moved - HEADER_SIZE !in h.live
            && h'.live == h.live[moved - HEADER_SIZE := newSize + HEADER_SIZE] - {ptr - HEADER_SIZE}
            && Copied(h, h', ptr, moved, Min(StoredSize(h, ptr).value, newSize)))
  {
    hide LeValue32, UserLayout, Patch, SameBlock, CopyOver, Honest, Keeps, StoredSize, Copied, Valid, Free;
    var raw := ptr - HEADER_SIZE;
    StoredSizeIs(h, ptr);
    CopyKeeps(h, ptr, newSize, answer);
    if CopyOver(h, ptr, newSize, answer).Ok? {
      var (copied, moved) := CopyOver(h, ptr, newSize, answer).value;
      if moved != NULL {
        assert SameBlock(h, copied, raw);
        StillLive(h, copied, raw);
        FreeKeeps(copied, ptr, after);
        var freed := Free(copied, ptr, after).value;
        forall b | b in h.live && b != raw
          ensures SameBlock(h, freed, b)
        {
          SameBlockTrans(h, copied, freed, b);
        }
        CopiedThenFreed(h, copied, freed, ptr, moved, Min(StoredSize(h, ptr).value, newSize));
      }
    }
  }

  lemma StillLive(h: Heap, h': Heap, raw: nat)
    requires SameBlock(h, h', raw)
    ensures raw in h'.live
  {
  }

  lemma SameBlockTrans(a: Heap, b: Heap, c: Heap, raw: nat)
    requires SameBlock(a, b, raw) && SameBlock(b, c, raw)
    ensures SameBlock(a, c, raw)
  {
  }

  lemma CopiedThenFreed(h: Heap, copied: Heap, freed: Heap, from: nat, to: nat, n: nat)
    requires Copied(h, copied, from, to, n) && to >= HEADER_SIZE && SameBlock(copied, freed, to - HEADER_SIZE)
    requires n + HEADER_SIZE <= copied.live[to - HEADER_SIZE]
    ensures Copied(h, freed, from, to, n)
  {
    SameContents(copied, freed, to, n);
  }

  // ----- what exactly each call does ---------------------------------------------------------

  /** The heap once a request of `size` bytes is met: as the allocator left it, but for the four bytes at its
      address, which hold the size. */
  ghost predicate Handed(h: Heap, size: usize, answer: Answer, h': Heap) {
    && answer.raw + 4 <= |answer.after| == |h'.mem|
    && h'.live == h.live[answer.raw := size + 16]
    && LeNumber(h'.mem[answer.raw..answer.raw + 4]) == size
    && h'.mem[..answer.raw] == answer.after[..answer.raw] && h'.mem[answer.raw + 4..] == answer.after[answer.raw + 4..]
  }

  /** `malloc` of up to 2^31 - 32 bytes is what the allocator answers: null for null, and otherwise the address
      16 bytes on. */
  lemma MallocExact(h: Heap, size: usize, answer: Answer)
    requires Valid(h) && Honest(h, size + 16, answer)
    ensures var r := Malloc(h, size, answer);
      if size == 0 then r == Ok((h, 16))
      else if size > 0x7FFF_FFE0 then r.Panic?
      else if answer.raw == 0 then r == Ok((Heap(answer.after, h.live), 0))
      else r.Ok? && r.value.1 == answer.raw + 16 && Handed(h, size, answer, r.value.0)
  {
    hide LeBytes32, Valid;
    if 0 < size <= 0x7FFF_FFE0 && answer.raw != 0 {
      LittleEndian(size);
      var mem := Patch(answer.after, answer.raw, LeBytes32(size));
      assert mem[..answer.raw] == answer.after[..answer.raw];
      assert mem[answer.raw + 4..] == answer.after[answer.raw + 4..];
    }
  }

  ghost predicate AllZero(h: Heap, at: nat, n: nat) {
    at + n <= |h.mem| && forall i | at <= i < at + n :: h.mem[i] == 0
  }

  lemma ZerosHeld(h: Heap, at: nat, n: nat)
    requires Holds(h, at, Zeros(n))
    ensures AllZero(h, at, n)
  {
    forall i | at <= i < at + n
      ensures h.mem[i] == 0
    {
      assert h.mem[i] == h.mem[at..at + n][i - at] == Zeros(n)[i - at];
    }
  }

  /** `calloc` answers as `malloc` of the product does, and every byte of the block is zero. */
  lemma CallocExact(h: Heap, nmemb: usize, size: usize, answer: Answer)
    requires Valid(h) && Honest(h, nmemb * size + 16, answer)
    ensures var r := Calloc(h, nmemb, size, answer);
      if nmemb * size == 0 then r == Ok((h, 16))
      else if nmemb * size > 0x7FFF_FFE0 then r.Panic?
      else if answer.raw == 0 then r.Ok? && r.value.1 == 0
      else r.Ok? && r.value.1 == answer.raw + 16 && AllZero(r.value.0, answer.raw + 16, nmemb * size)
  {
    hide Valid, Honest, SameBlock, Calloc;
    CallocKeeps(h, nmemb, size, nmemb * size, answer);
    var r := Calloc(h, nmemb, size, answer);
    if r.Ok? {
      var (h', ptr) := r.value;
      assert nmemb * size == 0 ==> ptr == 16 && h' == h;
      if nmemb * size != 0 && answer.raw != 0 {
        ZerosHeld(h', ptr, nmemb * size);
      }
    }
  }

  /** `free` of a block gives back the whole of it, header included, and of null or the sentinel nothing. */
  lemma FreeExact(h: Heap, ptr: nat, after: Bytes)
    requires Valid(h) && Held(h, ptr)
    ensures Free(h, ptr, after) == Ok(if ptr == 0 || ptr == 16 then h else Heap(after, h.live - {ptr - 16}))
  {
    hide Valid, StoredSize;
    if ptr != 0 && ptr != 16 {
      FreeGives(h, ptr, after);
    }
  }

  /** Byte for byte the old contents, as far as both blocks go. */
  ghost predicate Moved(h: Heap, ptr: nat, newSize: nat, h': Heap, to: nat) {
    && ptr >= 16 && ptr - 16 in h.live
    && forall k | ptr <= k < ptr + newSize && k < ptr - 16 + h.live[ptr - 16] ::
         k < |h.mem| && k - ptr + to < |h'.mem| && h.mem[k] == h'.mem[k - ptr + to]
  }

  lemma AllCopied(h: Heap, ptr: nat, newSize: nat, h': Heap, to: nat)
    requires ptr >= 16 && ptr - 16 in h.live && StoredSize(h, ptr).Ok?
    requires StoredSize(h, ptr).value + 16 == h.live[ptr - 16]
    requires Copied(h, h', ptr, to, Min(StoredSize(h, ptr).value, newSize))
    ensures Moved(h, ptr, newSize, h', to)
  {
    hide StoredSize;
    var n := Min(StoredSize(h, ptr).value, newSize);
    forall k | ptr <= k < ptr + newSize && k < ptr - 16 + h.live[ptr - 16]
      ensures k < |h.mem| && k - ptr + to < |h'.mem| && h.mem[k] == h'.mem[k - ptr + to]
    {
      var i := k - ptr;
      assert h'.mem[to + i] == h'.mem[to..to + n][i] == h.mem[ptr..ptr + n][i];
    }
  }

  /** `realloc` to nothing is `free`, and gives null; of null or the sentinel it is `malloc`; of a block it answers
      as `malloc` of the new size does. */
  lemma ReallocExact(h: Heap, ptr: nat, newSize: usize, answer: Answer, after: Bytes)
    requires Valid(h) && Held(h, ptr) && HonestMove(h, ptr, newSize, answer, after)
    ensures var r := Realloc(h, ptr, newSize, answer, after);
      if ptr != 0 && newSize == 0 then
        r == Ok((if ptr == 16 then h else Heap(after, h.live - {ptr - 16}), 0))
      else if ptr == 0 || ptr == 16 then r == Malloc(h, newSize, answer)
      else if newSize > 0x7FFF_FFE0 then r.Panic?
      else if answer.raw == 0 then r.Ok? && r.value.1 == 0
      else r.Ok? && r.value.1 == answer.raw + 16 && Moved(h, ptr, newSize, r.value.0, answer.raw + 16)
  {
    hide Valid, Honest, SameBlock, Malloc, CopyOver, StoredSize, Keeps, Copied, Free, Moved;
    FreeExact(h, ptr, after);
    if ptr != 0 && ptr != 16 && newSize != 0 {
      LowestPointer(h, ptr);
      ReallocKeeps(h, ptr, newSize, answer, after);
      var r := Realloc(h, ptr, newSize, answer, after);
      if r.Ok? && answer.raw != 0 {
        StoredSizeIs(h, ptr);
        assert ptr - 16 in h.live;
        AllCopied(h, ptr, newSize, r.value.0, answer.raw + 16);
      }
    }
  }

  // ----- runs --------------------------------------------------------------------------------

  /** One call of the shim, or a write by anyone. */
  datatype Op =
    | CallMalloc(size: usize, answer: Answer)
    | CallCalloc(nmemb: usize, size: usize, answer: Answer)
    | CallRealloc(ptr: nat, size: usize, answer: Answer, after: Bytes)
    | CallFree(ptr: nat, after: Bytes)
    | Write(at: nat, data: Bytes)

  function Step(h: Heap, op: Op): Outcome<Heap> {
    match op
    case CallMalloc(size, answer) =>
      var (h, _) :- Malloc(h, size, answer);
      Ok(h)
    case CallCalloc(nmemb, size, answer) =>
      var (h, _) :- Calloc(h, nmemb, size, answer);
      Ok(h)
    case CallRealloc(ptr, size, answer, after) =>
      var (h, _) :- Realloc(h, ptr, size, answer, after);
      Ok(h)
    case CallFree(ptr, after) => Free(h, ptr, after)
    case Write(at, data) =>
      if at + |data| > |h.mem| then Err(UNDEFINED) else Ok(h.(mem := Patch(h.mem, at, data)))
  }

  /** What callers owe: pointers they hold, writes off the headers. What the Rust allocator owes: honest
      answers. */
  ghost predicate Legal(h: Heap, op: Op) {
    match op
    case CallMalloc(size, answer) => Honest(h, size + HEADER_SIZE, answer)
    case CallCalloc(nmemb, size, answer) => Honest(h, Product(nmemb, size) + HEADER_SIZE, answer)
    case CallRealloc(ptr, size, answer, after) => Held(h, ptr) && HonestMove(h, ptr, size, answer, after)
    case CallFree(ptr, after) => Held(h, ptr) && Keeps(h, after, Released(ptr))
    case Write(at, data) => OffHeaders(h, at, |data|)
  }

  /** The operation is about this block: it gives the block back, or writes into it. */
  predicate Touches(h: Heap, op: Op, raw: nat)
    requires raw in h.live
  {
    match op
    case CallRealloc(ptr, _, _, _) => raw in Released(ptr)
    case CallFree(ptr, _) => raw in Released(ptr)
    case Write(at, data) => !Apart(at, |data|, raw, h.live[raw])
    case _ => false
  }

  /** Only these are about a block: `free` and `realloc` of its pointer, and a write that meets it. */
  lemma TouchesOnly(h: Heap, op: Op, raw: nat)
    requires raw in h.live
    ensures Touches(h, op, raw) <==>
      match op
      case CallMalloc(_, _) => false
      case CallCalloc(_, _, _) => false
      case CallRealloc(ptr, _, _, _) => ptr == raw + 16 && ptr != 16
      case CallFree(ptr, _) => ptr == raw + 16 && ptr != 16
      case Write(at, data) => at < raw + h.live[raw] && raw < at + |data|
  {
  }

  /** Each step keeps the invariant and every block it is not about; it may stop on a size, and never does
      anything undefined. */
  lemma StepKeeps(h: Heap, op: Op)
    requires Valid(h) && Legal(h, op)
    ensures !Step(h, op).Err?
    ensures Step(h, op).Ok? ==>
      && Valid(Step(h, op).value)
      && forall raw | raw in h.live && !Touches(h, op, raw) :: SameBlock(h, Step(h, op).value, raw)
  {
    hide SameBlock, Valid, Malloc, Calloc, Realloc, Free, Patch;
    match op
    case CallMalloc(size, answer) => MallocKeeps(h, size, answer);
    case CallCalloc(nmemb, size, answer) => CallocKeeps(h, nmemb, size, Product(nmemb, size), answer);
    case CallRealloc(ptr, size, answer, after) => AnyRealloc(h, ptr, size, answer, after);
    case CallFree(ptr, after) => FreeKeeps(h, ptr, after);
    case Write(at, data) => WriteKeeps(h, at, data);
  }

  lemma AnyRealloc(h: Heap, ptr: nat, size: usize, answer: Answer, after: Bytes)
    requires Valid(h) && Held(h, ptr) && HonestMove(h, ptr, size, answer, after)
    ensures !Realloc(h, ptr, size, answer, after).Err?
    ensures Realloc(h, ptr, size, answer, after).Ok? ==>
      var (h', _) := Realloc(h, ptr, size, answer, after).value;
      Valid(h') && forall raw | raw in h.live && raw !in Released(ptr) :: SameBlock(h, h', raw)
  {
    hide SameBlock, Malloc, Free, Patch, UserLayout;
    if ptr == NULL || (ptr == ALIGN && size != 0) {
      MallocKeeps(h, size, answer);
    } else if size == 0 {
      FreeKeeps(h, ptr, after);
    } else {
      LowestPointer(h, ptr);
      ReallocKeeps(h, ptr, size, answer, after);
    }
  }

  lemma LowestPointer(h: Heap, ptr: nat)
    requires Valid(h) && Held(h, ptr)
    ensures ptr == NULL || ptr == ALIGN || ptr >= ALIGN + HEADER_SIZE
  {
    if ptr >= HEADER_SIZE && ptr - HEADER_SIZE in h.live {
      assert WellFormed(h, ptr - HEADER_SIZE);
    }
  }

  function Run(h: Heap, ops: seq<Op>): Outcome<Heap>
    decreases |ops|
  {
    if ops == [] then Ok(h) else
    var h :- Step(h, ops[0]);
    Run(h, ops[1..])
  }

  ghost predicate LegalRun(h: Heap, ops: seq<Op>)
    decreases |ops|
  {
    ops != [] ==> Legal(h, ops[0]) && (Step(h, ops[0]).Ok? ==> LegalRun(Step(h, ops[0]).value, ops[1..]))
  }

  /** No step of the run is about the block. */
  ghost predicate LeftAlone(h: Heap, ops: seq<Op>, raw: nat)
    decreases |ops|
  {
    raw in h.live &&
    (ops != [] ==>
       && !Touches(h, ops[0], raw)
       && (Step(h, ops[0]).Ok? ==> LeftAlone(Step(h, ops[0]).value, ops[1..], raw)))
  }

  /** Over any run of calls on held pointers: live blocks stay disjoint, every header still gives the layout
      its block was allocated with, no block is where its pointer would be null or the size-0 sentinel,
      nothing undefined ever happens, and a block nobody was about is still there with the bytes it had. */
  lemma {:induction false} RunKeeps(h: Heap, ops: seq<Op>)
    requires Valid(h) && LegalRun(h, ops)
    ensures !Run(h, ops).Err?
    ensures Run(h, ops).Ok? ==> Valid(Run(h, ops).value)
    ensures Run(h, ops).Ok? ==> forall raw | raw in Run(h, ops).value.live :: raw + HEADER_SIZE > ALIGN
    ensures Run(h, ops).Ok? ==> forall raw | LeftAlone(h, ops, raw) :: SameBlock(h, Run(h, ops).value, raw)
    decreases |ops|
  {
    hide SameBlock, Valid, Step, Legal, Touches;
    if ops == [] {
      Itself(h);
      BlocksAreHigh(h);
    } else {
      StepKeeps(h, ops[0]);
      if Step(h, ops[0]).Ok? {
        var next := Step(h, ops[0]).value;
        RunKeeps(next, ops[1..]);
        if Run(h, ops).Ok? {
          forall raw | LeftAlone(h, ops, raw)
            ensures SameBlock(h, Run(h, ops).value, raw)
          {
            SameBlockTrans(h, next, Run(h, ops).value, raw);
          }
        }
      }
    }
  }

  lemma BlocksAreHigh(h: Heap)
    requires Valid(h)
    ensures forall raw | raw in h.live :: raw + HEADER_SIZE > ALIGN
  {
    forall raw | raw in h.live ensures raw + HEADER_SIZE > ALIGN { assert WellFormed(h, raw); }
  }

  lemma Itself(h: Heap)
    requires Valid(h)
    ensures forall raw | raw in h.live :: SameBlock(h, h, raw)
  {
    forall raw | raw in h.live ensures SameBlock(h, h, raw) { assert WellFormed(h, raw); }
  }
}
