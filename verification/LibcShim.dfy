/** The shim as it runs: one array of bytes, changed in place (crates/smirk-wasm/src/wasm_libc_shim.rs). */
module LibcShim {
  import opened Outcomes
  import opened ByteStrings
  import opened A = Allocator

  class LinearMemory {
    const mem: array<byte>
    ghost var live: map<nat, nat>

    constructor (size: nat)
      requires size <= USIZE_MAX + 1
      ensures fresh(mem) && mem.Length == size && live == map[] && A.Valid(State())
    {
      mem := new byte[size];
      live := map[];
    }

    ghost function State(): Heap
      reads this, mem
    {
      Heap(mem[..], live)
    }

    method Store(at: nat, data: Bytes)
      requires at + |data| <= mem.Length
      modifies mem
      ensures mem[..] == Patch(old(mem[..]), at, data)
    {
      ghost var was := mem[..];
      for i := 0 to |data|
        invariant forall j | 0 <= j < mem.Length :: mem[j] == if at <= j < at + i then data[j - at] else was[j]
      {
        mem[at + i] := data[i];
      }
      assert mem[..] == Patch(was, at, data);
    }

    /** The Rust allocator's own part: it leaves the memory as it answers, and hands out the block. */
    method Alloc(total: nat, answer: Answer) returns (raw: nat)
      requires |answer.after| == mem.Length
      modifies this`live, mem
      ensures (State(), raw) == A.Alloc(old(State()), total, answer)
    {
      Store(0, answer.after);
      assert mem[..] == answer.after;
      raw := answer.raw;
      if raw != NULL {
        live := live[raw := total];
      }
    }

    method Malloc(size: usize, answer: Answer) returns (r: Outcome<nat>)
      requires A.Valid(State()) && Honest(State(), size + HEADER_SIZE, answer)
      modifies this`live, mem
      ensures match A.Malloc(old(State()), size, answer)
              case Ok((h, ptr)) => State() == h && r == Ok(ptr)
              case Panic(why) => r == Panic(why) && State() == old(State())
              case Err(_) => false
    {
      hide A.Valid, Patch, LeBytes32, SameBlock;
      MallocKeeps(State(), size, answer);
      if size == 0 {
        return Ok(ALIGN);
      }
      var total :- UserLayout(size);
      var raw := Alloc(total, answer);
      if raw == NULL {
        return Ok(NULL);
      }
      Store(raw, LeBytes32(size));
      return Ok(raw + HEADER_SIZE);
    }

    method Free(ptr: nat, after: Bytes)
      requires A.Valid(State()) && Held(State(), ptr) && Keeps(State(), after, Released(ptr))
      modifies this`live, mem
      ensures A.Free(old(State()), ptr, after) == Ok(State())
    {
      hide A.Valid, Patch, LeValue32, SameBlock, UserLayout;
      FreeKeeps(State(), ptr, after);
      if ptr == NULL || ptr == ALIGN {
        return;
      }
      var raw := ptr - HEADER_SIZE;
      var size := LeValue32(mem[raw..raw + 4]);
      var total := UserLayout(size).value;
      assert State().live[raw] == total;
      Store(0, after);
      assert mem[..] == after;
      live := live - {raw};
    }

    method Calloc(nmemb: usize, size: usize, answer: Answer) returns (r: Outcome<nat>)
      requires A.Valid(State()) && Honest(State(), Product(nmemb, size) + HEADER_SIZE, answer)
      modifies this`live, mem
      ensures match A.Calloc(old(State()), nmemb, size, answer)
              case Ok((h, ptr)) => State() == h && r == Ok(ptr)
              case Panic(why) => r == Panic(why) && State() == old(State())
              case Err(_) => false
    {
      hide A.Valid, Patch, LeBytes32, SameBlock, Honest, A.Malloc;
      var total := Product(nmemb, size);
      CallocKeeps(State(), nmemb, size, total, answer);
      if total > USIZE_MAX {
        return Panic("calloc multiplication overflow");
      }
      var ptr :- Malloc(total, answer);
      if ptr != NULL && total > 0 {
        Store(ptr, Zeros(total));
      }
      return Ok(ptr);
    }

    method Realloc(ptr: nat, newSize: usize, answer: Answer, after: Bytes) returns (r: Outcome<nat>)
      requires A.Valid(State()) && Held(State(), ptr) && HonestMove(State(), ptr, newSize, answer, after)
      modifies this`live, mem
      ensures match A.Realloc(old(State()), ptr, newSize, answer, after)
              case Ok((h, moved)) => State() == h && r == Ok(moved)
              case Panic(why) => r == Panic(why) && State() == old(State())
              case Err(_) => false
    {
      hide A.Valid, Patch, LeBytes32, LeValue32, SameBlock, Honest, Keeps, A.Malloc, A.Free, Copied;
      AnyRealloc(State(), ptr, newSize, answer, after);
      if ptr == NULL {
        r := Malloc(newSize, answer);
        return;
      }
      if newSize == 0 {
        Free(ptr, after);
        return Ok(NULL);
      }
      if ptr == ALIGN {
        r := Malloc(newSize, answer);
        return;
      }
      ghost var start := State();
      LowestPointer(start, ptr);
      StoredSizeIs(start, ptr);
      CopyKeeps(start, ptr, newSize, answer);
      var oldSize := LeValue32(mem[ptr - HEADER_SIZE..ptr - HEADER_SIZE + 4]);
      var moved :- Malloc(newSize, answer);
      if moved == NULL {
        return Ok(NULL);
      }
      var n := Min(oldSize, newSize);
      Store(moved, mem[ptr..ptr + n]);
      assert CopyOver(start, ptr, newSize, answer) == Ok((State(), moved));
      StillLive(start, State(), ptr - HEADER_SIZE);
      Free(ptr, after);
      return Ok(moved);
    }
  }
}
