/** The lwIP heap as the object the C code updates in place: mem_init, plug_holes, mem_link_valid,
    mem_free, mem_trim and mem_malloc (lwip-2.1.3/src/core/mem.c), proved against MemModel.
    Pointers are offsets from `ram`, which mem_init aligns. */
module MemHeap {
  import opened Common
  import opened MemModel
  import Arith

  datatype FreeOutcome = Ignored | Misaligned | IllegalMemory | DoubleFree | NotLinked | Freed

  class LwipHeap {
    const c: Config
    const ram: array<Header>
    var lfree: nat
    ghost var starts: set<nat>

    ghost function Snapshot(): Heap
      reads this, ram
    {
      Heap(ram[..], lfree)
    }

    ghost predicate Valid()
      reads this, ram
    {
      && ValidSizes(c) && ValidAlignment(c) && AllAligned(c, starts)
      && Good(c, Snapshot(), starts, NOBODY)
    }

    ghost function LiveBlocks(): map<nat, nat>
      reads this, ram
      requires Valid()
    {
      Live(c, ram[..], starts)
    }

    /** mem_init */
    constructor (config: Config)
      requires ValidSizes(config) && ValidAlignment(config)
      ensures Valid() && c == config && fresh(ram)
      ensures LiveBlocks() == map[] && starts == {0, c.memSize}
    {
      c := config;
      ram := new Header[config.memSize + 1](_ => Header(0, 0, false));
      lfree := 0;
      starts := {0, config.memSize};
      new;
      ram[0] := Header(c.memSize, 0, false);
      ram[c.memSize] := Header(c.memSize, c.memSize, true);
      Arith.MultipleMod(c.alignment, 0);
      forall p | p in starts && p < c.memSize ensures Block(c, ram[..], starts, p) {}
    }

    method MemLinkValid(mem: nat) returns (valid: bool)
      requires ram.Length == c.memSize + 1 && mem < ram.Length
      ensures valid == LinkValid(c, ram[..], mem)
    {
      valid := !(ram[mem].next > c.memSize || ram[mem].prev > c.memSize ||
                 (ram[mem].prev != mem && ram[ram[mem].prev].next != mem) ||
                 (ram[mem].next != c.memSize && ram[ram[mem].next].prev != mem));
    }

    /** plug_holes, forward */
    method PlugHoleForward(mem: nat)
      requires ram.Length == c.memSize + 1 && mem < ram.Length && mem < ram[mem].next < ram.Length
      requires ram[ram[mem].next].next < ram.Length
      modifies this`lfree, ram
      ensures Snapshot() == PlugForward(c, old(Snapshot()), mem)
    {
      var nmem := ram[mem].next;
      if mem != nmem && !ram[nmem].used && nmem != c.memSize {
        if lfree == nmem {
          lfree := mem;
        }
        ram[mem] := ram[mem].(next := ram[nmem].next);
        if ram[nmem].next != c.memSize {
          ram[ram[nmem].next] := ram[ram[nmem].next].(prev := mem);
        }
      }
    }

    /** plug_holes, backward */
    method PlugHoleBackward(mem: nat)
      requires ram.Length == c.memSize + 1 && mem < ram.Length
      requires ram[mem].prev < ram.Length && ram[mem].next < ram.Length
      modifies this`lfree, ram
      ensures Snapshot() == PlugBackward(c, old(Snapshot()), mem)
    {
      var pmem := ram[mem].prev;
      if pmem != mem && !ram[pmem].used {
        if lfree == mem {
          lfree := pmem;
        }
        ram[pmem] := ram[pmem].(next := ram[mem].next);
        if ram[mem].next != c.memSize {
          ram[ram[mem].next] := ram[ram[mem].next].(prev := pmem);
        }
      }
    }

    /** mem_free, from `mem->used = 0` on */
    method FreeUsed(mem: nat)
      requires Valid() && mem in LiveBlocks()
      modifies this, ram
      ensures Valid()
      ensures LiveBlocks() == old(LiveBlocks()) - {mem}
      ensures LinkValid(c, old(ram[..]), mem)
      ensures old(Snapshot().ram[ram[mem].next].next < |Snapshot().ram| && ram[mem].prev <= mem < ram[mem].next)
      ensures Snapshot() == FreeBlock(c, old(Snapshot()), mem)
    {
      ghost var h0 := Snapshot();
      FreeKeeps(c, h0, starts, mem, NOBODY);
      ghost var s2 := FreeStarts(c, h0, starts, mem);
      ram[mem] := ram[mem].(used := false);
      if mem < lfree {
        lfree := mem;
      }
      assert Snapshot() == MarkFree(h0, mem);
      PlugHoleForward(mem);
      PlugHoleBackward(mem);
      starts := s2;
    }

    /** The checks of mem_free that need no header: alignment and range of the pointer. */
    predicate PlausiblePointer(rmem: int)
      requires c.alignment > 0
    {
      rmem % c.alignment == 0 && rmem >= c.sizeofMem && rmem + c.minSize <= c.memSize
    }

    /** mem_free.  The caller passes NULL, a pointer the checks reject, or a pointer to a block; a pointer
        to a block that was freed and merged away still finds that block's header marked unused. */
    method MemFree(rmem: Option<int>) returns (outcome: FreeOutcome)
      requires Valid()
      requires rmem.Some? && PlausiblePointer(rmem.value) ==>
        rmem.value - c.sizeofMem in starts || !ram[rmem.value - c.sizeofMem].used
      modifies this, ram
      ensures Valid()
      ensures outcome.Freed? <==> rmem.Some? && rmem.value - c.sizeofMem in old(LiveBlocks())
      ensures outcome.Freed? ==> LiveBlocks() == old(LiveBlocks()) - {rmem.value - c.sizeofMem}
      ensures !outcome.Freed? ==> Snapshot() == old(Snapshot()) && starts == old(starts)
      ensures outcome != NotLinked
    {
      if rmem.None? {
        return Ignored;
      }
      if rmem.value - c.sizeofMem in LiveBlocks() { LivePointersArePlausible(rmem.value); }
      if rmem.value % c.alignment != 0 {
        return Misaligned;
      }
      var mem := rmem.value - c.sizeofMem;
      if mem < 0 || rmem.value + c.minSize > c.memSize {
        return IllegalMemory;
      }
      if !ram[mem].used {
        return DoubleFree;
      }
      var linked := MemLinkValid(mem);
      BlocksAreLinkValid(c, ram[..], starts, mem);
      if !linked {
        return NotLinked;
      }
      FreeUsed(mem);
      return Freed;
    }

    lemma LivePointersArePlausible(rmem: int)
      requires Valid() && rmem - c.sizeofMem in LiveBlocks()
      ensures PlausiblePointer(rmem)
    {
      var p := rmem - c.sizeofMem;
      assert Block(c, ram[..], starts, p);
      assert Aligned(c, p);
      Arith.AddMultiple(c.alignment, p, c.sizeofMem);
    }

    // ---------------------------------------------------------------- mem_trim

    /** Whether mem_trim can give back the tail of block `mem`: the next block is free and can grow
        downwards, or there is room for a new free block. */
    ghost predicate CanShrink(mem: nat, newsize: nat)
      reads this, ram
      requires Valid() && mem in LiveBlocks()
    {
      assert Block(c, ram[..], starts, mem);
      newsize < DataSize(c, ram[..], mem) && (!ram[ram[mem].next].used || WillSplit(c, ram[..], mem, newsize))
    }

    /** mem_trim after its checks */
    method TrimUsed(mem: nat, newsize: nat)
      requires Valid() && mem in LiveBlocks()
      requires c.minSize <= newsize < DataSize(c, ram[..], mem) && newsize % c.alignment == 0
      modifies this, ram
      ensures Valid()
      ensures LiveBlocks() ==
        old(LiveBlocks())[mem := if old(CanShrink(mem, newsize)) then mem + c.sizeofMem + newsize
                                 else old(LiveBlocks())[mem]]
    {
      ghost var s2 := TrimEffect(mem, newsize);
      if !ram[ram[mem].next].used {
        MoveNextDown(mem, newsize);
      } else if newsize + c.sizeofMem + c.minSize <= ram[mem].next - mem - c.sizeofMem {
        SplitOffTail(mem, newsize);
      }
      starts := s2;
    }

    /** The block behind `mem` is free and grows downwards. */
    method MoveNextDown(mem: nat, newsize: nat)
      requires ValidSizes(c) && ram.Length == c.memSize + 1 && mem < ram.Length && mem < ram[mem].next < ram.Length
      requires newsize < DataSize(c, ram[..], mem)
      requires !ram[ram[mem].next].used && ram[mem].next < ram[ram[mem].next].next < ram.Length
      modifies this`lfree, ram
      ensures Snapshot() == TrimBlock(c, old(Snapshot()), mem, newsize)
    {
      var mem2 := ram[mem].next;
      var next := ram[mem2].next;
      var ptr2 := mem + c.sizeofMem + newsize;
      if lfree == mem2 {
        lfree := ptr2;
      }
      ram[ptr2] := Header(next, mem, false);
      ram[mem] := ram[mem].(next := ptr2);
      if ram[ptr2].next != c.memSize {
        ram[ram[ptr2].next] := ram[ram[ptr2].next].(prev := ptr2);
      }
    }

    /** There is room for a free block behind what is kept. */
    method SplitOffTail(mem: nat, newsize: nat)
      requires ValidSizes(c) && ram.Length == c.memSize + 1 && mem < ram.Length && mem < ram[mem].next < ram.Length
      requires newsize < DataSize(c, ram[..], mem)
      requires ram[ram[mem].next].used && WillSplit(c, ram[..], mem, newsize) && ram[ram[mem].next].next < ram.Length
      modifies this`lfree, ram
      ensures Snapshot() == TrimBlock(c, old(Snapshot()), mem, newsize)
    {
      var ptr2 := mem + c.sizeofMem + newsize;
      if ptr2 < lfree {
        lfree := ptr2;
      }
      ram[ptr2] := Header(ram[mem].next, mem, false);
      ram[mem] := ram[mem].(next := ptr2);
      if ram[ptr2].next != c.memSize {
        ram[ram[ptr2].next] := ram[ram[ptr2].next].(prev := ptr2);
      }
    }

    lemma TrimEffect(mem: nat, newsize: nat) returns (s2: set<nat>)
      requires Valid() && mem in LiveBlocks()
      requires c.minSize <= newsize < DataSize(c, ram[..], mem) && newsize % c.alignment == 0
      ensures mem < ram[mem].next < ram.Length && ram[ram[mem].next].next < ram.Length
      ensures Rest(c, mem, newsize) < ram[mem].next
      ensures (!ram[ram[mem].next].used ==> ram[mem].next < ram[ram[mem].next].next)
      ensures AllAligned(c, s2)
      ensures var h2 := TrimBlock(c, Snapshot(), mem, newsize);
        && Good(c, h2, s2, NOBODY)
        && Live(c, h2.ram, s2) ==
             LiveBlocks()[mem := if CanShrink(mem, newsize) then mem + c.sizeofMem + newsize else LiveBlocks()[mem]]
    {
      var h := Snapshot();
      TrimIsRight(c, h, starts, mem, newsize);
      s2 := TrimStarts(c, h.ram, starts, mem, newsize);
      TrimAligned(c, h.ram, starts, mem, newsize);
    }

    static lemma TrimAligned(c: Config, ram: seq<Header>, starts: set<nat>, mem: nat, newsize: nat)
      requires ValidAlignment(c) && mem in starts && AllAligned(c, starts) && newsize % c.alignment == 0
      requires mem < |ram| && ram[mem].next < |ram|
      ensures AllAligned(c, TrimStarts(c, ram, starts, mem, newsize))
    {
      assert Aligned(c, mem);
      RestAligned(c, mem, newsize);
    }

    /** mem_trim returns NULL when the rounded size exceeds the heap or the block. */
    ghost predicate TrimRefused(rmem: int, newSize: nat, live: map<nat, nat>)
      requires c.alignment > 0 && c.modulus > 0
      requires 0 <= rmem < c.memSize ==> rmem - c.sizeofMem in live
    {
      || RoundSize(c, newSize).None?
      || (0 <= rmem < c.memSize && rmem + RoundSize(c, newSize).value > live[rmem - c.sizeofMem])
    }

    /** mem_trim.  A pointer outside the heap is returned unchanged; any other must be live. */
    method MemTrim(rmem: int, newSize: nat) returns (r: Option<int>)
      requires Valid() && newSize < c.modulus
      requires 0 <= rmem < c.memSize ==> rmem - c.sizeofMem in LiveBlocks()
      modifies this, ram
      ensures Valid()
      ensures r.None? <==> TrimRefused(rmem, newSize, old(LiveBlocks()))
      ensures r.Some? ==> r.value == rmem
      ensures r.None? || !(0 <= rmem < c.memSize) ==> Snapshot() == old(Snapshot()) && starts == old(starts)
      ensures r.Some? && 0 <= rmem < c.memSize ==>
        var mem := rmem - c.sizeofMem;
        var size := RoundSize(c, newSize).value;
        && newSize <= size
        && LiveBlocks()
           == old(LiveBlocks())[mem := if old(CanShrink(mem, size)) then rmem + size else old(LiveBlocks()[mem])]
    {
      RoundSizeIsExact(c, newSize);
      var rounded := RoundSize(c, newSize);
      if rounded.None? {
        return None;
      }
      var newsize := rounded.value;
      if rmem < 0 || rmem >= c.memSize {
        return Some(rmem);
      }
      var mem := rmem - c.sizeofMem;
      var size := ram[mem].next - mem - c.sizeofMem;
      if newsize > size {
        return None;
      }
      if newsize == size {
        return Some(rmem);
      }
      TrimUsed(mem, newsize);
      return Some(rmem);
    }

    // ---------------------------------------------------------------- mem_malloc

    /** The block mem_malloc finds: it fits and no lower block does. */
    ghost predicate FirstFit(p: nat, size: nat)
      reads this, ram
    {
      && p in starts && p < c.memSize && p < ram.Length && Fits(c, ram[..], p, size)
      && (forall q :: q in starts && q < ram.Length && Fits(c, ram[..], q, size) ==> p <= q)
    }

    ghost predicate NothingFits(size: nat)
      reads this, ram
    {
      forall q :: q in starts && q < ram.Length ==> !Fits(c, ram[..], q, size)
    }

    /** The scan of mem_malloc, from `lfree` up to the early bound. */
    method FindFit(size: nat) returns (found: Option<nat>)
      requires Valid() && size <= c.memSize
      ensures found.Some? ==> FirstFit(found.value, size)
      ensures found.None? ==> NothingFits(size)
    {
      var ptr := lfree;
      while ptr < c.memSize - size
        invariant ptr in starts && ptr <= c.memSize
        invariant forall q :: q in starts && q < ram.Length && Fits(c, ram[..], q, size) ==> ptr <= q
        decreases c.memSize - ptr
      {
        assert Block(c, ram[..], starts, ptr);
        if !ram[ptr].used && ram[ptr].next - (ptr + c.sizeofMem) >= size {
          return Some(ptr);
        }
        assert !Fits(c, ram[..], ptr, size);
        ptr := ram[ptr].next;
      }
      forall q | q in starts && q < ram.Length ensures !Fits(c, ram[..], q, size) {
        if q < c.memSize { assert Block(c, ram[..], starts, q); }
      }
      return None;
    }

    /** The part of mem_malloc that takes block `ptr`, splitting it when the rest is worth a header. */
    method Take(ptr: nat, size: nat)
      requires Valid() && FirstFit(ptr, size) && size >= c.minSize && size % c.alignment == 0
      modifies this, ram
      ensures lfree == old(lfree) && Good(c, Snapshot(), starts, ptr) && AllAligned(c, starts)
      ensures Live(c, ram[..], starts) == old(LiveBlocks())[ptr := ram[ptr].next]
      ensures ram[ptr].used && DataSize(c, ram[..], ptr) >= size
      ensures Cut(c, ram[..], starts, ptr, size, old(ram[ptr].next))
    {
      ghost var h0 := Snapshot();
      ghost var s2 := TakeEffect(ptr, size);
      if ram[ptr].next - (ptr + c.sizeofMem) >= size + c.sizeofMem + c.minSize {
        var ptr2 := ptr + c.sizeofMem + size;
        ram[ptr2] := Header(ram[ptr].next, ptr, false);
        ram[ptr] := ram[ptr].(next := ptr2, used := true);
        if ram[ptr2].next != c.memSize {
          ram[ram[ptr2].next] := ram[ram[ptr2].next].(prev := ptr2);
        }
      } else {
        ram[ptr] := ram[ptr].(used := true);
      }
      assert ram[..] == TakeRam(c, h0.ram, ptr, size);
      starts := s2;
    }

    lemma TakeEffect(ptr: nat, size: nat) returns (s2: set<nat>)
      requires Valid() && FirstFit(ptr, size) && size >= c.minSize && size % c.alignment == 0
      ensures ram[ptr].next < ram.Length
      ensures AllAligned(c, s2)
      ensures var h2 := Heap(TakeRam(c, ram[..], ptr, size), lfree);
        && Good(c, h2, s2, ptr)
        && Live(c, h2.ram, s2) == LiveBlocks()[ptr := h2.ram[ptr].next]
        && DataSize(c, h2.ram, ptr) >= size && Cut(c, h2.ram, s2, ptr, size, ram[ptr].next)
    {
      TakeKeeps(c, ram[..], starts, ptr, size);
      TakeHint(c, Snapshot(), starts, ptr, size);
      s2 := TakeStarts(c, ram[..], starts, ptr, size);
      assert Aligned(c, ptr);
      RestAligned(c, ptr, size);
    }

    /** The part of mem_malloc after a block was taken: step `lfree` past the blocks in use. */
    method AdjustLfree(mem: nat)
      requires Good(c, Snapshot(), starts, mem)
      modifies this`lfree
      ensures Good(c, Snapshot(), starts, NOBODY)
    {
      if mem == lfree {
        var cur := lfree;
        while ram[cur].used && cur != c.memSize
          invariant cur in starts && cur <= c.memSize
          invariant forall p :: p in starts && FreeAt(ram[..], p) ==> cur <= p
          decreases c.memSize - cur
        {
          assert Block(c, ram[..], starts, cur);
          cur := ram[cur].next;
        }
        lfree := cur;
      }
    }

    /** The part of mem_malloc after its search. */
    method HandOut(mem: nat, size: nat)
      requires Valid() && FirstFit(mem, size) && size >= c.minSize && size % c.alignment == 0
      modifies this, ram
      ensures Valid() && Aligned(c, mem + c.sizeofMem)
      ensures mem !in old(LiveBlocks()) && LiveBlocks() == old(LiveBlocks())[mem := ram[mem].next]
      ensures DataSize(c, ram[..], mem) >= size && Cut(c, ram[..], starts, mem, size, old(ram[mem].next))
    {
      assert mem !in LiveBlocks();
      assert Aligned(c, mem);
      Arith.AddMultiple(c.alignment, mem, c.sizeofMem);
      Take(mem, size);
      AdjustLfree(mem);
    }

    /** mem_malloc returns the data of the lowest block that fits, or NULL when there is none.  The block handed out
        ends right behind the rounded size if the old block had room for a header and the minimum more, and
        the rest is then a free block; else it is the old block. */
    method MemMalloc(sizeIn: nat) returns (r: Option<nat>)
      requires Valid() && sizeIn < c.modulus
      modifies this, ram
      ensures Valid()
      ensures r.None? <==>
        (sizeIn == 0 || RoundSize(c, sizeIn).None? || old(NothingFits(RoundSize(c, sizeIn).value)))
      ensures r.None? ==> Snapshot() == old(Snapshot()) && starts == old(starts)
      ensures r.Some? ==>
        && r.value >= c.sizeofMem && Aligned(c, r.value)
        && var mem := r.value - c.sizeofMem;
        && RoundSize(c, sizeIn).Some? && old(FirstFit(mem, RoundSize(c, sizeIn).value))
        && mem !in old(LiveBlocks()) && mem in LiveBlocks()
        && LiveBlocks() == old(LiveBlocks())[mem := LiveBlocks()[mem]]
        && var end, was := r.value + RoundSize(c, sizeIn).value, old(ram[mem].next);
        && r.value + sizeIn <= end <= LiveBlocks()[mem] < end + c.sizeofMem + c.minSize
        && (if end + c.sizeofMem + c.minSize <= was then
              LiveBlocks()[mem] == end && end in starts && FreeAt(ram[..], end) && ram[end].next == was
            else LiveBlocks()[mem] == was)
    {
      if sizeIn == 0 {
        return None;
      }
      RoundSizeIsExact(c, sizeIn);
      var rounded := RoundSize(c, sizeIn);
      if rounded.None? {
        return None;
      }
      var found := FindFit(rounded.value);
      if found.None? {
        return None;
      }
      var mem := found.value;
      HandOut(mem, rounded.value);
      return Some(mem + c.sizeofMem);
    }
  }
}
