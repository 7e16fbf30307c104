/** The lwIP heap of lwip-2.1.3/src/core/mem.c as values: headers inside one array of offsets, the
    protected sections of mem_free, mem_trim and mem_malloc as functions, and the invariant they keep.

    A block is named by the offset of its `struct mem`; `ram[p]` is the header at offset `p`.  Offsets
    that hold no header may contain anything (user data, or the header of a block merged away). */
module MemModel {
  import opened Common
  import Arith

  datatype Header = Header(next: nat, prev: nat, used: bool)

  /** The `ram` array seen as headers, and the offset `lfree` points to. */
  datatype Heap = Heap(ram: seq<Header>, lfree: nat)

  /** The compile-time constants: MEM_ALIGNMENT, SIZEOF_STRUCT_MEM, MIN_SIZE_ALIGNED,
      MEM_SIZE_ALIGNED, and the number of values of `mem_size_t`. */
  datatype Config = Config(alignment: nat, sizeofMem: nat, minSize: nat, memSize: nat, modulus: nat)

  const WORD: nat := 0x1_0000_0000

  predicate ValidSizes(c: Config) {
    && c.sizeofMem > 0
    && c.minSize > 0
    && c.sizeofMem + c.minSize <= c.memSize
    && c.memSize < c.modulus
    && c.memSize + 2 * c.sizeofMem + c.minSize < WORD
  }

  predicate ValidAlignment(c: Config) {
    && c.alignment > 0 && 0x10000 % c.alignment == 0
    && c.sizeofMem % c.alignment == 0
    && c.minSize % c.alignment == 0
    && c.memSize % c.alignment == 0
    && (c.modulus == 0x10000 || c.modulus == WORD)
  }

  // ---------------------------------------------------------------- the invariant

  predicate Aligned(c: Config, p: nat) {
    c.alignment != 0 && p % c.alignment == 0
  }

  /** What holds of the block at `p`: it ends where the next start is and no start lies inside it, it has
      its minimum size, and its two links are inverted by the neighbours' links. */
  ghost predicate Block(c: Config, ram: seq<Header>, starts: set<nat>, p: nat) {
    && |ram| == c.memSize + 1 && p < c.memSize
    && ram[p].next in starts && p + c.sizeofMem + c.minSize <= ram[p].next <= c.memSize
    && (forall q :: q in starts ==> q <= p || ram[p].next <= q)
    && (ram[p].next < c.memSize ==> ram[ram[p].next].prev == p)
    && (if p == 0 then ram[p].prev == 0
        else ram[p].prev in starts && ram[p].prev < p && ram[ram[p].prev].next == p)
  }

  /** `starts` is a chain of blocks that tiles 0..memSize, closed by the sentinel mem_init puts there. */
  ghost predicate Tiled(c: Config, ram: seq<Header>, starts: set<nat>) {
    && ValidSizes(c)
    && |ram| == c.memSize + 1
    && 0 in starts && c.memSize in starts
    && (forall p :: p in starts ==> p <= c.memSize)
    && (forall p {:trigger Block(c, ram, starts, p)} :: p in starts && p < c.memSize ==> Block(c, ram, starts, p))
    && ram[c.memSize] == Header(c.memSize, c.memSize, true)
  }

  predicate FreeAt(ram: seq<Header>, p: nat)
    requires p < |ram|
  {
    !ram[p].used
  }

  predicate FollowedByUsed(ram: seq<Header>, p: nat)
    requires p < |ram|
  {
    ram[p].next < |ram| && ram[ram[p].next].used
  }

  /** No free block is followed by a free block. */
  ghost predicate Coalesced(c: Config, ram: seq<Header>, starts: set<nat>)
    requires Tiled(c, ram, starts)
  {
    forall p :: p in starts && FreeAt(ram, p) ==> FollowedByUsed(ram, p)
  }

  /** `lfree` is a block start at or below every free block.  It is itself free, or the sentinel, or
      the block `owner` that a mem_malloc in progress has taken but not yet stepped past. */
  ghost predicate Hint(c: Config, h: Heap, starts: set<nat>, owner: int)
    requires Tiled(c, h.ram, starts)
  {
    && h.lfree in starts
    && (forall p :: p in starts && FreeAt(h.ram, p) ==> h.lfree <= p)
    && (h.lfree == c.memSize || FreeAt(h.ram, h.lfree) || h.lfree == owner)
  }

  const NOBODY: int := -1

  ghost predicate Good(c: Config, h: Heap, starts: set<nat>, owner: int) {
    Tiled(c, h.ram, starts) && Coalesced(c, h.ram, starts) && Hint(c, h, starts, owner)
  }

  /** The blocks in use and where each ends: what callers of the allocator may rely on. */
  ghost function Live(c: Config, ram: seq<Header>, starts: set<nat>): map<nat, nat>
    requires Tiled(c, ram, starts)
  {
    map p | p in starts && p < c.memSize && ram[p].used :: ram[p].next
  }

  // ---------------------------------------------------------------- the code

  function SetNext(ram: seq<Header>, p: nat, v: nat): seq<Header>
    requires p < |ram|
  {
    ram[p := ram[p].(next := v)]
  }

  function SetPrev(ram: seq<Header>, p: nat, v: nat): seq<Header>
    requires p < |ram|
  {
    ram[p := ram[p].(prev := v)]
  }

  function SetUsed(ram: seq<Header>, p: nat, v: bool): seq<Header>
    requires p < |ram|
  {
    ram[p := ram[p].(used := v)]
  }

  /** `if (x != MEM_SIZE_ALIGNED) ptr_to_mem(x)->prev = v` */
  function Relink(c: Config, ram: seq<Header>, x: nat, v: nat): seq<Header>
    requires x < |ram|
  {
    if x != c.memSize then SetPrev(ram, x, v) else ram
  }

  predicate InBounds(c: Config, ram: seq<Header>) {
    |ram| == c.memSize + 1
  }

  /** The forward half of plug_holes. */
  function PlugForward(c: Config, h: Heap, mem: nat): Heap
    requires InBounds(c, h.ram) && mem < |h.ram| && h.ram[mem].next < |h.ram|
    requires h.ram[h.ram[mem].next].next < |h.ram|
  {
    var n := h.ram[mem].next;
    if mem != n && !h.ram[n].used && n != c.memSize then
      Heap(Relink(c, SetNext(h.ram, mem, h.ram[n].next), h.ram[n].next, mem),
           if h.lfree == n then mem else h.lfree)
    else h
  }

  /** The backward half of plug_holes. */
  function PlugBackward(c: Config, h: Heap, mem: nat): Heap
    requires InBounds(c, h.ram) && mem < |h.ram| && h.ram[mem].prev < |h.ram| && h.ram[mem].next < |h.ram|
  {
    var p := h.ram[mem].prev;
    if p != mem && !h.ram[p].used then
      Heap(Relink(c, SetNext(h.ram, p, h.ram[mem].next), h.ram[mem].next, p),
           if h.lfree == mem then p else h.lfree)
    else h
  }

  predicate LinkValid(c: Config, ram: seq<Header>, mem: nat)
    requires InBounds(c, ram) && mem < |ram|
  {
    && ram[mem].next <= c.memSize
    && ram[mem].prev <= c.memSize
    && !(ram[mem].prev != mem && ram[ram[mem].prev].next != mem)
    && !(ram[mem].next != c.memSize && ram[ram[mem].next].prev != mem)
  }

  /** mem_free after its checks, up to plug_holes. */
  function MarkFree(h: Heap, mem: nat): Heap
    requires mem < |h.ram|
  {
    Heap(SetUsed(h.ram, mem, false), if mem < h.lfree then mem else h.lfree)
  }

  // ---------------------------------------------------------------- mem_free

  /** A block of the chain passes mem_link_valid, so a legal mem_free is never refused by it. */
  lemma BlocksAreLinkValid(c: Config, ram: seq<Header>, starts: set<nat>, mem: nat)
    requires Tiled(c, ram, starts) && mem in starts && mem < c.memSize
    ensures LinkValid(c, ram, mem)
    ensures ram[mem].next < |ram| && ram[ram[mem].next].next < |ram| && ram[mem].prev < |ram|
  {
    assert Block(c, ram, starts, mem);
    if ram[mem].next < c.memSize { assert Block(c, ram, starts, ram[mem].next); }
  }

  lemma MarkFreeTiles(c: Config, h: Heap, starts: set<nat>, mem: nat)
    requires Tiled(c, h.ram, starts) && mem in starts && mem < c.memSize
    ensures Tiled(c, MarkFree(h, mem).ram, starts)
  {
    var ram1 := MarkFree(h, mem).ram;
    forall p | p in starts && p < c.memSize ensures Block(c, ram1, starts, p) {
      assert Block(c, h.ram, starts, p);
    }
  }

  lemma MarkFreeHint(c: Config, h: Heap, starts: set<nat>, mem: nat, owner: int)
    requires Tiled(c, h.ram, starts) && Hint(c, h, starts, owner)
    requires mem in starts && mem < c.memSize && h.ram[mem].used && mem != owner
    requires Tiled(c, MarkFree(h, mem).ram, starts)
    ensures Hint(c, MarkFree(h, mem), starts, owner)
  {
  }

  lemma MarkFreeLive(c: Config, h: Heap, starts: set<nat>, mem: nat)
    requires Tiled(c, h.ram, starts) && mem in starts && mem < c.memSize
    requires Tiled(c, MarkFree(h, mem).ram, starts)
    ensures Live(c, MarkFree(h, mem).ram, starts) == Live(c, h.ram, starts) - {mem}
  {
  }

  /** Merging the free block after `mem` into `mem`: each remaining start is still a block. */
  lemma PlugForwardBlock(c: Config, h: Heap, starts: set<nat>, mem: nat, p: nat)
    requires ValidSizes(c) && Block(c, h.ram, starts, mem) && Block(c, h.ram, starts, h.ram[mem].next)
    requires Block(c, h.ram, starts, p) && p in starts && p != h.ram[mem].next
    requires mem in starts && FreeAt(h.ram, h.ram[mem].next)
    ensures Block(c, PlugForward(c, h, mem).ram, starts - {h.ram[mem].next}, p)
  {
    var ram2 := PlugForward(c, h, mem).ram;
    assert p != mem ==> ram2[p].next == h.ram[p].next != h.ram[mem].next;
    assert p != h.ram[h.ram[mem].next].next ==> ram2[p].prev == h.ram[p].prev != h.ram[mem].next;
  }

  lemma PlugForwardTiles(c: Config, h: Heap, starts: set<nat>, mem: nat)
    requires Tiled(c, h.ram, starts) && mem in starts && mem < c.memSize
    requires h.ram[mem].next < |h.ram| && FreeAt(h.ram, h.ram[mem].next)
    ensures h.ram[h.ram[mem].next].next < |h.ram|
    ensures Tiled(c, PlugForward(c, h, mem).ram, starts - {h.ram[mem].next})
  {
    var n := h.ram[mem].next;
    assert n != c.memSize;
    assert Block(c, h.ram, starts, mem);
    assert Block(c, h.ram, starts, n);
    var ram2 := PlugForward(c, h, mem).ram;
    var s2 := starts - {n};
    forall p | p in s2 && p < c.memSize ensures Block(c, ram2, s2, p) {
      assert Block(c, h.ram, starts, p);
      PlugForwardBlock(c, h, starts, mem, p);
    }
  }

  lemma PlugForwardHint(c: Config, h: Heap, starts: set<nat>, mem: nat, owner: int)
    requires Tiled(c, h.ram, starts) && Hint(c, h, starts, owner)
    requires mem in starts && mem < c.memSize && FreeAt(h.ram, mem)
    requires h.ram[mem].next < |h.ram| && FreeAt(h.ram, h.ram[mem].next) && h.ram[h.ram[mem].next].next < |h.ram|
    requires Tiled(c, PlugForward(c, h, mem).ram, starts - {h.ram[mem].next})
    ensures Hint(c, PlugForward(c, h, mem), starts - {h.ram[mem].next}, owner)
  {
    assert Block(c, h.ram, starts, mem);
  }

  lemma PlugForwardLive(c: Config, h: Heap, starts: set<nat>, mem: nat)
    requires Tiled(c, h.ram, starts) && mem in starts && mem < c.memSize && FreeAt(h.ram, mem)
    requires h.ram[mem].next < |h.ram| && FreeAt(h.ram, h.ram[mem].next) && h.ram[h.ram[mem].next].next < |h.ram|
    requires Tiled(c, PlugForward(c, h, mem).ram, starts - {h.ram[mem].next})
    ensures Live(c, PlugForward(c, h, mem).ram, starts - {h.ram[mem].next}) == Live(c, h.ram, starts)
  {
    assert Block(c, h.ram, starts, mem);
  }

  /** Which starts the forward half of plug_holes leaves. */
  ghost function AfterForward(ram: seq<Header>, starts: set<nat>, mem: nat): set<nat>
    requires mem < |ram| && ram[mem].next < |ram|
  {
    if FreeAt(ram, ram[mem].next) then starts - {ram[mem].next} else starts
  }

  lemma PlugForwardKeeps(c: Config, h: Heap, starts: set<nat>, mem: nat, owner: int)
    requires Tiled(c, h.ram, starts) && Hint(c, h, starts, owner)
    requires mem in starts && mem < c.memSize && FreeAt(h.ram, mem)
    ensures h.ram[mem].next < |h.ram| && h.ram[h.ram[mem].next].next < |h.ram|
    ensures var h2 := PlugForward(c, h, mem);
            var s2 := AfterForward(h.ram, starts, mem);
      && Tiled(c, h2.ram, s2) && Hint(c, h2, s2, owner) && Live(c, h2.ram, s2) == Live(c, h.ram, starts)
      && mem in s2 && FreeAt(h2.ram, mem) && h2.ram[mem].prev == h.ram[mem].prev
  {
    BlocksAreLinkValid(c, h.ram, starts, mem);
    assert Block(c, h.ram, starts, mem);
    if FreeAt(h.ram, h.ram[mem].next) {
      assert Block(c, h.ram, starts, h.ram[mem].next);
      PlugForwardTiles(c, h, starts, mem);
      PlugForwardHint(c, h, starts, mem, owner);
      PlugForwardLive(c, h, starts, mem);
    }
  }

  /** The backward half merges `mem` into its predecessor exactly as the forward half, run at the
      predecessor, would. */
  lemma BackwardIsForwardAtPrev(c: Config, h: Heap, starts: set<nat>, mem: nat)
    requires Tiled(c, h.ram, starts) && mem in starts && mem < c.memSize && FreeAt(h.ram, mem)
    requires h.ram[mem].prev < |h.ram| && h.ram[mem].prev != mem && FreeAt(h.ram, h.ram[mem].prev)
    requires h.ram[mem].next < |h.ram|
    ensures h.ram[h.ram[mem].prev].next == mem
    ensures PlugBackward(c, h, mem) == PlugForward(c, h, h.ram[mem].prev)
  {
    assert Block(c, h.ram, starts, mem);
  }

  ghost function AfterBackward(ram: seq<Header>, starts: set<nat>, mem: nat): set<nat>
    requires mem < |ram| && ram[mem].prev < |ram|
  {
    if ram[mem].prev != mem && FreeAt(ram, ram[mem].prev) then starts - {mem} else starts
  }

  lemma PlugBackwardKeeps(c: Config, h: Heap, starts: set<nat>, mem: nat, owner: int)
    requires Tiled(c, h.ram, starts) && Hint(c, h, starts, owner)
    requires mem in starts && mem < c.memSize && FreeAt(h.ram, mem)
    ensures h.ram[mem].next < |h.ram| && h.ram[mem].prev < |h.ram|
    ensures var h2 := PlugBackward(c, h, mem);
            var s2 := AfterBackward(h.ram, starts, mem);
      && Tiled(c, h2.ram, s2) && Hint(c, h2, s2, owner) && Live(c, h2.ram, s2) == Live(c, h.ram, starts)
  {
    BlocksAreLinkValid(c, h.ram, starts, mem);
    assert Block(c, h.ram, starts, mem);
    if h.ram[mem].prev != mem && FreeAt(h.ram, h.ram[mem].prev) {
      BackwardIsForwardAtPrev(c, h, starts, mem);
      PlugForwardKeeps(c, h, starts, h.ram[mem].prev, owner);
    }
  }

  /** No free block followed by a free block, except perhaps where `mem` takes part. */
  ghost predicate CoalescedBut(ram: seq<Header>, starts: set<nat>, mem: nat) {
    forall p :: p in starts && p < |ram| && FreeAt(ram, p) && p != mem && ram[p].next != mem ==> FollowedByUsed(ram, p)
  }

  lemma ForwardCoalesces(c: Config, h: Heap, starts: set<nat>, mem: nat)
    requires Tiled(c, h.ram, starts) && CoalescedBut(h.ram, starts, mem)
    requires mem in starts && mem < c.memSize && FreeAt(h.ram, mem)
    requires h.ram[mem].next < |h.ram| && h.ram[h.ram[mem].next].next < |h.ram|
    ensures var h2 := PlugForward(c, h, mem);
            var s2 := AfterForward(h.ram, starts, mem);
      CoalescedBut(h2.ram, s2, mem) && FollowedByUsed(h2.ram, mem)
  {
    var n := h.ram[mem].next;
    assert Block(c, h.ram, starts, mem);
    if FreeAt(h.ram, n) {
      assert Block(c, h.ram, starts, n);
      assert FollowedByUsed(h.ram, n);
    }
  }

  lemma BackwardCoalesces(c: Config, h: Heap, starts: set<nat>, mem: nat)
    requires Tiled(c, h.ram, starts) && CoalescedBut(h.ram, starts, mem)
    requires mem in starts && mem < c.memSize && FreeAt(h.ram, mem) && FollowedByUsed(h.ram, mem)
    requires h.ram[mem].next < |h.ram| && h.ram[mem].prev < |h.ram|
    requires Tiled(c, PlugBackward(c, h, mem).ram, AfterBackward(h.ram, starts, mem))
    ensures Coalesced(c, PlugBackward(c, h, mem).ram, AfterBackward(h.ram, starts, mem))
  {
    var h2 := PlugBackward(c, h, mem);
    var s2 := AfterBackward(h.ram, starts, mem);
    assert Block(c, h.ram, starts, mem);
    forall p | p in s2 && FreeAt(h2.ram, p) ensures FollowedByUsed(h2.ram, p) {
      if p < c.memSize { assert Block(c, h.ram, starts, p); }
    }
  }

  /** mem_free for a block in use, from `mem->used = 0` to the end of plug_holes. */
  function FreeBlock(c: Config, h: Heap, mem: nat): Heap
    requires InBounds(c, h.ram) && mem < |h.ram| && LinkValid(c, h.ram, mem)
    requires h.ram[h.ram[mem].next].next < |h.ram|
    requires h.ram[mem].prev <= mem < h.ram[mem].next
  {
    PlugBackward(c, PlugForward(c, MarkFree(h, mem), mem), mem)
  }

  ghost function FreeStarts(c: Config, h: Heap, starts: set<nat>, mem: nat): set<nat>
    requires Tiled(c, h.ram, starts) && mem in starts && mem < c.memSize
  {
    assert Block(c, h.ram, starts, mem);
    var n := h.ram[mem].next;
    var p := h.ram[mem].prev;
    starts - (if FreeAt(h.ram, n) then {n} else {}) - (if p != mem && FreeAt(h.ram, p) then {mem} else {})
  }

  /** The two halves of plug_holes, one after the other, on a heap where only `mem` may touch a free block. */
  lemma PlugHolesKeeps(c: Config, h: Heap, starts: set<nat>, mem: nat, owner: int)
    requires Tiled(c, h.ram, starts) && Hint(c, h, starts, owner) && CoalescedBut(h.ram, starts, mem)
    requires mem in starts && mem < c.memSize && FreeAt(h.ram, mem)
    ensures h.ram[mem].next < |h.ram| && h.ram[h.ram[mem].next].next < |h.ram|
    ensures var h2 := PlugForward(c, h, mem);
            var s2 := AfterForward(h.ram, starts, mem);
      && h2.ram[mem].next < |h2.ram| && h2.ram[mem].prev < |h2.ram|
      && Good(c, PlugBackward(c, h2, mem), AfterBackward(h2.ram, s2, mem), owner)
      && Live(c, PlugBackward(c, h2, mem).ram, AfterBackward(h2.ram, s2, mem)) == Live(c, h.ram, starts)
  {
    PlugForwardKeeps(c, h, starts, mem, owner);
    ForwardCoalesces(c, h, starts, mem);
    var h2 := PlugForward(c, h, mem);
    var s2 := AfterForward(h.ram, starts, mem);
    PlugBackwardKeeps(c, h2, s2, mem, owner);
    BackwardCoalesces(c, h2, s2, mem);
  }

  lemma FreeStartsAre(c: Config, h: Heap, starts: set<nat>, mem: nat)
    requires Tiled(c, h.ram, starts) && mem in starts && mem < c.memSize
    requires h.ram[mem].next < |h.ram| && h.ram[h.ram[mem].next].next < |h.ram|
    requires h.ram[mem].prev <= mem < h.ram[mem].next
    ensures var h1 := MarkFree(h, mem);
            var h2 := PlugForward(c, h1, mem);
      && h2.ram[mem].prev == h.ram[mem].prev
      && AfterBackward(h2.ram, AfterForward(h1.ram, starts, mem), mem) == FreeStarts(c, h, starts, mem)
  {
    assert Block(c, h.ram, starts, mem);
    if h.ram[mem].next < c.memSize { assert Block(c, h.ram, starts, h.ram[mem].next); }
  }

  /** mem_free keeps the whole invariant and takes exactly `mem` out of the live blocks. */
  lemma FreeKeeps(c: Config, h: Heap, starts: set<nat>, mem: nat, owner: int)
    requires Good(c, h, starts, owner)
    requires mem in starts && mem < c.memSize && h.ram[mem].used && mem != owner
    ensures LinkValid(c, h.ram, mem) && h.ram[h.ram[mem].next].next < |h.ram|
    ensures h.ram[mem].prev <= mem < h.ram[mem].next
    ensures var h2 := FreeBlock(c, h, mem);
            var s2 := FreeStarts(c, h, starts, mem);
      && Good(c, h2, s2, owner)
      && Live(c, h2.ram, s2) == Live(c, h.ram, starts) - {mem}
  {
    BlocksAreLinkValid(c, h.ram, starts, mem);
    assert h.ram[mem].prev <= mem < h.ram[mem].next by { assert Block(c, h.ram, starts, mem); }
    MarkFreeTiles(c, h, starts, mem);
    MarkFreeHint(c, h, starts, mem, owner);
    MarkFreeLive(c, h, starts, mem);
    PlugHolesKeeps(c, MarkFree(h, mem), starts, mem, owner);
    FreeStartsAre(c, h, starts, mem);
  }

  // ---------------------------------------------------------------- splitting a block

  /** A new free header at `p2`, inserted between `mem` and the block after it. */
  function SplitAt(c: Config, ram: seq<Header>, mem: nat, p2: nat): seq<Header>
    requires InBounds(c, ram) && mem < |ram| && p2 < |ram| && ram[mem].next < |ram|
  {
    Relink(c, SetNext(ram[p2 := Header(ram[mem].next, mem, false)], mem, p2), ram[mem].next, p2)
  }

  /** Both parts of the block at `mem` keep room for a header and the minimum of data. */
  predicate CanSplit(c: Config, ram: seq<Header>, mem: nat, p2: nat)
    requires mem < |ram|
  {
    mem + c.sizeofMem + c.minSize <= p2 && p2 + c.sizeofMem + c.minSize <= ram[mem].next
  }

  lemma SplitBlock(c: Config, ram: seq<Header>, starts: set<nat>, mem: nat, p2: nat, p: nat)
    requires ValidSizes(c) && mem in starts && Block(c, ram, starts, mem) && CanSplit(c, ram, mem, p2)
    requires p in starts && Block(c, ram, starts, p)
    ensures Block(c, SplitAt(c, ram, mem, p2), starts + {p2}, p)
  {
    var ram2 := SplitAt(c, ram, mem, p2);
    assert p2 !in starts;
    assert p != mem ==> ram2[p].next == ram[p].next;
    assert p != ram[mem].next ==> ram2[p].prev == ram[p].prev;
  }

  lemma SplitRest(c: Config, ram: seq<Header>, starts: set<nat>, mem: nat, p2: nat)
    requires ValidSizes(c) && mem in starts && Block(c, ram, starts, mem) && CanSplit(c, ram, mem, p2)
    ensures Block(c, SplitAt(c, ram, mem, p2), starts + {p2}, p2)
  {
  }

  lemma SplitBounds(c: Config, ram: seq<Header>, starts: set<nat>, mem: nat, p2: nat)
    requires Tiled(c, ram, starts) && mem in starts && mem < c.memSize && CanSplit(c, ram, mem, p2)
    ensures Block(c, ram, starts, mem) && ram[mem].next < |ram| && p2 < |ram| && p2 !in starts
  {
    assert Block(c, ram, starts, mem);
  }

  lemma SplitEach(c: Config, ram: seq<Header>, starts: set<nat>, mem: nat, p2: nat, p: nat)
    requires Tiled(c, ram, starts) && mem in starts && Block(c, ram, starts, mem) && CanSplit(c, ram, mem, p2)
    requires p in starts + {p2} && p < c.memSize
    ensures Block(c, SplitAt(c, ram, mem, p2), starts + {p2}, p)
  {
    if p == p2 {
      SplitRest(c, ram, starts, mem, p2);
    } else {
      assert Block(c, ram, starts, p);
      SplitBlock(c, ram, starts, mem, p2, p);
    }
  }

  lemma SplitTiles(c: Config, ram: seq<Header>, starts: set<nat>, mem: nat, p2: nat)
    requires Tiled(c, ram, starts) && mem in starts && mem < c.memSize && CanSplit(c, ram, mem, p2)
    ensures ram[mem].next < |ram| && p2 < |ram| && p2 !in starts
    ensures Tiled(c, SplitAt(c, ram, mem, p2), starts + {p2})
  {
    SplitBounds(c, ram, starts, mem, p2);
    var ram2 := SplitAt(c, ram, mem, p2);
    var s2 := starts + {p2};
    forall p | p in s2 && p < c.memSize ensures Block(c, ram2, s2, p) { SplitEach(c, ram, starts, mem, p2, p); }
    assert ram2[c.memSize] == ram[c.memSize];
  }

  lemma SplitLive(c: Config, ram: seq<Header>, starts: set<nat>, mem: nat, p2: nat)
    requires Tiled(c, ram, starts) && mem in starts && mem < c.memSize && CanSplit(c, ram, mem, p2)
    requires ram[mem].next < |ram| && p2 < |ram| && p2 !in starts
    requires Tiled(c, SplitAt(c, ram, mem, p2), starts + {p2})
    ensures Live(c, SplitAt(c, ram, mem, p2), starts + {p2})
         == if ram[mem].used then Live(c, ram, starts)[mem := p2] else Live(c, ram, starts)
  {
  }

  lemma SplitCoalesced(c: Config, ram: seq<Header>, starts: set<nat>, mem: nat, p2: nat)
    requires Tiled(c, ram, starts) && mem in starts && mem < c.memSize && CanSplit(c, ram, mem, p2)
    requires CoalescedBut(ram, starts, mem) && ram[mem].next < |ram| && p2 < |ram| && ram[ram[mem].next].used
    requires p2 !in starts
    ensures CoalescedBut(SplitAt(c, ram, mem, p2), starts + {p2}, mem)
  {
    var ram2 := SplitAt(c, ram, mem, p2);
    forall p | p in starts + {p2} && p < |ram2| && FreeAt(ram2, p) && p != mem && ram2[p].next != mem
      ensures FollowedByUsed(ram2, p)
    {
      if p != p2 {
        assert FollowedByUsed(ram, p);
        assert p < c.memSize ==> Block(c, ram, starts, p);
      }
    }
  }

  // ---------------------------------------------------------------- mem_malloc takes a block

  function DataSize(c: Config, ram: seq<Header>, p: nat): int
    requires p < |ram|
  {
    ram[p].next - (p + c.sizeofMem)
  }

  predicate Fits(c: Config, ram: seq<Header>, p: nat, size: nat)
    requires p < |ram|
  {
    !ram[p].used && DataSize(c, ram, p) >= size
  }

  function Rest(c: Config, ptr: nat, size: nat): nat {
    ptr + c.sizeofMem + size
  }

  predicate WillSplit(c: Config, ram: seq<Header>, ptr: nat, size: nat)
    requires ptr < |ram|
  {
    DataSize(c, ram, ptr) >= size + c.sizeofMem + c.minSize
  }

  function MarkUsed(ram: seq<Header>, ptr: nat): seq<Header>
    requires ptr < |ram|
  {
    SetUsed(ram, ptr, true)
  }

  function TakeRam(c: Config, ram: seq<Header>, ptr: nat, size: nat): seq<Header>
    requires InBounds(c, ram) && ptr < |ram| && ram[ptr].next < |ram|
  {
    if WillSplit(c, ram, ptr, size) then MarkUsed(SplitAt(c, ram, ptr, Rest(c, ptr, size)), ptr)
    else MarkUsed(ram, ptr)
  }

  ghost function TakeStarts(c: Config, ram: seq<Header>, starts: set<nat>, ptr: nat, size: nat): set<nat>
    requires ptr < |ram|
  {
    if WillSplit(c, ram, ptr, size) then starts + {Rest(c, ptr, size)} else starts
  }

  /** `size` bytes of the block `ptr`, which ended at `end`, are taken: no more than that where the rest has room
      for a header and the minimum of data, and the rest is then a free block; else all of it. */
  ghost predicate Cut(c: Config, ram: seq<Header>, starts: set<nat>, ptr: nat, size: nat, end: nat)
    requires ptr < |ram|
  {
    var cut := ptr + c.sizeofMem + size;
    if cut + c.sizeofMem + c.minSize <= end then
      && ram[ptr].next == cut
      && cut in starts && cut < |ram| && ram[cut] == Header(end, ptr, false)
    else ram[ptr].next == end
  }

  lemma MarkUsedTiles(c: Config, ram: seq<Header>, starts: set<nat>, ptr: nat)
    requires Tiled(c, ram, starts) && ptr in starts && ptr < c.memSize
    ensures Tiled(c, MarkUsed(ram, ptr), starts)
  {
    var ram2 := MarkUsed(ram, ptr);
    forall p | p in starts && p < c.memSize ensures Block(c, ram2, starts, p) {
      assert Block(c, ram, starts, p);
    }
  }

  lemma MarkUsedCoalesced(c: Config, ram: seq<Header>, starts: set<nat>, ptr: nat)
    requires Tiled(c, ram, starts) && CoalescedBut(ram, starts, ptr) && ptr in starts && ptr < c.memSize
    requires Tiled(c, MarkUsed(ram, ptr), starts)
    ensures Coalesced(c, MarkUsed(ram, ptr), starts)
  {
    var ram2 := MarkUsed(ram, ptr);
    forall p | p in starts && FreeAt(ram2, p) ensures FollowedByUsed(ram2, p) {
      if p < c.memSize { assert Block(c, ram2, starts, p); }
    }
  }

  lemma MarkUsedLive(c: Config, ram: seq<Header>, starts: set<nat>, ptr: nat)
    requires Tiled(c, ram, starts) && ptr in starts && ptr < c.memSize
    requires Tiled(c, MarkUsed(ram, ptr), starts)
    ensures Live(c, MarkUsed(ram, ptr), starts) == Live(c, ram, starts)[ptr := ram[ptr].next]
  {
  }

  lemma MarkUsedKeeps(c: Config, ram: seq<Header>, starts: set<nat>, ptr: nat)
    requires Tiled(c, ram, starts) && CoalescedBut(ram, starts, ptr)
    requires ptr in starts && ptr < c.memSize
    ensures Tiled(c, MarkUsed(ram, ptr), starts) && Coalesced(c, MarkUsed(ram, ptr), starts)
    ensures Live(c, MarkUsed(ram, ptr), starts) == Live(c, ram, starts)[ptr := ram[ptr].next]
  {
    MarkUsedTiles(c, ram, starts, ptr);
    MarkUsedCoalesced(c, ram, starts, ptr);
    MarkUsedLive(c, ram, starts, ptr);
  }

  /** Taking a fitting free block keeps the chain, leaves every other live block as it was and makes
      `ptr` live with `size` bytes of data, or the whole block where the rest is worth no header. */
  lemma TakeKeeps(c: Config, ram: seq<Header>, starts: set<nat>, ptr: nat, size: nat)
    requires Tiled(c, ram, starts) && Coalesced(c, ram, starts)
    requires ptr in starts && ptr < c.memSize && Fits(c, ram, ptr, size) && size >= c.minSize
    ensures ram[ptr].next < |ram|
    ensures var ram2 := TakeRam(c, ram, ptr, size);
            var s2 := TakeStarts(c, ram, starts, ptr, size);
      && Tiled(c, ram2, s2) && Coalesced(c, ram2, s2)
      && Live(c, ram2, s2) == Live(c, ram, starts)[ptr := ram2[ptr].next]
      && DataSize(c, ram2, ptr) >= size && Cut(c, ram2, s2, ptr, size, ram[ptr].next)
  {
    assert Block(c, ram, starts, ptr);
    assert FollowedByUsed(ram, ptr);
    if WillSplit(c, ram, ptr, size) {
      var p2 := Rest(c, ptr, size);
      SplitTiles(c, ram, starts, ptr, p2);
      SplitLive(c, ram, starts, ptr, p2);
      SplitCoalesced(c, ram, starts, ptr, p2);
      MarkUsedKeeps(c, SplitAt(c, ram, ptr, p2), starts + {p2}, ptr);
    } else {
      MarkUsedKeeps(c, ram, starts, ptr);
    }
  }

  lemma TakeHint(c: Config, h: Heap, starts: set<nat>, ptr: nat, size: nat)
    requires Tiled(c, h.ram, starts) && Hint(c, h, starts, NOBODY)
    requires ptr in starts && ptr < c.memSize && Fits(c, h.ram, ptr, size) && h.ram[ptr].next < |h.ram|
    requires Tiled(c, TakeRam(c, h.ram, ptr, size), TakeStarts(c, h.ram, starts, ptr, size))
    ensures Hint(c, Heap(TakeRam(c, h.ram, ptr, size), h.lfree), TakeStarts(c, h.ram, starts, ptr, size), ptr)
  {
  }

  // ---------------------------------------------------------------- mem_trim

  /** The protected section of mem_trim for the block `mem`, shrunk to `newsize` bytes of data. */
  function TrimBlock(c: Config, h: Heap, mem: nat, newsize: nat): Heap
    requires InBounds(c, h.ram) && mem < |h.ram| && h.ram[mem].next < |h.ram|
    requires newsize < DataSize(c, h.ram, mem)
    requires h.ram[h.ram[mem].next].next < |h.ram|
  {
    var n := h.ram[mem].next;
    var p2 := Rest(c, mem, newsize);
    if !h.ram[n].used then
      var next := h.ram[n].next;
      Heap(Relink(c, SetNext(h.ram[p2 := Header(next, mem, false)], mem, p2), next, p2),
           if h.lfree == n then p2 else h.lfree)
    else if WillSplit(c, h.ram, mem, newsize) then
      Heap(SplitAt(c, h.ram, mem, p2), if p2 < h.lfree then p2 else h.lfree)
    else h
  }

  ghost function TrimStarts(c: Config, ram: seq<Header>, starts: set<nat>, mem: nat, newsize: nat): set<nat>
    requires mem < |ram| && ram[mem].next < |ram|
  {
    if !ram[ram[mem].next].used then starts - {ram[mem].next} + {Rest(c, mem, newsize)}
    else TakeStarts(c, ram, starts, mem, newsize)
  }

  /** Moving the free block after `mem` down is the same as merging it into `mem` and splitting `mem`. */
  lemma MoveIsMergeThenSplit(c: Config, h: Heap, starts: set<nat>, mem: nat, newsize: nat)
    requires Tiled(c, h.ram, starts) && mem in starts && mem < c.memSize
    requires h.ram[mem].next < |h.ram| && FreeAt(h.ram, h.ram[mem].next)
    requires c.minSize <= newsize < DataSize(c, h.ram, mem)
    ensures h.ram[h.ram[mem].next].next < |h.ram|
    ensures CanSplit(c, PlugForward(c, h, mem).ram, mem, Rest(c, mem, newsize))
    ensures TrimBlock(c, h, mem, newsize).ram
         == SplitAt(c, PlugForward(c, h, mem).ram, mem, Rest(c, mem, newsize))
  {
    assert Block(c, h.ram, starts, mem);
    assert Block(c, h.ram, starts, h.ram[mem].next);
  }

  lemma MergeIntoUsed(c: Config, h: Heap, starts: set<nat>, mem: nat)
    requires Tiled(c, h.ram, starts) && Coalesced(c, h.ram, starts)
    requires mem in starts && mem < c.memSize && h.ram[mem].used
    requires h.ram[mem].next < |h.ram| && FreeAt(h.ram, h.ram[mem].next)
    ensures h.ram[h.ram[mem].next].next < |h.ram|
    ensures var ram2 := PlugForward(c, h, mem).ram;
            var s2 := starts - {h.ram[mem].next};
      && Tiled(c, ram2, s2) && CoalescedBut(ram2, s2, mem) && FollowedByUsed(ram2, mem) && ram2[mem].used
      && Live(c, ram2, s2) == Live(c, h.ram, starts)[mem := ram2[mem].next]
  {
    var n := h.ram[mem].next;
    assert Block(c, h.ram, starts, mem);
    assert n < c.memSize;
    assert Block(c, h.ram, starts, n);
    assert FollowedByUsed(h.ram, n);
    PlugForwardTiles(c, h, starts, mem);
  }

  lemma CoalescedAroundUsed(c: Config, ram: seq<Header>, starts: set<nat>, mem: nat)
    requires Tiled(c, ram, starts) && CoalescedBut(ram, starts, mem) && mem in starts && ram[mem].used
    ensures Coalesced(c, ram, starts)
  {
    forall p | p in starts && FreeAt(ram, p) ensures FollowedByUsed(ram, p) {
      if p < c.memSize { assert Block(c, ram, starts, p); }
    }
  }

  /** What mem_trim promises of its result. */
  ghost predicate Trimmed(c: Config, ram: seq<Header>, starts: set<nat>, ram2: seq<Header>, s2: set<nat>, mem: nat,
                          newsize: nat)
    requires Tiled(c, ram, starts) && mem < |ram|
  {
    && Tiled(c, ram2, s2) && Coalesced(c, ram2, s2)
    && Live(c, ram2, s2) == Live(c, ram, starts)[mem := ram2[mem].next]
    && newsize <= DataSize(c, ram2, mem) <= DataSize(c, ram, mem)
  }

  lemma TrimMoves(c: Config, h: Heap, starts: set<nat>, mem: nat, newsize: nat)
    requires Tiled(c, h.ram, starts) && Coalesced(c, h.ram, starts)
    requires mem in starts && mem < c.memSize && h.ram[mem].used
    requires c.minSize <= newsize < DataSize(c, h.ram, mem)
    requires h.ram[mem].next < |h.ram| && h.ram[h.ram[mem].next].next < |h.ram|
    requires FreeAt(h.ram, h.ram[mem].next)
    ensures Trimmed(c, h.ram, starts, TrimBlock(c, h, mem, newsize).ram,
                    TrimStarts(c, h.ram, starts, mem, newsize), mem, newsize)
  {
    MoveIsMergeThenSplit(c, h, starts, mem, newsize);
    MergeIntoUsed(c, h, starts, mem);
    SplitUsed(c, PlugForward(c, h, mem).ram, starts - {h.ram[mem].next}, mem, Rest(c, mem, newsize));
  }

  /** mem_trim keeps the chain, never moves or grows a block, and leaves `mem` at least `newsize`
      bytes; every other live block stays as it was. */
  lemma TrimKeeps(c: Config, h: Heap, starts: set<nat>, mem: nat, newsize: nat)
    requires Tiled(c, h.ram, starts) && Coalesced(c, h.ram, starts)
    requires mem in starts && mem < c.memSize && h.ram[mem].used
    requires c.minSize <= newsize < DataSize(c, h.ram, mem)
    ensures h.ram[mem].next < |h.ram| && h.ram[h.ram[mem].next].next < |h.ram|
    ensures Trimmed(c, h.ram, starts, TrimBlock(c, h, mem, newsize).ram,
                    TrimStarts(c, h.ram, starts, mem, newsize), mem, newsize)
  {
    BlocksAreLinkValid(c, h.ram, starts, mem);
    if FreeAt(h.ram, h.ram[mem].next) {
      TrimMoves(c, h, starts, mem, newsize);
    } else if WillSplit(c, h.ram, mem, newsize) {
      SplitUsed(c, h.ram, starts, mem, Rest(c, mem, newsize));
    }
  }

  lemma SplitUsed(c: Config, ram: seq<Header>, starts: set<nat>, mem: nat, p2: nat)
    requires Tiled(c, ram, starts) && mem in starts && mem < c.memSize && CanSplit(c, ram, mem, p2)
    requires CoalescedBut(ram, starts, mem) && ram[mem].used && FollowedByUsed(ram, mem)
    ensures ram[mem].next < |ram| && p2 < |ram| && p2 !in starts
    ensures var ram2 := SplitAt(c, ram, mem, p2);
      && Tiled(c, ram2, starts + {p2}) && Coalesced(c, ram2, starts + {p2})
      && Live(c, ram2, starts + {p2}) == Live(c, ram, starts)[mem := p2]
  {
    assert Block(c, ram, starts, mem);
    SplitTiles(c, ram, starts, mem, p2);
    SplitLive(c, ram, starts, mem, p2);
    SplitCoalesced(c, ram, starts, mem, p2);
    CoalescedAroundUsed(c, SplitAt(c, ram, mem, p2), starts + {p2}, mem);
  }

  lemma TrimHint(c: Config, h: Heap, starts: set<nat>, mem: nat, newsize: nat, owner: int)
    requires Good(c, h, starts, owner) && mem != owner
    requires mem in starts && mem < c.memSize && h.ram[mem].used
    requires c.minSize <= newsize < DataSize(c, h.ram, mem)
    requires h.ram[mem].next < |h.ram| && h.ram[h.ram[mem].next].next < |h.ram|
    requires Tiled(c, TrimBlock(c, h, mem, newsize).ram, TrimStarts(c, h.ram, starts, mem, newsize))
    ensures Hint(c, TrimBlock(c, h, mem, newsize), TrimStarts(c, h.ram, starts, mem, newsize), owner)
  {
    assert Block(c, h.ram, starts, mem);
  }

  /** mem_trim altogether: the whole invariant, and what becomes of the live blocks. */
  lemma TrimIsRight(c: Config, h: Heap, starts: set<nat>, mem: nat, newsize: nat)
    requires Good(c, h, starts, NOBODY) && mem in starts && mem < c.memSize && h.ram[mem].used
    requires c.minSize <= newsize < DataSize(c, h.ram, mem)
    ensures mem < h.ram[mem].next < |h.ram| && h.ram[h.ram[mem].next].next < |h.ram|
    ensures Rest(c, mem, newsize) < h.ram[mem].next
    ensures !h.ram[h.ram[mem].next].used ==> h.ram[mem].next < h.ram[h.ram[mem].next].next
    ensures var h2, s2 := TrimBlock(c, h, mem, newsize), TrimStarts(c, h.ram, starts, mem, newsize);
      && Good(c, h2, s2, NOBODY)
      && Live(c, h2.ram, s2) == Live(c, h.ram, starts)[mem := h2.ram[mem].next]
      && h2.ram[mem].next == if !h.ram[h.ram[mem].next].used || WillSplit(c, h.ram, mem, newsize)
                             then Rest(c, mem, newsize) else h.ram[mem].next
  {
    assert Block(c, h.ram, starts, mem);
    if !h.ram[h.ram[mem].next].used { assert Block(c, h.ram, starts, h.ram[mem].next); }
    TrimKeeps(c, h, starts, mem, newsize);
    TrimHint(c, h, starts, mem, newsize, NOBODY);
  }

  // ---------------------------------------------------------------- what the invariant means

  /** The offsets reached by following `next` from `p`. */
  ghost function Chain(c: Config, ram: seq<Header>, p: nat): set<nat>
    requires InBounds(c, ram)
    decreases c.memSize - p
  {
    if p >= c.memSize then {c.memSize}
    else if p < ram[p].next <= c.memSize then {p} + Chain(c, ram, ram[p].next)
    else {p}
  }

  lemma {:induction false} ChainFrom(c: Config, ram: seq<Header>, starts: set<nat>, p: nat)
    requires Tiled(c, ram, starts) && p in starts
    ensures Chain(c, ram, p) == set q | q in starts && p <= q
    decreases c.memSize - p
  {
    if p < c.memSize {
      assert Block(c, ram, starts, p);
      ChainFrom(c, ram, starts, ram[p].next);
    }
  }

  /** The set of starts is determined by the array: it is the chain of `next` links from offset 0. */
  lemma StartsAreTheChain(c: Config, ram: seq<Header>, starts: set<nat>)
    requires Tiled(c, ram, starts)
    ensures starts == Chain(c, ram, 0)
  {
    ChainFrom(c, ram, starts, 0);
  }

  lemma {:induction false} BlockContaining(c: Config, ram: seq<Header>, starts: set<nat>, p: nat, x: nat)
      returns (b: nat)
    requires Tiled(c, ram, starts) && p in starts && p <= x < c.memSize
    ensures b in starts && b <= x < ram[b].next
    decreases c.memSize - p
  {
    assert Block(c, ram, starts, p);
    if x < ram[p].next {
      b := p;
    } else {
      b := BlockContaining(c, ram, starts, ram[p].next, x);
    }
  }

  /** The blocks tile the heap: every byte below the sentinel lies in one block and in no other. */
  lemma EveryByteInExactlyOneBlock(c: Config, ram: seq<Header>, starts: set<nat>, x: nat)
    requires Tiled(c, ram, starts) && x < c.memSize
    ensures exists b :: b in starts && b <= x < ram[b].next
    ensures forall b, d :: b in starts && d in starts && b <= x < ram[b].next && d <= x < ram[d].next ==> b == d
  {
    var b0 := BlockContaining(c, ram, starts, 0, x);
    forall b, d | b in starts && d in starts && b <= x < ram[b].next && d <= x < ram[d].next ensures b == d {
      assert Block(c, ram, starts, b);
      assert Block(c, ram, starts, d);
    }
  }

  /** Data regions of different live blocks do not overlap. */
  lemma LiveRegionsAreDisjoint(c: Config, ram: seq<Header>, starts: set<nat>, p: nat, q: nat)
    requires Tiled(c, ram, starts)
    requires p in Live(c, ram, starts) && q in Live(c, ram, starts) && p < q
    ensures Live(c, ram, starts)[p] <= q < q + c.sizeofMem < Live(c, ram, starts)[q] <= c.memSize
  {
    assert Block(c, ram, starts, p);
    assert Block(c, ram, starts, q);
  }

  /** When nothing is live the heap is back to the single free block mem_init made. */
  lemma NothingLiveIsInitial(c: Config, h: Heap, starts: set<nat>)
    requires Good(c, h, starts, NOBODY) && Live(c, h.ram, starts) == map[]
    ensures starts == {0, c.memSize} && h.lfree == 0
    ensures h.ram[0] == Header(c.memSize, 0, false) && h.ram[c.memSize] == Header(c.memSize, c.memSize, true)
  {
    assert Block(c, h.ram, starts, 0);
    assert 0 !in Live(c, h.ram, starts);
    assert FollowedByUsed(h.ram, 0);
    var n := h.ram[0].next;
    assert n !in Live(c, h.ram, starts);
    assert forall q :: q in starts ==> q <= 0 || n <= q;
  }

  // ---------------------------------------------------------------- alignment and rounding

  ghost predicate AllAligned(c: Config, starts: set<nat>) {
    forall p :: p in starts ==> Aligned(c, p)
  }

  lemma RestAligned(c: Config, p: nat, size: nat)
    requires ValidAlignment(c) && Aligned(c, p) && size % c.alignment == 0
    ensures Aligned(c, Rest(c, p, size))
  {
    Arith.AddMultiple(c.alignment, p, c.sizeofMem);
    Arith.AddMultiple(c.alignment, p + c.sizeofMem, size);
  }

  /** LWIP_MEM_ALIGN_SIZE in 32-bit arithmetic, then the cast to `mem_size_t`. */
  function AlignSize(c: Config, n: nat): nat
    requires c.alignment > 0 && c.modulus > 0
  {
    ((n + c.alignment - 1) % WORD / c.alignment * c.alignment) % c.modulus
  }

  /** The size computation that mem_malloc and mem_trim share: None where the source returns NULL. */
  function RoundSize(c: Config, n: nat): Option<nat>
    requires c.alignment > 0 && c.modulus > 0
  {
    var size0 := AlignSize(c, n);
    var size := if size0 < c.minSize then c.minSize else size0;
    if size > c.memSize || size < n then None else Some(size)
  }

  /** The least multiple of the alignment that is at least `n`, in unbounded arithmetic. */
  function Ceil(c: Config, n: nat): nat
    requires c.alignment > 0
  {
    (n + c.alignment - 1) / c.alignment * c.alignment
  }

  lemma AlignSizeIsCeil(c: Config, n: nat)
    requires ValidAlignment(c) && n < c.modulus
    ensures Ceil(c, n) % c.alignment == 0 && n <= Ceil(c, n) < n + c.alignment
    ensures Ceil(c, n) < c.modulus ==> AlignSize(c, n) == Ceil(c, n)
    ensures Ceil(c, n) >= c.modulus ==> AlignSize(c, n) == 0
  {
    CeilBounds(c, n);
    if Ceil(c, n) >= c.modulus {
      CeilIsModulus(c, n);
      if c.modulus == WORD { AlignWrapsAtWord(c, n); } else { AlignTruncates(c, n); }
    } else {
      AlignWithoutWrap(c, n);
    }
  }

  lemma CeilBounds(c: Config, n: nat)
    requires ValidAlignment(c)
    ensures Ceil(c, n) % c.alignment == 0 && n <= Ceil(c, n) < n + c.alignment
  {
    Arith.FloorMultiple(n + c.alignment - 1, c.alignment);
  }

  lemma CeilIsModulus(c: Config, n: nat)
    requires ValidAlignment(c) && n < c.modulus <= Ceil(c, n)
    ensures Ceil(c, n) == c.modulus
  {
    CeilBounds(c, n);
    WordMultiple(c.alignment);
    assert c.modulus % c.alignment == 0;
    if c.modulus < Ceil(c, n) { Arith.CloseMultiples(c.alignment, c.modulus, Ceil(c, n)); }
  }

  lemma AlignWrapsAtWord(c: Config, n: nat)
    requires ValidAlignment(c) && n < c.modulus == WORD == Ceil(c, n)
    ensures AlignSize(c, n) == 0
  {
    var a, m := c.alignment, n + c.alignment - 1;
    CeilBounds(c, n);
    Arith.DivModUnique(m, WORD, 1, m - WORD);
    Arith.DivModUnique(m - WORD, a, 0, m - WORD);
  }

  lemma AlignTruncates(c: Config, n: nat)
    requires ValidAlignment(c) && n < c.modulus == 0x10000 == Ceil(c, n)
    ensures AlignSize(c, n) == 0
  {
    WordMultiple(c.alignment);
    ModSmall(n + c.alignment - 1, WORD);
    AlignOfSmall(c, n);
    Arith.DivModUnique(c.modulus, c.modulus, 1, 0);
  }

  lemma AlignWithoutWrap(c: Config, n: nat)
    requires ValidAlignment(c) && n < c.modulus && Ceil(c, n) < c.modulus
    ensures AlignSize(c, n) == Ceil(c, n)
  {
    WordMultiple(c.alignment);
    if n + c.alignment - 1 >= WORD { WordFloor(c.alignment, n + c.alignment - 1); }
    ModSmall(n + c.alignment - 1, WORD);
    AlignOfSmall(c, n);
    ModSmall(Ceil(c, n), c.modulus);
  }

  /** Where the addition does not wrap, only the cast is left. */
  lemma AlignOfSmall(c: Config, n: nat)
    requires c.alignment > 0 && c.modulus > 0 && (n + c.alignment - 1) % WORD == n + c.alignment - 1
    ensures AlignSize(c, n) == Ceil(c, n) % c.modulus
  {}

  lemma ModSmall(x: nat, m: nat)
    requires x < m
    ensures x % m == x
  {}

  lemma WordMultiple(a: nat)
    requires a > 0 && 0x10000 % a == 0
    ensures WORD % a == 0 && a <= 0x10000
  {
    var k := 0x10000 / a;
    assert 0x10000 == k * a;
    assert WORD == (0x10000 * k) * a;
    Arith.MultipleMod(a, 0x10000 * k);
    if a > 0x10000 { Arith.DivModUnique(0x10000, a, 0, 0x10000); }
  }

  lemma WordFloor(a: nat, m: nat)
    requires a > 0 && WORD % a == 0 && m >= WORD
    ensures m / a * a >= WORD
  {
    Arith.FloorMultiple(m, a);
    if m / a * a < WORD { Arith.CloseMultiples(a, m / a * a, WORD); }
  }

  /** A request is refused exactly when its size, rounded without any wrap-around, exceeds the heap; a
      size that is accepted is aligned, at least the minimum and at least what was asked for. */
  lemma RoundSizeIsExact(c: Config, n: nat)
    requires ValidSizes(c) && ValidAlignment(c) && n < c.modulus
    ensures RoundSize(c, n).None? <==> Ceil(c, n) > c.memSize
    ensures RoundSize(c, n).Some? ==>
      var size := RoundSize(c, n).value;
      && size % c.alignment == 0 && c.minSize <= size <= c.memSize && n <= size
      && (size == Ceil(c, n) || size == c.minSize > Ceil(c, n))
  {
    AlignSizeIsCeil(c, n);
    if Ceil(c, n) >= c.modulus {
      WordMultiple(c.alignment);
      Arith.CloseMultiples(c.alignment, c.memSize, c.modulus);
    }
  }
}
