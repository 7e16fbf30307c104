/** The kernel heap of malloc.c: a first-fit allocator over a list of blocks.  The list that `next` links is
    kept as a sequence of headers with their addresses; the bytes of the heap are an array of their own.
    size_t has 32 bits. */
module KernelHeap {
  import opened Common

  const HEAP_START: nat := 0x800000
  const HEAP_SIZE: nat := 0x400000
  const HEADER_SIZE: nat := 16
  const MIN_SPLIT: nat := 32
  const SIZE_MAX: nat := 0xFFFFFFFF
  const NULL: nat := 0

  datatype Block = Block(addr: nat, size: nat, free: bool)

  const INITIAL: Block := Block(HEAP_START, HEAP_SIZE - HEADER_SIZE, true)

  /** The first address behind a block. */
  function End(b: Block): nat {
    b.addr + HEADER_SIZE + b.size
  }

  /** What malloc hands out for a block. */
  function Data(b: Block): nat {
    b.addr + HEADER_SIZE
  }

  // ---------------------------------------------------------------- the invariant

  /** The blocks tile the addresses from `from` to `to`, header and data, in list order. */
  predicate Tiles(blocks: seq<Block>, from: nat, to: nat) {
    && |blocks| >= 1 && blocks[0].addr == from && End(blocks[|blocks| - 1]) == to
    && forall i :: 0 < i < |blocks| ==> blocks[i].addr == End(blocks[i - 1])
  }

  /** No two free blocks are adjacent among the first `n`. */
  predicate Merged(blocks: seq<Block>, n: nat) {
    forall i :: 0 < i < n && i < |blocks| ==> !(blocks[i - 1].free && blocks[i].free)
  }

  predicate Aligned(blocks: seq<Block>) {
    forall i :: 0 <= i < |blocks| ==> blocks[i].addr % 8 == 0 && blocks[i].size % 8 == 0
  }

  predicate Good(blocks: seq<Block>) {
    Tiles(blocks, HEAP_START, HEAP_START + HEAP_SIZE) && Merged(blocks, |blocks|) && Aligned(blocks)
  }

  /** The used blocks. */
  ghost function Live(blocks: seq<Block>): set<Block> {
    set b | b in blocks && !b.free
  }

  lemma {:induction false} LaterIsHigher(blocks: seq<Block>, from: nat, to: nat, i: nat, j: nat)
    requires Tiles(blocks, from, to) && i < j < |blocks|
    ensures End(blocks[i]) <= blocks[j].addr
    decreases j - i
  {
    if i < j - 1 { LaterIsHigher(blocks, from, to, i, j - 1); }
  }

  /** Blocks, headers included, do not overlap and lie within the heap. */
  lemma BlocksAreDisjoint(blocks: seq<Block>, i: nat, j: nat)
    requires Good(blocks) && i < |blocks| && j < |blocks| && i != j
    ensures End(blocks[i]) <= blocks[j].addr || End(blocks[j]) <= blocks[i].addr
    ensures HEAP_START <= blocks[i].addr && End(blocks[i]) <= HEAP_START + HEAP_SIZE
  {
    if i < j { LaterIsHigher(blocks, HEAP_START, HEAP_START + HEAP_SIZE, i, j); }
    else { LaterIsHigher(blocks, HEAP_START, HEAP_START + HEAP_SIZE, j, i); }
    WithinHeap(blocks, i);
  }

  lemma WithinHeap(blocks: seq<Block>, i: nat)
    requires Good(blocks) && i < |blocks|
    ensures HEAP_START <= blocks[i].addr && End(blocks[i]) <= HEAP_START + HEAP_SIZE
  {
    if i > 0 { LaterIsHigher(blocks, HEAP_START, HEAP_START + HEAP_SIZE, 0, i); }
    if i < |blocks| - 1 { LaterIsHigher(blocks, HEAP_START, HEAP_START + HEAP_SIZE, i, |blocks| - 1); }
  }

  /** With nothing in use the heap is the one initial block again. */
  lemma NothingLiveIsInitial(blocks: seq<Block>)
    requires Good(blocks) && Live(blocks) == {}
    ensures blocks == [INITIAL]
  {
    assert |blocks| > 1 ==> !(blocks[1 - 1].free && blocks[1].free);
    forall i | 0 <= i < |blocks| ensures blocks[i].free {
      assert blocks[i] !in Live(blocks);
    }
  }

  // ---------------------------------------------------------------- merge_free

  function MergeAt(blocks: seq<Block>, i: nat): seq<Block>
    requires i + 1 < |blocks|
  {
    blocks[..i] + [blocks[i].(size := blocks[i].size + HEADER_SIZE + blocks[i + 1].size)] + blocks[i + 2..]
  }

  lemma MergeKeeps(blocks: seq<Block>, i: nat, from: nat, to: nat)
    requires Tiles(blocks, from, to) && i + 1 < |blocks| && blocks[i].free && blocks[i + 1].free
    requires Aligned(blocks)
    ensures Tiles(MergeAt(blocks, i), from, to) && Aligned(MergeAt(blocks, i))
  {
    var m := MergeAt(blocks, i);
    MergedAre(blocks, i);
    assert End(m[i]) == End(blocks[i + 1]);
    forall k | 0 < k < |m| ensures m[k].addr == End(m[k - 1]) {
      if k > i { assert blocks[k + 1].addr == End(blocks[k]); }
    }
  }

  lemma MergedAre(blocks: seq<Block>, i: nat)
    requires i + 1 < |blocks|
    ensures |MergeAt(blocks, i)| == |blocks| - 1
    ensures forall k :: 0 <= k < i ==> MergeAt(blocks, i)[k] == blocks[k]
    ensures forall k :: i < k < |blocks| - 1 ==> MergeAt(blocks, i)[k] == blocks[k + 1]
    ensures MergeAt(blocks, i)[i] == blocks[i].(size := blocks[i].size + HEADER_SIZE + blocks[i + 1].size)
  {}

  /** Merging concerns free blocks only. */
  lemma MergeLive(blocks: seq<Block>, i: nat)
    requires i + 1 < |blocks| && blocks[i].free && blocks[i + 1].free
    ensures Live(MergeAt(blocks, i)) == Live(blocks)
  {
    var m := MergeAt(blocks, i);
    MergedAre(blocks, i);
    forall b | b in Live(blocks) ensures b in Live(m) {
      var k :| 0 <= k < |blocks| && blocks[k] == b;
      assert b == m[if k < i then k else k - 1];
    }
    forall b | b in Live(m) ensures b in Live(blocks) {
      var k :| 0 <= k < |m| && m[k] == b;
      assert b == blocks[if k < i then k else k + 1];
    }
  }

  // ---------------------------------------------------------------- malloc

  /** (size + 7) & ~7 on 32 bits. */
  function Rounded(size: nat): nat {
    (size + 7) % (SIZE_MAX + 1) / 8 * 8
  }

  /** Rounding covers the request exactly if it does not wrap. */
  lemma RoundedCoversExactlyWhen(size: nat)
    requires size <= SIZE_MAX
    ensures Rounded(size) >= size <==> size <= SIZE_MAX - 7
    ensures size > SIZE_MAX - 7 ==> Rounded(size) == 0
    ensures size <= SIZE_MAX - 7 ==> Rounded(size) < size + 8 && Rounded(size) % 8 == 0
  {
  }

  /** Use block `i` for `size` bytes, splitting off what is left if that is worth a block. */
  function UseAt(blocks: seq<Block>, i: nat, size: nat): seq<Block>
    requires i < |blocks| && size <= blocks[i].size
  {
    var b := blocks[i];
    if b.size >= size + HEADER_SIZE + MIN_SPLIT
    then blocks[..i]
         + [Block(b.addr, size, false), Block(b.addr + HEADER_SIZE + size, b.size - size - HEADER_SIZE, true)]
         + blocks[i + 1..]
    else blocks[i := b.(free := false)]
  }

  lemma UseKeeps(blocks: seq<Block>, i: nat, size: nat)
    requires Good(blocks) && i < |blocks| && blocks[i].free && size <= blocks[i].size && size % 8 == 0
    ensures Good(UseAt(blocks, i, size))
  {
    var m := UseAt(blocks, i, size);
    if blocks[i].size >= size + HEADER_SIZE + MIN_SPLIT {
      UsedAre(blocks, i, size);
      forall k | 0 <= k < |m| ensures m[k].addr % 8 == 0 && m[k].size % 8 == 0 { UseAligned(blocks, i, size, k); }
      forall k | 0 < k < |m| ensures m[k].addr == End(m[k - 1]) && !(m[k - 1].free && m[k].free) {
        UseNeighbours(blocks, i, size, k);
      }
    }
  }

  lemma UseAligned(blocks: seq<Block>, i: nat, size: nat, k: nat)
    requires Good(blocks) && i < |blocks| && blocks[i].size >= size + HEADER_SIZE + MIN_SPLIT && size % 8 == 0
    requires k < |UseAt(blocks, i, size)|
    ensures UseAt(blocks, i, size)[k].addr % 8 == 0 && UseAt(blocks, i, size)[k].size % 8 == 0
  {
    UsedAre(blocks, i, size);
    var was := blocks[if k > i then k - 1 else k];
    assert was.addr % 8 == 0 && was.size % 8 == 0;
  }

  lemma UseNeighbours(blocks: seq<Block>, i: nat, size: nat, k: nat)
    requires Good(blocks) && i < |blocks| && blocks[i].free && blocks[i].size >= size + HEADER_SIZE + MIN_SPLIT
    requires 0 < k < |UseAt(blocks, i, size)|
    ensures var m := UseAt(blocks, i, size);
      m[k].addr == End(m[k - 1]) && !(m[k - 1].free && m[k].free)
  {
    UsedAre(blocks, i, size);
    if k > i + 1 {
      assert blocks[k - 1].addr == End(blocks[k - 2]) && !(blocks[k - 2].free && blocks[k - 1].free);
    } else if k <= i {
      assert blocks[k].addr == End(blocks[k - 1]) && !(blocks[k - 1].free && blocks[k].free);
    }
  }

  lemma UsedAre(blocks: seq<Block>, i: nat, size: nat)
    requires i < |blocks| && blocks[i].size >= size + HEADER_SIZE + MIN_SPLIT
    ensures |UseAt(blocks, i, size)| == |blocks| + 1
    ensures forall k :: 0 <= k < i ==> UseAt(blocks, i, size)[k] == blocks[k]
    ensures UseAt(blocks, i, size)[i] == Block(blocks[i].addr, size, false)
    ensures UseAt(blocks, i, size)[i + 1]
         == Block(blocks[i].addr + HEADER_SIZE + size, blocks[i].size - size - HEADER_SIZE, true)
    ensures forall k :: i + 1 < k < |blocks| + 1 ==> UseAt(blocks, i, size)[k] == blocks[k - 1]
  {}

  /** The used blocks are those from before and the new one. */
  lemma UseLive(blocks: seq<Block>, i: nat, size: nat)
    requires i < |blocks| && blocks[i].free && size <= blocks[i].size
    ensures Live(UseAt(blocks, i, size)) == Live(blocks) + {UseAt(blocks, i, size)[i]}
  {
    var m := UseAt(blocks, i, size);
    var d := |m| - |blocks|;
    if d == 1 { UsedAre(blocks, i, size); }
    forall b | b in Live(blocks) ensures b in Live(m) {
      var k :| 0 <= k < |blocks| && blocks[k] == b;
      assert b == m[if k < i then k else k + d];
    }
    forall b | b in Live(m) ensures b in Live(blocks) + {m[i]} {
      var k :| 0 <= k < |m| && m[k] == b;
      if k != i { assert b == blocks[if k < i then k else k - d]; }
    }
  }

  // ---------------------------------------------------------------- free

  lemma FreeKeepsTiles(blocks: seq<Block>, i: nat)
    requires Good(blocks) && i < |blocks|
    ensures Tiles(blocks[i := blocks[i].(free := true)], HEAP_START, HEAP_START + HEAP_SIZE)
    ensures Aligned(blocks[i := blocks[i].(free := true)])
  {}

  lemma FreeLive(blocks: seq<Block>, i: nat)
    requires Good(blocks) && i < |blocks| && !blocks[i].free
    ensures Live(blocks[i := blocks[i].(free := true)]) == Live(blocks) - {blocks[i]}
  {
    var m := blocks[i := blocks[i].(free := true)];
    forall b | b in Live(blocks) - {blocks[i]} ensures b in Live(m) {
      var k :| 0 <= k < |blocks| && blocks[k] == b;
      assert b == m[k];
    }
    forall b | b in Live(m) ensures b in Live(blocks) - {blocks[i]} {
      var k :| 0 <= k < |m| && m[k] == b;
      BlocksAreDisjoint(blocks, k, i);
    }
  }

  /** A pointer handed out belongs to one block only. */
  lemma DataIsUnique(blocks: seq<Block>, i: nat, j: nat)
    requires Good(blocks) && i < |blocks| && j < |blocks| && Data(blocks[i]) == Data(blocks[j])
    ensures i == j
  {
    if i != j { BlocksAreDisjoint(blocks, i, j); }
  }

  /** Block `i` is the first free one that is large enough. */
  predicate FirstFit(blocks: seq<Block>, size: nat, i: nat) {
    && i < |blocks| && blocks[i].free && size <= blocks[i].size
    && forall j :: 0 <= j < i ==> !(blocks[j].free && size <= blocks[j].size)
  }

  predicate NoFit(blocks: seq<Block>, size: nat) {
    forall j :: 0 <= j < |blocks| ==> !(blocks[j].free && size <= blocks[j].size)
  }

  /** malloc has taken block `i`. */
  predicate TookAt(blocks: seq<Block>, blocks': seq<Block>, size: nat, i: nat) {
    FirstFit(blocks, size, i) && blocks' == UseAt(blocks, i, size)
  }

  /** `size` bytes of the block `was` are now `b`: no more than that where a header and the least worth splitting off
      are left, else all of it. */
  predicate CutTo(was: Block, b: Block, size: nat) {
    && b.addr == was.addr && !b.free
    && b.size == if was.size >= size + HEADER_SIZE + MIN_SPLIT then size else was.size
  }

  /** A request that wraps is answered with a block of no bytes. */
  lemma WrappedRequestGetsNothing()
    ensures Good([INITIAL]) && Rounded(SIZE_MAX) == 0 && FirstFit([INITIAL], 0, 0)
    ensures UseAt([INITIAL], 0, 0)[0] == Block(HEAP_START, 0, false)
  {}

  /** The bytes realloc copies, all of the old block, stay within the new one; or it copies nothing. */
  ghost predicate CopyFits(blocks: seq<Block>, b: Block, size: nat) {
    || b.size >= size
    || NoFit(blocks, Rounded(size))
    || exists i: nat :: FirstFit(blocks, Rounded(size), i) && UseAt(blocks, i, Rounded(size))[i].size >= b.size
  }

  /** What a caller of realloc can check: the size does not wrap; or there is nothing to copy; or nothing is
      free; or the first free block is too small to be split and as large as the old one. */
  lemma CopyFitsExactlyWhen(blocks: seq<Block>, b: Block, size: nat)
    requires Good(blocks) && b in Live(blocks) && 0 < size <= SIZE_MAX
    ensures CopyFits(blocks, b, size) <==>
      || size <= SIZE_MAX - 7 || b.size == 0
      || NoFit(blocks, 0)
      || exists i: nat :: FirstFit(blocks, 0, i) && b.size <= blocks[i].size < HEADER_SIZE + MIN_SPLIT
  {
    RoundedCoversExactlyWhen(size);
    LiveWithin(blocks);
    if !NoFit(blocks, Rounded(size)) {
      var i := SomeFirstFit(blocks, Rounded(size), |blocks|);
      assert UseAt(blocks, i, Rounded(size))[i].size >= Rounded(size);
    }
  }

  lemma {:induction false} SomeFirstFit(blocks: seq<Block>, size: nat, n: nat) returns (i: nat)
    requires n <= |blocks| && exists j :: 0 <= j < n && blocks[j].free && size <= blocks[j].size
    ensures i < n && FirstFit(blocks, size, i)
  {
    if exists j :: 0 <= j < n - 1 && blocks[j].free && size <= blocks[j].size {
      i := SomeFirstFit(blocks, size, n - 1);
    } else {
      i := n - 1;
    }
  }

  /** The block found is the one CopyFits speaks of. */
  lemma TookEnough(blocks: seq<Block>, blocks': seq<Block>, b: Block, size: nat, i: nat)
    requires CopyFits(blocks, b, size) && b.size < size && TookAt(blocks, blocks', Rounded(size), i)
    ensures blocks'[i].size >= b.size
  {
    var j: nat :| FirstFit(blocks, Rounded(size), j) && UseAt(blocks, j, Rounded(size))[j].size >= b.size;
  }

  /** A realloc that overruns its new block: eight bytes are copied into a block of none. */
  lemma WrappedReallocOverruns()
    ensures var blocks, b := UseAt([INITIAL], 0, 8), Block(HEAP_START, 8, false);
      && Good(blocks) && b in Live(blocks) && !CopyFits(blocks, b, SIZE_MAX)
      && FirstFit(blocks, Rounded(SIZE_MAX), 1) && UseAt(blocks, 1, Rounded(SIZE_MAX))[1].size == 0
  {
    UseKeeps([INITIAL], 0, 8);
    var blocks, b := UseAt([INITIAL], 0, 8), Block(HEAP_START, 8, false);
    assert blocks[0] == b && blocks[1].free;
    assert b in Live(blocks);
    CopyFitsExactlyWhen(blocks, b, SIZE_MAX);
  }

  /** The data bytes of a block. */
  function Slice(m: seq<Byte>, b: Block): seq<Byte> {
    if HEAP_START <= b.addr && End(b) <= HEAP_START + |m| then m[Data(b) - HEAP_START..End(b) - HEAP_START] else []
  }

  /** `m'` is `m` with `n` bytes copied from `src` to `dest`. */
  predicate Copied(m: seq<Byte>, m': seq<Byte>, dest: nat, src: nat, n: nat) {
    && |m| == |m'| == HEAP_SIZE && HEAP_START <= dest && HEAP_START <= src
    && dest + n <= HEAP_START + HEAP_SIZE && src + n <= HEAP_START + HEAP_SIZE
    && (forall k :: dest - HEAP_START <= k < dest - HEAP_START + n ==> m'[k] == m[k - dest + src])
    && (forall k :: 0 <= k < HEAP_SIZE && !(dest - HEAP_START <= k < dest - HEAP_START + n) ==> m'[k] == m[k])
  }

  lemma CopiedSlice(m: seq<Byte>, m': seq<Byte>, nb: Block, b: Block)
    requires Copied(m, m', Data(nb), Data(b), b.size) && nb.size >= b.size
    requires HEAP_START <= nb.addr && End(nb) <= HEAP_START + HEAP_SIZE && HEAP_START <= b.addr
    requires End(b) <= HEAP_START + HEAP_SIZE
    ensures |Slice(m', nb)| >= b.size && Slice(m', nb)[..b.size] == Slice(m, b)
  {
    forall k | 0 <= k < b.size ensures Slice(m', nb)[k] == Slice(m, b)[k] {
      assert Slice(m', nb)[k] == m'[Data(nb) - HEAP_START + k];
    }
  }

  /** Copying into the new block leaves the bytes of all others alone. */
  lemma ApartSlices(m: seq<Byte>, m': seq<Byte>, nb: Block, b: Block, others: set<Block>)
    requires Copied(m, m', Data(nb), Data(b), b.size) && nb.size >= b.size
    requires forall x :: x in others ==> End(x) <= nb.addr || End(nb) <= x.addr
    ensures forall x :: x in others ==> Slice(m', x) == Slice(m, x)
  {
    forall x | x in others ensures Slice(m', x) == Slice(m, x) {
      if HEAP_START <= x.addr && End(x) <= HEAP_START + HEAP_SIZE {
        forall j | Data(x) - HEAP_START <= j < End(x) - HEAP_START ensures m'[j] == m[j] {}
      }
    }
  }

  class Heap {
    var blocks: seq<Block>
    /** the bytes from HEAP_START on; those of headers are not used */
    const mem: array<Byte>

    ghost predicate Valid()
      reads this
    {
      Good(blocks) && mem.Length == HEAP_SIZE
    }

    /** `ptr` was handed out for `b` and not freed since. */
    ghost predicate LivePtr(ptr: nat, b: Block)
      reads this
    {
      b in Live(blocks) && Data(b) == ptr
    }

    /** heap_init */
    constructor ()
      ensures Valid() && blocks == [INITIAL] && fresh(mem)
    {
      mem := new Byte[HEAP_SIZE](_ => 0);
      blocks := [INITIAL];
    }

    /** merge_free: afterwards no two free blocks are adjacent; used blocks are untouched. */
    method MergeFree()
      requires Tiles(blocks, HEAP_START, HEAP_START + HEAP_SIZE) && Aligned(blocks)
      modifies this
      ensures Good(blocks) && Live(blocks) == old(Live(blocks))
    {
      var cur := 0;
      while cur + 1 < |blocks|
        invariant Tiles(blocks, HEAP_START, HEAP_START + HEAP_SIZE) && Aligned(blocks)
        invariant 0 <= cur < |blocks| && Merged(blocks, cur + 1) && Live(blocks) == old(Live(blocks))
        decreases |blocks| - cur
      {
        if blocks[cur].free && blocks[cur + 1].free {
          MergeKeeps(blocks, cur, HEAP_START, HEAP_START + HEAP_SIZE);
          MergeLive(blocks, cur);
          MergedAre(blocks, cur);
          blocks := MergeAt(blocks, cur);
        } else {
          cur := cur + 1;
        }
      }
    }

    /** malloc: the first block that fits, cut to the rounded size if the rest is worth a block, or NULL exactly if
        there is none; the region is aligned, as large as asked for unless the rounding wraps, and disjoint from
        everything in use. */
    method Malloc(size: nat) returns (ptr: nat, ghost b: Block)
      requires Valid() && size <= SIZE_MAX
      modifies this
      ensures Valid()
      ensures ptr == NULL <==> size == 0 || NoFit(old(blocks), Rounded(size))
      ensures ptr == NULL ==> blocks == old(blocks)
      ensures ptr != NULL ==>
        && LivePtr(ptr, b) && Live(blocks) == old(Live(blocks)) + {b} && ptr % 8 == 0
        && (b.size >= size <==> size <= SIZE_MAX - 7)
        && (exists i: nat :: TookAt(old(blocks), blocks, Rounded(size), i) && b == blocks[i]
              && CutTo(old(blocks)[i], b, Rounded(size)))
      ensures ptr != NULL ==> forall x :: x in old(Live(blocks)) ==> End(x) <= b.addr || End(b) <= x.addr
    {
      ptr, b := NULL, INITIAL;
      if size == 0 {
        return;
      }
      RoundedCoversExactlyWhen(size);
      var rounded := Rounded(size);
      var cur := FindFit(rounded);
      if cur < |blocks| {
        TakeIsRight(blocks, cur, rounded);
        blocks := UseAt(blocks, cur, rounded);
        assert TookAt(old(blocks), blocks, rounded, cur);
        WithinHeap(blocks, cur);
        b := blocks[cur];
        ptr := Data(blocks[cur]);
      }
    }

    /** The while loop of malloc. */
    method FindFit(size: nat) returns (cur: nat)
      ensures cur < |blocks| ==> FirstFit(blocks, size, cur)
      ensures cur >= |blocks| ==> NoFit(blocks, size)
    {
      cur := 0;
      while cur < |blocks|
        invariant cur <= |blocks|
        invariant forall j :: 0 <= j < cur ==> !(blocks[j].free && size <= blocks[j].size)
      {
        if blocks[cur].free && blocks[cur].size >= size {
          return;
        }
        cur := cur + 1;
      }
    }

    /** free of NULL or of a live pointer: exactly that region is given back. */
    method Free(ptr: nat, ghost b: Block)
      requires Valid() && (ptr == NULL || LivePtr(ptr, b))
      modifies this
      ensures Valid()
      ensures Live(blocks) == if ptr == NULL then old(Live(blocks)) else old(Live(blocks)) - {b}
    {
      if ptr == NULL {
        return;
      }
      var i :| 0 <= i < |blocks| && Data(blocks[i]) == ptr;
      ghost var j :| 0 <= j < |blocks| && blocks[j] == b;
      DataIsUnique(blocks, i, j);
      FreeKeepsTiles(blocks, i);
      FreeLive(blocks, i);
      blocks := blocks[i := blocks[i].(free := true)];
      MergeFree();
    }

    /** Freeing everything in use, in any order, restores the heap as heap_init left it. */
    method FreeAll(order: seq<Block>)
      requires Valid() && (forall i, j :: 0 <= i < j < |order| ==> order[i] != order[j])
      requires forall b :: b in order <==> b in Live(blocks)
      modifies this
      ensures Valid() && blocks == [INITIAL]
    {
      for n := 0 to |order|
        invariant Valid()
        invariant forall b :: b in Live(blocks) <==> b in order[n..]
      {
        assert order[n] in order[n..] && order[n..][1..] == order[n + 1..];
        LiveWithin(blocks);
        Free(Data(order[n]), order[n]);
        assert forall b :: b in order[n + 1..] ==> b in order[n..];
      }
      NothingLiveIsInitial(blocks);
    }

    /** memcpy between regions that do not overlap */
    method CopyBytes(dest: nat, src: nat, n: nat)
      requires mem.Length == HEAP_SIZE && HEAP_START <= dest && HEAP_START <= src
      requires dest + n <= HEAP_START + HEAP_SIZE && src + n <= HEAP_START + HEAP_SIZE
      requires dest + n <= src || src + n <= dest
      modifies mem
      ensures Copied(old(mem[..]), mem[..], dest, src, n)
    {
      for i := 0 to n
        invariant forall k :: dest - HEAP_START <= k < dest - HEAP_START + i ==> mem[k] == old(mem[k - dest + src])
        invariant forall k :: 0 <= k < HEAP_SIZE && !(dest - HEAP_START <= k < dest - HEAP_START + i) ==>
          mem[k] == old(mem[k])
      {
        mem[dest - HEAP_START + i] := mem[src - HEAP_START + i];
      }
    }

    /** The rest of realloc: a larger region, the contents copied, the old region given back. */
    method Move(ptr: nat, size: nat, oldSize: nat, ghost b: Block) returns (newptr: nat, ghost nb: Block)
      requires Valid() && size <= SIZE_MAX && LivePtr(ptr, b) && oldSize == b.size < size && CopyFits(blocks, b, size)
      modifies this, mem
      ensures Valid()
      ensures newptr == NULL ==> blocks == old(blocks) && mem[..] == old(mem[..])
      ensures newptr != NULL ==>
        && LivePtr(newptr, nb) && (nb.size >= size <==> size <= SIZE_MAX - 7) && nb.size >= b.size
        && Live(blocks) == old(Live(blocks)) - {b} + {nb}
        && Copied(old(mem[..]), mem[..], newptr, ptr, b.size)
        && forall x :: x in old(Live(blocks)) ==> End(x) <= nb.addr || End(nb) <= x.addr
    {
      newptr, nb := GetLarger(size, b);
      if newptr == NULL {
        return;
      }
      CopyBytes(newptr, ptr, oldSize);
      Free(ptr, b);
    }

    /** The malloc in realloc: the block it finds holds what is to be copied. */
    method GetLarger(size: nat, ghost b: Block) returns (newptr: nat, ghost nb: Block)
      requires Valid() && size <= SIZE_MAX && b in Live(blocks) && b.size < size && CopyFits(blocks, b, size)
      modifies this
      ensures Valid() && (newptr == NULL ==> blocks == old(blocks))
      ensures newptr != NULL ==>
        && LivePtr(newptr, nb) && (nb.size >= size <==> size <= SIZE_MAX - 7) && nb.size >= b.size
        && Live(blocks) == old(Live(blocks)) + {nb} && nb !in old(Live(blocks))
        && HEAP_START <= nb.addr && End(nb) <= HEAP_START + HEAP_SIZE
        && HEAP_START <= b.addr && End(b) <= HEAP_START + HEAP_SIZE
        && forall x :: x in old(Live(blocks)) ==> End(x) <= nb.addr || End(nb) <= x.addr
    {
      newptr, nb := Malloc(size);
      if newptr != NULL {
        ghost var i: nat :| TookAt(old(blocks), blocks, Rounded(size), i) && nb == blocks[i];
        TookEnough(old(blocks), blocks, b, size, i);
        LiveWithin(blocks);
      }
    }

    /** realloc of NULL or a live pointer, where the copy stays within the new block: a region with the old
        contents, of the size asked for unless the rounding wraps; the old region is given back, or kept if
        there is no memory. */
    method Realloc(ptr: nat, size: nat, ghost b: Block) returns (newptr: nat, ghost nb: Block)
      requires Valid() && size <= SIZE_MAX && (ptr == NULL || LivePtr(ptr, b))
      requires ptr != NULL && size > 0 ==> CopyFits(blocks, b, size)
      modifies this, mem
      ensures Valid()
      ensures ptr != NULL && size == 0 ==> newptr == NULL && Live(blocks) == old(Live(blocks)) - {b}
      ensures newptr == NULL && (size > 0 || ptr == NULL) ==> blocks == old(blocks) && mem[..] == old(mem[..])
      ensures newptr != NULL ==> LivePtr(newptr, nb) && (nb.size >= size <==> size <= SIZE_MAX - 7)
      ensures newptr != NULL ==>
        Live(blocks) == (if ptr == NULL then old(Live(blocks)) else old(Live(blocks)) - {b}) + {nb}
      ensures newptr != NULL && ptr != NULL ==>
        |Slice(mem[..], nb)| >= b.size && Slice(mem[..], nb)[..b.size] == Slice(old(mem[..]), b)
      ensures forall x :: x in old(Live(blocks)) && (ptr == NULL || x != b) ==>
        Slice(mem[..], x) == Slice(old(mem[..]), x)
    {
      LiveWithin(blocks);
      if ptr == NULL {
        newptr, nb := Malloc(size);
        return;
      }
      newptr, nb := NULL, INITIAL;
      if size == 0 {
        Free(ptr, b);
        return;
      }
      var i :| 0 <= i < |blocks| && Data(blocks[i]) == ptr;
      ghost var j :| 0 <= j < |blocks| && blocks[j] == b;
      DataIsUnique(blocks, i, j);
      var oldSize := blocks[i].size;
      if oldSize >= size {
        newptr, nb := ptr, b;
        return;
      }
      newptr, nb := Move(ptr, size, oldSize, b);
      if newptr != NULL {
        LiveWithin(blocks);
        CopiedSlice(old(mem[..]), mem[..], nb, b);
        ApartSlices(old(mem[..]), mem[..], nb, b, old(Live(blocks)));
      }
    }
  }

  lemma LiveWithin(blocks: seq<Block>)
    requires Good(blocks)
    ensures forall x :: x in Live(blocks) ==> HEAP_START <= x.addr && End(x) <= HEAP_START + HEAP_SIZE
  {
    forall x | x in Live(blocks) ensures HEAP_START <= x.addr && End(x) <= HEAP_START + HEAP_SIZE {
      var k :| 0 <= k < |blocks| && blocks[k] == x;
      WithinHeap(blocks, k);
    }
  }

  lemma TakeIsRight(blocks: seq<Block>, i: nat, size: nat)
    requires Good(blocks) && FirstFit(blocks, size, i) && size % 8 == 0
    ensures var m := UseAt(blocks, i, size);
      && Good(m) && Live(m) == Live(blocks) + {m[i]} && m[i] !in Live(blocks) && !m[i].free
      && m[i].addr == blocks[i].addr && m[i].size >= size && Data(m[i]) % 8 == 0 && Data(m[i]) > NULL
      && forall x :: x in Live(blocks) ==> End(x) <= m[i].addr || End(m[i]) <= x.addr
  {
    UseKeeps(blocks, i, size);
    UseLive(blocks, i, size);
    FreeIsNotLive(blocks, i);
    NewIsApart(UseAt(blocks, i, size), Live(blocks), i);
  }

  lemma FreeIsNotLive(blocks: seq<Block>, i: nat)
    requires Good(blocks) && i < |blocks| && blocks[i].free
    ensures forall x :: x in Live(blocks) ==> x.addr != blocks[i].addr
  {
    forall x | x in Live(blocks) ensures x.addr != blocks[i].addr {
      var k :| 0 <= k < |blocks| && blocks[k] == x;
      BlocksAreDisjoint(blocks, k, i);
    }
  }

  /** The block just taken does not overlap any other live one. */
  lemma NewIsApart(blocks: seq<Block>, before: set<Block>, i: nat)
    requires Good(blocks) && i < |blocks| && !blocks[i].free && before <= Live(blocks) && blocks[i] !in before
    ensures forall x :: x in before ==> End(x) <= blocks[i].addr || End(blocks[i]) <= x.addr
  {
    forall x | x in before ensures End(x) <= blocks[i].addr || End(blocks[i]) <= x.addr {
      var k :| 0 <= k < |blocks| && blocks[k] == x;
      BlocksAreDisjoint(blocks, k, i);
    }
  }
}
