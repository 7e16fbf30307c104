/** mem_malloc with LWIP_ALLOW_MEM_FREE_FROM_OTHER_CONTEXT (lwip-2.1.3/src/core/mem.c:861-969): mem_free and
    mem_trim may run in the two windows where mem_malloc drops its protection.  One action is one protected
    section.  mem_mutex admits a single mem_malloc at a time. */
module MemInterrupt {
  import opened MemModel

  datatype Pc =
    | Idle
    | ScanWindow(ptr: nat)              // unprotected inside the scan loop
    | AdjustWindow(mem: nat, cur: nat)  // unprotected inside the lfree loop, holding block `mem`
    | Returned(mem: nat)
    | Failed

  /** `flag` is mem_free_count.  The last four fields only record history: how often the current call
      restarted, how many blocks were in use when it began, how many mem_trim sections ran since, and how many
      sections of its own it has run. */
  datatype State = State(heap: Heap, flag: bool, pc: Pc, size: nat,
                         restarts: nat, usedAtCall: nat, trims: nat, sections: nat)

  datatype Action = Call(size: nat) | Malloc | Free(mem: nat) | Trim(mem: nat, newsize: nat)

  ghost function Starts(c: Config, h: Heap): set<nat>
    requires InBounds(c, h.ram)
  {
    Chain(c, h.ram, 0)
  }

  function Owner(pc: Pc): int {
    if pc.AdjustWindow? then pc.mem else NOBODY
  }

  // ---------------------------------------------------------------- the sections of mem_malloc

  /** The loop test of the scan at `ptr`: open the window, or give up. */
  function ScanFrom(c: Config, s: State, ptr: nat): State {
    if ptr < c.memSize - s.size then s.(pc := ScanWindow(ptr), flag := false)
    else s.(pc := Failed)
  }

  /** The loop test of the lfree search at `cur`: open the window, or store lfree and return. */
  function SkipFrom(c: Config, s: State, mem: nat, cur: nat): State
    requires cur < |s.heap.ram|
  {
    if s.heap.ram[cur].used && cur != c.memSize then s.(pc := AdjustWindow(mem, cur), flag := false)
    else s.(heap := s.heap.(lfree := cur), pc := Returned(mem))
  }

  /** The label mem_malloc_adjust_lfree. */
  function AdjustFrom(c: Config, s: State, mem: nat): State
    requires s.heap.lfree < |s.heap.ram|
  {
    if mem == s.heap.lfree then SkipFrom(c, s, mem, s.heap.lfree) else s.(pc := Returned(mem))
  }

  /** Every header mem_malloc reads when it resumes is inside the array. */
  predicate PointersOk(c: Config, s: State) {
    && InBounds(c, s.heap.ram) && s.heap.lfree < |s.heap.ram|
    && (s.pc.ScanWindow? && !s.flag ==>
          s.pc.ptr < |s.heap.ram| && s.heap.ram[s.pc.ptr].next < |s.heap.ram|)
    && (s.pc.AdjustWindow? && !s.flag ==>
          s.pc.cur < |s.heap.ram| && s.heap.ram[s.pc.cur].next < |s.heap.ram|)
  }

  /** mem_malloc takes the protection again and runs to its next window or to its end. */
  function MallocNext(c: Config, s0: State): State
    requires PointersOk(c, s0) && (s0.pc.ScanWindow? || s0.pc.AdjustWindow?)
  {
    var s := s0.(sections := s0.sections + 1);
    match s.pc
    case ScanWindow(ptr) =>
      if s.flag then ScanFrom(c, s.(restarts := s.restarts + 1), s.heap.lfree)
      else if Fits(c, s.heap.ram, ptr, s.size) then
        AdjustFrom(c, s.(heap := Heap(TakeRam(c, s.heap.ram, ptr, s.size), s.heap.lfree)), ptr)
      else ScanFrom(c, s, s.heap.ram[ptr].next)
    case AdjustWindow(mem, cur) =>
      if s.flag then AdjustFrom(c, s.(restarts := s.restarts + 1), mem)
      else SkipFrom(c, s, mem, s.heap.ram[cur].next)
    case _ => s
  }

  ghost function InUse(c: Config, h: Heap, owner: int): set<nat>
    requires InBounds(c, h.ram)
  {
    set p | p in Starts(c, h) && p < c.memSize && h.ram[p].used && p != owner
  }

  /** The pointers other contexts may pass in: blocks in use that mem_malloc has handed out. */
  ghost predicate Held(c: Config, s: State, mem: nat) {
    InBounds(c, s.heap.ram) && mem in InUse(c, s.heap, Owner(s.pc))
  }

  /** A call begins: its history is empty. */
  ghost function Begun(c: Config, s: State, size: nat): State
    requires InBounds(c, s.heap.ram)
  {
    s.(size := size, restarts := 0, trims := 0, sections := 0, usedAtCall := |InUse(c, s.heap, NOBODY)|)
  }

  ghost predicate Step(c: Config, s: State, a: Action, s': State) {
    match a
    case Call(size) =>
      && (s.pc.Idle? || s.pc.Returned? || s.pc.Failed?)
      && c.minSize <= size <= c.memSize
      && InBounds(c, s.heap.ram)
      && s' == ScanFrom(c, Begun(c, s, size), s.heap.lfree)
    case Malloc =>
      && (s.pc.ScanWindow? || s.pc.AdjustWindow?)
      && PointersOk(c, s)
      && s' == MallocNext(c, s)
    case Free(mem) =>
      && Held(c, s, mem)
      && LinkValid(c, s.heap.ram, mem) && s.heap.ram[s.heap.ram[mem].next].next < |s.heap.ram|
      && s.heap.ram[mem].prev <= mem < s.heap.ram[mem].next
      && s' == s.(heap := FreeBlock(c, s.heap, mem), flag := true)
    case Trim(mem, newsize) =>
      && Held(c, s, mem)
      && s.heap.ram[mem].next < |s.heap.ram| && s.heap.ram[s.heap.ram[mem].next].next < |s.heap.ram|
      && c.minSize <= newsize < DataSize(c, s.heap.ram, mem)
      && s' == s.(heap := TrimBlock(c, s.heap, mem, newsize), flag := true, trims := s.trims + 1)
  }

  // ---------------------------------------------------------------- the invariant

  /** The block `mem` holds what was asked for, and not a header and the minimum of data more. */
  predicate RightSize(c: Config, s: State, mem: nat)
    requires mem < |s.heap.ram|
  {
    s.size <= DataSize(c, s.heap.ram, mem) < s.size + c.sizeofMem + c.minSize
  }

  /** Where mem_malloc stands.  While no other context has run (`!flag`) the pointer it kept across the
      window is a block of the current chain and nothing it is looking for lies below it. */
  ghost predicate InvPc(c: Config, s: State)
    requires InBounds(c, s.heap.ram)
  {
    match s.pc
    case ScanWindow(ptr) =>
      && c.minSize <= s.size <= c.memSize
      && (!s.flag ==>
            && ptr in Starts(c, s.heap) && ptr < c.memSize
            && (forall q :: q in Starts(c, s.heap) && q < |s.heap.ram| && Fits(c, s.heap.ram, q, s.size) ==> ptr <= q))
    case AdjustWindow(mem, cur) =>
      && mem in Starts(c, s.heap) && mem < c.memSize && s.heap.ram[mem].used
      && RightSize(c, s, mem)
      && (!s.flag ==>
            && cur in Starts(c, s.heap) && cur < c.memSize && s.heap.ram[cur].used
            && (forall p :: p in Starts(c, s.heap) && p < |s.heap.ram| && FreeAt(s.heap.ram, p) ==> cur <= p))
    case _ => true
  }

  ghost predicate Inv(c: Config, s: State) {
    && ValidSizes(c)
    && InBounds(c, s.heap.ram)
    && Good(c, s.heap, Starts(c, s.heap), Owner(s.pc))
    && InvPc(c, s)
  }

  /** Re-establishing Good about the chain of the new array. */
  lemma GoodOfChain(c: Config, h: Heap, starts: set<nat>, owner: int)
    requires Good(c, h, starts, owner)
    ensures InBounds(c, h.ram) && starts == Starts(c, h)
  {
    StartsAreTheChain(c, h.ram, starts);
  }

  lemma PointersAreOk(c: Config, s: State)
    requires Inv(c, s)
    ensures PointersOk(c, s)
  {
    var starts := Starts(c, s.heap);
    if s.pc.ScanWindow? && !s.flag { assert Block(c, s.heap.ram, starts, s.pc.ptr); }
    if s.pc.AdjustWindow? && !s.flag { assert Block(c, s.heap.ram, starts, s.pc.cur); }
  }

  lemma ScanFromKeeps(c: Config, s: State, ptr: nat)
    requires ValidSizes(c) && InBounds(c, s.heap.ram) && Good(c, s.heap, Starts(c, s.heap), NOBODY)
    requires c.minSize <= s.size <= c.memSize && ptr in Starts(c, s.heap)
    requires forall q :: q in Starts(c, s.heap) && q < |s.heap.ram| && Fits(c, s.heap.ram, q, s.size) ==> ptr <= q
    ensures Inv(c, ScanFrom(c, s, ptr))
    ensures ScanFrom(c, s, ptr).pc.Failed? ==>
      forall q :: q in Starts(c, s.heap) && q < |s.heap.ram| ==> !Fits(c, s.heap.ram, q, s.size)
  {
    forall q | ptr >= c.memSize - s.size && q in Starts(c, s.heap) && q < |s.heap.ram|
      ensures !Fits(c, s.heap.ram, q, s.size)
    {
      if q < c.memSize { assert Block(c, s.heap.ram, Starts(c, s.heap), q); }
    }
  }

  lemma LfreeBelowEveryFit(c: Config, s: State)
    requires ValidSizes(c) && InBounds(c, s.heap.ram) && Good(c, s.heap, Starts(c, s.heap), NOBODY)
    ensures forall q :: q in Starts(c, s.heap) && q < |s.heap.ram| && Fits(c, s.heap.ram, q, s.size) ==>
      s.heap.lfree <= q
  {
    assert forall q: nat :: q < |s.heap.ram| && Fits(c, s.heap.ram, q, s.size) ==> FreeAt(s.heap.ram, q);
  }

  /** What mem_malloc holds between taking its block and returning it. */
  ghost predicate Taken(c: Config, s: State, mem: nat) {
    && ValidSizes(c) && InBounds(c, s.heap.ram) && Good(c, s.heap, Starts(c, s.heap), mem)
    && mem in Starts(c, s.heap) && mem < c.memSize && s.heap.ram[mem].used
    && RightSize(c, s, mem)
  }

  lemma SkipFromKeeps(c: Config, s: State, mem: nat, cur: nat)
    requires Taken(c, s, mem) && cur in Starts(c, s.heap) && cur < |s.heap.ram|
    requires forall p :: p in Starts(c, s.heap) && p < |s.heap.ram| && FreeAt(s.heap.ram, p) ==> cur <= p
    ensures Inv(c, SkipFrom(c, s, mem, cur))
    ensures Taken(c, SkipFrom(c, s, mem, cur), mem)
  {
  }

  lemma AdjustFromKeeps(c: Config, s: State, mem: nat)
    requires Taken(c, s, mem)
    ensures s.heap.lfree < |s.heap.ram|
    ensures Inv(c, AdjustFrom(c, s, mem))
    ensures Taken(c, AdjustFrom(c, s, mem), mem)
  {
    if mem == s.heap.lfree { SkipFromKeeps(c, s, mem, s.heap.lfree); }
  }

  lemma TakenAfterTake(c: Config, s: State, ptr: nat)
    requires Inv(c, s) && s.pc == ScanWindow(ptr) && !s.flag && Fits(c, s.heap.ram, ptr, s.size)
    ensures s.heap.ram[ptr].next < |s.heap.ram|
    ensures var h2 := Heap(TakeRam(c, s.heap.ram, ptr, s.size), s.heap.lfree);
      && Taken(c, s.(heap := h2), ptr)
      && Live(c, h2.ram, Starts(c, h2)) == Live(c, s.heap.ram, Starts(c, s.heap))[ptr := h2.ram[ptr].next]
  {
    var starts := Starts(c, s.heap);
    TakeKeeps(c, s.heap.ram, starts, ptr, s.size);
    TakeHint(c, s.heap, starts, ptr, s.size);
    var h2 := Heap(TakeRam(c, s.heap.ram, ptr, s.size), s.heap.lfree);
    GoodOfChain(c, h2, TakeStarts(c, s.heap.ram, starts, ptr, s.size), ptr);
  }

  /** What a resumed mem_malloc leaves behind: the invariant, a proper block if it returns one, and
      nothing that fits if it gives up. */
  ghost predicate ResumedWell(c: Config, s': State) {
    && Inv(c, s')
    && (s'.pc.Returned? ==> Taken(c, s', s'.pc.mem))
    && (s'.pc.Failed? ==>
          forall q :: q in Starts(c, s'.heap) && q < |s'.heap.ram| ==> !Fits(c, s'.heap.ram, q, s'.size))
  }

  lemma ScanTakes(c: Config, s: State)
    requires Inv(c, s) && s.pc.ScanWindow? && PointersOk(c, s) && !s.flag && Fits(c, s.heap.ram, s.pc.ptr, s.size)
    ensures ResumedWell(c, MallocNext(c, s))
  {
    var ptr := s.pc.ptr;
    TakenAfterTake(c, s, ptr);
    var h2 := Heap(TakeRam(c, s.heap.ram, ptr, s.size), s.heap.lfree);
    AdjustFromKeeps(c, s.(sections := s.sections + 1, heap := h2), ptr);
  }

  lemma ScanKeeps(c: Config, s: State)
    requires Inv(c, s) && s.pc.ScanWindow? && PointersOk(c, s)
    ensures ResumedWell(c, MallocNext(c, s))
  {
    var ptr := s.pc.ptr;
    if s.flag {
      LfreeBelowEveryFit(c, s);
      ScanFromKeeps(c, s.(restarts := s.restarts + 1), s.heap.lfree);
    } else if Fits(c, s.heap.ram, ptr, s.size) {
      ScanTakes(c, s);
    } else {
      assert Block(c, s.heap.ram, Starts(c, s.heap), ptr);
      ScanFromKeeps(c, s, s.heap.ram[ptr].next);
    }
  }

  lemma AdjustKeeps(c: Config, s: State)
    requires Inv(c, s) && s.pc.AdjustWindow? && PointersOk(c, s)
    ensures ResumedWell(c, MallocNext(c, s))
  {
    if s.flag {
      AdjustFromKeeps(c, s.(restarts := s.restarts + 1), s.pc.mem);
    } else {
      assert Block(c, s.heap.ram, Starts(c, s.heap), s.pc.cur);
      SkipFromKeeps(c, s, s.pc.mem, s.heap.ram[s.pc.cur].next);
    }
  }

  lemma MallocKeeps(c: Config, s: State)
    requires Inv(c, s) && (s.pc.ScanWindow? || s.pc.AdjustWindow?)
    ensures PointersOk(c, s) && ResumedWell(c, MallocNext(c, s))
  {
    PointersAreOk(c, s);
    if s.pc.ScanWindow? { ScanKeeps(c, s); } else { AdjustKeeps(c, s); }
  }

  /** Another context frees or trims a block: whatever mem_malloc holds survives, and `flag` tells it so. */
  lemma OtherContextKeeps(c: Config, s: State, h2: Heap, s2: set<nat>, s': State)
    requires Inv(c, s) && Good(c, h2, s2, Owner(s.pc))
    requires s'.heap == h2 && s'.flag && s'.pc == s.pc && s'.size == s.size
    requires s.pc.AdjustWindow? ==>
      s.pc.mem in Live(c, h2.ram, s2) && Live(c, h2.ram, s2)[s.pc.mem] == s.heap.ram[s.pc.mem].next
    ensures Inv(c, s')
  {
    GoodOfChain(c, h2, s2, Owner(s.pc));
  }

  lemma FreeStepKeeps(c: Config, s: State, mem: nat, s': State)
    requires Inv(c, s) && Step(c, s, Free(mem), s')
    ensures Inv(c, s')
    ensures Live(c, s'.heap.ram, Starts(c, s'.heap)) == Live(c, s.heap.ram, Starts(c, s.heap)) - {mem}
  {
    var starts := Starts(c, s.heap);
    FreeKeeps(c, s.heap, starts, mem, Owner(s.pc));
    GoodOfChain(c, s'.heap, FreeStarts(c, s.heap, starts, mem), Owner(s.pc));
    OtherContextKeeps(c, s, s'.heap, FreeStarts(c, s.heap, starts, mem), s');
  }

  lemma TrimStepKeeps(c: Config, s: State, mem: nat, newsize: nat, s': State)
    requires Inv(c, s) && Step(c, s, Trim(mem, newsize), s')
    ensures Inv(c, s')
    ensures Live(c, s'.heap.ram, Starts(c, s'.heap))
         == Live(c, s.heap.ram, Starts(c, s.heap))[mem := s'.heap.ram[mem].next]
  {
    var starts := Starts(c, s.heap);
    var s2 := TrimStarts(c, s.heap.ram, starts, mem, newsize);
    TrimKeeps(c, s.heap, starts, mem, newsize);
    TrimHint(c, s.heap, starts, mem, newsize, Owner(s.pc));
    GoodOfChain(c, s'.heap, s2, Owner(s.pc));
    OtherContextKeeps(c, s, s'.heap, s2, s');
  }

  lemma CallKeeps(c: Config, s: State, size: nat, s': State)
    requires Inv(c, s) && Step(c, s, Call(size), s')
    ensures ResumedWell(c, s')
  {
    var s1 := Begun(c, s, size);
    LfreeBelowEveryFit(c, s1);
    ScanFromKeeps(c, s1, s.heap.lfree);
  }

  lemma StepKeeps(c: Config, s: State, a: Action, s': State)
    requires Inv(c, s) && Step(c, s, a, s')
    ensures Inv(c, s')
  {
    match a
    case Call(size) => CallKeeps(c, s, size, s');
    case Malloc => MallocKeeps(c, s);
    case Free(mem) => FreeStepKeeps(c, s, mem, s');
    case Trim(mem, newsize) => TrimStepKeeps(c, s, mem, newsize, s');
  }

  // ---------------------------------------------------------------- whole runs

  ghost predicate Initial(c: Config, s: State) {
    && InBounds(c, s.heap.ram) && s.pc == Idle && s.heap.lfree == 0 && s.restarts == 0 && s.sections == 0
    && s.heap.ram[0] == Header(c.memSize, 0, false)
    && s.heap.ram[c.memSize] == Header(c.memSize, c.memSize, true)
  }

  ghost predicate Run(c: Config, states: seq<State>, actions: seq<Action>) {
    && |states| == |actions| + 1
    && Initial(c, states[0])
    && (forall i :: 0 <= i < |actions| ==> Step(c, states[i], actions[i], states[i + 1]))
  }

  lemma InitialInv(c: Config, s: State)
    requires ValidSizes(c) && Initial(c, s)
    ensures Inv(c, s)
  {
    var starts := {0, c.memSize};
    forall p | p in starts && p < c.memSize ensures Block(c, s.heap.ram, starts, p) {}
    assert Tiled(c, s.heap.ram, starts);
    GoodOfChain(c, s.heap, starts, NOBODY);
  }

  /** In every state of every interleaving the heap is tiled and coalesced, lfree is at or below every free
      block, and mem_malloc's kept pointer is a current block start unless the flag tells it to restart. */
  lemma {:induction false} EveryRunKeepsInv(c: Config, states: seq<State>, actions: seq<Action>, i: nat)
    requires ValidSizes(c) && Run(c, states, actions) && i < |states|
    ensures Inv(c, states[i])
  {
    if i == 0 {
      InitialInv(c, states[0]);
    } else {
      var k := i - 1;
      EveryRunKeepsInv(c, states, actions, k);
      assert Step(c, states[k], actions[k], states[k + 1]);
      StepKeeps(c, states[k], actions[k], states[k + 1]);
    }
  }

  /** How a mem_malloc ends, whatever ran in its windows: it returns a block in use of at least the size it
      asked for, less than a header and the minimum more, and leaves lfree the lowest free block (or the
      sentinel), or nothing fits when it gives up. */
  lemma MallocEndsWell(c: Config, states: seq<State>, actions: seq<Action>, i: nat)
    requires ValidSizes(c) && Run(c, states, actions) && i < |actions| && (actions[i].Call? || actions[i].Malloc?)
    ensures InBounds(c, states[i + 1].heap.ram)
    ensures Good(c, states[i + 1].heap, Starts(c, states[i + 1].heap), Owner(states[i + 1].pc))
    ensures var s' := states[i + 1];
      s'.pc.Returned? ==>
        && s'.pc.mem in Live(c, s'.heap.ram, Starts(c, s'.heap))
        && s'.size <= DataSize(c, s'.heap.ram, s'.pc.mem) < s'.size + c.sizeofMem + c.minSize
        && Hint(c, s'.heap, Starts(c, s'.heap), NOBODY)
    ensures var s' := states[i + 1];
      s'.pc.Failed? ==> forall q :: q in Starts(c, s'.heap) && q < |s'.heap.ram| ==> !Fits(c, s'.heap.ram, q, s'.size)
  {
    EveryRunKeepsInv(c, states, actions, i);
    assert Step(c, states[i], actions[i], states[i + 1]);
    match actions[i]
    case Call(size) => CallKeeps(c, states[i], size, states[i + 1]);
    case Malloc => MallocKeeps(c, states[i]);
  }

  /** No reader of a stale pointer: mem_malloc can always resume, and a legal mem_free or mem_trim can
      always run, in every reachable state. */
  lemma NobodyIsStuck(c: Config, states: seq<State>, actions: seq<Action>, i: nat, mem: nat, newsize: nat)
    requires ValidSizes(c) && Run(c, states, actions) && i < |states|
    ensures var s := states[i];
      && (s.pc.ScanWindow? || s.pc.AdjustWindow? ==> exists s' :: Step(c, s, Malloc, s'))
      && (Held(c, s, mem) ==> exists s' :: Step(c, s, Free(mem), s'))
      && (Held(c, s, mem) && c.minSize <= newsize < DataSize(c, s.heap.ram, mem) ==>
            exists s' :: Step(c, s, Trim(mem, newsize), s'))
  {
    var s := states[i];
    EveryRunKeepsInv(c, states, actions, i);
    PointersAreOk(c, s);
    if s.pc.ScanWindow? || s.pc.AdjustWindow? {
      assert Step(c, s, Malloc, MallocNext(c, s));
    }
    if Held(c, s, mem) {
      FreeKeeps(c, s.heap, Starts(c, s.heap), mem, Owner(s.pc));
      assert Step(c, s, Free(mem), s.(heap := FreeBlock(c, s.heap, mem), flag := true));
      if c.minSize <= newsize < DataSize(c, s.heap.ram, mem) {
        assert Step(c, s, Trim(mem, newsize),
                    s.(heap := TrimBlock(c, s.heap, mem, newsize), flag := true, trims := s.trims + 1));
      }
    }
  }

  lemma MallocLive(c: Config, s: State, p: nat)
    requires Inv(c, s) && (s.pc.ScanWindow? || s.pc.AdjustWindow?) && PointersOk(c, s)
    requires Inv(c, MallocNext(c, s))
    requires p in Live(c, s.heap.ram, Starts(c, s.heap))
    ensures var h' := MallocNext(c, s).heap;
      p in Live(c, h'.ram, Starts(c, h')) && h'.ram[p].next == s.heap.ram[p].next
  {
    if s.pc.ScanWindow? && !s.flag && Fits(c, s.heap.ram, s.pc.ptr, s.size) {
      TakenAfterTake(c, s, s.pc.ptr);
    }
  }

  /** A block in use keeps its place and its extent through every action but its own mem_free or mem_trim.
      This is why mem_trim may read the block's size before it takes the protection. */
  lemma ExtentIsStable(c: Config, s: State, a: Action, s': State, p: nat)
    requires Inv(c, s) && Step(c, s, a, s')
    requires p in Live(c, s.heap.ram, Starts(c, s.heap))
    requires !(a.Free? && a.mem == p) && !(a.Trim? && a.mem == p)
    ensures InBounds(c, s'.heap.ram) && Tiled(c, s'.heap.ram, Starts(c, s'.heap))
    ensures p in Live(c, s'.heap.ram, Starts(c, s'.heap)) && s'.heap.ram[p].next == s.heap.ram[p].next
  {
    StepKeeps(c, s, a, s');
    match a
    case Call(_) =>
    case Malloc => MallocLive(c, s, p);
    case Free(mem) => FreeStepKeeps(c, s, mem, s');
    case Trim(mem, newsize) =>
      TrimStepKeeps(c, s, mem, newsize, s');
      assert Live(c, s'.heap.ram, Starts(c, s'.heap))[p] == s'.heap.ram[p].next;
  }

  // ---------------------------------------------------------------- restarts

  predicate InWindow(s: State) {
    s.pc.ScanWindow? || s.pc.AdjustWindow?
  }

  /** Every restart is paid for by a block freed, or a mem_trim run, since the call began. */
  ghost predicate Paid(c: Config, s: State)
    requires InBounds(c, s.heap.ram)
  {
    s.restarts + (if InWindow(s) then (if s.flag then 1 else 0) + |InUse(c, s.heap, Owner(s.pc))| else 0)
      <= s.usedAtCall + s.trims
  }

  lemma InUseIsLive(c: Config, h: Heap, owner: int)
    requires InBounds(c, h.ram) && Tiled(c, h.ram, Starts(c, h))
    ensures InUse(c, h, owner) == set p | p in Live(c, h.ram, Starts(c, h)) && p != owner
  {
  }

  lemma FreePays(c: Config, s: State, mem: nat, s': State)
    requires Inv(c, s) && Step(c, s, Free(mem), s') && Paid(c, s)
    ensures InBounds(c, s'.heap.ram) && Paid(c, s')
  {
    FreeStepKeeps(c, s, mem, s');
    InUseIsLive(c, s.heap, Owner(s.pc));
    InUseIsLive(c, s'.heap, Owner(s.pc));
    assert InUse(c, s'.heap, Owner(s.pc)) == InUse(c, s.heap, Owner(s.pc)) - {mem};
  }

  lemma TrimPays(c: Config, s: State, mem: nat, newsize: nat, s': State)
    requires Inv(c, s) && Step(c, s, Trim(mem, newsize), s') && Paid(c, s)
    ensures InBounds(c, s'.heap.ram) && Paid(c, s')
  {
    TrimStepKeeps(c, s, mem, newsize, s');
    InUseIsLive(c, s.heap, Owner(s.pc));
    InUseIsLive(c, s'.heap, Owner(s.pc));
    assert InUse(c, s'.heap, Owner(s.pc)) == InUse(c, s.heap, Owner(s.pc));
  }

  lemma MallocPays(c: Config, s: State)
    requires Inv(c, s) && InWindow(s) && Paid(c, s)
    ensures PointersOk(c, s) && Inv(c, MallocNext(c, s)) && Paid(c, MallocNext(c, s))
  {
    MallocKeeps(c, s);
    var s' := MallocNext(c, s);
    if s.pc.ScanWindow? && !s.flag && Fits(c, s.heap.ram, s.pc.ptr, s.size) {
      var ptr := s.pc.ptr;
      TakenAfterTake(c, s, ptr);
      var h2 := Heap(TakeRam(c, s.heap.ram, ptr, s.size), s.heap.lfree);
      InUseIsLive(c, s.heap, NOBODY);
      InUseIsLive(c, h2, ptr);
      assert InUse(c, h2, ptr) == InUse(c, s.heap, NOBODY);
    }
  }

  lemma StepPays(c: Config, s: State, a: Action, s': State)
    requires Inv(c, s) && Step(c, s, a, s') && Paid(c, s)
    ensures InBounds(c, s'.heap.ram) && Paid(c, s')
  {
    match a
    case Call(_) =>
    case Malloc => MallocPays(c, s);
    case Free(mem) => FreePays(c, s, mem, s');
    case Trim(mem, newsize) => TrimPays(c, s, mem, newsize, s');
  }

  /** A call restarts at most once for each block that was in use when it began, plus once for each
      mem_trim that ran meanwhile. */
  lemma {:induction false} RestartsAreBounded(c: Config, states: seq<State>, actions: seq<Action>, i: nat)
    requires ValidSizes(c) && Run(c, states, actions) && i < |states|
    ensures states[i].restarts <= states[i].usedAtCall + states[i].trims
    ensures InBounds(c, states[i].heap.ram) && Paid(c, states[i])
  {
    if i > 0 {
      RestartsAreBounded(c, states, actions, i - 1);
      EveryRunKeepsInv(c, states, actions, i - 1);
      StepPays(c, states[i - 1], actions[i - 1], states[i]);
    }
  }

  // ---------------------------------------------------------------- how long a call takes

  /** The least a block takes up, header included. */
  function Unit(c: Config): nat {
    c.sizeofMem + c.minSize
  }

  /** How far a pass over the heap, first scanning and then adjusting `lfree`, can get. */
  function PassLength(c: Config): nat {
    2 * c.memSize + 2 * Unit(c)
  }

  /** How far the current pass has got, in bytes. */
  function Progress(c: Config, s: State): nat {
    match s.pc
    case ScanWindow(ptr) => ptr
    case AdjustWindow(_, cur) => c.memSize + Unit(c) + cur
    case _ => PassLength(c)
  }

  /** Each section of the call has moved its pass on by the size of a block, or begun a new pass. */
  ghost predicate Timely(c: Config, s: State) {
    && s.sections * Unit(c) <= s.restarts * PassLength(c) + Progress(c, s)
    && (s.pc.ScanWindow? ==> s.pc.ptr <= c.memSize) && (s.pc.AdjustWindow? ==> s.pc.cur <= c.memSize)
  }

  lemma ScanFromTimely(c: Config, s: State, ptr: nat)
    requires ptr <= c.memSize && s.sections * Unit(c) <= s.restarts * PassLength(c) + ptr
    ensures Timely(c, ScanFrom(c, s, ptr))
  {}

  lemma SkipFromTimely(c: Config, s: State, mem: nat, cur: nat)
    requires cur < |s.heap.ram| && cur <= c.memSize
    requires s.sections * Unit(c) <= s.restarts * PassLength(c) + c.memSize + Unit(c) + cur
    ensures Timely(c, SkipFrom(c, s, mem, cur))
  {}

  lemma AdjustFromTimely(c: Config, s: State, mem: nat)
    requires s.heap.lfree < |s.heap.ram| && s.heap.lfree <= c.memSize
    requires s.sections * Unit(c) <= s.restarts * PassLength(c) + c.memSize + Unit(c)
    ensures Timely(c, AdjustFrom(c, s, mem))
  {
    if mem == s.heap.lfree { SkipFromTimely(c, s, mem, s.heap.lfree); }
  }

  lemma NextSection(c: Config, s: State)
    requires Timely(c, s)
    ensures (s.sections + 1) * Unit(c) <= s.restarts * PassLength(c) + Progress(c, s) + Unit(c)
    ensures InWindow(s) ==> (s.sections + 1) * Unit(c) <= (s.restarts + 1) * PassLength(c)
  {
    assert (s.sections + 1) * Unit(c) == s.sections * Unit(c) + Unit(c);
    assert (s.restarts + 1) * PassLength(c) == s.restarts * PassLength(c) + PassLength(c);
  }

  lemma MallocTimely(c: Config, s: State)
    requires Inv(c, s) && InWindow(s) && Timely(c, s)
    ensures PointersOk(c, s) && Timely(c, MallocNext(c, s))
  {
    PointersAreOk(c, s);
    NextSection(c, s);
    var t, starts := s.(sections := s.sections + 1), Starts(c, s.heap);
    if s.flag {
      var r := t.(restarts := s.restarts + 1);
      if s.pc.ScanWindow? { ScanFromTimely(c, r, s.heap.lfree); } else { AdjustFromTimely(c, r, s.pc.mem); }
    } else if s.pc.ScanWindow? {
      var ptr := s.pc.ptr;
      assert Block(c, s.heap.ram, starts, ptr);
      if Fits(c, s.heap.ram, ptr, s.size) {
        AdjustFromTimely(c, t.(heap := Heap(TakeRam(c, s.heap.ram, ptr, s.size), s.heap.lfree)), ptr);
      } else {
        ScanFromTimely(c, t, s.heap.ram[ptr].next);
      }
    } else {
      assert Block(c, s.heap.ram, starts, s.pc.cur);
      SkipFromTimely(c, t, s.pc.mem, s.heap.ram[s.pc.cur].next);
    }
  }

  lemma StepTimely(c: Config, s: State, a: Action, s': State)
    requires Inv(c, s) && Step(c, s, a, s') && Timely(c, s)
    ensures Timely(c, s')
  {
    if a.Malloc? { MallocTimely(c, s); }
  }

  lemma {:induction false} EveryRunIsTimely(c: Config, states: seq<State>, actions: seq<Action>, i: nat)
    requires ValidSizes(c) && Run(c, states, actions) && i < |states|
    ensures Timely(c, states[i])
  {
    if i > 0 {
      var k := i - 1;
      EveryRunIsTimely(c, states, actions, k);
      EveryRunKeepsInv(c, states, actions, k);
      assert Step(c, states[k], actions[k], states[k + 1]);
      StepTimely(c, states[k], actions[k], states[k + 1]);
    }
  }

  /** A call takes at most one pass over the heap more than it has restarts, so with RestartsAreBounded a call
      that is disturbed finitely often ends: each pass takes no more sections than blocks fit into it. */
  lemma SectionsAreBounded(c: Config, states: seq<State>, actions: seq<Action>, i: nat)
    requires ValidSizes(c) && Run(c, states, actions) && i < |states|
    ensures states[i].sections * Unit(c) <= (states[i].restarts + 1) * PassLength(c)
    ensures states[i].sections * Unit(c) <= (states[i].usedAtCall + states[i].trims + 1) * PassLength(c)
  {
    EveryRunIsTimely(c, states, actions, i);
    TimelyBound(c, states[i]);
    RestartsAreBounded(c, states, actions, i);
    PassesGrow(c, states[i].restarts, states[i].usedAtCall + states[i].trims);
  }

  lemma TimelyBound(c: Config, s: State)
    requires Timely(c, s)
    ensures s.sections * Unit(c) <= (s.restarts + 1) * PassLength(c)
  {
    assert Progress(c, s) <= PassLength(c);
    assert (s.restarts + 1) * PassLength(c) == s.restarts * PassLength(c) + PassLength(c);
  }

  lemma PassesGrow(c: Config, a: nat, b: nat)
    requires a <= b
    ensures (a + 1) * PassLength(c) <= (b + 1) * PassLength(c)
  {}

  /** The bound needs its second term: a mem_trim that finds no room to give anything back still sets the
      flag, so repeating it restarts one mem_malloc any number of times without changing the heap. */
  lemma {:induction false} IdleTrimsRestartForever(c: Config, s: State, mem: nat, newsize: nat, n: nat)
      returns (states: seq<State>)
    requires Inv(c, s) && s.pc == ScanWindow(s.heap.lfree) && !s.flag && s.heap.lfree < c.memSize - s.size
    requires Held(c, s, mem) && c.minSize <= newsize < DataSize(c, s.heap.ram, mem)
    requires s.heap.ram[mem].next < |s.heap.ram| && s.heap.ram[s.heap.ram[mem].next].used
    requires !WillSplit(c, s.heap.ram, mem, newsize)
    ensures |states| == 2 * n + 1 && states[0] == s
    ensures forall i :: 0 <= i < n ==>
      && Step(c, states[2 * i], Trim(mem, newsize), states[2 * i + 1])
      && Step(c, states[2 * i + 1], Malloc, states[2 * i + 2])
    ensures states[2 * n] == s.(restarts := s.restarts + n, trims := s.trims + n, sections := s.sections + n)
  {
    if n == 0 {
      states := [s];
    } else {
      var front := IdleTrimsRestartForever(c, s, mem, newsize, n - 1);
      var t := front[2 * (n - 1)];
      var t1, t2 := IdleTrim(c, s, t, mem, newsize);
      states := front + [t1, t2];
    }
  }

  /** One such mem_trim and the restart it causes; `t` differs from `s` in its history only. */
  lemma IdleTrim(c: Config, s: State, t: State, mem: nat, newsize: nat) returns (t1: State, t2: State)
    requires Inv(c, s) && s.pc == ScanWindow(s.heap.lfree) && !s.flag && s.heap.lfree < c.memSize - s.size
    requires Held(c, s, mem) && c.minSize <= newsize < DataSize(c, s.heap.ram, mem)
    requires s.heap.ram[mem].next < |s.heap.ram| && s.heap.ram[s.heap.ram[mem].next].used
    requires !WillSplit(c, s.heap.ram, mem, newsize)
    requires t == s.(restarts := t.restarts, trims := t.trims, sections := t.sections)
    ensures Step(c, t, Trim(mem, newsize), t1) && Step(c, t1, Malloc, t2)
    ensures t2 == t.(restarts := t.restarts + 1, trims := t.trims + 1, sections := t.sections + 1)
  {
    BlocksAreLinkValid(c, s.heap.ram, Starts(c, s.heap), mem);
    t1 := t.(flag := true, trims := t.trims + 1);
    t2 := t1.(flag := false, restarts := t1.restarts + 1, sections := t1.sections + 1);
  }

  // ---------------------------------------------------------------- a run that gets there

  /** A heap whose free part is its last block, at `lfree`. */
  predicate FreeTail(c: Config, s: State, p: nat) {
    && InBounds(c, s.heap.ram) && s.heap.lfree == p < c.memSize
    && !s.heap.ram[p].used && s.heap.ram[p].next == c.memSize
    && !InWindow(s)
  }

  /** mem_malloc of `size` bytes from such a heap, undisturbed: three sections. */
  lemma QuietMalloc(c: Config, s: State, p: nat, size: nat) returns (s1: State, s2: State, s3: State)
    requires ValidSizes(c) && FreeTail(c, s, p) && c.minSize <= size <= c.memSize
    requires p + 2 * c.sizeofMem + size + c.minSize <= c.memSize
    ensures Step(c, s, Call(size), s1) && Step(c, s1, Malloc, s2) && Step(c, s2, Malloc, s3)
    ensures s1.pc == ScanWindow(p) && !s1.flag && s1.heap == s.heap && s1.size == size
    ensures var q := Rest(c, p, size);
      && FreeTail(c, s3, q) && s3.heap.ram[p].next == q && s3.heap.ram[p].used
      && forall x :: 0 <= x < |s.heap.ram| && x != p && x != q ==> s3.heap.ram[x] == s.heap.ram[x]
  {
    s1 := ScanFrom(c, Begun(c, s, size), p);
    s2 := MallocNext(c, s1);
    s3 := MallocNext(c, s2);
  }

  lemma RunExtends(c: Config, states: seq<State>, actions: seq<Action>, a: Action, s: State)
    requires Run(c, states, actions) && Step(c, states[|actions|], a, s)
    ensures Run(c, states + [s], actions + [a])
  {
    var ss, aa := states + [s], actions + [a];
    forall i | 0 <= i < |aa| ensures Step(c, ss[i], aa[i], ss[i + 1]) {
      if i < |actions| { assert Step(c, states[i], actions[i], states[i + 1]); }
    }
  }

  /** A run continued by one undisturbed mem_malloc; `scanning` is the same run up to its first window. */
  lemma RunMalloc(c: Config, states: seq<State>, actions: seq<Action>, p: nat, size: nat)
      returns (scanning: seq<State>, states': seq<State>, actions': seq<Action>)
    requires ValidSizes(c) && Run(c, states, actions) && FreeTail(c, states[|actions|], p)
    requires c.minSize <= size <= c.memSize
    requires p + 2 * c.sizeofMem + size + c.minSize <= c.memSize
    ensures Run(c, scanning, actions + [Call(size)]) && Run(c, states', actions')
    ensures var s := scanning[|actions| + 1];
      s.pc == ScanWindow(p) && !s.flag && s.heap == states[|actions|].heap && s.size == size
    ensures var q, h, s' := Rest(c, p, size), states[|actions|].heap, states'[|actions'|];
      && FreeTail(c, s', q) && s'.heap.ram[p].next == q && s'.heap.ram[p].used
      && forall x :: 0 <= x < |h.ram| && x != p && x != q ==> s'.heap.ram[x] == h.ram[x]
  {
    var s1, s2, s3 := QuietMalloc(c, states[|actions|], p, size);
    scanning := states + [s1];
    RunExtends(c, states, actions, Call(size), s1);
    RunExtends(c, scanning, actions + [Call(size)], Malloc, s2);
    RunExtends(c, scanning + [s2], actions + [Call(size), Malloc], Malloc, s3);
    states', actions' := scanning + [s2] + [s3], actions + [Call(size), Malloc, Malloc];
    assert actions + [Call(size)] + [Malloc] == actions + [Call(size), Malloc];
    assert actions + [Call(size), Malloc] + [Malloc] == actions';
  }

  const SMALL: Config := Config(4, 8, 12, 100, 0x10000)

  lemma SmallRun() returns (states: seq<State>, actions: seq<Action>)
    ensures Run(SMALL, states, actions)
    ensures var s := states[|actions|];
      && InBounds(SMALL, s.heap.ram) && s.pc == ScanWindow(48) && !s.flag && s.size == 16 && s.heap.lfree == 48
      && s.heap.ram[0].next == 24 && s.heap.ram[0].used && s.heap.ram[24].used
  {
    var ram := seq(101, i => if i == 0 then Header(100, 0, false) else Header(100, 100, true));
    states, actions := [State(Heap(ram, 0), false, Idle, 0, 0, 0, 0, 0)], [];
    var scanning;
    scanning, states, actions := RunMalloc(SMALL, states, actions, 0, 16);
    scanning, states, actions := RunMalloc(SMALL, states, actions, 24, 16);
    var calls := actions + [Call(16)];
    scanning, states, actions := RunMalloc(SMALL, states, actions, 48, 16);
    states, actions := scanning, calls;
  }

  /** The situation of IdleTrimsRestartForever comes up: two blocks in use, and a third mem_malloc scanning. */
  lemma IdleTrimsAreReachable() returns (states: seq<State>, actions: seq<Action>)
    ensures ValidSizes(SMALL) && ValidAlignment(SMALL) && Run(SMALL, states, actions)
    ensures var s := states[|actions|];
      && Inv(SMALL, s) && s.pc == ScanWindow(s.heap.lfree) && !s.flag && s.heap.lfree < SMALL.memSize - s.size
      && Held(SMALL, s, 0) && SMALL.minSize <= 12 < DataSize(SMALL, s.heap.ram, 0)
      && s.heap.ram[0].next < |s.heap.ram| && s.heap.ram[s.heap.ram[0].next].used
      && !WillSplit(SMALL, s.heap.ram, 0, 12)
  {
    states, actions := SmallRun();
    EveryRunKeepsInv(SMALL, states, actions, |actions|);
    var s := states[|actions|];
    assert 0 in Starts(SMALL, s.heap);
  }
}
