/** The reference count of socket slots in full-duplex mode (lwip-2.1.3/src/api/sockets.c:334-611): fd_used,
    fd_free_pending and the netconn of a slot, changed by many threads, one SYS_ARCH_PROTECT section at a
    time.  Threads are seen through the references they hold. */
module SocketRefs {
  import opened Common

  type ConnId = nat
  type RefId = nat

  datatype Slot = Slot(conn: Option<ConnId>, used: nat, pending: bool)

  // ---------------------------------------------------------------- the sections on one slot

  /** sock_inc_used and sock_inc_used_locked; the flag tells whether a reference was given. */
  function IncUsed(k: Slot): (Slot, bool) {
    if k.pending then (k, false) else (k.(used := k.used + 1), true)
  }

  /** free_socket_locked; the netconn is returned when the slot was really freed. */
  function FreeLocked(k: Slot): (Slot, Option<ConnId>)
    requires k.used > 0
  {
    if k.used - 1 > 0 then (k.(used := k.used - 1, pending := true), None)
    else (k.(used := 0, conn := None), k.conn)
  }

  /** done_socket: drop one reference; the last one out carries out a pending free. */
  function Done(k: Slot): (Slot, Option<ConnId>)
    requires k.used > 0
  {
    if k.used - 1 == 0 && k.pending then FreeLocked(k.(used := 1))
    else (k.(used := k.used - 1), None)
  }

  predicate Vacant(k: Slot) {
    k.conn.None? && k.used == 0
  }

  /** alloc_socket's section on a vacant slot. */
  function Occupy(c: ConnId): Slot {
    Slot(Some(c), 1, false)
  }

  // ---------------------------------------------------------------- the code on the array

  class SocketTable {
    const slots: array<Slot>

    constructor (n: nat)
      ensures slots.Length == n && fresh(slots)
      ensures forall i :: 0 <= i < n ==> slots[i] == Slot(None, 0, false)
    {
      slots := new Slot[n](_ => Slot(None, 0, false));
    }

    method SockIncUsed(s: nat) returns (ok: bool)
      requires s < slots.Length
      modifies slots
      ensures slots[..] == old(slots[..])[s := IncUsed(old(slots[s])).0] && ok == IncUsed(old(slots[s])).1
    {
      if slots[s].pending {
        ok := false;
      } else {
        slots[s] := slots[s].(used := slots[s].used + 1);
        ok := true;
      }
    }

    method FreeSocketLocked(s: nat) returns (conn: Option<ConnId>)
      requires s < slots.Length && slots[s].used > 0
      modifies slots
      ensures slots[..] == old(slots[..])[s := FreeLocked(old(slots[s])).0] && conn == FreeLocked(old(slots[s])).1
    {
      slots[s] := slots[s].(used := slots[s].used - 1);
      if slots[s].used > 0 {
        slots[s] := slots[s].(pending := true);
        return None;
      }
      conn := slots[s].conn;
      slots[s] := slots[s].(conn := None);
    }

    method DoneSocket(s: nat) returns (conn: Option<ConnId>)
      requires s < slots.Length && slots[s].used > 0
      modifies slots
      ensures slots[..] == old(slots[..])[s := Done(old(slots[s])).0] && conn == Done(old(slots[s])).1
    {
      slots[s] := slots[s].(used := slots[s].used - 1);
      conn := None;
      if slots[s].used == 0 && slots[s].pending {
        slots[s] := slots[s].(used := 1);
        conn := FreeSocketLocked(s);
      }
    }

    /** alloc_socket takes the lowest slot that has no netconn and no reference, if there is one. */
    method AllocSocket(c: ConnId) returns (r: Option<nat>)
      modifies slots
      ensures r.None? <==> forall i :: 0 <= i < slots.Length ==> !Vacant(old(slots[i]))
      ensures r.None? ==> slots[..] == old(slots[..])
      ensures r.Some? ==>
        && r.value < slots.Length && Vacant(old(slots[..])[r.value])
        && (forall i :: 0 <= i < r.value ==> !Vacant(old(slots[i])))
        && slots[..] == old(slots[..])[r.value := Occupy(c)]
    {
      for i := 0 to slots.Length
        invariant slots[..] == old(slots[..])
        invariant forall j :: 0 <= j < i ==> !Vacant(old(slots[j]))
      {
        if slots[i].conn.None? {
          if slots[i].used != 0 {
            continue;
          }
          slots[i] := slots[i].(used := 1, pending := false);
          slots[i] := slots[i].(conn := Some(c));
          return Some(i);
        }
      }
      return None;
    }
  }

  // ---------------------------------------------------------------- threads

  /** A reference and what its holder knows of the slot's netconn. */
  datatype Ref =
    | Unchecked(slot: nat)           // tryget_socket_unconn returned
    | Refused(slot: nat)             // tryget_socket saw no netconn and will call done_socket
    | Held(slot: nat, conn: ConnId)  // get_socket or alloc_socket returned

  /** `detached` are netconns taken out of their slot and about to be deleted, `deleted` those given to
      netconn_delete.  `adopted` and `closed` record what alloc_socket and free_socket were called for. */
  datatype State = State(slots: seq<Slot>, refs: map<RefId, Ref>,
                         detached: multiset<ConnId>, deleted: multiset<ConnId>,
                         adopted: set<ConnId>, closed: set<ConnId>)

  datatype Action =
    | TryGet(r: RefId, s: nat)
    | Look(r: RefId)
    | Release(r: RefId)
    | Close(r: RefId)
    | AllocAt(r: RefId, s: nat, c: ConnId)
    | Delete(c: ConnId)

  function Bag(c: Option<ConnId>): multiset<ConnId> {
    if c.Some? then multiset{c.value} else multiset{}
  }

  /** fd_used is a u8_t and its increment asserts that it did not wrap to 0. */
  const MAX_USED: nat := 255

  ghost predicate Enabled(st: State, a: Action) {
    match a
    case TryGet(r, s) => r !in st.refs && s < |st.slots| && (st.slots[s].pending || st.slots[s].used < MAX_USED)
    case Look(r) => r in st.refs && st.refs[r].Unchecked? && st.refs[r].slot < |st.slots|
    case Release(r) => r in st.refs && st.refs[r].slot < |st.slots| && st.slots[st.refs[r].slot].used > 0
    case Close(r) =>
      r in st.refs && st.refs[r].Held? && st.refs[r].slot < |st.slots| && st.slots[st.refs[r].slot].used > 0
    case AllocAt(r, s, c) => r !in st.refs && s < |st.slots| && c !in st.adopted
    case Delete(c) => c in st.detached
  }

  ghost function Apply(st: State, a: Action): State
    requires Enabled(st, a)
  {
    match a
    case TryGet(r, s) =>
      var (k, ok) := IncUsed(st.slots[s]);
      if ok then st.(slots := st.slots[s := k], refs := st.refs[r := Unchecked(s)]) else st
    case Look(r) =>
      var s := st.refs[r].slot;
      st.(refs := st.refs[r := if st.slots[s].conn.Some? then Held(s, st.slots[s].conn.value) else Refused(s)])
    case Release(r) =>
      var s := st.refs[r].slot;
      var (k, conn) := Done(st.slots[s]);
      st.(slots := st.slots[s := k], refs := st.refs - {r}, detached := st.detached + Bag(conn))
    case Close(r) =>
      var s := st.refs[r].slot;
      var (k, conn) := FreeLocked(st.slots[s]);
      st.(slots := st.slots[s := k], refs := st.refs - {r}, detached := st.detached + Bag(conn),
          closed := st.closed + {st.refs[r].conn})
    case AllocAt(r, s, c) =>
      if Vacant(st.slots[s]) then
        st.(slots := st.slots[s := Occupy(c)], refs := st.refs[r := Held(s, c)], adopted := st.adopted + {c})
      else st
    case Delete(c) =>
      st.(detached := st.detached - multiset{c}, deleted := st.deleted + multiset{c})
  }

  // ---------------------------------------------------------------- the invariant

  ghost function RefsOn(st: State, s: nat): set<RefId> {
    set r | r in st.refs && st.refs[r].slot == s
  }

  /** Slot `s`: the count is exact, and a pending free waits for a reference that is still out. */
  ghost predicate SlotOk(st: State, s: nat)
    requires s < |st.slots|
  {
    var k := st.slots[s];
    && k.used == |RefsOn(st, s)|
    && (k.pending ==> (k.used > 0 <==> k.conn.Some?))
    && (k.conn.Some? ==> k.conn.value in st.adopted && (k.pending <==> k.conn.value in st.closed))
  }

  /** Reference `r`: its slot exists and still holds the netconn its holder saw. */
  ghost predicate RefOk(st: State, r: RefId)
    requires r in st.refs
  {
    && st.refs[r].slot < |st.slots|
    && (st.refs[r].Held? ==> st.slots[st.refs[r].slot].conn == Some(st.refs[r].conn))
    && (st.refs[r].Refused? ==> st.slots[st.refs[r].slot].conn == None)
  }

  ghost predicate Attached(st: State, c: ConnId) {
    exists s :: 0 <= s < |st.slots| && st.slots[s].conn == Some(c)
  }

  /** Every allocated netconn is in exactly one place: a slot, on its way to deletion, or deleted. */
  ghost predicate OnePlace(st: State, c: ConnId) {
    && (if Attached(st, c) then 1 else 0) + st.detached[c] + st.deleted[c] == (if c in st.adopted then 1 else 0)
    && (st.detached[c] + st.deleted[c] > 0 ==> c in st.closed)
    && (c in st.closed ==> c in st.adopted)
  }

  ghost predicate Inv(st: State) {
    && (forall s :: 0 <= s < |st.slots| ==> SlotOk(st, s))
    && (forall r :: r in st.refs ==> RefOk(st, r))
    && (forall c :: OnePlace(st, c))
    && (forall s, t :: 0 <= s < t < |st.slots| && st.slots[s].conn.Some? ==> st.slots[s].conn != st.slots[t].conn)
  }

  lemma RefAddedAt(st: State, st': State, r: RefId, ref: Ref, s: nat)
    requires r !in st.refs && st'.refs == st.refs[r := ref]
    ensures |RefsOn(st', s)| == |RefsOn(st, s)| + (if s == ref.slot then 1 else 0)
  {
    var more := if s == ref.slot then {r} else {};
    assert RefsOn(st', s) == RefsOn(st, s) + more;
    assert RefsOn(st, s) !! more;
  }

  lemma RefAdded(st: State, st': State, r: RefId, ref: Ref)
    requires r !in st.refs && st'.refs == st.refs[r := ref]
    ensures forall s :: |RefsOn(st', s)| == |RefsOn(st, s)| + (if s == ref.slot then 1 else 0)
  {
    forall s ensures |RefsOn(st', s)| == |RefsOn(st, s)| + (if s == ref.slot then 1 else 0) {
      RefAddedAt(st, st', r, ref, s);
    }
  }

  lemma RefDroppedAt(st: State, st': State, r: RefId, s: nat)
    requires r in st.refs && st'.refs == st.refs - {r}
    ensures |RefsOn(st', s)| == |RefsOn(st, s)| - (if s == st.refs[r].slot then 1 else 0)
  {
    var less := if s == st.refs[r].slot then {r} else {};
    assert RefsOn(st', s) == RefsOn(st, s) - less;
    assert less <= RefsOn(st, s);
  }

  lemma RefDropped(st: State, st': State, r: RefId)
    requires r in st.refs && st'.refs == st.refs - {r}
    ensures forall s :: |RefsOn(st', s)| == |RefsOn(st, s)| - (if s == st.refs[r].slot then 1 else 0)
  {
    forall s ensures |RefsOn(st', s)| == |RefsOn(st, s)| - (if s == st.refs[r].slot then 1 else 0) {
      RefDroppedAt(st, st', r, s);
    }
  }

  /** A reference keeps the count of its slot above zero. */
  lemma HeldMeansUsed(st: State, r: RefId)
    requires Inv(st) && r in st.refs
    ensures st.refs[r].slot < |st.slots| && st.slots[st.refs[r].slot].used > 0
  {
    assert RefOk(st, r);
    assert SlotOk(st, st.refs[r].slot);
    assert r in RefsOn(st, st.refs[r].slot);
  }

  lemma TryGetKeeps(st: State, r: RefId, s: nat)
    requires Inv(st) && Enabled(st, TryGet(r, s))
    ensures Inv(Apply(st, TryGet(r, s)))
  {
    var st' := Apply(st, TryGet(r, s));
    if !st.slots[s].pending {
      RefAdded(st, st', r, Unchecked(s));
      forall t | 0 <= t < |st'.slots| ensures SlotOk(st', t) { assert SlotOk(st, t); }
      forall q | q in st'.refs ensures RefOk(st', q) { if q != r { assert RefOk(st, q); } }
      forall c ensures OnePlace(st', c) {
        SameConns(st, st', c);
        assert OnePlace(st, c);
      }
    }
  }

  lemma SameConns(st: State, st': State, c: ConnId)
    requires |st.slots| == |st'.slots| && forall s :: 0 <= s < |st.slots| ==> st.slots[s].conn == st'.slots[s].conn
    ensures Attached(st, c) <==> Attached(st', c)
  {
    if Attached(st, c) {
      var s :| 0 <= s < |st.slots| && st.slots[s].conn == Some(c);
      assert st'.slots[s].conn == Some(c);
    }
    if Attached(st', c) {
      var s :| 0 <= s < |st'.slots| && st'.slots[s].conn == Some(c);
      assert st.slots[s].conn == Some(c);
    }
  }

  lemma LookKeeps(st: State, r: RefId)
    requires Inv(st) && Enabled(st, Look(r))
    ensures Inv(Apply(st, Look(r)))
  {
    var st' := Apply(st, Look(r));
    forall s | 0 <= s < |st'.slots| ensures SlotOk(st', s) {
      assert SlotOk(st, s);
      assert RefsOn(st', s) == RefsOn(st, s);
    }
    forall q | q in st'.refs ensures RefOk(st', q) { assert RefOk(st, q); }
    forall c ensures OnePlace(st', c) {
      SameConns(st, st', c);
      assert OnePlace(st, c);
    }
  }

  /** Dropping a reference without freeing the slot. */
  lemma DropKeeps(st: State, r: RefId, st': State)
    requires Inv(st) && r in st.refs && st.refs[r].slot < |st.slots|
    requires var s := st.refs[r].slot; var k := st.slots[s];
      && k.used > 0
      && (|| (&& st'.slots == st.slots[s := k.(used := k.used - 1)] && st'.closed == st.closed
              && (k.used > 1 || !k.pending))
          || (&& st'.slots == st.slots[s := k.(used := k.used - 1, pending := true)] && k.used > 1
              && st.refs[r].Held? && st'.closed == st.closed + {st.refs[r].conn}))
    requires st'.refs == st.refs - {r} && st'.detached == st.detached && st'.deleted == st.deleted
    requires st'.adopted == st.adopted
    ensures Inv(st')
  {
    RefDropped(st, st', r);
    assert RefOk(st, r);
    forall t | 0 <= t < |st'.slots| ensures SlotOk(st', t) {
      assert SlotOk(st, t);
      assert SlotOk(st, st.refs[r].slot);
      assert t != st.refs[r].slot && st.slots[t].conn.Some? ==> st.slots[t].conn != st.slots[st.refs[r].slot].conn;
    }
    forall q | q in st'.refs ensures RefOk(st', q) { assert RefOk(st, q); }
    forall c ensures OnePlace(st', c) {
      SameConns(st, st', c);
      assert OnePlace(st, c);
      assert SlotOk(st, st.refs[r].slot);
    }
  }

  /** Dropping the last reference and taking the netconn out of the slot. */
  lemma DetachKeeps(st: State, r: RefId, st': State)
    requires Inv(st) && r in st.refs && st.refs[r].slot < |st.slots|
    requires var s := st.refs[r].slot; var k := st.slots[s];
      && k.used == 1 && k.conn.Some? && (k.pending || st.refs[r].Held?)
      && st'.slots == st.slots[s := k.(used := 0, conn := None)]
      && st'.detached == st.detached + multiset{k.conn.value}
      && st'.closed == st.closed + {k.conn.value}
    requires st'.refs == st.refs - {r} && st'.deleted == st.deleted && st'.adopted == st.adopted
    ensures Inv(st')
  {
    var s := st.refs[r].slot;
    var c0 := st.slots[s].conn.value;
    RefDropped(st, st', r);
    assert SlotOk(st, s);
    assert RefsOn(st, s) == {r} by { OnlyOne(RefsOn(st, s), r); }
    forall t | 0 <= t < |st'.slots| ensures SlotOk(st', t) { assert SlotOk(st, t); }
    forall q | q in st'.refs ensures RefOk(st', q) {
      assert RefOk(st, q);
      assert q !in RefsOn(st, s);
    }
    forall c ensures OnePlace(st', c) {
      assert OnePlace(st, c);
      if c == c0 {
        assert Attached(st, c);
        assert !Attached(st', c);
      } else {
        OtherSlots(st, st', s, c);
      }
    }
  }

  lemma OnlyOne(xs: set<RefId>, x: RefId)
    requires x in xs && |xs| == 1
    ensures xs == {x}
  {
    assert |xs - {x}| == 0;
  }

  lemma OtherSlots(st: State, st': State, s: nat, c: ConnId)
    requires s < |st.slots| == |st'.slots| && forall t :: 0 <= t < |st.slots| && t != s ==>
      st.slots[t].conn == st'.slots[t].conn
    requires st.slots[s].conn != Some(c) && st'.slots[s].conn != Some(c)
    ensures Attached(st, c) <==> Attached(st', c)
  {
    if Attached(st, c) {
      var t :| 0 <= t < |st.slots| && st.slots[t].conn == Some(c);
      assert st'.slots[t].conn == Some(c);
    }
    if Attached(st', c) {
      var t :| 0 <= t < |st'.slots| && st'.slots[t].conn == Some(c);
      assert st.slots[t].conn == Some(c);
    }
  }

  lemma ReleaseKeeps(st: State, r: RefId)
    requires Inv(st) && Enabled(st, Release(r))
    ensures Inv(Apply(st, Release(r)))
  {
    var s := st.refs[r].slot;
    var st' := Apply(st, Release(r));
    assert SlotOk(st, s);
    if st.slots[s].used == 1 && st.slots[s].pending {
      assert st'.closed == st.closed + {st.slots[s].conn.value};
      DetachKeeps(st, r, st');
    } else {
      DropKeeps(st, r, st');
    }
  }

  lemma CloseKeeps(st: State, r: RefId)
    requires Inv(st) && Enabled(st, Close(r))
    ensures Inv(Apply(st, Close(r)))
  {
    var s := st.refs[r].slot;
    var st' := Apply(st, Close(r));
    assert RefOk(st, r);
    if st.slots[s].used == 1 {
      DetachKeeps(st, r, st');
    } else {
      DropKeeps(st, r, st');
    }
  }

  lemma AllocKeeps(st: State, r: RefId, s: nat, c: ConnId)
    requires Inv(st) && Enabled(st, AllocAt(r, s, c))
    ensures Inv(Apply(st, AllocAt(r, s, c)))
  {
    var st' := Apply(st, AllocAt(r, s, c));
    if Vacant(st.slots[s]) {
      RefAdded(st, st', r, Held(s, c));
      assert OnePlace(st, c);
      assert SlotOk(st, s);
      forall t | 0 <= t < |st'.slots| ensures SlotOk(st', t) {
        assert SlotOk(st, t);
        if t != s { assert st.slots[t].conn == Some(c) ==> Attached(st, c); }
      }
      forall q | q in st'.refs ensures RefOk(st', q) {
        if q != r {
          assert RefOk(st, q);
          assert q in RefsOn(st, st.refs[q].slot);
        }
      }
      forall d ensures OnePlace(st', d) {
        assert OnePlace(st, d);
        if d == c { assert st'.slots[s].conn == Some(c); } else { OtherSlots(st, st', s, d); }
      }
      forall t | 0 <= t < |st.slots| && t != s ensures st.slots[t].conn != Some(c) {
        assert st.slots[t].conn == Some(c) ==> Attached(st, c);
      }
    }
  }

  lemma DeleteKeeps(st: State, c: ConnId)
    requires Inv(st) && Enabled(st, Delete(c))
    ensures Inv(Apply(st, Delete(c)))
  {
    var st' := Apply(st, Delete(c));
    forall s | 0 <= s < |st'.slots| ensures SlotOk(st', s) {
      assert SlotOk(st, s);
      assert RefsOn(st', s) == RefsOn(st, s);
    }
    forall q | q in st'.refs ensures RefOk(st', q) { assert RefOk(st, q); }
    forall d ensures OnePlace(st', d) {
      SameConns(st, st', d);
      assert OnePlace(st, d);
    }
  }

  lemma StepKeeps(st: State, a: Action)
    requires Inv(st) && Enabled(st, a)
    ensures Inv(Apply(st, a))
  {
    match a
    case TryGet(r, s) => TryGetKeeps(st, r, s);
    case Look(r) => LookKeeps(st, r);
    case Release(r) => ReleaseKeeps(st, r);
    case Close(r) => CloseKeeps(st, r);
    case AllocAt(r, s, c) => AllocKeeps(st, r, s, c);
    case Delete(c) => DeleteKeeps(st, c);
  }

  // ---------------------------------------------------------------- whole runs

  ghost predicate Initial(st: State) {
    && (forall s :: 0 <= s < |st.slots| ==> st.slots[s] == Slot(None, 0, false))
    && st.refs == map[] && st.detached == multiset{} && st.deleted == multiset{}
    && st.adopted == {} && st.closed == {}
  }

  ghost predicate Step(st: State, a: Action, st': State) {
    Enabled(st, a) && st' == Apply(st, a)
  }

  ghost predicate Run(states: seq<State>, actions: seq<Action>) {
    && |states| == |actions| + 1
    && Initial(states[0])
    && (forall i :: 0 <= i < |actions| ==> Step(states[i], actions[i], states[i + 1]))
  }

  lemma {:induction false} EveryRunKeepsInv(states: seq<State>, actions: seq<Action>, i: nat)
    requires Run(states, actions) && i < |states|
    ensures Inv(states[i])
  {
    if i == 0 {
      var st := states[0];
      forall s | 0 <= s < |st.slots| ensures SlotOk(st, s) { assert RefsOn(st, s) == {}; }
      forall c ensures OnePlace(st, c) {}
    } else {
      var k := i - 1;
      EveryRunKeepsInv(states, actions, k);
      assert Step(states[k], actions[k], states[k + 1]);
      StepKeeps(states[k], actions[k]);
    }
  }

  // ---------------------------------------------------------------- what the counts stand for

  /** The netconn of every slot: what is left of a table without fd_used and fd_free_pending. */
  ghost function Conns(st: State): (conns: seq<Option<ConnId>>)
    ensures |conns| == |st.slots| && forall s :: 0 <= s < |conns| ==> conns[s] == st.slots[s].conn
  {
    seq(|st.slots|, s requires 0 <= s < |st.slots| => st.slots[s].conn)
  }

  /** Only the references changed. */
  ghost predicate OnlyRefs(st: State, st': State) {
    && Conns(st') == Conns(st) && st'.detached == st.detached && st'.deleted == st.deleted
    && st'.adopted == st.adopted && st'.closed == st.closed
  }

  /** The reference `r` was given back; `gone` tells that the netconn went out of its slot with it. */
  ghost predicate GivenBack(st: State, r: RefId, gone: bool, st': State)
    requires r in st.refs && st.refs[r].slot < |st.slots|
  {
    var s := st.refs[r].slot;
    && st'.refs == st.refs - {r} && st'.deleted == st.deleted && st'.adopted == st.adopted
    && (if gone then
          Conns(st') == Conns(st)[s := None] && st'.detached == st.detached + Bag(Conns(st)[s])
        else Conns(st') == Conns(st) && st'.detached == st.detached)
  }

  predicate IsClosed(st: State, c: Option<ConnId>) {
    c.Some? && c.value in st.closed
  }

  /** The rules of the table, told by who holds references and what was closed.  A reference to an open socket is
      given, one to a socket that was closed is not; nor is one to an empty slot whose last user emptied it late,
      until the slot is taken again.  A netconn leaves its slot with the last reference after
      it was closed.  A slot is taken exactly if it has no netconn and nobody holds a reference to it. */
  ghost predicate Rule(st: State, a: Action, st': State)
    requires Enabled(st, a)
  {
    match a
    case TryGet(r, s) =>
      && OnlyRefs(st, st')
      && (st'.refs == st.refs || st'.refs == st.refs[r := Unchecked(s)])
      && (r in st'.refs <==> if Conns(st)[s].Some? then !IsClosed(st, Conns(st)[s]) else !st.slots[s].pending)
    case Look(r) =>
      var s := st.refs[r].slot;
      && OnlyRefs(st, st')
      && st'.refs == st.refs[r := if Conns(st)[s].Some? then Held(s, Conns(st)[s].value) else Refused(s)]
    case Release(r) =>
      var s := st.refs[r].slot;
      && st'.closed == st.closed
      && GivenBack(st, r, RefsOn(st, s) == {r} && IsClosed(st, Conns(st)[s]), st')
    case Close(r) =>
      && st'.closed == st.closed + {st.refs[r].conn}
      && GivenBack(st, r, RefsOn(st, st.refs[r].slot) == {r}, st')
    case AllocAt(r, s, c) =>
      if Conns(st)[s].None? && RefsOn(st, s) == {} then
        && Conns(st') == Conns(st)[s := Some(c)] && st'.refs == st.refs[r := Held(s, c)]
        && st'.adopted == st.adopted + {c} && st'.closed == st.closed
        && st'.detached == st.detached && st'.deleted == st.deleted
      else OnlyRefs(st, st') && st'.refs == st.refs
    case Delete(c) =>
      && Conns(st') == Conns(st) && st'.refs == st.refs && st'.adopted == st.adopted && st'.closed == st.closed
      && st'.detached == st.detached - multiset{c} && st'.deleted == st.deleted + multiset{c}
  }

  /** Whether `r` is the last reference to its slot shows in fd_used. */
  lemma LastShows(st: State, r: RefId)
    requires Inv(st) && r in st.refs
    ensures st.refs[r].slot < |st.slots|
    ensures st.slots[st.refs[r].slot].used == 1 <==> RefsOn(st, st.refs[r].slot) == {r}
  {
    assert RefOk(st, r);
    assert SlotOk(st, st.refs[r].slot);
    var rs := RefsOn(st, st.refs[r].slot);
    assert r in rs;
    if |rs| == 1 { OnlyOne(rs, r); }
  }

  lemma ReleaseRule(st: State, r: RefId)
    requires Inv(st) && Enabled(st, Release(r))
    ensures Rule(st, Release(r), Apply(st, Release(r)))
  {
    LastShows(st, r);
    assert SlotOk(st, st.refs[r].slot);
  }

  lemma CloseRule(st: State, r: RefId)
    requires Inv(st) && Enabled(st, Close(r))
    ensures Rule(st, Close(r), Apply(st, Close(r)))
  {
    LastShows(st, r);
    assert RefOk(st, r);
    assert SlotOk(st, st.refs[r].slot);
  }

  /** fd_used and fd_free_pending implement these rules: in every run every step follows them. */
  lemma EveryStepFollowsTheRules(states: seq<State>, actions: seq<Action>, i: nat)
    requires Run(states, actions) && i < |actions|
    ensures Enabled(states[i], actions[i]) && Rule(states[i], actions[i], states[i + 1])
  {
    EveryRunKeepsInv(states, actions, i);
    assert Step(states[i], actions[i], states[i + 1]);
    match actions[i]
    case TryGet(r, s) => assert SlotOk(states[i], s);
    case Look(r) =>
    case Release(r) => ReleaseRule(states[i], r);
    case Close(r) => CloseRule(states[i], r);
    case AllocAt(r, s, c) => assert SlotOk(states[i], s);
    case Delete(c) =>
  }

  /** While anyone holds a reference to a slot, its netconn is neither taken out nor replaced. */
  lemma ConnStep(states: seq<State>, actions: seq<Action>, i: nat, r: RefId)
    requires Run(states, actions) && i < |actions| && r in states[i].refs && r in states[i + 1].refs
    ensures var s := states[i].refs[r].slot;
      && states[i + 1].refs[r].slot == s < |states[i].slots| == |states[i + 1].slots|
      && states[i + 1].slots[s].conn == states[i].slots[s].conn
  {
    EveryStepFollowsTheRules(states, actions, i);
    EveryRunKeepsInv(states, actions, i);
    assert RefOk(states[i], r);
    assert r in RefsOn(states[i], states[i].refs[r].slot);
    var st, st' := states[i], states[i + 1];
    assert Conns(st')[st.refs[r].slot] == Conns(st)[st.refs[r].slot];
  }

  lemma {:induction false} ConnBetween(states: seq<State>, actions: seq<Action>, i: nat, j: nat, r: RefId)
    requires Run(states, actions) && i <= j < |states|
    requires forall k :: i <= k <= j ==> r in states[k].refs
    ensures var s := states[i].refs[r].slot;
      && states[j].refs[r].slot == s < |states[i].slots| == |states[j].slots|
      && states[j].slots[s].conn == states[i].slots[s].conn
    decreases j
  {
    if i < j {
      var k := j - 1;
      ConnBetween(states, actions, i, k, r);
      assert r in states[k].refs && r in states[k + 1].refs;
      ConnStep(states, actions, k, r);
    } else {
      EveryRunKeepsInv(states, actions, i);
      assert r in states[i].refs && RefOk(states[i], r);
    }
  }

  /** get_socket on an open socket returns it: the reference is given, and however much later the netconn is looked
      at, through whatever other threads do, the holder sees the netconn that was there at first. */
  lemma GetSocketReturns(states: seq<State>, actions: seq<Action>, i: nat, j: nat)
    requires Run(states, actions) && i < j < |actions|
    requires actions[i].TryGet? && actions[i].s < |states[i].slots|
    requires states[i].slots[actions[i].s].conn.Some? && states[i].slots[actions[i].s].conn.value !in states[i].closed
    requires forall k :: i < k < j ==> !(actions[k].Release? && actions[k].r == actions[i].r)
    requires forall k :: i < k < j ==> !(actions[k].Close? && actions[k].r == actions[i].r)
    requires actions[j] == Look(actions[i].r)
    ensures actions[i].r in states[j + 1].refs
    ensures states[j + 1].refs[actions[i].r] == Held(actions[i].s, states[i].slots[actions[i].s].conn.value)
  {
    var r := actions[i].r;
    EveryStepFollowsTheRules(states, actions, i);
    KeptUntilGivenBack(states, actions, i, j);
    ConnBetween(states, actions, i + 1, j, r);
    EveryStepFollowsTheRules(states, actions, j);
    assert Conns(states[i + 1])[actions[i].s] == Conns(states[i])[actions[i].s];
  }

  lemma {:induction false} KeptUntilGivenBack(states: seq<State>, actions: seq<Action>, i: nat, j: nat)
    requires Run(states, actions) && i < j <= |actions| && actions[i].TryGet? && actions[i].r in states[i + 1].refs
    requires forall k :: i < k < j ==> !(actions[k].Release? && actions[k].r == actions[i].r)
    requires forall k :: i < k < j ==> !(actions[k].Close? && actions[k].r == actions[i].r)
    ensures forall k :: i < k <= j ==> actions[i].r in states[k].refs
    decreases j
  {
    if i + 1 < j {
      var k := j - 1;
      KeptUntilGivenBack(states, actions, i, k);
      assert actions[i].r in states[k].refs;
      assert Step(states[k], actions[k], states[k + 1]);
    }
  }

  /** fd_used is always the number of outstanding references, so sock_inc_used succeeds unless a free is
      pending, and its wrap-around assertion fails exactly when MAX_USED references are already out. */
  lemma UsedCountsReferences(states: seq<State>, actions: seq<Action>, i: nat, s: nat, r: RefId)
    requires Run(states, actions) && i < |states| && s < |states[i].slots| && r !in states[i].refs
    ensures states[i].slots[s].used == |RefsOn(states[i], s)|
    ensures Enabled(states[i], TryGet(r, s)) <==> (states[i].slots[s].pending || |RefsOn(states[i], s)| < MAX_USED)
    ensures states[i].slots[s].conn.Some? ==>
      (states[i].slots[s].pending <==> states[i].slots[s].conn.value in states[i].closed)
  {
    EveryRunKeepsInv(states, actions, i);
    assert SlotOk(states[i], s);
  }

  /** Every outstanding reference can be given back, and every one that get_socket returned can be used to
      close: the assertions that fd_used is above zero never fail. */
  lemma ReferencesCanBeReturned(states: seq<State>, actions: seq<Action>, i: nat, r: RefId)
    requires Run(states, actions) && i < |states| && r in states[i].refs
    ensures Enabled(states[i], Release(r))
    ensures states[i].refs[r].Held? ==> Enabled(states[i], Close(r))
  {
    EveryRunKeepsInv(states, actions, i);
    HeldMeansUsed(states[i], r);
  }

  /** What a holder knows of its slot does not change while it holds the reference. */
  lemma HeldStep(st: State, a: Action, st': State, r: RefId)
    requires Step(st, a, st') && r in st.refs && st.refs[r].Held? && r in st'.refs
    ensures st'.refs[r] == st.refs[r]
  {
  }

  lemma {:induction false} HeldBetween(states: seq<State>, actions: seq<Action>, i: nat, j: nat, r: RefId)
    requires Run(states, actions) && i <= j < |states|
    requires forall k :: i <= k <= j ==> r in states[k].refs
    requires states[i].refs[r].Held?
    ensures states[j].refs[r] == states[i].refs[r]
    decreases j
  {
    if i < j {
      var k := j - 1;
      HeldBetween(states, actions, i, k, r);
      assert r in states[k].refs && r in states[k + 1].refs;
      HeldStep(states[k], actions[k], states[k + 1], r);
    }
  }

  /** From the moment get_socket returns until the reference is given back, through whatever other threads
      do, the slot keeps the netconn that get_socket saw. */
  lemma HolderKeepsItsConn(states: seq<State>, actions: seq<Action>, i: nat, j: nat, r: RefId)
    requires Run(states, actions) && i <= j < |states|
    requires forall k :: i <= k <= j ==> r in states[k].refs
    requires states[i].refs[r].Held?
    ensures var ref := states[i].refs[r];
      ref.slot < |states[j].slots| && states[j].slots[ref.slot].conn == Some(ref.conn)
  {
    HeldBetween(states, actions, i, j, r);
    EveryRunKeepsInv(states, actions, j);
    assert r in states[j].refs;
    assert RefOk(states[j], r);
  }

  /** alloc_socket never hands out a slot that anyone holds a reference to. */
  lemma AllocSkipsReferencedSlots(states: seq<State>, actions: seq<Action>, i: nat)
    requires Run(states, actions) && i < |actions| && actions[i].AllocAt?
    ensures RefsOn(states[i], actions[i].s) != {} ==> states[i + 1] == states[i]
  {
    EveryRunKeepsInv(states, actions, i);
    assert Step(states[i], actions[i], states[i + 1]);
    assert SlotOk(states[i], actions[i].s);
  }

  /** No netconn is deleted twice or while a slot still has it; and when all references are back and all
      detached netconns are deleted, exactly the netconns that were closed have been deleted, each once. */
  lemma ClosedConnsAreDeletedOnce(states: seq<State>, actions: seq<Action>, i: nat, c: ConnId)
    requires Run(states, actions) && i < |states|
    ensures states[i].deleted[c] <= 1
    ensures Attached(states[i], c) ==> states[i].deleted[c] == 0
    ensures states[i].refs == map[] && states[i].detached == multiset{} ==>
      (states[i].deleted[c] == 1 <==> c in states[i].closed)
  {
    var st := states[i];
    EveryRunKeepsInv(states, actions, i);
    assert OnePlace(st, c);
    if st.refs == map[] && Attached(st, c) {
      var s :| 0 <= s < |st.slots| && st.slots[s].conn == Some(c);
      assert RefsOn(st, s) == {};
      assert SlotOk(st, s);
    }
  }
}
