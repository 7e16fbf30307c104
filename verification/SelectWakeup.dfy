/** The wake-up handshake of lwip_select and event_callback (lwip-2.1.3/src/api/sockets.c:1760-2097, 2482-2654)
    without core locking: waiters put a select_cb on a shared list, register with each socket and look at the
    sockets once more before they block; an event walks the list, dropping the protection at every element
    and starting over when select_cb_ctr shows that the list has changed.  One action is one protected
    section (or one step of local computation). */
module SelectWakeup {
  type Id = nat

  datatype Kind = Read | Write | Except

  /** rcvevent, sendevent, errevent and select_waiting of a socket. */
  datatype Sock = Sock(rcvevent: int, sendevent: bool, errevent: bool, waiting: nat)

  /** select_waiting is a u8_t (SELWAIT_T). */
  const MAX_WAITING: nat := 255

  predicate Ready(k: Sock, kind: Kind) {
    match kind
    case Read => k.rcvevent > 0
    case Write => k.sendevent
    case Except => k.errevent
  }

  /** Where a call of lwip_select stands, from lwip_link_select_cb to lwip_unlink_select_cb. */
  datatype Pc =
    | Register(i: nat)               // incrementing select_waiting, fds below i done
    | Scan(i: nat, found: bool)      // second lwip_selscan, fds below i done
    | Blocked                        // in sys_arch_sem_wait
    | Leave(i: nat, upto: nat)       // decrementing select_waiting, fds i..upto left

  /** A select call with its select_cb: the three fd sets, maxfdp1, sem_signalled and the semaphore. */
  datatype Waiter = Waiter(readset: set<nat>, writeset: set<nat>, exceptset: set<nat>, maxfd: nat,
                           pc: Pc, signalled: bool, sem: nat)

  predicate Wants(w: Waiter, i: nat, kind: Kind) {
    match kind
    case Read => i in w.readset
    case Write => i in w.writeset
    case Except => i in w.exceptset
  }

  predicate Interested(w: Waiter, i: nat) {
    i in w.readset || i in w.writeset || i in w.exceptset
  }

  /** Whether the call has counted itself in select_waiting of socket i. */
  predicate Registered(w: Waiter, i: nat) {
    Interested(w, i) &&
    match w.pc
    case Register(k) => i < k
    case Scan(_, _) => i < w.maxfd
    case Blocked => i < w.maxfd
    case Leave(k, upto) => k <= i < upto
  }

  /** Whether the second scan has already passed socket i, so that only an event can report it. */
  predicate Relies(w: Waiter, i: nat) {
    match w.pc
    case Scan(k, found) => !found && i < k && i < w.maxfd
    case Blocked => i < w.maxfd
    case _ => false
  }

  /** Where select_check_waiters stands: before `again:`, or past element `cb` with the counter it saw. */
  datatype Pos = Start | At(cb: Id, last: nat)

  /** An event_callback inside select_check_waiters: its socket, and the events it saved. */
  datatype Walker = Walker(s: nat, recv: bool, send: bool, err: bool, pos: Pos)

  predicate Has(e: Walker, kind: Kind) {
    match kind
    case Read => e.recv
    case Write => e.send
    case Except => e.err
  }

  /** do_signal for one select_cb. */
  predicate Matches(e: Walker, w: Waiter) {
    (e.recv && e.s in w.readset) || (e.send && e.s in w.writeset) || (e.err && e.s in w.exceptset)
  }

  /** `list` is select_cb_list from its head, `ctr` is select_cb_ctr. */
  datatype State = State(socks: seq<Sock>, waiters: map<Id, Waiter>, list: seq<Id>, ctr: nat,
                         walkers: map<Id, Walker>)

  datatype Event = RcvPlus | RcvMinus | SendPlus | SendMinus | Error

  datatype Action =
    | Link(w: Id, readset: set<nat>, writeset: set<nat>, exceptset: set<nat>, maxfd: nat)
    | RegisterNext(w: Id, open: bool)
    | ScanNext(w: Id, open: bool, lastdata: bool)
    | Wake(w: Id)
    | Timeout(w: Id)
    | LeaveNext(w: Id)
    | Unlink(w: Id)
    | Signal(e: Id, s: nat, evt: Event)
    | Walk(e: Id)

  // ---------------------------------------------------------------- the sections

  /** What event_callback does to the socket, and check_waiters. */
  function SetEvent(k: Sock, evt: Event): (Sock, bool) {
    match evt
    case RcvPlus => (k.(rcvevent := k.rcvevent + 1), k.rcvevent + 1 <= 1)
    case RcvMinus => (k.(rcvevent := k.rcvevent - 1), false)
    case SendPlus => (k.(sendevent := true), !k.sendevent)
    case SendMinus => (k.(sendevent := false), false)
    case Error => (k.(errevent := true), true)
  }

  /** The elements of the list behind `cb`. */
  function Suffix(list: seq<Id>, cb: Id): seq<Id> {
    if list == [] then [] else if list[0] == cb then list[1..] else Suffix(list[1..], cb)
  }

  /** The elements still to be visited when the walker next gets the protection. */
  function ToVisit(st: State, e: Walker): seq<Id> {
    if e.pos.Start? || e.pos.last != st.ctr then st.list else Suffix(st.list, e.pos.cb)
  }

  function SignalOne(w: Waiter, e: Walker): Waiter {
    if !w.signalled && Matches(e, w) then w.(signalled := true, sem := w.sem + 1) else w
  }

  function SetPc(st: State, w: Id, pc: Pc): State
    requires w in st.waiters
  {
    st.(waiters := st.waiters[w := st.waiters[w].(pc := pc)])
  }

  function AddWaiting(st: State, i: nat, d: int): State
    requires i < |st.socks| && st.socks[i].waiting + d >= 0
  {
    st.(socks := st.socks[i := st.socks[i].(waiting := st.socks[i].waiting + d)])
  }

  ghost predicate Enabled(st: State, a: Action) {
    match a
    case Link(w, rd, wr, ex, maxfd) => w !in st.waiters && maxfd <= |st.socks|
    case RegisterNext(w, _) => w in st.waiters && st.waiters[w].pc.Register? && st.waiters[w].maxfd <= |st.socks|
    case ScanNext(w, _, _) => w in st.waiters && st.waiters[w].pc.Scan? && st.waiters[w].maxfd <= |st.socks|
    case Wake(w) => w in st.waiters && st.waiters[w].pc.Blocked? && st.waiters[w].sem > 0
    case Timeout(w) => w in st.waiters && st.waiters[w].pc.Blocked?
    case LeaveNext(w) =>
      w in st.waiters && st.waiters[w].pc.Leave? && st.waiters[w].pc.i < st.waiters[w].pc.upto <= |st.socks|
    case Unlink(w) => w in st.waiters && st.waiters[w].pc.Leave? && st.waiters[w].pc.i >= st.waiters[w].pc.upto
    case Signal(e, s, _) => e !in st.walkers && s < |st.socks|
    case Walk(e) =>
      e in st.walkers && (ToVisit(st, st.walkers[e]) != [] ==> ToVisit(st, st.walkers[e])[0] in st.waiters)
  }

  /** One round of the registration loop; `open` tells whether the socket could be referenced. */
  function RegisterPc(w: Waiter, socks: seq<Sock>, open: bool): Pc
    requires w.pc.Register? && w.maxfd <= |socks|
  {
    var i := w.pc.i;
    if i >= w.maxfd then Scan(0, false)
    else if !Interested(w, i) then Register(i + 1)
    else if !open || socks[i].waiting + 1 > MAX_WAITING then Leave(0, i)
    else Register(i + 1)
  }

  function DoRegister(st: State, id: Id, open: bool): State
    requires id in st.waiters && st.waiters[id].pc.Register? && st.waiters[id].maxfd <= |st.socks|
  {
    var w := st.waiters[id];
    var i := w.pc.i;
    var pc := RegisterPc(w, st.socks, open);
    if i < w.maxfd && Interested(w, i) && pc.Register? then SetPc(AddWaiting(st, i, 1), id, pc)
    else SetPc(st, id, pc)
  }

  /** One round of lwip_selscan; `lastdata` tells whether the socket holds data from an earlier read. */
  function ScanPc(w: Waiter, socks: seq<Sock>, open: bool, lastdata: bool): Pc
    requires w.pc.Scan? && w.maxfd <= |socks|
  {
    var i := w.pc.i;
    if i >= w.maxfd then (if w.pc.found then Leave(0, w.maxfd) else Blocked)
    else if !Interested(w, i) then Scan(i + 1, w.pc.found)
    else if !open then Leave(0, w.maxfd)
    else
      var hit := || (i in w.readset && (lastdata || socks[i].rcvevent > 0))
                 || (i in w.writeset && socks[i].sendevent)
                 || (i in w.exceptset && socks[i].errevent);
      Scan(i + 1, w.pc.found || hit)
  }

  function DoScan(st: State, id: Id, open: bool, lastdata: bool): State
    requires id in st.waiters && st.waiters[id].pc.Scan? && st.waiters[id].maxfd <= |st.socks|
  {
    SetPc(st, id, ScanPc(st.waiters[id], st.socks, open, lastdata))
  }

  function DoLeave(st: State, id: Id): State
    requires id in st.waiters && st.waiters[id].pc.Leave? && st.waiters[id].pc.i < |st.socks|
  {
    var w := st.waiters[id];
    var i := w.pc.i;
    var st1 := if Interested(w, i) && st.socks[i].waiting > 0 then AddWaiting(st, i, -1) else st;
    SetPc(st1, id, Leave(i + 1, w.pc.upto))
  }

  function Remove(list: seq<Id>, w: Id): seq<Id> {
    if list == [] then [] else if list[0] == w then list[1..] else [list[0]] + Remove(list[1..], w)
  }

  function DoSignal(st: State, id: Id, s: nat, evt: Event): State
    requires s < |st.socks|
  {
    var (k, check) := SetEvent(st.socks[s], evt);
    var st1 := st.(socks := st.socks[s := k]);
    if k.waiting > 0 && check then
      st1.(walkers := st.walkers[id := Walker(s, k.rcvevent > 0, k.sendevent, k.errevent, Start)])
    else st1
  }

  /** One protected section of select_check_waiters: visit the next element, or leave. */
  function DoWalk(st: State, id: Id): State
    requires id in st.walkers
    requires ToVisit(st, st.walkers[id]) != [] ==> ToVisit(st, st.walkers[id])[0] in st.waiters
  {
    var e := st.walkers[id];
    var rest := ToVisit(st, e);
    if rest == [] then st.(walkers := st.walkers - {id})
    else st.(waiters := st.waiters[rest[0] := SignalOne(st.waiters[rest[0]], e)],
             walkers := st.walkers[id := e.(pos := At(rest[0], st.ctr))])
  }

  ghost function Apply(st: State, a: Action): State
    requires Enabled(st, a)
  {
    match a
    case Link(w, rd, wr, ex, maxfd) =>
      st.(waiters := st.waiters[w := Waiter(rd, wr, ex, maxfd, Register(0), false, 0)],
          list := [w] + st.list, ctr := st.ctr + 1)
    case RegisterNext(w, open) => DoRegister(st, w, open)
    case ScanNext(w, open, lastdata) => DoScan(st, w, open, lastdata)
    case Wake(w) =>
      var x := st.waiters[w];
      st.(waiters := st.waiters[w := x.(sem := x.sem - 1, pc := Leave(0, x.maxfd))])
    case Timeout(w) => SetPc(st, w, Leave(0, st.waiters[w].maxfd))
    case LeaveNext(w) => DoLeave(st, w)
    case Unlink(w) => st.(waiters := st.waiters - {w}, list := Remove(st.list, w), ctr := st.ctr + 1)
    case Signal(e, s, evt) => DoSignal(st, e, s, evt)
    case Walk(e) => DoWalk(st, e)
  }

  ghost predicate Step(st: State, a: Action, st': State) {
    Enabled(st, a) && st' == Apply(st, a)
  }

  // ---------------------------------------------------------------- the invariant

  ghost predicate Distinct(list: seq<Id>) {
    forall i, j :: 0 <= i < j < |list| ==> list[i] != list[j]
  }

  ghost function RegSet(st: State, i: nat): set<Id> {
    set w | w in st.waiters && Registered(st.waiters[w], i)
  }

  ghost predicate WaiterOk(st: State, w: Waiter) {
    && w.maxfd <= |st.socks|
    && (w.pc.Register? ==> w.pc.i <= w.maxfd)
    && (w.pc.Scan? ==> w.pc.i <= w.maxfd)
    && (w.pc.Leave? ==> w.pc.upto <= w.maxfd)
    && w.sem <= 1
    && (!w.signalled ==> w.sem == 0)
    && (w.signalled && !w.pc.Leave? ==> w.sem == 1)
  }

  /** Walker `e` has yet to visit `w`, for an event of this kind on socket i. */
  ghost predicate Coming(st: State, e: Id, w: Id, i: nat, kind: Kind) {
    e in st.walkers && st.walkers[e].s == i && Has(st.walkers[e], kind) && w in ToVisit(st, st.walkers[e])
  }

  /** No lost wake-up: an unsignalled waiter that relies on events for socket i, which is ready, has a
      walker coming. */
  ghost predicate Covered(st: State, w: Id, i: nat, kind: Kind)
    requires w in st.waiters
  {
    Relies(st.waiters[w], i) && i < |st.socks| && !st.waiters[w].signalled &&
    Wants(st.waiters[w], i, kind) && Ready(st.socks[i], kind)
    ==> exists e :: Coming(st, e, w, i, kind)
  }

  ghost predicate ListOk(st: State) {
    Distinct(st.list) && (forall w :: w in st.list <==> w in st.waiters)
  }

  ghost predicate WaitersOk(st: State) {
    forall w :: w in st.waiters ==> WaiterOk(st, st.waiters[w])
  }

  /** select_waiting counts the calls registered with the socket. */
  ghost predicate CountsOk(st: State) {
    forall i :: 0 <= i < |st.socks| ==> st.socks[i].waiting == |RegSet(st, i)|
  }

  ghost predicate WalkersOk(st: State) {
    forall e :: e in st.walkers && st.walkers[e].pos.At? ==> st.walkers[e].pos.last <= st.ctr
  }

  ghost predicate NoLostWakeup(st: State) {
    forall w, i, kind :: w in st.waiters ==> Covered(st, w, i, kind)
  }

  ghost predicate Inv(st: State) {
    ListOk(st) && WaitersOk(st) && CountsOk(st) && WalkersOk(st) && NoLostWakeup(st)
  }

  // ---------------------------------------------------------------- steps of a select call

  /** Only the call `w` moved: same list, same walkers, same events on every socket. */
  ghost predicate OnlyWaiterMoved(st: State, st': State, w: Id) {
    && w in st.waiters && w in st'.waiters
    && st'.waiters == st.waiters[w := st'.waiters[w]]
    && st'.list == st.list && st'.ctr == st.ctr && st'.walkers == st.walkers
    && |st'.socks| == |st.socks|
    && (forall i :: 0 <= i < |st.socks| ==> st'.socks[i] == st.socks[i].(waiting := st'.socks[i].waiting))
  }

  /** The moved call relies on events for a further socket only if nothing it wants is ready there. */
  ghost predicate ReliesSafely(socks: seq<Sock>, x: Waiter, x': Waiter) {
    && x'.signalled == x.signalled
    && x'.readset == x.readset && x'.writeset == x.writeset && x'.exceptset == x.exceptset
    && (forall i: nat, kind :: i < |socks| && Relies(x', i) && Wants(x, i, kind) && Ready(socks[i], kind) ==>
          Relies(x, i))
  }

  lemma MovedCovered(st: State, st': State, w: Id, v: Id, i: nat, kind: Kind)
    requires NoLostWakeup(st) && OnlyWaiterMoved(st, st', w) && ReliesSafely(st.socks, st.waiters[w], st'.waiters[w])
    requires v in st'.waiters
    ensures Covered(st', v, i, kind)
  {
    var x, x' := st.waiters[v], st'.waiters[v];
    assert Covered(st, v, i, kind);
    if Relies(x', i) && i < |st'.socks| && !x'.signalled && Wants(x', i, kind) && Ready(st'.socks[i], kind) {
      assert Wants(x, i, kind) && Ready(st.socks[i], kind);
      assert Relies(x, i);
      var e :| Coming(st, e, v, i, kind);
      assert Coming(st', e, v, i, kind);
    }
  }

  lemma CountWithout(xs: set<Id>, x: Id)
    ensures |xs| == |xs - {x}| + (if x in xs then 1 else 0)
  {
    if x in xs { assert xs == (xs - {x}) + {x}; } else { assert xs - {x} == xs; }
  }

  lemma MovedRegSet(st: State, st': State, w: Id, i: nat)
    requires OnlyWaiterMoved(st, st', w)
    ensures |RegSet(st', i)| == |RegSet(st, i)|
              + (if Registered(st'.waiters[w], i) then 1 else 0) - (if Registered(st.waiters[w], i) then 1 else 0)
  {
    CountWithout(RegSet(st, i), w);
    CountWithout(RegSet(st', i), w);
    assert RegSet(st', i) - {w} == RegSet(st, i) - {w};
  }

  /** select_waiting of socket i changed by as much as the call's own registration did. */
  ghost predicate CountMoved(st: State, st': State, w: Id, i: nat)
    requires i < |st.socks| && i < |st'.socks| && w in st.waiters && w in st'.waiters
  {
    st'.socks[i].waiting == st.socks[i].waiting
      + (if Registered(st'.waiters[w], i) then 1 else 0) - (if Registered(st.waiters[w], i) then 1 else 0)
  }

  lemma MovedKeeps(st: State, st': State, w: Id)
    requires Inv(st) && OnlyWaiterMoved(st, st', w) && ReliesSafely(st.socks, st.waiters[w], st'.waiters[w])
    requires WaiterOk(st', st'.waiters[w])
    requires forall i :: 0 <= i < |st.socks| ==> CountMoved(st, st', w, i)
    ensures Inv(st')
  {
    forall v, i, kind | v in st'.waiters ensures Covered(st', v, i, kind) {
      MovedCovered(st, st', w, v, i, kind);
    }
    forall i | 0 <= i < |st'.socks| ensures st'.socks[i].waiting == |RegSet(st', i)| {
      assert CountMoved(st, st', w, i);
      MovedRegSet(st, st', w, i);
    }
    forall v | v in st'.waiters ensures WaiterOk(st', st'.waiters[v]) {
      assert v != w ==> WaiterOk(st, st.waiters[v]);
    }
  }

  lemma RegisterPcOk(x: Waiter, socks: seq<Sock>, open: bool, i: nat)
    requires x.pc.Register? && x.pc.i <= x.maxfd <= |socks|
    ensures var x' := x.(pc := RegisterPc(x, socks, open));
      && !Relies(x', i)
      && (Registered(x', i) <==> Registered(x, i) || (i == x.pc.i < x.maxfd && x'.pc.Register? && Interested(x, i)))
  {
  }

  lemma RegisterKeeps(st: State, w: Id, open: bool)
    requires Inv(st) && Enabled(st, RegisterNext(w, open))
    ensures Inv(DoRegister(st, w, open))
  {
    var x := st.waiters[w];
    assert WaiterOk(st, x);
    var st' := DoRegister(st, w, open);
    forall i: nat ensures !Relies(st'.waiters[w], i) { RegisterPcOk(x, st.socks, open, i); }
    forall i | 0 <= i < |st.socks| ensures CountMoved(st, st', w, i) { RegisterPcOk(x, st.socks, open, i); }
    MovedKeeps(st, st', w);
  }

  lemma ScanPcOk(x: Waiter, socks: seq<Sock>, open: bool, lastdata: bool, i: nat)
    requires x.pc.Scan? && x.pc.i <= x.maxfd <= |socks|
    ensures Registered(x.(pc := ScanPc(x, socks, open, lastdata)), i) <==> Registered(x, i)
  {
  }

  /** The second scan goes past a socket without noticing anything only if nothing wanted is ready there. */
  lemma ScanPcRelies(x: Waiter, socks: seq<Sock>, open: bool, lastdata: bool, i: nat, kind: Kind)
    requires x.pc.Scan? && x.pc.i <= x.maxfd <= |socks| && i < |socks|
    requires Relies(x.(pc := ScanPc(x, socks, open, lastdata)), i) && Wants(x, i, kind) && Ready(socks[i], kind)
    ensures Relies(x, i)
  {
  }

  lemma ScanKeeps(st: State, w: Id, open: bool, lastdata: bool)
    requires Inv(st) && Enabled(st, ScanNext(w, open, lastdata))
    ensures Inv(DoScan(st, w, open, lastdata))
  {
    var x := st.waiters[w];
    assert WaiterOk(st, x);
    var st' := DoScan(st, w, open, lastdata);
    var x' := st'.waiters[w];
    forall i | 0 <= i < |st.socks| ensures CountMoved(st, st', w, i) { ScanPcOk(x, st.socks, open, lastdata, i); }
    forall i: nat, kind | i < |st.socks| && Relies(x', i) && Wants(x, i, kind) && Ready(st.socks[i], kind)
      ensures Relies(x, i)
    {
      ScanPcRelies(x, st.socks, open, lastdata, i, kind);
    }
    MovedKeeps(st, st', w);
  }

  lemma WakeKeeps(st: State, w: Id)
    requires Inv(st) && w in st.waiters && st.waiters[w].pc.Blocked?
    ensures st.waiters[w].sem > 0 ==> Inv(Apply(st, Wake(w)))
    ensures Inv(Apply(st, Timeout(w)))
  {
    assert WaiterOk(st, st.waiters[w]);
    MovedKeeps(st, Apply(st, Timeout(w)), w);
    if st.waiters[w].sem > 0 { MovedKeeps(st, Apply(st, Wake(w)), w); }
  }

  lemma LeaveKeeps(st: State, w: Id)
    requires Inv(st) && Enabled(st, LeaveNext(w))
    ensures Inv(DoLeave(st, w))
  {
    assert WaiterOk(st, st.waiters[w]);
    var i := st.waiters[w].pc.i;
    if Interested(st.waiters[w], i) { assert w in RegSet(st, i); }
    MovedKeeps(st, DoLeave(st, w), w);
  }

  // ---------------------------------------------------------------- steps of the list

  lemma {:induction false} RemoveOk(list: seq<Id>, w: Id)
    requires Distinct(list)
    ensures Distinct(Remove(list, w))
    ensures forall v :: v in Remove(list, w) <==> v in list && v != w
  {
    if list != [] {
      assert forall v :: v in list <==> v == list[0] || v in list[1..];
      if list[0] != w {
        RemoveOk(list[1..], w);
        var r := Remove(list[1..], w);
        assert Remove(list, w) == [list[0]] + r;
        assert list[0] !in r;
        assert forall v :: v in [list[0]] + r <==> v == list[0] || v in r;
      }
    }
  }

  /** When the list changes, every walker starts over, so whoever was coming still is. */
  lemma ListChangeCovered(st: State, st': State, v: Id, i: nat, kind: Kind)
    requires WalkersOk(st) && Covered0(st, v, i, kind) && v in st'.waiters && v in st'.list
    requires v in st.waiters && st'.waiters[v] == st.waiters[v]
    requires st'.ctr == st.ctr + 1 && st'.walkers == st.walkers && st'.socks == st.socks
    ensures Covered(st', v, i, kind)
  {
    if Relies(st.waiters[v], i) && i < |st.socks| && !st.waiters[v].signalled &&
       Wants(st.waiters[v], i, kind) && Ready(st.socks[i], kind)
    {
      var e :| Coming(st, e, v, i, kind);
      assert Coming(st', e, v, i, kind);
    }
  }

  ghost predicate Covered0(st: State, w: Id, i: nat, kind: Kind) {
    w in st.waiters && Covered(st, w, i, kind)
  }

  lemma LinkKeeps(st: State, a: Action)
    requires Inv(st) && a.Link? && Enabled(st, a)
    ensures Inv(Apply(st, a))
  {
    var st' := Apply(st, a);
    forall i | 0 <= i < |st'.socks| ensures st'.socks[i].waiting == |RegSet(st', i)| {
      assert RegSet(st', i) == RegSet(st, i);
    }
    forall v, i, kind | v in st'.waiters ensures Covered(st', v, i, kind) {
      if v != a.w {
        assert Covered(st, v, i, kind);
        ListChangeCovered(st, st', v, i, kind);
      }
    }
    assert forall v :: v in [a.w] + st.list <==> v == a.w || v in st.list;
    forall v | v in st'.waiters ensures WaiterOk(st', st'.waiters[v]) {
      assert v != a.w ==> WaiterOk(st, st.waiters[v]);
    }
  }

  lemma UnlinkKeeps(st: State, w: Id)
    requires Inv(st) && Enabled(st, Unlink(w))
    ensures Inv(Apply(st, Unlink(w)))
  {
    var st' := Apply(st, Unlink(w));
    RemoveOk(st.list, w);
    forall i | 0 <= i < |st'.socks| ensures st'.socks[i].waiting == |RegSet(st', i)| {
      assert RegSet(st', i) == RegSet(st, i);
    }
    forall v, i, kind | v in st'.waiters ensures Covered(st', v, i, kind) {
      assert Covered(st, v, i, kind);
      ListChangeCovered(st, st', v, i, kind);
    }
    forall v | v in st'.waiters ensures WaiterOk(st', st'.waiters[v]) {
      assert WaiterOk(st, st.waiters[v]);
    }
  }

  // ---------------------------------------------------------------- steps of an event

  /** An event either leaves the readiness of a kind no greater, or saves it and asks for a walk. */
  lemma SetEventAsks(k: Sock, evt: Event, kind: Kind)
    ensures var (k', check) := SetEvent(k, evt);
      && k'.waiting == k.waiting
      && (Ready(k', kind) ==> Ready(k, kind) || check)
      && (Has(Walker(0, k'.rcvevent > 0, k'.sendevent, k'.errevent, Start), kind) <==> Ready(k', kind))
  {
  }

  lemma RelyingIsRegistered(st: State, w: Id, i: nat, kind: Kind)
    requires WaitersOk(st) && CountsOk(st) && w in st.waiters && i < |st.socks|
    requires Relies(st.waiters[w], i) && Wants(st.waiters[w], i, kind)
    ensures st.socks[i].waiting > 0
  {
    assert w in RegSet(st, i);
  }

  lemma SignalCovered(st: State, id: Id, s: nat, evt: Event, w: Id, i: nat, kind: Kind)
    requires Inv(st) && Enabled(st, Signal(id, s, evt)) && w in st.waiters
    ensures Covered(DoSignal(st, id, s, evt), w, i, kind)
  {
    var st' := DoSignal(st, id, s, evt);
    var x := st.waiters[w];
    if Relies(x, i) && i < |st'.socks| && !x.signalled && Wants(x, i, kind) && Ready(st'.socks[i], kind) {
      RelyingIsRegistered(st, w, i, kind);
      SetEventAsks(st.socks[s], evt, kind);
      assert Covered(st, w, i, kind);
      if Ready(st.socks[i], kind) {
        var e :| Coming(st, e, w, i, kind);
        assert Coming(st', e, w, i, kind);
      } else {
        assert w in st.list;
        assert Coming(st', id, w, i, kind);
      }
    }
  }

  lemma SignalKeeps(st: State, id: Id, s: nat, evt: Event)
    requires Inv(st) && Enabled(st, Signal(id, s, evt))
    ensures Inv(DoSignal(st, id, s, evt))
  {
    var st' := DoSignal(st, id, s, evt);
    SetEventAsks(st.socks[s], evt, Read);
    forall i | 0 <= i < |st'.socks| ensures st'.socks[i].waiting == |RegSet(st', i)| {
      assert RegSet(st', i) == RegSet(st, i);
    }
    forall w, i, kind | w in st'.waiters ensures Covered(st', w, i, kind) {
      SignalCovered(st, id, s, evt, w, i, kind);
    }
    forall v | v in st'.waiters ensures WaiterOk(st', st'.waiters[v]) {
      assert WaiterOk(st, st.waiters[v]);
    }
  }

  // ---------------------------------------------------------------- steps of a walk

  /** Having visited the first element of what lies behind `cb`, what remains is what lies behind that. */
  lemma {:induction false} SuffixOfFirst(list: seq<Id>, cb: Id)
    requires Distinct(list) && Suffix(list, cb) != []
    ensures Suffix(list, Suffix(list, cb)[0]) == Suffix(list, cb)[1..]
    ensures Suffix(list, cb)[0] in list
  {
    if list[0] == cb {
      assert list[1] != list[0];
      assert Suffix(list, list[1]) == Suffix(list[1..], list[1]);
    } else {
      SuffixOfFirst(list[1..], cb);
      var h := Suffix(list, cb)[0];
      assert h in list[1..];
      assert h != list[0];
    }
  }

  lemma ToVisitInList(st: State, e: Walker)
    requires ListOk(st) && ToVisit(st, e) != []
    ensures ToVisit(st, e)[0] in st.list
    ensures Suffix(st.list, ToVisit(st, e)[0]) == ToVisit(st, e)[1..]
  {
    if ToVisit(st, e) == st.list {
      assert Suffix(st.list, st.list[0]) == st.list[1..];
    } else {
      SuffixOfFirst(st.list, e.pos.cb);
    }
  }

  lemma MatchesIfHas(e: Walker, w: Waiter, kind: Kind)
    requires Has(e, kind) && Wants(w, e.s, kind)
    ensures Matches(e, w)
  {
  }

  /** A walker that was coming for `w` has now signalled it, or is still coming. */
  lemma WalkCovered(st: State, id: Id, w: Id, i: nat, kind: Kind)
    requires Inv(st) && Enabled(st, Walk(id)) && w in st.waiters
    ensures Covered(DoWalk(st, id), w, i, kind)
  {
    var st' := DoWalk(st, id);
    var e := st.walkers[id];
    var rest := ToVisit(st, e);
    var x := st'.waiters[w];
    if Relies(x, i) && i < |st'.socks| && !x.signalled && Wants(x, i, kind) && Ready(st'.socks[i], kind) {
      assert Covered(st, w, i, kind);
      var o :| Coming(st, o, w, i, kind);
      if o != id {
        assert Coming(st', o, w, i, kind);
      } else {
        ToVisitInList(st, e);
        MatchesIfHas(e, st.waiters[w], kind);
        assert w != rest[0];
        assert w in rest[1..];
        assert Coming(st', id, w, i, kind);
      }
    }
  }

  lemma WalkKeeps(st: State, id: Id)
    requires Inv(st) && Enabled(st, Walk(id))
    ensures Inv(DoWalk(st, id))
  {
    var st' := DoWalk(st, id);
    forall i | 0 <= i < |st'.socks| ensures st'.socks[i].waiting == |RegSet(st', i)| {
      assert RegSet(st', i) == RegSet(st, i);
    }
    forall w, i, kind | w in st'.waiters ensures Covered(st', w, i, kind) {
      WalkCovered(st, id, w, i, kind);
    }
    forall v | v in st'.waiters ensures WaiterOk(st', st'.waiters[v]) {
      assert WaiterOk(st, st.waiters[v]);
    }
  }

  lemma StepKeeps(st: State, a: Action, st': State)
    requires Inv(st) && Step(st, a, st')
    ensures Inv(st')
  {
    match a
    case Link(_, _, _, _, _) => LinkKeeps(st, a);
    case RegisterNext(w, open) => RegisterKeeps(st, w, open);
    case ScanNext(w, open, lastdata) => ScanKeeps(st, w, open, lastdata);
    case Wake(w) => WakeKeeps(st, w);
    case Timeout(w) => WakeKeeps(st, w);
    case LeaveNext(w) => LeaveKeeps(st, w);
    case Unlink(w) => UnlinkKeeps(st, w);
    case Signal(e, s, evt) => SignalKeeps(st, e, s, evt);
    case Walk(e) => WalkKeeps(st, e);
  }

  // ---------------------------------------------------------------- whole runs

  ghost predicate Initial(st: State) {
    && st.waiters == map[] && st.list == [] && st.walkers == map[]
    && (forall i :: 0 <= i < |st.socks| ==> st.socks[i].waiting == 0)
  }

  ghost predicate Run(states: seq<State>, actions: seq<Action>) {
    && |states| == |actions| + 1
    && Initial(states[0])
    && (forall i :: 0 <= i < |actions| ==> Step(states[i], actions[i], states[i + 1]))
  }

  lemma {:induction false} EveryRunKeepsInv(states: seq<State>, actions: seq<Action>, n: nat)
    requires Run(states, actions) && n < |states|
    ensures Inv(states[n])
  {
    if n == 0 {
      var st := states[0];
      forall i | 0 <= i < |st.socks| ensures st.socks[i].waiting == |RegSet(st, i)| {
        assert RegSet(st, i) == {};
      }
    } else {
      var k := n - 1;
      EveryRunKeepsInv(states, actions, k);
      assert Step(states[k], actions[k], states[k + 1]);
      StepKeeps(states[k], actions[k], states[k + 1]);
    }
  }

  /** No lost wake-up: in every state of every interleaving, a call that blocks while something it waits for
      is ready has its semaphore signalled, or an event still on its way through the list will reach it.
      In particular, when no event is being processed, its semaphore is signalled. */
  lemma BlockedIsWoken(states: seq<State>, actions: seq<Action>, n: nat, w: Id, i: nat, kind: Kind)
    requires Run(states, actions) && n < |states|
    requires w in states[n].waiters && states[n].waiters[w].pc.Blocked?
    requires i < states[n].waiters[w].maxfd && Wants(states[n].waiters[w], i, kind)
    ensures i < |states[n].socks|
    ensures Ready(states[n].socks[i], kind) ==>
      || states[n].waiters[w].sem == 1
      || (exists e :: Coming(states[n], e, w, i, kind))
    ensures Ready(states[n].socks[i], kind) && states[n].walkers == map[] ==> states[n].waiters[w].sem == 1
  {
    EveryRunKeepsInv(states, actions, n);
    assert WaiterOk(states[n], states[n].waiters[w]);
    assert Covered(states[n], w, i, kind);
  }

  /** How many more elements a walker visits up to and including `w`. */
  ghost function Distance(list: seq<Id>, w: Id): nat {
    if list == [] || list[0] == w then 1 else 1 + Distance(list[1..], w)
  }

  /** Each section of a walker that is coming for `w` signals it (unless it already was) or brings the
      walker strictly closer. */
  lemma WalkApproaches(states: seq<State>, actions: seq<Action>, n: nat, w: Id, i: nat, kind: Kind)
    requires Run(states, actions) && n < |actions| && actions[n].Walk?
    requires Coming(states[n], actions[n].e, w, i, kind) && w in states[n].waiters
    requires Wants(states[n].waiters[w], i, kind)
    ensures w in states[n + 1].waiters
    ensures states[n + 1].waiters[w].signalled ||
      (Coming(states[n + 1], actions[n].e, w, i, kind) &&
       Distance(ToVisit(states[n + 1], states[n + 1].walkers[actions[n].e]), w)
         < Distance(ToVisit(states[n], states[n].walkers[actions[n].e]), w))
  {
    EveryRunKeepsInv(states, actions, n);
    var st, id := states[n], actions[n].e;
    assert Step(st, actions[n], states[n + 1]);
    var e := st.walkers[id];
    ToVisitInList(st, e);
    var rest := ToVisit(st, e);
    MatchesIfHas(e, st.waiters[w], kind);
    if rest[0] != w {
      assert w in rest[1..];
    }
  }

  /** Nothing but a change of the list sets a walker back. */
  lemma OthersDoNotDelay(st: State, a: Action, st': State, e: Id)
    requires Inv(st) && Step(st, a, st') && !a.Link? && !a.Unlink? && a != Walk(e) && e in st.walkers
    ensures e in st'.walkers && st'.walkers[e] == st.walkers[e]
    ensures ToVisit(st', st'.walkers[e]) == ToVisit(st, st.walkers[e])
  {
  }

  // ---------------------------------------------------------------- an event's own walk

  /** Event `e` has signalled the waiter `w`, or is still on its way to it. */
  ghost predicate Attended(st: State, e: Id, w: Id, i: nat, kind: Kind) {
    && w in st.waiters && Wants(st.waiters[w], i, kind)
    && (st.waiters[w].signalled || Coming(st, e, w, i, kind))
  }

  lemma ListChangeAttended(st: State, st': State, e: Id, w: Id, i: nat, kind: Kind)
    requires WalkersOk(st) && ListOk(st') && Attended(st, e, w, i, kind) && w in st'.waiters
    requires st'.waiters[w] == st.waiters[w] && st'.walkers == st.walkers && st'.ctr == st.ctr + 1
    ensures Attended(st', e, w, i, kind)
  {
    if !st.waiters[w].signalled {
      assert ToVisit(st', st'.walkers[e]) == st'.list;
    }
  }

  lemma WalkAttended(st: State, id: Id, e: Id, w: Id, i: nat, kind: Kind)
    requires Inv(st) && Enabled(st, Walk(id)) && Attended(st, e, w, i, kind)
    ensures Attended(DoWalk(st, id), e, w, i, kind)
  {
    if !st.waiters[w].signalled && e == id {
      var rest := ToVisit(st, st.walkers[e]);
      ToVisitInList(st, st.walkers[e]);
      MatchesIfHas(st.walkers[e], st.waiters[w], kind);
      assert w != rest[0] ==> w in rest[1..];
    }
  }

  lemma OtherAttended(st: State, a: Action, st': State, e: Id, w: Id, i: nat, kind: Kind)
    requires Inv(st) && Step(st, a, st') && !a.Walk? && !a.Link? && !a.Unlink? && Attended(st, e, w, i, kind)
    ensures Attended(st', e, w, i, kind)
  {
    if !st.waiters[w].signalled { OthersDoNotDelay(st, a, st', e); }
  }

  lemma AttendedStep(st: State, a: Action, st': State, e: Id, w: Id, i: nat, kind: Kind)
    requires Inv(st) && Step(st, a, st') && Attended(st, e, w, i, kind) && w in st'.waiters
    ensures Attended(st', e, w, i, kind)
  {
    if a.Walk? {
      WalkAttended(st, a.e, e, w, i, kind);
    } else if a.Link? || a.Unlink? {
      StepKeeps(st, a, st');
      ListChangeAttended(st, st', e, w, i, kind);
    } else {
      OtherAttended(st, a, st', e, w, i, kind);
    }
  }

  /** The call stays in lwip_select from state n to state m. */
  ghost predicate Stays(states: seq<State>, n: nat, m: nat, w: Id) {
    n <= m < |states| && forall k :: n <= k <= m ==> w in states[k].waiters
  }

  /** An event on its way to a waiter stays on its way until it has signalled it, whatever else happens to the
      socket, to the list and to other calls meanwhile: its walk cannot end before. */
  lemma {:induction false} WalkReachesWaiter(states: seq<State>, actions: seq<Action>, n: nat, m: nat, e: Id, w: Id,
                                             i: nat, kind: Kind)
    requires Run(states, actions) && Stays(states, n, m, w)
    requires Coming(states[n], e, w, i, kind) && Wants(states[n].waiters[w], i, kind)
    ensures Attended(states[m], e, w, i, kind)
    ensures e !in states[m].walkers ==> states[m].waiters[w].signalled
    decreases m
  {
    if n < m {
      var k := m - 1;
      WalkReachesWaiter(states, actions, n, k, e, w, i, kind);
      EveryRunKeepsInv(states, actions, k);
      assert Step(states[k], actions[k], states[k + 1]) && w in states[k + 1].waiters;
      AttendedStep(states[k], actions[k], states[k + 1], e, w, i, kind);
    } else {
      assert w in states[n].waiters;
    }
  }

  /** The event that makes a socket ready that was not: the first data, room to send, or an error. */
  predicate Raises(k: Sock, evt: Event, kind: Kind) {
    match kind
    case Read => evt == RcvPlus && k.rcvevent == 0
    case Write => evt == SendPlus && !k.sendevent
    case Except => evt == Error
  }

  lemma SignalIsComing(st: State, e: Id, evt: Event, w: Id, i: nat, kind: Kind)
    requires Inv(st) && Enabled(st, Signal(e, i, evt)) && w in st.waiters
    requires Relies(st.waiters[w], i) && Wants(st.waiters[w], i, kind) && Raises(st.socks[i], evt, kind)
    ensures Coming(DoSignal(st, e, i, evt), e, w, i, kind)
  {
    RelyingIsRegistered(st, w, i, kind);
    SetEventAsks(st.socks[i], evt, kind);
    assert w in st.list;
  }

  /** No lost wake-up, event by event: the first data to arrive, room to send where there was none, or an error,
      once the second scan of a call has passed that socket, signals that call or is on its way to it for as
      long as the call lasts, even if the data are gone again by then.  Once the event has been handled the call
      is signalled, and if it is blocked its semaphore lets it go on. */
  lemma EventWakesWaiter(states: seq<State>, actions: seq<Action>, n: nat, m: nat, w: Id, kind: Kind)
    requires Run(states, actions) && n < |actions| && actions[n].Signal? && n < m && Stays(states, n, m, w)
    requires Enabled(states[n], actions[n])
    requires Relies(states[n].waiters[w], actions[n].s) && Wants(states[n].waiters[w], actions[n].s, kind)
    requires Raises(states[n].socks[actions[n].s], actions[n].evt, kind)
    ensures Attended(states[m], actions[n].e, w, actions[n].s, kind)
    ensures actions[n].e !in states[m].walkers ==> states[m].waiters[w].signalled
    ensures actions[n].e !in states[m].walkers && states[m].waiters[w].pc.Blocked? ==> Enabled(states[m], Wake(w))
  {
    var e, i := actions[n].e, actions[n].s;
    EveryRunKeepsInv(states, actions, n);
    assert Step(states[n], actions[n], states[n + 1]) && w in states[n].waiters && w in states[n + 1].waiters;
    SignalIsComing(states[n], e, actions[n].evt, w, i, kind);
    WalkReachesWaiter(states, actions, n + 1, m, e, w, i, kind);
    EveryRunKeepsInv(states, actions, m);
    assert w in states[m].waiters;
    assert WaiterOk(states[m], states[m].waiters[w]);
  }

  /** How many of the actions are sections of the walker `e`. */
  function Walks(actions: seq<Action>, e: Id): nat {
    if actions == [] then 0
    else Walks(actions[..|actions| - 1], e) + (if actions[|actions| - 1] == Walk(e) then 1 else 0)
  }

  predicate ListUnchanged(actions: seq<Action>, n: nat, m: nat) {
    m <= |actions| && forall k :: n <= k < m ==> !actions[k].Link? && !actions[k].Unlink?
  }

  lemma WalksSnoc(actions: seq<Action>, e: Id, n: nat, k: nat)
    requires n <= k < |actions|
    ensures Walks(actions[n..k + 1], e) == Walks(actions[n..k], e) + (if actions[k] == Walk(e) then 1 else 0)
  {
    var s := actions[n..k + 1];
    assert s[..|s| - 1] == actions[n..k];
  }

  lemma NearerStep(states: seq<State>, actions: seq<Action>, k: nat, e: Id, w: Id, i: nat, kind: Kind)
    requires Run(states, actions) && k < |actions| && !actions[k].Link? && !actions[k].Unlink?
    requires Coming(states[k], e, w, i, kind) && w in states[k].waiters && Wants(states[k].waiters[w], i, kind)
    requires w in states[k + 1].waiters && !states[k + 1].waiters[w].signalled && Coming(states[k + 1], e, w, i, kind)
    ensures Distance(ToVisit(states[k + 1], states[k + 1].walkers[e]), w) + (if actions[k] == Walk(e) then 1 else 0)
         <= Distance(ToVisit(states[k], states[k].walkers[e]), w)
  {
    if actions[k] == Walk(e) {
      WalkApproaches(states, actions, k, w, i, kind);
    } else {
      EveryRunKeepsInv(states, actions, k);
      assert Step(states[k], actions[k], states[k + 1]);
      OthersDoNotDelay(states[k], actions[k], states[k + 1], e);
    }
  }

  /** While the list does not change, an event needs no more sections than there are elements up to the waiter:
      one that has not signalled it yet has made fewer. */
  lemma {:induction false} WalkEndsInTime(states: seq<State>, actions: seq<Action>, n: nat, m: nat, e: Id, w: Id,
                                          i: nat, kind: Kind)
    requires Run(states, actions) && Stays(states, n, m, w) && ListUnchanged(actions, n, m)
    requires Coming(states[n], e, w, i, kind) && Wants(states[n].waiters[w], i, kind)
    ensures w in states[m].waiters
    ensures !states[m].waiters[w].signalled ==>
      && Coming(states[m], e, w, i, kind)
      && Walks(actions[n..m], e) + Distance(ToVisit(states[m], states[m].walkers[e]), w)
           <= Distance(ToVisit(states[n], states[n].walkers[e]), w)
    decreases m
  {
    WalkReachesWaiter(states, actions, n, m, e, w, i, kind);
    if n < m && !states[m].waiters[w].signalled {
      var k := m - 1;
      WalkReachesWaiter(states, actions, n, k, e, w, i, kind);
      assert Step(states[k], actions[k], states[k + 1]);
      if states[k].waiters[w].signalled { SignalledStays(states[k], actions[k], states[k + 1], w); }
      WalkEndsInTime(states, actions, n, k, e, w, i, kind);
      NearerStep(states, actions, k, e, w, i, kind);
      WalksSnoc(actions, e, n, k);
    } else {
      assert n == m ==> actions[n..m] == [];
    }
  }

  /** How often the list changes. */
  function Changes(actions: seq<Action>): nat {
    if actions == [] then 0
    else Changes(actions[..|actions| - 1]) + ChangeOf(actions[|actions| - 1])
  }

  lemma ChangesSnoc(actions: seq<Action>, n: nat, k: nat)
    requires n <= k < |actions|
    ensures Changes(actions[n..k + 1])
         == Changes(actions[n..k]) + ChangeOf(actions[k])
  {
    var s := actions[n..k + 1];
    assert s[..|s| - 1] == actions[n..k];
  }

  ghost predicate ListsUpTo(states: seq<State>, n: nat, m: nat, longest: nat)
    requires n <= m < |states|
  {
    forall k :: n <= k <= m ==> |states[k].list| <= longest
  }

  lemma {:induction false} DistanceBound(list: seq<Id>, w: Id)
    requires w in list
    ensures 1 <= Distance(list, w) <= |list|
  {
    if list[0] != w { DistanceBound(list[1..], w); }
  }

  lemma {:induction false} SuffixShorter(list: seq<Id>, cb: Id)
    ensures |Suffix(list, cb)| <= |list|
  {
    if list != [] && list[0] != cb { SuffixShorter(list[1..], cb); }
  }

  /** A walker on its way to `w` has at most the whole list before it. */
  lemma ComingIsNear(st: State, e: Id, w: Id, i: nat, kind: Kind)
    requires Coming(st, e, w, i, kind)
    ensures 1 <= Gap(st, e, w) <= |st.list|
  {
    DistanceBound(ToVisit(st, st.walkers[e]), w);
    if st.walkers[e].pos.At? { SuffixShorter(st.list, st.walkers[e].pos.cb); }
  }

  /** With c changes of the list, none of them making it longer than `longest`, an event needs no more than
      c + 1 walks over the list: one that has not signalled its waiter has made fewer sections. */
  lemma WalkEndsDespiteChanges(states: seq<State>, actions: seq<Action>, n: nat, m: nat,
                               e: Id, w: Id, i: nat, kind: Kind, longest: nat)
    requires Run(states, actions) && Stays(states, n, m, w) && ListsUpTo(states, n, m, longest)
    requires Coming(states[n], e, w, i, kind) && Wants(states[n].waiters[w], i, kind)
    ensures w in states[m].waiters
    ensures !states[m].waiters[w].signalled ==>
      Coming(states[m], e, w, i, kind) && Walks(actions[n..m], e) < (Changes(actions[n..m]) + 1) * longest
  {
    WalkReachesWaiter(states, actions, n, m, e, w, i, kind);
    if !states[m].waiters[w].signalled {
      var gaps := seq(|states|, k requires 0 <= k < |states| => GapOr(states[k], e, w));
      forall k | n <= k < m
        ensures gaps[k + 1] + WalkOf(actions[k], e) <= gaps[k] + ChangeOf(actions[k]) * longest
      {
        DelayBetween(states, actions, n, m, k, e, w, i, kind, longest);
      }
      ComingIsNear(states[n], e, w, i, kind);
      ComingIsNear(states[m], e, w, i, kind);
      SumOfDelays(gaps, actions, e, n, m, longest);
    }
  }

  function WalkOf(a: Action, e: Id): nat {
    if a == Walk(e) then 1 else 0
  }

  function ChangeOf(a: Action): nat {
    if a.Link? || a.Unlink? then 1 else 0
  }

  ghost function GapOr(st: State, e: Id, w: Id): nat {
    if e in st.walkers then Gap(st, e, w) else 0
  }

  lemma {:induction false} SumOfDelays(gaps: seq<nat>, actions: seq<Action>, e: Id, n: nat, m: nat, longest: nat)
    requires |gaps| == |actions| + 1 && n <= m < |gaps| && gaps[n] <= longest
    requires forall k :: n <= k < m ==> gaps[k + 1] + WalkOf(actions[k], e) <= gaps[k] + ChangeOf(actions[k]) * longest
    ensures Walks(actions[n..m], e) + gaps[m] <= (Changes(actions[n..m]) + 1) * longest
    decreases m
  {
    if n < m {
      var k := m - 1;
      SumOfDelays(gaps, actions, e, n, k, longest);
      WalksSnoc(actions, e, n, k);
      ChangesSnoc(actions, n, k);
      assert gaps[k + 1] + WalkOf(actions[k], e) <= gaps[k] + ChangeOf(actions[k]) * longest;
      Accumulate(Walks(actions[n..k], e), Changes(actions[n..k]), gaps[k], gaps[k + 1],
                 WalkOf(actions[k], e), ChangeOf(actions[k]), longest);
    } else {
      assert actions[n..m] == [];
    }
  }

  lemma {:induction false} UnsignalledBefore(states: seq<State>, actions: seq<Action>, k: nat, m: nat, w: Id)
    requires Run(states, actions) && Stays(states, k, m, w) && !states[m].waiters[w].signalled
    ensures w in states[k].waiters && !states[k].waiters[w].signalled
    decreases m - k
  {
    if k < m {
      UnsignalledBefore(states, actions, k + 1, m, w);
      StillUnsignalled(states, actions, k, w);
    }
  }

  lemma DelayBetween(states: seq<State>, actions: seq<Action>, n: nat, m: nat, k: nat,
                     e: Id, w: Id, i: nat, kind: Kind, longest: nat)
    requires Run(states, actions) && Stays(states, n, m, w) && ListsUpTo(states, n, m, longest) && n <= k < m
    requires Coming(states[n], e, w, i, kind) && Wants(states[n].waiters[w], i, kind)
    requires !states[m].waiters[w].signalled
    ensures GapOr(states[k + 1], e, w) + WalkOf(actions[k], e)
         <= GapOr(states[k], e, w) + ChangeOf(actions[k]) * longest
  {
    UnsignalledBefore(states, actions, k, m, w);
    UnsignalledBefore(states, actions, k + 1, m, w);
    WalkReachesWaiter(states, actions, n, k, e, w, i, kind);
    WalkReachesWaiter(states, actions, n, k + 1, e, w, i, kind);
    DelayStep(states, actions, k, e, w, i, kind, longest);
  }

  /** How many elements the walker has yet to visit up to `w`. */
  ghost function Gap(st: State, e: Id, w: Id): nat
    requires e in st.walkers
  {
    Distance(ToVisit(st, st.walkers[e]), w)
  }

  lemma DelayStep(states: seq<State>, actions: seq<Action>, k: nat, e: Id, w: Id, i: nat, kind: Kind, longest: nat)
    requires Run(states, actions) && k < |actions| && |states[k + 1].list| <= longest
    requires Coming(states[k], e, w, i, kind) && w in states[k].waiters && Wants(states[k].waiters[w], i, kind)
    requires w in states[k + 1].waiters && !states[k + 1].waiters[w].signalled && Coming(states[k + 1], e, w, i, kind)
    ensures Gap(states[k + 1], e, w) + WalkOf(actions[k], e) <= Gap(states[k], e, w) + ChangeOf(actions[k]) * longest
  {
    ComingIsNear(states[k + 1], e, w, i, kind);
    if !actions[k].Link? && !actions[k].Unlink? { NearerStep(states, actions, k, e, w, i, kind); }
  }

  lemma Accumulate(walks: nat, changes: nat, gap: nat, gap': nat, walk: nat, change: nat, longest: nat)
    requires walks + gap <= (changes + 1) * longest && change <= 1
    requires gap' + walk <= gap + change * longest
    ensures walks + walk + gap' <= (changes + change + 1) * longest
  {
    assert (changes + 1 + 1) * longest == (changes + 1) * longest + longest;
  }

  lemma StillUnsignalled(states: seq<State>, actions: seq<Action>, k: nat, w: Id)
    requires Run(states, actions) && k < |actions| && w in states[k].waiters && w in states[k + 1].waiters
    requires !states[k + 1].waiters[w].signalled
    ensures !states[k].waiters[w].signalled
  {
    assert Step(states[k], actions[k], states[k + 1]);
    if states[k].waiters[w].signalled { SignalledStays(states[k], actions[k], states[k + 1], w); }
  }

  // ---------------------------------------------------------------- endless changes

  /** A select call for no socket comes, is visited by the walker, times out and leaves. */
  ghost predicate ComesAndGoes(s: seq<State>, e: Id, v: Id) {
    && |s| == 7
    && Step(s[0], Link(v, {}, {}, {}, 0), s[1]) && Step(s[1], Walk(e), s[2])
    && Step(s[2], RegisterNext(v, true), s[3]) && Step(s[3], ScanNext(v, true, false), s[4])
    && Step(s[4], Timeout(v), s[5]) && Step(s[5], Unlink(v), s[6])
  }

  /** One select call of nothing, which comes and times out; the walker visits it in between. */
  lemma Disturbance(st: State, e: Id, v: Id) returns (s: seq<State>)
    requires WalkersOk(st) && v !in st.waiters && Unvisited(st, e)
    ensures ComesAndGoes(s, e, v) && s[0] == st && s[6] == AfterDisturbance(st, e, v)
  {
    var x := Waiter({}, {}, {}, 0, Register(0), false, 0);
    var s1 := st.(waiters := st.waiters[v := x], list := [v] + st.list, ctr := st.ctr + 1);
    var s2 := s1.(walkers := st.walkers[e := st.walkers[e].(pos := At(v, st.ctr + 1))]);
    DisturbanceWalk(s1, s2, e, v, x);
    var s3, s4, s5, s6 := Departure(s2, v);
    assert s6.waiters == st.waiters;
    s := [st, s1, s2, s3, s4, s5, s6];
  }

  /** The call finds nothing to wait for but time, and leaves. */
  lemma Departure(s2: State, v: Id) returns (s3: State, s4: State, s5: State, s6: State)
    requires v in s2.waiters && s2.waiters[v] == Waiter({}, {}, {}, 0, Register(0), false, 0)
    requires s2.list != [] && s2.list[0] == v
    ensures Step(s2, RegisterNext(v, true), s3) && Step(s3, ScanNext(v, true, false), s4)
    ensures Step(s4, Timeout(v), s5) && Step(s5, Unlink(v), s6)
    ensures s6 == s2.(waiters := s2.waiters - {v}, list := s2.list[1..], ctr := s2.ctr + 1)
  {
    s3, s4, s5 := SetPc(s2, v, Scan(0, false)), SetPc(s2, v, Blocked), SetPc(s2, v, Leave(0, 0));
    s6 := s2.(waiters := s2.waiters - {v}, list := s2.list[1..], ctr := s2.ctr + 1);
    assert s3.waiters[v := s3.waiters[v].(pc := Blocked)] == s4.waiters;
    assert s4.waiters[v := s4.waiters[v].(pc := Leave(0, 0))] == s5.waiters;
    assert s5.waiters - {v} == s6.waiters;
  }

  lemma DisturbanceWalk(s1: State, s2: State, e: Id, v: Id, x: Waiter)
    requires e in s1.walkers && v in s1.waiters && s1.waiters[v] == x && s1.list != [] && s1.list[0] == v
    requires x.readset == {} && x.writeset == {} && x.exceptset == {}
    requires s1.walkers[e].pos.Start? || s1.walkers[e].pos.last != s1.ctr
    requires s2 == s1.(walkers := s1.walkers[e := s1.walkers[e].(pos := At(v, s1.ctr))])
    ensures Step(s1, Walk(e), s2)
  {
    assert s1.waiters[v := x] == s1.waiters;
  }

  /** What is left of it: a changed counter, and a walker that starts over. */
  ghost function AfterDisturbance(st: State, e: Id, v: Id): (st': State)
    requires Unvisited(st, e)
    ensures Unvisited(st', e)
  {
    st.(ctr := st.ctr + 2, walkers := st.walkers[e := st.walkers[e].(pos := At(v, st.ctr + 1))])
  }

  /** The walker stands where it starts over. */
  predicate Unvisited(st: State, e: Id) {
    e in st.walkers && (st.walkers[e].pos.Start? || st.walkers[e].pos.last < st.ctr)
  }

  /** The state after n such disturbances. */
  ghost function AfterMany(st: State, e: Id, v: Id, n: nat): (st': State)
    requires Unvisited(st, e)
    ensures Unvisited(st', e)
    decreases n
  {
    if n == 0 then st else AfterDisturbance(AfterMany(st, e, v, n - 1), e, v)
  }

  /** The number of changes must enter the bound: however often calls have come and gone, and with each of them
      the walker has spent a section, it stands before the whole list as at first, the waiters it was to reach
      are as they were, and it can all happen again. */
  lemma ChangesHoldUpForEver(st: State, e: Id, v: Id, n: nat)
    requires ListOk(st) && WalkersOk(st) && v !in st.waiters && Unvisited(st, e)
    ensures var st' := AfterMany(st, e, v, n);
      && st'.waiters == st.waiters && st'.list == st.list && ToVisit(st', st'.walkers[e]) == st.list
      && exists s: seq<State> :: ComesAndGoes(s, e, v) && s[0] == st' && s[6] == AfterMany(st, e, v, n + 1)
  {
    ManyKeep(st, e, v, n);
    var s := Disturbance(AfterMany(st, e, v, n), e, v);
  }

  lemma {:induction false} ManyKeep(st: State, e: Id, v: Id, n: nat)
    requires ListOk(st) && WalkersOk(st) && Unvisited(st, e)
    ensures var st' := AfterMany(st, e, v, n);
      && st'.waiters == st.waiters && st'.list == st.list && ToVisit(st', st'.walkers[e]) == st.list
      && ListOk(st') && WalkersOk(st')
    decreases n
  {
    if n > 0 {
      ManyKeep(st, e, v, n - 1);
      AfterKeeps(AfterMany(st, e, v, n - 1), e, v);
    }
  }

  lemma AfterKeeps(st: State, e: Id, v: Id)
    requires ListOk(st) && WalkersOk(st) && Unvisited(st, e)
    ensures var st' := AfterDisturbance(st, e, v);
      && st'.waiters == st.waiters && st'.list == st.list && ListOk(st') && WalkersOk(st')
      && ToVisit(st', st'.walkers[e]) == st.list
  {}

  /** sem_signalled keeps a semaphore from being signalled twice: it holds at most one signal, and no step adds
      one to a call that has been signalled, nor forgets that it has been. */
  lemma SignalledOnce(states: seq<State>, actions: seq<Action>, n: nat, w: Id)
    requires Run(states, actions) && n < |states| && w in states[n].waiters
    ensures states[n].waiters[w].sem <= 1
    ensures states[n].waiters[w].sem > 0 ==> states[n].waiters[w].signalled
    ensures n < |actions| && w in states[n + 1].waiters && states[n].waiters[w].signalled ==>
      states[n + 1].waiters[w].signalled && states[n + 1].waiters[w].sem <= states[n].waiters[w].sem
  {
    EveryRunKeepsInv(states, actions, n);
    assert WaiterOk(states[n], states[n].waiters[w]);
    if n < |actions| && w in states[n + 1].waiters && states[n].waiters[w].signalled {
      assert Step(states[n], actions[n], states[n + 1]);
      SignalledStays(states[n], actions[n], states[n + 1], w);
    }
  }

  lemma SignalledStays(st: State, a: Action, st': State, w: Id)
    requires Step(st, a, st') && w in st.waiters && w in st'.waiters && st.waiters[w].signalled
    ensures st'.waiters[w].signalled && st'.waiters[w].sem <= st.waiters[w].sem
  {
  }
}
