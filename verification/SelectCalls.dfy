/** What lwip_select and event_callback (lwip-2.1.3/src/api/sockets.c:2010-2097, 2482-2654) do over whole runs,
    told by what happened and not by where the code stands: what the events leave on a socket, which events
    start a walk and when it is over, how far a call has come and why it ends, and that no call is signalled
    without cause. */
module SelectCalls {
  import opened SelectWakeup

  // ---------------------------------------------------------------- what the events leave on a socket

  predicate On(a: Action, s: nat, evt: Event) {
    a.Signal? && a.s == s && a.evt == evt
  }

  /** How often the event was signalled on socket s. */
  function Times(actions: seq<Action>, s: nat, evt: Event): nat {
    if actions == [] then 0
    else Times(actions[..|actions| - 1], s, evt) + (if On(actions[|actions| - 1], s, evt) then 1 else 0)
  }

  /** What the last SendPlus or SendMinus on socket s said, `before` if there was none. */
  function LastSend(actions: seq<Action>, s: nat, before: bool): bool {
    if actions == [] then before
    else
      var a := actions[|actions| - 1];
      On(a, s, SendPlus) || (!On(a, s, SendMinus) && LastSend(actions[..|actions| - 1], s, before))
  }

  lemma SocketStep(st: State, a: Action, st': State, s: nat)
    requires Step(st, a, st') && s < |st.socks|
    ensures |st'.socks| == |st.socks|
    ensures st'.socks[s].rcvevent
         == st.socks[s].rcvevent + (if On(a, s, RcvPlus) then 1 else 0) - (if On(a, s, RcvMinus) then 1 else 0)
    ensures st'.socks[s].sendevent == (On(a, s, SendPlus) || (!On(a, s, SendMinus) && st.socks[s].sendevent))
    ensures st'.socks[s].errevent == (On(a, s, Error) || st.socks[s].errevent)
  {
  }

  lemma TimesSnoc(actions: seq<Action>, k: nat, s: nat, evt: Event)
    requires k < |actions|
    ensures Times(actions[..k + 1], s, evt) == Times(actions[..k], s, evt) + (if On(actions[k], s, evt) then 1 else 0)
  {
    assert actions[..k + 1][..k] == actions[..k];
  }

  /** In every run: rcvevent counts the RcvPlus less the RcvMinus, sendevent is what the last SendPlus or SendMinus
      said, and errevent is set exactly by an Error. */
  lemma {:induction false} SocketAfterEvents(states: seq<State>, actions: seq<Action>, n: nat, s: nat)
    requires Run(states, actions) && n < |states| && s < |states[0].socks|
    ensures |states[n].socks| == |states[0].socks|
    ensures states[n].socks[s].rcvevent
         == states[0].socks[s].rcvevent + Times(actions[..n], s, RcvPlus) - Times(actions[..n], s, RcvMinus)
    ensures states[n].socks[s].sendevent == LastSend(actions[..n], s, states[0].socks[s].sendevent)
    ensures states[n].socks[s].errevent
        <==> states[0].socks[s].errevent || exists j :: 0 <= j < n && On(actions[j], s, Error)
  {
    if n > 0 {
      var k := n - 1;
      SocketAfterEvents(states, actions, k, s);
      assert Step(states[k], actions[k], states[k + 1]);
      SocketStep(states[k], actions[k], states[k + 1], s);
      TimesSnoc(actions, k, s, RcvPlus);
      TimesSnoc(actions, k, s, RcvMinus);
      assert actions[..k + 1][..k] == actions[..k];
      assert states[n].socks[s].errevent == (On(actions[k], s, Error) || states[k].socks[s].errevent);
    }
  }

  // ---------------------------------------------------------------- walks

  /** An event looks through the waiting calls exactly if some call is registered with its socket and it brings
      something that was not there: data where there were none, room to send, or an error. */
  lemma WalkStartsExactlyWhen(states: seq<State>, actions: seq<Action>, n: nat)
    requires Run(states, actions) && n < |actions| && actions[n].Signal?
    ensures actions[n].s < |states[n].socks|
    ensures var k, evt := states[n].socks[actions[n].s], actions[n].evt;
      actions[n].e in states[n + 1].walkers <==>
        && RegSet(states[n], actions[n].s) != {}
        && ((evt == RcvPlus && k.rcvevent <= 0) || (evt == SendPlus && !k.sendevent) || evt == Error)
  {
    EveryRunKeepsInv(states, actions, n);
    assert Step(states[n], actions[n], states[n + 1]);
    assert states[n].socks[actions[n].s].waiting == |RegSet(states[n], actions[n].s)|;
  }

  /** How many elements walker `e` has yet to visit. */
  ghost function Left(st: State, e: Id): nat {
    if e in st.walkers then |ToVisit(st, st.walkers[e])| else 0
  }

  lemma LeftStep(states: seq<State>, actions: seq<Action>, k: nat, e: Id, longest: nat)
    requires Run(states, actions) && k < |actions| && |states[k + 1].list| <= longest
    requires e in states[k].walkers && e in states[k + 1].walkers
    ensures Left(states[k + 1], e) + WalkOf(actions[k], e) <= Left(states[k], e) + ChangeOf(actions[k]) * longest
  {
    EveryRunKeepsInv(states, actions, k);
    assert Step(states[k], actions[k], states[k + 1]);
    if actions[k] == Walk(e) {
      ToVisitInList(states[k], states[k].walkers[e]);
    } else if actions[k].Link? || actions[k].Unlink? {
      if states[k + 1].walkers[e].pos.At? { SuffixShorter(states[k + 1].list, states[k + 1].walkers[e].pos.cb); }
    } else {
      OthersDoNotDelay(states[k], actions[k], states[k + 1], e);
    }
  }

  /** The event is being handled from state n to state m. */
  ghost predicate Walking(states: seq<State>, n: nat, m: nat, e: Id) {
    n <= m < |states| && forall k :: n <= k <= m ==> e in states[k].walkers
  }

  /** Every walk is over in time: with c changes of the list, none making it longer than `longest`, an event that
      is still being handled has made no more than c + 1 walks over the list. */
  lemma WalkIsOver(states: seq<State>, actions: seq<Action>, n: nat, m: nat, e: Id, longest: nat)
    requires Run(states, actions) && Walking(states, n, m, e) && ListsUpTo(states, n, m, longest)
    ensures Walks(actions[n..m], e) <= (Changes(actions[n..m]) + 1) * longest
  {
    var gaps := seq(|states|, k requires 0 <= k < |states| => Left(states[k], e));
    forall k | n <= k < m
      ensures gaps[k + 1] + WalkOf(actions[k], e) <= gaps[k] + ChangeOf(actions[k]) * longest
    {
      assert e in states[k].walkers && e in states[k + 1].walkers && |states[k + 1].list| <= longest;
      LeftStep(states, actions, k, e, longest);
    }
    assert e in states[n].walkers && |states[n].list| <= longest;
    if states[n].walkers[e].pos.At? { SuffixShorter(states[n].list, states[n].walkers[e].pos.cb); }
    SumOfDelays(gaps, actions, e, n, m, longest);
  }

  // ---------------------------------------------------------------- nobody is signalled without cause

  /** The event at step j has saved exactly what was ready on its socket. */
  ghost predicate Saved(states: seq<State>, actions: seq<Action>, j: nat, id: Id, e: Walker) {
    && j < |actions| && j + 1 < |states| && actions[j].Signal? && actions[j].e == id && actions[j].s == e.s
    && e.s < |states[j + 1].socks|
    && (forall kind :: Has(e, kind) <==> Ready(states[j + 1].socks[e.s], kind))
  }

  lemma WalkerStep(st: State, a: Action, st': State, id: Id)
    requires Step(st, a, st') && id in st'.walkers
    ensures var e := st'.walkers[id];
      if id in st.walkers then e == st.walkers[id].(pos := e.pos)
      else
        && a.Signal? && a.e == id && a.s == e.s && e.s < |st'.socks|
        && (forall kind :: Has(e, kind) <==> Ready(st'.socks[e.s], kind))
  {
  }

  lemma {:induction false} WalkerSaved(states: seq<State>, actions: seq<Action>, n: nat, id: Id)
    requires Run(states, actions) && n < |states| && id in states[n].walkers
    ensures exists j: nat :: j < n && Saved(states, actions, j, id, states[n].walkers[id])
  {
    var k := n - 1;
    assert Step(states[k], actions[k], states[k + 1]);
    WalkerStep(states[k], actions[k], states[k + 1], id);
    var e' := states[n].walkers[id];
    if id in states[k].walkers {
      WalkerSaved(states, actions, k, id);
      var e := states[k].walkers[id];
      var j: nat :| j < k && Saved(states, actions, j, id, e);
      assert e' == e.(pos := e'.pos);
      assert forall kind :: Has(e', kind) == Has(e, kind);
      assert Saved(states, actions, j, id, e');
    } else {
      assert Saved(states, actions, k, id, e');
    }
  }

  /** Step j was an event on a socket the call wants something of, and what it wants was ready then. */
  ghost predicate Cause(states: seq<State>, actions: seq<Action>, j: nat, w: Waiter) {
    && j < |actions| && j + 1 < |states| && actions[j].Signal? && actions[j].s < |states[j + 1].socks|
    && exists kind :: Wants(w, actions[j].s, kind) && Ready(states[j + 1].socks[actions[j].s], kind)
  }

  lemma WaiterStep(st: State, a: Action, st': State, w: Id)
    requires Step(st, a, st') && w in st'.waiters && st'.waiters[w].signalled
    ensures w in st.waiters
    ensures st'.waiters[w].readset == st.waiters[w].readset && st'.waiters[w].writeset == st.waiters[w].writeset
    ensures st'.waiters[w].exceptset == st.waiters[w].exceptset
    ensures st.waiters[w].signalled ||
      (a.Walk? && a.e in st.walkers &&
       exists kind :: Has(st.walkers[a.e], kind) && Wants(st.waiters[w], st.walkers[a.e].s, kind))
  {
    if !st.waiters[w].signalled {
      var e, x := st.walkers[a.e], st.waiters[w];
      assert Matches(e, x);
      assert (Has(e, Read) && Wants(x, e.s, Read)) || (Has(e, Write) && Wants(x, e.s, Write))
          || (Has(e, Except) && Wants(x, e.s, Except));
    }
  }

  /** No call is signalled without cause: in every run, a call that has been signalled wanted something that was
      ready when an event reported it. */
  lemma {:induction false} SignalledForCause(states: seq<State>, actions: seq<Action>, n: nat, w: Id)
    requires Run(states, actions) && n < |states| && w in states[n].waiters && states[n].waiters[w].signalled
    ensures exists j: nat :: j < n && Cause(states, actions, j, states[n].waiters[w])
  {
    var k := n - 1;
    assert Step(states[k], actions[k], states[k + 1]);
    WaiterStep(states[k], actions[k], states[k + 1], w);
    var x, x' := states[k].waiters[w], states[n].waiters[w];
    assert forall i, kind :: Wants(x', i, kind) == Wants(x, i, kind);
    if x.signalled {
      SignalledForCause(states, actions, k, w);
      var j: nat :| j < k && Cause(states, actions, j, x);
      assert Cause(states, actions, j, x');
    } else {
      var e := states[k].walkers[actions[k].e];
      var kind :| Has(e, kind) && Wants(x, e.s, kind);
      WalkerSaved(states, actions, k, actions[k].e);
      var j: nat :| j < k && Saved(states, actions, j, actions[k].e, e);
      assert Wants(x', actions[j].s, kind);
      assert Cause(states, actions, j, x');
    }
  }

  // ---------------------------------------------------------------- how far a call has come

  /** A round of the second scan that finds something the call wants. */
  ghost predicate Seen(st: State, a: Action, w: Id) {
    && a.ScanNext? && a.w == w && a.open && w in st.waiters && st.waiters[w].pc.Scan?
    && var x := st.waiters[w];
    && x.pc.i < x.maxfd <= |st.socks|
    && exists kind :: Wants(x, x.pc.i, kind) && (Ready(st.socks[x.pc.i], kind) || (kind == Read && a.lastdata))
  }

  /** What takes a call out of lwip_select: a wanted socket that is not open or has all its 255 places taken, the end
      of a scan that found something, its semaphore, or its timeout. */
  ghost predicate Ends(st: State, a: Action, w: Id) {
    && w in st.waiters
    && var x := st.waiters[w];
    match a
    case RegisterNext(v, open) =>
      && v == w && x.pc.Register? && x.pc.i < x.maxfd && Interested(x, x.pc.i)
      && (!open || |RegSet(st, x.pc.i)| >= 255)
    case ScanNext(v, open, _) =>
      && v == w && x.pc.Scan?
      && if x.pc.i < x.maxfd then Interested(x, x.pc.i) && !open else x.pc.found
    case Wake(v) => v == w
    case Timeout(v) => v == w
    case _ => false
  }

  predicate Round(a: Action, w: Id) {
    (a.RegisterNext? || a.ScanNext?) && a.w == w
  }

  /** How many rounds of its two loops the call has made. */
  function Rounds(actions: seq<Action>, w: Id): nat {
    if actions == [] then 0
    else Rounds(actions[..|actions| - 1], w) + (if Round(actions[|actions| - 1], w) then 1 else 0)
  }

  function Leaves(actions: seq<Action>, w: Id): nat {
    if actions == [] then 0
    else Leaves(actions[..|actions| - 1], w) + (if actions[|actions| - 1] == LeaveNext(w) then 1 else 0)
  }

  lemma RoundsSnoc(actions: seq<Action>, w: Id, n: nat, k: nat)
    requires n <= k < |actions|
    ensures Rounds(actions[n..k + 1], w) == Rounds(actions[n..k], w) + (if Round(actions[k], w) then 1 else 0)
    ensures Leaves(actions[n..k + 1], w) == Leaves(actions[n..k], w) + (if actions[k] == LeaveNext(w) then 1 else 0)
  {
    var s := actions[n..k + 1];
    assert s[..|s| - 1] == actions[n..k];
  }

  /** Where a call stands after so many rounds, having seen something or not, and having met an end or not. */
  predicate Stands(x: Waiter, rounds: nat, leaves: nat, seen: bool, ended: bool) {
    && (x.pc.Leave? <==> ended)
    && match x.pc
       case Register(i) => rounds == i && !seen && leaves == 0
       case Scan(i, found) => rounds == x.maxfd + 1 + i && found == seen && leaves == 0
       case Blocked => rounds == 2 * x.maxfd + 2 && !seen && leaves == 0
       case Leave(i, _) => leaves == i
  }

  ghost predicate SeenSince(states: seq<State>, actions: seq<Action>, n: nat, m: nat, w: Id)
    requires m <= |actions| < |states|
  {
    n < m && (SeenSince(states, actions, n, m - 1, w) || Seen(states[m - 1], actions[m - 1], w))
  }

  ghost predicate EndedSince(states: seq<State>, actions: seq<Action>, n: nat, m: nat, w: Id)
    requires m <= |actions| < |states|
  {
    n < m && (EndedSince(states, actions, n, m - 1, w) || Ends(states[m - 1], actions[m - 1], w))
  }

  lemma {:induction false} SinceMeans(states: seq<State>, actions: seq<Action>, n: nat, m: nat, w: Id)
    requires m <= |actions| < |states|
    ensures SeenSince(states, actions, n, m, w) <==> exists k :: n <= k < m && Seen(states[k], actions[k], w)
    ensures EndedSince(states, actions, n, m, w) <==> exists k :: n <= k < m && Ends(states[k], actions[k], w)
  {
    if n < m { SinceMeans(states, actions, n, m - 1, w); }
  }

  /** One more step, of whoever it is. */
  ghost predicate StandsAfter(st: State, a: Action, st': State, w: Id, rounds: nat, leaves: nat, seen: bool,
                              ended: bool)
    requires w in st.waiters && w in st'.waiters
  {
    && st'.waiters[w].maxfd == st.waiters[w].maxfd
    && Stands(st'.waiters[w], rounds + (if Round(a, w) then 1 else 0), leaves + (if a == LeaveNext(w) then 1 else 0),
              seen || Seen(st, a, w), ended || Ends(st, a, w))
  }

  lemma RegisterStands(st: State, a: Action, st': State, w: Id, rounds: nat, leaves: nat, seen: bool, ended: bool)
    requires Inv(st) && Step(st, a, st') && w in st.waiters && w in st'.waiters && a.RegisterNext? && a.w == w
    requires Stands(st.waiters[w], rounds, leaves, seen, ended)
    ensures StandsAfter(st, a, st', w, rounds, leaves, seen, ended)
  {
    assert WaiterOk(st, st.waiters[w]);
    var x := st.waiters[w];
    assert x.pc.i < x.maxfd ==> st.socks[x.pc.i].waiting == |RegSet(st, x.pc.i)|;
  }

  lemma ScanStands(st: State, a: Action, st': State, w: Id, rounds: nat, leaves: nat, seen: bool, ended: bool)
    requires Inv(st) && Step(st, a, st') && w in st.waiters && w in st'.waiters && a.ScanNext? && a.w == w
    requires Stands(st.waiters[w], rounds, leaves, seen, ended)
    ensures StandsAfter(st, a, st', w, rounds, leaves, seen, ended)
  {
    var x := st.waiters[w];
    assert WaiterOk(st, x);
    if x.pc.i < x.maxfd && a.open { HitIsSeen(x, st.socks, a.lastdata); }
  }

  lemma HitIsSeen(x: Waiter, socks: seq<Sock>, lastdata: bool)
    requires x.pc.Scan? && x.pc.i < x.maxfd <= |socks|
    ensures ScanPc(x, socks, true, lastdata) == Scan(x.pc.i + 1, x.pc.found ||
      exists kind :: Wants(x, x.pc.i, kind) && (Ready(socks[x.pc.i], kind) || (kind == Read && lastdata)))
  {
    var i := x.pc.i;
    assert Wants(x, i, Read) == (i in x.readset) && Wants(x, i, Write) == (i in x.writeset)
        && Wants(x, i, Except) == (i in x.exceptset);
  }

  lemma StandsStep(st: State, a: Action, st': State, w: Id, rounds: nat, leaves: nat, seen: bool, ended: bool)
    requires Inv(st) && Step(st, a, st') && w in st.waiters && w in st'.waiters
    requires Stands(st.waiters[w], rounds, leaves, seen, ended)
    ensures StandsAfter(st, a, st', w, rounds, leaves, seen, ended)
  {
    if a.RegisterNext? && a.w == w {
      RegisterStands(st, a, st', w, rounds, leaves, seen, ended);
    } else if a.ScanNext? && a.w == w {
      ScanStands(st, a, st', w, rounds, leaves, seen, ended);
    } else {
      OthersStand(st, a, st', w, rounds, leaves, seen, ended);
    }
  }

  lemma OthersStand(st: State, a: Action, st': State, w: Id, rounds: nat, leaves: nat, seen: bool, ended: bool)
    requires Step(st, a, st') && w in st.waiters && w in st'.waiters && !Round(a, w)
    requires Stands(st.waiters[w], rounds, leaves, seen, ended)
    ensures StandsAfter(st, a, st', w, rounds, leaves, seen, ended)
  {
  }

  /** Where the call that began at step n stands in state m is decided by what happened in between. */
  ghost predicate StandsAt(states: seq<State>, actions: seq<Action>, n: nat, m: nat, w: Id) {
    && n < m <= |actions| < |states| && actions[n].Link? && w in states[m].waiters
    && states[m].waiters[w].maxfd == actions[n].maxfd
    && Stands(states[m].waiters[w], Rounds(actions[n..m], w), Leaves(actions[n..m], w),
              SeenSince(states, actions, n, m, w), EndedSince(states, actions, n, m, w))
  }

  /** Step k is a proper step from a proper state, and the call is there after it. */
  ghost predicate StepOf(states: seq<State>, actions: seq<Action>, k: nat, w: Id) {
    && k < |actions| < |states| && Inv(states[k]) && Step(states[k], actions[k], states[k + 1])
    && w in states[k + 1].waiters
  }

  lemma StandsNext(states: seq<State>, actions: seq<Action>, n: nat, k: nat, w: Id)
    requires StandsAt(states, actions, n, k, w) && StepOf(states, actions, k, w)
    ensures StandsAt(states, actions, n, k + 1, w)
  {
    RoundsSnoc(actions, w, n, k);
    StandsStep(states[k], actions[k], states[k + 1], w, Rounds(actions[n..k], w), Leaves(actions[n..k], w),
               SeenSince(states, actions, n, k, w), EndedSince(states, actions, n, k, w));
  }

  lemma StandsFirst(states: seq<State>, actions: seq<Action>, n: nat, w: Id)
    requires StepOf(states, actions, n, w) && actions[n].Link? && actions[n].w == w
    ensures StandsAt(states, actions, n, n + 1, w)
  {
    assert actions[n..n] == [];
    RoundsSnoc(actions, w, n, n);
    CallBegins(states[n], actions[n], states[n + 1]);
  }

  lemma {:induction false} StandsUpTo(states: seq<State>, actions: seq<Action>, n: nat, m: nat, w: Id)
    requires n < m && n < |actions| && actions[n].Link? && actions[n].w == w
    requires forall k: nat :: n <= k < m ==> StepOf(states, actions, k, w)
    ensures StandsAt(states, actions, n, m, w)
    decreases m
  {
    var k: nat := m - 1;
    assert StepOf(states, actions, k, w);
    if n < k {
      StandsUpTo(states, actions, n, k, w);
      StandsNext(states, actions, n, k, w);
    } else {
      StandsFirst(states, actions, n, w);
    }
  }

  /** Where a call stands is decided by what happened since it began at step n.  It has made as many rounds as its
      place says; it has found something exactly if a round of its scan came to a wanted socket that was ready
      (or held data left over from an earlier read); it waits after maxfdp1 + 1 rounds of each loop, having found
      nothing; and it leaves exactly if something ended it. */
  lemma CallStands(states: seq<State>, actions: seq<Action>, n: nat, m: nat, w: Id)
    requires Run(states, actions) && n < m < |states| && actions[n].Link? && actions[n].w == w
    requires Stays(states, n + 1, m, w)
    ensures StandsAt(states, actions, n, m, w)
  {
    forall k: nat | n <= k < m ensures StepOf(states, actions, k, w) {
      EveryRunKeepsInv(states, actions, k);
      assert w in states[k + 1].waiters;
    }
    StandsUpTo(states, actions, n, m, w);
  }

  lemma CallBegins(st: State, a: Action, st': State)
    requires Step(st, a, st') && a.Link?
    ensures a.w in st'.waiters && st'.waiters[a.w].maxfd == a.maxfd && Stands(st'.waiters[a.w], 0, 0, false, false)
    ensures !Seen(st, a, a.w) && !Ends(st, a, a.w)
  {
  }
}
