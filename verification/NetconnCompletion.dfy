/** The TCP netconn state machine of lwip-2.1.3/src/api/api_msg.c: API messages handled by connect, write,
    close and delete in the tcpip thread, and the tcp callbacks that complete them later.  Configuration:
    core locking, full duplex, SNDTIMEO and LINGER off; blocking netconns.  What tcp_* functions return is
    part of the action.  Messages are identified by numbers; a signal of a message's semaphore is recorded. */
module NetconnCompletion {
  import opened Common

  type MsgId = nat

  datatype ConnState = NONE | WRITE | LISTEN | CONNECT | CLOSE

  datatype Err = OK | MEM | OTHER

  /** NETCONN_SHUT_RD, NETCONN_SHUT_WR, NETCONN_SHUT_RDWR */
  datatype Shut = Rd | Wr | RdWr

  /** conn->current_msg with the fields of its `sd` part. */
  datatype Pending = Pending(id: MsgId, shut: Shut, pollsLeft: nat)

  /** Which callback functions the pcb has registered, and whether their argument is the netconn. */
  datatype Callbacks = Callbacks(arg: bool, sent: bool, poll: bool, err: bool)

  /** `submitted` are the messages handed to a handler, `signals` the semaphore signals given.
      `abandoned` records that a full close gave up with an error and left the callbacks off, until a connect
      or a close that is tried again registers them anew. */
  datatype Conn = Conn(state: ConnState, pcb: bool, current: Option<Pending>, pendingErr: bool,
                       callbacks: Callbacks, abandoned: bool,
                       submitted: set<MsgId>, signals: multiset<MsgId>)

  /** What tcp_close or tcp_shutdown returns, and whether the pcb's state makes a half shutdown a close. */
  datatype CloseOracle = CloseOracle(err: Err, otherSideClosed: bool)

  /** How lwip_netconn_do_writemore leaves its message. */
  datatype WriteOutcome = Unfinished | Finished(err: Err)

  datatype Action =
    | DoConnect(id: MsgId, err: Err)
    | DoListen
    | DoWrite(id: MsgId, outcome: WriteOutcome)
    | DoClose(id: MsgId, shut: Shut, polls: nat, tcp: CloseOracle)
    | DoDelconn(id: MsgId, polls: nat, tcp: CloseOracle)
    | Connected(err: Err)
    | Sent(outcome: WriteOutcome, tcp: CloseOracle)
    | Poll(outcome: WriteOutcome, tcp: CloseOracle)
    | ErrTcp

  // ---------------------------------------------------------------- the code

  /** TCPIP_APIMSG_ACK, or sys_sem_signal on a message's semaphore */
  function Ack(n: Conn, id: MsgId): Conn {
    n.(signals := n.signals + multiset{id})
  }

  function Submit(n: Conn, id: MsgId): Conn {
    n.(submitted := n.submitted + {id})
  }

  /** Release the pending message: current_msg = NULL, state = NETCONN_NONE, signal. */
  function Complete(n: Conn): Conn
    requires n.current.Some?
  {
    Ack(n.(current := None, state := NONE), n.current.value.id)
  }

  const ALL_ON := Callbacks(true, true, true, true)
  const ALL_OFF := Callbacks(false, false, false, false)

  /** No callback does anything: without the argument none finds the netconn. */
  predicate Silent(c: Callbacks) {
    !c.arg && !c.poll && !c.err
  }

  /** lwip_netconn_do_close_internal */
  function CloseInternal(n: Conn, tcp: CloseOracle): Conn
    requires n.current.Some?
  {
    var m := n.current.value;
    var shutClose := m.shut.RdWr? || tcp.otherSideClosed;
    var quiet := Callbacks(arg := n.callbacks.arg && !shutClose,
                           sent := n.callbacks.sent && m.shut.Rd?,
                           poll := n.callbacks.poll && !shutClose,
                           err := n.callbacks.err && !shutClose);
    if tcp.err.MEM? && m.pollsLeft > 0 then
      n.(callbacks := Callbacks(true, n.callbacks.sent || !m.shut.Rd?, true, true), abandoned := false)
    else
      var aborted := tcp.err.MEM? && shutClose;
      var ok := tcp.err.OK? || aborted;
      var n1 := Complete(n.(callbacks := quiet));
      n1.(pcb := n.pcb && !(ok && shutClose),
          abandoned := n.abandoned || (shutClose && !ok))
  }

  /** lwip_netconn_do_writemore, its effect on the pending message */
  function WriteMore(n: Conn, outcome: WriteOutcome): Conn
    requires n.current.Some?
  {
    if outcome.Finished? then Complete(n) else n
  }

  function Connect(n: Conn, id: MsgId, err: Err): Conn {
    if !n.pcb || n.state != NONE then Ack(n, id)
    else if err.OK? then
      n.(callbacks := ALL_ON, abandoned := false, state := CONNECT, current := Some(Pending(id, RdWr, 0)))
    else Ack(n.(callbacks := ALL_ON, abandoned := false), id)
  }

  function Write(n: Conn, id: MsgId, outcome: WriteOutcome): Conn {
    if n.pendingErr then Ack(n.(pendingErr := false), id)
    else if n.state != NONE || !n.pcb then Ack(n, id)
    else WriteMore(n.(state := WRITE, current := Some(Pending(id, RdWr, 0))), outcome)
  }

  function Close(n: Conn, id: MsgId, shut: Shut, polls: nat, tcp: CloseOracle): Conn {
    if n.pcb && (shut.RdWr? || n.state != LISTEN) then
      if n.state.CONNECT? || n.state.WRITE? then Ack(n, id)
      else CloseInternal(n.(state := CLOSE, current := Some(Pending(id, shut, polls))), tcp)
    else Ack(n, id)
  }

  function Delconn(n: Conn, id: MsgId, polls: nat, tcp: CloseOracle): Conn {
    if n.state != NONE && n.state != LISTEN then Ack(n, id)
    else if n.pcb then CloseInternal(n.(state := CLOSE, current := Some(Pending(id, RdWr, polls))), tcp)
    else Ack(n, id)
  }

  function SentTcp(n: Conn, outcome: WriteOutcome, tcp: CloseOracle): Conn
    requires n.state.WRITE? || n.state.CLOSE? ==> n.current.Some?
  {
    if n.state.WRITE? then WriteMore(n, outcome)
    else if n.state.CLOSE? then CloseInternal(n, tcp)
    else n
  }

  function PollTcp(n: Conn, outcome: WriteOutcome, tcp: CloseOracle): Conn
    requires n.state.WRITE? || n.state.CLOSE? ==> n.current.Some?
  {
    if n.state.WRITE? then WriteMore(n, outcome)
    else if n.state.CLOSE? then
      var m := n.current.value;
      var m1 := if m.pollsLeft > 0 then m.(pollsLeft := m.pollsLeft - 1) else m;
      CloseInternal(n.(current := Some(m1)), tcp)
    else n
  }

  function ErrCallback(n: Conn): Conn
    requires n.state.WRITE? || n.state.CLOSE? || n.state.CONNECT? ==> n.current.Some?
  {
    var n1 := n.(pcb := false, pendingErr := true, callbacks := ALL_OFF);
    if n.state.WRITE? || n.state.CLOSE? || n.state.CONNECT? then Complete(n1) else n1.(state := NONE)
  }

  predicate Waits(s: ConnState) {
    s.WRITE? || s.CLOSE? || s.CONNECT?
  }

  /** When an action may happen.  API messages are new; a caller does not close a netconn that is closing;
      tcp invokes only callbacks that are registered, reports a connection only while one is being set up,
      and never fails to close a listening pcb. */
  predicate Enabled(n: Conn, a: Action) {
    match a
    case DoConnect(id, _) => id !in n.submitted
    case DoListen => n.state.NONE? && n.pcb
    case DoWrite(id, _) => id !in n.submitted
    case DoClose(id, shut, _, tcp) => id !in n.submitted && !n.state.CLOSE? && (n.state.LISTEN? ==> tcp.err.OK?)
    case DoDelconn(id, _, tcp) => id !in n.submitted && (n.state.LISTEN? ==> tcp.err.OK?)
    case Connected(_) => n.state.CONNECT? && n.current.Some?
    case Sent(_, _) => n.callbacks.arg && n.callbacks.sent && (Waits(n.state) ==> n.current.Some?)
    case Poll(_, _) => n.callbacks.arg && n.callbacks.poll && (Waits(n.state) ==> n.current.Some?)
    case ErrTcp => n.callbacks.arg && n.callbacks.err && (Waits(n.state) ==> n.current.Some?)
  }

  function Apply(n: Conn, a: Action): Conn
    requires Enabled(n, a)
  {
    match a
    case DoConnect(id, err) => Connect(Submit(n, id), id, err)
    case DoListen => n.(state := LISTEN)
    case DoWrite(id, outcome) => Write(Submit(n, id), id, outcome)
    case DoClose(id, shut, polls, tcp) => Close(Submit(n, id), id, shut, polls, tcp)
    case DoDelconn(id, polls, tcp) => Delconn(Submit(n, id), id, polls, tcp)
    case Connected(_) => Complete(n)
    case Sent(outcome, tcp) => SentTcp(n, outcome, tcp)
    case Poll(outcome, tcp) => PollTcp(n, outcome, tcp)
    case ErrTcp => ErrCallback(n)
  }

  predicate Step(n: Conn, a: Action, n': Conn) {
    Enabled(n, a) && n' == Apply(n, a)
  }

  // ---------------------------------------------------------------- the invariant

  /** A submitted message has been signalled once or is the pending one, never both. */
  ghost predicate SignalledOrPending(n: Conn, id: MsgId) {
    n.signals[id] + (if n.current.Some? && n.current.value.id == id then 1 else 0)
      == (if id in n.submitted then 1 else 0)
  }

  ghost predicate Inv(n: Conn) {
    && (n.current.Some? <==> Waits(n.state))
    && (Waits(n.state) ==> n.pcb)
    && n.callbacks.arg == n.callbacks.poll == n.callbacks.err
    && (n.pcb ==> (!n.abandoned <==> n.callbacks.err))
    && (n.state.CLOSE? ==> !n.abandoned && n.current.value.pollsLeft > 0)
    && (n.state.CONNECT? ==> !n.abandoned)
    && (forall id :: SignalledOrPending(n, id))
  }

  lemma CloseInternalKeeps(n: Conn, tcp: CloseOracle)
    requires n.current.Some? && n.pcb
    requires n.callbacks.arg == n.callbacks.poll == n.callbacks.err && (!n.abandoned <==> n.callbacks.err)
    requires forall id :: SignalledOrPending(n, id)
    requires n.state.CLOSE?
    ensures Inv(CloseInternal(n, tcp))
  {
    var n' := CloseInternal(n, tcp);
    forall id ensures SignalledOrPending(n', id) { assert SignalledOrPending(n, id); }
  }

  lemma ConnectKeeps(n: Conn, id: MsgId, err: Err)
    requires Inv(n) && id !in n.submitted
    ensures Inv(Connect(Submit(n, id), id, err))
  {
    var n' := Connect(Submit(n, id), id, err);
    forall x ensures SignalledOrPending(n', x) { assert SignalledOrPending(n, x); }
  }

  lemma WriteKeeps(n: Conn, id: MsgId, outcome: WriteOutcome)
    requires Inv(n) && id !in n.submitted
    ensures Inv(Write(Submit(n, id), id, outcome))
  {
    var n' := Write(Submit(n, id), id, outcome);
    forall x ensures SignalledOrPending(n', x) { assert SignalledOrPending(n, x); }
  }

  /** Starting a close on a netconn with no pending message. */
  lemma CloseStarts(n: Conn, id: MsgId, shut: Shut, polls: nat, tcp: CloseOracle)
    requires Inv(n) && id !in n.submitted && n.pcb && !Waits(n.state)
    ensures Inv(CloseInternal(Submit(n, id).(state := CLOSE, current := Some(Pending(id, shut, polls))), tcp))
  {
    var n1 := Submit(n, id).(state := CLOSE, current := Some(Pending(id, shut, polls)));
    forall x ensures SignalledOrPending(n1, x) { assert SignalledOrPending(n, x); }
    CloseInternalKeeps(n1, tcp);
  }

  lemma AckKeeps(n: Conn, id: MsgId)
    requires Inv(n) && id !in n.submitted
    ensures Inv(Ack(Submit(n, id), id))
  {
    var n' := Ack(Submit(n, id), id);
    forall x ensures SignalledOrPending(n', x) { assert SignalledOrPending(n, x); }
  }

  lemma CloseKeeps(n: Conn, id: MsgId, shut: Shut, polls: nat, tcp: CloseOracle)
    requires Inv(n) && id !in n.submitted && !n.state.CLOSE?
    ensures Inv(Close(Submit(n, id), id, shut, polls, tcp))
    ensures Inv(Delconn(Submit(n, id), id, polls, tcp))
  {
    AckKeeps(n, id);
    if n.pcb && !Waits(n.state) {
      CloseStarts(n, id, shut, polls, tcp);
      CloseStarts(n, id, RdWr, polls, tcp);
    }
  }

  lemma CompleteKeeps(n: Conn)
    requires Inv(n) && n.current.Some?
    ensures Inv(Complete(n))
  {
    var n' := Complete(n);
    forall x ensures SignalledOrPending(n', x) { assert SignalledOrPending(n, x); }
  }

  lemma PollKeeps(n: Conn, outcome: WriteOutcome, tcp: CloseOracle)
    requires Inv(n)
    ensures Inv(PollTcp(n, outcome, tcp)) && Inv(SentTcp(n, outcome, tcp))
  {
    if n.state.CLOSE? {
      CloseInternalKeeps(n, tcp);
      var m := n.current.value;
      var n1 := n.(current := Some(m.(pollsLeft := m.pollsLeft - 1)));
      forall x ensures SignalledOrPending(n1, x) { assert SignalledOrPending(n, x); }
      CloseInternalKeeps(n1, tcp);
    } else if n.state.WRITE? {
      CompleteKeeps(n);
    }
  }

  lemma ErrKeeps(n: Conn)
    requires Inv(n)
    ensures Inv(ErrCallback(n))
  {
    var n' := ErrCallback(n);
    forall x ensures SignalledOrPending(n', x) { assert SignalledOrPending(n, x); }
  }

  lemma StepKeeps(n: Conn, a: Action, n': Conn)
    requires Inv(n) && Step(n, a, n')
    ensures Inv(n')
  {
    match a
    case DoConnect(id, err) => ConnectKeeps(n, id, err);
    case DoListen => forall x ensures SignalledOrPending(n', x) { assert SignalledOrPending(n, x); }
    case DoWrite(id, outcome) => WriteKeeps(n, id, outcome);
    case DoClose(id, shut, polls, tcp) => CloseKeeps(n, id, shut, polls, tcp);
    case DoDelconn(id, polls, tcp) =>
      AckKeeps(n, id);
      if !n.state.CLOSE? { CloseKeeps(n, id, RdWr, polls, tcp); }
    case Connected(_) => CompleteKeeps(n);
    case Sent(outcome, tcp) => PollKeeps(n, outcome, tcp);
    case Poll(outcome, tcp) => PollKeeps(n, outcome, tcp);
    case ErrTcp => ErrKeeps(n);
  }

  // ---------------------------------------------------------------- whole runs

  /** A netconn after netconn_new: the pcb exists and setup_tcp has registered the callbacks. */
  predicate Initial(n: Conn) {
    n == Conn(NONE, true, None, false, ALL_ON, false, {}, multiset{})
  }

  predicate Run(states: seq<Conn>, actions: seq<Action>) {
    && |states| == |actions| + 1
    && Initial(states[0])
    && (forall i :: 0 <= i < |actions| ==> Step(states[i], actions[i], states[i + 1]))
  }

  lemma {:induction false} EveryRunKeepsInv(states: seq<Conn>, actions: seq<Action>, i: nat)
    requires Run(states, actions) && i < |states|
    ensures Inv(states[i])
  {
    if i > 0 {
      var k := i - 1;
      EveryRunKeepsInv(states, actions, k);
      assert Step(states[k], actions[k], states[k + 1]);
      StepKeeps(states[k], actions[k], states[k + 1]);
    } else {
      forall x ensures SignalledOrPending(states[0], x) {}
    }
  }

  /** Every message handed to a handler is signalled exactly once, at once or while it is current_msg, and
      current_msg is set exactly in the states WRITE, CLOSE and CONNECT; then the pcb is there too. */
  lemma MessagesCompleteOnce(states: seq<Conn>, actions: seq<Action>, i: nat, id: MsgId)
    requires Run(states, actions) && i < |states|
    ensures states[i].current.Some? <==> Waits(states[i].state)
    ensures states[i].current.Some? ==> states[i].pcb
    ensures states[i].signals[id] <= 1
    ensures id in states[i].submitted ==>
      (states[i].signals[id] == 1 <==> states[i].current == None || states[i].current.value.id != id)
  {
    EveryRunKeepsInv(states, actions, i);
    assert SignalledOrPending(states[i], id);
  }

  /** A pending message can be completed by a callback exactly if no full close before it gave up with an
      error and left the callbacks off: otherwise it is a write that no callback finds. */
  lemma PendingCanCompleteExactlyWhen(states: seq<Conn>, actions: seq<Action>, i: nat)
    requires Run(states, actions) && i < |states| && states[i].current.Some?
    ensures Enabled(states[i], ErrTcp) <==> !states[i].abandoned
    ensures states[i].callbacks.poll <==> !states[i].abandoned
    ensures states[i].abandoned ==> states[i].state.WRITE? && Silent(states[i].callbacks)
    ensures !states[i].abandoned ==>
      && Apply(states[i], ErrTcp).current == None
      && Apply(states[i], ErrTcp).signals[states[i].current.value.id] == 1
  {
    EveryRunKeepsInv(states, actions, i);
    assert SignalledOrPending(states[i], states[i].current.value.id);
  }

  /** What makes a write silent can be seen before it is handed over: it waits without a callback exactly if it
      is accepted on an abandoned netconn and does not finish at once. */
  lemma WriteIsSilentExactlyWhen(states: seq<Conn>, actions: seq<Action>, i: nat)
    requires Run(states, actions) && i < |actions| && actions[i].DoWrite?
    ensures var n, n' := states[i], states[i + 1];
      n'.current == Some(Pending(actions[i].id, RdWr, 0)) && Silent(n'.callbacks)
      <==> n.abandoned && n.state.NONE? && n.pcb && !n.pendingErr && actions[i].outcome.Unfinished?
  {
    EveryRunKeepsInv(states, actions, i);
    var n, id := states[i], actions[i].id;
    assert Step(n, actions[i], states[i + 1]);
    assert SignalledOrPending(n, id);
  }

  /** Such a write exists: after tcp_close has failed with something else than ERR_MEM, a write that does not
      finish at once has no callback left that could complete it. */
  lemma AbandonedWriteIsSilent() returns (states: seq<Conn>, actions: seq<Action>)
    ensures Run(states, actions)
    ensures var n := states[|states| - 1];
      n.abandoned && n.state.WRITE? && n.current.Some? && n.callbacks == ALL_OFF
  {
    var n0 := Conn(NONE, true, None, false, ALL_ON, false, {}, multiset{});
    actions := [DoClose(0, RdWr, 41, CloseOracle(OTHER, false)), DoWrite(1, Unfinished)];
    var n1 := Apply(n0, actions[0]);
    var n2 := Apply(n1, actions[1]);
    states := [n0, n1, n2];
  }

  /** The caller's obligation not to close a closing netconn is needed too: the second message would
      replace the first one, which is then never signalled. */
  lemma SecondCloseDropsTheFirst(n: Conn, id: MsgId, shut: Shut, polls: nat, tcp: CloseOracle)
    requires Inv(n) && n.state.CLOSE? && id !in n.submitted
    ensures var n' := Close(Submit(n, id), id, shut, polls, tcp);
      !SignalledOrPending(n', n.current.value.id)
  {
    assert SignalledOrPending(n, n.current.value.id);
    assert SignalledOrPending(n, id);
  }

  // ---------------------------------------------------------------- what each step does

  /** The message `id` is answered; nothing else happens to the netconn but what the caller names. */
  predicate Answered(n: Conn, id: MsgId, n': Conn) {
    n'.signals == n.signals + multiset{id} && n'.state == n.state && n'.current == n.current && n'.pcb == n.pcb
  }

  /** The pending message `id` is over: it is answered and the netconn is idle. */
  predicate Over(n: Conn, id: MsgId, n': Conn) {
    n'.signals == n.signals + multiset{id} && n'.state == NONE && n'.current == None
  }

  /** The message `id` waits in this state and has not been answered. */
  predicate Begun(n: Conn, id: MsgId, state: ConnState, n': Conn) {
    n'.signals == n.signals && n'.state == state && n'.current.Some? && n'.current.value.id == id && n'.pcb == n.pcb
  }

  predicate SameBesides(n: Conn, n': Conn) {
    n'.callbacks == n.callbacks && n'.abandoned == n.abandoned
  }

  /** A close is tried for message `id` with so many polls left.  Out of memory, it waits with its callbacks on while
      it has polls left; anything else ends it.  The pcb is gone exactly if both directions are closed now and
      tcp agreed or the connection was aborted for want of memory. */
  predicate CloseTried(n: Conn, id: MsgId, shut: Shut, polls: nat, tcp: CloseOracle, n': Conn) {
    var full := shut.RdWr? || tcp.otherSideClosed;
    if tcp.err.MEM? && polls > 0 then
      && Begun(n, id, CLOSE, n') && n'.current.value == Pending(id, shut, polls)
      && n'.callbacks.arg && n'.callbacks.poll && n'.callbacks.err
      && (n'.callbacks.sent <==> n.callbacks.sent || shut != Rd)
    else
      && Over(n, id, n') && (n'.pcb <==> n.pcb && (!full || tcp.err.OTHER?))
      && (full ==> Silent(n'.callbacks))
      && (!full ==> n'.callbacks == n.callbacks.(sent := n.callbacks.sent && shut == Rd))
  }

  /** What an action does, told by the messages: which are taken on, which are answered, and by what. */
  predicate Rule(n: Conn, a: Action, n': Conn) {
    match a
    case DoConnect(id, err) =>
      && n'.submitted == n.submitted + {id} && n'.pendingErr == n.pendingErr
      && if n.pcb && n.state == NONE then
           n'.callbacks == ALL_ON && if err.OK? then Begun(n, id, CONNECT, n') else Answered(n, id, n')
         else Answered(n, id, n') && SameBesides(n, n')
    case DoListen =>
      n' == n.(state := LISTEN)
    case DoWrite(id, outcome) =>
      && n'.submitted == n.submitted + {id} && !n'.pendingErr && SameBesides(n, n')
      && if n.pcb && n.state == NONE && !n.pendingErr && outcome.Unfinished? then Begun(n, id, WRITE, n')
         else Answered(n, id, n')
    case DoClose(id, shut, polls, tcp) =>
      && n'.submitted == n.submitted + {id} && n'.pendingErr == n.pendingErr
      && if n.pcb && (n.state == NONE || (n.state == LISTEN && shut == RdWr)) then
           CloseTried(n, id, shut, polls, tcp, n')
         else Answered(n, id, n') && SameBesides(n, n')
    case DoDelconn(id, polls, tcp) =>
      && n'.submitted == n.submitted + {id} && n'.pendingErr == n.pendingErr
      && if n.pcb && (n.state == NONE || n.state == LISTEN) then CloseTried(n, id, RdWr, polls, tcp, n')
         else Answered(n, id, n') && SameBesides(n, n')
    case Connected(_) =>
      && n.current.Some? && Over(n, n.current.value.id, n') && n'.pcb == n.pcb && SameBesides(n, n')
      && n'.submitted == n.submitted && n'.pendingErr == n.pendingErr
    case Sent(outcome, tcp) => CallbackRule(n, outcome, tcp, 0, n')
    case Poll(outcome, tcp) => CallbackRule(n, outcome, tcp, 1, n')
    case ErrTcp =>
      && !n'.pcb && n'.pendingErr && n'.state == NONE && n'.current == None && n'.submitted == n.submitted
      && n'.callbacks == ALL_OFF
      && n'.signals == n.signals + (if n.current.Some? then multiset{n.current.value.id} else multiset{})
  }

  /** sent_tcp and poll_tcp; a poll takes one of the polls a close has left. */
  predicate CallbackRule(n: Conn, outcome: WriteOutcome, tcp: CloseOracle, used: nat, n': Conn) {
    match n.state
    case WRITE =>
      if outcome.Unfinished? then n' == n
      else n.current.Some? && Over(n, n.current.value.id, n') && n' == n.(state := NONE, current := None,
                                                                           signals := n'.signals)
    case CLOSE =>
      && n.current.Some? && n.current.value.pollsLeft >= used
      && n'.submitted == n.submitted && n'.pendingErr == n.pendingErr
      && CloseTried(n, n.current.value.id, n.current.value.shut, n.current.value.pollsLeft - used, tcp, n')
    case _ => n' == n
  }

  /** In every run every step does this.  In particular a callback that finds a write finished, or a close that tcp
      carries out, answers the message at once; a write or a connect handed to an idle netconn is taken on; and
      nothing is taken on by one that is busy. */
  lemma EveryStepFollowsTheRules(states: seq<Conn>, actions: seq<Action>, i: nat)
    requires Run(states, actions) && i < |actions|
    ensures Rule(states[i], actions[i], states[i + 1])
  {
    EveryRunKeepsInv(states, actions, i);
    assert Step(states[i], actions[i], states[i + 1]);
    var n, n' := states[i], states[i + 1];
    match actions[i]
    case DoConnect(_, _) => ConnectRule(n, actions[i], n');
    case DoListen =>
    case DoWrite(_, _) => WriteRule(n, actions[i], n');
    case DoClose(_, _, _, _) => CloseRule(n, actions[i], n');
    case DoDelconn(_, _, _) => DelconnRule(n, actions[i], n');
    case Connected(_) =>
    case Sent(_, _) => SentRule(n, actions[i], n');
    case Poll(_, _) => PollRule(n, actions[i], n');
    case ErrTcp =>
  }

  lemma ConnectRule(n: Conn, a: Action, n': Conn)
    requires Inv(n) && Step(n, a, n') && a.DoConnect?
    ensures Rule(n, a, n')
  {}

  lemma WriteRule(n: Conn, a: Action, n': Conn)
    requires Inv(n) && Step(n, a, n') && a.DoWrite?
    ensures Rule(n, a, n')
  {}

  lemma CloseRule(n: Conn, a: Action, n': Conn)
    requires Inv(n) && Step(n, a, n') && a.DoClose?
    ensures Rule(n, a, n')
  {}

  lemma DelconnRule(n: Conn, a: Action, n': Conn)
    requires Inv(n) && Step(n, a, n') && a.DoDelconn?
    ensures Rule(n, a, n')
  {}

  lemma SentRule(n: Conn, a: Action, n': Conn)
    requires Inv(n) && Step(n, a, n') && a.Sent?
    ensures Rule(n, a, n')
  {}

  lemma PollRule(n: Conn, a: Action, n': Conn)
    requires Inv(n) && Step(n, a, n') && a.Poll?
    ensures Rule(n, a, n')
  {}

  /** The step that answers the pending message: a callback that finishes it, or the end of the connection. */
  predicate Finishes(n: Conn, a: Action) {
    match n.state
    case WRITE => a.ErrTcp? || ((a.Sent? || a.Poll?) && a.outcome.Finished?)
    case CONNECT => a.ErrTcp? || a.Connected?
    case CLOSE =>
      || a.ErrTcp?
      || (a.Sent? && !a.tcp.err.MEM?)
      || (a.Poll? && (!a.tcp.err.MEM? || (n.current.Some? && n.current.value.pollsLeft == 1)))
    case _ => false
  }

  lemma FinishStep(states: seq<Conn>, actions: seq<Action>, k: nat, id: MsgId)
    requires Run(states, actions) && k < |actions|
    ensures IsPending(states[k], id) ==> (IsPending(states[k + 1], id) <==> !Finishes(states[k], actions[k]))
    ensures id in states[k].submitted && !IsPending(states[k], id) ==> !IsPending(states[k + 1], id)
    ensures states[k].submitted <= states[k + 1].submitted
  {
    EveryStepFollowsTheRules(states, actions, k);
    EveryRunKeepsInv(states, actions, k);
    assert Step(states[k], actions[k], states[k + 1]);
  }

  predicate IsPending(n: Conn, id: MsgId) {
    n.current.Some? && n.current.value.id == id
  }

  /** Some step from i to j answers the message pending there. */
  ghost predicate FinishedBetween(states: seq<Conn>, actions: seq<Action>, i: nat, j: nat)
    requires j <= |actions| < |states|
  {
    exists k :: i <= k < j && Finishes(states[k], actions[k])
  }

  /** A pending message waits exactly until the first step that finishes what it waits for, and is then answered,
      once: no other message, callback or caller's step ends it early, and none of these passes it by. */
  lemma {:induction false} PendingExactlyUntil(states: seq<Conn>, actions: seq<Action>, i: nat, j: nat, id: MsgId)
    requires Run(states, actions) && i <= j < |states| && IsPending(states[i], id)
    ensures id in states[j].submitted
    ensures IsPending(states[j], id) <==> !FinishedBetween(states, actions, i, j)
    ensures states[j].signals[id] == if FinishedBetween(states, actions, i, j) then 1 else 0
    decreases j
  {
    EveryRunKeepsInv(states, actions, j);
    assert SignalledOrPending(states[j], id);
    if i < j {
      var k := j - 1;
      PendingExactlyUntil(states, actions, i, k, id);
      FinishStep(states, actions, k, id);
    }
  }

  // ---------------------------------------------------------------- closing within polls_left

  /** While a close waits, each poll callback completes it or uses up one of its polls. */
  lemma PollDecreases(n: Conn, outcome: WriteOutcome, tcp: CloseOracle)
    requires Inv(n) && n.state.CLOSE?
    ensures var n' := PollTcp(n, outcome, tcp);
      || n'.current == None
      || (n'.state.CLOSE? && n'.current.value == n.current.value.(pollsLeft := n.current.value.pollsLeft - 1))
  {
  }

  /** How many of the actions are poll callbacks. */
  function Polls(actions: seq<Action>): nat {
    if actions == [] then 0
    else Polls(actions[..|actions| - 1]) + (if actions[|actions| - 1].Poll? then 1 else 0)
  }

  lemma CloseStepCounts(n: Conn, a: Action, n': Conn)
    requires Inv(n) && Step(n, a, n') && n.state.CLOSE? && n.current.Some?
    requires n'.current.Some? && n'.current.value.id == n.current.value.id
    ensures n'.state.CLOSE?
    ensures n'.current.value.pollsLeft + (if a.Poll? then 1 else 0) == n.current.value.pollsLeft
  {
  }

  lemma PollsSnoc(actions: seq<Action>, i: nat, k: nat)
    requires i <= k < |actions|
    ensures Polls(actions[i..k + 1]) == Polls(actions[i..k]) + (if actions[k].Poll? then 1 else 0)
  {
    var s := actions[i..k + 1];
    assert s[..|s| - 1] == actions[i..k];
  }

  /** The same message is pending from state i to state j. */
  ghost predicate StillPending(states: seq<Conn>, i: nat, j: nat)
    requires i <= j < |states| && states[i].current.Some?
  {
    forall k :: i <= k <= j ==> states[k].current.Some? && states[k].current.value.id == states[i].current.value.id
  }

  /** A close still pending after k poll callbacks has exactly polls_left - k polls left, which is positive;
      so a close completes within its initial polls_left polls even if every attempt fails with ERR_MEM. */
  lemma CloseEndsInTime(states: seq<Conn>, actions: seq<Action>, i: nat, j: nat)
    requires Run(states, actions) && i <= j < |states|
    requires states[i].state.CLOSE? && states[i].current.Some? && StillPending(states, i, j)
    ensures states[j].state.CLOSE? && states[j].current.Some?
    ensures states[j].current.value.pollsLeft + Polls(actions[i..j]) == states[i].current.value.pollsLeft
    ensures Polls(actions[i..j]) < states[i].current.value.pollsLeft
  {
    var left := seq(|states|, k requires 0 <= k < |states| => PollsLeft(states[k]));
    forall k | i <= k < j ensures left[k + 1] + (if actions[k].Poll? then 1 else 0) == left[k] {
      ClosePendingStep(states, actions, i, j, k);
    }
    if i < j { ClosePendingStep(states, actions, i, j, j - 1); }
    CountDown(left, actions, i, j);
    ClosingHasPollsLeft(states, actions, j);
  }

  function PollsLeft(n: Conn): nat {
    if n.current.Some? then n.current.value.pollsLeft else 0
  }

  lemma {:induction false} CountDown(left: seq<nat>, actions: seq<Action>, i: nat, j: nat)
    requires |left| == |actions| + 1 && i <= j < |left|
    requires forall k :: i <= k < j ==> left[k + 1] + (if actions[k].Poll? then 1 else 0) == left[k]
    ensures left[j] + Polls(actions[i..j]) == left[i]
    decreases j
  {
    if i < j {
      CountDown(left, actions, i, j - 1);
      PollsSnoc(actions, i, j - 1);
      assert left[j - 1 + 1] == left[j];
    } else {
      assert actions[i..j] == [];
    }
  }

  lemma {:induction false} ClosePendingStep(states: seq<Conn>, actions: seq<Action>, i: nat, j: nat, k: nat)
    requires Run(states, actions) && i <= k < j < |states|
    requires states[i].state.CLOSE? && states[i].current.Some? && StillPending(states, i, j)
    ensures states[k].state.CLOSE? && states[k + 1].state.CLOSE?
    ensures PollsLeft(states[k + 1]) + (if actions[k].Poll? then 1 else 0) == PollsLeft(states[k])
    decreases k
  {
    if i < k { ClosePendingStep(states, actions, i, j, k - 1); }
    assert states[k].current.Some? && states[k + 1].current.Some?;
    CloseRunStep(states, actions, k);
  }

  lemma ClosingHasPollsLeft(states: seq<Conn>, actions: seq<Action>, j: nat)
    requires Run(states, actions) && j < |states|
    ensures states[j].state.CLOSE? ==> states[j].current.Some? && states[j].current.value.pollsLeft > 0
  {
    EveryRunKeepsInv(states, actions, j);
  }

  lemma CloseRunStep(states: seq<Conn>, actions: seq<Action>, k: nat)
    requires Run(states, actions) && k < |actions| && states[k].state.CLOSE? && states[k].current.Some?
    requires states[k + 1].current.Some? && states[k + 1].current.value.id == states[k].current.value.id
    ensures states[k + 1].state.CLOSE?
    ensures states[k + 1].current.value.pollsLeft + (if actions[k].Poll? then 1 else 0)
         == states[k].current.value.pollsLeft
  {
    EveryRunKeepsInv(states, actions, k);
    assert Step(states[k], actions[k], states[k + 1]);
    CloseStepCounts(states[k], actions[k], states[k + 1]);
  }
}
