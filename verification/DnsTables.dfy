/** The resolver tables of lwip-2.1.3/src/core/dns.c with all LWIP_DNS_SECURE flags on and as many request
    slots as table entries.  Random numbers, the outcome of udp_new and what a received packet contains are
    parameters; hostnames are compared by identity (names equal up to case are the same number).  Callbacks
    do not re-enter the resolver; each invocation is recorded. */
module DnsTables {
  import opened Common

  type ReqId = nat

  datatype EntryState = UNUSED | NEW | ASKING | DONE

  datatype AddrType = V4 | V6 | V4_V6 | V6_V4

  datatype Entry = Entry(state: EntryState, name: nat, addrType: AddrType, txid: nat, server: nat,
                         tmr: nat, retries: nat, seqno: nat, ttl: nat, pcb: nat, addr: seq<Byte>)

  /** A slot of dns_requests; `found` stands for the callback and its argument, None for a null callback. */
  datatype Req = Req(found: Option<ReqId>, idx: nat)

  // ---------------------------------------------------------------- outstanding callbacks

  /** How many request slots hold the callback `id`. */
  function Count(reqs: seq<Req>, id: ReqId): nat {
    if reqs == [] then 0
    else Count(reqs[..|reqs| - 1], id) + (if reqs[|reqs| - 1].found == Some(id) then 1 else 0)
  }

  lemma {:induction false} CountUpdate(reqs: seq<Req>, r: nat, q: Req, id: ReqId)
    requires r < |reqs|
    ensures Count(reqs[r := q], id)
         == Count(reqs, id) + (if q.found == Some(id) then 1 else 0) - (if reqs[r].found == Some(id) then 1 else 0)
  {
    var n := |reqs| - 1;
    if r < n {
      assert reqs[r := q][..n] == reqs[..n][r := q];
      CountUpdate(reqs[..n], r, q, id);
    } else {
      assert reqs[r := q][..n] == reqs[..n];
    }
  }

  /** Every accepted callback is held by one slot or has been invoked once, never both. */
  ghost predicate CallsOk(reqs: seq<Req>, accepted: set<ReqId>, called: multiset<ReqId>) {
    forall id :: Count(reqs, id) + called[id] == (if id in accepted then 1 else 0)
  }

  lemma CallsAfterCall(reqs: seq<Req>, r: nat, accepted: set<ReqId>, called: multiset<ReqId>)
    requires r < |reqs| && reqs[r].found.Some? && CallsOk(reqs, accepted, called)
    ensures CallsOk(reqs[r := reqs[r].(found := None)], accepted, called + multiset{reqs[r].found.value})
  {
    var q := reqs[r].(found := None);
    var called' := called + multiset{reqs[r].found.value};
    forall id ensures Count(reqs[r := q], id) + called'[id] == (if id in accepted then 1 else 0) {
      CountUpdate(reqs, r, q, id);
    }
  }

  /** Putting a callback into a free slot; a null callback leaves the slot free. */
  lemma CallsAfterAccept(reqs: seq<Req>, r: nat, q: Req, accepted: set<ReqId>, called: multiset<ReqId>)
    requires r < |reqs| && reqs[r].found.None? && CallsOk(reqs, accepted, called)
    requires q.found.Some? ==> q.found.value !in accepted
    ensures CallsOk(reqs[r := q], if q.found.Some? then accepted + {q.found.value} else accepted, called)
  {
    var accepted' := if q.found.Some? then accepted + {q.found.value} else accepted;
    forall id ensures Count(reqs[r := q], id) + called[id] == (if id in accepted' then 1 else 0) {
      CountUpdate(reqs, r, q, id);
    }
  }

  // ---------------------------------------------------------------- the invariant

  predicate Asking(table: seq<Entry>, i: int) {
    0 <= i < |table| && table[i].state.ASKING?
  }

  predicate Open(pcbs: seq<bool>, k: int) {
    0 <= k < |pcbs| && pcbs[k]
  }

  /** Entry `i` waits for an answer through source port `k`. */
  predicate Uses(table: seq<Entry>, i: int, k: int) {
    Asking(table, i) && table[i].pcb == k
  }

  predicate Occupied(reqs: seq<Req>, r: int) {
    0 <= r < |reqs| && reqs[r].found.Some?
  }

  /** Timer, retry count and server index of an entry that waits. */
  predicate TimerOk(e: Entry, maxRetries: nat, servers: nat) {
    1 <= e.tmr && (e.tmr == 1 || e.tmr <= e.retries) && e.retries < maxRetries && e.server < servers
  }

  ghost predicate TxidsDistinctBut(table: seq<Entry>, idx: int) {
    forall i, j :: i != idx && j != idx && i != j && Asking(table, i) && Asking(table, j) ==>
      table[i].txid != table[j].txid
  }

  ghost predicate ReqsOkBut(table: seq<Entry>, reqs: seq<Req>, idx: int) {
    forall r :: Occupied(reqs, r) ==> reqs[r].idx == idx || Asking(table, reqs[r].idx)
  }

  ghost predicate PcbsOkBut(table: seq<Entry>, pcbs: seq<bool>, idx: int) {
    && (forall i :: i != idx && Asking(table, i) ==> Open(pcbs, table[i].pcb))
    && (forall k :: Open(pcbs, k) ==>
          (0 <= idx < |table| && table[idx].pcb == k) || exists i :: i != idx && Uses(table, i, k))
  }

  ghost predicate TimersOkBut(table: seq<Entry>, maxRetries: nat, servers: nat, idx: int) {
    && (forall i :: i != idx && Asking(table, i) ==> TimerOk(table[i], maxRetries, servers))
    && (forall i :: 0 <= i < |table| && i != idx ==> !table[i].state.NEW?)
  }

  /** What holds of the tables in every state between calls, `idx` being -1: waiting entries have distinct ids
      and running timers, an occupied request slot points to a waiting entry, and a source port is open
      exactly if a waiting entry uses it.  During a call, entry `idx` may be on its way in or out. */
  ghost predicate TablesOkBut(table: seq<Entry>, reqs: seq<Req>, pcbs: seq<bool>, maxRetries: nat, servers: nat,
                              idx: int) {
    && TxidsDistinctBut(table, idx) && ReqsOkBut(table, reqs, idx)
    && PcbsOkBut(table, pcbs, idx) && TimersOkBut(table, maxRetries, servers, idx)
  }

  /** Take a waiting entry out of the invariant. */
  lemma Release(table: seq<Entry>, reqs: seq<Req>, pcbs: seq<bool>, maxRetries: nat, servers: nat, idx: nat)
    requires TablesOkBut(table, reqs, pcbs, maxRetries, servers, -1) && Asking(table, idx)
    ensures TablesOkBut(table, reqs, pcbs, maxRetries, servers, idx)
    ensures Open(pcbs, table[idx].pcb)
  {
    forall k | Open(pcbs, k) && table[idx].pcb != k ensures exists i :: i != idx && Uses(table, i, k) {
      var i :| i != -1 && Uses(table, i, k);
      assert i != idx && Uses(table, i, k);
    }
  }

  /** While out, the entry may change anything but its port. */
  lemma Replace(table: seq<Entry>, reqs: seq<Req>, pcbs: seq<bool>, maxRetries: nat, servers: nat, idx: nat, e: Entry)
    requires TablesOkBut(table, reqs, pcbs, maxRetries, servers, idx) && idx < |table| && e.pcb == table[idx].pcb
    ensures TablesOkBut(table[idx := e], reqs, pcbs, maxRetries, servers, idx)
  {
    var t := table[idx := e];
    forall i | i != idx ensures Asking(t, i) == Asking(table, i) {}
    forall r | Occupied(reqs, r) ensures reqs[r].idx == idx || Asking(t, reqs[r].idx) {}
    forall k | Open(pcbs, k) && t[idx].pcb != k ensures exists i :: i != idx && Uses(t, i, k) {
      var i :| i != idx && Uses(table, i, k);
      assert Uses(t, i, k);
    }
  }

  /** Put an entry that waits (again) back into the invariant. */
  lemma Rejoin(table: seq<Entry>, reqs: seq<Req>, pcbs: seq<bool>, maxRetries: nat, servers: nat, idx: nat)
    requires TablesOkBut(table, reqs, pcbs, maxRetries, servers, idx) && Asking(table, idx)
    requires Open(pcbs, table[idx].pcb) && TimerOk(table[idx], maxRetries, servers)
    requires forall i :: i != idx && Asking(table, i) ==> table[i].txid != table[idx].txid
    ensures TablesOkBut(table, reqs, pcbs, maxRetries, servers, -1)
  {
    forall k | Open(pcbs, k) ensures exists i :: i != -1 && Uses(table, i, k) {
      if table[idx].pcb == k {
        assert Uses(table, idx, k);
      } else {
        var i :| i != idx && Uses(table, i, k);
        assert i != -1 && Uses(table, i, k);
      }
    }
  }

  /** A waiting entry may change its timer, retry count and server. */
  lemma Retime(table: seq<Entry>, reqs: seq<Req>, pcbs: seq<bool>, maxRetries: nat, servers: nat, idx: nat, e: Entry)
    requires TablesOkBut(table, reqs, pcbs, maxRetries, servers, -1) && Asking(table, idx)
    requires TimerOk(e, maxRetries, servers)
    requires e.state.ASKING? && e.pcb == table[idx].pcb && e.txid == table[idx].txid
    ensures TablesOkBut(table[idx := e], reqs, pcbs, maxRetries, servers, -1)
  {
    Release(table, reqs, pcbs, maxRetries, servers, idx);
    Replace(table, reqs, pcbs, maxRetries, servers, idx, e);
    var t := table[idx := e];
    forall j | j != idx && Asking(t, j) ensures t[j].txid != e.txid { assert Asking(table, j); }
    Rejoin(t, reqs, pcbs, maxRetries, servers, idx);
  }

  /** An entry that is not waiting, has no requests and holds no port needs no exception. */
  lemma Settle(table: seq<Entry>, reqs: seq<Req>, pcbs: seq<bool>, maxRetries: nat, servers: nat, idx: nat)
    requires TablesOkBut(table, reqs, pcbs, maxRetries, servers, idx) && idx < |table|
    requires (table[idx].state.UNUSED? || table[idx].state.DONE?) && table[idx].pcb >= |pcbs|
    requires forall r :: Occupied(reqs, r) ==> reqs[r].idx != idx
    ensures TablesOkBut(table, reqs, pcbs, maxRetries, servers, -1)
  {
    forall k | Open(pcbs, k) ensures exists i :: i != -1 && Uses(table, i, k) {
      var i :| i != idx && Uses(table, i, k);
      assert i != -1 && Uses(table, i, k);
    }
  }

  /** Give up the port of entry `idx`, closing it unless another waiting entry uses it. */
  lemma DropPort(table: seq<Entry>, reqs: seq<Req>, pcbs: seq<bool>, pcbs': seq<bool>, maxRetries: nat, servers: nat,
                 idx: nat)
    requires TablesOkBut(table, reqs, pcbs, maxRetries, servers, idx) && idx < |table| && table[idx].pcb < |pcbs|
    requires pcbs' == if exists i :: i != idx && Uses(table, i, table[idx].pcb) then pcbs
                      else pcbs[table[idx].pcb := false]
    ensures TablesOkBut(table[idx := table[idx].(pcb := |pcbs|)], reqs, pcbs', maxRetries, servers, idx)
  {
    var t := table[idx := table[idx].(pcb := |pcbs|)];
    forall i | i != idx ensures Asking(t, i) == Asking(table, i) {}
    forall r | Occupied(reqs, r) ensures reqs[r].idx == idx || Asking(t, reqs[r].idx) {}
    forall i | i != idx && Asking(t, i) ensures Open(pcbs', t[i].pcb) {
      assert Open(pcbs, table[i].pcb);
      assert Uses(table, i, table[i].pcb);
    }
    forall k | Open(pcbs', k) ensures exists i :: i != idx && Uses(t, i, k) {
      assert Open(pcbs, k);
      var i :| i != idx && Uses(table, i, k);
      assert Uses(t, i, k);
    }
  }

  /** Start to use entry `idx` with an open or just opened port `e.pcb`. */
  lemma TakePort(table: seq<Entry>, reqs: seq<Req>, pcbs: seq<bool>, maxRetries: nat, servers: nat, idx: nat, e: Entry)
    requires TablesOkBut(table, reqs, pcbs, maxRetries, servers, -1) && idx < |table| && !Asking(table, idx)
    requires e.pcb < |pcbs|
    ensures TablesOkBut(table[idx := e], reqs, pcbs[e.pcb := true], maxRetries, servers, idx)
  {
    var t, p := table[idx := e], pcbs[e.pcb := true];
    forall i | i != idx ensures Asking(t, i) == Asking(table, i) {}
    forall r | Occupied(reqs, r) ensures reqs[r].idx == idx || Asking(t, reqs[r].idx) {}
    forall i | i != idx && Asking(t, i) ensures Open(p, t[i].pcb) {
      assert Open(pcbs, table[i].pcb);
    }
    forall k | Open(p, k) && t[idx].pcb != k ensures exists i :: i != idx && Uses(t, i, k) {
      assert Open(pcbs, k);
      var i :| i != -1 && Uses(table, i, k);
      assert i != idx && Uses(t, i, k);
    }
  }

  /** Changing an entry that does not wait, before and after, disturbs nothing. */
  lemma ReplaceIdle(table: seq<Entry>, reqs: seq<Req>, pcbs: seq<bool>, maxRetries: nat, servers: nat, idx: nat,
                    e: Entry)
    requires TablesOkBut(table, reqs, pcbs, maxRetries, servers, -1) && idx < |table| && !Asking(table, idx)
    requires e.state.UNUSED? || e.state.DONE?
    ensures TablesOkBut(table[idx := e], reqs, pcbs, maxRetries, servers, -1)
  {
    var t := table[idx := e];
    forall i | Asking(t, i) ensures i != idx && Asking(table, i) {}
    forall r | Occupied(reqs, r) ensures Asking(t, reqs[r].idx) { assert Asking(table, reqs[r].idx); }
    forall k | Open(pcbs, k) ensures exists i :: i != -1 && Uses(t, i, k) {
      var i :| i != -1 && Uses(table, i, k);
      assert Uses(t, i, k);
    }
  }

  // ---------------------------------------------------------------- how long an entry waits

  /** a + (a+1) + ... + (maxRetries-1): the timer ticks of the retries from the a-th on. */
  function Waits(a: nat, maxRetries: nat): nat
    decreases maxRetries - a
  {
    if a >= maxRetries then 0 else a + Waits(a + 1, maxRetries)
  }

  function PerServer(maxRetries: nat): nat {
    1 + Waits(1, maxRetries)
  }

  function AllServers(n: nat, maxRetries: nat): nat {
    if n == 0 then 0 else PerServer(maxRetries) + AllServers(n - 1, maxRetries)
  }

  /** The ticks left until a waiting entry has been answered or given up. */
  function TicksLeft(e: Entry, maxRetries: nat, servers: nat): nat {
    e.tmr + Waits(e.retries + 1, maxRetries)
    + (if e.server < servers then AllServers(servers - 1 - e.server, maxRetries) else 0)
  }

  /** The entry may still start over for the other address type. */
  predicate HasFallback(t: AddrType) {
    t.V4_V6? || t.V6_V4?
  }

  /** The ticks left whatever packets arrive. */
  function Patience(e: Entry, maxRetries: nat, servers: nat): nat {
    TicksLeft(e, maxRetries, servers) + (if HasFallback(e.addrType) then AllServers(servers, maxRetries) else 0)
  }

  predicate BackupAvailable(e: Entry, servers: seq<bool>) {
    e.server + 1 < |servers| && servers[e.server + 1]
  }

  /** A timer tick ends the wait: all retries used and no further server, or the server to ask again is gone. */
  predicate GivesUp(e: Entry, maxRetries: nat, servers: seq<bool>) {
    && e.tmr == 1
    && if e.retries + 1 == maxRetries then !BackupAvailable(e, servers)
       else !(e.server < |servers| && servers[e.server])
  }

  /** What a tick makes of an entry that goes on waiting. */
  function NextTry(e: Entry, maxRetries: nat): Entry
    requires e.tmr >= 1
  {
    if e.tmr > 1 then e.(tmr := e.tmr - 1)
    else if e.retries + 1 == maxRetries then e.(server := e.server + 1, tmr := 1, retries := 0)
    else e.(tmr := e.retries + 1, retries := e.retries + 1)
  }

  /** Each tick without giving up uses exactly one of the remaining ticks. */
  lemma NextTryIsOneTick(e: Entry, maxRetries: nat, servers: seq<bool>)
    requires TimerOk(e, maxRetries, |servers|) && !GivesUp(e, maxRetries, servers)
    ensures TimerOk(NextTry(e, maxRetries), maxRetries, |servers|)
    ensures TicksLeft(NextTry(e, maxRetries), maxRetries, |servers|) == TicksLeft(e, maxRetries, |servers|) - 1
  {
    if e.tmr == 1 && e.retries + 1 == maxRetries {
      assert Waits(e.retries + 1, maxRetries) == 0;
    }
  }

  lemma {:induction false} WaitsShrink(a: nat, b: nat, maxRetries: nat)
    requires a <= b
    ensures Waits(b, maxRetries) <= Waits(a, maxRetries)
    decreases b - a
  {
    if a < b { WaitsShrink(a + 1, b, maxRetries); }
  }

  lemma {:induction false} FewerServers(m: nat, n: nat, maxRetries: nat)
    requires m <= n
    ensures AllServers(m, maxRetries) <= AllServers(n, maxRetries)
  {
    if m < n { FewerServers(m, n - 1, maxRetries); }
  }

  /** A waiting entry is settled within the ticks of all servers that are left, the current one included. */
  lemma TicksLeftBound(e: Entry, maxRetries: nat, servers: nat)
    requires TimerOk(e, maxRetries, servers)
    ensures TicksLeft(e, maxRetries, servers) <= AllServers(servers - e.server, maxRetries)
    ensures AllServers(servers - e.server, maxRetries) <= AllServers(servers, maxRetries)
  {
    if e.retries > 0 { WaitsShrink(1, e.retries, maxRetries); }
    WaitsShrink(1, e.retries + 1, maxRetries);
    FewerServers(servers - e.server, servers, maxRetries);
  }

  lemma PatienceBound(e: Entry, maxRetries: nat, servers: nat)
    requires TimerOk(e, maxRetries, servers)
    ensures Patience(e, maxRetries, servers) <= 2 * AllServers(servers, maxRetries)
  {
    TicksLeftBound(e, maxRetries, servers);
  }

  lemma {:induction false} AllServersClosed(n: nat, maxRetries: nat)
    requires maxRetries >= 1
    ensures 2 * AllServers(n, maxRetries) == n * (2 + maxRetries * (maxRetries - 1))
  {
    PerServerClosed(maxRetries);
    if n > 0 { AllServersClosed(n - 1, maxRetries); }
  }

  lemma {:induction false} WaitsClosed(a: nat, maxRetries: nat)
    requires a <= maxRetries
    ensures 2 * Waits(a, maxRetries) + a * (a - 1) == maxRetries * (maxRetries - 1)
    decreases maxRetries - a
  {
    if a < maxRetries {
      WaitsClosed(a + 1, maxRetries);
      assert (a + 1) * a == a * (a - 1) + 2 * a;
    }
  }

  /** Each server is asked for 1 + R(R-1)/2 ticks, R being DNS_MAX_RETRIES. */
  lemma PerServerClosed(maxRetries: nat)
    requires maxRetries >= 1
    ensures 2 * PerServer(maxRetries) == 2 + maxRetries * (maxRetries - 1)
  {
    WaitsClosed(1, maxRetries);
  }

  // ---------------------------------------------------------------- progress of requests

  /** The requests for entry `idx` have left their slots, all others are as before. */
  ghost predicate ClearedFor(reqs: seq<Req>, reqs': seq<Req>, idx: nat) {
    && |reqs'| == |reqs|
    && forall r :: 0 <= r < |reqs| ==> reqs'[r] == if reqs[r].idx == idx then reqs[r].(found := None) else reqs[r]
  }

  lemma ClearedIsOk(table: seq<Entry>, reqs: seq<Req>, reqs': seq<Req>, pcbs: seq<bool>, maxRetries: nat,
                    servers: nat, idx: nat)
    requires TablesOkBut(table, reqs, pcbs, maxRetries, servers, idx) && ClearedFor(reqs, reqs', idx)
    ensures TablesOkBut(table, reqs', pcbs, maxRetries, servers, idx)
  {
    forall r | Occupied(reqs', r) ensures reqs'[r].idx == idx || Asking(table, reqs'[r].idx) {
      assert Occupied(reqs, r);
    }
  }

  ghost predicate InvokedFor(reqs: seq<Req>, called: multiset<ReqId>, idx: nat) {
    forall r :: Occupied(reqs, r) && reqs[r].idx == idx ==> called[reqs[r].found.value] >= 1
  }

  ghost predicate Grows(called: multiset<ReqId>, called': multiset<ReqId>) {
    forall id :: called[id] <= called'[id]
  }

  /** Nothing but entry `idx` has changed. */
  predicate OnlyEntry(table: seq<Entry>, table': seq<Entry>, idx: nat) {
    |table'| == |table| && forall j :: 0 <= j < |table| && j != idx ==> table'[j] == table[j]
  }

  /** What becomes of the request in slot `r`: it has been called back, or it still waits, with at least `d`
      ticks less to go. */
  ghost predicate Kept(table: seq<Entry>, reqs: seq<Req>, table': seq<Entry>, reqs': seq<Req>, called': multiset<ReqId>,
                       maxRetries: nat, servers: nat, d: nat, r: int)
    requires Occupied(reqs, r)
  {
    || called'[reqs[r].found.value] >= 1
    || (r < |reqs'| && reqs'[r] == reqs[r] && Asking(table, reqs[r].idx) && Asking(table', reqs[r].idx)
        && Patience(table'[reqs[r].idx], maxRetries, servers) + d <= Patience(table[reqs[r].idx], maxRetries, servers))
  }

  ghost predicate AllKept(table: seq<Entry>, reqs: seq<Req>, table': seq<Entry>, reqs': seq<Req>,
                          called': multiset<ReqId>,
                          maxRetries: nat, servers: nat, d: nat) {
    forall r :: Occupied(reqs, r) ==> Kept(table, reqs, table', reqs', called', maxRetries, servers, d, r)
  }

  /** What dns_check_entry makes of one entry. */
  predicate Checked(e: Entry, e': Entry, maxRetries: nat, servers: seq<bool>) {
    match e.state
    case ASKING =>
      if GivesUp(e, maxRetries, servers) then e'.state.UNUSED? else e.tmr >= 1 && e' == NextTry(e, maxRetries)
    case DONE =>
      if e.ttl <= 1 then e'.state.UNUSED? else e' == e.(ttl := e.ttl - 1)
    case _ => e' == e
  }

  /** With every server set, a tick gives up exactly if it is the last of the ticks left. */
  lemma GivesUpExactlyWhen(e: Entry, maxRetries: nat, servers: seq<bool>)
    requires TimerOk(e, maxRetries, |servers|) && forall k :: 0 <= k < |servers| ==> servers[k]
    ensures GivesUp(e, maxRetries, servers) <==> TicksLeft(e, maxRetries, |servers|) == 1
  {
  }

  /** Tick after tick, and nothing received. */
  ghost predicate Ticking(es: seq<Entry>, maxRetries: nat, servers: seq<bool>) {
    forall k :: 0 <= k < |es| - 1 ==> Checked(es[k], es[k + 1], maxRetries, servers)
  }

  /** With every server set, an entry that nobody answers waits for exactly the ticks it has left: it is not given
      up before each server has been asked as often as it may be. */
  lemma {:induction false} WaitsItsTime(es: seq<Entry>, maxRetries: nat, servers: seq<bool>, n: nat)
    requires n < |es| && Ticking(es, maxRetries, servers) && forall k :: 0 <= k < |servers| ==> servers[k]
    requires es[0].state.ASKING? && TimerOk(es[0], maxRetries, |servers|)
    ensures if n < TicksLeft(es[0], maxRetries, |servers|)
      then es[n].state.ASKING? && TimerOk(es[n], maxRetries, |servers|)
           && TicksLeft(es[n], maxRetries, |servers|) + n == TicksLeft(es[0], maxRetries, |servers|)
      else es[n].state.UNUSED?
  {
    if n > 0 {
      var k := n - 1;
      WaitsItsTime(es, maxRetries, servers, k);
      assert Checked(es[k], es[k + 1], maxRetries, servers);
      if es[k].state.ASKING? {
        GivesUpExactlyWhen(es[k], maxRetries, servers);
        if !GivesUp(es[k], maxRetries, servers) { NextTryIsOneTick(es[k], maxRetries, servers); }
      }
    }
  }

  /** An answer is kept for exactly its lifetime. */
  lemma {:induction false} KeptForItsLifetime(es: seq<Entry>, maxRetries: nat, servers: seq<bool>, n: nat)
    requires n < |es| && Ticking(es, maxRetries, servers) && es[0].state.DONE? && es[0].ttl > 0
    ensures if n < es[0].ttl then es[n] == es[0].(ttl := es[0].ttl - n) else es[n].state.UNUSED?
  {
    if n > 0 {
      KeptForItsLifetime(es, maxRetries, servers, n - 1);
      var k := n - 1;
      assert Checked(es[k], es[k + 1], maxRetries, servers);
    }
  }

  /** The request in slot `r` after the entries below `n` have been checked. */
  ghost predicate TickedTo(table: seq<Entry>, reqs: seq<Req>, table': seq<Entry>, reqs': seq<Req>,
                           called': multiset<ReqId>,
                           maxRetries: nat, servers: seq<bool>, n: nat, r: int)
    requires Occupied(reqs, r)
  {
    || called'[reqs[r].found.value] >= 1
    || (|table'| == |table| && |reqs'| == |reqs| && reqs'[r] == reqs[r] && Asking(table, reqs[r].idx)
        && var e, e' := table[reqs[r].idx], table'[reqs[r].idx];
           if reqs[r].idx < n then !GivesUp(e, maxRetries, servers) && e.tmr >= 1 && e' == NextTry(e, maxRetries)
           else e' == e)
  }

  lemma TickedOne(table: seq<Entry>, reqs: seq<Req>, table0: seq<Entry>, reqs0: seq<Req>, called0: multiset<ReqId>,
                  table1: seq<Entry>, reqs1: seq<Req>, called1: multiset<ReqId>,
                  maxRetries: nat, servers: seq<bool>, n: nat, r: int)
    requires Occupied(reqs, r) && TickedTo(table, reqs, table0, reqs0, called0, maxRetries, servers, n, r)
    requires n < |table0| && OnlyEntry(table0, table1, n) && Checked(table0[n], table1[n], maxRetries, servers)
    requires Grows(called0, called1)
    requires if table0[n].state.ASKING? && GivesUp(table0[n], maxRetries, servers)
      then ClearedFor(reqs0, reqs1, n) && InvokedFor(reqs0, called1, n)
      else reqs1 == reqs0
    ensures TickedTo(table, reqs, table1, reqs1, called1, maxRetries, servers, n + 1, r)
  {
    if called0[reqs[r].found.value] == 0 {
      assert Occupied(reqs0, r);
    }
  }

  /** Whoever waited for entry `idx` was told `answer`. */
  ghost predicate ToldFor(reqs: seq<Req>, told: map<ReqId, Option<seq<Byte>>>, idx: nat, answer: Option<seq<Byte>>) {
    forall r :: Occupied(reqs, r) && reqs[r].idx == idx ==>
      reqs[r].found.value in told && told[reqs[r].found.value] == answer
  }

  /** The first `n` request slots have been dealt with: those for entry `idx` were called back and cleared. */
  ghost predicate ServedUpTo(reqs: seq<Req>, reqs': seq<Req>, called: multiset<ReqId>,
                             told: map<ReqId, Option<seq<Byte>>>, idx: nat, n: nat, answer: Option<seq<Byte>>) {
    && n <= |reqs| == |reqs'| && ClearedFor(reqs[..n], reqs'[..n], idx) && reqs'[n..] == reqs[n..]
    && InvokedFor(reqs[..n], called, idx) && ToldFor(reqs[..n], told, idx, answer)
  }

  lemma ServedNext(reqs: seq<Req>, reqs': seq<Req>, called: multiset<ReqId>,
                   told: map<ReqId, Option<seq<Byte>>>, idx: nat, n: nat, answer: Option<seq<Byte>>)
    requires n < |reqs| && ServedUpTo(reqs, reqs', called, told, idx, n, answer)
    ensures reqs'[n] == reqs[n]
    ensures if reqs[n].found.Some? && reqs[n].idx == idx
      then ServedUpTo(reqs, reqs'[n := reqs[n].(found := None)], called + multiset{reqs[n].found.value},
                      told[reqs[n].found.value := answer], idx, n + 1, answer)
      else ServedUpTo(reqs, reqs', called, told, idx, n + 1, answer)
  {
    assert reqs'[n] == reqs'[n..][0] && reqs[n] == reqs[n..][0];
    assert reqs[n + 1..] == reqs[n..][1..] && reqs'[n + 1..] == reqs'[n..][1..];
    assert reqs'[n := reqs[n].(found := None)][n + 1..] == reqs'[n + 1..];
    forall r | Occupied(reqs[..n + 1], r) && r < n ensures Occupied(reqs[..n], r) {}
    forall r | 0 <= r < n ensures reqs'[r] == if reqs[r].idx == idx then reqs[r].(found := None) else reqs[r] {
      assert reqs[..n][r] == reqs[r] && reqs'[..n][r] == reqs'[r];
    }
  }

  // ---------------------------------------------------------------- responses

  /** What a packet whose id matches a waiting entry turns out to be. */
  datatype Packet =
    | Unacceptable           // not a response, wrong question, wrong server, wrong name, cut short
    | ServerError            // an error code in the flags
    | Answer(addr: seq<Byte>, ttl: nat)  // an address of the type asked for
    | NoAnswer               // a proper response without one

  const MAX_TTL: nat := 604800

  /** dns_call_found narrows the requested type to that of the address. */
  function Settled(t: AddrType): AddrType {
    if t.V6? || t.V6_V4? then V6 else V4
  }

  /** What dns_recv makes of the entry the packet is for. */
  predicate Responded(e: Entry, e': Entry, packet: Packet, servers: seq<bool>, ports: nat) {
    match packet
    case Unacceptable => e' == e
    case ServerError =>
      if BackupAvailable(e, servers) then e' == e.(server := e.server + 1, tmr := 1, retries := 0) else e'.state.UNUSED?
    case Answer(addr, ttl) =>
      if ttl == 0 then e'.state.UNUSED?
      else e' == e.(state := DONE, addr := addr, ttl := if ttl < MAX_TTL then ttl else MAX_TTL, pcb := ports,
                    addrType := Settled(e.addrType))
    case NoAnswer =>
      if HasFallback(e.addrType) && 0 < |servers| && servers[0]
      then e' == e.(addrType := if e.addrType.V4_V6? then V6 else V4, txid := e'.txid,
                    server := 0, tmr := 1, retries := 0)
      else e'.state.UNUSED?
  }

  /** No packet makes a request wait longer than it might have. */
  lemma RespondedIsNearer(e: Entry, e': Entry, packet: Packet, maxRetries: nat, servers: seq<bool>, ports: nat)
    requires e.state.ASKING? && TimerOk(e, maxRetries, |servers|) && Responded(e, e', packet, servers, ports)
    requires e'.state.ASKING?
    ensures Patience(e', maxRetries, |servers|) <= Patience(e, maxRetries, |servers|)
  {
    if packet.ServerError? {
      assert TicksLeft(e', maxRetries, |servers|) == AllServers(|servers| - 1 - e.server, maxRetries);
    } else if packet.NoAnswer? {
      assert TicksLeft(e', maxRetries, |servers|) == AllServers(|servers|, maxRetries);
    }
  }

  lemma OneEntryKept(table: seq<Entry>, reqs: seq<Req>, table': seq<Entry>, reqs': seq<Req>, called': multiset<ReqId>,
                     maxRetries: nat, servers: nat, idx: nat)
    requires ReqsOkBut(table, reqs, -1) && OnlyEntry(table, table', idx) && Asking(table, idx)
    requires if Asking(table', idx)
      then reqs' == reqs && Patience(table'[idx], maxRetries, servers) <= Patience(table[idx], maxRetries, servers)
      else ClearedFor(reqs, reqs', idx) && InvokedFor(reqs, called', idx)
    ensures AllKept(table, reqs, table', reqs', called', maxRetries, servers, 0)
  {
    forall r | Occupied(reqs, r) ensures Kept(table, reqs, table', reqs', called', maxRetries, servers, 0, r) {
      assert Asking(table, reqs[r].idx);
    }
  }

  lemma SameKept(table: seq<Entry>, reqs: seq<Req>, called': multiset<ReqId>, maxRetries: nat, servers: nat)
    requires ReqsOkBut(table, reqs, -1)
    ensures AllKept(table, reqs, table, reqs, called', maxRetries, servers, 0)
  {
    forall r | Occupied(reqs, r) ensures Kept(table, reqs, table, reqs, called', maxRetries, servers, 0, r) {
      assert Asking(table, reqs[r].idx);
    }
  }

  // ---------------------------------------------------------------- accepting requests

  /** How far an entry's sequence number is behind, as the u8 difference. */
  function Age(e: Entry, seqno: nat): nat {
    (seqno - e.seqno) % 256
  }

  predicate Reusable(table: seq<Entry>, seqno: nat, i: int) {
    0 <= i < |table| && (table[i].state.UNUSED? || (table[i].state.DONE? && Age(table[i], seqno) > 0))
  }

  /** Slot `r` holds the callback for an entry that waits for this name and type. */
  predicate Holds(table: seq<Entry>, reqs: seq<Req>, found: Option<ReqId>, name: nat, addrType: AddrType, r: int) {
    0 <= r < |reqs| && reqs[r].found == found && Duplicate(table, name, addrType, reqs[r].idx)
  }

  ghost predicate WaitsFor(table: seq<Entry>, reqs: seq<Req>, found: Option<ReqId>, name: nat, addrType: AddrType) {
    exists r :: Holds(table, reqs, found, name, addrType, r)
  }

  /** `j` comes after `last` and before `k`, going round. */
  predicate Between(last: nat, j: nat, k: nat) {
    if last < k then last < j < k else last < j || j < k
  }

  ghost predicate AnyReusable(table: seq<Entry>, seqno: nat) {
    exists i :: Reusable(table, seqno, i)
  }

  ghost predicate AnyDuplicate(table: seq<Entry>, name: nat, addrType: AddrType) {
    exists i :: Duplicate(table, name, addrType, i)
  }

  ghost predicate AnyOpen(pcbs: seq<bool>) {
    exists k :: Open(pcbs, k)
  }

  predicate FreeSlot(reqs: seq<Req>) {
    exists r :: 0 <= r < |reqs| && !Occupied(reqs, r)
  }

  predicate Duplicate(table: seq<Entry>, name: nat, addrType: AddrType, i: int) {
    Asking(table, i) && table[i].name == name && table[i].addrType == addrType
  }

  ghost function Accept(accepted: set<ReqId>, found: Option<ReqId>): set<ReqId> {
    if found.Some? then accepted + {found.value} else accepted
  }

  /** A request put into a free slot for the entry on its way in. */
  lemma ReserveSlot(table: seq<Entry>, reqs: seq<Req>, pcbs: seq<bool>, maxRetries: nat, servers: nat, idx: nat,
                    r: nat, q: Req)
    requires TablesOkBut(table, reqs, pcbs, maxRetries, servers, idx) && r < |reqs| && !Occupied(reqs, r)
    requires q.idx == idx
    ensures TablesOkBut(table, reqs[r := q], pcbs, maxRetries, servers, idx)
  {
    var reqs' := reqs[r := q];
    forall x | Occupied(reqs', x) ensures reqs'[x].idx == idx || Asking(table, reqs'[x].idx) {
      if x != r { assert Occupied(reqs, x); }
    }
  }

  /** A request put into a free slot for a waiting entry, or a null callback. */
  lemma FillSlot(table: seq<Entry>, reqs: seq<Req>, pcbs: seq<bool>, maxRetries: nat, servers: nat, r: nat, q: Req,
                 called: multiset<ReqId>)
    requires TablesOkBut(table, reqs, pcbs, maxRetries, servers, -1) && r < |reqs| && !Occupied(reqs, r)
    requires (q.found.None? || Asking(table, q.idx))
    ensures TablesOkBut(table, reqs[r := q], pcbs, maxRetries, servers, -1)
    ensures AllKept(table, reqs, table, reqs[r := q], called, maxRetries, servers, 0)
  {
    var reqs' := reqs[r := q];
    forall x | Occupied(reqs', x) ensures Asking(table, reqs'[x].idx) {
      if x != r { assert Occupied(reqs, x); }
    }
    forall x | Occupied(reqs, x) ensures Kept(table, reqs, table, reqs', called, maxRetries, servers, 0, x) {
      assert Asking(table, reqs[x].idx);
    }
  }

  /** Using an entry that did not wait, and a free slot, leaves all requests as they were. */
  lemma IdleKept(table: seq<Entry>, reqs: seq<Req>, table': seq<Entry>, reqs': seq<Req>, called': multiset<ReqId>,
                 maxRetries: nat, servers: nat, idx: nat, r: nat)
    requires ReqsOkBut(table, reqs, -1) && OnlyEntry(table, table', idx) && !Asking(table, idx)
    requires r < |reqs| && !Occupied(reqs, r)
    requires |reqs'| == |reqs| && forall x :: 0 <= x < |reqs| && x != r ==> reqs'[x] == reqs[x] || reqs[x].idx == idx
    ensures AllKept(table, reqs, table', reqs', called', maxRetries, servers, 0)
  {
    forall x | Occupied(reqs, x) ensures Kept(table, reqs, table', reqs', called', maxRetries, servers, 0, x) {
      assert Asking(table, reqs[x].idx);
    }
  }

  // ---------------------------------------------------------------- waiting times of callbacks

  /** Callback `id` has been invoked, or will be after at most `n` more ticks. */
  ghost predicate Within(table: seq<Entry>, reqs: seq<Req>, called: multiset<ReqId>, maxRetries: nat, servers: nat,
                         id: ReqId, n: int) {
    || called[id] >= 1
    || exists r :: Occupied(reqs, r) && reqs[r].found.value == id && Asking(table, reqs[r].idx)
                   && Patience(table[reqs[r].idx], maxRetries, servers) <= n
  }

  lemma WithinStep(table: seq<Entry>, reqs: seq<Req>, called: multiset<ReqId>, table': seq<Entry>, reqs': seq<Req>,
                   called': multiset<ReqId>, maxRetries: nat, servers: nat, d: nat, id: ReqId, n: int)
    requires Within(table, reqs, called, maxRetries, servers, id, n)
    requires AllKept(table, reqs, table', reqs', called', maxRetries, servers, d)
    requires called[id] <= called'[id]
    ensures Within(table', reqs', called', maxRetries, servers, id, n - d)
  {
    if called'[id] == 0 {
      var r :| Occupied(reqs, r) && reqs[r].found.value == id && Asking(table, reqs[r].idx)
               && Patience(table[reqs[r].idx], maxRetries, servers) <= n;
      assert Kept(table, reqs, table', reqs', called', maxRetries, servers, d, r);
      assert Occupied(reqs', r);
    }
  }

  lemma {:induction false} CountedSlot(reqs: seq<Req>, id: ReqId) returns (r: nat)
    requires Count(reqs, id) > 0
    ensures Occupied(reqs, r) && reqs[r].found == Some(id)
  {
    var n := |reqs| - 1;
    if reqs[n].found == Some(id) { r := n; } else { r := CountedSlot(reqs[..n], id); }
  }

  /** Every accepted callback is at most two rounds over all servers away. */
  lemma AcceptedWithin(table: seq<Entry>, reqs: seq<Req>, pcbs: seq<bool>, accepted: set<ReqId>,
                       called: multiset<ReqId>,
                       maxRetries: nat, servers: nat, id: ReqId)
    requires TablesOkBut(table, reqs, pcbs, maxRetries, servers, -1) && CallsOk(reqs, accepted, called)
    requires id in accepted
    ensures Within(table, reqs, called, maxRetries, servers, id, 2 * AllServers(servers, maxRetries))
  {
    if called[id] == 0 {
      var r := CountedSlot(reqs, id);
      assert Asking(table, reqs[r].idx);
      PatienceBound(table[reqs[r].idx], maxRetries, servers);
    }
  }

  ghost predicate AllWithin(table: seq<Entry>, reqs: seq<Req>, called: multiset<ReqId>, maxRetries: nat, servers: nat,
                            ids: set<ReqId>, n: int) {
    forall id :: id in ids ==> Within(table, reqs, called, maxRetries, servers, id, n)
  }

  lemma AllAcceptedWithin(table: seq<Entry>, reqs: seq<Req>, pcbs: seq<bool>, accepted: set<ReqId>,
                          called: multiset<ReqId>,
                          maxRetries: nat, servers: nat)
    requires TablesOkBut(table, reqs, pcbs, maxRetries, servers, -1) && CallsOk(reqs, accepted, called)
    ensures AllWithin(table, reqs, called, maxRetries, servers, accepted, 2 * AllServers(servers, maxRetries))
  {
    var bound := 2 * AllServers(servers, maxRetries);
    forall id | id in accepted ensures Within(table, reqs, called, maxRetries, servers, id, bound) {
      AcceptedWithin(table, reqs, pcbs, accepted, called, maxRetries, servers, id);
    }
  }

  lemma AllWithinStep(table: seq<Entry>, reqs: seq<Req>, called: multiset<ReqId>, table': seq<Entry>, reqs': seq<Req>,
                      called': multiset<ReqId>, maxRetries: nat, servers: nat, d: nat, ids: set<ReqId>, n: int)
    requires AllWithin(table, reqs, called, maxRetries, servers, ids, n)
    requires AllKept(table, reqs, table', reqs', called', maxRetries, servers, d) && Grows(called, called')
    ensures AllWithin(table', reqs', called', maxRetries, servers, ids, n - d)
  {
    forall id | id in ids ensures Within(table', reqs', called', maxRetries, servers, id, n - d) {
      WithinStep(table, reqs, called, table', reqs', called', maxRetries, servers, d, id, n);
    }
  }

  /** Nobody waits with no ticks left, so everybody has been called back, and only once. */
  lemma NoTicksLeft(table: seq<Entry>, reqs: seq<Req>, pcbs: seq<bool>, accepted: set<ReqId>, called: multiset<ReqId>,
                    maxRetries: nat, servers: nat, ids: set<ReqId>, n: int)
    requires TablesOkBut(table, reqs, pcbs, maxRetries, servers, -1) && CallsOk(reqs, accepted, called)
    requires AllWithin(table, reqs, called, maxRetries, servers, ids, n) && n <= 0
    ensures forall id :: id in ids ==> called[id] == 1
  {
    forall id | id in ids ensures called[id] == 1 {
      assert Within(table, reqs, called, maxRetries, servers, id, n);
    }
  }

  // ---------------------------------------------------------------- transaction ids

  ghost function UsedTxids(table: seq<Entry>, n: nat): set<nat>
    requires n <= |table|
  {
    if n == 0 then {} else UsedTxids(table, n - 1) + (if table[n - 1].state.ASKING? then {table[n - 1].txid} else {})
  }

  lemma {:induction false} UsedTxidsAre(table: seq<Entry>, n: nat)
    requires n <= |table|
    ensures |UsedTxids(table, n)| <= n
    ensures forall i :: 0 <= i < n && table[i].state.ASKING? ==> table[i].txid in UsedTxids(table, n)
  {
    if n > 0 { UsedTxidsAre(table, n - 1); }
  }

  lemma {:induction false} SomeIdIsFree(used: set<nat>, n: nat) returns (t: nat)
    requires |used| < n
    ensures t < n && t !in used
  {
    if n - 1 !in used {
      t := n - 1;
    } else {
      t := SomeIdIsFree(used - {n - 1}, n - 1);
    }
  }

  predicate TxidFree(table: seq<Entry>, txid: nat) {
    forall i :: 0 <= i < |table| && table[i].state.ASKING? ==> table[i].txid != txid
  }

  /** With at most 255 entries some 16-bit id is always free, so dns_create_txid can succeed. */
  lemma TxidExists(table: seq<Entry>)
    requires |table| <= 255
    ensures exists t: nat :: t < 0x10000 && TxidFree(table, t)
  {
    UsedTxidsAre(table, |table|);
    var t := SomeIdIsFree(UsedTxids(table, |table|), 0x10000);
    assert TxidFree(table, t);
  }
}
