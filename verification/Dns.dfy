/** The resolver of lwip-2.1.3/src/core/dns.c as the object its functions update in place. */
module Dns {
  import opened Common
  import opened DnsTables
  import DnsNames
  import DnsPackets
  import opened DnsExchange

  /** A query packet: the entry's name, address type and id, and the server it goes to. */
  datatype Query = Query(name: nat, addrType: AddrType, txid: nat, server: nat)

  function QueryOf(e: Entry): Query {
    Query(e.name, e.addrType, e.txid, e.server)
  }

  datatype Result = ERR_INPROGRESS | ERR_MEM

  datatype Event =
    | TimerTick
    | Received(txid: nat, packet: Packet)
    | Requested(name: nat, addrType: AddrType, found: Option<ReqId>, portOk: bool)
    | ServerSet(k: nat, valid: bool)

  predicate Asks(e: Event, id: ReqId) {
    e.Requested? && e.found == Some(id)
  }

  /** Each request is a call of its own. */
  ghost predicate FreshIds(events: seq<Event>, accepted: set<ReqId>) {
    forall n, id :: 0 <= n < |events| && Asks(events[n], id) ==>
      id !in accepted && forall m :: 0 <= m < n ==> !Asks(events[m], id)
  }

  function Ticks(events: seq<Event>): nat {
    if events == [] then 0 else Ticks(events[..|events| - 1]) + (if events[|events| - 1].TimerTick? then 1 else 0)
  }

  class Resolver {
    const maxRetries: nat
    var table: seq<Entry>
    var requests: seq<Req>
    /** dns_pcbs: whether a pcb exists at each index */
    var pcbs: seq<bool>
    /** dns_servers: whether a server address is set at each index */
    var servers: seq<bool>
    var lastPcb: nat
    var seqno: nat
    /** callbacks accepted with ERR_INPROGRESS, and the invocations so far */
    ghost var accepted: set<ReqId>
    ghost var called: multiset<ReqId>
    /** the address each callback was last given, None for none */
    ghost var told: map<ReqId, Option<seq<Byte>>>

    /** the queries dns_send set out to send, oldest first; that no pbuf is to be had, or that udp_sendto fails,
        changes nothing in the tables */
    ghost var attempts: seq<Query>

    ghost predicate ValidBut(idx: int)
      reads this
    {
      && maxRetries >= 1 && |table| <= 255 && |requests| == |table| && lastPcb < |pcbs| && |servers| >= 1
      && TablesOkBut(table, requests, pcbs, maxRetries, |servers|, idx)
      && CallsOk(requests, accepted, called)
    }

    /** In every state between calls: waiting entries have distinct ids, occupied request slots point to
        waiting entries, a source port is open exactly if a waiting entry uses it, and every accepted
        callback is held once or was invoked once. */
    ghost predicate Valid()
      reads this
    {
      ValidBut(-1)
    }

    constructor (retries: nat, tableSize: nat, sourcePorts: nat, nservers: nat)
      requires retries >= 1 && tableSize <= 255 && sourcePorts >= 1 && nservers >= 1
      ensures Valid() && accepted == {} && called == multiset{}
    {
      maxRetries := retries;
      table := seq(tableSize, _ => Entry(UNUSED, 0, V4, 0, 0, 0, 0, 0, 0, 0, []));
      requests := seq(tableSize, _ => Req(None, 0));
      pcbs := seq(sourcePorts, _ => false);
      servers := seq(nservers, _ => false);
      lastPcb, seqno := 0, 0;
      accepted, called, told, attempts := {}, multiset{}, map[], [];
      new;
      forall id ensures Count(requests, id) == 0 { CountNone(requests, id); }
    }

    static lemma {:induction false} CountNone(reqs: seq<Req>, id: ReqId)
      requires forall r :: 0 <= r < |reqs| ==> reqs[r].found != Some(id)
      ensures Count(reqs, id) == 0
    {
      if reqs != [] { CountNone(reqs[..|reqs| - 1], id); }
    }

    // ---------------------------------------------------------------- dns_call_found

    method InvokeCallbacks(idx: nat, answer: Option<seq<Byte>>)
      requires ValidBut(idx)
      modifies this`requests, this`called, this`told
      ensures ValidBut(idx)
      ensures ClearedFor(old(requests), requests, idx) && InvokedFor(old(requests), called, idx)
      ensures Grows(old(called), called) && ToldFor(old(requests), told, idx, answer)
    {
      ghost var reqs := requests;
      ClearSlots(idx, answer);
      ClearedIsOk(table, reqs, requests, pcbs, maxRetries, |servers|, idx);
    }

    /** One callback is invoked with the answer, and its slot cleared. */
    method CallSlot(i: nat, answer: Option<seq<Byte>>)
      requires CallsOk(requests, accepted, called) && i < |requests| && requests[i].found.Some?
      modifies this`requests, this`called, this`told
      ensures CallsOk(requests, accepted, called)
      ensures requests == old(requests)[i := old(requests[i]).(found := None)]
      ensures called == old(called) + multiset{old(requests[i].found.value)}
      ensures told == old(told)[old(requests[i].found.value) := answer]
    {
      CallsAfterCall(requests, i, accepted, called);
      called := called + multiset{requests[i].found.value};
      told := told[requests[i].found.value := answer];
      requests := requests[i := requests[i].(found := None)];
    }

    /** The first loop: invoke and clear every callback that waits for entry `idx`. */
    method ClearSlots(idx: nat, answer: Option<seq<Byte>>)
      requires CallsOk(requests, accepted, called)
      modifies this`requests, this`called, this`told
      ensures CallsOk(requests, accepted, called)
      ensures ClearedFor(old(requests), requests, idx) && InvokedFor(old(requests), called, idx)
      ensures Grows(old(called), called) && ToldFor(old(requests), told, idx, answer)
    {
      ghost var reqs := requests;
      for i := 0 to |requests|
        invariant |requests| == |reqs| && CallsOk(requests, accepted, called) && Grows(old(called), called)
        invariant ServedUpTo(reqs, requests, called, told, idx, i, answer)
      {
        ServedNext(reqs, requests, called, told, idx, i, answer);
        if requests[i].found.Some? && requests[i].idx == idx {
          CallSlot(i, answer);
        }
      }
      assert reqs[..|reqs|] == reqs && requests[..|requests|] == requests;
    }

    /** The second loop: whether another waiting entry uses the same source port. */
    method PortShared(idx: nat) returns (shared: bool)
      requires idx < |table|
      ensures shared <==> exists i :: i != idx && Uses(table, i, table[idx].pcb)
    {
      for i := 0 to |table|
        invariant forall j :: 0 <= j < i && j != idx ==> !Uses(table, j, table[idx].pcb)
      {
        if i != idx && table[i].state.ASKING? && table[i].pcb == table[idx].pcb {
          assert Uses(table, i, table[idx].pcb);
          return true;
        }
      }
      return false;
    }

    /** dns_call_found, `answered` saying whether there is an address: afterwards nothing waits for entry `idx`
        and it holds no source port. */
    method CallFound(idx: nat, answered: bool)
      requires ValidBut(idx) && idx < |table| && table[idx].pcb < |pcbs|
      modifies this`requests, this`called, this`told, this`table, this`pcbs
      ensures ValidBut(idx) && |pcbs| == |old(pcbs)|
      ensures OnlyEntry(old(table), table, idx)
      ensures var e := old(table[idx]);
        table[idx] == e.(pcb := |pcbs|, addrType := if answered then Settled(e.addrType) else e.addrType)
      ensures ClearedFor(old(requests), requests, idx) && InvokedFor(old(requests), called, idx)
      ensures Grows(old(called), called)
      ensures ToldFor(old(requests), told, idx, if answered then Some(old(table[idx].addr)) else None)
    {
      if answered {
        var e := table[idx].(addrType := Settled(table[idx].addrType));
        Replace(table, requests, pcbs, maxRetries, |servers|, idx, e);
        table := table[idx := e];
      }
      InvokeCallbacks(idx, if answered then Some(table[idx].addr) else None);
      ReleasePort(idx);
    }

    /** Close the entry's source port unless another waiting entry uses it. */
    method ReleasePort(idx: nat)
      requires ValidBut(idx) && idx < |table| && table[idx].pcb < |pcbs|
      modifies this`table, this`pcbs
      ensures ValidBut(idx) && |pcbs| == |old(pcbs)|
      ensures table == old(table)[idx := old(table[idx]).(pcb := |pcbs|)]
    {
      var shared := PortShared(idx);
      ghost var t, p := table, pcbs;
      if !shared {
        pcbs := pcbs[table[idx].pcb := false];
      }
      table := table[idx := table[idx].(pcb := |pcbs|)];
      DropPort(t, requests, p, pcbs, maxRetries, |servers|, idx);
    }

    /** Give entry `idx` up: call back with no address and flush it. */
    method Flush(idx: nat)
      requires ValidBut(idx) && idx < |table| && table[idx].pcb < |pcbs|
      modifies this`requests, this`called, this`told, this`table, this`pcbs
      ensures Valid() && |pcbs| == |old(pcbs)|
      ensures OnlyEntry(old(table), table, idx) && table[idx].state.UNUSED?
      ensures ClearedFor(old(requests), requests, idx) && InvokedFor(old(requests), called, idx)
      ensures ToldFor(old(requests), told, idx, None)
      ensures Grows(old(called), called)
    {
      CallFound(idx, false);
      Replace(table, requests, pcbs, maxRetries, |servers|, idx, table[idx].(state := UNUSED));
      table := table[idx := table[idx].(state := UNUSED)];
      Settle(table, requests, pcbs, maxRetries, |servers|, idx);
    }

    // ---------------------------------------------------------------- dns_send and dns_check_entry

    /** dns_send for a waiting entry: an attempt to send a query to its server, or giving up if that server is not
        set any more. */
    method Send(idx: nat)
      requires ValidBut(idx) && Asking(table, idx) && Open(pcbs, table[idx].pcb)
      requires TimerOk(table[idx], maxRetries, |servers|)
      requires forall i :: i != idx && Asking(table, i) ==> table[i].txid != table[idx].txid
      modifies this`requests, this`called, this`told, this`table, this`pcbs, this`attempts
      ensures Valid() && |pcbs| == |old(pcbs)| && Grows(old(called), called)
      ensures OnlyEntry(old(table), table, idx)
      ensures servers[old(table[idx].server)] ==>
        && table[idx] == old(table[idx]) && requests == old(requests) && called == old(called) && pcbs == old(pcbs)
        && attempts == old(attempts) + [QueryOf(table[idx])]
      ensures !servers[old(table[idx].server)] ==>
        && table[idx].state.UNUSED?
        && ClearedFor(old(requests), requests, idx) && InvokedFor(old(requests), called, idx)
        && ToldFor(old(requests), told, idx, None) && attempts == old(attempts)
    {
      if !servers[table[idx].server] {
        Flush(idx);
      } else {
        attempts := attempts + [QueryOf(table[idx])];
        Rejoin(table, requests, pcbs, maxRetries, |servers|, idx);
      }
    }

    /** dns_create_txid: some id that no waiting entry uses, whichever the random numbers find. */
    method CreateTxid() returns (txid: nat)
      requires |table| <= 255
      ensures txid < 0x10000 && forall i :: Asking(table, i) ==> table[i].txid != txid
    {
      TxidExists(table);
      txid :| txid < 0x10000 && TxidFree(table, txid);
    }

    /** dns_check_entry on a NEW entry: it starts to wait for server 0. */
    method AskNew(i: nat)
      requires ValidBut(i) && i < |table| && table[i].state.NEW? && Open(pcbs, table[i].pcb)
      modifies this`requests, this`called, this`told, this`table, this`pcbs, this`attempts
      ensures Valid() && |pcbs| == |old(pcbs)| && Grows(old(called), called)
      ensures OnlyEntry(old(table), table, i)
      ensures servers[0] ==>
        && table[i] == old(table[i]).(txid := table[i].txid, state := ASKING, server := 0, tmr := 1, retries := 0)
        && requests == old(requests) && called == old(called) && pcbs == old(pcbs)
        && attempts == old(attempts) + [QueryOf(table[i])]
      ensures !servers[0] ==>
        && table[i].state.UNUSED? && ClearedFor(old(requests), requests, i) && InvokedFor(old(requests), called, i)
        && ToldFor(old(requests), told, i, None)
    {
      var txid := CreateTxid();
      var e := table[i].(txid := txid, state := ASKING, server := 0, tmr := 1, retries := 0);
      Replace(table, requests, pcbs, maxRetries, |servers|, i, e);
      ghost var t := table;
      table := table[i := e];
      forall j | j != i && Asking(table, j) ensures table[j].txid != txid { assert Asking(t, j); }
      Send(i);
    }

    /** The timer, retry and server fields after a tick, and what is to be done. */
    method NextTimer(entry: Entry) returns (e: Entry, giveUp: bool, send: bool)
      requires TimerOk(entry, maxRetries, |servers|)
      ensures e.server < |servers|
      ensures !giveUp ==> e == NextTry(entry, maxRetries) && TimerOk(e, maxRetries, |servers|)
      ensures e.pcb == entry.pcb && e.txid == entry.txid && e.state == entry.state
      ensures giveUp ==> GivesUp(entry, maxRetries, servers)
      ensures send <==> entry.tmr == 1 && !giveUp
      ensures GivesUp(entry, maxRetries, servers) && !giveUp ==> send && !servers[e.server]
      ensures send && !servers[e.server] ==> GivesUp(entry, maxRetries, servers)
    {
      e, giveUp, send := entry.(tmr := entry.tmr - 1), false, false;
      if e.tmr == 0 {
        e := e.(retries := e.retries + 1);
        if e.retries == maxRetries {
          if e.server + 1 < |servers| && servers[e.server + 1] {
            e := e.(server := e.server + 1, tmr := 1, retries := 0);
            send := true;
          } else {
            giveUp := true;
          }
        } else {
          e := e.(tmr := e.retries);
          send := true;
        }
      }
    }

    /** dns_check_entry on a waiting entry: one tick nearer, or given up. */
    method Retry(i: nat)
      requires Valid() && Asking(table, i)
      modifies this`requests, this`called, this`told, this`table, this`pcbs, this`attempts
      ensures Valid() && |pcbs| == |old(pcbs)| && Grows(old(called), called)
      ensures OnlyEntry(old(table), table, i)
      ensures !GivesUp(old(table[i]), maxRetries, servers) ==>
        && table[i] == NextTry(old(table[i]), maxRetries)
        && requests == old(requests) && called == old(called) && pcbs == old(pcbs)
        && attempts == old(attempts) + (if old(table[i].tmr) == 1 then [QueryOf(table[i])] else [])
      ensures GivesUp(old(table[i]), maxRetries, servers) ==>
        && table[i].state.UNUSED? && ClearedFor(old(requests), requests, i) && InvokedFor(old(requests), called, i)
        && ToldFor(old(requests), told, i, None)
    {
      Release(table, requests, pcbs, maxRetries, |servers|, i);
      ghost var t := table;
      var e, giveUp, send := NextTimer(table[i]);
      Replace(table, requests, pcbs, maxRetries, |servers|, i, e);
      table := table[i := e];
      forall j | j != i && Asking(table, j) ensures table[j].txid != table[i].txid { assert Asking(t, j); }
      if giveUp {
        Flush(i);
      } else if send {
        Send(i);
      } else {
        Rejoin(table, requests, pcbs, maxRetries, |servers|, i);
      }
    }

    /** dns_check_entry between calls. */
    method CheckEntry(i: nat)
      requires Valid() && i < |table|
      modifies this`requests, this`called, this`told, this`table, this`pcbs, this`attempts
      ensures Valid() && |pcbs| == |old(pcbs)| && Grows(old(called), called)
      ensures OnlyEntry(old(table), table, i)
      ensures Checked(old(table[i]), table[i], maxRetries, servers)
      ensures if old(table[i].state.ASKING?) && GivesUp(old(table[i]), maxRetries, servers)
        then ClearedFor(old(requests), requests, i) && InvokedFor(old(requests), called, i)
             && ToldFor(old(requests), told, i, None)
        else requests == old(requests) && called == old(called) && pcbs == old(pcbs)
    {
      match table[i].state {
        case NEW => assert false;
        case ASKING => Retry(i);
        case DONE =>
          var e := table[i];
          if e.ttl == 0 || e.ttl - 1 == 0 {
            e := e.(state := UNUSED, ttl := 0);
          } else {
            e := e.(ttl := e.ttl - 1);
          }
          ReplaceIdle(table, requests, pcbs, maxRetries, |servers|, i, e);
          table := table[i := e];
        case UNUSED =>
      }
    }

    /** dns_tmr: every entry is checked once, so every request that is not called back is one tick nearer. */
    method Tick()
      requires Valid()
      modifies this`requests, this`called, this`told, this`table, this`pcbs, this`attempts
      ensures Valid() && |table| == |old(table)| && Grows(old(called), called)
      ensures forall i :: 0 <= i < |table| ==> Checked(old(table[i]), table[i], maxRetries, servers)
      ensures AllKept(old(table), old(requests), table, requests, called, maxRetries, |servers|, 1)
    {
      ghost var t, reqs := table, requests;
      for i := 0 to |table|
        invariant Valid() && |table| == |t| && |requests| == |reqs| && Grows(old(called), called)
        invariant forall j :: i <= j < |table| ==> table[j] == t[j]
        invariant forall j :: 0 <= j < i ==> Checked(t[j], table[j], maxRetries, servers)
        invariant forall r :: Occupied(reqs, r) ==>
          TickedTo(t, reqs, table, requests, called, maxRetries, servers, i, r)
      {
        ghost var table0, requests0, called0 := table, requests, called;
        CheckEntry(i);
        forall r | Occupied(reqs, r) ensures TickedTo(t, reqs, table, requests, called, maxRetries, servers, i + 1, r) {
          TickedOne(t, reqs, table0, requests0, called0, table, requests, called, maxRetries, servers, i, r);
        }
      }
      forall r | Occupied(reqs, r) ensures Kept(t, reqs, table, requests, called, maxRetries, |servers|, 1, r) {
        if called[reqs[r].found.value] == 0 {
          NextTryIsOneTick(t[reqs[r].idx], maxRetries, servers);
        }
      }
    }

    // ---------------------------------------------------------------- dns_recv

    /** The address is copied, then dns_correct_response: cache the answer, call back with it, and forget an answer
        that must not be cached. */
    method CorrectResponse(i: nat, addr: seq<Byte>, ttl: nat)
      requires Valid() && Asking(table, i)
      modifies this`requests, this`called, this`told, this`table, this`pcbs
      ensures Valid() && |pcbs| == |old(pcbs)| && Grows(old(called), called)
      ensures OnlyEntry(old(table), table, i)
      ensures Responded(old(table[i]), table[i], Answer(addr, ttl), servers, |pcbs|)
      ensures ClearedFor(old(requests), requests, i) && InvokedFor(old(requests), called, i)
      ensures ToldFor(old(requests), told, i, Some(addr))
    {
      Release(table, requests, pcbs, maxRetries, |servers|, i);
      var e := table[i].(state := DONE, addr := addr, ttl := if ttl > MAX_TTL then MAX_TTL else ttl);
      Replace(table, requests, pcbs, maxRetries, |servers|, i, e);
      table := table[i := e];
      CallFound(i, true);
      if table[i].ttl == 0 {
        Replace(table, requests, pcbs, maxRetries, |servers|, i, table[i].(state := UNUSED));
        table := table[i := table[i].(state := UNUSED)];
      }
      Settle(table, requests, pcbs, maxRetries, |servers|, i);
    }

    /** Go on to the next server, which is set: as if the last retry had timed out. */
    method NextServer(i: nat)
      requires Valid() && Asking(table, i) && BackupAvailable(table[i], servers)
      modifies this`requests, this`called, this`told, this`table, this`pcbs, this`attempts
      ensures Valid() && |pcbs| == |old(pcbs)| && called == old(called) && requests == old(requests)
      ensures OnlyEntry(old(table), table, i)
      ensures table[i] == old(table[i]).(server := old(table[i].server) + 1, tmr := 1, retries := 0)
    {
      var e := table[i].(retries := maxRetries - 1, tmr := 1);
      Retime(table, requests, pcbs, maxRetries, |servers|, i, e);
      table := table[i := e];
      assert Valid() && !GivesUp(table[i], maxRetries, servers);
      CheckEntry(i);
    }

    /** An error code in the response: the next server if there is one, else give up. */
    method ErrorResponse(i: nat)
      requires Valid() && Asking(table, i)
      modifies this`requests, this`called, this`told, this`table, this`pcbs, this`attempts
      ensures Valid() && |pcbs| == |old(pcbs)| && Grows(old(called), called)
      ensures OnlyEntry(old(table), table, i)
      ensures Responded(old(table[i]), table[i], ServerError, servers, |pcbs|)
      ensures if Asking(table, i) then requests == old(requests)
        else ClearedFor(old(requests), requests, i) && InvokedFor(old(requests), called, i)
             && ToldFor(old(requests), told, i, None)
    {
      if table[i].server + 1 < |servers| && servers[table[i].server + 1] {
        NextServer(i);
      } else {
        Release(table, requests, pcbs, maxRetries, |servers|, i);
        Flush(i);
      }
    }

    /** A response without a usable answer: once more for the other address type if asked for, else give up. */
    method EmptyResponse(i: nat)
      requires Valid() && Asking(table, i)
      modifies this`requests, this`called, this`told, this`table, this`pcbs, this`attempts
      ensures Valid() && |pcbs| == |old(pcbs)| && Grows(old(called), called)
      ensures OnlyEntry(old(table), table, i)
      ensures Responded(old(table[i]), table[i], NoAnswer, servers, |pcbs|)
      ensures if Asking(table, i) then requests == old(requests) && attempts == old(attempts) + [QueryOf(table[i])]
        else ClearedFor(old(requests), requests, i) && InvokedFor(old(requests), called, i)
             && ToldFor(old(requests), told, i, None)
    {
      Release(table, requests, pcbs, maxRetries, |servers|, i);
      if table[i].addrType.V4_V6? || table[i].addrType.V6_V4? {
        var e := table[i].(addrType := if table[i].addrType.V4_V6? then V6 else V4, state := NEW);
        Replace(table, requests, pcbs, maxRetries, |servers|, i, e);
        table := table[i := e];
        AskNew(i);
      } else {
        Flush(i);
      }
    }

    /** dns_recv: a packet concerns at most the one entry that waits for its id. */
    method Recv(txid: nat, packet: Packet)
      requires Valid()
      modifies this`requests, this`called, this`told, this`table, this`pcbs, this`attempts
      ensures Valid() && |table| == |old(table)| && Grows(old(called), called)
      ensures forall i :: 0 <= i < |table| ==>
        if Asking(old(table), i) && old(table)[i].txid == txid
        then Responded(old(table)[i], table[i], packet, servers, |pcbs|)
        else table[i] == old(table)[i]
      ensures forall i :: Asking(old(table), i) && old(table)[i].txid == txid && !Asking(table, i) ==>
        ToldFor(old(requests), told, i, if packet.Answer? then Some(packet.addr) else None)
      ensures packet.NoAnswer? ==>
        forall i :: Asking(old(table), i) && old(table)[i].txid == txid && Asking(table, i) ==>
          attempts == old(attempts) + [QueryOf(table[i])]
      ensures AllKept(old(table), old(requests), table, requests, called, maxRetries, |servers|, 0)
    {
      ghost var t, reqs := table, requests;
      for i := 0 to |table|
        invariant table == t && requests == reqs && called == old(called) && pcbs == old(pcbs)
        invariant forall j :: 0 <= j < i ==> !(Asking(t, j) && t[j].txid == txid)
      {
        if table[i].state.ASKING? && table[i].txid == txid {
          assert Asking(t, i);
          forall j | j != i && Asking(t, j) ensures t[j].txid != txid {}
          match packet {
            case Unacceptable =>
            case ServerError => ErrorResponse(i);
            case Answer(addr, ttl) => CorrectResponse(i, addr, ttl);
            case NoAnswer => EmptyResponse(i);
          }
          if Asking(table, i) { RespondedIsNearer(t[i], table[i], packet, maxRetries, servers, |pcbs|); }
          OneEntryKept(t, reqs, table, requests, called, maxRetries, |servers|, i);
          return;
        }
      }
      SameKept(t, reqs, called, maxRetries, |servers|);
    }

    /** What the packet is to the entry that waits for its id, if there is one. */
    method KindOf(p: seq<Byte>, texts: nat -> DnsNames.Memory, fromAsked: bool) returns (kind: Packet)
      requires Valid() && 2 <= |p| <= 0xFFFF
      ensures forall i :: Asking(table, i) && IsFor(p, table[i]) ==> kind == KindFor(table[i], p, texts, fromAsked)
    {
      kind := Unacceptable;
      var txid := DnsPackets.IdOf(p);
      for i := 0 to |table|
        invariant forall j :: 0 <= j < i ==> !(Asking(table, j) && table[j].txid == txid)
      {
        if table[i].state.ASKING? && table[i].txid == txid {
          assert Asking(table, i);
          forall j | j != i && Asking(table, j) ensures table[j].txid != txid {}
          kind := DnsPackets.ClassifyPacket(p, texts(table[i].name), WantsV6(table[i].addrType), fromAsked);
          return;
        }
      }
    }

    /** dns_recv on the bytes of a packet: `texts` gives the text a name stands for, `fromAsked` tells whether
        the packet comes from the server the entry asks.  Requests of an entry that no longer waits then have
        been called back. */
    method ReceivePacket(p: seq<Byte>, texts: nat -> DnsNames.Memory, fromAsked: bool)
      requires Valid() && |p| <= 0xFFFF
      modifies this`requests, this`called, this`told, this`table, this`pcbs, this`attempts
      ensures Valid() && |table| == |old(table)| && Grows(old(called), called)
      ensures forall i :: 0 <= i < |table| ==>
        if Asking(old(table), i) && IsFor(p, old(table)[i])
        then Responded(old(table)[i], table[i], KindFor(old(table)[i], p, texts, fromAsked), servers, |pcbs|)
        else table[i] == old(table)[i]
      ensures forall i, r ::
        fromAsked && Asking(old(table), i) && Answers(p, old(table)[i], texts(old(table)[i].name), r) ==>
          AnsweredBy(old(table)[i], table[i], r.records, servers, i, old(requests), told,
                     attempts == old(attempts) + [QueryOf(table[i])])
      ensures AllKept(old(table), old(requests), table, requests, called, maxRetries, |servers|, 0)
      ensures forall r :: Occupied(old(requests), r) && !Asking(table, old(requests)[r].idx) ==>
        called[old(requests)[r].found.value] >= 1
    {
      if |p| < 2 {
        SameKept(table, requests, called, maxRetries, |servers|);
        return;
      }
      var kind := KindOf(p, texts, fromAsked);
      ghost var reqs, sent := requests, attempts;
      Recv(DnsPackets.IdOf(p), kind);
      forall i, r |
        fromAsked && Asking(old(table), i) && Answers(p, old(table)[i], texts(old(table)[i].name), r)
        ensures AnsweredBy(old(table)[i], table[i], r.records, servers, i, reqs, told,
                           attempts == sent + [QueryOf(table[i])])
      {
        AnswerReaches(old(table)[i], table[i], p, texts, r, servers, |pcbs|, i, reqs, told,
                      attempts == sent + [QueryOf(table[i])]);
      }
      forall r | Occupied(reqs, r) && !Asking(table, reqs[r].idx) ensures called[reqs[r].found.value] >= 1 {
        assert Kept(old(table), reqs, table, requests, called, maxRetries, |servers|, 0, r);
      }
    }

    // ---------------------------------------------------------------- dns_enqueue

    /** dns_alloc_pcb, `portOk` saying whether a new pcb could be created and bound: a new port if possible,
        else the next one in use after the last one handed out. */
    method AllocPcb(portOk: bool) returns (k: nat)
      requires lastPcb < |pcbs|
      modifies this`pcbs, this`lastPcb
      ensures lastPcb < |pcbs| && |pcbs| == |old(pcbs)|
      ensures k < |pcbs| <==> portOk || AnyOpen(old(pcbs))
      ensures k < |pcbs| ==> pcbs == old(pcbs)[k := true] && lastPcb == k
      ensures k >= |pcbs| ==> k == |pcbs| && pcbs == old(pcbs) && lastPcb == old(lastPcb)
      ensures k < |pcbs| && (exists j :: 0 <= j < |pcbs| && !old(pcbs)[j]) && portOk ==> !old(pcbs)[k]
      ensures Open(old(pcbs), k) ==> forall j :: 0 <= j < |pcbs| && Between(old(lastPcb), j, k) ==> !old(pcbs)[j]
    {
      var i := 0;
      while i < |pcbs| && pcbs[i]
        invariant 0 <= i <= |pcbs| && forall j :: 0 <= j < i ==> pcbs[j]
      {
        i := i + 1;
      }
      if i < |pcbs| && portOk {
        pcbs := pcbs[i := true];
        lastPcb := i;
        return i;
      }
      if i == |pcbs| { assert Open(pcbs, 0); }
      var idx := lastPcb + 1;
      for n := 0 to |pcbs|
        invariant pcbs == old(pcbs) && lastPcb == old(lastPcb)
        invariant idx == (if lastPcb + 1 + n <= |pcbs| then lastPcb + 1 + n else lastPcb + 1 + n - |pcbs|)
        invariant forall j :: 0 <= j < |pcbs| && (lastPcb < j <= lastPcb + n || j <= lastPcb + n - |pcbs|) ==> !pcbs[j]
      {
        if idx >= |pcbs| {
          idx := 0;
        }
        if pcbs[idx] {
          assert Open(pcbs, idx);
          assert pcbs == pcbs[idx := true];
          lastPcb := idx;
          return idx;
        }
        idx := idx + 1;
      }
      return |pcbs|;
    }

    /** The first free request slot, or the number of slots. */
    method FindRequest() returns (r: nat)
      ensures r <= |requests| && (r < |requests| <==> FreeSlot(requests)) && !Occupied(requests, r)
      ensures forall j :: 0 <= j < r ==> Occupied(requests, j)
    {
      r := 0;
      while r < |requests| && requests[r].found.Some?
        invariant r <= |requests| && forall j :: 0 <= j < r ==> Occupied(requests, j)
      {
        r := r + 1;
      }
      assert !Occupied(requests, r);
    }

    /** The first unused entry, else the completed one whose sequence number is furthest behind, if any is
        behind at all; else the table size. */
    method FindEntry() returns (i: nat)
      ensures i <= |table| && (i < |table| <==> AnyReusable(table, seqno))
      ensures i < |table| ==> Reusable(table, seqno, i)
      ensures i < |table| && table[i].state.DONE? ==>
        forall j :: Reusable(table, seqno, j) ==> table[j].state.DONE? && Age(table[j], seqno) <= Age(table[i], seqno)
    {
      var lseq, lseqi := 0, |table|;
      i := 0;
      while i < |table|
        invariant i <= |table| && lseqi <= |table|
        invariant forall j :: 0 <= j < i ==> !table[j].state.UNUSED?
        invariant if lseqi == |table| then lseq == 0
          else Reusable(table, seqno, lseqi) && table[lseqi].state.DONE? && Age(table[lseqi], seqno) == lseq
        invariant forall j :: 0 <= j < i && table[j].state.DONE? ==> Age(table[j], seqno) <= lseq
      {
        if table[i].state.UNUSED? {
          assert Reusable(table, seqno, i);
          return;
        }
        if table[i].state.DONE? && Age(table[i], seqno) > lseq {
          lseq, lseqi := Age(table[i], seqno), i;
        }
        i := i + 1;
      }
      i := lseqi;
      assert i < |table| ==> Reusable(table, seqno, i);
    }

    /** The duplicate check of dns_enqueue: attach to an entry that already waits for the same name and type. */
    method Attach(name: nat, addrType: AddrType, found: Option<ReqId>) returns (done: bool)
      requires Valid() && (found.Some? ==> found.value !in accepted)
      modifies this`requests, this`accepted
      ensures Valid()
      ensures done <==> AnyDuplicate(table, name, addrType) && FreeSlot(old(requests))
      ensures !done ==> requests == old(requests) && accepted == old(accepted)
      ensures done ==> accepted == Accept(old(accepted), found) && WaitsFor(table, requests, found, name, addrType)
      ensures AllKept(table, old(requests), table, requests, called, maxRetries, |servers|, 0)
    {
      SameKept(table, requests, called, maxRetries, |servers|);
      ghost var reqs := requests;
      for i := 0 to |table|
        invariant requests == reqs && accepted == old(accepted) && Valid()
        invariant (exists j :: 0 <= j < i && Duplicate(table, name, addrType, j)) ==> !FreeSlot(reqs)
      {
        if table[i].state.ASKING? && table[i].name == name && table[i].addrType == addrType {
          assert Duplicate(table, name, addrType, i);
          var r := FindRequest();
          if r < |requests| {
            CallsAfterAccept(requests, r, Req(found, i), accepted, called);
            requests := requests[r := Req(found, i)];
            accepted := Accept(accepted, found);
            FillSlot(table, reqs, pcbs, maxRetries, |servers|, r, Req(found, i), called);
            assert Holds(table, requests, found, name, addrType, r);
            return true;
          }
        }
      }
      return false;
    }

    /** Fill entry `i`, whose port has just been found or opened, and request slot `r`. */
    method Place(i: nat, r: nat, e: Entry, found: Option<ReqId>, ghost pcbs0: seq<bool>)
      requires maxRetries >= 1 && |table| <= 255 && |requests| == |table| && lastPcb < |pcbs| && |servers| >= 1
      requires TablesOkBut(table, requests, pcbs0, maxRetries, |servers|, -1) && CallsOk(requests, accepted, called)
      requires i < |table| && !Asking(table, i) && r < |requests| && !Occupied(requests, r)
      requires e.pcb < |pcbs0| && pcbs == pcbs0[e.pcb := true] && (found.Some? ==> found.value !in accepted)
      modifies this`requests, this`accepted, this`table, this`seqno
      ensures ValidBut(i) && table == old(table)[i := e] && requests == old(requests)[r := Req(found, i)]
      ensures accepted == Accept(old(accepted), found) && seqno == (old(seqno) + 1) % 256
    {
      TakePort(table, requests, pcbs0, maxRetries, |servers|, i, e);
      ReserveSlot(table[i := e], requests, pcbs, maxRetries, |servers|, i, r, Req(found, i));
      CallsAfterAccept(requests, r, Req(found, i), accepted, called);
      table := table[i := e];
      requests := requests[r := Req(found, i)];
      accepted := Accept(accepted, found);
      seqno := (seqno + 1) % 256;
    }

    /** Fill the entry and the slot, and send the query. */
    method Begin(i: nat, r: nat, e: Entry, found: Option<ReqId>, ghost pcbs0: seq<bool>)
      requires maxRetries >= 1 && |table| <= 255 && |requests| == |table| && lastPcb < |pcbs| && |servers| >= 1
      requires TablesOkBut(table, requests, pcbs0, maxRetries, |servers|, -1) && CallsOk(requests, accepted, called)
      requires i < |table| && !Asking(table, i) && r < |requests| && !Occupied(requests, r) && e.state.NEW?
      requires e.pcb < |pcbs0| && pcbs == pcbs0[e.pcb := true] && (found.Some? ==> found.value !in accepted)
      modifies this`requests, this`accepted, this`called, this`told, this`table, this`pcbs, this`seqno, this`attempts
      ensures Valid() && OnlyEntry(old(table), table, i) && Grows(old(called), called)
      ensures AllKept(old(table), old(requests), table, requests, called, maxRetries, |servers|, 0)
      ensures accepted == Accept(old(accepted), found)
      ensures servers[0] ==>
        && Duplicate(table, e.name, e.addrType, i)
        && requests == old(requests)[r := Req(found, i)] && called == old(called)
        && attempts == old(attempts) + [QueryOf(table[i])]
    {
      ghost var t, reqs := table, requests;
      Place(i, r, e, found, pcbs0);
      AskNew(i);
      IdleKept(t, reqs, table, requests, called, maxRetries, |servers|, i, r);
    }

    /** No port to be had: the entry and the slot are free (again). */
    method Refuse(i: nat, r: nat, e: Entry)
      requires Valid() && i < |table| && !Asking(table, i) && r < |requests| && !Occupied(requests, r)
      modifies this`requests, this`table
      ensures Valid() && OnlyEntry(old(table), table, i) && table[i].state.UNUSED?
      ensures AllKept(old(table), old(requests), table, requests, called, maxRetries, |servers|, 0)
    {
      ghost var t, reqs := table, requests;
      table := table[i := e.(state := UNUSED)];
      requests := requests[r := Req(None, i)];
      ReplaceIdle(t, reqs, pcbs, maxRetries, |servers|, i, table[i]);
      FillSlot(table, reqs, pcbs, maxRetries, |servers|, r, Req(None, i), called);
      CallsAfterAccept(reqs, r, Req(None, i), accepted, called);
      IdleKept(t, reqs, table, requests, called, maxRetries, |servers|, i, r);
    }

    /** The second half of dns_enqueue: fill entry `i` and request slot `r`, get a port, send the query. */
    method Occupy(i: nat, r: nat, name: nat, addrType: AddrType, found: Option<ReqId>, portOk: bool)
        returns (res: Result)
      requires Valid() && (found.Some? ==> found.value !in accepted)
      requires i < |table| && Reusable(table, seqno, i) && r < |requests| && !Occupied(requests, r)
      modifies this`requests, this`accepted, this`called, this`told, this`table, this`pcbs, this`lastPcb, this`seqno,
        this`attempts
      ensures Valid() && OnlyEntry(old(table), table, i) && Grows(old(called), called)
      ensures AllKept(old(table), old(requests), table, requests, called, maxRetries, |servers|, 0)
      ensures res == ERR_INPROGRESS <==> portOk || AnyOpen(old(pcbs))
      ensures accepted == if res == ERR_INPROGRESS then Accept(old(accepted), found) else old(accepted)
      ensures res == ERR_MEM ==>
        called == old(called) && pcbs == old(pcbs) && seqno == old(seqno) && table[i].state.UNUSED?
      ensures res == ERR_INPROGRESS && servers[0] ==>
        && Duplicate(table, name, addrType, i) && requests == old(requests)[r := Req(found, i)] && called == old(called)
        && attempts == old(attempts) + [QueryOf(table[i])]
    {
      var k := AllocPcb(portOk);
      var e := table[i].(state := NEW, seqno := seqno, addrType := addrType, name := name, pcb := k);
      if k >= |pcbs| {
        Refuse(i, r, e);
        return ERR_MEM;
      }
      Begin(i, r, e, found, old(pcbs));
      return ERR_INPROGRESS;
    }

    /** dns_enqueue: refused exactly if there is no request slot, or no entry that waits for this name already
        and no entry or port to be had. */
    method Enqueue(name: nat, addrType: AddrType, found: Option<ReqId>, portOk: bool) returns (res: Result)
      requires Valid() && (found.Some? ==> found.value !in accepted)
      modifies this`requests, this`accepted, this`called, this`told, this`table, this`pcbs, this`lastPcb, this`seqno,
        this`attempts
      ensures Valid() && |table| == |old(table)| && Grows(old(called), called)
      ensures AllKept(old(table), old(requests), table, requests, called, maxRetries, |servers|, 0)
      ensures res == ERR_INPROGRESS <==>
        && FreeSlot(old(requests))
        && (AnyDuplicate(old(table), name, addrType)
            || (AnyReusable(old(table), old(seqno)) && (portOk || AnyOpen(old(pcbs)))))
      ensures accepted == if res == ERR_INPROGRESS then Accept(old(accepted), found) else old(accepted)
      ensures res == ERR_INPROGRESS && servers[0] ==>
        WaitsFor(table, requests, found, name, addrType) && called == old(called)
      ensures res == ERR_MEM ==> called == old(called) && pcbs == old(pcbs) && seqno == old(seqno)
    {
      var done := Attach(name, addrType, found);
      if done {
        return ERR_INPROGRESS;
      }
      var i := FindEntry();
      if i == |table| {
        return ERR_MEM;
      }
      var r := FindRequest();
      if r == |requests| {
        return ERR_MEM;
      }
      res := Occupy(i, r, name, addrType, found, portOk);
      assert res == ERR_INPROGRESS && servers[0] ==> Holds(table, requests, found, name, addrType, r);
    }

    // ---------------------------------------------------------------- whole runs

    /** dns_setserver: sets or unsets a server address; an index out of range is ignored. */
    method SetServer(k: nat, valid: bool)
      requires Valid()
      modifies this`servers
      ensures Valid() && servers == if k < |old(servers)| then old(servers)[k := valid] else old(servers)
    {
      if k < |servers| {
        servers := servers[k := valid];
      }
    }

    method Handle(e: Event)
      requires Valid() && forall id :: Asks(e, id) ==> id !in accepted
      modifies this
      ensures Valid() && |servers| == |old(servers)| && Grows(old(called), called)
      ensures AllKept(old(table), old(requests), table, requests, called, maxRetries, |servers|,
                      if e.TimerTick? then 1 else 0)
      ensures old(accepted) <= accepted && forall id :: id in accepted ==> id in old(accepted) || Asks(e, id)
    {
      match e {
        case TimerTick => Tick();
        case Received(txid, packet) => Recv(txid, packet);
        case Requested(name, addrType, found, portOk) =>
          assert found.Some? ==> Asks(e, found.value);
          var _ := Enqueue(name, addrType, found, portOk);
        case ServerSet(k, valid) =>
          SameKept(table, requests, called, maxRetries, |servers|);
          SetServer(k, valid);
      }
    }

    /** Any run: timer ticks, packets, further requests and changes of servers in any order.  Every request
        accepted before it has been called back exactly once when the run holds two rounds' worth of ticks. */
    method Serve(events: seq<Event>)
      requires Valid() && FreshIds(events, accepted)
      modifies this
      ensures Valid() && |servers| == |old(servers)|
      ensures forall id :: id in old(accepted) && Ticks(events) >= 2 * AllServers(|servers|, maxRetries) ==>
        called[id] == 1
    {
      ghost var before, bound := accepted, 2 * AllServers(|servers|, maxRetries);
      AllAcceptedWithin(table, requests, pcbs, accepted, called, maxRetries, |servers|);
      for n := 0 to |events|
        invariant Valid() && |servers| == |old(servers)| && before <= accepted
        invariant forall id :: id in accepted ==> id in before || exists j :: 0 <= j < n && Asks(events[j], id)
        invariant AllWithin(table, requests, called, maxRetries, |servers|, before, bound - Ticks(events[..n]))
      {
        ghost var table0, requests0, called0 := table, requests, called;
        Handle(events[n]);
        assert events[..n + 1][..n] == events[..n];
        AllWithinStep(table0, requests0, called0, table, requests, called, maxRetries, |servers|,
                      if events[n].TimerTick? then 1 else 0, before, bound - Ticks(events[..n]));
      }
      assert events[..|events|] == events;
      if Ticks(events) >= bound {
        NoTicksLeft(table, requests, pcbs, accepted, called, maxRetries, |servers|, before, bound - Ticks(events));
      }
    }
  }
}
