/** The walk over the answers of a response in dns_recv (lwip-2.1.3/src/core/dns.c:1268-1331), against resource
    records as section 4.1.3 of RFC 1035 lays them out. */
module DnsAnswers {
  import opened Common
  import opened DnsNames
  import DnsTables

  const SIZEOF_DNS_ANSWER: nat := 10
  const RRTYPE_A: nat := 1
  const RRTYPE_AAAA: nat := 28
  const RRCLASS_IN: nat := 1

  /** The packet is ignored, an address of the wanted type lies at `at`, or there is none. */
  datatype Walk = Ignored | Found(at: nat, ttl: nat) | Exhausted

  function U16At(p: seq<Byte>, off: nat): (r: nat)
    requires off + 2 <= |p|
    ensures r <= 0xFFFF
  {
    var hi: int, lo: int := p[off], p[off + 1];
    hi * 0x100 + lo
  }

  function U32At(p: seq<Byte>, off: nat): nat
    requires off + 4 <= |p|
  {
    U16At(p, off) * 0x10000 + U16At(p, off + 2)
  }

  /** An A record with four bytes, or an AAAA record with sixteen. */
  predicate Wanted(typ: nat, len: nat, v6: bool) {
    if v6 then typ == RRTYPE_AAAA && len == 16 else typ == RRTYPE_A && len == 4
  }

  /** What the walk finds from `off` on, with `n` answers announced. */
  function AnswerFrom(p: seq<Byte>, off: nat, n: nat, v6: bool): (w: Walk)
    ensures w.Found? ==> w.at + (if v6 then 16 else 4) <= |p|
    decreases n
  {
    if n == 0 || off >= |p| then Exhausted else
      var e := SkipFrom(p, off);
      if e >= FAIL || e + SIZEOF_DNS_ANSWER > |p| then Ignored else
        var at, len := e + SIZEOF_DNS_ANSWER, U16At(p, e + 8);
        if U16At(p, e + 2) == RRCLASS_IN && Wanted(U16At(p, e), len, v6)
        then if at + len > |p| then Ignored else Found(at, U32At(p, e + 4))
        else if at + len > 0xFFFF then Ignored
        else AnswerFrom(p, at + len, n - 1, v6)
  }

  /** The loop ends on every packet, and no offset wraps or leaves the packet where it is read. */
  method WalkAnswers(p: seq<Byte>, start: nat, nanswers: nat, v6: bool) returns (w: Walk)
    requires |p| <= 0xFFFF && start <= 0xFFFF
    ensures w == AnswerFrom(p, start, nanswers, v6)
  {
    var resIdx: nat, n: nat := start, nanswers;
    while n > 0 && resIdx < |p|
      invariant resIdx <= 0xFFFF && AnswerFrom(p, resIdx, n, v6) == AnswerFrom(p, start, nanswers, v6)
    {
      var skipped := SkipName(p, resIdx);
      if skipped == 0xFFFF {
        return Ignored;
      }
      if skipped + SIZEOF_DNS_ANSWER > |p| {
        return Ignored;
      }
      var typ, cls := U16At(p, skipped), U16At(p, skipped + 2);
      var ttl, len := U32At(p, skipped + 4), U16At(p, skipped + 8);
      resIdx := skipped + SIZEOF_DNS_ANSWER;
      if cls == RRCLASS_IN {
        if typ == RRTYPE_A && len == 4 && !v6 {
          return if resIdx + 4 > |p| then Ignored else Found(resIdx, ttl);
        }
        if typ == RRTYPE_AAAA && len == 16 && v6 {
          return if resIdx + 16 > |p| then Ignored else Found(resIdx, ttl);
        }
      }
      if resIdx + len > 0xFFFF {
        return Ignored;
      }
      resIdx := resIdx + len;
      n := n - 1;
    }
    return Exhausted;
  }

  function AddressLength(v6: bool): nat {
    if v6 then 16 else 4
  }

  /** What dns_recv then takes the packet for. */
  function Outcome(p: seq<Byte>, w: Walk, v6: bool): DnsTables.Packet
    requires w.Found? ==> w.at + AddressLength(v6) <= |p|
  {
    match w
    case Ignored => DnsTables.Unacceptable
    case Found(at, ttl) => DnsTables.Answer(p[at..at + AddressLength(v6)], ttl)
    case Exhausted => DnsTables.NoAnswer
  }

  // ---------------------------------------------------------------- resource records

  datatype Record = Record(labels: seq<seq<Byte>>, tail: Tail, typ: nat, cls: nat, ttl: nat, data: seq<Byte>)

  function RecordEnd(off: nat, r: Record): nat {
    NameEnd(off, r.labels, r.tail) + SIZEOF_DNS_ANSWER + |r.data|
  }

  /** The packet holds this record at `off`. */
  ghost predicate RecordAt(p: seq<Byte>, off: nat, r: Record) {
    && WellFormed(p, off, r.labels, r.tail) && RecordEnd(off, r) <= |p|
    && var e := NameEnd(off, r.labels, r.tail);
    && U16At(p, e) == r.typ && U16At(p, e + 2) == r.cls && U32At(p, e + 4) == r.ttl && U16At(p, e + 8) == |r.data|
    && p[e + SIZEOF_DNS_ANSWER..RecordEnd(off, r)] == r.data
  }

  ghost predicate RecordsAt(p: seq<Byte>, off: nat, rs: seq<Record>)
    decreases |rs|
  {
    rs == [] || (RecordAt(p, off, rs[0]) && RecordsAt(p, RecordEnd(off, rs[0]), rs[1..]))
  }

  predicate IsRoot(r: Record) {
    r.labels == [] && r.tail.Root?
  }

  /** A record of the Internet class that holds an address of this type: A, 1, or AAAA, 28. */
  predicate Address(r: Record, typ: nat) {
    r.cls == 1 && r.typ == typ && ((typ == 1 && |r.data| == 4) || (typ == 28 && |r.data| == 16))
  }

  /** The first record with an address of this type is at `k`; there is none if `k` is their number. */
  predicate FirstAddress(rs: seq<Record>, typ: nat, k: nat) {
    && k <= |rs| && (forall j :: 0 <= j < k ==> !Address(rs[j], typ))
    && (k < |rs| ==> Address(rs[k], typ))
  }

  function RRType(v6: bool): nat {
    if v6 then RRTYPE_AAAA else RRTYPE_A
  }

  /** Whatever records a packet holds, with names compressed or not but none of them the bare root, the walk
      finds the first address of the wanted type, and nothing if there is none. */
  lemma WalkFindsFirst(p: seq<Byte>, off: nat, rs: seq<Record>, v6: bool, k: nat)
    requires |p| < FAIL && RecordsAt(p, off, rs) && forall i :: 0 <= i < |rs| ==> !IsRoot(rs[i])
    requires FirstAddress(rs, RRType(v6), k)
    ensures Outcome(p, AnswerFrom(p, off, |rs|, v6), v6)
         == if k < |rs| then DnsTables.Answer(rs[k].data, rs[k].ttl) else DnsTables.NoAnswer
  {
    WalkPastRecords(p, off, rs, v6, k);
    if k < |rs| { assert |rs[k].data| == AddressLength(v6); }
  }

  /** The walk has found record `k`, or nothing if there is no such record. */
  predicate Reached(p: seq<Byte>, w: Walk, rs: seq<Record>, k: nat) {
    if k < |rs| then
      && w.Found? && w.ttl == rs[k].ttl && w.at + |rs[k].data| <= |p|
      && p[w.at..w.at + |rs[k].data|] == rs[k].data
    else w == Exhausted
  }

  lemma {:induction false} WalkPastRecords(p: seq<Byte>, off: nat, rs: seq<Record>, v6: bool, k: nat)
    requires |p| < FAIL && RecordsAt(p, off, rs) && forall i :: 0 <= i < |rs| ==> !IsRoot(rs[i])
    requires FirstAddress(rs, RRType(v6), k)
    ensures Reached(p, AnswerFrom(p, off, |rs|, v6), rs, k)
    decreases |rs|
  {
    if rs != [] {
      if k > 0 {
        FirstBehind(rs, RRType(v6), k);
        WalkPastRecords(p, RecordEnd(off, rs[0]), rs[1..], v6, k - 1);
        ReachedBehind(p, off, rs, v6, k);
      } else {
        ReachedHere(p, off, rs, v6);
      }
    }
  }

  lemma ReachedBehind(p: seq<Byte>, off: nat, rs: seq<Record>, v6: bool, k: nat)
    requires |p| < FAIL && rs != [] && RecordAt(p, off, rs[0]) && !IsRoot(rs[0]) && !Address(rs[0], RRType(v6)) && k > 0
    requires Reached(p, AnswerFrom(p, RecordEnd(off, rs[0]), |rs[1..]|, v6), rs[1..], k - 1)
    ensures Reached(p, AnswerFrom(p, off, |rs|, v6), rs, k)
  {
    WalkPastRecord(p, off, rs[0], |rs|, v6);
    ReachedOneOn(p, AnswerFrom(p, off, |rs|, v6), rs, k);
  }

  lemma ReachedOneOn(p: seq<Byte>, w: Walk, rs: seq<Record>, k: nat)
    requires rs != [] && k > 0 && Reached(p, w, rs[1..], k - 1)
    ensures Reached(p, w, rs, k)
  {
  }

  lemma ReachedHere(p: seq<Byte>, off: nat, rs: seq<Record>, v6: bool)
    requires |p| < FAIL && rs != [] && RecordAt(p, off, rs[0]) && !IsRoot(rs[0]) && Address(rs[0], RRType(v6))
    ensures Reached(p, AnswerFrom(p, off, |rs|, v6), rs, 0)
  {
    WalkPastRecord(p, off, rs[0], |rs|, v6);
  }

  lemma FirstBehind(rs: seq<Record>, typ: nat, k: nat)
    requires rs != [] && k > 0 && FirstAddress(rs, typ, k)
    ensures FirstAddress(rs[1..], typ, k - 1) && !Address(rs[0], typ)
  {
    forall j | 0 <= j < k - 1 ensures !Address(rs[1..][j], typ) { assert !Address(rs[j + 1], typ); }
  }

  lemma WalkPastRecord(p: seq<Byte>, off: nat, r: Record, n: nat, v6: bool)
    requires |p| < FAIL && RecordAt(p, off, r) && !IsRoot(r) && n > 0
    ensures AnswerFrom(p, off, n, v6) ==
      if Address(r, RRType(v6)) then Found(NameEnd(off, r.labels, r.tail) + SIZEOF_DNS_ANSWER, r.ttl)
      else AnswerFrom(p, RecordEnd(off, r), n - 1, v6)
  {
    SkipsToEnd(p, off, r.labels, r.tail);
    EndOfGrows(off, r.labels);
    AnswerStep(p, off, NameEnd(off, r.labels, r.tail), n, v6);
  }

  /** One round of the walk, from a name that ends at `e`. */
  lemma AnswerStep(p: seq<Byte>, off: nat, e: nat, n: nat, v6: bool)
    requires n > 0 && off < |p| < FAIL && SkipFrom(p, off) == e && e + SIZEOF_DNS_ANSWER <= |p|
    ensures var at, len := e + SIZEOF_DNS_ANSWER, U16At(p, e + 8);
      at + len <= |p| ==>
        AnswerFrom(p, off, n, v6) ==
          if U16At(p, e + 2) == RRCLASS_IN && Wanted(U16At(p, e), len, v6) then Found(at, U32At(p, e + 4))
          else AnswerFrom(p, at + len, n - 1, v6)
  {
  }

  /** A record of the root itself, with four bytes of address, is misread: its address is not found. */
  lemma RootRecordIsMisread(p: seq<Byte>)
    requires p == [0, 0, 1, 0, 1, 0, 0, 0, 60, 0, 4, 10, 0, 0, 1]
    ensures RecordsAt(p, 0, [ROOT_RECORD])
    ensures Address(ROOT_RECORD, 1) && AnswerFrom(p, 0, 1, false) == Exhausted
  {
    assert [ROOT_RECORD][1..] == [];
    RootRecordBytes(p);
    RootRecordWalk(p);
  }

  const ROOT_RECORD: Record := Record([], Root, RRTYPE_A, RRCLASS_IN, 60, [10, 0, 0, 1])

  lemma RootRecordBytes(p: seq<Byte>)
    requires |p| == 15 && p[0] == 0 && p[1] == 0 && p[2] == 1 && p[3] == 0 && p[4] == 1 && p[5] == 0 && p[6] == 0
    requires p[7] == 0 && p[8] == 60 && p[9] == 0 && p[10] == 4 && p[11..] == [10, 0, 0, 1]
    ensures RecordAt(p, 0, ROOT_RECORD)
  {}

  lemma RootRecordWalk(p: seq<Byte>)
    requires |p| == 15 && p[0] == 0 && p[1] == 0 && p[4] == 1 && p[5] == 0 && p[10] == 4 && p[11] == 10
    ensures AnswerFrom(p, 0, 1, false) == Exhausted
  {
    assert SkipFrom(p, 0) == 2;
    assert U16At(p, 4) == 0x100 && U16At(p, 10) == 0x40A;
  }
}
