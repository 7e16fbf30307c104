/** What dns_recv takes a packet for, from its bytes (lwip-2.1.3/src/core/dns.c:1186-1331): header, question, error
    code and answers. */
module DnsPackets {
  import opened Common
  import opened DnsNames
  import opened DnsAnswers
  import opened DnsTables

  const SIZEOF_DNS_QUERY: nat := 4

  function IdOf(p: seq<Byte>): nat
    requires |p| >= 2
  {
    U16At(p, 0)
  }

  /** A response to one question. */
  predicate HeaderOk(p: seq<Byte>) {
    |p| >= HDR + SIZEOF_DNS_QUERY && p[2] >= 0x80 && U16At(p, 4) == 1
  }

  /** Type and class of the question behind its name. */
  predicate QuestionOk(p: seq<Byte>, at: nat, v6: bool) {
    at + SIZEOF_DNS_QUERY <= |p| && U16At(p, at + 2) == RRCLASS_IN && U16At(p, at) == RRType(v6)
  }

  /** What a packet is to an entry that asks for the name in `mem`; `asked` tells whether it comes from the
      server that was asked. */
  function Classify(p: seq<Byte>, mem: Memory, v6: bool, asked: bool): Packet {
    if !HeaderOk(p) || !asked then Unacceptable
    else
      var at := CompareFrom(mem, 0, p, HDR);
      if at >= FAIL || !QuestionOk(p, at, v6) then Unacceptable
      else if p[3] % 16 != 0 then ServerError
      else Outcome(p, AnswerFrom(p, at + SIZEOF_DNS_QUERY, U16At(p, 6), v6), v6)
  }

  method ClassifyPacket(p: seq<Byte>, mem: Memory, v6: bool, asked: bool) returns (kind: Packet)
    requires |p| <= 0xFFFF
    ensures kind == Classify(p, mem, v6, asked)
  {
    if |p| < HDR + SIZEOF_DNS_QUERY {
      return Unacceptable;
    }
    if p[2] < 0x80 {
      return Unacceptable;
    }
    if U16At(p, 4) != 1 {
      return Unacceptable;
    }
    if !asked {
      return Unacceptable;
    }
    var resIdx, _ := CompareName(mem, p, HDR);
    CompareWithin(mem, 0, p, HDR);
    if resIdx == 0xFFFF {
      return Unacceptable;
    }
    if resIdx + SIZEOF_DNS_QUERY > |p| {
      return Unacceptable;
    }
    if U16At(p, resIdx + 2) != RRCLASS_IN || (v6 && U16At(p, resIdx) != RRTYPE_AAAA)
       || (!v6 && U16At(p, resIdx) != RRTYPE_A) {
      return Unacceptable;
    }
    if p[3] % 16 != 0 {
      return ServerError;
    }
    var w := WalkAnswers(p, resIdx + SIZEOF_DNS_QUERY, U16At(p, 6), v6);
    return Outcome(p, w, v6);
  }

  lemma {:induction false} CompareWithin(mem: Memory, q: nat, p: seq<Byte>, off: nat)
    requires |p| <= 0xFFFF
    ensures CompareFrom(mem, q, p, off) <= FAIL
    decreases |p| - off
  {
    if off < |p| && p[off] < 0xC0 && off + 1 + p[off] < |p| && p[off + 1 + p[off]] != 0 {
      CompareWithin(mem, q + p[off] + 1, p, off + 1 + p[off]);
    }
  }

  /** A response as a server makes it: the queried name in any mixture of cases, the type asked for and class IN,
      and as many records as announced, none of them of the bare root. */
  ghost predicate GoodResponse(p: seq<Byte>, labels: seq<seq<Byte>>, typ: nat, labels': seq<seq<Byte>>,
                               rs: seq<Record>) {
    var at := HDR + |Dotted(labels)| + 2;
    && |p| < FAIL && HeaderOk(p) && p[3] % 16 == 0
    && SameNames(labels, labels') && LabelsAt(p, HDR, labels') && TryGetAt(p, at - 1) == 0
    && at + SIZEOF_DNS_QUERY <= |p| && U16At(p, at) == typ && U16At(p, at + 2) == 1
    && U16At(p, 6) == |rs| && RecordsAt(p, at + SIZEOF_DNS_QUERY, rs) && forall i :: 0 <= i < |rs| ==> !IsRoot(rs[i])
  }

  /** Such a response, from the server asked, is taken for the first address of the wanted type it holds, and
      for having none if there is none. */
  lemma GoodResponseIsUnderstood(p: seq<Byte>, mem: Memory, labels: seq<seq<Byte>>, v6: bool,
                                 labels': seq<seq<Byte>>, rs: seq<Record>, k: nat)
    requires Proper(labels) && StoredAt(mem, 0, Dotted(labels)) && GoodResponse(p, labels, RRType(v6), labels', rs)
    requires FirstAddress(rs, RRType(v6), k)
    ensures Classify(p, mem, v6, true) == if k < |rs| then Answer(rs[k].data, rs[k].ttl) else NoAnswer
  {
    var at := HDR + |Dotted(labels)| + 2;
    OwnNameMatches(mem, p, HDR, labels, labels');
    WalkFindsFirst(p, at + SIZEOF_DNS_QUERY, rs, v6, k);
  }
}
