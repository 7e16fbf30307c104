/** Question and answer: what dns_send asks a server for an entry (lwip-2.1.3/src/core/dns.c:754-860), and what the
    answer to that question leaves in the entry (dns.c:1186-1354). */
module DnsExchange {
  import opened Common
  import opened DnsNames
  import opened DnsAnswers
  import opened DnsTables
  import DnsPackets

  /** LWIP_DNS_ADDRTYPE_IS_IPV6 */
  predicate WantsV6(t: AddrType) {
    t.V6? || t.V6_V4?
  }

  predicate IsFor(p: seq<Byte>, e: Entry) {
    |p| >= 2 && DnsPackets.IdOf(p) == e.txid
  }

  /** What a packet is to an entry. */
  function KindFor(e: Entry, p: seq<Byte>, texts: nat -> Memory, fromAsked: bool): Packet {
    DnsPackets.Classify(p, texts(e.name), WantsV6(e.addrType), fromAsked)
  }

  // ---------------------------------------------------------------- the question

  /** The type of record an entry asks for: A, or AAAA where IPv6 comes first. */
  function TypeAsked(t: AddrType): (typ: Byte) {
    match t
    case V4 => 1
    case V4_V6 => 1
    case V6 => 28
    case V6_V4 => 28
  }

  /** The query for an entry: its id, "recursion desired", one question for its name, type and class IN. */
  function QueryBytes(e: Entry, name: seq<Byte>): seq<Byte>
    requires e.txid < 0x10000 && |name| <= 255
  {
    [(e.txid / 0x100) as Byte, (e.txid % 0x100) as Byte, 1, 0, 0, 1, 0, 0, 0, 0, 0, 0]
    + Encoded(name) + [0] + [0, TypeAsked(e.addrType), 0, 1]
  }

  /** The part of dns_send that makes the packet. */
  method BuildQuery(e: Entry, name: seq<Byte>) returns (p: array<Byte>)
    requires |name| <= 255 && e.txid < 0x10000
    ensures fresh(p) && p[..] == QueryBytes(e, name)
  {
    p := new Byte[HDR + |name| + 2 + 4](_ => 0);
    p[0], p[1] := (e.txid / 0x100) as Byte, (e.txid % 0x100) as Byte;
    p[2] := 1;
    p[5] := 1;
    var qry: seq<Byte>;
    if WantsV6(e.addrType) {
      qry := [0, 28, 0, 1];
    } else {
      qry := [0, 1, 0, 1];
    }
    ghost var hdr := p[..HDR];
    FillQuestion(p, name, qry);
  }

  // ---------------------------------------------------------------- the answer

  /** What a packet says: the name it was asked for, as written in the packet, and the records. */
  datatype Response = Response(labels: seq<seq<Byte>>, written: seq<seq<Byte>>, records: seq<Record>)

  /** The packet is a proper response to the question of entry `e`, whose name is stored in `mem`. */
  ghost predicate Answers(p: seq<Byte>, e: Entry, mem: Memory, r: Response) {
    && IsFor(p, e) && Proper(r.labels) && StoredAt(mem, 0, Dotted(r.labels))
    && DnsPackets.GoodResponse(p, r.labels, TypeAsked(e.addrType), r.written, r.records)
  }

  /** The entry then holds the address of the first record of the type asked for, for as long as the record says but
      a week at most, or is free again if it must not be kept.  Without such a record it asks once more for the
      other type, if it may, or is free. */
  predicate SettledBy(e: Entry, e': Entry, records: seq<Record>, k: nat, servers: seq<bool>) {
    if k < |records| && records[k].ttl > 0 then
      && e'.state == DONE && e'.name == e.name && e'.addr == records[k].data
      && e'.ttl == (if records[k].ttl < 604800 then records[k].ttl else 604800)
      && e'.addrType == if |records[k].data| == 16 then V6 else V4
    else if k == |records| && (e.addrType == V4_V6 || e.addrType == V6_V4) && 0 < |servers| && servers[0] then
      && e'.state == ASKING && e'.name == e.name && e'.server == 0
      && TypeAsked(e'.addrType) == (if e.addrType == V4_V6 then 28 else 1)
      && e'.addrType != V4_V6 && e'.addrType != V6_V4
    else e'.state == UNUSED
  }

  /** A response to the question that was asked settles the entry. */
  lemma AnswerSettles(e: Entry, e': Entry, p: seq<Byte>, texts: nat -> Memory, r: Response, k: nat,
                      servers: seq<bool>, ports: nat)
    requires e.state == ASKING && Answers(p, e, texts(e.name), r)
    requires Responded(e, e', KindFor(e, p, texts, true), servers, ports)
    requires FirstAddress(r.records, TypeAsked(e.addrType), k)
    ensures SettledBy(e, e', r.records, k, servers)
  {
    DnsPackets.GoodResponseIsUnderstood(p, texts(e.name), r.labels, WantsV6(e.addrType), r.written, r.records, k);
  }

  /** From the packet to the callers: the entry is settled by the response, and whoever waited for it has been told
      the address; or the other type is asked for; or they have been told that there is none. */
  ghost predicate AnsweredBy(e: Entry, e': Entry, records: seq<Record>, servers: seq<bool>, i: nat,
                             reqs: seq<Req>, told: map<ReqId, Option<seq<Byte>>>, sent: bool) {
    forall k: nat :: FirstAddress(records, TypeAsked(e.addrType), k) ==>
      && SettledBy(e, e', records, k, servers)
      && if k < |records| then ToldFor(reqs, told, i, Some(records[k].data))
         else if e'.state == ASKING then sent
         else ToldFor(reqs, told, i, None)
  }

  lemma AnswerReaches(e: Entry, e': Entry, p: seq<Byte>, texts: nat -> Memory, r: Response,
                      servers: seq<bool>, ports: nat, i: nat, reqs: seq<Req>,
                      told: map<ReqId, Option<seq<Byte>>>, sent: bool)
    requires e.state == ASKING && Answers(p, e, texts(e.name), r)
    requires Responded(e, e', KindFor(e, p, texts, true), servers, ports)
    requires var kind := KindFor(e, p, texts, true);
      && (e'.state != ASKING ==> ToldFor(reqs, told, i, if kind.Answer? then Some(kind.addr) else None))
      && (e'.state == ASKING && kind.NoAnswer? ==> sent)
    ensures AnsweredBy(e, e', r.records, servers, i, reqs, told, sent)
  {
    forall k: nat | FirstAddress(r.records, TypeAsked(e.addrType), k)
      ensures SettledBy(e, e', r.records, k, servers) &&
        if k < |r.records| then ToldFor(reqs, told, i, Some(r.records[k].data))
        else if e'.state == ASKING then sent
        else ToldFor(reqs, told, i, None)
    {
      AnswerSettles(e, e', p, texts, r, k, servers, ports);
      DnsPackets.GoodResponseIsUnderstood(p, texts(e.name), r.labels, WantsV6(e.addrType), r.written, r.records, k);
    }
  }

  /** Nothing else touches the entry: a packet that is not ignored is a response with one question, from the server
      asked, whose name dns_compare_name accepts and whose type and class are those asked for. */
  lemma OthersAreIgnored(e: Entry, p: seq<Byte>, texts: nat -> Memory, fromAsked: bool)
    requires KindFor(e, p, texts, fromAsked) != Unacceptable
    ensures fromAsked && |p| >= HDR + 4 && p[2] >= 0x80 && U16At(p, 4) == 1
    ensures var at := CompareFrom(texts(e.name), 0, p, HDR);
      && at < FAIL && at + 4 <= |p| && U16At(p, at) == TypeAsked(e.addrType) && U16At(p, at + 2) == 1
  {
  }

  // ---------------------------------------------------------------- both

  /** A server's reply to the query `q`: the same id, marked as a response without error, the question as it came,
      and as many records as announced. */
  ghost predicate Replies(q: seq<Byte>, p: seq<Byte>, records: seq<Record>) {
    && HDR + 4 <= |q| <= |p| < FAIL
    && p[..2] == q[..2] && p[2] >= 0x80 && p[3] % 16 == 0 && p[4..6] == q[4..6] && p[HDR..|q|] == q[HDR..]
    && U16At(p, 6) == |records| && RecordsAt(p, |q|, records)
    && forall i :: 0 <= i < |records| ==> !IsRoot(records[i])
  }

  /** Header and question of such a reply, for a name of `n` bytes. */
  ghost predicate ReplyParts(e: Entry, n: nat, p: seq<Byte>, records: seq<Record>) {
    && HDR + n + 2 + 4 <= |p| < FAIL && IsFor(p, e)
    && p[2] >= 0x80 && p[3] % 16 == 0 && U16At(p, 4) == 1 && U16At(p, 6) == |records|
    && p[HDR + n + 1] == 0 && U16At(p, HDR + n + 2) == TypeAsked(e.addrType) && U16At(p, HDR + n + 4) == 1
    && RecordsAt(p, HDR + n + 2 + 4, records) && forall i :: 0 <= i < |records| ==> !IsRoot(records[i])
  }

  /** Round trip: every reply to what dns_send asks for an entry is an answer to that entry's question. */
  lemma RepliesAnswer(e: Entry, name: seq<Byte>, mem: Memory, p: seq<Byte>, records: seq<Record>)
    requires e.txid < 0x10000 && |name| <= 255 && Proper(Labels(name)) && StoredAt(mem, 0, name)
    requires Replies(QueryBytes(e, name), p, records)
    ensures Answers(p, e, mem, Response(Labels(name), Labels(name), records))
  {
    ReplyName(name);
    ReplyBytes(e, name, p, records);
    WrittenName(p, name);
    PartsAnswer(e, Labels(name), name, mem, p, records);
  }

  lemma ReplyName(name: seq<Byte>)
    requires |name| <= 255
    ensures |Encoded(name)| == |name| + 1 && Dotted(Labels(name)) == name
  {
    LabelsJoin(name);
    LabelBytesLength(Labels(name));
  }

  lemma WrittenName(p: seq<Byte>, name: seq<Byte>)
    requires |name| <= 255 && Proper(Labels(name)) && |Encoded(name)| == |name| + 1
    requires HDR + |name| + 1 <= |p| && p[HDR..HDR + |name| + 1] == Encoded(name)
    ensures LabelsAt(p, HDR, Labels(name))
  {
    BytesAreLabels(p, HDR, Labels(name));
  }

  lemma PartsAnswer(e: Entry, labels: seq<seq<Byte>>, name: seq<Byte>, mem: Memory, p: seq<Byte>,
                    records: seq<Record>)
    requires Proper(labels) && Dotted(labels) == name && StoredAt(mem, 0, name)
    requires ReplyParts(e, |name|, p, records) && LabelsAt(p, HDR, labels)
    ensures Answers(p, e, mem, Response(labels, labels, records))
  {
    assert forall i :: 0 <= i < |labels| ==> SameLetters(labels[i], labels[i]);
  }

  lemma ReplyBytes(e: Entry, name: seq<Byte>, p: seq<Byte>, records: seq<Record>)
    requires e.txid < 0x10000 && |name| <= 255 && Replies(QueryBytes(e, name), p, records)
    requires |Encoded(name)| == |name| + 1
    ensures ReplyParts(e, |name|, p, records) && p[HDR..HDR + |name| + 1] == Encoded(name)
  {
    var hdr := [(e.txid / 0x100) as Byte, (e.txid % 0x100) as Byte, 1, 0, 0, 1, 0, 0, 0, 0, 0, 0];
    var tail := [0, TypeAsked(e.addrType), 0, 1];
    CopiedParts(hdr, Encoded(name), tail, p);
  }

  /** A packet that agrees with a query in its id, the number of questions and the question itself. */
  lemma CopiedParts(hdr: seq<Byte>, enc: seq<Byte>, tail: seq<Byte>, p: seq<Byte>)
    requires |hdr| == HDR && |tail| == 4 && HDR + |enc| + 5 <= |p|
    requires var q := hdr + enc + [0] + tail;
      p[..2] == q[..2] && p[4..6] == q[4..6] && p[HDR..|q|] == q[HDR..]
    ensures p[0] == hdr[0] && p[1] == hdr[1] && p[4] == hdr[4] && p[5] == hdr[5]
    ensures p[HDR..HDR + |enc|] == enc && p[HDR + |enc|] == 0
    ensures var at := HDR + |enc| + 1;
      p[at] == tail[0] && p[at + 1] == tail[1] && p[at + 2] == tail[2] && p[at + 3] == tail[3]
  {
    var q := hdr + enc + [0] + tail;
    assert p[0] == p[..2][0] && p[1] == p[..2][1] && p[4] == p[4..6][0] && p[5] == p[4..6][1];
    forall k | HDR <= k < |q| ensures p[k] == q[k] { assert p[HDR..|q|][k - HDR] == q[HDR..][k - HDR]; }
  }
}
