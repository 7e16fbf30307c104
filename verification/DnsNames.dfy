/** Domain names in lwip-2.1.3/src/core/dns.c: the encoder in dns_send, dns_compare_name and dns_skip_name,
    against names as lists of labels (sections 3.1 and 4.1.4 of RFC 1035). */
module DnsNames {
  import opened Common

  const DOT: Byte := 46

  const FAIL: nat := 0xFFFF

  // ---------------------------------------------------------------- names as lists of labels

  /** The dotted text of a name. */
  function Dotted(labels: seq<seq<Byte>>): seq<Byte> {
    if |labels| == 0 then []
    else if |labels| == 1 then labels[0]
    else labels[0] + [DOT] + Dotted(labels[1..])
  }

  /** A length byte and the label, for every label; no terminator. */
  function LabelBytes(labels: seq<seq<Byte>>): seq<Byte> {
    if |labels| == 0 then [] else [LengthByte(labels[0])] + labels[0] + LabelBytes(labels[1..])
  }

  /** The length as a u8; labels in use have at most 63 bytes. */
  function LengthByte(l: seq<Byte>): Byte {
    if |l| < 256 then |l| else |l| % 256
  }

  /** The labels of a text: it is cut at every dot. */
  function Labels(text: seq<Byte>): (labels: seq<seq<Byte>>)
    ensures |labels| >= 1
  {
    var n := LabelEnd(text, 0);
    if n == |text| then [text] else [text[..n]] + Labels(text[n + 1..])
  }

  /** The first position from `i` on that holds a dot, or the end. */
  function LabelEnd(text: seq<Byte>, i: nat): (n: nat)
    requires i <= |text|
    ensures i <= n <= |text|
    ensures n < |text| ==> text[n] == DOT
    ensures forall k :: i <= k < n ==> text[k] != DOT
    decreases |text| - i
  {
    if i == |text| || text[i] == DOT then i else LabelEnd(text, i + 1)
  }

  /** Labels of 1 to 63 bytes, without dots or zeros. */
  ghost predicate Proper(labels: seq<seq<Byte>>) {
    && |labels| >= 1
    && forall i :: 0 <= i < |labels| ==> ProperLabel(labels[i])
  }

  predicate ProperLabel(l: seq<Byte>) {
    1 <= |l| <= 63 && forall k :: 0 <= k < |l| ==> l[k] != DOT && l[k] != 0
  }

  /** Cutting and joining are inverse: every text is its labels joined ... */
  lemma {:induction false} LabelsJoin(text: seq<Byte>)
    ensures Dotted(Labels(text)) == text
    decreases |text|
  {
    var n := LabelEnd(text, 0);
    if n < |text| {
      LabelsJoin(text[n + 1..]);
      assert Labels(text)[1..] == Labels(text[n + 1..]);
      assert text == text[..n] + [DOT] + text[n + 1..];
    }
  }

  /** ... and joining labels without dots loses nothing. */
  lemma {:induction false} JoinLabels(labels: seq<seq<Byte>>)
    requires |labels| >= 1 && forall i, k :: 0 <= i < |labels| && 0 <= k < |labels[i]| ==> labels[i][k] != DOT
    ensures Labels(Dotted(labels)) == labels
  {
    if |labels| == 1 {
      OneLabel(labels[0]);
    } else {
      FirstLabel(labels[0], Dotted(labels[1..]));
      JoinLabels(labels[1..]);
    }
  }

  lemma FirstLabel(l: seq<Byte>, rest: seq<Byte>)
    requires forall k :: 0 <= k < |l| ==> l[k] != DOT
    ensures Labels(l + [DOT] + rest) == [l] + Labels(rest)
  {
    var text := l + [DOT] + rest;
    assert text[|l|] == DOT && text[..|l|] == l && text[|l| + 1..] == rest;
    assert forall k :: 0 <= k < |l| ==> text[k] == l[k];
    assert LabelEnd(text, 0) == |l|;
  }

  /** One byte per label for its length, plus the label: one more than the text with its dots. */
  lemma {:induction false} LabelBytesLength(labels: seq<seq<Byte>>)
    requires |labels| >= 1
    ensures |LabelBytes(labels)| == |Dotted(labels)| + 1
  {
    if |labels| == 1 {
      assert labels[1..] == [];
    } else {
      LabelBytesLength(labels[1..]);
    }
  }

  // ---------------------------------------------------------------- dns_send: the encoder

  const HDR: nat := 12

  function Put(s: seq<Byte>, at: nat, bytes: seq<Byte>): (r: seq<Byte>)
    requires at + |bytes| <= |s|
  {
    s[..at] + bytes + s[at + |bytes|..]
  }

  /** pbuf_take_at */
  method TakeAt(p: array<Byte>, bytes: seq<Byte>, at: nat)
    requires at + |bytes| <= p.Length
    modifies p
    ensures p[..] == Put(old(p[..]), at, bytes)
  {
    for i := 0 to |bytes|
      invariant forall k :: 0 <= k < p.Length ==> p[k] == if at <= k < at + i then bytes[k - at] else old(p[k])
    {
      p[at + i] := bytes[i];
    }
  }

  /** The encoding of a text as labels. */
  function Encoded(text: seq<Byte>): seq<Byte>
    requires |text| <= 255
  {
    LabelBytes(Labels(text))
  }

  lemma EncodedLast(text: seq<Byte>)
    requires |text| <= 255 && |text| == LabelEnd(text, 0)
    ensures Encoded(text) == [|text|] + text
  {
    OneLabel(text);
    OneLabelBytes(text);
  }

  lemma OneLabelBytes(l: seq<Byte>)
    requires |l| <= 255
    ensures LabelBytes([l]) == [|l|] + l
  {
    assert [l][1..] == [];
    assert LabelBytes([l]) == [LengthByte(l)] + l + [];
  }

  lemma OneLabel(text: seq<Byte>)
    requires |text| == LabelEnd(text, 0)
    ensures Labels(text) == [text]
  {}

  lemma EncodedStep(text: seq<Byte>, n: nat)
    requires |text| <= 255 && n == LabelEnd(text, 0) && n < |text|
    ensures Encoded(text) == [n] + text[..n] + Encoded(text[n + 1..])
  {
    var rest := Labels(text[n + 1..]);
    LabelBytesCons(text[..n], rest);
    assert Labels(text) == [text[..n]] + rest;
    assert LengthByte(text[..n]) == n;
  }

  lemma LabelBytesCons(l: seq<Byte>, rest: seq<seq<Byte>>)
    ensures LabelBytes([l] + rest) == [LengthByte(l)] + l + LabelBytes(rest)
  {
    assert ([l] + rest)[1..] == rest;
  }

  /** The label from `part` on, encoded after the labels before it. */
  lemma NextLabel(name: seq<Byte>, part: nat, n: nat, done: seq<Byte>, all: seq<Byte>)
    requires part <= |name| <= 255 && n == LabelEnd(name[part..], 0)
    requires done + Encoded(name[part..]) == all
    ensures part + n == |name| ==> done + [n] + name[part..part + n] == all
    ensures part + n < |name| ==> done + [n] + name[part..part + n] + Encoded(name[part + n + 1..]) == all
  {
    var rest := name[part..];
    if n < |rest| { EncodedStep(rest, n); } else { EncodedLast(rest); }
    assert rest[..n] == name[part..part + n];
    if n < |rest| {
      assert rest[n + 1..] == name[part + n + 1..];
    }
  }

  /** One length byte and one label. */
  method PutLabel(p: array<Byte>, bytes: seq<Byte>, queryIdx: nat)
    requires |bytes| <= 255 && queryIdx + 1 + |bytes| <= p.Length
    modifies p
    ensures p[..queryIdx + 1 + |bytes|] == old(p[..queryIdx]) + [|bytes|] + bytes
  {
    TakeAt(p, [|bytes|], queryIdx);
    assert p[..queryIdx + 1] == old(p[..queryIdx]) + [|bytes|];
    TakeAt(p, bytes, queryIdx + 1);
  }

  /** The for loop: the length of the label that starts at `part`. */
  method ScanLabel(name: seq<Byte>, part: nat) returns (hostname: nat)
    requires part <= |name|
    ensures part <= hostname <= |name| && hostname - part == LabelEnd(name[part..], 0)
  {
    hostname := part;
    while hostname < |name| && name[hostname] != DOT
      invariant part <= hostname <= |name|
      invariant LabelEnd(name[part..], 0) == LabelEnd(name[part..], hostname - part)
    {
      hostname := hostname + 1;
    }
  }

  /** The do-while loop of dns_send. */
  method EncodeName(p: array<Byte>, name: seq<Byte>) returns (queryIdx: nat)
    requires |name| <= 255 && p.Length >= HDR + |name| + 1
    modifies p
    ensures queryIdx == HDR + |name| + 1
    ensures p[..queryIdx] == old(p[..HDR]) + Encoded(name)
  {
    ghost var all := p[..HDR] + Encoded(name);
    var hostname, more := 0, true;
    queryIdx := HDR;
    assert name[0..] == name;
    while more
      invariant more ==>
        hostname <= |name| && queryIdx == HDR + hostname && p[..queryIdx] + Encoded(name[hostname..]) == all
      invariant !more ==> queryIdx == HDR + |name| + 1 && p[..queryIdx] == all
      decreases more, |name| - hostname
    {
      var part := hostname;
      hostname := ScanLabel(name, part);
      var n := hostname - part;
      NextLabel(name, part, n, p[..queryIdx], all);
      PutLabel(p, name[part..hostname], queryIdx);
      queryIdx := queryIdx + n + 1;
      if hostname < |name| {
        hostname := hostname + 1;
      } else {
        more := false;
      }
    }
  }

  /** dns_send writes the question: the name fills its place in the query exactly, length bytes and a final
      zero included, and the type and class fill the rest. */
  method FillQuestion(p: array<Byte>, name: seq<Byte>, qry: seq<Byte>)
    requires |name| <= 255 && |qry| == 4 && p.Length == HDR + |name| + 2 + 4
    modifies p
    ensures |Encoded(name)| == |name| + 1
    ensures p[..] == old(p[..HDR]) + Encoded(name) + [0] + qry
  {
    LabelsJoin(name);
    LabelBytesLength(Labels(name));
    var queryIdx := EncodeName(p, name);
    TakeAt(p, [0], queryIdx);
    assert p[..queryIdx + 1] == old(p[..HDR]) + Encoded(name) + [0];
    TakeAt(p, qry, queryIdx + 1);
  }

  // ---------------------------------------------------------------- names in packets

  /** pbuf_try_get_at */
  function TryGetAt(p: seq<Byte>, at: nat): int {
    if at < |p| then p[at] else -1
  }

  /** The packet holds these labels, uncompressed, from `off` on. */
  predicate LabelsAt(p: seq<Byte>, off: nat, labels: seq<seq<Byte>>)
    decreases |labels|
  {
    |labels| == 0 ||
    (off + 1 + |labels[0]| <= |p| && p[off] == |labels[0]| && p[off + 1..off + 1 + |labels[0]|] == labels[0]
     && LabelsAt(p, off + 1 + |labels[0]|, labels[1..]))
  }

  /** Where the labels end. */
  function EndOf(off: nat, labels: seq<seq<Byte>>): nat
    decreases |labels|
  {
    if |labels| == 0 then off else EndOf(off + 1 + |labels[0]|, labels[1..])
  }

  function Lower(b: Byte): Byte {
    if 65 <= b <= 90 then b + 32 else b
  }

  predicate SameLetters(a: seq<Byte>, b: seq<Byte>) {
    |a| == |b| && forall k :: 0 <= k < |a| ==> Lower(a[k]) == Lower(b[k])
  }

  // ---------------------------------------------------------------- dns_compare_name

  /** The text the query pointer walks over, beyond its terminator whatever happens to be in memory. */
  type Memory = nat -> Byte

  predicate SameAt(mem: Memory, q: nat, p: seq<Byte>, at: nat, k: nat) {
    at + k < |p| && Lower(mem(q + k)) == Lower(p[at + k])
  }

  predicate Matches(mem: Memory, q: nat, p: seq<Byte>, at: nat, n: nat) {
    forall k: nat :: k < n ==> SameAt(mem, q, p, at, k)
  }

  /** Label by label: equal up to case, then one byte of the query is skipped. */
  function CompareFrom(mem: Memory, q: nat, p: seq<Byte>, off: nat): (r: nat)
    decreases |p| - off
  {
    if off >= |p| || p[off] >= 0xC0 || !Matches(mem, q, p, off + 1, p[off]) then FAIL
    else
      var next := off + 1 + p[off];
      if next >= |p| then FAIL
      else if p[next] == 0 then next + 1
      else CompareFrom(mem, q + p[off] + 1, p, next)
  }

  /** The first characters that differ are those at `k`. */
  predicate DifferAt(mem: Memory, q: nat, p: seq<Byte>, at: nat, k: nat) {
    Matches(mem, q, p, at, k) && !SameAt(mem, q, p, at, k)
  }

  lemma {:induction false} SomeDiffer(mem: Memory, q: nat, p: seq<Byte>, at: nat, n: nat)
    requires !Matches(mem, q, p, at, n)
    ensures exists k: nat :: k < n && DifferAt(mem, q, p, at, k)
  {
    if Matches(mem, q, p, at, n - 1) {
      assert DifferAt(mem, q, p, at, n - 1);
    } else {
      SomeDiffer(mem, q, p, at, n - 1);
    }
  }

  /** How many characters of a label agree. */
  ghost function Agreeing(mem: Memory, q: nat, p: seq<Byte>, at: nat, n: nat): (k: nat)
    ensures k <= n
  {
    if Matches(mem, q, p, at, n) then n
    else
      SomeDiffer(mem, q, p, at, n);
      var k: nat :| k < n && DifferAt(mem, q, p, at, k);
      k
  }

  lemma AgreeingMatches(mem: Memory, q: nat, p: seq<Byte>, at: nat, n: nat)
    ensures Matches(mem, q, p, at, Agreeing(mem, q, p, at, n))
  {}

  lemma AgreeingIs(mem: Memory, q: nat, p: seq<Byte>, at: nat, k: nat, n: nat)
    requires k <= n && Matches(mem, q, p, at, k) && (k < n ==> !SameAt(mem, q, p, at, k))
    ensures Agreeing(mem, q, p, at, n) == k
  {
  }

  lemma AgreesAll(mem: Memory, q: nat, p: seq<Byte>, at: nat, n: nat)
    ensures Agreeing(mem, q, p, at, n) == n <==> Matches(mem, q, p, at, n)
  {
    AgreeingMatches(mem, q, p, at, n);
    if Matches(mem, q, p, at, n) { AgreeingIs(mem, q, p, at, n, n); }
  }

  /** One more than the furthest index of the query read for one label; `far` if none is. */
  ghost function LabelRead(mem: Memory, q: nat, p: seq<Byte>, at: nat, n: nat, far: nat): nat {
    var k := Agreeing(mem, q, p, at, n);
    if k < n && at + k < |p| then q + k + 1 else if k > 0 then q + k else far
  }

  /** Result and furthest index read, label by label; `far` stands for what was read before. */
  ghost function WalkFrom(mem: Memory, q: nat, p: seq<Byte>, off: nat, far: nat): (nat, nat)
    decreases |p| - off
  {
    if off >= |p| || p[off] >= 0xC0 then (FAIL, far)
    else
      var n, next := p[off], off + 1 + p[off];
      var far' := LabelRead(mem, q, p, off + 1, n, far);
      if Agreeing(mem, q, p, off + 1, n) < n || next >= |p| then (FAIL, far')
      else if p[next] == 0 then (next + 1, far')
      else WalkFrom(mem, q + n + 1, p, next, far')
  }

  lemma WalkStep(mem: Memory, q: nat, p: seq<Byte>, off: nat, far: nat)
    requires off < |p| && p[off] < 0xC0
    ensures var n, next := p[off], off + 1 + p[off];
      var far' := LabelRead(mem, q, p, off + 1, n, far);
      WalkFrom(mem, q, p, off, far) ==
        if Agreeing(mem, q, p, off + 1, n) < n || next >= |p| then (FAIL, far')
        else if p[next] == 0 then (next + 1, far')
        else WalkFrom(mem, q + n + 1, p, next, far')
  {}

  lemma {:induction false} WalkIsCompare(mem: Memory, q: nat, p: seq<Byte>, off: nat, far: nat)
    ensures WalkFrom(mem, q, p, off, far).0 == CompareFrom(mem, q, p, off)
    decreases |p| - off
  {
    if off < |p| && p[off] < 0xC0 {
      var n, next := p[off], off + 1 + p[off];
      AgreesAll(mem, q, p, off + 1, n);
      if Matches(mem, q, p, off + 1, n) && next < |p| && p[next] != 0 {
        WalkIsCompare(mem, q + n + 1, p, next, LabelRead(mem, q, p, off + 1, n, far));
      }
    }
  }

  /** One more than the furthest index of the query that is read, or 0. */
  ghost function FurthestRead(mem: Memory, p: seq<Byte>, start: nat): nat {
    WalkFrom(mem, 0, p, start, 0).1
  }

  /** The inner loop of dns_compare_name: one label. */
  method MatchLabel(mem: Memory, q: nat, p: seq<Byte>, at: nat, len: nat, ghost far0: nat)
      returns (ok: bool, ghost far: nat)
    requires at <= |p|
    ensures ok ==> at + len <= |p|
    ensures far == LabelRead(mem, q, p, at, len, far0) && (ok <==> Agreeing(mem, q, p, at, len) == len)
  {
    far := far0;
    for k := 0 to len
      invariant at + k <= |p| && Matches(mem, q, p, at, k) && far == if k > 0 then q + k else far0
    {
      var c := TryGetAt(p, at + k);
      if c < 0 {
        AgreeingIs(mem, q, p, at, k, len);
        return false, far;
      }
      far := q + k + 1;
      if Lower(mem(q + k)) != Lower(c) {
        AgreeingIs(mem, q, p, at, k, len);
        return false, far;
      }
      assert SameAt(mem, q, p, at, k);
    }
    AgreeingIs(mem, q, p, at, len, len);
    return true, far;
  }

  /** dns_compare_name; `far` is one more than the furthest index of the query that is read, or 0. */
  method CompareName(mem: Memory, p: seq<Byte>, start: nat) returns (r: nat, ghost far: nat)
    requires |p| <= 0xFFFF && start <= 0xFFFF
    ensures r == CompareFrom(mem, 0, p, start)
    ensures far == FurthestRead(mem, p, start)
  {
    WalkIsCompare(mem, 0, p, start, 0);
    r, far := WalkName(mem, p, start);
  }

  /** The outer loop of dns_compare_name. */
  method WalkName(mem: Memory, p: seq<Byte>, start: nat) returns (r: nat, ghost far: nat)
    requires |p| <= 0xFFFF && start <= 0xFFFF
    ensures r == WalkFrom(mem, 0, p, start, 0).0
    ensures far == WalkFrom(mem, 0, p, start, 0).1
  {
    var query: nat, responseOffset: nat, n := 0, start, -1;
    ghost var w := WalkFrom(mem, 0, p, start, 0);
    far := 0;
    while n != 0
      invariant n != 0 ==> WalkFrom(mem, query, p, responseOffset, far) == w
      invariant n == 0 ==> w == (responseOffset + 1, far)
      decreases n != 0, |p| - responseOffset
    {
      n, query, responseOffset, far := WalkOne(mem, query, p, responseOffset, far);
      if n < 0 {
        return FAIL, far;
      }
    }
    return responseOffset + 1, far;
  }

  /** One round of it: a label and the length byte behind it, or -1 for failure. */
  method WalkOne(mem: Memory, q: nat, p: seq<Byte>, off: nat, ghost far0: nat)
      returns (n: int, query: nat, responseOffset: nat, ghost far: nat)
    requires |p| <= 0xFFFF
    ensures n < 0 ==> WalkFrom(mem, q, p, off, far0) == (FAIL, far)
    ensures n == 0 ==> WalkFrom(mem, q, p, off, far0) == (responseOffset + 1, far)
    ensures n > 0 ==> WalkFrom(mem, q, p, off, far0) == WalkFrom(mem, query, p, responseOffset, far)
    ensures n > 0 ==> off < responseOffset < |p|
  {
    query, responseOffset, far := q, off, far0;
    n := TryGetAt(p, responseOffset);
    if n < 0 || responseOffset == 0xFFFF {
      n := -1;
      return;
    }
    responseOffset := responseOffset + 1;
    if n >= 0xC0 {
      n := -1;
      return;
    }
    WalkStep(mem, q, p, off, far0);
    var ok;
    ok, far := MatchLabel(mem, query, p, responseOffset, n, far);
    if !ok {
      n := -1;
      return;
    }
    responseOffset := responseOffset + n;
    query := query + n + 1;
    n := TryGetAt(p, responseOffset);
  }

  /** The query holds these labels from `q` on, up to case, with some byte after each. */
  predicate QueryLabels(mem: Memory, q: nat, labels: seq<seq<Byte>>)
    decreases |labels|
  {
    |labels| == 0 || (Holds(mem, q, labels[0]) && QueryLabels(mem, q + |labels[0]| + 1, labels[1..]))
  }

  predicate Holds(mem: Memory, q: nat, text: seq<Byte>) {
    forall k: nat :: k < |text| ==> Lower(mem(q + k)) == Lower(text[k])
  }

  /** A name dns_compare_name can walk: no compressed label, and only the first label may be empty. */
  predicate Walkable(labels: seq<seq<Byte>>) {
    |labels| >= 1 && |labels[0]| < 0xC0 && forall i :: 1 <= i < |labels| ==> 1 <= |labels[i]| < 0xC0
  }

  lemma MatchesLabel(mem: Memory, q: nat, p: seq<Byte>, at: nat, l: seq<Byte>)
    requires at + |l| <= |p| && p[at..at + |l|] == l
    ensures Matches(mem, q, p, at, |l|) <==> Holds(mem, q, l)
  {
    assert forall k: nat :: k < |l| ==> p[at + k] == l[k];
    if Holds(mem, q, l) {
      forall k: nat | k < |l| ensures SameAt(mem, q, p, at, k) {}
    }
    if Matches(mem, q, p, at, |l|) {
      forall k: nat | k < |l| ensures Lower(mem(q + k)) == Lower(l[k]) { assert SameAt(mem, q, p, at, k); }
    }
  }

  /** Accepted: a terminated name in the packet whose labels the query holds ... */
  lemma {:induction false} CompareAccepts(mem: Memory, q: nat, p: seq<Byte>, off: nat, labels: seq<seq<Byte>>)
    requires Walkable(labels) && LabelsAt(p, off, labels) && QueryLabels(mem, q, labels)
    requires TryGetAt(p, EndOf(off, labels)) == 0
    ensures CompareFrom(mem, q, p, off) == EndOf(off, labels) + 1
    decreases |labels|
  {
    var l, next := labels[0], off + 1 + |labels[0]|;
    MatchesLabel(mem, q, p, off + 1, l);
    if |labels| > 1 {
      assert LabelsAt(p, next, labels[1..]) && labels[1..][0] == labels[1];
      CompareAccepts(mem, q + |l| + 1, p, next, labels[1..]);
    }
  }

  /** ... and nothing else. */
  lemma {:induction false} CompareRejects(mem: Memory, q: nat, p: seq<Byte>, off: nat) returns (labels: seq<seq<Byte>>)
    requires |p| < FAIL && CompareFrom(mem, q, p, off) != FAIL
    ensures Walkable(labels) && LabelsAt(p, off, labels) && QueryLabels(mem, q, labels)
    ensures TryGetAt(p, EndOf(off, labels)) == 0
    decreases |p| - off
  {
    var n := p[off];
    var next := off + 1 + n;
    var l := p[off + 1..next];
    MatchesLabel(mem, q, p, off + 1, l);
    if p[next] == 0 {
      labels := [l];
    } else {
      var rest := CompareRejects(mem, q + n + 1, p, next);
      labels := [l] + rest;
      assert labels[1..] == rest;
      assert |rest[0]| == p[next];
    }
  }

  ghost predicate SameNames(a: seq<seq<Byte>>, b: seq<seq<Byte>>) {
    |a| == |b| && forall i :: 0 <= i < |a| ==> SameLetters(a[i], b[i])
  }

  /** The query's text in memory. */
  ghost predicate StoredAt(mem: Memory, q: nat, text: seq<Byte>) {
    forall k: nat :: k < |text| ==> mem(q + k) == text[k]
  }

  lemma {:induction false} DottedHolds(mem: Memory, q: nat, labels: seq<seq<Byte>>, labels': seq<seq<Byte>>)
    requires |labels| >= 1 && StoredAt(mem, q, Dotted(labels)) && SameNames(labels, labels')
    ensures QueryLabels(mem, q, labels')
    decreases |labels|
  {
    var l, text := labels[0], Dotted(labels);
    assert forall k: nat :: k < |l| ==> text[k] == l[k];
    if |labels| > 1 {
      var rest := Dotted(labels[1..]);
      forall k: nat | k < |rest| ensures mem(q + |l| + 1 + k) == rest[k] {
        assert text[|l| + 1 + k] == rest[k];
        assert mem(q + (|l| + 1 + k)) == text[|l| + 1 + k];
      }
      DottedHolds(mem, q + |l| + 1, labels[1..], labels'[1..]);
    }
  }

  lemma {:induction false} EndOfLength(off: nat, labels: seq<seq<Byte>>)
    requires |labels| >= 1
    ensures EndOf(off, labels) == off + |Dotted(labels)| + 1
    decreases |labels|
  {
    if |labels| > 1 { EndOfLength(off + 1 + |labels[0]|, labels[1..]); }
  }

  lemma {:induction false} SameNamesLength(a: seq<seq<Byte>>, b: seq<seq<Byte>>)
    requires SameNames(a, b)
    ensures |Dotted(a)| == |Dotted(b)|
  {
    if |a| > 1 { SameNamesLength(a[1..], b[1..]); }
  }

  /** A response with the queried name, in whatever mixture of cases and whatever follows the text in memory,
      is accepted, and the offset just behind the name is returned. */
  lemma OwnNameMatches(mem: Memory, p: seq<Byte>, start: nat, labels: seq<seq<Byte>>, labels': seq<seq<Byte>>)
    requires Proper(labels) && StoredAt(mem, 0, Dotted(labels)) && SameNames(labels, labels')
    requires LabelsAt(p, start, labels') && TryGetAt(p, start + |Dotted(labels)| + 1) == 0
    ensures CompareFrom(mem, 0, p, start) == start + |Dotted(labels)| + 2
  {
    DottedHolds(mem, 0, labels, labels');
    SameNamesLength(labels, labels');
    EndOfLength(start, labels');
    SameIsWalkable(labels, labels');
    CompareAccepts(mem, 0, p, start, labels');
  }

  lemma SameIsWalkable(labels: seq<seq<Byte>>, labels': seq<seq<Byte>>)
    requires Proper(labels) && SameNames(labels, labels')
    ensures Walkable(labels')
  {
    forall i | 0 <= i < |labels'| ensures 1 <= |labels'[i]| < 0xC0 {
      assert SameLetters(labels[i], labels'[i]) && ProperLabel(labels[i]);
    }
  }

  lemma {:induction false} BytesAreLabels(p: seq<Byte>, off: nat, labels: seq<seq<Byte>>)
    requires forall i :: 0 <= i < |labels| ==> |labels[i]| < 256
    requires off + |LabelBytes(labels)| <= |p| && p[off..off + |LabelBytes(labels)|] == LabelBytes(labels)
    ensures LabelsAt(p, off, labels)
    decreases |labels|
  {
    if |labels| > 0 {
      var l, bytes, rest := labels[0], LabelBytes(labels), LabelBytes(labels[1..]);
      var next := off + 1 + |l|;
      assert |bytes| == 1 + |l| + |rest|;
      assert forall k: nat :: k < |bytes| ==> p[off + k] == bytes[k];
      assert p[off + 0] == bytes[0];
      assert p[off + 1..next] == l by {
        forall k: nat | k < |l| ensures p[off + 1 + k] == l[k] { assert p[off + (1 + k)] == bytes[1 + k]; }
      }
      assert p[next..next + |rest|] == rest by {
        forall k: nat | k < |rest| ensures p[next + k] == rest[k] {
          assert p[off + (1 + |l| + k)] == bytes[1 + |l| + k];
        }
      }
      BytesAreLabels(p, next, labels[1..]);
    }
  }

  /** What dns_send writes, dns_compare_name accepts. */
  lemma QuestionMatchesItself(mem: Memory, hdr: seq<Byte>, name: seq<Byte>, rest: seq<Byte>)
    requires |name| <= 255 && Proper(Labels(name)) && StoredAt(mem, 0, name) && |hdr| == HDR
    ensures CompareFrom(mem, 0, hdr + Encoded(name) + [0] + rest, HDR) == HDR + |name| + 2
  {
    var p, labels := hdr + Encoded(name) + [0] + rest, Labels(name);
    LabelsJoin(name);
    LabelBytesLength(labels);
    BytesAreLabels(p, HDR, labels);
    assert forall i :: 0 <= i < |labels| ==> SameLetters(labels[i], labels[i]);
    OwnNameMatches(mem, p, HDR, labels, labels);
  }

  // ---------------------------------------------------------------- what acceptance does not mean

  /** The bytes dns_compare_name skips are the query's dots and its terminator. */
  predicate Separators(mem: Memory, q: nat, labels: seq<seq<Byte>>)
    requires |labels| >= 1
    decreases |labels|
  {
    if |labels| == 1 then mem(q + |labels[0]|) == 0
    else mem(q + |labels[0]|) == DOT && Separators(mem, q + |labels[0]| + 1, labels[1..])
  }

  /** An accepted name is the query's name exactly if the skipped bytes, which are not looked at, are the
      query's dots and its terminator. */
  lemma {:induction false} AcceptedIsQueryExactlyWhen(mem: Memory, q: nat, labels: seq<seq<Byte>>)
    requires |labels| >= 1 && QueryLabels(mem, q, labels)
    ensures Separators(mem, q, labels) <==> Holds(mem, q, Dotted(labels)) && mem(q + |Dotted(labels)|) == 0
    decreases |labels|
  {
    if |labels| > 1 {
      AcceptedIsQueryExactlyWhen(mem, q + |labels[0]| + 1, labels[1..]);
      HoldsDotted(mem, q, labels[0], Dotted(labels[1..]));
    }
  }

  lemma HoldsDotted(mem: Memory, q: nat, l: seq<Byte>, rest: seq<Byte>)
    ensures Holds(mem, q, l + [DOT] + rest)
       <==> Holds(mem, q, l) && mem(q + |l|) == DOT && Holds(mem, q + |l| + 1, rest)
  {
    HoldsAppend(mem, q, l + [DOT], rest);
    HoldsAppend(mem, q, l, [DOT]);
    HoldsByte(mem, q + |l|);
  }

  lemma HoldsAppend(mem: Memory, q: nat, a: seq<Byte>, b: seq<Byte>)
    ensures Holds(mem, q, a + b) <==> Holds(mem, q, a) && Holds(mem, q + |a|, b)
  {
    if Holds(mem, q, a + b) {
      forall k: nat | k < |a| ensures Lower(mem(q + k)) == Lower(a[k]) { assert (a + b)[k] == a[k]; }
      forall k: nat | k < |b| ensures Lower(mem(q + |a| + k)) == Lower(b[k]) {
        assert (a + b)[|a| + k] == b[k];
        assert Lower(mem(q + (|a| + k))) == Lower((a + b)[|a| + k]);
      }
    }
    if Holds(mem, q, a) && Holds(mem, q + |a|, b) {
      forall k: nat | k < |a + b| ensures Lower(mem(q + k)) == Lower((a + b)[k]) {
        if k >= |a| {
          var j: nat := k - |a|;
          assert Lower(mem(q + |a| + j)) == Lower(b[j]);
        }
      }
    }
  }

  lemma HoldsByte(mem: Memory, q: nat)
    ensures Holds(mem, q, [DOT]) <==> mem(q) == DOT
  {
    if Holds(mem, q, [DOT]) {
      assert Lower(mem(q + 0)) == Lower([DOT][0]);
    }
  }

  /** A response for "a.b" is taken for an answer to the query "a-b". */
  lemma AcceptsAnotherName()
    ensures var mem := (k: nat) => if k == 0 then 97 else if k == 1 then 45 else if k == 2 then 98 else 0;
      && CompareFrom(mem, 0, [1, 97, 1, 98, 0], 0) == 5
      && !Separators(mem, 0, [[97], [98]])
  {
    var mem := (k: nat) => if k == 0 then 97 else if k == 1 then 45 else if k == 2 then 98 else 0;
    var p: seq<Byte> := [1, 97, 1, 98, 0];
    assert SameAt(mem, 0, p, 1, 0) && SameAt(mem, 2, p, 3, 0);
    assert CompareFrom(mem, 2, p, 2) == 5;
  }

  // ---------------------------------------------------------------- how far the query is read

  /** The query's text and its terminator. */
  ghost predicate Query(mem: Memory, name: seq<Byte>) {
    StoredAt(mem, 0, name) && mem(|name|) == 0 && 0 !in name
  }

  ghost predicate ZeroFree(labels: seq<seq<Byte>>) {
    forall i :: 0 <= i < |labels| ==> 1 <= |labels[i]| < 0xC0 && 0 !in labels[i]
  }

  /** A first part of the response's labels uses up the query, and more labels follow. */
  ghost predicate Outruns(mem: Memory, q: nat, size: nat, labels: seq<seq<Byte>>)
    decreases |labels|
  {
    && |labels| > 1 && Holds(mem, q, labels[0])
    && (q + |labels[0]| == size || Outruns(mem, q + |labels[0]| + 1, size, labels[1..]))
  }

  lemma ZeroIsNotHeld(mem: Memory, q: nat, l: seq<Byte>, k: nat)
    requires Holds(mem, q, l) && k < |l| && 0 !in l
    ensures mem(q + k) != 0
  {
    assert Lower(mem(q + k)) == Lower(l[k]) && l[k] in l;
  }

  /** A label without zeros is matched at most up to the terminator. */
  lemma LabelEndsBefore(mem: Memory, q: nat, name: seq<Byte>, l: seq<Byte>)
    requires Query(mem, name) && q <= |name| && 0 !in l && Holds(mem, q, l)
    ensures q + |l| <= |name|
  {
    if q + |l| > |name| { ZeroIsNotHeld(mem, q, l, |name| - q); }
  }

  /** How many characters of a label the query agrees with. */
  ghost function AgreeingWith(mem: Memory, q: nat, l: seq<Byte>): nat {
    Agreeing(mem, q, l, 0, |l|)
  }

  lemma AgreeingBefore(mem: Memory, q: nat, name: seq<Byte>, l: seq<Byte>)
    requires Query(mem, name) && q <= |name| && 0 !in l
    ensures AgreeingWith(mem, q, l) == |l| <==> Holds(mem, q, l)
    ensures q + AgreeingWith(mem, q, l) <= |name|
  {
    var k := AgreeingWith(mem, q, l);
    AgreesAll(mem, q, l, 0, |l|);
    AgreeingMatches(mem, q, l, 0, |l|);
    MatchesLabel(mem, q, l, 0, l);
    MatchesLabel(mem, q, l, 0, l[..k]);
    LabelEndsBefore(mem, q, name, l[..k]);
  }

  /** One more than the furthest index read for a name of these labels. */
  ghost function LabelsRead(mem: Memory, q: nat, labels: seq<seq<Byte>>): nat
    requires |labels| >= 1
    decreases |labels|
  {
    var l := labels[0];
    var k := AgreeingWith(mem, q, l);
    if k < |l| then q + k + 1
    else if |labels| == 1 then q + |l|
    else LabelsRead(mem, q + |l| + 1, labels[1..])
  }

  /** The first label of a terminated name in the packet, and what follows it. */
  lemma FirstLabelAt(p: seq<Byte>, off: nat, labels: seq<seq<Byte>>)
    requires |labels| >= 1 && ZeroFree(labels) && LabelsAt(p, off, labels) && TryGetAt(p, EndOf(off, labels)) == 0
    ensures var l, next, rest := labels[0], off + 1 + |labels[0]|, labels[1..];
      && next < |p| && p[off] == |l| && p[off + 1..next] == l && 1 <= |l| < 0xC0
      && (if |labels| == 1 then p[next] == 0
          else p[next] != 0 && ZeroFree(rest) && LabelsAt(p, next, rest) && TryGetAt(p, EndOf(next, rest)) == 0)
  {
    var next, rest := off + 1 + |labels[0]|, labels[1..];
    EndOfGrows(next, rest);
    if |labels| > 1 { assert rest[0] == labels[1]; }
  }

  lemma AgreeingInPacket(mem: Memory, q: nat, p: seq<Byte>, at: nat, l: seq<Byte>)
    requires at + |l| <= |p| && p[at..at + |l|] == l
    ensures Agreeing(mem, q, p, at, |l|) == AgreeingWith(mem, q, l)
  {
    var k := AgreeingWith(mem, q, l);
    AgreeingMatches(mem, q, l, 0, |l|);
    assert forall j: nat :: j < |l| ==> l[j] == p[at + j];
    assert forall j: nat :: j < |l| ==> SameAt(mem, q, l, 0, j) == SameAt(mem, q, p, at, j);
    AgreeingIs(mem, q, p, at, k, |l|);
  }

  /** A terminated name in the packet, label by label. */
  predicate NameAt(p: seq<Byte>, off: nat, labels: seq<seq<Byte>>)
    decreases |labels|
  {
    |labels| >= 1 && LabelAt(p, off, labels[0]) &&
    if |labels| == 1 then p[off + 1 + |labels[0]|] == 0
    else p[off + 1 + |labels[0]|] != 0 && NameAt(p, off + 1 + |labels[0]|, labels[1..])
  }

  predicate LabelAt(p: seq<Byte>, off: nat, l: seq<Byte>) {
    1 <= |l| < 0xC0 && off + 1 + |l| < |p| && p[off] == |l| && p[off + 1..off + 1 + |l|] == l
  }

  lemma {:induction false} LabelsAreName(p: seq<Byte>, off: nat, labels: seq<seq<Byte>>)
    requires |labels| >= 1 && ZeroFree(labels) && LabelsAt(p, off, labels) && TryGetAt(p, EndOf(off, labels)) == 0
    ensures NameAt(p, off, labels)
    decreases |labels|
  {
    FirstLabelAt(p, off, labels);
    if |labels| > 1 { LabelsAreName(p, off + 1 + |labels[0]|, labels[1..]); }
  }

  /** dns_compare_name reads what the labels in the packet make it read. */
  lemma {:induction false} WalkReadsLabels(mem: Memory, q: nat, p: seq<Byte>, off: nat, labels: seq<seq<Byte>>,
                                           far: nat)
    requires NameAt(p, off, labels)
    ensures WalkFrom(mem, q, p, off, far).1 == LabelsRead(mem, q, labels)
    decreases |labels|
  {
    var l := labels[0];
    WalkLabel(mem, q, p, off, l, far);
    if |labels| > 1 && AgreeingWith(mem, q, l) == |l| {
      WalkReadsLabels(mem, q + |l| + 1, p, off + 1 + |l|, labels[1..], q + |l|);
    }
  }

  lemma WalkLabel(mem: Memory, q: nat, p: seq<Byte>, off: nat, l: seq<Byte>, far: nat)
    requires LabelAt(p, off, l)
    ensures var k, w := AgreeingWith(mem, q, l), WalkFrom(mem, q, p, off, far);
      && (k < |l| ==> w.1 == q + k + 1)
      && (k == |l| && p[off + 1 + |l|] == 0 ==> w.1 == q + |l|)
      && (k == |l| && p[off + 1 + |l|] != 0 ==> w == WalkFrom(mem, q + |l| + 1, p, off + 1 + |l|, q + |l|))
  {
    AgreeingInPacket(mem, q, p, off + 1, l);
    WalkStep(mem, q, p, off, far);
  }

  /** Something is read for every label. */
  lemma {:induction false} LabelsReadGrows(mem: Memory, q: nat, labels: seq<seq<Byte>>)
    requires |labels| >= 1 && ZeroFree(labels)
    ensures LabelsRead(mem, q, labels) > q
    decreases |labels|
  {
    if |labels| > 1 { LabelsReadGrows(mem, q + |labels[0]| + 1, labels[1..]); }
  }

  /** Bytes behind the query's terminator are read exactly if some first part of the labels uses up the query and
      more labels follow; otherwise reading ends at the terminator at the latest. */
  lemma {:induction false} ReadsBeyondExactlyWhen(mem: Memory, q: nat, name: seq<Byte>, labels: seq<seq<Byte>>)
    requires Query(mem, name) && q <= |name| && |labels| >= 1 && ZeroFree(labels)
    ensures LabelsRead(mem, q, labels) > |name| + 1 <==> Outruns(mem, q, |name|, labels)
    decreases |labels|
  {
    var l := labels[0];
    AgreeingBefore(mem, q, name, l);
    if |labels| > 1 && AgreeingWith(mem, q, l) == |l| {
      if q + |l| == |name| {
        LabelsReadGrows(mem, q + |l| + 1, labels[1..]);
      } else {
        ReadsBeyondExactlyWhen(mem, q + |l| + 1, name, labels[1..]);
      }
    }
  }

  /** The same of dns_compare_name, for every name in a packet whose labels hold no zeros. */
  lemma CompareReadsBeyondExactlyWhen(mem: Memory, name: seq<Byte>, p: seq<Byte>, start: nat, labels: seq<seq<Byte>>)
    requires Query(mem, name) && |labels| >= 1 && ZeroFree(labels)
    requires LabelsAt(p, start, labels) && TryGetAt(p, EndOf(start, labels)) == 0
    ensures FurthestRead(mem, p, start) > |name| + 1 <==> Outruns(mem, 0, |name|, labels)
  {
    LabelsAreName(p, start, labels);
    WalkReadsLabels(mem, 0, p, start, labels, 0);
    ReadsBeyondExactlyWhen(mem, 0, name, labels);
  }

  // ---------------------------------------------------------------- dns_skip_name

  function SkipFrom(p: seq<Byte>, off: nat): (r: nat)
    decreases |p| - off
  {
    if off >= |p| then FAIL
    else if p[off] >= 0xC0 then off + 2
    else
      var next := off + 1 + p[off];
      if next >= |p| then FAIL
      else if p[next] == 0 then next + 1
      else SkipFrom(p, next)
  }

  /** dns_skip_name ends on every packet; offsets do not wrap. */
  method SkipName(p: seq<Byte>, queryIdx: nat) returns (r: nat)
    requires |p| <= 0xFFFF && queryIdx <= 0xFFFF
    ensures r == if SkipFrom(p, queryIdx) < FAIL then SkipFrom(p, queryIdx) else FAIL
  {
    var offset, n := queryIdx, -1;
    while n != 0
      invariant offset <= 0xFFFF
      invariant n != 0 ==> SkipFrom(p, offset) == SkipFrom(p, queryIdx)
      invariant n == 0 ==> offset < |p| && SkipFrom(p, queryIdx) == offset + 1
      decreases n != 0, |p| - offset
    {
      n := TryGetAt(p, offset);
      offset := (offset + 1) % 0x10000;
      if n < 0 || offset == 0 {
        return FAIL;
      }
      if n >= 0xC0 {
        break;
      }
      if offset + n >= |p| {
        return FAIL;
      }
      offset := offset + n;
      n := TryGetAt(p, offset);
      if n < 0 {
        return FAIL;
      }
    }
    if offset == 0xFFFF {
      return FAIL;
    }
    return offset + 1;
  }

  /** How a name ends: the root label, or a pointer to the rest of the name. */
  datatype Tail = Root | Pointer

  function NameEnd(off: nat, labels: seq<seq<Byte>>, tail: Tail): nat {
    EndOf(off, labels) + if tail.Root? then 1 else 2
  }

  /** A name as section 4.1.4 of RFC 1035 has it: labels of 1 to 63 bytes, then a zero or a two-byte pointer. */
  ghost predicate WellFormed(p: seq<Byte>, off: nat, labels: seq<seq<Byte>>, tail: Tail) {
    && LabelsAt(p, off, labels)
    && (forall i :: 0 <= i < |labels| ==> 1 <= |labels[i]| <= 63)
    && NameEnd(off, labels, tail) <= |p|
    && (if tail.Root? then p[EndOf(off, labels)] == 0 else p[EndOf(off, labels)] >= 0xC0)
  }

  lemma {:induction false} SkipsToEnd(p: seq<Byte>, off: nat, labels: seq<seq<Byte>>, tail: Tail)
    requires WellFormed(p, off, labels, tail) && (|labels| >= 1 || tail.Pointer?)
    ensures SkipFrom(p, off) == NameEnd(off, labels, tail)
    decreases |labels|
  {
    if |labels| >= 1 {
      var next := off + 1 + |labels[0]|;
      EndOfGrows(next, labels[1..]);
      if |labels| > 1 {
        assert labels[1..][0] == labels[1];
        SkipsToEnd(p, next, labels[1..], tail);
      } else if tail.Pointer? {
        SkipsToEnd(p, next, labels[1..], tail);
      }
    }
  }

  lemma {:induction false} EndOfGrows(off: nat, labels: seq<seq<Byte>>)
    ensures EndOf(off, labels) >= off
    decreases |labels|
  {
    if |labels| > 0 { EndOfGrows(off + 1 + |labels[0]|, labels[1..]); }
  }

  lemma {:induction false} SkipAdvances(p: seq<Byte>, off: nat)
    requires |p| < FAIL
    ensures SkipFrom(p, off) >= off + 2 || SkipFrom(p, off) == FAIL
    decreases |p| - off
  {
    if off < |p| && p[off] < 0xC0 {
      var next := off + 1 + p[off];
      if next < |p| && p[next] != 0 { SkipAdvances(p, next); }
    }
  }

  /** On a well-formed name the end is found exactly if the name is not the bare root: there the zero is
      taken for an empty label with more to come. */
  lemma SkipIsRightExactlyWhen(p: seq<Byte>, off: nat, labels: seq<seq<Byte>>, tail: Tail)
    requires WellFormed(p, off, labels, tail) && |p| < FAIL
    ensures SkipFrom(p, off) == NameEnd(off, labels, tail) <==> !(labels == [] && tail.Root?)
  {
    if labels == [] && tail.Root? {
      SkipAdvances(p, off);
    } else {
      SkipsToEnd(p, off, labels, tail);
    }
  }
}
