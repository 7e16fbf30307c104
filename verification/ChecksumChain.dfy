/** The checksum over pbuf chains (lwip-2.1.3/src/core/inet_chksum.c:259-295, 304-324, 398-440, 455-476, 553-588):
    each pbuf is summed by itself and the accumulator's bytes are exchanged after every pbuf of odd length.
    A chain is a sequence of byte strings; `at` gives the address of each payload. */
module ChecksumChain {
  import opened Common
  import opened ChecksumSpec
  import Checksum

  lemma FlatStep(chain: seq<seq<Byte>>, i: nat)
    requires i < |chain|
    ensures Flat(chain[..i + 1]) == Flat(chain[..i]) + chain[i]
  {
    assert chain[..i + 1][..i] == chain[..i];
  }

  // ---------------------------------------------------------------- the accumulator

  /** The accumulator stands for `n`, with its bytes exchanged when `swapped`. */
  ghost predicate Holds(acc: nat, n: nat, swapped: bool) {
    acc <= 0xFFFF && Rep(acc, if swapped then 0x100 * n else n)
  }

  lemma HoldsSwap(acc: nat, n: nat, swapped: bool)
    requires Holds(acc, n, swapped)
    ensures Holds(Swap(acc), n, !swapped)
  {
    if swapped {
      SwapRep(acc, 0x100 * n);
      RepTwice(n);
      RepTrans(Swap(acc), 0x100 * (0x100 * n), n);
    } else {
      SwapRep(acc, n);
    }
  }

  /** Adding the sum of a pbuf that starts where `f`, of odd length exactly if `swapped`, ends. */
  lemma HoldsAdd(acc: nat, base: nat, f: seq<Byte>, q: seq<Byte>, swapped: bool)
    requires Holds(acc, base + LE(f), swapped) && swapped == (|f| % 2 == 1)
    ensures Holds(Fold(acc + OnesSum(q)), base + LE(f + q), swapped)
  {
    OnesSumIsCanon(q);
    CanonRep(LE(q));
    var s := OnesSum(q);
    FoldRep(acc + s);
    if swapped {
      RepAdd(acc, 0x100 * (base + LE(f)), s, LE(q));
      AppendSwapped(base, f, q);
      RepTrans(acc + s, 0x100 * (base + LE(f)) + LE(q), 0x100 * (base + LE(f + q)));
      RepTrans(Fold(acc + s), acc + s, 0x100 * (base + LE(f + q)));
    } else {
      LEAppend(f, q);
      RepAdd(acc, base + LE(f), s, LE(q));
      RepTrans(Fold(acc + s), acc + s, base + LE(f + q));
    }
  }

  lemma AppendSwapped(base: nat, f: seq<Byte>, q: seq<Byte>)
    requires |f| % 2 == 1
    ensures Rep(0x100 * (base + LE(f)) + LE(q), 0x100 * (base + LE(f + q)))
  {
    LEAppendOdd(f, q);
    RepSame(base);
    RepAdd(base, base, Word(LE(f), LE(q)), LE(f + q));
    RepTimes(base + Word(LE(f), LE(q)), base + LE(f + q));
    var head := 0x100 * (base + LE(f));
    RepSame(head);
    RepTwiceBack(LE(q));
    RepAdd(head, head, LE(q), 0x100 * (0x100 * LE(q)));
    RepTrans(head + LE(q), 0x100 * (base + Word(LE(f), LE(q))), 0x100 * (base + LE(f + q)));
  }

  lemma RepTwiceBack(n: nat)
    ensures Rep(n, 0x100 * (0x100 * n))
  {
    var k: int := n;
    RepBy(n, 0x100 * (0x100 * n), -k);
  }

  /** LWIP_CHKSUM is one of the three versions, chosen when the stack is built. */
  method LwipChksum(algorithm: nat, d: seq<Byte>, addr: nat) returns (r: nat)
    requires 1 <= algorithm <= 3 && |d| <= 0xFFFF
    ensures r == OnesSum(d)
  {
    if algorithm == 1 {
      r := Checksum.StandardChksum1(d);
    } else if algorithm == 2 {
      r := Checksum.StandardChksum2(d, addr);
    } else {
      r := Checksum.StandardChksum3(d, addr);
    }
  }

  /** The first `limit` bytes, or all if there are fewer. */
  function Take(d: seq<Byte>, limit: nat): seq<Byte> {
    if limit < |d| then d[..limit] else d
  }

  /** One round of the loop: sum the first `chklen` bytes of a pbuf, fold, and exchange the bytes after a
      pbuf of odd length.  `f` is the data summed before. */
  method AddPbuf(algorithm: nat, pb: seq<Byte>, addr: nat, chklen: nat, acc0: nat, swapped0: bool,
                 ghost base: nat, ghost f: seq<Byte>) returns (acc: nat, swapped: bool)
    requires 1 <= algorithm <= 3 && chklen <= |pb| <= 0xFFFF
    requires Holds(acc0, base + LE(f), swapped0) && swapped0 == (|f| % 2 == 1)
    ensures Holds(acc, base + LE(f + pb[..chklen]), swapped)
    ensures swapped == (swapped0 != (|pb| % 2 != 0))
  {
    var sum := LwipChksum(algorithm, pb[..chklen], addr);
    HoldsAdd(acc0, base, f, pb[..chklen], swapped0);
    acc := Fold(acc0 + sum);
    swapped := swapped0;
    if |pb| % 2 != 0 {
      HoldsSwap(acc, base + LE(f + pb[..chklen]), swapped);
      swapped := !swapped;
      acc := Swap(acc);
    }
  }

  /** `f` is what has been summed of the first `i` pbufs; `left` of `limit` bytes remain. */
  ghost predicate Walked(chain: seq<seq<Byte>>, i: nat, limit: nat, f: seq<Byte>, left: nat, swapped: bool)
    requires i <= |chain|
  {
    && (left > 0 ==> f == Flat(chain[..i]) && swapped == (|f| % 2 == 1) && left == limit - |f|)
    && (left == 0 ==> f == Take(Flat(chain), limit))
  }

  lemma WalkedStep(chain: seq<seq<Byte>>, i: nat, limit: nat, f: seq<Byte>, left: nat, chklen: nat,
                   swapped: bool, swapped': bool)
    requires i < |chain| && left > 0 && Walked(chain, i, limit, f, left, swapped)
    requires chklen == if |chain[i]| > left then left else |chain[i]|
    requires swapped' == (swapped != (|chain[i]| % 2 != 0))
    ensures Walked(chain, i + 1, limit, f + chain[i][..chklen], left - chklen, swapped')
  {
    TakeStep(chain, i, limit, f, chain[i][..chklen], left - chklen);
  }

  lemma WalkedAll(chain: seq<seq<Byte>>, i: nat, limit: nat, f: seq<Byte>, left: nat, swapped: bool)
    requires i <= |chain| && Walked(chain, i, limit, f, left, swapped) && (i == |chain| || left == 0)
    ensures f == Take(Flat(chain), limit)
  {
    if left > 0 { assert chain[..i] == chain; }
  }

  /** The loop common to inet_cksum_pseudo_base, inet_cksum_pseudo_partial_base and inet_chksum_pbuf: walk the
      chain for at most `limit` bytes, starting from `base`, and undo an exchange left over.  The exchange
      follows the length of the whole pbuf even where only part of it was summed. */
  method SumChain(algorithm: nat, chain: seq<seq<Byte>>, at: seq<nat>, base: nat, limit: nat) returns (acc: nat)
    requires 1 <= algorithm <= 3 && |at| == |chain| && base <= 0xFFFF
    requires forall i :: 0 <= i < |chain| ==> |chain[i]| <= 0xFFFF
    ensures acc <= 0xFFFF && Rep(acc, base + LE(Take(Flat(chain), limit)))
  {
    acc := base;
    var swapped := false;
    var left: nat := limit;
    var i := 0;
    RepSame(base);
    ghost var f: seq<Byte> := [];
    while i < |chain| && left > 0
      invariant 0 <= i <= |chain|
      invariant Holds(acc, base + LE(f), swapped)
      invariant Walked(chain, i, limit, f, left, swapped)
    {
      var chklen := |chain[i]|;
      if chklen > left {
        chklen := left;
      }
      ghost var part := chain[i][..chklen];
      ghost var swapped0 := swapped;
      acc, swapped := AddPbuf(algorithm, chain[i], at[i], chklen, acc, swapped, base, f);
      WalkedStep(chain, i, limit, f, left, chklen, swapped0, swapped);
      left := left - chklen;
      f := f + part;
      i := i + 1;
    }
    WalkedAll(chain, i, limit, f, left, swapped);
    if swapped {
      HoldsSwap(acc, base + LE(f), swapped);
      acc := Swap(acc);
    }
  }

  lemma {:induction false} FlatGrows(chain: seq<seq<Byte>>, i: nat)
    requires i <= |chain|
    ensures |Flat(chain[..i])| <= |Flat(chain)| && Flat(chain)[..|Flat(chain[..i])|] == Flat(chain[..i])
    decreases |chain| - i
  {
    if i < |chain| {
      FlatStep(chain, i);
      FlatGrows(chain, i + 1);
    } else {
      assert chain[..i] == chain;
    }
  }

  lemma TakeStep(chain: seq<seq<Byte>>, i: nat, limit: nat, f: seq<Byte>, q: seq<Byte>, left: nat)
    requires i < |chain| && f == Flat(chain[..i]) && |f| < limit && left == limit - |f| - |q|
    requires q == chain[i] || (|q| < |chain[i]| && q == chain[i][..|q|] && left == 0)
    ensures q == chain[i] ==> f + q == Flat(chain[..i + 1])
    ensures left == 0 ==> f + q == Take(Flat(chain), limit)
  {
    FlatStep(chain, i);
    FlatGrows(chain, i + 1);
    var g := Flat(chain[..i + 1]);
    assert left == 0 ==> f + q == g[..limit] == Flat(chain)[..limit];
  }

  // ---------------------------------------------------------------- the routines

  /** inet_chksum_pbuf equals the checksum of the flattened chain, however it is split. */
  method InetChksumPbuf(algorithm: nat, chain: seq<seq<Byte>>, at: seq<nat>) returns (r: nat)
    requires 1 <= algorithm <= 3 && |at| == |chain|
    requires forall i :: 0 <= i < |chain| ==> |chain[i]| <= 0xFFFF
    ensures r == 0xFFFF - OnesSum(Flat(chain))
  {
    var acc := SumChain(algorithm, chain, at, 0, |Flat(chain)| + 1);
    RepUnique(acc, LE(Flat(chain)));
    OnesSumIsCanon(Flat(chain));
    return 0xFFFF - acc;
  }

  /** The end of the pseudo-header routines: add protocol and length in network order, fold and complement. */
  method AddProtoAndLength(acc0: nat, proto: Byte, protoLen: nat, ghost n: nat) returns (r: nat)
    requires acc0 <= 0xFFFF && Rep(acc0, n) && protoLen <= 0xFFFF
    ensures r == 0xFFFF - Canon(n + Swap(proto) + Swap(protoLen))
  {
    RepSame(Swap(proto) + Swap(protoLen));
    RepAdd(acc0, n, Swap(proto) + Swap(protoLen), Swap(proto) + Swap(protoLen));
    var acc := acc0 + Swap(proto) + Swap(protoLen);
    FoldTwice(acc, n + Swap(proto) + Swap(protoLen));
    CanonRep(n + Swap(proto) + Swap(protoLen));
    acc := Fold(acc);
    acc := Fold(acc);
    return 0xFFFF - acc;
  }

  /** The IPv4 pseudo header of TCP and UDP: addresses, zero, protocol, length, all in network order. */
  function PseudoHeader(src: seq<Byte>, dst: seq<Byte>, proto: Byte, protoLen: nat): seq<Byte>
    requires |src| == 4 && |dst| == 4 && protoLen <= 0xFFFF
  {
    src + dst + [0, proto, protoLen / 0x100, protoLen % 0x100]
  }

  lemma FourBytes(d: seq<Byte>)
    requires |d| == 4
    ensures LE(d) == Word(d[0], d[1]) + Word(d[2], d[3])
  {
    var e := d[2..];
    assert LE(e) == Word(e[0], e[1]) + LE(e[2..]);
    assert e[2..] == [];
  }

  lemma PseudoHeaderSum(src: seq<Byte>, dst: seq<Byte>, proto: Byte, protoLen: nat)
    requires |src| == 4 && |dst| == 4 && protoLen <= 0xFFFF
    ensures |PseudoHeader(src, dst, proto, protoLen)| == 12
    ensures LE(PseudoHeader(src, dst, proto, protoLen)) == LE(src) + LE(dst) + Swap(proto) + Swap(protoLen)
  {
    var hi: Byte, lo: Byte := protoLen / 0x100, protoLen % 0x100;
    var rest: seq<Byte> := [0, proto, hi, lo];
    ProtoAndLengthBytes(proto, protoLen, hi, lo);
    LEAppend(src + dst, rest);
    LEAppend(src, dst);
  }

  lemma ProtoAndLengthBytes(proto: Byte, protoLen: nat, hi: Byte, lo: Byte)
    requires protoLen <= 0xFFFF && hi == protoLen / 0x100 && lo == protoLen % 0x100
    ensures LE([0, proto, hi, lo]) == Swap(proto) + Swap(protoLen)
  {
    FourBytes([0, proto, hi, lo]);
    SwapOfBytes(0, proto, proto);
    SwapOfBytes(hi, lo, protoLen);
  }

  lemma SwapOfBytes(hi: Byte, lo: Byte, w: nat)
    requires w == 0x100 * hi + lo
    ensures Swap(w) == Word(hi, lo)
  {}

  lemma EvenPrefixSum(h: seq<Byte>, data: seq<Byte>, a: nat, b: nat, x: nat, y: nat)
    requires |h| % 2 == 0 && LE(h) == a + b + x + y
    ensures OnesSum(h + data) == Canon(a + b + LE(data) + x + y)
  {
    LEAppend(h, data);
    OnesSumIsCanon(h + data);
    assert LE(h + data) == a + b + LE(data) + x + y;
  }

  /** inet_chksum_pseudo and inet_chksum_pseudo_partial (`limit` is chksum_len, or more than the data): the
      checksum of the pseudo header followed by the data, or by its first `limit` bytes. */
  method InetChksumPseudo(algorithm: nat, chain: seq<seq<Byte>>, at: seq<nat>, proto: Byte, protoLen: nat,
                          src: seq<Byte>, dst: seq<Byte>, limit: nat) returns (r: nat)
    requires 1 <= algorithm <= 3 && |at| == |chain| && |src| == 4 && |dst| == 4 && protoLen <= 0xFFFF
    requires forall i :: 0 <= i < |chain| ==> |chain[i]| <= 0xFFFF
    ensures r == 0xFFFF - OnesSum(PseudoHeader(src, dst, proto, protoLen) + Take(Flat(chain), limit))
  {
    FourBytes(src);
    FourBytes(dst);
    var acc := Word(src[0], src[1]) + Word(src[2], src[3]) + Word(dst[0], dst[1]) + Word(dst[2], dst[3]);
    ghost var n := acc;
    RepSame(n);
    FoldTwice(acc, n);
    CanonRep(n);
    acc := Fold(acc);
    acc := Fold(acc);
    var base := acc;
    acc := SumChain(algorithm, chain, at, acc, limit);
    ghost var data := Take(Flat(chain), limit);
    RepSame(LE(data));
    RepAdd(base, n, LE(data), LE(data));
    RepTrans(acc, base + LE(data), n + LE(data));
    PseudoHeaderSum(src, dst, proto, protoLen);
    EvenPrefixSum(PseudoHeader(src, dst, proto, protoLen), data, LE(src), LE(dst), Swap(proto), Swap(protoLen));
    r := AddProtoAndLength(acc, proto, protoLen, n + LE(data));
  }
}
