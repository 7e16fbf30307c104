/** The checksum routines of lwip-2.1.3/src/core/inet_chksum.c and net_checksum of net.c, each proved to
    compute the one's-complement sum of RFC 1071.  `addr` is the address of the data; 32-bit accumulators
    have a 32-bit type, so that every addition is shown not to overflow. */
module Checksum {
  import opened Common
  import opened ChecksumSpec

  type U32 = x: int | 0 <= x < 0x1_0000_0000

  /** The sum of the words of `d` between `start` and `i`, as the loops build it up. */
  ghost function Words(d: seq<Byte>, start: nat, i: nat): nat
    requires start <= i <= |d|
  {
    if i < start + 2 then 0 else Words(d, start, i - 2) + Word(d[i - 2], d[i - 1])
  }

  lemma {:induction false} WordsIsLE(d: seq<Byte>, start: nat, i: nat)
    requires start <= i <= |d| && (i - start) % 2 == 0
    ensures Words(d, start, i) == LE(d[start..i])
  {
    if i >= start + 2 {
      WordsIsLE(d, start, i - 2);
      assert d[start..i] == d[start..i - 2] + [d[i - 2], d[i - 1]];
      LEAppend(d[start..i - 2], [d[i - 2], d[i - 1]]);
      LEWord(d[i - 2], d[i - 1]);
    }
  }

  /** All words and, if there is one, the byte left over. */
  lemma WordsAndTail(d: seq<Byte>, start: nat, i: nat)
    requires start <= i <= |d| <= i + 1 && (i - start) % 2 == 0
    ensures LE(d[start..]) == Words(d, start, i) + (if i < |d| then d[i] else 0)
  {
    WordsIsLE(d, start, i);
    if i < |d| {
      assert d[start..] == d[start..i] + [d[i]];
      LEAppend(d[start..i], [d[i]]);
    } else {
      assert d[start..] == d[start..i];
    }
  }

  // ---------------------------------------------------------------- version 1

  lemma BigEndianWord(x: Byte, y: Byte)
    ensures Rep(Word(y, x), 0x100 * Word(x, y))
  {
    var k: int := y;
    RepBy(Word(y, x), 0x100 * Word(x, y), -k);
  }

  lemma BigEndianEnd(acc: nat, n: nat)
    requires acc < 0x1_0000_0000 && Rep(acc, 0x100 * n)
    ensures Swap(Fold(Fold(acc))) == Canon(n)
  {
    FoldTwice(acc, 0x100 * n);
    CanonRep(0x100 * n);
    SwapRep(Canon(0x100 * n), 0x100 * n);
    RepTwice(n);
    RepTrans(Swap(Canon(0x100 * n)), 0x100 * (0x100 * n), n);
    RepUnique(Swap(Canon(0x100 * n)), n);
  }

  /** Version 1: big-endian words, whatever the alignment; the result is brought to host order. */
  method StandardChksum1(d: seq<Byte>) returns (r: nat)
    requires |d| <= 0x20000
    ensures r == OnesSum(d)
  {
    var i, acc := BigEndianWords(d);
    assert d == d[0..];
    WordsAndTail(d, 0, i);
    if |d| - i > 0 {
      RepSame(Word(0, d[i]));
      RepAdd(acc, 0x100 * Words(d, 0, i), Word(0, d[i]), Word(0, d[i]));
      acc := acc + Word(0, d[i]);
    }
    OnesSumIsCanon(d);
    r := BigEndianFinish(acc, LE(d));
  }

  /** The loop of version 1. */
  method BigEndianWords(d: seq<Byte>) returns (i: nat, acc: U32)
    requires |d| <= 0x20000
    ensures i <= |d| <= i + 1 && i % 2 == 0 && Rep(acc, 0x100 * Words(d, 0, i)) && acc <= 0xFFFF * 0x10000
  {
    acc, i := 0, 0;
    ghost var k := 0;
    RepSame(0);
    while |d| - i > 1
      invariant 0 <= i <= |d| && i == 2 * k && Rep(acc, 0x100 * Words(d, 0, i)) && acc <= 0xFFFF * k
    {
      BigEndianWord(d[i], d[i + 1]);
      RepAdd(acc, 0x100 * Words(d, 0, i), Word(d[i + 1], d[i]), 0x100 * Word(d[i], d[i + 1]));
      acc := acc + Word(d[i + 1], d[i]);
      i := i + 2;
      k := k + 1;
    }
  }

  /** The end of version 1: fold twice, the second time if need be, and exchange the bytes. */
  method BigEndianFinish(acc0: U32, ghost n: nat) returns (r: nat)
    requires Rep(acc0, 0x100 * n)
    ensures r == Canon(n)
  {
    BigEndianEnd(acc0, n);
    var acc := acc0;
    FoldRep(acc);
    acc := Fold(acc);
    FoldRep(acc);
    if acc / 0x10000 != 0 {
      acc := Fold(acc);
    }
    return Swap(acc);
  }

  // ---------------------------------------------------------------- versions 2 and 3

  /** What the aligned words and the end bytes add up to when the data starts at an odd address: the first
      byte in the high half, and the rest one byte off. */
  function Shifted(d: seq<Byte>, odd: bool): nat {
    if odd && |d| > 0 then Word(LE(d[1..]), d[0]) else LE(d)
  }

  lemma SwapBack(x: nat, n: nat)
    ensures Rep(0x100 * Word(n, x), Word(x, n))
  {
    RepBy(0x100 * Word(n, x), Word(x, n), x);
  }

  lemma ShiftedSwap(d: seq<Byte>)
    requires |d| > 0
    ensures Swap(Canon(Shifted(d, true))) == Canon(LE(d))
  {
    var x, n := d[0], LE(d[1..]);
    var u := Word(n, x);
    CanonRep(u);
    SwapRep(Canon(u), u);
    SwapBack(x, n);
    RepTrans(Swap(Canon(u)), 0x100 * u, Word(x, n));
    assert [x] + d[1..] == d;
    LECons(x, d[1..]);
    RepTrans(Swap(Canon(u)), Word(x, n), LE(d));
    RepUnique(Swap(Canon(u)), LE(d));
  }

  /** The end of versions 2 and 3: fold twice, and swap if the data started at an odd address. */
  method FoldAndSwap(d: seq<Byte>, odd: bool, sum0: U32) returns (r: nat)
    requires Rep(sum0, Shifted(d, odd))
    ensures r == OnesSum(d)
  {
    OnesSumIsCanon(d);
    var sum := FoldDown(sum0, Shifted(d, odd));
    if odd {
      if |d| > 0 { ShiftedSwap(d); }
      sum := Swap(sum);
    }
    return sum;
  }

  /** Two folds bring a 32-bit sum to 16 bits. */
  method FoldDown(sum0: U32, ghost n: nat) returns (sum: nat)
    requires Rep(sum0, n)
    ensures sum == Canon(n)
  {
    FoldTwice(sum0, n);
    FoldRep(sum0);
    sum := Fold(sum0);
    FoldRep(sum);
    sum := Fold(sum);
  }

  /** Version 2: host words from the first even address on. */
  method StandardChksum2(d: seq<Byte>, addr: nat) returns (r: nat)
    requires |d| <= 0x20000
    ensures r == OnesSum(d)
  {
    var odd := addr % 2 == 1;
    var i, t := 0, 0;
    if odd && |d| > 0 {
      t := Word(0, d[0]);
      i := 1;
    }
    var start := i;
    var sum: U32 := 0;
    while |d| - i > 1
      invariant start <= i <= |d| && (i - start) % 2 == 0
      invariant sum == Words(d, start, i) && sum <= 0xFFFF * ((i - start) / 2)
    {
      sum := sum + Word(d[i], d[i + 1]);
      i := i + 2;
    }
    WordsAndTail(d, start, i);
    if |d| - i > 0 {
      t := t + d[i];
    }
    assert d[0..] == d;
    sum := sum + t;
    assert sum == Shifted(d, odd);
    RepSame(sum);
    r := FoldAndSwap(d, odd, sum);
  }

  /** `tmp = sum + x; if (tmp < sum) tmp++` in 32-bit arithmetic: the carry is added back. */
  method CarryAdd(sum: U32, x: U32, ghost n: nat, ghost m: nat) returns (tmp: U32)
    requires Rep(sum, n) && Rep(x, m)
    ensures Rep(tmp, n + m)
  {
    tmp := (sum + x) % 0x1_0000_0000;
    if tmp < sum {
      tmp := tmp + 1;
    }
    RepBy(tmp, sum + x, if sum + x >= 0x1_0000_0000 then -0x10001 else 0);
    RepAdd(sum, n, x, m);
    RepTrans(tmp, sum + x, n + m);
  }

  function LongWord(d: seq<Byte>, i: nat): (r: U32)
    requires i + 4 <= |d|
  {
    Word(d[i], d[i + 1]) + 0x10000 * Word(d[i + 2], d[i + 3])
  }

  function TwoWords(d: seq<Byte>, i: nat): nat
    requires i + 4 <= |d|
  {
    Word(d[i], d[i + 1]) + Word(d[i + 2], d[i + 3])
  }

  lemma LongWordRep(d: seq<Byte>, start: nat, i: nat)
    requires start <= i && i + 4 <= |d|
    ensures Rep(LongWord(d, i), TwoWords(d, i))
    ensures Words(d, start, i + 4) == Words(d, start, i) + TwoWords(d, i)
  {
    RepBy(LongWord(d, i), TwoWords(d, i), Word(d[i + 2], d[i + 3]));
    assert Words(d, start, i + 2) == Words(d, start, i) + Word(d[i], d[i + 1]);
  }

  method EightBytes(d: seq<Byte>, ghost start: nat, i: nat, sum0: U32) returns (sum: U32)
    requires start <= i && i + 8 <= |d| && Rep(sum0, Words(d, start, i))
    ensures Rep(sum, Words(d, start, i + 8))
  {
    LongWordRep(d, start, i);
    var tmp := CarryAdd(sum0, LongWord(d, i), Words(d, start, i), TwoWords(d, i));
    LongWordRep(d, start, i + 4);
    sum := CarryAdd(tmp, LongWord(d, i + 4), Words(d, start, i + 4), TwoWords(d, i + 4));
  }

  /** The unrolled loop of version 3: 32-bit words, carries added back. */
  method LongWords(d: seq<Byte>, ghost start: nat, i0: nat, sum0: U32) returns (i: nat, sum: U32)
    requires start <= i0 <= |d| && (i0 - start) % 2 == 0 && Rep(sum0, Words(d, start, i0))
    ensures i0 <= i <= |d| && (i - start) % 2 == 0 && |d| - i <= 7 && Rep(sum, Words(d, start, i))
  {
    i, sum := i0, sum0;
    while |d| - i > 7
      invariant i0 <= i <= |d| && (i - start) % 2 == 0 && Rep(sum, Words(d, start, i))
    {
      sum := EightBytes(d, start, i, sum);
      i := i + 8;
    }
  }

  method AddWord(d: seq<Byte>, ghost start: nat, i: nat, sum0: U32) returns (sum: U32)
    requires start <= i && i + 2 <= |d| && sum0 <= 0x1000_0000 && Rep(sum0, Words(d, start, i))
    ensures Rep(sum, Words(d, start, i + 2)) && sum <= sum0 + 0xFFFF
  {
    RepSame(Word(d[i], d[i + 1]));
    RepAdd(sum0, Words(d, start, i), Word(d[i], d[i + 1]), Word(d[i], d[i + 1]));
    sum := sum0 + Word(d[i], d[i + 1]);
  }

  /** The last words of version 3, after the first fold; there are at most three of them. */
  method LastWords(d: seq<Byte>, ghost start: nat, i0: nat, sum0: U32) returns (i: nat, sum: U32)
    requires start <= i0 <= |d| && (i0 - start) % 2 == 0 && |d| - i0 <= 7 && Rep(sum0, Words(d, start, i0))
    requires sum0 <= 0x1FFFE
    ensures i0 <= i <= |d| <= i + 1 && (i - start) % 2 == 0 && Rep(sum, Words(d, start, i)) && sum <= 0x50000
  {
    i, sum := i0, sum0;
    ghost var k := 0;
    while |d| - i > 1
      invariant i0 <= i <= |d| && i == i0 + 2 * k && Rep(sum, Words(d, start, i))
      invariant 0 <= k <= 3 && sum <= 0x1FFFE + 0xFFFF * k
    {
      sum := AddWord(d, start, i, sum);
      i := i + 2;
      k := k + 1;
    }
    EvenPlus(i0 - start, k);
    assert i - start == i0 - start + 2 * k;
  }

  lemma EvenPlus(a: nat, k: nat)
    requires a % 2 == 0
    ensures (a + 2 * k) % 2 == 0
  {}

  /** The words of version 3 from the first even address on, up to a byte that may be left over. */
  method WordsByLongs(d: seq<Byte>, start: nat, addr: nat) returns (i: nat, sum: U32)
    requires start <= |d|
    ensures start <= i <= |d| <= i + 1 && (i - start) % 2 == 0 && Rep(sum, Words(d, start, i)) && sum <= 0x50000
  {
    i, sum := start, 0;
    if (addr + i) % 4 != 0 && |d| - i > 1 {
      sum := Word(d[i], d[i + 1]);
      i := i + 2;
    }
    assert sum == Words(d, start, i);
    RepSame(sum);
    i, sum := LongWords(d, start, i, sum);
    FoldRep(sum);
    RepTrans(Fold(sum), sum, Words(d, start, i));
    sum := Fold(sum);
    i, sum := LastWords(d, start, i, sum);
  }

  /** Version 3: 32-bit words from the first address divisible by four on; data of any length. */
  method StandardChksum3(d: seq<Byte>, addr: nat) returns (r: nat)
    ensures r == OnesSum(d)
  {
    var odd := addr % 2 == 1;
    var start, t := 0, 0;
    if odd && |d| > 0 {
      t := Word(0, d[0]);
      start := 1;
    }
    var i, sum := WordsByLongs(d, start, addr);
    WordsAndTail(d, start, i);
    ghost var n := Words(d, start, i);
    if |d| - i > 0 {
      t := t + d[i];
    }
    RepSame(t);
    RepAdd(sum, n, t, t);
    assert d[0..] == d;
    assert n + t == Shifted(d, odd);
    r := FoldAndSwap(d, odd, sum + t);
  }

  // ---------------------------------------------------------------- net.c

  /** net_checksum: the complement of the same sum. */
  method NetChecksum(d: seq<Byte>) returns (r: nat)
    requires |d| <= 0x20000
    ensures r == 0xFFFF - OnesSum(d)
  {
    var sum: U32 := 0;
    var i := 0;
    while i < |d| / 2
      invariant 0 <= i <= |d| / 2
      invariant sum == Words(d, 0, 2 * i) && sum <= 0xFFFF * i
    {
      sum := sum + Word(d[2 * i], d[2 * i + 1]);
      i := i + 1;
    }
    assert d == d[0..];
    WordsAndTail(d, 0, 2 * i);
    if |d| % 2 == 1 {
      sum := sum + d[2 * i];
    }
    RepSame(sum);
    while sum / 0x10000 != 0
      invariant Rep(sum, LE(d))
      decreases sum
    {
      FoldRep(sum);
      RepTrans(Fold(sum), sum, LE(d));
      sum := Fold(sum);
    }
    RepUnique(sum, LE(d));
    OnesSumIsCanon(d);
    return 0xFFFF - sum;
  }
}
