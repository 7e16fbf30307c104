/** The Internet checksum of section 2 of RFC 1071 on a little-endian host, and the arithmetic behind the
    fast versions: sums are kept only up to multiples of 0xFFFF, with zero told apart from 0xFFFF. */
module ChecksumSpec {
  import opened Common

  /** A 16-bit word as a little-endian host reads it. */
  function Word(x: int, y: int): int {
    x + 0x100 * y
  }

  /** 16-bit one's-complement addition: the carry is added back. */
  function OnesAdd(a: nat, b: nat): nat {
    if a + b > 0xFFFF then a + b - 0xFFFF else a + b
  }

  /** The one's-complement sum of the 16-bit words of `d` as a little-endian host reads them, an odd last
      byte padded with zero. */
  function OnesSum(d: seq<Byte>): nat {
    if |d| == 0 then 0
    else if |d| == 1 then d[0]
    else OnesAdd(Word(d[0], d[1]), OnesSum(d[2..]))
  }

  /** The same words added up in unbounded arithmetic. */
  function LE(d: seq<Byte>): nat {
    if |d| == 0 then 0
    else if |d| == 1 then d[0]
    else Word(d[0], d[1]) + LE(d[2..])
  }

  // ---------------------------------------------------------------- representatives

  function Multiple(k: int): int {
    0xFFFF * k
  }

  /** `v` stands for the sum `n`: they differ by a multiple of 0xFFFF, and one is zero only if both are. */
  ghost predicate Rep(v: nat, n: nat) {
    (exists k :: v - n == Multiple(k)) && (v == 0 <==> n == 0)
  }

  lemma RepBy(v: nat, n: nat, k: int)
    requires v - n == 0xFFFF * k && (v == 0 <==> n == 0)
    ensures Rep(v, n)
  {
    assert v - n == Multiple(k);
  }

  lemma RepFactor(v: nat, n: nat) returns (k: int)
    requires Rep(v, n)
    ensures v - n == 0xFFFF * k
  {
    k :| v - n == Multiple(k);
  }

  /** The representative of `n` in 0..0xFFFF. */
  function Canon(n: nat): nat {
    if n == 0 then 0 else (n - 1) % 0xFFFF + 1
  }

  lemma CanonRep(n: nat)
    ensures Canon(n) <= 0xFFFF && Rep(Canon(n), n)
  {
    RepBy(Canon(n), n, if n == 0 then 0 else -((n - 1) / 0xFFFF));
  }

  lemma RepUnique(v: nat, n: nat)
    requires Rep(v, n) && v <= 0xFFFF
    ensures v == Canon(n)
  {
    var k := RepFactor(v, n);
  }

  lemma RepAdd(a: nat, m: nat, b: nat, n: nat)
    requires Rep(a, m) && Rep(b, n)
    ensures Rep(a + b, m + n)
  {
    var k := RepFactor(a, m);
    var l := RepFactor(b, n);
    RepBy(a + b, m + n, k + l);
  }

  lemma RepSame(a: nat)
    ensures Rep(a, a)
  {
    RepBy(a, a, 0);
  }

  lemma RepTrans(a: nat, m: nat, n: nat)
    requires Rep(a, m) && Rep(m, n)
    ensures Rep(a, n)
  {
    var k := RepFactor(a, m);
    var l := RepFactor(m, n);
    RepBy(a, n, k + l);
  }

  lemma RepTimes(a: nat, m: nat)
    requires Rep(a, m)
    ensures Rep(0x100 * a, 0x100 * m)
  {
    var k := RepFactor(a, m);
    RepBy(0x100 * a, 0x100 * m, 0x100 * k);
  }

  /** Swapping the bytes twice costs a factor 0x10000, which is 1 modulo 0xFFFF. */
  lemma RepTwice(n: nat)
    ensures Rep(0x100 * (0x100 * n), n)
  {
    RepBy(0x100 * (0x100 * n), n, n);
  }

  /** FOLD_U32T: high half + low half */
  function Fold(u: nat): nat {
    u / 0x10000 + u % 0x10000
  }

  lemma FoldRep(u: nat)
    ensures Rep(Fold(u), u)
    ensures u < 0x1_0000_0000 ==> Fold(u) <= 0x1FFFE
    ensures u <= 0x1FFFE ==> Fold(u) <= 0xFFFF
    ensures u <= 0xFFFF ==> Fold(u) == u
  {
    RepBy(Fold(u), u, -(u / 0x10000));
  }

  /** Folding a 32-bit sum twice gives its canonical representative. */
  lemma FoldTwice(u: nat, n: nat)
    requires u < 0x1_0000_0000 && Rep(u, n)
    ensures Fold(Fold(u)) == Canon(n)
  {
    FoldRep(u);
    FoldRep(Fold(u));
    RepTrans(Fold(u), u, n);
    RepTrans(Fold(Fold(u)), Fold(u), n);
    RepUnique(Fold(Fold(u)), n);
  }

  /** SWAP_BYTES_IN_WORD: exchange the two low bytes, drop the rest */
  function Swap(w: nat): nat {
    w % 0x100 * 0x100 + w % 0x10000 / 0x100
  }

  lemma SwapIsTimes(w: nat)
    requires w <= 0xFFFF
    ensures Swap(w) <= 0xFFFF && Rep(Swap(w), 0x100 * w)
  {
    var hi, lo := w / 0x100, w % 0x100;
    assert w == 0x100 * hi + lo && hi < 0x100;
    assert Swap(w) == lo * 0x100 + hi;
    RepBy(Swap(w), 0x100 * w, -hi);
  }

  lemma SwapRep(w: nat, n: nat)
    requires w <= 0xFFFF && Rep(w, n)
    ensures Rep(Swap(w), 0x100 * n) && Swap(w) <= 0xFFFF
  {
    SwapIsTimes(w);
    RepTimes(w, n);
    RepTrans(Swap(w), 0x100 * w, 0x100 * n);
  }

  // ---------------------------------------------------------------- sums of byte strings

  lemma {:induction false} OnesSumIsCanon(d: seq<Byte>)
    ensures OnesSum(d) == Canon(LE(d))
  {
    if |d| > 1 {
      var w := Word(d[0], d[1]);
      OnesSumIsCanon(d[2..]);
      var r := OnesSum(d[2..]);
      CanonRep(LE(d[2..]));
      RepSame(w);
      RepAdd(w, w, r, LE(d[2..]));
      RepBy(OnesAdd(w, r), w + r, if w + r > 0xFFFF then -1 else 0);
      RepTrans(OnesAdd(w, r), w + r, LE(d));
      RepUnique(OnesAdd(w, r), LE(d));
    } else if |d| == 1 {
      RepSame(d[0]);
      RepUnique(d[0], LE(d));
    }
  }

  lemma {:induction false} LEBound(d: seq<Byte>)
    ensures LE(d) <= 0xFFFF * ((|d| + 1) / 2)
  {
    if |d| > 1 { LEBound(d[2..]); }
  }

  /** Appending to an even number of bytes. */
  lemma {:induction false} LEAppend(a: seq<Byte>, b: seq<Byte>)
    requires |a| % 2 == 0
    ensures LE(a + b) == LE(a) + LE(b)
  {
    if a == [] {
      assert a + b == b;
    } else {
      LEAppend(a[2..], b);
      assert (a + b)[2..] == a[2..] + b;
    }
  }

  lemma LEWord(x: Byte, y: Byte)
    ensures LE([x, y]) == Word(x, y)
  {
    assert [x, y][2..] == [];
  }

  lemma LEFirstWord(x: Byte, d: seq<Byte>)
    requires |d| > 0
    ensures LE([x] + d) == Word(x, d[0]) + LE(d[1..])
  {
    assert ([x] + d)[2..] == d[1..];
  }

  /** Prepending one byte shifts every other byte to the other half of its word. */
  lemma {:induction false} LECons(x: Byte, d: seq<Byte>)
    ensures Rep(Word(x, LE(d)), LE([x] + d))
    decreases |d|
  {
    if |d| == 0 {
      assert [x] + d == [x];
      RepSame(x);
    } else {
      var e := d[1..];
      LECons(d[0], e);
      assert d == [d[0]] + e;
      LEFirstWord(x, d);
      ShiftTwo(x, d[0], LE(e));
      ShiftStep(x, Word(d[0], LE(e)), LE(d), LE([x] + d));
    }
  }

  /** Shifting a sum by two bytes does nothing to it. */
  lemma ShiftTwo(x: nat, y: nat, n: nat)
    ensures Rep(Word(x, Word(y, n)), Word(x, y) + n)
  {
    RepTwice(n);
    RepSame(Word(x, y));
    RepAdd(Word(x, y), Word(x, y), 0x100 * (0x100 * n), n);
  }

  lemma ShiftStep(x: nat, m: nat, n: nat, total: nat)
    requires Rep(m, n) && Rep(Word(x, m), total)
    ensures Rep(Word(x, n), total)
  {
    var k := RepFactor(m, n);
    var l := RepFactor(Word(x, m), total);
    RepBy(Word(x, n), total, l - 0x100 * k);
  }

  /** Appending to an odd number of bytes: the appended sum counts with its bytes exchanged. */
  lemma LEAppendOdd(a: seq<Byte>, b: seq<Byte>)
    requires |a| % 2 == 1
    ensures Rep(Word(LE(a), LE(b)), LE(a + b))
  {
    var front, x := a[..|a| - 1], a[|a| - 1];
    SplitLast(a, b);
    LECons(x, b);
    RepSame(LE(front));
    RepAdd(LE(front), LE(front), Word(x, LE(b)), LE([x] + b));
  }

  lemma SplitLast(a: seq<Byte>, b: seq<Byte>)
    requires |a| % 2 == 1
    ensures var front, x := a[..|a| - 1], a[|a| - 1];
      LE(a) == LE(front) + x && LE(a + b) == LE(front) + LE([x] + b)
  {
    var front, x := a[..|a| - 1], a[|a| - 1];
    assert a == front + [x];
    LEAppend(front, [x]);
    assert a + b == front + ([x] + b);
    LEAppend(front, [x] + b);
  }

  predicate AllZero(d: seq<Byte>) {
    forall i :: 0 <= i < |d| ==> d[i] == 0
  }

  /** The sum is zero for all-zero data only, so a checksum distinguishes it from 0xFFFF. */
  lemma LEZero(d: seq<Byte>)
    ensures LE(d) == 0 <==> AllZero(d)
  {
    if AllZero(d) { ZerosSumToZero(d); }
    if LE(d) == 0 { ZeroSumIsZeros(d); }
  }

  lemma {:induction false} ZerosSumToZero(d: seq<Byte>)
    requires AllZero(d)
    ensures LE(d) == 0
  {
    if |d| > 1 {
      ZerosSumToZero(d[2..]);
      LEStep(d);
    }
  }

  lemma {:induction false} ZeroSumIsZeros(d: seq<Byte>)
    requires LE(d) == 0
    ensures AllZero(d)
  {
    if |d| > 1 {
      var e := d[2..];
      LEStep(d);
      ZeroSumIsZeros(e);
      forall i | 2 <= i < |d| ensures d[i] == 0 { assert d[i] == e[i - 2]; }
    }
  }

  lemma LEStep(d: seq<Byte>)
    requires |d| > 1
    ensures LE(d) == Word(d[0], d[1]) + LE(d[2..])
    ensures LE(d) == 0 <==> d[0] == 0 && d[1] == 0 && LE(d[2..]) == 0
  {}
}
