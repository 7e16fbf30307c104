/** The memory pools of lwip-2.1.3/src/core/memp.c (fixed pools, sanity check on, overflow check off):
    free lists linked through the elements, and Floyd's cycle check over them.  Elements are numbered in
    the order of their addresses; NULL is -1. */
module Memp {
  const NULL := -1

  predicate Pointer(next: seq<int>, t: int) {
    NULL <= t < |next|
  }

  /** Where `k` steps from `head` lead; from NULL nowhere else. */
  function Follow(next: seq<int>, head: int, k: nat): int {
    if k == 0 then head else
      var t := Follow(next, head, k - 1);
      if 0 <= t < |next| then next[t] else NULL
  }

  /** Every link the list has leads to an element or to NULL; others do not matter. */
  ghost predicate Sound(next: seq<int>, head: int) {
    forall k: nat :: Pointer(next, Follow(next, head, k))
  }

  /** The list ends. */
  ghost predicate Acyclic(next: seq<int>, head: int) {
    exists k: nat :: Follow(next, head, k) == NULL
  }

  // ---------------------------------------------------------------- cycles

  lemma {:induction false} StaysNull(next: seq<int>, head: int, a: nat, b: nat)
    requires Follow(next, head, a) == NULL && a <= b
    ensures Follow(next, head, b) == NULL
    decreases b - a
  {
    if a < b { StaysNull(next, head, a, b - 1); }
  }

  /** From a repeated element on, the list repeats. */
  lemma {:induction false} Repeats(next: seq<int>, head: int, a: nat, b: nat, k: nat)
    requires Follow(next, head, a) == Follow(next, head, b)
    ensures Follow(next, head, a + k) == Follow(next, head, b + k)
  {
    if k > 0 { Repeats(next, head, a, b, k - 1); }
  }

  /** The same after whole rounds. */
  lemma {:induction false} RepeatsRounds(next: seq<int>, head: int, a: nat, period: nat, rounds: nat, i: nat)
    requires Follow(next, head, a) == Follow(next, head, a + period) && i >= a
    ensures Follow(next, head, i + rounds * period) == Follow(next, head, i)
  {
    if rounds > 0 {
      RepeatsRounds(next, head, a, period, rounds - 1, i);
      var j := i + (rounds - 1) * period;
      Repeats(next, head, a, a + period, j - a);
      assert rounds * period == (rounds - 1) * period + period;
    }
  }

  /** A list that meets itself never ends. */
  lemma {:induction false} MetIsEndless(next: seq<int>, head: int, a: nat, b: nat, k: nat)
    requires a < b
    requires Follow(next, head, a) == Follow(next, head, b) != NULL
    ensures Follow(next, head, k) != NULL
  {
    if k <= b {
      if Follow(next, head, k) == NULL { StaysNull(next, head, k, b); }
    } else {
      MetIsEndless(next, head, a, b, k - (b - a));
      Repeats(next, head, a, b, k - b);
    }
  }

  function UpTo(n: nat): (s: set<int>)
    ensures |s| == n && forall x :: x in s <==> 0 <= x < n
  {
    if n == 0 then {} else UpTo(n - 1) + {n - 1}
  }

  /** Pigeonhole: the first |next| + 1 elements of a list without end include one twice. */
  lemma SomeTwice(next: seq<int>, head: int) returns (a: nat, b: nat)
    requires Sound(next, head)
    requires forall k: nat :: k <= |next| ==> Follow(next, head, k) != NULL
    ensures a < b <= |next| && Follow(next, head, a) == Follow(next, head, b)
  {
    a, b := TwiceWithin(next, head, |next| + 1, UpTo(|next|));
  }

  lemma {:induction false} TwiceWithin(next: seq<int>, head: int, n: nat, room: set<int>) returns (a: nat, b: nat)
    requires |room| < n
    requires forall k: nat :: k < n ==> Follow(next, head, k) in room
    ensures a < b < n && Follow(next, head, a) == Follow(next, head, b)
  {
    var last := Follow(next, head, n - 1);
    if k: nat :| k < n - 1 && Follow(next, head, k) == last {
      a, b := k, n - 1;
    } else {
      a, b := TwiceWithin(next, head, n - 1, room - {last});
    }
  }

  /** The two pointers meet within the first |next| rounds. */
  lemma TheyMeet(next: seq<int>, head: int) returns (i: nat)
    requires Sound(next, head)
    requires forall k: nat :: k <= |next| ==> Follow(next, head, k) != NULL
    ensures i < |next| && Follow(next, head, i) == Follow(next, head, 2 * i + 1)
  {
    var a, b := SomeTwice(next, head);
    var period := b - a;
    // the last position before b whose successor is a multiple of the period
    var rounds := b / period;
    i := rounds * period - 1;
    assert rounds * period + b % period == b;
    RepeatsRounds(next, head, a, period, rounds, i);
    assert i + rounds * period == 2 * i + 1;
  }

  // ---------------------------------------------------------------- memp_sanity

  /** memp_sanity ends on every linked structure and says whether the list does. */
  method MempSanity(next: seq<int>, tab: int) returns (r: int)
    requires Sound(next, tab)
    ensures r == 1 <==> Acyclic(next, tab)
    ensures r == 0 || r == 1
  {
    var t := tab;
    if t != NULL {
      TwoMore(next, tab, 0);
      var h := next[t];
      ghost var i := 0;
      while t != NULL && h != NULL
        invariant Racing(next, tab, i, t, h) && i <= |next|
        decreases |next| - i
      {
        if t == h {
          MetIsCyclic(next, tab, i);
          return 0;
        }
        RaceGoesOn(next, tab, i, t, h);
        t, h := next[t], if next[h] != NULL then next[next[h]] else NULL;
        i := i + 1;
      }
      assert Follow(next, tab, 2 * i + 1) == NULL;
    } else {
      assert Follow(next, tab, 0) == NULL;
    }
    return 1;
  }

  /** After `i` rounds the pointers are at these elements and have not met; NULL is met by the fast one first. */
  ghost predicate Racing(next: seq<int>, tab: int, i: nat, t: int, h: int) {
    && t == Follow(next, tab, i) && h == Follow(next, tab, 2 * i + 1)
    && (forall j: nat :: j < i ==> Follow(next, tab, j) != Follow(next, tab, 2 * j + 1))
    && (t == NULL ==> h == NULL)
  }

  lemma MetIsCyclic(next: seq<int>, tab: int, i: nat)
    requires Follow(next, tab, i) == Follow(next, tab, 2 * i + 1) != NULL
    ensures !Acyclic(next, tab)
  {
    forall k: nat ensures Follow(next, tab, k) != NULL { MetIsEndless(next, tab, i, 2 * i + 1, k); }
  }

  lemma RaceGoesOn(next: seq<int>, tab: int, i: nat, t: int, h: int)
    requires Sound(next, tab) && i <= |next| && Racing(next, tab, i, t, h) && t != NULL && h != NULL && t != h
    ensures i < |next| && 0 <= t < |next| && 0 <= h < |next| && Pointer(next, next[h])
    ensures Racing(next, tab, i + 1, next[t], if next[h] != NULL then next[next[h]] else NULL)
  {
    NotYet(next, tab, i);
    TwoMore(next, tab, i);
    TwoMore(next, tab, 2 * i + 1);
    assert 2 * (i + 1) + 1 == 2 * i + 1 + 2;
    if next[t] == NULL { StaysNull(next, tab, i + 1, 2 * i + 3); }
  }

  /** Two pointers that are still apart and running have not done |next| rounds. */
  lemma NotYet(next: seq<int>, tab: int, i: nat)
    requires Sound(next, tab) && i <= |next|
    requires Follow(next, tab, 2 * i + 1) != NULL
    requires forall j: nat :: j < i ==> Follow(next, tab, j) != Follow(next, tab, 2 * j + 1)
    ensures i < |next|
  {
    if i == |next| {
      forall k: nat | k <= |next| ensures Follow(next, tab, k) != NULL {
        if Follow(next, tab, k) == NULL { StaysNull(next, tab, k, 2 * i + 1); }
      }
      var j := TheyMeet(next, tab);
    }
  }

  /** One and two steps further from an element of the list. */
  lemma TwoMore(next: seq<int>, tab: int, k: nat)
    requires Sound(next, tab) && Follow(next, tab, k) != NULL
    ensures 0 <= Follow(next, tab, k) < |next|
    ensures var n := next[Follow(next, tab, k)];
      && Pointer(next, n) && Follow(next, tab, k + 1) == n
      && Follow(next, tab, k + 2) == if 0 <= n < |next| then next[n] else NULL
  {
    assert Pointer(next, Follow(next, tab, k));
    assert Pointer(next, Follow(next, tab, k + 1));
    var n := Follow(next, tab, k + 1);
    assert Follow(next, tab, k + 2) == if 0 <= n < |next| then next[n] else NULL;
  }

  // ---------------------------------------------------------------- pools

  predicate Distinct(s: seq<int>) {
    forall i, j :: 0 <= i < j < |s| ==> s[i] != s[j]
  }

  /** The links from `tab` run through exactly the elements of `list`, in this order. */
  predicate Chain(next: seq<int>, tab: int, list: seq<int>)
    decreases |list|
  {
    if list == [] then tab == NULL
    else 0 <= tab < |next| && list[0] == tab && Chain(next, next[tab], list[1..])
  }

  lemma {:induction false} ChainFollow(next: seq<int>, tab: int, list: seq<int>, k: nat)
    requires Chain(next, tab, list) && k <= |list|
    ensures Follow(next, tab, k) == if k < |list| then list[k] else NULL
    decreases k
  {
    if k > 0 {
      ChainFollow(next, next[tab], list[1..], k - 1);
      FollowFirst(next, tab, k);
    }
  }

  /** A chain ends, and all its links are good. */
  lemma ChainIsSound(next: seq<int>, tab: int, list: seq<int>)
    requires Chain(next, tab, list) && forall i :: 0 <= i < |list| ==> 0 <= list[i] < |next|
    ensures Sound(next, tab) && Acyclic(next, tab)
  {
    ChainFollow(next, tab, list, |list|);
    forall k: nat ensures Pointer(next, Follow(next, tab, k)) {
      if k <= |list| { ChainFollow(next, tab, list, k); } else { StaysNull(next, tab, |list|, k); }
    }
  }

  lemma {:induction false} FollowFirst(next: seq<int>, tab: int, k: nat)
    requires 0 <= tab < |next| && k > 0
    ensures Follow(next, tab, k) == Follow(next, next[tab], k - 1)
  {
    if k > 1 { FollowFirst(next, tab, k - 1); }
  }

  /** Relinking an element outside the list leaves the list alone. */
  lemma {:induction false} ChainUpdate(next: seq<int>, tab: int, list: seq<int>, x: nat, to: int)
    requires Chain(next, tab, list) && x < |next| && x !in list
    ensures Chain(next[x := to], tab, list)
    decreases |list|
  {
    if list != [] { ChainUpdate(next, next[tab], list[1..], x, to); }
  }

  class Pool {
    var next: seq<int>
    var tab: int
    /** statistics: elements handed out, the highest such number, failed requests */
    var used: nat
    var max: nat
    var err: nat
    ghost var free: seq<int>

    /** The free list runs through the free elements, each once; all others are handed out. */
    ghost predicate Valid()
      reads this
    {
      && Chain(next, tab, free) && Distinct(free)
      && (forall i :: 0 <= i < |free| ==> 0 <= free[i] < |next|)
      && used + |free| == |next| && used <= max
    }

    ghost predicate Allocated(x: int)
      reads this
    {
      0 <= x < |next| && x !in free
    }

    /** memp_init_pool: all elements are free, the last one first. */
    constructor (num: nat)
      ensures Valid() && |next| == num && used == 0 && err == 0
      ensures forall x :: 0 <= x < num ==> x in free
    {
      next, tab, free := seq(num, _ => NULL), NULL, [];
      used, max, err := 0, 0, 0;
      new;
      for i := 0 to num
        invariant |next| == num && Chain(next, tab, free) && Distinct(free)
        invariant |free| == i && (forall j :: 0 <= j < i ==> free[j] == i - 1 - j)
        invariant used == 0 && max == 0 && err == 0
      {
        ChainUpdate(next, tab, free, i, tab);
        next := next[i := tab];
        tab := i;
        ghost var rest := free;
        free := [i] + rest;
        assert free[1..] == rest;
      }
      forall x | 0 <= x < num ensures x in free { assert free[num - 1 - x] == x; }
    }

    /** do_memp_malloc_pool: an element that was not handed out, or NULL exactly if there is none. */
    method Malloc() returns (memp: int)
      requires Valid()
      modifies this
      ensures Valid() && |next| == |old(next)|
      ensures memp == NULL <==> old(used) == |next|
      ensures memp == NULL ==> free == old(free) && used == old(used) && err == old(err) + 1
      ensures memp != NULL ==>
        && !old(Allocated(memp)) && Allocated(memp) && used == old(used) + 1 && err == old(err)
        && forall x :: x != memp ==> Allocated(x) == old(Allocated(x))
    {
      memp := tab;
      if memp != NULL {
        ghost var rest := free[1..];
        assert free == [memp] + rest;
        tab := next[memp];
        free := rest;
        used := used + 1;
        if used > max {
          max := used;
        }
      } else {
        err := err + 1;
      }
    }

    /** The owner of an element writes into it; its link is part of what it may overwrite. */
    method UserWrites(memp: int, bytes: int)
      requires Valid() && Allocated(memp)
      modifies this`next
      ensures Valid() && |next| == |old(next)| && next[memp] == bytes
    {
      ChainUpdate(next, tab, free, memp, bytes);
      next := next[memp := bytes];
    }

    /** do_memp_free_pool of an element that is handed out; the sanity check passes. */
    method Free(memp: int)
      requires Valid() && Allocated(memp)
      modifies this
      ensures Valid() && |next| == |old(next)| && used == old(used) - 1 && err == old(err) && max == old(max)
      ensures !Allocated(memp) && forall x :: x != memp ==> Allocated(x) == old(Allocated(x))
    {
      DistinctBound(free, memp, |next|);
      used := used - 1;
      ChainUpdate(next, tab, free, memp, tab);
      ghost var rest := free;
      next := next[memp := tab];
      tab := memp;
      free := [memp] + rest;
      assert free[1..] == rest;
      ChainIsSound(next, tab, free);
      var sane := MempSanity(next, tab);
      assert sane == 1;
    }
  }

  /** A list of different elements that leaves one out is shorter than the pool. */
  lemma DistinctBound(s: seq<int>, x: int, n: nat)
    requires Distinct(s) && 0 <= x < n && x !in s && forall i :: 0 <= i < |s| ==> 0 <= s[i] < n
    ensures |s| < n
  {
    FitsIn(s, UpTo(n) - {x});
  }

  lemma {:induction false} FitsIn(s: seq<int>, room: set<int>)
    requires Distinct(s) && forall i :: 0 <= i < |s| ==> s[i] in room
    ensures |s| <= |room|
  {
    if s != [] { FitsIn(s[..|s| - 1], room - {s[|s| - 1]}); }
  }
}
