/** Interface numbers and names in lwip-2.1.3/src/core/netif.c.  An interface is its two-letter name and its
    number; the list is a sequence, the interface added last first. */
module Netif {
  import opened Common
  import opened Decimal

  datatype Netif = Netif(name0: char, name1: char, num: nat)

  const NETIF_NO_INDEX: nat := 0
  const NETIF_NAMESIZE: nat := 6

  /** netif_get_index: (u8_t)(num + 1) */
  function Index(n: Netif): nat {
    (n.num + 1) % 256
  }

  predicate Taken(list: seq<Netif>, num: nat) {
    exists i :: 0 <= i < |list| && list[i].num == num
  }

  /** Listed interfaces have different numbers in 0..254. */
  predicate Numbered(list: seq<Netif>) {
    && (forall i :: 0 <= i < |list| ==> list[i].num <= 254)
    && (forall i, j :: 0 <= i < j < |list| ==> list[i].num != list[j].num)
  }

  // ---------------------------------------------------------------- the search for a number

  /** The t-th number tried: from `start` on, 0 following 254. */
  function Tried(start: nat, t: nat): nat
    requires start <= 254 && t < 255
  {
    if start + t < 255 then start + t else start + t - 255
  }

  /** A number is left exactly if at most 254 interfaces are listed. */
  lemma NumberIsFreeExactlyWhen(list: seq<Netif>)
    requires Numbered(list)
    ensures (exists num: nat :: num <= 254 && !Taken(list, num)) <==> |list| <= 254
  {
    if |list| <= 254 {
      SomeNumberIsFree(list);
    }
    if num: nat :| num <= 254 && !Taken(list, num) {
      FreeLeavesRoom(list, num, 255);
    }
  }

  lemma FreeLeavesRoom(list: seq<Netif>, num: nat, n: nat)
    requires forall i :: 0 <= i < |list| ==> list[i].num < n
    requires forall i, j :: 0 <= i < j < |list| ==> list[i].num != list[j].num
    requires num < n && !Taken(list, num)
    ensures |list| < n
  {
    FitsIn(list, Numbers(n) - {num});
  }

  /** The search from any number on meets one that is not taken exactly if at most 254 interfaces are listed;
      with all 255 numbers taken it goes round for ever. */
  lemma SearchEndsExactlyWhen(list: seq<Netif>, start: nat)
    requires Numbered(list) && start <= 254
    ensures (exists k: nat :: !Taken(list, Probe(start, k))) <==> |list| <= 254
  {
    NumberIsFreeExactlyWhen(list);
    if |list| <= 254 {
      var num: nat :| num <= 254 && !Taken(list, num);
      var j: nat := if num >= start then num - start else num + 255 - start;
      ProbeIsTried(start, j);
      assert !Taken(list, Probe(start, j));
    }
    if k: nat :| !Taken(list, Probe(start, k)) {
      assert Probe(start, k) <= 254;
    }
  }

  /** The number looked at after `k` steps of the search, however often it has gone round. */
  function Probe(start: nat, k: nat): (num: nat)
    requires start <= 254
    ensures num <= 254
  {
    if k == 0 then start else
      var num := Probe(start, k - 1);
      if num + 1 == 255 then 0 else num + 1
  }

  lemma {:induction false} ProbeIsTried(start: nat, t: nat)
    requires start <= 254 && t < 255
    ensures Probe(start, t) == Tried(start, t)
  {
    if t > 0 { ProbeIsTried(start, t - 1); }
  }

  function Numbers(n: nat): (s: set<nat>)
    ensures |s| == n && forall x: nat :: x in s <==> x < n
  {
    if n == 0 then {} else Numbers(n - 1) + {n - 1}
  }

  lemma {:induction false} FitsIn(list: seq<Netif>, room: set<nat>)
    requires forall i :: 0 <= i < |list| ==> list[i].num in room
    requires forall i, j :: 0 <= i < j < |list| ==> list[i].num != list[j].num
    ensures |list| <= |room|
  {
    if list != [] { FitsIn(list[..|list| - 1], room - {list[|list| - 1].num}); }
  }

  /** Not all 255 numbers are taken by at most 254 interfaces. */
  lemma SomeNumberIsFree(list: seq<Netif>)
    requires |list| <= 254
    ensures exists num: nat :: num <= 254 && !Taken(list, num)
  {
    if forall num: nat :: num <= 254 ==> Taken(list, num) {
      Cover(list, 255);
    }
  }

  /** To take all numbers below `n`, `n` interfaces are needed. */
  lemma {:induction false} Cover(list: seq<Netif>, n: nat)
    requires forall num: nat :: num < n ==> Taken(list, num)
    ensures |list| >= n
    decreases n
  {
    if n > 0 {
      assert Taken(list, n - 1);
      var i :| 0 <= i < |list| && list[i].num == n - 1;
      var rest := list[..i] + list[i + 1..];
      forall num: nat | num < n - 1 ensures Taken(rest, num) {
        assert Taken(list, num);
        var j :| 0 <= j < |list| && list[j].num == num;
        assert rest[if j < i then j else j - 1].num == num;
      }
      Cover(rest, n - 1);
    }
  }

  /** So the search meets a free one before it has gone round. */
  lemma NotAllRound(list: seq<Netif>, start: nat, t: nat)
    requires |list| <= 254 && start <= 254 && t <= 255
    requires forall j: nat :: j < t ==> Taken(list, Tried(start, j))
    ensures t < 255
  {
    SomeNumberIsFree(list);
    var num: nat :| num <= 254 && !Taken(list, num);
    var j: nat := if num >= start then num - start else num + 255 - start;
    assert Tried(start, j) == num;
  }

  ghost predicate FirstFree(list: seq<Netif>, start: nat, t: nat, num: nat)
    requires start <= 254
  {
    t < 255 && num == Tried(start, t) && !Taken(list, num) && forall j: nat :: j < t ==> Taken(list, Tried(start, j))
  }

  function Without(list: seq<Netif>, i: nat): seq<Netif>
    requires i < |list|
  {
    list[..i] + list[i + 1..]
  }

  class Netifs {
    var list: seq<Netif>
    var netifNum: nat

    ghost predicate Valid()
      reads this
    {
      Numbered(list) && netifNum <= 254
    }

    constructor ()
      ensures Valid() && list == []
    {
      list, netifNum := [], 0;
    }

    /** The inner loop: whether a listed interface has this number. */
    method InUse(num: nat) returns (found: bool)
      ensures found <==> Taken(list, num)
    {
      for i := 0 to |list|
        invariant forall j :: 0 <= j < i ==> list[j].num != num
      {
        if list[i].num == num {
          return true;
        }
      }
      return false;
    }

    /** netif_add: the search ends, with the first number from netif_num on that is not taken. */
    method Add(name0: char, name1: char) returns (num: nat)
      requires Valid() && |list| <= 254
      modifies this
      ensures Valid() && num <= 254 && list == [Netif(name0, name1, num)] + old(list)
      ensures !Taken(old(list), num)
      ensures exists t: nat :: FirstFree(old(list), old(netifNum), t, num)
      ensures netifNum == if num == 254 then 0 else num + 1
    {
      ghost var t := 0;
      num := netifNum;
      var again := true;
      while again
        invariant t < 255 && num <= 255 && list == old(list) && netifNum == old(netifNum)
        invariant (if num == 255 then 0 else num) == Tried(netifNum, t)
        invariant forall j: nat :: j < t ==> Taken(list, Tried(netifNum, j))
        invariant !again ==> num <= 254 && !Taken(list, num)
        decreases again, 255 - t
      {
        if num == 255 {
          num := 0;
        }
        again := InUse(num);
        if again {
          NotAllRound(list, netifNum, t + 1);
          num := num + 1;
          t := t + 1;
        }
      }
      assert FirstFree(list, netifNum, t, num);
      netifNum := if num == 254 then 0 else num + 1;
      list := [Netif(name0, name1, num)] + list;
      forall i, j | 0 <= i < j < |list| ensures list[i].num != list[j].num {
        assert list[j] == old(list)[j - 1];
        if i > 0 { assert list[i] == old(list)[i - 1]; }
      }
    }

    /** netif_remove: the list head, or the walk to the predecessor; an interface not listed changes nothing. */
    method Remove(netif: Netif)
      requires Valid()
      modifies this
      ensures Valid() && netifNum == old(netifNum)
      ensures netif !in old(list) ==> list == old(list)
      ensures netif in old(list) ==>
        exists i :: 0 <= i < |old(list)| && old(list)[i] == netif && list == Without(old(list), i)
      ensures netif !in list
    {
      if list != [] && list[0] == netif {
        assert list[1..] == Without(list, 0);
        list := list[1..];
      } else {
        for i := 0 to |list|
          invariant list == old(list) && forall j :: 0 <= j <= i && j < |list| ==> list[j] != netif
        {
          if i + 1 < |list| && list[i + 1] == netif {
            list := Without(list, i + 1);
            return;
          }
        }
      }
    }

    /** netif_get_by_index */
    method GetByIndex(idx: nat) returns (r: Option<Netif>)
      ensures r.Some? ==> idx != NETIF_NO_INDEX && r.value in list && Index(r.value) == idx
      ensures r.None? ==> idx == NETIF_NO_INDEX || forall n :: n in list ==> Index(n) != idx
    {
      if idx != NETIF_NO_INDEX {
        for i := 0 to |list|
          invariant forall j :: 0 <= j < i ==> Index(list[j]) != idx
        {
          if Index(list[i]) == idx {
            return Some(list[i]);
          }
        }
      }
      return None;
    }

    /** netif_find on a buffer with two letters and a terminated text behind them */
    method Find(name: seq<char>) returns (r: Option<Netif>)
      requires |name| >= 3
      ensures r.Some? ==> r.value in list && Named(r.value, name)
      ensures r.None? ==> forall n :: n in list ==> !Named(n, name)
    {
      var v := Atoi(CString(name[2..]));
      var num := v % 256;
      if num == 0 && name[2] != '0' {
        return None;
      }
      for i := 0 to |list|
        invariant forall j :: 0 <= j < i ==> !Named(list[j], name)
      {
        if num == list[i].num && name[0] == list[i].name0 && name[1] == list[i].name1 {
          return Some(list[i]);
        }
      }
      return None;
    }

    /** netif_name_to_index */
    method NameToIndex(name: seq<char>) returns (idx: nat)
      requires Valid() && |name| >= 3
      ensures idx == NETIF_NO_INDEX <==> forall n :: n in list ==> !Named(n, name)
      ensures idx != NETIF_NO_INDEX ==> exists n :: n in list && Named(n, name) && idx == Index(n)
    {
      NumbersHaveIndices(list);
      var r := Find(name);
      match r {
        case Some(n) => return Index(n);
        case None => return NETIF_NO_INDEX;
      }
    }

    /** netif_index_to_name: the two letters and the number in decimal, if there is such an interface. */
    method IndexToName(idx: nat, name: array<char>) returns (ok: bool)
      requires Valid() && idx <= 255 && name.Length >= NETIF_NAMESIZE
      modifies name
      ensures ok <==> exists n :: n in list && Index(n) == idx
      ensures ok ==> exists n :: n in list && Index(n) == idx && Spelled(name[..], n)
    {
      NumbersHaveIndices(list);
      var r := GetByIndex(idx);
      if r.None? {
        return false;
      }
      var n := r.value;
      name[0] := n.name0;
      name[1] := n.name1;
      var buf := new char[NETIF_NAMESIZE - 2](_ => '?');
      ShortNumbers(n.num);
      LwipItoa(buf, NETIF_NAMESIZE - 2, idx - 1);
      var digits := buf[..NETIF_NAMESIZE - 2];
      for i := 0 to NETIF_NAMESIZE - 2
        invariant name[0] == n.name0 && name[1] == n.name1
        invariant forall k :: 2 <= k < 2 + i ==> name[k] == digits[k - 2]
      {
        name[2 + i] := digits[i];
      }
      assert name[..][2..][..NETIF_NAMESIZE - 2] == digits;
      HoldsPrefix(name[..][2..], digits, Printed(n.num));
      assert Spelled(name[..], n);
      return true;
    }

    /** The index of a listed interface, printed as a name and looked up again, is the same index. */
    method RoundTrip(idx: nat) returns (back: nat)
      requires Valid() && exists n :: n in list && Index(n) == idx
      ensures back == idx
    {
      NumbersHaveIndices(list);
      var name := new char[NETIF_NAMESIZE](_ => '?');
      var ok := IndexToName(idx, name);
      ghost var n :| n in list && Index(n) == idx && Spelled(name[..], n);
      SpelledIsNamed(name[..], n);
      back := NameToIndex(name[..]);
    }
  }

  /** The interface netif_find looks for. */
  predicate Named(n: Netif, name: seq<char>)
    requires |name| >= 3
  {
    && n.name0 == name[0] && n.name1 == name[1]
    && n.num == Parsed(CString(name[2..])) % 256 && (n.num == 0 ==> name[2] == '0')
  }

  /** The buffer holds the interface's letters and its number in decimal. */
  predicate Spelled(name: seq<char>, n: Netif) {
    |name| >= 3 && name[0] == n.name0 && name[1] == n.name1 && Holds(name[2..], Printed(n.num))
  }

  /** The text up to the first NUL. */
  function CString(buf: seq<char>): (s: seq<char>)
    ensures |s| <= |buf|
  {
    if buf == [] || buf[0] == NUL then [] else [buf[0]] + CString(buf[1..])
  }

  lemma {:induction false} CStringOf(buf: seq<char>, text: seq<char>)
    requires |text| < |buf| && buf[..|text|] == text && buf[|text|] == NUL && NUL !in text
    ensures CString(buf) == text
    decreases |text|
  {
    if text != [] {
      assert buf[0] == text[0] && buf[1..][..|text| - 1] == text[1..];
      CStringOf(buf[1..], text[1..]);
    }
  }

  lemma HoldsPrefix(buf: seq<char>, part: seq<char>, text: seq<char>)
    requires |part| <= |buf| && buf[..|part|] == part && Holds(part, text)
    ensures Holds(buf, text)
  {
    assert buf[..|text|] == part[..|text|];
  }

  lemma NumbersHaveIndices(list: seq<Netif>)
    requires Numbered(list)
    ensures forall n :: n in list ==> n.num <= 254 && Index(n) == n.num + 1
    ensures forall m, n :: m in list && n in list && m.num == n.num ==> m == n
  {}

  lemma ShortNumbers(n: nat)
    requires n < 1000
    ensures |Printed(n)| <= 3
  {
    assert n / 10 / 10 / 10 == 0;
    assert |Digits(n / 10 / 10)| <= 1;
    assert |Digits(n / 10)| <= 2;
  }

  lemma PrintedFirst(v: nat)
    ensures NUL !in Printed(v) && |Printed(v)| >= 1 && (Printed(v)[0] == '0' <==> v == 0)
  {
    DigitsHaveNoNul(v);
    PrintedNotEmpty(v);
    if v > 0 { LeadingDigit(v); }
  }

  lemma {:induction false} LeadingDigit(n: nat)
    requires n > 0
    ensures |Digits(n)| >= 1 && Digits(n)[0] != '0'
  {
    if n / 10 > 0 {
      LeadingDigit(n / 10);
    } else {
      assert Digits(n) == [DigitChar(n)];
    }
  }

  /** A name with the number `v` finds exactly the interfaces with the number v modulo 256, except that a
      non-zero multiple of 256 finds nothing. */
  lemma FindsExactlyWhen(n: Netif, name: seq<char>, v: nat)
    requires |name| >= 3 && name[0] == n.name0 && name[1] == n.name1 && Holds(name[2..], Printed(v))
    ensures Named(n, name) <==> n.num == v % 256 && (n.num == 0 ==> v == 0)
  {
    PrintedFirst(v);
    CStringOf(name[2..], Printed(v));
    ParsedOfPrinted(v);
    assert name[2] == name[2..][..|Printed(v)|][0];
  }

  lemma SpelledIsNamed(name: seq<char>, n: Netif)
    requires Spelled(name, n) && n.num <= 254
    ensures Named(n, name)
  {
    FindsExactlyWhen(n, name, n.num);
  }
}
