/** netconn_write_vectors_partly and lwip_netconn_do_writemore (lwip-2.1.3/src/api/api_lib.c:1020-1074,
    lwip-2.1.3/src/api/api_msg.c:1642-1806): the data of several vectors is handed to tcp_write in 16-bit
    chunks, as far as the send buffer allows, and resumed by later callbacks. */
module VectoredWrite {
  import opened Common
  import Arith

  datatype Err = OK | MEM | WOULDBLOCK | RTE | OTHER

  const MAX_U16: nat := 0xFFFF

  /** The sum of two values below the modulus wraps exactly when it comes out smaller than an operand. */
  lemma WrapIsVisible(a: nat, b: nat, m: nat)
    requires a < m && b < m
    ensures (a + b) % m < b <==> a + b >= m
    ensures a + b < m ==> (a + b) % m == a + b
  {
    if a + b >= m {
      Arith.DivModUnique(a + b, m, 1, a + b - m);
    } else {
      Arith.DivModUnique(a + b, m, 0, a + b);
    }
  }

  lemma FlatStep(vectors: seq<seq<Byte>>, i: nat)
    requires i < |vectors|
    ensures |Flat(vectors[..i + 1])| == |Flat(vectors[..i])| + |vectors[i]| <= |Flat(vectors)|
  {
    assert vectors[..i + 1] == vectors[..i] + [vectors[i]];
    FlatAppend(vectors[..i], vectors[i]);
    assert vectors == vectors[..i + 1] + vectors[i + 1..];
    FlatSplit(vectors[..i + 1], vectors[i + 1..]);
  }

  /** The size sum of netconn_write_vectors_partly, in `modulus`-valued size_t arithmetic: the wrap-around
      test finds every overflow and reports no other. */
  method TotalSize(vectors: seq<seq<Byte>>, modulus: nat) returns (ok: bool, size: nat)
    requires modulus > 0 && forall i :: 0 <= i < |vectors| ==> |vectors[i]| < modulus
    ensures ok <==> |Flat(vectors)| < modulus
    ensures ok ==> size == |Flat(vectors)|
  {
    size := 0;
    for i := 0 to |vectors|
      invariant size == |Flat(vectors[..i])| < modulus
    {
      FlatStep(vectors, i);
      WrapIsVisible(size, |vectors[i]|, modulus);
      size := (size + |vectors[i]|) % modulus;
      if size < |vectors[i]| {
        return false, size;
      }
    }
    assert vectors[..|vectors|] == vectors;
    return true, size;
  }

  // ---------------------------------------------------------------- one chunk

  /** The length of the next chunk: what is left of the vector, cut to 16 bits and to the send buffer. */
  function ChunkLen(diff: nat, available: nat): nat {
    var len := if diff > MAX_U16 then MAX_U16 else diff;
    if available < len then available else len
  }

  /** The condition for going round the loop again, with the cast of `diff` to u16_t. */
  predicate LoopAgain(len: nat, diff: nat, vectorCnt: nat) {
    (len == MAX_U16 && diff > MAX_U16) || (len == diff % 0x10000 && vectorCnt > 1)
  }

  /** The loop goes round again; a non-blocking write leaves it when there is no send buffer at all. */
  predicate GoesRound(diff: nat, available: nat, vectorCnt: nat, dontblock: bool) {
    var len := ChunkLen(diff, available);
    !(dontblock && available < diff && len == 0) && LoopAgain(len, diff, vectorCnt)
  }

  /** A blocking write goes round without having moved exactly when the send buffer is full, further vectors
      follow, and what is left of this one is a positive multiple of 65536.  As long as the send buffer
      stays full it then never ends. */
  lemma StallsExactlyWhen(diff: nat, available: nat, vectorCnt: nat, dontblock: bool)
    requires available <= MAX_U16
    ensures (diff > 0 && ChunkLen(diff, available) == 0 && GoesRound(diff, available, vectorCnt, dontblock))
        <==> (!dontblock && available == 0 && vectorCnt > 1 && diff > 0 && diff % 0x10000 == 0)
  {
  }

  /** The loop does not go round again only behind the last byte, or with the send buffer used up. */
  lemma StopsForBuffer(diff: nat, available: nat, vectorCnt: nat)
    requires available <= MAX_U16 && !LoopAgain(ChunkLen(diff, available), diff, vectorCnt) && vectorCnt > 0
    ensures (vectorCnt == 1 && ChunkLen(diff, available) == diff) || ChunkLen(diff, available) == available < diff
  {
  }

  // ---------------------------------------------------------------- which writes can hang

  /** vector_cnt and vector_off */
  datatype Cursor = Cursor(cnt: nat, off: nat)

  predicate Within(vectors: seq<seq<Byte>>, c: Cursor) {
    c.cnt <= |vectors| && (c.cnt > 0 ==> c.off <= |vectors[|vectors| - c.cnt]|)
  }

  /** What is left of the current vector. */
  function Left(vectors: seq<seq<Byte>>, c: Cursor): nat
    requires Within(vectors, c)
  {
    if c.cnt == 0 then 0 else |vectors[|vectors| - c.cnt]| - c.off
  }

  /** The cursor after `len` bytes were accepted. */
  function Moved(vectors: seq<seq<Byte>>, c: Cursor, len: nat): (c': Cursor)
    requires Within(vectors, c) && len <= Left(vectors, c)
    ensures Within(vectors, c')
  {
    if c.cnt == 0 then c
    else if len < Left(vectors, c) then Cursor(c.cnt, c.off + len)
    else if c.cnt == 1 then Cursor(0, c.off + len)
    else Cursor(c.cnt - 1, 0)
  }

  /** One round of the loop, in this call or a later one, in which tcp_write accepts its chunk. */
  function Round(vectors: seq<seq<Byte>>, c: Cursor, available: nat): (c': Cursor)
    requires Within(vectors, c)
    ensures Within(vectors, c')
  {
    Moved(vectors, c, ChunkLen(Left(vectors, c), available))
  }

  function Rounds(vectors: seq<seq<Byte>>, c: Cursor, sndbufs: seq<nat>): (c': Cursor)
    requires Within(vectors, c)
    ensures Within(vectors, c')
  {
    if sndbufs == [] then c
    else Round(vectors, Rounds(vectors, c, sndbufs[..|sndbufs| - 1]), sndbufs[|sndbufs| - 1])
  }

  predicate U16s(sndbufs: seq<nat>) {
    forall k :: 0 <= k < |sndbufs| ==> sndbufs[k] <= MAX_U16
  }

  /** With no send buffer the loop goes round here without moving. */
  predicate Stalled(vectors: seq<seq<Byte>>, c: Cursor, dontblock: bool)
    requires Within(vectors, c)
  {
    var diff := Left(vectors, c);
    diff > 0 && ChunkLen(diff, 0) == 0 && GoesRound(diff, 0, c.cnt, dontblock)
  }

  ghost predicate CanStall(vectors: seq<seq<Byte>>, dontblock: bool) {
    exists sndbufs :: U16s(sndbufs) && Stalled(vectors, Rounds(vectors, Start(vectors), sndbufs), dontblock)
  }

  function Start(vectors: seq<seq<Byte>>): (c: Cursor)
    ensures Within(vectors, c)
  {
    Cursor(|vectors|, 0)
  }

  /** From vector `d` on none but the last is longer than 16 bits. */
  predicate ShortBut(vectors: seq<seq<Byte>>, d: nat) {
    forall i :: d <= i < |vectors| - 1 ==> |vectors[i]| <= MAX_U16
  }

  /** As long as the send buffer stays full, a stalled loop never leaves its place. */
  lemma {:induction false} StalledStays(vectors: seq<seq<Byte>>, c: Cursor, n: nat)
    requires Within(vectors, c) && Stalled(vectors, c, false)
    ensures Rounds(vectors, c, seq(n, _ => 0)) == c
  {
    if n > 0 {
      var zeros: seq<nat> := seq(n, _ => 0);
      assert zeros[..n - 1] == seq(n - 1, _ => 0);
      StalledStays(vectors, c, n - 1);
    }
  }

  lemma {:induction false} RoundsAppend(vectors: seq<seq<Byte>>, c: Cursor, a: seq<nat>, b: seq<nat>)
    requires Within(vectors, c)
    ensures Rounds(vectors, c, a + b) == Rounds(vectors, Rounds(vectors, c, a), b)
    decreases |b|
  {
    if b == [] {
      assert a + b == a;
    } else {
      var n := |b| - 1;
      assert (a + b)[..|a + b| - 1] == a + b[..n];
      RoundsAppend(vectors, c, a, b[..n]);
    }
  }

  /** Enough send buffer finishes a vector. */
  lemma {:induction false} FinishVector(vectors: seq<seq<Byte>>, c: Cursor) returns (sndbufs: seq<nat>)
    requires Within(vectors, c) && c.cnt > 1
    ensures U16s(sndbufs) && Rounds(vectors, c, sndbufs) == Cursor(c.cnt - 1, 0)
    decreases Left(vectors, c)
  {
    var one: seq<nat> := [MAX_U16];
    assert one[..0] == [] && Rounds(vectors, c, one[..0]) == c;
    assert Rounds(vectors, c, one) == Round(vectors, c, MAX_U16);
    if Left(vectors, c) <= MAX_U16 {
      sndbufs := one;
    } else {
      var rest := FinishVector(vectors, Round(vectors, c, MAX_U16));
      sndbufs := one + rest;
      RoundsAppend(vectors, c, one, rest);
    }
  }

  lemma {:induction false} ReachVector(vectors: seq<seq<Byte>>, i: nat) returns (sndbufs: seq<nat>)
    requires i < |vectors|
    ensures U16s(sndbufs) && Rounds(vectors, Start(vectors), sndbufs) == Cursor(|vectors| - i, 0)
  {
    if i == 0 {
      sndbufs := [];
    } else {
      var front := ReachVector(vectors, i - 1);
      var last := FinishVector(vectors, Cursor(|vectors| - (i - 1), 0));
      sndbufs := front + last;
      RoundsAppend(vectors, Start(vectors), front, last);
    }
  }

  /** A write can be brought to a round that repeats for ever exactly if it is blocking and some vector other
      than the last is longer than 16 bits: leave a multiple of 65536 bytes of it, and then no send buffer. */
  lemma CanStallExactlyWhen(vectors: seq<seq<Byte>>, dontblock: bool)
    ensures CanStall(vectors, dontblock) <==> !dontblock && !ShortBut(vectors, 0)
  {
    if CanStall(vectors, dontblock) {
      var sndbufs :| U16s(sndbufs) && Stalled(vectors, Rounds(vectors, Start(vectors), sndbufs), dontblock);
      StalledIsLong(vectors, Rounds(vectors, Start(vectors), sndbufs), dontblock);
    }
    if !dontblock && !ShortBut(vectors, 0) {
      var i :| 0 <= i < |vectors| - 1 && |vectors[i]| > MAX_U16;
      var sndbufs := ReachStall(vectors, i);
    }
  }

  lemma StalledIsLong(vectors: seq<seq<Byte>>, c: Cursor, dontblock: bool)
    requires Within(vectors, c) && Stalled(vectors, c, dontblock)
    ensures !dontblock && !ShortBut(vectors, 0)
  {
    assert |vectors[|vectors| - c.cnt]| > MAX_U16;
  }

  lemma ReachStall(vectors: seq<seq<Byte>>, i: nat) returns (sndbufs: seq<nat>)
    requires i < |vectors| - 1 && |vectors[i]| > MAX_U16
    ensures U16s(sndbufs) && Stalled(vectors, Rounds(vectors, Start(vectors), sndbufs), false)
  {
    var c := Cursor(|vectors| - i, 0);
    var front := ReachVector(vectors, i);
    var last: seq<nat> := [|vectors[i]| % 0x10000];
    sndbufs := front + last;
    RoundsAppend(vectors, Start(vectors), front, last);
    assert last[..0] == [] && Rounds(vectors, c, last[..0]) == c;
    RestIsMultiple(vectors, c);
  }

  lemma RestIsMultiple(vectors: seq<seq<Byte>>, c: Cursor)
    requires Within(vectors, c) && c.cnt > 1 && Left(vectors, c) > MAX_U16
    ensures Stalled(vectors, Round(vectors, c, Left(vectors, c) % 0x10000), false)
  {}

  /** The last round of the loop: its number, how much had been sent before it, how much was left of its vector,
      and how much it handed to tcp_write. */
  datatype LastRound = LastRound(number: nat, before: nat, left: nat, len: nat)

  /** tcp_write takes what it is given or lacks memory. */
  ghost predicate TcpIsWell(accept: (nat, nat) -> Err) {
    forall k, len :: accept(k, len) == OK || accept(k, len) == MEM
  }

  class WriteJob {
    const vectors: seq<seq<Byte>>
    var vectorCnt: nat
    var vectorOff: nat
    var offset: nat
    /** everything tcp_write has accepted */
    var sent: seq<Byte>

    ghost function Done(): nat
      reads this
      requires vectorCnt <= |vectors|
    {
      |vectors| - vectorCnt
    }

    /** What was accepted is a prefix of the data, `offset` bytes long, and the cursor stands at its end. */
    ghost predicate Valid()
      reads this
    {
      && vectorCnt <= |vectors|
      && offset <= |Flat(vectors)| && sent == Flat(vectors)[..offset]
      && (vectorCnt > 0 ==>
            vectorOff <= |vectors[Done()]| && offset == |Flat(vectors[..Done()])| + vectorOff)
      && (vectorCnt == 0 ==> offset == |Flat(vectors)|)
    }

    /** The message as netconn_write_vectors_partly sets it up. */
    constructor (vs: seq<seq<Byte>>)
      ensures Valid() && vectors == vs && offset == 0 && vectorCnt == |vs| && sent == [] && vectorOff == 0
    {
      vectors := vs;
      vectorCnt := |vs|;
      vectorOff := 0;
      offset := 0;
      sent := [];
      new;
      assert vectors[..0] == [];
    }

    /** No vector still to be sent is longer than 16 bits, unless it is the last one. */
    ghost predicate NoStall()
      reads this
      requires vectorCnt <= |vectors|
    {
      ShortBut(vectors, Done())
    }

    ghost function Position(): Cursor
      reads this
    {
      Cursor(vectorCnt, vectorOff)
    }

    /** Where the cursor's bytes lie in the flattened data. */
    lemma ChunkIsNext(len: nat)
      requires Valid() && vectorCnt > 0 && vectorOff + len <= |vectors[Done()]|
      ensures offset + len <= |Flat(vectors)|
      ensures sent + vectors[Done()][vectorOff..vectorOff + len] == Flat(vectors)[..offset + len]
      ensures vectorOff + len == |vectors[Done()]| ==> offset + len == |Flat(vectors[..Done() + 1])|
      ensures vectorOff + len < |vectors[Done()]| ==> offset + len < |Flat(vectors)|
    {
      var d := Done();
      var front, v, back := vectors[..d], vectors[d], vectors[d + 1..];
      assert vectors[..d + 1] == front + [v];
      FlatAppend(front, v);
      assert vectors == vectors[..d + 1] + back;
      FlatSplit(vectors[..d + 1], back);
      assert Flat(vectors) == Flat(front) + v + Flat(back);
    }

    /** tcp_write accepted `len` bytes: advance the cursor. */
    method Advance(len: nat)
      requires Valid() && vectorCnt > 0 && vectorOff + len <= |vectors[Done()]|
      modifies this
      ensures Valid()
      ensures offset == old(offset) + len
      ensures vectorCnt == old(vectorCnt) - (if old(vectorOff) + len == |vectors[old(Done())]| then 1 else 0)
      ensures vectorCnt == old(vectorCnt) ==> offset < |Flat(vectors)|
      ensures Position() == Moved(vectors, old(Position()), len)
    {
      ChunkIsNext(len);
      var v := vectors[|vectors| - vectorCnt];
      sent := sent + v[vectorOff..vectorOff + len];
      offset := offset + len;
      vectorOff := vectorOff + len;
      if vectorOff == |v| {
        vectorCnt := vectorCnt - 1;
        if vectorCnt > 0 {
          vectorOff := 0;
        } else {
          assert vectors[..|vectors|] == vectors;
        }
      }
    }

    /** What the last round of the loop did.  A non-blocking write that finds no send buffer for what is left of the
        vector does not call tcp_write, and reports whether anything has been sent.  Any other round hands over
        as much as the vector, 16 bits and the send buffer allow and ends as tcp_write says; if that went well
        but data are left, the send buffer was used up. */
    ghost predicate EndedBy(last: LastRound, dontblock: bool, sndbuf: nat -> nat, accept: (nat, nat) -> Err, err: Err)
      reads this
    {
      var available := sndbuf(last.number);
      if dontblock && available == 0 && last.left > 0 then
        offset == last.before && err == (if offset == 0 then WOULDBLOCK else OK)
      else
        && last.len <= last.left && last.len <= MAX_U16 && last.len <= available
        && (last.len == last.left || last.len == MAX_U16 || last.len == available)
        && err == accept(last.number, last.len) && offset == last.before + (if err == OK then last.len else 0)
        && (err == OK && offset < |Flat(vectors)| ==> last.len == available < last.left)
    }

    /** One round of the do-while loop of lwip_netconn_do_writemore: it comes nearer to the end, or is the last. */
    method WriteRound(k: nat, dontblock: bool, sndbuf: nat -> nat, accept: (nat, nat) -> Err)
        returns (err: Err, again: bool, ghost last: LastRound)
      requires Valid() && vectorCnt > 0 && (dontblock || NoStall()) && sndbuf(k) <= MAX_U16 && accept(k, 0) != MEM
      modifies this
      ensures Valid() && (dontblock || NoStall()) && offset >= old(offset) && vectorCnt <= old(vectorCnt)
      ensures again ==> vectorCnt > 0 && (offset > old(offset) || vectorCnt < old(vectorCnt))
      ensures !again ==> EndedBy(last, dontblock, sndbuf, accept, err) && last.number == k
      ensures !again && err == MEM ==> vectorCnt > 0 && offset < |Flat(vectors)|
      ensures !again && err == OK && offset < |Flat(vectors)| ==> vectorCnt > 0
    {
      var diff := |vectors[|vectors| - vectorCnt]| - vectorOff;
      var len := if diff > MAX_U16 then MAX_U16 else diff;
      var available := sndbuf(k);
      last := LastRound(k, offset, diff, 0);
      if available < len {
        len := available;
        if dontblock && len == 0 {
          err := if offset == 0 then WOULDBLOCK else OK;
          return err, false, last;
        }
      }
      last := last.(len := len);
      ChunkIsNext(len);
      assert len == ChunkLen(diff, available);
      again := (len == MAX_U16 && diff > MAX_U16) || (len == diff % 0x10000 && vectorCnt > 1);
      assert again == GoesRound(diff, available, vectorCnt, dontblock);
      if !again { StopsForBuffer(diff, available, vectorCnt); }
      err := accept(k, len);
      if err == OK {
        Advance(len);
      } else {
        again := false;
      }
    }

    /** The do-while loop of lwip_netconn_do_writemore.  `sndbuf(k)` is what tcp_sndbuf returns in round k and
        `accept(k, len)` what tcp_write does; tcp_write does not run out of memory for no data. */
    method WriteLoop(dontblock: bool, sndbuf: nat -> nat, accept: (nat, nat) -> Err)
        returns (err: Err, ghost last: LastRound)
      requires Valid() && vectorCnt > 0 && offset < |Flat(vectors)| && (dontblock || NoStall())
      requires forall k :: sndbuf(k) <= MAX_U16
      requires forall k :: accept(k, 0) != MEM
      modifies this
      ensures Valid() && offset >= old(offset)
      ensures vectorCnt <= old(vectorCnt) && (dontblock || NoStall())
      ensures err == MEM ==> vectorCnt > 0 && offset < |Flat(vectors)|
      ensures err == OK && offset < |Flat(vectors)| ==> vectorCnt > 0
      ensures EndedBy(last, dontblock, sndbuf, accept, err)
    {
      var k := 0;
      err := OK;
      last := LastRound(0, offset, 0, 0);
      var again := true;
      while again
        invariant Valid() && (dontblock || NoStall()) && offset >= old(offset) && vectorCnt <= old(vectorCnt)
        invariant again ==> vectorCnt > 0
        invariant !again ==> EndedBy(last, dontblock, sndbuf, accept, err)
        invariant !again && err == MEM ==> vectorCnt > 0 && offset < |Flat(vectors)|
        invariant !again && err == OK && offset < |Flat(vectors)| ==> vectorCnt > 0
        decreases again, |Flat(vectors)| - offset + vectorCnt
      {
        err, again, last := WriteRound(k, dontblock, sndbuf, accept);
        k := k + 1;
      }
    }

    /** lwip_netconn_do_writemore: whether the message is finished, and with which error.  `output` is what
        tcp_output returns. */
    method WriteMore(dontblock: bool, sndbuf: nat -> nat, accept: (nat, nat) -> Err, output: Err)
        returns (finished: bool, err: Err, ghost last: LastRound)
      requires Valid() && vectorCnt > 0 && offset < |Flat(vectors)| && (dontblock || NoStall())
      requires forall k :: sndbuf(k) <= MAX_U16
      requires forall k :: accept(k, 0) != MEM
      modifies this
      ensures Valid() && (dontblock || NoStall()) && offset >= old(offset)
      // the state in which the next callback resumes
      ensures !finished ==> vectorCnt > 0 && offset < |Flat(vectors)|
      // a blocking write that ends well has sent everything
      ensures finished && err == OK && !dontblock ==> sent == Flat(vectors)
      // a blocking write that waits has used up the send buffer or lacks memory
      ensures !finished ==>
        || accept(last.number, last.len) == MEM
        || (last.len == sndbuf(last.number) < last.left && offset == last.before + last.len)
      // a non-blocking one never waits; with no other error it reports exactly whether anything was sent
      ensures dontblock ==> finished
      ensures dontblock && output != RTE && TcpIsWell(accept) ==> err == (if offset == 0 then WOULDBLOCK else OK)
      ensures finished ==> err != MEM
      // no route ends it; any other error is what tcp_write said last
      ensures !finished ==> output != RTE
      ensures err == RTE || err == OTHER ==> err == output || err == accept(last.number, last.len)
      ensures finished && err == WOULDBLOCK && !dontblock ==> err == accept(last.number, last.len)
    {
      finished := false;
      err, last := WriteLoop(dontblock, sndbuf, accept);
      if err == OK {
        if offset == |Flat(vectors)| || dontblock {
          finished := true;
        }
        if output == RTE {
          err := output;
          finished := true;
        }
      } else if err == MEM {
        if output == RTE {
          err := output;
          finished := true;
        } else if dontblock {
          err := if offset == 0 then WOULDBLOCK else OK;
          finished := true;
        }
      } else {
        finished := true;
      }
    }

    /** A whole blocking write: the first attempt and the callbacks that resume it, at most `calls` of them.
        The oracles take the number of the call first. */
    method WriteAll(calls: nat, sndbuf: (nat, nat) -> nat, accept: (nat, nat, nat) -> Err, output: nat -> Err)
        returns (finished: bool, err: Err)
      requires Valid() && vectorCnt > 0 && offset < |Flat(vectors)| && NoStall()
      requires forall c, k :: sndbuf(c, k) <= MAX_U16
      requires forall c, k :: accept(c, k, 0) != MEM
      modifies this
      ensures Valid() && sent == Flat(vectors)[..offset]
      ensures finished && err == OK ==> sent == Flat(vectors)
    {
      finished := false;
      err := MEM;
      var c := 0;
      while !finished && c < calls
        invariant Valid() && NoStall()
        invariant !finished ==> vectorCnt > 0 && offset < |Flat(vectors)|
        invariant finished && err == OK ==> sent == Flat(vectors)
      {
        ghost var last: LastRound;
        finished, err, last :=
          WriteMore(false, (k: nat) => sndbuf(c, k), (k: nat, len: nat) => accept(c, k, len), output(c));
        c := c + 1;
      }
    }
  }
}
