/** Types and functions shared by the models. */
module Common {
  datatype Option<T> = None | Some(value: T)

  type Byte = x: int | 0 <= x < 256

  /** The bytes of several pieces, one after the other. */
  function Flat(parts: seq<seq<Byte>>): seq<Byte> {
    if parts == [] then [] else Flat(parts[..|parts| - 1]) + parts[|parts| - 1]
  }

  lemma FlatAppend(a: seq<seq<Byte>>, v: seq<Byte>)
    ensures Flat(a + [v]) == Flat(a) + v
  {
    assert (a + [v])[..|a|] == a;
  }

  lemma {:induction false} FlatSplit(a: seq<seq<Byte>>, b: seq<seq<Byte>>)
    ensures Flat(a + b) == Flat(a) + Flat(b)
    decreases |b|
  {
    if b == [] {
      assert a + b == a;
    } else {
      var front, last := b[..|b| - 1], b[|b| - 1];
      FlatSplit(a, front);
      FlatLast(a, b, front, last);
      Associative(Flat(a), Flat(front), last);
    }
  }

  lemma FlatLast(a: seq<seq<Byte>>, b: seq<seq<Byte>>, front: seq<seq<Byte>>, last: seq<Byte>)
    requires b == front + [last]
    ensures Flat(a + b) == Flat(a + front) + last && Flat(b) == Flat(front) + last
  {
    FlatAppend(a + front, last);
    FlatAppend(front, last);
    assert a + b == a + front + [last];
  }

  lemma Associative(x: seq<Byte>, y: seq<Byte>, z: seq<Byte>)
    ensures x + y + z == x + (y + z)
  {}
}
