module Wrappers {

  newtype Byte = x: int | 0 <= x < 256

  function Max(a: nat, b: nat): nat { if a < b then b else a }

  function Min(a: nat, b: nat): nat { if a < b then a else b }

  datatype Option<+T> = None | Some(value: T)

  /** The bytes with some of them replaced. */
  function Overwrite(bytes: seq<Byte>, at: nat, data: seq<Byte>): (r: seq<Byte>)
    requires at + |data| <= |bytes|
    ensures |r| == |bytes|
  {
    bytes[..at] + data + bytes[at + |data|..]
  }

  lemma OverwriteAt(bytes: seq<Byte>, at: nat, data: seq<Byte>, i: nat)
    requires at + |data| <= |bytes| && i < |bytes|
    ensures Overwrite(bytes, at, data)[i] == if at <= i < at + |data| then data[i - at] else bytes[i]
  {}

  lemma {:induction false} Above(s: set<nat>) returns (n: nat)
    ensures forall x <- s :: x < n
  {
    if s == {} {
      n := 0;
    } else {
      var x :| x in s;
      var m := Above(s - {x});
      n := if x < m then m else x + 1;
      assert forall y <- s :: y == x || y in s - {x};
    }
  }

  /** Some number is not yet a key: an allocator has a frame to give. */
  lemma SpareExists<T>(m: map<nat, T>)
    ensures exists n: nat :: n !in m
  {
    var bound := Above(m.Keys);
    assert bound !in m;
  }
}
