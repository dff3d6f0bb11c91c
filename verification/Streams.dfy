/** Byte streams, the blocks they travel in, and the byte FIFO every filter buffers with. */
module Streams {

  type byte = x: int | 0 <= x < 256
  type Block = seq<byte>

  datatype Option<+T> = None | Some(value: T)

  function Zeros(n: nat): (z: Block)
    ensures |z| == n
    ensures forall i :: 0 <= i < n ==> z[i] == 0
  {
    seq(n, _ => 0)
  }

  ghost predicate AllZero(b: Block) {
    forall i :: 0 <= i < |b| ==> b[i] == 0
  }

  /** The stream carried by a queue of blocks. */
  function Flatten<T>(blocks: seq<seq<T>>): seq<T> {
    if blocks == [] then [] else Flatten(blocks[..|blocks| - 1]) + blocks[|blocks| - 1]
  }

  lemma FlattenSnoc<T>(blocks: seq<seq<T>>, b: seq<T>)
    ensures Flatten(blocks + [b]) == Flatten(blocks) + b
  {
    assert (blocks + [b])[..|blocks|] == blocks;
  }

  lemma {:induction false} FlattenConcat<T>(a: seq<seq<T>>, b: seq<seq<T>>)
    ensures Flatten(a + b) == Flatten(a) + Flatten(b)
  {
    if b == [] {
      assert a + b == a;
    } else {
      var b' := b[..|b| - 1];
      FlattenConcat(a, b');
      assert (a + b)[..|a + b| - 1] == a + b';
    }
  }

  /** C's integer division by two, which truncates toward zero. */
  function Half(x: int): (h: int)
    ensures x >= 0 ==> 2 * h <= x <= 2 * h + 1
    ensures x < 0 ==> 2 * h - 1 <= x <= 2 * h
  {
    if x >= 0 then x / 2 else -((-x) / 2)
  }

  /** The byte FIFO of mediastreamer2: a read is all or nothing. */
  class Bufferizer {
    var bytes: Block

    constructor ()
      ensures bytes == []
    {
      bytes := [];
    }

    method Put(b: Block)
      modifies this
      ensures bytes == old(bytes) + b
    {
      bytes := bytes + b;
    }

    method PutFromQueue(queue: seq<Block>)
      modifies this
      ensures bytes == old(bytes) + Flatten(queue)
    {
      var i := 0;
      while i < |queue|
        invariant 0 <= i <= |queue|
        invariant bytes == old(bytes) + Flatten(queue[..i])
      {
        bytes := bytes + queue[i];
        assert queue[..i + 1][..i] == queue[..i];
        i := i + 1;
      }
      assert queue[..i] == queue;
    }

    /** Returns n and the n oldest bytes, or 0 and nothing when fewer are held. */
    method Read(n: nat) returns (got: nat, data: Block)
      modifies this
      ensures if |old(bytes)| >= n
              then got == n && data == old(bytes)[..n] && bytes == old(bytes)[n..]
              else got == 0 && data == [] && bytes == old(bytes)
    {
      if |bytes| >= n {
        got, data, bytes := n, bytes[..n], bytes[n..];
      } else {
        got, data := 0, [];
      }
    }

    method Flush()
      modifies this
      ensures bytes == []
    {
      bytes := [];
    }
  }
}
