/** `DatagramChunker` (src/lib.rs:38-90): the stateful accumulator. */
module Chunker {
  import opened Base
  import opened Errors
  import opened Packing

  class DatagramChunker {
    /** The sealed datagrams, in emission order. */
    var datagrams: seq<Bytes>
    /** The datagram being filled. */
    var current: Bytes
    /** The capacity of every datagram, in bytes; set once by `new`. */
    const maxSize: nat
    /** The items accepted so far, in push order. */
    ghost var pushed: seq<Bytes>

    /** The fields are the greedy packing of the accepted items. */
    ghost predicate Valid()
      reads this
    {
      && Fits(pushed, maxSize)
      && datagrams == Datagrams(Pack(pushed, maxSize).sealed)
      && current == Concat(Pack(pushed, maxSize).open)
    }

    /** Capacity bound and no empty datagram, on the fields themselves. */
    ghost predicate WithinCapacity()
      reads this
    {
      && |current| <= maxSize
      && forall i :: 0 <= i < |datagrams| ==> 0 < |datagrams[i]| <= maxSize
    }

    lemma ValidWithinCapacity()
      requires Valid()
      ensures WithinCapacity()
    {
      PackInvariant(pushed, maxSize);
    }

    /** `new`: no datagram, an empty current buffer. No lower bound on the
        capacity is demanded. */
    constructor (maxSize: nat)
      ensures Valid()
      ensures this.maxSize == maxSize
      ensures datagrams == [] && current == [] && pushed == []
    {
      this.maxSize := maxSize;
      datagrams := [];
      current := [];
      pushed := [];
    }

    /** `push`: an item longer than `maxSize` is refused and nothing changes;
        an item that does not fit behind `current` seals `current` and becomes
        the new `current` on its own; any other item, an exact fit included,
        is appended to `current`. */
    method Push(buf: Bytes) returns (r: Result<(), DatagramChunkerError>)
      requires Valid()
      modifies this
      ensures Valid() && WithinCapacity()
      ensures |buf| > maxSize ==>
        && r == Err(ItemSizeTooBig)
        && datagrams == old(datagrams) && current == old(current) && pushed == old(pushed)
      ensures |buf| <= maxSize ==> r == Ok(()) && pushed == old(pushed) + [buf]
      ensures |buf| <= maxSize && |old(current)| + |buf| > maxSize ==>
        datagrams == old(datagrams) + [old(current)] && current == buf
      ensures |buf| <= maxSize && |old(current)| + |buf| <= maxSize ==>
        datagrams == old(datagrams) && current == old(current) + buf
    {
      if |buf| > maxSize {
        ValidWithinCapacity();
        return Err(ItemSizeTooBig);
      }
      ghost var s := Pack(pushed, maxSize);
      if |current| + |buf| > maxSize {
        datagrams := datagrams + [current];
        current := buf;
        assert Datagrams(s.sealed + [s.open]) == Datagrams(s.sealed) + [Concat(s.open)];
        ConcatOne(buf);
      } else {
        current := current + buf;
        ConcatAppend(s.open, [buf]);
        ConcatOne(buf);
      }
      pushed := pushed + [buf];
      assert pushed[..|pushed| - 1] == old(pushed);
      ValidWithinCapacity();
      r := Ok(());
    }

    /** `finalize`: the sealed datagrams, followed by `current` when it holds
        any bytes. The result is the greedy packing of the accepted items. */
    method Finalize() returns (r: seq<Bytes>)
      requires Valid()
      ensures r == Packed(pushed, maxSize)
      ensures r == if current == [] then datagrams else datagrams + [current]
      ensures forall i :: 0 <= i < |r| ==> 0 < |r[i]| <= maxSize
    {
      r := datagrams;
      if current != [] {
        r := r + [current];
      }
      ghost var s := Pack(pushed, maxSize);
      assert Datagrams(s.sealed + [s.open]) == Datagrams(s.sealed) + [Concat(s.open)];
      PackedDatagrams(pushed, maxSize);
    }
  }
}
