/** The greedy single-pass packing that `DatagramChunker` performs, stated on
    whole items so that "no item is split" can be said at all. */
module Packing {
  import opened Base

  /** Every item is at most `maxSize` bytes long: those are the items `push`
      accepts. */
  ghost predicate Fits(items: seq<Bytes>, maxSize: nat)
  {
    forall i :: 0 <= i < |items| ==> |items[i]| <= maxSize
  }

  /** The chunker's state in terms of the items pushed: `sealed` holds, per
      datagram already moved to `datagrams`, the items it was made of, and
      `open` the items whose bytes make up `current`. */
  datatype PackState = PackState(sealed: seq<seq<Bytes>>, open: seq<Bytes>)

  /** One accepted push: when the item does not fit behind `current` (the
      test is `>`, so an exact fit is appended), `current` is sealed and a
      new buffer holds exactly the item; otherwise the item is appended. */
  function Place(s: PackState, item: Bytes, maxSize: nat): PackState
  {
    if |Concat(s.open)| + |item| > maxSize then PackState(s.sealed + [s.open], [item])
    else PackState(s.sealed, s.open + [item])
  }

  /** The state after pushing `items` in order into a new chunker. */
  function Pack(items: seq<Bytes>, maxSize: nat): PackState
    decreases |items|
  {
    if items == [] then PackState([], [])
    else Place(Pack(items[..|items| - 1], maxSize), items[|items| - 1], maxSize)
  }

  /** `finalize` in terms of items: the open group becomes the last datagram
      only if it holds some bytes. */
  function Finish(s: PackState): seq<seq<Bytes>>
  {
    if Concat(s.open) == [] then s.sealed else s.sealed + [s.open]
  }

  /** The bytes of each group of items. */
  function Datagrams(groups: seq<seq<Bytes>>): seq<Bytes>
  {
    seq(|groups|, i requires 0 <= i < |groups| => Concat(groups[i]))
  }

  lemma DatagramsAt(groups: seq<seq<Bytes>>)
    ensures |Datagrams(groups)| == |groups|
    ensures forall i :: 0 <= i < |groups| ==> Datagrams(groups)[i] == Concat(groups[i])
  {
  }

  lemma DatagramsCons(groups: seq<seq<Bytes>>)
    requires groups != []
    ensures Datagrams(groups) == [Concat(groups[0])] + Datagrams(groups[1..])
  {
  }

  /** What a chunker fed with `items` and then finalized returns. */
  function Packed(items: seq<Bytes>, maxSize: nat): seq<Bytes>
  {
    Datagrams(Finish(Pack(items, maxSize)))
  }

  /** The group that follows sealed group `i`. */
  function Following(s: PackState, i: nat): seq<Bytes>
    requires i < |s.sealed|
  {
    if i + 1 < |s.sealed| then s.sealed[i + 1] else s.open
  }

  /** Capacity: sealed groups are non-empty and fit, and so does `open`. */
  ghost predicate Bounded(s: PackState, maxSize: nat)
  {
    && (forall i :: 0 <= i < |s.sealed| ==> 0 < |Concat(s.sealed[i])| <= maxSize)
    && |Concat(s.open)| <= maxSize
  }

  /** Greediness: a group was sealed only because the first item of the next
      group did not fit behind it. */
  ghost predicate Greedy(s: PackState, maxSize: nat)
  {
    forall i :: 0 <= i < |s.sealed| ==>
      Following(s, i) != [] && |Concat(s.sealed[i])| + |Following(s, i)[0]| > maxSize
  }

  lemma PlaceBounded(s: PackState, item: Bytes, maxSize: nat)
    requires Bounded(s, maxSize) && |item| <= maxSize
    ensures Bounded(Place(s, item, maxSize), maxSize)
  {
    var t := Place(s, item, maxSize);
    if |Concat(s.open)| + |item| > maxSize {
      ConcatOne(item);
      assert forall i :: 0 <= i < |s.sealed| ==> t.sealed[i] == s.sealed[i];
    } else {
      ConcatAppend(s.open, [item]);
      ConcatOne(item);
    }
  }

  lemma PlaceGreedy(s: PackState, item: Bytes, maxSize: nat)
    requires Greedy(s, maxSize) && (s.sealed != [] ==> s.open != [])
    ensures Greedy(Place(s, item, maxSize), maxSize)
    ensures Place(s, item, maxSize).open != []
  {
    var t := Place(s, item, maxSize);
    if |Concat(s.open)| + |item| > maxSize {
      forall i | 0 <= i < |t.sealed|
        ensures Following(t, i) != [] && |Concat(t.sealed[i])| + |Following(t, i)[0]| > maxSize
      {
        if i + 1 < |s.sealed| {
          assert Following(t, i) == Following(s, i);
        } else if i + 1 == |s.sealed| {
          assert Following(t, i) == s.open == Following(s, i);
        }
      }
    } else {
      forall i | 0 <= i < |t.sealed|
        ensures Following(t, i) != [] && |Concat(t.sealed[i])| + |Following(t, i)[0]| > maxSize
      {
        if i + 1 == |s.sealed| {
          assert Following(t, i) == s.open + [item];
          assert Following(t, i)[0] == Following(s, i)[0];
        }
      }
    }
  }

  /** The items, in order and undivided, are the sealed groups followed by the
      open group; every group fits; a group was sealed only when the next item
      did not fit behind it. */
  lemma {:induction false} PackInvariant(items: seq<Bytes>, maxSize: nat)
    requires Fits(items, maxSize)
    ensures Concat(Pack(items, maxSize).sealed) + Pack(items, maxSize).open == items
    ensures Bounded(Pack(items, maxSize), maxSize)
    ensures Greedy(Pack(items, maxSize), maxSize)
    ensures items != [] ==> Pack(items, maxSize).open != []
    decreases |items|
  {
    if items != [] {
      var init, last := items[..|items| - 1], items[|items| - 1];
      assert init + [last] == items;
      PackInvariant(init, maxSize);
      var s := Pack(init, maxSize);
      PlaceBounded(s, last, maxSize);
      PlaceGreedy(s, last, maxSize);
      if |Concat(s.open)| + |last| > maxSize {
        ConcatAppend(s.sealed, [s.open]);
        ConcatOne(s.open);
      }
    }
  }

  /** Items whose bytes fit in one datagram all stay in `current`: nothing is
      sealed. */
  lemma {:induction false} PackFitsInOne(items: seq<Bytes>, maxSize: nat)
    requires |Concat(items)| <= maxSize
    ensures Pack(items, maxSize) == PackState([], items)
    decreases |items|
  {
    if items != [] {
      var init, last := items[..|items| - 1], items[|items| - 1];
      assert init + [last] == items;
      ConcatAppend(init, [last]);
      ConcatOne(last);
      PackFitsInOne(init, maxSize);
    }
  }

  /** The datagrams of groups hold the bytes of the groups' items, in order. */
  lemma {:induction false} ConcatDatagrams(groups: seq<seq<Bytes>>)
    ensures Concat(Datagrams(groups)) == Concat(Concat(groups))
    decreases |groups|
  {
    if groups != [] {
      assert Datagrams(groups)[1..] == Datagrams(groups[1..]);
      ConcatDatagrams(groups[1..]);
      assert Concat(groups) == groups[0] + Concat(groups[1..]);
      ConcatAppend(groups[0], Concat(groups[1..]));
    }
  }

  /** `Finish` keeps the items up to trailing empty ones, and their bytes. */
  lemma FinishCovers(s: PackState, items: seq<Bytes>)
    requires Concat(s.sealed) + s.open == items
    ensures Concat(Finish(s)) <= items
    ensures forall j :: |Concat(Finish(s))| <= j < |items| ==> items[j] == []
    ensures Concat(Concat(Finish(s))) == Concat(items)
  {
    ConcatAppend(s.sealed, [s.open]);
    ConcatOne(s.open);
    if Concat(s.open) == [] {
      var c := Concat(s.sealed);
      ConcatEmpty(s.open);
      assert forall j :: |c| <= j < |items| ==> items[j] == s.open[j - |c|];
      ConcatAppend(c, s.open);
    }
  }

  /** `Finish` of a bounded state: every datagram holds some bytes and fits. */
  lemma FinishBounded(s: PackState, maxSize: nat)
    requires Bounded(s, maxSize)
    ensures forall i :: 0 <= i < |Finish(s)| ==> 0 < |Concat(Finish(s)[i])| <= maxSize
  {
  }

  /** `Finish` of a greedy state: datagram `i` was closed only because the
      first item of the next one did not fit behind it. */
  lemma FinishGreedy(s: PackState, maxSize: nat, i: nat)
    requires Greedy(s, maxSize) && i + 1 < |Finish(s)|
    ensures Finish(s)[i + 1] != [] && |Concat(Finish(s)[i])| + |Finish(s)[i + 1][0]| > maxSize
  {
    assert Finish(s)[i] == s.sealed[i] && Following(s, i) == Finish(s)[i + 1];
  }

  /** The output of `finalize` after pushing `items`: no datagram is empty or
      longer than `maxSize`; the datagrams hold the bytes of the items in push
      order; each datagram is made of whole consecutive items, so no item is
      split, and only empty items at the very end go unplaced; a datagram is
      closed only because the next item did not fit behind it. */
  lemma PackedDatagrams(items: seq<Bytes>, maxSize: nat)
    requires Fits(items, maxSize)
    ensures var ds := Packed(items, maxSize);
      forall i :: 0 <= i < |ds| ==> 0 < |ds[i]| <= maxSize
    ensures Concat(Packed(items, maxSize)) == Concat(items)
    ensures var g := Finish(Pack(items, maxSize));
      && Concat(g) <= items
      && (forall j :: |Concat(g)| <= j < |items| ==> items[j] == [])
      && (forall i :: 0 <= i < |g| ==> Packed(items, maxSize)[i] == Concat(g[i]))
    ensures var g := Finish(Pack(items, maxSize));
      forall i :: 0 <= i < |g| - 1 ==> g[i + 1] != [] && |Packed(items, maxSize)[i]| + |g[i + 1][0]| > maxSize
  {
    PackInvariant(items, maxSize);
    var s := Pack(items, maxSize);
    var g := Finish(s);
    FinishCovers(s, items);
    FinishBounded(s, maxSize);
    DatagramsAt(g);
    ConcatDatagrams(g);
    forall i | 0 <= i < |g| - 1
      ensures g[i + 1] != [] && |Packed(items, maxSize)[i]| + |g[i + 1][0]| > maxSize
    {
      FinishGreedy(s, maxSize, i);
    }
  }
}
