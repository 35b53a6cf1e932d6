/** The drivers built on the chunker: `serialize_to_datagrams`,
    `deserialize_datagram` and `deserialize_datagrams` (src/lib.rs:98-188),
    each specified by a function and the properties proved about it. */
module DatagramCodec {
  import opened Base
  import opened Errors
  import opened MessageCodec
  import opened Packing
  import opened Chunker

  // ---------------------------------------------------------------------
  // Serialization
  // ---------------------------------------------------------------------

  /** `m` encodes without error to at most `maxSize` bytes. */
  ghost predicate Admissible<M>(encode: Encoder<M>, m: M, maxSize: nat)
  {
    encode(m).Ok? && |encode(m).value| <= maxSize
  }

  /** `items` are the encodings of `messages`, one for one. */
  ghost predicate Encodes<M>(encode: Encoder<M>, messages: seq<M>, items: seq<Bytes>)
  {
    |messages| == |items| && forall i :: 0 <= i < |messages| ==> encode(messages[i]) == Ok(items[i])
  }

  /** Encoding and size-checking the messages in order, stopping at the first
      message that fails either step: an encode error surfaces as `IoError`,
      an oversized encoding as `ItemSizeTooBig`. */
  function EncodeAll<M>(encode: Encoder<M>, messages: seq<M>, maxSize: nat): Result<seq<Bytes>, DatagramChunkerError>
    decreases |messages|
  {
    if messages == [] then Ok([])
    else
      match EncodeAll(encode, messages[..|messages| - 1], maxSize)
      case Err(e) => Err(e)
      case Ok(items) =>
        match encode(messages[|messages| - 1])
        case Err(e) => Err(IoError(e))
        case Ok(b) => if |b| > maxSize then Err(ItemSizeTooBig) else Ok(items + [b])
  }

  /** The result `serialize_to_datagrams` specifies: the greedy packing of the
      encodings, or the error of the first message that cannot be packed. */
  function Serialize<M>(encode: Encoder<M>, messages: seq<M>, maxSize: nat): Result<seq<Bytes>, DatagramChunkerError>
  {
    match EncodeAll(encode, messages, maxSize)
    case Err(e) => Err(e)
    case Ok(items) => Ok(Packed(items, maxSize))
  }

  /** Once a prefix of the messages fails, the whole run fails with the same
      error: later messages are never looked at. */
  lemma {:induction false} EncodeAllErrPersists<M>(encode: Encoder<M>, messages: seq<M>, k: nat, maxSize: nat)
    requires k <= |messages|
    requires EncodeAll(encode, messages[..k], maxSize).Err?
    ensures EncodeAll(encode, messages, maxSize) == EncodeAll(encode, messages[..k], maxSize)
    decreases |messages|
  {
    if k == |messages| {
      assert messages[..k] == messages;
    } else {
      var init := messages[..|messages| - 1];
      assert init[..k] == messages[..k];
      EncodeAllErrPersists(encode, init, k, maxSize);
    }
  }

  /** The encoding run succeeds exactly when every message is admissible, and
      then yields the encodings in order, each of them fitting. */
  lemma {:induction false} EncodeAllOk<M>(encode: Encoder<M>, messages: seq<M>, maxSize: nat)
    ensures EncodeAll(encode, messages, maxSize).Ok? <==>
      forall i :: 0 <= i < |messages| ==> Admissible(encode, messages[i], maxSize)
    ensures EncodeAll(encode, messages, maxSize).Ok? ==>
      && Encodes(encode, messages, EncodeAll(encode, messages, maxSize).value)
      && Fits(EncodeAll(encode, messages, maxSize).value, maxSize)
    decreases |messages|
  {
    if messages != [] {
      var init := messages[..|messages| - 1];
      EncodeAllOk(encode, init, maxSize);
      assert forall i :: 0 <= i < |init| ==> init[i] == messages[i];
    }
  }

  /** Fail fast: when every message before `i` is admissible and message `i`
      is not, the run fails with message `i`'s error, whatever follows. */
  lemma EncodeAllFirstFailure<M>(encode: Encoder<M>, messages: seq<M>, i: nat, maxSize: nat)
    requires i < |messages|
    requires forall j :: 0 <= j < i ==> Admissible(encode, messages[j], maxSize)
    requires !Admissible(encode, messages[i], maxSize)
    ensures EncodeAll(encode, messages, maxSize) ==
      if encode(messages[i]).Err? then Err(IoError(encode(messages[i]).error)) else Err(ItemSizeTooBig)
  {
    var prefix := messages[..i + 1];
    assert prefix[..i] == messages[..i];
    EncodeAllOk(encode, messages[..i], maxSize);
    EncodeAllErrPersists(encode, messages, i + 1, maxSize);
  }

  /** The encodings of messages all of which encode. */
  function Encodings<M>(encode: Encoder<M>, messages: seq<M>): seq<Bytes>
    requires forall i :: 0 <= i < |messages| ==> encode(messages[i]).Ok?
  {
    seq(|messages|, i requires 0 <= i < |messages| => encode(messages[i]).value)
  }

  lemma EncodingsEncode<M>(encode: Encoder<M>, messages: seq<M>)
    requires forall i :: 0 <= i < |messages| ==> encode(messages[i]).Ok?
    ensures Encodes(encode, messages, Encodings(encode, messages))
  {
  }

  /** `serialize_to_datagrams` succeeds exactly when every message encodes to
      at most `maxSize` bytes; then its datagrams are the greedy packing of the
      encodings: none empty, none over `maxSize`, holding the encoded bytes in
      message order. */
  lemma SerializeOk<M>(encode: Encoder<M>, messages: seq<M>, maxSize: nat)
    ensures Serialize(encode, messages, maxSize).Ok? <==>
      forall i :: 0 <= i < |messages| ==> Admissible(encode, messages[i], maxSize)
    ensures Serialize(encode, messages, maxSize).Ok? ==>
      && Serialize(encode, messages, maxSize).value == Packed(Encodings(encode, messages), maxSize)
      && (forall k :: 0 <= k < |Serialize(encode, messages, maxSize).value| ==>
            0 < |Serialize(encode, messages, maxSize).value[k]| <= maxSize)
      && Concat(Serialize(encode, messages, maxSize).value) == Concat(Encodings(encode, messages))
  {
    EncodeAllOk(encode, messages, maxSize);
    var r := EncodeAll(encode, messages, maxSize);
    if r.Ok? {
      assert r.value == Encodings(encode, messages);
      PackedDatagrams(r.value, maxSize);
    }
  }

  /** `serialize_to_datagrams`: encode each message and push it into a new
      chunker, returning at the first error; then finalize. */
  method SerializeToDatagrams<M>(encode: Encoder<M>, messages: seq<M>, maxDatagramSize: nat)
    returns (r: Result<seq<Bytes>, DatagramChunkerError>)
    ensures r == Serialize(encode, messages, maxDatagramSize)
    ensures messages == [] ==> r == Ok([])
  {
    var chunker := new DatagramChunker(maxDatagramSize);
    for i := 0 to |messages|
      invariant chunker.Valid() && chunker.maxSize == maxDatagramSize
      invariant EncodeAll(encode, messages[..i], maxDatagramSize) == Ok(chunker.pushed)
    {
      assert messages[..i + 1][..i] == messages[..i];
      var encoded := encode(messages[i]);
      if encoded.Err? {
        r := Err(IoError(encoded.error));
        EncodeAllErrPersists(encode, messages, i + 1, maxDatagramSize);
        return;
      }
      var pushed := chunker.Push(encoded.value);
      if pushed.Err? {
        r := Err(pushed.error);
        EncodeAllErrPersists(encode, messages, i + 1, maxDatagramSize);
        return;
      }
    }
    assert messages[..|messages|] == messages;
    var datagrams := chunker.Finalize();
    r := Ok(datagrams);
  }

  /** The scenario of three messages encoding to 500 bytes each under a
      1000-byte limit: two datagrams, the first holding messages 1 and 2 (an
      exact fit), the second message 3. */
  lemma ThreeHalfSizeMessages<M>(encode: Encoder<M>, m1: M, m2: M, m3: M, e1: Bytes, e2: Bytes, e3: Bytes)
    requires encode(m1) == Ok(e1) && encode(m2) == Ok(e2) && encode(m3) == Ok(e3)
    requires |e1| == 500 && |e2| == 500 && |e3| == 500
    ensures Serialize(encode, [m1, m2, m3], 1000) == Ok([e1 + e2, e3])
  {
    var ms := [m1, m2, m3];
    assert EncodeAll(encode, [m1], 1000) == Ok([e1]) by {
      assert [m1][..0] == [];
      assert [] + [e1] == [e1];
    }
    assert EncodeAll(encode, [m1, m2], 1000) == Ok([e1, e2]) by {
      assert [m1, m2][..1] == [m1];
      assert [e1] + [e2] == [e1, e2];
    }
    assert EncodeAll(encode, ms, 1000) == Ok([e1, e2, e3]) by {
      assert ms[..2] == [m1, m2];
      assert [e1, e2] + [e3] == [e1, e2, e3];
    }
    var items := [e1, e2, e3];
    assert items[..2] == [e1, e2] && items[..2][..1] == [e1] && [e1][..0] == [];
    ConcatOne(e1);
    ConcatAppend([e1], [e2]);
    ConcatOne(e2);
    ConcatOne(e3);
    assert Pack([e1], 1000) == PackState([], [e1]);
    assert Pack([e1, e2], 1000) == PackState([], [e1, e2]);
    assert Pack(items, 1000) == PackState([[e1, e2]], [e3]);
    assert Concat([e1, e2]) == e1 + e2;
    assert Finish(PackState([[e1, e2]], [e3])) == [[e1, e2], [e3]];
    assert Datagrams([[e1, e2], [e3]]) == [e1 + e2, e3];
    assert Packed(items, 1000) == [e1 + e2, e3];
  }

  /** Messages whose encodings together fit in one datagram, and are not all
      empty, come out as exactly one datagram holding all of them in order. */
  lemma AllFitInOne<M>(encode: Encoder<M>, messages: seq<M>, maxSize: nat)
    requires forall i :: 0 <= i < |messages| ==> encode(messages[i]).Ok?
    requires 0 < |Concat(Encodings(encode, messages))| <= maxSize
    ensures Serialize(encode, messages, maxSize) == Ok([Concat(Encodings(encode, messages))])
  {
    var items := Encodings(encode, messages);
    EncodingsEncode(encode, messages);
    assert forall i :: 0 <= i < |items| ==> |items[i]| <= maxSize by {
      forall i | 0 <= i < |items| ensures |items[i]| <= maxSize {
        assert items == items[..i] + [items[i]] + items[i + 1..];
        ConcatAppend(items[..i] + [items[i]], items[i + 1..]);
        ConcatAppend(items[..i], [items[i]]);
        ConcatOne(items[i]);
      }
    }
    SerializeOk(encode, messages, maxSize);
    PackFitsInOne(items, maxSize);
    assert Finish(Pack(items, maxSize)) == [items] by {
      assert [] + [items] == [items];
    }
    DatagramsAt([items]);
    assert Datagrams([items]) == [Concat(items)];
  }

  // ---------------------------------------------------------------------
  // Deserialization
  // ---------------------------------------------------------------------

  /** `deserialize_datagram` specified: decode messages one after the other
      until the bytes are used up; the first decode error is the result. */
  function DecodeAll<M>(decode: Decoder<M>, buf: Bytes): Result<seq<M>, IoFailure>
    requires ConsumesInput(decode)
    decreases |buf|
  {
    if buf == [] then Ok([])
    else
      match decode(buf)
      case Err(e) => Err(e)
      case Ok((m, k)) => Prepend([m], DecodeAll(decode, buf[k..]))
  }

  /** `deserialize_datagram`: a cursor over `buf`; while it has not reached
      the end, decode one message from it and collect it. */
  method DeserializeDatagram<M>(decode: Decoder<M>, buf: Bytes) returns (r: Result<seq<M>, IoFailure>)
    requires ConsumesInput(decode)
    ensures r == DecodeAll(decode, buf)
    ensures buf == [] ==> r == Ok([])
  {
    var messages: seq<M> := [];
    var pos := 0;
    assert buf[pos..] == buf;
    PrependNil(DecodeAll(decode, buf));
    while pos < |buf|
      invariant pos <= |buf|
      invariant DecodeAll(decode, buf) == Prepend(messages, DecodeAll(decode, buf[pos..]))
      decreases |buf| - pos
    {
      var decoded := decode(buf[pos..]);
      if decoded.Err? {
        return Err(decoded.error);
      }
      var (m, k) := decoded.value;
      assert buf[pos..][k..] == buf[pos + k..];
      PrependPrepend(messages, [m], DecodeAll(decode, buf[pos + k..]));
      messages := messages + [m];
      pos := pos + k;
    }
    assert buf[pos..] == [];
    assert messages + [] == messages;
    r := Ok(messages);
  }

  /** `deserialize_datagrams` specified: the messages of each datagram, in
      datagram order; the first datagram that fails decides the error. */
  function DecodeDatagrams<M>(decode: Decoder<M>, datagrams: seq<Bytes>): Result<seq<M>, IoFailure>
    requires ConsumesInput(decode)
    decreases |datagrams|
  {
    if datagrams == [] then Ok([])
    else
      match DecodeAll(decode, datagrams[0])
      case Err(e) => Err(e)
      case Ok(ms) => Prepend(ms, DecodeDatagrams(decode, datagrams[1..]))
  }

  /** `deserialize_datagrams`: deserialize each datagram in turn and extend
      the collected messages, returning at the first error. */
  method DeserializeDatagrams<M>(decode: Decoder<M>, datagrams: seq<Bytes>) returns (r: Result<seq<M>, IoFailure>)
    requires ConsumesInput(decode)
    ensures r == DecodeDatagrams(decode, datagrams)
  {
    var allMessages: seq<M> := [];
    assert datagrams[0..] == datagrams;
    PrependNil(DecodeDatagrams(decode, datagrams));
    for i := 0 to |datagrams|
      invariant DecodeDatagrams(decode, datagrams) == Prepend(allMessages, DecodeDatagrams(decode, datagrams[i..]))
    {
      var messages := DeserializeDatagram(decode, datagrams[i]);
      assert datagrams[i..][1..] == datagrams[i + 1..];
      if messages.Err? {
        return Err(messages.error);
      }
      PrependPrepend(allMessages, messages.value, DecodeDatagrams(decode, datagrams[i + 1..]));
      allMessages := allMessages + messages.value;
    }
    assert datagrams[|datagrams|..] == [];
    assert allMessages + [] == allMessages;
    r := Ok(allMessages);
  }

  /** Decoding `a + b` is decoding `a`, then `b`: it fails with the error of
      `a` if `a` fails, and otherwise appends the messages of `b`. */
  lemma {:induction false} DecodeDatagramsAppend<M>(decode: Decoder<M>, a: seq<Bytes>, b: seq<Bytes>)
    requires ConsumesInput(decode)
    ensures DecodeDatagrams(decode, a + b) ==
      match DecodeDatagrams(decode, a)
      case Err(e) => Err(e)
      case Ok(ms) => Prepend(ms, DecodeDatagrams(decode, b))
    decreases |a|
  {
    if a == [] {
      assert a + b == b;
      assert Prepend([], DecodeDatagrams(decode, b)) == DecodeDatagrams(decode, b) by {
        if DecodeDatagrams(decode, b).Ok? {
          assert [] + DecodeDatagrams(decode, b).value == DecodeDatagrams(decode, b).value;
        }
      }
    } else {
      assert (a + b)[0] == a[0];
      assert (a + b)[1..] == a[1..] + b;
      DecodeDatagramsAppend(decode, a[1..], b);
      var first := DecodeAll(decode, a[0]);
      if first.Ok? {
        var rest := DecodeDatagrams(decode, a[1..]);
        if rest.Ok? {
          PrependPrepend(first.value, rest.value, DecodeDatagrams(decode, b));
        }
      }
    }
  }

  /** A first datagram that decodes puts its messages in front of the rest. */
  lemma DecodeDatagramsCons<M>(decode: Decoder<M>, d: Bytes, ds: seq<Bytes>)
    requires ConsumesInput(decode)
    requires DecodeAll(decode, d).Ok?
    ensures DecodeDatagrams(decode, [d] + ds) == Prepend(DecodeAll(decode, d).value, DecodeDatagrams(decode, ds))
  {
    assert ([d] + ds)[0] == d;
    assert ([d] + ds)[1..] == ds;
  }

  /** An empty datagram contributes nothing: dropping it does not change the
      result. */
  lemma EmptyDatagramContributesNothing<M>(decode: Decoder<M>, datagrams: seq<Bytes>, i: nat)
    requires ConsumesInput(decode)
    requires i < |datagrams| && datagrams[i] == []
    ensures DecodeDatagrams(decode, datagrams) == DecodeDatagrams(decode, datagrams[..i] + datagrams[i + 1..])
  {
    var a, b := datagrams[..i], datagrams[i + 1..];
    assert datagrams == a + ([datagrams[i]] + b);
    DecodeDatagramsAppend(decode, a, [datagrams[i]] + b);
    DecodeDatagramsAppend(decode, a, b);
    assert ([datagrams[i]] + b)[1..] == b;
    var rb := DecodeDatagrams(decode, b);
    if rb.Ok? {
      assert [] + rb.value == rb.value;
    }
  }

  /** `deserialize_datagrams` succeeds exactly when every datagram decodes. */
  lemma {:induction false} DecodeDatagramsOk<M>(decode: Decoder<M>, datagrams: seq<Bytes>)
    requires ConsumesInput(decode)
    ensures DecodeDatagrams(decode, datagrams).Ok? <==>
      forall i :: 0 <= i < |datagrams| ==> DecodeAll(decode, datagrams[i]).Ok?
    decreases |datagrams|
  {
    if datagrams != [] {
      DecodeDatagramsOk(decode, datagrams[1..]);
      assert forall i :: 1 <= i < |datagrams| ==> datagrams[i] == datagrams[1..][i - 1];
    }
  }

  /** Fail fast: when every datagram before `i` decodes and datagram `i` does
      not, the whole call fails with datagram `i`'s error, whatever follows. */
  lemma DecodeDatagramsFirstFailure<M>(decode: Decoder<M>, datagrams: seq<Bytes>, i: nat)
    requires ConsumesInput(decode)
    requires i < |datagrams|
    requires forall j :: 0 <= j < i ==> DecodeAll(decode, datagrams[j]).Ok?
    requires DecodeAll(decode, datagrams[i]).Err?
    ensures DecodeDatagrams(decode, datagrams) == Err(DecodeAll(decode, datagrams[i]).error)
  {
    var a, b := datagrams[..i], datagrams[i..];
    assert datagrams == a + b;
    DecodeDatagramsOk(decode, a);
    DecodeDatagramsAppend(decode, a, b);
  }

  // ---------------------------------------------------------------------
  // Round trip
  // ---------------------------------------------------------------------

  /** Decoding the concatenated encodings of some messages gives them back. */
  lemma {:induction false} DecodeEncodings<M(!new)>(encode: Encoder<M>, decode: Decoder<M>, messages: seq<M>, items: seq<Bytes>)
    requires ConsumesInput(decode) && SelfDelimiting(encode, decode)
    requires Encodes(encode, messages, items)
    ensures DecodeAll(decode, Concat(items)) == Ok(messages)
    decreases |items|
  {
    if items != [] {
      var m, b, rest := messages[0], items[0], Concat(items[1..]);
      assert Encodes(encode, messages[1..], items[1..]);
      DecodeEncodings(encode, decode, messages[1..], items[1..]);
      EncodingNonEmpty(encode, decode, m);
      assert Concat(items) == b + rest;
      assert decode(b + rest) == Ok((m, |b|));
      assert (b + rest)[|b|..] == rest;
      assert [m] + messages[1..] == messages;
    } else {
      assert Concat(items) == [];
    }
  }

  /** The encodings of some messages, cut in two, are the encodings of the
      two runs of messages. */
  lemma EncodesSplit<M>(encode: Encoder<M>, messages: seq<M>, a: seq<Bytes>, b: seq<Bytes>)
    requires Encodes(encode, messages, a + b)
    ensures Encodes(encode, messages[..|a|], a)
    ensures Encodes(encode, messages[|a|..], b)
  {
    assert forall i :: 0 <= i < |a| ==> (a + b)[i] == a[i];
    assert forall i :: 0 <= i < |b| ==> (a + b)[|a| + i] == b[i];
  }

  /** Decoding datagrams made of whole encodings gives the messages back. */
  lemma {:induction false} DecodeGroups<M(!new)>(encode: Encoder<M>, decode: Decoder<M>, messages: seq<M>, groups: seq<seq<Bytes>>)
    requires ConsumesInput(decode) && SelfDelimiting(encode, decode)
    requires Encodes(encode, messages, Concat(groups))
    ensures DecodeDatagrams(decode, Datagrams(groups)) == Ok(messages)
    decreases |groups|
  {
    if groups != [] {
      var g, k := groups[0], |groups[0]|;
      assert Concat(groups) == g + Concat(groups[1..]);
      EncodesSplit(encode, messages, g, Concat(groups[1..]));
      DecodeEncodings(encode, decode, messages[..k], g);
      DecodeGroups(encode, decode, messages[k..], groups[1..]);
      DatagramsCons(groups);
      DecodeDatagramsCons(decode, Concat(g), Datagrams(groups[1..]));
      assert messages[..k] + messages[k..] == messages;
    } else {
      assert Datagrams(groups) == [];
    }
  }

  /** Round trip: with a self-delimiting codec, whatever
      `serialize_to_datagrams` produces, `deserialize_datagrams` turns back
      into the original messages, in order. */
  lemma RoundTrip<M(!new)>(encode: Encoder<M>, decode: Decoder<M>, messages: seq<M>, maxSize: nat)
    requires ConsumesInput(decode) && SelfDelimiting(encode, decode)
    requires Serialize(encode, messages, maxSize).Ok?
    ensures DecodeDatagrams(decode, Serialize(encode, messages, maxSize).value) == Ok(messages)
  {
    EncodeAllOk(encode, messages, maxSize);
    var items := EncodeAll(encode, messages, maxSize).value;
    PackedDatagrams(items, maxSize);
    var g := Finish(Pack(items, maxSize));
    if |Concat(g)| < |items| {
      EncodingNonEmpty(encode, decode, messages[|Concat(g)|]);
      assert false;
    }
    assert Concat(g) == items;
    DecodeGroups(encode, decode, messages, g);
  }
}
