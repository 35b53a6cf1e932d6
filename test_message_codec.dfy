/** A message codec in the layout of the crate's test message
    (tests/datagram_chunker.rs:9-36): a 4-byte id, a 2-byte content length
    and the content bytes. It shows the codec laws can be met, and the
    concrete scenarios of the crate's tests follow from the general lemmas. */
module TestMessageCodec {
  import opened Base
  import opened Errors
  import opened MessageCodec
  import opened DatagramCodec

  type U16 = x: nat | x < 0x1_0000
  type U32 = x: nat | x < 0x1_0000_0000

  /** Content whose length fits the 2-byte length field. */
  type Content = s: Bytes | |s| < 0x1_0000

  datatype TestMessage = TestMessage(id: U32, content: Content)

  /** Big-endian, most significant byte first. */
  function U16Bytes(x: U16): (b: Bytes)
    ensures |b| == 2
  {
    [(x / 0x100) as byte, (x % 0x100) as byte]
  }

  function U16Of(b: Bytes): U16
    requires |b| == 2
  {
    b[0] as nat * 0x100 + b[1] as nat
  }

  function U32Bytes(x: U32): (b: Bytes)
    ensures |b| == 4
  {
    U16Bytes(x / 0x1_0000) + U16Bytes(x % 0x1_0000)
  }

  function U32Of(b: Bytes): U32
    requires |b| == 4
  {
    U16Of(b[..2]) * 0x1_0000 + U16Of(b[2..])
  }

  lemma U16RoundTrip(x: U16)
    ensures U16Of(U16Bytes(x)) == x
  {
  }

  lemma U32RoundTrip(x: U32)
    ensures U32Of(U32Bytes(x)) == x
  {
    var b := U32Bytes(x);
    assert b[..2] == U16Bytes(x / 0x1_0000);
    assert b[2..] == U16Bytes(x % 0x1_0000);
    U16RoundTrip(x / 0x1_0000);
    U16RoundTrip(x % 0x1_0000);
  }

  /** `serialize`: id, content length, content. Writing to a memory stream
      does not fail. */
  function Encode(m: TestMessage): Result<Bytes, IoFailure>
  {
    Ok(U32Bytes(m.id) + U16Bytes(|m.content|) + m.content)
  }

  /** `deserialize`: read the id and the length, then that many content bytes;
      running out of bytes at any of the three reads is an end-of-stream
      error. */
  function Decode(b: Bytes): Result<(TestMessage, nat), IoFailure>
  {
    if |b| < 6 then Err(UnexpectedEof)
    else
      var len := U16Of(b[4..6]);
      if |b| - 6 < len then Err(UnexpectedEof)
      else Ok((TestMessage(U32Of(b[..4]), b[6..6 + len]), 6 + len))
  }

  lemma EncodeLength(m: TestMessage)
    ensures |Encode(m).value| == 6 + |m.content|
  {
  }

  /** The sample codec meets both laws the round trip relies on. */
  lemma CodecLaws()
    ensures ConsumesInput(Decode)
    ensures SelfDelimiting(Encode, Decode)
  {
    forall m: TestMessage, rest: Bytes
      ensures Decode(Encode(m).value + rest) == Ok((m, |Encode(m).value|))
    {
      var e := Encode(m).value;
      var b := e + rest;
      assert b[..4] == U32Bytes(m.id);
      assert b[4..6] == U16Bytes(|m.content|);
      U32RoundTrip(m.id);
      U16RoundTrip(|m.content|);
      assert b[6..6 + |m.content|] == m.content;
    }
  }

  /** Arbitrary bytes that are not an encoding are refused, not decoded
      into a truncated message (tests/datagram_chunker.rs:162-169): the length
      field of [0, 1, 2, 3, 4, 5] announces 1029 content bytes. */
  lemma MalformedDatagramFails()
    ensures ConsumesInput(Decode)
    ensures DecodeAll(Decode, [0, 1, 2, 3, 4, 5]) == Err(UnexpectedEof)
  {
    CodecLaws();
    var b: Bytes := [0, 1, 2, 3, 4, 5];
    assert b[4..6] == [4, 5];
    assert U16Of(b[4..6]) == 1029;
  }

  /** One malformed datagram after a good one makes the whole call fail
      (tests/datagram_chunker.rs:223-248). */
  lemma MalformedSecondDatagramFails(m: TestMessage)
    ensures ConsumesInput(Decode)
    ensures DecodeDatagrams(Decode, [Encode(m).value, [0xff, 0xfe, 0xfd]]) == Err(UnexpectedEof)
  {
    CodecLaws();
    var ds: seq<Bytes> := [Encode(m).value, [0xff, 0xfe, 0xfd]];
    DecodeEncodings(Encode, Decode, [m], [Encode(m).value]);
    ConcatOne(Encode(m).value);
    DecodeDatagramsFirstFailure(Decode, ds, 1);
  }

  /** Three messages of 500 encoded bytes under a 1000-byte limit give two
      datagrams, holding messages 1 and 2, then message 3, and decode back to
      the three messages (tests/datagram_chunker.rs:73-107). */
  lemma ThreeMessagesTwoDatagrams()
    ensures var m1, m2, m3 := TestMessage(1, seq(494, _ => 65)), TestMessage(2, seq(494, _ => 66)),
                              TestMessage(3, seq(494, _ => 67));
      && Serialize(Encode, [m1, m2, m3], 1000) == Ok([Encode(m1).value + Encode(m2).value, Encode(m3).value])
      && ConsumesInput(Decode)
      && DecodeAll(Decode, Encode(m1).value + Encode(m2).value) == Ok([m1, m2])
      && DecodeAll(Decode, Encode(m3).value) == Ok([m3])
      && DecodeDatagrams(Decode, [Encode(m1).value + Encode(m2).value, Encode(m3).value]) == Ok([m1, m2, m3])
  {
    var m1, m2, m3 := TestMessage(1, seq(494, _ => 65)), TestMessage(2, seq(494, _ => 66)),
                      TestMessage(3, seq(494, _ => 67));
    EncodeLength(m1);
    EncodeLength(m2);
    EncodeLength(m3);
    ThreeHalfSizeMessages(Encode, m1, m2, m3, Encode(m1).value, Encode(m2).value, Encode(m3).value);
    CodecLaws();
    RoundTrip(Encode, Decode, [m1, m2, m3], 1000);
    ConcatAppend([Encode(m1).value], [Encode(m2).value]);
    ConcatOne(Encode(m1).value);
    ConcatOne(Encode(m2).value);
    ConcatOne(Encode(m3).value);
    DecodeEncodings(Encode, Decode, [m1, m2], [Encode(m1).value, Encode(m2).value]);
    DecodeEncodings(Encode, Decode, [m3], [Encode(m3).value]);
  }

  /** Two short messages under a 1024-byte limit share one datagram, which
      decodes back to the two messages (tests/datagram_chunker.rs:48-71). */
  lemma TwoMessagesOneDatagram()
    ensures var hello, world := TestMessage(1, [72, 101, 108, 108, 111]), TestMessage(2, [87, 111, 114, 108, 100]);
      && Serialize(Encode, [hello, world], 1024) == Ok([Encode(hello).value + Encode(world).value])
      && ConsumesInput(Decode)
      && DecodeAll(Decode, Encode(hello).value + Encode(world).value) == Ok([hello, world])
  {
    var hello, world := TestMessage(1, [72, 101, 108, 108, 111]), TestMessage(2, [87, 111, 114, 108, 100]);
    var items := Encodings(Encode, [hello, world]);
    assert items == [Encode(hello).value, Encode(world).value];
    ConcatAppend([Encode(hello).value], [Encode(world).value]);
    ConcatOne(Encode(hello).value);
    ConcatOne(Encode(world).value);
    EncodeLength(hello);
    EncodeLength(world);
    AllFitInOne(Encode, [hello, world], 1024);
    CodecLaws();
    DecodeEncodings(Encode, Decode, [hello, world], [Encode(hello).value, Encode(world).value]);
  }

  /** The round trip for the sample codec: any messages whose encodings fit
      come back unchanged. */
  lemma SampleRoundTrip(messages: seq<TestMessage>, maxSize: nat)
    requires forall i :: 0 <= i < |messages| ==> 6 + |messages[i].content| <= maxSize
    ensures Serialize(Encode, messages, maxSize).Ok?
    ensures ConsumesInput(Decode)
    ensures DecodeDatagrams(Decode, Serialize(Encode, messages, maxSize).value) == Ok(messages)
  {
    forall i | 0 <= i < |messages| ensures Admissible(Encode, messages[i], maxSize) {
      EncodeLength(messages[i]);
    }
    SerializeOk(Encode, messages, maxSize);
    CodecLaws();
    RoundTrip(Encode, Decode, messages, maxSize);
  }
}
