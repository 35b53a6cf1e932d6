/** The message capability the core is generic over (`T: Serialize` and
    `T: Deserialize`), as function values, with the laws the core relies on. */
module MessageCodec {
  import opened Base
  import opened Errors

  /** `serialize` into a fresh output stream: the bytes written, or the
      stream error. */
  type Encoder<!M> = M -> Result<Bytes, IoFailure>

  /** `deserialize` from a cursor placed at the start of `b`: the message
      and how many bytes it consumed, or the stream error. */
  type Decoder<!M> = Bytes -> Result<(M, nat), IoFailure>

  /** A successful decode of a non-empty remainder moves the cursor forward,
      and never past the end of the bytes it was given. An empty remainder is
      never decoded: the loop stops once the end is reached. */
  ghost predicate ConsumesInput<M>(decode: Decoder<M>)
  {
    forall b {:trigger decode(b)} :: b != [] && decode(b).Ok? ==> 0 < decode(b).value.1 <= |b|
  }

  /** Encodings are self-delimiting: decoding an encoding followed by any
      bytes gives back the message and stops right after its encoding. */
  ghost predicate SelfDelimiting<M(!new)>(encode: Encoder<M>, decode: Decoder<M>)
  {
    forall m, rest :: encode(m).Ok? ==> decode(encode(m).value + rest) == Ok((m, |encode(m).value|))
  }

  /** Under the two laws no message encodes to zero bytes. */
  lemma EncodingNonEmpty<M(!new)>(encode: Encoder<M>, decode: Decoder<M>, m: M)
    requires ConsumesInput(decode) && SelfDelimiting(encode, decode)
    requires encode(m).Ok?
    ensures |encode(m).value| > 0
  {
    var b := encode(m).value;
    assert decode(b + [0]) == Ok((m, |b|));
  }
}
