/** The encoder picks the smallest form: whatever bytes announce an integer or a length, it
    announces the same in no more of them (MessagePack specification, section
    "Serialization: type to format conversion"). */
module CodecShortest {
  import opened ByteStrings
  import opened Codec
  import opened PyValues
  import opened Wrappers

  lemma HeadSize(b: Bytes)
    requires ReadHead(b).Ok? && ReadHead(b).value.rest == []
    ensures |b| == if MarkerOf(b[0]).Sized? then 1 + MarkerOf(b[0]).width else 1
  {
  }

  lemma IntIsShortest(b: Bytes, v: int)
    requires ReadHead(b) == Ok(Read(Scalar(PyInt(v)), []))
    ensures IntBytes(v).Ok? && |IntBytes(v).value| <= |b|
  {
    Limits();
    HeadSize(b);
  }

  lemma StrHeaderIsShortest(b: Bytes, n: nat)
    requires ReadHead(b) == Ok(Read(Text(n), []))
    ensures StrHeader(n).Ok? && |StrHeader(n).value| <= |b|
  {
    Limits();
    HeadSize(b);
  }

  lemma BinHeaderIsShortest(b: Bytes, n: nat)
    requires ReadHead(b) == Ok(Read(Raw(n), []))
    ensures BinHeader(n).Ok? && |BinHeader(n).value| <= |b|
  {
    Limits();
    HeadSize(b);
  }

  lemma ArrayHeaderIsShortest(b: Bytes, n: nat)
    requires ReadHead(b) == Ok(Read(Array(n), []))
    ensures ArrayHeader(n).Ok? && |ArrayHeader(n).value| <= |b|
  {
    Limits();
    HeadSize(b);
  }

  lemma MapHeaderIsShortest(b: Bytes, n: nat)
    requires ReadHead(b) == Ok(Read(Map(n), []))
    ensures MapHeader(n).Ok? && |MapHeader(n).value| <= |b|
  {
    Limits();
    HeadSize(b);
  }
}
