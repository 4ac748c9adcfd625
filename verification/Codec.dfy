/** The msgpack codec: what is written for a value, what is read from bytes, and that the
    two undo each other (MessagePack specification, sections "Formats" and
    "Serialization: type to format conversion"). */
module Codec {
  import opened ByteStrings
  import opened PyValues
  import opened Wrappers
  import Utf8

  const MAX_DEPTH: nat := 128

  datatype CodecError =
    | TooDeep
    | BadText            // a string with a lone surrogate
    | OutOfRange         // an integer beyond 64 bits
    | TooLong            // a length beyond 32 bits
    | Unsupported        // a type the format has no place for
    | EndOfInput
    | Extension
    | Reserved
    | Unhashable         // a list or dict where a dict key belongs

  // ----------------------------------------------------------------------- writing

  /** The shortest form of an integer. */
  function IntBytes(i: int): Result<Bytes, CodecError> {
    if 0 <= i <= 127 then Ok([i])
    else if -32 <= i <= -1 then Ok([i + 0x100])
    else if 128 <= i <= 255 then Ok([0xCC, i])
    else if 256 <= i <= 65535 then Ok([0xCD] + BigEndian(i, 2))
    else if 65536 <= i <= 4294967295 then Ok([0xCE] + BigEndian(i, 4))
    else if 4294967296 <= i < 0x1_0000_0000_0000_0000 then Ok([0xCF] + BigEndian(i, 8))
    else if -128 <= i <= -33 then Ok([0xD0, i + 0x100])
    else if -32768 <= i <= -129 then Ok([0xD1] + BigEndian(i + 0x1_0000, 2))
    else if -2147483648 <= i <= -32769 then Ok([0xD2] + BigEndian(i + 0x1_0000_0000, 4))
    else if -0x8000_0000_0000_0000 <= i <= -2147483649 then Ok([0xD3] + BigEndian(i + 0x1_0000_0000_0000_0000, 8))
    else Err(OutOfRange)
  }

  function StrHeader(n: nat): Result<Bytes, CodecError> {
    if n <= 31 then Ok([0xA0 + n])
    else if n <= 255 then Ok([0xD9, n])
    else if n <= 65535 then Ok([0xDA] + BigEndian(n, 2))
    else if n <= 4294967295 then Ok([0xDB] + BigEndian(n, 4))
    else Err(TooLong)
  }

  function BinHeader(n: nat): Result<Bytes, CodecError> {
    if n <= 255 then Ok([0xC4, n])
    else if n <= 65535 then Ok([0xC5] + BigEndian(n, 2))
    else if n <= 4294967295 then Ok([0xC6] + BigEndian(n, 4))
    else Err(TooLong)
  }

  function ArrayHeader(n: nat): Result<Bytes, CodecError> {
    if n <= 15 then Ok([0x90 + n])
    else if n <= 65535 then Ok([0xDC] + BigEndian(n, 2))
    else if n <= 4294967295 then Ok([0xDD] + BigEndian(n, 4))
    else Err(TooLong)
  }

  function MapHeader(n: nat): Result<Bytes, CodecError> {
    if n <= 15 then Ok([0x80 + n])
    else if n <= 65535 then Ok([0xDE] + BigEndian(n, 2))
    else if n <= 4294967295 then Ok([0xDF] + BigEndian(n, 4))
    else Err(TooLong)
  }

  /** One after the other; the first error is the result. */
  function Then(a: Result<Bytes, CodecError>, b: Result<Bytes, CodecError>): Result<Bytes, CodecError> {
    if a.Err? then a else if b.Err? then b else Ok(a.value + b.value)
  }

  /** What is written for a value found `depth` levels down. */
  function Encode(v: Py, depth: nat): Result<Bytes, CodecError>
    decreases v, 1
  {
    if depth > MAX_DEPTH then Err(TooDeep)
    else match v
      case PyNone => Ok([0xC0])
      case PyBool(b) => Ok([if b then 0xC3 else 0xC2])
      case PyInt(i) => IntBytes(i)
      case PyFloat(bits) => Ok([0xCB] + BigEndian(bits, 8))
      case PyStr(text) => Then(StrHeader(|Utf8.Encode(text)|), Ok(Utf8.Encode(text)))
      case SurrogateStr => Err(BadText)
      case PyBytes(data) => Then(BinHeader(|data|), Ok(data))
      case PyList(items) => Then(ArrayHeader(|items|), EncodeAll(items, depth + 1))
      case PyTuple(items) => Then(ArrayHeader(|items|), EncodeAll(items, depth + 1))
      case PyDict(entries) => Then(MapHeader(|entries|), EncodeEntries(entries, depth + 1))
      case PyOther => Err(Unsupported)
  }

  function EncodeAll(items: seq<Py>, depth: nat): Result<Bytes, CodecError>
    decreases items, 0
  {
    if items == [] then Ok([])
    else Then(Encode(items[0], depth), EncodeAll(items[1..], depth))
  }

  function EncodeEntry(e: Entry, depth: nat): Result<Bytes, CodecError>
    decreases e, 1
  {
    Then(Encode(e.key, depth), Encode(e.value, depth))
  }

  function EncodeEntries(entries: seq<Entry>, depth: nat): Result<Bytes, CodecError>
    decreases entries, 0
  {
    if entries == [] then Ok([])
    else Then(EncodeEntry(entries[0], depth), EncodeEntries(entries[1..], depth))
  }

  // ----------------------------------------------------------------------- reading

  /** What was read, and the bytes behind it. */
  datatype Read<T> = Read(value: T, rest: Bytes)

  function Take(b: Bytes, n: nat): Result<Read<Bytes>, CodecError> {
    if n <= |b| then Ok(Read(b[..n], b[n..])) else Err(EndOfInput)
  }

  function Number(b: Bytes, width: nat): (r: Result<Read<nat>, CodecError>)
    ensures r.Ok? ==> r.value.value < Limit(width)
  {
    if width <= |b| then
      BigEndianOf(b[..width]);
      Ok(Read(FromBigEndian(b[..width]), b[width..]))
    else Err(EndOfInput)
  }

  datatype Kind = UnsignedKind | SignedKind | SingleKind | DoubleKind | StrKind | BinKind | ArrayKind | MapKind

  /** What a first byte announces: a complete head, a number of `width` bytes that
      completes it, or nothing that can be read. */
  datatype Marker = Whole(head: Head) | Sized(kind: Kind, width: nat) | Refused(error: CodecError)

  /** A scalar, or how much follows. */
  datatype Head = Scalar(v: Py) | Text(n: nat) | Raw(n: nat) | Array(n: nat) | Map(n: nat)

  function MarkerOf(m: Byte): (r: Marker)
    ensures r.Sized? ==> r.width in {1, 2, 4, 8}
    ensures r.Sized? && r.kind != UnsignedKind && r.kind != SignedKind && r.kind != DoubleKind ==> r.width <= 4
  {
    if m < 0x80 then Whole(Scalar(PyInt(m)))
    else if m < 0x90 then Whole(Map(m - 0x80))
    else if m < 0xA0 then Whole(Array(m - 0x90))
    else if m < 0xC0 then Whole(Text(m - 0xA0))
    else if m >= 0xE0 then Whole(Scalar(PyInt(m - 0x100)))
    else match m
      case 0xC0 => Whole(Scalar(PyNone))
      case 0xC1 => Refused(Reserved)
      case 0xC2 => Whole(Scalar(PyBool(false)))
      case 0xC3 => Whole(Scalar(PyBool(true)))
      case 0xC4 => Sized(BinKind, 1)
      case 0xC5 => Sized(BinKind, 2)
      case 0xC6 => Sized(BinKind, 4)
      case 0xCA => Sized(SingleKind, 4)
      case 0xCB => Sized(DoubleKind, 8)
      case 0xCC => Sized(UnsignedKind, 1)
      case 0xCD => Sized(UnsignedKind, 2)
      case 0xCE => Sized(UnsignedKind, 4)
      case 0xCF => Sized(UnsignedKind, 8)
      case 0xD0 => Sized(SignedKind, 1)
      case 0xD1 => Sized(SignedKind, 2)
      case 0xD2 => Sized(SignedKind, 4)
      case 0xD3 => Sized(SignedKind, 8)
      case 0xD9 => Sized(StrKind, 1)
      case 0xDA => Sized(StrKind, 2)
      case 0xDB => Sized(StrKind, 4)
      case 0xDC => Sized(ArrayKind, 2)
      case 0xDD => Sized(ArrayKind, 4)
      case 0xDE => Sized(MapKind, 2)
      case 0xDF => Sized(MapKind, 4)
      case _ => Refused(Extension)
  }

  /** Two's complement. */
  function Signed(n: nat, width: nat): int {
    if n < Limit(width) / 2 then n else n - Limit(width)
  }

  function HeadOf(kind: Kind, width: nat, n: nat): Head
    requires width in {1, 2, 4, 8} && n < Limit(width)
    requires kind != UnsignedKind && kind != SignedKind && kind != DoubleKind ==> width <= 4
  {
    Limits();
    match kind
    case UnsignedKind => Scalar(PyInt(n))
    case SignedKind => Scalar(PyInt(Signed(n, width)))
    case SingleKind => Scalar(PyFloat(Widen(n)))
    case DoubleKind => Scalar(PyFloat(n))
    case StrKind => Text(n)
    case BinKind => Raw(n)
    case ArrayKind => Array(n)
    case MapKind => Map(n)
  }

  function ReadHead(b: Bytes): Result<Read<Head>, CodecError> {
    if b == [] then Err(EndOfInput)
    else match MarkerOf(b[0])
      case Whole(head) => Ok(Read(head, b[1..]))
      case Refused(error) => Err(error)
      case Sized(kind, width) =>
        match Number(b[1..], width)
        case Err(error) => Err(error)
        case Ok(number) => Ok(Read(HeadOf(kind, width, number.value), number.rest))
  }

  /** A string that is not UTF-8 is read as its bytes. */
  function TextOf(raw: Bytes): Py {
    match Utf8.Decode(raw)
    case Some(text) => PyStr(text)
    case None => PyBytes(raw)
  }

  function Levels(depth: nat): nat {
    if depth > MAX_DEPTH then 0 else MAX_DEPTH + 1 - depth
  }

  /** The value at the front of the bytes, `depth` levels down. */
  function Decode(b: Bytes, depth: nat): Result<Read<Py>, CodecError>
    decreases Levels(depth), 0, 1
  {
    if depth > MAX_DEPTH then Err(TooDeep)
    else match ReadHead(b)
      case Err(error) => Err(error)
      case Ok(Read(head, rest)) =>
        match head
        case Scalar(v) => Ok(Read(v, rest))
        case Text(n) =>
          (match Take(rest, n)
           case Err(error) => Err(error)
           case Ok(taken) => Ok(Read(TextOf(taken.value), taken.rest)))
        case Raw(n) =>
          (match Take(rest, n)
           case Err(error) => Err(error)
           case Ok(taken) => Ok(Read(PyBytes(taken.value), taken.rest)))
        case Array(n) =>
          (match DecodeItems(rest, n, depth + 1)
           case Err(error) => Err(error)
           case Ok(items) => Ok(Read(PyList(items.value), items.rest)))
        case Map(n) =>
          (match DecodeEntries([], rest, n, depth + 1)
           case Err(error) => Err(error)
           case Ok(dict) => Ok(Read(PyDict(dict.value), dict.rest)))
  }

  function DecodeItems(b: Bytes, n: nat, depth: nat): Result<Read<seq<Py>>, CodecError>
    decreases Levels(depth), 1, n
  {
    if n == 0 then Ok(Read([], b))
    else match Decode(b, depth)
      case Err(error) => Err(error)
      case Ok(first) =>
        match DecodeItems(first.rest, n - 1, depth)
        case Err(error) => Err(error)
        case Ok(more) => Ok(Read([first.value] + more.value, more.rest))
  }

  /** One key and value; the key is looked at once both are read. */
  function DecodeEntry(b: Bytes, depth: nat): Result<Read<Entry>, CodecError>
    decreases Levels(depth), 0, 2
  {
    match Decode(b, depth)
    case Err(error) => Err(error)
    case Ok(key) =>
      match Decode(key.rest, depth)
      case Err(error) => Err(error)
      case Ok(value) =>
        if ScalarKey(key.value) then Ok(Read(Entry(key.value, value.value), value.rest)) else Err(Unhashable)
  }

  /** `n` more entries set in `dict`. */
  function DecodeEntries(dict: seq<Entry>, b: Bytes, n: nat, depth: nat): Result<Read<seq<Entry>>, CodecError>
    decreases Levels(depth), 1, n
  {
    if n == 0 then Ok(Read(dict, b))
    else match DecodeEntry(b, depth)
      case Err(error) => Err(error)
      case Ok(e) => DecodeEntries(SetItem(dict, e.value.key, e.value.value), e.rest, n - 1, depth)
  }
}
