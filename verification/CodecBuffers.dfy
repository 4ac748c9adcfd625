/** The codec as it runs: writers that append to one buffer, and a reader that moves through
    its input. */
module CodecBuffers {
  import opened ByteStrings
  import opened Codec
  import opened PyValues
  import opened Wrappers
  import Utf8

  // ----------------------------------------------------------------------- writing

  /** Behind `before` came what `spec` says, or the writer stopped with its error. */
  ghost predicate Wrote(before: Bytes, after: Bytes, error: Option<CodecError>, spec: Result<Bytes, CodecError>) {
    match spec
    case Ok(bytes) => error == None && after == before + bytes
    case Err(e) => error == Some(e)
  }

  lemma WroteBoth(before: Bytes, middle: Bytes, after: Bytes, error: Option<CodecError>,
                  a: Result<Bytes, CodecError>, b: Result<Bytes, CodecError>)
    requires Wrote(before, middle, None, a) && Wrote(middle, after, error, b)
    ensures Wrote(before, after, error, Then(a, b))
  {
    if b.Ok? {
      assert before + a.value + b.value == before + (a.value + b.value);
    }
  }

  /** What is left of a list after its first `i` items. */
  lemma OneItemFurther(items: seq<Py>, i: nat, depth: nat, written: Result<Bytes, CodecError>)
    requires i < |items| && written.Ok?
    ensures Then(written, EncodeAll(items[i..], depth))
         == Then(Then(written, Encode(items[i], depth)), EncodeAll(items[i + 1..], depth))
  {
    assert items[i..][1..] == items[i + 1..];
    var first, more := Encode(items[i], depth), EncodeAll(items[i + 1..], depth);
    if first.Ok? && more.Ok? {
      assert written.value + first.value + more.value == written.value + (first.value + more.value);
    }
  }

  lemma OneEntryFurther(entries: seq<Entry>, i: nat, depth: nat, written: Result<Bytes, CodecError>)
    requires i < |entries| && written.Ok?
    ensures Then(written, EncodeEntries(entries[i..], depth))
         == Then(Then(written, EncodeEntry(entries[i], depth)), EncodeEntries(entries[i + 1..], depth))
  {
    assert entries[i..][1..] == entries[i + 1..];
    var first, more := EncodeEntry(entries[i], depth), EncodeEntries(entries[i + 1..], depth);
    if first.Ok? && more.Ok? {
      assert written.value + first.value + more.value == written.value + (first.value + more.value);
    }
  }

  class Buffer {
    var buf: Bytes

    constructor ()
      ensures buf == []
    {
      buf := [];
    }

    method Push(b: Byte)
      modifies this
      ensures buf == old(buf) + [b]
    {
      buf := buf + [b];
    }

    method Extend(bytes: Bytes)
      modifies this
      ensures buf == old(buf) + bytes
    {
      buf := buf + bytes;
    }

    method WriteI64(v: int)
      requires -0x8000_0000_0000_0000 <= v < 0x8000_0000_0000_0000
      modifies this
      ensures Wrote(old(buf), buf, None, IntBytes(v))
    {
      if 0 <= v <= 127 { Push(v); }
      else if -32 <= v <= -1 { Push(v + 0x100); }
      else if 128 <= v <= 255 { Extend([0xCC, v]); }
      else if 256 <= v <= 65535 { Extend([0xCD] + BigEndian(v, 2)); }
      else if 65536 <= v <= 4294967295 { Extend([0xCE] + BigEndian(v, 4)); }
      else if 4294967296 <= v { Extend([0xCF] + BigEndian(v, 8)); }
      else if -128 <= v <= -33 { Extend([0xD0, v + 0x100]); }
      else if -32768 <= v <= -129 { Extend([0xD1] + BigEndian(v + 0x1_0000, 2)); }
      else if -2147483648 <= v <= -32769 { Extend([0xD2] + BigEndian(v + 0x1_0000_0000, 4)); }
      else { Extend([0xD3] + BigEndian(v + 0x1_0000_0000_0000_0000, 8)); }
    }

    /** An integer that did not fit in 64 bits with a sign. */
    method WriteU64(v: nat)
      requires 0x8000_0000_0000_0000 <= v < 0x1_0000_0000_0000_0000
      modifies this
      ensures Wrote(old(buf), buf, None, IntBytes(v))
    {
      Extend([0xCF] + BigEndian(v, 8));
    }

    method WriteInt(v: int) returns (error: Option<CodecError>)
      modifies this
      ensures Wrote(old(buf), buf, error, IntBytes(v))
    {
      if -0x8000_0000_0000_0000 <= v < 0x8000_0000_0000_0000 {
        WriteI64(v);
        return None;
      } else if 0 <= v < 0x1_0000_0000_0000_0000 {
        WriteU64(v);
        return None;
      }
      return Some(OutOfRange);
    }

    method WriteStrHeader(n: nat) returns (error: Option<CodecError>)
      modifies this
      ensures Wrote(old(buf), buf, error, StrHeader(n))
    {
      if n <= 31 { Push(0xA0 + n); }
      else if n <= 255 { Extend([0xD9, n]); }
      else if n <= 65535 { Extend([0xDA] + BigEndian(n, 2)); }
      else if n <= 4294967295 { Extend([0xDB] + BigEndian(n, 4)); }
      else { Push(0xDB); return Some(TooLong); }
      return None;
    }

    method WriteBinHeader(n: nat) returns (error: Option<CodecError>)
      modifies this
      ensures Wrote(old(buf), buf, error, BinHeader(n))
    {
      if n <= 255 { Extend([0xC4, n]); }
      else if n <= 65535 { Extend([0xC5] + BigEndian(n, 2)); }
      else if n <= 4294967295 { Extend([0xC6] + BigEndian(n, 4)); }
      else { Push(0xC6); return Some(TooLong); }
      return None;
    }

    method WriteArrayHeader(n: nat) returns (error: Option<CodecError>)
      modifies this
      ensures Wrote(old(buf), buf, error, ArrayHeader(n))
    {
      if n <= 15 { Push(0x90 + n); }
      else if n <= 65535 { Extend([0xDC] + BigEndian(n, 2)); }
      else if n <= 4294967295 { Extend([0xDD] + BigEndian(n, 4)); }
      else { Push(0xDD); return Some(TooLong); }
      return None;
    }

    method WriteMapHeader(n: nat) returns (error: Option<CodecError>)
      modifies this
      ensures Wrote(old(buf), buf, error, MapHeader(n))
    {
      if n <= 15 { Push(0x80 + n); }
      else if n <= 65535 { Extend([0xDE] + BigEndian(n, 2)); }
      else if n <= 4294967295 { Extend([0xDF] + BigEndian(n, 4)); }
      else { Push(0xDF); return Some(TooLong); }
      return None;
    }

    /** `write_obj`. */
    method WriteObj(v: Py, depth: nat) returns (error: Option<CodecError>)
      modifies this
      ensures Wrote(old(buf), buf, error, Encode(v, depth))
      decreases v, 2
    {
      if depth > MAX_DEPTH { return Some(TooDeep); }
      match v {
        case PyStr(text) =>
          var raw := Utf8.Encode(text);
          error := WriteStrHeader(|raw|);
          if error.None? {
            ghost var middle := buf;
            Extend(raw);
            WroteBoth(old(buf), middle, buf, None, StrHeader(|raw|), Ok(raw));
          }
        case SurrogateStr => error := Some(BadText);
        case PyDict(entries) => error := WriteDict(entries, depth);
        case PyList(items) => error := WriteSequence(items, depth);
        case PyNone => Push(0xC0); error := None;
        case PyBool(b) => Push(if b then 0xC3 else 0xC2); error := None;
        case PyInt(i) => error := WriteInt(i);
        case PyFloat(bits) => Extend([0xCB] + BigEndian(bits, 8)); error := None;
        case PyBytes(data) =>
          error := WriteBinHeader(|data|);
          if error.None? {
            ghost var middle := buf;
            Extend(data);
            WroteBoth(old(buf), middle, buf, None, BinHeader(|data|), Ok(data));
          }
        case PyTuple(items) => error := WriteSequence(items, depth);
        case PyOther => error := Some(Unsupported);
      }
    }

    /** The loop over the items of a list or tuple. */
    method WriteSequence(items: seq<Py>, depth: nat) returns (error: Option<CodecError>)
      modifies this
      ensures Wrote(old(buf), buf, error, Then(ArrayHeader(|items|), EncodeAll(items, depth + 1)))
      decreases items, 1
    {
      error := WriteArrayHeader(|items|);
      if error.Some? { return; }
      ghost var written := ArrayHeader(|items|);
      for i := 0 to |items|
        invariant Wrote(old(buf), buf, None, written)
        invariant Then(written, EncodeAll(items[i..], depth + 1)) == Then(ArrayHeader(|items|), EncodeAll(items, depth + 1))
      {
        ghost var middle := buf;
        error := WriteObj(items[i], depth + 1);
        OneItemFurther(items, i, depth + 1, written);
        WroteBoth(old(buf), middle, buf, error, written, Encode(items[i], depth + 1));
        written := Then(written, Encode(items[i], depth + 1));
        if error.Some? { return; }
      }
      error := None;
    }

    method WriteEntry(e: Entry, depth: nat) returns (error: Option<CodecError>)
      modifies this
      ensures Wrote(old(buf), buf, error, EncodeEntry(e, depth))
      decreases e, 2
    {
      error := WriteObj(e.key, depth);
      if error.Some? { return; }
      ghost var middle := buf;
      error := WriteObj(e.value, depth);
      WroteBoth(old(buf), middle, buf, error, Encode(e.key, depth), Encode(e.value, depth));
    }

    /** The loop over the entries of a dict. */
    method WriteDict(entries: seq<Entry>, depth: nat) returns (error: Option<CodecError>)
      modifies this
      ensures Wrote(old(buf), buf, error, Then(MapHeader(|entries|), EncodeEntries(entries, depth + 1)))
      decreases entries, 1
    {
      error := WriteMapHeader(|entries|);
      if error.Some? { return; }
      ghost var written := MapHeader(|entries|);
      for i := 0 to |entries|
        invariant Wrote(old(buf), buf, None, written)
        invariant Then(written, EncodeEntries(entries[i..], depth + 1))
               == Then(MapHeader(|entries|), EncodeEntries(entries, depth + 1))
      {
        ghost var middle := buf;
        error := WriteEntry(entries[i], depth + 1);
        OneEntryFurther(entries, i, depth + 1, written);
        WroteBoth(old(buf), middle, buf, error, written, EncodeEntry(entries[i], depth + 1));
        written := Then(written, EncodeEntry(entries[i], depth + 1));
        if error.Some? { return; }
      }
      error := None;
    }
  }

  /** `encode`. */
  method Dumps(v: Py) returns (r: Result<Bytes, CodecError>)
    ensures r == Encode(v, 0)
  {
    var buffer := new Buffer();
    var error := buffer.WriteObj(v, 0);
    match error
    case Some(e) => r := Err(e);
    case None =>
      assert [] + Encode(v, 0).value == Encode(v, 0).value;
      r := Ok(buffer.buf);
  }

  // ----------------------------------------------------------------------- reading

  /** The result is the one `spec` says, and `rest` what is left. */
  ghost predicate Got<T>(r: Result<T, CodecError>, rest: Bytes, spec: Result<Read<T>, CodecError>) {
    match spec
    case Ok(read) => r == Ok(read.value) && rest == read.rest
    case Err(e) => r == Err(e)
  }

  /** Items read so far, and the result of reading the others. */
  function Prepend(items: seq<Py>, more: Result<Read<seq<Py>>, CodecError>): Result<Read<seq<Py>>, CodecError> {
    match more
    case Ok(read) => Ok(Read(items + read.value, read.rest))
    case Err(e) => Err(e)
  }

  lemma PrependNone(items: seq<Py>, more: Result<Read<seq<Py>>, CodecError>, rest: Bytes)
    ensures Prepend([], more) == more && Prepend(items, Ok(Read([], rest))) == Ok(Read(items, rest))
  {
    if more.Ok? {
      assert [] + more.value.value == more.value.value;
    }
    assert items + [] == items;
  }

  lemma OneItemRead(items: seq<Py>, b: Bytes, n: nat, depth: nat)
    requires n > 0
    ensures match Decode(b, depth)
            case Err(e) => Prepend(items, DecodeItems(b, n, depth)) == Err(e)
            case Ok(first) =>
              Prepend(items, DecodeItems(b, n, depth)) == Prepend(items + [first.value], DecodeItems(first.rest, n - 1, depth))
  {
    if Decode(b, depth).Ok? {
      var first := Decode(b, depth).value;
      var more := DecodeItems(first.rest, n - 1, depth);
      if more.Ok? {
        assert items + ([first.value] + more.value.value) == items + [first.value] + more.value.value;
      }
    }
  }

  lemma TakeInside(data: Bytes, pos: nat, n: nat)
    requires pos + n <= |data|
    ensures data[pos..][..n] == data[pos..pos + n] && data[pos..][n..] == data[pos + n..]
  {
  }

  class Reader {
    const data: Bytes
    var pos: nat

    constructor (data: Bytes)
      ensures this.data == data && pos == 0
    {
      this.data := data;
      pos := 0;
    }

    /** What is still to be read. */
    ghost function Rest(): Bytes
      requires pos <= |data|
      reads this
    {
      data[pos..]
    }

    method NextByte() returns (r: Result<Byte, CodecError>)
      requires pos <= |data|
      modifies this
      ensures pos <= |data|
      ensures if old(Rest()) == [] then r == Err(EndOfInput) else r == Ok(old(Rest())[0]) && Rest() == old(Rest())[1..]
    {
      if pos == |data| { return Err(EndOfInput); }
      r := Ok(data[pos]);
      pos := pos + 1;
    }

    method Slice(n: nat) returns (r: Result<Bytes, CodecError>)
      requires pos <= |data|
      modifies this
      ensures pos <= |data| && Got(r, Rest(), Take(old(Rest()), n))
    {
      if pos + n > |data| { return Err(EndOfInput); }
      TakeInside(data, pos, n);
      r := Ok(data[pos..pos + n]);
      pos := pos + n;
    }

    /** A big-endian number: the fold over its bytes. */
    method LenOf(width: nat) returns (r: Result<nat, CodecError>)
      requires pos <= |data|
      modifies this
      ensures pos <= |data| && Got(r, Rest(), Number(old(Rest()), width))
    {
      var raw := Slice(width);
      if raw.Err? { return Err(raw.error); }
      var acc: nat := 0;
      for i := 0 to |raw.value|
        invariant acc == FromBigEndian(raw.value[..i])
      {
        acc := acc * 0x100 + raw.value[i] as int;
        assert raw.value[..i + 1][..i] == raw.value[..i];
      }
      assert raw.value[..|raw.value|] == raw.value;
      return Ok(acc);
    }

    /** The marker and the number that may complete it. */
    method ReadMarker() returns (r: Result<Head, CodecError>)
      requires pos <= |data|
      modifies this
      ensures pos <= |data| && Got(r, Rest(), ReadHead(old(Rest())))
    {
      var m := NextByte();
      if m.Err? { return Err(m.error); }
      match MarkerOf(m.value)
      case Whole(head) => r := Ok(head);
      case Refused(error) => r := Err(error);
      case Sized(kind, width) =>
        ghost var here := Rest();
        var n := LenOf(width);
        if n.Err? { return Err(n.error); }
        r := Ok(HeadOf(kind, width, n.value));
    }

    /** `read_obj`. */
    method ReadObj(depth: nat) returns (r: Result<Py, CodecError>)
      requires pos <= |data|
      modifies this
      ensures pos <= |data| && Got(r, Rest(), Decode(old(Rest()), depth))
      decreases Levels(depth), 0, 3
    {
      if depth > MAX_DEPTH { return Err(TooDeep); }
      var head := ReadMarker();
      if head.Err? { return Err(head.error); }
      match head.value
      case Scalar(v) => r := Ok(v);
      case Text(n) =>
        var raw := Slice(n);
        r := if raw.Err? then Err(raw.error) else Ok(TextOf(raw.value));
      case Raw(n) =>
        var raw := Slice(n);
        r := if raw.Err? then Err(raw.error) else Ok(PyBytes(raw.value));
      case Array(n) =>
        var items := ReadArray(n, depth);
        r := if items.Err? then Err(items.error) else Ok(PyList(items.value));
      case Map(n) =>
        var dict := ReadMap(n, depth);
        r := if dict.Err? then Err(dict.error) else Ok(PyDict(dict.value));
    }

    /** `read_array`. */
    method ReadArray(n: nat, depth: nat) returns (r: Result<seq<Py>, CodecError>)
      requires pos <= |data| && depth <= MAX_DEPTH
      modifies this
      ensures pos <= |data| && Got(r, Rest(), DecodeItems(old(Rest()), n, depth + 1))
      decreases Levels(depth), 0, 2
    {
      var items := [];
      PrependNone(items, DecodeItems(Rest(), n, depth + 1), Rest());
      for i := 0 to n
        invariant pos <= |data|
        invariant Prepend(items, DecodeItems(Rest(), n - i, depth + 1)) == DecodeItems(old(Rest()), n, depth + 1)
      {
        OneItemRead(items, Rest(), n - i, depth + 1);
        var item := ReadObj(depth + 1);
        if item.Err? { return Err(item.error); }
        items := items + [item.value];
      }
      PrependNone(items, Ok(Read([], Rest())), Rest());
      return Ok(items);
    }

    /** One key and value of `read_map`. */
    method ReadEntry(depth: nat) returns (r: Result<Entry, CodecError>)
      requires pos <= |data| && depth <= MAX_DEPTH
      modifies this
      ensures pos <= |data| && Got(r, Rest(), DecodeEntry(old(Rest()), depth + 1))
      decreases Levels(depth), 0, 1
    {
      var key := ReadObj(depth + 1);
      if key.Err? { return Err(key.error); }
      var value := ReadObj(depth + 1);
      if value.Err? { return Err(value.error); }
      if !ScalarKey(key.value) { return Err(Unhashable); }
      return Ok(Entry(key.value, value.value));
    }

    /** `read_map`. */
    method ReadMap(n: nat, depth: nat) returns (r: Result<seq<Entry>, CodecError>)
      requires pos <= |data| && depth <= MAX_DEPTH
      modifies this
      ensures pos <= |data| && Got(r, Rest(), DecodeEntries([], old(Rest()), n, depth + 1))
      decreases Levels(depth), 0, 2
    {
      var dict := [];
      for i := 0 to n
        invariant pos <= |data|
        invariant DecodeEntries(dict, Rest(), n - i, depth + 1) == DecodeEntries([], old(Rest()), n, depth + 1)
      {
        var e := ReadEntry(depth);
        if e.Err? { return Err(e.error); }
        dict := SetItem(dict, e.value.key, e.value.value);
      }
      return Ok(dict);
    }
  }

  /** `decode`: bytes behind the first value are ignored. */
  method Loads(bytes: Bytes) returns (r: Result<Py, CodecError>)
    ensures r == match Decode(bytes, 0) case Ok(read) => Ok(read.value) case Err(e) => Err(e)
  {
    var reader := new Reader(bytes);
    assert bytes[0..] == bytes;
    r := reader.ReadObj(0);
  }
}
