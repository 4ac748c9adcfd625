/** What the codec promises of a value that is written: reading undoes writing, an encoding
    cut short is refused, and which values can be written at all. */
module CodecRoundTrip {
  import opened ByteStrings
  import opened Codec
  import opened PyValues
  import opened Wrappers
  import Utf8

  // ------------------------------------------------------------------------- heads

  lemma Regroup(a: Bytes, b: Bytes, c: Bytes)
    ensures a + b + c == a + (b + c)
  {
  }

  lemma SizedReads(m: Byte, kind: Kind, width: nat, n: nat, tail: Bytes)
    requires MarkerOf(m) == Sized(kind, width) && n < Limit(width)
    ensures ReadHead([m] + BigEndian(n, width) + tail) == Ok(Read(HeadOf(kind, width, n), tail))
  {
    var b := [m] + BigEndian(n, width) + tail;
    assert b[1..] == BigEndian(n, width) + tail;
    assert b[1..][..width] == BigEndian(n, width) && b[1..][width..] == tail;
    FromBigEndianOf(n, width);
  }

  lemma OneByte(m: Byte, n: nat)
    requires n < 0x100
    ensures [m, n] == [m] + BigEndian(n, 1)
  {
    assert BigEndian(n / 0x100, 0) == [];
  }

  lemma SizedReadsSigned(m: Byte, width: nat, i: int, tail: Bytes)
    requires MarkerOf(m) == Sized(SignedKind, width) && i < 0 <= Limit(width) + 2 * i
    ensures ReadHead([m] + BigEndian(i + Limit(width), width) + tail) == Ok(Read(Scalar(PyInt(i)), tail))
  {
    SizedReads(m, SignedKind, width, i + Limit(width), tail);
  }

  lemma FixedReads(m: Byte, tail: Bytes)
    requires MarkerOf(m).Whole?
    ensures ReadHead([m] + tail) == Ok(Read(MarkerOf(m).head, tail))
  {
    assert ([m] + tail)[1..] == tail;
  }

  lemma NonNegativeReads(i: nat, tail: Bytes)
    requires IntBytes(i).Ok?
    ensures ReadHead(IntBytes(i).value + tail) == Ok(Read(Scalar(PyInt(i)), tail))
  {
    Limits();
    if i <= 127 {
      FixedReads(i, tail);
    } else if i <= 255 {
      OneByte(0xCC, i);
      SizedReads(0xCC, UnsignedKind, 1, i, tail);
    } else if i <= 65535 {
      SizedReads(0xCD, UnsignedKind, 2, i, tail);
    } else if i <= 4294967295 {
      SizedReads(0xCE, UnsignedKind, 4, i, tail);
    } else {
      SizedReads(0xCF, UnsignedKind, 8, i, tail);
    }
  }

  lemma NegativeReads(i: int, tail: Bytes)
    requires i < 0 && IntBytes(i).Ok?
    ensures ReadHead(IntBytes(i).value + tail) == Ok(Read(Scalar(PyInt(i)), tail))
  {
    Limits();
    if -32 <= i {
      FixedReads(i + 0x100, tail);
    } else if -128 <= i {
      OneByte(0xD0, i + 0x100);
      SizedReadsSigned(0xD0, 1, i, tail);
    } else if -32768 <= i {
      SizedReadsSigned(0xD1, 2, i, tail);
    } else if -2147483648 <= i {
      SizedReadsSigned(0xD2, 4, i, tail);
    } else {
      SizedReadsSigned(0xD3, 8, i, tail);
    }
  }

  lemma StrHeaderReads(n: nat, tail: Bytes)
    requires StrHeader(n).Ok?
    ensures ReadHead(StrHeader(n).value + tail) == Ok(Read(Text(n), tail))
  {
    Limits();
    if n <= 31 { FixedReads(0xA0 + n, tail); }
    else if n <= 255 { OneByte(0xD9, n); SizedReads(0xD9, StrKind, 1, n, tail); }
    else if n <= 65535 { SizedReads(0xDA, StrKind, 2, n, tail); }
    else { SizedReads(0xDB, StrKind, 4, n, tail); }
  }

  lemma BinHeaderReads(n: nat, tail: Bytes)
    requires BinHeader(n).Ok?
    ensures ReadHead(BinHeader(n).value + tail) == Ok(Read(Raw(n), tail))
  {
    Limits();
    if n <= 255 { OneByte(0xC4, n); SizedReads(0xC4, BinKind, 1, n, tail); }
    else if n <= 65535 { SizedReads(0xC5, BinKind, 2, n, tail); }
    else { SizedReads(0xC6, BinKind, 4, n, tail); }
  }

  lemma ArrayHeaderReads(n: nat, tail: Bytes)
    requires ArrayHeader(n).Ok?
    ensures ReadHead(ArrayHeader(n).value + tail) == Ok(Read(Array(n), tail))
  {
    Limits();
    if n <= 15 { FixedReads(0x90 + n, tail); }
    else if n <= 65535 { SizedReads(0xDC, ArrayKind, 2, n, tail); }
    else { SizedReads(0xDD, ArrayKind, 4, n, tail); }
  }

  lemma MapHeaderReads(n: nat, tail: Bytes)
    requires MapHeader(n).Ok?
    ensures ReadHead(MapHeader(n).value + tail) == Ok(Read(Map(n), tail))
  {
    Limits();
    if n <= 15 { FixedReads(0x80 + n, tail); }
    else if n <= 65535 { SizedReads(0xDE, MapKind, 2, n, tail); }
    else { SizedReads(0xDF, MapKind, 4, n, tail); }
  }

  // -------------------------------------------------------- reading undoes writing

  /** What reading gives of something written: the value, or, if a dict in it has a tuple
      for a key, the complaint that a list has no hash. */
  function Back<T>(scalarKeys: bool, value: T, tail: Bytes): Result<Read<T>, CodecError> {
    if scalarKeys then Ok(Read(value, tail)) else Err(Unhashable)
  }

  predicate AllScalarKeys(items: seq<Py>) {
    forall i :: 0 <= i < |items| ==> ScalarKeys(items[i])
  }

  predicate ScalarEntry(e: Entry) {
    ScalarKey(e.key) && ScalarKeys(e.value)
  }

  predicate AllScalarEntries(entries: seq<Entry>) {
    forall i :: 0 <= i < |entries| ==> ScalarEntry(entries[i])
  }

  predicate AllWellFormed(items: seq<Py>) {
    forall i :: 0 <= i < |items| ==> WellFormed(items[i])
  }

  predicate AllEntriesWellFormed(entries: seq<Entry>) {
    forall i :: 0 <= i < |entries| ==> WellFormed(entries[i].key) && WellFormed(entries[i].value)
  }

  lemma TextReads(text: string, depth: nat, tail: Bytes)
    requires Encode(PyStr(text), depth).Ok?
    ensures Decode(Encode(PyStr(text), depth).value + tail, depth) == Ok(Read(PyStr(text), tail))
  {
    var raw := Utf8.Encode(text);
    var header := StrHeader(|raw|).value;
    Regroup(header, raw, tail);
    StrHeaderReads(|raw|, raw + tail);
    assert (raw + tail)[..|raw|] == raw && (raw + tail)[|raw|..] == tail;
    Utf8.DecodeOf(text);
  }

  lemma BytesRead(data: Bytes, depth: nat, tail: Bytes)
    requires Encode(PyBytes(data), depth).Ok?
    ensures Decode(Encode(PyBytes(data), depth).value + tail, depth) == Ok(Read(PyBytes(data), tail))
  {
    var header := BinHeader(|data|).value;
    Regroup(header, data, tail);
    BinHeaderReads(|data|, data + tail);
    assert (data + tail)[..|data|] == data && (data + tail)[|data|..] == tail;
  }

  lemma ScalarReads(v: Py, depth: nat, tail: Bytes)
    requires (v.PyNone? || v.PyBool? || v.PyInt? || v.PyFloat?) && Encode(v, depth).Ok?
    ensures ReadHead(Encode(v, depth).value + tail) == Ok(Read(Scalar(v), tail))
  {
    match v
    case PyNone => FixedReads(0xC0, tail);
    case PyBool(b) => FixedReads(if b then 0xC3 else 0xC2, tail);
    case PyInt(i) => if i < 0 { NegativeReads(i, tail); } else { NonNegativeReads(i, tail); }
    case PyFloat(bits) =>
      Limits();
      SizedReads(0xCB, DoubleKind, 8, bits, tail);
  }

  lemma LeafReads(v: Py, depth: nat, tail: Bytes)
    requires !v.PyList? && !v.PyTuple? && !v.PyDict? && Encode(v, depth).Ok?
    ensures Decode(Encode(v, depth).value + tail, depth) == Ok(Read(v, tail))
  {
    match v
    case PyStr(text) => TextReads(text, depth, tail);
    case PyBytes(data) => BytesRead(data, depth, tail);
    case _ => ScalarReads(v, depth, tail);
  }

  /** Written at some depth and read at the same, with anything behind it, a value comes
      back with its tuples as lists, exactly the bytes written are used up, and the only
      thing that can stand in the way is a tuple used as a dict key. */
  lemma {:induction false} ReadingUndoesWriting(v: Py, depth: nat, tail: Bytes)
    requires WellFormed(v) && Encode(v, depth).Ok?
    ensures Decode(Encode(v, depth).value + tail, depth) == Back(ScalarKeys(v), Listed(v), tail)
    decreases v, 1
  {
    match v {
      case PyList(items) => SequenceReads(items, depth, tail);
      case PyTuple(items) => SequenceReads(items, depth, tail);
      case PyDict(entries) => DictReads(entries, depth, tail);
      case _ => LeafReads(v, depth, tail);
    }
  }

  lemma AppendNone(entries: seq<Entry>)
    ensures [] + entries == entries
  {
  }

  lemma DictIsRead(b: Bytes, n: nat, rest: Bytes, depth: nat)
    requires depth <= MAX_DEPTH && ReadHead(b) == Ok(Read(Map(n), rest))
    ensures Decode(b, depth) == match DecodeEntries([], rest, n, depth + 1)
                                case Err(error) => Err(error)
                                case Ok(dict) => Ok(Read(PyDict(dict.value), dict.rest))
  {
  }

  lemma {:induction false} DictReads(entries: seq<Entry>, depth: nat, tail: Bytes)
    requires DistinctKeys(entries) && AllEntriesWellFormed(entries) && depth <= MAX_DEPTH
    requires Encode(PyDict(entries), depth).Ok?
    ensures Decode(Encode(PyDict(entries), depth).value + tail, depth)
         == Back(AllScalarEntries(entries), PyDict(ListedEntries(entries)), tail)
    decreases entries, 1
  {
    var header, body := MapHeader(|entries|).value, EncodeEntries(entries, depth + 1).value;
    Regroup(header, body, tail);
    MapHeaderReads(|entries|, body + tail);
    AppendNone(entries);
    AppendNone(ListedEntries(entries));
    DictIsRead(header + (body + tail), |entries|, body + tail, depth);
    EntriesRead([], entries, depth + 1, tail);
  }

  lemma {:induction false} SequenceReads(items: seq<Py>, depth: nat, tail: Bytes)
    requires AllWellFormed(items) && depth <= MAX_DEPTH
    requires Then(ArrayHeader(|items|), EncodeAll(items, depth + 1)).Ok?
    ensures Decode(Then(ArrayHeader(|items|), EncodeAll(items, depth + 1)).value + tail, depth)
         == Back(AllScalarKeys(items), PyList(ListedAll(items)), tail)
    decreases items, 1
  {
    var header, body := ArrayHeader(|items|).value, EncodeAll(items, depth + 1).value;
    Regroup(header, body, tail);
    ArrayHeaderReads(|items|, body + tail);
    ItemsRead(items, depth + 1, tail);
  }

  lemma FirstAndRestOf(items: seq<Py>)
    requires items != []
    ensures AllWellFormed(items) ==> WellFormed(items[0]) && AllWellFormed(items[1..])
    ensures AllScalarKeys(items) <==> ScalarKeys(items[0]) && AllScalarKeys(items[1..])
  {
  }

  lemma {:induction false} ItemsRead(items: seq<Py>, depth: nat, tail: Bytes)
    requires AllWellFormed(items) && EncodeAll(items, depth).Ok?
    ensures DecodeItems(EncodeAll(items, depth).value + tail, |items|, depth)
         == Back(AllScalarKeys(items), ListedAll(items), tail)
    decreases items, 0
  {
    if items == [] {
      assert [] + tail == tail;
    } else {
      var first, more := Encode(items[0], depth).value, EncodeAll(items[1..], depth).value;
      Regroup(first, more, tail);
      FirstAndRestOf(items);
      ReadingUndoesWriting(items[0], depth, more + tail);
      ItemsRead(items[1..], depth, tail);
    }
  }

  lemma {:induction false} EntryReads(e: Entry, depth: nat, tail: Bytes)
    requires WellFormed(e.key) && WellFormed(e.value) && EncodeEntry(e, depth).Ok?
    ensures DecodeEntry(EncodeEntry(e, depth).value + tail, depth) == Back(ScalarEntry(e), ListedEntry(e), tail)
    decreases e, 1
  {
    var key, value := Encode(e.key, depth).value, Encode(e.value, depth).value;
    Regroup(key, value, tail);
    ReadingUndoesWriting(e.key, depth, value + tail);
    ReadingUndoesWriting(e.value, depth, tail);
  }

  lemma SameKeyListed(v: Py)
    ensures KeyOf(Listed(v)) == KeyOf(v)
  {
  }

  /** A key that is not there goes to the end. */
  lemma SetAtTheEnd(dict: seq<Entry>, entries: seq<Entry>)
    requires entries != [] && DistinctKeys(dict + entries)
    ensures var e := ListedEntry(entries[0]);
            && SetItem(dict, e.key, e.value) == dict + [e]
            && DistinctKeys(dict + [e] + entries[1..])
  {
    var e := ListedEntry(entries[0]);
    SameKeyListed(entries[0].key);
    forall j | 0 <= j < |dict| ensures !SameKey(dict[j].key, e.key) {
      assert !SameKey((dict + entries)[j].key, (dict + entries)[|dict|].key);
    }
    var all := dict + [e] + entries[1..];
    forall j, k | 0 <= j < k < |all| ensures !SameKey(all[j].key, all[k].key) {
      assert KeyOf(all[j].key) == KeyOf((dict + entries)[j].key);
      assert KeyOf(all[k].key) == KeyOf((dict + entries)[k].key);
      assert !SameKey((dict + entries)[j].key, (dict + entries)[k].key);
    }
  }

  lemma FirstAndRest(entries: seq<Entry>)
    requires entries != []
    ensures AllEntriesWellFormed(entries)
        ==> WellFormed(entries[0].key) && WellFormed(entries[0].value) && AllEntriesWellFormed(entries[1..])
    ensures AllScalarEntries(entries) <==> ScalarEntry(entries[0]) && AllScalarEntries(entries[1..])
  {
  }

  lemma AppendFirst(dict: seq<Entry>, e: Entry, more: seq<Entry>)
    ensures dict + [e] + more == dict + ([e] + more)
  {
  }

  lemma {:induction false} EntriesRead(dict: seq<Entry>, entries: seq<Entry>, depth: nat, tail: Bytes)
    requires AllEntriesWellFormed(entries) && DistinctKeys(dict + entries) && EncodeEntries(entries, depth).Ok?
    ensures DecodeEntries(dict, EncodeEntries(entries, depth).value + tail, |entries|, depth)
         == Back(AllScalarEntries(entries), dict + ListedEntries(entries), tail)
    decreases entries, 0
  {
    if entries == [] {
      assert [] + tail == tail && dict + [] == dict;
    } else {
      var first, more := EncodeEntry(entries[0], depth).value, EncodeEntries(entries[1..], depth).value;
      var e := ListedEntry(entries[0]);
      Regroup(first, more, tail);
      FirstAndRest(entries);
      EntryReads(entries[0], depth, more + tail);
      SetAtTheEnd(dict, entries);
      EntriesRead(dict + [e], entries[1..], depth, tail);
      AppendFirst(dict, e, ListedEntries(entries[1..]));
    }
  }

  // ------------------------------------------------------------ more bytes behind

  /** A result with more bytes left over. */
  function Longer<T>(r: Result<Read<T>, CodecError>, more: Bytes): Result<Read<T>, CodecError> {
    match r
    case Ok(read) => Ok(Read(read.value, read.rest + more))
    case Err(error) => Err(error)
  }

  lemma NumberExtends(b: Bytes, width: nat, more: Bytes)
    requires Number(b, width) != Err(EndOfInput)
    ensures Number(b + more, width) == Longer(Number(b, width), more)
  {
    assert (b + more)[..width] == b[..width] && (b + more)[width..] == b[width..] + more;
  }

  lemma TakeExtends(b: Bytes, n: nat, more: Bytes)
    requires Take(b, n) != Err(EndOfInput)
    ensures Take(b + more, n) == Longer(Take(b, n), more)
  {
    assert (b + more)[..n] == b[..n] && (b + more)[n..] == b[n..] + more;
  }

  lemma HeadExtends(b: Bytes, more: Bytes)
    requires ReadHead(b) != Err(EndOfInput)
    ensures ReadHead(b + more) == Longer(ReadHead(b), more)
  {
    assert (b + more)[1..] == b[1..] + more;
    if MarkerOf(b[0]).Sized? {
      NumberExtends(b[1..], MarkerOf(b[0]).width, more);
    }
  }

  /** Unless the bytes ran out, reading does not depend on what comes behind. */
  lemma {:induction false} DecodeExtends(b: Bytes, depth: nat, more: Bytes)
    requires Decode(b, depth) != Err(EndOfInput)
    ensures Decode(b + more, depth) == Longer(Decode(b, depth), more)
    decreases Levels(depth), 0, 1
  {
    if depth <= MAX_DEPTH {
      HeadExtends(b, more);
      if ReadHead(b).Ok? {
        var rest := ReadHead(b).value.rest;
        match ReadHead(b).value.value
        case Scalar(_) =>
        case Text(n) => TakeExtends(rest, n, more);
        case Raw(n) => TakeExtends(rest, n, more);
        case Array(n) => ItemsExtend(rest, n, depth + 1, more);
        case Map(n) => EntriesExtend([], rest, n, depth + 1, more);
      }
    }
  }

  lemma {:induction false} ItemsExtend(b: Bytes, n: nat, depth: nat, more: Bytes)
    requires DecodeItems(b, n, depth) != Err(EndOfInput)
    ensures DecodeItems(b + more, n, depth) == Longer(DecodeItems(b, n, depth), more)
    decreases Levels(depth), 1, n
  {
    if n > 0 {
      DecodeExtends(b, depth, more);
      if Decode(b, depth).Ok? {
        ItemsExtend(Decode(b, depth).value.rest, n - 1, depth, more);
      }
    }
  }

  lemma {:induction false} EntryExtends(b: Bytes, depth: nat, more: Bytes)
    requires DecodeEntry(b, depth) != Err(EndOfInput)
    ensures DecodeEntry(b + more, depth) == Longer(DecodeEntry(b, depth), more)
    decreases Levels(depth), 0, 2
  {
    DecodeExtends(b, depth, more);
    if Decode(b, depth).Ok? {
      DecodeExtends(Decode(b, depth).value.rest, depth, more);
    }
  }

  lemma {:induction false} EntriesExtend(dict: seq<Entry>, b: Bytes, n: nat, depth: nat, more: Bytes)
    requires DecodeEntries(dict, b, n, depth) != Err(EndOfInput)
    ensures DecodeEntries(dict, b + more, n, depth) == Longer(DecodeEntries(dict, b, n, depth), more)
    decreases Levels(depth), 1, n
  {
    if n > 0 {
      EntryExtends(b, depth, more);
      if DecodeEntry(b, depth).Ok? {
        var e := DecodeEntry(b, depth).value;
        EntriesExtend(SetItem(dict, e.value.key, e.value.value), e.rest, n - 1, depth, more);
      }
    }
  }

  /** Cut short anywhere, an encoding is refused; and, unless a tuple is used as a dict key,
      for want of more bytes. */
  lemma CutShortIsRefused(v: Py, k: nat)
    requires WellFormed(v) && Encode(v, 0).Ok? && k < |Encode(v, 0).value|
    ensures Decode(Encode(v, 0).value[..k], 0).Err?
    ensures ScalarKeys(v) ==> Decode(Encode(v, 0).value[..k], 0) == Err(EndOfInput)
  {
    var bytes := Encode(v, 0).value;
    ReadingUndoesWriting(v, 0, []);
    assert bytes + [] == bytes && bytes[..k] + bytes[k..] == bytes;
    if Decode(bytes[..k], 0) != Err(EndOfInput) {
      DecodeExtends(bytes[..k], 0, bytes[k..]);
    }
  }

  // --------------------------------------------------- encodings tell values apart

  /** The head an encoding starts with, and what comes after it. */
  function HeadFor(v: Py): Head {
    match v
    case PyStr(text) => Text(|Utf8.Encode(text)|)
    case PyBytes(data) => Raw(|data|)
    case PyList(items) => Array(|items|)
    case PyTuple(items) => Array(|items|)
    case PyDict(entries) => Map(|entries|)
    case _ => Scalar(v)
  }

  function Body(v: Py, depth: nat): Bytes
    requires Encode(v, depth).Ok?
  {
    match v
    case PyStr(text) => Utf8.Encode(text)
    case PyBytes(data) => data
    case PyList(items) => EncodeAll(items, depth + 1).value
    case PyTuple(items) => EncodeAll(items, depth + 1).value
    case PyDict(entries) => EncodeEntries(entries, depth + 1).value
    case _ => []
  }

  lemma HeadOfEncoding(v: Py, depth: nat, tail: Bytes)
    requires Encode(v, depth).Ok?
    ensures ReadHead(Encode(v, depth).value + tail) == Ok(Read(HeadFor(v), Body(v, depth) + tail))
  {
    var body := Body(v, depth);
    assert [] + tail == tail;
    match v
    case PyStr(_) =>
      Regroup(StrHeader(|body|).value, body, tail);
      StrHeaderReads(|body|, body + tail);
    case PyBytes(_) =>
      Regroup(BinHeader(|body|).value, body, tail);
      BinHeaderReads(|body|, body + tail);
    case PyList(items) =>
      Regroup(ArrayHeader(|items|).value, body, tail);
      ArrayHeaderReads(|items|, body + tail);
    case PyTuple(items) =>
      Regroup(ArrayHeader(|items|).value, body, tail);
      ArrayHeaderReads(|items|, body + tail);
    case PyDict(entries) =>
      Regroup(MapHeader(|entries|).value, body, tail);
      MapHeaderReads(|entries|, body + tail);
    case _ => ScalarReads(v, depth, tail);
  }

  lemma SameFront(a: Bytes, b: Bytes, x: Bytes, y: Bytes)
    requires |a| == |b| && a + x == b + y
    ensures a == b && x == y
  {
    assert a == (a + x)[..|a|] && b == (b + y)[..|b|];
    assert x == (a + x)[|a|..] && y == (b + y)[|b|..];
  }

  lemma SameText(a: string, b: string)
    requires Utf8.Encode(a) == Utf8.Encode(b)
    ensures a == b
  {
    Utf8.DecodeOf(a);
    Utf8.DecodeOf(b);
  }

  /** Two values with the same bytes are the same, tuples read as lists; and no encoding is
      the beginning of another, so that encodings can stand one behind the other. */
  lemma {:induction false} EncodingIsInjective(v: Py, w: Py, depth: nat, behindV: Bytes, behindW: Bytes)
    requires Encode(v, depth).Ok? && Encode(w, depth).Ok?
    requires Encode(v, depth).value + behindV == Encode(w, depth).value + behindW
    ensures Listed(v) == Listed(w) && behindV == behindW
    decreases v, 2
  {
    HeadOfEncoding(v, depth, behindV);
    HeadOfEncoding(w, depth, behindW);
    match v {
      case PyStr(text) =>
        SameFront(Utf8.Encode(text), Utf8.Encode(w.text), behindV, behindW);
        SameText(text, w.text);
      case PyBytes(data) => SameFront(data, w.data, behindV, behindW);
      case PyList(items) => ItemsAreInjective(items, w.items, depth + 1, behindV, behindW);
      case PyTuple(items) => ItemsAreInjective(items, w.items, depth + 1, behindV, behindW);
      case PyDict(entries) => EntriesAreInjective(entries, w.entries, depth + 1, behindV, behindW);
      case _ => SameFront([], [], behindV, behindW);
    }
  }

  lemma {:induction false} ItemsAreInjective(a: seq<Py>, b: seq<Py>, depth: nat, x: Bytes, y: Bytes)
    requires |a| == |b| && EncodeAll(a, depth).Ok? && EncodeAll(b, depth).Ok?
    requires EncodeAll(a, depth).value + x == EncodeAll(b, depth).value + y
    ensures ListedAll(a) == ListedAll(b) && x == y
    decreases a, 0
  {
    if a == [] {
      SameFront([], [], x, y);
    } else {
      var more, more' := EncodeAll(a[1..], depth).value, EncodeAll(b[1..], depth).value;
      Regroup(Encode(a[0], depth).value, more, x);
      Regroup(Encode(b[0], depth).value, more', y);
      EncodingIsInjective(a[0], b[0], depth, more + x, more' + y);
      ItemsAreInjective(a[1..], b[1..], depth, x, y);
    }
  }

  lemma {:induction false} EntryIsInjective(e: Entry, f: Entry, depth: nat, x: Bytes, y: Bytes)
    requires EncodeEntry(e, depth).Ok? && EncodeEntry(f, depth).Ok?
    requires EncodeEntry(e, depth).value + x == EncodeEntry(f, depth).value + y
    ensures ListedEntry(e) == ListedEntry(f) && x == y
    decreases e, 2
  {
    var value, value' := Encode(e.value, depth).value, Encode(f.value, depth).value;
    Regroup(Encode(e.key, depth).value, value, x);
    Regroup(Encode(f.key, depth).value, value', y);
    EncodingIsInjective(e.key, f.key, depth, value + x, value' + y);
    EncodingIsInjective(e.value, f.value, depth, x, y);
  }

  lemma {:induction false} EntriesAreInjective(a: seq<Entry>, b: seq<Entry>, depth: nat, x: Bytes, y: Bytes)
    requires |a| == |b| && EncodeEntries(a, depth).Ok? && EncodeEntries(b, depth).Ok?
    requires EncodeEntries(a, depth).value + x == EncodeEntries(b, depth).value + y
    ensures ListedEntries(a) == ListedEntries(b) && x == y
    decreases a, 0
  {
    if a == [] {
      SameFront([], [], x, y);
    } else {
      var more, more' := EncodeEntries(a[1..], depth).value, EncodeEntries(b[1..], depth).value;
      Regroup(EncodeEntry(a[0], depth).value, more, x);
      Regroup(EncodeEntry(b[0], depth).value, more', y);
      EntryIsInjective(a[0], b[0], depth, more + x, more' + y);
      EntriesAreInjective(a[1..], b[1..], depth, x, y);
    }
  }

  // ---------------------------------------------------------- what can be written

  /** How many levels of containers with something in them a value has. */
  function Height(v: Py): nat
    decreases v, 1
  {
    match v
    case PyList(items) => HeightOfAll(items)
    case PyTuple(items) => HeightOfAll(items)
    case PyDict(entries) => HeightOfEntries(entries)
    case _ => 0
  }

  function HeightOfAll(items: seq<Py>): nat
    decreases items, 0
  {
    if items == [] then 0 else Max(1 + Height(items[0]), HeightOfAll(items[1..]))
  }

  function HeightOfEntry(e: Entry): nat
    decreases e, 1
  {
    Max(Height(e.key), Height(e.value))
  }

  function HeightOfEntries(entries: seq<Entry>): nat
    decreases entries, 0
  {
    if entries == [] then 0 else Max(1 + HeightOfEntry(entries[0]), HeightOfEntries(entries[1..]))
  }

  /** The format has a place for every part of the value. */
  predicate Writable(v: Py)
    decreases v, 1
  {
    match v
    case PyInt(i) => -0x8000_0000_0000_0000 <= i < 0x1_0000_0000_0000_0000
    case PyStr(text) => |Utf8.Encode(text)| < 0x1_0000_0000
    case PyBytes(data) => |data| < 0x1_0000_0000
    case PyList(items) => |items| < 0x1_0000_0000 && AllWritable(items)
    case PyTuple(items) => |items| < 0x1_0000_0000 && AllWritable(items)
    case PyDict(entries) => |entries| < 0x1_0000_0000 && EntriesWritable(entries)
    case SurrogateStr => false
    case PyOther => false
    case _ => true
  }

  predicate AllWritable(items: seq<Py>)
    decreases items, 0
  {
    items == [] || (Writable(items[0]) && AllWritable(items[1..]))
  }

  predicate EntryWritable(e: Entry)
    decreases e, 1
  {
    Writable(e.key) && Writable(e.value)
  }

  predicate EntriesWritable(entries: seq<Entry>)
    decreases entries, 0
  {
    entries == [] || (EntryWritable(entries[0]) && EntriesWritable(entries[1..]))
  }

  /** A value is written exactly when the format has a place for all its parts and it nests
      within the limit. */
  lemma {:induction false} WrittenIff(v: Py, depth: nat)
    requires depth <= MAX_DEPTH
    ensures Encode(v, depth).Ok? <==> Writable(v) && depth + Height(v) <= MAX_DEPTH
    decreases v, 1
  {
    match v {
      case PyList(items) => AllWrittenIff(items, depth);
      case PyTuple(items) => AllWrittenIff(items, depth);
      case PyDict(entries) => EntriesWrittenIff(entries, depth);
      case _ =>
    }
  }

  lemma NothingBelowTheLimit(v: Py)
    ensures Encode(v, MAX_DEPTH + 1) == Err(TooDeep)
  {
  }

  lemma FirstItemWritten(items: seq<Py>, depth: nat)
    requires items != []
    ensures EncodeAll(items, depth) == Then(Encode(items[0], depth), EncodeAll(items[1..], depth))
    ensures HeightOfAll(items) == Max(1 + Height(items[0]), HeightOfAll(items[1..]))
    ensures AllWritable(items) <==> Writable(items[0]) && AllWritable(items[1..])
  {
  }

  lemma FirstItem(items: seq<Py>)
    requires items != []
    ensures HeightOfAll(items) == Max(1 + Height(items[0]), HeightOfAll(items[1..]))
    ensures AllWritable(items) <==> Writable(items[0]) && AllWritable(items[1..])
  {
  }

  lemma FirstEntryWritten(entries: seq<Entry>, depth: nat)
    requires entries != []
    ensures EncodeEntries(entries, depth) == Then(EncodeEntry(entries[0], depth), EncodeEntries(entries[1..], depth))
    ensures HeightOfEntries(entries) == Max(1 + HeightOfEntry(entries[0]), HeightOfEntries(entries[1..]))
    ensures EntriesWritable(entries) <==> EntryWritable(entries[0]) && EntriesWritable(entries[1..])
  {
  }

  lemma {:induction false} ItemWrittenIff(v: Py, depth: nat)
    requires depth <= MAX_DEPTH
    ensures Encode(v, depth + 1).Ok? <==> Writable(v) && depth + 1 + Height(v) <= MAX_DEPTH
    decreases v, 2
  {
    if depth < MAX_DEPTH {
      WrittenIff(v, depth + 1);
    } else {
      NothingBelowTheLimit(v);
    }
  }

  lemma {:induction false} AllWrittenIff(items: seq<Py>, depth: nat)
    requires depth <= MAX_DEPTH
    ensures EncodeAll(items, depth + 1).Ok? <==> AllWritable(items) && depth + HeightOfAll(items) <= MAX_DEPTH
    decreases items, 0
  {
    if items != [] {
      FirstItemWritten(items, depth + 1);
      ItemWrittenIff(items[0], depth);
      AllWrittenIff(items[1..], depth);
    }
  }

  lemma {:induction false} EntryWrittenIff(e: Entry, depth: nat)
    requires depth <= MAX_DEPTH
    ensures EncodeEntry(e, depth + 1).Ok? <==> EntryWritable(e) && depth + 1 + HeightOfEntry(e) <= MAX_DEPTH
    decreases e, 1
  {
    ItemWrittenIff(e.key, depth);
    ItemWrittenIff(e.value, depth);
  }

  lemma {:induction false} EntriesWrittenIff(entries: seq<Entry>, depth: nat)
    requires depth <= MAX_DEPTH
    ensures EncodeEntries(entries, depth + 1).Ok? <==> EntriesWritable(entries) && depth + HeightOfEntries(entries) <= MAX_DEPTH
    decreases entries, 0
  {
    if entries != [] {
      FirstEntryWritten(entries, depth + 1);
      EntryWrittenIff(entries[0], depth);
      EntriesWrittenIff(entries[1..], depth);
    }
  }

  // --------------------------------------------------------- values the codec fails

  /** `{(1,): None}`. */
  function TupleKeyed(): Py {
    PyDict([Entry(PyTuple([PyInt(1)]), PyNone)])
  }

  /** A dict with a tuple for a key: it is written, but what was written is refused. */
  lemma TupleKeyIsNotRead(tail: Bytes)
    ensures var v := TupleKeyed();
            WellFormed(v) && Encode(v, 0).Ok? && Decode(Encode(v, 0).value + tail, 0) == Err(Unhashable)
  {
    var t := PyTuple([PyInt(1)]);
    var entries := [Entry(t, PyNone)];
    assert WellFormed(t) by {
      assert WellFormed(t.items[0]);
    }
    assert !ScalarKey(entries[0].key);
    OneKeyHeight(t);
    WrittenIff(PyDict(entries), 0);
    ReadingUndoesWriting(PyDict(entries), 0, tail);
  }

  lemma OneKeyHeight(key: Py)
    ensures HeightOfEntries([Entry(key, PyNone)]) == 1 + Height(key)
    ensures EntriesWritable([Entry(key, PyNone)]) <==> Writable(key)
    ensures HeightOfAll([PyInt(1)]) == 1 && AllWritable([PyInt(1)])
  {
    FirstEntryWritten([Entry(key, PyNone)], 0);
    FirstItemWritten([PyInt(1)], 0);
    assert [Entry(key, PyNone)][1..] == [] && [PyInt(1)][1..] == [];
    assert EntryWritable(Entry(key, PyNone)) <==> Writable(key);
    assert EntriesWritable([]);
  }
}
