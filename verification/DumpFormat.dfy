/** The dump file: a header, then one length-prefixed frame per entry; what is written for a
    list of entries, what a file is parsed to, and what loading it does to a store. */
module DumpFormat {
  import opened ByteStrings
  import opened Codec
  import opened CodecAccepts
  import opened CodecRoundTrip
  import opened PyValues
  import opened Wrappers
  import Utf8

  type Pair = (string, string)

  /** What a store holds, as its callers see it. */
  type Contents = map<Pair, Py>

  datatype Item = Item(ns: string, key: string, value: Py)

  /** What a frame holds; a foreign file may have anything where the names belong. */
  datatype Triple = Triple(ns: Py, key: Py, value: Py)

  datatype DumpError = Unencodable(e: CodecError) | FrameTooLong

  datatype LoadError = BadHeader | NoVersion | BadVersion(v: Byte) | Truncated | Undecodable(e: CodecError) | Corrupt | NotText

  const MAGIC: Bytes := [0x53, 0x57, 0x53, 0x54, 0x41, 0x54, 0x45]
  const VERSION: Byte := 1
  const FRAME_LIMIT: nat := 0x1_0000_0000

  // ----------------------------------------------------------------------- writing

  function Entry3(e: Item): Py {
    PyList([PyStr(e.ns), PyStr(e.key), e.value])
  }

  function Frame(e: Item): Result<Bytes, DumpError> {
    match Encode(Entry3(e), 0)
    case Err(error) => Err(Unencodable(error))
    case Ok(bytes) => if |bytes| < FRAME_LIMIT then Ok(BigEndian(|bytes|, 4) + bytes) else Err(FrameTooLong)
  }

  /** The frames written before the first entry that has none, and the error it met. */
  datatype Written = Written(bytes: Bytes, count: nat, error: Option<DumpError>)

  function FramesOf(items: seq<Item>): Written {
    if items == [] then Written([], 0, None)
    else match Frame(items[0])
      case Err(error) => Written([], 0, Some(error))
      case Ok(frame) =>
        var more := FramesOf(items[1..]);
        Written(frame + more.bytes, 1 + more.count, more.error)
  }

  // ----------------------------------------------------------------------- parsing

  function TripleIn(v: Py): Result<Triple, LoadError> {
    if v.PyList? && |v.items| == 3 then Ok(Triple(v.items[0], v.items[1], v.items[2])) else Err(Corrupt)
  }

  function TripleOfFrame(frame: Bytes): Result<Triple, LoadError> {
    match Decode(frame, 0)
    case Err(error) => Err(Undecodable(error))
    case Ok(read) => TripleIn(read.value)
  }

  /** The frame at the front. */
  function NextFrame(b: Bytes): Result<Read<Triple>, LoadError>
    requires b != []
  {
    if |b| < 4 then Err(Truncated)
    else
      var length := FromBigEndian(b[..4]);
      if |b| - 4 < length then Err(Truncated)
      else match TripleOfFrame(b[4..4 + length])
        case Err(error) => Err(error)
        case Ok(t) => Ok(Read(t, b[4 + length..]))
  }

  /** The entries of the whole frames at the front, and what ended them. */
  datatype Parsed = Parsed(triples: seq<Triple>, end: Option<LoadError>)

  function Prefixed(t: Triple, p: Parsed): Parsed {
    Parsed([t] + p.triples, p.end)
  }

  function ParseFrames(b: Bytes): Parsed
    decreases |b|
  {
    if b == [] then Parsed([], None)
    else match NextFrame(b)
      case Err(error) => Parsed([], Some(error))
      case Ok(read) => Prefixed(read.value, ParseFrames(read.rest))
  }

  function ParseFile(file: Bytes): Parsed {
    if |file| < |MAGIC| || file[..|MAGIC|] != MAGIC then Parsed([], Some(BadHeader))
    else if |file| == |MAGIC| then Parsed([], Some(NoVersion))
    else if file[|MAGIC|] != VERSION then Parsed([], Some(BadVersion(file[|MAGIC|])))
    else ParseFrames(file[|MAGIC| + 1..])
  }

  // ----------------------------------------------------------------------- storing

  predicate IsText(t: Triple) {
    t.ns.PyStr? && t.key.PyStr?
  }

  predicate AllText(triples: seq<Triple>) {
    forall i :: 0 <= i < |triples| ==> IsText(triples[i])
  }

  function SetTriple(c: Contents, t: Triple): Contents
    requires IsText(t)
  {
    c[(t.ns.text, t.key.text) := t.value]
  }

  /** Entries set one after the other. */
  function SetTriples(c: Contents, triples: seq<Triple>): Contents
    requires AllText(triples)
    decreases |triples|
  {
    if triples == [] then c else SetTriples(SetTriple(c, triples[0]), triples[1..])
  }

  /** The store after loading, and the error that stopped it. */
  datatype Loaded = Loaded(contents: Contents, error: Option<LoadError>)

  /** Entries are stored in batches as they come; an error leaves the batches before it. */
  function LoadInBatches(c: Contents, p: Parsed, batch: nat): Loaded
    requires batch > 0
    decreases |p.triples|
  {
    if |p.triples| >= batch then
      if AllText(p.triples[..batch]) then
        LoadInBatches(SetTriples(c, p.triples[..batch]), Parsed(p.triples[batch..], p.end), batch)
      else Loaded(c, Some(NotText))
    else if p.end.Some? then Loaded(c, p.end)
    else if AllText(p.triples) then Loaded(SetTriples(c, p.triples), None)
    else Loaded(c, Some(NotText))
  }

  lemma {:induction false} SetTriplesConcat(c: Contents, a: seq<Triple>, b: seq<Triple>)
    requires AllText(a) && AllText(b)
    ensures AllText(a + b) && SetTriples(c, a + b) == SetTriples(SetTriples(c, a), b)
    decreases |a|
  {
    if a == [] {
      assert a + b == b;
    } else {
      assert (a + b)[1..] == a[1..] + b;
      SetTriplesConcat(SetTriple(c, a[0]), a[1..], b);
    }
  }

  /** Whatever the size of the batches, a load succeeds exactly when the file is whole and
      its names are text, and then every entry is stored. */
  lemma {:induction false} BatchesDoNotMatter(c: Contents, p: Parsed, batch: nat)
    requires batch > 0
    ensures LoadInBatches(c, p, batch).error.None? <==> p.end.None? && AllText(p.triples)
    ensures p.end.None? && AllText(p.triples) ==> LoadInBatches(c, p, batch).contents == SetTriples(c, p.triples)
    decreases |p.triples|
  {
    if |p.triples| >= batch {
      var first, rest := p.triples[..batch], p.triples[batch..];
      assert first + rest == p.triples;
      assert AllText(p.triples) <==> AllText(first) && AllText(rest) by {
        if AllText(first) && AllText(rest) { SetTriplesConcat(c, first, rest); }
      }
      if AllText(first) {
        BatchesDoNotMatter(SetTriples(c, first), Parsed(rest, p.end), batch);
        if AllText(rest) { SetTriplesConcat(c, first, rest); }
      }
    }
  }

  /** How many of `n` entries go into full batches. */
  function InFullBatches(n: nat, batch: nat): (k: nat)
    requires batch > 0
    ensures k <= n < k + batch
  {
    if n < batch then 0 else batch + InFullBatches(n - batch, batch)
  }

  lemma {:induction false} FullBatchesAreWhole(n: nat, batch: nat) returns (times: nat)
    requires batch > 0
    ensures InFullBatches(n, batch) == times * batch
  {
    if n < batch {
      times := 0;
    } else {
      times := FullBatchesAreWhole(n - batch, batch);
      times := times + 1;
    }
  }

  /** A broken file leaves the full batches before the break in the store, and no more. */
  lemma {:induction false} BrokenFileLeavesBatches(c: Contents, p: Parsed, batch: nat) returns (times: nat)
    requires batch > 0 && p.end.Some? && AllText(p.triples)
    ensures InFullBatches(|p.triples|, batch) == times * batch
    ensures var kept := p.triples[..InFullBatches(|p.triples|, batch)];
            AllText(kept) && LoadInBatches(c, p, batch) == Loaded(SetTriples(c, kept), p.end)
    decreases |p.triples|
  {
    if |p.triples| >= batch {
      var first, rest := p.triples[..batch], p.triples[batch..];
      var k := InFullBatches(|rest|, batch);
      var _ := BrokenFileLeavesBatches(SetTriples(c, first), Parsed(rest, p.end), batch);
      SetTriplesConcat(c, first, rest[..k]);
      assert first + rest[..k] == p.triples[..batch + k];
    } else {
      assert p.triples[..0] == [];
    }
    times := FullBatchesAreWhole(|p.triples|, batch);
  }

  // ------------------------------------------------------------ reading what was written

  function TripleOf(e: Item): Triple {
    Triple(PyStr(e.ns), PyStr(e.key), e.value)
  }

  function TriplesOf(items: seq<Item>): (r: seq<Triple>)
    ensures |r| == |items|
  {
    if items == [] then [] else [TripleOf(items[0])] + TriplesOf(items[1..])
  }

  /** A value as a store gives it back. */
  ghost predicate FromStore(v: Py) {
    Good(v, 0)
  }

  ghost predicate AllFromStore(items: seq<Item>) {
    forall i :: 0 <= i < |items| ==> FromStore(items[i].value)
  }

  lemma OneItem(a: Py)
    ensures HeightOfAll([a]) == 1 + Height(a) && (AllWritable([a]) <==> Writable(a))
  {
    FirstItem([a]);
    assert [a][1..] == [];
  }

  lemma TwoItems(a: Py, b: Py)
    ensures HeightOfAll([a, b]) == Max(1 + Height(a), 1 + Height(b))
    ensures AllWritable([a, b]) <==> Writable(a) && Writable(b)
  {
    assert [a, b][1..] == [b];
    OneItem(b);
    FirstItem([a, b]);
  }

  lemma ThreeItems(a: Py, b: Py, c: Py)
    ensures HeightOfAll([a, b, c]) == Max(1 + Height(a), Max(1 + Height(b), 1 + Height(c)))
    ensures AllWritable([a, b, c]) <==> Writable(a) && Writable(b) && Writable(c)
  {
    assert [a, b, c][1..] == [b, c];
    TwoItems(b, c);
    FirstItem([a, b, c]);
  }

  /** What fits into a frame: in it a value nests one level deeper. */
  predicate FitsFrame(e: Item) {
    && Writable(PyStr(e.ns)) && Writable(PyStr(e.key))
    && Height(e.value) < MAX_DEPTH
    && (Encode(Entry3(e), 0).Ok? ==> |Encode(Entry3(e), 0).value| < FRAME_LIMIT)
  }

  /** Of all that a store can hold, exactly what nests within one level less than the
      limit, and is not too long, has a frame. */
  lemma FrameIff(e: Item)
    requires FromStore(e.value)
    ensures Frame(e).Ok? <==> FitsFrame(e)
  {
    WrittenIff(Entry3(e), 0);
    ThreeItems(PyStr(e.ns), PyStr(e.key), e.value);
    WrittenIff(e.value, 0);
  }

  /** A list in a list, `n` levels of them. */
  function Nested(n: nat): Py {
    if n == 0 then PyNone else PyList([Nested(n - 1)])
  }

  lemma {:induction false} NestedHeight(n: nat)
    ensures Height(Nested(n)) == n && Writable(Nested(n))
  {
    if n > 0 {
      NestedHeight(n - 1);
      InAList(Nested(n - 1));
    }
  }

  lemma InAList(v: Py)
    ensures Height(PyList([v])) == 1 + Height(v) && (Writable(PyList([v])) <==> Writable(v))
  {
    OneItem(v);
  }

  lemma {:induction false} NestedIsPlain(n: nat)
    ensures WellFormed(Nested(n)) && ScalarKeys(Nested(n)) && NoTuples(Nested(n))
  {
    if n > 0 { NestedIsPlain(n - 1); }
  }

  /** A value that a store takes and gives back, and that has no frame. */
  lemma DeepestValueIsNotDumped()
    ensures FromStore(Nested(MAX_DEPTH)) && Frame(Item("ns", "key", Nested(MAX_DEPTH))).Err?
  {
    NestedHeight(MAX_DEPTH);
    NestedIsPlain(MAX_DEPTH);
    WrittenIff(Nested(MAX_DEPTH), 0);
    FrameIff(Item("ns", "key", Nested(MAX_DEPTH)));
  }

  lemma FrameIsParsed(e: Item, tail: Bytes)
    requires FromStore(e.value) && Frame(e).Ok?
    ensures |Frame(e).value| >= 4 && NextFrame(Frame(e).value + tail) == Ok(Read(TripleOf(e), tail))
  {
    var bytes := Encode(Entry3(e), 0).value;
    var size := BigEndian(|bytes|, 4);
    var b := size + bytes + tail;
    Limits();
    FromBigEndianOf(|bytes|, 4);
    assert b[..4] == size && b[4..4 + |bytes|] == bytes && b[4 + |bytes|..] == tail;
    FrameHoldsEntry(e);
  }

  lemma FrameHoldsEntry(e: Item)
    requires FromStore(e.value) && Encode(Entry3(e), 0).Ok?
    ensures TripleOfFrame(Encode(Entry3(e), 0).value) == Ok(TripleOf(e))
  {
    var v := Entry3(e);
    ReadingUndoesWriting(v, 0, []);
    assert Encode(v, 0).value + [] == Encode(v, 0).value;
    NothingToList(v);
  }

  lemma FirstFrameIsParsed(e: Item, behind: Bytes)
    requires FromStore(e.value) && Frame(e).Ok?
    ensures ParseFrames(Frame(e).value + behind) == Prefixed(TripleOf(e), ParseFrames(behind))
  {
    FrameIsParsed(e, behind);
  }

  /** Frames that were written are parsed to their entries, whatever comes behind them. */
  lemma {:induction false} FramesAreParsed(items: seq<Item>, tail: Bytes)
    requires AllFromStore(items) && FramesOf(items).error.None?
    ensures var p := ParseFrames(tail);
            ParseFrames(FramesOf(items).bytes + tail) == Parsed(TriplesOf(items) + p.triples, p.end)
    decreases |items|
  {
    if items == [] {
      assert [] + tail == tail && [] + ParseFrames(tail).triples == ParseFrames(tail).triples;
    } else {
      var e, rest := items[0], items[1..];
      var frame, more := Frame(e).value, FramesOf(rest).bytes;
      Regroup(frame, more, tail);
      assert FromStore(e.value);
      FirstFrameIsParsed(e, more + tail);
      FramesAreParsed(rest, tail);
      RegroupTriples(TripleOf(e), TriplesOf(rest), ParseFrames(tail).triples);
    }
  }

  lemma RegroupTriples(t: Triple, a: seq<Triple>, b: seq<Triple>)
    ensures [t] + (a + b) == [t] + a + b
  {
  }

  /** A part of a frame, empty or not, is no frame. */
  lemma PartOfFrame(e: Item, k: nat)
    requires Frame(e).Ok? && k < |Frame(e).value|
    ensures ParseFrames(Frame(e).value[..k]) == Parsed([], if k == 0 then None else Some(Truncated))
  {
    if k >= 4 {
      var bytes := Encode(Entry3(e), 0).value;
      assert Frame(e).value[..k][..4] == BigEndian(|bytes|, 4);
      Limits();
      FromBigEndianOf(|bytes|, 4);
    }
  }

  /** The frames of a list are those of its first entry and of the rest. */
  function After(frame: Bytes, more: Written): Written {
    Written(frame + more.bytes, 1 + more.count, more.error)
  }

  lemma FirstFrame(e: Item, rest: seq<Item>)
    requires Frame(e).Ok?
    ensures FramesOf([e] + rest) == After(Frame(e).value, FramesOf(rest))
  {
    assert ([e] + rest)[1..] == rest;
  }

  lemma AfterConcat(frame: Bytes, a: Written, b: Written)
    ensures After(frame, Written(a.bytes + b.bytes, a.count + b.count, b.error))
         == Written(After(frame, a).bytes + b.bytes, After(frame, a).count + b.count, b.error)
  {
    assert frame + (a.bytes + b.bytes) == frame + a.bytes + b.bytes;
  }

  lemma {:induction false} FramesConcat(a: seq<Item>, b: seq<Item>)
    requires FramesOf(a).error.None?
    ensures FramesOf(a + b)
         == Written(FramesOf(a).bytes + FramesOf(b).bytes, FramesOf(a).count + FramesOf(b).count, FramesOf(b).error)
    ensures FramesOf(a).count == |a|
    decreases |a|
  {
    if a == [] {
      assert a + b == b && [] + FramesOf(b).bytes == FramesOf(b).bytes;
    } else {
      var e, rest := a[0], a[1..];
      assert a == [e] + rest && a + b == [e] + (rest + b);
      FramesConcat(rest, b);
      FirstFrame(e, rest);
      FirstFrame(e, rest + b);
      AfterConcat(Frame(e).value, FramesOf(rest), FramesOf(b));
    }
  }

  lemma TakeInto(start: Bytes, frame: Bytes, more: Bytes, k: nat)
    requires k <= |frame|
    ensures (start + (frame + more))[..|start| + k] == start + frame[..k]
  {
  }

  /** Where a cut falls. */
  lemma CutAt(items: seq<Item>, j: nat, k: nat)
    requires FramesOf(items).error.None? && j < |items| && Frame(items[j]).Ok? && k < |Frame(items[j]).value|
    ensures FramesOf(items[..j]).error.None?
    ensures var start := FramesOf(items[..j]).bytes;
            && |start| + k < |FramesOf(items).bytes|
            && FramesOf(items).bytes[..|start| + k] == start + Frame(items[j]).value[..k]
  {
    var before, e, after := items[..j], items[j], items[j + 1..];
    assert items == before + ([e] + after);
    CutBefore(before, [e] + after);
    FramesConcat(before, [e] + after);
    FirstFrame(e, after);
    TakeInto(FramesOf(before).bytes, Frame(e).value, FramesOf(after).bytes, k);
  }

  /** A file cut off `k` bytes into the frame of entry `items[j]` gives the entries before
      it; and is refused as truncated, unless it was cut exactly between two frames. */
  lemma CutFilesAreRefused(items: seq<Item>, j: nat, k: nat)
    requires AllFromStore(items) && FramesOf(items).error.None? && j < |items|
    requires Frame(items[j]).Ok? && k < |Frame(items[j]).value|
    ensures var at := |FramesOf(items[..j]).bytes| + k;
            && at < |FramesOf(items).bytes|
            && ParseFrames(FramesOf(items).bytes[..at])
                 == Parsed(TriplesOf(items[..j]), if k == 0 then None else Some(Truncated))
  {
    CutAt(items, j, k);
    FramesAreParsed(items[..j], Frame(items[j]).value[..k]);
    PartOfFrame(items[j], k);
    NothingMore(TriplesOf(items[..j]));
  }

  lemma NothingMore(triples: seq<Triple>)
    ensures triples + [] == triples
  {
  }

  lemma {:induction false} CutBefore(a: seq<Item>, b: seq<Item>)
    requires FramesOf(a + b).error.None?
    ensures FramesOf(a).error.None?
    decreases |a|
  {
    if a != [] {
      assert (a + b)[1..] == a[1..] + b;
      CutBefore(a[1..], b);
    }
  }

  /** Every place to cut is some way into the frame of some entry. */
  lemma {:induction false} EveryCutIsInAFrame(items: seq<Item>, at: nat) returns (j: nat, k: nat)
    requires FramesOf(items).error.None? && at < |FramesOf(items).bytes|
    ensures j < |items| && Frame(items[j]).Ok? && k < |Frame(items[j]).value|
    ensures FramesOf(items[..j]).error.None? && at == |FramesOf(items[..j]).bytes| + k
    decreases |items|
  {
    var size := |Frame(items[0]).value|;
    if at < size {
      j, k := 0, at;
    } else {
      j, k := EveryCutIsInAFrame(items[1..], at - size);
      j := j + 1;
      FirstFrame(items[0], items[1..][..j - 1]);
      assert [items[0]] + items[1..][..j - 1] == items[..j];
    }
  }

  // ------------------------------------------------------------------- whole files

  function FileOf(items: seq<Item>): Bytes {
    MAGIC + [VERSION] + FramesOf(items).bytes
  }

  lemma FileIsParsed(b: Bytes)
    ensures ParseFile(MAGIC + [VERSION] + b) == ParseFrames(b)
  {
    var file := MAGIC + [VERSION] + b;
    assert file[..|MAGIC|] == MAGIC && file[|MAGIC|] == VERSION && file[|MAGIC| + 1..] == b;
  }

  /** Byte `at` is the first of the frame of `items[j]`, or inside it. */
  predicate FallsIn(items: seq<Item>, at: nat, j: nat) {
    j < |items| && |FileOf(items[..j])| <= at < |FileOf(items[..j + 1])|
  }

  lemma CutFallsIn(items: seq<Item>, j: nat, k: nat)
    requires j < |items| && FramesOf(items[..j]).error.None? && Frame(items[j]).Ok? && k < |Frame(items[j]).value|
    ensures FallsIn(items, |FileOf(items[..j])| + k, j)
  {
    assert items[..j + 1] == items[..j] + ([items[j]] + []);
    FramesConcat(items[..j], [items[j]] + []);
    FirstFrame(items[j], []);
  }

  /** What a dump cut off at byte `at` is read as: inside the header, not a dump; on the
      first byte of a frame, the dump of the entries before it; inside a frame, those
      entries and a truncated end. */
  lemma CutDumpIsRefused(items: seq<Item>, at: nat) returns (j: nat)
    requires AllFromStore(items) && FramesOf(items).error.None? && at < |FileOf(items)|
    ensures at <= |MAGIC| ==> j == 0
    ensures at > |MAGIC| ==> FallsIn(items, at, j)
    ensures ParseFile(FileOf(items)[..at])
         == Parsed(TriplesOf(items[..j]), if at < |MAGIC| then Some(BadHeader)
                                          else if at == |MAGIC| then Some(NoVersion)
                                          else if at == |FileOf(items[..j])| then None
                                          else Some(Truncated))
  {
    var file, header := FileOf(items), MAGIC + [VERSION];
    if at <= |MAGIC| {
      j := 0;
      assert items[..0] == [];
      if at == |MAGIC| { assert file[..at] == MAGIC; }
    } else {
      var k: nat;
      j, k := EveryCutIsInAFrame(items, at - |header|);
      var start := FramesOf(items[..j]).bytes;
      CutAt(items, j, k);
      CutFallsIn(items, j, k);
      CutFilesAreRefused(items, j, k);
      TakeInto(header, FramesOf(items).bytes, [], |start| + k);
      assert FramesOf(items).bytes + [] == FramesOf(items).bytes;
      assert file[..at] == header + FramesOf(items).bytes[..|start| + k];
      FileIsParsed(FramesOf(items).bytes[..|start| + k]);
    }
  }

  // ------------------------------------------------------------ what a load raises

  datatype Raised = IndexError | ValueError | TypeError

  /** The Python exception behind an error. */
  function RaisedBy(e: LoadError): Raised {
    match e
    case NoVersion => IndexError
    case NotText => TypeError
    case Undecodable(Unhashable) => TypeError
    case Undecodable(Unsupported) => TypeError
    case _ => ValueError
  }

  predicate FrameFault(e: LoadError) {
    e.Truncated? || e.Undecodable? || e.Corrupt?
  }

  lemma {:induction false} OnlyFrameFaults(b: Bytes)
    ensures ParseFrames(b).end.Some? ==> FrameFault(ParseFrames(b).end.value)
    decreases |b|
  {
    if b != [] && NextFrame(b).Ok? {
      OnlyFrameFaults(NextFrame(b).value.rest);
    }
  }

  /** A file has no version byte exactly when it is the magic and nothing else. */
  lemma NoVersionIff(file: Bytes)
    ensures ParseFile(file).end == Some(NoVersion) <==> file == MAGIC
  {
    if |file| > |MAGIC| {
      OnlyFrameFaults(file[|MAGIC| + 1..]);
    }
  }

  /** The entries that go into full batches before the end. */
  function FullPart(p: Parsed, batch: nat): seq<Triple>
    requires batch > 0
  {
    p.triples[..InFullBatches(|p.triples|, batch)]
  }

  /** Which error stops a load: names that are no text in a full batch, else the fault that
      ended the file, else names that are no text in the last batch. */
  lemma {:induction false} FirstFault(c: Contents, p: Parsed, batch: nat)
    requires batch > 0
    ensures LoadInBatches(c, p, batch).error
         == if !AllText(FullPart(p, batch)) then Some(NotText)
            else if p.end.Some? then p.end
            else if !AllText(p.triples) then Some(NotText)
            else None
    decreases |p.triples|
  {
    if |p.triples| >= batch {
      var first, rest := p.triples[..batch], Parsed(p.triples[batch..], p.end);
      TextInParts(first, rest.triples);
      TextInParts(first, FullPart(rest, batch));
      assert first + rest.triples == p.triples && first + FullPart(rest, batch) == FullPart(p, batch);
      if AllText(first) {
        FirstFault(SetTriples(c, first), rest, batch);
      }
    }
  }

  lemma TextInParts(a: seq<Triple>, b: seq<Triple>)
    ensures AllText(a + b) <==> AllText(a) && AllText(b)
  {
    if AllText(a + b) {
      forall i | 0 <= i < |a| ensures IsText(a[i]) { assert a[i] == (a + b)[i]; }
      forall i | 0 <= i < |b| ensures IsText(b[i]) { assert b[i] == (a + b)[|a| + i]; }
    }
  }

  /** What loading a file raises, for every file: an index error exactly if it is the magic
      alone; a type error exactly if names are no text where they are stored, or a map with
      an unhashable key ends the file; a value error exactly if any other fault ends it and
      the full batches before are text. */
  lemma LoadRaisesIff(c: Contents, file: Bytes, batch: nat)
    requires batch > 0
    ensures var p := ParseFile(file);
            var error := LoadInBatches(c, p, batch).error;
            && (error.Some? && RaisedBy(error.value) == IndexError <==> file == MAGIC)
            && (error.Some? && RaisedBy(error.value) == TypeError <==>
                  || !AllText(FullPart(p, batch))
                  || (p.end.None? && !AllText(p.triples))
                  || p.end in {Some(Undecodable(Unhashable)), Some(Undecodable(Unsupported))})
            && (error.Some? && RaisedBy(error.value) == ValueError <==>
                  && AllText(FullPart(p, batch)) && p.end.Some? && file != MAGIC
                  && p.end !in {Some(Undecodable(Unhashable)), Some(Undecodable(Unsupported))})
  {
    var p := ParseFile(file);
    NoVersionIff(file);
    FirstFault(c, p, batch);
    NeverNotText(file);
    if file == MAGIC {
      assert FullPart(p, batch) == [];
    }
  }

  lemma NeverNotText(file: Bytes)
    ensures ParseFile(file).end != Some(NotText)
  {
    if |file| > |MAGIC| {
      OnlyFrameFaults(file[|MAGIC| + 1..]);
    }
  }

  /** A file with one frame, whatever is in it. */
  function OneFrameFile(frame: Bytes): Bytes {
    MAGIC + [VERSION] + (BigEndian(|frame|, 4) + frame)
  }

  lemma OneFrameIsParsed(frame: Bytes)
    requires |frame| < FRAME_LIMIT
    ensures ParseFile(OneFrameFile(frame)) == match TripleOfFrame(frame)
                                              case Ok(t) => Parsed([t], None)
                                              case Err(error) => Parsed([], Some(error))
  {
    var b := BigEndian(|frame|, 4) + frame;
    Limits();
    FromBigEndianOf(|frame|, 4);
    assert b[..4] == BigEndian(|frame|, 4) && b[4..4 + |frame|] == frame && b[4 + |frame|..] == [];
    FileIsParsed(b);
    if TripleOfFrame(frame).Ok? {
      assert [TripleOfFrame(frame).value] + [] == [TripleOfFrame(frame).value];
    }
  }

  lemma TupleKeyedBytes()
    ensures Encode(TupleKeyed(), 0) == Ok([0x81, 0x91, 0x01, 0xC0])
  {
    var t := PyTuple([PyInt(1)]);
    var e := Entry(t, PyNone);
    assert [PyInt(1)][1..] == [] && [e][1..] == [];
    assert EncodeAll([PyInt(1)], 2) == Ok([0x01]) by {
      assert EncodeAll([], 2) == Ok([]);
      assert [0x01] + [] == [0x01];
    }
    var one: Bytes, header: Bytes, none: Bytes := [0x01], [0x91], [0xC0];
    assert ArrayHeader(|[PyInt(1)]|) == Ok(header) && header + one == [0x91, 0x01];
    assert Encode(t, 1) == Then(ArrayHeader(1), EncodeAll([PyInt(1)], 2)) == Ok([0x91, 0x01]);
    assert header + one + none == [0x91, 0x01, 0xC0];
    assert EncodeEntry(e, 1) == Then(Encode(t, 1), Encode(PyNone, 1)) == Ok([0x91, 0x01, 0xC0]);
    assert EncodeEntries([e], 1) == Ok([0x91, 0x01, 0xC0]) by {
      assert EncodeEntries([], 1) == Ok([]);
      assert [0x91, 0x01, 0xC0] + [] == [0x91, 0x01, 0xC0];
    }
    var map1: Bytes, body: Bytes := [0x81], [0x91, 0x01, 0xC0];
    assert MapHeader(1) == Ok(map1) && map1 + body == [0x81, 0x91, 0x01, 0xC0];
    assert Encode(PyDict([e]), 0) == Then(MapHeader(1), EncodeEntries([e], 1));
  }

  /** A broken file that is refused with a type error: its one frame holds a dict with a
      tuple for a key. */
  lemma UnhashableFrameRaisesTypeError(c: Contents, batch: nat)
    requires batch > 0
    ensures var file := OneFrameFile([0x81, 0x91, 0x01, 0xC0]);
            LoadInBatches(c, ParseFile(file), batch) == Loaded(c, Some(Undecodable(Unhashable)))
  {
    var frame: Bytes := [0x81, 0x91, 0x01, 0xC0];
    TupleKeyedBytes();
    TupleKeyIsNotRead([]);
    assert frame + [] == frame;
    OneFrameIsParsed(frame);
  }

  /** The dump of a store with one entry, byte for byte: the magic, version 1, the length in
      four bytes, and the list of namespace, key and value. */
  lemma OneEntryDumped()
    ensures FileOf([Item("n", "k", PyNone)])
         == [0x53, 0x57, 0x53, 0x54, 0x41, 0x54, 0x45, 0x01, 0x00, 0x00, 0x00, 0x06, 0x93, 0xA1, 0x6E, 0xA1, 0x6B, 0xC0]
    ensures FramesOf([Item("n", "k", PyNone)]).error.None?
  {
    var e := Item("n", "k", PyNone);
    var body: Bytes, length: Bytes := [0x93, 0xA1, 0x6E, 0xA1, 0x6B, 0xC0], [0x00, 0x00, 0x00, 0x06];
    OneEntryBytes();
    FourBytes();
    assert Frame(e) == Ok(length + body);
    assert [e][1..] == [] && length + body + [] == length + body;
    assert FramesOf([]) == Written([], 0, None);
    assert FramesOf([e]).bytes == length + body;
    assert MAGIC + [VERSION] + (length + body)
        == [0x53, 0x57, 0x53, 0x54, 0x41, 0x54, 0x45, 0x01, 0x00, 0x00, 0x00, 0x06, 0x93, 0xA1, 0x6E, 0xA1, 0x6B, 0xC0];
  }

  lemma FourBytes()
    ensures BigEndian(6, 4) == [0x00, 0x00, 0x00, 0x06]
  {
    assert BigEndian(0, 1) == [0x00] by { assert BigEndian(0, 0) == []; }
    assert BigEndian(0, 2) == [0x00] + [0x00];
    assert BigEndian(0, 3) == [0x00, 0x00] + [0x00];
    assert BigEndian(6, 4) == [0x00, 0x00, 0x00] + [0x06];
  }

  lemma OneCharText(c: char, depth: nat)
    requires (c as int) < 0x80 && depth <= MAX_DEPTH
    ensures Encode(PyStr([c]), depth) == Ok([0xA1, c as int])
  {
    Utf8.EncodeOne(c);
    var header: Bytes, text: Bytes := [0xA1], [c as int];
    assert StrHeader(1) == Ok(header) && header + text == [0xA1, c as int];
  }

  lemma OneEntryBytes()
    ensures Encode(Entry3(Item("n", "k", PyNone)), 0) == Ok([0x93, 0xA1, 0x6E, 0xA1, 0x6B, 0xC0])
  {
    OneCharText('n', 1);
    OneCharText('k', 1);
    var n, k, items := PyStr("n"), PyStr("k"), [PyStr("n"), PyStr("k"), PyNone];
    assert items[1..] == [k, PyNone] && items[1..][1..] == [PyNone] && [PyNone][1..] == [];
    var none: Bytes, kb: Bytes, nb: Bytes, header: Bytes := [0xC0], [0xA1, 0x6B], [0xA1, 0x6E], [0x93];
    assert EncodeAll([], 1) == Ok([]) && none + [] == none;
    assert EncodeAll([PyNone], 1) == Ok(none);
    assert EncodeAll([k, PyNone], 1) == Ok(kb + none);
    assert EncodeAll(items, 1) == Ok(nb + (kb + none));
    assert ArrayHeader(3) == Ok(header);
    assert header + (nb + (kb + none)) == [0x93, 0xA1, 0x6E, 0xA1, 0x6B, 0xC0];
  }
}
