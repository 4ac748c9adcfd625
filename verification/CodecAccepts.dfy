/** Whatever bytes the decoder accepts, the value it gives can be written, within the depth
    limit, and is read back as it was. */
module CodecAccepts {
  import opened ByteStrings
  import opened Codec
  import opened CodecRoundTrip
  import opened PyValues
  import opened Wrappers
  import Utf8

  /** A value the decoder may give `depth` levels down: the encoder takes it there, and
      reading gives it back unchanged. */
  ghost predicate Good(v: Py, depth: nat) {
    Encode(v, depth).Ok? && WellFormed(v) && ScalarKeys(v) && NoTuples(v)
  }

  ghost predicate AllGood(items: seq<Py>, depth: nat) {
    forall i :: 0 <= i < |items| ==> Good(items[i], depth)
  }

  ghost predicate GoodEntry(e: Entry, depth: nat) {
    ScalarKey(e.key) && Good(e.key, depth) && Good(e.value, depth)
  }

  ghost predicate AllGoodEntries(entries: seq<Entry>, depth: nat) {
    forall i :: 0 <= i < |entries| ==> GoodEntry(entries[i], depth)
  }

  lemma {:induction false} GoodItemsEncode(items: seq<Py>, depth: nat)
    requires AllGood(items, depth)
    ensures EncodeAll(items, depth).Ok?
    decreases |items|
  {
    if items != [] {
      assert Good(items[0], depth);
      GoodItemsEncode(items[1..], depth);
    }
  }

  lemma {:induction false} GoodEntriesEncode(entries: seq<Entry>, depth: nat)
    requires AllGoodEntries(entries, depth)
    ensures EncodeEntries(entries, depth).Ok?
    decreases |entries|
  {
    if entries != [] {
      assert GoodEntry(entries[0], depth);
      GoodEntriesEncode(entries[1..], depth);
    }
  }

  lemma ListIsGood(items: seq<Py>, depth: nat)
    requires AllGood(items, depth + 1) && |items| < 0x1_0000_0000 && depth <= MAX_DEPTH
    ensures Good(PyList(items), depth)
  {
    GoodItemsEncode(items, depth + 1);
    forall i | 0 <= i < |items| ensures WellFormed(items[i]) && ScalarKeys(items[i]) && NoTuples(items[i]) {
      assert Good(items[i], depth + 1);
    }
  }

  lemma DictIsGood(entries: seq<Entry>, depth: nat)
    requires AllGoodEntries(entries, depth + 1) && DistinctKeys(entries)
    requires |entries| < 0x1_0000_0000 && depth <= MAX_DEPTH
    ensures Good(PyDict(entries), depth)
  {
    GoodEntriesEncode(entries, depth + 1);
    forall i | 0 <= i < |entries|
      ensures WellFormed(entries[i].key) && WellFormed(entries[i].value)
      ensures ScalarKey(entries[i].key) && ScalarKeys(entries[i].value)
      ensures NoTuples(entries[i].key) && NoTuples(entries[i].value)
    {
      assert GoodEntry(entries[i], depth + 1);
    }
  }

  // ------------------------------------------------------------------ what is read

  lemma SizedHeadIsGood(kind: Kind, width: nat, n: nat, depth: nat)
    requires width in {1, 2, 4, 8} && n < Limit(width) && depth <= MAX_DEPTH
    requires kind != UnsignedKind && kind != SignedKind && kind != DoubleKind ==> width <= 4
    ensures match HeadOf(kind, width, n)
            case Scalar(v) => Good(v, depth)
            case Text(n) => n < 0x1_0000_0000
            case Raw(n) => n < 0x1_0000_0000
            case Array(n) => n < 0x1_0000_0000
            case Map(n) => n < 0x1_0000_0000
  {
    Limits();
    if kind == UnsignedKind {
      WrittenIff(PyInt(n), depth);
    } else if kind == SignedKind {
      WrittenIff(PyInt(Signed(n, width)), depth);
    }
  }

  lemma HeadIsGood(b: Bytes, depth: nat)
    requires ReadHead(b).Ok? && depth <= MAX_DEPTH
    ensures match ReadHead(b).value.value
            case Scalar(v) => Good(v, depth)
            case Text(n) => n < 0x1_0000_0000
            case Raw(n) => n < 0x1_0000_0000
            case Array(n) => n < 0x1_0000_0000
            case Map(n) => n < 0x1_0000_0000
  {
    var marker := MarkerOf(b[0]);
    if marker.Sized? {
      SizedHeadIsGood(marker.kind, marker.width, Number(b[1..], marker.width).value.value, depth);
    } else if b[0] < 0x80 {
      WrittenIff(PyInt(b[0]), depth);
    } else if b[0] >= 0xE0 {
      WrittenIff(PyInt(b[0] as int - 0x100), depth);
    }
  }

  lemma TextIsGood(raw: Bytes, depth: nat)
    requires |raw| < 0x1_0000_0000 && depth <= MAX_DEPTH
    ensures Good(TextOf(raw), depth)
  {
    if Utf8.Decode(raw).Some? {
      Utf8.EncodeOf(raw);
    }
    WrittenIff(TextOf(raw), depth);
  }

  lemma RawIsGood(raw: Bytes, depth: nat)
    requires |raw| < 0x1_0000_0000 && depth <= MAX_DEPTH
    ensures Good(PyBytes(raw), depth)
  {
    WrittenIff(PyBytes(raw), depth);
  }

  lemma {:induction false} ReadIsGood(b: Bytes, depth: nat)
    requires Decode(b, depth).Ok?
    ensures Good(Decode(b, depth).value.value, depth)
    decreases Levels(depth), 0, 2
  {
    HeadIsGood(b, depth);
    var rest := ReadHead(b).value.rest;
    match ReadHead(b).value.value
    case Scalar(_) =>
    case Text(n) => TextIsGood(rest[..n], depth);
    case Raw(n) => RawIsGood(rest[..n], depth);
    case Array(n) => ArrayReadIsGood(rest, n, depth);
    case Map(n) => MapReadIsGood(rest, n, depth);
  }

  lemma {:induction false} ArrayReadIsGood(b: Bytes, n: nat, depth: nat)
    requires n < 0x1_0000_0000 && depth <= MAX_DEPTH && DecodeItems(b, n, depth + 1).Ok?
    ensures Good(PyList(DecodeItems(b, n, depth + 1).value.value), depth)
    decreases Levels(depth), 0, 1
  {
    ItemsReadAreGood(b, n, depth + 1);
    ListIsGood(DecodeItems(b, n, depth + 1).value.value, depth);
  }

  lemma {:induction false} MapReadIsGood(b: Bytes, n: nat, depth: nat)
    requires n < 0x1_0000_0000 && depth <= MAX_DEPTH && DecodeEntries([], b, n, depth + 1).Ok?
    ensures Good(PyDict(DecodeEntries([], b, n, depth + 1).value.value), depth)
    decreases Levels(depth), 0, 1
  {
    EntriesAreSet([], b, n, depth + 1);
    EntriesReadAreGood(b, n, depth + 1);
    var entries := EntriesIn(b, n, depth + 1);
    SetAllKeepsGood([], entries, depth + 1);
    DictIsGood(SetAll([], entries), depth);
  }

  /** The entries at the front of the bytes, as they were written. */
  function EntriesIn(b: Bytes, n: nat, depth: nat): seq<Entry>
    decreases n
  {
    if n == 0 || DecodeEntry(b, depth).Err? then []
    else [DecodeEntry(b, depth).value.value] + EntriesIn(DecodeEntry(b, depth).value.rest, n - 1, depth)
  }

  lemma {:induction false} ItemsReadAreGood(b: Bytes, n: nat, depth: nat)
    requires DecodeItems(b, n, depth).Ok?
    ensures |DecodeItems(b, n, depth).value.value| == n && AllGood(DecodeItems(b, n, depth).value.value, depth)
    decreases Levels(depth), 1, n
  {
    if n > 0 {
      ReadIsGood(b, depth);
      ItemsReadAreGood(Decode(b, depth).value.rest, n - 1, depth);
    }
  }

  lemma {:induction false} EntryReadIsGood(b: Bytes, depth: nat)
    requires DecodeEntry(b, depth).Ok?
    ensures GoodEntry(DecodeEntry(b, depth).value.value, depth)
    decreases Levels(depth), 0, 3
  {
    ReadIsGood(b, depth);
    ReadIsGood(Decode(b, depth).value.rest, depth);
  }

  ghost predicate GoodDict(dict: seq<Entry>, depth: nat) {
    DistinctKeys(dict) && AllGoodEntries(dict, depth)
  }

  lemma SetItemKeepsGood(dict: seq<Entry>, e: Entry, depth: nat)
    requires GoodDict(dict, depth) && GoodEntry(e, depth)
    ensures GoodDict(SetItem(dict, e.key, e.value), depth)
    ensures |SetItem(dict, e.key, e.value)| <= |dict| + 1
  {
    SetItemKeepsDistinct(dict, e.key, e.value);
    var i := Find(dict, e.key);
    if i < |dict| {
      assert GoodEntry(dict[i], depth);
    }
  }

  function SetAll(dict: seq<Entry>, more: seq<Entry>): seq<Entry>
    decreases |more|
  {
    if more == [] then dict else SetAll(SetItem(dict, more[0].key, more[0].value), more[1..])
  }

  lemma {:induction false} SetAllKeepsGood(dict: seq<Entry>, more: seq<Entry>, depth: nat)
    requires GoodDict(dict, depth) && AllGoodEntries(more, depth)
    ensures GoodDict(SetAll(dict, more), depth) && |SetAll(dict, more)| <= |dict| + |more|
    decreases |more|
  {
    if more != [] {
      assert GoodEntry(more[0], depth);
      SetItemKeepsGood(dict, more[0], depth);
      SetAllKeepsGood(SetItem(dict, more[0].key, more[0].value), more[1..], depth);
    }
  }

  lemma SetOneMore(dict: seq<Entry>, e: Entry, rest: seq<Entry>)
    ensures SetAll(dict, [e] + rest) == SetAll(SetItem(dict, e.key, e.value), rest)
  {
    assert ([e] + rest)[1..] == rest;
  }

  /** A dict that was read is what its entries set, one after the other. */
  lemma {:induction false} EntriesAreSet(dict: seq<Entry>, b: Bytes, n: nat, depth: nat)
    requires DecodeEntries(dict, b, n, depth).Ok?
    ensures DecodeEntries(dict, b, n, depth).value.value == SetAll(dict, EntriesIn(b, n, depth))
    ensures |EntriesIn(b, n, depth)| == n
    decreases n
  {
    if n > 0 {
      var e := DecodeEntry(b, depth).value;
      EntriesAreSet(SetItem(dict, e.value.key, e.value.value), e.rest, n - 1, depth);
      SetOneMore(dict, e.value, EntriesIn(e.rest, n - 1, depth));
    }
  }

  lemma OneMoreGood(e: Entry, rest: seq<Entry>, depth: nat)
    requires GoodEntry(e, depth) && AllGoodEntries(rest, depth)
    ensures AllGoodEntries([e] + rest, depth)
  {
  }

  lemma {:induction false} EntriesReadAreGood(b: Bytes, n: nat, depth: nat)
    ensures AllGoodEntries(EntriesIn(b, n, depth), depth)
    decreases Levels(depth), 1, n
  {
    if n > 0 && DecodeEntry(b, depth).Ok? {
      EntryReadIsGood(b, depth);
      var e := DecodeEntry(b, depth).value;
      EntriesReadAreGood(e.rest, n - 1, depth);
      OneMoreGood(e.value, EntriesIn(e.rest, n - 1, depth), depth);
    }
  }

  // --------------------------------------------------------------------- the result

  /** Whatever is read can be written again, and reading that gives the same value: 32-bit
      floats, over-long integers, strings that are not UTF-8 and repeated dict keys
      included. */
  lemma WhatIsReadCanBeKept(b: Bytes, tail: Bytes)
    requires Decode(b, 0).Ok?
    ensures var v := Decode(b, 0).value.value;
            Encode(v, 0).Ok? && Decode(Encode(v, 0).value + tail, 0) == Ok(Read(v, tail))
  {
    var v := Decode(b, 0).value.value;
    ReadIsGood(b, 0);
    ReadingUndoesWriting(v, 0, tail);
    NothingToList(v);
  }
}
