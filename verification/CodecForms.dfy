/** The forms of the format byte by byte, the ones the encoder never writes included: what
    each of them is read as (MessagePack specification, section "Formats"). */
module CodecForms {
  import opened ByteStrings
  import opened Codec
  import opened CodecRoundTrip
  import opened PyValues
  import opened Wrappers
  import Utf8

  // ---------------------------------------------------------------- numbers in bytes

  /** The number that bytes spell, most significant first. */
  function Spelled(bytes: Bytes): nat {
    if bytes == [] then 0 else bytes[0] * Limit(|bytes| - 1) + Spelled(bytes[1..])
  }

  lemma {:induction false} SpelledSnoc(bytes: Bytes, last: Byte)
    ensures Spelled(bytes + [last]) == Spelled(bytes) * 0x100 + last
  {
    var longer := bytes + [last];
    if bytes == [] {
      assert longer[1..] == [];
    } else {
      assert longer[1..] == bytes[1..] + [last];
      SpelledSnoc(bytes[1..], last);
      HighDigit(bytes[0], Limit(|bytes| - 1), Spelled(bytes[1..]));
      assert Limit(|bytes|) == 0x100 * Limit(|bytes| - 1);
    }
  }

  lemma HighDigit(d: nat, limit: nat, rest: nat)
    ensures (d * limit + rest) * 0x100 == d * (0x100 * limit) + rest * 0x100
  {
  }

  /** Reading a number is reading what its bytes spell. */
  lemma {:induction false} FromBigEndianSpells(bytes: Bytes)
    ensures FromBigEndian(bytes) == Spelled(bytes) < Limit(|bytes|)
  {
    BigEndianOf(bytes);
    if bytes != [] {
      var n := |bytes| - 1;
      FromBigEndianSpells(bytes[..n]);
      SpelledSnoc(bytes[..n], bytes[n]);
      assert bytes[..n] + [bytes[n]] == bytes;
    }
  }

  /** `n` is the two's complement number that the bytes spell. */
  predicate SpellsSigned(bytes: Bytes, n: int) {
    var limit := Limit(|bytes|);
    && 0 <= 2 * n + limit && 2 * n < limit
    && (n == Spelled(bytes) || n + limit == Spelled(bytes))
  }

  lemma FormReads(m: Byte, kind: Kind, width: nat, bytes: Bytes, tail: Bytes)
    requires MarkerOf(m) == Sized(kind, width) && |bytes| == width
    ensures Spelled(bytes) < Limit(width)
    ensures ReadHead([m] + bytes + tail) == Ok(Read(HeadOf(kind, width, Spelled(bytes)), tail))
  {
    FromBigEndianSpells(bytes);
    BigEndianOf(bytes);
    SizedReads(m, kind, width, Spelled(bytes), tail);
  }

  // ----------------------------------------------------------------------- scalars

  /** What a form of one byte stands for; None for those that announce more, or nothing. */
  function OneByteValue(m: Byte): Option<Py> {
    if m < 0x80 then Some(PyInt(m))
    else if m >= 0xE0 then Some(PyInt(m - 0x100))
    else if m == 0xC0 then Some(PyNone)
    else if m == 0xC2 then Some(PyBool(false))
    else if m == 0xC3 then Some(PyBool(true))
    else None
  }

  lemma OneByteIsRead(m: Byte, tail: Bytes)
    requires OneByteValue(m).Some?
    ensures Decode([m] + tail, 0) == Ok(Read(OneByteValue(m).value, tail))
  {
    FixedReads(m, tail);
  }

  /** The extension types and the reserved byte are refused. */
  lemma RefusedForms(m: Byte, tail: Bytes)
    ensures m == 0xC1 ==> Decode([m] + tail, 0) == Err(Reserved)
    ensures m in {0xC7, 0xC8, 0xC9, 0xD4, 0xD5, 0xD6, 0xD7, 0xD8} ==> Decode([m] + tail, 0) == Err(Extension)
  {
  }

  predicate Unsigned(m: Byte, width: nat) {
    (m, width) in {(0xCC, 1), (0xCD, 2), (0xCE, 4), (0xCF, 8)}
  }

  predicate TwosComplement(m: Byte, width: nat) {
    (m, width) in {(0xD0, 1), (0xD1, 2), (0xD2, 4), (0xD3, 8)}
  }

  /** An unsigned integer, over-long or not, is the number its bytes spell. */
  lemma UnsignedIsRead(m: Byte, bytes: Bytes, tail: Bytes)
    requires Unsigned(m, |bytes|)
    ensures Decode([m] + bytes + tail, 0) == Ok(Read(PyInt(Spelled(bytes)), tail))
  {
    FormReads(m, UnsignedKind, |bytes|, bytes, tail);
  }

  /** A signed one is the two's complement number they spell. */
  lemma SignedIsRead(m: Byte, bytes: Bytes, tail: Bytes) returns (n: int)
    requires TwosComplement(m, |bytes|)
    ensures SpellsSigned(bytes, n) && Decode([m] + bytes + tail, 0) == Ok(Read(PyInt(n), tail))
  {
    Limits();
    FormReads(m, SignedKind, |bytes|, bytes, tail);
    n := Signed(Spelled(bytes), |bytes|);
  }

  /** A 64-bit float is its bits. */
  lemma DoubleIsRead(bytes: Bytes, tail: Bytes)
    requires |bytes| == 8
    ensures Spelled(bytes) < 0x1_0000_0000_0000_0000
    ensures Decode([0xCB] + bytes + tail, 0) == Ok(Read(PyFloat(Spelled(bytes)), tail))
  {
    Limits();
    FormReads(0xCB, DoubleKind, 8, bytes, tail);
  }

  /** A double that is the number a single is: the sign, an infinity or a NaN for one, and
      else the value, in units of the smallest numbers of the two. */
  predicate SameNumber(single: nat, double: Word)
    requires single < 0x1_0000_0000
  {
    var f, g := Split32(single), Split64(double);
    && g.negative == f.negative
    && (f.exponent < 0xFF <==> g.exponent < 0x7FF)
    && (f.exponent < 0xFF ==> Magnitude64(g) == Magnitude32(f) * Pow2(925))
    && (f.exponent == 0xFF ==> (f.fraction == 0 <==> g.fraction == 0))
  }

  /** A 32-bit float, which is never written, is read as the number it is. */
  lemma SingleIsRead(bytes: Bytes, tail: Bytes) returns (w: Word)
    requires |bytes| == 4
    ensures Spelled(bytes) < 0x1_0000_0000 && SameNumber(Spelled(bytes), w)
    ensures Decode([0xCA] + bytes + tail, 0) == Ok(Read(PyFloat(w), tail))
  {
    Limits();
    FormReads(0xCA, SingleKind, 4, bytes, tail);
    w := Widen(Spelled(bytes));
    WideningKeepsTheNumber(Spelled(bytes));
  }

  /** `CA 3F 80 00 00` is 1.0. */
  lemma OneIsRead()
    ensures Decode([0xCA, 0x3F, 0x80, 0x00, 0x00], 0) == Ok(Read(PyFloat(0x3FF0_0000_0000_0000), []))
  {
    var bytes: Bytes := [0x3F, 0x80, 0x00, 0x00];
    SpelledFour(0x3F, 0x80, 0x00, 0x00);
    WidenOne();
    FormReads(0xCA, SingleKind, 4, bytes, []);
    assert [0xCA] + bytes + [] == [0xCA, 0x3F, 0x80, 0x00, 0x00];
  }

  lemma WidenOne()
    ensures Widen(0x3F80_0000) == 0x3FF0_0000_0000_0000
  {
    assert Split32(0x3F80_0000) == PyValues.Float(false, 0x7F, 0);
    assert Widened(PyValues.Float(false, 0x7F, 0)) == PyValues.Float(false, 0x3FF, 0);
  }

  lemma SpelledFour(a: Byte, b: Byte, c: Byte, d: Byte)
    ensures Spelled([a, b, c, d]) == 0x100_0000 * a + 0x1_0000 * b + 0x100 * c + d
  {
    assert [a, b, c, d] == [a] + [b] + [c] + [d];
    SpelledSnoc([a] + [b] + [c], d);
    SpelledSnoc([a] + [b], c);
    SpelledSnoc([a], b);
    SpelledSnoc([], a);
    assert [] + [a] == [a];
  }

  // ----------------------------------------------------------------- strings and bytes

  /** The headers of a string of `n` bytes, over-long or not. */
  predicate StrForm(header: Bytes, n: nat) {
    || (n < 0x20 && header == [0xA0 + n])
    || SizedForm(header, 0xD9, 1, n) || SizedForm(header, 0xDA, 2, n) || SizedForm(header, 0xDB, 4, n)
  }

  predicate BinForm(header: Bytes, n: nat) {
    SizedForm(header, 0xC4, 1, n) || SizedForm(header, 0xC5, 2, n) || SizedForm(header, 0xC6, 4, n)
  }

  predicate ArrayForm(header: Bytes, n: nat) {
    (n < 0x10 && header == [0x90 + n]) || SizedForm(header, 0xDC, 2, n) || SizedForm(header, 0xDD, 4, n)
  }

  predicate MapForm(header: Bytes, n: nat) {
    (n < 0x10 && header == [0x80 + n]) || SizedForm(header, 0xDE, 2, n) || SizedForm(header, 0xDF, 4, n)
  }

  /** A marker and `n` in `width` bytes. */
  predicate SizedForm(header: Bytes, m: Byte, width: nat, n: nat) {
    |header| == 1 + width && header[0] == m && Spelled(header[1..]) == n
  }

  lemma SizedFormReads(header: Bytes, m: Byte, kind: Kind, width: nat, n: nat, tail: Bytes)
    requires SizedForm(header, m, width, n) && MarkerOf(m) == Sized(kind, width)
    ensures n < Limit(width) && ReadHead(header + tail) == Ok(Read(HeadOf(kind, width, n), tail))
  {
    FormReads(m, kind, width, header[1..], tail);
    assert [m] + header[1..] == header;
  }

  lemma StrFormReads(header: Bytes, n: nat, tail: Bytes)
    requires StrForm(header, n)
    ensures ReadHead(header + tail) == Ok(Read(Text(n), tail))
  {
    if |header| == 1 {
      FixedReads(header[0], tail);
    } else {
      SizedFormReads(header, header[0], StrKind, |header| - 1, n, tail);
    }
  }

  lemma BinFormReads(header: Bytes, n: nat, tail: Bytes)
    requires BinForm(header, n)
    ensures ReadHead(header + tail) == Ok(Read(Raw(n), tail))
  {
    SizedFormReads(header, header[0], BinKind, |header| - 1, n, tail);
  }

  lemma ArrayFormReads(header: Bytes, n: nat, tail: Bytes)
    requires ArrayForm(header, n)
    ensures ReadHead(header + tail) == Ok(Read(Array(n), tail))
  {
    if |header| == 1 {
      FixedReads(header[0], tail);
    } else {
      SizedFormReads(header, header[0], ArrayKind, |header| - 1, n, tail);
    }
  }

  lemma MapFormReads(header: Bytes, n: nat, tail: Bytes)
    requires MapForm(header, n)
    ensures ReadHead(header + tail) == Ok(Read(Map(n), tail))
  {
    if |header| == 1 {
      FixedReads(header[0], tail);
    } else {
      SizedFormReads(header, header[0], MapKind, |header| - 1, n, tail);
    }
  }

  /** A string body is read as the text it encodes, and as just these bytes if it encodes
      none. */
  lemma StringIsRead(header: Bytes, body: Bytes, tail: Bytes) returns (v: Py)
    requires StrForm(header, |body|)
    ensures Decode(header + (body + tail), 0) == Ok(Read(v, tail))
    ensures (v.PyStr? && Utf8.Encode(v.text) == body) || (v == PyBytes(body) && forall s :: Utf8.Encode(s) != body)
  {
    StrFormReads(header, |body|, body + tail);
    assert (body + tail)[..|body|] == body && (body + tail)[|body|..] == tail;
    v := TextOf(body);
    if v.PyStr? { Utf8.EncodeOf(body); }
    forall s | Utf8.Encode(s) == body ensures v == PyStr(s) {
      Utf8.DecodeOf(s);
    }
  }

  lemma BytesAreRead(header: Bytes, body: Bytes, tail: Bytes)
    requires BinForm(header, |body|)
    ensures Decode(header + (body + tail), 0) == Ok(Read(PyBytes(body), tail))
  {
    BinFormReads(header, |body|, body + tail);
    assert (body + tail)[..|body|] == body && (body + tail)[|body|..] == tail;
  }

  // ------------------------------------------------------------------ lists and dicts

  /** Items read one behind the other: `rests` are the bytes before each of them, and
      behind the last. */
  ghost predicate ReadInOrder(items: seq<Py>, rests: seq<Bytes>, depth: nat) {
    && |rests| == |items| + 1
    && forall i :: 0 <= i < |items| ==> Decode(rests[i], depth) == Ok(Read(items[i], rests[i + 1]))
  }

  lemma {:induction false} ItemsAreReadInOrder(b: Bytes, n: nat, depth: nat) returns (rests: seq<Bytes>)
    requires DecodeItems(b, n, depth).Ok?
    ensures var r := DecodeItems(b, n, depth).value;
            |r.value| == n && ReadInOrder(r.value, rests, depth) && rests[0] == b && rests[n] == r.rest
    decreases n
  {
    if n == 0 {
      rests := [b];
    } else {
      var first := Decode(b, depth).value;
      var more := ItemsAreReadInOrder(first.rest, n - 1, depth);
      rests := [b] + more;
      var items := DecodeItems(b, n, depth).value.value;
      forall i | 0 <= i < n ensures Decode(rests[i], depth) == Ok(Read(items[i], rests[i + 1])) {
        if i > 0 { assert rests[i] == more[i - 1] && items[i] == items[1..][i - 1]; }
      }
    }
  }

  /** A list of `n` is the next `n` values. */
  lemma ListIsRead(header: Bytes, n: nat, b: Bytes) returns (rests: seq<Bytes>)
    requires ArrayForm(header, n) && Decode(header + b, 0).Ok?
    ensures var r := Decode(header + b, 0).value;
            && r.value.PyList? && |r.value.items| == n
            && ReadInOrder(r.value.items, rests, 1) && rests[0] == b && rests[n] == r.rest
  {
    ArrayFormReads(header, n, b);
    rests := ItemsAreReadInOrder(b, n, 1);
  }

  /** What Python's `dict[key] = value` leaves: the keys that were there, in their places,
      and behind them the new one if none is the same; the value under the same key. */
  ghost predicate IsSet(dict: seq<Entry>, key: Py, value: Py, after: seq<Entry>) {
    && |dict| <= |after| <= |dict| + 1
    && (forall i :: 0 <= i < |dict| ==>
          after[i].key == dict[i].key && (!SameKey(dict[i].key, key) ==> after[i].value == dict[i].value))
    && (if exists i :: 0 <= i < |dict| && SameKey(dict[i].key, key)
        then |after| == |dict| && exists i :: 0 <= i < |dict| && SameKey(dict[i].key, key) && after[i].value == value
        else after == dict + [Entry(key, value)])
  }

  lemma SetItemIsSet(dict: seq<Entry>, key: Py, value: Py)
    ensures IsSet(dict, key, value, SetItem(dict, key, value))
  {
    var i := Find(dict, key);
    if i < |dict| { assert SetItem(dict, key, value)[i].value == value; }
  }

  /** Keys and values read in turn, each pair set in the dict so far. */
  ghost predicate SetInOrder(keys: seq<Py>, values: seq<Py>, dicts: seq<seq<Entry>>, rests: seq<Bytes>, depth: nat) {
    && |values| == |keys| && |dicts| == |rests| == |keys| + 1
    && forall i :: 0 <= i < |keys| ==> OneSet(keys[i], values[i], dicts[i], dicts[i + 1], rests[i], rests[i + 1], depth)
  }

  ghost predicate OneSet(key: Py, value: Py, dict: seq<Entry>, after: seq<Entry>, b: Bytes, rest: Bytes, depth: nat) {
    && ScalarKey(key) && IsSet(dict, key, value, after)
    && Decode(b, depth).Ok? && Decode(b, depth).value.value == key
    && Decode(Decode(b, depth).value.rest, depth) == Ok(Read(value, rest))
  }

  lemma {:induction false} EntriesAreSetInOrder(dict: seq<Entry>, b: Bytes, n: nat, depth: nat)
      returns (keys: seq<Py>, values: seq<Py>, dicts: seq<seq<Entry>>, rests: seq<Bytes>)
    requires DecodeEntries(dict, b, n, depth).Ok?
    ensures |keys| == n && SetInOrder(keys, values, dicts, rests, depth)
    ensures dicts[0] == dict && rests[0] == b
    ensures DecodeEntries(dict, b, n, depth) == Ok(Read(dicts[n], rests[n]))
    decreases n
  {
    if n == 0 {
      keys, values, dicts, rests := [], [], [dict], [b];
    } else {
      var e := DecodeEntry(b, depth).value;
      var after := SetItem(dict, e.value.key, e.value.value);
      var ks, vs, ds, rs := EntriesAreSetInOrder(after, e.rest, n - 1, depth);
      SetItemIsSet(dict, e.value.key, e.value.value);
      keys, values, dicts, rests := [e.value.key] + ks, [e.value.value] + vs, [dict] + ds, [b] + rs;
      OneEntryBefore(keys, values, dicts, rests, depth);
    }
  }

  lemma OneEntryBefore(keys: seq<Py>, values: seq<Py>, dicts: seq<seq<Entry>>, rests: seq<Bytes>, depth: nat)
    requires keys != [] && |values| == |keys| && |dicts| == |rests| == |keys| + 1
    requires OneSet(keys[0], values[0], dicts[0], dicts[1], rests[0], rests[1], depth)
    requires SetInOrder(keys[1..], values[1..], dicts[1..], rests[1..], depth)
    ensures SetInOrder(keys, values, dicts, rests, depth)
  {
    forall i | 0 <= i < |keys|
      ensures OneSet(keys[i], values[i], dicts[i], dicts[i + 1], rests[i], rests[i + 1], depth)
    {
      if i > 0 {
        assert OneSet(keys[1..][i - 1], values[1..][i - 1], dicts[1..][i - 1], dicts[1..][i], rests[1..][i - 1],
                      rests[1..][i], depth);
      }
    }
  }

  /** A dict of `n` is the next `n` keys and values, in turn, set in an empty dict. */
  lemma DictIsRead(header: Bytes, n: nat, b: Bytes)
      returns (keys: seq<Py>, values: seq<Py>, dicts: seq<seq<Entry>>, rests: seq<Bytes>)
    requires MapForm(header, n) && Decode(header + b, 0).Ok?
    ensures |keys| == n && SetInOrder(keys, values, dicts, rests, 1) && dicts[0] == [] && rests[0] == b
    ensures Decode(header + b, 0) == Ok(Read(PyDict(dicts[n]), rests[n]))
  {
    MapFormReads(header, n, b);
    keys, values, dicts, rests := EntriesAreSetInOrder([], b, n, 1);
  }

  // ------------------------------------------------------------------- equal keys

  /** `True` is the key 1, `False` the key 0, and a float is the key of the number it is, if
      that is whole; a NaN is no other key's equal, nor its own. */
  lemma NumbersAreOneKey(b: bool, i: int, bits: Word)
    ensures SameKey(PyBool(b), PyInt(i)) <==> i == if b then 1 else 0
    ensures var f := Split64(bits);
            && (SameKey(PyInt(i), PyFloat(bits)) <==>
                  && f.exponent < 0x7FF
                  && Magnitude64(f) == (if i < 0 then -i else i) * Pow2(1074)
                  && (i != 0 ==> (i < 0 <==> f.negative)))
            && (SameKey(PyFloat(bits), PyFloat(bits)) <==> f.exponent < 0x7FF || f.fraction == 0)
  {
    WholeMagnitude(i, bits);
  }

  lemma WholeMagnitude(i: int, bits: Word)
    ensures var f, one := Split64(bits), Pow2(1074);
            f.exponent < 0x7FF ==>
              (KeyOf(PyFloat(bits)) == NumberKey(i) <==>
                 && Magnitude64(f) == (if i < 0 then -i else i) * one
                 && (i != 0 ==> (i < 0 <==> f.negative)))
  {
    var f, one := Split64(bits), Pow2(1074);
    if f.exponent < 0x7FF {
      Quotient(Magnitude64(f), one, if i < 0 then -i else i);
    }
  }

  lemma Quotient(m: nat, one: nat, n: nat)
    requires one > 0
    ensures m == n * one <==> m % one == 0 && m / one == n
  {
    if m == n * one {
      Divides(n, one);
    }
  }

  lemma Divides(n: nat, one: nat)
    requires one > 0
    ensures n * one % one == 0 && n * one / one == n
  {
    var q, r := n * one / one, n * one % one;
    assert n * one == one * q + r;
    if n > q {
      Times(n - q, one);
    }
  }

  lemma Times(d: nat, one: nat)
    requires d > 0
    ensures d * one >= one
  {
  }
}
