/** The Python values the codec deals with: what they are, which are equal as dict keys, and
    the two widths of floating-point numbers. */
module PyValues {
  import opened ByteStrings

  /** A 64-bit word. */
  type Word = n: nat | n < 0x1_0000_0000_0000_0000

  /** A float is its IEEE 754 bits, a dict its entries in insertion order.
      `SurrogateStr` is a string with a lone surrogate, `PyOther` any other object. */
  datatype Py =
    | PyNone
    | PyBool(b: bool)
    | PyInt(i: int)
    | PyFloat(bits: Word)
    | PyStr(text: string)
    | SurrogateStr
    | PyBytes(data: Bytes)
    | PyList(items: seq<Py>)
    | PyTuple(items: seq<Py>)
    | PyDict(entries: seq<Entry>)
    | PyOther

  datatype Entry = Entry(key: Py, value: Py)

  // ------------------------------------------------------------------------ floats

  function Pow2(n: nat): (p: nat)
    ensures p > 0
  {
    if n == 0 then 1 else 2 * Pow2(n - 1)
  }

  lemma {:induction false} Pow2Adds(a: nat, b: nat)
    ensures Pow2(a + b) == Pow2(a) * Pow2(b)
  {
    if a > 0 {
      Pow2Adds(a - 1, b);
    }
  }

  /** The parts of a floating-point number with `e` exponent bits and `m` fraction bits. */
  datatype Float = Float(negative: bool, exponent: nat, fraction: nat)

  const FRACTION64 := 0x10_0000_0000_0000
  const FRACTION32 := 0x80_0000

  function Split64(bits: Word): (f: Float)
    ensures f.exponent < 0x800 && f.fraction < FRACTION64
  {
    Float(bits / 0x8000_0000_0000_0000 == 1, bits / FRACTION64 % 0x800, bits % FRACTION64)
  }

  function Join64(f: Float): Word
    requires f.exponent < 0x800 && f.fraction < FRACTION64
  {
    (if f.negative then 0x8000_0000_0000_0000 else 0) + f.exponent * FRACTION64 + f.fraction
  }

  lemma SplitJoin64(f: Float)
    requires f.exponent < 0x800 && f.fraction < FRACTION64
    ensures Split64(Join64(f)) == f
  {
    var sign := if f.negative then 1 else 0;
    assert Join64(f) / FRACTION64 == sign * 0x800 + f.exponent;
  }

  function Split32(bits: nat): (f: Float)
    requires bits < 0x1_0000_0000
    ensures f.exponent < 0x100 && f.fraction < FRACTION32
  {
    Float(bits / 0x8000_0000 == 1, bits / FRACTION32 % 0x100, bits % FRACTION32)
  }

  /** The magnitude of a finite double, counted in units of its smallest, 2 to the -1074. */
  function Magnitude64(f: Float): nat {
    if f.exponent == 0 then f.fraction else (FRACTION64 + f.fraction) * Pow2(f.exponent - 1)
  }

  /** The magnitude of a finite single, counted in units of its smallest, 2 to the -149. */
  function Magnitude32(f: Float): nat {
    if f.exponent == 0 then f.fraction else (FRACTION32 + f.fraction) * Pow2(f.exponent - 1)
  }

  /** The number of the highest bit of `n`. */
  function HighBit(n: nat): (k: nat)
    requires n > 0
    ensures Pow2(k) <= n < 2 * Pow2(k)
  {
    if n == 1 then 0 else 1 + HighBit(n / 2)
  }

  lemma {:induction false} HighBitBelow(n: nat, k: nat)
    requires 0 < n < Pow2(k)
    ensures HighBit(n) < k
  {
    if n > 1 {
      assert k > 0;
      HighBitBelow(n / 2, k - 1);
    }
  }

  lemma Fractions()
    ensures Pow2(23) == FRACTION32 && Pow2(29) == 0x2000_0000 && Pow2(52) == FRACTION64
  {
    assert Pow2(8) == 0x100;
    Pow2Adds(8, 8);
    Pow2Adds(16, 7);
    Pow2Adds(23, 6);
    Pow2Adds(29, 23);
  }

  lemma SubnormalFits(fraction: nat, k: nat)
    requires 0 < fraction < FRACTION32 && k == HighBit(fraction)
    ensures k < 23 && (fraction - Pow2(k)) * Pow2(52 - k) < FRACTION64
    ensures FRACTION64 + (fraction - Pow2(k)) * Pow2(52 - k) == fraction * Pow2(52 - k)
  {
    Fractions();
    HighBitBelow(fraction, 23);
    Pow2Adds(k, 52 - k);
    ProductBounds(fraction, Pow2(k), Pow2(52 - k));
  }

  lemma ProductBounds(a: nat, p: nat, q: nat)
    requires p <= a < 2 * p && q > 0
    ensures 0 <= (a - p) * q < p * q && p * q + (a - p) * q == a * q
  {
    assert (a - p) * q == a * q - p * q;
    assert (2 * p - a) * q == 2 * p * q - a * q;
    assert (2 * p - a) * q > 0;
  }

  /** A subnormal single has its highest bit shifted out: as a double it is normal. */
  function Normalised(negative: bool, fraction: nat): (g: Float)
    requires 0 < fraction < FRACTION32
    ensures 0 < g.exponent < 0x7FF && g.fraction < FRACTION64
  {
    var k := HighBit(fraction);
    SubnormalFits(fraction, k);
    Float(negative, 874 + k, (fraction - Pow2(k)) * Pow2(52 - k))
  }

  /** A single as a double: an infinity or NaN keeps its kind (a NaN comes out quiet), any
      other number its value. */
  function Widened(f: Float): (g: Float)
    requires f.exponent < 0x100 && f.fraction < FRACTION32
    ensures g.exponent < 0x800 && g.fraction < FRACTION64
  {
    if f.exponent == 0xFF then
      Float(f.negative, 0x7FF, if f.fraction == 0 then 0 else f.fraction % 0x40_0000 * 0x2000_0000 + 0x8_0000_0000_0000)
    else if f.exponent > 0 then Float(f.negative, f.exponent + 896, f.fraction * 0x2000_0000)
    else if f.fraction == 0 then Float(f.negative, 0, 0)
    else Normalised(f.negative, f.fraction)
  }

  function Widen(bits: nat): Word
    requires bits < 0x1_0000_0000
  {
    Join64(Widened(Split32(bits)))
  }

  lemma ProductOfThree(a: nat, b: nat, c: nat)
    ensures a * b * c == a * (b * c)
  {
  }

  lemma NormalKeepsMagnitude(exponent: nat, fraction: nat)
    requires 0 < exponent
    ensures (FRACTION64 + fraction * 0x2000_0000) * Pow2(exponent + 895) == (FRACTION32 + fraction) * Pow2(exponent - 1) * Pow2(925)
  {
    var a := FRACTION32 + fraction;
    assert FRACTION64 + fraction * 0x2000_0000 == a * Pow2(29) by {
      Fractions();
    }
    assert Pow2(29) * Pow2(exponent + 895) == Pow2(exponent - 1) * Pow2(925) by {
      Pow2Adds(29, exponent + 895);
      Pow2Adds(exponent - 1, 925);
    }
    ProductOfThree(a, Pow2(29), Pow2(exponent + 895));
    ProductOfThree(a, Pow2(exponent - 1), Pow2(925));
  }

  lemma NormalisedKeepsMagnitude(negative: bool, fraction: nat)
    requires 0 < fraction < FRACTION32
    ensures Magnitude64(Normalised(negative, fraction)) == fraction * Pow2(925)
  {
    var k := HighBit(fraction);
    SubnormalFits(fraction, k);
    Pow2Adds(52 - k, 873 + k);
    ProductOfThree(fraction, Pow2(52 - k), Pow2(873 + k));
  }

  lemma WidenedKeepsMagnitude(f: Float)
    requires f.exponent < 0xFF && f.fraction < FRACTION32
    ensures Magnitude64(Widened(f)) == Magnitude32(f) * Pow2(925)
  {
    if f.exponent > 0 {
      NormalKeepsMagnitude(f.exponent, f.fraction);
    } else if f.fraction > 0 {
      NormalisedKeepsMagnitude(f.negative, f.fraction);
    }
  }

  /** Widening keeps the sign; of a finite single the value (a single's smallest number is 2
      to the 925 times a double's), of an infinity that it is one, of a NaN that it is one. */
  lemma WideningKeepsTheNumber(bits: nat)
    requires bits < 0x1_0000_0000
    ensures var f, g := Split32(bits), Split64(Widen(bits));
            && g.negative == f.negative
            && (f.exponent < 0xFF <==> g.exponent < 0x7FF)
            && (f.exponent < 0xFF ==> Magnitude64(g) == Magnitude32(f) * Pow2(925))
            && (f.exponent == 0xFF ==> (f.fraction == 0 <==> g.fraction == 0))
  {
    var f := Split32(bits);
    SplitJoin64(Widened(f));
    if f.exponent < 0xFF {
      WidenedKeepsMagnitude(f);
    }
  }

  // --------------------------------------------------------------------- dict keys

  /** What makes two dict keys the same: `True`, `1` and `1.0` are one key, a NaN is the
      same as no other object. */
  datatype Key = NoneKey | NumberKey(n: int) | FloatKey(bits: Word) | TextKey(text: string) | BytesKey(data: Bytes) | Unequal

  function KeyOf(v: Py): Key {
    match v
    case PyNone => NoneKey
    case PyBool(b) => NumberKey(if b then 1 else 0)
    case PyInt(i) => NumberKey(i)
    case PyFloat(bits) => FloatKeyOf(bits, 1074)
    case PyStr(text) => TextKey(text)
    case PyBytes(data) => BytesKey(data)
    case _ => Unequal
  }

  /** A float that is a whole number is the same key as that number; `digits` is how many
      of the units of `Magnitude64` make one, as a power of two. */
  function FloatKeyOf(bits: Word, digits: nat): Key {
    var f := Split64(bits);
    if f.exponent == 0x7FF then (if f.fraction == 0 then FloatKey(bits) else Unequal)
    else
      var m, one := Magnitude64(f), Pow2(digits);
      if m % one != 0 then FloatKey(bits)
      else NumberKey(if f.negative then -(m / one) else m / one)
  }

  predicate SameKey(a: Py, b: Py) {
    KeyOf(a) == KeyOf(b) != Unequal
  }

  /** What the decoder can use as a key: lists and dicts have no hash, and a tuple comes
      back as a list. */
  predicate ScalarKey(v: Py) {
    !v.PyList? && !v.PyTuple? && !v.PyDict?
  }

  /** Where a dict has the key, or its length. */
  function Find(dict: seq<Entry>, key: Py): (i: nat)
    ensures i <= |dict|
    ensures i < |dict| ==> SameKey(dict[i].key, key)
    ensures forall j :: 0 <= j < i ==> !SameKey(dict[j].key, key)
  {
    if dict == [] || SameKey(dict[0].key, key) then 0 else 1 + Find(dict[1..], key)
  }

  /** Python's `dict[key] = value`: a key that is there stays, with its place. */
  function SetItem(dict: seq<Entry>, key: Py, value: Py): seq<Entry> {
    var i := Find(dict, key);
    if i < |dict| then dict[i := Entry(dict[i].key, value)] else dict + [Entry(key, value)]
  }

  predicate DistinctKeys(dict: seq<Entry>) {
    forall i, j :: 0 <= i < j < |dict| ==> !SameKey(dict[i].key, dict[j].key)
  }

  lemma SetItemKeepsDistinct(dict: seq<Entry>, key: Py, value: Py)
    requires DistinctKeys(dict)
    ensures DistinctKeys(SetItem(dict, key, value)) && |SetItem(dict, key, value)| <= |dict| + 1
  {
  }

  // -------------------------------------------------------------- values all through

  /** A value Python can build: no dict has two keys that are the same. */
  predicate WellFormed(v: Py) {
    match v
    case PyList(items) => forall i :: 0 <= i < |items| ==> WellFormed(items[i])
    case PyTuple(items) => forall i :: 0 <= i < |items| ==> WellFormed(items[i])
    case PyDict(entries) =>
      && DistinctKeys(entries)
      && forall i :: 0 <= i < |entries| ==> WellFormed(entries[i].key) && WellFormed(entries[i].value)
    case _ => true
  }

  /** No dict in the value has a tuple for a key. */
  predicate ScalarKeys(v: Py) {
    match v
    case PyList(items) => forall i :: 0 <= i < |items| ==> ScalarKeys(items[i])
    case PyTuple(items) => forall i :: 0 <= i < |items| ==> ScalarKeys(items[i])
    case PyDict(entries) =>
      forall i :: 0 <= i < |entries| ==> ScalarKey(entries[i].key) && ScalarKeys(entries[i].value)
    case _ => true
  }

  predicate NoTuples(v: Py) {
    match v
    case PyList(items) => forall i :: 0 <= i < |items| ==> NoTuples(items[i])
    case PyTuple(_) => false
    case PyDict(entries) =>
      forall i :: 0 <= i < |entries| ==> NoTuples(entries[i].key) && NoTuples(entries[i].value)
    case _ => true
  }

  /** The value with its tuples read as lists. */
  function Listed(v: Py): Py
    decreases v, 1
  {
    match v
    case PyList(items) => PyList(ListedAll(items))
    case PyTuple(items) => PyList(ListedAll(items))
    case PyDict(entries) => PyDict(ListedEntries(entries))
    case _ => v
  }

  function ListedAll(items: seq<Py>): (r: seq<Py>)
    ensures |r| == |items|
    decreases items, 0
  {
    if items == [] then [] else [Listed(items[0])] + ListedAll(items[1..])
  }

  function ListedEntries(entries: seq<Entry>): (r: seq<Entry>)
    ensures |r| == |entries|
    decreases entries, 0
  {
    if entries == [] then []
    else [ListedEntry(entries[0])] + ListedEntries(entries[1..])
  }

  function ListedEntry(e: Entry): Entry
    decreases e, 1
  {
    Entry(Listed(e.key), Listed(e.value))
  }

  /** Without tuples there is nothing to read differently. */
  lemma {:induction false} NothingToList(v: Py)
    requires NoTuples(v)
    ensures Listed(v) == v
    decreases v, 1
  {
    match v
    case PyList(items) => NothingToListIn(items);
    case PyDict(entries) => NothingToListInEntries(entries);
    case _ =>
  }

  lemma {:induction false} NothingToListIn(items: seq<Py>)
    requires forall i :: 0 <= i < |items| ==> NoTuples(items[i])
    ensures ListedAll(items) == items
    decreases items, 0
  {
    if items != [] {
      NothingToList(items[0]);
      NothingToListIn(items[1..]);
    }
  }

  lemma {:induction false} NothingToListInEntries(entries: seq<Entry>)
    requires forall i :: 0 <= i < |entries| ==> NoTuples(entries[i].key) && NoTuples(entries[i].value)
    ensures ListedEntries(entries) == entries
    decreases entries, 0
  {
    if entries != [] {
      NothingToListInEntry(entries[0]);
      NothingToListInEntries(entries[1..]);
    }
  }

  lemma {:induction false} NothingToListInEntry(e: Entry)
    requires NoTuples(e.key) && NoTuples(e.value)
    ensures ListedEntry(e) == e
    decreases e, 1
  {
    NothingToList(e.key);
    NothingToList(e.value);
  }
}
