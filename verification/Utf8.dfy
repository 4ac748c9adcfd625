/** UTF-8 as section 3 of RFC 3629 defines it: how a store writes its strings, and what the
    codec accepts as a string. */
module Utf8 {
  import opened ByteStrings
  import opened Text
  import opened Wrappers

  function EncodeChar(c: char): Bytes {
    var cp := c as int;
    if cp < 0x80 then [cp]
    else if cp < 0x800 then [0xC0 + cp / 0x40, 0x80 + cp % 0x40]
    else if cp < 0x1_0000 then [0xE0 + cp / 0x1000, 0x80 + cp / 0x40 % 0x40, 0x80 + cp % 0x40]
    else [0xF0 + cp / 0x4_0000, 0x80 + cp / 0x1000 % 0x40, 0x80 + cp / 0x40 % 0x40, 0x80 + cp % 0x40]
  }

  function Encode(s: string): Bytes {
    if s == [] then [] else EncodeChar(s[0]) + Encode(s[1..])
  }

  /** How many bytes the character that starts with `lead` takes; none if nothing does. */
  function Width(lead: Byte): nat {
    if lead < 0x80 then 1
    else if 0xC0 <= lead < 0xE0 then 2
    else if 0xE0 <= lead < 0xF0 then 3
    else if 0xF0 <= lead < 0xF8 then 4
    else 0
  }

  predicate Continues(b: Byte) {
    0x80 <= b < 0xC0
  }

  function Low(b: Byte): int {
    b as int - 0x80
  }

  predicate AllContinue(bytes: Bytes) {
    bytes == [] || (Continues(bytes[0]) && AllContinue(bytes[1..]))
  }

  /** The number the bytes of one character spell, whether or not it is one. */
  function Spelled(b: Bytes): int
    requires |b| > 0 && 0 < Width(b[0]) <= |b|
  {
    match Width(b[0])
    case 1 => b[0]
    case 2 => (b[0] as int - 0xC0) * 0x40 + Low(b[1])
    case 3 => (b[0] as int - 0xE0) * 0x1000 + Low(b[1]) * 0x40 + Low(b[2])
    case _ => (b[0] as int - 0xF0) * 0x4_0000 + Low(b[1]) * 0x1000 + Low(b[2]) * 0x40 + Low(b[3])
  }

  /** Overlong forms, surrogates and numbers past the last code point are no characters. */
  predicate IsChar(cp: int, width: nat) {
    && 0 <= cp < 0x11_0000 && !(0xD800 <= cp < 0xE000)
    && match width
       case 1 => cp < 0x80
       case 2 => 0x80 <= cp
       case 3 => 0x800 <= cp
       case _ => 0x1_0000 <= cp
  }

  function DecodeChar(b: Bytes): Option<char> {
    if b == [] || Width(b[0]) == 0 || Width(b[0]) > |b| then None
    else if !AllContinue(b[1..Width(b[0])]) then None
    else if IsChar(Spelled(b), Width(b[0])) then Some(Spelled(b) as char)
    else None
  }

  function Decode(b: Bytes): Option<string>
    decreases |b|
  {
    if b == [] then Some([])
    else
      match DecodeChar(b)
      case None => None
      case Some(c) =>
        match Decode(b[Width(b[0])..])
        case None => None
        case Some(rest) => Some([c] + rest)
  }

  // -------------------------------------------------------------------- round trips

  lemma Halves(n: int, unit: int)
    requires 0 <= n && (unit == 0x40 || unit == 0x1000)
    ensures n / (unit * 0x40) == n / unit / 0x40
  {
    var high, low := n / unit / 0x40, n / unit % 0x40;
    assert n == high * unit * 0x40 + low * unit + n % unit;
  }

  /** A number from its digits in base 0x40. */
  lemma Digits(n: int)
    requires 0 <= n
    ensures n == n / 0x40 * 0x40 + n % 0x40
    ensures n / 0x40 == n / 0x1000 * 0x40 + n / 0x40 % 0x40
    ensures n / 0x1000 == n / 0x4_0000 * 0x40 + n / 0x1000 % 0x40
  {
    Halves(n, 0x40);
    Halves(n, 0x1000);
  }

  /** Base 0x40 writes every number one way only. */
  lemma DigitsOf(a: int, b: int, c: int, d: int)
    requires 0 <= a && 0 <= b < 0x40 && 0 <= c < 0x40 && 0 <= d < 0x40
    ensures var n := a * 0x4_0000 + b * 0x1000 + c * 0x40 + d;
            n / 0x4_0000 == a && n / 0x1000 % 0x40 == b && n / 0x40 % 0x40 == c && n % 0x40 == d
  {
    var n := a * 0x4_0000 + b * 0x1000 + c * 0x40 + d;
    assert n / 0x40 == a * 0x1000 + b * 0x40 + c;
    assert n / 0x1000 == a * 0x40 + b;
  }

  lemma OneContinues(a: Byte)
    ensures AllContinue([a]) <==> Continues(a)
  {
    assert [a][1..] == [];
  }

  lemma TwoContinue(a: Byte, b: Byte)
    ensures AllContinue([a, b]) <==> Continues(a) && Continues(b)
  {
    assert [a, b][1..] == [b];
    OneContinues(b);
  }

  lemma ThreeContinue(a: Byte, b: Byte, c: Byte)
    ensures AllContinue([a, b, c]) <==> Continues(a) && Continues(b) && Continues(c)
  {
    assert [a, b, c][1..] == [b, c];
    TwoContinue(b, c);
  }

  lemma DecodeCharOf(c: char, rest: Bytes)
    ensures DecodeChar(EncodeChar(c) + rest) == Some(c)
    ensures Width(EncodeChar(c)[0]) == |EncodeChar(c)|
  {
    var cp := c as int;
    var e := EncodeChar(c);
    var b := e + rest;
    Digits(cp);
    assert b[0] == e[0] && Width(e[0]) == |e|;
    assert b[1..|e|] == e[1..];
    assert AllContinue(e[1..]) by {
      if |e| == 2 {
        assert e[1..] == [e[1]];
        OneContinues(e[1]);
      } else if |e| == 3 {
        assert e[1..] == [e[1], e[2]];
        TwoContinue(e[1], e[2]);
      } else if |e| == 4 {
        assert e[1..] == [e[1], e[2], e[3]];
        ThreeContinue(e[1], e[2], e[3]);
      }
    }
    assert Spelled(b) == cp;
  }

  lemma TwoBytesOf(b: Bytes)
    requires DecodeChar(b).Some? && Width(b[0]) == 2
    ensures EncodeChar(DecodeChar(b).value) == b[..2]
  {
    assert b[1..2] == [b[1]] && b[..2] == [b[0], b[1]];
    OneContinues(b[1]);
    DigitsOf(0, 0, b[0] as int - 0xC0, Low(b[1]));
  }

  lemma ThreeBytesOf(b: Bytes)
    requires DecodeChar(b).Some? && Width(b[0]) == 3
    ensures EncodeChar(DecodeChar(b).value) == b[..3]
  {
    assert b[1..3] == [b[1], b[2]] && b[..3] == [b[0], b[1], b[2]];
    TwoContinue(b[1], b[2]);
    DigitsOf(0, b[0] as int - 0xE0, Low(b[1]), Low(b[2]));
  }

  lemma FourBytesOf(b: Bytes)
    requires DecodeChar(b).Some? && Width(b[0]) == 4
    ensures EncodeChar(DecodeChar(b).value) == b[..4]
  {
    assert b[1..4] == [b[1], b[2], b[3]] && b[..4] == [b[0], b[1], b[2], b[3]];
    ThreeContinue(b[1], b[2], b[3]);
    DigitsOf(b[0] as int - 0xF0, Low(b[1]), Low(b[2]), Low(b[3]));
  }

  lemma EncodeCharOf(b: Bytes)
    requires DecodeChar(b).Some?
    ensures 0 < Width(b[0]) <= |b| && EncodeChar(DecodeChar(b).value) == b[..Width(b[0])]
  {
    match Width(b[0])
    case 1 => assert b[..1] == [b[0]];
    case 2 => TwoBytesOf(b);
    case 3 => ThreeBytesOf(b);
    case _ => FourBytesOf(b);
  }

  lemma DecodeFrom(c: char, s: string, rest: Bytes)
    requires Decode(rest) == Some(s)
    ensures Decode(EncodeChar(c) + rest) == Some([c] + s)
  {
    DecodeCharOf(c, rest);
    var lead := EncodeChar(c);
    assert (lead + rest)[0] == lead[0] && (lead + rest)[|lead|..] == rest;
  }

  /** Every surrogate-free string comes back from its bytes. */
  lemma {:induction false} DecodeOf(s: string)
    ensures Decode(Encode(s)) == Some(s)
  {
    if s != [] {
      DecodeOf(s[1..]);
      DecodeFrom(s[0], s[1..], Encode(s[1..]));
      assert [s[0]] + s[1..] == s;
    }
  }

  lemma EncodeCons(c: char, s: string, lead: Bytes, rest: Bytes)
    requires EncodeChar(c) == lead && Encode(s) == rest
    ensures Encode([c] + s) == lead + rest
  {
    assert ([c] + s)[1..] == s;
  }

  lemma DecodeStep(b: Bytes)
    requires b != [] && Decode(b).Some?
    ensures DecodeChar(b).Some? && 0 < Width(b[0]) <= |b|
    ensures Decode(b[Width(b[0])..]).Some?
    ensures Decode(b).value == [DecodeChar(b).value] + Decode(b[Width(b[0])..]).value
  {
  }

  lemma SplitAt(b: Bytes, n: nat)
    requires n <= |b|
    ensures b[..n] + b[n..] == b
  {
  }

  /** Bytes that decode are the bytes of what they decode to, and of nothing else. */
  lemma {:induction false} EncodeOf(b: Bytes)
    requires Decode(b).Some?
    ensures Encode(Decode(b).value) == b
    decreases |b|
  {
    if b != [] {
      DecodeStep(b);
      var n := Width(b[0]);
      EncodeOf(b[n..]);
      EncodeCharOf(b);
      EncodeCons(DecodeChar(b).value, Decode(b[n..]).value, b[..n], b[n..]);
      SplitAt(b, n);
    }
  }

  // ------------------------------------------------------------------------- order

  /** The first byte that differs decides. */
  lemma FirstDifference(p: Bytes, q: Bytes, k: nat)
    requires k < |p| && k < |q| && p[..k] == q[..k] && p[k] < q[k]
    ensures Before(p, q) && !Before(q, p)
  {
    if k > 0 {
      assert p[1..][..k - 1] == p[..k][1..] && q[1..][..k - 1] == q[..k][1..];
      FirstDifference(p[1..], q[1..], k - 1);
    }
  }

  /** Where the encodings of two characters first differ. */
  function Difference(p: Bytes, q: Bytes): nat
    requires |p| > 0 && |q| > 0
  {
    if p[0] != q[0] || |p| < 2 || |q| < 2 then 0
    else if p[1] != q[1] || |p| < 3 || |q| < 3 then 1
    else if p[2] != q[2] || |p| < 4 || |q| < 4 then 2
    else 3
  }

  lemma CharsDiffer(c: char, d: char)
    requires c < d
    ensures var p, q := EncodeChar(c), EncodeChar(d);
            var k := Difference(p, q);
            k < |p| && k < |q| && p[k] < q[k]
  {
    Digits(c as int);
    Digits(d as int);
  }

  lemma CharOrder(c: char, d: char, x: Bytes, y: Bytes)
    requires c < d
    ensures Before(EncodeChar(c) + x, EncodeChar(d) + y)
    ensures !Before(EncodeChar(d) + y, EncodeChar(c) + x)
  {
    var p, q := EncodeChar(c), EncodeChar(d);
    CharsDiffer(c, d);
    FirstDifference(p + x, q + y, Difference(p, q));
  }

  /** Comparing the bytes compares the code points. */
  lemma {:induction false} ByteOrderIsCodePointOrder(a: string, b: string)
    ensures Before(Encode(a), Encode(b)) <==> Less(a, b)
  {
    if a == [] || b == [] {
    } else if a[0] == b[0] {
      BeforeUnderPrefix(EncodeChar(a[0]), Encode(a[1..]), Encode(b[1..]));
      ByteOrderIsCodePointOrder(a[1..], b[1..]);
    } else if a[0] < b[0] {
      CharOrder(a[0], b[0], Encode(a[1..]), Encode(b[1..]));
    } else {
      CharOrder(b[0], a[0], Encode(b[1..]), Encode(a[1..]));
    }
  }

  /** Characters of the examples in section 7 of RFC 3629: NOT IDENTICAL TO, ALPHA, the
      first of "Korean" and of "Japanese", and one beyond the basic plane. */
  lemma ExamplesOfTheStandard()
    ensures EncodeChar('A') == [0x41]
    ensures EncodeChar('\U{2262}') == [0xE2, 0x89, 0xA2]
    ensures EncodeChar('\U{0391}') == [0xCE, 0x91]
    ensures EncodeChar('\U{D55C}') == [0xED, 0x95, 0x9C]
    ensures EncodeChar('\U{65E5}') == [0xE6, 0x97, 0xA5]
    ensures EncodeChar('\U{233B4}') == [0xF0, 0xA3, 0x8E, 0xB4]
  {
  }

  lemma EncodeOne(a: char)
    ensures Encode([a]) == EncodeChar(a)
  {
    assert [a][1..] == [] && EncodeChar(a) + [] == EncodeChar(a);
  }
}
