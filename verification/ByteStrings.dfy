/** Bytes, and the big-endian numbers written in them. */
module ByteStrings {
  type Byte = b: int | 0 <= b < 0x100
  type Bytes = seq<Byte>

  /** `n` in `width` bytes, most significant first; higher digits are cut off. */
  function BigEndian(n: nat, width: nat): (bytes: Bytes)
    ensures |bytes| == width
  {
    if width == 0 then [] else BigEndian(n / 0x100, width - 1) + [n % 0x100]
  }

  function FromBigEndian(bytes: Bytes): nat {
    if bytes == [] then 0 else FromBigEndian(bytes[..|bytes| - 1]) * 0x100 + bytes[|bytes| - 1]
  }

  /** How many numbers `width` bytes can tell apart. */
  function Limit(width: nat): nat {
    if width == 0 then 1 else 0x100 * Limit(width - 1)
  }

  lemma {:induction false} FromBigEndianOf(n: nat, width: nat)
    requires n < Limit(width)
    ensures FromBigEndian(BigEndian(n, width)) == n
  {
    if width > 0 {
      FromBigEndianOf(n / 0x100, width - 1);
      var high := BigEndian(n / 0x100, width - 1);
      assert (high + [n % 0x100])[..width - 1] == high;
    }
  }

  lemma {:induction false} BigEndianOf(bytes: Bytes)
    ensures FromBigEndian(bytes) < Limit(|bytes|)
    ensures BigEndian(FromBigEndian(bytes), |bytes|) == bytes
  {
    if bytes != [] {
      var n := |bytes| - 1;
      BigEndianOf(bytes[..n]);
      assert FromBigEndian(bytes) / 0x100 == FromBigEndian(bytes[..n]);
      assert bytes[..n] + [bytes[n]] == bytes;
    }
  }

  lemma Limits()
    ensures Limit(1) == 0x100 && Limit(2) == 0x1_0000 && Limit(4) == 0x1_0000_0000
    ensures Limit(8) == 0x1_0000_0000_0000_0000
  {
    assert Limit(3) == 0x100_0000;
    assert Limit(6) == 0x1_0000_0000_0000;
  }

  /** The order in which byte strings are compared: byte by byte, a prefix first. */
  predicate Before(a: Bytes, b: Bytes) {
    if b == [] then false
    else if a == [] then true
    else a[0] < b[0] || (a[0] == b[0] && Before(a[1..], b[1..]))
  }

  lemma {:induction false} BeforeUnderPrefix(p: Bytes, a: Bytes, b: Bytes)
    ensures Before(p + a, p + b) <==> Before(a, b)
  {
    if p == [] {
      assert p + a == a && p + b == b;
    } else {
      assert (p + a)[1..] == p[1..] + a && (p + b)[1..] == p[1..] + b;
      BeforeUnderPrefix(p[1..], a, b);
    }
  }
}
