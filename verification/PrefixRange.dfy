/** Prefix filters as index ranges: the strings that start with a prefix are the strings
    from the prefix up to a bound. */
module PrefixRange {
  import opened ByteStrings
  import opened Text
  import opened Wrappers
  import Utf8

  const MAX_CODE_POINT := 0x10FFFF
  const SURROGATES_START := 0xD800
  const SURROGATES_STOP := 0xE000
  const MAX_CHAR: char := '\U{10FFFF}'

  /** The next character; a string cannot hold surrogates, so they are skipped. */
  function NextChar(c: char): (d: char)
    requires c != MAX_CHAR
    ensures c < d
  {
    if c as int + 1 == SURROGATES_START then SURROGATES_STOP as char else (c as int + 1) as char
  }

  lemma NothingBetween(c: char, e: char)
    requires c != MAX_CHAR && c < e
    ensures NextChar(c) <= e
  {
  }

  /** The bound: the last character that can be bumped is, and what follows it goes. */
  function Bound(prefix: string): Option<string> {
    if prefix == [] then None
    else
      var n := |prefix| - 1;
      if prefix[n] == MAX_CHAR then Bound(prefix[..n]) else Some(prefix[..n] + [NextChar(prefix[n])])
  }

  /** The bump loop. */
  method PrefixUpperBound(prefix: string) returns (upper: Option<string>)
    ensures upper == Bound(prefix)
  {
    var chars := prefix;
    while chars != []
      invariant Bound(chars) == Bound(prefix)
      decreases |chars|
    {
      var n := |chars| - 1;
      var cp := chars[n] as int + 1;
      if SURROGATES_START <= cp < SURROGATES_STOP {
        cp := SURROGATES_STOP;
      }
      if cp <= MAX_CODE_POINT {
        chars := chars[n := cp as char];
        assert chars == chars[..n] + [cp as char];
        return Some(chars);
      }
      chars := chars[..n];
    }
    return None;
  }

  // ------------------------------------------------------------ below and above

  lemma {:induction false} PrefixIsAtMost(p: string, t: string)
    ensures AtMost(p, p + t)
  {
    if p == [] {
      assert p + t == t;
    } else {
      assert (p + t)[1..] == p[1..] + t;
      PrefixIsAtMost(p[1..], t);
      assert p == [p[0]] + p[1..] && p + t == [p[0]] + (p[1..] + t);
    }
  }

  lemma AtMostUnderPrefix(p: string, a: string, b: string)
    ensures AtMost(p + a, p + b) <==> AtMost(a, b)
  {
    LessUnderPrefix(p, a, b);
    if p + a == p + b {
      assert (p + a)[|p|..] == a && (p + b)[|p|..] == b;
    }
  }

  /** Between two strings that share a first part, everything shares it. */
  lemma {:induction false} BetweenStartsWith(q: string, a: string, b: string, s: string)
    requires AtMost(q + a, s) && Less(s, q + b)
    ensures StartsWith(s, q)
  {
    if q != [] {
      assert (q + a)[1..] == q[1..] + a && (q + b)[1..] == q[1..] + b;
      assert (q + a)[0] == (q + b)[0] == q[0];
      assert s != [] && s[0] == q[0];
      BetweenStartsWith(q[1..], a, b, s[1..]);
      assert s[..|q|] == [s[0]] + s[1..][..|q| - 1];
    }
  }

  /** One character wide: from `[c]` up to the next character. */
  lemma OneCharRange(c: char, t: string)
    requires c != MAX_CHAR
    ensures AtMost([c], t) && Less(t, [NextChar(c)]) <==> t != [] && t[0] == c
  {
    var d := NextChar(c);
    assert [c][1..] == [] && [d][1..] == [];
    if t != [] && c < t[0] {
      NothingBetween(c, t[0]);
    }
    if t != [] && t[0] == c {
      PrefixIsAtMost([c], t[1..]);
      assert [c] + t[1..] == t;
    }
  }

  lemma SplitAfter(s: string, q: string, c: char) returns (t: string)
    requires StartsWith(s, q)
    ensures s == q + t && (StartsWith(s, q + [c]) <==> t != [] && t[0] == c)
  {
    t := s[|q|..];
    if t != [] {
      assert s[..|q| + 1] == q + [t[0]];
    }
  }

  // --------------------------------------------------------------- main results

  /** A string starts with the prefix exactly when it lies in the range. */
  lemma {:induction false} RangeIsExact(prefix: string, s: string)
    requires Bound(prefix).Some?
    ensures StartsWith(s, prefix) <==> AtMost(prefix, s) && Less(s, Bound(prefix).value)
    decreases |prefix|
  {
    var n := |prefix| - 1;
    var q, c := prefix[..n], prefix[n];
    assert prefix == q + [c];
    var upper := Bound(prefix).value;
    if StartsWith(s, prefix) {
      PrefixIsAtMost(prefix, s[|prefix|..]);
      assert s == prefix + s[|prefix|..];
      assert s[..n] == q;
    }
    if c == MAX_CHAR {
      RangeIsExact(q, s);
      if AtMost(prefix, s) && Less(s, upper) {
        PrefixIsAtMost(q, [c]);
        if q + [c] != s && q != q + [c] {
          LessIsTransitive(q, prefix, s);
        }
        var t := SplitAfter(s, q, c);
        AtMostUnderPrefix(q, [c], t);
      }
    } else {
      var d := NextChar(c);
      if AtMost(prefix, s) && Less(s, upper) {
        BetweenStartsWith(q, [c], [d], s);
      }
      if StartsWith(s, q) {
        var t := SplitAfter(s, q, c);
        AtMostUnderPrefix(q, [c], t);
        LessUnderPrefix(q, t, [d]);
        OneCharRange(c, t);
      }
    }
  }

  /** Strings above everything that starts with the prefix. */
  ghost predicate Above(u: string, prefix: string) {
    forall s :: StartsWith(s, prefix) ==> Less(s, u)
  }

  /** The bound is the least such string. */
  lemma BoundIsLeast(prefix: string, u: string)
    requires Bound(prefix).Some?
    ensures Above(Bound(prefix).value, prefix)
    ensures Above(u, prefix) ==> AtMost(Bound(prefix).value, u)
  {
    var upper := Bound(prefix).value;
    forall s | StartsWith(s, prefix) ensures Less(s, upper) {
      RangeIsExact(prefix, s);
    }
    if Above(u, prefix) {
      LessIsTotal(u, upper);
      if Less(u, upper) {
        assert StartsWith(prefix, prefix);
        assert Less(prefix, u);
        RangeIsExact(prefix, u);
        assert Less(u, u);
        LessIsAsymmetric(u, u);
      }
    }
  }

  function Maxes(n: nat): string {
    if n == 0 then [] else [MAX_CHAR] + Maxes(n - 1)
  }

  lemma {:induction false} NothingAboveMaxes(n: nat, u: string)
    requires n >= |u|
    ensures !Less(Maxes(n), u)
  {
    if n > 0 && u != [] {
      assert Maxes(n)[1..] == Maxes(n - 1);
      NothingAboveMaxes(n - 1, u[1..]);
    }
  }

  lemma {:induction false} NoBoundMeansMaxes(prefix: string)
    requires Bound(prefix).None?
    ensures prefix == Maxes(|prefix|)
    decreases |prefix|
  {
    if prefix != [] {
      var n := |prefix| - 1;
      NoBoundMeansMaxes(prefix[..n]);
      MaxesConcat(n, 1);
      assert Maxes(1) == [MAX_CHAR] + Maxes(0);
      assert prefix == prefix[..n] + [MAX_CHAR];
    }
  }

  lemma {:induction false} MaxesConcat(n: nat, k: nat)
    ensures Maxes(n + k) == Maxes(n) + Maxes(k)
  {
    if n > 0 {
      MaxesConcat(n - 1, k);
    }
  }

  /** None is returned exactly when nothing is above all strings with the prefix. */
  lemma NoneMeansNoBound(prefix: string)
    ensures Bound(prefix).None? <==> !exists u :: Above(u, prefix)
    ensures Bound(prefix).None? <==> forall i :: 0 <= i < |prefix| ==> prefix[i] == MAX_CHAR
  {
    if Bound(prefix).Some? {
      BoundIsLeast(prefix, []);
      AllMaxHasNoBound(prefix);
    } else {
      NoBoundMeansMaxes(prefix);
      AllMaxes(|prefix|);
      forall u ensures !Above(u, prefix) {
        var s := prefix + Maxes(|u|);
        MaxesConcat(|prefix|, |u|);
        NothingAboveMaxes(|prefix| + |u|, u);
        assert StartsWith(s, prefix);
      }
    }
  }

  lemma {:induction false} AllMaxes(n: nat)
    ensures |Maxes(n)| == n && forall i :: 0 <= i < n ==> Maxes(n)[i] == MAX_CHAR
  {
    if n > 0 {
      AllMaxes(n - 1);
    }
  }

  lemma {:induction false} AllMaxHasNoBound(prefix: string)
    ensures (forall i :: 0 <= i < |prefix| ==> prefix[i] == MAX_CHAR) ==> Bound(prefix).None?
    decreases |prefix|
  {
    if prefix != [] {
      AllMaxHasNoBound(prefix[..|prefix| - 1]);
    }
  }

  /** The same range over the stored bytes, which is how the index compares. */
  lemma ByteRangeIsExact(prefix: string, s: string)
    requires Bound(prefix).Some?
    ensures StartsWith(s, prefix)
      <==> !Before(Utf8.Encode(s), Utf8.Encode(prefix)) && Before(Utf8.Encode(s), Utf8.Encode(Bound(prefix).value))
  {
    RangeIsExact(prefix, s);
    Utf8.ByteOrderIsCodePointOrder(s, prefix);
    Utf8.ByteOrderIsCodePointOrder(s, Bound(prefix).value);
    LessIsTotal(prefix, s);
    if Less(prefix, s) {
      LessIsAsymmetric(prefix, s);
    } else if prefix == s && Less(s, s) {
      LessIsAsymmetric(s, s);
    }
  }
}
