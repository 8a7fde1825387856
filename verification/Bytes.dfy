/** Bytes, and big-endian integers of a given width. */
module Bytes {

  type byte = x: int | 0 <= x < 256

  type bytes = seq<byte>

  /** 256 to the power `width`: the number of values `width` bytes can hold. */
  function Pow256(width: nat): (p: nat)
    ensures p > 0
  {
    if width == 0 then 1 else 256 * Pow256(width - 1)
  }

  /** The number whose big-endian digits are `s`. */
  function FromBE(s: bytes): nat
  {
    if s == [] then 0 else FromBE(s[..|s| - 1]) * 256 + s[|s| - 1]
  }

  /** The low `width` big-endian digits of `n`; higher digits are cut off, as a narrowing cast does. */
  function ToBE(n: nat, width: nat): (s: bytes)
    ensures |s| == width
  {
    if width == 0 then [] else ToBE(n / 256, width - 1) + [n % 256]
  }

  lemma PowValues()
    ensures Pow256(1) == 0x100 && Pow256(2) == 0x1_0000 && Pow256(3) == 0x100_0000
    ensures Pow256(4) == 0x1_0000_0000 && Pow256(8) == 0x1_0000_0000_0000_0000
  {
    assert Pow256(1) == 256 * Pow256(0);
    assert Pow256(2) == 256 * Pow256(1);
    assert Pow256(3) == 256 * Pow256(2);
    assert Pow256(4) == 256 * Pow256(3);
    assert Pow256(5) == 256 * Pow256(4);
    assert Pow256(6) == 256 * Pow256(5);
    assert Pow256(7) == 256 * Pow256(6);
    assert Pow256(8) == 256 * Pow256(7);
  }

  lemma {:induction false} FromBEBound(s: bytes)
    ensures FromBE(s) < Pow256(|s|)
  {
    if s != [] {
      FromBEBound(s[..|s| - 1]);
    }
  }

  /** The first digit weighs most. */
  lemma {:induction false} FirstDigit(b: byte, s: bytes)
    ensures FromBE([b] + s) == b * Pow256(|s|) + FromBE(s)
  {
    if s == [] {
      assert [b][..0] == [];
      assert [b] + s == [b];
    } else {
      var n := |s| - 1;
      FirstDigit(b, s[..n]);
      assert ([b] + s)[..|s|] == [b] + s[..n];
      Weighed(b, Pow256(n), FromBE(s[..n]), s[n]);
    }
  }

  lemma Weighed(b: nat, p: nat, v: nat, d: nat)
    ensures (b * p + v) * 256 + d == b * (256 * p) + (v * 256 + d)
  {
  }

  /** Splitting off the last digit commutes with cutting to a width. */
  lemma DigitOfRemainder(n: nat, p: nat)
    requires p > 0
    ensures (n / 256) % p * 256 + n % 256 == n % (256 * p)
  {
    var q, r := (n / 256) / p, (n / 256) % p;
    assert n == (q * p + r) * 256 + n % 256;
    assert (q * p) * 256 == q * (256 * p);
    RemainderIsUnique(n, 256 * p, q, r * 256 + n % 256);
  }

  lemma RemainderIsUnique(n: nat, m: nat, q: nat, r: nat)
    requires m > 0 && r < m && n == q * m + r
    ensures n % m == r && n / m == q
  {
    var d := q - n / m;
    assert d * m == q * m - (n / m) * m;
    assert d * m == n % m - r;
    assert d > 0 ==> d * m >= m;
    assert d < 0 ==> d * m + m <= 0;
  }

  /** Reading back what was written gives the number cut to the width ... */
  lemma {:induction false} ReadBackNumber(n: nat, width: nat)
    ensures FromBE(ToBE(n, width)) == n % Pow256(width)
  {
    if width > 0 {
      ReadBackNumber(n / 256, width - 1);
      var s := ToBE(n, width);
      assert s[..|s| - 1] == ToBE(n / 256, width - 1);
      DigitOfRemainder(n, Pow256(width - 1));
    }
  }

  /** ... which is the number itself exactly when it fits. */
  lemma ReadBackFits(n: nat, width: nat)
    ensures FromBE(ToBE(n, width)) == n <==> n < Pow256(width)
  {
    ReadBackNumber(n, width);
    UnchangedByRemainder(n, Pow256(width));
  }

  lemma UnchangedByRemainder(n: nat, p: nat)
    requires p > 0
    ensures n % p == n <==> n < p
  {
  }

  /** Writing a number that was read gives the same digits. */
  lemma {:induction false} WriteBackBytes(s: bytes)
    ensures ToBE(FromBE(s), |s|) == s
  {
    if s != [] {
      WriteBackBytes(s[..|s| - 1]);
      assert s == s[..|s| - 1] + [s[|s| - 1]];
    }
  }

  /** The pieces of a concatenation are found again by their lengths. */
  lemma Pieces<T>(a: seq<T>, b: seq<T>, c: seq<T>)
    ensures var s := a + b + c;
            && s[..|a|] == a && s[|a|..] == b + c
            && s[|a|..|a| + |b|] == b && s[|a| + |b|..] == c
            && (b + c)[..|b|] == b && (b + c)[|b|..] == c
            && s == a + (b + c)
  {
  }

  /** A sequence cut in three. */
  lemma Thirds<T>(s: seq<T>, i: nat, j: nat)
    requires i <= j <= |s|
    ensures s == s[..i] + s[i..j] + s[j..]
  {
  }

  /** Concatenation keeps the first element of a non-empty left part. */
  lemma HeadOfConcat<T>(a: seq<T>, b: seq<T>)
    requires a != []
    ensures a + b == [a[0]] + (a[1..] + b)
    ensures (a + b)[0] == a[0] && (a + b)[1..] == a[1..] + b
  {
  }

  /** Concatenation is associative. */
  lemma Regrouped<T>(a: seq<T>, b: seq<T>, c: seq<T>)
    ensures a + b + c == a + (b + c)
  {
  }
}
