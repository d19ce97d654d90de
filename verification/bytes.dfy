/**
 Bytes, 32-byte digests, big-endian unsigned integers and the byte-wise
 ordering that `Buffer.compare` imposes on digests.
 */
module Bytes {

  /** One octet. */
  newtype byte = x: int | 0 <= x < 256

  /** A 32-byte value: a Keccak-256 digest, a Merkle leaf or an inner node. */
  type Node = s: seq<byte> | |s| == 32 witness seq(32, _ => 0 as byte)

  /** A 256-bit hash function, e.g. Keccak-256. It is never looked into: every
      property of the tree holds for any function with 32-byte outputs. */
  type Hasher = seq<byte> -> Node

  /** 256 to the power `n`: the number of values `n` bytes can hold. */
  function Pow256(n: nat): (p: nat)
    ensures p >= 1
  {
    if n == 0 then 1 else 256 * Pow256(n - 1)
  }

  /** Powers of 256 multiply by adding exponents. */
  lemma {:induction false} Pow256Add(a: nat, b: nat)
    ensures Pow256(a + b) == Pow256(a) * Pow256(b)
    decreases a
  {
    if a > 0 {
      Pow256Add(a - 1, b);
    }
  }

  /** The unsigned integer a byte string denotes when read most significant byte first. */
  function FromBigEndian(s: seq<byte>): nat
  {
    if |s| == 0 then 0 else s[0] as nat * Pow256(|s| - 1) + FromBigEndian(s[1..])
  }

  /** The `width`-byte big-endian representation of `v`, left-padded with zero bytes. */
  function ToBigEndian(v: nat, width: nat): (r: seq<byte>)
    requires v < Pow256(width)
    ensures |r| == width
    decreases width, v
  {
    if width == 0 then [] else ToBigEndian(v / 256, width - 1) + [(v % 256) as byte]
  }

  /** Reading the encoding of `v` back gives `v`. */
  lemma {:induction false} FromToBigEndian(v: nat, width: nat)
    requires v < Pow256(width)
    ensures FromBigEndian(ToBigEndian(v, width)) == v
    decreases width
  {
    if width > 0 {
      FromToBigEndian(v / 256, width - 1);
      FromBigEndianSnoc(ToBigEndian(v / 256, width - 1), (v % 256) as byte);
    }
  }

  /** Appending a byte shifts the value left by eight bits and adds the byte. */
  lemma {:induction false} FromBigEndianSnoc(s: seq<byte>, b: byte)
    ensures FromBigEndian(s + [b]) == FromBigEndian(s) * 256 + b as nat
    decreases |s|
  {
    if |s| == 0 {
      assert s + [b] == [b];
    } else {
      assert (s + [b])[1..] == s[1..] + [b];
      FromBigEndianSnoc(s[1..], b);
      calc {
        FromBigEndian(s + [b]);
        s[0] as nat * Pow256(|s|) + FromBigEndian(s[1..] + [b]);
        s[0] as nat * Pow256(|s|) + FromBigEndian(s[1..]) * 256 + b as nat;
        { assert Pow256(|s|) == 256 * Pow256(|s| - 1); }
        (s[0] as nat * Pow256(|s| - 1) + FromBigEndian(s[1..])) * 256 + b as nat;
      }
    }
  }

  /** An `n`-byte string denotes a value below 256^n. */
  lemma {:induction false} FromBigEndianBound(s: seq<byte>)
    ensures FromBigEndian(s) < Pow256(|s|)
    decreases |s|
  {
    if |s| > 0 {
      FromBigEndianBound(s[1..]);
      var p := Pow256(|s| - 1);
      assert s[0] as nat * p + FromBigEndian(s[1..]) < (s[0] as nat + 1) * p;
      assert (s[0] as nat + 1) * p <= 256 * p by {
        MulLeMonotonic(s[0] as nat + 1, 256, p);
      }
    }
  }

  /** Big-endian decoding is injective on strings of one width: the encoding
      returns exactly the bytes it was given. */
  lemma {:induction false} BigEndianRoundTrip(s: seq<byte>)
    ensures FromBigEndian(s) < Pow256(|s|)
    ensures ToBigEndian(FromBigEndian(s), |s|) == s
    decreases |s|
  {
    FromBigEndianBound(s);
    if |s| > 0 {
      var init, last := s[..|s| - 1], s[|s| - 1];
      assert s == init + [last];
      FromBigEndianSnoc(init, last);
      var v := FromBigEndian(s);
      assert v / 256 == FromBigEndian(init) && v % 256 == last as nat;
      BigEndianRoundTrip(init);
      assert ToBigEndian(v, |s|) == ToBigEndian(v / 256, |s| - 1) + [(v % 256) as byte];
    }
  }

  /** Multiplying both sides by the same natural keeps `<=`. */
  lemma MulLeMonotonic(a: nat, b: nat, p: nat)
    requires a <= b
    ensures a * p <= b * p
  {
  }

  /** `a` sorts no later than `b` under `Buffer.compare`: byte-wise
      lexicographic order, a proper prefix sorting first. */
  predicate LexLessEq(a: seq<byte>, b: seq<byte>)
    decreases |a|
  {
    |a| == 0 || (|b| > 0 && (a[0] < b[0] || (a[0] == b[0] && LexLessEq(a[1..], b[1..]))))
  }

  /** Any two byte strings are comparable. */
  lemma {:induction false} LexLessEqTotal(a: seq<byte>, b: seq<byte>)
    ensures LexLessEq(a, b) || LexLessEq(b, a)
    decreases |a|
  {
    if |a| > 0 && |b| > 0 && a[0] == b[0] {
      LexLessEqTotal(a[1..], b[1..]);
    }
  }

  /** Only equal strings sort before each other. */
  lemma {:induction false} LexLessEqAntisymmetric(a: seq<byte>, b: seq<byte>)
    requires LexLessEq(a, b) && LexLessEq(b, a)
    ensures a == b
    decreases |a|
  {
    if |a| > 0 {
      LexLessEqAntisymmetric(a[1..], b[1..]);
      assert a == [a[0]] + a[1..] && b == [b[0]] + b[1..];
    }
  }

  /** A smaller leading digit outweighs any remainder below the digit's weight. */
  lemma DigitDominates(x: nat, y: nat, p: nat, ra: nat, rb: nat)
    requires x < y && ra < p
    ensures x * p + ra < y * p + rb
  {
    MulLeMonotonic(x + 1, y, p);
    assert (x + 1) * p == x * p + p;
  }

  /** Between strings of equal width, a smaller leading byte means a smaller value. */
  lemma LeadingByteDecides(a: seq<byte>, b: seq<byte>)
    requires |a| == |b| > 0 && a[0] < b[0]
    ensures FromBigEndian(a) < FromBigEndian(b)
  {
    var p := Pow256(|a| - 1);
    FromBigEndianBound(a[1..]);
    DigitDominates(a[0] as nat, b[0] as nat, p, FromBigEndian(a[1..]), FromBigEndian(b[1..]));
  }

  /** On strings of equal width, the byte-wise order is the order of the
      big-endian unsigned values: comparing digests compares 256-bit numbers. */
  lemma {:induction false} LexLessEqIsNumericOrder(a: seq<byte>, b: seq<byte>)
    requires |a| == |b|
    ensures LexLessEq(a, b) <==> FromBigEndian(a) <= FromBigEndian(b)
    decreases |a|
  {
    if |a| > 0 {
      if a[0] < b[0] {
        LeadingByteDecides(a, b);
        assert LexLessEq(a, b);
      } else if b[0] < a[0] {
        LeadingByteDecides(b, a);
        assert !LexLessEq(a, b);
      } else {
        var p := Pow256(|a| - 1);
        assert FromBigEndian(a) == a[0] as nat * p + FromBigEndian(a[1..]);
        assert FromBigEndian(b) == b[0] as nat * p + FromBigEndian(b[1..]);
        LexLessEqIsNumericOrder(a[1..], b[1..]);
        assert LexLessEq(a, b) == LexLessEq(a[1..], b[1..]);
      }
    }
  }
}
