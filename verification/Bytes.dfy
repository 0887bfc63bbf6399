/** Unsigned 8-bit values and byte strings read as big-endian numbers. */
module Bytes {
  type byte = x: int | 0 <= x < 256

  /** The number a byte string denotes, most significant byte first. */
  function BigEndian(b: seq<byte>): nat {
    if b == [] then 0 else BigEndian(b[..|b| - 1]) * 256 + b[|b| - 1]
  }

  function Pow256(n: nat): (r: nat)
    ensures r > 0
  {
    if n == 0 then 1 else 256 * Pow256(n - 1)
  }

  function Zeros(n: nat): (z: seq<byte>)
    ensures |z| == n && forall i :: 0 <= i < n ==> z[i] == 0
  {
    seq(n, _ => 0)
  }

  lemma {:induction false} BigEndianBound(b: seq<byte>)
    ensures BigEndian(b) < Pow256(|b|)
  {
    if b != [] { BigEndianBound(b[..|b| - 1]); }
  }

  /** Leading zeros do not count. */
  lemma {:induction false} BigEndianPad(n: nat, b: seq<byte>)
    ensures BigEndian(Zeros(n) + b) == BigEndian(b)
  {
    if b == [] {
      assert Zeros(n) + b == Zeros(n);
      if n > 0 {
        assert Zeros(n)[..n - 1] == Zeros(n - 1) + [];
        BigEndianPad(n - 1, b);
      }
    } else {
      BigEndianPad(n, b[..|b| - 1]);
      var s := Zeros(n) + b;
      assert s[..|s| - 1] == Zeros(n) + b[..|b| - 1];
    }
  }

  /** Byte strings of one length denote the same number only if they are equal. */
  lemma {:induction false} BigEndianInjective(a: seq<byte>, b: seq<byte>)
    requires |a| == |b| && BigEndian(a) == BigEndian(b)
    ensures a == b
  {
    if a != [] {
      BigEndianInjective(a[..|a| - 1], b[..|b| - 1]);
      assert a == a[..|a| - 1] + [a[|a| - 1]] && b == b[..|b| - 1] + [b[|b| - 1]];
    }
  }

  /** What comes first counts most: each byte is a digit to the base 256. */
  lemma {:induction false} BigEndianAppend(a: seq<byte>, b: seq<byte>)
    ensures BigEndian(a + b) == BigEndian(a) * Pow256(|b|) + BigEndian(b)
    ensures Pow256(1) == 256 && (|b| == 1 ==> BigEndian(b) == b[0])
  {
    if b == [] {
      assert a + b == a;
    } else {
      var front, last := b[..|b| - 1], b[|b| - 1];
      assert (a + b)[..|a + b| - 1] == a + front;
      BigEndianAppend(a, front);
      assert BigEndian(a) * Pow256(|front|) * 256 == BigEndian(a) * Pow256(|b|);
    }
  }
}
