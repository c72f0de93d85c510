/** Bytes, Go's fixed-width integers and their big-endian form. */
module Bytes {
  type byte = x: int | 0 <= x < 256
  type bytes = seq<byte>

  const TWO_16: nat := 0x1_0000
  const TWO_32: nat := 0x1_0000_0000
  const TWO_64: nat := 0x1_0000_0000_0000_0000

  type uint32 = x: int | 0 <= x < 0x1_0000_0000
  type uint64 = x: int | 0 <= x < 0x1_0000_0000_0000_0000
  type int64 = x: int | -0x8000_0000_0000_0000 <= x < 0x8000_0000_0000_0000

  /** 256 to the power k: how many values k bytes can hold. */
  function Pow256(k: nat): (p: nat)
    ensures p > 0
  {
    if k == 0 then 1 else 256 * Pow256(k - 1)
  }

  /** The low k bytes of n, most significant first. Higher bytes are lost, as in a Go conversion. */
  function BigEndian(n: nat, k: nat): (s: bytes)
    ensures |s| == k
  {
    if k == 0 then [] else BigEndian(n / 256, k - 1) + [n % 256]
  }

  /** The number that a big-endian byte string stands for. */
  function FromBigEndian(s: bytes): nat {
    if s == [] then 0 else 256 * FromBigEndian(s[..|s| - 1]) + s[|s| - 1]
  }

  lemma {:induction false} NumberOfBigEndian(n: nat, k: nat)
    ensures FromBigEndian(BigEndian(n, k)) == n % Pow256(k)
  {
    if k == 0 {
    } else {
      var s := BigEndian(n, k);
      assert s[..|s| - 1] == BigEndian(n / 256, k - 1);
      NumberOfBigEndian(n / 256, k - 1);
      ModSplit(n, Pow256(k - 1));
    }
  }

  lemma ModSplit(n: nat, p: nat)
    requires p > 0
    ensures n % (256 * p) == 256 * ((n / 256) % p) + n % 256
  {
    var m := n / 256;
    var q, r := m / p, m % p;
    assert m == p * q + r;
    assert n == 256 * m + n % 256;
    assert n == (256 * p) * q + (256 * r + n % 256) by {
      assert 256 * (p * q) == (256 * p) * q;
    }
    DivModUnique(n, 256 * p, q, 256 * r + n % 256);
  }

  lemma DivModUnique(n: int, d: int, q: int, r: int)
    requires d > 0 && 0 <= r < d && n == d * q + r
    ensures n / d == q && n % d == r
  {
    var e := n / d - q;
    assert d * e == r - n % d by {
      assert d * e == d * (n / d) - d * q;
    }
    if e != 0 {
      LargeMultiple(d, e);
    }
  }

  lemma LargeMultiple(d: int, e: int)
    requires d > 0 && e != 0
    ensures d * e >= d || d * e <= -d
  {
    if e >= 1 {
      NonNegativeProduct(d, e - 1);
      assert d * (e - 1) == d * e - d;
    } else {
      NonNegativeProduct(d, -1 - e);
      assert d * (-1 - e) == -d - d * e;
    }
  }

  lemma NonNegativeProduct(x: int, y: int)
    requires x >= 0 && y >= 0
    ensures x * y >= 0
  {
  }

  lemma {:induction false} BigEndianOfNumber(s: bytes)
    ensures FromBigEndian(s) < Pow256(|s|)
    ensures BigEndian(FromBigEndian(s), |s|) == s
  {
    if s == [] {
    } else {
      var init, last := s[..|s| - 1], s[|s| - 1];
      BigEndianOfNumber(init);
      DivModUnique(FromBigEndian(s), 256, FromBigEndian(init), last);
      assert s == init + [last];
    }
  }

  lemma PowersOf256()
    ensures Pow256(1) == 0x100 && Pow256(2) == TWO_16 && Pow256(4) == TWO_32 && Pow256(8) == TWO_64
  {
    assert Pow256(1) == 256 * Pow256(0);
    assert Pow256(2) == 256 * Pow256(1);
    assert Pow256(3) == 256 * Pow256(2);
    assert Pow256(4) == 256 * Pow256(3);
    assert Pow256(5) == 256 * Pow256(4);
    assert Pow256(6) == 256 * Pow256(5);
    assert Pow256(7) == 256 * Pow256(6);
    assert Pow256(8) == 256 * Pow256(7);
  }

  /** Go's uint64(v) for a signed v: two's complement. */
  function ToUint64(v: int64): uint64 {
    if v < 0 then v + 0x1_0000_0000_0000_0000 else v
  }

  /** Go's int64(n) for an unsigned n. */
  function ToInt64(n: uint64): int64 {
    if n < 0x8000_0000_0000_0000 then n else n - 0x1_0000_0000_0000_0000
  }
}
