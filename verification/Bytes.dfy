/** Byte strings and big-endian numbers. */
module Bytes {

  type Bytes = seq<int>

  predicate IsBytes(b: Bytes) {
    forall i :: 0 <= i < |b| ==> 0 <= b[i] < 256
  }

  function Pow256(n: nat): (p: nat)
    ensures p >= 1
  {
    if n == 0 then 1 else 256 * Pow256(n - 1)
  }

  const TWO248: nat := 0x1_00000000_00000000_00000000_00000000_00000000_00000000_00000000_000000
  const TWO256: nat := 256 * TWO248

  lemma Powers()
    ensures Pow256(1) == 256 && Pow256(4) == 0x1_0000_0000 && Pow256(31) == TWO248 && Pow256(32) == TWO256
  {
    assert Pow256(2) == 0x1_0000;
    assert Pow256(4) == 0x1_0000_0000;
    assert Pow256(6) == 0x1_0000_0000_0000;
    assert Pow256(8) == 0x1_0000_0000_0000_0000;
    assert Pow256(10) == 0x1_0000 * Pow256(8);
    assert Pow256(12) == 0x1_0000 * Pow256(10);
    assert Pow256(14) == 0x1_0000 * Pow256(12);
    assert Pow256(16) == 0x1_0000 * Pow256(14);
    assert Pow256(18) == 0x1_0000 * Pow256(16);
    assert Pow256(20) == 0x1_0000 * Pow256(18);
    assert Pow256(22) == 0x1_0000 * Pow256(20);
    assert Pow256(24) == 0x1_0000 * Pow256(22);
    assert Pow256(26) == 0x1_0000 * Pow256(24);
    assert Pow256(28) == 0x1_0000 * Pow256(26);
    assert Pow256(30) == 0x1_0000 * Pow256(28);
    assert Pow256(32) == 0x1_0000 * Pow256(30);
  }

  // n in k bytes, most significant first; higher bytes are dropped.
  function BigEndian(n: nat, k: nat): (b: Bytes)
    ensures |b| == k && IsBytes(b)
    decreases k
  {
    if k == 0 then [] else BigEndian(n / 256, k - 1) + [n % 256]
  }

  function FromBytes(b: Bytes): nat
    requires IsBytes(b)
  {
    if b == [] then 0 else 256 * FromBytes(b[..|b| - 1]) + b[|b| - 1]
  }

  // As many bytes as the number needs, and at least one.
  function Minimal(n: nat): (b: Bytes)
    ensures |b| >= 1 && IsBytes(b)
  {
    if n < 256 then [n] else Minimal(n / 256) + [n % 256]
  }

  lemma {:induction false} FromBigEndian(n: nat, k: nat)
    requires n < Pow256(k)
    ensures FromBytes(BigEndian(n, k)) == n
    decreases k
  {
    if k > 0 {
      FromBigEndian(n / 256, k - 1);
      assert BigEndian(n, k)[..k - 1] == BigEndian(n / 256, k - 1);
    }
  }

  lemma {:induction false} ToBigEndian(b: Bytes)
    requires IsBytes(b)
    ensures FromBytes(b) < Pow256(|b|)
    ensures BigEndian(FromBytes(b), |b|) == b
    decreases |b|
  {
    if b != [] {
      var high := b[..|b| - 1];
      ToBigEndian(high);
      assert FromBytes(b) / 256 == FromBytes(high);
      assert b == high + [b[|b| - 1]];
    }
  }

  // Most significant byte first.
  lemma FourBytes(n: nat)
    ensures BigEndian(n, 4) == [n / 0x100_0000 % 256, n / 0x1_0000 % 256, n / 0x100 % 256, n % 256]
  {
    Quotients(n);
    BigEndianLast(n, 4);
    BigEndianLast(n / 0x100, 3);
    BigEndianLast(n / 0x100 / 0x100, 2);
    BigEndianLast(n / 0x100 / 0x100 / 0x100, 1);
    hide BigEndian;
  }

  lemma BigEndianLast(n: nat, k: nat)
    requires k > 0
    ensures BigEndian(n, k) == BigEndian(n / 0x100, k - 1) + [n % 0x100] && BigEndian(n, 0) == []
  {
  }

  lemma Quotients(n: nat)
    ensures n / 0x100 / 0x100 == n / 0x1_0000 && n / 0x100 / 0x100 / 0x100 == n / 0x100_0000
  {
  }

  lemma NextByte(b: Bytes, x: int)
    requires IsBytes(b) && 0 <= x < 256
    ensures FromBytes([]) == 0 && FromBytes(b + [x]) == 256 * FromBytes(b) + x
  {
    assert (b + [x])[..|b|] == b;
  }

  lemma BigEndianInjective(m: nat, n: nat, k: nat)
    requires m < Pow256(k) && n < Pow256(k) && BigEndian(m, k) == BigEndian(n, k)
    ensures m == n
  {
    FromBigEndian(m, k);
    FromBigEndian(n, k);
  }

  // The unpadded form has k bytes exactly when the number needs them, and then it is the padded form.
  lemma {:induction false} MinimalLength(n: nat, k: nat)
    requires k >= 1 && n < Pow256(k)
    ensures |Minimal(n)| <= k
    ensures |Minimal(n)| == k <==> k == 1 || n >= Pow256(k - 1)
    ensures |Minimal(n)| == k ==> Minimal(n) == BigEndian(n, k)
    decreases k
  {
    if k > 1 {
      if n < 256 {
        assert Pow256(1) == 256;
        if k > 2 {
          PowGrows(1, k - 1);
        } else {
          assert n < Pow256(k - 1);
        }
      } else {
        MinimalLength(n / 256, k - 1);
      }
    } else {
      assert Pow256(1) == 256 && BigEndian(n, 1) == BigEndian(n / 256, 0) + [n % 256];
    }
  }

  // The unpadded form is the shortest one.
  lemma {:induction false} FromMinimal(n: nat)
    ensures FromBytes(Minimal(n)) == n && (|Minimal(n)| > 1 ==> Minimal(n)[0] != 0)
  {
    var b := Minimal(n);
    if n >= 256 {
      FromMinimal(n / 256);
      assert b[..|b| - 1] == Minimal(n / 256);
    } else {
      assert b[..0] == [];
    }
  }

  lemma {:induction false} PowGrows(a: nat, b: nat)
    requires a <= b
    ensures Pow256(a) <= Pow256(b)
    decreases b
  {
    if a < b {
      PowGrows(a, b - 1);
    }
  }
}
