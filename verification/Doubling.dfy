/**
 Multiplication by two in GF(32): every symbol other than 0 is a power of two.
 */
module Doubling {
  import opened Bits
  import opened Polymod

  lemma DoubleBits(a: Symbol, p: bool, q: bool, r: bool, s: bool, t: bool)
    requires a == [p, q, r, s, t]
    ensures Double(a) == [q, r != p, s, t, p]
  {
  }

  // 2^0 to 2^31, which is 1 again, and the exponents of the numbers from 1 to 31.
  const POWERS: seq<nat> := [
    1, 2, 4, 8, 16, 9, 18, 13, 26, 29, 19, 15, 30, 21, 3, 6,
    12, 24, 25, 27, 31, 23, 7, 14, 28, 17, 11, 22, 5, 10, 20, 1]

  const LOGARITHMS: seq<nat> := [
    0, 0, 1, 14, 2, 28, 15, 22, 3, 5, 29, 26, 16, 7, 23, 11,
    4, 25, 6, 10, 30, 13, 27, 21, 17, 18, 8, 19, 24, 9, 12, 20]

  function Twice(n: nat): nat {
    if n < 16 then 2 * n else if n / 4 % 2 == 0 then 2 * n - 23 else 2 * n - 39
  }

  predicate HasTwiceBits(n: nat, m: nat) {
    && m < 32 && (m % 2 == 1 <==> n >= 16) && m / 2 % 2 == n % 2 && m / 4 % 2 == n / 2 % 2
    && (m / 8 % 2 == 1 <==> (n / 4 % 2 == 1) != (n >= 16)) && m / 16 % 2 == n / 8 % 2
    && (n / 16 % 2 == 1 <==> n >= 16)
  }

  lemma TwiceBits(n: nat)
    requires n < 32
    ensures HasTwiceBits(n, Twice(n))
  {
    if n < 16 {
      assert n in {0, 1, 2, 3, 4, 5, 6, 7, 8, 9, 10, 11, 12, 13, 14, 15};
    } else {
      assert n in {16, 17, 18, 19, 20, 21, 22, 23, 24, 25, 26, 27, 28, 29, 30, 31};
    }
  }

  lemma DoubleSym(n: nat)
    requires n < 32
    ensures Twice(n) < 32 && Double(Sym(n)) == Sym(Twice(n))
  {
    hide ToBits, Twice, Double;
    var m := Twice(n);
    TwiceBits(n);
    SymBits(n, n / 2, n / 4, n / 8, n / 16);
    SymBits(m, m / 2, m / 4, m / 8, m / 16);
    DoubleBits(Sym(n), n / 16 % 2 == 1, n / 8 % 2 == 1, n / 4 % 2 == 1, n / 2 % 2 == 1, n % 2 == 1);
  }

  lemma NextPower0(i: nat)
    requires 0 <= i < 8
    ensures POWERS[i] < 32 && Twice(POWERS[i]) == POWERS[i + 1]
  {
    assert i in {0, 1, 2, 3, 4, 5, 6, 7};
  }

  lemma NextPower1(i: nat)
    requires 8 <= i < 16
    ensures POWERS[i] < 32 && Twice(POWERS[i]) == POWERS[i + 1]
  {
    assert i in {8, 9, 10, 11, 12, 13, 14, 15};
  }

  lemma NextPower2(i: nat)
    requires 16 <= i < 24
    ensures POWERS[i] < 32 && Twice(POWERS[i]) == POWERS[i + 1]
  {
    assert i in {16, 17, 18, 19, 20, 21, 22, 23};
  }

  lemma NextPower3(i: nat)
    requires 24 <= i < 31
    ensures POWERS[i] < 32 && Twice(POWERS[i]) == POWERS[i + 1]
  {
    assert i in {24, 25, 26, 27, 28, 29, 30};
  }

  lemma Logarithm0(n: nat)
    requires 1 <= n < 8
    ensures LOGARITHMS[n] < 31 && POWERS[LOGARITHMS[n]] == n
  {
    assert n in {1, 2, 3, 4, 5, 6, 7};
  }

  lemma Logarithm1(n: nat)
    requires 8 <= n < 16
    ensures LOGARITHMS[n] < 31 && POWERS[LOGARITHMS[n]] == n
  {
    assert n in {8, 9, 10, 11, 12, 13, 14, 15};
  }

  lemma Logarithm2(n: nat)
    requires 16 <= n < 24
    ensures LOGARITHMS[n] < 31 && POWERS[LOGARITHMS[n]] == n
  {
    assert n in {16, 17, 18, 19, 20, 21, 22, 23};
  }

  lemma Logarithm3(n: nat)
    requires 24 <= n < 32
    ensures LOGARITHMS[n] < 31 && POWERS[LOGARITHMS[n]] == n
  {
    assert n in {24, 25, 26, 27, 28, 29, 30, 31};
  }

  lemma {:induction false} DoubledOne(i: nat)
    requires i <= 31
    ensures Doubled(Sym(1), i) == Sym(POWERS[i])
  {
    hide Double, Sym, Twice;
    if i > 0 {
      DoubledOne(i - 1);
      if i <= 8 {
        NextPower0(i - 1);
      } else if i <= 16 {
        NextPower1(i - 1);
      } else if i <= 24 {
        NextPower2(i - 1);
      } else {
        NextPower3(i - 1);
      }
      DoubleSym(POWERS[i - 1]);
    }
  }

  lemma TableSizes()
    ensures |POWERS| == |LOGARITHMS| == 32
  {
  }

  lemma NonzeroIsPower(a: Symbol) returns (i: nat)
    requires a != Zeros(5)
    ensures i < 31 && a == Doubled(Sym(1), i)
  {
    hide Doubled, POWERS, LOGARITHMS, FromBits;
    TableSizes();
    var n := FromBits(a);
    ToFromBits(a);
    Pow2Of5();
    SmallSymbols();
    assert n != 0;
    if n < 8 {
      Logarithm0(n);
    } else if n < 16 {
      Logarithm1(n);
    } else if n < 24 {
      Logarithm2(n);
    } else {
      Logarithm3(n);
    }
    i := LOGARITHMS[n];
    DoubledOne(i);
  }

  lemma PowersRepeat()
    ensures Doubled(Sym(1), 31) == Sym(1)
  {
    hide Doubled;
    DoubledOne(31);
  }
}
