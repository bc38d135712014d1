/**
 Elements of the field with given values: the powers of z, of which z^1025 is the first to be 1, and an
 element that behaves like 2 in the field of the symbols.
 */
module FieldValues {
  import opened Bits
  import opened ExtensionField
  import opened FieldWords

  // zeta^5 is zeta^3 + 1
  const ZETA: Element := [
    true, false, false, true, false, false, false, true, true, false,
    false, false, false, true, false, true, false, false, true, true]

  // The inverses of z^25 + 1 and z^205 + 1.
  const INVERSE25: Element := [
    true, true, false, false, true, true, false, false, false, true,
    true, true, false, true, false, false, false, true, true, false]

  const INVERSE205: Element := [
    true, true, true, false, false, true, false, true, true, false,
    true, true, false, true, false, false, true, true, false, true]

  lemma ZetaWord()
    ensures WordOf(ZETA) == 0x91853
  {
    hide WordOf;
    WordPush([], false);
    var b0: Bitstring := [];
    Digit(b0, 0, true, false, false, true, 0x9);
    var b1: Bitstring := b0 + [true, false, false, true];
    Digit(b1, 0x9, false, false, false, true, 0x91);
    var b2: Bitstring := b1 + [false, false, false, true];
    Digit(b2, 0x91, true, false, false, false, 0x918);
    var b3: Bitstring := b2 + [true, false, false, false];
    Digit(b3, 0x918, false, true, false, true, 0x9185);
    var b4: Bitstring := b3 + [false, true, false, true];
    Digit(b4, 0x9185, false, false, true, true, 0x91853);
    var b5: Bitstring := b4 + [false, false, true, true];
    assert b5 == ZETA;
  }

  lemma Inverse25Word()
    ensures WordOf(INVERSE25) == 0xcc746
  {
    hide WordOf;
    WordPush([], false);
    var b0: Bitstring := [];
    Digit(b0, 0, true, true, false, false, 0xc);
    var b1: Bitstring := b0 + [true, true, false, false];
    Digit(b1, 0xc, true, true, false, false, 0xcc);
    var b2: Bitstring := b1 + [true, true, false, false];
    Digit(b2, 0xcc, false, true, true, true, 0xcc7);
    var b3: Bitstring := b2 + [false, true, true, true];
    Digit(b3, 0xcc7, false, true, false, false, 0xcc74);
    var b4: Bitstring := b3 + [false, true, false, false];
    Digit(b4, 0xcc74, false, true, true, false, 0xcc746);
    var b5: Bitstring := b4 + [false, true, true, false];
    assert b5 == INVERSE25;
  }

  lemma Inverse205Word()
    ensures WordOf(INVERSE205) == 0xe5b4d
  {
    hide WordOf;
    WordPush([], false);
    var b0: Bitstring := [];
    Digit(b0, 0, true, true, true, false, 0xe);
    var b1: Bitstring := b0 + [true, true, true, false];
    Digit(b1, 0xe, false, true, false, true, 0xe5);
    var b2: Bitstring := b1 + [false, true, false, true];
    Digit(b2, 0xe5, true, false, true, true, 0xe5b);
    var b3: Bitstring := b2 + [true, false, true, true];
    Digit(b3, 0xe5b, false, true, false, false, 0xe5b4);
    var b4: Bitstring := b3 + [false, true, false, false];
    Digit(b4, 0xe5b4, true, true, false, true, 0xe5b4d);
    var b5: Bitstring := b4 + [true, true, false, true];
    assert b5 == INVERSE205;
  }

  lemma Product(v: Element, w: Element, v': bv20, w': bv20, vw: bv20)
    requires WordOf(v) == v' && WordOf(w) == w' && MulWord(v', w') == vw
    ensures WordOf(Mul(v, w)) == vw
  {
    hide WordOf, MulWord, Mul;
    MulIsWord(v, w);
  }

  lemma Sum(v: Element, w: Element)
    ensures WordOf(Xor(v, w)) == Both(WordOf(v), WordOf(w))
  {
    hide WordOf, Both, Xor;
    WordXor(v, w);
  }

  // ---------------------------------------------------------------- zeta

  function Zeta(n: nat): Element {
    if n == 0 then UNIT else Mul(ZETA, Zeta(n - 1))
  }

  lemma ZetaWords()
    ensures WordOf(Zeta(0)) == 1 && WordOf(Zeta(1)) == 0x91853 && WordOf(Zeta(2)) == 0x28f42
    ensures WordOf(Zeta(3)) == 0xc6cf3 && WordOf(Zeta(4)) == 0xcd094 && WordOf(Zeta(5)) == 0xc6cf2
  {
    hide WordOf, Mul, ZETA, MulWord;
    ZetaWord();
    NothingWord();
    ZetaProducts();
    Product(ZETA, Zeta(0), 0x91853, 1, 0x91853);
    Product(ZETA, Zeta(1), 0x91853, 0x91853, 0x28f42);
    Product(ZETA, Zeta(2), 0x91853, 0x28f42, 0xc6cf3);
    Product(ZETA, Zeta(3), 0x91853, 0xc6cf3, 0xcd094);
    Product(ZETA, Zeta(4), 0x91853, 0xcd094, 0xc6cf2);
  }

  lemma ZetaProducts()
    ensures MulWord(0x91853, 1) == 0x91853 && MulWord(0x91853, 0x91853) == 0x28f42
    ensures MulWord(0x91853, 0x28f42) == 0xc6cf3
    ensures MulWord(0x91853, 0xc6cf3) == 0xcd094
    ensures MulWord(0x91853, 0xcd094) == 0xc6cf2
  {
  }

  lemma ZetaFive()
    ensures Zeta(5) == Xor(Zeta(3), UNIT)
  {
    hide WordOf, Zeta, Xor;
    ZetaWords();
    NothingWord();
    Sum(Zeta(3), UNIT);
    FiveIsThree();
    WordInjective(Zeta(5), Xor(Zeta(3), UNIT));
  }

  lemma FiveIsThree()
    ensures Both(0xc6cf3, 1) == 0xc6cf2
  {
  }

  // ---------------------------------------------------------------- powers of z

  function Z(n: nat): Element {
    Shifts(UNIT, n)
  }

  lemma MulZ(n: nat, w: Element)
    ensures Mul(Z(n), w) == Shifts(w, n) == Mul(w, Z(n))
  {
    hide Act, Shifts;
    MulCommutes(Z(n), w);
    ActShifts(w, UNIT, n);
    UnitLaws(w);
  }

  lemma {:induction false} ShiftsSum(w: Element, m: nat, n: nat)
    ensures Shifts(w, m + n) == Shifts(Shifts(w, n), m)
    decreases m
  {
    hide TimesZ;
    if m > 0 {
      ShiftsSum(w, m - 1, n);
    }
  }

  lemma ZSum(m: nat, n: nat)
    ensures Z(m + n) == Mul(Z(m), Z(n))
  {
    hide Shifts, Act;
    MulZ(m, Z(n));
    ShiftsSum(UNIT, m, n);
  }

  lemma ZWord(m: nat, n: nat, v: bv20, w: bv20, vw: bv20)
    requires WordOf(Z(m)) == v && WordOf(Z(n)) == w && MulWord(v, w) == vw
    ensures WordOf(Z(m + n)) == vw
  {
    hide WordOf, MulWord, Mul, Z;
    ZSum(m, n);
    Product(Z(m), Z(n), v, w, vw);
  }

  lemma ZOne()
    ensures WordOf(Z(1)) == 2
  {
    hide WordOf, TimesZ;
    assert Z(0) == UNIT;
    TimesZIsWord(UNIT);
    NothingWord();
    Two();
  }

  lemma Two()
    ensures TimesZWord(1) == 2
  {
  }

  lemma Powers8()
    ensures WordOf(Z(2)) == 0x00004
    ensures WordOf(Z(4)) == 0x00010
    ensures WordOf(Z(8)) == 0x00100
  {
    hide WordOf, Z;
    ZOne();
    ZWord(1, 1, 0x00002, 0x00002, 0x00004);
    ZWord(2, 2, 0x00004, 0x00004, 0x00010);
    ZWord(4, 4, 0x00010, 0x00010, 0x00100);
  }

  lemma Powers64()
    ensures WordOf(Z(16)) == 0x10000
    ensures WordOf(Z(32)) == 0x3d35f
    ensures WordOf(Z(64)) == 0x12bc7
  {
    hide WordOf, Z;
    ZOne();
    Powers8();
    ZWord(8, 8, 0x00100, 0x00100, 0x10000);
    ZWord(16, 16, 0x10000, 0x10000, 0x3d35f);
    ZWord(32, 32, 0x3d35f, 0x3d35f, 0x12bc7);
  }

  lemma Powers512()
    ensures WordOf(Z(128)) == 0x7fc66
    ensures WordOf(Z(256)) == 0xcb9c8
    ensures WordOf(Z(512)) == 0xe07fa
  {
    hide WordOf, Z;
    ZOne();
    Powers64();
    ZWord(64, 64, 0x12bc7, 0x12bc7, 0x7fc66);
    ZWord(128, 128, 0x7fc66, 0x7fc66, 0xcb9c8);
    ZWord(256, 256, 0xcb9c8, 0xcb9c8, 0xe07fa);
  }

  lemma Powers1025()
    ensures WordOf(Z(1024)) == 0x93764
    ensures WordOf(Z(1025)) == 0x00001
  {
    hide WordOf, Z;
    ZOne();
    Powers512();
    ZWord(512, 512, 0xe07fa, 0xe07fa, 0x93764);
    ZWord(1024, 1, 0x93764, 0x00002, 0x00001);
  }

  lemma Powers30()
    ensures WordOf(Z(24)) == 0x23102
    ensures WordOf(Z(25)) == 0x46204
    ensures WordOf(Z(28)) == 0x7cdb2
    ensures WordOf(Z(30)) == 0xd5801
  {
    hide WordOf, Z;
    ZOne();
    Powers8();
    Powers64();
    ZWord(16, 8, 0x10000, 0x00100, 0x23102);
    ZWord(24, 1, 0x23102, 0x00002, 0x46204);
    ZWord(24, 4, 0x23102, 0x00010, 0x7cdb2);
    ZWord(28, 2, 0x7cdb2, 0x00004, 0xd5801);
  }

  lemma Powers205()
    ensures WordOf(Z(192)) == 0x6233c
    ensures WordOf(Z(200)) == 0xb479e
    ensures WordOf(Z(204)) == 0x3d23a
    ensures WordOf(Z(205)) == 0x7a474
  {
    hide WordOf, Z;
    ZOne();
    Powers8();
    Powers64();
    Powers512();
    ZWord(128, 64, 0x7fc66, 0x12bc7, 0x6233c);
    ZWord(192, 8, 0x6233c, 0x00100, 0xb479e);
    ZWord(200, 4, 0xb479e, 0x00010, 0x3d23a);
    ZWord(204, 1, 0x3d23a, 0x00002, 0x7a474);
  }

  lemma Period()
    ensures Z(1025) == UNIT
  {
    hide WordOf, Z;
    Powers1025();
    NothingWord();
    WordInjective(Z(1025), UNIT);
  }

  lemma Units()
    ensures Mul(INVERSE25, Xor(Z(25), UNIT)) == UNIT && Mul(INVERSE205, Xor(Z(205), UNIT)) == UNIT
  {
    hide WordOf, Z, Mul, MulWord, Xor, Both;
    Powers30();
    Powers205();
    NothingWord();
    Sum(Z(25), UNIT);
    Sum(Z(205), UNIT);
    Inverse25Word();
    Inverse205Word();
    UnitProducts();
    Product(INVERSE25, Xor(Z(25), UNIT), 0xcc746, 0x46205, 1);
    Product(INVERSE205, Xor(Z(205), UNIT), 0xe5b4d, 0x7a475, 1);
    WordInjective(Mul(INVERSE25, Xor(Z(25), UNIT)), UNIT);
    WordInjective(Mul(INVERSE205, Xor(Z(205), UNIT)), UNIT);
  }

  lemma UnitProducts()
    ensures Both(0x46204, 1) == 0x46205 && Both(0x7a474, 1) == 0x7a475
    ensures MulWord(0xcc746, 0x46205) == 1
    ensures MulWord(0xe5b4d, 0x7a475) == 1
  {
  }
}
