/**
 The roots of the generator: z^k for k = 1, 32, 1024 = -1, 993 = -32 and 30, 960 = -65, 995 = -30, 65.
 */
module CodeRoots {
  import opened Bits
  import opened Polymod
  import opened Doubling
  import opened ExtensionField
  import opened FieldWords
  import opened FieldValues
  import opened SymbolField
  import opened Evaluation

  // ---------------------------------------------------------------- the 32nd power

  function Square(w: Element): Element {
    Mul(w, w)
  }

  function Power32(w: Element): Element {
    Square(Square(Square(Square(Square(w)))))
  }

  lemma SquareAdds(v: Element, w: Element)
    ensures Square(Xor(v, w)) == Xor(Square(v), Square(w)) && Square(NOTHING) == NOTHING
  {
    hide Xor, Mul;
    var vw := Mul(v, w);
    MulAdds(Xor(v, w), v, w);
    MulAdds(v, v, w);
    MulAdds(w, v, w);
    MulCommutes(v, w);
    MulCommutes(Xor(v, w), v);
    MulCommutes(Xor(v, w), w);
    AddLaws(Square(v), vw, Xor(vw, Square(w)));
    AddLaws(vw, vw, Square(w));
    AddLaws(Square(w), NOTHING, NOTHING);
    MulAdds(NOTHING, NOTHING, NOTHING);
  }

  lemma SquareMul(v: Element, w: Element)
    ensures Square(Mul(v, w)) == Mul(Square(v), Square(w))
  {
    hide Mul;
    MulAssociates(v, w, Mul(v, w));
    MulAssociates(w, v, w);
    MulCommutes(v, w);
    MulAssociates(v, w, w);
    MulAssociates(v, v, Square(w));
  }

  lemma Power32Adds(v: Element, w: Element)
    ensures Power32(Xor(v, w)) == Xor(Power32(v), Power32(w)) && Power32(NOTHING) == NOTHING
  {
    hide Xor, Square;
    SquareAdds(v, w);
    var v1, w1 := Square(v), Square(w);
    SquareAdds(v1, w1);
    var v2, w2 := Square(v1), Square(w1);
    SquareAdds(v2, w2);
    var v3, w3 := Square(v2), Square(w2);
    SquareAdds(v3, w3);
    SquareAdds(Square(v3), Square(w3));
  }

  lemma Power32Mul(v: Element, w: Element)
    ensures Power32(Mul(v, w)) == Mul(Power32(v), Power32(w))
  {
    hide Mul, Square;
    SquareMul(v, w);
    var v1, w1 := Square(v), Square(w);
    SquareMul(v1, w1);
    var v2, w2 := Square(v1), Square(w1);
    SquareMul(v2, w2);
    var v3, w3 := Square(v2), Square(w2);
    SquareMul(v3, w3);
    SquareMul(Square(v3), Square(w3));
  }

  lemma Power32Zeta()
    ensures Power32(ZETA) == ZETA && Power32(UNIT) == UNIT
  {
    hide Mul, Zeta;
    UnitLaws(UNIT);
    UnitLaws(ZETA);
    ZetaOnce();
    ZetaSum(1, 1);
    ZetaSum(2, 2);
    ZetaSum(4, 4);
    ZetaSum(8, 8);
    ZetaSum(16, 16);
    ZetaSum(1, 31);
    ZetaPeriod();
  }

  lemma ZetaOnce()
    ensures Zeta(1) == ZETA
  {
    hide Mul;
    assert Zeta(1) == Mul(ZETA, Zeta(0));
    UnitLaws(ZETA);
  }

  lemma {:induction false} Power32ZetaPower(n: nat)
    ensures Power32(Zeta(n)) == Zeta(n)
  {
    hide Mul, Power32;
    Power32Zeta();
    if n > 0 {
      Power32ZetaPower(n - 1);
      Power32Mul(ZETA, Zeta(n - 1));
    }
  }

  // The symbols stay as they are.
  lemma Power32Embed(a: Symbol)
    ensures Power32(Embed(a)) == Embed(a)
  {
    hide Mul, Power32, Embed, Zeta, Doubled, ToBits, Xor;
    if a == Bits.Zeros(5) {
      EmbedZeros();
      Power32Adds(NOTHING, NOTHING);
    } else {
      var i := NonzeroIsPower(a);
      EmbedSmall();
      EmbedDoubled(Sym(1), i);
      UnitLaws(Zeta(i));
      Power32ZetaPower(i);
    }
  }

  lemma Power32Z(n: nat)
    ensures Power32(Z(n)) == Z(32 * n)
  {
    hide Mul, Z;
    ZSum(n, n);
    ZSum(2 * n, 2 * n);
    ZSum(4 * n, 4 * n);
    ZSum(8 * n, 8 * n);
    ZSum(16 * n, 16 * n);
  }

  lemma Power32Shifts(w: Element, n: nat)
    ensures Power32(Shifts(w, n)) == Shifts(Power32(w), 32 * n)
  {
    hide Mul, Z, Power32, Shifts;
    MulZ(n, w);
    Power32Mul(Z(n), w);
    Power32Z(n);
    MulZ(32 * n, Power32(w));
  }

  lemma {:induction false} Power32Value(k: nat, a: seq<Symbol>)
    ensures Power32(Value(k, Embedded(a))) == Value(32 * k, Embedded(a))
    decreases |a|
  {
    hide Power32, Shifts, Embed, Xor;
    Power32Adds(NOTHING, NOTHING);
    if a != [] {
      var e := k * (|a| - 1);
      assert Embedded(a)[1..] == Embedded(a[1..]);
      Power32Value(k, a[1..]);
      Power32Adds(Shifts(Embed(a[0]), e), Value(k, Embedded(a[1..])));
      Power32Shifts(Embed(a[0]), e);
      Power32Embed(a[0]);
      assert 32 * k * (|a| - 1) == 32 * e;
    }
  }

  lemma NextRoot(k: nat, m: nat)
    requires IsRoot(k) && m % 1025 == 32 * k % 1025
    ensures IsRoot(m)
  {
    hide Power32, Shifts, Embedded, Value;
    Power32Value(k, GENERATOR);
    Power32Shifts(UNIT, k * 8);
    Power32Zeta();
    ValueModulo(m, 32 * k, Embedded(GENERATOR));
    ProductModulo(m, 32 * k, 8);
    assert 32 * k * 8 == 32 * (k * 8);
    ShiftsModulo(UNIT, m * 8, 32 * (k * 8));
  }

  // ---------------------------------------------------------------- two roots by calculation

  lemma SymbolWord(a: Symbol, p: bool, q: bool, r: bool, s: bool, t: bool, w: bv20)
    requires a == [p, q, r, s, t]
    requires Both(Both(Both(Both(If(t, 1), If(s, 0x91853)), If(r, 0x28f42)), If(q, 0xc6cf3)), If(p, 0xcd094)) == w
    ensures WordOf(Embed(a)) == w
  {
    hide WordOf, Zeta, Embed, Xor, Chosen, Both, If;
    ZetaWords();
    EmbedFive(a);
    var c0, c1, c2 := Chosen(t, Zeta(0)), Chosen(s, Zeta(1)), Chosen(r, Zeta(2));
    var c3, c4 := Chosen(q, Zeta(3)), Chosen(p, Zeta(4));
    ChosenIsWord(t, Zeta(0));
    ChosenIsWord(s, Zeta(1));
    ChosenIsWord(r, Zeta(2));
    ChosenIsWord(q, Zeta(3));
    ChosenIsWord(p, Zeta(4));
    FieldValues.Sum(c0, c1);
    FieldValues.Sum(Xor(c0, c1), c2);
    FieldValues.Sum(Xor(Xor(c0, c1), c2), c3);
    FieldValues.Sum(Xor(Xor(Xor(c0, c1), c2), c3), c4);
  }

  lemma GeneratorSums()
    ensures Both(Both(Both(Both(If(true, 1), If(true, 0x91853)), If(false, 0x28f42)), If(false, 0xc6cf3)),
                 If(true, 0xcd094)) == 0x5c8c6
    ensures Both(Both(Both(Both(If(true, 1), If(true, 0x91853)), If(false, 0x28f42)), If(false, 0xc6cf3)),
                 If(false, 0xcd094)) == 0x91852
    ensures Both(Both(Both(Both(If(true, 1), If(false, 0x91853)), If(false, 0x28f42)), If(true, 0xc6cf3)),
                 If(true, 0xcd094)) == 0x0bc66
    ensures Both(Both(Both(Both(If(true, 1), If(true, 0x91853)), If(false, 0x28f42)), If(true, 0xc6cf3)),
                 If(false, 0xcd094)) == 0x574a1
  {
  }

  lemma GeneratorWords()
    ensures WordOf(Embed(Sym(19))) == 0x5c8c6 && WordOf(Embed(Sym(3))) == 0x91852
    ensures WordOf(Embed(Sym(25))) == 0x0bc66 && WordOf(Embed(Sym(11))) == 0x574a1
    ensures WordOf(Embed(Sym(1))) == 1
  {
    hide WordOf, Embed, ToBits, Both, If;
    GeneratorSums();
    SymBits(19, 9, 4, 2, 1);
    SymBits(3, 1, 0, 0, 0);
    SymBits(25, 12, 6, 3, 1);
    SymBits(11, 5, 2, 1, 0);
    SymbolWord(Sym(19), true, false, false, true, true, 0x5c8c6);
    SymbolWord(Sym(3), false, false, false, true, true, 0x91852);
    SymbolWord(Sym(25), true, true, false, false, true, 0x0bc66);
    SymbolWord(Sym(11), false, true, false, true, true, 0x574a1);
    EmbedSmall();
    NothingWord();
  }

  // Horner's rule in words.
  lemma NextCoefficient(k: nat, a: seq<Symbol>, c: Symbol, x: bv20, v: bv20, w: bv20, v': bv20)
    requires WordOf(Z(k)) == x && WordOf(Value(k, Embedded(a))) == v && WordOf(Embed(c)) == w
    requires Both(MulWord(x, v), w) == v'
    ensures WordOf(Value(k, Embedded(a + [c]))) == v'
  {
    hide WordOf, MulWord, Both, Embed, Shifts, Value, Embedded, Xor, Mul, Z;
    EmbeddedConcat(a, [c]);
    EmbeddedOne(c);
    ValueConcat(k, Embedded(a), [Embed(c)]);
    ValueOne(k, Embed(c));
    MulZ(k, Value(k, Embedded(a)));
    Product(Z(k), Value(k, Embedded(a)), x, v, MulWord(x, v));
    FieldValues.Sum(Shifts(Value(k, Embedded(a)), k), Embed(c));
    assert k * 1 == k;
  }

  lemma NoValue(k: nat)
    ensures Value(k, Embedded([])) == NOTHING
  {
  }

  lemma IsShifts(n: nat)
    ensures Z(n) == Shifts(UNIT, n)
  {
  }

  lemma Power240()
    ensures WordOf(Z(240)) == 0x7cf9c
  {
    hide WordOf, Z, MulWord;
    Powers64();
    Powers205();
    Products240();
    ZWord(192, 32, 0x6233c, 0x3d35f, 0x28257);
    ZWord(224, 16, 0x28257, 0x10000, 0x7cf9c);
  }

  lemma Products240()
    ensures MulWord(0x6233c, 0x3d35f) == 0x28257 && MulWord(0x28257, 0x10000) == 0x7cf9c
  {
  }

  lemma Horner1A()
    ensures Both(MulWord(0x00002, 0x00000), 0x5c8c6) == 0x5c8c6
    ensures Both(MulWord(0x00002, 0x5c8c6), 0x91852) == 0x289de
  {
  }

  lemma Horner1B()
    ensures Both(MulWord(0x00002, 0x289de), 0x0bc66) == 0x5afda
    ensures Both(MulWord(0x00002, 0x5afda), 0x574a1) == 0xe2b15
  {
  }

  lemma Horner1C()
    ensures Both(MulWord(0x00002, 0xe2b15), 0x0bc66) == 0xe8485
    ensures Both(MulWord(0x00002, 0xe8485), 0x91852) == 0x67f91
  {
  }

  lemma Horner1D()
    ensures Both(MulWord(0x00002, 0x67f91), 0x5c8c6) == 0x937e4
    ensures Both(MulWord(0x00002, 0x937e4), 0x00001) == 0x00100
  {
  }

  lemma Root1()
    ensures IsRoot(1)
  {
    hide WordOf, Z, Shifts, Embed, Embedded, Value, MulWord, Both, ToBits;
    ZOne();
    Powers8();
    GeneratorWords();
    NothingWord();
    Horner1A();
    Horner1B();
    Horner1C();
    Horner1D();
    var a0: seq<Symbol> := [];
    NoValue(1);
    NextCoefficient(1, a0, Sym(19), 0x00002, 0x00000, 0x5c8c6, 0x5c8c6);
    var a1 := a0 + [Sym(19)];
    NextCoefficient(1, a1, Sym(3), 0x00002, 0x5c8c6, 0x91852, 0x289de);
    var a2 := a1 + [Sym(3)];
    NextCoefficient(1, a2, Sym(25), 0x00002, 0x289de, 0x0bc66, 0x5afda);
    var a3 := a2 + [Sym(25)];
    NextCoefficient(1, a3, Sym(11), 0x00002, 0x5afda, 0x574a1, 0xe2b15);
    var a4 := a3 + [Sym(11)];
    NextCoefficient(1, a4, Sym(25), 0x00002, 0xe2b15, 0x0bc66, 0xe8485);
    var a5 := a4 + [Sym(25)];
    NextCoefficient(1, a5, Sym(3), 0x00002, 0xe8485, 0x91852, 0x67f91);
    var a6 := a5 + [Sym(3)];
    NextCoefficient(1, a6, Sym(19), 0x00002, 0x67f91, 0x5c8c6, 0x937e4);
    var a7 := a6 + [Sym(19)];
    NextCoefficient(1, a7, Sym(1), 0x00002, 0x937e4, 0x00001, 0x00100);
    var a8 := a7 + [Sym(1)];
    assert a8 == GENERATOR;
    IsShifts(8);
    WordInjective(Z(8), Value(1, Embedded(GENERATOR)));
  }

  lemma Horner30A()
    ensures Both(MulWord(0xd5801, 0x00000), 0x5c8c6) == 0x5c8c6
    ensures Both(MulWord(0xd5801, 0x5c8c6), 0x91852) == 0xbb707
  {
  }

  lemma Horner30B()
    ensures Both(MulWord(0xd5801, 0xbb707), 0x0bc66) == 0xb83d7
    ensures Both(MulWord(0xd5801, 0xb83d7), 0x574a1) == 0x897ee
  {
  }

  lemma Horner30C()
    ensures Both(MulWord(0xd5801, 0x897ee), 0x0bc66) == 0x82a03
    ensures Both(MulWord(0xd5801, 0x82a03), 0x91852) == 0xee1fb
  {
  }

  lemma Horner30D()
    ensures Both(MulWord(0xd5801, 0xee1fb), 0x5c8c6) == 0x8ee97
    ensures Both(MulWord(0xd5801, 0x8ee97), 0x00001) == 0x7cf9c
  {
  }

  lemma Root30()
    ensures IsRoot(30)
  {
    hide WordOf, Z, Shifts, Embed, Embedded, Value, MulWord, Both, ToBits;
    Powers30();
    Power240();
    GeneratorWords();
    NothingWord();
    Horner30A();
    Horner30B();
    Horner30C();
    Horner30D();
    var a0: seq<Symbol> := [];
    NoValue(30);
    NextCoefficient(30, a0, Sym(19), 0xd5801, 0x00000, 0x5c8c6, 0x5c8c6);
    var a1 := a0 + [Sym(19)];
    NextCoefficient(30, a1, Sym(3), 0xd5801, 0x5c8c6, 0x91852, 0xbb707);
    var a2 := a1 + [Sym(3)];
    NextCoefficient(30, a2, Sym(25), 0xd5801, 0xbb707, 0x0bc66, 0xb83d7);
    var a3 := a2 + [Sym(25)];
    NextCoefficient(30, a3, Sym(11), 0xd5801, 0xb83d7, 0x574a1, 0x897ee);
    var a4 := a3 + [Sym(11)];
    NextCoefficient(30, a4, Sym(25), 0xd5801, 0x897ee, 0x0bc66, 0x82a03);
    var a5 := a4 + [Sym(25)];
    NextCoefficient(30, a5, Sym(3), 0xd5801, 0x82a03, 0x91852, 0xee1fb);
    var a6 := a5 + [Sym(3)];
    NextCoefficient(30, a6, Sym(19), 0xd5801, 0xee1fb, 0x5c8c6, 0x8ee97);
    var a7 := a6 + [Sym(19)];
    NextCoefficient(30, a7, Sym(1), 0xd5801, 0x8ee97, 0x00001, 0x7cf9c);
    var a8 := a7 + [Sym(1)];
    assert a8 == GENERATOR;
    IsShifts(240);
    WordInjective(Z(240), Value(30, Embedded(GENERATOR)));
  }

  lemma Roots()
    ensures IsRoot(1) && IsRoot(32) && IsRoot(1024) && IsRoot(993)
    ensures IsRoot(30) && IsRoot(960) && IsRoot(995) && IsRoot(65)
  {
    hide IsRoot;
    Root1();
    Root30();
    NextRoot(1, 32);
    NextRoot(32, 1024);
    NextRoot(1024, 993);
    NextRoot(30, 960);
    NextRoot(960, 995);
    NextRoot(995, 65);
  }
}
