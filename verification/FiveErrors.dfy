/**
 Four is the most: within 150 symbols five wrong ones can escape.
 */
module FiveErrors {
  import opened Bits
  import opened Polymod
  import opened ExtensionField
  import opened FieldWords
  import opened FieldValues
  import opened SymbolField
  import opened Evaluation
  import opened CodeRoots
  import opened Codewords
  import opened WrongSymbols

  const FIVE: seq<Symbol> :=
    [Sym(14)] + BCH.Zeros(7) + [Sym(14)] + BCH.Zeros(30) + [Sym(27)] + BCH.Zeros(9) + [Sym(3)] + BCH.Zeros(99) +
    [Sym(1)]

  // ---------------------------------------------------------------- words

  lemma FiveSums()
    ensures Both(Both(Both(Both(If(false, 1), If(true, 0x91853)), If(true, 0x28f42)), If(true, 0xc6cf3)),
                 If(false, 0xcd094)) == 0x7fbe2
    ensures Both(Both(Both(Both(If(true, 1), If(true, 0x91853)), If(false, 0x28f42)), If(true, 0xc6cf3)),
                 If(true, 0xcd094)) == 0x9a435
  {
  }

  lemma FiveWords()
    ensures WordOf(Embed(Sym(14))) == 0x7fbe2 && WordOf(Embed(Sym(27))) == 0x9a435
    ensures WordOf(Embed(Sym(3))) == 0x91852 && WordOf(Embed(Sym(1))) == 1
  {
    hide WordOf, Embed, ToBits, Both, If;
    GeneratorWords();
    FiveSums();
    SymBits(14, 7, 3, 1, 0);
    SymBits(27, 13, 6, 3, 1);
    SymbolWord(Sym(14), false, true, true, true, false, 0x7fbe2);
    SymbolWord(Sym(27), true, true, false, true, true, 0x9a435);
  }

  lemma Powers100()
    ensures WordOf(Z(31)) == 0x8decb
    ensures WordOf(Z(10)) == 0x00400
    ensures WordOf(Z(96)) == 0x58580
    ensures WordOf(Z(100)) == 0x38ded
  {
    hide WordOf, Z, MulWord;
    ZOne();
    Powers8();
    Powers64();
    Powers30();
    Powers100ProductsA();
    Powers100ProductsB();
    ZWord(30, 1, 0xd5801, 0x00002, 0x8decb);
    ZWord(8, 2, 0x00100, 0x00004, 0x00400);
    ZWord(64, 32, 0x12bc7, 0x3d35f, 0x58580);
    ZWord(96, 4, 0x58580, 0x00010, 0x38ded);
  }

  lemma Powers100ProductsA()
    ensures MulWord(0xd5801, 0x00002) == 0x8decb
    ensures MulWord(0x00100, 0x00004) == 0x00400
  {
  }

  lemma Powers100ProductsB()
    ensures MulWord(0x12bc7, 0x3d35f) == 0x58580
    ensures MulWord(0x58580, 0x00010) == 0x38ded
  {
  }

  lemma Powers600()
    ensures WordOf(Z(60)) == 0xed55f
    ensures WordOf(Z(300)) == 0x140ca
    ensures WordOf(Z(600)) == 0x44ea9
  {
    hide WordOf, Z, MulWord;
    Powers30();
    Power240();
    Powers600Products();
    ZWord(30, 30, 0xd5801, 0xd5801, 0xed55f);
    ZWord(240, 60, 0x7cf9c, 0xed55f, 0x140ca);
    ZWord(300, 300, 0x140ca, 0x140ca, 0x44ea9);
  }

  lemma Powers600Products()
    ensures MulWord(0xd5801, 0xd5801) == 0xed55f
    ensures MulWord(0x7cf9c, 0xed55f) == 0x140ca
    ensures MulWord(0x140ca, 0x140ca) == 0x44ea9
  {
  }

  lemma Powers3000()
    ensures WordOf(Z(900)) == 0x67356
    ensures WordOf(Z(930)) == 0xeb601
    ensures WordOf(Z(20)) == 0x26ec9
    ensures WordOf(Z(950)) == 0x06868
  {
    hide WordOf, Z, MulWord;
    Powers8();
    Powers64();
    Powers30();
    Powers600();
    Powers3000ProductsA();
    Powers3000ProductsB();
    ZWord(600, 300, 0x44ea9, 0x140ca, 0x67356);
    ZWord(900, 30, 0x67356, 0xd5801, 0xeb601);
    ZWord(16, 4, 0x10000, 0x00010, 0x26ec9);
    ZWord(930, 20, 0xeb601, 0x26ec9, 0x06868);
  }

  lemma Powers3000ProductsA()
    ensures MulWord(0x44ea9, 0x140ca) == 0x67356
    ensures MulWord(0x67356, 0xd5801) == 0xeb601
  {
  }

  lemma Powers3000ProductsB()
    ensures MulWord(0x10000, 0x00010) == 0x26ec9
    ensures MulWord(0xeb601, 0x26ec9) == 0x06868
  {
  }

  lemma Power3000()
    ensures WordOf(Z(3000)) == WordOf(Z(950))
  {
    hide WordOf, Shifts;
    ShiftsModulo(UNIT, 3000, 950);
  }

  // Horner's rule over a gap of zeros.
  lemma NextSymbol(k: nat, a: seq<Symbol>, n: nat, c: Symbol, x: bv20, v: bv20, w: bv20, v': bv20)
    requires k * (n + 1) >= 0
    requires WordOf(Z(k * (n + 1))) == x && WordOf(Value(k, Embedded(a))) == v && WordOf(Embed(c)) == w
    requires Both(MulWord(x, v), w) == v'
    ensures WordOf(Value(k, Embedded(a + BCH.Zeros(n) + [c]))) == v'
  {
    hide WordOf, MulWord, Both, Embed, Shifts, Value, Embedded, Xor, Mul, Z, BCH.Zeros;
    var u, zeros := Value(k, Embedded(a)), BCH.Zeros(n);
    EmbeddedConcat(a + zeros, [c]);
    EmbeddedConcat(a, zeros);
    EmbeddedOne(c);
    ValueConcat(k, Embedded(a), Embedded(zeros));
    ZerosValue(k, n);
    AddLaws(Shifts(u, k * n), NOTHING, NOTHING);
    ValueLast(k, Embedded(a) + Embedded(zeros), Embed(c));
    ShiftsSum(u, k, k * n);
    assert k + k * n == k * (n + 1);
    MulZ(k * (n + 1), u);
    Product(Z(k * (n + 1)), u, x, v, MulWord(x, v));
    FieldValues.Sum(Shifts(u, k * (n + 1)), Embed(c));
  }

  lemma FirstValue(k: nat, c: Symbol)
    ensures Value(k, Embedded([c])) == Embed(c)
  {
    hide Value, Embed;
    EmbeddedOne(c);
    ValueOne(k, Embed(c));
  }

  // ---------------------------------------------------------------- the two values

  lemma Five1A()
    ensures Both(MulWord(0x00100, 0x7fbe2), 0x7fbe2) == 0xc9e12
    ensures Both(MulWord(0x8decb, 0xc9e12), 0x9a435) == 0xdfd6d
  {
  }

  lemma Five1B()
    ensures Both(MulWord(0x00400, 0xdfd6d), 0x91852) == 0x47d74
    ensures Both(MulWord(0x38ded, 0x47d74), 0x00001) == 0x00000
  {
  }

  lemma FiveAt1()
    ensures Value(1, Embedded(FIVE)) == NOTHING
  {
    hide WordOf, Z, Embed, Embedded, Value, MulWord, Both, ToBits, BCH.Zeros;
    Powers8();
    Powers100();
    FiveWords();
    NothingWord();
    Five1A();
    Five1B();
    var a0 := [Sym(14)];
    FirstValue(1, Sym(14));
    NextSymbol(1, a0, 7, Sym(14), 0x00100, 0x7fbe2, 0x7fbe2, 0xc9e12);
    var a1 := a0 + BCH.Zeros(7) + [Sym(14)];
    NextSymbol(1, a1, 30, Sym(27), 0x8decb, 0xc9e12, 0x9a435, 0xdfd6d);
    var a2 := a1 + BCH.Zeros(30) + [Sym(27)];
    NextSymbol(1, a2, 9, Sym(3), 0x00400, 0xdfd6d, 0x91852, 0x47d74);
    var a3 := a2 + BCH.Zeros(9) + [Sym(3)];
    NextSymbol(1, a3, 99, Sym(1), 0x38ded, 0x47d74, 0x00001, 0x00000);
    var a4 := a3 + BCH.Zeros(99) + [Sym(1)];
    WordInjective(Value(1, Embedded(FIVE)), NOTHING);
  }

  lemma Five30A()
    ensures Both(MulWord(0x7cf9c, 0x7fbe2), 0x7fbe2) == 0xf229c
    ensures Both(MulWord(0xeb601, 0xf229c), 0x9a435) == 0x53ec1
  {
  }

  lemma Five30B()
    ensures Both(MulWord(0x140ca, 0x53ec1), 0x91852) == 0x43a36
    ensures Both(MulWord(0x06868, 0x43a36), 0x00001) == 0x00000
  {
  }

  lemma FiveAt30()
    ensures Value(30, Embedded(FIVE)) == NOTHING
  {
    hide WordOf, Z, Embed, Embedded, Value, MulWord, Both, ToBits, BCH.Zeros;
    Power240();
    Powers600();
    Powers3000();
    Power3000();
    FiveWords();
    NothingWord();
    Five30A();
    Five30B();
    var a0 := [Sym(14)];
    FirstValue(30, Sym(14));
    NextSymbol(30, a0, 7, Sym(14), 0x7cf9c, 0x7fbe2, 0x7fbe2, 0xf229c);
    var a1 := a0 + BCH.Zeros(7) + [Sym(14)];
    NextSymbol(30, a1, 30, Sym(27), 0xeb601, 0xf229c, 0x9a435, 0x53ec1);
    var a2 := a1 + BCH.Zeros(30) + [Sym(27)];
    NextSymbol(30, a2, 9, Sym(3), 0x140ca, 0x53ec1, 0x91852, 0x43a36);
    var a3 := a2 + BCH.Zeros(9) + [Sym(3)];
    NextSymbol(30, a3, 99, Sym(1), 0x06868, 0x43a36, 0x00001, 0x00000);
    var a4 := a3 + BCH.Zeros(99) + [Sym(1)];
    WordInjective(Value(30, Embedded(FIVE)), NOTHING);
  }

  // ---------------------------------------------------------------- five wrong symbols

  lemma NextZero(k: nat, m: nat, a: seq<Symbol>)
    requires Value(k, Embedded(a)) == NOTHING && m % 1025 == 32 * k % 1025
    ensures Value(m, Embedded(a)) == NOTHING
  {
    hide Value, Embedded, Power32;
    Power32Value(k, a);
    Power32Adds(NOTHING, NOTHING);
    ValueModulo(m, 32 * k, Embedded(a));
  }

  lemma FiveVanish()
    ensures Vanishes(Embedded(FIVE), ROOTS)
  {
    hide Value, Embedded, FIVE;
    FiveAt1();
    FiveAt30();
    NextZero(1, 32, FIVE);
    NextZero(32, 1024, FIVE);
    NextZero(1024, 993, FIVE);
    NextZero(30, 960, FIVE);
    NextZero(960, 995, FIVE);
    NextZero(995, 65, FIVE);
  }

  lemma FiveSymbols()
    ensures |FIVE| == 150 && forall i: nat :: i < 150 ==> (FIVE[i] != Sym(0) <==> i in {0, 8, 39, 49, 149})
  {
    hide ToBits;
    SymBits(14, 7, 3, 1, 0);
    SymBits(27, 13, 6, 3, 1);
    SymBits(3, 1, 0, 0, 0);
    SymBits(1, 0, 0, 0, 0);
    SymBits(0, 0, 0, 0, 0);
  }

  // Any 150 symbols and some that differ from them in five have the same checksum.
  lemma FiveErrorsEscape(before: seq<Symbol>, a: seq<Symbol>, after: seq<Symbol>) returns (b: seq<Symbol>)
    requires |a| == 150
    ensures |b| == 150 && |Differences(a, b)| == 5
    ensures Checksum(before + a + after) == Checksum(before + b + after)
  {
    hide Checksum, FIVE, Embedded, Vanishes, ToBits, Plus;
    FiveSymbols();
    BchLawful();
    b := BCH.Add(a, FIVE);
    BCH.AddSolve(a, FIVE, b);
    FiveVanish();
    SameChecksumIff(before, a, b, after);
    forall i: nat | i < 150
      ensures a[i] != b[i] <==> FIVE[i] != Sym(0)
    {
      assert BCH.add(a[i], FIVE[i]) == b[i];
      assert BCH.Cancels(a[i]) && BCH.Cancels(FIVE[i]) && BCH.Commutes(a[i], FIVE[i]);
      BCH.AddBack(FIVE[i], a[i]);
    }
    assert Differences(a, b) == {0, 8, 39, 49, 149};
  }
}
