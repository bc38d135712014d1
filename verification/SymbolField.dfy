/**
 The symbols of five bits inside the field of 2^20 elements: zeta stands for 2.
 */
module SymbolField {
  import opened Bits
  import opened Polymod
  import opened Doubling
  import opened ExtensionField
  import opened FieldValues

  // The value of the n low bits of a.
  function EmbedLow(a: Symbol, n: nat): Element
    requires n <= 5
  {
    if n == 0 then NOTHING else Xor(EmbedLow(a, n - 1), Chosen(a[5 - n], Zeta(n - 1)))
  }

  function Embed(a: Symbol): Element {
    EmbedLow(a, 5)
  }

  // ---------------------------------------------------------------- addition

  lemma {:induction false} LowAdds(a: Symbol, b: Symbol, n: nat)
    requires n <= 5
    ensures EmbedLow(Plus(a, b), n) == Xor(EmbedLow(a, n), EmbedLow(b, n))
    decreases n
  {
    AddLaws(NOTHING, NOTHING, NOTHING);
    if n > 0 {
      LowAdds(a, b, n - 1);
      assert Plus(a, b)[5 - n] == (a[5 - n] != b[5 - n]);
      hide Xor, Chosen, Zeta;
      ChosenLaws(a[5 - n], b[5 - n], Zeta(n - 1), Zeta(n - 1));
      AddSwap(EmbedLow(a, n - 1), EmbedLow(b, n - 1), Chosen(a[5 - n], Zeta(n - 1)), Chosen(b[5 - n], Zeta(n - 1)));
    }
  }

  lemma EmbedAdds(a: Symbol, b: Symbol)
    ensures Embed(Plus(a, b)) == Xor(Embed(a), Embed(b))
  {
    LowAdds(a, b, 5);
  }

  lemma {:induction false} LowZeros(n: nat)
    requires n <= 5
    ensures EmbedLow(Zeros(5), n) == NOTHING
  {
    hide Xor, Chosen, Zeta;
    AddLaws(NOTHING, NOTHING, NOTHING);
    if n > 0 {
      LowZeros(n - 1);
      ChosenLaws(false, false, NOTHING, Zeta(n - 1));
    }
  }

  lemma EmbedZeros()
    ensures Embed(Zeros(5)) == NOTHING
  {
    LowZeros(5);
  }

  lemma EmbedSmall()
    ensures Embed(Sym(0)) == NOTHING && Embed(Sym(1)) == UNIT
  {
    hide Xor, Chosen, Zeta, ToBits, EmbedLow;
    SmallSymbols();
    LowZeros(5);
    var one := Sym(1);
    EmbedFive(one);
    ChosenLaws(true, true, NOTHING, Zeta(0));
    ChosenLaws(false, false, NOTHING, Zeta(1));
    ChosenLaws(false, false, NOTHING, Zeta(2));
    ChosenLaws(false, false, NOTHING, Zeta(3));
    ChosenLaws(false, false, NOTHING, Zeta(4));
    ZetaZero();
    AddLaws(UNIT, NOTHING, NOTHING);
  }

  lemma ZetaZero()
    ensures Zeta(0) == UNIT
  {
  }

  lemma EmbedFive(a: Symbol)
    ensures Embed(a) == Xor(Xor(Xor(Xor(Chosen(a[4], Zeta(0)), Chosen(a[3], Zeta(1))), Chosen(a[2], Zeta(2))),
                                Chosen(a[1], Zeta(3))), Chosen(a[0], Zeta(4)))
  {
    hide Xor, Chosen, Zeta;
    assert EmbedLow(a, 1) == Xor(EmbedLow(a, 0), Chosen(a[4], Zeta(0)));
    assert EmbedLow(a, 2) == Xor(EmbedLow(a, 1), Chosen(a[3], Zeta(1)));
    assert EmbedLow(a, 3) == Xor(EmbedLow(a, 2), Chosen(a[2], Zeta(2)));
    assert EmbedLow(a, 4) == Xor(EmbedLow(a, 3), Chosen(a[1], Zeta(3)));
    AddLaws(Chosen(a[4], Zeta(0)), NOTHING, NOTHING);
  }

  // ---------------------------------------------------------------- multiplication

  lemma MulChosen(u: Element, x: bool, w: Element)
    ensures Mul(u, Chosen(x, w)) == Chosen(x, Mul(u, w)) == Mul(Chosen(x, u), w)
  {
    hide Act;
    ActChosen(u, x, w);
    ChosenActs(x, u, w);
  }

  // Shifting the bits of a symbol multiplies their value by zeta.
  lemma {:induction false} LowShifted(a: Symbol, n: nat)
    requires n <= 4
    ensures EmbedLow(a[1..] + [false], n + 1) == Mul(ZETA, EmbedLow(a, n))
    decreases n
  {
    hide Xor, Chosen, Mul;
    var b: Symbol := a[1..] + [false];
    MulAdds(ZETA, NOTHING, NOTHING);
    if n == 0 {
      assert EmbedLow(b, 0) == NOTHING && EmbedLow(b, 1) == Xor(NOTHING, Chosen(false, Zeta(0)));
      ChosenLaws(false, false, NOTHING, Zeta(0));
      AddLaws(NOTHING, NOTHING, NOTHING);
    } else {
      LowShifted(a, n - 1);
      MulAdds(ZETA, EmbedLow(a, n - 1), Chosen(a[5 - n], Zeta(n - 1)));
      MulChosen(ZETA, a[5 - n], Zeta(n - 1));
      assert b[5 - (n + 1)] == a[5 - n];
    }
  }

  const REDUCED: Symbol := [false, true, false, false, true]

  lemma EmbedReduced()
    ensures Embed(REDUCED) == Zeta(5)
  {
    hide Xor, Chosen, Zeta, EmbedLow;
    EmbedFive(REDUCED);
    ChosenLaws(true, true, NOTHING, Zeta(0));
    ChosenLaws(false, false, NOTHING, Zeta(1));
    ChosenLaws(false, false, NOTHING, Zeta(2));
    ChosenLaws(true, true, NOTHING, Zeta(3));
    ChosenLaws(false, false, NOTHING, Zeta(4));
    ZetaZero();
    AddLaws(UNIT, NOTHING, NOTHING);
    AddLaws(Xor(UNIT, Zeta(3)), UNIT, Zeta(3));
    AddLaws(Zeta(3), UNIT, Zeta(3));
    ZetaFive();
  }

  lemma DoubleParts(a: Symbol)
    ensures Double(a) == Plus(a[1..] + [false], if a[0] then REDUCED else Zeros(5))
  {
    XorLaws(a[1..] + [false], Zeros(5));
  }

  lemma EmbedDouble(a: Symbol)
    ensures Embed(Double(a)) == Mul(ZETA, Embed(a))
  {
    hide Xor, Chosen, Plus, Double, Mul;
    DoubleParts(a);
    LowZeros(5);
    EmbedReduced();
    EmbedAdds(a[1..] + [false], if a[0] then REDUCED else Zeros(5));
    ChosenLaws(a[0], a[0], NOTHING, Zeta(5));
    LowShifted(a, 4);
    MulAdds(ZETA, EmbedLow(a, 4), Chosen(a[0], Zeta(4)));
    MulChosen(ZETA, a[0], Zeta(4));
    assert Chosen(a[0], Zeta(5)) == Embed(if a[0] then REDUCED else Zeros(5));
  }

  lemma {:induction false} EmbedDoubled(b: Symbol, i: nat)
    ensures Embed(Doubled(b, i)) == Mul(Zeta(i), Embed(b))
  {
    hide Embed, Double, Mul;
    if i == 0 {
      UnitLaws(Embed(b));
    } else {
      EmbedDoubled(b, i - 1);
      EmbedDouble(Doubled(b, i - 1));
      MulAssociates(ZETA, Zeta(i - 1), Embed(b));
    }
  }

  lemma {:induction false} LowTimes(a: Symbol, b: Symbol, n: nat)
    requires n <= 5
    ensures Embed(TimesLow(a, b, n)) == Mul(EmbedLow(a, n), Embed(b))
    decreases n
  {
    hide Embed, Doubled, Mul, Xor, Chosen, Zeta;
    EmbedZeros();
    MulAdds(Embed(b), NOTHING, NOTHING);
    if n > 0 {
      LowTimes(a, b, n - 1);
      EmbedAdds(TimesLow(a, b, n - 1), Term(a, b, n - 1));
      EmbedDoubled(b, n - 1);
      ChosenLaws(a[5 - n], false, NOTHING, Embed(Doubled(b, n - 1)));
      MulChosen(Zeta(n - 1), a[5 - n], Embed(b));
      MulAdds(EmbedLow(a, n - 1), Chosen(a[5 - n], Zeta(n - 1)), Embed(b));
    }
  }

  lemma EmbedTimes(a: Symbol, b: Symbol)
    ensures Embed(Times(a, b)) == Mul(Embed(a), Embed(b))
  {
    LowTimes(a, b, 5);
  }

  // ---------------------------------------------------------------- inverses

  lemma {:induction false} ZetaSum(m: nat, n: nat)
    ensures Zeta(m + n) == Mul(Zeta(m), Zeta(n))
    decreases m
  {
    hide Mul;
    if m == 0 {
      UnitLaws(Zeta(n));
    } else {
      ZetaSum(m - 1, n);
      MulAssociates(ZETA, Zeta(m - 1), Zeta(n));
    }
  }

  lemma ZetaPeriod()
    ensures Zeta(31) == UNIT
  {
    hide Zeta, Embed, Doubled, ToBits, Mul;
    PowersRepeat();
    EmbedSmall();
    EmbedDoubled(Sym(1), 31);
    UnitLaws(Zeta(31));
  }

  // Every other symbol than 0 has an inverse.
  lemma Inverse(a: Symbol) returns (b: Symbol)
    requires a != Zeros(5)
    ensures Mul(Embed(b), Embed(a)) == UNIT == Mul(Embed(a), Embed(b))
  {
    hide Zeta, Embed, Doubled, ToBits, Mul;
    var i := NonzeroIsPower(a);
    b := Doubled(Sym(1), 31 - i);
    EmbedSmall();
    EmbedDoubled(Sym(1), i);
    EmbedDoubled(Sym(1), 31 - i);
    UnitLaws(Zeta(i));
    UnitLaws(Zeta(31 - i));
    ZetaSum(31 - i, i);
    ZetaSum(i, 31 - i);
    ZetaPeriod();
  }

  // Only the symbol 0 makes a product vanish.
  lemma NoDivisor(a: Symbol, w: Element)
    requires a != Zeros(5) && Mul(Embed(a), w) == NOTHING
    ensures w == NOTHING
  {
    hide Embed, Mul;
    var b := Inverse(a);
    MulAssociates(Embed(b), Embed(a), w);
    MulAdds(Embed(b), NOTHING, NOTHING);
    UnitLaws(w);
  }

  lemma UnitIsSomething()
    ensures UNIT != NOTHING
  {
    assert UNIT[19] && !NOTHING[19];
  }

  lemma EmbedInjective(a: Symbol, b: Symbol)
    requires Embed(a) == Embed(b)
    ensures a == b
  {
    hide Embed, Mul, Xor;
    EmbedAdds(a, b);
    AddLaws(Embed(a), NOTHING, NOTHING);
    if a != b {
      DifferentSymbols(a, b);
      UnitIsSomething();
      MulAdds(UNIT, NOTHING, NOTHING);
      UnitLaws(NOTHING);
      NoDivisor(Plus(a, b), UNIT);
      UnitLaws(Embed(Plus(a, b)));
    }
  }

  lemma DifferentSymbols(a: Symbol, b: Symbol)
    requires a != b
    ensures Plus(a, b) != Zeros(5)
  {
    var i :| 0 <= i < 5 && a[i] != b[i];
    assert Plus(a, b)[i] && !Zeros(5)[i];
  }

  // The symbols are a field under the program's addition and multiplication.
  lemma SymbolsAreField(a: Symbol, b: Symbol, c: Symbol)
    ensures Times(a, b) == Times(b, a) && Times(Times(a, b), c) == Times(a, Times(b, c))
    ensures Times(a, Plus(b, c)) == Plus(Times(a, b), Times(a, c))
    ensures a != Sym(0) <==> exists d :: Times(a, d) == Sym(1)
  {
    hide Embed, Mul, Times, Plus, Xor, ToBits;
    EmbedTimes(a, b);
    EmbedTimes(b, a);
    MulCommutes(Embed(a), Embed(b));
    EmbedInjective(Times(a, b), Times(b, a));
    EmbedTimes(Times(a, b), c);
    EmbedTimes(b, c);
    EmbedTimes(a, Times(b, c));
    MulAssociates(Embed(a), Embed(b), Embed(c));
    EmbedInjective(Times(Times(a, b), c), Times(a, Times(b, c)));
    EmbedAdds(b, c);
    EmbedTimes(a, Plus(b, c));
    EmbedTimes(a, c);
    EmbedAdds(Times(a, b), Times(a, c));
    MulAdds(Embed(a), Embed(b), Embed(c));
    EmbedInjective(Times(a, Plus(b, c)), Plus(Times(a, b), Times(a, c)));
    HasInverse(a);
  }

  lemma HasInverse(a: Symbol)
    ensures a != Sym(0) <==> exists d :: Times(a, d) == Sym(1)
  {
    hide Embed, Mul, Times, ToBits;
    EmbedSmall();
    SmallSymbols();
    if a != Sym(0) {
      var d := Inverse(a);
      EmbedTimes(a, d);
      EmbedInjective(Times(a, d), Sym(1));
    } else {
      UnitIsSomething();
      forall d
        ensures Times(a, d) != Sym(1)
      {
        EmbedTimes(a, d);
        MulAdds(Embed(d), NOTHING, NOTHING);
      }
    }
  }
}
