/**
 The three registered prefixes leave different remainders, so no payload is valid under two of them.
 */
module CashPrefixes {
  import opened Bits
  import opened Polymod
  import CashAddr

  // t times g as the sum of the multiples of g that the bits of t select.
  lemma Product(t: Symbol, g: nat, g2: nat, g4: nat, g8: nat, g16: nat)
    requires Doubles(g, g2, g4, g8, g16)
    ensures Times(t, Sym(g)) ==
            Xor(Xor(Xor(Xor(Pick(t[4], g), Pick(t[3], g2)), Pick(t[2], g4)), Pick(t[1], g8)), Pick(t[0], g16))
  {
    hide ToBits, Doubled;
    SmallSymbols();
    var g0 := Sym(g);
    XorLaws(Pick(t[4], g), Zeros(5));
    assert TimesLow(t, g0, 1) == Xor(TimesLow(t, g0, 0), Term(t, g0, 0));
    assert TimesLow(t, g0, 2) == Xor(TimesLow(t, g0, 1), Term(t, g0, 1));
    assert TimesLow(t, g0, 3) == Xor(TimesLow(t, g0, 2), Term(t, g0, 2));
    assert TimesLow(t, g0, 4) == Xor(TimesLow(t, g0, 3), Term(t, g0, 3));
  }

  function Pick(b: bool, n: nat): Symbol {
    if b then Sym(n) else Zeros(5)
  }

  // One coefficient of the next remainder.
  lemma Coefficient(r: Remainder, d: Symbol, i: nat, t: nat, next: nat, product: nat, result: nat)
    requires i < 7 && r[0] == Sym(t) && r[i + 1] == Sym(next) && Times(Sym(t), GENERATOR[i]) == Sym(product)
    requires Xor(Sym(next), Sym(product)) == Sym(result)
    ensures BCH.Step(r, d)[i] == Sym(result)
  {
    hide ToBits, Times;
    BchLawful();
    BCH.StepAt(r, d, i);
  }

  lemma Product1_19()
    ensures Times(Sym(1), Sym(19)) == Sym(19)
  {
    hide ToBits, Times, Doubles;
    SymBits(1, 0, 0, 0, 0);
    SymBits(19, 9, 4, 2, 1);
    Doubles19();
    Product(Sym(1), 19, 15, 30, 21, 3);
  }

  lemma Product1_3()
    ensures Times(Sym(1), Sym(3)) == Sym(3)
  {
    hide ToBits, Times, Doubles;
    SymBits(1, 0, 0, 0, 0);
    SymBits(3, 1, 0, 0, 0);
    Doubles3();
    Product(Sym(1), 3, 6, 12, 24, 25);
  }

  lemma Product1_25()
    ensures Times(Sym(1), Sym(25)) == Sym(25)
  {
    hide ToBits, Times, Doubles;
    SymBits(1, 0, 0, 0, 0);
    SymBits(25, 12, 6, 3, 1);
    Doubles25();
    Product(Sym(1), 25, 27, 31, 23, 7);
  }

  lemma Product1_11()
    ensures Times(Sym(1), Sym(11)) == Sym(11)
  {
    hide ToBits, Times, Doubles;
    SymBits(1, 0, 0, 0, 0);
    SymBits(11, 5, 2, 1, 0);
    Doubles11();
    Product(Sym(1), 11, 22, 5, 10, 20);
  }

  lemma Product17_19()
    ensures Times(Sym(17), Sym(19)) == Sym(16)
  {
    hide ToBits, Times, Doubles;
    SymBits(3, 1, 0, 0, 0);
    SymBits(16, 8, 4, 2, 1);
    SymBits(17, 8, 4, 2, 1);
    SymBits(19, 9, 4, 2, 1);
    Doubles19();
    Product(Sym(17), 19, 15, 30, 21, 3);
  }

  lemma Product17_3()
    ensures Times(Sym(17), Sym(3)) == Sym(26)
  {
    hide ToBits, Times, Doubles;
    SymBits(3, 1, 0, 0, 0);
    SymBits(17, 8, 4, 2, 1);
    SymBits(25, 12, 6, 3, 1);
    SymBits(26, 13, 6, 3, 1);
    Doubles3();
    Product(Sym(17), 3, 6, 12, 24, 25);
  }

  lemma Product17_25()
    ensures Times(Sym(17), Sym(25)) == Sym(30)
  {
    hide ToBits, Times, Doubles;
    SymBits(7, 3, 1, 0, 0);
    SymBits(17, 8, 4, 2, 1);
    SymBits(25, 12, 6, 3, 1);
    SymBits(30, 15, 7, 3, 1);
    Doubles25();
    Product(Sym(17), 25, 27, 31, 23, 7);
  }

  lemma Product26_19()
    ensures Times(Sym(26), Sym(19)) == Sym(25)
  {
    hide ToBits, Times, Doubles;
    SymBits(3, 1, 0, 0, 0);
    SymBits(15, 7, 3, 1, 0);
    SymBits(21, 10, 5, 2, 1);
    SymBits(25, 12, 6, 3, 1);
    SymBits(26, 13, 6, 3, 1);
    Doubles19();
    Product(Sym(26), 19, 15, 30, 21, 3);
  }

  lemma Product26_3()
    ensures Times(Sym(26), Sym(3)) == Sym(7)
  {
    hide ToBits, Times, Doubles;
    SymBits(6, 3, 1, 0, 0);
    SymBits(7, 3, 1, 0, 0);
    SymBits(24, 12, 6, 3, 1);
    SymBits(25, 12, 6, 3, 1);
    SymBits(26, 13, 6, 3, 1);
    SymBits(30, 15, 7, 3, 1);
    Doubles3();
    Product(Sym(26), 3, 6, 12, 24, 25);
  }

  lemma Product14_19()
    ensures Times(Sym(14), Sym(19)) == Sym(4)
  {
    hide ToBits, Times, Doubles;
    SymBits(4, 2, 1, 0, 0);
    SymBits(14, 7, 3, 1, 0);
    SymBits(15, 7, 3, 1, 0);
    SymBits(17, 8, 4, 2, 1);
    SymBits(21, 10, 5, 2, 1);
    SymBits(30, 15, 7, 3, 1);
    Doubles19();
    Product(Sym(14), 19, 15, 30, 21, 3);
  }

  lemma Sums1()
    ensures Xor(Sym(2), Sym(19)) == Sym(17)
    ensures Xor(Sym(9), Sym(3)) == Sym(10)
    ensures Xor(Sym(20), Sym(25)) == Sym(13)
    ensures Xor(Sym(3), Sym(11)) == Sym(8)
  {
    hide ToBits;
    SymBits(2, 1, 0, 0, 0);
    SymBits(3, 1, 0, 0, 0);
    SymBits(8, 4, 2, 1, 0);
    SymBits(9, 4, 2, 1, 0);
    SymBits(10, 5, 2, 1, 0);
    SymBits(11, 5, 2, 1, 0);
    SymBits(13, 6, 3, 1, 0);
    SymBits(17, 8, 4, 2, 1);
    SymBits(19, 9, 4, 2, 1);
    SymBits(20, 10, 5, 2, 1);
    SymBits(25, 12, 6, 3, 1);
  }

  lemma Step1(r: Remainder, d: Symbol)
    requires r[0] == Sym(1) && r[1] == Sym(2) && r[2] == Sym(9) && r[3] == Sym(20) && r[4] == Sym(3)
    ensures var s := BCH.Step(r, d); s[0] == Sym(17) && s[1] == Sym(10) && s[2] == Sym(13) && s[3] == Sym(8)
  {
    hide ToBits, Times, Xor, BCH.Step;
    Sums1();
    Product1_19();
    Coefficient(r, d, 0, 1, 2, 19, 17);
    Product1_3();
    Coefficient(r, d, 1, 1, 9, 3, 10);
    Product1_25();
    Coefficient(r, d, 2, 1, 20, 25, 13);
    Product1_11();
    Coefficient(r, d, 3, 1, 3, 11, 8);
  }

  lemma Sums2()
    ensures Xor(Sym(10), Sym(16)) == Sym(26)
    ensures Xor(Sym(13), Sym(26)) == Sym(23)
    ensures Xor(Sym(8), Sym(30)) == Sym(22)
  {
    hide ToBits;
    SymBits(8, 4, 2, 1, 0);
    SymBits(10, 5, 2, 1, 0);
    SymBits(13, 6, 3, 1, 0);
    SymBits(16, 8, 4, 2, 1);
    SymBits(22, 11, 5, 2, 1);
    SymBits(23, 11, 5, 2, 1);
    SymBits(26, 13, 6, 3, 1);
    SymBits(30, 15, 7, 3, 1);
  }

  lemma Step2(r: Remainder, d: Symbol)
    requires r[0] == Sym(17) && r[1] == Sym(10) && r[2] == Sym(13) && r[3] == Sym(8)
    ensures var s := BCH.Step(r, d); s[0] == Sym(26) && s[1] == Sym(23) && s[2] == Sym(22)
  {
    hide ToBits, Times, Xor, BCH.Step;
    Sums2();
    Product17_19();
    Coefficient(r, d, 0, 17, 10, 16, 26);
    Product17_3();
    Coefficient(r, d, 1, 17, 13, 26, 23);
    Product17_25();
    Coefficient(r, d, 2, 17, 8, 30, 22);
  }

  lemma Sums3()
    ensures Xor(Sym(23), Sym(25)) == Sym(14)
    ensures Xor(Sym(22), Sym(7)) == Sym(17)
  {
    hide ToBits;
    SymBits(7, 3, 1, 0, 0);
    SymBits(14, 7, 3, 1, 0);
    SymBits(17, 8, 4, 2, 1);
    SymBits(22, 11, 5, 2, 1);
    SymBits(23, 11, 5, 2, 1);
    SymBits(25, 12, 6, 3, 1);
  }

  lemma Step3(r: Remainder, d: Symbol)
    requires r[0] == Sym(26) && r[1] == Sym(23) && r[2] == Sym(22)
    ensures var s := BCH.Step(r, d); s[0] == Sym(14) && s[1] == Sym(17)
  {
    hide ToBits, Times, Xor, BCH.Step;
    Sums3();
    Product26_19();
    Coefficient(r, d, 0, 26, 23, 25, 14);
    Product26_3();
    Coefficient(r, d, 1, 26, 22, 7, 17);
  }

  lemma Sums4()
    ensures Xor(Sym(17), Sym(4)) == Sym(21)
  {
    hide ToBits;
    SymBits(4, 2, 1, 0, 0);
    SymBits(17, 8, 4, 2, 1);
    SymBits(21, 10, 5, 2, 1);
  }

  lemma Step4(r: Remainder, d: Symbol)
    requires r[0] == Sym(14) && r[1] == Sym(17)
    ensures var s := BCH.Step(r, d); s[0] == Sym(21)
  {
    hide ToBits, Times, Xor, BCH.Step;
    Sums4();
    Product14_19();
    Coefficient(r, d, 0, 14, 17, 4, 21);
  }

  // ---------------------------------------------------------------- the prefixes

  lemma PrefixNumbers()
    ensures CashAddr.PrefixArray("bitcoincash") == [2, 9, 20, 3, 15, 9, 14] + [3, 1, 19, 8]
    ensures CashAddr.PrefixArray("bchtest") == [2, 3, 8, 20, 5, 19, 20]
    ensures CashAddr.PrefixArray("bchreg") == [2, 3, 8, 18, 5, 7]
  {
  }

  lemma SymsConcat(a: seq<int>, b: seq<int>)
    ensures Syms(a + b) == Syms(a) + Syms(b)
  {
  }

  // Seven symbols or fewer are only shifted in.
  lemma ShiftedIn(xs: seq<int>)
    requires |xs| <= 7
    ensures BCH.Run(ONE, Syms(xs)) == ONE[|xs|..] + Syms(xs)
  {
    hide ToBits;
    BchLawful();
    BCH.RunShift(ONE, Syms(xs));
  }

  lemma RunFour(r: Remainder, a: Symbol, b: Symbol, c: Symbol, d: Symbol)
    ensures BCH.Run(r, [a, b, c, d]) == BCH.Step(BCH.Step(BCH.Step(BCH.Step(r, a), b), c), d)
  {
    BCH.RunOne(r, a);
    BCH.RunConcat(r, [a], [b]);
    BCH.RunOne(BCH.Step(r, a), b);
    BCH.RunConcat(r, [a] + [b], [c]);
    var r2 := BCH.Step(BCH.Step(r, a), b);
    BCH.RunOne(r2, c);
    BCH.RunConcat(r, [a] + [b] + [c], [d]);
    BCH.RunOne(BCH.Step(r2, c), d);
    assert [a] + [b] + [c] + [d] == [a, b, c, d];
  }

  // Reading "bitcoincash" leaves 21 as the leading coefficient.
  lemma LongPrefix()
    ensures BCH.Run(ONE, Syms(CashAddr.PrefixArray("bitcoincash")))[0] == Sym(21)
  {
    hide ToBits, BCH.Step;
    PrefixNumbers();
    var first, last := [2, 9, 20, 3, 15, 9, 14], [3, 1, 19, 8];
    SymsConcat(first, last);
    BCH.RunConcat(ONE, Syms(first), Syms(last));
    ShiftedIn(first);
    var r: Remainder := BCH.Run(ONE, Syms(first));
    assert Syms(last) == [Sym(3), Sym(1), Sym(19), Sym(8)];
    RunFour(r, Sym(3), Sym(1), Sym(19), Sym(8));
    Step1(r, Sym(3));
    var r1 := BCH.Step(r, Sym(3));
    Step2(r1, Sym(1));
    var r2 := BCH.Step(r1, Sym(1));
    Step3(r2, Sym(19));
    Step4(BCH.Step(r2, Sym(19)), Sym(8));
  }

  function RemainderOf(prefix: string): Remainder {
    BCH.Run(ONE, Syms(CashAddr.PrefixArray(prefix)))
  }

  // The leading coefficients tell the three prefixes apart.
  lemma DistinctRemainders()
    ensures RemainderOf("bitcoincash")[0] == Sym(21)
    ensures RemainderOf("bchtest")[0] == Sym(1)
    ensures RemainderOf("bchreg")[0] == Sym(0)
    ensures Sym(21) != Sym(1) && Sym(21) != Sym(0) && Sym(1) != Sym(0)
  {
    hide ToBits, BCH.Step;
    LongPrefix();
    PrefixNumbers();
    ShiftedIn([2, 3, 8, 20, 5, 19, 20]);
    ShiftedIn([2, 3, 8, 18, 5, 7]);
    assert ONE[7] == Sym(1) && ONE[6] == Sym(0);
    SymBits(21, 10, 5, 2, 1);
    SmallSymbols();
    assert Sym(1)[4] && !Sym(0)[4];
  }

  // One payload has a valid checksum under at most one of the registered prefixes.
  lemma PrefixRecovery(p: string, q: string, payload: seq<int>)
    requires p in ["bitcoincash", "bchtest", "bchreg"] && q in ["bitcoincash", "bchtest", "bchreg"]
    requires CashAddr.ValidChecksum(p, payload) && CashAddr.ValidChecksum(q, payload)
    ensures p == q
  {
    hide ToBits, CashAddr.PrefixArray;
    var tail := [0] + payload;
    var a, b := CashAddr.PrefixArray(p), CashAddr.PrefixArray(q);
    assert CashAddr.WithPrefix(p, payload) == a + tail && CashAddr.WithPrefix(q, payload) == b + tail;
    SymsConcat(a, tail);
    SymsConcat(b, tail);
    TailFixesRemainder(Syms(a), Syms(b), Syms(tail));
    DistinctRemainders();
  }
}
