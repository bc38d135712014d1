/**
 Codewords are the data of which the polynomial vanishes at the eight roots of the generator.
 */
module Codewords {
  import opened Bits
  import opened Polymod
  import opened ExtensionField
  import opened FieldValues
  import opened SymbolField
  import opened Evaluation
  import opened CodeRoots

  // ---------------------------------------------------------------- the order of z

  predicate Fixes(n: nat, w: Element) {
    Shifts(w, n) == w
  }

  lemma FixesSum(m: nat, n: nat, w: Element)
    requires Fixes(m, w) && Fixes(n, w)
    ensures Fixes(m + n, w)
  {
    hide Shifts;
    ShiftsSum(w, m, n);
  }

  lemma FixesDifference(m: nat, n: nat, w: Element)
    requires Fixes(m, w) && Fixes(n, w) && n <= m
    ensures Fixes(m - n, w)
  {
    hide Shifts;
    ShiftsSum(w, m - n, n);
  }

  lemma {:induction false} FixesMultiple(n: nat, k: nat, w: Element)
    requires Fixes(n, w)
    ensures k * n >= 0 && Fixes(k * n, w)
    decreases k
  {
    hide Fixes;
    if k == 0 {
      NoShift(w);
    } else {
      FixesMultiple(n, k - 1, w);
      assert k * n == (k - 1) * n + n;
      FixesSum((k - 1) * n, n, w);
    }
  }

  lemma NoShift(w: Element)
    ensures Fixes(0, w)
  {
  }

  // Euclid's algorithm on exponents.
  lemma {:induction false} CommonDivisor(m: nat, n: nat, w: Element) returns (e: nat, p: nat, q: nat)
    requires Fixes(m, w) && Fixes(n, w) && m > 0
    ensures e > 0 && Fixes(e, w) && m == p * e && n == q * e
    decreases m + n, m
  {
    hide Fixes;
    if n == 0 {
      e, p, q := m, 1, 0;
    } else if n >= m {
      FixesDifference(n, m, w);
      e, p, q := CommonDivisor(m, n - m, w);
      assert (p + q) * e == p * e + q * e;
      q := p + q;
    } else {
      e, q, p := CommonDivisor(n, m, w);
    }
  }

  lemma SmallFactor(x: nat, y: nat)
    requires 0 < x <= 32 && x * y == 1025
    ensures x in {1, 5, 25}
  {
    if x <= 16 {
      assert x in {1, 2, 3, 4, 5, 6, 7, 8, 9, 10, 11, 12, 13, 14, 15, 16};
    } else {
      assert x in {17, 18, 19, 20, 21, 22, 23, 24, 25, 26, 27, 28, 29, 30, 31, 32};
    }
  }

  lemma LargeProduct(p: nat, e: nat)
    requires p >= 33 && e >= 33
    ensures p * e > 1025
  {
    assert p * e >= 33 * e;
  }

  // A proper divisor of 1025 divides 25 or 205.
  lemma ProperDivisor(p: nat, e: nat) returns (k: nat)
    requires p * e == 1025 && p > 1
    ensures k * e == 25 || k * e == 205
  {
    if e <= 32 {
      SmallFactor(e, p);
      k := 25 / e;
    } else {
      if p >= 33 {
        LargeProduct(p, e);
      }
      SmallFactor(p, e);
      k := if p == 5 then 1 else 5;
    }
  }

  lemma SmallerDivisor(e: nat, p: nat, q: nat, d: nat)
    requires e > 0 && 1025 == p * e && d == q * e && 0 < d < 1025
    ensures p > 1
  {
    assert q >= 1;
    assert q * e >= e;
  }

  // What z^n and z^m agree on is a factor of z^n + z^m.
  lemma Annihilated(v: Element, n: nat, w: Element)
    requires Mul(v, Xor(Z(n), UNIT)) == UNIT && Fixes(n, w)
    ensures w == NOTHING
  {
    hide Mul, Xor, Shifts, Z;
    MulZ(n, w);
    MulAdds(Z(n), UNIT, w);
    UnitLaws(w);
    AddLaws(w, NOTHING, NOTHING);
    MulAssociates(v, Xor(Z(n), UNIT), w);
    MulAdds(v, NOTHING, NOTHING);
  }

  // Multiplication by z^n leaves something other than zero alone exactly when 1025 divides n.
  lemma FixesIff(n: nat, w: Element)
    requires w != NOTHING
    ensures Fixes(n, w) <==> n % 1025 == 0
  {
    hide Mul, Xor, Z, Fixes;
    PeriodFixes(n, w);
    if Fixes(n, w) && n % 1025 != 0 {
      PeriodFixes(1025, w);
      var d := n % 1025;
      FixesMultiple(1025, n / 1025, w);
      FixesDifference(n, n / 1025 * 1025, w);
      assert n - n / 1025 * 1025 == d;
      var e, p, q := CommonDivisor(1025, d, w);
      SmallerDivisor(e, p, q, d);
      var k := ProperDivisor(p, e);
      FixesMultiple(e, k, w);
      Units();
      if k * e == 25 {
        Annihilated(INVERSE25, 25, w);
      } else {
        Annihilated(INVERSE205, 205, w);
      }
    }
  }

  lemma PeriodFixes(n: nat, w: Element)
    ensures n % 1025 == 0 ==> Fixes(n, w)
  {
    hide Shifts;
    if n % 1025 == 0 {
      ShiftsModulo(w, n, 0);
      NoShift(w);
    }
  }

  // Different powers of z agree on zero only.
  lemma ShiftsDiffer(m: nat, n: nat, w: Element)
    requires Shifts(w, m) == Shifts(w, n) && m % 1025 != n % 1025
    ensures w == NOTHING
  {
    hide Shifts;
    var back := 1025 * (n / 1025 + 1) - n;
    ShiftsSum(w, back, n);
    ShiftsSum(w, back, m);
    ShiftsModulo(w, back + n, 0);
    NoShift(w);
    DifferenceModulo(m, n, back);
    if w != NOTHING {
      FixesIff(back + m, w);
    }
  }

  lemma DifferenceModulo(m: nat, n: nat, back: nat)
    requires back == 1025 * (n / 1025 + 1) - n
    ensures (back + n) % 1025 == 0 && ((back + m) % 1025 == 0 ==> m % 1025 == n % 1025)
  {
  }

  // ---------------------------------------------------------------- dividing off a root

  // p without its remainder modulo x + z^k.
  function Divided(k: nat, p: Polynomial): (q: Polynomial)
    ensures |q| == if p == [] then 0 else |p| - 1
  {
    if |p| <= 1 then [] else Divided(k, p[..|p| - 1]) + [Value(k, p[..|p| - 1])]
  }

  // p(y) + p(x) is y + x times the quotient at y.
  lemma {:induction false} DividedValue(k: nat, m: nat, p: Polynomial)
    ensures Xor(Value(m, p), Value(k, p)) ==
            Xor(Shifts(Value(m, Divided(k, p)), m), Shifts(Value(m, Divided(k, p)), k))
    decreases |p|
  {
    hide Value, Shifts, Xor;
    ValueOne(m, NOTHING);
    ValueOne(k, NOTHING);
    ShiftsAdds(NOTHING, NOTHING, m);
    ShiftsAdds(NOTHING, NOTHING, k);
    if p == [] {
    } else if |p| == 1 {
      ValueOne(m, p[0]);
      ValueOne(k, p[0]);
      AddLaws(p[0], NOTHING, NOTHING);
      AddLaws(NOTHING, NOTHING, NOTHING);
      assert p == [p[0]];
    } else {
      var f, w := p[..|p| - 1], p[|p| - 1];
      DividedValue(k, m, f);
      assert p == f + [w];
      ValueLast(m, f, w);
      ValueLast(k, f, w);
      ValueLast(m, Divided(k, f), Value(k, f));
      NextValue(m, k, Value(m, f), Value(k, f), Value(m, Divided(k, f)), w);
    }
  }

  lemma NextValue(m: nat, k: nat, u: Element, v: Element, q: Element, w: Element)
    requires Xor(u, v) == Xor(Shifts(q, m), Shifts(q, k))
    ensures Xor(Xor(Shifts(u, m), w), Xor(Shifts(v, k), w)) ==
            Xor(Shifts(Xor(Shifts(q, m), v), m), Shifts(Xor(Shifts(q, m), v), k))
  {
    hide Shifts, Xor;
    AddSwap(Shifts(u, m), w, Shifts(v, k), w);
    AddLaws(w, w, w);
    AddLaws(Xor(Shifts(u, m), Shifts(v, k)), NOTHING, NOTHING);
    var s := Xor(Shifts(q, m), v);
    // u is q z^m + q z^k + v.
    AddLaws(v, v, u);
    AddLaws(u, v, v);
    AddLaws(u, NOTHING, NOTHING);
    assert u == Xor(Xor(Shifts(q, m), Shifts(q, k)), v);
    AddLaws(Shifts(q, m), Shifts(q, k), v);
    AddLaws(Shifts(q, m), v, Shifts(q, k));
    AddLaws(v, Shifts(q, k), v);
    assert u == Xor(s, Shifts(q, k));
    ShiftsAdds(s, Shifts(q, k), m);
    ShiftsSum(q, m, k);
    ShiftsSum(q, k, m);
    ShiftsAdds(Shifts(q, m), v, k);
    AddLaws(Shifts(s, m), Shifts(q, m + k), Shifts(v, k));
  }

  ghost predicate Vanishes(p: Polynomial, ks: seq<nat>) {
    forall i :: 0 <= i < |ks| ==> Value(ks[i], p) == NOTHING
  }

  predicate Distinct(ks: seq<nat>) {
    forall i, j :: 0 <= i < j < |ks| ==> ks[i] % 1025 != ks[j] % 1025
  }

  // A polynomial that vanishes at as many powers of z as it has coefficients is zero.
  lemma {:induction false} ManyRoots(p: Polynomial, ks: seq<nat>)
    requires |p| <= |ks| && Distinct(ks) && Vanishes(p, ks)
    ensures forall i :: 0 <= i < |p| ==> p[i] == NOTHING
    decreases |p|
  {
    hide Value, Shifts, Xor, Divided;
    if p != [] {
      var k, rest := ks[0], ks[1..];
      var q := Divided(k, p);
      forall i | 0 <= i < |rest|
        ensures Value(rest[i], q) == NOTHING
      {
        var m := ks[i + 1];
        DividedValue(k, m, p);
        AddLaws(NOTHING, NOTHING, NOTHING);
        SumNothing(Shifts(Value(m, q), m), Shifts(Value(m, q), k));
        ShiftsDiffer(m, k, Value(m, q));
      }
      ManyRoots(q, rest);
      DividedNothing(k, p);
    }
  }

  lemma SumNothing(v: Element, w: Element)
    ensures Xor(v, w) == NOTHING <==> v == w
  {
    hide Xor;
    AddLaws(v, w, w);
    AddLaws(v, NOTHING, NOTHING);
    AddLaws(w, NOTHING, NOTHING);
  }

  lemma {:induction false} DividedNothing(k: nat, p: Polynomial)
    requires Value(k, p) == NOTHING
    requires forall i :: 0 <= i < |Divided(k, p)| ==> Divided(k, p)[i] == NOTHING
    ensures forall i :: 0 <= i < |p| ==> p[i] == NOTHING
    decreases |p|
  {
    hide Value, Shifts, Xor;
    if p != [] {
      var f, w := p[..|p| - 1], p[|p| - 1];
      assert p == f + [w];
      ValueLast(k, f, w);
      ShiftsAdds(NOTHING, NOTHING, k);
      AddLaws(w, NOTHING, NOTHING);
      ValueOne(k, w);
      if f != [] {
        var q := Divided(k, p);
        assert q == Divided(k, f) + [Value(k, f)];
        assert q[|q| - 1] == Value(k, f);
        assert forall i :: 0 <= i < |Divided(k, f)| ==> Divided(k, f)[i] == q[i];
        DividedNothing(k, f);
      }
    }
  }

  // ---------------------------------------------------------------- codewords

  const ROOTS: seq<nat> := [1, 30, 32, 65, 960, 993, 995, 1024]

  lemma RootsOfGenerator()
    ensures Distinct(ROOTS) && |ROOTS| == 8 && forall i :: 0 <= i < 8 ==> IsRoot(ROOTS[i])
  {
    hide IsRoot;
    Roots();
  }

  lemma EmbeddedNothing(a: seq<Symbol>)
    requires forall i :: 0 <= i < |a| ==> Embedded(a)[i] == NOTHING
    ensures a == seq(|a|, _ => Bits.Zeros(5))
  {
    hide Embed;
    EmbedZeros();
    forall i | 0 <= i < |a|
      ensures a[i] == Bits.Zeros(5)
    {
      assert Embedded(a)[i] == Embed(a[i]);
      EmbedInjective(a[i], Bits.Zeros(5));
    }
  }

  // The register ends empty exactly when the data vanish at the eight roots.
  lemma CodewordIff(data: seq<Symbol>)
    ensures BCH.Run(ZERO, data) == ZERO <==> Vanishes(Embedded(data), ROOTS)
  {
    hide Value, BCH.Run, BCH.Step, Embedded, ROOTS, IsRoot, ToBits;
    RootsOfGenerator();
    var r := BCH.Run(ZERO, data);
    ZeroSymbol();
    forall i | 0 <= i < 8
      ensures Value(ROOTS[i], Embedded(r)) == Value(ROOTS[i], Embedded(data))
    {
      ValueRun(ROOTS[i], ZERO, data);
      ZeroInFront(ROOTS[i], data);
    }
    if r == ZERO {
      forall i | 0 <= i < 8
        ensures Value(ROOTS[i], Embedded(data)) == NOTHING
      {
        ValueZero(ROOTS[i]);
      }
    }
    if Vanishes(Embedded(data), ROOTS) {
      assert |Embedded(r)| == 8;
      ManyRoots(Embedded(r), ROOTS);
      EmbeddedNothing(r);
      assert r == ZERO;
    }
  }

  lemma ZeroSymbol()
    ensures Sym(0) == Bits.Zeros(5) && ZERO == seq(8, _ => Bits.Zeros(5))
  {
    hide ToBits;
    SmallSymbols();
  }

  lemma ValueZero(k: nat)
    ensures Value(k, Embedded(ZERO)) == NOTHING
  {
    hide Value, Embed, ToBits;
    EmbedSmall();
    ValueNothing(k, Embedded(ZERO));
  }

  lemma ZeroInFront(k: nat, data: seq<Symbol>)
    ensures Value(k, Embedded(ZERO + data)) == Value(k, Embedded(data))
  {
    hide Value, Embedded, Xor, Shifts;
    ValueZero(k);
    EmbeddedConcat(ZERO, data);
    ValueConcat(k, Embedded(ZERO), Embedded(data));
    ShiftsAdds(NOTHING, NOTHING, k * |data|);
    AddLaws(Value(k, Embedded(data)), NOTHING, NOTHING);
  }

  // Data of one length have the same checksum exactly when their difference vanishes at the roots.
  lemma SameChecksumIff(before: seq<Symbol>, a: seq<Symbol>, b: seq<Symbol>, after: seq<Symbol>)
    requires |a| == |b|
    ensures Checksum(before + a + after) == Checksum(before + b + after) <==>
            Vanishes(Embedded(BCH.Add(a, b)), ROOTS)
  {
    hide BCH.Run, BCH.Step, BCH.Add, ROOTS, Embedded, Value;
    BchLawful();
    ZeroIsZeros();
    var r := BCH.Run(ONE, before);
    WindowOnly(before, a, b, after);
    BCH.RunLinear(r, r, a, b);
    BCH.AddZeros(r);
    BCH.AddZeros(BCH.Run(r, a));
    BCH.AddSolve(BCH.Run(r, a), BCH.Run(r, b), ZERO);
    CodewordIff(BCH.Add(a, b));
  }

  // What comes before and after plays no part.
  lemma WindowOnly(before: seq<Symbol>, x: seq<Symbol>, y: seq<Symbol>, after: seq<Symbol>)
    ensures Checksum(before + x + after) == Checksum(before + y + after) <==>
            BCH.Run(BCH.Run(ONE, before), x) == BCH.Run(BCH.Run(ONE, before), y)
  {
    BchLawful();
    var r := BCH.Run(ONE, before);
    BCH.RunConcat(ONE, before + x, after);
    BCH.RunConcat(ONE, before + y, after);
    BCH.RunConcat(ONE, before, x);
    BCH.RunConcat(ONE, before, y);
    BCH.AddedTwice(BCH.Run(ONE, before + x + after), ONE);
    BCH.AddedTwice(BCH.Run(ONE, before + y + after), ONE);
    if BCH.Run(BCH.Run(r, x), after) == BCH.Run(BCH.Run(r, y), after) {
      BCH.RunInjective(BCH.Run(r, x), BCH.Run(r, y), after);
    }
  }
}
