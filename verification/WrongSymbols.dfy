/**
 Which wrong symbols the checksum detects, by the roots of the generator.
 */
module WrongSymbols {
  import opened Bits
  import opened Polymod
  import opened ExtensionField
  import opened FieldValues
  import opened SymbolField
  import opened Evaluation
  import opened Codewords

  // ---------------------------------------------------------------- taking out a power

  // Multiplies each coefficient by z^(s * e) + z^(s * n), e being its own power.
  function Killed(n: nat, s: nat, p: Polynomial): (q: Polynomial)
    ensures |q| == |p|
  {
    seq(|p|, i requires 0 <= i < |p| => Xor(Shifts(p[i], s * (|p| - 1 - i)), Shifts(p[i], s * n)))
  }

  lemma KilledFirst(n: nat, s: nat, p: Polynomial)
    requires p != []
    ensures Killed(n, s, p) == [Xor(Shifts(p[0], s * (|p| - 1)), Shifts(p[0], s * n))] + Killed(n, s, p[1..])
  {
    hide Xor, Shifts;
    forall i | 0 < i < |p|
      ensures Killed(n, s, p)[i] == Killed(n, s, p[1..])[i - 1]
    {
      assert |p| - 1 - i == |p[1..]| - 1 - (i - 1);
    }
  }

  lemma {:induction false} KilledValue(k: nat, n: nat, s: nat, p: Polynomial)
    ensures Value(k, Killed(n, s, p)) == Xor(Value(k + s, p), Shifts(Value(k, p), s * n))
    decreases |p|
  {
    hide Xor, Shifts, Killed;
    ShiftsAdds(NOTHING, NOTHING, s * n);
    AddLaws(NOTHING, NOTHING, NOTHING);
    if p != [] {
      var e, w, rest := |p| - 1, p[0], p[1..];
      KilledValue(k, n, s, rest);
      KilledFirst(n, s, p);
      ShiftsAdds(Shifts(w, s * e), Shifts(w, s * n), k * e);
      ShiftsSum(w, k * e, s * e);
      assert k * e + s * e == (k + s) * e;
      ShiftsSum(w, k * e, s * n);
      ShiftsSum(w, s * n, k * e);
      ShiftsAdds(Shifts(w, k * e), Value(k, rest), s * n);
      AddSwap(Shifts(w, (k + s) * e), Shifts(Shifts(w, k * e), s * n),
              Value(k + s, rest), Shifts(Value(k, rest), s * n));
    }
  }

  // So it vanishes where p vanishes twice, s apart.
  lemma KilledVanishes(k: nat, n: nat, s: nat, p: Polynomial)
    requires Value(k, p) == NOTHING && Value(k + s, p) == NOTHING
    ensures Value(k, Killed(n, s, p)) == NOTHING
  {
    hide Xor, Shifts, Killed, Value;
    KilledValue(k, n, s, p);
    ShiftsAdds(NOTHING, NOTHING, s * n);
    AddLaws(NOTHING, NOTHING, NOTHING);
  }

  // The power that coefficient i goes with.
  function Power(p: Polynomial, i: nat): nat {
    (|p| - 1 - i) % 1025
  }

  lemma KilledAt(n: nat, s: nat, p: Polynomial, i: nat)
    requires i < |p| <= 1025
    ensures p[i] == NOTHING || Power(p, i) == n ==> Killed(n, s, p)[i] == NOTHING
    ensures Killed(n, s, p)[i] == NOTHING && s * Power(p, i) % 1025 != s * n % 1025 ==> p[i] == NOTHING
  {
    hide Xor, Shifts;
    var e := |p| - 1 - i;
    SumNothing(Shifts(p[i], s * e), Shifts(p[i], s * n));
    ShiftsAdds(NOTHING, NOTHING, s * e);
    ShiftsAdds(NOTHING, NOTHING, s * n);
    if Killed(n, s, p)[i] == NOTHING && s * e % 1025 != s * n % 1025 {
      ShiftsDiffer(s * e, s * n, p[i]);
    }
  }

  lemma {:induction false} OneTerm(k: nat, p: Polynomial, c: nat)
    requires c < |p| && forall i :: 0 <= i < |p| && i != c ==> p[i] == NOTHING
    requires Value(k, p) == NOTHING
    ensures p[c] == NOTHING
    decreases |p|
  {
    hide Xor, Shifts;
    var e := k * (|p| - 1);
    AddLaws(Shifts(p[0], e), NOTHING, NOTHING);
    if c == 0 {
      ValueNothing(k, p[1..]);
      ShiftsAdds(NOTHING, NOTHING, e);
      Unshifted(p[0], e);
    } else {
      ShiftsAdds(NOTHING, NOTHING, e);
      AddLaws(Value(k, p[1..]), NOTHING, NOTHING);
      OneTerm(k, p[1..], c - 1);
    }
  }

  lemma Unshifted(w: Element, n: nat)
    requires Shifts(w, n) == NOTHING
    ensures w == NOTHING
  {
    hide Shifts;
    var back := 1025 * (n / 1025 + 1) - n;
    ShiftsSum(w, back, n);
    ShiftsAdds(NOTHING, NOTHING, back);
    ShiftsModulo(w, back + n, 0);
    assert Shifts(w, 0) == w by { NoShift(w); }
  }

  // ---------------------------------------------------------------- four wrong symbols

  lemma Times31(x: nat, y: nat)
    requires x < 1025 && y < 1025 && x != y
    ensures 31 * x % 1025 != 31 * y % 1025 && 2 * x % 1025 != 2 * y % 1025
  {
    Quotients(31 * x, 31 * y);
    Quotients(2 * x, 2 * y);
    NoMultiple(x - y, 31 * x / 1025 - 31 * y / 1025);
    NoMultiple(x - y, 2 * x / 1025 - 2 * y / 1025);
  }

  lemma Quotients(m: nat, n: nat)
    ensures m % 1025 == n % 1025 ==> m - n == 1025 * (m / 1025 - n / 1025)
  {
  }

  lemma NoMultiple(x: int, j: int)
    requires -1025 < x < 1025 && x != 0
    ensures 31 * x != 1025 * j && 2 * x != 1025 * j
  {
    assert 31 * x == 1025 * j ==> x == 1025 * (496 * j - 15 * x);
  }

  // The six roots z^-32, z^-1, z^30 and z^-30, z, z^32 take out three powers; a fourth cannot stand alone.
  lemma ThreePowers(p: Polynomial, c: nat, n1: nat, n2: nat, n3: nat)
    requires c < |p| <= 1025 && Vanishes(p, ROOTS)
    requires n1 < 1025 && n2 < 1025 && n3 < 1025 && Power(p, c) !in {n1, n2, n3}
    requires forall i :: 0 <= i < |p| && i != c ==> p[i] == NOTHING || Power(p, i) in {n1, n2, n3}
    ensures p[c] == NOTHING
  {
    hide Value, Killed, Power;
    SixRoots(p);
    var q := Killed(n1, 31, p);
    KilledVanishes(993, n1, 31, p);
    KilledVanishes(1024, n1, 31, p);
    KilledVanishes(995, n1, 31, p);
    KilledVanishes(1026, n1, 31, p);
    var r := Killed(n2, 31, q);
    KilledVanishes(993, n2, 31, q);
    KilledVanishes(995, n2, 31, q);
    var s := Killed(n3, 2, r);
    KilledVanishes(993, n3, 2, r);
    SamePowers(p, q);
    SamePowers(q, r);
    forall i | 0 <= i < |p| && i != c
      ensures s[i] == NOTHING
    {
      KilledAt(n1, 31, p, i);
      KilledAt(n2, 31, q, i);
      KilledAt(n3, 2, r, i);
    }
    OneTerm(993, s, c);
    PowerRange(p, c);
    Times31(Power(p, c), n1);
    Times31(Power(p, c), n2);
    Times31(Power(p, c), n3);
    KilledAt(n3, 2, r, c);
    KilledAt(n2, 31, q, c);
    KilledAt(n1, 31, p, c);
  }

  lemma SamePowers(p: Polynomial, q: Polynomial)
    requires |p| == |q|
    ensures forall i: nat :: Power(p, i) == Power(q, i)
  {
  }

  lemma PowerRange(p: Polynomial, i: nat)
    ensures Power(p, i) < 1025
  {
  }

  lemma SixRoots(p: Polynomial)
    requires Vanishes(p, ROOTS)
    ensures Value(993, p) == NOTHING && Value(1024, p) == NOTHING && Value(1055, p) == NOTHING
    ensures Value(995, p) == NOTHING && Value(1026, p) == NOTHING && Value(1057, p) == NOTHING
  {
    hide Value;
    assert Value(ROOTS[5], p) == NOTHING && Value(ROOTS[7], p) == NOTHING && Value(ROOTS[1], p) == NOTHING;
    assert Value(ROOTS[6], p) == NOTHING && Value(ROOTS[0], p) == NOTHING && Value(ROOTS[2], p) == NOTHING;
    ValueModulo(1055, 30, p);
    ValueModulo(1026, 1, p);
    ValueModulo(1057, 32, p);
  }

  // The places at which two sequences differ.
  function Differences<T(==)>(a: seq<T>, b: seq<T>): set<nat>
    requires |a| == |b|
  {
    set i: nat | i < |a| && a[i] != b[i]
  }

  // At most three numbers, and none of them is c.
  lemma ThreeNumbers(s: set<nat>, c: nat) returns (x: nat, y: nat, z: nat)
    requires |s| <= 3 && c !in s
    ensures s <= {x, y, z} && c !in {x, y, z}
    ensures {x, y, z} <= s + {c + 1}
  {
    x, y, z := c + 1, c + 1, c + 1;
    if s != {} {
      x :| x in s;
      var t := s - {x};
      if t != {} {
        y :| y in t;
        var u := t - {y};
        if u != {} {
          z :| z in u;
          assert |u - {z}| == 0;
        }
        assert u <= {z};
      }
      assert t <= {y, z};
    }
  }

  // A polynomial with at most four coefficients other than zero is none that vanishes at the roots.
  lemma FourCoefficients(p: Polynomial, d: set<nat>, c: nat)
    requires c in d && |d| <= 4 && c < |p| <= 1025 && Vanishes(p, ROOTS)
    requires forall i :: i in d ==> i < |p|
    requires forall i :: 0 <= i < |p| && i !in d ==> p[i] == NOTHING
    ensures p[c] == NOTHING
  {
    hide Value, Power, Vanishes;
    var x, y, z := ThreeNumbers(d - {c}, c);
    forall i | 0 <= i < |p| && i != c
      ensures p[i] == NOTHING || Power(p, i) in {Power(p, x), Power(p, y), Power(p, z)}
    {
      assert i in d ==> i in {x, y, z};
    }
    PowerRange(p, x);
    PowerRange(p, y);
    PowerRange(p, z);
    PowersDiffer(p, c, x);
    PowersDiffer(p, c, y);
    PowersDiffer(p, c, z);
    ThreePowers(p, c, Power(p, x), Power(p, y), Power(p, z));
  }

  // Data that differ in at most four of 1025 symbols have different checksums.
  lemma FourErrorsDetected(before: seq<Symbol>, a: seq<Symbol>, b: seq<Symbol>, after: seq<Symbol>)
    requires |a| == |b| <= 1025 && |Differences(a, b)| <= 4
    requires Checksum(before + a + after) == Checksum(before + b + after)
    ensures a == b
  {
    hide Checksum, Embedded, BCH.Add, Vanishes;
    SameChecksumIff(before, a, b, after);
    if a != b {
      DifferenceFound(a, b);
      var d := Differences(a, b);
      var c: nat :| c in d;
      var p := Embedded(BCH.Add(a, b));
      forall i: nat | i < |p|
        ensures p[i] == NOTHING <==> i !in d
      {
        EmbeddedSame(a, b, i);
      }
      FourCoefficients(p, d, c);
    }
  }

  lemma DifferenceFound(a: seq<Symbol>, b: seq<Symbol>)
    requires |a| == |b| && a != b
    ensures Differences(a, b) != {}
  {
    var i: nat :| i < |a| && a[i] != b[i];
    assert i in Differences(a, b);
  }

  lemma PowersDiffer(p: Polynomial, c: nat, x: nat)
    requires c < |p| <= 1025 && x != c && (x < |p| || x == c + 1)
    ensures Power(p, c) != Power(p, x)
  {
  }

  lemma EmbeddedSame(a: seq<Symbol>, b: seq<Symbol>, i: nat)
    requires i < |a| == |b|
    ensures Embedded(BCH.Add(a, b))[i] == NOTHING <==> a[i] == b[i]
  {
    hide Embed, Xor;
    AddAt(a, b, i);
    EmbedAdds(a[i], b[i]);
    SumNothing(Embed(a[i]), Embed(b[i]));
    if Embed(a[i]) == Embed(b[i]) {
      EmbedInjective(a[i], b[i]);
    }
  }

  // ---------------------------------------------------------------- two wrong symbols

  // The value of two coefficients n apart.
  lemma TwoTerms(k: nat, e: Symbol, n: nat, f: Symbol)
    ensures k * (n + 1) >= 0
    ensures Value(k, Embedded([e] + BCH.Zeros(n) + [f])) == Xor(Shifts(Embed(e), k * (n + 1)), Embed(f))
  {
    hide Embed, Xor, Shifts, ToBits, Embedded, Value;
    var z, last := Embedded(BCH.Zeros(n)), Embedded([f]);
    EmbeddedConcat([e] + BCH.Zeros(n), [f]);
    EmbeddedConcat([e], BCH.Zeros(n));
    EmbeddedOne(e);
    EmbeddedOne(f);
    ValueConcat(k, [Embed(e)] + z, last);
    ValueConcat(k, [Embed(e)], z);
    ValueOne(k, Embed(e));
    ValueOne(k, Embed(f));
    ZerosValue(k, n);
    AddLaws(Shifts(Embed(e), k * n), NOTHING, NOTHING);
    ShiftsSum(Embed(e), k, k * n);
    assert k * 1 == k && k + k * n == k * (n + 1);
  }

  lemma ZerosValue(k: nat, n: nat)
    ensures Value(k, Embedded(BCH.Zeros(n))) == NOTHING
  {
    hide Embed, Value, ToBits;
    EmbedSmall();
    ValueNothing(k, Embedded(BCH.Zeros(n)));
  }

  // Two symbols are a codeword exactly when they are the same, a multiple of 1025 apart.
  lemma TwoSymbolsIff(e: Symbol, n: nat, f: Symbol)
    requires e != Bits.Zeros(5)
    ensures Vanishes(Embedded([e] + BCH.Zeros(n) + [f]), ROOTS) <==> (n + 1) % 1025 == 0 && e == f
  {
    hide Embed, Xor, Shifts, ToBits, Embedded, Value;
    var p := Embedded([e] + BCH.Zeros(n) + [f]);
    forall k: nat
      ensures k * (n + 1) >= 0 && (Value(k, p) == NOTHING <==> Shifts(Embed(e), k * (n + 1)) == Embed(f))
    {
      TwoTerms(k, e, n, f);
      SumNothing(Shifts(Embed(e), k * (n + 1)), Embed(f));
    }
    EmbedZeros();
    if Embed(e) == NOTHING {
      EmbedInjective(e, Bits.Zeros(5));
    }
    if Vanishes(p, ROOTS) {
      assert Value(ROOTS[0], p) == NOTHING && Value(ROOTS[7], p) == NOTHING;
      assert ROOTS[0] * (n + 1) == n + 1 && ROOTS[7] * (n + 1) == 1024 * (n + 1);
      OppositePowers(n + 1);
      if (n + 1) % 1025 != 0 {
        ShiftsDiffer(n + 1, 1024 * (n + 1), Embed(e));
      }
      ShiftsModulo(Embed(e), n + 1, 0);
      assert Shifts(Embed(e), 0) == Embed(e) by { NoShift(Embed(e)); }
      EmbedInjective(e, f);
    }
    if (n + 1) % 1025 == 0 && e == f {
      forall i | 0 <= i < |ROOTS|
        ensures Value(ROOTS[i], p) == NOTHING
      {
        ProductModulo(n + 1, 0, ROOTS[i]);
        ShiftsModulo(Embed(e), ROOTS[i] * (n + 1), 0);
        assert Shifts(Embed(e), 0) == Embed(e) by { NoShift(Embed(e)); }
      }
    }
  }

  // The remainder of x^n is a constant if and only if n is a multiple of 1025, and it is 1 then.
  lemma ConstantIff(n: nat, c: Symbol)
    ensures BCH.Run(ZERO, [Sym(1)] + BCH.Zeros(n)) == ZERO[..7] + [c] <==> n % 1025 == 0 && c == Sym(1)
  {
    hide BCH.Run, BCH.Step, Embedded, Value, ToBits, Vanishes, BCH.Add;
    BchLawful();
    ZeroIsZeros();
    SmallSymbols();
    BCH.RunShift(ZERO, [Sym(1)]);
    assert ZERO[1..] == ZERO[..7];
    if n == 0 {
      assert [Sym(1)] + BCH.Zeros(0) == [Sym(1)];
      LastSymbol(Sym(1), c);
      return;
    }
    var one, gap, z := [Sym(1)], BCH.Zeros(n - 1), Sym(0);
    assert one + BCH.Zeros(n) == one + gap + [z] by { assert BCH.Zeros(n) == gap + [z]; }
    BCH.RunConcat(ZERO, one + gap, [z]);
    BCH.RunConcat(ZERO, one + gap, [c]);
    var r := BCH.Run(ZERO, one + gap);
    BCH.RunLinear(r, ZERO, [z], [c]);
    BCH.RunShift(ZERO, [c]);
    BCH.AddZeros(r);
    assert BCH.Add([z], [c]) == [c] by {
      assert BCH.Cancels(c) && BCH.Commutes(c, z);
      AddOne(z, c);
    }
    BCH.AddSolve(BCH.Run(r, [z]), ZERO[..7] + [c], ZERO);
    BCH.AddZeros(BCH.Run(r, [z]));
    CodewordIff(one + gap + [c]);
    TwoSymbolsIff(Sym(1), n - 1, c);
  }

  lemma LastSymbol(a: Symbol, b: Symbol)
    ensures ZERO[..7] + [a] == ZERO[..7] + [b] <==> a == b
  {
    assert (ZERO[..7] + [a])[7] == a && (ZERO[..7] + [b])[7] == b;
  }

  lemma AddOne(a: Symbol, b: Symbol)
    ensures BCH.Add([a], [b]) == [BCH.add(a, b)]
  {
  }

  lemma OppositePowers(m: nat)
    ensures m % 1025 == 1024 * m % 1025 <==> m % 1025 == 0
  {
  }

  // Data that differ in two symbols have the same checksum if and only if the distance of the two is a
  // multiple of 1025 and they differ in the same way.
  lemma TwoErrorsIff(before: seq<Symbol>, a: Symbol, a': Symbol, mid: seq<Symbol>, b: Symbol, b': Symbol,
                     after: seq<Symbol>)
    requires a != a'
    ensures Checksum(before + [a] + mid + [b] + after) == Checksum(before + [a'] + mid + [b'] + after) <==>
            (|mid| + 1) % 1025 == 0 && Plus(a, a') == Plus(b, b')
  {
    hide Checksum, Plus, BCH.Add, BCH.Zeros;
    var x, y := [a] + mid + [b], [a'] + mid + [b'];
    assert before + [a] + mid + [b] + after == before + x + after;
    assert before + [a'] + mid + [b'] + after == before + y + after;
    SameChecksumIff(before, x, y, after);
    ErrorDifference(a, a', mid, b, b');
    DifferentSymbols(a, a');
    TwoSymbolsIff(Plus(a, a'), |mid|, Plus(b, b'));
  }

  lemma ErrorDifference(a: Symbol, a': Symbol, mid: seq<Symbol>, b: Symbol, b': Symbol)
    ensures BCH.Add([a] + mid + [b], [a'] + mid + [b']) == [Plus(a, a')] + BCH.Zeros(|mid|) + [Plus(b, b')]
  {
    hide Xor;
    BchLawful();
    BCH.AddZeros(mid);
    var d := BCH.Add([a] + mid + [b], [a'] + mid + [b']);
    forall i | 0 <= i < |d|
      ensures d[i] == ([Plus(a, a')] + BCH.Zeros(|mid|) + [Plus(b, b')])[i]
    {
      if 0 < i <= |mid| {
        assert d[i] == BCH.Add(mid, mid)[i - 1];
      }
    }
  }
}
