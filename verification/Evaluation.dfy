/**
 Polynomials over the field of 2^20 elements and their values at powers of z.  The coefficient of the
 highest power comes first.
 */
module Evaluation {
  import opened Bits
  import opened Polymod
  import opened ExtensionField
  import opened FieldValues
  import opened SymbolField

  type Polynomial = seq<Element>

  // p(z^k)
  function Value(k: nat, p: Polynomial): Element {
    if p == [] then NOTHING else Xor(Shifts(p[0], k * (|p| - 1)), Value(k, p[1..]))
  }

  function Sum(p: Polynomial, q: Polynomial): (r: Polynomial)
    requires |p| == |q|
    ensures |r| == |p|
  {
    seq(|p|, i requires 0 <= i < |p| => Xor(p[i], q[i]))
  }

  function Scaled(w: Element, p: Polynomial): (r: Polynomial)
    ensures |r| == |p|
  {
    seq(|p|, i requires 0 <= i < |p| => Mul(w, p[i]))
  }

  function Embedded(a: seq<Symbol>): (p: Polynomial)
    ensures |p| == |a|
  {
    seq(|a|, i requires 0 <= i < |a| => Embed(a[i]))
  }

  // ---------------------------------------------------------------- shifts

  lemma {:induction false} ShiftsAdds(v: Element, w: Element, n: nat)
    ensures Shifts(Xor(v, w), n) == Xor(Shifts(v, n), Shifts(w, n)) && Shifts(NOTHING, n) == NOTHING
    decreases n
  {
    hide Xor, TimesZ;
    if n > 0 {
      ShiftsAdds(v, w, n - 1);
      TimesZAdds(Shifts(v, n - 1), Shifts(w, n - 1));
    }
  }

  lemma ShiftsMul(v: Element, w: Element, n: nat)
    ensures Mul(v, Shifts(w, n)) == Shifts(Mul(v, w), n) == Mul(Shifts(v, n), w)
  {
    hide Act, Shifts;
    ActShifts(v, w, n);
    ActShifts(w, v, n);
    MulCommutes(v, w);
    MulCommutes(Shifts(v, n), w);
  }

  lemma ShiftsPeriod(w: Element)
    ensures Shifts(w, 1025) == w
  {
    hide Act, Shifts;
    ShiftsMul(w, UNIT, 1025);
    UnitLaws(w);
    Period();
    assert Z(1025) == Shifts(UNIT, 1025);
  }

  lemma {:induction false} ShiftsPeriods(w: Element, n: nat, j: nat)
    ensures Shifts(w, n + 1025 * j) == Shifts(w, n)
    decreases j
  {
    hide Shifts;
    if j > 0 {
      ShiftsPeriods(w, n, j - 1);
      ShiftsSum(w, 1025, n + 1025 * (j - 1));
      ShiftsPeriod(Shifts(w, n + 1025 * (j - 1)));
      assert 1025 + (n + 1025 * (j - 1)) == n + 1025 * j;
    }
  }

  lemma ShiftsModulo(w: Element, m: nat, n: nat)
    requires m % 1025 == n % 1025
    ensures Shifts(w, m) == Shifts(w, n)
  {
    hide Shifts;
    ShiftsPeriods(w, m % 1025, m / 1025);
    ShiftsPeriods(w, n % 1025, n / 1025);
  }

  // ---------------------------------------------------------------- values

  lemma {:induction false} ValueConcat(k: nat, p: Polynomial, q: Polynomial)
    ensures k * |q| >= 0
    ensures Value(k, p + q) == Xor(Shifts(Value(k, p), k * |q|), Value(k, q))
    decreases |p|
  {
    hide Xor, Shifts;
    if p == [] {
      assert p + q == q;
      ShiftsAdds(NOTHING, NOTHING, k * |q|);
      AddLaws(Value(k, q), NOTHING, NOTHING);
    } else {
      var rest := p[1..];
      ValueConcat(k, rest, q);
      assert p + q == [p[0]] + (rest + q);
      Distribute(k, |rest|, |q|);
      assert |rest| + |q| == |p + q| - 1;
      ShiftsSum(p[0], k * |q|, k * |rest|);
      ShiftsAdds(Shifts(p[0], k * |rest|), Value(k, rest), k * |q|);
      AddLaws(Shifts(p[0], k * (|p + q| - 1)), Shifts(Value(k, rest), k * |q|), Value(k, q));
    }
  }

  lemma Distribute(k: nat, m: nat, n: nat)
    ensures k * m >= 0 && k * n >= 0 && k * (m + n) == k * m + k * n
  {
  }

  lemma ValueOne(k: nat, w: Element)
    ensures Value(k, [w]) == w && Value(k, []) == NOTHING
  {
    hide Xor;
    AddLaws(w, NOTHING, NOTHING);
    assert [w][1..] == [];
    assert k * 0 == 0;
    assert Shifts(w, 0) == w;
  }

  lemma ValueLast(k: nat, p: Polynomial, w: Element)
    ensures Value(k, p + [w]) == Xor(Shifts(Value(k, p), k), w)
  {
    hide Value, Shifts, Xor;
    ValueConcat(k, p, [w]);
    ValueOne(k, w);
    assert k * 1 == k;
  }

  lemma {:induction false} ValueSum(k: nat, p: Polynomial, q: Polynomial)
    requires |p| == |q|
    ensures Value(k, Sum(p, q)) == Xor(Value(k, p), Value(k, q))
    decreases |p|
  {
    hide Xor, Shifts;
    if p == [] {
      AddLaws(NOTHING, NOTHING, NOTHING);
      assert Sum(p, q) == [];
    } else {
      var e := k * (|p| - 1);
      ValueSum(k, p[1..], q[1..]);
      assert Sum(p, q)[1..] == Sum(p[1..], q[1..]);
      ShiftsAdds(p[0], q[0], e);
      AddSwap(Shifts(p[0], e), Shifts(q[0], e), Value(k, p[1..]), Value(k, q[1..]));
    }
  }

  lemma {:induction false} ValueScaled(k: nat, w: Element, p: Polynomial)
    ensures Value(k, Scaled(w, p)) == Mul(w, Value(k, p))
    decreases |p|
  {
    hide Xor, Shifts, Act;
    MulAdds(w, NOTHING, NOTHING);
    if p != [] {
      var e := k * (|p| - 1);
      ValueScaled(k, w, p[1..]);
      assert Scaled(w, p)[1..] == Scaled(w, p[1..]);
      ShiftsMul(w, p[0], e);
      MulAdds(w, Shifts(p[0], e), Value(k, p[1..]));
    }
  }

  lemma {:induction false} ValueNothing(k: nat, p: Polynomial)
    requires forall i :: 0 <= i < |p| ==> p[i] == NOTHING
    ensures Value(k, p) == NOTHING
    decreases |p|
  {
    hide Xor, Shifts;
    AddLaws(NOTHING, NOTHING, NOTHING);
    if p != [] {
      ValueNothing(k, p[1..]);
      ShiftsAdds(NOTHING, NOTHING, k * (|p| - 1));
    }
  }

  // The powers of z repeat after 1025.
  lemma {:induction false} ValueModulo(k: nat, m: nat, p: Polynomial)
    requires k % 1025 == m % 1025
    ensures Value(k, p) == Value(m, p)
    decreases |p|
  {
    hide Xor, Shifts;
    if p != [] {
      ValueModulo(k, m, p[1..]);
      ProductModulo(k, m, |p| - 1);
      ShiftsModulo(p[0], k * (|p| - 1), m * (|p| - 1));
    }
  }

  lemma {:induction false} ProductModulo(k: nat, m: nat, n: nat)
    requires k % 1025 == m % 1025
    ensures k * n >= 0 && m * n >= 0 && k * n % 1025 == m * n % 1025
  {
    if n > 0 {
      ProductModulo(k, m, n - 1);
      SumModulo(k * (n - 1), m * (n - 1), k, m);
      assert k * n == k * (n - 1) + k && m * n == m * (n - 1) + m;
    }
  }

  lemma SumModulo(a: nat, b: nat, c: nat, d: nat)
    requires a % 1025 == b % 1025 && c % 1025 == d % 1025
    ensures (a + c) % 1025 == (b + d) % 1025
  {
  }

  // ---------------------------------------------------------------- the register

  lemma EmbeddedConcat(a: seq<Symbol>, b: seq<Symbol>)
    ensures Embedded(a + b) == Embedded(a) + Embedded(b)
  {
  }

  lemma EmbeddedAdds(a: seq<Symbol>, b: seq<Symbol>)
    requires |a| == |b|
    ensures Embedded(BCH.Add(a, b)) == Sum(Embedded(a), Embedded(b))
  {
    hide Embed, Plus, Xor;
    forall i | 0 <= i < |a|
      ensures Embedded(BCH.Add(a, b))[i] == Sum(Embedded(a), Embedded(b))[i]
    {
      EmbedAdds(a[i], b[i]);
    }
  }

  lemma EmbeddedScaled(t: Symbol)
    ensures Embedded(BCH.Scaled(t)) == Scaled(Embed(t), Embedded(GENERATOR))
  {
    hide Embed, Times, Mul;
    forall i | 0 <= i < 8
      ensures Embedded(BCH.Scaled(t))[i] == Scaled(Embed(t), Embedded(GENERATOR))[i]
    {
      EmbedTimes(t, GENERATOR[i]);
    }
  }

  // x^8 and the rest of the generator have the same value: the whole of it vanishes.
  predicate IsRoot(k: nat) {
    Shifts(UNIT, k * 8) == Value(k, Embedded(GENERATOR))
  }

  // At a root of the generator the register keeps the value of what has been shifted in.
  lemma ValueStep(k: nat, r: Remainder, d: Symbol)
    requires IsRoot(k)
    ensures Value(k, Embedded(BCH.Step(r, d))) == Value(k, Embedded(r + [d]))
  {
    hide Embed, Xor, Shifts, Act, BCH.Scaled, BCH.Add, Embedded, Value;
    var t := Embed(r[0]);
    var rest := r[1..] + [d];
    EmbeddedAdds(rest, BCH.Scaled(r[0]));
    EmbeddedScaled(r[0]);
    ValueSum(k, Embedded(rest), Scaled(t, Embedded(GENERATOR)));
    ValueScaled(k, t, Embedded(GENERATOR));
    ShiftsMul(t, UNIT, k * 8);
    UnitLaws(t);
    assert r + [d] == [r[0]] + rest;
    EmbeddedConcat([r[0]], rest);
    EmbeddedOne(r[0]);
    ValueConcat(k, [t], Embedded(rest));
    ValueOne(k, t);
    AddLaws(Shifts(t, k * 8), Value(k, Embedded(rest)), NOTHING);
  }

  lemma EmbeddedOne(a: Symbol)
    ensures Embedded([a]) == [Embed(a)]
  {
  }

  lemma {:induction false} ValueRun(k: nat, r: Remainder, data: seq<Symbol>)
    requires IsRoot(k)
    ensures Value(k, Embedded(BCH.Run(r, data))) == Value(k, Embedded(r + data))
    decreases |data|
  {
    hide Embed, Xor, Shifts, BCH.Step, Embedded, Value, IsRoot;
    if data == [] {
      assert r + data == r;
    } else {
      var n := |data| - 1;
      var s := BCH.Run(r, data[..n]);
      ValueRun(k, r, data[..n]);
      ValueStep(k, s, data[n]);
      EmbeddedConcat(s, [data[n]]);
      EmbeddedConcat(r + data[..n], [data[n]]);
      assert r + data == (r + data[..n]) + [data[n]];
      EmbeddedOne(data[n]);
      ValueLast(k, Embedded(s), Embed(data[n]));
      ValueLast(k, Embedded(r + data[..n]), Embed(data[n]));
    }
  }
}
