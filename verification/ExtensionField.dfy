/**
 The field of 2^20 elements, as bit strings: polynomials in z over the field of two elements, modulo
 z^20 + z^17 + z^14 + z^13 + z^11 + z^10 + z^9 + z^7 + z^6 + z^3 + 1.

 Only that it is a commutative ring is proved and used; where an element has to be a unit its inverse is given.
 */
module ExtensionField {
  import opened Bits

  type Element = w: Bitstring | |w| == 20 witness [
    false, false, false, false, false, false, false, false, false, false,
    false, false, false, false, false, false, false, false, false, false]

  const NOTHING: Element := Zeros(20)
  const UNIT: Element := Zeros(19) + [true]

  // z^20
  const TAIL: Element := [
    false, false, true, false, false, true, true, false, true, true,
    true, false, true, true, false, false, true, false, false, true]

  function Chosen(x: bool, w: Element): Element {
    if x then w else NOTHING
  }

  // z * w
  function TimesZ(w: Element): Element {
    Xor(w[1..] + [false], Chosen(w[0], TAIL))
  }

  // p * w, for a polynomial p of any degree.
  function Act(p: Bitstring, w: Element): Element {
    if p == [] then NOTHING else Xor(TimesZ(Act(p[..|p| - 1], w)), Chosen(p[|p| - 1], w))
  }

  function Mul(v: Element, w: Element): Element {
    Act(v, w)
  }

  // ---------------------------------------------------------------- addition

  lemma AddLaws(u: Element, v: Element, w: Element)
    ensures Xor(u, Xor(v, w)) == Xor(Xor(u, v), w) && Xor(u, v) == Xor(v, u)
    ensures Xor(u, NOTHING) == u && Xor(NOTHING, u) == u && Xor(u, u) == NOTHING
  {
  }

  lemma AddSwap(t: Element, u: Element, v: Element, w: Element)
    ensures Xor(Xor(t, u), Xor(v, w)) == Xor(Xor(t, v), Xor(u, w))
  {
    XorSwap(t, u, v, w);
  }

  lemma ChosenLaws(x: bool, y: bool, v: Element, w: Element)
    ensures Chosen(x, Xor(v, w)) == Xor(Chosen(x, v), Chosen(x, w))
    ensures Chosen(x != y, w) == Xor(Chosen(x, w), Chosen(y, w))
    ensures Chosen(x, NOTHING) == NOTHING == Chosen(false, w) && Chosen(true, w) == w
  {
    AddLaws(w, NOTHING, NOTHING);
    AddLaws(NOTHING, NOTHING, NOTHING);
  }

  lemma ShiftXor(v: Element, w: Element)
    ensures Xor(v, w)[1..] + [false] == Xor(v[1..] + [false], w[1..] + [false])
    ensures Xor(v, w)[0] == (v[0] != w[0])
  {
  }

  lemma TimesZAdds(v: Element, w: Element)
    ensures TimesZ(Xor(v, w)) == Xor(TimesZ(v), TimesZ(w)) && TimesZ(NOTHING) == NOTHING
  {
    hide Xor, Chosen, TAIL;
    ShiftXor(v, w);
    ChosenLaws(v[0], w[0], TAIL, TAIL);
    AddSwap(v[1..] + [false], w[1..] + [false], Chosen(v[0], TAIL), Chosen(w[0], TAIL));
    NothingShifted();
    AddLaws(NOTHING, NOTHING, NOTHING);
  }

  lemma NothingShifted()
    ensures NOTHING[1..] + [false] == NOTHING && !NOTHING[0]
  {
  }

  lemma TimesZChosen(x: bool, w: Element)
    ensures TimesZ(Chosen(x, w)) == Chosen(x, TimesZ(w))
  {
    hide TimesZ;
    TimesZAdds(w, w);
  }

  // ---------------------------------------------------------------- multiplication

  lemma ActLast(p: Bitstring, x: bool, w: Element)
    ensures Act([], w) == NOTHING && Act(p + [x], w) == Xor(TimesZ(Act(p, w)), Chosen(x, w))
  {
    hide TimesZ, Chosen, Xor;
    assert (p + [x])[..|p|] == p;
  }

  lemma {:induction false} ActAdds(p: Bitstring, v: Element, w: Element)
    ensures Act(p, Xor(v, w)) == Xor(Act(p, v), Act(p, w)) && Act(p, NOTHING) == NOTHING
    decreases |p|
  {
    hide TimesZ, Chosen, Xor;
    if p == [] {
      AddLaws(NOTHING, NOTHING, NOTHING);
    } else {
      var q, x := p[..|p| - 1], p[|p| - 1];
      ActAdds(q, v, w);
      TimesZAdds(Act(q, v), Act(q, w));
      ChosenLaws(x, x, v, w);
      AddSwap(TimesZ(Act(q, v)), TimesZ(Act(q, w)), Chosen(x, v), Chosen(x, w));
      AddLaws(NOTHING, NOTHING, NOTHING);
    }
  }

  lemma {:induction false} ActPlus(p: Bitstring, q: Bitstring, w: Element)
    requires |p| == |q|
    ensures Act(Xor(p, q), w) == Xor(Act(p, w), Act(q, w))
    decreases |p|
  {
    hide TimesZ, Chosen;
    if p == [] {
      assert Xor(p, q) == [] && q == [];
      AddLaws(NOTHING, NOTHING, NOTHING);
    } else {
      var n := |p| - 1;
      assert Xor(p, q)[..n] == Xor(p[..n], q[..n]);
      ActPlus(p[..n], q[..n], w);
      hide Xor;
      TimesZAdds(Act(p[..n], w), Act(q[..n], w));
      ChosenLaws(p[n], q[n], w, w);
      AddSwap(TimesZ(Act(p[..n], w)), TimesZ(Act(q[..n], w)), Chosen(p[n], w), Chosen(q[n], w));
    }
  }

  lemma {:induction false} ActTimesZ(p: Bitstring, w: Element)
    ensures Act(p, TimesZ(w)) == TimesZ(Act(p, w))
    decreases |p|
  {
    hide TimesZ, Chosen, Xor;
    TimesZAdds(w, w);
    if p != [] {
      var q, x := p[..|p| - 1], p[|p| - 1];
      ActTimesZ(q, w);
      TimesZAdds(TimesZ(Act(q, w)), Chosen(x, w));
      TimesZChosen(x, w);
    }
  }

  lemma ActChosen(p: Bitstring, x: bool, w: Element)
    ensures Act(p, Chosen(x, w)) == Chosen(x, Act(p, w))
  {
    hide Act;
    ActAdds(p, w, w);
  }

  // Polynomials act one after the other in any order.
  lemma {:induction false} ActCommutes(p: Bitstring, q: Bitstring, w: Element)
    ensures Act(p, Act(q, w)) == Act(q, Act(p, w))
    decreases |q|
  {
    hide TimesZ, Chosen, Xor;
    ActAdds(p, w, w);
    if q != [] {
      var r, x := q[..|q| - 1], q[|q| - 1];
      ActCommutes(p, r, w);
      ActAdds(p, TimesZ(Act(r, w)), Chosen(x, w));
      ActTimesZ(p, Act(r, w));
      ActChosen(p, x, w);
    }
  }

  lemma PushLow(w: Element, x: bool)
    requires !w[0]
    ensures Xor(TimesZ(w), Chosen(x, UNIT)) == w[1..] + [x]
  {
    XorLaws(w[1..] + [false], NOTHING);
  }

  // A polynomial of degree below 20 is its own value.
  lemma {:induction false} ActUnit(p: Bitstring)
    requires |p| <= 20
    ensures Act(p, UNIT) == Zeros(20 - |p|) + p
    decreases |p|
  {
    hide TimesZ, Chosen, Xor;
    if p == [] {
      assert Zeros(20) + p == NOTHING;
    } else {
      var q, x := p[..|p| - 1], p[|p| - 1];
      ActUnit(q);
      var w := Zeros(20 - |q|) + q;
      PushLow(w, x);
      assert w[1..] + [x] == Zeros(20 - |p|) + p;
    }
  }

  lemma UnitLaws(w: Element)
    ensures Mul(w, UNIT) == w == Mul(UNIT, w)
  {
    hide TimesZ, Chosen, Xor, Act;
    ActUnit(w);
    assert Zeros(0) + w == w;
    ActUnit([true]);
    assert Zeros(19) + [true] == UNIT;
    ActCommutes(w, UNIT, UNIT);
    ActUnit(UNIT);
    assert Zeros(0) + UNIT == UNIT;
  }

  // z^n * w
  function Shifts(w: Element, n: nat): Element {
    if n == 0 then w else TimesZ(Shifts(w, n - 1))
  }

  lemma {:induction false} ActShifts(p: Bitstring, w: Element, n: nat)
    ensures Act(p, Shifts(w, n)) == Shifts(Act(p, w), n)
    decreases n
  {
    hide TimesZ, Act;
    if n > 0 {
      ActShifts(p, w, n - 1);
      ActTimesZ(p, Shifts(w, n - 1));
    }
  }

  lemma {:induction false} ActFront(x: bool, q: Bitstring, w: Element)
    ensures Act([x] + q, w) == Xor(Chosen(x, Shifts(w, |q|)), Act(q, w))
    decreases |q|
  {
    hide TimesZ, Chosen, Xor, Act;
    ActLast([], x, w);
    TimesZAdds(w, w);
    AddLaws(Chosen(x, w), NOTHING, NOTHING);
    if q == [] {
      assert [x] + q == [] + [x];
    } else {
      var r, y := q[..|q| - 1], q[|q| - 1];
      ActFront(x, r, w);
      assert [x] + q == ([x] + r) + [y] && q == r + [y];
      ActLast([x] + r, y, w);
      ActLast(r, y, w);
      TimesZAdds(Chosen(x, Shifts(w, |r|)), Act(r, w));
      TimesZChosen(x, Shifts(w, |r|));
      AddLaws(Chosen(x, Shifts(w, |q|)), TimesZ(Act(r, w)), Chosen(y, w));
    }
  }

  lemma {:induction false} ShiftsOfUnit(n: nat)
    requires n < 20
    ensures Shifts(UNIT, n) == Zeros(19 - n) + [true] + Zeros(n)
  {
    hide Xor, TAIL, Chosen;
    if n == 0 {
      assert Zeros(19) + [true] + Zeros(0) == UNIT;
    } else {
      ShiftsOfUnit(n - 1);
      var w := Shifts(UNIT, n - 1);
      assert w == Zeros(20 - n) + [true] + Zeros(n - 1);
      assert !w[0];
      ChosenLaws(false, false, TAIL, TAIL);
      AddLaws(w[1..] + [false], NOTHING, NOTHING);
      assert w[1..] + [false] == Zeros(19 - n) + [true] + Zeros(n);
    }
  }

  lemma TwentyShifts(w: Element)
    ensures Shifts(w, 20) == Act(TAIL, w)
  {
    hide Xor, TAIL, Chosen, Act, Shifts;
    UnitLaws(w);
    UnitLaws(TAIL);
    ActShifts(w, UNIT, 20);
    TailOfUnit();
    ActCommutes(w, TAIL, UNIT);
  }

  lemma TailOfUnit()
    ensures Shifts(UNIT, 20) == TAIL
  {
    hide Xor, TAIL;
    ShiftsOfUnit(19);
    var w := Shifts(UNIT, 19);
    assert w == [true] + Zeros(19);
    assert w[1..] + [false] == NOTHING;
    AddLaws(TAIL, NOTHING, NOTHING);
  }

  // Multiplication is multiplication modulo the polynomial.
  lemma MulTimesZ(v: Element, w: Element)
    ensures Mul(TimesZ(v), w) == TimesZ(Mul(v, w))
  {
    hide Chosen, Xor, Act, Shifts, TAIL;
    var rest := v[1..] + [false];
    ActLast(v, false, w);
    ChosenLaws(false, false, w, w);
    AddLaws(TimesZ(Act(v, w)), NOTHING, NOTHING);
    assert v + [false] == [v[0]] + rest;
    ActFront(v[0], rest, w);
    TwentyShifts(w);
    ActPlus(rest, Chosen(v[0], TAIL), w);
    ChosenActs(v[0], TAIL, w);
    AddLaws(Act(rest, w), Chosen(v[0], Act(TAIL, w)), w);
  }

  lemma ChosenActs(x: bool, v: Element, w: Element)
    ensures Act(Chosen(x, v), w) == Chosen(x, Act(v, w))
  {
    hide Act;
    ActCommutes(NOTHING, w, UNIT);
    ActNothing(w);
  }

  lemma ActNothing(w: Element)
    ensures Act(NOTHING, w) == NOTHING
  {
    hide Act, Xor;
    ActPlus(NOTHING, NOTHING, w);
    AddLaws(NOTHING, NOTHING, NOTHING);
    AddLaws(Act(NOTHING, w), NOTHING, NOTHING);
  }

  lemma MulCommutes(v: Element, w: Element)
    ensures Mul(v, w) == Mul(w, v)
  {
    hide Act;
    UnitLaws(v);
    UnitLaws(w);
    ActCommutes(v, w, UNIT);
  }

  lemma {:induction false} ActActs(p: Bitstring, v: Element, w: Element)
    ensures Act(Act(p, v), w) == Act(p, Act(v, w))
    decreases |p|
  {
    hide TimesZ, Chosen, Xor;
    ActNothing(w);
    if p != [] {
      var q, x := p[..|p| - 1], p[|p| - 1];
      ActActs(q, v, w);
      ActPlus(TimesZ(Act(q, v)), Chosen(x, v), w);
      MulTimesZ(Act(q, v), w);
      ChosenActs(x, v, w);
    }
  }

  lemma MulAssociates(u: Element, v: Element, w: Element)
    ensures Mul(Mul(u, v), w) == Mul(u, Mul(v, w))
  {
    hide Act;
    ActActs(u, v, w);
  }

  lemma MulAdds(u: Element, v: Element, w: Element)
    ensures Mul(u, Xor(v, w)) == Xor(Mul(u, v), Mul(u, w))
    ensures Mul(Xor(u, v), w) == Xor(Mul(u, w), Mul(v, w))
    ensures Mul(u, NOTHING) == NOTHING == Mul(NOTHING, u)
  {
    hide Act, Xor;
    ActAdds(u, v, w);
    ActPlus(u, v, w);
    ActNothing(u);
  }
}
