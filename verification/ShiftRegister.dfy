/**
 Checksums computed by a linear shift register.

 A sequence of symbols is read as a polynomial, highest power first, with coefficients in a field
 of characteristic 2.  The register holds the remainder of that polynomial modulo a monic generator.
 Everything here holds for every such field and for generators of every degree; only the constant
 term of the generator is fixed, to one.
 */
module ShiftRegister {

  // generator: the coefficients below the leading one, highest power first.
  datatype Code<!T(==, !new)> = Code(zero: T, one: T, add: (T, T) -> T, mul: (T, T) -> T, generator: seq<T>) {

    // The laws are stated through named instances so that each proof picks the ones it needs.
    predicate Commutes(a: T, b: T) { add(a, b) == add(b, a) }

    predicate Associates(a: T, b: T, c: T) { add(add(a, b), c) == add(a, add(b, c)) }

    predicate Cancels(a: T) { add(a, zero) == a && add(a, a) == zero && mul(a, one) == a }

    predicate Distributes(a: T, b: T, c: T) { mul(add(a, b), c) == add(mul(a, c), mul(b, c)) }

    ghost predicate Lawful() {
      && |generator| >= 1
      && generator[|generator| - 1] == one
      && (forall a, b :: Commutes(a, b))
      && (forall a, b, c :: Associates(a, b, c))
      && (forall a :: Cancels(a))
      && (forall a, b, c :: Distributes(a, b, c))
    }

    function Degree(): nat { |generator| }

    function Add(a: seq<T>, b: seq<T>): (c: seq<T>)
      requires |a| == |b|
      ensures |c| == |a|
    {
      seq(|a|, i requires 0 <= i < |a| => add(a[i], b[i]))
    }

    function Zeros(n: nat): (z: seq<T>)
      ensures |z| == n
    {
      seq(n, _ => zero)
    }

    // t times the generator's lower coefficients.
    function Scaled(t: T): (s: seq<T>)
      ensures |s| == Degree()
    {
      seq(Degree(), i requires 0 <= i < Degree() => mul(t, generator[i]))
    }

    // r * x + d modulo the generator.
    function Step(r: seq<T>, d: T): (r': seq<T>)
      requires |r| == Degree() >= 1
      ensures |r'| == Degree()
    {
      Add(r[1..] + [d], Scaled(r[0]))
    }

    function Run(r: seq<T>, data: seq<T>): (r': seq<T>)
      requires |r| == Degree() >= 1
      ensures |r'| == Degree()
    {
      if |data| == 0 then r else Step(Run(r, data[..|data| - 1]), data[|data| - 1])
    }

    // ---------------------------------------------------------------- addition

    lemma AddAround(a: T, b: T, c: T)
      requires Lawful()
      ensures add(add(a, b), c) == add(add(a, c), b)
    {
      assert Associates(a, b, c) && Commutes(b, c) && Associates(a, c, b);
    }

    lemma AddSwap(a: T, b: T, c: T, d: T)
      requires Lawful()
      ensures add(add(a, b), add(c, d)) == add(add(a, c), add(b, d))
    {
      assert Associates(add(a, b), c, d) && Associates(add(a, c), b, d);
      AddAround(a, b, c);
    }

    lemma AddBack(a: T, b: T)
      requires Lawful()
      ensures add(add(a, b), b) == a
    {
      assert Associates(a, b, b) && Cancels(a) && Cancels(b);
    }

    lemma AddedTwice(a: seq<T>, b: seq<T>)
      requires Lawful() && |a| == |b|
      ensures Add(Add(a, b), b) == a
    {
      forall i | 0 <= i < |a|
        ensures Add(Add(a, b), b)[i] == a[i]
      {
        AddBack(a[i], b[i]);
      }
    }

    lemma AddSymmetric(a: seq<T>, b: seq<T>)
      requires Lawful() && |a| == |b|
      ensures Add(a, b) == Add(b, a)
    {
      forall i | 0 <= i < |a|
        ensures Add(a, b)[i] == Add(b, a)[i]
      {
        assert Commutes(a[i], b[i]);
      }
    }

    lemma AddZeros(a: seq<T>)
      requires Lawful()
      ensures Add(a, Zeros(|a|)) == a && Add(Zeros(|a|), a) == a && Add(a, a) == Zeros(|a|)
    {
      forall i | 0 <= i < |a|
        ensures add(a[i], zero) == a[i] && add(a[i], a[i]) == zero
      {
        assert Cancels(a[i]);
      }
      assert Add(a, Zeros(|a|)) == a;
      AddSymmetric(a, Zeros(|a|));
    }

    lemma AddSolve(a: seq<T>, b: seq<T>, c: seq<T>)
      requires Lawful() && |a| == |b| == |c|
      ensures Add(a, b) == c <==> b == Add(a, c)
    {
      AddSymmetric(a, b);
      AddSymmetric(a, c);
      AddedTwice(b, a);
      AddedTwice(c, a);
    }

    // ---------------------------------------------------------------- the register

    lemma {:induction false} RunConcat(r: seq<T>, a: seq<T>, b: seq<T>)
      requires |r| == Degree() >= 1
      ensures Run(r, a + b) == Run(Run(r, a), b)
      decreases |b|
    {
      if |b| == 0 {
        assert a + b == a;
      } else {
        var b' := b[..|b| - 1];
        RunConcat(r, a, b');
        assert (a + b)[..|a + b| - 1] == a + b';
      }
    }

    lemma RunOne(r: seq<T>, d: T)
      requires |r| == Degree() >= 1
      ensures Run(r, [d]) == Step(r, d)
    {
      assert [d][..0] == [];
      assert Run(r, []) == r;
    }

    lemma StepAt(r: seq<T>, d: T, i: nat)
      requires |r| == Degree() >= 1 && i < Degree()
      ensures Step(r, d)[i] == add(if i < Degree() - 1 then r[i + 1] else d, mul(r[0], generator[i]))
    {
    }

    lemma StepLinear(r: seq<T>, r': seq<T>, d: T, d': T)
      requires Lawful() && |r| == |r'| == Degree()
      ensures Step(Add(r, r'), add(d, d')) == Add(Step(r, d), Step(r', d'))
    {
      forall i | 0 <= i < Degree()
        ensures Step(Add(r, r'), add(d, d'))[i] == Add(Step(r, d), Step(r', d'))[i]
      {
        var s, s' := (r[1..] + [d])[i], (r'[1..] + [d'])[i];
        StepAt(Add(r, r'), add(d, d'), i);
        assert Distributes(r[0], r'[0], generator[i]);
        AddSwap(s, s', mul(r[0], generator[i]), mul(r'[0], generator[i]));
      }
    }

    lemma {:induction false} RunLinear(r: seq<T>, r': seq<T>, a: seq<T>, a': seq<T>)
      requires Lawful() && |r| == |r'| == Degree() && |a| == |a'|
      ensures Run(Add(r, r'), Add(a, a')) == Add(Run(r, a), Run(r', a'))
      decreases |a|
    {
      if |a| != 0 {
        var n := |a| - 1;
        RunLinear(r, r', a[..n], a'[..n]);
        assert Add(a, a')[..n] == Add(a[..n], a'[..n]);
        StepLinear(Run(r, a[..n]), Run(r', a'[..n]), a[n], a'[n]);
      }
    }

    // The generator ends in one, so the symbol that was shifted out can be read back.
    lemma StepInjective(r: seq<T>, r': seq<T>, d: T)
      requires Lawful() && |r| == |r'| == Degree()
      requires Step(r, d) == Step(r', d)
      ensures r == r'
    {
      var last := Degree() - 1;
      StepAt(r, d, last);
      StepAt(r', d, last);
      assert Cancels(r[0]) && Cancels(r'[0]);
      assert Commutes(d, r[0]) && Commutes(d, r'[0]);
      AddBack(r[0], d);
      AddBack(r'[0], d);
      assert r[0] == r'[0];
      forall i | 0 < i <= last
        ensures r[i] == r'[i]
      {
        StepAt(r, d, i - 1);
        StepAt(r', d, i - 1);
        AddBack(r[i], mul(r[0], generator[i - 1]));
        AddBack(r'[i], mul(r[0], generator[i - 1]));
      }
    }

    lemma {:induction false} RunInjective(r: seq<T>, r': seq<T>, data: seq<T>)
      requires Lawful() && |r| == |r'| == Degree()
      requires Run(r, data) == Run(r', data)
      ensures r == r'
      decreases |data|
    {
      if |data| != 0 {
        var n := |data| - 1;
        StepInjective(Run(r, data[..n]), Run(r', data[..n]), data[n]);
        RunInjective(r, r', data[..n]);
      }
    }

    lemma StepShift(r: seq<T>, d: T)
      requires Lawful() && |r| == Degree() && r[0] == zero
      ensures Step(r, d) == r[1..] + [d]
    {
      forall i | 0 <= i < Degree()
        ensures Step(r, d)[i] == (r[1..] + [d])[i]
      {
        var m := mul(zero, generator[i]);
        assert Cancels(zero) && Distributes(zero, zero, generator[i]) && Cancels(m);
        assert Cancels((r[1..] + [d])[i]);
      }
    }

    // As long as zeros are shifted out nothing is reduced.
    lemma {:induction false} RunShift(r: seq<T>, e: seq<T>)
      requires Lawful() && |e| <= |r| == Degree()
      requires forall i :: 0 <= i < |e| ==> r[i] == zero
      ensures Run(r, e) == r[|e|..] + e
      decreases |e|
    {
      if |e| != 0 {
        var n := |e| - 1;
        RunShift(r, e[..n]);
        StepShift(r[n..] + e[..n], e[n]);
        assert (r[n..] + e[..n])[1..] + [e[n]] == r[|e|..] + e;
      }
    }

    // ---------------------------------------------------------------- division with remainder

    // q * (x^Degree() + generator) + r by schoolbook multiplication: each coefficient of q
    // contributes itself and its multiple of the generator's lower coefficients.
    function MulAdd(q: seq<T>, r: seq<T>): (p: seq<T>)
      requires |r| == Degree()
      ensures |p| == |q| + Degree()
    {
      if |q| == 0 then r
      else
        var rest := MulAdd(q[1..], r);
        [q[0]] + Add(rest[..Degree()], Scaled(q[0])) + rest[Degree()..]
    }

    function Quotient(r: seq<T>, data: seq<T>): (q: seq<T>)
      requires |r| == Degree() >= 1
      ensures |q| == |data|
      decreases |data|
    {
      if |data| == 0 then [] else [r[0]] + Quotient(Step(r, data[0]), data[1..])
    }

    // Running the register over data divides the polynomial r ++ data by the generator.
    lemma {:induction false} DivisionIdentity(r: seq<T>, data: seq<T>)
      requires Lawful() && |r| == Degree()
      ensures r + data == MulAdd(Quotient(r, data), Run(r, data))
      decreases |data|
    {
      if |data| == 0 {
        assert r + data == r;
      } else {
        var r', rest := Step(r, data[0]), data[1..];
        var q := Quotient(r, data);
        assert q[0] == r[0] && q[1..] == Quotient(r', rest);
        assert Run(r, data) == Run(r', rest) by {
          assert data == [data[0]] + rest;
          RunConcat(r, [data[0]], rest);
          RunOne(r, data[0]);
        }
        DivisionIdentity(r', rest);
        assert (r' + rest)[..Degree()] == r' && (r' + rest)[Degree()..] == rest;
        AddedTwice(r[1..] + [data[0]], Scaled(r[0]));
        assert [r[0]] + (r[1..] + [data[0]]) + rest == r + data;
      }
    }

    lemma {:induction false} RemainderUnique(q: seq<T>, r: seq<T>, q': seq<T>, r': seq<T>)
      requires Lawful() && |q| == |q'| && |r| == |r'| == Degree()
      requires MulAdd(q, r) == MulAdd(q', r')
      ensures q == q' && r == r'
      decreases |q|
    {
      if |q| != 0 {
        var d := Degree();
        var p, p' := MulAdd(q[1..], r), MulAdd(q'[1..], r');
        var m, m' := MulAdd(q, r), MulAdd(q', r');
        assert q[0] == m[0] == m'[0] == q'[0];
        assert Add(p[..d], Scaled(q[0])) == m[1..d + 1] && Add(p'[..d], Scaled(q'[0])) == m'[1..d + 1];
        AddedTwice(p[..d], Scaled(q[0]));
        AddedTwice(p'[..d], Scaled(q'[0]));
        assert p[d..] == m[d + 1..] && p'[d..] == m'[d + 1..];
        assert p == p[..d] + p[d..] && p' == p'[..d] + p'[d..];
        RemainderUnique(q[1..], r, q'[1..], r');
        assert q == [q[0]] + q[1..] && q' == [q'[0]] + q'[1..];
      }
    }

    // The register holds the one remainder of r ++ data modulo the generator.
    lemma RemainderIffMultiple(r: seq<T>, data: seq<T>, s: seq<T>)
      requires Lawful() && |r| == |s| == Degree()
      ensures Run(r, data) == s <==> exists q: seq<T> :: |q| == |data| && r + data == MulAdd(q, s)
    {
      DivisionIdentity(r, data);
      if q: seq<T> :| |q| == |data| && r + data == MulAdd(q, s) {
        RemainderUnique(Quotient(r, data), Run(r, data), q, s);
      }
    }

    // ---------------------------------------------------------------- what such a checksum gives

    // A tail as long as the register can steer it anywhere, in exactly one way.
    lemma TailSteers(r: seq<T>, tail: seq<T>, target: seq<T>)
      requires Lawful() && |r| == |tail| == |target| == Degree()
      ensures Run(r, tail) == target <==> tail == Add(Run(r, Zeros(Degree())), target)
    {
      var z := Zeros(Degree());
      RunLinear(r, z, z, tail);
      AddZeros(r);
      AddZeros(tail);
      RunShift(z, tail);
      assert z[Degree()..] + tail == tail;
      AddSolve(Run(r, z), tail, target);
    }

    // Two runs from one remainder over differing windows, no longer than the register, stay
    // different whatever follows.
    lemma BurstSeparates(r: seq<T>, a: seq<T>, b: seq<T>, after: seq<T>)
      requires Lawful() && |r| == Degree() && |a| == |b| <= Degree()
      requires Run(Run(r, a), after) == Run(Run(r, b), after)
      ensures a == b
    {
      RunInjective(Run(r, a), Run(r, b), after);
      var z, e := Zeros(Degree()), Add(a, b);
      RunLinear(r, r, a, b);
      AddZeros(r);
      AddZeros(Run(r, a));
      RunShift(z, e);
      forall i | 0 <= i < |e|
        ensures e[i] == zero
      {
        assert z[i + (Degree() - |e|)] == (z[|e|..] + e)[i + (Degree() - |e|)];
      }
      assert e == Zeros(|a|);
      AddSolve(a, b, e);
      AddZeros(a);
    }
  }
}
