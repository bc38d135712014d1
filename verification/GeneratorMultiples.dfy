/**
 Multiples of the generator, coefficient by coefficient, and what they say about checksums.
 */
module GeneratorMultiples {
  import opened Bits
  import opened Polymod

  // A coefficient of a polynomial, zero where it has none.
  function At(q: seq<Symbol>, i: int): Symbol {
    if 0 <= i < |q| then q[i] else Zeros(5)
  }

  // Coefficient i of q * (x^8 + 19x^7 + 3x^6 + 25x^5 + 11x^4 + 25x^3 + 3x^2 + 19x + 1), highest power first.
  function Product(q: seq<Symbol>, i: int): Symbol {
    Plus(Plus(Plus(Plus(Plus(Plus(Plus(Plus(
      At(q, i), Times(At(q, i - 1), Sym(19))), Times(At(q, i - 2), Sym(3))), Times(At(q, i - 3), Sym(25))),
      Times(At(q, i - 4), Sym(11))), Times(At(q, i - 5), Sym(25))), Times(At(q, i - 6), Sym(3))),
      Times(At(q, i - 7), Sym(19))), Times(At(q, i - 8), Sym(1)))
  }

  // x^m plus the numbers, the last of m for the constant term, less 1; behind seven zeros.
  function LessOne(numbers: seq<int>, i: int): Symbol
    requires 0 <= i < |numbers| + 8
  {
    Plus(if i < 7 then Sym(0) else if i == 7 then Sym(1) else Sym5(numbers[i - 8]),
         if i == |numbers| + 7 then Sym(1) else Sym(0))
  }

  function Sym5(n: int): Symbol {
    ToBits(n, 5)
  }

  // x^m plus the numbers, less 1, is a multiple of the generator.
  ghost predicate LeavesOne(numbers: seq<int>) {
    exists q: seq<Symbol> ::
      |q| == |numbers| && forall i :: 0 <= i < |numbers| + 8 ==> LessOne(numbers, i) == Product(q, i)
  }

  // ---------------------------------------------------------------- coefficients of products

  // The first d products of coefficient i.
  function Partial(q: seq<Symbol>, i: int, d: nat): Symbol
    requires d <= 8
  {
    if d == 0 then At(q, i) else Plus(Partial(q, i, d - 1), Times(At(q, i - d), GENERATOR[d - 1]))
  }

  lemma PlusLaws(a: Symbol, b: Symbol, c: Symbol)
    ensures Plus(a, Zeros(5)) == a == Plus(Zeros(5), a) && Plus(a, a) == Zeros(5)
    ensures Plus(a, b) == Plus(b, a) && Plus(Plus(a, b), c) == Plus(a, Plus(b, c))
  {
    XorLaws(a, b);
    XorLaws(a, Zeros(5));
    XorAssociates(a, b, c);
  }

  lemma ZeroTimes(b: Symbol)
    ensures Times(Zeros(5), b) == Zeros(5)
  {
    hide Times;
    BchLawful();
    SmallSymbols();
    assert BCH.Distributes(Zeros(5), Zeros(5), b);
    PlusLaws(Zeros(5), Zeros(5), b);
    PlusLaws(Times(Zeros(5), b), b, b);
  }

  lemma AtNext(q: seq<Symbol>, i: int)
    requires q != []
    ensures At(q, i) == if i == 0 then q[0] else At(q[1..], i - 1)
    ensures At(q[1..], -1) == Zeros(5)
  {
  }

  // What the first coefficient of q adds to the product.
  function FirstPart(q: seq<Symbol>, i: int, d: nat): Symbol
    requires q != [] && d <= 8
  {
    if i == 0 then q[0] else if 1 <= i <= d then Times(q[0], GENERATOR[i - 1]) else Zeros(5)
  }

  lemma {:induction false} PartialNext(q: seq<Symbol>, i: int, d: nat)
    requires q != [] && d <= 8
    ensures Partial(q, i, d) == Plus(Partial(q[1..], i - 1, d), FirstPart(q, i, d))
    decreases d
  {
    hide Times, Plus, At;
    AtNext(q, i);
    if d == 0 {
      PlusLaws(At(q, i), At(q, i), At(q, i));
    } else {
      var rest := q[1..];
      PartialNext(q, i, d - 1);
      AtNext(q, i - d);
      ZeroTimes(GENERATOR[d - 1]);
      var a, b, c := Partial(rest, i - 1, d - 1), FirstPart(q, i, d - 1), Times(At(q, i - d), GENERATOR[d - 1]);
      PlusLaws(a, b, c);
      PlusLaws(a, c, b);
      PlusLaws(b, c, a);
      PlusLaws(c, c, c);
      if i == d {
        assert b == Zeros(5);
        PlusLaws(a, a, a);
      }
    }
  }

  lemma PartialNone(i: int, d: nat)
    requires d <= 8
    ensures Partial([], i, d) == Zeros(5)
  {
    hide Times, Plus;
    PlusLaws(Zeros(5), Zeros(5), Zeros(5));
    if d > 0 {
      PartialNone(i, d - 1);
      ZeroTimes(GENERATOR[d - 1]);
    }
  }

  // Multiplication coefficient by coefficient.
  lemma {:induction false} MulAddAt(q: seq<Symbol>, r: Remainder, i: nat)
    requires i < |q| + 8
    ensures BCH.MulAdd(q, r)[i] == Plus(Partial(q, i, 8), At(r, i - |q|))
    decreases |q|
  {
    hide Times, Plus, Partial;
    if q == [] {
      PartialNone(i, 8);
      PlusLaws(r[i], r[i], r[i]);
    } else {
      var rest := BCH.MulAdd(q[1..], r);
      PartialNext(q, i, 8);
      var p, f, a := Partial(q[1..], i - 1, 8), FirstPart(q, i, 8), At(r, i - |q|);
      if i == 0 {
        PartialBefore(q[1..], 8);
        PlusLaws(q[0], q[0], q[0]);
      } else {
        MulAddAt(q[1..], r, i - 1);
        PlusLaws(p, f, a);
        PlusLaws(p, a, f);
        PlusLaws(f, a, p);
        if i <= 8 {
          assert BCH.MulAdd(q, r)[i] == BCH.add(rest[i - 1], BCH.mul(q[0], GENERATOR[i - 1]));
        } else {
          assert BCH.MulAdd(q, r)[i] == rest[i - 1];
          PlusLaws(Plus(p, a), p, p);
        }
      }
    }
  }

  lemma {:induction false} PartialBefore(q: seq<Symbol>, d: nat)
    requires d <= 8
    ensures Partial(q, -1, d) == Zeros(5)
    decreases d
  {
    hide Times, Plus;
    PlusLaws(Zeros(5), Zeros(5), Zeros(5));
    if d > 0 {
      PartialBefore(q, d - 1);
      ZeroTimes(GENERATOR[d - 1]);
    }
  }

  lemma ProductIsPartial(q: seq<Symbol>, i: int)
    ensures Product(q, i) == Partial(q, i, 8)
  {
    hide Times, Plus, At, ToBits;
    assert Partial(q, i, 1) == Plus(At(q, i), Times(At(q, i - 1), Sym(19)));
    assert Partial(q, i, 2) == Plus(Partial(q, i, 1), Times(At(q, i - 2), Sym(3)));
    assert Partial(q, i, 3) == Plus(Partial(q, i, 2), Times(At(q, i - 3), Sym(25)));
    assert Partial(q, i, 4) == Plus(Partial(q, i, 3), Times(At(q, i - 4), Sym(11)));
    assert Partial(q, i, 5) == Plus(Partial(q, i, 4), Times(At(q, i - 5), Sym(25)));
    assert Partial(q, i, 6) == Plus(Partial(q, i, 5), Times(At(q, i - 6), Sym(3)));
    assert Partial(q, i, 7) == Plus(Partial(q, i, 6), Times(At(q, i - 7), Sym(19)));
    assert Partial(q, i, 8) == Plus(Partial(q, i, 7), Times(At(q, i - 8), Sym(1)));
  }

  // ---------------------------------------------------------------- checksums

  lemma CoefficientIff(numbers: seq<int>, q: seq<Symbol>, i: nat)
    requires |q| == |numbers| && i < |numbers| + 8
    ensures (ONE + Syms(numbers))[i] == BCH.MulAdd(q, ONE)[i] <==> LessOne(numbers, i) == Product(q, i)
  {
    hide Times, Plus, ToBits, Partial, Product, BCH.MulAdd;
    MulAddAt(q, ONE, i);
    ProductIsPartial(q, i);
    SmallSymbols();
    var c, p, one := (ONE + Syms(numbers))[i], Product(q, i), At(ONE, i - |q|);
    OneAt(i - |q|);
    assert LessOne(numbers, i) == Plus(c, one);
    PlusLaws(c, one, one);
    PlusLaws(p, one, one);
    PlusLaws(one, one, one);
  }

  lemma OneAt(i: int)
    requires i < 8
    ensures At(ONE, i) == if i == 7 then Sym(1) else Sym(0)
  {
    hide ToBits;
    SmallSymbols();
  }

  // The checksum of numbers is zero exactly if x^m plus the numbers, less 1, is a multiple of the generator.
  lemma ZeroIffLeavesOne(numbers: seq<int>)
    ensures Checksum(Syms(numbers)) == ZERO <==> LeavesOne(numbers)
  {
    hide Checksum, BCH.MulAdd, Product, LessOne, Syms;
    ChecksumZeroIffMultiple(Syms(numbers));
    SymsCount(numbers);
    forall q: seq<Symbol> | |q| == |numbers|
      ensures ONE + Syms(numbers) == BCH.MulAdd(q, ONE) <==>
              forall i :: 0 <= i < |numbers| + 8 ==> LessOne(numbers, i) == Product(q, i)
    {
      forall i | 0 <= i < |numbers| + 8
        ensures (ONE + Syms(numbers))[i] == BCH.MulAdd(q, ONE)[i] <==> LessOne(numbers, i) == Product(q, i)
      {
        CoefficientIff(numbers, q, i);
      }
    }
  }

  lemma SymsCount(numbers: seq<int>)
    ensures |Syms(numbers)| == |numbers|
  {
  }
}
