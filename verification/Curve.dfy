/**
 The group of an elliptic curve, by its laws: points form a group in which the base point g has
 order n, a point and its negative share their x coordinate and differ in the parity of y.
 */
module Curve {
  import opened Arithmetic
  import opened Wrappers
  import opened Bytes

  // n is the order of g, field the size of the field of coordinates.
  datatype Curve<!P(==, !new)> = Curve(
    n: nat, field: nat, zero: P, g: P, add: (P, P) -> P, neg: P -> P,
    x: P -> nat, odd: P -> bool, fromX: nat -> Option<P>)
  {
    predicate Associates(p: P, q: P, r: P) { add(add(p, q), r) == add(p, add(q, r)) }

    predicate Inverts(p: P) {
      add(p, zero) == p && add(zero, p) == p && add(p, neg(p)) == zero && add(neg(p), p) == zero
    }

    // Two points have the same x exactly when they are equal or opposite.
    predicate SharesX(p: P, q: P) {
      p != zero && q != zero ==> (x(p) == x(q) <==> p == q || p == neg(q))
    }

    predicate HasParity(p: P) {
      p != zero ==> odd(neg(p)) != odd(p) && x(p) < field
    }

    // fromX finds the point with an even y, if there is a point at all.
    predicate Lifts(p: P) {
      p != zero ==> fromX(x(p)) == Some(if odd(p) then neg(p) else p)
    }

    // Of a number that is not a coordinate nothing is known but that a point found for it is finite.
    predicate LiftsTo(v: nat) {
      fromX(v).Some? ==>
        fromX(v).value != zero && (v < field ==> x(fromX(v).value) == v && !odd(fromX(v).value))
    }

    ghost predicate OrderOfG() {
      && Mul(n, g) == zero
      && forall k: nat :: 0 < k < n ==> Mul(k, g) != zero
    }

    ghost predicate Lawful() {
      && 1 < n < TWO256 && field <= TWO256
      && (forall p, q, r :: Associates(p, q, r))
      && (forall p :: Inverts(p))
      && (forall p, q :: SharesX(p, q))
      && (forall p :: HasParity(p))
      && (forall p :: Lifts(p))
      && (forall v :: LiftsTo(v))
      && OrderOfG()
    }

    function Mul(k: nat, p: P): P {
      if k == 0 then zero else add(Mul(k - 1, p), p)
    }

    lemma {:induction false} MulAdd(a: nat, b: nat, p: P)
      requires Lawful()
      ensures Mul(a + b, p) == add(Mul(a, p), Mul(b, p))
      decreases b
    {
      if b == 0 {
        assert Inverts(Mul(a, p));
      } else {
        MulAdd(a, b - 1, p);
        assert Associates(Mul(a, p), Mul(b - 1, p), p);
      }
    }

    lemma {:induction false} MulOrder(q: nat)
      requires Lawful()
      ensures Mul(q * n, g) == zero
      decreases q
    {
      if q > 0 {
        MulOrder(q - 1);
        assert q * n == (q - 1) * n + n;
        MulAdd((q - 1) * n, n, g);
        assert Inverts(zero);
      }
    }

    // Scalars count modulo n only.
    lemma MulModulo(k: nat)
      requires Lawful()
      ensures n > 0 && Mul(k % n, g) == Mul(k, g)
      ensures Mul(k, g) == zero <==> k % n == 0
    {
      hide Lawful, Mul;
      assert n > 1 by { Bounds(); }
      var q, r := k / n, k % n;
      DivisionSplits(k, n);
      MulOrder(q);
      MulWrapped(q * n, r);
    }

    lemma Bounds()
      requires Lawful()
      ensures 1 < n < TWO256 && field <= TWO256
    {
    }

    lemma MulWrapped(m: nat, r: nat)
      requires Lawful() && r < n && Mul(m, g) == zero
      ensures Mul(m + r, g) == Mul(r, g)
      ensures Mul(r, g) == zero <==> r == 0
    {
      MulAdd(m, r, g);
      assert Inverts(Mul(r, g));
    }

    lemma NegUnique(p: P, q: P)
      requires Lawful() && add(p, q) == zero
      ensures p == neg(q) && q == neg(p)
    {
      assert Inverts(p) && Inverts(q) && Inverts(neg(q)) && Inverts(neg(p));
      assert Associates(p, q, neg(q)) && Associates(neg(p), p, q);
    }

    lemma NegNeg(p: P)
      requires Lawful()
      ensures neg(neg(p)) == p
      ensures p != zero ==> neg(p) != zero
    {
      assert Inverts(p);
      NegUnique(p, neg(p));
      assert Inverts(zero);
      NegUnique(zero, zero);
    }

    lemma MulNegative(k: nat)
      requires Lawful() && 0 < k < n
      ensures Mul(n - k, g) == neg(Mul(k, g))
    {
      MulAdd(n - k, k, g);
      NegUnique(Mul(n - k, g), Mul(k, g));
    }
  }

  // ---------------------------------------------------------------- the laws can be met

  // The order of secp256k1's base point.
  const ORDER: nat := 0xFFFFFFFF_FFFFFFFF_FFFFFFFF_FFFFFFFE_BAAEDCE6_AF48A03B_BFD25E8C_D0364141

  type Scalar = k: nat | k < ORDER

  function PlusMod(a: Scalar, b: Scalar): Scalar {
    if a + b < ORDER then a + b else a + b - ORDER
  }

  function NegMod(a: Scalar): Scalar {
    if a == 0 then 0 else ORDER - a
  }

  function AbsMod(a: Scalar): nat {
    if 2 * a < ORDER then a else ORDER - a
  }

  function IsOdd(a: Scalar): bool {
    a % 2 == 1
  }

  function EvenOf(v: nat): Option<Scalar> {
    if v == 0 || 2 * v >= ORDER then None else Some(if v % 2 == 0 then v else ORDER - v)
  }

  // The scalars themselves, with the smaller of k and -k for the x coordinate.
  function ScalarCurve(): Curve<Scalar> {
    Curve(ORDER, ORDER, 0, 1, PlusMod, NegMod, AbsMod, IsOdd, EvenOf)
  }

  lemma {:induction false} ScalarMul(k: nat)
    requires k < ORDER
    ensures ScalarCurve().Mul(k, 1) == k
  {
    if k > 0 {
      ScalarMul(k - 1);
    }
  }

  lemma ScalarGroup(p: Scalar, q: Scalar, r: Scalar)
    ensures PlusMod(PlusMod(p, q), r) == PlusMod(p, PlusMod(q, r))
    ensures PlusMod(p, 0) == p == PlusMod(0, p) && PlusMod(p, NegMod(p)) == 0 == PlusMod(NegMod(p), p)
  {
  }

  lemma ScalarCoordinates(p: Scalar, q: Scalar)
    requires p != 0 && q != 0
    ensures AbsMod(p) == AbsMod(q) <==> p == q || p == NegMod(q)
    ensures IsOdd(NegMod(p)) != IsOdd(p) && AbsMod(p) < ORDER
    ensures EvenOf(AbsMod(p)) == Some(if IsOdd(p) then NegMod(p) else p)
  {
  }

  lemma ScalarLifts(v: nat)
    requires EvenOf(v).Some?
    ensures EvenOf(v).value != 0 && AbsMod(EvenOf(v).value) == v && !IsOdd(EvenOf(v).value)
  {
  }

  lemma ScalarOrder()
    ensures ScalarCurve().OrderOfG()
  {
    hide PlusMod;
    var c := ScalarCurve();
    forall k: nat | 0 < k < ORDER
      ensures c.Mul(k, c.g) != c.zero
    {
      ScalarMul(k);
    }
    ScalarMul(ORDER - 1);
    assert c.Mul(ORDER, c.g) == c.add(c.Mul(ORDER - 1, c.g), c.g);
    assert PlusMod(ORDER - 1, 1) == 0 by { ScalarGroup(ORDER - 1, 0, 0); assert NegMod(ORDER - 1) == 1; }
  }

  // So the assumptions about curves are consistent: this one meets them all.
  lemma ScalarCurveLawful()
    ensures ScalarCurve().Lawful()
  {
    hide PlusMod, NegMod, AbsMod, IsOdd, EvenOf;
    var c := ScalarCurve();
    forall p: Scalar, q: Scalar, r: Scalar ensures c.Associates(p, q, r) {
      ScalarGroup(p, q, r);
    }
    forall p: Scalar ensures c.Inverts(p) && c.HasParity(p) && c.Lifts(p) {
      ScalarGroup(p, p, p);
      if p != 0 {
        ScalarCoordinates(p, p);
      }
    }
    forall p: Scalar, q: Scalar ensures c.SharesX(p, q) {
      if p != 0 && q != 0 {
        ScalarCoordinates(p, q);
      }
    }
    forall v: nat ensures c.LiftsTo(v) {
      if EvenOf(v).Some? {
        ScalarLifts(v);
      }
    }
    ScalarOrder();
  }
}
