/**
 The same field in words of twenty bits, for computing in it.
 */
module FieldWords {
  import opened Bits
  import opened ExtensionField

  function Both(v: bv20, w: bv20): bv20 {
    v ^ w
  }

  function Shift(w: bv20): bv20 {
    w << 1
  }

  function If(x: bool, w: bv20): bv20 {
    if x then w else 0
  }

  function Push(w: bv20, x: bool): bv20 {
    Both(Shift(w), If(x, 1))
  }

  predicate Has(w: bv20) {
    w & 0x80000 != 0
  }

  // The last twenty bits of a string.
  function WordOf(b: Bitstring): bv20 {
    if b == [] then 0 else Push(WordOf(b[..|b| - 1]), b[|b| - 1])
  }

  function TopBit(n: nat): bv20 {
    if n == 0 then 1 else Shift(TopBit(n - 1))
  }

  function TimesZWord(w: bv20): bv20 {
    Both(Shift(w), If(Has(w), 0x26ec9))
  }

  // Takes in the bit in front of v.
  function MulOne(v: bv20, w: bv20, sum: bv20): bv20 {
    Both(TimesZWord(sum), If(Has(v), w))
  }

  function Shift4(v: bv20): bv20 {
    Shift(Shift(Shift(Shift(v))))
  }

  // Takes in four bits.
  function MulFour(v: bv20, w: bv20, sum: bv20): bv20 {
    MulOne(Shift(Shift(Shift(v))), w, MulOne(Shift(Shift(v)), w, MulOne(Shift(v), w, MulOne(v, w, sum))))
  }

  function MulWord(v: bv20, w: bv20): bv20 {
    MulFour(Shift4(Shift4(Shift4(Shift4(v)))), w, MulFour(Shift4(Shift4(Shift4(v))), w,
    MulFour(Shift4(Shift4(v)), w, MulFour(Shift4(v), w, MulFour(v, w, 0)))))
  }

  // ---------------------------------------------------------------- laws of words

  lemma BothLaws(u: bv20, v: bv20, w: bv20)
    ensures Both(u, Both(v, w)) == Both(Both(u, v), w)
    ensures Both(u, v) == Both(v, u) && Both(u, 0) == u && Both(u, u) == 0
  {
  }

  lemma ShiftBoth(v: bv20, w: bv20)
    ensures Shift(Both(v, w)) == Both(Shift(v), Shift(w)) && Shift(0) == 0
  {
  }

  lemma BothSwap(t: bv20, u: bv20, v: bv20, w: bv20)
    ensures Both(Both(t, u), Both(v, w)) == Both(Both(t, v), Both(u, w))
  {
    hide Both;
    BothLaws(Both(t, u), v, w);
    BothLaws(t, u, v);
    BothLaws(t, v, u);
    BothLaws(v, u, 0);
    BothLaws(Both(t, v), u, w);
  }

  lemma PushBoth(v: bv20, w: bv20, x: bool, y: bool)
    ensures Both(Push(v, x), Push(w, y)) == Push(Both(v, w), x != y)
  {
    hide Both, Shift;
    ShiftBoth(v, w);
    BothLaws(1, 0, 0);
    BothLaws(0, 1, 0);
    BothSwap(Shift(v), If(x, 1), Shift(w), If(y, 1));
  }

  lemma PushIf(v: bv20, t: bv20, x: bool, y: bool)
    ensures Push(Both(v, If(x, t)), y) == Both(Push(v, y), If(x, Shift(t)))
  {
    hide Both, Shift;
    ShiftBoth(v, If(x, t));
    ShiftBoth(v, v);
    BothSwap(Shift(v), If(x, Shift(t)), If(y, 1), 0);
    BothLaws(If(y, 1), 0, 0);
    BothLaws(If(x, Shift(t)), 0, 0);
  }

  // ---------------------------------------------------------------- strings and words

  lemma WordPush(b: Bitstring, x: bool)
    ensures WordOf([]) == 0 && WordOf(b + [x]) == Push(WordOf(b), x)
  {
    hide Push;
    assert (b + [x])[..|b|] == b;
  }

  lemma PushNothing(x: bool)
    ensures Both(0, 0) == 0 && Push(0, x) == Both(0, If(x, 1)) && Push(0, false) == 0
  {
  }

  lemma {:induction false} WordXor(a: Bitstring, b: Bitstring)
    requires |a| == |b|
    ensures WordOf(Xor(a, b)) == Both(WordOf(a), WordOf(b))
    decreases |a|
  {
    hide WordOf, Push, Both;
    WordPush(a, false);
    PushNothing(false);
    if a == [] {
      assert a == [] && b == [] && Xor(a, b) == [];
    } else {
      var n := |a| - 1;
      WordXor(a[..n], b[..n]);
      assert Xor(a, b) == Xor(a[..n], b[..n]) + [a[n] != b[n]];
      assert a == a[..n] + [a[n]] && b == b[..n] + [b[n]];
      WordPush(a[..n], a[n]);
      WordPush(b[..n], b[n]);
      WordPush(Xor(a[..n], b[..n]), a[n] != b[n]);
      PushBoth(WordOf(a[..n]), WordOf(b[..n]), a[n], b[n]);
    }
  }

  // A bit in front adds its power of two.
  lemma {:induction false} WordFront(x: bool, b: Bitstring)
    ensures WordOf([x] + b) == Both(WordOf(b), If(x, TopBit(|b|)))
    decreases |b|
  {
    hide WordOf, Push, Both, If;
    WordPush([], x);
    PushNothing(x);
    if b == [] {
      assert [x] + b == [] + [x];
    } else {
      var n := |b| - 1;
      WordFront(x, b[..n]);
      assert [x] + b == ([x] + b[..n]) + [b[n]] && b == b[..n] + [b[n]];
      WordPush([x] + b[..n], b[n]);
      WordPush(b[..n], b[n]);
      PushIf(WordOf(b[..n]), TopBit(n), x, b[n]);
    }
  }

  lemma Tops()
    ensures TopBit(20) == 0 && TopBit(19) == 0x80000
  {
    assert TopBit(4) == 0x10;
    assert TopBit(8) == 0x100;
    assert TopBit(12) == 0x1000;
    assert TopBit(16) == 0x10000;
  }

  // Bits n and above.
  function AboveBits(n: nat): bv20 {
    if n == 0 then 0xfffff else Shift(AboveBits(n - 1))
  }

  predicate Apart(v: bv20, w: bv20) {
    v & w == 0
  }

  lemma PushApart(v: bv20, m: bv20, x: bool)
    requires Apart(v, m)
    ensures Apart(Push(v, x), Shift(m))
  {
  }

  lemma NothingApart()
    ensures Apart(0, AboveBits(0))
  {
  }

  lemma {:induction false} WordBelow(b: Bitstring)
    ensures Apart(WordOf(b), AboveBits(|b|))
    decreases |b|
  {
    hide WordOf, Push, Apart;
    WordPush(b, false);
    NothingApart();
    if b != [] {
      var n := |b| - 1;
      WordBelow(b[..n]);
      assert b == b[..n] + [b[n]];
      WordPush(b[..n], b[n]);
      PushApart(WordOf(b[..n]), AboveBits(n), b[n]);
    }
  }

  lemma Aboves()
    ensures AboveBits(19) == 0x80000
  {
    assert AboveBits(4) == 0xffff0;
    assert AboveBits(8) == 0xfff00;
    assert AboveBits(12) == 0xff000;
    assert AboveBits(16) == 0xf0000;
  }

  lemma FrontBit(w: bv20, x: bool)
    ensures Both(w, If(x, 0)) == w && Push(w, false) == Shift(w)
    ensures Apart(w, 0x80000) ==> (x <==> Has(Both(w, If(x, 0x80000))))
  {
  }

  // Shifting left drops the bit in front.
  lemma WordDropped(b: Bitstring)
    requires |b| == 20
    ensures WordOf(b[1..] + [false]) == Shift(WordOf(b)) && (b[0] <==> Has(WordOf(b)))
  {
    hide WordOf, TopBit, AboveBits, Shift, Push, Both, If, Has, Apart;
    Tops();
    Aboves();
    WordPush(b, false);
    assert b + [false] == [b[0]] + (b[1..] + [false]);
    WordFront(b[0], b[1..] + [false]);
    FrontBit(WordOf(b[1..] + [false]), b[0]);
    FrontBit(WordOf(b), b[0]);
    assert b == [b[0]] + b[1..];
    WordFront(b[0], b[1..]);
    WordBelow(b[1..]);
    FrontBit(WordOf(b[1..]), b[0]);
  }

  function PushFour(w: bv20, p: bool, q: bool, r: bool, s: bool): bv20 {
    Push(Push(Push(Push(w, p), q), r), s)
  }

  // One more hexadecimal digit.
  lemma Digit(b: Bitstring, w: bv20, p: bool, q: bool, r: bool, s: bool, w': bv20)
    requires WordOf(b) == w && PushFour(w, p, q, r, s) == w'
    ensures WordOf(b + [p, q, r, s]) == w'
  {
    hide WordOf, Push;
    WordPush(b, p);
    WordPush(b + [p], q);
    WordPush(b + [p] + [q], r);
    WordPush(b + [p] + [q] + [r], s);
    assert b + [p, q, r, s] == b + [p] + [q] + [r] + [s];
  }

  lemma TailWord()
    ensures WordOf(TAIL) == 0x26ec9
  {
    hide WordOf;
    WordPush([], false);
    var b0: Bitstring := [];
    Digit(b0, 0, false, false, true, false, 0x2);
    var b1: Bitstring := b0 + [false, false, true, false];
    Digit(b1, 0x2, false, true, true, false, 0x26);
    var b2: Bitstring := b1 + [false, true, true, false];
    Digit(b2, 0x26, true, true, true, false, 0x26e);
    var b3: Bitstring := b2 + [true, true, true, false];
    Digit(b3, 0x26e, true, true, false, false, 0x26ec);
    var b4: Bitstring := b3 + [true, true, false, false];
    Digit(b4, 0x26ec, true, false, false, true, 0x26ec9);
    var b5: Bitstring := b4 + [true, false, false, true];
    assert b5 == TAIL;
  }

  // ---------------------------------------------------------------- products

  lemma TimesZIsWord(w: Element)
    ensures WordOf(TimesZ(w)) == TimesZWord(WordOf(w))
  {
    hide WordOf, Shift, Both, Has, Xor, TAIL;
    WordDropped(w);
    WordXor(w[1..] + [false], Chosen(w[0], TAIL));
    TailWord();
    ChosenIsWord(w[0], TAIL);
  }

  lemma ChosenIsWord(x: bool, w: Element)
    ensures WordOf(Chosen(x, w)) == If(x, WordOf(w))
  {
    hide WordOf;
    NothingWord();
  }

  lemma NothingWord()
    ensures WordOf(NOTHING) == 0 && WordOf(UNIT) == 1
  {
    hide WordOf, Push;
    ZerosWord(20);
    ZerosWord(19);
    WordPush(Zeros(19), true);
    OneWord();
  }

  lemma OneWord()
    ensures Push(0, true) == 1
  {
  }

  lemma {:induction false} ZerosWord(n: nat)
    ensures WordOf(Zeros(n)) == 0
  {
    hide WordOf, Push;
    WordPush([], false);
    PushNothing(false);
    if n > 0 {
      ZerosWord(n - 1);
      assert Zeros(n) == Zeros(n - 1) + [false];
      WordPush(Zeros(n - 1), false);
    } else {
      assert Zeros(0) == [];
    }
  }

  function Dropped(b: Bitstring): (d: Bitstring)
    requires |b| == 20
    ensures |d| == 20
  {
    b[1..] + [false]
  }

  function Dropped4(b: Bitstring): (d: Bitstring)
    requires |b| == 20
    ensures |d| == 20
  {
    Dropped(Dropped(Dropped(Dropped(b))))
  }

  lemma OneAct(done: Bitstring, q: Bitstring, w: Element)
    requires |q| == 20
    ensures WordOf(Act(done + [q[0]], w)) == MulOne(WordOf(q), WordOf(w), WordOf(Act(done, w)))
    ensures WordOf(Dropped(q)) == Shift(WordOf(q))
  {
    hide WordOf, Act, TimesZ, TimesZWord, Both, Shift, Has, If, Chosen, Xor;
    WordDropped(q);
    ActLast(done, q[0], w);
    WordXor(TimesZ(Act(done, w)), Chosen(q[0], w));
    TimesZIsWord(Act(done, w));
    ChosenIsWord(q[0], w);
  }

  lemma FourDropped(q: Bitstring)
    requires |q| == 20
    ensures Dropped(q)[0] == q[1] && Dropped(Dropped(q))[0] == q[2] && Dropped(Dropped(Dropped(q)))[0] == q[3]
    ensures Dropped4(q) == q[4..] + Zeros(4)
  {
    assert Dropped(Dropped(q)) == q[2..] + Zeros(2);
  }

  lemma FourAct(done: Bitstring, q: Bitstring, w: Element)
    requires |q| == 20
    ensures WordOf(Act(done + q[..4], w)) == MulFour(WordOf(q), WordOf(w), WordOf(Act(done, w)))
    ensures WordOf(Dropped4(q)) == Shift4(WordOf(q))
  {
    hide WordOf, Act, Shift, MulOne, Dropped;
    FourDropped(q);
    var q1 := Dropped(q);
    var q2 := Dropped(q1);
    var q3 := Dropped(q2);
    OneAct(done, q, w);
    OneAct(done + [q[0]], q1, w);
    OneAct(done + [q[0]] + [q1[0]], q2, w);
    OneAct(done + [q[0]] + [q1[0]] + [q2[0]], q3, w);
    assert done + q[..4] == done + [q[0]] + [q[1]] + [q[2]] + [q[3]];
  }

  lemma AllDropped(v: Bitstring)
    requires |v| == 20
    ensures var v1 := Dropped4(v); var v2 := Dropped4(v1); var v3 := Dropped4(v2); var v4 := Dropped4(v3);
            v == v[..4] + v1[..4] + v2[..4] + v3[..4] + v4[..4]
  {
    hide Dropped4;
    var v1 := Dropped4(v);
    var v2 := Dropped4(v1);
    var v3 := Dropped4(v2);
    var v4 := Dropped4(v3);
    FourDropped(v);
    FourDropped(v1);
    FourDropped(v2);
    FourDropped(v3);
    assert v2 == v[8..] + Zeros(8);
    assert v3 == v[12..] + Zeros(12);
    assert v4 == v[16..] + Zeros(16);
    assert v1[..4] == v[4..8] && v2[..4] == v[8..12] && v3[..4] == v[12..16] && v4[..4] == v[16..];
  }

  lemma MulIsWord(v: Element, w: Element)
    ensures WordOf(Mul(v, w)) == MulWord(WordOf(v), WordOf(w))
  {
    hide WordOf, Act, MulFour, Shift4, Dropped4;
    var v1 := Dropped4(v);
    var v2 := Dropped4(v1);
    var v3 := Dropped4(v2);
    var v4 := Dropped4(v3);
    FourAct([], v, w);
    FourAct([] + v[..4], v1, w);
    FourAct([] + v[..4] + v1[..4], v2, w);
    FourAct([] + v[..4] + v1[..4] + v2[..4], v3, w);
    FourAct([] + v[..4] + v1[..4] + v2[..4] + v3[..4], v4, w);
    AllDropped(v);
    assert [] + v[..4] == v[..4];
    ActLast([], false, w);
    NothingWord();
  }

  // ---------------------------------------------------------------- equality

  // A word of zero is twenty zeros.
  lemma {:induction false} ZeroFrom(b: Bitstring, n: nat)
    requires |b| == 20 && n <= 20 && WordOf(b) == 0 && b[20 - n..] == Zeros(n)
    ensures b == Zeros(20)
    decreases 20 - n
  {
    hide WordOf;
    if n < 20 {
      WordDropped(b);
      NothingHas();
      assert !b[0];
      var d := b[1..] + [false];
      assert d[20 - (n + 1)..] == b[20 - n..] + [false] == Zeros(n + 1);
      ZeroFrom(d, n + 1);
      assert forall i :: 0 < i < 20 ==> b[i] == d[i - 1];
    } else {
      assert b == b[0..];
    }
  }

  lemma NothingHas()
    ensures Shift(0) == 0 && !Has(0)
  {
  }

  lemma WordInjective(a: Element, b: Element)
    requires WordOf(a) == WordOf(b)
    ensures a == b
  {
    hide WordOf, Both;
    WordXor(a, b);
    BothLaws(WordOf(a), 0, 0);
    assert Xor(a, b)[20..] == Zeros(0);
    ZeroFrom(Xor(a, b), 0);
    forall i | 0 <= i < 20
      ensures a[i] == b[i]
    {
      assert !Xor(a, b)[i];
    }
  }
}
