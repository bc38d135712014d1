/**
 Strings of bits, most significant bit first, and the numbers they stand for.
 */
module Bits {
  import opened Arithmetic

  type Bitstring = seq<bool>

  function Zeros(n: nat): (z: Bitstring)
    ensures |z| == n
  {
    seq(n, _ => false)
  }

  function Ones(n: nat): (z: Bitstring)
    ensures |z| == n
  {
    seq(n, _ => true)
  }

  function Xor(a: Bitstring, b: Bitstring): (c: Bitstring)
    requires |a| == |b|
    ensures |c| == |a|
  {
    seq(|a|, i requires 0 <= i < |a| => a[i] != b[i])
  }

  function And(a: Bitstring, b: Bitstring): (c: Bitstring)
    requires |a| == |b|
    ensures |c| == |a|
  {
    seq(|a|, i requires 0 <= i < |a| => a[i] && b[i])
  }

  function Or(a: Bitstring, b: Bitstring): (c: Bitstring)
    requires |a| == |b|
    ensures |c| == |a|
  {
    seq(|a|, i requires 0 <= i < |a| => a[i] || b[i])
  }

  function ShiftLeft(a: Bitstring, n: nat): (c: Bitstring)
    requires n <= |a|
    ensures |c| == |a|
  {
    a[n..] + Zeros(n)
  }

  function ShiftRight(a: Bitstring, n: nat): (c: Bitstring)
    requires n <= |a|
    ensures |c| == |a|
  {
    Zeros(n) + a[..|a| - n]
  }

  // Repeats the sign.
  function ShiftRightSigned(a: Bitstring, n: nat): (c: Bitstring)
    requires n <= |a| && |a| > 0
    ensures |c| == |a|
  {
    seq(n, _ => a[0]) + a[..|a| - n]
  }

  lemma XorLaws(a: Bitstring, b: Bitstring)
    requires |a| == |b|
    ensures Xor(a, b) == Xor(b, a)
    ensures Xor(a, Zeros(|a|)) == a && Xor(Zeros(|a|), a) == a && Xor(a, a) == Zeros(|a|)
  {
  }

  lemma XorAssociates(a: Bitstring, b: Bitstring, c: Bitstring)
    requires |a| == |b| == |c|
    ensures Xor(Xor(a, b), c) == Xor(a, Xor(b, c))
  {
  }

  lemma XorSwap(a: Bitstring, b: Bitstring, c: Bitstring, d: Bitstring)
    requires |a| == |b| == |c| == |d|
    ensures Xor(Xor(a, b), Xor(c, d)) == Xor(Xor(a, c), Xor(b, d))
  {
  }

  lemma XorConcat(a: Bitstring, b: Bitstring, c: Bitstring, d: Bitstring)
    requires |a| == |b| && |c| == |d|
    ensures Xor(a + c, b + d) == Xor(a, b) + Xor(c, d)
  {
  }

  // ---------------------------------------------------------------- numbers

  function Pow2(n: nat): (p: nat)
    ensures p >= 1
  {
    if n == 0 then 1 else 2 * Pow2(n - 1)
  }

  lemma {:induction false} Pow2Sum(a: nat, b: nat)
    ensures Pow2(a + b) == Pow2(a) * Pow2(b)
    decreases b
  {
    if b > 0 {
      Pow2Sum(a, b - 1);
    }
  }

  // The w low bits of v.  A negative number is taken in two's complement.
  function ToBits(v: int, w: nat): (b: Bitstring)
    ensures |b| == w
    decreases w
  {
    if w == 0 then [] else ToBits(v / 2, w - 1) + [v % 2 == 1]
  }

  function FromBits(b: Bitstring): nat {
    if b == [] then 0 else 2 * FromBits(b[..|b| - 1]) + (if b[|b| - 1] then 1 else 0)
  }

  lemma {:induction false} FromToBits(v: int, w: nat)
    requires 0 <= v < Pow2(w)
    ensures FromBits(ToBits(v, w)) == v
    decreases w
  {
    if w > 0 {
      FromToBits(v / 2, w - 1);
      assert ToBits(v, w)[..w - 1] == ToBits(v / 2, w - 1);
    }
  }

  lemma {:induction false} ToFromBits(b: Bitstring)
    ensures FromBits(b) < Pow2(|b|)
    ensures ToBits(FromBits(b), |b|) == b
    decreases |b|
  {
    if b != [] {
      var high := b[..|b| - 1];
      ToFromBits(high);
      assert FromBits(b) / 2 == FromBits(high);
      assert b == high + [b[|b| - 1]];
    }
  }

  lemma {:induction false} FromZeros(n: nat)
    ensures FromBits(Zeros(n)) == 0
  {
    if n > 0 {
      FromZeros(n - 1);
      assert Zeros(n)[..n - 1] == Zeros(n - 1);
    }
  }

  // The upper bits are the quotient, the lower bits the number itself.
  lemma {:induction false} SplitBits(v: int, a: nat, b: nat)
    ensures ToBits(v, a + b) == ToBits(v / Pow2(b), a) + ToBits(v, b)
    decreases b
  {
    if b > 0 {
      SplitBits(v / 2, a, b - 1);
      DivideTwice(v, Pow2(b - 1));
      assert ToBits(v, a + b) == ToBits(v / 2, a + b - 1) + [v % 2 == 1];
      assert ToBits(v, b) == ToBits(v / 2, b - 1) + [v % 2 == 1];
    }
  }

  lemma DivideTwice(v: int, p: nat)
    requires p > 0
    ensures (v / 2) / p == v / (2 * p)
  {
    var q, r := (v / 2) / p, (v / 2) % p;
    assert v == 2 * (q * p + r) + v % 2;
    assert 2 * (q * p) == q * (2 * p);
    DivisionUnique(v, 2 * p, q, 2 * r + v % 2);
  }

  // Only the value modulo a power of two matters.
  lemma {:induction false} BitsModulo(v: int, w: nat, k: int)
    ensures ToBits(v + k * Pow2(w), w) == ToBits(v, w)
    decreases w
  {
    if w > 0 {
      var p := Pow2(w - 1);
      assert k * Pow2(w) == 2 * (k * p);
      assert (v + 2 * (k * p)) / 2 == v / 2 + k * p;
      BitsModulo(v / 2, w - 1, k);
    }
  }

  // A power of two less one is a mask.
  lemma {:induction false} MaskBits(k: nat, w: nat)
    requires k <= w
    ensures ToBits(Pow2(k) - 1, w) == Zeros(w - k) + Ones(k)
    decreases w
  {
    if w > 0 {
      if k > 0 {
        MaskBits(k - 1, w - 1);
        assert (Pow2(k) - 1) / 2 == Pow2(k - 1) - 1;
        assert Ones(k) == Ones(k - 1) + [true];
      } else {
        MaskBits(0, w - 1);
        assert Zeros(w) == Zeros(w - 1) + [false];
      }
    }
  }

  lemma AndMask(a: Bitstring, k: nat)
    requires k <= |a|
    ensures And(a, Zeros(|a| - k) + Ones(k)) == Zeros(|a| - k) + a[|a| - k..]
  {
  }

  // A small number occupies the low bits of a word.
  lemma {:induction false} SmallWord(n: nat, k: nat, w: nat)
    requires n < Pow2(k) && k <= w
    ensures ToBits(n, w) == Zeros(w - k) + ToBits(n, k)
    decreases w
  {
    if k == 0 {
      MaskBits(0, w);
    } else {
      SmallWord(n / 2, k - 1, w - 1);
    }
  }

  // Appending w bits multiplies by 2^w.
  lemma {:induction false} FromBitsConcat(a: Bitstring, b: Bitstring)
    ensures FromBits(a + b) == FromBits(a) * Pow2(|b|) + FromBits(b)
    decreases |b|
  {
    if b == [] {
      assert a + b == a;
    } else {
      var b' := b[..|b| - 1];
      FromBitsConcat(a, b');
      assert (a + b)[..|a + b| - 1] == a + b';
      assert FromBits(a) * Pow2(|b|) == 2 * (FromBits(a) * Pow2(|b'|));
    }
  }

  lemma FromOneBit(b: bool)
    ensures FromBits([b]) == if b then 1 else 0
  {
    assert [b][..0] == [];
  }

  lemma Pow2Of32()
    ensures Pow2(32) == 0x1_0000_0000 && Pow2(31) == 0x8000_0000
  {
    assert Pow2(4) == 16;
    assert Pow2(8) == 256;
    assert Pow2(12) == 0x1000;
    assert Pow2(16) == 0x1_0000;
    assert Pow2(20) == 0x10_0000;
    assert Pow2(24) == 0x100_0000;
    assert Pow2(28) == 0x1000_0000;
  }

  // A number in binary digits, without leading zeros.
  function Binary(n: nat): (b: Bitstring)
    ensures |b| >= 1
  {
    if n < 2 then [n == 1] else Binary(n / 2) + [n % 2 == 1]
  }

  // The last k digits, as far as there are so many.
  function LastBits(b: Bitstring, k: nat): Bitstring {
    if |b| <= k then b else b[|b| - k..]
  }

  lemma {:induction false} BinaryIsBits(n: nat)
    ensures Binary(n) == ToBits(n, |Binary(n)|) && n < Pow2(|Binary(n)|)
  {
    if n < 2 {
      assert ToBits(n, 1) == ToBits(n / 2, 0) + [n % 2 == 1];
      assert Pow2(1) == 2;
    } else {
      BinaryIsBits(n / 2);
    }
  }

  lemma {:induction false} BinaryLength(n: nat, w: nat)
    requires w >= 1 && n < Pow2(w)
    ensures |Binary(n)| <= w
    decreases w
  {
    if n >= 2 {
      assert w >= 2 by {
        assert Pow2(1) == 2;
      }
      BinaryLength(n / 2, w - 1);
    }
  }

  // Putting zeros in front and keeping w digits gives the number in w bits.
  lemma PaddedBinary(n: nat, w: nat)
    ensures LastBits(Zeros(w) + Binary(n), w) == ToBits(n, w)
  {
    hide ToBits, Binary, Pow2;
    BinaryIsBits(n);
    var k := |Binary(n)|;
    SmallWord(n, k, w + k);
    SplitBits(n, k, w);
  }

  // ---------------------------------------------------------------- JavaScript's 32-bit operands

  // The 32 bits JavaScript's bitwise operators see in a number.
  function Word(n: int): (w: Bitstring)
    ensures |w| == 32
  {
    ToBits(n, 32)
  }

  // The number they return for 32 bits.
  function Signed(w: Bitstring): int
    requires |w| == 32
  {
    if w[0] then FromBits(w) - 0x1_0000_0000 else FromBits(w)
  }

  // ---------------------------------------------------------------- sequences of numbers

  // The numbers written side by side, w bits each.
  function Join(xs: seq<int>, w: nat): Bitstring {
    if xs == [] then [] else Join(xs[..|xs| - 1], w) + ToBits(xs[|xs| - 1], w)
  }

  // A string of bits cut into numbers of w bits; what is left over at the end is dropped.
  function Chop(b: Bitstring, w: nat): seq<int>
    requires w > 0
    decreases |b|
  {
    if |b| < w then [] else [FromBits(b[..w])] + Chop(b[w..], w)
  }

  function Leftover(b: Bitstring, w: nat): (rest: Bitstring)
    requires w > 0
    ensures |rest| < w
    decreases |b|
  {
    if |b| < w then b else Leftover(b[w..], w)
  }

  predicate Fits(xs: seq<int>, w: nat) {
    forall i :: 0 <= i < |xs| ==> 0 <= xs[i] < Pow2(w)
  }

  lemma FitsFirst(x: int, xs: seq<int>, w: nat)
    ensures Fits([x] + xs, w) <==> 0 <= x < Pow2(w) && Fits(xs, w)
  {
    var ys := [x] + xs;
    if Fits(ys, w) {
      forall i | 0 <= i < |xs|
        ensures 0 <= xs[i] < Pow2(w)
      {
        assert xs[i] == ys[i + 1];
      }
      assert ys[0] == x;
    }
  }

  lemma {:induction false} JoinConcat(xs: seq<int>, ys: seq<int>, w: nat)
    ensures Join(xs + ys, w) == Join(xs, w) + Join(ys, w)
    decreases |ys|
  {
    hide Join, ToBits;
    JoinNone(w);
    if ys == [] {
      assert xs + ys == xs;
    } else {
      var ys', y := ys[..|ys| - 1], ys[|ys| - 1];
      JoinConcat(xs, ys', w);
      JoinLast(xs + ys', y, w);
      JoinLast(ys', y, w);
      assert ys == ys' + [y] && xs + ys == (xs + ys') + [y];
    }
  }

  lemma JoinNone(w: nat)
    ensures Join([], w) == [] && Fits([], w)
  {
  }

  lemma {:induction false} JoinLength(xs: seq<int>, w: nat)
    ensures |Join(xs, w)| == |xs| * w
    decreases |xs|
  {
    if xs != [] {
      JoinLength(xs[..|xs| - 1], w);
      assert |xs| * w == (|xs| - 1) * w + w;
    }
  }

  lemma JoinFirst(x: int, xs: seq<int>, w: nat)
    ensures Join([x] + xs, w) == ToBits(x, w) + Join(xs, w)
  {
    JoinConcat([x], xs, w);
    assert [x][..0] == [];
    assert Join([x], w) == Join([], w) + ToBits(x, w);
  }

  lemma ChopFirst(c: Bitstring, b: Bitstring, w: nat)
    requires |c| == w > 0
    ensures Chop(c + b, w) == [FromBits(c)] + Chop(b, w)
    ensures Leftover(c + b, w) == Leftover(b, w)
  {
    assert (c + b)[..w] == c && (c + b)[w..] == b;
  }

  lemma {:induction false} ChopAt(b: Bitstring, w: nat, i: nat)
    requires w > 0 && (i + 1) * w <= |b|
    ensures i < |Chop(b, w)| && i * w >= 0 && Chop(b, w)[i] == FromBits(b[i * w..(i + 1) * w])
    decreases i
  {
    hide FromBits;
    assert (i + 1) * w == i * w + w;
    if i > 0 {
      var b' := b[w..];
      assert i * w == (i - 1) * w + w;
      ChopAt(b', w, i - 1);
      assert b'[(i - 1) * w..i * w] == b[i * w..(i + 1) * w];
      assert |b| >= w && Chop(b, w) == [FromBits(b[..w])] + Chop(b', w);
    } else {
      assert b[0..w] == b[..w];
    }
  }

  lemma {:induction false} ChopLength(b: Bitstring, w: nat)
    requires w > 0
    ensures |Chop(b, w)| == |b| / w
    decreases |b|
  {
    hide FromBits;
    if |b| >= w {
      ChopLength(b[w..], w);
      var q, r := (|b| - w) / w, (|b| - w) % w;
      assert |b| == (q + 1) * w + r;
      DivisionUnique(|b|, w, q + 1, r);
    } else {
      DivisionUnique(|b|, w, 0, |b|);
    }
  }

  // Cutting undoes joining, whatever is left over.
  lemma {:induction false} ChopJoin(xs: seq<int>, rest: Bitstring, w: nat)
    requires Fits(xs, w) && |rest| < w
    ensures Chop(Join(xs, w) + rest, w) == xs
    ensures Leftover(Join(xs, w) + rest, w) == rest
    decreases |xs|
  {
    hide FromBits, ToBits, Fits, Join;
    JoinNone(w);
    if xs == [] {
      assert Join([], w) + rest == rest;
    } else {
      hide Chop, Leftover;
      var x, xs' := xs[0], xs[1..];
      assert xs == [x] + xs';
      FitsFirst(x, xs', w);
      JoinFirst(x, xs', w);
      ChopJoin(xs', rest, w);
      FromToBits(x, w);
      ChopFirst(ToBits(x, w), Join(xs', w) + rest, w);
      assert Join(xs, w) + rest == ToBits(x, w) + (Join(xs', w) + rest);
    }
  }

  lemma ChopShort(b: Bitstring, w: nat)
    requires |b| < w
    ensures Chop(b, w) == [] && Leftover(b, w) == b
  {
  }

  // Joining undoes cutting, except for what is left over.
  lemma {:induction false} JoinChop(b: Bitstring, w: nat)
    requires w > 0
    ensures b == Join(Chop(b, w), w) + Leftover(b, w)
    ensures Fits(Chop(b, w), w)
    decreases |b|
  {
    hide FromBits, ToBits, Fits, Join, Chop, Leftover, Pow2;
    JoinNone(w);
    if |b| < w {
      ChopShort(b, w);
    } else {
      var c, b' := b[..w], b[w..];
      assert b == c + b';
      JoinChop(b', w);
      ChopFirst(c, b', w);
      ToFromBits(c);
      var x, xs, rest := FromBits(c), Chop(b', w), Leftover(b', w);
      JoinFirst(x, xs, w);
      FitsFirst(x, xs, w);
      ConcatAssociates(c, Join(xs, w), rest);
    }
  }

  lemma ConcatAssociates(a: Bitstring, b: Bitstring, c: Bitstring)
    ensures a + (b + c) == (a + b) + c
  {
  }

  lemma FitsLast(xs: seq<int>, x: int, w: nat)
    ensures Fits(xs + [x], w) <==> Fits(xs, w) && 0 <= x < Pow2(w)
  {
    var ys := xs + [x];
    if Fits(ys, w) {
      forall i | 0 <= i < |xs|
        ensures 0 <= xs[i] < Pow2(w)
      {
        assert xs[i] == ys[i];
      }
      assert ys[|xs|] == x;
    }
  }

  lemma JoinLast(xs: seq<int>, x: int, w: nat)
    ensures Join(xs + [x], w) == Join(xs, w) + ToBits(x, w)
  {
    assert (xs + [x])[..|xs|] == xs;
  }

  lemma JoinInjective(xs: seq<int>, ys: seq<int>, w: nat)
    requires w > 0 && Fits(xs, w) && Fits(ys, w)
    requires Join(xs, w) == Join(ys, w)
    ensures xs == ys
  {
    ChopJoin(xs, [], w);
    ChopJoin(ys, [], w);
    assert Join(xs, w) + [] == Join(xs, w) && Join(ys, w) + [] == Join(ys, w);
  }

  // ---------------------------------------------------------------- single bits

  // Bit t of a number of w bits, the most significant one first.
  predicate BitOf(v: int, w: nat, t: nat)
    requires t < w
  {
    v / Pow2(w - 1 - t) % 2 == 1
  }

  lemma {:induction false} ToBitsAt(v: int, w: nat, t: nat)
    requires t < w
    ensures ToBits(v, w)[t] <==> BitOf(v, w, t)
    decreases w
  {
    if t < w - 1 {
      ToBitsAt(v / 2, w - 1, t);
      DivideTwice(v, Pow2(w - 2 - t));
    } else {
      assert Pow2(0) == 1;
    }
  }

  // The bits of numbers side by side are the bits of the numbers.
  lemma {:induction false} JoinAt(xs: seq<int>, w: nat, i: nat, t: nat)
    requires i < |xs| && t < w
    ensures i * w + t < |Join(xs, w)| == |xs| * w
    ensures Join(xs, w)[i * w + t] <==> BitOf(xs[i], w, t)
    decreases |xs|
  {
    hide ToBits, BitOf, Pow2;
    JoinLength(xs, w);
    var n := |xs| - 1;
    assert |xs| * w == n * w + w;
    JoinLength(xs[..n], w);
    if i < n {
      JoinAt(xs[..n], w, i, t);
    } else {
      ToBitsAt(xs[n], w, t);
    }
  }

  lemma BitOfBytes(xs: seq<int>, k: nat)
    requires k < 8 * |xs|
    ensures |Join(xs, 8)| == 8 * |xs| && (Join(xs, 8)[k] <==> BitOf(xs[k / 8], 8, k % 8))
  {
    hide Join, BitOf;
    JoinAt(xs, 8, k / 8, k % 8);
  }
}
