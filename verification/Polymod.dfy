/**
 The checksum of the CashAddr format.

 The reference is the shift register over GF(32) with the generator
 x^8 + 19x^7 + 3x^6 + 25x^5 + 11x^4 + 25x^3 + 3x^2 + 19x + 1.  The program keeps the same eight
 symbols in an 8-bit and a signed 32-bit register; `Polymod` is its loop.
 */
module Polymod {
  import opened Bits
  import opened ShiftRegister

  // An element of GF(32) = GF(2)[a]/(a^5 + a^3 + 1); addition is exclusive or.
  type Symbol = s: Bitstring | |s| == 5 witness [false, false, false, false, false]

  // A polynomial of degree below 8, coefficient of x^7 first.
  type Remainder = r: seq<Symbol> | |r| == 8 witness seq(8, _ => [false, false, false, false, false])

  function Sym(n: nat): Symbol {
    ToBits(n, 5)
  }

  const ZERO: Remainder := [Sym(0), Sym(0), Sym(0), Sym(0), Sym(0), Sym(0), Sym(0), Sym(0)]
  const ONE: Remainder := [Sym(0), Sym(0), Sym(0), Sym(0), Sym(0), Sym(0), Sym(0), Sym(1)]
  const GENERATOR: Remainder := [Sym(19), Sym(3), Sym(25), Sym(11), Sym(25), Sym(3), Sym(19), Sym(1)]

  // a * x, reduced.
  function Double(a: Symbol): Symbol {
    var shifted := a[1..] + [false];
    if a[0] then Xor(shifted, [false, true, false, false, true]) else shifted
  }

  function Doubled(b: Symbol, i: nat): Symbol {
    if i == 0 then b else Double(Doubled(b, i - 1))
  }

  function Term(a: Symbol, b: Symbol, i: nat): Symbol
    requires i < 5
  {
    if a[4 - i] then Doubled(b, i) else Zeros(5)
  }

  // Shift-and-add multiplication by the n low bits of a.
  function TimesLow(a: Symbol, b: Symbol, n: nat): Symbol
    requires n <= 5
    decreases n
  {
    if n == 0 then Zeros(5) else Xor(TimesLow(a, b, n - 1), Term(a, b, n - 1))
  }

  function Times(a: Symbol, b: Symbol): Symbol {
    TimesLow(a, b, 5)
  }

  function Plus(a: Symbol, b: Symbol): Symbol {
    Xor(a, b)
  }

  const BCH: Code<Symbol> := Code(Sym(0), Sym(1), Plus, Times, GENERATOR)

  // What polymod is specified to return, as eight symbols.
  function Checksum(data: seq<Symbol>): Remainder {
    BCH.Add(BCH.Run(ONE, data), ONE)
  }

  // ---------------------------------------------------------------- the field

  lemma SmallSymbols()
    ensures Sym(0) == Zeros(5) && Sym(1) == [false, false, false, false, true]
  {
    assert ToBits(0, 5) == ToBits(0, 4) + [false];
    assert ToBits(0, 4) == ToBits(0, 3) + [false];
    assert ToBits(1, 5) == ToBits(0, 4) + [true];
  }

  lemma TermLinear(a: Symbol, a': Symbol, b: Symbol, i: nat)
    requires i < 5
    ensures Term(Xor(a, a'), b, i) == Xor(Term(a, b, i), Term(a', b, i))
  {
    XorLaws(Doubled(b, i), Zeros(5));
    XorLaws(Zeros(5), Zeros(5));
  }

  lemma {:induction false} TimesLinear(a: Symbol, a': Symbol, b: Symbol, n: nat)
    requires n <= 5
    ensures TimesLow(Xor(a, a'), b, n) == Xor(TimesLow(a, b, n), TimesLow(a', b, n))
    decreases n
  {
    if n == 0 {
      XorLaws(Zeros(5), Zeros(5));
    } else {
      TimesLinear(a, a', b, n - 1);
      TermLinear(a, a', b, n - 1);
      XorSwap(TimesLow(a, b, n - 1), TimesLow(a', b, n - 1), Term(a, b, n - 1), Term(a', b, n - 1));
    }
  }

  lemma TimesOne(a: Symbol)
    ensures Times(a, Sym(1)) == a
  {
    SmallSymbols();
    var one := Sym(1);
    assert Doubled(one, 1) == [false, false, false, true, false];
    assert Doubled(one, 2) == [false, false, true, false, false];
    assert Doubled(one, 3) == [false, true, false, false, false];
    assert Doubled(one, 4) == [true, false, false, false, false];
    assert TimesLow(a, one, 1) == Zeros(4) + a[4..];
    assert TimesLow(a, one, 2) == Zeros(3) + a[3..];
    assert TimesLow(a, one, 3) == Zeros(2) + a[2..];
    assert TimesLow(a, one, 4) == Zeros(1) + a[1..];
  }

  // GF(32) and this generator meet the assumptions of the shift register's theory.
  lemma BchLawful()
    ensures BCH.Lawful()
  {
    SmallSymbols();
    forall a: Symbol, b: Symbol ensures BCH.Commutes(a, b) {
      XorLaws(a, b);
    }
    forall a: Symbol, b: Symbol, c: Symbol ensures BCH.Associates(a, b, c) {
      XorAssociates(a, b, c);
    }
    forall a: Symbol ensures BCH.Cancels(a) {
      XorLaws(a, a);
      TimesOne(a);
    }
    forall a: Symbol, b: Symbol, c: Symbol ensures BCH.Distributes(a, b, c) {
      TimesLinear(a, b, c, 5);
    }
  }

  // ---------------------------------------------------------------- what the checksum promises

  lemma ZeroIsZeros()
    ensures ZERO == BCH.Zeros(8)
  {
  }

  lemma ChecksumZero(data: seq<Symbol>)
    ensures Checksum(data) == ZERO <==> BCH.Run(ONE, data) == ONE
  {
    BchLawful();
    ZeroIsZeros();
    BCH.AddSolve(BCH.Run(ONE, data), ONE, ZERO);
    BCH.AddZeros(BCH.Run(ONE, data));
  }

  // A sequence has checksum zero if and only if 1 ++ data leaves remainder 1 modulo the generator.
  lemma ChecksumZeroIffMultiple(data: seq<Symbol>)
    ensures Checksum(data) == ZERO <==>
            exists q: seq<Symbol> :: |q| == |data| && ONE + data == BCH.MulAdd(q, ONE)
  {
    BchLawful();
    ChecksumZero(data);
    BCH.RemainderIffMultiple(ONE, data, ONE);
  }

  // Appending eight symbols gives checksum zero for exactly one choice of them: the checksum of
  // the data followed by eight zeros.
  lemma ChecksumCompletes(data: seq<Symbol>, tail: Remainder)
    ensures Checksum(data + tail) == ZERO <==> tail == Checksum(data + ZERO)
  {
    BchLawful();
    ZeroIsZeros();
    ChecksumZero(data + tail);
    BCH.RunConcat(ONE, data, tail);
    BCH.RunConcat(ONE, data, ZERO);
    BCH.TailSteers(BCH.Run(ONE, data), tail, ONE);
  }

  // Two sequences that differ only inside a window of at most eight symbols have different checksums.
  lemma BurstDetected(before: seq<Symbol>, a: seq<Symbol>, b: seq<Symbol>, after: seq<Symbol>)
    requires |a| == |b| <= 8
    requires Checksum(before + a + after) == Checksum(before + b + after)
    ensures a == b
  {
    BchLawful();
    BCH.RunConcat(ONE, before + a, after);
    BCH.RunConcat(ONE, before + b, after);
    BCH.RunConcat(ONE, before, a);
    BCH.RunConcat(ONE, before, b);
    BCH.AddedTwice(BCH.Run(ONE, before + a + after), ONE);
    BCH.AddedTwice(BCH.Run(ONE, before + b + after), ONE);
    BCH.BurstSeparates(BCH.Run(ONE, before), a, b, after);
  }

  // A tail has the same checksum behind two beginnings only if these leave the same remainder.
  lemma TailFixesRemainder(p: seq<Symbol>, p': seq<Symbol>, tail: seq<Symbol>)
    requires Checksum(p + tail) == Checksum(p' + tail)
    ensures BCH.Run(ONE, p) == BCH.Run(ONE, p')
  {
    BchLawful();
    BCH.RunConcat(ONE, p, tail);
    BCH.RunConcat(ONE, p', tail);
    BCH.AddedTwice(BCH.Run(ONE, p + tail), ONE);
    BCH.AddedTwice(BCH.Run(ONE, p' + tail), ONE);
    BCH.RunInjective(BCH.Run(ONE, p), BCH.Run(ONE, p'), tail);
  }

  // ---------------------------------------------------------------- forty bits

  // The bits of the symbols side by side.
  function Flat(r: seq<Symbol>): Bitstring {
    if r == [] then [] else Flat(r[..|r| - 1]) + r[|r| - 1]
  }

  lemma {:induction false} FlatLength(r: seq<Symbol>)
    ensures |Flat(r)| == 5 * |r|
    decreases |r|
  {
    if r != [] {
      FlatLength(r[..|r| - 1]);
    }
  }

  lemma AddAt(a: seq<Symbol>, b: seq<Symbol>, i: nat)
    requires i < |a| == |b|
    ensures BCH.Add(a, b)[i] == Xor(a[i], b[i])
  {
    assert BCH.add(a[i], b[i]) == Plus(a[i], b[i]);
  }

  lemma {:induction false} FlatAdd(a: seq<Symbol>, b: seq<Symbol>)
    requires |a| == |b|
    ensures |Flat(a)| == |Flat(b)| == 5 * |a|
    ensures Flat(BCH.Add(a, b)) == Xor(Flat(a), Flat(b))
    decreases |a|
  {
    FlatLength(a);
    FlatLength(b);
    if a == [] {
      assert BCH.Add(a, b) == [] && Xor(Flat(a), Flat(b)) == [];
    } else {
      var n := |a| - 1;
      FlatAdd(a[..n], b[..n]);
      assert BCH.Add(a, b)[..n] == BCH.Add(a[..n], b[..n]);
      AddAt(a, b, n);
      XorConcat(Flat(a[..n]), Flat(b[..n]), a[n], b[n]);
    }
  }

  lemma {:induction false} FlatConcat(a: seq<Symbol>, b: seq<Symbol>)
    ensures Flat(a + b) == Flat(a) + Flat(b)
    decreases |b|
  {
    if b == [] {
      assert a + b == a;
    } else {
      FlatConcat(a, b[..|b| - 1]);
      assert (a + b)[..|a + b| - 1] == a + b[..|b| - 1];
    }
  }

  lemma FlatOne(a: Symbol)
    ensures Flat([a]) == a
  {
    assert [a][..0] == [];
  }

  // Shifting a symbol into the register shifts it into the forty bits.
  lemma FlatShift(r: Remainder, d: Symbol)
    ensures |Flat(r)| == 40 && Flat(r)[..5] == r[0]
    ensures Flat(r[1..] + [d]) == Flat(r)[5..] + d
  {
    FlatLength(r);
    assert r == [r[0]] + r[1..];
    FlatConcat([r[0]], r[1..]);
    FlatOne(r[0]);
    FlatConcat(r[1..], [d]);
    FlatOne(d);
  }

  // Adding up the constants selected by the n low bits of a symbol.
  function Selected(t: Symbol, constants: seq<Bitstring>, n: nat): (s: Bitstring)
    requires n <= 5 <= |constants|
    requires forall i :: 0 <= i < |constants| ==> |constants[i]| == 40
    ensures |s| == 40
  {
    if n == 0 then Zeros(40)
    else
      var rest := Selected(t, constants, n - 1);
      if t[5 - n] then Xor(rest, constants[n - 1]) else rest
  }

  // The generator times x^i in every coefficient.
  function DoubledGenerator(i: nat): Remainder {
    seq(8, j requires 0 <= j < 8 => Doubled(GENERATOR[j], i))
  }

  function GeneratorConstants(): (g: seq<Bitstring>)
    ensures |g| == 5 && forall i :: 0 <= i < 5 ==> g[i] == Flat(DoubledGenerator(i)) && |g[i]| == 40
  {
    FlatLength(DoubledGenerator(0));
    FlatLength(DoubledGenerator(1));
    FlatLength(DoubledGenerator(2));
    FlatLength(DoubledGenerator(3));
    FlatLength(DoubledGenerator(4));
    [Flat(DoubledGenerator(0)), Flat(DoubledGenerator(1)), Flat(DoubledGenerator(2)), Flat(DoubledGenerator(3)),
     Flat(DoubledGenerator(4))]
  }

  function ScaledLow(t: Symbol, n: nat): Remainder
    requires n <= 5
  {
    seq(8, j requires 0 <= j < 8 => TimesLow(t, GENERATOR[j], n))
  }

  lemma {:induction false} FlatZeros(r: seq<Symbol>)
    requires forall i :: 0 <= i < |r| ==> r[i] == Zeros(5)
    ensures Flat(r) == Zeros(5 * |r|)
    decreases |r|
  {
    if r != [] {
      FlatZeros(r[..|r| - 1]);
    }
  }

  lemma {:induction false} ScaledIsSelected(t: Symbol, n: nat)
    requires n <= 5
    ensures Flat(ScaledLow(t, n)) == Selected(t, GeneratorConstants(), n)
    decreases n
  {
    hide Flat, Doubled, Xor, ToBits;
    if n == 0 {
      FlatZeros(ScaledLow(t, 0));
    } else {
      ScaledIsSelected(t, n - 1);
      var low, top := ScaledLow(t, n - 1), DoubledGenerator(n - 1);
      if t[5 - n] {
        FlatAdd(low, top);
        forall j | 0 <= j < 8
          ensures ScaledLow(t, n)[j] == BCH.Add(low, top)[j]
        {
          AddAt(low, top, j);
        }
        assert ScaledLow(t, n) == BCH.Add(low, top);
      } else {
        forall j | 0 <= j < 8
          ensures ScaledLow(t, n)[j] == low[j]
        {
          XorLaws(low[j], Zeros(5));
        }
        assert ScaledLow(t, n) == low;
      }
    }
  }

  // ---------------------------------------------------------------- the program's constants

  const GENERATOR1: seq<int> := [0x98, 0x79, 0xf3, 0xae, 0x1e]
  const GENERATOR2: seq<int> := [0xf2bc8e61, 0xb76d99e2, 0x3e5fb3c4, 0x2eabe2a8, 0x4f43e470]

  // Digits in base 32, read as one number.
  function FromDigits(digits: seq<int>): int {
    if digits == [] then 0 else 32 * FromDigits(digits[..|digits| - 1]) + digits[|digits| - 1]
  }

  lemma Pow2Of5()
    ensures Pow2(5) == 32
  {
    assert Pow2(2) == 4;
  }

  lemma DigitsLast(digits: seq<int>, d: int)
    ensures FromDigits([]) == 0 && FromDigits(digits + [d]) == 32 * FromDigits(digits) + d
  {
    assert (digits + [d])[..|digits|] == digits;
  }

  lemma {:induction false} DigitsJoin(digits: seq<int>)
    requires Fits(digits, 5)
    ensures FromDigits(digits) >= 0
    ensures ToBits(FromDigits(digits), 5 * |digits|) == Join(digits, 5)
    decreases |digits|
  {
    hide Join, Fits, FromDigits;
    Bits.JoinNone(5);
    DigitsLast([], 0);
    if digits != [] {
      hide ToBits;
      var n := |digits| - 1;
      var high, d := digits[..n], digits[n];
      assert digits == high + [d];
      FitsLast(high, d, 5);
      Pow2Of5();
      hide Pow2;
      DigitsJoin(high);
      DigitsLast(high, d);
      PushDigit(FromDigits(high), d, 5 * n);
      JoinLast(high, d, 5);
      assert 5 * |digits| == 5 * n + 5;
    }
  }

  lemma PushDigit(high: nat, d: nat, k: nat)
    requires d < 32
    ensures ToBits(32 * high + d, k + 5) == ToBits(high, k) + ToBits(d, 5)
  {
    Pow2Of5();
    hide Pow2, ToBits;
    SplitBits(32 * high + d, k, 5);
    BitsModulo(d, 5, high);
  }

  function Syms(xs: seq<int>): seq<Symbol> {
    seq(|xs|, i requires 0 <= i < |xs| => ToBits(xs[i], 5))
  }

  lemma {:induction false} FlatSyms(xs: seq<int>)
    ensures Flat(Syms(xs)) == Join(xs, 5)
    decreases |xs|
  {
    if xs != [] {
      FlatSyms(xs[..|xs| - 1]);
      assert Syms(xs)[..|xs| - 1] == Syms(xs[..|xs| - 1]);
    }
  }

  lemma SymBits(n: nat, n1: nat, n2: nat, n3: nat, n4: nat)
    requires n1 == n / 2 && n2 == n1 / 2 && n3 == n2 / 2 && n4 == n3 / 2
    ensures Sym(n) == [n4 % 2 == 1, n3 % 2 == 1, n2 % 2 == 1, n1 % 2 == 1, n % 2 == 1]
  {
    assert ToBits(n4, 1) == [n4 % 2 == 1];
    assert ToBits(n3, 2) == ToBits(n4, 1) + [n3 % 2 == 1];
    assert ToBits(n2, 3) == ToBits(n3, 2) + [n2 % 2 == 1];
    assert ToBits(n1, 4) == ToBits(n2, 3) + [n1 % 2 == 1];
    assert ToBits(n, 5) == ToBits(n1, 4) + [n % 2 == 1];
  }

  // a, 2a, 4a, 8a and 16a for a coefficient of the generator.
  ghost predicate Doubles(a: nat, b: nat, c: nat, d: nat, e: nat) {
    && Doubled(Sym(a), 0) == Sym(a) && Doubled(Sym(a), 1) == Sym(b) && Doubled(Sym(a), 2) == Sym(c)
    && Doubled(Sym(a), 3) == Sym(d) && Doubled(Sym(a), 4) == Sym(e)
  }

  lemma DoublesByDouble(a: nat, b: nat, c: nat, d: nat, e: nat)
    requires Double(Sym(a)) == Sym(b) && Double(Sym(b)) == Sym(c)
    requires Double(Sym(c)) == Sym(d) && Double(Sym(d)) == Sym(e)
    ensures Doubles(a, b, c, d, e)
  {
    hide Double, ToBits;
    assert Doubled(Sym(a), 1) == Double(Doubled(Sym(a), 0));
    assert Doubled(Sym(a), 2) == Double(Doubled(Sym(a), 1));
    assert Doubled(Sym(a), 3) == Double(Doubled(Sym(a), 2));
    assert Doubled(Sym(a), 4) == Double(Doubled(Sym(a), 3));
  }

  lemma Doubles19()
    ensures Doubles(19, 15, 30, 21, 3)
  {
    hide ToBits, Doubles, Doubled;
    SymBits(19, 9, 4, 2, 1);
    SymBits(15, 7, 3, 1, 0);
    SymBits(30, 15, 7, 3, 1);
    SymBits(21, 10, 5, 2, 1);
    SymBits(3, 1, 0, 0, 0);
    DoublesByDouble(19, 15, 30, 21, 3);
  }

  lemma Doubles3()
    ensures Doubles(3, 6, 12, 24, 25)
  {
    hide ToBits, Doubles, Doubled;
    SymBits(3, 1, 0, 0, 0);
    SymBits(6, 3, 1, 0, 0);
    SymBits(12, 6, 3, 1, 0);
    SymBits(24, 12, 6, 3, 1);
    SymBits(25, 12, 6, 3, 1);
    DoublesByDouble(3, 6, 12, 24, 25);
  }

  lemma Doubles25()
    ensures Doubles(25, 27, 31, 23, 7)
  {
    hide ToBits, Doubles, Doubled;
    SymBits(25, 12, 6, 3, 1);
    SymBits(27, 13, 6, 3, 1);
    SymBits(31, 15, 7, 3, 1);
    SymBits(23, 11, 5, 2, 1);
    SymBits(7, 3, 1, 0, 0);
    DoublesByDouble(25, 27, 31, 23, 7);
  }

  lemma Doubles11()
    ensures Doubles(11, 22, 5, 10, 20)
  {
    hide ToBits, Doubles, Doubled;
    SymBits(11, 5, 2, 1, 0);
    SymBits(22, 11, 5, 2, 1);
    SymBits(5, 2, 1, 0, 0);
    SymBits(10, 5, 2, 1, 0);
    SymBits(20, 10, 5, 2, 1);
    DoublesByDouble(11, 22, 5, 10, 20);
  }

  lemma Doubles1()
    ensures Doubles(1, 2, 4, 8, 16)
  {
    hide ToBits, Doubles, Doubled;
    SymBits(1, 0, 0, 0, 0);
    SymBits(2, 1, 0, 0, 0);
    SymBits(4, 2, 1, 0, 0);
    SymBits(8, 4, 2, 1, 0);
    SymBits(16, 8, 4, 2, 1);
    DoublesByDouble(1, 2, 4, 8, 16);
  }

  // The coefficients of the generator times 1, x, x^2, x^3 and x^4.
  const ROWS: seq<seq<int>> := [
    [19, 3, 25, 11, 25, 3, 19, 1],
    [15, 6, 27, 22, 27, 6, 15, 2],
    [30, 12, 31, 5, 31, 12, 30, 4],
    [21, 24, 23, 10, 23, 24, 21, 8],
    [3, 25, 7, 20, 7, 25, 3, 16]
  ]

  lemma DoubledGeneratorRow(i: nat)
    requires i < 5
    ensures DoubledGenerator(i) == Syms(ROWS[i])
  {
    hide ToBits, Doubled;
    Doubles19();
    Doubles3();
    Doubles25();
    Doubles11();
    Doubles1();
    forall j | 0 <= j < 8
      ensures DoubledGenerator(i)[j] == Sym(ROWS[i][j])
    {
      assert DoubledGenerator(i)[j] == Doubled(GENERATOR[j], i);
    }
  }

  lemma RowValue(i: nat)
    requires i < 5
    ensures FromDigits(ROWS[i]) == GENERATOR1[i] * 0x1_0000_0000 + GENERATOR2[i]
    ensures Fits(ROWS[i], 5)
  {
    Pow2Of5();
    var r := ROWS[i];
    assert r[..1][..0] == [] && r[..2][..1] == r[..1] && r[..3][..2] == r[..2] && r[..4][..3] == r[..3];
    assert r[..5][..4] == r[..4] && r[..6][..5] == r[..5] && r[..7][..6] == r[..6] && r[..8] == r;
    assert FromDigits(r[..1]) == r[0];
    assert FromDigits(r[..2]) == 32 * FromDigits(r[..1]) + r[1];
    assert FromDigits(r[..3]) == 32 * FromDigits(r[..2]) + r[2];
    assert FromDigits(r[..4]) == 32 * FromDigits(r[..3]) + r[3];
    assert FromDigits(r[..5]) == 32 * FromDigits(r[..4]) + r[4];
    assert FromDigits(r[..6]) == 32 * FromDigits(r[..5]) + r[5];
    assert FromDigits(r[..7]) == 32 * FromDigits(r[..6]) + r[6];
    assert FromDigits(r) == 32 * FromDigits(r[..7]) + r[7];
  }

  // A number of 40 bits in two registers.
  lemma TwoRegisters(high: nat, low: nat)
    requires low < 0x1_0000_0000
    ensures ToBits(high * 0x1_0000_0000 + low, 40) == ToBits(high, 8) + ToBits(low, 32)
  {
    hide ToBits, Pow2;
    Pow2Of32();
    SplitBits(high * 0x1_0000_0000 + low, 8, 32);
    BitsModulo(low, 32, high);
  }

  // The five pairs of constants are the five multiples of the generator.
  lemma ConstantsAreGenerator(i: nat)
    requires i < 5
    ensures GeneratorConstants()[i] == ToBits(GENERATOR1[i], 8) + ToBits(GENERATOR2[i], 32)
  {
    hide ToBits, Pow2, Flat, FromDigits, Join;
    DoubledGeneratorRow(i);
    FlatSyms(ROWS[i]);
    RowValue(i);
    DigitsJoin(ROWS[i]);
    TwoRegisters(GENERATOR1[i], GENERATOR2[i]);
  }

  // ---------------------------------------------------------------- the program

  lemma WordOne()
    ensures Word(1) == Zeros(31) + [true]
  {
    MaskBits(1, 32);
    assert Pow2(1) == 2;
    assert Ones(1) == [true];
  }

  lemma MaskWords()
    ensures Word(7) == Zeros(29) + Ones(3) && Word(0x07ff_ffff) == Zeros(5) + Ones(27)
  {
    hide ToBits;
    MaskBits(3, 32);
    MaskBits(27, 32);
    assert Pow2(3) == 8;
    assert Pow2(7) == 128;
    assert Pow2(11) == 0x800;
    assert Pow2(15) == 0x8000;
    assert Pow2(19) == 0x8_0000;
    assert Pow2(23) == 0x80_0000;
    assert Pow2(27) == 0x800_0000;
  }

  // C & (1 << i) tests one bit.
  lemma TestBit(C: Bitstring, i: nat)
    requires |C| == 32 && i < 32
    ensures And(C, ShiftLeft(Word(1), i)) != Zeros(32) <==> C[31 - i]
  {
    WordOne();
    var m := ShiftLeft(Word(1), i);
    assert m[31 - i];
    assert forall k :: 0 <= k < 32 && k != 31 - i ==> !m[k];
    if C[31 - i] {
      assert And(C, m)[31 - i];
    } else {
      assert And(C, m) == Zeros(32);
    }
  }

  // Moving to the next symbol in the two registers is moving to the next symbol in the forty bits.
  lemma ShiftedRegisters(v: Bitstring, c0: Bitstring, c1: Bitstring, d: Bitstring)
    requires |v| == 40 && |d| == 5
    requires c0 == Zeros(24) + v[..8] && c1 == v[8..]
    ensures ShiftRight(c0, 3) == Zeros(27) + v[..5]
    ensures Or(ShiftLeft(And(c0, Zeros(29) + Ones(3)), 5), ShiftRight(c1, 27)) == Zeros(24) + (v[5..] + d)[..8]
    ensures Xor(ShiftLeft(And(c1, Zeros(5) + Ones(27)), 5), Zeros(27) + d) == (v[5..] + d)[8..]
  {
    AndMask(c0, 3);
    AndMask(c1, 27);
    assert ShiftLeft(And(c0, Zeros(29) + Ones(3)), 5) == Zeros(24) + v[5..8] + Zeros(5);
    assert ShiftRight(c1, 27) == Zeros(27) + v[8..13];
    assert ShiftLeft(And(c1, Zeros(5) + Ones(27)), 5) == v[13..] + Zeros(5);
  }

  // One round of the inner loop.
  lemma SelectedRound(v: Bitstring, t: Symbol, i: nat)
    requires |v| == 40 && i < 5
    ensures var x, y := Xor(v, Selected(t, GeneratorConstants(), i)), Xor(v, Selected(t, GeneratorConstants(), i + 1));
            if t[4 - i] then
              && Zeros(24) + y[..8] == Xor(Zeros(24) + x[..8], Word(GENERATOR1[i]))
              && y[8..] == Xor(x[8..], Word(GENERATOR2[i]))
            else y == x
  {
    hide ToBits, GeneratorConstants, Pow2;
    var g := GeneratorConstants()[i];
    var sel := Selected(t, GeneratorConstants(), i);
    ConstantsAreGenerator(i);
    if t[4 - i] {
      XorAssociates(v, sel, g);
      assert Pow2(8) == 256 by { Pow2Of8(); }
      SmallWord(GENERATOR1[i], 8, 32);
      var x := Xor(v, sel);
      XorConcat(Zeros(24), Zeros(24), x[..8], g[..8]);
      XorLaws(Zeros(24), Zeros(24));
    }
  }

  lemma Pow2Of8()
    ensures Pow2(8) == 256
  {
    assert Pow2(4) == 16;
  }

  // What the two registers amount to after a symbol has gone through both loops.
  lemma SymbolDone(r: Remainder, d: Symbol)
    ensures |Flat(r)| == 40
    ensures Xor(Flat(r)[5..] + d, Selected(r[0], GeneratorConstants(), 5)) == Flat(BCH.Step(r, d))
  {
    hide Flat, Selected, GeneratorConstants, Xor, TimesLow, ToBits;
    FlatShift(r, d);
    ScaledIsSelected(r[0], 5);
    forall j | 0 <= j < 8
      ensures BCH.Scaled(r[0])[j] == ScaledLow(r[0], 5)[j]
    {
      assert BCH.Scaled(r[0])[j] == BCH.mul(r[0], GENERATOR[j]) == Times(r[0], GENERATOR[j]);
    }
    assert BCH.Scaled(r[0]) == ScaledLow(r[0], 5);
    FlatAdd(r[1..] + [d], BCH.Scaled(r[0]));
  }

  // The final sign fix-up turns the signed reading of 32 bits into the unsigned one.
  lemma SignFixUp(w: Bitstring)
    requires |w| == 32
    ensures 0 <= FromBits(w) < 0x1_0000_0000
    ensures Signed(w) < 0 <==> w[0]
    ensures w[0] ==> Signed(Xor(w, ShiftLeft(Word(1), 31))) + 0x8000_0000 == FromBits(w)
  {
    hide ToBits, Pow2, FromBits;
    ToFromBits(w);
    Pow2Of32();
    if w[0] {
      WordOne();
      var x := Xor(w, ShiftLeft(Word(1), 31));
      assert x == [false] + w[1..] && w == [true] + w[1..];
      FromBitsConcat([false], w[1..]);
      FromBitsConcat([true], w[1..]);
      ToFromBits(w[1..]);
      assert FromBits([false]) == 0 && FromBits([true]) == 1 by { FromOneBit(false); FromOneBit(true); }
      assert Pow2(31) == 0x8000_0000 by { assert Pow2(32) == 2 * Pow2(31) by { Pow2Next(31); } }
    }
  }

  lemma Pow2Next(n: nat)
    ensures Pow2(n + 1) == 2 * Pow2(n)
  {
  }

  lemma FlatOneIsOne()
    ensures Flat(ONE) == Zeros(39) + [true]
  {
    SmallSymbols();
    FlatZeros(ONE[..7]);
    assert ONE[..7] + [Sym(1)] == ONE;
    FlatConcat(ONE[..7], [Sym(1)]);
    FlatOne(Sym(1));
  }

  // The last lines of the loop's function, for registers holding forty bits.
  method Combine(c0: Bitstring, c1: Bitstring, ghost v: Bitstring) returns (checksum: nat)
    requires |v| == 40 && c0 == Zeros(24) + v[..8] && c1 == v[8..]
    ensures checksum == FromBits(Xor(v, Zeros(39) + [true]))
  {
    hide ToBits, FromBits;
    WordOne();
    var low := Xor(c1, Word(1));
    ghost var x := Xor(v, Zeros(39) + [true]);
    assert x == v[..8] + low;
    FromBitsConcat(v[..8], low);
    FromBitsConcat(Zeros(24), v[..8]);
    FromZeros(24);
    Pow2Of32();
    SignFixUp(low);
    SignFixUp(c0);
    var n := Signed(low);
    if n < 0 {
      n := Signed(Xor(low, ShiftLeft(Word(1), 31)));
      n := n + 0x4000_0000 * 2;
    }
    checksum := Signed(c0) * 0x4000_0000 * 4 + n;
  }

  // The checksum of a sequence of numbers below 32, as one number of forty bits.
  ghost function ChecksumNumber(data: seq<int>): nat {
    FromBits(Flat(Checksum(Syms(data))))
  }

  // The registers before the first symbol.
  lemma StartRegisters()
    ensures |Flat(ONE)| == 40
    ensures Word(0) == Zeros(24) + Flat(ONE)[..8] && Word(1) == Flat(ONE)[8..]
  {
    hide Flat, ToBits;
    FlatOneIsOne();
    WordOne();
    MaskBits(0, 32);
  }

  // The registers once the next symbol has been shifted in.
  lemma SymbolShifted(r: Remainder, n: int)
    requires 0 <= n < 32
    ensures |Flat(r)| == 40
    ensures var c0, c1, v := Zeros(24) + Flat(r)[..8], Flat(r)[8..], Flat(r)[5..] + ToBits(n, 5);
            && ShiftRight(c0, 3) == Zeros(27) + r[0]
            && Or(ShiftLeft(And(c0, Word(7)), 5), ShiftRight(c1, 27)) == Zeros(24) + v[..8]
            && Xor(ShiftLeft(And(c1, Word(0x07ff_ffff)), 5), Word(n)) == v[8..]
  {
    hide Flat, ToBits, Xor, And, Or;
    FlatShift(r, ToBits(n, 5));
    MaskWords();
    Pow2Of5();
    SmallWord(n, 5, 32);
    ShiftedRegisters(Flat(r), Zeros(24) + Flat(r)[..8], Flat(r)[8..], ToBits(n, 5));
  }

  lemma FitsSymbol(data: seq<int>, j: nat)
    requires Fits(data, 5) && j < |data|
    ensures 0 <= data[j] < 32
  {
    Pow2Of5();
  }

  lemma RunNext(symbols: seq<Symbol>, j: nat)
    requires j < |symbols|
    ensures BCH.Run(ONE, symbols[..j + 1]) == BCH.Step(BCH.Run(ONE, symbols[..j]), symbols[j])
  {
    assert symbols[..j + 1][..j] == symbols[..j];
  }

  method Polymod(data: seq<int>) returns (checksum: nat)
    requires Fits(data, 5)
    ensures checksum == ChecksumNumber(data)
  {
    hide Flat, Selected, ToBits, GeneratorConstants, And, Or, BCH.Step, BCH.Run;
    var c0, c1, C := Word(0), Word(1), Word(0);
    ghost var symbols := Syms(data);
    ghost var r: Remainder := ONE;
    StartRegisters();
    SelectedNothing(ZERO[0]);
    assert symbols[..0] == [];
    for j := 0 to |data|
      invariant r == BCH.Run(ONE, symbols[..j])
      invariant |Flat(r)| == 40 && c0 == Zeros(24) + Flat(r)[..8] && c1 == Flat(r)[8..]
    {
      FitsSymbol(data, j);
      SymbolShifted(r, data[j]);
      C := ShiftRight(c0, 3);
      c0 := And(c0, Word(0x07));
      c0 := ShiftLeft(c0, 5);
      c0 := Or(c0, ShiftRight(c1, 27));
      c1 := And(c1, Word(0x07ff_ffff));
      c1 := ShiftLeft(c1, 5);
      c1 := Xor(c1, Word(data[j]));
      ghost var v := Flat(r)[5..] + symbols[j];
      XorLaws(v, v);
      SelectedNothing(r[0]);
      for i := 0 to |GENERATOR1|
        invariant c0 == Zeros(24) + Xor(v, Selected(r[0], GeneratorConstants(), i))[..8]
        invariant c1 == Xor(v, Selected(r[0], GeneratorConstants(), i))[8..]
      {
        TestBit(C, i);
        SelectedRound(v, r[0], i);
        if And(C, ShiftLeft(Word(1), i)) != Zeros(32) {
          c0 := Xor(c0, Word(GENERATOR1[i]));
          c1 := Xor(c1, Word(GENERATOR2[i]));
        }
      }
      SymbolDone(r, symbols[j]);
      RunNext(symbols, j);
      r := BCH.Step(r, symbols[j]);
    }
    assert symbols[..|data|] == symbols;
    FlatAdd(r, ONE);
    FlatOneIsOne();
    checksum := Combine(c0, c1, Flat(r));
  }

  lemma SelectedNothing(t: Symbol)
    ensures Selected(t, GeneratorConstants(), 0) == Zeros(40)
    ensures BCH.Run(ONE, []) == ONE
  {
  }

  lemma {:induction false} FlatInjective(a: seq<Symbol>, b: seq<Symbol>)
    requires |a| == |b| && Flat(a) == Flat(b)
    ensures a == b
    decreases |a|
  {
    if a != [] {
      var n := |a| - 1;
      FlatLength(a[..n]);
      FlatLength(b[..n]);
      assert Flat(a)[..5 * n] == Flat(a[..n]) && Flat(a)[5 * n..] == a[n];
      assert Flat(b)[..5 * n] == Flat(b[..n]) && Flat(b)[5 * n..] == b[n];
      FlatInjective(a[..n], b[..n]);
      assert a == a[..n] + [a[n]] && b == b[..n] + [b[n]];
    }
  }

  // The number is zero exactly when the eight symbols are.
  lemma NumberZero(data: seq<int>)
    ensures ChecksumNumber(data) < 0x100_0000_0000
    ensures ChecksumNumber(data) == 0 <==> Checksum(Syms(data)) == ZERO
  {
    hide Flat, ToBits, FromBits, Checksum;
    var c := Checksum(Syms(data));
    FlatLength(c);
    FlatLength(ZERO);
    ToFromBits(Flat(c));
    Pow2Of40();
    SmallSymbols();
    FlatZeros(ZERO);
    FromZeros(40);
    MaskBits(0, 40);
    if FromBits(Flat(c)) == 0 {
      FlatInjective(c, ZERO);
    }
  }

  lemma Pow2Of40()
    ensures Pow2(40) == 0x100_0000_0000
  {
    Pow2Sum(32, 8);
    Pow2Of32();
    Pow2Of8();
  }

  // & 31 on a number that need not be an integer: the fraction is dropped first.
  function BitAnd31(x: real): int {
    x.Floor % 32
  }

  function Reversed(xs: seq<int>): (r: seq<int>)
    ensures |r| == |xs|
  {
    if xs == [] then [] else [xs[|xs| - 1]] + Reversed(xs[..|xs| - 1])
  }

  lemma DivideReal(c: real)
    requires c >= 0.0
    ensures (c / 32.0).Floor == c.Floor / 32
  {
    var f := c.Floor;
    var q, r := f / 32, f % 32;
    assert f as real == 32.0 * (q as real) + r as real;
    assert q as real <= c / 32.0 < (q + 1) as real;
  }

  // The digit split off by one round is the low five bits.
  lemma DigitBits(q: int, n: nat)
    ensures 0 <= q % 32 < Pow2(5)
    ensures ToBits(q, 5 * (n + 1)) == ToBits(q / 32, 5 * n) + ToBits(q % 32, 5)
  {
    hide ToBits;
    Pow2Of5();
    SplitBits(q, 5 * n, 5);
    assert q == q % 32 + (q / 32) * Pow2(5);
    BitsModulo(q % 32, 5, q / 32);
  }

  // The division is exact in floating point, as only the exponent changes.
  method ChecksumToArray(checksum: nat) returns (result: seq<int>)
    ensures |result| == 8 && Fits(result, 5)
    ensures Join(result, 5) == ToBits(checksum, 40)
  {
    hide ToBits, Join;
    var digits: seq<int> := [];
    var c := checksum as real;
    JoinNone();
    for i := 0 to 8
      invariant |digits| == i && c >= 0.0 && Fits(Reversed(digits), 5)
      invariant ToBits(checksum, 40) == ToBits(c.Floor, 5 * (8 - i)) + Join(Reversed(digits), 5)
    {
      DigitBits(c.Floor, 7 - i);
      DivideReal(c);
      JoinFirst(c.Floor % 32, Reversed(digits), 5);
      FitsFirst(c.Floor % 32, Reversed(digits), 5);
      assert (digits + [c.Floor % 32])[..i] == digits;
      digits := digits + [BitAnd31(c)];
      c := c / 32.0;
    }
    result := Reversed(digits);
    NoBits(c.Floor);
  }

  lemma JoinNone()
    ensures Join([], 5) == [] && Reversed([]) == []
  {
  }

  lemma NoBits(v: int)
    ensures ToBits(v, 0) == []
  {
  }

  // The eight numbers that checksumToArray makes of polymod's result.
  ghost function ChecksumDigits(data: seq<int>): seq<int> {
    Chop(ToBits(ChecksumNumber(data), 40), 5)
  }

  lemma DigitsAreChecksum(data: seq<int>, digits: seq<int>)
    requires |digits| == 8 && Fits(digits, 5)
    requires Join(digits, 5) == ToBits(ChecksumNumber(data), 40)
    ensures digits == ChecksumDigits(data) && Syms(digits) == Checksum(Syms(data))
  {
    hide Flat, ToBits, FromBits, Join, Checksum;
    ChopJoin(digits, [], 5);
    assert Join(digits, 5) + [] == Join(digits, 5);
    var c := Checksum(Syms(data));
    FlatLength(c);
    ToFromBits(Flat(c));
    FlatSyms(digits);
    FlatInjective(Syms(digits), c);
  }
}
