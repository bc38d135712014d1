/**
 Regrouping numbers of one width into numbers of another, most significant bit first.
 */
module ConvertBits {
  import Arithmetic
  import opened Bits
  import opened Wrappers

  datatype Error = InvalidValue | PaddingRequired

  // Filled up with zeros to a whole number of groups.
  function Padded(b: Bitstring, w: nat): Bitstring
    requires w > 0
  {
    if Leftover(b, w) == [] then b else b + Zeros(w - |Leftover(b, w)|)
  }

  // The specification: the same bits cut differently.  Without strict, zeros fill the last group.
  // With strict, whatever does not fill a group must be shorter than one group of the input, and zero.
  function Regroup(data: seq<int>, from: nat, to: nat, strict: bool): Result<seq<int>, Error>
    requires from > 0 && to > 0
  {
    if !Fits(data, from) then Err(InvalidValue)
    else
      var b := Join(data, from);
      var rest := Leftover(b, to);
      if !strict then Ok(Chop(Padded(b, to), to))
      else if |rest| >= from || rest != Zeros(|rest|) then Err(PaddingRequired)
      else Ok(Chop(b, to))
  }

  // ---------------------------------------------------------------- round trips

  lemma PaddedWhole(b: Bitstring, w: nat)
    requires w > 0
    ensures Leftover(Padded(b, w), w) == []
    ensures Padded(b, w) == Join(Chop(Padded(b, w), w), w)
  {
    hide Chop, Join, Fits;
    JoinChop(b, w);
    JoinChop(Padded(b, w), w);
    var rest := Leftover(b, w);
    if rest != [] {
      var last := rest + Zeros(w - |rest|);
      ToFromBits(last);
      FitsLast(Chop(b, w), FromBits(last), w);
      JoinLast(Chop(b, w), FromBits(last), w);
      var xs := Chop(b, w) + [FromBits(last)];
      assert Padded(b, w) == Join(xs, w) + [];
      ChopJoin(xs, [], w);
    }
  }

  // Regrouping into narrower groups and strictly back gives the data again.
  lemma RegroupThereAndBack(data: seq<int>, from: nat, to: nat)
    requires 0 < to <= from && Fits(data, from)
    ensures Regroup(data, from, to, false).Ok? && Fits(Regroup(data, from, to, false).value, to)
    ensures Regroup(Regroup(data, from, to, false).value, to, from, true) == Ok(data)
  {
    hide Chop, Join, Fits, Leftover;
    var b := Join(data, from);
    var narrow := Chop(Padded(b, to), to);
    PaddedWhole(b, to);
    JoinChop(Padded(b, to), to);
    var pad := if Leftover(b, to) == [] then [] else Zeros(to - |Leftover(b, to)|);
    assert Join(narrow, to) == b + pad;
    ChopJoin(data, pad, from);
  }

  // What regroups strictly is what regrouping the result the other way gives.
  lemma RegroupBackAndThere(narrow: seq<int>, from: nat, to: nat)
    requires 0 < to && 0 < from
    requires Regroup(narrow, to, from, true).Ok?
    ensures Fits(Regroup(narrow, to, from, true).value, from)
    ensures Regroup(Regroup(narrow, to, from, true).value, from, to, false) == Ok(narrow)
  {
    hide Chop, Join, Fits, Leftover;
    var b := Join(narrow, to);
    var data := Chop(b, from);
    JoinChop(b, from);
    var rest := Leftover(b, from);
    assert b == Join(data, from) + rest;
    PaddingUnique(Join(data, from), |rest|, narrow, to);
    ChopJoin(narrow, [], to);
    assert Join(narrow, to) + [] == Join(narrow, to);
  }

  lemma PaddingUnique(b: Bitstring, k: nat, xs: seq<int>, w: nat)
    requires k < w && Fits(xs, w)
    requires b + Zeros(k) == Join(xs, w)
    ensures Padded(b, w) == Join(xs, w)
  {
    hide Chop, Fits, Leftover;
    if k == 0 {
      assert b == Join(xs, w) + [];
      ChopJoin(xs, [], w);
    } else {
      hide Join;
      LastOf(xs, w);
      var n := |xs| - 1;
      var x := xs[n];
      assert xs == xs[..n] + [x];
      JoinLast(xs[..n], x, w);
      FitsLast(xs[..n], x, w);
      var part := ToBits(x, w)[..w - k];
      assert b == (Join(xs[..n], w) + ToBits(x, w))[..|b|];
      assert b == Join(xs[..n], w) + part;
      ChopJoin(xs[..n], part, w);
    }
  }

  lemma LastOf(xs: seq<int>, w: nat)
    requires Join(xs, w) != []
    ensures xs != []
  {
  }

  // ---------------------------------------------------------------- the program

  lemma WordMask(k: nat)
    requires k <= 32
    ensures Word(Pow2(k) - 1) == Zeros(32 - k) + Ones(k)
  {
    MaskBits(k, 32);
  }

  // The low k < 32 bits of a word as a number.
  lemma LowBits(w: Bitstring, k: nat)
    requires |w| == 32 && k < 32
    ensures Signed(And(w, Word(Pow2(k) - 1))) == FromBits(w[32 - k..])
    ensures And(w, Word(Pow2(k) - 1)) == Zeros(32) <==> w[32 - k..] == Zeros(k)
  {
    hide FromBits, ToBits;
    WordMask(k);
    AndMask(w, k);
    var low := And(w, Word(Pow2(k) - 1));
    assert !low[0];
    FromBitsConcat(Zeros(32 - k), w[32 - k..]);
    FromZeros(32 - k);
    assert Zeros(32) == Zeros(32 - k) + Zeros(k);
    if low == Zeros(32) {
      assert low[32 - k..] == w[32 - k..];
      assert Zeros(32)[32 - k..] == Zeros(k);
    }
  }

  // Taking in a value.
  lemma Accumulated(acc: Bitstring, value: int, from: nat, bits: nat)
    requires |acc| == 32 && bits + from <= 32 && 0 <= value < Pow2(from)
    ensures Or(ShiftLeft(acc, from), Word(value))[32 - bits - from..] == acc[32 - bits..] + ToBits(value, from)
  {
    hide ToBits, Pow2;
    SmallWord(value, from, 32);
    assert Or(ShiftLeft(acc, from), Word(value)) == acc[from..] + ToBits(value, from);
  }

  // A number that is not negative, as the 32-bit operators see it.
  function Seen(value: int): int {
    if value < 0 then value else value % 0x1_0000_0000
  }

  function SeenAll(data: seq<int>): (seen: seq<int>)
    ensures |seen| == |data|
  {
    seq(|data|, i requires 0 <= i < |data| => Seen(data[i]))
  }

  // Numbers of 32 bits are seen as they are.
  lemma SeenSmall(data: seq<int>)
    requires forall i :: 0 <= i < |data| ==> data[i] < 0x1_0000_0000
    ensures SeenAll(data) == data
  {
  }

  lemma SignedSeen(value: int)
    requires value >= 0
    ensures Word(value) == Word(Seen(value))
    ensures Signed(Word(value)) == if Seen(value) < 0x8000_0000 then Seen(value) else Seen(value) - 0x1_0000_0000
  {
    hide ToBits, FromBits;
    var n, w := Seen(value), Word(value);
    Pow2Of32();
    hide Pow2;
    BitsModulo(n, 32, value / 0x1_0000_0000);
    FromToBits(n, 32);
    ToFromBits(w[1..]);
    assert w == [w[0]] + w[1..];
    FromBitsConcat([w[0]], w[1..]);
    assert FromBits([w[0]]) == if w[0] then 1 else 0 by { FromOneBit(w[0]); }
  }

  lemma {:induction false} PowerBelow(k: nat)
    requires k <= 31
    ensures Pow2(k) <= 0x8000_0000
    decreases 31 - k
  {
    if k == 31 {
      Pow2Of32();
    } else {
      PowerBelow(k + 1);
    }
  }

  // The program's check that a value fits.
  lemma ValueCheck(value: int, from: nat)
    requires from < 32
    ensures value < 0 || Signed(Word(value)) / Pow2(from) != 0 <==> !(0 <= Seen(value) < Pow2(from))
  {
    if value >= 0 {
      hide ToBits, FromBits, Word, Signed;
      SignedSeen(value);
      PowerBelow(from);
      hide Pow2;
      QuotientZero(Signed(Word(value)), Pow2(from));
    }
  }

  lemma QuotientZero(n: int, p: nat)
    requires p > 0
    ensures n / p == 0 <==> 0 <= n < p
  {
    if 0 <= n < p {
      Arithmetic.DivisionUnique(n, p, 0, n);
    }
  }

  // Putting out a group of to bits.
  lemma GroupPushed(all: Bitstring, accumulator: Bitstring, bits: nat, to: nat, result: seq<int>)
    requires |accumulator| == 32 && 0 < to < 32 && bits + to <= 32 && Fits(result, to)
    requires all == Join(result, to) + accumulator[32 - bits - to..]
    ensures var n := Signed(And(ShiftRightSigned(accumulator, bits), Word(Pow2(to) - 1)));
            Fits(result + [n], to) && all == Join(result + [n], to) + accumulator[32 - bits..]
  {
    hide ToBits, Pow2, Join, Fits, FromBits;
    var group := ShiftRightSigned(accumulator, bits)[32 - to..];
    assert accumulator[32 - bits - to..] == group + accumulator[32 - bits..];
    LowBits(ShiftRightSigned(accumulator, bits), to);
    ToFromBits(group);
    JoinLast(result, FromBits(group), to);
    FitsLast(result, FromBits(group), to);
  }

  // What is left in the accumulator at the end, filled up with zeros.
  lemma LastGroup(all: Bitstring, accumulator: Bitstring, bits: nat, to: nat, result: seq<int>)
    requires |accumulator| == 32 && bits < to < 32 && Fits(result, to)
    requires all == Join(result, to) + accumulator[32 - bits..]
    ensures var last := And(ShiftLeft(accumulator, to - bits), Word(Pow2(to) - 1));
            && Chop(all, to) == result && Leftover(all, to) == accumulator[32 - bits..]
            && (last == Zeros(32) <==> accumulator[32 - bits..] == Zeros(bits))
            && (bits > 0 ==> Chop(Padded(all, to), to) == result + [Signed(last)])
  {
    hide ToBits, Pow2, Join, Fits, FromBits, Chop, Leftover;
    var rest := accumulator[32 - bits..];
    ChopJoin(result, rest, to);
    LowBits(ShiftLeft(accumulator, to - bits), to);
    var filled := rest + Zeros(to - bits);
    assert ShiftLeft(accumulator, to - bits)[32 - to..] == filled;
    ZerosFilled(rest, to - bits);
    if bits > 0 {
      ToFromBits(filled);
      JoinLast(result, FromBits(filled), to);
      FitsLast(result, FromBits(filled), to);
      assert Padded(all, to) == Join(result + [FromBits(filled)], to) + [];
      ChopJoin(result + [FromBits(filled)], [], to);
    }
  }

  lemma ZerosFilled(rest: Bitstring, n: nat)
    ensures rest + Zeros(n) == Zeros(|rest| + n) <==> rest == Zeros(|rest|)
  {
    if rest + Zeros(n) == Zeros(|rest| + n) {
      assert forall i :: 0 <= i < |rest| ==> rest[i] == (rest + Zeros(n))[i];
    }
  }

  lemma FitsPrefix(xs: seq<int>, n: nat, w: nat)
    requires n <= |xs| && !Fits(xs[..n], w)
    ensures !Fits(xs, w)
  {
    var i :| 0 <= i < n && !(0 <= xs[..n][i] < Pow2(w));
    assert xs[i] == xs[..n][i];
  }

  // accumulator holds the 32 bits of the program's variable of that name.
  method ConvertBits(data: seq<int>, from: nat, to: nat, strict: bool) returns (r: Result<seq<int>, Error>)
    requires 0 < from < 32 && 0 < to < 32 && from + to <= 33
    ensures r == Regroup(SeenAll(data), from, to, strict)
  {
    hide ToBits, Pow2, Join, Chop, Leftover, Fits, FromBits, Signed, And, Or, ShiftLeft, ShiftRightSigned;
    var accumulator, bits, result := Word(0), 0, [];
    var mask := Pow2(to) - 1;
    JoinNone(from);
    JoinNone(to);
    ghost var seen := SeenAll(data);
    for i := 0 to |data|
      invariant Fits(seen[..i], from) && Fits(result, to)
      invariant |accumulator| == 32 && 0 <= bits < to
      invariant Join(seen[..i], from) == Join(result, to) + accumulator[32 - bits..]
    {
      var value := data[i];
      ValueCheck(value, from);
      assert seen[..i + 1] == seen[..i] + [seen[i]];
      FitsLast(seen[..i], seen[i], from);
      JoinLast(seen[..i], seen[i], from);
      if value < 0 || Signed(Word(value)) / Pow2(from) != 0 {
        FitsPrefix(seen, i + 1, from);
        return Err(InvalidValue);
      }
      SignedSeen(value);
      Accumulated(accumulator, seen[i], from, bits);
      accumulator := Or(ShiftLeft(accumulator, from), Word(value));
      bits := bits + from;
      ghost var all := Join(seen[..i + 1], from);
      while bits >= to
        invariant 0 <= bits <= 32 && Fits(result, to)
        invariant all == Join(result, to) + accumulator[32 - bits..]
      {
        GroupPushed(all, accumulator, bits - to, to, result);
        bits := bits - to;
        result := result + [Signed(And(ShiftRightSigned(accumulator, bits), Word(mask)))];
      }
    }
    assert seen[..|data|] == seen;
    LastGroup(Join(seen, from), accumulator, bits, to, result);
    if !strict {
      if bits > 0 {
        result := result + [Signed(And(ShiftLeft(accumulator, to - bits), Word(mask)))];
      }
    } else {
      if bits >= from || And(ShiftLeft(accumulator, to - bits), Word(mask)) != Zeros(32) {
        return Err(PaddingRequired);
      }
    }
    return Ok(result);
  }
}
