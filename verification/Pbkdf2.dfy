/** PBKDF2 with a pseudorandom function of 64 bytes, as in section 5.2 of RFC 8018. */
module Pbkdf2 {
  import opened Arithmetic
  import opened Wrappers

  type Bytes = seq<bv8>

  // The pseudorandom function, HMAC-SHA-512 in the program: key first, text second.
  type Prf = (Bytes, Bytes) -> Bytes

  const H_LEN := 64

  datatype Error = KeyTooLong | InvalidKey | InvalidSalt

  // Keys and salts are given as texts or as buffers; anything else is refused.
  datatype Argument = Text(text: string) | Buffer(bytes: Bytes) | Other

  predicate Fits(prf: Prf, key: Bytes, text: Bytes) {
    |prf(key, text)| == H_LEN
  }

  ghost predicate IsPrf(prf: Prf) {
    forall key, text :: Fits(prf, key, text)
  }

  // ---------------------------------------------------------------- RFC 8018, section 5.2

  // INT (i): the block index in four bytes, most significant first.
  function IntBytes(i: nat): (b: Bytes)
    ensures |b| == 4
  {
    [(i / 0x100_0000 % 256) as bv8, (i / 0x1_0000 % 256) as bv8, (i / 0x100 % 256) as bv8, (i % 256) as bv8]
  }

  function Xor(a: Bytes, b: Bytes): (c: Bytes)
    requires |a| == |b|
    ensures |c| == |a|
  {
    seq(|a|, k requires 0 <= k < |a| => a[k] ^ b[k])
  }

  // U_j, counted from 1.
  ghost function U(prf: Prf, key: Bytes, salt: Bytes, i: nat, j: nat): (u: Bytes)
    requires IsPrf(prf) && j >= 1
    ensures |u| == H_LEN
  {
    var text := if j == 1 then salt + IntBytes(i) else U(prf, key, salt, i, j - 1);
    assert Fits(prf, key, text);
    prf(key, text)
  }

  // F (P, S, c, i): the exclusive or of U_1 to U_c.
  ghost function F(prf: Prf, key: Bytes, salt: Bytes, c: nat, i: nat): (t: Bytes)
    requires IsPrf(prf) && c >= 1
    ensures |t| == H_LEN
  {
    if c == 1 then U(prf, key, salt, i, 1) else Xor(F(prf, key, salt, c - 1, i), U(prf, key, salt, i, c))
  }

  // T_1 || T_2 || ... || T_n
  ghost function Blocks(prf: Prf, key: Bytes, salt: Bytes, c: nat, n: nat): (b: Bytes)
    requires IsPrf(prf) && c >= 1
    ensures |b| == H_LEN * n
  {
    if n == 0 then [] else Blocks(prf, key, salt, c, n - 1) + F(prf, key, salt, c, n)
  }

  function CeilDiv(a: nat): nat {
    (a + H_LEN - 1) / H_LEN
  }

  // An iteration count below 1 works like 1.
  function Count(iterations: int): (c: nat)
    ensures c >= 1
  {
    if iterations < 1 then 1 else iterations
  }

  // The first dkLen bytes of the blocks.
  ghost function Derived(prf: Prf, key: Bytes, salt: Bytes, c: nat, dkLen: nat): (dk: Bytes)
    requires IsPrf(prf) && c >= 1
    ensures |dk| == dkLen
  {
    Blocks(prf, key, salt, c, CeilDiv(dkLen))[..dkLen]
  }

  // Keys of different lengths from the same input extend each other.
  lemma {:induction false} DerivedExtends(prf: Prf, key: Bytes, salt: Bytes, c: nat, m: nat, n: nat)
    requires IsPrf(prf) && c >= 1 && m <= n
    ensures Derived(prf, key, salt, c, n)[..m] == Derived(prf, key, salt, c, m)
  {
    BlocksExtend(prf, key, salt, c, CeilDiv(m), CeilDiv(n));
  }

  lemma {:induction false} BlocksExtend(prf: Prf, key: Bytes, salt: Bytes, c: nat, m: nat, n: nat)
    requires IsPrf(prf) && c >= 1 && m <= n
    ensures Blocks(prf, key, salt, c, n)[..H_LEN * m] == Blocks(prf, key, salt, c, m)
    decreases n
  {
    hide F;
    if m < n {
      BlocksExtend(prf, key, salt, c, m, n - 1);
    }
  }

  // ---------------------------------------------------------------- the derived key, bit by bit

  const BITS: seq<bv8> := [0x01, 0x02, 0x04, 0x08, 0x10, 0x20, 0x40, 0x80]

  predicate HasBit(b: bv8, n: nat)
    requires n < 8
  {
    b & BITS[n] != 0
  }

  lemma XorMask(a: bv8, b: bv8)
    ensures (a ^ b) & 0x01 != 0 <==> (a & 0x01 != 0) != (b & 0x01 != 0)
    ensures (a ^ b) & 0x02 != 0 <==> (a & 0x02 != 0) != (b & 0x02 != 0)
    ensures (a ^ b) & 0x04 != 0 <==> (a & 0x04 != 0) != (b & 0x04 != 0)
    ensures (a ^ b) & 0x08 != 0 <==> (a & 0x08 != 0) != (b & 0x08 != 0)
    ensures (a ^ b) & 0x10 != 0 <==> (a & 0x10 != 0) != (b & 0x10 != 0)
    ensures (a ^ b) & 0x20 != 0 <==> (a & 0x20 != 0) != (b & 0x20 != 0)
    ensures (a ^ b) & 0x40 != 0 <==> (a & 0x40 != 0) != (b & 0x40 != 0)
    ensures (a ^ b) & 0x80 != 0 <==> (a & 0x80 != 0) != (b & 0x80 != 0)
  {
  }

  lemma XorBit(a: bv8, b: bv8, n: nat)
    requires n < 8
    ensures HasBit(a ^ b, n) <==> HasBit(a, n) != HasBit(b, n)
  {
    XorMask(a, b);
    assert n in {0, 1, 2, 3, 4, 5, 6, 7};
  }

  // us are the iterates for the block in which byte p lies.
  predicate Iterates(prf: Prf, key: Bytes, salt: Bytes, p: nat, us: seq<Bytes>) {
    var i := p / 64 + 1;
    && us != []
    && us[0] == prf(key, salt + [(i / 0x100_0000 % 256) as bv8, (i / 0x1_0000 % 256) as bv8,
                                 (i / 0x100 % 256) as bv8, (i % 256) as bv8])
    && (forall j :: 0 < j < |us| ==> us[j] == prf(key, us[j - 1]))
    && (forall j :: 0 <= j < |us| ==> |us[j]| == 64)
  }

  // The iterates that have a bit set at the place of byte p.
  function Setting(us: seq<Bytes>, p: nat, bit: nat): set<nat>
    requires bit < 8 && forall j :: 0 <= j < |us| ==> |us[j]| == 64
  {
    set j: nat | j < |us| && HasBit(us[j][p % 64], bit)
  }

  // Every bit of every byte is set exactly if it is set in an odd number of the iterates of its block.
  ghost predicate IsExclusiveOr(prf: Prf, key: Bytes, salt: Bytes, c: nat, dk: Bytes) {
    forall p: nat, bit: nat, us :: p < |dk| && bit < 8 && |us| == c && Iterates(prf, key, salt, p, us) ==>
      (HasBit(dk[p], bit) <==> |Setting(us, p, bit)| % 2 == 1)
  }

  lemma {:induction false} IterateIs(prf: Prf, key: Bytes, salt: Bytes, p: nat, us: seq<Bytes>, j: nat)
    requires IsPrf(prf) && j < |us| && Iterates(prf, key, salt, p, us)
    ensures us[j] == U(prf, key, salt, p / 64 + 1, j + 1)
  {
    if j > 0 {
      IterateIs(prf, key, salt, p, us, j - 1);
    }
  }

  lemma {:induction false} FoldBit(prf: Prf, key: Bytes, salt: Bytes, p: nat, us: seq<Bytes>, bit: nat)
    requires IsPrf(prf) && Iterates(prf, key, salt, p, us) && bit < 8 && IsSixtyFour(us)
    ensures HasBit(F(prf, key, salt, |us|, p / 64 + 1)[p % 64], bit) <==> |Setting(us, p, bit)| % 2 == 1
    decreases |us|
  {
    hide HasBit, U, F, Setting, IsPrf, Iterates;
    Beginning(prf, key, salt, p, us);
    var c, i := |us|, p / 64 + 1;
    IterateIs(prf, key, salt, p, us, c - 1);
    FoldAt(prf, key, salt, c, i, p % 64);
    if c == 1 {
      OneOrNone(us, p, bit);
    } else {
      var front := us[..c - 1];
      FoldBit(prf, key, salt, p, front, bit);
      XorBit(F(prf, key, salt, c - 1, i)[p % 64], us[c - 1][p % 64], bit);
      OneMore(us, p, bit);
    }
  }

  lemma FoldAt(prf: Prf, key: Bytes, salt: Bytes, c: nat, i: nat, q: nat)
    requires IsPrf(prf) && c >= 1 && q < 64
    ensures var u := U(prf, key, salt, i, c)[q];
            F(prf, key, salt, c, i)[q] == if c == 1 then u else F(prf, key, salt, c - 1, i)[q] ^ u
  {
    hide U, IsPrf;
  }

  lemma Beginning(prf: Prf, key: Bytes, salt: Bytes, p: nat, us: seq<Bytes>)
    requires Iterates(prf, key, salt, p, us)
    ensures us != [] && (|us| > 1 ==> Iterates(prf, key, salt, p, us[..|us| - 1]))
  {
  }

  // There are such iterates, so that the bits of the key are determined by them.
  lemma IteratesExist(prf: Prf, key: Bytes, salt: Bytes, p: nat, c: nat) returns (us: seq<Bytes>)
    requires IsPrf(prf) && c >= 1
    ensures |us| == c && Iterates(prf, key, salt, p, us)
  {
    hide U;
    var i := p / 64 + 1;
    us := seq(c, j requires 0 <= j < c => U(prf, key, salt, i, j + 1));
    forall j | 0 < j < |us|
      ensures us[j] == prf(key, us[j - 1])
    {
      NextIterate(prf, key, salt, i, j + 1);
    }
    FirstIterate(prf, key, salt, i);
    assert us[0] == U(prf, key, salt, i, 1);
  }

  lemma FirstIterate(prf: Prf, key: Bytes, salt: Bytes, i: nat)
    requires IsPrf(prf)
    ensures U(prf, key, salt, i, 1) ==
            prf(key, salt + [(i / 0x100_0000 % 256) as bv8, (i / 0x1_0000 % 256) as bv8,
                             (i / 0x100 % 256) as bv8, (i % 256) as bv8])
  {
  }

  lemma NextIterate(prf: Prf, key: Bytes, salt: Bytes, i: nat, j: nat)
    requires IsPrf(prf) && j > 1
    ensures U(prf, key, salt, i, j) == prf(key, U(prf, key, salt, i, j - 1))
  {
    hide IntBytes;
  }

  lemma OneOrNone(us: seq<Bytes>, p: nat, bit: nat)
    requires bit < 8 && |us| == 1 && |us[0]| == 64
    ensures |Setting(us, p, bit)| == if HasBit(us[0][p % 64], bit) then 1 else 0
  {
    hide HasBit;
    assert Setting(us, p, bit) == if HasBit(us[0][p % 64], bit) then {0} else {};
  }

  lemma OneMore(us: seq<Bytes>, p: nat, bit: nat)
    requires bit < 8 && us != [] && forall j :: 0 <= j < |us| ==> |us[j]| == 64
    ensures |Setting(us, p, bit)| ==
            |Setting(us[..|us| - 1], p, bit)| + if HasBit(us[|us| - 1][p % 64], bit) then 1 else 0
  {
    hide HasBit;
    var n := |us| - 1;
    var last: set<nat> := if HasBit(us[n][p % 64], bit) then {n} else {};
    assert Setting(us, p, bit) == Setting(us[..n], p, bit) + last;
    assert Setting(us[..n], p, bit) !! last;
  }

  // Byte p is in block p / 64 + 1.
  lemma {:induction false} BlocksAt(prf: Prf, key: Bytes, salt: Bytes, c: nat, n: nat, p: nat)
    requires IsPrf(prf) && c >= 1 && p < 64 * n
    ensures Blocks(prf, key, salt, c, n)[p] == F(prf, key, salt, c, p / 64 + 1)[p % 64]
  {
    hide F;
    if p < 64 * (n - 1) {
      BlocksAt(prf, key, salt, c, n - 1, p);
    }
  }

  lemma DerivedIsExclusiveOr(prf: Prf, key: Bytes, salt: Bytes, c: nat, dkLen: nat)
    requires IsPrf(prf) && c >= 1
    ensures IsExclusiveOr(prf, key, salt, c, Derived(prf, key, salt, c, dkLen))
  {
    hide F, HasBit, U, Setting, Iterates, Blocks;
    var dk := Derived(prf, key, salt, c, dkLen);
    forall p: nat, bit: nat, us | p < |dk| && bit < 8 && |us| == c && Iterates(prf, key, salt, p, us)
      ensures IsSixtyFour(us) && (HasBit(dk[p], bit) <==> |Setting(us, p, bit)| % 2 == 1)
    {
      AllSixtyFour(prf, key, salt, p, us);
      BlocksAt(prf, key, salt, c, CeilDiv(dkLen), p);
      FoldBit(prf, key, salt, p, us, bit);
    }
  }

  predicate IsSixtyFour(us: seq<Bytes>) {
    forall j :: 0 <= j < |us| ==> |us[j]| == 64
  }

  lemma AllSixtyFour(prf: Prf, key: Bytes, salt: Bytes, p: nat, us: seq<Bytes>)
    requires Iterates(prf, key, salt, p, us)
    ensures IsSixtyFour(us)
  {
  }

  // ---------------------------------------------------------------- the program

  // The 32-bit signed number that bitwise operators take a number for.
  function ToInt32(i: int): int {
    var word := i % 0x1_0000_0000;
    if word < 0x8000_0000 then word else word - 0x1_0000_0000
  }

  // i >> shift & 0xff, where place is 2^shift.
  function ByteAt(i: nat, place: nat): (b: nat)
    requires place > 0
    ensures b < 256
  {
    ToInt32(i) / place % 256
  }

  lemma SignDropsOut(i: nat, place: nat, count: nat)
    requires i < 0x1_0000_0000 && place > 0 && place * (256 * count) == 0x1_0000_0000
    ensures ByteAt(i, place) == i / place % 256
  {
    if i < 0x8000_0000 {
      assert ToInt32(i) == i;
    } else {
      hide ToInt32;
      assert ToInt32(i) == i - 0x1_0000_0000 by { Negative(i); }
      var q, r := i / place, i % place;
      assert i == q * place + r;
      assert (q - 256 * count) * place == q * place - place * (256 * count);
      DivisionUnique(i - 0x1_0000_0000, place, q - 256 * count, r);
      ModuloShifted(q, count);
    }
  }

  lemma Negative(i: int)
    requires 0x8000_0000 <= i < 0x1_0000_0000
    ensures ToInt32(i) == i - 0x1_0000_0000
  {
  }

  lemma ModuloShifted(q: int, count: int)
    ensures (q - 256 * count) % 256 == q % 256
  {
  }

  lemma BytesOfIndex(i: nat)
    requires i < 0x1_0000_0000
    ensures [ByteAt(i, 0x100_0000) as bv8, ByteAt(i, 0x1_0000) as bv8, ByteAt(i, 0x100) as bv8, ByteAt(i, 1) as bv8]
         == IntBytes(i)
  {
    hide ByteAt;
    SignDropsOut(i, 0x100_0000, 1);
    SignDropsOut(i, 0x1_0000, 0x100);
    SignDropsOut(i, 0x100, 0x1_0000);
    SignDropsOut(i, 1, 0x100_0000);
  }

  // source.copy(target, at, 0, length)
  method Copy(source: Bytes, target: array<bv8>, at: nat, length: nat)
    requires length <= |source| && at + length <= target.Length
    modifies target
    ensures target[..at] == old(target[..at])
    ensures target[at..at + length] == source[..length]
    ensures target[at + length..] == old(target[at + length..])
  {
    for k := 0 to length
      invariant forall m :: 0 <= m < at || at + k <= m < target.Length ==> target[m] == old(target[m])
      invariant forall m :: 0 <= m < k ==> target[at + m] == source[m]
    {
      target[at + k] := source[k];
    }
  }

  // T[k] ^= U[k] for every k.
  method XorInto(t: array<bv8>, u: Bytes)
    requires t.Length == |u|
    modifies t
    ensures t[..] == Xor(old(t[..]), u)
  {
    ghost var before := t[..];
    for k := 0 to t.Length
      invariant forall m :: 0 <= m < k ==> t[m] == before[m] ^ u[m]
      invariant forall m :: k <= m < t.Length ==> t[m] == before[m]
    {
      t[k] := t[k] ^ u[k];
    }
  }

  // The loop over the iterations: t goes from U_1 to the exclusive or of all of them.
  method Iterate(prf: Prf, key: Bytes, ghost salt: Bytes, first: Bytes, t: array<bv8>, iterations: int, ghost i: nat)
    requires IsPrf(prf) && first == U(prf, key, salt, i, 1) && t[..] == first
    modifies t
    ensures t[..] == F(prf, key, salt, Count(iterations), i)
  {
    var u := first;
    var j := 1;
    while j < iterations
      invariant 1 <= j && (iterations < 1 ==> j == 1) && (iterations >= 1 ==> j <= iterations)
      invariant u == U(prf, key, salt, i, j) && t[..] == F(prf, key, salt, j, i)
    {
      assert Fits(prf, key, u);
      u := prf(key, u);
      XorInto(t, u);
      j := j + 1;
    }
  }

  // Block i into t; block1 holds the salt and room for the index.
  method Block(prf: Prf, key: Bytes, ghost salt: Bytes, block1: array<bv8>, t: array<bv8>, iterations: int, i: nat)
    requires IsPrf(prf) && 0 < i < 0x1_0000_0000 && t != block1
    requires t.Length == H_LEN && block1.Length == |salt| + 4 && block1[..|salt|] == salt
    modifies block1, t
    ensures block1[..|salt|] == salt
    ensures t[..] == F(prf, key, salt, Count(iterations), i)
  {
    hide F, IntBytes;
    var n := block1.Length - 4;
    block1[n + 0] := ByteAt(i, 0x100_0000) as bv8;
    block1[n + 1] := ByteAt(i, 0x1_0000) as bv8;
    block1[n + 2] := ByteAt(i, 0x100) as bv8;
    block1[n + 3] := ByteAt(i, 1) as bv8;
    BytesOfIndex(i);
    assert block1[..n] == salt;
    assert block1[n..] == IntBytes(i);
    assert block1[..] == block1[..n] + block1[n..];
    var u := prf(key, block1[..]);
    assert Fits(prf, key, block1[..]);
    Copy(u, t, 0, H_LEN);
    assert t[..] == t[0..0 + H_LEN] == u[..H_LEN] == u;
    Iterate(prf, key, salt, u, t, iterations, i);
  }

  lemma BlockCopied(prf: Prf, key: Bytes, salt: Bytes, c: nat, i: nat, dk: Bytes, dk': Bytes, t: Bytes, len: nat)
    requires IsPrf(prf) && c >= 1 && i >= 1 && t == F(prf, key, salt, c, i) && len <= H_LEN
    requires |dk| == |dk'| && (i - 1) * H_LEN + len <= |dk|
    requires dk[..(i - 1) * H_LEN] == Blocks(prf, key, salt, c, i - 1)
    requires dk'[..(i - 1) * H_LEN] == dk[..(i - 1) * H_LEN] && dk'[(i - 1) * H_LEN..(i - 1) * H_LEN + len] == t[..len]
    ensures dk'[..(i - 1) * H_LEN + len] == Blocks(prf, key, salt, c, i)[..(i - 1) * H_LEN + len]
  {
    hide F;
    var at := (i - 1) * H_LEN;
    assert dk'[..at + len] == dk'[..at] + dk'[at..at + len];
    assert Blocks(prf, key, salt, c, i) == Blocks(prf, key, salt, c, i - 1) + t;
  }

  // The body of the outer loop: block i, or its first len bytes, into place.
  method AddBlock(prf: Prf, key: Bytes, ghost salt: Bytes, block1: array<bv8>, t: array<bv8>, dk: array<bv8>,
                  iterations: int, i: nat, len: nat)
    requires IsPrf(prf) && 0 < i < 0x1_0000_0000 && t != block1 && dk != t && dk != block1
    requires t.Length == H_LEN && block1.Length == |salt| + 4 && block1[..|salt|] == salt
    requires len <= H_LEN && (i - 1) * H_LEN + len <= dk.Length
    requires dk[..(i - 1) * H_LEN] == Blocks(prf, key, salt, Count(iterations), i - 1)
    modifies block1, t, dk
    ensures block1[..|salt|] == salt
    ensures dk[..(i - 1) * H_LEN + len] == Blocks(prf, key, salt, Count(iterations), i)[..(i - 1) * H_LEN + len]
  {
    hide F, U, Blocks;
    ghost var before := dk[..];
    Block(prf, key, salt, block1, t, iterations, i);
    var destPos := (i - 1) * H_LEN;
    Copy(t[..], dk, destPos, len);
    BlockCopied(prf, key, salt, Count(iterations), i, before, dk[..], t[..], len);
  }

  // The salt with room for a block index.
  method SaltBlock(salt: Bytes) returns (block1: array<bv8>)
    ensures fresh(block1) && block1.Length == |salt| + 4 && block1[..|salt|] == salt
  {
    block1 := new bv8[|salt| + 4](_ => 0);
    Copy(salt, block1, 0, |salt|);
    assert block1[..|salt|] == block1[0..0 + |salt|] == salt;
  }

  // The outer loop, for l blocks of which the last may be cut short.
  method AddBlocks(prf: Prf, key: Bytes, ghost salt: Bytes, block1: array<bv8>, t: array<bv8>, dk: array<bv8>,
                   iterations: int, l: nat)
    requires IsPrf(prf) && l < 0x1_0000_0000 && t != block1 && dk != t && dk != block1
    requires t.Length == H_LEN && block1.Length == |salt| + 4 && block1[..|salt|] == salt
    requires if l == 0 then dk.Length == 0 else 0 < dk.Length - (l - 1) * H_LEN <= H_LEN
    modifies block1, t, dk
    ensures dk[..] == Blocks(prf, key, salt, Count(iterations), l)[..dk.Length]
  {
    hide F, U, Blocks, Count, IsPrf, Fits;
    var last := dk.Length - (l - 1) * H_LEN;
    ghost var c, done := Count(iterations), 0;
    NoBlocks(prf, key, salt, c);
    for i := 1 to l + 1
      invariant block1[..|salt|] == salt
      invariant done == if i <= l then (i - 1) * H_LEN else dk.Length
      invariant dk[..done] == Blocks(prf, key, salt, c, i - 1)[..done]
    {
      assert Blocks(prf, key, salt, c, i - 1)[..done] == Blocks(prf, key, salt, c, i - 1);
      var len := if i == l then last else H_LEN;
      AddBlock(prf, key, salt, block1, t, dk, iterations, i, len);
      done := done + len;
    }
    assert dk[..done] == dk[..];
  }

  method DeriveKey(prf: Prf, key: Bytes, salt: Bytes, iterations: int, dkLen: nat)
    returns (r: Bytes)
    requires IsPrf(prf) && dkLen <= 0xFFFF_FFFF * H_LEN
    ensures r == Derived(prf, key, salt, Count(iterations), dkLen)
    ensures |r| == dkLen && IsExclusiveOr(prf, key, salt, if iterations < 1 then 1 else iterations, r)
  {
    DerivedIsExclusiveOr(prf, key, salt, Count(iterations), dkLen);
    hide F, U, Blocks, CeilDiv, IsPrf, Fits, IsExclusiveOr;
    BlockCount(dkLen);
    var dk := new bv8[dkLen](_ => 0);
    var t := new bv8[H_LEN](_ => 0);
    var block1 := SaltBlock(salt);
    AddBlocks(prf, key, salt, block1, t, dk, iterations, CeilDiv(dkLen));
    return dk[..];
  }

  // The bytes of an argument; texts are encoded, in UTF-8 in the program.
  function BytesOf(utf8: string -> Bytes, arg: Argument): Bytes
    requires !arg.Other?
  {
    match arg
    case Text(text) => utf8(text)
    case Buffer(bytes) => bytes
  }

  method Pbkdf2(prf: Prf, utf8: string -> Bytes, key: Argument, salt: Argument, iterations: int, dkLen: nat)
    returns (r: Result<Bytes, Error>)
    requires IsPrf(prf)
    ensures r == if dkLen > 0xFFFF_FFFF * H_LEN then Err(KeyTooLong)
                 else if key.Other? then Err(InvalidKey)
                 else if salt.Other? then Err(InvalidSalt)
                 else Ok(Derived(prf, BytesOf(utf8, key), BytesOf(utf8, salt), Count(iterations), dkLen))
    ensures r.Ok? ==>
              && |r.value| == dkLen <= 0xFFFF_FFFF * 64
              && IsExclusiveOr(prf, if key.Text? then utf8(key.text) else key.bytes,
                               if salt.Text? then utf8(salt.text) else salt.bytes,
                               if iterations < 1 then 1 else iterations, r.value)
  {
    hide F, U, Blocks, CeilDiv, IsPrf, Fits, IsExclusiveOr;
    if dkLen > 0xFFFF_FFFF * H_LEN {
      return Err(KeyTooLong);
    }
    if key.Other? {
      return Err(InvalidKey);
    }
    if salt.Other? {
      return Err(InvalidSalt);
    }
    var dk := DeriveKey(prf, BytesOf(utf8, key), BytesOf(utf8, salt), iterations, dkLen);
    return Ok(dk);
  }

  lemma BlockCount(dkLen: nat)
    ensures var l := CeilDiv(dkLen); (l == 0 <==> dkLen == 0) && (l > 0 ==> 0 < dkLen - (l - 1) * H_LEN <= H_LEN)
    ensures dkLen <= 0xFFFF_FFFF * H_LEN ==> CeilDiv(dkLen) <= 0xFFFF_FFFF
  {
  }

  lemma NoBlocks(prf: Prf, key: Bytes, salt: Bytes, c: nat)
    requires IsPrf(prf) && c >= 1
    ensures Blocks(prf, key, salt, c, 0) == []
  {
  }
}
