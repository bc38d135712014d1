/**
 When derivation is that of BIP 32.

 Section "Child key derivation (CKD) functions" calls an index invalid if the left half of the hash is
 not below the order n, or if the child key is zero or at infinity, and goes on with the next one.
 The program reduces the left half modulo n and skips an index in the second case only.
 */
module Bip32 {
  import opened Wrappers
  import opened Bytes
  import opened Curve
  import opened HdKeys
  import opened Paths

  // ---------------------------------------------------------------- the standard

  // serP
  function Compressed<P(!new)>(c: Curve<P>, p: P): Bytes {
    [if c.odd(p) then 3 else 2] + BigEndian(c.x(p), 32)
  }

  // I, the hash that a private child is made from.
  function Hash<P(!new)>(env: Env<P>, k: HDPrivateKey, index: nat): (I: Bytes)
    requires env.Valid()
    ensures |I| == 64 && IsBytes(I)
  {
    var c := env.curve;
    var secret := if index >= 0x8000_0000 then [0] + BigEndian(k.key, 32) else Compressed(c, c.Mul(k.key, c.g));
    assert env.HashesFit(secret + BigEndian(index, 4), k.chainCode);
    env.hmac512(secret + BigEndian(index, 4), k.chainCode)
  }

  // parse256 (IL)
  function Left<P(!new)>(env: Env<P>, k: HDPrivateKey, index: nat): nat
    requires env.Valid()
  {
    FromBytes(Hash(env, k, index)[..32])
  }

  // ki
  function ChildKey<P(!new)>(env: Env<P>, k: HDPrivateKey, index: nat): nat
    requires env.Valid()
  {
    (Left(env, k, index) + k.key) % env.curve.n
  }

  function FingerPrint<P(!new)>(env: Env<P>, p: P): Bytes
    requires env.Valid()
  {
    assert env.HashesFit(Compressed(env.curve, p), []);
    env.hash160(Compressed(env.curve, p))[..4]
  }

  // CKDpriv, with the errors of the program for indexes out of range.
  function CkdPrivate<P(!new)>(env: Env<P>, k: HDPrivateKey, index: nat): Result<HDPrivateKey, Error>
    requires env.Valid()
    decreases MAX_INDEX - index
  {
    if index >= 0x1_0000_0000 then Err(InvalidPath(index))
    else if Left(env, k, index) >= env.curve.n || ChildKey(env, k, index) == 0 then CkdPrivate(env, k, index + 1)
    else Ok(HDPrivateKey(k.version, (k.depth + 1) % 256, FingerPrint(env, env.curve.Mul(k.key, env.curve.g)), index,
                         Hash(env, k, index)[32..], ChildKey(env, k, index)))
  }

  function HashPublic<P(!new)>(env: Env<P>, k: HDPublicKey<P>, index: nat): (I: Bytes)
    requires env.Valid()
    ensures |I| == 64 && IsBytes(I)
  {
    var data := Compressed(env.curve, k.point) + BigEndian(index, 4);
    assert env.HashesFit(data, k.chainCode);
    env.hmac512(data, k.chainCode)
  }

  function LeftPublic<P(!new)>(env: Env<P>, k: HDPublicKey<P>, index: nat): nat
    requires env.Valid()
  {
    FromBytes(HashPublic(env, k, index)[..32])
  }

  // Ki
  function ChildPoint<P(!new)>(env: Env<P>, k: HDPublicKey<P>, index: nat): P
    requires env.Valid()
  {
    env.curve.add(env.curve.Mul(LeftPublic(env, k, index), env.curve.g), k.point)
  }

  predicate YieldsPublic<P(!new)>(env: Env<P>, k: HDPublicKey<P>, index: nat)
    requires env.Valid()
  {
    ChildPoint(env, k, index) != env.curve.zero
  }

  // CKDpub
  function CkdPublic<P(!new)>(env: Env<P>, k: HDPublicKey<P>, index: nat): Result<HDPublicKey<P>, Error>
    requires env.Valid()
    decreases HARDENED - index
  {
    if index >= 0x8000_0000 then Err(CantDeriveHardened)
    else if LeftPublic(env, k, index) >= env.curve.n || !YieldsPublic(env, k, index) then CkdPublic(env, k, index + 1)
    else Ok(HDPublicKey(k.version, (k.depth + 1) % 256, FingerPrint(env, k.point), index,
                        HashPublic(env, k, index)[32..], ChildPoint(env, k, index)))
  }

  // ---------------------------------------------------------------- the program's children

  predicate Yields<P(!new)>(env: Env<P>, k: HDPrivateKey, index: nat)
    requires env.Valid()
  {
    ChildKey(env, k, index) != 0
  }

  // What the program makes at an index is what the standard makes there.
  lemma SameChild<P(!new)>(env: Env<P>, k: HDPrivateKey, index: nat)
    requires env.Valid()
    ensures env.Yields(k, index, false) <==> Yields(env, k, index)
    ensures var child := env.Child(k, index, index >= HARDENED, false);
            && child.version == k.version && child.depth == (k.depth + 1) % 256 && child.childIndex == index
            && child.parentFingerPrint == FingerPrint(env, env.curve.Mul(k.key, env.curve.g))
            && child.chainCode == Hash(env, k, index)[32..] && child.key == ChildKey(env, k, index)
  {
    hide BigEndian, FromBytes, env.curve.Mul;
  }

  lemma SamePublicChild<P(!new)>(env: Env<P>, k: HDPublicKey<P>, index: nat)
    requires env.Valid()
    ensures env.PublicChildPoint(k, index) == ChildPoint(env, k, index)
    ensures var child := env.PublicChild(k, index);
            && child.version == k.version && child.depth == (k.depth + 1) % 256 && child.childIndex == index
            && child.parentFingerPrint == FingerPrint(env, k.point)
            && child.chainCode == HashPublic(env, k, index)[32..] && child.point == ChildPoint(env, k, index)
  {
    hide BigEndian, FromBytes, env.curve.Mul;
  }

  // ---------------------------------------------------------------- one step

  // The least index from start on, below the bound, that yields a key.
  predicate FirstYield<P(!new)>(env: Env<P>, k: HDPrivateKey, start: nat, index: nat)
    requires env.Valid()
  {
    && start <= index < MAX_INDEX && Yields(env, k, index)
    && forall i :: start <= i < index ==> !Yields(env, k, i)
  }

  predicate FirstYieldPublic<P(!new)>(env: Env<P>, k: HDPublicKey<P>, start: nat, index: nat)
    requires env.Valid()
  {
    && start <= index < HARDENED && YieldsPublic(env, k, index)
    && forall i :: start <= i < index ==> !YieldsPublic(env, k, i)
  }

  // Either nothing is found, or what is found first has a left half below n.
  ghost predicate LeftFits<P(!new)>(env: Env<P>, k: HDPrivateKey, start: nat)
    requires env.Valid()
  {
    forall index :: FirstYield(env, k, start, index) ==> Left(env, k, index) < env.curve.n
  }

  ghost predicate LeftFitsPublic<P(!new)>(env: Env<P>, k: HDPublicKey<P>, start: nat)
    requires env.Valid()
  {
    forall index :: FirstYieldPublic(env, k, start, index) ==> LeftPublic(env, k, index) < env.curve.n
  }

  // BIP 32 never returns a child whose left half is not below n.
  lemma {:induction false} CkdPrivateFits<P(!new)>(env: Env<P>, k: HDPrivateKey, index: nat)
    requires env.Valid() && CkdPrivate(env, k, index).Ok?
    ensures index <= CkdPrivate(env, k, index).value.childIndex
    ensures Left(env, k, CkdPrivate(env, k, index).value.childIndex) < env.curve.n
    decreases MAX_INDEX - index
  {
    hide Left, env.Valid, Hash, FingerPrint, ChildKey;
    if Left(env, k, index) >= env.curve.n || !Yields(env, k, index) {
      CkdPrivateFits(env, k, index + 1);
    }
  }

  lemma {:induction false} CkdPublicFits<P(!new)>(env: Env<P>, k: HDPublicKey<P>, index: nat)
    requires env.Valid() && CkdPublic(env, k, index).Ok?
    ensures index <= CkdPublic(env, k, index).value.childIndex
    ensures LeftPublic(env, k, CkdPublic(env, k, index).value.childIndex) < env.curve.n
    decreases HARDENED - index
  {
    hide LeftPublic, env.Valid, HashPublic, FingerPrint, ChildPoint;
    if LeftPublic(env, k, index) >= env.curve.n || !YieldsPublic(env, k, index) {
      CkdPublicFits(env, k, index + 1);
    }
  }

  // Private derivation is that of BIP 32 if and only if no index from the one asked for on yields a
  // key, or the left half at the first one that does is below n.
  lemma {:induction false} DeriveIsCkdIff<P(!new)>(env: Env<P>, k: HDPrivateKey, index: nat)
    requires env.Valid()
    ensures env.Derive(k, index, false, false) == CkdPrivate(env, k, index) <==> LeftFits(env, k, index)
    decreases MAX_INDEX - index
  {
    hide Left, env.Valid, env.ChildScalar, env.Child, Hash, FingerPrint, ChildKey;
    if index < MAX_INDEX {
      SameChild(env, k, index);
      if Yields(env, k, index) {
        assert FirstYield(env, k, index, index);
        if Left(env, k, index) >= env.curve.n && CkdPrivate(env, k, index + 1).Ok? {
          CkdPrivateFits(env, k, index + 1);
        }
      } else {
        DeriveIsCkdIff(env, k, index + 1);
        LaterYields(env, k, index);
      }
    }
  }

  lemma LaterYields<P(!new)>(env: Env<P>, k: HDPrivateKey, index: nat)
    requires env.Valid() && !Yields(env, k, index)
    ensures LeftFits(env, k, index) <==> LeftFits(env, k, index + 1)
  {
    hide Left, env.Valid, Yields, Hash, FingerPrint, ChildKey;
    forall j: nat
      ensures FirstYield(env, k, index, j) <==> FirstYield(env, k, index + 1, j)
    {
      assert FirstYield(env, k, index, j) ==> j != index;
    }
  }

  // The same with the flag for hardening.
  lemma DeriveIsBip32Iff<P(!new)>(env: Env<P>, k: HDPrivateKey, index: nat, hardened: bool)
    requires env.Valid()
    ensures var start := env.Normalized(index, hardened);
            env.Derive(k, index, hardened, false) == CkdPrivate(env, k, start) <==> LeftFits(env, k, start)
  {
    hide env.Valid, env.ChildScalar, env.Child, LeftFits, CkdPrivate;
    DeriveIsCkdIff(env, k, env.Normalized(index, hardened));
  }

  // Public derivation is that of BIP 32 under the same condition, below 2^31.
  lemma {:induction false} DerivePublicIsBip32Iff<P(!new)>(env: Env<P>, k: HDPublicKey<P>, index: nat)
    requires env.Valid()
    ensures env.DerivePublic(k, index, false) == CkdPublic(env, k, index) <==> LeftFitsPublic(env, k, index)
    decreases HARDENED - index
  {
    hide LeftPublic, env.Valid, env.PublicChildPoint, env.PublicChild, HashPublic, FingerPrint, ChildPoint;
    if index < HARDENED {
      SamePublicChild(env, k, index);
      if YieldsPublic(env, k, index) {
        assert FirstYieldPublic(env, k, index, index);
        if LeftPublic(env, k, index) >= env.curve.n && CkdPublic(env, k, index + 1).Ok? {
          CkdPublicFits(env, k, index + 1);
        }
      } else {
        DerivePublicIsBip32Iff(env, k, index + 1);
        LaterYieldsPublic(env, k, index);
      }
    }
  }

  lemma LaterYieldsPublic<P(!new)>(env: Env<P>, k: HDPublicKey<P>, index: nat)
    requires env.Valid() && !YieldsPublic(env, k, index)
    ensures LeftFitsPublic(env, k, index) <==> LeftFitsPublic(env, k, index + 1)
  {
    hide LeftPublic, env.Valid, YieldsPublic;
    forall j: nat
      ensures FirstYieldPublic(env, k, index, j) <==> FirstYieldPublic(env, k, index + 1, j)
    {
      assert FirstYieldPublic(env, k, index, j) ==> j != index;
    }
  }

  // ---------------------------------------------------------------- paths

  function CkdAll<P(!new)>(env: Env<P>, k: HDPrivateKey, indexes: seq<nat>): Result<HDPrivateKey, Error>
    requires env.Valid()
    decreases |indexes|
  {
    if indexes == [] then Ok(k)
    else
      match CkdPrivate(env, k, indexes[0])
      case Err(e) => Err(e)
      case Ok(child) => CkdAll(env, child, indexes[1..])
  }

  function CkdAllPublic<P(!new)>(env: Env<P>, k: HDPublicKey<P>, indexes: seq<nat>): Result<HDPublicKey<P>, Error>
    requires env.Valid()
    decreases |indexes|
  {
    if indexes == [] then Ok(k)
    else
      match CkdPublic(env, k, indexes[0])
      case Err(e) => Err(e)
      case Ok(child) => CkdAllPublic(env, child, indexes[1..])
  }

  // The condition of one step, at every key the path goes through.
  ghost predicate LeftsFit<P(!new)>(env: Env<P>, k: HDPrivateKey, indexes: seq<nat>)
    requires env.Valid()
    decreases |indexes|
  {
    indexes == [] ||
    (var child := env.Derive(k, indexes[0], false, false);
     LeftFits(env, k, indexes[0]) && (child.Ok? ==> LeftsFit(env, child.value, indexes[1..])))
  }

  ghost predicate LeftsFitPublic<P(!new)>(env: Env<P>, k: HDPublicKey<P>, indexes: seq<nat>)
    requires env.Valid()
    decreases |indexes|
  {
    indexes == [] ||
    (var child := env.DerivePublic(k, indexes[0], false);
     LeftFitsPublic(env, k, indexes[0]) && (child.Ok? ==> LeftsFitPublic(env, child.value, indexes[1..])))
  }

  // Every beginning of the path leads to the key, or the failure, of BIP 32.
  ghost predicate IsBip32<P(!new)>(env: Env<P>, k: HDPrivateKey, indexes: seq<nat>)
    requires env.Valid()
  {
    forall n :: 0 <= n <= |indexes| ==> DeriveAll(env, k, indexes[..n], false) == CkdAll(env, k, indexes[..n])
  }

  ghost predicate IsBip32Public<P(!new)>(env: Env<P>, k: HDPublicKey<P>, indexes: seq<nat>)
    requires env.Valid()
  {
    forall n :: 0 <= n <= |indexes| ==> DeriveAllPublic(env, k, indexes[..n]) == CkdAllPublic(env, k, indexes[..n])
  }

  lemma FirstStep<P(!new)>(env: Env<P>, k: HDPrivateKey, indexes: seq<nat>, n: nat)
    requires env.Valid() && 0 < n <= |indexes|
    ensures var child, standard := env.Derive(k, indexes[0], false, false), CkdPrivate(env, k, indexes[0]);
            && DeriveAll(env, k, indexes[..n], false) ==
               (if child.Err? then child else DeriveAll(env, child.value, indexes[1..][..n - 1], false))
            && CkdAll(env, k, indexes[..n]) ==
               (if standard.Err? then standard else CkdAll(env, standard.value, indexes[1..][..n - 1]))
  {
    hide env.Valid, env.Derive, CkdPrivate;
    assert indexes[..n][1..] == indexes[1..][..n - 1];
  }

  lemma FirstStepPublic<P(!new)>(env: Env<P>, k: HDPublicKey<P>, indexes: seq<nat>, n: nat)
    requires env.Valid() && 0 < n <= |indexes|
    ensures var child, standard := env.DerivePublic(k, indexes[0], false), CkdPublic(env, k, indexes[0]);
            && DeriveAllPublic(env, k, indexes[..n]) ==
               (if child.Err? then child else DeriveAllPublic(env, child.value, indexes[1..][..n - 1]))
            && CkdAllPublic(env, k, indexes[..n]) ==
               (if standard.Err? then standard else CkdAllPublic(env, standard.value, indexes[1..][..n - 1]))
  {
    hide env.Valid, env.DerivePublic, CkdPublic;
    assert indexes[..n][1..] == indexes[1..][..n - 1];
  }

  // All keys along a path are those of BIP 32 if and only if at every one of them the left half at the
  // first index that yields a key, if any, is below n.
  lemma {:induction false} PathIsBip32Iff<P(!new)>(env: Env<P>, k: HDPrivateKey, indexes: seq<nat>)
    requires env.Valid()
    ensures IsBip32(env, k, indexes) <==> LeftsFit(env, k, indexes)
    decreases |indexes|
  {
    hide env.Valid, env.Derive, CkdPrivate, LeftFits, DeriveAll, CkdAll;
    StartIsBip32(env, k);
    assert indexes[..0] == [];
    if indexes != [] {
      var first, rest := env.Derive(k, indexes[0], false, false), indexes[1..];
      DeriveIsCkdIff(env, k, indexes[0]);
      forall n | 0 < n <= |indexes|
        ensures LeftFits(env, k, indexes[0]) ==>
                  (DeriveAll(env, k, indexes[..n], false) == CkdAll(env, k, indexes[..n]) <==>
                   first.Err? ||
                   DeriveAll(env, first.value, rest[..n - 1], false) == CkdAll(env, first.value, rest[..n - 1]))
      {
        FirstStep(env, k, indexes, n);
      }
      OneStep(env, k, indexes);
      if first.Ok? {
        PathIsBip32Iff(env, first.value, rest);
        if IsBip32(env, k, indexes) {
          forall m | 0 <= m <= |rest|
            ensures DeriveAll(env, first.value, rest[..m], false) == CkdAll(env, first.value, rest[..m])
          {
            assert DeriveAll(env, k, indexes[..m + 1], false) == CkdAll(env, k, indexes[..m + 1]);
          }
        }
      }
    }
  }

  lemma StartIsBip32<P(!new)>(env: Env<P>, k: HDPrivateKey)
    requires env.Valid()
    ensures DeriveAll(env, k, [], false) == CkdAll(env, k, []) == Ok(k)
  {
  }

  lemma OneStep<P(!new)>(env: Env<P>, k: HDPrivateKey, indexes: seq<nat>)
    requires env.Valid() && indexes != []
    ensures DeriveAll(env, k, indexes[..1], false) == env.Derive(k, indexes[0], false, false)
    ensures CkdAll(env, k, indexes[..1]) == CkdPrivate(env, k, indexes[0])
  {
    hide env.Valid, env.Derive, CkdPrivate;
    assert indexes[..1][1..] == [];
  }

  lemma StartIsBip32Public<P(!new)>(env: Env<P>, k: HDPublicKey<P>)
    requires env.Valid()
    ensures DeriveAllPublic(env, k, []) == CkdAllPublic(env, k, []) == Ok(k)
  {
  }

  lemma OneStepPublic<P(!new)>(env: Env<P>, k: HDPublicKey<P>, indexes: seq<nat>)
    requires env.Valid() && indexes != []
    ensures DeriveAllPublic(env, k, indexes[..1]) == env.DerivePublic(k, indexes[0], false)
    ensures CkdAllPublic(env, k, indexes[..1]) == CkdPublic(env, k, indexes[0])
  {
    hide env.Valid, env.DerivePublic, CkdPublic;
    assert indexes[..1][1..] == [];
  }

  lemma {:induction false} PublicPathIsBip32Iff<P(!new)>(env: Env<P>, k: HDPublicKey<P>, indexes: seq<nat>)
    requires env.Valid()
    ensures IsBip32Public(env, k, indexes) <==> LeftsFitPublic(env, k, indexes)
    decreases |indexes|
  {
    hide env.Valid, env.DerivePublic, CkdPublic, LeftFitsPublic, DeriveAllPublic, CkdAllPublic;
    StartIsBip32Public(env, k);
    assert indexes[..0] == [];
    if indexes != [] {
      var first, rest := env.DerivePublic(k, indexes[0], false), indexes[1..];
      DerivePublicIsBip32Iff(env, k, indexes[0]);
      forall n | 0 < n <= |indexes|
        ensures LeftFitsPublic(env, k, indexes[0]) ==>
                  (DeriveAllPublic(env, k, indexes[..n]) == CkdAllPublic(env, k, indexes[..n]) <==>
                   first.Err? ||
                   DeriveAllPublic(env, first.value, rest[..n - 1]) == CkdAllPublic(env, first.value, rest[..n - 1]))
      {
        FirstStepPublic(env, k, indexes, n);
      }
      OneStepPublic(env, k, indexes);
      if first.Ok? {
        PublicPathIsBip32Iff(env, first.value, rest);
        if IsBip32Public(env, k, indexes) {
          forall m | 0 <= m <= |rest|
            ensures DeriveAllPublic(env, first.value, rest[..m]) == CkdAllPublic(env, first.value, rest[..m])
          {
            assert DeriveAllPublic(env, k, indexes[..m + 1]) == CkdAllPublic(env, k, indexes[..m + 1]);
          }
        }
      }
    }
  }

  // So the key at the end of such a path is the one BIP 32 gives.
  lemma FittingPath<P(!new)>(env: Env<P>, k: HDPrivateKey, indexes: seq<nat>)
    requires env.Valid() && LeftsFit(env, k, indexes)
    ensures DeriveAll(env, k, indexes, false) == CkdAll(env, k, indexes)
  {
    hide env.Valid, LeftsFit, DeriveAll, CkdAll;
    PathIsBip32Iff(env, k, indexes);
    assert indexes[..|indexes|] == indexes;
  }

  // ---------------------------------------------------------------- paths as texts

  lemma StepPrefix(steps: seq<Step>, n: nat, bound: nat)
    requires n <= |steps| && Below(StepIndexes(steps), bound)
    ensures StepIndexes(steps[..n]) == StepIndexes(steps)[..n] && Below(StepIndexes(steps[..n]), bound)
  {
    assert StepIndexes(steps[..n]) == StepIndexes(steps)[..n];
  }

  // Every beginning of a path given as a text leads to the key of BIP 32 under the same condition.
  lemma PathTextIsBip32Iff<P(!new)>(env: Env<P>, k: HDPrivateKey, root: string, steps: seq<Step>)
    requires env.Valid() && root in ROOT_ALIASES && Below(StepIndexes(steps), MAX_INDEX)
    ensures (forall n :: 0 <= n <= |steps| ==>
               DeriveFromString(env, k, PathText(root, steps[..n]), false) ==
               CkdAll(env, k, StepIndexes(steps)[..n])) <==>
            LeftsFit(env, k, StepIndexes(steps))
  {
    hide env.Valid, LeftsFit, DeriveAll, CkdAll, DerivationIndexes, PathText, StepIndexes, Below, ROOT_ALIASES;
    var indexes := StepIndexes(steps);
    StepCount(steps);
    PathIsBip32Iff(env, k, indexes);
    forall n | 0 <= n <= |steps|
      ensures DeriveFromString(env, k, PathText(root, steps[..n]), false) == DeriveAll(env, k, indexes[..n], false)
    {
      ParsedPath(root, steps[..n]);
      StepPrefix(steps, n, MAX_INDEX);
    }
  }

  lemma PublicPathTextIsBip32Iff<P(!new)>(env: Env<P>, k: HDPublicKey<P>, root: string, steps: seq<Step>)
    requires env.Valid() && root in ROOT_ALIASES && Below(StepIndexes(steps), HARDENED)
    requires '\'' !in root && !HasHardened(steps)
    ensures (forall n :: 0 <= n <= |steps| ==>
               DerivePublicFromString(env, k, PathText(root, steps[..n])) ==
               CkdAllPublic(env, k, StepIndexes(steps)[..n])) <==>
            LeftsFitPublic(env, k, StepIndexes(steps))
  {
    hide env.Valid, LeftsFitPublic, DeriveAllPublic, CkdAllPublic, DerivationIndexes, PathText, StepIndexes, Below;
    hide ROOT_ALIASES;
    var indexes := StepIndexes(steps);
    StepCount(steps);
    PublicPathIsBip32Iff(env, k, indexes);
    forall n | 0 <= n <= |steps|
      ensures DerivePublicFromString(env, k, PathText(root, steps[..n])) == DeriveAllPublic(env, k, indexes[..n])
    {
      ParsedPath(root, steps[..n]);
      PathQuote(root, steps[..n]);
      StepPrefix(steps, n, HARDENED);
    }
  }

  lemma StepCount(steps: seq<Step>)
    ensures |StepIndexes(steps)| == |steps|
  {
  }

  // ---------------------------------------------------------------- where the two differ

  lemma {:induction false} FromOnes(n: nat)
    ensures FromBytes(seq(n, _ => 255)) == Pow256(n) - 1
  {
    if n > 0 {
      FromOnes(n - 1);
      assert seq(n, _ => 255)[..n - 1] == seq(n - 1, _ => 255);
    }
  }

  lemma {:induction false} FromNothing(n: nat)
    ensures FromBytes(seq(n, _ => 0)) == 0
  {
    if n > 0 {
      FromNothing(n - 1);
      assert seq(n, _ => 0)[..n - 1] == seq(n - 1, _ => 0);
    }
  }

  // A hash of ones for data that end in a zero byte, and of zeros otherwise.
  function OnesAtZero(data: Bytes, key: Bytes): Bytes {
    seq(64, _ => if data != [] && data[|data| - 1] == 0 then 255 else 0)
  }

  function NoPrint(data: Bytes): Bytes {
    seq(20, _ => 0)
  }

  function SameVersion(version: nat): nat {
    version
  }

  function Example(): Env<Scalar> {
    Env(ScalarCurve(), OnesAtZero, NoPrint, SameVersion)
  }

  lemma ExampleValid()
    ensures Example().Valid()
  {
    ScalarCurveLawful();
  }

  lemma HashLeft(data: Bytes, key: Bytes)
    requires data != []
    ensures IsBytes(OnesAtZero(data, key)[..32])
    ensures FromBytes(OnesAtZero(data, key)[..32]) == if data[|data| - 1] == 0 then TWO256 - 1 else 0
  {
    hide FromBytes;
    FromOnes(32);
    FromNothing(32);
    Powers();
    var hash := OnesAtZero(data, key)[..32];
    assert hash == if data[|data| - 1] == 0 then seq(32, _ => 255) else seq(32, _ => 0);
  }

  lemma LastByte(index: nat)
    requires index < 256
    ensures |BigEndian(index, 4)| == 4 && BigEndian(index, 4)[3] == index
  {
    assert BigEndian(index, 4) == BigEndian(index / 256, 3) + [index % 256];
  }

  lemma LeftOf(k: HDPrivateKey, index: nat)
    requires Example().Valid() && index < 2
    ensures Left(Example(), k, index) == if index == 0 then TWO256 - 1 else 0
  {
    var env := Example();
    hide env.Valid, Compressed, FromBytes, BigEndian, OnesAtZero;
    LastByte(index);
    var point := Compressed(env.curve, env.curve.Mul(k.key, env.curve.g));
    HashLeft(point + BigEndian(index, 4), k.chainCode);
  }

  lemma ScalarAt(k: HDPrivateKey, index: nat)
    requires Example().Valid() && index < 2 && k.key == 1
    ensures Example().curve.n == ORDER && Yields(Example(), k, index)
  {
    hide Example().Valid, Left, TWO256, ORDER;
    LeftOf(k, index);
    Remainders();
    var left := Left(Example(), k, index);
    assert left + k.key == if index == 0 then TWO256 else 1;
    assert ChildKey(Example(), k, index) == (left + k.key) % Example().curve.n;
  }

  lemma Remainders()
    ensures ORDER > 0 && TWO256 % ORDER != 0 && 1 % ORDER != 0
  {
  }

  // Wherever the left half does not fit at an index that yields a key, and fits at the next, the
  // program takes the one and BIP 32 the other.
  lemma TakenAndSkipped<P(!new)>(env: Env<P>, k: HDPrivateKey, index: nat)
    requires env.Valid() && index + 1 < MAX_INDEX
    requires Yields(env, k, index) && Left(env, k, index) >= env.curve.n
    requires Yields(env, k, index + 1) && Left(env, k, index + 1) < env.curve.n
    ensures env.Derive(k, index, false, false) == Ok(env.Child(k, index, index >= HARDENED, false))
    ensures CkdPrivate(env, k, index) == Ok(env.Child(k, index + 1, index + 1 >= HARDENED, false))
    ensures !LeftFits(env, k, index)
  {
    hide env.Valid, env.ChildScalar, env.Child, Left, Hash, FingerPrint, ChildKey;
    SameChild(env, k, index);
    SameChild(env, k, index + 1);
    assert FirstYield(env, k, index, index);
  }

  // For the key 1 the program takes index 0 where BIP 32 goes on to index 1.
  lemma ProgramIsNotBip32(k: HDPrivateKey)
    requires k.key == 1
    ensures Example().Valid()
    ensures var child, standard := Example().Derive(k, 0, false, false), CkdPrivate(Example(), k, 0);
            && child.Ok? && child.value.childIndex == 0
            && standard.Ok? && standard.value.childIndex == 1
  {
    ExampleValid();
    ScalarAt(k, 0);
    ScalarAt(k, 1);
    LeftOf(k, 0);
    LeftOf(k, 1);
    OrderBelow();
    ExampleDiffers(k);
  }

  lemma OrderBelow()
    ensures 0 < ORDER < TWO256
  {
  }

  lemma ExampleDiffers(k: HDPrivateKey)
    requires Example().Valid() && Yields(Example(), k, 0) && Yields(Example(), k, 1)
    requires Left(Example(), k, 0) >= Example().curve.n && Left(Example(), k, 1) < Example().curve.n
    ensures var child, standard := Example().Derive(k, 0, false, false), CkdPrivate(Example(), k, 0);
            && child.Ok? && child.value.childIndex == 0
            && standard.Ok? && standard.value.childIndex == 1
  {
    var env := Example();
    hide env.Valid, env.Derive, env.ChildScalar, env.ChildData, env.FingerPrint, env.RightPart;
    hide Left, CkdPrivate, Example, Yields;
    TakenAndSkipped(env, k, 0);
  }
}
