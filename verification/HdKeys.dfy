/**
 Derivation of extended private and public keys by number.

 The hash functions are parameters.  A key keeps the four-byte version it is serialized with; which
 public version belongs to a private one is a parameter as well.
 */
module HdKeys {
  import opened Wrappers
  import opened Bytes
  import opened Curve

  const HARDENED := 0x8000_0000
  const MAX_INDEX := 2 * HARDENED

  datatype Error = InvalidPath(index: int) | InvalidPathString | CantDeriveHardened

  datatype HDPrivateKey = HDPrivateKey(
    version: nat, depth: nat, parentFingerPrint: Bytes, childIndex: nat, chainCode: Bytes, key: nat)

  datatype HDPublicKey<P> = HDPublicKey(
    version: nat, depth: nat, parentFingerPrint: Bytes, childIndex: nat, chainCode: Bytes, point: P)

  // hmac512 takes the data first and the key second, as the program's sha512hmac does.
  datatype Env<!P(==, !new)> = Env(
    curve: Curve<P>, hmac512: (Bytes, Bytes) -> Bytes, hash160: Bytes -> Bytes, publicVersion: nat -> nat)
  {
    predicate HashesFit(data: Bytes, key: Bytes) {
      && |hmac512(data, key)| == 64 && IsBytes(hmac512(data, key))
      && |hash160(data)| == 20 && IsBytes(hash160(data))
    }

    ghost predicate Valid() {
      && curve.Lawful()
      && (forall data, key :: HashesFit(data, key))
    }

    lemma Hashes(data: Bytes, key: Bytes)
      requires Valid()
      ensures |hmac512(data, key)| == 64 && IsBytes(hmac512(data, key))
      ensures |hash160(data)| == 20 && IsBytes(hash160(data))
    {
      assert HashesFit(data, key);
    }

    function Compressed(p: P): Bytes {
      [if curve.odd(p) then 3 else 2] + BigEndian(curve.x(p), 32)
    }

    function FingerPrint(p: P): Bytes
      requires Valid()
    {
      Hashes(Compressed(p), []);
      hash160(Compressed(p))[..4]
    }

    function PublicPoint(k: HDPrivateKey): P {
      curve.Mul(k.key, curve.g)
    }

    // What is hashed for a child.
    function ChildData(k: HDPrivateKey, index: nat, hardened: bool, nonCompliant: bool): Bytes {
      if hardened && nonCompliant then [0] + Minimal(k.key) + BigEndian(index, 4)
      else if hardened then [0] + BigEndian(k.key, 32) + BigEndian(index, 4)
      else Compressed(PublicPoint(k)) + BigEndian(index, 4)
    }

    // The 64 bytes a child is made from: 32 to be added to the key, and a chain code.
    function LeftPart(data: Bytes, chainCode: Bytes): nat
      requires Valid()
    {
      Hashes(data, chainCode);
      FromBytes(hmac512(data, chainCode)[..32])
    }

    function RightPart(data: Bytes, chainCode: Bytes): Bytes
      requires Valid()
    {
      Hashes(data, chainCode);
      hmac512(data, chainCode)[32..]
    }

    function ChildScalar(k: HDPrivateKey, index: nat, hardened: bool, nonCompliant: bool): nat
      requires Valid()
    {
      (LeftPart(ChildData(k, index, hardened, nonCompliant), k.chainCode) + k.key) % curve.n
    }

    function Child(k: HDPrivateKey, index: nat, hardened: bool, nonCompliant: bool): HDPrivateKey
      requires Valid()
    {
      HDPrivateKey(k.version, (k.depth + 1) % 256, FingerPrint(PublicPoint(k)), index,
                   RightPart(ChildData(k, index, hardened, nonCompliant), k.chainCode),
                   ChildScalar(k, index, hardened, nonCompliant))
    }

    // _deriveWithNumber.  A child whose key would be zero is skipped for the next index.
    function Derive(k: HDPrivateKey, index: int, hardened: bool, nonCompliant: bool): Result<HDPrivateKey, Error>
      requires Valid()
      decreases MAX_INDEX - index
    {
      if !IsValidIndex(index, hardened) then Err(InvalidPath(index))
      else
        var isHardened := index >= HARDENED || hardened;
        var i := if index < HARDENED && isHardened then index + HARDENED else index;
        if ChildScalar(k, i, isHardened, nonCompliant) == 0 then Derive(k, i + 1, false, nonCompliant)
        else Ok(Child(k, i, isHardened, nonCompliant))
    }

    // ---------------------------------------------------------------- public keys

    function PublicData(k: HDPublicKey<P>, index: nat): Bytes {
      Compressed(k.point) + BigEndian(index, 4)
    }

    function PublicChildPoint(k: HDPublicKey<P>, index: nat): P
      requires Valid()
    {
      curve.add(curve.Mul(LeftPart(PublicData(k, index), k.chainCode), curve.g), k.point)
    }

    function PublicChild(k: HDPublicKey<P>, index: nat): HDPublicKey<P>
      requires Valid()
    {
      HDPublicKey(k.version, (k.depth + 1) % 256, FingerPrint(k.point), index,
                  RightPart(PublicData(k, index), k.chainCode), PublicChildPoint(k, index))
    }

    // A child at infinity is skipped for the next index.
    function DerivePublic(k: HDPublicKey<P>, index: int, hardened: bool): Result<HDPublicKey<P>, Error>
      requires Valid()
      decreases HARDENED - index
    {
      if index >= HARDENED || hardened then Err(CantDeriveHardened)
      else if index < 0 then Err(InvalidPath(index))
      else if PublicChildPoint(k, index) == curve.zero then DerivePublic(k, index + 1, false)
      else Ok(PublicChild(k, index))
    }

    // The extended public key of an extended private key.
    function Neuter(k: HDPrivateKey): HDPublicKey<P> {
      HDPublicKey(publicVersion(k.version), k.depth, k.parentFingerPrint, k.childIndex, k.chainCode, PublicPoint(k))
    }

    // ---------------------------------------------------------------- the first valid index

    function Normalized(index: int, hardened: bool): int {
      if index < HARDENED && hardened then index + HARDENED else index
    }

    predicate Yields(k: HDPrivateKey, index: nat, nonCompliant: bool)
      requires Valid()
    {
      ChildScalar(k, index, index >= HARDENED, nonCompliant) != 0
    }

    // Derivation returns the child at the least index, from the one asked for, whose key is not
    // zero, hardened from 2^31 on; and it fails when there is none below 2^32.
    lemma {:induction false} DeriveFindsFirst(k: HDPrivateKey, index: int, hardened: bool, nonCompliant: bool)
      requires Valid() && index >= 0
      ensures match Derive(k, index, hardened, nonCompliant)
              case Ok(child) =>
                && Normalized(index, hardened) <= child.childIndex < MAX_INDEX
                && Yields(k, child.childIndex, nonCompliant)
                && child == Child(k, child.childIndex, child.childIndex >= HARDENED, nonCompliant)
                && (forall i :: Normalized(index, hardened) <= i < child.childIndex ==> !Yields(k, i, nonCompliant))
              case Err(e) =>
                && e == InvalidPath(if index < MAX_INDEX then MAX_INDEX else index)
                && (forall i :: Normalized(index, hardened) <= i < MAX_INDEX ==> !Yields(k, i, nonCompliant))
      decreases MAX_INDEX - index
    {
      hide Valid, ChildScalar, RightPart, FingerPrint, ChildData;
      if IsValidIndex(index, hardened) {
        var i := Normalized(index, hardened);
        if ChildScalar(k, i, i >= HARDENED, nonCompliant) == 0 {
          DeriveFindsFirst(k, i + 1, false, nonCompliant);
          assert !Yields(k, i, nonCompliant);
        }
      }
    }

    // A negative index is refused; with the flag for hardening 2^31 is added to it, and if the sum is
    // not negative either, the child there is made like a hardened one although its index is below 2^31.
    lemma DeriveNegative(k: HDPrivateKey, index: int, hardened: bool, nonCompliant: bool)
      requires Valid() && index < 0
      ensures var first := index + HARDENED;
              if !hardened || first < 0 then Derive(k, index, hardened, nonCompliant) == Err(InvalidPath(index))
              else if ChildScalar(k, first, true, nonCompliant) != 0 then
                Derive(k, index, hardened, nonCompliant) == Ok(Child(k, first, true, nonCompliant))
              else
                match Derive(k, index, hardened, nonCompliant)
                case Ok(child) =>
                  && first < child.childIndex < MAX_INDEX
                  && Yields(k, child.childIndex, nonCompliant)
                  && child == Child(k, child.childIndex, child.childIndex >= HARDENED, nonCompliant)
                  && (forall i :: first < i < child.childIndex ==> !Yields(k, i, nonCompliant))
                case Err(e) =>
                  e == InvalidPath(MAX_INDEX) && (forall i :: first < i < MAX_INDEX ==> !Yields(k, i, nonCompliant))
    {
      hide Valid, ChildScalar, RightPart, FingerPrint, ChildData;
      if hardened && index + HARDENED >= 0 && ChildScalar(k, index + HARDENED, true, nonCompliant) == 0 {
        DeriveFindsFirst(k, index + HARDENED + 1, false, nonCompliant);
      }
    }

    // Every field of a derived key, from the hash functions and the curve.  The secret is the key in 32 bytes, or
    // without padding in the non-compliant variant.
    lemma {:induction false} DeriveFields(k: HDPrivateKey, index: int, hardened: bool, nonCompliant: bool)
      requires Valid() && k.key < TWO256 && Derive(k, index, hardened, nonCompliant).Ok?
      ensures var child, p := Derive(k, index, hardened, nonCompliant).value, curve.Mul(k.key, curve.g);
              var i := child.childIndex;
              && i < 0x1_0000_0000 && i >= (if index < 0x8000_0000 && hardened then index + 0x8000_0000 else index)
              && exists secret: Bytes ::
                   && IsBytes(secret) && FromBytes(secret) == k.key
                   && (if nonCompliant then |secret| == 1 || (|secret| > 1 && secret[0] != 0) else |secret| == 32)
                   && var public := [if curve.odd(p) then 3 else 2] + BigEndian(curve.x(p), 32);
                      var first := i >= 0x8000_0000 || (index < 0 && i == index + 0x8000_0000);
                      var I := hmac512((if first then [0] + secret else public) + BigEndian(i, 4), k.chainCode);
                      && |I| == 64 && IsBytes(I) && |hash160(public)| == 20
                      && child == HDPrivateKey(k.version, (k.depth + 1) % 256, hash160(public)[..4], i, I[32..],
                                               (FromBytes(I[..32]) + k.key) % curve.n)
                      && child.key != 0
      decreases MAX_INDEX - index
    {
      hide Valid, BigEndian, FromBytes, Minimal, curve.Mul, IsBytes;
      var isHardened := index >= HARDENED || hardened;
      var i := if index < HARDENED && isHardened then index + HARDENED else index;
      if ChildScalar(k, i, isHardened, nonCompliant) == 0 {
        DeriveFields(k, i + 1, false, nonCompliant);
      } else {
        Secret(k, nonCompliant);
        Hashes(ChildData(k, i, isHardened, nonCompliant), k.chainCode);
        Hashes(Compressed(PublicPoint(k)), []);
        var secret := if nonCompliant then Minimal(k.key) else BigEndian(k.key, 32);
        assert FromBytes(secret) == k.key;
      }
    }

    lemma Secret(k: HDPrivateKey, nonCompliant: bool)
      requires k.key < TWO256
      ensures var secret := if nonCompliant then Minimal(k.key) else BigEndian(k.key, 32);
              && IsBytes(secret) && FromBytes(secret) == k.key
              && (if nonCompliant then |secret| == 1 || (|secret| > 1 && secret[0] != 0) else |secret| == 32)
    {
      Powers();
      FromMinimal(k.key);
      FromBigEndian(k.key, 32);
    }

    // Public derivation refuses hardened and negative indexes; it ends at the least index, from the one asked for,
    // whose child is not at infinity, and fails when there is none below 2^31.
    lemma {:induction false} DerivePublicFindsFirst(k: HDPublicKey<P>, index: int, hardened: bool)
      requires Valid()
      ensures index >= 0x8000_0000 || hardened ==> DerivePublic(k, index, hardened) == Err(CantDeriveHardened)
      ensures index < 0 && !hardened ==> DerivePublic(k, index, hardened) == Err(InvalidPath(index))
      ensures 0 <= index < 0x8000_0000 && !hardened ==>
                match DerivePublic(k, index, hardened)
                case Ok(child) =>
                  && index <= child.childIndex < 0x8000_0000 && PublicChildPoint(k, child.childIndex) != curve.zero
                  && (forall i :: index <= i < child.childIndex ==> PublicChildPoint(k, i) == curve.zero)
                case Err(e) =>
                  && e == CantDeriveHardened
                  && (forall i :: index <= i < 0x8000_0000 ==> PublicChildPoint(k, i) == curve.zero)
      decreases HARDENED - index
    {
      hide Valid, PublicChildPoint, RightPart, FingerPrint, PublicData;
      if 0 <= index < HARDENED && !hardened && PublicChildPoint(k, index) == curve.zero {
        DerivePublicFindsFirst(k, index + 1, false);
      }
    }

    lemma {:induction false} DerivePublicFields(k: HDPublicKey<P>, index: int, hardened: bool)
      requires Valid() && DerivePublic(k, index, hardened).Ok?
      ensures var child := DerivePublic(k, index, hardened).value;
              var i := child.childIndex;
              var public := [if curve.odd(k.point) then 3 else 2] + BigEndian(curve.x(k.point), 32);
              var I := hmac512(public + BigEndian(i, 4), k.chainCode);
              && 0 <= index <= i < 0x8000_0000 && !hardened
              && |I| == 64 && IsBytes(I) && |hash160(public)| == 20
              && child == HDPublicKey(k.version, (k.depth + 1) % 256, hash160(public)[..4], i, I[32..],
                                      curve.add(curve.Mul(FromBytes(I[..32]), curve.g), k.point))
              && child.point != curve.zero
      decreases HARDENED - index
    {
      hide Valid, BigEndian, FromBytes, curve.Mul, IsBytes;
      if PublicChildPoint(k, index) == curve.zero {
        DerivePublicFields(k, index + 1, false);
      } else {
        Hashes(PublicData(k, index), k.chainCode);
        Hashes(Compressed(k.point), []);
      }
    }

    // ---------------------------------------------------------------- private and public derivation

    predicate WellFormed(k: HDPrivateKey) {
      0 < k.key < curve.n
    }

    lemma {:induction false} DeriveWellFormed(k: HDPrivateKey, index: int, hardened: bool, nonCompliant: bool)
      requires Valid()
      ensures Derive(k, index, hardened, nonCompliant).Ok? ==>
                WellFormed(Derive(k, index, hardened, nonCompliant).value)
      decreases MAX_INDEX - index
    {
      hide ChildData, RightPart, FingerPrint, LeftPart;
      if IsValidIndex(index, hardened) {
        var isHardened := index >= HARDENED || hardened;
        var i := if index < HARDENED && isHardened then index + HARDENED else index;
        if ChildScalar(k, i, isHardened, nonCompliant) == 0 {
          DeriveWellFormed(k, i + 1, false, nonCompliant);
        }
      }
    }

    // One index: the public child is the neutered private child, and it is skipped together with it.
    lemma ChildCommutes(k: HDPrivateKey, index: nat, nonCompliant: bool)
      requires Valid()
      ensures PublicChildPoint(Neuter(k), index) == curve.Mul(ChildScalar(k, index, false, nonCompliant), curve.g)
      ensures PublicChildPoint(Neuter(k), index) == curve.zero <==> ChildScalar(k, index, false, nonCompliant) == 0
      ensures PublicChild(Neuter(k), index) == Neuter(Child(k, index, false, nonCompliant))
    {
      var left := LeftPart(PublicData(Neuter(k), index), k.chainCode);
      curve.MulAdd(left, k.key, curve.g);
      curve.MulModulo(left + k.key);
    }

    // Deriving publicly from the neutered key gives the neutered privately derived key, and fails
    // exactly when private derivation leaves the indexes below 2^31.
    lemma {:induction false} DerivationsCommute(k: HDPrivateKey, index: int, nonCompliant: bool)
      requires Valid() && 0 <= index < HARDENED
      ensures var private, public := Derive(k, index, false, nonCompliant), DerivePublic(Neuter(k), index, false);
              && (public.Ok? <==> private.Ok? && private.value.childIndex < HARDENED)
              && (public.Ok? ==> public.value == Neuter(private.value))
              && (public.Err? ==> public.error == CantDeriveHardened)
      decreases HARDENED - index
    {
      ChildCommutes(k, index, nonCompliant);
      if ChildScalar(k, index, false, nonCompliant) == 0 {
        if index + 1 < HARDENED {
          DerivationsCommute(k, index + 1, nonCompliant);
        } else {
          DeriveFindsFirst(k, index + 1, false, nonCompliant);
        }
      }
    }

    // ---------------------------------------------------------------- the non-compliant variant

    // The two variants hash the same data for a hardened child exactly when the key needs 32 bytes.
    lemma ChildDataAgrees(k: HDPrivateKey, index: nat)
      requires Valid() && WellFormed(k)
      ensures ChildData(k, index, true, true) == ChildData(k, index, true, false) <==> k.key >= TWO248
      ensures k.key < TWO248 ==> |ChildData(k, index, true, true)| < |ChildData(k, index, true, false)|
    {
      Powers();
      MinimalLength(k.key, 32);
    }

    lemma SameChild(k: HDPrivateKey, index: nat, hardened: bool)
      requires Valid() && WellFormed(k) && (k.key >= TWO248 || !hardened)
      ensures ChildScalar(k, index, hardened, true) == ChildScalar(k, index, hardened, false)
      ensures Child(k, index, hardened, true) == Child(k, index, hardened, false)
    {
      hide Valid, LeftPart, RightPart, FingerPrint;
      if hardened {
        ChildDataAgrees(k, index);
      }
    }

    lemma {:induction false} LargeKeyAgrees(k: HDPrivateKey, index: int, hardened: bool)
      requires Valid() && WellFormed(k) && k.key >= TWO248
      ensures Derive(k, index, hardened, true) == Derive(k, index, hardened, false)
      decreases MAX_INDEX - index
    {
      hide Valid, Child, ChildScalar;
      if IsValidIndex(index, hardened) {
        var isHardened := index >= HARDENED || hardened;
        var i := if index < HARDENED && isHardened then index + HARDENED else index;
        SameChild(k, i, isHardened);
        if ChildScalar(k, i, isHardened, false) == 0 {
          LargeKeyAgrees(k, i + 1, false);
        }
      }
    }

    // Below 2^31 the two variants are the same as long as derivation stays there.
    lemma {:induction false} NormalIndexAgrees(k: HDPrivateKey, index: int)
      requires Valid() && WellFormed(k) && 0 <= index < HARDENED
      requires Derive(k, index, false, false).Ok? && Derive(k, index, false, false).value.childIndex < HARDENED
      ensures Derive(k, index, false, true) == Derive(k, index, false, false)
      decreases HARDENED - index
    {
      hide Valid, Child, ChildScalar, Yields;
      SameChild(k, index, false);
      if ChildScalar(k, index, false, false) == 0 {
        DeriveFindsFirst(k, index + 1, false, false);
        NormalIndexAgrees(k, index + 1);
      }
    }
  }

  // isValidPath for a number: the index after hardening must be in range.
  predicate IsValidIndex(index: int, hardened: bool) {
    var i := if index < HARDENED && hardened then index + HARDENED else index;
    0 <= i < MAX_INDEX
  }
}
