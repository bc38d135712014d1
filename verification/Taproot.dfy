/** Tweaking keys for Taproot: the private side, the public side and the check of an output key. */
module Taproot {
  import opened Arithmetic
  import opened Wrappers
  import opened Bytes
  import opened Curve

  // The last three are what the program runs into, not errors it names: a public key that is not
  // 32 bytes, an x coordinate without a point, and a coordinate of the point at infinity.
  datatype Error = InvalidMerkleRoot | TweakOutOfRange | InvalidLength | InvalidX | PointAtInfinity

  type MerkleRoot = Option<Bytes>

  // "TapTweak"
  const TAP_TWEAK: Bytes := [0x54, 0x61, 0x70, 0x54, 0x77, 0x65, 0x61, 0x6b]

  datatype Tweaked = Tweaked(parity: nat, key: Bytes)

  datatype Env<!P(==, !new)> = Env(curve: Curve<P>, sha256: Bytes -> Bytes) {

    predicate HashFits(data: Bytes) {
      |sha256(data)| == 32 && IsBytes(sha256(data))
    }

    ghost predicate Valid() {
      curve.Lawful() && forall data :: HashFits(data)
    }

    function TaggedHash(tag: Bytes, message: Bytes): Bytes {
      sha256(sha256(tag) + sha256(tag) + message)
    }

    // The tweak for an x coordinate and an optional merkle root.
    function TweakFor(x: nat, root: MerkleRoot): Result<nat, Error>
      requires Valid()
    {
      if root.Some? && |root.value| != 32 then Err(InvalidMerkleRoot)
      else
        var message := BigEndian(x, 32) + (if root.Some? then root.value else []);
        assert HashFits(sha256(TAP_TWEAK) + sha256(TAP_TWEAK) + message);
        var t := FromBytes(TaggedHash(TAP_TWEAK, message));
        if t < curve.n then Ok(t) else Err(TweakOutOfRange)
    }

    // The point with the same x and an even y.
    function LiftX(p: P): P {
      if curve.odd(p) then curve.neg(p) else p
    }

    // PrivateKey.createTapTweak
    function TweakPrivate(key: nat, root: MerkleRoot): Result<nat, Error>
      requires Valid() && 0 < key < curve.n
    {
      var p := curve.Mul(key, curve.g);
      var secKey := if curve.odd(p) then curve.n - key else key;
      match TweakFor(curve.x(p), root)
      case Err(e) => Err(e)
      case Ok(t) => Ok((secKey + t) % curve.n)
    }

    function TweakedPoint(p: P, t: nat): P {
      curve.add(LiftX(p), curve.Mul(t, curve.g))
    }

    // PublicKey.createTapTweak
    function TweakPublic(p: P, root: MerkleRoot): Result<Tweaked, Error>
      requires Valid()
    {
      match TweakFor(curve.x(p), root)
      case Err(e) => Err(e)
      case Ok(t) =>
        var q := TweakedPoint(p, t);
        if q == curve.zero then Err(PointAtInfinity)
        else Ok(Tweaked(if curve.odd(q) then 1 else 0, BigEndian(curve.x(q), 32)))
    }

    // PublicKey.fromTaproot
    function FromTaproot(b: Bytes): Result<P, Error>
      requires IsBytes(b)
    {
      if |b| != 32 then Err(InvalidLength)
      else
        match curve.fromX(FromBytes(b))
        case None => Err(InvalidX)
        case Some(p) => Ok(p)
    }

    // A missing control byte reads as zero.
    function ControlParity(control: Bytes): int {
      if control == [] then 0 else control[0] % 2
    }

    // output.checkTapTweak(p, root, control) for a point p
    function CheckTweak(output: P, p: P, root: MerkleRoot, control: Bytes): Result<bool, Error>
      requires Valid()
    {
      match TweakFor(curve.x(p), root)
      case Err(e) => Err(e)
      case Ok(t) =>
        var q := TweakedPoint(p, t);
        if q == curve.zero then Err(PointAtInfinity)
        else Ok(curve.x(output) == curve.x(q) && (if curve.odd(q) then 1 else 0) == ControlParity(control))
    }

    // The same for p given as 32 bytes.
    function CheckTweakBytes(output: P, p: Bytes, root: MerkleRoot, control: Bytes): Result<bool, Error>
      requires Valid() && IsBytes(p)
    {
      match FromTaproot(p)
      case Err(e) => Err(e)
      case Ok(point) => CheckTweak(output, point, root, control)
    }

    // ---------------------------------------------------------------- the tweak of BIP 341

    // The tagged hash with "TapTweak" for the tag, of the x coordinate and the root.
    lemma TweakIsTaggedHash(x: nat, root: MerkleRoot)
      requires Valid() && (root.Some? ==> |root.value| == 32)
      ensures var tag := sha256([0x54, 0x61, 0x70, 0x54, 0x77, 0x65, 0x61, 0x6b]);
              var hash := sha256(tag + tag + BigEndian(x, 32) + (if root.Some? then root.value else []));
              && IsBytes(hash)
              && TweakFor(x, root) == if FromBytes(hash) < curve.n then Ok(FromBytes(hash)) else Err(TweakOutOfRange)
    {
      hide BigEndian, FromBytes, IsBytes;
      var tag := sha256(TAP_TWEAK);
      var message := BigEndian(x, 32) + (if root.Some? then root.value else []);
      assert HashFits(tag + tag + message);
      assert tag + tag + message == tag + tag + BigEndian(x, 32) + (if root.Some? then root.value else []);
    }

    // All three operations, from the hash function and the curve: the tweak is that of BIP 341, added to the key
    // whose point has an even y, or to that point; a root that has not 32 bytes is refused.
    lemma TweakingIsBip341(key: nat, p: P, output: P, root: MerkleRoot, control: Bytes)
      requires Valid() && 0 < key < curve.n
      ensures root.Some? && |root.value| != 32 ==>
                && TweakPrivate(key, root) == Err(InvalidMerkleRoot) && TweakPublic(p, root) == Err(InvalidMerkleRoot)
                && CheckTweak(output, p, root, control) == Err(InvalidMerkleRoot)
      ensures root.None? || |root.value| == 32 ==>
                var tag := sha256([0x54, 0x61, 0x70, 0x54, 0x77, 0x65, 0x61, 0x6b]);
                var suffix := if root.Some? then root.value else [];
                var own := curve.Mul(key, curve.g);
                var hash, hash' := sha256(tag + tag + BigEndian(curve.x(own), 32) + suffix),
                                   sha256(tag + tag + BigEndian(curve.x(p), 32) + suffix);
                && IsBytes(hash) && IsBytes(hash')
                && TweakPrivate(key, root) ==
                   (if FromBytes(hash) >= curve.n then Err(TweakOutOfRange)
                    else Ok(((if curve.odd(own) then curve.n - key else key) + FromBytes(hash)) % curve.n))
                && var q := curve.add(if curve.odd(p) then curve.neg(p) else p, curve.Mul(FromBytes(hash'), curve.g));
                   var parity := if curve.odd(q) then 1 else 0;
                   && TweakPublic(p, root) ==
                      (if FromBytes(hash') >= curve.n then Err(TweakOutOfRange)
                       else if q == curve.zero then Err(PointAtInfinity)
                       else Ok(Tweaked(parity, BigEndian(curve.x(q), 32))))
                   && CheckTweak(output, p, root, control) ==
                      (if FromBytes(hash') >= curve.n then Err(TweakOutOfRange)
                       else if q == curve.zero then Err(PointAtInfinity)
                       else Ok(curve.x(output) == curve.x(q) &&
                               parity == (if control == [] then 0 else control[0] % 2)))
    {
      hide TaggedHash, BigEndian, FromBytes, IsBytes, curve.Mul, curve.Lawful;
      if root.None? || |root.value| == 32 {
        TweakIsTaggedHash(curve.x(curve.Mul(key, curve.g)), root);
        TweakIsTaggedHash(curve.x(p), root);
        hide TweakFor;
      }
    }

    // A key of 32 bytes is read as the point with that x and an even y.
    lemma FromTaprootIsLift(p: P, b: Bytes)
      requires Valid() && IsBytes(b)
      ensures p != curve.zero && !curve.odd(p) ==> FromTaproot(BigEndian(curve.x(p), 32)) == Ok(p)
      ensures |b| != 32 ==> FromTaproot(b) == Err(InvalidLength)
      ensures |b| == 32 && curve.fromX(FromBytes(b)).None? ==> FromTaproot(b) == Err(InvalidX)
    {
      hide BigEndian, FromBytes;
      if p != curve.zero && !curve.odd(p) {
        assert curve.HasParity(p) && curve.Lifts(p);
        Powers();
        FromBigEndian(curve.x(p), 32);
      }
    }

    // ---------------------------------------------------------------- the two sides agree

    lemma KeyPoint(key: nat)
      requires Valid() && 0 < key < curve.n
      ensures curve.Mul(key, curve.g) != curve.zero
      ensures LiftX(curve.Mul(key, curve.g)) ==
              curve.Mul(if curve.odd(curve.Mul(key, curve.g)) then curve.n - key else key, curve.g)
    {
      curve.MulModulo(key);
      curve.MulNegative(key);
    }

    // The tweaked private key belongs to the tweaked public key, whichever parity the original point has.  Only
    // the tweak that is the key itself, or its negative if the point is even, gives a private key of zero, which
    // the private side returns and the public side fails on.
    lemma SidesAgree(key: nat, root: MerkleRoot)
      requires Valid() && 0 < key < curve.n
      ensures var p := curve.Mul(key, curve.g);
              var private, public := TweakPrivate(key, root), TweakPublic(p, root);
              match TweakFor(curve.x(p), root)
              case Err(e) => private == Err(e) && public == Err(e)
              case Ok(t) =>
                && private.Ok? && private.value < curve.n
                && if t == (if curve.odd(p) then key else curve.n - key) then
                     private.value == 0 && public == Err(PointAtInfinity)
                   else
                     var point := curve.Mul(private.value, curve.g);
                     && private.value > 0
                     && public == Ok(Tweaked(if curve.odd(point) then 1 else 0, BigEndian(curve.x(point), 32)))
    {
      hide TweakFor, BigEndian, FromBytes, LiftX, curve.Mul, curve.Lawful;
      var p := curve.Mul(key, curve.g);
      KeyPoint(key);
      var tweak := TweakFor(curve.x(p), root);
      if tweak.Ok? {
        var secKey := if curve.odd(p) then curve.n - key else key;
        TweakBelow(curve.x(p), root);
        SumZero(secKey, tweak.value);
        curve.MulAdd(secKey, tweak.value, curve.g);
        curve.MulModulo(secKey + tweak.value);
      }
    }

    lemma TweakBelow(x: nat, root: MerkleRoot)
      requires Valid() && TweakFor(x, root).Ok?
      ensures TweakFor(x, root).value < curve.n
    {
    }

    lemma SumZero(a: nat, t: nat)
      requires 0 < a < curve.n && t < curve.n
      ensures (a + t) % curve.n == 0 <==> t == curve.n - a
      ensures (a + t) % curve.n < curve.n
    {
      if a + t < curve.n {
        DivisionUnique(a + t, curve.n, 0, a + t);
      } else {
        DivisionUnique(a + t, curve.n, 1, a + t - curve.n);
      }
    }

    // ---------------------------------------------------------------- checking

    // A check of an output key is exactly a comparison with what tweaking gives.
    lemma CheckIsExact(output: P, p: P, root: MerkleRoot, control: Bytes)
      requires Valid() && output != curve.zero
      ensures CheckTweak(output, p, root, control) ==
              match TweakPublic(p, root)
              case Err(e) => Err(e)
              case Ok(t) => Ok(BigEndian(curve.x(output), 32) == t.key && ControlParity(control) == t.parity)
    {
      hide TweakFor, BigEndian, FromBytes, TweakedPoint;
      var tweak := TweakFor(curve.x(p), root);
      if tweak.Ok? {
        var q := TweakedPoint(p, tweak.value);
        if q != curve.zero {
          assert curve.HasParity(q) && curve.HasParity(output);
          Powers();
          if BigEndian(curve.x(output), 32) == BigEndian(curve.x(q), 32) {
            BigEndianInjective(curve.x(output), curve.x(q), 32);
          }
        }
      }
    }

    lemma LiftOpposite(p: P)
      requires Valid() && p != curve.zero
      ensures LiftX(curve.neg(p)) == LiftX(p) && curve.x(curve.neg(p)) == curve.x(p) && curve.neg(p) != curve.zero
    {
      curve.NegNeg(p);
      assert curve.HasParity(p) && curve.SharesX(curve.neg(p), p);
    }

    // Tweaking depends on the x coordinate only, so a point, its opposite and its 32 bytes agree.
    lemma TweakOfX(p: P, root: MerkleRoot, output: P, control: Bytes)
      requires Valid() && p != curve.zero
      ensures TweakPublic(curve.neg(p), root) == TweakPublic(p, root)
      ensures CheckTweakBytes(output, BigEndian(curve.x(p), 32), root, control) == CheckTweak(output, p, root, control)
    {
      hide TweakFor, BigEndian, FromBytes, LiftX;
      LiftOpposite(p);
      assert curve.HasParity(p) && curve.Lifts(p);
      Powers();
      FromBigEndian(curve.x(p), 32);
    }

    // The key an output publishes passes the check with its parity, and with no other.
    lemma OutputChecks(p: P, root: MerkleRoot, control: Bytes)
      requires Valid() && TweakPublic(p, root).Ok?
      ensures var t := TweakPublic(p, root).value;
              && FromTaproot(t.key).Ok?
              && CheckTweak(FromTaproot(t.key).value, p, root, control) == Ok(ControlParity(control) == t.parity)
    {
      hide TweakFor, BigEndian, FromBytes, TweakedPoint, FromTaproot;
      var q := TweakedPoint(p, TweakFor(curve.x(p), root).value);
      PointRecovered(q);
    }

    lemma PointRecovered(q: P)
      requires Valid() && q != curve.zero
      ensures var r := FromTaproot(BigEndian(curve.x(q), 32)); r.Ok? && curve.x(r.value) == curve.x(q)
    {
      hide BigEndian, FromBytes;
      assert curve.HasParity(q) && curve.Lifts(q) && curve.LiftsTo(curve.x(q));
      Powers();
      FromBigEndian(curve.x(q), 32);
    }
  }

  // ---------------------------------------------------------------- where only the private side returns

  function HashOne(data: Bytes): Bytes {
    BigEndian(1, 32)
  }

  function Example(): Env<Scalar> {
    Env(ScalarCurve(), HashOne)
  }

  // If the key 1 of an odd point is tweaked by 1, the tweaked key is zero, and the private side returns it.
  lemma ZeroReturned()
    ensures Example().Valid()
    ensures Example().TweakPrivate(1, None) == Ok(0)
    ensures Example().TweakPublic(Example().curve.Mul(1, Example().curve.g), None) == Err(PointAtInfinity)
  {
    ScalarCurveLawful();
    Powers();
    FromBigEndian(1, 32);
    ScalarMul(1);
    ExampleTweak();
    Example().SidesAgree(1, None);
  }

  lemma ExampleTweak()
    requires Example().Valid() && Example().curve.Mul(1, 1) == 1 && FromBytes(BigEndian(1, 32)) == 1
    ensures Example().TweakPrivate(1, None) == Ok(0)
  {
    hide BigEndian, FromBytes, Example().curve.Mul, Example().curve.Lawful;
  }
}
