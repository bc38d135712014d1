/** The 78 bytes an extended key is serialized as, before Base58Check. */
module Serialization {
  import opened Wrappers
  import opened Bytes
  import opened Curve
  import opened HdKeys

  datatype Error = InvalidLength | InvalidPrivateKey | InvalidPublicKey

  predicate Sized(version: nat, depth: nat, parentFingerPrint: Bytes, childIndex: nat, chainCode: Bytes) {
    && version < 0x1_0000_0000 && depth < 256 && childIndex < 0x1_0000_0000
    && |parentFingerPrint| == 4 && IsBytes(parentFingerPrint)
    && |chainCode| == 32 && IsBytes(chainCode)
  }

  // The fields that private and public keys share, in 45 bytes.
  function Header(version: nat, depth: nat, parentFingerPrint: Bytes, childIndex: nat, chainCode: Bytes): Bytes {
    BigEndian(version, 4) + [depth] + parentFingerPrint + BigEndian(childIndex, 4) + chainCode
  }

  lemma Layout(a: Bytes, b: Bytes, c: Bytes, d: Bytes, e: Bytes, f: Bytes)
    requires |a| == 4 && |b| == 1 && |c| == 4 && |d| == 4 && |e| == 32 && |f| == 33
    ensures var all := a + b + c + d + e + f;
            && |all| == 78 && all[0..4] == a && all[4..5] == b && all[5..9] == c
            && all[9..13] == d && all[13..45] == e && all[45..78] == f
  {
  }

  lemma HeaderParts(version: nat, depth: nat, parentFingerPrint: Bytes, childIndex: nat, chainCode: Bytes, rest: Bytes)
    requires Sized(version, depth, parentFingerPrint, childIndex, chainCode) && |rest| == 33 && IsBytes(rest)
    ensures var b := Header(version, depth, parentFingerPrint, childIndex, chainCode) + rest;
            && |b| == 78 && IsBytes(b)
            && FromBytes(b[0..4]) == version && b[4..5] == [depth] && b[5..9] == parentFingerPrint
            && FromBytes(b[9..13]) == childIndex && b[13..45] == chainCode && b[45..78] == rest
  {
    hide BigEndian, FromBytes;
    Powers();
    FromBigEndian(version, 4);
    FromBigEndian(childIndex, 4);
    Layout(BigEndian(version, 4), [depth], parentFingerPrint, BigEndian(childIndex, 4), chainCode, rest);
  }

  lemma PartsHeader(b: Bytes)
    requires |b| == 78 && IsBytes(b)
    ensures Sized(FromBytes(b[0..4]), b[4], b[5..9], FromBytes(b[9..13]), b[13..45])
    ensures Header(FromBytes(b[0..4]), b[4], b[5..9], FromBytes(b[9..13]), b[13..45]) == b[..45]
  {
    hide BigEndian, FromBytes;
    Powers();
    ToBigEndian(b[0..4]);
    ToBigEndian(b[9..13]);
    assert b[0..4] + [b[4]] + b[5..9] + b[9..13] + b[13..45] == b[..45];
  }

  // ---------------------------------------------------------------- private keys

  // What _buildFromBuffers concatenates, with the zero byte in front of the key.
  function SerializePrivate(k: HDPrivateKey): Bytes {
    Header(k.version, k.depth, k.parentFingerPrint, k.childIndex, k.chainCode) + [0] + BigEndian(k.key, 32)
  }

  // What _buildFromSerialized reads.  The byte in front of the key is skipped.
  function ParsePrivate(order: nat, b: Bytes): Result<HDPrivateKey, Error>
    requires IsBytes(b)
  {
    if |b| != 78 then Err(InvalidLength)
    else
      var key := FromBytes(b[46..78]);
      if key == 0 || key >= order then Err(InvalidPrivateKey)
      else Ok(HDPrivateKey(FromBytes(b[0..4]), b[4], b[5..9], FromBytes(b[9..13]), b[13..45], key))
  }

  predicate SizedPrivate(order: nat, k: HDPrivateKey) {
    && Sized(k.version, k.depth, k.parentFingerPrint, k.childIndex, k.chainCode)
    && 0 < k.key < order <= TWO256
  }

  lemma SerializedPrivateParses(order: nat, k: HDPrivateKey)
    requires SizedPrivate(order, k)
    ensures IsBytes(SerializePrivate(k)) && ParsePrivate(order, SerializePrivate(k)) == Ok(k)
  {
    hide BigEndian, FromBytes, Header;
    var rest := [0] + BigEndian(k.key, 32);
    HeaderParts(k.version, k.depth, k.parentFingerPrint, k.childIndex, k.chainCode, rest);
    Powers();
    FromBigEndian(k.key, 32);
    var b := SerializePrivate(k);
    assert b == Header(k.version, k.depth, k.parentFingerPrint, k.childIndex, k.chainCode) + rest;
    assert b[46..78] == BigEndian(k.key, 32) by {
      assert b[46..78] == b[45..78][1..];
    }
  }

  // What parses is what serializing the result gives if and only if the skipped byte is zero.
  lemma ParsedPrivateSerializesIff(order: nat, b: Bytes)
    requires IsBytes(b) && order <= TWO256 && ParsePrivate(order, b).Ok?
    ensures SizedPrivate(order, ParsePrivate(order, b).value)
    ensures SerializePrivate(ParsePrivate(order, b).value) == b <==> b[45] == 0
  {
    hide BigEndian, FromBytes, Header;
    PartsHeader(b);
    ToBigEndian(b[46..78]);
    Powers();
    assert SerializePrivate(ParsePrivate(order, b).value) == b[..45] + [0] + b[46..78];
    assert b[46..78] == b[46..];
    ReplaceByte(b, 45, 0);
  }

  // Every value of that byte reads as the same key, so all but one are other bytes for it.
  lemma SkippedByteIgnored(order: nat, k: HDPrivateKey, value: int)
    requires SizedPrivate(order, k) && 0 < value < 256
    ensures var b := SerializePrivate(k);
            && |b| == 78 && IsBytes(b[45 := value]) && b[45 := value] != b
            && ParsePrivate(order, b[45 := value]) == Ok(k)
  {
    hide BigEndian, FromBytes, Header, SizedPrivate;
    SerializedPrivateParses(order, k);
    var b := SerializePrivate(k);
    var c := b[45 := value];
    assert b[45] == 0;
    assert c[0..4] == b[0..4] && c[5..9] == b[5..9] && c[9..13] == b[9..13] && c[13..45] == b[13..45];
    assert c[46..78] == b[46..78];
  }

  lemma ReplaceByte(b: Bytes, i: nat, value: int)
    requires i < |b|
    ensures b[..i] + [value] + b[i + 1..] == b <==> b[i] == value
  {
    var c := b[..i] + [value] + b[i + 1..];
    assert c[i] == value;
    assert b == b[..i] + [b[i]] + b[i + 1..];
  }

  // ---------------------------------------------------------------- public keys

  function SerializePublic<P(!new)>(env: Env<P>, k: HDPublicKey<P>): Bytes {
    Header(k.version, k.depth, k.parentFingerPrint, k.childIndex, k.chainCode) + env.Compressed(k.point)
  }

  // A compressed point: its x coordinate and the parity of its y.
  function ParsePoint<P(!new)>(c: Curve<P>, b: Bytes): Option<P>
    requires |b| == 33 && IsBytes(b)
  {
    if b[0] != 2 && b[0] != 3 then None
    else
      match c.fromX(FromBytes(b[1..]))
      case None => None
      case Some(even) => Some(if b[0] == 3 then c.neg(even) else even)
  }

  function ParsePublic<P(!new)>(env: Env<P>, b: Bytes): Result<HDPublicKey<P>, Error>
    requires IsBytes(b)
  {
    if |b| != 78 then Err(InvalidLength)
    else
      match ParsePoint(env.curve, b[45..78])
      case None => Err(InvalidPublicKey)
      case Some(p) => Ok(HDPublicKey(FromBytes(b[0..4]), b[4], b[5..9], FromBytes(b[9..13]), b[13..45], p))
  }

  predicate SizedPublic<P(!new)>(env: Env<P>, k: HDPublicKey<P>) {
    && Sized(k.version, k.depth, k.parentFingerPrint, k.childIndex, k.chainCode)
    && k.point != env.curve.zero
  }

  lemma CompressedParses<P(!new)>(env: Env<P>, p: P)
    requires env.curve.Lawful() && p != env.curve.zero
    ensures IsBytes(env.Compressed(p)) && |env.Compressed(p)| == 33
    ensures ParsePoint(env.curve, env.Compressed(p)) == Some(p)
  {
    hide BigEndian, FromBytes;
    var c := env.curve;
    assert c.HasParity(p) && c.Lifts(p);
    Powers();
    FromBigEndian(c.x(p), 32);
    assert env.Compressed(p)[1..] == BigEndian(c.x(p), 32);
    c.NegNeg(p);
  }

  lemma SerializedPublicParses<P(!new)>(env: Env<P>, k: HDPublicKey<P>)
    requires env.curve.Lawful() && SizedPublic(env, k)
    ensures IsBytes(SerializePublic(env, k)) && ParsePublic(env, SerializePublic(env, k)) == Ok(k)
  {
    hide BigEndian, FromBytes, Header, ParsePoint, env.Compressed;
    CompressedParses(env, k.point);
    HeaderParts(k.version, k.depth, k.parentFingerPrint, k.childIndex, k.chainCode, env.Compressed(k.point));
  }

  // What parses is what serializing the result gives if and only if the x that was read is a
  // coordinate, which means below the size of the field.
  lemma ParsedPublicSerializesIff<P(!new)>(env: Env<P>, b: Bytes)
    requires IsBytes(b) && env.curve.Lawful() && ParsePublic(env, b).Ok?
    ensures SizedPublic(env, ParsePublic(env, b).value)
    ensures SerializePublic(env, ParsePublic(env, b).value) == b <==> FromBytes(b[46..78]) < env.curve.field
  {
    hide BigEndian, FromBytes, Header, ParsePoint, env.Compressed;
    PartsHeader(b);
    var point := b[45..78];
    PointCompressesIff(env, point);
    assert point[1..] == b[46..78];
    var parsed := env.Compressed(ParsePoint(env.curve, point).value);
    assert (b[..45] + parsed)[45..] == parsed && b[..45] + point == b && b[45..] == point;
  }

  lemma PointCompressesIff<P(!new)>(env: Env<P>, b: Bytes)
    requires env.curve.Lawful() && |b| == 33 && IsBytes(b) && ParsePoint(env.curve, b).Some?
    ensures ParsePoint(env.curve, b).value != env.curve.zero
    ensures env.Compressed(ParsePoint(env.curve, b).value) == b <==> FromBytes(b[1..]) < env.curve.field
  {
    hide BigEndian, FromBytes;
    var c := env.curve;
    var v := FromBytes(b[1..]);
    assert c.LiftsTo(v);
    var even := c.fromX(v).value;
    c.NegNeg(even);
    assert c.HasParity(even) && c.SharesX(c.neg(even), even);
    ToBigEndian(b[1..]);
    assert b == [b[0]] + b[1..];
    var x := c.x(ParsePoint(c, b).value);
    CoordinateBytes(c, even, x, b[1..]);
    assert env.Compressed(ParsePoint(c, b).value)[1..] == BigEndian(x, 32);
  }

  // Bytes that write a coordinate stand for that coordinate.
  lemma CoordinateBytes<P(!new)>(c: Curve<P>, p: P, x: nat, b: Bytes)
    requires c.Lawful() && p != c.zero && x == c.x(p) && |b| == 32 && IsBytes(b)
    ensures BigEndian(x, 32) == b ==> FromBytes(b) < c.field
  {
    hide BigEndian, FromBytes;
    assert c.HasParity(p);
    Powers();
    FromBigEndian(x, 32);
  }

  // ---------------------------------------------------------------- the layout

  // Where the fields stand: four bytes of version, one of depth, four of the parent's fingerprint, four of the
  // index, 32 of chain code, and 33 of key, numbers with the most significant byte first.
  predicate HasLayout(b: Bytes, version: nat, depth: nat, parentFingerPrint: Bytes, childIndex: nat, chainCode: Bytes)
  {
    && |b| == 78 && IsBytes(b)
    && b[..4] == [version / 0x100_0000 % 256, version / 0x1_0000 % 256, version / 0x100 % 256, version % 256]
    && b[4] == depth && b[5..9] == parentFingerPrint
    && b[9..13] ==
       [childIndex / 0x100_0000 % 256, childIndex / 0x1_0000 % 256, childIndex / 0x100 % 256, childIndex % 256]
    && b[13..45] == chainCode
  }

  lemma PrivateLayout(order: nat, k: HDPrivateKey)
    requires SizedPrivate(order, k)
    ensures var b := SerializePrivate(k);
            && HasLayout(b, k.version, k.depth, k.parentFingerPrint, k.childIndex, k.chainCode)
            && b[45] == 0 && FromBytes(b[46..]) == k.key
  {
    hide BigEndian, FromBytes;
    var rest := [0] + BigEndian(k.key, 32);
    LayoutOf(k.version, k.depth, k.parentFingerPrint, k.childIndex, k.chainCode, rest);
    Powers();
    FromBigEndian(k.key, 32);
    var b := SerializePrivate(k);
    assert b == Header(k.version, k.depth, k.parentFingerPrint, k.childIndex, k.chainCode) + rest;
    assert b[46..] == b[45..][1..];
  }

  lemma PublicLayout<P(!new)>(env: Env<P>, k: HDPublicKey<P>)
    requires env.curve.Lawful() && SizedPublic(env, k)
    ensures var b := SerializePublic(env, k);
            && HasLayout(b, k.version, k.depth, k.parentFingerPrint, k.childIndex, k.chainCode)
            && b[45] == (if env.curve.odd(k.point) then 3 else 2) && FromBytes(b[46..]) == env.curve.x(k.point)
  {
    hide BigEndian, FromBytes;
    var c := env.curve;
    assert c.HasParity(k.point);
    var rest := [if c.odd(k.point) then 3 else 2] + BigEndian(c.x(k.point), 32);
    LayoutOf(k.version, k.depth, k.parentFingerPrint, k.childIndex, k.chainCode, rest);
    Powers();
    FromBigEndian(c.x(k.point), 32);
    var b := SerializePublic(env, k);
    assert b == Header(k.version, k.depth, k.parentFingerPrint, k.childIndex, k.chainCode) + rest;
    assert b[46..] == b[45..][1..];
  }

  lemma LayoutOf(version: nat, depth: nat, parentFingerPrint: Bytes, childIndex: nat, chainCode: Bytes, rest: Bytes)
    requires Sized(version, depth, parentFingerPrint, childIndex, chainCode) && |rest| == 33 && IsBytes(rest)
    ensures var b := Header(version, depth, parentFingerPrint, childIndex, chainCode) + rest;
            HasLayout(b, version, depth, parentFingerPrint, childIndex, chainCode) && b[45..] == rest
  {
    hide BigEndian, FromBytes;
    HeaderParts(version, depth, parentFingerPrint, childIndex, chainCode, rest);
    FourBytes(version);
    FourBytes(childIndex);
    var b := Header(version, depth, parentFingerPrint, childIndex, chainCode) + rest;
    assert b[..4] == BigEndian(version, 4) && b[9..13] == BigEndian(childIndex, 4) && b[45..] == b[45..78];
  }

  // A private and a public key never serialize to the same bytes, whatever their versions.
  lemma PrivateIsNotPublic<P(!new)>(env: Env<P>, order: nat, k: HDPrivateKey, q: HDPublicKey<P>)
    requires SizedPrivate(order, k) && SizedPublic(env, q) && env.curve.Lawful()
    ensures SerializePrivate(k) != SerializePublic(env, q)
  {
    hide BigEndian, FromBytes, Header;
    CompressedParses(env, q.point);
    var rest := [0] + BigEndian(k.key, 32);
    HeaderParts(k.version, k.depth, k.parentFingerPrint, k.childIndex, k.chainCode, rest);
    HeaderParts(q.version, q.depth, q.parentFingerPrint, q.childIndex, q.chainCode, env.Compressed(q.point));
    assert SerializePrivate(k) == Header(k.version, k.depth, k.parentFingerPrint, k.childIndex, k.chainCode) + rest;
    assert SerializePrivate(k)[45..78][0] == 0;
    assert SerializePublic(env, q)[45..78][0] != 0;
  }

  lemma PrivateInjective(order: nat, k: HDPrivateKey, l: HDPrivateKey)
    requires SizedPrivate(order, k) && SizedPrivate(order, l) && SerializePrivate(k) == SerializePrivate(l)
    ensures k == l
  {
    hide SerializePrivate, ParsePrivate;
    SerializedPrivateParses(order, k);
    SerializedPrivateParses(order, l);
  }

  lemma PublicInjective<P(!new)>(env: Env<P>, k: HDPublicKey<P>, l: HDPublicKey<P>)
    requires env.curve.Lawful() && SizedPublic(env, k) && SizedPublic(env, l)
    requires SerializePublic(env, k) == SerializePublic(env, l)
    ensures k == l
  {
    hide SerializePublic, ParsePublic;
    SerializedPublicParses(env, k);
    SerializedPublicParses(env, l);
  }
}
