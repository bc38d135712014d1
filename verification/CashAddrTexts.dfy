/**
 The texts of CashAddr addresses, written out: their characters, the bits they stand for and the multiples
 of the generator they make.
 */
module CashAddrTexts {
  import opened Bits
  import opened Wrappers
  import opened CashAddr
  import opened GeneratorMultiples
  import Base32
  import ConvertBits
  import CashAddrProperties
  import Polymod
  import Text

  // ---------------------------------------------------------------- characters

  // A text with the capital letters from A to Z made small.
  predicate IsLowered(s: string, t: string) {
    |s| == |t| && forall i :: 0 <= i < |s| ==> t[i] == if 'A' <= s[i] <= 'Z' then (s[i] as int + 32) as char else s[i]
  }

  predicate IsMixed(s: string) {
    exists i, j :: 0 <= i < |s| && 0 <= j < |s| && 'a' <= s[i] <= 'z' && 'A' <= s[j] <= 'Z'
  }

  predicate Spells(text: string, symbols: seq<int>) {
    |text| == |symbols| &&
    forall i :: 0 <= i < |text| ==>
      0 <= symbols[i] < 32 && text[i] == "qpzry9x8gf2tvdw0s3jn54khce6mua7l"[symbols[i]]
  }

  // A text without a colon, or the two parts of one with a single colon.
  predicate IsSplit(s: string, prefix: string, text: string) {
    && ':' !in prefix && ':' !in text
    && (IsLowered(s, prefix + ":" + text) || (prefix == "" && IsLowered(s, text)))
  }

  lemma LoweredIsLower(s: string, t: string)
    ensures IsLowered(s, t) <==> t == Text.Lower(s)
  {
  }

  lemma MixedIff(s: string)
    ensures IsMixed(s) <==> !HasSingleCase(s)
  {
    if !HasSingleCase(s) {
      assert exists i :: 0 <= i < |s| && 'A' <= s[i] <= 'Z' by {
        var i :| 0 <= i < |s| && s[i] != Text.Lower(s)[i];
      }
      assert exists i :: 0 <= i < |s| && 'a' <= s[i] <= 'z' by {
        var i :| 0 <= i < |s| && s[i] != Text.Upper(s)[i];
      }
    }
    if i, j :| 0 <= i < |s| && 0 <= j < |s| && 'a' <= s[i] <= 'z' && 'A' <= s[j] <= 'Z' {
      assert Text.Upper(s)[i] != s[i] && Text.Lower(s)[j] != s[j];
    }
  }

  lemma SpellsIff(text: string, symbols: seq<int>)
    ensures Spells(text, symbols) <==> Base32.Decodable(text) && Base32.Decoded(text) == symbols
    ensures Spells(text, symbols) <==> Base32.Encodable(symbols) && Base32.Encoded(symbols) == text
  {
    if Base32.Decodable(text) && Base32.Decoded(text) == symbols {
      Base32.DecodeThenEncode(text);
    }
    if Base32.Encodable(symbols) && Base32.Encoded(symbols) == text {
      Base32.EncodeThenDecode(symbols);
    }
  }

  lemma PartsIff(s: string, prefix: string, text: string)
    ensures Pieces(s) == Ok((prefix, text)) <==> !IsMixed(s) && IsSplit(s, prefix, text)
  {
    hide Text.Split, Text.Lower, Text.Upper, Text.Join, IsLowered, IsMixed;
    MixedIff(s);
    LoweredIsLower(s, prefix + ":" + text);
    LoweredIsLower(s, text);
    if Pieces(s) == Ok((prefix, text)) {
      CashAddrProperties.AddressParts(s, prefix, text);
      CashAddrProperties.ColonInLower(s);
    }
    if !IsMixed(s) && IsSplit(s, prefix, text) {
      Text.SplitNone(text, ':');
      if Text.Lower(s) == prefix + ":" + text {
        Text.SplitFirst(prefix, text, ':');
        assert prefix + [':'] + text == prefix + ":" + text;
      }
    }
  }

  // ---------------------------------------------------------------- bits

  // The bits of the bytes in groups of five, the last one filled up with zeros.
  predicate Carries(symbols: seq<int>, bytes: seq<int>) {
    && 8 * |bytes| <= 5 * |symbols| < 8 * |bytes| + 5
    && forall k :: 0 <= k < 5 * |symbols| ==>
         (BitOf(symbols[k / 5], 5, k % 5) <==> k < 8 * |bytes| && BitOf(bytes[k / 8], 8, k % 8))
  }

  lemma BitOfSymbols(symbols: seq<int>, k: nat)
    requires k < 5 * |symbols|
    ensures |Join(symbols, 5)| == 5 * |symbols| && (Join(symbols, 5)[k] <==> BitOf(symbols[k / 5], 5, k % 5))
  {
    hide Join, BitOf;
    JoinAt(symbols, 5, k / 5, k % 5);
  }

  lemma CarriesIff(symbols: seq<int>, bytes: seq<int>)
    ensures |Join(symbols, 5)| == 5 * |symbols| && |Join(bytes, 8)| == 8 * |bytes|
    ensures Carries(symbols, bytes) <==>
            var n := 5 * |symbols| - 8 * |bytes|; 0 <= n < 5 && Join(symbols, 5) == Join(bytes, 8) + Zeros(n)
  {
    hide Join, BitOf;
    JoinLength(symbols, 5);
    JoinLength(bytes, 8);
    var n := 5 * |symbols| - 8 * |bytes|;
    if 0 <= n < 5 {
      var b, c := Join(symbols, 5), Join(bytes, 8) + Zeros(n);
      forall k | 0 <= k < 5 * |symbols|
        ensures b[k] <==> BitOf(symbols[k / 5], 5, k % 5)
        ensures c[k] <==> k < 8 * |bytes| && BitOf(bytes[k / 8], 8, k % 8)
      {
        BitOfSymbols(symbols, k);
        if k < 8 * |bytes| {
          BitOfBytes(bytes, k);
        }
      }
    }
  }

  lemma RegroupIff(symbols: seq<int>, bytes: seq<int>)
    requires Fits(symbols, 5)
    ensures ConvertBits.Regroup(symbols, 5, 8, true) == Ok(bytes) <==> Fits(bytes, 8) && Carries(symbols, bytes)
  {
    hide Join, Fits, Chop, Leftover, Carries;
    CarriesIff(symbols, bytes);
    var b := Join(symbols, 5);
    JoinChop(b, 8);
    if ConvertBits.Regroup(symbols, 5, 8, true) == Ok(bytes) {
      assert b == Join(bytes, 8) + Leftover(b, 8);
    }
    if Fits(bytes, 8) && Carries(symbols, bytes) {
      ChopJoin(bytes, Zeros(5 * |symbols| - 8 * |bytes|), 8);
    }
  }

  lemma PaddedIff(bytes: seq<int>, symbols: seq<int>)
    requires Fits(bytes, 8)
    ensures ConvertBits.Regroup(bytes, 8, 5, false) == Ok(symbols) <==> Fits(symbols, 5) && Carries(symbols, bytes)
  {
    hide Fits, Carries, ConvertBits.Regroup;
    ConvertBits.RegroupThereAndBack(bytes, 8, 5);
    if ConvertBits.Regroup(bytes, 8, 5, false) == Ok(symbols) {
      RegroupIff(symbols, bytes);
    }
    if Fits(symbols, 5) && Carries(symbols, bytes) {
      RegroupIff(symbols, bytes);
      ConvertBits.RegroupBackAndThere(symbols, 8, 5);
    }
  }

  // ---------------------------------------------------------------- checksums

  // The lower five bits of the characters.
  function Fives(prefix: string): seq<int> {
    seq(|prefix|, i requires 0 <= i < |prefix| => prefix[i] as int % 32)
  }

  // With a zero between the prefix and the symbols.
  lemma ValidIffLeavesOne(prefix: string, symbols: seq<int>)
    ensures ValidChecksum(prefix, symbols) <==> LeavesOne(Fives(prefix) + [0] + symbols)
  {
    hide Polymod.Checksum, LeavesOne;
    assert WithPrefix(prefix, symbols) == Fives(prefix) + [0] + symbols;
    ZeroIffLeavesOne(Fives(prefix) + [0] + symbols);
  }

  // ---------------------------------------------------------------- version bytes

  // The three low bits tell the size of the hash in bytes, the next four the type.
  predicate IsVersion(version: int, kind: AddressType, size: nat) {
    && 0 <= version < 256
    && [20, 24, 28, 32, 40, 48, 56, 64][version % 8] == size
    && version / 8 % 16 == if kind.ScriptHash? then 1 else 0
  }

  lemma VersionIff(version: int, kind: AddressType, size: nat)
    requires 0 <= version < 256
    ensures IsVersion(version, kind, size) <==> HashSize(version) == size * 8 && TypeOf(version) == Some(kind)
  {
    assert version % 8 in {0, 1, 2, 3, 4, 5, 6, 7};
  }

  lemma VersionByteIff(a: Address, version: int)
    ensures |a.hash| * 8 in HASH_SIZES ==>
              (version == VersionByte(a) <==> version < 128 && IsVersion(version, a.kind, |a.hash|))
    ensures |a.hash| * 8 !in HASH_SIZES ==> !IsVersion(version, a.kind, |a.hash|)
  {
    assert version % 8 in {0, 1, 2, 3, 4, 5, 6, 7};
    var size := |a.hash| * 8;
    if size in HASH_SIZES {
      assert SizeBits(size) in {0, 1, 2, 3, 4, 5, 6, 7};
      var v := VersionByte(a);
      assert v % 8 == SizeBits(size) && v / 8 == if a.kind.ScriptHash? then 1 else 0;
    }
  }

  // ---------------------------------------------------------------- encoding

  // The symbols of a version byte and a hash, followed by eight that complete the checksum.
  ghost predicate IsPayload(prefix: string, version: int, hash: seq<int>, symbols: seq<int>) {
    && |symbols| >= 8 && Carries(symbols[..|symbols| - 8], [version] + hash)
    && LeavesOne(Fives(prefix) + [0] + symbols)
  }

  lemma PayloadIff(prefix: string, version: int, hash: seq<int>, symbols: seq<int>)
    requires 0 <= version < 256 && Fits(hash, 8) && Fits(symbols, 5)
    ensures Payload(prefix, version, hash) == Some(symbols) <==> IsPayload(prefix, version, hash, symbols)
  {
    hide Fits, Carries, ConvertBits.Regroup, LeavesOne, ChecksumOf, ValidChecksum, Fives;
    var bytes := [version] + hash;
    Pow2Of8Fits(version, hash);
    ValidIffLeavesOne(prefix, symbols);
    if Payload(prefix, version, hash) == Some(symbols) {
      var data := ConvertBits.Regroup(bytes, 8, 5, false).value;
      CashAddrProperties.ChecksumOfIsChecksum(prefix, data);
      PaddedIff(bytes, data);
      assert symbols == data + ChecksumOf(prefix, data);
      CashAddrProperties.ValidIffChecksum(prefix, data, ChecksumOf(prefix, data));
      assert symbols[..|symbols| - 8] == data;
    }
    if IsPayload(prefix, version, hash, symbols) {
      var data, tail := symbols[..|symbols| - 8], symbols[|symbols| - 8..];
      assert symbols == data + tail;
      FitsSplit(data, tail);
      PaddedIff(bytes, data);
      CashAddrProperties.ValidIffChecksum(prefix, data, tail);
    }
  }

  lemma FitsSplit(a: seq<int>, b: seq<int>)
    requires Fits(a + b, 5)
    ensures Fits(a, 5) && Fits(b, 5)
  {
    forall i | 0 <= i < |b|
      ensures 0 <= b[i] < Pow2(5)
    {
      assert (a + b)[|a| + i] == b[i];
    }
    forall i | 0 <= i < |a|
      ensures 0 <= a[i] < Pow2(5)
    {
      assert (a + b)[i] == a[i];
    }
  }

  // Characters that spell the payload of a version byte, with its reserved bit clear, and the hash.
  ghost predicate IsWriting(a: Address, version: int, symbols: seq<int>, spelled: string) {
    && version < 128 && IsVersion(version, a.kind, |a.hash|)
    && IsPayload(a.network.prefix, version, a.hash, symbols) && Spells(spelled, symbols)
  }

  lemma WritingIff(a: Address, version: int, symbols: seq<int>, spelled: string)
    requires Fits(a.hash, 8) && |a.hash| * 8 in HASH_SIZES
    ensures IsWriting(a, version, symbols, spelled) <==>
            && version == VersionByte(a) && Payload(a.network.prefix, version, a.hash) == Some(symbols)
            && Base32.Encodable(symbols) && spelled == Base32.Encoded(symbols)
  {
    hide Fits, Payload, IsPayload, Spells, Base32.Encodable, Base32.Encoded, IsVersion;
    VersionByteIff(a, version);
    VersionInRange(a);
    SpellsIff(spelled, symbols);
    EncodableFits(symbols);
    if version == VersionByte(a) && Base32.Encodable(symbols) {
      PayloadIff(a.network.prefix, version, a.hash, symbols);
    }
  }

  // What an address is encoded to, with or without prefix and colon in front.
  lemma EncodedWrittenOut(a: Address, stripPrefix: bool, text: string)
    requires Fits(a.hash, 8)
    ensures Encoding(a, stripPrefix) == Ok(text) <==>
            && a.network.prefix != ""
            && exists version, symbols, spelled ::
                 && IsWriting(a, version, symbols, spelled)
                 && text == (if stripPrefix then "" else a.network.prefix + ":") + spelled
    ensures Encoding(a, stripPrefix).Err? ==>
              Encoding(a, stripPrefix) == Err(if a.network.prefix == "" then NoPrefix else InvalidHashSize)
    ensures a.network.prefix != "" ==>
              (Encoding(a, stripPrefix).Err? <==> |a.hash| !in [20, 24, 28, 32, 40, 48, 56, 64])
  {
    hide Fits, Payload, IsWriting, Base32.Encodable, Base32.Encoded;
    SizesIff(|a.hash|);
    if |a.hash| * 8 in HASH_SIZES {
      var payload := SomePayload(a);
      WritingIff(a, VersionByte(a), payload, Base32.Encoded(payload));
      forall version, symbols, spelled | IsWriting(a, version, symbols, spelled)
        ensures symbols == payload && spelled == Base32.Encoded(payload)
      {
        WritingIff(a, version, symbols, spelled);
      }
      assert "" + Base32.Encoded(payload) == Base32.Encoded(payload);
    } else {
      forall version, symbols, spelled
        ensures !IsWriting(a, version, symbols, spelled)
      {
        NotWritten(a, version, symbols, spelled);
      }
    }
  }

  lemma SomePayload(a: Address) returns (payload: seq<int>)
    requires Fits(a.hash, 8) && |a.hash| * 8 in HASH_SIZES
    ensures Payload(a.network.prefix, VersionByte(a), a.hash) == Some(payload) && Base32.Encodable(payload)
  {
    hide Fits, Payload, Base32.Encodable;
    VersionInRange(a);
    CashAddrProperties.EncodedIsValid(a.network.prefix, VersionByte(a), a.hash);
    payload := Payload(a.network.prefix, VersionByte(a), a.hash).value;
  }

  lemma NotWritten(a: Address, version: int, symbols: seq<int>, spelled: string)
    requires |a.hash| * 8 !in HASH_SIZES
    ensures !IsWriting(a, version, symbols, spelled)
  {
    VersionByteIff(a, version);
  }

  lemma SizesIff(size: nat)
    ensures size * 8 in HASH_SIZES <==> size in [20, 24, 28, 32, 40, 48, 56, 64]
  {
  }

  lemma VersionInRange(a: Address)
    requires |a.hash| * 8 in HASH_SIZES
    ensures 0 <= VersionByte(a) < 128
  {
  }

  // ---------------------------------------------------------------- decoding

  // The prefix a payload is accepted under: the one given, or the first of the three it is valid under.
  predicate IsCandidate(given: string, prefix: string) {
    if given == "" then prefix in ["bitcoincash", "bchtest", "bchreg"] else prefix == given
  }

  lemma AcceptedIff(reg: NetworkIndex, given: string, symbols: seq<int>, prefix: string)
    requires HasDefaults(reg)
    ensures AcceptedPrefix(reg, given, symbols) == Some(prefix) <==>
            IsCandidate(given, prefix) && LeavesOne(Fives(prefix) + [0] + symbols)
  {
    hide ValidChecksum, LeavesOne, FindPrefix, Fives;
    ValidIffLeavesOne(prefix, symbols);
    if AcceptedPrefix(reg, given, symbols) == Some(prefix) {
      CashAddrProperties.AcceptedIsValid(reg, given, symbols, prefix);
    }
    if IsCandidate(given, prefix) && ValidChecksum(prefix, symbols) && given == "" {
      CashAddrProperties.PrefixFound(reg, prefix, symbols);
    }
  }

  function Data(symbols: seq<int>): seq<int> {
    if |symbols| <= 8 then [] else symbols[..|symbols| - 8]
  }

  lemma DataFits(symbols: seq<int>)
    requires Base32.Encodable(symbols)
    ensures Fits(Data(symbols), 5) && Data(symbols) == DropLast8(symbols)
  {
    EncodableFits(Data(symbols));
  }

  // What is read out of the bits: a version byte, its kind and size, and the hash.
  ghost predicate IsRead(reg: NetworkIndex, prefix: string, symbols: seq<int>, version: int, info: Info) {
    && Fits([version] + info.hash, 8) && Carries(Data(symbols), [version] + info.hash)
    && IsVersion(version, info.kind, |info.hash|)
    && info.network == if prefix in reg then Some(reg[prefix]) else None
  }

  lemma InfoIff(reg: NetworkIndex, prefix: string, symbols: seq<int>, info: Info)
    requires Base32.Encodable(symbols)
    ensures InfoOf(reg, prefix, Data(symbols)) == Ok(info) <==>
            exists version :: IsRead(reg, prefix, symbols, version, info)
  {
    hide Fits, Carries, ConvertBits.Regroup, HashSize, TypeOf, IsVersion;
    DataFits(symbols);
    var data := Data(symbols);
    if InfoOf(reg, prefix, data) == Ok(info) {
      var bytes := ConvertBits.Regroup(data, 5, 8, true).value;
      RegroupIff(data, bytes);
      assert bytes == [bytes[0]] + info.hash;
      FirstByte(bytes[0], info.hash);
      VersionIff(bytes[0], info.kind, |info.hash|);
      assert IsRead(reg, prefix, symbols, bytes[0], info);
    }
    if version :| IsRead(reg, prefix, symbols, version, info) {
      var bytes := [version] + info.hash;
      RegroupIff(data, bytes);
      FirstByte(version, info.hash);
      VersionIff(version, info.kind, |info.hash|);
      assert bytes[1..] == info.hash;
    }
  }

  lemma FirstByte(version: int, hash: seq<int>)
    requires Fits([version] + hash, 8)
    ensures 0 <= version < 256
  {
    Polymod.Pow2Of8();
    FitsFirst(version, hash, 8);
  }

  // A text and what it spells under a prefix.
  ghost predicate IsReading(reg: NetworkIndex, s: string, given: string, text: string, symbols: seq<int>,
                            prefix: string, version: int, info: Info)
  {
    && IsSplit(s, given, text) && Spells(text, symbols)
    && IsCandidate(given, prefix) && LeavesOne(Fives(prefix) + [0] + symbols)
    && IsRead(reg, prefix, symbols, version, info)
  }

  // What a text decodes to: not of mixed case, its part behind the prefix spells symbols that with the prefix
  // and a zero are a multiple of the generator plus 1, and their bits are those of the version byte and the hash.
  lemma DecodedWrittenOut(reg: NetworkIndex, s: string, info: Info)
    requires HasDefaults(reg)
    ensures Decoded(reg, s) == Ok(info) <==>
            && !IsMixed(s)
            && exists given, text, symbols, prefix, version ::
                 IsReading(reg, s, given, text, symbols, prefix, version, info)
  {
    hide IsMixed, IsSplit, Spells, IsRead, LeavesOne, InfoOf, AcceptedPrefix, Pieces, Fives, DropLast8, Data;
    hide Base32.Decodable, Base32.Decoded, Base32.Encodable;
    if Decoded(reg, s) == Ok(info) {
      var (given, text) := Pieces(s).value;
      var symbols := Base32.Decoded(text);
      var prefix := AcceptedPrefix(reg, given, symbols).value;
      PartsIff(s, given, text);
      SpellsIff(text, symbols);
      AcceptedIff(reg, given, symbols, prefix);
      DataFits(symbols);
      InfoIff(reg, prefix, symbols, info);
      var version :| IsRead(reg, prefix, symbols, version, info);
      assert IsReading(reg, s, given, text, symbols, prefix, version, info);
    }
    if !IsMixed(s) {
      forall given, text, symbols, prefix, version | IsReading(reg, s, given, text, symbols, prefix, version, info)
        ensures Decoded(reg, s) == Ok(info)
      {
        PartsIff(s, given, text);
        SpellsIff(text, symbols);
        AcceptedIff(reg, given, symbols, prefix);
        DataFits(symbols);
        InfoIff(reg, prefix, symbols, info);
      }
    }
  }

  // Why other texts are refused, in the order of the checks.
  lemma RefusedWrittenOut(reg: NetworkIndex, s: string)
    requires HasDefaults(reg)
    ensures IsMixed(s) <==> Decoded(reg, s) == Err(MixedCase)
    ensures !IsMixed(s) ==>
              ((forall given, text :: !IsSplit(s, given, text)) <==> Decoded(reg, s) == Err(InvalidFormat))
    ensures forall given, text :: !IsMixed(s) && IsSplit(s, given, text) ==>
              ((forall symbols :: !Spells(text, symbols)) <==> Decoded(reg, s) == Err(InvalidSymbol))
    ensures forall given, text, symbols :: !IsMixed(s) && IsSplit(s, given, text) && Spells(text, symbols) ==>
              ((forall prefix :: IsCandidate(given, prefix) ==> !LeavesOne(Fives(prefix) + [0] + symbols)) <==>
               Decoded(reg, s) == Err(InvalidChecksum))
    ensures forall given, text, symbols, prefix ::
              !IsMixed(s) && IsSplit(s, given, text) && Spells(text, symbols) &&
              IsCandidate(given, prefix) && LeavesOne(Fives(prefix) + [0] + symbols) ==>
              ((forall bytes :: !(Fits(bytes, 8) && Carries(Data(symbols), bytes))) <==>
               Decoded(reg, s) == Err(InvalidPadding))
  {
    hide IsMixed, IsSplit, Spells, LeavesOne, AcceptedPrefix, Fives, Carries, Fits, DropLast8, Data, IsCandidate;
    hide Base32.Decodable, Base32.Decoded, Base32.Encodable, ConvertBits.Regroup, Text.Split, Text.Lower;
    hide HasSingleCase, HashSize, TypeOf;
    MixedIff(s);
    if !IsMixed(s) && Pieces(s).Ok? {
      var (given, text) := Pieces(s).value;
      PartsIff(s, given, text);
    }
    forall given, text | !IsMixed(s) && IsSplit(s, given, text)
      ensures Pieces(s) == Ok((given, text))
      ensures (forall symbols :: !Spells(text, symbols)) <==> !Base32.Decodable(text)
    {
      PartsIff(s, given, text);
      SpellsIff(text, if Base32.Decodable(text) then Base32.Decoded(text) else []);
      forall symbols
        ensures Spells(text, symbols) ==> Base32.Decodable(text) && Base32.Decoded(text) == symbols
      {
        SpellsIff(text, symbols);
      }
    }
    forall given, symbols: seq<int>, prefix
      ensures AcceptedPrefix(reg, given, symbols) == Some(prefix) <==>
              IsCandidate(given, prefix) && LeavesOne(Fives(prefix) + [0] + symbols)
    {
      AcceptedIff(reg, given, symbols, prefix);
    }
    forall text, symbols | Spells(text, symbols)
      ensures Base32.Decodable(text) && Base32.Decoded(text) == symbols && Data(symbols) == DropLast8(symbols)
      ensures (forall bytes :: !(Fits(bytes, 8) && Carries(Data(symbols), bytes))) <==>
              ConvertBits.Regroup(Data(symbols), 5, 8, true).Err?
    {
      SpellsIff(text, symbols);
      DataFits(symbols);
      forall bytes
        ensures ConvertBits.Regroup(Data(symbols), 5, 8, true) == Ok(bytes) <==>
                Fits(bytes, 8) && Carries(Data(symbols), bytes)
      {
        RegroupIff(Data(symbols), bytes);
      }
    }
  }

  // The last two checks: the size of the hash, and its type.
  lemma SizeRefused(reg: NetworkIndex, s: string, given: string, text: string, symbols: seq<int>, prefix: string,
                    bytes: seq<int>)
    requires HasDefaults(reg) && !IsMixed(s) && IsSplit(s, given, text) && Spells(text, symbols)
    requires IsCandidate(given, prefix) && LeavesOne(Fives(prefix) + [0] + symbols)
    requires Fits(bytes, 8) && Carries(Data(symbols), bytes)
    ensures Decoded(reg, s) == Err(InvalidHashSize) <==>
            bytes == [] || [20, 24, 28, 32, 40, 48, 56, 64][bytes[0] % 8] != |bytes| - 1
    ensures Decoded(reg, s) == Err(InvalidType) <==>
            && bytes != [] && [20, 24, 28, 32, 40, 48, 56, 64][bytes[0] % 8] == |bytes| - 1
            && bytes[0] / 8 % 16 > 1
  {
    hide IsMixed, IsSplit, Spells, LeavesOne, AcceptedPrefix, Fives, Carries, Fits, DropLast8, Data, IsCandidate;
    hide Pieces, Base32.Decodable, Base32.Decoded, Base32.Encodable, ConvertBits.Regroup;
    PartsIff(s, given, text);
    SpellsIff(text, symbols);
    AcceptedIff(reg, given, symbols, prefix);
    DataFits(symbols);
    RegroupIff(Data(symbols), bytes);
    if bytes != [] {
      assert bytes[0] % 8 in {0, 1, 2, 3, 4, 5, 6, 7};
    }
  }
}
