/**
 Encoding and decoding of CashAddr addresses.

 Strings are taken to be ASCII.  The networks a program has registered are given as a map from every
 indexed value (a network's name, its prefix, ...) to the first network that has it.
 */
module CashAddr {
  import opened Bits
  import opened Wrappers
  import Text
  import Base32
  import ConvertBits
  import Polymod

  // A network without a prefix has the empty string here.
  datatype CashNetwork = CashNetwork(name: string, prefix: string)

  datatype AddressType = PubKeyHash | ScriptHash

  datatype Address = Address(hash: seq<int>, network: CashNetwork, kind: AddressType)

  datatype Info = Info(hash: seq<int>, network: Option<CashNetwork>, kind: AddressType)

  datatype Error =
    | NoPrefix | MixedCase | InvalidFormat | InvalidSymbol | InvalidChecksum
    | InvalidPadding | InvalidHashSize | InvalidType

  type NetworkIndex = map<string, CashNetwork>

  // The networks that are tried when an address has no prefix.
  const DEFAULT_NETWORKS: seq<string> := ["livenet", "testnet", "regtest"]

  // A network is registered under its name and under its prefix.
  predicate Registered(reg: NetworkIndex, name: string, prefix: string) {
    && name in reg && reg[name].prefix == prefix
    && prefix in reg && reg[prefix].prefix == prefix
  }

  predicate HasDefaults(reg: NetworkIndex) {
    && Registered(reg, "livenet", "bitcoincash")
    && Registered(reg, "testnet", "bchtest")
    && Registered(reg, "regtest", "bchreg")
  }

  // ---------------------------------------------------------------- version byte

  const HASH_SIZES: seq<int> := [160, 192, 224, 256, 320, 384, 448, 512]

  function TypeBits(kind: AddressType): int {
    match kind
    case PubKeyHash => 0
    case ScriptHash => 8
  }

  // The code of a hash size in bits, or 8 if there is none.
  function SizeBits(size: int): (code: nat)
    ensures code <= 8
    ensures code < 8 <==> size in HASH_SIZES
    ensures code < 8 ==> HASH_SIZES[code] == size
  {
    if size == 160 then 0 else if size == 192 then 1 else if size == 224 then 2 else if size == 256 then 3
    else if size == 320 then 4 else if size == 384 then 5 else if size == 448 then 6 else if size == 512 then 7 else 8
  }

  // getHashSize: the three low bits, whatever the others are.
  function HashSize(versionByte: int): int {
    HASH_SIZES[versionByte % 8]
  }

  // getType: bits 3 to 6.  Bit 7 is not looked at.
  function TypeOf(versionByte: int): Option<AddressType> {
    var masked := versionByte / 8 % 16;
    if masked == 0 then Some(PubKeyHash) else if masked == 1 then Some(ScriptHash) else None
  }

  // ---------------------------------------------------------------- checksums

  function PrefixArray(prefix: string): (data: seq<int>)
    ensures |data| == |prefix| && Base32.Encodable(data)
  {
    seq(|prefix|, i requires 0 <= i < |prefix| => prefix[i] as int % 32)
  }

  // The numbers that go into the checksum of a payload.
  function WithPrefix(prefix: string, payload: seq<int>): seq<int> {
    PrefixArray(prefix) + [0] + payload
  }

  predicate ValidChecksum(prefix: string, payload: seq<int>) {
    Polymod.Checksum(Polymod.Syms(WithPrefix(prefix, payload))) == Polymod.ZERO
  }

  method PrefixToArray(prefix: string) returns (result: seq<int>)
    ensures result == PrefixArray(prefix)
  {
    result := [];
    for i := 0 to |prefix|
      invariant result == PrefixArray(prefix[..i])
    {
      result := result + [prefix[i] as int % 32];
    }
    assert prefix[..|prefix|] == prefix;
  }

  lemma EncodableFits(data: seq<int>)
    ensures Base32.Encodable(data) <==> Fits(data, 5)
  {
    Polymod.Pow2Of5();
  }

  lemma WithPrefixFits(prefix: string, payload: seq<int>)
    requires Base32.Encodable(payload)
    ensures Fits(WithPrefix(prefix, payload), 5)
  {
    EncodableFits(WithPrefix(prefix, payload));
  }

  method CheckChecksum(prefix: string, payload: seq<int>) returns (valid: bool)
    requires Base32.Encodable(payload)
    ensures valid == ValidChecksum(prefix, payload)
  {
    var prefixData := PrefixToArray(prefix);
    prefixData := prefixData + [0];
    WithPrefixFits(prefix, payload);
    var checksum := Polymod.Polymod(prefixData + payload);
    Polymod.NumberZero(prefixData + payload);
    return checksum == 0;
  }

  predicate Prefixed(reg: NetworkIndex, names: seq<string>) {
    forall i :: 0 <= i < |names| ==> names[i] in reg && reg[names[i]].prefix != ""
  }

  // The prefix of the first of the named networks that the payload's checksum fits.
  function FindPrefix(reg: NetworkIndex, names: seq<string>, payload: seq<int>): Option<string>
    requires Prefixed(reg, names)
  {
    if names == [] then None
    else if ValidChecksum(reg[names[0]].prefix, payload) then Some(reg[names[0]].prefix)
    else FindPrefix(reg, names[1..], payload)
  }

  // ---------------------------------------------------------------- encoding

  function VersionByte(a: Address): int {
    TypeBits(a.kind) + SizeBits(|a.hash| * 8)
  }

  // The eight symbols that complete a payload.
  ghost function ChecksumOf(prefix: string, data: seq<int>): seq<int> {
    Polymod.ChecksumDigits(WithPrefix(prefix, data + seq(8, _ => 0)))
  }

  // What a version byte and a hash are encoded to under a prefix.
  ghost function Payload(prefix: string, version: int, hash: seq<int>): Option<seq<int>> {
    match ConvertBits.Regroup([version] + hash, 8, 5, false)
    case Err(_) => None
    case Ok(data) => Some(data + ChecksumOf(prefix, data))
  }

  // The text of an address.
  ghost function Encoding(a: Address, stripPrefix: bool): Result<string, Error> {
    if a.network.prefix == "" then Err(NoPrefix)
    else if SizeBits(|a.hash| * 8) == 8 then Err(InvalidHashSize)
    else
      match Payload(a.network.prefix, VersionByte(a), a.hash)
      case None => Err(InvalidSymbol)
      case Some(payload) =>
        if !Base32.Encodable(payload) then Err(InvalidSymbol)
        else if stripPrefix then Ok(Base32.Encoded(payload))
        else Ok(a.network.prefix + ":" + Base32.Encoded(payload))
  }

  // The converted version byte and hash, completed with their checksum.
  method PayloadSymbols(prefix: string, versionByte: int, hash: seq<int>) returns (payload: seq<int>)
    requires 0 <= versionByte < 256 && Fits(hash, 8)
    ensures Payload(prefix, versionByte, hash) == Some(payload) && Base32.Encodable(payload)
  {
    hide ConvertBits.Regroup, Base32.Encodable;
    var eight0 := [0, 0, 0, 0, 0, 0, 0, 0];
    var prefixData := PrefixToArray(prefix);
    prefixData := prefixData + [0];
    Pow2Of8Fits(versionByte, hash);
    ConvertBits.SeenSmall([versionByte] + hash);
    var converted := ConvertBits.ConvertBits([versionByte] + hash, 8, 5, false);
    ConvertBits.RegroupThereAndBack([versionByte] + hash, 8, 5);
    var payloadData := converted.value;
    var checksumData := prefixData + payloadData + eight0;
    EightZeros(payloadData);
    WithPrefixFits(prefix, payloadData + eight0);
    assert checksumData == WithPrefix(prefix, payloadData + eight0);
    var checksum := Polymod.Polymod(checksumData);
    var digits := Polymod.ChecksumToArray(checksum);
    Polymod.DigitsAreChecksum(checksumData, digits);
    EncodableConcat(payloadData, digits);
    payload := payloadData + digits;
  }

  lemma EightZeros(data: seq<int>)
    requires Fits(data, 5)
    ensures seq(8, _ => 0) == [0, 0, 0, 0, 0, 0, 0, 0]
    ensures Base32.Encodable(data + [0, 0, 0, 0, 0, 0, 0, 0])
  {
    EncodableFits(data);
  }

  lemma EncodableConcat(a: seq<int>, b: seq<int>)
    requires Fits(a, 5) && Fits(b, 5)
    ensures Base32.Encodable(a + b)
  {
    EncodableFits(a);
    EncodableFits(b);
  }

  method ToCashAddress(a: Address, stripPrefix: bool) returns (r: Result<string, Error>)
    requires Fits(a.hash, 8)
    ensures r == Encoding(a, stripPrefix)
  {
    hide Payload;
    if a.network.prefix == "" {
      return Err(NoPrefix);
    }
    if SizeBits(|a.hash| * 8) == 8 {
      return Err(InvalidHashSize);
    }
    var versionByte := TypeBits(a.kind) + SizeBits(|a.hash| * 8);
    var payload := PayloadSymbols(a.network.prefix, versionByte, a.hash);
    var base32 := Base32.Encode(payload);
    if stripPrefix {
      return Ok(base32.value);
    } else {
      return Ok(a.network.prefix + ":" + base32.value);
    }
  }

  lemma Pow2Of8Fits(version: int, hash: seq<int>)
    requires 0 <= version < 256 && Fits(hash, 8)
    ensures Fits([version] + hash, 8)
    ensures forall i :: 0 <= i < |hash| ==> 0 <= hash[i] < 256
  {
    Polymod.Pow2Of8();
    FitsFirst(version, hash, 8);
  }

  // ---------------------------------------------------------------- decoding

  predicate HasSingleCase(s: string) {
    s == Text.Lower(s) || s == Text.Upper(s)
  }

  // The prefix an address gives, or the empty string, and its text after the prefix.
  function Pieces(address: string): Result<(string, string), Error> {
    if !HasSingleCase(address) then Err(MixedCase)
    else
      var pieces := Text.Split(Text.Lower(address), ':');
      if |pieces| > 2 then Err(InvalidFormat)
      else if |pieces| == 2 then Ok((pieces[0], pieces[1]))
      else Ok(("", pieces[0]))
  }

  function DropLast8(payload: seq<int>): seq<int> {
    if |payload| <= 8 then [] else payload[..|payload| - 8]
  }

  // What a payload without its checksum stands for under a prefix.
  function InfoOf(reg: NetworkIndex, prefix: string, data: seq<int>): Result<Info, Error> {
    match ConvertBits.Regroup(data, 5, 8, true)
    case Err(_) => Err(InvalidPadding)
    case Ok(bytes) =>
      // Without a version byte the hash size is taken to be 160, which an empty hash is not.
      if bytes == [] || HashSize(bytes[0]) != |bytes[1..]| * 8 then Err(InvalidHashSize)
      else if TypeOf(bytes[0]).None? then Err(InvalidType)
      else Ok(Info(bytes[1..], if prefix in reg then Some(reg[prefix]) else None, TypeOf(bytes[0]).value))
  }

  // The prefix whose checksum is required of a payload: the given one, or else the first that fits.
  function AcceptedPrefix(reg: NetworkIndex, given: string, payload: seq<int>): Option<string>
    requires HasDefaults(reg)
  {
    if given == "" then FindPrefix(reg, DEFAULT_NETWORKS, payload)
    else if ValidChecksum(given, payload) then Some(given)
    else None
  }

  function Decoded(reg: NetworkIndex, address: string): Result<Info, Error>
    requires HasDefaults(reg)
  {
    match Pieces(address)
    case Err(e) => Err(e)
    case Ok((given, text)) =>
      if !Base32.Decodable(text) then Err(InvalidSymbol)
      else
        var payload := Base32.Decoded(text);
        match AcceptedPrefix(reg, given, payload)
        case None => Err(InvalidChecksum)
        case Some(prefix) => InfoOf(reg, prefix, DropLast8(payload))
  }

  lemma LowerTwice(s: string)
    ensures Text.Lower(Text.Lower(s)) == Text.Lower(s)
  {
  }

  lemma {:induction false} SplitLower(s: string)
    requires Text.IsLower(s)
    ensures forall i :: 0 <= i < |Text.Split(s, ':')| ==> Text.IsLower(Text.Split(s, ':')[i])
  {
    if s != "" {
      assert s == [s[0]] + s[1..];
      Text.LowerConcat([s[0]], s[1..]);
      SplitLower(s[1..]);
      var rest := Text.Split(s[1..], ':');
      Text.LowerConcat([s[0]], rest[0]);
    }
  }

  // The loop over the networks: the first whose prefix the checksum fits, or the empty string.
  method TryNetworks(reg: NetworkIndex, payload: seq<int>) returns (prefix: string)
    requires HasDefaults(reg) && Base32.Encodable(payload)
    ensures FindPrefix(reg, DEFAULT_NETWORKS, payload) == if prefix == "" then None else Some(prefix)
  {
    hide ValidChecksum, Base32.Encodable;
    prefix := "";
    var netNames := DEFAULT_NETWORKS;
    while prefix == "" && netNames != []
      invariant Prefixed(reg, netNames)
      invariant prefix == "" ==> FindPrefix(reg, DEFAULT_NETWORKS, payload) == FindPrefix(reg, netNames, payload)
      invariant prefix != "" ==> FindPrefix(reg, DEFAULT_NETWORKS, payload) == Some(prefix)
      decreases |netNames|
    {
      var i := netNames[0];
      var p := reg[i].prefix;
      netNames := netNames[1..];
      var valid := CheckChecksum(p, payload);
      if valid {
        prefix := p;
      }
    }
  }

  method DecodeCashAddress(reg: NetworkIndex, address: string) returns (r: Result<Info, Error>)
    requires HasDefaults(reg)
    ensures r == Decoded(reg, address)
  {
    hide ValidChecksum, FindPrefix, HasDefaults, Base32.Encodable, ConvertBits.Regroup;
    hide Text.Split, Text.Lower, Text.Upper;
    if !HasSingleCase(address) {
      return Err(MixedCase);
    }
    var lower := Text.Lower(address);
    LowerTwice(address);
    SplitLower(lower);
    var pieces := Text.Split(lower, ':');
    if |pieces| > 2 {
      return Err(InvalidFormat);
    }
    var prefix, encodedPayload := "", pieces[0];
    if |pieces| == 2 {
      prefix, encodedPayload := pieces[0], pieces[1];
    }
    var decoding := Base32.Decode(Text.Lower(encodedPayload));
    if decoding.Err? {
      return Err(InvalidSymbol);
    }
    var payload := decoding.value;
    Base32.DecodeThenEncode(encodedPayload);
    if prefix != "" {
      var valid := CheckChecksum(prefix, payload);
      if !valid {
        return Err(InvalidChecksum);
      }
    } else {
      prefix := TryNetworks(reg, payload);
      if prefix == "" {
        return Err(InvalidChecksum);
      }
    }
    DroppedIsSmall(payload);
    ConvertBits.SeenSmall(DropLast8(payload));
    var converted := ConvertBits.ConvertBits(DropLast8(payload), 5, 8, true);
    if converted.Err? {
      return Err(InvalidPadding);
    }
    var bytes := converted.value;
    if bytes == [] || HashSize(bytes[0]) != |bytes[1..]| * 8 {
      return Err(InvalidHashSize);
    }
    var kind := TypeOf(bytes[0]);
    if kind.None? {
      return Err(InvalidType);
    }
    return Ok(Info(bytes[1..], if prefix in reg then Some(reg[prefix]) else None, kind.value));
  }

  lemma DroppedIsSmall(payload: seq<int>)
    requires Base32.Encodable(payload)
    ensures Base32.Encodable(DropLast8(payload))
    ensures forall i :: 0 <= i < |DropLast8(payload)| ==> 0 <= DropLast8(payload)[i] < 32
  {
  }
}
