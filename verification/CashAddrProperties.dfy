/** What encoding and decoding CashAddr addresses promise together. */
module CashAddrProperties {
  import opened Bits
  import opened Wrappers
  import opened CashAddr
  import Text
  import Base32
  import ConvertBits
  import Polymod
  import CashPrefixes
  import opened WrongSymbols
  import FiveErrors

  // ---------------------------------------------------------------- checksums of payloads

  lemma WithPrefixConcat(prefix: string, a: seq<int>, b: seq<int>)
    ensures WithPrefix(prefix, a + b) == WithPrefix(prefix, a) + b
    ensures Polymod.Syms(WithPrefix(prefix, a + b)) == Polymod.Syms(WithPrefix(prefix, a)) + Polymod.Syms(b)
  {
    assert WithPrefix(prefix, a + b) == WithPrefix(prefix, a) + b;
    CashPrefixes.SymsConcat(WithPrefix(prefix, a), b);
  }

  lemma ZeroSymbols()
    ensures Polymod.Syms(seq(8, _ => 0)) == Polymod.ZERO
  {
  }

  // A payload of data and eight more symbols is valid exactly when these are the data's checksum.
  lemma ValidIffChecksum(prefix: string, data: seq<int>, tail: seq<int>)
    requires |tail| == 8 && Fits(tail, 5) && Fits(data, 5)
    ensures ValidChecksum(prefix, data + tail) <==> tail == ChecksumOf(prefix, data)
  {
    hide Polymod.Checksum, Polymod.ChecksumDigits, Fits, WithPrefix, ToBits;
    var zeros := seq(8, _ => 0);
    var whole := WithPrefix(prefix, data + zeros);
    WithPrefixConcat(prefix, data, tail);
    WithPrefixConcat(prefix, data, zeros);
    ZeroSymbols();
    Polymod.ChecksumCompletes(Polymod.Syms(WithPrefix(prefix, data)), Polymod.Syms(tail));
    ChecksumOfIsChecksum(prefix, data);
    if Polymod.Syms(tail) == Polymod.Syms(ChecksumOf(prefix, data)) {
      SymsInjective(tail, ChecksumOf(prefix, data));
    }
  }

  lemma SymsInjective(a: seq<int>, b: seq<int>)
    requires Fits(a, 5) && Fits(b, 5) && Polymod.Syms(a) == Polymod.Syms(b)
    ensures a == b
  {
    assert |a| == |Polymod.Syms(a)| == |Polymod.Syms(b)| == |b|;
    forall i | 0 <= i < |a|
      ensures a[i] == b[i]
    {
      assert Polymod.Syms(a)[i] == ToBits(a[i], 5) && Polymod.Syms(b)[i] == ToBits(b[i], 5);
      FromToBits(a[i], 5);
      FromToBits(b[i], 5);
    }
  }

  lemma ChecksumOfIsChecksum(prefix: string, data: seq<int>)
    ensures var sum := ChecksumOf(prefix, data);
            && |sum| == 8 && Fits(sum, 5)
            && Polymod.Syms(sum) == Polymod.Checksum(Polymod.Syms(WithPrefix(prefix, data + seq(8, _ => 0))))
  {
    hide Polymod.Checksum, Polymod.ChecksumNumber, Fits, WithPrefix, ToBits, Join, Chop, Leftover;
    var number := Polymod.ChecksumNumber(WithPrefix(prefix, data + seq(8, _ => 0)));
    var b := ToBits(number, 40);
    var digits := Chop(b, 5);
    JoinChop(b, 5);
    JoinLength(digits, 5);
    assert |digits| == 8 && Leftover(b, 5) == [];
    assert Join(digits, 5) + [] == Join(digits, 5);
    Polymod.DigitsAreChecksum(WithPrefix(prefix, data + seq(8, _ => 0)), digits);
  }

  // Whatever the prefix, an encoded payload passes the checksum under it.
  lemma EncodedIsValid(prefix: string, version: int, hash: seq<int>)
    requires 0 <= version < 256 && Fits(hash, 8)
    ensures Payload(prefix, version, hash).Some?
    ensures var payload := Payload(prefix, version, hash).value;
            && Base32.Encodable(payload) && ValidChecksum(prefix, payload) && |payload| > 8
            && ConvertBits.Regroup(DropLast8(payload), 5, 8, true) == Ok([version] + hash)
  {
    hide ValidChecksum, ChecksumOf, Fits, ConvertBits.Regroup, Base32.Encodable;
    Pow2Of8Fits(version, hash);
    ConvertBits.RegroupThereAndBack([version] + hash, 8, 5);
    var data := ConvertBits.Regroup([version] + hash, 8, 5, false).value;
    ChecksumOfIsChecksum(prefix, data);
    ValidIffChecksum(prefix, data, ChecksumOf(prefix, data));
    EncodableConcat(data, ChecksumOf(prefix, data));
    NothingRegrouped();
    assert DropLast8(data + ChecksumOf(prefix, data)) == data;
  }

  lemma NothingRegrouped()
    ensures ConvertBits.Regroup([], 5, 8, true) == Ok([])
  {
    JoinNone(5);
  }

  // Two payloads that differ only inside a window of eight symbols are not both valid.
  lemma BurstDetected(prefix: string, before: seq<int>, a: seq<int>, b: seq<int>, after: seq<int>)
    requires |a| == |b| <= 8 && Fits(a, 5) && Fits(b, 5)
    requires ValidChecksum(prefix, before + a + after) && ValidChecksum(prefix, before + b + after)
    ensures a == b
  {
    hide Polymod.Checksum, Polymod.Syms, WithPrefix, Fits;
    WithPrefixConcat(prefix, before + a, after);
    WithPrefixConcat(prefix, before + b, after);
    WithPrefixConcat(prefix, before, a);
    WithPrefixConcat(prefix, before, b);
    SymsLength(a);
    SymsLength(b);
    Polymod.BurstDetected(
      Polymod.Syms(WithPrefix(prefix, before)), Polymod.Syms(a), Polymod.Syms(b), Polymod.Syms(after));
    SymsInjective(a, b);
  }

  lemma SymsLength(a: seq<int>)
    ensures |Polymod.Syms(a)| == |a|
  {
  }

  // ---------------------------------------------------------------- texts

  lemma SymbolLower(n: int)
    requires 0 <= n < 32
    ensures Text.LowerChar(Base32.CHARSET[n]) == Base32.CHARSET[n] != ':'
  {
  }

  lemma EncodedLower(payload: seq<int>)
    requires Base32.Encodable(payload)
    ensures Text.IsLower(Base32.Encoded(payload)) && ':' !in Base32.Encoded(payload)
  {
    forall i | 0 <= i < |payload|
      ensures Text.LowerChar(Base32.Encoded(payload)[i]) == Base32.Encoded(payload)[i] != ':'
    {
      SymbolLower(payload[i]);
    }
  }

  // Two wrong symbols of a valid payload, a distance of n apart, leave it valid if and only if n is a
  // multiple of 1025 and both are wrong in the same way.
  lemma TwoErrorsIff(prefix: string, before: seq<int>, a: int, a': int, mid: seq<int>, b: int, b': int,
                     after: seq<int>)
    requires Fits([a, a', b, b'], 5) && a != a'
    requires ValidChecksum(prefix, before + [a] + mid + [b] + after)
    ensures ValidChecksum(prefix, before + [a'] + mid + [b'] + after) <==>
            (|mid| + 1) % 1025 == 0 && Xor(ToBits(a, 5), ToBits(a', 5)) == Xor(ToBits(b, 5), ToBits(b', 5))
  {
    hide Polymod.Checksum, WithPrefix, ToBits, Xor;
    var front, middle, back := Polymod.Syms(WithPrefix(prefix, before)), Polymod.Syms(mid), Polymod.Syms(after);
    FiveParts(prefix, before, a, mid, b, after);
    FiveParts(prefix, before, a', mid, b', after);
    assert [a, a', b, b'][0] == a && [a, a', b, b'][1] == a';
    FromToBits(a, 5);
    FromToBits(a', 5);
    WrongSymbols.TwoErrorsIff(front, ToBits(a, 5), ToBits(a', 5), middle, ToBits(b, 5), ToBits(b', 5), back);
  }

  // So no two wrong symbols escape in a payload of at most 1025 symbols; those of addresses have at most 112.
  lemma TwoErrorsDetected(prefix: string, before: seq<int>, a: int, a': int, mid: seq<int>, b: int, b': int,
                          after: seq<int>)
    requires Fits([a, a', b, b'], 5) && a != a' && |before + [a] + mid + [b] + after| <= 1025
    requires ValidChecksum(prefix, before + [a] + mid + [b] + after)
    ensures !ValidChecksum(prefix, before + [a'] + mid + [b'] + after)
  {
    hide ValidChecksum, ToBits, Xor, Fits;
    TwoErrorsIff(prefix, before, a, a', mid, b, b', after);
  }

  // Nor do any four, wherever they are.
  lemma FourErrorsDetected(prefix: string, a: seq<int>, b: seq<int>)
    requires |a| == |b| <= 1025 && Fits(a, 5) && Fits(b, 5) && |Differences(a, b)| <= 4
    requires ValidChecksum(prefix, a) && ValidChecksum(prefix, b)
    ensures a == b
  {
    hide Polymod.Checksum, WithPrefix, Fits, ToBits;
    var front, x, y := Polymod.Syms(WithPrefix(prefix, [])), Polymod.Syms(a), Polymod.Syms(b);
    WithPrefixConcat(prefix, [], a);
    WithPrefixConcat(prefix, [], b);
    assert [] + a == a && [] + b == b && front + x + [] == front + x && front + y + [] == front + y;
    SymsDifferences(a, b);
    WrongSymbols.FourErrorsDetected(front, x, y, []);
    SymsInjective(a, b);
  }

  lemma SymsDifferences(a: seq<int>, b: seq<int>)
    requires |a| == |b| && Fits(a, 5) && Fits(b, 5)
    ensures Differences(Polymod.Syms(a), Polymod.Syms(b)) == Differences(a, b)
  {
    hide ToBits;
    forall i: nat | i < |a|
      ensures Polymod.Syms(a)[i] == Polymod.Syms(b)[i] <==> a[i] == b[i]
    {
      FromToBits(a[i], 5);
      FromToBits(b[i], 5);
    }
  }

  // Five can escape within 150 symbols.
  lemma FiveErrorsEscape(prefix: string, before: seq<int>, a: seq<int>, after: seq<int>) returns (b: seq<int>)
    requires |a| == 150 && Fits(a, 5) && ValidChecksum(prefix, before + a + after)
    ensures |b| == 150 && Fits(b, 5) && |Differences(a, b)| == 5 && ValidChecksum(prefix, before + b + after)
  {
    hide Polymod.Checksum, WithPrefix, ToBits, Polymod.Syms, Fits, Differences;
    var front, back := Polymod.Syms(WithPrefix(prefix, before)), Polymod.Syms(after);
    SymsLength(a);
    var y := FiveErrors.FiveErrorsEscape(front, Polymod.Syms(a), back);
    b := NumbersOf(y);
    WithPrefixConcat(prefix, before + a, after);
    WithPrefixConcat(prefix, before, a);
    WithPrefixConcat(prefix, before + b, after);
    WithPrefixConcat(prefix, before, b);
    SymsDifferences(a, b);
  }

  lemma NumbersOf(y: seq<Polymod.Symbol>) returns (b: seq<int>)
    ensures |b| == |y| && Fits(b, 5) && Polymod.Syms(b) == y
  {
    hide ToBits, FromBits;
    b := seq(|y|, i requires 0 <= i < |y| => FromBits(y[i]));
    forall i | 0 <= i < |y|
      ensures 0 <= b[i] < Pow2(5) && ToBits(b[i], 5) == y[i]
    {
      ToFromBits(y[i]);
    }
  }

  lemma FiveParts(prefix: string, before: seq<int>, a: int, mid: seq<int>, b: int, after: seq<int>)
    ensures Polymod.Syms(WithPrefix(prefix, before + [a] + mid + [b] + after)) ==
            Polymod.Syms(WithPrefix(prefix, before)) + [ToBits(a, 5)] + Polymod.Syms(mid) + [ToBits(b, 5)] +
            Polymod.Syms(after)
  {
    hide ToBits, WithPrefix;
    WithPrefixConcat(prefix, before + [a] + mid + [b], after);
    WithPrefixConcat(prefix, before + [a] + mid, [b]);
    WithPrefixConcat(prefix, before + [a], mid);
    WithPrefixConcat(prefix, before, [a]);
    assert Polymod.Syms([a]) == [ToBits(a, 5)] && Polymod.Syms([b]) == [ToBits(b, 5)];
  }

  // The prefixes a network can have: lower case and without a colon.
  predicate IsPrefix(prefix: string) {
    prefix != "" && ':' !in prefix && Text.IsLower(prefix)
  }

  lemma DefaultPrefixes(prefix: string)
    requires prefix in ["bitcoincash", "bchtest", "bchreg"]
    ensures IsPrefix(prefix)
  {
  }

  // An address in lower or in upper case is taken apart at its colon.
  lemma PiecesOf(prefix: string, text: string)
    requires IsPrefix(prefix) && Text.IsLower(text) && ':' !in text
    ensures Pieces(text) == Ok(("", text)) == Pieces(Text.Upper(text))
    ensures Pieces(prefix + ":" + text) == Ok((prefix, text)) == Pieces(Text.Upper(prefix + ":" + text))
  {
    hide Text.IsLower, Text.Split, Text.Lower, Text.Upper;
    var s := prefix + ":" + text;
    Text.SplitNone(text, ':');
    assert prefix + [':'] + text == s;
    Text.SplitFirst(prefix, text, ':');
    assert Text.IsLower(s) by {
      ColonLower();
      Text.LowerConcat(prefix, ":");
      Text.LowerConcat(prefix + ":", text);
    }
    IsLowerMeans(text);
    IsLowerMeans(s);
    Text.LowerUpper(text);
    Text.LowerUpper(s);
  }

  lemma ColonLower()
    ensures Text.IsLower(":")
  {
  }

  lemma IsLowerMeans(s: string)
    ensures Text.IsLower(s) <==> Text.Lower(s) == s
  {
  }

  lemma VersionReadBack(a: Address)
    requires |a.hash| * 8 in HASH_SIZES
    ensures 0 <= VersionByte(a) < 128
    ensures HashSize(VersionByte(a)) == |a.hash| * 8 && TypeOf(VersionByte(a)) == Some(a.kind)
  {
  }

  // ---------------------------------------------------------------- round trip

  // Decoding a valid payload's text, once the prefix is found.
  lemma DecodedText(reg: NetworkIndex, address: string, given: string, payload: seq<int>, prefix: string)
    requires HasDefaults(reg) && Base32.Encodable(payload)
    requires Pieces(address) == Ok((given, Base32.Encoded(payload)))
    requires AcceptedPrefix(reg, given, payload) == Some(prefix)
    ensures Decoded(reg, address) == InfoOf(reg, prefix, DropLast8(payload))
  {
    Base32.EncodeThenDecode(payload);
  }

  // An address with its prefix decodes to its hash, its type and whatever network that prefix names.
  lemma RoundTripAnyPrefix(reg: NetworkIndex, a: Address)
    requires HasDefaults(reg) && IsPrefix(a.network.prefix)
    requires Fits(a.hash, 8) && |a.hash| * 8 in HASH_SIZES
    ensures Encoding(a, false).Ok?
    ensures var network := if a.network.prefix in reg then Some(reg[a.network.prefix]) else None;
            && Decoded(reg, Encoding(a, false).value) == Ok(Info(a.hash, network, a.kind))
            && Decoded(reg, Text.Upper(Encoding(a, false).value)) == Ok(Info(a.hash, network, a.kind))
  {
    hide Pieces, Decoded, Payload, ValidChecksum, ConvertBits.Regroup, Base32.Encodable;
    hide HasDefaults, IsPrefix, HashSize, TypeOf;
    var prefix := a.network.prefix;
    VersionReadBack(a);
    EncodedIsValid(prefix, VersionByte(a), a.hash);
    var payload := Payload(prefix, VersionByte(a), a.hash).value;
    EncodedLower(payload);
    PiecesOf(prefix, Base32.Encoded(payload));
    var text := prefix + ":" + Base32.Encoded(payload);
    NotEmpty(prefix);
    DecodedText(reg, text, prefix, payload, prefix);
    DecodedText(reg, Text.Upper(text), prefix, payload, prefix);
    assert ([VersionByte(a)] + a.hash)[1..] == a.hash;
  }

  lemma NotEmpty(prefix: string)
    requires IsPrefix(prefix)
    ensures prefix != ""
  {
  }

  // Of the three networks tried, the right one is found.
  lemma PrefixFound(reg: NetworkIndex, prefix: string, payload: seq<int>)
    requires HasDefaults(reg) && prefix in ["bitcoincash", "bchtest", "bchreg"]
    requires ValidChecksum(prefix, payload)
    ensures FindPrefix(reg, DEFAULT_NETWORKS, payload) == Some(prefix)
  {
    hide ValidChecksum;
    forall q | q in ["bitcoincash", "bchtest", "bchreg"] && ValidChecksum(q, payload)
      ensures q == prefix
    {
      CashPrefixes.PrefixRecovery(prefix, q, payload);
    }
    var one, two, three := DEFAULT_NETWORKS, DEFAULT_NETWORKS[1..], DEFAULT_NETWORKS[2..];
    assert two == ["testnet", "regtest"] && three == ["regtest"] && two[1..] == three;
    assert three[1..] == [];
    assert FindPrefix(reg, three, payload) == if ValidChecksum("bchreg", payload) then Some("bchreg") else None;
    assert FindPrefix(reg, two, payload) ==
           if ValidChecksum("bchtest", payload) then Some("bchtest") else FindPrefix(reg, three, payload);
    assert FindPrefix(reg, one, payload) ==
           if ValidChecksum("bitcoincash", payload) then Some("bitcoincash") else FindPrefix(reg, two, payload);
  }

  // With or without its prefix, in lower or in upper case, an encoded address decodes to its hash and type, and
  // to the network that is registered first for its prefix, which is its own or one that shares the prefix.
  lemma RoundTrip(reg: NetworkIndex, a: Address, stripPrefix: bool)
    requires HasDefaults(reg) && a.network.prefix in ["bitcoincash", "bchtest", "bchreg"]
    requires Fits(a.hash, 8) && |a.hash| * 8 in HASH_SIZES
    ensures Encoding(a, stripPrefix).Ok?
    ensures a.network.prefix in reg && reg[a.network.prefix].prefix == a.network.prefix
    ensures var s, info := Encoding(a, stripPrefix).value, Info(a.hash, Some(reg[a.network.prefix]), a.kind);
            Decoded(reg, s) == Ok(info) == Decoded(reg, Text.Upper(s))
    ensures Decoded(reg, Encoding(a, stripPrefix).value) == Ok(Info(a.hash, Some(a.network), a.kind)) <==>
            reg[a.network.prefix] == a.network
  {
    hide Pieces, Decoded, Payload, ValidChecksum, ConvertBits.Regroup, Base32.Encodable;
    hide IsPrefix, HashSize, TypeOf, FindPrefix;
    var prefix := a.network.prefix;
    DefaultPrefixes(prefix);
    if stripPrefix {
      VersionReadBack(a);
      EncodedIsValid(prefix, VersionByte(a), a.hash);
      var payload := Payload(prefix, VersionByte(a), a.hash).value;
      EncodedLower(payload);
      PiecesOf(prefix, Base32.Encoded(payload));
      PrefixFound(reg, prefix, payload);
      DecodedText(reg, Base32.Encoded(payload), "", payload, prefix);
      DecodedText(reg, Text.Upper(Base32.Encoded(payload)), "", payload, prefix);
      assert ([VersionByte(a)] + a.hash)[1..] == a.hash;
    } else {
      RoundTripAnyPrefix(reg, a);
    }
  }

  // An address of a variant such as chipnet comes back as one of testnet.
  lemma VariantComesBack(reg: NetworkIndex, name: string, hash: seq<int>, kind: AddressType, stripPrefix: bool)
    requires HasDefaults(reg) && reg["bchtest"].name == "testnet"
    requires name in ["testnet3", "testnet4", "scalenet", "chipnet"]
    requires Fits(hash, 8) && |hash| * 8 in HASH_SIZES
    ensures var a := Address(hash, CashNetwork(name, "bchtest"), kind);
            && Encoding(a, stripPrefix).Ok? && Decoded(reg, Encoding(a, stripPrefix).value).Ok?
            && Decoded(reg, Encoding(a, stripPrefix).value).value.network == Some(CashNetwork("testnet", "bchtest"))
            && CashNetwork("testnet", "bchtest") != a.network
  {
    hide Encoding, Decoded;
    RoundTrip(reg, Address(hash, CashNetwork(name, "bchtest"), kind), stripPrefix);
    assert |"testnet"| == 7 && |"testnet3"| == 8 && |"scalenet"| == 8;
    assert "chipnet"[0] != "testnet"[0];
  }

  // A colon in front of an address without a prefix changes nothing, since an empty prefix is taken
  // for none; so that text is not the one encoding gives, with or without the prefix.
  lemma LeadingColonIgnored(reg: NetworkIndex, a: Address)
    requires HasDefaults(reg) && a.network.prefix in ["bitcoincash", "bchtest", "bchreg"]
    requires Fits(a.hash, 8) && |a.hash| * 8 in HASH_SIZES
    ensures Encoding(a, true).Ok? && Encoding(a, false).Ok?
    ensures var s := Encoding(a, true).value;
            && Decoded(reg, ":" + s).Ok? && Decoded(reg, ":" + s) == Decoded(reg, s)
            && ":" + s != s && ":" + s != Encoding(a, false).value
  {
    hide Pieces, Decoded, Payload, ValidChecksum, ConvertBits.Regroup, Base32.Encodable, IsPrefix, HashSize, TypeOf;
    hide FindPrefix, InfoOf, Encoding;
    var prefix := a.network.prefix;
    RoundTrip(reg, a, true);
    RoundTrip(reg, a, false);
    VersionReadBack(a);
    EncodedIsValid(prefix, VersionByte(a), a.hash);
    var payload := Payload(prefix, VersionByte(a), a.hash).value;
    EncodingIs(a, payload);
    EncodedLower(payload);
    DefaultPrefixes(prefix);
    PiecesOf(prefix, Base32.Encoded(payload));
    EmptyPrefix(Base32.Encoded(payload));
    PrefixFound(reg, prefix, payload);
    DecodedText(reg, Base32.Encoded(payload), "", payload, prefix);
    DecodedText(reg, ":" + Base32.Encoded(payload), "", payload, prefix);
    assert |":" + Base32.Encoded(payload)| == 1 + |Base32.Encoded(payload)|;
    assert (prefix + ":" + Base32.Encoded(payload))[0] == prefix[0];
  }

  lemma EncodingIs(a: Address, payload: seq<int>)
    requires |a.hash| * 8 in HASH_SIZES && Base32.Encodable(payload)
    requires a.network.prefix != "" && Payload(a.network.prefix, VersionByte(a), a.hash) == Some(payload)
    ensures Encoding(a, true) == Ok(Base32.Encoded(payload))
    ensures Encoding(a, false) == Ok(a.network.prefix + ":" + Base32.Encoded(payload))
  {
    hide Payload, Base32.Encodable;
  }

  lemma EmptyPrefix(text: string)
    requires Text.IsLower(text) && ':' !in text
    ensures Pieces(":" + text) == Ok(("", text))
  {
    hide Text.IsLower, Text.Split, Text.Lower, Text.Upper;
    Text.SplitNone(text, ':');
    Text.SplitFirst("", text, ':');
    assert "" + [':'] + text == ":" + text;
    ColonLower();
    Text.LowerConcat(":", text);
    IsLowerMeans(":" + text);
  }

  // ---------------------------------------------------------------- one text for each address

  // An accepted payload has at least a version byte and a checksum.
  lemma AcceptedParts(reg: NetworkIndex, prefix: string, payload: seq<int>) returns (data: seq<int>, tail: seq<int>)
    requires Base32.Encodable(payload) && InfoOf(reg, prefix, DropLast8(payload)).Ok?
    ensures |payload| > 8 && data == DropLast8(payload) && payload == data + tail && |tail| == 8
    ensures Fits(data, 5) && Fits(tail, 5) && data != []
  {
    NothingRegrouped();
    data := DropLast8(payload);
    tail := payload[|data|..];
    EncodableFits(data);
    EncodableFits(tail);
  }

  // The first symbol of a payload holds the five upper bits of the version byte.
  lemma FirstSymbol(data: seq<int>, bytes: seq<int>)
    requires data != [] && bytes != [] && Fits(data, 5)
    requires ConvertBits.Regroup(data, 5, 8, true) == Ok(bytes)
    ensures 0 <= bytes[0] < 256 && data[0] == bytes[0] / 8 && Fits(bytes, 8)
  {
    hide Join, Chop, Leftover, Fits, ToBits, FromBits;
    var b := Join(data, 5);
    JoinChop(b, 8);
    var x, n := data[0], bytes[0];
    assert data == [x] + data[1..] && bytes == [n] + bytes[1..];
    JoinFirst(x, data[1..], 5);
    JoinFirst(n, bytes[1..], 8);
    FitsFirst(x, data[1..], 5);
    FitsFirst(n, bytes[1..], 8);
    Polymod.Pow2Of8();
    Polymod.Pow2Of5();
    SplitBits(n, 5, 3);
    assert Pow2(3) == 8;
    assert ToBits(x, 5) == b[..5] == ToBits(n / 8, 5);
    FromToBits(x, 5);
    FromToBits(n / 8, 5);
  }

  // The version byte is the one encoding would write exactly if its reserved bit is clear.
  lemma VersionCanonical(version: int, hash: seq<int>, a: Address)
    requires 0 <= version < 256 && HashSize(version) == |hash| * 8 && TypeOf(version) == Some(a.kind) && a.hash == hash
    ensures |hash| * 8 in HASH_SIZES && VersionByte(a) == version % 128
  {
  }

  // What decodes under a prefix encodes back to the same payload, but for the reserved bit: it
  // does so if and only if the first symbol is below 16.
  lemma PayloadCanonical(reg: NetworkIndex, a: Address, payload: seq<int>)
    requires Base32.Encodable(payload) && ValidChecksum(a.network.prefix, payload)
    requires InfoOf(reg, a.network.prefix, DropLast8(payload)).Ok?
    requires var info := InfoOf(reg, a.network.prefix, DropLast8(payload)).value;
             a.hash == info.hash && a.kind == info.kind
    ensures payload != [] && Fits(a.hash, 8) && |a.hash| * 8 in HASH_SIZES
    ensures Payload(a.network.prefix, VersionByte(a), a.hash) == Some(payload) <==> payload[0] < 16
  {
    hide ValidChecksum, ChecksumOf, Fits, ConvertBits.Regroup, Base32.Encodable, HashSize, TypeOf, Payload;
    var prefix := a.network.prefix;
    var data, tail := AcceptedParts(reg, prefix, payload);
    var bytes := ConvertBits.Regroup(data, 5, 8, true).value;
    var version := bytes[0];
    FirstSymbol(data, bytes);
    assert bytes == [version] + a.hash;
    Polymod.Pow2Of8();
    FitsFirst(version, a.hash, 8);
    VersionCanonical(version, a.hash, a);
    if payload[0] < 16 {
      ConvertBits.RegroupBackAndThere(data, 8, 5);
      ValidIffChecksum(prefix, data, tail);
      PayloadOf(prefix, version, a.hash, data);
    } else {
      EncodedIsValid(prefix, VersionByte(a), a.hash);
    }
  }

  lemma PayloadOf(prefix: string, version: int, hash: seq<int>, data: seq<int>)
    requires ConvertBits.Regroup([version] + hash, 8, 5, false) == Ok(data)
    ensures Payload(prefix, version, hash) == Some(data + ChecksumOf(prefix, data))
  {
  }

  lemma VersionBit7(version: int)
    requires 0 <= version < 128
    ensures HashSize(version + 128) == HashSize(version) && TypeOf(version + 128) == TypeOf(version)
  {
  }

  // The reserved bit of the version byte is ignored: every address has a second text, with that
  // bit set, that decodes to the same hash, type and network.
  lemma ReservedBitIgnored(reg: NetworkIndex, a: Address)
    requires HasDefaults(reg) && IsPrefix(a.network.prefix)
    requires Fits(a.hash, 8) && |a.hash| * 8 in HASH_SIZES
    ensures var prefix, version := a.network.prefix, VersionByte(a);
            && Payload(prefix, version, a.hash).Some? && Payload(prefix, version + 128, a.hash).Some?
            && var p, q := Payload(prefix, version, a.hash).value, Payload(prefix, version + 128, a.hash).value;
               && Base32.Encodable(p) && Base32.Encodable(q)
               && Base32.Encoded(p) != Base32.Encoded(q)
               && Decoded(reg, prefix + ":" + Base32.Encoded(p)) == Decoded(reg, prefix + ":" + Base32.Encoded(q))
               && Decoded(reg, prefix + ":" + Base32.Encoded(q)).Ok?
  {
    hide Pieces, Decoded, Payload, ValidChecksum, ConvertBits.Regroup, Base32.Encodable, HasDefaults, IsPrefix;
    hide HashSize, TypeOf, TypeBits, SizeBits, Base32.Encoded, Base32.Decoded, Fits;
    var prefix, version := a.network.prefix, VersionByte(a);
    VersionReadBack(a);
    VersionBit7(version);
    EncodedIsValid(prefix, version, a.hash);
    EncodedIsValid(prefix, version + 128, a.hash);
    var p, q := Payload(prefix, version, a.hash).value, Payload(prefix, version + 128, a.hash).value;
    Base32.EncodeThenDecode(p);
    Base32.EncodeThenDecode(q);
    assert ([version] + a.hash)[0] != ([version + 128] + a.hash)[0];
    EncodedLower(p);
    EncodedLower(q);
    PiecesOf(prefix, Base32.Encoded(p));
    PiecesOf(prefix, Base32.Encoded(q));
    NotEmpty(prefix);
    DecodedText(reg, prefix + ":" + Base32.Encoded(p), prefix, p, prefix);
    DecodedText(reg, prefix + ":" + Base32.Encoded(q), prefix, q, prefix);
    assert ([version] + a.hash)[1..] == a.hash == ([version + 128] + a.hash)[1..];
  }

  // The symbols in the text of an address.
  ghost function PayloadText(address: string): seq<int> {
    match Pieces(address)
    case Err(_) => []
    case Ok((_, text)) => if Base32.Decodable(text) then Base32.Decoded(text) else []
  }

  lemma {:induction false} FoundIsValid(reg: NetworkIndex, names: seq<string>, payload: seq<int>)
    requires Prefixed(reg, names) && FindPrefix(reg, names, payload).Some?
    ensures ValidChecksum(FindPrefix(reg, names, payload).value, payload)
    ensures exists i :: 0 <= i < |names| && reg[names[i]].prefix == FindPrefix(reg, names, payload).value
    decreases |names|
  {
    hide ValidChecksum;
    if ValidChecksum(reg[names[0]].prefix, payload) {
    } else {
      FoundIsValid(reg, names[1..], payload);
      var i :| 0 <= i < |names[1..]| && reg[names[1..][i]].prefix == FindPrefix(reg, names[1..], payload).value;
      assert names[i + 1] == names[1..][i];
    }
  }

  lemma AcceptedIsValid(reg: NetworkIndex, given: string, payload: seq<int>, prefix: string)
    requires HasDefaults(reg) && AcceptedPrefix(reg, given, payload) == Some(prefix)
    ensures ValidChecksum(prefix, payload)
    ensures given != "" ==> prefix == given
    ensures given == "" ==> prefix in ["bitcoincash", "bchtest", "bchreg"]
  {
    hide ValidChecksum, FindPrefix;
    if given == "" {
      FoundIsValid(reg, DEFAULT_NETWORKS, payload);
    }
  }

  // A payload holds at most a version byte, 64 bytes of hash and the checksum.
  lemma AcceptedLength(reg: NetworkIndex, prefix: string, payload: seq<int>)
    requires InfoOf(reg, prefix, DropLast8(payload)).Ok?
    ensures |payload| <= 113
  {
    hide Chop, Join, Leftover, Fits, HashSize;
    var data := DropLast8(payload);
    var b := Join(data, 5);
    var bytes := Chop(b, 8);
    JoinChop(b, 8);
    JoinLength(data, 5);
    JoinLength(bytes, 8);
    SizeBelow(bytes[0]);
  }

  lemma SizeBelow(version: int)
    ensures HashSize(version) <= 512
  {
    assert version % 8 in {0, 1, 2, 3, 4, 5, 6, 7};
  }

  // Two texts of one prefix, or two without any that belong to one network, are the same text but for
  // letter case or differ in more than four characters.
  lemma FourMistyped(reg: NetworkIndex, s: string, t: string)
    requires HasDefaults(reg) && Decoded(reg, s).Ok? && Decoded(reg, t).Ok?
    requires Pieces(s).value.0 == Pieces(t).value.0 && |Pieces(s).value.1| == |Pieces(t).value.1|
    requires Pieces(s).value.0 == "" ==> Decoded(reg, s).value.network == Decoded(reg, t).value.network
    requires |Differences(Pieces(s).value.1, Pieces(t).value.1)| <= 4
    ensures Pieces(s) == Pieces(t)
  {
    hide Pieces, ValidChecksum, AcceptedPrefix, Fits, InfoOf, DropLast8, Differences;
    var p, q := Pieces(s).value.1, Pieces(t).value.1;
    var a, b := Base32.Decoded(p), Base32.Decoded(q);
    var given := Pieces(s).value.0;
    var prefix, prefix' := AcceptedPrefix(reg, given, a).value, AcceptedPrefix(reg, given, b).value;
    Base32.DecodeThenEncode(p);
    Base32.DecodeThenEncode(q);
    AcceptedIsValid(reg, given, a, prefix);
    AcceptedIsValid(reg, given, b, prefix');
    if given == "" {
      InfoNetwork(reg, prefix, DropLast8(a));
      InfoNetwork(reg, prefix', DropLast8(b));
    }
    assert prefix == prefix';
    EncodableFits(a);
    EncodableFits(b);
    CharacterDifferences(p, q);
    AcceptedLength(reg, prefix, a);
    FourErrorsDetected(prefix, a, b);
  }

  lemma InfoNetwork(reg: NetworkIndex, prefix: string, data: seq<int>)
    requires HasDefaults(reg) && prefix in ["bitcoincash", "bchtest", "bchreg"]
    requires InfoOf(reg, prefix, data).Ok?
    ensures InfoOf(reg, prefix, data).value.network.Some?
    ensures InfoOf(reg, prefix, data).value.network.value.prefix == prefix
  {
  }

  lemma CharacterDifferences(p: string, q: string)
    requires |p| == |q| && Base32.Decodable(p) && Base32.Decodable(q)
    ensures Differences(Base32.Decoded(p), Base32.Decoded(q)) == Differences(p, q)
  {
    Base32.DecodeThenEncode(p);
    Base32.DecodeThenEncode(q);
    forall i: nat | i < |p|
      ensures Base32.Decoded(p)[i] == Base32.Decoded(q)[i] <==> p[i] == q[i]
    {
      Base32.IndexSymbol(p[i]);
      Base32.IndexSymbol(q[i]);
    }
  }

  lemma ColonInLower(s: string)
    ensures ':' in Text.Lower(s) <==> ':' in s
    ensures s != "" ==> (Text.Lower(s)[0] == ':' <==> s[0] == ':')
  {
    forall i | 0 <= i < |s|
      ensures Text.Lower(s)[i] == ':' <==> s[i] == ':'
    {
    }
    if ':' in s {
      var i :| 0 <= i < |s| && s[i] == ':';
      assert Text.Lower(s)[i] == ':';
    }
  }

  lemma AddressParts(address: string, given: string, text: string)
    requires Pieces(address) == Ok((given, text))
    ensures ':' !in address ==> given == "" && text == Text.Lower(address)
    ensures ':' in address ==> Text.Lower(address) == given + ":" + text && ':' !in given && ':' !in text
  {
    hide Text.Split, Text.Lower, Text.Upper, Text.Join;
    var lower := Text.Lower(address);
    var pieces := Text.Split(lower, ':');
    ColonInLower(address);
    Text.JoinSplit(lower, ':');
    if ':' !in address {
      Text.SplitNone(lower, ':');
    } else {
      JoinTwo(pieces);
    }
  }

  lemma JoinTwo(pieces: seq<string>)
    requires |pieces| >= 1 && (forall i :: 0 <= i < |pieces| ==> ':' !in pieces[i])
    ensures |pieces| == 1 ==> ':' !in Text.Join(pieces, ':')
    ensures |pieces| == 2 ==> Text.Join(pieces, ':') == pieces[0] + ":" + pieces[1]
  {
    if |pieces| == 2 {
      assert pieces[1..] == [pieces[1]];
    }
  }

  // Where a text has only one colon, the prefix ends there.
  lemma OnlyColon(p: string, e: string, q: string, f: string)
    requires ':' !in q && ':' !in f && p + ":" + e == q + ":" + f
    ensures p == q && e == f
  {
    var s, t := p + ":" + e, q + ":" + f;
    assert s[|p|] == ':' && t[|q|] == ':';
    assert forall i :: 0 <= i < |q| ==> t[i] == q[i];
    assert forall i :: |q| < i < |t| ==> t[i] == f[i - |q| - 1];
    assert |p| == |q|;
    assert s[..|p|] == p && t[..|q|] == q && s[|p| + 1..] == e && t[|q| + 1..] == f;
  }

  // Encoding the hash and type of a payload under some prefix.
  lemma EncodedAgain(reg: NetworkIndex, prefix: string, payload: seq<int>, a: Address) returns (encoded: seq<int>)
    requires Base32.Encodable(payload) && ValidChecksum(prefix, payload) && a.network.prefix != ""
    requires InfoOf(reg, prefix, DropLast8(payload)).Ok?
    requires var info := InfoOf(reg, prefix, DropLast8(payload)).value; a.hash == info.hash && a.kind == info.kind
    ensures payload != [] && Base32.Encodable(encoded)
    ensures Encoding(a, true) == Ok(Base32.Encoded(encoded))
    ensures Encoding(a, false) == Ok(a.network.prefix + ":" + Base32.Encoded(encoded))
    ensures a.network.prefix == prefix ==>
              (Base32.Encoded(encoded) == Base32.Encoded(payload) <==> payload[0] < 16)
  {
    hide ValidChecksum, ConvertBits.Regroup, Payload, Base32.Encodable, HashSize, TypeOf, Encoding;
    PayloadCanonical(reg, a.(network := CashNetwork("", prefix)), payload);
    VersionReadBack(a);
    EncodedIsValid(a.network.prefix, VersionByte(a), a.hash);
    encoded := Payload(a.network.prefix, VersionByte(a), a.hash).value;
    EncodingIs(a, encoded);
    Base32.EncodeThenDecode(encoded);
    Base32.EncodeThenDecode(payload);
  }

  // A decoded address is what encoding the decoded hash, type and network gives, in lower case, if and only if
  // its first symbol is below 16, it does not begin with a colon, and its prefix, if it has one, is that of the
  // network, which may have been found by another of its values.
  lemma ReencodedIff(reg: NetworkIndex, address: string)
    requires HasDefaults(reg) && Decoded(reg, address).Ok? && Decoded(reg, address).value.network.Some?
    ensures address != "" && PayloadText(address) != []
    ensures var info := Decoded(reg, address).value;
            var a := Address(info.hash, info.network.value, info.kind);
            Encoding(a, ':' !in address) == Ok(Text.Lower(address)) <==>
            && PayloadText(address)[0] < 16 && address[0] != ':'
            && (':' in address ==> a.network.prefix == Pieces(address).value.0)
  {
    hide ValidChecksum, FindPrefix, ConvertBits.Regroup, Payload, Base32.Encodable, Base32.Decodable, Encoding;
    hide Text.Split, Text.Lower, Text.Upper, HashSize, TypeOf, TypeBits, SizeBits, Base32.Encoded, Base32.Decoded;
    var info := Decoded(reg, address).value;
    var a := Address(info.hash, info.network.value, info.kind);
    var (given, text) := Pieces(address).value;
    var payload := Base32.Decoded(text);
    var prefix := AcceptedPrefix(reg, given, payload).value;
    Base32.DecodeThenEncode(text);
    AcceptedIsValid(reg, given, payload, prefix);
    AddressParts(address, given, text);
    ColonInLower(address);
    NetworkOfDefault(reg, prefix);
    NotEncoded(a);
    var _, _ := AcceptedParts(reg, prefix, payload);
    DecodedLength(text);
    if a.network.prefix != "" {
      var encoded := EncodedAgain(reg, prefix, payload, a);
      if ':' in address {
        FirstIsColon(address, given, text);
        if a.network.prefix + ":" + Base32.Encoded(encoded) == given + ":" + text {
          OnlyColon(a.network.prefix, Base32.Encoded(encoded), given, text);
        }
      }
    }
  }

  lemma NetworkOfDefault(reg: NetworkIndex, prefix: string)
    requires HasDefaults(reg)
    ensures prefix in ["bitcoincash", "bchtest", "bchreg"] ==>
              prefix in reg && reg[prefix].prefix == prefix && prefix != ""
  {
  }

  lemma DecodedLength(text: string)
    requires Base32.Decodable(text)
    ensures |Base32.Decoded(text)| == |text|
  {
  }

  lemma NotEncoded(a: Address)
    ensures a.network.prefix == "" ==> Encoding(a, true).Err? && Encoding(a, false).Err?
  {
  }

  lemma FirstIsColon(address: string, given: string, text: string)
    requires Text.Lower(address) == given + ":" + text && ':' !in given
    ensures address != "" && (address[0] == ':' <==> given == "")
  {
    hide Text.Lower;
    ColonInLower(address);
    assert |Text.Lower(address)| == |address|;
    if given != "" {
      assert (given + ":" + text)[0] == given[0];
    }
  }

  // ---------------------------------------------------------------- other names of a network

  // A prefix under which no network is registered decodes, with no network.
  lemma UnregisteredPrefix(reg: NetworkIndex, a: Address)
    requires HasDefaults(reg) && IsPrefix(a.network.prefix) && a.network.prefix !in reg
    requires Fits(a.hash, 8) && |a.hash| * 8 in HASH_SIZES
    ensures Encoding(a, false).Ok?
    ensures Decoded(reg, Encoding(a, false).value) == Ok(Info(a.hash, None, a.kind))
  {
    hide Encoding, Decoded, HasDefaults, IsPrefix;
    RoundTripAnyPrefix(reg, a);
  }

  // A text whose checksum is made with any other value that a network is registered under, as if that were its
  // prefix, decodes to the network too.  It is in lower case and has the first symbol and the first character
  // it should have, but it is not what encoding gives for what was decoded.
  lemma OtherValueDecodes(reg: NetworkIndex, key: string, hash: seq<int>, kind: AddressType)
    requires HasDefaults(reg) && IsPrefix(key) && key in reg && reg[key].prefix != key
    requires Fits(hash, 8) && |hash| * 8 in HASH_SIZES
    ensures Encoding(Address(hash, CashNetwork("", key), kind), false).Ok?
    ensures var t := Encoding(Address(hash, CashNetwork("", key), kind), false).value;
            && Decoded(reg, t) == Ok(Info(hash, Some(reg[key]), kind)) && Text.Lower(t) == t
            && PayloadText(t) != [] && PayloadText(t)[0] < 16 && t != "" && t[0] != ':' && ':' in t
            && Encoding(Address(hash, reg[key], kind), false) != Ok(t)
  {
    hide Pieces, Decoded, Payload, ValidChecksum, ConvertBits.Regroup, Base32.Encodable, Base32.Decodable;
    hide HasDefaults, IsPrefix, HashSize, TypeOf, Encoding, InfoOf, Text.Lower, Text.Upper;
    var a := Address(hash, CashNetwork("", key), kind);
    RoundTripAnyPrefix(reg, a);
    VersionReadBack(a);
    EncodedIsValid(key, VersionByte(a), hash);
    var payload := Payload(key, VersionByte(a), hash).value;
    NotEmpty(key);
    EncodingIs(a, payload);
    EncodedLower(payload);
    PiecesOf(key, Base32.Encoded(payload));
    Base32.EncodeThenDecode(payload);
    var t := key + ":" + Base32.Encoded(payload);
    LowerText(key, Base32.Encoded(payload));
    NoColonFirst(key);
    assert t[0] == key[0] && t[|key|] == ':';
    CanonicalPayload(reg, a, payload);
    ReencodedIff(reg, t);
  }

  // In particular the name livenet.
  lemma LivenetDecodes(reg: NetworkIndex, hash: seq<int>, kind: AddressType)
    requires HasDefaults(reg) && Fits(hash, 8) && |hash| * 8 in HASH_SIZES
    ensures Encoding(Address(hash, CashNetwork("", "livenet"), kind), false).Ok?
    ensures var t := Encoding(Address(hash, CashNetwork("", "livenet"), kind), false).value;
            && Decoded(reg, t) == Ok(Info(hash, Some(reg["livenet"]), kind)) && Text.Lower(t) == t
            && PayloadText(t) != [] && PayloadText(t)[0] < 16 && t != "" && t[0] != ':'
            && Encoding(Address(hash, reg["livenet"], kind), false) != Ok(t)
  {
    hide Decoded, Encoding, Text.Lower, PayloadText;
    LivenetIsPrefix();
    OtherValueDecodes(reg, "livenet", hash, kind);
  }

  lemma LivenetIsPrefix()
    ensures IsPrefix("livenet") && "livenet" != "bitcoincash"
  {
    assert |"livenet"| != |"bitcoincash"|;
  }

  lemma NoColonFirst(prefix: string)
    requires IsPrefix(prefix)
    ensures prefix[0] != ':'
  {
  }

  lemma LowerText(prefix: string, text: string)
    requires IsPrefix(prefix) && Text.IsLower(text)
    ensures Text.Lower(prefix + ":" + text) == prefix + ":" + text
  {
    hide Text.Lower;
    ColonLower();
    Text.LowerConcat(prefix, ":");
    Text.LowerConcat(prefix + ":", text);
    IsLowerMeans(prefix + ":" + text);
  }

  // The first symbol of an emitted payload is below 16.
  lemma CanonicalPayload(reg: NetworkIndex, a: Address, payload: seq<int>)
    requires |a.hash| * 8 in HASH_SIZES && Fits(a.hash, 8)
    requires Payload(a.network.prefix, VersionByte(a), a.hash) == Some(payload)
    ensures payload != [] && payload[0] < 16
  {
    hide ValidChecksum, ConvertBits.Regroup, Payload, Base32.Encodable, HashSize, TypeOf;
    VersionReadBack(a);
    EncodedIsValid(a.network.prefix, VersionByte(a), a.hash);
    assert ([VersionByte(a)] + a.hash)[1..] == a.hash;
    PayloadCanonical(reg, a, payload);
  }
}
