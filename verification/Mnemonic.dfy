/**
 Mnemonic phrases: entropy and its checksum in groups of eleven bits, each written as a word.

 Phrases are in the normal form the program brings them to here, with a space between words; module
 MnemonicLists adds the normalization, the separator of Japanese phrases and the detection of the list.
 Bits are the characters 0 and 1 of the program's strings.
 */
module Mnemonic {
  import opened Bits
  import opened Wrappers
  import Text

  type Bytes = seq<int>

  // OutOfRange is the exception of writing behind the end of a buffer.
  datatype Error = InvalidEntropy | OutOfRange

  datatype Env = Env(sha256: Bytes -> Bytes, wordlist: seq<string>) {

    predicate HashFits(data: Bytes) {
      |sha256(data)| == 32 && Bits.Fits(sha256(data), 8)
    }

    ghost predicate Valid() {
      && (forall data :: HashFits(data))
      && |wordlist| == 2048
      && (forall i, j :: 0 <= i < j < 2048 ==> wordlist[i] != wordlist[j])
      && (forall i :: 0 <= i < 2048 ==> ' ' !in wordlist[i])
    }

    // ---------------------------------------------------------------- specification

    function HashBits(entropy: Bytes): Bitstring {
      Join(sha256(entropy), 8)
    }

    function ChecksumLength(n: nat): nat {
      if n / 4 < 256 then n / 4 else 256
    }

    // The first |entropy| * 8 / 32 bits of the hash, as far as there are so many.
    function Checksum(entropy: Bytes): Bitstring {
      var bits := HashBits(entropy);
      if |bits| < ChecksumLength(|entropy|) then bits else bits[..ChecksumLength(|entropy|)]
    }

    function AllBits(entropy: Bytes): Bitstring {
      Join(entropy, 8) + Checksum(entropy)
    }

    function WordsAt(indexes: seq<int>): seq<string>
      requires |wordlist| == 2048 && forall i :: 0 <= i < |indexes| ==> 0 <= indexes[i] < 2048
    {
      seq(|indexes|, i requires 0 <= i < |indexes| => wordlist[indexes[i]])
    }

    function JoinWords(words: seq<string>): string {
      if words == [] then "" else Text.Join(words, ' ')
    }

    lemma Pow2Of11()
      ensures Pow2(11) == 2048
    {
      assert Pow2(4) == 16;
      assert Pow2(8) == 256;
    }

    lemma IndexesInRange(b: Bitstring)
      ensures forall i :: 0 <= i < |Chop(b, 11)| ==> 0 <= Chop(b, 11)[i] < 2048
    {
      JoinChop(b, 11);
      Pow2Of11();
    }

    // The words of an entropy.
    function Words(entropy: Bytes): Result<seq<string>, Error>
      requires |wordlist| == 2048
    {
      var bits := AllBits(entropy);
      if |bits| % 11 != 0 then Err(InvalidEntropy)
      else
        IndexesInRange(bits);
        Ok(WordsAt(Chop(bits, 11)))
    }

    function Encoded(entropy: Bytes): Result<string, Error>
      requires |wordlist| == 2048
    {
      match Words(entropy)
      case Err(e) => Err(e)
      case Ok(words) => Ok(JoinWords(words))
    }

    // The position of a word in the list, or -1.
    function IndexOf(word: string, from: nat): (i: int)
      requires from <= |wordlist|
      ensures -1 <= i < |wordlist| && (i >= 0 ==> i >= from && wordlist[i] == word)
      ensures i < 0 <==> forall k :: from <= k < |wordlist| ==> wordlist[k] != word
      decreases |wordlist| - from
    {
      if from == |wordlist| then -1 else if wordlist[from] == word then from else IndexOf(word, from + 1)
    }

    predicate Known(words: seq<string>) {
      forall i :: 0 <= i < |words| ==> IndexOf(words[i], 0) >= 0
    }

    function Indexes(words: seq<string>): seq<int> {
      seq(|words|, i requires 0 <= i < |words| => IndexOf(words[i], 0))
    }

    // The bytes that a phrase of 3m words packs into, and the bits behind them.
    function PackedBits(words: seq<string>): Bitstring
      requires |words| % 3 == 0
    {
      JoinLength(Indexes(words), 11);
      Join(Indexes(words), 11)[..|words| / 3 * 32]
    }

    function RestBits(words: seq<string>): Bitstring
      requires |words| % 3 == 0
    {
      JoinLength(Indexes(words), 11);
      Join(Indexes(words), 11)[|words| / 3 * 32..]
    }

    // A phrase with an unknown word is not valid; otherwise, unless the number of words is a
    // multiple of three, checking it fails.
    function Accepts(phrase: string): Result<bool, Error> {
      var words := Text.Split(phrase, ' ');
      if !Known(words) then Ok(false)
      else if |words| % 3 != 0 then Err(OutOfRange)
      else Ok(Checksum(Chop(PackedBits(words), 8)) == RestBits(words))
    }

    // ---------------------------------------------------------------- which entropy encodes

    lemma HashLength(entropy: Bytes)
      requires Valid()
      ensures |HashBits(entropy)| == 256 && |Checksum(entropy)| == ChecksumLength(|entropy|)
    {
      hide Join;
      assert HashFits(entropy);
      JoinLength(sha256(entropy), 8);
    }

    lemma AllLength(entropy: Bytes)
      requires Valid()
      ensures |AllBits(entropy)| == 8 * |entropy| + ChecksumLength(|entropy|)
    {
      hide Join, Checksum;
      HashLength(entropy);
      JoinLength(entropy, 8);
    }

    // Below 1028 bytes exactly the multiples of four encode; from there on, where the hash has no
    // more bits to give, exactly the lengths that leave 1 modulo 11.
    lemma EncodesIff(entropy: Bytes)
      requires Valid()
      ensures Encoded(entropy).Ok? <==> if |entropy| < 1028 then |entropy| % 4 == 0 else |entropy| % 11 == 1
    {
      hide AllBits, Valid, WordsAt, JoinWords;
      AllLength(entropy);
      if |entropy| < 1028 {
        ShortLengths(|entropy|);
      } else {
        LongLengths(|entropy|);
      }
    }

    // ---------------------------------------------------------------- phrases written out

    // Bit k of the entropy followed by the first bits of its hash.
    predicate StreamBit(entropy: Bytes, k: nat)
      requires |sha256(entropy)| == 32 && k < 8 * |entropy| + 256
    {
      var n := 8 * |entropy|;
      if k < n then BitOf(entropy[k / 8], 8, k % 8) else BitOf(sha256(entropy)[(k - n) / 8], 8, (k - n) % 8)
    }

    // An index has the eleven bits of the stream at its word's place.
    predicate HasBits(index: nat, entropy: Bytes, i: nat)
      requires |sha256(entropy)| == 32 && 11 * i + 11 <= 8 * |entropy| + 256
    {
      forall t :: 0 <= t < 11 ==> (BitOf(index, 11, t) <==> StreamBit(entropy, 11 * i + t))
    }

    lemma StreamIsAll(entropy: Bytes, k: nat)
      requires Valid() && k < |AllBits(entropy)|
      ensures |sha256(entropy)| == 32 && k < 8 * |entropy| + 256
      ensures AllBits(entropy)[k] <==> StreamBit(entropy, k)
    {
      hide Join, BitOf;
      assert HashFits(entropy);
      AllLength(entropy);
      HashLength(entropy);
      JoinLength(entropy, 8);
      if k < 8 * |entropy| {
        BitOfBytes(entropy, k);
      } else {
        BitOfBytes(sha256(entropy), k - 8 * |entropy|);
      }
    }

    // The words are the ones whose indexes are, eleven bits each and most significant bit first, the entropy
    // followed by the first bits of its hash, one for every four bytes; a space stands between them.
    lemma PhraseWrittenOut(entropy: Bytes)
      requires Valid() && Encoded(entropy).Ok?
      ensures |sha256(entropy)| == 32 && Words(entropy).Ok?
      ensures var words, n := Words(entropy).value, |entropy|;
              && Encoded(entropy) == Ok(if words == [] then "" else Text.Join(words, ' '))
              && 11 * |words| == 8 * n + (if n / 4 < 256 then n / 4 else 256)
              && forall i :: 0 <= i < |words| ==>
                   exists index: nat :: index < 2048 && words[i] == wordlist[index] && HasBits(index, entropy, i)
    {
      hide AllBits, Join, Chop, HasBits;
      var bits := AllBits(entropy);
      var indexes := Chop(bits, 11);
      IndexesInRange(bits);
      ChopLength(bits, 11);
      AllLength(entropy);
      assert HashFits(entropy);
      forall i | 0 <= i < |indexes|
        ensures HasBits(indexes[i], entropy, i)
      {
        WordHasBits(entropy, i);
      }
    }

    lemma WordHasBits(entropy: Bytes, i: nat)
      requires Valid() && 11 * i + 11 <= |AllBits(entropy)|
      ensures |sha256(entropy)| == 32 && 11 * i + 11 <= 8 * |entropy| + 256
      ensures i < |Chop(AllBits(entropy), 11)| && Chop(AllBits(entropy), 11)[i] >= 0
      ensures HasBits(Chop(AllBits(entropy), 11)[i], entropy, i)
    {
      hide AllBits, Join, FromBits, ToBits, BitOf, StreamBit;
      var bits := AllBits(entropy);
      ChopAt(bits, 11, i);
      StreamIsAll(entropy, 11 * i);
      AllLength(entropy);
      var group := bits[i * 11..(i + 1) * 11];
      var index := FromBits(group);
      ToFromBits(group);
      forall t | 0 <= t < 11
        ensures BitOf(index, 11, t) <==> StreamBit(entropy, 11 * i + t)
      {
        ToBitsAt(index, 11, t);
        StreamIsAll(entropy, 11 * i + t);
      }
    }

    // The words of a phrase are what its spaces separate.  It is refused with an exception if all of them are in the
    // list and their number is no multiple of three, and not valid if one is not in the list.
    lemma RefusedIff(phrase: string, words: seq<string>)
      requires words != [] && Text.Join(words, ' ') == phrase
      requires forall i :: 0 <= i < |words| ==> ' ' !in words[i]
      ensures Accepts(phrase).Err? <==> (forall i :: 0 <= i < |words| ==> words[i] in wordlist) && |words| % 3 != 0
      ensures Accepts(phrase).Err? ==> Accepts(phrase).error == OutOfRange
      ensures (exists i :: 0 <= i < |words| && words[i] !in wordlist) ==> Accepts(phrase) == Ok(false)
    {
      hide PackedBits, RestBits, Checksum, Chop, Text.Split, Text.Join;
      Text.SplitJoin(words, ' ');
      forall i | 0 <= i < |words|
        ensures IndexOf(words[i], 0) >= 0 <==> words[i] in wordlist
      {
        if words[i] in wordlist {
          var k :| 0 <= k < |wordlist| && wordlist[k] == words[i];
        }
      }
    }

    // ---------------------------------------------------------------- round trips

    lemma {:induction false} IndexOfFirst(i: nat, from: nat)
      requires |wordlist| == 2048 && from <= i < 2048
      requires forall j, k :: 0 <= j < k < 2048 ==> wordlist[j] != wordlist[k]
      ensures IndexOf(wordlist[i], from) == i
      decreases i - from
    {
      if from < i {
        IndexOfFirst(i, from + 1);
      }
    }

    lemma WordsIndexed(indexes: seq<int>)
      requires Valid() && forall i :: 0 <= i < |indexes| ==> 0 <= indexes[i] < 2048
      ensures Known(WordsAt(indexes)) && Indexes(WordsAt(indexes)) == indexes
    {
      hide IndexOf;
      var words := WordsAt(indexes);
      forall i | 0 <= i < |words|
        ensures IndexOf(words[i], 0) == indexes[i]
      {
        IndexOfFirst(indexes[i], 0);
      }
    }

    lemma IndexedWords(words: seq<string>)
      requires Valid() && Known(words)
      ensures forall i :: 0 <= i < |words| ==> 0 <= Indexes(words)[i] < 2048
      ensures WordsAt(Indexes(words)) == words
    {
      hide IndexOf;
      forall i | 0 <= i < |words|
        ensures 0 <= Indexes(words)[i] < 2048 && wordlist[Indexes(words)[i]] == words[i]
      {
        assert IndexOf(words[i], 0) >= 0;
      }
    }

    lemma SplitWords(words: seq<string>)
      requires Valid() && Known(words) && words != []
      ensures Text.Split(JoinWords(words), ' ') == words
    {
      hide IndexOf, Text.Split, Text.Join;
      forall i | 0 <= i < |words|
        ensures ' ' !in words[i]
      {
        assert IndexOf(words[i], 0) >= 0;
      }
      Text.SplitJoin(words, ' ');
    }

    lemma JoinSplitWords(phrase: string)
      ensures JoinWords(Text.Split(phrase, ' ')) == phrase && Text.Split(phrase, ' ') != []
    {
      hide Text.Split, Text.Join;
      Text.JoinSplit(phrase, ' ');
    }

    // The words of an encoded phrase stand for its bits.
    lemma EncodedWords(entropy: Bytes) returns (words: seq<string>)
      requires Valid() && Encoded(entropy).Ok? && entropy != []
      ensures Words(entropy) == Ok(words) && Text.Split(Encoded(entropy).value, ' ') == words
      ensures Known(words) && words != [] && Join(Indexes(words), 11) == AllBits(entropy)
      ensures 11 * |words| == |AllBits(entropy)|
    {
      hide AllBits, Join, Chop, Leftover, Known, Indexes, JoinWords, WordsAt;
      var bits := AllBits(entropy);
      var indexes := Chop(bits, 11);
      IndexesInRange(bits);
      words := WordsAt(indexes);
      WordsIndexed(indexes);
      JoinChop(bits, 11);
      JoinLength(indexes, 11);
      AllLength(entropy);
      WholeGroups(|indexes|, |Leftover(bits, 11)|, |bits|);
      assert Join(indexes, 11) + [] == Join(indexes, 11);
      AtLength(indexes);
      SplitWords(words);
    }

    lemma AtLength(indexes: seq<int>)
      requires |wordlist| == 2048 && forall i :: 0 <= i < |indexes| ==> 0 <= indexes[i] < 2048
      ensures |WordsAt(indexes)| == |indexes|
    {
    }

    // The empty entropy, and no other, has the empty phrase.
    lemma EmptyIff(e: Bytes)
      requires Valid() && Encoded(e).Ok?
      ensures Encoded(e).value == "" <==> e == []
    {
      AllLength(e);
      if e == [] {
        assert AllBits(e) == [] && Chop(AllBits(e), 11) == [];
        assert WordsAt([]) == [];
      } else {
        hide Encoded, AllBits, Text.Split, Join, Indexes, Known;
        var words := EncodedWords(e);
        assert |words| > 1;
        SplitEmpty();
      }
    }

    lemma SplitEmpty()
      ensures Text.Split("", ' ') == [""]
    {
    }

    // Encoding is injective on all entropy it accepts.
    lemma EncodedInjective(e: Bytes, f: Bytes)
      requires Valid() && Bits.Fits(e, 8) && Bits.Fits(f, 8)
      requires Encoded(e).Ok? && Encoded(e) == Encoded(f)
      ensures e == f
    {
      hide Join, Encoded, Checksum, Indexes, Known, Text.Split, Bits.Fits;
      EmptyIff(e);
      EmptyIff(f);
      if e != [] {
        var u := EncodedWords(e);
        var v := EncodedWords(f);
        AllLength(e);
        AllLength(f);
        SameLength(|e|, |f|);
        HashLength(e);
        HashLength(f);
        JoinLength(e, 8);
        JoinLength(f, 8);
        assert Join(e, 8) == AllBits(e)[..8 * |e|] && Join(f, 8) == AllBits(f)[..8 * |f|];
        JoinInjective(e, f, 8);
      }
    }

    lemma SameLength(m: nat, n: nat)
      requires 8 * m + ChecksumLength(m) == 8 * n + ChecksumLength(n)
      ensures m == n
    {
    }

    lemma EncodedCount(entropy: Bytes, words: seq<string>)
      requires Valid() && |entropy| % 4 == 0 && |entropy| <= 1024
      requires Join(Indexes(words), 11) == AllBits(entropy)
      ensures |words| == |entropy| / 4 * 3
    {
      hide Join, Checksum, Indexes, Valid;
      AllLength(entropy);
      IndexesLength(words);
      JoinLength(Indexes(words), 11);
    }

    // What the phrase of 4m bytes, m at most 256, packs into are these bytes.
    lemma EncodedPacks(entropy: Bytes, words: seq<string>)
      requires Valid() && Bits.Fits(entropy, 8) && |words| == |entropy| / 4 * 3 && |entropy| % 4 == 0
      requires Join(Indexes(words), 11) == AllBits(entropy)
      ensures |words| % 3 == 0
      ensures Chop(PackedBits(words), 8) == entropy && RestBits(words) == Checksum(entropy)
    {
      hide Join, Checksum, Indexes, Chop, Bits.Fits, Valid, Leftover;
      JoinLength(entropy, 8);
      ChopJoin(entropy, [], 8);
      assert Join(entropy, 8) + [] == Join(entropy, 8);
    }

    lemma IndexesLength(words: seq<string>)
      ensures |Indexes(words)| == |words|
    {
    }

    // An encoded phrase is valid exactly when the entropy is not empty and has fewer than 1028 bytes.
    lemma EncodedIsValidIff(entropy: Bytes)
      requires Valid() && Bits.Fits(entropy, 8) && Encoded(entropy).Ok?
      ensures Accepts(Encoded(entropy).value) == Ok(true) <==> 0 < |entropy| < 1028
    {
      hide Join, Checksum, Indexes, Chop, Bits.Fits, Known, AllBits, Text.Split, PackedBits, RestBits, Valid;
      EncodesIff(entropy);
      if entropy == [] {
        EmptyPhrase(entropy);
      } else {
        var words := EncodedWords(entropy);
        if |entropy| < 1028 {
          EncodedCount(entropy, words);
          EncodedPacks(entropy, words);
        } else if |words| % 3 == 0 {
          AllLength(entropy);
          LongRest(words, |entropy|);
        }
      }
    }

    // The empty phrase counts as one word, which is unknown or one too few.
    lemma EmptyPhrase(entropy: Bytes)
      requires Valid() && entropy == [] && Encoded(entropy).Ok?
      ensures Accepts(Encoded(entropy).value) != Ok(true)
    {
      hide Encoded;
      EmptyIff(entropy);
      SplitEmpty();
    }

    // More than 768 words leave more checksum bits than the hash has.
    lemma LongRest(words: seq<string>, n: nat)
      requires Valid() && |words| % 3 == 0 && n >= 1028 && 11 * |words| == 8 * n + 256
      ensures Checksum(Chop(PackedBits(words), 8)) != RestBits(words)
    {
      hide Join, Checksum, Indexes, Chop;
      var buf := Chop(PackedBits(words), 8);
      HashLength(buf);
      IndexesLength(words);
      JoinLength(Indexes(words), 11);
      var m := |words| / 3;
      assert |words| == 3 * m && |RestBits(words)| == m;
      assert m > 256;
    }

    // One word of the list is such a phrase.
    lemma OneWordThrows(i: nat)
      requires Valid() && i < 2048
      ensures Accepts(wordlist[i]) == Err(OutOfRange)
    {
      hide Text.Split, IndexOf, PackedBits, RestBits, Checksum, Chop;
      Text.SplitNone(wordlist[i], ' ');
      IndexOfFirst(i, 0);
    }

    // A valid phrase is the encoding of the bytes it packs into.
    lemma ValidIsEncoded(phrase: string)
      requires Valid() && Accepts(phrase) == Ok(true)
      ensures var entropy := Chop(PackedBits(Text.Split(phrase, ' ')), 8);
              && Bits.Fits(entropy, 8) && 0 < |entropy| <= 1024 && |entropy| % 4 == 0
              && Encoded(entropy) == Ok(phrase)
    {
      hide Join, Checksum, Indexes, Chop, Leftover, Bits.Fits, Known, Text.Split, Valid, WordsAt, JoinWords;
      var words := Text.Split(phrase, ' ');
      JoinSplitWords(phrase);
      var m := |words| / 3;
      var packed := PackedBits(words);
      var entropy := Chop(packed, 8);
      IndexesLength(words);
      JoinLength(Indexes(words), 11);
      JoinChop(packed, 8);
      JoinLength(entropy, 8);
      WholeBytes(|entropy|, |Leftover(packed, 8)|, m);
      assert Join(entropy, 8) + [] == packed;
      HashLength(entropy);
      assert |RestBits(words)| == m;
      assert m <= 256;
      assert AllBits(entropy) == Join(Indexes(words), 11);
      IndexedWords(words);
      IndexesFit(words);
      ChopJoin(Indexes(words), [], 11);
      assert Join(Indexes(words), 11) + [] == Join(Indexes(words), 11);
      assert |AllBits(entropy)| == 11 * (3 * m);
      IndexesInRange(AllBits(entropy));
    }

    lemma IndexesFit(words: seq<string>)
      requires forall i :: 0 <= i < |words| ==> 0 <= Indexes(words)[i] < 2048
      ensures Bits.Fits(Indexes(words), 11)
    {
      hide Indexes;
      Pow2Of11();
      IndexesLength(words);
    }

    // The valid phrases are exactly the encodings of 4, 8, ..., 1024 bytes.
    lemma ValidIffEncoded(phrase: string)
      requires Valid()
      ensures Accepts(phrase) == Ok(true) <==>
              exists e: Bytes :: Bits.Fits(e, 8) && 0 < |e| < 1028 && Encoded(e) == Ok(phrase)
    {
      hide Accepts, Encoded, Chop, PackedBits, Bits.Fits, Text.Split;
      if Accepts(phrase) == Ok(true) {
        ValidIsEncoded(phrase);
      }
      forall e: Bytes | Bits.Fits(e, 8) && 0 < |e| < 1028 && Encoded(e) == Ok(phrase)
        ensures Accepts(phrase) == Ok(true)
      {
        EncodedIsValidIff(e);
      }
    }

    // ---------------------------------------------------------------- the program

    method EntropyChecksum(entropy: Bytes) returns (checksum: Bitstring)
      requires Valid()
      ensures checksum == Checksum(entropy)
    {
      hide ToBits, FromBits, Join, Binary, Pow2;
      var hash := sha256(entropy);
      HashLength(entropy);
      ghost var bits := HashBits(entropy);
      ToFromBits(bits);
      var number := FromBits(Join(hash, 8));
      var hashbits := Binary(number);
      BinaryIsBits(number);
      BinaryLength(number, 256);
      while |hashbits| % 256 != 0
        invariant 1 <= |hashbits| <= 256
        invariant hashbits == ToBits(number, |hashbits|) && number < Pow2(|hashbits|)
        decreases 256 - |hashbits|
      {
        SmallWord(number, |hashbits|, |hashbits| + 1);
        Doubling(|hashbits|);
        hashbits := [false] + hashbits;
      }
      var cs := |entropy| * 8 / 32;
      return if |hashbits| < cs then hashbits else hashbits[..cs];
    }

    lemma Doubling(n: nat)
      ensures Pow2(n) < Pow2(n + 1)
    {
    }

    // The first loop: eight bits for every byte.
    method EntropyBits(entropy: Bytes) returns (bin: Bitstring)
      requires Bits.Fits(entropy, 8)
      ensures bin == Join(entropy, 8)
    {
      hide ToBits, Binary, Join;
      bin := [];
      JoinNone(8);
      for i := 0 to |entropy|
        invariant bin == Join(entropy[..i], 8)
      {
        PaddedBinary(entropy[i], 8);
        JoinLast(entropy[..i], entropy[i], 8);
        assert entropy[..i + 1] == entropy[..i] + [entropy[i]];
        bin := bin + LastBits(Zeros(8) + Binary(entropy[i]), 8);
      }
      assert entropy[..|entropy|] == entropy;
    }

    // The words, before they are joined.
    method EntropyToWords(entropy: Bytes) returns (r: Result<seq<string>, Error>)
      requires Valid() && Bits.Fits(entropy, 8)
      ensures r == Words(entropy)
    {
      hide Join, Checksum, Chop, FromBits, HashBits;
      var bin := EntropyBits(entropy);
      var checksum := EntropyChecksum(entropy);
      bin := bin + checksum;
      if |bin| % 11 != 0 {
        return Err(InvalidEntropy);
      }
      IndexesInRange(bin);
      ghost var indexes := Chop(bin, 11);
      var mnemonic: seq<string> := [];
      for i := 0 to |bin| / 11
        invariant i <= |indexes| && mnemonic == WordsAt(indexes[..i])
      {
        ChopAt(bin, 11, i);
        var wi := FromBits(bin[i * 11..(i + 1) * 11]);
        mnemonic := mnemonic + [wordlist[wi]];
      }
      ChopLength(bin, 11);
      assert indexes[..|indexes|] == indexes;
      return Ok(mnemonic);
    }

    // The bits of the words, eleven each, or nothing if a word is unknown.
    method WordBits(words: seq<string>) returns (bin: Option<Bitstring>)
      requires Valid()
      ensures bin == if Known(words) then Some(Join(Indexes(words), 11)) else None
    {
      hide ToBits, Binary, Join, IndexOf;
      var bits: Bitstring := [];
      JoinNone(11);
      assert Indexes(words[..0]) == [];
      for i := 0 to |words|
        invariant Known(words[..i]) && bits == Join(Indexes(words[..i]), 11)
      {
        var ind := IndexOf(words[i], 0);
        if ind < 0 {
          return None;
        }
        PaddedBinary(ind, 11);
        JoinLast(Indexes(words[..i]), ind, 11);
        assert Indexes(words[..i + 1]) == Indexes(words[..i]) + [ind];
        bits := bits + LastBits(Zeros(11) + Binary(ind), 11);
      }
      assert words[..|words|] == words;
      return Some(bits);
    }

    // The loop that packs the first bits into a buffer.
    method PackBytes(bin: Bitstring, nonhash: Bitstring) returns (r: Result<Bytes, Error>)
      requires nonhash <= bin
      ensures r == if |nonhash| % 8 == 0 then Ok(Chop(nonhash, 8)) else Err(OutOfRange)
    {
      hide FromBits, Chop;
      Eighths(|nonhash|);
      ChopLength(nonhash, 8);
      var buf := new int[(|nonhash| as real / 8.0).Floor](_ => 0);
      var i := 0;
      while i as real < |nonhash| as real / 8.0
        invariant 0 <= i <= buf.Length && buf.Length == |nonhash| / 8
        invariant forall k :: 0 <= k < i ==> buf[k] == Chop(nonhash, 8)[k]
        decreases buf.Length - i
      {
        if i >= buf.Length {
          return Err(OutOfRange);
        }
        ChopAt(nonhash, 8, i);
        assert bin[i * 8..(i + 1) * 8] == nonhash[i * 8..(i + 1) * 8];
        buf[i] := FromBits(bin[i * 8..(i + 1) * 8]);
        i := i + 1;
      }
      assert buf[..] == Chop(nonhash, 8);
      return Ok(buf[..]);
    }

    method IsValid(phrase: string) returns (r: Result<bool, Error>)
      requires Valid()
      ensures r == Accepts(phrase)
    {
      hide Join, Checksum, Chop, FromBits, HashBits, Known, Text.Split, Indexes, Valid;
      var words := Text.Split(phrase, ' ');
      var found := WordBits(words);
      if found.None? {
        return Ok(false);
      }
      var bin := found.value;
      IndexesLength(words);
      JoinLength(Indexes(words), 11);
      Thirds(|words|);
      var cs := |bin| as real / 33.0;
      var hash_bits := if cs.Floor == 0 then bin else LastBits(bin, cs.Floor);
      var nonhash_bits := bin[..(|bin| as real - cs).Floor];
      var buf := PackBytes(bin, nonhash_bits);
      if buf.Err? {
        return Err(OutOfRange);
      }
      var expected_hash_bits := EntropyChecksum(buf.value);
      return Ok(expected_hash_bits == hash_bits);
    }
  }

  lemma Eighths(n: nat)
    ensures (n as real / 8.0).Floor == n / 8
    ensures forall i: int :: i as real < n as real / 8.0 <==> 8 * i < n
  {
    var q, r := n / 8, n % 8;
    assert n == 8 * q + r;
    assert n as real / 8.0 == q as real + r as real / 8.0;
  }

  // The slices taken of the 11n bits of n words: a third of n from the end, the rest from the
  // front.  Only for multiples of three is the rest a whole number of bytes.
  lemma Thirds(n: nat)
    ensures var bits := (11 * n) as real;
            && (bits / 33.0).Floor == n / 3
            && (bits - bits / 33.0).Floor == 32 * n / 3
    ensures 32 * n / 3 % 8 == 0 <==> n % 3 == 0
    ensures n % 3 == 0 ==> 32 * n / 3 == n / 3 * 32 == 11 * n - n / 3
    ensures 32 * n / 3 <= 11 * n
  {
    var bits := (11 * n) as real;
    var m, r := n / 3, n % 3;
    assert n == 3 * m + r;
    assert bits / 33.0 == m as real + r as real / 3.0;
    assert bits - bits / 33.0 == (32 * m) as real + (32 * r) as real / 3.0;
  }

  lemma ShortLengths(n: nat)
    ensures (8 * n + n / 4) % 11 == 0 <==> n % 4 == 0
  {
    var m, r := n / 4, n % 4;
    assert 8 * n + m == 11 * (3 * m) + 8 * r;
  }

  lemma LongLengths(n: nat)
    ensures (8 * n + 256) % 11 == 0 <==> n % 11 == 1
  {
    var q, r := n / 11, n % 11;
    assert 8 * n + 256 == 11 * (8 * q + 23) + (8 * r + 3);
  }

  lemma WholeGroups(n: nat, rest: nat, all: nat)
    requires all == n * 11 + rest && rest < 11 && all % 11 == 0
    ensures rest == 0
  {
  }

  lemma WholeBytes(n: nat, rest: nat, m: nat)
    requires 32 * m == n * 8 + rest && rest < 8
    ensures rest == 0 && n == 4 * m
  {
  }
}
