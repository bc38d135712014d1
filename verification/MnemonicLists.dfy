/**
 Mnemonic phrases with the word lists of the library: the separator a list is written with, the
 normal form phrases are brought to, and the detection of the list of a phrase.

 NFKD normalization is a parameter.  Lists are told apart by their words.
 */
module MnemonicLists {
  import opened Mnemonic
  import opened Wrappers
  import Bits
  import Text

  type Wordlist = seq<string>

  // U+3000, which normalizes to a space.
  const IDEOGRAPHIC_SPACE: char := '\U{3000}'

  function JoinBy(words: seq<string>, separator: char): string {
    if words == [] then "" else Text.Join(words, separator)
  }

  // The known lists in the order they are tried in, one of which is the Japanese one.
  datatype Library = Library(
    sha256: Bytes -> Bytes, nfkd: string -> string, lists: seq<Wordlist>, japanese: Wordlist)
  {
    function On(list: Wordlist): Env {
      Env(sha256, list)
    }

    function Separator(list: Wordlist): char {
      if list == japanese then IDEOGRAPHIC_SPACE else ' '
    }

    predicate IsFixed(s: string) {
      nfkd(nfkd(s)) == nfkd(s)
    }

    // Words of the list normalize to themselves, and the separator to a space.
    predicate Normalizes(list: Wordlist, words: seq<string>) {
      On(list).Known(words) ==> nfkd(JoinBy(words, Separator(list))) == JoinBy(words, ' ')
    }

    ghost predicate Usable(list: Wordlist) {
      On(list).Valid() && (forall words :: Normalizes(list, words))
    }

    ghost predicate Valid() {
      && (forall s :: IsFixed(s)) && nfkd("") == ""
      && (forall i :: 0 <= i < |lists| ==> Usable(lists[i]))
    }

    // ---------------------------------------------------------------- specification

    // _entropy2mnemonic
    function Phrase(list: Wordlist, entropy: Bytes): Result<string, Error>
      requires |list| == 2048
    {
      match On(list).Words(entropy)
      case Err(e) => Err(e)
      case Ok(words) => Ok(JoinBy(words, Separator(list)))
    }

    predicate Belongs(s: string, list: Wordlist) {
      On(list).Known(Text.Split(nfkd(s), ' '))
    }

    function FirstWith(s: string, among: seq<Wordlist>): Option<Wordlist> {
      if among == [] then None else if Belongs(s, among[0]) then Some(among[0]) else FirstWith(s, among[1..])
    }

    // _getDictionary
    function Dictionary(s: string): Option<Wordlist> {
      if s == "" then None else FirstWith(s, lists)
    }

    // isValid
    function Validity(mnemonic: string, list: Option<Wordlist>): Result<bool, Error> {
      var s := nfkd(mnemonic);
      match if list.Some? then list else Dictionary(s)
      case None => Ok(false)
      case Some(found) => On(found).Accepts(s)
    }

    // ---------------------------------------------------------------- the program

    method EntropyToMnemonic(list: Wordlist, entropy: Bytes) returns (r: Result<string, Error>)
      requires On(list).Valid() && Bits.Fits(entropy, 8)
      ensures r == Phrase(list, entropy)
    {
      var words := On(list).EntropyToWords(entropy);
      if words.Err? {
        return Err(words.error);
      }
      if list == japanese {
        return Ok(JoinBy(words.value, IDEOGRAPHIC_SPACE));
      } else {
        return Ok(JoinBy(words.value, ' '));
      }
    }

    method BelongsToWordlist(s: string, list: Wordlist) returns (r: bool)
      ensures r == Belongs(s, list)
    {
      hide Text.Split, Env.IndexOf;
      var words := Text.Split(nfkd(s), ' ');
      for i := 0 to |words|
        invariant On(list).Known(words[..i])
      {
        var ind := On(list).IndexOf(words[i], 0);
        if ind < 0 {
          return false;
        }
        assert words[..i + 1] == words[..i] + [words[i]];
      }
      assert words[..|words|] == words;
      return true;
    }

    method GetDictionary(s: string) returns (r: Option<Wordlist>)
      ensures r == Dictionary(s)
    {
      hide Belongs;
      if s == "" {
        return None;
      }
      for i := 0 to |lists|
        invariant FirstWith(s, lists) == FirstWith(s, lists[i..])
      {
        var belongs := BelongsToWordlist(s, lists[i]);
        if belongs {
          return Some(lists[i]);
        }
        assert lists[i..][1..] == lists[i + 1..];
      }
      return None;
    }

    method IsValid(mnemonic: string, wordlist: Option<Wordlist>) returns (r: Result<bool, Error>)
      requires Valid() && (wordlist.Some? ==> On(wordlist.value).Valid())
      ensures r == Validity(mnemonic, wordlist)
    {
      hide Belongs, Env.Valid, Env.Accepts;
      var s := nfkd(mnemonic);
      var list := wordlist;
      if list.None? {
        list := GetDictionary(s);
      }
      if list.None? {
        return Ok(false);
      }
      FoundListed(s, lists);
      r := On(list.value).IsValid(s);
    }

    // ---------------------------------------------------------------- properties

    lemma {:induction false} FoundListed(s: string, among: seq<Wordlist>)
      ensures match FirstWith(s, among)
              case None => forall i :: 0 <= i < |among| ==> !Belongs(s, among[i])
              case Some(list) =>
                Belongs(s, list) && exists i :: 0 <= i < |among| && among[i] == list
                                                && forall j :: 0 <= j < i ==> !Belongs(s, among[j])
      decreases |among|
    {
      hide Belongs;
      if among != [] && !Belongs(s, among[0]) {
        var rest := among[1..];
        FoundListed(s, rest);
        if FirstWith(s, rest).Some? {
          var i :| 0 <= i < |rest| && rest[i] == FirstWith(s, rest).value
                   && forall j :: 0 <= j < i ==> !Belongs(s, rest[j]);
          assert among[i + 1] == rest[i] && forall j :: 0 < j < i + 1 ==> among[j] == rest[j - 1];
        } else {
          assert forall j :: 0 < j < |among| ==> among[j] == rest[j - 1];
        }
      }
    }

    predicate HasAll(list: Wordlist, words: seq<string>) {
      forall i :: 0 <= i < |words| ==> words[i] in list
    }

    lemma KnownIsHasAll(list: Wordlist, words: seq<string>)
      ensures On(list).Known(words) <==> HasAll(list, words)
    {
      forall i | 0 <= i < |words|
        ensures On(list).IndexOf(words[i], 0) >= 0 <==> words[i] in list
      {
        if words[i] in list {
          var k :| 0 <= k < |list| && list[k] == words[i];
        }
      }
    }

    // A phrase is written with ideographic spaces for the Japanese list and with spaces for all others.  It is
    // checked in its normal form, against the list that is given or else the first one that has all its words;
    // without such a list it is not valid.
    lemma ListsWrittenOut(list: Wordlist, entropy: Bytes, mnemonic: string)
      requires Valid() && |list| == 2048
      ensures Phrase(list, entropy).Ok? <==> On(list).Words(entropy).Ok?
      ensures Phrase(list, entropy).Ok? ==>
                var words := On(list).Words(entropy).value;
                Phrase(list, entropy).value ==
                (if words == [] then "" else Text.Join(words, if list == japanese then '\U{3000}' else ' '))
      ensures Validity(mnemonic, Some(list)) == On(list).Accepts(nfkd(mnemonic))
      ensures var words := Text.Split(nfkd(mnemonic), ' ');
              if nfkd(mnemonic) == "" || forall i :: 0 <= i < |lists| ==> !HasAll(lists[i], words) then
                Validity(mnemonic, None) == Ok(false)
              else
                exists i :: 0 <= i < |lists| && HasAll(lists[i], words)
                            && (forall j :: 0 <= j < i ==> !HasAll(lists[j], words))
                            && Validity(mnemonic, None) == On(lists[i]).Accepts(nfkd(mnemonic))
    {
      hide Env.Accepts, Env.Words, Text.Split, Text.Join, HasAll, Env.Known, FirstWith;
      var s := nfkd(mnemonic);
      var words := Text.Split(s, ' ');
      assert IsFixed(mnemonic);
      forall i | 0 <= i < |lists|
        ensures Belongs(s, lists[i]) <==> HasAll(lists[i], words)
      {
        KnownIsHasAll(lists[i], words);
      }
      FoundListed(s, lists);
    }

    lemma ListSize(list: Wordlist)
      requires On(list).Valid()
      ensures |list| == 2048
    {
    }

    lemma WordsKnown(list: Wordlist, entropy: Bytes)
      requires On(list).Valid() && On(list).Words(entropy).Ok?
      ensures var words := On(list).Words(entropy).value;
              && On(list).Known(words) && On(list).Encoded(entropy) == Ok(JoinBy(words, ' '))
              && (entropy != [] ==> Text.Split(JoinBy(words, ' '), ' ') == words)
    {
      var env := On(list);
      if entropy == [] {
        env.AllLength(entropy);
        assert env.AllBits(entropy) == [] && Bits.Chop(env.AllBits(entropy), 11) == [];
        assert env.WordsAt([]) == [];
      } else {
        hide env.Valid, Text.Split, env.Known, env.Words;
        var words := env.EncodedWords(entropy);
      }
    }

    // The phrase of an entropy normalizes to its words with spaces, whatever separator it is written with.
    lemma PhraseNormalizes(list: Wordlist, entropy: Bytes)
      requires Usable(list) && Phrase(list, entropy).Ok?
      ensures On(list).Encoded(entropy) == Ok(nfkd(Phrase(list, entropy).value))
      ensures On(list).Known(On(list).Words(entropy).value)
      ensures entropy != [] ==> Text.Split(nfkd(Phrase(list, entropy).value), ' ') == On(list).Words(entropy).value
    {
      hide Env.Valid, Text.Split, Env.Known, Env.Words, Env.Encoded;
      ListSize(list);
      WordsKnown(list, entropy);
      assert Normalizes(list, On(list).Words(entropy).value);
    }

    // With its list given, the phrase of an entropy is valid exactly when the entropy has 1 to 1027 bytes.
    lemma PhraseIsValidIff(list: Wordlist, entropy: Bytes)
      requires Usable(list) && Bits.Fits(entropy, 8) && Phrase(list, entropy).Ok?
      ensures Validity(Phrase(list, entropy).value, Some(list)) == Ok(true) <==> 0 < |entropy| < 1028
    {
      hide Env.Valid, Text.Split, Env.Known, Env.Words, Env.Encoded, Env.Accepts, Phrase;
      PhraseNormalizes(list, entropy);
      On(list).EncodedIsValidIff(entropy);
    }

    // Without it, the first list that has all the words decides, and the phrase is valid exactly when
    // it is what some entropy encodes to under that list.
    lemma DetectedIsValidIff(list: Wordlist, entropy: Bytes)
      requires Valid() && list in lists && Bits.Fits(entropy, 8) && Phrase(list, entropy).Ok? && entropy != []
      ensures var s := nfkd(Phrase(list, entropy).value);
              && Dictionary(s).Some? && On(Dictionary(s).value).Valid()
              && (Validity(Phrase(list, entropy).value, None) == Ok(true) <==>
                  exists e: Bytes :: Bits.Fits(e, 8) && 0 < |e| < 1028 && On(Dictionary(s).value).Encoded(e) == Ok(s))
    {
      hide Env.Valid, Text.Split, Env.Known, Env.Words, Env.Encoded, Env.Accepts, Phrase, FirstWith;
      ListSize(list);
      var s := nfkd(Phrase(list, entropy).value);
      PhraseNormalizes(list, entropy);
      On(list).EmptyIff(entropy);
      assert IsFixed(Phrase(list, entropy).value);
      assert Belongs(s, list);
      FoundListed(s, lists);
      var found := Dictionary(s).value;
      On(found).ValidIffEncoded(s);
    }

    // So it is valid if its own list is the first that has all its words.
    lemma OwnListFirst(list: Wordlist, entropy: Bytes)
      requires Valid() && list in lists && Bits.Fits(entropy, 8) && Phrase(list, entropy).Ok? && 0 < |entropy| < 1028
      requires Dictionary(nfkd(Phrase(list, entropy).value)) == Some(list)
      ensures Validity(Phrase(list, entropy).value, None) == Ok(true)
    {
      hide Env.Valid, Text.Split, Env.Known, Env.Words, Env.Encoded, Env.Accepts, Phrase, Dictionary;
      PhraseIsValidIff(list, entropy);
    }
  }

  // ---------------------------------------------------------------- where the list is detected wrongly

  // A hash of which the first bit is given.
  function Digest(first: bool): (d: Bytes)
    ensures |d| == 32
  {
    [if first then 128 else 0] + seq(31, _ => 0)
  }

  lemma DigestFits(first: bool)
    ensures Bits.Fits(Digest(first), 8)
  {
    assert Bits.Pow2(4) == 16 && Bits.Pow2(8) == 256;
  }

  lemma FirstBit(first: bool)
    ensures |Bits.Join(Digest(first), 8)| == 256 && Bits.Join(Digest(first), 8)[0] == first
  {
    hide Bits.ToBits, Bits.Join;
    var x := if first then 128 else 0;
    Bits.JoinFirst(x, seq(31, _ => 0), 8);
    Bits.JoinLength(Digest(first), 8);
    Bits.MaskBits(0, 8);
    TopOfByte();
  }

  lemma TopOfByte()
    ensures |Bits.ToBits(128, 8)| == 8 && Bits.ToBits(128, 8)[0]
  {
    assert Bits.ToBits(1, 1) == [true];
    assert Bits.ToBits(2, 2)[0] && Bits.ToBits(4, 3)[0] && Bits.ToBits(8, 4)[0];
    assert Bits.ToBits(16, 5)[0] && Bits.ToBits(32, 6)[0] && Bits.ToBits(64, 7)[0];
  }

  // Gives x for the one entropy and y for every other.
  function TwoHashes(e: Bytes, x: bool, y: bool): Bytes -> Bytes {
    (data: Bytes) => if data == e then Digest(x) else Digest(y)
  }

  lemma FourByteChecksum(env: Env, data: Bytes, first: bool)
    requires |data| == 4 && env.sha256(data) == Digest(first)
    ensures env.Checksum(data) == [first]
  {
    hide Bits.Join;
    FirstBit(first);
    assert Bits.Join(Digest(first), 8)[..1] == [first];
  }

  // The 33 bits of three words: four bytes and a bit of checksum.
  lemma ThreeWords(env: Env, words: seq<string>) returns (b: Bits.Bitstring, e: Bytes)
    requires |words| == 3 && |env.wordlist| == 2048 && env.Known(words)
    ensures b == Bits.Join(env.Indexes(words), 11) && |b| == 33 && Bits.Fits(env.Indexes(words), 11)
    ensures e == Bits.Chop(env.PackedBits(words), 8) && |e| == 4 && env.RestBits(words) == [b[32]]
    ensures b == Bits.Join(e, 8) + [b[32]]
  {
    hide Bits.Join, Bits.Chop, Bits.Leftover, Env.IndexOf;
    b := Bits.Join(env.Indexes(words), 11);
    Bits.JoinLength(env.Indexes(words), 11);
    env.IndexesFit(words);
    e := Bits.Chop(env.PackedBits(words), 8);
    Bits.ChopLength(env.PackedBits(words), 8);
    Bits.JoinChop(env.PackedBits(words), 8);
    Bits.JoinLength(e, 8);
    assert Bits.Join(e, 8) + [] == Bits.Join(e, 8);
  }

  // With the first hash the words are accepted under u, with the other one not under v.
  lemma TwoHashesPart(u: Env, v: Env, words: seq<string>) returns (sha256: Bytes -> Bytes, e: Bytes)
    requires |words| == 3 && |u.wordlist| == |v.wordlist| == 2048 && u.Known(words) && v.Known(words)
    requires u.Indexes(words) != v.Indexes(words)
    ensures forall data :: |sha256(data)| == 32 && Bits.Fits(sha256(data), 8)
    ensures e == Bits.Chop(u.PackedBits(words), 8)
    ensures Env(sha256, u.wordlist).Checksum(e) == u.RestBits(words)
    ensures Env(sha256, v.wordlist).Checksum(Bits.Chop(v.PackedBits(words), 8)) != v.RestBits(words)
  {
    hide Bits.Join, Bits.Chop, Bits.Fits, Env.Checksum, Env.Known, Env.Indexes, Digest, Env.PackedBits, Env.RestBits;
    var b, c, f;
    b, e := ThreeWords(u, words);
    c, f := ThreeWords(v, words);
    if b == c {
      Bits.JoinInjective(u.Indexes(words), v.Indexes(words), 11);
    }
    sha256 := TwoHashes(e, b[32], !c[32]);
    DigestFits(b[32]);
    DigestFits(!c[32]);
    FourByteChecksum(Env(sha256, u.wordlist), e, b[32]);
    FourByteChecksum(Env(sha256, v.wordlist), f, if f == e then b[32] else !c[32]);
    if f == e && b[32] == c[32] {
      assert false;
    }
  }

  // Three words that two lists share at different places: for some hash they are a phrase of the one list that
  // is valid with the list given, and refused without it if the other list is the first that has them.
  lemma SharedWords(library: Library, list: Wordlist, other: Wordlist, words: seq<string>)
    returns (sha256: Bytes -> Bytes, entropy: Bytes)
    requires library.Valid() && list in library.lists && other in library.lists && |words| == 3
    requires library.On(list).Known(words) && library.On(other).Known(words)
    requires library.On(list).Indexes(words) != library.On(other).Indexes(words)
    requires library.Dictionary(JoinBy(words, ' ')) == Some(other)
    ensures var l := library.(sha256 := sha256);
            && l.Valid() && |list| == 2048 && l.Phrase(list, entropy) == Ok(JoinBy(words, l.Separator(list)))
            && l.Validity(l.Phrase(list, entropy).value, Some(list)) == Ok(true)
            && l.Validity(l.Phrase(list, entropy).value, None) == Ok(false)
  {
    hide Bits.Chop, Bits.Fits, Env.Checksum, Env.Known, Env.Indexes, Env.PackedBits, Env.RestBits, Env.Accepts;
    hide Env.Valid, Env.Words, Library.Valid, Library.Dictionary, Library.Phrase, JoinBy;
    var env, env' := library.On(list), library.On(other);
    LibraryLists(library);
    sha256, entropy := TwoHashesPart(env, env', words);
    var l := library.(sha256 := sha256);
    OtherHash(library, sha256);
    LibraryLists(l);
    SameThree(env, l.On(list), words);
    SameThree(env', l.On(other), words);
    PhraseOf(l, list, words, entropy);
    AcceptsThree(l.On(other), words);
    DictionaryAlike(library, l, JoinBy(words, ' '));
    assert l.Normalizes(list, words);
  }

  lemma SameThree(u: Env, v: Env, words: seq<string>)
    requires u.wordlist == v.wordlist && |words| == 3
    ensures u.Known(words) == v.Known(words)
    ensures u.PackedBits(words) == v.PackedBits(words) && u.RestBits(words) == v.RestBits(words)
  {
    hide Bits.Join, Env.Known, Env.Indexes;
    SameIndexes(u, v, words);
  }

  lemma AcceptsThree(env: Env, words: seq<string>)
    requires env.Valid() && env.Known(words) && |words| == 3
    ensures env.Accepts(JoinBy(words, ' ')) ==
            Ok(env.Checksum(Bits.Chop(env.PackedBits(words), 8)) == env.RestBits(words))
  {
    hide Env.Valid, Env.Known, Env.Checksum, Bits.Chop, Text.Split, Env.PackedBits, Env.RestBits;
    ListWords(env, words);
  }

  lemma LibraryLists(library: Library)
    requires library.Valid()
    ensures forall list :: list in library.lists ==> library.Usable(list) && library.On(list).Valid() && |list| == 2048
  {
    forall list | list in library.lists
      ensures library.Usable(list)
    {
      var i :| 0 <= i < |library.lists| && library.lists[i] == list;
    }
  }

  // ---------------------------------------------------------------- what does not depend on the hash

  lemma {:induction false} SameIndex(u: Env, v: Env, word: string, from: nat)
    requires u.wordlist == v.wordlist && from <= |u.wordlist|
    ensures u.IndexOf(word, from) == v.IndexOf(word, from)
    decreases |u.wordlist| - from
  {
    if from < |u.wordlist| {
      SameIndex(u, v, word, from + 1);
    }
  }

  lemma SameIndexes(u: Env, v: Env, words: seq<string>)
    requires u.wordlist == v.wordlist
    ensures u.Known(words) == v.Known(words) && u.Indexes(words) == v.Indexes(words)
  {
    hide Env.IndexOf;
    forall i | 0 <= i < |words|
      ensures u.IndexOf(words[i], 0) == v.IndexOf(words[i], 0)
    {
      SameIndex(u, v, words[i], 0);
    }
  }

  lemma {:induction false} SameFirst(k: Library, l: Library, s: string, among: seq<Wordlist>)
    requires k.nfkd == l.nfkd
    ensures k.FirstWith(s, among) == l.FirstWith(s, among)
    decreases |among|
  {
    hide Text.Split, Env.Known;
    if among != [] {
      SameIndexes(k.On(among[0]), l.On(among[0]), Text.Split(k.nfkd(s), ' '));
      SameFirst(k, l, s, among[1..]);
    }
  }

  lemma DictionaryAlike(k: Library, l: Library, s: string)
    requires k.nfkd == l.nfkd && k.lists == l.lists
    ensures k.Dictionary(s) == l.Dictionary(s)
  {
    hide Library.FirstWith;
    SameFirst(k, l, s, k.lists);
  }

  lemma OtherHash(library: Library, sha256: Bytes -> Bytes)
    requires library.Valid() && forall data :: |sha256(data)| == 32 && Bits.Fits(sha256(data), 8)
    ensures library.(sha256 := sha256).Valid()
  {
    hide Env.Known, Bits.Fits;
    var l := library.(sha256 := sha256);
    assert forall s :: l.IsFixed(s) by {
      assert forall s :: library.IsFixed(s) == l.IsFixed(s);
    }
    forall i | 0 <= i < |l.lists|
      ensures l.Usable(l.lists[i])
    {
      var list := l.lists[i];
      assert library.Usable(list);
      forall words
        ensures l.Normalizes(list, words)
      {
        SameIndexes(library.On(list), l.On(list), words);
        assert library.Normalizes(list, words);
      }
    }
  }

  // What three words stand for under a list.
  lemma PhraseOf(l: Library, list: Wordlist, words: seq<string>, e: Bytes)
    requires l.Usable(list) && |list| == 2048 && l.On(list).Known(words) && |words| == 3
    requires e == Bits.Chop(l.On(list).PackedBits(words), 8)
    requires l.On(list).Checksum(e) == l.On(list).RestBits(words)
    ensures l.On(list).Accepts(JoinBy(words, ' ')) == Ok(true)
    ensures l.Phrase(list, e) == Ok(JoinBy(words, l.Separator(list)))
  {
    var env := l.On(list);
    assert env.Valid();
    hide Env.Valid, Env.Known, Env.Words, Env.Encoded, Env.Checksum, Bits.Chop, Text.Split, Text.Join;
    hide Env.PackedBits, Env.RestBits;
    AcceptsThree(env, words);
    ListWords(env, words);
    env.ValidIsEncoded(JoinBy(words, ' '));
    var found := env.EncodedWords(e);
  }

  lemma ListWords(env: Env, words: seq<string>)
    requires env.Valid() && env.Known(words) && words != []
    ensures Text.Split(JoinBy(words, ' '), ' ') == words
  {
    hide Env.Valid, Env.Known, Text.Split, Text.Join;
    env.SplitWords(words);
  }

  // ---------------------------------------------------------------- an example

  // The numbers from 0 to 2047, and the same numbers one place further.
  function Numbers(): Wordlist {
    seq(2048, i requires 0 <= i < 2048 => Text.Decimal(i))
  }

  function ShiftedNumbers(): Wordlist {
    seq(2048, i requires 0 <= i < 2048 => Text.Decimal((i + 2047) % 2048))
  }

  function ZeroHash(data: Bytes): Bytes {
    Digest(false)
  }

  function Same(s: string): string {
    s
  }

  function Example(): Library {
    Library(ZeroHash, Same, [ShiftedNumbers(), Numbers()], [])
  }

  lemma DecimalsDiffer(i: nat, j: nat)
    requires i != j
    ensures Text.Decimal(i) != Text.Decimal(j) && ' ' !in Text.Decimal(i)
  {
    Text.DecimalRoundTrip(i);
    Text.DecimalRoundTrip(j);
    var d := Text.Decimal(i);
    assert forall n :: 0 <= n < |d| ==> Text.IsDigit(d[n]);
  }

  lemma ListValid(list: Wordlist)
    requires list == Numbers() || list == ShiftedNumbers()
    ensures Example().On(list).Valid() && Example().Usable(list)
  {
    hide Text.Decimal, Text.Join, Env.Known;
    DigestFits(false);
    forall i, j | 0 <= i < j < 2048
      ensures list[i] != list[j]
    {
      if list == Numbers() {
        DecimalsDiffer(i, j);
      } else {
        DecimalsDiffer((i + 2047) % 2048, (j + 2047) % 2048);
      }
    }
    forall i | 0 <= i < 2048
      ensures ' ' !in list[i]
    {
      if list == Numbers() {
        DecimalsDiffer(i, i + 1);
      } else {
        DecimalsDiffer((i + 2047) % 2048, 2048);
      }
    }
    assert |list| != 0;
    assert list != [];
  }

  lemma ExampleValid()
    ensures Example().Valid()
  {
    hide Library.Usable, Numbers, ShiftedNumbers;
    ListValid(Numbers());
    ListValid(ShiftedNumbers());
    var lists := Example().lists;
    assert lists[0] == ShiftedNumbers() && lists[1] == Numbers();
  }

  lemma ZeroIndexes()
    ensures Example().On(Numbers()).Known(["0", "0", "0"]) && Example().On(ShiftedNumbers()).Known(["0", "0", "0"])
    ensures Example().On(Numbers()).Indexes(["0", "0", "0"]) == [0, 0, 0]
    ensures Example().On(ShiftedNumbers()).Indexes(["0", "0", "0"]) == [1, 1, 1]
  {
    hide Env.IndexOf, Text.Decimal;
    ListValid(Numbers());
    ListValid(ShiftedNumbers());
    ZeroText();
    assert Numbers()[0] == Text.Decimal(0) == ShiftedNumbers()[1];
    Example().On(Numbers()).IndexOfFirst(0, 0);
    Example().On(ShiftedNumbers()).IndexOfFirst(1, 0);
  }

  lemma ZeroText()
    ensures Text.Decimal(0) == "0"
  {
  }

  lemma SomePhrase(words: seq<string>)
    requires |words| > 1
    ensures JoinBy(words, ' ') != ""
  {
  }

  // There are such lists: of the same words in a different order.
  lemma DetectedAsOther() returns (library: Library, list: Wordlist, entropy: Bytes)
    ensures library.Valid() && list in library.lists && |list| == 2048 && library.Phrase(list, entropy).Ok?
    ensures library.Validity(library.Phrase(list, entropy).value, Some(list)) == Ok(true)
    ensures library.Validity(library.Phrase(list, entropy).value, None) == Ok(false)
  {
    hide Env.Known, Env.Words, Env.Accepts, Text.Split, Text.Join, Numbers, ShiftedNumbers, Bits.Fits, Env.Indexes;
    hide Library.Valid;
    var words := ["0", "0", "0"];
    list := Numbers();
    ExampleValid();
    ZeroIndexes();
    LibraryLists(Example());
    assert Example().lists[0] == ShiftedNumbers() && Example().lists[1] == list;
    ListWords(Example().On(list), words);
    assert Example().Belongs(JoinBy(words, ' '), ShiftedNumbers());
    SomePhrase(words);
    var sha256;
    sha256, entropy := SharedWords(Example(), list, ShiftedNumbers(), words);
    library := Example().(sha256 := sha256);
  }
}
