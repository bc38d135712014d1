/** The 32 symbols of the CashAddr alphabet. */
module Base32 {
  import opened Wrappers

  datatype Error = InvalidSymbol

  const CHARSET := "qpzry9x8gf2tvdw0s3jn54khce6mua7l"

  const CHARSET_INVERSE_INDEX: map<char, int> := map[
    'q' := 0, 'p' := 1, 'z' := 2, 'r' := 3, 'y' := 4, '9' := 5, 'x' := 6, '8' := 7,
    'g' := 8, 'f' := 9, '2' := 10, 't' := 11, 'v' := 12, 'd' := 13, 'w' := 14, '0' := 15,
    's' := 16, '3' := 17, 'j' := 18, 'n' := 19, '5' := 20, '4' := 21, 'k' := 22, 'h' := 23,
    'c' := 24, 'e' := 25, '6' := 26, 'm' := 27, 'u' := 28, 'a' := 29, '7' := 30, 'l' := 31]

  lemma Quarter0(n: int)
    requires 0 <= n < 8
    ensures CHARSET[n] in CHARSET_INVERSE_INDEX && CHARSET_INVERSE_INDEX[CHARSET[n]] == n
  {
    assert n in {0, 1, 2, 3, 4, 5, 6, 7};
  }

  lemma Quarter1(n: int)
    requires 8 <= n < 16
    ensures CHARSET[n] in CHARSET_INVERSE_INDEX && CHARSET_INVERSE_INDEX[CHARSET[n]] == n
  {
    assert n in {8, 9, 10, 11, 12, 13, 14, 15};
  }

  lemma Quarter2(n: int)
    requires 16 <= n < 24
    ensures CHARSET[n] in CHARSET_INVERSE_INDEX && CHARSET_INVERSE_INDEX[CHARSET[n]] == n
  {
    assert n in {16, 17, 18, 19, 20, 21, 22, 23};
  }

  lemma Quarter3(n: int)
    requires 24 <= n < 32
    ensures CHARSET[n] in CHARSET_INVERSE_INDEX && CHARSET_INVERSE_INDEX[CHARSET[n]] == n
  {
    assert n in {24, 25, 26, 27, 28, 29, 30, 31};
  }

  // The table and the alphabet are inverse to each other.
  lemma SymbolIndex(n: int)
    requires 0 <= n < 32
    ensures CHARSET[n] in CHARSET_INVERSE_INDEX && CHARSET_INVERSE_INDEX[CHARSET[n]] == n
  {
    if n < 8 {
      Quarter0(n);
    } else if n < 16 {
      Quarter1(n);
    } else if n < 24 {
      Quarter2(n);
    } else {
      Quarter3(n);
    }
  }

  lemma IndexSymbol(c: char)
    requires c in CHARSET_INVERSE_INDEX
    ensures 0 <= CHARSET_INVERSE_INDEX[c] < 32 && CHARSET[CHARSET_INVERSE_INDEX[c]] == c
  {
  }

  predicate Encodable(data: seq<int>) {
    forall i :: 0 <= i < |data| ==> 0 <= data[i] < 32
  }

  function Encoded(data: seq<int>): string
    requires Encodable(data)
  {
    seq(|data|, i requires 0 <= i < |data| => CHARSET[data[i]])
  }

  predicate Decodable(s: string) {
    forall i :: 0 <= i < |s| ==> s[i] in CHARSET_INVERSE_INDEX
  }

  function Decoded(s: string): seq<int>
    requires Decodable(s)
  {
    seq(|s|, i requires 0 <= i < |s| => CHARSET_INVERSE_INDEX[s[i]])
  }

  lemma EncodeThenDecode(data: seq<int>)
    requires Encodable(data)
    ensures Decodable(Encoded(data)) && Decoded(Encoded(data)) == data
  {
    forall i | 0 <= i < |data|
      ensures Encoded(data)[i] in CHARSET_INVERSE_INDEX && CHARSET_INVERSE_INDEX[Encoded(data)[i]] == data[i]
    {
      SymbolIndex(data[i]);
    }
  }

  lemma DecodeThenEncode(s: string)
    requires Decodable(s)
    ensures Encodable(Decoded(s)) && Encoded(Decoded(s)) == s
  {
    forall i | 0 <= i < |s|
      ensures 0 <= Decoded(s)[i] < 32 && CHARSET[Decoded(s)[i]] == s[i]
    {
      IndexSymbol(s[i]);
    }
  }

  method Encode(data: seq<int>) returns (r: Result<string, Error>)
    ensures r == if Encodable(data) then Ok(Encoded(data)) else Err(InvalidSymbol)
  {
    var base32 := "";
    for i := 0 to |data|
      invariant Encodable(data[..i]) && base32 == Encoded(data[..i])
    {
      var value := data[i];
      if !(0 <= value < 32) {
        return Err(InvalidSymbol);
      }
      base32 := base32 + [CHARSET[value]];
    }
    assert data[..|data|] == data;
    return Ok(base32);
  }

  method Decode(base32: string) returns (r: Result<seq<int>, Error>)
    ensures r == if Decodable(base32) then Ok(Decoded(base32)) else Err(InvalidSymbol)
  {
    var data: seq<int> := [];
    for i := 0 to |base32|
      invariant Decodable(base32[..i]) && data == Decoded(base32[..i])
    {
      var value := base32[i];
      if value !in CHARSET_INVERSE_INDEX {
        return Err(InvalidSymbol);
      }
      data := data + [CHARSET_INVERSE_INDEX[value]];
    }
    assert base32[..|base32|] == base32;
    return Ok(data);
  }
}
