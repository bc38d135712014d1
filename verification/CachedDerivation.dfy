/**
 Derivation through one cache shared by private and public keys.

 A child is cached under the text of its parent, its index and whether it is hardened.  The texts of
 keys are Base58Check strings, of which only two facts matter: different bytes have different
 texts, and no text contains a slash.
 */
module CachedDerivation {
  import opened Wrappers
  import opened Bytes
  import opened HdKeys
  import opened HdKeyCache
  import Paths
  import S = Serialization
  import Text

  datatype ExtendedKey<P> = Private(private: HDPrivateKey) | Public(public: HDPublicKey<P>)

  // An answer together with the state of the cache after it.
  datatype Answer<P> = Answer(cache: State<string, ExtendedKey<P>>, result: Result<ExtendedKey<P>, Error>)

  function CacheKey(xkey: string, number: nat, hardened: bool): string {
    xkey + "/" + Text.Decimal(number) + "/" + (if hardened then "true" else "false")
  }

  // The cache after some operations.
  function After<K(==), V>(s: State<K, V>, ops: seq<Operation<K, V>>): State<K, V> {
    if ops == [] then s else Step(After(s, ops[..|ops| - 1]), ops[|ops| - 1])
  }

  lemma {:induction false} AfterFirst<K, V>(s: State<K, V>, op: Operation<K, V>, ops: seq<Operation<K, V>>)
    ensures After(s, [op] + ops) == After(Step(s, op), ops)
    decreases |ops|
  {
    hide Step;
    if ops == [] {
      assert [op] + ops == [op] && [op][..0] == [];
    } else {
      AfterFirst(s, op, ops[..|ops| - 1]);
      assert ([op] + ops)[..|ops|] == [op] + ops[..|ops| - 1];
    }
  }

  datatype Deriver<!P(==, !new)> = Deriver(env: Env<P>, base58check: Bytes -> string)
  {
    predicate Injects(b: Bytes, c: Bytes) {
      base58check(b) == base58check(c) ==> b == c
    }

    predicate NoSlash(b: Bytes) {
      '/' !in base58check(b)
    }

    ghost predicate Valid() {
      env.Valid() && (forall b, c :: Injects(b, c)) && (forall b :: NoSlash(b))
    }

    function XPrivate(k: HDPrivateKey): string {
      base58check(S.SerializePrivate(k))
    }

    function XPublic(k: HDPublicKey<P>): string {
      base58check(S.SerializePublic(env, k))
    }

    predicate Sized(key: ExtendedKey<P>) {
      match key
      case Private(k) => S.SizedPrivate(env.curve.n, k)
      case Public(k) => S.SizedPublic(env, k)
    }

    // ---------------------------------------------------------------- the program on states

    function DerivePrivate(s: State<string, ExtendedKey<P>>, k: HDPrivateKey, index: int, hardened: bool): Answer<P>
      requires env.Valid()
      decreases MAX_INDEX - index
    {
      if !IsValidIndex(index, hardened) then Answer(s, Err(InvalidPath(index)))
      else
        var isHardened := index >= HARDENED || hardened;
        var i := if index < HARDENED && isHardened then index + HARDENED else index;
        var key := CacheKey(XPrivate(k), i, isHardened);
        var cached, looked := Found(s, key), Step(s, Operation.Get(key));
        if cached.Some? then Answer(looked, Ok(cached.value))
        else if env.ChildScalar(k, i, isHardened, false) == 0 then DerivePrivate(looked, k, i + 1, false)
        else
          var derived := Private(env.Child(k, i, isHardened, false));
          Answer(Step(looked, Operation.Set(key, derived)), Ok(derived))
    }

    function DerivePublic(s: State<string, ExtendedKey<P>>, k: HDPublicKey<P>, index: int, hardened: bool): Answer<P>
      requires env.Valid()
      decreases HARDENED - index
    {
      if index >= HARDENED || hardened then Answer(s, Err(CantDeriveHardened))
      else if index < 0 then Answer(s, Err(InvalidPath(index)))
      else
        var key := CacheKey(XPublic(k), index, false);
        var cached, looked := Found(s, key), Step(s, Operation.Get(key));
        if cached.Some? then Answer(looked, Ok(cached.value))
        else if env.PublicChildPoint(k, index) == env.curve.zero then DerivePublic(looked, k, index + 1, false)
        else
          var derived := Public(env.PublicChild(k, index));
          Answer(Step(looked, Operation.Set(key, derived)), Ok(derived))
    }

    function Derive(s: State<string, ExtendedKey<P>>, key: ExtendedKey<P>, index: int, hardened: bool): Answer<P>
      requires env.Valid()
    {
      match key
      case Private(k) => DerivePrivate(s, k, index, hardened)
      case Public(k) => DerivePublic(s, k, index, hardened)
    }

    // The reduce over the indexes: each step is taken by whatever the step before returned.
    function DeriveAll(s: State<string, ExtendedKey<P>>, key: ExtendedKey<P>, indexes: seq<nat>): Answer<P>
      requires env.Valid()
      decreases |indexes|
    {
      if indexes == [] then Answer(s, Ok(key))
      else
        var first := Derive(s, key, indexes[0], false);
        if first.result.Err? then first else DeriveAll(first.cache, first.result.value, indexes[1..])
    }

    function DeriveFromString(s: State<string, ExtendedKey<P>>, key: ExtendedKey<P>, path: string): Answer<P>
      requires env.Valid()
    {
      if key.Public? && '\'' in path then Answer(s, Err(CantDeriveHardened))
      else if !Paths.IsValidPath(path, if key.Private? then MAX_INDEX else HARDENED) then
        Answer(s, Err(InvalidPathString))
      else DeriveAll(s, key, Paths.DerivationIndexes(path).value)
    }

    // ---------------------------------------------------------------- the program on the cache

    method DerivePrivateCached(cache: HDKeyCache<string, ExtendedKey<P>>, k: HDPrivateKey, index: int, hardened: bool)
      returns (r: Result<ExtendedKey<P>, Error>)
      requires env.Valid()
      modifies cache
      ensures Answer(cache.Contents(), r) == DerivePrivate(old(cache.Contents()), k, index, hardened)
      decreases MAX_INDEX - index
    {
      hide Step, Found, CacheKey, XPrivate, HDKeyCache.Contents, env.Valid, env.ChildScalar, env.Child;
      if !IsValidIndex(index, hardened) {
        return Err(InvalidPath(index));
      }
      var isHardened := if index >= HARDENED then true else hardened;
      var i := if index < HARDENED && isHardened then index + HARDENED else index;
      var key := CacheKey(XPrivate(k), i, isHardened);
      var cached := cache.Get(key);
      if cached.Some? {
        return Ok(cached.value);
      }
      if env.ChildScalar(k, i, isHardened, false) == 0 {
        r := DerivePrivateCached(cache, k, i + 1, false);
        return r;
      }
      var derived := Private(env.Child(k, i, isHardened, false));
      cache.Set(key, derived);
      return Ok(derived);
    }

    method DerivePublicCached(cache: HDKeyCache<string, ExtendedKey<P>>, k: HDPublicKey<P>, index: int, hardened: bool)
      returns (r: Result<ExtendedKey<P>, Error>)
      requires env.Valid()
      modifies cache
      ensures Answer(cache.Contents(), r) == DerivePublic(old(cache.Contents()), k, index, hardened)
      decreases HARDENED - index
    {
      hide Step, Found, CacheKey, XPublic, HDKeyCache.Contents, env.Valid, env.PublicChildPoint, env.PublicChild;
      if index >= HARDENED || hardened {
        return Err(CantDeriveHardened);
      }
      if index < 0 {
        return Err(InvalidPath(index));
      }
      var key := CacheKey(XPublic(k), index, false);
      var cached := cache.Get(key);
      if cached.Some? {
        return Ok(cached.value);
      }
      if env.PublicChildPoint(k, index) == env.curve.zero {
        r := DerivePublicCached(cache, k, index + 1, false);
        return r;
      }
      var derived := Public(env.PublicChild(k, index));
      cache.Set(key, derived);
      return Ok(derived);
    }

    method DeriveCached(cache: HDKeyCache<string, ExtendedKey<P>>, key: ExtendedKey<P>, index: int)
      returns (r: Result<ExtendedKey<P>, Error>)
      requires env.Valid()
      modifies cache
      ensures Answer(cache.Contents(), r) == Derive(old(cache.Contents()), key, index, false)
    {
      match key
      case Private(k) => r := DerivePrivateCached(cache, k, index, false);
      case Public(k) => r := DerivePublicCached(cache, k, index, false);
    }

    method DeriveFromStringCached(cache: HDKeyCache<string, ExtendedKey<P>>, key: ExtendedKey<P>, path: string)
      returns (r: Result<ExtendedKey<P>, Error>)
      requires env.Valid()
      modifies cache
      ensures Answer(cache.Contents(), r) == DeriveFromString(old(cache.Contents()), key, path)
    {
      hide Derive, env.Valid, Paths.DerivationIndexes;
      if key.Public? && '\'' in path {
        return Err(CantDeriveHardened);
      }
      if !Paths.IsValidPath(path, if key.Private? then MAX_INDEX else HARDENED) {
        return Err(InvalidPathString);
      }
      var indexes := Paths.DerivationIndexes(path).value;
      var derived := key;
      for i := 0 to |indexes|
        invariant DeriveAll(cache.Contents(), derived, indexes[i..]) == DeriveAll(old(cache.Contents()), key, indexes)
      {
        var next := DeriveCached(cache, derived, indexes[i]);
        assert indexes[i..][1..] == indexes[i + 1..];
        if next.Err? {
          return next;
        }
        derived := next.value;
      }
      return Ok(derived);
    }

    // ---------------------------------------------------------------- what is looked up and stored

    // Looking up the children of a key from an index on.
    predicate Looks(looks: seq<Operation<string, ExtendedKey<P>>>, xkey: string, first: nat, hardened: bool) {
      forall j :: 0 <= j < |looks| ==> IsLook(looks[j], xkey, first + j, hardened && j == 0)
    }

    // The text looked up is the parent's, the index, and whether the child is hardened, with slashes between.
    predicate IsLook(op: Operation<string, ExtendedKey<P>>, xkey: string, number: nat, hardened: bool) {
      op == Operation.Get(
        xkey + "/" + Text.Decimal(number) + "/" + if number >= 0x8000_0000 || hardened then "true" else "false")
    }

    // All looks but the last find nothing; the last one finds the answer, or the child made there is stored.
    ghost predicate Answers(s: State<string, ExtendedKey<P>>, looks: seq<Operation<string, ExtendedKey<P>>>,
                            answer: Answer<P>)
    {
      && (forall j :: 0 <= j < |looks| - 1 ==> Found(After(s, looks[..j]), looks[j].key).None?)
      && match answer.result
         case Err(_) => answer.cache == After(s, looks)
         case Ok(child) =>
           && looks != []
           && var n := |looks| - 1;
              var found := Found(After(s, looks[..n]), looks[n].key);
              if found.Some? then found.value == child && answer.cache == After(s, looks)
              else answer.cache == After(s, looks + [Operation.Set(looks[n].key, child)])
    }

    lemma OneLook(s: State<string, ExtendedKey<P>>, look: Operation<string, ExtendedKey<P>>, answer: Answer<P>)
      requires answer.result.Ok?
      requires if Found(s, look.key).Some? then
                 answer == Answer(Step(s, look), Ok(Found(s, look.key).value))
               else answer.cache == Step(Step(s, look), Operation.Set(look.key, answer.result.value))
      ensures Answers(s, [look], answer)
    {
      hide Step, Found;
      assert [look][..0] == [];
      var store := Operation.Set(look.key, answer.result.value);
      AfterFirst(s, look, []);
      AfterFirst(s, look, [store]);
      AfterFirst(Step(s, look), store, []);
      assert [look] + [] == [look] && [store] + [] == [store];
    }

    lemma NoLook(s: State<string, ExtendedKey<P>>, error: Error)
      ensures Answers(s, [], Answer(s, Err(error)))
    {
    }

    lemma MoreLooks(s: State<string, ExtendedKey<P>>, look: Operation<string, ExtendedKey<P>>,
                    rest: seq<Operation<string, ExtendedKey<P>>>, answer: Answer<P>)
      requires Found(s, look.key).None? && Answers(Step(s, look), rest, answer)
      ensures Answers(s, [look] + rest, answer)
    {
      hide Step, Found, After;
      var all := [look] + rest;
      AfterFirst(s, look, rest);
      forall j | 0 <= j < |all| - 1
        ensures Found(After(s, all[..j]), all[j].key).None?
      {
        LookedBefore(s, look, rest, j);
      }
      if answer.result.Ok? {
        LookedBefore(s, look, rest, |rest|);
        var store := Operation.Set(all[|rest|].key, answer.result.value);
        AfterFirst(s, look, rest + [store]);
        assert all + [store] == [look] + (rest + [store]);
      }
    }

    lemma LookedBefore(s: State<string, ExtendedKey<P>>, look: Operation<string, ExtendedKey<P>>,
                       rest: seq<Operation<string, ExtendedKey<P>>>, j: nat)
      requires j <= |rest|
      ensures After(s, ([look] + rest)[..j]) == if j == 0 then s else After(Step(s, look), rest[..j - 1])
    {
      hide Step;
      if j > 0 {
        assert ([look] + rest)[..j] == [look] + rest[..j - 1];
        AfterFirst(s, look, rest[..j - 1]);
      } else {
        assert ([look] + rest)[..0] == [];
      }
    }

    // A private derivation looks its children up one after the other and stores the one it makes.
    lemma {:induction false} PrivateLooks(s: State<string, ExtendedKey<P>>, k: HDPrivateKey, index: int,
                                          hardened: bool)
      returns (looks: seq<Operation<string, ExtendedKey<P>>>)
      requires env.Valid()
      ensures looks != [] ==> index >= 0 || (hardened && index + 0x8000_0000 >= 0)
      ensures looks != [] ==>
                var first := if index < 0x8000_0000 && hardened then index + 0x8000_0000 else index;
                Looks(looks, XPrivate(k), first, hardened)
      ensures Answers(s, looks, DerivePrivate(s, k, index, hardened))
      decreases MAX_INDEX - index
    {
      hide Step, Found, XPrivate, env.Valid, env.ChildScalar, env.Child, Answers, After, DerivePrivate;
      hide CacheKey, IsLook;
      PrivateStep(s, k, index, hardened);
      if !IsValidIndex(index, hardened) {
        NoLook(s, InvalidPath(index));
        return [];
      }
      var isHardened := index >= HARDENED || hardened;
      var i := if index < HARDENED && isHardened then index + HARDENED else index;
      var look := Operation.Get(CacheKey(XPrivate(k), i, isHardened));
      KeyIsLook(XPrivate(k), i, isHardened, hardened);
      if Found(s, look.key).None? && env.ChildScalar(k, i, isHardened, false) == 0 {
        var rest := PrivateLooks(Step(s, look), k, i + 1, false);
        MoreLooks(s, look, rest, DerivePrivate(s, k, index, hardened));
        looks := [look] + rest;
      } else {
        OneLook(s, look, DerivePrivate(s, k, index, hardened));
        looks := [look];
      }
    }

    lemma KeyIsLook(xkey: string, number: nat, isHardened: bool, hardened: bool)
      requires isHardened == (number >= 0x8000_0000 || hardened)
      ensures IsLook(Operation.Get(CacheKey(xkey, number, isHardened)), xkey, number, hardened)
    {
    }

    lemma PrivateStep(s: State<string, ExtendedKey<P>>, k: HDPrivateKey, index: int, hardened: bool)
      requires env.Valid()
      ensures var answer := DerivePrivate(s, k, index, hardened);
              if !IsValidIndex(index, hardened) then answer == Answer(s, Err(InvalidPath(index)))
              else
                var isHardened := index >= HARDENED || hardened;
                var i := if index < HARDENED && isHardened then index + HARDENED else index;
                var look := Operation.Get(CacheKey(XPrivate(k), i, isHardened));
                if Found(s, look.key).Some? then answer == Answer(Step(s, look), Ok(Found(s, look.key).value))
                else if env.ChildScalar(k, i, isHardened, false) == 0 then
                  answer == DerivePrivate(Step(s, look), k, i + 1, false)
                else
                  answer.result.Ok? && answer.cache == Step(Step(s, look), Operation.Set(look.key, answer.result.value))
    {
      hide Step, Found, XPrivate, env.Valid, env.ChildScalar, env.Child, CacheKey;
    }

    lemma {:induction false} PublicLooks(s: State<string, ExtendedKey<P>>, k: HDPublicKey<P>, index: int,
                                         hardened: bool)
      returns (looks: seq<Operation<string, ExtendedKey<P>>>)
      requires env.Valid()
      ensures looks != [] ==> index >= 0 && Looks(looks, XPublic(k), index, false)
      ensures Answers(s, looks, DerivePublic(s, k, index, hardened))
      decreases HARDENED - index
    {
      hide Step, Found, XPublic, env.Valid, env.PublicChildPoint, env.PublicChild, Answers, After;
      if index >= HARDENED || hardened {
        NoLook(s, CantDeriveHardened);
        return [];
      }
      if index < 0 {
        NoLook(s, InvalidPath(index));
        return [];
      }
      var look := Operation.Get(CacheKey(XPublic(k), index, false));
      if Found(s, look.key).None? && env.PublicChildPoint(k, index) == env.curve.zero {
        var rest := PublicLooks(Step(s, look), k, index + 1, false);
        MoreLooks(s, look, rest, DerivePublic(s, k, index, hardened));
        looks := [look] + rest;
      } else {
        OneLook(s, look, DerivePublic(s, k, index, hardened));
        looks := [look];
      }
    }

    // ---------------------------------------------------------------- cache keys

    lemma PrivateKeysDiffer(k: HDPrivateKey, i: nat, h: bool, l: HDPrivateKey, j: nat, g: bool)
      requires Valid() && Sized(Private(k)) && Sized(Private(l))
      requires CacheKey(XPrivate(k), i, h) == CacheKey(XPrivate(l), j, g)
      ensures k == l && i == j && h == g
    {
      hide S.SerializePrivate, CacheKey, env.Valid;
      assert NoSlash(S.SerializePrivate(k)) && NoSlash(S.SerializePrivate(l));
      CacheKeyInjective(XPrivate(k), i, h, XPrivate(l), j, g);
      assert Injects(S.SerializePrivate(k), S.SerializePrivate(l));
      S.PrivateInjective(env.curve.n, k, l);
    }

    lemma PublicKeysDiffer(k: HDPublicKey<P>, i: nat, l: HDPublicKey<P>, j: nat)
      requires Valid() && Sized(Public(k)) && Sized(Public(l))
      requires CacheKey(XPublic(k), i, false) == CacheKey(XPublic(l), j, false)
      ensures k == l && i == j
    {
      hide S.SerializePublic, CacheKey;
      assert NoSlash(S.SerializePublic(env, k)) && NoSlash(S.SerializePublic(env, l));
      CacheKeyInjective(XPublic(k), i, false, XPublic(l), j, false);
      assert Injects(S.SerializePublic(env, k), S.SerializePublic(env, l));
      S.PublicInjective(env, k, l);
    }

    lemma KindsDiffer(k: HDPrivateKey, i: nat, h: bool, l: HDPublicKey<P>, j: nat)
      requires Valid() && Sized(Private(k)) && Sized(Public(l))
      ensures CacheKey(XPrivate(k), i, h) != CacheKey(XPublic(l), j, false)
    {
      hide S.SerializePrivate, S.SerializePublic, CacheKey;
      assert NoSlash(S.SerializePrivate(k)) && NoSlash(S.SerializePublic(env, l));
      if CacheKey(XPrivate(k), i, h) == CacheKey(XPublic(l), j, false) {
        CacheKeyInjective(XPrivate(k), i, h, XPublic(l), j, false);
        assert Injects(S.SerializePrivate(k), S.SerializePublic(env, l));
        S.PrivateIsNotPublic(env, env.curve.n, k, l);
      }
    }

    // ---------------------------------------------------------------- the invariant

    ghost predicate PrivateEntry(cache: map<string, ExtendedKey<P>>, k: HDPrivateKey, i: nat, hardened: bool)
      requires env.Valid()
    {
      var key := CacheKey(XPrivate(k), i, hardened);
      Sized(Private(k)) && key in cache ==>
        env.ChildScalar(k, i, hardened, false) != 0 && cache[key] == Private(env.Child(k, i, hardened, false))
    }

    ghost predicate PublicEntry(cache: map<string, ExtendedKey<P>>, k: HDPublicKey<P>, i: nat)
      requires env.Valid()
    {
      var key := CacheKey(XPublic(k), i, false);
      Sized(Public(k)) && key in cache ==>
        env.PublicChildPoint(k, i) != env.curve.zero && cache[key] == Public(env.PublicChild(k, i))
    }

    // Every entry is the child its key speaks of, and that child is a valid one.
    ghost predicate Faithful(cache: map<string, ExtendedKey<P>>)
      requires env.Valid()
    {
      && (forall k, i, hardened :: PrivateEntry(cache, k, i, hardened))
      && (forall k, i :: PublicEntry(cache, k, i))
    }

    // What holds of a cache holds of what is left of it after evictions.
    lemma FaithfulPart(cache: map<string, ExtendedKey<P>>, part: map<string, ExtendedKey<P>>)
      requires env.Valid() && Faithful(cache) && IsPart(part, cache)
      ensures Faithful(part)
    {
      hide CacheKey, Sized, env.Valid, env.Child, env.ChildScalar, env.PublicChild, env.PublicChildPoint;
      forall k, i, hardened
        ensures PrivateEntry(part, k, i, hardened)
      {
        assert PrivateEntry(cache, k, i, hardened);
      }
      forall k, i
        ensures PublicEntry(part, k, i)
      {
        assert PublicEntry(cache, k, i);
      }
    }

    lemma FaithfulPrivate(cache: map<string, ExtendedKey<P>>, k: HDPrivateKey, i: nat, hardened: bool)
      requires Valid() && Faithful(cache) && Sized(Private(k)) && env.ChildScalar(k, i, hardened, false) != 0
      ensures Faithful(cache[CacheKey(XPrivate(k), i, hardened) := Private(env.Child(k, i, hardened, false))])
    {
      hide CacheKey, Sized, XPrivate, XPublic;
      hide env.Valid, env.Child, env.ChildScalar, env.PublicChild, env.PublicChildPoint;
      var more := cache[CacheKey(XPrivate(k), i, hardened) := Private(env.Child(k, i, hardened, false))];
      forall l, j, g
        ensures PrivateEntry(more, l, j, g)
      {
        assert PrivateEntry(cache, l, j, g);
        if Sized(Private(l)) && CacheKey(XPrivate(k), i, hardened) == CacheKey(XPrivate(l), j, g) {
          PrivateKeysDiffer(k, i, hardened, l, j, g);
        }
      }
      forall l, j
        ensures PublicEntry(more, l, j)
      {
        assert PublicEntry(cache, l, j);
        if Sized(Public(l)) {
          KindsDiffer(k, i, hardened, l, j);
        }
      }
    }

    lemma FaithfulPublic(cache: map<string, ExtendedKey<P>>, k: HDPublicKey<P>, i: nat)
      requires Valid() && Faithful(cache) && Sized(Public(k)) && env.PublicChildPoint(k, i) != env.curve.zero
      ensures Faithful(cache[CacheKey(XPublic(k), i, false) := Public(env.PublicChild(k, i))])
    {
      hide CacheKey, Sized, XPrivate, XPublic;
      hide env.Valid, env.Child, env.ChildScalar, env.PublicChild, env.PublicChildPoint;
      var more := cache[CacheKey(XPublic(k), i, false) := Public(env.PublicChild(k, i))];
      forall l, j, g
        ensures PrivateEntry(more, l, j, g)
      {
        assert PrivateEntry(cache, l, j, g);
        if Sized(Private(l)) {
          KindsDiffer(l, j, g, k, i);
        }
      }
      forall l, j
        ensures PublicEntry(more, l, j)
      {
        assert PublicEntry(cache, l, j);
        if Sized(Public(l)) && CacheKey(XPublic(k), i, false) == CacheKey(XPublic(l), j, false) {
          PublicKeysDiffer(k, i, l, j);
        }
      }
    }

    // ---------------------------------------------------------------- transparency

    lemma LookedUp(s: State<string, ExtendedKey<P>>, key: string)
      requires env.Valid() && Faithful(s.cache)
      ensures Faithful(Step(s, Operation.Get(key)).cache)
      ensures Found(s, key).Some? ==> key in s.cache && Found(s, key).value == s.cache[key]
    {
      hide Faithful, IsPart, Step, Found;
      GetPart(s, key);
      FaithfulPart(s.cache, Step(s, Operation.Get(key)).cache);
    }

    lemma Stored(s: State<string, ExtendedKey<P>>, key: string, value: ExtendedKey<P>)
      requires env.Valid() && Faithful(s.cache[key := value])
      ensures Faithful(Step(s, Operation.Set(key, value)).cache)
    {
      hide Faithful, IsPart, Step;
      SetPart(s, key, value);
      FaithfulPart(s.cache[key := value], Step(s, Operation.Set(key, value)).cache);
    }

    function OfPrivate(r: Result<HDPrivateKey, Error>): Result<ExtendedKey<P>, Error> {
      match r
      case Ok(k) => Ok(Private(k))
      case Err(e) => Err(e)
    }

    function OfPublic(r: Result<HDPublicKey<P>, Error>): Result<ExtendedKey<P>, Error> {
      match r
      case Ok(k) => Ok(Public(k))
      case Err(e) => Err(e)
    }

    lemma {:induction false} PrivateTransparent(s: State<string, ExtendedKey<P>>, k: HDPrivateKey, index: int,
                                                hardened: bool)
      requires Valid() && Sized(Private(k)) && Faithful(s.cache)
      ensures Faithful(DerivePrivate(s, k, index, hardened).cache.cache)
      ensures DerivePrivate(s, k, index, hardened).result == OfPrivate(env.Derive(k, index, hardened, false))
      decreases MAX_INDEX - index
    {
      hide Valid, env.Valid, Faithful, Sized, CacheKey, XPrivate, Step, Found, env.Child, env.ChildScalar;
      assert env.Valid() by { EnvValid(); }
      if IsValidIndex(index, hardened) {
        var isHardened := index >= HARDENED || hardened;
        var i := if index < HARDENED && isHardened then index + HARDENED else index;
        var key := CacheKey(XPrivate(k), i, isHardened);
        var looked := Step(s, Operation.Get(key));
        LookedUp(s, key);
        EntryOf(s.cache, k, i, isHardened);
        if Found(s, key).None? {
          if env.ChildScalar(k, i, isHardened, false) == 0 {
            PrivateTransparent(looked, k, i + 1, false);
          } else {
            FaithfulPrivate(looked.cache, k, i, isHardened);
            Stored(looked, key, Private(env.Child(k, i, isHardened, false)));
          }
        }
      }
    }

    lemma EnvValid()
      requires Valid()
      ensures env.Valid()
    {
    }

    lemma EntryOf(cache: map<string, ExtendedKey<P>>, k: HDPrivateKey, i: nat, hardened: bool)
      requires env.Valid() && Faithful(cache) && Sized(Private(k))
      ensures var key := CacheKey(XPrivate(k), i, hardened);
              key in cache ==>
                env.ChildScalar(k, i, hardened, false) != 0 && cache[key] == Private(env.Child(k, i, hardened, false))
    {
      hide env.Valid, Sized, CacheKey, env.Child, env.ChildScalar;
      assert PrivateEntry(cache, k, i, hardened);
    }

    lemma PublicEntryOf(cache: map<string, ExtendedKey<P>>, k: HDPublicKey<P>, i: nat)
      requires env.Valid() && Faithful(cache) && Sized(Public(k))
      ensures var key := CacheKey(XPublic(k), i, false);
              key in cache ==>
                env.PublicChildPoint(k, i) != env.curve.zero && cache[key] == Public(env.PublicChild(k, i))
    {
      hide env.Valid, Sized, CacheKey, env.PublicChild, env.PublicChildPoint;
      assert PublicEntry(cache, k, i);
    }

    lemma {:induction false} PublicTransparent(s: State<string, ExtendedKey<P>>, k: HDPublicKey<P>, index: int,
                                               hardened: bool)
      requires Valid() && Sized(Public(k)) && Faithful(s.cache)
      ensures Faithful(DerivePublic(s, k, index, hardened).cache.cache)
      ensures DerivePublic(s, k, index, hardened).result == OfPublic(env.DerivePublic(k, index, hardened))
      decreases HARDENED - index
    {
      hide Valid, env.Valid, Faithful, Sized, CacheKey, XPublic, Step, Found, env.PublicChild, env.PublicChildPoint;
      assert env.Valid() by { EnvValid(); }
      if 0 <= index < HARDENED && !hardened {
        var key := CacheKey(XPublic(k), index, false);
        var looked := Step(s, Operation.Get(key));
        LookedUp(s, key);
        PublicEntryOf(s.cache, k, index);
        if Found(s, key).None? {
          if env.PublicChildPoint(k, index) == env.curve.zero {
            PublicTransparent(looked, k, index + 1, false);
          } else {
            FaithfulPublic(looked.cache, k, index);
            Stored(looked, key, Public(env.PublicChild(k, index)));
          }
        }
      }
    }

    // ---------------------------------------------------------------- children are serializable

    lemma FingerPrintSized(p: P)
      requires env.Valid()
      ensures |env.FingerPrint(p)| == 4 && IsBytes(env.FingerPrint(p))
    {
      env.Hashes(env.Compressed(p), []);
    }

    lemma RightPartSized(data: Bytes, chainCode: Bytes)
      requires env.Valid()
      ensures |env.RightPart(data, chainCode)| == 32 && IsBytes(env.RightPart(data, chainCode))
    {
      env.Hashes(data, chainCode);
    }

    lemma DerivedSized(k: HDPrivateKey, index: int, hardened: bool)
      requires env.Valid() && Sized(Private(k)) && env.Derive(k, index, hardened, false).Ok?
      ensures Sized(Private(env.Derive(k, index, hardened, false).value))
      decreases MAX_INDEX - index
    {
      hide env.Valid, env.ChildData, env.FingerPrint, env.RightPart, env.LeftPart;
      var isHardened := index >= HARDENED || hardened;
      var i := if index < HARDENED && isHardened then index + HARDENED else index;
      if env.ChildScalar(k, i, isHardened, false) == 0 {
        DerivedSized(k, i + 1, false);
      } else {
        FingerPrintSized(env.PublicPoint(k));
        RightPartSized(env.ChildData(k, i, isHardened, false), k.chainCode);
      }
    }

    lemma DerivedPublicSized(k: HDPublicKey<P>, index: int)
      requires env.Valid() && Sized(Public(k)) && env.DerivePublic(k, index, false).Ok?
      ensures Sized(Public(env.DerivePublic(k, index, false).value))
      decreases HARDENED - index
    {
      hide env.Valid, env.PublicData, env.FingerPrint, env.RightPart, env.PublicChildPoint;
      if env.PublicChildPoint(k, index) == env.curve.zero {
        DerivedPublicSized(k, index + 1);
      } else {
        FingerPrintSized(k.point);
        RightPartSized(env.PublicData(k, index), k.chainCode);
      }
    }

    // ---------------------------------------------------------------- paths and runs

    function UncachedAll(key: ExtendedKey<P>, indexes: seq<nat>): Result<ExtendedKey<P>, Error>
      requires env.Valid()
    {
      match key
      case Private(k) => OfPrivate(Paths.DeriveAll(env, k, indexes, false))
      case Public(k) => OfPublic(Paths.DeriveAllPublic(env, k, indexes))
    }

    lemma {:induction false} AllTransparent(s: State<string, ExtendedKey<P>>, key: ExtendedKey<P>, indexes: seq<nat>)
      requires Valid() && Sized(key) && Faithful(s.cache)
      ensures Faithful(DeriveAll(s, key, indexes).cache.cache)
      ensures DeriveAll(s, key, indexes).result == UncachedAll(key, indexes)
      decreases |indexes|
    {
      hide Valid, env.Valid, Faithful, Sized, DerivePrivate, DerivePublic, env.Derive, env.DerivePublic;
      assert env.Valid() by { EnvValid(); }
      if indexes != [] {
        match key
        case Private(k) =>
          PrivateTransparent(s, k, indexes[0], false);
          var first := DerivePrivate(s, k, indexes[0], false);
          if first.result.Ok? {
            DerivedSized(k, indexes[0], false);
            AllTransparent(first.cache, first.result.value, indexes[1..]);
          }
        case Public(k) =>
          PublicTransparent(s, k, indexes[0], false);
          var first := DerivePublic(s, k, indexes[0], false);
          if first.result.Ok? {
            DerivedPublicSized(k, indexes[0]);
            AllTransparent(first.cache, first.result.value, indexes[1..]);
          }
      }
    }

    function Served(s: State<string, ExtendedKey<P>>, request: Request<P>): Answer<P>
      requires env.Valid()
    {
      match request
      case Number(key, index, hardened) => Derive(s, key, index, hardened)
      case Path(key, path) => DeriveFromString(s, key, path)
    }

    // What a request derives where nothing is cached.
    function Uncached(request: Request<P>): Result<ExtendedKey<P>, Error>
      requires env.Valid()
    {
      match request
      case Number(Private(k), index, hardened) => OfPrivate(env.Derive(k, index, hardened, false))
      case Number(Public(k), index, hardened) => OfPublic(env.DerivePublic(k, index, hardened))
      case Path(Private(k), path) => OfPrivate(Paths.DeriveFromString(env, k, path, false))
      case Path(Public(k), path) => OfPublic(Paths.DerivePublicFromString(env, k, path))
    }

    lemma ServedTransparently(s: State<string, ExtendedKey<P>>, request: Request<P>)
      requires Valid() && Sized(request.key) && Faithful(s.cache)
      ensures Faithful(Served(s, request).cache.cache)
      ensures Served(s, request).result == Uncached(request)
    {
      hide Valid, env.Valid, Faithful, Sized, DerivePrivate, DerivePublic, DeriveAll, Paths.DerivationIndexes;
      assert env.Valid() by { EnvValid(); }
      match request
      case Number(Private(k), index, hardened) => PrivateTransparent(s, k, index, hardened);
      case Number(Public(k), index, hardened) => PublicTransparent(s, k, index, hardened);
      case Path(key, path) =>
        if Paths.DerivationIndexes(path).Some? {
          AllTransparent(s, key, Paths.DerivationIndexes(path).value);
        }
    }

    // The results of a run of requests through one cache.
    function Results(s: State<string, ExtendedKey<P>>, requests: seq<Request<P>>): seq<Result<ExtendedKey<P>, Error>>
      requires env.Valid()
      decreases |requests|
    {
      if requests == [] then []
      else
        var first := Served(s, requests[0]);
        [first.result] + Results(first.cache, requests[1..])
    }

    lemma {:induction false} ResultsTransparent(s: State<string, ExtendedKey<P>>, requests: seq<Request<P>>)
      requires Valid() && Faithful(s.cache)
      requires forall i :: 0 <= i < |requests| ==> Sized(requests[i].key)
      ensures |Results(s, requests)| == |requests|
      ensures forall i :: 0 <= i < |requests| ==> Results(s, requests)[i] == Uncached(requests[i])
      decreases |requests|
    {
      hide Valid, env.Valid, Faithful, Sized, Served, Uncached;
      assert env.Valid() by { EnvValid(); }
      if requests != [] {
        ServedTransparently(s, requests[0]);
        var first, rest := Served(s, requests[0]), requests[1..];
        ResultsTransparent(first.cache, rest);
        forall i | 0 <= i < |requests|
          ensures Results(s, requests)[i] == Uncached(requests[i])
        {
          if i > 0 {
            assert requests[i] == rest[i - 1];
          }
        }
      }
    }

    // Starting from the empty cache, private and public derivations in any order all return what
    // they return without a cache, evictions and skipped indexes included.
    lemma CacheIsTransparent(requests: seq<Request<P>>)
      requires Valid()
      requires forall i :: 0 <= i < |requests| ==> Sized(requests[i].key)
      ensures Results(Empty(), requests) == seq(|requests|, i requires 0 <= i < |requests| => Uncached(requests[i]))
    {
      hide Served, Uncached, Sized, CacheKey;
      var s := Empty<string, ExtendedKey<P>>();
      assert Faithful(s.cache);
      ResultsTransparent(s, requests);
    }
  }

  datatype Request<P> =
    | Number(key: ExtendedKey<P>, index: int, hardened: bool)
    | Path(key: ExtendedKey<P>, path: string)

  lemma CacheKeyInjective(x: string, i: nat, h: bool, y: string, j: nat, g: bool)
    requires '/' !in x && '/' !in y && CacheKey(x, i, h) == CacheKey(y, j, g)
    ensures x == y && i == j && h == g
  {
    hide Text.Decimal, Text.Split, CacheKey;
    CacheKeySplit(x, i, h);
    CacheKeySplit(y, j, g);
    var a, b := Text.Split(CacheKey(x, i, h), '/'), Text.Split(CacheKey(y, j, g), '/');
    assert a[0] == b[0] && a[1] == b[1] && a[2] == b[2];
    Text.DecimalRoundTrip(i);
    Text.DecimalRoundTrip(j);
    assert "true" != "false" by {
      assert "true"[0] != "false"[0];
    }
  }

  lemma CacheKeySplit(x: string, i: nat, h: bool)
    requires '/' !in x
    ensures Text.Split(CacheKey(x, i, h), '/') == [x, Text.Decimal(i), if h then "true" else "false"]
  {
    hide Text.Decimal, Text.Split;
    var d, flag := Text.Decimal(i), if h then "true" else "false";
    assert '/' !in d by {
      assert forall n :: 0 <= n < |d| ==> Text.IsDigit(d[n]);
    }
    Text.SplitNone(flag, '/');
    Text.SplitFirst(d, flag, '/');
    Text.SplitFirst(x, d + ['/'] + flag, '/');
    assert CacheKey(x, i, h) == x + ['/'] + (d + ['/'] + flag);
  }
}
