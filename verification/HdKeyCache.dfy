/**
 The cache of derived keys: a usage list in which every touch of a key takes the next slot, the
 reverse index of each key's slot, and a cursor that erases slots more than CACHE_SIZE touches old.

 Slot 0 counts as no slot in the reverse index, since zero is false to the program.  So the first
 key's first slot stays when that key is touched again, and evicts it too early.
 */
module HdKeyCache {
  import opened Wrappers

  const CACHE_SIZE: nat := 5000

  datatype State<K(==), V> = State(
    cache: map<K, V>, count: nat, eraseIndex: nat, usedList: map<nat, K>, usedIndex: map<K, nat>)

  function Empty<K(==), V>(): State<K, V> {
    State(map[], 0, 0, map[], map[])
  }

  // ---------------------------------------------------------------- the operations on states

  // A touch before anything is evicted.
  function Recorded<K(==), V>(s: State<K, V>, key: K): State<K, V> {
    var list := if key in s.usedIndex && s.usedIndex[key] != 0 then s.usedList - {s.usedIndex[key]} else s.usedList;
    s.(usedList := list[s.count := key], usedIndex := s.usedIndex[key := s.count], count := s.count + 1)
  }

  function EraseSlot<K(==), V>(s: State<K, V>): State<K, V> {
    var gone := if s.eraseIndex in s.usedList then {s.usedList[s.eraseIndex]} else {};
    s.(usedIndex := s.usedIndex - gone, cache := s.cache - gone,
       usedList := s.usedList - {s.eraseIndex}, eraseIndex := s.eraseIndex + 1)
  }

  function Trimmed<K(==), V>(s: State<K, V>): State<K, V>
    decreases s.count - s.eraseIndex
  {
    if s.eraseIndex + CACHE_SIZE < s.count then Trimmed(EraseSlot(s)) else s
  }

  function Hit<K(==), V>(s: State<K, V>, key: K): State<K, V> {
    Trimmed(Recorded(s, key))
  }

  datatype Operation<K, V> = Get(key: K) | Set(key: K, value: V)

  function Step<K(==), V>(s: State<K, V>, op: Operation<K, V>): State<K, V> {
    match op
    case Get(key) => if key in s.cache then Hit(s, key) else s
    case Set(key, value) => Hit(s.(cache := s.cache[key := value]), key)
  }

  // What get returns: it looks once more after its own hit.
  function Found<K(==), V>(s: State<K, V>, key: K): Option<V> {
    var t := Step(s, Get(key));
    if key in s.cache && key in t.cache then Some(t.cache[key]) else None
  }

  // ---------------------------------------------------------------- the program

  class HDKeyCache<K(==), V> {
    var cache: map<K, V>
    var count: nat
    var eraseIndex: nat
    var usedList: map<nat, K>
    var usedIndex: map<K, nat>

    ghost function Contents(): State<K, V>
      reads this
    {
      State(cache, count, eraseIndex, usedList, usedIndex)
    }

    constructor ()
      ensures Contents() == Empty()
    {
      cache, count, eraseIndex, usedList, usedIndex := map[], 0, 0, map[], map[];
    }

    method Get(key: K) returns (r: Option<V>)
      modifies this
      ensures Contents() == Step(old(Contents()), Operation.Get(key))
      ensures r == Found(old(Contents()), key)
    {
      if key in cache {
        CacheHit(key);
        return if key in cache then Some(cache[key]) else None;
      }
      return None;
    }

    method Set(key: K, derived: V)
      modifies this
      ensures Contents() == Step(old(Contents()), Operation.Set(key, derived))
    {
      cache := cache[key := derived];
      CacheHit(key);
    }

    method CacheHit(key: K)
      modifies this
      ensures Contents() == Hit(old(Contents()), key)
    {
      if key in usedIndex && usedIndex[key] != 0 {
        usedList := usedList - {usedIndex[key]};
      }
      usedList := usedList[count := key];
      usedIndex := usedIndex[key := count];
      count := count + 1;
      CacheRemove();
    }

    method CacheRemove()
      modifies this
      ensures Contents() == Trimmed(old(Contents()))
    {
      while eraseIndex < count - CACHE_SIZE
        invariant Trimmed(Contents()) == Trimmed(old(Contents()))
      {
        ghost var before := Contents();
        if eraseIndex in usedList {
          var removeKey := usedList[eraseIndex];
          usedIndex := usedIndex - {removeKey};
          cache := cache - {removeKey};
        }
        usedList := usedList - {eraseIndex};
        eraseIndex := eraseIndex + 1;
        assert Contents() == EraseSlot(before);
      }
    }
  }

  // ---------------------------------------------------------------- runs

  // The state after a run from the empty cache.
  function Run<K(==), V>(ops: seq<Operation<K, V>>): State<K, V> {
    if ops == [] then Empty() else Step(Run(ops[..|ops| - 1]), ops[|ops| - 1])
  }

  // The keys touched in a run: by every set, and by every get of a key that is cached.
  function Touches<K(==), V>(ops: seq<Operation<K, V>>): seq<K> {
    if ops == [] then []
    else
      var before, op := ops[..|ops| - 1], ops[|ops| - 1];
      Touches(before) + if op.Set? || op.key in Run(before).cache then [op.key] else []
  }

  function LastTouches<K>(h: seq<K>): seq<K> {
    if |h| <= CACHE_SIZE then h else h[|h| - CACHE_SIZE..]
  }

  // ---------------------------------------------------------------- the invariant

  // The first key was touched again before its first slot was erased.
  predicate FirstAgain<K(==)>(h: seq<K>) {
    exists i :: 0 < i < |h| && i <= CACHE_SIZE && h[i] == h[0]
  }

  // Every other key is regular.
  predicate Regular<K(==)>(h: seq<K>, key: K) {
    h != [] && key == h[0] ==> !FirstAgain(h)
  }

  predicate Cursors<K(==), V>(s: State<K, V>, h: seq<K>) {
    && s.count == |h|
    && s.eraseIndex == if |h| <= CACHE_SIZE then 0 else |h| - CACHE_SIZE
  }

  predicate Slots<K(==), V>(s: State<K, V>, h: seq<K>) {
    forall j :: j in s.usedList ==> s.eraseIndex <= j < |h| && s.usedList[j] == h[j]
  }

  // The index of a key is the slot of its last touch.
  predicate Indexed<K(==), V>(s: State<K, V>, h: seq<K>) {
    forall key :: key in s.usedIndex ==>
      && s.eraseIndex <= s.usedIndex[key] < |h| && s.usedIndex[key] in s.usedList
      && h[s.usedIndex[key]] == key && (forall i :: s.usedIndex[key] < i < |h| ==> h[i] != key)
  }

  predicate NoStaleSlots<K(==), V>(s: State<K, V>, h: seq<K>) {
    forall j :: j in s.usedList && Regular(h, s.usedList[j]) ==>
      s.usedList[j] in s.usedIndex && s.usedIndex[s.usedList[j]] == j
  }

  predicate KeepsRecent<K(==), V>(s: State<K, V>, h: seq<K>) {
    forall i :: s.eraseIndex <= i < |h| && Regular(h, h[i]) ==> h[i] in s.usedIndex
  }

  // The first key stays until its first slot is erased, and goes then.
  predicate FirstKey<K(==), V>(s: State<K, V>, h: seq<K>) {
    && (0 < |h| <= CACHE_SIZE ==> 0 in s.usedList && h[0] in s.usedIndex)
    && (|h| == CACHE_SIZE + 1 ==> h[0] !in s.usedIndex)
  }

  predicate Tracks<K(==), V>(s: State<K, V>, h: seq<K>) {
    Cursors(s, h) && Slots(s, h) && Indexed(s, h) && NoStaleSlots(s, h) && KeepsRecent(s, h) && FirstKey(s, h)
  }

  lemma AgainStays<K>(h: seq<K>, touched: K)
    requires FirstAgain(h)
    ensures FirstAgain(h + [touched])
  {
    var i :| 0 < i < |h| && i <= CACHE_SIZE && h[i] == h[0];
    assert (h + [touched])[i] == (h + [touched])[0];
  }

  lemma TouchedAgain<K>(h: seq<K>, touched: K)
    requires 0 < |h| <= CACHE_SIZE && touched == h[0]
    ensures FirstAgain(h + [touched])
  {
    assert (h + [touched])[|h|] == (h + [touched])[0];
  }

  lemma RegularBefore<K>(h: seq<K>, touched: K, key: K)
    requires Regular(h + [touched], key)
    ensures Regular(h, key)
    ensures 0 < |h| <= CACHE_SIZE && key == touched ==> key != h[0]
  {
    if FirstAgain(h) {
      AgainStays(h, touched);
    }
    if 0 < |h| <= CACHE_SIZE && touched == h[0] {
      TouchedAgain(h, touched);
    }
  }

  lemma RecordedSlots<K, V>(s: State<K, V>, h: seq<K>, key: K)
    requires Cursors(s, h) && Slots(s, h) && Indexed(s, h)
    ensures Slots(Recorded(s, key), h + [key]) && Indexed(Recorded(s, key), h + [key])
  {
  }

  lemma RecordedNoStale<K, V>(s: State<K, V>, h: seq<K>, key: K)
    requires Cursors(s, h) && Slots(s, h) && Indexed(s, h) && NoStaleSlots(s, h)
    ensures NoStaleSlots(Recorded(s, key), h + [key])
  {
    var r, t := Recorded(s, key), h + [key];
    forall j | j in r.usedList && Regular(t, r.usedList[j])
      ensures r.usedList[j] in r.usedIndex && r.usedIndex[r.usedList[j]] == j
    {
      if j < |h| {
        var k := r.usedList[j];
        RegularBefore(h, key, k);
        assert j in s.usedList && s.usedList[j] == k;
      }
    }
  }

  lemma RecordedKeepsRecent<K, V>(s: State<K, V>, h: seq<K>, key: K)
    requires KeepsRecent(s, h)
    ensures KeepsRecent(Recorded(s, key), h + [key])
  {
    var r, t := Recorded(s, key), h + [key];
    forall i | r.eraseIndex <= i < |t| && Regular(t, t[i])
      ensures t[i] in r.usedIndex
    {
      if i < |h| {
        RegularBefore(h, key, h[i]);
      }
    }
  }

  // Erasing the oldest slot of a full window.
  lemma SlotErased<K, V>(s: State<K, V>, h: seq<K>)
    requires Slots(s, h) && Indexed(s, h) && NoStaleSlots(s, h) && KeepsRecent(s, h)
    ensures Slots(EraseSlot(s), h) && Indexed(EraseSlot(s), h)
    ensures NoStaleSlots(EraseSlot(s), h) && KeepsRecent(EraseSlot(s), h)
  {
    hide Regular;
    var t := EraseSlot(s);
    forall i | t.eraseIndex <= i < |h| && Regular(h, h[i])
      ensures h[i] in t.usedIndex
    {
      assert h[i] in s.usedIndex;
    }
  }

  lemma TrimmedOnce<K, V>(s: State<K, V>)
    requires s.eraseIndex + CACHE_SIZE + 1 >= s.count
    ensures Trimmed(s) == if s.eraseIndex + CACHE_SIZE < s.count then EraseSlot(s) else s
  {
  }

  // Every touch keeps the invariant.
  lemma HitTracks<K, V>(s: State<K, V>, h: seq<K>, key: K)
    requires Tracks(s, h)
    ensures Tracks(Hit(s, key), h + [key])
  {
    hide Regular, NoStaleSlots, KeepsRecent;
    var r, t := Recorded(s, key), h + [key];
    RecordedSlots(s, h, key);
    RecordedNoStale(s, h, key);
    RecordedKeepsRecent(s, h, key);
    TrimmedOnce(r);
    if |h| >= CACHE_SIZE {
      SlotErased(r, t);
    }
    assert FirstKey(Hit(s, key), t);
  }

  // ---------------------------------------------------------------- every reachable state

  // A part of a map: fewer keys, the same values.
  predicate IsPart<K(==), V(==)>(part: map<K, V>, m: map<K, V>) {
    forall key :: key in part ==> key in m && part[key] == m[key]
  }

  // Evicting changes no value.
  lemma {:induction false} TrimmedPart<K, V>(s: State<K, V>)
    ensures IsPart(Trimmed(s).cache, s.cache)
    decreases s.count - s.eraseIndex
  {
    if s.eraseIndex + CACHE_SIZE < s.count {
      TrimmedPart(EraseSlot(s));
    }
  }

  // It drops the same keys from the cache and from the index.
  lemma {:induction false} TrimmedKeys<K, V>(s: State<K, V>)
    requires s.cache.Keys == s.usedIndex.Keys
    ensures Trimmed(s).cache.Keys == Trimmed(s).usedIndex.Keys
    decreases s.count - s.eraseIndex
  {
    if s.eraseIndex + CACHE_SIZE < s.count {
      assert EraseSlot(s).cache.Keys == EraseSlot(s).usedIndex.Keys;
      TrimmedKeys(EraseSlot(s));
    }
  }

  lemma GetPart<K, V>(s: State<K, V>, key: K)
    ensures IsPart(Step(s, Operation.Get(key)).cache, s.cache)
    ensures Found(s, key).Some? ==> key in s.cache && Found(s, key).value == s.cache[key]
  {
    TrimmedPart(Recorded(s, key));
  }

  lemma SetPart<K, V>(s: State<K, V>, key: K, value: V)
    ensures IsPart(Step(s, Operation.Set(key, value)).cache, s.cache[key := value])
  {
    TrimmedPart(Recorded(s.(cache := s.cache[key := value]), key));
  }

  lemma {:induction false} RunTracks<K, V>(ops: seq<Operation<K, V>>)
    ensures Tracks(Run(ops), Touches(ops))
    ensures Run(ops).cache.Keys == Run(ops).usedIndex.Keys
    decreases |ops|
  {
    hide Tracks, Recorded, Trimmed;
    if ops == [] {
      NothingTracked<K, V>();
    } else {
      var before, op := ops[..|ops| - 1], ops[|ops| - 1];
      var s, h := Run(before), Touches(before);
      RunTracks(before);
      var u := if op.Set? then s.(cache := s.cache[op.key := op.value]) else s;
      if op.Set? || op.key in s.cache {
        TracksIgnoresCache(s, u, h);
        HitTracks(u, h, op.key);
        RecordedKeys(u, op.key);
        TrimmedKeys(Recorded(u, op.key));
      } else {
        assert Touches(ops) == h + [] == h;
      }
    }
  }

  lemma NothingTracked<K, V>()
    ensures Tracks<K, V>(Empty(), [])
  {
  }

  lemma TracksIgnoresCache<K, V>(s: State<K, V>, u: State<K, V>, h: seq<K>)
    requires Tracks(s, h) && u == s.(cache := u.cache)
    ensures Tracks(u, h)
  {
    hide Regular;
  }

  lemma RecordedKeys<K, V>(s: State<K, V>, key: K)
    requires s.cache.Keys == s.usedIndex.Keys + {key}
    ensures Recorded(s, key).cache.Keys == Recorded(s, key).usedIndex.Keys && Recorded(s, key).cache == s.cache
  {
  }

  // The usage list maps each key's index back to it, inside the window of the last touches, and
  // there are never more than 5000 keys.
  lemma Structure<K, V>(ops: seq<Operation<K, V>>)
    ensures var s := Run(ops);
            && s.cache.Keys == s.usedIndex.Keys && |s.cache| <= 5000
            && s.eraseIndex == (if s.count <= 5000 then 0 else s.count - 5000)
            && (forall j :: j in s.usedList ==> s.eraseIndex <= j < s.count)
            && (forall key :: key in s.usedIndex ==>
                  s.usedIndex[key] in s.usedList && s.usedList[s.usedIndex[key]] == key)
  {
    hide NoStaleSlots, KeepsRecent, FirstKey;
    RunTracks(ops);
    var s, h := Run(ops), Touches(ops);
    FewKeys(s.usedIndex, s.usedIndex.Keys, s.eraseIndex, s.count);
    assert |s.cache| == |s.cache.Keys|;
  }

  lemma {:induction false} FewKeys<K>(index: map<K, nat>, keys: set<K>, low: nat, high: nat)
    requires low <= high && keys <= index.Keys
    requires forall k :: k in keys ==> low <= index[k] < high
    requires forall k, l :: k in keys && l in keys && index[k] == index[l] ==> k == l
    ensures |keys| <= high - low
    decreases high
  {
    if low == high {
      if k :| k in keys {
        assert false;
      }
    } else if k :| k in keys && index[k] == high - 1 {
      FewKeys(index, keys - {k}, low, high - 1);
    } else {
      FewKeys(index, keys, low, high - 1);
    }
  }

  // ---------------------------------------------------------------- least recently used

  // A regular key is cached if and only if one of the last CACHE_SIZE touches was of that key.
  lemma LeastRecentlyUsed<K, V>(ops: seq<Operation<K, V>>, key: K)
    requires Regular(Touches(ops), key)
    ensures key in Run(ops).cache <==> key in LastTouches(Touches(ops))
  {
    hide Regular, NoStaleSlots, FirstKey, Run, Touches, Slots;
    RunTracks(ops);
    var s, h := Run(ops), Touches(ops);
    if key in s.cache {
      var u := s.usedIndex[key];
      assert LastTouches(h)[u - s.eraseIndex] == key;
    }
    if key in LastTouches(h) {
      var i :| 0 <= i < |LastTouches(h)| && LastTouches(h)[i] == key;
      assert h[i + s.eraseIndex] == key;
    }
  }

  // In particular every key but the first one ever stored.
  lemma LeastRecentlyUsedExceptFirst<K, V>(ops: seq<Operation<K, V>>, key: K)
    requires Touches(ops) == [] || key != Touches(ops)[0]
    ensures key in Run(ops).cache <==> key in LastTouches(Touches(ops))
  {
    LeastRecentlyUsed(ops, key);
  }

  ghost predicate IsLru<K(!new), V>(ops: seq<Operation<K, V>>) {
    forall key :: key in Run(ops).cache <==> key in LastTouches(Touches(ops))
  }

  lemma {:induction false} TouchesPrefix<K, V>(ops: seq<Operation<K, V>>, n: nat)
    requires n <= |ops|
    ensures Touches(ops[..n]) <= Touches(ops)
    decreases |ops|
  {
    hide Run;
    if n == |ops| {
      assert ops[..n] == ops;
    } else {
      TouchesPrefix(ops[..|ops| - 1], n);
      assert ops[..|ops| - 1][..n] == ops[..n];
    }
  }

  // Touches come one at a time.
  lemma {:induction false} TouchesReach<K, V>(ops: seq<Operation<K, V>>, m: nat) returns (n: nat)
    requires m <= |Touches(ops)|
    ensures n <= |ops| && |Touches(ops[..n])| == m
    decreases |ops|
  {
    hide Run;
    if |Touches(ops)| == m {
      n := |ops|;
      assert ops[..n] == ops;
    } else {
      var before := ops[..|ops| - 1];
      n := TouchesReach(before, m);
      assert before[..n] == ops[..n];
    }
  }

  lemma StateIsLru<K(!new), V>(ops: seq<Operation<K, V>>)
    requires |Touches(ops)| <= CACHE_SIZE || !FirstAgain(Touches(ops))
    ensures IsLru(ops)
  {
    hide Run, Touches, Tracks, FirstAgain;
    var h := Touches(ops);
    forall key
      ensures key in Run(ops).cache <==> key in LastTouches(h)
    {
      if h == [] || key != h[0] || !FirstAgain(h) {
        LeastRecentlyUsed(ops, key);
      } else {
        FirstKeyCached(ops);
      }
    }
  }

  lemma FirstKeyCached<K, V>(ops: seq<Operation<K, V>>)
    ensures 0 < |Touches(ops)| <= CACHE_SIZE ==> Touches(ops)[0] in Run(ops).cache
    ensures |Touches(ops)| == CACHE_SIZE + 1 ==> Touches(ops)[0] !in Run(ops).cache
  {
    hide Run, Touches, Slots, Indexed, NoStaleSlots, KeepsRecent;
    RunTracks(ops);
  }

  // The cache is a least-recently-used one in every state of a run if and only if the first key is
  // not touched again before CACHE_SIZE other touches have pushed it out.
  lemma LruInEveryStateIff<K(!new), V>(ops: seq<Operation<K, V>>)
    ensures var h := Touches(ops);
            (forall n :: 0 <= n <= |ops| ==> IsLru(ops[..n])) <==>
            |h| <= 5000 || h[0] !in h[1..5001]
  {
    hide Run, Touches, IsLru;
    var h := Touches(ops);
    if |h| <= CACHE_SIZE || h[0] !in h[1..CACHE_SIZE + 1] {
      forall n | 0 <= n <= |ops|
        ensures IsLru(ops[..n])
      {
        TouchesPrefix(ops, n);
        NotAgain(Touches(ops[..n]), h);
        StateIsLru(ops[..n]);
      }
    } else {
      var n := TouchesReach(ops, CACHE_SIZE + 1);
      TouchesPrefix(ops, n);
      assert Touches(ops[..n]) == h[..CACHE_SIZE + 1];
      NotLru(ops[..n]);
    }
  }

  lemma AgainWithin<K>(h: seq<K>, t: seq<K>)
    requires h <= t && FirstAgain(h) && |t| > CACHE_SIZE
    ensures t[0] in t[1..CACHE_SIZE + 1]
  {
    var i :| 0 < i < |h| && i <= CACHE_SIZE && h[i] == h[0];
    assert t[1..CACHE_SIZE + 1][i - 1] == t[0];
  }

  lemma NotAgain<K>(h: seq<K>, t: seq<K>)
    requires h <= t && (|t| <= CACHE_SIZE || t[0] !in t[1..CACHE_SIZE + 1])
    ensures |h| <= CACHE_SIZE || !FirstAgain(h)
  {
    if |h| > CACHE_SIZE && FirstAgain(h) {
      AgainWithin(h, t);
    }
  }

  lemma NotLru<K(!new), V>(ops: seq<Operation<K, V>>)
    requires var h := Touches(ops); |h| == CACHE_SIZE + 1 && h[0] in h[1..]
    ensures !IsLru(ops)
  {
    hide Run, Touches;
    FirstKeyCached(ops);
    assert Touches(ops)[0] in LastTouches(Touches(ops));
  }

  // ---------------------------------------------------------------- values

  // The value a key was last set to.
  function LastValue<K(==), V>(ops: seq<Operation<K, V>>, key: K): Option<V> {
    if ops == [] then None
    else
      var op := ops[|ops| - 1];
      if op.Set? && op.key == key then Some(op.value) else LastValue(ops[..|ops| - 1], key)
  }

  lemma {:induction false} RunValues<K, V>(ops: seq<Operation<K, V>>, key: K)
    ensures key in Run(ops).cache ==> LastValue(ops, key) == Some(Run(ops).cache[key])
    decreases |ops|
  {
    hide Recorded, Trimmed;
    if ops != [] {
      var before, op := ops[..|ops| - 1], ops[|ops| - 1];
      var s := Run(before);
      RunTracks(before);
      RunValues(before, key);
      var u := if op.Set? then s.(cache := s.cache[op.key := op.value]) else s;
      if op.Set? || op.key in s.cache {
        TrimmedPart(Recorded(u, op.key));
        assert Recorded(u, op.key).cache == u.cache by {
          RecordedCache(u, op.key);
        }
      }
    }
  }

  lemma {:induction false} LastSet<K, V>(ops: seq<Operation<K, V>>, key: K)
    ensures LastValue(ops, key).Some? ==>
              exists i :: 0 <= i < |ops| && ops[i] == Operation.Set(key, LastValue(ops, key).value)
                          && forall j :: i < j < |ops| && ops[j].Set? ==> ops[j].key != key
    decreases |ops|
  {
    if ops != [] {
      var n := |ops| - 1;
      LastSet(ops[..n], key);
      if !(ops[n].Set? && ops[n].key == key) && LastValue(ops, key).Some? {
        var i :| 0 <= i < n && ops[..n][i] == Operation.Set(key, LastValue(ops, key).value)
                 && forall j :: i < j < n && ops[..n][j].Set? ==> ops[..n][j].key != key;
        assert ops[i] == ops[..n][i];
        forall j | i < j < |ops| && ops[j].Set?
          ensures ops[j].key != key
        {
          assert j < n ==> ops[j] == ops[..n][j];
        }
      }
    }
  }

  // A run in plain terms: a set and a get of a cached key touch the key; a key other than the first one touched is
  // cached exactly if it is among the last 5000 touches; what is cached is the value of the last set of the key.
  lemma RunWrittenOut<K, V>(ops: seq<Operation<K, V>>, op: Operation<K, V>, key: K)
    ensures Touches<K, V>([]) == []
    ensures Touches(ops + [op]) == Touches(ops) + if op.Set? || op.key in Run(ops).cache then [op.key] else []
    ensures var h := Touches(ops);
            h == [] || key != h[0] ==>
              (key in Run(ops).cache <==> exists i :: 0 <= i < |h| && i >= |h| - 5000 && h[i] == key)
    ensures key in Run(ops).cache ==>
              exists i :: 0 <= i < |ops| && ops[i] == Operation.Set(key, Run(ops).cache[key])
                          && forall j :: i < j < |ops| && ops[j].Set? ==> ops[j].key != key
  {
    hide Run, Touches, LastValue, LastTouches;
    TouchesNext(ops, op);
    RecentIff(Touches(ops), key);
    RunValues(ops, key);
    LastSet(ops, key);
    if Touches(ops) == [] || key != Touches(ops)[0] {
      LeastRecentlyUsedExceptFirst(ops, key);
    }
  }

  lemma TouchesNext<K, V>(ops: seq<Operation<K, V>>, op: Operation<K, V>)
    ensures Touches<K, V>([]) == []
    ensures Touches(ops + [op]) == Touches(ops) + if op.Set? || op.key in Run(ops).cache then [op.key] else []
  {
    hide Run;
    assert (ops + [op])[..|ops|] == ops;
  }

  lemma RecentIff<K>(h: seq<K>, key: K)
    ensures key in LastTouches(h) <==> exists i :: 0 <= i < |h| && i >= |h| - 5000 && h[i] == key
  {
    var from := if |h| <= 5000 then 0 else |h| - 5000;
    if key in LastTouches(h) {
      var i :| 0 <= i < |LastTouches(h)| && LastTouches(h)[i] == key;
      assert h[from + i] == key;
    }
    if i :| 0 <= i < |h| && i >= |h| - 5000 && h[i] == key {
      assert LastTouches(h)[i - from] == key;
    }
  }

  lemma RecordedCache<K, V>(s: State<K, V>, key: K)
    ensures Recorded(s, key).cache == s.cache
  {
  }

  // The hit of a get evicts the very key that was found if and only if that key has a stale slot
  // which is the next one to be erased: then nothing is returned.
  lemma OwnHitEvictsIff<K, V>(ops: seq<Operation<K, V>>, key: K)
    requires key in Run(ops).cache
    ensures var s := Run(ops);
            && key in s.usedIndex
            && (Found(s, key).None? <==>
                && s.count >= CACHE_SIZE && s.eraseIndex in s.usedList && s.usedList[s.eraseIndex] == key
                && (s.usedIndex[key] != s.eraseIndex || s.eraseIndex == 0))
  {
    hide Run, Touches, NoStaleSlots, KeepsRecent, FirstKey;
    RunTracks(ops);
    var s := Run(ops);
    TrimmedOnce(Recorded(s, key));
  }
}
