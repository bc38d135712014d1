/**
 When the key that was stored first is cached.

 Its slot 0 stays in the usage list when it is touched again, and evicts it CACHE_SIZE touches later.
 The slot it had then stays in its turn, so that there is a chain of stale slots until the key is not
 touched between one eviction and the next.
 */
module FirstCachedKey {
  import opened Wrappers
  import opened HdKeyCache

  // Between two evictions the key is cached if it was touched since the first of them; the next one
  // comes CACHE_SIZE touches after its stale slot.  Once it was not touched, the key is like all others.
  datatype Phase = Stale(since: nat, slot: nat) | Clean

  // The last touch of a key, from a position on.
  function LastAt<K(==)>(h: seq<K>, key: K, from: nat): (p: Option<nat>)
    requires from <= |h|
    ensures p.None? ==> forall i :: from <= i < |h| ==> h[i] != key
    ensures p.Some? ==>
              from <= p.value < |h| && h[p.value] == key && forall i :: p.value < i < |h| ==> h[i] != key
    decreases |h| - from
  {
    if from == |h| then None
    else
      var later := LastAt(h, key, from + 1);
      if later.None? && h[from] == key then Some(from) else later
  }

  // What the touches say about the phase of the first key.
  function FirstPhase<K(==)>(h: seq<K>): (phase: Phase)
    ensures match phase
            case Clean => |h| > CACHE_SIZE
            case Stale(since, slot) =>
              && since <= |h| <= slot + CACHE_SIZE && (slot < since || slot == since == 0)
              && (h != [] ==> slot < |h| && h[slot] == h[0])
              && (forall i :: slot < i < since ==> h[i] != h[0])
  {
    if h == [] then Stale(0, 0)
    else
      match FirstPhase(h[..|h| - 1])
      case Clean => Clean
      case Stale(since, slot) =>
        if |h| <= slot + CACHE_SIZE then Stale(since, slot)
        else
          match LastAt(h, h[0], slot + 1)
          case None => Clean
          case Some(next) => Stale(|h|, next)
  }

  predicate TouchedSince<K(==)>(h: seq<K>, key: K, since: nat) {
    exists i :: since <= i < |h| && h[i] == key
  }

  predicate FirstIsCached<K(==)>(h: seq<K>)
    requires h != []
  {
    match FirstPhase(h)
    case Clean => h[0] in LastTouches(h)
    case Stale(since, slot) => TouchedSince(h, h[0], since)
  }

  // Whether a key is cached after a history of touches.
  predicate IsCached<K(==)>(h: seq<K>, key: K) {
    if h != [] && key == h[0] then FirstIsCached(h) else key in LastTouches(h)
  }

  // ---------------------------------------------------------------- the invariant

  predicate HasStaleSlot<K(==), V>(s: State<K, V>, h: seq<K>, since: nat, slot: nat)
    requires h != []
  {
    && slot in s.usedList && slot < |h| && h[slot] == h[0]
    && (h[0] in s.usedIndex <==> TouchedSince(h, h[0], since))
    && (h[0] in s.usedIndex ==> s.usedIndex[h[0]] > slot || slot == 0)
    && (forall j :: j in s.usedList && j < |h| && h[j] == h[0] ==>
          j == slot || (h[0] in s.usedIndex && j == s.usedIndex[h[0]]))
  }

  predicate HasNoStaleSlot<K(==), V>(s: State<K, V>, h: seq<K>)
    requires h != []
  {
    && (forall j :: j in s.usedList && j < |h| && h[j] == h[0] ==> h[0] in s.usedIndex && j == s.usedIndex[h[0]])
    && (h[0] in s.usedIndex <==> TouchedSince(h, h[0], s.eraseIndex))
  }

  predicate InPhase<K(==), V>(s: State<K, V>, h: seq<K>, phase: Phase)
    requires h != []
  {
    match phase
    case Clean => HasNoStaleSlot(s, h)
    case Stale(since, slot) => HasStaleSlot(s, h, since, slot)
  }

  lemma TouchedMore<K>(h: seq<K>, touched: K, key: K, since: nat)
    requires since <= |h|
    ensures TouchedSince(h + [touched], key, since) <==> TouchedSince(h, key, since) || touched == key
  {
    var t := h + [touched];
    if TouchedSince(h, key, since) {
      var i :| since <= i < |h| && h[i] == key;
      assert t[i] == key;
    }
    assert t[|h|] == touched;
  }

  lemma RecordedStale<K, V>(s: State<K, V>, h: seq<K>, key: K, since: nat, slot: nat)
    requires Cursors(s, h) && Slots(s, h) && Indexed(s, h) && h != []
    requires HasStaleSlot(s, h, since, slot) && since <= |h|
    ensures HasStaleSlot(Recorded(s, key), h + [key], since, slot)
  {
    hide TouchedSince;
    TouchedMore(h, key, h[0], since);
  }

  lemma RecordedClean<K, V>(s: State<K, V>, h: seq<K>, key: K)
    requires Cursors(s, h) && Slots(s, h) && Indexed(s, h) && |h| > CACHE_SIZE
    requires HasNoStaleSlot(s, h)
    ensures HasNoStaleSlot(Recorded(s, key), h + [key])
  {
    hide TouchedSince;
    TouchedMore(h, key, h[0], s.eraseIndex);
  }

  // Erasing a slot before the stale one.
  lemma ErasedBefore<K, V>(s: State<K, V>, h: seq<K>, since: nat, slot: nat)
    requires Slots(s, h) && Indexed(s, h) && h != [] && HasStaleSlot(s, h, since, slot)
    requires s.eraseIndex < slot
    ensures HasStaleSlot(EraseSlot(s), h, since, slot)
  {
    hide TouchedSince;
  }

  lemma ErasedClean<K, V>(s: State<K, V>, h: seq<K>)
    requires Slots(s, h) && Indexed(s, h) && h != [] && HasNoStaleSlot(s, h) && s.eraseIndex < |h|
    ensures HasNoStaleSlot(EraseSlot(s), h)
  {
    var e := s.eraseIndex;
    if h[0] in s.usedIndex && s.usedIndex[h[0]] == e {
      assert !TouchedSince(h, h[0], e + 1);
    } else if h[0] in s.usedIndex {
      assert TouchedSince(h, h[0], e + 1);
    }
  }

  // Erasing the stale slot evicts the key; its last slot, if any, is the next stale one.
  lemma ErasedStale<K, V>(s: State<K, V>, h: seq<K>, since: nat, slot: nat)
    requires Slots(s, h) && Indexed(s, h) && h != [] && HasStaleSlot(s, h, since, slot)
    requires s.eraseIndex == slot && (slot < since || since == 0)
    requires forall i :: slot < i < since && i < |h| ==> h[i] != h[0]
    ensures match LastAt(h, h[0], slot + 1)
            case None => HasNoStaleSlot(EraseSlot(s), h)
            case Some(next) => HasStaleSlot(EraseSlot(s), h, |h|, next)
  {
    var t := EraseSlot(s);
    assert h[0] !in t.usedIndex;
    if h[0] in s.usedIndex && s.usedIndex[h[0]] > slot {
      assert LastAt(h, h[0], slot + 1) == Some(s.usedIndex[h[0]]);
    }
  }

  lemma NextPhase<K>(h: seq<K>, key: K)
    requires h != []
    ensures var t := h + [key];
            FirstPhase(t) ==
            match FirstPhase(h)
            case Clean => Clean
            case Stale(since, slot) =>
              if |t| <= slot + CACHE_SIZE then Stale(since, slot)
              else if LastAt(t, t[0], slot + 1).None? then Clean
              else Stale(|t|, LastAt(t, t[0], slot + 1).value)
  {
    hide LastAt;
    var t := h + [key];
    assert t[..|t| - 1] == h;
  }

  lemma HitPhase<K, V>(s: State<K, V>, h: seq<K>, key: K)
    requires Tracks(s, h) && h != [] && InPhase(s, h, FirstPhase(h))
    ensures InPhase(Hit(s, key), h + [key], FirstPhase(h + [key]))
  {
    hide NoStaleSlots, KeepsRecent, FirstKey, Slots, Indexed, HasStaleSlot, HasNoStaleSlot, LastAt, FirstPhase;
    var r, t := Recorded(s, key), h + [key];
    NextPhase(h, key);
    RecordedSlots(s, h, key);
    TrimmedOnce(r);
    match FirstPhase(h)
    case Clean =>
      RecordedClean(s, h, key);
      ErasedClean(r, t);
    case Stale(since, slot) =>
      RecordedStale(s, h, key, since, slot);
      if |t| <= CACHE_SIZE {
      } else if |t| <= slot + CACHE_SIZE {
        ErasedBefore(r, t, since, slot);
      } else {
        ErasedStale(r, t, since, slot);
      }
  }

  // ---------------------------------------------------------------- every reachable state

  lemma FirstTouch<K, V>(s: State<K, V>, key: K)
    requires Tracks(s, [])
    ensures InPhase(Hit(s, key), [key], FirstPhase([key]))
  {
    TrimmedOnce(Recorded(s, key));
    assert [key][..0] == [];
    assert [key][0] == key && TouchedSince([key], key, 0);
  }

  lemma {:induction false} RunPhase<K, V>(ops: seq<Operation<K, V>>)
    ensures Touches(ops) != [] ==> InPhase(Run(ops), Touches(ops), FirstPhase(Touches(ops)))
    decreases |ops|
  {
    hide Tracks, Hit, FirstPhase, InPhase;
    if ops != [] {
      var before, op := ops[..|ops| - 1], ops[|ops| - 1];
      var s, h := Run(before), Touches(before);
      RunTracks(before);
      RunPhase(before);
      var u := if op.Set? then s.(cache := s.cache[op.key := op.value]) else s;
      if op.Set? || op.key in s.cache {
        TracksIgnoresCache(s, u, h);
        if h == [] {
          FirstTouch(u, op.key);
          assert [] + [op.key] == [op.key];
        } else {
          PhaseIgnoresCache(s, u, h);
          HitPhase(u, h, op.key);
        }
      } else {
        assert h + [] == h;
      }
    }
  }

  lemma PhaseIgnoresCache<K, V>(s: State<K, V>, u: State<K, V>, h: seq<K>)
    requires h != [] && InPhase(s, h, FirstPhase(h)) && u == s.(cache := u.cache)
    ensures InPhase(u, h, FirstPhase(h))
  {
    hide TouchedSince, FirstPhase;
  }

  // In every state exactly the keys that the touches tell are cached, the first key included.
  lemma CachedIff<K, V>(ops: seq<Operation<K, V>>, key: K)
    ensures key in Run(ops).cache <==> IsCached(Touches(ops), key)
  {
    hide Run, Touches, FirstPhase, LastTouches;
    var s, h := Run(ops), Touches(ops);
    if h == [] || key != h[0] {
      LeastRecentlyUsedExceptFirst(ops, key);
    } else {
      RunTracks(ops);
      RunPhase(ops);
      TouchedLast(h, key);
    }
  }

  lemma TouchedLast<K>(h: seq<K>, key: K)
    ensures key in LastTouches(h) <==> TouchedSince(h, key, if |h| <= CACHE_SIZE then 0 else |h| - CACHE_SIZE)
  {
    var from := if |h| <= CACHE_SIZE then 0 else |h| - CACHE_SIZE;
    if key in LastTouches(h) {
      var i :| 0 <= i < |LastTouches(h)| && LastTouches(h)[i] == key;
      assert h[from + i] == key;
    }
    if i :| from <= i < |h| && h[i] == key {
      assert LastTouches(h)[i - from] == key;
    }
  }

  // A get returns the value last set if and only if the key is cached and its own hit leaves it there.
  lemma GetFinds<K, V>(ops: seq<Operation<K, V>>, key: K)
    ensures var h := Touches(ops);
            Found(Run(ops), key) ==
            if IsCached(h, key) && IsCached(h + [key], key) then LastValue(ops, key) else None
  {
    hide IsCached;
    var more := ops + [Operation.Get(key)];
    assert more[..|more| - 1] == ops;
    CachedIff(ops, key);
    if key in Run(ops).cache {
      RunValues(more, key);
      CachedIff(more, key);
      assert Touches(more) == Touches(ops) + [key];
    }
  }

  // The hit of a get evicts the very key that was found if and only if it is the first key and its stale
  // slot is CACHE_SIZE touches old.
  lemma EmptyAnswerIff<K, V>(ops: seq<Operation<K, V>>, key: K)
    requires IsCached(Touches(ops), key)
    ensures var h := Touches(ops);
            Found(Run(ops), key).None? <==>
            h != [] && key == h[0] && FirstPhase(h).Stale? && |h| == FirstPhase(h).slot + 5000
  {
    hide Run, Touches, FirstPhase, LastTouches;
    GetFinds(ops, key);
    CachedIff(ops, key);
    RunValues(ops, key);
    HitLeaves(Touches(ops), key);
  }

  lemma HitLeaves<K>(h: seq<K>, key: K)
    ensures IsCached(h + [key], key) <==>
            !(h != [] && key == h[0] && FirstPhase(h).Stale? && |h| == FirstPhase(h).slot + CACHE_SIZE)
  {
    hide LastAt, LastTouches;
    var t := h + [key];
    assert t[..|t| - 1] == h && t[|h|] == key;
    LastTouch(h, key);
  }

  lemma LastTouch<K>(h: seq<K>, key: K)
    ensures key in LastTouches(h + [key])
  {
    var t := LastTouches(h + [key]);
    assert t[|t| - 1] == key;
  }

  // ---------------------------------------------------------------- where eviction is not least recently used

  // One key, stored n times.
  function Sets<K, V>(key: K, value: V, n: nat): (ops: seq<Operation<K, V>>)
    ensures |ops| == n
  {
    seq(n, _ => Operation.Set(key, value))
  }

  lemma {:induction false} SetsTouch<K, V>(key: K, value: V, n: nat)
    ensures |Touches(Sets(key, value, n))| == n
    ensures forall i :: 0 <= i < n ==> Touches(Sets(key, value, n))[i] == key
  {
    hide Run;
    if n > 0 {
      SetsTouch(key, value, n - 1);
      assert Sets(key, value, n)[..n - 1] == Sets(key, value, n - 1);
    }
  }

  // A key stored over and over is gone after 5001 times, although it is the last touched.
  lemma StoredAndGone<K(!new), V>(key: K, value: V)
    ensures var ops := Sets(key, value, 5001);
            && key !in Run(ops).cache && key in LastTouches(Touches(ops))
            && !(forall n :: 0 <= n <= 5001 ==> IsLru(ops[..n]))
  {
    hide Run, Touches, IsLru, Sets;
    var ops := Sets(key, value, CACHE_SIZE + 1);
    SetsTouch(key, value, CACHE_SIZE + 1);
    FirstKeyCached(ops);
    assert LastTouches(Touches(ops))[0] == key;
    NotLru(ops);
    assert ops[..CACHE_SIZE + 1] == ops;
  }

  // After 5000 touches the first key is cached, and a get of it returns nothing.
  lemma CachedButNotFound<K, V>(ops: seq<Operation<K, V>>)
    requires |Touches(ops)| == 5000
    ensures Touches(ops)[0] in Run(ops).cache && Found(Run(ops), Touches(ops)[0]).None?
  {
    hide Run, Touches, FirstPhase;
    FirstKeyCached(ops);
    CachedIff(ops, Touches(ops)[0]);
    EmptyAnswerIff(ops, Touches(ops)[0]);
    StartPhase(Touches(ops));
  }

  lemma {:induction false} StartPhase<K>(h: seq<K>)
    requires |h| <= CACHE_SIZE
    ensures FirstPhase(h) == Stale(0, 0)
    decreases |h|
  {
    if h != [] {
      StartPhase(h[..|h| - 1]);
    }
  }
}
