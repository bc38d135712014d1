/** When the dictionary of networks agrees with the list of networks. */
module NetworksAgree {
  import opened Wrappers
  import opened Networks
  import Text

  // ---------------------------------------------------------------- holders of a value

  function Times(keys: seq<string>, key: string): nat {
    if keys == [] then 0
    else Times(keys[..|keys| - 1], key) + if keys[|keys| - 1] == key then 1 else 0
  }

  function Copies(n: Network, count: nat): (ns: seq<Network>)
    ensures |ns| == count && forall i :: 0 <= i < count ==> ns[i] == n
  {
    seq(count, _ => n)
  }

  // The networks that hold a value, in the order of the list, once for each time they hold it.
  function Holders(ns: seq<Network>, key: string): seq<Network> {
    if ns == [] then [] else Copies(ns[0], Times(ns[0].Keys(), key)) + Holders(ns[1..], key)
  }

  predicate AgreesAt(r: Registry, key: string) {
    Entry(r.maps, key) == Holders(r.networks, key)
  }

  ghost predicate Agrees(r: Registry) {
    NoEmptyEntry(r.maps) && forall key :: AgreesAt(r, key)
  }

  lemma {:induction false} HoldersConcat(a: seq<Network>, b: seq<Network>, key: string)
    ensures Holders(a + b, key) == Holders(a, key) + Holders(b, key)
    decreases |a|
  {
    hide Times, Network.Keys;
    if a == [] {
      assert a + b == b;
    } else {
      assert (a + b)[1..] == a[1..] + b;
      HoldersConcat(a[1..], b, key);
    }
  }

  lemma HoldersOne(n: Network, key: string)
    ensures Holders([n], key) == Copies(n, Times(n.Keys(), key))
  {
    hide Times, Network.Keys;
    assert Holders([], key) == [];
  }

  lemma {:induction false} HoldersListed(ns: seq<Network>, key: string)
    ensures forall n :: n in Holders(ns, key) ==> n in ns
    decreases |ns|
  {
    hide Times, Network.Keys;
    if ns != [] {
      HoldersListed(ns[1..], key);
      assert forall n :: n in Copies(ns[0], Times(ns[0].Keys(), key)) ==> n == ns[0];
    }
  }

  // ---------------------------------------------------------------- properties written out

  // A network has a property if it was given one, but for a port of zero or an empty text; this is the text it is
  // indexed under.
  predicate HasText(n: Network, f: Field, key: string) {
    f in n.fields && !(f == Port && n.fields[f] in {Number(0), String("")}) &&
    match n.fields[f]
    case Undefined => false
    case String(text) => key == text
    case Number(m) => key == Text.Decimal(m)
    case Function(source) => key == source
  }

  function Occurs(n: Network, f: Field, key: string): (b: bool)
    ensures b <==> HasText(n, f, key)
  {
    n.Get(f) != Undefined && KeyOf(n.Get(f)) == key
  }

  lemma {:induction false} TimesPush(key: string, x: string, keys: seq<string>)
    ensures Times([x] + keys, key) == (if x == key then 1 else 0) + Times(keys, key)
    decreases |keys|
  {
    if keys == [] {
      assert [x][..0] == [];
      assert [x] + keys == [x];
    } else {
      var all := [x] + keys;
      assert all[..|all| - 1] == [x] + keys[..|keys| - 1];
      TimesPush(key, x, keys[..|keys| - 1]);
    }
  }

  // The properties among some that have a text.
  function Having(n: Network, among: seq<Field>, key: string): set<Field> {
    set f | f in among && HasText(n, f, key)
  }

  lemma HavingFirst(n: Network, f: Field, rest: seq<Field>, key: string)
    requires f !in rest
    ensures |Having(n, [f] + rest, key)| == (if HasText(n, f, key) then 1 else 0) + |Having(n, rest, key)|
    ensures Having(n, [], key) == {}
  {
    hide HasText;
    assert Having(n, [f] + rest, key) == Having(n, rest, key) + if HasText(n, f, key) then {f} else {};
  }

  lemma KeysFirst(n: Network, f: Field, rest: seq<Field>, key: string)
    ensures Times(n.KeysAmong([f] + rest), key) ==
            (if HasText(n, f, key) then 1 else 0) + Times(n.KeysAmong(rest), key)
  {
    hide Times, KeyOf, Property, HasText;
    assert Occurs(n, f, key) <==> HasText(n, f, key);
    assert ([f] + rest)[1..] == rest;
    if n.Get(f) == Undefined {
      assert [] + n.KeysAmong(rest) == n.KeysAmong(rest);
    } else {
      TimesPush(key, KeyOf(n.Get(f)), n.KeysAmong(rest));
    }
  }

  lemma {:induction false} TimesAmong(n: Network, among: seq<Field>, key: string)
    requires forall i, j :: 0 <= i < j < |among| ==> among[i] != among[j]
    ensures Times(n.KeysAmong(among), key) == |Having(n, among, key)|
    decreases |among|
  {
    hide HasText, Times, Having;
    if among == [] {
      NoTimes(n, key);
    } else {
      var f, rest := among[0], among[1..];
      assert among == [f] + rest;
      TimesAmong(n, rest, key);
      KeysFirst(n, f, rest, key);
      HavingFirst(n, f, rest, key);
    }
  }

  lemma NoTimes(n: Network, key: string)
    ensures Times(n.KeysAmong([]), key) == 0 == |Having(n, [], key)|
  {
  }

  // A network is indexed under a key once for each property with that text.
  lemma TimesIsCount(n: Network, key: string)
    ensures Times(n.Keys(), key) == |set f: Field | HasText(n, f, key)|
  {
    hide HasText, Times, Network.KeysAmong;
    TimesAmong(n, FIELDS, key);
    forall f: Field
      ensures f in FIELDS
    {
      FieldListed(f);
    }
    assert (set f: Field | HasText(n, f, key)) == Having(n, FIELDS, key);
  }

  // Of data with variants, each variant makes networks of its own, with what it overrides, in its place.
  lemma {:induction false} VariantExpanded(fields: map<Field, Value>, a: seq<Data>, v: Data, b: seq<Data>,
                                           merged: map<Field, Value>)
    requires forall f: Field :: f in merged <==> f in fields || f in v.fields
    requires forall f: Field :: f in merged ==> merged[f] == if f in v.fields then v.fields[f] else fields[f]
    ensures Expanded(fields, []) == [fields]
    ensures Expanded(fields, a + [v] + b) ==
            Expanded(fields, a) + Expanded(merged, v.variants) + Expanded(fields, b)[1..]
    decreases |a|
  {
    hide Expanded;
    assert merged == fields + v.fields;
    VariantsSplit(fields, a, [v] + b);
    VariantsSplit(fields, [v], b);
    assert a + ([v] + b) == a + [v] + b;
    OneVariant(fields, v);
    ExpandedIs(fields, a + [v] + b);
    ExpandedIs(fields, a);
    ExpandedIs(fields, b);
    ExpandedIs(fields, []);
  }

  lemma ExpandedIs(fields: map<Field, Value>, variants: seq<Data>)
    ensures Expanded(fields, variants) == [fields] + ExpandedVariants(fields, variants)
    ensures ExpandedVariants(fields, []) == []
  {
  }

  lemma OneVariant(fields: map<Field, Value>, v: Data)
    ensures ExpandedVariants(fields, [v]) == Expanded(fields + v.fields, v.variants)
  {
    hide Expanded;
    assert [v][1..] == [];
  }

  lemma {:induction false} VariantsSplit(fields: map<Field, Value>, a: seq<Data>, b: seq<Data>)
    ensures ExpandedVariants(fields, a + b) == ExpandedVariants(fields, a) + ExpandedVariants(fields, b)
    decreases |a|
  {
    hide Expanded;
    if a == [] {
      assert a + b == b;
    } else {
      VariantsSplit(fields, a[1..], b);
      assert (a + b)[1..] == a[1..] + b && (a + b)[0] == a[0];
    }
  }

  // Removal takes out the first occurrence, from the list and from every entry; entries left empty go.
  lemma RemovedWritten(r: Registry, n: Network)
    requires NoEmptyEntry(r.maps)
    ensures TakenOut(r.networks, n, Removed(r, n).networks)
    ensures forall key :: key in Removed(r, n).maps <==> key in r.maps && r.maps[key] != [n]
    ensures forall key :: key in Removed(r, n).maps ==> TakenOut(r.maps[key], n, Removed(r, n).maps[key])
  {
    hide Without;
    WithoutTakesOut(r.networks, n);
    forall key | key in r.maps
      ensures TakenOut(r.maps[key], n, Without(r.maps[key], n))
      ensures Without(r.maps[key], n) == [] <==> r.maps[key] == [n]
    {
      WithoutTakesOut(r.maps[key], n);
    }
  }

  // after is before without the first occurrence of n.
  predicate TakenOut(before: seq<Network>, n: Network, after: seq<Network>) {
    if n !in before then after == before
    else exists i :: 0 <= i < |before| && before[i] == n && n !in before[..i] && after == before[..i] + before[i + 1..]
  }

  lemma WithoutTakesOut(ns: seq<Network>, n: Network)
    ensures TakenOut(ns, n, Without(ns, n))
    ensures ns != [] ==> (Without(ns, n) == [] <==> ns == [n])
  {
    var i := IndexOf(ns, n);
    if i >= 0 {
      WithoutAt(ns, n, i);
      assert |Without(ns, n)| == |ns| - 1;
      assert |ns| == 1 ==> ns == [ns[0]];
    } else {
      WithoutNone(ns, n);
    }
  }

  // ---------------------------------------------------------------- adding

  lemma {:induction false} PushedEntry(maps: map<string, seq<Network>>, n: Network, keys: seq<string>, key: string)
    ensures Entry(Pushed(maps, n, keys), key) == Entry(maps, key) + Copies(n, Times(keys, key))
    ensures NoEmptyEntry(maps) ==> NoEmptyEntry(Pushed(maps, n, keys))
    decreases |keys|
  {
    hide Network.Keys;
    if keys != [] {
      PushedEntry(maps, n, keys[..|keys| - 1], key);
    }
  }

  lemma AddedAgrees(r: Registry, n: Network)
    requires Agrees(r)
    ensures Agrees(Added(r, n))
  {
    hide Times, Network.Keys, Pushed, Holders, Entry, NoEmptyEntry;
    var s := Added(r, n);
    PushedEntry(r.maps, n, n.Keys(), "");
    forall key
      ensures AgreesAt(s, key)
    {
      assert AgreesAt(r, key);
      PushedEntry(r.maps, n, n.Keys(), key);
      HoldersConcat(r.networks, [n], key);
      HoldersOne(n, key);
    }
  }

  // Whatever is added, also with variants and with repeated values, keeps the agreement.
  lemma {:induction false} AddedAllAgrees(r: Registry, ns: seq<Network>)
    requires Agrees(r)
    ensures Agrees(AddedAll(r, ns)) && AddedAll(r, ns).networks == r.networks + ns
    decreases |ns|
  {
    hide Agrees, Pushed, Network.Keys;
    if ns == [] {
      assert r.networks + ns == r.networks;
    } else {
      var front := ns[..|ns| - 1];
      AddedAllAgrees(r, front);
      AddedAgrees(AddedAll(r, front), ns[|ns| - 1]);
      assert front + [ns[|ns| - 1]] == ns;
    }
  }

  // ---------------------------------------------------------------- removing

  predicate Distinct(keys: seq<string>) {
    forall i, j :: 0 <= i < j < |keys| ==> keys[i] != keys[j]
  }

  lemma {:induction false} TimesZero(keys: seq<string>, key: string)
    ensures Times(keys, key) == 0 <==> key !in keys
    decreases |keys|
  {
    if keys != [] {
      TimesZero(keys[..|keys| - 1], key);
      assert keys == keys[..|keys| - 1] + [keys[|keys| - 1]];
    }
  }

  lemma {:induction false} DistinctOnce(keys: seq<string>, key: string)
    requires Distinct(keys)
    ensures Times(keys, key) <= 1
    decreases |keys|
  {
    if keys != [] {
      DistinctOnce(keys[..|keys| - 1], key);
      TimesZero(keys[..|keys| - 1], key);
    }
  }

  lemma {:induction false} RepeatedTwice(keys: seq<string>) returns (key: string)
    requires !Distinct(keys)
    ensures Times(keys, key) >= 2
    decreases |keys|
  {
    var front, last := keys[..|keys| - 1], keys[|keys| - 1];
    if last in front {
      key := last;
      TimesZero(front, key);
    } else {
      key := RepeatedTwice(front);
    }
  }

  lemma {:induction false} WithoutConcat(a: seq<Network>, b: seq<Network>, n: Network)
    requires n !in a
    ensures Without(a + b, n) == a + Without(b, n)
    decreases |a|
  {
    if a == [] {
      assert a + b == b;
    } else {
      assert (a + b)[1..] == a[1..] + b;
      WithoutConcat(a[1..], b, n);
    }
  }

  lemma RemovedEntry(r: Registry, n: Network, key: string)
    requires NoEmptyEntry(r.maps)
    ensures Entry(Removed(r, n).maps, key) == Without(Entry(r.maps, key), n)
  {
    assert Without([], n) == [];
  }

  // Where a network stands in the list and in the entry of a key.
  lemma HoldersAround(ns: seq<Network>, n: Network, key: string) returns (a: seq<Network>, b: seq<Network>)
    requires NoDuplicates(ns) && n in ns
    ensures n !in a && n !in b && ns == a + [n] + b && Without(ns, n) == a + b
    ensures n !in Holders(a, key) && n !in Holders(b, key)
    ensures Holders(ns, key) == Holders(a, key) + (Copies(n, Times(n.Keys(), key)) + Holders(b, key))
    ensures Holders(Without(ns, n), key) == Holders(a, key) + Holders(b, key)
    ensures ns[0] == n ==> Holders(a, key) == []
  {
    hide Times, Network.Keys, Holders;
    var i := IndexOf(ns, n);
    a, b := ns[..i], ns[i + 1..];
    WithoutAt(ns, n, i);
    HoldersListed(a, key);
    HoldersListed(b, key);
    assert ns == a + ([n] + b);
    HoldersConcat(a, [n] + b, key);
    HoldersConcat([n], b, key);
    HoldersOne(n, key);
    HoldersConcat(a, b, key);
    assert Holders([], key) == [] by {
      HoldersNone(key);
    }
  }

  lemma HoldersNone(key: string)
    ensures Holders([], key) == []
  {
  }

  lemma WithoutCopies(a: seq<Network>, n: Network, count: nat, b: seq<Network>)
    requires n !in a && n !in b
    ensures Without(a + (Copies(n, count) + b), n) == a + b <==> count <= 1
    ensures var left := Without(a + (Copies(n, count) + b), n);
            count > 1 ==> |a| < |left| && left[|a|] == n
  {
    var middle := Copies(n, count) + b;
    WithoutConcat(a, middle, n);
    if count == 0 {
      assert middle == b;
      WithoutNone(b, n);
    } else {
      assert middle[0] == n && Without(middle, n) == middle[1..];
      if count == 1 {
        assert middle[1..] == b;
      } else {
        assert middle[1..][0] == n;
        assert |a + middle[1..]| != |a + b|;
        assert (a + middle[1..])[|a|] == n;
      }
    }
  }

  // Removal restores the agreement at a key exactly when the network holds the key's value once at most.
  lemma RemovedAgreesAt(r: Registry, n: Network, key: string)
    requires Agrees(r) && NoDuplicates(r.networks) && n in r.networks
    ensures AgreesAt(Removed(r, n), key) <==> Times(n.Keys(), key) <= 1
    ensures var entry := Entry(Removed(r, n).maps, key);
            Times(n.Keys(), key) > 1 ==> n in entry && (r.networks[0] == n ==> entry[0] == n)
  {
    hide Times, Network.Keys, Holders, Without, Entry, NoDuplicates, NoEmptyEntry;
    assert AgreesAt(r, key);
    var a, b := HoldersAround(r.networks, n, key);
    RemovedEntry(r, n, key);
    WithoutCopies(Holders(a, key), n, Times(n.Keys(), key), Holders(b, key));
  }

  // Removing a registered network keeps the dictionary and the list in agreement if and only if its
  // values are pairwise distinct.
  lemma RemovedAgreesIff(r: Registry, n: Network)
    requires Agrees(r) && NoDuplicates(r.networks) && n in r.networks
    ensures Agrees(Removed(r, n)) <==> Distinct(n.Keys())
  {
    hide AgreesAt, Times, Network.Keys, NoDuplicates, Distinct;
    if Distinct(n.Keys()) {
      forall key
        ensures AgreesAt(Removed(r, n), key)
      {
        DistinctOnce(n.Keys(), key);
        RemovedAgreesAt(r, n, key);
      }
    } else {
      var key := RepeatedTwice(n.Keys());
      RemovedAgreesAt(r, n, key);
      assert !AgreesAt(Removed(r, n), key);
    }
  }

  // A network that is not registered is not in the dictionary either, and removing it does nothing.
  lemma RemovedUnregistered(r: Registry, n: Network)
    requires Agrees(r) && n !in r.networks
    ensures Removed(r, n) == r
  {
    hide Holders, Without;
    WithoutNone(r.networks, n);
    forall key | key in r.maps
      ensures Without(r.maps[key], n) == r.maps[key]
    {
      assert AgreesAt(r, key);
      HoldersListed(r.networks, key);
      WithoutNone(r.maps[key], n);
    }
    assert Removed(r, n).maps == r.maps;
  }

  lemma WithoutIsGone(ns: seq<Network>, n: Network)
    requires NoDuplicates(ns)
    ensures NoDuplicates(Without(ns, n)) && n !in Without(ns, n)
  {
    var i := IndexOf(ns, n);
    if i >= 0 {
      WithoutAt(ns, n, i);
    } else {
      WithoutNone(ns, n);
    }
  }

  lemma TwoKeys(n: Network)
    requires n.Get(Name) == n.Get(Alias) != Undefined
    ensures |n.Keys()| >= 2 && n.Keys()[0] == n.Keys()[1] == KeyOf(n.Get(Name))
  {
    hide Property, KeyOf, Network.KeysAmong;
    assert FIELDS[0] == Name && FIELDS[1..][0] == Alias;
    KeysAmongFirst(n, FIELDS);
    KeysAmongFirst(n, FIELDS[1..]);
  }

  lemma KeysAmongFirst(n: Network, among: seq<Field>)
    requires among != [] && n.Get(among[0]) != Undefined
    ensures n.KeysAmong(among) == [KeyOf(n.Get(among[0]))] + n.KeysAmong(among[1..])
  {
  }

  lemma {:induction false} TwiceAtLeast(keys: seq<string>, key: string)
    requires |keys| >= 2 && keys[0] == keys[1] == key
    ensures Times(keys, key) >= 2
    decreases |keys|
  {
    if |keys| == 2 {
      assert keys[..1][..0] == [];
      assert Times(keys[..1], key) == 1;
    } else {
      TwiceAtLeast(keys[..|keys| - 1], key);
    }
  }

  // A network with the same name and alias, such as testnet, stays in the dictionary under that name
  // when it is removed; the first one of the list is even still found by it.
  lemma NameIsAliasStays(r: Registry, n: Network)
    requires Agrees(r) && NoDuplicates(r.networks) && n in r.networks
    requires n.Get(Name) == n.Get(Alias) != Undefined
    ensures n !in Removed(r, n).networks && n in Entry(Removed(r, n).maps, KeyOf(n.Get(Name)))
    ensures r.networks[0] == n ==> Found(Removed(r, n), Plain(n.Get(Name)), None) == Some(n)
  {
    hide Holders, Without, Entry, AgreesAt, Agrees, KeyOf, Times, Network.Keys, Network.Get;
    var key := KeyOf(n.Get(Name));
    TwoKeys(n);
    TwiceAtLeast(n.Keys(), key);
    RemovedAgreesAt(r, n, key);
    WithoutIsGone(r.networks, n);
  }

  // ---------------------------------------------------------------- lookup

  predicate Holds(n: Network, key: string) {
    exists f: Field :: n.Get(f) != Undefined && KeyOf(n.Get(f)) == key
  }

  // The scan that a lookup stands for.
  function FirstHolding(ns: seq<Network>, key: string): Option<Network> {
    if ns == [] then None else if Holds(ns[0], key) then Some(ns[0]) else FirstHolding(ns[1..], key)
  }

  lemma {:induction false} KeysAmongHold(n: Network, among: seq<Field>, key: string)
    ensures key in n.KeysAmong(among) <==>
            exists i :: 0 <= i < |among| && n.Get(among[i]) != Undefined && KeyOf(n.Get(among[i])) == key
    decreases |among|
  {
    hide KeyOf, Property;
    if among != [] {
      var rest := among[1..];
      KeysAmongHold(n, rest, key);
      if key in n.KeysAmong(rest) {
        var i :| 0 <= i < |rest| && n.Get(rest[i]) != Undefined && KeyOf(n.Get(rest[i])) == key;
        assert among[i + 1] == rest[i];
      }
      if i :| 0 < i < |among| && n.Get(among[i]) != Undefined && KeyOf(n.Get(among[i])) == key {
        assert rest[i - 1] == among[i];
      }
    }
  }

  lemma FieldListed(f: Field)
    ensures exists i :: 0 <= i < |FIELDS| && FIELDS[i] == f
  {
    assert FIELDS[0] == Name && FIELDS[1] == Alias && FIELDS[2] == Is && FIELDS[3] == PubKeyHash
           && FIELDS[4] == PrivateKey && FIELDS[5] == ScriptHash && FIELDS[6] == Bech32Prefix
           && FIELDS[7] == XPubKey && FIELDS[8] == XPrivKey && FIELDS[9] == Port;
  }

  lemma KeysHold(n: Network, key: string)
    ensures Times(n.Keys(), key) > 0 <==> Holds(n, key)
  {
    hide Times, KeyOf, Property, Network.KeysAmong;
    TimesZero(n.Keys(), key);
    KeysAmongHold(n, FIELDS, key);
    if f: Field :| n.Get(f) != Undefined && KeyOf(n.Get(f)) == key {
      FieldListed(f);
    }
  }

  lemma {:induction false} HoldersHead(ns: seq<Network>, key: string)
    ensures FirstHolding(ns, key) == if Holders(ns, key) == [] then None else Some(Holders(ns, key)[0])
    decreases |ns|
  {
    hide Times, Holds, Network.Keys;
    if ns != [] {
      KeysHold(ns[0], key);
      HoldersHead(ns[1..], key);
    }
  }

  // While the dictionary agrees with the list, looking a value up gives the first network in order of
  // registration that has the value as one of its properties.
  lemma LookupIsScan(r: Registry, value: Value)
    requires Agrees(r)
    ensures Found(r, Plain(value), None) == FirstHolding(r.networks, KeyOf(value))
  {
    hide Holders, FirstHolding, KeyOf;
    assert AgreesAt(r, KeyOf(value));
    HoldersHead(r.networks, KeyOf(value));
  }

  // ---------------------------------------------------------------- runs

  // What adds and removes do: an add registers new networks, one or more.
  datatype Event = Adding(networks: seq<Network>) | Removing(arg: Argument)

  function Target(r: Registry, arg: Argument): Option<Network> {
    if arg.Object? then Some(arg.network) else Found(r, arg, None)
  }

  function Applied(r: Registry, e: Event): Registry {
    match e
    case Adding(ns) => AddedAll(r, ns)
    case Removing(arg) => if Target(r, arg).None? then r else Removed(r, Target(r, arg).value)
  }

  function Replayed(events: seq<Event>): Registry {
    if events == [] then Registry([], map[])
    else Applied(Replayed(events[..|events| - 1]), events[|events| - 1])
  }

  // Every add brings objects that are not in the list yet.
  predicate NewEachTime(events: seq<Event>) {
    events == [] ||
    (var front, last := events[..|events| - 1], events[|events| - 1];
     NewEachTime(front) && (last.Adding? ==> NoDuplicates(Replayed(front).networks + last.networks)))
  }

  // Every network that is removed while registered has distinct values.
  predicate RemovesDistinct(events: seq<Event>) {
    events == [] ||
    (var front, last := events[..|events| - 1], events[|events| - 1];
     RemovesDistinct(front) && RemovesDistinctly(Replayed(front), last))
  }

  predicate RemovesDistinctly(r: Registry, e: Event) {
    e.Removing? && Target(r, e.arg).Some? && Target(r, e.arg).value in r.networks ==>
      Distinct(Target(r, e.arg).value.Keys())
  }

  lemma AppliedKeepsUnique(r: Registry, e: Event)
    requires NoDuplicates(r.networks) && (e.Adding? ==> NoDuplicates(r.networks + e.networks))
    ensures NoDuplicates(Applied(r, e).networks)
  {
    hide NoDuplicates, Without, Added, Found;
    match e
    case Adding(ns) => ListAfter(r, ns);
    case Removing(arg) =>
      if Target(r, arg).Some? {
        WithoutIsGone(r.networks, Target(r, arg).value);
      }
  }

  lemma AppliedAgreesIff(r: Registry, e: Event)
    requires Agrees(r) && NoDuplicates(r.networks)
    ensures Agrees(Applied(r, e)) <==> RemovesDistinctly(r, e)
  {
    hide Agrees, Distinct, NoDuplicates, Found, AddedAll, Removed, Network.Keys;
    match e
    case Adding(ns) => AddedAllAgrees(r, ns);
    case Removing(arg) =>
      if Target(r, arg).Some? {
        var n := Target(r, arg).value;
        if n in r.networks {
          RemovedAgreesIff(r, n);
        } else {
          RemovedUnregistered(r, n);
        }
      }
  }

  lemma StartAgrees()
    ensures Agrees(Registry([], map[]))
  {
    forall key
      ensures AgreesAt(Registry([], map[]), key)
    {
    }
  }

  // The dictionary agrees with the list in every state of a run if and only if every network removed
  // while registered has pairwise distinct values.
  lemma {:induction false} EveryStateAgreesIff(events: seq<Event>)
    requires NewEachTime(events)
    ensures (forall n :: 0 <= n <= |events| ==> Agrees(Replayed(events[..n]))) <==> RemovesDistinct(events)
    ensures NoDuplicates(Replayed(events).networks)
    decreases |events|
  {
    hide Agrees, Applied, RemovesDistinctly, NoDuplicates;
    if events == [] {
      StartAgrees();
      NoneTwice();
    } else {
      var front, last := events[..|events| - 1], events[|events| - 1];
      EveryStateAgreesIff(front);
      AppliedKeepsUnique(Replayed(front), last);
      assert forall n :: 0 <= n < |events| ==> events[..n] == front[..n];
      assert events[..|events|] == events && front[..|front|] == front;
      if Agrees(Replayed(front)) {
        AppliedAgreesIff(Replayed(front), last);
      }
    }
  }

  lemma NoneTwice()
    ensures NoDuplicates([])
  {
  }

  // So after such a run a lookup by value is a scan of the list.
  lemma LookupAfterRun(events: seq<Event>, value: Value)
    requires NewEachTime(events) && RemovesDistinct(events)
    ensures Found(Replayed(events), Plain(value), None) == FirstHolding(Replayed(events).networks, KeyOf(value))
  {
    hide Replayed, Agrees, Found, FirstHolding, KeyOf, NewEachTime, RemovesDistinct;
    EveryStateAgreesIff(events);
    assert events[..|events|] == events;
    LookupIsScan(Replayed(events), value);
  }
}
