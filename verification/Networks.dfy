/**
 The registry of networks: the list of registered networks and, for every value one of them has, the
 networks that have it.  Networks are told apart by identity.
 */
module Networks {
  import opened Wrappers
  import Text

  // The properties of a network that are indexed by their value, in the order they are defined.
  datatype Field =
    Name | Alias | Is | PubKeyHash | PrivateKey | ScriptHash | Bech32Prefix | XPubKey | XPrivKey | Port

  const FIELDS: seq<Field> :=
    [Name, Alias, Is, PubKeyHash, PrivateKey, ScriptHash, Bech32Prefix, XPubKey, XPrivKey, Port]

  // A function is known by its source text.
  datatype Value = Undefined | String(text: string) | Number(n: nat) | Function(source: string)

  // What a value becomes as the key of a dictionary.
  function KeyOf(v: Value): string {
    match v
    case Undefined => "undefined"
    case String(text) => text
    case Number(n) => Text.Decimal(n)
    case Function(source) => source
  }

  // What networks are added from: properties, and variants that override them.
  datatype Data = Data(fields: map<Field, Value>, variants: seq<Data>)

  function Property(fields: map<Field, Value>, f: Field): Value {
    var v := if f in fields then fields[f] else Undefined;
    if f == Port && v in {Number(0), String("")} then Undefined else v
  }

  class Network {
    const fields: map<Field, Value>

    constructor (fields: map<Field, Value>)
      ensures this.fields == fields
    {
      this.fields := fields;
    }

    function Get(f: Field): Value {
      Property(fields, f)
    }

    // The keys the network is indexed under, one for each value.
    function Keys(): seq<string> {
      KeysAmong(FIELDS)
    }

    function KeysAmong(among: seq<Field>): seq<string> {
      if among == [] then []
      else (if Get(among[0]) == Undefined then [] else [KeyOf(Get(among[0]))]) + KeysAmong(among[1..])
    }
  }

  // ---------------------------------------------------------------- the registry as a value

  datatype Registry = Registry(networks: seq<Network>, maps: map<string, seq<Network>>)

  function Entry(maps: map<string, seq<Network>>, key: string): seq<Network> {
    if key in maps then maps[key] else []
  }

  function Pushed(maps: map<string, seq<Network>>, n: Network, keys: seq<string>): map<string, seq<Network>>
    decreases |keys|
  {
    if keys == [] then maps
    else
      var before := Pushed(maps, n, keys[..|keys| - 1]);
      var key := keys[|keys| - 1];
      before[key := Entry(before, key) + [n]]
  }

  function Added(r: Registry, n: Network): Registry {
    Registry(r.networks + [n], Pushed(r.maps, n, n.Keys()))
  }

  function AddedAll(r: Registry, ns: seq<Network>): Registry
    decreases |ns|
  {
    if ns == [] then r else Added(AddedAll(r, ns[..|ns| - 1]), ns[|ns| - 1])
  }

  // The properties of the networks that data stands for: its own, then those of its variants.
  function Expanded(fields: map<Field, Value>, variants: seq<Data>): (all: seq<map<Field, Value>>)
    ensures |all| >= 1
    decreases variants, 1
  {
    [fields] + ExpandedVariants(fields, variants)
  }

  function ExpandedVariants(fields: map<Field, Value>, variants: seq<Data>): seq<map<Field, Value>>
    decreases variants, 0
  {
    if variants == [] then []
    else
      Expanded(fields + variants[0].fields, variants[0].variants) + ExpandedVariants(fields, variants[1..])
  }

  // Takes out the first occurrence.
  function Without(ns: seq<Network>, n: Network): seq<Network> {
    if ns == [] then [] else if ns[0] == n then ns[1..] else [ns[0]] + Without(ns[1..], n)
  }

  // The place of the first occurrence, or -1.
  function IndexOf(ns: seq<Network>, n: Network): (i: int)
    ensures -1 <= i < |ns| && (i >= 0 <==> n in ns)
    ensures i >= 0 ==> ns[i] == n && n !in ns[..i]
  {
    if ns == [] then -1
    else if ns[0] == n then 0
    else
      var i := IndexOf(ns[1..], n);
      if i < 0 then -1 else i + 1
  }

  lemma {:induction false} WithoutAt(ns: seq<Network>, n: Network, i: nat)
    requires i < |ns| && ns[i] == n && n !in ns[..i]
    ensures Without(ns, n) == ns[..i] + ns[i + 1..]
    decreases i
  {
    if i > 0 {
      assert ns[0] == ns[..i][0];
      assert ns[1..][..i - 1] == ns[1..i];
      WithoutAt(ns[1..], n, i - 1);
    }
  }

  lemma {:induction false} WithoutNone(ns: seq<Network>, n: Network)
    requires n !in ns
    ensures Without(ns, n) == ns
    decreases |ns|
  {
    if ns != [] {
      WithoutNone(ns[1..], n);
    }
  }

  function Removed(r: Registry, n: Network): Registry {
    Registry(Without(r.networks, n),
             map key | key in r.maps && Without(r.maps[key], n) != [] :: Without(r.maps[key], n))
  }

  // ---------------------------------------------------------------- lookup

  datatype Argument = Object(network: Network) | Plain(value: Value)

  predicate Matches(n: Network, arg: Argument, fields: seq<Field>) {
    arg.Plain? && exists i :: 0 <= i < |fields| && n.Get(fields[i]) == arg.value
  }

  function FirstMatch(ns: seq<Network>, arg: Argument, fields: seq<Field>): Option<Network> {
    if ns == [] then None
    else if Matches(ns[0], arg, fields) then Some(ns[0])
    else FirstMatch(ns[1..], arg, fields)
  }

  // The key of an argument: an unregistered network is looked up by its name.
  function KeyOfArgument(arg: Argument): string {
    match arg
    case Object(n) => KeyOf(n.Get(Name))
    case Plain(v) => KeyOf(v)
  }

  // get: the keys, if any, restrict the properties that are compared.
  function Found(r: Registry, arg: Argument, keys: Option<seq<Field>>): Option<Network> {
    if arg.Object? && arg.network in r.networks then Some(arg.network)
    else if keys.Some? then FirstMatch(r.networks, arg, keys.value)
    else
      var entry := Entry(r.maps, KeyOfArgument(arg));
      if entry == [] then None else Some(entry[0])
  }

  // The first network that has a value under one of the keys, and nothing exactly if no network has.
  lemma {:induction false} FirstMatchIs(ns: seq<Network>, v: Value, fields: seq<Field>)
    ensures match FirstMatch(ns, Plain(v), fields)
            case Some(n) =>
              exists i :: 0 <= i < |ns| && ns[i] == n && (exists f :: f in fields && n.Get(f) == v)
                          && forall j, f :: 0 <= j < i && f in fields ==> ns[j].Get(f) != v
            case None => forall j, f :: 0 <= j < |ns| && f in fields ==> ns[j].Get(f) != v
    decreases |ns|
  {
    hide Network.Get;
    if ns != [] {
      if Matches(ns[0], Plain(v), fields) {
        var i :| 0 <= i < |fields| && ns[0].Get(fields[i]) == v;
        assert fields[i] in fields;
      } else {
        var rest := ns[1..];
        FirstMatchIs(rest, v, fields);
        forall f | f in fields
          ensures ns[0].Get(f) != v
        {
          var i :| 0 <= i < |fields| && fields[i] == f;
        }
        if FirstMatch(rest, Plain(v), fields).Some? {
          var n := FirstMatch(rest, Plain(v), fields).value;
          var i :| 0 <= i < |rest| && rest[i] == n && (exists f :: f in fields && n.Get(f) == v)
                   && forall j, f :: 0 <= j < i && f in fields ==> rest[j].Get(f) != v;
          assert ns[i + 1] == n;
          forall j, f | 0 <= j < i + 1 && f in fields
            ensures ns[j].Get(f) != v
          {
            assert j > 0 ==> ns[j] == rest[j - 1];
          }
        } else {
          forall j, f | 0 <= j < |ns| && f in fields
            ensures ns[j].Get(f) != v
          {
            assert j > 0 ==> ns[j] == rest[j - 1];
          }
        }
      }
    }
  }

  lemma {:induction false} ObjectMatchesNone(ns: seq<Network>, n: Network, fields: seq<Field>)
    ensures FirstMatch(ns, Object(n), fields) == None
    decreases |ns|
  {
    if ns != [] {
      ObjectMatchesNone(ns[1..], n, fields);
    }
  }

  lemma ObjectOrValue(ns: seq<Network>, arg: Argument, keys: seq<Field>)
    ensures match arg
            case Object(_) => FirstMatch(ns, arg, keys) == None
            case Plain(v) =>
              match FirstMatch(ns, arg, keys)
              case Some(n) =>
                exists i :: 0 <= i < |ns| && ns[i] == n && (exists f :: f in keys && n.Get(f) == v)
                            && forall j, f :: 0 <= j < i && f in keys ==> ns[j].Get(f) != v
              case None => forall j, f :: 0 <= j < |ns| && f in keys ==> ns[j].Get(f) != v
  {
    hide Network.Get, FirstMatch, Matches;
    match arg
    case Object(m) => ObjectMatchesNone(ns, m, keys);
    case Plain(v) => FirstMatchIs(ns, v, keys);
  }

  // Looking up under keys: n is found if and only if it is the first network that has the value under one of
  // them.  A network given as an object is found itself if it is registered, and otherwise nothing is.
  lemma KeyedLookupIff(r: Registry, arg: Argument, keys: seq<Field>, n: Network)
    ensures Found(r, arg, Some(keys)) == Some(n) <==>
            if arg.Object? then arg.network == n && n in r.networks
            else exists i :: 0 <= i < |r.networks| && r.networks[i] == n
                             && (exists f :: f in keys && n.Get(f) == arg.value)
                             && forall j, f :: 0 <= j < i && f in keys ==> r.networks[j].Get(f) != arg.value
    ensures Found(r, arg, Some(keys)) == None <==>
            if arg.Object? then arg.network !in r.networks
            else forall j, f :: 0 <= j < |r.networks| && f in keys ==> r.networks[j].Get(f) != arg.value
  {
    hide Network.Get, FirstMatch, Matches;
    match arg
    case Object(m) => ObjectMatchesNone(r.networks, m, keys);
    case Plain(v) =>
      FirstMatchIs(r.networks, v, keys);
      if i :| 0 <= i < |r.networks| && r.networks[i] == n && (exists f :: f in keys && n.Get(f) == v)
              && forall j, f :: 0 <= j < i && f in keys ==> r.networks[j].Get(f) != v {
        var f :| f in keys && n.Get(f) == v;
        var m := FirstMatch(r.networks, arg, keys).value;
        var k :| 0 <= k < |r.networks| && r.networks[k] == m && (exists g :: g in keys && m.Get(g) == v)
                 && forall j, g :: 0 <= j < k && g in keys ==> r.networks[j].Get(g) != v;
        assert k == i;
      }
  }

  // Without keys the head of the dictionary's entry is found, or a registered network itself.
  lemma UnkeyedLookup(r: Registry, arg: Argument)
    ensures arg.Object? && arg.network in r.networks ==> Found(r, arg, None) == Some(arg.network)
    ensures !(arg.Object? && arg.network in r.networks) ==>
              var key := KeyOf(if arg.Object? then arg.network.Get(Name) else arg.value);
              Found(r, arg, None) == if key in r.maps && r.maps[key] != [] then Some(r.maps[key][0]) else None
  {
    hide KeyOf, Network.Get;
  }

  // ---------------------------------------------------------------- the program

  predicate NoDuplicates(ns: seq<Network>) {
    forall i, j :: 0 <= i < j < |ns| ==> ns[i] != ns[j]
  }

  predicate NoEmptyEntry(maps: map<string, seq<Network>>) {
    forall key :: key in maps ==> maps[key] != []
  }

  class NetworkRegistry {
    var networks: seq<Network>
    var networkMaps: map<string, seq<Network>>

    ghost function Contents(): Registry
      reads this
    {
      Registry(networks, networkMaps)
    }

    ghost predicate Valid()
      reads this
    {
      NoDuplicates(networks) && NoEmptyEntry(networkMaps)
    }

    constructor ()
      ensures Valid() && Contents() == Registry([], map[])
    {
      networks, networkMaps := [], map[];
    }

    method Get(arg: Argument, keys: Option<seq<Field>>) returns (r: Option<Network>)
      ensures r == Found(Contents(), arg, keys)
      ensures arg.Object? && arg.network in networks ==> r == Some(arg.network)
      ensures arg.Object? && arg.network !in networks && keys.Some? ==> r == None
      ensures arg.Plain? && keys.Some? ==>
                match r
                case Some(n) =>
                  exists i :: 0 <= i < |networks| && networks[i] == n
                              && (exists f :: f in keys.value && n.Get(f) == arg.value)
                              && forall j, f :: 0 <= j < i && f in keys.value ==> networks[j].Get(f) != arg.value
                case None => forall j, f :: 0 <= j < |networks| && f in keys.value ==> networks[j].Get(f) != arg.value
    {
      hide Network.Get;
      if keys.Some? {
        ObjectOrValue(networks, arg, keys.value);
      }
      if arg.Object? && arg.network in networks {
        return Some(arg.network);
      }
      if keys.Some? {
        var index := 0;
        while index < |networks|
          invariant 0 <= index <= |networks|
          invariant FirstMatch(networks, arg, keys.value) == FirstMatch(networks[index..], arg, keys.value)
        {
          if Matches(networks[index], arg, keys.value) {
            return Some(networks[index]);
          }
          assert networks[index..][1..] == networks[index + 1..];
          index := index + 1;
        }
        return None;
      }
      var key := KeyOfArgument(arg);
      if key in networkMaps && |networkMaps[key]| >= 1 {
        return Some(networkMaps[key][0]);
      }
      return None;
    }

    method Push(value: string, network: Network)
      requires Valid()
      modifies this`networkMaps
      ensures Valid() && networkMaps == old(networkMaps)[value := Entry(old(networkMaps), value) + [network]]
    {
      if value !in networkMaps {
        networkMaps := networkMaps[value := []];
      }
      networkMaps := networkMaps[value := networkMaps[value] + [network]];
    }

    // A network under each of its values.
    method Index(network: Network)
      requires Valid()
      modifies this`networkMaps
      ensures Valid() && networkMaps == Pushed(old(networkMaps), network, network.Keys())
    {
      hide Pushed, Entry, NoEmptyEntry, NoDuplicates, Network.Keys, Network.KeysAmong;
      var keys := network.Keys();
      NonePushed(networkMaps, network);
      for i := 0 to |keys|
        invariant Valid() && networkMaps == Pushed(old(networkMaps), network, keys[..i])
      {
        PushedLast(old(networkMaps), network, keys[..i], keys[i]);
        assert keys[..i + 1] == keys[..i] + [keys[i]];
        Push(keys[i], network);
      }
      assert keys[..|keys|] == keys;
    }

    // All networks of the data, recursively; the one returned is the first.
    method Add(data: Data) returns (network: Network, ghost added: seq<Network>)
      requires Valid()
      modifies this
      ensures Valid() && (forall i :: 0 <= i < |added| ==> fresh(added[i]))
      ensures added != [] && network == added[0]
      ensures FieldsOf(added) == Expanded(data.fields, data.variants)
      ensures networks == old(networks) + added && Contents() == AddedAll(old(Contents()), added)
      decreases data.variants
    {
      hide AddedAll, Added, Pushed, Expanded, ExpandedVariants, FieldsOf, Network.Keys, NoEmptyEntry;
      network := new Network(data.fields);
      Index(network);
      networks := networks + [network];
      added := [network];
      AddedOne(old(Contents()), network);
      ExpandedFirst(network, data);
      for k := 0 to |data.variants|
        invariant Valid() && (forall i :: 0 <= i < |added| ==> fresh(added[i]))
        invariant added != [] && added[0] == network
        invariant Contents() == AddedAll(old(Contents()), added)
        invariant FieldsOf(added) + ExpandedVariants(data.fields, data.variants[k..]) ==
                  Expanded(data.fields, data.variants)
      {
        var variant := data.variants[k];
        var _, more := Add(Data(data.fields + variant.fields, variant.variants));
        AddedAllConcat(old(Contents()), added, more);
        ExpandedNext(added, more, data, k);
        added := added + more;
      }
      ListAfter(old(Contents()), added);
      ExpandedNone(data.fields);
      assert data.variants[|data.variants|..] == [];
    }

    method Remove(arg: Argument)
      requires Valid()
      modifies this
      ensures Valid()
      ensures var n := if arg.Object? then Some(arg.network) else Found(old(Contents()), arg, None);
              Contents() == if n.None? then old(Contents()) else Removed(old(Contents()), n.value)
    {
      var found: Option<Network>;
      if arg.Object? {
        found := Some(arg.network);
      } else {
        found := Get(arg, None);
      }
      if found.Some? {
        RemoveFromList(found.value);
        RemoveFromMaps(found.value);
      }
    }

    method RemoveFromList(network: Network)
      requires Valid()
      modifies this`networks
      ensures Valid() && networks == Without(old(networks), network)
    {
      ghost var before := networks;
      var i := 0;
      while i < |networks|
        invariant i <= |networks| + 1 && NoDuplicates(networks)
        invariant if network in before[..if i <= |before| then i else |before|]
          then networks == Without(before, network) && network !in networks
          else networks == before && i <= |networks|
        decreases |networks| - i
      {
        if networks[i] == network {
          WithoutAt(networks, network, i);
          networks := networks[..i] + networks[i + 1..];
        }
        i := i + 1;
      }
      WithoutNone(networks, network);
    }

    method RemoveFromEntry(key: string, network: Network)
      requires Valid() && key in networkMaps
      modifies this`networkMaps
      ensures Valid()
      ensures networkMaps == RemovedAt(old(networkMaps), network, key)
    {
      hide Without;
      var list := networkMaps[key];
      var index := IndexOf(list, network);
      if index >= 0 {
        WithoutAt(list, network, index);
        networkMaps := networkMaps[key := list[..index] + list[index + 1..]];
      } else {
        WithoutNone(list, network);
      }
      if |networkMaps[key]| == 0 {
        networkMaps := networkMaps - {key};
      }
    }

    method RemoveFromMaps(network: Network)
      requires Valid()
      modifies this`networkMaps
      ensures Valid() && networkMaps == Removed(Registry(networks, old(networkMaps)), network).maps
    {
      hide Without, NoEmptyEntry, NoDuplicates;
      ghost var before := networkMaps;
      var keys := networkMaps.Keys;
      while keys != {}
        invariant Valid() && keys <= before.Keys
        invariant networkMaps == RemovedOutside(before, network, keys)
        decreases |keys|
      {
        var key :| key in keys;
        RemovedNext(before, network, keys, key);
        RemoveFromEntry(key, network);
        keys := keys - {key};
      }
    }
  }

  function RemovedAt(maps: map<string, seq<Network>>, n: Network, key: string): map<string, seq<Network>>
    requires key in maps
  {
    var list := Without(maps[key], n);
    if list == [] then maps - {key} else maps[key := list]
  }

  // The network is removed from the entries outside a set of keys.
  function RemovedOutside(maps: map<string, seq<Network>>, n: Network, keys: set<string>): map<string, seq<Network>> {
    map key | key in maps && (key in keys || Without(maps[key], n) != []) ::
      if key in keys then maps[key] else Without(maps[key], n)
  }

  lemma RemovedNext(maps: map<string, seq<Network>>, n: Network, keys: set<string>, key: string)
    requires key in keys && keys <= maps.Keys
    ensures key in RemovedOutside(maps, n, keys)
    ensures RemovedOutside(maps, n, keys - {key}) == RemovedAt(RemovedOutside(maps, n, keys), n, key)
  {
    hide Without;
  }

  function FieldsOf(ns: seq<Network>): seq<map<Field, Value>> {
    seq(|ns|, i requires 0 <= i < |ns| => ns[i].fields)
  }

  lemma NonePushed(maps: map<string, seq<Network>>, n: Network)
    ensures Pushed(maps, n, []) == maps
  {
  }

  lemma PushedLast(maps: map<string, seq<Network>>, n: Network, keys: seq<string>, key: string)
    ensures Pushed(maps, n, keys + [key]) ==
            Pushed(maps, n, keys)[key := Entry(Pushed(maps, n, keys), key) + [n]]
  {
    assert (keys + [key])[..|keys|] == keys;
  }

  lemma AddedOne(r: Registry, n: Network)
    ensures AddedAll(r, [n]) == Registry(r.networks + [n], Pushed(r.maps, n, n.Keys()))
  {
    assert [n][..0] == [];
  }

  lemma ExpandedFirst(n: Network, data: Data)
    requires n.fields == data.fields
    ensures FieldsOf([n]) + ExpandedVariants(data.fields, data.variants[0..]) == Expanded(data.fields, data.variants)
  {
    assert data.variants[0..] == data.variants;
  }

  lemma ExpandedNext(added: seq<Network>, more: seq<Network>, data: Data, k: nat)
    requires k < |data.variants|
    requires FieldsOf(more) == Expanded(data.fields + data.variants[k].fields, data.variants[k].variants)
    ensures FieldsOf(added + more) + ExpandedVariants(data.fields, data.variants[k + 1..]) ==
            FieldsOf(added) + ExpandedVariants(data.fields, data.variants[k..])
  {
    hide Expanded;
    var rest := data.variants[k..];
    assert rest[0] == data.variants[k] && rest[1..] == data.variants[k + 1..];
    assert FieldsOf(added + more) == FieldsOf(added) + FieldsOf(more);
  }

  lemma ExpandedNone(fields: map<Field, Value>)
    ensures ExpandedVariants(fields, []) == []
  {
  }

  lemma {:induction false} AddedAllConcat(r: Registry, a: seq<Network>, b: seq<Network>)
    ensures AddedAll(r, a + b) == AddedAll(AddedAll(r, a), b)
    decreases |b|
  {
    hide Added;
    if b == [] {
      assert a + b == a;
    } else {
      var b' := b[..|b| - 1];
      AddedAllConcat(r, a, b');
      assert (a + b)[..|a + b| - 1] == a + b';
    }
  }

  lemma {:induction false} ListAfter(r: Registry, ns: seq<Network>)
    ensures AddedAll(r, ns).networks == r.networks + ns
    decreases |ns|
  {
    hide Pushed, Network.Keys;
    if ns == [] {
      assert r.networks + ns == r.networks;
    } else {
      ListAfter(r, ns[..|ns| - 1]);
      assert ns == ns[..|ns| - 1] + [ns[|ns| - 1]];
    }
  }
}
