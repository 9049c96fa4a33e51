/** The JSON form of a record, and the repair of its keys, after domain/records.py. */
module Dump {
  import opened Texts
  import opened Surrogates
  import opened TypeSearch
  import opened Values

  predicate IsIdentifier(t: Text) {
    t != [] && t[0] != NUL && !HasSurrogate(t)
  }

  /** Field names are identifiers: no two of a model are equal, none holds a surrogate or starts with NUL. */
  ghost predicate FieldsNamed(s: Schema) {
    forall m :: m in s ==>
      && (forall i :: 0 <= i < |s[m]| ==> IsIdentifier(s[m][i].name))
      && forall i, j :: 0 <= i < j < |s[m]| ==> s[m][i].name != s[m][j].name
  }

  function FieldNames(s: Schema, m: Model): (names: seq<Text>)
    requires m in s
    ensures |names| == |s[m]|
  {
    seq(|s[m]|, i requires 0 <= i < |s[m]| => s[m][i].name)
  }

  /** What every dump should give: a record becomes a mapping by field name, a tuple a list, a leaf its
      JSON form; mapping keys stay as they are, bad ones included. */
  function Dumped(s: Schema, json: Atom -> Atom, v: Value): (d: Value)
    requires WellTyped(s, v)
  {
    match v
    case Leaf(a) => Leaf(json(a))
    case Mapping(keys, items) => Mapping(keys, seq(|items|, i requires 0 <= i < |items| => Dumped(s, json, items[i])))
    case Record(m, items) =>
      Mapping(FieldNames(s, m), seq(|items|, i requires 0 <= i < |items| => Dumped(s, json, items[i])))
    case _ => Listing(seq(|v.items|, i requires 0 <= i < |v.items| => Dumped(s, json, v.items[i])))
  }

  /** pydantic's `model_dump(mode="json")`, which cannot take a surrogate key. */
  function ModelDump(s: Schema, json: Atom -> Atom, v: Value): Value
    requires WellTyped(s, v)
    requires !HasBadKey(v)
  {
    Dumped(s, json, v)
  }

  /** Dumped data: mappings, lists and leaves, no key twice in a mapping. */
  ghost predicate IsJson(v: Value) {
    match v
    case Leaf(_) => true
    case Listing(items) => forall i :: 0 <= i < |items| ==> IsJson(items[i])
    case Mapping(keys, items) =>
      |keys| == |items| && Distinct(keys) && forall i :: 0 <= i < |items| ==> IsJson(items[i])
    case _ => false
  }

  lemma {:induction false} DumpedIsJson(s: Schema, json: Atom -> Atom, v: Value)
    requires WellTyped(s, v) && FieldsNamed(s)
    ensures IsJson(Dumped(s, json, v))
    ensures HasBadKey(Dumped(s, json, v)) <==> HasBadKey(v)
  {
    if !v.Leaf? {
      var d := Dumped(s, json, v);
      forall i | 0 <= i < |v.items|
        ensures IsJson(d.items[i])
        ensures HasBadKey(d.items[i]) <==> HasBadKey(v.items[i])
      {
        DumpedIsJson(s, json, v.items[i]);
      }
    }
  }

  // ----- dict building

  function IndexOf(keys: seq<Text>, key: Text): (i: nat)
    requires key in keys
    ensures i < |keys| && keys[i] == key
  {
    if keys[0] == key then 0 else 1 + IndexOf(keys[1..], key)
  }

  /** `d[key] = item`: a key already there keeps its place and takes the new item. */
  function Put(d: Value, key: Text, item: Value): (r: Value)
    requires d.Mapping? && |d.keys| == |d.items|
    ensures r.Mapping? && |r.keys| == |r.items|
    ensures key !in d.keys ==> r == Mapping(d.keys + [key], d.items + [item])
  {
    if key in d.keys then
      var i := IndexOf(d.keys, key);
      Mapping(d.keys, d.items[i := item])
    else
      Mapping(d.keys + [key], d.items + [item])
  }

  // ----- key repair

  /** Dumped data with every bad key renamed, everything else untouched. */
  ghost function KeysRepaired(v: Value): Value {
    match v
    case Mapping(keys, items) =>
      Mapping(Names(keys), seq(|items|, i requires 0 <= i < |items| => KeysRepaired(items[i])))
    case Listing(items) => Listing(seq(|items|, i requires 0 <= i < |items| => KeysRepaired(items[i])))
    case _ => v
  }

  /** `_repair_keys`: building the new dict key by key loses no entry. */
  method RepairKeys(v: Value) returns (r: Value)
    requires IsJson(v)
    ensures r == KeysRepaired(v)
    decreases v
  {
    hide HasSurrogate;
    match v {
      case Mapping(keys, items) =>
        var renamed := RepairedKeyNames(keys);
        ghost var names := Names(keys);
        r := Mapping([], []);
        for i := 0 to |keys|
          invariant r.Mapping? && r.keys == names[..i] && |r.items| == i
          invariant forall j :: 0 <= j < i ==> r.items[j] == KeysRepaired(items[j])
        {
          var item := RepairKeys(items[i]);
          var key := if keys[i] in renamed then renamed[keys[i]] else keys[i];
          NewNameIsNew(keys, i);
          r := Put(r, key, item);
        }
        assert r.keys == names && r.items == KeysRepaired(v).items;
      case Listing(items) =>
        var repaired: seq<Value> := [];
        for i := 0 to |items|
          invariant |repaired| == i && forall j :: 0 <= j < i ==> repaired[j] == KeysRepaired(items[j])
        {
          var item := RepairKeys(items[i]);
          repaired := repaired + [item];
        }
        assert repaired == KeysRepaired(v).items;
        r := Listing(repaired);
      case _ =>
        r := v;
    }
  }

  /** The same lists, mappings and leaves with the same numbers of members, whatever the keys. */
  ghost predicate SameShape(v: Value, r: Value) {
    match v
    case Leaf(_) => r.Leaf?
    case Mapping(keys, items) => r.Mapping? && |r.keys| == |keys| && SameShapes(items, r.items)
    case Listing(items) => r.Listing? && SameShapes(items, r.items)
    case _ => r == v
  }

  ghost predicate SameShapes(items: seq<Value>, results: seq<Value>) {
    |results| == |items| && forall i :: 0 <= i < |items| ==> SameShape(items[i], results[i])
  }

  /** After repair no key holds a surrogate, every mapping is still one with as many entries, and data
      without a bad key comes back as it was. */
  lemma {:induction false} KeysRepairedProperties(v: Value)
    requires IsJson(v)
    ensures IsJson(KeysRepaired(v)) && !HasBadKey(KeysRepaired(v))
    ensures SameShape(v, KeysRepaired(v))
    ensures !HasBadKey(v) <==> KeysRepaired(v) == v
  {
    if !v.Leaf? {
      var r := KeysRepaired(v);
      forall i | 0 <= i < |v.items|
        ensures IsJson(r.items[i]) && !HasBadKey(r.items[i]) && SameShape(v.items[i], r.items[i])
        ensures !HasBadKey(v.items[i]) <==> r.items[i] == v.items[i]
      {
        KeysRepairedProperties(v.items[i]);
      }
      if v.Mapping? {
        NamesProperties(v.keys);
      }
      if !HasBadKey(v) {
        assert r.items == v.items;
        if v.Mapping? {
          assert r.keys == v.keys;
        }
      }
    }
  }
}
