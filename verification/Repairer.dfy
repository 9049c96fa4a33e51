/** The output layer's repair walk and the paths it reports, after adapters/native/record_json.py. */
module Repairers {
  import opened Texts
  import opened RepairPaths
  import opened KeyMasks
  import opened Surrogates
  import opened TypeSearch
  import opened Values
  import opened Dump

  // ----- what the walk should give

  /** A leaf as it is written: text with each surrogate replaced, and a leaf whose converted text holds
      one as that text repaired. */
  function LeafRepaired(hook: Hook, a: Atom): Atom {
    match a
    case Str(text) => Str(ReplaceSurrogates(text))
    case Number(_) => a
    case Opaque(id) =>
      if hook.Some? && hook.value(id).Str? && HasSurrogate(hook.value(id).text)
      then Str(ReplaceSurrogates(hook.value(id).text))
      else a
  }

  /** The data with bad keys renamed by the shared rule and every leaf repaired, tuples as lists. */
  ghost function Repaired(hook: Hook, v: Value): Value {
    match v
    case Leaf(a) => Leaf(LeafRepaired(hook, a))
    case Mapping(keys, items) => Mapping(Names(keys), AllRepaired(hook, items))
    case Listing(items) => Listing(AllRepaired(hook, items))
    case Tupling(items) => Listing(AllRepaired(hook, items))
    case Record(_, _) => v
  }

  ghost function AllRepaired(hook: Hook, items: seq<Value>): (r: seq<Value>)
    ensures |r| == |items|
  {
    if items == [] then []
    else AllRepaired(hook, items[..|items| - 1]) + [Repaired(hook, items[|items| - 1])]
  }

  lemma NothingYet(hook: Hook, path: Text)
    ensures AllRepaired(hook, []) == [] && ItemsPaths(hook, [], path) == []
  {
  }

  lemma AllRepairedStep(hook: Hook, items: seq<Value>, i: nat)
    requires i < |items|
    ensures AllRepaired(hook, items[..i + 1]) == AllRepaired(hook, items[..i]) + [Repaired(hook, items[i])]
  {
    PrefixStep(items, i);
  }

  // ----- the walk

  class Repairer {
    const hook: Hook
    var paths: seq<Text>

    constructor (hook: Hook)
      ensures this.hook == hook && paths == []
    {
      this.hook := hook;
      paths := [];
    }

    /** `value`: the data repaired, the paths of what was replaced appended. */
    method Repair(v: Value, path: Text) returns (r: Value)
      requires IsPlain(v)
      modifies this
      ensures r == Repaired(hook, v)
      ensures paths == old(paths) + PathsOf(hook, v, path)
      decreases v, 0
    {
      match v {
        case Leaf(a) =>
          var atom := RepairLeaf(a, path);
          r := Leaf(atom);
        case Mapping(keys, items) =>
          r := RepairMapping(keys, items, path);
        case Listing(items) =>
          var results := RepairItems(items, path);
          r := Listing(results);
        case Tupling(items) =>
          var results := RepairItems(items, path);
          r := Listing(results);
      }
    }

    /** The members of a list or tuple, each under its index. */
    method RepairItems(items: seq<Value>, path: Text) returns (results: seq<Value>)
      requires forall i :: 0 <= i < |items| ==> IsPlain(items[i])
      modifies this
      ensures results == AllRepaired(hook, items)
      ensures paths == old(paths) + ItemsPaths(hook, items, path)
      decreases items
    {
      hide Repaired, PathsOf, Join, Decimal, AllRepaired, ItemsPaths;
      results := [];
      NothingYet(hook, path);
      for i := 0 to |items|
        invariant results == AllRepaired(hook, items[..i])
        invariant paths == old(paths) + ItemsPaths(hook, items[..i], path)
      {
        var here := Join(path, Decimal(i));
        var item := Repair(items[i], here);
        results := results + [item];
        AllRepairedStep(hook, items, i);
        ItemsPathsStep(hook, items, path, i);
        Associate(old(paths), ItemsPaths(hook, items[..i], path), PathsOf(hook, items[i], here));
      }
      PrefixStep(items, |items|);
    }

    /** `_mapping`: no entry is lost when keys are renamed. */
    method RepairMapping(keys: seq<Text>, items: seq<Value>, path: Text) returns (r: Value)
      requires |keys| == |items| && Distinct(keys)
      requires forall i :: 0 <= i < |items| ==> IsPlain(items[i])
      modifies this
      ensures r == Mapping(Names(keys), AllRepaired(hook, items))
      ensures paths == old(paths) + EntriesPaths(hook, keys, Names(keys), items, path)
      decreases items
    {
      hide Repaired, EntryPaths, HasSurrogate, Ascii, Join;
      var renamed := RepairedKeyNames(keys);
      ghost var names := Names(keys);
      r := Mapping([], []);
      for i := 0 to |keys|
        invariant r == Mapping(names[..i], AllRepaired(hook, items[..i]))
        invariant paths == old(paths) + EntriesPaths(hook, keys[..i], names[..i], items[..i], path)
      {
        var newKey := if keys[i] in renamed then renamed[keys[i]] else keys[i];
        assert newKey == names[i];
        NewNameIsNew(keys, i);
        var here := Join(path, Ascii(newKey));
        var item := RepairEntry(keys[i] in renamed, keys[i], items[i], here);
        r := Put(r, newKey, item);
        PrefixStep(names, i);
        AllRepairedStep(hook, items, i);
        EntriesPathsStep(hook, keys, names, items, path, i);
        Associate(old(paths), EntriesPaths(hook, keys[..i], names[..i], items[..i], path),
                  EntryPaths(hook, keys[i], items[i], here));
      }
      PrefixStep(keys, |keys|);
      PrefixStep(names, |keys|);
      PrefixStep(items, |keys|);
    }

    /** One entry's item, after its key's path when the key was renamed. */
    method RepairEntry(isRenamed: bool, ghost key: Text, item: Value, here: Text) returns (r: Value)
      requires IsPlain(item) && isRenamed == HasSurrogate(key)
      modifies this
      ensures r == Repaired(hook, item)
      ensures paths == old(paths) + EntryPaths(hook, key, item, here)
      decreases item, 1
    {
      if isRenamed {
        paths := paths + [here];
      }
      r := Repair(item, here);
      Associate(old(paths), if isRenamed then [here] else [], PathsOf(hook, item, here));
    }

    /** `_text` and `_leaf`. */
    method RepairLeaf(a: Atom, path: Text) returns (r: Atom)
      modifies this
      ensures r == LeafRepaired(hook, a)
      ensures paths == old(paths) + if LeafIsBad(hook, a) then [path] else []
    {
      match a {
        case Str(text) =>
          r := RepairText(text, path);
        case Number(_) =>
          r := a;
        case Opaque(id) =>
          r := a;
          if hook.Some? {
            var converted := hook.value(id);
            if converted.Str? && HasSurrogate(converted.text) {
              r := RepairText(converted.text, path);
            }
          }
      }
    }

    method RepairText(text: Text, path: Text) returns (r: Atom)
      modifies this
      ensures r == Str(ReplaceSurrogates(text))
      ensures paths == old(paths) + if HasSurrogate(text) then [path] else []
    {
      var repaired := ReplaceSurrogates(text);
      if repaired != text {
        paths := paths + [path];
      }
      r := Str(repaired);
    }
  }

  // ----- what follows

  /** Every leaf repaired, keys and everything else untouched. */
  function LeavesRepaired(hook: Hook, v: Value): Value {
    match v
    case Leaf(a) => Leaf(LeafRepaired(hook, a))
    case Mapping(keys, items) =>
      Mapping(keys, seq(|items|, i requires 0 <= i < |items| => LeavesRepaired(hook, items[i])))
    case Listing(items) => Listing(seq(|items|, i requires 0 <= i < |items| => LeavesRepaired(hook, items[i])))
    case _ => v
  }

  lemma {:induction false} RepairedAt(hook: Hook, items: seq<Value>, i: nat)
    requires i < |items|
    ensures AllRepaired(hook, items)[i] == Repaired(hook, items[i])
  {
    var last := |items| - 1;
    if i < last {
      RepairedAt(hook, items[..last], i);
    }
  }

  /** The two repair walks agree on dumped data: the output layer's is the domain's key repair followed
      by the repair of every leaf. */
  lemma {:induction false} TheTwoWalksAgree(hook: Hook, v: Value)
    requires IsJson(v)
    ensures IsPlain(v)
    ensures Repaired(hook, v) == LeavesRepaired(hook, KeysRepaired(v))
  {
    if !v.Leaf? {
      forall i | 0 <= i < |v.items|
        ensures IsPlain(v.items[i])
        ensures AllRepaired(hook, v.items)[i] == LeavesRepaired(hook, KeysRepaired(v.items[i]))
      {
        TheTwoWalksAgree(hook, v.items[i]);
        RepairedAt(hook, v.items, i);
      }
      assert Repaired(hook, v).items == LeavesRepaired(hook, KeysRepaired(v)).items;
    }
  }

  /** As many members everywhere: mappings stay mappings, lists and tuples are lists. */
  ghost predicate SameMembers(v: Value, r: Value) {
    && (v.Leaf? <==> r.Leaf?)
    && (v.Mapping? <==> r.Mapping?)
    && (v.Mapping? ==> |r.keys| == |v.keys|)
    && (!v.Leaf? ==> |r.items| == |v.items| && forall i :: 0 <= i < |v.items| ==> SameMembers(v.items[i], r.items[i]))
  }

  /** The repaired data is dumped data holding no surrogate anywhere, and has the members it had. */
  lemma {:induction false} RepairedIsClean(hook: Hook, v: Value)
    requires IsPlain(v)
    ensures var r := Repaired(hook, v);
      IsJson(r) && !HoldsSurrogate(hook, r) && SameMembers(v, r)
  {
    if !v.Leaf? {
      var r := Repaired(hook, v);
      forall i | 0 <= i < |v.items|
        ensures IsJson(r.items[i]) && !HoldsSurrogate(hook, r.items[i]) && SameMembers(v.items[i], r.items[i])
      {
        RepairedAt(hook, v.items, i);
        RepairedIsClean(hook, v.items[i]);
      }
      if v.Mapping? {
        NamesProperties(v.keys);
      }
    }
  }

  /** Data that held no surrogate comes back as it was. */
  lemma {:induction false} CleanDataIsKept(hook: Hook, v: Value)
    requires IsJson(v)
    ensures IsPlain(v)
    ensures !HoldsSurrogate(hook, v) <==> Repaired(hook, v) == v
  {
    TheTwoWalksAgree(hook, v);
    var r := Repaired(hook, v);
    if HoldsSurrogate(hook, v) {
      RepairedIsClean(hook, v);
    } else if !v.Leaf? {
      forall i | 0 <= i < |v.items|
        ensures r.items[i] == v.items[i] && !BadKeyAt(v, i)
      {
        RepairedAt(hook, v.items, i);
        CleanDataIsKept(hook, v.items[i]);
      }
      assert r.items == v.items;
      if v.Mapping? {
        forall i | 0 <= i < |v.keys|
          ensures !HasSurrogate(v.keys[i])
        {
          assert !BadKeyAt(v, i);
        }
        NamesOfCleanKeys(v.keys);
      }
    }
  }

  /** `repair_surrogates`: the value itself when nothing held a surrogate, else the value repaired with
      the paths of what was replaced, each once. */
  method RepairSurrogates(v: Value) returns (r: Value, replaced: seq<Text>)
    requires IsPlain(v)
    ensures r == if HoldsSurrogate(None, v) then Repaired(None, v) else v
    ensures !HoldsSurrogate(None, r)
    ensures replaced == Unique(PathsOf(None, v, []))
    ensures forall p :: p in replaced <==> NamesABadPlace(None, v, p)
    ensures replaced == [] <==> !HoldsSurrogate(None, v)
    ensures Distinct(replaced) && forall p :: p in replaced ==> IsPrintable(p)
  {
    var repairer := new Repairer(None);
    var repaired := repairer.Repair(v, []);
    var paths := repairer.paths;
    assert paths == PathsOf(None, v, []);
    PathsTellSurrogates(None, v, []);
    PathsArePrintable(None, v, []);
    RepairedIsClean(None, v);
    UniqueProperties(paths);
    PathsNameBadPlaces(None, v);
    if paths == [] {
      return v, [];
    }
    assert paths[0] in paths && paths[0] in Unique(paths);
    return repaired, Unique(paths);
  }

  // ----- JSON bytes

  datatype JsonBytes = JsonBytes(data: seq<Byte>, replaced: seq<Text>) | EncodeError

  /** `json_bytes`, over any encoder: what the encoder takes is not walked again; what it refuses is
      repaired only where it holds a surrogate, and then the repaired data is what is encoded. */
  method JsonBytesOf(hook: Hook, dumps: Value -> Option<seq<Byte>>, v: Value) returns (r: JsonBytes)
    requires IsPlain(v)
    ensures dumps(v).Some? ==> r == JsonBytes(dumps(v).value, [])
    ensures dumps(v).None? && !HoldsSurrogate(hook, v) ==> r == EncodeError
    ensures dumps(v).None? && HoldsSurrogate(hook, v) ==>
      r == match dumps(Repaired(hook, v))
           case Some(data) => JsonBytes(data, Unique(PathsOf(hook, v, [])))
           case None => EncodeError
    ensures r.JsonBytes? && dumps(v).None? ==> forall p :: p in r.replaced <==> NamesABadPlace(hook, v, p)
  {
    var data := dumps(v);
    if data.Some? {
      return JsonBytes(data.value, []);
    }
    var repairer := new Repairer(hook);
    var repaired := repairer.Repair(v, []);
    var paths := repairer.paths;
    assert paths == PathsOf(hook, v, []);
    PathsTellSurrogates(hook, v, []);
    if paths == [] {
      return EncodeError;
    }
    data := dumps(repaired);
    UniqueProperties(paths);
    PathsNameBadPlaces(hook, v);
    return match data case Some(bytes) => JsonBytes(bytes, Unique(paths)) case None => EncodeError;
  }

  /** A leaf somewhere is written repaired. */
  predicate HoldsBadLeaf(hook: Hook, v: Value) {
    match v
    case Leaf(a) => LeafIsBad(hook, a)
    case _ => exists i :: 0 <= i < |v.items| && HoldsBadLeaf(hook, v.items[i])
  }

  /** Where only keys are bad, the output layer encodes the very data `to_dict` gives: both name every
      repaired key alike. */
  lemma {:induction false} BadKeysAloneAreNamedAlike(hook: Hook, v: Value)
    requires IsJson(v) && !HoldsBadLeaf(hook, v)
    ensures Repaired(hook, v) == KeysRepaired(v)
  {
    if !v.Leaf? {
      forall i | 0 <= i < |v.items|
        ensures AllRepaired(hook, v.items)[i] == KeysRepaired(v.items[i])
      {
        BadKeysAloneAreNamedAlike(hook, v.items[i]);
        RepairedAt(hook, v.items, i);
      }
      assert AllRepaired(hook, v.items) == KeysRepaired(v).items;
    }
  }

  // ----- records

  /** Renaming keys leaves the leaves alone. */
  lemma {:induction false} BadLeavesStay(hook: Hook, v: Value)
    requires IsJson(v)
    ensures HoldsBadLeaf(hook, KeysRepaired(v)) <==> HoldsBadLeaf(hook, v)
  {
    if !v.Leaf? {
      forall i | 0 <= i < |v.items|
        ensures HoldsBadLeaf(hook, KeysRepaired(v).items[i]) <==> HoldsBadLeaf(hook, v.items[i])
      {
        BadLeavesStay(hook, v.items[i]);
      }
    }
  }

  /** `json_bytes` of some data, as `record_json_bytes` returns it. */
  ghost function Encoded(dumps: Value -> Option<seq<Byte>>, v: Value, replaced: seq<Text>): JsonBytes {
    match dumps(v)
    case Some(data) => JsonBytes(data, replaced)
    case None => EncodeError
  }

  /** `record_json_bytes`, over any encoder that refuses surrogates: the bytes are those of the repaired dump, and
      of what `to_dict` gives, whenever that has nothing to repair in a value. */
  method RecordJsonBytes(s: Schema, json: Atom -> Atom, dumps: Value -> Option<seq<Byte>>, record: Value)
    returns (r: JsonBytes)
    requires WellTyped(s, record) && FieldsNamed(s)
    requires forall v :: HoldsSurrogate(None, v) ==> dumps(v).None?
    ensures var dumped := Dumped(s, json, record);
      && IsPlain(dumped)
      && r == Encoded(dumps, Repaired(None, dumped), Unique(PathsOf(None, dumped, [])))
    ensures var toDict := KeysRepaired(Dumped(s, json, record));
      !HoldsBadLeaf(None, toDict) ==>
        r == Encoded(dumps, toDict, Unique(PathsOf(None, Dumped(s, json, record), [])))
    ensures r.JsonBytes? ==> forall p :: p in r.replaced <==> NamesABadPlace(None, Dumped(s, json, record), p)
  {
    var dumped := ToDictKeepingSurrogateKeys(s, json, record);
    DumpedIsJson(s, json, record);
    CleanDataIsKept(None, dumped);
    PathsTellSurrogates(None, dumped, []);
    PathsNameBadPlaces(None, dumped);
    UniqueProperties(PathsOf(None, dumped, []));
    BadLeavesStay(None, dumped);
    if !HoldsBadLeaf(None, dumped) {
      BadKeysAloneAreNamedAlike(None, dumped);
    }
    r := JsonBytesOf(None, dumps, dumped);
  }

  /** `repair_record`: the repaired dump, without a surrogate, and the paths of what was replaced. */
  method RepairRecord(s: Schema, json: Atom -> Atom, record: Value) returns (r: Value, replaced: seq<Text>)
    requires WellTyped(s, record) && FieldsNamed(s)
    ensures r == Repaired(None, Dumped(s, json, record)) && !HoldsSurrogate(None, r)
    ensures replaced == [] <==> !HoldsSurrogate(None, Dumped(s, json, record))
    ensures forall p :: p in replaced <==> NamesABadPlace(None, Dumped(s, json, record), p)
  {
    var dumped := ToDictKeepingSurrogateKeys(s, json, record);
    DumpedIsJson(s, json, record);
    CleanDataIsKept(None, dumped);
    r, replaced := RepairSurrogates(dumped);
  }
}
