/** Surrogate keys swapped for placeholders while pydantic dumps, and back, after domain/records.py. */
module KeyMasks {
  import opened Texts
  import opened FreshNames
  import opened Surrogates
  import opened TypeSearch
  import opened Values
  import opened Dump

  /** NUL and a number. */
  function Placeholder(n: nat): Text {
    [NUL] + Decimal(n)
  }

  lemma PlaceholdersInjective()
    ensures Injective(Placeholder)
  {
    forall m: nat, n: nat | Placeholder(m) == Placeholder(n)
      ensures m == n
    {
      assert Placeholder(m)[1..] == Decimal(m) && Placeholder(n)[1..] == Decimal(n);
      DecimalInjective(m, n);
    }
  }

  /** The first number, from `first` on, whose placeholder is not taken. */
  method FreeNumber(taken: set<Text>, first: nat) returns (number: nat)
    ensures first <= number && Placeholder(number) !in taken
    ensures forall n: nat :: first <= n < number ==> Placeholder(n) in taken
  {
    PlaceholdersInjective();
    ghost var free := FirstFree(Placeholder, taken, first);
    number := first;
    while Placeholder(number) in taken
      invariant first <= number <= free
      decreases free - number
    {
      number := number + 1;
    }
  }

  lemma PlaceholderIsNoName(n: nat)
    ensures !HasSurrogate(Placeholder(n)) && !IsIdentifier(Placeholder(n))
  {
    assert Placeholder(n)[0] == NUL;
  }

  /** `_string_keys`: every mapping key the walk reaches. */
  function StringKeys(s: Schema, v: Value): set<Text> {
    (if v.Mapping? then set k | k in v.keys else {}) +
    (if v.Leaf? then {} else
       set i, k | 0 <= i < |v.items| && Walked(s, v, i) && k in StringKeys(s, v.items[i]) :: k)
  }

  // ----- what masking means

  ghost predicate StandsFor(originals: map<Text, Text>, placeholder: Text, key: Text) {
    if HasSurrogate(key) then placeholder in originals && originals[placeholder] == key else placeholder == key
  }

  /** `r` is `v` with every bad key replaced by a placeholder for it, no two keys of a mapping alike. */
  ghost predicate IsMasked(s: Schema, originals: map<Text, Text>, v: Value, r: Value)
    decreases v, 1
  {
    match v
    case Leaf(_) => r == v
    case Mapping(keys, items) =>
      && r.Mapping?
      && |r.keys| == |keys|
      && Distinct(r.keys)
      && (forall i :: 0 <= i < |keys| ==> StandsFor(originals, r.keys[i], keys[i]))
      && |r.items| == |v.items| && MaskedTo(s, originals, v, r.items)
    case Listing(_) => r.Listing? && |r.items| == |v.items| && MaskedTo(s, originals, v, r.items)
    case Tupling(_) => r.Tupling? && |r.items| == |v.items| && MaskedTo(s, originals, v, r.items)
    case Record(m, _) => r.Record? && r.model == m && |r.items| == |v.items| && MaskedTo(s, originals, v, r.items)
  }

  /** The first members are masked; one the walk skips is the very value it was. */
  ghost predicate MaskedTo(s: Schema, originals: map<Text, Text>, v: Value, items: seq<Value>)
    requires !v.Leaf?
    decreases v, 0
  {
    && |items| <= |v.items|
    && forall i :: 0 <= i < |items| ==>
         if Walked(s, v, i) then IsMasked(s, originals, v.items[i], items[i]) else items[i] == v.items[i]
  }

  ghost predicate Extends(small: map<Text, Text>, large: map<Text, Text>) {
    forall p :: p in small ==> p in large && large[p] == small[p]
  }

  /** Placeholders handed out later do not disturb what is masked already. */
  lemma {:induction false} MaskedStays(s: Schema, small: map<Text, Text>, large: map<Text, Text>, v: Value, r: Value)
    requires Extends(small, large) && IsMasked(s, small, v, r)
    ensures IsMasked(s, large, v, r)
  {
    if !v.Leaf? {
      forall i | 0 <= i < |v.items| && Walked(s, v, i)
        ensures IsMasked(s, large, v.items[i], r.items[i])
      {
        MaskedStays(s, small, large, v.items[i], r.items[i]);
      }
    }
  }

  // ----- unmasking

  function Original(originals: map<Text, Text>, key: Text): Text {
    if key in originals then originals[key] else key
  }

  ghost function Unmasked(originals: map<Text, Text>, d: Value): Value {
    match d
    case Mapping(keys, items) =>
      Mapping(seq(|keys|, i requires 0 <= i < |keys| => Original(originals, keys[i])),
              seq(|items|, i requires 0 <= i < |items| => Unmasked(originals, items[i])))
    case Listing(items) => Listing(seq(|items|, i requires 0 <= i < |items| => Unmasked(originals, items[i])))
    case _ => d
  }

  /** Putting the original keys back makes no two keys of a mapping equal. */
  ghost predicate Separable(originals: map<Text, Text>, d: Value) {
    && (d.Mapping? ==>
          && |d.keys| == |d.items|
          && forall i, j :: 0 <= i < j < |d.keys| ==> Original(originals, d.keys[i]) != Original(originals, d.keys[j]))
    && (!d.Leaf? ==> forall i :: 0 <= i < |d.items| ==> Separable(originals, d.items[i]))
  }

  lemma {:induction false} NoMappingIsMasked(s: Schema, originals: map<Text, Text>, v: Value)
    requires !HoldsMapping(v)
    ensures IsMasked(s, originals, v, v)
    ensures StringKeys(s, v) == {}
  {
    if !v.Leaf? {
      forall i | 0 <= i < |v.items|
        ensures IsMasked(s, originals, v.items[i], v.items[i])
        ensures StringKeys(s, v.items[i]) == {}
      {
        NoMappingIsMasked(s, originals, v.items[i]);
      }
    }
  }

  /** A table of placeholders: none is a key, a field name or a bad text. */
  ghost predicate IsTable(originals: map<Text, Text>, recordKeys: set<Text>) {
    && originals.Keys !! recordKeys
    && forall p :: p in originals ==> !HasSurrogate(p) && !IsIdentifier(p)
  }

  /** A part, masked or skipped, is masked under the relation. */
  lemma PartIsMasked(s: Schema, originals: map<Text, Text>, v: Value, r: Value, i: nat)
    requires WellTyped(s, v) && IsMasked(s, originals, v, r)
    requires !v.Leaf? && i < |v.items|
    ensures !r.Leaf? && i < |r.items| && IsMasked(s, originals, v.items[i], r.items[i])
    ensures StringKeys(s, v.items[i]) <= StringKeys(s, v)
  {
    if !Walked(s, v, i) {
      SkippedHoldsNoMapping(s, v, i);
      NoMappingIsMasked(s, originals, v.items[i]);
    }
  }

  lemma {:induction false} MaskedMatches(s: Schema, originals: map<Text, Text>, v: Value, r: Value, a: Annotation)
    requires WellTyped(s, v) && IsMasked(s, originals, v, r)
    requires Matches(v, a)
    ensures Matches(r, a)
    decreases v, a
  {
    match a {
      case Annotated(base) =>
        MaskedMatches(s, originals, v, r, base);
      case Generic(args) =>
        if MatchesSome(v, args) {
          MaskedMatchesSome(s, originals, v, r, args);
        } else {
          forall i | 0 <= i < |v.items|
            ensures MatchesSome(r.items[i], args)
          {
            PartIsMasked(s, originals, v, r, i);
            MaskedMatchesSome(s, originals, v.items[i], r.items[i], args);
          }
        }
      case _ =>
    }
  }

  lemma {:induction false} MaskedMatchesSome(s: Schema, originals: map<Text, Text>, v: Value, r: Value,
                                             args: seq<Annotation>)
    requires WellTyped(s, v) && IsMasked(s, originals, v, r)
    requires MatchesSome(v, args)
    ensures MatchesSome(r, args)
    decreases v, args
  {
    var k :| 0 <= k < |args| && args[k] != EllipsisMark && Matches(v, args[k]);
    MaskedMatches(s, originals, v, r, args[k]);
  }

  /** A masked value is as well typed as the value and has no bad key. */
  lemma {:induction false} MaskedIsClean(s: Schema, originals: map<Text, Text>, v: Value, r: Value)
    requires WellTyped(s, v) && IsMasked(s, originals, v, r)
    requires IsTable(originals, StringKeys(s, v))
    ensures WellTyped(s, r) && !HasBadKey(r)
  {
    if !v.Leaf? {
      forall i | 0 <= i < |v.items|
        ensures WellTyped(s, r.items[i]) && !HasBadKey(r.items[i])
        ensures forall a :: Matches(v.items[i], a) ==> Matches(r.items[i], a)
      {
        PartIsMasked(s, originals, v, r, i);
        MaskedIsClean(s, originals, v.items[i], r.items[i]);
        forall a | Matches(v.items[i], a)
          ensures Matches(r.items[i], a)
        {
          MaskedMatches(s, originals, v.items[i], r.items[i], a);
        }
      }
    }
  }

  /** Dumping the masked value and unmasking the result is dumping the value: every mapping has exactly
      its own keys again, and none lost an entry on the way. */
  lemma {:induction false} UnmaskUndoesMask(s: Schema, json: Atom -> Atom, originals: map<Text, Text>, v: Value,
                                            r: Value)
    requires WellTyped(s, v) && WellTyped(s, r) && FieldsNamed(s)
    requires IsMasked(s, originals, v, r)
    requires IsTable(originals, StringKeys(s, v))
    ensures Separable(originals, Dumped(s, json, r))
    ensures Unmasked(originals, Dumped(s, json, r)) == Dumped(s, json, v)
  {
    if !v.Leaf? {
      var d, goal := Dumped(s, json, r), Dumped(s, json, v);
      var u := Unmasked(originals, d);
      forall i | 0 <= i < |v.items|
        ensures Separable(originals, d.items[i])
        ensures u.items[i] == goal.items[i]
      {
        PartIsMasked(s, originals, v, r, i);
        UnmaskUndoesMask(s, json, originals, v.items[i], r.items[i]);
      }
      assert u.items == goal.items;
      if d.Mapping? {
        forall i | 0 <= i < |d.keys|
          ensures Original(originals, d.keys[i]) == goal.keys[i]
        {
          if v.Mapping? {
            assert v.keys[i] in StringKeys(s, v);
          } else {
            assert IsIdentifier(s[v.model][i].name);
          }
        }
        assert u.keys == goal.keys;
        DumpedIsJson(s, json, v);
      }
    }
  }

  // ----- the mask itself

  /** The first `n` entries are masked, under keys that are all taken and all different. */
  ghost predicate EntriesMasked(s: Schema, originals: map<Text, Text>, taken: set<Text>, v: Value, r: Value, n: nat)
    requires v.Mapping?
  {
    && r.Mapping? && |r.keys| == |r.items| == n <= |v.keys|
    && Distinct(r.keys)
    && (forall j :: 0 <= j < n ==> StandsFor(originals, r.keys[j], v.keys[j]) && r.keys[j] in taken)
    && MaskedTo(s, originals, v, r.items)
  }

  lemma MaskedToGrows(s: Schema, small: map<Text, Text>, large: map<Text, Text>, v: Value, items: seq<Value>,
                      item: Value)
    requires !v.Leaf? && |items| < |v.items|
    requires Extends(small, large) && MaskedTo(s, small, v, items)
    requires if Walked(s, v, |items|) then IsMasked(s, large, v.items[|items|], item) else item == v.items[|items|]
    ensures MaskedTo(s, large, v, items + [item])
  {
    forall j | 0 <= j < |items| && Walked(s, v, j)
      ensures IsMasked(s, large, v.items[j], items[j])
    {
      MaskedStays(s, small, large, v.items[j], items[j]);
    }
  }

  /** The next entry's key is new whether it is a placeholder or was good already. */
  lemma NextKeyIsNew(recordKeys: set<Text>, small: map<Text, Text>, large: map<Text, Text>, keys: seq<Text>,
                     masked: seq<Text>, key: Text)
    requires Distinct(keys) && |masked| < |keys| && IsTable(large, recordKeys)
    requires forall i :: 0 <= i < |keys| ==> keys[i] in recordKeys
    requires forall j :: 0 <= j < |masked| ==>
      StandsFor(small, masked[j], keys[j]) && masked[j] in recordKeys + small.Keys
    requires Extends(small, large) && StandsFor(large, key, keys[|masked|])
    requires HasSurrogate(keys[|masked|]) ==> key !in recordKeys + small.Keys
    ensures key !in masked
  {
    hide HasSurrogate;
    forall j | 0 <= j < |masked|
      ensures masked[j] != key
    {
      assert StandsFor(small, masked[j], keys[j]);
      assert keys[j] != keys[|masked|];
    }
  }

  lemma KeysAreDistinct(s: Schema, v: Value)
    requires WellTyped(s, v) && v.Mapping?
    ensures Distinct(v.keys)
  {
  }

  lemma KeysAreStringKeys(s: Schema, v: Value)
    requires v.Mapping?
    ensures forall i :: 0 <= i < |v.keys| ==> v.keys[i] in StringKeys(s, v)
  {
  }

  /** An entry under a new key goes with those before it. */
  lemma EntriesGrow(s: Schema, small: map<Text, Text>, large: map<Text, Text>, taken: set<Text>, taken': set<Text>,
                    v: Value, r: Value, n: nat, key: Text, item: Value)
    requires v.Mapping? && n < |v.keys| == |v.items| && EntriesMasked(s, small, taken, v, r, n)
    requires taken <= taken' && Extends(small, large)
    requires key !in r.keys && key in taken' && StandsFor(large, key, v.keys[n]) && IsMasked(s, large, v.items[n], item)
    ensures EntriesMasked(s, large, taken', v, Put(r, key, item), n + 1)
  {
    MaskedToGrows(s, small, large, v, r.items, item);
    hide IsMasked, MaskedTo, HasSurrogate;
    forall j | 0 <= j < n
      ensures StandsFor(large, r.keys[j], v.keys[j])
    {
      assert StandsFor(small, r.keys[j], v.keys[j]);
    }
  }

  lemma KeyIsTaken(recordKeys: set<Text>, originals: map<Text, Text>, key: Text, original: Text)
    requires StandsFor(originals, key, original) && original in recordKeys
    ensures key in recordKeys + originals.Keys
  {
  }

  lemma ExtendsKeys(small: map<Text, Text>, large: map<Text, Text>)
    requires Extends(small, large)
    ensures small.Keys <= large.Keys
  {
  }

  /** One more entry. */
  lemma EntryMasked(s: Schema, recordKeys: set<Text>, small: map<Text, Text>, large: map<Text, Text>, taken: set<Text>,
                    v: Value, r: Value, n: nat, key: Text, item: Value)
    requires v.Mapping? && WellTyped(s, v) && n < |v.keys| && StringKeys(s, v) <= recordKeys
    requires EntriesMasked(s, small, recordKeys + small.Keys, v, r, n)
    requires taken == recordKeys + large.Keys && Extends(small, large) && IsTable(large, recordKeys)
    requires StandsFor(large, key, v.keys[n])
    requires HasSurrogate(v.keys[n]) ==> key !in recordKeys + small.Keys
    requires IsMasked(s, large, v.items[n], item)
    ensures key !in r.keys
    ensures EntriesMasked(s, large, taken, v, Put(r, key, item), n + 1)
  {
    KeysAreStringKeys(s, v);
    KeysAreDistinct(s, v);
    KeyIsTaken(recordKeys, large, key, v.keys[n]);
    hide WellTyped, StringKeys, IsMasked, MaskedTo, HasSurrogate, Put, StandsFor, IsTable, Distinct, Extends;
    NextKeyIsNew(recordKeys, small, large, v.keys, r.keys, key);
    assert recordKeys + small.Keys <= taken by { ExtendsKeys(small, large); }
    EntriesGrow(s, small, large, recordKeys + small.Keys, taken, v, r, n, key, item);
  }

  class KeyMask {
    const schema: Schema
    /** The keys of the record. */
    ghost const recordKeys: set<Text>
    var taken: set<Text>
    var originals: map<Text, Text>

    /** Taken are exactly the record's keys and the placeholders handed out, and no placeholder is a
        key of the record. */
    ghost predicate Valid()
      reads this
    {
      taken == recordKeys + originals.Keys && IsTable(originals, recordKeys)
    }

    constructor (s: Schema, record: Value)
      ensures Valid() && schema == s && recordKeys == StringKeys(s, record) && originals == map[]
    {
      schema := s;
      recordKeys := StringKeys(s, record);
      taken := StringKeys(s, record);
      originals := map[];
    }

    /** `_stand_in`: a bad key gets a placeholder equal to no key of the record and to none before it. */
    method StandIn(key: Text) returns (r: Text)
      requires Valid()
      requires key in recordKeys
      modifies this
      ensures Valid() && Extends(old(originals), originals)
      ensures StandsFor(originals, r, key)
      ensures if HasSurrogate(key)
              then r !in old(taken) && originals == old(originals)[r := key]
              else originals == old(originals)
    {
      if !HasSurrogate(key) {
        return key;
      }
      var number := FreeNumber(taken, |originals|);
      r := Placeholder(number);
      PlaceholderIsNoName(number);
      taken := taken + {r};
      originals := originals[r := key];
    }

    /** `mask`: the value with every bad key replaced; the table only grows. */
    method Mask(v: Value) returns (r: Value)
      requires Valid()
      requires WellTyped(schema, v) && StringKeys(schema, v) <= recordKeys
      modifies this
      ensures Valid() && Extends(old(originals), originals)
      ensures IsMasked(schema, originals, v, r)
      decreases v
    {
      match v {
        case Leaf(_) =>
          r := v;
        case Mapping(_, _) =>
          r := MaskMapping(v);
        case Listing(_) =>
          var items := MaskItems(v);
          r := Listing(items);
        case Tupling(_) =>
          var items := MaskItems(v);
          r := Tupling(items);
        case Record(m, _) =>
          var items := MaskItems(v);
          r := Record(m, items);
      }
    }

    /** The members of a list, tuple or record, those the walk looks at masked. */
    method MaskItems(v: Value) returns (items: seq<Value>)
      requires Valid()
      requires v.Listing? || v.Tupling? || v.Record?
      requires WellTyped(schema, v) && StringKeys(schema, v) <= recordKeys
      modifies this
      ensures Valid() && Extends(old(originals), originals)
      ensures |items| == |v.items| && MaskedTo(schema, originals, v, items)
      decreases v, 0
    {
      items := [];
      for i := 0 to |v.items|
        invariant Valid() && Extends(old(originals), originals)
        invariant |items| == i && MaskedTo(schema, originals, v, items)
      {
        ghost var before := originals;
        var item := v.items[i];
        if Walked(schema, v, i) {
          item := Mask(item);
        }
        MaskedToGrows(schema, before, originals, v, items, item);
        items := items + [item];
      }
    }

    /** The mapping with its bad keys replaced, entry by entry; no entry collapses into another. */
    method MaskMapping(v: Value) returns (r: Value)
      requires Valid()
      requires v.Mapping? && WellTyped(schema, v) && StringKeys(schema, v) <= recordKeys
      modifies this
      ensures Valid() && Extends(old(originals), originals)
      ensures IsMasked(schema, originals, v, r)
      decreases v, 0
    {
      r := Mapping([], []);
      for i := 0 to |v.keys|
        invariant Valid() && Extends(old(originals), originals)
        invariant EntriesMasked(schema, originals, taken, v, r, i)
      {
        ghost var before := originals;
        assert v.keys[i] in StringKeys(schema, v);
        var key := StandIn(v.keys[i]);
        var item := Mask(v.items[i]);
        EntryMasked(schema, recordKeys, before, originals, taken, v, r, i, key, item);
        r := Put(r, key, item);
      }
    }
  }

  // ----- dumping a record

  /** `unmask`: the dumped data with each placeholder turned back into its key. */
  method Unmask(originals: map<Text, Text>, d: Value) returns (r: Value)
    requires Separable(originals, d)
    ensures r == Unmasked(originals, d)
    decreases d
  {
    match d {
      case Mapping(keys, items) =>
        r := Mapping([], []);
        ghost var goal := Unmasked(originals, d);
        for i := 0 to |keys|
          invariant r.Mapping? && r.keys == goal.keys[..i] && r.items == goal.items[..i]
        {
          var item := Unmask(originals, items[i]);
          r := Put(r, Original(originals, keys[i]), item);
        }
      case Listing(items) =>
        var restored: seq<Value> := [];
        for i := 0 to |items|
          invariant restored == Unmasked(originals, d).items[..i]
        {
          var item := Unmask(originals, items[i]);
          restored := restored + [item];
        }
        r := Listing(restored);
      case _ =>
        r := d;
    }
  }

  /** `_dump_keeping_keys`: pydantic is handed a record without a bad key, and the result is the dump it
      could not have made itself. */
  method DumpKeepingKeys(s: Schema, json: Atom -> Atom, record: Value) returns (r: Value)
    requires WellTyped(s, record) && FieldsNamed(s)
    ensures r == Dumped(s, json, record)
  {
    var mask := new KeyMask(s, record);
    var masked := mask.Mask(record);
    MaskedIsClean(s, mask.originals, record, masked);
    UnmaskUndoesMask(s, json, mask.originals, record, masked);
    r := Unmask(mask.originals, ModelDump(s, json, masked));
  }

  /** `to_dict_keeping_surrogate_keys`: the clean path gives the same dump. */
  method ToDictKeepingSurrogateKeys(s: Schema, json: Atom -> Atom, record: Value) returns (r: Value)
    requires WellTyped(s, record) && FieldsNamed(s)
    ensures r == Dumped(s, json, record)
  {
    PruningLosesNoKey(s, record);
    if !HoldsSurrogateKey(s, record) {
      return ModelDump(s, json, record);
    }
    r := DumpKeepingKeys(s, json, record);
  }

  /** `PSRecord.to_dict`: on either path, the dump with every bad key repaired. */
  method ToDict(s: Schema, json: Atom -> Atom, record: Value) returns (r: Value)
    requires WellTyped(s, record) && FieldsNamed(s)
    ensures r == KeysRepaired(Dumped(s, json, record))
    ensures IsJson(r) && !HasBadKey(r) && SameShape(Dumped(s, json, record), r)
    ensures !HasBadKey(record) ==> r == Dumped(s, json, record)
  {
    PruningLosesNoKey(s, record);
    DumpedIsJson(s, json, record);
    KeysRepairedProperties(Dumped(s, json, record));
    if !HoldsSurrogateKey(s, record) {
      return ModelDump(s, json, record);
    }
    var dumped := DumpKeepingKeys(s, json, record);
    r := RepairKeys(dumped);
  }
}
