/** The paths the repair walk reports, after adapters/native/record_json.py, and the places they lead to. */
module RepairPaths {
  import opened Texts
  import opened Surrogates
  import opened Values
  import DottedNames

  /** orjson's `default` hook on a leaf orjson does not write natively; `str` for plain values. */
  type Hook = Option<int -> Atom>

  predicate LeafIsBad(hook: Hook, a: Atom) {
    match a
    case Str(text) => HasSurrogate(text)
    case Number(_) => false
    case Opaque(id) => hook.Some? && hook.value(id).Str? && HasSurrogate(hook.value(id).text)
  }

  /** Plain data: mappings with one item per key and no key twice, lists, tuples and leaves. */
  ghost predicate IsPlain(v: Value) {
    match v
    case Leaf(_) => true
    case Mapping(keys, items) =>
      |keys| == |items| && Distinct(keys) && forall i :: 0 <= i < |items| ==> IsPlain(items[i])
    case Record(_, _) => false
    case _ => forall i :: 0 <= i < |v.items| ==> IsPlain(v.items[i])
  }

  predicate BadKeyAt(v: Value, i: nat) {
    v.Mapping? && i < |v.keys| && HasSurrogate(v.keys[i])
  }

  /** A surrogate stands somewhere: in a key, a text, or the text a leaf is converted to. */
  predicate HoldsSurrogate(hook: Hook, v: Value) {
    match v
    case Leaf(a) => LeafIsBad(hook, a)
    case _ => exists i :: 0 <= i < |v.items| && (BadKeyAt(v, i) || HoldsSurrogate(hook, v.items[i]))
  }

  // ----- paths

  predicate IsPrintable(t: Text) {
    forall i :: 0 <= i < |t| ==> 0x20 <= t[i] <= 0x7E
  }

  /** `_ascii`: each character that is not printable ASCII as `?`. */
  function Ascii(segment: Text): (r: Text)
    ensures |r| == |segment| && IsPrintable(r)
    ensures forall i :: 0 <= i < |r| ==> r[i] == segment[i] || (r[i] == 0x3F && !(0x20 <= segment[i] <= 0x7E))
  {
    seq(|segment|, i requires 0 <= i < |segment| => if 0x20 <= segment[i] <= 0x7E then segment[i] else 0x3F)
  }

  /** `_join`. */
  function Join(path: Text, segment: Text): Text {
    if path == [] then segment else path + [DOT] + segment
  }

  /** The paths of everything replaced, in walking order. */
  ghost function PathsOf(hook: Hook, v: Value, path: Text): seq<Text>
    requires IsPlain(v)
    decreases v, 0
  {
    match v
    case Leaf(a) => if LeafIsBad(hook, a) then [path] else []
    case Mapping(keys, items) => EntriesPaths(hook, keys, Names(keys), items, path)
    case Listing(items) => ItemsPaths(hook, items, path)
    case Tupling(items) => ItemsPaths(hook, items, path)
  }

  /** Of a list's members, each under its index. */
  ghost function ItemsPaths(hook: Hook, items: seq<Value>, path: Text): seq<Text>
    requires forall i :: 0 <= i < |items| ==> IsPlain(items[i])
    decreases items
  {
    if items == [] then []
    else
      var last := |items| - 1;
      ItemsPaths(hook, items[..last], path) + PathsOf(hook, items[last], Join(path, Decimal(last)))
  }

  /** Of a mapping's entries, each under its new name, a renamed key before its item. */
  ghost function EntriesPaths(hook: Hook, keys: seq<Text>, names: seq<Text>, items: seq<Value>, path: Text): seq<Text>
    requires |keys| == |names| == |items|
    requires forall i :: 0 <= i < |items| ==> IsPlain(items[i])
    decreases items
  {
    if items == [] then []
    else
      var last := |items| - 1;
      var here := Join(path, Ascii(names[last]));
      EntriesPaths(hook, keys[..last], names[..last], items[..last], path)
      + EntryPaths(hook, keys[last], items[last], here)
  }

  ghost function EntryPaths(hook: Hook, key: Text, item: Value, here: Text): seq<Text>
    requires IsPlain(item)
    decreases item, 1
  {
    (if HasSurrogate(key) then [here] else []) + PathsOf(hook, item, here)
  }

  lemma PrefixStep<T>(s: seq<T>, i: nat)
    requires i <= |s|
    ensures i < |s| ==> s[..i + 1][..i] == s[..i] && s[..i + 1] == s[..i] + [s[i]]
    ensures i == |s| ==> s[..i] == s
  {
  }

  lemma Associate<T>(a: seq<T>, b: seq<T>, c: seq<T>)
    ensures a + b + c == a + (b + c)
  {
  }

  lemma ItemsPathsStep(hook: Hook, items: seq<Value>, path: Text, i: nat)
    requires i < |items| && forall j :: 0 <= j < |items| ==> IsPlain(items[j])
    ensures ItemsPaths(hook, items[..i + 1], path) ==
      ItemsPaths(hook, items[..i], path) + PathsOf(hook, items[i], Join(path, Decimal(i)))
  {
    PrefixStep(items, i);
  }

  lemma EntriesPathsStep(hook: Hook, keys: seq<Text>, names: seq<Text>, items: seq<Value>, path: Text, i: nat)
    requires |keys| == |names| == |items|
    requires i < |items| && forall j :: 0 <= j < |items| ==> IsPlain(items[j])
    ensures EntriesPaths(hook, keys[..i + 1], names[..i + 1], items[..i + 1], path) ==
      EntriesPaths(hook, keys[..i], names[..i], items[..i], path)
      + EntryPaths(hook, keys[i], items[i], Join(path, Ascii(names[i])))
  {
    PrefixStep(keys, i);
    PrefixStep(names, i);
    PrefixStep(items, i);
  }

  ghost predicate NoneHolds(hook: Hook, items: seq<Value>) {
    forall i :: 0 <= i < |items| ==> !HoldsSurrogate(hook, items[i])
  }

  lemma NoneHoldsStep(hook: Hook, items: seq<Value>)
    requires items != []
    ensures NoneHolds(hook, items) <==>
      NoneHolds(hook, items[..|items| - 1]) && !HoldsSurrogate(hook, items[|items| - 1])
  {
    hide HoldsSurrogate;
    var last := |items| - 1;
    assert forall i :: 0 <= i < last ==> items[..last][i] == items[i];
  }

  ghost predicate NoneIsBad(hook: Hook, keys: seq<Text>, items: seq<Value>)
    requires |keys| == |items|
  {
    forall i :: 0 <= i < |items| ==> !HasSurrogate(keys[i]) && !HoldsSurrogate(hook, items[i])
  }

  lemma NoneIsBadStep(hook: Hook, keys: seq<Text>, items: seq<Value>)
    requires |keys| == |items| && items != []
    ensures var last := |items| - 1;
      NoneIsBad(hook, keys, items) <==>
        NoneIsBad(hook, keys[..last], items[..last]) && !HasSurrogate(keys[last]) && !HoldsSurrogate(hook, items[last])
  {
    hide HoldsSurrogate, HasSurrogate;
    var last := |items| - 1;
    assert forall i :: 0 <= i < last ==> items[..last][i] == items[i] && keys[..last][i] == keys[i];
  }

  lemma EntriesPathsLast(hook: Hook, keys: seq<Text>, names: seq<Text>, items: seq<Value>, path: Text)
    requires |keys| == |names| == |items| && items != []
    requires forall i :: 0 <= i < |items| ==> IsPlain(items[i])
    ensures var last := |items| - 1;
      EntriesPaths(hook, keys, names, items, path) ==
        EntriesPaths(hook, keys[..last], names[..last], items[..last], path)
        + EntryPaths(hook, keys[last], items[last], Join(path, Ascii(names[last])))
  {
    hide EntryPaths, Join, Ascii, IsPlain;
  }

  lemma NothingIsBad(hook: Hook, keys: seq<Text>, names: seq<Text>, path: Text)
    requires keys == [] && names == []
    ensures EntriesPaths(hook, keys, names, [], path) == [] && NoneIsBad(hook, keys, [])
  {
  }

  /** A surrogate stands in one of the members. */
  lemma HoldsInMembers(hook: Hook, v: Value)
    requires !v.Leaf? && (v.Mapping? ==> |v.keys| == |v.items|)
    ensures !HoldsSurrogate(hook, v) <==>
      if v.Mapping? then NoneIsBad(hook, v.keys, v.items) else NoneHolds(hook, v.items)
  {
    hide HasSurrogate;
    assert forall i :: 0 <= i < |v.items| ==> BadKeyAt(v, i) == (v.Mapping? && HasSurrogate(v.keys[i]));
  }

  lemma LeafHolds(hook: Hook, a: Atom)
    ensures HoldsSurrogate(hook, Leaf(a)) <==> LeafIsBad(hook, a)
  {
  }

  /** No path is reported exactly when nothing held a surrogate. */
  lemma {:induction false} PathsTellSurrogates(hook: Hook, v: Value, path: Text)
    requires IsPlain(v)
    ensures PathsOf(hook, v, path) == [] <==> !HoldsSurrogate(hook, v)
    decreases v, 0
  {
    hide HoldsSurrogate, NoneIsBad, NoneHolds, EntriesPaths, ItemsPaths;
    match v {
      case Leaf(a) =>
        LeafHolds(hook, a);
      case Mapping(keys, items) =>
        EntriesTellSurrogates(hook, keys, Names(keys), items, path);
        HoldsInMembers(hook, v);
      case Listing(items) =>
        ItemsTellSurrogates(hook, items, path);
        HoldsInMembers(hook, v);
      case Tupling(items) =>
        ItemsTellSurrogates(hook, items, path);
        HoldsInMembers(hook, v);
    }
  }

  lemma {:induction false} ItemsTellSurrogates(hook: Hook, items: seq<Value>, path: Text)
    requires forall i :: 0 <= i < |items| ==> IsPlain(items[i])
    ensures ItemsPaths(hook, items, path) == [] <==> NoneHolds(hook, items)
    decreases items
  {
    if items != [] {
      var last := |items| - 1;
      ItemsTellSurrogates(hook, items[..last], path);
      PathsTellSurrogates(hook, items[last], Join(path, Decimal(last)));
      NoneHoldsStep(hook, items);
      hide PathsOf, HoldsSurrogate, NoneHolds, Join, Decimal, IsPlain;
    }
  }

  lemma {:induction false} EntriesTellSurrogates(hook: Hook, keys: seq<Text>, names: seq<Text>, items: seq<Value>,
                                                 path: Text)
    requires |keys| == |names| == |items|
    requires forall i :: 0 <= i < |items| ==> IsPlain(items[i])
    ensures EntriesPaths(hook, keys, names, items, path) == [] <==> NoneIsBad(hook, keys, items)
    decreases items
  {
    hide EntriesPaths, EntryPaths, HoldsSurrogate, HasSurrogate, NoneIsBad, Join, Ascii, IsPlain;
    if items == [] {
      NothingIsBad(hook, keys, names, path);
    } else {
      var last := |items| - 1;
      EntriesTellSurrogates(hook, keys[..last], names[..last], items[..last], path);
      EntryTellsSurrogates(hook, keys[last], items[last], Join(path, Ascii(names[last])));
      EntriesPathsLast(hook, keys, names, items, path);
      NoneIsBadStep(hook, keys, items);
    }
  }

  lemma {:induction false} EntryTellsSurrogates(hook: Hook, key: Text, item: Value, here: Text)
    requires IsPlain(item)
    ensures EntryPaths(hook, key, item, here) == [] <==> !HasSurrogate(key) && !HoldsSurrogate(hook, item)
    decreases item, 1
  {
    PathsTellSurrogates(hook, item, here);
    hide PathsOf, HoldsSurrogate, HasSurrogate, IsPlain;
  }

  ghost predicate ArePrintable(paths: seq<Text>) {
    forall p :: p in paths ==> IsPrintable(p)
  }

  lemma BothArePrintable(a: seq<Text>, b: seq<Text>)
    requires ArePrintable(a) && ArePrintable(b)
    ensures ArePrintable(a + b)
  {
  }

  lemma JoinIsPrintable(path: Text, segment: Text)
    requires IsPrintable(path) && IsPrintable(segment)
    ensures IsPrintable(Join(path, segment))
  {
  }

  lemma DecimalIsPrintable(n: nat)
    ensures IsPrintable(Decimal(n))
  {
  }

  lemma NothingIsPrintable(hook: Hook, keys: seq<Text>, names: seq<Text>, path: Text)
    requires keys == [] && names == []
    ensures ArePrintable(EntriesPaths(hook, keys, names, [], path))
  {
  }

  /** Every reported path is printable ASCII. */
  lemma {:induction false} PathsArePrintable(hook: Hook, v: Value, path: Text)
    requires IsPlain(v) && IsPrintable(path)
    ensures ArePrintable(PathsOf(hook, v, path))
    decreases v, 0
  {
    match v {
      case Leaf(_) =>
      case Mapping(keys, items) => EntriesArePrintable(hook, keys, Names(keys), items, path);
      case Listing(items) => ItemsArePrintable(hook, items, path);
      case Tupling(items) => ItemsArePrintable(hook, items, path);
    }
  }

  lemma {:induction false} ItemsArePrintable(hook: Hook, items: seq<Value>, path: Text)
    requires IsPrintable(path) && forall i :: 0 <= i < |items| ==> IsPlain(items[i])
    ensures ArePrintable(ItemsPaths(hook, items, path))
    decreases items
  {
    hide IsPlain, IsPrintable, Join, Decimal, PathsOf;
    if items != [] {
      var last := |items| - 1;
      var here := Join(path, Decimal(last));
      ItemsArePrintable(hook, items[..last], path);
      DecimalIsPrintable(last);
      JoinIsPrintable(path, Decimal(last));
      PathsArePrintable(hook, items[last], here);
      BothArePrintable(ItemsPaths(hook, items[..last], path), PathsOf(hook, items[last], here));
      hide ArePrintable;
    }
  }

  lemma {:induction false} EntriesArePrintable(hook: Hook, keys: seq<Text>, names: seq<Text>, items: seq<Value>,
                                               path: Text)
    requires |keys| == |names| == |items|
    requires IsPrintable(path) && forall i :: 0 <= i < |items| ==> IsPlain(items[i])
    ensures ArePrintable(EntriesPaths(hook, keys, names, items, path))
    decreases items
  {
    hide IsPlain, IsPrintable, Join, EntriesPaths, EntryPaths, ArePrintable;
    if items == [] {
      NothingIsPrintable(hook, keys, names, path);
    } else {
      var last := |items| - 1;
      var here := Join(path, Ascii(names[last]));
      EntriesArePrintable(hook, keys[..last], names[..last], items[..last], path);
      JoinIsPrintable(path, Ascii(names[last]));
      EntryIsPrintable(hook, keys[last], items[last], here);
      EntriesPathsLast(hook, keys, names, items, path);
      BothArePrintable(EntriesPaths(hook, keys[..last], names[..last], items[..last], path),
                       EntryPaths(hook, keys[last], items[last], here));
    }
  }

  lemma {:induction false} EntryIsPrintable(hook: Hook, key: Text, item: Value, here: Text)
    requires IsPlain(item) && IsPrintable(here)
    ensures ArePrintable(EntryPaths(hook, key, item, here))
    decreases item, 1
  {
    PathsArePrintable(hook, item, here);
    BothArePrintable(if HasSurrogate(key) then [here] else [], PathsOf(hook, item, here));
  }

  /** `dict.fromkeys`: each path once, in the order of first appearance. */
  function Unique(paths: seq<Text>): seq<Text> {
    if paths == [] then []
    else
      var last := |paths| - 1;
      if paths[last] in paths[..last] then Unique(paths[..last]) else Unique(paths[..last]) + [paths[last]]
  }

  lemma {:induction false} UniqueProperties(paths: seq<Text>)
    ensures Distinct(Unique(paths))
    ensures forall p :: p in Unique(paths) <==> p in paths
  {
    if paths != [] {
      var last := |paths| - 1;
      UniqueProperties(paths[..last]);
      assert paths == paths[..last] + [paths[last]];
    }
  }

  /** The order of first appearance: the paths of any first part of the list stand first. */
  lemma {:induction false} UniqueKeepsOrder(paths: seq<Text>, k: nat)
    requires k <= |paths|
    ensures Unique(paths[..k]) <= Unique(paths)
    ensures forall p :: p in Unique(paths[..k]) <==> p in paths[..k]
  {
    UniqueProperties(paths[..k]);
    if k == |paths| {
      assert paths[..k] == paths;
    } else {
      UniqueKeepsOrder(paths[..|paths| - 1], k);
      assert paths[..|paths| - 1][..k] == paths[..k];
    }
  }

  // ----- the places the paths lead to

  /** Where a place is: the members to go down through, each by its number. */
  type Address = seq<nat>

  /** A surrogate stood at the address: in a leaf, or in the key of the last member gone down to. */
  predicate IsBadPlace(hook: Hook, v: Value, a: Address)
    decreases v
  {
    if a == [] then v.Leaf? && LeafIsBad(hook, v.atom)
    else
      && !v.Leaf? && a[0] < |v.items|
      && ((|a| == 1 && BadKeyAt(v, a[0])) || IsBadPlace(hook, v.items[a[0]], a[1..]))
  }

  /** The addresses, from one level above. */
  function Under(i: nat, list: seq<Address>): (r: seq<Address>)
    ensures |r| == |list|
  {
    seq(|list|, k requires 0 <= k < |list| => [i] + list[k])
  }

  /** All the addresses, in walking order, a key before its item. */
  function AddressesOf(hook: Hook, v: Value): seq<Address>
    decreases v, 1, 0
  {
    match v
    case Leaf(a) => if LeafIsBad(hook, a) then [[]] else []
    case _ => MemberAddresses(hook, v, |v.items|)
  }

  /** Those in the first `n` members. */
  function MemberAddresses(hook: Hook, v: Value, n: nat): seq<Address>
    requires !v.Leaf? && n <= |v.items|
    decreases v, 0, n
  {
    if n == 0 then []
    else
      var i: nat := n - 1;
      var key := if BadKeyAt(v, i) then [[]] else [];
      MemberAddresses(hook, v, i) + Under(i, key + AddressesOf(hook, v.items[i]))
  }

  lemma UnderMembers(i: nat, list: seq<Address>)
    ensures forall a :: a in Under(i, list) <==> a != [] && a[0] == i && a[1..] in list
  {
    forall a
      ensures a in Under(i, list) <==> a != [] && a[0] == i && a[1..] in list
    {
      if a in Under(i, list) {
        var k :| 0 <= k < |list| && Under(i, list)[k] == a;
        assert a[1..] == list[k];
      }
      if a != [] && a[0] == i && a[1..] in list {
        var k :| 0 <= k < |list| && list[k] == a[1..];
        assert Under(i, list)[k] == [i] + a[1..] == a;
      }
    }
  }

  /** They are exactly the places where a surrogate stood. */
  lemma {:induction false} AddressesAreBadPlaces(hook: Hook, v: Value)
    ensures forall a :: a in AddressesOf(hook, v) <==> IsBadPlace(hook, v, a)
    decreases v, 1, 0
  {
    if !v.Leaf? {
      MembersAreBadPlaces(hook, v, |v.items|);
    }
  }

  lemma {:induction false} MembersAreBadPlaces(hook: Hook, v: Value, n: nat)
    requires !v.Leaf? && n <= |v.items|
    ensures forall a ::
      a in MemberAddresses(hook, v, n) <==> a != [] && a[0] < n && IsBadPlace(hook, v, a)
    decreases v, 0, n
  {
    if n > 0 {
      var i: nat := n - 1;
      var key: seq<Address> := if BadKeyAt(v, i) then [[]] else [];
      MembersAreBadPlaces(hook, v, i);
      AddressesAreBadPlaces(hook, v.items[i]);
      UnderMembers(i, key + AddressesOf(hook, v.items[i]));
      hide AddressesOf, Under, BadKeyAt, LeafIsBad;
    }
  }

  /** Nothing stands before itself's parts: the order in which a walk comes to places. */
  predicate NotAfter(a: Address, b: Address)
    decreases |a|
  {
    a == [] || (b != [] && (a[0] < b[0] || (a[0] == b[0] && NotAfter(a[1..], b[1..]))))
  }

  ghost predicate InWalkingOrder(list: seq<Address>) {
    forall i, j :: 0 <= i < j < |list| ==> NotAfter(list[i], list[j])
  }

  lemma UnderInOrder(i: nat, list: seq<Address>)
    requires InWalkingOrder(list)
    ensures InWalkingOrder(Under(i, list))
  {
    var r := Under(i, list);
    forall j, k | 0 <= j < k < |r|
      ensures NotAfter(r[j], r[k])
    {
      assert r[j][1..] == list[j] && r[k][1..] == list[k];
    }
  }

  lemma InOrderBeforeUnder(first: seq<Address>, i: nat, list: seq<Address>)
    requires InWalkingOrder(first) && InWalkingOrder(list)
    requires forall a :: a in first ==> a != [] && a[0] < i
    ensures InWalkingOrder(first + Under(i, list))
  {
    UnderInOrder(i, list);
    var second := Under(i, list);
    var all := first + second;
    forall j, k | 0 <= j < k < |all|
      ensures NotAfter(all[j], all[k])
    {
      if j < |first| <= k {
        assert first[j] in first;
      }
    }
  }

  lemma {:induction false} AddressesInWalkingOrder(hook: Hook, v: Value)
    ensures InWalkingOrder(AddressesOf(hook, v))
    decreases v, 1, 0
  {
    if !v.Leaf? {
      MembersInWalkingOrder(hook, v, |v.items|);
    }
  }

  lemma {:induction false} MembersInWalkingOrder(hook: Hook, v: Value, n: nat)
    requires !v.Leaf? && n <= |v.items|
    ensures InWalkingOrder(MemberAddresses(hook, v, n))
    decreases v, 0, n
  {
    if n > 0 {
      var i: nat := n - 1;
      var key: seq<Address> := if BadKeyAt(v, i) then [[]] else [];
      MembersInWalkingOrder(hook, v, i);
      MembersAreBadPlaces(hook, v, i);
      AddressesInWalkingOrder(hook, v.items[i]);
      var here := key + AddressesOf(hook, v.items[i]);
      assert InWalkingOrder(here);
      InOrderBeforeUnder(MemberAddresses(hook, v, i), i, here);
      hide InWalkingOrder, AddressesOf, Under;
    }
  }

  // ----- how an address reads

  /** A mapping's member is called by its repaired name, any other by its index. */
  ghost function SegmentOf(v: Value, i: nat): Text
    requires !v.Leaf? && i < |v.items|
  {
    if v.Mapping? && |v.keys| == |v.items| then Ascii(Names(v.keys)[i]) else Decimal(i)
  }

  ghost function Segments(v: Value, a: Address): seq<Text>
    decreases |a|
  {
    if a == [] || v.Leaf? || a[0] >= |v.items| then []
    else [SegmentOf(v, a[0])] + Segments(v.items[a[0]], a[1..])
  }

  /** A dot and a segment, one after the other. */
  function Dots(segments: seq<Text>): Text {
    if segments == [] then [] else [DOT] + segments[0] + Dots(segments[1..])
  }

  /** The segments with dots between them; empty ones in front leave nothing. */
  function Dotted(segments: seq<Text>): Text {
    if segments == [] then []
    else if segments[0] == [] then Dotted(segments[1..])
    else segments[0] + Dots(segments[1..])
  }

  /** A path and the segments below it. */
  function Extended(path: Text, segments: seq<Text>): Text {
    if path == [] then Dotted(segments) else path + Dots(segments)
  }

  lemma ExtendedByOne(path: Text, segment: Text, segments: seq<Text>)
    ensures Extended(path, [segment] + segments) == Extended(Join(path, segment), segments)
  {
    assert ([segment] + segments)[1..] == segments;
    if path != [] {
      assert path + ([DOT] + segment + Dots(segments)) == path + [DOT] + segment + Dots(segments);
    }
  }

  /** How the addresses read, below a path. */
  ghost function Read(path: Text, v: Value, list: seq<Address>): (r: seq<Text>)
    ensures |r| == |list|
  {
    seq(|list|, k requires 0 <= k < |list| => Extended(path, Segments(v, list[k])))
  }

  lemma ReadUnder(path: Text, v: Value, i: nat, list: seq<Address>)
    requires !v.Leaf? && i < |v.items|
    ensures Read(path, v, Under(i, list)) == Read(Join(path, SegmentOf(v, i)), v.items[i], list)
  {
    hide Extended, Join, SegmentOf;
    forall k | 0 <= k < |list|
      ensures Read(path, v, Under(i, list))[k] == Read(Join(path, SegmentOf(v, i)), v.items[i], list)[k]
    {
      assert ([i] + list[k])[1..] == list[k];
      ExtendedByOne(path, SegmentOf(v, i), Segments(v.items[i], list[k]));
    }
  }

  lemma ReadParts(path: Text, v: Value, first: seq<Address>, second: seq<Address>)
    ensures Read(path, v, first + second) == Read(path, v, first) + Read(path, v, second)
  {
    hide Extended, Segments;
    var all := first + second;
    assert forall k :: 0 <= k < |first| ==> all[k] == first[k];
    assert forall k :: 0 <= k < |second| ==> all[|first| + k] == second[k];
  }

  lemma ReadKey(path: Text, v: Value)
    ensures Read(path, v, [[]]) == [path] && Read(path, v, []) == []
  {
    assert Extended(path, Segments(v, [])) == path;
  }

  /** The paths reported are the addresses of the bad places, one by one. */
  lemma {:induction false} PathsAreAddresses(hook: Hook, v: Value, path: Text)
    requires IsPlain(v)
    ensures PathsOf(hook, v, path) == Read(path, v, AddressesOf(hook, v))
    decreases v, 1, 0
  {
    if v.Leaf? {
      ReadKey(path, v);
    } else {
      MemberPathsAreAddresses(hook, v, path, |v.items|);
      PrefixStep(v.items, |v.items|);
      if v.Mapping? {
        PrefixStep(v.keys, |v.items|);
        PrefixStep(Names(v.keys), |v.items|);
      }
    }
  }

  /** Of the first `n` members. */
  ghost function MemberPaths(hook: Hook, v: Value, path: Text, n: nat): seq<Text>
    requires IsPlain(v) && !v.Leaf? && n <= |v.items|
  {
    if v.Mapping? then EntriesPaths(hook, v.keys[..n], Names(v.keys)[..n], v.items[..n], path)
    else ItemsPaths(hook, v.items[..n], path)
  }

  lemma OneMemberMore(hook: Hook, v: Value, path: Text, i: nat)
    requires IsPlain(v) && !v.Leaf? && i < |v.items|
    ensures MemberPaths(hook, v, path, i + 1) == MemberPaths(hook, v, path, i) +
      ((if BadKeyAt(v, i) then [Join(path, SegmentOf(v, i))] else []) +
       PathsOf(hook, v.items[i], Join(path, SegmentOf(v, i))))
  {
    hide PathsOf, EntriesPaths, ItemsPaths, Join, Ascii, Decimal, HasSurrogate;
    if v.Mapping? {
      EntriesPathsStep(hook, v.keys, Names(v.keys), v.items, path, i);
    } else {
      ItemsPathsStep(hook, v.items, path, i);
    }
  }

  lemma {:induction false} MemberPathsAreAddresses(hook: Hook, v: Value, path: Text, n: nat)
    requires IsPlain(v) && !v.Leaf? && n <= |v.items|
    ensures MemberPaths(hook, v, path, n) == Read(path, v, MemberAddresses(hook, v, n))
    decreases v, 0, n
  {
    hide PathsOf, Join, SegmentOf, AddressesOf, Read, Under, BadKeyAt;
    if n == 0 {
      ReadKey(path, v);
    } else {
      var i: nat := n - 1;
      var here := Join(path, SegmentOf(v, i));
      var key: seq<Address> := if BadKeyAt(v, i) then [[]] else [];
      MemberPathsAreAddresses(hook, v, path, i);
      PathsAreAddresses(hook, v.items[i], here);
      OneMemberMore(hook, v, path, i);
      ReadKey(here, v.items[i]);
      ReadParts(here, v.items[i], key, AddressesOf(hook, v.items[i]));
      ReadUnder(path, v, i, key + AddressesOf(hook, v.items[i]));
      ReadParts(path, v, MemberAddresses(hook, v, i), Under(i, key + AddressesOf(hook, v.items[i])));
      hide MemberPaths;
    }
  }

  lemma ReadMembers(v: Value, list: seq<Address>, p: Text)
    ensures p in Read([], v, list) <==> exists a :: a in list && p == Dotted(Segments(v, a))
  {
    hide Dotted, Segments;
    if p in Read([], v, list) {
      var k :| 0 <= k < |list| && Read([], v, list)[k] == p;
      assert list[k] in list;
    }
    if a :| a in list && p == Dotted(Segments(v, a)) {
      var k :| 0 <= k < |list| && list[k] == a;
      assert Read([], v, list)[k] == p;
    }
  }

  /** The path is that of a place where a surrogate stood. */
  ghost predicate NamesABadPlace(hook: Hook, v: Value, p: Text) {
    exists a :: IsBadPlace(hook, v, a) && p == Dotted(Segments(v, a))
  }

  /** So the paths from the top are, of the bad places and of nothing else, their segments with dots between. */
  lemma PathsNameBadPlaces(hook: Hook, v: Value)
    requires IsPlain(v)
    ensures forall p :: p in PathsOf(hook, v, []) <==> NamesABadPlace(hook, v, p)
  {
    PathsAreAddresses(hook, v, []);
    AddressesAreBadPlaces(hook, v);
    hide PathsOf, Dotted, Segments, AddressesOf, IsBadPlace, Read;
    forall p
      ensures p in PathsOf(hook, v, []) <==> NamesABadPlace(hook, v, p)
    {
      ReadMembers(v, AddressesOf(hook, v), p);
    }
  }

  // ----- following a path

  /** The name reads as it is, and between dots. */
  predicate IsPlainName(name: Text) {
    IsPrintable(name) && name != [] && DOT !in name
  }

  ghost predicate HasPlainNames(v: Value) {
    && (v.Mapping? ==> forall name :: name in Names(v.keys) ==> IsPlainName(name))
    && (!v.Leaf? ==> forall i :: 0 <= i < |v.items| ==> HasPlainNames(v.items[i]))
  }

  /** The address goes down through members there are. */
  predicate IsAddress(v: Value, a: Address)
    decreases |a|
  {
    a != [] ==> !v.Leaf? && a[0] < |v.items| && IsAddress(v.items[a[0]], a[1..])
  }

  lemma {:induction false} BadPlaceIsAddress(hook: Hook, v: Value, a: Address)
    requires IsBadPlace(hook, v, a)
    ensures IsAddress(v, a)
    decreases |a|
  {
    if a != [] && !(|a| == 1 && BadKeyAt(v, a[0])) {
      BadPlaceIsAddress(hook, v.items[a[0]], a[1..]);
    }
  }

  lemma NameIsPlain(v: Value, i: nat)
    requires IsPlain(v) && HasPlainNames(v) && v.Mapping? && i < |v.items|
    ensures |v.keys| == |v.items| && IsPlainName(Names(v.keys)[i]) && Ascii(Names(v.keys)[i]) == Names(v.keys)[i]
  {
    var name := Names(v.keys)[i];
    assert name in Names(v.keys);
  }

  lemma SegmentIsPlain(v: Value, i: nat)
    requires IsPlain(v) && HasPlainNames(v) && !v.Leaf? && i < |v.items|
    ensures SegmentOf(v, i) != [] && DOT !in SegmentOf(v, i)
    ensures v.Mapping? ==> SegmentOf(v, i) == Names(v.keys)[i]
  {
    hide IsPlain, HasPlainNames;
    if v.Mapping? {
      assert HasPlainNames(v) && IsPlain(v);
      NameIsPlain(v, i);
    }
  }

  lemma {:induction false} SegmentsArePlain(v: Value, a: Address)
    requires IsPlain(v) && HasPlainNames(v) && IsAddress(v, a)
    ensures |Segments(v, a)| == |a|
    ensures forall k :: 0 <= k < |a| ==> Segments(v, a)[k] != [] && DOT !in Segments(v, a)[k]
    decreases |a|
  {
    if a != [] {
      SegmentIsPlain(v, a[0]);
      SegmentsArePlain(v.items[a[0]], a[1..]);
      hide SegmentOf, IsPlain, HasPlainNames;
    }
  }

  lemma {:induction false} DotsJoin(first: Text, segments: seq<Text>)
    ensures first + Dots(segments) == DottedNames.Join([first] + segments)
    decreases |segments|
  {
    var all := [first] + segments;
    assert all[1..] == segments;
    if segments != [] {
      DotsJoin(segments[0], segments[1..]);
      assert [segments[0]] + segments[1..] == segments;
      assert first + ([DOT] + segments[0] + Dots(segments[1..])) == first + [DOT] + (segments[0] + Dots(segments[1..]));
    }
  }

  lemma SameSegment(v: Value, i: nat, j: nat)
    requires IsPlain(v) && HasPlainNames(v) && !v.Leaf? && i < |v.items| && j < |v.items|
    requires SegmentOf(v, i) == SegmentOf(v, j)
    ensures i == j
  {
    SegmentIsPlain(v, i);
    SegmentIsPlain(v, j);
    if v.Mapping? {
      NamesProperties(v.keys);
    } else {
      DecimalInjective(i, j);
    }
  }

  /** Below names that are plain, the segments lead to one place only. */
  lemma {:induction false} SegmentsLeadToOnePlace(v: Value, a: Address, b: Address)
    requires IsPlain(v) && HasPlainNames(v) && IsAddress(v, a) && IsAddress(v, b)
    requires Segments(v, a) == Segments(v, b)
    ensures a == b
    decreases |a|
  {
    SegmentsArePlain(v, a);
    SegmentsArePlain(v, b);
    if a != [] {
      var s, t := Segments(v, a), Segments(v, b);
      assert s[0] == SegmentOf(v, a[0]) && t[0] == SegmentOf(v, b[0]);
      SameSegment(v, a[0], b[0]);
      assert s[1..] == Segments(v.items[a[0]], a[1..]) && t[1..] == Segments(v.items[b[0]], b[1..]);
      hide Segments, SegmentOf, HasPlainNames;
      assert IsPlain(v.items[a[0]]);
      SegmentsLeadToOnePlace(v.items[a[0]], a[1..], b[1..]);
      assert a == [a[0]] + a[1..] && b == [b[0]] + b[1..];
    }
  }

  lemma SplitOfAddress(v: Value, a: Address)
    requires IsPlain(v) && HasPlainNames(v) && IsAddress(v, a)
    ensures Dotted(Segments(v, a)) == [] <==> a == []
    ensures a != [] ==> DottedNames.Split(Dotted(Segments(v, a))) == Segments(v, a)
  {
    hide IsPlain, HasPlainNames, IsAddress, Segments;
    var segments := Segments(v, a);
    SegmentsArePlain(v, a);
    if a != [] {
      DotsJoin(segments[0], segments[1..]);
      assert [segments[0]] + segments[1..] == segments;
      DottedNames.SplitUndoesJoin(segments);
    }
  }

  /** Below names that are plain, splitting a path at its dots gives the segments of its address; so following it
      leads to a place where a surrogate stood, and to no other place. */
  lemma SplitPathLeadsBack(v: Value, a: Address, p: Text)
    requires IsPlain(v) && HasPlainNames(v) && IsAddress(v, a) && p == Dotted(Segments(v, a))
    ensures p == [] <==> a == []
    ensures a != [] ==> DottedNames.Split(p) == Segments(v, a)
    ensures forall b :: IsAddress(v, b) && p == Dotted(Segments(v, b)) ==> a == b
  {
    hide IsPlain, HasPlainNames, IsAddress, Segments;
    SplitOfAddress(v, a);
    forall b | IsAddress(v, b) && p == Dotted(Segments(v, b))
      ensures a == b
    {
      SplitOfAddress(v, b);
      SegmentsArePlain(v, a);
      SegmentsArePlain(v, b);
      SegmentsLeadToOnePlace(v, a, b);
    }
  }
}
