/** `--set SECTION.KEY=VALUE` overrides, after adapters/config/overrides.py: parsed, checked together as
    dotted strings, and nested in place. */
module Overrides {
  import opened Texts
  import opened DottedNames

  /** The section and the key path, part by part. */
  type Path = seq<Text>

  /** One parsed override. The value is the text after `=`; what it is coerced to is not modelled. */
  datatype Override = Override(path: Path, value: Text)

  datatype Parsed = Ok(override: Override) | NoEquals | NoDot | EmptyPart

  // ----- parsing

  predicate IsPart(part: Text) {
    part != [] && DOT !in part && EQUALS !in part
  }

  predicate IsPath(path: Path) {
    |path| >= 2 && forall i :: 0 <= i < |path| ==> IsPart(path[i])
  }

  /** The place of the first `=`. */
  function FirstEquals(text: Text): (i: nat)
    requires EQUALS in text
    ensures i < |text| && text[i] == EQUALS && EQUALS !in text[..i]
  {
    if text[0] == EQUALS then 0
    else
      var i := FirstEquals(text[1..]);
      assert text[..i + 1] == [text[0]] + text[1..][..i];
      1 + i
  }

  /** `parse_override`. */
  function Parse(raw: Text): Parsed {
    if EQUALS !in raw then NoEquals
    else
      var i := FirstEquals(raw);
      if DOT !in raw[..i] then NoDot
      else
        var parts := Split(raw[..i]);
        if exists k :: 0 <= k < |parts| && parts[k] == [] then EmptyPart
        else Ok(Override(parts, raw[i + 1..]))
  }

  lemma CutAt(raw: Text, i: nat)
    requires i < |raw|
    ensures raw == raw[..i] + [raw[i]] + raw[i + 1..]
  {
  }

  lemma PartIsProper(key: Text, path: Path, k: nat)
    requires k < |path| && path[k] != [] && EQUALS !in key
    requires forall part :: part in path ==> DOT !in part && forall c :: c in part ==> c in key
    ensures IsPart(path[k])
  {
    assert path[k] in path;
  }

  lemma ParsedIsPath(raw: Text, path: Path, value: Text)
    requires Parse(raw) == Ok(Override(path, value))
    ensures IsPath(path) && raw == Join(path) + [EQUALS] + value
  {
    var i := FirstEquals(raw);
    JoinUndoesSplit(raw[..i]);
    SplitParts(raw[..i]);
    CutAt(raw, i);
    hide Split, Join, FirstEquals;
    forall k | 0 <= k < |path|
      ensures IsPart(path[k])
    {
      PartIsProper(raw[..i], path, k);
    }
  }

  lemma FirstEqualsIsThere(key: Text, value: Text, i: nat)
    requires EQUALS !in key
    requires var raw := key + [EQUALS] + value; i < |raw| && raw[i] == EQUALS && EQUALS !in raw[..i]
    ensures i == |key|
  {
    var raw := key + [EQUALS] + value;
    assert raw[|key|] == EQUALS;
    assert forall k :: 0 <= k < |key| ==> raw[k] == key[k] && key[k] in key;
    assert forall k :: 0 <= k < i ==> raw[k] == raw[..i][k] && raw[..i][k] in raw[..i];
  }

  lemma {:induction false} JoinHasNoEquals(path: Path)
    requires forall i :: 0 <= i < |path| ==> EQUALS !in path[i]
    ensures EQUALS !in Join(path)
    decreases |path|
  {
    if |path| > 1 {
      JoinHasNoEquals(path[1..]);
    }
  }

  lemma PathIsParsed(raw: Text, path: Path, value: Text)
    requires IsPath(path) && raw == Join(path) + [EQUALS] + value
    ensures Parse(raw) == Ok(Override(path, value))
  {
    JoinHasNoEquals(path);
    assert raw[|Join(path)|] == EQUALS;
    var i := FirstEquals(raw);
    FirstEqualsIsThere(Join(path), value, i);
    assert raw[..i] == Join(path) && raw[i + 1..] == value;
    SplitUndoesJoin(path);
    JoinUndoesSplit(Join(path));
  }

  /** Parsing takes exactly the texts that are a dotted path, an `=` and a value, and takes them apart. */
  lemma ParseIsExact(raw: Text, path: Path, value: Text)
    ensures Parse(raw) == Ok(Override(path, value)) <==> IsPath(path) && raw == Join(path) + [EQUALS] + value
  {
    if Parse(raw) == Ok(Override(path, value)) {
      ParsedIsPath(raw, path, value);
    }
    if IsPath(path) && raw == Join(path) + [EQUALS] + value {
      PathIsParsed(raw, path, value);
    }
  }

  // ----- conflicts

  predicate ProperPrefix(a: Path, b: Path) {
    |a| < |b| && a == b[..|a|]
  }

  lemma PrefixOfTails(a: Path, b: Path)
    requires |a| > 1 && |b| > 1 && a[0] == b[0]
    ensures ProperPrefix(a, b) <==> ProperPrefix(a[1..], b[1..])
  {
    assert ProperPrefix(a[1..], b[1..]) ==> a == [a[0]] + a[1..] && b[..|a|] == [b[0]] + b[1..][..|a| - 1];
    assert ProperPrefix(a, b) ==> a[1..] == b[1..][..|a| - 1];
  }

  lemma DotIsInNoPrefix(x: Text, y: Text)
    requires DOT in x && DOT !in y
    ensures !(x <= y)
  {
    var i :| 0 <= i < |x| && x[i] == DOT;
    assert i < |y| ==> y[i] in y;
  }

  /** Two texts cut at their first dot compare part by part. */
  lemma FirstPartMatches(a: Text, after: Text, b: Text, rest: Text)
    requires DOT !in a && DOT !in b
    ensures a + [DOT] + after <= b + [DOT] + rest <==> a == b && after <= rest
  {
    var x, y := a + [DOT] + after, b + [DOT] + rest;
    if x <= y {
      assert x[|a|] == DOT && y[|a|] == DOT && y[|b|] == DOT;
      assert forall k :: 0 <= k < |a| ==> x[k] == a[k] && a[k] in a;
      assert forall k :: 0 <= k < |b| ==> y[k] == b[k] && b[k] in b;
      assert |a| == |b|;
      assert a == x[..|a|] == y[..|a|] == b;
      assert after == x[|a| + 1..] && rest == y[|a| + 1..];
    }
  }

  /** The check on dotted strings is the one on paths: `b` starts with `a.` exactly when `a`'s parts are
      the first of more parts of `b`. */
  lemma {:induction false} DottedPrefixIsPathPrefix(a: Path, b: Path)
    requires a != [] && b != []
    requires forall i :: 0 <= i < |a| ==> IsPart(a[i])
    requires forall i :: 0 <= i < |b| ==> IsPart(b[i])
    ensures Join(a) + [DOT] <= Join(b) <==> ProperPrefix(a, b)
    decreases |a|
  {
    var after := if |a| == 1 then [] else Join(a[1..]) + [DOT];
    var dotted := a[0] + [DOT] + after;
    assert Join(a) + [DOT] == dotted;
    if |b| == 1 {
      assert dotted[|a[0]|] == DOT;
      DotIsInNoPrefix(dotted, b[0]);
    } else {
      var rest := Join(b[1..]);
      FirstPartMatches(a[0], after, b[0], rest);
      if a[0] == b[0] {
        if |a| == 1 {
          assert a == b[..1];
        } else {
          DottedPrefixIsPathPrefix(a[1..], b[1..]);
          PrefixOfTails(a, b);
          hide ProperPrefix, Join;
        }
      }
    }
  }

  function Paths(overrides: seq<Override>): seq<Path> {
    seq(|overrides|, i requires 0 <= i < |overrides| => overrides[i].path)
  }

  ghost predicate Conflicts(paths: seq<Path>) {
    exists i, j :: 0 <= i < |paths| && 0 <= j < |paths| && ProperPrefix(paths[i], paths[j])
  }

  /** `_refuse_conflicts`: it refuses exactly the lists in which one path is a proper prefix of another. */
  method RefuseConflicts(paths: seq<Path>) returns (refused: bool)
    requires forall i :: 0 <= i < |paths| ==> IsPath(paths[i])
    ensures refused <==> Conflicts(paths)
  {
    var dotted := seq(|paths|, i requires 0 <= i < |paths| => Join(paths[i]));
    for i := 0 to |paths|
      invariant forall k, j :: 0 <= k < i && 0 <= j < |paths| ==> !ProperPrefix(paths[k], paths[j])
    {
      forall j | 0 <= j < |paths|
        ensures dotted[i] + [DOT] <= dotted[j] <==> ProperPrefix(paths[i], paths[j])
      {
        DottedPrefixIsPathPrefix(paths[i], paths[j]);
      }
      if exists j :: 0 <= j < |dotted| && dotted[i] + [DOT] <= dotted[j] {
        return true;
      }
    }
    return false;
  }

  // ----- nesting in place

  /** What a dict holds under a key: an override's value, or another dict, by its identity. */
  datatype Slot = Leaf(value: Text) | Table(id: nat)

  /** Dicts by identity, so that two references to one dict see the same contents. */
  type Heap = seq<map<Text, Slot>>

  /** What stands at `path` below dict `id`; a value has nothing below it. */
  function Lookup(heap: Heap, id: nat, path: Path): Option<Slot>
    decreases |path|
  {
    if path == [] then Some(Table(id))
    else if id >= |heap| || path[0] !in heap[id] then None
    else
      match heap[id][path[0]]
      case Leaf(value) => if |path| == 1 then Some(Leaf(value)) else None
      case Table(next) => Lookup(heap, next, path[1..])
  }

  /** Every dict has an address, and a reference extends the address of the dict it is held in. */
  ghost predicate Addressed(heap: Heap, addr: seq<Path>) {
    && |addr| == |heap| >= 1
    && addr[0] == []
    && forall id, name :: 0 <= id < |heap| && name in heap[id] && heap[id][name].Table? ==>
         heap[id][name].id < |heap| && addr[heap[id][name].id] == addr[id] + [name]
  }

  /** Every dict stands where its address says; so no dict is held in two places, nor below itself. */
  ghost predicate Linked(heap: Heap, addr: seq<Path>)
    requires |addr| == |heap|
  {
    forall id :: 0 <= id < |heap| ==> Lookup(heap, 0, addr[id]) == Some(Table(id))
  }

  /** Only addresses of dicts lead to dicts. */
  lemma {:induction false} TablesAreAddressed(heap: Heap, addr: seq<Path>, id: nat, path: Path)
    requires Addressed(heap, addr) && id < |heap|
    requires Lookup(heap, id, path).Some? && Lookup(heap, id, path).value.Table?
    ensures var t := Lookup(heap, id, path).value.id; t < |heap| && addr[t] == addr[id] + path
    decreases |path|
  {
    if path == [] {
      assert addr[id] + path == addr[id];
    } else {
      TablesAreAddressed(heap, addr, heap[id][path[0]].id, path[1..]);
      assert addr[id] + [path[0]] + path[1..] == addr[id] + path;
    }
  }

  /** The heap with a new, empty dict held by `node` under `name`. */
  function WithTable(heap: Heap, node: nat, name: Text): Heap
    requires node < |heap|
  {
    heap[node := heap[node][name := Table(|heap|)]] + [map[]]
  }

  /** `setdefault(name, {})` with a new dict changes no value anywhere. */
  lemma {:induction false} NewTableKeepsLeaves(heap: Heap, addr: seq<Path>, node: nat, name: Text, id: nat, path: Path)
    requires Addressed(heap, addr) && node < |heap| && name !in heap[node] && id < |heap|
    ensures var heap' := WithTable(heap, node, name);
      forall v :: Lookup(heap', id, path) == Some(Leaf(v)) <==> Lookup(heap, id, path) == Some(Leaf(v))
    decreases |path|
  {
    var heap' := WithTable(heap, node, name);
    if path != [] && path[0] in heap[id] {
      match heap[id][path[0]] {
        case Leaf(_) =>
        case Table(next) => NewTableKeepsLeaves(heap, addr, node, name, next, path[1..]);
      }
    }
  }

  /** A walk that meets no new slot goes as before, and the new dict is where it was put. */
  lemma {:induction false} NewTableIsFound(heap: Heap, addr: seq<Path>, node: nat, name: Text, id: nat, path: Path)
    requires Addressed(heap, addr) && node < |heap| && name !in heap[node] && id < |heap|
    requires Lookup(heap, id, path) == Some(Table(node))
    ensures Lookup(WithTable(heap, node, name), id, path + [name]) == Some(Table(|heap|))
    decreases |path|
  {
    var heap' := WithTable(heap, node, name);
    if path == [] {
      assert (path + [name])[1..] == [];
    } else {
      assert (path + [name])[1..] == path[1..] + [name];
      NewTableIsFound(heap, addr, node, name, heap[id][path[0]].id, path[1..]);
    }
  }

  /** The heap with a value set. */
  function WithValue(heap: Heap, node: nat, name: Text, value: Text): Heap
    requires node < |heap|
  {
    heap[node := heap[node][name := Leaf(value)]]
  }

  /** Setting a value where no dict is held changes no other value. */
  lemma {:induction false} ValueKeepsOthers(heap: Heap, addr: seq<Path>, node: nat, name: Text, value: Text, id: nat,
                                            path: Path)
    requires Addressed(heap, addr) && node < |heap| && id < |heap|
    requires name in heap[node] ==> heap[node][name].Leaf?
    requires addr[id] + path != addr[node] + [name]
    ensures forall v :: Lookup(WithValue(heap, node, name, value), id, path) == Some(Leaf(v)) <==>
      Lookup(heap, id, path) == Some(Leaf(v))
    decreases |path|
  {
    if path != [] {
      if id == node && path[0] == name {
        assert |path| == 1 ==> path == [name];
      } else if path[0] in heap[id] && heap[id][path[0]].Table? {
        assert addr[id] + [path[0]] + path[1..] == addr[id] + path;
        ValueKeepsOthers(heap, addr, node, name, value, heap[id][path[0]].id, path[1..]);
      }
    }
  }

  lemma {:induction false} ValueIsFound(heap: Heap, addr: seq<Path>, node: nat, name: Text, value: Text, id: nat,
                                        path: Path)
    requires Addressed(heap, addr) && node < |heap| && id < |heap|
    requires name in heap[node] ==> heap[node][name].Leaf?
    requires Lookup(heap, id, path) == Some(Table(node))
    ensures Lookup(WithValue(heap, node, name, value), id, path + [name]) == Some(Leaf(value))
    decreases |path|
  {
    if path == [] {
      assert (path + [name])[1..] == [];
    } else {
      assert (path + [name])[1..] == path[1..] + [name];
      ValueIsFound(heap, addr, node, name, value, heap[id][path[0]].id, path[1..]);
    }
  }

  /** The values set, by path: the last override of a path counts. */
  ghost function LastValue(overrides: seq<Override>, path: Path): Option<Text> {
    if overrides == [] then None
    else
      var last := overrides[|overrides| - 1];
      if last.path == path then Some(last.value) else LastValue(overrides[..|overrides| - 1], path)
  }

  lemma {:induction false} LastValueIsSomeones(overrides: seq<Override>, path: Path)
    requires LastValue(overrides, path).Some?
    ensures exists o :: o in overrides && o.path == path
  {
    var last := |overrides| - 1;
    if overrides[last].path == path {
      assert overrides[last] in overrides;
    } else {
      LastValueIsSomeones(overrides[..last], path);
    }
  }

  /** The heap holds, below dict 0, exactly the values of the overrides. */
  ghost predicate HoldsValues(heap: Heap, overrides: seq<Override>) {
    forall q, v :: Lookup(heap, 0, q) == Some(Leaf(v)) <==> LastValue(overrides, q) == Some(v)
  }

  /** Dicts stand only where paths pass through. */
  ghost predicate OnTheWay(addr: seq<Path>, overrides: seq<Override>) {
    forall id :: 0 < id < |addr| ==> exists o :: o in overrides && ProperPrefix(addr[id], o.path)
  }

  ghost predicate Shaped(heap: Heap, addr: seq<Path>) {
    Addressed(heap, addr) && Linked(heap, addr)
  }

  lemma {:induction false} LookupSnoc(heap: Heap, id: nat, path: Path, node: nat, name: Text)
    requires Lookup(heap, id, path) == Some(Table(node))
    ensures Lookup(heap, id, path + [name]) == Lookup(heap, node, [name])
    decreases |path|
  {
    if path == [] {
      assert path + [name] == [name];
    } else {
      assert (path + [name])[1..] == path[1..] + [name];
      LookupSnoc(heap, heap[id][path[0]].id, path[1..], node, name);
    }
  }

  lemma {:induction false} NewTableKeepsTables(heap: Heap, node: nat, name: Text, id: nat, path: Path)
    requires node < |heap| && name !in heap[node]
    requires Lookup(heap, id, path).Some? && Lookup(heap, id, path).value.Table?
    ensures Lookup(WithTable(heap, node, name), id, path) == Lookup(heap, id, path)
    decreases |path|
  {
    if path != [] {
      NewTableKeepsTables(heap, node, name, heap[id][path[0]].id, path[1..]);
    }
  }

  lemma {:induction false} ValueKeepsTables(heap: Heap, node: nat, name: Text, value: Text, id: nat, path: Path)
    requires node < |heap| && (name in heap[node] ==> heap[node][name].Leaf?)
    requires Lookup(heap, id, path).Some? && Lookup(heap, id, path).value.Table?
    ensures Lookup(WithValue(heap, node, name, value), id, path) == Lookup(heap, id, path)
    decreases |path|
  {
    if path != [] {
      ValueKeepsTables(heap, node, name, value, heap[id][path[0]].id, path[1..]);
    }
  }

  lemma NewTableKeepsShape(heap: Heap, addr: seq<Path>, node: nat, name: Text)
    requires Shaped(heap, addr) && node < |heap| && name !in heap[node]
    ensures Shaped(WithTable(heap, node, name), addr + [addr[node] + [name]])
    ensures Lookup(WithTable(heap, node, name), 0, addr[node] + [name]) == Some(Table(|heap|))
  {
    var heap', addr' := WithTable(heap, node, name), addr + [addr[node] + [name]];
    NewTableIsFound(heap, addr, node, name, 0, addr[node]);
    forall id | 0 <= id < |heap|
      ensures Lookup(heap', 0, addr'[id]) == Some(Table(id))
    {
      NewTableKeepsTables(heap, node, name, 0, addr[id]);
    }
  }

  lemma NewTableKeepsValues(heap: Heap, addr: seq<Path>, node: nat, name: Text, overrides: seq<Override>)
    requires Shaped(heap, addr) && node < |heap| && name !in heap[node]
    requires HoldsValues(heap, overrides)
    ensures HoldsValues(WithTable(heap, node, name), overrides)
  {
    forall q, v
      ensures Lookup(WithTable(heap, node, name), 0, q) == Some(Leaf(v)) <==> LastValue(overrides, q) == Some(v)
    {
      NewTableKeepsLeaves(heap, addr, node, name, 0, q);
    }
  }

  lemma ValueKeepsShape(heap: Heap, addr: seq<Path>, node: nat, name: Text, value: Text)
    requires Shaped(heap, addr) && node < |heap| && (name in heap[node] ==> heap[node][name].Leaf?)
    ensures Shaped(WithValue(heap, node, name, value), addr)
  {
    forall id | 0 <= id < |heap|
      ensures Lookup(WithValue(heap, node, name, value), 0, addr[id]) == Some(Table(id))
    {
      ValueKeepsTables(heap, node, name, value, 0, addr[id]);
    }
  }

  lemma ValueIsHeld(heap: Heap, addr: seq<Path>, node: nat, overrides: seq<Override>, o: Override)
    requires Shaped(heap, addr) && node < |heap| && HoldsValues(heap, overrides)
    requires o.path != [] && addr[node] == o.path[..|o.path| - 1]
    requires var name := o.path[|o.path| - 1]; name in heap[node] ==> heap[node][name].Leaf?
    ensures HoldsValues(WithValue(heap, node, o.path[|o.path| - 1], o.value), overrides + [o])
  {
    var name := o.path[|o.path| - 1];
    var all := overrides + [o];
    assert all[..|overrides|] == overrides;
    assert addr[node] + [name] == o.path;
    forall q, v
      ensures Lookup(WithValue(heap, node, name, o.value), 0, q) == Some(Leaf(v)) <==> LastValue(all, q) == Some(v)
    {
      if q == o.path {
        ValueIsFound(heap, addr, node, name, o.value, 0, addr[node]);
      } else {
        assert addr[0] + q == q;
        ValueKeepsOthers(heap, addr, node, name, o.value, 0, q);
      }
    }
  }

  /** The override neither gives a value where another has keys, nor keys where another has a value. */
  ghost predicate Fits(overrides: seq<Override>, o: Override) {
    forall other :: other in overrides ==> !ProperPrefix(other.path, o.path) && !ProperPrefix(o.path, other.path)
  }

  lemma ValueIsSomeones(heap: Heap, overrides: seq<Override>, path: Path, value: Text)
    requires HoldsValues(heap, overrides) && Lookup(heap, 0, path) == Some(Leaf(value))
    ensures LastValue(overrides, path) == Some(value)
  {
  }

  lemma LookupHere(heap: Heap, node: nat, name: Text)
    requires node < |heap| && name in heap[node] && heap[node][name].Leaf?
    ensures Lookup(heap, node, [name]) == Some(heap[node][name])
  {
  }

  lemma NoValueBefore(overrides: seq<Override>, o: Override, k: nat)
    requires Fits(overrides, o) && k < |o.path|
    ensures LastValue(overrides, o.path[..k]) == None
  {
    if LastValue(overrides, o.path[..k]).Some? {
      LastValueIsSomeones(overrides, o.path[..k]);
    }
  }

  lemma NoValueInTheWay(heap: Heap, addr: seq<Path>, node: nat, overrides: seq<Override>, o: Override, k: nat,
                        value: Text)
    requires Shaped(heap, addr) && HoldsValues(heap, overrides) && Fits(overrides, o) && k + 1 < |o.path|
    requires node < |heap| && addr[node] == o.path[..k] && o.path[k] in heap[node]
    ensures heap[node][o.path[k]] != Leaf(value)
  {
    hide Lookup, Fits, HoldsValues, LastValue;
    if heap[node][o.path[k]] == Leaf(value) {
      assert o.path[..k + 1] == o.path[..k] + [o.path[k]];
      LookupSnoc(heap, 0, addr[node], node, o.path[k]);
      LookupHere(heap, node, o.path[k]);
      ValueIsSomeones(heap, overrides, o.path[..k + 1], value);
      NoValueBefore(overrides, o, k + 1);
    }
  }

  lemma NoDictInTheWay(heap: Heap, addr: seq<Path>, node: nat, overrides: seq<Override>, o: Override)
    requires Shaped(heap, addr) && node < |heap| && OnTheWay(addr, overrides + [o]) && Fits(overrides, o)
    requires o.path != [] && addr[node] == o.path[..|o.path| - 1]
    ensures var name := o.path[|o.path| - 1]; name in heap[node] ==> heap[node][name].Leaf?
  {
    var name := o.path[|o.path| - 1];
    assert addr[node] + [name] == o.path;
    forall id | 0 <= id < |addr|
      ensures addr[id] != o.path
    {
      if id > 0 {
        var other :| other in overrides + [o] && ProperPrefix(addr[id], other.path);
      }
    }
  }

  /** The nested dicts being built: `target` is dict 0. */
  class OverrideTree {
    var heap: Heap
    ghost var addr: seq<Path>

    /** What the dicts hold is what the overrides say. */
    ghost predicate Holds(overrides: seq<Override>)
      reads this
    {
      Shaped(heap, addr) && HoldsValues(heap, overrides) && OnTheWay(addr, overrides)
    }

    constructor ()
      ensures Holds([])
    {
      heap := [map[]];
      addr := [[]];
      new;
      forall q, v
        ensures !(Lookup(heap, 0, q) == Some(Leaf(v)))
      {
      }
    }

    /** `_nest_override`: the walk never meets a value where it needs a dict, and the assignment never
        drops a dict; so every other path keeps its value. */
    method NestOverride(o: Override, ghost overrides: seq<Override>)
      requires Holds(overrides) && IsPath(o.path) && Fits(overrides, o)
      modifies this
      ensures Holds(overrides + [o])
    {
      hide HoldsValues, Lookup, Fits;
      var node: nat := 0;
      var path := o.path;
      ghost var all := overrides + [o];
      for k := 0 to |path| - 1
        invariant Shaped(heap, addr) && HoldsValues(heap, overrides) && OnTheWay(addr, all)
        invariant node < |heap| && addr[node] == path[..k]
      {
        var name := path[k];
        assert path[..k + 1] == path[..k] + [name];
        if name in heap[node] {
          match heap[node][name] {
            case Table(next) =>
              node := next;
            case Leaf(value) =>
              NoValueInTheWay(heap, addr, node, overrides, o, k, value);
              assert false;
          }
        } else {
          NewTableKeepsShape(heap, addr, node, name);
          NewTableKeepsValues(heap, addr, node, name, overrides);
          assert ProperPrefix(addr[node] + [name], o.path) && o in all;
          addr := addr + [addr[node] + [name]];
          heap := WithTable(heap, node, name);
          node := |heap| - 1;
        }
      }
      var last := path[|path| - 1];
      NoDictInTheWay(heap, addr, node, overrides, o);
      ValueKeepsShape(heap, addr, node, last, o.value);
      ValueIsHeld(heap, addr, node, overrides, o);
      heap := WithValue(heap, node, last, o.value);
    }
  }

  // ----- the order of the overrides

  /** The overrides of one path, in order. */
  ghost function OfPath(overrides: seq<Override>, path: Path): seq<Override> {
    if overrides == [] then []
    else
      var last := overrides[|overrides| - 1];
      OfPath(overrides[..|overrides| - 1], path) + if last.path == path then [last] else []
  }

  /** Each path has the same overrides in the same order; how those of different paths mix is free. */
  ghost predicate SameByPath(a: seq<Override>, b: seq<Override>) {
    forall path :: OfPath(a, path) == OfPath(b, path)
  }

  lemma {:induction false} LastValueIsOfPath(overrides: seq<Override>, path: Path)
    ensures var own := OfPath(overrides, path);
      LastValue(overrides, path) == if own == [] then None else Some(own[|own| - 1].value)
  {
    if overrides != [] {
      LastValueIsOfPath(overrides[..|overrides| - 1], path);
    }
  }

  lemma {:induction false} OfPathMembers(overrides: seq<Override>, path: Path, o: Override)
    ensures o in OfPath(overrides, path) <==> o in overrides && o.path == path
  {
    if overrides != [] {
      var last := |overrides| - 1;
      OfPathMembers(overrides[..last], path, o);
      assert overrides == overrides[..last] + [overrides[last]];
    }
  }

  /** A path has a value exactly when an override gives it one. */
  lemma HasLastValue(overrides: seq<Override>, path: Path)
    ensures LastValue(overrides, path).Some? <==> exists o :: o in overrides && o.path == path
  {
    if LastValue(overrides, path).Some? {
      LastValueIsSomeones(overrides, path);
    }
    if o :| o in overrides && o.path == path {
      OfPathMembers(overrides, path, o);
      LastValueIsOfPath(overrides, path);
    }
  }

  lemma SameMembers(a: seq<Override>, b: seq<Override>)
    requires SameByPath(a, b)
    ensures forall o :: o in a <==> o in b
  {
    forall o
      ensures o in a <==> o in b
    {
      OfPathMembers(a, o.path, o);
      OfPathMembers(b, o.path, o);
    }
  }

  lemma ConflictCarriesOver(a: seq<Override>, b: seq<Override>)
    requires forall o :: o in a ==> o in b
    ensures Conflicts(Paths(a)) ==> Conflicts(Paths(b))
  {
    if i, j :| 0 <= i < |a| && 0 <= j < |a| && ProperPrefix(Paths(a)[i], Paths(a)[j]) {
      assert a[i] in b && a[j] in b;
      var k :| 0 <= k < |b| && b[k] == a[i];
      var l :| 0 <= l < |b| && b[l] == a[j];
      assert ProperPrefix(Paths(b)[k], Paths(b)[l]);
    }
  }

  /** Reordering overrides of different paths changes nothing: not whether the list is refused, not the keys
      returned, and not the value of any path. */
  lemma ReorderingChangesNothing(a: seq<Override>, b: seq<Override>)
    requires SameByPath(a, b)
    ensures Conflicts(Paths(a)) <==> Conflicts(Paths(b))
    ensures (set o | o in a :: Join(o.path)) == (set o | o in b :: Join(o.path))
    ensures forall path :: LastValue(a, path) == LastValue(b, path)
  {
    SameMembers(a, b);
    ConflictCarriesOver(a, b);
    ConflictCarriesOver(b, a);
    forall path
      ensures LastValue(a, path) == LastValue(b, path)
    {
      LastValueIsOfPath(a, path);
      LastValueIsOfPath(b, path);
    }
  }

  /** So two trees built from such lists hold the same values. */
  lemma ReorderingKeepsTree(a: seq<Override>, b: seq<Override>, heap: Heap, heap': Heap)
    requires SameByPath(a, b)
    requires HoldsValues(heap, a) && HoldsValues(heap', b)
    ensures forall q, v :: Lookup(heap, 0, q) == Some(Leaf(v)) <==> Lookup(heap', 0, q) == Some(Leaf(v))
  {
    ReorderingChangesNothing(a, b);
  }

  lemma {:induction false} OfPathOfParts(a: seq<Override>, b: seq<Override>, path: Path)
    ensures OfPath(a + b, path) == OfPath(a, path) + OfPath(b, path)
    decreases b
  {
    if b == [] {
      assert a + b == a;
    } else {
      OfPathOfParts(a, b[..|b| - 1], path);
      assert (a + b)[..|a + b| - 1] == a + b[..|b| - 1];
    }
  }

  lemma OfPathOfTwo(a: Override, b: Override, path: Path)
    ensures OfPath([a, b], path) == (if a.path == path then [a] else []) + if b.path == path then [b] else []
  {
    OfPathOfParts([a], [b], path);
    assert [a] + [b] == [a, b];
    assert [a][..0] == [] && [b][..0] == [];
  }

  /** Two neighbours of different paths changing places is such a reordering. */
  lemma SwapIsReordering(before: seq<Override>, a: Override, b: Override, after: seq<Override>)
    requires a.path != b.path
    ensures SameByPath(before + [a, b] + after, before + [b, a] + after)
  {
    forall path
      ensures OfPath(before + [a, b] + after, path) == OfPath(before + [b, a] + after, path)
    {
      OfPathOfParts(before + [a, b], after, path);
      OfPathOfParts(before + [b, a], after, path);
      OfPathOfParts(before, [a, b], path);
      OfPathOfParts(before, [b, a], path);
      OfPathOfTwo(a, b, path);
      OfPathOfTwo(b, a, path);
    }
  }

  // ----- the whole list

  datatype Nested = Nested(tree: OverrideTree, keys: set<Text>) | Malformed | Conflicting

  ghost predicate AllParse(raws: seq<Text>) {
    forall i :: 0 <= i < |raws| ==> Parse(raws[i]).Ok?
  }

  lemma ParsingCarriesOver(a: seq<Text>, b: seq<Text>)
    requires multiset(a) == multiset(b)
    ensures AllParse(a) ==> AllParse(b)
  {
    forall i | AllParse(a) && 0 <= i < |b|
      ensures Parse(b[i]).Ok?
    {
      assert b[i] in multiset(b);
      var j :| 0 <= j < |a| && a[j] == b[i];
    }
  }

  /** The order of the overrides does not decide whether an override is malformed. */
  lemma ReorderingKeepsParsing(a: seq<Text>, b: seq<Text>)
    requires multiset(a) == multiset(b)
    ensures AllParse(a) <==> AllParse(b)
  {
    ParsingCarriesOver(a, b);
    ParsingCarriesOver(b, a);
  }

  function ParsedAll(raws: seq<Text>): seq<Override>
    requires AllParse(raws)
  {
    seq(|raws|, i requires 0 <= i < |raws| => Parse(raws[i]).override)
  }

  lemma PathsOfParsed(raws: seq<Text>, i: nat)
    requires AllParse(raws) && i < |raws|
    ensures IsPath(ParsedAll(raws)[i].path)
  {
    var o := Parse(raws[i]).override;
    ParseIsExact(raws[i], o.path, o.value);
  }

  lemma FitsAll(overrides: seq<Override>, i: nat)
    requires i < |overrides| && !Conflicts(Paths(overrides))
    ensures Fits(overrides[..i], overrides[i])
  {
    forall other | other in overrides[..i]
      ensures !ProperPrefix(other.path, overrides[i].path) && !ProperPrefix(overrides[i].path, other.path)
    {
      var j :| 0 <= j < i && overrides[j] == other;
      assert Paths(overrides)[j] == other.path && Paths(overrides)[i] == overrides[i].path;
    }
  }

  ghost predicate IsLeaf(heap: Heap, path: Path) {
    exists v :: Lookup(heap, 0, path) == Some(Leaf(v))
  }

  /** The paths that hold a value are exactly those the keys name. */
  ghost predicate KeysAreLeaves(heap: Heap, keys: set<Text>) {
    && (forall path :: IsLeaf(heap, path) <==> IsPath(path) && Join(path) in keys)
    && (forall key :: key in keys ==> exists path :: IsPath(path) && Join(path) == key)
  }

  lemma LeafIsOverridden(heap: Heap, overrides: seq<Override>, path: Path)
    requires HoldsValues(heap, overrides)
    ensures IsLeaf(heap, path) <==> exists o :: o in overrides && o.path == path
  {
    HasLastValue(overrides, path);
    if LastValue(overrides, path).Some? {
      assert Lookup(heap, 0, path) == Some(Leaf(LastValue(overrides, path).value));
    }
  }

  lemma KeysNameLeaves(heap: Heap, overrides: seq<Override>)
    requires HoldsValues(heap, overrides) && forall o :: o in overrides ==> IsPath(o.path)
    ensures KeysAreLeaves(heap, set o | o in overrides :: Join(o.path))
  {
    var keys := set o | o in overrides :: Join(o.path);
    forall path
      ensures IsLeaf(heap, path) <==> IsPath(path) && Join(path) in keys
    {
      LeafIsOverridden(heap, overrides, path);
      if IsPath(path) && Join(path) in keys {
        var o :| o in overrides && Join(o.path) == Join(path);
        SplitUndoesJoin(o.path);
        SplitUndoesJoin(path);
      }
    }
  }

  ghost predicate IsDict(heap: Heap, path: Path) {
    Lookup(heap, 0, path).Some? && Lookup(heap, 0, path).value.Table?
  }

  /** On the way to something stand only dicts. */
  lemma {:induction false} WayIsDicts(heap: Heap, id: nat, path: Path, k: nat)
    requires k < |path| && Lookup(heap, id, path).Some?
    ensures Lookup(heap, id, path[..k]).Some? && Lookup(heap, id, path[..k]).value.Table?
    decreases |path|
  {
    if k > 0 {
      WayIsDicts(heap, heap[id][path[0]].id, path[1..], k - 1);
      assert path[..k][1..] == path[1..][..k - 1];
    }
  }

  /** The dicts stand exactly where the paths of overrides pass through, besides the top. */
  lemma DictsAreOnTheWay(heap: Heap, addr: seq<Path>, overrides: seq<Override>, path: Path)
    requires Shaped(heap, addr) && HoldsValues(heap, overrides) && OnTheWay(addr, overrides)
    ensures IsDict(heap, path) <==> path == [] || exists o :: o in overrides && ProperPrefix(path, o.path)
  {
    if IsDict(heap, path) {
      TablesAreAddressed(heap, addr, 0, path);
      assert addr[0] + path == path;
    }
    if o :| o in overrides && ProperPrefix(path, o.path) {
      LeafIsOverridden(heap, overrides, o.path);
      WayIsDicts(heap, 0, o.path, |path|);
    }
  }

  /** `nest_overrides`: a list is refused exactly when an override is malformed or one path is a proper
      prefix of another; otherwise each path looks up to the value of its last override, nothing else has
      a value, and the keys returned are the dotted paths set. */
  method NestOverrides(raws: seq<Text>) returns (r: Nested)
    ensures r.Malformed? <==> !AllParse(raws)
    ensures r.Conflicting? <==> AllParse(raws) && Conflicts(Paths(ParsedAll(raws)))
    ensures r.Nested? ==> r.tree.Holds(ParsedAll(raws))
    ensures r.Nested? ==> r.keys == set o | o in ParsedAll(raws) :: Join(o.path)
    ensures r.Nested? ==> KeysAreLeaves(r.tree.heap, r.keys)
    ensures r.Nested? ==> forall o :: o in ParsedAll(raws) ==> IsLeaf(r.tree.heap, o.path)
    ensures r.Nested? ==> forall path :: IsDict(r.tree.heap, path) <==>
      path == [] || exists o :: o in ParsedAll(raws) && ProperPrefix(path, o.path)
  {
    hide Parse, Conflicts, KeysAreLeaves, IsPath, Join, IsDict, IsLeaf, ProperPrefix;
    if exists i :: 0 <= i < |raws| && !Parse(raws[i]).Ok? {
      return Malformed;
    }
    var overrides := ParsedAll(raws);
    forall i | 0 <= i < |raws|
      ensures IsPath(Paths(overrides)[i])
    {
      PathsOfParsed(raws, i);
    }
    var refused := RefuseConflicts(Paths(overrides));
    if refused {
      return Conflicting;
    }
    var tree := new OverrideTree();
    for i := 0 to |overrides|
      invariant fresh(tree) && tree.Holds(overrides[..i])
    {
      FitsAll(overrides, i);
      assert overrides[..i + 1] == overrides[..i] + [overrides[i]];
      assert IsPath(Paths(overrides)[i]);
      tree.NestOverride(overrides[i], overrides[..i]);
    }
    assert overrides[..|overrides|] == overrides;
    forall o | o in overrides
      ensures IsPath(o.path)
    {
      var i :| 0 <= i < |overrides| && overrides[i] == o;
      PathsOfParsed(raws, i);
    }
    KeysNameLeaves(tree.heap, overrides);
    forall path
      ensures IsDict(tree.heap, path) <==> path == [] || exists o :: o in overrides && ProperPrefix(path, o.path)
    {
      DictsAreOnTheWay(tree.heap, tree.addr, overrides, path);
    }
    forall o | o in overrides
      ensures IsLeaf(tree.heap, o.path)
    {
      LeafIsOverridden(tree.heap, overrides, o.path);
    }
    return Nested(tree, set o | o in overrides :: Join(o.path));
  }
}
