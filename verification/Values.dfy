/** The values a record is made of, and the pruned walk over them, after domain/records.py. */
module Values {
  import opened Texts
  import opened Surrogates
  import opened TypeSearch

  datatype Atom =
    | Str(text: Text)
    | Number(id: int)   // None, a bool, an int or a float
    | Opaque(id: int)   // any other leaf: a datetime, an enum, a path

  /** A value. A mapping's entry `i` is `keys[i]` with `items[i]`, in insertion order; a record's
      `items` stand in the order of its model's fields. */
  datatype Value =
    | Leaf(atom: Atom)
    | Listing(items: seq<Value>)
    | Tupling(items: seq<Value>)
    | Mapping(keys: seq<Text>, items: seq<Value>)
    | Record(model: Model, items: seq<Value>)

  /** Whether a value of annotation `a` may be `v`, by `v`'s outermost form; `WellTyped` says it of the
      parts of records. A generic's value is one of a union's cases or a container of its arguments. */
  ghost predicate Matches(v: Value, a: Annotation)
    decreases v, a
  {
    match a
    case AnyType => true
    case Nothing => v.Leaf?
    case Annotated(base) => Matches(v, base)
    case MappingOf(_) => v.Mapping?
    case Generic(args) =>
      || MatchesSome(v, args)
      || ((v.Listing? || v.Tupling?) && forall i :: 0 <= i < |v.items| ==> MatchesSome(v.items[i], args))
    case EllipsisMark => true
    case Unresolved => true
    case ModelClass(m) => v.Record? && v.model == m
    case PlainClass(collection, textual) => (collection && !textual) || v.Leaf?
  }

  ghost predicate MatchesSome(v: Value, args: seq<Annotation>)
    decreases v, args
  {
    exists k :: 0 <= k < |args| && args[k] != EllipsisMark && Matches(v, args[k])
  }

  /** Mappings have one item per key and no key twice; each record is of a known model and holds, in
      every field, a value of that field's annotation. */
  ghost predicate WellTyped(s: Schema, v: Value) {
    match v
    case Leaf(_) => true
    case Mapping(keys, items) =>
      |keys| == |items| && Distinct(keys) && forall i :: 0 <= i < |items| ==> WellTyped(s, items[i])
    case Record(m, items) =>
      && m in s
      && |items| == |s[m]|
      && (forall i :: 0 <= i < |items| ==> WellTyped(s, items[i]))
      && (forall i :: 0 <= i < |items| ==> Matches(items[i], s[m][i].annotation))
    case _ => forall i :: 0 <= i < |v.items| ==> WellTyped(s, v.items[i])
  }

  /** The parts a walk looks at: `_children`. Of a record, only the fields that can hold a mapping. */
  predicate Walked(s: Schema, v: Value, i: nat)
    requires v.Leaf? || i < |v.items|
  {
    && !v.Leaf?
    && (v.Record? ==> v.model in s && i < |s[v.model]| && IsMappingField(s, v.model, i))
  }

  /** `_holds_surrogate_key`, skipping the fields the type search rules out. */
  predicate HoldsSurrogateKey(s: Schema, v: Value) {
    || (v.Mapping? && exists i :: 0 <= i < |v.keys| && HasSurrogate(v.keys[i]))
    || (!v.Leaf? && exists i :: 0 <= i < |v.items| && Walked(s, v, i) && HoldsSurrogateKey(s, v.items[i]))
  }

  /** The same question asked of every field. */
  predicate HasBadKey(v: Value) {
    || (v.Mapping? && exists i :: 0 <= i < |v.keys| && HasSurrogate(v.keys[i]))
    || (!v.Leaf? && exists i :: 0 <= i < |v.items| && HasBadKey(v.items[i]))
  }

  /** A mapping stands somewhere in the value. */
  predicate HoldsMapping(v: Value) {
    v.Mapping? || (!v.Leaf? && exists i :: 0 <= i < |v.items| && HoldsMapping(v.items[i]))
  }

  /** Where a mapping is, the type search says one can be. */
  lemma {:induction false} MappingIsFound(s: Schema, v: Value, a: Annotation)
    requires WellTyped(s, v) && Matches(v, a) && HoldsMapping(v)
    ensures CanHold(s, a, {})
    decreases v, a
  {
    match a {
      case Annotated(base) =>
        MappingIsFound(s, v, base);
      case Generic(args) =>
        var part := v;
        if !MatchesSome(v, args) {
          var i :| 0 <= i < |v.items| && HoldsMapping(v.items[i]);
          part := v.items[i];
        }
        assert MatchesSome(part, args);
        var k :| 0 <= k < |args| && args[k] != EllipsisMark && Matches(part, args[k]);
        MappingIsFound(s, part, args[k]);
        PartIsFound(s, a, args[k]);
      case ModelClass(m) =>
        var i :| 0 <= i < |v.items| && HoldsMapping(v.items[i]);
        MappingIsFound(s, v.items[i], s[m][i].annotation);
        PartIsFound(s, a, s[m][i].annotation);
      case _ =>
    }
  }

  ghost predicate IsValueOf(s: Schema, v: Value, a: Annotation) {
    WellTyped(s, v) && Matches(v, a)
  }

  /** Every field of every model has some value. */
  ghost predicate Inhabited(s: Schema) {
    forall m, i :: m in s && 0 <= i < |s[m]| ==> exists v :: IsValueOf(s, v, s[m][i].annotation)
  }

  lemma {:induction false} SomeItems(s: Schema, m: Model, n: nat) returns (items: seq<Value>)
    requires Inhabited(s) && m in s && n <= |s[m]|
    ensures |items| == n && forall i :: 0 <= i < n ==> IsValueOf(s, items[i], s[m][i].annotation)
  {
    hide IsValueOf;
    items := [];
    if n > 0 {
      var i: nat := n - 1;
      items := SomeItems(s, m, i);
      var annotation := s[m][i].annotation;
      var v :| IsValueOf(s, v, annotation);
      items := items + [v];
    }
  }

  lemma RecordOf(s: Schema, m: Model, items: seq<Value>)
    requires m in s && |items| == |s[m]|
    requires forall i :: 0 <= i < |items| ==> IsValueOf(s, items[i], s[m][i].annotation)
    ensures IsValueOf(s, Record(m, items), ModelClass(m))
  {
  }

  /** A record with the value in one field, and some value in every other. */
  lemma RecordHoldsMapping(s: Schema, m: Model, k: nat, v: Value) returns (w: Value)
    requires Inhabited(s) && m in s && k < |s[m]| && IsValueOf(s, v, s[m][k].annotation) && HoldsMapping(v)
    ensures IsValueOf(s, w, ModelClass(m)) && HoldsMapping(w)
  {
    hide IsValueOf, Inhabited;
    var items := SomeItems(s, m, |s[m]|);
    items := items[k := v];
    RecordOf(s, m, items);
    w := Record(m, items);
    assert w.items[k] == v;
  }

  lemma CapableIsMapped(s: Schema, a: Annotation)
    requires Capable(a)
    ensures IsValueOf(s, Mapping([], []), a) && HoldsMapping(Mapping([], []))
  {
  }

  /** From a value of a part, one of the whole. */
  lemma WholeHoldsMapping(s: Schema, a: Annotation, b: Annotation, v: Value) returns (w: Value)
    requires Inhabited(s) && HasPart(s, a, b) && IsValueOf(s, v, b) && HoldsMapping(v)
    ensures IsValueOf(s, w, a) && HoldsMapping(w)
  {
    w := v;
    if a.Generic? {
      var k :| 0 <= k < |a.args| && a.args[k] == b;
      assert MatchesSome(v, a.args);
    } else if a.ModelClass? {
      var k :| 0 <= k < |s[a.model]| && s[a.model][k].annotation == b;
      w := RecordHoldsMapping(s, a.model, k, v);
    }
  }

  lemma {:induction false} PathHasAValue(s: Schema, p: seq<Annotation>) returns (v: Value)
    requires Inhabited(s) && IsPath(s, p)
    ensures IsValueOf(s, v, p[0]) && HoldsMapping(v)
    decreases |p|
  {
    hide Inhabited, IsValueOf, HoldsMapping, HasPart, Capable;
    if |p| == 1 {
      CapableIsMapped(s, p[0]);
      v := Mapping([], []);
    } else {
      var q := p[1..];
      assert forall i :: 0 <= i < |q| ==> q[i] == p[i + 1];
      var part := PathHasAValue(s, q);
      v := WholeHoldsMapping(s, p[0], p[1], part);
    }
  }

  /** The type search says yes exactly where some value of the annotation holds a mapping. */
  lemma SearchIsExact(s: Schema, a: Annotation)
    requires Inhabited(s)
    ensures CanHold(s, a, {}) <==> exists v :: IsValueOf(s, v, a) && HoldsMapping(v)
  {
    if CanHold(s, a, {}) {
      SearchIsReachability(s, a);
      var p :| IsPath(s, p) && p[0] == a;
      var v := PathHasAValue(s, p);
    }
    if v :| IsValueOf(s, v, a) && HoldsMapping(v) {
      MappingIsFound(s, v, a);
    }
  }

  /** A field the walk skips holds no mapping at all. */
  lemma SkippedHoldsNoMapping(s: Schema, v: Value, i: nat)
    requires WellTyped(s, v) && !v.Leaf? && i < |v.items| && !Walked(s, v, i)
    ensures !HoldsMapping(v.items[i])
  {
    if HoldsMapping(v.items[i]) {
      MappingIsFound(s, v.items[i], s[v.model][i].annotation);
    }
  }

  lemma {:induction false} BadKeyNeedsMapping(v: Value)
    requires HasBadKey(v)
    ensures HoldsMapping(v)
  {
    if !v.Mapping? {
      var i :| 0 <= i < |v.items| && HasBadKey(v.items[i]);
      BadKeyNeedsMapping(v.items[i]);
    }
  }

  /** The pruned search for a surrogate key answers exactly as a walk of every field would. */
  lemma {:induction false} PruningLosesNoKey(s: Schema, v: Value)
    requires WellTyped(s, v)
    ensures HoldsSurrogateKey(s, v) <==> HasBadKey(v)
  {
    if !v.Leaf? {
      forall i | 0 <= i < |v.items|
        ensures HoldsSurrogateKey(s, v.items[i]) <==> HasBadKey(v.items[i])
        ensures HasBadKey(v.items[i]) ==> Walked(s, v, i)
      {
        PruningLosesNoKey(s, v.items[i]);
        if HasBadKey(v.items[i]) && !Walked(s, v, i) {
          BadKeyNeedsMapping(v.items[i]);
          SkippedHoldsNoMapping(s, v, i);
        }
      }
    }
  }

  // ----- why the search starts with nothing seen

  /** The walk as it would be over the fields of the seeded search. */
  predicate HoldsSurrogateKeySeeded(s: Schema, v: Value) {
    || (v.Mapping? && exists i :: 0 <= i < |v.keys| && HasSurrogate(v.keys[i]))
    || (!v.Leaf? && exists i ::
          && 0 <= i < |v.items|
          && (v.Record? ==> v.model in s && i < |s[v.model]| && IsSeededField(s, v.model, i))
          && HoldsSurrogateKeySeeded(s, v.items[i]))
  }

  /** A tree of records, each with its children and a bag of data. */
  const TREE: Model := "Tree"
  const CHILDREN: Annotation := Generic([ModelClass(TREE)])
  const TREES: Schema :=
    map[TREE := [Field(FromString("children"), CHILDREN), Field(FromString("data"), MappingOf([]))]]

  const BAD_KEY: Text := [0xDCFF]
  const CHILD: Value := Record(TREE, [Listing([]), Mapping([BAD_KEY], [Leaf(Number(1))])])
  const PARENT: Value := Record(TREE, [Listing([CHILD]), Mapping([], [])])

  lemma EmptyBagHasNoKey()
    ensures !HoldsSurrogateKeySeeded(TREES, Mapping([], []))
  {
  }

  lemma SeededFields()
    ensures !IsSeededField(TREES, TREE, 0) && IsSeededField(TREES, TREE, 1)
  {
    assert CHILDREN.args == [ModelClass(TREE)];
    SeedingTheModelDeniesItsOwnType(TREES, TREE);
  }

  lemma ParentIsWellTyped()
    ensures WellTyped(TREES, CHILD) && WellTyped(TREES, PARENT)
  {
    assert WellTyped(TREES, Leaf(Number(1)));
    assert WellTyped(TREES, CHILD.items[0]) && WellTyped(TREES, CHILD.items[1]);
    assert Matches(CHILD.items[0], CHILDREN) && Matches(CHILD.items[1], MappingOf([]));
    assert WellTyped(TREES, CHILD);
    assert Matches(CHILD, ModelClass(TREE)) && CHILDREN.args[0] == ModelClass(TREE);
    assert MatchesSome(CHILD, CHILDREN.args);
    assert WellTyped(TREES, PARENT.items[0]) && WellTyped(TREES, PARENT.items[1]);
    assert Matches(PARENT.items[0], CHILDREN) && Matches(PARENT.items[1], MappingOf([]));
  }

  lemma ParentHasBadKey()
    ensures HasBadKey(PARENT)
  {
    assert HasSurrogate(CHILD.items[1].keys[0]) by { assert IsSurrogate(BAD_KEY[0]); }
    assert HasBadKey(CHILD.items[1]);
    assert HasBadKey(CHILD);
    assert PARENT.items[0].items[0] == CHILD;
    assert HasBadKey(PARENT.items[0]);
  }

  /** A bad key in a child's data is found from the parent, but not by a search seeded with the model. */
  lemma SeededWalkMissesAKey()
    ensures WellTyped(TREES, PARENT) && HasBadKey(PARENT)
    ensures HoldsSurrogateKey(TREES, PARENT) && !HoldsSurrogateKeySeeded(TREES, PARENT)
  {
    ParentIsWellTyped();
    ParentHasBadKey();
    PruningLosesNoKey(TREES, PARENT);
    SeededFields();
    EmptyBagHasNoKey();
    hide WellTyped, HasBadKey, HoldsSurrogateKey, IsSeededField;
    assert PARENT.items[1] == Mapping([], []);
  }
}
