/** Which annotations let a field hold a mapping, after domain/records.py. The model classes may refer
    to each other in cycles; the search cuts a class already on its path. */
module TypeSearch {
  import opened Texts

  type Model = string

  datatype Annotation =
    | AnyType                                        // Any, object
    | Nothing                                        // None, NoneType, Literal[...]
    | Annotated(base: Annotation)                    // Annotated[X, ...]
    | MappingOf(args: seq<Annotation>)               // dict[...], Mapping[...]
    | Generic(args: seq<Annotation>)                 // list[...], tuple[...], X | Y
    | EllipsisMark                                   // the ... of tuple[X, ...]
    | Unresolved                                     // a TypeVar, a forward reference
    | ModelClass(model: Model)
    | PlainClass(collection: bool, textual: bool)    // any other class

  datatype Field = Field(name: Text, annotation: Annotation)

  /** The fields of every model class. A class that is not listed has none. */
  type Schema = map<Model, seq<Field>>

  // ----- the search

  /** `_can_hold_mapping` with `_generic_can_hold_mapping` and `_class_can_hold_mapping`. It ends
      because a model entered is one more of finitely many in `seen`, and otherwise the annotation
      gets smaller. */
  predicate CanHold(s: Schema, a: Annotation, seen: set<Model>)
    decreases s.Keys - seen, a
  {
    match a
    case AnyType => true
    case Nothing => false
    case Annotated(base) => CanHold(s, base, seen)
    case MappingOf(_) => true
    case Generic(args) => exists i :: 0 <= i < |args| && args[i] != EllipsisMark && CanHold(s, args[i], seen)
    case EllipsisMark => true
    case Unresolved => true
    case ModelClass(m) =>
      && m !in seen
      && m in s
      && exists i :: 0 <= i < |s[m]| && CanHold(s, s[m][i].annotation, seen + {m})
    case PlainClass(collection, textual) => collection && !textual
  }

  /** Whether `_mapping_fields(m)` lists field `i`: each field's search starts with nothing seen. */
  predicate IsMappingField(s: Schema, m: Model, i: nat)
    requires m in s && i < |s[m]|
  {
    CanHold(s, s[m][i].annotation, {})
  }

  /** What it would list if each search started with the model itself seen. */
  predicate IsSeededField(s: Schema, m: Model, i: nat)
    requires m in s && i < |s[m]|
  {
    CanHold(s, s[m][i].annotation, {m})
  }

  // ----- what it should answer: reachability

  /** A value of the annotation can itself be a mapping, or nothing is known about it. */
  predicate Capable(a: Annotation) {
    a.AnyType? || a.MappingOf? || a.EllipsisMark? || a.Unresolved? || (a.PlainClass? && a.collection && !a.textual)
  }

  /** A value of `a` can have a part of annotation `b`. */
  predicate HasPart(s: Schema, a: Annotation, b: Annotation) {
    match a
    case Annotated(base) => b == base
    case Generic(args) => b in args && b != EllipsisMark
    case ModelClass(m) => m in s && exists i :: 0 <= i < |s[m]| && s[m][i].annotation == b
    case _ => false
  }

  ghost predicate IsPath(s: Schema, p: seq<Annotation>) {
    && |p| > 0
    && Capable(p[|p| - 1])
    && forall i :: 0 <= i < |p| - 1 ==> HasPart(s, p[i], p[i + 1])
  }

  ghost predicate Avoids(p: seq<Annotation>, seen: set<Model>) {
    forall i :: 0 <= i < |p| && p[i].ModelClass? ==> p[i].model !in seen
  }

  /** A mapping-capable annotation can be reached from `a`, entering no model of `seen`. */
  ghost predicate ReachableAvoiding(s: Schema, a: Annotation, seen: set<Model>) {
    exists p :: IsPath(s, p) && p[0] == a && Avoids(p, seen)
  }

  /** A mapping-capable annotation can be reached from `a` at all, models entered again and again. */
  ghost predicate Reachable(s: Schema, a: Annotation) {
    exists p :: IsPath(s, p) && p[0] == a
  }

  // ----- they agree

  lemma Prepend(s: Schema, a: Annotation, p: seq<Annotation>)
    requires IsPath(s, p) && HasPart(s, a, p[0])
    ensures IsPath(s, [a] + p)
  {
    var q := [a] + p;
    forall i | 0 <= i < |q| - 1
      ensures HasPart(s, q[i], q[i + 1])
    {
      if i > 0 {
        assert q[i] == p[i - 1] && q[i + 1] == p[i];
      }
    }
  }

  lemma {:induction false} FoundIsReachable(s: Schema, a: Annotation, seen: set<Model>)
    requires CanHold(s, a, seen)
    ensures ReachableAvoiding(s, a, seen)
    decreases s.Keys - seen, a
  {
    if Capable(a) {
      assert IsPath(s, [a]);
    } else {
      var b, seen' := a, seen;
      match a {
        case Annotated(base) =>
          b := base;
        case Generic(args) =>
          var i :| 0 <= i < |args| && args[i] != EllipsisMark && CanHold(s, args[i], seen);
          b := args[i];
        case ModelClass(m) =>
          seen' := seen + {m};
          var i :| 0 <= i < |s[m]| && CanHold(s, s[m][i].annotation, seen + {m});
          b := s[m][i].annotation;
        case PlainClass(_, _) =>
      }
      FoundIsReachable(s, b, seen');
      var p :| IsPath(s, p) && p[0] == b && Avoids(p, seen');
      Prepend(s, a, p);
      assert Avoids([a] + p, seen);
    }
  }

  /** The path from its last visit to model `m` on. */
  lemma {:induction false} LastVisit(p: seq<Annotation>, m: Model) returns (k: nat)
    requires |p| > 0 && p[0] == ModelClass(m)
    ensures k < |p| && p[k] == ModelClass(m)
    ensures forall i :: k < i < |p| ==> p[i] != ModelClass(m)
  {
    k := |p| - 1;
    while p[k] != ModelClass(m)
      invariant 0 <= k < |p|
      invariant forall i :: k < i < |p| ==> p[i] != ModelClass(m)
      decreases k
    {
      k := k - 1;
    }
  }

  /** Cutting the cycle loses no answer: whatever is reachable through a second visit to a model is
      reachable from its last visit, which needs no other. */
  lemma {:induction false} ReachableIsFound(s: Schema, p: seq<Annotation>, seen: set<Model>)
    requires IsPath(s, p) && Avoids(p, seen)
    ensures CanHold(s, p[0], seen)
    decreases |p|
  {
    if |p| > 1 && !Capable(p[0]) {
      var k, seen' := 0, seen;
      if p[0].ModelClass? {
        k := LastVisit(p, p[0].model);
        seen' := seen + {p[0].model};
      }
      var q := p[k + 1..];
      assert p[k] == p[0] && HasPart(s, p[k], p[k + 1]);
      assert forall i :: 0 <= i < |q| ==> q[i] == p[k + 1 + i];
      ReachableIsFound(s, q, seen');
    }
  }

  /** The search answers exactly whether a mapping-capable annotation can be reached without entering
      a model of `seen`. */
  lemma CanHoldIsReachability(s: Schema, a: Annotation, seen: set<Model>)
    ensures CanHold(s, a, seen) <==> ReachableAvoiding(s, a, seen)
  {
    if CanHold(s, a, seen) {
      FoundIsReachable(s, a, seen);
    }
    if ReachableAvoiding(s, a, seen) {
      var p :| IsPath(s, p) && p[0] == a && Avoids(p, seen);
      ReachableIsFound(s, p, seen);
    }
  }

  /** From an empty path, the search answers plain reachability on the graph of models, cyclic or not. */
  lemma SearchIsReachability(s: Schema, a: Annotation)
    ensures CanHold(s, a, {}) <==> Reachable(s, a)
  {
    CanHoldIsReachability(s, a, {});
    if Reachable(s, a) {
      var p :| IsPath(s, p) && p[0] == a;
      assert Avoids(p, {});
    }
  }

  /** The answer for a part carries over to the whole. */
  lemma PartIsFound(s: Schema, a: Annotation, b: Annotation)
    requires HasPart(s, a, b) && CanHold(s, b, {})
    ensures CanHold(s, a, {})
  {
    SearchIsReachability(s, b);
    var p :| IsPath(s, p) && p[0] == b;
    Prepend(s, a, p);
    SearchIsReachability(s, a);
  }

  /** A search started with a model itself seen denies a field of that model's own type. */
  lemma SeedingTheModelDeniesItsOwnType(s: Schema, m: Model)
    ensures !CanHold(s, ModelClass(m), {m})
  {
  }
}
