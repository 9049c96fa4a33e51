/** Numbered candidate names: a finite set of taken names always leaves one of them free. */
module FreshNames {
  import opened Texts

  ghost predicate Injective(f: nat -> Text) {
    forall m: nat, n: nat :: f(m) == f(n) ==> m == n
  }

  /** The candidates tried so far. */
  ghost function Tried(f: nat -> Text, from: nat, to: nat): set<Text> {
    set k: nat | from <= k < to :: f(k)
  }

  /** The first number at or after `from` whose candidate is not taken. The search ends because each
      taken candidate it passes is a different element of the finite set `taken`. */
  ghost function FirstFree(f: nat -> Text, taken: set<Text>, from: nat, to: nat := from): (k: nat)
    requires Injective(f)
    requires from <= to
    requires Tried(f, from, to) <= taken
    ensures to <= k && f(k) !in taken
    ensures forall j: nat :: from <= j < k ==> f(j) in taken
    decreases |taken - Tried(f, from, to)|
  {
    if f(to) in taken then
      assert Tried(f, from, to + 1) == Tried(f, from, to) + {f(to)};
      assert f(to) !in Tried(f, from, to);
      assert taken - Tried(f, from, to + 1) == taken - Tried(f, from, to) - {f(to)};
      FirstFree(f, taken, from, to + 1)
    else
      to
  }

  lemma FirstFreeUnique(f: nat -> Text, taken: set<Text>, from: nat, k: nat)
    requires Injective(f)
    requires from <= k && f(k) !in taken
    requires forall j: nat :: from <= j < k ==> f(j) in taken
    ensures k == FirstFree(f, taken, from)
  {
  }
}
