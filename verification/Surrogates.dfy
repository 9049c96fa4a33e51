/** The one rule for text holding an undecodable byte, after domain/surrogates.py. */
module Surrogates {
  import opened Texts
  import opened FreshNames

  predicate HasSurrogate(t: Text) {
    exists i :: 0 <= i < |t| && IsSurrogate(t[i])
  }

  function ReplaceSurrogates(t: Text): (r: Text)
    ensures |r| == |t| && !HasSurrogate(r)
    ensures forall i :: 0 <= i < |t| ==> r[i] == if IsSurrogate(t[i]) then REPLACEMENT else t[i]
    ensures r == t <==> !HasSurrogate(t)
  {
    seq(|t|, i requires 0 <= i < |t| => if IsSurrogate(t[i]) then REPLACEMENT else t[i])
  }

  // ----- the first free `~N` suffix

  /** `name` for number 1, then `name~2`, `name~3`, ... */
  function Candidate(name: Text, number: nat): Text {
    if number <= 1 then name else name + [TILDE] + Decimal(number)
  }

  /** The candidates for `name` from number 1 on. */
  function Candidates(name: Text): nat -> Text {
    (k: nat) => Candidate(name, k + 1)
  }

  lemma CandidatesInjective(name: Text)
    ensures Injective(Candidates(name))
  {
    forall m: nat, n: nat | Candidates(name)(m) == Candidates(name)(n)
      ensures m == n
    {
      var s, t := Candidate(name, m + 1), Candidate(name, n + 1);
      if m > 0 && n > 0 {
        assert s[|name| + 1..] == Decimal(m + 1) && t[|name| + 1..] == Decimal(n + 1);
        DecimalInjective(m + 1, n + 1);
      }
    }
  }

  /** The first candidate for `name` that is not taken. */
  ghost function FreeName(name: Text, taken: set<Text>): (r: Text)
    ensures r !in taken
    ensures name !in taken ==> r == name
    ensures !HasSurrogate(name) ==> !HasSurrogate(r)
  {
    CandidatesInjective(name);
    var f := Candidates(name);
    f(FirstFree(f, taken, 0))
  }

  /** `_free_name`: the loop runs out of taken names, so it ends. */
  method FindFreeName(name: Text, taken: set<Text>) returns (candidate: Text)
    ensures candidate == FreeName(name, taken)
    ensures candidate !in taken
    ensures exists n: nat :: n >= 1 && candidate == Candidate(name, n)
              && forall j: nat :: 1 <= j < n ==> Candidate(name, j) in taken
  {
    CandidatesInjective(name);
    ghost var free := FirstFree(Candidates(name), taken, 0);
    var suffix := 2;
    candidate := name;
    while candidate in taken
      invariant 2 <= suffix <= free + 2
      invariant candidate == Candidates(name)(suffix - 2)
      invariant forall j: nat :: j < suffix - 2 ==> Candidates(name)(j) in taken
      decreases free + 2 - suffix
    {
      candidate, suffix := name + [TILDE] + Decimal(suffix), suffix + 1;
    }
    FirstFreeUnique(Candidates(name), taken, 0, suffix - 2);
    forall j: nat | 1 <= j < suffix - 1
      ensures Candidate(name, j) in taken
    {
      assert Candidates(name)(j - 1) in taken;
    }
    assert candidate == Candidate(name, suffix - 1);
  }

  // ----- the new names of one mapping's keys

  ghost function CleanKeys(keys: seq<Text>): set<Text> {
    set k | k in keys && !HasSurrogate(k)
  }

  ghost function Elements(names: seq<Text>): set<Text> {
    set name | name in names
  }

  /** The names the first `n` keys end up with: a bad key takes the first candidate outside the valid
      keys and the names before it. */
  ghost function FirstNames(keys: seq<Text>, n: nat): (names: seq<Text>)
    requires n <= |keys|
    ensures |names| == n
  {
    if n == 0 then []
    else
      var before := FirstNames(keys, n - 1);
      var key := keys[n - 1];
      before + [if HasSurrogate(key)
                then FreeName(ReplaceSurrogates(key), CleanKeys(keys) + Elements(before))
                else key]
  }

  /** The keys of a mapping after repair, in the mapping's order. */
  ghost function Names(keys: seq<Text>): (names: seq<Text>)
    ensures |names| == |keys|
  {
    FirstNames(keys, |keys|)
  }

  lemma {:induction false} FirstNamesPrefix(keys: seq<Text>, m: nat, n: nat)
    requires m <= n <= |keys|
    ensures FirstNames(keys, m) == FirstNames(keys, n)[..m]
    decreases n - m
  {
    if m < n {
      FirstNamesPrefix(keys, m, n - 1);
    }
  }

  /** Each repaired key takes the first candidate free when its turn comes: every valid key and every
      name before it is taken, and nothing else is. */
  lemma RepairedKeyTakesFirstFreeName(keys: seq<Text>, i: nat)
    requires i < |keys| && HasSurrogate(keys[i])
    ensures Names(keys)[i] == FreeName(ReplaceSurrogates(keys[i]), CleanKeys(keys) + Elements(Names(keys)[..i]))
  {
    var before := FirstNames(keys, i);
    var upTo := FirstNames(keys, i + 1);
    assert upTo[i] == FreeName(ReplaceSurrogates(keys[i]), CleanKeys(keys) + Elements(before));
    assert Names(keys)[..i] == before by { FirstNamesPrefix(keys, i, |keys|); }
    assert Names(keys)[i] == upTo[i] by { FirstNamesPrefix(keys, i + 1, |keys|); }
  }

  lemma {:induction false} FirstNamesDistinct(keys: seq<Text>, n: nat)
    requires Distinct(keys) && n <= |keys|
    ensures var names := FirstNames(keys, n);
      && Distinct(names)
      && (forall i :: 0 <= i < n ==> !HasSurrogate(names[i]))
      && (forall i :: 0 <= i < n && HasSurrogate(keys[i]) ==> names[i] !in CleanKeys(keys))
      && (forall i :: 0 <= i < n && !HasSurrogate(keys[i]) ==> names[i] == keys[i])
  {
    if n > 0 {
      FirstNamesDistinct(keys, n - 1);
      var before, names := FirstNames(keys, n - 1), FirstNames(keys, n);
      forall i | 0 <= i < n - 1
        ensures names[i] != names[n - 1]
      {
        assert before[i] in Elements(before);
        if !HasSurrogate(keys[n - 1]) {
          assert keys[n - 1] in CleanKeys(keys);
        }
      }
    }
  }

  /** The new names hold no surrogate, no two are equal, a key that was valid keeps its name, and a
      repaired key never takes a key's name, wherever that key stands. */
  lemma NamesProperties(keys: seq<Text>)
    requires Distinct(keys)
    ensures var names := Names(keys);
      && Distinct(names)
      && (forall i :: 0 <= i < |keys| ==> !HasSurrogate(names[i]))
      && (forall i :: 0 <= i < |keys| && !HasSurrogate(keys[i]) ==> names[i] == keys[i])
      && (forall i :: 0 <= i < |keys| && HasSurrogate(keys[i]) ==> names[i] !in keys)
  {
    FirstNamesDistinct(keys, |keys|);
  }

  lemma NewNameIsNew(keys: seq<Text>, i: nat)
    requires Distinct(keys) && i < |keys|
    ensures Names(keys)[i] !in Names(keys)[..i]
  {
    NamesProperties(keys);
  }

  /** A mapping without a bad key keeps every name. */
  lemma NamesOfCleanKeys(keys: seq<Text>)
    requires Distinct(keys)
    requires forall i :: 0 <= i < |keys| ==> !HasSurrogate(keys[i])
    ensures Names(keys) == keys
  {
    NamesProperties(keys);
  }

  /** A bad key whose repaired text is itself a key, wherever that stands, becomes `~2`. */
  lemma CollidingKeyBecomesSecond(bad: Text)
    requires HasSurrogate(bad)
    ensures var good := ReplaceSurrogates(bad);
      Names([bad, good]) == [good + [0x7E, 0x32], good]
  {
    var good := ReplaceSurrogates(bad);
    var keys := [bad, good];
    var second := good + [0x7E, 0x32];
    NamesProperties(keys);
    RepairedKeyTakesFirstFreeName(keys, 0);
    assert Names(keys)[..0] == [];
    assert CleanKeys(keys) == {good};
    var f := Candidates(good);
    CandidatesInjective(good);
    assert f(0) == good && f(1) == second by {
      assert Decimal(2) == [0x32];
      assert good + [0x7E] + [0x32] == second;
    }
    assert |second| != |good|;
    FirstFreeUnique(f, {good} + Elements([]), 0, 1);
  }

  lemma ElementsSnoc(names: seq<Text>, name: Text)
    ensures Elements(names + [name]) == Elements(names) + {name}
  {
  }

  lemma FirstNamesStep(keys: seq<Text>, i: nat)
    requires i < |keys|
    ensures var names := FirstNames(keys, i);
      FirstNames(keys, i + 1) == names + [if HasSurrogate(keys[i])
                                          then FreeName(ReplaceSurrogates(keys[i]), CleanKeys(keys) + Elements(names))
                                          else keys[i]]
  {
  }

  lemma NothingNamed(keys: seq<Text>)
    ensures FirstNames(keys, 0) == [] && Elements([]) == {}
  {
  }

  lemma CleanKeyIsTaken(keys: seq<Text>, i: nat)
    requires i < |keys| && !HasSurrogate(keys[i])
    ensures keys[i] in CleanKeys(keys)
  {
  }

  lemma CleanKeyIsKept(keys: seq<Text>, i: nat)
    requires Distinct(keys) && i < |keys| && !HasSurrogate(keys[i])
    ensures Names(keys)[i] == keys[i]
  {
    NamesProperties(keys);
  }

  /** `repaired_key_names`: the new name of each bad key, by key, in one pass over the mapping. */
  method RepairedKeyNames(keys: seq<Text>) returns (renamed: map<Text, Text>)
    requires Distinct(keys)
    ensures forall k :: k in renamed <==> k in keys && HasSurrogate(k)
    ensures forall i :: 0 <= i < |keys| ==>
      Names(keys)[i] == if keys[i] in renamed then renamed[keys[i]] else keys[i]
  {
    var taken := set k | k in keys && !HasSurrogate(k);
    assert taken == CleanKeys(keys);
    hide HasSurrogate, ReplaceSurrogates, FreeName, Candidate, FirstNames, CleanKeys, Elements;
    renamed := map[];
    NothingNamed(keys);
    for i := 0 to |keys|
      invariant taken == CleanKeys(keys) + Elements(FirstNames(keys, i))
      invariant forall k :: k in renamed ==> k in keys && HasSurrogate(k)
      invariant forall j :: 0 <= j < i && HasSurrogate(keys[j]) ==>
        keys[j] in renamed && renamed[keys[j]] == FirstNames(keys, i)[j]
    {
      var key := keys[i];
      ghost var names := FirstNames(keys, i);
      FirstNamesStep(keys, i);
      if HasSurrogate(key) {
        var name := FindFreeName(ReplaceSurrogates(key), taken);
        renamed := renamed[key := name];
        taken := taken + {name};
        ElementsSnoc(names, name);
      } else {
        CleanKeyIsTaken(keys, i);
        ElementsSnoc(names, key);
      }
    }
    forall i | 0 <= i < |keys| && !HasSurrogate(keys[i])
      ensures Names(keys)[i] == keys[i]
    {
      CleanKeyIsKept(keys, i);
    }
  }
}
