/** The `name[extras] @` in front of a direct reference, after domain/packing.py: the shape the regular
    expression asks for, and a reading of it without going back. */
module References {
  import opened Texts

  const AT: CodePoint := 0x40
  const OPENING: CodePoint := 0x5B
  const CLOSING: CodePoint := 0x5D

  lemma MarksAsWritten()
    ensures FromString("@[]") == [AT, OPENING, CLOSING]
  {
  }

  predicate IsAlphanumeric(c: CodePoint) {
    0x30 <= c <= 0x39 || 0x41 <= c <= 0x5A || 0x61 <= c <= 0x7A
  }

  predicate IsNameCharacter(c: CodePoint) {
    IsAlphanumeric(c) || c == DOT || c == 0x2D || c == 0x5F
  }

  const DIGITS: Text := FromString("0123456789")
  const CAPITALS: Text := FromString("ABCDEFGHIJKLMNOPQRSTUVWXYZ")
  const SMALL: Text := FromString("abcdefghijklmnopqrstuvwxyz")

  lemma RangeMembers(range: Text, first: CodePoint, c: CodePoint)
    requires forall i :: 0 <= i < |range| ==> range[i] == first + i
    ensures c in range <==> first <= c < first + |range|
  {
    if first <= c < first + |range| {
      assert range[c - first] == c;
    }
  }

  /** The characters of a name are letters, digits, dots, underscores and hyphens. */
  lemma NameCharacters(c: CodePoint)
    ensures IsAlphanumeric(c) <==> c in DIGITS || c in CAPITALS || c in SMALL
    ensures IsNameCharacter(c) <==> IsAlphanumeric(c) || c in FromString("._-")
  {
    RangeMembers(DIGITS, 0x30, c);
    RangeMembers(CAPITALS, 0x41, c);
    RangeMembers(SMALL, 0x61, c);
    assert FromString("._-") == [0x2E, 0x5F, 0x2D];
  }

  predicate IsProjectName(name: Text) {
    && name != [] && IsAlphanumeric(name[0]) && IsAlphanumeric(name[|name| - 1])
    && forall i :: 0 <= i < |name| ==> IsNameCharacter(name[i])
  }

  /** Nothing, or one pair of brackets. */
  predicate IsExtras(t: Text) {
    t != [] ==>
      && |t| >= 2 && t[0] == OPENING && t[|t| - 1] == CLOSING
      && forall i :: 0 <= i < |t| - 1 ==> t[i] != CLOSING
  }

  /** The parts the regular expression matches. */
  datatype Parts = Parts(indent: Text, name: Text, gap: Text, extras: Text, before: Text, after: Text)

  predicate Matches(p: Parts) {
    && AllSpaces(p.indent) && IsProjectName(p.name) && AllSpaces(p.gap) && IsExtras(p.extras)
    && AllSpaces(p.before) && AllSpaces(p.after)
  }

  /** The parts, with what follows them. */
  function Joined(p: Parts, rest: Text): Text {
    p.indent + (p.name + (p.gap + (p.extras + (p.before + ([AT] + (p.after + rest))))))
  }

  /** Text the regular expression matches from one end to the other. */
  ghost predicate IsReference(t: Text) {
    exists p :: Matches(p) && Joined(p, []) == t
  }

  // ----- reading it

  function SkipName(t: Text): (rest: Text)
    ensures |rest| <= |t| && rest == t[|t| - |rest|..]
    ensures forall i :: 0 <= i < |t| - |rest| ==> IsNameCharacter(t[i])
    ensures rest == [] || !IsNameCharacter(rest[0])
  {
    if t != [] && IsNameCharacter(t[0]) then SkipName(t[1..]) else t
  }

  /** What follows the first closing bracket. */
  function SkipClosing(t: Text): (rest: Option<Text>)
    ensures rest.None? <==> CLOSING !in t
    ensures rest.Some? ==> |rest.value| < |t| && rest.value == t[|t| - |rest.value|..]
    ensures rest.Some? ==> t[|t| - |rest.value| - 1] == CLOSING
    ensures rest.Some? ==> forall i :: 0 <= i < |t| - |rest.value| - 1 ==> t[i] != CLOSING
  {
    if t == [] then None else if t[0] == CLOSING then Some(t[1..]) else SkipClosing(t[1..])
  }

  function SkipExtras(t: Text): (rest: Option<Text>)
    ensures rest.Some? ==> |rest.value| <= |t| && rest.value == t[|t| - |rest.value|..]
    ensures rest.Some? ==> IsExtras(t[..|t| - |rest.value|])
  {
    if t != [] && t[0] == OPENING then SkipClosing(t) else Some(t)
  }

  /** What follows the part behind the name: extras, the at sign and the spaces around them. */
  function AfterExtras(t: Text): Option<Text> {
    match SkipExtras(StripLeft(t))
    case None => None
    case Some(more) =>
      var end := StripLeft(more);
      if end != [] && end[0] == AT then Some(StripLeft(end[1..])) else None
  }

  /** What follows the part matched. */
  function AfterReference(spec: Text): Option<Text> {
    var start := StripLeft(spec);
    var rest := SkipName(start);
    if IsProjectName(start[..|start| - |rest|]) then AfterExtras(rest) else None
  }

  lemma {:induction false} StripLeftOf(spaces: Text, rest: Text)
    requires AllSpaces(spaces) && !SpaceFirst(rest)
    ensures StripLeft(spaces + rest) == rest
  {
    if spaces == [] {
      assert spaces + rest == rest;
    } else {
      assert (spaces + rest)[1..] == spaces[1..] + rest;
      StripLeftOf(spaces[1..], rest);
    }
  }

  lemma {:induction false} SkipNameOf(name: Text, rest: Text)
    requires forall i :: 0 <= i < |name| ==> IsNameCharacter(name[i])
    requires rest == [] || !IsNameCharacter(rest[0])
    ensures SkipName(name + rest) == rest
  {
    if name == [] {
      assert name + rest == rest;
    } else {
      assert (name + rest)[1..] == name[1..] + rest;
      SkipNameOf(name[1..], rest);
    }
  }

  lemma {:induction false} SkipClosingOf(t: Text, rest: Text)
    requires forall i :: 0 <= i < |t| ==> t[i] != CLOSING
    ensures SkipClosing(t + [CLOSING] + rest) == Some(rest)
  {
    var all := t + [CLOSING] + rest;
    if t == [] {
      assert all[1..] == rest;
    } else {
      assert all[1..] == t[1..] + [CLOSING] + rest;
      SkipClosingOf(t[1..], rest);
    }
  }

  lemma SkipExtrasOf(extras: Text, rest: Text)
    requires IsExtras(extras) && (rest == [] || rest[0] != OPENING)
    ensures SkipExtras(extras + rest) == Some(rest)
  {
    hide SkipClosing;
    if extras == [] {
      assert extras + rest == rest;
    } else {
      var inside := extras[..|extras| - 1];
      assert extras == inside + [CLOSING];
      SkipClosingOf(inside, rest);
      assert (extras + rest)[0] == OPENING;
    }
  }

  lemma SkipExtrasParts(t: Text) returns (extras: Text)
    requires SkipExtras(t).Some?
    ensures IsExtras(extras) && extras + SkipExtras(t).value == t
  {
    extras := t[..|t| - |SkipExtras(t).value|];
  }

  lemma SkipNameParts(t: Text) returns (name: Text)
    ensures name + SkipName(t) == t && name == t[..|t| - |SkipName(t)|]
  {
    name := t[..|t| - |SkipName(t)|];
  }

  lemma ExtrasAreMatched(t: Text) returns (gap: Text, extras: Text, before: Text, after: Text)
    requires AfterExtras(t).Some?
    ensures AllSpaces(gap) && IsExtras(extras) && AllSpaces(before) && AllSpaces(after)
    ensures gap + (extras + (before + ([AT] + (after + AfterExtras(t).value)))) == t
    ensures !SpaceFirst(AfterExtras(t).value)
  {
    hide StripLeft, AllSpaces, SpaceFirst, SkipExtras, IsExtras;
    var more := SkipExtras(StripLeft(t)).value;
    var end := StripLeft(more);
    gap := StripLeftParts(t);
    extras := SkipExtrasParts(StripLeft(t));
    before := StripLeftParts(more);
    assert end == [AT] + end[1..];
    after := StripLeftParts(end[1..]);
  }

  /** What is read is made of such parts, and no space is left behind them. */
  lemma ReadIsMatched(spec: Text) returns (p: Parts)
    requires AfterReference(spec).Some?
    ensures Matches(p) && Joined(p, AfterReference(spec).value) == spec && !SpaceFirst(AfterReference(spec).value)
  {
    hide StripLeft, SkipName, IsProjectName, AllSpaces, SpaceFirst, AfterExtras, IsExtras;
    var start := StripLeft(spec);
    var indent := StripLeftParts(spec);
    var name := SkipNameParts(start);
    var gap, extras, before, after := ExtrasAreMatched(SkipName(start));
    p := Parts(indent, name, gap, extras, before, after);
  }

  /** Where there are no extras, the spaces on both sides of them are one run. */
  lemma MatchedExtrasAreRead(gap: Text, extras: Text, before: Text, end: Text)
    requires AllSpaces(gap) && IsExtras(extras) && AllSpaces(before) && end != [] && end[0] == AT
    ensures AfterExtras(gap + (extras + (before + end))) == Some(StripLeft(end[1..]))
  {
    hide StripLeft, SkipExtras;
    var more := before + end;
    StripLeftOf(before, end);
    if extras == [] {
      assert gap + (extras + more) == (gap + before) + end;
      StripLeftOf(gap + before, end);
      SkipExtrasOf([], end);
      assert [] + end == end;
      StripLeftOf([], end);
    } else {
      StripLeftOf(gap, extras + more);
      SkipExtrasOf(extras, more);
    }
  }

  /** Parts of that shape are read in one way only: the name is all of its run, the extras end at the first
      closing bracket. */
  lemma MatchedIsRead(p: Parts, rest: Text)
    requires Matches(p) && !SpaceFirst(rest)
    ensures AfterReference(Joined(p, rest)) == Some(rest)
  {
    hide StripLeft, SkipName, AfterExtras;
    var tail := p.after + rest;
    var end := [AT] + tail;
    var behind := p.gap + (p.extras + (p.before + end));
    var start := p.name + behind;
    StripLeftOf(p.indent, start);
    SkipNameOf(p.name, behind);
    assert start[..|start| - |behind|] == p.name;
    MatchedExtrasAreRead(p.gap, p.extras, p.before, end);
    assert end[1..] == tail;
    StripLeftOf(p.after, rest);
  }

  /** A part in front that has the shape is at most what is read. */
  lemma MatchedIsShorter(head: Text, behind: Text)
    requires IsReference(head)
    ensures AfterReference(head + behind).Some? && |AfterReference(head + behind).value| <= |behind|
  {
    hide AfterReference, StripLeft, IsProjectName, IsExtras;
    var p :| Matches(p) && Joined(p, []) == head;
    var spaces := StripLeftParts(behind);
    var rest := StripLeft(behind);
    var q := p.(after := p.after + spaces);
    assert Joined(q, rest) == Joined(p, []) + behind by {
      assert spaces + rest == behind;
    }
    MatchedIsRead(q, rest);
  }

  lemma PartsAreReference(p: Parts)
    requires Matches(p)
    ensures IsReference(Joined(p, []))
  {
  }

  lemma ReadIsReference(spec: Text) returns (head: Text)
    requires AfterReference(spec).Some?
    ensures IsReference(head) && head + AfterReference(spec).value == spec
  {
    hide AfterReference, IsReference, Matches;
    var p := ReadIsMatched(spec);
    head := Joined(p, []);
    PartsAreReference(p);
    assert head + AfterReference(spec).value == Joined(p, AfterReference(spec).value);
  }

  lemma RestIsBehind(spec: Text)
    ensures AfterReference(spec).Some? ==> |AfterReference(spec).value| <= |spec|
  {
    hide AfterReference;
    if AfterReference(spec).Some? {
      var head := ReadIsReference(spec);
    }
  }

  /** The part matched, empty where there is none. */
  function ReferenceOf(spec: Text): (head: Text)
    ensures head <= spec
  {
    RestIsBehind(spec);
    match AfterReference(spec)
    case None => []
    case Some(rest) => spec[..|spec| - |rest|]
  }

  /** `head` is the longest part in front of `spec` that has the shape, empty where there is none. */
  ghost predicate IsLongest(spec: Text, head: Text) {
    && head <= spec && (head == [] || IsReference(head))
    && forall n :: |head| < n <= |spec| ==> !IsReference(spec[..n])
  }

  /** The part matched is the longest one. */
  lemma ReadIsLongest(spec: Text)
    ensures IsLongest(spec, ReferenceOf(spec))
  {
    hide AfterReference, IsReference;
    var head := ReferenceOf(spec);
    forall n | |head| < n <= |spec|
      ensures !IsReference(spec[..n])
    {
      if IsReference(spec[..n]) {
        assert spec[..n] + spec[n..] == spec;
        MatchedIsShorter(spec[..n], spec[n..]);
      }
    }
    if AfterReference(spec).Some? {
      var read := ReadIsReference(spec);
      assert read == head;
    }
  }

  lemma ReferenceIsNotEmpty()
    ensures !IsReference([])
  {
  }

  /** There is but one. */
  lemma LongestIsUnique(spec: Text, head: Text)
    requires IsLongest(spec, head)
    ensures head == ReferenceOf(spec)
  {
    hide IsReference, ReferenceOf;
    ReadIsLongest(spec);
    var read := ReferenceOf(spec);
    assert spec[..|head|] == head && spec[..|read|] == read;
    ReferenceIsNotEmpty();
  }

  /** A reference starts with a letter or digit, so asking besides that the text does not start with a dot
      changes nothing. */
  lemma DotGuardNeverDecides(spec: Text)
    ensures ReferenceOf(spec) != [] ==> !([DOT] <= StripLeft(spec))
  {
  }
}
