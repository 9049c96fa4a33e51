/** One `user-dirs.dirs` line read the way .NET reads it, after adapters/native/known_folders.py: the same
    parser over code points and over UTF-16 units. */
module KnownFolders {
  import opened Texts
  import opened Surrogates

  /** `"$HOME/"`. */
  const HOME_PREFIX: Text := [0x24, 0x48, 0x4F, 0x4D, 0x45, 0x2F]

  /** .NET's `char.IsWhiteSpace`: the Latin-1 ones and the separator categories, all in the BMP. */
  predicate IsWhitespace(c: CodePoint) {
    || 0x09 <= c <= 0x0D || c == 0x20 || c == 0x85 || c == 0xA0 || c == 0x1680
    || 0x2000 <= c <= 0x200A || c == 0x2028 || c == 0x2029 || c == 0x202F || c == 0x205F || c == 0x3000
  }

  // ----- the parser, on what is left of the line

  function SkipSpace(t: Text): (r: Text)
    ensures |r| <= |t|
  {
    if t != [] && IsWhitespace(t[0]) then SkipSpace(t[1..]) else t
  }

  /** What follows `KEY <ws> = <ws> "`, with .NET's length guards at the `=` and at the quote. */
  function ValueStart(line: Text, key: Text): Option<Text> {
    var atKey := SkipSpace(line);
    if !(key <= atKey) then None
    else
      var atEquals := SkipSpace(atKey[|key|..]);
      if |atEquals| <= 4 || atEquals[0] != EQUALS then None
      else
        var atQuote := SkipSpace(atEquals[1..]);
        if |atQuote| <= 3 || atQuote[0] != QUOTE then None else Some(atQuote[1..])
  }

  /** The text before the next quote, if there is one. */
  function UpToQuote(t: Text): Option<Text> {
    if t == [] then None
    else if t[0] == QUOTE then Some([])
    else match UpToQuote(t[1..]) case None => None case Some(rest) => Some([t[0]] + rest)
  }

  /** `_join`. */
  function Join(first: Text, second: Text): Text {
    if first == [] then second
    else if second == [] then first
    else if first[|first| - 1] == SLASH || second[0] == SLASH then first + second
    else first + [SLASH] + second
  }

  /** What follows the opening quote: a path below home, or an absolute one, up to the closing quote. */
  function ValueFrom(start: Text, home: Text): Option<Text> {
    if HOME_PREFIX <= start then
      match UpToQuote(start[|HOME_PREFIX|..])
      case None => None
      case Some(value) => if value == [] then None else Some(Join(home, value))
    else if start == [] || start[0] != SLASH then None
    else UpToQuote(start)
  }

  /** The value of the line. */
  function Value(line: Text, home: Text, key: Text): Option<Text> {
    match ValueStart(line, key)
    case None => None
    case Some(start) => ValueFrom(start, home)
  }

  // ----- the index parser

  /** `_skip_whitespace`. */
  method SkipWhitespace(line: Text, start: nat) returns (pos: nat)
    requires start <= |line|
    ensures start <= pos <= |line| && line[pos..] == SkipSpace(line[start..])
  {
    pos := start;
    while pos < |line| && IsWhitespace(line[pos])
      invariant start <= pos <= |line| && SkipSpace(line[pos..]) == SkipSpace(line[start..])
    {
      assert line[pos..][1..] == line[pos + 1..];
      pos := pos + 1;
    }
  }

  /** `line.startswith(prefix, pos)`. */
  predicate StartsAt(line: Text, prefix: Text, pos: nat) {
    pos <= |line| && prefix <= line[pos..]
  }

  lemma NoKey(line: Text, key: Text)
    requires !(key <= SkipSpace(line))
    ensures ValueStart(line, key).None?
  {
  }

  lemma NoEquals(line: Text, key: Text)
    requires key <= SkipSpace(line)
    requires var atEquals := SkipSpace(SkipSpace(line)[|key|..]); |atEquals| <= 4 || atEquals[0] != EQUALS
    ensures ValueStart(line, key).None?
  {
  }

  lemma AfterEquals(line: Text, key: Text, atEquals: Text, atQuote: Text)
    requires key <= SkipSpace(line) && atEquals == SkipSpace(SkipSpace(line)[|key|..])
    requires |atEquals| > 4 && atEquals[0] == EQUALS && atQuote == SkipSpace(atEquals[1..])
    ensures ValueStart(line, key) == if |atQuote| <= 3 || atQuote[0] != QUOTE then None else Some(atQuote[1..])
  {
  }

  lemma Drop(line: Text, i: nat, n: nat)
    requires i + n <= |line|
    ensures line[i..][n..] == line[i + n..]
  {
  }

  /** `_value_start`: no index leaves the line. */
  method FindValueStart(line: Text, key: Text) returns (r: Option<nat>)
    ensures r.None? <==> ValueStart(line, key).None?
    ensures r.Some? ==> r.value < |line| && line[r.value..] == ValueStart(line, key).value
  {
    hide SkipSpace, ValueStart;
    var pos := SkipWhitespace(line, 0);
    assert line[0..] == line;
    if !StartsAt(line, key, pos) {
      NoKey(line, key);
      return None;
    }
    Drop(line, pos, |key|);
    pos := SkipWhitespace(line, pos + |key|);
    ghost var atEquals := line[pos..];
    if pos as int >= |line| - 4 || line[pos] != EQUALS {
      NoEquals(line, key);
      return None;
    }
    Drop(line, pos, 1);
    pos := SkipWhitespace(line, pos + 1);
    if pos as int >= |line| - 3 || line[pos] != QUOTE {
      AfterEquals(line, key, atEquals, line[pos..]);
      return None;
    }
    Drop(line, pos, 1);
    AfterEquals(line, key, atEquals, line[pos..]);
    return Some(pos + 1);
  }

  function Prepended(before: Text, rest: Option<Text>): Option<Text> {
    match rest
    case None => None
    case Some(t) => Some(before + t)
  }

  lemma NothingPrepended(rest: Option<Text>)
    ensures Prepended([], rest) == rest
  {
    if rest.Some? {
      assert [] + rest.value == rest.value;
    }
  }

  lemma OnePrepended(before: Text, c: CodePoint, rest: Option<Text>)
    ensures Prepended(before, Prepended([c], rest)) == Prepended(before + [c], rest)
  {
    if rest.Some? {
      assert before + ([c] + rest.value) == before + [c] + rest.value;
    }
  }

  /** `line.find('"', pos)`. */
  method FindQuote(line: Text, pos: nat) returns (end: int)
    requires pos <= |line|
    ensures end == -1 <==> UpToQuote(line[pos..]).None?
    ensures end != -1 ==> pos <= end <= |line| && UpToQuote(line[pos..]) == Some(line[pos..end])
  {
    var i := pos;
    assert line[pos..pos] == [];
    NothingPrepended(UpToQuote(line[pos..]));
    while i < |line| && line[i] != QUOTE
      invariant pos <= i <= |line|
      invariant UpToQuote(line[pos..]) == Prepended(line[pos..i], UpToQuote(line[i..]))
    {
      assert line[i..][1..] == line[i + 1..];
      assert line[pos..i + 1] == line[pos..i] + [line[i]];
      OnePrepended(line[pos..i], line[i], UpToQuote(line[i + 1..]));
      i := i + 1;
    }
    if i == |line| {
      return -1;
    }
    assert line[pos..i] + [] == line[pos..i];
    return i;
  }

  /** `_user_dirs_value`. */
  method UserDirsValue(line: Text, home: Text, key: Text) returns (r: Option<Text>)
    ensures r == Value(line, home, key)
  {
    var start := FindValueStart(line, key);
    if start.None? {
      return None;
    }
    var pos := start.value;
    var relative := StartsAt(line, HOME_PREFIX, pos);
    if relative {
      assert line[pos..][|HOME_PREFIX|..] == line[pos + |HOME_PREFIX|..];
      pos := pos + |HOME_PREFIX|;
    } else if line[pos] != SLASH {
      return None;
    }
    var end := FindQuote(line, pos);
    if end as int <= pos {
      return None;
    }
    var value := line[pos..end];
    return Some(if relative then Join(home, value) else value);
  }

  // ----- the length guards

  /** The parser without the guard at the `=`, which then only needs a character to stand there. */
  function ValueStartWithoutFirstGuard(line: Text, key: Text): Option<Text> {
    var atKey := SkipSpace(line);
    if !(key <= atKey) then None
    else
      var atEquals := SkipSpace(atKey[|key|..]);
      if atEquals == [] || atEquals[0] != EQUALS then None
      else
        var atQuote := SkipSpace(atEquals[1..]);
        if |atQuote| <= 3 || atQuote[0] != QUOTE then None else Some(atQuote[1..])
  }

  /** The guard at the `=` never rejects a line the guard at the quote would accept. */
  lemma FirstGuardNeverDecides(line: Text, key: Text)
    ensures ValueStart(line, key) == ValueStartWithoutFirstGuard(line, key)
  {
    var atKey := SkipSpace(line);
    if key <= atKey {
      var atEquals := SkipSpace(atKey[|key|..]);
      if 0 < |atEquals| <= 4 {
        assert |SkipSpace(atEquals[1..])| <= 3;
      }
    }
  }

  // ----- what a line must look like

  /** .NET's whitespace is Python's, four control characters apart. */
  lemma WhitespaceIsSpace(c: CodePoint)
    ensures IsWhitespace(c) <==> IsSpace(c) && !(0x1C <= c <= 0x1F)
  {
  }

  predicate AllWhitespace(t: Text) {
    forall i :: 0 <= i < |t| ==> IsWhitespace(t[i])
  }

  predicate WhitespaceFirst(t: Text) {
    t != [] && IsWhitespace(t[0])
  }

  lemma {:induction false} SkipSpaceParts(t: Text) returns (space: Text)
    ensures AllWhitespace(space) && space + SkipSpace(t) == t && !WhitespaceFirst(SkipSpace(t))
  {
    space := [];
    if WhitespaceFirst(t) {
      var more := SkipSpaceParts(t[1..]);
      space := [t[0]] + more;
      assert space + SkipSpace(t) == [t[0]] + t[1..];
    }
  }

  lemma {:induction false} SkipSpaceOf(space: Text, rest: Text)
    requires AllWhitespace(space) && !WhitespaceFirst(rest)
    ensures SkipSpace(space + rest) == rest
  {
    if space == [] {
      assert space + rest == rest;
    } else {
      assert (space + rest)[1..] == space[1..] + rest;
      SkipSpaceOf(space[1..], rest);
    }
  }

  predicate IsOpening(line: Text, key: Text, a: Text, b: Text, c: Text, start: Text) {
    line == a + (key + (b + ([EQUALS] + (c + ([QUOTE] + start)))))
  }

  /** The key, an equals sign and an opening quote, whitespace around and between them, and then `start`. */
  ghost predicate Opens(line: Text, key: Text, start: Text) {
    exists a, b, c :: AllWhitespace(a) && AllWhitespace(b) && AllWhitespace(c) && IsOpening(line, key, a, b, c, start)
  }

  lemma StartIsOpened(line: Text, key: Text)
    ensures ValueStart(line, key).Some? ==>
      Opens(line, key, ValueStart(line, key).value) && |ValueStart(line, key).value| >= 3
  {
    hide SkipSpace, AllWhitespace, WhitespaceFirst;
    if ValueStart(line, key).Some? {
      var atKey := SkipSpace(line);
      var afterKey := atKey[|key|..];
      var atEquals := SkipSpace(afterKey);
      var afterEquals := atEquals[1..];
      var atQuote := SkipSpace(afterEquals);
      var a := SkipSpaceParts(line);
      var b := SkipSpaceParts(afterKey);
      var c := SkipSpaceParts(afterEquals);
      assert atQuote == [QUOTE] + atQuote[1..];
      assert atEquals == [EQUALS] + afterEquals;
      assert atKey == key + afterKey;
      assert IsOpening(line, key, a, b, c, atQuote[1..]);
    }
  }

  lemma OpenedIsStart(line: Text, key: Text, start: Text)
    requires key != [] && !IsWhitespace(key[0]) && Opens(line, key, start) && |start| >= 3
    ensures ValueStart(line, key) == Some(start)
  {
    hide SkipSpace, AllWhitespace;
    var a, b, c :| AllWhitespace(a) && AllWhitespace(b) && AllWhitespace(c) && IsOpening(line, key, a, b, c, start);
    var atQuote := [QUOTE] + start;
    var afterEquals := c + atQuote;
    var atEquals := [EQUALS] + afterEquals;
    var afterKey := b + atEquals;
    var atKey := key + afterKey;
    SkipSpaceOf(a, atKey);
    assert atKey[|key|..] == afterKey;
    SkipSpaceOf(b, atEquals);
    assert atEquals[1..] == afterEquals;
    SkipSpaceOf(c, atQuote);
    assert atQuote[1..] == start;
  }

  lemma {:induction false} UpToQuoteParts(t: Text)
    ensures UpToQuote(t).None? <==> QUOTE !in t
    ensures UpToQuote(t).Some? ==>
      var before := UpToQuote(t).value;
      QUOTE !in before && |before| < |t| && t == before + ([QUOTE] + t[|before| + 1..])
  {
    if t != [] && t[0] != QUOTE {
      UpToQuoteParts(t[1..]);
      assert t == [t[0]] + t[1..];
    }
  }

  lemma {:induction false} UpToQuoteOf(before: Text, rest: Text)
    requires QUOTE !in before
    ensures UpToQuote(before + ([QUOTE] + rest)) == Some(before)
  {
    var t := before + ([QUOTE] + rest);
    if before != [] {
      assert t[1..] == before[1..] + ([QUOTE] + rest);
      UpToQuoteOf(before[1..], rest);
      assert [t[0]] + before[1..] == before;
    }
  }

  /** What the text between the quotes names: a path below home, or an absolute one. */
  ghost predicate Gives(content: Text, home: Text, value: Text) {
    || (exists below :: below != [] && content == FromString("$HOME/") + below && value == Join(home, below))
    || (content != [] && content[0] == SLASH && value == content)
  }

  /** A text up to a quote, and what it names. */
  ghost predicate Closes(start: Text, home: Text, value: Text) {
    exists content, rest ::
      QUOTE !in content && start == content + ([QUOTE] + rest) && Gives(content, home, value)
  }

  lemma HomePrefixIsText()
    ensures HOME_PREFIX == FromString("$HOME/")
  {
  }

  lemma FromIsClosed(start: Text, home: Text)
    ensures ValueFrom(start, home).Some? ==> Closes(start, home, ValueFrom(start, home).value)
  {
    HomePrefixIsText();
    hide Join, FromString, UpToQuote;
    if HOME_PREFIX <= start {
      var rest := start[|HOME_PREFIX|..];
      UpToQuoteParts(rest);
      if ValueFrom(start, home).Some? {
        var below := UpToQuote(rest).value;
        var content := HOME_PREFIX + below;
        assert start == content + ([QUOTE] + rest[|below| + 1..]);
        assert Gives(content, home, Join(home, below));
      }
    } else if ValueFrom(start, home).Some? {
      UpToQuoteParts(start);
      var content := UpToQuote(start).value;
      assert Gives(content, home, content);
    }
  }

  lemma ClosedIsFrom(start: Text, home: Text, value: Text)
    requires Closes(start, home, value)
    ensures ValueFrom(start, home) == Some(value)
  {
    HomePrefixIsText();
    hide Join, FromString, UpToQuote;
    var content, rest :|
      QUOTE !in content && start == content + ([QUOTE] + rest) && Gives(content, home, value);
    if content[0] == SLASH {
      assert start[0] == SLASH && HOME_PREFIX[0] != SLASH;
      UpToQuoteOf(content, rest);
    } else {
      var below :| below != [] && content == HOME_PREFIX + below && value == Join(home, below);
      assert start == HOME_PREFIX + (below + ([QUOTE] + rest));
      assert start[|HOME_PREFIX|..] == below + ([QUOTE] + rest);
      UpToQuoteOf(below, rest);
    }
  }

  /** A line has a value exactly if it looks like `KEY = "..."` with a path between the quotes, and enough stands
      behind the opening quote; the value is what that path names. */
  lemma ValueIsBetweenTheQuotes(line: Text, home: Text, key: Text, value: Text)
    requires key != [] && !IsWhitespace(key[0])
    ensures Value(line, home, key) == Some(value) <==>
      exists start :: Opens(line, key, start) && |start| >= 3 && Closes(start, home, value)
  {
    hide ValueStart, ValueFrom, Opens, Closes;
    if Value(line, home, key) == Some(value) {
      StartIsOpened(line, key);
      FromIsClosed(ValueStart(line, key).value, home);
    }
    if start :| Opens(line, key, start) && |start| >= 3 && Closes(start, home, value) {
      OpenedIsStart(line, key, start);
      ClosedIsFrom(start, home, value);
    }
  }

  /** Joined, the two parts have a slash between them, one more only where neither had one there. */
  lemma JoinHasASlash(first: Text, second: Text)
    ensures var r := Join(first, second);
      && first <= r && |r| >= |second| && r[|r| - |second|..] == second
      && |first| + |second| <= |r| <= |first| + |second| + 1
      && (first != [] && second != [] ==> r[|first| - 1] == SLASH || r[|first|] == SLASH)
      && (|r| > |first| + |second| ==>
            first != [] && second != [] && first[|first| - 1] != SLASH && second[0] != SLASH)
  {
  }

  // ----- UTF-16

  function Units(c: CodePoint): (u: Text)
    ensures |u| == if c < 0x10000 then 1 else 2
  {
    if c < 0x10000 then [c] else [0xD800 + (c - 0x10000) / 0x400, 0xDC00 + (c - 0x10000) % 0x400]
  }

  /** Section 2.1 of RFC 2781: a high and a low surrogate, whose ten bits each are the character's, less 0x10000. */
  lemma UnitsDecode(c: CodePoint)
    ensures c < 0x10000 ==> Units(c) == [c]
    ensures c >= 0x10000 ==>
      var high, low := Units(c)[0], Units(c)[1];
      && 0xD800 <= high <= 0xDBFF && 0xDC00 <= low <= 0xDFFF
      && c as int == 0x10000 + (high as int - 0xD800) * 0x400 + (low as int - 0xDC00)
  {
  }

  /** The UTF-16 units of a text. */
  function Utf16(t: Text): (u: Text)
    ensures |u| >= |t|
  {
    if t == [] then [] else Units(t[0]) + Utf16(t[1..])
  }

  function Encoded(t: Option<Text>): Option<Text> {
    match t case None => None case Some(text) => Some(Utf16(text))
  }

  lemma {:induction false} Utf16OfParts(a: Text, b: Text)
    ensures Utf16(a + b) == Utf16(a) + Utf16(b)
    decreases a
  {
    if a == [] {
      assert a + b == b;
    } else {
      assert (a + b)[1..] == a[1..] + b;
      Utf16OfParts(a[1..], b);
    }
  }

  /** A text without surrogates has none in its parts. */
  lemma CleanParts(t: Text, k: nat)
    requires !HasSurrogate(t) && k <= |t|
    ensures !HasSurrogate(t[k..]) && !HasSurrogate(t[..k])
    ensures k < |t| ==> !IsSurrogate(t[k])
  {
    assert forall i :: 0 <= i < |t| ==> !IsSurrogate(t[i]);
  }

  /** A character is one unit, itself, or two surrogates. */
  lemma UnitsOfOne(c: CodePoint)
    requires !IsSurrogate(c)
    ensures c < 0x10000 ==> Units(c) == [c]
    ensures c >= 0x10000 ==> IsSurrogate(Units(c)[0]) && IsSurrogate(Units(c)[1])
  {
  }

  lemma SurrogateIsNoSyntax(c: CodePoint)
    requires IsSurrogate(c)
    ensures !IsWhitespace(c) && c != QUOTE && c != EQUALS && c != SLASH
  {
  }

  /** Whether a text starts with a given mark, and what follows it, in units. */
  lemma Utf16Head(t: Text)
    requires !HasSurrogate(t) && t != []
    ensures Utf16(t) != [] && !HasSurrogate(t[1..])
    ensures t[0] < 0x10000 ==> Utf16(t)[0] == t[0] && Utf16(t)[1..] == Utf16(t[1..])
    ensures t[0] >= 0x10000 ==> |Utf16(t)| >= 2
    ensures t[0] >= 0x10000 ==> IsSurrogate(Utf16(t)[0]) && IsSurrogate(Utf16(t)[1])
    ensures t[0] >= 0x10000 ==> Utf16(t)[1..][1..] == Utf16(t[1..])
    ensures t[0] >= 0x10000 ==> Units(t[0]) == [Utf16(t)[0], Utf16(t)[1]]
  {
    CleanParts(t, 0);
    CleanParts(t, 1);
    UnitsOfOne(t[0]);
    var rest := Utf16(t[1..]);
    assert Utf16(t) == Units(t[0]) + rest;
    hide Utf16, Units, HasSurrogate, IsSurrogate;
    assert (Units(t[0]) + rest)[..|Units(t[0])|] == Units(t[0]);
    assert (Units(t[0]) + rest)[|Units(t[0])|..] == rest;
    assert t[0] >= 0x10000 ==> Utf16(t)[1..][1..] == Utf16(t)[2..];
  }

  /** Units followed by more tell which character they are of. */
  lemma UnitsTell(c: CodePoint, u: Text, d: CodePoint, v: Text)
    requires !IsSurrogate(c) && !IsSurrogate(d) && Units(c) + u <= Units(d) + v
    ensures c == d
  {
    var x, y := Units(c) + u, Units(d) + v;
    assert x[0] == y[0] == Units(d)[0] && x[0] == Units(c)[0];
    if c >= 0x10000 && d >= 0x10000 {
      assert x[1] == y[1] && x[1] == Units(c)[1] && y[1] == Units(d)[1];
    }
  }

  lemma TailPrefix(u: Text, v: Text, n: nat)
    requires u <= v && n <= |u|
    ensures u[n..] <= v[n..]
  {
    assert u == v[..|u|];
    assert u[n..] == v[n..][..|u| - n];
  }

  lemma SameFirst(a: Text, t: Text)
    requires !HasSurrogate(a) && !HasSurrogate(t) && a != [] && t != [] && Utf16(a) <= Utf16(t)
    ensures a[0] == t[0] && Utf16(a[1..]) <= Utf16(t[1..])
    ensures !HasSurrogate(a[1..]) && !HasSurrogate(t[1..])
  {
    CleanParts(a, 0);
    CleanParts(t, 0);
    CleanParts(a, 1);
    CleanParts(t, 1);
    var x, y := Units(a[0]), Units(t[0]);
    var u, v := Utf16(a[1..]), Utf16(t[1..]);
    assert x + u <= y + v;
    hide Utf16, HasSurrogate;
    UnitsTell(a[0], u, t[0], v);
    assert (x + u)[|x|..] == u && (y + v)[|x|..] == v;
    TailPrefix(x + u, y + v, |x|);
  }

  lemma {:induction false} UnitsStart(a: Text, t: Text)
    requires !HasSurrogate(a) && !HasSurrogate(t) && Utf16(a) <= Utf16(t)
    ensures a <= t
    decreases |a|
  {
    hide HasSurrogate;
    if a != [] {
      assert t != [];
      SameFirst(a, t);
      UnitsStart(a[1..], t[1..]);
      hide Utf16;
      assert a == [a[0]] + a[1..] && t == [t[0]] + t[1..];
    }
  }

  /** One text starts another exactly when its units start the other's. */
  lemma Utf16Prefix(a: Text, t: Text)
    requires !HasSurrogate(a) && !HasSurrogate(t)
    ensures a <= t <==> Utf16(a) <= Utf16(t)
    ensures a <= t ==> Utf16(t)[|Utf16(a)|..] == Utf16(t[|a|..])
  {
    hide HasSurrogate;
    if a <= t {
      assert t == a + t[|a|..];
      Utf16OfParts(a, t[|a|..]);
      hide Utf16;
      assert (Utf16(a) + Utf16(t[|a|..]))[|Utf16(a)|..] == Utf16(t[|a|..]);
    }
    if Utf16(a) <= Utf16(t) {
      UnitsStart(a, t);
    }
  }

  lemma AstralIsNoSpace(c: CodePoint)
    requires c >= 0x10000
    ensures !IsWhitespace(c) && c != QUOTE
  {
  }

  lemma {:induction false} BmpIsItsUnits(t: Text)
    requires forall i :: 0 <= i < |t| ==> t[i] < 0x10000
    ensures Utf16(t) == t
    decreases |t|
  {
    if t != [] {
      BmpIsItsUnits(t[1..]);
    }
  }

  lemma {:induction false} Utf16SkipSpace(t: Text)
    requires !HasSurrogate(t)
    ensures SkipSpace(Utf16(t)) == Utf16(SkipSpace(t)) && !HasSurrogate(SkipSpace(t))
    decreases |t|
  {
    hide HasSurrogate, Utf16, IsWhitespace, IsSurrogate;
    if t == [] {
      assert Utf16([]) == [] by { BmpIsItsUnits([]); }
    } else {
      Utf16Head(t);
      if t[0] >= 0x10000 {
        SurrogateIsNoSyntax(Utf16(t)[0]);
        AstralIsNoSpace(t[0]);
      }
      Utf16SkipSpace(t[1..]);
    }
  }

  lemma TwoBeforeQuote(u: Text)
    requires |u| >= 2 && u[0] != QUOTE && u[1] != QUOTE
    ensures UpToQuote(u) == match UpToQuote(u[1..][1..]) case None => None case Some(rest) => Some([u[0], u[1]] + rest)
  {
    match UpToQuote(u[1..][1..]) {
      case None =>
      case Some(rest) => assert [u[0]] + ([u[1]] + rest) == [u[0], u[1]] + rest;
    }
  }

  lemma Utf16Cons(c: CodePoint, rest: Text)
    ensures Utf16([c] + rest) == Units(c) + Utf16(rest)
  {
    assert ([c] + rest)[1..] == rest;
  }

  lemma {:induction false} Utf16UpToQuote(t: Text)
    requires !HasSurrogate(t)
    ensures UpToQuote(Utf16(t)) == Encoded(UpToQuote(t))
    decreases |t|
  {
    hide HasSurrogate, Utf16, IsSurrogate;
    assert Utf16([]) == [] by { BmpIsItsUnits([]); }
    if t != [] {
      Utf16Head(t);
      Utf16UpToQuote(t[1..]);
      var rest := UpToQuote(t[1..]);
      if t[0] >= 0x10000 {
        SurrogateIsNoSyntax(Utf16(t)[0]);
        SurrogateIsNoSyntax(Utf16(t)[1]);
        TwoBeforeQuote(Utf16(t));
      }
      if rest.Some? && t[0] != QUOTE {
        Utf16Cons(t[0], rest.value);
      }
    }
  }

  lemma Utf16Last(t: Text)
    requires !HasSurrogate(t) && t != []
    ensures Utf16(t) != []
    ensures Utf16(t)[|Utf16(t)| - 1] == SLASH <==> t[|t| - 1] == SLASH
  {
    var init, last := t[..|t| - 1], [t[|t| - 1]];
    assert t == init + last;
    CleanParts(t, |t| - 1);
    Utf16OfParts(init, last);
    assert last[1..] == [];
    assert Utf16(last) == Units(last[0]);
    UnitsOfOne(last[0]);
    hide Utf16, HasSurrogate;
    assert Utf16(t) == Utf16(init) + Units(last[0]);
  }

  lemma Utf16First(t: Text)
    requires !HasSurrogate(t) && t != []
    ensures Utf16(t) != []
    ensures Utf16(t)[0] == SLASH <==> t[0] == SLASH
  {
    hide Utf16, HasSurrogate;
    Utf16Head(t);
  }

  lemma Utf16Slash(t: Text)
    ensures Utf16([SLASH] + t) == [SLASH] + Utf16(t)
  {
    assert ([SLASH] + t)[1..] == t;
  }

  lemma Utf16Join(first: Text, second: Text)
    requires !HasSurrogate(first) && !HasSurrogate(second)
    ensures Utf16(Join(first, second)) == Join(Utf16(first), Utf16(second))
  {
    hide HasSurrogate, Utf16;
    assert Utf16([]) == [] by { BmpIsItsUnits([]); }
    if first != [] && second != [] {
      Utf16Last(first);
      Utf16First(second);
      if first[|first| - 1] == SLASH || second[0] == SLASH {
        Utf16OfParts(first, second);
      } else {
        Utf16Slash(second);
        Utf16OfParts(first, [SLASH] + second);
        assert first + [SLASH] + second == first + ([SLASH] + second);
        assert Utf16(first) + [SLASH] + Utf16(second) == Utf16(first) + ([SLASH] + Utf16(second));
      }
    }
  }

  lemma PrefixIsItsUnits()
    ensures Utf16(HOME_PREFIX) == HOME_PREFIX
  {
    BmpIsItsUnits(HOME_PREFIX);
  }

  lemma {:induction false} UpToQuoteIsClean(t: Text)
    requires !HasSurrogate(t)
    ensures UpToQuote(t).Some? ==> !HasSurrogate(UpToQuote(t).value)
    decreases |t|
  {
    if t != [] {
      UpToQuoteIsClean(t[1..]);
    }
  }

  lemma Utf16ValueFrom(start: Text, home: Text)
    requires !HasSurrogate(start) && !HasSurrogate(home)
    ensures ValueFrom(Utf16(start), Utf16(home)) == Encoded(ValueFrom(start, home))
  {
    Utf16Prefix(HOME_PREFIX, start);
    assert Utf16(HOME_PREFIX) == HOME_PREFIX by { PrefixIsItsUnits(); }
    if HOME_PREFIX <= start {
      var rest := start[|HOME_PREFIX|..];
      Utf16UpToQuote(rest);
      UpToQuoteIsClean(rest);
      if UpToQuote(rest).Some? {
        Utf16Join(home, UpToQuote(rest).value);
      }
    } else {
      Utf16UpToQuote(start);
      if start != [] {
        Utf16Head(start);
      }
    }
  }

  /** Too few characters for the guards, although enough units: such a line has no value either way. */
  lemma ShortHasNoValue(start: Text, home: Text)
    requires !HasSurrogate(start) && |start| <= 2 && |Utf16(start)| >= 3
    ensures ValueFrom(Utf16(start), home) == None
  {
    Utf16Head(start);
    Utf16Head(start[1..]);
    assert start[1..][1..] == [];
    assert |Utf16(start)| <= 4;
    var u := Utf16(start);
    if u[0] == SLASH {
      assert u[1..] == Utf16(start[1..]);
      assert u[1..][1..][1..] == [];
      assert UpToQuote(u[1..][1..]) == None;
      assert UpToQuote(u[1..]) == None;
    }
  }

  lemma AfterEqualsAgrees(line: Text, home: Text, key: Text, atEquals: Text, atQuote: Text)
    requires !HasSurrogate(line) && !HasSurrogate(home) && !HasSurrogate(key)
    requires !HasSurrogate(atEquals) && !HasSurrogate(atQuote)
    requires key <= SkipSpace(line) && atEquals == SkipSpace(SkipSpace(line)[|key|..])
    requires Utf16(key) <= SkipSpace(Utf16(line))
    requires Utf16(atEquals) == SkipSpace(SkipSpace(Utf16(line))[|Utf16(key)|..])
    requires atEquals != [] && atEquals[0] == EQUALS && Utf16(atEquals)[0] == EQUALS
    requires atQuote == SkipSpace(atEquals[1..]) && Utf16(atQuote) == SkipSpace(Utf16(atEquals)[1..])
    ensures Value(Utf16(line), Utf16(home), Utf16(key)) == Encoded(Value(line, home, key))
  {
    FirstGuardNeverDecides(line, key);
    FirstGuardNeverDecides(Utf16(line), Utf16(key));
    if atQuote != [] {
      Utf16Head(atQuote);
      if atQuote[0] == QUOTE {
        var start := atQuote[1..];
        assert Utf16(atQuote)[1..] == Utf16(start);
        if |atQuote| > 3 {
          Utf16ValueFrom(start, home);
        } else if |Utf16(atQuote)| > 3 {
          ShortHasNoValue(start, Utf16(home));
        }
      }
    }
  }

  /** For every line, key and home without a lone surrogate, the parser counting code points returns what
      the same parser counting UTF-16 units returns, although the two count the guards' lengths
      differently. */
  lemma CountingUnitsAgrees(line: Text, home: Text, key: Text)
    requires !HasSurrogate(line) && !HasSurrogate(home) && !HasSurrogate(key)
    ensures Value(Utf16(line), Utf16(home), Utf16(key)) == Encoded(Value(line, home, key))
  {
    var atKey := SkipSpace(line);
    Utf16SkipSpace(line);
    Utf16Prefix(key, atKey);
    if key <= atKey {
      var afterKey := atKey[|key|..];
      var atEquals := SkipSpace(afterKey);
      Utf16SkipSpace(afterKey);
      if atEquals != [] {
        Utf16Head(atEquals);
        if atEquals[0] == EQUALS {
          var atQuote := SkipSpace(atEquals[1..]);
          Utf16SkipSpace(atEquals[1..]);
          AfterEqualsAgrees(line, home, key, atEquals, atQuote);
        }
      }
    }
  }
}
