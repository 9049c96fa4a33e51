/** The line-at-a-time TOML scanner of domain/packing.py against one automaton over the whole text. */
module TomlScan {
  import opened Texts

  const OPENING: CodePoint := 0x5B   // [
  const CLOSING: CodePoint := 0x5D   // ]

  lemma BracketsAsWritten()
    ensures FromString("[]") == [OPENING, CLOSING]
  {
  }

  predicate IsQuote(c: CodePoint) {
    c == QUOTE || c == APOSTROPHE
  }

  // ----- the reference: one character at a time, left to right, over the whole text

  datatype Class = Code | InString | Comment | LineEnd

  /** Where the automaton stands. `Opened` has seen one or two opening quotes and does not yet know
      which kind of string they open; `Closed` has seen three or four closing quotes of a multi-line
      string, of which up to two may still turn out to be its content. */
  datatype State =
    | Plain
    | InComment
    | Opened(mark: CodePoint, quotes: nat)
    | Single(mark: CodePoint)
    | SingleEscape
    | Multi(mark: CodePoint, quotes: nat)
    | MultiEscape
    | Closed(mark: CodePoint, quotes: nat)

  function StepPlain(c: CodePoint): (Class, State) {
    if c == HASH then (Comment, InComment) else if IsQuote(c) then (InString, Opened(c, 1)) else (Code, Plain)
  }

  function InSingle(mark: CodePoint, c: CodePoint): State {
    if mark == QUOTE && c == BACKSLASH then SingleEscape else if c == mark then Plain else Single(mark)
  }

  /** Only a multi-line string outlives its line, and a quote run does not. */
  function AfterLine(st: State): State {
    match st
    case Multi(mark, _) => Multi(mark, 0)
    case MultiEscape => Multi(QUOTE, 0)
    case _ => Plain
  }

  /** TOML v1.0.0, sections Comment and String: escapes only in basic strings, a multi-line string
      closed by a run of three to five quotes. A line end inside a single-line string ends it. */
  function Step(st: State, c: CodePoint): (Class, State) {
    if c == LF then (LineEnd, AfterLine(st)) else
    match st
    case Plain =>
      StepPlain(c)
    case InComment => (Comment, InComment)
    case Opened(mark, quotes) =>
      if c == mark then (InString, if quotes == 1 then Opened(mark, 2) else Multi(mark, 0))
      else if quotes == 1 then (InString, InSingle(mark, c))
      else StepPlain(c)
    case Single(mark) => (InString, InSingle(mark, c))
    case SingleEscape => (InString, Single(QUOTE))
    case Multi(mark, quotes) =>
      (InString,
       if mark == QUOTE && c == BACKSLASH then MultiEscape
       else if c != mark then Multi(mark, 0)
       else if quotes < 2 then Multi(mark, quotes + 1)
       else Closed(mark, 3))
    case MultiEscape => (InString, Multi(QUOTE, 0))
    case Closed(mark, quotes) =>
      if c == mark then (InString, if quotes == 3 then Closed(mark, 4) else Plain) else StepPlain(c)
  }

  /** The class of every character of the text. */
  function Classes(st: State, text: Text): (classes: seq<Class>)
    ensures |classes| == |text|
    decreases text
  {
    if text == [] then []
    else
      var (class_, st') := Step(st, text[0]);
      [class_] + Classes(st', text[1..])
  }

  function After(st: State, text: Text): State
    decreases text
  {
    if text == [] then st else After(Step(st, text[0]).1, text[1..])
  }

  // ----- the scanner's view of one line

  /** The classes of a line's characters, and where the next line starts. */
  datatype Reading = Reading(classes: seq<Class>, end: State)

  function ReadLine(st: State, line: Text): (r: Reading)
    ensures |r.classes| == |line|
  {
    Reading(Classes(st, line), AfterLine(After(st, line)))
  }

  predicate IsLine(line: Text) {
    LF !in line
  }

  /** A multi-line delimiter, or nothing. */
  predicate IsOpenString(open: Text) {
    open == [] || open == [QUOTE, QUOTE, QUOTE] || open == [APOSTROPHE, APOSTROPHE, APOSTROPHE]
  }

  predicate IsDelimiter(quote: Text) {
    IsOpenString(quote) || quote == [QUOTE] || quote == [APOSTROPHE]
  }

  /** The automaton's state where the scanner is inside a string opened by `quote`, or outside. */
  function Inside(quote: Text): State {
    if quote == [] then Plain else if |quote| == 1 then Single(quote[0]) else Multi(quote[0], 0)
  }

  /** The delimiter a state leaves open at a line's end. */
  function OpenString(end: State): Text {
    if end.Multi? then [end.mark, end.mark, end.mark] else []
  }

  function Strings(n: nat): (s: seq<Class>)
    ensures |s| == n
  {
    seq(n, _ => InString)
  }

  /** From `from` at `i`, the characters up to `j` are string characters and the rest of the line is read
      as from `st` at `j`. */
  ghost predicate Skips(from: State, line: Text, i: nat, j: nat, st: State) {
    && i <= j <= |line|
    && ReadLine(from, line[i..]).classes == Strings(j - i) + ReadLine(st, line[j..]).classes
    && ReadLine(from, line[i..]).end == ReadLine(st, line[j..]).end
  }

  lemma SkipOne(from: State, line: Text, i: nat)
    requires i < |line| && Step(from, line[i]).0 == InString
    ensures Skips(from, line, i, i + 1, Step(from, line[i]).1)
  {
    assert line[i..][1..] == line[i + 1..];
    assert Strings(1) == [InString];
  }

  lemma SkipMore(from: State, line: Text, i: nat, j: nat, via: State, k: nat, st: State)
    requires Skips(from, line, i, j, via) && Skips(via, line, j, k, st)
    ensures Skips(from, line, i, k, st)
  {
    assert Strings(k - i) == Strings(j - i) + Strings(k - j);
  }

  /** States that treat the rest of the line alike. */
  lemma SkipNone(from: State, line: Text, i: nat, st: State)
    requires i <= |line|
    requires i < |line| ==> Step(from, line[i]) == Step(st, line[i])
    requires i == |line| ==> AfterLine(from) == AfterLine(st)
    ensures Skips(from, line, i, i, st)
  {
    assert Strings(0) == [];
  }

  /** The quotes standing at `i`. */
  function RunLength(line: Text, i: nat, mark: CodePoint): (n: nat)
    requires i <= |line|
    ensures i + n <= |line|
    decreases |line| - i
  {
    if i == |line| || line[i] != mark then 0 else 1 + RunLength(line, i + 1, mark)
  }

  function Min(a: int, b: int): int {
    if a < b then a else b
  }

  lemma {:induction false} SkipClosing(mark: CodePoint, quotes: nat, line: Text, i: nat)
    requires IsQuote(mark) && 3 <= quotes <= 4 && i <= |line|
    ensures Skips(Closed(mark, quotes), line, i, i + Min(RunLength(line, i, mark), 5 - quotes), Plain)
    decreases 5 - quotes
  {
    hide Skips;
    var from := Closed(mark, quotes);
    if i == |line| || line[i] != mark {
      SkipNone(from, line, i, Plain);
    } else {
      SkipOne(from, line, i);
      if quotes == 3 {
        SkipClosing(mark, 4, line, i + 1);
        SkipMore(from, line, i, i + 1, Closed(mark, 4), i + 1 + Min(RunLength(line, i + 1, mark), 1), Plain);
      }
    }
  }

  /** A run too short to close is content; a longer one closes with at most five quotes. */
  lemma {:induction false} SkipRun(mark: CodePoint, quotes: nat, line: Text, i: nat)
    requires IsQuote(mark) && quotes <= 2 && i <= |line|
    ensures var run := RunLength(line, i, mark);
      if quotes + run < 3 then Skips(Multi(mark, quotes), line, i, i + run, Multi(mark, 0))
      else Skips(Multi(mark, quotes), line, i, i + Min(run, 5 - quotes), Plain)
    decreases |line| - i
  {
    hide Skips;
    var from := Multi(mark, quotes);
    if i == |line| || line[i] != mark {
      SkipNone(from, line, i, Multi(mark, 0));
    } else {
      SkipOne(from, line, i);
      var run := RunLength(line, i + 1, mark);
      if quotes < 2 {
        SkipRun(mark, quotes + 1, line, i + 1);
        if quotes + 1 + run < 3 {
          SkipMore(from, line, i, i + 1, Multi(mark, quotes + 1), i + 1 + run, Multi(mark, 0));
        } else {
          SkipMore(from, line, i, i + 1, Multi(mark, quotes + 1), i + 1 + Min(run, 4 - quotes), Plain);
        }
      } else {
        SkipClosing(mark, 3, line, i + 1);
        SkipMore(from, line, i, i + 1, Closed(mark, 3), i + 1 + Min(run, 2), Plain);
      }
    }
  }

  // ----- the scanner

  /** A backslash takes the next character with it; at the line's end there is none to take. */
  lemma SkipEscape(line: Text, i: nat, quote: Text)
    requires IsLine(line) && i < |line|
    requires IsDelimiter(quote) && quote != [] && quote[0] == QUOTE && line[i] == BACKSLASH
    ensures Skips(Inside(quote), line, i, Min(i + 2, |line|), Inside(quote))
  {
    hide Skips;
    var st := Inside(quote);
    SkipOne(st, line, i);
    var escape := Step(st, line[i]).1;
    if i + 1 == |line| {
      SkipNone(escape, line, i + 1, st);
    } else {
      SkipOne(escape, line, i + 1);
    }
    SkipMore(st, line, i, i + 1, escape, Min(i + 2, |line|), st);
  }

  /** `_string_end`: where the string that `line[start..]` is inside ends, and the quote still open. */
  method StringEnd(line: Text, start: nat, quote: Text) returns (end: nat, open: Text)
    requires IsLine(line) && start < |line|
    requires IsDelimiter(quote) && quote != []
    ensures start < end <= |line|
    ensures open == [] || (open == quote && end == |line|)
    ensures Skips(Inside(quote), line, start, end, Inside(open))
  {
    hide Skips;
    var mark := quote[0];
    ghost var st := Inside(quote);
    var index := start;
    SkipNone(st, line, start, st);
    while index < |line|
      invariant start <= index <= |line| + 1
      invariant Skips(st, line, start, Min(index, |line|), st)
    {
      if mark == QUOTE && line[index] == BACKSLASH {
        SkipEscape(line, index, quote);
        SkipMore(st, line, start, index, st, Min(index + 2, |line|), st);
        index := index + 2;
        continue;
      }
      if line[index] != mark {
        SkipOne(st, line, index);
        SkipMore(st, line, start, index, st, index + 1, st);
        index := index + 1;
        continue;
      }
      var run := RunLength(line, index, mark);
      if |quote| == 1 {
        SkipOne(st, line, index);
        SkipMore(st, line, start, index, st, index + 1, Plain);
        return index + 1, [];
      }
      SkipRun(mark, 0, line, index);
      if run >= 3 {
        SkipMore(st, line, start, index, st, index + Min(run, 5), Plain);
        return index + Min(run, 5), [];
      }
      SkipMore(st, line, start, index, st, index + run, st);
      index := index + run;
    }
    return |line|, quote;
  }

  /** Without two more quotes, the automaton reads on as inside a single-line string; an empty one ends
      at its second quote. */
  lemma OneQuoteOpensSingle(c: CodePoint, line: Text, i: nat)
    requires IsLine(line) && i <= |line|
    requires IsQuote(c) && !(i + 2 <= |line| && line[i] == line[i + 1] == c)
    ensures Skips(Opened(c, 1), line, i, i, Single(c))
  {
    if i < |line| && line[i] == c {
      SkipOne(Opened(c, 1), line, i);
      SkipOne(Single(c), line, i);
      SkipNone(Opened(c, 2), line, i + 1, Plain);
      assert Strings(0) == [];
    } else {
      SkipNone(Opened(c, 1), line, i, Single(c));
    }
  }

  /** An opening delimiter: three quotes open a multi-line string, fewer a single-line one. */
  lemma SkipOpening(line: Text, i: nat, quote: Text)
    requires IsLine(line) && i < |line| && IsQuote(line[i])
    requires var c := line[i]; quote == if [c, c, c] <= line[i..] then [c, c, c] else [c]
    ensures Skips(Plain, line, i, i + |quote|, Inside(quote))
  {
    hide Skips;
    var c := line[i];
    SkipOne(Plain, line, i);
    if |quote| == 3 {
      SkipOne(Opened(c, 1), line, i + 1);
      SkipOne(Opened(c, 2), line, i + 2);
      SkipMore(Plain, line, i, i + 1, Opened(c, 1), i + 2, Opened(c, 2));
      SkipMore(Plain, line, i, i + 2, Opened(c, 2), i + 3, Multi(c, 0));
    } else {
      OneQuoteOpensSingle(c, line, i + 1);
      SkipMore(Plain, line, i, i + 1, Opened(c, 1), i + 1, Single(c));
    }
  }

  /** The places of a line's code characters, in order. */
  function CodeIndexes(classes: seq<Class>): seq<nat> {
    if classes == [] then []
    else
      var last := |classes| - 1;
      CodeIndexes(classes[..last]) + if classes[last] == Code then [last] else []
  }

  lemma {:induction false} CodeIndexesSkip(classes: seq<Class>, more: seq<Class>)
    requires Code !in more
    ensures CodeIndexes(classes + more) == CodeIndexes(classes)
  {
    if more == [] {
      assert classes + more == classes;
    } else {
      var last := |more| - 1;
      CodeIndexesSkip(classes, more[..last]);
      assert (classes + more)[..|classes| + last] == classes + more[..last];
    }
  }

  lemma {:induction false} CommentReachesLineEnd(text: Text)
    requires IsLine(text)
    ensures ReadLine(InComment, text) == Reading(seq(|text|, _ => Comment), Plain)
  {
    if text != [] {
      CommentReachesLineEnd(text[1..]);
    }
  }

  datatype LineScan = LineScan(code: seq<nat>, comment: nat, open: Text)

  /** What a scan says about a line read from `st`. */
  ghost predicate Tells(scan: LineScan, st: State, line: Text) {
    var r := ReadLine(st, line);
    && scan.code == CodeIndexes(r.classes)
    && scan.comment <= |line|
    && (forall i :: 0 <= i < |line| ==> (r.classes[i] == Comment <==> scan.comment <= i))
    && scan.open == OpenString(r.end)
  }

  /** The first `index` characters are classed as `done`, with the code characters found; the rest of the
      line is read as from inside `quote`. */
  ghost predicate ScannedAs(st: State, line: Text, index: nat, quote: Text, code: seq<nat>, done: seq<Class>) {
    && |done| == index <= |line|
    && Comment !in done
    && code == CodeIndexes(done)
    && ReadLine(st, line).classes == done + ReadLine(Inside(quote), line[index..]).classes
    && ReadLine(st, line).end == ReadLine(Inside(quote), line[index..]).end
  }

  ghost predicate Scanned(st: State, line: Text, index: nat, quote: Text, code: seq<nat>) {
    exists done :: ScannedAs(st, line, index, quote, code, done)
  }

  lemma NothingScanned(line: Text, open: Text)
    ensures Scanned(Inside(open), line, 0, open, [])
  {
    assert line[0..] == line;
    assert ScannedAs(Inside(open), line, 0, open, [], []);
  }

  lemma StringsAreNoComment(n: nat)
    ensures Comment !in Strings(n) && Code !in Strings(n)
  {
  }

  lemma Regroup(a: seq<Class>, b: seq<Class>, c: seq<Class>)
    ensures a + (b + c) == (a + b) + c
  {
  }

  lemma ScannedString(st: State, line: Text, index: nat, quote: Text, code: seq<nat>, n: nat, quote': Text)
    requires Scanned(st, line, index, quote, code)
    requires Skips(Inside(quote), line, index, index + n, Inside(quote'))
    ensures Scanned(st, line, index + n, quote', code)
  {
    var done :| ScannedAs(st, line, index, quote, code, done);
    var rest := ReadLine(Inside(quote'), line[index + n..]).classes;
    StringsAreNoComment(n);
    CodeIndexesSkip(done, Strings(n));
    Regroup(done, Strings(n), rest);
    hide ReadLine, Inside, Strings, CodeIndexes;
    assert ScannedAs(st, line, index + n, quote', code, done + Strings(n));
  }

  lemma CodeIsRead(line: Text, index: nat)
    requires IsLine(line) && index < |line| && line[index] != HASH && !IsQuote(line[index])
    ensures ReadLine(Plain, line[index..]).classes == [Code] + ReadLine(Plain, line[index + 1..]).classes
    ensures ReadLine(Plain, line[index..]).end == ReadLine(Plain, line[index + 1..]).end
  {
    assert line[index..][1..] == line[index + 1..];
  }

  lemma CodeIndexesSnoc(classes: seq<Class>)
    ensures CodeIndexes(classes + [Code]) == CodeIndexes(classes) + [|classes|]
  {
    assert (classes + [Code])[..|classes|] == classes;
  }

  lemma ScannedCode(st: State, line: Text, index: nat, code: seq<nat>)
    requires Scanned(st, line, index, [], code)
    requires IsLine(line) && index < |line| && line[index] != HASH && !IsQuote(line[index])
    ensures Scanned(st, line, index + 1, [], code + [index])
  {
    var done :| ScannedAs(st, line, index, [], code, done);
    var rest := ReadLine(Plain, line[index + 1..]).classes;
    CodeIsRead(line, index);
    CodeIndexesSnoc(done);
    Regroup(done, [Code], rest);
    hide ReadLine, CodeIndexes;
    assert ScannedAs(st, line, index + 1, [], code + [index], done + [Code]);
  }

  lemma ScannedComment(st: State, line: Text, index: nat, code: seq<nat>)
    requires Scanned(st, line, index, [], code)
    requires IsLine(line) && index < |line| && line[index] == HASH
    ensures Tells(LineScan(code, index, []), st, line)
  {
    var done :| ScannedAs(st, line, index, [], code, done);
    var rest := line[index..];
    CommentReachesLineEnd(rest[1..]);
    var tail := seq(|rest|, _ => Comment);
    assert ReadLine(Plain, rest).classes == tail;
    CodeIndexesSkip(done, tail);
  }

  lemma ScannedAll(st: State, line: Text, quote: Text, code: seq<nat>)
    requires Scanned(st, line, |line|, quote, code) && IsDelimiter(quote)
    ensures Tells(LineScan(code, |line|, if |quote| == 3 then quote else []), st, line)
  {
    var done :| ScannedAs(st, line, |line|, quote, code, done);
    assert line[|line|..] == [];
    assert ReadLine(st, line).classes == done;
  }

  /** `_scan_toml_characters`: the scanner, jumping from string to string, classes each character of the
      line as the automaton does, and leaves open what the automaton leaves open. */
  method ScanTomlCharacters(line: Text, open: Text) returns (scan: LineScan)
    requires IsLine(line) && IsOpenString(open)
    ensures Tells(scan, Inside(open), line)
  {
    hide Scanned, Skips, Tells;
    ghost var st := Inside(open);
    var code: seq<nat> := [];
    var index := 0;
    var quote := open;
    NothingScanned(line, open);
    while index < |line|
      invariant index <= |line| && IsDelimiter(quote)
      invariant Scanned(st, line, index, quote, code)
      decreases |line| - index
    {
      ghost var from := index;
      if quote != [] {
        ghost var inside := quote;
        index, quote := StringEnd(line, index, quote);
        ScannedString(st, line, from, inside, code, index - from, quote);
        continue;
      }
      var character := line[index];
      if character == HASH {
        ScannedComment(st, line, index, code);
        return LineScan(code, index, []);
      }
      if IsQuote(character) {
        var multiLine := [character, character, character];
        quote := if multiLine <= line[index..] then multiLine else [character];
        SkipOpening(line, index, quote);
        ScannedString(st, line, index, [], code, |quote|, quote);
        index := index + |quote|;
        continue;
      }
      ScannedCode(st, line, index, code);
      code := code + [index];
      index := index + 1;
    }
    ScannedAll(st, line, quote, code);
    return LineScan(code, |line|, if |quote| == 3 then quote else []);
  }

  // ----- the whole text

  /** The lines, each followed by a line end. */
  function Joined(lines: seq<Text>): Text {
    if lines == [] then [] else Joined(lines[..|lines| - 1]) + lines[|lines| - 1] + [LF]
  }

  predicate AreLines(lines: seq<Text>) {
    forall i :: 0 <= i < |lines| ==> IsLine(lines[i])
  }

  /** Where line `k` starts in the whole text. */
  function Offset(lines: seq<Text>, k: nat): nat
    requires k <= |lines|
  {
    |Joined(lines[..k])|
  }

  lemma {:induction false} ClassesOfParts(st: State, a: Text, b: Text)
    ensures Classes(st, a + b) == Classes(st, a) + Classes(After(st, a), b)
    ensures After(st, a + b) == After(After(st, a), b)
    decreases a
  {
    hide Step;
    if a == [] {
      assert a + b == b;
    } else {
      assert (a + b)[1..] == a[1..] + b;
      ClassesOfParts(Step(st, a[0]).1, a[1..], b);
    }
  }

  lemma {:induction false} JoinedPrefix(lines: seq<Text>, k: nat)
    requires k <= |lines|
    ensures Joined(lines[..k]) <= Joined(lines)
    decreases |lines|
  {
    if k == |lines| {
      assert lines[..k] == lines;
    } else {
      var init := lines[..|lines| - 1];
      JoinedPrefix(init, k);
      assert init[..k] == lines[..k];
    }
  }

  /** The automaton's state where line `k` starts, having read the whole text before it. */
  function StateAt(lines: seq<Text>, k: nat): State
    requires k <= |lines|
  {
    After(Plain, Joined(lines[..k]))
  }

  /** The classes of line `k` as the automaton reads the line after the whole text before it. */
  function LineClasses(lines: seq<Text>, k: nat): (classes: seq<Class>)
    requires k < |lines|
    ensures |classes| == |lines[k]|
  {
    ReadLine(StateAt(lines, k), lines[k]).classes
  }

  /** What stands before and after a line in the whole text. */
  lemma TextAround(lines: seq<Text>, k: nat) returns (rest: Text)
    requires k < |lines|
    ensures Joined(lines) == Joined(lines[..k]) + lines[k] + ([LF] + rest)
    ensures Joined(lines[..k + 1]) == Joined(lines[..k]) + lines[k] + [LF]
  {
    assert lines[..k + 1][..k] == lines[..k];
    JoinedPrefix(lines, k + 1);
    var before, here, upTo := Joined(lines[..k]), lines[k], Joined(lines[..k + 1]);
    assert upTo == before + here + [LF];
    hide Joined;
    rest := Joined(lines)[|upTo|..];
    assert Joined(lines) == upTo + rest;
    assert before + here + [LF] + rest == before + here + ([LF] + rest);
  }

  lemma AfterLineEnd(st: State)
    ensures After(st, [LF]) == AfterLine(st)
  {
    assert [LF][1..] == [];
  }

  lemma ClassesOfMiddle(a: Text, b: Text, c: Text)
    ensures Classes(Plain, a + b + c)[|a|..][..|b|] == Classes(After(Plain, a), b)
  {
    ClassesOfParts(Plain, a + b, c);
    ClassesOfParts(Plain, a, b);
  }

  /** Reading line by line, carrying only the delimiter left open, gives every character the class one
      pass over the whole text gives it. */
  lemma LinesReadAsTheText(lines: seq<Text>, k: nat)
    requires k < |lines| && AreLines(lines)
    ensures Offset(lines, k) + |lines[k]| <= |Joined(lines)|
    ensures Classes(Plain, Joined(lines))[Offset(lines, k)..][..|lines[k]|] == LineClasses(lines, k)
    ensures StateAt(lines, k + 1) == ReadLine(StateAt(lines, k), lines[k]).end
  {
    var before, here := Joined(lines[..k]), lines[k];
    var rest := TextAround(lines, k);
    hide Joined, Classes, After, Step, AfterLine, AreLines;
    ClassesOfMiddle(before, here, [LF] + rest);
    ClassesOfParts(Plain, before, here);
    ClassesOfParts(Plain, before + here, [LF]);
    AfterLineEnd(After(Plain, before + here));
  }

  predicate MarkIsQuote(st: State) {
    match st
    case Opened(mark, _) => IsQuote(mark)
    case Single(mark) => IsQuote(mark)
    case Multi(mark, _) => IsQuote(mark)
    case Closed(mark, _) => IsQuote(mark)
    case _ => true
  }

  lemma {:induction false} MarksAreQuotes(st: State, text: Text)
    requires MarkIsQuote(st)
    ensures MarkIsQuote(After(st, text))
    decreases text
  {
    if text != [] {
      MarksAreQuotes(Step(st, text[0]).1, text[1..]);
    }
  }

  lemma DelimiterMarkIsQuote(open: Text)
    requires IsOpenString(open)
    ensures MarkIsQuote(Inside(open))
  {
  }

  /** What a line leaves open is a delimiter, which says all there is to carry. */
  lemma LineEndIsADelimiter(st: State)
    requires MarkIsQuote(st)
    ensures IsOpenString(OpenString(AfterLine(st))) && Inside(OpenString(AfterLine(st))) == AfterLine(st)
  {
  }

  /** Where a line starts, the automaton is outside every string or in a multi-line one whose delimiter
      says all there is to carry. */
  lemma {:induction false} LineStartIsADelimiter(lines: seq<Text>, k: nat)
    requires k <= |lines| && AreLines(lines)
    ensures IsOpenString(OpenString(StateAt(lines, k)))
    ensures Inside(OpenString(StateAt(lines, k))) == StateAt(lines, k)
  {
    if k > 0 {
      LineStartIsADelimiter(lines, k - 1);
      LinesReadAsTheText(lines, k - 1);
      hide StateAt, IsOpenString, OpenString, Inside, AfterLine, After, MarkIsQuote, AreLines;
      var st := StateAt(lines, k - 1);
      DelimiterMarkIsQuote(OpenString(st));
      MarksAreQuotes(st, lines[k - 1]);
      LineEndIsADelimiter(After(st, lines[k - 1]));
    }
  }

  // ----- bracket depth

  function Bracket(c: CodePoint): int {
    if c == OPENING then 1 else if c == CLOSING then -1 else 0
  }

  /** Arrays opened minus closed among the code characters. */
  function Brackets(line: Text, classes: seq<Class>): int
    requires |classes| <= |line|
  {
    if classes == [] then 0
    else
      var last := |classes| - 1;
      Brackets(line, classes[..last]) + if classes[last] == Code then Bracket(line[last]) else 0
  }

  /** Where a character stands in the code. */
  function CodePlaces(line: Text, classes: seq<Class>, c: CodePoint): set<nat>
    requires |classes| <= |line|
  {
    set i: nat | i < |classes| && classes[i] == Code && line[i] == c
  }

  lemma OnePlaceMore(line: Text, classes: seq<Class>, last: Class, c: CodePoint)
    requires |classes| < |line|
    ensures CodePlaces(line, classes + [last], c) ==
      CodePlaces(line, classes, c) + if last == Code && line[|classes|] == c then {|classes|} else {}
    ensures |classes| !in CodePlaces(line, classes, c)
  {
    assert forall i: nat :: i < |classes| ==> (classes + [last])[i] == classes[i];
  }

  /** Opening brackets in the code less closing ones. */
  lemma {:induction false} BracketsAreCounted(line: Text, classes: seq<Class>)
    requires |classes| <= |line|
    ensures Brackets(line, classes) == |CodePlaces(line, classes, OPENING)| - |CodePlaces(line, classes, CLOSING)|
  {
    if classes != [] {
      var init, last := classes[..|classes| - 1], classes[|classes| - 1];
      BracketsAreCounted(line, init);
      assert classes == init + [last];
      OnePlaceMore(line, init, last, OPENING);
      OnePlaceMore(line, init, last, CLOSING);
      hide CodePlaces;
    }
  }

  function BracketsAt(line: Text, code: seq<nat>): int
    requires forall i :: 0 <= i < |code| ==> code[i] < |line|
  {
    if code == [] then 0 else BracketsAt(line, code[..|code| - 1]) + Bracket(line[code[|code| - 1]])
  }

  lemma BracketsAtSnoc(line: Text, code: seq<nat>, last: nat)
    requires last < |line| && forall i :: 0 <= i < |code| ==> code[i] < |line|
    ensures BracketsAt(line, code + [last]) == BracketsAt(line, code) + Bracket(line[last])
  {
    assert (code + [last])[..|code|] == code;
  }

  lemma {:induction false} CodeIndexesInRange(classes: seq<Class>)
    ensures forall i :: 0 <= i < |CodeIndexes(classes)| ==> CodeIndexes(classes)[i] < |classes|
  {
    if classes != [] {
      CodeIndexesInRange(classes[..|classes| - 1]);
    }
  }

  lemma {:induction false} BracketsAtCodeIndexes(line: Text, classes: seq<Class>)
    requires |classes| <= |line|
    requires forall i :: 0 <= i < |CodeIndexes(classes)| ==> CodeIndexes(classes)[i] < |line|
    ensures BracketsAt(line, CodeIndexes(classes)) == Brackets(line, classes)
  {
    if classes != [] {
      var last := |classes| - 1;
      var before := CodeIndexes(classes[..last]);
      CodeIndexesInRange(classes[..last]);
      BracketsAtCodeIndexes(line, classes[..last]);
      if classes[last] == Code {
        assert CodeIndexes(classes) == before + [last];
        BracketsAtSnoc(line, before, last);
      } else {
        assert CodeIndexes(classes) == before;
      }
    }
  }

  /** `_scan_toml_line`. */
  method ScanTomlLine(line: Text, open: Text) returns (change: int, open': Text)
    requires IsLine(line) && IsOpenString(open)
    ensures change == Brackets(line, ReadLine(Inside(open), line).classes)
    ensures var classes := ReadLine(Inside(open), line).classes;
      change == |CodePlaces(line, classes, OPENING)| - |CodePlaces(line, classes, CLOSING)|
    ensures open' == OpenString(ReadLine(Inside(open), line).end)
  {
    var scan := ScanTomlCharacters(line, open);
    CodeIndexesInRange(ReadLine(Inside(open), line).classes);
    BracketsAtCodeIndexes(line, ReadLine(Inside(open), line).classes);
    BracketsAreCounted(line, ReadLine(Inside(open), line).classes);
    change := 0;
    for i := 0 to |scan.code|
      invariant change == BracketsAt(line, scan.code[..i])
    {
      assert scan.code[..i + 1][..i] == scan.code[..i];
      change := change + Bracket(line[scan.code[i]]);
    }
    assert scan.code[..|scan.code|] == scan.code;
    open' := scan.open;
  }

  function Max(a: int, b: int): int {
    if a < b then b else a
  }

  /** Arrays still open where line `k` starts; a line that closes more than is open leaves none. */
  function DepthAt(lines: seq<Text>, k: nat): nat
    requires k <= |lines|
  {
    if k == 0 then 0 else Max(DepthAt(lines, k - 1) + Brackets(lines[k - 1], LineClasses(lines, k - 1)), 0)
  }

  /** The plain count over all the text before line `k`. */
  function CountBefore(lines: seq<Text>, k: nat): int
    requires k <= |lines|
  {
    Brackets(Joined(lines[..k]), Classes(Plain, Joined(lines[..k])))
  }

  /** No line before line `k` closes more arrays than are open: the plain count never falls below zero. */
  predicate NeverOvercloses(lines: seq<Text>, k: nat)
    requires k <= |lines|
  {
    forall j :: 0 <= j <= k ==> CountBefore(lines, j) >= 0
  }

  lemma NothingBefore(lines: seq<Text>)
    ensures DepthAt(lines, 0) == CountBefore(lines, 0) == 0 && NeverOvercloses(lines, 0)
  {
  }

  lemma DepthOfNextLine(lines: seq<Text>, k: nat)
    requires k < |lines|
    ensures DepthAt(lines, k + 1) == Max(DepthAt(lines, k) + Brackets(lines[k], LineClasses(lines, k)), 0)
  {
    hide Brackets, LineClasses;
  }

  lemma OverclosesNext(lines: seq<Text>, k: nat)
    requires k < |lines|
    ensures NeverOvercloses(lines, k + 1) <==> NeverOvercloses(lines, k) && CountBefore(lines, k + 1) >= 0
  {
    hide CountBefore;
  }

  lemma LineEndCountsNothing(st: State)
    ensures Classes(st, [LF]) == [LineEnd] && Brackets([LF], [LineEnd]) == 0
  {
    assert [LineEnd][..0] == [];
  }

  lemma {:induction false} BracketsOfPrefix(a: Text, b: Text, classes: seq<Class>)
    requires |classes| <= |a|
    ensures Brackets(a + b, classes) == Brackets(a, classes)
  {
    if classes != [] {
      BracketsOfPrefix(a, b, classes[..|classes| - 1]);
    }
  }

  lemma {:induction false} BracketsOfParts(a: Text, b: Text, as_: seq<Class>, bs: seq<Class>)
    requires |a| == |as_| && |bs| <= |b|
    ensures Brackets(a + b, as_ + bs) == Brackets(a, as_) + Brackets(b, bs)
    decreases bs
  {
    if bs == [] {
      assert as_ + bs == as_;
      BracketsOfPrefix(a, b, as_);
    } else {
      var last := |bs| - 1;
      BracketsOfParts(a, b, as_, bs[..last]);
      assert (as_ + bs)[..|as_| + last] == as_ + bs[..last];
    }
  }

  lemma CountOfNextLine(lines: seq<Text>, k: nat)
    requires k < |lines|
    ensures CountBefore(lines, k + 1) == CountBefore(lines, k) + Brackets(lines[k], LineClasses(lines, k))
  {
    hide Step;
    var before, here := Joined(lines[..k]), lines[k];
    assert lines[..k + 1][..k] == lines[..k];
    assert Joined(lines[..k + 1]) == before + here + [LF];
    var st := After(Plain, before);
    ClassesOfParts(Plain, before, here);
    ClassesOfParts(Plain, before + here, [LF]);
    LineEndCountsNothing(After(Plain, before + here));
    hide Joined, Classes, After;
    BracketsOfParts(before, here, Classes(Plain, before), Classes(st, here));
    BracketsOfParts(before + here, [LF], Classes(Plain, before + here), [LineEnd]);
  }

  /** The depth is never below the plain count over all the text before, and is that count exactly when no
      line closed more than was open. */
  lemma {:induction false} DepthIsTheTextsCount(lines: seq<Text>, k: nat)
    requires k <= |lines| && AreLines(lines)
    ensures DepthAt(lines, k) >= CountBefore(lines, k)
    ensures DepthAt(lines, k) == CountBefore(lines, k) <==> NeverOvercloses(lines, k)
  {
    hide CountBefore, Brackets, LineClasses, DepthAt, NeverOvercloses, IsLine;
    if k == 0 {
      NothingBefore(lines);
    } else {
      DepthIsTheTextsCount(lines, k - 1);
      CountOfNextLine(lines, k - 1);
      DepthOfNextLine(lines, k - 1);
      OverclosesNext(lines, k - 1);
    }
  }

  /** One closing bracket is enough to tell the two apart. */
  lemma DepthCanDifferFromTheCount()
    ensures var lines: seq<Text> := [[CLOSING]];
      && AreLines(lines) && DepthAt(lines, 1) == 0 && CountBefore(lines, 1) == -1
  {
    var lines: seq<Text> := [[CLOSING]];
    NothingBefore(lines);
    CountOfNextLine(lines, 0);
    assert StateAt(lines, 0) == Plain;
    var classes := LineClasses(lines, 0);
    assert Step(Plain, CLOSING) == (Code, Plain);
    assert classes[0] == Code;
    assert Brackets(lines[0], classes[..0]) == 0;
    assert Brackets(lines[0], classes) == -1;
    DepthOfNextLine(lines, 0);
  }

  // ----- stripping a line

  /** A space keeps the state a line can start in, and any state as far as the line's end goes. */
  lemma SpaceKeeps(st: State, c: CodePoint)
    requires IsSpace(c) && c != LF && MarkIsQuote(st)
    ensures AfterLine(After(st, [c])) == AfterLine(st)
    ensures st == AfterLine(st) ==> After(st, [c]) == st
    ensures Brackets([c], Classes(st, [c])) == 0
  {
    assert [c][1..] == [];
    assert After(st, [c]) == Step(st, c).1;
    assert Classes(st, [c])[..0] == [];
  }

  lemma {:induction false} StripLeftKeeps(st: State, line: Text)
    requires MarkIsQuote(st) && st == AfterLine(st)
    requires IsLine(line)
    ensures IsLine(StripLeft(line))
    ensures After(st, StripLeft(line)) == After(st, line)
    ensures Brackets(StripLeft(line), Classes(st, StripLeft(line))) == Brackets(line, Classes(st, line))
    decreases line
  {
    if line != [] && IsSpace(line[0]) {
      hide AfterLine, Step, IsSpace;
      var one, rest := [line[0]], line[1..];
      StripLeftKeeps(st, rest);
      assert line == one + rest;
      SpaceKeeps(st, line[0]);
      ClassesOfParts(st, one, rest);
      BracketsOfParts(one, rest, Classes(st, one), Classes(st, rest));
    }
  }

  lemma {:induction false} StripRightKeeps(st: State, line: Text)
    requires MarkIsQuote(st) && IsLine(line)
    ensures IsLine(StripRight(line))
    ensures AfterLine(After(st, StripRight(line))) == AfterLine(After(st, line))
    ensures Brackets(StripRight(line), Classes(st, StripRight(line))) == Brackets(line, Classes(st, line))
    decreases line
  {
    if line != [] && IsSpace(line[|line| - 1]) {
      hide AfterLine, Step, IsSpace;
      var init, one := line[..|line| - 1], [line[|line| - 1]];
      StripRightKeeps(st, init);
      assert line == init + one;
      MarksAreQuotes(st, init);
      SpaceKeeps(After(st, init), one[0]);
      ClassesOfParts(st, init, one);
      BracketsOfParts(init, one, Classes(st, init), Classes(After(st, init), one));
    }
  }

  /** Stripping a line's outer whitespace changes neither its bracket count nor the string left open. */
  lemma StripKeeps(open: Text, line: Text)
    requires IsOpenString(open) && IsLine(line)
    ensures IsLine(Strip(line))
    ensures ReadLine(Inside(open), Strip(line)).end == ReadLine(Inside(open), line).end
    ensures Brackets(Strip(line), Classes(Inside(open), Strip(line))) == Brackets(line, Classes(Inside(open), line))
  {
    StripLeftKeeps(Inside(open), line);
    StripRightKeeps(Inside(open), StripLeft(line));
  }

  // ----- what is read out of the lines

  datatype RequiresPython = Absent | Found(value: Text) | Refused(line: Text)

  /** A comment line of the metadata block without its comment prefix. */
  function Uncommented(raw: Text): Text {
    if [HASH, 0x20] <= raw then raw[2..] else if raw == [] then [] else raw[1..]
  }

  /** The TOML lines between the block's first and last line. */
  function TomlLines(block: seq<Text>): (lines: seq<Text>)
    ensures |block| >= 2 ==> |lines| == |block| - 2
  {
    if |block| < 2 then [] else seq(|block| - 2, i requires 0 <= i < |block| - 2 => Uncommented(block[i + 1]))
  }

  /** A comment line that carries the TOML line, behind `# `, or behind `#` alone a line that starts with no space
      (the empty one, say). */
  predicate Carries(comment: Text, line: Text) {
    comment == [HASH, 0x20] + line || (comment == [HASH] + line && !([0x20] <= line))
  }

  /** A comment line carries exactly one line, the one it is without its prefix. */
  lemma CommentCarriesOneLine(comment: Text, line: Text)
    ensures [HASH] <= comment ==> (Carries(comment, line) <==> line == Uncommented(comment))
    ensures !([HASH] <= comment) ==> !Carries(comment, line)
  {
    if [HASH] <= comment {
      assert comment == [HASH] + comment[1..];
      if [0x20] <= comment[1..] {
        assert comment == [HASH, 0x20] + comment[2..];
      }
    }
  }

  /** The lines of a block are those its comment lines carry, its first and last line apart. */
  lemma TomlLinesAreCarried(first: Text, comments: seq<Text>, last: Text, lines: seq<Text>)
    requires |comments| == |lines| && forall i :: 0 <= i < |lines| ==> Carries(comments[i], lines[i])
    ensures TomlLines([first] + comments + [last]) == lines
  {
    var block := [first] + comments + [last];
    forall i | 0 <= i < |lines|
      ensures TomlLines(block)[i] == lines[i]
    {
      assert block[i + 1] == comments[i] && Carries(comments[i], lines[i]);
      CommentCarriesOneLine(comments[i], lines[i]);
    }
  }

  lemma TomlLinesAreLines(block: seq<Text>)
    requires AreLines(block)
    ensures AreLines(TomlLines(block))
  {
    forall i | 0 <= i < |TomlLines(block)|
      ensures IsLine(TomlLines(block)[i])
    {
      assert IsLine(block[i + 1]);
    }
  }

  /** Line `k` is a table header at the top level: outside every string and every open array. */
  ghost predicate IsHeader(lines: seq<Text>, k: nat)
    requires k < |lines|
  {
    StateAt(lines, k) == Plain && DepthAt(lines, k) == 0 && [OPENING] <= Strip(lines[k])
  }

  /** Line `k` starts, outside every string, with the key. */
  ghost predicate IsKeyLine(isKey: Text -> bool, lines: seq<Text>, k: nat)
    requires k < |lines|
  {
    StateAt(lines, k) == Plain && isKey(Strip(lines[k]))
  }

  lemma StrippedCount(lines: seq<Text>, k: nat, open: Text)
    requires k < |lines| && AreLines(lines)
    requires IsOpenString(open) && Inside(open) == StateAt(lines, k)
    ensures Brackets(Strip(lines[k]), ReadLine(Inside(open), Strip(lines[k])).classes) ==
      Brackets(lines[k], LineClasses(lines, k))
  {
    StripKeeps(open, lines[k]);
    hide StateAt, Strip, Brackets, Classes, Inside;
  }

  /** Scanning the stripped line carries depth and open string from line `k` to the next. */
  lemma StrippedLineCarriesOn(lines: seq<Text>, k: nat, open: Text)
    requires k < |lines| && AreLines(lines)
    requires IsOpenString(open) && Inside(open) == StateAt(lines, k)
    ensures var line := Strip(lines[k]);
      && IsLine(line)
      && OpenString(ReadLine(Inside(open), line).end) == OpenString(StateAt(lines, k + 1))
      && DepthAt(lines, k + 1) == Max(DepthAt(lines, k) + Brackets(line, ReadLine(Inside(open), line).classes), 0)
    ensures IsOpenString(OpenString(StateAt(lines, k + 1)))
    ensures Inside(OpenString(StateAt(lines, k + 1))) == StateAt(lines, k + 1)
  {
    StripKeeps(open, lines[k]);
    StrippedCount(lines, k, open);
    DepthOfNextLine(lines, k);
    LinesReadAsTheText(lines, k);
    LineStartIsADelimiter(lines, k + 1);
    hide StateAt, Strip, Brackets, LineClasses, ReadLine, Joined, Offset, DepthAt, IsOpenString, OpenString, Inside;
  }

  lemma StartsPlain(lines: seq<Text>)
    ensures StateAt(lines, 0) == Plain && DepthAt(lines, 0) == 0
  {
  }

  /** `extract_requires_python` (the two regular expressions are parameters): the first line of the whole
      text that is a top-level table header or a key line decides, as the whole text classes it. */
  method ExtractRequiresPython(block: seq<Text>, isKey: Text -> bool, valueOf: Text -> RequiresPython)
    returns (r: RequiresPython)
    requires AreLines(block)
    ensures var lines := TomlLines(block);
      || (r == Absent && forall k :: 0 <= k < |lines| ==> !IsHeader(lines, k) && !IsKeyLine(isKey, lines, k))
      || exists k ::
           && 0 <= k < |lines|
           && (forall j :: 0 <= j < k ==> !IsHeader(lines, j) && !IsKeyLine(isKey, lines, j))
           && (IsHeader(lines, k) || IsKeyLine(isKey, lines, k))
           && r == if IsHeader(lines, k) then Absent else valueOf(Strip(lines[k]))
  {
    hide Strip, StateAt, DepthAt, ReadLine, Brackets, OpenString;
    TomlLinesAreLines(block);
    var lines := TomlLines(block);
    var depth := 0;
    var open: Text := [];
    StartsPlain(lines);
    for i := 0 to |lines|
      invariant IsOpenString(open) && Inside(open) == StateAt(lines, i) && depth == DepthAt(lines, i)
      invariant forall j :: 0 <= j < i ==> !IsHeader(lines, j) && !IsKeyLine(isKey, lines, j)
    {
      StrippedLineCarriesOn(lines, i, open);
      var line := Strip(lines[i]);
      if open == [] && [OPENING] <= line && depth == 0 {
        return Absent;
      }
      if open == [] && isKey(line) {
        return valueOf(line);
      }
      var change, open' := ScanTomlLine(line, open);
      open := open';
      depth := Max(depth + change, 0);
    }
    return Absent;
  }

  lemma StartsInside(lines: seq<Text>)
    ensures Inside([]) == StateAt(lines, 0)
  {
  }

  /** The part of a line before its comment. */
  ghost function BeforeComment(line: Text, classes: seq<Class>): (r: Text)
    requires |classes| == |line|
  {
    if line == [] || classes[0] == Comment then [] else [line[0]] + BeforeComment(line[1..], classes[1..])
  }

  lemma {:induction false} BeforeCommentIsPrefix(line: Text, classes: seq<Class>, comment: nat)
    requires |classes| == |line| && comment <= |line|
    requires forall i :: 0 <= i < |line| ==> (classes[i] == Comment <==> comment <= i)
    ensures BeforeComment(line, classes) == line[..comment]
  {
    if comment > 0 {
      BeforeCommentIsPrefix(line[1..], classes[1..], comment - 1);
    }
  }

  /** Scanning line `k` tells what the whole text says of it, and carries the open string on. */
  lemma ScanTellsOfLine(lines: seq<Text>, k: nat, open: Text, scan: LineScan)
    requires k < |lines| && AreLines(lines)
    requires Inside(open) == StateAt(lines, k) && Tells(scan, Inside(open), lines[k])
    ensures scan.comment <= |lines[k]|
    ensures lines[k][..scan.comment] == BeforeComment(lines[k], LineClasses(lines, k))
    ensures IsOpenString(scan.open) && Inside(scan.open) == StateAt(lines, k + 1)
  {
    BeforeCommentIsPrefix(lines[k], LineClasses(lines, k), scan.comment);
    LinesReadAsTheText(lines, k);
    LineStartIsADelimiter(lines, k + 1);
  }

  /** `has_git_source` (the tests on a value and on comment-free TOML are parameters): whether a value, or
      what some line of the whole text holds outside comments, may name a git source. */
  method HasGitSource(block: seq<Text>, values: seq<Text>, isGit: Text -> bool, mayNameGit: Text -> bool)
    returns (r: bool)
    requires AreLines(block)
    ensures var lines := TomlLines(block);
      r <==> || (exists i :: 0 <= i < |values| && isGit(values[i]))
             || (exists k :: 0 <= k < |lines| && mayNameGit(BeforeComment(lines[k], LineClasses(lines, k))))
  {
    hide StateAt, LineClasses, Tells, BeforeComment, TomlLines, Inside;
    if exists i :: 0 <= i < |values| && isGit(values[i]) {
      return true;
    }
    TomlLinesAreLines(block);
    var lines := TomlLines(block);
    var open: Text := [];
    StartsInside(lines);
    for i := 0 to |lines|
      invariant IsOpenString(open) && Inside(open) == StateAt(lines, i)
      invariant forall k :: 0 <= k < i ==> !mayNameGit(BeforeComment(lines[k], LineClasses(lines, k)))
    {
      var scan := ScanTomlCharacters(lines[i], open);
      ScanTellsOfLine(lines, i, open, scan);
      if mayNameGit(lines[i][..scan.comment]) {
        return true;
      }
      open := scan.open;
    }
    return false;
  }
}
