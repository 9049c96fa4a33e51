/** How the script packer quotes values for `sh` and PowerShell, after domain/packing.py, against readers
    of the two shells. */
module ShellQuote {
  import opened Texts
  import opened References

  const SPACE: CodePoint := 0x20
  const TAB: CodePoint := 0x09
  const BACKTICK: CodePoint := 0x60
  const COMMA: CodePoint := 0x2C

  lemma SeparatorsAsWritten()
    ensures FromString(" \t`,") == [SPACE, TAB, BACKTICK, COMMA]
  {
  }

  // ----- reading words as sh does

  datatype Mode = Between | InWord | InSingle | InDouble

  predicate IsBlank(c: CodePoint) {
    c == SPACE || c == TAB
  }

  predicate IsEscapable(c: CodePoint) {
    c == DOLLAR || c == BACKTICK || c == QUOTE || c == BACKSLASH
  }

  /** A character a backslash escapes inside double quotes, or an apostrophe. */
  predicate IsQuoting(c: CodePoint) {
    c == APOSTROPHE || IsEscapable(c)
  }

  /** A character that stands for itself outside quotes, in every position of a word. */
  predicate IsOrdinary(c: CodePoint) {
    && !IsBlank(c) && c != LF && !IsQuoting(c)
    && c !in {0x7C, 0x26, 0x3B, 0x3C, 0x3E, 0x28, 0x29}   // | & ; < > ( )
    && c !in {0x2A, 0x3F, 0x5B, 0x23, 0x7E, 0x3D, 0x25}   // * ? [ # ~ = %
  }

  predicate IsNameStart(c: CodePoint) {
    c == 0x5F || 0x41 <= c <= 0x5A || 0x61 <= c <= 0x7A
  }

  function NameTail(t: Text): (n: nat)
    ensures n <= |t|
  {
    if t == [] || !(IsNameStart(t[0]) || 0x30 <= t[0] <= 0x39) then 0 else 1 + NameTail(t[1..])
  }

  /** The longest variable name a text starts with. */
  function NameLength(t: Text): (n: nat)
    ensures n <= |t|
  {
    if t == [] || !IsNameStart(t[0]) then 0 else 1 + NameTail(t[1..])
  }

  function OneMore(words: seq<Text>, more: Option<seq<Text>>): Option<seq<Text>> {
    match more
    case Some(rest) => Some(words + rest)
    case None => None
  }

  /** The words a text is read as (sections 2.2.1 to 2.2.3, 2.3 and 2.6.5 of the POSIX.1-2017 Shell
      Command Language): `word` is what the current word holds so far. A variable is expanded inside
      double quotes only, where its value is neither split nor globbed. `None` where a quote is not
      closed, and where the text is more than quoted and ordinary words: operators, comments, globs and
      other expansions are not read. */
  function Read(env: map<Text, Text>, mode: Mode, word: Text, t: Text): Option<seq<Text>>
    decreases |t|
  {
    if t == [] then
      match mode
      case Between => Some([])
      case InWord => Some([word])
      case _ => None
    else
      var c, rest := t[0], t[1..];
      match mode
      case InSingle => if c == APOSTROPHE then Read(env, InWord, word, rest) else Read(env, InSingle, word + [c], rest)
      case InDouble =>
        if c == QUOTE then Read(env, InWord, word, rest)
        else if c == BACKTICK then None
        else if c == BACKSLASH then
          if rest == [] then None
          else if rest[0] == LF then Read(env, InDouble, word, rest[1..])
          else if IsEscapable(rest[0]) then Read(env, InDouble, word + [rest[0]], rest[1..])
          else Read(env, InDouble, word + [c], rest)
        else if c == DOLLAR then
          var n := NameLength(rest);
          if n == 0 then None
          else
            var value := if rest[..n] in env then env[rest[..n]] else [];
            Read(env, InDouble, word + value, rest[n..])
        else Read(env, InDouble, word + [c], rest)
      case _ =>
        if c == APOSTROPHE then Read(env, InSingle, word, rest)
        else if c == QUOTE then Read(env, InDouble, word, rest)
        else if IsBlank(c) then
          if mode == Between then Read(env, Between, [], rest) else OneMore([word], Read(env, Between, [], rest))
        else if c == BACKSLASH then
          if rest == [] then None
          else if rest[0] == LF then Read(env, mode, word, rest[1..])
          else Read(env, InWord, word + [rest[0]], rest[1..])
        else if IsOrdinary(c) then Read(env, InWord, word + [c], rest)
        else None
  }

  /** The words read on their own, from nothing. */
  function Words(env: map<Text, Text>, t: Text): Option<seq<Text>> {
    Read(env, Between, [], t)
  }

  // ----- quoting for sh

  /** `value.replace("'", "'\\''")`. */
  function EscapeQuotes(value: Text): Text {
    if value == [] then []
    else (if value[0] == APOSTROPHE then [APOSTROPHE, BACKSLASH, APOSTROPHE, APOSTROPHE] else [value[0]])
         + EscapeQuotes(value[1..])
  }

  /** `_posix_shell_word`. */
  function ShellWord(value: Text): Text {
    [APOSTROPHE] + EscapeQuotes(value) + [APOSTROPHE]
  }

  /** The way a quote character is written inside single quotes: close, escape it, open again. */
  lemma SplitQuoteReads(env: map<Text, Text>, word: Text, rest: Text)
    ensures Read(env, InSingle, word, [APOSTROPHE] + ([BACKSLASH, APOSTROPHE] + ([APOSTROPHE] + rest)))
         == Read(env, InSingle, word + [APOSTROPHE], rest)
  {
    var third := [APOSTROPHE] + rest;
    var second := [BACKSLASH, APOSTROPHE] + third;
    var first := [APOSTROPHE] + second;
    assert first[1..] == second && second[1..][1..] == third && third[1..] == rest;
    assert second[1..][0] == APOSTROPHE;
    assert Read(env, InSingle, word, first) == Read(env, InWord, word, second);
    assert Read(env, InWord, word, second) == Read(env, InWord, word + [APOSTROPHE], third);
  }

  lemma {:induction false} EscapedReadsBack(env: map<Text, Text>, word: Text, value: Text, rest: Text)
    ensures Read(env, InSingle, word, EscapeQuotes(value) + [APOSTROPHE] + rest)
         == Read(env, InWord, word + value, rest)
    decreases value
  {
    var t := EscapeQuotes(value) + [APOSTROPHE] + rest;
    if value == [] {
      assert t == [APOSTROPHE] + rest;
      assert word + value == word;
    } else {
      var tail := EscapeQuotes(value[1..]) + [APOSTROPHE] + rest;
      assert word + [value[0]] + value[1..] == word + value;
      EscapedReadsBack(env, word + [value[0]], value[1..], rest);
      if value[0] == APOSTROPHE {
        assert t == [APOSTROPHE] + ([BACKSLASH, APOSTROPHE] + ([APOSTROPHE] + tail));
        SplitQuoteReads(env, word, tail);
      } else {
        assert t == [value[0]] + tail;
        assert t[1..] == tail;
      }
    }
  }

  /** A quoted value, wherever a word can start or go on, adds exactly itself to the word. */
  lemma QuotedReadsBack(env: map<Text, Text>, mode: Mode, word: Text, value: Text, rest: Text)
    requires mode == Between || mode == InWord
    ensures Read(env, mode, word, ShellWord(value) + rest) == Read(env, InWord, word + value, rest)
  {
    var t := ShellWord(value) + rest;
    assert t[1..] == EscapeQuotes(value) + [APOSTROPHE] + rest;
    EscapedReadsBack(env, word, value, rest);
  }

  /** `" ".join(...)`. */
  function Spaced(pieces: seq<Text>): Text {
    if pieces == [] then [] else if |pieces| == 1 then pieces[0] else pieces[0] + [SPACE] + Spaced(pieces[1..])
  }

  /** A text that, where a word can start, adds exactly `word` whatever follows it. */
  ghost predicate ReadsAs(env: map<Text, Text>, piece: Text, word: Text) {
    forall rest :: Read(env, Between, [], piece + rest) == Read(env, InWord, word, rest)
  }

  predicate StartsBlank(rest: Text) {
    rest == [] || IsBlank(rest[0])
  }

  lemma Instance(env: map<Text, Text>, piece: Text, word: Text, rest: Text)
    requires ReadsAs(env, piece, word)
    ensures Read(env, Between, [], piece + rest) == Read(env, InWord, word, rest)
  {
  }

  lemma SpacedStep(pieces: seq<Text>)
    requires pieces != []
    ensures Spaced(pieces) == if |pieces| == 1 then pieces[0] else pieces[0] + [SPACE] + Spaced(pieces[1..])
  {
  }

  lemma BlankIsSkipped(env: map<Text, Text>, more: Text)
    ensures Read(env, Between, [], [SPACE] + more) == Words(env, more)
  {
    assert ([SPACE] + more)[1..] == more;
  }

  lemma OneMoreTwice(word: Text, words: seq<Text>, more: Option<seq<Text>>)
    ensures OneMore([word], OneMore(words, more)) == OneMore([word] + words, more)
  {
    if more.Some? {
      assert [word] + (words + more.value) == [word] + words + more.value;
    }
  }

  /** A blank or the end of the text ends a word. */
  lemma WordEnds(env: map<Text, Text>, word: Text, rest: Text)
    requires StartsBlank(rest)
    ensures Read(env, InWord, word, rest) == OneMore([word], Read(env, Between, [], rest))
  {
    if rest == [] {
      assert [word] + [] == [word];
    } else {
      assert Read(env, Between, [], rest) == Read(env, Between, [], rest[1..]);
    }
  }

  lemma NothingSpaced(env: map<Text, Text>, rest: Text)
    ensures Words(env, Spaced([]) + rest) == OneMore([], Words(env, rest))
  {
    assert Spaced([]) + rest == rest;
    assert Words(env, rest).Some? ==> [] + Words(env, rest).value == Words(env, rest).value;
  }

  lemma WordThenMore(env: map<Text, Text>, piece: Text, word: Text, more: Text)
    requires ReadsAs(env, piece, word)
    ensures Words(env, piece + ([SPACE] + more)) == OneMore([word], Words(env, more))
  {
    hide Read, ReadsAs;
    Instance(env, piece, word, [SPACE] + more);
    WordEnds(env, word, [SPACE] + more);
    BlankIsSkipped(env, more);
  }

  /** Pieces that read as one word each, spaced, read as those words, and what follows is read on. */
  lemma {:induction false} SpacedReadsAsWords(env: map<Text, Text>, pieces: seq<Text>, words: seq<Text>, rest: Text)
    requires |pieces| == |words| && StartsBlank(rest)
    requires forall i :: 0 <= i < |pieces| ==> ReadsAs(env, pieces[i], words[i])
    ensures Words(env, Spaced(pieces) + rest) == OneMore(words, Words(env, rest))
    decreases |pieces|
  {
    hide Read, Spaced, ReadsAs;
    if pieces == [] {
      NothingSpaced(env, rest);
    } else {
      SpacedStep(pieces);
      if |pieces| == 1 {
        Instance(env, pieces[0], words[0], rest);
        WordEnds(env, words[0], rest);
        assert words == [words[0]];
      } else {
        var more := Spaced(pieces[1..]) + rest;
        SpacedReadsAsWords(env, pieces[1..], words[1..], rest);
        WordThenMore(env, pieces[0], words[0], more);
        OneMoreTwice(words[0], words[1..], Words(env, rest));
        hide Words, OneMore;
        assert Spaced(pieces) + rest == pieces[0] + ([SPACE] + more);
        assert words == [words[0]] + words[1..];
      }
    }
  }

  // ----- the list of uv arguments

  /** `_posix_shell_args`. */
  function ShellArgs(values: seq<Text>): Text {
    Spaced(seq(|values|, i requires 0 <= i < |values| => ShellWord(values[i])))
  }

  /** `"$PWSHPY_CALLER_PREFIX"`, double quotes included. */
  const PREFIX_NAME: Text := FromString("PWSHPY_CALLER_PREFIX")
  const PREFIX_VARIABLE: Text := [QUOTE, DOLLAR] + PREFIX_NAME + [QUOTE]
  const WITH: Text := FromString("--with")

  /** A value split in front of its relative path. */
  datatype Split = Split(head: Text, location: Text)

  /** `split_relative_requirement`: `isRelative` is the test of the location. */
  function SplitRelative(isRelative: Text -> bool, spec: Text): (r: Option<Split>)
    ensures r.Some? ==> r.value.head + r.value.location == spec && isRelative(r.value.location)
  {
    var head := if [DOT] <= StripLeft(spec) then [] else ReferenceOf(spec);
    var location := spec[|head|..];
    if isRelative(location) then Some(Split(head, location)) else None
  }

  /** A value has one longest reference in front, and it is split behind that exactly if what follows is
      relative. */
  lemma SplitIsAtTheHead(isRelative: Text -> bool, spec: Text)
    ensures exists head :: IsLongest(spec, head)
    ensures forall head :: IsLongest(spec, head) ==>
      var location := spec[|head|..];
      SplitRelative(isRelative, spec) == if isRelative(location) then Some(Split(head, location)) else None
  {
    hide IsLongest, ReferenceOf, StripLeft;
    ReadIsLongest(spec);
    DotGuardNeverDecides(spec);
    forall head | IsLongest(spec, head)
      ensures head == ReferenceOf(spec)
    {
      LongestIsUnique(spec, head);
    }
  }

  /** How value `i` is to be split: only a value right after `--with` is. */
  function SplitAt(isRelative: Text -> bool, values: seq<Text>, i: nat): Option<Split>
    requires i < |values|
  {
    if i > 0 && values[i - 1] == WITH then SplitRelative(isRelative, values[i]) else None
  }

  /** The word value `i` is to become: itself, or with the caller's prefix in front of its path. */
  function AnchoredValue(isRelative: Text -> bool, prefix: Text, values: seq<Text>, i: nat): Text
    requires i < |values|
  {
    match SplitAt(isRelative, values, i)
    case None => values[i]
    case Some(split) => split.head + prefix + split.location
  }

  /** A value rendered for `sh`, split or not. */
  function Rendered(value: Text, split: Option<Split>): Text {
    match split
    case None => ShellWord(value)
    case Some(s) => ShellWord(s.head) + PREFIX_VARIABLE + ShellWord(s.location)
  }

  function AnchoredPiece(isRelative: Text -> bool, values: seq<Text>, i: nat): Text
    requires i < |values|
  {
    Rendered(values[i], SplitAt(isRelative, values, i))
  }

  /** The specified pieces. */
  function AnchoredPieces(isRelative: Text -> bool, values: seq<Text>): (pieces: seq<Text>)
    ensures |pieces| == |values|
  {
    seq(|values|, i requires 0 <= i < |values| => AnchoredPiece(isRelative, values, i))
  }

  /** The words they are to become. */
  function AnchoredWords(isRelative: Text -> bool, prefix: Text, values: seq<Text>): (words: seq<Text>)
    ensures |words| == |values|
  {
    seq(|values|, i requires 0 <= i < |values| => AnchoredValue(isRelative, prefix, values, i))
  }

  lemma WithIsNotEmpty()
    ensures WITH != []
  {
  }

  /** `_anchored_values`: how value `i` is to be split, remembering the value before it. */
  lemma PreviousDecides(isRelative: Text -> bool, values: seq<Text>, i: nat, previous: Text)
    requires i < |values|
    requires previous == if i == 0 then [] else values[i - 1]
    ensures SplitAt(isRelative, values, i) ==
      if previous == WITH then SplitRelative(isRelative, values[i]) else None
  {
    hide SplitRelative, FromString;
    WithIsNotEmpty();
  }

  lemma PieceAt(isRelative: Text -> bool, values: seq<Text>, i: nat)
    requires i < |values|
    ensures AnchoredPieces(isRelative, values)[i] == Rendered(values[i], SplitAt(isRelative, values, i))
  {
    hide Rendered, SplitAt;
  }

  lemma TakeOneMore<T>(all: seq<T>, i: nat)
    requires i < |all|
    ensures all[..i + 1] == all[..i] + [all[i]]
  {
  }

  /** `_posix_anchored_args` with `_anchored_values`: one pass, remembering the previous value. */
  method AnchoredArgs(isRelative: Text -> bool, values: seq<Text>) returns (rendered: Text)
    ensures rendered == Spaced(AnchoredPieces(isRelative, values))
  {
    hide Rendered, Spaced, SplitRelative, SplitAt, FromString, AnchoredPieces;
    var pieces: seq<Text> := [];
    var previous: Text := [];
    ghost var all := AnchoredPieces(isRelative, values);
    for i := 0 to |values|
      invariant pieces == all[..i]
      invariant previous == if i == 0 then [] else values[i - 1]
    {
      PreviousDecides(isRelative, values, i, previous);
      PieceAt(isRelative, values, i);
      TakeOneMore(all, i);
      var split := if previous == WITH then SplitRelative(isRelative, values[i]) else None;
      pieces := pieces + [Rendered(values[i], split)];
      previous := values[i];
    }
    assert pieces == all;
    rendered := Spaced(pieces);
  }

  predicate IsName(name: Text) {
    name != [] && forall i :: 0 <= i < |name| ==> IsNameStart(name[i])
  }

  lemma PrefixNameIsName()
    ensures IsName(PREFIX_NAME)
  {
  }

  lemma {:induction false} NameTailEndsAtQuote(name: Text, rest: Text)
    requires (forall i :: 0 <= i < |name| ==> IsNameStart(name[i])) && rest != [] && rest[0] == QUOTE
    ensures NameTail(name + rest) == |name|
    decreases name
  {
    if name == [] {
      assert name + rest == rest;
    } else {
      NameTailEndsAtQuote(name[1..], rest);
      assert (name + rest)[1..] == name[1..] + rest;
    }
  }

  lemma NameEndsAtQuote(name: Text, rest: Text)
    requires IsName(name) && rest != [] && rest[0] == QUOTE
    ensures NameLength(name + rest) == |name|
  {
    NameTailEndsAtQuote(name[1..], rest);
    assert (name + rest)[1..] == name[1..] + rest;
  }

  lemma SplicedReadsAsItsValue(env: map<Text, Text>, name: Text, word: Text, rest: Text)
    requires IsName(name) && name in env
    ensures Read(env, InWord, word, [QUOTE, DOLLAR] + name + [QUOTE] + rest)
         == Read(env, InWord, word + env[name], rest)
  {
    var fourth := [QUOTE] + rest;
    var third := name + fourth;
    var second := [DOLLAR] + third;
    var first := [QUOTE] + second;
    assert [QUOTE, DOLLAR] + name + [QUOTE] + rest == first;
    assert first[1..] == second && second[1..] == third && fourth[1..] == rest;
    NameEndsAtQuote(name, fourth);
    assert third[..|name|] == name && third[|name|..] == fourth;
    assert Read(env, InWord, word, first) == Read(env, InDouble, word, second);
    assert Read(env, InDouble, word, second) == Read(env, InDouble, word + env[name], fourth);
  }

  /** The spliced variable adds exactly its value. */
  lemma VariableReadsAsItsValue(env: map<Text, Text>, word: Text, rest: Text)
    requires PREFIX_NAME in env
    ensures Read(env, InWord, word, PREFIX_VARIABLE + rest) == Read(env, InWord, word + env[PREFIX_NAME], rest)
  {
    hide FromString, Read;
    PrefixNameIsName();
    SplicedReadsAsItsValue(env, PREFIX_NAME, word, rest);
  }

  lemma QuotedReadsAs(env: map<Text, Text>, value: Text)
    ensures ReadsAs(env, ShellWord(value), value)
  {
    forall rest
      ensures Read(env, Between, [], ShellWord(value) + rest) == Read(env, InWord, value, rest)
    {
      QuotedReadsBack(env, Between, [], value, rest);
      assert [] + value == value;
    }
  }

  lemma AnchoredReadsAs(env: map<Text, Text>, split: Split)
    requires PREFIX_NAME in env
    ensures ReadsAs(env, ShellWord(split.head) + PREFIX_VARIABLE + ShellWord(split.location),
                    split.head + env[PREFIX_NAME] + split.location)
  {
    var prefix := env[PREFIX_NAME];
    forall rest
      ensures Read(env, Between, [], ShellWord(split.head) + PREFIX_VARIABLE + ShellWord(split.location) + rest)
           == Read(env, InWord, split.head + prefix + split.location, rest)
    {
      var afterVariable := ShellWord(split.location) + rest;
      assert ShellWord(split.head) + PREFIX_VARIABLE + ShellWord(split.location) + rest
          == ShellWord(split.head) + (PREFIX_VARIABLE + afterVariable);
      QuotedReadsBack(env, Between, [], split.head, PREFIX_VARIABLE + afterVariable);
      assert [] + split.head == split.head;
      VariableReadsAsItsValue(env, split.head, afterVariable);
      QuotedReadsBack(env, InWord, split.head + prefix, split.location, rest);
    }
  }

  /** Evaluating `set -- ` followed by the rendered list yields exactly one word per argument, the
      argument itself, and reads on what follows. */
  lemma ArgsReadBack(env: map<Text, Text>, values: seq<Text>, rest: Text)
    requires StartsBlank(rest)
    ensures Words(env, ShellArgs(values) + rest) == OneMore(values, Words(env, rest))
  {
    var pieces := seq(|values|, i requires 0 <= i < |values| => ShellWord(values[i]));
    forall i | 0 <= i < |values|
      ensures ReadsAs(env, pieces[i], values[i])
    {
      QuotedReadsAs(env, values[i]);
    }
    SpacedReadsAsWords(env, pieces, values, rest);
  }

  /** The same of the re-anchored list: each relative `--with` value gets the prefix, whatever it holds,
      between its head and its location, and stays one word. */
  lemma AnchoredArgsReadBack(env: map<Text, Text>, isRelative: Text -> bool, values: seq<Text>, rest: Text)
    requires PREFIX_NAME in env && StartsBlank(rest)
    ensures Words(env, Spaced(AnchoredPieces(isRelative, values)) + rest) ==
      OneMore(AnchoredWords(isRelative, env[PREFIX_NAME], values), Words(env, rest))
  {
    var pieces := AnchoredPieces(isRelative, values);
    var words := AnchoredWords(isRelative, env[PREFIX_NAME], values);
    forall i | 0 <= i < |values|
      ensures ReadsAs(env, pieces[i], words[i])
    {
      match SplitAt(isRelative, values, i) {
        case None => QuotedReadsAs(env, values[i]);
        case Some(split) => AnchoredReadsAs(env, split);
      }
    }
    SpacedReadsAsWords(env, pieces, words, rest);
  }

  const SET: Text := FromString("set -- ")

  predicate AllOrdinary(t: Text) {
    forall i :: 0 <= i < |t| ==> IsOrdinary(t[i])
  }

  lemma SetIsOrdinary()
    ensures var set_, dashes := FromString("set"), FromString("--");
      && SET == set_ + [SPACE] + dashes + [SPACE]
      && set_ != [] && AllOrdinary(set_) && dashes != [] && AllOrdinary(dashes)
  {
  }

  lemma {:induction false} OrdinaryReadsOn(env: map<Text, Text>, word: Text, more: Text, rest: Text)
    requires AllOrdinary(more)
    ensures Read(env, InWord, word, more + rest) == Read(env, InWord, word + more, rest)
    decreases more
  {
    if more == [] {
      assert more + rest == rest && word + more == word;
    } else {
      var all := more + rest;
      assert all[0] == more[0] && all[1..] == more[1..] + rest;
      OrdinaryReadsOn(env, word + [more[0]], more[1..], rest);
      assert word + [more[0]] + more[1..] == word + more;
    }
  }

  lemma OrdinaryReads(env: map<Text, Text>, word: Text, rest: Text)
    requires word != [] && AllOrdinary(word)
    ensures Read(env, Between, [], word + rest) == Read(env, InWord, word, rest)
  {
    var all := word + rest;
    assert all[0] == word[0] && all[1..] == word[1..] + rest;
    assert IsOrdinary(word[0]) && [] + [word[0]] == [word[0]];
    OrdinaryReadsOn(env, [word[0]], word[1..], rest);
    assert [word[0]] + word[1..] == word;
  }

  lemma SetReads(env: map<Text, Text>, list: Text)
    ensures Words(env, SET + list) == OneMore([FromString("set"), FromString("--")], Words(env, list))
  {
    var set_, dashes := FromString("set"), FromString("--");
    SetIsOrdinary();
    hide FromString;
    var tail := dashes + ([SPACE] + list);
    OrdinaryReads(env, set_, [SPACE] + tail);
    OrdinaryReads(env, dashes, [SPACE] + list);
    WordEnds(env, set_, [SPACE] + tail);
    WordEnds(env, dashes, [SPACE] + list);
    BlankIsSkipped(env, tail);
    BlankIsSkipped(env, list);
    hide Read;
    assert SET + list == set_ + ([SPACE] + tail);
    OneMoreTwice(set_, [dashes], Words(env, list));
    assert [set_] + [dashes] == [set_, dashes];
  }

  /** The two readings together. The runner's assignment reads the quoted list as one word, in any
      environment; `eval` then reads `set -- ` with that word as the arguments it was made of. */
  lemma QuotedTwiceReadsBack(env: map<Text, Text>, env': map<Text, Text>, values: seq<Text>)
    ensures Words(env, ShellWord(ShellArgs(values))) == Some([ShellArgs(values)])
    ensures Words(env', SET + ShellArgs(values)) == Some([FromString("set"), FromString("--")] + values)
  {
    var list := ShellArgs(values);
    QuotedReadsBack(env, Between, [], list, []);
    assert ShellWord(list) + [] == ShellWord(list) && [] + list == list;
    ArgsReadBack(env', values, []);
    assert list + [] == list && values + [] == values;
    SetReads(env', list);
  }

  /** The same of the re-anchored list, whose variable is expanded by the `eval` only. */
  lemma AnchoredTwiceReadsBack(env: map<Text, Text>, env': map<Text, Text>,
                               isRelative: Text -> bool, values: seq<Text>)
    requires PREFIX_NAME in env'
    ensures var list := Spaced(AnchoredPieces(isRelative, values));
      && Words(env, ShellWord(list)) == Some([list])
      && Words(env', SET + list) == Some([FromString("set"), FromString("--")] +
           AnchoredWords(isRelative, env'[PREFIX_NAME], values))
  {
    var list := Spaced(AnchoredPieces(isRelative, values));
    var words := AnchoredWords(isRelative, env'[PREFIX_NAME], values);
    QuotedReadsBack(env, Between, [], list, []);
    assert ShellWord(list) + [] == ShellWord(list) && [] + list == list;
    AnchoredArgsReadBack(env', isRelative, values, []);
    assert list + [] == list && words + [] == words;
    SetReads(env', list);
  }

  // ----- quoting for PowerShell

  /** What PowerShell reads as a single quote: the ASCII one and U+2018 to U+201B. */
  predicate IsPowerShellQuote(c: CodePoint) {
    c == APOSTROPHE || 0x2018 <= c <= 0x201B
  }

  /** Every quote character doubled. */
  function DoubleQuotes(value: Text): Text {
    if value == [] then []
    else (if IsPowerShellQuote(value[0]) then [value[0], value[0]] else [value[0]]) + DoubleQuotes(value[1..])
  }

  /** `_powershell_literal`. */
  function PowerShellLiteral(value: Text): Text {
    [APOSTROPHE] + DoubleQuotes(value) + [APOSTROPHE]
  }

  /** The characters PowerShell reads as a single quote. */
  predicate IsSingleQuote(c: CodePoint) {
    c == 0x27 || c == 0x2018 || c == 0x2019 || c == 0x201A || c == 0x201B
  }

  datatype Literal = Literal(value: Text, rest: Text)

  /** PowerShell's reading of a single-quoted literal after its opening quote: two quote characters in a
      row, of whatever kinds, are the second of them; one alone ends the literal. */
  function ReadLiteral(value: Text, t: Text): (r: Option<Literal>)
    ensures r.Some? ==> |r.value.rest| < |t|
    decreases |t|
  {
    if t == [] then None
    else if !IsSingleQuote(t[0]) then ReadLiteral(value + [t[0]], t[1..])
    else if |t| > 1 && IsSingleQuote(t[1]) then ReadLiteral(value + [t[1]], t[2..])
    else Some(Literal(value, t[1..]))
  }

  /** A character, doubled if it is a quote, is read as itself. */
  lemma DoubledIsRead(before: Text, c: CodePoint, tail: Text)
    ensures ReadLiteral(before, (if IsPowerShellQuote(c) then [c, c] else [c]) + tail) ==
      ReadLiteral(before + [c], tail)
  {
    if IsPowerShellQuote(c) {
      assert ([c, c] + tail)[2..] == tail;
    } else {
      assert ([c] + tail)[1..] == tail;
    }
  }

  lemma LiteralEnds(before: Text, rest: Text)
    requires rest == [] || !IsPowerShellQuote(rest[0])
    ensures ReadLiteral(before, [APOSTROPHE] + rest) == Some(Literal(before, rest))
  {
    assert ([APOSTROPHE] + rest)[1..] == rest;
  }

  lemma {:induction false} DoubledReadsBack(before: Text, value: Text, rest: Text)
    requires rest == [] || !IsPowerShellQuote(rest[0])
    ensures ReadLiteral(before, DoubleQuotes(value) + ([APOSTROPHE] + rest)) == Some(Literal(before + value, rest))
    decreases value
  {
    hide ReadLiteral, IsPowerShellQuote;
    var end := [APOSTROPHE] + rest;
    if value == [] {
      LiteralEnds(before, rest);
      assert [] + end == end && before + [] == before;
    } else {
      var c := value[0];
      var here := if IsPowerShellQuote(c) then [c, c] else [c];
      DoubledIsRead(before, c, DoubleQuotes(value[1..]) + end);
      DoubledReadsBack(before + [c], value[1..], rest);
      assert here + (DoubleQuotes(value[1..]) + end) == DoubleQuotes(value) + end;
      assert before + [c] + value[1..] == before + value;
    }
  }

  /** A literal is read as its value and ends where it was meant to, whatever quotes the value holds. */
  lemma LiteralReadsBack(value: Text, rest: Text)
    requires rest == [] || !IsPowerShellQuote(rest[0])
    ensures PowerShellLiteral(value)[0] == APOSTROPHE
    ensures ReadLiteral([], (PowerShellLiteral(value) + rest)[1..]) == Some(Literal(value, rest))
  {
    assert (PowerShellLiteral(value) + rest)[1..] == DoubleQuotes(value) + ([APOSTROPHE] + rest);
    DoubledReadsBack([], value, rest);
    assert [] + value == value;
  }

  /** The text between a literal's outer quotes with each doubled quote character read as one. */
  function Unquoted(body: Text): Text
    decreases |body|
  {
    if body == [] then []
    else if IsPowerShellQuote(body[0]) && |body| > 1 && body[1] == body[0] then [body[0]] + Unquoted(body[2..])
    else [body[0]] + Unquoted(body[1..])
  }

  /** How far reading one character of the text advances. */
  function Advance(body: Text, index: nat): (n: nat)
    requires index < |body|
    ensures 1 <= n <= |body| - index
  {
    if IsPowerShellQuote(body[index]) && index + 1 < |body| && body[index + 1] == body[index] then 2 else 1
  }

  lemma UnquotedStep(body: Text, index: nat)
    requires index < |body|
    ensures Unquoted(body[index..]) == [body[index]] + Unquoted(body[index + Advance(body, index)..])
  {
    var rest := body[index..];
    assert rest[1..] == body[index + 1..];
    if index + 1 < |body| {
      assert rest[2..] == body[index + 2..];
    }
  }

  lemma NothingUnquoted()
    ensures Unquoted([]) == []
  {
  }

  /** `unquote_powershell_literal`. */
  method UnquotePowerShellLiteral(body: Text) returns (value: Text)
    ensures value == Unquoted(body)
  {
    hide Unquoted, Advance;
    value := [];
    var index := 0;
    assert body[0..] == body;
    while index < |body|
      invariant index <= |body|
      invariant value + Unquoted(body[index..]) == Unquoted(body)
    {
      UnquotedStep(body, index);
      ghost var more := Unquoted(body[index + Advance(body, index)..]);
      assert value + ([body[index]] + more) == value + [body[index]] + more;
      value := value + [body[index]];
      index := index + Advance(body, index);
    }
    NothingUnquoted();
    assert body[|body|..] == [];
  }

  /** Undoing the quoting gives the value back. */
  lemma {:induction false} UnquoteUndoesQuote(value: Text)
    ensures Unquoted(DoubleQuotes(value)) == value
    ensures var literal := PowerShellLiteral(value); Unquoted(literal[1..|literal| - 1]) == value
    decreases value
  {
    var literal := PowerShellLiteral(value);
    assert literal[1..|literal| - 1] == DoubleQuotes(value);
    if value != [] {
      UnquoteUndoesQuote(value[1..]);
      var t, tail := DoubleQuotes(value), DoubleQuotes(value[1..]);
      if IsPowerShellQuote(value[0]) {
        assert t[2..] == tail;
      } else {
        assert t[1..] == tail;
      }
    }
  }

  // ----- PowerShell lists

  /** `_powershell_string_array`. */
  function PowerShellArray(values: seq<Text>): Text {
    if values == [] then []
    else if |values| == 1 then PowerShellLiteral(values[0])
    else PowerShellLiteral(values[0]) + [COMMA] + PowerShellArray(values[1..])
  }

  /** PowerShell's reading of single-quoted literals separated by commas. */
  function ReadArray(t: Text): Option<seq<Text>>
    decreases |t|
  {
    if t == [] then Some([])
    else if !IsSingleQuote(t[0]) then None
    else
      match ReadLiteral([], t[1..])
      case None => None
      case Some(literal) =>
        if literal.rest == [] then Some([literal.value])
        else if literal.rest[0] != COMMA || |literal.rest| == 1 then None
        else OneMore([literal.value], ReadArray(literal.rest[1..]))
  }

  lemma ArrayIsNotEmpty(values: seq<Text>)
    requires values != []
    ensures PowerShellArray(values) != []
  {
    assert |PowerShellLiteral(values[0])| >= 2;
  }

  /** A literal at the front of a list, with nothing or a comma after it. */
  lemma FirstIsRead(value: Text, rest: Text)
    requires rest == [] || (rest[0] == COMMA && |rest| > 1)
    ensures ReadArray(PowerShellLiteral(value) + rest) ==
      if rest == [] then Some([value]) else OneMore([value], ReadArray(rest[1..]))
  {
    LiteralReadsBack(value, rest);
    hide ReadLiteral, PowerShellLiteral;
  }

  /** A list is read as exactly its values. */
  lemma {:induction false} ArrayReadsBack(values: seq<Text>)
    ensures ReadArray(PowerShellArray(values)) == Some(values)
    decreases |values|
  {
    if |values| == 1 {
      FirstIsRead(values[0], []);
      assert PowerShellLiteral(values[0]) + [] == PowerShellLiteral(values[0]);
      assert values == [values[0]];
    } else if values != [] {
      var more := PowerShellArray(values[1..]);
      ArrayReadsBack(values[1..]);
      ArrayIsNotEmpty(values[1..]);
      FirstIsRead(values[0], [COMMA] + more);
      hide ReadArray, PowerShellLiteral;
      assert PowerShellLiteral(values[0]) + [COMMA] + more == PowerShellLiteral(values[0]) + ([COMMA] + more);
      assert ([COMMA] + more)[1..] == more;
      assert [values[0]] + values[1..] == values;
    }
  }

  function LocationOf(split: Option<Split>): Text {
    match split case None => [] case Some(s) => s.location
  }

  function Suffix(isRelative: Text -> bool, values: seq<Text>, i: nat): Text
    requires i < |values|
  {
    LocationOf(SplitAt(isRelative, values, i))
  }

  /** The relative tail of each value, empty where the value is left as it is. */
  function Suffixes(isRelative: Text -> bool, values: seq<Text>): (suffixes: seq<Text>)
    ensures |suffixes| == |values|
  {
    seq(|values|, i requires 0 <= i < |values| => Suffix(isRelative, values, i))
  }

  lemma SuffixAt(isRelative: Text -> bool, values: seq<Text>, i: nat)
    requires i < |values|
    ensures Suffixes(isRelative, values)[i] == LocationOf(SplitAt(isRelative, values, i))
  {
    hide LocationOf, SplitAt;
  }

  /** `_powershell_relative_suffixes` with `_anchored_values`. */
  method RelativeSuffixes(isRelative: Text -> bool, values: seq<Text>) returns (rendered: Text)
    ensures rendered == PowerShellArray(Suffixes(isRelative, values))
  {
    hide FromString, SplitRelative, SplitAt, LocationOf, PowerShellArray, Suffixes;
    var suffixes: seq<Text> := [];
    var previous: Text := [];
    ghost var all := Suffixes(isRelative, values);
    for i := 0 to |values|
      invariant suffixes == all[..i]
      invariant previous == if i == 0 then [] else values[i - 1]
    {
      PreviousDecides(isRelative, values, i, previous);
      SuffixAt(isRelative, values, i);
      TakeOneMore(all, i);
      var split := if previous == WITH then SplitRelative(isRelative, values[i]) else None;
      suffixes := suffixes + [LocationOf(split)];
      previous := values[i];
    }
    assert suffixes == all;
    rendered := PowerShellArray(suffixes);
  }

  /** The two runners re-anchor alike: read back, the list of suffixes is parallel to the values, and putting
      the caller's prefix in front of a value's suffix gives the very word the other runner makes of it (the
      empty text is no relative location). */
  lemma SuffixesAnchorAlike(isRelative: Text -> bool, prefix: Text, values: seq<Text>)
    requires !isRelative([])
    ensures ReadArray(PowerShellArray(Suffixes(isRelative, values))) == Some(Suffixes(isRelative, values))
    ensures forall i :: 0 <= i < |values| ==>
      var suffix := Suffixes(isRelative, values)[i];
      && |suffix| <= |values[i]|
      && AnchoredValue(isRelative, prefix, values, i) ==
           if suffix == [] then values[i] else values[i][..|values[i]| - |suffix|] + prefix + suffix
  {
    ArrayReadsBack(Suffixes(isRelative, values));
    forall i | 0 <= i < |values|
      ensures var suffix := Suffix(isRelative, values, i);
        && |suffix| <= |values[i]|
        && AnchoredValue(isRelative, prefix, values, i) ==
             if suffix == [] then values[i] else values[i][..|values[i]| - |suffix|] + prefix + suffix
    {
      var split := SplitAt(isRelative, values, i);
      if split.Some? {
        assert split.value.head + split.value.location == values[i];
        assert split.value.head == values[i][..|split.value.head|];
      }
    }
  }
}
