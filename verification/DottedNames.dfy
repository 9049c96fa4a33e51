/** Names joined by dots, and split at them. */
module DottedNames {
  import opened Texts

  /** `text.split(".")`. */
  function Split(text: Text): (parts: seq<Text>)
    ensures |parts| >= 1
  {
    if text == [] then [[]]
    else if text[0] == DOT then [[]] + Split(text[1..])
    else
      var rest := Split(text[1..]);
      [[text[0]] + rest[0]] + rest[1..]
  }

  /** `".".join(parts)`. */
  function Join(parts: seq<Text>): Text {
    if parts == [] then [] else if |parts| == 1 then parts[0] else parts[0] + [DOT] + Join(parts[1..])
  }

  lemma {:induction false} JoinUndoesSplit(text: Text)
    ensures Join(Split(text)) == text
    ensures |Split(text)| >= 2 <==> DOT in text
    decreases |text|
  {
    if text != [] {
      JoinUndoesSplit(text[1..]);
      var rest := Split(text[1..]);
      var parts := Split(text);
      if text[0] == DOT {
        assert parts[1..] == rest;
      } else {
        assert parts[1..] == rest[1..];
        if |rest| > 1 {
          assert Join(rest) == rest[0] + [DOT] + Join(rest[1..]);
        }
      }
    }
  }

  lemma {:induction false} SplitParts(text: Text)
    ensures forall part :: part in Split(text) ==> DOT !in part && forall c :: c in part ==> c in text
    decreases |text|
  {
    if text != [] {
      SplitParts(text[1..]);
      var rest := Split(text[1..]);
      assert rest[0] in rest;
      forall part | part in Split(text)
        ensures DOT !in part && forall c :: c in part ==> c in text
      {
        if text[0] != DOT {
          assert part == [text[0]] + rest[0] || part in rest;
        }
      }
    }
  }

  lemma {:induction false} SplitWithoutDot(part: Text)
    requires DOT !in part
    ensures Split(part) == [part]
    decreases |part|
  {
    if part != [] {
      SplitWithoutDot(part[1..]);
      assert [part[0]] + part[1..] == part;
    }
  }

  lemma {:induction false} SplitAtDot(part: Text, rest: Text)
    requires DOT !in part
    ensures Split(part + ([DOT] + rest)) == [part] + Split(rest)
    decreases |part|
  {
    var text := part + ([DOT] + rest);
    if part == [] {
      assert text == [DOT] + rest && text[1..] == rest;
    } else {
      assert text[1..] == part[1..] + ([DOT] + rest);
      SplitAtDot(part[1..], rest);
      assert [part[0]] + part[1..] == part;
      assert ([part[1..]] + Split(rest))[1..] == Split(rest);
    }
  }

  lemma {:induction false} SplitUndoesJoin(parts: seq<Text>)
    requires parts != [] && forall i :: 0 <= i < |parts| ==> DOT !in parts[i]
    ensures Split(Join(parts)) == parts
    decreases |parts|
  {
    if |parts| == 1 {
      SplitWithoutDot(parts[0]);
    } else {
      SplitUndoesJoin(parts[1..]);
      SplitAtDot(parts[0], Join(parts[1..]));
      assert parts[0] + [DOT] + Join(parts[1..]) == parts[0] + ([DOT] + Join(parts[1..]));
    }
  }
}
