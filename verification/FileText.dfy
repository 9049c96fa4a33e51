/** Text written to a file whole or in chunks, after adapters/native/fileio.py. */
module FileText {
  import opened Texts

  // ----- newline normalisation

  /** `text.replace(old, new)`: every occurrence, left to right, none overlapping another. */
  function Replace(text: Text, pattern: Text, with_: Text): Text
    requires pattern != []
    decreases |text|
  {
    if |text| < |pattern| then text
    else if pattern <= text then with_ + Replace(text[|pattern|..], pattern, with_)
    else [text[0]] + Replace(text[1..], pattern, with_)
  }

  /** `_normalize_newlines`: three whole-text replacements. */
  function Normalized(text: Text, newline: Text): Text {
    var unified := Replace(Replace(text, [CR, LF], [LF]), [CR], [LF]);
    if newline == [LF] then unified else Replace(unified, [LF], newline)
  }

  /** The same in one pass: each CRLF, CR or LF becomes the newline. */
  function OnePass(text: Text, newline: Text): Text
    decreases |text|
  {
    if text == [] then []
    else if text[0] == CR then newline + OnePass(text[if |text| > 1 && text[1] == LF then 2 else 1..], newline)
    else if text[0] == LF then newline + OnePass(text[1..], newline)
    else [text[0]] + OnePass(text[1..], newline)
  }

  lemma ReplaceHead(c: CodePoint, rest: Text)
    ensures Replace([c] + rest, [CR], [LF]) == [if c == CR then LF else c] + Replace(rest, [CR], [LF])
  {
    var t := [c] + rest;
    assert t[1..] == rest && t[..1] == [c];
  }

  lemma {:induction false} UnifiedIsOnePass(text: Text)
    ensures Replace(Replace(text, [CR, LF], [LF]), [CR], [LF]) == OnePass(text, [LF])
    decreases |text|
  {
    if text != [] {
      var first := Replace(text, [CR, LF], [LF]);
      if [CR, LF] <= text {
        var rest := text[2..];
        UnifiedIsOnePass(rest);
        assert text[0] == CR && text[1] == LF;
        ReplaceHead(LF, Replace(rest, [CR, LF], [LF]));
      } else {
        var rest := text[1..];
        UnifiedIsOnePass(rest);
        assert first == [text[0]] + Replace(rest, [CR, LF], [LF]);
        assert |text| > 1 ==> text[..2] == [text[0], text[1]];
        ReplaceHead(text[0], Replace(rest, [CR, LF], [LF]));
      }
    }
  }

  lemma {:induction false} LastReplacement(text: Text, newline: Text)
    ensures Replace(OnePass(text, [LF]), [LF], newline) == OnePass(text, newline)
    decreases |text|
  {
    if text != [] {
      var n := if text[0] == CR && |text| > 1 && text[1] == LF then 2 else 1;
      var c := if text[0] == CR then LF else text[0];
      LastReplacement(text[n..], newline);
      var t, rest := OnePass(text, [LF]), OnePass(text[n..], [LF]);
      assert t == [c] + rest;
      assert t[1..] == rest && t[..1] == [c];
      assert Replace(t, [LF], newline) == (if c == LF then newline else [c]) + Replace(rest, [LF], newline);
      assert OnePass(text, newline) == (if c == LF then newline else [c]) + OnePass(text[n..], newline);
    }
  }

  /** The three replacements are the one pass. */
  lemma NormalizedIsOnePass(text: Text, newline: Text)
    ensures Normalized(text, newline) == OnePass(text, newline)
  {
    UnifiedIsOnePass(text);
    if newline != [LF] {
      var unified := OnePass(text, [LF]);
      LastReplacement(text, newline);
    }
  }

  // ----- cutting the text

  predicate EndsInCR(text: Text) {
    text != [] && text[|text| - 1] == CR
  }

  /** The characters the pass takes first: a CRLF or one. */
  function FirstLength(text: Text): (n: nat)
    requires text != []
    ensures 1 <= n <= |text|
  {
    if text[0] == CR && |text| > 1 && text[1] == LF then 2 else 1
  }

  /** What it makes of them. */
  function FirstPass(text: Text, newline: Text): Text
    requires text != []
  {
    if text[0] == CR || text[0] == LF then newline else [text[0]]
  }

  lemma OnePassStep(text: Text, newline: Text)
    requires text != []
    ensures OnePass(text, newline) == FirstPass(text, newline) + OnePass(text[FirstLength(text)..], newline)
  {
  }

  lemma SameFirst(a: Text, b: Text)
    requires a != [] && !(EndsInCR(a) && b != [] && b[0] == LF)
    ensures FirstLength(a + b) == FirstLength(a)
    ensures forall newline :: FirstPass(a + b, newline) == FirstPass(a, newline)
    ensures (a + b)[FirstLength(a)..] == a[FirstLength(a)..] + b
    ensures !(EndsInCR(a[FirstLength(a)..]) && b != [] && b[0] == LF)
  {
    var n := FirstLength(a);
    assert |a| > 1 ==> (a + b)[1] == a[1];
    assert |a| == 1 && b != [] ==> (a + b)[1] == b[0];
    assert n < |a| ==> a[n..][|a| - n - 1] == a[|a| - 1];
  }

  /** Normalising is done part by part wherever the cut does not split a CRLF. */
  lemma {:induction false} OnePassOfParts(a: Text, b: Text, newline: Text)
    requires !(EndsInCR(a) && b != [] && b[0] == LF)
    ensures OnePass(a + b, newline) == OnePass(a, newline) + OnePass(b, newline)
    decreases |a|
  {
    if a == [] {
      assert a + b == b;
    } else {
      var n := FirstLength(a);
      SameFirst(a, b);
      OnePassStep(a, newline);
      OnePassStep(a + b, newline);
      hide OnePass, FirstLength, FirstPass;
      OnePassOfParts(a[n..], b, newline);
      assert FirstPass(a, newline) + (OnePass(a[n..], newline) + OnePass(b, newline))
          == FirstPass(a, newline) + OnePass(a[n..], newline) + OnePass(b, newline);
    }
  }

  // ----- writing

  /** A codec: the bytes of a text, or nothing where a character cannot be encoded. */
  type Codec = Text -> Option<seq<Byte>>

  function Joined(a: Option<seq<Byte>>, b: Option<seq<Byte>>): Option<seq<Byte>> {
    if a.Some? && b.Some? then Some(a.value + b.value) else None
  }

  /** What a codec makes of a concatenation is the concatenation of what it makes of the parts; it fails
      exactly where it fails on a part. */
  ghost predicate EncodesByParts(codec: Codec) {
    && codec([]) == Some([])
    && forall a, b :: codec(a + b) == Joined(codec(a), codec(b))
  }

  /** A file being written. */
  class File {
    var bytes: seq<Byte>

    constructor ()
      ensures bytes == []
    {
      bytes := [];
    }

    method Write(more: seq<Byte>)
      modifies this
      ensures bytes == old(bytes) + more
    {
      bytes := bytes + more;
    }
  }

  /** `write_text`: nothing is written where the text cannot be encoded. */
  method WriteText(file: File, text: Text, codec: Codec, newline: Text, bom: seq<Byte>) returns (ok: bool)
    requires file.bytes == []
    modifies file
    ensures ok <==> codec(Normalized(text, newline)).Some?
    ensures file.bytes == if ok then bom + codec(Normalized(text, newline)).value else []
  {
    var data := codec(Normalized(text, newline));
    if data.None? {
      return false;
    }
    file.Write(bom + data.value);
    return true;
  }

  function Concatenated(chunks: seq<Text>): Text {
    if chunks == [] then [] else Concatenated(chunks[..|chunks| - 1]) + chunks[|chunks| - 1]
  }

  lemma {:induction false} ConcatenatedSplit(chunks: seq<Text>, i: nat)
    requires i <= |chunks|
    ensures exists rest :: Concatenated(chunks) == Concatenated(chunks[..i]) + rest
    decreases |chunks| - i
  {
    if i == |chunks| {
      assert chunks[..i] == chunks;
      assert Concatenated(chunks) == Concatenated(chunks[..i]) + [];
    } else {
      ConcatenatedSplit(chunks, i + 1);
      assert chunks[..i + 1][..i] == chunks[..i];
      var rest :| Concatenated(chunks) == Concatenated(chunks[..i + 1]) + rest;
      assert Concatenated(chunks) == Concatenated(chunks[..i]) + (chunks[i] + rest);
    }
  }

  /** Where the stream stands: `done` is encoded and written, one held-back CR at most still to come. */
  ghost predicate Streams(codec: Codec, newline: Text, bom: seq<Byte>, bytes: seq<Byte>, done: Text, pending: Text) {
    && (pending == [] || pending == [CR])
    && (pending == [] ==> !EndsInCR(done))
    && codec(OnePass(done, newline)).Some?
    && bytes == bom + codec(OnePass(done, newline)).value
  }

  /** Writing one more piece: the encoded whole is the encoded parts. */
  lemma PieceEncodes(codec: Codec, newline: Text, done: Text, piece: Text)
    requires EncodesByParts(codec)
    requires !(EndsInCR(done) && piece != [] && piece[0] == LF)
    ensures codec(OnePass(done + piece, newline)) ==
      Joined(codec(OnePass(done, newline)), codec(Normalized(piece, newline)))
  {
    OnePassOfParts(done, piece, newline);
    NormalizedIsOnePass(piece, newline);
  }

  /** A CRLF cut in two is one newline, all of it in the first part. */
  lemma SplitLineEnd(a: Text, b: Text, newline: Text)
    requires EndsInCR(a) && b != [] && b[0] == LF
    ensures OnePass(a + b, newline) == OnePass(a, newline) + OnePass(b[1..], newline)
  {
    var head := a[..|a| - 1];
    var tail := [CR] + b;
    assert a == head + [CR] && a + b == head + tail;
    OnePassOfParts(head, [CR], newline);
    OnePassOfParts(head, tail, newline);
    assert tail[2..] == b[1..];
    assert [CR][1..] == [] && newline + [] == newline;
    assert OnePass(head, newline) + (newline + OnePass(b[1..], newline))
        == (OnePass(head, newline) + newline) + OnePass(b[1..], newline);
  }

  /** What cannot be encoded in a part cannot be encoded in the whole. */
  lemma PartFails(codec: Codec, newline: Text, a: Text, b: Text)
    requires EncodesByParts(codec) && codec(OnePass(a, newline)).None?
    ensures codec(OnePass(a + b, newline)).None?
  {
    if EndsInCR(a) && b != [] && b[0] == LF {
      SplitLineEnd(a, b, newline);
      assert codec(OnePass(a, newline) + OnePass(b[1..], newline)).None?;
    } else {
      OnePassOfParts(a, b, newline);
    }
  }

  /** One chunk: all but a held-back CR is encoded and written, or it cannot be encoded. */
  lemma StreamStep(codec: Codec, newline: Text, bom: seq<Byte>, bytes: seq<Byte>, done: Text, pending: Text,
                   chunk: Text, complete: Text, pending': Text)
    requires EncodesByParts(codec) && Streams(codec, newline, bom, bytes, done, pending)
    requires complete + pending' == pending + chunk
    requires pending' == if EndsInCR(pending + chunk) then [CR] else []
    ensures var data := codec(Normalized(complete, newline));
      if data.Some? then Streams(codec, newline, bom, bytes + data.value, done + complete, pending')
      else codec(OnePass(done + complete, newline)).None?
  {
    hide EncodesByParts, Normalized, OnePass;
    var text := pending + chunk;
    assert complete == text[..|complete|];
    PieceEncodes(codec, newline, done, complete);
    var data := codec(Normalized(complete, newline));
    if data.Some? {
      assert (bom + codec(OnePass(done, newline)).value) + data.value
          == bom + (codec(OnePass(done, newline)).value + data.value);
      if pending' == [] {
        assert complete + [] == complete == text;
      }
    }
  }

  /** After the last chunk, what was held back is written. */
  lemma StreamEnd(codec: Codec, newline: Text, bom: seq<Byte>, bytes: seq<Byte>, done: Text, pending: Text)
    requires EncodesByParts(codec) && Streams(codec, newline, bom, bytes, done, pending)
    ensures var data := if pending == [] then Some([]) else codec(Normalized(pending, newline));
      var all := codec(OnePass(done + pending, newline));
      (data.Some? <==> all.Some?) && (data.Some? ==> bytes + data.value == bom + all.value)
  {
    hide EncodesByParts, Normalized, OnePass;
    if pending == [] {
      assert done + pending == done && bytes + [] == bytes;
    } else {
      PieceEncodes(codec, newline, done, pending);
      var data := codec(Normalized(pending, newline));
      if data.Some? {
        assert (bom + codec(OnePass(done, newline)).value) + data.value
            == bom + (codec(OnePass(done, newline)).value + data.value);
      }
    }
  }

  lemma StreamStart(codec: Codec, newline: Text, bom: seq<Byte>)
    requires EncodesByParts(codec)
    ensures Streams(codec, newline, bom, bom, [], [])
  {
    assert bom + [] == bom;
  }

  lemma ChunkConcatenates(chunks: seq<Text>, i: nat, done: Text, before: Text, complete: Text, pending: Text)
    requires i < |chunks| && Concatenated(chunks[..i]) == done + before
    requires complete + pending == before + chunks[i]
    ensures Concatenated(chunks[..i + 1]) == (done + complete) + pending
  {
    assert chunks[..i + 1][..i] == chunks[..i];
    assert (done + before) + chunks[i] == done + (before + chunks[i]);
    assert (done + complete) + pending == done + (complete + pending);
  }

  /** What is still to come after the first `i` chunks. */
  ghost function Remaining(chunks: seq<Text>, i: nat, soFar: Text): (rest: Text)
    requires i <= |chunks| && Concatenated(chunks[..i]) == soFar
    ensures Concatenated(chunks) == soFar + rest
  {
    ConcatenatedSplit(chunks, i);
    var rest :| Concatenated(chunks) == Concatenated(chunks[..i]) + rest;
    rest
  }

  /** `write_text_stream`: however the text is cut into chunks, the file ends with exactly the bytes
      `write_text` writes, and the stream fails exactly where `write_text` does, leaving a part of a
      file. Between chunks one character at most is held back. */
  method WriteTextStream(file: File, chunks: seq<Text>, codec: Codec, newline: Text, bom: seq<Byte>) returns (ok: bool)
    requires file.bytes == [] && EncodesByParts(codec)
    modifies file
    ensures ok <==> codec(Normalized(Concatenated(chunks), newline)).Some?
    ensures ok ==> file.bytes == bom + codec(Normalized(Concatenated(chunks), newline)).value
  {
    hide Streams, Normalized, OnePass, EncodesByParts, Joined;
    ghost var whole := Concatenated(chunks);
    NormalizedIsOnePass(whole, newline);
    file.Write(bom);
    var pending: Text := [];
    ghost var done: Text := [];
    StreamStart(codec, newline, bom);
    assert [] + bom == bom;
    for i := 0 to |chunks|
      invariant Concatenated(chunks[..i]) == done + pending
      invariant Streams(codec, newline, bom, file.bytes, done, pending)
    {
      var text := pending + chunks[i];
      ghost var before := pending;
      pending := if EndsInCR(text) then [CR] else [];
      var complete := text[..|text| - |pending|];
      assert complete + pending == text;
      ChunkConcatenates(chunks, i, done, before, complete, pending);
      StreamStep(codec, newline, bom, file.bytes, done, before, chunks[i], complete, pending);
      var data := codec(Normalized(complete, newline));
      done := done + complete;
      if data.None? {
        ghost var rest := Remaining(chunks, i + 1, done + pending);
        assert whole == done + (pending + rest);
        PartFails(codec, newline, done, pending + rest);
        return false;
      }
      file.Write(data.value);
    }
    assert chunks[..|chunks|] == chunks;
    StreamEnd(codec, newline, bom, file.bytes, done, pending);
    if pending != [] {
      var data := codec(Normalized(pending, newline));
      if data.None? {
        return false;
      }
      file.Write(data.value);
    } else {
      assert file.bytes + [] == file.bytes;
    }
    return true;
  }
}
