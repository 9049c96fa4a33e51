/** Text as Python holds it: a sequence of code points, lone surrogates included.
    Dafny's own `char` has no surrogates, so it cannot hold such text. */
module Texts {

  type CodePoint = c: int | 0 <= c <= 0x10FFFF

  type Text = seq<CodePoint>

  const NUL: CodePoint := 0
  const LF: CodePoint := 0x0A
  const CR: CodePoint := 0x0D
  const QUOTE: CodePoint := 0x22
  const HASH: CodePoint := 0x23
  const DOLLAR: CodePoint := 0x24
  const APOSTROPHE: CodePoint := 0x27
  const DOT: CodePoint := 0x2E
  const SLASH: CodePoint := 0x2F
  const EQUALS: CodePoint := 0x3D
  const BACKSLASH: CodePoint := 0x5C
  const TILDE: CodePoint := 0x7E
  const REPLACEMENT: CodePoint := 0xFFFD

  predicate IsSurrogate(c: CodePoint) {
    0xD800 <= c <= 0xDFFF
  }

  /** The text of a (surrogate-free) Dafny string literal. */
  function FromString(s: string): Text {
    seq(|s|, i requires 0 <= i < |s| => s[i] as int)
  }

  /** The characters above, as they are written. */
  lemma CharactersAsWritten()
    ensures FromString("\0\n\r\"#$\'./=\\~") ==
      [NUL, LF, CR, QUOTE, HASH, DOLLAR, APOSTROPHE, DOT, SLASH, EQUALS, BACKSLASH, TILDE]
  {
  }

  /** `str(n)` for a natural number. */
  function Decimal(n: nat): (t: Text)
    ensures |t| > 0
    ensures forall i :: 0 <= i < |t| ==> 0x30 <= t[i] <= 0x39
  {
    if n < 10 then [0x30 + n] else Decimal(n / 10) + [0x30 + n % 10]
  }

  /** The number decimal digits write, the highest digit first. */
  function NumberOf(digits: Text): int {
    if digits == [] then 0 else NumberOf(digits[..|digits| - 1]) * 10 + (digits[|digits| - 1] as int - 0x30)
  }

  /** Read back, the digits give the number; only zero starts with a zero. */
  lemma {:induction false} DecimalReadsBack(n: nat)
    ensures NumberOf(Decimal(n)) == n
    ensures Decimal(n)[0] == 0x30 <==> n == 0
  {
    var t := Decimal(n);
    if n >= 10 {
      DecimalReadsBack(n / 10);
      assert t[..|t| - 1] == Decimal(n / 10);
    } else {
      assert t[..0] == [];
    }
  }

  lemma DecimalInjective(m: nat, n: nat)
    requires Decimal(m) == Decimal(n)
    ensures m == n
  {
    DecimalReadsBack(m);
    DecimalReadsBack(n);
  }

  type Byte = b: nat | b < 256

  datatype Option<+T> = None | Some(value: T)

  ghost predicate Distinct<T(!new)>(s: seq<T>) {
    forall i, j :: 0 <= i < j < |s| ==> s[i] != s[j]
  }

  /** `str.isspace` of one character. */
  predicate IsSpace(c: CodePoint) {
    || 0x09 <= c <= 0x0D || 0x1C <= c <= 0x20 || c == 0x85 || c == 0xA0 || c == 0x1680
    || 0x2000 <= c <= 0x200A || c == 0x2028 || c == 0x2029 || c == 0x202F || c == 0x205F || c == 0x3000
  }

  function StripLeft(t: Text): Text {
    if t != [] && IsSpace(t[0]) then StripLeft(t[1..]) else t
  }

  function StripRight(t: Text): Text {
    if t != [] && IsSpace(t[|t| - 1]) then StripRight(t[..|t| - 1]) else t
  }

  /** `str.strip`. */
  function Strip(t: Text): Text {
    StripRight(StripLeft(t))
  }

  predicate AllSpaces(t: Text) {
    forall i :: 0 <= i < |t| ==> IsSpace(t[i])
  }

  predicate SpaceFirst(t: Text) {
    t != [] && IsSpace(t[0])
  }

  predicate SpaceLast(t: Text) {
    t != [] && IsSpace(t[|t| - 1])
  }

  lemma {:induction false} StripLeftParts(t: Text) returns (spaces: Text)
    ensures AllSpaces(spaces) && spaces + StripLeft(t) == t && !SpaceFirst(StripLeft(t))
  {
    if SpaceFirst(t) {
      var more := StripLeftParts(t[1..]);
      spaces := [t[0]] + more;
      assert spaces + StripLeft(t) == [t[0]] + t[1..];
    } else {
      spaces := [];
    }
  }

  lemma {:induction false} StripRightParts(t: Text) returns (spaces: Text)
    ensures AllSpaces(spaces) && StripRight(t) + spaces == t && !SpaceLast(StripRight(t))
    ensures SpaceFirst(StripRight(t)) ==> SpaceFirst(t)
  {
    if SpaceLast(t) {
      var init := t[..|t| - 1];
      var more := StripRightParts(init);
      spaces := more + [t[|t| - 1]];
      assert StripRight(t) + spaces == init + [t[|t| - 1]];
    } else {
      spaces := [];
    }
  }

  /** Stripping takes whitespace off both ends, all of it and nothing else. */
  lemma StripParts(t: Text)
    ensures exists before, after :: AllSpaces(before) && AllSpaces(after) && before + Strip(t) + after == t
    ensures !SpaceFirst(Strip(t)) && !SpaceLast(Strip(t))
  {
    var before := StripLeftParts(t);
    var after := StripRightParts(StripLeft(t));
    hide StripLeft, StripRight, AllSpaces, SpaceFirst, SpaceLast;
    assert before + Strip(t) + after == before + (Strip(t) + after);
  }
}
