/**
  JavaScript strings as sequences of UTF-16 code units, byte strings, and the few facts about
  joining and about "this text stands here in that one" that the codecs share.
 */
module Texts {
  type CodeUnit = c: int | 0 <= c < 0x1_0000
  type Text = seq<CodeUnit>

  type Byte = b: int | 0 <= b < 256
  type Bytes = seq<Byte>

  const LF: CodeUnit := 10
  const SPACE: CodeUnit := 32
  const QUOTE: CodeUnit := 34
  const COMMA: CodeUnit := 44
  const DASH: CodeUnit := 45
  const COLON: CodeUnit := 58
  const LBRACKET: CodeUnit := 91
  const BACKSLASH: CodeUnit := 92
  const RBRACKET: CodeUnit := 93
  const LBRACE: CodeUnit := 123
  const RBRACE: CodeUnit := 125

  /** `parts.join(sep)`. */
  function Join(parts: seq<Text>, sep: Text): Text {
    if |parts| == 0 then []
    else if |parts| == 1 then parts[0]
    else parts[0] + sep + Join(parts[1..], sep)
  }

  /** `text.charCodeAt(i)`, with -1 for the NaN of an index past the end. */
  function CharCode(text: Text, i: nat): int {
    if i < |text| then text[i] else -1
  }

  /** The text `part` stands in `text` at position `i`. */
  ghost predicate Here(text: Text, i: nat, part: Text) {
    i + |part| <= |text| && text[i..i + |part|] == part
  }

  lemma HereConcat(text: Text, i: nat, a: Text, b: Text)
    ensures Here(text, i, a + b) <==> Here(text, i, a) && Here(text, i + |a|, b)
  {
    if Here(text, i, a + b) {
      assert text[i..i + |a|] == text[i..i + |a + b|][..|a|] == (a + b)[..|a|] == a;
      assert text[i + |a|..i + |a| + |b|] == text[i..i + |a + b|][|a|..] == (a + b)[|a|..] == b;
    }
    if Here(text, i, a) && Here(text, i + |a|, b) {
      assert text[i..i + |a + b|] == text[i..i + |a|] + text[i + |a|..i + |a| + |b|];
    }
  }

  lemma HereAt(text: Text, i: nat, part: Text, k: nat)
    requires Here(text, i, part) && k < |part|
    ensures i + k < |text| && text[i + k] == part[k]
  {
    assert text[i + k] == text[i..i + |part|][k];
  }

  /** Appending one part to a join. */
  lemma JoinSnoc(parts: seq<Text>, part: Text, sep: Text)
    requires parts != []
    ensures Join(parts + [part], sep) == Join(parts, sep) + sep + part
  {
    var all := parts + [part];
    if |parts| == 1 {
      assert all[1..] == [part];
    } else {
      JoinSnoc(parts[1..], part, sep);
      assert all[1..] == parts[1..] + [part];
      assert parts[0] + sep + (Join(parts[1..], sep) + sep + part)
          == (parts[0] + sep + Join(parts[1..], sep)) + sep + part;
    }
  }
}
