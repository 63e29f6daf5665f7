/**
  What a JSON text denotes, by the grammar of section 15.12.1 of ECMA-262 edition 5.1: white
  space, string characters with their escapes, numbers, literals, arrays and objects, as
  relations on the positions of a source text.
 */
module JsonGrammar {
  import opened Texts
  import opened Json

  /** The units of the text are those of the word. */
  predicate Is(t: Text, word: string) {
    |t| == |word| && forall k :: 0 <= k < |t| ==> t[k] == word[k] as int
  }

  // ---------- lexical grammar ----------

  predicate WhiteUnit(c: int) { c == 9 || c == 10 || c == 13 || c == 32 }

  ghost predicate White(src: Text, i: nat, j: nat) {
    i <= j <= |src| && forall k :: i <= k < j ==> WhiteUnit(src[k])
  }

  /** The letter of a two-character escape, and the unit it stands for. */
  const ESCAPES: seq<(int, int)> := [(34, 34), (47, 47), (92, 92), (98, 8), (102, 12), (110, 10), (114, 13), (116, 9)]

  const LOWER_HEX := "0123456789abcdef"
  const UPPER_HEX := "0123456789ABCDEF"

  predicate HexDigitIs(c: int, d: int) {
    0 <= d < 16 && (c == LOWER_HEX[d] as int || c == UPPER_HEX[d] as int)
  }

  ghost predicate PlainChar(src: Text, i: nat, c: int) {
    i < |src| && src[i] == c && c >= 32 && c != 34 && c != 92
  }

  ghost predicate EscapedChar(src: Text, i: nat, c: int) {
    i + 2 <= |src| && src[i] == 92 && exists e :: 0 <= e < |ESCAPES| && ESCAPES[e] == (src[i + 1] as int, c)
  }

  /** Four hexadecimal digits, in either case, and their value. */
  ghost predicate FourHexAre(h: Text, c: int) {
    |h| == 4 && exists p, q, r, s ::
      HexDigitIs(h[0], p) && HexDigitIs(h[1], q) && HexDigitIs(h[2], r) && HexDigitIs(h[3], s)
      && c == ((p * 16 + q) * 16 + r) * 16 + s
  }

  ghost predicate HexChar(src: Text, i: nat, c: int) {
    i + 6 <= |src| && src[i] == 92 && src[i + 1] == 117 && FourHexAre(src[i + 2..i + 6], c)
  }

  /** The units from `i` up to `j` are one string character, for the unit `c`. */
  ghost predicate CharAt(src: Text, i: nat, j: nat, c: int) {
    || (j == i + 1 && PlainChar(src, i, c))
    || (j == i + 2 && EscapedChar(src, i, c))
    || (j == i + 6 && HexChar(src, i, c))
  }

  ghost predicate CharsAt(src: Text, i: nat, j: nat, s: Text)
    decreases |s|
  {
    if s == [] then i == j
    else exists k :: i < k <= j && CharAt(src, i, k, s[0]) && CharsAt(src, k, j, s[1..])
  }

  ghost predicate StringAt(src: Text, i: nat, j: nat, s: Text) {
    i + 2 <= j <= |src| && src[i] == 34 && src[j - 1] == 34 && CharsAt(src, i + 1, j - 1, s)
  }

  predicate DigitUnit(c: int) { 48 <= c <= 57 }

  ghost predicate DigitsAt(src: Text, i: nat, j: nat) {
    i < j <= |src| && forall k :: i <= k < j ==> DigitUnit(src[k])
  }

  ghost predicate SignAt(src: Text, i: nat, j: nat) {
    j == i || (j == i + 1 && j <= |src| && src[i] == 45)
  }

  ghost predicate IntegerAt(src: Text, i: nat, j: nat) {
    DigitsAt(src, i, j) && (src[i] == 48 ==> j == i + 1)
  }

  ghost predicate FractionAt(src: Text, i: nat, j: nat) {
    i == j || (i < |src| && src[i] == 46 && DigitsAt(src, i + 1, j))
  }

  ghost predicate ExponentAt(src: Text, i: nat, j: nat) {
    || i == j
    || (&& i < |src| && (src[i] == 101 || src[i] == 69)
        && (DigitsAt(src, i + 1, j)
            || (i + 1 < |src| && (src[i + 1] == 43 || src[i + 1] == 45) && DigitsAt(src, i + 2, j))))
  }

  function Power10(n: nat): int {
    if n == 0 then 1 else 10 * Power10(n - 1)
  }

  /** The integer that decimal digits denote, by their places. */
  function PlaceValue(digits: Text): int {
    if digits == [] then 0 else (digits[0] - 48) * Power10(|digits| - 1) + PlaceValue(digits[1..])
  }

  /** A number; without a fraction and an exponent it is that integer, else it is kept as it is written. */
  ghost predicate NumberAt(src: Text, i: nat, j: nat, v: Value) {
    i <= j <= |src| && exists a, b, c :: NumberParts(src, i, a, b, c, j, v)
  }

  ghost predicate NumberParts(src: Text, i: nat, a: nat, b: nat, c: nat, j: nat, v: Value) {
    && i <= a <= b <= c <= j <= |src|
    && SignAt(src, i, a) && IntegerAt(src, a, b) && FractionAt(src, b, c) && ExponentAt(src, c, j)
    && v == if b < j then Float(src[i..j])
            else if a == i then Num(PlaceValue(src[a..b]))
            else Num(-PlaceValue(src[a..b]))
  }

  ghost predicate WordAt(src: Text, i: nat, j: nat, word: string) {
    i <= j <= |src| && Is(src[i..j], word)
  }

  // ---------- syntactic grammar ----------

  /** The keys of the members but `__proto__`, in the order in which they come first. */
  function KeysOf(ms: seq<Member>): seq<Text> {
    if ms == [] then []
    else
      var before, key := KeysOf(ms[..|ms| - 1]), ms[|ms| - 1].key;
      if Is(key, "__proto__") || key in before then before else before + [key]
  }

  /** The value of the last member with this key. */
  function LastValue(ms: seq<Member>, key: Text): Value {
    if ms == [] then Null
    else if ms[|ms| - 1].key == key then ms[|ms| - 1].value
    else LastValue(ms[..|ms| - 1], key)
  }

  /** The object that members stand for: every key but `__proto__` has its last value. */
  function ObjectOf(ms: seq<Member>): seq<Member> {
    seq(|KeysOf(ms)|, k requires 0 <= k < |KeysOf(ms)| => Member(KeysOf(ms)[k], LastValue(ms, KeysOf(ms)[k])))
  }

  /** The units from `i` up to `j` are a value, without white space around it. */
  ghost predicate ValueAt(src: Text, i: nat, j: nat, v: Value)
    decreases j - i, 0
  {
    match v
    case Null => WordAt(src, i, j, "null")
    case Bool(b) => WordAt(src, i, j, if b then "true" else "false")
    case Num(_) => NumberAt(src, i, j, v)
    case Float(_) => NumberAt(src, i, j, v)
    case Str(s) => StringAt(src, i, j, s)
    case Arr(items) =>
      && i + 2 <= j <= |src| && src[i] == 91 && src[j - 1] == 93
      && if items == [] then White(src, i + 1, j - 1) else ItemsAt(src, i + 1, j - 1, items)
    case Obj(members) =>
      && i + 2 <= j <= |src| && src[i] == 123 && src[j - 1] == 125
      && exists ms :: members == ObjectOf(ms)
           && if ms == [] then White(src, i + 1, j - 1) else MembersAt(src, i + 1, j - 1, ms)
  }

  /** A value with white space around it. */
  ghost predicate PaddedAt(src: Text, i: nat, j: nat, v: Value)
    decreases j - i, 1
  {
    exists a, b :: i <= a <= b <= j && White(src, i, a) && White(src, b, j) && ValueAt(src, a, b, v)
  }

  /** Values with commas between them. */
  ghost predicate ItemsAt(src: Text, i: nat, j: nat, items: seq<Value>)
    requires items != []
    decreases j - i, 2
  {
    if |items| == 1 then PaddedAt(src, i, j, items[0])
    else exists k :: i <= k < j <= |src| && src[k] == 44
                  && PaddedAt(src, i, k, items[0]) && ItemsAt(src, k + 1, j, items[1..])
  }

  /** A string, a colon and a value. */
  ghost predicate MemberAt(src: Text, i: nat, j: nat, m: Member)
    decreases j - i, 2
  {
    exists a, b, c :: i <= a <= b <= c < j <= |src| && src[c] == 58 && White(src, i, a) && StringAt(src, a, b, m.key)
                   && White(src, b, c) && PaddedAt(src, c + 1, j, m.value)
  }

  /** Members with commas between them. */
  ghost predicate MembersAt(src: Text, i: nat, j: nat, ms: seq<Member>)
    requires ms != []
    decreases j - i, 3
  {
    if |ms| == 1 then MemberAt(src, i, j, ms[0])
    else exists k :: i <= k < j <= |src| && src[k] == 44
                  && MemberAt(src, i, k, ms[0]) && MembersAt(src, k + 1, j, ms[1..])
  }

  /** The source text is JSON text for the value. */
  ghost predicate Denotes(src: Text, v: Value) {
    PaddedAt(src, 0, |src|, v)
  }
}
