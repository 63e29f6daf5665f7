/**
  The base64 encodings of RFC 4648, by its own words: groups of 24 bits written as four characters
  of a table, and the standard encoding that the registries use for passwords.
 */
module Base64 {
  import opened Wrappers
  import opened Texts
  import TokenCodec

  const UPPER := "ABCDEFGHIJKLMNOPQRSTUVWXYZ"
  const LOWER := "abcdefghijklmnopqrstuvwxyz"
  const DIGITS := "0123456789"
  const STANDARD := UPPER + LOWER + DIGITS + "+/"
  const URL_SAFE := UPPER + LOWER + DIGITS + "-_"

  /** The character for the number `q` in the table. */
  ghost predicate Writes(table: string, q: int, c: Byte) {
    0 <= q < |table| && c == (table[q] as int)
  }

  /** The number with these digits. */
  function Number(digits: seq<int>, base: int): int {
    if digits == [] then 0 else Number(digits[..|digits| - 1], base) * base + digits[|digits| - 1]
  }

  /** The characters of `t` are digits of the number to the base 64. */
  ghost predicate Spells(table: string, n: int, t: Bytes) {
    exists digits: seq<int> ::
      |digits| == |t| && (forall k :: 0 <= k < |t| ==> Writes(table, digits[k], t[k])) && Number(digits, 64) == n
  }

  /** `t` encodes `b` (section 4 of RFC 4648): 24, 8 and 16 bits as four, two and three characters, and `=`. */
  ghost predicate Encodes(table: string, padded: bool, b: Bytes, t: Bytes)
    decreases |b|
  {
    if |b| == 0 then t == []
    else if |b| == 1 then
      |t| >= 2 && Spells(table, 16 * Number(b, 256), t[..2]) && t[2..] == if padded then [61, 61] else []
    else if |b| == 2 then
      |t| >= 3 && Spells(table, 4 * Number(b, 256), t[..3]) && t[3..] == if padded then [61] else []
    else
      |t| >= 4 && Spells(table, Number(b[..3], 256), t[..4]) && Encodes(table, padded, b[3..], t[4..])
  }

  // ---------- the standard encoding ----------

  /** The two encodings differ in two characters. */
  function ToStandard(c: Byte): Byte {
    if c == 45 then 43 else if c == 95 then 47 else c
  }

  function FromStandard(c: Byte): Byte {
    if c == 43 then 45 else if c == 47 then 95 else c
  }

  function Mapped(f: Byte -> Byte, t: Bytes): (r: Bytes)
    ensures |r| == |t| && forall k :: 0 <= k < |t| ==> r[k] == f(t[k])
  {
    if t == [] then [] else [f(t[0])] + Mapped(f, t[1..])
  }

  /** `base64.StdEncoding.EncodeToString`. */
  function StdEncode(b: Bytes): Bytes {
    Mapped(ToStandard, TokenCodec.Encode(b))
  }

  /** `base64.StdEncoding.DecodeString`, which knows neither `-` nor `_`. */
  function StdDecode(t: Bytes): Option<Bytes> {
    if exists k :: 0 <= k < |t| && (t[k] == 45 || t[k] == 95) then None
    else TokenCodec.Decode(Mapped(FromStandard, t))
  }

  // ---------- what the encodings write ----------

  lemma UpperIs(n: nat)
    requires n < 26
    ensures UPPER[n] as int == 65 + n
  {
  }

  lemma LowerIs(n: nat)
    requires n < 26
    ensures LOWER[n] as int == 97 + n
  {
  }

  lemma DigitIs(n: nat)
    requires n < 10
    ensures DIGITS[n] as int == 48 + n
  {
  }

  lemma TableIs(n: nat)
    requires n < 62
    ensures STANDARD[n] as int == URL_SAFE[n] as int == if n < 26 then 65 + n else if n < 52 then 71 + n else n - 4
  {
    if n < 26 { UpperIs(n); } else if n < 52 { LowerIs(n - 26); } else { DigitIs(n - 52); }
    hide UPPER, LOWER, DIGITS;
  }

  lemma CharOfTable(v: TokenCodec.Sextet)
    ensures Writes(URL_SAFE, v, TokenCodec.Char(v)) && Writes(STANDARD, v, ToStandard(TokenCodec.Char(v)))
  {
    var n: int := v;
    if n < 62 { TableIs(n); }
  }

  lemma NumberOf(d: seq<int>, base: int)
    ensures |d| == 1 ==> Number(d, base) == d[0]
    ensures |d| == 2 ==> Number(d, base) == d[0] * base + d[1]
    ensures |d| == 3 ==> Number(d, base) == (d[0] * base + d[1]) * base + d[2]
    ensures |d| == 4 ==> Number(d, base) == ((d[0] * base + d[1]) * base + d[2]) * base + d[3]
  {
    if 0 < |d| <= 4 {
      var c := d[..|d| - 1];
      NumberOf(c, base);
      assert |d| == 1 ==> c == [];
    }
  }

  /** Characters of the encodings are digits in their tables. */
  lemma SpelledBy(digits: seq<TokenCodec.Sextet>, t: Bytes, n: int)
    requires |t| == |digits| && forall k :: 0 <= k < |t| ==> t[k] == TokenCodec.Char(digits[k])
    requires Number(digits, 64) == n
    ensures Spells(URL_SAFE, n, t) && Spells(STANDARD, n, Mapped(ToStandard, t))
  {
    forall k | 0 <= k < |t| ensures Writes(URL_SAFE, digits[k], t[k]) && Writes(STANDARD, digits[k], ToStandard(t[k])) {
      CharOfTable(digits[k]);
    }
    hide Writes, TokenCodec.Char, Number, Spells, ToStandard;
    var d: seq<int> := digits;
    HaveDigits(URL_SAFE, d, t);
    HaveDigits(STANDARD, d, Mapped(ToStandard, t));
  }

  lemma HaveDigits(table: string, digits: seq<int>, t: Bytes)
    requires |digits| == |t| && forall k :: 0 <= k < |t| ==> Writes(table, digits[k], t[k])
    ensures Spells(table, Number(digits, 64), t)
  {
    hide Writes, Number;
  }

  lemma OneByte(x: Byte)
    ensures var t := [TokenCodec.Char(TokenCodec.S0(x)), TokenCodec.Char(TokenCodec.S1(x, 0))];
      Spells(URL_SAFE, 16 * Number([x], 256), t) && Spells(STANDARD, 16 * Number([x], 256), Mapped(ToStandard, t))
  {
    var d := [TokenCodec.S0(x), TokenCodec.S1(x, 0)];
    NumberOf(d, 64);
    NumberOf([x], 256);
    SpelledBy(d, [TokenCodec.Char(d[0]), TokenCodec.Char(d[1])], 16 * x as int);
  }

  lemma TwoBytes(x: Byte, y: Byte)
    ensures var t := [TokenCodec.Char(TokenCodec.S0(x)), TokenCodec.Char(TokenCodec.S1(x, y)),
                      TokenCodec.Char(TokenCodec.S2(y, 0))];
      Spells(URL_SAFE, 4 * Number([x, y], 256), t) && Spells(STANDARD, 4 * Number([x, y], 256), Mapped(ToStandard, t))
  {
    var d := [TokenCodec.S0(x), TokenCodec.S1(x, y), TokenCodec.S2(y, 0)];
    NumberOf(d, 64);
    NumberOf([x, y], 256);
    SpelledBy(d, [TokenCodec.Char(d[0]), TokenCodec.Char(d[1]), TokenCodec.Char(d[2])], 4 * (x as int * 256 + y));
  }

  lemma ThreeBytes(x: Byte, y: Byte, z: Byte)
    ensures var t := TokenCodec.Quad(x, y, z);
      Spells(URL_SAFE, Number([x, y, z], 256), t) && Spells(STANDARD, Number([x, y, z], 256), Mapped(ToStandard, t))
  {
    var d := [TokenCodec.S0(x), TokenCodec.S1(x, y), TokenCodec.S2(y, z), TokenCodec.S3(z)];
    NumberOf(d, 64);
    NumberOf([x, y, z], 256);
    SpelledBy(d, TokenCodec.Quad(x, y, z), (x as int * 256 + y) * 256 + z);
  }

  lemma Split(s: Bytes, t: Bytes)
    ensures (s + t)[..|s|] == s && (s + t)[|s|..] == t
    ensures Mapped(ToStandard, s + t) == Mapped(ToStandard, s) + Mapped(ToStandard, t)
  {
  }

  lemma PaddingStays()
    ensures Mapped(ToStandard, [61]) == [61] && Mapped(ToStandard, [61, 61]) == [61, 61]
  {
  }

  /** The last group, and what follows it. */
  lemma LastEncodes(b: Bytes, t: Bytes, padding: Bytes)
    requires (|b| == 1 && |t| == 2 && padding == [61, 61]) || (|b| == 2 && |t| == 3 && padding == [61])
    requires var n := if |b| == 1 then 16 * Number(b, 256) else 4 * Number(b, 256);
      Spells(URL_SAFE, n, t) && Spells(STANDARD, n, Mapped(ToStandard, t))
    ensures Encodes(URL_SAFE, true, b, t + padding) && Encodes(URL_SAFE, false, b, t)
    ensures Encodes(STANDARD, true, b, Mapped(ToStandard, t + padding))
  {
    hide Number, Spells;
    PaddingStays();
    Split(t, padding);
    Split(t, []);
    Split(Mapped(ToStandard, t), padding);
    assert t + [] == t;
  }

  lemma GroupEncodes(table: string, padded: bool, b: Bytes, g: Bytes, t: Bytes)
    requires |b| >= 3 && |g| == 4 && Spells(table, Number(b[..3], 256), g) && Encodes(table, padded, b[3..], t)
    ensures Encodes(table, padded, b, g + t)
  {
    hide Number, Spells;
    Split(g, t);
  }

  /** The URL encoding with and without padding, and the standard encoding, are those of RFC 4648. */
  lemma {:induction false} EncodesAsRfc4648(b: Bytes)
    ensures Encodes(URL_SAFE, true, b, TokenCodec.Encode(b))
    ensures Encodes(URL_SAFE, false, b, TokenCodec.Unpadded(b))
    ensures Encodes(STANDARD, true, b, StdEncode(b))
    decreases |b|
  {
    hide Number, Spells, Encodes, Mapped, TokenCodec.Char, TokenCodec.Quad;
    hide TokenCodec.S0, TokenCodec.S1, TokenCodec.S2, TokenCodec.S3;
    TokenCodec.EncodeIsPadded(b);
    if |b| == 0 {
      NoBytes();
    } else if |b| == 1 {
      OneByte(b[0]);
      assert b == [b[0]];
      LastEncodes(b, TokenCodec.Unpadded(b), [61, 61]);
    } else if |b| == 2 {
      TwoBytes(b[0], b[1]);
      assert b == [b[0], b[1]];
      LastEncodes(b, TokenCodec.Unpadded(b), [61]);
    } else {
      ThreeBytes(b[0], b[1], b[2]);
      assert b[..3] == [b[0], b[1], b[2]];
      EncodesAsRfc4648(b[3..]);
      var g := TokenCodec.Quad(b[0], b[1], b[2]);
      QuadLength(b[0], b[1], b[2]);
      Split(g, TokenCodec.Encode(b[3..]));
      GroupEncodes(URL_SAFE, true, b, g, TokenCodec.Encode(b[3..]));
      GroupEncodes(URL_SAFE, false, b, g, TokenCodec.Unpadded(b[3..]));
      GroupEncodes(STANDARD, true, b, Mapped(ToStandard, g), StdEncode(b[3..]));
    }
  }

  /** The parts of a token are unpadded URL encodings. */
  lemma PartEncodesAsRfc4648(b: Bytes)
    ensures Encodes(URL_SAFE, false, b, TokenCodec.JoseEncode(b))
  {
    TokenCodec.EncodingIs(b);
    EncodesAsRfc4648(b);
  }

  lemma QuadLength(x: Byte, y: Byte, z: Byte)
    ensures |TokenCodec.Quad(x, y, z)| == 4
  {
  }

  lemma NoBytes()
    ensures forall table, padded :: Encodes(table, padded, [], [])
    ensures Mapped(ToStandard, []) == []
  {
  }

  // ---------- there and back ----------

  lemma {:induction false} EncodeAlphabet(b: Bytes, k: nat)
    requires k < |TokenCodec.Encode(b)|
    ensures TokenCodec.Encode(b)[k] !in {43, 47}
    decreases |b|
  {
    if |b| >= 3 && k >= 4 { EncodeAlphabet(b[3..], k - 4); }
  }

  /** The standard text of any bytes decodes to them. */
  lemma StdRoundTrip(b: Bytes)
    ensures StdDecode(StdEncode(b)) == Some(b)
  {
    var t := TokenCodec.Encode(b);
    forall k | 0 <= k < |t| ensures FromStandard(ToStandard(t[k])) == t[k] && ToStandard(t[k]) !in {45, 95} {
      EncodeAlphabet(b, k);
    }
    assert Mapped(FromStandard, StdEncode(b)) == t;
    TokenCodec.EncodeIsPadded(b);
    TokenCodec.UnpaddedIsClean(b);
    TokenCodec.CleanHasNoLineBreaks(TokenCodec.Unpadded(b), |b|);
    TokenCodec.DecodeOfEncode(b);
  }

  // ---------- decoding any text ----------

  /**
    The text is a base64 text of the bytes as the library reads it: groups of four characters, the last one padded
    to hold one or two bytes, whatever its unused bits are.
   */
  ghost predicate Holds(t: Bytes, b: Bytes)
    decreases |t|
  {
    if t == [] then b == []
    else
      && |t| >= 4
      && ((|t| == 4 && |b| == 1 && t[2..] == [61, 61]
           && exists n :: Spells(URL_SAFE, n, t[..2]) && n / 16 == b[0] as int)
          || (|t| == 4 && |b| == 2 && t[3..] == [61]
              && exists n :: Spells(URL_SAFE, n, t[..3]) && n / 4 == b[0] as int * 256 + b[1] as int)
          || (|b| >= 3 && Spells(URL_SAFE, Number(b[..3], 256), t[..4]) && Holds(t[4..], b[3..])))
  }

  /** The library's value of a character is its place in the table. */
  lemma ValueIsPlace(c: Byte, q: int)
    ensures Writes(URL_SAFE, q, c) <==> TokenCodec.ValueOf(c).Some? && TokenCodec.ValueOf(c).value as int == q
  {
    if TokenCodec.ValueOf(c).Some? {
      TokenCodec.AlphabetInverse(0, c);
      CharOfTable(TokenCodec.ValueOf(c).value);
    }
    if Writes(URL_SAFE, q, c) {
      TableSize();
      CharOfTable(q);
      TokenCodec.AlphabetInverse(q, c);
    }
  }

  lemma TableSize()
    ensures |URL_SAFE| == 64
  {
  }

  function ValueAt(c: Byte): int {
    if TokenCodec.ValueOf(c).Some? then TokenCodec.ValueOf(c).value else 0
  }

  function Values(t: Bytes): (r: seq<int>)
    ensures |r| == |t| && forall k :: 0 <= k < |t| ==> r[k] == ValueAt(t[k])
  {
    if t == [] then [] else [ValueAt(t[0])] + Values(t[1..])
  }

  /** Characters spell the number of their values, and nothing else. */
  lemma SpellsValues(t: Bytes, n: int)
    ensures Spells(URL_SAFE, n, t) <==> TokenCodec.Clean(t) && n == Number(Values(t), 64)
  {
    forall k, q | 0 <= k < |t|
      ensures Writes(URL_SAFE, q, t[k]) <==> TokenCodec.InAlphabet(t[k]) && Values(t)[k] == q
    {
      ValueIsPlace(t[k], q);
    }
    hide Writes, TokenCodec.ValueOf, TokenCodec.InAlphabet, Number, Values, ValueAt;
    if Spells(URL_SAFE, n, t) {
      var digits: seq<int> :|
        |digits| == |t| && (forall k :: 0 <= k < |t| ==> Writes(URL_SAFE, digits[k], t[k])) && Number(digits, 64) == n;
      assert digits == Values(t);
    }
  }

  lemma PadIsNoCharacter()
    ensures !TokenCodec.InAlphabet(61)
  {
  }

  lemma OneOf(p: TokenCodec.Sextet, q: TokenCodec.Sextet)
    ensures (p as int * 64 + q) / 16 == TokenCodec.One(p, q) as int
  {
  }

  lemma TwoOf(p: TokenCodec.Sextet, q: TokenCodec.Sextet, r: TokenCodec.Sextet)
    ensures ((p as int * 64 + q) * 64 + r) / 4 == TokenCodec.One(p, q) as int * 256 + TokenCodec.Two(q, r)
  {
  }

  lemma ThreeOf(p: TokenCodec.Sextet, q: TokenCodec.Sextet, r: TokenCodec.Sextet, u: TokenCodec.Sextet)
    ensures ((p as int * 64 + q) * 64 + r) * 64 + u
         == (TokenCodec.One(p, q) as int * 256 + TokenCodec.Two(q, r)) * 256 + TokenCodec.Three(r, u)
  {
  }

  lemma SameBytes(a: Byte, b: Byte, c: Byte, d: Byte, e: Byte, f: Byte)
    ensures a as int * 256 + b == c as int * 256 + d <==> a == c && b == d
    ensures (a as int * 256 + b) * 256 + e == (c as int * 256 + d) * 256 + f <==> a == c && b == d && e == f
  {
  }

  /** The numbers that the first characters of a group spell. */
  lemma GroupNumbers(t: Bytes)
    requires |t| >= 4
    ensures forall n :: Spells(URL_SAFE, n, t[..2]) <==>
      TokenCodec.InAlphabet(t[0]) && TokenCodec.InAlphabet(t[1]) && n == ValueAt(t[0]) * 64 + ValueAt(t[1])
    ensures forall n :: Spells(URL_SAFE, n, t[..3]) <==>
      && TokenCodec.InAlphabet(t[0]) && TokenCodec.InAlphabet(t[1]) && TokenCodec.InAlphabet(t[2])
      && n == (ValueAt(t[0]) * 64 + ValueAt(t[1])) * 64 + ValueAt(t[2])
    ensures forall n :: Spells(URL_SAFE, n, t[..4]) <==>
      && TokenCodec.InAlphabet(t[0]) && TokenCodec.InAlphabet(t[1]) && TokenCodec.InAlphabet(t[2])
      && TokenCodec.InAlphabet(t[3])
      && n == ((ValueAt(t[0]) * 64 + ValueAt(t[1])) * 64 + ValueAt(t[2])) * 64 + ValueAt(t[3])
  {
    forall n ensures Spells(URL_SAFE, n, t[..2]) <==> TokenCodec.Clean(t[..2]) && n == Number(Values(t[..2]), 64) {
      SpellsValues(t[..2], n);
    }
    forall n ensures Spells(URL_SAFE, n, t[..3]) <==> TokenCodec.Clean(t[..3]) && n == Number(Values(t[..3]), 64) {
      SpellsValues(t[..3], n);
    }
    forall n ensures Spells(URL_SAFE, n, t[..4]) <==> TokenCodec.Clean(t[..4]) && n == Number(Values(t[..4]), 64) {
      SpellsValues(t[..4], n);
    }
    hide Spells, Number, ValueAt, TokenCodec.InAlphabet;
    NumberOf(Values(t[..2]), 64);
    NumberOf(Values(t[..3]), 64);
    NumberOf(Values(t[..4]), 64);
    assert t[..2] == [t[0], t[1]] && t[..3] == [t[0], t[1], t[2]] && t[..4] == [t[0], t[1], t[2], t[3]];
    CleanOf(t[..2]);
    CleanOf(t[..3]);
    CleanOf(t[..4]);
  }

  lemma CleanOf(t: Bytes)
    ensures TokenCodec.Clean(t) <==> forall k :: 0 <= k < |t| ==> TokenCodec.InAlphabet(t[k])
  {
  }

  /** What the library makes of a last group. */
  lemma LastDecodes(t: Bytes)
    requires |t| == 4 && t[3] == 61
    ensures TokenCodec.DecodeGroups(t) ==
      if !TokenCodec.InAlphabet(t[0]) || !TokenCodec.InAlphabet(t[1]) then None
      else if t[2] == 61 then Some([TokenCodec.One(TokenCodec.ValueOf(t[0]).value, TokenCodec.ValueOf(t[1]).value)])
      else if !TokenCodec.InAlphabet(t[2]) then None
      else Some([TokenCodec.One(TokenCodec.ValueOf(t[0]).value, TokenCodec.ValueOf(t[1]).value),
                 TokenCodec.Two(TokenCodec.ValueOf(t[1]).value, TokenCodec.ValueOf(t[2]).value)])
  {
    hide TokenCodec.ValueOf, TokenCodec.One, TokenCodec.Two;
  }

  /** What a last group holds, from its characters. */
  lemma LastHolds(t: Bytes, b: Bytes)
    requires |t| == 4 && t[3] == 61
    ensures Holds(t, b) <==>
      if t[2] == 61 then |b| == 1 && exists n :: Spells(URL_SAFE, n, t[..2]) && n / 16 == b[0] as int
      else |b| == 2 && exists n :: Spells(URL_SAFE, n, t[..3]) && n / 4 == b[0] as int * 256 + b[1] as int
  {
    PadIsNoCharacter();
    GroupNumbers(t);
    assert t[2..] == [t[2], 61] && t[3..] == [61];
    hide Spells, Number, TokenCodec.InAlphabet, ValueAt;
  }

  /** The last group of one byte. */
  lemma OneHolds(t: Bytes, b: Bytes)
    requires |t| == 4 && t[2] == 61 && t[3] == 61
    ensures TokenCodec.DecodeGroups(t) == Some(b) <==> Holds(t, b)
  {
    hide Spells, Holds, TokenCodec.DecodeGroups, TokenCodec.One, TokenCodec.ValueOf;
    GroupNumbers(t);
    LastDecodes(t);
    LastHolds(t, b);
    if TokenCodec.InAlphabet(t[0]) && TokenCodec.InAlphabet(t[1]) {
      OneOf(TokenCodec.ValueOf(t[0]).value, TokenCodec.ValueOf(t[1]).value);
      assert Spells(URL_SAFE, ValueAt(t[0]) * 64 + ValueAt(t[1]), t[..2]);
      assert |b| == 1 ==> b == [b[0]];
    }
  }

  /** The last group of two bytes. */
  lemma TwoHold(t: Bytes, b: Bytes)
    requires |t| == 4 && t[2] != 61 && t[3] == 61
    ensures TokenCodec.DecodeGroups(t) == Some(b) <==> Holds(t, b)
  {
    hide Spells, Holds, TokenCodec.DecodeGroups, TokenCodec.One, TokenCodec.Two, TokenCodec.ValueOf;
    GroupNumbers(t);
    LastDecodes(t);
    LastHolds(t, b);
    if TokenCodec.InAlphabet(t[0]) && TokenCodec.InAlphabet(t[1]) && TokenCodec.InAlphabet(t[2]) {
      var p, q, r := TokenCodec.ValueOf(t[0]).value, TokenCodec.ValueOf(t[1]).value, TokenCodec.ValueOf(t[2]).value;
      TwoOf(p, q, r);
      assert Spells(URL_SAFE, (ValueAt(t[0]) * 64 + ValueAt(t[1])) * 64 + ValueAt(t[2]), t[..3]);
      if |b| == 2 {
        SameBytes(TokenCodec.One(p, q), TokenCodec.Two(q, r), b[0], b[1], 0, 0);
        assert b == [b[0], b[1]];
      }
    }
  }

  /** A whole group, and the groups behind it. */
  lemma ThreeHold(t: Bytes, b: Bytes)
    requires |t| >= 4 && t[2] != 61 && t[3] != 61
    requires |b| >= 3 ==> (TokenCodec.DecodeGroups(t[4..]) == Some(b[3..]) <==> Holds(t[4..], b[3..]))
    ensures TokenCodec.DecodeGroups(t) == Some(b) <==> Holds(t, b)
  {
    PadIsNoCharacter();
    GroupNumbers(t);
    assert t[2..] != [61, 61] by { assert t[2..][0] == t[2]; }
    assert t[3..] != [61] by { assert t[3..][0] == t[3]; }
    hide Spells, Number;
    var whole := TokenCodec.InAlphabet(t[0]) && TokenCodec.InAlphabet(t[1]) && TokenCodec.InAlphabet(t[2])
                 && TokenCodec.InAlphabet(t[3]);
    if whole {
      var p, q, r, u := TokenCodec.ValueOf(t[0]).value, TokenCodec.ValueOf(t[1]).value, TokenCodec.ValueOf(t[2]).value,
                        TokenCodec.ValueOf(t[3]).value;
      ThreeOf(p, q, r, u);
      var first := [TokenCodec.One(p, q), TokenCodec.Two(q, r), TokenCodec.Three(r, u)];
      if |b| >= 3 {
        NumberOf(b[..3], 256);
        SameBytes(first[0], first[1], b[0], b[1], first[2], b[2]);
        assert b[..3] == first <==> b[0] == first[0] && b[1] == first[1] && b[2] == first[2];
        assert b == b[..3] + b[3..];
        assert first + b[3..] == b <==> b[..3] == first;
      }
      GroupDecodes(t, p, q, r, u);
      if TokenCodec.DecodeGroups(t) == Some(b) {
        assert (first + TokenCodec.DecodeGroups(t[4..]).value)[3..] == b[3..];
      }
    }
  }

  lemma GroupDecodes(
    t: Bytes, p: TokenCodec.Sextet, q: TokenCodec.Sextet, r: TokenCodec.Sextet, u: TokenCodec.Sextet)
    requires |t| >= 4 && t[2] != 61 && t[3] != 61
    requires TokenCodec.ValueOf(t[0]) == Some(p) && TokenCodec.ValueOf(t[1]) == Some(q)
    requires TokenCodec.ValueOf(t[2]) == Some(r) && TokenCodec.ValueOf(t[3]) == Some(u)
    ensures var rest := TokenCodec.DecodeGroups(t[4..]);
      TokenCodec.DecodeGroups(t) == if rest.None? then None
        else Some([TokenCodec.One(p, q), TokenCodec.Two(q, r), TokenCodec.Three(r, u)] + rest.value)
  {
    hide TokenCodec.One, TokenCodec.Two, TokenCodec.Three;
  }

  /** The library decodes a text without line breaks to exactly the bytes that it holds. */
  lemma {:induction false} DecodesExactly(t: Bytes, b: Bytes)
    ensures TokenCodec.DecodeGroups(t) == Some(b) <==> Holds(t, b)
    decreases |t|
  {
    if |t| < 4 {
    } else if t[2] != 61 && t[3] != 61 {
      if |b| >= 3 { DecodesExactly(t[4..], b[3..]); }
      ThreeHold(t, b);
    } else if |t| == 4 && t[3] == 61 {
      if t[2] == 61 { OneHolds(t, b); } else { TwoHold(t, b); }
    } else {
      PadInside(t, b);
    }
  }

  /** Padding before the end holds nothing. */
  lemma PadInside(t: Bytes, b: Bytes)
    requires |t| >= 4 && (t[2] == 61 || t[3] == 61) && !(|t| == 4 && t[3] == 61)
    ensures TokenCodec.DecodeGroups(t).None? && !Holds(t, b)
  {
    PadIsNoCharacter();
    GroupNumbers(t);
    hide Spells;
    if |t| == 4 { assert t[2..][1] == t[3] && t[3..][0] == t[3]; }
  }

  // ---------- line breaks, and texts without padding ----------

  /** Line feeds and carriage returns are dropped, and nothing else is. */
  lemma {:induction false} LineBreaksGo(s: Bytes, c: Byte, t: Bytes)
    ensures TokenCodec.WithoutLineBreaks(s + [c] + t)
         == TokenCodec.WithoutLineBreaks(s) + (if c == 10 || c == 13 then [] else [c]) + TokenCodec.WithoutLineBreaks(t)
    decreases |s|
  {
    if s == [] {
      assert s + [c] + t == [c] + t && ([c] + t)[1..] == t;
    } else {
      assert (s + [c] + t)[1..] == s[1..] + [c] + t;
      LineBreaksGo(s[1..], c, t);
    }
  }

  /** A part of a token decodes to the bytes it holds once padded to a multiple of four, without its line breaks. */
  lemma PartDecodesExactly(s: Bytes, b: Bytes)
    ensures TokenCodec.JoseDecode(s) == Some(b) <==>
      |s| % 4 != 1 && Holds(TokenCodec.WithoutLineBreaks(
        s + if |s| % 4 == 2 then [61, 61] else if |s| % 4 == 3 then [61] else []), b)
  {
    var padded := s + if |s| % 4 == 2 then [61, 61] else if |s| % 4 == 3 then [61] else [];
    assert |s| % 4 == 0 ==> padded == s;
    DecodesExactly(TokenCodec.WithoutLineBreaks(padded), b);
    hide Holds, TokenCodec.DecodeGroups, TokenCodec.WithoutLineBreaks;
  }
}
