/**
  `escape.quote` of the SockJS client: a JSON string in which every unit that browsers
  get wrong is written as `\uXXXX` (`cluster/wwwroot/sockjs.js`).
 */
module Escape {
  import opened Texts
  import opened Json
  import opened JsonParse
  import opened JsonRoundTrip
  import opened JsonGrammar
  import opened JsonLayout

  // ---------- the class of units to escape ----------

  predicate ExtraControlsAndSurrogates(c: CodeUnit) {
    || 0x0000 <= c <= 0x001f || 0xd800 <= c <= 0xdfff || c == 0xfffe || c == 0xffff
  }

  predicate ExtraMarks1(c: CodeUnit) {
    || 0x0300 <= c <= 0x0333 || 0x033d <= c <= 0x0346 || 0x034a <= c <= 0x034c || 0x0350 <= c <= 0x0352
    || 0x0357 <= c <= 0x0358 || 0x035c <= c <= 0x0362 || c == 0x0374 || c == 0x037e
    || c == 0x0387 || 0x0591 <= c <= 0x05af || c == 0x05c4 || 0x0610 <= c <= 0x0617
    || 0x0653 <= c <= 0x0654 || 0x0657 <= c <= 0x065b || 0x065d <= c <= 0x065e || 0x06df <= c <= 0x06e2
    || 0x06eb <= c <= 0x06ec || c == 0x0730 || 0x0732 <= c <= 0x0733 || 0x0735 <= c <= 0x0736
    || c == 0x073a || c == 0x073d || 0x073f <= c <= 0x0741 || c == 0x0743
    || c == 0x0745 || c == 0x0747 || 0x07eb <= c <= 0x07f1
  }

  predicate ExtraMarks2(c: CodeUnit) {
    || c == 0x0951 || 0x0958 <= c <= 0x095f || 0x09dc <= c <= 0x09dd || c == 0x09df
    || c == 0x0a33 || c == 0x0a36 || 0x0a59 <= c <= 0x0a5b || c == 0x0a5e
    || 0x0b5c <= c <= 0x0b5d || 0x0e38 <= c <= 0x0e39 || c == 0x0f43 || c == 0x0f4d
    || c == 0x0f52 || c == 0x0f57 || c == 0x0f5c || c == 0x0f69
    || 0x0f72 <= c <= 0x0f76 || c == 0x0f78 || 0x0f80 <= c <= 0x0f83 || c == 0x0f93
    || c == 0x0f9d || c == 0x0fa2 || c == 0x0fa7 || c == 0x0fac
    || c == 0x0fb9 || 0x1939 <= c <= 0x193a || c == 0x1a17
  }

  predicate ExtraMarks3(c: CodeUnit) {
    || c == 0x1b6b || 0x1cda <= c <= 0x1cdb || 0x1dc0 <= c <= 0x1dcf || c == 0x1dfc
    || c == 0x1dfe || c == 0x1f71 || c == 0x1f73 || c == 0x1f75
    || c == 0x1f77 || c == 0x1f79 || c == 0x1f7b || c == 0x1f7d
    || c == 0x1fbb || c == 0x1fbe || c == 0x1fc9 || c == 0x1fcb
    || c == 0x1fd3 || c == 0x1fdb || c == 0x1fe3 || c == 0x1feb
    || 0x1fee <= c <= 0x1fef || c == 0x1ff9 || c == 0x1ffb || c == 0x1ffd
    || 0x2000 <= c <= 0x2001 || 0x20d0 <= c <= 0x20d1 || 0x20d4 <= c <= 0x20d7
  }

  predicate ExtraMarks4(c: CodeUnit) {
    || 0x20e7 <= c <= 0x20e9 || c == 0x2126 || 0x212a <= c <= 0x212b || 0x2329 <= c <= 0x232a
    || c == 0x2adc || 0x302b <= c <= 0x302c || 0xaab2 <= c <= 0xaab3 || 0xf900 <= c <= 0xfa0d
    || c == 0xfa10 || c == 0xfa12 || 0xfa15 <= c <= 0xfa1e || c == 0xfa20
    || c == 0xfa22 || 0xfa25 <= c <= 0xfa26 || 0xfa2a <= c <= 0xfa2d || 0xfa30 <= c <= 0xfa6d
    || 0xfa70 <= c <= 0xfad9 || c == 0xfb1d || c == 0xfb1f || 0xfb2a <= c <= 0xfb36
    || 0xfb38 <= c <= 0xfb3c || c == 0xfb3e || 0xfb40 <= c <= 0xfb41 || 0xfb43 <= c <= 0xfb44
    || 0xfb46 <= c <= 0xfb4e || 0xfff0 <= c <= 0xffff
  }

  /** The unit matches `extraEscapable`. */
  predicate IsExtra(c: CodeUnit) {
    || ExtraControlsAndSurrogates(c)
    || ExtraMarks1(c)
    || ExtraMarks2(c)
    || ExtraMarks3(c)
    || ExtraMarks4(c)
  }

  // ---------- the escapes ----------

  /** `"\u" + ("0000" + c.toString(16)).slice(-4)`. */
  function UnicodeEscape(c: CodeUnit): Text {
    [BACKSLASH, 117] + ToPadded(4, Hex(c))
  }

  function EscapeUnit(c: CodeUnit): Text {
    if IsExtra(c) then UnicodeEscape(c) else [c]
  }

  /** `escape.quote(s)`. */
  function Quote(s: Text): Text {
    EncodeAll(EscapeUnit, Quoted(s))
  }

  // ---------- what it reads as ----------

  /** JSON's own escapes are printable ASCII, which is left alone. */
  lemma PrintableIsNotExtra(c: CodeUnit)
    requires 32 <= c < 127
    ensures !IsExtra(c)
  {
  }

  lemma ControlIsExtra(c: CodeUnit)
    requires c < 32
    ensures IsExtra(c)
  {
  }

  lemma HexStep(n: nat)
    ensures n < 16 ==> Hex(n) == [HexDigit(n)]
    ensures n >= 16 ==> Hex(n) == Hex(n / 16) + [HexDigit(n % 16)]
  {
  }

  lemma Quotients(c: CodeUnit)
    ensures c / 16 / 16 == c / 256 && c / 256 / 16 == c / 4096 && c / 4096 < 16
    ensures c < 256 ==> c / 16 < 16 && c / 16 % 16 == c / 16
    ensures c < 4096 ==> c / 256 < 16 && c / 256 % 16 == c / 256
    ensures c < 16 ==> c % 16 == c
    ensures c >= 256 ==> c / 16 >= 16
    ensures c >= 4096 ==> c / 256 >= 16
  {
  }

  lemma HexText(c: CodeUnit)
    ensures var d3, d2, d1, d0 := HexDigit(c / 4096), HexDigit(c / 256 % 16), HexDigit(c / 16 % 16), HexDigit(c % 16);
      Hex(c) ==
        if c < 16 then [d0] else if c < 256 then [d1, d0] else if c < 4096 then [d2, d1, d0] else [d3, d2, d1, d0]
  {
    hide HexDigit, Hex;
    var d3, d2, d1, d0 := HexDigit(c / 4096), HexDigit(c / 256 % 16), HexDigit(c / 16 % 16), HexDigit(c % 16);
    Quotients(c);
    HexStep(c);
    HexStep(c / 16);
    HexStep(c / 256);
    HexStep(c / 4096);
    if c >= 16 {
      assert c < 256 ==> Hex(c / 16) == [d1];
      assert 256 <= c < 4096 ==> Hex(c / 16) == [d2, d1];
      assert c >= 4096 ==> Hex(c / 256) == [d3, d2] && Hex(c / 16) == [d3, d2, d1];
    }
  }

  lemma HexDigits4(c: CodeUnit)
    ensures ToPadded(4, Hex(c)) == [HexDigit(c / 4096), HexDigit(c / 256 % 16), HexDigit(c / 16 % 16), HexDigit(c % 16)]
  {
    hide HexDigit, Hex;
    HexText(c);
    HexZero();
  }

  lemma HexZero()
    ensures HexDigit(0) == 48
  {
  }

  ghost predicate Printable(t: Text) {
    forall i :: 0 <= i < |t| ==> 32 <= t[i] < 127
  }

  lemma UnicodeEscapeRead(c: CodeUnit)
    ensures UnitReads(UnicodeEscape(c), c) && Printable(UnicodeEscape(c))
  {
    hide UnitReads, Hex, ToPadded;
    HexDigits4(c);
    var d := ToPadded(4, Hex(c));
    assert FourHex(d, 0);
    HexCodeOfDigits(c);
    UnicodeEscapeReads(d, c);
  }

  lemma HexValueOfDigit(d: nat)
    requires d < 16
    ensures IsHex(HexDigit(d)) && HexValue(HexDigit(d)) == d
  {
  }

  lemma FourDigits(c: CodeUnit)
    ensures c / 4096 * 4096 + c / 256 % 16 * 256 + c / 16 % 16 * 16 + c % 16 == c
  {
    var q1 := c / 16;
    var q2 := q1 / 16;
    var q3 := q2 / 16;
    assert c / 256 == q2 && c / 4096 == q3;
  }

  lemma HexCodeOfDigits(c: CodeUnit)
    ensures var d: Text := [HexDigit(c / 4096), HexDigit(c / 256 % 16), HexDigit(c / 16 % 16), HexDigit(c % 16)];
      FourHex(d, 0) && HexCode(d, 0) == c
  {
    hide HexDigit, HexValue, IsHex;
    HexValueOfDigit(c / 4096);
    HexValueOfDigit(c / 256 % 16);
    HexValueOfDigit(c / 16 % 16);
    HexValueOfDigit(c % 16);
    FourDigits(c);
  }

  lemma {:induction false} EncodeAllConcat(f: CodeUnit -> Text, a: Text, b: Text)
    ensures EncodeAll(f, a + b) == EncodeAll(f, a) + EncodeAll(f, b)
    decreases |a|
  {
    if a == [] {
      assert a + b == b;
    } else {
      assert (a + b)[1..] == a[1..] + b;
      EncodeAllConcat(f, a[1..], b);
    }
  }

  lemma EncodeOne(f: CodeUnit -> Text, c: CodeUnit)
    ensures EncodeAll(f, [c]) == f(c)
  {
    assert EncodeAll(f, [c]) == f(c) + EncodeAll(f, []);
  }

  lemma {:induction false} EncodeAllCompose(f: CodeUnit -> Text, g: CodeUnit -> Text, h: CodeUnit -> Text, s: Text)
    requires forall c :: h(c) == EncodeAll(f, g(c))
    ensures EncodeAll(f, EncodeAll(g, s)) == EncodeAll(h, s)
    decreases |s|
  {
    if s != [] {
      EncodeAllConcat(f, g(s[0]), EncodeAll(g, s[1..]));
      EncodeAllCompose(f, g, h, s[1..]);
    }
  }

  lemma {:induction false} EscapeKeepsPrintable(t: Text)
    requires Printable(t)
    ensures EncodeAll(EscapeUnit, t) == t
    decreases |t|
  {
    hide IsExtra;
    if t != [] {
      PrintableIsNotExtra(t[0]);
      EscapeKeepsPrintable(t[1..]);
      assert t == [t[0]] + t[1..];
    }
  }

  /** Both layers of escaping together: one unit still reads as itself. */
  function EscapedUnit(c: CodeUnit): Text {
    EncodeAll(EscapeUnit, QuoteUnit(c))
  }

  lemma EscapedUnitReads(c: CodeUnit)
    ensures UnitReads(EscapedUnit(c), c)
  {
    QuoteUnitReads(c);
    hide UnitReads, IsExtra;
    if QuoteUnit(c) == [c] {
      EncodeOne(EscapeUnit, c);
      UnicodeEscapeRead(c);
    } else {
      if |QuoteUnit(c)| > 2 { ControlEscape(c); }
      EscapeKeepsPrintable(QuoteUnit(c));
    }
  }

  lemma QuoteShape(s: Text)
    ensures Quote(s) == [QUOTE] + EncodeAll(EscapedUnit, s) + [QUOTE]
  {
    hide EncodeAll;
    var body := EncodeAll(QuoteUnit, s);
    EncodeAllConcat(EscapeUnit, [QUOTE] + body, [QUOTE]);
    EncodeAllConcat(EscapeUnit, [QUOTE], body);
    EscapeKeepsPrintable([QUOTE]);
    EncodeAllCompose(EscapeUnit, QuoteUnit, EscapedUnit, s);
  }

  /** `escape.quote(s)` is JSON text for `s`, wherever it is put. */
  lemma QuoteParses(s: Text)
    ensures Parses(Quote(s), Str(s))
  {
    QuoteShape(s);
    forall c ensures UnitReads(EscapedUnit(c), c) { EscapedUnitReads(c); }
    QuotedParses(EscapedUnit, s);
  }

  /** No unit of the text needs escaping; in particular it holds no line feed. */
  ghost predicate Clean(t: Text) {
    forall i :: 0 <= i < |t| ==> !IsExtra(t[i])
  }

  /** An escaped text is clean. */
  lemma {:induction false} EscapedIsClean(t: Text)
    ensures Clean(EncodeAll(EscapeUnit, t))
    decreases |t|
  {
    hide IsExtra;
    if t != [] {
      UnicodeEscapeRead(t[0]);
      var code := UnicodeEscape(t[0]);
      forall i | 0 <= i < |code| ensures !IsExtra(code[i]) { PrintableIsNotExtra(code[i]); }
      EscapedIsClean(t[1..]);
    }
  }

  // ---------- what is written ----------

  /** `\u` and the four hexadecimal digits of the unit, in lower case. */
  ghost predicate IsUnicodeEscape(code: Text, c: CodeUnit) {
    && |code| == 6 && Is(code[..2], "\\u")
    && code[2] == LOWER_HEX[c / 4096] as int && code[3] == LOWER_HEX[c / 256 % 16] as int
    && code[4] == LOWER_HEX[c / 16 % 16] as int && code[5] == LOWER_HEX[c % 16] as int
  }

  lemma LowerHex(d: nat)
    requires d < 16
    ensures HexDigit(d) == LOWER_HEX[d] as int
  {
  }

  lemma UnicodeEscapeIs(c: CodeUnit)
    ensures IsUnicodeEscape(UnicodeEscape(c), c)
  {
    hide Hex, ToPadded, HexDigit;
    HexDigits4(c);
    LowerHex(c / 4096);
    LowerHex(c / 256 % 16);
    LowerHex(c / 16 % 16);
    LowerHex(c % 16);
  }

  /**
    A unit with a short escape is written as that; another control character, or a unit of the class, as `\u` and
    its four digits; every other unit as itself.
   */
  lemma UnitIsWrittenAs(c: CodeUnit)
    ensures if exists k :: 0 <= k < |SHORT_ESCAPES| && SHORT_ESCAPES[k].0 == c
            then |EscapedUnit(c)| == 2 && EscapedUnit(c) == QuoteUnit(c)
            else if c < 32 || IsExtra(c) then IsUnicodeEscape(EscapedUnit(c), c)
            else EscapedUnit(c) == [c]
  {
    hide IsExtra, IsUnicodeEscape, UnicodeEscape;
    UnitIsPrintedAs(c);
    UnicodeEscapeIs(c);
    EncodeOne(EscapeUnit, c);
    if QuoteUnit(c) != [c] {
      if |QuoteUnit(c)| > 2 { ControlEscape(c); }
      EscapeKeepsPrintable(QuoteUnit(c));
      if c < 32 { ControlUnicode(c); }
    }
  }

  lemma ControlUnicode(c: CodeUnit)
    requires c < 32
    ensures |QuoteUnit(c)| > 2 ==> QuoteUnit(c) == UnicodeEscape(c)
  {
    hide Hex, ToPadded;
    HexDigits4(c);
    ControlEscape(c);
  }

  /** The class has all control characters, surrogates and units from U+FFF0 on, and no printable ASCII. */
  lemma ClassCovers(c: CodeUnit)
    ensures c < 32 || 0xd800 <= c < 0xe000 || 0xfff0 <= c ==> IsExtra(c)
    ensures 32 <= c < 127 ==> !IsExtra(c)
  {
  }
}
