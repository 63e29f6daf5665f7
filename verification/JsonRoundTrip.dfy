/**
  Parsing what was printed. `Parses(text, v)` says that `text` reads as `v` in every
  place where a value may stand; it holds of all printed trees.
 */
module JsonRoundTrip {
  import opened Wrappers
  import opened Texts
  import opened Json
  import opened JsonParse

  ghost predicate AllBlank(t: Text) {
    forall i :: 0 <= i < |t| ==> IsBlank(t[i])
  }

  /** No number literal goes on at `k`. */
  predicate Ends(src: Text, k: nat) {
    var c := CharCode(src, k);
    !IsDigit(c) && c != 46 && c != 101 && c != 69
  }

  /** Wherever `text` stands, `get(lex())` reads `v` from it and stops after it. */
  ghost predicate Parses(text: Text, v: Value) {
    forall src: Text, i: nat :: Here(src, i, text) && Ends(src, i + |text|) ==>
      GetAt(src, i) == Ok(Read(v, i + |text|))
  }

  /** Inside a string token, `code` reads as the unit `c`. */
  ghost predicate UnitReads(code: Text, c: CodeUnit) {
    forall src: Text, i: nat, acc: Text :: Here(src, i, code) ==>
      LexString(src, i, acc) == LexString(src, i + |code|, acc + [c])
  }

  // ---------- tokens ----------

  lemma {:induction false} LexSkipsBlanks(src: Text, i: nat, t: Text)
    requires Here(src, i, t) && AllBlank(t)
    ensures Lex(src, i) == Lex(src, i + |t|)
    decreases |t|
  {
    if t != [] {
      HereAt(src, i, t, 0);
      assert t == t[..1] + t[1..];
      HereConcat(src, i, t[..1], t[1..]);
      LexSkipsBlanks(src, i + 1, t[1..]);
    }
  }

  lemma PunctReads(src: Text, i: nat, blank: Text, c: CodeUnit)
    requires Here(src, i, blank + [c]) && AllBlank(blank) && IsPunct(c)
    ensures i + |blank| + 1 <= |src| && Lex(src, i) == Ok(Read(Punct(c), i + |blank| + 1))
  {
    HereConcat(src, i, blank, [c]);
    LexSkipsBlanks(src, i, blank);
    HereAt(src, i + |blank|, [c], 0);
  }

  lemma {:induction false} StringReads(src: Text, i: nat, encode: CodeUnit -> Text, s: Text, acc: Text)
    requires forall c :: UnitReads(encode(c), c)
    requires Here(src, i, EncodeAll(encode, s) + [QUOTE])
    ensures LexString(src, i, acc) == Ok(Read(StrTok(acc + s), i + |EncodeAll(encode, s)| + 1))
    decreases |s|
  {
    if s == [] {
      HereAt(src, i, [QUOTE], 0);
      assert acc + s == acc;
    } else {
      var rest := EncodeAll(encode, s[1..]) + [QUOTE];
      assert EncodeAll(encode, s) + [QUOTE] == encode(s[0]) + rest;
      HereConcat(src, i, encode(s[0]), rest);
      assert UnitReads(encode(s[0]), s[0]);
      StringReads(src, i + |encode(s[0])|, encode, s[1..], acc + [s[0]]);
      assert acc + s == acc + [s[0]] + s[1..];
    }
  }

  lemma QuotedReads(src: Text, i: nat, encode: CodeUnit -> Text, s: Text)
    requires forall c :: UnitReads(encode(c), c)
    requires Here(src, i, [QUOTE] + EncodeAll(encode, s) + [QUOTE])
    ensures Lex(src, i) == Ok(Read(StrTok(s), i + |EncodeAll(encode, s)| + 2))
  {
    hide EncodeAll, UnitReads, LexString, LexScalar;
    var rest := EncodeAll(encode, s) + [QUOTE];
    assert [QUOTE] + EncodeAll(encode, s) + [QUOTE] == [QUOTE] + rest;
    HereConcat(src, i, [QUOTE], rest);
    HereAt(src, i, [QUOTE], 0);
    StringReads(src, i + 1, encode, s, []);
    assert [] + s == s;
  }

  /** A quoted string parses to the string, whatever readable encoding its units have. */
  lemma QuotedParses(encode: CodeUnit -> Text, s: Text)
    requires forall c :: UnitReads(encode(c), c)
    ensures Parses([QUOTE] + EncodeAll(encode, s) + [QUOTE], Str(s))
  {
    hide Lex, UnitReads, EncodeAll;
    var text := [QUOTE] + EncodeAll(encode, s) + [QUOTE];
    forall src: Text, i: nat | Here(src, i, text) && Ends(src, i + |text|)
      ensures GetAt(src, i) == Ok(Read(Str(s), i + |text|))
    {
      QuotedReads(src, i, encode, s);
    }
  }

  lemma ControlEscape(c: CodeUnit)
    requires c < 32
    ensures ToPadded(2, Hex(c)) == [HexDigit(c / 16), HexDigit(c % 16)]
  {
    assert c >= 16 ==> Hex(c / 16) == [HexDigit(c / 16)];
    if c >= 16 { assert Hex(c) == [HexDigit(c / 16)] + [HexDigit(c % 16)]; }
  }

  /** `\uXXXX` reads as the unit with that number. */
  lemma UnicodeEscapeReads(d: Text, c: CodeUnit)
    requires |d| == 4 && FourHex(d, 0) && HexCode(d, 0) == c
    ensures UnitReads([BACKSLASH, 117] + d, c)
  {
    var code := [BACKSLASH, 117] + d;
    forall src: Text, i: nat, acc: Text | Here(src, i, code)
      ensures LexString(src, i, acc) == LexString(src, i + 6, acc + [c])
    {
      HereAt(src, i, code, 0);
      HereAt(src, i, code, 1);
      HereAt(src, i, code, 2);
      HereAt(src, i, code, 3);
      HereAt(src, i, code, 4);
      HereAt(src, i, code, 5);
      assert FourHex(src, i + 2) && HexCode(src, i + 2) == c;
    }
  }

  lemma QuoteUnitReads(c: CodeUnit)
    ensures UnitReads(QuoteUnit(c), c)
  {
    var code := QuoteUnit(c);
    if |code| > 2 {
      ControlEscape(c);
      var d: Text := [48, 48, HexDigit(c / 16), HexDigit(c % 16)];
      UnicodeEscapeReads(d, c);
      assert code == [BACKSLASH, 117] + d;
    } else {
      forall src: Text, i: nat, acc: Text | Here(src, i, code)
        ensures LexString(src, i, acc) == LexString(src, i + |code|, acc + [c])
      {
        HereAt(src, i, code, 0);
        if |code| == 2 { HereAt(src, i, code, 1); }
      }
    }
  }

  // ---------- numbers ----------

  lemma {:induction false} DigitsValueOfDigits(n: nat)
    ensures DigitsValue(Digits(n)) == n
    decreases n
  {
    if n >= 10 {
      DigitsValueOfDigits(n / 10);
      assert Digits(n)[..|Digits(n)| - 1] == Digits(n / 10);
    } else {
      assert Digits(n)[..0] == [];
    }
  }

  lemma {:induction false} SkipDigitsOver(src: Text, i: nat, t: Text)
    requires Here(src, i, t) && !IsDigit(CharCode(src, i + |t|))
    requires forall c <- t :: IsDigit(c)
    ensures SkipDigits(src, i) == i + |t|
    decreases |t|
  {
    if t != [] {
      HereAt(src, i, t, 0);
      assert t == t[..1] + t[1..];
      HereConcat(src, i, t[..1], t[1..]);
      SkipDigitsOver(src, i + 1, t[1..]);
    }
  }

  lemma CoerceDecimal(n: int)
    ensures Coerce(Decimal(n)) == Num(n)
  {
    var text := Decimal(n);
    assert forall c <- text :: c == DASH || IsDigit(c);
    if n < 0 {
      DigitsValueOfDigits(-n);
      assert text[1..] == Digits(-n);
      assert text[0] == DASH;
    } else {
      DigitsValueOfDigits(n);
      assert text[0] in text;
    }
  }

  lemma NumberReads(src: Text, begin: nat, i: nat, digits: Text)
    requires begin <= i && Here(src, i, digits) && Ends(src, i + |digits|)
    requires digits != [] && forall c <- digits :: IsDigit(c)
    requires digits[0] == 48 ==> |digits| == 1
    ensures IsDigit(CharCode(src, i))
    ensures LexNumber(src, begin, i) == Ok(Read(Prim(Coerce(src[begin..i + |digits|])), i + |digits|))
  {
    HereAt(src, i, digits, 0);
    SkipDigitsOver(src, i, digits);
  }

  lemma DecimalParses(n: int)
    ensures Parses(Decimal(n), Num(n))
  {
    hide LexNumber, Coerce, LexString;
    var text := Decimal(n);
    var digits := Digits(if n < 0 then -n else n);
    CoerceDecimal(n);
    forall src: Text, i: nat | Here(src, i, text) && Ends(src, i + |text|)
      ensures GetAt(src, i) == Ok(Read(Num(n), i + |text|))
    {
      assert src[i..i + |text|] == text;
      HereAt(src, i, text, 0);
      if n < 0 {
        HereConcat(src, i, [DASH], digits);
        NumberReads(src, i, i + 1, digits);
      } else {
        NumberReads(src, i, i, digits);
      }
    }
  }

  // ---------- brackets ----------

  /** Every part after its separator. */
  function Tail(parts: seq<Text>, sep: Text): Text {
    if parts == [] then [] else sep + parts[0] + Tail(parts[1..], sep)
  }

  lemma {:induction false} JoinIsTail(parts: seq<Text>, sep: Text)
    requires parts != []
    ensures Join(parts, sep) == parts[0] + Tail(parts[1..], sep)
    decreases |parts|
  {
    if |parts| > 1 {
      JoinIsTail(parts[1..], sep);
      assert parts[1..][1..] == parts[2..];
      assert parts[0] + sep + (parts[1] + Tail(parts[2..], sep)) == parts[0] + (sep + parts[1] + Tail(parts[2..], sep));
    } else {
      assert Tail(parts[1..], sep) == [];
    }
  }

  /** Where the parts that follow end in `blank` and a bracket, no number goes on. */
  lemma EndsBeforeTail(src: Text, i: nat, parts: seq<Text>, b: Text, blank: Text, close: CodeUnit)
    requires Here(src, i, Tail(parts, [COMMA] + b) + (blank + [close])) && AllBlank(blank)
    requires close == RBRACKET || close == RBRACE
    ensures Ends(src, i)
  {
    HereAt(src, i, Tail(parts, [COMMA] + b) + (blank + [close]), 0);
  }

  lemma ItemsStep(src: Text, i: nat, acc: seq<Value>, j: nat, v: Value, k: nat)
    requires i <= |src| && j <= |src| && GetAt(src, j) == Ok(Read(v, k))
    requires if acc == [] then i == j else Lex(src, i) == Ok(Read(Punct(COMMA), j))
    ensures k <= |src| && GetItems(src, i, acc) == GetItems(src, k, acc + [v])
  {
    assert Lex(src, j).Ok?;
  }

  /** An element that stands after `b`, and what follows it. */
  lemma ElementReads(src: Text, i: nat, b: Text, part: Text, v: Value, more: seq<Text>, blank: Text, close: CodeUnit)
    requires AllBlank(b) && AllBlank(blank) && Parses(part, v)
    requires close == RBRACKET || close == RBRACE
    requires Here(src, i, b + (part + (Tail(more, [COMMA] + b) + (blank + [close]))))
    ensures i + |b| + |part| <= |src|
    ensures GetAt(src, i) == Ok(Read(v, i + |b| + |part|))
    ensures Here(src, i + |b| + |part|, Tail(more, [COMMA] + b) + (blank + [close]))
  {
    hide Lex, Get, Join;
    var rest := Tail(more, [COMMA] + b) + (blank + [close]);
    HereConcat(src, i, b, part + rest);
    HereConcat(src, i + |b|, part, rest);
    LexSkipsBlanks(src, i, b);
    EndsBeforeTail(src, i + |b| + |part|, more, b, blank, close);
  }

  lemma ItemsEnd(src: Text, i: nat, acc: seq<Value>, blank: Text)
    requires AllBlank(blank) && Here(src, i, blank + [RBRACKET])
    ensures GetItems(src, i, acc) == Ok(Read(Arr(acc), i + |blank| + 1))
  {
    hide Lex, Get;
    PunctReads(src, i, blank, RBRACKET);
  }

  lemma {:induction false} ItemsParse(
    src: Text, i: nat, parts: seq<Text>, values: seq<Value>, acc: seq<Value>, b: Text, blank: Text)
    requires |parts| == |values| && forall k :: 0 <= k < |parts| ==> Parses(parts[k], values[k])
    requires AllBlank(b) && AllBlank(blank) && acc != []
    requires Here(src, i, Tail(parts, [COMMA] + b) + (blank + [RBRACKET]))
    ensures GetItems(src, i, acc)
         == Ok(Read(Arr(acc + values), i + |Tail(parts, [COMMA] + b) + (blank + [RBRACKET])|))
    decreases |parts|
  {
    hide Lex, Get, GetAt, GetItems, Parses;
    var end := blank + [RBRACKET];
    if parts == [] {
      assert Tail(parts, [COMMA] + b) + end == end;
      ItemsEnd(src, i, acc, blank);
      assert acc + values == acc;
    } else {
      var rest := Tail(parts[1..], [COMMA] + b) + end;
      assert Tail(parts, [COMMA] + b) + end == [COMMA] + (b + (parts[0] + rest));
      HereConcat(src, i, [COMMA], b + (parts[0] + rest));
      assert [] + [COMMA] == [COMMA];
      PunctReads(src, i, [], COMMA);
      ElementReads(src, i + 1, b, parts[0], values[0], parts[1..], blank, RBRACKET);
      ItemsStep(src, i, acc, i + 1, values[0], i + 1 + |b| + |parts[0]|);
      ItemsParse(src, i + 1 + |b| + |parts[0]|, parts[1..], values[1..], acc + [values[0]], b, blank);
      assert acc + [values[0]] + values[1..] == acc + values;
    }
  }

  lemma BracketText(open: CodeUnit, parts: seq<Text>, b: Text, blank: Text, close: CodeUnit)
    requires parts != []
    ensures Bracketed(open, parts, b, blank, close)
         == [open] + (b + (parts[0] + (Tail(parts[1..], [COMMA] + b) + (blank + [close]))))
  {
    hide Join, Tail;
    JoinIsTail(parts, [COMMA] + b);
  }

  /** What stands behind an opening bracket, and where the parser goes on. */
  lemma BracketReads(src: Text, i: nat, open: CodeUnit, parts: seq<Text>, b: Text, blank: Text, close: CodeUnit)
    requires parts != [] && Here(src, i, Bracketed(open, parts, b, blank, close))
    requires open == LBRACKET || open == LBRACE
    ensures i + 1 <= |src|
    ensures Here(src, i + 1, b + (parts[0] + (Tail(parts[1..], [COMMA] + b) + (blank + [close]))))
    ensures |Bracketed(open, parts, b, blank, close)|
         == 1 + |b| + |parts[0]| + |Tail(parts[1..], [COMMA] + b) + (blank + [close])|
    ensures GetAt(src, i) == if open == LBRACKET then GetItems(src, i + 1, []) else GetMembers(src, i + 1, [], false)
  {
    hide Lex, GetItems, GetMembers, Tail, Bracketed;
    BracketText(open, parts, b, blank, close);
    var rest := b + (parts[0] + (Tail(parts[1..], [COMMA] + b) + (blank + [close])));
    HereConcat(src, i, [open], rest);
    assert [] + [open] == [open];
    PunctReads(src, i, [], open);
  }

  /** The elements of an array literal, read from behind its bracket. */
  lemma FirstItemReads(src: Text, i: nat, parts: seq<Text>, values: seq<Value>, b: Text, blank: Text)
    requires parts != [] && |parts| == |values| && forall k :: 0 <= k < |parts| ==> Parses(parts[k], values[k])
    requires AllBlank(b) && AllBlank(blank)
    requires Here(src, i, b + (parts[0] + (Tail(parts[1..], [COMMA] + b) + (blank + [RBRACKET]))))
    ensures GetItems(src, i, [])
         == Ok(Read(Arr(values), i + |b| + |parts[0]| + |Tail(parts[1..], [COMMA] + b) + (blank + [RBRACKET])|))
  {
    hide Lex, Get, GetAt, GetItems, Parses, AllBlank;
    ElementReads(src, i, b, parts[0], values[0], parts[1..], blank, RBRACKET);
    ItemsStep(src, i, [], i, values[0], i + |b| + |parts[0]|);
    ItemsParse(src, i + |b| + |parts[0]|, parts[1..], values[1..], [values[0]], b, blank);
    assert [] + [values[0]] == [values[0]] && [values[0]] + values[1..] == values;
  }

  lemma ArrayReads(src: Text, i: nat, parts: seq<Text>, values: seq<Value>, b: Text, blank: Text)
    requires parts != [] && |parts| == |values| && forall k :: 0 <= k < |parts| ==> Parses(parts[k], values[k])
    requires AllBlank(b) && AllBlank(blank)
    requires Here(src, i, Bracketed(LBRACKET, parts, b, blank, RBRACKET))
    ensures GetAt(src, i) == Ok(Read(Arr(values), i + |Bracketed(LBRACKET, parts, b, blank, RBRACKET)|))
  {
    hide Bracketed, Lex, GetAt, GetItems, Parses, AllBlank, Join, Tail, Here;
    BracketReads(src, i, LBRACKET, parts, b, blank, RBRACKET);
    FirstItemReads(src, i + 1, parts, values, b, blank);
  }

  lemma EmptyArrayParses()
    ensures Parses([LBRACKET, RBRACKET], Arr([]))
  {
    forall src: Text, i: nat | Here(src, i, [LBRACKET, RBRACKET])
      ensures GetAt(src, i) == Ok(Read(Arr([]), i + 2))
    {
      hide LexScalar, LexString;
      HereAt(src, i, [LBRACKET, RBRACKET], 0);
      HereAt(src, i, [LBRACKET, RBRACKET], 1);
      assert Lex(src, i) == Ok(Read(Punct(LBRACKET), i + 1));
      assert Lex(src, i + 1) == Ok(Read(Punct(RBRACKET), i + 2));
      assert GetItems(src, i + 1, []) == Ok(Read(Arr([]), i + 2));
    }
  }

  lemma ArrayParses(parts: seq<Text>, values: seq<Value>, b: Text, blank: Text)
    requires parts != [] && |parts| == |values| && forall k :: 0 <= k < |parts| ==> Parses(parts[k], values[k])
    requires AllBlank(b) && AllBlank(blank)
    ensures Parses(Bracketed(LBRACKET, parts, b, blank, RBRACKET), Arr(values))
  {
    hide Bracketed, GetAt, Join, AllBlank;
    var text := Bracketed(LBRACKET, parts, b, blank, RBRACKET);
    forall src: Text, i: nat | Here(src, i, text) && Ends(src, i + |text|)
      ensures GetAt(src, i) == Ok(Read(Arr(values), i + |text|))
    {
      ArrayReads(src, i, parts, values, b, blank);
    }
  }

  /** The members a parse has after assigning `news` in order. */
  function AssignAll(acc: seq<Member>, news: seq<Member>): seq<Member>
    decreases |news|
  {
    if news == [] then acc else AssignAll(Assign(acc, news[0].key, news[0].value), news[1..])
  }

  /** `part` is a key, a colon and a text that parses to the member's value. */
  ghost predicate MemberParses(part: Text, m: Member, ws: Text) {
    exists value: Text :: part == KeyPart(m.key, ws) + value && Parses(value, m.value)
  }

  lemma MembersStep(
    src: Text, i: nat, acc: seq<Member>, hasMembers: bool, j: nat, key: Text, c: nat, v: nat, value: Value, k: nat)
    requires i <= |src| && j <= |src| && c <= |src| && v <= |src|
    requires if hasMembers then Lex(src, i) == Ok(Read(Punct(COMMA), j)) else i == j
    requires Lex(src, j) == Ok(Read(StrTok(key), c)) && Lex(src, c) == Ok(Read(Punct(COLON), v))
    requires GetAt(src, v) == Ok(Read(value, k))
    ensures k <= |src| && GetMembers(src, i, acc, hasMembers) == GetMembers(src, k, Assign(acc, key, value), true)
  {
    hide Lex, Get, Assign;
    assert Lex(src, v).Ok? by { assert GetAt(src, v).Ok?; }
  }

  /** The key token and the colon of a member that stands after `b`. */
  lemma KeyReads(src: Text, i: nat, b: Text, key: Text, ws: Text, rest: Text)
    requires AllBlank(b) && Here(src, i, b + (KeyPart(key, ws) + rest))
    ensures i + |b| + |Quoted(key)| < |src|
    ensures Lex(src, i) == Ok(Read(StrTok(key), i + |b| + |Quoted(key)|))
    ensures Lex(src, i + |b| + |Quoted(key)|) == Ok(Read(Punct(COLON), i + |b| + |Quoted(key)| + 1))
    ensures Here(src, i + |b| + |Quoted(key)| + 1, (if ws == [] then [] else [SPACE]) + rest)
  {
    hide Lex, Get, EncodeAll, Here, AllBlank, UnitReads;
    var space: Text := if ws == [] then [] else [SPACE];
    HereConcat(src, i, b, KeyPart(key, ws) + rest);
    LexSkipsBlanks(src, i, b);
    assert KeyPart(key, ws) + rest == Quoted(key) + ([COLON] + (space + rest));
    HereConcat(src, i + |b|, Quoted(key), [COLON] + (space + rest));
    forall u ensures UnitReads(QuoteUnit(u), u) { QuoteUnitReads(u); }
    QuotedReads(src, i + |b|, QuoteUnit, key);
    HereConcat(src, i + |b| + |Quoted(key)|, [COLON], space + rest);
    assert [] + [COLON] == [COLON];
    PunctReads(src, i + |b| + |Quoted(key)|, [], COLON);
  }

  /** A member that stands after `b`: its key, its colon, its value, and what follows. */
  lemma MemberReads(src: Text, i: nat, b: Text, part: Text, m: Member, ws: Text, more: seq<Text>, blank: Text)
    returns (c: nat)
    requires AllBlank(b) && AllBlank(blank) && MemberParses(part, m, ws)
    requires Here(src, i, b + (part + (Tail(more, [COMMA] + b) + (blank + [RBRACE]))))
    ensures c < |src| && i + |b| + |part| <= |src|
    ensures Lex(src, i) == Ok(Read(StrTok(m.key), c)) && Lex(src, c) == Ok(Read(Punct(COLON), c + 1))
    ensures GetAt(src, c + 1) == Ok(Read(m.value, i + |b| + |part|))
    ensures Here(src, i + |b| + |part|, Tail(more, [COMMA] + b) + (blank + [RBRACE]))
  {
    hide Lex, Get, Quoted, Tail, AllBlank, Here, Parses;
    var value :| part == KeyPart(m.key, ws) + value && Parses(value, m.value);
    assert |KeyPart(m.key, ws)| == |Quoted(m.key)| + 1 + |if ws == [] then [] else [SPACE]|;
    hide KeyPart;
    var rest := Tail(more, [COMMA] + b) + (blank + [RBRACE]);
    assert part + rest == KeyPart(m.key, ws) + (value + rest);
    KeyReads(src, i, b, m.key, ws, value + rest);
    c := i + |b| + |Quoted(m.key)|;
    ValueReads(src, c + 1, ws, value, m.value, b, more, blank);
  }

  lemma ValueReads(src: Text, i: nat, ws: Text, value: Text, v: Value, b: Text, more: seq<Text>, blank: Text)
    requires AllBlank(b) && AllBlank(blank) && Parses(value, v)
    requires Here(src, i, (if ws == [] then [] else [SPACE]) + (value + (Tail(more, [COMMA] + b) + (blank + [RBRACE]))))
    ensures i + |if ws == [] then [] else [SPACE]| + |value| <= |src|
    ensures GetAt(src, i) == Ok(Read(v, i + |if ws == [] then [] else [SPACE]| + |value|))
    ensures Here(src, i + |if ws == [] then [] else [SPACE]| + |value|, Tail(more, [COMMA] + b) + (blank + [RBRACE]))
  {
    hide Lex, Get, Join;
    var rest := Tail(more, [COMMA] + b) + (blank + [RBRACE]);
    var space: Text := if ws == [] then [] else [SPACE];
    HereConcat(src, i, space, value + rest);
    HereConcat(src, i + |space|, value, rest);
    LexSkipsBlanks(src, i, space);
    EndsBeforeTail(src, i + |space| + |value|, more, b, blank, RBRACE);
  }

  lemma MembersEnd(src: Text, i: nat, acc: seq<Member>, blank: Text)
    requires AllBlank(blank) && Here(src, i, blank + [RBRACE])
    ensures GetMembers(src, i, acc, true) == Ok(Read(Obj(acc), i + |blank| + 1))
  {
    hide Lex, Get;
    PunctReads(src, i, blank, RBRACE);
  }

  lemma {:induction false} MembersParse(
    src: Text, i: nat, parts: seq<Text>, ms: seq<Member>, acc: seq<Member>, ws: Text, b: Text, blank: Text)
    requires |parts| == |ms| && forall k :: 0 <= k < |parts| ==> MemberParses(parts[k], ms[k], ws)
    requires AllBlank(b) && AllBlank(blank)
    requires Here(src, i, Tail(parts, [COMMA] + b) + (blank + [RBRACE]))
    ensures GetMembers(src, i, acc, true)
         == Ok(Read(Obj(AssignAll(acc, ms)), i + |Tail(parts, [COMMA] + b) + (blank + [RBRACE])|))
    decreases |parts|
  {
    hide Lex, Get, GetAt, GetMembers, MemberParses;
    var end := blank + [RBRACE];
    if parts == [] {
      assert Tail(parts, [COMMA] + b) + end == end;
      MembersEnd(src, i, acc, blank);
    } else {
      var rest := Tail(parts[1..], [COMMA] + b) + end;
      assert Tail(parts, [COMMA] + b) + end == [COMMA] + (b + (parts[0] + rest));
      HereConcat(src, i, [COMMA], b + (parts[0] + rest));
      assert [] + [COMMA] == [COMMA];
      PunctReads(src, i, [], COMMA);
      var c := MemberReads(src, i + 1, b, parts[0], ms[0], ws, parts[1..], blank);
      MembersStep(src, i, acc, true, i + 1, ms[0].key, c, c + 1, ms[0].value, i + 1 + |b| + |parts[0]|);
      MembersParse(src, i + 1 + |b| + |parts[0]|, parts[1..], ms[1..],
                   Assign(acc, ms[0].key, ms[0].value), ws, b, blank);
    }
  }

  /** The members of an object literal, read from behind its brace. */
  lemma FirstMemberReads(src: Text, i: nat, parts: seq<Text>, ms: seq<Member>, ws: Text, b: Text, blank: Text)
    requires parts != [] && |parts| == |ms| && forall k :: 0 <= k < |parts| ==> MemberParses(parts[k], ms[k], ws)
    requires AllBlank(b) && AllBlank(blank)
    requires Here(src, i, b + (parts[0] + (Tail(parts[1..], [COMMA] + b) + (blank + [RBRACE]))))
    ensures GetMembers(src, i, [], false) == Ok(Read(Obj(AssignAll([], ms)),
              i + |b| + |parts[0]| + |Tail(parts[1..], [COMMA] + b) + (blank + [RBRACE])|))
  {
    hide Lex, Get, GetAt, GetMembers, MemberParses, Assign, AllBlank, Quoted;
    var c := MemberReads(src, i, b, parts[0], ms[0], ws, parts[1..], blank);
    MembersStep(src, i, [], false, i, ms[0].key, c, c + 1, ms[0].value, i + |b| + |parts[0]|);
    MembersParse(src, i + |b| + |parts[0]|, parts[1..], ms[1..], Assign([], ms[0].key, ms[0].value), ws, b, blank);
  }

  lemma ObjectReads(src: Text, i: nat, parts: seq<Text>, ms: seq<Member>, ws: Text, b: Text, blank: Text)
    requires parts != [] && |parts| == |ms| && forall k :: 0 <= k < |parts| ==> MemberParses(parts[k], ms[k], ws)
    requires AllBlank(b) && AllBlank(blank)
    requires Here(src, i, Bracketed(LBRACE, parts, b, blank, RBRACE))
    ensures GetAt(src, i) == Ok(Read(Obj(AssignAll([], ms)), i + |Bracketed(LBRACE, parts, b, blank, RBRACE)|))
  {
    hide Bracketed, Lex, GetAt, GetMembers, MemberParses, AllBlank, Join, Tail, Here, AssignAll;
    BracketReads(src, i, LBRACE, parts, b, blank, RBRACE);
    FirstMemberReads(src, i + 1, parts, ms, ws, b, blank);
  }

  lemma EmptyObjectParses()
    ensures Parses([LBRACE, RBRACE], Obj([]))
  {
    forall src: Text, i: nat | Here(src, i, [LBRACE, RBRACE])
      ensures GetAt(src, i) == Ok(Read(Obj([]), i + 2))
    {
      hide LexScalar, LexString;
      HereAt(src, i, [LBRACE, RBRACE], 0);
      HereAt(src, i, [LBRACE, RBRACE], 1);
      assert Lex(src, i) == Ok(Read(Punct(LBRACE), i + 1));
      assert Lex(src, i + 1) == Ok(Read(Punct(RBRACE), i + 2));
      assert GetMembers(src, i + 1, [], false) == Ok(Read(Obj([]), i + 2));
    }
  }

  lemma ObjectParses(parts: seq<Text>, ms: seq<Member>, ws: Text, b: Text, blank: Text)
    requires parts != [] && |parts| == |ms| && forall k :: 0 <= k < |parts| ==> MemberParses(parts[k], ms[k], ws)
    requires AllBlank(b) && AllBlank(blank)
    ensures Parses(Bracketed(LBRACE, parts, b, blank, RBRACE), Obj(AssignAll([], ms)))
  {
    hide Bracketed, GetAt, MemberParses, AssignAll, Join, AllBlank;
    var text := Bracketed(LBRACE, parts, b, blank, RBRACE);
    forall src: Text, i: nat | Here(src, i, text) && Ends(src, i + |text|)
      ensures GetAt(src, i) == Ok(Read(Obj(AssignAll([], ms)), i + |text|))
    {
      ObjectReads(src, i, parts, ms, ws, b, blank);
    }
  }

  // ---------- trees ----------

  lemma {:induction false} AssignFresh(acc: seq<Member>, key: Text, value: Value)
    requires forall k :: 0 <= k < |acc| ==> acc[k].key != key
    ensures AssignOwn(acc, key, value) == acc + [Member(key, value)]
    decreases |acc|
  {
    if acc != [] {
      AssignFresh(acc[1..], key, value);
      assert acc == [acc[0]] + acc[1..];
    }
  }

  /** Assigning members with distinct keys appends all but those named `__proto__`. */
  lemma {:induction false} AssignDistinct(acc: seq<Member>, news: seq<Member>, dropped: seq<Member>)
    requires DistinctKeys(dropped)
    requires forall i, j :: 0 <= i < |acc| && 0 <= j < |dropped| ==> acc[i].key != dropped[j].key
    requires |news| == |dropped|
    requires forall k :: 0 <= k < |news| ==> news[k] == Member(dropped[k].key, DropProto(dropped[k].value))
    ensures AssignAll(acc, news) == acc + DropMembers(dropped)
    decreases |news|
  {
    hide DropProto, AssignOwn;
    if news == [] {
      assert acc + [] == acc;
    } else {
      var m := news[0];
      var next := Assign(acc, m.key, m.value);
      if m.key != PROTO {
        AssignFresh(acc, m.key, m.value);
        assert next == acc + [m];
      }
      AssignDistinct(next, news[1..], dropped[1..]);
      if m.key != PROTO {
        assert acc + [m] + DropMembers(dropped[1..]) == acc + DropMembers(dropped);
      }
    }
  }

  /** The token of a literal whose text stands at `i`. */
  lemma LiteralReads(src: Text, i: nat, v: Value)
    requires v.Null? || v.Bool?
    requires Here(src, i, Print(v, [], []))
    ensures i < |src| && LexScalar(src, i) == Ok(Read(Prim(v), i + |Print(v, [], [])|))
    ensures src[i] != QUOTE && !IsBlank(src[i]) && !IsPunct(src[i])
  {
    var text := Print(v, [], []);
    HereAt(src, i, text, 0);
    assert src[i..i + |text|] == text;
    if v == Bool(false) {
      HereAt(src, i, text, 1);
      assert src[i..i + 4][0] == 102;
    }
    if v == Null && i + 5 <= |src| { assert src[i..i + 5][0] == 110; }
    if v == Null { assert src[i..i + 4][0] == 110; }
  }

  lemma LiteralsParse(v: Value)
    requires v.Null? || v.Bool?
    ensures Parses(Print(v, [], []), v)
  {
    hide LexScalar, LexString, Print;
    var text := Print(v, [], []);
    forall src: Text, i: nat | Here(src, i, text) && Ends(src, i + |text|)
      ensures GetAt(src, i) == Ok(Read(v, i + |text|))
    {
      LiteralReads(src, i, v);
    }
  }

  lemma BreakIsBlank(ws: Text, ind: Text)
    requires AllBlank(ws) && AllBlank(ind)
    ensures AllBlank(Break(ws, ind)) && AllBlank(Break(ws, ind + ws))
  {
  }

  function Dropped(members: seq<Member>): seq<Member> {
    seq(|members|, k requires 0 <= k < |members| => Member(members[k].key, DropProto(members[k].value)))
  }

  lemma MemberTexts(members: seq<Member>, ws: Text, ind: Text, k: nat)
    requires k < |members| && Parses(Print(members[k].value, ws, ind), DropProto(members[k].value))
    ensures MemberParses(PrintMembers(members, ws, ind)[k], Dropped(members)[k], ws)
  {
    hide Parses, Print, KeyPart, DropProto;
    var m := Dropped(members)[k];
    assert PrintMembers(members, ws, ind)[k] == KeyPart(m.key, ws) + Print(members[k].value, ws, ind);
  }

  lemma DroppedAssigned(members: seq<Member>)
    requires DistinctKeys(members)
    ensures AssignAll([], Dropped(members)) == DropMembers(members)
  {
    AssignDistinct([], Dropped(members), members);
    hide AssignAll, DropMembers;
    assert [] + DropMembers(members) == DropMembers(members);
  }

  lemma PrintedObject(members: seq<Member>, ws: Text, ind: Text)
    ensures Print(Obj(members), ws, ind) == Wrap(LBRACE, PrintMembers(members, ws, ind + ws), RBRACE, ws, ind)
    ensures DropProto(Obj(members)) == Obj(DropMembers(members)) && (members == [] ==> DropMembers(members) == [])
  {
  }

  lemma DroppedLength(members: seq<Member>)
    ensures |Dropped(members)| == |members|
  {
  }

  lemma MembersPrintParse(members: seq<Member>, ws: Text, ind: Text)
    requires DistinctKeys(members) && AllBlank(ws) && AllBlank(ind)
    requires forall k: nat :: k < |members| ==>
      MemberParses(PrintMembers(members, ws, ind + ws)[k], Dropped(members)[k], ws)
    ensures Parses(Print(Obj(members), ws, ind), DropProto(Obj(members)))
  {
    hide Parses, Print, PrintMembers, Bracketed, Break, AllBlank, MemberParses, AssignAll;
    hide DropMembers, DropProto, Dropped, DistinctKeys;
    assert |Dropped(members)| == |members| by { DroppedLength(members); }
    PrintedObject(members, ws, ind);
    BreakIsBlank(ws, ind);
    DroppedAssigned(members);
    if members == [] {
      EmptyObjectParses();
    } else {
      ObjectParses(PrintMembers(members, ws, ind + ws), Dropped(members), ws, Break(ws, ind + ws), Break(ws, ind));
    }
  }

  /** The main induction: every printed tree reads back, without its `__proto__` members. */
  lemma {:induction false} PrintParses(v: Value, ws: Text, ind: Text)
    requires Plain(v) && AllBlank(ws) && AllBlank(ind)
    ensures Parses(Print(v, ws, ind), DropProto(v))
    decreases v
  {
    var deeper := ind + ws;
    match v
    case Null => LiteralsParse(v);
    case Bool(_) => LiteralsParse(v);
    case Num(n) => DecimalParses(n);
    case Str(s) =>
      forall u ensures UnitReads(QuoteUnit(u), u) { QuoteUnitReads(u); }
      QuotedParses(QuoteUnit, s);
    case Arr(items) =>
      var parts := PrintItems(items, ws, deeper);
      forall k | 0 <= k < |items| ensures Parses(parts[k], DropItems(items)[k]) {
        PrintParses(items[k], ws, deeper);
      }
      if items == [] {
        EmptyArrayParses();
      } else {
        ArrayParses(parts, DropItems(items), Break(ws, deeper), Break(ws, ind));
      }
    case Obj(members) =>
      forall k: nat | k < |members|
        ensures MemberParses(PrintMembers(members, ws, deeper)[k], Dropped(members)[k], ws)
      {
        PrintParses(members[k].value, ws, deeper);
        MemberTexts(members, ws, deeper, k);
      }
      MembersPrintParse(members, ws, ind);
  }

  lemma ParseOf(text: Text, v: Value)
    requires Parses(text, v)
    ensures Parse(text) == Ok(v)
  {
    assert text[0..0 + |text|] == text;
    assert Here(text, 0, text) && Ends(text, 0 + |text|);
  }

  /** `DropProto` changes exactly the trees with a `__proto__` member. */
  lemma {:induction false} DropProtoIdentity(v: Value)
    ensures DropProto(v) == v <==> NoProto(v)
    decreases v
  {
    match v
    case Arr(items) =>
      forall k | 0 <= k < |items| ensures DropProto(items[k]) == items[k] <==> NoProto(items[k]) {
        DropProtoIdentity(items[k]);
      }
      if NoProto(v) { assert DropItems(items) == items; }
      if DropProto(v) == v {
        forall k | 0 <= k < |items| ensures NoProto(items[k]) { assert DropItems(items)[k] == items[k]; }
      }
    case Obj(members) =>
      forall k | 0 <= k < |members|
        ensures DropProto(members[k].value) == members[k].value <==> NoProto(members[k].value)
      {
        DropProtoIdentity(members[k].value);
      }
      DropMembersIdentity(members);
    case _ =>
  }

  lemma {:induction false} DropMembersIdentity(ms: seq<Member>)
    requires forall k :: 0 <= k < |ms| ==> (DropProto(ms[k].value) == ms[k].value <==> NoProto(ms[k].value))
    ensures |DropMembers(ms)| <= |ms|
    ensures DropMembers(ms) == ms <==> forall k :: 0 <= k < |ms| ==> ms[k].key != PROTO && NoProto(ms[k].value)
    decreases |ms|
  {
    if ms != [] {
      DropMembersIdentity(ms[1..]);
      var rest := DropMembers(ms[1..]);
      assert ms == [ms[0]] + ms[1..];
      if ms[0].key != PROTO {
        assert DropMembers(ms) == [Member(ms[0].key, DropProto(ms[0].value))] + rest;
        assert DropMembers(ms) == ms ==> DropMembers(ms)[0] == ms[0] && DropMembers(ms)[1..] == ms[1..];
      }
      assert forall k :: 1 <= k < |ms| ==> ms[k] == ms[1..][k - 1];
    }
  }

  /**
    Printing and parsing, compact or indented, gives back the tree without its
    `__proto__` members: the tree itself exactly when it has none.
   */
  lemma RoundTrip(v: Value, ws: Text)
    requires Plain(v) && AllBlank(ws)
    ensures Parse(Print(v, ws, [])) == Ok(DropProto(v))
    ensures Parse(Print(v, ws, [])) == Ok(v) <==> NoProto(v)
  {
    PrintParses(v, ws, []);
    ParseOf(Print(v, ws, []), DropProto(v));
    DropProtoIdentity(v);
  }
}
