/**
  The parser against the grammar: it accepts exactly the texts that denote a value, and
  returns that value.
 */
module JsonDenotes {
  import opened Wrappers
  import opened Texts
  import opened Json
  import opened JsonParse
  import opened JsonRoundTrip
  import opened JsonGrammar

  // ---------- strings ----------

  lemma HexDigits(c: int, d: int)
    ensures HexDigitIs(c, d) <==> IsHex(c) && d == HexValue(c)
  {
  }

  /** Four digits and their value are the grammar's. */
  lemma FourHexIs(src: Text, i: nat, c: int)
    requires i + 4 <= |src|
    ensures FourHexAre(src[i..i + 4], c) <==> FourHex(src, i) && c == HexCode(src, i)
  {
    var h := src[i..i + 4];
    forall k, d | 0 <= k < 4 ensures HexDigitIs(h[k], d) <==> IsHex(src[i + k]) && d == HexValue(src[i + k]) {
      HexDigits(h[k], d);
    }
    hide HexDigitIs, IsHex, HexValue;
    if FourHex(src, i) {
      assert HexDigitIs(h[0], HexValue(src[i + 0])) && HexDigitIs(h[1], HexValue(src[i + 1]));
      assert HexDigitIs(h[2], HexValue(src[i + 2])) && HexDigitIs(h[3], HexValue(src[i + 3]));
    }
  }

  /** The escapes of the grammar are those of the lexer. */
  lemma EscapeIs(e: int, c: int)
    ensures (exists k :: 0 <= k < |ESCAPES| && ESCAPES[k] == (e, c)) <==> Unescape(e) >= 0 && c == Unescape(e)
  {
    assert ESCAPES[0] == (34, 34) && ESCAPES[1] == (47, 47) && ESCAPES[2] == (92, 92) && ESCAPES[3] == (98, 8);
    assert ESCAPES[4] == (102, 12) && ESCAPES[5] == (110, 10) && ESCAPES[6] == (114, 13) && ESCAPES[7] == (116, 9);
  }

  /** One turn of the string lexer reads one string character. */
  lemma CharStep(src: Text, i: nat, acc: Text) returns (j: nat, c: CodeUnit)
    requires i < |src| && LexString(src, i, acc).Ok? && src[i] != 34
    ensures i < j <= |src| && CharAt(src, i, j, c) && LexString(src, i, acc) == LexString(src, j, acc + [c])
  {
    if src[i] == 92 {
      var e := CharCode(src, i + 1);
      if Unescape(e) >= 0 {
        EscapeIs(e, Unescape(e));
        j, c := i + 2, Unescape(e);
      } else {
        FourHexIs(src, i + 2, HexCode(src, i + 2));
        j, c := i + 6, HexCode(src, i + 2);
      }
    } else {
      j, c := i + 1, src[i];
    }
  }

  /** A string character is read in one turn of the string lexer. */
  lemma CharReads(src: Text, i: nat, j: nat, c: CodeUnit, acc: Text)
    requires j <= |src| && CharAt(src, i, j, c)
    ensures LexString(src, i, acc) == LexString(src, j, acc + [c]) && src[i] != 34
  {
    if src[i] == 92 {
      var e := src[i + 1];
      EscapeIs(e, c);
      if j == i + 6 {
        FourHexIs(src, i + 2, c);
        EscapeIs(e, Unescape(e));
      }
    }
  }

  lemma LexedAt(src: Text, i: nat, acc: Text)
    requires i <= |src| && LexString(src, i, acc).Ok?
    ensures i < |src| && (src[i] == 34 ==> LexString(src, i, acc) == Ok(Read(StrTok(acc), i + 1)))
  {
  }

  lemma {:induction false} StringSound(src: Text, i: nat, acc: Text) returns (s: Text)
    requires i <= |src| && LexString(src, i, acc).Ok?
    ensures var r := LexString(src, i, acc).value;
      r.item == StrTok(acc + s) && src[r.next - 1] == 34 && CharsAt(src, i, r.next - 1, s)
    decreases |src| - i
  {
    hide CharAt;
    LexedAt(src, i, acc);
    if src[i] == 34 {
      s := [];
      assert acc + s == acc;
    } else {
      hide LexString;
      var j, c := CharStep(src, i, acc);
      var rest := StringSound(src, j, acc + [c]);
      s := [c] + rest;
      assert acc + [c] + rest == acc + s && s[1..] == rest;
    }
  }

  lemma QuoteEnds(src: Text, j: nat, acc: Text)
    requires j < |src| && src[j] == 34
    ensures LexString(src, j, acc) == Ok(Read(StrTok(acc), j + 1))
  {
  }

  lemma {:induction false} StringComplete(src: Text, i: nat, j: nat, s: Text, acc: Text)
    requires j < |src| && CharsAt(src, i, j, s) && src[j] == 34
    ensures i <= j && LexString(src, i, acc) == Ok(Read(StrTok(acc + s), j + 1))
    decreases |s|
  {
    hide CharAt, LexString;
    if s == [] {
      assert acc + s == acc;
      QuoteEnds(src, j, acc);
    } else {
      var k :| i < k <= j && CharAt(src, i, k, s[0]) && CharsAt(src, k, j, s[1..]);
      CharReads(src, i, k, s[0], acc);
      StringComplete(src, k, j, s[1..], acc + [s[0]]);
      assert acc + [s[0]] + s[1..] == acc + s;
    }
  }

  // ---------- numbers ----------

  lemma DigitsSkip(src: Text, i: nat, j: nat)
    requires DigitsAt(src, i, j) && !IsDigit(CharCode(src, j))
    ensures SkipDigits(src, i) == j
    decreases j - i
  {
    if i + 1 < j { DigitsSkip(src, i + 1, j); }
  }

  lemma SkippedDigits(src: Text, i: nat)
    requires i <= |src| && SkipDigits(src, i) != i
    ensures DigitsAt(src, i, SkipDigits(src, i))
  {
  }

  lemma {:induction false} PlaceSnoc(t: Text, c: CodeUnit)
    ensures PlaceValue(t + [c]) == 10 * PlaceValue(t) + c - 48
    decreases |t|
  {
    if t == [] {
      assert t + [c] == [c] && [c][1..] == [];
    } else {
      assert (t + [c])[1..] == t[1..] + [c];
      PlaceSnoc(t[1..], c);
    }
  }

  /** Reading digits one after the other gives the number of their places. */
  lemma {:induction false} PlacesAre(t: Text)
    ensures DigitsValue(t) == PlaceValue(t)
    decreases |t|
  {
    if t != [] {
      PlacesAre(t[..|t| - 1]);
      PlaceSnoc(t[..|t| - 1], t[|t| - 1]);
      assert t[..|t| - 1] + [t[|t| - 1]] == t;
    }
  }

  /** The value that the source text of a number is coerced to. */
  lemma CoerceIs(src: Text, i: nat, a: nat, b: nat, c: nat, j: nat)
    requires i <= a <= b <= c <= j <= |src|
    requires SignAt(src, i, a) && IntegerAt(src, a, b) && FractionAt(src, b, c) && ExponentAt(src, c, j)
    ensures NumberParts(src, i, a, b, c, j, Coerce(src[i..j]))
  {
    var t := src[i..j];
    assert forall k :: 0 <= k < |t| ==> t[k] == src[i + k];
    if b < j {
      assert t[b - i] in t && t[b - i] == src[b];
    } else {
      assert forall k :: 0 <= k < |t| ==> t[k] == 45 || DigitUnit(t[k]);
      PlacesAre(src[a..b]);
      assert a > i ==> t[1..] == src[a..b];
      assert a == i ==> t == src[a..b];
    }
  }

  lemma FractionSound(src: Text, i: nat)
    requires i <= |src| && LexFraction(src, i).Ok?
    ensures FractionAt(src, i, LexFraction(src, i).value)
  {
    if CharCode(src, i) == 46 { SkippedDigits(src, i + 1); }
  }

  lemma ExponentSound(src: Text, i: nat)
    requires i <= |src| && LexExponent(src, i).Ok?
    ensures ExponentAt(src, i, LexExponent(src, i).value)
  {
    var e, sign := CharCode(src, i), CharCode(src, i + 1);
    if e == 101 || e == 69 {
      SkippedDigits(src, if sign == 43 || sign == 45 then i + 2 else i + 1);
    }
  }

  lemma NumberSound(src: Text, i: nat, a: nat)
    requires SignAt(src, i, a) && IsDigit(CharCode(src, a)) && LexNumber(src, i, a).Ok?
    ensures var r := LexNumber(src, i, a).value; r.item.Prim? && NumberAt(src, i, r.next, r.item.v)
  {
    hide LexFraction, LexExponent, Coerce, NumberParts;
    var b := SkipDigits(src, a);
    SkippedDigits(src, a);
    IntegerSound(src, a);
    FractionSound(src, b);
    var c := LexFraction(src, b).value;
    ExponentSound(src, c);
    var j := LexExponent(src, c).value;
    CoerceIs(src, i, a, b, c, j);
  }

  lemma IntegerSound(src: Text, a: nat)
    requires IsDigit(CharCode(src, a)) && !(src[a] == 48 && IsDigit(CharCode(src, a + 1)))
    ensures IntegerAt(src, a, SkipDigits(src, a))
  {
    SkippedDigits(src, a);
  }

  lemma FractionComplete(src: Text, i: nat, j: nat)
    requires i <= j <= |src| && FractionAt(src, i, j) && !IsDigit(CharCode(src, j))
    requires i == j ==> CharCode(src, j) != 46
    ensures LexFraction(src, i) == Ok(j)
  {
    if i < j { DigitsSkip(src, i + 1, j); }
  }

  lemma ExponentComplete(src: Text, i: nat, j: nat)
    requires i <= j <= |src| && ExponentAt(src, i, j) && !IsDigit(CharCode(src, j))
    requires i == j ==> CharCode(src, j) != 101 && CharCode(src, j) != 69
    ensures LexExponent(src, i) == Ok(j)
  {
    if i < j {
      if DigitsAt(src, i + 1, j) { DigitsSkip(src, i + 1, j); } else { DigitsSkip(src, i + 2, j); }
    }
  }

  lemma NumberComplete(src: Text, i: nat, j: nat, v: Value)
    requires NumberAt(src, i, j, v) && Ends(src, j)
    ensures i < |src| && LexScalar(src, i) == Ok(Read(Prim(v), j))
    ensures !IsBlank(src[i]) && !IsPunct(src[i]) && src[i] != 34
  {
    hide LexFraction, LexExponent, Coerce, SkipDigits;
    var a, b, c :| NumberParts(src, i, a, b, c, j, v);
    CoerceIs(src, i, a, b, c, j);
    assert IsDigit(CharCode(src, a));
    assert !IsDigit(CharCode(src, b)) && !IsDigit(CharCode(src, c));
    DigitsSkip(src, a, b);
    FractionComplete(src, b, c);
    ExponentComplete(src, c, j);
  }

  // ---------- objects ----------

  lemma ProtoIs(key: Text)
    ensures Is(key, "__proto__") <==> key == PROTO
  {
    var w := "__proto__";
    assert forall k :: 0 <= k < |w| ==> w[k] as int == PROTO[k];
  }

  lemma {:induction false} KeysAreDistinct(ms: seq<Member>)
    ensures forall a, b :: 0 <= a < b < |KeysOf(ms)| ==> KeysOf(ms)[a] != KeysOf(ms)[b]
    decreases |ms|
  {
    if ms != [] { KeysAreDistinct(ms[..|ms| - 1]); }
  }

  lemma {:induction false} AssignAllSnoc(acc: seq<Member>, ms: seq<Member>, m: Member)
    ensures AssignAll(acc, ms + [m]) == Assign(AssignAll(acc, ms), m.key, m.value)
    decreases |ms|
  {
    hide Assign;
    if ms == [] {
      assert ms + [m] == [m] && [m][1..] == [];
    } else {
      assert (ms + [m])[1..] == ms[1..] + [m];
      AssignAllSnoc(Assign(acc, ms[0].key, ms[0].value), ms[1..], m);
    }
  }

  /** Assigning an own key replaces its value in place. */
  lemma {:induction false} AssignKnown(acc: seq<Member>, key: Text, value: Value, n: nat)
    requires n < |acc| && acc[n].key == key && forall k :: 0 <= k < n ==> acc[k].key != key
    ensures AssignOwn(acc, key, value) == acc[n := Member(key, value)]
    decreases |acc|
  {
    if n > 0 {
      AssignKnown(acc[1..], key, value, n - 1);
      assert acc[n := Member(key, value)] == [acc[0]] + acc[1..][n - 1 := Member(key, value)];
    }
  }

  lemma ObjectSnoc(ms: seq<Member>, m: Member)
    ensures Assign(ObjectOf(ms), m.key, m.value) == ObjectOf(ms + [m])
  {
    var old_, new_, keys := ObjectOf(ms), ObjectOf(ms + [m]), KeysOf(ms);
    assert (ms + [m])[..|ms|] == ms;
    KeysAreDistinct(ms);
    ProtoIs(m.key);
    if m.key != PROTO {
      if m.key in keys {
        var n :| 0 <= n < |keys| && keys[n] == m.key;
        AssignKnown(old_, m.key, m.value, n);
        assert old_[n := m] == new_;
      } else {
        AssignFresh(old_, m.key, m.value);
        assert old_ + [m] == new_;
      }
    } else {
      forall k | 0 <= k < |keys| ensures keys[k] != PROTO { NoProtoKey(ms, k); }
      assert old_ == new_;
    }
  }

  lemma {:induction false} NoProtoKey(ms: seq<Member>, k: nat)
    requires k < |KeysOf(ms)|
    ensures KeysOf(ms)[k] != PROTO
    decreases |ms|
  {
    ProtoIs(ms[|ms| - 1].key);
    if k < |KeysOf(ms[..|ms| - 1])| { NoProtoKey(ms[..|ms| - 1], k); }
  }

  /** Assigning the members one after the other makes the object they stand for. */
  lemma {:induction false} AssignedIsObject(ms: seq<Member>)
    ensures AssignAll([], ms) == ObjectOf(ms)
    decreases |ms|
  {
    if ms == [] {
      assert ObjectOf(ms) == [];
    } else {
      var init, m := ms[..|ms| - 1], ms[|ms| - 1];
      assert init + [m] == ms;
      AssignedIsObject(init);
      AssignAllSnoc([], init, m);
      ObjectSnoc(init, m);
    }
  }

  // ---------- tokens ----------

  /** The token stands there. */
  ghost predicate TokenAt(src: Text, i: nat, j: nat, t: Token) {
    match t
    case End => i == j == |src|
    case Punct(c) => j == i + 1 && j <= |src| && src[i] == c && IsPunct(c)
    case StrTok(s) => StringAt(src, i, j, s)
    case Prim(v) => ValueAt(src, i, j, v) && !v.Str? && !v.Arr? && !v.Obj?
  }

  lemma WordIs(src: Text, i: nat, j: nat)
    requires i <= j <= |src|
    ensures WordAt(src, i, j, "true") <==> src[i..j] == [116, 114, 117, 101]
    ensures WordAt(src, i, j, "false") <==> src[i..j] == [102, 97, 108, 115, 101]
    ensures WordAt(src, i, j, "null") <==> src[i..j] == [110, 117, 108, 108]
  {
  }

  lemma ScalarSound(src: Text, i: nat)
    requires i < |src| && LexScalar(src, i).Ok?
    ensures var r := LexScalar(src, i).value; TokenAt(src, i, r.next, r.item)
  {
    hide LexNumber, WordAt, NumberAt;
    if i + 4 <= |src| { WordIs(src, i, i + 4); }
    if i + 5 <= |src| { WordIs(src, i, i + 5); }
    var a := if src[i] == DASH then i + 1 else i;
    if IsDigit(CharCode(src, a)) { NumberSound(src, i, a); }
  }

  lemma StringTokenSound(src: Text, i: nat)
    requires i < |src| && src[i] == 34 && LexString(src, i + 1, []).Ok?
    ensures var r := LexString(src, i + 1, []).value; TokenAt(src, i, r.next, r.item)
  {
    hide LexString, CharsAt;
    var s := StringSound(src, i + 1, []);
    assert [] + s == s;
    CharsForward(src, i + 1, LexString(src, i + 1, []).value.next - 1, s);
  }

  lemma {:induction false} CharsForward(src: Text, i: nat, j: nat, s: Text)
    requires CharsAt(src, i, j, s)
    ensures i <= j
    decreases |s|
  {
    if s != [] {
      var k :| i < k <= j && CharAt(src, i, k, s[0]) && CharsAt(src, k, j, s[1..]);
    }
  }

  /** What the lexer returns stands behind white space. */
  lemma {:induction false} LexSound(src: Text, i: nat) returns (a: nat)
    requires i <= |src| && Lex(src, i).Ok?
    ensures var r := Lex(src, i).value; White(src, i, a) && TokenAt(src, a, r.next, r.item) && a <= r.next
    decreases |src| - i
  {
    hide LexString, LexScalar, TokenAt;
    a := i;
    if i == |src| {
      assert TokenAt(src, i, i, End) by { EndStands(src); }
    } else if IsBlank(src[i]) {
      a := LexSound(src, i + 1);
    } else if IsPunct(src[i]) {
      PunctStands(src, i);
    } else if src[i] == QUOTE {
      StringTokenSound(src, i);
    } else {
      ScalarSound(src, i);
    }
  }

  lemma EndStands(src: Text)
    ensures TokenAt(src, |src|, |src|, End)
  {
  }

  lemma PunctStands(src: Text, i: nat)
    requires i < |src| && IsPunct(src[i])
    ensures TokenAt(src, i, i + 1, Punct(src[i]))
  {
  }

  lemma {:induction false} WhiteSkip(src: Text, i: nat, a: nat)
    requires White(src, i, a)
    ensures Lex(src, i) == Lex(src, a)
    decreases a - i
  {
    if i < a { WhiteSkip(src, i + 1, a); }
  }

  lemma PunctLexes(src: Text, i: nat, a: nat)
    requires White(src, i, a) && a < |src| && IsPunct(src[a])
    ensures Lex(src, i) == Ok(Read(Punct(src[a]), a + 1))
  {
    WhiteSkip(src, i, a);
  }

  lemma StringLexes(src: Text, i: nat, a: nat, j: nat, s: Text)
    requires White(src, i, a) && StringAt(src, a, j, s)
    ensures Lex(src, i) == Ok(Read(StrTok(s), j))
  {
    WhiteSkip(src, i, a);
    StringComplete(src, a + 1, j - 1, s, []);
    assert [] + s == s;
    hide LexString;
  }

  // ---------- accepted texts denote what they are read as ----------

  /** The elements from `i` up to `j`: from the first, or from behind one. */
  ghost predicate ItemsFollow(src: Text, i: nat, j: nat, first: bool, items: seq<Value>) {
    if items == [] then White(src, i, j)
    else if first then ItemsAt(src, i, j, items)
    else exists k :: i <= k < j <= |src| && White(src, i, k) && src[k] == 44 && ItemsAt(src, k + 1, j, items)
  }

  lemma ItemsCons(src: Text, i: nat, a: nat, b: nat, j: nat, v: Value, items: seq<Value>)
    requires i <= a <= b <= j && White(src, i, a) && ValueAt(src, a, b, v) && ItemsFollow(src, b, j, false, items)
    ensures ItemsAt(src, i, j, [v] + items)
  {
    hide ValueAt;
    assert ([v] + items)[1..] == items;
    if items == [] {
      assert PaddedAt(src, i, j, v);
    } else {
      var k :| b <= k < j <= |src| && White(src, b, k) && src[k] == 44 && ItemsAt(src, k + 1, j, items);
      assert PaddedAt(src, i, k, v);
    }
  }

  ghost predicate MembersFollow(src: Text, i: nat, j: nat, first: bool, ms: seq<Member>) {
    if ms == [] then White(src, i, j)
    else if first then MembersAt(src, i, j, ms)
    else exists k :: i <= k < j <= |src| && White(src, i, k) && src[k] == 44 && MembersAt(src, k + 1, j, ms)
  }

  /** A member that stands with its key at `a`, its colon at `c` and its value at `d`. */
  ghost predicate MemberParts(src: Text, i: nat, a: nat, b: nat, c: nat, d: nat, e: nat, m: Member) {
    && i <= a <= b <= c < d <= e <= |src| && White(src, i, a) && StringAt(src, a, b, m.key) && White(src, b, c)
    && src[c] == 58 && White(src, c + 1, d) && ValueAt(src, d, e, m.value)
  }

  lemma MemberStands(src: Text, i: nat, a: nat, b: nat, c: nat, d: nat, e: nat, j: nat, m: Member)
    requires MemberParts(src, i, a, b, c, d, e, m) && White(src, e, j)
    ensures MemberAt(src, i, j, m)
  {
    hide ValueAt, StringAt;
    assert PaddedAt(src, c + 1, j, m.value);
  }

  lemma MembersCons(
    src: Text, i: nat, a: nat, b: nat, c: nat, d: nat, e: nat, j: nat, m: Member, ms: seq<Member>)
    requires MemberParts(src, i, a, b, c, d, e, m) && e <= j && MembersFollow(src, e, j, false, ms)
    ensures MembersAt(src, i, j, [m] + ms)
  {
    assert i <= e;
    hide MemberParts, MemberAt;
    assert ([m] + ms)[1..] == ms;
    if ms == [] {
      MemberStands(src, i, a, b, c, d, e, j, m);
    } else {
      var k :| e <= k < j <= |src| && White(src, e, k) && src[k] == 44 && MembersAt(src, k + 1, j, ms);
      MemberStands(src, i, a, b, c, d, e, k, m);
    }
  }

  lemma {:induction false} GetSound(src: Text, t: Token, a: nat, i: nat)
    requires a <= i <= |src| && TokenAt(src, a, i, t) && Get(src, t, i).Ok?
    ensures var r := Get(src, t, i).value; i <= r.next <= |src| && ValueAt(src, a, r.next, r.item)
    decreases |src| - i, if t == End then 0 else 2
  {
    hide Lex, GetItems, GetMembers, NumberAt, StringAt, WordAt, ItemsAt, MembersAt, ObjectOf;
    if t.Punct? && t.c == LBRACKET {
      var items := GetItemsSound(src, i, []);
      assert [] + items == items;
    } else if t.Punct? {
      var ms := GetMembersSound(src, i, [], false);
      AssignedIsObject(ms);
    }
  }

  /** The token that begins an element, behind a comma unless it is the first. */
  lemma ElementSound(src: Text, i: nat, close: CodeUnit, more: bool) returns (k: nat, a: nat)
    requires i <= |src| && Lex(src, i).Ok? && NextElement(src, Lex(src, i).value, close, more).Ok?
    ensures var r := NextElement(src, Lex(src, i).value, close, more).value;
      && TokenAt(src, a, r.next, r.item) && k <= a <= r.next <= |src| && White(src, k, a)
      && (r.item != End ==> i < r.next)
      && if more then i < k <= |src| && White(src, i, k - 1) && src[k - 1] == 44 else k == i
  {
    hide Lex, TokenAt;
    a := LexSound(src, i);
    k := i;
    if more {
      k := a + 1;
      CommaStands(src, a, Lex(src, i).value.next);
      a := LexSound(src, k);
    }
  }

  lemma CommaStands(src: Text, a: nat, n: nat)
    requires TokenAt(src, a, n, Punct(COMMA))
    ensures n == a + 1 <= |src| && src[a] == 44
  {
  }

  lemma {:induction false} GetItemsSound(src: Text, i: nat, acc: seq<Value>) returns (items: seq<Value>)
    requires i <= |src| && GetItems(src, i, acc).Ok?
    ensures var r := GetItems(src, i, acc).value;
      && i < r.next <= |src| && src[r.next - 1] == 93 && r.item == Arr(acc + items)
      && ItemsFollow(src, i, r.next - 1, acc == [], items)
    decreases |src| - i, 1
  {
    hide Lex, Get, TokenAt, ValueAt, ItemsAt, NextElement;
    var t := Lex(src, i).value;
    if t.item == Punct(RBRACKET) {
      items := [];
      var a := LexSound(src, i);
      BracketStands(src, a, t.next, RBRACKET);
      assert acc + [] == acc;
    } else {
      var first := NextElement(src, t, RBRACKET, acc != []).value;
      var k, a := ElementSound(src, i, RBRACKET, acc != []);
      var v := Get(src, first.item, first.next).value;
      GetSound(src, first.item, a, first.next);
      Advances(src, first.item, a, first.next);
      var rest := GetItemsSound(src, v.next, acc + [v.item]);
      items := [v.item] + rest;
      assert acc + [v.item] + rest == acc + items;
      ItemsCons(src, k, a, v.next, GetItems(src, i, acc).value.next - 1, v.item, rest);
    }
  }

  lemma BracketStands(src: Text, a: nat, n: nat, c: CodeUnit)
    requires TokenAt(src, a, n, Punct(c))
    ensures n == a + 1 <= |src| && src[a] == c
  {
  }

  /** A token that begins a value is not empty. */
  lemma Advances(src: Text, t: Token, a: nat, n: nat)
    requires TokenAt(src, a, n, t) && a <= n <= |src| && Get(src, t, n).Ok?
    ensures a < n
  {
    hide GetItems, GetMembers;
  }

  lemma {:induction false} GetMembersSound(src: Text, i: nat, acc: seq<Member>, more: bool) returns (ms: seq<Member>)
    requires i <= |src| && GetMembers(src, i, acc, more).Ok?
    ensures var r := GetMembers(src, i, acc, more).value;
      && i < r.next <= |src| && src[r.next - 1] == 125 && r.item == Obj(AssignAll(acc, ms))
      && MembersFollow(src, i, r.next - 1, !more, ms)
    decreases |src| - i, 1
  {
    hide Lex, Get, TokenAt, ValueAt, MembersAt, NextElement, Assign, MemberParts, StringAt;
    var t := Lex(src, i).value;
    if t.item == Punct(RBRACE) {
      ms := [];
      var a := LexSound(src, i);
      BracketStands(src, a, t.next, RBRACE);
    } else {
      var key := NextElement(src, t, RBRACE, more).value;
      var k, a := ElementSound(src, i, RBRACE, more);
      var colon := Lex(src, key.next).value;
      var c := LexSound(src, key.next);
      BracketStands(src, c, colon.next, COLON);
      var start := Lex(src, colon.next).value;
      var d := LexSound(src, colon.next);
      var v := Get(src, start.item, start.next).value;
      GetSound(src, start.item, d, start.next);
      var m := Member(key.item.s, v.item);
      var rest := GetMembersSound(src, v.next, Assign(acc, m.key, m.value), true);
      ms := [m] + rest;
      assert ms[1..] == rest;
      KeyStands(src, a, key.next, key.item.s);
      PartsStand(src, k, a, key.next, c, d, v.next, m);
      MembersCons(src, k, a, key.next, c, d, v.next, GetMembers(src, i, acc, more).value.next - 1, m, rest);
    }
  }

  lemma KeyStands(src: Text, a: nat, n: nat, s: Text)
    requires TokenAt(src, a, n, StrTok(s))
    ensures a <= n && StringAt(src, a, n, s)
  {
  }

  lemma PartsStand(src: Text, i: nat, a: nat, b: nat, c: nat, d: nat, e: nat, m: Member)
    requires i <= a <= b <= c < d <= e <= |src| && White(src, i, a) && StringAt(src, a, b, m.key) && White(src, b, c)
    requires src[c] == 58 && White(src, c + 1, d) && ValueAt(src, d, e, m.value)
    ensures MemberParts(src, i, a, b, c, d, e, m)
  {
  }

  /** What an accepted text is read as, it denotes. */
  lemma AcceptedDenotes(src: Text)
    requires Parse(src).Ok?
    ensures Denotes(src, Parse(src).value)
  {
    hide Lex, Get, TokenAt, ValueAt;
    var t := Lex(src, 0).value;
    var a := LexSound(src, 0);
    var v := Get(src, t.item, t.next).value;
    GetSound(src, t.item, a, t.next);
    var b := LexSound(src, v.next);
    EndIs(src, b, Lex(src, v.next).value.next);
  }

  lemma EndIs(src: Text, b: nat, n: nat)
    requires TokenAt(src, b, n, End)
    ensures b == |src|
  {
  }

  // ---------- texts that denote a value are accepted ----------

  /** Behind a value stands white space, and then a comma, a closing bracket or the end. */
  lemma EndsBehind(src: Text, b: nat, j: nat)
    requires White(src, b, j) && (j == |src| || src[j] == 44 || src[j] == 93 || src[j] == 125)
    ensures Ends(src, b)
  {
  }

  lemma WordReads(src: Text, i: nat, j: nat, v: Value)
    requires ValueAt(src, i, j, v) && (v.Null? || v.Bool?)
    ensures i < |src| && LexScalar(src, i) == Ok(Read(Prim(v), j))
    ensures !IsBlank(src[i]) && !IsPunct(src[i]) && src[i] != 34
  {
    hide LexNumber, WordAt;
    assert WordAt(src, i, j, if v.Null? then "null" else if v.b then "true" else "false");
    WordIs(src, i, j) by { WordBounds(src, i, j, v); }
    WordBounds(src, i, j, v);
    assert src[i] == src[i..j][0];
    if v.Null? && i + 5 <= |src| { assert src[i..i + 5][0] == src[i]; }
    if v.Null? { assert src[i..i + 4][0] == src[i]; }
    if v == Bool(false) { assert src[i..i + 4][0] == src[i]; }
  }

  lemma WordBounds(src: Text, i: nat, j: nat, v: Value)
    requires ValueAt(src, i, j, v) && (v.Null? || v.Bool?)
    ensures i <= j <= |src| && j == i + (if v == Bool(false) then 5 else 4)
  {
  }

  /** A literal or a number is read as one token. */
  lemma ScalarComplete(src: Text, i: nat, j: nat, v: Value)
    requires ValueAt(src, i, j, v) && Ends(src, j) && !v.Str? && !v.Arr? && !v.Obj?
    ensures i < |src| && LexScalar(src, i) == Ok(Read(Prim(v), j))
    ensures !IsBlank(src[i]) && !IsPunct(src[i]) && src[i] != 34
  {
    hide LexScalar, NumberAt;
    if v.Num? || v.Float? { NumberComplete(src, i, j, v); } else { WordReads(src, i, j, v); }
  }

  lemma ScalarReads(src: Text, i: nat, a: nat, j: nat, v: Value)
    requires White(src, i, a) && ValueAt(src, a, j, v) && Ends(src, j) && !v.Str? && !v.Arr? && !v.Obj?
    ensures GetAt(src, i) == Ok(Read(v, j))
  {
    ScalarComplete(src, a, j, v);
    WhiteSkip(src, i, a);
    hide LexScalar, LexString, ValueAt;
  }

  lemma StringReadsAt(src: Text, i: nat, a: nat, j: nat, s: Text)
    requires White(src, i, a) && StringAt(src, a, j, s)
    ensures GetAt(src, i) == Ok(Read(Str(s), j))
  {
    hide Lex, StringAt;
    StringLexes(src, i, a, j, s);
  }

  /** White space, then a value: it is read, and what stands behind it is not looked at. */
  lemma {:induction false} ValueReadsAt(src: Text, i: nat, a: nat, j: nat, v: Value)
    requires White(src, i, a) && ValueAt(src, a, j, v) && Ends(src, j) && i <= j <= |src|
    ensures GetAt(src, i) == Ok(Read(v, j))
    decreases j - a, 0
  {
    match v
    case Str(s) => StringReadsAt(src, i, a, j, s);
    case Arr(items) => ArrayReadsAt(src, i, a, j, items);
    case Obj(members) =>
      var ms :| members == ObjectOf(ms)
                && if ms == [] then White(src, a + 1, j - 1) else MembersAt(src, a + 1, j - 1, ms);
      AssignedIsObject(ms);
      ObjectReadsAt(src, i, a, j, ms);
    case _ => ScalarReads(src, i, a, j, v);
  }

  lemma {:induction false} ArrayReadsAt(src: Text, i: nat, a: nat, j: nat, items: seq<Value>)
    requires White(src, i, a) && a + 2 <= j <= |src| && src[a] == 91 && src[j - 1] == 93
    requires if items == [] then White(src, a + 1, j - 1) else ItemsAt(src, a + 1, j - 1, items)
    ensures GetAt(src, i) == Ok(Read(Arr(items), j))
    decreases j - a - 1, 4
  {
    hide Lex, ItemsAt, GetItems;
    PunctLexes(src, i, a);
    if items == [] {
      ItemsEndAt(src, a + 1, j - 1, []);
    } else {
      ItemsReadAt(src, a + 1, a + 1, j - 1, [], items);
      assert [] + items == items;
    }
  }

  lemma ItemsEndAt(src: Text, i: nat, j: nat, acc: seq<Value>)
    requires White(src, i, j) && j < |src| && src[j] == 93
    ensures GetItems(src, i, acc) == Ok(Read(Arr(acc), j + 1))
  {
    hide Lex, Get;
    PunctLexes(src, i, j);
  }

  /** The elements from `i` on, read from `h`: from a comma there unless it is the first. */
  lemma {:induction false} ItemsReadAt(src: Text, h: nat, i: nat, j: nat, acc: seq<Value>, items: seq<Value>)
    requires items != [] && ItemsAt(src, i, j, items) && j < |src| && src[j] == 93 && i <= j && h <= |src|
    requires if acc == [] then h == i else Lex(src, h) == Ok(Read(Punct(COMMA), i))
    ensures GetItems(src, h, acc) == Ok(Read(Arr(acc + items), j + 1))
    decreases j - i, 3
  {
    hide Lex, Get, GetAt, GetItems, ValueAt, ItemsAt, White;
    var k, a, b := FirstItem(src, i, j, items);
    ValueReadsAt(src, i, a, b, items[0]);
    ItemsStep(src, h, acc, i, items[0], b);
    var next := acc + [items[0]];
    if |items| == 1 {
      ItemsEndAt(src, b, j, next);
      assert next == acc + items;
    } else {
      PunctLexes(src, b, k);
      ItemsReadAt(src, b, k + 1, j, next, items[1..]);
      assert next + items[1..] == acc + items;
    }
  }

  lemma Unpadded(src: Text, i: nat, j: nat, v: Value) returns (a: nat, b: nat)
    requires PaddedAt(src, i, j, v)
    ensures i <= a <= b <= j && White(src, i, a) && White(src, b, j) && ValueAt(src, a, b, v)
  {
    hide ValueAt;
    a, b :| i <= a <= b <= j && White(src, i, a) && White(src, b, j) && ValueAt(src, a, b, v);
  }

  /** Where the first element stands: its value from `a` to `b`, and the comma or the end at `k`. */
  lemma FirstItem(src: Text, i: nat, j: nat, items: seq<Value>) returns (k: nat, a: nat, b: nat)
    requires items != [] && ItemsAt(src, i, j, items) && j < |src| && src[j] == 93 && i <= j
    ensures i <= a <= b <= k <= j && White(src, i, a) && ValueAt(src, a, b, items[0])
    ensures White(src, b, k) && Ends(src, b)
    ensures if |items| == 1 then k == j else k < j && src[k] == 44 && ItemsAt(src, k + 1, j, items[1..])
  {
    hide ValueAt, PaddedAt;
    k := j;
    if |items| > 1 {
      k :| i <= k < j <= |src| && src[k] == 44 && PaddedAt(src, i, k, items[0]) && ItemsAt(src, k + 1, j, items[1..]);
    }
    a, b := Unpadded(src, i, k, items[0]);
    EndsBehind(src, b, k);
  }

  lemma {:induction false} ObjectReadsAt(src: Text, i: nat, a: nat, j: nat, ms: seq<Member>)
    requires White(src, i, a) && a + 2 <= j <= |src| && src[a] == 123 && src[j - 1] == 125
    requires if ms == [] then White(src, a + 1, j - 1) else MembersAt(src, a + 1, j - 1, ms)
    ensures GetAt(src, i) == Ok(Read(Obj(AssignAll([], ms)), j))
    decreases j - a - 1, 4
  {
    hide Lex, MembersAt, GetMembers;
    PunctLexes(src, i, a);
    if ms == [] {
      MembersEndAt(src, a + 1, j - 1, [], false);
    } else {
      MembersReadAt(src, a + 1, a + 1, j - 1, [], false, ms);
    }
  }

  lemma MembersEndAt(src: Text, i: nat, j: nat, acc: seq<Member>, more: bool)
    requires White(src, i, j) && j < |src| && src[j] == 125
    ensures GetMembers(src, i, acc, more) == Ok(Read(Obj(acc), j + 1))
  {
    hide Lex, Get;
    PunctLexes(src, i, j);
  }

  /** The members from `i` on, read from `h`: from a comma there unless it is the first. */
  lemma {:induction false} MembersReadAt(
    src: Text, h: nat, i: nat, j: nat, acc: seq<Member>, more: bool, ms: seq<Member>)
    requires ms != [] && MembersAt(src, i, j, ms) && j < |src| && src[j] == 125 && i <= j && h <= |src|
    requires if more then Lex(src, h) == Ok(Read(Punct(COMMA), i)) else h == i
    ensures GetMembers(src, h, acc, more) == Ok(Read(Obj(AssignAll(acc, ms)), j + 1))
    decreases j - i, 3
  {
    hide Lex, Get, GetAt, GetMembers, ValueAt, MembersAt, White, StringAt, Assign;
    var k, a, b, c, d, e := FirstMember(src, i, j, ms);
    StringLexes(src, i, a, b, ms[0].key);
    PunctLexes(src, b, c);
    ValueReadsAt(src, c + 1, d, e, ms[0].value);
    MembersStep(src, h, acc, more, i, ms[0].key, b, c + 1, ms[0].value, e);
    var next := Assign(acc, ms[0].key, ms[0].value);
    if |ms| == 1 {
      MembersEndAt(src, e, j, next, true);
      assert ms[1..] == [];
    } else {
      PunctLexes(src, e, k);
      MembersReadAt(src, e, k + 1, j, next, true, ms[1..]);
    }
  }

  lemma MemberOf(src: Text, i: nat, j: nat, m: Member) returns (a: nat, b: nat, c: nat, d: nat, e: nat)
    requires MemberAt(src, i, j, m)
    ensures i <= a <= b <= c < d <= e <= j <= |src| && White(src, i, a) && StringAt(src, a, b, m.key)
    ensures White(src, b, c) && src[c] == 58 && White(src, c + 1, d) && ValueAt(src, d, e, m.value) && White(src, e, j)
  {
    hide ValueAt, StringAt, PaddedAt;
    a, b, c :| i <= a <= b <= c < j <= |src| && src[c] == 58 && White(src, i, a) && StringAt(src, a, b, m.key)
               && White(src, b, c) && PaddedAt(src, c + 1, j, m.value);
    d, e := Unpadded(src, c + 1, j, m.value);
  }

  lemma FirstMember(src: Text, i: nat, j: nat, ms: seq<Member>)
    returns (k: nat, a: nat, b: nat, c: nat, d: nat, e: nat)
    requires ms != [] && MembersAt(src, i, j, ms) && j < |src| && src[j] == 125 && i <= j
    ensures i <= a <= b <= c < d <= e <= k <= j && White(src, i, a) && StringAt(src, a, b, ms[0].key)
    ensures White(src, b, c) && src[c] == 58 && White(src, c + 1, d) && ValueAt(src, d, e, ms[0].value)
    ensures White(src, e, k) && Ends(src, e)
    ensures if |ms| == 1 then k == j else k < j && src[k] == 44 && MembersAt(src, k + 1, j, ms[1..])
  {
    hide ValueAt, StringAt, MemberAt;
    k := j;
    if |ms| > 1 {
      k :| i <= k < j <= |src| && src[k] == 44 && MemberAt(src, i, k, ms[0]) && MembersAt(src, k + 1, j, ms[1..]);
    }
    a, b, c, d, e := MemberOf(src, i, k, ms[0]);
    EndsBehind(src, e, k);
  }

  lemma DenotedIsAccepted(src: Text, v: Value)
    requires Denotes(src, v)
    ensures Parse(src) == Ok(v)
  {
    hide Lex, GetAt, ValueAt;
    var a, b :| 0 <= a <= b <= |src| && White(src, 0, a) && White(src, b, |src|) && ValueAt(src, a, b, v);
    EndsBehind(src, b, |src|);
    ValueReadsAt(src, 0, a, b, v);
    WhiteSkip(src, b, |src|);
    EndLexes(src);
  }

  lemma EndLexes(src: Text)
    ensures Lex(src, |src|) == Ok(Read(End, |src|))
  {
  }

  /** The parser returns a value exactly for the texts that denote it by the grammar, and an error for all others. */
  lemma ParsesExactlyWhatItDenotes(src: Text, v: Value)
    ensures Parse(src) == Ok(v) <==> Denotes(src, v)
    ensures Parse(src).Err? <==> forall w :: !Denotes(src, w)
  {
    hide Parse, Denotes;
    if Parse(src).Ok? { AcceptedDenotes(src); }
    forall w | Denotes(src, w) ensures Parse(src) == Ok(w) { DenotedIsAccepted(src, w); }
  }
}
