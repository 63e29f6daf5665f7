/**
  The text that is printed, line by line: what stands on each line, how deep it is
  indented, and where the commas are; and the exact text of strings and numbers.
 */
module JsonLayout {
  import opened Wrappers
  import opened Texts
  import opened Json
  import opened JsonRoundTrip
  import opened JsonGrammar
  import opened JsonDenotes

  // ---------- strings and numbers ----------

  /** The units with a two-character escape, and its letter. */
  const SHORT_ESCAPES: seq<(int, int)> := [(34, 34), (92, 92), (8, 98), (12, 102), (10, 110), (13, 114), (9, 116)]

  /**
    A unit is printed as its two-character escape if it has one, as `\u00` and two hexadecimal
    digits in lower case if it is another control character, and else as itself.
   */
  lemma UnitIsPrintedAs(c: CodeUnit)
    ensures forall k :: 0 <= k < |SHORT_ESCAPES| && SHORT_ESCAPES[k].0 == c ==> QuoteUnit(c) == [92, SHORT_ESCAPES[k].1]
    ensures (forall k :: 0 <= k < |SHORT_ESCAPES| ==> SHORT_ESCAPES[k].0 != c) ==>
      if c >= 32 then QuoteUnit(c) == [c]
      else
        && |QuoteUnit(c)| == 6 && Is(QuoteUnit(c)[..4], "\\u00")
        && QuoteUnit(c)[4] == LOWER_HEX[c / 16] as int && QuoteUnit(c)[5] == LOWER_HEX[c % 16] as int
  {
    assert SHORT_ESCAPES[0].0 == 34 && SHORT_ESCAPES[1].0 == 92 && SHORT_ESCAPES[2].0 == 8 && SHORT_ESCAPES[3].0 == 12;
    assert SHORT_ESCAPES[4].0 == 10 && SHORT_ESCAPES[5].0 == 13 && SHORT_ESCAPES[6].0 == 9;
    if c < 32 { ControlEscape(c); }
  }

  /** An integer is printed without leading zeros, with a minus sign exactly when it is negative. */
  lemma IntegerIsPrintedAs(n: int)
    ensures var t := Decimal(n);
      && t != [] && (t[0] == 45 <==> n < 0)
      && var digits := if n < 0 then t[1..] else t;
         && DigitsAt(digits, 0, |digits|) && (digits[0] == 48 ==> digits == [48])
         && PlaceValue(digits) == if n < 0 then -n else n
  {
    var m := if n < 0 then -n else n;
    var d := Digits(m);
    DigitsValueOfDigits(m);
    PlacesAre(d);
    assert forall k :: 0 <= k < |d| ==> d[k] in d;
    if n < 0 { assert Decimal(n)[1..] == d; }
  }

  // ---------- lines ----------

  datatype Line = Line(depth: nat, text: Text)

  function Deeper(lines: seq<Line>): (r: seq<Line>)
    ensures |r| == |lines| && forall k :: 0 <= k < |r| ==> r[k] == Line(lines[k].depth + 1, lines[k].text)
  {
    if lines == [] then [] else [Line(lines[0].depth + 1, lines[0].text)] + Deeper(lines[1..])
  }

  /** The lines with `head` before the first and `tail` behind the last. */
  function Between(head: Text, lines: seq<Line>, tail: Text): (r: seq<Line>)
    requires lines != []
    ensures |r| == |lines| && r[0].depth == lines[0].depth
    decreases |lines|
  {
    if |lines| == 1 then [Line(lines[0].depth, head + lines[0].text + tail)]
    else [Line(lines[0].depth, head + lines[0].text)] + Between([], lines[1..], tail)
  }

  /** The lines of a tree; `spaced` says whether a space follows a colon. */
  function Lines(v: Value, spaced: bool): (r: seq<Line>)
    ensures r != [] && r[0].depth == 0
    decreases v, 0
  {
    match v
    case Arr(items) =>
      if items == [] then [Line(0, [91, 93])]
      else [Line(0, [91])] + Deeper(ItemLines(items, spaced)) + [Line(0, [93])]
    case Obj(members) =>
      if members == [] then [Line(0, [123, 125])]
      else [Line(0, [123])] + Deeper(MemberLines(members, spaced)) + [Line(0, [125])]
    case _ => [Line(0, Print(v, [], []))]
  }

  /** The elements' lines, a comma behind each but the last. */
  function ItemLines(items: seq<Value>, spaced: bool): (r: seq<Line>)
    requires items != []
    ensures r != [] && r[0].depth == 0
    decreases items, 1
  {
    if |items| == 1 then Between([], Lines(items[0], spaced), [])
    else Between([], Lines(items[0], spaced), [44]) + ItemLines(items[1..], spaced)
  }

  /** The members' lines: the key and a colon before each value, a comma behind each but the last. */
  function MemberLines(members: seq<Member>, spaced: bool): (r: seq<Line>)
    requires members != []
    ensures r != [] && r[0].depth == 0
    decreases members, 1
  {
    var head := Quoted(members[0].key) + if spaced then [58, 32] else [58];
    if |members| == 1 then Between(head, Lines(members[0].value, spaced), [])
    else Between(head, Lines(members[0].value, spaced), [44]) + MemberLines(members[1..], spaced)
  }

  function Repeated(ws: Text, n: nat): Text {
    if n == 0 then [] else ws + Repeated(ws, n - 1)
  }

  /** A line feed, the indentation and the text. */
  function OnItsLine(l: Line, ws: Text, ind: Text): Text {
    [10] + ind + Repeated(ws, l.depth) + l.text
  }

  function Shown(lines: seq<Line>, ws: Text, ind: Text): Text {
    if lines == [] then [] else OnItsLine(lines[0], ws, ind) + Shown(lines[1..], ws, ind)
  }

  /** All texts, one after the other. */
  function Joined(lines: seq<Line>): Text {
    if lines == [] then [] else lines[0].text + Joined(lines[1..])
  }

  /** The first line where it stands, and the others below it. */
  function Placed(lines: seq<Line>, ws: Text, ind: Text): Text
    requires lines != []
  {
    lines[0].text + Shown(lines[1..], ws, ind)
  }

  lemma {:induction false} LinesConcat(a: seq<Line>, b: seq<Line>, ws: Text, ind: Text)
    ensures Shown(a + b, ws, ind) == Shown(a, ws, ind) + Shown(b, ws, ind) && Joined(a + b) == Joined(a) + Joined(b)
    decreases |a|
  {
    if a == [] {
      assert a + b == b;
    } else {
      assert (a + b)[1..] == a[1..] + b;
      LinesConcat(a[1..], b, ws, ind);
    }
  }

  lemma DeeperLine(l: Line, ws: Text, ind: Text)
    ensures OnItsLine(Line(l.depth + 1, l.text), ws, ind) == OnItsLine(l, ws, ind + ws)
  {
    assert Repeated(ws, l.depth + 1) == ws + Repeated(ws, l.depth);
    assert [10] + ind + (ws + Repeated(ws, l.depth)) == [10] + (ind + ws) + Repeated(ws, l.depth);
  }

  lemma {:induction false} DeeperLines(lines: seq<Line>, ws: Text, ind: Text)
    ensures Shown(Deeper(lines), ws, ind) == Shown(lines, ws, ind + ws) && Joined(Deeper(lines)) == Joined(lines)
    decreases |lines|
  {
    hide OnItsLine;
    if lines != [] {
      DeeperLines(lines[1..], ws, ind);
      DeeperLine(lines[0], ws, ind);
    }
  }

  lemma OneLine(l: Line, ws: Text, ind: Text)
    ensures Shown([l], ws, ind) == OnItsLine(l, ws, ind) && Joined([l]) == l.text
  {
    hide OnItsLine;
    assert [l][1..] == [] && OnItsLine(l, ws, ind) + [] == OnItsLine(l, ws, ind);
    assert Shown([], ws, ind) == [] && Joined([]) == [];
  }

  lemma LineWith(l: Line, head: Text, tail: Text, ws: Text, ind: Text)
    ensures OnItsLine(Line(l.depth, l.text + tail), ws, ind) == OnItsLine(l, ws, ind) + tail
    ensures l.depth == 0 ==> OnItsLine(Line(0, head + l.text), ws, ind) == [10] + ind + (head + l.text)
  {
    assert Repeated(ws, 0) == [];
  }

  lemma {:induction false} BetweenTail(lines: seq<Line>, tail: Text, ws: Text, ind: Text)
    requires lines != []
    ensures Shown(Between([], lines, tail), ws, ind) == Shown(lines, ws, ind) + tail
    ensures Joined(Between([], lines, tail)) == Joined(lines) + tail
    decreases |lines|
  {
    hide OnItsLine, Shown, Joined;
    var l := lines[0];
    assert [] + l.text == l.text && lines == [l] + lines[1..];
    LinesConcat([l], lines[1..], ws, ind);
    if |lines| > 1 {
      BetweenTail(lines[1..], tail, ws, ind);
      LinesConcat([l], Between([], lines[1..], tail), ws, ind);
      assert Between([], lines, tail) == [l] + Between([], lines[1..], tail);
    } else {
      assert lines == [l];
      LineWith(l, [], tail, ws, ind);
      OneLine(Line(l.depth, l.text + tail), ws, ind);
      OneLine(l, ws, ind);
    }
  }

  /** A group of lines between its head and its tail, at no depth of its own. */
  lemma BetweenLines(head: Text, lines: seq<Line>, tail: Text, ws: Text, ind: Text)
    requires lines != [] && lines[0].depth == 0
    ensures Shown(Between(head, lines, tail), ws, ind) == [10] + ind + (head + Placed(lines, ws, ind) + tail)
    ensures Joined(Between(head, lines, tail)) == head + Joined(lines) + tail
  {
    hide OnItsLine, Shown, Joined;
    var l := lines[0];
    var first := Line(0, head + l.text);
    assert lines == [l] + lines[1..];
    LinesConcat([l], lines[1..], ws, ind);
    OneLine(first, ws, ind);
    OneLine(l, ws, ind);
    LineWith(l, head, tail, ws, ind);
    if |lines| > 1 {
      BetweenTail(lines[1..], tail, ws, ind);
      LinesConcat([first], Between([], lines[1..], tail), ws, ind);
    } else {
      NoLines(ws, ind);
      LineWith(first, [], tail, ws, ind);
      OneLine(Line(0, head + l.text + tail), ws, ind);
    }
  }

  lemma NoLines(ws: Text, ind: Text)
    ensures Shown([], ws, ind) == [] && Joined([]) == []
  {
  }

  // ---------- the printed text is these lines ----------

  lemma JoinFirst(parts: seq<Text>, sep: Text)
    requires |parts| > 1
    ensures Join(parts, sep) == parts[0] + sep + Join(parts[1..], sep)
  {
  }

  /** The elements, printed with a line for each. */
  lemma {:induction false} ItemsAreLines(items: seq<Value>, ws: Text, ind: Text)
    requires items != []
    requires forall k :: 0 <= k < |items| ==> Print(items[k], ws, ind) == Placed(Lines(items[k], true), ws, ind)
    ensures [10] + ind + Join(PrintItems(items, ws, ind), [44] + ([10] + ind)) == Shown(ItemLines(items, true), ws, ind)
    decreases |items|
  {
    hide Print, Lines, Placed, Shown, Between, Join;
    var lines, parts := Lines(items[0], true), PrintItems(items, ws, ind);
    assert parts == [Print(items[0], ws, ind)] + PrintItems(items[1..], ws, ind);
    assert [] + Placed(lines, ws, ind) == Placed(lines, ws, ind);
    if |items| == 1 {
      BetweenLines([], lines, [], ws, ind);
      OnePart(parts, [44] + ([10] + ind));
      assert Placed(lines, ws, ind) + [] == Placed(lines, ws, ind);
    } else {
      ItemsAreLines(items[1..], ws, ind);
      BetweenLines([], lines, [44], ws, ind);
      LinesConcat(Between([], lines, [44]), ItemLines(items[1..], true), ws, ind);
      JoinFirst(parts, [44] + ([10] + ind));
      Regroup([10] + ind, Placed(lines, ws, ind), [44], Join(parts[1..], [44] + ([10] + ind)));
    }
  }

  lemma OnePart(parts: seq<Text>, sep: Text)
    requires |parts| == 1
    ensures Join(parts, sep) == parts[0]
  {
  }

  lemma Regroup(a: Text, p: Text, c: Text, rest: Text)
    ensures a + (p + (c + a) + rest) == a + (p + c) + (a + rest)
  {
  }

  /** A member's key, as it is printed before its value. */
  lemma KeyPartIs(key: Text, ws: Text)
    ensures KeyPart(key, ws) == Quoted(key) + if ws == [] then [58] else [58, 32]
  {
    assert [COLON] + [SPACE] == [58, 32] && [COLON] + [] == [58];
    hide Quoted;
    if ws != [] { assert Quoted(key) + [COLON] + [SPACE] == Quoted(key) + ([COLON] + [SPACE]); }
  }

  lemma {:induction false} MembersAreLines(members: seq<Member>, ws: Text, ind: Text)
    requires members != [] && ws != []
    requires forall k :: 0 <= k < |members| ==>
      Print(members[k].value, ws, ind) == Placed(Lines(members[k].value, true), ws, ind)
    ensures [10] + ind + Join(PrintMembers(members, ws, ind), [44] + ([10] + ind))
         == Shown(MemberLines(members, true), ws, ind)
    decreases |members|
  {
    hide Print, Lines, Placed, Shown, Between, Join, KeyPart, Quoted;
    var lines, parts := Lines(members[0].value, true), PrintMembers(members, ws, ind);
    var head := Quoted(members[0].key) + [58, 32];
    KeyPartIs(members[0].key, ws);
    assert parts == [head + Print(members[0].value, ws, ind)] + PrintMembers(members[1..], ws, ind);
    if |members| == 1 {
      BetweenLines(head, lines, [], ws, ind);
      OnePart(parts, [44] + ([10] + ind));
      assert head + Placed(lines, ws, ind) + [] == head + Placed(lines, ws, ind);
    } else {
      MembersAreLines(members[1..], ws, ind);
      BetweenLines(head, lines, [44], ws, ind);
      LinesConcat(Between(head, lines, [44]), MemberLines(members[1..], true), ws, ind);
      JoinFirst(parts, [44] + ([10] + ind));
      Regroup([10] + ind, head + Placed(lines, ws, ind), [44], Join(parts[1..], [44] + ([10] + ind)));
    }
  }

  /** What brackets around deeper lines look like. */
  lemma BracketedLines(open: CodeUnit, inner: seq<Line>, close: CodeUnit, ws: Text, ind: Text)
    ensures var lines := [Line(0, [open])] + Deeper(inner) + [Line(0, [close])];
      && Placed(lines, ws, ind) == [open] + Shown(inner, ws, ind + ws) + [10] + ind + [close]
      && Joined(lines) == [open] + Joined(inner) + [close]
  {
    hide Shown, Joined, OnItsLine, Deeper;
    var first, last := Line(0, [open]), Line(0, [close]);
    var lines := [first] + Deeper(inner) + [last];
    assert lines[1..] == Deeper(inner) + [last] && lines == [first] + (Deeper(inner) + [last]);
    LinesConcat(Deeper(inner), [last], ws, ind);
    LinesConcat([first], Deeper(inner) + [last], ws, ind);
    DeeperLines(inner, ws, ind);
    OneLine(first, ws, ind);
    OneLine(last, ws, ind);
    LastLine(close, ws, ind);
    Grouped([open], Shown(inner, ws, ind + ws), [10] + ind, [close]);
    Grouped([open], Joined(inner), [], [close]);
  }

  lemma LastLine(close: CodeUnit, ws: Text, ind: Text)
    ensures OnItsLine(Line(0, [close]), ws, ind) == [10] + ind + [close]
  {
    assert Repeated(ws, 0) == [];
    assert [10] + ind + [] == [10] + ind;
  }

  lemma Grouped(a: Text, b: Text, c: Text, d: Text)
    ensures a + (b + (c + d)) == a + b + c + d
    ensures a + (b + d) == a + b + d
  {
  }

  lemma OneOfLines(text: Text, ws: Text, ind: Text)
    ensures Placed([Line(0, text)], ws, ind) == text && Joined([Line(0, text)]) == text
  {
    assert [Line(0, text)][1..] == [];
    NoLines(ws, ind);
    hide Shown;
    OneLine(Line(0, text), ws, ind);
    assert text + [] == text;
  }

  lemma WrapIs(open: CodeUnit, parts: seq<Text>, close: CodeUnit, ws: Text, ind: Text)
    requires parts != []
    ensures Wrap(open, parts, close, ws, ind) ==
      if ws == [] then [open] + Join(parts, [44]) + [close]
      else [open] + ([10] + (ind + ws) + Join(parts, [44] + ([10] + (ind + ws)))) + [10] + ind + [close]
  {
    hide Join;
    if ws == [] {
      assert [COMMA] + [] == [44] && [open] + [] == [open];
      assert Join(parts, [44]) + [] == Join(parts, [44]);
      assert [open] + Join(parts, [44]) + [] == [open] + Join(parts, [44]);
    }
  }

  lemma ScalarIsPrinted(v: Value, ws: Text, ind: Text)
    requires !v.Arr? && !v.Obj?
    ensures Print(v, ws, ind) == Print(v, [], [])
  {
  }

  /** With an indent, the printed text is the tree's lines, one below the other. */
  lemma {:induction false} IndentedLines(v: Value, ws: Text, ind: Text)
    requires ws != []
    ensures Print(v, ws, ind) == Placed(Lines(v, true), ws, ind)
    decreases v
  {
    hide Placed, Wrap, Print;
    match v
    case Arr(items) =>
      PrintedAs(v, ws, ind);
      if items == [] {
        OneOfLines([91, 93], ws, ind);
      } else {
        forall k | 0 <= k < |items|
          ensures Print(items[k], ws, ind + ws) == Placed(Lines(items[k], true), ws, ind + ws)
        {
          IndentedLines(items[k], ws, ind + ws);
        }
        ItemsAreLines(items, ws, ind + ws);
        WrapIs(LBRACKET, PrintItems(items, ws, ind + ws), RBRACKET, ws, ind);
        BracketedLines(91, ItemLines(items, true), 93, ws, ind);
      }
    case Obj(members) =>
      PrintedAs(v, ws, ind);
      if members == [] {
        OneOfLines([123, 125], ws, ind);
      } else {
        forall k | 0 <= k < |members|
          ensures Print(members[k].value, ws, ind + ws) == Placed(Lines(members[k].value, true), ws, ind + ws)
        {
          IndentedLines(members[k].value, ws, ind + ws);
        }
        MembersAreLines(members, ws, ind + ws);
        WrapIs(LBRACE, PrintMembers(members, ws, ind + ws), RBRACE, ws, ind);
        BracketedLines(123, MemberLines(members, true), 125, ws, ind);
      }
    case _ =>
      ScalarIsPrinted(v, ws, ind);
      OneOfLines(Print(v, [], []), ws, ind);
  }

  lemma PrintedAs(v: Value, ws: Text, ind: Text)
    ensures v.Arr? ==> Print(v, ws, ind) == if v.items == [] then [91, 93]
                                            else Wrap(LBRACKET, PrintItems(v.items, ws, ind + ws), RBRACKET, ws, ind)
    ensures v.Obj? ==> Print(v, ws, ind) == if v.members == [] then [123, 125]
                                            else Wrap(LBRACE, PrintMembers(v.members, ws, ind + ws), RBRACE, ws, ind)
  {
  }

  // ---------- compact ----------

  lemma {:induction false} ItemsAreJoined(items: seq<Value>, ind: Text)
    requires items != [] && forall k :: 0 <= k < |items| ==> Print(items[k], [], ind) == Joined(Lines(items[k], false))
    ensures Join(PrintItems(items, [], ind), [44]) == Joined(ItemLines(items, false))
    decreases |items|
  {
    hide Print, Lines, Joined, Between, Join;
    var lines, parts := Lines(items[0], false), PrintItems(items, [], ind);
    assert parts == [Print(items[0], [], ind)] + PrintItems(items[1..], [], ind);
    assert [] + Joined(lines) == Joined(lines);
    if |items| == 1 {
      BetweenLines([], lines, [], [], ind);
      OnePart(parts, [44]);
      assert Joined(lines) + [] == Joined(lines);
    } else {
      ItemsAreJoined(items[1..], ind);
      BetweenLines([], lines, [44], [], ind);
      LinesConcat(Between([], lines, [44]), ItemLines(items[1..], false), [], ind);
      JoinFirst(parts, [44]);
    }
  }

  lemma {:induction false} MembersAreJoined(members: seq<Member>, ind: Text)
    requires members != []
    requires forall k :: 0 <= k < |members| ==>
      Print(members[k].value, [], ind) == Joined(Lines(members[k].value, false))
    ensures Join(PrintMembers(members, [], ind), [44]) == Joined(MemberLines(members, false))
    decreases |members|
  {
    hide Print, Lines, Joined, Between, Join, KeyPart, Quoted;
    var lines, parts := Lines(members[0].value, false), PrintMembers(members, [], ind);
    var head := Quoted(members[0].key) + [58];
    KeyPartIs(members[0].key, []);
    assert parts == [head + Print(members[0].value, [], ind)] + PrintMembers(members[1..], [], ind);
    if |members| == 1 {
      BetweenLines(head, lines, [], [], ind);
      OnePart(parts, [44]);
      assert head + Joined(lines) + [] == head + Joined(lines);
    } else {
      MembersAreJoined(members[1..], ind);
      BetweenLines(head, lines, [44], [], ind);
      LinesConcat(Between(head, lines, [44]), MemberLines(members[1..], false), [], ind);
      JoinFirst(parts, [44]);
    }
  }

  /** Without an indent, the printed text is the same lines put together. */
  lemma {:induction false} CompactLines(v: Value, ind: Text)
    ensures Print(v, [], ind) == Joined(Lines(v, false))
    decreases v
  {
    hide Joined, Wrap, Print;
    assert ind + [] == ind;
    match v
    case Arr(items) =>
      PrintedAs(v, [], ind);
      if items == [] {
        OneOfLines([91, 93], [], ind);
      } else {
        forall k | 0 <= k < |items| ensures Print(items[k], [], ind) == Joined(Lines(items[k], false)) {
          CompactLines(items[k], ind);
        }
        ItemsAreJoined(items, ind);
        WrapIs(LBRACKET, PrintItems(items, [], ind), RBRACKET, [], ind);
        BracketedLines(91, ItemLines(items, false), 93, [], ind);
      }
    case Obj(members) =>
      PrintedAs(v, [], ind);
      if members == [] {
        OneOfLines([123, 125], [], ind);
      } else {
        forall k | 0 <= k < |members|
          ensures Print(members[k].value, [], ind) == Joined(Lines(members[k].value, false))
        {
          CompactLines(members[k].value, ind);
        }
        MembersAreJoined(members, ind);
        WrapIs(LBRACE, PrintMembers(members, [], ind), RBRACE, [], ind);
        BracketedLines(123, MemberLines(members, false), 125, [], ind);
      }
    case _ =>
      ScalarIsPrinted(v, [], ind);
      OneOfLines(Print(v, [], []), [], ind);
  }

  // ---------- what the printed text denotes ----------

  /** The printed text of a tree is JSON text for it, by the grammar. */
  lemma PrintDenotes(v: Value, ws: Text)
    requires Plain(v) && NoProto(v) && AllBlank(ws)
    ensures Denotes(Print(v, ws, []), v)
  {
    RoundTrip(v, ws);
    ParsesExactlyWhatItDenotes(Print(v, ws, []), v);
  }
}
