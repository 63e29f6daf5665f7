/**
  What the UTF-8 codec does to any text and any buffer, well formed or not: the characters it
  finds, by section 3 of RFC 3629 and by UTF-16, and what it replaces.
 */
module Utf8Meaning {
  import opened Texts
  import opened Utf8

  // ---------- characters ----------

  /** The number that the bytes of one character spell (section 3 of RFC 3629). */
  function Spelled(b: Bytes): int
    requires OneChar(b)
  {
    if |b| == 1 then b[0]
    else if |b| == 2 then (b[0] as int - 0xc0) * 0x40 + (b[1] as int - 0x80)
    else if |b| == 3 then (b[0] as int - 0xe0) * 0x1000 + (b[1] as int - 0x80) * 0x40 + (b[2] as int - 0x80)
    else
      (b[0] as int - 0xf0) * 0x4_0000 + (b[1] as int - 0x80) * 0x1000 + (b[2] as int - 0x80) * 0x40
      + (b[3] as int - 0x80)
  }

  lemma TailMeans(b: Byte)
    ensures IsTail(b) <==> 0x80 <= b <= 0xbf
    ensures IsTail(b) ==> b as int % 64 == b as int - 0x80
  {
  }

  lemma TwoIsChar(a: Byte, b: Byte)
    requires 191 < a <= 223 && IsTail(b) && Two(a, b) > 127
    ensures OneChar([a, b])
  {
    TailMeans(b);
    assert a as int % 32 == a as int - 192;
  }

  lemma ThreeIsChar(a: Byte, b: Byte, c: Byte)
    requires 223 < a <= 239 && IsTail(b) && IsTail(c)
    requires Three(a, b, c) > 2047 && (Three(a, b, c) < 55296 || Three(a, b, c) > 57343)
    ensures OneChar([a, b, c])
  {
    TailMeans(b);
    TailMeans(c);
    assert a as int % 16 == a as int - 224;
  }

  lemma FourIsChar(a: Byte, b: Byte, c: Byte, d: Byte)
    requires a > 239 && IsTail(b) && IsTail(c) && IsTail(d)
    requires 65535 < Four(a, b, c, d) < 1114112
    ensures OneChar([a, b, c, d])
  {
    TailMeans(b);
    TailMeans(c);
    TailMeans(d);
    assert a as int % 16 == a as int - 240;
  }

  /** What the decoder reads at `o` is one character of section 4 of RFC 3629. */
  lemma ReadIsChar(b: Bytes, end: nat, o: nat)
    requires o < end <= |b| && CodePointAt(b, end, o) != -1
    ensures OneChar(b[o..o + Announced(b[o])])
  {
    hide IsTail, Two, Three, Four, OneChar;
    var n := Announced(b[o]);
    if n == 1 {
      SmallIsChar(b[o]);
      assert b[o..o + 1] == [b[o]];
    } else if n == 2 {
      TwoIsChar(b[o], b[o + 1]);
      assert b[o..o + 2] == [b[o], b[o + 1]];
    } else if n == 3 {
      ThreeIsChar(b[o], b[o + 1], b[o + 2]);
      assert b[o..o + 3] == [b[o], b[o + 1], b[o + 2]];
    } else {
      FourIsChar(b[o], b[o + 1], b[o + 2], b[o + 3]);
      assert b[o..o + 4] == [b[o], b[o + 1], b[o + 2], b[o + 3]];
    }
  }

  lemma SmallIsChar(a: Byte)
    requires a < 128
    ensures OneChar([a])
  {
  }

  /** The bytes that the encoder writes for a character spell it. */
  lemma SpelledBytes(c: Scalar)
    ensures OneChar(BytesOf(c)) && Spelled(BytesOf(c)) == c
  {
    BytesOfIsChar(c);
    Recompose(c);
    hide OneChar;
  }

  /** A character that stands complete before `end` is read, and its first byte tells its length. */
  lemma CharIsRead(b: Bytes, end: nat, o: nat, n: nat)
    requires o + n <= end <= |b| && n > 0 && OneChar(b[o..o + n])
    ensures Announced(b[o]) == n && CodePointAt(b, end, o) == Spelled(b[o..o + n])
  {
    var c := CharIsBytesOf(b[o..o + n]);
    SpelledBytes(c);
    hide OneChar, Announced, CodePointAt, Spelled, BytesOf;
    assert |BytesOf(c)| == n;
    ReadsBytesOf(b, end, o, c);
  }

  // ---------- decoding ----------

  /** A character of `n` bytes stands at `o`, complete before `end`. */
  predicate CharStands(b: Bytes, end: nat, o: nat, n: nat) {
    n > 0 && o + n <= end <= |b| && OneChar(b[o..o + n])
  }

  /** From `o` on the bytes are read as `cs`: characters where they stand, U+FFFD for each byte where none does. */
  ghost predicate Reads(b: Bytes, end: nat, o: nat, cs: seq<int>)
    requires o <= end <= |b|
    decreases end - o
  {
    if cs == [] then o == end
    else
      && o < end
      && ((exists n: nat ::
             CharStands(b, end, o, n) && cs[0] == Spelled(b[o..o + n]) && Reads(b, end, o + n, cs[1..]))
          || ((forall n: nat :: !CharStands(b, end, o, n)) && cs[0] == 0xfffd && Reads(b, end, o + 1, cs[1..])))
  }

  /** The decoder reads every buffer in this way, and there is only one. */
  lemma {:induction false} DecodedIsRead(b: Bytes, end: nat, o: nat, cs: seq<int>)
    requires o <= end <= |b|
    ensures Reads(b, end, o, cs) <==> cs == DecodedFrom(b, end, o)
    decreases end - o
  {
    hide OneChar, Announced, CodePointAt, Spelled;
    if o < end {
      var c := CodePointAt(b, end, o);
      DecodedStep(b, end, o);
      forall n: nat | CharStands(b, end, o, n)
        ensures Announced(b[o]) == n && c == Spelled(b[o..o + n]) && c != -1
      {
        CharIsRead(b, end, o, n);
        NotMinusOne(b[o..o + n]);
      }
      if cs != [] {
        if c == -1 {
          DecodedIsRead(b, end, o + 1, cs[1..]);
        } else {
          ReadIsChar(b, end, o);
          assert CharStands(b, end, o, Announced(b[o]));
          DecodedIsRead(b, end, o + Announced(b[o]), cs[1..]);
        }
      }
    }
  }

  lemma NotMinusOne(b: Bytes)
    requires OneChar(b)
    ensures Spelled(b) >= 0
  {
  }

  // ---------- UTF-16 ----------

  predicate HighSurrogate(u: int) { 0xd800 <= u <= 0xdbff }
  predicate LowSurrogate(u: int) { 0xdc00 <= u <= 0xdfff }

  /** The characters of a text: a pair of surrogates is one, and a lone surrogate is replaced. */
  function Characters(s: Text): seq<int> {
    if s == [] then []
    else if |s| >= 2 && HighSurrogate(s[0]) && LowSurrogate(s[1]) then
      [0x1_0000 + (s[0] - 0xd800) as int * 0x400 + (s[1] - 0xdc00) as int] + Characters(s[2..])
    else [if HighSurrogate(s[0]) || LowSurrogate(s[0]) then 0xfffd else s[0]] + Characters(s[1..])
  }

  /** The units written for a character are one character again. */
  lemma UnitsMean(c: Scalar, rest: Text)
    ensures Characters(UnitsOf(c) + rest) == [c as int] + Characters(rest)
  {
    var t := UnitsOf(c) + rest;
    if c < 65536 {
      assert t[1..] == rest;
    } else {
      var d := c - 65536;
      assert d / 1024 < 1024 && d == d / 1024 * 1024 + d % 1024;
      assert t[2..] == rest;
    }
  }

  lemma {:induction false} CharactersOf(cs: seq<Scalar>)
    ensures Characters(Utf16Of(cs)) == cs
    decreases |cs|
  {
    hide UnitsOf, Characters;
    if cs != [] {
      CharactersOf(cs[1..]);
      UnitsMean(cs[0], Utf16Of(cs[1..]));
      assert cs == [cs[0]] + cs[1..];
    } else {
      NoCharacters();
    }
  }

  lemma NoCharacters()
    ensures Characters([]) == []
  {
  }

  /** Decoding any buffer gives a text whose characters are those the buffer is read as. */
  lemma DecodeMeans(b: Bytes)
    ensures Reads(b, |b|, 0, Characters(Decode(b))) && WellFormed16(Decode(b))
  {
    var cs := DecodedFrom(b, |b|, 0);
    CharactersOf(cs);
    Utf16IsWellFormed(cs);
    DecodedIsRead(b, |b|, 0, cs);
    hide Reads, Characters;
  }

  // ---------- encoding ----------

  /** The text ends in two high surrogates; the encoder then forgets the last one. */
  predicate EndsInTwoHighs(s: Text) {
    |s| >= 2 && HighSurrogate(s[|s| - 1]) && HighSurrogate(s[|s| - 2])
  }

  function Kept(s: Text): Text {
    if EndsInTwoHighs(s) then s[..|s| - 1] else s
  }

  lemma KeptCons(u: CodeUnit, s: Text)
    requires s != [] && (|s| > 1 || !(HighSurrogate(u) && HighSurrogate(s[0])))
    ensures Kept([u] + s) == [u] + Kept(s) && Kept(s) != [] && Kept(s)[0] == s[0]
  {
    if EndsInTwoHighs(s) { assert ([u] + s)[..|s|] == [u] + s[..|s| - 1]; }
  }

  lemma KeptShort(s: Text)
    requires |s| <= 1
    ensures Kept(s) == s
  {
  }

  /** The bytes of the characters, one after the other. */
  ghost predicate Spell(cs: seq<int>, b: Bytes) {
    if cs == [] then b == []
    else exists n: nat :: 0 < n <= |b| && OneChar(b[..n]) && Spelled(b[..n]) == cs[0] && Spell(cs[1..], b[n..])
  }

  lemma SpellCons(c: Scalar, cs: seq<int>, b: Bytes)
    requires Spell(cs, b)
    ensures Spell([c as int] + cs, BytesOf(c) + b)
  {
    SpelledBytes(c);
    BytesOfIsChar(c);
    hide OneChar, Spelled, BytesOf;
    var t := BytesOf(c) + b;
    assert t[..|BytesOf(c)|] == BytesOf(c) && t[|BytesOf(c)|..] == b;
    assert ([c as int] + cs)[1..] == cs;
  }

  lemma Alone(u: CodeUnit, s: Text)
    requires !(HighSurrogate(u) && s != [] && LowSurrogate(s[0]))
    ensures Characters([u] + s) == [if HighSurrogate(u) || LowSurrogate(u) then 0xfffd else u as int] + Characters(s)
  {
    assert ([u] + s)[1..] == s;
  }

  lemma Paired(u: CodeUnit, v: CodeUnit, s: Text)
    requires HighSurrogate(u) && LowSurrogate(v)
    ensures Characters([u, v] + s) == [0x1_0000 + (u as int - 0xd800) * 0x400 + (v as int - 0xdc00)] + Characters(s)
  {
    assert ([u, v] + s)[2..] == s;
  }

  lemma KeptAfter(h: CodeUnit, u: CodeUnit, s: Text)
    requires !HighSurrogate(u)
    ensures Kept([u] + s) == [u] + Kept(s) && Kept([h, u] + s) == [h, u] + Kept(s)
  {
    assert [h, u] + s == [h] + ([u] + s);
    if s == [] {
      KeptShort([u]);
      assert [u] + s == [u] && !EndsInTwoHighs([h, u]);
    } else {
      KeptCons(u, s);
      KeptCons(h, [u] + s);
    }
  }

  /** A turn that reads a unit which is no high surrogate leaves nothing pending. */
  lemma {:induction false} LowOrPlain(s: Text, i: nat, lead: int, rest: Bytes)
    requires i < |s| && (lead == 0 || IsLead(lead)) && !IsLead(s[i])
    requires Spell(Characters(Kept(s[i + 1..])), rest)
    ensures NextLead(s, i, lead) == 0
    ensures lead == 0 ==> Spell(Characters(Kept([s[i]] + s[i + 1..])), Pushed(s, i, lead) + rest)
    ensures lead != 0 ==> Spell(Characters(Kept([lead as CodeUnit, s[i]] + s[i + 1..])), Pushed(s, i, lead) + rest)
  {
    hide Characters, Spell, Kept, BytesOf;
    var u, after := s[i], Kept(s[i + 1..]);
    if lead == 0 {
      KeptAfter(0, u, s[i + 1..]);
      Alone(u, after);
      SpellCons(if IsTrail(u) then 0xfffd else u, Characters(after), rest);
    } else {
      var h: CodeUnit := lead;
      KeptAfter(h, u, s[i + 1..]);
      assert [h, u] + after == [h] + ([u] + after);
      if IsTrail(u) {
        Paired(h, u, after);
        SpellCons(0x1_0000 + (h as int - 0xd800) * 0x400 + (u as int - 0xdc00), Characters(after), rest);
      } else {
        Alone(u, after);
        Alone(h, [u] + after);
        SpellCons(u, Characters(after), rest);
        SpellCons(0xfffd, [u as int] + Characters(after), BytesOf(u) + rest);
        assert BytesOf(0xfffd) + (BytesOf(u) + rest) == BytesOf(0xfffd) + BytesOf(u) + rest;
      }
    }
  }

  /** A pending high surrogate before another one is replaced. */
  lemma HighAfterHigh(h: CodeUnit, t: Text, rest: Bytes)
    requires HighSurrogate(h) && |t| >= 2 && HighSurrogate(t[0]) && Spell(Characters(Kept(t)), rest)
    ensures Spell(Characters(Kept([h] + t)), BytesOf(0xfffd) + rest)
  {
    hide Characters, Spell, BytesOf;
    KeptCons(h, t);
    hide Kept;
    Alone(h, Kept(t));
    SpellCons(0xfffd, Characters(Kept(t)), rest);
  }

  /** A high surrogate with nothing behind it is replaced. */
  lemma HighAtEnd(h: CodeUnit)
    requires HighSurrogate(h)
    ensures Spell(Characters([h]), BytesOf(0xfffd)) && Kept([h]) == [h]
    ensures forall u: CodeUnit :: HighSurrogate(u) ==> Kept([h, u]) == [h]
  {
    hide Spell, BytesOf, Characters;
    NoCharacters();
    assert [h] + [] == [h] && BytesOf(0xfffd) + [] == BytesOf(0xfffd);
    Alone(h, []);
    NothingSpelled();
    SpellCons(0xfffd, [], []);
    assert [0xfffd] + [] == [0xfffd];
  }

  lemma NothingSpelled()
    ensures Spell([], [])
  {
  }

  function Pending(lead: int): Text
    requires lead == 0 || IsLead(lead)
  {
    if lead == 0 then [] else [lead]
  }

  lemma NothingEncoded(s: Text, lead: int)
    requires lead == 0 || IsLead(lead)
    ensures EncodeFrom(s, |s|, lead) == []
  {
  }

  lemma EncodedStep(s: Text, i: nat, lead: int)
    requires i < |s| && (lead == 0 || IsLead(lead))
    ensures EncodeFrom(s, i, lead) == Pushed(s, i, lead) + EncodeFrom(s, i + 1, NextLead(s, i, lead))
  {
    hide Pushed, NextLead;
  }

  lemma HighWaits(s: Text, i: nat)
    requires i + 1 < |s| && IsLead(s[i])
    ensures EncodeFrom(s, i, 0) == EncodeFrom(s, i + 1, s[i])
  {
    EncodedStep(s, i, 0);
    hide EncodeFrom;
  }

  lemma HighIsReplaced(s: Text, i: nat, lead: int)
    requires i < |s| && IsLead(s[i]) && IsLead(lead)
    ensures EncodeFrom(s, i, lead) == BytesOf(0xfffd) + EncodeFrom(s, i + 1, s[i])
  {
    EncodedStep(s, i, lead);
    hide EncodeFrom, BytesOf;
  }

  lemma LastHigh(s: Text, i: nat, lead: int)
    requires i + 1 == |s| && IsLead(s[i]) && (lead == 0 || IsLead(lead))
    ensures Spell(Characters(Kept(Pending(lead) + s[i..])), EncodeFrom(s, i, lead))
  {
    hide Characters, Spell, Kept, BytesOf;
    var u := s[i];
    assert s[i..] == [u];
    HighAtEnd(if lead == 0 then u else lead);
    assert Pending(lead) + s[i..] == if lead == 0 then [u] else [lead as CodeUnit, u];
    assert EncodeFrom(s, i + 1, NextLead(s, i, lead)) == [];
    assert EncodeFrom(s, i, lead) == BytesOf(0xfffd) + [];
    assert BytesOf(0xfffd) + [] == BytesOf(0xfffd);
  }

  lemma {:induction false} EncodedSpells(s: Text, i: nat, lead: int)
    requires i <= |s| && (lead == 0 || (IsLead(lead) && i < |s|))
    ensures Spell(Characters(Kept(Pending(lead) + s[i..])), EncodeFrom(s, i, lead))
    decreases |s| - i
  {
    hide Characters, Spell, Kept, BytesOf, EncodeFrom, Pushed, NextLead;
    if i == |s| {
      NothingEncoded(s, lead);
      assert Pending(0) + s[i..] == [];
      KeptShort([]);
      NoCharacters();
      NothingSpelled();
    } else {
      var u := s[i];
      assert s[i..] == [u] + s[i + 1..];
      if !IsLead(u) {
        EncodedSpells(s, i + 1, 0);
        assert Pending(0) + s[i + 1..] == s[i + 1..];
        LowOrPlain(s, i, lead, EncodeFrom(s, i + 1, 0));
        EncodedStep(s, i, lead);
        assert lead == 0 ==> Pending(lead) + s[i..] == [u] + s[i + 1..];
        assert lead != 0 ==> Pending(lead) + s[i..] == [lead as CodeUnit, u] + s[i + 1..];
      } else if i + 1 == |s| {
        LastHigh(s, i, lead);
      } else {
        EncodedSpells(s, i + 1, u);
        var t := [u] + s[i + 1..];
        assert Pending(u) + s[i + 1..] == t;
        if lead == 0 {
          assert Pending(lead) + s[i..] == t;
          HighWaits(s, i);
        } else {
          HighIsReplaced(s, i, lead);
          HighAfterHigh(lead, t, EncodeFrom(s, i + 1, u));
          assert Pending(lead) + s[i..] == [lead as CodeUnit] + t;
        }
      }
    }
  }

  /** The encoder spells the characters of the text, but for a last high surrogate behind another one. */
  lemma EncodeMeans(s: Text)
    ensures Spell(Characters(Kept(s)), Encode(s))
  {
    EncodedSpells(s, 0, 0);
    assert Pending(0) + s[0..] == s;
  }

  // ---------- both ways ----------

  /** What spells characters is read as them. */
  lemma {:induction false} SpelledIsRead(cs: seq<int>, b: Bytes, o: nat)
    requires o <= |b| && Spell(cs, b[o..])
    ensures Reads(b, |b|, o, cs)
    decreases |cs|
  {
    hide OneChar, Spelled;
    if cs != [] {
      var t := b[o..];
      var n: nat :| 0 < n <= |t| && OneChar(t[..n]) && Spelled(t[..n]) == cs[0] && Spell(cs[1..], t[n..]);
      assert t[..n] == b[o..o + n] && t[n..] == b[o + n..];
      SpelledIsRead(cs[1..], b, o + n);
      assert CharStands(b, |b|, o, n);
    }
  }

  /** Decoding what was encoded gives the characters of the text, with lone surrogates replaced. */
  lemma DecodedCharacters(s: Text)
    ensures Characters(Decode(Encode(s))) == Characters(Kept(s))
  {
    EncodeMeans(s);
    var b := Encode(s);
    assert b[0..] == b;
    SpelledIsRead(Characters(Kept(s)), b, 0);
    DecodedIsRead(b, |b|, 0, Characters(Kept(s)));
    CharactersOf(DecodedFrom(b, |b|, 0));
    hide Characters, Kept, Reads, Spell;
  }

  /** They are all there exactly when the text does not end in two high surrogates. */
  lemma CharactersKeptExactlyWhen(s: Text)
    ensures Characters(Decode(Encode(s))) == Characters(s) <==> !EndsInTwoHighs(s)
  {
    DecodedCharacters(s);
    if EndsInTwoHighs(s) { OneFewer(s); }
    hide Characters;
  }

  /** A high surrogate at the end is a character of its own, also behind another one. */
  lemma {:induction false} OneFewer(s: Text)
    requires EndsInTwoHighs(s)
    ensures |Characters(s)| == |Characters(s[..|s| - 1])| + 1
    decreases |s|
  {
    var t := s[..|s| - 1];
    if |s| == 2 {
      assert s[1..] == [s[1]] && t == [s[0]];
      assert Characters([s[1]]) == [0xfffd] && Characters([s[0]]) == [0xfffd] by { LoneHigh(s[1]); LoneHigh(s[0]); }
    } else if HighSurrogate(s[0]) && LowSurrogate(s[1]) {
      assert t[2..] == s[2..][..|s| - 3];
      OneFewer(s[2..]);
    } else {
      assert t[1..] == s[1..][..|s| - 2];
      OneFewer(s[1..]);
    }
  }

  lemma LoneHigh(u: CodeUnit)
    requires HighSurrogate(u)
    ensures Characters([u]) == [0xfffd]
  {
    assert [u][1..] == [];
    NoCharacters();
  }
}
