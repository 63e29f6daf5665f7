/**
  The compact token text of the license checker (`user/license/token.go`,
  `user/license/util.go`): three unpadded base64url parts joined by dots. The library
  codec follows section 5 of RFC 4648; its decoder skips line breaks and ignores the
  unused low bits of the last character.
 */
module TokenCodec {
  import opened Wrappers
  import opened Texts

  const DOT: Byte := 46
  const PAD: Byte := 61
  const CR: Byte := 13
  const NEWLINE: Byte := 10

  type Sextet = v: int | 0 <= v < 64

  // ---------- the alphabet ----------

  function Char(v: Sextet): (c: Byte)
    ensures c != DOT && c != PAD && c != CR && c != NEWLINE
  {
    var n: int := v;
    if n < 26 then 65 + n
    else if n < 52 then 97 + (n - 26)
    else if n < 62 then 48 + (n - 52)
    else if n == 62 then 45
    else 95
  }

  function ValueOf(c: Byte): Option<Sextet> {
    var n: int := c;
    if 65 <= n <= 90 then Some(n - 65)
    else if 97 <= n <= 122 then Some(n - 97 + 26)
    else if 48 <= n <= 57 then Some(n - 48 + 52)
    else if n == 45 then Some(62)
    else if n == 95 then Some(63)
    else None
  }

  lemma AlphabetInverse(v: Sextet, c: Byte)
    ensures ValueOf(Char(v)) == Some(v)
    ensures ValueOf(c).Some? ==> Char(ValueOf(c).value) == c
  {
  }

  predicate InAlphabet(c: Byte) { ValueOf(c).Some? }

  // ---------- the library codec ----------

  /** The four sextets of three bytes; bits of bytes that are not there count as zero. */
  function S0(x: Byte): Sextet { var a: int := x; a / 4 }
  function S1(x: Byte, y: Byte): Sextet { var a: int, b: int := x, y; a % 4 * 16 + b / 16 }
  function S2(y: Byte, z: Byte): Sextet { var a: int, b: int := y, z; a % 16 * 4 + b / 64 }
  function S3(z: Byte): Sextet { var a: int := z; a % 64 }

  function Quad(x: Byte, y: Byte, z: Byte): Bytes {
    [Char(S0(x)), Char(S1(x, y)), Char(S2(y, z)), Char(S3(z))]
  }

  /** `base64.URLEncoding.EncodeToString`. */
  function Encode(b: Bytes): Bytes {
    if |b| == 0 then []
    else if |b| == 1 then [Char(S0(b[0])), Char(S1(b[0], 0)), PAD, PAD]
    else if |b| == 2 then [Char(S0(b[0])), Char(S1(b[0], b[1])), Char(S2(b[1], 0)), PAD]
    else Quad(b[0], b[1], b[2]) + Encode(b[3..])
  }

  function WithoutLineBreaks(s: Bytes): Bytes {
    if s == [] then []
    else (if s[0] == CR || s[0] == NEWLINE then [] else [s[0]]) + WithoutLineBreaks(s[1..])
  }

  /** The bytes of two, three or four sextets. */
  function One(p: Sextet, q: Sextet): Byte {
    var a: int, b: int := p, q;
    a * 4 + b / 16
  }

  function Two(q: Sextet, r: Sextet): Byte {
    var a: int, b: int := q, r;
    a % 16 * 16 + b / 4
  }

  function Three(r: Sextet, t: Sextet): Byte {
    var a: int, b: int := r, t;
    a % 4 * 64 + b
  }

  /** Groups of four characters, the last one possibly padded. */
  function DecodeGroups(s: Bytes): Option<Bytes> {
    if s == [] then Some([])
    else if |s| < 4 then None
    else
      var p, q, r, t := ValueOf(s[0]), ValueOf(s[1]), ValueOf(s[2]), ValueOf(s[3]);
      if p.None? || q.None? then None
      else if s[2] == PAD then
        if s[3] == PAD && |s| == 4 then Some([One(p.value, q.value)]) else None
      else if r.None? then None
      else if s[3] == PAD then
        if |s| == 4 then Some([One(p.value, q.value), Two(q.value, r.value)]) else None
      else if t.None? then None
      else
        var rest := DecodeGroups(s[4..]);
        if rest.None? then None
        else Some([One(p.value, q.value), Two(q.value, r.value), Three(r.value, t.value)] + rest.value)
  }

  /** `base64.URLEncoding.DecodeString`. */
  function Decode(s: Bytes): Option<Bytes> {
    DecodeGroups(WithoutLineBreaks(s))
  }

  // ---------- the unpadded form ----------

  /** `strings.TrimRight(s, "=")`. */
  function TrimRight(s: Bytes): Bytes
    decreases |s|
  {
    if s != [] && s[|s| - 1] == PAD then TrimRight(s[..|s| - 1]) else s
  }

  function JoseEncode(b: Bytes): Bytes {
    TrimRight(Encode(b))
  }

  function JoseDecode(s: Bytes): Option<Bytes> {
    match |s| % 4
    case 0 => Decode(s)
    case 2 => Decode(s + [PAD, PAD])
    case 3 => Decode(s + [PAD])
    case _ => None
  }

  /** The unpadded encoding, group by group. */
  function Unpadded(b: Bytes): Bytes {
    if |b| == 0 then []
    else if |b| == 1 then [Char(S0(b[0])), Char(S1(b[0], 0))]
    else if |b| == 2 then [Char(S0(b[0])), Char(S1(b[0], b[1])), Char(S2(b[1], 0))]
    else Quad(b[0], b[1], b[2]) + Unpadded(b[3..])
  }

  function Padding(n: nat): Bytes {
    if n % 3 == 1 then [PAD, PAD] else if n % 3 == 2 then [PAD] else []
  }

  predicate Clean(s: Bytes) { forall k :: 0 <= k < |s| ==> InAlphabet(s[k]) }

  lemma {:induction false} EncodeIsPadded(b: Bytes)
    ensures Encode(b) == Unpadded(b) + Padding(|b|)
    decreases |b|
  {
    hide Char, S0, S1, S2, S3;
    if |b| >= 3 {
      EncodeIsPadded(b[3..]);
      hide Quad;
    }
  }

  lemma CharIsClean(v: Sextet)
    ensures InAlphabet(Char(v)) && ValueOf(Char(v)) == Some(v)
  {
  }

  lemma {:induction false} UnpaddedIsClean(b: Bytes)
    ensures Clean(Unpadded(b))
    decreases |b|
  {
    forall v: Sextet ensures InAlphabet(Char(v)) { CharIsClean(v); }
    hide Char, InAlphabet, S0, S1, S2, S3;
    if |b| >= 3 {
      UnpaddedIsClean(b[3..]);
    }
  }

  lemma TrimClean(s: Bytes)
    requires Clean(s)
    ensures TrimRight(s) == s && TrimRight(s + [PAD]) == s && TrimRight(s + [PAD, PAD]) == s
  {
    assert (s + [PAD])[..|s|] == s;
    assert (s + [PAD, PAD])[..|s| + 1] == s + [PAD];
  }

  /** The number of characters in the last group, for this many bytes. */
  function LastGroup(n: nat): nat {
    if n % 3 == 0 then 0 else n % 3 + 1
  }

  lemma FourMore(n: nat)
    ensures (4 + n) % 4 == n % 4
  {
  }

  lemma ThreeLess(n: nat)
    requires n >= 3
    ensures LastGroup(n) == LastGroup(n - 3)
  {
  }

  /** The length is four thirds of the number of bytes, rounded up. */
  lemma {:induction false} UnpaddedLength(b: Bytes)
    ensures 4 * |b| <= 3 * |Unpadded(b)| <= 4 * |b| + 2 && |Unpadded(b)| % 4 == LastGroup(|b|)
    decreases |b|
  {
    hide Char, S0, S1, S2, S3;
    if |b| >= 3 {
      hide LastGroup;
      UnpaddedLength(b[3..]);
      ThreeLess(|b|);
      FourMore(|Unpadded(b[3..])|);
      assert |Unpadded(b)| == 4 + |Unpadded(b[3..])|;
    }
  }

  lemma EncodingIs(b: Bytes)
    ensures JoseEncode(b) == Unpadded(b)
  {
    EncodeIsPadded(b);
    UnpaddedIsClean(b);
    hide Unpadded, Encode, TrimRight, Clean;
    TrimClean(Unpadded(b));
    assert Unpadded(b) + [] == Unpadded(b);
  }

  /**
    The encoding is clean, four thirds of the bytes long, rounded up, and never one more than
    a multiple of four.
   */
  lemma EncodedLength(b: Bytes)
    ensures JoseEncode(b) == Unpadded(b) && Clean(JoseEncode(b))
    ensures 4 * |b| <= 3 * |JoseEncode(b)| <= 4 * |b| + 2 && |JoseEncode(b)| % 4 != 1
  {
    hide Unpadded, JoseEncode, Clean;
    EncodingIs(b);
    UnpaddedIsClean(b);
    UnpaddedLength(b);
  }

  // ---------- decoding an encoding ----------

  lemma {:induction false} NoLineBreaks(s: Bytes)
    requires forall k :: 0 <= k < |s| ==> s[k] != CR && s[k] != NEWLINE
    ensures WithoutLineBreaks(s) == s
  {
    if s != [] { NoLineBreaks(s[1..]); }
  }

  lemma CleanHasNoLineBreaks(s: Bytes, n: nat)
    requires Clean(s)
    ensures WithoutLineBreaks(s + Padding(n)) == s + Padding(n)
  {
    var t := s + Padding(n);
    forall k | 0 <= k < |t| ensures t[k] != CR && t[k] != NEWLINE {
      if k < |s| { assert InAlphabet(s[k]); }
    }
    NoLineBreaks(t);
  }

  lemma Digit4(q: int, r: int)
    requires 0 <= r < 4
    ensures (q * 4 + r) / 4 == q && (q * 4 + r) % 4 == r
  {
  }

  lemma Digit16(q: int, r: int)
    requires 0 <= r < 16
    ensures (q * 16 + r) / 16 == q && (q * 16 + r) % 16 == r
  {
  }

  lemma Digit64(q: int, r: int)
    requires 0 <= r < 64
    ensures (q * 64 + r) / 64 == q && (q * 64 + r) % 64 == r
  {
  }

  /** The bytes come back from their sextets. */
  lemma BytesBack(x: Byte, y: Byte, z: Byte)
    ensures One(S0(x), S1(x, y)) == x && Two(S1(x, y), S2(y, z)) == y && Three(S2(y, z), S3(z)) == z
  {
    var a: int, b: int, c: int := x, y, z;
    Digit16(a % 4, b / 16);
    Digit4(b % 16, c / 64);
  }

  lemma DecodeTwo(c: Byte, d: Byte)
    requires InAlphabet(c) && InAlphabet(d)
    ensures DecodeGroups([c, d, PAD, PAD]) == Some([One(ValueOf(c).value, ValueOf(d).value)])
  {
    hide ValueOf, One;
  }

  lemma DecodeThree(c: Byte, d: Byte, e: Byte)
    requires InAlphabet(c) && InAlphabet(d) && InAlphabet(e) && e != PAD
    ensures DecodeGroups([c, d, e, PAD]) ==
      Some([One(ValueOf(c).value, ValueOf(d).value), Two(ValueOf(d).value, ValueOf(e).value)])
  {
    hide ValueOf, One, Two;
  }

  lemma DecodeFour(t: Bytes)
    requires |t| >= 4 && Clean(t[..4]) && t[2] != PAD && t[3] != PAD && DecodeGroups(t[4..]).Some?
    ensures InAlphabet(t[0]) && InAlphabet(t[1]) && InAlphabet(t[2]) && InAlphabet(t[3])
    ensures DecodeGroups(t) == Some(
      [One(ValueOf(t[0]).value, ValueOf(t[1]).value), Two(ValueOf(t[1]).value, ValueOf(t[2]).value),
       Three(ValueOf(t[2]).value, ValueOf(t[3]).value)] + DecodeGroups(t[4..]).value)
  {
    assert forall k :: 0 <= k < 4 ==> t[..4][k] == t[k];
    hide ValueOf, One, Two, Three;
  }

  lemma {:induction false} DecodeOfEncode(b: Bytes)
    ensures DecodeGroups(Encode(b)) == Some(b)
    decreases |b|
  {
    hide DecodeGroups, Char, ValueOf, One, Two, Three, S0, S1, S2, S3;
    if |b| == 0 {
      DecodeNone();
    } else if |b| == 1 {
      CharIsClean(S0(b[0]));
      CharIsClean(S1(b[0], 0));
      BytesBack(b[0], 0, 0);
      DecodeTwo(Char(S0(b[0])), Char(S1(b[0], 0)));
      assert b == [b[0]];
    } else if |b| == 2 {
      CharIsClean(S0(b[0]));
      CharIsClean(S1(b[0], b[1]));
      CharIsClean(S2(b[1], 0));
      BytesBack(b[0], b[1], 0);
      DecodeThree(Char(S0(b[0])), Char(S1(b[0], b[1])), Char(S2(b[1], 0)));
      assert b == [b[0], b[1]];
    } else {
      DecodeOfEncode(b[3..]);
      DecodeQuad(b[0], b[1], b[2], Encode(b[3..]));
      assert b == [b[0], b[1], b[2]] + b[3..];
    }
  }

  lemma DecodeNone()
    ensures DecodeGroups([]) == Some([])
  {
  }

  lemma DecodeQuad(x: Byte, y: Byte, z: Byte, rest: Bytes)
    requires DecodeGroups(rest).Some?
    ensures DecodeGroups(Quad(x, y, z) + rest) == Some([x, y, z] + DecodeGroups(rest).value)
  {
    hide DecodeGroups, Char, ValueOf, One, Two, Three, S0, S1, S2, S3;
    CharIsClean(S0(x));
    CharIsClean(S1(x, y));
    CharIsClean(S2(y, z));
    CharIsClean(S3(z));
    BytesBack(x, y, z);
    var t := Quad(x, y, z) + rest;
    assert t[4..] == rest && t[..4] == Quad(x, y, z);
    DecodeFour(t);
  }

  // ---------- encoding a decoding ----------

  /** The bits of the last character that stand for no byte are zero. */
  predicate LowBitsZero(s: Bytes)
    requires Clean(s)
  {
    && (|s| % 4 == 2 ==> Low(s[|s| - 1]) % 16 == 0)
    && (|s| % 4 == 3 ==> Low(s[|s| - 1]) % 4 == 0)
  }

  function Low(c: Byte): int
    requires InAlphabet(c)
  {
    ValueOf(c).value
  }

  /** An unpadded base64url text as an encoder writes it. */
  predicate Canonical(s: Bytes) { Clean(s) && |s| % 4 != 1 && LowBitsZero(s) }

  function PaddingFor(n: nat): Bytes {
    if n % 4 == 2 then [PAD, PAD] else if n % 4 == 3 then [PAD] else []
  }

  lemma LowOfEncoding(x: Byte, y: Byte)
    ensures (S1(x, 0) as int) % 16 == 0 && (S2(y, 0) as int) % 4 == 0
  {
  }

  lemma {:induction false} UnpaddedIsCanonical(b: Bytes)
    ensures Canonical(Unpadded(b))
    decreases |b|
  {
    UnpaddedIsClean(b);
    if 0 < |b| < 3 {
      LastIsLow(b);
    } else if |b| >= 3 {
      UnpaddedIsCanonical(b[3..]);
      hide Unpadded, Clean, InAlphabet, ValueOf;
      QuadKeepsCanonical(Quad(b[0], b[1], b[2]), Unpadded(b[3..]));
      assert Unpadded(b) == Quad(b[0], b[1], b[2]) + Unpadded(b[3..]) by { UnpaddedStep(b); }
    }
  }

  lemma UnpaddedStep(b: Bytes)
    requires |b| >= 3
    ensures Unpadded(b) == Quad(b[0], b[1], b[2]) + Unpadded(b[3..])
  {
  }

  lemma LastIsLow(b: Bytes)
    requires 0 < |b| < 3 && Clean(Unpadded(b))
    ensures LowBitsZero(Unpadded(b)) && |Unpadded(b)| % 4 != 1
  {
    LowOfEncoding(b[0], b[|b| - 1]);
    forall v: Sextet ensures ValueOf(Char(v)) == Some(v) { CharIsClean(v); }
    hide Char, ValueOf, S0, S1, S2, S3;
  }

  lemma QuadKeepsCanonical(quad: Bytes, rest: Bytes)
    requires |quad| == 4 && Canonical(rest) && Clean(quad + rest)
    ensures Canonical(quad + rest)
  {
    hide ValueOf;
    var s := quad + rest;
    FourMore(|rest|);
    assert |rest| > 0 ==> s[|s| - 1] == rest[|rest| - 1];
  }

  lemma Resplit(p: Sextet, q: Sextet, r: Sextet, t: Sextet)
    ensures S0(One(p, q)) == p && S1(One(p, q), Two(q, r)) == q
    ensures S2(Two(q, r), Three(r, t)) == r && S3(Three(r, t)) == t
  {
    var a: int, b: int, c: int, d: int := p, q, r, t;
    Digit4(a, b / 16);
    Digit16(b % 16, c / 4);
    Digit64(c % 4, d);
  }

  lemma LowResplit(p: Sextet, q: Sextet, r: Sextet)
    ensures (q as int) % 16 == 0 ==> S1(One(p, q), 0) == q
    ensures (r as int) % 4 == 0 ==> S2(Two(q, r), 0) == r
  {
    var a: int, b: int, c: int := p, q, r;
    Digit4(a, b / 16);
    Digit16(b % 16, c / 4);
  }

  lemma CleanRest(s: Bytes)
    requires Canonical(s) && |s| >= 4
    ensures Canonical(s[4..])
  {
    hide ValueOf;
    var rest := s[4..];
    FourMore(|rest|);
    assert forall k :: 0 <= k < |rest| ==> rest[k] == s[k + 4];
    assert |rest| > 0 ==> rest[|rest| - 1] == s[|s| - 1];
  }

  lemma CharsOf(s: Bytes, k: nat)
    requires Clean(s) && k < |s|
    ensures ValueOf(s[k]).Some? && Char(ValueOf(s[k]).value) == s[k] && s[k] != PAD && ValueOf(PAD) == None
  {
    assert InAlphabet(s[k]);
    AlphabetInverse(0, s[k]);
  }

  lemma TwoEncodeOfDecode(s: Bytes)
    requires Canonical(s) && |s| == 2
    ensures DecodeGroups(s + PaddingFor(2)).Some? && Unpadded(DecodeGroups(s + PaddingFor(2)).value) == s
  {
    hide DecodeGroups, Char, ValueOf, One, Two, Three, S0, S1, S2, S3;
    CharsOf(s, 0);
    CharsOf(s, 1);
    DecodeTwo(s[0], s[1]);
    assert s + PaddingFor(2) == [s[0], s[1], PAD, PAD];
    LowResplit(ValueOf(s[0]).value, ValueOf(s[1]).value, 0);
    Resplit(ValueOf(s[0]).value, ValueOf(s[1]).value, 0, 0);
  }

  lemma ThreeEncodeOfDecode(s: Bytes)
    requires Canonical(s) && |s| == 3
    ensures DecodeGroups(s + PaddingFor(3)).Some? && Unpadded(DecodeGroups(s + PaddingFor(3)).value) == s
  {
    hide DecodeGroups, Char, ValueOf, One, Two, Three, S0, S1, S2, S3;
    CharsOf(s, 0);
    CharsOf(s, 1);
    CharsOf(s, 2);
    DecodeThree(s[0], s[1], s[2]);
    assert s + PaddingFor(3) == [s[0], s[1], s[2], PAD];
    LowResplit(ValueOf(s[0]).value, ValueOf(s[1]).value, ValueOf(s[2]).value);
    Resplit(ValueOf(s[0]).value, ValueOf(s[1]).value, ValueOf(s[2]).value, 0);
  }

  lemma ShortEncodeOfDecode(s: Bytes)
    requires Canonical(s) && |s| < 4
    ensures DecodeGroups(s + PaddingFor(|s|)).Some?
    ensures Unpadded(DecodeGroups(s + PaddingFor(|s|)).value) == s
  {
    if |s| == 0 {
      DecodeNone();
      assert s + PaddingFor(|s|) == [] && s == [];
    } else if |s| == 2 {
      TwoEncodeOfDecode(s);
    } else {
      ThreeEncodeOfDecode(s);
    }
  }

  /** A canonical text decodes, to bytes that encode to it. */
  lemma {:induction false} EncodeOfDecode(s: Bytes)
    requires Canonical(s)
    ensures DecodeGroups(s + PaddingFor(|s|)).Some?
    ensures Unpadded(DecodeGroups(s + PaddingFor(|s|)).value) == s
    decreases |s|
  {
    if |s| < 4 {
      ShortEncodeOfDecode(s);
    } else {
      CleanRest(s);
      EncodeOfDecode(s[4..]);
      FirstGroup(s);
    }
  }

  lemma FirstGroup(s: Bytes)
    requires Clean(s) && |s| >= 4
    requires DecodeGroups(s[4..] + PaddingFor(|s[4..]|)).Some?
    requires Unpadded(DecodeGroups(s[4..] + PaddingFor(|s[4..]|)).value) == s[4..]
    ensures DecodeGroups(s + PaddingFor(|s|)).Some?
    ensures Unpadded(DecodeGroups(s + PaddingFor(|s|)).value) == s
  {
    hide DecodeGroups, Char, ValueOf, One, Two, Three, S0, S1, S2, S3;
    var t := s + PaddingFor(|s|);
    assert t[4..] == s[4..] + PaddingFor(|s[4..]|) && t[..4] == s[..4];
    CharsOf(s, 0); CharsOf(s, 1); CharsOf(s, 2); CharsOf(s, 3);
    var p, q, r, u := ValueOf(s[0]).value, ValueOf(s[1]).value, ValueOf(s[2]).value, ValueOf(s[3]).value;
    Resplit(p, q, r, u);
    DecodeFour(t);
    var rest := DecodeGroups(t[4..]).value;
    var b := [One(p, q), Two(q, r), Three(r, u)] + rest;
    assert b[3..] == rest;
    UnpaddedStep(b);
    hide Unpadded;
    assert s == [s[0], s[1], s[2], s[3]] + s[4..];
  }

  lemma ClearPadding(s: Bytes)
    requires Canonical(s)
    ensures JoseDecode(s) == DecodeGroups(s + PaddingFor(|s|))
  {
    hide DecodeGroups;
    CleanHasNoLineBreaks(s, 0);
    CleanHasNoLineBreaks(s, 1);
    CleanHasNoLineBreaks(s, 2);
    assert s + [] == s;
  }

  lemma PaddingMatches(n: nat, m: nat)
    requires m % 4 == LastGroup(n)
    ensures PaddingFor(m) == Padding(n)
  {
  }

  /** Every byte string comes back from its unpadded encoding. */
  lemma JoseRoundTrip(b: Bytes)
    ensures JoseDecode(JoseEncode(b)) == Some(b)
  {
    hide Unpadded, Encode, DecodeGroups, JoseEncode, Canonical, PaddingFor, Padding, JoseDecode;
    EncodedLength(b);
    UnpaddedIsCanonical(b);
    ClearPadding(Unpadded(b));
    UnpaddedLength(b);
    PaddingMatches(|b|, |Unpadded(b)|);
    EncodeIsPadded(b);
    DecodeOfEncode(b);
  }

  /** Encoding what a text decodes to gives the text back exactly when the text is canonical. */
  lemma ReencodesExactlyWhen(s: Bytes)
    requires JoseDecode(s).Some?
    ensures JoseEncode(JoseDecode(s).value) == s <==> Canonical(s)
  {
    var b := JoseDecode(s).value;
    EncodedLength(b);
    UnpaddedIsCanonical(b);
    if Canonical(s) {
      EncodeOfDecode(s);
      ClearPadding(s);
    }
  }

  // ---------- the token ----------

  /** `strings.Split(s, ".")`. */
  function Split(s: Bytes): (parts: seq<Bytes>)
    ensures |parts| > 0
  {
    if s == [] then [[]]
    else
      var rest := Split(s[1..]);
      if s[0] == DOT then [[]] + rest else [[s[0]] + rest[0]] + rest[1..]
  }

  function JoinDots(parts: seq<Bytes>): Bytes {
    if |parts| == 0 then []
    else if |parts| == 1 then parts[0]
    else parts[0] + [DOT] + JoinDots(parts[1..])
  }

  predicate NoDot(s: Bytes) { forall k :: 0 <= k < |s| ==> s[k] != DOT }

  /** A parsed token: the text that was signed, the decoded parts, and the signature. */
  datatype Token = Token(raw: Bytes, header: Bytes, claims: Bytes, signature: Bytes)

  datatype TokenError = MalformedToken

  /** `NewToken`; `readsHeader` and `readsClaims` stand for the JSON reader of the two structures. */
  function NewToken(rawToken: Bytes, readsHeader: Bytes -> bool, readsClaims: Bytes -> bool)
    : Result<Token, TokenError>
  {
    var parts := Split(rawToken);
    if |parts| != 3 then Err(MalformedToken)
    else
      var header, claims, signature := JoseDecode(parts[0]), JoseDecode(parts[1]), JoseDecode(parts[2]);
      if header.None? || claims.None? || signature.None? then Err(MalformedToken)
      else if !readsHeader(header.value) || !readsClaims(claims.value) then Err(MalformedToken)
      else Ok(Token(JoinDots(parts[..2]), header.value, claims.value, signature.value))
  }

  /** `compactRaw`. */
  function CompactRaw(t: Token): Bytes {
    t.raw + [DOT] + JoseEncode(t.signature)
  }

  lemma {:induction false} SplitAtDot(a: Bytes, rest: Bytes)
    requires NoDot(a)
    ensures Split(a + [DOT] + rest) == [a] + Split(rest)
  {
    var s := a + [DOT] + rest;
    if a == [] {
      assert s[1..] == rest;
    } else {
      SplitAtDot(a[1..], rest);
      assert s[1..] == a[1..] + [DOT] + rest;
      assert a == [a[0]] + a[1..];
    }
  }

  lemma {:induction false} SplitWithoutDot(a: Bytes)
    requires NoDot(a)
    ensures Split(a) == [a]
  {
    if a != [] {
      SplitWithoutDot(a[1..]);
      assert a == [a[0]] + a[1..];
    }
  }

  lemma {:induction false} JoinOfSplit(s: Bytes)
    ensures JoinDots(Split(s)) == s
  {
    if s != [] {
      var rest := Split(s[1..]);
      JoinOfSplit(s[1..]);
      if s[0] == DOT {
        assert Split(s)[1..] == rest;
      } else if |rest| > 1 {
        assert Split(s)[1..] == rest[1..];
        assert s == [s[0]] + s[1..];
      }
    }
  }

  lemma EncodingHasNoDot(b: Bytes)
    ensures NoDot(JoseEncode(b))
  {
    EncodedLength(b);
    var e := JoseEncode(b);
    hide JoseEncode;
    forall k | 0 <= k < |e| ensures e[k] != DOT { assert InAlphabet(e[k]); }
  }

  /** The text of a token with these parts. */
  function Compact(header: Bytes, claims: Bytes, signature: Bytes): Bytes {
    JoseEncode(header) + [DOT] + (JoseEncode(claims) + [DOT] + JoseEncode(signature))
  }

  lemma SplitCompact(h: Bytes, c: Bytes, s: Bytes)
    ensures Split(Compact(h, c, s)) == [JoseEncode(h), JoseEncode(c), JoseEncode(s)]
  {
    hide JoseEncode;
    EncodingHasNoDot(h);
    EncodingHasNoDot(c);
    EncodingHasNoDot(s);
    SplitAtDot(JoseEncode(h), JoseEncode(c) + [DOT] + JoseEncode(s));
    SplitAtDot(JoseEncode(c), JoseEncode(s));
    SplitWithoutDot(JoseEncode(s));
  }

  lemma JoinTwo(parts: seq<Bytes>)
    requires |parts| == 3
    ensures JoinDots(parts[..2]) == parts[0] + [DOT] + parts[1]
    ensures JoinDots(parts) == JoinDots(parts[..2]) + [DOT] + parts[2]
  {
    assert parts[..2][1..] == [parts[1]];
    assert parts[1..] == [parts[1], parts[2]] && parts[1..][1..] == [parts[2]];
    assert JoinDots(parts[1..][1..]) == parts[2];
    assert JoinDots(parts[1..]) == parts[1] + [DOT] + parts[2];
    assert parts[0] + [DOT] + (parts[1] + [DOT] + parts[2]) == (parts[0] + [DOT] + parts[1]) + [DOT] + parts[2];
  }

  /** The token made of any three byte strings is read back as these, and written as the same text. */
  lemma TokenRoundTrip(h: Bytes, c: Bytes, s: Bytes, readsHeader: Bytes -> bool, readsClaims: Bytes -> bool)
    ensures var r := NewToken(Compact(h, c, s), readsHeader, readsClaims);
      && (r.Ok? <==> readsHeader(h) && readsClaims(c))
      && (r.Ok? ==> r.value.header == h && r.value.claims == c && r.value.signature == s
                    && CompactRaw(r.value) == Compact(h, c, s))
  {
    hide JoseEncode, JoseDecode;
    SplitCompact(h, c, s);
    JoseRoundTrip(h);
    JoseRoundTrip(c);
    JoseRoundTrip(s);
    JoinTwo([JoseEncode(h), JoseEncode(c), JoseEncode(s)]);
  }

  /** For any accepted text, `compactRaw` gives it back exactly when its signature part is canonical. */
  lemma CompactRawRebuildsExactlyWhen(text: Bytes, readsHeader: Bytes -> bool, readsClaims: Bytes -> bool)
    requires NewToken(text, readsHeader, readsClaims).Ok?
    ensures CompactRaw(NewToken(text, readsHeader, readsClaims).value) == text <==> Canonical(Split(text)[2])
  {
    hide JoseEncode, JoseDecode, Canonical;
    var parts := Split(text);
    var t := NewToken(text, readsHeader, readsClaims).value;
    JoinOfSplit(text);
    JoinTwo(parts);
    ReencodesExactlyWhen(parts[2]);
    assert text == t.raw + [DOT] + parts[2];
    var e := JoseEncode(t.signature);
    if t.raw + [DOT] + e == text {
      assert e == text[|t.raw| + 1..] == parts[2];
    }
  }

  /** `AB`: a signature part whose last bits, which stand for no byte, are not zero. */
  const LOOSE_SIGNATURE: Bytes := [65, 66]

  lemma LooseDecodes()
    ensures JoseDecode(LOOSE_SIGNATURE).Some? && !Canonical(LOOSE_SIGNATURE) && NoDot(LOOSE_SIGNATURE)
  {
    hide DecodeGroups;
    NoLineBreaks([65, 66, PAD, PAD]);
    assert LOOSE_SIGNATURE + [PAD, PAD] == [65, 66, PAD, PAD];
    DecodeTwo(65, 66);
    assert Low(LOOSE_SIGNATURE[1]) == 1;
  }

  /** A token with this header and these claims, and the loose signature: `e30.e30.AB` for two empty objects. */
  function LooseToken(header: Bytes, claims: Bytes): Bytes {
    JoseEncode(header) + [DOT] + (JoseEncode(claims) + [DOT] + LOOSE_SIGNATURE)
  }

  lemma LooseParts(h: Bytes, c: Bytes)
    ensures Split(LooseToken(h, c)) == [JoseEncode(h), JoseEncode(c), LOOSE_SIGNATURE]
  {
    hide JoseEncode, JoseDecode, Canonical, Split;
    EncodingHasNoDot(h);
    EncodingHasNoDot(c);
    LooseDecodes();
    SplitAtDot(JoseEncode(h), JoseEncode(c) + [DOT] + LOOSE_SIGNATURE);
    SplitAtDot(JoseEncode(c), LOOSE_SIGNATURE);
    SplitWithoutDot(LOOSE_SIGNATURE);
  }

  /** With any header and claims that are read, the loose token is accepted, and `compactRaw` writes another text. */
  lemma LooseTokenIsRewritten(h: Bytes, c: Bytes, readsHeader: Bytes -> bool, readsClaims: Bytes -> bool)
    requires readsHeader(h) && readsClaims(c)
    ensures NewToken(LooseToken(h, c), readsHeader, readsClaims).Ok?
    ensures CompactRaw(NewToken(LooseToken(h, c), readsHeader, readsClaims).value) != LooseToken(h, c)
  {
    hide Split, JoseDecode, JoseEncode, Canonical, LooseToken;
    LooseParts(h, c);
    JoseRoundTrip(h);
    JoseRoundTrip(c);
    LooseDecodes();
    CompactRawRebuildsExactlyWhen(LooseToken(h, c), readsHeader, readsClaims);
  }
}
