/**
  The UTF-8 codec of the bundled Buffer (`cluster/swagger/swagger-ui.js`, functions `W`,
  `C` and `A`). Strings are UTF-16 code units, buffers are bytes; the masks and shifts of
  the source are written as divisions and remainders.
 */
module Utf8 {
  import opened Texts

  type Scalar = c: int | 0 <= c < 0x11_0000 && !(0xd800 <= c < 0xe000)

  predicate IsScalar(c: int) { 0 <= c < 0x11_0000 && !(0xd800 <= c < 0xe000) }

  const REPLACEMENT: Scalar := 0xfffd

  // ---------- one code point ----------

  /** The bytes `W` pushes for a code point. */
  function BytesOf(c: int): Bytes
    requires 0 <= c < 0x11_0000
  {
    if c < 128 then [c]
    else if c < 2048 then [c / 64 + 192, c % 64 + 128]
    else if c < 65536 then [c / 4096 + 224, c / 64 % 64 + 128, c % 64 + 128]
    else [c / 262144 + 240, c / 4096 % 64 + 128, c / 64 % 64 + 128, c % 64 + 128]
  }

  /** The code units of a code point. */
  function UnitsOf(c: Scalar): Text {
    if c < 65536 then [c] else [(c - 65536) / 1024 + 55296, (c - 65536) % 1024 + 56320]
  }

  function Utf8Of(cs: seq<Scalar>): Bytes {
    if cs == [] then [] else BytesOf(cs[0]) + Utf8Of(cs[1..])
  }

  function Utf16Of(cs: seq<Scalar>): Text {
    if cs == [] then [] else UnitsOf(cs[0]) + Utf16Of(cs[1..])
  }

  // ---------- W: encoding ----------

  predicate IsLead(r: int) { 0xd800 <= r < 0xdc00 }
  predicate IsTrail(r: int) { 0xdc00 <= r < 0xe000 }

  /** What one turn of the loop pushes, with `lead` the pending lead surrogate (0 for none). */
  function Pushed(s: Text, i: nat, lead: int): Bytes
    requires i < |s| && (lead == 0 || IsLead(lead))
  {
    if IsLead(s[i]) || IsTrail(s[i]) then
      if lead == 0 then if IsTrail(s[i]) || i + 1 == |s| then BytesOf(REPLACEMENT) else []
      else if IsLead(s[i]) then BytesOf(REPLACEMENT)
      else BytesOf((lead - 0xd800) * 1024 + (s[i] - 0xdc00) + 65536)
    else if lead != 0 then BytesOf(REPLACEMENT) + BytesOf(s[i])
    else BytesOf(s[i])
  }

  /** The pending lead surrogate after that turn. */
  function NextLead(s: Text, i: nat, lead: int): (r: int)
    requires i < |s|
    ensures r == 0 || IsLead(r)
  {
    if IsLead(s[i]) && (lead != 0 || i + 1 < |s|) then s[i] else 0
  }

  /** What is pushed from index `i` on. */
  function EncodeFrom(s: Text, i: nat, lead: int): Bytes
    requires i <= |s| && (lead == 0 || IsLead(lead))
    decreases |s| - i
  {
    if i == |s| then [] else Pushed(s, i, lead) + EncodeFrom(s, i + 1, NextLead(s, i, lead))
  }

  function Encode(s: Text): Bytes {
    EncodeFrom(s, 0, 0)
  }

  /** `W(s)` without a byte limit. */
  method EncodeUtf8(s: Text) returns (a: Bytes)
    ensures a == Encode(s)
  {
    a := [];
    var lead := 0;
    var u := 0;
    while u < |s|
      invariant 0 <= u <= |s| && (lead == 0 || IsLead(lead))
      invariant a + EncodeFrom(s, u, lead) == Encode(s)
    {
      hide BytesOf, EncodeFrom, Encode;
      EncodeTurn(s, u, lead, a);
      var next := EncodeUnit(s, u, lead);
      a := a + next.0;
      lead := next.1;
      u := u + 1;
    }
  }

  lemma EncodeTurn(s: Text, i: nat, lead: int, a: Bytes)
    requires i < |s| && (lead == 0 || IsLead(lead))
    ensures a + EncodeFrom(s, i, lead) == a + Pushed(s, i, lead) + EncodeFrom(s, i + 1, NextLead(s, i, lead))
  {
    hide Pushed, NextLead;
  }

  /** The body of the loop of `W`: what it pushes and the lead it leaves pending. */
  method EncodeUnit(s: Text, u: nat, pending: int) returns (r: (Bytes, int))
    requires u < |s| && (pending == 0 || IsLead(pending))
    ensures r == (Pushed(s, u, pending), NextLead(s, u, pending))
  {
    hide BytesOf;
    var c: int := s[u];
    var lead := pending;
    if c > 55295 && c < 57344 {
      if lead == 0 {
        if c > 56319 { return (BytesOf(REPLACEMENT), 0); }
        if u + 1 == |s| { return (BytesOf(REPLACEMENT), 0); }
        return ([], c);
      }
      if c < 56320 { return (BytesOf(REPLACEMENT), c); }
      c := (lead - 55296) * 1024 + (c - 56320) + 65536;
      return (BytesOf(c), 0);
    }
    if lead != 0 { return (BytesOf(REPLACEMENT) + BytesOf(c), 0); }
    return (BytesOf(c), 0);
  }

  // ---------- C and A: decoding ----------

  predicate IsTail(b: int) { b / 64 == 2 }

  /** The number of bytes the first byte announces. */
  function Announced(first: Byte): (n: nat)
    ensures 1 <= n <= 4
  {
    if first > 239 then 4 else if first > 223 then 3 else if first > 191 then 2 else 1
  }

  function Two(a: int, b: int): int { a % 32 * 64 + b % 64 }
  function Three(a: int, b: int, c: int): int { a % 16 * 4096 + b % 64 * 64 + c % 64 }
  function Four(a: int, b: int, c: int, d: int): int { a % 16 * 262144 + b % 64 * 4096 + c % 64 * 64 + d % 64 }

  /** The code point that stands complete before `end` and valid at `o`; -1 when none does. */
  function CodePointAt(b: Bytes, end: nat, o: nat): (c: int)
    requires o < end <= |b|
    ensures c == -1 || IsScalar(c)
    ensures c != -1 ==> o + Announced(b[o]) <= end
  {
    var n := Announced(b[o]);
    if o + n > end then -1
    else if n == 1 then if b[o] < 128 then b[o] else -1
    else if n == 2 then
      var c := Two(b[o], b[o + 1]);
      if IsTail(b[o + 1]) && c > 127 then c else -1
    else if n == 3 then
      var c := Three(b[o], b[o + 1], b[o + 2]);
      if IsTail(b[o + 1]) && IsTail(b[o + 2]) && c > 2047 && (c < 55296 || c > 57343) then c else -1
    else
      var c := Four(b[o], b[o + 1], b[o + 2], b[o + 3]);
      if IsTail(b[o + 1]) && IsTail(b[o + 2]) && IsTail(b[o + 3]) && c > 65535 && c < 1114112 then c else -1
  }

  /** The code points read from `o` on; a byte that starts none is replaced. */
  function DecodedFrom(b: Bytes, end: nat, o: nat): seq<Scalar>
    requires o <= end <= |b|
    decreases end - o
  {
    if o == end then []
    else
      var c := CodePointAt(b, end, o);
      if c == -1 then [REPLACEMENT] + DecodedFrom(b, end, o + 1)
      else [c] + DecodedFrom(b, end, o + Announced(b[o]))
  }

  function Decode(b: Bytes): Text {
    Utf16Of(DecodedFrom(b, |b|, 0))
  }

  const CHUNK: nat := 4096

  /** `A(codes)`: the string of the units, put together in chunks. */
  method FromCharCodes(codes: Text) returns (r: Text)
    ensures r == codes
  {
    var t := |codes|;
    if t <= CHUNK { return codes; }
    r := [];
    var n := 0;
    while n < t
      invariant 0 <= n && r == codes[..if n < t then n else t]
    {
      var end := if n + CHUNK < t then n + CHUNK else t;
      r := r + codes[n..end];
      n := n + CHUNK;
    }
  }

  /** The code point one turn of the loop of `C` yields, and the offset of the next turn. */
  function Turn(e: Bytes, r: nat, o: nat): (t: (Scalar, nat))
    requires o < r <= |e|
    ensures o < t.1 <= r
  {
    var c := CodePointAt(e, r, o);
    if c == -1 then (REPLACEMENT, o + 1) else (c, o + Announced(e[o]))
  }

  /** `C(e, start, end)`: every turn advances by at least one byte. */
  method DecodeUtf8(e: Bytes, start: nat, end: nat) returns (s: Text)
    requires start <= end && start <= |e|
    ensures s == Utf16Of(DecodedFrom(e, if end < |e| then end else |e|, start))
  {
    var r := if end < |e| then end else |e|;
    var n: Text := [];
    var o := start;
    while o < r
      invariant start <= o <= r
      invariant n + Utf16Of(DecodedFrom(e, r, o)) == Utf16Of(DecodedFrom(e, r, start))
      decreases r - o
    {
      hide Turn, UnitsOf, Utf16Of, DecodedFrom;
      DecodeTurn(e, r, o, n);
      var units, next := DecodeOne(e, r, o);
      n := n + units;
      o := next;
    }
    s := FromCharCodes(n);
  }

  lemma DecodeTurn(e: Bytes, r: nat, o: nat, n: Text)
    requires o < r <= |e|
    ensures var t := Turn(e, r, o);
      n + Utf16Of(DecodedFrom(e, r, o)) == n + UnitsOf(t.0) + Utf16Of(DecodedFrom(e, r, t.1))
  {
    hide CodePointAt, Announced, UnitsOf;
    var t := Turn(e, r, o);
    assert DecodedFrom(e, r, o) == [t.0] + DecodedFrom(e, r, t.1);
    assert Utf16Of([t.0] + DecodedFrom(e, r, t.1)) == UnitsOf(t.0) + Utf16Of(DecodedFrom(e, r, t.1));
  }

  /** The body of the loop of `C`: the units it pushes and the next offset. */
  method DecodeOne(e: Bytes, r: nat, o: nat) returns (units: Text, next: nat)
    requires o < r <= |e|
    ensures units == UnitsOf(Turn(e, r, o).0) && next == Turn(e, r, o).1
  {
    hide CodePointAt;
    var u := CodePointAt(e, r, o);
    var i := Announced(e[o]);
    units := [];
    if u == -1 {
      u := 65533;
      i := 1;
    } else if u > 65535 {
      u := u - 65536;
      units := [u / 1024 + 55296];
      u := 56320 + u % 1024;
    }
    units := units + [u];
    next := o + i;
  }

  lemma CodePointInRange(e: Bytes, start: nat, r: nat, o: nat)
    requires start <= o < r <= |e|
    ensures CodePointAt(e, r, o) == CodePointAt(e[start..r], r - start, o - start)
    ensures Announced(e[o]) == Announced(e[start..r][o - start])
  {
    hide IsTail, Two, Three, Four;
    var t := e[start..r];
    assert forall k :: o <= k < r ==> t[k - start] == e[k];
  }

  lemma DecodedStep(b: Bytes, end: nat, o: nat)
    requires o < end <= |b|
    ensures DecodedFrom(b, end, o) ==
      var c := CodePointAt(b, end, o);
      if c == -1 then [REPLACEMENT] + DecodedFrom(b, end, o + 1) else [c] + DecodedFrom(b, end, o + Announced(b[o]))
  {
    hide CodePointAt, Announced;
  }

  lemma DecodedEnd(b: Bytes, end: nat)
    requires end <= |b|
    ensures DecodedFrom(b, end, end) == []
  {
  }

  /** Decoding a range is decoding the bytes of the range. */
  lemma {:induction false} DecodedRange(e: Bytes, start: nat, r: nat, o: nat)
    requires start <= o <= r <= |e|
    ensures DecodedFrom(e, r, o) == DecodedFrom(e[start..r], r - start, o - start)
    decreases r - o
  {
    hide DecodedFrom, CodePointAt, Announced;
    if o == r {
      DecodedEnd(e, r);
      DecodedEnd(e[start..r], r - start);
    } else {
      CodePointInRange(e, start, r, o);
      DecodedStep(e, r, o);
      DecodedStep(e[start..r], r - start, o - start);
      if CodePointAt(e, r, o) == -1 {
        DecodedRange(e, start, r, o + 1);
      } else {
        DecodedRange(e, start, r, o + Announced(e[o]));
      }
    }
  }

  // ---------- well-formed texts and buffers ----------

  /** Every surrogate is half of a pair. */
  predicate WellFormed16(s: Text) {
    if s == [] then true
    else if IsLead(s[0]) then |s| >= 2 && IsTrail(s[1]) && WellFormed16(s[2..])
    else !IsTrail(s[0]) && WellFormed16(s[1..])
  }

  /** The byte sequences section 4 of RFC 3629 allows for one character, by length. */
  predicate OneChar(b: Bytes) {
    || (|b| == 1 && b[0] <= 0x7f)
    || (|b| == 2 && 0xc2 <= b[0] <= 0xdf && 0x80 <= b[1] <= 0xbf)
    || (|b| == 3
        && (|| (b[0] == 0xe0 && 0xa0 <= b[1] <= 0xbf)
            || (0xe1 <= b[0] <= 0xec && 0x80 <= b[1] <= 0xbf)
            || (b[0] == 0xed && 0x80 <= b[1] <= 0x9f)
            || (0xee <= b[0] <= 0xef && 0x80 <= b[1] <= 0xbf))
        && 0x80 <= b[2] <= 0xbf)
    || (|b| == 4
        && (|| (b[0] == 0xf0 && 0x90 <= b[1] <= 0xbf)
            || (0xf1 <= b[0] <= 0xf3 && 0x80 <= b[1] <= 0xbf)
            || (b[0] == 0xf4 && 0x80 <= b[1] <= 0x8f))
        && 0x80 <= b[2] <= 0xbf && 0x80 <= b[3] <= 0xbf)
  }

  /** The buffer is a sequence of characters as section 4 of RFC 3629 defines them. */
  predicate WellFormed8(b: Bytes) {
    b == [] || exists n: nat :: 1 <= n <= 4 && n <= |b| && OneChar(b[..n]) && WellFormed8(b[n..])
  }

  // ---------- one character there and back ----------

  /** The codec's bytes for a scalar value are one RFC 3629 character, and announce their length. */
  lemma BytesOfIsChar(c: Scalar)
    ensures OneChar(BytesOf(c)) && |BytesOf(c)| > 0 && Announced(BytesOf(c)[0]) == |BytesOf(c)|
  {
    if c >= 65536 {
      var q := c / 4096;
      assert c / 262144 == q / 64;
    } else if c >= 2048 {
      var q := c / 64;
      assert c / 4096 == q / 64;
    }
  }

  lemma Recompose(c: int)
    requires 0 <= c
    ensures c / 64 * 64 + c % 64 == c
    ensures c / 4096 * 4096 + c / 64 % 64 * 64 + c % 64 == c
    ensures c / 262144 * 262144 + c / 4096 % 64 * 4096 + c / 64 % 64 * 64 + c % 64 == c
  {
    var q1 := c / 64;
    var q2 := q1 / 64;
    assert c / 4096 == q2 && c / 262144 == q2 / 64;
  }

  lemma TailByte(x: int)
    requires 0 <= x < 64
    ensures (x + 128) % 64 == x && IsTail(x + 128)
  {
  }

  /** The bytes of a scalar value, put together again. */
  lemma BytesRecompose(c: Scalar)
    ensures var b := BytesOf(c);
      && (|b| == 2 ==> Two(b[0], b[1]) == c && IsTail(b[1]))
      && (|b| == 3 ==> Three(b[0], b[1], b[2]) == c && IsTail(b[1]) && IsTail(b[2]))
      && (|b| == 4 ==> Four(b[0], b[1], b[2], b[3]) == c && IsTail(b[1]) && IsTail(b[2]) && IsTail(b[3]))
  {
    hide IsTail, Two, Three, Four;
    if c < 2048 { TwoBytes(c); }
    if c < 65536 { ThreeBytes(c); }
    FourBytes(c);
  }

  lemma TwoBytes(c: Scalar)
    requires c < 2048
    ensures Two(c / 64 + 192, c % 64 + 128) == c && IsTail(c % 64 + 128)
  {
    hide IsTail;
    TailByte(c % 64);
    Recompose(c);
    assert (c / 64 + 192) % 32 == c / 64;
  }

  lemma ThreeBytes(c: Scalar)
    requires c < 65536
    ensures Three(c / 4096 + 224, c / 64 % 64 + 128, c % 64 + 128) == c
    ensures IsTail(c / 64 % 64 + 128) && IsTail(c % 64 + 128)
  {
    hide IsTail;
    TailByte(c % 64);
    TailByte(c / 64 % 64);
    Recompose(c);
    assert (c / 4096 + 224) % 16 == c / 4096;
  }

  lemma FourBytes(c: Scalar)
    ensures Four(c / 262144 + 240, c / 4096 % 64 + 128, c / 64 % 64 + 128, c % 64 + 128) == c
    ensures IsTail(c / 4096 % 64 + 128) && IsTail(c / 64 % 64 + 128) && IsTail(c % 64 + 128)
  {
    hide IsTail;
    TailByte(c % 64);
    TailByte(c / 64 % 64);
    TailByte(c / 4096 % 64);
    Recompose(c);
    assert (c / 262144 + 240) % 16 == c / 262144;
  }

  /** Where the bytes of `c` stand, the decoder reads `c`. */
  lemma ReadsBytesOf(b: Bytes, end: nat, o: nat, c: Scalar)
    requires o + |BytesOf(c)| <= end <= |b| && b[o..o + |BytesOf(c)|] == BytesOf(c)
    ensures |BytesOf(c)| > 0 && Announced(b[o]) == |BytesOf(c)| && CodePointAt(b, end, o) == c
  {
    hide IsTail, Two, Three, Four;
    var bytes := BytesOf(c);
    BytesOfIsChar(c);
    BytesRecompose(c);
    var part := b[o..o + |bytes|];
    assert b[o] == part[0] == bytes[0];
    if |bytes| >= 2 { assert b[o + 1] == part[1] == bytes[1]; }
    if |bytes| >= 3 { assert b[o + 2] == part[2] == bytes[2]; }
    if |bytes| >= 4 { assert b[o + 3] == part[3] == bytes[3]; }
  }

  lemma Pack2(h: int, x: int)
    requires 0 <= h && 0 <= x < 64
    ensures (h * 64 + x) / 64 == h && (h * 64 + x) % 64 == x
  {
  }

  lemma Pack3(h: int, y: int, x: int)
    requires 0 <= h && 0 <= y < 64 && 0 <= x < 64
    ensures var c := h * 4096 + y * 64 + x; c / 4096 == h && c / 64 % 64 == y && c % 64 == x
  {
    Pack2(h * 64 + y, x);
    Pack2(h, y);
    var q := (h * 4096 + y * 64 + x) / 64;
    assert (h * 4096 + y * 64 + x) / 4096 == q / 64;
  }

  lemma Pack4(h: int, z: int, y: int, x: int)
    requires 0 <= h && 0 <= z < 64 && 0 <= y < 64 && 0 <= x < 64
    ensures var c := h * 262144 + z * 4096 + y * 64 + x;
      c / 262144 == h && c / 4096 % 64 == z && c / 64 % 64 == y && c % 64 == x
  {
    Pack3(h * 64 + z, y, x);
    Pack2(h, z);
    var q := (h * 262144 + z * 4096 + y * 64 + x) / 4096;
    assert (h * 262144 + z * 4096 + y * 64 + x) / 262144 == q / 64;
  }

  /** Every RFC 3629 character is the bytes of one scalar value. */
  lemma CharIsBytesOf(b: Bytes) returns (c: Scalar)
    requires OneChar(b)
    ensures b == BytesOf(c)
  {
    var b0: int := b[0];
    if |b| == 1 {
      c := b0;
    } else {
      var b1: int := b[1];
      if |b| == 2 {
        Pack2(b0 - 192, b1 - 128);
        c := (b0 - 192) * 64 + (b1 - 128);
      } else {
        var b2: int := b[2];
        if |b| == 3 {
          Pack3(b0 - 224, b1 - 128, b2 - 128);
          c := (b0 - 224) * 4096 + (b1 - 128) * 64 + (b2 - 128);
        } else {
          c := QuadrupleIsBytesOf(b);
        }
      }
    }
  }

  lemma QuadrupleIsBytesOf(b: Bytes) returns (c: Scalar)
    requires OneChar(b) && |b| == 4
    ensures b == BytesOf(c)
  {
    var b0: int, b1: int, b2: int, b3: int := b[0], b[1], b[2], b[3];
    Pack4(b0 - 240, b1 - 128, b2 - 128, b3 - 128);
    c := (b0 - 240) * 262144 + (b1 - 128) * 4096 + (b2 - 128) * 64 + (b3 - 128);
    assert b == [b0, b1, b2, b3];
  }

  // ---------- whole texts ----------

  lemma PairEncodes(s: Text, i: nat, c: Scalar)
    requires c >= 65536 && i + 1 < |s| && [s[i], s[i + 1]] == UnitsOf(c)
    ensures EncodeFrom(s, i, 0) == BytesOf(c) + EncodeFrom(s, i + 2, 0)
  {
    hide BytesOf;
    assert s[i] == (c - 65536) / 1024 + 55296 && s[i + 1] == (c - 65536) % 1024 + 56320 by {
      assert [s[i], s[i + 1]][0] == UnitsOf(c)[0] && [s[i], s[i + 1]][1] == UnitsOf(c)[1];
    }
    assert EncodeFrom(s, i, 0) == [] + EncodeFrom(s, i + 1, s[i]);
    assert Pushed(s, i + 1, s[i]) == BytesOf(c) && NextLead(s, i + 1, s[i]) == 0;
  }

  lemma SingleEncodes(s: Text, i: nat, c: Scalar)
    requires i < |s| && c < 65536 && s[i] == c
    ensures EncodeFrom(s, i, 0) == BytesOf(c) + EncodeFrom(s, i + 1, 0)
  {
    hide BytesOf;
  }

  lemma {:induction false} EncodesScalars(s: Text, i: nat, cs: seq<Scalar>)
    requires i <= |s| && s[i..] == Utf16Of(cs)
    ensures EncodeFrom(s, i, 0) == Utf8Of(cs)
    decreases |cs|
  {
    hide BytesOf, Pushed, NextLead;
    if cs != [] {
      var c := cs[0];
      var units := UnitsOf(c);
      assert s[i] == s[i..][0];
      assert s[i + |units|..] == s[i..][|units|..] == Utf16Of(cs[1..]);
      EncodesScalars(s, i + |units|, cs[1..]);
      if c >= 65536 {
        assert s[i + 1] == s[i..][1];
        PairEncodes(s, i, c);
      } else {
        SingleEncodes(s, i, c);
      }
    }
  }

  lemma {:induction false} DecodesScalars(b: Bytes, o: nat, cs: seq<Scalar>)
    requires o <= |b| && b[o..] == Utf8Of(cs)
    ensures DecodedFrom(b, |b|, o) == cs
    decreases |cs|
  {
    hide CodePointAt, Announced, BytesOf;
    if cs != [] {
      var bytes := BytesOf(cs[0]);
      assert b[o..o + |bytes|] == b[o..][..|bytes|] == bytes;
      assert b[o + |bytes|..] == b[o..][|bytes|..] == Utf8Of(cs[1..]);
      ReadsBytesOf(b, |b|, o, cs[0]);
      DecodesScalars(b, o + |bytes|, cs[1..]);
    } else {
      assert |b| == o;
    }
  }

  lemma {:induction false} ScalarsOf16(s: Text) returns (cs: seq<Scalar>)
    requires WellFormed16(s)
    ensures s == Utf16Of(cs)
    decreases |s|
  {
    if s == [] {
      cs := [];
    } else {
      var n := if IsLead(s[0]) then 2 else 1;
      var c: int := s[0];
      if n == 2 {
        var trail: int := s[1];
        c := (c - 0xd800) * 1024 + (trail - 0xdc00) + 65536;
        assert (c - 65536) / 1024 == s[0] - 0xd800;
      }
      var rest := ScalarsOf16(s[n..]);
      cs := [c] + rest;
      assert UnitsOf(c) == s[..n];
      assert s == s[..n] + s[n..];
    }
  }

  lemma {:induction false} ScalarsOf8(b: Bytes) returns (cs: seq<Scalar>)
    requires WellFormed8(b)
    ensures b == Utf8Of(cs)
    decreases |b|
  {
    hide OneChar, BytesOf;
    if b == [] {
      cs := [];
    } else {
      var n: nat :| 1 <= n <= 4 && n <= |b| && OneChar(b[..n]) && WellFormed8(b[n..]);
      var c := CharIsBytesOf(b[..n]);
      var rest := ScalarsOf8(b[n..]);
      cs := [c] + rest;
      assert b == b[..n] + b[n..];
    }
  }

  lemma {:induction false} Utf16IsWellFormed(cs: seq<Scalar>)
    ensures WellFormed16(Utf16Of(cs))
    decreases |cs|
  {
    if cs != [] {
      Utf16IsWellFormed(cs[1..]);
      var s := Utf16Of(cs);
      assert s[|UnitsOf(cs[0])|..] == Utf16Of(cs[1..]);
    }
  }

  lemma {:induction false} CharThenWellFormed(c: Scalar, rest: Bytes)
    requires WellFormed8(rest)
    ensures WellFormed8(BytesOf(c) + rest)
  {
    BytesOfIsChar(c);
    var n := |BytesOf(c)|;
    var b := BytesOf(c) + rest;
    assert b[..n] == BytesOf(c) && b[n..] == rest;
  }

  lemma PushedThenWellFormed(s: Text, i: nat, lead: int, rest: Bytes)
    requires i < |s| && (lead == 0 || IsLead(lead)) && WellFormed8(rest)
    ensures WellFormed8(Pushed(s, i, lead) + rest)
  {
    hide BytesOf, WellFormed8;
    if IsLead(s[i]) || IsTrail(s[i]) {
      CharThenWellFormed(REPLACEMENT, rest);
      assert [] + rest == rest;
      if lead != 0 && IsTrail(s[i]) {
        CharThenWellFormed((lead - 0xd800) * 1024 + (s[i] - 0xdc00) + 65536, rest);
      }
    } else {
      CharThenWellFormed(s[i], rest);
      CharThenWellFormed(REPLACEMENT, BytesOf(s[i]) + rest);
      assert BytesOf(REPLACEMENT) + (BytesOf(s[i]) + rest) == BytesOf(REPLACEMENT) + BytesOf(s[i]) + rest;
    }
  }

  lemma {:induction false} EncodedIsWellFormed(s: Text, i: nat, lead: int)
    requires i <= |s| && (lead == 0 || IsLead(lead))
    ensures WellFormed8(EncodeFrom(s, i, lead))
    decreases |s| - i
  {
    hide Pushed, NextLead, WellFormed8;
    if i == |s| {
      NothingIsWellFormed();
    } else {
      EncodedIsWellFormed(s, i + 1, NextLead(s, i, lead));
      PushedThenWellFormed(s, i, lead, EncodeFrom(s, i + 1, NextLead(s, i, lead)));
    }
  }

  lemma NothingIsWellFormed()
    ensures WellFormed8([])
  {
  }

  // ---------- the round trips ----------

  /** Decoding what was encoded gives the string back exactly when its surrogates are paired. */
  lemma DecodeOfEncode(s: Text)
    ensures Decode(Encode(s)) == s <==> WellFormed16(s)
  {
    hide EncodeFrom, Utf16Of;
    if WellFormed16(s) {
      var cs := ScalarsOf16(s);
      assert s[0..] == s;
      EncodesScalars(s, 0, cs);
      assert Encode(s)[0..] == Encode(s);
      DecodesScalars(Encode(s), 0, cs);
    }
    Utf16IsWellFormed(DecodedFrom(Encode(s), |Encode(s)|, 0));
  }

  /** Encoding what was decoded gives the buffer back exactly when it is well-formed UTF-8. */
  lemma EncodeOfDecode(b: Bytes)
    ensures Encode(Decode(b)) == b <==> WellFormed8(b)
  {
    hide EncodeFrom, Utf16Of, WellFormed8;
    if WellFormed8(b) {
      var cs := ScalarsOf8(b);
      assert b[0..] == b;
      DecodesScalars(b, 0, cs);
      assert Decode(b)[0..] == Decode(b);
      EncodesScalars(Decode(b), 0, cs);
    }
    EncodedIsWellFormed(Decode(b), 0, 0);
  }
}
