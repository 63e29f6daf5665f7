/**
  Signed integers of any byte width in the bundled Buffer (`cluster/swagger/swagger-ui.js`,
  `writeIntLE`, `writeIntBE`, `readIntLE`, `readIntBE`): truncating division and a borrow
  flag stand in for floor division.
 */
module IntBytes {
  import opened Wrappers
  import opened Texts

  datatype RangeError = ValueOutOfBounds | IndexOutOfRange

  /** 256 to the power `n`. */
  function Pow(n: nat): (p: int)
    ensures p > 0
  {
    if n == 0 then 1 else 256 * Pow(n - 1)
  }

  /** `value / unit >> 0`: division that rounds towards zero. */
  function Truncated(value: int, unit: int): int
    requires unit > 0
  {
    if value >= 0 then value / unit else -((-value) / unit)
  }

  ghost predicate Fits(value: int, width: nat)
    requires width > 0
  {
    -128 * Pow(width - 1) <= value < 128 * Pow(width - 1)
  }

  // ---------- two's complement ----------

  /** The two's-complement bytes of `value`, least significant first. */
  function TwosLE(value: int, width: nat): (s: seq<Byte>)
    ensures |s| == width
    decreases width
  {
    if width == 0 then [] else [value % 256] + TwosLE(value / 256, width - 1)
  }

  /** The same bytes, most significant first. */
  function TwosBE(value: int, width: nat): (s: seq<Byte>)
    ensures |s| == width
    decreases width
  {
    if width == 0 then [] else TwosBE(value / 256, width - 1) + [value % 256]
  }

  /** The value without its lowest `n` bytes: floor division by 256, n times. */
  function Shift(value: int, n: nat): int
    decreases n
  {
    if n == 0 then value else Shift(value / 256, n - 1)
  }

  /** The number that bytes denote, least significant first. */
  function Unsigned(s: seq<Byte>): (u: int)
    ensures 0 <= u < Pow(|s|)
    decreases |s|
  {
    if s == [] then 0 else s[0] + 256 * Unsigned(s[1..])
  }

  function Signed(s: seq<Byte>): int
    requires s != []
  {
    var u := Unsigned(s);
    if u >= 128 * Pow(|s| - 1) then u - Pow(|s|) else u
  }

  function Reversed(s: seq<Byte>): (r: seq<Byte>)
    ensures |r| == |s| && forall i :: 0 <= i < |s| ==> r[i] == s[|s| - 1 - i]
  {
    seq(|s|, i requires 0 <= i < |s| => s[|s| - 1 - i])
  }

  // ---------- facts about bytes ----------

  lemma {:induction false} TwosSnoc(value: int, n: nat)
    ensures TwosLE(value, n + 1) == TwosLE(value, n) + [Shift(value, n) % 256]
    ensures TwosBE(value, n + 1) == [Shift(value, n) % 256] + TwosBE(value, n)
    ensures Shift(value, n + 1) == Shift(value, n) / 256
    decreases n
  {
    if n > 0 {
      TwosSnoc(value / 256, n - 1);
      assert TwosLE(value, n) + [Shift(value, n) % 256]
          == [value % 256] + (TwosLE(value / 256, n - 1) + [Shift(value / 256, n - 1) % 256]);
      assert [Shift(value, n) % 256] + TwosBE(value, n)
          == ([Shift(value / 256, n - 1) % 256] + TwosBE(value / 256, n - 1)) + [value % 256];
    }
  }

  lemma {:induction false} TwosReversed(value: int, n: nat)
    ensures TwosBE(value, n) == Reversed(TwosLE(value, n))
    decreases n
  {
    if n > 0 { TwosReversed(value / 256, n - 1); }
  }

  lemma {:induction false} UnsignedSnoc(s: seq<Byte>, b: Byte)
    ensures Unsigned(s + [b]) == Unsigned(s) + Pow(|s|) * b
    decreases |s|
  {
    if s == [] {
      assert s + [b] == [b] && [b][1..] == [];
    } else {
      UnsignedSnoc(s[1..], b);
      assert (s + [b])[1..] == s[1..] + [b];
      Distribute(Unsigned(s[1..]), Pow(|s| - 1), b);
    }
  }

  lemma Distribute(u: int, p: int, b: int)
    ensures 256 * (u + p * b) == 256 * u + 256 * p * b
  {
  }

  /** A value is its low bytes plus what they leave, scaled. */
  lemma {:induction false} LowBytes(value: int, n: nat)
    ensures value == Unsigned(TwosLE(value, n)) + Pow(n) * Shift(value, n)
    decreases n
  {
    if n > 0 {
      LowBytes(value / 256, n - 1);
      assert TwosLE(value, n)[1..] == TwosLE(value / 256, n - 1);
      Distribute(Unsigned(TwosLE(value / 256, n - 1)), Pow(n - 1), Shift(value, n));
    }
  }

  lemma AtLeastOnce(k: int, d: int)
    requires k >= 1 && d > 0
    ensures k * d >= d
  {
  }

  lemma AtMostMinus(k: int, d: int, m: int)
    requires m > 0 && k <= -m && d > 0
    ensures k * d <= -m * d
  {
  }

  lemma QuotientIs(a: int, d: int, q: int, r: int)
    requires d > 0 && a == q * d + r && 0 <= r < d
    ensures a / d == q && a % d == r
  {
    var k := a / d - q;
    assert a == (a / d) * d + a % d;
    assert k * d == (a / d) * d - q * d;
    if k >= 1 {
      AtLeastOnce(k, d);
      assert false;
    } else if k <= -1 {
      AtMostMinus(k, d, 1);
      assert false;
    }
  }

  /** Rounding towards zero is one too high exactly when low bytes are lost below zero. */
  lemma TruncatedIsShift(value: int, n: nat)
    ensures Truncated(value, Pow(n))
         == Shift(value, n) + if value < 0 && Unsigned(TwosLE(value, n)) != 0 then 1 else 0
  {
    LowBytes(value, n);
    var p, q, r := Pow(n), Shift(value, n), Unsigned(TwosLE(value, n));
    if value >= 0 {
      QuotientIs(value, p, q, r);
    } else if r == 0 {
      assert -value == (-q) * p + 0;
      QuotientIs(-value, p, -q, 0);
    } else {
      assert -value == (-q - 1) * p + (p - r) by { assert (-q - 1) * p == -(p * q) - p; }
      QuotientIs(-value, p, -q - 1, p - r);
    }
  }

  /** The low bytes are all zero exactly when the number they denote is. */
  lemma {:induction false} UnsignedZero(s: seq<Byte>)
    ensures Unsigned(s) == 0 <==> forall i :: 0 <= i < |s| ==> s[i] == 0
    decreases |s|
  {
    if s != [] {
      UnsignedZero(s[1..]);
      assert forall i :: 1 <= i < |s| ==> s[i] == s[1..][i - 1];
    }
  }

  /** One byte of the loop: with the borrow of the lower bytes it is the two's-complement byte. */
  lemma BorrowedByte(value: int, n: nat, borrow: int)
    requires borrow == if value < 0 && Unsigned(TwosLE(value, n)) != 0 then 1 else 0
    ensures (Truncated(value, Pow(n)) - borrow) % 256 == Shift(value, n) % 256
  {
    TruncatedIsShift(value, n);
  }

  /** How the flag moves on: it is set once a byte written so far is not zero. */
  lemma BorrowStep(value: int, n: nat)
    ensures Unsigned(TwosLE(value, n + 1)) != 0
       <==> Unsigned(TwosLE(value, n)) != 0 || Shift(value, n) % 256 != 0
  {
    TwosSnoc(value, n);
    UnsignedSnoc(TwosLE(value, n), Shift(value, n) % 256);
    var p, b := Pow(n), Shift(value, n) % 256;
    if b != 0 { AtLeastOnce(b, p); }
  }

  // ---------- writing ----------

  /** The checks `writeInt` makes before it writes. */
  function Checked(length: nat, value: int, offset: nat, width: nat): Option<RangeError>
    requires width > 0
  {
    if value > 128 * Pow(width - 1) - 1 || value < -128 * Pow(width - 1) then Some(ValueOutOfBounds)
    else if offset + width > length then Some(IndexOutOfRange)
    else None
  }

  /** The value is checked first: it must lie in the signed range of the width; then the bytes must be there. */
  lemma CheckedMeans(length: nat, value: int, offset: nat, width: nat)
    requires width > 0
    ensures var fits, there := -Pow(width) <= 2 * value < Pow(width), offset + width <= length;
      Checked(length, value, offset, width)
        == if !fits then Some(ValueOutOfBounds) else if !there then Some(IndexOutOfRange) else None
  {
  }

  /** The k-th byte, counted from the least significant. */
  lemma {:induction false} TwosAt(value: int, width: nat, k: nat)
    requires k < width
    ensures TwosLE(value, width)[k] == TwosBE(value, width)[width - 1 - k] == Shift(value, k) % 256
    decreases width
  {
    if k > 0 { TwosAt(value / 256, width - 1, k - 1); }
  }

  /** The flag and the byte of one turn, from those of the turn before. */
  lemma Turn(value: int, width: nat, k: nat, borrow: int, next: int)
    requires 0 < k < width
    requires borrow == if value < 0 && Unsigned(TwosLE(value, k - 1)) != 0 then 1 else 0
    requires next == if value < 0 && borrow == 0 && TwosLE(value, width)[k - 1] != 0 then 1 else borrow
    ensures next == if value < 0 && Unsigned(TwosLE(value, k)) != 0 then 1 else 0
    ensures (Truncated(value, Pow(k)) - next) % 256 == TwosLE(value, width)[k]
    ensures Pow(k) == 256 * Pow(k - 1)
    ensures TwosBE(value, width)[width - k] == TwosLE(value, width)[k - 1]
    ensures TwosBE(value, width)[width - 1 - k] == TwosLE(value, width)[k]
  {
    hide TwosLE, TwosBE, Shift, Unsigned, Truncated;
    TwosAt(value, width, k - 1);
    TwosAt(value, width, k);
    BorrowStep(value, k - 1);
    BorrowedByte(value, k, next);
  }

  lemma FirstByte(value: int, width: nat)
    requires width > 0
    ensures TwosLE(value, width)[0] == TwosBE(value, width)[width - 1] == value % 256
    ensures Unsigned(TwosLE(value, 0)) == 0 && Pow(0) == 1
  {
    TwosAt(value, width, 0);
  }

  lemma Assemble(before: seq<Byte>, after: seq<Byte>, written: seq<Byte>, offset: nat)
    requires |after| == |before| && offset + |written| <= |before|
    requires forall k :: 0 <= k < |written| ==> after[offset + k] == written[k]
    requires forall k :: 0 <= k < offset || offset + |written| <= k < |before| ==> after[k] == before[k]
    ensures after == before[..offset] + written + before[offset + |written|..]
  {
    assert after[offset..offset + |written|] == written;
    assert after == after[..offset] + after[offset..offset + |written|] + after[offset + |written|..];
  }

  /** `buf.writeIntLE(value, offset, width)`. */
  method WriteIntLE(buf: array<Byte>, value: int, offset: nat, width: nat) returns (r: Result<nat, RangeError>)
    requires width > 0
    modifies buf
    ensures match Checked(buf.Length, value, offset, width)
            case Some(error) => r == Err(error) && buf[..] == old(buf[..])
            case None =>
              && r == Ok(offset + width)
              && buf[..] == old(buf[..offset]) + TwosLE(value, width) + old(buf[offset + width..])
  {
    var error := Checked(buf.Length, value, offset, width);
    if error.Some? { return Err(error.value); }
    WriteBytesLE(buf, value, offset, width);
    r := Ok(offset + width);
    Assemble(old(buf[..]), buf[..], TwosLE(value, width), offset);
  }

  /** The loop of `writeIntLE`. */
  method WriteBytesLE(buf: array<Byte>, value: int, offset: nat, width: nat)
    requires width > 0 && offset + width <= buf.Length
    modifies buf
    ensures forall k :: 0 <= k < width ==> buf[offset + k] == TwosLE(value, width)[k]
    ensures forall k :: 0 <= k < offset || offset + width <= k < buf.Length ==> buf[k] == old(buf[k])
  {
    hide TwosLE, TwosBE, Unsigned, Truncated, Pow;
    var a, unit: int, borrow := 1, 1, 0;
    buf[offset] := value % 256;
    FirstByte(value, width);
    while a < width
      invariant 1 <= a <= width && unit == Pow(a - 1)
      invariant borrow == if value < 0 && Unsigned(TwosLE(value, a - 1)) != 0 then 1 else 0
      invariant forall k :: 0 <= k < a ==> buf[offset + k] == TwosLE(value, width)[k]
      invariant forall k :: 0 <= k < offset || offset + a <= k < buf.Length ==> buf[k] == old(buf[k])
    {
      unit := unit * 256;
      ghost var was := borrow;
      if value < 0 && borrow == 0 && buf[offset + a - 1] != 0 {
        borrow := 1;
      }
      assert buf[offset + (a - 1)] == TwosLE(value, width)[a - 1];
      Turn(value, width, a, was, borrow);
      buf[offset + a] := (Truncated(value, unit) - borrow) % 256;
      a := a + 1;
    }
  }

  /** `buf.writeIntBE(value, offset, width)`. */
  method WriteIntBE(buf: array<Byte>, value: int, offset: nat, width: nat) returns (r: Result<nat, RangeError>)
    requires width > 0
    modifies buf
    ensures match Checked(buf.Length, value, offset, width)
            case Some(error) => r == Err(error) && buf[..] == old(buf[..])
            case None =>
              && r == Ok(offset + width)
              && buf[..] == old(buf[..offset]) + TwosBE(value, width) + old(buf[offset + width..])
  {
    var error := Checked(buf.Length, value, offset, width);
    if error.Some? { return Err(error.value); }
    WriteBytesBE(buf, value, offset, width);
    r := Ok(offset + width);
    Assemble(old(buf[..]), buf[..], TwosBE(value, width), offset);
  }

  /** The loop of `writeIntBE`. */
  method WriteBytesBE(buf: array<Byte>, value: int, offset: nat, width: nat)
    requires width > 0 && offset + width <= buf.Length
    modifies buf
    ensures forall k :: 0 <= k < width ==> buf[offset + k] == TwosBE(value, width)[k]
    ensures forall k :: 0 <= k < offset || offset + width <= k < buf.Length ==> buf[k] == old(buf[k])
  {
    hide TwosLE, TwosBE, Unsigned, Truncated, Pow;
    var a, unit: int, borrow := width - 1, 1, 0;
    buf[offset + a] := value % 256;
    FirstByte(value, width);
    while a > 0
      invariant 0 <= a < width && unit == Pow(width - 1 - a)
      invariant borrow == if value < 0 && Unsigned(TwosLE(value, width - 1 - a)) != 0 then 1 else 0
      invariant forall k :: a <= k < width ==> buf[offset + k] == TwosBE(value, width)[k]
      invariant forall k :: 0 <= k < offset + a || offset + width <= k < buf.Length ==> buf[k] == old(buf[k])
    {
      a := a - 1;
      unit := unit * 256;
      ghost var was := borrow;
      if value < 0 && borrow == 0 && buf[offset + a + 1] != 0 {
        borrow := 1;
      }
      assert buf[offset + (a + 1)] == TwosBE(value, width)[a + 1];
      TwosReversed(value, width);
      Turn(value, width, width - 1 - a, was, borrow);
      buf[offset + a] := (Truncated(value, unit) - borrow) % 256;
    }
  }

  // ---------- reading ----------

  lemma UnsignedOne(b: Byte)
    ensures Unsigned([b]) == b && Pow(0) == 1
  {
    assert [b][1..] == [];
  }

  /** Adding the next byte, and the unit it is scaled by. */
  lemma ReadStep(s: seq<Byte>, b: Byte, o: int)
    requires s != [] && o == Pow(|s| - 1)
    ensures Unsigned(s + [b]) == Unsigned(s) + b * (o * 256) && Pow(|s|) == o * 256
  {
    hide Unsigned;
    UnsignedSnoc(s, b);
  }

  lemma SignIs(s: seq<Byte>, o: int)
    requires s != [] && o == Pow(|s| - 1)
    ensures Signed(s) == if Unsigned(s) >= o * 128 then Unsigned(s) - Pow(|s|) else Unsigned(s)
  {
  }

  lemma BytesSnoc(t: seq<Byte>, from: nat, to: nat)
    requires from <= to < |t|
    ensures t[from..to + 1] == t[from..to] + [t[to]]
  {
  }

  lemma ReversedCons(t: seq<Byte>, from: nat, to: nat)
    requires from < to <= |t|
    ensures Reversed(t[from..to]) == Reversed(t[from + 1..to]) + [t[from]]
  {
  }

  /** The unsigned value of the bytes from `from` up to `to`, the last one the lowest. */
  function UnsignedBack(t: seq<Byte>, from: nat, to: nat): int
    requires from <= to <= |t|
  {
    Unsigned(Reversed(t[from..to]))
  }

  lemma LastByte(t: seq<Byte>, from: nat)
    requires from < |t|
    ensures UnsignedBack(t, from, from + 1) == t[from] && Pow(0) == 1
  {
    assert Reversed(t[from..from + 1]) == [t[from]];
    UnsignedOne(t[from]);
  }

  /** The same when the next byte is the one before. */
  lemma ReadBackStep(t: seq<Byte>, from: nat, to: nat, o: int)
    requires from + 1 < to <= |t| && o == Pow(to - from - 2)
    ensures UnsignedBack(t, from, to) == UnsignedBack(t, from + 1, to) + t[from] * (o * 256)
    ensures Pow(to - from - 1) == o * 256
  {
    hide Unsigned, Pow;
    ReversedCons(t, from, to);
    ReadStep(Reversed(t[from + 1..to]), t[from], o);
  }

  lemma SignBack(t: seq<Byte>, from: nat, to: nat, o: int)
    requires from < to <= |t| && o == Pow(to - from - 1)
    ensures var n := UnsignedBack(t, from, to);
      Signed(Reversed(t[from..to])) == if n >= o * 128 then n - Pow(to - from) else n
  {
    hide Unsigned, Pow, Signed;
    SignIs(Reversed(t[from..to]), o);
  }

  /** `buf.readIntLE(offset, width)`. */
  method ReadIntLE(buf: array<Byte>, offset: nat, width: nat) returns (r: Result<int, RangeError>)
    requires width > 0
    ensures r == if offset + width > buf.Length then Err(IndexOutOfRange)
                 else Ok(Signed(buf[..][offset..offset + width]))
  {
    if offset + width > buf.Length { return Err(IndexOutOfRange); }
    hide Unsigned, Pow, Signed;
    var n: int, o: int, a: int := buf[offset], 1, 1;
    assert buf[..][offset..offset + 1] == [buf[offset]];
    UnsignedOne(buf[offset]);
    while a < width
      invariant 1 <= a <= width && o == Pow(a - 1) && n == Unsigned(buf[..][offset..offset + a])
    {
      BytesSnoc(buf[..], offset, offset + a);
      ReadStep(buf[..][offset..offset + a], buf[offset + a], o);
      o := o * 256;
      n := n + buf[offset + a] * o;
      a := a + 1;
    }
    SignIs(buf[..][offset..offset + width], o);
    o := o * 128;
    if n >= o { n := n - Pow(width); }
    r := Ok(n);
  }

  /** `buf.readIntBE(offset, width)`. */
  method ReadIntBE(buf: array<Byte>, offset: nat, width: nat) returns (r: Result<int, RangeError>)
    requires width > 0
    ensures r == if offset + width > buf.Length then Err(IndexOutOfRange)
                 else Ok(Signed(Reversed(buf[..][offset..offset + width])))
  {
    if offset + width > buf.Length { return Err(IndexOutOfRange); }
    hide UnsignedBack, Pow, Signed, Reversed;
    var n := width - 1;
    var o: int := 1;
    var a: int := buf[offset + n];
    LastByte(buf[..], offset + n);
    while n > 0
      invariant 0 <= n < width && o == Pow(width - 1 - n)
      invariant a == UnsignedBack(buf[..], offset + n, offset + width)
    {
      ReadBackStep(buf[..], offset + n - 1, offset + width, o);
      o := o * 256;
      n := n - 1;
      a := a + buf[offset + n] * o;
    }
    SignBack(buf[..], offset, offset + width, o);
    o := o * 128;
    if a >= o { a := a - Pow(width); }
    r := Ok(a);
  }

  // ---------- there and back ----------

  /** Reading the two's-complement bytes of a value that fits gives the value back. */
  lemma ReadOfWrite(value: int, width: nat)
    requires width > 0 && Fits(value, width)
    ensures Signed(TwosLE(value, width)) == value
    ensures Signed(Reversed(TwosBE(value, width))) == value
  {
    hide TwosLE, TwosBE, Shift, Unsigned;
    TwosReversed(value, width);
    assert Reversed(TwosBE(value, width)) == TwosLE(value, width);
    LowBytes(value, width);
    SignOfRest(value, Pow(width), Shift(value, width), Unsigned(TwosLE(value, width)));
  }

  lemma SignOfRest(value: int, p: int, q: int, u: int)
    requires value == u + p * q && 0 <= u < p && -p <= 2 * value < p
    ensures value == if 2 * u >= p then u - p else u
  {
    if q >= 1 {
      AtLeastOnce(q, p);
      assert false;
    } else if q <= -2 {
      AtMostMinus(q, p, 2);
      assert false;
    }
  }

  lemma {:induction false} TwosOfUnsigned(s: seq<Byte>, v: int, k: int)
    requires v == Unsigned(s) + k * Pow(|s|)
    ensures TwosLE(v, |s|) == s
    decreases |s|
  {
    if s != [] {
      var h := Unsigned(s[1..]) + k * Pow(|s| - 1);
      Distribute(Unsigned(s[1..]), Pow(|s| - 1), k);
      assert k * Pow(|s|) == 256 * (k * Pow(|s| - 1));
      assert v == 256 * h + s[0];
      TwosOfUnsigned(s[1..], h, k);
      assert v / 256 == h && v % 256 == s[0];
      assert s == [s[0]] + s[1..];
    }
  }

  /** Writing the integer that bytes read as gives the bytes back, and it always fits. */
  lemma WriteOfRead(s: seq<Byte>)
    requires s != []
    ensures Fits(Signed(s), |s|)
    ensures TwosLE(Signed(s), |s|) == s && TwosBE(Signed(s), |s|) == Reversed(s)
  {
    hide TwosLE, TwosBE, Unsigned;
    TwosOfUnsigned(s, Signed(s), if Signed(s) == Unsigned(s) then 0 else -1);
    TwosReversed(Signed(s), |s|);
  }
}
