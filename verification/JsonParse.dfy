/**
  JSON3's tokenizer and parser as functions of the source and a position
  (`lex` and `get`), and the parser object that moves the shared index.
 */
module JsonParse {
  import opened Wrappers
  import opened Texts
  import opened Json

  datatype Token = End | Punct(c: CodeUnit) | StrTok(s: Text) | Prim(v: Value)
  datatype SyntaxError = SyntaxError

  /** A token or a value, and the index after it. */
  datatype Read<T> = Read(item: T, next: nat)

  type Lexed = Result<Read<Token>, SyntaxError>
  type Got = Result<Read<Value>, SyntaxError>

  predicate IsBlank(c: int) { c == 9 || c == 10 || c == 13 || c == 32 }
  predicate IsPunct(c: int) { c == 123 || c == 125 || c == 91 || c == 93 || c == 58 || c == 44 }
  predicate IsDigit(c: int) { 48 <= c <= 57 }
  predicate IsHex(c: int) { 48 <= c <= 57 || 97 <= c <= 102 || 65 <= c <= 70 }

  function HexValue(c: int): nat
    requires IsHex(c)
  {
    if c <= 57 then c - 48 else if c >= 97 then c - 87 else c - 55
  }

  /** The control character an escape letter stands for; -1 when it is none. */
  function Unescape(c: int): int {
    if c == 92 || c == 34 || c == 47 then c
    else if c == 98 then 8
    else if c == 116 then 9
    else if c == 110 then 10
    else if c == 102 then 12
    else if c == 114 then 13
    else -1
  }

  /** Four hexadecimal digits stand at `i`. */
  predicate FourHex(src: Text, i: nat) {
    i + 4 <= |src| && IsHex(src[i]) && IsHex(src[i + 1]) && IsHex(src[i + 2]) && IsHex(src[i + 3])
  }

  /** `fromCharCode("0x" + src.slice(i, i + 4))`. */
  function HexCode(src: Text, i: nat): CodeUnit
    requires FourHex(src, i)
  {
    HexValue(src[i]) * 4096 + HexValue(src[i + 1]) * 256 + HexValue(src[i + 2]) * 16 + HexValue(src[i + 3])
  }

  /** The rest of a string token from `i`, with `acc` read so far. */
  function LexString(src: Text, i: nat, acc: Text): (r: Lexed)
    ensures r.Ok? ==> i < r.value.next <= |src| && r.value.item.StrTok?
    decreases |src| - i
  {
    if i >= |src| || src[i] < 32 then Err(SyntaxError)
    else if src[i] == BACKSLASH then
      var e := CharCode(src, i + 1);
      if Unescape(e) >= 0 then LexString(src, i + 2, acc + [Unescape(e)])
      else if e == 117 && FourHex(src, i + 2) then LexString(src, i + 6, acc + [HexCode(src, i + 2)])
      else Err(SyntaxError)
    else if src[i] == QUOTE then Ok(Read(StrTok(acc), i + 1))
    else LexString(src, i + 1, acc + [src[i]])
  }

  /** The first index from `i` that holds no digit. */
  function SkipDigits(src: Text, i: nat): (j: nat)
    ensures i <= j
    ensures i <= |src| ==> j <= |src|
    ensures forall k :: i <= k < j ==> k < |src| && IsDigit(src[k])
    ensures !IsDigit(CharCode(src, j))
    decreases |src| - i
  {
    if IsDigit(CharCode(src, i)) then SkipDigits(src, i + 1) else i
  }

  /** The integer a run of digits denotes. */
  function DigitsValue(t: Text): int {
    if t == [] then 0 else 10 * DigitsValue(t[..|t| - 1]) + t[|t| - 1] - 48
  }

  /** `+literal`: an integer, or the literal itself when it has a fraction or an exponent. */
  function Coerce(literal: Text): (r: Value)
    ensures r.Num? || r.Float?
  {
    if exists c <- literal :: c == 46 || c == 101 || c == 69 then Float(literal)
    else if literal != [] && literal[0] == DASH then Num(-DigitsValue(literal[1..]))
    else Num(DigitsValue(literal))
  }

  /** The index after an optional fraction at `i`. */
  function LexFraction(src: Text, i: nat): (r: Result<nat, SyntaxError>)
    requires i <= |src|
    ensures r.Ok? ==> i <= r.value <= |src|
  {
    if CharCode(src, i) != 46 then Ok(i)
    else if SkipDigits(src, i + 1) == i + 1 then Err(SyntaxError)
    else Ok(SkipDigits(src, i + 1))
  }

  /** The index after an optional exponent at `i`. */
  function LexExponent(src: Text, i: nat): (r: Result<nat, SyntaxError>)
    requires i <= |src|
    ensures r.Ok? ==> i <= r.value <= |src|
  {
    var e := CharCode(src, i);
    if e != 101 && e != 69 then Ok(i)
    else
      var sign := CharCode(src, i + 1);
      var first := if sign == 43 || sign == 45 then i + 2 else i + 1;
      if SkipDigits(src, first) == first then Err(SyntaxError) else Ok(SkipDigits(src, first))
  }

  /** A number literal that begins at `begin`, its first digit at `i`. */
  function LexNumber(src: Text, begin: nat, i: nat): (r: Lexed)
    requires begin <= i && IsDigit(CharCode(src, i))
    ensures r.Ok? ==> begin < r.value.next <= |src| && r.value.item.Prim?
    ensures r.Ok? ==> r.value.item.v.Num? || r.value.item.v.Float?
  {
    if src[i] == 48 && IsDigit(CharCode(src, i + 1)) then Err(SyntaxError)
    else
      var afterInt := SkipDigits(src, i);
      var fraction := LexFraction(src, afterInt);
      if fraction.Err? then Err(SyntaxError)
      else
        var exponent := LexExponent(src, fraction.value);
        if exponent.Err? then Err(SyntaxError)
        else
          Ok(Read(Prim(Coerce(src[begin..exponent.value])), exponent.value))
  }

  /** A number or a literal that begins at `begin`. */
  function LexScalar(src: Text, begin: nat): (r: Lexed)
    requires begin < |src|
    ensures r.Ok? ==> begin < r.value.next <= |src| && r.value.item.Prim?
    ensures r.Ok? ==> !r.value.item.v.Arr? && !r.value.item.v.Obj?
  {
    var signed := src[begin] == DASH;
    var i := if signed then begin + 1 else begin;
    if IsDigit(CharCode(src, i)) then LexNumber(src, begin, i)
    else if signed then Err(SyntaxError)
    else if begin + 4 <= |src| && src[begin..begin + 4] == [116, 114, 117, 101] then
      Ok(Read(Prim(Bool(true)), begin + 4))
    else if begin + 5 <= |src| && src[begin..begin + 5] == [102, 97, 108, 115, 101] then
      Ok(Read(Prim(Bool(false)), begin + 5))
    else if begin + 4 <= |src| && src[begin..begin + 4] == [110, 117, 108, 108] then Ok(Read(Prim(Null), begin + 4))
    else Err(SyntaxError)
  }

  /** The next token from `i`. */
  function Lex(src: Text, i: nat): (r: Lexed)
    requires i <= |src|
    ensures r.Ok? ==> i <= r.value.next <= |src|
    ensures r.Ok? ==> if r.value.item == End then r.value.next == |src| else i < r.value.next
    ensures r.Ok? && r.value.item.Prim? ==> !r.value.item.v.Arr? && !r.value.item.v.Obj?
    decreases |src| - i
  {
    if i == |src| then Ok(Read(End, i))
    else if IsBlank(src[i]) then Lex(src, i + 1)
    else if IsPunct(src[i]) then Ok(Read(Punct(src[i]), i + 1))
    else if src[i] == QUOTE then LexString(src, i + 1, [])
    else LexScalar(src, i)
  }

  /** The value that token `t` begins, with `i` the index after `t`. */
  function Get(src: Text, t: Token, i: nat): (r: Got)
    requires i <= |src|
    ensures r.Ok? ==> i <= r.value.next <= |src|
    decreases |src| - i, if t == End then 0 else 2
  {
    match t
    case End => Err(SyntaxError)
    case StrTok(s) => Ok(Read(Str(s), i))
    case Prim(v) => Ok(Read(v, i))
    case Punct(c) =>
      if c == LBRACKET then GetItems(src, i, [])
      else if c == LBRACE then GetMembers(src, i, [], false)
      else Err(SyntaxError)
  }

  /** The token that begins the next element, past the comma it needs when it is not the first. */
  function NextElement(src: Text, t: Read<Token>, close: CodeUnit, hasMembers: bool): (r: Lexed)
    requires t.next <= |src|
    ensures r.Ok? ==> t.next <= r.value.next <= |src|
  {
    var first :=
      if !hasMembers then Ok(t)
      else if t.item != Punct(COMMA) then Err(SyntaxError)
      else
        var n := Lex(src, t.next);
        if n.Ok? && n.value.item == Punct(close) then Err(SyntaxError) else n;
    if first.Ok? && first.value.item == Punct(COMMA) then Err(SyntaxError) else first
  }

  /** The rest of an array literal from `i`, with `acc` read so far. */
  function GetItems(src: Text, i: nat, acc: seq<Value>): (r: Got)
    requires i <= |src|
    ensures r.Ok? ==> i <= r.value.next <= |src|
    decreases |src| - i, 1
  {
    var t := Lex(src, i);
    if t.Err? then Err(SyntaxError)
    else if t.value.item == Punct(RBRACKET) then Ok(Read(Arr(acc), t.value.next))
    else
      var first := NextElement(src, t.value, RBRACKET, acc != []);
      if first.Err? then Err(SyntaxError)
      else
        var v := Get(src, first.value.item, first.value.next);
        if v.Err? then Err(SyntaxError) else
        assert v.value.next > i;
        GetItems(src, v.value.next, acc + [v.value.item])
  }

  /** The rest of an object literal from `i`, with `acc` assigned so far. */
  function GetMembers(src: Text, i: nat, acc: seq<Member>, hasMembers: bool): (r: Got)
    requires i <= |src|
    ensures r.Ok? ==> i <= r.value.next <= |src|
    decreases |src| - i, 1
  {
    var t := Lex(src, i);
    if t.Err? then Err(SyntaxError)
    else if t.value.item == Punct(RBRACE) then Ok(Read(Obj(acc), t.value.next))
    else
      var key := NextElement(src, t.value, RBRACE, hasMembers);
      if key.Err? || !key.value.item.StrTok? then Err(SyntaxError)
      else
        var colon := Lex(src, key.value.next);
        if colon.Err? || colon.value.item != Punct(COLON) then Err(SyntaxError)
        else
          var start := Lex(src, colon.value.next);
          if start.Err? then Err(SyntaxError)
          else
            var v := Get(src, start.value.item, start.value.next);
            if v.Err? then Err(SyntaxError)
            else GetMembers(src, v.value.next, Assign(acc, key.value.item.s, v.value.item), true)
  }

  /** `get(lex())` from `i`. */
  function GetAt(src: Text, i: nat): (r: Got)
    requires i <= |src|
  {
    var t := Lex(src, i);
    if t.Err? then Err(SyntaxError) else Get(src, t.value.item, t.value.next)
  }

  /** `JSON.parse(src)` without a callback. */
  function Parse(src: Text): Result<Value, SyntaxError> {
    var v := GetAt(src, 0);
    if v.Err? then Err(SyntaxError)
    else if Lex(src, v.value.next) == Ok(Read(End, |src|)) then Ok(v.value.item)
    else Err(SyntaxError)
  }

  /** The parser's shared state. */
  class Parser {
    var source: Text
    var index: nat

    constructor (source: Text)
      ensures this.source == source && this.index == 0
    {
      this.source := source;
      this.index := 0;
    }

    ghost predicate Valid()
      reads this
    {
      index <= |source|
    }

    /** Resets the parser state; the caller reports the syntax error. */
    method Abort()
      modifies this
      ensures source == [] && index == 0
    {
      source := [];
      index := 0;
    }

    /** Reads the four hexadecimal digits at `index`. */
    method LexHexCode() returns (r: Option<CodeUnit>)
      requires Valid()
      modifies this
      ensures r == (if FourHex(old(source), old(index)) then Some(HexCode(old(source), old(index))) else None)
      ensures Valid() && (r.Some? ==> source == old(source) && index == old(index) + 4)
    {
      var begin := index;
      var code := 0;
      while index < begin + 4
        invariant source == old(source) && begin <= index <= begin + 4
        invariant forall k :: begin <= k < index ==> IsHex(CharCode(source, k))
        invariant code == HexPrefix(source, begin, index)
      {
        if !IsHex(CharCode(source, index)) {
          assert !FourHex(source, begin);
          Abort();
          return None;
        }
        code := code * 16 + HexValue(CharCode(source, index));
        index := index + 1;
      }
      HexPrefixFour(source, begin);
      return Some(code);
    }

    /** Reads the escape sequence whose backslash is at `index`. */
    method LexEscape() returns (r: Option<CodeUnit>)
      requires Valid() && CharCode(source, index) == BACKSLASH
      modifies this
      ensures r.Some? ==> source == old(source) && old(index) < index
      ensures r.None? ==> forall acc: Text :: LexString(old(source), old(index), acc) == Err(SyntaxError)
      ensures r.Some? ==>
        forall acc: Text :: LexString(old(source), old(index), acc) == LexString(old(source), index, acc + [r.value])
      ensures Valid()
    {
      index := index + 1;
      var charCode := CharCode(source, index);
      if Unescape(charCode) >= 0 {
        index := index + 1;
        return Some(Unescape(charCode));
      } else if charCode == 117 {
        index := index + 1;
        r := LexHexCode();
      } else {
        Abort();
        return None;
      }
    }

    /** Reads a string token whose opening quote is at `index`. */
    method LexStringToken() returns (r: Result<Token, SyntaxError>)
      requires Valid() && CharCode(source, index) == QUOTE
      modifies this
      ensures r == Moved(LexString(old(source), old(index) + 1, [])) && Valid()
      ensures r.Ok? ==> source == old(source) && index == LexString(old(source), old(index) + 1, []).value.next
    {
      ghost var spec := LexString(source, index + 1, []);
      var value: Text := [];
      index := index + 1;
      while index < |source|
        invariant Valid() && source == old(source)
        invariant LexString(source, index, value) == spec
        decreases |source| - index
      {
        if source[index] < 32 {
          Abort();
          return Err(SyntaxError);
        } else if source[index] == BACKSLASH {
          var c := LexEscape();
          if c.None? { return Err(SyntaxError); }
          value := value + [c.value];
        } else if source[index] == QUOTE {
          index := index + 1;
          return Ok(StrTok(value));
        } else {
          var begin := index;
          assert value + source[begin..index] == value;
          while index < |source| && source[index] >= 32 && source[index] != BACKSLASH && source[index] != QUOTE
            invariant source == old(source) && begin <= index <= |source|
            invariant LexString(source, index, value + source[begin..index]) == spec
          {
            assert value + source[begin..index + 1] == value + source[begin..index] + [source[index]];
            index := index + 1;
          }
          value := value + source[begin..index];
        }
      }
      Abort();
      return Err(SyntaxError);
    }

    /** Advances past an optional fraction at `index`. */
    method SkipFraction() returns (ok: bool)
      requires Valid()
      modifies this
      ensures ok == LexFraction(old(source), old(index)).Ok? && Valid()
      ensures ok ==> source == old(source) && index == LexFraction(old(source), old(index)).value
    {
      if CharCode(source, index) == 46 {
        index := index + 1;
        var position := index;
        SkipDigitRun();
        if position == index {
          Abort();
          return false;
        }
      }
      return true;
    }

    /** Advances past an optional exponent at `index`. */
    method SkipExponent() returns (ok: bool)
      requires Valid()
      modifies this
      ensures ok == LexExponent(old(source), old(index)).Ok? && Valid()
      ensures ok ==> source == old(source) && index == LexExponent(old(source), old(index)).value
    {
      if CharCode(source, index) == 101 || CharCode(source, index) == 69 {
        index := index + 1;
        if CharCode(source, index) == 43 || CharCode(source, index) == 45 {
          index := index + 1;
        }
        var position := index;
        SkipDigitRun();
        if position == index {
          Abort();
          return false;
        }
      }
      return true;
    }

    /** Reads a number whose literal begins at `begin`, its first digit at `index`. */
    method LexNumberToken(begin: nat) returns (r: Result<Token, SyntaxError>)
      requires begin <= index && IsDigit(CharCode(source, index))
      modifies this
      ensures r == Moved(LexNumber(old(source), begin, old(index))) && Valid()
      ensures r.Ok? ==> source == old(source) && index == LexNumber(old(source), begin, old(index)).value.next
    {
      if source[index] == 48 && IsDigit(CharCode(source, index + 1)) {
        Abort();
        return Err(SyntaxError);
      }
      SkipDigitRun();
      var fraction := SkipFraction();
      if !fraction { return Err(SyntaxError); }
      var exponent := SkipExponent();
      if !exponent { return Err(SyntaxError); }
      return Ok(Prim(Coerce(source[begin..index])));
    }

    /** Reads a number or a literal that begins at `index`. */
    method LexScalarToken() returns (r: Result<Token, SyntaxError>)
      requires index < |source|
      modifies this
      ensures r == Moved(LexScalar(old(source), old(index))) && Valid()
      ensures r.Ok? ==> source == old(source) && index == LexScalar(old(source), old(index)).value.next
    {
      var begin := index;
      var isSigned := false;
      if source[index] == DASH {
        isSigned := true;
        index := index + 1;
      }
      if IsDigit(CharCode(source, index)) {
        r := LexNumberToken(begin);
        return;
      }
      if isSigned {
        Abort();
        return Err(SyntaxError);
      }
      if index + 4 <= |source| && source[index..index + 4] == [116, 114, 117, 101] {
        index := index + 4;
        return Ok(Prim(Bool(true)));
      } else if index + 5 <= |source| && source[index..index + 5] == [102, 97, 108, 115, 101] {
        index := index + 5;
        return Ok(Prim(Bool(false)));
      } else if index + 4 <= |source| && source[index..index + 4] == [110, 117, 108, 108] {
        index := index + 4;
        return Ok(Prim(Null));
      }
      Abort();
      return Err(SyntaxError);
    }

    /** Advances past the digits at `index`. */
    method SkipDigitRun()
      requires Valid()
      modifies this`index
      ensures Valid() && index == SkipDigits(source, old(index))
    {
      while index < |source| && IsDigit(source[index])
        invariant old(index) <= index <= |source|
        invariant SkipDigits(source, index) == SkipDigits(source, old(index))
      {
        index := index + 1;
      }
    }

    /** `lex()`: the next token, moving the index past it. */
    method NextToken() returns (r: Result<Token, SyntaxError>)
      requires Valid()
      modifies this
      ensures r == Moved(Lex(old(source), old(index))) && Valid()
      ensures r.Ok? ==> source == old(source) && index == Lex(old(source), old(index)).value.next
    {
      while index < |source|
        invariant Valid() && source == old(source)
        invariant Lex(source, index) == Lex(old(source), old(index))
        decreases |source| - index
      {
        var charCode := source[index];
        if IsBlank(charCode) {
          index := index + 1;
        } else if IsPunct(charCode) {
          index := index + 1;
          return Ok(Punct(charCode));
        } else if charCode == QUOTE {
          r := LexStringToken();
          return;
        } else {
          r := LexScalarToken();
          return;
        }
      }
      return Ok(End);
    }

    /** `get(t)`: the value that token `t` begins. */
    method GetValue(t: Token) returns (r: Result<Value, SyntaxError>)
      requires Valid()
      modifies this
      ensures r == Moved(Get(old(source), t, old(index))) && Valid()
      ensures r.Ok? ==> source == old(source) && index == Get(old(source), t, old(index)).value.next
      decreases |source| - index, if t == End then 0 else 2
    {
      match t
      case End =>
        Abort();
        return Err(SyntaxError);
      case StrTok(s) => return Ok(Str(s));
      case Prim(v) => return Ok(v);
      case Punct(c) =>
        if c == LBRACKET {
          r := GetArray();
        } else if c == LBRACE {
          r := GetObject();
        } else {
          Abort();
          return Err(SyntaxError);
        }
    }

    /** The elements of an array literal whose bracket has been read. */
    method GetArray() returns (r: Result<Value, SyntaxError>)
      requires Valid()
      modifies this
      ensures r == Moved(GetItems(old(source), old(index), [])) && Valid()
      ensures r.Ok? ==> source == old(source) && index == GetItems(old(source), old(index), []).value.next
      decreases |source| - index, 1
    {
      hide Lex;
      ghost var spec := GetItems(source, index, []);
      var results: seq<Value> := [];
      var hasMembers := false;
      while true
        invariant Valid() && source == old(source) && old(index) <= index
        invariant hasMembers == (results != [])
        invariant GetItems(source, index, results) == spec
        decreases |source| - index
      {
        var t := NextToken();
        if t.Err? { return Err(SyntaxError); }
        if t.value == Punct(RBRACKET) { return Ok(Arr(results)); }
        if hasMembers {
          if t.value != Punct(COMMA) {
            Abort();
            return Err(SyntaxError);
          }
          t := NextToken();
          if t.Err? { return Err(SyntaxError); }
          if t.value == Punct(RBRACKET) {
            Abort();
            return Err(SyntaxError);
          }
        }
        if t.value == Punct(COMMA) {
          Abort();
          return Err(SyntaxError);
        }
        var v := GetValue(t.value);
        if v.Err? { return Err(SyntaxError); }
        results := results + [v.value];
        hasMembers := true;
      }
    }

    /** The members of an object literal whose brace has been read. */
    method GetObject() returns (r: Result<Value, SyntaxError>)
      requires Valid()
      modifies this
      ensures r == Moved(GetMembers(old(source), old(index), [], false)) && Valid()
      ensures r.Ok? ==> source == old(source) && index == GetMembers(old(source), old(index), [], false).value.next
      decreases |source| - index, 1
    {
      hide Lex;
      ghost var spec := GetMembers(source, index, [], false);
      var results: seq<Member> := [];
      var hasMembers := false;
      while true
        invariant Valid() && source == old(source) && old(index) <= index
        invariant GetMembers(source, index, results, hasMembers) == spec
        decreases |source| - index
      {
        var t := NextToken();
        if t.Err? { return Err(SyntaxError); }
        if t.value == Punct(RBRACE) { return Ok(Obj(results)); }
        if hasMembers {
          if t.value != Punct(COMMA) {
            Abort();
            return Err(SyntaxError);
          }
          t := NextToken();
          if t.Err? { return Err(SyntaxError); }
          if t.value == Punct(RBRACE) {
            Abort();
            return Err(SyntaxError);
          }
        }
        if !t.value.StrTok? {
          Abort();
          return Err(SyntaxError);
        }
        var colon := NextToken();
        if colon.Err? { return Err(SyntaxError); }
        if colon.value != Punct(COLON) {
          Abort();
          return Err(SyntaxError);
        }
        var start := NextToken();
        if start.Err? { return Err(SyntaxError); }
        var v := GetValue(start.value);
        if v.Err? { return Err(SyntaxError); }
        results := Assign(results, t.value.s, v.value);
        hasMembers := true;
      }
    }

    /** `JSON.parse` of the source this parser was built on. */
    method ParseAll() returns (r: Result<Value, SyntaxError>)
      requires index == 0
      modifies this
      ensures r == Parse(old(source))
    {
      var t := NextToken();
      if t.Err? { return Err(SyntaxError); }
      r := GetValue(t.value);
      if r.Err? { return; }
      var last := NextToken();
      if last.Err? { return Err(SyntaxError); }
      if last.value != End {
        Abort();
        return Err(SyntaxError);
      }
      Abort();
    }
  }

  /** The item of a read, without the position. */
  function Moved<T>(r: Result<Read<T>, SyntaxError>): Result<T, SyntaxError> {
    if r.Ok? then Ok(r.value.item) else Err(SyntaxError)
  }

  /** The number the hexadecimal digits in `src[begin..position]` denote. */
  ghost function HexPrefix(src: Text, begin: nat, position: nat): nat
    requires begin <= position <= begin + 4
    requires forall k :: begin <= k < position ==> IsHex(CharCode(src, k))
    ensures HexPrefix(src, begin, position) < (if position == begin then 1 else if position == begin + 1 then 16
              else if position == begin + 2 then 256 else if position == begin + 3 then 4096 else 65536)
    decreases position
  {
    if position == begin then 0
    else HexPrefix(src, begin, position - 1) * 16 + HexValue(CharCode(src, position - 1))
  }

  lemma HexPrefixFour(src: Text, begin: nat)
    requires forall k :: begin <= k < begin + 4 ==> IsHex(CharCode(src, k))
    ensures FourHex(src, begin) && HexPrefix(src, begin, begin + 4) == HexCode(src, begin)
  {
    assert IsHex(CharCode(src, begin)) && IsHex(CharCode(src, begin + 1));
    assert IsHex(CharCode(src, begin + 2)) && IsHex(CharCode(src, begin + 3));
    assert HexPrefix(src, begin, begin + 1) == HexValue(src[begin]);
    assert HexPrefix(src, begin, begin + 2) == HexValue(src[begin]) * 16 + HexValue(src[begin + 1]);
  }
}
