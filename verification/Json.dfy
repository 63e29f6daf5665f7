/**
  The values JSON3 reads and writes, and the text it writes for them
  (`cluster/wwwroot/sockjs.js`, the fallback `stringify`).
 */
module Json {
  import opened Texts

  datatype Value =
    | Null
    | Bool(b: bool)
    | Num(n: int)           // an integer that prints in plain decimal
    | Float(literal: Text)  // a literal with a fraction or an exponent, as read
    | Str(s: Text)
    | Arr(items: seq<Value>)
    | Obj(members: seq<Member>)  // own properties, in the order they are visited
  datatype Member = Member(key: Text, value: Value)

  /** The key whose assignment sets the prototype and makes no own property. */
  const PROTO: Text := [95, 95, 112, 114, 111, 116, 111, 95, 95]

  ghost predicate DistinctKeys(members: seq<Member>) {
    forall i, j :: 0 <= i < j < |members| ==> members[i].key != members[j].key
  }

  /** A tree of null, booleans, integers, strings, arrays and objects. */
  ghost predicate Plain(v: Value) {
    match v
    case Float(_) => false
    case Arr(items) => forall i :: 0 <= i < |items| ==> Plain(items[i])
    case Obj(members) =>
      && DistinctKeys(members)
      && forall i :: 0 <= i < |members| ==> Plain(members[i].value)
    case _ => true
  }

  /** No object in the tree has a property named `__proto__`. */
  predicate NoProto(v: Value) {
    match v
    case Arr(items) => forall i :: 0 <= i < |items| ==> NoProto(items[i])
    case Obj(members) =>
      forall i :: 0 <= i < |members| ==> members[i].key != PROTO && NoProto(members[i].value)
    case _ => true
  }

  // ---------- numbers ----------

  function Digits(n: nat): (r: Text)
    ensures |r| > 0 && forall c <- r :: 48 <= c <= 57
    ensures n > 0 ==> r[0] != 48
    ensures n < 10 ==> r == [48 + n]
  {
    if n < 10 then [48 + n] else Digits(n / 10) + [48 + n % 10]
  }

  /** `"" + n` for an integer. */
  function Decimal(n: int): Text {
    if n < 0 then [DASH] + Digits(-n) else Digits(n)
  }

  // ---------- strings ----------

  function HexDigit(d: nat): CodeUnit
    requires d < 16
  {
    if d < 10 then 48 + d else 87 + d
  }

  /** `n.toString(16)`. */
  function Hex(n: nat): Text {
    if n < 16 then [HexDigit(n)] else Hex(n / 16) + [HexDigit(n % 16)]
  }

  /** `("000000" + text).slice(-width)`, for the widths JSON3 uses. */
  function ToPadded(width: nat, text: Text): Text
    requires width <= 6
  {
    var s: Text := [48, 48, 48, 48, 48, 48] + text;
    s[|s| - width..]
  }

  /** What `quote` appends for one code unit. */
  function QuoteUnit(c: CodeUnit): Text {
    if c == 92 then [92, 92]
    else if c == 34 then [92, 34]
    else if c == 8 then [92, 98]
    else if c == 12 then [92, 102]
    else if c == 10 then [92, 110]
    else if c == 13 then [92, 114]
    else if c == 9 then [92, 116]
    else if c < 32 then [92, 117, 48, 48] + ToPadded(2, Hex(c))
    else [c]
  }

  /** The encodings of the units of `s`, one after the other. */
  function EncodeAll(encode: CodeUnit -> Text, s: Text): Text {
    if s == [] then [] else encode(s[0]) + EncodeAll(encode, s[1..])
  }

  /** `quote(s)`. */
  function Quoted(s: Text): Text {
    [QUOTE] + EncodeAll(QuoteUnit, s) + [QUOTE]
  }

  // ---------- trees ----------

  /** The line break before an element; nothing in compact output. */
  function Break(ws: Text, ind: Text): Text {
    if ws == [] then [] else [LF] + ind
  }

  /** Brackets around comma-joined parts, with `b` before each part and `blank` after the last. */
  function Bracketed(open: CodeUnit, parts: seq<Text>, b: Text, blank: Text, close: CodeUnit): Text {
    [open] + b + Join(parts, [COMMA] + b) + blank + [close]
  }

  /** The text of an array or object whose elements have the texts `parts`. */
  function Wrap(open: CodeUnit, parts: seq<Text>, close: CodeUnit, ws: Text, ind: Text): Text {
    if parts == [] then [open, close]
    else Bracketed(open, parts, Break(ws, ind + ws), Break(ws, ind), close)
  }

  /** The key and separator that precede a member's value. */
  function KeyPart(key: Text, ws: Text): Text {
    Quoted(key) + [COLON] + (if ws == [] then [] else [SPACE])
  }

  /** The text of `v` at indentation `ind`, one level adding `ws`. */
  function Print(v: Value, ws: Text, ind: Text): Text
    decreases v, 0
  {
    match v
    case Null => [110, 117, 108, 108]
    case Bool(b) => if b then [116, 114, 117, 101] else [102, 97, 108, 115, 101]
    case Num(n) => Decimal(n)
    case Float(literal) => literal
    case Str(s) => Quoted(s)
    case Arr(items) => Wrap(LBRACKET, PrintItems(items, ws, ind + ws), RBRACKET, ws, ind)
    case Obj(members) => Wrap(LBRACE, PrintMembers(members, ws, ind + ws), RBRACE, ws, ind)
  }

  function PrintItems(items: seq<Value>, ws: Text, ind: Text): (r: seq<Text>)
    ensures |r| == |items|
    ensures forall i :: 0 <= i < |items| ==> r[i] == Print(items[i], ws, ind)
    decreases items, 1
  {
    if items == [] then [] else [Print(items[0], ws, ind)] + PrintItems(items[1..], ws, ind)
  }

  function PrintMembers(members: seq<Member>, ws: Text, ind: Text): (r: seq<Text>)
    ensures |r| == |members|
    ensures forall i :: 0 <= i < |members| ==> r[i] == KeyPart(members[i].key, ws) + Print(members[i].value, ws, ind)
    decreases members, 1
  {
    if members == [] then []
    else [KeyPart(members[0].key, ws) + Print(members[0].value, ws, ind)] + PrintMembers(members[1..], ws, ind)
  }

  // ---------- what a parse gives back ----------

  /** `results[key] = value` on a fresh object. */
  function Assign(members: seq<Member>, key: Text, value: Value): seq<Member> {
    if key == PROTO then members else AssignOwn(members, key, value)
  }

  function AssignOwn(members: seq<Member>, key: Text, value: Value): seq<Member> {
    if members == [] then [Member(key, value)]
    else if members[0].key == key then [Member(key, value)] + members[1..]
    else [members[0]] + AssignOwn(members[1..], key, value)
  }

  /** The tree without the members named `__proto__`. */
  function DropProto(v: Value): Value
    decreases v, 0
  {
    match v
    case Arr(items) => Arr(DropItems(items))
    case Obj(members) => Obj(DropMembers(members))
    case _ => v
  }

  function DropItems(items: seq<Value>): (r: seq<Value>)
    ensures |r| == |items|
    ensures forall i :: 0 <= i < |items| ==> r[i] == DropProto(items[i])
    decreases items, 1
  {
    if items == [] then [] else [DropProto(items[0])] + DropItems(items[1..])
  }

  function DropMembers(members: seq<Member>): seq<Member>
    decreases members, 1
  {
    if members == [] then []
    else
      var rest := DropMembers(members[1..]);
      if members[0].key == PROTO then rest
      else [Member(members[0].key, DropProto(members[0].value))] + rest
  }
}
