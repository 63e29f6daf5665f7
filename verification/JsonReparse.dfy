/**
  Printing what was parsed. Every value the parser accepts is tidy, so parsing the
  printed value of any accepted text gives the same value again.
 */
module JsonReparse {
  import opened Wrappers
  import opened Texts
  import opened Json
  import opened JsonParse
  import opened JsonRoundTrip

  /** No object in the tree repeats a key or has a member named `__proto__`. */
  ghost predicate Tidy(v: Value) {
    match v
    case Arr(items) => forall i :: 0 <= i < |items| ==> Tidy(items[i])
    case Obj(members) =>
      && DistinctKeys(members)
      && forall i :: 0 <= i < |members| ==> members[i].key != PROTO && Tidy(members[i].value)
    case _ => true
  }

  /** No number in the tree was written with a fraction or an exponent. */
  predicate NoFloat(v: Value) {
    match v
    case Float(_) => false
    case Arr(items) => forall i :: 0 <= i < |items| ==> NoFloat(items[i])
    case Obj(members) => forall i :: 0 <= i < |members| ==> NoFloat(members[i].value)
    case _ => true
  }

  /** The keys of an object after an assignment are those before it and perhaps the new one. */
  lemma {:induction false} AssignOwnTidy(acc: seq<Member>, key: Text, value: Value)
    requires Tidy(Obj(acc)) && Tidy(value) && key != PROTO
    ensures Tidy(Obj(AssignOwn(acc, key, value)))
    ensures forall k :: 0 <= k < |AssignOwn(acc, key, value)| ==>
      var name := AssignOwn(acc, key, value)[k].key;
      name == key || exists m :: 0 <= m < |acc| && name == acc[m].key
    decreases |acc|
  {
    if acc != [] && acc[0].key != key {
      AssignOwnTidy(acc[1..], key, value);
    }
  }

  lemma AssignTidy(acc: seq<Member>, key: Text, value: Value)
    requires Tidy(Obj(acc)) && Tidy(value)
    ensures Tidy(Obj(Assign(acc, key, value)))
  {
    if key != PROTO { AssignOwnTidy(acc, key, value); }
  }

  lemma {:induction false} GetTidy(src: Text, t: Token, i: nat)
    requires i <= |src| && (t.Prim? ==> !t.v.Arr? && !t.v.Obj?)
    ensures Get(src, t, i).Ok? ==> Tidy(Get(src, t, i).value.item)
    decreases |src| - i, if t == End then 0 else 2
  {
    hide Lex;
    if t.Punct? && t.c == LBRACKET { GetItemsTidy(src, i, []); }
    if t.Punct? && t.c == LBRACE { GetMembersTidy(src, i, [], false); }
  }

  lemma {:induction false} GetItemsTidy(src: Text, i: nat, acc: seq<Value>)
    requires i <= |src| && Tidy(Arr(acc))
    ensures GetItems(src, i, acc).Ok? ==> Tidy(GetItems(src, i, acc).value.item)
    decreases |src| - i, 1
  {
    hide Lex;
    if GetItems(src, i, acc).Ok? {
      var t := Lex(src, i).value;
      if t.item != Punct(RBRACKET) {
        var first := NextElement(src, t, RBRACKET, acc != []).value;
        var v := Get(src, first.item, first.next).value;
        GetTidy(src, first.item, first.next);
        GetItemsTidy(src, v.next, acc + [v.item]);
      }
    }
  }

  lemma {:induction false} GetMembersTidy(src: Text, i: nat, acc: seq<Member>, hasMembers: bool)
    requires i <= |src| && Tidy(Obj(acc))
    ensures GetMembers(src, i, acc, hasMembers).Ok? ==> Tidy(GetMembers(src, i, acc, hasMembers).value.item)
    decreases |src| - i, 1
  {
    hide Lex, Get, Assign, Tidy;
    if GetMembers(src, i, acc, hasMembers).Ok? {
      var t := Lex(src, i).value;
      if t.item != Punct(RBRACE) {
        var key := NextElement(src, t, RBRACE, hasMembers).value;
        var colon := Lex(src, key.next).value;
        var start := Lex(src, colon.next).value;
        var v := Get(src, start.item, start.next).value;
        GetTidy(src, start.item, start.next);
        AssignTidy(acc, key.item.s, v.item);
        GetMembersTidy(src, v.next, Assign(acc, key.item.s, v.item), true);
      }
    }
  }

  lemma ParsedIsTidy(src: Text)
    requires Parse(src).Ok?
    ensures Tidy(Parse(src).value)
  {
    hide Lex, Get;
    var t := Lex(src, 0).value;
    GetTidy(src, t.item, t.next);
  }

  lemma {:induction false} TidyIsPlain(v: Value)
    requires Tidy(v)
    ensures NoProto(v)
    ensures Plain(v) <==> NoFloat(v)
    decreases v
  {
    match v
    case Arr(items) =>
      forall k | 0 <= k < |items| ensures NoProto(items[k]) && (Plain(items[k]) <==> NoFloat(items[k])) {
        TidyIsPlain(items[k]);
      }
    case Obj(members) =>
      forall k | 0 <= k < |members|
        ensures NoProto(members[k].value) && (Plain(members[k].value) <==> NoFloat(members[k].value))
      {
        TidyIsPlain(members[k].value);
      }
    case _ =>
  }

  /**
    Printing an accepted text's value, compact or indented, and parsing that gives the
    same value: however the text was laid out and escaped, repeated its keys or named `__proto__`.
   */
  lemma Reparse(src: Text, ws: Text)
    requires Parse(src).Ok? && NoFloat(Parse(src).value) && AllBlank(ws)
    ensures Parse(Print(Parse(src).value, ws, [])) == Parse(src)
  {
    ParsedIsTidy(src);
    TidyIsPlain(Parse(src).value);
    RoundTrip(Parse(src).value, ws);
  }
}
