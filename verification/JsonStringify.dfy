/**
  JSON3's `stringify` over a heap of arrays, plain objects and dates that may share nodes
  and form cycles (`cluster/wwwroot/sockjs.js`, `quote`, `serialize`).
 */
module JsonStringify {
  import opened Wrappers
  import opened Texts
  import opened Json
  import opened JsonParse
  import opened JsonRoundTrip
  import opened Doubles
  import opened JsonDate
  import opened JsonDateText

  type ObjectId = nat
  /** The time value of a Date; none for an invalid one. */
  type Time = t: Option<int> | t.Some? ==> -MAX_TIME <= t.value <= MAX_TIME witness None

  datatype Slot = Prim(v: Value) | Date(time: Time) | Ref(id: ObjectId)
  datatype Node = ArrNode(elems: seq<Slot>) | ObjNode(props: seq<Prop>)
  datatype Prop = Prop(key: Text, slot: Slot)
  type Heap = map<ObjectId, Node>

  datatype TypeError = TypeError

  /** The slot holds null, a boolean, an integer, a string, a date, or an object of the heap. */
  predicate InHeap(h: Heap, s: Slot) {
    match s
    case Prim(v) => v.Null? || v.Bool? || v.Num? || v.Str?
    case Date(_) => true
    case Ref(id) => id in h
  }

  ghost predicate WellFormed(h: Heap) {
    forall id <- h ::
      match h[id]
      case ArrNode(elems) => forall s <- elems :: InHeap(h, s)
      case ObjNode(props) =>
        && (forall p <- props :: InHeap(h, p.slot))
        && forall i, j :: 0 <= i < j < |props| ==> props[i].key != props[j].key
  }

  /** The heap's objects that are not on the stack. */
  ghost function Unvisited(h: Heap, stack: seq<ObjectId>): set<ObjectId> {
    h.Keys - set id | id in stack
  }

  /** Pushing an object that is not on the stack leaves strictly fewer to visit. */
  lemma PushShrinks(h: Heap, stack: seq<ObjectId>, id: ObjectId)
    requires id in h && id !in stack
    ensures Unvisited(h, stack + [id]) < Unvisited(h, stack)
  {
    assert id in Unvisited(h, stack) && id !in Unvisited(h, stack + [id]);
  }

  // ---------- dates ----------

  /** What a date is replaced by: null, or a text that denotes its time value. */
  ghost function DateAsValue(time: Time): (v: Value)
    ensures match time
      case None => v == Null
      case Some(t) => v.Str? && Denotes(v.s, t)
  {
    match time
    case None => Null
    case Some(t) =>
      var f := FieldsOf(t);
      DateTextReads(f);
      YearsOfTimeValues(f);
      Str(DateText(f))
  }

  // ---------- serialize as a function ----------

  ghost function Serialized(h: Heap, s: Slot, ws: Text, ind: Text, stack: seq<ObjectId>): Result<Text, TypeError>
    requires WellFormed(h) && InHeap(h, s)
    decreases Unvisited(h, stack), 0
  {
    match s
    case Prim(v) => Ok(Print(v, ws, ind))
    case Date(time) => Ok(Print(DateAsValue(time), ws, ind))
    case Ref(id) =>
      if id in stack then Err(TypeError)
      else
        PushShrinks(h, stack, id);
        match h[id]
        case ArrNode(elems) =>
          var parts := SerializedElems(h, elems, ws, ind + ws, stack + [id]);
          if parts.Err? then Err(TypeError) else Ok(Wrap(LBRACKET, parts.value, RBRACKET, ws, ind))
        case ObjNode(props) =>
          var parts := SerializedProps(h, props, ws, ind + ws, stack + [id]);
          if parts.Err? then Err(TypeError) else Ok(Wrap(LBRACE, parts.value, RBRACE, ws, ind))
  }

  ghost function SerializedElems(h: Heap, elems: seq<Slot>, ws: Text, ind: Text, stack: seq<ObjectId>)
    : Result<seq<Text>, TypeError>
    requires WellFormed(h) && forall s <- elems :: InHeap(h, s)
    decreases Unvisited(h, stack), |elems| + 1
  {
    if elems == [] then Ok([])
    else
      var init := SerializedElems(h, elems[..|elems| - 1], ws, ind, stack);
      if init.Err? then Err(TypeError)
      else
        var part := Serialized(h, elems[|elems| - 1], ws, ind, stack);
        if part.Err? then Err(TypeError) else Ok(init.value + [part.value])
  }

  ghost function SerializedProps(h: Heap, props: seq<Prop>, ws: Text, ind: Text, stack: seq<ObjectId>)
    : Result<seq<Text>, TypeError>
    requires WellFormed(h) && forall p <- props :: InHeap(h, p.slot)
    decreases Unvisited(h, stack), |props| + 1
  {
    if props == [] then Ok([])
    else
      var last := props[|props| - 1];
      var init := SerializedProps(h, props[..|props| - 1], ws, ind, stack);
      if init.Err? then Err(TypeError)
      else
        var part := Serialized(h, last.slot, ws, ind, stack);
        if part.Err? then Err(TypeError) else Ok(init.value + [KeyPart(last.key, ws) + part.value])
  }

  /** The gap a numeric `width` argument selects. */
  function Gap(width: int): Text {
    seq(if width <= 0 then 0 else if width > 10 then 10 else width, _ => SPACE)
  }

  /** As many spaces as the width says, at most ten. */
  lemma GapIs(width: int)
    ensures |Gap(width)| == if width < 0 then 0 else if width < 10 then width else 10
    ensures forall k :: 0 <= k < |Gap(width)| ==> Gap(width)[k] == 32
  {
  }

  // ---------- the serializer ----------

  /** `quote(value)`. */
  method Quote(value: Text) returns (result: Text)
    ensures result == Quoted(value)
  {
    result := [QUOTE];
    var index := 0;
    assert value[0..] == value;
    while index < |value|
      invariant 0 <= index <= |value|
      invariant result + EncodeAll(QuoteUnit, value[index..]) == [QUOTE] + EncodeAll(QuoteUnit, value)
    {
      assert value[index..][0] == value[index] && value[index..][1..] == value[index + 1..];
      assert result + (QuoteUnit(value[index]) + EncodeAll(QuoteUnit, value[index + 1..]))
          == (result + QuoteUnit(value[index])) + EncodeAll(QuoteUnit, value[index + 1..]);
      result := result + QuoteUnit(value[index]);
      index := index + 1;
    }
    assert value[index..] == [];
    result := result + [QUOTE];
  }

  class Serializer {
    const heap: Heap
    const arithmetic: Arithmetic
    const whitespace: Text
    var stack: seq<ObjectId>

    constructor (heap: Heap, arithmetic: Arithmetic, whitespace: Text)
      ensures this.heap == heap && this.arithmetic == arithmetic && this.whitespace == whitespace && stack == []
    {
      this.heap := heap;
      this.arithmetic := arithmetic;
      this.whitespace := whitespace;
      this.stack := [];
    }

    /** `serialize`: on success the stack is as it was before the call. */
    method Serialize(value: Slot, indentation: Text) returns (r: Result<Text, TypeError>)
      requires WellFormed(heap) && InHeap(heap, value) && Rounding(arithmetic)
      modifies this
      ensures r == Serialized(heap, value, whitespace, indentation, old(stack))
      ensures r.Ok? ==> stack == old(stack)
      decreases Unvisited(heap, stack), 0
    {
      hide Rounding, Wrap, DateAsValue, EncodeAll;
      match value
      case Prim(v) =>
        if v.Str? {
          var quoted := Quote(v.s);
          return Ok(quoted);
        }
        return Ok(Print(v, whitespace, indentation));
      case Date(time) =>
        r := SerializeDate(time);
      case Ref(id) =>
        var length := |stack|;
        while length > 0
          invariant 0 <= length <= |stack| && stack == old(stack)
          invariant forall k :: length <= k < |stack| ==> stack[k] != id
        {
          length := length - 1;
          if stack[length] == id { return Err(TypeError); }
        }
        PushShrinks(heap, stack, id);
        stack := stack + [id];
        var prefix := indentation;
        match heap[id] {
          case ArrNode(elems) =>
            var results := SerializeElems(elems, indentation + whitespace);
            if results.Err? { return Err(TypeError); }
            r := Ok(Wrap(LBRACKET, results.value, RBRACKET, whitespace, prefix));
          case ObjNode(props) =>
            var results := SerializeProps(props, indentation + whitespace);
            if results.Err? { return Err(TypeError); }
            r := Ok(Wrap(LBRACE, results.value, RBRACE, whitespace, prefix));
        }
        stack := stack[..|stack| - 1];
    }

    /** A date is quoted as its text; an invalid one is null. */
    method SerializeDate(time: Time) returns (r: Result<Text, TypeError>)
      requires Rounding(arithmetic)
      ensures r == Ok(Print(DateAsValue(time), [], []))
    {
      hide Rounding, Accurate, DateText, FieldsOf, Denotes, EncodeAll;
      if time.None? { return Ok(Print(Null, [], [])); }
      RoundingIsAccurate(arithmetic, time.value);
      var text := DateToText(arithmetic, time.value);
      var quoted := Quote(text);
      r := Ok(quoted);
    }

    method SerializeElems(elems: seq<Slot>, indentation: Text) returns (r: Result<seq<Text>, TypeError>)
      requires WellFormed(heap) && Rounding(arithmetic) && forall s <- elems :: InHeap(heap, s)
      modifies this
      ensures r == SerializedElems(heap, elems, whitespace, indentation, old(stack))
      ensures r.Ok? ==> stack == old(stack)
      decreases Unvisited(heap, stack), 1
    {
      hide Rounding, Serialized, InHeap, Unvisited;
      var results: seq<Text> := [];
      var index := 0;
      while index < |elems|
        invariant 0 <= index <= |elems| && stack == old(stack)
        invariant SerializedElems(heap, elems[..index], whitespace, indentation, stack) == Ok(results)
      {
        var element := Serialize(elems[index], indentation);
        assert elems[..index + 1][..index] == elems[..index];
        if element.Err? {
          ErrStays(heap, elems, whitespace, indentation, old(stack), index + 1);
          return Err(TypeError);
        }
        results := results + [element.value];
        index := index + 1;
      }
      assert elems[..index] == elems;
      return Ok(results);
    }

    method SerializeProps(props: seq<Prop>, indentation: Text) returns (r: Result<seq<Text>, TypeError>)
      requires WellFormed(heap) && Rounding(arithmetic) && forall p <- props :: InHeap(heap, p.slot)
      modifies this
      ensures r == SerializedProps(heap, props, whitespace, indentation, old(stack))
      ensures r.Ok? ==> stack == old(stack)
      decreases Unvisited(heap, stack), 1
    {
      hide Rounding, Serialized, Quoted, InHeap, Unvisited;
      var results: seq<Text> := [];
      var index := 0;
      while index < |props|
        invariant 0 <= index <= |props| && stack == old(stack)
        invariant SerializedProps(heap, props[..index], whitespace, indentation, stack) == Ok(results)
      {
        var element := Serialize(props[index].slot, indentation);
        assert props[..index + 1][..index] == props[..index];
        if element.Err? {
          ErrStaysInProps(heap, props, whitespace, indentation, old(stack), index + 1);
          return Err(TypeError);
        }
        var key := Quote(props[index].key);
        results := results + [key + [COLON] + (if whitespace == [] then [] else [SPACE]) + element.value];
        index := index + 1;
      }
      assert props[..index] == props;
      return Ok(results);
    }
  }

  lemma {:induction false} ErrStays(h: Heap, elems: seq<Slot>, ws: Text, ind: Text, stack: seq<ObjectId>, k: nat)
    requires WellFormed(h) && (forall s <- elems :: InHeap(h, s)) && k <= |elems|
    requires SerializedElems(h, elems[..k], ws, ind, stack).Err?
    ensures SerializedElems(h, elems, ws, ind, stack) == Err(TypeError)
    decreases |elems| - k
  {
    if k < |elems| {
      assert elems[..k + 1][..k] == elems[..k];
      ErrStays(h, elems, ws, ind, stack, k + 1);
    } else {
      assert elems[..k] == elems;
    }
  }

  lemma {:induction false} ErrStaysInProps(h: Heap, props: seq<Prop>, ws: Text, ind: Text, stack: seq<ObjectId>, k: nat)
    requires WellFormed(h) && (forall p <- props :: InHeap(h, p.slot)) && k <= |props|
    requires SerializedProps(h, props[..k], ws, ind, stack).Err?
    ensures SerializedProps(h, props, ws, ind, stack) == Err(TypeError)
    decreases |props| - k
  {
    if k < |props| {
      assert props[..k + 1][..k] == props[..k];
      ErrStaysInProps(h, props, ws, ind, stack, k + 1);
    } else {
      assert props[..k] == props;
    }
  }

  /** `JSON.stringify(source, null, width)`. */
  method Stringify(h: Heap, ar: Arithmetic, source: Slot, width: int) returns (r: Result<Text, TypeError>)
    requires WellFormed(h) && InHeap(h, source) && Rounding(ar)
    ensures r == Serialized(h, source, Gap(width), [], [])
  {
    var whitespace: Text := [];
    if width > 0 {
      var limit := if width > 10 then 10 else width;
      while |whitespace| < limit
        invariant |whitespace| <= limit && forall k :: 0 <= k < |whitespace| ==> whitespace[k] == SPACE
      {
        whitespace := whitespace + [SPACE];
      }
    }
    assert whitespace == Gap(width);
    var serializer := new Serializer(h, ar, whitespace);
    r := serializer.Serialize(source, []);
  }

  // ---------- the tree a heap unfolds to ----------

  /** `t` is the tree that the slot stands for once every reference is followed. */
  ghost predicate UnfoldsTo(h: Heap, s: Slot, t: Value)
    decreases t
  {
    match s
    case Prim(v) => t == v
    case Date(time) => t == DateAsValue(time)
    case Ref(id) =>
      && id in h
      && match h[id]
         case ArrNode(elems) =>
           && t.Arr? && |t.items| == |elems|
           && forall i :: 0 <= i < |elems| ==> UnfoldsTo(h, elems[i], t.items[i])
         case ObjNode(props) =>
           && t.Obj? && |t.members| == |props|
           && forall i :: 0 <= i < |props| ==>
                t.members[i].key == props[i].key && UnfoldsTo(h, props[i].slot, t.members[i].value)
  }

  lemma {:induction false} UnfoldsPlain(h: Heap, s: Slot, t: Value)
    requires WellFormed(h) && InHeap(h, s) && UnfoldsTo(h, s, t)
    ensures Plain(t)
    decreases t
  {
    if s.Ref? {
      match h[s.id]
      case ArrNode(elems) =>
        forall i | 0 <= i < |elems| ensures Plain(t.items[i]) { UnfoldsPlain(h, elems[i], t.items[i]); }
      case ObjNode(props) =>
        forall i | 0 <= i < |props| ensures Plain(t.members[i].value) {
          UnfoldsPlain(h, props[i].slot, t.members[i].value);
        }
    }
  }

  lemma PrintItemsSnoc(items: seq<Value>, v: Value, ws: Text, ind: Text)
    ensures PrintItems(items + [v], ws, ind) == PrintItems(items, ws, ind) + [Print(v, ws, ind)]
  {
    hide Print;
  }

  lemma PrintMembersSnoc(ms: seq<Member>, m: Member, ws: Text, ind: Text)
    ensures PrintMembers(ms + [m], ws, ind)
         == PrintMembers(ms, ws, ind) + [KeyPart(m.key, ws) + Print(m.value, ws, ind)]
  {
    hide Print, KeyPart;
  }

  /** What serializes is the text of a tree the slot unfolds to. */
  lemma {:induction false} SerializedUnfolds(h: Heap, s: Slot, ws: Text, ind: Text, stack: seq<ObjectId>)
    returns (t: Value)
    requires WellFormed(h) && InHeap(h, s)
    requires Serialized(h, s, ws, ind, stack).Ok?
    ensures UnfoldsTo(h, s, t) && Serialized(h, s, ws, ind, stack) == Ok(Print(t, ws, ind))
    decreases Unvisited(h, stack), 0
  {
    hide Unvisited, Wrap, PrintItems, PrintMembers, SerializedElems, SerializedProps;
    match s
    case Prim(v) => t := v;
    case Date(time) => t := DateAsValue(time);
    case Ref(id) =>
      PushShrinks(h, stack, id);
      match h[id]
      case ArrNode(elems) =>
        var ts := ElemsUnfold(h, elems, ws, ind + ws, stack + [id]);
        t := Arr(ts);
      case ObjNode(props) =>
        var ms := PropsUnfold(h, props, ws, ind + ws, stack + [id]);
        t := Obj(ms);
  }

  lemma {:induction false} ElemsUnfold(h: Heap, elems: seq<Slot>, ws: Text, ind: Text, stack: seq<ObjectId>)
    returns (ts: seq<Value>)
    requires WellFormed(h) && forall s <- elems :: InHeap(h, s)
    requires SerializedElems(h, elems, ws, ind, stack).Ok?
    ensures |ts| == |elems| && forall i :: 0 <= i < |ts| ==> UnfoldsTo(h, elems[i], ts[i])
    ensures SerializedElems(h, elems, ws, ind, stack) == Ok(PrintItems(ts, ws, ind))
    decreases Unvisited(h, stack), |elems| + 1
  {
    hide Serialized, Print, UnfoldsTo, Unvisited, InHeap, WellFormed, PrintItems;
    if elems == [] {
      ts := [];
    } else {
      var init := ElemsUnfold(h, elems[..|elems| - 1], ws, ind, stack);
      var last := SerializedUnfolds(h, elems[|elems| - 1], ws, ind, stack);
      ts := init + [last];
      PrintItemsSnoc(init, last, ws, ind);
    }
  }

  lemma {:induction false} PropsUnfold(h: Heap, props: seq<Prop>, ws: Text, ind: Text, stack: seq<ObjectId>)
    returns (ms: seq<Member>)
    requires WellFormed(h) && forall p <- props :: InHeap(h, p.slot)
    requires SerializedProps(h, props, ws, ind, stack).Ok?
    ensures |ms| == |props|
    ensures forall i :: 0 <= i < |ms| ==> ms[i].key == props[i].key && UnfoldsTo(h, props[i].slot, ms[i].value)
    ensures SerializedProps(h, props, ws, ind, stack) == Ok(PrintMembers(ms, ws, ind))
    decreases Unvisited(h, stack), |props| + 1
  {
    hide Serialized, Print, UnfoldsTo, KeyPart, Unvisited, InHeap, WellFormed, PrintMembers;
    if props == [] {
      ms := [];
    } else {
      var last := props[|props| - 1];
      var init := PropsUnfold(h, props[..|props| - 1], ws, ind, stack);
      var t := SerializedUnfolds(h, last.slot, ws, ind, stack);
      ms := init + [Member(last.key, t)];
      PrintMembersSnoc(init, Member(last.key, t), ws, ind);
    }
  }

  lemma {:induction false} UnfoldUnique(h: Heap, s: Slot, t: Value, u: Value)
    requires UnfoldsTo(h, s, t) && UnfoldsTo(h, s, u)
    ensures t == u
    decreases t
  {
    if s.Ref? {
      match h[s.id]
      case ArrNode(elems) =>
        forall i | 0 <= i < |elems| ensures t.items[i] == u.items[i] {
          UnfoldUnique(h, elems[i], t.items[i], u.items[i]);
        }
        assert t.items == u.items;
      case ObjNode(props) =>
        forall i | 0 <= i < |props| ensures t.members[i] == u.members[i] {
          UnfoldUnique(h, props[i].slot, t.members[i].value, u.members[i].value);
        }
        assert t.members == u.members;
    }
  }

  // ---------- cycles ----------

  /** Node `n` refers to object `id`. */
  ghost predicate RefersTo(n: Node, id: ObjectId) {
    match n
    case ArrNode(elems) => Ref(id) in elems
    case ObjNode(props) => exists i :: 0 <= i < |props| && props[i].slot == Ref(id)
  }

  ghost predicate Path(h: Heap, p: seq<ObjectId>) {
    && (forall i :: 0 <= i < |p| ==> p[i] in h)
    && forall i :: 0 <= i < |p| - 1 ==> RefersTo(h[p[i]], p[i + 1])
  }

  ghost predicate Repeats(p: seq<ObjectId>, i: nat, j: nat) {
    i < j < |p| && p[i] == p[j]
  }

  /** A cycle can be reached from the slot. */
  ghost predicate ReachesCycle(h: Heap, s: Slot) {
    s.Ref? && exists p: seq<ObjectId>, i: nat, j: nat :: p != [] && p[0] == s.id && Path(h, p) && Repeats(p, i, j)
  }

  /** A TypeError comes with a path that repeats an object. */
  lemma {:induction false} ErrorHasCycle(h: Heap, s: Slot, ws: Text, ind: Text, stack: seq<ObjectId>)
    returns (p: seq<ObjectId>, i: nat, j: nat)
    requires WellFormed(h) && InHeap(h, s)
    requires Path(h, stack) && (s.Ref? && stack != [] ==> RefersTo(h[stack[|stack| - 1]], s.id))
    requires Serialized(h, s, ws, ind, stack).Err?
    ensures s.Ref? && stack + [s.id] <= p && Path(h, p) && Repeats(p, i, j)
    decreases Unvisited(h, stack), 0
  {
    var id := s.id;
    var deeper := stack + [id];
    if id in stack {
      i :| 0 <= i < |stack| && stack[i] == id;
      j := |stack|;
      p := deeper;
    } else {
      PushShrinks(h, stack, id);
      match h[id]
      case ArrNode(elems) =>
        p, i, j := ElemsErrorHasCycle(h, elems, ws, ind + ws, deeper);
      case ObjNode(props) =>
        p, i, j := PropsErrorHasCycle(h, props, ws, ind + ws, deeper);
    }
  }

  lemma {:induction false} ElemsErrorHasCycle(h: Heap, elems: seq<Slot>, ws: Text, ind: Text, stack: seq<ObjectId>)
    returns (p: seq<ObjectId>, i: nat, j: nat)
    requires WellFormed(h) && forall s <- elems :: InHeap(h, s)
    requires Path(h, stack) && stack != []
    requires forall s <- elems :: s.Ref? ==> RefersTo(h[stack[|stack| - 1]], s.id)
    requires SerializedElems(h, elems, ws, ind, stack).Err?
    ensures stack <= p && Path(h, p) && Repeats(p, i, j)
    decreases Unvisited(h, stack), |elems| + 1
  {
    if SerializedElems(h, elems[..|elems| - 1], ws, ind, stack).Err? {
      p, i, j := ElemsErrorHasCycle(h, elems[..|elems| - 1], ws, ind, stack);
    } else {
      p, i, j := ErrorHasCycle(h, elems[|elems| - 1], ws, ind, stack);
    }
  }

  lemma {:induction false} PropsErrorHasCycle(h: Heap, props: seq<Prop>, ws: Text, ind: Text, stack: seq<ObjectId>)
    returns (p: seq<ObjectId>, i: nat, j: nat)
    requires WellFormed(h) && forall p <- props :: InHeap(h, p.slot)
    requires Path(h, stack) && stack != []
    requires forall p <- props :: p.slot.Ref? ==> RefersTo(h[stack[|stack| - 1]], p.slot.id)
    requires SerializedProps(h, props, ws, ind, stack).Err?
    ensures stack <= p && Path(h, p) && Repeats(p, i, j)
    decreases Unvisited(h, stack), |props| + 1
  {
    if SerializedProps(h, props[..|props| - 1], ws, ind, stack).Err? {
      p, i, j := PropsErrorHasCycle(h, props[..|props| - 1], ws, ind, stack);
    } else {
      p, i, j := ErrorHasCycle(h, props[|props| - 1].slot, ws, ind, stack);
    }
  }

  /** The subtree an edge leads to. */
  lemma ChildTree(h: Heap, id: ObjectId, child: ObjectId, t: Value) returns (u: Value)
    requires id in h && RefersTo(h[id], child) && UnfoldsTo(h, Ref(id), t)
    ensures UnfoldsTo(h, Ref(child), u) && u < t
  {
    match h[id]
    case ArrNode(elems) =>
      var i :| 0 <= i < |elems| && elems[i] == Ref(child);
      u := t.items[i];
    case ObjNode(props) =>
      var i :| 0 <= i < |props| && props[i].slot == Ref(child);
      u := t.members[i].value;
  }

  lemma PathTail(h: Heap, p: seq<ObjectId>)
    requires Path(h, p) && p != []
    ensures Path(h, p[1..])
  {
    var rest := p[1..];
    forall k | 0 <= k < |rest| - 1 ensures RefersTo(h[rest[k]], rest[k + 1]) {
      assert RefersTo(h[p[k + 1]], p[k + 1 + 1]);
    }
  }

  /** An object on a cycle unfolds to no tree: the cycle could be followed down for ever. */
  lemma {:induction false} CycleHasNoTree(h: Heap, p: seq<ObjectId>, t: Value)
    requires |p| > 1 && Path(h, p) && p[0] == p[|p| - 1]
    ensures !UnfoldsTo(h, Ref(p[0]), t)
    decreases t
  {
    if UnfoldsTo(h, Ref(p[0]), t) {
      var u := ChildTree(h, p[0], p[1], t);
      var rotated := p[1..] + [p[1]];
      assert forall i :: 0 <= i < |rotated| - 1 ==> RefersTo(h[rotated[i]], rotated[i + 1]) by {
        forall i | 0 <= i < |rotated| - 1 ensures RefersTo(h[rotated[i]], rotated[i + 1]) {
          if i < |p| - 2 {
            assert RefersTo(h[p[i + 1]], p[i + 1 + 1]);
          } else {
            assert RefersTo(h[p[0]], p[0 + 1]);
          }
        }
      }
      CycleHasNoTree(h, rotated, u);
    }
  }

  lemma {:induction false} ReachesCycleHasNoTree(h: Heap, p: seq<ObjectId>, i: nat, j: nat, t: Value)
    requires p != [] && Path(h, p) && Repeats(p, i, j)
    ensures !UnfoldsTo(h, Ref(p[0]), t)
    decreases |p|
  {
    if i == 0 {
      assert Path(h, p[..j + 1]);
      CycleHasNoTree(h, p[..j + 1], t);
    } else if UnfoldsTo(h, Ref(p[0]), t) {
      assert RefersTo(h[p[0]], p[0 + 1]);
      var u := ChildTree(h, p[0], p[1], t);
      PathTail(h, p);
      ReachesCycleHasNoTree(h, p[1..], i - 1, j - 1, u);
    }
  }

  /** serialize raises TypeError exactly when a cycle can be reached from the root. */
  lemma TypeErrorExactlyOnCycles(h: Heap, s: Slot, ws: Text)
    requires WellFormed(h) && InHeap(h, s)
    ensures Serialized(h, s, ws, [], []).Err? <==> ReachesCycle(h, s)
  {
    if Serialized(h, s, ws, [], []).Err? {
      var p, i, j := ErrorHasCycle(h, s, ws, [], []);
      assert p[0] == s.id;
    } else if ReachesCycle(h, s) {
      var p: seq<ObjectId>, i: nat, j: nat :| p != [] && p[0] == s.id && Path(h, p) && Repeats(p, i, j);
      var t := SerializedUnfolds(h, s, ws, [], []);
      ReachesCycleHasNoTree(h, p, i, j, t);
    }
  }

  lemma CyclePath(h: Heap, s: Slot) returns (p: seq<ObjectId>, i: nat, j: nat)
    requires ReachesCycle(h, s)
    ensures s.Ref? && p != [] && p[0] == s.id && Path(h, p) && Repeats(p, i, j)
  {
    p, i, j :| p != [] && p[0] == s.id && Path(h, p) && Repeats(p, i, j);
  }

  /** A tree exists exactly when no cycle is reachable, and then its text is the output. */
  lemma SharedNodesPrintAsTree(h: Heap, s: Slot, ws: Text)
    requires WellFormed(h) && InHeap(h, s)
    ensures (exists t :: UnfoldsTo(h, s, t)) <==> !ReachesCycle(h, s)
    ensures forall t :: UnfoldsTo(h, s, t) ==> Serialized(h, s, ws, [], []) == Ok(Print(t, ws, []))
  {
    hide Serialized, ReachesCycle;
    TypeErrorExactlyOnCycles(h, s, ws);
    if !ReachesCycle(h, s) {
      var t := SerializedUnfolds(h, s, ws, [], []);
      assert exists u :: UnfoldsTo(h, s, u);
      forall u | UnfoldsTo(h, s, u) ensures u == t { UnfoldUnique(h, s, u, t); }
    } else {
      var p, i, j := CyclePath(h, s);
      forall t ensures !UnfoldsTo(h, s, t) { ReachesCycleHasNoTree(h, p, i, j, t); }
    }
  }

  /**
    `JSON.parse(JSON.stringify(source, null, width))` over the heap: the unfolded tree
    comes back, without `__proto__` members, for every width.
   */
  lemma StringifyThenParse(h: Heap, s: Slot, width: int, t: Value)
    requires WellFormed(h) && InHeap(h, s) && UnfoldsTo(h, s, t)
    ensures var text := Serialized(h, s, Gap(width), [], []);
      text.Ok? && Parse(text.value) == Ok(DropProto(t)) && (Parse(text.value) == Ok(t) <==> NoProto(t))
  {
    SharedNodesPrintAsTree(h, s, Gap(width));
    UnfoldsPlain(h, s, t);
    RoundTrip(t, Gap(width));
  }

  /** A date comes back as a string that denotes its time value, an invalid one as null. */
  lemma DateComesBack(h: Heap, time: Time, width: int)
    requires WellFormed(h)
    ensures var text := Serialized(h, Date(time), Gap(width), [], []);
      && text.Ok?
      && match time
         case None => Parse(text.value) == Ok(Null)
         case Some(t) => exists s :: Parse(text.value) == Ok(Str(s)) && Denotes(s, t)
  {
    hide Parse, Denotes, Print;
    StringifyThenParse(h, Date(time), width, DateAsValue(time));
  }
}
