/**
  The batching sender behind the SockJS polling transports (`cluster/wwwroot/sockjs.js`,
  `BufferedSender`): one request or one pause at a time, everything sent meanwhile waits.
 */
module BufferedSender {
  import opened Wrappers
  import opened Texts
  import opened Json
  import opened JsonParse
  import opened JsonRoundTrip
  import Escape

  /** What calling `sendStop` would stop. */
  datatype Stop = NoStop | AbortRequest | ClearTimer

  /**
    The sender's fields, with what its environment owes it: requests whose callback has
    not run, timers that have not fired, and the payloads handed to the sender function.
   */
  datatype State = State(buffer: seq<Text>, stop: Stop, inFlight: nat, timers: nat, payloads: seq<Text>)

  const INITIAL := State([], NoStop, 0, 0, [])

  function Payload(buffer: seq<Text>): Text {
    [LBRACKET] + Join(buffer, [COMMA]) + [RBRACKET]
  }

  function Scheduled(s: State): State {
    if s.buffer == [] then s
    else State([], AbortRequest, s.inFlight + 1, s.timers, s.payloads + [Payload(s.buffer)])
  }

  function AfterSend(s: State, message: Text): State {
    var t := s.(buffer := s.buffer + [message]);
    if s.stop == NoStop then Scheduled(t) else t
  }

  function AfterSuccess(s: State): State
    requires s.inFlight > 0
  {
    s.(inFlight := s.inFlight - 1, stop := ClearTimer, timers := s.timers + 1)
  }

  /** A failed request: the buffer stays, and `close()` finds nothing to stop. */
  function AfterFailure(s: State): State
    requires s.inFlight > 0
  {
    s.(inFlight := s.inFlight - 1, stop := NoStop)
  }

  function AfterTimer(s: State): State
    requires s.timers > 0
  {
    Scheduled(s.(timers := s.timers - 1, stop := NoStop))
  }

  /**
    `close()`: aborting calls back at once, when the listeners are gone and the nested
    `close()` finds nothing to stop, and never again; a cleared timer never fires.
   */
  function AfterClose(s: State): State
    requires s.stop == AbortRequest ==> s.inFlight > 0
    requires s.stop == ClearTimer ==> s.timers > 0
  {
    match s.stop
    case NoStop => s
    case AbortRequest => s.(stop := NoStop, inFlight := s.inFlight - 1)
    case ClearTimer => s.(stop := NoStop, timers := s.timers - 1)
  }

  // ---------- the object ----------

  class Sender {
    var sendBuffer: seq<Text>
    var sendStop: Stop
    ghost var inFlight: nat
    ghost var timers: nat
    var payloads: seq<Text>
    var closeEmitted: bool

    ghost function Now(): State
      reads this
    {
      State(sendBuffer, sendStop, inFlight, timers, payloads)
    }

    constructor ()
      ensures Now() == INITIAL && !closeEmitted
    {
      sendBuffer, sendStop, inFlight, timers, payloads, closeEmitted := [], NoStop, 0, 0, [], false;
    }

    method Send(message: Text)
      modifies this
      ensures Now() == AfterSend(old(Now()), message) && closeEmitted == old(closeEmitted)
    {
      sendBuffer := sendBuffer + [message];
      if sendStop == NoStop {
        SendSchedule();
      }
    }

    method SendSchedule()
      modifies this
      ensures Now() == Scheduled(old(Now())) && closeEmitted == old(closeEmitted)
    {
      if |sendBuffer| > 0 {
        var payload := [LBRACKET] + Join(sendBuffer, [COMMA]) + [RBRACKET];
        payloads := payloads + [payload];
        inFlight := inFlight + 1;
        sendStop := AbortRequest;
        sendBuffer := [];
      }
    }

    method SendScheduleWait()
      modifies this
      ensures Now() == old(Now()).(stop := ClearTimer, timers := old(timers) + 1)
      ensures closeEmitted == old(closeEmitted)
    {
      sendStop := ClearTimer;
      timers := timers + 1;
    }

    /** The callback of the request in flight. */
    method OnCompleted(err: bool)
      requires inFlight > 0
      modifies this
      ensures !err ==> Now() == AfterSuccess(old(Now())) && closeEmitted == old(closeEmitted)
      ensures err ==> closeEmitted
      ensures err ==> Now() == AfterFailure(old(Now()))
    {
      inFlight := inFlight - 1;
      sendStop := NoStop;
      if err {
        closeEmitted := true;
        Close();
      } else {
        SendScheduleWait();
      }
    }

    /** The callback of the pause timer. */
    method OnTimer()
      requires timers > 0
      modifies this
      ensures Now() == AfterTimer(old(Now())) && closeEmitted == old(closeEmitted)
    {
      timers := timers - 1;
      sendStop := NoStop;
      SendSchedule();
    }

    method Close()
      requires sendStop == AbortRequest ==> inFlight > 0
      requires sendStop == ClearTimer ==> timers > 0
      modifies this
      ensures Now() == AfterClose(old(Now())) && closeEmitted == old(closeEmitted)
    {
      if sendStop != NoStop {
        if sendStop == AbortRequest {
          inFlight := inFlight - 1;
        } else {
          timers := timers - 1;
        }
        sendStop := NoStop;
      }
    }
  }

  // ---------- runs before close ----------

  /** `SockJS.send(data)` on an open connection, a request that succeeds or fails, a timer that fires. */
  datatype Event = Sent(data: Text) | Succeeded | Failed | Fired

  predicate Enabled(s: State, e: Event) {
    match e
    case Sent(_) => true
    case Succeeded => s.inFlight > 0
    case Failed => s.inFlight > 0
    case Fired => s.timers > 0
  }

  function Step(s: State, e: Event): State
    requires Enabled(s, e)
  {
    match e
    case Sent(data) => AfterSend(s, Escape.Quote(data))
    case Succeeded => AfterSuccess(s)
    case Failed => AfterFailure(s)
    case Fired => AfterTimer(s)
  }

  /** The state after the events, if each could happen when it did. */
  function Run(events: seq<Event>): Option<State> {
    if events == [] then Some(INITIAL)
    else
      var before := Run(events[..|events| - 1]);
      var e := events[|events| - 1];
      if before.Some? && Enabled(before.value, e) then Some(Step(before.value, e)) else None
  }

  /** The strings passed to `SockJS.send`, in order. */
  function SentStrings(events: seq<Event>): seq<Text> {
    if events == [] then []
    else
      var e := events[|events| - 1];
      SentStrings(events[..|events| - 1]) + if e.Sent? then [e.data] else []
  }

  /** At most one request or timer is awaited, and `sendStop` is set exactly then. */
  ghost predicate Scheduling(s: State) {
    && s.inFlight + s.timers <= 1
    && (s.stop == AbortRequest <==> s.inFlight == 1)
    && (s.stop == ClearTimer <==> s.timers == 1)
  }

  predicate JustFailed(events: seq<Event>) {
    events != [] && events[|events| - 1].Failed?
  }

  /** In every run a message waits for nothing only right after a failed request. */
  lemma {:induction false} NothingStalls(events: seq<Event>)
    requires Run(events).Some?
    ensures var s := Run(events).value;
      Scheduling(s) && (s.buffer != [] ==> (s.inFlight + s.timers == 1 <==> !JustFailed(events)))
    decreases |events|
  {
    if events != [] { NothingStalls(events[..|events| - 1]); }
  }

  /** All that is buffered has gone out as one array text. */
  ghost predicate AllGone(s: State, buffer: seq<Text>, u: State) {
    && u.buffer == [] && u.stop == AbortRequest && u.inFlight == 1 && u.timers == 0
    && u.payloads == s.payloads + [[91] + Join(buffer, [44]) + [93]]
  }

  /** What each event does: when nothing is outstanding the whole buffer goes out, and else nothing does. */
  lemma EventMeans(s: State, e: Event)
    requires Scheduling(s) && Enabled(s, e)
    ensures var u := Step(s, e);
      match e
      case Sent(data) =>
        var buffer := s.buffer + [Escape.Quote(data)];
        if s.stop == NoStop then AllGone(s, buffer, u) else u == s.(buffer := buffer)
      case Fired =>
        if s.buffer != [] then AllGone(s, s.buffer, u) else u == State([], NoStop, 0, 0, s.payloads)
      case Succeeded => u == State(s.buffer, ClearTimer, 0, 1, s.payloads)
      case Failed => u == State(s.buffer, NoStop, 0, 0, s.payloads)
  {
    hide Escape.Quote;
  }

  /** A request can end exactly while it is out, the pause while it lasts, and the user can always send. */
  lemma CanHappen(events: seq<Event>, data: Text)
    requires Run(events).Some?
    ensures var s := Run(events).value;
      && Enabled(s, Sent(data)) && (Enabled(s, Fired) <==> s.stop == ClearTimer)
      && (Enabled(s, Succeeded) <==> s.stop == AbortRequest) && (Enabled(s, Failed) <==> s.stop == AbortRequest)
  {
    NothingStalls(events);
  }

  /** Closing leaves nothing outstanding and the buffer and the payloads as they are. */
  lemma CloseStopsEverything(events: seq<Event>)
    requires Run(events).Some?
    ensures var s := Run(events).value;
      && (s.stop == AbortRequest ==> s.inFlight > 0) && (s.stop == ClearTimer ==> s.timers > 0)
      && AfterClose(s) == State(s.buffer, NoStop, 0, 0, s.payloads)
  {
    NothingStalls(events);
  }

  // ---------- what arrives ----------

  function Strings(data: seq<Text>): seq<Value> {
    seq(|data|, i requires 0 <= i < |data| => Str(data[i]))
  }

  function Quotes(data: seq<Text>): seq<Text> {
    seq(|data|, i requires 0 <= i < |data| => Escape.Quote(data[i]))
  }

  /** The arrays that the payloads parse to, concatenated; None when one is no array. */
  function Received(payloads: seq<Text>): Option<seq<Value>> {
    if payloads == [] then Some([])
    else
      var before := Received(payloads[..|payloads| - 1]);
      var last := Parse(payloads[|payloads| - 1]);
      if before.Some? && last.Ok? && last.value.Arr? then Some(before.value + last.value.items) else None
  }

  /** A batch of quoted strings travels as the JSON array of the strings. */
  lemma PayloadParses(data: seq<Text>)
    requires data != []
    ensures Parse(Payload(Quotes(data))) == Ok(Arr(Strings(data)))
  {
    var parts := Quotes(data);
    forall k | 0 <= k < |parts| ensures Parses(parts[k], Strings(data)[k]) { Escape.QuoteParses(data[k]); }
    ArrayParses(parts, Strings(data), [], []);
    assert [COMMA] + [] == [COMMA];
    assert Payload(parts) == Bracketed(LBRACKET, parts, [], [], RBRACKET);
    ParseOf(Payload(parts), Arr(Strings(data)));
  }

  lemma {:induction false} JoinIsClean(parts: seq<Text>)
    requires forall k :: 0 <= k < |parts| ==> Escape.Clean(parts[k])
    ensures Escape.Clean(Join(parts, [COMMA]))
    decreases |parts|
  {
    Escape.PrintableIsNotExtra(COMMA);
    if |parts| > 1 { JoinIsClean(parts[1..]); }
  }

  lemma PayloadIsClean(data: seq<Text>)
    ensures Escape.Clean(Payload(Quotes(data))) && LF !in Payload(Quotes(data))
  {
    var parts := Quotes(data);
    forall k | 0 <= k < |parts| ensures Escape.Clean(parts[k]) { Escape.EscapedIsClean(Quoted(data[k])); }
    JoinIsClean(parts);
    Escape.PrintableIsNotExtra(LBRACKET);
    Escape.PrintableIsNotExtra(RBRACKET);
    Escape.ControlIsExtra(LF);
  }

  lemma QuotesSnoc(data: seq<Text>, d: Text)
    ensures Quotes(data + [d]) == Quotes(data) + [Escape.Quote(d)]
    ensures Strings(data + [d]) == Strings(data) + [Str(d)]
  {
  }

  /** Handing out a buffer moves its strings from waiting to received. */
  lemma HandOut(payloads: seq<Text>, data: seq<Text>, received: seq<Value>)
    requires data != [] && Received(payloads) == Some(received)
    ensures Received(payloads + [Payload(Quotes(data))]) == Some(received + Strings(data))
  {
    PayloadParses(data);
    assert (payloads + [Payload(Quotes(data))])[..|payloads|] == payloads;
  }

  /** After every run the payloads hold the first strings sent and the buffer the rest. */
  lemma {:induction false} Split(events: seq<Event>) returns (pending: seq<Text>)
    requires Run(events).Some?
    ensures var s := Run(events).value;
      && s.buffer == Quotes(pending)
      && Received(s.payloads).Some?
      && Received(s.payloads).value + Strings(pending) == Strings(SentStrings(events))
      && forall p <- s.payloads :: Escape.Clean(p) && LF !in p
    decreases |events|
  {
    hide Received, Payload;
    if events == [] {
      pending := [];
      assert Received([]) == Some([]) by { ReceivedNothing(); }
    } else {
      var before := Run(events[..|events| - 1]).value;
      var e := events[|events| - 1];
      pending := Split(events[..|events| - 1]);
      if e.Sent? {
        var all := SentStrings(events[..|events| - 1]);
        QuotesSnoc(pending, e.data);
        QuotesSnoc(all, e.data);
        assert Received(before.payloads).value + Strings(pending + [e.data]) == Strings(all) + [Str(e.data)];
        pending := pending + [e.data];
      }
      assert SentStrings(events) == SentStrings(events[..|events| - 1]) + if e.Sent? then [e.data] else [];
      if pending != [] && Run(events).value.buffer == [] {
        HandOut(before.payloads, pending, Received(before.payloads).value);
        PayloadIsClean(pending);
        pending := [];
      }
    }
  }

  lemma ReceivedNothing()
    ensures Received([]) == Some([])
  {
  }

  /** The value a text parses to; Null when it does not parse. */
  function Parsed(text: Text): Value {
    if Parse(text).Ok? then Parse(text).value else Null
  }

  /** What the buffered texts parse to. */
  function Waiting(buffer: seq<Text>): seq<Value> {
    seq(|buffer|, i requires 0 <= i < |buffer| => Parsed(buffer[i]))
  }

  /**
    For every interleaving of sends, completions and timers: parsing what was handed out,
    and then what still waits, gives exactly the strings sent, in order, and nothing
    handed out holds a unit that a browser could change or a line feed.
   */
  lemma DeliveredInOrder(events: seq<Event>)
    requires Run(events).Some?
    ensures var s := Run(events).value;
      && Received(s.payloads).Some?
      && Received(s.payloads).value + Waiting(s.buffer) == Strings(SentStrings(events))
      && forall p <- s.payloads :: Escape.Clean(p) && LF !in p
  {
    var pending := Split(events);
    var s := Run(events).value;
    forall i | 0 <= i < |s.buffer| ensures Parsed(s.buffer[i]) == Str(pending[i]) {
      Escape.QuoteParses(pending[i]);
      ParseOf(Escape.Quote(pending[i]), Str(pending[i]));
    }
    assert Waiting(s.buffer) == Strings(pending);
  }

  // ---------- what a failed request loses ----------

  /** What became of a payload. */
  datatype Fate = Pending | Delivered | Lost

  function Settled(fates: seq<Fate>, fate: Fate): seq<Fate> {
    if fates == [] then [] else fates[..|fates| - 1] + [fate]
  }

  /** The fates after one more event; a callback speaks of the last payload handed out. */
  function NextFates(fates: seq<Fate>, e: Event, before: State, after: State): seq<Fate> {
    var settled := match e
      case Succeeded => Settled(fates, Delivered)
      case Failed => Settled(fates, Lost)
      case _ => fates;
    if |after.payloads| > |before.payloads| then settled + [Pending] else settled
  }

  function Fates(events: seq<Event>): seq<Fate>
    requires Run(events).Some?
  {
    if events == [] then []
    else
      var init := events[..|events| - 1];
      NextFates(Fates(init), events[|events| - 1], Run(init).value, Run(events).value)
  }

  /** Each payload has its fate, and only the last one can be pending: while its request is in flight. */
  ghost predicate FatesOk(fates: seq<Fate>, s: State) {
    && |fates| == |s.payloads|
    && (s.inFlight == 1 ==> |fates| > 0)
    && forall k :: 0 <= k < |fates| ==> (fates[k] == Pending <==> s.inFlight == 1 && k == |fates| - 1)
  }

  lemma FatesStep(fates: seq<Fate>, s: State, e: Event)
    requires FatesOk(fates, s) && Scheduling(s) && Enabled(s, e)
    ensures FatesOk(NextFates(fates, e, s, Step(s, e)), Step(s, e))
  {
    hide Payload;
  }

  lemma {:induction false} FatesInEveryRun(events: seq<Event>)
    requires Run(events).Some?
    ensures FatesOk(Fates(events), Run(events).value)
    decreases |events|
  {
    if events != [] {
      var init := events[..|events| - 1];
      NothingStalls(init);
      FatesInEveryRun(init);
      hide Step;
      FatesStep(Fates(init), Run(init).value, events[|events| - 1]);
    }
  }

  lemma {:induction false} NothingLostYet(events: seq<Event>)
    requires Run(events).Some? && forall k :: 0 <= k < |events| ==> !events[k].Failed?
    ensures forall k :: 0 <= k < |Fates(events)| ==> Fates(events)[k] != Lost
    decreases |events|
  {
    if events != [] { NothingLostYet(events[..|events| - 1]); }
  }

  lemma FatesOfFailure(events: seq<Event>)
    requires Run(events + [Failed]).Some? && forall k :: 0 <= k < |events| ==> !events[k].Failed?
    ensures var s, fates := Run(events + [Failed]).value, Fates(events + [Failed]);
      && |fates| == |s.payloads| > 0 && fates[|fates| - 1] == Lost
      && (forall k :: 0 <= k < |fates| - 1 ==> fates[k] == Delivered)
  {
    assert (events + [Failed])[..|events|] == events;
    NothingStalls(events);
    FatesInEveryRun(events);
    NothingLostYet(events);
    hide Received, Scheduled;
    var f := Fates(events);
    assert Fates(events + [Failed]) == f[..|f| - 1] + [Lost];
  }

  lemma LastReceived(payloads: seq<Text>) returns (last: seq<Value>)
    requires payloads != [] && Received(payloads).Some?
    ensures Parse(payloads[|payloads| - 1]) == Ok(Arr(last))
    ensures Received(payloads[..|payloads| - 1]).Some?
    ensures Received(payloads).value == Received(payloads[..|payloads| - 1]).value + last
  {
    hide Parse;
    last := Parse(payloads[|payloads| - 1]).value.items;
  }

  /**
    The first failed request loses exactly the strings of the last payload: those before it
    arrived, in order, and those after it are still buffered.
   */
  lemma FailureLosesOneBatch(events: seq<Event>) returns (lost: seq<Value>)
    requires Run(events + [Failed]).Some? && forall k :: 0 <= k < |events| ==> !events[k].Failed?
    ensures var s, fates := Run(events + [Failed]).value, Fates(events + [Failed]);
      && |fates| == |s.payloads| > 0 && fates[|fates| - 1] == Lost
      && (forall k :: 0 <= k < |fates| - 1 ==> fates[k] == Delivered)
      && Parse(s.payloads[|s.payloads| - 1]) == Ok(Arr(lost))
      && Received(s.payloads[..|s.payloads| - 1]).Some?
      && Received(s.payloads[..|s.payloads| - 1]).value + lost + Waiting(s.buffer) == Strings(SentStrings(events))
  {
    var all := events + [Failed];
    assert SentStrings(all) == SentStrings(events) by { assert all[..|events|] == events; }
    hide Parse, Received, Waiting, Run, Fates;
    FatesOfFailure(events);
    DeliveredInOrder(all);
    lost := LastReceived(Run(all).value.payloads);
  }
}
