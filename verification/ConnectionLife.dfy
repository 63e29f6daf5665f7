/**
  The life of a SockJS connection: how it opens, tries its transports, sends and closes, and
  what of it reaches the iframes.
 */
module ConnectionLife {
  import opened Wrappers
  import opened Texts
  import opened Json
  import opened JsonParse
  import opened JsonRoundTrip
  import opened JsonGrammar
  import opened JsonDenotes
  import opened Iframe
  import opened IframeSafety
  import Escape

  // ---------- frames ----------

  /** An open frame begins with `o`; a close frame is `c` and JSON text for an array of two values. */
  lemma FrameTypes(message: Text)
    ensures FrameOf(message) == OpenFrame <==> message != [] && message[0] == 'o' as int
    ensures FrameOf(message) == CloseFrame <==>
      message != [] && message[0] == 'c' as int && exists v, w :: Denotes(message[1..], Arr([v, w]))
  {
    hide Parse, Denotes;
    if message != [] {
      var content := message[1..];
      if Parse(content).Ok? {
        var p := Parse(content).value;
        ParsesExactlyWhatItDenotes(content, p);
        if IsPair(Parse(content)) { assert p == Arr([p.items[0], p.items[1]]); }
      }
      forall v, w | Denotes(content, Arr([v, w])) ensures IsPair(Parse(content)) && |content| > 0 {
        ParsesExactlyWhatItDenotes(content, Arr([v, w]));
        NotEmpty(content);
      }
    }
  }

  /** The text after `a` denotes the array of the messages, the text after `m` the message; others bring none. */
  lemma MessagesMean(message: Text)
    ensures Messages(message) != [] ==> message[0] == 'a' as int || message[0] == 'm' as int
    ensures message != [] && message[0] == 'a' as int ==>
      forall items :: Denotes(message[1..], Arr(items)) ==> Messages(message) == items
    ensures message != [] && message[0] == 'a' as int && Messages(message) != [] ==>
      Denotes(message[1..], Arr(Messages(message)))
    ensures message != [] && message[0] == 'm' as int ==>
      forall v :: Denotes(message[1..], v) <==> Messages(message) == [v]
  {
    hide Parse, Denotes;
    if message != [] {
      var content := message[1..];
      NotEmpty(content);
      forall v ensures Parse(content) == Ok(v) <==> Denotes(content, v) { ParsesExactlyWhatItDenotes(content, v); }
    }
  }

  lemma NotEmpty(content: Text)
    ensures Parse(content).Ok? ==> content != []
  {
  }

  // ---------- the ready state ----------

  function Rank(ready: ReadyState): nat {
    match ready
    case Connecting => 0
    case Open => 1
    case Closing => 2
    case Closed => 3
  }

  lemma SocketAdvances(s: System, code: int, choice: Choice)
    requires Indexed(s)
    ensures Rank(ClosedSocket(s).ready) >= Rank(s.ready) && Rank(Connected(s, choice).ready) >= Rank(s.ready)
    ensures Rank(TransportClosed(s, code, choice).ready) >= Rank(s.ready)
    ensures forall f :: Rank(Received(s, f).ready) >= Rank(s.ready)
  {
    hide ClosedTransport, Detached;
  }

  lemma PageHandledAdvances(s: System, i: nat, choice: Choice)
    requires Indexed(s) && IsFramed(s, i) && s.transports[i].link.outbox != []
    ensures Rank(PageHandled(s, i, choice).ready) >= Rank(s.ready)
  {
    var l := s.transports[i].link;
    var t := LinkSet(s, i, l.(outbox := l.outbox[1..]));
    forall code: int ensures Rank(TransportClosed(t, code, choice).ready) >= Rank(t.ready) {
      SocketAdvances(t, code, choice);
    }
    SocketAdvances(t, 0, choice);
    hide TransportClosed, Received, ClosedTransport, Posted;
  }

  /** The ready state only moves on, from connecting over open and closing to closed. */
  lemma ReadyOnlyAdvances(s: System, step: Step)
    requires Indexed(s) && Enabled(false, s, step)
    ensures Rank(Next(s, step).ready) >= Rank(s.ready)
  {
    hide ClosedSocket, Connected, TransportClosed, Received, PageHandled, ClosedTransport, SentOn, TimerRun, Handled;
    match step {
      case Inform(_, choice) => SocketAdvances(s.(asking := false), 0, choice);
      case Timeout(i, choice) => SocketAdvances(s.(alarms := s.alarms - {i}), 2007, choice);
      case Load(choice) => SocketAdvances(s.(loads := s.loads - 1, loaded := true), 0, choice);
      case UserClose => SocketAdvances(s, 0, Exhausted);
      case DirectFrame(_, f) => SocketAdvances(s, 0, Exhausted);
      case DirectClose(_, code, choice) => SocketAdvances(s, code, choice);
      case LoadError(i, choice) => SocketAdvances(LinkSet(s, i, CleanedUp(s.transports[i].link)), 1006, choice);
      case PageHandles(i, choice) => PageHandledAdvances(s, i, choice);
      case _ =>
    }
  }

  // ---------- one close event ----------

  /** How often the close event has been dispatched. */
  function Finishes(steps: seq<Step>): nat {
    if steps == [] then 0 else Finishes(steps[..|steps| - 1]) + if steps[|steps| - 1].Finish? then 1 else 0
  }

  /**
    A connection on a ready page is asking or uses one transport, to which alone it listens, until it
    closes; then it has let go of it, and one close event is due or has been dispatched.
   */
  ghost predicate Lives(s: System, finished: nat) {
    && Indexed(s) && s.loads == 0
    && finished + s.closings == (if s.ready == Closing || s.ready == Closed then 1 else 0)
    && (s.ready == Closed <==> finished == 1)
    && (s.ready == Closing || s.ready == Closed ==> s.current == None && !s.asking)
    && (s.ready == Connecting ==> (s.asking <==> s.current == None))
    && (s.ready == Open ==> s.current.Some? && !s.asking)
    && (s.asking ==> s.alarms == {})
    && forall i: nat :: i < |s.transports| ==> (s.transports[i].attached <==> s.current == Some(i))
  }

  lemma CloseLives(s: System, finished: nat)
    requires Lives(s, finished) && s.ready != Closing && s.ready != Closed
    ensures Lives(ClosedSocket(s), finished) && ClosedSocket(s).ready == Closing
  {
    hide ClosedTransport;
    if s.current.Some? { ClosedIsDetached(s.transports[s.current.value]); }
  }

  /** Letting go of a transport, and trying the next one. */
  lemma RetryLives(s: System, code: int, choice: Choice)
    requires Lives(s, 0) && (s.ready == Connecting || s.ready == Open) && !s.asking && !choice.Postponed?
    ensures Lives(TransportClosed(s, code, choice), 0)
    ensures var c := TransportClosed(s, code, choice).current; c.Some? ==> c.value >= |s.transports|
    ensures forall i: nat :: i < |s.transports| ==> !TransportClosed(s, code, choice).transports[i].attached
  {
  }

  lemma ConnectLives(s: System, choice: Choice)
    requires Lives(s, 0) && s.ready == Connecting && s.asking && !choice.Postponed?
    ensures Lives(Connected(s.(asking := false), choice), 0)
  {
  }

  lemma ReceiveLives(s: System, f: Frame)
    requires Lives(s, 0) && (s.ready == Connecting || s.ready == Open) && s.current.Some?
    ensures Lives(Received(s, f), 0)
  {
    CloseLives(s, 0);
    hide ClosedSocket;
  }

  lemma EmitCloseLives(s: System, i: nat, code: int, choice: Choice, finished: nat)
    requires Lives(s, finished) && i < |s.transports| && !choice.Postponed?
    ensures Lives(EmitClose(s, i, code, choice), finished)
  {
    hide TransportClosed, ClosedTransport;
    if s.transports[i].attached {
      RetryLives(s, code, choice);
      ClosedIsDetached(TransportClosed(s, code, choice).transports[i]);
    } else {
      ClosedIsDetached(s.transports[i]);
    }
  }

  lemma LinkSetLives(s: System, i: nat, l: Link, finished: nat)
    requires Lives(s, finished) && IsFramed(s, i)
    ensures Lives(LinkSet(s, i, l), finished)
  {
  }

  lemma PageHandledLives(s: System, i: nat, choice: Choice, finished: nat)
    requires Lives(s, finished) && IsFramed(s, i) && s.transports[i].link.outbox != [] && !choice.Postponed?
    ensures Lives(PageHandled(s, i, choice), finished)
  {
    var l := s.transports[i].link;
    var rest := l.(outbox := l.outbox[1..]);
    LinkSetLives(s, i, rest, finished);
    LinkSetLives(s, i, Posted(rest.(watching := false), Start), finished);
    hide Received, EmitClose, Posted;
    match l.outbox[0] {
      case Loaded =>
      case Forward(f) => if s.transports[i].attached { ReceiveLives(LinkSet(s, i, rest), f); }
      case Gone(code) => EmitCloseLives(LinkSet(s, i, rest), i, code, choice, finished);
    }
  }

  lemma StepLives(s: System, step: Step, finished: nat)
    requires Lives(s, finished) && Enabled(true, s, step)
    ensures Enabled(false, s, step) && Lives(Next(s, step), finished + if step.Finish? then 1 else 0)
  {
    EnabledAnyway(true, s, step);
    hide ClosedSocket, Connected, TransportClosed, Received, PageHandled, EmitClose, SentOn, TimerRun, Handled, LinkSet;
    match step {
      case Inform(ok, choice) => if ok { ConnectLives(s, choice); } else { AskingCloses(s); }
      case Timeout(i, choice) => TimeoutLives(s, i, choice, finished);
      case Load(choice) =>
      case UserSend(data) =>
      case UserClose => if s.ready == Connecting || s.ready == Open { CloseLives(s, finished); }
      case Finish =>
      case DirectFrame(_, f) => ReceiveLives(s, f);
      case DirectClose(i, code, choice) => EmitCloseLives(s, i, code, choice, finished);
      case LoadError(i, choice) =>
        LinkSetLives(s, i, CleanedUp(s.transports[i].link), finished);
        EmitCloseLives(LinkSet(s, i, CleanedUp(s.transports[i].link)), i, 1006, choice, finished);
      case PageHandles(i, choice) => PageHandledLives(s, i, choice, finished);
      case RunTimer(i) => LinkSetLives(s, i, TimerRun(s.transports[i].link), finished);
      case Boot(i) => LinkSetLives(s, i, Booted(s.transports[i].link), finished);
      case FrameHandles(i) => LinkSetLives(s, i, Handled(s.transports[i].link), finished);
      case FacadeFrame(i, f) => LinkSetLives(s, i, Replied(s.transports[i].link, Forward(f)), finished);
      case FacadeClose(i, code) => LinkSetLives(s, i, Replied(s.transports[i].link, Gone(code)), finished);
    }
  }

  lemma AskingCloses(s: System)
    requires Lives(s, 0) && s.ready == Connecting && s.asking
    ensures Lives(ClosedSocket(s.(asking := false)), 0)
  {
  }

  lemma TimeoutLives(s: System, i: nat, choice: Choice, finished: nat)
    requires Lives(s, finished) && i in s.alarms && !choice.Postponed?
    ensures Lives(Next(s, Timeout(i, choice)), finished)
  {
    if s.ready == Connecting { RetryLives(s.(alarms := s.alarms - {i}), 2007, choice); }
    hide TransportClosed;
  }

  /**
    On a page that is ready, in every run: the connection is connecting or open and uses one transport,
    or it has let go of all of them, and is closing with one close event due or closed for good after one.
   */
  lemma {:induction false} ClosesOnce(steps: seq<Step>)
    requires After(true, steps).Some?
    ensures Lives(After(true, steps).value, Finishes(steps)) && Finishes(steps) <= 1
    decreases |steps|
  {
    hide Next, Enabled;
    if steps != [] {
      var init, step := steps[..|steps| - 1], steps[|steps| - 1];
      ClosesOnce(init);
      StepLives(After(true, init).value, step, Finishes(init));
    }
  }

  /** The user can send and close at any time, and the close event can come exactly when it is due. */
  lemma AlwaysPossible(bodyReady: bool, s: System, data: Text)
    ensures Enabled(bodyReady, s, UserSend(data)) && Enabled(bodyReady, s, UserClose)
    ensures Enabled(bodyReady, s, Finish) <==> s.closings >= 1
    ensures Enabled(bodyReady, s, Finish) && Indexed(s) ==>
      Next(s, Finish) == s.(ready := Closed, closings := s.closings - 1)
  {
  }

  /** A close by the user counts while connecting and open, and does nothing afterwards. */
  lemma UserCloseMeans(s: System, finished: nat)
    requires Lives(s, finished)
    ensures var u := Next(s, UserClose);
      if s.ready == Connecting || s.ready == Open then Ended(s, u) else u == s
  {
    if s.ready == Connecting || s.ready == Open { CloseLives(s, finished); }
    hide ClosedTransport;
  }

  // ---------- opening and trying transports ----------

  /** Frame `f` reaches a connection that listens to its current transport. */
  predicate Arrives(s: System, step: Step, f: Frame) {
    match step
    case DirectFrame(i, g) => g == f && s.current == Some(i)
    case PageHandles(i, _) =>
      IsFramed(s, i) && s.transports[i].attached && s.transports[i].link.present && s.transports[i].link.outbox != []
      && s.transports[i].link.outbox[0] == Forward(f)
    case _ => false
  }

  /** The connection is open, with the transport it had, and its last timeout is stopped. */
  ghost predicate JustOpened(s: System, u: System) {
    && u.ready == Open && u.current == s.current && u.closings == s.closings && u.alarm == None
    && u.alarms == if s.alarm.Some? then s.alarms - {s.alarm.value} else s.alarms
  }

  lemma SocketDoesNotOpen(s: System, code: int, choice: Choice)
    requires Indexed(s) && s.ready != Open
    ensures ClosedSocket(s).ready != Open && Connected(s, choice).ready != Open
    ensures TransportClosed(s, code, choice).ready != Open
    ensures forall f :: Received(s, f).ready == Open <==> f == OpenFrame && s.ready == Connecting && s.current.Some?
    ensures s.ready == Connecting && s.current.Some? ==> JustOpened(s, Received(s, OpenFrame))
  {
    hide ClosedTransport, Detached;
  }

  lemma PageHandledOpens(s: System, i: nat, choice: Choice)
    requires Indexed(s) && IsFramed(s, i) && s.transports[i].link.outbox != [] && s.ready != Open
    requires s.transports[i].attached ==> s.current == Some(i)
    ensures var u := PageHandled(s, i, choice);
      (u.ready == Open <==> s.ready == Connecting && Arrives(s, PageHandles(i, choice), OpenFrame))
      && (u.ready == Open ==> JustOpened(s, u))
  {
    hide Received, EmitClose, Posted, LinkSet, JustOpened;
    var l := s.transports[i].link;
    var rest := l.(outbox := l.outbox[1..]);
    LinkSetFields(s, i, rest);
    LinkSetFields(s, i, Posted(rest.(watching := false), Start));
    match l.outbox[0] {
      case Loaded =>
      case Forward(f) => ForwardOpens(s, LinkSet(s, i, rest), f);
      case Gone(code) => EmitCloseDoesNotOpen(LinkSet(s, i, rest), i, code, choice);
    }
  }

  /** The frame that arrives, once it is taken from the iframe's messages. */
  lemma ForwardOpens(s: System, t: System, f: Frame)
    requires Indexed(t) && t == s.(transports := t.transports) && s.ready != Open
    ensures Received(t, f).ready == Open <==> f == OpenFrame && s.ready == Connecting && s.current.Some?
    ensures Received(t, f).ready == Open ==> JustOpened(s, Received(t, f))
  {
    SocketDoesNotOpen(t, 0, Exhausted);
    SameOpened(s, t, Received(t, f));
    hide Received;
  }

  lemma LinkSetFields(s: System, i: nat, l: Link)
    requires IsFramed(s, i)
    ensures LinkSet(s, i, l) == s.(transports := LinkSet(s, i, l).transports)
    ensures |LinkSet(s, i, l).transports| == |s.transports|
    ensures LinkSet(s, i, l).transports[i] == s.transports[i].(link := l)
  {
  }

  lemma SameOpened(s: System, t: System, u: System)
    requires t == s.(transports := t.transports)
    ensures JustOpened(t, u) <==> JustOpened(s, u)
  {
  }

  lemma EmitCloseDoesNotOpen(s: System, i: nat, code: int, choice: Choice)
    requires Indexed(s) && i < |s.transports| && s.ready != Open
    ensures EmitClose(s, i, code, choice).ready != Open
  {
    hide TransportClosed, ClosedTransport;
    SocketDoesNotOpen(s, code, choice);
  }

  /** The first open frame opens the connection and stops the timeout that was set last; nothing else opens it. */
  lemma OpensExactlyWhen(s: System, step: Step)
    requires Indexed(s) && Enabled(false, s, step) && s.ready != Open
    requires forall i: nat :: i < |s.transports| && s.transports[i].attached ==> s.current == Some(i)
    ensures Next(s, step).ready == Open <==> s.ready == Connecting && Arrives(s, step, OpenFrame)
    ensures Next(s, step).ready == Open ==> JustOpened(s, Next(s, step))
  {
    hide ClosedSocket, Connected, TransportClosed, Received, PageHandled, ClosedTransport, SentOn, TimerRun, Handled;
    match step {
      case Inform(_, choice) => SocketDoesNotOpen(s.(asking := false), 0, choice);
      case Timeout(i, choice) => SocketDoesNotOpen(s.(alarms := s.alarms - {i}), 2007, choice);
      case Load(choice) => SocketDoesNotOpen(s.(loads := s.loads - 1, loaded := true), 0, choice);
      case UserClose => SocketDoesNotOpen(s, 0, Exhausted);
      case DirectFrame(_, f) => SocketDoesNotOpen(s, 0, Exhausted);
      case DirectClose(_, code, choice) => SocketDoesNotOpen(s, code, choice);
      case LoadError(i, choice) => SocketDoesNotOpen(LinkSet(s, i, CleanedUp(s.transports[i].link)), 1006, choice);
      case PageHandles(i, choice) => PageHandledOpens(s, i, choice);
      case _ =>
    }
  }

  /** What a new transport is: an iframe freshly inserted, or one without. */
  ghost predicate Fresh(t: Transport, choice: Choice) {
    && t.attached
    && match choice
       case DirectTransport => t.Direct?
       case IframeTransport(compatible) =>
         && t.Framed? && t.link.compatible == compatible && t.link.present && t.link.watching && !t.link.removed
         && !t.link.booted && t.link.facade == NotYet
         && t.link.timers == [] && t.link.inbox == [] && t.link.outbox == []
         && t.link.accepted == [] && t.link.given == []
       case _ => false
  }

  /** The connection has gone on to a new transport, with a timeout of its own, and listens to no other. */
  ghost predicate Moved(s: System, u: System, choice: Choice) {
    var n := |s.transports|;
    && |u.transports| == n + 1 && Fresh(u.transports[n], choice) && u.current == Some(n)
    && n in u.alarms && u.alarm == Some(n) && u.ready == s.ready && u.closings == s.closings && u.loads == s.loads
    && forall i: nat :: i < n ==> !u.transports[i].attached
  }

  /** The connection has closed: the close event is due, and it listens to no transport. */
  ghost predicate Ended(s: System, u: System) {
    && u.ready == Closing && u.closings == s.closings + 1 && u.current == None && !u.asking
    && |u.transports| == |s.transports| && forall i: nat :: i < |u.transports| ==> !u.transports[i].attached
  }

  /** A failing transport is replaced while connecting, unless its code is one a user could set, or 2000. */
  predicate Retries(s: System, code: int) {
    s.ready == Connecting && code != 1000 && !(3000 <= code <= 4999) && code != 2000
  }

  /** After the current transport fails, with a code, in time or not. */
  lemma FailureMeans(s: System, code: int, choice: Choice)
    requires Lives(s, 0) && (s.ready == Connecting || s.ready == Open) && !s.asking
    ensures var u := TransportClosed(s, code, choice);
      if !Retries(s, code) || choice.Exhausted? then Ended(s, u)
      else if choice.Postponed? then u.loads == 1 && u.current == None && u.ready == Connecting && u.closings == 0
      else Moved(s, u, choice)
  {
  }

  /** A timeout counts as a failure while connecting, and changes nothing afterwards. */
  lemma TimeoutMeans(s: System, i: nat, choice: Choice)
    requires Lives(s, 0) && i in s.alarms && !choice.Postponed?
    ensures var t, u := s.(alarms := s.alarms - {i}), Next(s, Timeout(i, choice));
      if s.ready != Connecting then u == t else if choice.Exhausted? then Ended(t, u) else Moved(t, u, choice)
  {
    hide TransportClosed;
    if s.ready == Connecting { FailureMeans(s.(alarms := s.alarms - {i}), 2007, choice); }
  }

  /** The answer to the info request: the first transport, or the end. */
  lemma InfoMeans(s: System, ok: bool, choice: Choice)
    requires Lives(s, 0) && s.asking && s.ready == Connecting && !choice.Postponed?
    ensures var u := Next(s, Inform(ok, choice));
      if !ok || choice.Exhausted? then Ended(s, u) else Moved(s, u, choice) && !u.asking
  {
  }

  // ---------- sending ----------

  /** A message sent while open goes to the iframe in use, quoted, behind all that was posted to it before. */
  lemma SendMeans(s: System, data: Text, i: nat)
    requires Indexed(s) && s.ready == Open && s.current == Some(i) && IsFramed(s, i)
    ensures var u := Next(s, UserSend(data));
      && IsFramed(u, i) && u.transports[i].attached == s.transports[i].attached
      && u.transports[i].link == s.transports[i].link.(
           timers := s.transports[i].link.timers + [Post(Send(Escape.Quote(data)))],
           accepted := s.transports[i].link.accepted + [Escape.Quote(data)])
      && u == s.(transports := s.transports[i := u.transports[i]])
  {
    hide Escape.Quote;
  }

  /** What the user has sent while transport `i` was in use. */
  ghost function SentOver(bodyReady: bool, steps: seq<Step>, i: nat): seq<Text> {
    if steps == [] then []
    else
      var init, step := steps[..|steps| - 1], steps[|steps| - 1];
      var s := After(bodyReady, init);
      SentOver(bodyReady, init, i)
      + if step.UserSend? && s.Some? && s.value.ready == Open && s.value.current == Some(i) then [step.data] else []
  }

  function AllQuoted(texts: seq<Text>): (r: seq<Text>)
    ensures |r| == |texts| && forall k :: 0 <= k < |r| ==> r[k] == Escape.Quote(texts[k])
  {
    if texts == [] then [] else AllQuoted(texts[..|texts| - 1]) + [Escape.Quote(texts[|texts| - 1])]
  }

  /** The transports that are there take over what they had accepted; new ones have accepted nothing. */
  ghost predicate KeepsAccepted(s: System, u: System) {
    && |s.transports| <= |u.transports|
    && (forall i: nat :: IsFramed(u, i) ==>
          if i < |s.transports| then IsFramed(s, i) && u.transports[i].link.accepted == s.transports[i].link.accepted
          else u.transports[i].link.accepted == [])
  }

  lemma SocketKeepsAccepted(s: System, code: int, choice: Choice)
    requires Indexed(s)
    ensures KeepsAccepted(s, ClosedSocket(s)) && KeepsAccepted(s, Connected(s, choice))
    ensures KeepsAccepted(s, TransportClosed(s, code, choice)) && forall f :: KeepsAccepted(s, Received(s, f))
  {
    LetGoKeepsAccepted(s);
    ClosedSocketKeepsAccepted(s);
    ClosedSocketKeepsAccepted(LetGo(s));
    AddedKeepsAccepted(s, choice);
    AddedKeepsAccepted(LetGo(s), choice);
    hide ClosedSocket, Connected, LetGo, KeepsAccepted;
    AcceptedTwice(s, LetGo(s), ClosedSocket(LetGo(s)));
    AcceptedTwice(s, LetGo(s), Connected(LetGo(s), choice));
    forall f ensures KeepsAccepted(s, Received(s, f)) { SameTransports(s, Received(s, f)); }
  }

  lemma LetGoKeepsAccepted(s: System)
    requires Indexed(s)
    ensures KeepsAccepted(s, LetGo(s))
  {
  }

  lemma AddedKeepsAccepted(s: System, choice: Choice)
    requires Indexed(s)
    ensures KeepsAccepted(s, Connected(s, choice))
  {
    ClosedSocketKeepsAccepted(s);
    hide ClosedSocket;
  }

  lemma SameTransports(s: System, u: System)
    ensures s.transports == u.transports ==> KeepsAccepted(s, u)
  {
  }

  lemma ClosedSocketKeepsAccepted(s: System)
    requires Indexed(s)
    ensures KeepsAccepted(s, ClosedSocket(s))
  {
  }

  lemma EmitCloseKeepsAccepted(s: System, i: nat, code: int, choice: Choice)
    requires Indexed(s) && i < |s.transports|
    ensures KeepsAccepted(s, EmitClose(s, i, code, choice))
  {
    hide TransportClosed, KeepsAccepted, ClosedTransport;
    SocketKeepsAccepted(s, code, choice);
    var told := if s.transports[i].attached then TransportClosed(s, code, choice) else s;
    SameAccepted(s);
    ClosedOneKeepsAccepted(told, i) by { StillThere(s, told, i); }
    AcceptedTwice(s, told, TransportSet(told, i, ClosedTransport(told.transports[i]))) by { StillThere(s, told, i); }
  }

  lemma SameAccepted(s: System)
    ensures KeepsAccepted(s, s)
  {
  }

  lemma StillThere(s: System, u: System, i: nat)
    requires KeepsAccepted(s, u) && i < |s.transports|
    ensures i < |u.transports|
  {
  }

  lemma ClosedOneKeepsAccepted(s: System, i: nat)
    requires i < |s.transports|
    ensures KeepsAccepted(s, TransportSet(s, i, ClosedTransport(s.transports[i])))
  {
  }

  lemma LinkSetKeepsAccepted(s: System, i: nat, l: Link)
    requires IsFramed(s, i) && l.accepted == s.transports[i].link.accepted
    ensures KeepsAccepted(s, LinkSet(s, i, l))
  {
  }

  lemma AcceptedTwice(s: System, t: System, u: System)
    requires KeepsAccepted(s, t) && KeepsAccepted(t, u)
    ensures KeepsAccepted(s, u)
  {
  }

  lemma PageHandledKeepsAccepted(s: System, i: nat, choice: Choice)
    requires Indexed(s) && IsFramed(s, i) && s.transports[i].link.outbox != []
    ensures KeepsAccepted(s, PageHandled(s, i, choice))
  {
    hide EmitClose, Received, KeepsAccepted, LinkSet;
    var l := s.transports[i].link;
    var rest := l.(outbox := l.outbox[1..]);
    var t := LinkSet(s, i, rest);
    LinkSetKeepsAccepted(s, i, rest);
    LinkSetKeepsAccepted(s, i, Posted(rest.(watching := false), Start));
    LinkSetIndexed(s, i, rest);
    match l.outbox[0] {
      case Loaded =>
      case Forward(f) =>
        SocketKeepsAccepted(t, 0, choice);
        AcceptedTwice(s, t, Received(t, f));
      case Gone(code) =>
        EmitCloseKeepsAccepted(t, i, code, choice);
        AcceptedTwice(s, t, EmitClose(t, i, code, choice));
    }
  }

  lemma LinkSetIndexed(s: System, i: nat, l: Link)
    requires Indexed(s) && IsFramed(s, i)
    ensures Indexed(LinkSet(s, i, l)) && IsFramed(LinkSet(s, i, l), i)
  {
  }

  lemma StepKeepsAccepted(s: System, step: Step)
    requires Indexed(s) && Enabled(false, s, step) && !step.UserSend?
    ensures KeepsAccepted(s, Next(s, step))
  {
    hide ClosedSocket, Connected, TransportClosed, Received, PageHandled, EmitClose, TimerRun, Handled, LinkSet;
    match step {
      case Inform(_, choice) => SocketKeepsAccepted(s.(asking := false), 0, choice);
      case Timeout(i, choice) => SocketKeepsAccepted(s.(alarms := s.alarms - {i}), 2007, choice);
      case Load(choice) => SocketKeepsAccepted(s.(loads := s.loads - 1, loaded := true), 0, choice);
      case UserClose => SocketKeepsAccepted(s, 0, Exhausted);
      case Finish =>
      case DirectFrame(_, f) => SocketKeepsAccepted(s, 0, Exhausted);
      case DirectClose(i, code, choice) => EmitCloseKeepsAccepted(s, i, code, choice);
      case LoadError(i, choice) =>
        var t := LinkSet(s, i, CleanedUp(s.transports[i].link));
        LinkSetKeepsAccepted(s, i, CleanedUp(s.transports[i].link));
        LinkSetIndexed(s, i, CleanedUp(s.transports[i].link));
        EmitCloseKeepsAccepted(t, i, 1006, choice);
        AcceptedTwice(s, t, EmitClose(t, i, 1006, choice));
      case PageHandles(i, choice) => PageHandledKeepsAccepted(s, i, choice);
      case RunTimer(i) =>
        TimerAccepted(s.transports[i].link);
        LinkSetKeepsAccepted(s, i, TimerRun(s.transports[i].link));
      case Boot(i) => LinkSetKeepsAccepted(s, i, Booted(s.transports[i].link));
      case FrameHandles(i) =>
        HandledAccepted(s.transports[i].link);
        LinkSetKeepsAccepted(s, i, Handled(s.transports[i].link));
      case FacadeFrame(i, f) => LinkSetKeepsAccepted(s, i, Replied(s.transports[i].link, Forward(f)));
      case FacadeClose(i, code) => LinkSetKeepsAccepted(s, i, Replied(s.transports[i].link, Gone(code)));
    }
  }

  lemma TimerAccepted(l: Link)
    requires l.timers != []
    ensures TimerRun(l).accepted == l.accepted
  {
  }

  lemma HandledAccepted(l: Link)
    requires l.inbox != []
    ensures Handled(l).accepted == l.accepted
  {
  }

  lemma SendKeepsOthers(s: System, data: Text)
    requires Indexed(s)
    ensures var u := Next(s, UserSend(data));
      && |u.transports| == |s.transports|
      && (forall i: nat :: IsFramed(u, i) <==> IsFramed(s, i))
      && forall i: nat :: i < |s.transports| && !(s.ready == Open && s.current == Some(i)) ==>
           u.transports[i] == s.transports[i]
  {
    hide Escape.Quote;
  }

  /** Each iframe has accepted, quoted and in order, what the user sent while it was in use. */
  lemma {:induction false} AcceptedIsSent(bodyReady: bool, steps: seq<Step>, i: nat)
    requires After(bodyReady, steps).Some?
    ensures var s := After(bodyReady, steps).value;
      if IsFramed(s, i) then s.transports[i].link.accepted == AllQuoted(SentOver(bodyReady, steps, i))
      else i >= |s.transports| ==> SentOver(bodyReady, steps, i) == []
    decreases |steps|
  {
    hide Next, Enabled, Escape.Quote, AllQuoted;
    if steps == [] {
    } else {
      var init, step := steps[..|steps| - 1], steps[|steps| - 1];
      AcceptedIsSent(bodyReady, init, i);
      var s := After(bodyReady, init).value;
      EnabledAnyway(bodyReady, s, step);
      var before := SentOver(bodyReady, init, i);
      QuotedOnce(before);
      if step.UserSend? {
        SendKeepsOthers(s, step.data);
        if s.ready == Open && s.current == Some(i) && IsFramed(s, i) {
          SendMeans(s, step.data, i);
          QuotedSnoc(before, step.data);
        }
      } else {
        StepKeepsAccepted(s, step);
      }
    }
  }

  lemma QuotedOnce(texts: seq<Text>)
    ensures AllQuoted([]) == [] && texts + [] == texts
  {
  }

  lemma QuotedSnoc(texts: seq<Text>, data: Text)
    ensures AllQuoted(texts + [data]) == AllQuoted(texts) + [Escape.Quote(data)]
  {
    assert (texts + [data])[..|texts|] == texts;
    hide Escape.Quote;
  }

  /**
    What the facade of an iframe has been given is JSON text for the first strings that the user sent
    while the iframe was in use, in order.
   */
  lemma FacadeGetsWhatWasSent(bodyReady: bool, steps: seq<Step>, i: nat, k: nat)
    requires After(bodyReady, steps).Some? && Separate(bodyReady, steps)
    requires var s := After(bodyReady, steps).value; IsFramed(s, i) && k < |s.transports[i].link.given|
    ensures var given, sent := After(bodyReady, steps).value.transports[i].link.given, SentOver(bodyReady, steps, i);
      |given| <= |sent| && Denotes(given[k], Str(sent[k]))
  {
    FacadeMeetsEveryMessage(bodyReady, steps);
    AcceptedIsSent(bodyReady, steps, i);
    var given, sent := After(bodyReady, steps).value.transports[i].link.given, SentOver(bodyReady, steps, i);
    assert given[k] == Escape.Quote(sent[k]);
    hide After, SentOver;
    Escape.QuoteParses(sent[k]);
    ParseOf(Escape.Quote(sent[k]), Str(sent[k]));
    hide Parse, Denotes;
    ParsesExactlyWhatItDenotes(Escape.Quote(sent[k]), Str(sent[k]));
  }
}
