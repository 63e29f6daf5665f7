/**
  The SockJS connection object, its iframe transports, and the script inside each iframe
  (`cluster/wwwroot/sockjs.js`), as one system of parties that exchange messages over
  first-in-first-out `postMessage` channels.
 */
module Iframe {
  import opened Wrappers
  import opened Texts
  import opened Json
  import opened JsonParse
  import Escape

  datatype ReadyState = Connecting | Open | Closing | Closed

  /** Messages to the iframe: types 's', 'm' and 'c'. */
  datatype Command = Start | Send(data: Text) | Close

  /** What a SockJS frame does to the connection; heartbeats, messages and bad frames do nothing to it. */
  datatype Frame = OpenFrame | CloseFrame | PassiveFrame

  /** Messages from the iframe: types 's', 't' and 'c'. */
  datatype Reply = Loaded | Forward(frame: Frame) | Gone(code: int)

  /** Pending zero-delay timers of the iframe element: deliver a message, or remove the element. */
  datatype Task = Post(command: Command) | Remove

  /** The `facade` variable of the iframe's script: undefined, an object, or null. */
  datatype Facade = NotYet | Active | Dropped

  /**
    One iframe and the two channels to it. In the page: `present` says that `iframeObj` is set
    and its listener attached, `watching` that loading may still fail, `timers` what is
    about to run, `removed` that the element is out of the page. In the iframe: `inbox`,
    `booted`, `facade`; `compatible` says that its script accepts the version and origin it is
    told. `accepted` and `given` record what was sent and what reached the facade's transport.
   */
  datatype Link = Link(
    present: bool, watching: bool, timers: seq<Task>, removed: bool,
    inbox: seq<Command>, booted: bool, facade: Facade, compatible: bool, outbox: seq<Reply>,
    accepted: seq<Text>, given: seq<Text>)

  function NewLink(compatible: bool): Link {
    Link(true, true, [], false, [], false, NotYet, compatible, [], [], [])
  }

  /** A transport object; `attached` says that the connection still listens to it. */
  datatype Transport =
    | Direct(attached: bool)
    | Framed(attached: bool, link: Link)

  /**
    The connection: `asking` while the info request runs, `current` the transport in use,
    `loads` the listeners waiting for the page to load, `alarms` the transport timeouts that
    are running and `alarm` the last one set, `closings` the close events about to be dispatched.
   */
  datatype System = System(
    ready: ReadyState, asking: bool, current: Option<nat>, transports: seq<Transport>,
    loads: nat, loaded: bool, alarms: set<nat>, alarm: Option<nat>, closings: nat)

  const INITIAL := System(Connecting, true, None, [], 0, false, {}, None, 0)

  predicate Indexed(s: System) {
    s.current.Some? ==> s.current.value < |s.transports|
  }

  // ---------- the iframe transport, in the page ----------

  /** `removeAllListeners`. */
  function Detached(t: Transport): Transport {
    t.(attached := false)
  }

  function Posted(l: Link, c: Command): Link {
    l.(timers := l.timers + [Post(c)])
  }

  /** `iframeObj.cleanup()`. */
  function CleanedUp(l: Link): Link {
    l.(watching := false, timers := l.timers + [Remove])
  }

  /** `transport.close()`. */
  function ClosedTransport(t: Transport): Transport {
    match t
    case Direct(_) => Direct(false)
    case Framed(_, l) =>
      Framed(false, if l.present then CleanedUp(Posted(l, Close)).(present := false) else l)
  }

  /** `transport.send(data)`; what a direct transport does with it is not followed. */
  function SentOn(t: Transport, data: Text): Transport {
    match t
    case Direct(_) => t
    case Framed(a, l) => Framed(a, Posted(l, Send(data)).(accepted := l.accepted + [data]))
  }

  // ---------- the connection ----------

  /** What the connection finds when it looks for its next transport. */
  datatype Choice = Exhausted | Postponed | DirectTransport | IframeTransport(compatible: bool)

  function Made(choice: Choice): Transport
    requires choice.DirectTransport? || choice.IframeTransport?
  {
    if choice.DirectTransport? then Direct(true) else Framed(true, NewLink(choice.compatible))
  }

  predicate UserSetCode(code: int) { code == 1000 || 3000 <= code <= 4999 }

  /** `_close`. */
  function ClosedSocket(s: System): (r: System)
    requires Indexed(s)
    ensures Indexed(r)
    ensures |r.transports| >= |s.transports|
  {
    var transports :=
      if s.current.None? then s.transports
      else s.transports[s.current.value := ClosedTransport(s.transports[s.current.value])];
    var r := s.(asking := false, current := None, transports := transports);
    if s.ready == Closed then r else r.(ready := Closing, closings := s.closings + 1)
  }

  /** `_connect`. */
  function Connected(s: System, choice: Choice): (r: System)
    requires Indexed(s)
    ensures Indexed(r)
    ensures |r.transports| >= |s.transports|
  {
    match choice
    case Exhausted => ClosedSocket(s)
    case Postponed => s.(loads := s.loads + 1)
    case _ =>
      var n := |s.transports|;
      s.(transports := s.transports + [Made(choice)], current := Some(n), alarms := s.alarms + {n}, alarm := Some(n))
  }

  /** The first half of `_transportClose`: stop listening to the current transport. */
  function LetGo(s: System): (r: System)
    requires Indexed(s)
    ensures Indexed(r) && r.current == None && |r.transports| == |s.transports|
  {
    if s.current.None? then s
    else s.(current := None, transports := s.transports[s.current.value := Detached(s.transports[s.current.value])])
  }

  /** `_transportClose`. */
  function TransportClosed(s: System, code: int, choice: Choice): (r: System)
    requires Indexed(s)
    ensures Indexed(r)
    ensures |r.transports| >= |s.transports|
  {
    if !UserSetCode(code) && code != 2000 && s.ready == Connecting then Connected(LetGo(s), choice)
    else ClosedSocket(LetGo(s))
  }

  /** `_open`; it throws when there is no transport. */
  function Opened(s: System): (r: System)
    requires Indexed(s)
    ensures Indexed(r)
    ensures |r.transports| >= |s.transports|
  {
    if s.current.None? then s
    else if s.ready == Connecting then
      s.(ready := Open, alarm := None, alarms := if s.alarm.Some? then s.alarms - {s.alarm.value} else s.alarms)
    else ClosedSocket(s)
  }

  /** What the text of a frame asks for: its first unit is the type, the rest a JSON payload. */
  function FrameOf(message: Text): Frame {
    if message == [] then PassiveFrame
    else if message[0] == 111 then OpenFrame
    else if message[0] == 99 && |message| > 1 && IsPair(Parse(message[1..])) then CloseFrame
    else PassiveFrame
  }

  predicate IsPair(payload: Result<Value, SyntaxError>) {
    payload.Ok? && payload.value.Arr? && |payload.value.items| == 2
  }

  /** The message events that the text of a frame gives rise to: 'a' carries an array of messages, 'm' one. */
  function Messages(message: Text): seq<Value> {
    if |message| < 2 || Parse(message[1..]).Err? then []
    else
      var payload := Parse(message[1..]).value;
      if message[0] == 97 && payload.Arr? then payload.items
      else if message[0] == 109 then [payload]
      else []
  }

  /** `_transportMessage`. */
  function Received(s: System, f: Frame): (r: System)
    requires Indexed(s)
    ensures Indexed(r)
    ensures |r.transports| >= |s.transports|
  {
    match f
    case OpenFrame => Opened(s)
    case CloseFrame => ClosedSocket(s)
    case PassiveFrame => s
  }

  /** `send`; it throws while connecting. */
  function UserSent(s: System, data: Text): (r: System)
    requires Indexed(s)
    ensures Indexed(r)
    ensures |r.transports| >= |s.transports|
  {
    if s.ready == Open && s.current.Some? then
      s.(transports := s.transports[s.current.value := SentOn(s.transports[s.current.value], Escape.Quote(data))])
    else s
  }

  /** `close`, with a code it accepts. */
  function UserClosed(s: System): (r: System)
    requires Indexed(s)
    ensures Indexed(r)
    ensures |r.transports| >= |s.transports|
  {
    if s.ready == Closing || s.ready == Closed then s else ClosedSocket(s)
  }

  // ---------- messages of an iframe, in the page ----------

  function LinkSet(s: System, i: nat, l: Link): System
    requires i < |s.transports| && s.transports[i].Framed?
  {
    s.(transports := s.transports[i := s.transports[i].(link := l)])
  }

  function TransportSet(s: System, i: nat, t: Transport): System
    requires i < |s.transports|
  {
    s.(transports := s.transports[i := t])
  }

  predicate IsFramed(s: System, i: nat) {
    i < |s.transports| && s.transports[i].Framed?
  }

  /** The transport emits 'close' to the connection, if it listens, and closes itself. */
  function EmitClose(s: System, i: nat, code: int, choice: Choice): (r: System)
    requires Indexed(s) && i < |s.transports|
    ensures Indexed(r)
  {
    var told := if s.transports[i].attached then TransportClosed(s, code, choice) else s;
    TransportSet(told, i, ClosedTransport(told.transports[i]))
  }

  /** `IframeTransport._message`, applied to the first message of the iframe. */
  function PageHandled(s: System, i: nat, choice: Choice): (r: System)
    requires Indexed(s) && IsFramed(s, i) && s.transports[i].link.outbox != []
    ensures Indexed(r)
  {
    var l := s.transports[i].link;
    var rest := l.(outbox := l.outbox[1..]);
    if !l.present then LinkSet(s, i, rest)
    else
      match l.outbox[0]
      case Loaded => LinkSet(s, i, Posted(rest.(watching := false), Start))
      case Forward(f) => if s.transports[i].attached then Received(LinkSet(s, i, rest), f) else LinkSet(s, i, rest)
      case Gone(code) => EmitClose(LinkSet(s, i, rest), i, code, choice)
  }

  /** The connection in the browser page. */
  class SockJS {
    var ready: ReadyState
    var asking: bool
    var current: Option<nat>
    var transports: seq<Transport>
    var loads: nat
    var loaded: bool
    var alarms: set<nat>
    var alarm: Option<nat>
    var closings: nat

    constructor ()
      ensures Now() == INITIAL
    {
      ready, asking, current, transports, loads := Connecting, true, None, [], 0;
      loaded, alarms, alarm, closings := false, {}, None, 0;
    }

    ghost function Now(): System
      reads this
    {
      System(ready, asking, current, transports, loads, loaded, alarms, alarm, closings)
    }

    /** `_close`: false when it throws. */
    method CloseSocket() returns (ok: bool)
      requires Indexed(Now())
      modifies this
      ensures Now() == ClosedSocket(old(Now())) && ok == (old(ready) != Closed)
    {
      asking := false;
      if current.Some? {
        transports := transports[current.value := ClosedTransport(transports[current.value])];
        current := None;
      }
      if ready == Closed { return false; }
      ready := Closing;
      closings := closings + 1;
      return true;
    }

    method Connect(choice: Choice)
      requires Indexed(Now())
      modifies this
      ensures Now() == Connected(old(Now()), choice)
    {
      match choice {
        case Exhausted =>
          var _ := CloseSocket();
        case Postponed =>
          loads := loads + 1;
        case _ =>
          alarm := Some(|transports|);
          alarms := alarms + {|transports|};
          current := Some(|transports|);
          transports := transports + [Made(choice)];
      }
    }

    method TransportClose(code: int, choice: Choice)
      requires Indexed(Now())
      modifies this
      ensures Now() == TransportClosed(old(Now()), code, choice)
    {
      if current.Some? {
        transports := transports[current.value := Detached(transports[current.value])];
        current := None;
      }
      if !UserSetCode(code) && code != 2000 && ready == Connecting {
        Connect(choice);
        return;
      }
      var _ := CloseSocket();
    }

    /** `_transportMessage`, from the text of the frame: the message events it dispatches. */
    method TransportText(message: Text) returns (events: seq<Value>)
      requires Indexed(Now())
      modifies this
      ensures Now() == Received(old(Now()), FrameOf(message)) && events == Messages(message)
    {
      events := [];
      if message == [] { return; }
      var type_, content := message[0], message[1..];
      if type_ == 111 {
        OpenSocket();
        return;
      }
      if type_ == 104 || content == [] { return; }
      var payload := Parse(content);
      if payload.Err? { return; }
      if type_ == 97 && payload.value.Arr? { events := payload.value.items; }
      if type_ == 109 { events := [payload.value]; }
      if type_ == 99 && payload.value.Arr? && |payload.value.items| == 2 {
        var _ := CloseSocket();
      }
    }

    method TransportMessage(f: Frame)
      requires Indexed(Now())
      modifies this
      ensures Now() == Received(old(Now()), f)
    {
      match f {
        case OpenFrame => OpenSocket();
        case CloseFrame => var _ := CloseSocket();
        case PassiveFrame =>
      }
    }

    method OpenSocket()
      requires Indexed(Now())
      modifies this
      ensures Now() == Opened(old(Now()))
    {
      if current.None? { return; }
      if ready == Connecting {
        if alarm.Some? {
          alarms := alarms - {alarm.value};
          alarm := None;
        }
        ready := Open;
      } else {
        var _ := CloseSocket();
      }
    }

    /** `send`: false when it throws. */
    method SendData(data: Text) returns (ok: bool)
      requires Indexed(Now())
      modifies this
      ensures Now() == UserSent(old(Now()), data)
      ensures ok <==> old(ready) != Connecting && (old(ready) == Open ==> old(current).Some?)
    {
      if ready == Connecting { return false; }
      if ready != Open { return true; }
      if current.None? { return false; }
      transports := transports[current.value := SentOn(transports[current.value], Escape.Quote(data))];
      return true;
    }

    /** `close(code, reason)`: false when it throws; a code of zero stands for none. */
    method CloseByUser(code: int, reason: Text) returns (ok: bool)
      requires Indexed(Now())
      modifies this
      ensures ok <==> (code == 0 || code == 1000 || 3000 <= code < 5000) && |reason| <= 123
      ensures Now() == if ok then UserClosed(old(Now())) else old(Now())
    {
      if code != 0 && !UserSetCode(code) { return false; }
      if |reason| > 123 { return false; }
      if ready == Closing || ready == Closed { return true; }
      ok := CloseSocket();
    }

    /** `IframeTransport.close`. */
    method CloseTransport(i: nat)
      requires Indexed(Now()) && i < |transports|
      modifies this`transports
      ensures Now() == TransportSet(old(Now()), i, ClosedTransport(old(transports[i])))
    {
      var t := Detached(transports[i]);
      if t.Framed? && t.link.present {
        var l := Posted(t.link, Close);
        l := CleanedUp(l);
        t := t.(link := l.(present := false));
      }
      transports := transports[i := t];
    }

    /** The transport's 'close' event, then `this.close()`. */
    method EmitCloseEvent(i: nat, code: int, choice: Choice)
      requires Indexed(Now()) && i < |transports|
      modifies this
      ensures Now() == EmitClose(old(Now()), i, code, choice)
    {
      if transports[i].attached {
        TransportClose(code, choice);
      }
      CloseTransport(i);
    }

    /** `IframeTransport._message`, for the first message of the iframe. */
    method OnIframeMessage(i: nat, choice: Choice)
      requires Indexed(Now()) && IsFramed(Now(), i) && transports[i].link.outbox != []
      modifies this
      ensures Now() == PageHandled(old(Now()), i, choice)
    {
      hide TransportClosed, Received, ClosedTransport, EmitClose;
      var l := transports[i].link;
      var message := l.outbox[0];
      l := l.(outbox := l.outbox[1..]);
      transports := transports[i := transports[i].(link := l)];
      if !l.present { return; }
      match message {
        case Loaded =>
          l := l.(watching := false);
          transports := transports[i := transports[i].(link := Posted(l, Start))];
          assert Now() == LinkSet(old(Now()), i, Posted(l, Start));
        case Forward(f) =>
          if transports[i].attached { TransportMessage(f); }
        case Gone(code) =>
          EmitCloseEvent(i, code, choice);
      }
    }
  }

  // ---------- the script in the iframe ----------

  /** `onMessage` of `bootstrap_iframe`, applied to the first message of the inbox. */
  function Handled(l: Link): Link
    requires l.inbox != []
  {
    var rest := l.(inbox := l.inbox[1..]);
    if !l.booted then rest
    else
      match l.inbox[0]
      case Start => if l.compatible then rest.(facade := Active) else rest
      case Send(data) => if l.facade == Active then rest.(given := l.given + [data]) else rest
      case Close => rest.(facade := Dropped)
  }

  /** The iframe's script throws on this message: it has no facade to send it to. */
  predicate Orphaned(l: Link) {
    l.booted && !l.removed && l.inbox != [] && l.inbox[0].Send? && l.facade != Active
  }

  /** The script starts and announces itself. */
  function Booted(l: Link): Link {
    l.(booted := true, outbox := l.outbox + [Loaded])
  }

  /** The facade posts a reply. */
  function Replied(l: Link, reply: Reply): Link {
    l.(outbox := l.outbox + [reply])
  }

  /** The iframe's side, started by `bootstrap_iframe`. */
  class FrameScript {
    const compatible: bool
    var facade: Facade
    var given: seq<Text>
    var outbox: seq<Reply>

    /** The script's variables are those of the link. */
    ghost predicate Runs(l: Link)
      reads this
    {
      l.booted && l.compatible == compatible && l.facade == facade && l.given == given && l.outbox == outbox
    }

    constructor (ghost before: Link, compatible: bool)
      requires !before.booted && before.compatible == compatible
      requires before.facade == NotYet && before.given == [] && before.outbox == []
      ensures Runs(Booted(before))
    {
      this.compatible, facade, given, outbox := compatible, NotYet, [], [Loaded];
    }

    /** `onMessage`: false when it throws. */
    method OnMessage(ghost before: Link, c: Command) returns (ok: bool)
      requires Runs(before) && before.inbox != [] && before.inbox[0] == c
      modifies this
      ensures Runs(Handled(before))
      ensures !ok <==> (c.Start? && !compatible) || (c.Send? && before.facade != Active)
    {
      match c {
        case Start =>
          if !compatible { return false; }
          facade := Active;
        case Send(data) =>
          if facade != Active { return false; }
          given := given + [data];
        case Close =>
          facade := Dropped;
      }
      return true;
    }

    /** `FacadeJS._transportMessage`. */
    method ForwardFrame(ghost before: Link, f: Frame)
      requires Runs(before)
      modifies this`outbox
      ensures Runs(Replied(before, Forward(f)))
    {
      outbox := outbox + [Forward(f)];
    }

    /** `FacadeJS._transportClose`. */
    method ForwardClose(ghost before: Link, code: int)
      requires Runs(before)
      modifies this`outbox
      ensures Runs(Replied(before, Gone(code)))
    {
      outbox := outbox + [Gone(code)];
    }
  }

  // ---------- the steps of the whole system ----------

  datatype Step =
    | Inform(ok: bool, choice: Choice)       // the info request ends
    | Timeout(id: nat, choice: Choice)       // a transport timeout fires
    | Load(choice: Choice)                   // a waiting load listener runs
    | UserSend(data: Text)
    | UserClose
    | Finish                                 // the close event is dispatched
    | DirectFrame(id: nat, frame: Frame)     // a direct transport emits a frame
    | DirectClose(id: nat, code: int, choice: Choice)
    | LoadError(id: nat, choice: Choice)     // an iframe fails to load
    | RunTimer(id: nat)
    | PageHandles(id: nat, choice: Choice)   // the page handles a message of an iframe
    | Boot(id: nat)
    | FrameHandles(id: nat)                  // an iframe handles a message of the page
    | FacadeFrame(id: nat, frame: Frame)     // the transport in an iframe emits a frame
    | FacadeClose(id: nat, code: int)

  predicate IsDirect(s: System, i: nat) {
    i < |s.transports| && s.transports[i].Direct? && s.transports[i].attached
  }

  /** A connection attempt waits for the page only while the page is not ready: no body, or still loading. */
  predicate Offered(bodyReady: bool, s: System, choice: Choice) {
    choice.Postponed? ==> !bodyReady && !s.loaded
  }

  predicate Enabled(bodyReady: bool, s: System, step: Step) {
    match step
    case Inform(_, choice) => s.asking && Offered(bodyReady, s, choice)
    case Timeout(i, choice) => i in s.alarms && Offered(bodyReady, s, choice)
    case Load(choice) => s.loads > 0 && !choice.Postponed?
    case UserSend(_) => true
    case UserClose => true
    case Finish => s.closings > 0
    case DirectFrame(i, _) => IsDirect(s, i)
    case DirectClose(i, _, choice) => IsDirect(s, i) && Offered(bodyReady, s, choice)
    case LoadError(i, choice) => IsFramed(s, i) && s.transports[i].link.watching && Offered(bodyReady, s, choice)
    case RunTimer(i) => IsFramed(s, i) && s.transports[i].link.timers != []
    case PageHandles(i, choice) => IsFramed(s, i) && s.transports[i].link.outbox != [] && Offered(bodyReady, s, choice)
    case Boot(i) => IsFramed(s, i) && !s.transports[i].link.booted && !s.transports[i].link.removed
    case FrameHandles(i) => IsFramed(s, i) && s.transports[i].link.inbox != [] && !s.transports[i].link.removed
    case FacadeFrame(i, _) => IsFramed(s, i) && s.transports[i].link.facade == Active && !s.transports[i].link.removed
    case FacadeClose(i, _) => IsFramed(s, i) && s.transports[i].link.facade == Active && !s.transports[i].link.removed
  }

  /** The first pending timer runs: a message goes to the iframe's inbox if the element is still there. */
  function TimerRun(l: Link): Link
    requires l.timers != []
  {
    var rest := l.(timers := l.timers[1..]);
    match l.timers[0]
    case Remove => rest.(removed := true)
    case Post(c) => if l.removed then rest else rest.(inbox := l.inbox + [c])
  }

  function Next(s: System, step: Step): (r: System)
    requires Indexed(s) && Enabled(false, s, step)
    ensures Indexed(r)
  {
    match step
    case Inform(ok, choice) =>
      if ok then Connected(s.(asking := false), choice) else ClosedSocket(s.(asking := false))
    case Timeout(i, choice) =>
      var t := s.(alarms := s.alarms - {i});
      if s.ready == Connecting then TransportClosed(t, 2007, choice) else t
    case Load(choice) => Connected(s.(loads := s.loads - 1, loaded := true), choice)
    case UserSend(data) => UserSent(s, data)
    case UserClose => UserClosed(s)
    case Finish => s.(ready := Closed, closings := s.closings - 1)
    case DirectFrame(_, f) => Received(s, f)
    case DirectClose(i, code, choice) => EmitClose(s, i, code, choice)
    case LoadError(i, choice) => EmitClose(LinkSet(s, i, CleanedUp(s.transports[i].link)), i, 1006, choice)
    case RunTimer(i) => LinkSet(s, i, TimerRun(s.transports[i].link))
    case PageHandles(i, choice) => PageHandled(s, i, choice)
    case Boot(i) => LinkSet(s, i, Booted(s.transports[i].link))
    case FrameHandles(i) => LinkSet(s, i, Handled(s.transports[i].link))
    case FacadeFrame(i, f) => LinkSet(s, i, Replied(s.transports[i].link, Forward(f)))
    case FacadeClose(i, code) => LinkSet(s, i, Replied(s.transports[i].link, Gone(code)))
  }
}
