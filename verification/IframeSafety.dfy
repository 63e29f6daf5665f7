/**
  What every run of the page and its iframes keeps: an iframe handles a message only while
  it has a facade, and hands the messages to it exactly as they were sent.
 */
module IframeSafety {
  import opened Wrappers
  import opened Texts
  import opened Iframe

  // ---------- what is on its way to an iframe ----------

  /** The messages among the pending timers. */
  function Commands(tasks: seq<Task>): seq<Command> {
    if tasks == [] then []
    else if tasks[0].Post? then [tasks[0].command] + Commands(tasks[1..])
    else Commands(tasks[1..])
  }

  /** Everything the iframe has still to handle, in order. */
  function Queue(l: Link): seq<Command> {
    l.inbox + Commands(l.timers)
  }

  /** The texts of the 'm' messages. */
  function Payloads(commands: seq<Command>): seq<Text> {
    if commands == [] then []
    else if commands[0].Send? then [commands[0].data] + Payloads(commands[1..])
    else Payloads(commands[1..])
  }

  lemma {:induction false} CommandsConcat(a: seq<Task>, b: seq<Task>)
    ensures Commands(a + b) == Commands(a) + Commands(b)
  {
    if a == [] {
      assert a + b == b;
    } else {
      var rest := a[1..] + b;
      CommandsConcat(a[1..], b);
      assert a + b == [a[0]] + rest && (a + b)[1..] == rest;
      assert Commands(a + b) == if a[0].Post? then [a[0].command] + Commands(rest) else Commands(rest);
    }
  }

  lemma {:induction false} PayloadsConcat(a: seq<Command>, b: seq<Command>)
    ensures Payloads(a + b) == Payloads(a) + Payloads(b)
  {
    if a == [] {
      assert a + b == b;
    } else {
      var rest := a[1..] + b;
      PayloadsConcat(a[1..], b);
      assert a + b == [a[0]] + rest && (a + b)[1..] == rest;
      assert Payloads(a + b) == if a[0].Send? then [a[0].data] + Payloads(rest) else Payloads(rest);
    }
  }

  lemma {:induction false} NoPayloads(a: seq<Command>)
    requires forall k :: 0 <= k < |a| ==> !a[k].Send?
    ensures Payloads(a) == []
  {
    if a != [] { NoPayloads(a[1..]); }
  }

  // ---------- one iframe ----------

  ghost predicate NoneSent(q: seq<Command>) { forall k :: 0 <= k < |q| ==> !q[k].Send? }

  ghost predicate NoClose(q: seq<Command>) { forall k :: 0 <= k < |q| ==> q[k] != Close }

  /** Nothing follows a 'c'. */
  ghost predicate CloseIsLast(q: seq<Command>) { forall k :: 0 <= k < |q| - 1 ==> q[k] != Close }

  ghost predicate OnlyLoaded(outbox: seq<Reply>) { forall k :: 0 <= k < |outbox| ==> outbox[k] == Loaded }

  /** The queue `q` fits the facade: messages only for an active one, and 'c' only at the end. */
  ghost predicate QueueOk(q: seq<Command>, facade: Facade, present: bool) {
    && (facade == Active || NoneSent(q))
    && CloseIsLast(q)
    && (present ==> NoClose(q))
  }

  ghost predicate LinkOk(l: Link) {
    && (l.present ==> l.facade != Dropped)
    && (!l.booted ==> l.facade == NotYet && l.outbox == [])
    && (l.facade == NotYet ==> OnlyLoaded(l.outbox))
    && l.given <= l.accepted
    && (!l.removed ==> QueueOk(Queue(l), l.facade, l.present) && l.accepted == l.given + Payloads(Queue(l)))
  }

  lemma QueueAfterPost(l: Link, c: Command)
    ensures Queue(Posted(l, c)) == Queue(l) + [c]
    ensures Payloads(Queue(Posted(l, c))) == Payloads(Queue(l)) + if c.Send? then [c.data] else []
  {
    CommandsConcat(l.timers, [Post(c)]);
    assert Commands([Post(c)]) == [c] + Commands([]);
    assert l.inbox + (Commands(l.timers) + [c]) == (l.inbox + Commands(l.timers)) + [c];
    PayloadsConcat(Queue(l), [c]);
    assert Payloads([c]) == if c.Send? then [c.data] + Payloads([]) else Payloads([]);
  }

  lemma QueueAfterCleanup(l: Link)
    ensures Queue(CleanedUp(l)) == Queue(l)
  {
    CommandsConcat(l.timers, [Remove]);
    assert Commands([Remove]) == Commands([]);
  }

  lemma QueueAfterTimer(l: Link)
    requires l.timers != [] && !l.removed
    ensures TimerRun(l).removed || Queue(TimerRun(l)) == Queue(l)
  {
    if l.timers[0].Post? {
      var c := l.timers[0].command;
      assert (l.inbox + [c]) + Commands(l.timers[1..]) == l.inbox + ([c] + Commands(l.timers[1..]));
    }
  }

  lemma QueueAfterHandling(l: Link)
    requires l.inbox != []
    ensures Queue(l) == [l.inbox[0]] + Queue(Handled(l))
    ensures Queue(Handled(l)) == Queue(l)[1..]
    ensures Payloads(Queue(l)) == (if l.inbox[0].Send? then [l.inbox[0].data] else []) + Payloads(Queue(Handled(l)))
  {
    var rest := l.inbox[1..] + Commands(l.timers);
    assert Queue(Handled(l)) == rest;
    assert l.inbox == [l.inbox[0]] + l.inbox[1..];
    assert Queue(l) == [l.inbox[0]] + rest;
    assert ([l.inbox[0]] + rest)[1..] == rest;
  }

  lemma StartKeepsLink(l: Link)
    requires LinkOk(l) && l.present
    ensures LinkOk(Posted(l.(watching := false), Start))
  {
    QueueAfterPost(l.(watching := false), Start);
    assert Queue(l.(watching := false)) == Queue(l);
  }

  lemma SendKeepsLink(l: Link, data: Text)
    requires LinkOk(l) && l.present && l.facade == Active
    ensures LinkOk(Posted(l, Send(data)).(accepted := l.accepted + [data]))
  {
    var m := Posted(l, Send(data));
    QueueAfterPost(l, Send(data));
    assert Queue(m.(accepted := l.accepted + [data])) == Queue(m);
    assert l.given + (Payloads(Queue(l)) + [data]) == (l.given + Payloads(Queue(l))) + [data];
  }

  lemma CloseKeepsLink(t: Transport)
    requires t.Framed? && LinkOk(t.link)
    ensures ClosedTransport(t).Framed? && LinkOk(ClosedTransport(t).link) && !ClosedTransport(t).link.present
  {
    if t.link.present {
      var m := Posted(t.link, Close);
      QueueAfterPost(t.link, Close);
      QueueAfterCleanup(m);
      assert Queue(CleanedUp(m).(present := false)) == Queue(m);
    }
  }

  lemma CleanupKeepsLink(l: Link)
    requires LinkOk(l)
    ensures LinkOk(CleanedUp(l))
  {
    QueueAfterCleanup(l);
  }

  lemma TimerKeepsLink(l: Link)
    requires LinkOk(l) && l.timers != []
    ensures LinkOk(TimerRun(l))
  {
    if !l.removed { QueueAfterTimer(l); }
  }

  lemma QueueRest(q: seq<Command>, facade: Facade, present: bool)
    requires q != [] && QueueOk(q, facade, present)
    ensures QueueOk(q[1..], facade, present)
    ensures q[0] == Start ==> QueueOk(q[1..], Active, present)
    ensures q[0] == Close ==> q[1..] == [] && !present
    ensures q[0].Send? ==> facade == Active
  {
    var r := q[1..];
    assert forall k :: 0 <= k < |r| ==> r[k] == q[k + 1];
  }

  lemma HandlingFields(l: Link)
    requires l.inbox != [] && l.booted
    ensures var h, c := Handled(l), l.inbox[0];
      && h.present == l.present && h.booted && h.outbox == l.outbox
      && h.removed == l.removed && h.accepted == l.accepted
      && h.given == (if c.Send? && l.facade == Active then l.given + [c.data] else l.given)
      && h.facade == (if c == Close then Dropped else if c == Start && l.compatible then Active else l.facade)
  {
  }

  lemma GivenInOrder(given: seq<Text>, data: Text, rest: seq<Text>)
    ensures given + ([data] + rest) == (given + [data]) + rest
  {
  }

  /** Handling a message keeps the link in order; a facade in use goes away only with a 'c'. */
  lemma HandlingKeepsLink(l: Link)
    requires LinkOk(l) && l.inbox != [] && !l.removed
    ensures LinkOk(Handled(l)) && !Orphaned(l)
    ensures l.present && l.facade == Active ==> Handled(l).facade == Active
  {
    var q, c := Queue(l), l.inbox[0];
    QueueAfterHandling(l);
    if l.booted { HandlingFields(l); }
    hide Payloads, Queue, QueueOk, Commands, OnlyLoaded;
    QueueRest(q, l.facade, l.present);
    if l.booted {
      hide Handled;
      if c.Send? { GivenInOrder(l.given, c.data, Payloads(q[1..])); }
      if c == Close { EmptyQueueOk(Dropped, l.present); }
    }
  }

  lemma EmptyQueueOk(facade: Facade, present: bool)
    ensures QueueOk([], facade, present)
  {
  }

  // ---------- the whole system ----------

  ghost predicate AllLinks(s: System) {
    forall i: nat :: IsFramed(s, i) ==> LinkOk(s.transports[i].link)
  }

  /** The connection listens to its current transport only, and that one is in working order. */
  ghost predicate Owned(s: System) {
    && Indexed(s)
    && (forall i: nat :: i < |s.transports| && s.transports[i].attached ==> s.current == Some(i))
    && (s.current.Some? ==> InUse(s, s.transports[s.current.value]))
    && (s.asking ==> s.current == None && s.loads == 0 && s.alarms == {})
  }

  ghost predicate InUse(s: System, t: Transport) {
    t.attached && (t.Framed? ==> t.link.present && (s.ready == Open ==> t.link.facade == Active))
  }

  ghost predicate Inv(s: System) {
    AllLinks(s) && Owned(s) && (s.ready == Open ==> s.current.Some?)
  }

  lemma CloseSocketKeeps(s: System)
    requires AllLinks(s) && Owned(s)
    ensures Inv(ClosedSocket(s)) && ClosedSocket(s).ready != Open && ClosedSocket(s).current == None
  {
    hide LinkOk, ClosedTransport;
    if s.current.Some? {
      var t := s.transports[s.current.value];
      ClosedIsDetached(t);
      if t.Framed? { CloseKeepsLink(t); }
    }
  }

  lemma ClosedIsDetached(t: Transport)
    ensures !ClosedTransport(t).attached && ClosedTransport(t).Framed? == t.Framed?
  {
  }

  lemma NewLinkOk(compatible: bool)
    ensures LinkOk(NewLink(compatible))
  {
  }

  lemma ConnectKeeps(s: System, choice: Choice)
    requires AllLinks(s) && Owned(s) && s.current == None && s.ready != Open && !s.asking
    ensures Inv(Connected(s, choice))
    ensures var c := Connected(s, choice).current; c.Some? ==> c.value >= |s.transports|
  {
    hide LinkOk, ClosedSocket;
    if choice.Exhausted? {
      CloseSocketKeeps(s);
    } else if choice.IframeTransport? {
      NewLinkOk(choice.compatible);
    }
  }

  lemma LetGoKeeps(s: System)
    requires AllLinks(s) && Owned(s)
    ensures AllLinks(LetGo(s)) && Owned(LetGo(s))
  {
    hide LinkOk;
  }

  lemma TransportCloseKeeps(s: System, code: int, choice: Choice)
    requires Inv(s) && !s.asking
    ensures Inv(TransportClosed(s, code, choice))
    ensures var c := TransportClosed(s, code, choice).current; c.Some? ==> c.value >= |s.transports|
  {
    assert Indexed(s);
    hide AllLinks, Owned, Connected, ClosedSocket;
    LetGoKeeps(s);
    if !UserSetCode(code) && code != 2000 && s.ready == Connecting {
      ConnectKeeps(LetGo(s), choice);
    } else {
      CloseSocketKeeps(LetGo(s));
    }
  }

  lemma ReceiveKeeps(s: System, f: Frame)
    requires Inv(s)
    requires s.current.Some? ==> var t := s.transports[s.current.value];
      t.Framed? && f.OpenFrame? ==> t.link.facade == Active
    ensures Inv(Received(s, f))
  {
    hide LinkOk, ClosedSocket;
    CloseSocketKeeps(s);
  }

  lemma LinkSetKeeps(s: System, i: nat, l: Link)
    requires Inv(s) && IsFramed(s, i) && LinkOk(l) && l.present == s.transports[i].link.present
    requires l.present && s.transports[i].link.facade == Active ==> l.facade == Active
    ensures Inv(LinkSet(s, i, l))
  {
    hide LinkOk;
  }

  lemma CloseOtherKeeps(s: System, i: nat)
    requires Inv(s) && i < |s.transports| && s.current != Some(i)
    ensures Inv(TransportSet(s, i, ClosedTransport(s.transports[i])))
  {
    hide LinkOk, ClosedTransport;
    ClosedIsDetached(s.transports[i]);
    if s.transports[i].Framed? { CloseKeepsLink(s.transports[i]); }
  }

  lemma EmitCloseKeeps(s: System, i: nat, code: int, choice: Choice)
    requires Inv(s) && i < |s.transports|
    ensures Inv(EmitClose(s, i, code, choice))
  {
    hide AllLinks, TransportClosed, ClosedTransport;
    if s.transports[i].attached {
      TransportCloseKeeps(s, code, choice);
      CloseOtherKeeps(TransportClosed(s, code, choice), i);
    } else {
      CloseOtherKeeps(s, i);
    }
  }

  lemma OutboxRest(l: Link)
    requires LinkOk(l) && l.outbox != []
    ensures LinkOk(l.(outbox := l.outbox[1..]))
    ensures l.outbox[0] != Loaded ==> l.facade != NotYet
  {
    assert Queue(l.(outbox := l.outbox[1..])) == Queue(l);
  }

  lemma PageHandlingKeeps(s: System, i: nat, choice: Choice)
    requires Inv(s) && IsFramed(s, i) && s.transports[i].link.outbox != []
    ensures Inv(PageHandled(s, i, choice))
  {
    hide AllLinks, LinkOk, EmitClose, Received;
    var l := s.transports[i].link;
    var rest := l.(outbox := l.outbox[1..]);
    LinkIsOk(s, i);
    OutboxRest(l);
    LinkSetKeeps(s, i, rest);
    PresentIsNotDropped(l);
    if l.present {
      match l.outbox[0] {
        case Loaded =>
          StartKeepsLink(rest);
          LinkSetKeeps(s, i, Posted(rest.(watching := false), Start));
        case Forward(f) =>
          if s.transports[i].attached { ReceiveKeeps(LinkSet(s, i, rest), f); }
        case Gone(code) =>
          EmitCloseKeeps(LinkSet(s, i, rest), i, code, choice);
      }
    }
  }

  lemma LinkIsOk(s: System, i: nat)
    requires AllLinks(s) && IsFramed(s, i)
    ensures LinkOk(s.transports[i].link)
  {
  }

  lemma PresentIsNotDropped(l: Link)
    requires LinkOk(l)
    ensures l.present ==> l.facade != Dropped
  {
  }

  lemma UserSendKeeps(s: System, data: Text)
    requires Inv(s)
    ensures Inv(UserSent(s, data))
  {
    hide LinkOk, Escape.Quote;
    if s.ready == Open {
      var t := s.transports[s.current.value];
      if t.Framed? {
        SendKeepsLink(t.link, Escape.Quote(data));
      }
    }
  }

  /** A link changes only its outbox or boots. */
  lemma ReplyKeepsLink(l: Link, reply: Reply)
    requires LinkOk(l) && l.facade == Active
    ensures LinkOk(Replied(l, reply))
  {
    assert Queue(Replied(l, reply)) == Queue(l);
  }

  lemma BootKeepsLink(l: Link)
    requires LinkOk(l) && !l.booted
    ensures LinkOk(Booted(l))
  {
    assert Queue(Booted(l)) == Queue(l);
  }

  /** Steps inside an iframe, and timers of the page. */
  lemma LinkStepKeeps(s: System, step: Step)
    requires Inv(s) && Enabled(false, s, step)
    requires step.RunTimer? || step.Boot? || step.FrameHandles? || step.FacadeFrame? || step.FacadeClose?
    ensures Inv(Next(s, step))
  {
    hide AllLinks, Owned, LinkOk, TimerRun, Handled, LinkSet;
    var l := s.transports[step.id].link;
    LinkIsOk(s, step.id);
    match step {
      case RunTimer(i) =>
        TimerKeepsLink(l);
        TimerKeepsRest(l);
        LinkSetKeeps(s, i, TimerRun(l));
      case Boot(i) =>
        BootKeepsLink(l);
        LinkSetKeeps(s, i, Booted(l));
      case FrameHandles(i) =>
        HandlingKeepsLink(l);
        HandlingKeepsPresent(l);
        LinkSetKeeps(s, i, Handled(l));
      case FacadeFrame(i, f) =>
        ReplyKeepsLink(l, Forward(f));
        LinkSetKeeps(s, i, Replied(l, Forward(f)));
      case FacadeClose(i, code) =>
        ReplyKeepsLink(l, Gone(code));
        LinkSetKeeps(s, i, Replied(l, Gone(code)));
    }
  }

  lemma TimerKeepsRest(l: Link)
    requires l.timers != []
    ensures TimerRun(l).present == l.present && TimerRun(l).facade == l.facade
  {
  }

  lemma HandlingKeepsPresent(l: Link)
    requires l.inbox != []
    ensures Handled(l).present == l.present
  {
  }

  /** Steps of the connection. */
  lemma SocketStepKeeps(s: System, step: Step)
    requires Inv(s) && Enabled(false, s, step)
    requires step.Inform? || step.Timeout? || step.Load? || step.UserSend? || step.UserClose? || step.Finish?
    requires step.Load? ==> s.current == None
    ensures Inv(Next(s, step))
  {
    hide AllLinks, LinkOk, Connected, ClosedSocket, TransportClosed, UserSent;
    match step {
      case Inform(ok, choice) =>
        var t := s.(asking := false);
        SameLinks(s, t);
        if ok { ConnectKeeps(t, choice); } else { CloseSocketKeeps(t); }
      case Timeout(i, choice) =>
        var t := s.(alarms := s.alarms - {i});
        SameLinks(s, t);
        if s.ready == Connecting { TransportCloseKeeps(t, 2007, choice); }
      case Load(choice) =>
        var t := s.(loads := s.loads - 1, loaded := true);
        SameLinks(s, t);
        ConnectKeeps(t, choice);
      case UserSend(data) => UserSendKeeps(s, data);
      case UserClose => CloseSocketKeeps(s);
      case Finish => SameLinks(s, s.(ready := Closed, closings := s.closings - 1));
    }
  }

  lemma SameLinks(s: System, t: System)
    requires AllLinks(s) && s.transports == t.transports
    ensures AllLinks(t)
  {
    hide LinkOk;
  }

  lemma TransportStepKeeps(s: System, step: Step)
    requires Inv(s) && Enabled(false, s, step)
    requires step.DirectFrame? || step.DirectClose? || step.LoadError? || step.PageHandles?
    ensures Inv(Next(s, step))
  {
    hide AllLinks, Owned, LinkOk, EmitClose, PageHandled;
    match step {
      case DirectFrame(i, f) => DirectFrameKeeps(s, i, f);
      case DirectClose(i, code, choice) => EmitCloseKeeps(s, i, code, choice);
      case LoadError(i, choice) =>
        var l := s.transports[i].link;
        LinkIsOk(s, i);
        CleanupKeepsLink(l);
        LinkSetKeeps(s, i, CleanedUp(l));
        EmitCloseKeeps(LinkSet(s, i, CleanedUp(l)), i, 1006, choice);
      case PageHandles(i, choice) => PageHandlingKeeps(s, i, choice);
    }
  }

  lemma DirectFrameKeeps(s: System, i: nat, f: Frame)
    requires Inv(s) && IsDirect(s, i)
    ensures Inv(Received(s, f))
  {
    hide AllLinks, Received;
    ReceiveKeeps(s, f);
  }

  lemma StepKeeps(s: System, step: Step)
    requires Inv(s) && Enabled(false, s, step)
    requires step.Load? ==> s.current == None
    ensures Inv(Next(s, step))
  {
    hide Inv, Next;
    if step.Inform? || step.Timeout? || step.Load? || step.UserSend? || step.UserClose? || step.Finish? {
      SocketStepKeeps(s, step);
    } else if step.DirectFrame? || step.DirectClose? || step.LoadError? || step.PageHandles? {
      TransportStepKeeps(s, step);
    } else {
      LinkStepKeeps(s, step);
    }
  }

  // ---------- runs ----------

  /** The system after the steps, if each could happen when it did. */
  function After(bodyReady: bool, steps: seq<Step>): (r: Option<System>)
    ensures r.Some? ==> Indexed(r.value)
  {
    if steps == [] then Some(INITIAL)
    else
      var before := After(bodyReady, steps[..|steps| - 1]);
      var step := steps[|steps| - 1];
      if before.Some? && Enabled(bodyReady, before.value, step) then Some(Next(before.value, step)) else None
  }

  /** No load listener connects while a transport is in use. */
  ghost predicate Separate(bodyReady: bool, steps: seq<Step>) {
    forall k :: 0 <= k < |steps| && steps[k].Load? ==>
      var s := After(bodyReady, steps[..k]); s.Some? ==> s.value.current == None
  }

  /** No iframe is about to handle a message without a facade. */
  ghost predicate Safe(s: System) {
    forall i: nat :: IsFramed(s, i) ==> !Orphaned(s.transports[i].link)
  }

  /** Each facade got, in order, what was sent on its transport, up to what is still on its way. */
  ghost predicate InOrder(s: System) {
    forall i: nat :: IsFramed(s, i) ==>
      var l := s.transports[i].link;
      && l.given <= l.accepted
      && (!l.removed ==> l.accepted == l.given + Payloads(Queue(l)) && CloseIsLast(Queue(l)))
  }

  lemma {:induction false} InvInEveryRun(bodyReady: bool, steps: seq<Step>)
    requires After(bodyReady, steps).Some? && Separate(bodyReady, steps)
    ensures Inv(After(bodyReady, steps).value)
    decreases |steps|
  {
    hide Inv, Next, Enabled;
    if steps == [] {
      InitialInv();
    } else {
      var init, step := steps[..|steps| - 1], steps[|steps| - 1];
      SeparatePrefix(bodyReady, steps);
      InvInEveryRun(bodyReady, init);
      EnabledAnyway(bodyReady, After(bodyReady, init).value, step);
      StepKeeps(After(bodyReady, init).value, step);
    }
  }

  lemma InitialInv()
    ensures Inv(INITIAL)
  {
  }

  lemma EnabledAnyway(bodyReady: bool, s: System, step: Step)
    requires Enabled(bodyReady, s, step)
    ensures Enabled(false, s, step)
  {
  }

  lemma SeparatePrefix(bodyReady: bool, steps: seq<Step>)
    requires steps != [] && Separate(bodyReady, steps)
    ensures Separate(bodyReady, steps[..|steps| - 1])
    ensures steps[|steps| - 1].Load? && After(bodyReady, steps[..|steps| - 1]).Some? ==>
      After(bodyReady, steps[..|steps| - 1]).value.current == None
  {
    hide After;
    var init := steps[..|steps| - 1];
    forall k | 0 <= k < |init| && init[k].Load?
      ensures var s := After(bodyReady, init[..k]); s.Some? ==> s.value.current == None
    {
      assert init[..k] == steps[..k] && steps[k] == init[k];
    }
  }

  /**
    In every run in which no load listener connects while a transport is in use: an iframe
    handles messages only with its facade, the facades get what was sent in order, nothing
    follows a 'c', and an open connection on an iframe has an active facade behind it.
   */
  lemma FacadeMeetsEveryMessage(bodyReady: bool, steps: seq<Step>)
    requires After(bodyReady, steps).Some? && Separate(bodyReady, steps)
    ensures Safe(After(bodyReady, steps).value) && InOrder(After(bodyReady, steps).value)
    ensures var s := After(bodyReady, steps).value; s.ready == Open ==>
      s.current.Some? && (s.transports[s.current.value].Framed? ==> s.transports[s.current.value].link.facade == Active)
  {
    InvInEveryRun(bodyReady, steps);
    var s := After(bodyReady, steps).value;
    hide After, Orphaned, Payloads, Queue;
    forall i: nat | IsFramed(s, i) ensures !Orphaned(s.transports[i].link) {
      LinkNotOrphaned(s.transports[i].link);
    }
  }

  lemma LinkNotOrphaned(l: Link)
    requires LinkOk(l)
    ensures !Orphaned(l)
  {
    if !l.removed && l.inbox != [] { HandlingKeepsLink(l); }
  }

  // ---------- pages that are ready and pages that are not ----------

  lemma ConnectAddsNoLoad(s: System, code: int, choice: Choice)
    requires Indexed(s) && s.loads == 0 && !choice.Postponed?
    ensures Connected(s, choice).loads == 0 && TransportClosed(s, code, choice).loads == 0
  {
  }

  lemma EmitCloseAddsNoLoad(s: System, i: nat, code: int, choice: Choice)
    requires Indexed(s) && i < |s.transports| && s.loads == 0 && !choice.Postponed?
    ensures EmitClose(s, i, code, choice).loads == 0
  {
    hide TransportClosed, ClosedTransport;
    ConnectAddsNoLoad(s, code, choice);
  }

  lemma StepAddsNoLoad(s: System, step: Step)
    requires Indexed(s) && s.loads == 0 && Enabled(true, s, step)
    ensures Next(s, step).loads == 0 && !step.Load?
  {
    hide Connected, TransportClosed, EmitClose, Handled, TimerRun, Posted, CleanedUp;
    match step {
      case Inform(_, choice) => ConnectAddsNoLoad(s.(asking := false), 0, choice);
      case Timeout(i, choice) => ConnectAddsNoLoad(s.(alarms := s.alarms - {i}), 2007, choice);
      case DirectClose(i, code, choice) => EmitCloseAddsNoLoad(s, i, code, choice);
      case LoadError(i, choice) =>
        EmitCloseAddsNoLoad(LinkSet(s, i, CleanedUp(s.transports[i].link)), i, 1006, choice);
      case PageHandles(i, choice) =>
        var l := s.transports[i].link;
        var rest := LinkSet(s, i, l.(outbox := l.outbox[1..]));
        forall code: int ensures EmitClose(rest, i, code, choice).loads == 0 {
          EmitCloseAddsNoLoad(rest, i, code, choice);
        }
      case _ =>
    }
  }

  /** On a page that is ready from the start no connection attempt is ever postponed. */
  lemma {:induction false} ReadyPageNeverWaits(steps: seq<Step>)
    requires After(true, steps).Some?
    ensures After(true, steps).value.loads == 0 && Separate(true, steps)
    decreases |steps|
  {
    hide Next, Enabled;
    if steps != [] {
      var init, step := steps[..|steps| - 1], steps[|steps| - 1];
      ReadyPageNeverWaits(init);
      EnabledAnyway(true, After(true, init).value, step);
      StepAddsNoLoad(After(true, init).value, step);
      hide After;
      forall k | 0 <= k < |steps| && steps[k].Load?
        ensures var s := After(true, steps[..k]); s.Some? ==> s.value.current == None
      {
        assert init[..k] == steps[..k] && steps[k] == init[k];
      }
    }
  }

  // ---------- a run that ends with a message and no facade ----------

  /** The step takes one state to the other. */
  ghost predicate Leads(s: System, step: Step, u: System) {
    Indexed(s) && Enabled(false, s, step) && Next(s, step) == u
  }

  const DIRECT_TRIED := System(Connecting, false, Some(0), [Direct(true)], 0, false, {0}, Some(0), 0)
  const ONE_WAITS := System(Connecting, false, None, [Direct(false)], 1, false, {0}, Some(0), 0)
  const TWO_WAIT := System(Connecting, false, None, [Direct(false)], 2, false, {}, Some(0), 0)
  const ONE_IFRAME :=
    System(Connecting, false, Some(1), [Direct(false), Framed(true, NewLink(true))], 1, true, {1}, Some(1), 0)

  /** A direct transport fails, the next attempt waits for the page, and the first one's timeout starts a second. */
  lemma TwoAttemptsWait()
    ensures Leads(INITIAL, Inform(true, DirectTransport), DIRECT_TRIED)
    ensures Leads(DIRECT_TRIED, DirectClose(0, 1006, Postponed), ONE_WAITS)
    ensures Leads(ONE_WAITS, Timeout(0, Postponed), TWO_WAIT)
  {
    assert INITIAL.transports + [Direct(true)] == [Direct(true)];
    assert [Direct(true)][0 := Direct(false)] == [Direct(false)];
    assert [Direct(false)][0 := Direct(false)] == [Direct(false)];
    assert {0} - {0} == {};
  }

  /** The connection uses the second iframe and still listens to the first. */
  function TwoLinks(ready: ReadyState, first: Link, second: Link): System {
    System(ready, false, Some(2), [Direct(false), Framed(true, first), Framed(true, second)],
           0, true, if ready == Open then {1} else {1, 2}, if ready == Open then None else Some(2), 0)
  }

  /** At load both attempts connect. */
  lemma BothConnect()
    ensures Leads(TWO_WAIT, Load(IframeTransport(true)), ONE_IFRAME)
    ensures Leads(ONE_IFRAME, Load(IframeTransport(true)), TwoLinks(Connecting, NewLink(true), NewLink(true)))
  {
    var t := Framed(true, NewLink(true));
    assert [Direct(false)] + [t] == [Direct(false), t];
    assert [Direct(false), t] + [t] == [Direct(false), t, t];
    assert {} + {1} == {1} && {1} + {2} == {1, 2};
  }

  lemma LinkReplaced(ready: ReadyState, l: Link, m: Link, x: Link)
    ensures LinkSet(TwoLinks(ready, l, m), 1, x) == TwoLinks(ready, x, m)
    ensures LinkSet(TwoLinks(ready, l, m), 2, x) == TwoLinks(ready, l, x)
  {
    var t := [Direct(false), Framed(true, l), Framed(true, m)];
    assert t[1 := Framed(true, x)] == [Direct(false), Framed(true, x), Framed(true, m)];
    assert t[2 := Framed(true, x)] == [Direct(false), Framed(true, l), Framed(true, x)];
  }

  const ANNOUNCED := NewLink(true).(booted := true, outbox := [Loaded])
  const TOLD := NewLink(true).(booted := true, watching := false, timers := [Post(Start)])
  const STARTED := TOLD.(timers := [], inbox := [Start])
  const READY := STARTED.(inbox := [], facade := Active)
  const OPENING := READY.(outbox := [Forward(OpenFrame)])

  /** The first iframe announces itself and is told to start. */
  lemma FirstIsTold(m: Link)
    ensures Leads(TwoLinks(Connecting, NewLink(true), m), Boot(1), TwoLinks(Connecting, ANNOUNCED, m))
    ensures Leads(TwoLinks(Connecting, ANNOUNCED, m), PageHandles(1, Exhausted), TwoLinks(Connecting, TOLD, m))
  {
    LinkReplaced(Connecting, NewLink(true), m, ANNOUNCED);
    LinkReplaced(Connecting, ANNOUNCED, m, TOLD);
    assert NewLink(true).outbox + [Loaded] == [Loaded] && [Loaded][1..] == [];
    assert ANNOUNCED.timers + [Post(Start)] == [Post(Start)];
    hide LinkSet;
  }

  /** It gets the message, and makes its facade. */
  lemma FirstStarts(m: Link)
    ensures Leads(TwoLinks(Connecting, TOLD, m), RunTimer(1), TwoLinks(Connecting, STARTED, m))
    ensures Leads(TwoLinks(Connecting, STARTED, m), FrameHandles(1), TwoLinks(Connecting, READY, m))
  {
    assert TimerRun(TOLD) == STARTED && Handled(STARTED) == READY;
    hide TimerRun, Handled;
    LinkReplaced(Connecting, TOLD, m, STARTED);
    LinkReplaced(Connecting, STARTED, m, READY);
    hide LinkSet;
  }

  /** The facade's transport opens. */
  lemma FirstForwards(m: Link)
    ensures Leads(TwoLinks(Connecting, READY, m), FacadeFrame(1, OpenFrame), TwoLinks(Connecting, OPENING, m))
  {
    LinkReplaced(Connecting, READY, m, OPENING);
    assert READY.outbox + [Forward(OpenFrame)] == [Forward(OpenFrame)];
    hide LinkSet;
  }

  /** The first iframe opens the connection, whose transport is the second. */
  lemma OpensTheOther(m: Link)
    ensures Leads(TwoLinks(Connecting, OPENING, m), PageHandles(1, Exhausted), TwoLinks(Open, READY, m))
  {
    var t := [Direct(false), Framed(true, OPENING), Framed(true, m)];
    assert [Forward(OpenFrame)][1..] == [];
    assert t[1 := Framed(true, READY)] == [Direct(false), Framed(true, READY), Framed(true, m)];
    assert {1, 2} - {2} == {1};
  }

  function Addressed(data: Text): Link {
    ANNOUNCED.(timers := [Post(Send(data))], accepted := [data])
  }

  function Reached(data: Text): Link {
    Addressed(data).(timers := [], inbox := [Send(data)])
  }

  /** The second iframe announces itself, and what the user sends goes to it. */
  lemma SecondIsAddressed(data: Text)
    ensures Leads(TwoLinks(Open, READY, NewLink(true)), Boot(2), TwoLinks(Open, READY, ANNOUNCED))
    ensures var d := Escape.Quote(data);
      && Leads(TwoLinks(Open, READY, ANNOUNCED), UserSend(data), TwoLinks(Open, READY, Addressed(d)))
      && Leads(TwoLinks(Open, READY, Addressed(d)), RunTimer(2), TwoLinks(Open, READY, Reached(d)))
  {
    hide Escape.Quote;
    var d := Escape.Quote(data);
    LinkReplaced(Open, READY, NewLink(true), ANNOUNCED);
    LinkReplaced(Open, READY, ANNOUNCED, Addressed(d));
    LinkReplaced(Open, READY, Addressed(d), Reached(d));
    assert NewLink(true).outbox + [Loaded] == [Loaded];
    assert ANNOUNCED.timers + [Post(Send(d))] == [Post(Send(d))] && ANNOUNCED.accepted + [d] == [d];
    assert TimerRun(Addressed(d)) == Reached(d);
    hide TimerRun;
  }

  lemma Do(steps: seq<Step>, s: System, step: Step, u: System) returns (r: seq<Step>)
    requires After(false, steps) == Some(s) && Leads(s, step, u)
    ensures After(false, r) == Some(u)
  {
    hide Next, Enabled;
    EnabledAnyway(false, s, step);
    r := steps + [step];
    assert r[..|steps|] == steps;
  }

  /** The second iframe is about to handle a message before it was told to start. */
  lemma MessageWithoutFacade() returns (steps: seq<Step>)
    ensures After(false, steps).Some? && !Safe(After(false, steps).value)
  {
    var m, d := NewLink(true), Escape.Quote([]);
    assert After(false, []) == Some(INITIAL);
    assert Orphaned(Reached(d)) && IsFramed(TwoLinks(Open, READY, Reached(d)), 2);
    TwoAttemptsWait();
    BothConnect();
    FirstIsTold(m);
    FirstStarts(m);
    FirstForwards(m);
    OpensTheOther(m);
    SecondIsAddressed([]);
    hide After, Leads, Escape.Quote, Orphaned, Addressed, Reached;
    steps := Do([], INITIAL, Inform(true, DirectTransport), DIRECT_TRIED);
    steps := Do(steps, DIRECT_TRIED, DirectClose(0, 1006, Postponed), ONE_WAITS);
    steps := Do(steps, ONE_WAITS, Timeout(0, Postponed), TWO_WAIT);
    steps := Do(steps, TWO_WAIT, Load(IframeTransport(true)), ONE_IFRAME);
    steps := Do(steps, ONE_IFRAME, Load(IframeTransport(true)), TwoLinks(Connecting, m, m));
    steps := Do(steps, TwoLinks(Connecting, m, m), Boot(1), TwoLinks(Connecting, ANNOUNCED, m));
    steps := Do(steps, TwoLinks(Connecting, ANNOUNCED, m), PageHandles(1, Exhausted), TwoLinks(Connecting, TOLD, m));
    steps := Do(steps, TwoLinks(Connecting, TOLD, m), RunTimer(1), TwoLinks(Connecting, STARTED, m));
    steps := Do(steps, TwoLinks(Connecting, STARTED, m), FrameHandles(1), TwoLinks(Connecting, READY, m));
    steps := Do(steps, TwoLinks(Connecting, READY, m), FacadeFrame(1, OpenFrame), TwoLinks(Connecting, OPENING, m));
    steps := Do(steps, TwoLinks(Connecting, OPENING, m), PageHandles(1, Exhausted), TwoLinks(Open, READY, m));
    steps := Do(steps, TwoLinks(Open, READY, m), Boot(2), TwoLinks(Open, READY, ANNOUNCED));
    steps := Do(steps, TwoLinks(Open, READY, ANNOUNCED), UserSend([]), TwoLinks(Open, READY, Addressed(d)));
    steps := Do(steps, TwoLinks(Open, READY, Addressed(d)), RunTimer(2), TwoLinks(Open, READY, Reached(d)));
  }

  /** The iframes are safe in every run exactly when the page is ready when the connection starts. */
  lemma SafeExactlyWhenBodyReady(bodyReady: bool)
    ensures bodyReady <==>
      forall steps: seq<Step> :: After(bodyReady, steps).Some? ==> Safe(After(bodyReady, steps).value)
  {
    hide After, Safe;
    if bodyReady {
      forall steps: seq<Step> | After(bodyReady, steps).Some? ensures Safe(After(bodyReady, steps).value) {
        ReadyPageNeverWaits(steps);
        FacadeMeetsEveryMessage(true, steps);
      }
    } else {
      var steps := MessageWithoutFacade();
    }
  }
}
