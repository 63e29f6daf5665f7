/**
  What a connection that closes does to its iframe: the iframe is told, nothing follows, and its
  facade gets all that was sent before it is dropped.
 */
module IframeClose {
  import opened Wrappers
  import opened Texts
  import opened Iframe
  import opened IframeSafety

  // ---------- an iframe in use is whole ----------

  /** While the page holds the iframe, its element is there and no timer is about to remove it. */
  ghost predicate Whole(t: Transport) {
    t.Framed? && t.link.present ==> !t.link.removed && forall k :: 0 <= k < |t.link.timers| ==> t.link.timers[k].Post?
  }

  /** Every transport but the one with this number is whole. */
  ghost predicate WholeBut(s: System, number: int) {
    forall i: nat :: i < |s.transports| && i != number ==> Whole(s.transports[i])
  }

  lemma ClosedIsWhole(t: Transport)
    ensures Whole(ClosedTransport(t))
  {
  }

  lemma SocketWhole(s: System, code: int, choice: Choice, number: int)
    requires Indexed(s) && WholeBut(s, number) && number < |s.transports|
    ensures WholeBut(ClosedSocket(s), number)
    ensures WholeBut(Connected(s, choice), number) && WholeBut(TransportClosed(s, code, choice), number)
  {
    hide ClosedTransport;
    forall t ensures Whole(ClosedTransport(t)) { ClosedIsWhole(t); }
    assert WholeBut(ClosedSocket(s), number);
    assert WholeBut(LetGo(s), number);
    assert WholeBut(ClosedSocket(LetGo(s)), number);
    hide ClosedSocket, LetGo;
  }

  lemma EmitCloseWhole(s: System, i: nat, code: int, choice: Choice)
    requires Indexed(s) && i < |s.transports| && WholeBut(s, i)
    ensures WholeBut(EmitClose(s, i, code, choice), -1)
  {
    hide TransportClosed, ClosedTransport, Whole;
    SocketWhole(s, code, choice, i);
    forall t ensures Whole(ClosedTransport(t)) { ClosedIsWhole(t); }
  }

  lemma LinkSetWhole(s: System, i: nat, l: Link)
    requires IsFramed(s, i) && WholeBut(s, -1) && Whole(s.transports[i].(link := l))
    ensures WholeBut(LinkSet(s, i, l), -1)
  {
    hide Whole;
  }

  lemma StillWhole(t: Transport, rest: Link)
    requires t.Framed? && Whole(t) && rest.present == t.link.present
    requires rest.removed == t.link.removed && rest.timers == t.link.timers
    ensures Whole(t.(link := rest)) && Whole(t.(link := Posted(rest.(watching := false), Start)))
  {
  }

  lemma PageHandledWhole(s: System, i: nat, choice: Choice)
    requires Indexed(s) && IsFramed(s, i) && s.transports[i].link.outbox != [] && WholeBut(s, -1)
    ensures WholeBut(PageHandled(s, i, choice), -1)
  {
    var l := s.transports[i].link;
    var rest := l.(outbox := l.outbox[1..]);
    StillWhole(s.transports[i], rest);
    hide Whole;
    LinkSetWhole(s, i, rest);
    LinkSetWhole(s, i, Posted(rest.(watching := false), Start));
    hide LinkSet, EmitClose, ClosedSocket;
    match l.outbox[0] {
      case Loaded =>
      case Forward(f) => SocketWhole(LinkSet(s, i, rest), 0, choice, -1);
      case Gone(code) => EmitCloseWhole(LinkSet(s, i, rest), i, code, choice);
    }
  }

  lemma NextWhole(s: System, step: Step)
    requires Indexed(s) && Enabled(false, s, step) && WholeBut(s, -1)
    ensures WholeBut(Next(s, step), -1)
  {
    hide PageHandled, EmitClose, Connected, ClosedSocket, TransportClosed;
    match step {
      case Inform(ok, choice) => SocketWhole(s.(asking := false), 0, choice, -1);
      case Timeout(i, choice) => SocketWhole(s.(alarms := s.alarms - {i}), 2007, choice, -1);
      case Load(choice) => SocketWhole(s.(loads := s.loads - 1, loaded := true), 0, choice, -1);
      case UserSend(data) => SendWhole(s, data);
      case UserClose => SocketWhole(s, 0, Exhausted, -1);
      case Finish =>
      case DirectFrame(_, f) => SocketWhole(s, 0, Exhausted, -1);
      case DirectClose(i, code, choice) => EmitCloseWhole(s, i, code, choice);
      case LoadError(i, choice) =>
        var t := LinkSet(s, i, CleanedUp(s.transports[i].link));
        assert WholeBut(t, i);
        EmitCloseWhole(t, i, 1006, choice);
      case PageHandles(i, choice) => PageHandledWhole(s, i, choice);
      case _ => LinkStepWhole(s, step);
    }
  }

  lemma SendWhole(s: System, data: Text)
    requires Indexed(s) && WholeBut(s, -1)
    ensures WholeBut(UserSent(s, data), -1)
  {
    if s.ready == Open && s.current.Some? {
      assert Whole(s.transports[s.current.value]);
    }
  }

  lemma LinkWhole(t: Transport)
    requires t.Framed? && Whole(t)
    ensures var l := t.link;
      && (l.timers != [] ==> Whole(t.(link := TimerRun(l)))) && (l.inbox != [] ==> Whole(t.(link := Handled(l))))
      && Whole(t.(link := Booted(l))) && forall r :: Whole(t.(link := Replied(l, r)))
  {
  }

  lemma LinkStepWhole(s: System, step: Step)
    requires Indexed(s) && Enabled(false, s, step) && WholeBut(s, -1)
    requires step.RunTimer? || step.Boot? || step.FrameHandles? || step.FacadeFrame? || step.FacadeClose?
    ensures WholeBut(Next(s, step), -1)
  {
    var l := s.transports[step.id].link;
    LinkWhole(s.transports[step.id]);
    hide Whole, TimerRun, Handled, LinkSet;
    match step {
      case RunTimer(i) => LinkSetWhole(s, i, TimerRun(l));
      case Boot(i) => LinkSetWhole(s, i, Booted(l));
      case FrameHandles(i) => LinkSetWhole(s, i, Handled(l));
      case FacadeFrame(i, f) => LinkSetWhole(s, i, Replied(l, Forward(f)));
      case FacadeClose(i, code) => LinkSetWhole(s, i, Replied(l, Gone(code)));
    }
  }

  lemma {:induction false} WholeInEveryRun(bodyReady: bool, steps: seq<Step>)
    requires After(bodyReady, steps).Some?
    ensures WholeBut(After(bodyReady, steps).value, -1)
    decreases |steps|
  {
    hide Next, Enabled, Whole;
    if steps != [] {
      var init, step := steps[..|steps| - 1], steps[|steps| - 1];
      WholeInEveryRun(bodyReady, init);
      EnabledAnyway(bodyReady, After(bodyReady, init).value, step);
      NextWhole(After(bodyReady, init).value, step);
    }
  }

  // ---------- closing ----------

  /** The connection uses an iframe that it still holds. */
  ghost predicate Uses(s: System, i: nat) {
    IsFramed(s, i) && s.current == Some(i) && s.transports[i].attached && s.transports[i].link.present
  }

  /**
    The step closes a connection that uses the iframe: the user closes it, the server's transport
    in the iframe forwards a close frame, or a second open frame.
   */
  predicate Closes(s: System, step: Step, i: nat) {
    IsFramed(s, i)
    && match step
       case UserClose => s.ready == Connecting || s.ready == Open
       case PageHandles(j, _) =>
         j == i && s.ready != Closed && s.transports[i].link.outbox != []
         && (s.transports[i].link.outbox[0] == Forward(CloseFrame)
             || (s.transports[i].link.outbox[0] == Forward(OpenFrame) && s.ready != Connecting))
       case _ => false
  }

  /** The iframe after the close: told 'c' last of all, about to be removed after that, and held no more. */
  ghost predicate Told(before: Link, after: Link) {
    && !after.present && !after.watching
    && after.timers == before.timers + [Post(Close), Remove]
    && after.inbox == before.inbox && after.removed == before.removed
    && after.booted == before.booted && after.facade == before.facade && after.compatible == before.compatible
    && after.accepted == before.accepted && after.given == before.given
  }

  /** The connection has let the iframe go, and will not send to it or be told of it again. */
  ghost predicate LetGoOf(s: System, i: nat) {
    && Indexed(s) && IsFramed(s, i) && s.current != Some(i) && !s.transports[i].attached
    && !s.transports[i].link.present && !s.transports[i].link.watching
  }

  lemma ClosedTransportTells(t: Transport, before: Link)
    requires t.Framed? && t.link.present && t.link == before.(outbox := t.link.outbox)
    ensures var u := ClosedTransport(t);
      u.Framed? && !u.attached && Told(before, u.link)
  {
    assert t.link.timers + [Post(Close)] + [Remove] == t.link.timers + [Post(Close), Remove];
  }

  lemma SocketTells(s: System, i: nat, before: Link)
    requires Indexed(s) && Uses(s, i) && s.ready != Closed
    requires s.transports[i].link == before.(outbox := s.transports[i].link.outbox)
    ensures var u := ClosedSocket(s);
      && LetGoOf(u, i) && Told(before, u.transports[i].link)
      && u.ready == Closing && u.current == None && u.closings == s.closings + 1
      && |u.transports| == |s.transports|
      && forall j: nat :: j < |s.transports| && j != i ==> u.transports[j] == s.transports[j]
  {
    ClosedTransportTells(s.transports[i], before);
    hide ClosedTransport;
  }

  lemma ClosingTells(s: System, step: Step, i: nat)
    requires Indexed(s) && Enabled(false, s, step) && Uses(s, i) && Closes(s, step, i)
    ensures var u := Next(s, step);
      && LetGoOf(u, i) && Told(s.transports[i].link, u.transports[i].link)
      && u.ready == Closing && u.current == None && u.closings == s.closings + 1
      && |u.transports| == |s.transports|
      && forall j: nat :: j < |s.transports| && j != i ==> u.transports[j] == s.transports[j]
  {
    hide ClosedSocket, Told, LetGoOf;
    var l := s.transports[i].link;
    if step.UserClose? {
      SocketTells(s, i, l);
    } else {
      SocketTells(LinkSet(s, i, l.(outbox := l.outbox[1..])), i, l);
    }
  }

  lemma ToldQueue(before: Link, after: Link)
    requires Told(before, after)
    ensures Queue(after) == Queue(before) + [Close] && after.timers[|after.timers| - 1] == Remove
  {
    CommandsConcat(before.timers, [Post(Close), Remove]);
    assert Commands([Post(Close), Remove]) == [Close] + Commands([Remove]);
    assert before.inbox + (Commands(before.timers) + [Close]) == before.inbox + Commands(before.timers) + [Close];
  }

  // ---------- what follows ----------

  /** The link after a step that only the iframe itself or a timer takes. */
  ghost predicate OwnStep(l: Link, m: Link) {
    || (l.timers != [] && m == TimerRun(l))
    || (l.inbox != [] && !l.removed && m == Handled(l))
    || (m.inbox == l.inbox && m.timers == l.timers && m.facade == l.facade && m.given == l.given
        && m.accepted == l.accepted && m.removed == l.removed && (l.booted ==> m.booted))
  }

  lemma SocketLeaves(s: System, code: int, choice: Choice, i: nat)
    requires Indexed(s) && i < |s.transports| && s.current != Some(i)
    ensures ClosedSocket(s).transports[i] == s.transports[i] && ClosedSocket(s).current != Some(i)
    ensures Connected(s, choice).transports[i] == s.transports[i] && Connected(s, choice).current != Some(i)
    ensures TransportClosed(s, code, choice).transports[i] == s.transports[i]
    ensures TransportClosed(s, code, choice).current != Some(i)
  {
  }

  lemma EmitCloseLeaves(s: System, j: nat, code: int, choice: Choice, i: nat)
    requires LetGoOf(s, i) && j < |s.transports|
    ensures var u := EmitClose(s, j, code, choice); LetGoOf(u, i) && u.transports[i] == s.transports[i]
  {
    hide TransportClosed;
    SocketLeaves(s, code, choice, i);
  }

  lemma ReceivedLeaves(s: System, i: nat)
    requires Indexed(s) && i < |s.transports| && s.current != Some(i)
    ensures forall f :: Received(s, f).transports[i] == s.transports[i] && Received(s, f).current != Some(i)
  {
    SocketLeaves(s, 0, Exhausted, i);
    hide ClosedSocket;
  }

  lemma PageHandledLeaves(s: System, j: nat, choice: Choice, i: nat)
    requires LetGoOf(s, i) && IsFramed(s, j) && s.transports[j].link.outbox != []
    ensures var u := PageHandled(s, j, choice);
      LetGoOf(u, i) && u.transports[i].Framed? && OwnStep(s.transports[i].link, u.transports[i].link)
  {
    hide EmitClose, Received, TimerRun, Handled;
    if s.transports[j].link.present {
      var l := s.transports[j].link;
      var t := LinkSet(s, j, l.(outbox := l.outbox[1..]));
      ReceivedLeaves(t, i);
      match l.outbox[0] {
        case Gone(code) => EmitCloseLeaves(t, j, code, choice, i);
        case _ =>
      }
    }
  }

  /** Steps of the connection and of the page. */
  lemma PageStepLeaves(s: System, step: Step, i: nat)
    requires LetGoOf(s, i) && Enabled(false, s, step)
    requires !(step.RunTimer? || step.Boot? || step.FrameHandles? || step.FacadeFrame? || step.FacadeClose?)
    ensures var u := Next(s, step); LetGoOf(u, i) && OwnStep(s.transports[i].link, u.transports[i].link)
  {
    hide PageHandled, EmitClose, Connected, ClosedSocket, TransportClosed, Received, TimerRun, Handled, CleanedUp;
    SocketLeaves(s, 0, Exhausted, i);
    match step {
      case Inform(ok, choice) => SocketLeaves(s.(asking := false), 0, choice, i);
      case Timeout(j, choice) => SocketLeaves(s.(alarms := s.alarms - {j}), 2007, choice, i);
      case Load(choice) => SocketLeaves(s.(loads := s.loads - 1, loaded := true), 0, choice, i);
      case DirectFrame(j, f) => ReceivedLeaves(s, i);
      case DirectClose(j, code, choice) => EmitCloseLeaves(s, j, code, choice, i);
      case LoadError(j, choice) => EmitCloseLeaves(LinkSet(s, j, CleanedUp(s.transports[j].link)), j, 1006, choice, i);
      case PageHandles(j, choice) => PageHandledLeaves(s, j, choice, i);
      case _ =>
    }
  }

  lemma OtherLinkLeaves(s: System, j: nat, m: Link, i: nat)
    requires LetGoOf(s, i) && IsFramed(s, j)
    requires j == i ==> !m.present && !m.watching && OwnStep(s.transports[i].link, m)
    ensures var u := LinkSet(s, j, m); LetGoOf(u, i) && OwnStep(s.transports[i].link, u.transports[i].link)
  {
    hide TimerRun, Handled;
  }

  /** No step sends to an iframe that has been let go: it only works off what it has. */
  lemma StepLeaves(s: System, step: Step, i: nat)
    requires LetGoOf(s, i) && Enabled(false, s, step)
    ensures var u := Next(s, step); LetGoOf(u, i) && OwnStep(s.transports[i].link, u.transports[i].link)
  {
    hide PageHandled, EmitClose, Connected, ClosedSocket, TransportClosed, Received, TimerRun, Handled, LinkSet;
    match step {
      case RunTimer(j) =>
        if j == i { TimerRunFields(s.transports[i].link); }
        OtherLinkLeaves(s, j, TimerRun(s.transports[j].link), i);
      case Boot(j) => OtherLinkLeaves(s, j, Booted(s.transports[j].link), i);
      case FrameHandles(j) =>
        if j == i { HandledFields(s.transports[i].link); }
        OtherLinkLeaves(s, j, Handled(s.transports[j].link), i);
      case FacadeFrame(j, f) => OtherLinkLeaves(s, j, Replied(s.transports[j].link, Forward(f)), i);
      case FacadeClose(j, code) => OtherLinkLeaves(s, j, Replied(s.transports[j].link, Gone(code)), i);
      case _ => PageStepLeaves(s, step, i);
    }
  }

  lemma TimerRunFields(l: Link)
    requires l.timers != []
    ensures TimerRun(l).present == l.present && TimerRun(l).watching == l.watching
  {
  }

  lemma HandledFields(l: Link)
    requires l.inbox != []
    ensures Handled(l).present == l.present && Handled(l).watching == l.watching
  {
  }

  // ---------- the facade gets everything, and is dropped ----------

  ghost predicate EndOf(q: seq<Command>, whole: seq<Command>) {
    |q| <= |whole| && whole[|whole| - |q|..] == q
  }

  /**
    The iframe works off what it was sent: nothing was added to `whole`; its facade got `accepted` up to what is
    left; and it is dropped with the 'c' at the end, if the element is not removed before.
   */
  ghost predicate Finishing(l: Link, whole: seq<Command>, accepted: seq<Text>) {
    && l.booted && l.accepted == accepted && l.given <= accepted
    && (!l.removed ==>
          && EndOf(Queue(l), whole) && accepted == l.given + Payloads(Queue(l)) && CloseIsLast(Queue(l))
          && if Queue(l) == [] then l.facade == Dropped else l.facade == Active && Queue(l)[|Queue(l)| - 1] == Close)
  }

  lemma ToldFinishes(before: Link, after: Link)
    requires Told(before, after) && LinkOk(before) && before.present && before.facade == Active
    ensures Finishing(after, Queue(before) + [Close], before.accepted)
  {
    ToldQueue(before, after);
    var q := Queue(before);
    PayloadsConcat(q, [Close]);
    assert Payloads([Close]) == Payloads([]);
    hide Queue, Payloads;
    assert EndOf(q + [Close], q + [Close]);
  }

  lemma TimerFinishes(l: Link, whole: seq<Command>, accepted: seq<Text>)
    requires Finishing(l, whole, accepted) && l.timers != []
    ensures Finishing(TimerRun(l), whole, accepted)
  {
    if !l.removed { QueueAfterTimer(l); }
    hide Queue, Payloads;
  }

  lemma HandlingFinishes(l: Link, whole: seq<Command>, accepted: seq<Text>)
    requires Finishing(l, whole, accepted) && l.inbox != [] && !l.removed
    ensures Finishing(Handled(l), whole, accepted)
  {
    hide Queue, Payloads, Handled, EndOf, CloseIsLast;
    var q, c := Queue(l), l.inbox[0];
    QueueAfterHandling(l);
    HandlingFields(l);
    CloseComesLast(q);
    RestIsEnd(q, whole);
    if c.Send? { GivenInOrder(l.given, c.data, Payloads(q[1..])); }
  }

  lemma CloseComesLast(q: seq<Command>)
    requires q != [] && q[|q| - 1] == Close && CloseIsLast(q)
    ensures CloseIsLast(q[1..]) && (q[0] == Close <==> q[1..] == [])
    ensures q[1..] != [] ==> q[1..][|q[1..]| - 1] == Close
  {
    assert forall k :: 0 <= k < |q| - 1 ==> q[1..][k] == q[k + 1];
  }

  lemma RestIsEnd(q: seq<Command>, whole: seq<Command>)
    requires EndOf(q, whole) && q != []
    ensures EndOf(q[1..], whole)
  {
    assert whole[|whole| - |q|..][1..] == whole[|whole| - |q| + 1..];
  }

  lemma OwnStepFinishes(l: Link, m: Link, whole: seq<Command>, accepted: seq<Text>)
    requires Finishing(l, whole, accepted) && OwnStep(l, m)
    ensures Finishing(m, whole, accepted)
  {
    if l.timers != [] && m == TimerRun(l) {
      TimerFinishes(l, whole, accepted);
    } else if l.inbox != [] && !l.removed && m == Handled(l) {
      HandlingFinishes(l, whole, accepted);
    } else {
      assert Queue(m) == Queue(l);
    }
  }

  lemma {:induction false} FinishingInEveryRun(
    bodyReady: bool, steps: seq<Step>, n: nat, i: nat, whole: seq<Command>, accepted: seq<Text>)
    requires n <= |steps| && After(bodyReady, steps).Some?
    requires After(bodyReady, steps[..n]).Some? ==>
      var s := After(bodyReady, steps[..n]).value;
      LetGoOf(s, i) && Finishing(s.transports[i].link, whole, accepted)
    ensures var t := After(bodyReady, steps).value;
      LetGoOf(t, i) && Finishing(t.transports[i].link, whole, accepted)
    decreases |steps|
  {
    hide Next, Enabled, Finishing, OwnStep;
    if n == |steps| {
      assert steps[..n] == steps;
    } else {
      var init, step := steps[..|steps| - 1], steps[|steps| - 1];
      assert init[..n] == steps[..n];
      FinishingInEveryRun(bodyReady, init, n, i, whole, accepted);
      var s := After(bodyReady, init).value;
      EnabledAnyway(bodyReady, s, step);
      StepLeaves(s, step, i);
      OwnStepFinishes(s.transports[i].link, Next(s, step).transports[i].link, whole, accepted);
    }
  }

  lemma CurrentIsUsed(s: System, i: nat)
    requires Inv(s) && s.current == Some(i) && IsFramed(s, i)
    ensures Uses(s, i) && LinkOk(s.transports[i].link)
    ensures s.ready == Open ==> s.transports[i].link.facade == Active
  {
  }

  /**
    When a connection over an iframe with an active facade closes, by the user or the server, the iframe is told 'c'
    after all else, and the element is removed after that. However the run goes on, nothing more is sent to the
    iframe, and once it has handled its queue its facade has got exactly what was sent, and is dropped.
   */
  lemma FacadeGetsAllThenIsDropped(bodyReady: bool, steps: seq<Step>, step: Step, more: seq<Step>, i: nat)
    requires Separate(bodyReady, steps) && After(bodyReady, steps + [step] + more).Some?
    requires After(bodyReady, steps).Some?
    requires var s := After(bodyReady, steps).value;
      && s.current == Some(i) && IsFramed(s, i) && s.transports[i].link.facade == Active && Closes(s, step, i)
    ensures After(bodyReady, steps + [step]).Some?
    ensures var before, closed, after := After(bodyReady, steps).value.transports[i],
                                         After(bodyReady, steps + [step]).value,
                                         After(bodyReady, steps + [step] + more).value;
      && closed.ready == Closing && closed.current == None && IsFramed(closed, i) && IsFramed(after, i)
      && Told(before.link, closed.transports[i].link)
      && Finishing(after.transports[i].link, Queue(before.link) + [Close], before.link.accepted)
  {
    var s, closing := After(bodyReady, steps).value, steps + [step];
    var whole := closing + more;
    assert whole[..|closing|] == closing && closing[..|steps|] == steps && closing[|steps|] == step;
    SomeBefore(bodyReady, whole, |closing|);
    InvInEveryRun(bodyReady, steps);
    CurrentIsUsed(s, i);
    hide Inv, Next, Enabled, Finishing, LinkOk, Told;
    EnabledAnyway(bodyReady, s, step);
    ClosingTells(s, step, i);
    ToldFinishes(s.transports[i].link, Next(s, step).transports[i].link);
    var l := s.transports[i].link;
    FinishingInEveryRun(bodyReady, whole, |closing|, i, Queue(l) + [Close], l.accepted);
  }

  lemma {:induction false} SomeBefore(bodyReady: bool, steps: seq<Step>, n: nat)
    requires n <= |steps| && After(bodyReady, steps).Some?
    ensures After(bodyReady, steps[..n]).Some?
    decreases |steps|
  {
    hide Next, Enabled;
    if n < |steps| {
      SomeBefore(bodyReady, steps[..|steps| - 1], n);
      assert steps[..|steps| - 1][..n] == steps[..n];
    } else {
      assert steps[..n] == steps;
    }
  }

  /** All timers but the last deliver messages, and the last removes the element. */
  ghost predicate RemovedLast(l: Link) {
    && l.timers != [] && l.timers[|l.timers| - 1] == Remove
    && forall k :: 0 <= k < |l.timers| - 1 ==> l.timers[k].Post?
  }

  function Work(l: Link): nat {
    2 * |l.timers| + |l.inbox|
  }

  /** The link after one more timer or one more message. */
  function WorkedOff(l: Link): Link
    requires RemovedLast(l) && (|l.timers| > 1 || l.inbox != [])
  {
    if |l.timers| > 1 then TimerRun(l) else Handled(l)
  }

  lemma WorksOff(l: Link)
    requires RemovedLast(l) && !l.removed && (|l.timers| > 1 || l.inbox != [])
    ensures var m := WorkedOff(l); RemovedLast(m) && !m.removed && Work(m) < Work(l)
  {
  }

  lemma WorkStep(s: System, i: nat) returns (step: Step)
    requires Indexed(s) && IsFramed(s, i)
    requires var l := s.transports[i].link; RemovedLast(l) && !l.removed && (|l.timers| > 1 || l.inbox != [])
    ensures forall bodyReady :: Enabled(bodyReady, s, step)
    ensures Next(s, step) == LinkSet(s, i, WorkedOff(s.transports[i].link))
  {
    step := if |s.transports[i].link.timers| > 1 then RunTimer(i) else FrameHandles(i);
    hide TimerRun, Handled;
  }

  lemma Extended(bodyReady: bool, steps: seq<Step>, s: System, step: Step)
    requires After(bodyReady, steps) == Some(s) && Indexed(s) && Enabled(bodyReady, s, step)
    ensures Enabled(false, s, step) && After(bodyReady, steps + [step]) == Some(Next(s, step))
  {
    assert (steps + [step])[..|steps|] == steps;
    EnabledAnyway(bodyReady, s, step);
    hide Next, Enabled;
  }

  /** Such a run exists: the iframe can handle its whole queue before its element is removed. */
  lemma {:induction false} QueueCanBeHandled(bodyReady: bool, steps: seq<Step>, s: System, i: nat)
    returns (more: seq<Step>, t: System)
    requires After(bodyReady, steps) == Some(s)
    requires IsFramed(s, i) && !s.transports[i].link.removed && RemovedLast(s.transports[i].link)
    ensures After(bodyReady, steps + more) == Some(t)
    ensures IsFramed(t, i) && !t.transports[i].link.removed && Queue(t.transports[i].link) == []
    decreases Work(s.transports[i].link)
  {
    hide After, Next, Enabled, RemovedLast, Queue, WorkedOff, Work;
    var l := s.transports[i].link;
    if |l.timers| > 1 || l.inbox != [] {
      var step := WorkStep(s, i);
      WorksOff(l);
      Extended(bodyReady, steps, s, step);
      more, t := QueueCanBeHandled(bodyReady, steps + [step], Next(s, step), i);
      assert steps + [step] + more == steps + ([step] + more);
      more := [step] + more;
    } else {
      more, t := [], s;
      assert steps + [] == steps;
      OnlyRemoval(l);
    }
  }

  lemma OnlyRemoval(l: Link)
    requires RemovedLast(l) && |l.timers| <= 1 && l.inbox == []
    ensures Queue(l) == []
  {
    assert l.timers == [Remove] && [Remove][1..] == [];
    assert Commands([Remove]) == Commands([]);
  }

  /** After the close the whole queue can still be handled: the iframe was whole, so its removal comes last. */
  lemma ToldIsRemovedLast(t: Transport, after: Link)
    requires t.Framed? && t.link.present && Whole(t) && Told(t.link, after)
    ensures RemovedLast(after) && !after.removed
  {
  }

  /** And so there is a run in which the facade gets everything and is dropped before the element goes. */
  lemma FacadeCanGetAll(bodyReady: bool, steps: seq<Step>, step: Step, i: nat) returns (more: seq<Step>)
    requires Separate(bodyReady, steps) && After(bodyReady, steps).Some?
    requires var s := After(bodyReady, steps).value;
      && Enabled(bodyReady, s, step) && s.current == Some(i) && IsFramed(s, i)
      && s.transports[i].link.facade == Active && Closes(s, step, i)
    ensures After(bodyReady, steps + [step] + more).Some?
    ensures var s, t := After(bodyReady, steps).value, After(bodyReady, steps + [step] + more).value;
      IsFramed(t, i) && !t.transports[i].link.removed && t.transports[i].link.facade == Dropped
      && t.transports[i].link.given == s.transports[i].link.accepted
  {
    var s := After(bodyReady, steps).value;
    InvInEveryRun(bodyReady, steps);
    CurrentIsUsed(s, i);
    WholeInEveryRun(bodyReady, steps);
    assert Whole(s.transports[i]);
    Extended(bodyReady, steps, s, step);
    hide Inv, After, Next, Enabled, Whole, Told, LinkOk, Queue;
    ClosingTells(s, step, i);
    ToldIsRemovedLast(s.transports[i], Next(s, step).transports[i].link);
    var t;
    more, t := QueueCanBeHandled(bodyReady, steps + [step], Next(s, step), i);
    FacadeGetsAllThenIsDropped(bodyReady, steps, step, more, i);
    assert Payloads([]) == [];
  }

  // ---------- the other ends of an iframe ----------

  lemma TransportsKept(s: System, code: int, choice: Choice, i: nat)
    requires Indexed(s) && IsFramed(s, i) && s.transports[i].attached && s.current == Some(i)
    ensures IsFramed(TransportClosed(s, code, choice), i)
    ensures TransportClosed(s, code, choice).transports[i].link == s.transports[i].link
    ensures TransportClosed(s, code, choice).current != Some(i)
  {
  }

  /** An iframe whose transport says that it is gone is told 'c' and removed as well. */
  lemma GoneIsTold(s: System, i: nat, choice: Choice, code: int)
    requires Indexed(s) && Uses(s, i) && s.transports[i].link.outbox != []
    requires s.transports[i].link.outbox[0] == Gone(code) && Enabled(false, s, PageHandles(i, choice))
    ensures var u := Next(s, PageHandles(i, choice));
      IsFramed(u, i) && LetGoOf(u, i) && Told(s.transports[i].link, u.transports[i].link)
  {
    hide TransportClosed, ClosedTransport, Told;
    var l := s.transports[i].link;
    var t := LinkSet(s, i, l.(outbox := l.outbox[1..]));
    TransportsKept(t, code, choice, i);
    ClosedTransportTells(TransportClosed(t, code, choice).transports[i], l);
    ToldIsLetGo(l, ClosedTransport(TransportClosed(t, code, choice).transports[i]).link);
  }

  lemma ToldIsLetGo(before: Link, after: Link)
    requires Told(before, after)
    ensures !after.present && !after.watching
  {
  }

  /** One that fails to load is let go too, and can fail to load only once. */
  lemma FailedIsLetGo(s: System, i: nat, choice: Choice)
    requires Indexed(s) && Uses(s, i) && Enabled(false, s, LoadError(i, choice))
    ensures var u := Next(s, LoadError(i, choice));
      && IsFramed(u, i) && LetGoOf(u, i)
      && u.transports[i].link.timers == s.transports[i].link.timers + [Remove, Post(Close), Remove]
  {
    hide TransportClosed;
    var l := s.transports[i].link;
    TransportsKept(LinkSet(s, i, CleanedUp(l)), 1006, choice, i);
    assert l.timers + [Remove] + [Post(Close)] + [Remove] == l.timers + [Remove, Post(Close), Remove];
  }

  /** An iframe that announces itself to a page that still holds it is told to start. */
  lemma AnnouncedIsStarted(s: System, i: nat, choice: Choice)
    requires Indexed(s) && IsFramed(s, i) && s.transports[i].link.present && s.transports[i].link.outbox != []
    requires s.transports[i].link.outbox[0] == Loaded && Enabled(false, s, PageHandles(i, choice))
    ensures var l := s.transports[i].link;
      Next(s, PageHandles(i, choice)) == s.(transports := s.transports[i := s.transports[i].(link :=
        l.(outbox := l.outbox[1..], watching := false, timers := l.timers + [Post(Start)]))])
  {
  }

  /** A timer delivers its message to an element that is there, or takes the element away. */
  lemma TimerMeans(s: System, i: nat)
    requires Indexed(s) && IsFramed(s, i) && s.transports[i].link.timers != [] && !s.transports[i].link.removed
    ensures var l, u := s.transports[i].link, Next(s, RunTimer(i));
      && IsFramed(u, i) && |u.transports| == |s.transports|
      && u.transports[i].link == match l.timers[0]
           case Remove => l.(timers := l.timers[1..], removed := true)
           case Post(c) => l.(timers := l.timers[1..], inbox := l.inbox + [c])
  {
  }

  /** The facade's frames and its close go to the page, in order. */
  lemma ReplyMeans(s: System, i: nat, f: Frame, code: int)
    requires Indexed(s) && Enabled(false, s, FacadeFrame(i, f))
    ensures var t, l := s.transports, s.transports[i].link;
      && Next(s, FacadeFrame(i, f))
         == s.(transports := t[i := t[i].(link := l.(outbox := l.outbox + [Forward(f)]))])
      && Enabled(false, s, FacadeClose(i, code))
      && Next(s, FacadeClose(i, code))
         == s.(transports := t[i := t[i].(link := l.(outbox := l.outbox + [Gone(code)]))])
  {
  }

  /** The script takes messages in order: 's' makes the facade if the versions agree, 'm' goes to it, 'c' drops it. */
  lemma HandleMeans(s: System, i: nat)
    requires Indexed(s) && Enabled(false, s, FrameHandles(i)) && s.transports[i].link.booted
    ensures var t, l := s.transports, s.transports[i].link;
      var rest := l.(inbox := l.inbox[1..]);
      Next(s, FrameHandles(i)) == s.(transports := t[i := t[i].(link :=
        match l.inbox[0]
        case Start => if l.compatible then rest.(facade := Active) else rest
        case Send(data) => if l.facade == Active then rest.(given := l.given + [data]) else rest
        case Close => rest.(facade := Dropped))])
  {
  }
}
