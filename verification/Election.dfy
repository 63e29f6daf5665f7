/**
  The ticket-based master election of the user service (`user/node/node.go`): every node
  keeps a local ticket, and all nodes share one stored record.
 */
module Election {
  import opened Wrappers

  const INTERVAL := 6

  datatype Master = Master(id: string, ticket: int)

  /** The package variables of one node. */
  datatype Local = Local(ticket: int, rate: int, masterid: string)

  const FRESH := Local(0, 1, "-")

  /** What a tick does besides reading: the random number it draws, and whether its save succeeds. */
  datatype Draw = Draw(random: int, saves: bool)

  predicate ValidDraw(d: Draw) { 100 <= d.random < 1000 }

  /** The record one tick of node `id` saves, if it tries to save one. */
  function Saved(id: string, l: Local, record: Option<Master>, d: Draw): Option<Master> {
    match record
    case None => Some(Master(id, l.ticket + d.random))
    case Some(master) =>
      if master.id == id then Some(Master(id, master.ticket + INTERVAL))
      else if master.ticket < l.ticket then Some(Master(id, l.ticket + d.random))
      else None
  }

  /** The record after the tick. */
  function NextRecord(id: string, l: Local, record: Option<Master>, d: Draw): Option<Master> {
    var saved := Saved(id, l, record, d);
    if saved.Some? && d.saves then saved else record
  }

  /** The node's variables after the tick. */
  function NextLocal(id: string, l: Local, record: Option<Master>, d: Draw): Local {
    match record
    case None => l.(rate := 1)
    case Some(master) =>
      if master.id == id then
        if d.saves then l.(rate := 1, ticket := master.ticket + INTERVAL + 1) else l.(rate := 1)
      else if master.ticket < l.ticket then
        if d.saves then l.(rate := 1, ticket := l.ticket + d.random + 1) else l.(rate := 2)
      else Local(master.ticket + 1, 2, master.id)
  }

  // ---------- the node ----------

  class Store {
    var record: Option<Master>

    constructor ()
      ensures record == None
    {
      record := None;
    }

    /** `SaveMasterInfo`: false when the store refuses the write. */
    method SaveMasterInfo(master: Master, saves: bool) returns (ok: bool)
      modifies this
      ensures ok == saves && record == if saves then Some(master) else old(record)
    {
      if saves { record := Some(master); }
      return saves;
    }
  }

  class Node {
    const id: string
    var ticket: int
    var rate: int
    var masterid: string

    constructor (id: string)
      ensures this.id == id && Now() == FRESH
    {
      this.id := id;
      ticket, rate, masterid := 0, 1, "-";
    }

    ghost function Now(): Local
      reads this
    {
      Local(ticket, rate, masterid)
    }

    /** `SetMaster`: claims the record without touching the local ticket. */
    method SetMaster(store: Store, d: Draw)
      modifies store
      ensures store.record == if d.saves then Some(Master(id, ticket + d.random)) else old(store.record)
    {
      var ok := store.SaveMasterInfo(Master(id, ticket + d.random), d.saves);
    }

    /** `update_ticket`, one atomic tick. */
    method UpdateTicket(store: Store, d: Draw)
      modifies this, store
      ensures Now() == NextLocal(id, old(Now()), old(store.record), d)
      ensures store.record == NextRecord(id, old(Now()), old(store.record), d)
    {
      if store.record.None? {
        SetMaster(store, d);
        rate := 1;
        return;
      }
      var master := store.record.value;
      if master.id == id {
        rate := 1;
        master := master.(ticket := master.ticket + INTERVAL);
        var ok := store.SaveMasterInfo(master, d.saves);
        if ok { ticket := master.ticket + 1; }
      } else if master.ticket < ticket {
        master := Master(id, ticket + d.random);
        var ok := store.SaveMasterInfo(master, d.saves);
        if ok {
          rate := 1;
          ticket := master.ticket + 1;
        } else {
          rate := 2;
        }
      } else {
        rate := 2;
        masterid := master.id;
        ticket := master.ticket + 1;
      }
    }
  }

  // ---------- runs ----------

  /**
    All nodes that have ticked, and the record. `writes` counts the saves that went
    through; `seen` holds, for each node, that count when it last set its local ticket.
   */
  datatype System = System(locals: map<string, Local>, record: Option<Master>, writes: nat, seen: map<string, nat>)

  datatype Tick = Tick(node: string, draw: Draw)

  function LocalOf(s: System, n: string): Local {
    if n in s.locals then s.locals[n] else FRESH
  }

  function SeenBy(s: System, n: string): nat {
    if n in s.seen then s.seen[n] else 0
  }

  predicate Writes(s: System, t: Tick) {
    Saved(t.node, LocalOf(s, t.node), s.record, t.draw).Some? && t.draw.saves
  }

  /** The tick assigns the local ticket. */
  predicate SetsTicket(s: System, t: Tick) {
    s.record.Some?
    && (Saved(t.node, LocalOf(s, t.node), s.record, t.draw).None? || t.draw.saves)
  }

  function Step(s: System, t: Tick): System {
    var l := LocalOf(s, t.node);
    var writes := s.writes + if Writes(s, t) then 1 else 0;
    System(s.locals[t.node := NextLocal(t.node, l, s.record, t.draw)],
           NextRecord(t.node, l, s.record, t.draw),
           writes,
           if SetsTicket(s, t) then s.seen[t.node := writes] else s.seen)
  }

  /** The system after a run of ticks from the empty store. */
  function After(ticks: seq<Tick>): System {
    if ticks == [] then System(map[], None, 0, map[])
    else Step(After(ticks[..|ticks| - 1]), ticks[|ticks| - 1])
  }

  ghost predicate ValidRun(ticks: seq<Tick>) {
    forall k :: 0 <= k < |ticks| ==> ValidDraw(ticks[k].draw)
  }

  // ---------- tickets ----------

  /** No local ticket is ahead of the record by more than one, and one ahead means nobody wrote since. */
  ghost predicate TicketsBounded(s: System) {
    match s.record
    case None => s.writes == 0 && forall n :: LocalOf(s, n).ticket == 0
    case Some(master) =>
      && master.ticket >= 100
      && forall n :: LocalOf(s, n).ticket <= master.ticket + 1
                  && (LocalOf(s, n).ticket > master.ticket ==> SeenBy(s, n) == s.writes)
  }

  lemma StepLocals(s: System, t: Tick, n: string)
    ensures LocalOf(Step(s, t), n)
         == if n == t.node then NextLocal(n, LocalOf(s, n), s.record, t.draw) else LocalOf(s, n)
  {
  }

  lemma TicketsStayBounded(s: System, t: Tick)
    requires TicketsBounded(s) && ValidDraw(t.draw)
    ensures TicketsBounded(Step(s, t))
    ensures s.record.Some? && Writes(s, t) ==> Step(s, t).record.value.ticket > s.record.value.ticket
  {
    var u := Step(s, t);
    forall n
      ensures LocalOf(u, n) == if n == t.node then NextLocal(n, LocalOf(s, n), s.record, t.draw) else LocalOf(s, n)
    {
      StepLocals(s, t, n);
    }
  }

  /** In every run: every write raises the stored ticket, and the record never goes away. */
  lemma {:induction false} TicketsInEveryRun(ticks: seq<Tick>)
    requires ValidRun(ticks)
    ensures TicketsBounded(After(ticks))
    decreases |ticks|
  {
    if ticks != [] {
      var init := ticks[..|ticks| - 1];
      TicketsInEveryRun(init);
      TicketsStayBounded(After(init), ticks[|ticks| - 1]);
    }
  }

  lemma WritesRaiseTicket(ticks: seq<Tick>, t: Tick)
    requires ValidRun(ticks) && ValidDraw(t.draw)
    ensures var before, after := After(ticks).record, After(ticks + [t]).record;
      && (before.Some? ==> after.Some? && after.value.ticket >= before.value.ticket)
      && (before.Some? && Writes(After(ticks), t) ==> after.value.ticket > before.value.ticket)
      && (!Writes(After(ticks), t) ==> after == before)
  {
    TicketsInEveryRun(ticks);
    TicketsStayBounded(After(ticks), t);
    assert (ticks + [t])[..|ticks|] == ticks;
  }

  /** A node takes the record over only if nobody wrote it since the node last set its ticket. */
  lemma TakeOverMeansSilence(ticks: seq<Tick>, t: Tick)
    requires ValidRun(ticks) && ValidDraw(t.draw)
    ensures var s := After(ticks);
      s.record.Some? && s.record.value.id != t.node && Writes(s, t) ==>
        SeenBy(s, t.node) == s.writes && LocalOf(s, t.node).ticket == s.record.value.ticket + 1
  {
    TicketsInEveryRun(ticks);
  }

  /** What one tick does to the record: a claim, six more, a random step, or nothing. */
  lemma RecordMeans(s: System, t: Tick)
    ensures var l, u := LocalOf(s, t.node), Step(s, t);
      match s.record
      case None => u.record == if t.draw.saves then Some(Master(t.node, l.ticket + t.draw.random)) else None
      case Some(m) =>
        if !t.draw.saves then u.record == s.record
        else if m.id == t.node then u.record == Some(Master(t.node, m.ticket + 6))
        else if l.ticket > m.ticket then u.record == Some(Master(t.node, l.ticket + t.draw.random))
        else u.record == s.record
  {
  }

  /**
    And to the node: its ticket is one more than the record's, unless it has claimed a missing record or a
    save of its own has failed; it sleeps for two intervals exactly when it is not master and has not just become it.
   */
  lemma LocalMeans(s: System, t: Tick)
    ensures var l, u := LocalOf(s, t.node), Step(s, t);
      var after := LocalOf(u, t.node);
      match s.record
      case None => after == l.(rate := 1)
      case Some(m) =>
        if m.id != t.node && l.ticket <= m.ticket then
          after == Local(m.ticket + 1, 2, m.id) && u.record == s.record
        else if t.draw.saves then
          u.record.Some? && after == l.(rate := 1, ticket := u.record.value.ticket + 1)
        else after == l.(rate := if m.id == t.node then 1 else 2)
    ensures forall n :: n != t.node ==> LocalOf(Step(s, t), n) == LocalOf(s, n)
  {
  }

  /** A tick that sets the local ticket makes it one more than the record's, and no other tick changes it. */
  lemma SetsTicketMeans(s: System, t: Tick)
    ensures var before, after, u := LocalOf(s, t.node).ticket, LocalOf(Step(s, t), t.node).ticket, Step(s, t);
      if SetsTicket(s, t) then u.record.Some? && after == u.record.value.ticket + 1 else after == before
  {
  }

  /** Tick `i` is the last at which node `n` set its local ticket. */
  ghost predicate LastSet(ticks: seq<Tick>, n: string, i: nat) {
    && i < |ticks| && ticks[i].node == n && SetsTicket(After(ticks[..i]), ticks[i])
    && forall k :: i < k < |ticks| ==> !(ticks[k].node == n && SetsTicket(After(ticks[..k]), ticks[k]))
  }

  /** Nobody has written the record after tick `i`. */
  ghost predicate SilenceSince(ticks: seq<Tick>, i: nat) {
    forall k :: i < k < |ticks| ==> !Writes(After(ticks[..k]), ticks[k])
  }

  lemma SeenStep(s: System, t: Tick, n: string)
    ensures var u := Step(s, t);
      && SeenBy(u, n) == (if t.node == n && SetsTicket(s, t) then u.writes else SeenBy(s, n))
      && u.writes == s.writes + if Writes(s, t) then 1 else 0
  {
  }

  lemma StillLast(ticks: seq<Tick>, n: string, i: nat)
    requires ticks != []
    requires var init, t := ticks[..|ticks| - 1], ticks[|ticks| - 1];
      && LastSet(init, n, i) && SilenceSince(init, i)
      && !(t.node == n && SetsTicket(After(init), t)) && !Writes(After(init), t)
    ensures LastSet(ticks, n, i) && SilenceSince(ticks, i)
  {
    hide After, Writes, SetsTicket;
    var init := ticks[..|ticks| - 1];
    assert forall k :: 0 <= k < |init| ==> init[..k] == ticks[..k] && init[k] == ticks[k];
  }

  lemma {:induction false} SeenMeans(ticks: seq<Tick>, n: string)
    ensures SeenBy(After(ticks), n) <= After(ticks).writes
    ensures SeenBy(After(ticks), n) == After(ticks).writes && After(ticks).writes > 0 ==>
      exists i :: LastSet(ticks, n, i) && SilenceSince(ticks, i)
    decreases |ticks|
  {
    hide Step, Writes, SetsTicket, SeenBy, LastSet, SilenceSince;
    if ticks == [] {
      NothingSeen(n);
    } else {
      var init, t := ticks[..|ticks| - 1], ticks[|ticks| - 1];
      SeenMeans(init, n);
      SeenStep(After(init), t, n);
      if t.node == n && SetsTicket(After(init), t) {
        JustSet(ticks);
      } else if SeenBy(After(ticks), n) == After(ticks).writes && After(ticks).writes > 0 {
        var i :| LastSet(init, n, i) && SilenceSince(init, i);
        StillLast(ticks, n, i);
      }
    }
  }

  lemma NothingSeen(n: string)
    ensures SeenBy(After([]), n) == 0 && After([]).writes == 0
  {
  }

  lemma JustSet(ticks: seq<Tick>)
    requires ticks != []
    requires SetsTicket(After(ticks[..|ticks| - 1]), ticks[|ticks| - 1])
    ensures LastSet(ticks, ticks[|ticks| - 1].node, |ticks| - 1) && SilenceSince(ticks, |ticks| - 1)
  {
  }

  /** A node takes the record over only if nobody has written it since the node last set its ticket. */
  lemma TakeOverMeansNobodyWrote(ticks: seq<Tick>, t: Tick)
    requires ValidRun(ticks) && ValidDraw(t.draw)
    requires After(ticks).record.Some? && After(ticks).record.value.id != t.node && Writes(After(ticks), t)
    ensures exists i :: LastSet(ticks, t.node, i) && SilenceSince(ticks, i)
  {
    TakeOverMeansSilence(ticks, t);
    SeenMeans(ticks, t.node);
    SomebodyWrote(ticks);
  }

  lemma {:induction false} SomebodyWrote(ticks: seq<Tick>)
    ensures After(ticks).record.Some? ==> After(ticks).writes > 0
    decreases |ticks|
  {
    if ticks != [] { SomebodyWrote(ticks[..|ticks| - 1]); }
  }

  // ---------- a master that keeps ticking ----------

  /** After tick `c`, master `m` completes a tick between any two ticks of each other node. */
  ghost predicate Attended(ticks: seq<Tick>, c: nat, m: string) {
    forall i, j :: c < i < j < |ticks| && ticks[i].node == ticks[j].node != m ==>
      exists k :: i < k < j && ticks[k].node == m && ticks[k].draw.saves
  }

  /** Node `n` ticked at `i`, and the master has completed no tick since. */
  ghost predicate TickedSince(ticks: seq<Tick>, c: nat, m: string, n: string, i: nat) {
    && c < i < |ticks| && ticks[i].node == n
    && forall k :: i < k < |ticks| ==> !(ticks[k].node == m && ticks[k].draw.saves)
  }

  /** `m` holds the record, and whoever is ahead of it has ticked since its last write. */
  ghost predicate Held(ticks: seq<Tick>, c: nat, m: string) {
    var s := After(ticks);
    && s.record.Some? && s.record.value.id == m
    && forall n :: n != m && LocalOf(s, n).ticket > s.record.value.ticket ==>
         exists i :: TickedSince(ticks, c, m, n, i)
  }

  lemma WriterIsMaster(s: System, t: Tick)
    requires Writes(s, t)
    ensures Step(s, t).record.Some? && Step(s, t).record.value.id == t.node
  {
  }

  /** Right after a write nobody else is ahead of the record. */
  lemma NobodyAhead(s: System, t: Tick, n: string)
    requires TicketsBounded(s) && ValidDraw(t.draw) && Writes(s, t) && n != t.node
    ensures Step(s, t).record.Some?
    ensures LocalOf(Step(s, t), n).ticket <= Step(s, t).record.value.ticket
  {
    StepLocals(s, t, n);
  }

  lemma TickedStill(ticks: seq<Tick>, c: nat, m: string, n: string, i: nat)
    requires ticks != [] && TickedSince(ticks[..|ticks| - 1], c, m, n, i)
    requires !(ticks[|ticks| - 1].node == m && ticks[|ticks| - 1].draw.saves)
    ensures TickedSince(ticks, c, m, n, i)
  {
    var init := ticks[..|ticks| - 1];
    assert forall k :: i <= k < |init| ==> init[k] == ticks[k];
  }

  /** Between a follower's tick at `i` and its next one the master completes a tick. */
  lemma AttendedBy(ticks: seq<Tick>, c: nat, m: string, i: nat) returns (k: nat)
    requires c < i < |ticks| - 1 && Attended(ticks, c, m)
    requires ticks[i].node == ticks[|ticks| - 1].node != m
    ensures i < k < |ticks| - 1 && ticks[k].node == m && ticks[k].draw.saves
  {
    k :| i < k < |ticks| - 1 && ticks[k].node == m && ticks[k].draw.saves;
  }

  /** A follower whose ticket is ahead would have had to tick unattended. */
  lemma FollowerIsNotAhead(ticks: seq<Tick>, c: nat, m: string)
    requires c + 1 < |ticks| && Attended(ticks, c, m) && ticks[|ticks| - 1].node != m
    requires Held(ticks[..|ticks| - 1], c, m)
    ensures var s := After(ticks[..|ticks| - 1]);
      LocalOf(s, ticks[|ticks| - 1].node).ticket <= s.record.value.ticket
  {
    hide After, LocalOf, Attended;
    var init, n := ticks[..|ticks| - 1], ticks[|ticks| - 1].node;
    forall i: nat ensures !TickedSince(init, c, m, n, i) {
      if c < i < |init| && init[i].node == n {
        var k := AttendedBy(ticks, c, m, i);
        assert init[k] == ticks[k];
      }
    }
  }

  lemma HeldStep(ticks: seq<Tick>, c: nat, m: string)
    requires ValidRun(ticks) && c + 1 < |ticks| && Attended(ticks, c, m)
    requires Held(ticks[..|ticks| - 1], c, m)
    ensures Held(ticks, c, m)
  {
    var init, t := ticks[..|ticks| - 1], ticks[|ticks| - 1];
    var s := After(init);
    TicketsInEveryRun(init);
    assert After(ticks) == Step(s, t);
    hide After, Attended, TickedSince, LocalOf;
    if t.node == m && t.draw.saves {
      WriterIsMaster(s, t);
      forall n | n != m ensures LocalOf(After(ticks), n).ticket <= After(ticks).record.value.ticket {
        NobodyAhead(s, t, n);
      }
    } else {
      if t.node != m { FollowerIsNotAhead(ticks, c, m); }
      assert After(ticks).record == s.record;
      forall n | n != m && LocalOf(After(ticks), n).ticket > After(ticks).record.value.ticket
        ensures exists i :: TickedSince(ticks, c, m, n, i)
      {
        StepLocals(s, t, n);
        if n == t.node {
          assert TickedSince(ticks, c, m, n, |ticks| - 1) by { JustTicked(ticks, c, m); }
        } else {
          var i :| TickedSince(init, c, m, n, i);
          TickedStill(ticks, c, m, n, i);
        }
      }
    }
  }

  lemma JustTicked(ticks: seq<Tick>, c: nat, m: string)
    requires c + 1 < |ticks|
    ensures TickedSince(ticks, c, m, ticks[|ticks| - 1].node, |ticks| - 1)
  {
  }

  lemma {:induction false} HeldAfterWrite(ticks: seq<Tick>, c: nat, m: string)
    requires ValidRun(ticks) && c < |ticks|
    requires ticks[c].node == m && Writes(After(ticks[..c]), ticks[c])
    requires Attended(ticks, c, m)
    ensures Held(ticks, c, m)
    decreases |ticks|
  {
    var init, t := ticks[..|ticks| - 1], ticks[|ticks| - 1];
    if c + 1 == |ticks| {
      assert init == ticks[..c];
      TicketsInEveryRun(init);
      hide LocalOf, Attended, TickedSince;
      assert After(ticks) == Step(After(init), t);
      hide After, Step;
      WriterIsMaster(After(init), t);
      forall n | n != m ensures LocalOf(After(ticks), n).ticket <= After(ticks).record.value.ticket {
        NobodyAhead(After(init), t, n);
      }
    } else {
      assert init[..c] == ticks[..c];
      AttendedPrefix(ticks, c, m, |ticks| - 1);
      HeldAfterWrite(init, c, m);
      HeldStep(ticks, c, m);
    }
  }

  lemma AttendedPrefix(ticks: seq<Tick>, c: nat, m: string, n: nat)
    requires n <= |ticks| && Attended(ticks, c, m)
    ensures Attended(ticks[..n], c, m)
  {
    var init := ticks[..n];
    forall i, j | c < i < j < |init| && init[i].node == init[j].node != m
      ensures exists k :: i < k < j && init[k].node == m && init[k].draw.saves
    {
      assert ticks[i] == init[i] && ticks[j] == init[j];
      var k :| i < k < j && ticks[k].node == m && ticks[k].draw.saves;
      assert init[k] == ticks[k];
    }
  }

  /**
    Once `m` has written the record, it stays master for as long as it completes a tick
    between any two consecutive ticks of each other node.
   */
  lemma AttendingMasterStays(ticks: seq<Tick>, c: nat, m: string)
    requires ValidRun(ticks) && c < |ticks|
    requires ticks[c].node == m && Writes(After(ticks[..c]), ticks[c])
    requires Attended(ticks, c, m)
    ensures After(ticks).record.Some? && After(ticks).record.value.id == m
  {
    HeldAfterWrite(ticks, c, m);
  }

  // ---------- pauses ----------

  /** The seconds the node of tick `i` sleeps after it. */
  function Pause(ticks: seq<Tick>, i: nat): real
    requires i < |ticks|
  {
    (INTERVAL * LocalOf(After(ticks[..i + 1]), ticks[i].node).rate) as real
  }

  /** `times` says when the ticks happen; a node sleeps for its pause before it ticks again. */
  ghost predicate Timed(ticks: seq<Tick>, times: seq<real>) {
    && |times| == |ticks|
    && (forall i, j :: 0 <= i <= j < |ticks| ==> times[i] <= times[j])
    && forall i, j :: 0 <= i < j < |ticks| && ticks[i].node == ticks[j].node ==> times[j] >= times[i] + Pause(ticks, i)
  }

  /** From tick `c` on, whenever a tick comes more than `late` after `n` was due, `n` has ticked before it. */
  ghost predicate Punctual(ticks: seq<Tick>, times: seq<real>, c: nat, n: string, late: real)
    requires |times| == |ticks|
  {
    forall p, j :: c <= p < j < |ticks| && ticks[p].node == n && times[j] > times[p] + Pause(ticks, p) + late ==>
      exists k :: p < k < j && ticks[k].node == n
  }

  /** `m` writes the record at tick `c`, and its saves succeed from then on. */
  ghost predicate SavesFrom(ticks: seq<Tick>, c: nat, m: string) {
    && c < |ticks| && ticks[c].node == m && Writes(After(ticks[..c]), ticks[c])
    && forall k :: c <= k < |ticks| && ticks[k].node == m ==> ticks[k].draw.saves
  }

  /** A run in which `m` becomes master at tick `c` and is never more than `late` late. */
  ghost predicate TimelyRun(ticks: seq<Tick>, times: seq<real>, c: nat, m: string, late: real) {
    ValidRun(ticks) && Timed(ticks, times) && SavesFrom(ticks, c, m) && Punctual(ticks, times, c, m, late)
  }

  lemma AfterTick(ticks: seq<Tick>, i: nat)
    requires i < |ticks|
    ensures After(ticks[..i + 1]) == Step(After(ticks[..i]), ticks[i])
  {
    assert ticks[..i + 1][..i] == ticks[..i];
  }

  /** A node that writes, or finds the record its own, ticks again after one interval. */
  lemma MasterRate(s: System, t: Tick)
    requires Writes(s, t) || (s.record.Some? && s.record.value.id == t.node)
    ensures LocalOf(Step(s, t), t.node).rate == 1
  {
  }

  /** A node that is not ahead of another's record ticks again after two. */
  lemma FollowerRate(s: System, t: Tick)
    requires s.record.Some? && s.record.value.id != t.node && LocalOf(s, t.node).ticket <= s.record.value.ticket
    ensures LocalOf(Step(s, t), t.node).rate == 2
  {
  }

  /** The last tick of `n` from `c` up to `i`. */
  lemma {:induction false} LastTick(ticks: seq<Tick>, c: nat, n: string, i: nat) returns (p: nat)
    requires c <= i < |ticks| && ticks[c].node == n
    ensures c <= p <= i && ticks[p].node == n && forall k :: p < k <= i ==> ticks[k].node != n
    decreases i
  {
    p := i;
    if ticks[i].node != n { p := LastTick(ticks, c, n, i - 1); }
  }

  lemma HeldAt(ticks: seq<Tick>, c: nat, m: string, i: nat)
    requires ValidRun(ticks) && SavesFrom(ticks, c, m) && c < i <= |ticks| && Attended(ticks[..i], c, m)
    ensures Held(ticks[..i], c, m)
  {
    assert ticks[..i][..c] == ticks[..c];
    assert ticks[..i][c] == ticks[c];
    HeldAfterWrite(ticks[..i], c, m);
  }

  /** While `m` is attending, it sleeps for one interval. */
  lemma MasterPause(ticks: seq<Tick>, c: nat, m: string, p: nat)
    requires ValidRun(ticks) && SavesFrom(ticks, c, m) && c <= p < |ticks| && ticks[p].node == m
    requires Attended(ticks[..p], c, m)
    ensures Pause(ticks, p) == 6.0
  {
    if c < p { HeldAt(ticks, c, m, p); }
    hide After, Step, Attended, Writes, LocalOf;
    MasterRate(After(ticks[..p]), ticks[p]);
    AfterTick(ticks, p);
  }

  /** While `m` is attending, the others sleep for two. */
  lemma FollowersPause(ticks: seq<Tick>, c: nat, m: string, i: nat)
    requires ValidRun(ticks) && SavesFrom(ticks, c, m) && c < i < |ticks| && ticks[i].node != m
    requires Attended(ticks[..i + 1], c, m)
    ensures Pause(ticks, i) == 12.0
  {
    var upto := ticks[..i + 1];
    assert upto[..i] == ticks[..i];
    AttendedPrefix(upto, c, m, i);
    HeldAt(ticks, c, m, i);
    hide After, Step, Attended, Writes, LocalOf, SavesFrom;
    FollowerIsNotAhead(upto, c, m);
    FollowerRate(After(ticks[..i]), ticks[i]);
    AfterTick(ticks, i);
  }

  /** Within the two intervals between two ticks of a follower the master ticks, if it is less than one late. */
  lemma MasterBetween(ticks: seq<Tick>, times: seq<real>, c: nat, m: string, late: real, i: nat, j: nat)
    returns (k: nat)
    requires TimelyRun(ticks, times, c, m, late) && late < 6.0
    requires c < i < j < |ticks| && ticks[i].node == ticks[j].node != m && Attended(ticks[..j], c, m)
    ensures i < k < j && ticks[k].node == m && ticks[k].draw.saves
  {
    var p := LastTick(ticks, c, m, i);
    assert ticks[..j][..p] == ticks[..p] && ticks[..j][..i + 1] == ticks[..i + 1];
    AttendedPrefix(ticks[..j], c, m, p);
    AttendedPrefix(ticks[..j], c, m, i + 1);
    hide Attended, Pause;
    MasterPause(ticks, c, m, p);
    FollowersPause(ticks, c, m, i);
    assert times[j] >= times[i] + Pause(ticks, i) && times[p] <= times[i];
    k :| p < k < j && ticks[k].node == m;
  }

  /** The sleeping times make the master attend. */
  lemma {:induction false} TimelyMasterAttends(
    ticks: seq<Tick>, times: seq<real>, c: nat, m: string, late: real, n: nat)
    requires TimelyRun(ticks, times, c, m, late) && late < 6.0 && n <= |ticks|
    ensures Attended(ticks[..n], c, m)
    decreases n
  {
    hide TimelyRun;
    if n > 0 {
      TimelyMasterAttends(ticks, times, c, m, late, n - 1);
      var upto := ticks[..n];
      forall i, j | c < i < j < n && upto[i].node == upto[j].node != m
        ensures exists k :: i < k < j && upto[k].node == m && upto[k].draw.saves
      {
        assert ticks[..n - 1][..j] == ticks[..j];
        AttendedPrefix(ticks[..n - 1], c, m, j);
        var k := MasterBetween(ticks, times, c, m, late, i, j);
        assert upto[k] == ticks[k];
      }
    }
  }

  lemma TimelyMasterStays(ticks: seq<Tick>, times: seq<real>, c: nat, m: string, late: real)
    requires TimelyRun(ticks, times, c, m, late) && late < 6.0
    ensures After(ticks).record.Some? && After(ticks).record.value.id == m
  {
    TimelyMasterAttends(ticks, times, c, m, late, |ticks|);
    assert ticks[..|ticks|] == ticks;
    AttendingMasterStays(ticks, c, m);
  }

  const LATE_RUN: seq<Tick> := [Tick("m", Draw(100, true)), Tick("f", Draw(100, true)), Tick("f", Draw(100, true))]
  const LATE_TIMES: seq<real> := [0.0, 0.0, 12.0]

  lemma LateRunStates()
    ensures After(LATE_RUN[..0]) == System(map[], None, 0, map[])
    ensures After(LATE_RUN[..1]).record == Some(Master("m", 100)) && LocalOf(After(LATE_RUN[..1]), "m").rate == 1
    ensures After(LATE_RUN[..2]).record == Some(Master("m", 100))
    ensures LocalOf(After(LATE_RUN[..2]), "f") == Local(101, 2, "m")
    ensures After(LATE_RUN).record == Some(Master("f", 201))
  {
    assert LATE_RUN[..0] == [] && LATE_RUN[..3] == LATE_RUN;
    assert After(LATE_RUN[..0]) == System(map[], None, 0, map[]);
    hide After;
    AfterTick(LATE_RUN, 0);
    assert LocalOf(After(LATE_RUN[..1]), "f") == FRESH;
    AfterTick(LATE_RUN, 1);
    AfterTick(LATE_RUN, 2);
  }

  /** A master that is six seconds late, and a follower that ticks just before it. */
  lemma LateMasterIsReplaced(late: real)
    requires late >= 6.0
    ensures TimelyRun(LATE_RUN, LATE_TIMES, 0, "m", late)
    ensures After(LATE_RUN).record == Some(Master("f", 201))
  {
    LateRunStates();
    hide After, LocalOf;
    assert LATE_RUN[..0] == [];
    assert Pause(LATE_RUN, 0) == 6.0 && Pause(LATE_RUN, 1) == 12.0;
    assert Writes(After(LATE_RUN[..0]), LATE_RUN[0]);
  }

  /** Six seconds is the bound: below it every run keeps the master, from it on some run does not. */
  lemma MasterStaysExactlyWhenTimely(late: real)
    ensures late < 6.0 <==>
      forall ticks, times, c, m :: TimelyRun(ticks, times, c, m, late) ==>
        After(ticks).record.Some? && After(ticks).record.value.id == m
  {
    if late < 6.0 {
      forall ticks, times, c, m | TimelyRun(ticks, times, c, m, late)
        ensures After(ticks).record.Some? && After(ticks).record.value.id == m
      {
        TimelyMasterStays(ticks, times, c, m, late);
      }
    } else {
      LateMasterIsReplaced(late);
    }
  }

  // ---------- a master that stops ----------

  /** From tick `c` on, `m` is silent and every save succeeds. */
  ghost predicate Silent(ticks: seq<Tick>, c: nat, m: string) {
    forall k :: c <= k < |ticks| ==> ticks[k].node != m && ticks[k].draw.saves
  }

  /** As long as the silent master holds the record, whoever ticked is ahead of it, and ticked once. */
  ghost predicate Overtaking(ticks: seq<Tick>, c: nat, m: string, s: System) {
    && s.record.Some?
    && (s.record.value.id == m ==>
          && (forall k :: c <= k < |ticks| ==> LocalOf(s, ticks[k].node).ticket > s.record.value.ticket)
          && (forall i, j :: c <= i < j < |ticks| ==> ticks[i].node != ticks[j].node))
  }

  /** A follower takes the record over when its ticket is ahead, and else gets ahead. */
  lemma FollowerTick(s: System, t: Tick, m: string)
    requires s.record.Some? && m != t.node && t.draw.saves
    ensures Step(s, t).record.Some?
    ensures s.record.value.id != m ==> Step(s, t).record.value.id != m
    ensures Step(s, t).record.value.id == m ==>
      && Step(s, t).record == s.record
      && LocalOf(s, t.node).ticket <= s.record.value.ticket < LocalOf(Step(s, t), t.node).ticket
  {
  }

  lemma OvertakingStep(ticks: seq<Tick>, c: nat, m: string, s: System)
    requires c < |ticks| && Silent(ticks, c, m) && Overtaking(ticks[..|ticks| - 1], c, m, s)
    ensures Overtaking(ticks, c, m, Step(s, ticks[|ticks| - 1]))
  {
    hide Step, LocalOf;
    var init, t := ticks[..|ticks| - 1], ticks[|ticks| - 1];
    var u := Step(s, t);
    FollowerTick(s, t, m);
    if u.record.value.id == m {
      assert forall k :: c <= k < |init| ==> init[k] == ticks[k];
      forall k | c <= k < |ticks| ensures LocalOf(u, ticks[k].node).ticket > u.record.value.ticket {
        StepLocals(s, t, ticks[k].node);
      }
    }
  }

  lemma {:induction false} OvertakingInEveryRun(ticks: seq<Tick>, c: nat, m: string)
    requires c <= |ticks| && Silent(ticks, c, m) && After(ticks[..c]).record.Some?
    ensures Overtaking(ticks, c, m, After(ticks))
    decreases |ticks|
  {
    hide Step, LocalOf;
    if c == |ticks| {
      assert ticks[..c] == ticks;
    } else {
      var init := ticks[..|ticks| - 1];
      assert init[..c] == ticks[..c];
      OvertakingInEveryRun(init, c, m);
      OvertakingStep(ticks, c, m, After(init));
    }
  }

  /**
    If the master stops and saves succeed, the record names another node once any one
    follower has ticked twice, and the stopped master never gets it back.
   */
  lemma StoppedMasterIsReplaced(ticks: seq<Tick>, c: nat, m: string, i: nat, j: nat)
    requires c <= |ticks| && Silent(ticks, c, m) && After(ticks[..c]).record.Some?
    requires c <= i < j < |ticks| && ticks[i].node == ticks[j].node
    ensures After(ticks).record.Some? && After(ticks).record.value.id != m
  {
    OvertakingInEveryRun(ticks, c, m);
  }

  /** The next tick of `n` before `e`. */
  lemma {:induction false} FirstTick(ticks: seq<Tick>, p: nat, n: string, e: nat) returns (k: nat)
    requires p < e <= |ticks| && exists k :: p < k < e && ticks[k].node == n
    ensures p < k < e && ticks[k].node == n && forall q :: p < q < k ==> ticks[q].node != n
    decreases e
  {
    k :| p < k < e && ticks[k].node == n;
    if exists q :: p < q < k && ticks[q].node == n { k := FirstTick(ticks, p, n, k); }
  }

  lemma PauseBound(ticks: seq<Tick>, i: nat)
    requires i < |ticks|
    ensures Pause(ticks, i) <= 12.0
  {
    AfterTick(ticks, i);
  }

  /** A punctual node's next tick, and when it comes at the latest. */
  lemma NextTick(ticks: seq<Tick>, times: seq<real>, b: nat, n: string, late: real, p: nat, e: nat) returns (k: nat)
    requires |times| == |ticks| && Punctual(ticks, times, b, n, late)
    requires b <= p < e < |ticks| && ticks[p].node == n && times[e] > times[p] + 12.0 + late
    ensures p < k < e && ticks[k].node == n && times[k] <= times[p] + 12.0 + late
  {
    hide Pause;
    PauseBound(ticks, p);
    k := FirstTick(ticks, p, n, e);
  }

  /**
    A follower that is never more than `late` late has replaced a stopped master once it has
    been silent for four intervals and twice that.
   */
  lemma StoppedMasterIsReplacedInTime(
    ticks: seq<Tick>, times: seq<real>, c: nat, m: string, b: nat, n: string, late: real)
    requires Timed(ticks, times) && 0 < c < |ticks| && Silent(ticks, c, m) && After(ticks[..c]).record.Some?
    requires b < c && ticks[b].node == n && Punctual(ticks, times, b, n, late)
    requires times[|ticks| - 1] > times[c] + 24.0 + 2.0 * late
    requires late >= 0.0
    ensures After(ticks).record.Some? && After(ticks).record.value.id != m
  {
    hide After, Punctual, Silent;
    var e := |ticks| - 1;
    var p := LastTick(ticks, b, n, c - 1);
    var i := NextTick(ticks, times, b, n, late, p, e);
    var j := NextTick(ticks, times, b, n, late, i, e);
    StoppedMasterIsReplaced(ticks, c, m, i, j);
  }
}
