/** clients/upssched.c: the timer daemon. A queue of timers in start order, with start, cancel and
    the periodic check that fires what is due and ends the daemon when it has been idle. */
module Upssched {

  const EMPTY_WAIT := 15

  /** A timer; id stands for its address, the order of ids is the order of starting. */
  datatype Timer = Timer(id: nat, name: string, etime: int)

  datatype Event =
    | Fired(t: Timer, now: int)       // exec_cmd() for a timer that is due
    | Cancelled(t: Timer)
    | Executed(cmd: string)           // the command of a cancel that found no timer
    | EmptyCheck
    | BusyCheck

  datatype Daemon = Daemon(queue: seq<Timer>, emptyctr: nat, exited: bool, nextId: nat, log: seq<Event>)

  const IDLE := Daemon([], 0, false, 0, [])

  datatype Op = Start(name: string, ofs: int, now: int) | Cancel(name: string, cname: string) | Check(now: int)

  // ----- the operations on values -----

  /** start_timer() */
  function AfterStart(d: Daemon, name: string, ofs: int, now: int): Daemon {
    if ofs < 0 then d
    else d.(queue := d.queue + [Timer(d.nextId, name, now + ofs)], nextId := d.nextId + 1)
  }

  /** The first timer of a name, or the length of the queue. */
  function FindName(q: seq<Timer>, name: string): (k: nat)
    ensures k <= |q| && (k < |q| ==> q[k].name == name) && forall i :: 0 <= i < k ==> q[i].name != name
  {
    if q == [] || q[0].name == name then 0 else 1 + FindName(q[1..], name)
  }

  lemma FindNameIs(q: seq<Timer>, name: string, k: nat)
    requires k <= |q| && (k < |q| ==> q[k].name == name) && forall i :: 0 <= i < k ==> q[i].name != name
    ensures FindName(q, name) == k
  {
  }

  /** cancel_timer() */
  function AfterCancel(d: Daemon, name: string, cname: string): Daemon {
    var k := FindName(d.queue, name);
    if k < |d.queue| then
      d.(queue := d.queue[..k] + d.queue[k + 1..], log := d.log + [Cancelled(d.queue[k])])
    else if cname != "" then d.(log := d.log + [Executed(cname)])
    else d
  }

  function Pending(q: seq<Timer>, now: int): seq<Timer> {
    if q == [] then []
    else
      var rest := Pending(q[..|q| - 1], now);
      if now >= q[|q| - 1].etime then rest else rest + [q[|q| - 1]]
  }

  function Firings(q: seq<Timer>, now: int): seq<Event> {
    if q == [] then []
    else
      var rest := Firings(q[..|q| - 1], now);
      if now >= q[|q| - 1].etime then rest + [Fired(q[|q| - 1], now)] else rest
  }

  /** checktimers() */
  function AfterCheck(d: Daemon, now: int): Daemon {
    if d.queue == [] then
      d.(emptyctr := d.emptyctr + 1, exited := d.emptyctr + 1 >= EMPTY_WAIT, log := d.log + [EmptyCheck])
    else
      d.(queue := Pending(d.queue, now), emptyctr := 0, log := d.log + [BusyCheck] + Firings(d.queue, now))
  }

  /** One operation; a daemon that has exited does nothing more. */
  function Apply(d: Daemon, op: Op): Daemon {
    if d.exited then d
    else
      match op
      case Start(name, ofs, now) => AfterStart(d, name, ofs, now)
      case Cancel(name, cname) => AfterCancel(d, name, cname)
      case Check(now) => AfterCheck(d, now)
  }

  function Run(d: Daemon, ops: seq<Op>): Daemon {
    if ops == [] then d else Apply(Run(d, ops[..|ops| - 1]), ops[|ops| - 1])
  }

  // ----- counting -----

  function InQueue(q: seq<Timer>, id: nat): nat {
    if q == [] then 0 else InQueue(q[..|q| - 1], id) + if q[|q| - 1].id == id then 1 else 0
  }

  /** How often a timer was fired or cancelled. */
  function Ended(log: seq<Event>, id: nat): nat {
    if log == [] then 0
    else
      var e := log[|log| - 1];
      Ended(log[..|log| - 1], id) + if (e.Fired? || e.Cancelled?) && e.t.id == id then 1 else 0
  }

  lemma {:induction false} InQueueConcat(a: seq<Timer>, b: seq<Timer>, id: nat)
    ensures InQueue(a + b, id) == InQueue(a, id) + InQueue(b, id)
    decreases |b|
  {
    if b == [] {
      assert a + b == a;
    } else {
      assert (a + b)[..|a + b| - 1] == a + b[..|b| - 1];
      InQueueConcat(a, b[..|b| - 1], id);
    }
  }

  lemma {:induction false} EndedConcat(a: seq<Event>, b: seq<Event>, id: nat)
    ensures Ended(a + b, id) == Ended(a, id) + Ended(b, id)
    decreases |b|
  {
    if b == [] {
      assert a + b == a;
    } else {
      assert (a + b)[..|a + b| - 1] == a + b[..|b| - 1];
      EndedConcat(a, b[..|b| - 1], id);
    }
  }

  /** A check moves timers from the queue to the log, one for one. */
  lemma {:induction false} CheckConserves(q: seq<Timer>, now: int, id: nat)
    ensures InQueue(Pending(q, now), id) + Ended(Firings(q, now), id) == InQueue(q, id)
    decreases |q|
  {
    if q != [] {
      var n := |q| - 1;
      CheckConserves(q[..n], now, id);
      InQueueConcat(Pending(q[..n], now), [q[n]], id);
      EndedConcat(Firings(q[..n], now), [Fired(q[n], now)], id);
      OneCounted(q[n], now, id);
    }
  }

  lemma OneCounted(t: Timer, now: int, id: nat)
    ensures InQueue([t], id) == (if t.id == id then 1 else 0)
    ensures Ended([Fired(t, now)], id) == (if t.id == id then 1 else 0)
    ensures Ended([Cancelled(t)], id) == (if t.id == id then 1 else 0)
  {
    assert [t][..0] == [] && [Fired(t, now)][..0] == [] && [Cancelled(t)][..0] == [];
  }

  lemma OtherCounted(e: Event, id: nat)
    requires !e.Fired? && !e.Cancelled?
    ensures Ended([e], id) == 0
  {
    assert [e][..0] == [];
  }

  /** Every timer accepted so far is pending, was fired, or was cancelled: exactly one of these,
      exactly once. */
  ghost predicate Conserved(d: Daemon) {
    forall id: nat :: InQueue(d.queue, id) + Ended(d.log, id) == if id < d.nextId then 1 else 0
  }

  lemma StartConserves(d: Daemon, name: string, ofs: int, now: int)
    requires Conserved(d)
    ensures Conserved(AfterStart(d, name, ofs, now))
  {
    if ofs >= 0 {
      var t := Timer(d.nextId, name, now + ofs);
      forall id: nat ensures InQueue(d.queue + [t], id) == InQueue(d.queue, id) + if id == d.nextId then 1 else 0 {
        InQueueConcat(d.queue, [t], id);
        OneCounted(t, now, id);
      }
    }
  }

  lemma CancelConserves(d: Daemon, name: string, cname: string)
    requires Conserved(d)
    ensures Conserved(AfterCancel(d, name, cname))
  {
    var k := FindName(d.queue, name);
    var d' := AfterCancel(d, name, cname);
    forall id: nat ensures InQueue(d'.queue, id) + Ended(d'.log, id) == InQueue(d.queue, id) + Ended(d.log, id) {
      if k < |d.queue| {
        var a, t, b := d.queue[..k], d.queue[k], d.queue[k + 1..];
        assert d.queue == a + [t] + b;
        InQueueConcat(a + [t], b, id);
        InQueueConcat(a, [t], id);
        InQueueConcat(a, b, id);
        OneCounted(t, 0, id);
        EndedConcat(d.log, [Cancelled(t)], id);
      } else if cname != "" {
        OtherCounted(Executed(cname), id);
        EndedConcat(d.log, [Executed(cname)], id);
      }
    }
  }

  lemma CheckKeepsConserved(d: Daemon, now: int)
    requires Conserved(d)
    ensures Conserved(AfterCheck(d, now))
  {
    var d' := AfterCheck(d, now);
    forall id: nat ensures InQueue(d'.queue, id) + Ended(d'.log, id) == InQueue(d.queue, id) + Ended(d.log, id) {
      if d.queue == [] {
        OtherCounted(EmptyCheck, id);
        EndedConcat(d.log, [EmptyCheck], id);
      } else {
        OtherCounted(BusyCheck, id);
        EndedConcat(d.log, [BusyCheck], id);
        EndedConcat(d.log + [BusyCheck], Firings(d.queue, now), id);
        CheckConserves(d.queue, now, id);
      }
    }
  }

  // ----- order and due times -----

  ghost predicate Rising(q: seq<Timer>) {
    forall i, j :: 0 <= i < j < |q| ==> q[i].id < q[j].id
  }

  /** Nothing fired before its time, and every timer seen was started. */
  ghost predicate FiredDue(log: seq<Event>, nextId: nat) {
    forall j :: 0 <= j < |log| && log[j].Fired? ==> log[j].t.etime <= log[j].now && log[j].t.id < nextId
  }

  /** A timer still pending although one started after it has fired is due later than that one. */
  ghost predicate PendingDueLater(q: seq<Timer>, log: seq<Event>) {
    forall x, j :: x in q && 0 <= j < |log| && log[j].Fired? && x.id < log[j].t.id ==> log[j].t.etime < x.etime
  }

  /** A timer that fired after one started later than it was due later than that one. */
  ghost predicate FiredInOrder(log: seq<Event>) {
    forall i, j :: 0 <= i < j < |log| && log[i].Fired? && log[j].Fired? && log[j].t.id < log[i].t.id
      ==> log[i].t.etime < log[j].t.etime
  }

  ghost predicate InOrder(d: Daemon) {
    && Rising(d.queue) && (forall x :: x in d.queue ==> x.id < d.nextId)
    && FiredDue(d.log, d.nextId) && PendingDueLater(d.queue, d.log) && FiredInOrder(d.log)
  }

  /** What a check keeps is in the old order and not due. */
  lemma {:induction false} PendingOrder(q: seq<Timer>, now: int)
    requires Rising(q)
    ensures Rising(Pending(q, now))
    ensures forall x :: x in Pending(q, now) ==> x in q && now < x.etime
    decreases |q|
  {
    if q != [] {
      var n := |q| - 1;
      PendingOrder(q[..n], now);
      assert q == q[..n] + [q[n]];
      forall i | 0 <= i < |Pending(q[..n], now)| ensures Pending(q[..n], now)[i].id < q[n].id {
        assert Pending(q[..n], now)[i] in q[..n];
      }
    }
  }

  ghost predicate AllFirings(f: seq<Event>, q: seq<Timer>, now: int) {
    forall i :: 0 <= i < |f| ==> f[i].Fired? && f[i].now == now && f[i].t in q && f[i].t.etime <= now
  }

  /** What a check fires is due, and in the old order. */
  lemma {:induction false} FiringsOrder(q: seq<Timer>, now: int)
    requires Rising(q)
    ensures AllFirings(Firings(q, now), q, now)
    ensures forall i, j :: 0 <= i < j < |Firings(q, now)| ==> Firings(q, now)[i].t.id < Firings(q, now)[j].t.id
    decreases |q|
  {
    if q != [] {
      var n := |q| - 1;
      FiringsOrder(q[..n], now);
      assert q == q[..n] + [q[n]];
      var f := Firings(q[..n], now);
      forall i | 0 <= i < |f| ensures f[i].t in q && f[i].t.id < q[n].id {
        assert f[i].t in q[..n];
      }
    }
  }

  lemma CheckInOrder(d: Daemon, now: int)
    requires InOrder(d)
    ensures InOrder(AfterCheck(d, now))
  {
    if d.queue != [] {
      PendingOrder(d.queue, now);
      FiringsOrder(d.queue, now);
      var p, f := Pending(d.queue, now), Firings(d.queue, now);
      LaterAfterCheck(d.queue, d.log, p, f, now);
      OrderAfterCheck(d.queue, d.log, f, now);
      hide Pending, Firings, Rising;
      assert AfterCheck(d, now).log == d.log + [BusyCheck] + f;
    }
  }

  lemma LaterAfterCheck(q: seq<Timer>, log: seq<Event>, p: seq<Timer>, f: seq<Event>, now: int)
    requires PendingDueLater(q, log) && AllFirings(f, q, now) && forall x :: x in p ==> x in q && now < x.etime
    ensures PendingDueLater(p, log + [BusyCheck] + f)
  {
  }

  lemma OrderAfterCheck(q: seq<Timer>, log: seq<Event>, f: seq<Event>, now: int)
    requires PendingDueLater(q, log) && FiredInOrder(log) && AllFirings(f, q, now)
    requires forall i, j :: 0 <= i < j < |f| ==> f[i].t.id < f[j].t.id
    ensures FiredInOrder(log + [BusyCheck] + f)
  {
  }

  lemma CancelInOrder(d: Daemon, name: string, cname: string)
    requires InOrder(d)
    ensures InOrder(AfterCancel(d, name, cname))
  {
    var k := FindName(d.queue, name);
    var e := if k < |d.queue| then Cancelled(d.queue[k]) else Executed(cname);
    if k < |d.queue| || cname != "" { OtherLogged(d.queue, d.log, e, d.nextId); }
    if k < |d.queue| {
      RisingWithout(d.queue, k);
      FewerPending(d.queue, k, d.log + [e]);
    }
    hide Rising, FiredDue, PendingDueLater, FiredInOrder, FindName;
  }

  lemma RisingWithout(q: seq<Timer>, k: nat)
    requires Rising(q) && k < |q|
    ensures Rising(q[..k] + q[k + 1..])
  {
  }

  lemma FewerPending(q: seq<Timer>, k: nat, log: seq<Event>)
    requires k < |q| && PendingDueLater(q, log)
    ensures PendingDueLater(q[..k] + q[k + 1..], log)
    ensures forall x :: x in q[..k] + q[k + 1..] ==> x in q
  {
  }

  /** An event that is no firing changes nothing about due times and order. */
  lemma OtherLogged(q: seq<Timer>, log: seq<Event>, e: Event, nextId: nat)
    requires !e.Fired? && FiredDue(log, nextId) && PendingDueLater(q, log) && FiredInOrder(log)
    ensures FiredDue(log + [e], nextId) && PendingDueLater(q, log + [e]) && FiredInOrder(log + [e])
  {
  }

  lemma StartInOrder(d: Daemon, name: string, ofs: int, now: int)
    requires InOrder(d)
    ensures InOrder(AfterStart(d, name, ofs, now))
  {
  }

  // ----- idleness -----

  /** How many of the latest checks, in a row, found nothing to do. */
  function TrailingEmpty(log: seq<Event>): nat {
    if log == [] then 0
    else
      var e := log[|log| - 1];
      if e == EmptyCheck then TrailingEmpty(log[..|log| - 1]) + 1
      else if e == BusyCheck then 0
      else TrailingEmpty(log[..|log| - 1])
  }

  ghost predicate IdleOk(d: Daemon) {
    d.emptyctr == TrailingEmpty(d.log) && (d.exited <==> d.emptyctr >= EMPTY_WAIT) && (d.exited ==> d.queue == [])
  }

  lemma {:induction false} FiringsKeepTrailing(log: seq<Event>, f: seq<Event>)
    requires forall i :: 0 <= i < |f| ==> f[i].Fired?
    ensures TrailingEmpty(log + f) == TrailingEmpty(log)
    decreases |f|
  {
    if f == [] {
      assert log + f == log;
    } else {
      assert (log + f)[..|log + f| - 1] == log + f[..|f| - 1];
      FiringsKeepTrailing(log, f[..|f| - 1]);
    }
  }

  lemma TrailingSnoc(log: seq<Event>, e: Event)
    ensures TrailingEmpty(log + [e]) ==
            if e == EmptyCheck then TrailingEmpty(log) + 1 else if e == BusyCheck then 0 else TrailingEmpty(log)
  {
    assert (log + [e])[..|log|] == log;
  }

  lemma StepIdle(d: Daemon, op: Op)
    requires InOrder(d) && IdleOk(d)
    ensures IdleOk(Apply(d, op))
  {
    hide TrailingEmpty, Rising, PendingDueLater, FiredInOrder, FiredDue, Pending;
    if !d.exited {
      match op
      case Start(_, _, _) =>
      case Cancel(name, cname) =>
        TrailingSnoc(d.log, Executed(cname));
        var k := FindName(d.queue, name);
        if k < |d.queue| { TrailingSnoc(d.log, Cancelled(d.queue[k])); }
      case Check(now) =>
        TrailingSnoc(d.log, EmptyCheck);
        TrailingSnoc(d.log, BusyCheck);
        FiringsOrder(d.queue, now);
        FiringsKeepTrailing(d.log + [BusyCheck], Firings(d.queue, now));
    }
  }

  // ----- whole runs -----

  lemma {:induction false} RunInvariant(ops: seq<Op>)
    ensures var d := Run(IDLE, ops); Conserved(d) && InOrder(d) && IdleOk(d)
    decreases |ops|
  {
    if ops != [] {
      var n := |ops| - 1;
      RunInvariant(ops[..n]);
      var d := Run(IDLE, ops[..n]);
      StepIdle(d, ops[n]);
      if !d.exited {
        match ops[n]
        case Start(name, ofs, now) =>
          StartConserves(d, name, ofs, now);
          StartInOrder(d, name, ofs, now);
        case Cancel(name, cname) =>
          CancelConserves(d, name, cname);
          CancelInOrder(d, name, cname);
        case Check(now) =>
          CheckKeepsConserved(d, now);
          CheckInOrder(d, now);
      }
    }
  }

  /** In every run: each accepted timer is pending, fired or cancelled, exactly one of them and
      exactly once; no timer fires before it is due; one that fires after a timer started later
      than it was due later than that one, so timers due together fire in start order; and the
      daemon exits exactly when EMPTY_WAIT checks in a row found nothing, with no timer pending. */
  lemma EveryRun(ops: seq<Op>)
    ensures var d := Run(IDLE, ops);
            && (forall id: nat :: InQueue(d.queue, id) + Ended(d.log, id) == if id < d.nextId then 1 else 0)
            && (forall j :: 0 <= j < |d.log| && d.log[j].Fired? ==> d.log[j].t.etime <= d.log[j].now)
            && FiredInOrder(d.log)
            && (d.exited <==> TrailingEmpty(d.log) >= EMPTY_WAIT)
            && (d.exited ==> d.queue == [])
  {
    RunInvariant(ops);
  }

  /** Right after a check that did not end the daemon nothing is overdue. */
  lemma NothingOverdue(ops: seq<Op>, now: int)
    ensures var d := Apply(Run(IDLE, ops), Check(now)); forall x :: x in d.queue ==> now < x.etime
  {
    RunInvariant(ops);
    PendingOrder(Run(IDLE, ops).queue, now);
  }

  // ----- the daemon -----

  // ----- what each request does -----

  /** How many timers are asked for; a negative offset is refused. */
  function Starts(ops: seq<Op>): nat {
    if ops == [] then 0
    else Starts(ops[..|ops| - 1]) + if ops[|ops| - 1].Start? && ops[|ops| - 1].ofs >= 0 then 1 else 0
  }

  /** The timer that the request at i asks for: due its offset after the request. */
  ghost predicate AskedFor(ops: seq<Op>, t: Timer, i: int) {
    0 <= i < |ops| && ops[i].Start? && ops[i].ofs >= 0
    && t == Timer(Starts(ops[..i]), ops[i].name, ops[i].now + ops[i].ofs)
  }

  ghost predicate Asked(ops: seq<Op>, t: Timer) {
    exists i :: AskedFor(ops, t, i)
  }

  lemma AskedLater(ops: seq<Op>, op: Op, t: Timer)
    requires Asked(ops, t)
    ensures Asked(ops + [op], t)
  {
    var i :| AskedFor(ops, t, i);
    assert (ops + [op])[..i] == ops[..i];
    assert AskedFor(ops + [op], t, i);
  }

  /** In every run: until the daemon exits there is one timer for each request that was not refused,
      and every timer, pending or ended, is the one that a request asked for. */
  lemma {:induction false} EveryTimerAsked(ops: seq<Op>)
    ensures var d := Run(IDLE, ops);
            && (!d.exited ==> d.nextId == Starts(ops))
            && (forall x :: x in d.queue ==> Asked(ops, x))
            && (forall j :: 0 <= j < |d.log| && (d.log[j].Fired? || d.log[j].Cancelled?) ==> Asked(ops, d.log[j].t))
    decreases |ops|
  {
    if ops != [] {
      var n := |ops| - 1;
      var a, op := ops[..n], ops[n];
      assert ops == a + [op];
      EveryTimerAsked(a);
      RunInvariant(a);
      AskedStep(a, op, Run(IDLE, a));
    }
  }

  lemma AskedStep(a: seq<Op>, op: Op, d: Daemon)
    requires InOrder(d) && (!d.exited ==> d.nextId == Starts(a)) && (forall x :: x in d.queue ==> Asked(a, x))
    requires forall j :: 0 <= j < |d.log| && (d.log[j].Fired? || d.log[j].Cancelled?) ==> Asked(a, d.log[j].t)
    ensures var e, ops := Apply(d, op), a + [op];
            && (!e.exited ==> e.nextId == Starts(ops))
            && (forall x :: x in e.queue ==> Asked(ops, x))
            && (forall j :: 0 <= j < |e.log| && (e.log[j].Fired? || e.log[j].Cancelled?) ==> Asked(ops, e.log[j].t))
  {
    var ops, e := a + [op], Apply(d, op);
    assert ops[..|a|] == a && ops[|a|] == op;
    forall t | Asked(a, t) ensures Asked(ops, t) { AskedLater(a, op, t); }
    if !d.exited {
      match op
      case Start(name, ofs, now) =>
        if ofs >= 0 { assert AskedFor(ops, Timer(d.nextId, name, now + ofs), |a|); }
      case Cancel(name, cname) =>
      case Check(now) =>
        PendingOrder(d.queue, now);
        FiringsOrder(d.queue, now);
    }
  }

  ghost predicate Named(q: seq<Timer>, name: string) {
    exists x :: x in q && x.name == name
  }

  ghost predicate Earliest(q: seq<Timer>, name: string, x: Timer) {
    x in q && x.name == name && forall y :: y in q && y.name == name ==> x.id <= y.id
  }

  ghost predicate AllBut(q: seq<Timer>, x: Timer, q': seq<Timer>) {
    forall z :: z in q' <==> z in q && z != x
  }

  /** A cancel takes the earliest pending timer of that name and no other, or runs its command if
      there is none. */
  lemma CancelLaw(ops: seq<Op>, name: string, cname: string)
    requires !Run(IDLE, ops).exited
    ensures var d, e := Run(IDLE, ops), Apply(Run(IDLE, ops), Cancel(name, cname));
            if Named(d.queue, name) then
              exists x :: Earliest(d.queue, name, x) && AllBut(d.queue, x, e.queue) && e.log == d.log + [Cancelled(x)]
            else e.queue == d.queue && e.log == d.log + if cname == "" then [] else [Executed(cname)]
  {
    RunInvariant(ops);
    hide Run, Named, Earliest, AllBut, Apply;
    CancelOne(Run(IDLE, ops), name, cname);
  }

  lemma CancelOne(d: Daemon, name: string, cname: string)
    requires !d.exited && Rising(d.queue)
    ensures var e := Apply(d, Cancel(name, cname));
            if Named(d.queue, name) then
              exists x :: Earliest(d.queue, name, x) && AllBut(d.queue, x, e.queue) && e.log == d.log + [Cancelled(x)]
            else e.queue == d.queue && e.log == d.log + if cname == "" then [] else [Executed(cname)]
  {
    FirstOfName(d.queue, name);
    hide Named, Earliest, AllBut, FindName, Rising;
    assert d.log + [] == d.log;
  }

  lemma FirstOfName(q: seq<Timer>, name: string)
    requires Rising(q)
    ensures var k := FindName(q, name);
            && (k < |q| <==> Named(q, name))
            && (k < |q| ==> Earliest(q, name, q[k]) && AllBut(q, q[k], q[..k] + q[k + 1..]))
  {
    var k := FindName(q, name);
    hide Rising, AllBut, FindName;
    NamedIff(q, name, k);
    if k < |q| {
      EarliestAt(q, name, k);
      DropOne(q, k);
    }
  }

  lemma NamedIff(q: seq<Timer>, name: string, k: nat)
    requires k <= |q| && (k < |q| ==> q[k].name == name) && forall i :: 0 <= i < k ==> q[i].name != name
    ensures k < |q| <==> Named(q, name)
  {
    if k < |q| { assert q[k] in q; }
  }

  lemma EarliestAt(q: seq<Timer>, name: string, k: nat)
    requires Rising(q) && k < |q| && q[k].name == name && forall i :: 0 <= i < k ==> q[i].name != name
    ensures Earliest(q, name, q[k])
  {
    forall y | y in q && y.name == name ensures q[k].id <= y.id {
      var j :| 0 <= j < |q| && q[j] == y;
      assert k <= j;
    }
  }

  lemma DropOne(q: seq<Timer>, k: nat)
    requires Rising(q) && k < |q|
    ensures AllBut(q, q[k], q[..k] + q[k + 1..])
  {
    var a, b := q[..k], q[k + 1..];
    assert q == a + [q[k]] + b;
    forall i | 0 <= i < k ensures a[i].id < q[k].id {}
    forall i | 0 <= i < |b| ensures q[k].id < b[i].id { assert b[i] == q[k + 1 + i]; }
  }

  lemma {:induction false} DueFires(q: seq<Timer>, now: int, x: Timer)
    requires x in q
    ensures now >= x.etime ==> Fired(x, now) in Firings(q, now)
    ensures now < x.etime ==> x in Pending(q, now)
    decreases |q|
  {
    var n := |q| - 1;
    assert q == q[..n] + [q[n]];
    if x in q[..n] { DueFires(q[..n], now, x); }
  }

  /** A check fires every pending timer that is due and keeps every other. */
  lemma CheckLaw(ops: seq<Op>, now: int)
    requires !Run(IDLE, ops).exited
    ensures var d, e := Run(IDLE, ops), Apply(Run(IDLE, ops), Check(now));
            && d.log <= e.log
            && (forall x :: x in d.queue && now >= x.etime ==> Fired(x, now) in e.log[|d.log|..])
            && (forall x :: x in d.queue && now < x.etime ==> x in e.queue)
  {
    hide Run;
    var d, e := Run(IDLE, ops), Apply(Run(IDLE, ops), Check(now));
    forall x | x in d.queue
      ensures now >= x.etime ==> Fired(x, now) in e.log[|d.log|..]
      ensures now < x.etime ==> x in e.queue
    {
      DueFires(d.queue, now, x);
      assert e.log[|d.log|..] == [BusyCheck] + Firings(d.queue, now);
    }
  }

  /** EMPTY_WAIT checks in a row that find nothing end the daemon. */
  lemma {:induction false} IdleExits(d: Daemon, nows: seq<int>)
    requires d.queue == []
    ensures var e := Run(d, Checks(nows));
            e.queue == [] && (d.exited || (d.emptyctr + |nows| >= EMPTY_WAIT && |nows| > 0) ==> e.exited)
            && (!e.exited ==> e.emptyctr == d.emptyctr + |nows|)
    decreases |nows|
  {
    if nows != [] {
      var n := |nows| - 1;
      assert Checks(nows)[..n] == Checks(nows[..n]);
      IdleExits(d, nows[..n]);
    }
  }

  function Checks(nows: seq<int>): (ops: seq<Op>)
    ensures |ops| == |nows| && forall i :: 0 <= i < |nows| ==> ops[i] == Check(nows[i])
  {
    seq(|nows|, i requires 0 <= i < |nows| => Check(nows[i]))
  }

  class TimerDaemon {
    var thead: seq<Timer>
    var emptyctr: nat
    var exited: bool
    var nextId: nat
    var log: seq<Event>

    function View(): Daemon
      reads this
    {
      Daemon(thead, emptyctr, exited, nextId, log)
    }

    ghost predicate Valid()
      reads this
    {
      Rising(thead) && forall x :: x in thead ==> x.id < nextId
    }

    constructor ()
      ensures Valid() && View() == IDLE
    {
      thead, emptyctr, exited, nextId, log := [], 0, false, 0, [];
    }

    /** removetimer(): by identity. */
    method RemoveTimer(ghost k: nat, tfind: Timer)
      requires k < |thead| && thead[k] == tfind && Rising(thead)
      modifies this`thead
      ensures thead == old(thead)[..k] + old(thead)[k + 1..] && Rising(thead)
    {
      var tmp := 0;
      while tmp < |thead|
        invariant 0 <= tmp <= k && thead == old(thead)
      {
        if thead[tmp].id == tfind.id {
          thead := thead[..tmp] + thead[tmp + 1..];
          return;
        }
        tmp := tmp + 1;
      }
    }

    /** start_timer() */
    method StartTimer(name: string, ofs: int, now: int)
      requires Valid() && !exited
      modifies this
      ensures Valid() && View() == Apply(old(View()), Start(name, ofs, now))
    {
      if ofs < 0 { return; }
      thead := thead + [Timer(nextId, name, now + ofs)];
      nextId := nextId + 1;
    }

    /** cancel_timer() */
    method CancelTimer(name: string, cname: string)
      requires Valid() && !exited
      modifies this
      ensures Valid() && View() == Apply(old(View()), Cancel(name, cname))
    {
      hide FindName;
      var tmp := 0;
      while tmp < |thead|
        invariant 0 <= tmp <= |thead| && View() == old(View())
        invariant forall i :: 0 <= i < tmp ==> thead[i].name != name
      {
        if thead[tmp].name == name {
          FindNameIs(thead, name, tmp);
          log := log + [Cancelled(thead[tmp])];
          RemoveTimer(tmp, thead[tmp]);
          return;
        }
        tmp := tmp + 1;
      }
      FindNameIs(thead, name, |thead|);
      if cname != "" {
        log := log + [Executed(cname)];
      }
    }

    /** checktimers() */
    method CheckTimers(now: int)
      requires Valid() && !exited
      modifies this
      ensures Valid() && View() == Apply(old(View()), Check(now))
    {
      if thead == [] {
        emptyctr := emptyctr + 1;
        log := log + [EmptyCheck];
        if emptyctr < EMPTY_WAIT { return; }
        exited := true;
        return;
      }
      emptyctr := 0;
      log := log + [BusyCheck];
      PendingOrder(thead, now);
      FireDue(now);
    }

    /** Any sequence of requests and checks, up to the exit. */
    method Serve(ops: seq<Op>)
      requires Valid()
      modifies this
      ensures Valid() && View() == Run(old(View()), ops)
    {
      hide Apply;
      var i := 0;
      RunNothing(View(), ops);
      while i < |ops|
        invariant 0 <= i <= |ops| && Valid()
        invariant View() == Run(old(View()), ops[..i])
      {
        RunOne(old(View()), ops, i);
        if !exited {
          match ops[i] {
            case Start(name, ofs, now) => StartTimer(name, ofs, now);
            case Cancel(name, cname) => CancelTimer(name, cname);
            case Check(now) => CheckTimers(now);
          }
        } else {
          ExitedStays(View(), ops[i]);
        }
        i := i + 1;
      }
      assert ops[..i] == ops;
    }

    /** The loop of checktimers() over the queue. */
    method FireDue(now: int)
      requires Rising(thead)
      modifies this`thead, this`log
      ensures thead == Pending(old(thead), now) && log == old(log) + Firings(old(thead), now)
    {
      hide Pending, Firings, Rising;
      ghost var q := thead;
      var tmp := 0;
      ghost var j := 0;
      FireNothing(q, now);
      assert log + [] == log;
      while tmp < |thead|
        invariant 0 <= j <= |q| && tmp == |Pending(q[..j], now)|
        invariant thead == Pending(q[..j], now) + q[j..] && Rising(thead)
        invariant log == old(log) + Firings(q[..j], now)
        decreases |q| - j
      {
        FireStep(q, j, now, thead, old(log));
        if now >= thead[tmp].etime {
          log := log + [Fired(thead[tmp], now)];
          RemoveTimer(tmp, thead[tmp]);
        } else {
          tmp := tmp + 1;
        }
        j := j + 1;
      }
      assert q[..j] == q && Pending(q, now) + [] == Pending(q, now);
    }
  }

  lemma RunNothing(d: Daemon, ops: seq<Op>)
    ensures Run(d, ops[..0]) == d
  {
  }

  lemma RunOne(d: Daemon, ops: seq<Op>, i: nat)
    requires i < |ops|
    ensures Run(d, ops[..i + 1]) == Apply(Run(d, ops[..i]), ops[i])
  {
    assert ops[..i + 1][..i] == ops[..i];
  }

  lemma ExitedStays(d: Daemon, op: Op)
    requires d.exited
    ensures Apply(d, op) == d
  {
  }

  lemma FireNothing(q: seq<Timer>, now: int)
    ensures Pending(q[..0], now) == [] && Firings(q[..0], now) == [] && [] + q[0..] == q
  {
  }

  /** The queue and the log after the first j timers have been dealt with, one timer later. */
  lemma FireStep(q: seq<Timer>, j: nat, now: int, thead: seq<Timer>, log: seq<Event>)
    requires j < |q| && thead == Pending(q[..j], now) + q[j..]
    ensures var k := |Pending(q[..j], now)|;
            && k < |thead| && thead[k] == q[j]
            && (now >= q[j].etime ==>
                  && thead[..k] + thead[k + 1..] == Pending(q[..j + 1], now) + q[j + 1..]
                  && k == |Pending(q[..j + 1], now)|
                  && log + Firings(q[..j], now) + [Fired(q[j], now)] == log + Firings(q[..j + 1], now))
            && (now < q[j].etime ==>
                  && thead == Pending(q[..j + 1], now) + q[j + 1..]
                  && k + 1 == |Pending(q[..j + 1], now)|
                  && Firings(q[..j + 1], now) == Firings(q[..j], now))
  {
    assert q[..j + 1][..j] == q[..j] && q[j..] == [q[j]] + q[j + 1..];
  }
}
