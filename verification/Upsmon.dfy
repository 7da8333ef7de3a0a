/** clients/upsmon.c: the monitor itself. The list of records, the recalculation that decides on a
    shutdown, the forced shutdown with its synchronisation of the slaves, reloading, and the loop
    around them. */
module Upsmon {
  import opened CStrings
  import opened Options
  import opened ShutdownSafe
  import opened ShutdownTrace
  import opened UpsConfig
  import opened UpsmonEnv
  import opened UpsmonUps
  import opened UpsPass
  import opened UpsPoll
  import opened UpsRecord
  import opened UpsStatus

  /** The power of the systems that are not critical. */
  function OnlinePower(items: seq<Item>, crit: seq<bool>): int
    requires |items| == |crit|
  {
    if items == [] then 0
    else
      var n := |items| - 1;
      OnlinePower(items[..n], crit[..n]) + if crit[n] then 0 else items[n].pv
  }

  /** With nothing critical, all the configured power is online. */
  lemma {:induction false} NothingCritical(items: seq<Item>, crit: seq<bool>)
    requires |items| == |crit| && forall i :: 0 <= i < |crit| ==> !crit[i]
    ensures OnlinePower(items, crit) == Sum(items)
    decreases |items|
  {
    if items != [] {
      NothingCritical(items[..|items| - 1], crit[..|items| - 1]);
    }
  }

  /** Each critical system costs exactly its own power value. */
  lemma {:induction false} CriticalCosts(items: seq<Item>, crit: seq<bool>, i: nat)
    requires |items| == |crit| && i < |crit|
    ensures OnlinePower(items, crit[i := true]) == OnlinePower(items, crit[i := false]) - items[i].pv
    decreases |items|
  {
    var n := |items| - 1;
    if i < n {
      assert crit[i := true][..n] == crit[..n][i := true] && crit[i := false][..n] == crit[..n][i := false];
      CriticalCosts(items[..n], crit[..n], i);
    } else {
      assert crit[i := true][..n] == crit[..n] == crit[i := false][..n];
    }
  }

  lemma OnlinePowerSnoc(items: seq<Item>, crit: seq<bool>, i: nat, c: bool)
    requires i < |items| && |crit| == i
    ensures OnlinePower(items[..i + 1], crit + [c]) == OnlinePower(items[..i], crit) + if c then 0 else items[i].pv
  {
    assert items[..i + 1][..i] == items[..i] && (crit + [c])[..i] == crit;
  }

  lemma NoPower()
    ensures OnlinePower([], []) == 0
  {
  }

  lemma NewLife(master: bool)
    ensures LifeOk(NewRec(master))
  {
  }

  lemma LifeParts(r: Rec)
    requires LifeOk(r)
    ensures LineOk(r) && CommOk(r)
  {
  }

  lemma LifeWhole(r: Rec)
    requires LineOk(r) && CommOk(r)
    ensures LifeOk(r)
  {
  }

  lemma BetweenMore(lo: int, ts: seq<int>, mid: int, t: int)
    requires Between(lo, ts, mid) && lo <= mid <= t
    ensures Between(lo, ts + [t], t)
  {
  }

  lemma TimerLater(r: Rec, a: int, b: int)
    requires TimerOk(r, a) && a <= b
    ensures TimerOk(r, b)
  {
  }

  // ----- passes -----

  /** What became of a pass: go on, a fatal configuration, a shutdown, or the script ended while
      waiting for the slaves. */
  datatype Result = Continue | Fatal | Shut | Cut

  /** One pass of the main loop: signals received before it, and the outcome of each poll. A reload
      request holds the directives of the file, or None if it cannot be opened. */
  datatype Iteration = Iteration(userfsd: bool, reload: Option<Option<seq<Directive>>>, polls: nat -> (Connect, Answer))

  /** What a pass makes of the configuration. */
  function Reloads(c: Conf, it: Iteration): Conf {
    if it.reload.Some? && it.reload.value.Some? then Reconfigure(c, it.reload.value.value) else c
  }

  /** The pass begins with a reload of a file that can be read. */
  predicate Rereads(it: Iteration) {
    it.reload.Some? && it.reload.value.Some?
  }

  function AllReloads(c: Conf, its: seq<Iteration>): Conf {
    if its == [] then c else Reloads(AllReloads(c, its[..|its| - 1]), its[|its| - 1])
  }

  lemma AllReloadsSnoc(c: Conf, its: seq<Iteration>, k: nat)
    requires k < |its|
    ensures AllReloads(c, its[..k + 1]) == Reloads(AllReloads(c, its[..k]), its[k])
  {
    assert its[..k + 1][..k] == its[..k];
  }

  /** No reload in this pass names a system again after a line with a positive power value. */
  ghost predicate TruthfulReload(it: Iteration) {
    it.reload.Some? && it.reload.value.Some? ==> NoPositiveRepeat(Monitors(it.reload.value.value))
  }

  /** A truthful reload leaves a total that is the sum of the list. */
  lemma TruthfulTotal(c: Conf, it: Iteration)
    requires Distinct(c.table.items) && TruthfulReload(it)
    ensures Reloads(c, it) == c || Reloads(c, it).table.totalpv == Sum(Reloads(c, it).table.items)
  {
    if it.reload.Some? && it.reload.value.Some? {
      ReconfigureTable(c, it.reload.value.value);
      ReloadTotal(c.table, Monitors(it.reload.value.value));
    }
  }

  /** From pass k to pass n the poll of the i-th record shows OB and LB without OL and then takes
      nothing of it back, and no signal arrives. */
  ghost predicate Standing(its: seq<Iteration>, i: nat, k: nat, n: nat) {
    && k < n <= |its| && Shows(its[k].polls(i).0, its[k].polls(i).1)
    && (forall j :: k <= j < n ==> its[j].reload == None && !its[j].userfsd)
    && forall j :: k < j < n ==> Upholds(its[j].polls(i).1)
  }

  /** The last reply of the i-th record was in pass k and showed it on battery, or on line without FSD;
      since then it is silent, and no signal arrives. */
  ghost predicate Hushed(its: seq<Iteration>, i: nat, k: nat, n: nat) {
    && k < n <= |its|
    && (ShowsOnBatt(its[k].polls(i).0, its[k].polls(i).1) || ShowsOnLine(its[k].polls(i).0, its[k].polls(i).1))
    && (forall j :: k <= j < n ==> its[j].reload == None && !its[j].userfsd)
    && forall j :: k < j < n ==> NoReply(its[j].polls(i).1)
  }

  ghost predicate HushState(c: Connect, a: Answer, r: Rec, end: int) {
    && (ShowsOnBatt(c, a) ==> OnBatt in r.status && r.lastpoll <= end)
    && (ShowsOnLine(c, a) ==> OnBatt !in r.status && Fsd !in r.status)
  }

  lemma HushedLast(its: seq<Iteration>, i: nat, k: nat, n: nat)
    requires Hushed(its, i, k, n + 1)
    ensures n < |its| && its[n].reload == None && !its[n].userfsd
    ensures k < n ==> Hushed(its, i, k, n) && NoReply(its[n].polls(i).1)
    ensures k == n ==> Answered(its[n].polls(i).0, its[n].polls(i).1)
  {
    hide LastLine, Words, HasWord, HasText, NoReply;
  }

  /** What one more pass leaves of a record that is silent, and how it is judged. */
  lemma HushStep(its: seq<Iteration>, i: nat, k: nat, n: nat, cfg: Settings, r: Rec, r': Rec, lo: int, hi: int, end: int, t: int)
    requires Hushed(its, i, k, n + 1) && NotBoth(r) && (k == n ==> end == hi)
    requires k < n && Hushed(its, i, k, n) ==> HushState(its[k].polls(i).0, its[k].polls(i).1, r, end)
    requires Passed(cfg, r, its[n].polls(i).0, its[n].polls(i).1, lo, hi, r')
    ensures HushState(its[k].polls(i).0, its[k].polls(i).1, r', end)
    ensures ShowsOnLine(its[k].polls(i).0, its[k].polls(i).1) ==> !Critical(cfg, r', t)
    ensures k < n && ShowsOnBatt(its[k].polls(i).0, its[k].polls(i).1) && Master in r'.status ==>
              lo - end > cfg.deadtime ==> Critical(cfg, r', t)
  {
    HushedLast(its, i, k, n);
    hide Hushed, Passed, ShowsOnBatt, ShowsOnLine, Answered, NoReply;
    var c, a := its[n].polls(i).0, its[n].polls(i).1;
    if k < n {
      PassedSilent(cfg, r, c, a, lo, hi, r');
    } else {
      PassedAnswered(cfg, r, c, a, lo, hi, r');
    }
  }

  lemma StandingLast(its: seq<Iteration>, i: nat, k: nat, n: nat)
    requires Standing(its, i, k, n + 1)
    ensures n < |its| && its[n].reload == None && !its[n].userfsd
  {
  }

  /** What one more pass leaves of a record that stands. */
  lemma StandingStep(its: seq<Iteration>, i: nat, k: nat, n: nat, cfg: Settings, r: Rec, r': Rec, lo: int, hi: int, ends: seq<int>)
    requires Standing(its, i, k, n + 1) && |ends| == n && lo <= hi && TimerOk(r, lo)
    requires k < n && Standing(its, i, k, n) ==> BattLow(r) && r.lastnoncrit <= ends[k]
    requires Passed(cfg, r, its[n].polls(i).0, its[n].polls(i).1, lo, hi, r')
    ensures BattLow(r') && r'.lastnoncrit <= (ends + [hi])[k]
  {
    hide Passed, Shows, Upholds, BattLow;
    if k < n {
      assert Standing(its, i, k, n);
      PassedUpholds(cfg, r, its[n].polls(i).0, its[n].polls(i).1, lo, hi, r');
    } else {
      PassedShows(cfg, r, its[n].polls(i).0, its[n].polls(i).1, lo, hi, r');
    }
  }

  lemma NewTimer(now: int)
    requires now >= 0
    ensures TimerOk(NewRec(false), now)
  {
  }

  class UpsMonitor {
    const env: Env
    const usePipe: bool         // privileged parent and unprivileged child
    const hasFlag: bool         // POWERDOWNFLAG is configured

    var upses: seq<Ups>
    var totalpv: int
    var minsupplies: int
    var cfg: Settings

    ghost var items: seq<Item>

    /** The list is of different records, each with its own system name. */
    ghost predicate Shape()
      reads this`upses, this`items, upses`pv, upses`retain
    {
      && |items| == |upses| && Distinct(items)
      && (forall i, j :: 0 <= i < j < |upses| ==> upses[i] != upses[j])
      && (forall i :: 0 <= i < |upses| ==> upses[i].AsItem() == items[i])
    }

    /** What every step keeps of every record. */
    ghost predicate Lives()
      reads this`upses, upses`status, upses`commstate, upses`linestate, upses`lastpoll, upses`lastnoncrit,
            upses`lastrbwarn, upses`lastncwarn, upses`notices, upses`moments
    {
      forall i :: 0 <= i < |upses| ==> LifeOk(upses[i].View())
    }

    ghost predicate Valid()
      reads this, upses
    {
      Shape() && Lives()
    }

    /** The state before the configuration is read, with the default settings. */
    constructor (env: Env, usePipe: bool, hasFlag: bool)
      ensures Valid() && items == [] && upses == [] && totalpv == 0 && minsupplies == 1
      ensures cfg == Settings(15, 15, 43200, 300)
      ensures this.env == env && this.usePipe == usePipe && this.hasFlag == hasFlag
    {
      this.env, this.usePipe, this.hasFlag := env, usePipe, hasFlag;
      upses, items, totalpv, minsupplies := [], [], 0, 1;
      cfg := Settings(15, 15, 43200, 300);
    }

    /** One turn of the loop in recalc(). */
    method Judge(u: Ups, now: int) returns (crit: bool)
      requires env.Valid() && LifeOk(u.View())
      modifies u`status, env
      ensures env.Valid() && PeersSince(old(env.trace), env.trace)
      ensures u.View() == Promote(cfg, old(u.View()), now) && LifeOk(u.View())
      ensures crit == Critical(cfg, u.View(), Clock(env.trace))
    {
      hide LifeOk, Critical;
      StepKeepsLine(cfg, u.View(), SPromote(now)) by { LifeParts(u.View()); }
      StepKeepsComm(cfg, u.View(), SPromote(now)) by { LifeParts(u.View()); }
      u.PromoteDead(cfg, now);
      LifeWhole(u.View());
      crit := u.IsCritical(cfg, env);
    }

    /** A record of the list is only once in it, and worth what the item says. */
    lemma Alone(k: nat)
      requires Shape() && k < |upses|
      ensures forall i :: 0 <= i < |upses| && i != k ==> upses[i] != upses[k]
      ensures k < |items| && items[k].pv == upses[k].pv
    {
      assert upses[k].AsItem() == items[k];
    }

    /** recalc(), up to the decision. The booleans are the judgements it made, in list order. */
    method Recalc() returns (force: bool, ghost now: int, ghost crit: seq<bool>, ghost ts: seq<int>)
      requires Valid() && env.Valid()
      modifies upses`status, env
      ensures Valid() && env.Valid() && PeersSince(old(env.trace), env.trace)
      ensures |crit| == |ts| == |upses| && Clock(old(env.trace)) <= now <= Clock(env.trace) && Between(now, ts, Clock(env.trace))
      ensures forall i :: 0 <= i < |upses| ==> upses[i].View() == Promote(cfg, old(upses[i].View()), now)
      ensures forall i :: 0 <= i < |upses| ==> crit[i] == Critical(cfg, upses[i].View(), ts[i])
      ensures force <==> OnlinePower(items, crit) < minsupplies
    {
      hide LifeOk, Critical, Promote, Honest, Clock, Between, PeersSince, Shape, OnlinePower, Ups.View;
      SameLength();
      NoPower();
      var t := env.Time();
      now := t;
      crit, ts := [], [];
      BetweenNone(t);
      var valOl := 0;
      var k := 0;
      while k < |upses|
        invariant 0 <= k <= |upses|
        invariant Lives() && env.Valid() && PeersSince(old(env.trace), env.trace)
        invariant |crit| == |ts| == k && now <= Clock(env.trace) && Between(now, ts, Clock(env.trace))
        invariant forall i :: 0 <= i < k ==> upses[i].View() == Promote(cfg, old(upses[i].View()), now)
        invariant forall i :: k <= i < |upses| ==> upses[i].View() == old(upses[i].View())
        invariant forall i :: 0 <= i < k ==> crit[i] == Critical(cfg, upses[i].View(), ts[i])
        invariant valOl == OnlinePower(items[..k], crit)
      {
        ghost var t0 := env.trace;
        Alone(k);
        var c := Judge(upses[k], t);
        PeersTransitive(old(env.trace), t0, env.trace);
        BetweenMore(now, ts, Clock(t0), Clock(env.trace));
        if !c {
          valOl := valOl + upses[k].pv;
        }
        OnlinePowerSnoc(items, crit, k, c);
        crit, ts := crit + [c], ts + [Clock(env.trace)];
        k := k + 1;
      }
      assert items[..k] == items;
      force := valOl < minsupplies;
    }

    // ----- the forced shutdown -----

    /** The systems this host is the master of. */
    ghost function Masters(): set<string>
      reads this`upses, upses`status
    {
      set i | 0 <= i < |upses| && Master in upses[i].status :: upses[i].sys
    }

    ghost function FlagsTo(n: nat): (flags: seq<bool>)
      requires n <= |upses|
      reads this`upses, upses`status
      ensures |flags| == n && forall i :: 0 <= i < n ==> (flags[i] <==> Master in upses[i].status)
    {
      if n == 0 then [] else FlagsTo(n - 1) + [Master in upses[n - 1].status]
    }

    ghost function Flags(): (flags: seq<bool>)
      reads this`upses, upses`status
      ensures |flags| == |upses| && forall i :: 0 <= i < |upses| ==> (flags[i] <==> Master in upses[i].status)
    {
      FlagsTo(|upses|)
    }

    lemma MastersByFlags()
      requires Shape()
      ensures |Flags()| == |items| && Masters() == MastersOf(items, Flags())
    {
      ShapeParts();
      hide Shape, Distinct;
      forall s | s in Masters() ensures s in MastersOf(items, Flags()) {
        var i :| 0 <= i < |upses| && Master in upses[i].status && upses[i].sys == s;
        assert Flags()[i] && items[i].sys == s;
      }
      forall s | s in MastersOf(items, Flags()) ensures s in Masters() {
        var i :| 0 <= i < |items| && Flags()[i] && items[i].sys == s;
        assert upses[i].sys == s;
      }
    }

    /** The first loop of forceshutdown(): FSD is tried on every mastered UPS. */
    method TryFsdOnMasters() returns (isAMaster: bool)
      requires Valid() && env.Valid()
      modifies env
      ensures env.Valid() && old(env.trace) <= env.trace && |env.script| <= |old(env.script)|
      ensures isAMaster <==> Masters() != {}
      ensures forall u :: u in Masters() ==> Tried(env.trace, u)
      ensures forall i :: |old(env.trace)| <= i < |env.trace| && env.trace[i].FsdTry? ==> env.trace[i].ups in Masters()
      ensures NoCommand(env.trace[|old(env.trace)|..])
    {
      hide Honest, Shape, Lives, Tried, NoCommand, Masters;
      NoCommandYet(env.trace);
      isAMaster := false;
      var k := 0;
      while k < |upses|
        invariant 0 <= k <= |upses|
        invariant env.Valid() && old(env.trace) <= env.trace && |env.script| <= |old(env.script)|
        invariant isAMaster <==> exists i :: 0 <= i < k && Master in upses[i].status
        invariant forall i :: 0 <= i < k && Master in upses[i].status ==> Tried(env.trace, upses[i].sys)
        invariant forall i :: |old(env.trace)| <= i < |env.trace| && env.trace[i].FsdTry? ==> env.trace[i].ups in Masters()
        invariant NoCommand(env.trace[|old(env.trace)|..])
      {
        if Master in upses[k].status {
          isAMaster := true;
          ghost var t0 := env.trace;
          var _ := env.SendFsd(upses[k].sys);
          FsdSent(|old(env.trace)|, t0, env.trace, upses[k].sys);
          MasterListed(k);
          forall i | 0 <= i < k && Master in upses[i].status ensures Tried(env.trace, upses[i].sys) {
            TriedExtends(t0, env.trace, upses[i].sys);
          }
        }
        k := k + 1;
      }
      MastersEach();
    }

    lemma MasterListed(k: nat)
      requires k < |upses| && Master in upses[k].status
      ensures upses[k].sys in Masters()
    {
    }

    lemma MastersEach()
      ensures forall u :: u in Masters() ==> exists i :: 0 <= i < |upses| && Master in upses[i].status && upses[i].sys == u
      ensures Masters() != {} <==> exists i :: 0 <= i < |upses| && Master in upses[i].status
    {
      if i :| 0 <= i < |upses| && Master in upses[i].status { MasterListed(i); }
    }

    lemma SystemsDiffer(i: nat, k: nat)
      requires Shape() && i < k < |upses|
      ensures upses[i].sys != upses[k].sys
    {
      assert upses[i].AsItem() == items[i] && upses[k].AsItem() == items[k];
    }

    /** One question of slavesync(): the largest count so far, and what is known of the others. */
    method AskOne(sys: string, sofar: int, ghost s: nat) returns (maxlogins: int)
      requires env.Valid() && s <= |env.trace|
      modifies env
      ensures env.Valid() && old(env.trace) < env.trace && |env.script| <= |old(env.script)|
      ensures sofar <= maxlogins && LastSampleAtMost(env.trace[s..], sys, maxlogins)
      ensures forall v :: v != sys && LastSampleAtMost(old(env.trace)[s..], v, sofar) ==>
                LastSampleAtMost(env.trace[s..], v, maxlogins)
      ensures maxlogins > 1 ==> maxlogins == sofar || Busy(env.trace[s..], sys)
      ensures forall v :: v != sys && Busy(old(env.trace)[s..], v) ==> Busy(env.trace[s..], v)
      ensures NoCommand(env.trace[|old(env.trace)|..])
    {
      hide Honest, LastSampleAtMost, Clock, Busy;
      ghost var t0 := env.trace;
      var logins := env.AskLogins(sys);
      maxlogins := sofar;
      if logins.Some? && logins.value > maxlogins {
        maxlogins := logins.value;
        if maxlogins > 1 { BusyTaken(t0, env.trace, s, sys, logins); }
      }
      forall v | v != sys && Busy(t0[s..], v) ensures Busy(env.trace[s..], v) {
        OtherBusy(t0, env.trace, s, sys, logins, v);
      }
      SampleTaken(t0, env.trace, s, sys, logins, maxlogins);
      forall v | v != sys && LastSampleAtMost(t0[s..], v, sofar) ensures LastSampleAtMost(env.trace[s..], v, maxlogins) {
        OtherSampled(t0, env.trace, s, sys, logins, v, sofar, maxlogins);
      }
      NoCommandMore(|t0|, t0, env.trace);
    }

    /** One round of slavesync() over the list: the largest count that was answered. */
    method SampleRound(ghost s: nat) returns (maxlogins: int)
      requires Valid() && env.Valid() && s <= |env.trace|
      modifies env
      ensures env.Valid() && old(env.trace) <= env.trace && |env.script| <= |old(env.script)|
      ensures forall u :: u in Masters() ==> LastSampleAtMost(env.trace[s..], u, maxlogins)
      ensures maxlogins > 1 ==> exists u :: u in Masters() && Busy(env.trace[s..], u)
      ensures NoCommand(env.trace[|old(env.trace)|..])
    {
      hide Honest, Lives, Shape, LastSampleAtMost, Clock, NoCommand, Busy;
      NoCommandYet(env.trace);
      maxlogins := 0;
      var k := 0;
      while k < |upses|
        invariant 0 <= k <= |upses|
        invariant env.Valid() && old(env.trace) <= env.trace && |env.script| <= |old(env.script)|
        invariant forall i :: 0 <= i < k && Master in upses[i].status ==>
                    LastSampleAtMost(env.trace[s..], upses[i].sys, maxlogins)
        invariant maxlogins > 1 ==>
                    exists i :: 0 <= i < k && Master in upses[i].status && Busy(env.trace[s..], upses[i].sys)
        invariant NoCommand(env.trace[|old(env.trace)|..])
      {
        if Master in upses[k].status {
          ghost var t0 := env.trace;
          forall i | 0 <= i < k ensures upses[i].sys != upses[k].sys { SystemsDiffer(i, k); }
          ghost var sofar := maxlogins;
          maxlogins := AskOne(upses[k].sys, maxlogins, s);
          assert maxlogins > 1 && maxlogins != sofar ==> Busy(env.trace[s..], upses[k].sys);
          NoCommandJoin(|old(env.trace)|, t0, env.trace);
        }
        k := k + 1;
      }
    }

    /** slavesync(). It returns false only when the script ends before the wait does. */
    method SlaveSync() returns (finished: bool, ghost s: nat)
      requires Valid() && env.Valid()
      requires forall u :: u in Masters() ==> Tried(env.trace, u)
      modifies env
      ensures env.Valid() && old(env.trace) <= env.trace
      ensures NoCommand(env.trace[|old(env.trace)|..])
      ensures finished ==> |old(env.trace)| <= s && SyncedFrom(env.trace, Masters(), cfg.hostsync, s)
      ensures !finished ==> env.script == [] && StillWaiting(Masters(), cfg.hostsync, old(env.trace), env.trace)
    {
      hide Honest, Shape, Lives, Masters, Tried, LastSampleAtMost, Clock, Busy, StillWaiting, SyncedFrom, NoCommand;
      var start := env.Time();
      s := |env.trace|;
      ghost var atStart := env.trace;
      env.Note(SyncBegin);
      PeersThenOne(old(env.trace), atStart, env.trace);
      while true
        invariant env.Valid() && old(env.trace) <= env.trace && atStart + [SyncBegin] <= env.trace
        invariant NoCommand(env.trace[|old(env.trace)|..])
        decreases |env.script|
      {
        ghost var t0 := env.trace;
        var maxlogins := SampleRound(s);
        NoCommandJoin(|old(env.trace)|, t0, env.trace);
        if maxlogins <= 1 {
          RoundClear(old(env.trace), atStart, env.trace, Masters(), maxlogins, cfg.hostsync);
          return true, s;
        }
        ghost var t1 := env.trace;
        var now := env.Time();
        PeersNoCommand(t1, env.trace);
        NoCommandJoin(|old(env.trace)|, t1, env.trace);
        if now - start > cfg.hostsync {
          SyncExpired(old(env.trace), atStart, env.trace, Masters(), cfg.hostsync);
          return true, s;
        }
        if env.script == [] {
          ghost var u :| u in Masters() && Busy(t1[s..], u);
          BusyWaits(t1, env.trace, s, u);
          StillWaitingNow(Masters(), cfg.hostsync, old(env.trace), atStart, env.trace, u);
          return false, s;
        }
        ghost var t2 := env.trace;
        var _ := env.Pass();
        PeersNoCommand(t2, env.trace);
        NoCommandJoin(|old(env.trace)|, t2, env.trace);
      }
    }

    /** set_pdflag(), then the shutdown command. */
    method FlagAndCommand()
      requires env.Valid()
      modifies env
      ensures env.Valid() && env.trace == old(env.trace) + (if hasFlag then [PdFlag] else []) + [Command]
    {
      if hasFlag {
        env.Note(PdFlag);
      }
      env.Note(Command);
    }

    /** runparent(), from the moment its read returns with this byte. */
    method RunParent(byte: Option<int>)
      requires env.Valid()
      modifies env
      ensures env.Valid()
      ensures byte == Some(1) ==> env.trace == old(env.trace) + (if hasFlag then [PdFlag] else []) + [Command]
      ensures byte != Some(1) ==> env.trace == old(env.trace)
    {
      if byte != Some(1) { return; }
      FlagAndCommand();
    }

    /** doshutdown(), and in the split process mode its parent's reaction. */
    method DoShutdown()
      requires env.Valid()
      modifies env
      ensures env.Valid() && ShutdownTail(usePipe, hasFlag, old(env.trace), env.trace)
    {
      hide Honest;
      env.Note(NotifyShutdown);
      ghost var t1 := env.trace;
      var _ := env.Pass();
      ghost var t2 := env.trace;
      if usePipe {
        env.Note(PipeWrite);
        ghost var t3 := env.trace;
        var _ := env.Pass();
        ghost var t4 := env.trace;
        RunParent(Some(1));
        TailWithPipe(hasFlag, old(env.trace), t1, t2, t3, t4, env.trace);
      } else {
        FlagAndCommand();
        TailWithoutPipe(hasFlag, old(env.trace), t1, t2, env.trace);
      }
    }

    /** forceshutdown(). It returns false only when the script ends during the wait for slaves. */
    method ForceShutdown() returns (done: bool)
      requires Valid() && env.Valid()
      modifies env
      ensures env.Valid() && old(env.trace) <= env.trace
      ensures !done ==> NoCommand(env.trace[|old(env.trace)|..])
      ensures !done ==> env.script == [] && StillWaiting(Masters(), cfg.hostsync, old(env.trace), env.trace)
      ensures done ==> SafeShutdown(usePipe, hasFlag, Masters(), cfg.hostsync, old(env.trace), env.trace)
    {
      hide Honest, SyncedFrom, NoCommand, ShutdownTail, Tried, StillWaiting;
      var isAMaster := TryFsdOnMasters();
      ghost var t1 := env.trace;
      if !isAMaster {
        DoShutdown();
        TailExtends(usePipe, hasFlag, t1, env.trace);
        assert SafeAt(usePipe, hasFlag, Masters(), cfg.hostsync, old(env.trace), t1, env.trace);
        return true;
      }
      var finished, s := SlaveSync();
      ghost var t2 := env.trace;
      NoCommandJoin(|old(env.trace)|, t1, t2);
      if !finished {
        StillWaitingEarlier(Masters(), cfg.hostsync, old(env.trace), t1, t2);
        return false;
      }
      DoShutdown();
      SafeAfterSync(usePipe, hasFlag, Masters(), cfg.hostsync, old(env.trace), t1, s, t2, env.trace);
      return true;
    }

    // ----- the configuration -----

    ghost function AsTable(): Table
      reads this, upses`status
    {
      Table(items, totalpv, Masters())
    }

    ghost function AsConf(): Conf
      reads this, upses`status
    {
      Conf(AsTable(), minsupplies, cfg)
    }

    /** The search of addups() for a system that is already listed. */
    method FindSystem(sys: string) returns (k: nat)
      requires Shape()
      ensures k == Find(items, sys)
    {
      hide Distinct;
      k := 0;
      while k < |upses|
        invariant 0 <= k <= |upses|
        invariant forall i :: 0 <= i < k ==> items[i].sys != sys
      {
        assert upses[k].AsItem() == items[k];
        if upses[k].sys == sys {
          FindUnique(items, sys, k);
          return;
        }
        k := k + 1;
      }
      FindUnique(items, sys, k);
    }

    /** addups(), with redefine_ups() for a listed system at a reload. */
    method AddUps(m: Monitor, reloading: bool)
      requires Valid()
      modifies this`upses, this`items, this`totalpv, upses
      ensures Valid() && AsTable() == Add(old(AsTable()), m, reloading)
      ensures forall u :: u in upses && u in old(upses) ==> Reconfigured(old(u.View()), u.View())
      ensures forall u :: u in upses && u in old(upses) && u.sys != m.sys ==> u.View() == old(u.View())
      ensures forall u :: u in upses && u !in old(upses) ==> fresh(u) && Reconfigured(NewRec(false), u.View())
      ensures forall i :: 0 <= i < |upses| ==> upses[i] in old(upses) || fresh(upses[i])
    {
      hide Shape, Lives, Find, Reconfigured, Assign, RoleAfter, Masters;
      ShapeParts();
      forall u | u in upses ensures Reconfigured(u.View(), u.View()) { NotReconfigured(u.View()); }
      if m.pv < 0 { return; }
      var k := FindSystem(m.sys);
      if k < |upses| {
        if reloading { RedefineAt(k, m); }
      } else {
        Append(m);
      }
    }

    /** redefine_ups() for the record at this position. */
    method RedefineAt(k: nat, m: Monitor)
      requires Valid() && k == Find(items, m.sys) < |upses|
      modifies this`items, this`totalpv, upses[k]
      ensures Valid() && items == old(items)[k := Item(m.sys, m.pv, true)] && totalpv == old(totalpv) + m.pv
      ensures Masters() == Assign(old(Masters()), m.sys, RoleAfter(m.role, m.sys in old(Masters())))
      ensures Reconfigured(old(upses[k].View()), upses[k].View())
    {
      var x := Item(m.sys, m.pv, true);
      hide LifeOk, Find, Run, Distinct, Reconfigured, RoleAfter, Assign, Shape, Masters, Flags, MastersOf, Ups.View;
      ShapeParts();
      MastersByFlags();
      FlagAt(items, Flags(), k);
      DistinctUpdate(items, k, x);
      ghost var b := RoleAfter(m.role, Flags()[k]);
      AssignFlag(items, Flags(), k, x, b);
      ghost var r, flags := upses[k].View(), Flags();
      ghost var steps := upses[k].Redefine(m, cfg);
      RunKeepsLife(cfg, r, steps);
      items := items[k := x];
      totalpv := totalpv + m.pv;
      assert Flags() == flags[k := b];
      assert upses[k].pv == m.pv && upses[k].retain by { assert upses[k].AsItem() == x; }
      ShapeWhole();
      MastersByFlags();
    }

    /** The new record at the end of the list. */
    method Append(m: Monitor)
      requires Valid() && Find(items, m.sys) == |items|
      modifies this`upses, this`items, this`totalpv
      ensures Valid() && items == old(items) + [Item(m.sys, m.pv, true)] && totalpv == old(totalpv) + m.pv
      ensures Masters() == Assign(old(Masters()), m.sys, RoleAfter(m.role, false))
      ensures |upses| == |old(upses)| + 1 && old(upses) <= upses && fresh(upses[|upses| - 1])
      ensures Reconfigured(NewRec(false), upses[|upses| - 1].View())
    {
      var x := Item(m.sys, m.pv, true);
      hide LifeOk, Distinct, Assign, Shape, Masters, Flags, MastersOf, Find;
      ShapeParts();
      MastersByFlags();
      DistinctAppend(items, x);
      ghost var b, flags := RoleAfter(m.role, false), Flags();
      AppendFlag(items, flags, x, b);
      var u := new Ups(m);
      NewLife(Fold(m.role) == "master");
      hide Fold;
      assert b <==> Master in u.status;
      assert u.AsItem() == x;
      upses := upses + [u];
      items := items + [x];
      totalpv := totalpv + m.pv;
      assert Flags() == flags + [b];
      ShapeWhole();
      MastersByFlags();
    }

    /** One directive of the configuration file. */
    method ApplyDirective(d: Directive, reloading: bool)
      requires Valid()
      modifies this, upses
      ensures Valid() && AsConf() == Direct(old(AsConf()), d, reloading)
      ensures forall u :: u in upses && u in old(upses) ==> Reconfigured(old(u.View()), u.View())
      ensures forall u :: u in upses && u !in old(upses) ==> fresh(u) && Reconfigured(NewRec(false), u.View())
      ensures forall i :: 0 <= i < |upses| ==> upses[i] in old(upses) || fresh(upses[i])
    {
      hide Shape, Lives, Reconfigured, Add, Masters;
      forall u | u in upses ensures Reconfigured(u.View(), u.View()) { NotReconfigured(u.View()); }
      match d {
        case MonitorLine(m) => AddUps(m, reloading);
        case MinSupplies(n) => minsupplies := n;
        case Timing(c) => cfg := c;
      }
    }

    /** loadconfig(): the directives that matter here, in file order. */
    method LoadConfig(ds: seq<Directive>, reloading: bool)
      requires Valid()
      modifies this, upses
      ensures Valid() && AsConf() == Configure(old(AsConf()), ds, reloading)
      ensures forall u :: u in upses && u in old(upses) ==> Reconfigured(old(u.View()), u.View())
      ensures forall u :: u in upses && u !in old(upses) ==> fresh(u) && Reconfigured(NewRec(false), u.View())
      ensures forall i :: 0 <= i < |upses| ==> upses[i] in old(upses) || fresh(upses[i])
    {
      hide Shape, Lives, Direct, AsConf, Reconfigured, NewRec, Ups.View;
      forall u | u in upses ensures Reconfigured(u.View(), u.View()) { NotReconfigured(u.View()); }
      var k := 0;
      assert ds[..0] == [];
      while k < |ds|
        invariant 0 <= k <= |ds|
        invariant Valid() && AsConf() == Configure(old(AsConf()), ds[..k], reloading)
        invariant forall u :: u in upses && u in old(upses) ==> Reconfigured(old(u.View()), u.View())
        invariant forall u :: u in upses && u !in old(upses) ==> fresh(u) && Reconfigured(NewRec(false), u.View())
        invariant forall i :: 0 <= i < |upses| ==> upses[i] in old(upses) || fresh(upses[i])
      {
        ConfigureSnoc(old(AsConf()), ds, k, reloading);
        label before:
        ApplyDirective(ds[k], reloading);
        forall u | u in upses && u in old@before(upses)
          ensures u in old(upses) ==> Reconfigured(old(u.View()), u.View())
          ensures u !in old(upses) ==> Reconfigured(NewRec(false), u.View())
        {
          ReconfiguredTwice(if u in old(upses) then old(u.View()) else NewRec(false), old@before(u.View()), u.View());
        }
        k := k + 1;
      }
      assert ds[..k] == ds;
    }

    /** The first loop of reload_conf(). */
    method ClearRetain()
      requires Valid()
      modifies this`items, upses`retain
      ensures Valid() && items == Unretained(old(items))
    {
      hide Shape, Lives, Distinct, Unretained;
      ShapeParts();
      UnretainedDistinct(items);
      var k := 0;
      while k < |upses|
        invariant 0 <= k <= |upses| && items == old(items)
        invariant forall i :: 0 <= i < k ==> !upses[i].retain
      {
        upses[k].retain := false;
        k := k + 1;
      }
      items := Unretained(items);
      ShapeWhole();
    }

    ghost predicate Apart()
      reads this`upses
    {
      forall i, j :: 0 <= i < j < |upses| ==> upses[i] != upses[j]
    }

    lemma ShapeParts()
      requires Shape()
      ensures |items| == |upses| && Distinct(items) && Apart()
      ensures forall i :: 0 <= i < |upses| ==>
                upses[i].sys == items[i].sys && upses[i].pv == items[i].pv && upses[i].retain == items[i].retain
    {
      forall i | 0 <= i < |upses|
        ensures upses[i].sys == items[i].sys && upses[i].pv == items[i].pv && upses[i].retain == items[i].retain
      {
        assert upses[i].AsItem() == items[i];
      }
    }

    lemma ShapeWhole()
      requires |items| == |upses| && Distinct(items) && Apart()
      requires forall i :: 0 <= i < |upses| ==>
                 upses[i].sys == items[i].sys && upses[i].pv == items[i].pv && upses[i].retain == items[i].retain
      ensures Shape()
    {
    }

    /** delete_ups(), for the record at this position. The other records keep their state. */
    method DeleteUps(k: nat)
      requires Valid() && k < |upses|
      modifies this`upses, this`items, upses[k]
      ensures Valid() && items == old(items)[..k] + old(items)[k + 1..]
      ensures upses == old(upses)[..k] + old(upses)[k + 1..]
      ensures Masters() == old(Masters()) - {old(items)[k].sys}
      ensures forall u :: u in upses ==> u in old(upses) && u.View() == old(u.View())
    {
      hide LifeOk, Distinct, Shape, Masters, Flags, MastersOf, Ups.View;
      ShapeParts();
      MastersByFlags();
      DistinctWithout(items, k);
      ghost var flags, was := Flags(), upses;
      DropFlag(items, flags, k);
      upses[k].DropConnection();
      upses := upses[..k] + upses[k + 1..];
      items := items[..k] + items[k + 1..];
      forall i | 0 <= i < |upses| ensures upses[i] == was[if i < k then i else i + 1] && upses[i] != was[k] {}
      assert Flags() == flags[..k] + flags[k + 1..];
      ShapeWhole();
      MastersByFlags();
    }

    /** The last loop of reload_conf(): systems that were not named again are dropped. */
    method DeleteUnretained()
      requires Valid()
      modifies this`upses, this`items, upses
      ensures Valid() && items == Retained(old(items))
      ensures Masters() == StillListed(old(Masters()), items)
      ensures forall u :: u in upses ==> u in old(upses) && u.View() == old(u.View())
    {
      hide Shape, Lives, Retained, Distinct, Masters, StillListed, Ups.View;
      RetainedNothing();
      MastersAllListed();
      ghost var was := items;
      var k := 0;
      ghost var j := 0;
      assert was[..0] == [] && was[0..] == was && [] + was == was;
      while k < |upses|
        invariant Valid() && 0 <= j <= |was| && k == |Retained(was[..j])|
        invariant items == Retained(was[..j]) + was[j..]
        invariant Masters() == StillListed(old(Masters()), items)
        invariant forall u :: u in upses ==> u in old(upses) && u.View() == old(u.View())
        invariant forall i :: 0 <= i < |upses| ==> upses[i] in old(upses)
        decreases |was| - j
      {
        ItemAt(k);
        RetainedStep(was, j, items);
        if !upses[k].retain {
          DropListed(old(Masters()), items, k);
          DeleteUps(k);
        } else {
          k := k + 1;
        }
        j := j + 1;
      }
      SameLength();
      assert was[..j] == was && Retained(was) + [] == Retained(was);
    }

    lemma ItemAt(k: nat)
      requires Shape() && k < |upses|
      ensures Distinct(items) && k < |items| && items[k].retain == upses[k].retain
    {
      assert upses[k].AsItem() == items[k];
    }

    lemma MastersAllListed()
      requires Shape()
      ensures Masters() == StillListed(Masters(), items)
    {
      MastersByFlags();
      MastersListed(items, Flags());
    }

    lemma SameLength()
      requires Shape()
      ensures |items| == |upses|
    {
    }

    /** Enough power is configured, and the total says so truthfully. */
    ghost predicate PowerOk()
      reads this
    {
      totalpv == Sum(items) && totalpv >= minsupplies
    }

    /** loadconfig() and the check of the total at startup. */
    method Startup(ds: seq<Directive>) returns (fatal: bool)
      requires Valid() && upses == [] && totalpv == 0
      modifies this, upses
      ensures Valid() && AsConf() == Configure(old(AsConf()), ds, false)
      ensures AsTable() == Load(NOTHING, Monitors(ds), false)
      ensures forall sys :: sys in Masters() <==> MasterFirst(Monitors(ds), sys)
      ensures fatal <==> totalpv < minsupplies
      ensures !fatal ==> PowerOk()
      ensures forall u :: u in upses ==> fresh(u) && Reconfigured(NewRec(false), u.View())
      ensures forall i :: 0 <= i < |upses| ==> fresh(upses[i])
    {
      hide Lives, Reconfigured, Load, Configure, Monitors, MasterFirst, Sum;
      ShapeParts();
      assert AsTable() == NOTHING;
      hide Shape;
      ghost var c := AsConf();
      LoadConfig(ds, false);
      ConfigureTable(c, ds, false);
      StartupTotal(Monitors(ds));
      forall sys ensures sys in Masters() <==> MasterFirst(Monitors(ds), sys) { StartupMasters(Monitors(ds), sys); }
      fatal := totalpv < minsupplies;
    }

    method ResetTotal()
      requires Valid()
      modifies this`totalpv
      ensures Valid() && totalpv == 0
    {
      totalpv := 0;
    }

    /** reload_conf(); None is a file that cannot be opened, which changes nothing. */
    method ReloadConf(conf: Option<seq<Directive>>) returns (fatal: bool)
      requires Valid()
      modifies this, upses
      ensures Valid()
      ensures conf == None ==> !fatal && AsConf() == old(AsConf()) && upses == old(upses)
      ensures conf == None ==> forall u :: u in upses ==> u.View() == old(u.View())
      ensures conf.Some? ==> AsConf() == Reconfigure(old(AsConf()), conf.value) && (fatal <==> totalpv < minsupplies)
      ensures forall u :: u in upses && u in old(upses) ==> Reconfigured(old(u.View()), u.View())
      ensures forall u :: u in upses && u !in old(upses) ==> fresh(u) && Reconfigured(NewRec(false), u.View())
      ensures forall i :: 0 <= i < |upses| ==> upses[i] in old(upses) || fresh(upses[i])
    {
      hide Shape, Lives, Configure, Retained, Unretained, StillListed, Reconfigured, NewRec, Ups.View, Masters;
      if conf == None {
        forall u | u in upses ensures Reconfigured(u.View(), u.View()) { NotReconfigured(u.View()); }
        return false;
      }
      ClearRetain();
      ResetTotal();
      assert AsConf() == old(AsConf()).(table := Begin(old(AsTable())));
      LoadConfig(conf.value, true);
      DeleteUnretained();
      fatal := totalpv < minsupplies;
    }

    // ----- the main loop -----

    /** The critical timer of every record is as young as what happened to it. */
    ghost predicate Timed()
      reads this, upses, env
    {
      forall i :: 0 <= i < |upses| ==> TimerOk(upses[i].View(), Clock(env.trace))
    }

    /** One poll of the round. */
    method PollOne(u: Ups, c: Connect, a: Answer)
      requires env.Valid() && LifeOk(u.View())
      modifies u, env
      ensures env.Valid() && PeersSince(old(env.trace), env.trace)
      ensures Polled(cfg, old(u.View()), c, a, Clock(old(env.trace)), Clock(env.trace), u.View())
      ensures LifeOk(u.View()) && u.AsItem() == old(u.AsItem())
    {
      hide Run, LifeOk, PollupsSteps, Honest, Between, Clock;
      ghost var r, conn := u.View(), Connected in u.status;
      ghost var t, ts := u.PollUps(cfg, c, a, env);
      RunKeepsLife(cfg, r, PollupsSteps(conn, c, a, t, ts));
    }

    /** pollups() for every record. */
    method PollAll(polls: nat -> (Connect, Answer))
      requires Valid() && env.Valid()
      modifies upses, env
      ensures Valid() && env.Valid() && PeersSince(old(env.trace), env.trace)
      ensures forall i :: 0 <= i < |upses| ==>
                Polled(cfg, old(upses[i].View()), polls(i).0, polls(i).1, Clock(old(env.trace)), Clock(env.trace), upses[i].View())
    {
      hide LifeOk, Honest, PeersSince, Distinct, Clock, Polled, Ups.View;
      PeersReflexive(env.trace);
      ghost var lo := Clock(env.trace);
      var k := 0;
      while k < |upses|
        invariant 0 <= k <= |upses|
        invariant Valid() && env.Valid() && PeersSince(old(env.trace), env.trace)
        invariant forall i :: 0 <= i < k ==>
                    Polled(cfg, old(upses[i].View()), polls(i).0, polls(i).1, lo, Clock(env.trace), upses[i].View())
        invariant forall i :: k <= i < |upses| ==> upses[i].View() == old(upses[i].View())
      {
        ghost var t0 := env.trace;
        label before:
        PollOne(upses[k], polls(k).0, polls(k).1);
        PeersTransitive(old(env.trace), t0, env.trace);
        ghost var hi := Clock(env.trace);
        forall i | 0 <= i <= k
          ensures Polled(cfg, old(upses[i].View()), polls(i).0, polls(i).1, lo, hi, upses[i].View())
        {
          PolledWiden(cfg, old(upses[i].View()), polls(i).0, polls(i).1,
                      if i < k then lo else Clock(t0), if i < k then Clock(t0) else hi, upses[i].View(), lo, hi);
        }
        k := k + 1;
      }
    }

    /** The judgements of a recalculation, in list order, and the moments they were made at. */
    ghost predicate Judged(crit: seq<bool>, ts: seq<int>)
      reads this, upses, env
    {
      && |crit| == |ts| == |upses| == |items|
      && forall i :: 0 <= i < |upses| ==> crit[i] == Critical(cfg, upses[i].View(), ts[i]) && ts[i] <= Clock(env.trace)
    }

    /** recalc(), with the shutdown it forces if and only if too little power is online. */
    method RecalcAndAct() returns (r: Result, ghost now: int, ghost crit: seq<bool>, ghost ts: seq<int>)
      requires Valid() && env.Valid()
      modifies upses`status, env
      ensures Valid() && env.Valid() && old(env.trace) <= env.trace
      ensures r == Continue || r == Shut || r == Cut
      ensures r == Shut ==> SafeShutdown(usePipe, hasFlag, Masters(), cfg.hostsync, old(env.trace), env.trace)
      ensures r != Shut ==> NoCommand(env.trace[|old(env.trace)|..])
      ensures r == Cut ==> env.script == [] && StillWaiting(Masters(), cfg.hostsync, old(env.trace), env.trace)
      ensures Judged(crit, ts) && (r == Continue <==> OnlinePower(items, crit) >= minsupplies)
      ensures Clock(old(env.trace)) <= now <= Clock(env.trace)
      ensures forall i :: 0 <= i < |upses| ==> upses[i].View() == Promote(cfg, old(upses[i].View()), now)
    {
      hide Shape, Lives, Honest, NoCommand, SafeShutdown, Critical, Promote, OnlinePower, Clock, Masters, Ups.View;
      SameLength();
      ghost var t0 := env.trace;
      var force;
      force, now, crit, ts := Recalc();
      ghost var t1 := env.trace;
      PeersNoCommand(t0, t1);
      if !force {
        return Continue, now, crit, ts;
      }
      var done := ForceShutdown();
      PrefixClock(t1, env.trace);
      if done {
        SafeEarlier(usePipe, hasFlag, Masters(), cfg.hostsync, t0, t1, env.trace);
        r := Shut;
      } else {
        NoCommandJoin(|t0|, t1, env.trace);
        r := Cut;
      }
    }

    /** The polls of a pass and the recalculation after them. */
    method PollAndRecalc(polls: nat -> (Connect, Answer)) returns (r: Result, ghost crit: seq<bool>, ghost ts: seq<int>)
      requires Valid() && env.Valid()
      modifies upses, env
      ensures Valid() && env.Valid() && old(env.trace) <= env.trace
      ensures r == Continue || r == Shut || r == Cut
      ensures r == Shut ==> SafeShutdown(usePipe, hasFlag, Masters(), cfg.hostsync, old(env.trace), env.trace)
      ensures r != Shut ==> NoCommand(env.trace[|old(env.trace)|..])
      ensures r == Cut ==> env.script == [] && StillWaiting(Masters(), cfg.hostsync, old(env.trace), env.trace)
      ensures Judged(crit, ts) && (r == Continue <==> OnlinePower(items, crit) >= minsupplies)
      ensures forall i :: 0 <= i < |upses| ==>
                Passed(cfg, old(upses[i].View()), polls(i).0, polls(i).1, Clock(old(env.trace)), Clock(env.trace), upses[i].View())
    {
      hide Shape, Lives, Honest, NoCommand, SafeShutdown, Polled, Promote, OnlinePower, Clock, Masters, Judged, Ups.View;
      ghost var t0 := env.trace;
      PollAll(polls);
      ghost var t1 := env.trace;
      PeersNoCommand(t0, t1);
      label polled:
      ghost var now;
      r, now, crit, ts := RecalcAndAct();
      forall i | 0 <= i < |upses|
        ensures Passed(cfg, old(upses[i].View()), polls(i).0, polls(i).1, Clock(t0), Clock(env.trace), upses[i].View())
      {
        PolledWiden(cfg, old(upses[i].View()), polls(i).0, polls(i).1, Clock(t0), Clock(t1),
                    old@polled(upses[i].View()), Clock(t0), now);
        assert upses[i].View() == Promote(cfg, old@polled(upses[i].View()), now);
      }
      if r == Shut {
        SafeEarlier(usePipe, hasFlag, Masters(), cfg.hostsync, t0, t1, env.trace);
      } else {
        NoCommandJoin(|t0|, t1, env.trace);
      }
    }

    /** A pass without a reload and its consequences for the roles and the timers. */
    method Watch(polls: nat -> (Connect, Answer)) returns (r: Result, ghost crit: seq<bool>, ghost ts: seq<int>)
      requires Valid() && env.Valid() && Timed()
      modifies upses, env
      ensures Valid() && env.Valid() && Timed() && old(env.trace) <= env.trace
      ensures r == Continue || r == Shut || r == Cut
      ensures r == Shut ==> SafeShutdown(usePipe, hasFlag, Masters(), cfg.hostsync, old(env.trace), env.trace)
      ensures r != Shut ==> NoCommand(env.trace[|old(env.trace)|..])
      ensures r == Cut ==> env.script == [] && StillWaiting(Masters(), cfg.hostsync, old(env.trace), env.trace)
      ensures Judged(crit, ts) && Sure(ts) && (r == Continue <==> OnlinePower(items, crit) >= minsupplies)
      ensures forall i :: 0 <= i < |upses| ==>
                Passed(cfg, old(upses[i].View()), polls(i).0, polls(i).1, Clock(old(env.trace)), Clock(env.trace), upses[i].View())
      ensures AsConf() == old(AsConf()) && Prompted(polls, crit)
    {
      hide Shape, Lives, Honest, NoCommand, SafeShutdown, Passed, OnlinePower, Clock, Critical, TimerOk, SlaveSure, NotBoth,
           Prompt, StillWaiting;
      Unmixed();
      ghost var lo := Clock(env.trace);
      r, crit, ts := PollAndRecalc(polls);
      ghost var hi := Clock(env.trace);
      forall i | 0 <= i < |upses|
        ensures (Master in upses[i].status <==> Master in old(upses[i].status))
        ensures TimerOk(upses[i].View(), hi) && SlaveSure(cfg, upses[i].View(), ts[i])
        ensures Prompt(polls(i).0, polls(i).1, upses[i].View(), crit[i])
      {
        PassedPrompt(cfg, old(upses[i].View()), polls(i).0, polls(i).1, lo, hi, upses[i].View(), ts[i]);
        PassedKeeps(cfg, old(upses[i].View()), polls(i).0, polls(i).1, lo, hi, upses[i].View());
        TimerMakesSure(cfg, upses[i].View(), hi, ts[i]);
      }
      assert Masters() == old(Masters());
    }

    lemma Unmixed()
      requires Lives()
      ensures forall i :: 0 <= i < |upses| ==> NotBoth(upses[i].View())
    {
      forall i | 0 <= i < |upses| ensures NotBoth(upses[i].View()) { LifeParts(upses[i].View()); }
    }

    /** Every judgement agrees with what the answer of the pass shows. */
    ghost predicate Prompted(polls: nat -> (Connect, Answer), crit: seq<bool>)
      reads this, upses
    {
      |crit| == |upses| && forall i :: 0 <= i < |upses| ==> Prompt(polls(i).0, polls(i).1, upses[i].View(), crit[i])
    }

    /** No record that this host is not the master of was judged critical too early. */
    ghost predicate Sure(ts: seq<int>)
      reads this, upses
    {
      |ts| == |upses| && forall i :: 0 <= i < |upses| ==> SlaveSure(cfg, upses[i].View(), ts[i])
    }

    /** What becomes of a record in a pass that may begin with a reload: one that was in the list
        changes its role and connection, a new one starts afresh; then it is polled and promoted. */
    ghost predicate WentOn(known: bool, r: Rec, i: nat, it: Iteration, lo: int, hi: int)
      reads this, upses
    {
      i < |upses| && Reread(cfg, if known then r else NewRec(false), it.polls(i).0, it.polls(i).1, lo, hi, upses[i].View())
    }

    /** The body of the main loop, where the user has not asked for a shutdown. */
    method Regular(it: Iteration) returns (r: Result, ghost crit: seq<bool>, ghost ts: seq<int>)
      requires Valid() && env.Valid() && Timed()
      modifies this, upses, env
      ensures Valid() && env.Valid() && Timed() && old(env.trace) <= env.trace
      ensures forall i :: 0 <= i < |upses| ==> upses[i] in old(upses) || fresh(upses[i])
      ensures r == Shut ==> SafeShutdown(usePipe, hasFlag, Masters(), cfg.hostsync, old(env.trace), env.trace)
      ensures r != Shut ==> NoCommand(env.trace[|old(env.trace)|..])
      ensures r == Cut ==> env.script == [] && StillWaiting(Masters(), cfg.hostsync, old(env.trace), env.trace)
      ensures AsConf() == Reloads(old(AsConf()), it)
      ensures r == Fatal ==> |crit| == |ts| == 0
      ensures r != Fatal ==> Judged(crit, ts) && Sure(ts) && (r == Continue <==> OnlinePower(items, crit) >= minsupplies)
      ensures r != Fatal ==> Prompted(it.polls, crit)
      ensures r == Fatal <==> Rereads(it) && totalpv < minsupplies
      ensures r != Fatal ==> forall i :: 0 <= i < |upses| ==>
                var u := upses[i];
                if u in old(upses) then WentOn(true, old(u.View()), i, it, Clock(old(env.trace)), Clock(env.trace))
                else WentOn(false, NewRec(false), i, it, Clock(old(env.trace)), Clock(env.trace))
      ensures it.reload == None ==>
                upses == old(upses) && forall i :: 0 <= i < |upses| ==>
                  Passed(cfg, old(upses[i].View()), it.polls(i).0, it.polls(i).1, Clock(old(env.trace)), Clock(env.trace), upses[i].View())
    {
      hide Shape, Lives, Honest, NoCommand, SafeShutdown, Critical, Sum, Passed, OnlinePower, Clock, Masters, Ups.View,
           TimerOk, Reconfigured, Reloads, SlaveSure, NewRec, Judged, Timed, Sure, Prompted, StillWaiting;
      ghost var t0 := env.trace;
      PeersReflexive(t0);
      PeersNoCommand(t0, t0);
      var fatal := MaybeReload(it);
      if fatal {
        return Fatal, [], [];
      }
      label reread:
      r, crit, ts := Watch(it.polls);
      ghost var lo, hi := Clock(t0), Clock(env.trace);
      forall i | 0 <= i < |upses|
        ensures var u := upses[i];
                if u in old(upses) then WentOn(true, old(u.View()), i, it, lo, hi)
                else WentOn(false, NewRec(false), i, it, lo, hi)
      {
        assert Passed(cfg, old@reread(upses[i].View()), it.polls(i).0, it.polls(i).1, lo, hi, upses[i].View());
      }
    }

    /** The body of the main loop. */
    method Iterate(it: Iteration) returns (r: Result, ghost crit: seq<bool>, ghost ts: seq<int>)
      requires Valid() && env.Valid() && Timed()
      modifies this, upses, env
      ensures Valid() && env.Valid() && Timed() && old(env.trace) <= env.trace
      ensures forall i :: 0 <= i < |upses| ==> upses[i] in old(upses) || fresh(upses[i])
      ensures r == Shut ==> SafeShutdown(usePipe, hasFlag, Masters(), cfg.hostsync, old(env.trace), env.trace)
      ensures r != Shut ==> NoCommand(env.trace[|old(env.trace)|..])
      ensures r == Cut ==> env.script == [] && StillWaiting(Masters(), cfg.hostsync, old(env.trace), env.trace)
      ensures it.userfsd ==> (r == Shut || r == Cut) && AsConf() == old(AsConf()) && |crit| == |ts| == 0
      ensures !it.userfsd ==> AsConf() == Reloads(old(AsConf()), it)
      ensures r == Fatal ==> |crit| == |ts| == 0
      ensures r == Fatal <==> !it.userfsd && Rereads(it) && totalpv < minsupplies
      ensures !it.userfsd && r != Fatal ==>
                Judged(crit, ts) && Sure(ts) && (r == Continue <==> OnlinePower(items, crit) >= minsupplies)
      ensures !it.userfsd && r != Fatal ==> Prompted(it.polls, crit)
      ensures !it.userfsd && r != Fatal ==> forall i :: 0 <= i < |upses| ==>
                var u := upses[i];
                if u in old(upses) then WentOn(true, old(u.View()), i, it, Clock(old(env.trace)), Clock(env.trace))
                else WentOn(false, NewRec(false), i, it, Clock(old(env.trace)), Clock(env.trace))
      ensures !it.userfsd && it.reload == None ==>
                upses == old(upses) && forall i :: 0 <= i < |upses| ==>
                  Passed(cfg, old(upses[i].View()), it.polls(i).0, it.polls(i).1, Clock(old(env.trace)), Clock(env.trace), upses[i].View())
      ensures old(PowerOk()) && TruthfulReload(it) && r == Continue ==> PowerOk()
      ensures old(PowerOk()) && TruthfulReload(it) && (r == Shut || r == Cut) ==>
                it.userfsd || exists i :: 0 <= i < |crit| && crit[i]
    {
      hide Shape, Lives, Honest, NoCommand, SafeShutdown, Sum, Passed, OnlinePower, Clock, Masters, Ups.View, TimerOk,
           Reconfigure, TruthfulReload, Distinct, NewRec, Sure, WentOn, Prompted, StillWaiting;
      if it.userfsd {
        ghost var t0 := env.trace;
        var done := ForceShutdown();
        PrefixClock(t0, env.trace);
        StillTimed(Clock(t0));
        return if done then Shut else Cut, [], [];
      }
      ShapeParts();
      if TruthfulReload(it) { TruthfulTotal(AsConf(), it); }
      r, crit, ts := Regular(it);
      if r != Fatal && r != Continue {
        JudgedSize(crit, ts);
        SameLength();
        if forall i :: 0 <= i < |crit| ==> !crit[i] { NothingCritical(items, crit); }
      }
    }

    lemma StillTimed(lo: int)
      requires lo <= Clock(env.trace) && forall i :: 0 <= i < |upses| ==> TimerOk(upses[i].View(), lo)
      ensures Timed()
    {
      forall i | 0 <= i < |upses| ensures TimerOk(upses[i].View(), Clock(env.trace)) {
        TimerLater(upses[i].View(), lo, Clock(env.trace));
      }
    }

    /** The reload of a pass, if one was asked for. */
    method MaybeReload(it: Iteration) returns (fatal: bool)
      requires Valid() && env.Valid() && Timed()
      modifies this, upses
      ensures Valid() && Timed() && AsConf() == Reloads(old(AsConf()), it)
      ensures fatal <==> Rereads(it) && totalpv < minsupplies
      ensures it.reload == None ==> upses == old(upses) && forall u :: u in upses ==> u.View() == old(u.View())
      ensures forall u :: u in upses && u in old(upses) ==> Reconfigured(old(u.View()), u.View())
      ensures forall u :: u in upses && u !in old(upses) ==> fresh(u) && Reconfigured(NewRec(false), u.View())
      ensures forall i :: 0 <= i < |upses| ==> upses[i] in old(upses) || fresh(upses[i])
    {
      hide Shape, Lives, Honest, Clock, Masters, Ups.View, TimerOk, Reconfigured, Reconfigure, NewRec;
      ghost var now := Clock(env.trace);
      if it.reload == None {
        forall u | u in upses ensures Reconfigured(u.View(), u.View()) { NotReconfigured(u.View()); }
        return false;
      }
      fatal := ReloadConf(it.reload.value);
      forall i | 0 <= i < |upses| ensures TimerOk(upses[i].View(), now) {
        var u := upses[i];
        NewTimer(now);
        ReconfiguredTimer(if u in old(upses) then old(u.View()) else NewRec(false), u.View(), now);
      }
    }

    /** A UPS whose polls show OB and LB from pass k on has both set, and its timer stands since then. */
    ghost predicate Aging(its: seq<Iteration>, ends: seq<int>, n: nat)
      reads this, upses
    {
      |ends| == n && forall i: nat, k: nat :: i < |upses| && k < n && Standing(its, i, k, n) ==>
        BattLow(upses[i].View()) && upses[i].View().lastnoncrit <= ends[k]
    }

    /** A UPS that is silent since pass k is as its last reply showed it. */
    ghost predicate Quiet(its: seq<Iteration>, ends: seq<int>, n: nat)
      reads this, upses
    {
      |ends| == n && forall i: nat, k: nat :: i < |upses| && k < n && Hushed(its, i, k, n) ==>
        HushState(its[k].polls(i).0, its[k].polls(i).1, upses[i].View(), ends[k])
    }

    /** How silent UPSes are judged in pass n - 1: never critical if they were on line; critical, on
        their master, if they were on battery and the pass began more than DEADTIME seconds later. */
    ghost predicate Heard(its: seq<Iteration>, ends: seq<int>, n: nat, crit: seq<bool>)
      reads this, upses
    {
      |ends| == n && |crit| == |upses| && forall i: nat, k: nat :: i < |upses| && k < n && Hushed(its, i, k, n) ==>
        && (ShowsOnLine(its[k].polls(i).0, its[k].polls(i).1) ==> !crit[i])
        && (k + 1 < n && ShowsOnBatt(its[k].polls(i).0, its[k].polls(i).1) && Master in upses[i].View().status ==>
              ends[n - 2] - ends[k] > cfg.deadtime ==> crit[i])
    }

    /** What the passes so far have left in the records, and when each of them ended. */
    ghost predicate Watched(its: seq<Iteration>, ends: seq<int>, n: nat)
      reads this, upses, env
    {
      |ends| == n && Aging(its, ends, n) && Quiet(its, ends, n) && (n > 0 ==> ends[n - 1] == Clock(env.trace))
    }

    /** What holds of the judgements of the last of n passes. A UPS not mastered here is critical, FSD
        apart, only if OB and LB are set and no status word left them otherwise for HOSTSYNC seconds.
        Whatever its role, it is critical if its polls show OB and LB since more than HOSTSYNC seconds,
        or if the answer of this pass shows FSD; on its master also if that answer shows OB and LB, or
        if it fell silent on battery longer than DEADTIME ago. It is not if it is, or was when it fell
        silent, on line without FSD. */
    ghost predicate Verdict(its: seq<Iteration>, ends: seq<int>, n: nat, crit: seq<bool>, ts: seq<int>)
      reads this, upses, env
    {
      && n <= |its| && n <= |ends|
      && (Judged(crit, ts) ==> Sure(ts) && forall i: nat, k: nat ::
            i < |upses| && Standing(its, i, k, n) && ts[i] - ends[k] > cfg.hostsync ==> crit[i])
      && (|crit| > 0 ==> n > 0 && Prompted(its[n - 1].polls, crit) && Heard(its, ends, n, crit))
    }

    /** Where nothing was judged there is nothing to say. */
    lemma NoVerdict(its: seq<Iteration>, ends: seq<int>, n: nat)
      requires n <= |its| && n <= |ends|
      ensures Verdict(its, ends, n, [], [])
    {
    }

    lemma NothingWatched(its: seq<Iteration>)
      ensures Watched(its, [], 0)
    {
    }

    /** One more pass. */
    method NextPass(its: seq<Iteration>, n: nat, ghost ends: seq<int>) returns (r: Result, ghost crit: seq<bool>, ghost ts: seq<int>)
      requires Valid() && env.Valid() && Timed() && n < |its| && Watched(its, ends, n)
      modifies this, upses, env
      ensures Valid() && env.Valid() && Timed() && old(env.trace) <= env.trace
      ensures forall i :: 0 <= i < |upses| ==> upses[i] in old(upses) || fresh(upses[i])
      ensures r == Shut ==> SafeShutdown(usePipe, hasFlag, Masters(), cfg.hostsync, old(env.trace), env.trace)
      ensures r != Shut ==> NoCommand(env.trace[|old(env.trace)|..])
      ensures r == Cut ==> env.script == [] && StillWaiting(Masters(), cfg.hostsync, old(env.trace), env.trace)
      ensures its[n].userfsd ==> (r == Shut || r == Cut) && AsConf() == old(AsConf())
      ensures !its[n].userfsd ==> AsConf() == Reloads(old(AsConf()), its[n])
      ensures r == Fatal <==> !its[n].userfsd && Rereads(its[n]) && totalpv < minsupplies
      ensures !its[n].userfsd && r != Fatal ==> Judged(crit, ts) && (r == Continue <==> OnlinePower(items, crit) >= minsupplies)
      ensures Watched(its, ends + [Clock(env.trace)], n + 1)
      ensures Verdict(its, ends + [Clock(env.trace)], if its[n].userfsd then n else n + 1, crit, ts)
      ensures old(PowerOk()) && TruthfulReload(its[n]) && r == Continue ==> PowerOk()
      ensures old(PowerOk()) && TruthfulReload(its[n]) && (r == Shut || r == Cut) ==>
                its[n].userfsd || exists i :: 0 <= i < |crit| && crit[i]
    {
      hide Shape, Lives, Honest, NoCommand, SafeShutdown, Judged, Sum, TruthfulReload, Passed, OnlinePower, Standing, BattLow,
           Clock, Masters, TimerOk, Sure, WentOn, Ups.View, Reloads, Prompted, StillWaiting, Hushed, HushState, NotBoth,
           ShowsOnLine, ShowsOnBatt, Critical;
      Unmixed();
      ghost var lo := Clock(env.trace);
      r, crit, ts := Iterate(its[n]);
      ghost var hi := Clock(env.trace);
      PrefixClock(old(env.trace), env.trace);
      ghost var m, after := n + 1, ends + [hi];
      forall i: nat, k: nat | i < |upses| && k < m && Standing(its, i, k, m)
        ensures BattLow(upses[i].View()) && upses[i].View().lastnoncrit <= after[k]
      {
        StandingLast(its, i, k, n);
        StandingStep(its, i, k, n, cfg, old(upses[i].View()), upses[i].View(), lo, hi, ends);
      }
      assert Aging(its, after, m);
      forall i: nat, k: nat | i < |upses| && k < m && Hushed(its, i, k, m)
        ensures HushState(its[k].polls(i).0, its[k].polls(i).1, upses[i].View(), after[k])
        ensures r != Fatal && ShowsOnLine(its[k].polls(i).0, its[k].polls(i).1) ==> i < |crit| && !crit[i]
        ensures r != Fatal && k < n && ShowsOnBatt(its[k].polls(i).0, its[k].polls(i).1) && Master in upses[i].View().status ==>
                  lo - after[k] > cfg.deadtime ==> i < |crit| && crit[i]
      {
        HushedLast(its, i, k, n);
        if r != Fatal { JudgedAt(crit, ts, i); }
        HushStep(its, i, k, n, cfg, old(upses[i].View()), upses[i].View(), lo, hi, after[k], if r != Fatal then ts[i] else 0);
      }
      assert Quiet(its, after, m);
      assert n > 0 ==> after[n - 1] == lo;
      if !its[n].userfsd && r != Fatal {
        JudgedSize(crit, ts);
        assert Heard(its, after, m, crit);
        AgedIsCritical(its, after, m, crit, ts);
      } else {
        assert crit == [] && ts == [];
        NoVerdict(its, after, if its[n].userfsd then n else n + 1);
      }
    }

    /** The main loop over any number of passes. Whatever the polls, the peers and the reloads do:
        if the shutdown command is run, it is run last, after FSD was tried on every mastered UPS
        and the slaves were synchronised, with the power-down flag before it; otherwise no command
        is run. A shutdown that was begun is run, unless the script ends while the wait for the slaves
        is not over. Which systems are mastered, and all settings, are what the n reloads made of them.
        As long as every reload counts truthfully, a shutdown is begun only if the user asked for it
        or some UPS was judged critical, and the judgements are as Verdict says. */
    method MainLoop(its: seq<Iteration>)
      returns (r: Result, ghost crit: seq<bool>, ghost ts: seq<int>, ghost n: nat, ghost ends: seq<int>)
      requires Valid() && env.Valid() && Timed()
      modifies this, upses, env
      ensures Valid() && env.Valid() && Timed() && old(env.trace) <= env.trace
      ensures r == Shut ==> SafeShutdown(usePipe, hasFlag, Masters(), cfg.hostsync, old(env.trace), env.trace)
      ensures r != Shut ==> NoCommand(env.trace[|old(env.trace)|..])
      ensures r == Cut ==> env.script == [] && Masters() != {} && StillWaiting(Masters(), cfg.hostsync, old(env.trace), env.trace)
      ensures n <= |its| && AsConf() == AllReloads(old(AsConf()), its[..n])
      ensures r == Continue ==> n == |its| && forall i :: 0 <= i < n ==> !its[i].userfsd
      ensures r == Shut || r == Cut ==>
                (n < |its| && its[n].userfsd) || (Judged(crit, ts) && OnlinePower(items, crit) < minsupplies)
      ensures r == Fatal ==> n > 0 && Rereads(its[n - 1]) && totalpv < minsupplies
      ensures r == Continue && n > 0 ==> Judged(crit, ts) && OnlinePower(items, crit) >= minsupplies
      ensures Verdict(its, ends, n, crit, ts)
      ensures old(PowerOk()) && (forall i :: 0 <= i < |its| ==> TruthfulReload(its[i])) && (r == Shut || r == Cut)
              ==> (n < |its| && its[n].userfsd)
                  || exists i :: 0 <= i < |crit| && crit[i]
    {
      hide Shape, Lives, Honest, NoCommand, SafeShutdown, Judged, Sum, TruthfulReload, OnlinePower, Clock, Masters,
           Reloads, StillWaiting, Watched, Verdict, AsConf, PowerOk, Timed;
      r, crit, ts, n, ends := Continue, [], [], 0, [];
      NoCommandYet(env.trace);
      NothingWatched(its);
      NoVerdict(its, [], 0);
      var k := 0;
      assert its[..0] == [] && AllReloads(AsConf(), []) == AsConf();
      hide AllReloads;
      while k < |its|
        invariant 0 <= k <= |its| && n == k && r == Continue
        invariant Valid() && env.Valid() && Timed() && old(env.trace) <= env.trace && NoCommand(env.trace[|old(env.trace)|..])
        invariant forall i :: 0 <= i < |upses| ==> upses[i] in old(upses) || fresh(upses[i])
        invariant AsConf() == AllReloads(old(AsConf()), its[..k])
        invariant forall i :: 0 <= i < k ==> !its[i].userfsd
        invariant k > 0 ==> Judged(crit, ts) && |items| == |crit| && OnlinePower(items, crit) >= minsupplies
        invariant Watched(its, ends, k) && Verdict(its, ends, k, crit, ts)
        invariant old(PowerOk()) && (forall i :: 0 <= i < |its| ==> TruthfulReload(its[i])) ==> PowerOk()
      {
        ghost var t0 := env.trace;
        AllReloadsSnoc(old(AsConf()), its, k);
        r, crit, ts := NextPass(its, k, ends);
        ends := ends + [Clock(env.trace)];
        if !its[k].userfsd { n := k + 1; }
        if r == Continue { JudgedSize(crit, ts); }
        if r == Shut {
          SafeAfterQuiet(usePipe, hasFlag, Masters(), cfg.hostsync, old(env.trace), t0, env.trace);
          return;
        }
        NoCommandJoin(|old(env.trace)|, t0, env.trace);
        if r == Cut {
          WaitingHasMasters(Masters(), cfg.hostsync, t0, env.trace);
          StillWaitingEarlier(Masters(), cfg.hostsync, old(env.trace), t0, env.trace);
        }
        if r != Continue {
          return;
        }
        k := k + 1;
      }
      assert its[..|its|] == its;
    }

    lemma JudgedAt(crit: seq<bool>, ts: seq<int>, i: nat)
      requires Judged(crit, ts) && i < |upses|
      ensures i < |crit| == |ts| && crit[i] == Critical(cfg, upses[i].View(), ts[i])
    {
    }

    lemma JudgedSize(crit: seq<bool>, ts: seq<int>)
      requires Judged(crit, ts)
      ensures |crit| == |ts| == |upses| == |items|
    {
    }

    lemma AgedIsCritical(its: seq<Iteration>, ends: seq<int>, n: nat, crit: seq<bool>, ts: seq<int>)
      requires Aging(its, ends, n) && Judged(crit, ts)
      ensures forall i: nat, k: nat ::
                i < |upses| && Standing(its, i, k, n) && ts[i] - ends[k] > cfg.hostsync ==> crit[i]
    {
      hide Shows, Upholds;
    }

    /** A whole life of upsmon, from an empty list: the configuration, then the main loop. The
        shutdown command is the last thing it does or is never done, and with enough power configured
        and no reload that counts twice nothing but a user's request or a critical UPS brings it about. */
    method Life(ds: seq<Directive>, its: seq<Iteration>)
      returns (r: Result, ghost crit: seq<bool>, ghost ts: seq<int>, ghost n: nat, ghost ends: seq<int>)
      requires Valid() && upses == [] && totalpv == 0 && env.Valid() && env.trace == []
      modifies this, upses, env
      ensures Valid() && env.Valid()
      ensures r == Shut ==> SafeShutdown(usePipe, hasFlag, Masters(), cfg.hostsync, [], env.trace)
      ensures forall i :: 0 <= i < |env.trace| && env.trace[i] == Command ==> r == Shut && i == |env.trace| - 1
      ensures r == Cut ==> env.script == [] && Masters() != {} && StillWaiting(Masters(), cfg.hostsync, [], env.trace)
      ensures n <= |its| && AsConf() == AllReloads(Configure(old(AsConf()), ds, false), its[..n])
      ensures Verdict(its, ends, n, crit, ts)
      ensures r == Continue ==> n == |its| && forall i :: 0 <= i < n ==> !its[i].userfsd
      ensures r == Shut || r == Cut ==>
                (n < |its| && its[n].userfsd) || (Judged(crit, ts) && OnlinePower(items, crit) < minsupplies)
      ensures r == Fatal ==> totalpv < minsupplies && (n > 0 ==> Rereads(its[n - 1]))
      ensures r == Continue && n > 0 ==> Judged(crit, ts) && OnlinePower(items, crit) >= minsupplies
      ensures (forall i :: 0 <= i < |its| ==> TruthfulReload(its[i])) && (r == Shut || r == Cut)
              ==> (n < |its| && its[n].userfsd) || exists i :: 0 <= i < |crit| && crit[i]
    {
      hide Shape, Lives, Honest, NoCommand, SafeShutdown, Judged, TruthfulReload, OnlinePower, PowerOk, Masters,
           Configure, Reconfigured, NewRec, TimerOk, Ups.View, Verdict, StillWaiting;
      r, crit, ts, n, ends := Fatal, [], [], 0, [];
      assert its[..0] == [];
      var fatal := Startup(ds);
      if fatal {
        NoVerdict(its, [], 0);
        return;
      }
      forall i | 0 <= i < |upses| ensures TimerOk(upses[i].View(), Clock(env.trace)) {
        NewTimer(Clock(env.trace));
        ReconfiguredTimer(NewRec(false), upses[i].View(), Clock(env.trace));
      }
      r, crit, ts, n, ends := MainLoop(its);
      assert env.trace[0..] == env.trace;
      if r == Shut {
        CommandIsLast(usePipe, hasFlag, Masters(), cfg.hostsync, env.trace);
      } else {
        CommandIsNever(env.trace);
      }
    }
  }
}
