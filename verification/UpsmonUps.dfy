/** utype_t of clients/upsmon.c: the record that polls update in place. Each method is proved to
    take the steps of UpsRecord with the clock readings it makes. */
module UpsmonUps {
  import opened CStrings
  import opened ShutdownTrace
  import opened UpsConfig
  import opened UpsmonEnv
  import opened UpsPoll
  import opened UpsRecord

  /** What became of a connection attempt: refused, refused for want of certificates, connected
      but not authenticated (before or after LOGIN took effect), or up. */
  datatype Connect = Refused | NoCertPath | AuthFailed(loggedIn: bool) | Up

  /** What became of the status request: a line, or nothing, with the link kept or lost. */
  datatype Answer = StatusLine(line: string) | NoAnswer(lost: bool)

  function ConnectSteps(c: Connect, t: int): seq<Step> {
    match c
    case Refused => [SLink(false, false), SGone(t)]
    case NoCertPath => [SLink(false, false), SGone(t), SDrop]
    case AuthFailed(l) => [SLink(false, false), SLink(true, l)]
    case Up => [SLink(false, false), SLink(true, true)]
  }

  /** How many clock readings an answer takes. */
  function Readings(a: Answer): nat {
    match a
    case StatusLine(line) => 1 + 2 * |Words(line)|
    case NoAnswer(_) => 1
  }

  function AnswerSteps(a: Answer, ts: seq<int>): seq<Step>
    requires |ts| == Readings(a)
  {
    match a
    case StatusLine(line) => PollSteps(line, ts)
    case NoAnswer(lost) => [SGone(ts[0])] + if lost then [SDrop] else []
  }

  /** pollups() as steps. */
  function PollupsSteps(connected: bool, c: Connect, a: Answer, t: int, ts: seq<int>): seq<Step>
    requires |ts| == Readings(a)
  {
    if connected then AnswerSteps(a, ts)
    else ConnectSteps(c, t) + if c.Up? then AnswerSteps(a, ts) else []
  }

  /** Readings taken one after another between two moments. */
  ghost predicate Between(lo: int, ts: seq<int>, hi: int) {
    && (forall i :: 0 <= i < |ts| ==> lo <= ts[i] <= hi)
    && forall i, j :: 0 <= i <= j < |ts| ==> ts[i] <= ts[j]
  }

  /** strchr() for a space, as an index; the length if there is none. */
  function FindSpace(s: string): (k: nat)
    ensures k <= |s| && (k < |s| ==> s[k] == ' ') && forall i :: 0 <= i < k ==> s[i] != ' '
  {
    if s == "" || s[0] == ' ' then 0 else 1 + FindSpace(s[1..])
  }

  /** Neither connected nor logged in, with the states that drop_connection() leaves. */
  predicate Unlinked(r: Rec) {
    Connected !in r.status && Login !in r.status && r.commstate == 0 && r.linestate == 0
  }

  class Ups {
    const sys: string
    var pv: int
    var un: string
    var pw: string
    var retain: bool

    var status: set<Status>
    var commstate: int
    var linestate: int
    var lastpoll: int
    var lastnoncrit: int
    var lastrbwarn: int
    var lastncwarn: int
    var notices: seq<Notice>
    var moments: seq<int>

    function View(): Rec
      reads this`status, this`commstate, this`linestate, this`lastpoll, this`lastnoncrit, this`lastrbwarn, this`lastncwarn, this`notices, this`moments
    {
      Rec(status, commstate, linestate, lastpoll, lastnoncrit, lastrbwarn, lastncwarn, notices, moments)
    }

    function AsItem(): Item
      reads this`pv, this`retain
    {
      Item(sys, pv, retain)
    }

    /** The new record of addups(). */
    constructor (m: Monitor)
      ensures AsItem() == Item(m.sys, m.pv, true) && un == m.un && pw == m.pw
      ensures View() == NewRec(Fold(m.role) == "master")
    {
      sys, pv, un, pw, retain := m.sys, m.pv, m.un, m.pw, true;
      status := if Fold(m.role) == "master" then {Master} else {};
      commstate, linestate := -1, -1;
      lastpoll, lastnoncrit, lastrbwarn, lastncwarn := 0, 0, 0, 0;
      notices, moments := [], [];
    }

    /** do_notify() */
    method DoNotify(n: Notice)
      modifies this`notices
      ensures notices == old(notices) + [n]
    {
      notices := notices + [n];
    }

    /** ups_is_alive() */
    method IsAlive(env: Env)
      requires env.Valid()
      modifies this`lastpoll, this`commstate, this`notices, env
      ensures env.Valid() && PeersSince(old(env.trace), env.trace) && |env.script| <= |old(env.script)|
      ensures View() == Alive(old(View()), Clock(env.trace))
    {
      var now := env.Time();
      lastpoll := now;
      if commstate == 1 { return; }
      if commstate == 0 { DoNotify(NotifyCommOk); }
      commstate := 1;
    }

    /** ups_is_gone() */
    method IsGone(cfg: Settings, env: Env)
      requires env.Valid()
      modifies this`commstate, this`lastncwarn, this`notices, env
      ensures env.Valid() && PeersSince(old(env.trace), env.trace) && |env.script| <= |old(env.script)|
      ensures View() == Gone(cfg, old(View()), Clock(env.trace))
    {
      if commstate != 0 {
        commstate := 0;
        DoNotify(NotifyCommBad);
        return;
      }
      var now := env.Time();
      if now - lastpoll < cfg.nocommwarntime { return; }
      if now - lastncwarn > cfg.nocommwarntime {
        DoNotify(NotifyNoComm);
        lastncwarn := now;
      }
    }

    /** drop_connection() */
    method DropConnection()
      modifies this`commstate, this`linestate, this`status
      ensures View() == Drop(old(View()))
    {
      commstate, linestate := 0, 0;
      status := status - {Login};
      status := status - {Connected};
    }

    /** One word of parse_status(), with ups_on_line(), ups_on_batt(), ups_low_batt(),
        upsreplbatt() and ups_fsd(). */
    method HandleWord(cfg: Settings, w: string, env: Env)
      requires env.Valid()
      modifies this`status, this`linestate, this`lastrbwarn, this`notices, env
      ensures env.Valid() && PeersSince(old(env.trace), env.trace) && |env.script| <= |old(env.script)|
      ensures View() == StatusWord(cfg, old(View()), w, Clock(env.trace))
    {
      if Fold(w) == "ol" && Online !in status {
        if linestate != -1 { DoNotify(NotifyOnline); }
        linestate := 1;
        status := status + {Online};
        status := status - {OnBatt};
      }
      if Fold(w) == "ob" && OnBatt !in status {
        linestate := 0;
        DoNotify(NotifyOnBatt);
        status := status + {OnBatt};
        status := status - {Online};
      }
      if Fold(w) == "lb" && LowBatt !in status {
        DoNotify(NotifyLowBatt);
        status := status + {LowBatt};
      }
      if Fold(w) == "rb" {
        var now := env.Time();
        if now - lastrbwarn > cfg.rbwarntime {
          DoNotify(NotifyReplBatt);
          lastrbwarn := now;
        }
      }
      if Fold(w) == "fsd" && Fsd !in status {
        DoNotify(NotifyFsd);
        status := status + {Fsd};
      }
    }

    /** update_crittimer() */
    method UpdateCritTimer(env: Env)
      requires env.Valid()
      modifies this`lastnoncrit, this`moments, env
      ensures env.Valid() && PeersSince(old(env.trace), env.trace) && |env.script| <= |old(env.script)|
      ensures View() == CritTimer(old(View()), Clock(env.trace))
    {
      if OnBatt !in status || LowBatt !in status {
        lastnoncrit := env.Time();
        moments := moments + [lastnoncrit];
      }
    }

    /** One turn of the loop in parse_status(): a word and the critical timer. */
    method HandleWordAndTimer(cfg: Settings, w: string, env: Env) returns (ghost t: int, ghost u: int)
      requires env.Valid()
      modifies this`status, this`linestate, this`lastrbwarn, this`lastnoncrit, this`moments, this`notices, env
      ensures env.Valid() && PeersSince(old(env.trace), env.trace) && |env.script| <= |old(env.script)|
      ensures Clock(old(env.trace)) <= t <= u == Clock(env.trace)
      ensures View() == CritTimer(StatusWord(cfg, old(View()), w, t), u)
    {
      hide StatusWord, CritTimer, Honest, Clock;
      HandleWord(cfg, w, env);
      ghost var mid := env.trace;
      t := Clock(mid);
      UpdateCritTimer(env);
      u := Clock(env.trace);
      PeersTransitive(old(env.trace), mid, env.trace);
    }

    /** The loop of parse_status() over the words of a line. */
    method HandleWords(cfg: Settings, line: string, env: Env) returns (ghost ts: seq<int>)
      requires env.Valid()
      modifies this`status, this`linestate, this`lastrbwarn, this`lastnoncrit, this`moments, this`notices, env
      ensures env.Valid() && PeersSince(old(env.trace), env.trace) && |env.script| <= |old(env.script)|
      ensures |ts| == 2 * |Words(line)| && Between(Clock(old(env.trace)), ts, Clock(env.trace))
      ensures View() == Run(cfg, old(View()), WordSteps(Words(line), ts))
    {
      hide StatusWord, CritTimer, Honest, Clock, Words, PeersSince, Between, Run, WordSteps;
      RunNothing(cfg, View());
      PeersReflexive(env.trace);
      BetweenNone(Clock(env.trace));
      ts := [];
      var rest := line;
      var more := true;
      ghost var done: seq<string> := [];
      while more
        invariant env.Valid() && PeersSince(old(env.trace), env.trace) && |env.script| <= |old(env.script)|
        invariant Words(line) == done + if more then Words(rest) else []
        invariant |ts| == 2 * |done| && Between(Clock(old(env.trace)), ts, Clock(env.trace))
        invariant View() == Run(cfg, old(View()), WordSteps(done, ts))
        decreases if more then 1 + |rest| else 0
      {
        var k := FindSpace(rest);
        WordsCut(rest, k);
        var word := rest[..k];
        ghost var t0 := env.trace;
        ghost var t, u := HandleWordAndTimer(cfg, word, env);
        PeersTransitive(old(env.trace), t0, env.trace);
        WordStepsSnoc(cfg, old(View()), done, ts, word, t, u);
        BetweenSnoc(Clock(old(env.trace)), ts, Clock(t0), t, u);
        ts := ts + [t, u];
        assert k == |rest| ==> rest[..k] == rest;
        done := done + [word];
        more := k < |rest|;
        if more { rest := rest[k + 1..]; }
      }
      assert done + [] == done;
    }

    /** parse_status() */
    method ParseStatus(cfg: Settings, line: string, env: Env) returns (ghost ts: seq<int>)
      requires env.Valid()
      modifies this, env
      ensures env.Valid() && PeersSince(old(env.trace), env.trace) && |env.script| <= |old(env.script)|
      ensures |ts| == 1 + 2 * |Words(line)| && Between(Clock(old(env.trace)), ts, Clock(env.trace))
      ensures View() == Run(cfg, old(View()), PollSteps(line, ts))
      ensures AsItem() == old(AsItem()) && un == old(un) && pw == old(pw)
    {
      hide Honest, Clock, Words, PeersSince, Between, Gone, Run;
      if line == "" {
        IsGone(cfg, env);
        ghost var t := Clock(env.trace);
        ts := Repeat(1 + 2 * |Words(line)|, t);
        PeersSinceClock(old(env.trace), env.trace);
        BetweenRepeat(Clock(old(env.trace)), |ts|, t);
        OneStep(cfg, old(View()), SGone(t));
      } else {
        ts := ParseWords(cfg, line, env);
      }
    }

    /** parse_status() for a line that is not empty. */
    method ParseWords(cfg: Settings, line: string, env: Env) returns (ghost ts: seq<int>)
      requires env.Valid() && line != ""
      modifies this`status, this`linestate, this`commstate, this`lastpoll, this`lastrbwarn, this`lastnoncrit, this`moments, this`notices, env
      ensures env.Valid() && PeersSince(old(env.trace), env.trace) && |env.script| <= |old(env.script)|
      ensures |ts| == 1 + 2 * |Words(line)| && Between(Clock(old(env.trace)), ts, Clock(env.trace))
      ensures View() == Run(cfg, old(View()), PollSteps(line, ts))
    {
      hide Honest, Clock, Words, PeersSince, Between, Alive, HasText, Run, WordSteps;
      IsAlive(env);
      ghost var t1, a := env.trace, View();
      if !HasText(line, "LB") { status := status - {LowBatt}; }
      if !HasText(line, "FSD") { status := status - {Fsd}; }
      assert View() == ClearEarly(a, line);
      ghost var us := HandleWords(cfg, line, env);
      PeersSinceClock(old(env.trace), t1);
      PeersSinceClock(t1, env.trace);
      PeersTransitive(old(env.trace), t1, env.trace);
      BetweenCons(Clock(old(env.trace)), Clock(t1), us, Clock(env.trace));
      ts := [Clock(t1)] + us;
      assert ts[1..] == us;
      PollUnfold(cfg, old(View()), line, ts);
    }

    /** try_connect(): 1 when everything is up. */
    method TryConnect(cfg: Settings, c: Connect, env: Env) returns (up: bool, ghost t: int)
      requires env.Valid()
      modifies this`status, this`commstate, this`linestate, this`lastncwarn, this`notices, env
      ensures env.Valid() && PeersSince(old(env.trace), env.trace) && |env.script| <= |old(env.script)|
      ensures up <==> c.Up?
      ensures t == Clock(env.trace) && View() == Run(cfg, old(View()), ConnectSteps(c, t))
    {
      hide Honest, Clock, Gone;
      status := status - {Connected};
      up := false;
      match c {
        case Refused =>
          IsGone(cfg, env);
        case NoCertPath =>
          IsGone(cfg, env);
          DropConnection();
        case AuthFailed(loggedIn) =>
          status := status + {Connected};
          if loggedIn { status := status + {Login}; }
        case Up =>
          status := status + {Connected};
          status := status + {Login};
          up := true;
      }
      t := Clock(env.trace);
      ConnectRun(cfg, old(View()), c, t);
    }

    /** The request for the status, and what follows from its outcome. */
    method AskStatus(cfg: Settings, a: Answer, env: Env) returns (ghost ts: seq<int>)
      requires env.Valid()
      modifies this, env
      ensures env.Valid() && PeersSince(old(env.trace), env.trace) && |env.script| <= |old(env.script)|
      ensures |ts| == Readings(a) && Between(Clock(old(env.trace)), ts, Clock(env.trace))
      ensures View() == Run(cfg, old(View()), AnswerSteps(a, ts))
      ensures AsItem() == old(AsItem()) && un == old(un) && pw == old(pw)
    {
      hide Honest, Clock, Gone, Words, PeersSince, PollSteps;
      match a {
        case StatusLine(line) =>
          ts := ParseStatus(cfg, line, env);
        case NoAnswer(lost) =>
          IsGone(cfg, env);
          ts := [Clock(env.trace)];
          PeersSinceClock(old(env.trace), env.trace);
          if lost { DropConnection(); }
          NoAnswerRun(cfg, old(View()), lost, ts[0]);
      }
    }

    /** pollups() */
    method PollUps(cfg: Settings, c: Connect, a: Answer, env: Env) returns (ghost t: int, ghost ts: seq<int>)
      requires env.Valid()
      modifies this, env
      ensures env.Valid() && PeersSince(old(env.trace), env.trace) && |env.script| <= |old(env.script)|
      ensures |ts| == Readings(a) && Between(Clock(old(env.trace)), [t] + ts, Clock(env.trace))
      ensures View() == Run(cfg, old(View()), PollupsSteps(old(Connected in status), c, a, t, ts))
      ensures AsItem() == old(AsItem()) && un == old(un) && pw == old(pw)
    {
      hide Honest, Clock, PeersSince, Between, Run, AnswerSteps, ConnectSteps, Readings;
      ghost var t0 := env.trace;
      t := Clock(env.trace);
      PeersReflexive(t0);
      if Connected !in status {
        var up;
        up, t := TryConnect(cfg, c, env);
        PeersSinceClock(t0, env.trace);
        if !up {
          ts := Repeat(Readings(a), t);
          BetweenRepeat(Clock(t0), 1 + |ts|, t);
          assert [t] + ts == Repeat(1 + |ts|, t);
          assert ConnectSteps(c, t) + [] == ConnectSteps(c, t);
          return;
        }
      }
      ghost var t1, r1 := env.trace, View();
      ts := AskStatus(cfg, a, env);
      PeersTransitive(t0, t1, env.trace);
      BetweenCons(Clock(t0), t, ts, Clock(env.trace));
      if Connected !in old(status) {
        RunConcat(cfg, old(View()), ConnectSteps(c, t), AnswerSteps(a, ts));
      }
    }

    /** is_ups_critical() */
    method IsCritical(cfg: Settings, env: Env) returns (crit: bool)
      requires env.Valid()
      modifies env
      ensures env.Valid() && PeersSince(old(env.trace), env.trace) && |env.script| <= |old(env.script)|
      ensures crit <==> Critical(cfg, View(), Clock(env.trace))
    {
      PeersReflexive(env.trace);
      if Fsd in status { return true; }
      if OnBatt !in status || LowBatt !in status { return false; }
      if Master in status { return true; }
      var now := env.Time();
      crit := now - lastnoncrit > cfg.hostsync;
    }

    /** The promotion of a dead UPS in recalc(). */
    method PromoteDead(cfg: Settings, now: int)
      modifies this`status
      ensures View() == Promote(cfg, old(View()), now)
    {
      if now - lastpoll > cfg.deadtime {
        if OnBatt in status {
          status := status + {LowBatt};
        }
      }
    }

    /** drop_connection() when not logged in, so that a changed login is tried again. */
    method Retry(ghost cfg: Settings, ghost r: Rec, ghost steps: seq<Step>) returns (ghost more: seq<Step>)
      requires View() == Run(cfg, r, steps)
      modifies this`commstate, this`linestate, this`status
      ensures View() == Run(cfg, r, more) && Reconfigured(old(View()), View()) && (Master in status <==> Master in old(status))
      ensures View() == if Login in old(status) then old(View()) else Drop(old(View()))
    {
      hide Run;
      more := steps;
      if Login !in status {
        DropConnection();
        StepRun(cfg, r, steps, SDrop);
        more := steps + [SDrop];
      }
    }

    /** The change of role at the end of redefine_ups(). */
    method ChangeRole(role: string, ghost cfg: Settings, ghost r: Rec, ghost steps: seq<Step>) returns (ghost more: seq<Step>)
      requires View() == Run(cfg, r, steps)
      modifies this`commstate, this`linestate, this`status
      ensures View() == Run(cfg, r, more) && Reconfigured(old(View()), View())
      ensures Master in status <==> RoleAfter(role, Master in old(status))
      ensures status - {Master, Login, Connected} == old(status) - {Master, Login, Connected}
      ensures if Master in status && Master !in old(status) then Unlinked(View())
              else status - {Master} == old(status) - {Master} && commstate == old(commstate) && linestate == old(linestate)
    {
      hide Run, Fold;
      more := steps;
      if Fold(role) == "master" && Master !in status {
        status := status + {Master};
        StepRun(cfg, r, steps, SMaster(true));
        more := steps + [SMaster(true)];
        DropConnection();
        StepRun(cfg, r, more, SDrop);
        more := more + [SDrop];
        return;
      }
      if Fold(role) == "slave" && Master in status {
        status := status - {Master};
        StepRun(cfg, r, steps, SMaster(false));
        more := steps + [SMaster(false)];
      }
    }

    /** redefine_ups() */
    method Redefine(m: Monitor, ghost cfg: Settings) returns (ghost steps: seq<Step>)
      requires m.sys == sys
      modifies this
      ensures AsItem() == Item(sys, m.pv, true) && un == m.un && pw == m.pw
      ensures View() == Run(cfg, old(View()), steps) && Reconfigured(old(View()), View())
      ensures Master in status <==> RoleAfter(m.role, Master in old(status))
      ensures if (Master in status && Master !in old(status)) || ((old(un) != m.un || old(pw) != m.pw) && Login !in old(status))
              then Unlinked(View())
              else status - {Master} == old(status) - {Master} && commstate == old(commstate) && linestate == old(linestate)
    {
      hide RoleAfter, Run, Reconfigured;
      NotReconfigured(View());
      assert View() == Run(cfg, View(), []) by { RunNone(cfg, View()); }
      steps := [];
      retain := true;
      pv := m.pv;
      if un != m.un {
        un := m.un;
        steps := Retry(cfg, old(View()), steps);
      }
      if pw != m.pw {
        pw := m.pw;
        ghost var mid := View();
        steps := Retry(cfg, old(View()), steps);
        ReconfiguredTwice(old(View()), mid, View());
      }
      ghost var mid := View();
      steps := ChangeRole(m.role, cfg, old(View()), steps);
      ReconfiguredTwice(old(View()), mid, View());
      if Unlinked(mid) && status - {Master} == mid.status - {Master} && commstate == 0 == linestate { UnlinkedStays(mid, View()); }
    }
  }

  lemma UnlinkedStays(r: Rec, r': Rec)
    requires Unlinked(r) && r'.status - {Master} == r.status - {Master} && r'.commstate == 0 == r'.linestate
    ensures Unlinked(r')
  {
    assert Connected !in r'.status - {Master} && Login !in r'.status - {Master};
  }

  lemma RunNone(cfg: Settings, r: Rec)
    ensures Run(cfg, r, []) == r
  {
  }

  lemma StepRun(cfg: Settings, r: Rec, steps: seq<Step>, s: Step)
    ensures Run(cfg, r, steps + [s]) == Apply(cfg, Run(cfg, r, steps), s)
  {
    RunConcat(cfg, r, steps, [s]);
    OneStep(cfg, Run(cfg, r, steps), s);
  }

  lemma TwoSteps(cfg: Settings, r: Rec, s: Step, u: Step)
    ensures Run(cfg, r, [s, u]) == Apply(cfg, Apply(cfg, r, s), u)
  {
    assert [s, u] == [s] + [u];
    StepRun(cfg, r, [s], u);
    OneStep(cfg, r, s);
  }

  lemma ConnectRun(cfg: Settings, r: Rec, c: Connect, t: int)
    ensures var a := Apply(cfg, r, SLink(false, false));
            Run(cfg, r, ConnectSteps(c, t)) ==
            match c
            case Refused => Gone(cfg, a, t)
            case NoCertPath => Drop(Gone(cfg, a, t))
            case AuthFailed(l) => Apply(cfg, a, SLink(true, l))
            case Up => Apply(cfg, a, SLink(true, true))
  {
    hide Gone;
    match c
    case Refused => TwoSteps(cfg, r, SLink(false, false), SGone(t));
    case NoCertPath =>
      assert ConnectSteps(c, t) == [SLink(false, false), SGone(t)] + [SDrop];
      StepRun(cfg, r, [SLink(false, false), SGone(t)], SDrop);
      TwoSteps(cfg, r, SLink(false, false), SGone(t));
    case AuthFailed(l) => TwoSteps(cfg, r, SLink(false, false), SLink(true, l));
    case Up => TwoSteps(cfg, r, SLink(false, false), SLink(true, true));
  }

  lemma NoAnswerRun(cfg: Settings, r: Rec, lost: bool, t: int)
    ensures Run(cfg, r, [SGone(t)] + if lost then [SDrop] else []) == if lost then Drop(Gone(cfg, r, t)) else Gone(cfg, r, t)
  {
    hide Gone;
    OneStep(cfg, r, SGone(t));
    if lost {
      StepRun(cfg, r, [SGone(t)], SDrop);
    } else {
      assert [SGone(t)] + [] == [SGone(t)];
    }
  }

  ghost function Repeat(n: nat, t: int): (ts: seq<int>)
    ensures |ts| == n && forall i :: 0 <= i < n ==> ts[i] == t
  {
    seq(n, i => t)
  }

  lemma BetweenRepeat(lo: int, n: nat, t: int)
    requires lo <= t
    ensures Between(lo, Repeat(n, t), t)
  {
  }

  lemma RunNothing(cfg: Settings, r: Rec)
    ensures Run(cfg, r, WordSteps([], [])) == r
  {
  }

  lemma OneStep(cfg: Settings, r: Rec, s: Step)
    ensures Run(cfg, r, [s]) == Apply(cfg, r, s)
  {
  }

  lemma PeersSinceClock(a: Trace, b: Trace)
    requires PeersSince(a, b)
    ensures Clock(a) <= Clock(b)
  {
    PrefixClock(a, b);
  }

  lemma BetweenCons(lo: int, t: int, ts: seq<int>, hi: int)
    requires lo <= t <= hi && Between(t, ts, hi)
    ensures Between(lo, [t] + ts, hi)
  {
  }

  lemma PeersReflexive(t: Trace)
    ensures PeersSince(t, t)
  {
  }

  lemma BetweenNone(lo: int)
    ensures Between(lo, [], lo)
  {
  }

  lemma BetweenSnoc(lo: int, ts: seq<int>, mid: int, t: int, u: int)
    requires Between(lo, ts, mid) && lo <= mid <= t <= u
    ensures Between(lo, ts + [t, u], u)
  {
  }

  lemma {:induction false} WordStepsSnoc(cfg: Settings, r: Rec, ws: seq<string>, ts: seq<int>, w: string, t: int, u: int)
    requires |ts| == 2 * |ws|
    ensures Run(cfg, r, WordSteps(ws + [w], ts + [t, u]))
            == CritTimer(StatusWord(cfg, Run(cfg, r, WordSteps(ws, ts)), w, t), u)
    decreases |ws|
  {
    if ws == [] {
      assert ws + [w] == [w] && ts + [t, u] == [t, u];
      WordStepsUnfold(cfg, r, [w], [t, u]);
      assert [w][1..] == [] && [t, u][2..] == [];
    } else {
      WordStepsUnfold(cfg, r, ws + [w], ts + [t, u]);
      WordStepsUnfold(cfg, r, ws, ts);
      assert (ws + [w])[1..] == ws[1..] + [w] && (ts + [t, u])[2..] == ts[2..] + [t, u];
      WordStepsSnoc(cfg, CritTimer(StatusWord(cfg, r, ws[0], ts[0]), ts[1]), ws[1..], ts[2..], w, t, u);
    }
  }
}
