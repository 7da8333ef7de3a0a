/** One monitored UPS of clients/upsmon.c as a value: the fields of utype_t, the notices sent for
    it, and the steps that polls, failures, drops and recalculations take on it. */
module UpsRecord {
  import opened CStrings

  datatype Status = Online | OnBatt | LowBatt | Fsd | Master | Login | Connected

  datatype Notice = NotifyOnline | NotifyOnBatt | NotifyLowBatt | NotifyFsd | NotifyCommOk | NotifyCommBad
                  | NotifyReplBatt | NotifyNoComm

  /** The settings of upsmon.conf that the steps depend on, in seconds. */
  datatype Settings = Settings(hostsync: int, deadtime: int, rbwarntime: int, nocommwarntime: int)

  datatype Rec = Rec(
    status: set<Status>,
    commstate: int,
    linestate: int,
    lastpoll: int,
    lastnoncrit: int,
    lastrbwarn: int,
    lastncwarn: int,
    log: seq<Notice>,
    moments: seq<int>)    // history: when a status word left it not both on battery and low

  /** A record as addups() creates it. */
  function NewRec(master: bool): Rec {
    Rec(if master then {Master} else {}, -1, -1, 0, 0, 0, 0, [], [])
  }

  function Notify(r: Rec, n: Notice): Rec {
    r.(log := r.log + [n])
  }

  // ----- the functions of the source -----

  /** ups_is_alive() */
  function Alive(r: Rec, now: int): Rec {
    var p := r.(lastpoll := now);
    if p.commstate == 1 then p
    else if p.commstate == 0 then Notify(p, NotifyCommOk).(commstate := 1)
    else p.(commstate := 1)
  }

  /** ups_is_gone() */
  function Gone(cfg: Settings, r: Rec, now: int): Rec {
    if r.commstate != 0 then Notify(r, NotifyCommBad).(commstate := 0)
    else if now - r.lastpoll < cfg.nocommwarntime then r
    else if now - r.lastncwarn > cfg.nocommwarntime then Notify(r, NotifyNoComm).(lastncwarn := now)
    else r
  }

  /** ups_on_batt() */
  function GoOnBatt(r: Rec): Rec {
    if OnBatt in r.status then r
    else Notify(r, NotifyOnBatt).(linestate := 0, status := r.status + {OnBatt} - {Online})
  }

  /** ups_on_line() */
  function GoOnLine(r: Rec): Rec {
    if Online in r.status then r
    else
      var n := if r.linestate != -1 then Notify(r, NotifyOnline) else r;
      n.(linestate := 1, status := r.status + {Online} - {OnBatt})
  }

  /** ups_low_batt() */
  function GoLowBatt(r: Rec): Rec {
    if LowBatt in r.status then r
    else Notify(r, NotifyLowBatt).(status := r.status + {LowBatt})
  }

  /** upsreplbatt() */
  function ReplaceBatt(cfg: Settings, r: Rec, now: int): Rec {
    if now - r.lastrbwarn > cfg.rbwarntime then Notify(r, NotifyReplBatt).(lastrbwarn := now) else r
  }

  /** ups_fsd() */
  function GoFsd(r: Rec): Rec {
    if Fsd in r.status then r
    else Notify(r, NotifyFsd).(status := r.status + {Fsd})
  }

  /** drop_connection() */
  function Drop(r: Rec): Rec {
    r.(commstate := 0, linestate := 0, status := r.status - {Login, Connected})
  }

  /** OB and LB together. */
  predicate BattLow(r: Rec) {
    OnBatt in r.status && LowBatt in r.status
  }

  /** update_crittimer() */
  function CritTimer(r: Rec, now: int): Rec {
    if BattLow(r) then r else r.(lastnoncrit := now, moments := r.moments + [now])
  }

  /** The promotion of a dead UPS in recalc(). */
  function Promote(cfg: Settings, r: Rec, now: int): Rec {
    if now - r.lastpoll > cfg.deadtime && OnBatt in r.status then r.(status := r.status + {LowBatt}) else r
  }

  /** is_ups_critical() */
  predicate Critical(cfg: Settings, r: Rec, now: int) {
    Fsd in r.status || (BattLow(r) && (Master in r.status || now - r.lastnoncrit > cfg.hostsync))
  }

  /** One status word in parse_status(). */
  function StatusWord(cfg: Settings, r: Rec, w: string, now: int): Rec {
    var f := Fold(w);
    if f == "ol" then GoOnLine(r)
    else if f == "ob" then GoOnBatt(r)
    else if f == "lb" then GoLowBatt(r)
    else if f == "rb" then ReplaceBatt(cfg, r, now)
    else if f == "fsd" then GoFsd(r)
    else r
  }

  /** strstr() != NULL */
  predicate HasText(s: string, t: string)
    decreases |s|
  {
    t <= s || (s != "" && HasText(s[1..], t))
  }

  /** LB and FSD are dropped early when their text is not in the status line. */
  function ClearEarly(r: Rec, status: string): Rec {
    var a := if HasText(status, "LB") then r else r.(status := r.status - {LowBatt});
    if HasText(status, "FSD") then a else a.(status := a.status - {Fsd})
  }

  // ----- steps -----

  /** Everything that happens to a record between its creation and its removal. Times are the
      readings of the clock that the step makes. */
  datatype Step =
    | SAlive(t: int)
    | SGone(t: int)
    | SClear(line: string)
    | SWord(w: string, t: int)
    | STimer(t: int)
    | SDrop
    | SLink(connected: bool, loggedIn: bool)
    | SMaster(master: bool)
    | SPromote(t: int)

  function Apply(cfg: Settings, r: Rec, s: Step): Rec {
    match s
    case SAlive(t) => Alive(r, t)
    case SGone(t) => Gone(cfg, r, t)
    case SClear(line) => ClearEarly(r, line)
    case SWord(w, t) => StatusWord(cfg, r, w, t)
    case STimer(t) => CritTimer(r, t)
    case SDrop => Drop(r)
    case SLink(c, l) =>
      var link := if c then r.status + {Connected} else r.status - {Connected};
      r.(status := if l then link + {Login} else link)
    case SMaster(m) => r.(status := if m then r.status + {Master} else r.status - {Master})
    case SPromote(t) => Promote(cfg, r, t)
  }

  function Run(cfg: Settings, r: Rec, steps: seq<Step>): Rec
    decreases |steps|
  {
    if steps == [] then r else Run(cfg, Apply(cfg, r, steps[0]), steps[1..])
  }

  lemma {:induction false} RunConcat(cfg: Settings, r: Rec, a: seq<Step>, b: seq<Step>)
    ensures Run(cfg, r, a + b) == Run(cfg, Run(cfg, r, a), b)
    decreases |a|
  {
    if a == [] {
      assert a + b == b;
    } else {
      assert (a + b)[1..] == a[1..] + b;
      RunConcat(cfg, Apply(cfg, r, a[0]), a[1..], b);
    }
  }

  /** What a reload may do to a record: its role, its login and its connection. */
  ghost predicate Reconfigured(r: Rec, r': Rec) {
    && r'.status - {Master, Login, Connected} == r.status - {Master, Login, Connected}
    && (Login in r'.status ==> Login in r.status) && (Connected in r'.status ==> Connected in r.status)
    && ((r'.commstate == r.commstate && r'.linestate == r.linestate) || (r'.commstate == 0 && r'.linestate == 0))
    && r' == r.(status := r'.status, commstate := r'.commstate, linestate := r'.linestate)
  }

  lemma ReconfiguredTwice(a: Rec, b: Rec, c: Rec)
    requires Reconfigured(a, b) && Reconfigured(b, c)
    ensures Reconfigured(a, c)
  {
  }

  lemma NotReconfigured(r: Rec)
    ensures Reconfigured(r, r)
  {
  }

  // ----- the critical timer over a life -----

  /** The timer is never older than any moment at which the record was left not critical. */
  ghost predicate TimerOk(r: Rec, now: int) {
    r.lastnoncrit <= now && forall m :: m in r.moments ==> m <= r.lastnoncrit
  }

  lemma StepKeepsTimer(cfg: Settings, r: Rec, s: Step, lo: int, hi: int)
    requires TimerOk(r, lo) && lo <= hi && (s.STimer? ==> lo <= s.t <= hi)
    ensures TimerOk(Apply(cfg, r, s), hi)
  {
    hide Fold, HasText;
  }

  lemma ReconfiguredTimer(r: Rec, r': Rec, now: int)
    requires TimerOk(r, now) && Reconfigured(r, r')
    ensures TimerOk(r', now)
  {
  }

  /** A critical judgement on a host that is not the master, with FSD clear: OB and LB are both set
      and every moment at which a word left the record otherwise is more than HOSTSYNC seconds past. */
  ghost predicate SlaveSure(cfg: Settings, r: Rec, now: int) {
    Master !in r.status && Fsd !in r.status && Critical(cfg, r, now) ==>
      BattLow(r) && forall m :: m in r.moments ==> now - m > cfg.hostsync
  }

  lemma TimerMakesSure(cfg: Settings, r: Rec, lo: int, now: int)
    requires TimerOk(r, lo)
    ensures SlaveSure(cfg, r, now)
  {
  }

  // ----- the notices of a whole life -----

  /** The notices of two kinds, in order. */
  function Only(log: seq<Notice>, a: Notice, b: Notice): seq<Notice> {
    if log == [] then []
    else
      var n := log[|log| - 1];
      Only(log[..|log| - 1], a, b) + if n == a || n == b then [n] else []
  }

  lemma OnlySnoc(log: seq<Notice>, n: Notice, a: Notice, b: Notice)
    ensures Only(log + [n], a, b) == Only(log, a, b) + if n == a || n == b then [n] else []
  {
    assert (log + [n])[..|log|] == log;
  }

  ghost predicate Alternates(s: seq<Notice>) {
    forall i :: 0 <= i < |s| - 1 ==> s[i] != s[i + 1]
  }

  ghost predicate NeverTwice(s: seq<Notice>, a: Notice) {
    forall i :: 0 <= i < |s| - 1 ==> !(s[i] == a && s[i + 1] == a)
  }

  function Line(r: Rec): seq<Notice> {
    Only(r.log, NotifyOnline, NotifyOnBatt)
  }

  function Comm(r: Rec): seq<Notice> {
    Only(r.log, NotifyCommOk, NotifyCommBad)
  }

  predicate EndsWith(s: seq<Notice>, n: Notice) {
    s != [] && s[|s| - 1] == n
  }

  /** What every step keeps. */
  ghost predicate LineOk(r: Rec) {
    && !(Online in r.status && OnBatt in r.status)
    && Alternates(Line(r))
    && (EndsWith(Line(r), NotifyOnBatt) <==> OnBatt in r.status)
    && (EndsWith(Line(r), NotifyOnline) ==> Online in r.status)
    && (OnBatt in r.status ==> r.linestate != -1)
  }

  ghost predicate CommOk(r: Rec) {
    && NeverTwice(Comm(r), NotifyCommBad)
    && (EndsWith(Comm(r), NotifyCommBad) ==> r.commstate == 0)
  }

  ghost predicate LifeOk(r: Rec) {
    LineOk(r) && CommOk(r)
  }

  lemma NotifySnoc(r: Rec, n: Notice)
    ensures Line(Notify(r, n)) == Line(r) + if n == NotifyOnline || n == NotifyOnBatt then [n] else []
    ensures Comm(Notify(r, n)) == Comm(r) + if n == NotifyCommOk || n == NotifyCommBad then [n] else []
  {
    OnlySnoc(r.log, n, NotifyOnline, NotifyOnBatt);
    OnlySnoc(r.log, n, NotifyCommOk, NotifyCommBad);
  }

  lemma StepKeepsLine(cfg: Settings, r: Rec, s: Step)
    requires LineOk(r)
    ensures LineOk(Apply(cfg, r, s))
  {
    hide Only, Fold, HasText;
    NotifySnoc(r, NotifyOnline);
    NotifySnoc(r, NotifyOnBatt);
    NotifySnoc(r, NotifyLowBatt);
    NotifySnoc(r, NotifyFsd);
    NotifySnoc(r, NotifyReplBatt);
    NotifySnoc(r, NotifyNoComm);
    NotifySnoc(r, NotifyCommBad);
    if s.SAlive? { NotifySnoc(r.(lastpoll := s.t), NotifyCommOk); }
  }

  lemma StepKeepsComm(cfg: Settings, r: Rec, s: Step)
    requires CommOk(r)
    ensures CommOk(Apply(cfg, r, s))
  {
    hide Only, Fold, HasText;
    NotifySnoc(r, NotifyOnline);
    NotifySnoc(r, NotifyOnBatt);
    NotifySnoc(r, NotifyLowBatt);
    NotifySnoc(r, NotifyFsd);
    NotifySnoc(r, NotifyReplBatt);
    NotifySnoc(r, NotifyNoComm);
    NotifySnoc(r, NotifyCommBad);
    if s.SAlive? { NotifySnoc(r.(lastpoll := s.t), NotifyCommOk); }
  }

  lemma {:induction false} RunKeepsLife(cfg: Settings, r: Rec, steps: seq<Step>)
    requires LifeOk(r)
    ensures LifeOk(Run(cfg, r, steps))
    decreases |steps|
  {
    if steps != [] {
      StepKeepsLine(cfg, r, steps[0]);
      StepKeepsComm(cfg, r, steps[0]);
      RunKeepsLife(cfg, Apply(cfg, r, steps[0]), steps[1..]);
    }
  }

  /** Whatever polls, failures and drops a new record goes through, in any order: OL and OB are
      never set together, ONBATT and ONLINE notices strictly alternate, and there is a COMMOK
      between any two COMMBAD notices. */
  lemma NoticesOfALife(cfg: Settings, master: bool, steps: seq<Step>)
    ensures var r := Run(cfg, NewRec(master), steps);
            && !(Online in r.status && OnBatt in r.status)
            && Alternates(Line(r))
            && NeverTwice(Comm(r), NotifyCommBad)
  {
    RunKeepsLife(cfg, NewRec(master), steps);
  }
}
