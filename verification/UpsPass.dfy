/** One pass of the main loop of clients/upsmon.c over a record: the poll and the promotion, with the
    order of the clock readings they make, and what follows for the critical timer over many passes. */
module UpsPass {
  import opened CStrings
  import opened UpsmonUps
  import opened UpsPoll
  import opened UpsRecord
  import opened UpsStatus

  // ----- the timer readings of a poll -----

  ghost predicate TimersWithin(steps: seq<Step>, lo: int, hi: int) {
    TimersOrdered(steps) && forall i :: 0 <= i < |steps| && steps[i].STimer? ==> lo <= steps[i].t <= hi
  }

  lemma {:induction false} RunKeepsTimer(cfg: Settings, r: Rec, steps: seq<Step>, lo: int, hi: int)
    requires TimerOk(r, lo) && lo <= hi && TimersWithin(steps, lo, hi)
    ensures TimerOk(Run(cfg, r, steps), hi)
    decreases |steps|
  {
    hide Apply;
    if steps != [] {
      var s := steps[0];
      var mid := if s.STimer? then s.t else lo;
      StepKeepsTimer(cfg, r, s, lo, mid);
      assert TimersWithin(steps[1..], mid, hi);
      RunKeepsTimer(cfg, Apply(cfg, r, s), steps[1..], mid, hi);
    }
  }

  lemma {:induction false} WordTimers(ws: seq<string>, ts: seq<int>, lo: int, hi: int)
    requires |ts| == 2 * |ws| && Between(lo, ts, hi)
    ensures TimersWithin(WordSteps(ws, ts), lo, hi)
    decreases |ws|
  {
    if ws != [] {
      WordTimers(ws[1..], ts[2..], ts[1], hi);
      TimerThen(SWord(ws[0], ts[0]), ts[1], WordSteps(ws[1..], ts[2..]), lo, hi);
    }
  }

  lemma TimerThen(s: Step, t: int, rest: seq<Step>, lo: int, hi: int)
    requires !s.STimer? && lo <= t <= hi && TimersWithin(rest, t, hi)
    ensures TimersWithin([s, STimer(t)] + rest, lo, hi)
  {
  }

  lemma OthersThen(other: seq<Step>, rest: seq<Step>, lo: int, hi: int)
    requires (forall i :: 0 <= i < |other| ==> !other[i].STimer?) && TimersWithin(rest, lo, hi)
    ensures TimersWithin(other + rest, lo, hi)
  {
  }

  lemma AnswerTimers(a: Answer, ts: seq<int>, lo: int, hi: int)
    requires |ts| == Readings(a) && Between(lo, ts, hi)
    ensures TimersWithin(AnswerSteps(a, ts), lo, hi)
  {
    if a.StatusLine? && a.line != "" {
      WordTimers(Words(a.line), ts[1..], lo, hi);
      OthersThen([SAlive(ts[0]), SClear(a.line)], WordSteps(Words(a.line), ts[1..]), lo, hi);
    }
  }

  lemma PollupsTimers(connected: bool, c: Connect, a: Answer, t: int, ts: seq<int>, lo: int, hi: int)
    requires |ts| == Readings(a) && Between(lo, [t] + ts, hi)
    ensures TimersWithin(PollupsSteps(connected, c, a, t, ts), lo, hi)
  {
    assert ([t] + ts)[1..] == ts;
    assert Between(lo, ts, hi) by { TailBetween(lo, t, ts, hi); }
    AnswerTimers(a, ts, lo, hi);
    hide AnswerSteps, Between, Readings;
    if !connected { OthersThen(ConnectSteps(c, t), if c.Up? then AnswerSteps(a, ts) else [], lo, hi); }
  }

  lemma TailBetween(lo: int, t: int, ts: seq<int>, hi: int)
    requires Between(lo, [t] + ts, hi)
    ensures Between(lo, ts, hi)
  {
    var all := [t] + ts;
    forall i | 0 <= i < |ts| ensures lo <= ts[i] <= hi { assert all[i + 1] == ts[i]; }
    forall i, j | 0 <= i <= j < |ts| ensures ts[i] <= ts[j] { assert all[i + 1] == ts[i] && all[j + 1] == ts[j]; }
  }

  // ----- what a poll leaves alone -----

  ghost predicate NoRole(steps: seq<Step>) {
    forall i :: 0 <= i < |steps| ==> !steps[i].SMaster?
  }

  lemma {:induction false} RunKeepsRole(cfg: Settings, r: Rec, steps: seq<Step>)
    requires NoRole(steps)
    ensures Master in Run(cfg, r, steps).status <==> Master in r.status
    decreases |steps|
  {
    hide Fold, HasText;
    if steps != [] { RunKeepsRole(cfg, Apply(cfg, r, steps[0]), steps[1..]); }
  }

  lemma {:induction false} WordsNoRole(ws: seq<string>, ts: seq<int>)
    requires |ts| == 2 * |ws|
    ensures NoRole(WordSteps(ws, ts))
    decreases |ws|
  {
    if ws != [] { WordsNoRole(ws[1..], ts[2..]); }
  }

  lemma PollupsNoRole(connected: bool, c: Connect, a: Answer, t: int, ts: seq<int>)
    requires |ts| == Readings(a)
    ensures NoRole(PollupsSteps(connected, c, a, t, ts))
  {
    if a.StatusLine? && a.line != "" { WordsNoRole(Words(a.line), ts[1..]); }
  }

  // ----- a poll and a pass -----

  /** A record before and after a poll with this outcome, at readings of the clock taken one after
      another from lo to hi. */
  ghost predicate Polled(cfg: Settings, r: Rec, c: Connect, a: Answer, lo: int, hi: int, r': Rec) {
    exists t: int, ts: seq<int> ::
      && |ts| == Readings(a) && Between(lo, [t] + ts, hi)
      && r' == Run(cfg, r, PollupsSteps(Connected in r.status, c, a, t, ts))
  }

  lemma PolledWiden(cfg: Settings, r: Rec, c: Connect, a: Answer, lo: int, hi: int, r': Rec, lo': int, hi': int)
    requires Polled(cfg, r, c, a, lo, hi, r') && lo' <= lo && hi <= hi'
    ensures Polled(cfg, r, c, a, lo', hi', r')
  {
    hide Run, PollupsSteps;
    var t: int, ts: seq<int> :| |ts| == Readings(a) && Between(lo, [t] + ts, hi)
                                && r' == Run(cfg, r, PollupsSteps(Connected in r.status, c, a, t, ts));
    assert Between(lo', [t] + ts, hi');
  }

  /** A poll keeps the role, and what the critical timer promises. */
  lemma PolledKeeps(cfg: Settings, r: Rec, c: Connect, a: Answer, lo: int, hi: int, r': Rec)
    requires Polled(cfg, r, c, a, lo, hi, r')
    ensures Master in r'.status <==> Master in r.status
    ensures TimerOk(r, lo) ==> TimerOk(r', hi)
  {
    hide Run, PollupsSteps, Between, TimerOk;
    var t: int, ts: seq<int> :| |ts| == Readings(a) && Between(lo, [t] + ts, hi)
                                && r' == Run(cfg, r, PollupsSteps(Connected in r.status, c, a, t, ts));
    var steps := PollupsSteps(Connected in r.status, c, a, t, ts);
    PollupsNoRole(Connected in r.status, c, a, t, ts);
    RunKeepsRole(cfg, r, steps);
    assert lo <= hi by { BetweenOrder(lo, t, ts, hi); }
    PollupsTimers(Connected in r.status, c, a, t, ts, lo, hi);
    if TimerOk(r, lo) { RunKeepsTimer(cfg, r, steps, lo, hi); }
  }

  lemma BetweenOrder(lo: int, t: int, ts: seq<int>, hi: int)
    requires Between(lo, [t] + ts, hi)
    ensures lo <= t <= hi && forall i :: 0 <= i < |ts| ==> lo <= ts[i] <= hi
  {
    assert ([t] + ts)[0] == t;
    TailBetween(lo, t, ts, hi);
  }

  /** A record before and after a whole pass: polled, then promoted if it is dead. */
  ghost predicate Passed(cfg: Settings, r: Rec, c: Connect, a: Answer, lo: int, hi: int, r': Rec) {
    exists mid, now: int :: Polled(cfg, r, c, a, lo, now, mid) && now <= hi && r' == Promote(cfg, mid, now)
  }

  lemma PassedKeeps(cfg: Settings, r: Rec, c: Connect, a: Answer, lo: int, hi: int, r': Rec)
    requires Passed(cfg, r, c, a, lo, hi, r')
    ensures Master in r'.status <==> Master in r.status
    ensures TimerOk(r, lo) ==> TimerOk(r', hi)
  {
    hide Polled;
    var mid, now: int :| Polled(cfg, r, c, a, lo, now, mid) && now <= hi && r' == Promote(cfg, mid, now);
    PolledKeeps(cfg, r, c, a, lo, now, mid);
  }

  /** A record before and after a pass that began with a reload. */
  ghost predicate Reread(cfg: Settings, r: Rec, c: Connect, a: Answer, lo: int, hi: int, r': Rec) {
    exists mid :: Reconfigured(r, mid) && Passed(cfg, mid, c, a, lo, hi, r')
  }

  // ----- a battery that stays low -----

  /** The poll gets through and shows OB and LB without OL. */
  ghost predicate Shows(c: Connect, a: Answer) {
    c.Up? && a.StatusLine? && ShowsCritical(a.line)
  }

  /** The poll takes nothing of that back: it shows LB and no OL, or nothing at all. */
  ghost predicate Upholds(a: Answer) {
    a.StatusLine? ==> a.line == "" || (!HasWord(a.line, "ol") && HasText(a.line, "LB"))
  }

  ghost predicate AllSustain(steps: seq<Step>) {
    forall i :: 0 <= i < |steps| ==> Sustains(steps[i])
  }

  lemma AnswerSustains(a: Answer, ts: seq<int>)
    requires |ts| == Readings(a) && Upholds(a)
    ensures AllSustain(AnswerSteps(a, ts))
  {
    hide Fold, HasText, HasWord, Words;
    if a.StatusLine? && a.line != "" { PollSustains(a.line, ts); }
  }

  lemma PollupsSustain(connected: bool, c: Connect, a: Answer, t: int, ts: seq<int>)
    requires |ts| == Readings(a) && Upholds(a)
    ensures AllSustain(PollupsSteps(connected, c, a, t, ts))
  {
    AnswerSustains(a, ts);
    hide AnswerSteps, Readings, Upholds, Fold, HasText;
  }

  lemma PassedUpholds(cfg: Settings, r: Rec, c: Connect, a: Answer, lo: int, hi: int, r': Rec)
    requires Passed(cfg, r, c, a, lo, hi, r') && BattLow(r) && Upholds(a)
    ensures BattLow(r') && r'.lastnoncrit == r.lastnoncrit
  {
    hide Run, PollupsSteps, Between, Upholds, Sustains;
    var mid, now: int :| Polled(cfg, r, c, a, lo, now, mid) && now <= hi && r' == Promote(cfg, mid, now);
    var t: int, ts: seq<int> :| |ts| == Readings(a) && Between(lo, [t] + ts, now)
                                && mid == Run(cfg, r, PollupsSteps(Connected in r.status, c, a, t, ts));
    PollupsSustain(Connected in r.status, c, a, t, ts);
    SustainedRun(cfg, r, PollupsSteps(Connected in r.status, c, a, t, ts));
  }

  lemma PassedShows(cfg: Settings, r: Rec, c: Connect, a: Answer, lo: int, hi: int, r': Rec)
    requires Passed(cfg, r, c, a, lo, hi, r') && Shows(c, a) && r.lastnoncrit <= hi
    ensures BattLow(r') && r'.lastnoncrit <= hi
  {
    hide Run, Between, ConnectSteps, PollSteps, ShowsCritical;
    var mid, now: int :| Polled(cfg, r, c, a, lo, now, mid) && now <= hi && r' == Promote(cfg, mid, now);
    var t: int, ts: seq<int> :| |ts| == Readings(a) && Between(lo, [t] + ts, now)
                                && mid == Run(cfg, r, PollupsSteps(Connected in r.status, c, a, t, ts));
    BetweenOrder(lo, t, ts, now);
    var first := if Connected in r.status then r else Run(cfg, r, ConnectSteps(c, t));
    if Connected !in r.status {
      RunConcat(cfg, r, ConnectSteps(c, t), AnswerSteps(a, ts));
      ConnectRun(cfg, r, c, t);
    }
    ShowsSets(cfg, first, a.line, ts, hi);
  }

  // ----- what an answer in a pass decides at once -----

  /** The poll gets through and is answered with a line that is not empty. */
  ghost predicate Answered(c: Connect, a: Answer) {
    c.Up? && a.StatusLine? && a.line != ""
  }

  ghost predicate ShowsFsd(c: Connect, a: Answer) {
    Answered(c, a) && HasWord(a.line, "fsd")
  }

  ghost predicate ShowsOnBatt(c: Connect, a: Answer) {
    Answered(c, a) && LastLine(Words(a.line)) == "ob"
  }

  ghost predicate ShowsOnLine(c: Connect, a: Answer) {
    Answered(c, a) && LastLine(Words(a.line)) == "ol" && !HasWord(a.line, "fsd") && !HasText(a.line, "FSD")
  }

  /** The poll is not answered, or with an empty line. */
  ghost predicate NoReply(a: Answer) {
    a.StatusLine? ==> a.line == ""
  }

  /** The judgement that the answer of a pass leaves no choice about. */
  ghost predicate Prompt(c: Connect, a: Answer, r: Rec, crit: bool) {
    && (ShowsFsd(c, a) ==> crit)
    && (ShowsOnBatt(c, a) && HasWord(a.line, "lb") && Master in r.status ==> crit)
    && (ShowsOnLine(c, a) ==> !crit)
  }

  lemma ConnectLeaves(cfg: Settings, r: Rec, c: Connect, t: int)
    ensures var e := Run(cfg, r, ConnectSteps(c, t));
            e.status - {Connected, Login} == r.status - {Connected, Login} && e.lastpoll == r.lastpoll
  {
    ConnectRun(cfg, r, c, t);
  }

  /** An answered poll is an answer to the record, on a connection that may be new. */
  lemma PolledAnswered(cfg: Settings, r: Rec, c: Connect, a: Answer, lo: int, hi: int, r': Rec)
      returns (first: Rec, ts: seq<int>)
    requires Polled(cfg, r, c, a, lo, hi, r') && Answered(c, a)
    ensures |ts| == 1 + 2 * |Words(a.line)| && r' == Run(cfg, first, PollSteps(a.line, ts)) && ts[0] <= hi
    ensures first.status - {Connected, Login} == r.status - {Connected, Login}
  {
    hide Run, Between, ConnectSteps, PollSteps, Words;
    var t: int;
    t, ts :| |ts| == Readings(a) && Between(lo, [t] + ts, hi)
             && r' == Run(cfg, r, PollupsSteps(Connected in r.status, c, a, t, ts));
    BetweenOrder(lo, t, ts, hi);
    first := r;
    if Connected !in r.status {
      RunConcat(cfg, r, ConnectSteps(c, t), AnswerSteps(a, ts));
      ConnectLeaves(cfg, r, c, t);
      first := Run(cfg, r, ConnectSteps(c, t));
    }
  }

  lemma SameBits(r: Rec, first: Rec)
    requires first.status - {Connected, Login} == r.status - {Connected, Login}
    ensures forall s :: s != Connected && s != Login ==> (s in first.status <==> s in r.status)
  {
    forall s | s != Connected && s != Login ensures s in first.status <==> s in r.status {
      assert s in first.status - {Connected, Login} <==> s in r.status - {Connected, Login};
    }
  }

  /** What an answered pass leaves: the bits that the line shows. */
  lemma PassedAnswered(cfg: Settings, r: Rec, c: Connect, a: Answer, lo: int, hi: int, r': Rec)
    requires Passed(cfg, r, c, a, lo, hi, r') && Answered(c, a) && NotBoth(r)
    ensures ShowsOnBatt(c, a) ==> OnBatt in r'.status && r'.lastpoll <= hi
    ensures ShowsOnLine(c, a) ==> OnBatt !in r'.status && Fsd !in r'.status
    ensures HasWord(a.line, "fsd") ==> Fsd in r'.status
    ensures ShowsOnBatt(c, a) && HasWord(a.line, "lb") ==> BattLow(r')
  {
    hide Run, PollSteps, Words, HasText, HasWord, LastLine, Polled;
    var mid, now: int :| Polled(cfg, r, c, a, lo, now, mid) && now <= hi && r' == Promote(cfg, mid, now);
    var first, ts := PolledAnswered(cfg, r, c, a, lo, now, mid);
    SameBits(r, first);
    AnswerStatus(cfg, first, a.line, ts);
  }

  lemma PassedPrompt(cfg: Settings, r: Rec, c: Connect, a: Answer, lo: int, hi: int, r': Rec, t: int)
    requires Passed(cfg, r, c, a, lo, hi, r') && NotBoth(r)
    ensures Prompt(c, a, r', Critical(cfg, r', t))
  {
    hide Passed, HasWord, LastLine, Words, HasText;
    if Answered(c, a) { PassedAnswered(cfg, r, c, a, lo, hi, r'); }
  }

  // ----- a UPS that falls silent -----

  lemma SilentSteps(cfg: Settings, r: Rec, c: Connect, a: Answer, t: int, ts: seq<int>)
    requires |ts| == Readings(a) && NoReply(a)
    ensures var e := Run(cfg, r, PollupsSteps(Connected in r.status, c, a, t, ts));
            e.status - {Connected, Login} == r.status - {Connected, Login} && e.lastpoll == r.lastpoll
  {
    var connected := Connected in r.status;
    var first := if connected then r else Run(cfg, r, ConnectSteps(c, t));
    if !connected {
      ConnectLeaves(cfg, r, c, t);
      RunConcat(cfg, r, ConnectSteps(c, t), if c.Up? then AnswerSteps(a, ts) else []);
      RunNone(cfg, first);
    }
    SilentAnswer(cfg, first, a, ts);
    hide Run, AnswerSteps, ConnectSteps;
  }

  lemma SilentAnswer(cfg: Settings, r: Rec, a: Answer, ts: seq<int>)
    requires |ts| == Readings(a) && NoReply(a)
    ensures var e := Run(cfg, r, AnswerSteps(a, ts));
            e.status - {Connected, Login} == r.status - {Connected, Login} && e.lastpoll == r.lastpoll
  {
    if a.NoAnswer? {
      NoAnswerRun(cfg, r, a.lost, ts[0]);
    } else {
      OneStep(cfg, r, SGone(ts[0]));
    }
  }

  /** Without a reply the line stays as it was; on battery it is low once it is dead. */
  lemma PassedSilent(cfg: Settings, r: Rec, c: Connect, a: Answer, lo: int, hi: int, r': Rec)
    requires Passed(cfg, r, c, a, lo, hi, r') && NoReply(a)
    ensures r'.lastpoll == r.lastpoll && (OnBatt in r'.status <==> OnBatt in r.status) && (Fsd in r'.status <==> Fsd in r.status)
    ensures OnBatt in r.status && lo - r.lastpoll > cfg.deadtime ==> BattLow(r')
  {
    hide Run, PollupsSteps, Between, NoReply;
    var mid, now: int :| Polled(cfg, r, c, a, lo, now, mid) && now <= hi && r' == Promote(cfg, mid, now);
    var t: int, ts: seq<int> :| |ts| == Readings(a) && Between(lo, [t] + ts, now)
                                && mid == Run(cfg, r, PollupsSteps(Connected in r.status, c, a, t, ts));
    BetweenOrder(lo, t, ts, now);
    SilentSteps(cfg, r, c, a, t, ts);
    SameBits(r, mid);
  }

  // ----- the connection -----

  /** After a poll the record is connected exactly if the link was there or came up and was not lost
      again; an attempt that fails before or at the login leaves it as it got. */
  lemma PolledLink(cfg: Settings, r: Rec, c: Connect, a: Answer, lo: int, hi: int, r': Rec)
    requires Polled(cfg, r, c, a, lo, hi, r')
    ensures Connected in r'.status <==>
              if Connected in r.status || c.Up? then a != NoAnswer(true) else c.AuthFailed?
    ensures Login in r'.status <==>
              if Connected in r.status then Login in r.status && a != NoAnswer(true)
              else if c.Up? then a != NoAnswer(true)
              else (Login in r.status && !c.NoCertPath?) || (c.AuthFailed? && c.loggedIn)
  {
    hide Run, Between, PollSteps, Words;
    var t: int, ts: seq<int> :| |ts| == Readings(a) && Between(lo, [t] + ts, hi)
                                && r' == Run(cfg, r, PollupsSteps(Connected in r.status, c, a, t, ts));
    var first := r;
    if Connected !in r.status {
      first := Run(cfg, r, ConnectSteps(c, t));
      ConnectRun(cfg, r, c, t);
      RunConcat(cfg, r, ConnectSteps(c, t), if c.Up? then AnswerSteps(a, ts) else []);
      RunNone(cfg, first);
    }
    AnswerLink(cfg, first, a, ts);
  }

  lemma AnswerLink(cfg: Settings, r: Rec, a: Answer, ts: seq<int>)
    requires |ts| == Readings(a)
    ensures Connected in Run(cfg, r, AnswerSteps(a, ts)).status <==> Connected in r.status && a != NoAnswer(true)
    ensures Login in Run(cfg, r, AnswerSteps(a, ts)).status <==> Login in r.status && a != NoAnswer(true)
  {
    match a
    case NoAnswer(lost) => NoAnswerRun(cfg, r, lost, ts[0]);
    case StatusLine(line) =>
      if line == "" {
        OneStep(cfg, r, SGone(ts[0]));
      } else {
        PollUnfold(cfg, r, line, ts);
        AliveClear(r, line, ts[0]);
        var b := ClearEarly(Alive(r, ts[0]), line);
        hide Run, ClearEarly, Alive, Words;
        WordsFlags(cfg, b, Words(line), ts[1..]);
        assert Connected in b.status - {Online, OnBatt, LowBatt, Fsd} <==> Connected in b.status;
        assert Connected in b.status - {LowBatt, Fsd} <==> Connected in r.status - {LowBatt, Fsd};
        assert Login in b.status - {Online, OnBatt, LowBatt, Fsd} <==> Login in b.status;
        assert Login in b.status - {LowBatt, Fsd} <==> Login in r.status - {LowBatt, Fsd};
      }
  }
}
