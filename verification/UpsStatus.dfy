/** What a status answer does to a record of clients/upsmon.c, bit by bit and notice by notice, and
    when the record is then critical. */
module UpsStatus {
  import opened CStrings
  import opened UpsPoll
  import opened UpsRecord

  /** How often a notice was sent for the record. */
  function Sent(r: Rec, n: Notice): nat {
    |Only(r.log, n, n)|
  }

  lemma SentNotify(r: Rec, n: Notice, m: Notice)
    ensures Sent(Notify(r, n), m) == Sent(r, m) + if n == m then 1 else 0
  {
    OnlySnoc(r.log, n, m, m);
  }

  ghost predicate Has(ws: seq<string>, f: string) {
    exists i :: 0 <= i < |ws| && Fold(ws[i]) == f
  }

  lemma HasWordIs(line: string, f: string)
    ensures HasWord(line, f) <==> Has(Words(line), f)
  {
    hide Words, Fold;
  }

  lemma HasFirst(ws: seq<string>, f: string)
    requires ws != []
    ensures Has(ws, f) <==> Fold(ws[0]) == f || Has(ws[1..], f)
  {
    hide Fold;
    forall i | 0 < i < |ws| ensures ws[i] == ws[1..][i - 1] {}
    if Has(ws[1..], f) {
      var i :| 0 <= i < |ws[1..]| && Fold(ws[1..][i]) == f;
      assert Fold(ws[i + 1]) == f;
    }
  }

  /** The last of the words OL and OB, in any case; empty if there is neither. */
  function LastLine(ws: seq<string>): string {
    if ws == [] then ""
    else
      var n := |ws| - 1;
      if Fold(ws[n]) == "ol" || Fold(ws[n]) == "ob" then Fold(ws[n]) else LastLine(ws[..n])
  }

  lemma {:induction false} LastLineFirst(ws: seq<string>)
    requires ws != []
    ensures LastLine(ws) == if LastLine(ws[1..]) != "" then LastLine(ws[1..])
                            else if Fold(ws[0]) == "ol" || Fold(ws[0]) == "ob" then Fold(ws[0]) else ""
    decreases |ws|
  {
    hide Fold;
    var n := |ws| - 1;
    if n == 0 {
      assert ws[1..] == [] && ws[..0] == [];
    } else {
      assert ws[1..][n - 1] == ws[n] && ws[1..][..n - 1] == ws[..n][1..];
      LastLineFirst(ws[..n]);
    }
  }

  // ----- one word -----

  /** What a word does. Each case says what is set, what is cleared and which notice is sent. */
  lemma WordLaw(cfg: Settings, r: Rec, w: string, t: int, u: int)
    ensures var e, f := CritTimer(StatusWord(cfg, r, w, t), u), Fold(w);
            && (f == "ol" && Online !in r.status ==> e.status == r.status + {Online} - {OnBatt} && e.linestate == 1)
            && (f == "ob" && OnBatt !in r.status ==> e.status == r.status + {OnBatt} - {Online} && e.linestate == 0)
            && (f == "lb" ==> e.status == r.status + {LowBatt})
            && (f == "fsd" ==> e.status == r.status + {Fsd})
            && (f != "lb" && f != "fsd" && !(f == "ol" && Online !in r.status) && !(f == "ob" && OnBatt !in r.status)
                ==> e.status == r.status)
            && (!(f == "ol" && Online !in r.status) && !(f == "ob" && OnBatt !in r.status) ==> e.linestate == r.linestate)
            && e.commstate == r.commstate && e.lastpoll == r.lastpoll && e.lastncwarn == r.lastncwarn
  {
    hide Fold;
  }

  lemma WordNotices(cfg: Settings, r: Rec, w: string, t: int, u: int, m: Notice)
    ensures var e, f := CritTimer(StatusWord(cfg, r, w, t), u), Fold(w);
            Sent(e, m) == Sent(r, m) +
              if (m == NotifyOnline && f == "ol" && Online !in r.status && r.linestate != -1)
                 || (m == NotifyOnBatt && f == "ob" && OnBatt !in r.status)
                 || (m == NotifyLowBatt && f == "lb" && LowBatt !in r.status)
                 || (m == NotifyFsd && f == "fsd" && Fsd !in r.status)
                 || (m == NotifyReplBatt && f == "rb" && t - r.lastrbwarn > cfg.rbwarntime)
              then 1 else 0
  {
    hide Fold, Only;
    SentNotify(r, NotifyOnline, m);
    SentNotify(r, NotifyOnBatt, m);
    SentNotify(r, NotifyLowBatt, m);
    SentNotify(r, NotifyFsd, m);
    SentNotify(r, NotifyReplBatt, m);
  }

  // ----- the words of a line -----

  ghost predicate NotBoth(r: Rec) {
    !(Online in r.status && OnBatt in r.status)
  }

  /** The line bits follow the last of OL and OB. */
  lemma {:induction false} WordsLine(cfg: Settings, r: Rec, ws: seq<string>, ts: seq<int>)
    requires |ts| == 2 * |ws| && NotBoth(r)
    ensures var e := Run(cfg, r, WordSteps(ws, ts));
            && NotBoth(e)
            && (LastLine(ws) == "ol" ==> Online in e.status && OnBatt !in e.status)
            && (LastLine(ws) == "ob" ==> OnBatt in e.status && Online !in e.status)
            && (LastLine(ws) == "" ==> (Online in e.status <==> Online in r.status) && (OnBatt in e.status <==> OnBatt in r.status))
    decreases |ws|
  {
    if ws != [] {
      hide Fold, StatusWord, CritTimer;
      WordStepsUnfold(cfg, r, ws, ts);
      WordLaw(cfg, r, ws[0], ts[0], ts[1]);
      LastLineFirst(ws);
      hide LastLine;
      WordsLine(cfg, CritTimer(StatusWord(cfg, r, ws[0], ts[0]), ts[1]), ws[1..], ts[2..]);
    }
  }

  /** LB and FSD are set exactly if they were or a word says so; what else is in the status stays. */
  lemma {:induction false} WordsFlags(cfg: Settings, r: Rec, ws: seq<string>, ts: seq<int>)
    requires |ts| == 2 * |ws|
    ensures var e := Run(cfg, r, WordSteps(ws, ts));
            && (LowBatt in e.status <==> LowBatt in r.status || Has(ws, "lb"))
            && (Fsd in e.status <==> Fsd in r.status || Has(ws, "fsd"))
            && e.status - {Online, OnBatt, LowBatt, Fsd} == r.status - {Online, OnBatt, LowBatt, Fsd}
            && e.commstate == r.commstate && e.lastpoll == r.lastpoll && e.lastncwarn == r.lastncwarn
    decreases |ws|
  {
    if ws != [] {
      hide Fold, StatusWord, CritTimer;
      WordStepsUnfold(cfg, r, ws, ts);
      WordLaw(cfg, r, ws[0], ts[0], ts[1]);
      HasFirst(ws, "lb");
      HasFirst(ws, "fsd");
      hide Has;
      WordsFlags(cfg, CritTimer(StatusWord(cfg, r, ws[0], ts[0]), ts[1]), ws[1..], ts[2..]);
    }
  }

  /** One LOWBATT and one FSD notice for the first word that says so, none for a record that has
      the flag, and no notice about the connection. */
  lemma WordsNotices(cfg: Settings, r: Rec, ws: seq<string>, ts: seq<int>)
    requires |ts| == 2 * |ws|
    ensures var e := Run(cfg, r, WordSteps(ws, ts));
            && Sent(e, NotifyLowBatt) == Sent(r, NotifyLowBatt) + (if LowBatt !in r.status && Has(ws, "lb") then 1 else 0)
            && Sent(e, NotifyFsd) == Sent(r, NotifyFsd) + (if Fsd !in r.status && Has(ws, "fsd") then 1 else 0)
            && Sent(e, NotifyCommOk) == Sent(r, NotifyCommOk) && Sent(e, NotifyCommBad) == Sent(r, NotifyCommBad)
            && Sent(e, NotifyNoComm) == Sent(r, NotifyNoComm)
  {
    hide Sent, Has, Run, WordSteps;
    WordsFlagNotices(cfg, r, ws, ts, NotifyLowBatt);
    WordsFlagNotices(cfg, r, ws, ts, NotifyFsd);
    WordsFlagNotices(cfg, r, ws, ts, NotifyCommOk);
    WordsFlagNotices(cfg, r, ws, ts, NotifyCommBad);
    WordsFlagNotices(cfg, r, ws, ts, NotifyNoComm);
  }

  lemma {:induction false} WordsFlagNotices(cfg: Settings, r: Rec, ws: seq<string>, ts: seq<int>, m: Notice)
    requires |ts| == 2 * |ws| && m != NotifyOnline && m != NotifyOnBatt && m != NotifyReplBatt
    ensures var e := Run(cfg, r, WordSteps(ws, ts));
            Sent(e, m) == Sent(r, m) +
              if (m == NotifyLowBatt && LowBatt !in r.status && Has(ws, "lb"))
                 || (m == NotifyFsd && Fsd !in r.status && Has(ws, "fsd")) then 1 else 0
    decreases |ws|
  {
    if ws != [] {
      hide Fold, StatusWord, CritTimer, Sent;
      WordStepsUnfold(cfg, r, ws, ts);
      hide Run;
      WordLaw(cfg, r, ws[0], ts[0], ts[1]);
      WordNotices(cfg, r, ws[0], ts[0], ts[1], m);
      HasFirst(ws, "lb");
      HasFirst(ws, "fsd");
      hide Has;
      WordsFlagNotices(cfg, CritTimer(StatusWord(cfg, r, ws[0], ts[0]), ts[1]), ws[1..], ts[2..], m);
    }
  }

  /** One ONLINE notice for a line with OL and without OB, unless the record was on line already or
      has not seen any line state yet; likewise one ONBATT notice the other way round. */
  lemma {:induction false} WordsLineNotices(cfg: Settings, r: Rec, ws: seq<string>, ts: seq<int>)
    requires |ts| == 2 * |ws| && !(Has(ws, "ol") && Has(ws, "ob"))
    ensures var e := Run(cfg, r, WordSteps(ws, ts));
            && Sent(e, NotifyOnline)
               == Sent(r, NotifyOnline) + (if Has(ws, "ol") && Online !in r.status && r.linestate != -1 then 1 else 0)
            && Sent(e, NotifyOnBatt) == Sent(r, NotifyOnBatt) + (if Has(ws, "ob") && OnBatt !in r.status then 1 else 0)
    decreases |ws|
  {
    if ws != [] {
      hide Fold, StatusWord, CritTimer, Sent;
      WordStepsUnfold(cfg, r, ws, ts);
      var w, t, u := ws[0], ts[0], ts[1];
      WordLaw(cfg, r, w, t, u);
      WordNotices(cfg, r, w, t, u, NotifyOnline);
      WordNotices(cfg, r, w, t, u, NotifyOnBatt);
      HasFirst(ws, "ol");
      HasFirst(ws, "ob");
      hide Has;
      WordsLineNotices(cfg, CritTimer(StatusWord(cfg, r, w, t), u), ws[1..], ts[2..]);
    }
  }

  // ----- an answer -----

  lemma AliveClear(r: Rec, line: string, t: int)
    ensures var a := ClearEarly(Alive(r, t), line);
            && a.commstate == 1 && a.lastpoll == t && a.linestate == r.linestate && a.lastncwarn == r.lastncwarn
            && (LowBatt in a.status <==> LowBatt in r.status && HasText(line, "LB"))
            && (Fsd in a.status <==> Fsd in r.status && HasText(line, "FSD"))
            && a.status - {LowBatt, Fsd} == r.status - {LowBatt, Fsd}
  {
    hide HasText;
  }

  lemma AliveNotices(r: Rec, line: string, t: int, m: Notice)
    ensures Sent(ClearEarly(Alive(r, t), line), m) == Sent(r, m) + if m == NotifyCommOk && r.commstate == 0 then 1 else 0
  {
    hide HasText, Only;
    SentNotify(r.(lastpoll := t), NotifyCommOk, m);
  }

  /** What an answer that is not empty leaves of the status: the line follows the last of OL and OB;
      LB and FSD are set if a word says so in any case, or if they were set and the text has them in
      capitals; the UPS counts as alive; everything else stays. */
  lemma AnswerStatus(cfg: Settings, r: Rec, line: string, ts: seq<int>)
    requires line != "" && |ts| == 1 + 2 * |Words(line)| && NotBoth(r)
    ensures var e, last := Run(cfg, r, PollSteps(line, ts)), LastLine(Words(line));
            && (last == "ol" ==> Online in e.status && OnBatt !in e.status)
            && (last == "ob" ==> OnBatt in e.status && Online !in e.status)
            && (last == "" ==> (Online in e.status <==> Online in r.status) && (OnBatt in e.status <==> OnBatt in r.status))
            && (LowBatt in e.status <==> HasWord(line, "lb") || (LowBatt in r.status && HasText(line, "LB")))
            && (Fsd in e.status <==> HasWord(line, "fsd") || (Fsd in r.status && HasText(line, "FSD")))
            && e.status - {Online, OnBatt, LowBatt, Fsd} == r.status - {Online, OnBatt, LowBatt, Fsd}
            && e.commstate == 1 && e.lastpoll == ts[0] && e.lastncwarn == r.lastncwarn
  {
    PollUnfold(cfg, r, line, ts);
    AliveClear(r, line, ts[0]);
    var a, ws, us := ClearEarly(Alive(r, ts[0]), line), Words(line), ts[1..];
    hide Words, HasText, Fold, ClearEarly, Alive, PollSteps, LastLine, HasWord, Has, Run, WordSteps;
    HasWordIs(line, "lb");
    HasWordIs(line, "fsd");
    WordsLine(cfg, a, ws, us);
    WordsFlags(cfg, a, ws, us);
  }

  /** The notices that such an answer sends: each at the transition it announces, once. */
  lemma AnswerNotices(cfg: Settings, r: Rec, line: string, ts: seq<int>)
    requires line != "" && |ts| == 1 + 2 * |Words(line)|
    ensures var e := Run(cfg, r, PollSteps(line, ts));
            && Sent(e, NotifyCommOk) == Sent(r, NotifyCommOk) + (if r.commstate == 0 then 1 else 0)
            && Sent(e, NotifyCommBad) == Sent(r, NotifyCommBad) && Sent(e, NotifyNoComm) == Sent(r, NotifyNoComm)
            && Sent(e, NotifyLowBatt) == Sent(r, NotifyLowBatt)
               + (if HasWord(line, "lb") && !(LowBatt in r.status && HasText(line, "LB")) then 1 else 0)
            && Sent(e, NotifyFsd) == Sent(r, NotifyFsd)
               + (if HasWord(line, "fsd") && !(Fsd in r.status && HasText(line, "FSD")) then 1 else 0)
  {
    PollUnfold(cfg, r, line, ts);
    AliveClear(r, line, ts[0]);
    var a, ws, us := ClearEarly(Alive(r, ts[0]), line), Words(line), ts[1..];
    hide Words, HasText, Fold, ClearEarly, Alive, PollSteps, Sent, HasWord, Has, Run, WordSteps;
    AliveNotices(r, line, ts[0], NotifyCommOk);
    AliveNotices(r, line, ts[0], NotifyCommBad);
    AliveNotices(r, line, ts[0], NotifyNoComm);
    AliveNotices(r, line, ts[0], NotifyLowBatt);
    AliveNotices(r, line, ts[0], NotifyFsd);
    HasWordIs(line, "lb");
    HasWordIs(line, "fsd");
    WordsNotices(cfg, a, ws, us);
  }

  lemma AnswerLineNotices(cfg: Settings, r: Rec, line: string, ts: seq<int>)
    requires line != "" && |ts| == 1 + 2 * |Words(line)| && !(HasWord(line, "ol") && HasWord(line, "ob"))
    ensures var e := Run(cfg, r, PollSteps(line, ts));
            && Sent(e, NotifyOnline) == Sent(r, NotifyOnline)
               + (if HasWord(line, "ol") && Online !in r.status && r.linestate != -1 then 1 else 0)
            && Sent(e, NotifyOnBatt) == Sent(r, NotifyOnBatt)
               + (if HasWord(line, "ob") && OnBatt !in r.status then 1 else 0)
  {
    PollUnfold(cfg, r, line, ts);
    AliveClear(r, line, ts[0]);
    var a, ws, us := ClearEarly(Alive(r, ts[0]), line), Words(line), ts[1..];
    hide Words, HasText, Fold, ClearEarly, Alive, PollSteps, Sent, HasWord, Has, Run, WordSteps;
    AliveNotices(r, line, ts[0], NotifyOnline);
    AliveNotices(r, line, ts[0], NotifyOnBatt);
    HasWordIs(line, "ol");
    HasWordIs(line, "ob");
    WordsLineNotices(cfg, a, ws, us);
  }

  // ----- no answer -----

  /** A UPS that does not answer keeps its status. The first loss sends COMMBAD; after that NOCOMM is
      sent when it has been silent, and not warned about, for the configured time. */
  lemma GoneLaw(cfg: Settings, r: Rec, t: int, m: Notice)
    ensures var e := Run(cfg, r, [SGone(t)]);
            && e.status == r.status && e.commstate == 0 && e.lastpoll == r.lastpoll && e.lastnoncrit == r.lastnoncrit
            && e.linestate == r.linestate
            && Sent(e, m) == Sent(r, m) +
                 if (m == NotifyCommBad && r.commstate != 0)
                    || (m == NotifyNoComm && r.commstate == 0 && t - r.lastpoll >= cfg.nocommwarntime
                        && t - r.lastncwarn > cfg.nocommwarntime)
                 then 1 else 0
  {
    assert Run(cfg, r, [SGone(t)]) == Gone(cfg, r, t) by { assert [SGone(t)][1..] == []; }
    hide Only;
    SentNotify(r, NotifyCommBad, m);
    SentNotify(r, NotifyNoComm, m);
  }

  // ----- when a record is critical -----

  /** An answer that shows FSD, in any case, makes the UPS critical at once, on any host. */
  lemma FsdIsCritical(cfg: Settings, r: Rec, line: string, ts: seq<int>, now: int)
    requires |ts| == 1 + 2 * |Words(line)| && HasWord(line, "fsd")
    ensures Critical(cfg, Run(cfg, r, PollSteps(line, ts)), now)
  {
    assert line != "" by { assert Words("") == [""]; }
    PollUnfold(cfg, r, line, ts);
    hide Words, Fold, ClearEarly, Alive, PollSteps, HasWord, Has, Run, WordSteps;
    HasWordIs(line, "fsd");
    WordsFlags(cfg, ClearEarly(Alive(r, ts[0]), line), Words(line), ts[1..]);
  }

  /** On its master a UPS is critical as soon as an answer shows it on battery and low. */
  lemma MasterIsCriticalAtOnce(cfg: Settings, r: Rec, line: string, ts: seq<int>, now: int)
    requires |ts| == 1 + 2 * |Words(line)| && NotBoth(r) && Master in r.status
    requires LastLine(Words(line)) == "ob" && HasWord(line, "lb")
    ensures Critical(cfg, Run(cfg, r, PollSteps(line, ts)), now)
  {
    assert line != "" by { assert Words("") == [""]; }
    hide Words, Fold, PollSteps, LastLine, Run;
    AnswerStatus(cfg, r, line, ts);
    assert Master in r.status - {Online, OnBatt, LowBatt, Fsd};
  }

  /** And also when it was last on battery and has been silent for longer than DEADTIME. */
  lemma DeadMasterIsCritical(cfg: Settings, r: Rec, now: int, later: int)
    requires Master in r.status && OnBatt in r.status && now - r.lastpoll > cfg.deadtime
    ensures Critical(cfg, Run(cfg, r, [SPromote(now)]), later)
  {
    assert Run(cfg, r, [SPromote(now)]) == Promote(cfg, r, now) by { assert [SPromote(now)][1..] == []; }
  }

  /** A UPS that is not on battery and has no FSD is not critical, however long it is silent. */
  lemma OnLineIsNotCritical(cfg: Settings, r: Rec, now: int, later: int)
    requires OnBatt !in r.status && Fsd !in r.status
    ensures !Critical(cfg, Run(cfg, r, [SPromote(now)]), later)
  {
    assert Run(cfg, r, [SPromote(now)]) == Promote(cfg, r, now) by { assert [SPromote(now)][1..] == []; }
  }

  /** A UPS whose answer ends on OL and has no FSD is not critical. */
  lemma AnswerOnLineIsNotCritical(cfg: Settings, r: Rec, line: string, ts: seq<int>, now: int)
    requires |ts| == 1 + 2 * |Words(line)| && NotBoth(r)
    requires LastLine(Words(line)) == "ol" && !HasWord(line, "fsd") && !HasText(line, "FSD")
    ensures !Critical(cfg, Run(cfg, r, PollSteps(line, ts)), now)
  {
    assert line != "" by { assert Words("") == [""]; }
    hide Words, Fold, PollSteps, LastLine, HasText;
    AnswerStatus(cfg, r, line, ts);
  }
}
