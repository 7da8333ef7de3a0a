/** parse_status() and the slave's critical timer of clients/upsmon.c: when a UPS counts as
    critical on a host that is not its master. */
module UpsPoll {
  import opened CStrings
  import opened UpsRecord

  // ----- one status answer as steps -----

  /** The words of a status line, cut at every single space. */
  function Words(line: string): (ws: seq<string>)
    ensures ws != []
    decreases |line|
  {
    if line == "" then [""]
    else if line[0] == ' ' then [""] + Words(line[1..])
    else
      var rest := Words(line[1..]);
      [[line[0]] + rest[0]] + rest[1..]
  }

  /** Each word, followed by an update of the critical timer. */
  function WordSteps(ws: seq<string>, ts: seq<int>): (steps: seq<Step>)
    requires |ts| == 2 * |ws|
    decreases |ws|
  {
    if ws == [] then [] else [SWord(ws[0], ts[0]), STimer(ts[1])] + WordSteps(ws[1..], ts[2..])
  }

  /** parse_status(): an empty line is a dead UPS. */
  function PollSteps(line: string, ts: seq<int>): seq<Step>
    requires |ts| == 1 + 2 * |Words(line)|
  {
    if line == "" then [SGone(ts[0])]
    else [SAlive(ts[0]), SClear(line)] + WordSteps(Words(line), ts[1..])
  }

  ghost predicate HasWord(line: string, f: string) {
    exists i :: 0 <= i < |Words(line)| && Fold(Words(line)[i]) == f
  }

  /** OB and LB are shown, OL is not, and LB is spelled in capitals somewhere. */
  ghost predicate ShowsCritical(line: string) {
    HasWord(line, "ob") && HasWord(line, "lb") && !HasWord(line, "ol") && HasText(line, "LB")
  }

  // ----- only if: the timer records every non-critical moment -----

  ghost predicate TimersOrdered(steps: seq<Step>) {
    forall i, j :: 0 <= i < j < |steps| && steps[i].STimer? && steps[j].STimer? ==> steps[i].t <= steps[j].t
  }

  ghost predicate TimersFrom(steps: seq<Step>, low: int) {
    forall i :: 0 <= i < |steps| && steps[i].STimer? ==> low <= steps[i].t
  }

  lemma {:induction false} TimerNeverFallsBelow(cfg: Settings, r: Rec, steps: seq<Step>, low: int)
    requires low <= r.lastnoncrit
    requires TimersFrom(steps, low)
    ensures low <= Run(cfg, r, steps).lastnoncrit
    decreases |steps|
  {
    hide Fold, HasText;
    if steps != [] {
      TimerNeverFallsBelow(cfg, Apply(cfg, r, steps[0]), steps[1..], low);
    }
  }

  /** A timer reading that found the record not critical is the latest one, or a later one is. */
  lemma TimerRecords(cfg: Settings, r: Rec, steps: seq<Step>, i: nat)
    requires TimersOrdered(steps) && i < |steps| && steps[i].STimer? && !BattLow(Run(cfg, r, steps[..i]))
    ensures steps[i].t <= Run(cfg, r, steps).lastnoncrit
  {
    hide Apply, Run, BattLow;
    var a, s, rest := Run(cfg, r, steps[..i]), steps[i], steps[i + 1..];
    assert steps == steps[..i] + ([s] + rest);
    RunConcat(cfg, r, steps[..i], [s] + rest);
    RunCons(cfg, a, s, rest);
    TimerSet(cfg, a, s);
    TimerNeverFallsBelow(cfg, Apply(cfg, a, s), rest, s.t);
  }

  lemma RunCons(cfg: Settings, r: Rec, s: Step, rest: seq<Step>)
    ensures Run(cfg, r, [s] + rest) == Run(cfg, Apply(cfg, r, s), rest)
  {
    hide Apply;
    assert ([s] + rest)[1..] == rest;
  }

  lemma TimerSet(cfg: Settings, r: Rec, s: Step)
    requires s.STimer? && !BattLow(r)
    ensures Apply(cfg, r, s).lastnoncrit == s.t
  {
  }

  /** A record on a host that is not its master, with FSD clear, is judged critical only if it is
      on battery with a low battery and every status word that left it otherwise is more than
      HOSTSYNC seconds old. Promotion of a dead UPS is one of the steps. */
  lemma SlaveCriticalOnlyIf(cfg: Settings, r: Rec, steps: seq<Step>, now: int)
    requires TimersOrdered(steps)
    requires var e := Run(cfg, r, steps); Master !in e.status && Fsd !in e.status && Critical(cfg, e, now)
    ensures BattLow(Run(cfg, r, steps))
    ensures forall i :: 0 <= i < |steps| && steps[i].STimer? && !BattLow(Run(cfg, r, steps[..i]))
              ==> now - steps[i].t > cfg.hostsync
  {
    hide Run, TimersOrdered;
    forall i | 0 <= i < |steps| && steps[i].STimer? && !BattLow(Run(cfg, r, steps[..i]))
      ensures now - steps[i].t > cfg.hostsync
    {
      TimerRecords(cfg, r, steps, i);
    }
  }

  // ----- if: the timer ages while the answers stay critical -----

  /** A step that can neither clear OB nor clear LB. */
  predicate Sustains(s: Step) {
    match s
    case SWord(w, _) => Fold(w) != "ol"
    case SClear(line) => HasText(line, "LB")
    case _ => true
  }

  lemma SustainedStep(cfg: Settings, r: Rec, s: Step)
    requires BattLow(r) && Sustains(s)
    ensures BattLow(Apply(cfg, r, s)) && Apply(cfg, r, s).lastnoncrit == r.lastnoncrit
  {
    hide Fold, HasText;
  }

  lemma {:induction false} SustainedRun(cfg: Settings, r: Rec, steps: seq<Step>)
    requires BattLow(r) && forall i :: 0 <= i < |steps| ==> Sustains(steps[i])
    ensures BattLow(Run(cfg, r, steps)) && Run(cfg, r, steps).lastnoncrit == r.lastnoncrit
    decreases |steps|
  {
    if steps != [] {
      SustainedStep(cfg, r, steps[0]);
      SustainedRun(cfg, Apply(cfg, r, steps[0]), steps[1..]);
    }
  }

  lemma {:induction false} WordStepsSustain(ws: seq<string>, ts: seq<int>)
    requires |ts| == 2 * |ws| && forall i :: 0 <= i < |ws| ==> Fold(ws[i]) != "ol"
    ensures forall i :: 0 <= i < |WordSteps(ws, ts)| ==> Sustains(WordSteps(ws, ts)[i])
    decreases |ws|
  {
    if ws != [] { WordStepsSustain(ws[1..], ts[2..]); }
  }

  /** A poll that keeps showing LB and no OL neither ends the condition nor restarts the timer. */
  lemma PollSustains(line: string, ts: seq<int>)
    requires |ts| == 1 + 2 * |Words(line)| && !HasWord(line, "ol") && HasText(line, "LB")
    ensures forall i :: 0 <= i < |PollSteps(line, ts)| ==> Sustains(PollSteps(line, ts)[i])
  {
    if line != "" {
      WordStepsSustain(Words(line), ts[1..]);
    }
  }

  /** Two status bits that a word list sets and nothing in it clears. */
  lemma {:induction false} WordsSetFlags(cfg: Settings, r: Rec, ws: seq<string>, ts: seq<int>)
    requires |ts| == 2 * |ws| && forall i :: 0 <= i < |ws| ==> Fold(ws[i]) != "ol"
    ensures var e := Run(cfg, r, WordSteps(ws, ts));
            && (OnBatt in r.status || (exists i :: 0 <= i < |ws| && Fold(ws[i]) == "ob") ==> OnBatt in e.status)
            && (LowBatt in r.status || (exists i :: 0 <= i < |ws| && Fold(ws[i]) == "lb") ==> LowBatt in e.status)
    decreases |ws|
  {
    hide Fold;
    if ws != [] {
      var a := CritTimer(StatusWord(cfg, r, ws[0], ts[0]), ts[1]);
      WordStepsUnfold(cfg, r, ws, ts);
      WordsSetFlags(cfg, a, ws[1..], ts[2..]);
      forall i | 0 < i < |ws| ensures ws[i] == ws[1..][i - 1] {}
    }
  }

  lemma WordStepsUnfold(cfg: Settings, r: Rec, ws: seq<string>, ts: seq<int>)
    requires |ts| == 2 * |ws| && ws != []
    ensures Run(cfg, r, WordSteps(ws, ts))
            == Run(cfg, CritTimer(StatusWord(cfg, r, ws[0], ts[0]), ts[1]), WordSteps(ws[1..], ts[2..]))
  {
    var rest := WordSteps(ws[1..], ts[2..]);
    var all := WordSteps(ws, ts);
    assert all[1..] == [STimer(ts[1])] + rest;
    assert all[1..][1..] == rest;
  }

  lemma {:induction false} TimerBounded(cfg: Settings, r: Rec, ws: seq<string>, ts: seq<int>, high: int)
    requires |ts| == 2 * |ws| && r.lastnoncrit <= high && forall i :: 0 <= i < |ts| ==> ts[i] <= high
    ensures Run(cfg, r, WordSteps(ws, ts)).lastnoncrit <= high
    decreases |ws|
  {
    hide Fold;
    if ws != [] {
      WordStepsUnfold(cfg, r, ws, ts);
      TimerBounded(cfg, CritTimer(StatusWord(cfg, r, ws[0], ts[0]), ts[1]), ws[1..], ts[2..], high);
    }
  }

  lemma PollUnfold(cfg: Settings, r: Rec, line: string, ts: seq<int>)
    requires |ts| == 1 + 2 * |Words(line)| && line != ""
    ensures Run(cfg, r, PollSteps(line, ts))
            == Run(cfg, ClearEarly(Alive(r, ts[0]), line), WordSteps(Words(line), ts[1..]))
  {
    var rest := WordSteps(Words(line), ts[1..]);
    var all := PollSteps(line, ts);
    assert all[1..] == [SClear(line)] + rest;
    assert all[1..][1..] == rest;
  }

  /** A poll that shows OB and LB without OL leaves both set, with a timer no later than its end. */
  lemma ShowsSets(cfg: Settings, r: Rec, line: string, ts: seq<int>, T: int)
    requires |ts| == 1 + 2 * |Words(line)| && ShowsCritical(line)
    requires r.lastnoncrit <= T && forall i :: 0 <= i < |ts| ==> ts[i] <= T
    ensures var e := Run(cfg, r, PollSteps(line, ts)); BattLow(e) && e.lastnoncrit <= T
  {
    assert line != "" by { assert Words("") == [""]; }
    var a := ClearEarly(Alive(r, ts[0]), line);
    PollUnfold(cfg, r, line, ts);
    hide Fold, Words;
    WordsSetFlags(cfg, a, Words(line), ts[1..]);
    TimerBounded(cfg, a, Words(line), ts[1..], T);
  }

  /** Once a poll that shows OB and LB without OL has been read by time T, and as long as nothing
      later shows OL or drops LB, every judgement more than HOSTSYNC seconds after T is: critical.
      Failed polls, dropped connections and promotions in between do not matter. */
  lemma CriticalAfterHostsync(cfg: Settings, r: Rec, line: string, ts: seq<int>, T: int, later: seq<Step>, now: int)
    requires |ts| == 1 + 2 * |Words(line)| && ShowsCritical(line)
    requires r.lastnoncrit <= T && forall i :: 0 <= i < |ts| ==> ts[i] <= T
    requires forall i :: 0 <= i < |later| ==> Sustains(later[i])
    requires now - T > cfg.hostsync
    ensures Critical(cfg, Run(cfg, r, PollSteps(line, ts) + later), now)
  {
    ShowsSets(cfg, r, line, ts, T);
    hide ShowsCritical, PollSteps, Run;
    RunConcat(cfg, r, PollSteps(line, ts), later);
    SustainedRun(cfg, Run(cfg, r, PollSteps(line, ts)), later);
  }

  /** The exact spelling that keeps the timer ageing: for a UPS that is on battery and low, an
      answer without OL restarts the timer unless it contains LB in capitals or its very first
      word is LB in any case. */
  lemma PollKeepsTimerIff(cfg: Settings, r: Rec, line: string, ts: seq<int>)
    requires BattLow(r) && line != "" && !HasWord(line, "ol")
    requires |ts| == 1 + 2 * |Words(line)| && forall i :: 0 <= i < |ts| ==> r.lastnoncrit < ts[i]
    ensures Run(cfg, r, PollSteps(line, ts)).lastnoncrit == r.lastnoncrit
            <==> HasText(line, "LB") || Fold(Words(line)[0]) == "lb"
  {
    var ws, us := Words(line), ts[1..];
    var a := ClearEarly(Alive(r, ts[0]), line);
    PollUnfold(cfg, r, line, ts);
    forall i | 0 <= i < |ws| ensures Fold(ws[i]) != "ol" {}
    assert LowBatt in a.status <==> HasText(line, "LB");
    WordsKeepTimerIff(cfg, a, ws, us);
  }

  lemma WordsKeepTimerIff(cfg: Settings, a: Rec, ws: seq<string>, us: seq<int>)
    requires OnBatt in a.status && ws != [] && forall i :: 0 <= i < |ws| ==> Fold(ws[i]) != "ol"
    requires |us| == 2 * |ws| && forall i :: 0 <= i < |us| ==> a.lastnoncrit < us[i]
    ensures Run(cfg, a, WordSteps(ws, us)).lastnoncrit == a.lastnoncrit
            <==> LowBatt in a.status || Fold(ws[0]) == "lb"
  {
    hide Fold;
    WordStepsUnfold(cfg, a, ws, us);
    var b := CritTimer(StatusWord(cfg, a, ws[0], us[0]), us[1]);
    WordStepsSustain(ws[1..], us[2..]);
    if LowBatt in a.status || Fold(ws[0]) == "lb" {
      SustainedRun(cfg, b, WordSteps(ws[1..], us[2..]));
    } else {
      LaterTimers(ws[1..], us[2..], a.lastnoncrit + 1);
      TimerNeverFallsBelow(cfg, b, WordSteps(ws[1..], us[2..]), a.lastnoncrit + 1);
    }
  }

  lemma {:induction false} LaterTimers(ws: seq<string>, ts: seq<int>, low: int)
    requires |ts| == 2 * |ws| && forall i :: 0 <= i < |ts| ==> low <= ts[i]
    ensures TimersFrom(WordSteps(ws, ts), low)
    decreases |ws|
  {
    if ws != [] {
      LaterTimers(ws[1..], ts[2..], low);
      assert low <= ts[1];
    }
  }

  /** A line that shows OB and LB but spells LB so that it is cleared first and not set at once. */
  ghost predicate Misspelled(line: string) {
    && HasWord(line, "ob") && HasWord(line, "lb") && !HasWord(line, "ol") && !HasWord(line, "fsd")
    && !HasText(line, "LB") && !HasText(line, "FSD") && Fold(Words(line)[0]) != "lb"
  }

  lemma {:induction false} WordsLeaveRole(cfg: Settings, r: Rec, ws: seq<string>, ts: seq<int>)
    requires |ts| == 2 * |ws| && forall i :: 0 <= i < |ws| ==> Fold(ws[i]) != "fsd"
    ensures var e := Run(cfg, r, WordSteps(ws, ts));
            (Master in e.status <==> Master in r.status) && (Fsd in e.status <==> Fsd in r.status)
    decreases |ws|
  {
    hide Fold;
    if ws != [] {
      WordStepsUnfold(cfg, r, ws, ts);
      WordsLeaveRole(cfg, CritTimer(StatusWord(cfg, r, ws[0], ts[0]), ts[1]), ws[1..], ts[2..]);
    }
  }

  /** So a server that misspells LB keeps a slave from ever giving up on its master: whatever came
      before, such an answer leaves the UPS on battery and low, yet for the next HOSTSYNC seconds,
      and so until the next answer, it is not judged critical. */
  lemma LowerCaseNeverCritical(cfg: Settings, r: Rec, line: string, ts: seq<int>, T: int, now: int)
    requires Misspelled(line) && Master !in r.status
    requires |ts| == 1 + 2 * |Words(line)| && (forall i :: 0 <= i < |ts| ==> T <= ts[i]) && now - T <= cfg.hostsync
    ensures var e := Run(cfg, r, PollSteps(line, ts)); BattLow(e) && !Critical(cfg, e, now)
  {
    assert line != "" by { assert Words("") == [""]; }
    PollUnfold(cfg, r, line, ts);
    var ws, us := Words(line), ts[1..];
    var a := ClearEarly(Alive(r, ts[0]), line);
    assert LowBatt !in a.status && Fsd !in a.status && Master !in a.status;
    WordsSetFlags(cfg, a, ws, us);
    WordsLeaveRole(cfg, a, ws, us);
    hide Words, HasText, ClearEarly, PollSteps;
    FirstWordRestarts(cfg, a, ws, us, T);
  }

  lemma FirstWordRestarts(cfg: Settings, a: Rec, ws: seq<string>, us: seq<int>, T: int)
    requires ws != [] && |us| == 2 * |ws| && (forall i :: 0 <= i < |us| ==> T <= us[i])
    requires LowBatt !in a.status && Fold(ws[0]) != "lb"
    ensures T <= Run(cfg, a, WordSteps(ws, us)).lastnoncrit
  {
    hide Fold;
    WordStepsUnfold(cfg, a, ws, us);
    LaterTimers(ws[1..], us[2..], T);
    TimerNeverFallsBelow(cfg, CritTimer(StatusWord(cfg, a, ws[0], us[0]), us[1]), WordSteps(ws[1..], us[2..]), T);
  }

  /** "OB lb" is such a line. */
  lemma LowerCaseExample()
    ensures Misspelled("OB lb")
  {
    TextOfExample("LB");
    TextOfExample("FSD");
    WordsOfExample();
    FoldsOfExample();
    hide Fold, HasText, Words;
    assert HasWord("OB lb", "ob") by { assert Fold(Words("OB lb")[0]) == "ob"; }
    assert HasWord("OB lb", "lb") by { assert Fold(Words("OB lb")[1]) == "lb"; }
  }

  /** The first cut of a status line at a space. */
  lemma {:induction false} WordsCut(line: string, k: nat)
    requires k <= |line| && (k < |line| ==> line[k] == ' ') && forall i :: 0 <= i < k ==> line[i] != ' '
    ensures Words(line) == if k == |line| then [line] else [line[..k]] + Words(line[k + 1..])
    decreases |line|
  {
    if line != "" && k > 0 {
      WordsCut(line[1..], k - 1);
      assert line[1..][..k - 1] == line[1..k] && [line[0]] + line[1..k] == line[..k];
      if k == |line| {
        assert [line[0]] + line[1..] == line;
      } else {
        assert line[1..][k - 1 + 1..] == line[k + 1..];
      }
    }
  }

  lemma WordsOfExample()
    ensures Words("OB lb") == ["OB", "lb"]
  {
    WordsCut("OB lb", 2);
    WordsCut("lb", 2);
    hide Words;
    assert "OB lb"[..2] == "OB" && "OB lb"[3..] == "lb";
  }

  lemma FoldsOfExample()
    ensures Fold("OB") == "ob" && Fold("lb") == "lb"
  {
    assert Fold("OB")[0] == 'o' && Fold("OB")[1] == 'b' && Fold("lb")[0] == 'l' && Fold("lb")[1] == 'b';
  }

  lemma TextOfExample(t: string)
    requires t == "LB" || t == "FSD"
    ensures !HasText("OB lb", t)
  {
    NoText("OB lb", t);
  }

  lemma {:induction false} NoText(s: string, t: string)
    requires t != "" && forall i :: 0 <= i < |s| ==> s[i] != t[0]
    ensures !HasText(s, t)
    decreases |s|
  {
    PrefixFirst(s, t);
    if s != "" { NoText(s[1..], t); }
  }

  ghost predicate StandsAt(s: string, t: string, i: int) {
    0 <= i <= |s| && t <= s[i..]
  }

  lemma StandsAtLater(s: string, t: string, i: nat)
    requires s != ""
    ensures StandsAt(s, t, i + 1) <==> StandsAt(s[1..], t, i)
  {
    if i < |s| { assert s[1..][i..] == s[i + 1..]; }
  }

  /** strstr() finds the text exactly if it stands somewhere. */
  lemma {:induction false} HasTextIff(s: string, t: string)
    ensures HasText(s, t) <==> exists i :: StandsAt(s, t, i)
    decreases |s|
  {
    assert StandsAt(s, t, 0) <==> t <= s by { assert s[0..] == s; }
    if s != "" {
      HasTextIff(s[1..], t);
      forall i: nat ensures StandsAt(s, t, i + 1) <==> StandsAt(s[1..], t, i) { StandsAtLater(s, t, i); }
      assert forall i :: StandsAt(s[1..], t, i) ==> i >= 0;
      assert forall i :: StandsAt(s, t, i) ==> i >= 0;
      hide StandsAt;
      if HasText(s[1..], t) {
        var i :| StandsAt(s[1..], t, i);
        assert StandsAt(s, t, i + 1);
      }
      forall i | StandsAt(s, t, i) ensures HasText(s, t) {
        if i > 0 { assert StandsAt(s[1..], t, i - 1) <==> StandsAt(s, t, i - 1 + 1); }
      }
    } else {
      assert forall i :: StandsAt(s, t, i) ==> i == 0;
    }
  }

  lemma PrefixFirst(s: string, t: string)
    requires t != ""
    ensures t <= s ==> s != "" && s[0] == t[0]
  {
  }
}
