/** The end of a run of upsmon as a trace: what makes a shutdown safe, and what the shutdown command
    therefore means. */
module ShutdownSafe {
  import opened Options
  import opened ShutdownTrace
  import opened UpsmonEnv

  /** A stretch of the trace without the shutdown command or the power-down flag. */
  ghost predicate NoCommand(t: Trace) {
    forall i :: 0 <= i < |t| ==> t[i] != Command && t[i] != PdFlag
  }

  lemma NoCommandYet(t: Trace)
    ensures NoCommand(t[|t|..])
  {
  }

  lemma NoCommandJoin(a: nat, t0: Trace, t: Trace)
    requires a <= |t0| && t0 <= t && NoCommand(t0[a..]) && NoCommand(t[|t0|..])
    ensures NoCommand(t[a..])
  {
    assert t[a..] == t0[a..] + t[|t0|..];
  }

  lemma NoCommandMore(a: nat, t0: Trace, t: Trace)
    requires a <= |t0| < |t| && t0 <= t && NoCommand(t0[a..])
    requires PeersSince(t0, t[..|t| - 1]) && t[|t| - 1] != Command && t[|t| - 1] != PdFlag
    ensures NoCommand(t[a..])
  {
    forall i | 0 <= i < |t[a..]| ensures t[a..][i] != Command && t[a..][i] != PdFlag {
      if a + i < |t0| {
        assert t[a..][i] == t0[a..][i];
      } else if a + i < |t| - 1 {
        assert t[a..][i] == t[..|t| - 1][|t0|..][a + i - |t0|];
      }
    }
  }

  lemma PeersNoCommand(a: Trace, b: Trace)
    requires PeersSince(a, b)
    ensures NoCommand(b[|a|..])
  {
    forall i | 0 <= i < |b[|a|..]| ensures b[|a|..][i] != Command && b[|a|..][i] != PdFlag {
      assert IsPeer(b[|a|..][i]);
    }
  }

  lemma PeersThenOne(t0: Trace, t1: Trace, t2: Trace)
    requires PeersSince(t0, t1) && t2 == t1 + [SyncBegin]
    ensures t0 <= t2 && NoCommand(t2[|t0|..])
  {
    forall i | 0 <= i < |t2[|t0|..]| ensures t2[|t0|..][i] != Command && t2[|t0|..][i] != PdFlag {
      if |t0| + i < |t1| { assert t2[|t0|..][i] == t1[|t0|..][i]; }
    }
  }

  lemma TriedExtends(t0: Trace, t: Trace, u: string)
    requires t0 <= t && Tried(t0, u)
    ensures Tried(t, u)
  {
    var i :| 0 <= i < |t0| && t0[i].FsdTry? && t0[i].ups == u;
    assert t[i].FsdTry? && t[i].ups == u;
  }

  lemma FsdSent(a: nat, t0: Trace, t: Trace, u: string)
    requires a <= |t0| < |t| && t0 <= t && NoCommand(t0[a..])
    requires PeersSince(t0, t[..|t| - 1]) && t[|t| - 1].FsdTry? && t[|t| - 1].ups == u
    ensures NoCommand(t[a..]) && Tried(t, u)
    ensures forall i :: |t0| <= i < |t| && t[i].FsdTry? ==> t[i].ups == u
  {
    NoCommandMore(a, t0, t);
    forall i | |t0| <= i < |t| - 1 ensures !t[i].FsdTry? { assert t[i] == t[..|t| - 1][|t0|..][i - |t0|]; }
  }

  // ----- the rounds of slavesync() -----

  lemma SampleTaken(t0: Trace, t: Trace, s: nat, u: string, logins: Option<int>, bound: int)
    requires s <= |t0| && t0 < t && t[|t| - 1] == Sample(u, logins)
    requires logins.Some? ==> logins.value <= bound
    ensures LastSampleAtMost(t[s..], u, bound)
  {
    assert t[s..] == t[s..|t| - 1] + [Sample(u, logins)];
    SampleNow(t[s..|t| - 1], u, logins, bound);
  }

  lemma OtherSampled(t0: Trace, t: Trace, s: nat, u: string, logins: Option<int>, v: string, m0: int, m1: int)
    requires s <= |t0| && t0 < t && t[|t| - 1] == Sample(u, logins) && PeersSince(t0, t[..|t| - 1])
    requires u != v && m0 <= m1 && LastSampleAtMost(t0[s..], v, m0)
    ensures LastSampleAtMost(t[s..], v, m1)
  {
    var more, peers := t[|t0|..], t[..|t| - 1][|t0|..];
    assert t[s..] == t0[s..] + more;
    assert more == peers + [Sample(u, logins)];
    SampleKept(t0[s..], more, v, m0, m1);
  }

  /** A round whose largest answer is at most one leaves every mastered UPS clear. */
  lemma RoundClear(t0: Trace, start: Trace, t: Trace, masters: set<string>, maxlogins: int, hostsync: int)
    requires t0 <= start && start + [SyncBegin] <= t && maxlogins <= 1
    requires forall u :: u in masters ==> Tried(t0, u)
    requires forall u :: u in masters ==> LastSampleAtMost(t[|start|..], u, maxlogins)
    ensures SyncedFrom(t, masters, hostsync, |start|)
  {
    assert t[|start|] == SyncBegin && t[..|start|] == start;
    forall u | u in masters ensures Tried(start, u) && LastSampleAtMost(t[|start|..], u, 1) {
      TriedExtends(t0, start, u);
      SampleWeaker(t[|start|..], u, maxlogins, 1);
    }
  }

  lemma SyncExpired(t0: Trace, start: Trace, t: Trace, masters: set<string>, hostsync: int)
    requires t0 <= start && start + [SyncBegin] <= t && Clock(t) - Clock(start) > hostsync
    requires forall u :: u in masters ==> Tried(t0, u)
    ensures SyncedFrom(t, masters, hostsync, |start|)
  {
    assert t[|start|] == SyncBegin && t[..|start|] == start;
    forall u | u in masters ensures Tried(start, u) {
      TriedExtends(t0, start, u);
    }
  }

  lemma BusyTaken(t0: Trace, t: Trace, s: nat, u: string, logins: Option<int>)
    requires s <= |t0| && t0 < t && t[|t| - 1] == Sample(u, logins) && logins.Some? && logins.value > 1
    ensures Busy(t[s..], u)
  {
    assert t[s..] == t[s..|t| - 1] + [Sample(u, logins)];
    BusyNow(t[s..|t| - 1], u, logins);
  }

  lemma OtherBusy(t0: Trace, t: Trace, s: nat, u: string, logins: Option<int>, v: string)
    requires s <= |t0| && t0 < t && t[|t| - 1] == Sample(u, logins) && PeersSince(t0, t[..|t| - 1])
    requires u != v && Busy(t0[s..], v)
    ensures Busy(t[s..], v)
  {
    var more, peers := t[|t0|..], t[..|t| - 1][|t0|..];
    assert t[s..] == t0[s..] + more;
    assert more == peers + [Sample(u, logins)];
    BusyKept(t0[s..], more, v);
  }

  lemma BusyWaits(t0: Trace, t: Trace, s: nat, u: string)
    requires s <= |t0| && PeersSince(t0, t) && Busy(t0[s..], u)
    ensures Busy(t[s..], u)
  {
    assert t[s..] == t0[s..] + t[|t0|..];
    BusyKept(t0[s..], t[|t0|..], u);
  }

  /** The only state in which a forced shutdown is still to come: FSD was tried on every mastered
      UPS, the wait for the slaves began at s, not more than HOSTSYNC seconds ago, and some mastered
      UPS last answered that others are logged in. */
  ghost predicate WaitingFrom(masters: set<string>, hostsync: int, t: Trace, s: nat) {
    && s < |t| && t[s] == SyncBegin && (forall u :: u in masters ==> Tried(t[..s], u))
    && Clock(t) - Clock(t[..s]) <= hostsync
    && exists u :: u in masters && Busy(t[s..], u)
  }

  ghost predicate StillWaiting(masters: set<string>, hostsync: int, t0: Trace, t: Trace) {
    exists s: nat :: |t0| <= s && WaitingFrom(masters, hostsync, t, s)
  }

  lemma StillWaitingEarlier(masters: set<string>, hostsync: int, t0: Trace, t1: Trace, t: Trace)
    requires t0 <= t1 && StillWaiting(masters, hostsync, t1, t)
    ensures StillWaiting(masters, hostsync, t0, t)
  {
    hide WaitingFrom;
    var s: nat :| |t1| <= s && WaitingFrom(masters, hostsync, t, s);
  }

  lemma StillWaitingNow(masters: set<string>, hostsync: int, t0: Trace, start: Trace, t: Trace, u: string)
    requires t0 <= start && start + [SyncBegin] <= t && Clock(t) - Clock(start) <= hostsync
    requires (forall v :: v in masters ==> Tried(t0, v)) && u in masters && Busy(t[|start|..], u)
    ensures StillWaiting(masters, hostsync, t0, t)
  {
    hide Clock, Busy;
    assert t[|start|] == SyncBegin && t[..|start|] == start;
    forall v | v in masters ensures Tried(start, v) { TriedExtends(t0, start, v); }
    assert WaitingFrom(masters, hostsync, t, |start|);
  }

  lemma WaitingHasMasters(masters: set<string>, hostsync: int, t0: Trace, t: Trace)
    requires StillWaiting(masters, hostsync, t0, t)
    ensures masters != {}
  {
    hide Clock, Busy, Tried;
  }

  // ----- the shutdown -----

  /** From the moment p at which doshutdown() is entered: the notice, then in the split mode the
      message to the parent, then the power-down flag if there is one, and the command last. */
  ghost predicate ShutdownTail(usePipe: bool, hasFlag: bool, p: Trace, t: Trace) {
    && p < t && t[|p|] == NotifyShutdown && t[|t| - 1] == Command
    && (hasFlag ==> |p| < |t| - 2 && t[|t| - 2] == PdFlag)
    && (usePipe ==> exists i :: |p| < i < |t| - 1 && t[i] == PipeWrite)
    && (forall i :: |p| < i < |t| - 1 ==> t[i] != Command && t[i] != NotifyShutdown)
  }

  /** The run from t0 to t shut down at p: no command before, FSD tried everywhere it had to be,
      the slaves synchronised, and the flag and the command in order. */
  ghost predicate SafeAt(usePipe: bool, hasFlag: bool, masters: set<string>, hostsync: int, t0: Trace, p: Trace, t: Trace) {
    && t0 <= p && NoCommand(p[|t0|..])
    && (forall u :: u in masters ==> Tried(p, u))
    && Synced(p, masters, hostsync)
    && ShutdownTail(usePipe, hasFlag, p, t)
  }

  ghost predicate SafeShutdown(usePipe: bool, hasFlag: bool, masters: set<string>, hostsync: int, t0: Trace, t: Trace) {
    exists p :: SafeAt(usePipe, hasFlag, masters, hostsync, t0, p, t)
  }

  lemma SafeAfterSync(usePipe: bool, hasFlag: bool, masters: set<string>, hostsync: int, t0: Trace, t1: Trace, s: nat, p: Trace, t: Trace)
    requires t0 <= t1 <= p && NoCommand(p[|t0|..]) && forall u :: u in masters ==> Tried(t1, u)
    requires SyncedFrom(p, masters, hostsync, s) && ShutdownTail(usePipe, hasFlag, p, t)
    ensures t0 <= t && SafeShutdown(usePipe, hasFlag, masters, hostsync, t0, t)
  {
    forall u | u in masters ensures Tried(p, u) { TriedExtends(t1, p, u); }
    assert SafeAt(usePipe, hasFlag, masters, hostsync, t0, p, t);
  }

  lemma TailExtends(usePipe: bool, hasFlag: bool, p: Trace, t: Trace)
    requires ShutdownTail(usePipe, hasFlag, p, t)
    ensures p <= t
  {
  }

  lemma TailWithPipe(hasFlag: bool, t0: Trace, t1: Trace, t2: Trace, t3: Trace, t4: Trace, t5: Trace)
    requires t1 == t0 + [NotifyShutdown] && PeersSince(t1, t2) && t3 == t2 + [PipeWrite] && PeersSince(t3, t4)
    requires t5 == t4 + (if hasFlag then [PdFlag] else []) + [Command]
    ensures ShutdownTail(true, hasFlag, t0, t5)
  {
    assert t5[|t2|] == PipeWrite;
    forall i | |t0| < i < |t5| - 1 ensures t5[i] != Command && t5[i] != NotifyShutdown {
      if |t1| <= i < |t2| { assert t5[i] == t2[|t1|..][i - |t1|]; }
      if |t3| <= i < |t4| { assert t5[i] == t4[|t3|..][i - |t3|]; }
    }
  }

  lemma TailWithoutPipe(hasFlag: bool, t0: Trace, t1: Trace, t2: Trace, t5: Trace)
    requires t1 == t0 + [NotifyShutdown] && PeersSince(t1, t2)
    requires t5 == t2 + (if hasFlag then [PdFlag] else []) + [Command]
    ensures ShutdownTail(false, hasFlag, t0, t5)
  {
    forall i | |t0| < i < |t5| - 1 ensures t5[i] != Command && t5[i] != NotifyShutdown {
      if |t1| <= i < |t2| { assert t5[i] == t2[|t1|..][i - |t1|]; }
    }
  }

  lemma SafeAfterQuiet(usePipe: bool, hasFlag: bool, masters: set<string>, hostsync: int, t0: Trace, t1: Trace, t: Trace)
    requires t0 <= t1 && NoCommand(t1[|t0|..]) && SafeShutdown(usePipe, hasFlag, masters, hostsync, t1, t)
    ensures SafeShutdown(usePipe, hasFlag, masters, hostsync, t0, t)
  {
    var p :| SafeAt(usePipe, hasFlag, masters, hostsync, t1, p, t);
    assert p[|t0|..] == t1[|t0|..] + p[|t1|..];
    assert SafeAt(usePipe, hasFlag, masters, hostsync, t0, p, t);
  }

  lemma SafeEarlier(usePipe: bool, hasFlag: bool, masters: set<string>, hostsync: int, t0: Trace, t1: Trace, t: Trace)
    requires PeersSince(t0, t1) && SafeShutdown(usePipe, hasFlag, masters, hostsync, t1, t)
    ensures SafeShutdown(usePipe, hasFlag, masters, hostsync, t0, t)
  {
    PeersNoCommand(t0, t1);
    SafeAfterQuiet(usePipe, hasFlag, masters, hostsync, t0, t1, t);
  }

  lemma CommandIsLast(usePipe: bool, hasFlag: bool, masters: set<string>, hostsync: int, t: Trace)
    requires SafeShutdown(usePipe, hasFlag, masters, hostsync, [], t)
    ensures forall i :: 0 <= i < |t| && t[i] == Command ==> i == |t| - 1
  {
    hide Synced, Tried;
    var p :| SafeAt(usePipe, hasFlag, masters, hostsync, [], p, t);
    forall i | 0 <= i < |p| ensures t[i] != Command { assert t[i] == p[0..][i]; }
  }

  lemma CommandIsNever(t: Trace)
    requires NoCommand(t)
    ensures forall i :: 0 <= i < |t| ==> t[i] != Command
  {}

  /** Mastered UPSes that accepted FSD, saw no login since, and answered when last asked. */
  ghost predicate Accounted(p: Trace, t: Trace, s: nat, u: string)
    requires s <= |p|
  {
    && (exists f :: 0 <= f < s && p[f] == FsdTry(u, true))
    && QuietAfterFsd(t, u) && AnsweredLast(p[s..], u)
  }

  /** The last answer before p was given at k and was at most one; at t the master is alone with the
      UPS if and only if the logins since then do not outweigh the logouts. */
  ghost predicate Counted(p: Trace, t: Trace, s: nat, u: string, k: nat) {
    && s <= k <= |t| && AnsweredAt(p, u, k) && p[k].logins.value <= 1
    && (forall j :: k < j < |p| ==> !(p[j].Sample? && p[j].ups == u))
    && (Logins(t, u) <= 1 <==> p[k].logins.value + LateLogins(t[k..], u) <= 1 + LateLogouts(t[k..], u))
  }

  /** The wait for the slaves that began at s ended at p, where doshutdown() was entered: more than
      HOSTSYNC seconds after it began, or with the last answers all counted. */
  ghost predicate Waited(masters: set<string>, hostsync: int, p: Trace, s: nat, t: Trace) {
    && p < t && t[|p|] == NotifyShutdown && (forall i :: |p| < i < |t| ==> t[i] != NotifyShutdown)
    && SyncedFrom(p, masters, hostsync, s)
    && (Clock(p) - Clock(p[..s]) > hostsync
        || forall u :: u in masters && AnsweredLast(p[s..], u) ==>
             (exists k: nat :: Counted(p, t, s, u, k)) && (Accounted(p, t, s, u) ==> Logins(t, u) <= 1))
  }

  /** What the shutdown command at the end of a run means, in every run: the power-down flag was
      written just before it; FSD had been tried on every mastered UPS; and unless the host is
      master of nothing, more than HOSTSYNC seconds were spent waiting for the slaves, or every
      mastered UPS that answered had a count of at most one, and is left to the master alone at the
      moment of the command exactly as far as nobody came back. */
  lemma WhatACommandMeans(usePipe: bool, hasFlag: bool, masters: set<string>, hostsync: int, t0: Trace, t: Trace)
    requires Honest(t) && SafeShutdown(usePipe, hasFlag, masters, hostsync, t0, t)
    ensures t != [] && t[|t| - 1] == Command && (hasFlag ==> |t| > 1 && t[|t| - 2] == PdFlag)
    ensures forall u :: u in masters ==> Tried(t[..|t| - 1], u)
    ensures masters != {} ==> exists p, s: nat :: Waited(masters, hostsync, p, s, t)
  {
    hide Clock, Logins, LateLogins, LateLogouts, Tried, SyncedFrom, Counted, Accounted;
    var p :| SafeAt(usePipe, hasFlag, masters, hostsync, t0, p, t);
    assert p <= t[..|t| - 1];
    forall u | u in masters ensures Tried(t[..|t| - 1], u) { TriedExtends(p, t[..|t| - 1], u); }
    if masters != {} {
      var s: nat :| SyncedFrom(p, masters, hostsync, s);
      assert s < |p| by { SyncedInside(p, masters, hostsync, s); }
      if Clock(p) - Clock(p[..s]) <= hostsync {
        forall u | u in masters && AnsweredLast(p[s..], u)
          ensures (exists k: nat :: Counted(p, t, s, u, k)) && (Accounted(p, t, s, u) ==> Logins(t, u) <= 1)
        {
          MasterCounts(masters, hostsync, p, s, t, u);
        }
      }
      assert Waited(masters, hostsync, p, s, t);
    }
  }

  lemma SyncedInside(p: Trace, masters: set<string>, hostsync: int, s: nat)
    requires SyncedFrom(p, masters, hostsync, s)
    ensures s < |p|
  {
  }

  lemma MasterCounts(masters: set<string>, hostsync: int, p: Trace, s: nat, t: Trace, u: string)
    requires p <= t && Honest(t) && s < |p| && SyncedFrom(p, masters, hostsync, s) && u in masters
    requires Clock(p) - Clock(p[..s]) <= hostsync && AnsweredLast(p[s..], u)
    ensures exists k: nat :: Counted(p, t, s, u, k)
    ensures Accounted(p, t, s, u) ==> Logins(t, u) <= 1
  {
    hide Clock, Logins, LateLogins, LateLogouts, SyncedFrom, Honest, AnsweredLast, QuietAfterFsd;
    var k := SlavesAreGoneIff(p, t, masters, hostsync, s, u);
    assert Counted(p, t, s, u, k);
    if Accounted(p, t, s, u) {
      var f :| 0 <= f < s && p[f] == FsdTry(u, true);
      SlavesAreGone(p, t, masters, hostsync, s, u, f);
    }
  }
}
