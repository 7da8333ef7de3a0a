/** The record of everything observable around a forced shutdown: what peers and the clock do at
    upsd, and what the master does. Login counts and time are functions of this record, so the
    claims about a shutdown are claims about its trace. */
module ShutdownTrace {

  import opened Options

  datatype Event =
    | Tick(seconds: nat)                        // time passes
    | LoggedIn(ups: string)                     // a client logs into a UPS at its upsd
    | LoggedOut(ups: string)                    // a client logs out or disconnects
    | FsdTry(ups: string, ok: bool)             // setfsd(): FSD was sent; upsd said OK or did not
    | SyncBegin                                 // slavesync() reads its start time
    | Sample(ups: string, logins: Option<int>)  // slavesync(): NUMLOGINS was asked; None is no answer
    | NotifyShutdown                            // doshutdown(): the SHUTDOWN notice
    | PipeWrite                                 // doshutdown(): the child tells its parent
    | PdFlag                                    // set_pdflag()
    | Command                                   // the shutdown command is run

  type Trace = seq<Event>

  /** Events that happen without the master. */
  predicate IsPeer(e: Event) {
    e.Tick? || e.LoggedIn? || e.LoggedOut?
  }

  ghost predicate AllPeer(t: Trace) {
    forall i :: 0 <= i < |t| ==> IsPeer(t[i])
  }

  function Clock(t: Trace): nat {
    if t == [] then 0
    else Clock(t[..|t| - 1]) + if t[|t| - 1].Tick? then t[|t| - 1].seconds else 0
  }

  /** numlogins of a UPS at its upsd. */
  function Logins(t: Trace, ups: string): int {
    if t == [] then 0
    else
      var e := t[|t| - 1];
      Logins(t[..|t| - 1], ups) +
      if e == LoggedIn(ups) then 1 else if e == LoggedOut(ups) then -1 else 0
  }

  /** How many logins to a UPS a stretch of the trace holds. */
  function LateLogins(t: Trace, ups: string): nat {
    if t == [] then 0
    else LateLogins(t[..|t| - 1], ups) + if t[|t| - 1] == LoggedIn(ups) then 1 else 0
  }

  /** How many logouts. */
  function LateLogouts(t: Trace, ups: string): nat {
    if t == [] then 0
    else LateLogouts(t[..|t| - 1], ups) + if t[|t| - 1] == LoggedOut(ups) then 1 else 0
  }

  /** Every answer to NUMLOGINS is the count at that moment. */
  ghost predicate Honest(t: Trace) {
    forall i :: 0 <= i < |t| && t[i].Sample? && t[i].logins.Some? ==> t[i].logins.value == Logins(t[..i], t[i].ups)
  }

  ghost predicate Tried(t: Trace, ups: string) {
    exists i :: 0 <= i < |t| && t[i].FsdTry? && t[i].ups == ups
  }

  /** The last time this UPS was asked. */
  ghost predicate LastSample(t: Trace, ups: string, i: nat) {
    && i < |t| && t[i].Sample? && t[i].ups == ups
    && forall j :: i < j < |t| ==> !(t[j].Sample? && t[j].ups == ups)
  }

  /** The last time this UPS was asked, it gave no answer or a count of at most the bound. */
  ghost predicate LastSampleAtMost(t: Trace, ups: string, bound: int) {
    exists i: nat :: LastSample(t, ups, i) && (t[i].logins.Some? ==> t[i].logins.value <= bound)
  }

  /** The last time this UPS was asked, it answered that more than one client is logged in. */
  ghost predicate Busy(t: Trace, ups: string) {
    exists i: nat :: LastSample(t, ups, i) && t[i].logins.Some? && t[i].logins.value > 1
  }

  /** The synchronisation with the slaves is over: it began at s, after FSD had been tried on every
      mastered UPS, and either more than HOSTSYNC seconds have passed since, or every mastered UPS
      was clear when it was last asked. */
  ghost predicate SyncedFrom(t: Trace, masters: set<string>, hostsync: int, s: nat) {
    && s < |t| && t[s] == SyncBegin
    && (forall u :: u in masters ==> Tried(t[..s], u))
    && (Clock(t) - Clock(t[..s]) > hostsync
        || forall u :: u in masters ==> LastSampleAtMost(t[s..], u, 1))
  }

  ghost predicate Synced(t: Trace, masters: set<string>, hostsync: int) {
    masters == {} || exists s: nat :: SyncedFrom(t, masters, hostsync, s)
  }

  // ----- appending -----

  lemma {:induction false} ClockConcat(a: Trace, b: Trace)
    ensures Clock(a + b) == Clock(a) + Clock(b)
    decreases |b|
  {
    if b == [] {
      assert a + b == a;
    } else {
      assert (a + b)[..|a + b| - 1] == a + b[..|b| - 1];
      ClockConcat(a, b[..|b| - 1]);
    }
  }

  /** The count moves by exactly the logins and logouts in between. */
  lemma {:induction false} LoginsAfter(a: Trace, b: Trace, ups: string)
    ensures Logins(a + b, ups) == Logins(a, ups) + LateLogins(b, ups) - LateLogouts(b, ups)
    decreases |b|
  {
    if b == [] {
      assert a + b == a;
    } else {
      assert (a + b)[..|a + b| - 1] == a + b[..|b| - 1];
      LoginsAfter(a, b[..|b| - 1], ups);
    }
  }

  lemma HonestAppend(t: Trace, more: Trace)
    requires Honest(t)
    requires forall i :: 0 <= i < |more| && more[i].Sample? && more[i].logins.Some? ==>
               more[i].logins.value == Logins(t + more[..i], more[i].ups)
    ensures Honest(t + more)
  {
    forall i | 0 <= i < |t + more| && (t + more)[i].Sample? && (t + more)[i].logins.Some?
      ensures (t + more)[i].logins.value == Logins((t + more)[..i], (t + more)[i].ups)
    {
      if i < |t| {
        assert (t + more)[..i] == t[..i];
      } else {
        assert (t + more)[..i] == t + more[..i - |t|];
      }
    }
  }

  // ----- what a synchronised trace means for the slaves -----

  /** An answer to NUMLOGINS that was given at k. */
  ghost predicate AnsweredAt(t: Trace, ups: string, k: nat) {
    k < |t| && t[k].Sample? && t[k].ups == ups && t[k].logins.Some?
  }

  /** At most one client is left at the end of a trace if and only if the count that was answered,
      with the logins made since, exceeds the logouts since by at most one. */
  lemma LeftAloneIff(t: Trace, ups: string, k: nat)
    requires Honest(t) && AnsweredAt(t, ups, k)
    ensures Logins(t, ups) <= 1
            <==> t[k].logins.value + LateLogins(t[k..], ups) <= 1 + LateLogouts(t[k..], ups)
  {
    hide Logins, LateLogins, LateLogouts;
    assert t == t[..k] + t[k..];
    LoginsAfter(t[..k], t[k..], ups);
  }

  /** No client logs into the UPS after FSD was accepted for it. */
  ghost predicate QuietAfterFsd(t: Trace, ups: string) {
    forall i, j :: 0 <= i < j < |t| && t[i] == FsdTry(ups, true) ==> t[j] != LoggedIn(ups)
  }

  lemma {:induction false} NoLateLogins(t: Trace, ups: string)
    requires forall i :: 0 <= i < |t| ==> t[i] != LoggedIn(ups)
    ensures LateLogins(t, ups) == 0
    decreases |t|
  {
    if t != [] { NoLateLogins(t[..|t| - 1], ups); }
  }

  /** The last time this UPS was asked, it answered. */
  ghost predicate AnsweredLast(t: Trace, ups: string) {
    forall i: nat :: LastSample(t, ups, i) ==> t[i].logins.Some?
  }

  /** The answer that a master goes by when it shuts down before the time is up. */
  lemma AnswerBehind(p: Trace, masters: set<string>, hostsync: int, s: nat, ups: string) returns (k: nat)
    requires SyncedFrom(p, masters, hostsync, s) && ups in masters
    requires Clock(p) - Clock(p[..s]) <= hostsync && AnsweredLast(p[s..], ups)
    ensures s <= k && AnsweredAt(p, ups, k) && p[k].logins.value <= 1
    ensures forall j :: k < j < |p| ==> !(p[j].Sample? && p[j].ups == ups)
  {
    hide Clock, Tried;
    var q := p[s..];
    assert LastSampleAtMost(q, ups, 1);
    hide SyncedFrom;
    var i: nat :| LastSample(q, ups, i) && (q[i].logins.Some? ==> q[i].logins.value <= 1);
    k := s + i;
    forall j | k < j < |p| ensures !(p[j].Sample? && p[j].ups == ups) { assert p[j] == q[j - s]; }
  }

  /** When a synchronised master goes on to shut down before the time is up, a UPS it masters that
      answered when it was last asked has, at any later moment t, nobody left but the master itself
      if and only if the logins since that answer do not outweigh the logouts. */
  lemma SlavesAreGoneIff(p: Trace, t: Trace, masters: set<string>, hostsync: int, s: nat, ups: string) returns (k: nat)
    requires p <= t && Honest(t) && SyncedFrom(p, masters, hostsync, s) && ups in masters
    requires Clock(p) - Clock(p[..s]) <= hostsync && AnsweredLast(p[s..], ups)
    ensures s <= k && AnsweredAt(p, ups, k) && p[k].logins.value <= 1
    ensures forall j :: k < j < |p| ==> !(p[j].Sample? && p[j].ups == ups)
    ensures Logins(t, ups) <= 1
            <==> p[k].logins.value + LateLogins(t[k..], ups) <= 1 + LateLogouts(t[k..], ups)
  {
    k := AnswerBehind(p, masters, hostsync, s, ups);
    hide SyncedFrom, AnsweredLast, Clock, Logins, LateLogins, LateLogouts;
    assert t[k] == p[k];
    LeftAloneIff(t, ups, k);
  }

  /** In particular, if it accepted FSD and no client has logged in since, nobody is left, although
      the counts were taken one after another: logins only fall once FSD is set. */
  lemma SlavesAreGone(p: Trace, t: Trace, masters: set<string>, hostsync: int, s: nat, ups: string, f: nat)
    requires p <= t && Honest(t) && SyncedFrom(p, masters, hostsync, s) && ups in masters
    requires Clock(p) - Clock(p[..s]) <= hostsync && AnsweredLast(p[s..], ups)
    requires f < s && p[f] == FsdTry(ups, true) && QuietAfterFsd(t, ups)
    ensures Logins(t, ups) <= 1
  {
    var k := SlavesAreGoneIff(p, t, masters, hostsync, s, ups);
    hide SyncedFrom, AnsweredLast, Clock, Logins, LateLogins, LateLogouts, Honest;
    assert t[f] == p[f];
    QuietTail(t, ups, f, k);
  }

  lemma QuietTail(t: Trace, ups: string, f: nat, k: nat)
    requires f < k <= |t| && t[f] == FsdTry(ups, true) && QuietAfterFsd(t, ups)
    ensures LateLogins(t[k..], ups) == 0
  {
    hide LateLogins;
    forall j | 0 <= j < |t[k..]| ensures t[k..][j] != LoggedIn(ups) {
      assert t[k..][j] == t[k + j];
    }
    NoLateLogins(t[k..], ups);
  }

  /** A count taken after FSD was accepted bounds the count for good. */
  lemma QuietBound(t: Trace, k: nat, ups: string, f: nat)
    requires Honest(t) && AnsweredAt(t, ups, k) && f < k && t[f] == FsdTry(ups, true) && QuietAfterFsd(t, ups)
    ensures Logins(t, ups) <= t[k].logins.value
  {
    hide Logins, LateLogins, LateLogouts;
    assert t == t[..k] + t[k..];
    LoginsAfter(t[..k], t[k..], ups);
    QuietTail(t, ups, f, k);
  }

  /** The server does not refuse a login after FSD, and one such login is enough to break the
      claim: the trace is synchronised, the UPS answered 1, yet two clients are logged in. */
  lemma LateLoginBreaksSync(u: string)
    ensures var t := [LoggedIn(u), FsdTry(u, true), SyncBegin, Sample(u, Some(1)), LoggedIn(u)];
            Honest(t) && SyncedFrom(t, {u}, 15, 2) && Logins(t, u) == 2
  {
    var t := [LoggedIn(u), FsdTry(u, true), SyncBegin, Sample(u, Some(1)), LoggedIn(u)];
    assert Tried(t[..2], u) by { assert t[..2][1].FsdTry?; }
    assert LastSampleAtMost(t[2..], u, 1) by { assert LastSample(t[2..], u, 1); }
    LoginsStep(t, 0, u);
    LoginsStep(t, 1, u);
    LoginsStep(t, 2, u);
    LoginsStep(t, 3, u);
    LoginsStep(t, 4, u);
    assert t[..0] == [] && t[..5] == t;
  }

  lemma LoginsStep(t: Trace, i: nat, ups: string)
    requires i < |t|
    ensures Logins(t[..i + 1], ups) ==
            Logins(t[..i], ups) + if t[i] == LoggedIn(ups) then 1 else if t[i] == LoggedOut(ups) then -1 else 0
  {
    assert t[..i + 1][..i] == t[..i];
  }

  // ----- what a round of samples leaves behind -----

  lemma SampleWeaker(t: Trace, ups: string, bound: int, bound': int)
    requires LastSampleAtMost(t, ups, bound) && bound <= bound'
    ensures LastSampleAtMost(t, ups, bound')
  {
    var i: nat :| LastSample(t, ups, i) && (t[i].logins.Some? ==> t[i].logins.value <= bound);
  }

  lemma SampleKept(t: Trace, more: Trace, ups: string, bound: int, bound': int)
    requires LastSampleAtMost(t, ups, bound) && bound <= bound'
    requires forall i :: 0 <= i < |more| ==> !(more[i].Sample? && more[i].ups == ups)
    ensures LastSampleAtMost(t + more, ups, bound')
  {
    var i: nat :| LastSample(t, ups, i) && (t[i].logins.Some? ==> t[i].logins.value <= bound);
    assert LastSample(t + more, ups, i);
  }

  lemma BusyKept(t: Trace, more: Trace, ups: string)
    requires Busy(t, ups) && forall i :: 0 <= i < |more| ==> !(more[i].Sample? && more[i].ups == ups)
    ensures Busy(t + more, ups)
  {
    var i: nat :| LastSample(t, ups, i) && t[i].logins.Some? && t[i].logins.value > 1;
    assert LastSample(t + more, ups, i);
  }

  lemma BusyNow(t: Trace, ups: string, logins: Option<int>)
    requires logins.Some? && logins.value > 1
    ensures Busy(t + [Sample(ups, logins)], ups)
  {
    assert LastSample(t + [Sample(ups, logins)], ups, |t|);
  }

  lemma SampleNow(t: Trace, ups: string, logins: Option<int>, bound: int)
    requires logins.Some? ==> logins.value <= bound
    ensures LastSampleAtMost(t + [Sample(ups, logins)], ups, bound)
  {
    assert LastSample(t + [Sample(ups, logins)], ups, |t|);
  }
}
