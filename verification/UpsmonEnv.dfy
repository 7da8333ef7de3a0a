/** The world around one upsmon process: the clock, the upsd servers and their other clients. It is
    driven by a script that says what happens before each interaction and whether a request gets an
    answer; a claim for every script is a claim for every run. */
module UpsmonEnv {
  import opened Options
  import opened ShutdownTrace

  /** What the peers do before the next interaction, and whether a request then succeeds. */
  datatype Turn = Turn(before: Trace, ok: bool)

  ghost predicate PeersSince(t0: Trace, t: Trace) {
    t0 <= t && AllPeer(t[|t0|..])
  }

  lemma PeersTransitive(a: Trace, b: Trace, c: Trace)
    requires PeersSince(a, b) && PeersSince(b, c)
    ensures PeersSince(a, c) && Clock(a) <= Clock(b) <= Clock(c)
  {
    assert c[|a|..] == b[|a|..] + c[|b|..];
    assert b == a + b[|a|..] && c == b + c[|b|..];
    ClockConcat(a, b[|a|..]);
    ClockConcat(b, c[|b|..]);
  }

  lemma PrefixClock(a: Trace, b: Trace)
    requires a <= b
    ensures Clock(a) <= Clock(b)
  {
    assert b == a + b[|a|..];
    ClockConcat(a, b[|a|..]);
  }

  class Env {
    var trace: Trace
    var script: seq<Turn>

    ghost predicate Valid()
      reads this
    {
      && Honest(trace)
      && forall i :: 0 <= i < |script| ==> AllPeer(script[i].before)
    }

    constructor (turns: seq<Turn>)
      requires forall i :: 0 <= i < |turns| ==> AllPeer(turns[i].before)
      ensures Valid() && trace == [] && script == turns
    {
      trace, script := [], turns;
    }

    /** Lets the peers act; the result says whether a request made now gets through. */
    method Pass() returns (ok: bool)
      requires Valid()
      modifies this
      ensures Valid() && PeersSince(old(trace), trace)
      ensures |script| == if old(script) == [] then 0 else |old(script)| - 1
      ensures ok <==> old(script) != [] && old(script)[0].ok
    {
      if script == [] {
        return false;
      }
      ok := script[0].ok;
      HonestAppend(trace, script[0].before);
      trace, script := trace + script[0].before, script[1..];
    }

    /** time() */
    method Time() returns (t: nat)
      requires Valid()
      modifies this
      ensures Valid() && PeersSince(old(trace), trace) && t == Clock(trace) >= Clock(old(trace))
      ensures |script| <= |old(script)|
    {
      var _ := Pass();
      PrefixClock(old(trace), trace);
      t := Clock(trace);
    }

    /** An action of this process. */
    method Note(e: Event)
      requires Valid() && !e.Sample?
      modifies this`trace
      ensures Valid() && trace == old(trace) + [e]
    {
      HonestAppend(trace, [e]);
      trace := trace + [e];
    }

    /** setfsd(): whether upsd said OK. */
    method SendFsd(ups: string) returns (ok: bool)
      requires Valid()
      modifies this
      ensures Valid() && |script| <= |old(script)|
      ensures ok <==> old(script) != [] && old(script)[0].ok
      ensures old(trace) < trace && trace[|trace| - 1] == FsdTry(ups, ok)
      ensures PeersSince(old(trace), trace[..|trace| - 1])
    {
      ok := Pass();
      ghost var mid := trace;
      Note(FsdTry(ups, ok));
      assert trace[..|trace| - 1] == mid;
    }

    /** get_var() for numlogins: no answer, or the count at this moment. */
    method AskLogins(ups: string) returns (logins: Option<int>)
      requires Valid()
      modifies this
      ensures Valid() && |script| <= |old(script)|
      ensures logins.Some? <==> old(script) != [] && old(script)[0].ok
      ensures old(trace) < trace && trace[|trace| - 1] == Sample(ups, logins)
      ensures PeersSince(old(trace), trace[..|trace| - 1])
    {
      var ok := Pass();
      logins := if ok then Some(Logins(trace, ups)) else None;
      HonestAppend(trace, [Sample(ups, logins)]) by { assert trace + [Sample(ups, logins)][..0] == trace; }
      ghost var mid := trace;
      trace := trace + [Sample(ups, logins)];
      assert trace[..|trace| - 1] == mid;
    }
  }
}
