/** drivers/apcsmart.c: an enumerated variable is set by stepping the device around its ring of
    values until the wanted one comes up. The conversion of the variable's format is the identity. */
module Apcsmart {

  const TRIES := 6

  /** What becomes of one exchange with the device: it works; the write fails; the command is
      carried out and the answer lost; the device refuses the command. */
  datatype Fate = Fine | Cut | Silent | Refused

  function Next(fates: seq<Fate>): Fate {
    if fates == [] then Fine else fates[0]
  }

  function Later(fates: seq<Fate>): seq<Fate> {
    if fates == [] then [] else fates[1..]
  }

  /** The place k steps on, for at most one turn of the ring. */
  function On(at: nat, k: nat, n: nat): (r: nat)
    requires at < n && k <= n
    ensures r < n
  {
    if at + k < n then at + k else at + k - n
  }

  datatype Outcome = Outcome(handled: bool, at: nat, fates: seq<Fate>)

  /** A reading the driver takes for a value. */
  predicate Readable(v: string) {
    v != "" && v != "NA"
  }

  /** The loop, with the given number of tries left. */
  function Rotate(ring: seq<string>, at: nat, orig: string, val: string, tries: nat, fates: seq<Fate>): (r: Outcome)
    requires at < |ring|
    ensures r.at < |ring|
    decreases tries
  {
    if tries == 0 then Outcome(true, at, fates)
    else if Next(fates) in {Cut, Refused} then Outcome(false, at, Later(fates))
    else
      var at', fates' := On(at, 1, |ring|), Later(fates);
      if Next(fates) == Silent then Outcome(false, at', fates')
      else if Next(fates') != Fine || !Readable(ring[at']) then Outcome(false, at', Later(fates'))
      else if ring[at'] == val then Outcome(true, at', Later(fates'))
      else if ring[at'] == orig then Outcome(false, at', Later(fates'))
      else Rotate(ring, at', orig, val, tries - 1, Later(fates'))
  }

  /** setvar_enum() as a whole. */
  function Outcomes(ring: seq<string>, at: nat, val: string, fates: seq<Fate>): (r: Outcome)
    requires at < |ring|
    ensures r.at < |ring|
  {
    if Next(fates) != Fine || !Readable(ring[at]) then Outcome(false, at, Later(fates))
    else if ring[at] == val then Outcome(true, at, Later(fates))
    else Rotate(ring, at, ring[at], val, TRIES, Later(fates))
  }

  // ----- the driver -----

  class Device {
    const ring: seq<string>
    var at: nat
    var fates: seq<Fate>

    ghost predicate Valid()
      reads this
    {
      at < |ring|
    }

    constructor (values: seq<string>, start: nat, coming: seq<Fate>)
      requires start < |values|
      ensures Valid() && ring == values && at == start && fates == coming
    {
      ring, at, fates := values, start, coming;
    }

    /** Asks for the variable. */
    method Query() returns (sent: bool, reply: string)
      requires Valid()
      modifies this`fates
      ensures fates == Later(old(fates))
      ensures sent <==> Next(old(fates)) != Cut
      ensures reply == match Next(old(fates)) case Fine => ring[at] case Refused => "NA" case _ => ""
    {
      var fate := Next(fates);
      fates := Later(fates);
      sent := fate != Cut;
      reply := match fate case Fine => ring[at] case Refused => "NA" case _ => "";
    }

    /** APC_NEXTVAL. */
    method Step() returns (sent: bool, reply: string)
      requires Valid()
      modifies this
      ensures fates == Later(old(fates))
      ensures at == if Next(old(fates)) in {Fine, Silent} then On(old(at), 1, |ring|) else old(at)
      ensures sent <==> Next(old(fates)) != Cut
      ensures reply == match Next(old(fates)) case Fine => "OK" case Refused => "NO" case _ => ""
    {
      var fate := Next(fates);
      fates := Later(fates);
      if fate in {Fine, Silent} { at := On(at, 1, |ring|); }
      sent := fate != Cut;
      reply := match fate case Fine => "OK" case Refused => "NO" case _ => "";
    }

    /** setvar_enum(): true for STAT_SET_HANDLED, false for STAT_SET_FAILED. */
    method SetVarEnum(val: string) returns (handled: bool)
      requires Valid()
      modifies this
      ensures Outcome(handled, at, fates) == Outcomes(ring, old(at), val, old(fates))
    {
      var sent, orig := Query();
      if !sent || |orig| < 1 || orig == "NA" { return false; }
      if orig == val { return true; }
      for i := 0 to TRIES
        invariant Valid()
        invariant Outcomes(ring, old(at), val, old(fates)) == Rotate(ring, at, orig, val, TRIES - i, fates)
      {
        var sent, temp := Step();
        if !sent || |temp| < 1 || temp == "NA" { return false; }
        if temp == "NO" || temp != "OK" { return false; }
        sent, temp := Query();
        if !sent || |temp| < 1 || temp == "NA" { return false; }
        if temp == val { return true; }
        if temp == orig { return false; }
      }
      return true;
    }
  }

  // ----- what comes of it -----

  ghost predicate Distinct(ring: seq<string>) {
    forall i, j :: 0 <= i < j < |ring| ==> ring[i] != ring[j]
  }

  ghost predicate AllReadable(ring: seq<string>) {
    forall i :: 0 <= i < |ring| ==> Readable(ring[i])
  }

  lemma OneOn(at: nat, k: nat, n: nat)
    requires at < n && k < n
    ensures On(On(at, k, n), 1, n) == On(at, k + 1, n)
  {}

  /** Different numbers of steps, less than a full turn, lead to different places. */
  lemma OnApart(at: nat, j: nat, k: nat, n: nat)
    requires at < n && j < k < n
    ensures On(at, j, n) != On(at, k, n)
  {}

  /** How many steps lead from one place to another. */
  function Steps(at: nat, p: nat, n: nat): (k: nat)
    requires at < n && p < n
    ensures k < n && On(at, k, n) == p
  {
    if p >= at then p - at else p + n - at
  }

  /** Values that are neither the wanted one nor the first are passed over. */
  lemma {:induction false} PassOver(ring: seq<string>, at: nat, val: string, k: nat)
    requires at < |ring| && AllReadable(ring) && k <= TRIES && k < |ring|
    requires forall j :: 1 <= j <= k ==> ring[On(at, j, |ring|)] != val && ring[On(at, j, |ring|)] != ring[at]
    ensures Rotate(ring, at, ring[at], val, TRIES, []) == Rotate(ring, On(at, k, |ring|), ring[at], val, TRIES - k, [])
    decreases k
  {
    if k > 0 {
      PassOver(ring, at, val, k - 1);
      OneOn(at, k - 1, |ring|);
    }
  }

  /** Without faults, a value at most six steps away is reached; a ring of at most six values that
      does not hold the wanted one ends where it began; otherwise the driver stops six steps on. */
  lemma FaultFree(ring: seq<string>, at: nat, val: string, p: nat)
    requires at < |ring| && Distinct(ring) && AllReadable(ring)
    requires if val in ring then p < |ring| && ring[p] == val else p == at
    ensures var n, r := |ring|, Outcomes(ring, at, val, []);
            if val in ring && Steps(at, p, n) <= TRIES then r == Outcome(true, p, [])
            else if val !in ring && n <= TRIES then r == Outcome(false, at, [])
            else r == Outcome(true, On(at, TRIES, n), []) && ring[r.at] != val
  {
    var n := |ring|;
    var d := if val in ring then Steps(at, p, n) else n;
    forall j | 1 <= j < d ensures ring[On(at, j, n)] != val && ring[On(at, j, n)] != ring[at] {
      OnApart(at, 0, j, n);
      if val in ring { OnApart(at, j, d, n); }
    }
    if d > TRIES {
      PassOver(ring, at, val, TRIES);
    } else if d > 0 {
      PassOver(ring, at, val, d - 1);
      OneOn(at, d - 1, n);
    }
  }

  /** The answer is right if "handled" means that the device holds the wanted value, and "failed"
      that it holds the value it had. It is right exactly if the wanted value is at most six steps
      away or, where it is not in the ring, the ring has at most six values. */
  lemma TruthfulIff(ring: seq<string>, at: nat, val: string, p: nat)
    requires at < |ring| && Distinct(ring) && AllReadable(ring)
    requires if val in ring then p < |ring| && ring[p] == val else p == at
    ensures var r := Outcomes(ring, at, val, []);
            (if r.handled then ring[r.at] == val else r.at == at && ring[r.at] != val)
            <==> (if val in ring then Steps(at, p, |ring|) <= TRIES else |ring| <= TRIES)
  {
    FaultFree(ring, at, val, p);
  }

  /** For every ring of at most six values. */
  lemma SmallRing(ring: seq<string>, at: nat, val: string)
    requires at < |ring| <= TRIES && Distinct(ring) && AllReadable(ring)
    ensures var r := Outcomes(ring, at, val, []);
            && (r.handled <==> val in ring)
            && ring[r.at] == if val in ring then val else ring[at]
  {
    if val in ring {
      var p :| 0 <= p < |ring| && ring[p] == val;
      FaultFree(ring, at, val, p);
    } else {
      FaultFree(ring, at, val, at);
    }
  }

  /** A ring of seven values: the refused request is reported as handled. */
  lemma GaveUpIsHandled()
    ensures var ring := ["30", "60", "90", "120", "150", "180", "210"];
            var r := Outcomes(ring, 0, "45", []);
            r.handled && ring[r.at] == "210"
  {
    var ring := ["30", "60", "90", "120", "150", "180", "210"];
    FaultFree(ring, 0, "45", 0);
  }

  /** With any faults and any ring: handled means that the value was reached or that six others
      were seen, all of them neither the wanted one nor the first. */
  lemma {:induction false} HandledMeans(ring: seq<string>, at: nat, orig: string, val: string, tries: nat, fates: seq<Fate>)
    requires at < |ring| && Rotate(ring, at, orig, val, tries, fates).handled
    ensures var r := Rotate(ring, at, orig, val, tries, fates);
            (tries > 0 && ring[r.at] == val) || SixOthers(ring, at, orig, val, tries, r.at)
    decreases tries
  {
    if tries > 0 && ring[On(at, 1, |ring|)] != val {
      HandledMeans(ring, On(at, 1, |ring|), orig, val, tries - 1, Later(Later(fates)));
    }
  }

  ghost predicate SixOthers(ring: seq<string>, at: nat, orig: string, val: string, tries: nat, end: nat)
    requires at < |ring|
    decreases tries
  {
    if tries == 0 then end == at
    else var at' := On(at, 1, |ring|);
         ring[at'] != val && ring[at'] != orig && SixOthers(ring, at', orig, val, tries - 1, end)
  }

  /** However an exchange goes wrong, the call fails: a handled request means no fault was met. */
  lemma {:induction false} FaultsFail(ring: seq<string>, at: nat, orig: string, val: string, tries: nat, fates: seq<Fate>)
    requires at < |ring| && Rotate(ring, at, orig, val, tries, fates).handled
    ensures Rotate(ring, at, orig, val, tries, []) == Rotate(ring, at, orig, val, tries, fates).(fates := [])
    decreases tries
  {
    if tries > 0 {
      var at' := On(at, 1, |ring|);
      if ring[at'] != val { FaultsFail(ring, at', orig, val, tries - 1, Later(Later(fates))); }
    }
  }

  /** So for small rings the promise survives faults: what is reported as handled is in place. */
  lemma HandledDespiteFaults(ring: seq<string>, at: nat, val: string, fates: seq<Fate>)
    requires at < |ring| <= TRIES && Distinct(ring) && AllReadable(ring)
    requires Outcomes(ring, at, val, fates).handled
    ensures ring[Outcomes(ring, at, val, fates).at] == val
  {
    if ring[at] != val { FaultsFail(ring, at, ring[at], val, TRIES, Later(fates)); }
    SmallRing(ring, at, val);
  }
}
