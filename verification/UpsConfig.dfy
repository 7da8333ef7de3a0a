/** The list of monitored systems of clients/upsmon.c as values: what MONITOR lines make of it at
    startup and at a reload, and how the running total of power values relates to the list. */
module UpsConfig {
  import opened CStrings
  import opened UpsRecord

  /** A MONITOR line; the power value is the result of strtol(). */
  datatype Monitor = Monitor(sys: string, pv: int, un: string, pw: string, role: string)

  datatype Item = Item(sys: string, pv: int, retain: bool)

  /** The list, totalpv, and the systems this host is the master of. */
  datatype Table = Table(items: seq<Item>, totalpv: int, masters: set<string>)

  const NOTHING := Table([], 0, {})

  /** The position of a system in the list, or its length. */
  function Find(items: seq<Item>, sys: string): (k: nat)
    ensures k <= |items|
    ensures k < |items| ==> items[k].sys == sys
    ensures forall i :: 0 <= i < k ==> items[i].sys != sys
  {
    if items == [] || items[0].sys == sys then 0 else 1 + Find(items[1..], sys)
  }

  /** Whether a record is mastered after a MONITOR line with this role. */
  predicate RoleAfter(role: string, was: bool) {
    Fold(role) == "master" || (Fold(role) != "slave" && was)
  }

  function Assign(masters: set<string>, sys: string, master: bool): set<string> {
    if master then masters + {sys} else masters - {sys}
  }

  /** addups(), with redefine_ups() for a known system at a reload. */
  function Add(t: Table, m: Monitor, reloading: bool): Table {
    if m.pv < 0 then t
    else
      var k := Find(t.items, m.sys);
      if k < |t.items| then
        if reloading then
          Table(t.items[k := Item(m.sys, m.pv, true)], t.totalpv + m.pv,
                Assign(t.masters, m.sys, RoleAfter(m.role, m.sys in t.masters)))
        else t
      else
        Table(t.items + [Item(m.sys, m.pv, true)], t.totalpv + m.pv, Assign(t.masters, m.sys, RoleAfter(m.role, false)))
  }

  function Load(t: Table, ms: seq<Monitor>, reloading: bool): Table {
    if ms == [] then t else Add(Load(t, ms[..|ms| - 1], reloading), ms[|ms| - 1], reloading)
  }

  /** The list with every retain flag cleared. */
  function Unretained(items: seq<Item>): (r: seq<Item>)
    ensures |r| == |items|
    ensures forall i :: 0 <= i < |items| ==> r[i] == items[i].(retain := false)
  {
    seq(|items|, i requires 0 <= i < |items| => items[i].(retain := false))
  }

  /** The list without the systems that were not named again. */
  function Retained(items: seq<Item>): seq<Item> {
    if items == [] then []
    else
      var rest := Retained(items[..|items| - 1]);
      if items[|items| - 1].retain then rest + [items[|items| - 1]] else rest
  }

  /** The beginning of reload_conf(): nothing is retained yet, and nothing counted. */
  function Begin(t: Table): Table {
    Table(Unretained(t.items), 0, t.masters)
  }

  /** The end of reload_conf(): what was not named again is dropped. */
  function Finish(t: Table): Table {
    var items := Retained(t.items);
    Table(items, t.totalpv, StillListed(t.masters, items))
  }

  /** reload_conf(), up to the check of the total. */
  function Reload(t: Table, ms: seq<Monitor>): Table {
    Finish(Load(Begin(t), ms, true))
  }

  function Sum(items: seq<Item>): int {
    if items == [] then 0 else Sum(items[..|items| - 1]) + items[|items| - 1].pv
  }

  ghost predicate Distinct(items: seq<Item>) {
    forall i, j :: 0 <= i < j < |items| ==> items[i].sys != items[j].sys
  }

  ghost predicate Listed(items: seq<Item>, sys: string) {
    exists i :: 0 <= i < |items| && items[i].sys == sys
  }

  /** The line is one that addups() accepts for this system. */
  predicate Names(m: Monitor, sys: string) {
    m.pv >= 0 && m.sys == sys
  }

  ghost predicate Configured(ms: seq<Monitor>, sys: string) {
    exists i :: 0 <= i < |ms| && Names(ms[i], sys)
  }

  lemma DistinctUpdate(items: seq<Item>, k: nat, x: Item)
    requires Distinct(items) && k < |items| && items[k].sys == x.sys
    ensures Distinct(items[k := x])
  {}

  lemma DistinctAppend(items: seq<Item>, x: Item)
    requires Distinct(items) && Find(items, x.sys) == |items|
    ensures Distinct(items + [x])
  {}

  lemma DistinctWithout(items: seq<Item>, k: nat)
    requires Distinct(items) && k < |items|
    ensures Distinct(items[..k] + items[k + 1..])
  {}

  lemma SumSnoc(items: seq<Item>, x: Item)
    ensures Sum(items + [x]) == Sum(items) + x.pv
  {
    assert (items + [x])[..|items|] == items;
  }

  // ----- startup -----

  /** After startup the list is exactly the configured set, each system once, and totalpv is the
      sum of its power values, whatever duplicates and invalid lines the file holds. */
  lemma {:induction false} StartupTotal(ms: seq<Monitor>)
    ensures var t := Load(NOTHING, ms, false);
            && Distinct(t.items) && t.totalpv == Sum(t.items)
            && (forall sys :: Listed(t.items, sys) <==> Configured(ms, sys))
            && (forall i :: 0 <= i < |t.items| ==> t.items[i].pv >= 0)
    decreases |ms|
  {
    if ms != [] {
      var n := |ms| - 1;
      StartupTotal(ms[..n]);
      var t := Load(NOTHING, ms[..n], false);
      AddFirst(t, ms[n]);
      forall sys ensures Listed(Load(NOTHING, ms, false).items, sys) <==> Configured(ms, sys) {
        ConfiguredSnoc(ms, sys);
        AddLists(t, ms[n], false, sys);
      }
    }
  }

  lemma AddFirst(t: Table, m: Monitor)
    requires Distinct(t.items) && t.totalpv == Sum(t.items) && forall i :: 0 <= i < |t.items| ==> t.items[i].pv >= 0
    ensures var u := Add(t, m, false);
            Distinct(u.items) && u.totalpv == Sum(u.items) && forall i :: 0 <= i < |u.items| ==> u.items[i].pv >= 0
  {
    SumSnoc(t.items, Item(m.sys, m.pv, true));
  }

  lemma ConfiguredSnoc(ms: seq<Monitor>, sys: string)
    requires ms != []
    ensures Configured(ms, sys) <==> Configured(ms[..|ms| - 1], sys) || Names(ms[|ms| - 1], sys)
  {
    var n := |ms| - 1;
    if Configured(ms[..n], sys) {
      var i :| 0 <= i < n && Names(ms[..n][i], sys);
      assert Names(ms[i], sys);
    }
    if Configured(ms, sys) && !Names(ms[n], sys) {
      var i :| 0 <= i < |ms| && Names(ms[i], sys);
      assert Names(ms[..n][i], sys);
    }
  }

  lemma AddLists(t: Table, m: Monitor, reloading: bool, sys: string)
    ensures Listed(Add(t, m, reloading).items, sys) <==> Listed(t.items, sys) || Names(m, sys)
  {
    var a, b := t.items, Add(t, m, reloading).items;
    if Listed(a, sys) {
      var i :| 0 <= i < |a| && a[i].sys == sys;
      assert b[i].sys == sys;
    }
    if Names(m, sys) {
      assert b[Find(a, sys)].sys == sys;
    }
    if Listed(b, sys) && !Names(m, sys) {
      var i :| 0 <= i < |b| && b[i].sys == sys;
      assert i < |a| && a[i].sys == sys;
    }
  }

  // ----- reload -----

  function SumRetained(items: seq<Item>): int {
    if items == [] then 0
    else SumRetained(items[..|items| - 1]) + if items[|items| - 1].retain then items[|items| - 1].pv else 0
  }

  lemma {:induction false} SumRetainedUpdate(items: seq<Item>, k: nat, x: Item)
    requires k < |items|
    ensures SumRetained(items[k := x]) ==
            SumRetained(items) - (if items[k].retain then items[k].pv else 0) + (if x.retain then x.pv else 0)
    decreases |items|
  {
    var n := |items| - 1;
    var u := items[k := x];
    if k == n {
      assert u[..n] == items[..n];
    } else {
      assert u[..n] == items[..n][k := x];
      SumRetainedUpdate(items[..n], k, x);
    }
  }

  lemma {:induction false} RetainedIsRetained(items: seq<Item>)
    requires Distinct(items)
    ensures Sum(Retained(items)) == SumRetained(items) && Distinct(Retained(items))
    ensures forall x :: x in Retained(items) <==> x in items && x.retain
    decreases |items|
  {
    if items != [] {
      var n := |items| - 1;
      var a := items[..n];
      RetainedIsRetained(a);
      assert items == a + [items[n]];
      if items[n].retain {
        SumSnoc(Retained(a), items[n]);
        forall i | 0 <= i < |Retained(a)| ensures Retained(a)[i].sys != items[n].sys {
          assert Retained(a)[i] in a;
        }
      }
    }
  }

  /** The power value of the last accepted line for a system. */
  function LastPv(ms: seq<Monitor>, sys: string): (pv: int)
    ensures pv >= 0
  {
    if ms == [] then 0
    else if Names(ms[|ms| - 1], sys) then ms[|ms| - 1].pv
    else LastPv(ms[..|ms| - 1], sys)
  }

  /** What the total counts on top of the list: the replaced values of systems named again. */
  function Overcount(ms: seq<Monitor>): (x: int)
    ensures x >= 0
  {
    if ms == [] then 0
    else
      var m := ms[|ms| - 1];
      Overcount(ms[..|ms| - 1]) + if m.pv >= 0 then LastPv(ms[..|ms| - 1], m.sys) else 0
  }

  ghost predicate ItemOk(ms: seq<Monitor>, x: Item) {
    && (x.retain <==> Configured(ms, x.sys))
    && (x.retain ==> x.pv == LastPv(ms, x.sys))
  }

  ghost predicate Tracks(ms: seq<Monitor>, items: seq<Item>) {
    forall i :: 0 <= i < |items| ==> ItemOk(ms, items[i])
  }

  lemma {:induction false} LastPvUnnamed(ms: seq<Monitor>, sys: string)
    requires !Configured(ms, sys)
    ensures LastPv(ms, sys) == 0
    decreases |ms|
  {
    if ms != [] {
      ConfiguredSnoc(ms, sys);
      LastPvUnnamed(ms[..|ms| - 1], sys);
    }
  }

  lemma ItemStays(ms: seq<Monitor>, x: Item)
    requires ms != [] && ItemOk(ms[..|ms| - 1], x) && !Names(ms[|ms| - 1], x.sys)
    ensures ItemOk(ms, x)
  {
    ConfiguredSnoc(ms, x.sys);
  }

  lemma ItemNew(ms: seq<Monitor>)
    requires ms != [] && ms[|ms| - 1].pv >= 0
    ensures var m := ms[|ms| - 1]; ItemOk(ms, Item(m.sys, m.pv, true))
  {
    var m := ms[|ms| - 1];
    ConfiguredSnoc(ms, m.sys);
    assert Names(m, m.sys);
  }

  /** During a reload: the list keeps one entry per system, and totalpv exceeds the retained sum
      by exactly the overcount. */
  lemma {:induction false} ReloadInvariant(t0: Table, ms: seq<Monitor>)
    requires Distinct(t0.items) && t0.totalpv == 0 && forall i :: 0 <= i < |t0.items| ==> !t0.items[i].retain
    ensures var u := Load(t0, ms, true);
            && Distinct(u.items) && Tracks(ms, u.items)
            && u.totalpv == SumRetained(u.items) + Overcount(ms)
            && (forall sys :: Configured(ms, sys) ==> Listed(u.items, sys))
    decreases |ms|
  {
    if ms == [] {
      NothingRetained(t0.items);
    } else {
      var n := |ms| - 1;
      var a, m := ms[..n], ms[n];
      ReloadInvariant(t0, a);
      var t, u := Load(t0, a, true), Load(t0, ms, true);
      assert u == Add(t, m, true);
      forall sys | Configured(ms, sys) ensures Listed(u.items, sys) {
        ConfiguredSnoc(ms, sys);
        AddLists(t, m, true, sys);
      }
      ReloadStep(t, ms);
    }
  }

  lemma ReloadStep(t: Table, ms: seq<Monitor>)
    requires ms != [] && Distinct(t.items) && Tracks(ms[..|ms| - 1], t.items)
    requires t.totalpv == SumRetained(t.items) + Overcount(ms[..|ms| - 1])
    requires forall sys :: Configured(ms[..|ms| - 1], sys) ==> Listed(t.items, sys)
    ensures var u := Add(t, ms[|ms| - 1], true);
            Distinct(u.items) && Tracks(ms, u.items) && u.totalpv == SumRetained(u.items) + Overcount(ms)
  {
    var n := |ms| - 1;
    var a, m := ms[..n], ms[n];
    ReloadStepTracks(t, ms);
    hide Tracks, Distinct, Configured;
    var k, x := Find(t.items, m.sys), Item(m.sys, m.pv, true);
    if m.pv >= 0 {
      if !Configured(a, m.sys) { LastPvUnnamed(a, m.sys); }
      if k < |t.items| {
        OldItem(t.items, a, k);
        SumRetainedUpdate(t.items, k, x);
      } else {
        FindListed(t.items, m.sys);
        assert Add(t, m, true).items[..k] == t.items;
      }
    }
  }

  lemma OldItem(items: seq<Item>, ms: seq<Monitor>, k: nat)
    requires Tracks(ms, items) && k < |items|
    ensures ItemOk(ms, items[k])
  {
  }

  lemma ReloadStepTracks(t: Table, ms: seq<Monitor>)
    requires ms != [] && Distinct(t.items) && Tracks(ms[..|ms| - 1], t.items)
    ensures var u := Add(t, ms[|ms| - 1], true); Distinct(u.items) && Tracks(ms, u.items)
  {
    var m := ms[|ms| - 1];
    var u := Add(t, m, true);
    hide Configured, LastPv;
    if m.pv >= 0 { ItemNew(ms); }
    forall i | 0 <= i < |u.items| ensures ItemOk(ms, u.items[i]) {
      if i < |t.items| && u.items[i] == t.items[i] && !Names(m, t.items[i].sys) {
        ItemStays(ms, t.items[i]);
      }
    }
  }

  lemma FindListed(items: seq<Item>, sys: string)
    ensures Find(items, sys) == |items| <==> !Listed(items, sys)
  {
  }

  lemma {:induction false} NothingRetained(items: seq<Item>)
    requires forall i :: 0 <= i < |items| ==> !items[i].retain
    ensures SumRetained(items) == 0
    decreases |items|
  {
    if items != [] { NothingRetained(items[..|items| - 1]); }
  }

  /** No accepted line with a positive power value is followed by another for the same system. */
  ghost predicate NoPositiveRepeat(ms: seq<Monitor>) {
    forall i, j :: 0 <= i < j < |ms| && ms[i].pv > 0 && ms[j].pv >= 0 ==> ms[i].sys != ms[j].sys
  }

  lemma {:induction false} LastPvPositive(ms: seq<Monitor>, sys: string)
    requires LastPv(ms, sys) > 0
    ensures exists i :: 0 <= i < |ms| && ms[i].pv > 0 && ms[i].sys == sys
    decreases |ms|
  {
    var n := |ms| - 1;
    if !Names(ms[n], sys) {
      LastPvPositive(ms[..n], sys);
      var i :| 0 <= i < n && ms[..n][i].pv > 0 && ms[..n][i].sys == sys;
      assert ms[i].pv > 0 && ms[i].sys == sys;
    }
  }

  /** Without positive repeats a system with a positive line has it as its last one. */
  lemma {:induction false} LastPvOfPositive(ms: seq<Monitor>, i: nat)
    requires NoPositiveRepeat(ms) && i < |ms| && ms[i].pv > 0
    ensures LastPv(ms, ms[i].sys) > 0
    decreases |ms|
  {
    var n := |ms| - 1;
    if i < n && !Names(ms[n], ms[i].sys) {
      assert ms[..n][i] == ms[i];
      LastPvOfPositive(ms[..n], i);
    }
  }

  lemma {:induction false} OvercountIff(ms: seq<Monitor>)
    ensures Overcount(ms) == 0 <==> NoPositiveRepeat(ms)
    decreases |ms|
  {
    if ms != [] {
      var n := |ms| - 1;
      var a, m := ms[..n], ms[n];
      OvercountIff(a);
      if NoPositiveRepeat(ms) {
        assert NoPositiveRepeat(a);
        if m.pv >= 0 && LastPv(a, m.sys) > 0 {
          LastPvPositive(a, m.sys);
        }
      } else if NoPositiveRepeat(a) {
        var i, j :| 0 <= i < j < |ms| && ms[i].pv > 0 && ms[j].pv >= 0 && ms[i].sys == ms[j].sys;
        assert j == n;
        assert a[i] == ms[i];
        LastPvOfPositive(a, i);
      }
    }
  }

  /** After a reload the list is exactly the configured set, each system once with the value of its
      last line, and totalpv equals the sum of the list if and only if no accepted line with a
      positive value is followed by another for the same system. */
  lemma ReloadTotal(t: Table, ms: seq<Monitor>)
    requires Distinct(t.items)
    ensures var u := Reload(t, ms);
            && Distinct(u.items)
            && (forall sys :: Listed(u.items, sys) <==> Configured(ms, sys))
            && (forall i :: 0 <= i < |u.items| ==> u.items[i].pv == LastPv(ms, u.items[i].sys))
            && u.totalpv >= Sum(u.items)
            && (u.totalpv == Sum(u.items) <==> NoPositiveRepeat(ms))
  {
    ReloadInvariant(Begin(t), ms);
    var w := Load(Begin(t), ms, true);
    RetainedIsRetained(w.items);
    OvercountIff(ms);
    var u := Reload(t, ms);
    forall i | 0 <= i < |u.items| ensures u.items[i].pv == LastPv(ms, u.items[i].sys) && Configured(ms, u.items[i].sys) {
      assert u.items[i] in w.items && u.items[i].retain;
    }
    forall sys | Configured(ms, sys) ensures Listed(u.items, sys) {
      var i :| 0 <= i < |w.items| && w.items[i].sys == sys;
      assert ItemOk(ms, w.items[i]);
      assert w.items[i] in u.items;
    }
  }

  /** A monitor that runs with one system reloads a file that names it twice: the list stays as it
      was, and the total says twice its worth. */
  lemma ReloadCountsTwice(m: Monitor)
    requires m.pv >= 0
    ensures var t := Load(NOTHING, [m], false);
            var u := Reload(t, [m, m]);
            && t.items == u.items == [Item(m.sys, m.pv, true)]
            && t.totalpv == Sum(t.items) == m.pv && u.totalpv == 2 * m.pv
  {
    var t := Load(NOTHING, [m], false);
    OnceLoaded(m);
    OneItem(Item(m.sys, m.pv, true));
    hide Load, Retained, Sum, StillListed;
    TwiceLoaded(m, Begin(t));
  }

  lemma OneItem(x: Item)
    requires x.retain
    ensures Retained([x]) == [x] && Sum([x]) == x.pv
  {
    assert [x][..0] == [] && Retained([]) == [];
  }

  lemma OnceLoaded(m: Monitor)
    requires m.pv >= 0
    ensures Load(NOTHING, [m], false).items == [Item(m.sys, m.pv, true)] && Load(NOTHING, [m], false).totalpv == m.pv
  {
    hide Assign, RoleAfter;
    var x := Item(m.sys, m.pv, true);
    assert [m][..0] == [] && [] + [x] == [x];
    assert Load(NOTHING, [m], false) == Add(NOTHING, m, false) by { assert Load(NOTHING, [], false) == NOTHING; }
  }

  lemma TwiceLoaded(m: Monitor, t0: Table)
    requires m.pv >= 0 && |t0.items| == 1 && t0.items[0].sys == m.sys && t0.totalpv == 0
    ensures Load(t0, [m, m], true).items == [Item(m.sys, m.pv, true)] && Load(t0, [m, m], true).totalpv == 2 * m.pv
  {
    hide Assign, RoleAfter;
    assert [m, m][..1] == [m] && [m][..0] == [] && Load(t0, [], true) == t0;
    var t := Add(t0, m, true);
    assert t.items == [Item(m.sys, m.pv, true)];
    assert Load(t0, [m], true) == t;
    assert Load(t0, [m, m], true) == Add(t, m, true);
  }

  // ----- roles -----

  /** The first accepted line for the system makes this host its master. */
  ghost predicate MasterFirst(ms: seq<Monitor>, sys: string) {
    exists i :: 0 <= i < |ms| && Names(ms[i], sys) && Fold(ms[i].role) == "master"
                && forall j :: 0 <= j < i ==> !Names(ms[j], sys)
  }

  lemma MasterFirstSnoc(ms: seq<Monitor>, sys: string)
    requires ms != []
    ensures var a, m := ms[..|ms| - 1], ms[|ms| - 1];
            MasterFirst(ms, sys)
            <==> MasterFirst(a, sys) || (!Configured(a, sys) && Names(m, sys) && Fold(m.role) == "master")
  {
    hide Fold;
    var n := |ms| - 1;
    var a, m := ms[..n], ms[n];
    assert forall j :: 0 <= j < n ==> a[j] == ms[j];
    if MasterFirst(a, sys) {
      var i :| 0 <= i < n && Names(a[i], sys) && Fold(a[i].role) == "master" && forall j :: 0 <= j < i ==> !Names(a[j], sys);
      assert Names(ms[i], sys) && Fold(ms[i].role) == "master";
    }
    if MasterFirst(ms, sys) {
      var i :| 0 <= i < |ms| && Names(ms[i], sys) && Fold(ms[i].role) == "master" && forall j :: 0 <= j < i ==> !Names(ms[j], sys);
      if i < n {
        assert Names(a[i], sys) && Fold(a[i].role) == "master";
        assert MasterFirst(a, sys);
      }
    }
  }

  /** At startup this host masters exactly the systems whose first accepted line says so. */
  lemma {:induction false} StartupMasters(ms: seq<Monitor>, sys: string)
    ensures sys in Load(NOTHING, ms, false).masters <==> MasterFirst(ms, sys)
    decreases |ms|
  {
    if ms != [] {
      var n := |ms| - 1;
      var a := ms[..n];
      var t := Load(NOTHING, a, false);
      StartupMasters(a, sys);
      StartupTotal(a);
      MasterFirstSnoc(ms, sys);
      MasterFirstConfigured(a, sys);
      FindListed(t.items, ms[n].sys);
      hide Fold, Listed, Configured, MasterFirst;
      assert Load(NOTHING, ms, false) == Add(t, ms[n], false);
      if ms[n].sys != sys { assert sys in Add(t, ms[n], false).masters <==> sys in t.masters; }
    }
  }

  lemma MasterFirstConfigured(ms: seq<Monitor>, sys: string)
    ensures MasterFirst(ms, sys) ==> Configured(ms, sys)
  {
    hide Fold;
  }

  /** What the lines of a file leave of the role a system had. */
  predicate LastRole(ms: seq<Monitor>, sys: string, was: bool) {
    if ms == [] then was
    else
      var before := LastRole(ms[..|ms| - 1], sys, was);
      if Names(ms[|ms| - 1], sys) then RoleAfter(ms[|ms| - 1].role, before) else before
  }

  lemma {:induction false} LoadRoles(t0: Table, ms: seq<Monitor>, sys: string)
    requires sys in t0.masters ==> Listed(t0.items, sys)
    ensures var u := Load(t0, ms, true);
            (sys in u.masters <==> LastRole(ms, sys, sys in t0.masters)) && (sys in u.masters ==> Listed(u.items, sys))
    decreases |ms|
  {
    hide RoleAfter;
    if ms != [] {
      var n := |ms| - 1;
      var t := Load(t0, ms[..n], true);
      LoadRoles(t0, ms[..n], sys);
      AddLists(t, ms[n], true, sys);
      FindListed(t.items, ms[n].sys);
      hide Listed;
      assert Load(t0, ms, true) == Add(t, ms[n], true);
    }
  }

  /** A line says master and no later one says slave, or the role was master and none says slave. */
  ghost predicate MasterLast(ms: seq<Monitor>, sys: string, was: bool) {
    || (exists i :: 0 <= i < |ms| && Names(ms[i], sys) && Fold(ms[i].role) == "master" && NoSlaveAfter(ms, sys, i))
    || (was && NoSlaveAfter(ms, sys, -1))
  }

  ghost predicate NoSlaveAfter(ms: seq<Monitor>, sys: string, i: int) {
    forall j :: i < j < |ms| && 0 <= j && Names(ms[j], sys) ==> Fold(ms[j].role) != "slave"
  }

  lemma {:induction false} LastRoleIff(ms: seq<Monitor>, sys: string, was: bool)
    ensures LastRole(ms, sys, was) <==> MasterLast(ms, sys, was)
    decreases |ms|
  {
    hide Fold;
    if ms != [] {
      var n := |ms| - 1;
      LastRoleIff(ms[..n], sys, was);
      assert forall j :: 0 <= j < n ==> ms[..n][j] == ms[j];
      MasterLastSnoc(ms, sys, was);
    }
  }

  lemma NoSlaveSnoc(ms: seq<Monitor>, sys: string, i: int)
    requires ms != [] && i < |ms| - 1
    ensures NoSlaveAfter(ms, sys, i)
            <==> NoSlaveAfter(ms[..|ms| - 1], sys, i) && (Names(ms[|ms| - 1], sys) ==> Fold(ms[|ms| - 1].role) != "slave")
  {
    hide Fold;
    var n := |ms| - 1;
    assert forall j :: 0 <= j < n ==> ms[..n][j] == ms[j];
    if NoSlaveAfter(ms, sys, i) {
      forall j | i < j < n && 0 <= j && Names(ms[..n][j], sys) ensures Fold(ms[..n][j].role) != "slave" {
        assert Names(ms[j], sys);
      }
    }
    if NoSlaveAfter(ms[..n], sys, i) && (Names(ms[n], sys) ==> Fold(ms[n].role) != "slave") {
      forall j | i < j < |ms| && 0 <= j && Names(ms[j], sys) ensures Fold(ms[j].role) != "slave" {
        if j < n { assert Names(ms[..n][j], sys); }
      }
    }
  }

  lemma MasterLastSnoc(ms: seq<Monitor>, sys: string, was: bool)
    requires ms != []
    ensures var a, m := ms[..|ms| - 1], ms[|ms| - 1];
            MasterLast(ms, sys, was)
            <==> if Names(m, sys) && Fold(m.role) == "master" then true
                 else if Names(m, sys) && Fold(m.role) == "slave" then false
                 else MasterLast(a, sys, was)
  {
    hide Fold;
    var n := |ms| - 1;
    var a, m := ms[..n], ms[n];
    assert forall j :: 0 <= j < n ==> a[j] == ms[j];
    forall i | -1 <= i < n
      ensures NoSlaveAfter(ms, sys, i) <==> NoSlaveAfter(a, sys, i) && (Names(m, sys) ==> Fold(m.role) != "slave")
    {
      NoSlaveSnoc(ms, sys, i);
    }
    if Names(m, sys) && Fold(m.role) == "master" { assert NoSlaveAfter(ms, sys, n); }
    if MasterLast(a, sys, was) && !(was && NoSlaveAfter(a, sys, -1)) {
      var i :| 0 <= i < n && Names(a[i], sys) && Fold(a[i].role) == "master" && NoSlaveAfter(a, sys, i);
      assert Names(ms[i], sys) && Fold(ms[i].role) == "master";
    }
    if MasterLast(ms, sys, was) && !(was && NoSlaveAfter(ms, sys, -1)) {
      var i :| 0 <= i < |ms| && Names(ms[i], sys) && Fold(ms[i].role) == "master" && NoSlaveAfter(ms, sys, i);
      if i < n { assert Names(a[i], sys) && Fold(a[i].role) == "master"; }
    }
  }

  /** After a reload this host masters exactly the configured systems that a line makes it the master
      of with no later line against it, or that it was master of with no line against it. */
  lemma ReloadMasters(t: Table, ms: seq<Monitor>, sys: string)
    requires Distinct(t.items) && (sys in t.masters ==> Listed(t.items, sys))
    ensures sys in Reload(t, ms).masters <==> Configured(ms, sys) && MasterLast(ms, sys, sys in t.masters)
  {
    LastRoleIff(ms, sys, sys in t.masters);
    hide MasterLast;
    var b := Begin(t);
    if Listed(t.items, sys) {
      var i :| 0 <= i < |t.items| && t.items[i].sys == sys;
      assert b.items[i].sys == sys;
    }
    LoadRoles(b, ms, sys);
    ReloadTotal(t, ms);
    FindListed(Reload(t, ms).items, sys);
    hide Listed, Configured, LastRole;
  }

  // ----- all the directives -----

  /** A line of upsmon.conf, as far as it matters here. */
  datatype Directive = MonitorLine(m: Monitor) | MinSupplies(n: int) | Timing(cfg: Settings)

  /** Everything that the file decides. */
  datatype Conf = Conf(table: Table, minsupplies: int, cfg: Settings)

  function Monitors(ds: seq<Directive>): seq<Monitor> {
    if ds == [] then []
    else
      var d := ds[|ds| - 1];
      Monitors(ds[..|ds| - 1]) + if d.MonitorLine? then [d.m] else []
  }

  function Direct(c: Conf, d: Directive, reloading: bool): Conf {
    match d
    case MonitorLine(m) => c.(table := Add(c.table, m, reloading))
    case MinSupplies(n) => c.(minsupplies := n)
    case Timing(cfg) => c.(cfg := cfg)
  }

  /** loadconfig(): the directives in file order. */
  function Configure(c: Conf, ds: seq<Directive>, reloading: bool): Conf {
    if ds == [] then c else Direct(Configure(c, ds[..|ds| - 1], reloading), ds[|ds| - 1], reloading)
  }

  lemma ConfigureSnoc(c: Conf, ds: seq<Directive>, k: nat, reloading: bool)
    requires k < |ds|
    ensures Configure(c, ds[..k + 1], reloading) == Direct(Configure(c, ds[..k], reloading), ds[k], reloading)
  {
    assert ds[..k + 1][..k] == ds[..k];
  }

  /** The last directive that sets MINSUPPLIES is the one at i; -1 if there is none. */
  ghost predicate LastMin(ds: seq<Directive>, i: int) {
    -1 <= i < |ds| && (i >= 0 ==> ds[i].MinSupplies?) && forall j :: i < j < |ds| ==> !ds[j].MinSupplies?
  }

  ghost predicate LastTiming(ds: seq<Directive>, i: int) {
    -1 <= i < |ds| && (i >= 0 ==> ds[i].Timing?) && forall j :: i < j < |ds| ==> !ds[j].Timing?
  }

  /** MINSUPPLIES is what the last directive says that sets it, or stays. */
  lemma {:induction false} MinSuppliesIs(c: Conf, ds: seq<Directive>, reloading: bool, i: int)
    requires LastMin(ds, i)
    ensures Configure(c, ds, reloading).minsupplies == if i < 0 then c.minsupplies else ds[i].n
    decreases |ds|
  {
    hide Add;
    if ds != [] && i < |ds| - 1 {
      var a := ds[..|ds| - 1];
      assert LastMin(a, i);
      MinSuppliesIs(c, a, reloading, i);
    }
  }

  /** So are the intervals. */
  lemma {:induction false} TimingIs(c: Conf, ds: seq<Directive>, reloading: bool, i: int)
    requires LastTiming(ds, i)
    ensures Configure(c, ds, reloading).cfg == if i < 0 then c.cfg else ds[i].cfg
    decreases |ds|
  {
    hide Add;
    if ds != [] && i < |ds| - 1 {
      var a := ds[..|ds| - 1];
      assert LastTiming(a, i);
      TimingIs(c, a, reloading, i);
    }
  }

  /** The table depends on the MONITOR lines alone. */
  lemma {:induction false} ConfigureTable(c: Conf, ds: seq<Directive>, reloading: bool)
    ensures Configure(c, ds, reloading).table == Load(c.table, Monitors(ds), reloading)
    decreases |ds|
  {
    hide Add;
    if ds != [] {
      var n := |ds| - 1;
      ConfigureTable(c, ds[..n], reloading);
      var ms := Monitors(ds[..n]);
      if ds[n].MonitorLine? {
        assert (ms + [ds[n].m])[..|ms|] == ms;
      } else {
        assert ms + [] == ms;
      }
    }
  }

  /** reload_conf() with a file that can be read. */
  function Reconfigure(c: Conf, ds: seq<Directive>): Conf {
    var u := Configure(c.(table := Begin(c.table)), ds, true);
    u.(table := Finish(u.table))
  }

  lemma ReconfigureTable(c: Conf, ds: seq<Directive>)
    ensures Reconfigure(c, ds).table == Reload(c.table, Monitors(ds))
  {
    ConfigureTable(c.(table := Begin(c.table)), ds, true);
  }

  // ----- the loops over the list -----

  lemma UnretainedDistinct(items: seq<Item>)
    requires Distinct(items)
    ensures Distinct(Unretained(items))
  {
  }

  lemma RetainedNothing()
    ensures Retained([]) == []
  {
  }

  /** The list after the first j entries have been dealt with, one entry later. */
  lemma RetainedStep(was: seq<Item>, j: nat, now: seq<Item>)
    requires j < |was| && now == Retained(was[..j]) + was[j..]
    ensures var k := |Retained(was[..j])|;
            && (was[j].retain ==> now == Retained(was[..j + 1]) + was[j + 1..] && k + 1 == |Retained(was[..j + 1])|)
            && (!was[j].retain ==> now[..k] + now[k + 1..] == Retained(was[..j + 1]) + was[j + 1..]
                                   && k == |Retained(was[..j + 1])|)
  {
    assert was[..j + 1][..j] == was[..j];
    assert was[j..] == [was[j]] + was[j + 1..];
  }

  lemma FindUnique(items: seq<Item>, sys: string, k: nat)
    requires k <= |items| && (k < |items| ==> items[k].sys == sys) && forall i :: 0 <= i < k ==> items[i].sys != sys
    ensures Find(items, sys) == k
  {
  }

  // ----- the systems that are mastered, record by record -----

  /** The systems whose flag is set. */
  ghost function MastersOf(items: seq<Item>, flags: seq<bool>): set<string>
    requires |items| == |flags|
  {
    set i | 0 <= i < |items| && flags[i] :: items[i].sys
  }

  lemma FlagAt(items: seq<Item>, flags: seq<bool>, k: nat)
    requires Distinct(items) && |items| == |flags| && k < |items|
    ensures items[k].sys in MastersOf(items, flags) <==> flags[k]
  {
  }

  lemma AssignFlag(items: seq<Item>, flags: seq<bool>, k: nat, x: Item, b: bool)
    requires Distinct(items) && |items| == |flags| && k < |items| && x.sys == items[k].sys
    ensures MastersOf(items[k := x], flags[k := b]) == Assign(MastersOf(items, flags), x.sys, b)
  {
    var before, after := MastersOf(items, flags), MastersOf(items[k := x], flags[k := b]);
    forall s | s in before && s != x.sys ensures s in after {
      var i :| 0 <= i < |items| && flags[i] && items[i].sys == s;
      assert items[k := x][i].sys == s && flags[k := b][i];
    }
    if b { assert items[k := x][k].sys == x.sys && flags[k := b][k]; }
  }

  lemma AppendFlag(items: seq<Item>, flags: seq<bool>, x: Item, b: bool)
    requires |items| == |flags| && Find(items, x.sys) == |items|
    ensures MastersOf(items + [x], flags + [b]) == Assign(MastersOf(items, flags), x.sys, b)
  {
    var before, after := MastersOf(items, flags), MastersOf(items + [x], flags + [b]);
    forall s | s in before ensures s in after {
      var i :| 0 <= i < |items| && flags[i] && items[i].sys == s;
      assert (items + [x])[i].sys == s && (flags + [b])[i];
    }
    if b { assert (items + [x])[|items|].sys == x.sys && (flags + [b])[|items|]; }
  }

  lemma DropFlag(items: seq<Item>, flags: seq<bool>, k: nat)
    requires Distinct(items) && |items| == |flags| && k < |items|
    ensures MastersOf(items[..k] + items[k + 1..], flags[..k] + flags[k + 1..]) == MastersOf(items, flags) - {items[k].sys}
  {
    var items', flags' := items[..k] + items[k + 1..], flags[..k] + flags[k + 1..];
    forall s | s in MastersOf(items, flags) && s != items[k].sys ensures s in MastersOf(items', flags') {
      var i :| 0 <= i < |items| && flags[i] && items[i].sys == s;
      var j := if i < k then i else i - 1;
      assert items'[j] == items[i] && flags'[j] == flags[i];
    }
  }

  /** The mastered systems that are still listed. */
  function StillListed(masters: set<string>, items: seq<Item>): set<string> {
    set s | s in masters && Find(items, s) < |items|
  }

  lemma MastersListed(items: seq<Item>, flags: seq<bool>)
    requires |items| == |flags|
    ensures StillListed(MastersOf(items, flags), items) == MastersOf(items, flags)
  {
  }

  lemma DropListed(masters: set<string>, items: seq<Item>, k: nat)
    requires Distinct(items) && k < |items|
    ensures StillListed(masters, items[..k] + items[k + 1..]) == StillListed(masters, items) - {items[k].sys}
  {
    var items' := items[..k] + items[k + 1..];
    forall s ensures Find(items', s) < |items'| <==> Find(items, s) < |items| && s != items[k].sys {
      var i := Find(items, s);
      if i < |items| && s != items[k].sys {
        assert items'[if i < k then i else i - 1] == items[i];
      }
    }
  }
}
