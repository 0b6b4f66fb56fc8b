/**
 The per-tick hooks that keep divert rules in the IPv4 and the IPv6 table
 (cmd/awgproxy/main.go, makeClientDivertHook and makeServerDivertHook).
 */
module DivertHooks {
  import opened Wrappers
  import opened NatRules
  import opened Reconcilers

  /** Address (4-in-6 already unmapped) and port of the upstream. */
  datatype Endpoint = Endpoint(addr: Addr, port: int)

  datatype Snapshot = Snapshot(upstream: Option<Endpoint>, wgListenPort: int)
  {
    predicate HasUpstream() { upstream.Some? && wgListenPort != 0 }
    predicate Six() { upstream.Some? && upstream.value.addr.Is6() }
    /** The family of the table that a tick ends with; the other table is the idle one. */
    predicate Active6() { !HasUpstream() || Six() }
  }

  datatype Settings = Settings(marker: string, container: Addr, container6: Addr, toPort: int)
  {
    function Target(six: bool): Addr { if six then container6 else container }

    function Want(snap: Snapshot): DivertRule
      requires snap.HasUpstream()
    {
      DivertRule(OUTPUT, snap.wgListenPort, snap.upstream.value.addr, snap.upstream.value.port, Target(snap.Six()),
          toPort)
    }

    function WantFields(snap: Snapshot): Fields
      requires snap.HasUpstream()
    {
      DivertFields(Want(snap), marker)
    }
  }

  // ----- the hook on the own rules of the two tables ------------------------------------------

  /** Field maps of the own rules of both tables, and the family the hook remembers. */
  datatype State = State(own4: seq<Fields>, own6: seq<Fields>, last: Option<bool>)
  {
    function Own(six: bool): seq<Fields> { if six then own6 else own4 }

    function With(six: bool, own: seq<Fields>): State { if six then this.(own6 := own) else this.(own4 := own) }
  }

  /**
   A tick and what goes wrong in it: after how many rules a removal that the idle table needed fails,
   and which own rules failing calls leave in the active table if not those that it should have; none
   when all goes well. Without an upstream both tables are emptied, and the IPv4 table counts as the
   idle one.
   */
  datatype Event = Event(snap: Snapshot, failsAfter: Option<nat>, leaves: Option<seq<Fields>>)
  {
    predicate FaultFree() { failsAfter.None? && leaves.None? }
  }

  /** What is left of the idle table's own rules after the removal. */
  function Leftover(own: seq<Fields>, failsAfter: Option<nat>): seq<Fields>
  {
    if failsAfter.None? then [] else if failsAfter.value <= |own| then own[failsAfter.value..] else []
  }

  /** The own rules of the active table after Ensure. */
  function Ensured(own: seq<Fields>, want: Fields): (now: seq<Fields>)
    ensures |now| == 1
  {
    if own == [] || Get(own[0], "chain") != Get(want, "chain") then [want] else [own[0] + want]
  }

  /** The same for a rule that may be invalid. */
  function Upheld(own: seq<Fields>, want: DivertRule, marker: string): seq<Fields>
  {
    if Valid(want) then Ensured(own, DivertFields(want, marker)) else own
  }

  /** The own rules that a tick should leave in the active table. */
  function ActiveAfter(c: Settings, own: seq<Fields>, snap: Snapshot): seq<Fields>
  {
    if !snap.HasUpstream() || !c.Target(snap.Six()).IsValid() then []
    else Upheld(own, c.Want(snap), c.marker)
  }

  /** The tick removes the own rules from the idle table. */
  predicate Tried(snap: Snapshot, last: Option<bool>) { !snap.HasUpstream() || last != Some(snap.Six()) }

  function Tick(c: Settings, s: State, e: Event): State
  {
    var six := e.snap.Active6();
    var tried := Tried(e.snap, s.last);
    var idle := if tried then Leftover(s.Own(!six), e.failsAfter) else s.Own(!six);
    var last := if !e.snap.HasUpstream() then None else if tried && e.failsAfter.None? then Some(six) else s.last;
    var active := e.leaves.GetOr(ActiveAfter(c, s.Own(six), e.snap));
    State([], [], last).With(six, active).With(!six, idle)
  }

  function After(c: Settings, start: State, run: seq<Event>): State
  {
    if run == [] then start else Tick(c, After(c, start, run[..|run| - 1]), run[|run| - 1])
  }

  /** One own rule, which agrees with every wanted field. */
  predicate Holds(own: seq<Fields>, want: Fields) { |own| == 1 && forall k :: k in want ==> Get(own[0], k) == want[k] }

  /** What a tick is for: one rule for the upstream in its family's table and no other own rule. */
  predicate Good(c: Settings, s: State, snap: Snapshot)
  {
    if !snap.HasUpstream() then s.own4 == s.own6 == []
    else
      var six := snap.Six();
      && s.Own(!six) == []
      && if !c.Target(six).IsValid() then s.Own(six) == []
         else Holds(s.Own(six), c.WantFields(snap))
  }

  /** The snapshot asks for a rule that RouterOS can hold, or for none. */
  predicate Proper(c: Settings, snap: Snapshot)
  {
    snap.HasUpstream() && c.Target(snap.Six()).IsValid() ==> Valid(c.Want(snap))
  }

  // ----- what the history tells ------------------------------------------------------------------

  /** The family the hook remembers, from families and failures alone. */
  function Belief(run: seq<Event>): Option<bool>
  {
    if run == [] then None else BeliefAfter(Belief(run[..|run| - 1]), run[|run| - 1])
  }

  function BeliefAfter(before: Option<bool>, e: Event): Option<bool>
  {
    if !e.snap.HasUpstream() then None
    else if before != Some(e.snap.Six()) && e.failsAfter.None? then Some(e.snap.Six())
    else before
  }

  /** Whether the tick ends with an own rule in the active table. */
  predicate Puts(c: Settings, e: Event)
  {
    if e.leaves.Some? then e.leaves.value != [] else c.Target(e.snap.Six()).IsValid()
  }

  /**
   A removal failed after a family change, a rule was put into the table that the hook still
   believes empty, and the removal was not repeated with success since.
   */
  predicate Dirty(c: Settings, run: seq<Event>)
  {
    run != [] && DirtyAfter(c, Dirty(c, run[..|run| - 1]), Belief(run[..|run| - 1]), run[|run| - 1])
  }

  predicate DirtyAfter(c: Settings, dirty: bool, before: Option<bool>, e: Event)
  {
    && e.snap.HasUpstream()
    && if before == Some(e.snap.Six()) then dirty else e.failsAfter.Some? && before.Some? && Puts(c, e)
  }

  ghost predicate AllProper(c: Settings, run: seq<Event>)
  {
    forall i :: 0 <= i < |run| ==> Proper(c, run[i].snap)
  }

  /** The table believed empty holds an own rule exactly when the history is dirty. */
  lemma {:induction false} DirtyIsStale(c: Settings, start: State, run: seq<Event>)
    requires start.last == None && AllProper(c, run)
    ensures After(c, start, run).last == Belief(run)
    ensures Stale(After(c, start, run)) <==> Belief(run).Some? && Dirty(c, run)
  {
    hide Tick, BeliefAfter, DirtyAfter, Proper;
    if run == [] {
    } else {
      var n := |run| - 1;
      assert forall i :: 0 <= i < n ==> run[..n][i] == run[i];
      DirtyIsStale(c, start, run[..n]);
      StaleStep(c, After(c, start, run[..n]), Dirty(c, run[..n]), run[n]);
    }
  }

  /** The table that the hook believes empty is not. */
  predicate Stale(s: State) { s.last.Some? && s.Own(!s.last.value) != [] }

  lemma StaleStep(c: Settings, s: State, dirty: bool, e: Event)
    requires Proper(c, e.snap) && (s.last.Some? ==> (Stale(s) <==> dirty))
    ensures var t := Tick(c, s, e);
      t.last == BeliefAfter(s.last, e) && (t.last.Some? ==> (Stale(t) <==> DirtyAfter(c, dirty, s.last, e)))
  {
    ActiveIsPut(c, s.Own(e.snap.Six()), e);
    hide ActiveAfter, Leftover, Puts, Proper;
  }

  lemma ActiveIsPut(c: Settings, own: seq<Fields>, e: Event)
    requires Proper(c, e.snap)
    ensures e.snap.HasUpstream() ==> (e.leaves.GetOr(ActiveAfter(c, own, e.snap)) != [] <==> Puts(c, e))
    ensures Leftover(own, None) == []
  {
    hide Valid, DivertFields;
  }

  /**
   Exactly when a tick without failing calls does its job: after any run from any tables, with
   any failing calls before it, it leaves the right rules if and only if the history is not dirty.
   */
  lemma TickIsGoodIffClean(c: Settings, start: State, run: seq<Event>)
    requires start.last == None && run != [] && AllProper(c, run) && run[|run| - 1].FaultFree()
    ensures Good(c, After(c, start, run), run[|run| - 1].snap) <==> !Dirty(c, run)
  {
    var n := |run| - 1;
    assert forall i :: 0 <= i < n ==> run[..n][i] == run[i];
    DirtyIsStale(c, start, run[..n]);
    DirtyIsStale(c, start, run);
    assert Proper(c, run[n].snap);
    hide Ensured, DivertFields, Valid, Holds;
    if run[n].snap.HasUpstream() {
      EnsuredHolds(After(c, start, run[..n]).Own(run[n].snap.Six()), c.WantFields(run[n].snap));
    }
  }

  lemma EnsuredHolds(own: seq<Fields>, want: Fields)
    ensures Holds(Ensured(own, want), want)
  {
  }

  /** One tick from any state whatsoever: it does its job unless the table it believes empty is not. */
  lemma TickFromAnyState(c: Settings, s: State, snap: Snapshot)
    requires Proper(c, snap)
    ensures Good(c, Tick(c, s, Event(snap, None, None)), snap)
            <==> (snap.HasUpstream() && s.last == Some(snap.Six()) ==> s.Own(!snap.Six()) == [])
  {
    hide Ensured, DivertFields, Valid, Holds;
    if snap.HasUpstream() {
      EnsuredHolds(s.Own(snap.Six()), c.WantFields(snap));
    }
  }

  /** The removal of event i was tried and failed. */
  predicate Failed(run: seq<Event>, i: nat)
    requires i < |run|
  {
    run[i].snap.HasUpstream() && run[i].failsAfter.Some? && Belief(run[..i]) != Some(run[i].snap.Six())
  }

  /** After a failed removal the family does not change back before a removal succeeded. */
  ghost predicate NoFlipBack(run: seq<Event>)
  {
    forall i :: 0 <= i < |run| - 1 && Failed(run, i) ==>
      run[i + 1].snap.HasUpstream() ==> run[i + 1].snap.Six() == run[i].snap.Six()
  }

  lemma {:induction false} DirtyOnlyWhileFailing(c: Settings, run: seq<Event>)
    requires NoFlipBack(run) && Dirty(c, run)
    ensures Failed(run, |run| - 1)
  {
    var n := |run| - 1;
    var init := run[..n];
    if Belief(init) != Some(run[n].snap.Six()) {
    } else {
      forall i | 0 <= i < n ensures Failed(init, i) == Failed(run, i) { assert init[..i] == run[..i]; }
      DirtyOnlyWhileFailing(c, init);
      FailureKeepsBelief(init);
      assert false;
    }
  }

  lemma FailureKeepsBelief(run: seq<Event>)
    requires run != [] && Failed(run, |run| - 1)
    ensures Belief(run) != Some(run[|run| - 1].snap.Six())
  {
  }

  /**
   With every failed removal retried before the family flips back (in particular without failures),
   every tick whose calls succeed leaves one rule, in the right table, matching the upstream.
   */
  lemma RetriedRunsAreGood(c: Settings, start: State, run: seq<Event>)
    requires start.last == None && run != [] && AllProper(c, run) && NoFlipBack(run)
    requires run[|run| - 1].FaultFree()
    ensures Good(c, After(c, start, run), run[|run| - 1].snap)
  {
    TickIsGoodIffClean(c, start, run);
    if Dirty(c, run) {
      DirtyOnlyWhileFailing(c, run);
      assert false;
    }
  }

  /** Without that condition it is false: the family changes, the removal fails, the family changes back. */
  lemma FlipBackLeavesStaleRule(c: Settings, start: State, x: Snapshot, y: Snapshot, k: nat)
    requires start.last == None && x.HasUpstream() && y.HasUpstream() && x.Six() != y.Six()
    requires Proper(c, x) && Proper(c, y) && c.Target(y.Six()).IsValid()
    ensures !Good(c, After(c, start, [Event(x, None, None), Event(y, Some(k), None), Event(x, None, None)]), x)
  {
    var e1, e2, e3 := Event(x, None, None), Event(y, Some(k), None), Event(x, None, None);
    var run := [e1, e2, e3];
    assert run[..2] == [e1, e2] && [e1, e2][..1] == [e1] && [e1][..0] == [];
    assert Belief([e1]) == Some(x.Six());
    assert Belief([e1, e2]) == Some(x.Six());
    assert Dirty(c, [e1, e2]);
    assert Dirty(c, run);
    TickIsGoodIffClean(c, start, run);
  }

  // ----- the client hook ----------------------------------------------------------------------------

  /** After how many of n rules a removal fails, none if it was not needed or does not fail. */
  function RemovalFailure(needed: bool, faults: seq<Fault>, n: nat): Option<nat>
  {
    if needed && !RemoveWorks(faults, n) then Some(RemoveCount(faults, n)) else None
  }

  /** What a table holds, if not what it should. */
  function Otherwise(own: seq<Fields>, should: seq<Fields>): Option<seq<Fields>>
  {
    if own == should then None else Some(own)
  }

  lemma NothingNeeded(faults: seq<Fault>, n: nat)
    ensures RemovalFailure(false, faults, n) == None
  {
  }

  lemma NothingWanted(c: Settings, own: seq<Fields>, snap: Snapshot)
    ensures !snap.HasUpstream() ==> ActiveAfter(c, own, snap) == []
  {
  }

  lemma QuietRemoval(faults: seq<Fault>, n: nat)
    ensures Quiet(faults, 1 + n) ==> RemoveWorks(faults, n)
  {
    forall i: nat ensures FaultAt(Rest(faults, 1), i) == FaultAt(faults, 1 + i) { RestAt(faults, 1, i); }
  }

  function FieldsOf(rows: seq<Row>): seq<Fields>
  {
    seq(|rows|, i requires 0 <= i < |rows| => rows[i].fields)
  }

  lemma FieldsOfSuffix(rows: seq<Row>, k: nat)
    requires k <= |rows|
    ensures |FieldsOf(rows)| == |rows| && FieldsOf(rows[k..]) == FieldsOf(rows)[k..]
    ensures FieldsOf([]) == []
  {
  }

  /** Every field map was there before, is the wanted one, or is an old one updated in place. */
  ghost predicate FieldsExplained(before: seq<Fields>, after: seq<Fields>, want: Fields)
  {
    forall f :: f in after ==>
      || f in before
      || f == want
      || exists g :: g in before && f == g + want && Get(g, "chain") == Get(want, "chain")
  }

  lemma SuffixExplained(before: seq<Fields>, k: nat, want: Fields)
    requires k <= |before|
    ensures FieldsExplained(before, before[k..], want) && before[0..] == before
  {
  }

  lemma ExplainedFields(before: seq<Row>, after: seq<Row>, marker: string, want: Fields)
    requires Explained(before, after, marker, want, true)
    ensures FieldsExplained(FieldsOf(Own(before, marker)), FieldsOf(Own(after, marker)), want)
  {
    var own, now := Own(before, marker), Own(after, marker);
    forall f | f in FieldsOf(now)
      ensures || f in FieldsOf(own)
              || f == want
              || exists g :: g in FieldsOf(own) && f == g + want && Get(g, "chain") == Get(want, "chain")
    {
      var i :| 0 <= i < |now| && now[i].fields == f;
      var r := now[i];
      assert r in now && r in after;
      if r in before {
        FieldsIn(own, r);
      } else if f != want {
        var o :| o in before && IsOwn(o, marker) && r == Row(o.id, o.fields + want)
                 && ChainOf(o) == Get(want, "chain");
        FieldsIn(own, o);
      }
    }
  }

  lemma FieldsIn(rows: seq<Row>, r: Row)
    requires r in rows
    ensures r.fields in FieldsOf(rows)
  {
    var i :| 0 <= i < |rows| && rows[i] == r;
    assert FieldsOf(rows)[i] == r.fields;
  }

  /** The divert reconcilers of the IPv4 and the IPv6 table for one interface. */
  class Reconcilers46 {
    const marker: string
    const rec: NatReconciler
    const rec6: NatReconciler

    constructor (table: RuleTable, table6: RuleTable, iface: string)
      requires table != table6 && WellFormed(table.t) && WellFormed(table6.t)
      ensures Valid() && fresh(rec) && fresh(rec6) && marker == DivertMarker(iface)
      ensures Table(false) == table && Table(true) == table6
    {
      marker := DivertMarker(iface);
      rec := new NatReconciler(table, iface);
      rec6 := new NatReconciler(table6, iface);
    }

    function For(six: bool): NatReconciler { if six then rec6 else rec }

    function Table(six: bool): RuleTable { For(six).rec.table }

    ghost predicate Valid()
      reads Table(false), Table(true)
    {
      && rec.Ready() && rec6.Ready() && rec.rec.marker == rec6.rec.marker == marker && marker != ""
      && Table(false) != Table(true)
      && WellFormed(Table(false).t) && WellFormed(Table(true).t)
    }

    ghost function OwnFields(six: bool): seq<Fields>
      reads Table(six)
    {
      FieldsOf(Own(Table(six).t.rows, marker))
    }

    ghost function ForeignRows(six: bool): seq<Row>
      reads Table(six)
    {
      Foreign(Table(six).t.rows, marker)
    }

    method Remove(six: bool) returns (ok: bool)
      requires Valid()
      modifies Table(six)
      ensures Valid() && ForeignRows(six) == old(ForeignRows(six))
      ensures var own, faults := old(OwnFields(six)), old(Table(six).faults);
              && OwnFields(six) == own[RemoveCount(faults, |own|)..]
              && ok == RemoveWorks(faults, |own|) && (ok ==> OwnFields(six) == [])
              && OwnFields(six) == Leftover(own, RemovalFailure(true, faults, |own|))
              && ok == RemovalFailure(true, faults, |own|).None? && (Quiet(faults, 1 + |own|) ==> ok)
    {
      hide Own, Foreign, WellFormed, FieldsOf, RemoveCount, RemoveWorks, Quiet;
      var rec := For(six).rec;
      ghost var rows := Own(rec.table.t.rows, marker);
      ghost var k := RemoveCount(rec.table.faults, |rows|);
      ok := rec.Remove();
      FieldsOfSuffix(rows, k);
      QuietRemoval(old(rec.table.faults), |rows|);
    }

    /** The calls of an undisturbed Ensure. */
    ghost function CallsFor(six: bool, want: DivertRule): nat
      reads Table(six)
    {
      EnsureCalls(Own(Table(six).t.rows, marker), DivertFields(want, marker), true)
    }

    method Ensure(six: bool, want: DivertRule) returns (ok: bool)
      requires Valid()
      modifies Table(six)
      ensures Valid() && ForeignRows(six) == old(ForeignRows(six))
      ensures !NatRules.Valid(want) ==> OwnFields(six) == old(OwnFields(six))
      ensures Quiet(old(Table(six).faults), old(CallsFor(six, want))) ==>
                OwnFields(six) == Upheld(old(OwnFields(six)), want, marker)
      ensures NatRules.Valid(want) ==>
                var after := Outcome(old(Table(six).t), marker, DivertFields(want, marker), true,
                    old(Table(six).faults)).0;
                && OwnFields(six) == FieldsOf(Own(after.rows, marker))
                && FieldsExplained(old(OwnFields(six)), OwnFields(six), DivertFields(want, marker))
    {
      hide Own, Foreign, WellFormed, NatRules.Valid, Converged, DivertFields, Ensured, Outcome, Explained, Settled,
          LeavesOne, Quiet, EnsureCalls;
      ghost var t := Table(six).t;
      ok := For(six).Ensure(want);
      if NatRules.Valid(want) {
        ExplainedFields(t.rows, Table(six).t.rows, marker, DivertFields(want, marker));
        EnsureView(t, marker, want);
      }
    }
  }

  class ClientDivertHook {
    const settings: Settings
    const recs: Reconcilers46
    var lastIs6: Option<bool>

    /** The hook is only installed when container_addr parses. */
    constructor (recs: Reconcilers46, container: Addr, container6: Addr, toPort: int)
      requires recs.Valid() && container.IsValid()
      ensures Valid() && this.recs == recs && lastIs6 == None
      ensures settings == Settings(recs.marker, container, container6, toPort)
    {
      settings := Settings(recs.marker, container, container6, toPort);
      this.recs := recs;
      lastIs6 := None;
    }

    ghost predicate Valid()
      reads recs.Table(false), recs.Table(true)
    {
      recs.Valid() && settings.marker == recs.marker
    }

    ghost function View(): State
      reads this, recs.Table(false), recs.Table(true)
    {
      State(recs.OwnFields(false), recs.OwnFields(true), lastIs6)
    }

    /** The calls of an undisturbed tick on the active table. */
    ghost function ActiveCalls(snap: Snapshot): nat
      reads this, recs.Table(false), recs.Table(true)
    {
      if !snap.HasUpstream() || !settings.Target(snap.Six()).IsValid() then 1 + |recs.OwnFields(snap.Active6())|
      else recs.CallsFor(snap.Six(), settings.Want(snap))
    }

    /**
     One tick, with any failures: the own rules and the remembered family are as `Tick` says for
     what the failing calls left behind. Faults that no call of the tick meets do not matter.
     Foreign rules stay as they are in both tables.
     */
    method OnTick(snap: Snapshot) returns (ghost e: Event)
      requires Valid()
      modifies this`lastIs6, recs.Table(false), recs.Table(true)
      ensures Valid()
      ensures e.snap == snap && View() == Tick(settings, old(View()), e)
      ensures var six := snap.Active6();
              && e.failsAfter == RemovalFailure(old(Tried(snap, lastIs6)), old(recs.Table(!six).faults),
                                     |old(recs.OwnFields(!six))|)
              && e.leaves == Otherwise(recs.OwnFields(six), ActiveAfter(settings, old(recs.OwnFields(six)), snap))
      ensures Quiet(old(recs.Table(snap.Active6()).faults), old(ActiveCalls(snap))) ==> e.leaves.None?
      ensures e.leaves.Some? && snap.HasUpstream() ==>
                FieldsExplained(old(recs.OwnFields(snap.Six())), e.leaves.value, settings.WantFields(snap))
      ensures recs.ForeignRows(false) == old(recs.ForeignRows(false))
          && recs.ForeignRows(true) == old(recs.ForeignRows(true))
    {
      assert recs.Table(false) != recs.Table(true);
      hide Own, Foreign, WellFormed, ActiveAfter, DivertFields, FieldsExplained, FieldsOf, RemoveCount, RemoveWorks,
          RemovalFailure;
      hide Reconcilers46.Valid, Reconcilers46.OwnFields, Reconcilers46.ForeignRows, Quiet, Leftover;
      ghost var should := ActiveAfter(settings, recs.OwnFields(snap.Active6()), snap);
      NothingWanted(settings, recs.OwnFields(true), snap);
      ghost var fails: Option<nat> := None;
      if !snap.HasUpstream() {
        fails := RemovalFailure(true, recs.Table(false).faults, |recs.OwnFields(false)|);
        var removed4 := recs.Remove(false);
        var removed6 := recs.Remove(true);
        lastIs6 := None;
        e := Event(snap, fails, Otherwise(recs.OwnFields(true), should));
        return;
      }
      var is6 := snap.upstream.value.addr.Is6();
      NothingNeeded(recs.Table(!is6).faults, |recs.OwnFields(!is6)|);
      if lastIs6 == None || lastIs6 != Some(is6) {
        fails := RemovalFailure(true, recs.Table(!is6).faults, |recs.OwnFields(!is6)|);
        var removed := recs.Remove(!is6);
        if removed {
          lastIs6 := Some(is6);
        }
      }
      Activate(snap);
      e := Event(snap, fails, Otherwise(recs.OwnFields(is6), should));
    }

    /** The part of a tick that concerns the table of the upstream's family. */
    method Activate(snap: Snapshot)
      requires Valid() && snap.HasUpstream()
      modifies recs.Table(snap.Six())
      ensures Valid() && recs.ForeignRows(snap.Six()) == old(recs.ForeignRows(snap.Six()))
      ensures var own, now := old(recs.OwnFields(snap.Six())), recs.OwnFields(snap.Six());
              && (Quiet(old(recs.Table(snap.Six()).faults), old(ActiveCalls(snap))) ==>
                    now == ActiveAfter(settings, own, snap))
              && FieldsExplained(own, now, settings.WantFields(snap))
    {
      hide Own, Foreign, WellFormed, NatRules.Valid, DivertFields, Ensured, FieldsExplained, FieldsOf, Outcome;
      hide RemoveCount, RemoveWorks, EnsureCalls, Quiet;
      var is6 := snap.Six();
      var to := if is6 then settings.container6 else settings.container;
      ghost var own := recs.OwnFields(is6);
      if !to.IsValid() {
        ghost var k := RemoveCount(recs.Table(is6).faults, |own|);
        var _ := recs.Remove(is6);
        SuffixExplained(own, k, settings.WantFields(snap));
      } else {
        var want := DivertRule(OUTPUT, snap.wgListenPort, snap.upstream.value.addr, snap.upstream.value.port, to,
            settings.toPort);
        SuffixExplained(own, 0, settings.WantFields(snap));
        var _ := recs.Ensure(is6, want);
      }
    }
  }

  // ----- the server hook ----------------------------------------------------------------------------

  /** The rules that the server keeps up, the IPv6 one only if its address is valid. */
  datatype ServerSettings = ServerSettings(marker: string, want: DivertRule, want6: DivertRule)
  {
    predicate UsesSix() { want6.toAddress.IsValid() }

    /** Both rules are such that RouterOS can hold them. */
    predicate Proper() { Valid(want) && (UsesSix() ==> Valid(want6)) }
  }

  /** The settings that the server hook makes of two container addresses and two ports. */
  function ServerRules(marker: string, container: Addr, container6: Addr, dstPort: int, toPort: int): ServerSettings
  {
    var want := DivertRule(DSTNAT, 0, NoAddr, dstPort, container, toPort);
    ServerSettings(marker, want, want.(toAddress := container6))
  }

  datatype ServerState = ServerState(own4: seq<Fields>, own6: seq<Fields>, cleaned6: bool)

  /**
   What goes wrong in a tick: which own rules failing calls leave in a table if not those that an
   Ensure should, and after how many rules a removal that the IPv6 table needed fails.
   */
  datatype ServerEvent = ServerEvent(leaves4: Option<seq<Fields>>, leaves6: Option<seq<Fields>>,
      failsAfter: Option<nat>)
  {
    predicate FaultFree() { leaves4.None? && leaves6.None? && failsAfter.None? }
  }

  function ServerTick(c: ServerSettings, s: ServerState, e: ServerEvent): ServerState
  {
    var own4 := e.leaves4.GetOr(Upheld(s.own4, c.want, c.marker));
    if c.UsesSix() then ServerState(own4, e.leaves6.GetOr(Upheld(s.own6, c.want6, c.marker)), s.cleaned6)
    else if s.cleaned6 then s.(own4 := own4)
    else ServerState(own4, Leftover(s.own6, e.failsAfter), e.failsAfter.None?)
  }

  function ServerAfter(c: ServerSettings, start: ServerState, run: seq<ServerEvent>): ServerState
  {
    if run == [] then start else ServerTick(c, ServerAfter(c, start, run[..|run| - 1]), run[|run| - 1])
  }

  predicate ServerGood(c: ServerSettings, s: ServerState)
  {
    && Holds(s.own4, DivertFields(c.want, c.marker))
    && if c.UsesSix() then Holds(s.own6, DivertFields(c.want6, c.marker)) else s.own6 == []
  }

  /** A table that the hook has cleaned has no own rules. */
  predicate Tidy(c: ServerSettings, s: ServerState) { s.cleaned6 && !c.UsesSix() ==> s.own6 == [] }

  /** One fault-free tick from any state does its job exactly when the state is tidy. */
  lemma ServerTickIsGoodIffTidy(c: ServerSettings, s: ServerState, e: ServerEvent)
    requires c.Proper() && e.FaultFree()
    ensures ServerGood(c, ServerTick(c, s, e)) <==> Tidy(c, s)
  {
    hide Ensured, DivertFields, Valid, Holds;
    EnsuredHolds(s.own4, DivertFields(c.want, c.marker));
    EnsuredHolds(s.own6, DivertFields(c.want6, c.marker));
  }

  /**
   Without an IPv6 address, over all runs and whatever fails: the hook takes the IPv6 table for
   cleaned exactly if some removal did not fail, and then it is empty and stays so.
   */
  lemma {:induction false} CleanedIff(c: ServerSettings, start: ServerState, run: seq<ServerEvent>)
    requires !c.UsesSix() && !start.cleaned6
    ensures ServerAfter(c, start, run).cleaned6 <==> exists i :: 0 <= i < |run| && run[i].failsAfter.None?
    ensures ServerAfter(c, start, run).cleaned6 ==> ServerAfter(c, start, run).own6 == []
  {
    hide Upheld;
    if run == [] {
    } else {
      var n := |run| - 1;
      CleanedIff(c, start, run[..n]);
      assert forall i :: 0 <= i < n ==> run[..n][i] == run[i];
    }
  }

  /**
   After any run from any tables, with any failing calls before it, a tick whose calls succeed
   leaves the right rules: unlike the client's hook, the server's never stays wrong.
   */
  lemma ServerRunsAreGood(c: ServerSettings, start: ServerState, run: seq<ServerEvent>)
    requires c.Proper() && !start.cleaned6 && run != [] && run[|run| - 1].FaultFree()
    ensures ServerGood(c, ServerAfter(c, start, run))
  {
    var n := |run| - 1;
    if !c.UsesSix() {
      CleanedIff(c, start, run[..n]);
    }
    ServerTickIsGoodIffTidy(c, ServerAfter(c, start, run[..n]), run[n]);
  }

  class ServerDivertHook {
    const recs: Reconcilers46
    const settings: ServerSettings
    var cleaned6: bool

    constructor (recs: Reconcilers46, container: Addr, container6: Addr, dstPort: int, toPort: int)
      requires recs.Valid() && container.IsValid()
      ensures Valid() && this.recs == recs && !cleaned6
      ensures settings == ServerRules(recs.marker, container, container6, dstPort, toPort)
    {
      this.recs := recs;
      settings := ServerRules(recs.marker, container, container6, dstPort, toPort);
      cleaned6 := false;
    }

    ghost predicate Valid()
      reads recs.Table(false), recs.Table(true)
    {
      recs.Valid() && settings.marker == recs.marker
    }

    ghost function View(): ServerState
      reads this, recs.Table(false), recs.Table(true)
    {
      ServerState(recs.OwnFields(false), recs.OwnFields(true), cleaned6)
    }

    /**
     One tick, with any failures: the rule in both tables when there is an IPv6 container address,
     else in the IPv4 table only, the IPv6 table being cleaned until that succeeded once.
     */
    method OnTick() returns (ghost e: ServerEvent)
      requires Valid()
      modifies this`cleaned6, recs.Table(false), recs.Table(true)
      ensures Valid() && View() == ServerTick(settings, old(View()), e)
      ensures e.leaves4 ==
                Otherwise(recs.OwnFields(false), Upheld(old(recs.OwnFields(false)), settings.want, recs.marker))
      ensures Quiet(old(recs.Table(false).faults), old(recs.CallsFor(false, settings.want))) ==> e.leaves4.None?
      ensures e.leaves6 == if !settings.UsesSix() then None else
                Otherwise(recs.OwnFields(true), Upheld(old(recs.OwnFields(true)), settings.want6, recs.marker))
      ensures Quiet(old(recs.Table(true).faults), old(recs.CallsFor(true, settings.want6))) ==> e.leaves6.None?
      ensures e.failsAfter == RemovalFailure(!settings.UsesSix() && !old(cleaned6), old(recs.Table(true).faults),
                |old(recs.OwnFields(true))|)
      ensures e.leaves4.Some? ==> FieldsExplained(old(recs.OwnFields(false)), e.leaves4.value,
                DivertFields(settings.want, recs.marker))
      ensures e.leaves6.Some? ==> FieldsExplained(old(recs.OwnFields(true)), e.leaves6.value,
                DivertFields(settings.want6, recs.marker))
      ensures recs.ForeignRows(false) == old(recs.ForeignRows(false))
          && recs.ForeignRows(true) == old(recs.ForeignRows(true))
    {
      assert recs.Table(false) != recs.Table(true);
      hide Own, Foreign, WellFormed, Upheld, DivertFields, FieldsExplained, FieldsOf, RemoveCount, RemoveWorks, Quiet;
      hide Reconcilers46.Valid, Reconcilers46.OwnFields, Reconcilers46.ForeignRows, Reconcilers46.CallsFor;
      hide NatRules.Valid, Outcome;
      ghost var own6, fails: Option<nat> := recs.OwnFields(true), None;
      ghost var should4 := Upheld(recs.OwnFields(false), settings.want, recs.marker);
      ghost var should6 := Upheld(own6, settings.want6, recs.marker);
      InvalidIsKept(recs.OwnFields(false), settings.want, recs.marker);
      InvalidIsKept(own6, settings.want6, recs.marker);
      var _ := recs.Ensure(false, settings.want);
      e := ServerEvent(Otherwise(recs.OwnFields(false), should4), None, None);
      if settings.want6.toAddress.IsValid() {
        var _ := recs.Ensure(true, settings.want6);
        e := e.(leaves6 := Otherwise(recs.OwnFields(true), should6));
      } else if !cleaned6 {
        e := e.(failsAfter := RemovalFailure(true, recs.Table(true).faults, |own6|));
        var removed := recs.Remove(true);
        if !removed { return; }
        cleaned6 := true;
      }
    }
  }

  /** For a rule that is not valid the reconciler makes no call. */
  lemma InvalidIsKept(own: seq<Fields>, want: DivertRule, marker: string)
    ensures !Valid(want) ==> Upheld(own, want, marker) == own
  {
  }

  lemma EnsureView(t: Table, marker: string, want: DivertRule)
    requires WellFormed(t) && Valid(want) && marker != ""
    ensures FieldsOf(Own(Converged(t, marker, DivertFields(want, marker), true).rows, marker))
            == Ensured(FieldsOf(Own(t.rows, marker)), DivertFields(want, marker))
  {
    hide Own, Converged, DivertFields;
    DivertWanted(want, marker);
    ConvergedSettles(t, marker, DivertFields(want, marker), true, DIVERT_KEYS);
  }
}
