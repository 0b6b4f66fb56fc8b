/**
 The NAT reconcilers (internal/router/nat.go) against a router that may fail at any call.
 `Converged` is where one fault-free Ensure takes a table; the lemmas beside it say why that is
 the right place.
 */
module Reconcilers {
  import opened NatRules
  import opened RuleLemmas
  import opened Sequences

  // ----- the place where Ensure ends ------------------------------------------------

  function Added(t: Table, fields: Fields): Table { Table(t.rows + [Row(t.next, fields)], t.next + 1) }

  function ChainOf(r: Row): string { Get(r.fields, "chain") }

  /** One fault-free Ensure; `rebuild` tells whether a rule of another chain is replaced, not updated. */
  function Converged(t: Table, marker: string, want: Fields, rebuild: bool): Table
    requires "chain" in want
  {
    var own := Own(t.rows, marker);
    if own == [] then Added(t, want)
    else if rebuild && ChainOf(own[0]) != want["chain"] then Added(Table(Drop(t.rows, Ids(own)), t.next), want)
    else Table(Update(Drop(t.rows, Ids(own[1..])), own[0].id, want), t.next)
  }

  predicate Agrees(r: Row, want: Fields) { forall k :: k in want ==> Get(r.fields, k) == want[k] }

  /** Exactly one own rule, and it agrees with every wanted field. */
  predicate Settled(rows: seq<Row>, marker: string, want: Fields)
  {
    var own := Own(rows, marker);
    |own| == 1 && Agrees(own[0], want)
  }

  lemma FirstOwnStays(t: Table, marker: string)
    requires WellFormed(t) && Own(t.rows, marker) != []
    ensures var own := Own(t.rows, marker); Own(Drop(t.rows, Ids(own[1..])), marker) == [own[0]]
    ensures var own := Own(t.rows, marker); Own(Drop(t.rows, Ids(own)), marker) == []
  {
    var own := Own(t.rows, marker);
    OwnDistinct(t.rows, marker);
    OwnDrop(t.rows, Ids(own[1..]), marker);
    OwnDrop(t.rows, Ids(own), marker);
    assert forall r :: r in own[1..] ==> r.id != own[0].id;
    DropAllBut(own, 1);
    DropAllBut(own, 0);
    assert own[..1] == [own[0]] && own[0..] == own;
  }

  lemma DropAllBut(rows: seq<Row>, n: nat)
    requires Distinct(rows) && n <= |rows|
    ensures Drop(rows, Ids(rows[n..])) == rows[..n]
  {
    assert rows == rows[..n] + rows[n..];
    DropConcat(rows[..n], rows[n..], Ids(rows[n..]));
    DropNone(rows[..n], Ids(rows[n..]));
    DropEvery(rows[n..], Ids(rows[n..]));
  }

  lemma DropCons(h: Row, t: seq<Row>, ids: set<nat>)
    ensures Drop([h] + t, ids) == if h.id in ids then Drop(t, ids) else [h] + Drop(t, ids)
  {
    Cons(h, t);
  }

  lemma {:induction false} DropConcat(a: seq<Row>, b: seq<Row>, ids: set<nat>)
    ensures Drop(a + b, ids) == Drop(a, ids) + Drop(b, ids)
  {
    assert Drop([], ids) == [];
    hide Drop;
    if a == [] {
      assert a + b == b;
    } else {
      var h, t := a[0], a[1..];
      assert a + b == [h] + (t + b) && a == [h] + t;
      DropCons(h, t + b, ids);
      DropConcat(t, b, ids);
      Assoc([h], Drop(t, ids), Drop(b, ids));
      DropCons(h, t, ids);
    }
  }

  lemma {:induction false} DropEvery(rows: seq<Row>, ids: set<nat>)
    requires forall r :: r in rows ==> r.id in ids
    ensures Drop(rows, ids) == []
  {
    if rows == [] {
    } else {
      DropEvery(rows[1..], ids);
    }
  }

  lemma AddSettles(t: Table, marker: string, want: Fields)
    requires WellFormed(t) && Own(t.rows, marker) == [] && Get(want, "comment") == marker
    ensures WellFormed(Added(t, want))
    ensures Own(Added(t, want).rows, marker) == [Row(t.next, want)]
    ensures Foreign(Added(t, want).rows, marker) == Foreign(t.rows, marker)
  {
    hide Own, Foreign;
    OwnAppend(t.rows, Row(t.next, want), marker);
  }

  lemma DropKeeps(t: Table, ids: set<nat>, marker: string)
    requires WellFormed(t) && ids <= Ids(Own(t.rows, marker))
    ensures WellFormed(Table(Drop(t.rows, ids), t.next))
    ensures Foreign(Drop(t.rows, ids), marker) == Foreign(t.rows, marker)
  {
    hide Own, Foreign;
    DropDistinct(t.rows, ids);
    ForeignKept(t.rows, ids, marker);
    forall i | 0 <= i < |Drop(t.rows, ids)| ensures Drop(t.rows, ids)[i].id < t.next {
      assert Drop(t.rows, ids)[i] in t.rows;
    }
  }

  lemma UpdateSettles(t: Table, o: Row, marker: string, diff: Fields)
    requires WellFormed(t) && Own(t.rows, marker) == [o]
    requires "comment" in diff ==> diff["comment"] == marker
    ensures WellFormed(Table(Update(t.rows, o.id, diff), t.next))
    ensures Own(Update(t.rows, o.id, diff), marker) == [Row(o.id, o.fields + diff)]
    ensures Foreign(Update(t.rows, o.id, diff), marker) == Foreign(t.rows, marker)
  {
    hide Own, Foreign;
    assert o in Own(t.rows, marker);
    ForeignKeptByUpdate(t.rows, o, diff, marker);
  }

  /** From any table, however many own rules it has, Ensure ends with exactly the wanted one. */
  lemma ConvergedSettles(t: Table, marker: string, want: Fields, rebuild: bool, keys: set<string>)
    requires WellFormed(t) && Wanted(want, marker, keys)
    ensures var c := Converged(t, marker, want, rebuild);
      WellFormed(c) && Settled(c.rows, marker, want) && Foreign(c.rows, marker) == Foreign(t.rows, marker)
    ensures var (own, now) := (Own(t.rows, marker), Own(Converged(t, marker, want, rebuild).rows, marker));
      if own != [] && (rebuild ==> ChainOf(own[0]) == want["chain"])
      then now == [Row(own[0].id, own[0].fields + want)]
      else now == [Row(t.next, want)]
  {
    hide Own, Foreign, Drop, Update, WellFormed, Added;
    var own := Own(t.rows, marker);
    if own == [] {
      AddSettles(t, marker, want);
    } else {
      FirstOwnStays(t, marker);
      if rebuild && ChainOf(own[0]) != want["chain"] {
        DropKeeps(t, Ids(own), marker);
        AddSettles(Table(Drop(t.rows, Ids(own)), t.next), marker, want);
      } else {
        assert Ids(own[1..]) <= Ids(own);
        DropKeeps(t, Ids(own[1..]), marker);
        UpdateSettles(Table(Drop(t.rows, Ids(own[1..])), t.next), own[0], marker, want);
      }
    }
  }

  /** A second Ensure changes nothing. */
  lemma ConvergedIsStable(t: Table, marker: string, want: Fields, rebuild: bool, keys: set<string>)
    requires WellFormed(t) && Wanted(want, marker, keys)
    ensures var c := Converged(t, marker, want, rebuild); Converged(c, marker, want, rebuild) == c
  {
    hide Own, Foreign, Drop, Update, WellFormed, Added, Converged, Settled;
    ConvergedSettles(t, marker, want, rebuild, keys);
    SettledIsStable(Converged(t, marker, want, rebuild), marker, want, rebuild, keys);
  }

  lemma SettledIsStable(t: Table, marker: string, want: Fields, rebuild: bool, keys: set<string>)
    requires WellFormed(t) && Wanted(want, marker, keys) && Settled(t.rows, marker, want)
    ensures Converged(t, marker, want, rebuild) == t
  {
    hide Own, Foreign, Drop, Update;
    var own := Own(t.rows, marker);
    assert own[1..] == [] && Ids(own[1..]) == {};
    DropNone(t.rows, {});
    assert own[0].fields + want == own[0].fields by {
      assert forall k :: k in want ==> k in own[0].fields && own[0].fields[k] == want[k];
    }
    forall r | r in t.rows && r.id == own[0].id ensures r == own[0] {
      assert own[0] in own;
      SameId(t.rows, r, own[0]);
    }
    UpdateNone(t.rows, own[0].id, want);
  }

  // ----- the fallible API -------------------------------------------------------------

  /**
   What can happen to one API call. The dialer sends a failed command once more, so a request can
   be lost, executed with its reply lost, executed, or executed twice.
   */
  datatype Fault = LostRequest | LostReply | Healthy | Doubled(replied: bool)

  /** The i-th coming fault, and the script after k calls; when the script is used up, calls are healthy. */
  function FaultAt(faults: seq<Fault>, i: nat): Fault { if i < |faults| then faults[i] else Healthy }

  function Rest(faults: seq<Fault>, k: nat): seq<Fault> { if k <= |faults| then faults[k..] else [] }

  predicate Replied(f: Fault) { f == Healthy || f == Doubled(true) }

  /** Nothing goes wrong in the next n calls. */
  predicate Quiet(faults: seq<Fault>, n: nat) { forall i: nat :: i < n ==> FaultAt(faults, i) == Healthy }

  function AfterAdd(t: Table, fields: Fields, f: Fault): Table
  {
    if f == LostRequest then t else if f.Doubled? then Added(Added(t, fields), fields) else Added(t, fields)
  }

  function AfterSet(t: Table, id: nat, diff: Fields, f: Fault): Table
  {
    if f == LostRequest then t else Table(Update(t.rows, id, diff), t.next)
  }

  function AfterRemove(t: Table, id: nat, f: Fault): Table
  {
    if f == LostRequest then t else Table(Drop(t.rows, {id}), t.next)
  }

  /** One rule table of the router, reached through calls that fail as `faults` says. */
  class RuleTable {
    var t: Table
    var faults: seq<Fault>  // outcomes of the coming calls; when used up, calls are healthy
    var mutations: nat      // add, set and remove calls sent so far

    method Next() returns (f: Fault)
      modifies this`faults
      ensures f == FaultAt(old(faults), 0) && faults == Rest(old(faults), 1)
    {
      f := Healthy;
      if faults != [] {
        f, faults := faults[0], faults[1..];
      }
    }

    method Print() returns (ok: bool, rows: seq<Row>)
      modifies this`faults
      ensures ok == Replied(FaultAt(old(faults), 0)) && faults == Rest(old(faults), 1)
      ensures ok ==> rows == t.rows
    {
      var f := Next();
      ok, rows := Replied(f), t.rows;
    }

    method Add(fields: Fields) returns (ok: bool)
      modifies this
      ensures t == AfterAdd(old(t), fields, FaultAt(old(faults), 0))
      ensures ok == Replied(FaultAt(old(faults), 0)) && faults == Rest(old(faults), 1)
      ensures mutations == old(mutations) + 1
    {
      var f := Next();
      mutations := mutations + 1;
      if f != LostRequest { t := Added(t, fields); }
      if f.Doubled? { t := Added(t, fields); }
      ok := Replied(f);
    }

    method Set(id: nat, diff: Fields) returns (ok: bool)
      modifies this
      ensures faults == Rest(old(faults), 1)
      ensures if id in Ids(old(t.rows))
              then t == AfterSet(old(t), id, diff, FaultAt(old(faults), 0)) && ok == Replied(FaultAt(old(faults), 0))
              else t == old(t) && !ok
      ensures mutations == old(mutations) + 1
    {
      var f := Next();
      mutations := mutations + 1;
      if id !in Ids(t.rows) { return false; }
      if f != LostRequest { t := Table(Update(t.rows, id, diff), t.next); }
      ok := Replied(f);
    }

    /** A second remove finds no rule, so a doubled one reports an error. */
    method Remove(id: nat) returns (ok: bool)
      modifies this
      ensures faults == Rest(old(faults), 1)
      ensures id in Ids(old(t.rows)) ==>
                t == AfterRemove(old(t), id, FaultAt(old(faults), 0)) && ok == (FaultAt(old(faults), 0) == Healthy)
      ensures id !in Ids(old(t.rows)) ==> t == old(t) && !ok
      ensures mutations == old(mutations) + 1
    {
      var f := Next();
      mutations := mutations + 1;
      if id !in Ids(t.rows) { return false; }
      if f != LostRequest { t := Table(Drop(t.rows, {id}), t.next); }
      ok := f == Healthy;
    }
  }

  // ----- what Ensure does under a script of faults ----------------------------------------------

  /** Ids of the duplicates that are gone after the removals of cur[1..i], which consume the first faults. */
  function Gone(cur: seq<Row>, faults: seq<Fault>, i: nat): set<nat>
    requires 1 <= i <= |cur|
  {
    if i == 1 then {}
    else Gone(cur, faults, i - 1) + if FaultAt(faults, i - 2) == LostRequest then {} else {cur[i - 1].id}
  }

  /** The rules that `list` found, at least one. */
  predicate Listed(t: Table, marker: string, cur: seq<Row>)
  {
    WellFormed(t) && cur == Own(t.rows, marker) && cur != []
  }

  function Deduplicated(t: Table, cur: seq<Row>, faults: seq<Fault>, i: nat): Table
    requires 1 <= i <= |cur|
  {
    Table(Drop(t.rows, Gone(cur, faults, i)), t.next)
  }

  function RebuildOutcome(t: Table, existing: Row, want: Fields, faults: seq<Fault>): (Table, bool)
  {
    var bare := AfterRemove(t, existing.id, FaultAt(faults, 0));
    if FaultAt(faults, 0) != Healthy then (bare, false)
    else (AfterAdd(bare, want, FaultAt(faults, 1)), Replied(FaultAt(faults, 1)))
  }

  function AdjustOutcome(t: Table, existing: Row, want: Fields, faults: seq<Fault>): (Table, bool)
  {
    if Diff(existing.fields, want) == map[] then (t, true)
    else (AfterSet(t, existing.id, want, FaultAt(faults, 0)), Replied(FaultAt(faults, 0)))
  }

  predicate Moves(existing: Row, want: Fields, rebuild: bool) { rebuild && ChainOf(existing) != Get(want, "chain") }

  /** The table that Ensure leaves, and whether it reports success. */
  function Outcome(t: Table, marker: string, want: Fields, rebuild: bool, faults: seq<Fault>): (Table, bool)
  {
    if !Replied(FaultAt(faults, 0)) then (t, false)
    else
      var own, rest := Own(t.rows, marker), Rest(faults, 1);
      if own == [] then (AfterAdd(t, want, FaultAt(rest, 0)), Replied(FaultAt(rest, 0)))
      else
        var single := Deduplicated(t, own, rest, |own|);
        var later := Rest(rest, |own| - 1);
        if Moves(own[0], want, rebuild) then RebuildOutcome(single, own[0], want, later)
        else AdjustOutcome(single, own[0], want, later)
  }

  /** How many calls an Ensure makes on a table with these own rules when nothing goes wrong. */
  function EnsureCalls(own: seq<Row>, want: Fields, rebuild: bool): nat
  {
    if own == [] then 2
    else |own| + if Moves(own[0], want, rebuild) then 2 else if Diff(own[0].fields, want) == map[] then 0 else 1
  }

  /** How many of n rules go when they are removed one by one until a call fails. */
  function RemovedBy(faults: seq<Fault>, n: nat): (k: nat)
    ensures k <= n && (k < n ==> !Quiet(faults, n))
  {
    if n == 0 then 0
    else if FaultAt(faults, 0) == Healthy then
      assert forall i: nat :: FaultAt(Rest(faults, 1), i) == FaultAt(faults, i + 1);
      1 + RemovedBy(Rest(faults, 1), n - 1)
    else if FaultAt(faults, 0) == LostRequest then 0
    else 1
  }

  /** How many own rules Remove takes away. */
  function RemoveCount(faults: seq<Fault>, n: nat): (k: nat)
    ensures k <= n
  {
    if Replied(FaultAt(faults, 0)) then RemovedBy(Rest(faults, 1), n) else 0
  }

  /** Whether Remove reports success. */
  predicate RemoveWorks(faults: seq<Fault>, n: nat) { Replied(FaultAt(faults, 0)) && Quiet(Rest(faults, 1), n) }

  // ----- the reconcilers -----------------------------------------------------------------

  /** diffFields: read the comparable fields of the rule, keep the wanted ones that differ. */
  method DiffFields(got: Row, want: Fields, keys: set<string>) returns (diff: Fields)
    requires want.Keys <= keys
    ensures diff == Diff(got.fields, want)
  {
    var cur := map k | k in keys :: Get(got.fields, k);
    diff := map[];
    var todo := want.Keys;
    while todo != {}
      invariant todo <= want.Keys
      invariant diff == map k | k in want.Keys - todo && Get(got.fields, k) != want[k] :: want[k]
    {
      var k :| k in todo;
      if cur[k] != want[k] { diff := diff[k := want[k]]; }
      todo := todo - {k};
    }
  }

  /**
   Where the rules of a table may come from after an Ensure that any faults may have disturbed:
   they were there before, or they are the wanted rule, or an own rule was updated in place.
   */
  ghost predicate Explained(before: seq<Row>, after: seq<Row>, marker: string, want: Fields, rebuild: bool)
  {
    forall r :: r in after ==>
      || r in before
      || r.fields == want
      || exists o :: o in before && IsOwn(o, marker) && r == Row(o.id, o.fields + want)
                     && (rebuild ==> ChainOf(o) == Get(want, "chain"))
  }

  lemma OwnNext(rows: seq<Row>, i: nat, marker: string)
    requires i < |rows|
    ensures Own(rows[..i + 1], marker) == Own(rows[..i], marker) + if IsOwn(rows[i], marker) then [rows[i]] else []
  {
    hide Own, Foreign, IsOwn;
    OwnAppend(rows[..i], rows[i], marker);
    assert rows[..i + 1] == rows[..i] + [rows[i]];
  }

  /** The filter loop of `list`. */
  method Select(rows: seq<Row>, marker: string) returns (ours: seq<Row>)
    ensures ours == Own(rows, marker)
  {
    assert Own([], marker) == [];
    hide Own;
    ours := [];
    for i := 0 to |rows|
      invariant ours == Own(rows[..i], marker)
    {
      OwnNext(rows, i, marker);
      if Get(rows[i].fields, "comment") == marker {
        ours := ours + [rows[i]];
      }
    }
    assert rows[..|rows|] == rows;
  }

  /** What NatReconciler and MasqueradeReconciler share. */
  class Reconciler {
    const table: RuleTable
    const marker: string
    const keys: set<string>
    const rebuild: bool

    constructor (table: RuleTable, marker: string, keys: set<string>, rebuild: bool)
      ensures this.table == table && this.marker == marker && this.keys == keys && this.rebuild == rebuild
    {
      this.table, this.marker, this.keys, this.rebuild := table, marker, keys, rebuild;
    }

    method List() returns (ok: bool, ours: seq<Row>)
      modifies table`faults
      ensures ok == Replied(FaultAt(old(table.faults), 0)) && table.faults == Rest(old(table.faults), 1)
      ensures ok ==> ours == Own(table.t.rows, marker)
    {
      var rows;
      ok, rows := table.Print();
      ours := [];
      if ok { ours := Select(rows, marker); }
    }

    /** Remove surplus rules, ignoring errors: those whose request was lost stay. */
    method RemoveDuplicates(cur: seq<Row>)
      requires Listed(table.t, marker, cur)
      modifies table
      ensures table.t == Deduplicated(old(table.t), cur, old(table.faults), |cur|)
      ensures table.faults == Rest(old(table.faults), |cur| - 1)
      ensures |cur| == 1 ==> table.mutations == old(table.mutations)
    {
      ghost var t, faults := table.t, table.faults;
      assert |cur| > 0;
      hide *;
      NoneRemoved(t, cur, faults);
      for i := 1 to |cur|
        invariant table.t == Deduplicated(t, cur, faults, i) && table.faults == Rest(faults, i - 1)
        invariant i == 1 ==> table.mutations == old(table.mutations)
      {
        RemoveDuplicate(cur, i, t, faults);
      }
    }

    method RemoveDuplicate(cur: seq<Row>, i: nat, ghost t: Table, ghost faults: seq<Fault>)
      requires Listed(t, marker, cur) && 1 <= i < |cur|
      requires table.t == Deduplicated(t, cur, faults, i) && table.faults == Rest(faults, i - 1)
      modifies table
      ensures table.t == Deduplicated(t, cur, faults, i + 1) && table.faults == Rest(faults, i)
    {
      hide *;
      RemovalStep(t, cur, faults, i, marker);
      var _ := table.Remove(cur[i].id);
    }

    /** The rule is of another chain: remove it and create it anew. */
    method Rebuild(existing: Row, want: Fields) returns (ok: bool)
      requires existing in table.t.rows
      modifies table
      ensures (table.t, ok) == RebuildOutcome(old(table.t), existing, want, old(table.faults))
      ensures old(table.faults) == [] ==> table.faults == []
    {
      hide Drop, Added;
      RestAt(table.faults, 1, 0);
      ok := table.Remove(existing.id);
      if !ok { return; }
      ok := table.Add(want);
    }

    /** The rule is of the wanted chain: set the fields that differ, if any. */
    method Adjust(existing: Row, want: Fields) returns (ok: bool)
      requires WellFormed(table.t) && existing in Own(table.t.rows, marker) && Wanted(want, marker, keys)
      modifies table
      ensures (table.t, ok) == AdjustOutcome(old(table.t), existing, want, old(table.faults))
      ensures old(table.faults) == [] ==> table.faults == []
      ensures Agrees(existing, want) ==> table.mutations == old(table.mutations)
    {
      hide Own, Foreign, WellFormed;
      var diff := DiffFields(existing, want, keys);
      DiffConverges(existing.fields, want);
      UpdateKeeps(table.t, existing, diff, want, marker);
      if diff == map[] {
        return true;
      }
      ok := table.Set(existing.id, diff);
    }

    /** Ensure after validation does what `Outcome` says for the script of faults. */
    method Converge(want: Fields) returns (ok: bool)
      requires WellFormed(table.t) && Wanted(want, marker, keys)
      modifies table
      ensures (table.t, ok) == Outcome(old(table.t), marker, want, rebuild, old(table.faults))
      ensures old(table.faults) == [] ==> table.faults == []
      ensures Settled(old(table.t.rows), marker, want) ==> table.mutations == old(table.mutations)
    {
      hide Own, Deduplicated, WellFormed, AfterAdd, RebuildOutcome, AdjustOutcome;
      ghost var t, faults := table.t, table.faults;
      var listed, cur := List();
      if !listed { return false; }
      if cur == [] {
        ok := table.Add(want);
        return;
      }
      AfterDuplicates(t, marker, table.faults);
      RemoveDuplicates(cur);
      var existing := cur[0];
      assert existing in Own(table.t.rows, marker);
      if rebuild && ChainOf(existing) != want["chain"] {
        ok := Rebuild(existing, want);
      } else {
        ok := Adjust(existing, want);
      }
    }

    /** Remove all own rules, in order, until a call fails. */
    method Remove() returns (ok: bool)
      requires WellFormed(table.t)
      modifies table
      ensures Kept(old(table.t), table.t, marker)
      ensures forall r :: r in table.t.rows ==> r in old(table.t.rows)
      ensures var own, faults := Own(old(table.t.rows), marker), old(table.faults);
              && Own(table.t.rows, marker) == own[RemoveCount(faults, |own|)..]
              && ok == RemoveWorks(faults, |own|) && (ok ==> Own(table.t.rows, marker) == [])
              && (faults == [] ==> table.faults == [])
    {
      hide Own, Foreign, Drop;
      ghost var t, faults := table.t, table.faults;
      var listed, cur := List();
      assert Own(t.rows, marker)[0..] == Own(t.rows, marker);
      if !listed { return false; }
      OwnDistinct(t.rows, marker);
      ghost var script := table.faults;
      NoneTakenYet(script, |cur|);
      for i := 0 to |cur|
        invariant Kept(t, table.t, marker)
        invariant Own(table.t.rows, marker) == cur[i..]
        invariant forall r :: r in table.t.rows ==> r in t.rows
        invariant faults == [] ==> table.faults == []
        invariant RemovalsSoFar(script, |cur|, i, table.faults)
      {
        assert cur[i..][0] == cur[i] && cur[i..][1..] == cur[i + 1..];
        assert cur[i] in Own(table.t.rows, marker);
        DropFirst(table.t, marker);
        TakeOne(script, |cur|, i, table.faults);
        hide RemovalsSoFar, RemovedBy, Quiet, FaultAt;
        var removed := table.Remove(cur[i].id);
        if !removed { return false; }
      }
      assert cur[|cur|..] == [];
      ok := true;
    }
  }

  /** The first i of n removals went well and left the script `now`. */
  ghost predicate RemovalsSoFar(script: seq<Fault>, n: nat, i: nat, now: seq<Fault>)
  {
    && i <= n && RemovedBy(script, n) == i + RemovedBy(now, n - i)
    && (Quiet(script, n) <==> Quiet(now, n - i))
  }

  lemma NoneTakenYet(script: seq<Fault>, n: nat)
    ensures RemovalsSoFar(script, n, 0, script)
  {
  }

  lemma TakeOne(script: seq<Fault>, n: nat, i: nat, now: seq<Fault>)
    requires RemovalsSoFar(script, n, i, now) && i < n
    ensures FaultAt(now, 0) == Healthy ==> RemovalsSoFar(script, n, i + 1, Rest(now, 1))
    ensures FaultAt(now, 0) != Healthy ==>
              !Quiet(script, n) && RemovedBy(script, n) == i + if FaultAt(now, 0) == LostRequest then 0 else 1
  {
    forall j: nat ensures FaultAt(Rest(now, 1), j) == FaultAt(now, j + 1) { RestAt(now, 1, j); }
    if FaultAt(now, 0) == Healthy && Quiet(Rest(now, 1), n - i - 1) {
      forall j: nat | j < n - i ensures FaultAt(now, j) == Healthy {
        if j > 0 {
          assert FaultAt(Rest(now, 1), j - 1) == FaultAt(now, j - 1 + 1);
        }
      }
    }
  }

  lemma NoneRemoved(t: Table, cur: seq<Row>, faults: seq<Fault>)
    requires cur != []
    ensures Deduplicated(t, cur, faults, 1) == t && Rest(faults, 0) == faults
  {
    DropNone(t.rows, {});
  }

  /** One more removal, whether its request is lost or not. */
  lemma RemovalStep(t: Table, cur: seq<Row>, faults: seq<Fault>, i: nat, marker: string)
    requires Listed(t, marker, cur) && 1 <= i < |cur|
    ensures var u := Deduplicated(t, cur, faults, i);
            && cur[i].id in Ids(u.rows)
            && AfterRemove(u, cur[i].id, FaultAt(Rest(faults, i - 1), 0)) == Deduplicated(t, cur, faults, i + 1)
            && Rest(Rest(faults, i - 1), 1) == Rest(faults, i)
  {
    hide Own, Drop;
    var gone := Gone(cur, faults, i);
    OwnDistinct(t.rows, marker);
    GoneIsSurplus(cur, faults, i);
    RestOfRest(faults, i - 1, 1);
    RestAt(faults, i - 1, 0);
    DropDrop(t.rows, gone, {cur[i].id});
    assert cur[i] in t.rows && cur[i].id !in gone;
    assert cur[i] in Drop(t.rows, gone);
    assert Gone(cur, faults, i + 1) == if FaultAt(faults, i - 1) == LostRequest then gone else gone + {cur[i].id};
  }

  /** Only duplicates are gone; when all calls are healthy, all of them. */
  lemma {:induction false} GoneIsSurplus(cur: seq<Row>, faults: seq<Fault>, i: nat)
    requires 1 <= i <= |cur|
    ensures Gone(cur, faults, i) <= Ids(cur[1..i])
    ensures Quiet(faults, i - 1) ==> Gone(cur, faults, i) == Ids(cur[1..i])
  {
    if i == 1 {
      assert cur[1..1] == [];
    } else {
      GoneIsSurplus(cur, faults, i - 1);
      assert cur[1..i] == cur[1..i - 1] + [cur[i - 1]];
    }
  }

  lemma RestAt(faults: seq<Fault>, k: nat, i: nat)
    ensures FaultAt(Rest(faults, k), i) == FaultAt(faults, k + i)
  {
  }

  lemma RestOfRest(faults: seq<Fault>, k: nat, l: nat)
    ensures Rest(Rest(faults, k), l) == Rest(faults, k + l)
  {
  }

  lemma DropFirst(t: Table, marker: string)
    requires WellFormed(t) && Own(t.rows, marker) != []
    ensures var own := Own(t.rows, marker);
      && Own(Drop(t.rows, {own[0].id}), marker) == own[1..]
      && Kept(t, Table(Drop(t.rows, {own[0].id}), t.next), marker)
  {
    hide Own, Foreign;
    var own := Own(t.rows, marker);
    assert own[0] in own;
    DropKeeps(t, {own[0].id}, marker);
    OwnDrop(t.rows, {own[0].id}, marker);
    OwnDistinct(t.rows, marker);
    assert own == [own[0]] + own[1..];
    DropNone(own[1..], {own[0].id});
  }

  /** What every call of a reconciler keeps: unique ids and the foreign rules. */
  ghost predicate Kept(before: Table, after: Table, marker: string)
  {
    WellFormed(after) && Foreign(after.rows, marker) == Foreign(before.rows, marker)
  }

  lemma AddKeeps(t: Table, want: Fields, marker: string)
    requires WellFormed(t) && Get(want, "comment") == marker
    ensures Kept(t, Added(t, want), marker)
    ensures Row(t.next, want) in Own(Added(t, want).rows, marker)
  {
    OwnAppend(t.rows, Row(t.next, want), marker);
  }

  lemma AllIds(cur: seq<Row>)
    requires cur != []
    ensures Ids(cur) == Ids(cur[1..]) + {cur[0].id}
  {
    assert forall r :: r in cur <==> r == cur[0] || r in cur[1..];
  }

  /** Setting the difference on an own rule is setting the wanted fields, and makes it agree. */
  lemma UpdateKeeps(t: Table, o: Row, diff: Fields, want: Fields, marker: string)
    requires WellFormed(t) && o in t.rows && IsOwn(o, marker)
    requires "comment" in want && want["comment"] == marker
    requires diff == Diff(o.fields, want) && o.fields + diff == o.fields + want
    ensures Update(t.rows, o.id, diff) == Update(t.rows, o.id, want)
    ensures diff == map[] ==> Update(t.rows, o.id, diff) == t.rows
    ensures Kept(t, Table(Update(t.rows, o.id, diff), t.next), marker)
    ensures Row(o.id, o.fields + want) in Own(Update(t.rows, o.id, diff), marker)
    ensures Agrees(Row(o.id, o.fields + want), want)
    ensures forall r :: r in Update(t.rows, o.id, diff) ==> r in t.rows || r == Row(o.id, o.fields + want)
  {
    hide Diff;
    UpdateByDiff(t, o, diff, want);
    UpdateKept(t, o, want, marker);
    UpdatePuts(t, o, want, marker);
    hide *;
  }

  lemma UpdateKept(t: Table, o: Row, want: Fields, marker: string)
    requires WellFormed(t) && o in t.rows && IsOwn(o, marker) && "comment" in want && want["comment"] == marker
    ensures Kept(t, Table(Update(t.rows, o.id, want), t.next), marker)
  {
    hide Own, Foreign, IsOwn;
    ForeignKeptByUpdate(t.rows, o, want, marker);
  }

  lemma UpdatePuts(t: Table, o: Row, want: Fields, marker: string)
    requires WellFormed(t) && o in t.rows && IsOwn(o, marker) && "comment" in want && want["comment"] == marker
    ensures var r, rows := Row(o.id, o.fields + want), Update(t.rows, o.id, want);
      r in Own(rows, marker) && Agrees(r, want) && forall q :: q in rows ==> q in t.rows || q == r
  {
    hide Own;
    var i :| 0 <= i < |t.rows| && t.rows[i] == o;
    var r, rows := Row(o.id, o.fields + want), Update(t.rows, o.id, want);
    assert rows[i] == r;
    forall q | q in rows ensures q in t.rows || q == r {
      var j :| 0 <= j < |rows| && rows[j] == q;
      if t.rows[j].id == o.id {
        SameId(t.rows, t.rows[j], o);
      }
    }
  }

  lemma UpdateByDiff(t: Table, o: Row, diff: Fields, want: Fields)
    requires WellFormed(t) && o in t.rows && o.fields + diff == o.fields + want
    ensures Update(t.rows, o.id, diff) == Update(t.rows, o.id, want)
    ensures diff == map[] ==> Update(t.rows, o.id, diff) == t.rows
  {
    forall r | r in t.rows && r.id == o.id ensures r == o { SameId(t.rows, r, o); }
    assert o.fields + map[] == o.fields;
  }

  // ----- what the outcome of Ensure is worth ---------------------------------------------------

  /** Lost requests among the first n calls. */
  function LostRequests(faults: seq<Fault>, n: nat): nat
  {
    if n == 0 then 0 else LostRequests(faults, n - 1) + if FaultAt(faults, n - 1) == LostRequest then 1 else 0
  }

  /** None of the n calls after the first one is lost. */
  predicate AllArrive(faults: seq<Fault>, n: nat) { forall i: nat :: 1 <= i <= n ==> FaultAt(faults, i) != LostRequest }

  lemma {:induction false} NoneLostIff(faults: seq<Fault>, n: nat)
    ensures LostRequests(Rest(faults, 1), n) == 0 <==> AllArrive(faults, n)
  {
    if n == 0 {
    } else {
      NoneLostIff(faults, n - 1);
      RestAt(faults, 1, n - 1);
    }
  }

  lemma DropOne(r: Row, ids: set<nat>)
    ensures Drop([r], ids) == if r.id in ids then [] else [r]
  {
    assert [r][1..] == [];
  }

  /** The duplicates that stay are those whose removal was lost. */
  lemma {:induction false} DuplicatesLeft(cur: seq<Row>, faults: seq<Fault>, i: nat)
    requires Distinct(cur) && 1 <= i <= |cur|
    ensures |Drop(cur[..i], Gone(cur, faults, i))| == 1 + LostRequests(faults, i - 1)
    ensures Drop(cur[..i], Gone(cur, faults, i))[0] == cur[0]
  {
    hide Drop, Distinct;
    if i == 1 {
      assert cur[..1] == [cur[0]];
      DropNone(cur[..1], {});
    } else {
      DuplicatesLeft(cur, faults, i - 1);
      var before, r, gone, now := cur[..i - 1], cur[i - 1], Gone(cur, faults, i - 1), Gone(cur, faults, i);
      LastIsNew(cur, faults, i);
      assert cur[..i] == before + [r];
      DropStep(before, r, gone);
      assert now == if FaultAt(faults, i - 2) == LostRequest then gone else gone + {r.id};
      hide Gone;
    }
  }

  lemma LastIsNew(cur: seq<Row>, faults: seq<Fault>, i: nat)
    requires Distinct(cur) && 2 <= i <= |cur|
    ensures cur[i - 1].id !in Gone(cur, faults, i - 1) && forall q :: q in cur[..i - 1] ==> q.id != cur[i - 1].id
  {
    GoneIsSurplus(cur, faults, i - 1);
    var before, surplus := cur[..i - 1], cur[1..i - 1];
    assert forall q :: q in surplus ==> q in before;
  }

  lemma DropStep(before: seq<Row>, r: Row, gone: set<nat>)
    requires r.id !in gone && forall q :: q in before ==> q.id != r.id
    ensures Drop(before + [r], gone) == Drop(before, gone) + [r]
    ensures Drop(before + [r], gone + {r.id}) == Drop(before, gone)
  {
    hide Drop;
    DropConcat(before, [r], gone);
    DropConcat(before, [r], gone + {r.id});
    DropOne(r, gone);
    DropOne(r, gone + {r.id});
    DropNone(Drop(before, gone), {r.id});
    DropDrop(before, gone, {r.id});
  }

  /** The first rule and one duplicate for each lost removal. */
  predicate FirstAndLost(left: seq<Row>, own: seq<Row>, faults: seq<Fault>)
  {
    own != [] && |left| == 1 + LostRequests(faults, |own| - 1) && left[0] == own[0]
  }

  lemma DuplicatesCounted(t: Table, marker: string, faults: seq<Fault>)
    requires WellFormed(t) && Own(t.rows, marker) != []
    ensures var own := Own(t.rows, marker);
            FirstAndLost(Own(Deduplicated(t, own, faults, |own|).rows, marker), own, faults)
  {
    var own := Own(t.rows, marker);
    OwnDistinct(t.rows, marker);
    hide *;
    LeftInTable(t, marker, faults);
    LeftOfAll(own, faults);
  }

  lemma LeftInTable(t: Table, marker: string, faults: seq<Fault>)
    requires |Own(t.rows, marker)| > 0
    ensures var own := Own(t.rows, marker);
            Own(Deduplicated(t, own, faults, |own|).rows, marker) == Drop(own, Gone(own, faults, |own|))
  {
    hide Own, Drop, Gone;
    var own := Own(t.rows, marker);
    OwnDrop(t.rows, Gone(own, faults, |own|), marker);
  }

  lemma DuplicatesKept(t: Table, marker: string, faults: seq<Fault>)
    requires WellFormed(t) && Own(t.rows, marker) != []
    ensures var own := Own(t.rows, marker);
            var u := Deduplicated(t, own, faults, |own|);
            Kept(t, u, marker) && forall r :: r in u.rows ==> r in t.rows
  {
    OwnDistinct(t.rows, marker);
    var own := Own(t.rows, marker);
    hide Own, Gone, Distinct, Drop, Foreign;
    LeftOfAll(own, faults);
    DropKeeps(t, Gone(own, faults, |own|), marker);
  }

  lemma AfterDuplicates(t: Table, marker: string, faults: seq<Fault>)
    requires WellFormed(t) && Own(t.rows, marker) != []
    ensures var own := Own(t.rows, marker);
            var u := Deduplicated(t, own, faults, |own|);
            && Kept(t, u, marker) && (forall r :: r in u.rows ==> r in t.rows)
            && FirstAndLost(Own(u.rows, marker), own, faults)
  {
    hide *;
    DuplicatesKept(t, marker, faults);
    DuplicatesCounted(t, marker, faults);
  }

  lemma LeftOfAll(own: seq<Row>, faults: seq<Fault>)
    requires Distinct(own) && own != []
    ensures var gone := Gone(own, faults, |own|);
            && gone <= Ids(own)
            && FirstAndLost(Drop(own, gone), own, faults)
  {
    hide Drop, Gone, Distinct;
    GoneIsSurplus(own, faults, |own|);
    DuplicatesLeft(own, faults, |own|);
    AllIds(own);
    assert own[1..|own|] == own[1..] && own[..|own|] == own;
  }

  lemma AddedOnce(t: Table, marker: string, want: Fields, keys: set<string>)
    requires WellFormed(t) && Wanted(want, marker, keys)
    ensures var u := Added(t, want);
            && Kept(t, u, marker) && (forall r :: r in u.rows ==> r in t.rows || r.fields == want)
            && |Own(u.rows, marker)| == |Own(t.rows, marker)| + 1
            && exists r :: r in Own(u.rows, marker) && Agrees(r, want)
  {
    hide Own, Foreign;
    AddKeeps(t, want, marker);
    OwnAppend(t.rows, Row(t.next, want), marker);
    assert Agrees(Row(t.next, want), want);
  }

  /** The own rules after an add: one more, none, or two. */
  lemma AddedCount(t: Table, marker: string, want: Fields, f: Fault, keys: set<string>)
    requires WellFormed(t) && Wanted(want, marker, keys)
    ensures var u := AfterAdd(t, want, f);
            && Kept(t, u, marker) && (forall r :: r in u.rows ==> r in t.rows || r.fields == want)
            && (f != LostRequest ==>
                  && |Own(u.rows, marker)| == |Own(t.rows, marker)| + (if f.Doubled? then 2 else 1)
                  && exists r :: r in Own(u.rows, marker) && Agrees(r, want))
  {
    hide Own, Foreign, Added, Agrees, Wanted;
    AddedOnce(t, marker, want, keys);
    AddedOnce(Added(t, want), marker, want, keys);
  }

  lemma RebuildIsSafe(u: Table, marker: string, want: Fields, existing: Row, faults: seq<Fault>, keys: set<string>)
    requires WellFormed(u) && Wanted(want, marker, keys)
    requires Own(u.rows, marker) != [] && existing == Own(u.rows, marker)[0]
    ensures var (v, ok) := RebuildOutcome(u, existing, want, faults);
            && Kept(u, v, marker) && (forall r :: r in v.rows ==> r in u.rows || r.fields == want)
            && (ok ==>
                  && |Own(v.rows, marker)| == |Own(u.rows, marker)| + (if FaultAt(faults, 1).Doubled? then 1 else 0)
                  && exists r :: r in Own(v.rows, marker) && Agrees(r, want))
  {
    hide Own, Foreign, AfterAdd, Wanted;
    DropFirst(u, marker);
    AddedCount(AfterRemove(u, existing.id, FaultAt(faults, 0)), marker, want, FaultAt(faults, 1), keys);
  }

  lemma AdjustIsSafe(u: Table, marker: string, want: Fields, existing: Row, faults: seq<Fault>, keys: set<string>)
    requires WellFormed(u) && Wanted(want, marker, keys) && existing in Own(u.rows, marker)
    ensures var (v, ok) := AdjustOutcome(u, existing, want, faults);
            && Kept(u, v, marker)
            && (forall r :: r in v.rows ==> r in u.rows || r == Row(existing.id, existing.fields + want))
            && |Own(v.rows, marker)| == |Own(u.rows, marker)|
            && (ok ==> exists r :: r in Own(v.rows, marker) && Agrees(r, want))
  {
    hide Own, Foreign, WellFormed;
    var diff := Diff(existing.fields, want);
    DiffConverges(existing.fields, want);
    UpdateKeeps(u, existing, diff, want, marker);
    OwnOfUpdate(u, existing, want, marker);
    hide Update, Wanted, Diff;
  }

  lemma OwnOfUpdate(u: Table, existing: Row, want: Fields, marker: string)
    requires WellFormed(u) && existing in Own(u.rows, marker) && "comment" in want && want["comment"] == marker
    ensures |Own(Update(u.rows, existing.id, want), marker)| == |Own(u.rows, marker)|
  {
    hide Own, Foreign;
    ForeignKeptByUpdate(u.rows, existing, want, marker);
  }

  /** The number of own rules after a successful Ensure. */
  function OwnCount(rows: seq<Row>, marker: string, want: Fields, rebuild: bool, faults: seq<Fault>): nat
  {
    var own := Own(rows, marker);
    if own == [] then (if FaultAt(faults, 1).Doubled? then 2 else 1)
    else
      1 + LostRequests(Rest(faults, 1), |own| - 1)
      + if Moves(own[0], want, rebuild) && FaultAt(faults, |own| + 1).Doubled? then 1 else 0
  }

  /** Whatever fails: foreign rules stay, own rules are explained; success means an agreeing rule and an exact count. */
  lemma OutcomeIsSafe(t: Table, marker: string, want: Fields, rebuild: bool, keys: set<string>, faults: seq<Fault>)
    requires WellFormed(t) && Wanted(want, marker, keys)
    ensures var (v, ok) := Outcome(t, marker, want, rebuild, faults);
            && Kept(t, v, marker) && Explained(t.rows, v.rows, marker, want, rebuild)
            && (ok ==>
                  && |Own(v.rows, marker)| == OwnCount(t.rows, marker, want, rebuild, faults)
                  && exists r :: r in Own(v.rows, marker) && Agrees(r, want))
  {
    hide Own, Foreign, Deduplicated, WellFormed, AfterAdd, LostRequests, RebuildOutcome, AdjustOutcome, Wanted;
    var own, rest := Own(t.rows, marker), Rest(faults, 1);
    RestAt(faults, 1, 0);
    if !Replied(FaultAt(faults, 0)) {
    } else if own == [] {
      AddedCount(t, marker, want, FaultAt(rest, 0), keys);
    } else {
      AfterDuplicates(t, marker, rest);
      var u, later := Deduplicated(t, own, rest, |own|), Rest(rest, |own| - 1);
      RestAt(rest, |own| - 1, 1);
      RestAt(faults, 1, |own|);
      if Moves(own[0], want, rebuild) {
        RebuildIsSafe(u, marker, want, own[0], later, keys);
      } else {
        AdjustIsSafe(u, marker, want, own[0], later, keys);
      }
    }
  }

  /** No removal of a duplicate is lost on the way, and no add is executed twice. */
  predicate LeavesOne(rows: seq<Row>, marker: string, want: Fields, rebuild: bool, faults: seq<Fault>)
  {
    var own := Own(rows, marker);
    && (own != [] ==> AllArrive(faults, |own| - 1))
    && (own == [] ==> !FaultAt(faults, 1).Doubled?)
    && (own != [] && Moves(own[0], want, rebuild) ==> !FaultAt(faults, |own| + 1).Doubled?)
  }

  /** Exactly when a successful Ensure leaves one own rule, the wanted one. */
  lemma SuccessSettlesIff(t: Table, marker: string, want: Fields, rebuild: bool, keys: set<string>, faults: seq<Fault>)
    requires WellFormed(t) && Wanted(want, marker, keys) && Outcome(t, marker, want, rebuild, faults).1
    ensures var v := Outcome(t, marker, want, rebuild, faults).0;
            Settled(v.rows, marker, want) <==> LeavesOne(t.rows, marker, want, rebuild, faults)
  {
    var v := Outcome(t, marker, want, rebuild, faults).0;
    hide Own, Outcome, Kept, Explained, Wanted, WellFormed, OwnCount, LeavesOne, Agrees;
    OutcomeIsSafe(t, marker, want, rebuild, keys, faults);
    CountIsOneIff(t.rows, marker, want, rebuild, faults);
    var r :| r in Own(v.rows, marker) && Agrees(r, want);
  }

  lemma CountIsOneIff(rows: seq<Row>, marker: string, want: Fields, rebuild: bool, faults: seq<Fault>)
    ensures OwnCount(rows, marker, want, rebuild, faults) == 1 <==> LeavesOne(rows, marker, want, rebuild, faults)
  {
    hide Own, LostRequests, AllArrive, FaultAt, Rest;
    var own := Own(rows, marker);
    if own == [] {
    } else {
      NoneLostIff(faults, |own| - 1);
    }
  }

  /** When nothing goes wrong in the calls that it makes, the outcome is `Converged`. */
  lemma OutcomeIsConverged(t: Table, marker: string, want: Fields, rebuild: bool, keys: set<string>,
      faults: seq<Fault>)
    requires WellFormed(t) && Wanted(want, marker, keys)
    requires Quiet(faults, EnsureCalls(Own(t.rows, marker), want, rebuild))
    ensures Outcome(t, marker, want, rebuild, faults) == (Converged(t, marker, want, rebuild), true)
  {
    hide Own, Foreign, Drop, Update, WellFormed, Added, Gone, Wanted, FaultAt, Rest;
    var own, rest := Own(t.rows, marker), Rest(faults, 1);
    RestAt(faults, 1, 0);
    if own != [] {
      AllDuplicatesGone(t, marker, faults);
      RestAt(rest, |own| - 1, 0);
      RestAt(rest, |own| - 1, 1);
      RestAt(faults, 1, |own| - 1);
      RestAt(faults, 1, |own|);
      OneLeftConverges(t, marker, want, rebuild, keys);
    }
  }

  lemma AllDuplicatesGone(t: Table, marker: string, faults: seq<Fault>)
    requires var own := Own(t.rows, marker); own != [] && Quiet(faults, |own|)
    ensures var own := Own(t.rows, marker);
      Deduplicated(t, own, Rest(faults, 1), |own|) == Table(Drop(t.rows, Ids(own[1..])), t.next)
  {
    hide Own, Drop, Gone, FaultAt, Rest;
    var own := Own(t.rows, marker);
    forall i: nat | i < |own| - 1 ensures FaultAt(Rest(faults, 1), i) == Healthy { RestAt(faults, 1, i); }
    GoneIsSurplus(own, Rest(faults, 1), |own|);
    assert own[1..|own|] == own[1..];
  }

  /** After the duplicates, the one rule is replaced or set. */
  lemma OneLeftConverges(t: Table, marker: string, want: Fields, rebuild: bool, keys: set<string>)
    requires WellFormed(t) && Wanted(want, marker, keys) && Own(t.rows, marker) != []
    ensures var own, c := Own(t.rows, marker), Converged(t, marker, want, rebuild);
      var u := Table(Drop(t.rows, Ids(own[1..])), t.next);
      if Moves(own[0], want, rebuild) then c == Added(Table(Drop(u.rows, {own[0].id}), u.next), want)
      else if Diff(own[0].fields, want) == map[] then c == u
      else c == Table(Update(u.rows, own[0].id, want), u.next)
  {
    hide Own, Foreign, Drop, Update, WellFormed, Gone;
    var own := Own(t.rows, marker);
    var u := Table(Drop(t.rows, Ids(own[1..])), t.next);
    AfterDuplicates(t, marker, []);
    AllDuplicatesGone(t, marker, []);
    AllIds(own);
    DropDrop(t.rows, Ids(own[1..]), {own[0].id});
    DiffConverges(own[0].fields, want);
    UpdateKeeps(u, own[0], Diff(own[0].fields, want), want, marker);
  }

  /** A settled table stays as it is, whatever fails. */
  lemma SettledOutcome(t: Table, marker: string, want: Fields, rebuild: bool, keys: set<string>, faults: seq<Fault>)
    requires WellFormed(t) && Wanted(want, marker, keys) && Settled(t.rows, marker, want)
    ensures Outcome(t, marker, want, rebuild, faults).0 == t
  {
    hide Own, Drop;
    var own := Own(t.rows, marker);
    DropNone(t.rows, {});
    assert Diff(own[0].fields, want) == map[];
  }

  /**
   What every Ensure is worth: whatever fails, foreign rules stay and own rules are explained; on
   success an own rule agrees with `want`, and it is the only one exactly if `LeavesOne`; when the
   calls it makes are healthy the table is `Converged`; a settled table stays.
   */
  ghost predicate Sound(t: Table, v: Table, ok: bool, marker: string, want: Fields, rebuild: bool, faults: seq<Fault>)
    requires "chain" in want
  {
    && Kept(t, v, marker) && Explained(t.rows, v.rows, marker, want, rebuild)
    && (ok ==> exists r :: r in Own(v.rows, marker) && Agrees(r, want))
    && (ok ==> (Settled(v.rows, marker, want) <==> LeavesOne(t.rows, marker, want, rebuild, faults)))
    && (Quiet(faults, EnsureCalls(Own(t.rows, marker), want, rebuild)) ==>
          ok && v == Converged(t, marker, want, rebuild))
    && (Settled(t.rows, marker, want) ==> v == t)
  }

  lemma OutcomeIsSound(t: Table, marker: string, want: Fields, rebuild: bool, keys: set<string>, faults: seq<Fault>)
    requires WellFormed(t) && Wanted(want, marker, keys)
    ensures var (v, ok) := Outcome(t, marker, want, rebuild, faults); Sound(t, v, ok, marker, want, rebuild, faults)
  {
    hide Own, Outcome, Kept, Explained, Converged, Settled, LeavesOne, Quiet, EnsureCalls;
    OutcomeIsSafe(t, marker, want, rebuild, keys, faults);
    if Quiet(faults, EnsureCalls(Own(t.rows, marker), want, rebuild)) {
      OutcomeIsConverged(t, marker, want, rebuild, keys, faults);
    }
    if Settled(t.rows, marker, want) {
      SettledOutcome(t, marker, want, rebuild, keys, faults);
    }
    if Outcome(t, marker, want, rebuild, faults).1 {
      SuccessSettlesIff(t, marker, want, rebuild, keys, faults);
    }
  }

  /** A lost removal leaves a duplicate behind a reported success. */
  lemma LostRemovalGoesUnnoticed(t: Table, marker: string, want: Fields, rebuild: bool, keys: set<string>)
    requires WellFormed(t) && Wanted(want, marker, keys) && |Own(t.rows, marker)| >= 2
    ensures var (v, ok) := Outcome(t, marker, want, rebuild, [Healthy, LostRequest]);
            ok && !Settled(v.rows, marker, want)
  {
    hide Own, Drop, Update, Gone, WellFormed;
    SuccessSettlesIff(t, marker, want, rebuild, keys, [Healthy, LostRequest]);
    assert FaultAt([Healthy, LostRequest], 1) == LostRequest;
    hide Settled;
  }

  /** An add that the connection sends twice creates a duplicate behind a reported success. */
  lemma DoubledAddGoesUnnoticed(t: Table, marker: string, want: Fields, rebuild: bool, keys: set<string>)
    requires WellFormed(t) && Wanted(want, marker, keys) && Own(t.rows, marker) == []
    ensures var (v, ok) := Outcome(t, marker, want, rebuild, [Healthy, Doubled(true)]);
            ok && |Own(v.rows, marker)| == 2
  {
    hide Own, WellFormed, AfterAdd;
    OutcomeIsSafe(t, marker, want, rebuild, keys, [Healthy, Doubled(true)]);
  }

  // ----- divert and masquerade --------------------------------------------------------------

  /** Every own rule has exactly the fields of some valid rule of the table's address family. */
  ghost predicate Clean(rows: seq<Row>, marker: string, six: bool)
  {
    forall r :: r in rows && IsOwn(r, marker) ==>
      exists w :: Valid(w) && w.toAddress.Is6() == six && r.fields == DivertFields(w, marker)
  }

  /**
   Setting the fields of b on a rule for a leaves exactly the fields of b, unless the rule moves
   to the other address family or from the output chain to dstnat: the reason for rebuilding.
   */
  lemma SetLeavesNothing(a: DivertRule, b: DivertRule, marker: string)
    requires Valid(a) && Valid(b)
    ensures DivertFields(a, marker) + DivertFields(b, marker) == DivertFields(b, marker)
            <==> a.toAddress.Is6() == b.toAddress.Is6() && !(a.chain == OUTPUT && b.chain == DSTNAT)
  {
    var f, g := DivertFields(a, marker), DivertFields(b, marker);
    if f + g == g {
      assert forall k :: k in f ==> k in g by { assert forall k :: k in f ==> k in f + g; }
      assert "to-address" in f <==> a.toAddress.Is6();
      assert "to-addresses" in f <==> !a.toAddress.Is6();
      assert "src-port" in f <==> a.chain == OUTPUT;
    } else {
      assert exists k :: k in f && k !in g;
    }
  }

  lemma ChainField(w: DivertRule, marker: string)
    ensures Get(DivertFields(w, marker), "chain") == w.chain
  {
  }

  lemma NoLeakage(before: seq<Row>, after: seq<Row>, marker: string, want: DivertRule)
    requires Valid(want) && Explained(before, after, marker, DivertFields(want, marker), true)
    requires Clean(before, marker, want.toAddress.Is6())
    ensures Clean(after, marker, want.toAddress.Is6())
  {
    hide DivertFields, Valid;
    var f := DivertFields(want, marker);
    var six := want.toAddress.Is6();
    forall r | r in after && IsOwn(r, marker)
      ensures exists w :: Valid(w) && w.toAddress.Is6() == six && r.fields == DivertFields(w, marker)
    {
      if r in before {
      } else if r.fields == f {
      } else {
        var o :| o in before && IsOwn(o, marker) && r == Row(o.id, o.fields + f) && ChainOf(o) == Get(f, "chain");
        var w :| Valid(w) && w.toAddress.Is6() == six && o.fields == DivertFields(w, marker);
        SetLeavesNothing(w, want, marker);
        ChainField(w, marker);
        ChainField(want, marker);
      }
    }
  }

  /** One Ensure or Remove of the divert reconciler, disturbed by any faults, as its contracts describe it. */
  ghost predicate CleanStep(before: seq<Row>, after: seq<Row>, marker: string, six: bool)
  {
    || (forall r :: r in after ==> r in before)
    || exists want :: Valid(want) && want.toAddress.Is6() == six
                      && Explained(before, after, marker, DivertFields(want, marker), true)
  }

  /** No run of Ensure and Remove, whatever fails, leaves a field of an earlier want behind. */
  lemma {:induction false} RunsStayClean(run: seq<seq<Row>>, marker: string, six: bool)
    requires run != [] && Clean(run[0], marker, six)
    requires forall i :: 0 <= i < |run| - 1 ==> CleanStep(run[i], run[i + 1], marker, six)
    ensures Clean(run[|run| - 1], marker, six)
  {
    if |run| <= 1 {
    } else {
      var n := |run| - 1;
      RunsStayClean(run[..n], marker, six);
      assert run[..n][n - 1] == run[n - 1];
      assert CleanStep(run[n - 1], run[n - 1 + 1], marker, six);
      if !(forall r :: r in run[n] ==> r in run[n - 1]) {
        var want :| Valid(want) && want.toAddress.Is6() == six
                    && Explained(run[n - 1], run[n], marker, DivertFields(want, marker), true);
        NoLeakage(run[n - 1], run[n], marker, want);
      }
    }
  }

  /** NatReconciler for one table: /ip/firewall/nat or /ipv6/firewall/nat. */
  class NatReconciler {
    const iface: string
    const rec: Reconciler

    constructor (table: RuleTable, iface: string)
      ensures fresh(rec) && rec.table == table && this.iface == iface && Ready()
    {
      this.iface := iface;
      rec := new Reconciler(table, DivertMarker(iface), DIVERT_KEYS, true);
    }

    predicate Ready()
    {
      rec.marker == DivertMarker(iface) && rec.keys == DIVERT_KEYS && rec.rebuild
    }

    /** Ensure: an invalid rule changes nothing; a valid one converges, and no field ever leaks. */
    method Ensure(want: DivertRule) returns (ok: bool)
      requires Ready() && WellFormed(rec.table.t)
      modifies rec.table
      ensures !Valid(want) ==> !ok && rec.table.t == old(rec.table.t) && rec.table.faults == old(rec.table.faults)
      ensures Valid(want) ==>
                var fields := DivertFields(want, rec.marker);
                && (rec.table.t, ok) == Outcome(old(rec.table.t), rec.marker, fields, true, old(rec.table.faults))
                && Sound(old(rec.table.t), rec.table.t, ok, rec.marker, fields, true, old(rec.table.faults))
      ensures old(rec.table.faults) == [] ==> rec.table.faults == []
      ensures Valid(want) && Settled(old(rec.table.t.rows), rec.marker, DivertFields(want, rec.marker)) ==>
                rec.table.mutations == old(rec.table.mutations)
      ensures Clean(old(rec.table.t.rows), rec.marker, want.toAddress.Is6()) ==>
                Clean(rec.table.t.rows, rec.marker, want.toAddress.Is6())
    {
      if Validate(want).Rejected? { return false; }
      DivertWanted(want, rec.marker);
      OutcomeIsSound(rec.table.t, rec.marker, DivertFields(want, rec.marker), true, rec.keys, rec.table.faults);
      hide Outcome, Converged, Kept, Settled, LeavesOne, DivertFields, Own;
      ok := rec.Converge(DivertFields(want, rec.marker));
      if Clean(old(rec.table.t.rows), rec.marker, want.toAddress.Is6()) {
        NoLeakage(old(rec.table.t.rows), rec.table.t.rows, rec.marker, want);
      }
    }
  }

  /** Every own rule has exactly the fields for some network. */
  ghost predicate MasqueradeClean(rows: seq<Row>, marker: string)
  {
    forall r :: r in rows && IsOwn(r, marker) ==> exists n: Text :: r.fields == MasqueradeFields(n, marker)
  }

  lemma MasqueradeWanted(network: Text, marker: string)
    requires marker != ""
    ensures Wanted(MasqueradeFields(network, marker), marker, MASQUERADE_KEYS)
  {
  }

  lemma NoMasqueradeLeakage(before: seq<Row>, after: seq<Row>, marker: string, network: Text)
    requires MasqueradeClean(before, marker)
    requires Explained(before, after, marker, MasqueradeFields(network, marker), false)
    ensures MasqueradeClean(after, marker)
  {
    var want := MasqueradeFields(network, marker);
    assert forall n: Text :: MasqueradeFields(n, marker) + want == want;
    hide MasqueradeFields, IsOwn;
    assert forall o :: o in before && IsOwn(o, marker) ==> o.fields + want == want;
  }

  /** MasqueradeReconciler, always on /ip/firewall/nat. */
  class MasqueradeReconciler {
    const iface: string
    const rec: Reconciler

    constructor (table: RuleTable, iface: string)
      ensures fresh(rec) && rec.table == table && this.iface == iface && Ready()
    {
      this.iface := iface;
      rec := new Reconciler(table, MasqueradeMarker(iface), MASQUERADE_KEYS, false);
    }

    predicate Ready()
    {
      rec.marker == MasqueradeMarker(iface) && rec.keys == MASQUERADE_KEYS && !rec.rebuild
    }

    /** Ensure for a network, none standing for an invalid prefix. */
    method Ensure(network: string) returns (ok: bool)
      requires Ready() && WellFormed(rec.table.t)
      modifies rec.table
      ensures network == "" ==> !ok && rec.table.t == old(rec.table.t) && rec.table.faults == old(rec.table.faults)
      ensures network != "" ==>
                var fields := MasqueradeFields(network, rec.marker);
                && (rec.table.t, ok) == Outcome(old(rec.table.t), rec.marker, fields, false, old(rec.table.faults))
                && Sound(old(rec.table.t), rec.table.t, ok, rec.marker, fields, false, old(rec.table.faults))
      ensures old(rec.table.faults) == [] ==> rec.table.faults == []
      ensures network != "" && Settled(old(rec.table.t.rows), rec.marker, MasqueradeFields(network, rec.marker)) ==>
                rec.table.mutations == old(rec.table.mutations)
      ensures MasqueradeClean(old(rec.table.t.rows), rec.marker) ==> MasqueradeClean(rec.table.t.rows, rec.marker)
    {
      if network == "" { return false; }
      MasqueradeWanted(network, rec.marker);
      OutcomeIsSound(rec.table.t, rec.marker, MasqueradeFields(network, rec.marker), false, rec.keys, rec.table.faults);
      hide MasqueradeFields, Wanted, MasqueradeClean, Explained, Outcome, Converged, Kept, Settled, LeavesOne, Own;
      ok := rec.Converge(MasqueradeFields(network, rec.marker));
      if MasqueradeClean(old(rec.table.t.rows), rec.marker) {
        NoMasqueradeLeakage(old(rec.table.t.rows), rec.table.t.rows, rec.marker, network);
      }
    }
  }
}
