/**
 Several reconcilers on one router, interleaved at single API calls (internal/router/nat.go).
 Each works as the code of Ensure and Remove says: one call, then its next program point. Every
 call may fail before or after it took effect, and an add may be executed twice.
 */
module Isolation {
  import opened NatRules
  import opened RuleLemmas
  import opened Sequences

  datatype Task = Ensure(want: Fields, rebuild: bool) | Remove

  /** Where a reconciler stands: what it will call next, and the rules it has listed. */
  datatype Point =
    | Idle
    | Listing(task: Task)
    | Deduplicating(task: Task, cur: seq<Row>, i: nat)
    | Adjusting(task: Task, cur: seq<Row>)
    | Adding(task: Task)
    | Removing(cur: seq<Row>, i: nat)

  // ----- one call ----------------------------------------------------------------------

  function AddedAs(t: Table, id: nat, fields: Fields): Table { Table(t.rows + [Row(id, fields)], id + 1) }

  /** The router picks any id it never used. */
  ghost predicate AddCall(t: Table, fields: Fields, after: Table)
  {
    || after == t
    || (exists id: nat :: id >= t.next && after == AddedAs(t, id, fields))
    || (exists id: nat, again: nat ::
          id >= t.next && again > id && after == AddedAs(AddedAs(t, id, fields), again, fields))
  }

  predicate SetCall(t: Table, id: nat, diff: Fields, after: Table, ok: bool)
  {
    || (after == t && !ok)
    || (id in Ids(t.rows) && after == Table(Update(t.rows, id, diff), t.next))
  }

  predicate RemoveCall(t: Table, id: nat, after: Table, ok: bool)
  {
    || (after == t && !ok)
    || (id in Ids(t.rows) && after == Table(Drop(t.rows, {id}), t.next))
  }

  /** The program point after the duplicates up to cur[i] are done. */
  function AfterDuplicates(task: Task, cur: seq<Row>, i: nat): Point
  {
    if i < |cur| then Deduplicating(task, cur, i) else Adjusting(task, cur)
  }

  function AfterListing(task: Task, cur: seq<Row>): Point
  {
    if task.Remove? then (if cur == [] then Idle else Removing(cur, 0))
    else if cur == [] then Adding(task)
    else AfterDuplicates(task, cur, 1)
  }

  /** One step of the reconciler with marker m. */
  ghost predicate StepOf(m: string, pc: Point, t: Table, pc': Point, t': Table)
  {
    match pc
    case Idle =>
      t' == t && pc'.Listing? && (pc'.task.Ensure? ==> Get(pc'.task.want, "comment") == m)
    case Listing(task) =>
      t' == t && (pc' == Idle || pc' == AfterListing(task, Own(t.rows, m)))
    case Deduplicating(task, cur, i) =>
      i < |cur| && pc' == AfterDuplicates(task, cur, i + 1) && exists ok :: RemoveCall(t, cur[i].id, t', ok)
    case Adjusting(task, cur) =>
      && task.Ensure? && cur != []
      && (if task.rebuild && Get(cur[0].fields, "chain") != Get(task.want, "chain")
          then exists ok :: RemoveCall(t, cur[0].id, t', ok) && pc' == if ok then Adding(task) else Idle
          else if Diff(cur[0].fields, task.want) == map[] then t' == t && pc' == Idle
          else pc' == Idle && exists ok :: SetCall(t, cur[0].id, Diff(cur[0].fields, task.want), t', ok))
    case Adding(task) =>
      task.Ensure? && pc' == Idle && AddCall(t, task.want, t')
    case Removing(cur, i) =>
      && i < |cur|
      && exists ok :: RemoveCall(t, cur[i].id, t', ok)
                      && pc' == if ok && i + 1 < |cur| then Removing(cur, i + 1) else Idle
  }

  // ----- the system -------------------------------------------------------------------------

  /** One table and a reconciler per marker. */
  datatype System = System(table: Table, points: map<string, Point>)

  ghost predicate Step(s: System, s': System)
  {
    exists m :: m in s.points && StepBy(m, s, s')
  }

  ghost predicate StepBy(m: string, s: System, s': System)
  {
    && m in s.points && m in s'.points
    && s'.points == s.points[m := s'.points[m]]
    && StepOf(m, s.points[m], s.table, s'.points[m], s'.table)
  }

  ghost predicate IsRun(run: seq<System>)
  {
    && run != []
    && WellFormed(run[0].table)
    && (forall m :: m in run[0].points ==> run[0].points[m] == Idle)
    && (forall i :: 0 <= i < |run| - 1 ==> Step(run[i], run[i + 1]))
  }

  /** A reconciler alone on a table. */
  datatype Solo = Solo(point: Point, table: Table)

  ghost predicate IsSoloRun(run: seq<Solo>, m: string)
  {
    && run != []
    && run[0].point == Idle
    && forall i :: 0 <= i < |run| - 1 ==>
         run[i + 1] == run[i] || StepOf(m, run[i].point, run[i].table, run[i + 1].point, run[i + 1].table)
  }

  // ----- what a reconciler knows about the rules it listed -----------------------------------

  function Listed(pc: Point): seq<Row>
  {
    match pc
    case Deduplicating(_, cur, _) => cur
    case Adjusting(_, cur) => cur
    case Removing(cur, _) => cur
    case _ => []
  }

  function WantOf(pc: Point): Task
  {
    match pc
    case Listing(task) => task
    case Deduplicating(task, _, _) => task
    case Adjusting(task, _) => task
    case Adding(task) => task
    case _ => Remove
  }

  /**
   The rules it listed carried its marker, and whatever rule still has one of their ids is its own:
   ids are never used again and nobody changes a comment.
   */
  predicate Sound(m: string, pc: Point, t: Table)
  {
    && (forall r :: r in Listed(pc) ==> IsOwn(r, m) && r.id < t.next)
    && (forall r, o :: r in Listed(pc) && o in t.rows && o.id == r.id ==> IsOwn(o, m))
    && (WantOf(pc).Ensure? ==> Get(WantOf(pc).want, "comment") == m)
  }

  ghost predicate Inv(s: System)
  {
    WellFormed(s.table) && forall m :: m in s.points ==> Sound(m, s.points[m], s.table)
  }

  // ----- filters -------------------------------------------------------------------------------

  lemma {:induction false} OwnOwn(rows: seq<Row>, m: string)
    ensures Own(Own(rows, m), m) == Own(rows, m)
  {
    if rows == [] {
    } else {
      OwnOwn(rows[1..], m);
      OwnCons(rows[0], Own(rows[1..], m), m);
    }
  }

  lemma {:induction false} OwnOfForeign(rows: seq<Row>, m: string, q: string)
    requires m != q
    ensures Own(Foreign(rows, m), q) == Own(rows, q)
  {
    if rows == [] {
    } else {
      OwnOfForeign(rows[1..], m, q);
      OwnCons(rows[0], Foreign(rows[1..], m), q);
    }
  }

  /** The rules that carry none of the markers. */
  function Unmarked(rows: seq<Row>, markers: set<string>): seq<Row>
  {
    if rows == [] then []
    else if Get(rows[0].fields, "comment") in markers then Unmarked(rows[1..], markers)
    else [rows[0]] + Unmarked(rows[1..], markers)
  }

  lemma {:induction false} UnmarkedOfForeign(rows: seq<Row>, m: string, markers: set<string>)
    requires m in markers
    ensures Unmarked(Foreign(rows, m), markers) == Unmarked(rows, markers)
  {
    if rows == [] {
    } else {
      var f := Foreign(rows[1..], m);
      UnmarkedOfForeign(rows[1..], m, markers);
      Cons(rows[0], f);
    }
  }

  // ----- the step lemmas ------------------------------------------------------------------------

  /** How one call of reconciler m changes a table: not at all, or one of its own rules, or new ones. */
  datatype Change = Same | Dropped(id: nat) | Updated(id: nat, diff: Fields) | New(id: nat,
      fields: Fields) | NewTwice(id: nat, again: nat, fields: Fields)

  function Apply(t: Table, c: Change): Table
  {
    match c
    case Same => t
    case Dropped(id) => Table(Drop(t.rows, {id}), t.next)
    case Updated(id, diff) => Table(Update(t.rows, id, diff), t.next)
    case New(id, fields) => AddedAs(t, id, fields)
    case NewTwice(id, again, fields) => AddedAs(AddedAs(t, id, fields), again, fields)
  }

  /** A change that reconciler m is entitled to. */
  predicate Permitted(m: string, t: Table, c: Change)
  {
    match c
    case Same => true
    case Dropped(id) => id in Ids(t.rows) && id < t.next && forall o :: o in t.rows && o.id == id ==> IsOwn(o, m)
    case Updated(id, diff) =>
      id in Ids(t.rows) && id < t.next && "comment" !in diff && forall o :: o in t.rows && o.id == id ==> IsOwn(o, m)
    case New(id, fields) => id >= t.next && Get(fields, "comment") == m
    case NewTwice(id, again, fields) => id >= t.next && again > id && Get(fields, "comment") == m
  }

  /** `solo` is the table as reconciler m sees it. */
  predicate View(m: string, t: Table, solo: Table) { solo.rows == Own(t.rows, m) && solo.next <= t.next }

  lemma KnownId(m: string, pc: Point, t: Table, r: Row)
    requires Sound(m, pc, t) && r in Listed(pc)
    ensures r.id < t.next && forall o :: o in t.rows && o.id == r.id ==> IsOwn(o, m)
    ensures r.id in Ids(t.rows) ==> r.id in Ids(Own(t.rows, m))
  {
  }

  lemma KnownDiff(m: string, r: Row, want: Fields)
    requires IsOwn(r, m) && Get(want, "comment") == m
    ensures "comment" !in Diff(r.fields, want)
  {
  }

  lemma RemoveChange(m: string, pc: Point, t: Table, r: Row, t': Table, ok: bool) returns (c: Change)
    requires Sound(m, pc, t) && r in Listed(pc) && RemoveCall(t, r.id, t', ok)
    ensures Permitted(m, t, c) && t' == Apply(t, c)
    ensures forall solo :: View(m, t, solo) ==> RemoveCall(solo, r.id, Apply(solo, c), ok)
  {
    hide Own, Drop, Get;
    KnownId(m, pc, t, r);
    c := if t' == t && !ok then Same else Dropped(r.id);
  }

  lemma SetChange(m: string, pc: Point, t: Table, r: Row, diff: Fields, t': Table, ok: bool) returns (c: Change)
    requires Sound(m, pc, t) && r in Listed(pc) && SetCall(t, r.id, diff, t', ok) && "comment" !in diff
    ensures Permitted(m, t, c) && t' == Apply(t, c)
    ensures forall solo :: View(m, t, solo) ==> SetCall(solo, r.id, diff, Apply(solo, c), ok)
  {
    hide Own, Update, Get;
    KnownId(m, pc, t, r);
    c := if t' == t && !ok then Same else Updated(r.id, diff);
  }

  lemma AddChange(m: string, t: Table, fields: Fields, t': Table) returns (c: Change)
    requires AddCall(t, fields, t') && Get(fields, "comment") == m
    ensures Permitted(m, t, c) && t' == Apply(t, c)
    ensures forall solo :: View(m, t, solo) ==> AddCall(solo, fields, Apply(solo, c))
  {
    hide Own, Get;
    c := Same;
    if t' != t {
      if id: nat :| id >= t.next && t' == AddedAs(t, id, fields) {
        c := New(id, fields);
      } else {
        var id: nat, again: nat :| id >= t.next && again > id && t' == AddedAs(AddedAs(t, id, fields), again, fields);
        c := NewTwice(id, again, fields);
      }
    }
  }

  /** Every step of the code is a permitted change, and alone on its own rules it makes the same step. */
  lemma StepChange(m: string, pc: Point, t: Table, pc': Point, t': Table) returns (c: Change)
    requires WellFormed(t) && Sound(m, pc, t) && StepOf(m, pc, t, pc', t')
    ensures Permitted(m, t, c) && t' == Apply(t, c)
    ensures forall solo :: View(m, t, solo) ==> StepOf(m, pc, solo, pc', Apply(solo, c))
  {
    hide Own, Get, Diff, RemoveCall, SetCall, AddCall, Ids;
    c := Same;
    match pc {
      case Idle =>
      case Listing(task) =>
        OwnOwn(t.rows, m);
      case Deduplicating(task, cur, i) =>
        var ok :| RemoveCall(t, cur[i].id, t', ok);
        c := RemoveChange(m, pc, t, cur[i], t', ok);
      case Adjusting(task, cur) =>
        var diff := Diff(cur[0].fields, task.want);
        KnownDiff(m, cur[0], task.want);
        if task.rebuild && Get(cur[0].fields, "chain") != Get(task.want, "chain") {
          var ok :| RemoveCall(t, cur[0].id, t', ok) && pc' == if ok then Adding(task) else Idle;
          c := RemoveChange(m, pc, t, cur[0], t', ok);
        } else if diff != map[] {
          var ok :| SetCall(t, cur[0].id, diff, t', ok);
          c := SetChange(m, pc, t, cur[0], diff, t', ok);
        }
      case Adding(task) =>
        c := AddChange(m, t, task.want, t');
      case Removing(cur, i) =>
        var ok :| RemoveCall(t, cur[i].id, t', ok)
                  && pc' == if ok && i + 1 < |cur| then Removing(cur, i + 1) else Idle;
        c := RemoveChange(m, pc, t, cur[i], t', ok);
    }
  }

  /** A permitted change acts on the own rules and leaves the foreign ones, in their order. */
  lemma ChangeEffect(m: string, t: Table, c: Change, solo: Table)
    requires WellFormed(t) && Permitted(m, t, c) && View(m, t, solo)
    ensures WellFormed(Apply(t, c)) && Apply(t, c).next >= t.next
    ensures Foreign(Apply(t, c).rows, m) == Foreign(t.rows, m)
    ensures View(m, Apply(t, c), Apply(solo, c))
  {
    hide Own, Foreign, Get;
    match c {
      case Same =>
      case Dropped(id) =>
        DropDistinct(t.rows, {id});
        OwnDrop(t.rows, {id}, m);
        DropNone(Foreign(t.rows, m), {id});
        forall i | 0 <= i < |Drop(t.rows, {id})| ensures Drop(t.rows, {id})[i].id < t.next {
          assert Drop(t.rows, {id})[i] in t.rows;
        }
      case Updated(id, diff) =>
        OwnUpdate(t.rows, id, diff, m);
        UpdateNone(Foreign(t.rows, m), id, diff);
      case New(id, fields) =>
        AddEffect(m, t, id, fields);
      case NewTwice(id, again, fields) =>
        AddEffect(m, t, id, fields);
        AddEffect(m, AddedAs(t, id, fields), again, fields);
    }
  }

  lemma AddEffect(m: string, t: Table, id: nat, fields: Fields)
    requires WellFormed(t) && id >= t.next && Get(fields, "comment") == m
    ensures WellFormed(AddedAs(t, id, fields))
    ensures Foreign(AddedAs(t, id, fields).rows, m) == Foreign(t.rows, m)
    ensures Own(AddedAs(t, id, fields).rows, m) == Own(t.rows, m) + [Row(id, fields)]
  {
    hide Own, Foreign;
    OwnAppend(t.rows, Row(id, fields), m);
  }

  /** The rows of t' as steps of reconciler m may leave them. */
  ghost predicate RowsFrom(m: string, t: Table, t': Table)
  {
    && t'.next >= t.next
    && forall r :: r in t'.rows ==>
         || r in t.rows
         || r.id >= t.next
         || (IsOwn(r, m) && exists o :: o in t.rows && o.id == r.id && IsOwn(o, m))
  }

  /** After a permitted change a rule is as before, or new, or an own rule that was there under its id. */
  lemma ChangedRows(m: string, t: Table, c: Change)
    requires Permitted(m, t, c)
    ensures RowsFrom(m, t, Apply(t, c))
  {
    hide Own, Drop, Update;
    if c.Updated? {
      var u := Update(t.rows, c.id, c.diff);
      forall r | r in u && r !in t.rows
        ensures IsOwn(r, m) && exists o :: o in t.rows && o.id == r.id && IsOwn(o, m)
      {
        var i :| 0 <= i < |u| && u[i] == r;
        assert t.rows[i] in t.rows && t.rows[i].id == r.id;
      }
    }
  }

  lemma OtherPointSound(m: string, q: string, pc: Point, t: Table, t': Table)
    requires m != q && Sound(q, pc, t) && RowsFrom(m, t, t')
    ensures Sound(q, pc, t')
  {
    hide Get;
    forall r, o | r in Listed(pc) && o in t'.rows && o.id == r.id ensures IsOwn(o, q) {
      if o !in t.rows {
        var was :| was in t.rows && was.id == o.id && IsOwn(was, m);
        assert false;
      }
    }
  }

  /** A step keeps what every reconciler knows about the rules it listed. */
  lemma StepKeepsInv(m: string, s: System, s': System)
    requires Inv(s) && StepBy(m, s, s')
    ensures Inv(s')
  {
    hide Own, Foreign, IsOwn, Apply, Permitted, StepOf, Sound, RowsFrom;
    var c := StepChange(m, s.points[m], s.table, s'.points[m], s'.table);
    ChangeEffect(m, s.table, c, Table(Own(s.table.rows, m), s.table.next));
    ChangedRows(m, s.table, c);
    forall q | q in s'.points ensures Sound(q, s'.points[q], s'.table) {
      if q == m {
        OwnPointSound(m, s.points[m], s.table, s'.points[m], s'.table);
      } else {
        OtherPointSound(m, q, s.points[q], s.table, s'.table);
      }
    }
  }

  lemma OwnPointSound(m: string, pc: Point, t: Table, pc': Point, t': Table)
    requires WellFormed(t) && Sound(m, pc, t) && StepOf(m, pc, t, pc', t') && RowsFrom(m, t, t')
    ensures Sound(m, pc', t')
  {
    hide Get, StepOf, Own;
    PointsListed(m, pc, t, pc', t');
    forall r, o | r in Listed(pc') && o in t'.rows && o.id == r.id ensures IsOwn(o, m) {
      if r in Own(t.rows, m) && o in t.rows { SameId(t.rows, o, r); }
    }
  }

  /** A reconciler works on the rules it listed last. */
  lemma PointsListed(m: string, pc: Point, t: Table, pc': Point, t': Table)
    requires StepOf(m, pc, t, pc', t')
    ensures Listed(pc') == [] || Listed(pc') == Listed(pc) || Listed(pc') == Own(t.rows, m)
    ensures WantOf(pc') == Remove || WantOf(pc') == WantOf(pc) || Get(WantOf(pc').want, "comment") == m
  {
    hide Get, Own, Diff, RemoveCall, SetCall, AddCall;
  }

  /** What reconciler m did in an interleaved run, replayed on its own rules alone. */
  ghost predicate Replays(solo: seq<Solo>, run: seq<System>, m: string)
    requires run != [] && m in run[0].points
  {
    var last := run[|run| - 1];
    && |solo| == |run| && IsSoloRun(solo, m)
    && solo[0].table.rows == Own(run[0].table.rows, m)
    && m in last.points && solo[|run| - 1].point == last.points[m]
    && View(m, last.table, solo[|run| - 1].table)
  }

  lemma {:induction false} SoloRunOf(run: seq<System>, m: string) returns (solo: seq<Solo>)
    requires IsRun(run) && m in run[0].points
    ensures var last := run[|run| - 1];
      && Inv(last) && last.points.Keys == run[0].points.Keys && Replays(solo, run, m)
      && Unmarked(last.table.rows, last.points.Keys) == Unmarked(run[0].table.rows, last.points.Keys)
  {
    hide StepOf, Own, Foreign, Unmarked, Sound, WellFormed;
    var n := |run| - 1;
    if n == 0 {
      InitInv(run[0]);
      solo := [Solo(Idle, Table(Own(run[0].table.rows, m), run[0].table.next))];
    } else {
      var init := run[..n];
      assert IsRun(init);
      var before := SoloRunOf(init, m);
      var s, s' := run[n - 1], run[n];
      assert init[n - 1] == s;
      assert Step(run[n - 1], run[n - 1 + 1]);
      var q :| q in s.points && StepBy(q, s, s');
      StepKeepsInv(q, s, s');
      var next := NextSolo(q, m, s, s', before[n - 1]);
      solo := before + [next];
    }
  }

  /**
   Isolation. In every interleaved run, each reconciler's rules evolve exactly as in a run of that
   reconciler alone with the same calls and the same ids, and rules without any of the markers
   never change.
   */
  lemma RunsAreIsolated(run: seq<System>, m: string)
    requires IsRun(run) && m in run[0].points
    ensures exists solo :: Replays(solo, run, m)
    ensures var last := run[|run| - 1];
      Unmarked(last.table.rows, last.points.Keys) == Unmarked(run[0].table.rows, last.points.Keys)
  {
    var solo := SoloRunOf(run, m);
  }

  lemma InitInv(s: System)
    requires WellFormed(s.table) && forall m :: m in s.points ==> s.points[m] == Idle
    ensures Inv(s)
  {
  }

  lemma NextSolo(q: string, m: string, s: System, s': System, solo: Solo) returns (next: Solo)
    requires Inv(s) && StepBy(q, s, s') && m in s.points
    requires solo.point == s.points[m] && View(m, s.table, solo.table)
    ensures next == solo || StepOf(m, solo.point, solo.table, next.point, next.table)
    ensures next.point == s'.points[m] && View(m, s'.table, next.table)
    ensures Unmarked(s'.table.rows, s.points.Keys) == Unmarked(s.table.rows, s.points.Keys)
  {
    hide StepOf, Own, Foreign, Unmarked, Apply, Permitted;
    assert Sound(q, s.points[q], s.table);
    var c := StepChange(q, s.points[q], s.table, s'.points[q], s'.table);
    var mine := if q == m then solo.table else Table(Own(s.table.rows, q), s.table.next);
    ChangeEffect(q, s.table, c, mine);
    UnmarkedOfForeign(s.table.rows, q, s.points.Keys);
    UnmarkedOfForeign(s'.table.rows, q, s.points.Keys);
    if q == m {
      next := Solo(s'.points[m], Apply(solo.table, c));
    } else {
      OwnOfForeign(s.table.rows, q, m);
      OwnOfForeign(s'.table.rows, q, m);
      next := solo;
    }
  }
}
