/**
 Convergence among others (internal/router/nat.go): in any interleaving, whatever happens to the
 calls of the other reconcilers, an Ensure whose own calls succeed ends with exactly its rule, and a
 Remove with none.
 */
module Convergence {
  import opened NatRules
  import opened RuleLemmas
  import opened Isolation
  import Reconcilers

  /** A step whose call succeeds. */
  ghost predicate HealthyStep(m: string, pc: Point, t: Table, pc': Point, t': Table)
  {
    match pc
    case Idle => StepOf(m, pc, t, pc', t')
    case Listing(task) => t' == t && pc' == AfterListing(task, Own(t.rows, m))
    case Deduplicating(task, cur, i) =>
      i < |cur| && pc' == AfterDuplicates(task, cur, i + 1) && t' == Table(Drop(t.rows, {cur[i].id}), t.next)
    case Adjusting(task, cur) =>
      && task.Ensure? && cur != []
      && (if task.rebuild && Get(cur[0].fields, "chain") != Get(task.want, "chain")
          then t' == Table(Drop(t.rows, {cur[0].id}), t.next) && pc' == Adding(task)
          else if Diff(cur[0].fields, task.want) == map[] then t' == t && pc' == Idle
          else pc' == Idle && t' == Table(Update(t.rows, cur[0].id, Diff(cur[0].fields, task.want)), t.next))
    case Adding(task) =>
      task.Ensure? && pc' == Idle && exists id: nat :: id >= t.next && t' == AddedAs(t, id, task.want)
    case Removing(cur, i) =>
      && i < |cur| && t' == Table(Drop(t.rows, {cur[i].id}), t.next)
      && pc' == if i + 1 < |cur| then Removing(cur, i + 1) else Idle
  }

  /** The own rules when a task that has met no failure stands at a program point. */
  ghost predicate Progress(pc: Point, own: seq<Row>, task: Task)
  {
    match pc
    case Idle =>
      if task.Ensure? then |own| == 1 && Reconcilers.Agrees(own[0], task.want) else own == []
    case Listing(now) => now == task
    case Deduplicating(now, cur, i) => now == task && task.Ensure? && 1 <= i < |cur| && own == [cur[0]] + cur[i..]
    case Adjusting(now, cur) => now == task && task.Ensure? && cur != [] && own == [cur[0]]
    case Adding(now) => now == task && task.Ensure? && own == []
    case Removing(cur, i) => task.Remove? && i < |cur| && own == cur[i..]
  }

  /** The wanted fields carry the marker, and none is empty. */
  predicate Proper(task: Task, m: string)
  {
    task.Ensure? ==> Get(task.want, "comment") == m && forall k :: k in task.want ==> task.want[k] != ""
  }

  lemma DropsOwn(m: string, t: Table, a: seq<Row>, r: Row, b: seq<Row>)
    requires WellFormed(t) && Own(t.rows, m) == a + ([r] + b)
    ensures Own(Drop(t.rows, {r.id}), m) == a + b
  {
    assert Distinct(t.rows);
    hide Own, Drop, WellFormed;
    OwnDistinct(t.rows, m);
    OwnDrop(t.rows, {r.id}, m);
    DropsFrom(a, r, b);
  }

  lemma DropsFrom(a: seq<Row>, r: Row, b: seq<Row>)
    requires Distinct(a + ([r] + b))
    ensures Drop(a + ([r] + b), {r.id}) == a + b
  {
    hide Drop;
    var rows := a + ([r] + b);
    assert rows[|a|] == r && forall i :: 0 <= i < |b| ==> rows[|a| + 1 + i] == b[i];
    assert forall i :: 0 <= i < |a| ==> rows[i] == a[i];
    Reconcilers.DropConcat(a, [r] + b, {r.id});
    Reconcilers.DropCons(r, b, {r.id});
    DropNone(a, {r.id});
    DropNone(b, {r.id});
  }

  /** One healthy step of the task's own reconciler. */
  lemma OwnStep(m: string, pc: Point, t: Table, pc': Point, t': Table, task: Task)
    requires WellFormed(t) && HealthyStep(m, pc, t, pc', t') && pc != Idle && Proper(task, m)
    requires Progress(pc, Own(t.rows, m), task)
    ensures Progress(pc', Own(t'.rows, m), task)
  {
    hide Own, Drop, WellFormed, Diff, Update;
    var own := Own(t.rows, m);
    match pc {
      case Listing(now) =>
        assert own == [] || own == [own[0]] + own[1..];
        assert |own| == 1 ==> own == [own[0]];
        assert own[0..] == own;
      case Deduplicating(now, cur, i) =>
        assert own == [cur[0]] + ([cur[i]] + cur[i + 1..]);
        DropsOwn(m, t, [cur[0]], cur[i], cur[i + 1..]);
        assert i + 1 == |cur| ==> [cur[0]] + cur[i + 1..] == [cur[0]];
      case Adjusting(now, cur) =>
        AdjustStep(m, t, cur[0], task.want);
        assert own == [] + ([cur[0]] + []);
        DropsOwn(m, t, [], cur[0], []);
      case Adding(now) =>
        var id: nat :| id >= t.next && t' == AddedAs(t, id, task.want);
        OwnAppend(t.rows, Row(id, task.want), m);
      case Removing(cur, i) =>
        assert own == [] + ([cur[i]] + cur[i + 1..]);
        DropsOwn(m, t, [], cur[i], cur[i + 1..]);
        assert [] + cur[i + 1..] == cur[i + 1..];
    }
  }

  lemma AdjustStep(m: string, t: Table, r: Row, want: Fields)
    requires WellFormed(t) && Own(t.rows, m) == [r] && Get(want, "comment") == m && forall k :: k in want ==>
        want[k] != ""
    ensures Diff(r.fields, want) == map[] ==> Reconcilers.Agrees(r, want)
    ensures var now := Own(Update(t.rows, r.id, Diff(r.fields, want)), m);
            |now| == 1 && Reconcilers.Agrees(now[0], want)
  {
    hide Own, Foreign;
    var diff := Diff(r.fields, want);
    DiffConverges(r.fields, want);
    assert r in Own(t.rows, m);
    ForeignKeptByUpdate(t.rows, r, diff, m);
  }

  /** A healthy step is one of the steps that the code can make. */
  lemma HealthyStepIsStep(m: string, pc: Point, t: Table, pc': Point, t': Table, task: Task)
    requires HealthyStep(m, pc, t, pc', t') && Progress(pc, Own(t.rows, m), task)
    ensures StepOf(m, pc, t, pc', t')
  {
    var own := Own(t.rows, m);
    forall r | r in own ensures r.id in Ids(t.rows) { OwnHasId(t, r, m); }
    hide Drop, Update, Diff, Own, Ids, StepOf;
    match pc {
      case Idle =>
        IdleStep(m, pc, t, pc', t');
      case Listing(_) =>
        ListingStep(m, pc, t, pc', t');
      case Deduplicating(_, cur, i) =>
        assert own[1] == cur[i] && cur[i] in own;
        RemovingStep(m, pc, t, pc', t', cur[i].id);
      case Adjusting(now, cur) =>
        assert own[0] == cur[0] && cur[0] in own;
        AdjustingStep(m, pc, t, pc', t');
      case Adding(now) =>
        AddingStep(m, pc, t, pc', t');
      case Removing(cur, i) =>
        assert own[0] == cur[i] && cur[i] in own;
        RemovingStep(m, pc, t, pc', t', cur[i].id);
    }
  }

  lemma OwnHasId(t: Table, r: Row, m: string)
    requires r in Own(t.rows, m)
    ensures r.id in Ids(t.rows)
  {
  }

  lemma IdleStep(m: string, pc: Point, t: Table, pc': Point, t': Table)
    requires pc.Idle? && HealthyStep(m, pc, t, pc', t')
    ensures StepOf(m, pc, t, pc', t')
  {
    hide StepOf;
  }

  lemma ListingStep(m: string, pc: Point, t: Table, pc': Point, t': Table)
    requires pc.Listing? && HealthyStep(m, pc, t, pc', t')
    ensures StepOf(m, pc, t, pc', t')
  {
    hide Own, AfterListing;
  }

  lemma RemovingStep(m: string, pc: Point, t: Table, pc': Point, t': Table, id: nat)
    requires (pc.Deduplicating? || pc.Removing?) && HealthyStep(m, pc, t, pc', t')
    requires pc.i < |pc.cur| && id == pc.cur[pc.i].id && id in Ids(t.rows)
    ensures StepOf(m, pc, t, pc', t')
  {
    hide Own, Drop, Ids;
    assert RemoveCall(t, id, t', true);
  }

  lemma AdjustingStep(m: string, pc: Point, t: Table, pc': Point, t': Table)
    requires pc.Adjusting? && HealthyStep(m, pc, t, pc', t') && pc.cur[0].id in Ids(t.rows)
    ensures StepOf(m, pc, t, pc', t')
  {
    hide Own, Drop, Ids, Update, Diff;
    var r, diff := pc.cur[0], Diff(pc.cur[0].fields, pc.task.want);
    assert RemoveCall(t, r.id, Table(Drop(t.rows, {r.id}), t.next), true);
    assert SetCall(t, r.id, diff, Table(Update(t.rows, r.id, diff), t.next), true);
  }

  lemma AddingStep(m: string, pc: Point, t: Table, pc': Point, t': Table)
    requires pc.Adding? && HealthyStep(m, pc, t, pc', t')
    ensures StepOf(m, pc, t, pc', t')
  {
    hide AddedAs;
  }

  // ----- among others ------------------------------------------------------------------------------

  /** A step of another reconciler changes nothing that this one owns. */
  lemma OtherStep(m: string, q: string, s: System, s': System)
    requires Inv(s) && StepBy(q, s, s') && m in s.points && m != q
    ensures s'.points[m] == s.points[m] && Own(s'.table.rows, m) == Own(s.table.rows, m)
  {
    hide StepOf, Own, Foreign, Apply, Permitted;
    assert Sound(q, s.points[q], s.table);
    var c := StepChange(q, s.points[q], s.table, s'.points[q], s'.table);
    ChangeEffect(q, s.table, c, Table(Own(s.table.rows, q), s.table.next));
    OwnOfForeign(s.table.rows, q, m);
    OwnOfForeign(s'.table.rows, q, m);
  }

  lemma {:induction false} InvAt(run: seq<System>, i: nat)
    requires IsRun(run) && i < |run|
    ensures Inv(run[i]) && run[i].points.Keys == run[0].points.Keys
  {
    hide StepOf, Sound;
    if i == 0 {
      InitInv(run[0]);
    } else {
      InvAt(run, i - 1);
      assert Step(run[i - 1], run[i - 1 + 1]);
      var q :| q in run[i - 1].points && StepBy(q, run[i - 1], run[i]);
      StepKeepsInv(q, run[i - 1], run[i]);
    }
  }

  /** From step k on, every call that reconciler m makes succeeds. */
  ghost predicate HealthyFrom(run: seq<System>, m: string, k: nat)
  {
    forall i :: k <= i < |run| - 1 && m in run[i].points && m in run[i + 1].points && StepBy(m, run[i], run[i + 1]) ==>
      HealthyStep(m, run[i].points[m], run[i].table, run[i + 1].points[m], run[i + 1].table)
  }

  /** From step k on, reconciler m is at work, up to the last step before l. */
  ghost predicate Working(run: seq<System>, m: string, k: nat, l: nat)
  {
    forall i :: k <= i < l && i < |run| && m in run[i].points ==> run[i].points[m] != Idle
  }

  /**
   In every interleaved run, a task that starts at step k and whose own calls succeed stands, as
   long as it has not returned, where its progress says, and when it returns its work is done.
   */
  lemma {:induction false} TaskProgresses(run: seq<System>, m: string, k: nat, l: nat, task: Task)
    requires IsRun(run) && m in run[0].points && k <= l < |run| && Proper(task, m)
    requires m in run[k].points && run[k].points[m] == Listing(task)
    requires HealthyFrom(run, m, k) && Working(run, m, k, l)
    ensures m in run[l].points && Progress(run[l].points[m], Own(run[l].table.rows, m), task)
    decreases l
  {
    hide Own, StepOf, HealthyStep, Progress, Sound, Proper;
    if l == k {
      assert Progress(Listing(task), Own(run[l].table.rows, m), task) by { ListingIsProgress(Own(run[l].table.rows,
          m), task); }
    } else {
      TaskProgresses(run, m, k, l - 1, task);
      var s, s' := run[l - 1], run[l - 1 + 1];
      InvAt(run, l - 1);
      InvAt(run, l);
      assert Step(run[l - 1], run[l - 1 + 1]);
      var q :| q in s.points && StepBy(q, s, s');
      if q == m {
        OwnStep(m, s.points[m], s.table, s'.points[m], s'.table, task);
      } else {
        OtherStep(m, q, s, s');
      }
    }
  }

  lemma ListingIsProgress(own: seq<Row>, task: Task)
    ensures Progress(Listing(task), own, task)
  {
  }

  /** An Ensure whose own calls succeed ends settled, whatever the other reconcilers do meanwhile. */
  lemma EnsureConvergesAmongOthers(run: seq<System>, m: string, k: nat, l: nat, want: Fields, rebuild: bool)
    requires IsRun(run) && m in run[0].points && k <= l < |run|
    requires Get(want, "comment") == m && forall x :: x in want ==> want[x] != ""
    requires m in run[k].points && run[k].points[m] == Listing(Ensure(want, rebuild))
    requires HealthyFrom(run, m, k) && Working(run, m, k, l) && m in run[l].points && run[l].points[m] == Idle
    ensures Reconcilers.Settled(run[l].table.rows, m, want)
  {
    TaskProgresses(run, m, k, l, Ensure(want, rebuild));
    hide Own;
  }

  /** A Remove whose own calls succeed leaves no own rule. */
  lemma RemoveClearsAmongOthers(run: seq<System>, m: string, k: nat, l: nat)
    requires IsRun(run) && m in run[0].points && k <= l < |run|
    requires m in run[k].points && run[k].points[m] == Listing(Remove)
    requires HealthyFrom(run, m, k) && Working(run, m, k, l) && m in run[l].points && run[l].points[m] == Idle
    ensures Own(run[l].table.rows, m) == []
  {
    TaskProgresses(run, m, k, l, Remove);
    hide Own;
  }
}
