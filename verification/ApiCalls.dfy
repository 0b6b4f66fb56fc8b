/**
 What a call of the dialer is to a rule table of the router: the connection's record of a call joined
 to the faults under which the reconcilers are proved (internal/router/binapi/client.go, internal/router/nat.go).
 */
module ApiCalls {
  import opened Bits
  import opened Codec
  import opened Sentences
  import D = Dialers
  import opened NatRules
  import opened Reconcilers
  import opened RuleLemmas

  /** How often the router executed the command. */
  function Runs(f: Fault): nat
  {
    match f
    case LostRequest => 0
    case LostReply => 1
    case Healthy => 1
    case Doubled(_) => 2
  }

  /** What a call looked like from the number of executions and from whether it returned rows. */
  function FaultOf(runs: int, rows: bool): Fault
  {
    if runs <= 0 then LostRequest
    else if runs == 1 then if rows then Healthy else LostReply
    else Doubled(rows)
  }

  /**
   Every call that the dialer can make is one of the faults, with its number of executions and its
   success, and each execution is of this very command with exactly these fields.
   */
  lemma CallIsFault(before: seq<D.Exchange>, after: seq<D.Exchange>, cmd: Bytes, kv: map<Bytes, Bytes>,
                    order: seq<Bytes>, res: D.Outcome)
    requires Ordering(order, kv.Keys) && forall k :: k in kv ==> EQ !in k
    ensures D.CallRecord(before, after, [cmd] + KvList(kv, order), res) ==>
              && Recorded(before, after, res, FaultOf(|after| - |before|, res.Rows?))
              && forall i :: |before| <= i < |after| ==> Interpret(after[i].cmd) == Sentence(cmd, kv)
  {
    RecordIsFault(before, after, [cmd] + KvList(kv, order), res);
    WordsRead(cmd, kv, order);
    hide *;
  }

  /** The log grew by the executions of the fault, and the call returned rows just if the fault says so. */
  predicate Recorded(before: seq<D.Exchange>, after: seq<D.Exchange>, res: D.Outcome, f: Fault)
  {
    before <= after && |after| - |before| == Runs(f) && (res.Rows? <==> Replied(f))
  }

  lemma RecordIsFault(before: seq<D.Exchange>, after: seq<D.Exchange>, words: seq<Bytes>, res: D.Outcome)
    ensures D.CallRecord(before, after, words, res) ==>
              && Recorded(before, after, res, FaultOf(|after| - |before|, res.Rows?))
              && forall i :: |before| <= i < |after| ==> after[i].cmd == words
  {
    hide D.Answer, D.Complete, D.RowsOf;
    if D.CallRecord(before, after, words, res) {
      var d: seq<D.Exchange> :| after == before + d && D.Executions(d, words) && (res.Rows? ==> d != []);
    }
  }

  /** And the dialer can meet with every fault, on every command. */
  lemma EveryFaultHappens(f: Fault, before: seq<D.Exchange>, words: seq<Bytes>)
    returns (after: seq<D.Exchange>, res: D.Outcome)
    ensures D.CallRecord(before, after, words, res)
    ensures Recorded(before, after, res, f)
  {
    var a: D.Script := [[D.DONE]];
    var x := D.Exchange(words, a);
    var d := if Runs(f) == 0 then [] else if Runs(f) == 1 then [x] else [x, x];
    assert D.Answer(a) && D.Complete(a);
    hide D.Answer, D.Complete, D.RowsOf;
    res := if Replied(f) then D.Rows(D.RowsOf(a)) else D.Broken;
    after := before + d;
    assert D.Executions(d, words);
    assert d != [] ==> d[|d| - 1].answer == a;
  }

  datatype Command = AddRule(fields: Fields) | SetRule(id: nat, diff: Fields) | RemoveRule(id: nat)

  /** The router executes a command; one about an unknown rule changes nothing. */
  function Execute(t: Table, c: Command): Table
  {
    match c
    case AddRule(fields) => Added(t, fields)
    case SetRule(id, diff) => Table(Update(t.rows, id, diff), t.next)
    case RemoveRule(id) => Table(Drop(t.rows, {id}), t.next)
  }

  function ExecuteTimes(t: Table, c: Command, n: nat): Table
  {
    if n == 0 then t else Execute(ExecuteTimes(t, c, n - 1), c)
  }

  /** What a rule table goes through under a fault is the execution of the command that many times. */
  lemma FaultRunsCommand(t: Table, f: Fault, fields: Fields, id: nat)
    ensures AfterAdd(t, fields, f) == ExecuteTimes(t, AddRule(fields), Runs(f))
    ensures AfterSet(t, id, fields, f) == ExecuteTimes(t, SetRule(id, fields), Runs(f))
    ensures AfterRemove(t, id, f) == ExecuteTimes(t, RemoveRule(id), Runs(f))
  {
    RunTwice(t, AddRule(fields));
    RunTwice(t, SetRule(id, fields));
    RunTwice(t, RemoveRule(id));
    hide Drop, Update, Added, ExecuteTimes;
    SetTwice(t.rows, id, fields);
    DropDrop(t.rows, {id}, {id});
    assert {id} + {id} == {id};
  }

  lemma RunTwice(t: Table, c: Command)
    ensures ExecuteTimes(t, c, 0) == t && ExecuteTimes(t, c, 1) == Execute(t, c)
    ensures ExecuteTimes(t, c, 2) == Execute(Execute(t, c), c)
  {
    assert ExecuteTimes(t, c, 1) == Execute(ExecuteTimes(t, c, 0), c);
  }

  lemma SetTwice(rows: seq<Row>, id: nat, diff: Fields)
    ensures Update(Update(rows, id, diff), id, diff) == Update(rows, id, diff)
  {
    assert forall f: Fields :: f + diff + diff == f + diff;
  }
}
