/**
 The synchronous API connection with drop-and-retry (internal/router/binapi/client.go and the
 connection set-up of conn.go). A reply can be lost or cut at any byte, a request can arrive
 whole although sending it failed, and a failed call is sent once more on a new connection.
 Rows are nevertheless never attributed to another command.
 */
module Dialers {
  import opened Wrappers
  import opened Bits
  import opened Codec
  import opened Sentences

  const RE: Bytes := [33, 114, 101]                  // "!re"
  const DONE: Bytes := [33, 100, 111, 110, 101]      // "!done"
  const TRAP: Bytes := [33, 116, 114, 97, 112]       // "!trap"
  const FATAL: Bytes := [33, 102, 97, 116, 97, 108]  // "!fatal"

  // ----- what a router answers ---------------------------------------------

  /** The sentences a router sends for one command, each as its words. */
  type Script = seq<seq<Bytes>>

  predicate Tagged(words: seq<Bytes>, tag: Bytes) { words != [] && words[0] == tag }

  predicate RowsThen(script: Script, rows: nat)
  {
    rows < |script| && forall i :: 0 <= i < rows ==> Tagged(script[i], RE)
  }

  predicate Complete(script: Script)
  {
    |script| > 0 && RowsThen(script, |script| - 1) && Tagged(script[|script| - 1], DONE)
  }

  /** !re* then !done; !re* then !trap and !done; or !re* then !fatal. */
  predicate Answer(script: Script)
  {
    && StreamSendable(script)
    && (|| Complete(script)
        || (|script| > 1 && RowsThen(script, |script| - 2) && Tagged(script[|script| - 2], TRAP)
            && Tagged(script[|script| - 1], DONE))
        || (|script| > 0 && RowsThen(script, |script| - 1) && Tagged(script[|script| - 1], FATAL)))
  }

  /** The rows of a complete answer; a !done that carries words is a row, too. */
  function RowsOf(script: Script): seq<map<Bytes, Bytes>>
  {
    if script == [] then []
    else
      var m := Interpret(script[0]).words;
      (if Tagged(script[0], DONE) && m == map[] then [] else [m]) + RowsOf(script[1..])
  }

  // ----- what the receiving loop makes of a byte stream -------------------------

  datatype Outcome =
    | Rows(rows: seq<map<Bytes, Bytes>>)
    | Trap(words: map<Bytes, Bytes>)
    | Fatal(words: map<Bytes, Bytes>)
    | Broken

  function Collect(s: Bytes, rows: seq<map<Bytes, Bytes>>): (Outcome, Bytes)
    decreases |s|
  {
    match DecodeSentence(s)
    case Err(_) => (Broken, s)
    case Ok((ws, rest)) =>
      var m := Interpret(ws);
      if m.reply == RE then Collect(rest, rows + [m.words])
      else if m.reply == DONE then (Rows(if m.words == map[] then rows else rows + [m.words]), rest)
      else if m.reply == TRAP then (Trap(m.words), rest)
      else if m.reply == FATAL then (Fatal(m.words), rest)
      else Collect(rest, rows)
  }

  lemma {:induction false} CollectExtends(s: Bytes, t: Bytes, rows: seq<map<Bytes, Bytes>>)
    requires Collect(s, rows).0 != Broken
    ensures Collect(s + t, rows) == (Collect(s, rows).0, Collect(s, rows).1 + t)
    decreases |s|
  {
    hide DecodeSentence, Pairs;
    DecodeSentenceExtends(s, t);
    var (ws, rest) := DecodeSentence(s).value;
    var m := Interpret(ws);
    if m.reply == RE {
      CollectExtends(rest, t, rows + [m.words]);
    } else if m.reply != DONE && m.reply != TRAP && m.reply != FATAL {
      CollectExtends(rest, t, rows);
    }
  }

  /** A whole answer: its rows if it is complete, an error otherwise. */
  lemma {:induction false} CollectAnswer(script: Script, rows: seq<map<Bytes, Bytes>>)
    requires Answer(script)
    ensures Complete(script) ==> Collect(EncodeStream(script), rows) == (Rows(rows + RowsOf(script)), [])
    ensures !Complete(script) ==> var r := Collect(EncodeStream(script), rows).0; r.Trap? || r.Fatal?
    decreases |script|
  {
    hide DecodeSentence, EncodeSentence, Pairs;
    var ws, rest := script[0], EncodeStream(script[1..]);
    SentenceRoundTrip(ws, rest);
    var m := Interpret(ws);
    if m.reply == RE {
      assert Complete(script) <==> Complete(script[1..]);
      CollectAnswer(script[1..], rows + [m.words]);
      assert rows + [m.words] + RowsOf(script[1..]) == rows + RowsOf(script);
    } else if m.reply == DONE {
      assert script[1..] == [] && EncodeStream(script[1..]) == [];
      assert RowsOf(script) == if m.words == map[] then [] else [m.words];
      assert rows + [] == rows;
    }
  }

  /** An answer cut after k bytes yields rows exactly if it is complete and nothing is missing. */
  lemma CollectCut(script: Script, k: nat)
    requires Answer(script) && k <= |EncodeStream(script)|
    ensures Collect(EncodeStream(script)[..k], []).0.Rows? <==> Complete(script) && k == |EncodeStream(script)|
    ensures Complete(script) && k == |EncodeStream(script)| ==>
              Collect(EncodeStream(script)[..k], []) == (Rows(RowsOf(script)), [])
  {
    hide Collect, EncodeStream, Complete, RowsOf, Answer;
    var s := EncodeStream(script);
    CollectAnswer(script, []);
    assert [] + RowsOf(script) == RowsOf(script);
    assert s[..k] + s[k..] == s && (k == |s| ==> s[..k] == s);
    if Collect(s[..k], []).0.Rows? {
      CollectExtends(s[..k], s[k..], []);
    }
  }

  // ----- router and connection --------------------------------------------------

  /** `unread` is the answer `a`, cut after k bytes. */
  ghost predicate Reply(unread: Bytes, a: Script, k: nat)
  {
    Answer(a) && k <= |EncodeStream(a)| && unread == EncodeStream(a)[..k]
  }

  datatype Exchange = Exchange(cmd: seq<Bytes>, answer: Script)

  /** `after` is `before` and one more execution of `words`, answered by `a`. */
  ghost predicate Executed(before: seq<Exchange>, after: seq<Exchange>, words: seq<Bytes>, a: Script)
  {
    Answer(a) && after == before + [Exchange(words, a)]
  }

  /**
   What the environment did: whether a connection came about; and for a request, whether all its
   writes succeeded and, if it arrived whole, its answer and how many bytes of that come back.
   */
  datatype Event =
    | Connecting(ok: bool)
    | Asking(login: bool, words: seq<Bytes>, sent: bool, reply: Option<(Script, nat)>)

  /** Nothing went wrong. */
  predicate Good(e: Event)
  {
    match e
    case Connecting(ok) => ok
    case Asking(_, _, sent, reply) =>
      sent && reply.Some? && Complete(reply.value.0) && reply.value.1 == |EncodeStream(reply.value.0)|
  }

  /** The executions that a reply stands for. */
  function Runs(words: seq<Bytes>, reply: Option<(Script, nat)>): seq<Exchange>
  {
    if reply.Some? then [Exchange(words, reply.value.0)] else []
  }

  ghost predicate Arrives(unread: Bytes, reply: Option<(Script, nat)>)
  {
    if reply.Some? then Reply(unread, reply.value.0, reply.value.1) else unread == []
  }

  /** The far end: what it executed and how it answered, and all that happened on the way. */
  class Router {
    var log: seq<Exchange>
    var logins: seq<Exchange>
    ghost var trace: seq<Event>

    /** A connection to the API port comes about or not. */
    method Connect() returns (ok: bool)
      modifies this`trace
      ensures trace == old(trace) + [Connecting(ok)]
    {
      ok := *;
      trace := trace + [Connecting(ok)];
    }

    /** Some answer, cut somewhere. */
    method Respond() returns (a: Script, unread: Bytes, ghost k: nat)
      ensures Reply(unread, a, k)
    {
      a := *;
      if !Answer(a) { a := [[DONE]]; }
      var j: int := *;
      if j < 0 || j > |EncodeStream(a)| { j := |EncodeStream(a)|; }
      k := j;
      unread := EncodeStream(a)[..j];
    }

    /**
     The environment's turn after a request: any part of the accepted bytes arrives; if they make
     a sentence the router executes it, and any part of its answer comes back.
     */
    method Deliver(wire: Transport, login: bool, ghost words: seq<Bytes>) returns (ghost reply: Option<(Script, nat)>)
      requires AllSendable(words) && Partly([], wire.accepted, EncodeSentence(words)) && wire.unread == []
      modifies this, wire`accepted, wire`unread
      ensures wire.accepted == [] && Arrives(wire.unread, reply)
      ensures trace == old(trace) + [Asking(login, words, !wire.failed, reply)]
      ensures log == old(log) + if login then [] else Runs(words, reply)
      ensures logins == old(logins) + if login then Runs(words, reply) else []
    {
      hide Answer, EncodeSentence, EncodeStream, DecodeSentence;
      var k: int := *;
      if k < 0 || k > |wire.accepted| { k := |wire.accepted|; }
      var got := DecodeSentence(wire.accepted[..k]);
      ArrivedWhole(wire.accepted, k, words);
      wire.accepted := [];
      reply := None;
      if got.Ok? {
        var a, unread, j := Respond();
        wire.unread := unread;
        reply := Some((a, j));
        if login {
          logins := logins + [Exchange(got.value.0, a)];
        } else {
          log := log + [Exchange(got.value.0, a)];
        }
      }
      trace := trace + [Asking(login, words, !wire.failed, reply)];
    }
  }

  /** A part of a request is a sentence only if it is the whole request. */
  lemma ArrivedWhole(accepted: Bytes, k: nat, words: seq<Bytes>)
    requires AllSendable(words) && Partly([], accepted, EncodeSentence(words)) && k <= |accepted|
    ensures DecodeSentence(accepted[..k]).Ok? ==> DecodeSentence(accepted[..k]).value.0 == words
  {
    hide EncodeSentence, DecodeSentence, AllSendable;
    var n :| 0 <= n <= |EncodeSentence(words)| && accepted == [] + EncodeSentence(words)[..n];
    assert accepted[..k] == EncodeSentence(words)[..k];
    CutSentence(words, k);
    assert EncodeSentence(words)[..|EncodeSentence(words)|] == EncodeSentence(words) + [];
    SentenceRoundTrip(words, []);
  }

  /** An established connection. */
  class Conn {
    const wire: Transport
    var open: bool

    constructor ()
      ensures fresh(wire) && open && wire.accepted == [] && wire.unread == [] && !wire.failed
    {
      wire := new Transport();
      open := true;
    }

    method Close()
      modifies this
      ensures !open
    {
      open := false;
    }
  }

  /** The receive loop of `call`; `login` runs the same loop and ignores the rows. */
  method Receive(wire: Transport) returns (res: Outcome)
    modifies wire`unread
    ensures res == Collect(old(wire.unread), []).0
    ensures !res.Broken? ==> wire.unread == Collect(old(wire.unread), []).1
  {
    hide DecodeSentence, Pairs;
    var rows: seq<map<Bytes, Bytes>> := [];
    while true
      invariant Collect(wire.unread, rows).0 == Collect(old(wire.unread), []).0
      invariant Collect(wire.unread, rows).0 != Broken ==>
                  Collect(wire.unread, rows).1 == Collect(old(wire.unread), []).1
      decreases |wire.unread|
    {
      var s := Recv(wire);
      if s.Err? { return Broken; }
      if s.value.reply == RE {
        rows := rows + [s.value.words];
      } else if s.value.reply == DONE {
        return Rows(if s.value.words == map[] then rows else rows + [s.value.words]);
      } else if s.value.reply == TRAP {
        return Trap(s.value.words);
      } else if s.value.reply == FATAL {
        return Fatal(s.value.words);
      }
    }
  }

  /** `e` is a request of these words on a connection. */
  predicate Asks(e: Event, login: bool, words: seq<Bytes>) { e.Asking? && e.login == login && e.words == words }

  /**
   One request and the loop over its reply, as in both `login` and `call`. Rows come back exactly
   when nothing went wrong on the way, and then they are the router's answer to this very request
   and nothing is left unread.
   */
  method Request(router: Router, wire: Transport, words: seq<Bytes>, login: bool)
    returns (res: Outcome, ghost e: Event)
    requires wire.accepted == wire.unread == [] && !wire.failed && AllSendable(words)
    modifies router, wire
    ensures Asks(e, login, words) && router.trace == old(router.trace) + [e]
    ensures e.reply.Some? ==> Answer(e.reply.value.0)
    ensures router.log == old(router.log) + if login then [] else Runs(words, e.reply)
    ensures router.logins == old(router.logins) + if login then Runs(words, e.reply) else []
    ensures res.Rows? <==> Good(e)
    ensures res.Rows? ==> res.rows == RowsOf(e.reply.value.0)
    ensures res.Rows? ==> wire.accepted == wire.unread == [] && !wire.failed
  {
    hide Collect, EncodeSentence, EncodeStream, DecodeSentence, RowsOf, Complete, Answer;
    var sent := Send(wire, words);
    assert Partly([], wire.accepted, EncodeSentence(words));
    ghost var reply := router.Deliver(wire, login, words);
    e := Asking(login, words, sent, reply);
    if !sent { return Broken, e; }
    NothingArrived();
    if reply.Some? {
      CollectCut(reply.value.0, reply.value.1);
    }
    res := Receive(wire);
  }

  lemma NothingArrived()
    ensures Collect([], []) == (Broken, [])
  {
  }

  predicate AllGood(t: seq<Event>) { forall e :: e in t ==> Good(e) }

  /** A new connection was tried, and the login on it if it came about. */
  predicate Dialling(t: seq<Event>, credentials: seq<Bytes>)
  {
    t == [Connecting(false)] || (|t| == 2 && t[0] == Connecting(true) && Asks(t[1], true, credentials))
  }

  /** Dial: connect, log in, and close the connection again if the login fails; `made` is the connection made. */
  method Dial(router: Router, credentials: seq<Bytes>) returns (c: Conn?, ghost made: Conn?, ghost t: seq<Event>)
    requires AllSendable(credentials)
    modifies router
    ensures router.log == old(router.log)
    ensures made != null ==> fresh(made) && fresh(made.wire) && (made.open <==> c == made)
    ensures c != null ==> c == made && c.wire.unread == c.wire.accepted == [] && !c.wire.failed
    ensures c != null ==> exists a :: Executed(old(router.logins), router.logins, credentials, a) && Complete(a)
    ensures router.trace == old(router.trace) + t && Dialling(t, credentials) && (c != null <==> AllGood(t))
  {
    hide EncodeStream, Complete, Answer;
    c, made := null, null;
    var reachable := router.Connect();
    t := [Connecting(reachable)];
    if reachable {
      var conn := new Conn();
      made := conn;
      var answer, e := Request(router, conn.wire, credentials, true);
      t := t + [e];
      assert e in t && t[0] in t;
      if answer.Rows? {
        c := conn;
        assert Executed(old(router.logins), router.logins, credentials, e.reply.value.0);
      } else {
        conn.Close();
      }
    } else {
      assert t[0] in t;
    }
  }

  /** Verify: log in once and leave no connection behind. */
  method Verify(router: Router, credentials: seq<Bytes>) returns (ok: bool, ghost made: Conn?, ghost t: seq<Event>)
    requires AllSendable(credentials)
    modifies router
    ensures router.log == old(router.log)
    ensures made != null ==> fresh(made) && !made.open
    ensures ok ==> exists a :: Executed(old(router.logins), router.logins, credentials, a) && Complete(a)
    ensures router.trace == old(router.trace) + t && Dialling(t, credentials) && (ok <==> AllGood(t))
  {
    var c;
    c, made, t := Dial(router, credentials);
    ok := c != null;
    if ok {
      c.Close();
    }
  }

  // ----- the dialer -------------------------------------------------------------

  /** `d` records one or two executions of the same command, and nothing else. */
  ghost predicate Executions(d: seq<Exchange>, words: seq<Bytes>)
  {
    |d| <= 2 && forall i :: 0 <= i < |d| ==> d[i].cmd == words && Answer(d[i].answer)
  }

  /** What one attempt added to the log. */
  lemma Added(before: seq<Exchange>, after: seq<Exchange>, words: seq<Bytes>) returns (d: seq<Exchange>)
    requires after == before || exists a :: Executed(before, after, words, a)
    ensures after == before + d && |d| <= 1 && Executions(d, words)
    ensures forall a :: Executed(before, after, words, a) ==> d != [] && d[|d| - 1].answer == a
  {
    d := after[|before|..];
    hide Answer;
    forall a | Executed(before, after, words, a) ensures d != [] && d[|d| - 1].answer == a {
      assert after[|before|] == Exchange(words, a);
    }
  }

  /** One attempt: at most one execution, and rows are the complete answer to it. */
  ghost predicate AttemptRecord(before: seq<Exchange>, after: seq<Exchange>, words: seq<Bytes>, res: Outcome)
  {
    && (after == before || exists a :: Executed(before, after, words, a))
    && (res.Rows? ==> exists a :: Executed(before, after, words, a) && Complete(a) && res.rows == RowsOf(a))
  }

  /** A call: one or two executions of this command at most, and rows are the complete answer to the last one. */
  ghost predicate CallRecord(before: seq<Exchange>, after: seq<Exchange>, words: seq<Bytes>, res: Outcome)
  {
    exists d: seq<Exchange> ::
      && after == before + d && Executions(d, words)
      && (res.Rows? ==> d != [] && Complete(d[|d| - 1].answer) && res.rows == RowsOf(d[|d| - 1].answer))
  }

  lemma AttemptIsRecorded(before: seq<Exchange>, after: seq<Exchange>, words: seq<Bytes>, res: Outcome, e: Event)
    requires Asks(e, false, words) && after == before + Runs(words, e.reply)
    requires e.reply.Some? ==> Answer(e.reply.value.0)
    requires res.Rows? ==> Good(e) && res.rows == RowsOf(e.reply.value.0)
    ensures AttemptRecord(before, after, words, res)
  {
    hide Answer, Complete, RowsOf;
    if e.reply.Some? {
      assert Executed(before, after, words, e.reply.value.0);
    }
  }

  lemma OneAttempt(before: seq<Exchange>, after: seq<Exchange>, words: seq<Bytes>, res: Outcome)
    requires AttemptRecord(before, after, words, res)
    ensures CallRecord(before, after, words, res)
  {
    var d := Added(before, after, words);
    hide Complete, RowsOf, Answer;
  }

  lemma TwoAttempts(before: seq<Exchange>, mid: seq<Exchange>, after: seq<Exchange>, words: seq<Bytes>,
                    first: Outcome, res: Outcome)
    requires AttemptRecord(before, mid, words, first) && AttemptRecord(mid, after, words, res)
    ensures CallRecord(before, after, words, res)
  {
    var d := Added(before, mid, words);
    var more := Added(mid, after, words);
    BothExecutions(d, more, words);
    hide Complete, RowsOf, Executions;
    assert after == before + (d + more);
  }

  lemma BothExecutions(d: seq<Exchange>, more: seq<Exchange>, words: seq<Bytes>)
    requires Executions(d, words) && Executions(more, words) && |d| <= 1 && |more| <= 1
    ensures Executions(d + more, words)
    ensures more != [] ==> (d + more)[|d + more| - 1] == more[|more| - 1]
  {
    hide Answer;
  }

  /**
   All that can happen in one attempt: on a connection only the request; without one also the
   dialling before it, if that succeeds.
   */
  predicate Tried(connected: bool, t: seq<Event>, credentials: seq<Bytes>, words: seq<Bytes>)
  {
    if connected then |t| == 1 && Asks(t[0], false, words)
    else
      || (Dialling(t, credentials) && !AllGood(t))
      || (|t| == 3 && Dialling(t[..2], credentials) && AllGood(t[..2]) && Asks(t[2], false, words))
  }

  lemma TriedOn(connected: bool, dial: seq<Event>, e: Event, credentials: seq<Bytes>, words: seq<Bytes>)
    requires Asks(e, false, words) && if connected then dial == [] else Dialling(dial, credentials) && AllGood(dial)
    ensures Tried(connected, dial + [e], credentials, words) && (AllGood(dial + [e]) <==> Good(e))
  {
    var t := dial + [e];
    assert t[..|dial|] == dial && t[|dial|] == e;
    if !connected {
      assert dial[0] in dial && Good(dial[0]);
    }
    hide Good;
    assert forall x :: x in t <==> x in dial || x == e;
  }

  /**
   What a call meets and what it makes of it: rows exactly if all goes well in a first attempt, or
   else in a second one, for which it dials anew. So a failed call has made both attempts.
   */
  predicate CallMade(connected: bool, first: seq<Event>, second: seq<Event>, credentials: seq<Bytes>,
                     words: seq<Bytes>, rows: bool)
  {
    && Tried(connected, first, credentials, words)
    && (if AllGood(first) then second == [] else Tried(false, second, credentials, words))
    && (rows <==> AllGood(first) || AllGood(second))
  }

  class Dialer {
    const router: Router
    const credentials: seq<Bytes>
    var conn: Conn?
    ghost var dials: set<Conn>  // every connection made so far

    constructor (router: Router, credentials: seq<Bytes>)
      requires AllSendable(credentials)
      ensures Valid() && conn == null && dials == {} && this.router == router && this.credentials == credentials
    {
      this.router, this.credentials := router, credentials;
      conn, dials := null, {};
    }

    ghost function Repr(): set<object>
      reads this
    {
      {this, router} + if conn == null then {} else {conn, conn.wire}
    }

    /** No connection is left open but the current one. */
    ghost predicate NoStray()
      reads this, dials
    {
      (conn != null ==> conn in dials) && forall c :: c in dials && c.open ==> c == conn
    }

    /** Between calls there is no connection, or one on which nothing is left to read. */
    ghost predicate Valid()
      reads this, dials, conn, if conn == null then {} else {conn.wire}
    {
      && AllSendable(credentials) && NoStray()
      && (conn != null ==> conn.open && conn.wire.unread == conn.wire.accepted == [] && !conn.wire.failed)
    }

    /** The dialer only ever adds connections of its own. */
    twostate predicate DialsGrow()
      reads this
    {
      old(dials) <= dials && fresh(dials - old(dials))
    }

    /** drop, also Close: the next call opens a new connection. */
    method Drop()
      modifies this`conn, conn
      ensures conn == null
      ensures old(conn) != null ==> !old(conn).open
      ensures old(NoStray()) ==> NoStray()
    {
      if conn != null {
        conn.Close();
        conn := null;
      }
    }

    /** ensure: the live connection, dialling if there is none. */
    method Ensure() returns (c: Conn?, ghost t: seq<Event>)
      requires Valid()
      modifies this`conn, this`dials, router
      ensures c == conn && Valid() && router.log == old(router.log)
      ensures old(conn) != null ==> conn == old(conn) && dials == old(dials)
      ensures fresh(Repr() - old(Repr())) && DialsGrow()
      ensures router.trace == old(router.trace) + t
      ensures if old(conn) != null then t == [] else Dialling(t, credentials) && (c != null <==> AllGood(t))
    {
      t := [];
      if conn == null {
        ghost var made;
        conn, made, t := Dial(router, credentials);
        if made != null {
          dials := dials + {made};
        }
      }
      c := conn;
    }

    /** call: one attempt. */
    method Attempt(words: seq<Bytes>) returns (res: Outcome, ghost t: seq<Event>)
      requires Valid() && AllSendable(words)
      modifies Repr()
      ensures fresh(Repr() - old(Repr())) && DialsGrow() && AllSendable(credentials) && NoStray()
      ensures AttemptRecord(old(router.log), router.log, words, res)
      ensures res.Rows? ==> Valid() && conn != null
      ensures router.trace == old(router.trace) + t && Tried(old(conn) != null, t, credentials, words)
      ensures res.Rows? <==> AllGood(t)
    {
      hide Good, Answer, Complete, RowsOf;
      var c;
      c, t := Ensure();
      if c == null { return Broken, t; }
      ghost var e;
      ghost var dial := t;
      res, e := Request(router, c.wire, words, false);
      t := dial + [e];
      TriedOn(old(conn) != null, dial, e, credentials, words);
      hide AllGood, Tried, Dialling;
      AttemptIsRecorded(old(router.log), router.log, words, res, e);
    }

    /**
     Call: at most two attempts. On success the router executed the command at least once and the
     rows are its answer to the last execution; whatever happens it executed nothing else, and of all
     connections ever made none but the current one is left open.
     */
    method Call(words: seq<Bytes>) returns (res: Outcome)
      requires Valid() && AllSendable(words)
      modifies Repr()
      ensures Valid() && fresh(Repr() - old(Repr())) && DialsGrow()
      ensures res.Rows? <==> conn != null
      ensures CallRecord(old(router.log), router.log, words, res)
      ensures exists first, second ::
                && router.trace == old(router.trace) + first + second
                && CallMade(old(conn) != null, first, second, credentials, words, res.Rows?)
    {
      hide AttemptRecord, CallRecord, AllGood, Tried;
      ghost var log, trace, connected := router.log, router.trace, conn != null;
      ghost var first, second: seq<Event> := [], [];
      res, first := Attempt(words);
      OneAttempt(log, router.log, words, res);
      assert router.trace == trace + first + [];
      if !res.Rows? {
        Drop();
        ghost var mid, failed := router.log, res;
        res, second := Attempt(words);
        TwoAttempts(log, mid, router.log, words, failed, res);
        if !res.Rows? {
          Drop();
        }
      }
      assert router.trace == trace + first + second;
      assert CallMade(connected, first, second, credentials, words, res.Rows?);
    }
  }
}
