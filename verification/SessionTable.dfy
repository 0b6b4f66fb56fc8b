/**
 The session table as the code has it (internal/proxy/sessions.go): two maps that share session
 objects, updated in place. Its state is at all times the one that SessionModel computes from the
 history of calls. Each method is one critical section of the table's mutex.
 */
module SessionTable {
  import opened Wrappers
  import opened Packets
  import M = SessionModel

  class Session {
    const addr: M.Addr
    var clientIndex: Word
    var pub: Key
    var pubKnown: bool
    var lastSeen: Option<int>

    constructor (addr: M.Addr)
      ensures Value() == M.Session(addr, 0, None, None)
    {
      this.addr := addr;
      clientIndex, pub, pubKnown, lastSeen := 0, M.ZeroKey(), false, None;
    }

    function Value(): M.Session
      reads this
    {
      M.Session(addr, clientIndex, if pubKnown then Some(pub) else None, lastSeen)
    }
  }

  class Table {
    var byAddr: map<M.Addr, Session>
    var byIndex: map<Word, Session>
    const ttl: nat
    ghost var store: map<Session, M.Session>  // every session created so far, with its value
    ghost var history: seq<M.Event<Session>>

    constructor (ttl: nat)
      ensures Valid() && history == [] && store == map[] && this.ttl == ttl
    {
      byAddr, byIndex := map[], map[];
      this.ttl := ttl;
      store, history := map[], [];
    }

    ghost function View(): M.Table<Session>
      reads this
    {
      M.Table(byAddr, byIndex, store)
    }

    /** The recorded values are those of the objects, and the state is the one the history leads to. */
    ghost predicate Valid()
      reads this, store.Keys
    {
      && (forall s :: s in store ==> s.Value() == store[s])
      && M.History(history, ttl) && View() == M.After(history, ttl)
    }

    lemma ViewIsAfter()
      requires Valid()
      ensures M.History(history, ttl) && View() == M.After(history, ttl)
    {
    }

    /** One call happened: the history grew by its event. */
    twostate predicate Recorded(new e: M.Event<Session>)
      reads this, store.Keys
    {
      Valid() && history == old(history) + [e] && fresh(store.Keys - old(store.Keys)) && old(store.Keys) <= store.Keys
    }

    /** Ghost bookkeeping of a call: the state already is the model's step. */
    ghost method Record(past: M.Table<Session>, e: M.Event<Session>)
      requires M.History(history, ttl) && past == M.After(history, ttl) && M.Fresh(past, e)
      requires View() == M.Step(past, e, ttl) && forall s :: s in store ==> s.Value() == store[s]
      modifies this`history
      ensures Valid() && history == old(history) + [e]
    {
      hide M.History, M.After, M.Step, M.Fresh;
      M.Append(history, e, ttl);
      history := history + [e];
    }

    /** Ghost bookkeeping of an update: the value of one session changed. */
    ghost method Renew(s: Session)
      requires s in store && forall x :: x in store && x != s ==> x.Value() == store[x]
      modifies this`store
      ensures store == old(store)[s := s.Value()] && forall x :: x in store ==> x.Value() == store[x]
    {
      store := store[s := s.Value()];
    }

    /** getLocked */
    method GetLocked(addr: M.Addr) returns (s: Session)
      requires Valid()
      modifies this`byAddr, this`store
      ensures s == M.Find(old(View()), addr, s) && s.Value() == M.Current(old(View()), addr)
      ensures if addr in old(byAddr) then s in old(store) else fresh(s)
      ensures View() == M.Put(old(View()), addr, s, s.Value())
    {
      hide M.After, M.History;
      if addr in byAddr {
        s := byAddr[addr];
        assert byAddr == byAddr[addr := s] && store == store[s := s.Value()];
      } else {
        s := new Session(addr);
        byAddr := byAddr[addr := s];
        store := store[s := s.Value()];
      }
    }

    method ClientInit(addr: M.Addr, clientIndex: Word, now: int) returns (ghost s: Session)
      requires Valid()
      modifies this, store.Keys
      ensures Recorded(M.ClientInit(addr, clientIndex, now, s))
    {
      hide M.After, M.History, M.Sane, M.Current;
      ghost var past := View();
      var session := GetLocked(addr);
      s := session;
      ghost var found := s.Value();
      session.clientIndex := clientIndex;
      session.lastSeen := Some(now);
      byIndex := byIndex[clientIndex := session];
      Renew(s);
      M.PutAgain(past, addr, s, found, s.Value());
      Record(past, M.ClientInit(addr, clientIndex, now, s));
    }

    method ClientTraffic(addr: M.Addr, now: int) returns (ghost s: Session)
      requires Valid()
      modifies this, store.Keys
      ensures Recorded(M.ClientTraffic(addr, now, s))
    {
      hide M.After, M.History, M.Sane, M.Current;
      ghost var past := View();
      var session := GetLocked(addr);
      s := session;
      ghost var found := s.Value();
      session.lastSeen := Some(now);
      Renew(s);
      M.PutAgain(past, addr, s, found, s.Value());
      Record(past, M.ClientTraffic(addr, now, s));
    }

    method SetPub(addr: M.Addr, pub: Key) returns (ghost s: Session)
      requires Valid()
      modifies this, store.Keys
      ensures Recorded(M.SetPub(addr, pub, s))
    {
      hide M.After, M.History, M.Sane, M.Current;
      ghost var past := View();
      var session := GetLocked(addr);
      s := session;
      ghost var found := s.Value();
      session.pub := pub;
      session.pubKnown := true;
      Renew(s);
      M.PutAgain(past, addr, s, found, s.Value());
      Record(past, M.SetPub(addr, pub, s));
    }

    /** The keys for which a reply to the session is to be stamped. */
    method PubsFor(s: Session, cands: seq<Key>, needPub: bool) returns (pubs: seq<Key>)
      ensures pubs == M.PubsFor(s.Value(), cands, needPub)
    {
      if !needPub {
        pubs := [M.ZeroKey()];
      } else if s.pubKnown {
        pubs := [s.pub];
      } else if |cands| == 0 {
        pubs := [M.ZeroKey()];
      } else {
        pubs := cands;
      }
    }

    /** responseTargets; none if no session is registered under the index. */
    method ResponseTargets(clientIndex: Word, cands: seq<Key>, needPub: bool, now: int)
        returns (r: Option<(M.Addr, seq<Key>)>)
      requires Valid()
      modifies this, store.Keys
      ensures Recorded(M.Reply(clientIndex, now))
      ensures r == M.Targets(old(View()), clientIndex, cands, needPub)
    {
      hide M.After, M.History, M.PubsFor, M.ZeroKey;
      ghost var past := View();
      if clientIndex !in byIndex {
        r := None;
      } else {
        var s := byIndex[clientIndex];
        assert s in store && s.Value() == past.store[s];
        hide M.Sane;
        var pubs := PubsFor(s, cands, needPub);
        s.lastSeen := Some(now);
        r := Some((s.addr, pubs));
        store := store[s := s.Value()];
      }
      Record(past, M.Reply(clientIndex, now));
    }

    /** gc: visits the sessions in any order and deletes while iterating. */
    method Gc(now: int)
      requires Valid()
      modifies this
      ensures Recorded(M.Gc(now)) && store == old(store)
    {
      hide M.After, M.History, M.IndicesOf;
      ghost var past := View();
      ghost var stale := M.Stale(past, now, ttl);
      ghost var gone: set<M.Addr> := {};
      var todo := byAddr.Keys;
      NothingGone(past);
      while todo != {}
        invariant todo <= byAddr.Keys && store == past.store && history == old(history)
        invariant gone == stale - todo
        invariant byAddr == past.byAddr - gone && byIndex == past.byIndex - M.IndicesOf(past, gone)
      {
        var k :| k in todo;
        var s := byAddr[k];
        assert s in past.store;
        if s.lastSeen.None? || now - s.lastSeen.value > ttl {
          M.RemoveOne(past, gone, k);
          byAddr := byAddr - {k};
          byIndex := byIndex - {s.clientIndex};
          gone := gone + {k};
        }
        todo := todo - {k};
      }
      assert gone == stale;
      Record(past, M.Gc(now));
    }

    lemma NothingGone(t: M.Table<Session>)
      ensures t.byAddr - {} == t.byAddr && t.byIndex - M.IndicesOf(t, {}) == t.byIndex
    {
      assert M.IndicesOf(t, {}) == {};
    }
  }
}
