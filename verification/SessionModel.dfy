/**
 The session table as values: what each operation of internal/proxy/sessions.go does to the two
 maps and the shared session objects, and what that means over whole histories. `R` names the
 session objects; the class in SessionTable.dfy instantiates it with its heap objects.
 */
module SessionModel {
  import opened Wrappers
  import opened Packets

  type Addr = string

  /** lastSeen is none before the first activity: the zero time, older than any ttl. */
  datatype Session = Session(addr: Addr, index: Word, pub: Option<Key>, lastSeen: Option<int>)

  datatype Table<!R> = Table(byAddr: map<Addr, R>, byIndex: map<Word, R>, store: map<R, Session>)

  /** `r` names the object to create if the address has no session. */
  datatype Event<R> =
    | ClientInit(addr: Addr, index: Word, now: int, r: R)
    | ClientTraffic(addr: Addr, now: int, r: R)
    | SetPub(addr: Addr, pub: Key, r: R)
    | Reply(index: Word, now: int)
    | Gc(now: int)

  ghost predicate Sane<R>(t: Table<R>)
  {
    && (forall a :: a in t.byAddr ==> t.byAddr[a] in t.store && t.store[t.byAddr[a]].addr == a)
    && (forall i :: i in t.byIndex ==> t.byIndex[i] in t.store)
  }

  function Find<R>(t: Table<R>, addr: Addr, r: R): R { if addr in t.byAddr then t.byAddr[addr] else r }

  /** The session of an address, or the one getLocked creates for it. */
  function Current<R>(t: Table<R>, addr: Addr): Session
    requires addr in t.byAddr ==> t.byAddr[addr] in t.store
  {
    if addr in t.byAddr then t.store[t.byAddr[addr]] else Session(addr, 0, None, None)
  }

  function Put<R>(t: Table<R>, addr: Addr, r: R, session: Session): Table<R>
  {
    Table(t.byAddr[addr := Find(t, addr, r)], t.byIndex, t.store[Find(t, addr, r) := session])
  }

  predicate Expired(s: Session, now: int, ttl: nat) { s.lastSeen.None? || now - s.lastSeen.value > ttl }

  /** Addresses whose session is older than ttl. */
  function Stale<R>(t: Table<R>, now: int, ttl: nat): set<Addr>
    requires forall a :: a in t.byAddr ==> t.byAddr[a] in t.store
  {
    set a | a in t.byAddr && Expired(t.store[t.byAddr[a]], now, ttl)
  }

  /** Current indices of the sessions of some addresses. */
  function IndicesOf<R>(t: Table<R>, addrs: set<Addr>): set<Word>
    requires forall a :: a in addrs ==> a in t.byAddr && t.byAddr[a] in t.store
  {
    set a | a in addrs :: t.store[t.byAddr[a]].index
  }

  function StaleIndices<R>(t: Table<R>, now: int, ttl: nat): set<Word>
    requires forall a :: a in t.byAddr ==> t.byAddr[a] in t.store
  {
    IndicesOf(t, Stale(t, now, ttl))
  }

  function Step<R>(t: Table<R>, e: Event<R>, ttl: nat): Table<R>
    requires Sane(t)
  {
    match e
    case ClientInit(a, i, now, r) =>
      var u := Put(t, a, r, Current(t, a).(index := i, lastSeen := Some(now)));
      u.(byIndex := u.byIndex[i := Find(t, a, r)])
    case ClientTraffic(a, now, r) => Put(t, a, r, Current(t, a).(lastSeen := Some(now)))
    case SetPub(a, pub, r) => Put(t, a, r, Current(t, a).(pub := Some(pub)))
    case Reply(i, now) =>
      if i in t.byIndex then t.(store := t.store[t.byIndex[i] := t.store[t.byIndex[i]].(lastSeen := Some(now))]) else t
    case Gc(now) => t.(byAddr := t.byAddr - Stale(t, now, ttl), byIndex := t.byIndex - StaleIndices(t, now, ttl))
  }

  /** The created object is new. */
  predicate Fresh<R>(t: Table<R>, e: Event<R>)
  {
    match e
    case ClientInit(a, _, _, r) => a !in t.byAddr ==> r !in t.store
    case ClientTraffic(a, _, r) => a !in t.byAddr ==> r !in t.store
    case SetPub(a, _, r) => a !in t.byAddr ==> r !in t.store
    case _ => true
  }

  lemma StepSane<R>(t: Table<R>, e: Event<R>, ttl: nat)
    requires Sane(t) && Fresh(t, e)
    ensures Sane(Step(t, e, ttl))
    ensures forall r :: r in t.store ==> r in Step(t, e, ttl).store && Step(t, e, ttl).store[r].addr == t.store[r].addr
  {
  }

  /** Changing the session that getLocked found or created gives the table of one combined update. */
  lemma PutAgain<R>(t: Table<R>, addr: Addr, r: R, first: Session, second: Session)
    requires r == Find(t, addr, r)
    ensures Put(t, addr, r, first).(store := Put(t, addr, r, first).store[r := second]) == Put(t, addr, r, second)
  {
  }

  /** One more expired session removed by the loop of gc. */
  lemma RemoveOne<R>(t: Table<R>, gone: set<Addr>, a: Addr)
    requires forall x :: x in gone + {a} ==> x in t.byAddr && t.byAddr[x] in t.store
    ensures t.byAddr - gone - {a} == t.byAddr - (gone + {a})
    ensures t.byIndex - IndicesOf(t, gone) - {t.store[t.byAddr[a]].index} == t.byIndex - IndicesOf(t, gone + {a})
  {
    assert IndicesOf(t, gone + {a}) == IndicesOf(t, gone) + {t.store[t.byAddr[a]].index};
  }

  // ----- histories --------------------------------------------------------------------------------

  /** The events since the table was created, oldest first, create new objects only. */
  ghost predicate History<R>(h: seq<Event<R>>, ttl: nat)
    decreases |h|, 0
  {
    h == [] ||
    (History(h[..|h| - 1], ttl) && Fresh(After(h[..|h| - 1], ttl), h[|h| - 1]))
  }

  ghost function After<R>(h: seq<Event<R>>, ttl: nat): (t: Table<R>)
    requires History(h, ttl)
    ensures Sane(t)
    decreases |h|, 1
  {
    if h == [] then Table(map[], map[], map[])
    else
      var t := After(h[..|h| - 1], ttl);
      StepSane(t, h[|h| - 1], ttl);
      Step(t, h[|h| - 1], ttl)
  }

  lemma Append<R>(h: seq<Event<R>>, e: Event<R>, ttl: nat)
    ensures History(h + [e], ttl) <==> History(h, ttl) && Fresh(After(h, ttl), e)
    ensures History(h + [e], ttl) ==> After(h + [e], ttl) == Step(After(h, ttl), e, ttl)
  {
    assert (h + [e])[..|h|] == h;
  }

  lemma {:induction false} PrefixIsHistory<R>(h: seq<Event<R>>, n: nat, ttl: nat)
    requires History(h, ttl) && n <= |h|
    ensures History(h[..n], ttl)
    decreases |h|
  {
    if n == |h| {
      assert h[..n] == h;
    } else {
      PrefixIsHistory(h[..|h| - 1], n, ttl);
      assert h[..|h| - 1][..n] == h[..n];
    }
  }

  // ----- routing -------------------------------------------------------------------------------------

  function RouteIn<R>(t: Table<R>, i: Word): Option<Addr>
    requires i in t.byIndex ==> t.byIndex[i] in t.store
  {
    if i in t.byIndex then Some(t.store[t.byIndex[i]].addr) else None
  }

  /**
   Where replies to index i go, told from the history: to the sender of the latest initiation with
   that index, unless a later gc removed an expired session whose current index was i.
   */
  ghost function Route<R>(h: seq<Event<R>>, ttl: nat, i: Word): Option<Addr>
    requires History(h, ttl)
    decreases |h|
  {
    if h == [] then None
    else
      var before, e := h[..|h| - 1], h[|h| - 1];
      if e.ClientInit? && e.index == i then Some(e.addr)
      else if e.Gc? && i in StaleIndices(After(before, ttl), e.now, ttl) then None
      else Route(before, ttl, i)
  }

  lemma {:induction false} RoutingRefinesHistory<R>(h: seq<Event<R>>, ttl: nat, i: Word)
    requires History(h, ttl)
    ensures RouteIn(After(h, ttl), i) == Route(h, ttl, i)
    decreases |h|
  {
    if h == [] {
    } else {
      var before, e := h[..|h| - 1], h[|h| - 1];
      RoutingRefinesHistory(before, ttl, i);
      StepSane(After(before, ttl), e, ttl);
    }
  }

  /** The object an event sets the key of, creates, or refreshes. */
  function Target<R>(t: Table<R>, e: Event<R>): Option<R>
  {
    match e
    case ClientInit(a, _, _, r) => Some(Find(t, a, r))
    case ClientTraffic(a, _, r) => Some(Find(t, a, r))
    case SetPub(a, _, r) => Some(Find(t, a, r))
    case Reply(i, _) => if i in t.byIndex then Some(t.byIndex[i]) else None
    case Gc(_) => None
  }

  /** The last key set on one session object, none before the object existed or had a key. */
  ghost function LastKey<R>(h: seq<Event<R>>, ttl: nat, s: R): Option<Key>
    requires History(h, ttl)
    decreases |h|
  {
    if h == [] then None
    else
      var before, e := h[..|h| - 1], h[|h| - 1];
      if e.SetPub? && Target(After(before, ttl), e) == Some(s) then Some(e.pub) else LastKey(before, ttl, s)
  }

  /** The key of a session is the last one set on that very object, not on another one of the same address. */
  lemma {:induction false} KeyRefinesHistory<R>(h: seq<Event<R>>, ttl: nat, s: R)
    requires History(h, ttl)
    ensures (if s in After(h, ttl).store then After(h, ttl).store[s].pub else None) == LastKey(h, ttl, s)
    decreases |h|
  {
    if h == [] {
    } else {
      var before, e := h[..|h| - 1], h[|h| - 1];
      KeyRefinesHistory(before, ttl, s);
      StepSane(After(before, ttl), e, ttl);
    }
  }

  /** The key of the client if it is known, else every candidate: the client drops the copies that are not for it. */
  function PubsFor(s: Session, cands: seq<Key>, needPub: bool): seq<Key>
  {
    if !needPub then [ZeroKey()]
    else if s.pub.Some? then [s.pub.value]
    else if cands == [] then [ZeroKey()]
    else cands
  }

  /** responseTargets: where a reply goes and for which keys its MAC1 is computed. */
  function Targets<R>(t: Table<R>, i: Word, cands: seq<Key>, needPub: bool): Option<(Addr, seq<Key>)>
    requires Sane(t)
  {
    if i !in t.byIndex then None
    else
      var s := t.store[t.byIndex[i]];
      Some((s.addr, PubsFor(s, cands, needPub)))
  }

  function ZeroKey(): Key { seq(32, _ => 0) }

  /** The session registered for the address was just seen. */
  predicate SeenAt<R>(t: Table<R>, a: Addr, now: int)
    requires Sane(t)
  {
    a in t.byAddr && t.store[t.byAddr[a]].lastSeen == Some(now)
  }

  /** After an initiation, replies to its index go to its sender, for its key if that was identified. */
  lemma InitiationRegisters<R>(h: seq<Event<R>>, ttl: nat, a: Addr, i: Word, now: int, r: R, r': R, id: Option<Key>)
    requires History(h + [ClientInit(a, i, now, r)] + (if id.Some? then [SetPub(a, id.value, r')] else []), ttl)
    ensures var t := After(h + [ClientInit(a, i, now, r)] + (if id.Some? then [SetPub(a, id.value, r')] else []), ttl);
      RouteIn(t, i) == Some(a) && SeenAt(t, a, now) && (id.Some? ==> Bound(t, i, a, id.value))
  {
    var first := ClientInit(a, i, now, r);
    Append(h, first, ttl);
    if id.Some? {
      Append(h + [first], SetPub(a, id.value, r'), ttl);
    } else {
      assert h + [first] + [] == h + [first];
    }
    hide After, History;
  }

  lemma TrafficRegisters<R>(h: seq<Event<R>>, ttl: nat, a: Addr, now: int, r: R)
    requires History(h + [ClientTraffic(a, now, r)], ttl)
    ensures SeenAt(After(h + [ClientTraffic(a, now, r)], ttl), a, now)
  {
    Append(h, ClientTraffic(a, now, r), ttl);
    hide After, History;
  }

  /**
   For which keys a reply goes out, told from the history: a response for the client's key if it was
   ever identified, else for every candidate, or for a zero key if there are none; anything but a
   response for a zero key.
   */
  lemma ReplyKeys<R>(h: seq<Event<R>>, ttl: nat, i: Word, cands: seq<Key>)
    requires History(h, ttl) && Route(h, ttl, i).Some?
    ensures i in After(h, ttl).byIndex
    ensures var addr, key := Route(h, ttl, i).value, LastKey(h, ttl, After(h, ttl).byIndex[i]);
      && Targets(After(h, ttl), i, cands, false) == Some((addr, [ZeroKey()]))
      && (key.Some? ==> Targets(After(h, ttl), i, cands, true) == Some((addr, [key.value])))
      && (key.None? && cands != [] ==> Targets(After(h, ttl), i, cands, true) == Some((addr, cands)))
      && (key.None? && cands == [] ==> Targets(After(h, ttl), i, cands, true) == Some((addr, [ZeroKey()])))
  {
    RoutingRefinesHistory(h, ttl, i);
    KeyRefinesHistory(h, ttl, After(h, ttl).byIndex[i]);
    hide After, History, Route, LastKey, ZeroKey;
  }

  /** The client behind index i may hold this key, by what is known of it. */
  ghost predicate MayHold<R>(h: seq<Event<R>>, ttl: nat, i: Word, cands: seq<Key>, pub: Key)
    requires History(h, ttl)
  {
    && i in After(h, ttl).byIndex
    && var key := LastKey(h, ttl, After(h, ttl).byIndex[i]); if key.Some? then pub == key.value else pub in cands
  }

  lemma PossibleKeyIsServed<R>(h: seq<Event<R>>, ttl: nat, i: Word, cands: seq<Key>, pub: Key)
    requires History(h, ttl) && MayHold(h, ttl, i, cands, pub)
    ensures Targets(After(h, ttl), i, cands, true).Some? && pub in Targets(After(h, ttl), i, cands, true).value.1
  {
    RoutingRefinesHistory(h, ttl, i);
    ReplyKeys(h, ttl, i, cands);
    hide After, History, Route, LastKey, ZeroKey, Targets;
  }

  /**
   Nothing takes index i or the key of `a` away: there is traffic, there are replies, keys of other
   clients, initiations with other indices, and gc runs that find no expired session with index i.
   */
  ghost predicate Undisturbed<R>(start: seq<Event<R>>, later: seq<Event<R>>, ttl: nat, a: Addr, i: Word)
    requires History(start + later, ttl)
    decreases |later|
  {
    later == [] ||
    var n := |later| - 1;
    var front, e := later[..n], later[n];
    assert start + later == (start + front) + [e];
    Append(start + front, e, ttl);
    && Undisturbed(start, front, ttl, a, i)
    && Harmless(After(start + front, ttl), e, ttl, a, i)
  }

  predicate Harmless<R>(t: Table<R>, e: Event<R>, ttl: nat, a: Addr, i: Word)
    requires Sane(t)
  {
    match e
    case ClientInit(_, j, _, _) => j != i
    case ClientTraffic(_, _, _) => true
    case SetPub(b, _, _) => b != a
    case Reply(_, _) => true
    case Gc(now) => i !in StaleIndices(t, now, ttl)
  }

  /**
   After an initiation from `a` with index i whose client was identified as `pub`, replies to i go to
   `a` for exactly that key, through any number of gc runs, while nothing takes the index or the key away.
   */
  lemma {:induction false} IdentifiedClientGetsReplies<R>(
    h: seq<Event<R>>, later: seq<Event<R>>, ttl: nat, a: Addr, i: Word, now: int, pub: Key, r: R, r': R,
        cands: seq<Key>)
    requires History(h + [ClientInit(a, i, now, r), SetPub(a, pub, r')] + later, ttl)
    requires Undisturbed(h + [ClientInit(a, i, now, r), SetPub(a, pub, r')], later, ttl, a, i)
    ensures var t := After(h + [ClientInit(a, i, now, r), SetPub(a, pub, r')] + later, ttl);
      Bound(t, i, a, pub) && Targets(t, i, cands, true) == Some((a, [pub]))
    decreases |later|
  {
    hide Step, Fresh, After, History;
    var first, second := ClientInit(a, i, now, r), SetPub(a, pub, r');
    if later == [] {
      assert h + [first, second] + later == h + [first] + [second];
      Append(h + [first], second, ttl);
      Append(h, first, ttl);
      InitThenKey(After(h, ttl), a, i, now, pub, r, r', ttl);
    } else {
      var n := |later| - 1;
      var before := h + [first, second] + later[..n];
      assert h + [first, second] + later == before + [later[n]];
      Append(before, later[n], ttl);
      IdentifiedClientGetsReplies(h, later[..n], ttl, a, i, now, pub, r, r', cands);
      BoundStays(After(before, ttl), later[n], ttl, i, a, pub);
    }
  }

  predicate Bound<R>(t: Table<R>, i: Word, a: Addr, pub: Key)
    requires Sane(t)
  {
    i in t.byIndex && t.store[t.byIndex[i]].addr == a && t.store[t.byIndex[i]].pub == Some(pub)
  }

  lemma InitThenKey<R>(t: Table<R>, a: Addr, i: Word, now: int, pub: Key, r: R, r': R, ttl: nat)
    requires Sane(t) && Fresh(t, ClientInit(a, i, now, r))
    ensures var u := Step(t, ClientInit(a, i, now, r), ttl);
      Sane(u) && Sane(Step(u, SetPub(a, pub, r'), ttl)) && Bound(Step(u, SetPub(a, pub, r'), ttl), i, a, pub)
  {
  }

  lemma BoundStays<R>(t: Table<R>, e: Event<R>, ttl: nat, i: Word, a: Addr, pub: Key)
    requires Sane(t) && Fresh(t, e) && Bound(t, i, a, pub) && Harmless(t, e, ttl, a, i)
    ensures Sane(Step(t, e, ttl)) && Bound(Step(t, e, ttl), i, a, pub)
  {
    StepSane(t, e, ttl);
  }

  // ----- what gc takes away ------------------------------------------------------------------------------

  ghost function TableAt<R>(h: seq<Event<R>>, ttl: nat, k: nat): (t: Table<R>)
    requires History(h, ttl) && k <= |h|
    ensures Sane(t)
  {
    PrefixIsHistory(h, k, ttl);
    After(h[..k], ttl)
  }

  /** Event g is a gc that removes an expired session whose current index is i. */
  ghost predicate TakesAway<R>(h: seq<Event<R>>, ttl: nat, g: nat, i: Word)
    requires History(h, ttl)
  {
    g < |h| && h[g].Gc? && i in StaleIndices(TableAt(h, ttl, g), h[g].now, ttl)
  }

  predicate InitsWith<R>(e: Event<R>, i: Word) { e.ClientInit? && e.index == i }

  /** An index that was taken away after event k. */
  ghost predicate TakenSince<R>(h: seq<Event<R>>, ttl: nat, k: nat, i: Word)
    requires History(h, ttl)
  {
    exists g: nat :: k < g && TakesAway(h, ttl, g, i)
  }

  lemma TakenStep<R>(h: seq<Event<R>>, ttl: nat, k: nat, i: Word)
    requires History(h, ttl) && k < |h|
    ensures TakenSince(h, ttl, k, i) <==>
              k < |h| - 1 && (TakenSince(h[..|h| - 1], ttl, k, i) || TakesAway(h, ttl, |h| - 1, i))
  {
    TakenWas(h, ttl, k, i);
    if k < |h| - 1 {
      TakenStays(h, ttl, k, i);
    }
    hide History, TakesAway;
  }

  lemma TakenWas<R>(h: seq<Event<R>>, ttl: nat, k: nat, i: Word)
    requires History(h, ttl) && k < |h|
    ensures TakenSince(h, ttl, k, i) ==>
              k < |h| - 1 && (TakenSince(h[..|h| - 1], ttl, k, i) || TakesAway(h, ttl, |h| - 1, i))
  {
    hide History, TakesAway;
    if TakenSince(h, ttl, k, i) {
      var g: nat :| k < g && TakesAway(h, ttl, g, i);
      TakesAwayWithin(h, ttl, g, i);
      if g < |h| - 1 {
        TakesAwayBefore(h, ttl, g, i);
      }
    }
  }

  lemma TakenStays<R>(h: seq<Event<R>>, ttl: nat, k: nat, i: Word)
    requires History(h, ttl) && k < |h| - 1
    ensures TakenSince(h[..|h| - 1], ttl, k, i) ==> TakenSince(h, ttl, k, i)
  {
    var front := h[..|h| - 1];
    hide History, TakesAway;
    if TakenSince(front, ttl, k, i) {
      var g: nat :| k < g && TakesAway(front, ttl, g, i);
      TakesAwayWithin(front, ttl, g, i);
      TakesAwayBefore(h, ttl, g, i);
    }
  }

  lemma TakesAwayWithin<R>(h: seq<Event<R>>, ttl: nat, g: nat, i: Word)
    requires History(h, ttl)
    ensures TakesAway(h, ttl, g, i) ==> g < |h|
  {
  }

  lemma TakesAwayBefore<R>(h: seq<Event<R>>, ttl: nat, g: nat, i: Word)
    requires History(h, ttl) && g < |h| - 1
    ensures TakesAway(h, ttl, g, i) <==> TakesAway(h[..|h| - 1], ttl, g, i)
  {
    assert h[..|h| - 1][..g] == h[..g];
  }

  ghost predicate AllTaken<R>(h: seq<Event<R>>, ttl: nat, i: Word)
    requires History(h, ttl)
  {
    forall k: nat :: k < |h| && InitsWith(h[k], i) ==> TakenSince(h, ttl, k, i)
  }

  lemma AllTakenStep<R>(h: seq<Event<R>>, ttl: nat, i: Word)
    requires History(h, ttl) && h != []
    ensures var n := |h| - 1;
            AllTaken(h, ttl, i) <==> !InitsWith(h[n], i) && (AllTaken(h[..n], ttl, i) || TakesAway(h, ttl, n, i))
  {
    AllTakenWas(h, ttl, i);
    AllTakenStays(h, ttl, i);
    hide History, AllTaken, TakesAway, InitsWith;
  }

  lemma AllTakenWas<R>(h: seq<Event<R>>, ttl: nat, i: Word)
    requires History(h, ttl) && h != []
    ensures var n := |h| - 1;
            AllTaken(h, ttl, i) ==> !InitsWith(h[n], i) && (AllTaken(h[..n], ttl, i) || TakesAway(h, ttl, n, i))
  {
    var n := |h| - 1;
    var front := h[..n];
    hide TakenSince, TakesAway, InitsWith, History;
    TakenStep(h, ttl, n, i);
    if AllTaken(h, ttl, i) && !TakesAway(h, ttl, n, i) {
      forall k: nat | k < n && InitsWith(front[k], i) ensures TakenSince(front, ttl, k, i) {
        assert front[k] == h[k];
        TakenStep(h, ttl, k, i);
      }
    }
  }

  lemma AllTakenStays<R>(h: seq<Event<R>>, ttl: nat, i: Word)
    requires History(h, ttl) && h != []
    ensures var n := |h| - 1;
            !InitsWith(h[n], i) && (AllTaken(h[..n], ttl, i) || TakesAway(h, ttl, n, i)) ==> AllTaken(h, ttl, i)
  {
    var n := |h| - 1;
    var front := h[..n];
    hide TakenSince, TakesAway, InitsWith, History;
    if !InitsWith(h[n], i) && (AllTaken(front, ttl, i) || TakesAway(h, ttl, n, i)) {
      forall k: nat | k < |h| && InitsWith(h[k], i) ensures TakenSince(h, ttl, k, i) {
        assert front[k] == h[k];
        TakenStep(h, ttl, k, i);
      }
    }
  }

  /** An index has no route if and only if after every initiation with it a gc removed a session that had it. */
  lemma {:induction false} UnroutedIff<R>(h: seq<Event<R>>, ttl: nat, i: Word)
    requires History(h, ttl)
    ensures i !in After(h, ttl).byIndex <==> AllTaken(h, ttl, i)
    decreases |h|
  {
    if h == [] {
    } else {
      UnroutedIff(h[..|h| - 1], ttl, i);
      LastUnroutes(h, ttl, i);
      AllTakenStep(h, ttl, i);
      hide After, AllTaken, TakesAway;
    }
  }

  lemma LastUnroutes<R>(h: seq<Event<R>>, ttl: nat, i: Word)
    requires History(h, ttl) && h != []
    ensures var n := |h| - 1;
            i in After(h, ttl).byIndex <==>
              InitsWith(h[n], i) || (i in After(h[..n], ttl).byIndex && !TakesAway(h, ttl, n, i))
  {
    var n := |h| - 1;
    var t := After(h[..n], ttl);
    assert h[..n] == h[..n][..n];
    assert After(h, ttl) == Step(t, h[n], ttl) && TableAt(h, ttl, n) == t;
    hide After, History, TableAt;
    StepRoutes(t, h[n], ttl, i);
    hide Step, StaleIndices;
  }

  lemma StepRoutes<R>(t: Table<R>, e: Event<R>, ttl: nat, i: Word)
    requires Sane(t)
    ensures i in Step(t, e, ttl).byIndex <==>
              InitsWith(e, i) || (i in t.byIndex && !(e.Gc? && i in StaleIndices(t, e.now, ttl)))
  {
    hide StaleIndices, Stale;
  }

  /** Index i is routed to a session that is not, or no longer, the one registered for its address. */
  ghost predicate Orphaned<R>(t: Table<R>, i: Word)
    requires Sane(t)
  {
    i in t.byIndex &&
    var a := t.store[t.byIndex[i]].addr;
    !(a in t.byAddr && t.byAddr[a] == t.byIndex[i])
  }

  /**
   Told from the history: a gc dropped the session that i was routed to while that session had
   another index, and since then neither an initiation nor a gc took i.
   */
  ghost predicate Leaks<R>(h: seq<Event<R>>, ttl: nat, i: Word)
    requires History(h, ttl)
    decreases |h|
  {
    h != [] &&
    var before, e := h[..|h| - 1], h[|h| - 1];
    if e.Gc? then
      && i !in StaleIndices(After(before, ttl), e.now, ttl)
      && (Leaks(before, ttl, i)
          || (Route(before, ttl, i).Some? && Route(before, ttl, i).value in Stale(After(before, ttl), e.now, ttl)))
    else !InitsWith(e, i) && Leaks(before, ttl, i)
  }

  /** In every history, exactly the leaked indices are routed to an unregistered session. */
  lemma {:induction false} LeaksIff<R>(h: seq<Event<R>>, ttl: nat, i: Word)
    requires History(h, ttl)
    ensures Orphaned(After(h, ttl), i) <==> Leaks(h, ttl, i)
    decreases |h|
  {
    if h == [] {
    } else {
      var before, e := h[..|h| - 1], h[|h| - 1];
      LeaksIff(before, ttl, i);
      RoutingRefinesHistory(before, ttl, i);
      OrphanStep(After(before, ttl), e, ttl, i);
      hide Step, StaleIndices, Stale, Sane;
    }
  }

  lemma OrphanStep<R>(t: Table<R>, e: Event<R>, ttl: nat, i: Word)
    requires Sane(t) && Fresh(t, e)
    ensures Sane(Step(t, e, ttl))
    ensures Orphaned(Step(t, e, ttl), i) <==>
              if e.Gc? then
                && i !in StaleIndices(t, e.now, ttl)
                && (Orphaned(t, i) || (RouteIn(t, i).Some? && RouteIn(t, i).value in Stale(t, e.now, ttl)))
              else !InitsWith(e, i) && Orphaned(t, i)
  {
    StepSane(t, e, ttl);
    hide StaleIndices;
  }

  ghost predicate Initiated<R>(h: seq<Event<R>>, a: Addr, i: Word)
  {
    exists k :: 0 <= k < |h| && InitsWith(h[k], i) && h[k].addr == a
  }

  /** No client address ever initiates with two indices. */
  ghost predicate OneIndexEach<R>(h: seq<Event<R>>)
  {
    forall a, i, j :: Initiated(h, a, i) && Initiated(h, a, j) ==> i == j
  }

  /**
   Clients that never initiate with another index leave nothing behind: every index routes to a registered
   session.
   */
  lemma SteadyClientsDoNotLeak<R>(h: seq<Event<R>>, ttl: nat, i: Word)
    requires History(h, ttl) && OneIndexEach(h)
    ensures !Leaks(h, ttl, i)
  {
    LeaksIff(h, ttl, i);
    SteadyRoutes(h, ttl);
    hide After, Leaks;
    assert Orphaned(After(h, ttl), i) ==> !Steady(After(h, ttl), h, i);
  }

  ghost predicate Steady<R>(t: Table<R>, h: seq<Event<R>>, i: Word)
    requires Sane(t)
  {
    i in t.byIndex ==>
      var s := t.store[t.byIndex[i]];
      s.index == i && !Orphaned(t, i) && Initiated(h, s.addr, i)
  }

  lemma {:induction false} SteadyRoutes<R>(h: seq<Event<R>>, ttl: nat)
    requires History(h, ttl) && OneIndexEach(h)
    ensures forall i :: Steady(After(h, ttl), h, i)
    decreases |h|
  {
    if h == [] {
    } else {
      var n := |h| - 1;
      var before, e := h[..n], h[n];
      forall a, i | Initiated(before, a, i) ensures Initiated(h, a, i) {
        var k :| 0 <= k < n && InitsWith(before[k], i) && before[k].addr == a;
        assert InitsWith(h[k], i);
      }
      SteadyRoutes(before, ttl);
      var t := After(before, ttl);
      assert After(h, ttl) == Step(t, e, ttl) && Sane(Step(t, e, ttl));
      forall i ensures Steady(Step(t, e, ttl), h, i) {
        assert InitsWith(e, i) ==> InitsWith(h[n], i) && Initiated(h, e.addr, i);
        SteadyStep(t, e, ttl, before, h, i);
      }
    }
  }

  lemma SteadyStep<R>(t: Table<R>, e: Event<R>, ttl: nat, before: seq<Event<R>>, h: seq<Event<R>>, i: Word)
    requires Sane(t) && Fresh(t, e) && Sane(Step(t, e, ttl)) && OneIndexEach(h)
    requires Steady(t, before, i)
    requires forall a, j :: Initiated(before, a, j) ==> Initiated(h, a, j)
    requires e.ClientInit? ==> Initiated(h, e.addr, e.index)
    ensures Steady(Step(t, e, ttl), h, i)
  {
    hide Initiated;
    OrphanStep(t, e, ttl, i);
  }

  /** A client that initiates twice from one address leaves its first index behind when it expires. */
  lemma ReinitLeaksIndex(a: Addr, ttl: nat, i: Word, j: Word)
    requires i != j
    ensures var h: seq<Event<nat>> := [ClientInit(a, i, 0, 0), ClientInit(a, j, 0, 1), Gc(ttl + 1)];
      History(h, ttl) && After(h, ttl).byAddr == map[] && RouteIn(After(h, ttl), i) == Some(a)
          && RouteIn(After(h, ttl), j) == None
  {
    var e1, e2, e3: Event<nat> := ClientInit(a, i, 0, 0), ClientInit(a, j, 0, 1), Gc(ttl + 1);
    assert [e1, e2, e3] == [e1, e2] + [e3] && [e1, e2] == [e1] + [e2] && [e1] == [] + [e1];
    Append([], e1, ttl);
    Append([e1], e2, ttl);
    Append([e1, e2], e3, ttl);
    var t2 := After([e1, e2], ttl);
    assert t2.byAddr == map[a := 0] && t2.byIndex == map[i := 0, j := 0];
    assert t2.store[0] == Session(a, j, None, Some(0));
    assert Stale(t2, ttl + 1, ttl) == {a};
    assert StaleIndices(t2, ttl + 1, ttl) == {j};
  }

  /** A client seen with transport data only has index 0, and its expiry takes index 0 from a live client. */
  lemma TrafficOnlyStealsIndexZero(a: Addr, b: Addr, ttl: nat)
    requires a != b
    ensures var h: seq<Event<nat>> := [ClientTraffic(a, 0, 0), ClientInit(b, 0, ttl + 1, 1), Gc(ttl + 1)];
      History(h, ttl) && b in After(h, ttl).byAddr && RouteIn(After(h, ttl), 0) == None
  {
    var e1, e2, e3: Event<nat> := ClientTraffic(a, 0, 0), ClientInit(b, 0, ttl + 1, 1), Gc(ttl + 1);
    assert [e1, e2, e3] == [e1, e2] + [e3];
    TrafficThenInit(a, b, ttl);
    Append([e1, e2], e3, ttl);
    hide History;
    var t2 := After([e1, e2], ttl);
    hide After;
    assert a in Stale(t2, ttl + 1, ttl) && b !in Stale(t2, ttl + 1, ttl);
    assert 0 in StaleIndices(t2, ttl + 1, ttl);
  }

  lemma TrafficThenInit(a: Addr, b: Addr, ttl: nat)
    requires a != b
    ensures var h: seq<Event<nat>> := [ClientTraffic(a, 0, 0), ClientInit(b, 0, ttl + 1, 1)];
      History(h, ttl) && After(h, ttl).byAddr == map[a := 0, b := 1]
      && After(h, ttl).store == map[0 := Session(a, 0, None, Some(0)), 1 := Session(b, 0, None, Some(ttl + 1))]
  {
    var e1, e2: Event<nat> := ClientTraffic(a, 0, 0), ClientInit(b, 0, ttl + 1, 1);
    assert [e1, e2] == [e1] + [e2] && [e1] == [] + [e1];
    Append([], e1, ttl);
    Append([e1], e2, ttl);
    var t1 := After([e1], ttl);
    assert t1.byAddr == map[a := 0] && t1.store == map[0 := Session(a, 0, None, Some(0))];
    hide After;
  }

  // ----- timing --------------------------------------------------------------------------------------------

  function TimeOf<R>(e: Event<R>): Option<int>
  {
    match e
    case ClientInit(_, _, now, _) => Some(now)
    case ClientTraffic(_, now, _) => Some(now)
    case SetPub(_, _, _) => None
    case Reply(_, now) => Some(now)
    case Gc(now) => Some(now)
  }

  /** The clock never goes back. */
  ghost predicate Chronological<R>(h: seq<Event<R>>)
  {
    forall j, k :: 0 <= j <= k < |h| && TimeOf(h[j]).Some? && TimeOf(h[k]).Some? ==>
        TimeOf(h[j]).value <= TimeOf(h[k]).value
  }

  predicate Active<R>(e: Event<R>, a: Addr) { (e.ClientInit? || e.ClientTraffic?) && e.addr == a }

  function LastActive<R>(h: seq<Event<R>>, a: Addr): Option<int>
  {
    if h == [] then None
    else if Active(h[|h| - 1], a) then Some(h[|h| - 1].now)
    else LastActive(h[..|h| - 1], a)
  }

  lemma {:induction false} LastActiveIsPast<R>(h: seq<Event<R>>, a: Addr, now: int)
    requires forall j :: 0 <= j < |h| && TimeOf(h[j]).Some? ==> TimeOf(h[j]).value <= now
    ensures LastActive(h, a).Some? ==> LastActive(h, a).value <= now
  {
    if h == [] || Active(h[|h| - 1], a) {
    } else {
      LastActiveIsPast(h[..|h| - 1], a, now);
    }
  }

  /** At every gc, the client was active within the last ttl. */
  ghost predicate Attentive<R>(h: seq<Event<R>>, a: Addr, ttl: nat)
  {
    forall j :: 0 <= j < |h| && h[j].Gc? && LastActive(h[..j], a).Some? ==>
        h[j].now - LastActive(h[..j], a).value <= ttl
  }

  /** The table has a session for a, last seen at `time` or later. */
  predicate KeptSince<R>(t: Table<R>, a: Addr, time: int)
    requires Sane(t)
  {
    && a in t.byAddr && t.store[t.byAddr[a]].lastSeen.Some? && t.store[t.byAddr[a]].lastSeen.value >= time
  }

  lemma KeptStep<R>(t: Table<R>, e: Event<R>, ttl: nat, a: Addr, time: int)
    requires Sane(t) && Sane(Step(t, e, ttl))
    requires TimeOf(e).Some? ==> TimeOf(e).value >= time
    requires e.Gc? ==> e.now - time <= ttl
    ensures KeptSince(t, a, time) ==> KeptSince(Step(t, e, ttl), a, time)
    ensures Active(e, a) ==> KeptSince(Step(t, e, ttl), a, e.now)
  {
    hide StaleIndices;
  }

  /** A client active at least once per ttl is never dropped. */
  lemma {:induction false} AttentiveClientIsKept<R>(h: seq<Event<R>>, a: Addr, ttl: nat)
    requires History(h, ttl) && Chronological(h) && Attentive(h, a, ttl) && LastActive(h, a).Some?
    ensures KeptSince(After(h, ttl), a, LastActive(h, a).value)
    decreases |h|
  {
    var n := |h| - 1;
    var before, e := h[..n], h[n];
    assert After(h, ttl) == Step(After(before, ttl), e, ttl);
    hide Step, KeptSince, Sane, Fresh;
    var time := LastActive(h, a).value;
    if Active(e, a) {
    } else {
      AttentiveBefore(h, a, ttl);
      AttentiveClientIsKept(before, a, ttl);
      if TimeOf(e).Some? {
        LastActiveIsPast(before, a, TimeOf(e).value);
      }
    }
    KeptStep(After(before, ttl), e, ttl, a, time);
  }

  lemma AttentiveBefore<R>(h: seq<Event<R>>, a: Addr, ttl: nat)
    requires h != [] && Chronological(h) && Attentive(h, a, ttl)
    ensures Chronological(h[..|h| - 1]) && Attentive(h[..|h| - 1], a, ttl)
  {
    var before := h[..|h| - 1];
    hide LastActive;
    forall j | 0 <= j < |before| && before[j].Gc? && LastActive(before[..j], a).Some?
      ensures before[j].now - LastActive(before[..j], a).value <= ttl
    {
      assert before[..j] == h[..j] && h[j].Gc?;
    }
  }

  /** When a session object was last seen: the last initiation or traffic of its address, or reply to it. */
  ghost function LastSeen<R>(h: seq<Event<R>>, ttl: nat, s: R): Option<int>
    requires History(h, ttl)
    decreases |h|
  {
    if h == [] then None
    else
      var before, e := h[..|h| - 1], h[|h| - 1];
      if !e.SetPub? && Target(After(before, ttl), e) == Some(s) then TimeOf(e) else LastSeen(before, ttl, s)
  }

  lemma {:induction false} SeenRefinesHistory<R>(h: seq<Event<R>>, ttl: nat, s: R)
    requires History(h, ttl)
    ensures (if s in After(h, ttl).store then After(h, ttl).store[s].lastSeen else None) == LastSeen(h, ttl, s)
    decreases |h|
  {
    if h == [] {
    } else {
      var before, e := h[..|h| - 1], h[|h| - 1];
      SeenRefinesHistory(before, ttl, s);
      assert After(h, ttl) == Step(After(before, ttl), e, ttl);
      hide After, History, StaleIndices;
    }
  }

  /** Exactly which clients a gc keeps: those seen, or replied to, within the last ttl. */
  lemma GcKeepsIff<R>(h: seq<Event<R>>, ttl: nat, now: int, a: Addr)
    requires History(h, ttl) && a in After(h, ttl).byAddr
    ensures History(h + [Gc(now)], ttl)
    ensures var seen := LastSeen(h, ttl, After(h, ttl).byAddr[a]);
            a in After(h + [Gc(now)], ttl).byAddr <==> seen.Some? && now - seen.value <= ttl
  {
    Append(h, Gc(now), ttl);
    SeenRefinesHistory(h, ttl, After(h, ttl).byAddr[a]);
    hide After, History, LastSeen, StaleIndices;
  }

  /** A client that was seen or replied to within ttl before each gc keeps its session. */
  lemma {:induction false} RefreshedClientIsKept<R>(h: seq<Event<R>>, later: seq<Event<R>>, ttl: nat, a: Addr)
    requires History(h + later, ttl) && History(h, ttl) && a in After(h, ttl).byAddr
    requires Refreshed(h, later, ttl, After(h, ttl).byAddr[a])
    ensures a in After(h + later, ttl).byAddr && After(h + later, ttl).byAddr[a] == After(h, ttl).byAddr[a]
    decreases |later|
  {
    if later == [] {
      assert h + later == h;
    } else {
      var n := |later| - 1;
      var front, e := later[..n], later[n];
      assert h + later == h + front + [e];
      Append(h + front, e, ttl);
      RefreshedClientIsKept(h, front, ttl, a);
      SeenRefinesHistory(h + front, ttl, After(h, ttl).byAddr[a]);
      hide After, History, LastSeen;
      StepKeepsSession(After(h + front, ttl), e, ttl, a);
      hide Step;
    }
  }

  lemma StepKeepsSession<R>(t: Table<R>, e: Event<R>, ttl: nat, a: Addr)
    requires Sane(t) && a in t.byAddr && (e.Gc? ==> !Expired(t.store[t.byAddr[a]], e.now, ttl))
    ensures a in Step(t, e, ttl).byAddr && Step(t, e, ttl).byAddr[a] == t.byAddr[a]
  {
    hide StaleIndices;
  }

  /** At every gc among the later events the object was seen within the last ttl. */
  ghost predicate Refreshed<R>(h: seq<Event<R>>, later: seq<Event<R>>, ttl: nat, s: R)
    requires History(h + later, ttl)
    decreases |later|
  {
    later == [] ||
    var n := |later| - 1;
    var front, e := later[..n], later[n];
    assert h + later == (h + front) + [e];
    Append(h + front, e, ttl);
    && Refreshed(h, front, ttl, s)
    && (e.Gc? ==> LastSeen(h + front, ttl, s).Some? && e.now - LastSeen(h + front, ttl, s).value <= ttl)
  }

  /** The event refreshes or recreates the session of a. */
  predicate Concerns<R>(t: Table<R>, e: Event<R>, a: Addr)
    requires Sane(t)
  {
    match e
    case ClientInit(b, _, _, _) => b == a
    case ClientTraffic(b, _, _) => b == a
    case SetPub(b, _, _) => b == a
    case Reply(i, _) => RouteIn(t, i) == Some(a)
    case Gc(_) => false
  }

  /** Last activity of the session of a at time t or before. */
  predicate SeenBy<R>(t: Table<R>, a: Addr, time: int)
    requires Sane(t)
  {
    a in t.byAddr ==> t.store[t.byAddr[a]].lastSeen.None? || t.store[t.byAddr[a]].lastSeen.value <= time
  }

  /** After the first n events a was last seen at `time` or before, and nothing has concerned it since. */
  ghost predicate IdleSince<R>(h: seq<Event<R>>, n: nat, a: Addr, ttl: nat, time: int)
    requires History(h, ttl) && n <= |h|
    decreases |h|
  {
    if n == |h| then SeenBy(After(h, ttl), a, time)
    else
      var before, e := h[..|h| - 1], h[|h| - 1];
      IdleSince(before, n, a, ttl, time) && !Concerns(After(before, ttl), e, a)
  }

  lemma IdleStep<R>(t: Table<R>, e: Event<R>, ttl: nat, a: Addr, time: int)
    requires Sane(t) && Fresh(t, e) && Sane(Step(t, e, ttl)) && !Concerns(t, e, a)
    ensures SeenBy(t, a, time) ==> SeenBy(Step(t, e, ttl), a, time)
    ensures a !in t.byAddr ==> a !in Step(t, e, ttl).byAddr
    ensures SeenBy(t, a, time) && e.Gc? && e.now > time + ttl ==> a !in Step(t, e, ttl).byAddr
  {
    hide StaleIndices;
  }

  /** A client idle since `time` is gone after any gc later than time + ttl. */
  lemma {:induction false} IdleClientIsDropped<R>(h: seq<Event<R>>, n: nat, g: nat, a: Addr, ttl: nat, time: int)
    requires History(h, ttl) && n <= g < |h| && IdleSince(h, n, a, ttl, time)
    requires h[g].Gc? && h[g].now > time + ttl
    ensures a !in After(h, ttl).byAddr
    decreases |h|
  {
    var before, e := h[..|h| - 1], h[|h| - 1];
    assert After(h, ttl) == Step(After(before, ttl), e, ttl);
    hide Step, SeenBy, Concerns, Sane, Fresh;
    if g < |h| - 1 {
      IdleClientIsDropped(before, n, g, a, ttl, time);
    } else {
      StaysIdle(before, n, a, ttl, time);
    }
    IdleStep(After(before, ttl), e, ttl, a, time);
  }

  lemma {:induction false} StaysIdle<R>(h: seq<Event<R>>, n: nat, a: Addr, ttl: nat, time: int)
    requires History(h, ttl) && n <= |h| && IdleSince(h, n, a, ttl, time)
    ensures SeenBy(After(h, ttl), a, time)
    decreases |h|
  {
    if n == |h| {
    } else {
      var before := h[..|h| - 1];
      assert After(h, ttl) == Step(After(before, ttl), h[|h| - 1], ttl);
      hide Step, SeenBy, Concerns, Sane, Fresh;
      StaysIdle(before, n, a, ttl, time);
      IdleStep(After(before, ttl), h[|h| - 1], ttl, a, time);
    }
  }

  /** Ticks start, start + ttl, start + 2*ttl, ... of gcLoop. */
  function GcTime(start: int, ttl: nat, k: nat): int { start + k * ttl }

  /** gc runs once in every interval of length ttl after the start. */
  lemma {:induction false} TickIn(start: int, ttl: nat, after: int, k: nat) returns (n: nat)
    requires ttl > 0 && GcTime(start, ttl, k) <= after
    ensures after < GcTime(start, ttl, n) <= after + ttl
    decreases after - GcTime(start, ttl, k)
  {
    assert GcTime(start, ttl, k + 1) == GcTime(start, ttl, k) + ttl;
    if after < GcTime(start, ttl, k + 1) {
      n := k + 1;
    } else {
      n := TickIn(start, ttl, after, k + 1);
    }
  }

  /** With gc every ttl, a client idle since `time` is gone within 2 * ttl of it. */
  lemma IdleClientIsGoneIn2Ttl<R>(h: seq<Event<R>>, n: nat, a: Addr, ttl: nat, time: int, start: int)
    requires ttl > 0 && History(h, ttl) && n <= |h| && IdleSince(h, n, a, ttl, time)
    requires start <= time + ttl
    requires forall k: nat :: time + ttl < GcTime(start, ttl, k) <= time + 2 * ttl ==>
               exists g :: n <= g < |h| && h[g] == Gc(GcTime(start, ttl, k))
    ensures a !in After(h, ttl).byAddr
  {
    assert GcTime(start, ttl, 0) == start;
    var k := TickIn(start, ttl, time + ttl, 0);
    var g :| n <= g < |h| && h[g] == Gc(GcTime(start, ttl, k));
    IdleClientIsDropped(h, n, g, a, ttl, time);
  }
}
