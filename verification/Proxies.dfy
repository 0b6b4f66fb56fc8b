/**
 The packet loops of both modes, one received packet per call (internal/proxy/server.go,
 internal/proxy/client.go).
 */
module Proxies {
  import opened Wrappers
  import opened Bits
  import opened Packets
  import opened Transforms
  import I = Identification
  import M = SessionModel
  import T = SessionTable

  /** What the poller last read from the router; an absent private key is all zero. */
  datatype Snapshot = Snapshot(serverPub: Key, serverPriv: Key, clientPubs: seq<Key>, upstream: Option<Upstream>)

  datatype Upstream = Upstream(pub: Key, addr: M.Addr)

  /** An index field, read from the buffer: it may reach behind a short packet, as Go's slices do. */
  function IndexAt(buf: Bytes, at: nat): Word
    requires at + 4 <= |buf|
  {
    Le32(buf[at..])
  }

  /** crypto/rand for a junk prefix. */
  method RandomPrefix(n: nat) returns (b: Bytes)
    ensures |b| == n
  {
    b := *;
    if |b| != n { b := seq(n, _ => 0); }
  }

  /** `out` is an obfuscation of `plain` for the key, with some prefix of the right length. */
  ghost predicate CopyFor(p: Params, c: Crypto, plain: Bytes, pub: Key, out: Bytes)
    requires |plain| >= 4
  {
    exists junk: Bytes :: |junk| == p.PrefixFor(Type(plain)) && out == p.Obfuscated(c, plain, pub, junk)
  }

  /** How many of n sends are tried when number `failsAt` fails. */
  function SentOf(n: nat, failsAt: Option<nat>): nat
  {
    if failsAt.Some? && failsAt.value < n then failsAt.value + 1 else n
  }

  /** Exactly the copies that are tried, one per key and in the order of the keys. */
  ghost predicate CopiesFor(p: Params, c: Crypto, plain: Bytes, pubs: seq<Key>, failsAt: Option<nat>, outs: seq<Bytes>)
    requires |plain| >= 4
  {
    && |outs| == SentOf(|pubs|, failsAt)
    && forall k :: 0 <= k < |outs| ==> CopyFor(p, c, plain, pubs[k], outs[k])
  }

  /** The message in a packet, behind the prefix of a response, carries the MAC1 that the holder of the key accepts. */
  ghost predicate CarriesMac(p: Params, c: Crypto, out: Bytes, pub: Key)
  {
    && |out| >= p.s2 + 76 && Le32(out[p.s2..]) == p.h2
    && var msg := out[p.s2..]; msg[60..76] == ComputeMac1(c, pub, msg[..60])
  }

  lemma CopyCarriesMac(p: Params, c: Crypto, plain: Bytes, pub: Key, out: Bytes)
    requires |plain| >= 76 && Type(plain) == RESPONSE && CopyFor(p, c, plain, pub, out)
    ensures CarriesMac(p, c, out, pub)
  {
    var junk: Bytes :| |junk| == p.PrefixFor(Type(plain)) && out == p.Obfuscated(c, plain, pub, junk);
    var x := WithType(plain, p.h2);
    var msg := Stamped(c, RESPONSE, x, pub);
    StampKeepsHead(c, RESPONSE, x, pub);
    assert out == junk + msg && out[p.s2..] == msg;
    assert msg[..60] == x[..60] && msg[60..76] == ComputeMac1(c, pub, x[..60]);
  }

  lemma ServeAll<R>(h: seq<M.Event<R>>, ttl: nat, index: Word, cands: seq<Key>)
    requires M.History(h, ttl)
    ensures forall pub :: M.MayHold(h, ttl, index, cands, pub) ==>
              var targets := M.Targets(M.After(h, ttl), index, cands, true);
              targets.Some? && pub in targets.value.1
  {
    hide M.After, M.History, M.MayHold, M.Targets;
    forall pub | M.MayHold(h, ttl, index, cands, pub)
      ensures var targets := M.Targets(M.After(h, ttl), index, cands, true);
              targets.Some? && pub in targets.value.1
    {
      M.PossibleKeyIsServed(h, ttl, index, cands, pub);
    }
  }

  /** If no send failed there is a copy for every key. */
  lemma EveryKeyHasACopy(p: Params, c: Crypto, plain: Bytes, pubs: seq<Key>, failsAt: Option<nat>, outs: seq<Bytes>)
    requires |plain| >= 76 && Type(plain) == RESPONSE && CopiesFor(p, c, plain, pubs, failsAt, outs)
    requires failsAt.Some? ==> failsAt.value >= |outs|
    ensures forall pub :: pub in pubs ==> exists out :: out in outs && CarriesMac(p, c, out, pub)
  {
    hide CopyFor, CarriesMac;
    forall pub | pub in pubs ensures exists out :: out in outs && CarriesMac(p, c, out, pub) {
      var k :| 0 <= k < |pubs| && pubs[k] == pub;
      CopyCarriesMac(p, c, plain, pub, outs[k]);
      assert outs[k] in outs;
    }
  }

  /** The receiver index of a reply of n bytes; for a complete one, the field that its message type defines. */
  function ReplyIndex(buf: Bytes, n: nat): (index: Word)
    requires n + 8 <= |buf|
    ensures HasReceiver(buf[..n]) ==> index == ReceiverIndex(buf[..n])
  {
    var typ := Type(buf[..n]);
    if typ == RESPONSE then IndexAt(buf, 8) else if typ == COOKIE || typ == TRANSPORT then IndexAt(buf, 4) else 0
  }

  // ----- server mode ---------------------------------------------------------------------------------

  class ServerProxy {
    const params: Params
    const crypto: Crypto
    const noise: I.Noise
    const tbl: T.Table

    constructor (params: Params, crypto: Crypto, noise: I.Noise, ttl: nat)
      ensures tbl.Valid() && fresh(tbl) && tbl.history == [] && tbl.store == map[]
      ensures this.params == params && this.crypto == crypto && this.noise == noise
    {
      this.params, this.crypto, this.noise := params, crypto, noise;
      tbl := new T.Table(ttl);
    }

    /** The client key found in an initiation, if the server's private key is known and it decrypts. */
    function Identified(plain: Bytes, snap: Snapshot): Option<Key>
    {
      if snap.serverPriv == M.ZeroKey() then None
      else I.ClientPubFromInit(noise, plain, snap.serverPriv, snap.serverPub)
    }

    /** The table calls that a deobfuscated packet from a client stands for. */
    ghost predicate CallsFor(events: seq<M.Event<T.Session>>, addr: M.Addr, plain: Bytes, snap: Snapshot, now: int)
    {
      if Type(plain) == INIT then
        var id := Identified(plain, snap);
        && |events| == (if id.Some? then 2 else 1)
        && events[0].ClientInit? && events[0].addr == addr && events[0].now == now
        && (|plain| >= 8 ==> events[0].index == SenderIndex(plain))
        && (id.Some? ==> events[1].SetPub? && events[1].addr == addr && events[1].pub == id.value)
      else if Type(plain) == TRANSPORT then
        |events| == 1 && events[0].ClientTraffic? && events[0].addr == addr && events[0].now == now
      else events == []
    }

    /**
     What the table knows after a packet that is forwarded: replies to the index of an initiation go
     to its sender, for its key if that was identified, and the sender was just seen.
     */
    ghost predicate Registered(t: M.Table<T.Session>, addr: M.Addr, plain: Bytes, snap: Snapshot, now: int)
      requires M.Sane(t)
    {
      && (Type(plain) == INIT || Type(plain) == TRANSPORT ==> M.SeenAt(t, addr, now))
      && (Type(plain) == INIT && |plain| >= 8 ==>
            && M.RouteIn(t, SenderIndex(plain)) == Some(addr)
            && (Identified(plain, snap).Some? ==> M.Bound(t, SenderIndex(plain), addr, Identified(plain, snap).value)))
    }

    lemma CallsRegister(h: seq<M.Event<T.Session>>, ttl: nat, events: seq<M.Event<T.Session>>, addr: M.Addr,
        plain: Bytes, snap: Snapshot, now: int)
      requires M.History(h + events, ttl) && CallsFor(events, addr, plain, snap, now)
      ensures Registered(M.After(h + events, ttl), addr, plain, snap, now)
    {
      hide M.History, M.After, Identified, M.Bound, M.SeenAt, M.RouteIn;
      if Type(plain) == INIT {
        var id, e := Identified(plain, snap), events[0];
        var r' := if id.Some? then events[1].r else e.r;
        assert h + events == h + [e] + (if id.Some? then [events[1]] else []);
        M.InitiationRegisters(h, ttl, addr, e.index, now, e.r, r', id);
      } else if Type(plain) == TRANSPORT {
        assert events == [events[0]];
        M.TrafficRegisters(h, ttl, addr, now, events[0].r);
      }
    }

    /**
     One packet from a client. Junk is dropped without a trace; anything else is forwarded exactly
     as deobfuscated for the server's key, and the session table records who sent it.
     */
    method FromClient(buf: array<Byte>, n: nat, addr: M.Addr, snap: Option<Snapshot>, now: int)
      returns (out: Option<Bytes>, ghost events: seq<M.Event<T.Session>>)
      requires tbl.Valid() && n + 8 <= buf.Length  // maxPacket exceeds the largest UDP payload
      modifies buf, tbl, tbl.store.Keys
      ensures tbl.Valid() && fresh(tbl.store.Keys - old(tbl.store.Keys))
      ensures tbl.history == old(tbl.history) + events
      ensures snap.None? ==> out.None?
      ensures snap.Some? ==>
                out == match params.Deobfuscated(crypto, old(buf[..n]), snap.value.serverPub)
                       case None => None
                       case Some((plain, _)) => Some(plain)
      ensures if out.None? then events == [] else CallsFor(events, addr, out.value, snap.value, now)
      ensures out.Some? ==> Registered(tbl.View(), addr, out.value, snap.value, now)
    {
      hide M.History, M.After, Params.Classify, Stamped, CallsFor, T.Table.Valid;
      out, events := None, [];
      if snap.None? { return; }
      var ok, typ, off := Deobfuscate(params, crypto, buf, n, snap.value.serverPub);
      if !ok { return; }
      DeobfuscatedIsGenuine(params, crypto, old(buf[..n]), snap.value.serverPub);
      var plain := buf[off..n];
      var index := IndexAt(buf[..], off + 4);
      events := Note(addr, plain, index, snap.value, now);
      out := Some(plain);
    }

    /** The table calls for a packet that is forwarded. */
    method Note(addr: M.Addr, plain: Bytes, index: Word, snap: Snapshot, now: int)
        returns (ghost events: seq<M.Event<T.Session>>)
      requires tbl.Valid() && (|plain| >= 8 ==> index == SenderIndex(plain))
      modifies tbl, tbl.store.Keys
      ensures tbl.Valid() && fresh(tbl.store.Keys - old(tbl.store.Keys))
      ensures tbl.history == old(tbl.history) + events && CallsFor(events, addr, plain, snap, now)
      ensures Registered(tbl.View(), addr, plain, snap, now)
    {
      hide M.History, M.After, I.ClientPubFromInit, T.Table.Valid;
      ghost var h := tbl.history;
      events := [];
      if Type(plain) == INIT {
        var s := tbl.ClientInit(addr, index, now);
        events := [M.ClientInit(addr, index, now, s)];
        if snap.serverPriv != M.ZeroKey() {
          var id := I.ClientPubFromInit(noise, plain, snap.serverPriv, snap.serverPub);
          if id.Some? {
            var s' := tbl.SetPub(addr, id.value);
            events := events + [M.SetPub(addr, id.value, s')];
          }
        }
      } else if Type(plain) == TRANSPORT {
        var s := tbl.ClientTraffic(addr, now);
        events := [M.ClientTraffic(addr, now, s)];
      }
      assert CallsFor(events, addr, plain, snap, now) && tbl.history == h + events;
      tbl.ViewIsAfter();
      hide CallsFor, Registered;
      CallsRegister(h, tbl.ttl, events, addr, plain, snap, now);
    }

    /**
     One packet from the WireGuard server: to the client that the receiver index belongs to, one copy
     per key, each a proper obfuscation for that key, up to the first one whose sending fails. A
     packet shorter than a type is routed by index 0, and obfuscating it panics.
     */
    method FromServer(buf: array<Byte>, n: nat, snap: Option<Snapshot>, now: int, failsAt: Option<nat>)
      returns (addr: Option<M.Addr>, outs: seq<Bytes>, panics: bool)
      requires tbl.Valid() && n + 8 <= buf.Length
      modifies tbl, tbl.store.Keys
      ensures tbl.Valid() && fresh(tbl.store.Keys - old(tbl.store.Keys))
      ensures snap.None? ==> addr.None? && outs == [] && !panics && tbl.history == old(tbl.history)
      ensures snap.Some? ==>
                var plain, index := buf[..n], ReplyIndex(buf[..], n);
                var targets := M.Targets(old(tbl.View()), index, snap.value.clientPubs, Type(plain) == RESPONSE);
                && tbl.history == old(tbl.history) + [M.Reply(index, now)]
                && addr == (if targets.None? then None else Some(targets.value.0))
                && (panics <==> n < 4 && targets.Some?)
                && if targets.None? || panics then outs == []
                   else CopiesFor(params, crypto, plain, targets.value.1, failsAt, outs)
      ensures snap.Some? && n >= 76 && Type(buf[..n]) == RESPONSE && (failsAt.Some? ==> failsAt.value >= |outs|) ==>
                forall pub :: M.MayHold(old(tbl.history), tbl.ttl, ReplyIndex(buf[..], n), snap.value.clientPubs, pub)
                  ==> exists out :: out in outs && CarriesMac(params, crypto, out, pub)
    {
      assert M.History(tbl.history, tbl.ttl) && tbl.View() == M.After(tbl.history, tbl.ttl);
      hide M.History, M.After, M.Targets, T.Table.Valid, CopyFor, Le32, CarriesMac, M.MayHold;
      addr, outs, panics := None, [], false;
      if snap.None? { return; }
      var plain := buf[..n];
      var typ := Type(plain);
      var index := ReplyIndex(buf[..], n);
      ServeAll(tbl.history, tbl.ttl, index, snap.value.clientPubs);
      var targets := tbl.ResponseTargets(index, snap.value.clientPubs, typ == RESPONSE, now);
      if targets.None? { return; }
      addr := Some(targets.value.0);
      if n < 4 { return addr, [], true; }
      outs := Copies(plain, targets.value.1, failsAt);
      if n >= 76 && typ == RESPONSE && (failsAt.Some? ==> failsAt.value >= |outs|) {
        EveryKeyHasACopy(params, crypto, plain, targets.value.1, failsAt, outs);
      }
    }

    /** The copies for the keys in order; `failsAt` is the first one that cannot be sent. */
    method Copies(plain: Bytes, pubs: seq<Key>, failsAt: Option<nat>) returns (outs: seq<Bytes>)
      requires |plain| >= 4
      ensures CopiesFor(params, crypto, plain, pubs, failsAt, outs)
    {
      hide Stamped;
      outs := [];
      for k := 0 to |pubs|
        invariant |outs| == k && (failsAt.Some? && failsAt.value < |pubs| ==> k <= failsAt.value)
        invariant forall i :: 0 <= i < k ==> CopyFor(params, crypto, plain, pubs[i], outs[i])
      {
        var prefix := RandomPrefix(params.PrefixFor(Type(plain)));
        var out := Obfuscate(params, crypto, plain, pubs[k], prefix);
        assert CopyFor(params, crypto, plain, pubs[k], out[..]);
        outs := outs + [out[..]];
        if failsAt == Some(k) { break; }
      }
    }
  }

  // ----- client mode ----------------------------------------------------------------------------------

  class ClientProxy {
    const params: Params
    const crypto: Crypto
    var routerSrc: Option<M.Addr>

    constructor (params: Params, crypto: Crypto)
      ensures routerSrc == None && this.params == params && this.crypto == crypto
    {
      this.params, this.crypto, routerSrc := params, crypto, None;
    }

    /**
     One packet from the router's WireGuard socket: obfuscated for the upstream's key and sent there.
     Obfuscating a packet shorter than a type panics; without an upstream it is dropped before that.
     */
    method FromRouter(buf: array<Byte>, n: nat, addr: M.Addr, snap: Option<Snapshot>)
      returns (out: Option<(Bytes, M.Addr)>, panics: bool)
      requires n <= buf.Length
      modifies this`routerSrc
      ensures routerSrc == Some(addr)
      ensures panics <==> n < 4 && snap.Some? && snap.value.upstream.Some?
      ensures out.Some? <==> n >= 4 && snap.Some? && snap.value.upstream.Some?
      ensures out.Some? ==>
                && out.value.1 == snap.value.upstream.value.addr
                && CopyFor(params, crypto, buf[..n], snap.value.upstream.value.pub, out.value.0)
    {
      routerSrc := Some(addr);
      out, panics := None, false;
      if snap.None? || snap.value.upstream.None? { return; }
      var up := snap.value.upstream.value;
      if n < 4 { return None, true; }
      var prefix := RandomPrefix(params.PrefixFor(Type(buf[..n])));
      var packet := Obfuscate(params, crypto, buf[..n], up.pub, prefix);
      out := Some((packet[..], up.addr));
    }

    /** One packet from the upstream: deobfuscated for the router's own key, back to the last router address. */
    method FromUpstream(buf: array<Byte>, n: nat, snap: Option<Snapshot>) returns (out: Option<(Bytes, M.Addr)>)
      requires n <= buf.Length
      modifies buf
      ensures out == if snap.None? || routerSrc.None? then None
                     else match params.Deobfuscated(crypto, old(buf[..n]), snap.value.serverPub)
                          case None => None
                          case Some((plain, _)) => Some((plain, routerSrc.value))
    {
      out := None;
      if snap.None? { return; }
      var ok, typ, off := Deobfuscate(params, crypto, buf, n, snap.value.serverPub);
      if !ok { return; }
      if routerSrc.None? { return; }
      out := Some((buf[off..n], routerSrc.value));
    }
  }

  // ----- both proxies ------------------------------------------------------------------------------------

  /**
   A client's initiation through both proxies: if the finished packet does not collide, the
   server-mode proxy forwards it byte for byte, and names its sender if it has the private key.
   */
  lemma InitiationIsTransparent(server: ServerProxy, m: Bytes, junk: Bytes, sender: Bytes, priv: Key, ephPriv: Key,
      snap: Snapshot, stamp: Bytes, mac2: Mac)
    requires server.noise.Sound() && |sender| == 4 && |stamp| == 12
    requires snap.serverPub == server.noise.pubOf(snap.serverPriv) && snap.serverPriv != M.ZeroKey()
    requires I.BuildInit(server.noise, server.crypto, sender, priv, ephPriv, snap.serverPub, stamp, mac2) == Some(m)
    requires |junk| == server.params.s1
    requires |m| >= 4 ==> !Collision(server.params, INIT, server.params.Obfuscated(server.crypto, m,
        snap.serverPub, junk))
    ensures |m| >= 4
    ensures server.params.Deobfuscated(server.crypto, server.params.Obfuscated(server.crypto, m, snap.serverPub,
        junk), snap.serverPub)
            == Some((m, INIT))
    ensures server.Identified(m, snap) == Some(server.noise.pubOf(priv))
  {
    hide I.BuildInit, I.ClientPubFromInit;
    I.IdentifiesTheClient(server.noise, server.crypto, sender, priv, ephPriv, snap.serverPriv, stamp, mac2);
    GenuineArrivesIdentical(server.params, server.crypto, m, junk, snap.serverPub, snap.serverPub);
  }

  /**
   The burst of responses: whatever candidate key a copy was made for, the client-mode proxy turns
   every copy that does not collide into the genuine response.
   */
  lemma EveryBurstCopyArrivesGenuine(p: Params, c: Crypto, m: Bytes, pubs: seq<Key>, junk: seq<Bytes>, clientPub: Key)
    requires |m| >= 4 && Type(m) == RESPONSE && (HasMac1(RESPONSE, |m|) ==> MacValid(c, m, clientPub))
    requires |junk| == |pubs| && forall k :: 0 <= k < |junk| ==> |junk[k]| == p.s2
    ensures forall k :: 0 <= k < |pubs| ==>
              var out := p.Obfuscated(c, m, pubs[k], junk[k]);
              (p.Deobfuscated(c, out, clientPub) == Some((m, RESPONSE)) <==> !Collision(p, RESPONSE, out))
  {
    forall k | 0 <= k < |pubs|
      ensures var out := p.Obfuscated(c, m, pubs[k], junk[k]);
              (p.Deobfuscated(c, out, clientPub) == Some((m, RESPONSE)) <==> !Collision(p, RESPONSE, out))
    {
      GenuineArrivesIdentical(p, c, m, junk[k], pubs[k], clientPub);
    }
  }
}
