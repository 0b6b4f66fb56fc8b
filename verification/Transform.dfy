/**
 AmneziaWG obfuscation (internal/awg/transform.go, mac.go): magic headers H1..H4, junk prefixes
 S1/S2 and re-keyed MAC1, on byte level. Hash and keyed MAC are arbitrary functions.
 */
module Transforms {
  import opened Wrappers
  import opened Bits
  import opened Packets

  /** BLAKE2s-256 and keyed BLAKE2s-128. */
  datatype Crypto = Crypto(hash: Bytes -> Key, mac: (Key, Bytes) -> Mac)

  const LABEL_MAC1: Bytes := [109, 97, 99, 49, 45, 45, 45, 45]  // "mac1----"

  /** MAC1 of a message for the static public key of its recipient (section 5.4.4 of the WireGuard whitepaper). */
  function ComputeMac1(c: Crypto, pub: Key, msg: Bytes): Mac { c.mac(c.hash(LABEL_MAC1 + pub), msg) }

  datatype Params = Params(h1: Word, h2: Word, h3: Word, h4: Word, s1: nat, s2: nat)
  {
    function HFor(t: Word): Word
    {
      if t == INIT then h1 else if t == RESPONSE then h2 else if t == COOKIE then h3 else h4
    }

    function PrefixFor(t: Word): nat { if t == INIT then s1 else if t == RESPONSE then s2 else 0 }

    /** Type and offset of the message in an obfuscated packet; none for junk. The order of the tests matters. */
    function Classify(pkt: Bytes): (r: Option<(Word, nat)>)
      ensures r.Some? ==> r.value.1 + 4 <= |pkt|
    {
      if |pkt| < 4 then None
      else if Le32(pkt) == h4 then Some((TRANSPORT, 0))
      else if Le32(pkt) == h3 then Some((COOKIE, 0))
      else if |pkt| >= s1 + 4 && Le32(pkt[s1..]) == h1 then Some((INIT, s1))
      else if |pkt| >= s2 + 4 && Le32(pkt[s2..]) == h2 then Some((RESPONSE, s2))
      else None
    }

    function Deobfuscated(c: Crypto, pkt: Bytes, pub: Key): Option<(Bytes, Word)>
    {
      match Classify(pkt)
      case None => None
      case Some((t, off)) => Some((Stamped(c, t, WithType(pkt[off..], t), pub), t))
    }

    /** `junk` stands for the random prefix. */
    function Obfuscated(c: Crypto, plain: Bytes, pub: Key, junk: Bytes): Bytes
      requires |plain| >= 4
    {
      junk + Stamped(c, Type(plain), WithType(plain, HFor(Type(plain))), pub)
    }
  }

  /** A message of type t with MAC1 recomputed for `pub`, if it has room for one. */
  function Stamped(c: Crypto, t: Word, msg: Bytes, pub: Key): (out: Bytes)
    ensures |out| == |msg|
  {
    if HasMac1(t, |msg|) then
      var mo := Mac1Offset(t).value;
      msg[..mo] + ComputeMac1(c, pub, msg[..mo]) + msg[mo + MAC_SIZE..]
    else msg
  }

  /** The MAC1 of a plain message is the one its recipient with key `pub` accepts. */
  predicate MacValid(c: Crypto, plain: Bytes, pub: Key)
    requires HasMac1(Type(plain), |plain|)
  {
    var mo := Mac1Offset(Type(plain)).value;
    plain[mo..mo + MAC_SIZE] == ComputeMac1(c, pub, plain[..mo])
  }

  // ----- round trip -------------------------------------------------------------------------------

  predicate KnownType(t: Word) { t == INIT || t == RESPONSE || t == COOKIE || t == TRANSPORT }

  /** The message of type t would be found in the packet: its magic header stands behind its prefix. */
  predicate Matches(p: Params, pkt: Bytes, t: Word)
  {
    |pkt| >= p.PrefixFor(t) + 4 && Le32(pkt[p.PrefixFor(t)..]) == p.HFor(t)
  }

  /** The order in which types are tried: the ones without a prefix first. */
  function TurnOf(t: Word): nat { if t == TRANSPORT then 0 else if t == COOKIE then 1 else if t == INIT then 2 else 3 }

  /** Classify finds the first type in that order whose header matches, and nothing only if none does. */
  lemma ClassifyPicksFirst(p: Params, pkt: Bytes)
    ensures p.Classify(pkt).None? <==> forall t: Word :: KnownType(t) ==> !Matches(p, pkt, t)
    ensures p.Classify(pkt).Some? ==>
              var (t, off) := p.Classify(pkt).value;
              && KnownType(t) && Matches(p, pkt, t) && off == p.PrefixFor(t)
              && forall u: Word :: KnownType(u) && TurnOf(u) < TurnOf(t) ==> !Matches(p, pkt, u)
  {
    hide Le32;
    assert pkt[0..] == pkt;
    assert KnownType(TRANSPORT) && KnownType(COOKIE) && KnownType(INIT) && KnownType(RESPONSE);
    assert forall t: Word :: KnownType(t) ==> t == TRANSPORT || t == COOKIE || t == INIT || t == RESPONSE;
    if p.Classify(pkt).Some? {
      assert Matches(p, pkt, p.Classify(pkt).value.0);
    }
  }

  /** A check that the sender can make on the finished packet: another test of Classify fires first. */
  predicate Collision(p: Params, t: Word, out: Bytes)
    requires |out| >= 4
  {
    if t == TRANSPORT then false
    else if t == COOKIE then p.h3 == p.h4
    else
      || Le32(out) == p.h3 || Le32(out) == p.h4
      || (t == RESPONSE && |out| >= p.s1 + 4 && Le32(out[p.s1..]) == p.h1)
  }

  lemma StampKeepsHead(c: Crypto, t: Word, msg: Bytes, pub: Key)
    requires |msg| >= 4
    ensures Stamped(c, t, msg, pub)[..4] == msg[..4] && Le32(Stamped(c, t, msg, pub)) == Le32(msg)
  {
  }

  /** Re-stamping depends on what is outside MAC1 only. */
  lemma RestampForgets(c: Crypto, t: Word, msg: Bytes, other: Word, a: Key, b: Key)
    requires |msg| >= 4
    ensures Stamped(c, t, WithType(Stamped(c, t, WithType(msg, other), a), Le32(msg)), b) == Stamped(c, t, msg, b)
  {
    Le32Unique(msg);
    assert msg == msg[..4] + msg[4..];
    var x := WithType(msg, other);
    var y := Stamped(c, t, x, a);
    var z := WithType(y, Le32(msg));
    assert z[..4] == msg[..4] && |z| == |msg|;
    if HasMac1(t, |msg|) {
      var mo := Mac1Offset(t).value;
      assert forall i :: 4 <= i < |msg| ==> x[i] == msg[i];
      assert forall i :: 4 <= i < |msg| && !(mo <= i < mo + MAC_SIZE) ==> y[i] == x[i];
      assert forall i :: 4 <= i < |msg| ==> z[i] == y[i];
      assert z[..mo] == msg[..mo] && z[mo + MAC_SIZE..] == msg[mo + MAC_SIZE..];
    } else {
      assert z == msg;
    }
  }

  /**
   Deobfuscating an obfuscated message of a WireGuard type gives its type and the message with
   only MAC1 re-keyed, if and only if the finished packet has no classifier collision.
   */
  lemma RoundTripIffNoCollision(p: Params, c: Crypto, m: Bytes, junk: Bytes, k: Key, k': Key)
    requires |m| >= 4 && KnownType(Type(m)) && |junk| == p.PrefixFor(Type(m))
    ensures var out := p.Obfuscated(c, m, k, junk);
      p.Deobfuscated(c, out, k') == Some((Stamped(c, Type(m), m, k'), Type(m))) <==> !Collision(p, Type(m), out)
  {
    hide Stamped, WithType;
    var t := Type(m);
    var msg := Stamped(c, t, WithType(m, p.HFor(t)), k);
    var out := junk + msg;
    StampKeepsHead(c, t, WithType(m, p.HFor(t)), k);
    assert out[|junk|..] == msg;
    assert Le32(out[|junk|..]) == p.HFor(t);
    RestampForgets(c, t, m, p.HFor(t), k, k');
  }

  /**
   The collision does happen: a handshake message behind random bytes that begin with the transport
   header passes for transport data and is not recovered.
   */
  lemma HandshakeTakenForTransport(p: Params, c: Crypto, m: Bytes, tail: Bytes, k: Key, k': Key)
    requires |m| >= 4 && (Type(m) == INIT || Type(m) == RESPONSE) && p.PrefixFor(Type(m)) == 4 + |tail|
    ensures var out := p.Obfuscated(c, m, k, PutLe32(p.h4) + tail);
      && p.Classify(out) == Some((TRANSPORT, 0))
      && p.Deobfuscated(c, out, k') != Some((Stamped(c, Type(m), m, k'), Type(m)))
  {
    hide Stamped, WithType;
    var junk, out := PutLe32(p.h4) + tail, p.Obfuscated(c, m, k, PutLe32(p.h4) + tail);
    assert out == PutLe32(p.h4) + out[4..];
    Le32RoundTrip(p.h4, out[4..]);
    RoundTripIffNoCollision(p, c, m, junk, k, k');
  }

  /** A packet of any other type comes out as transport data, otherwise unchanged. */
  lemma OtherTypesBecomeTransport(p: Params, c: Crypto, m: Bytes, k: Key, k': Key)
    requires |m| >= 4 && !KnownType(Type(m))
    ensures p.Deobfuscated(c, p.Obfuscated(c, m, k, []), k') == Some((WithType(m, TRANSPORT), TRANSPORT))
  {
    var out := WithType(m, p.h4);
    assert [] + out == out && out[0..] == out;
    assert WithType(out, TRANSPORT) == WithType(m, TRANSPORT);
  }

  /** Position i lies in the MAC1 field of a message of type t. */
  predicate InMac1(t: Word, len: nat, i: int)
  {
    HasMac1(t, len) && Mac1Offset(t).value <= i < Mac1Offset(t).value + MAC_SIZE
  }

  /**
   Whatever comes in, a packet that is accepted keeps its bytes, in place, outside the type and the
   MAC1 field, has a standard type, and if it is a handshake message with room for MAC1, the MAC1
   is valid for the recipient.
   */
  lemma DeobfuscatedIsGenuine(p: Params, c: Crypto, pkt: Bytes, pub: Key)
    requires p.Deobfuscated(c, pkt, pub).Some?
    ensures var (plain, t) := p.Deobfuscated(c, pkt, pub).value;
      var off := |pkt| - |plain|;
      && 4 <= |plain| <= |pkt| && KnownType(t) && Type(plain) == t && off == p.PrefixFor(t)
      && Le32(pkt[off..]) == p.HFor(t)
      && (forall i :: 4 <= i < |plain| && !InMac1(t, |plain|, i) ==> plain[i] == pkt[off + i])
      && (HasMac1(t, |plain|) ==> MacValid(c, plain, pub))
  {
    var (t, off) := p.Classify(pkt).value;
    var x := WithType(pkt[off..], t);
    StampKeepsHead(c, t, x, pub);
    assert forall i :: 4 <= i < |x| ==> x[i] == pkt[off..][i];
    var plain := Stamped(c, t, x, pub);
    if HasMac1(t, |plain|) {
      var mo := Mac1Offset(t).value;
      assert plain[..mo] == x[..mo] && plain[mo..mo + MAC_SIZE] == ComputeMac1(c, pub, x[..mo]);
    }
  }

  /** A message whose MAC1 is already valid for `pub` is not changed by stamping it for `pub`. */
  lemma StampOfValid(c: Crypto, m: Bytes, pub: Key)
    requires HasMac1(Type(m), |m|) ==> MacValid(c, m, pub)
    ensures Stamped(c, Type(m), m, pub) == m
  {
    if HasMac1(Type(m), |m|) {
      var mo := Mac1Offset(Type(m)).value;
      assert m == m[..mo] + m[mo..mo + MAC_SIZE] + m[mo + MAC_SIZE..];
    }
  }

  /**
   Two proxies are transparent: a message genuine for recipient `pub`, obfuscated for any key and
   deobfuscated for `pub`, arrives byte for byte, unless the packet collides.
   */
  lemma GenuineArrivesIdentical(p: Params, c: Crypto, m: Bytes, junk: Bytes, k: Key, pub: Key)
    requires |m| >= 4 && KnownType(Type(m)) && |junk| == p.PrefixFor(Type(m))
    requires HasMac1(Type(m), |m|) ==> MacValid(c, m, pub)
    ensures var out := p.Obfuscated(c, m, k, junk);
      p.Deobfuscated(c, out, pub) == Some((m, Type(m))) <==> !Collision(p, Type(m), out)
  {
    hide Stamped;
    RoundTripIffNoCollision(p, c, m, junk, k, pub);
    StampOfValid(c, m, pub);
  }

  // ----- the code --------------------------------------------------------------------------------------

  /** copy(buf[at:], data) */
  method PutBytes(buf: array<Byte>, at: nat, data: Bytes)
    requires at + |data| <= buf.Length
    modifies buf
    ensures buf[..] == old(buf[..at]) + data + old(buf[at + |data|..])
  {
    for i := 0 to |data|
      invariant buf[..at] == old(buf[..at]) && buf[at..at + i] == data[..i]
      invariant buf[at + i..] == old(buf[at + i..])
    {
      buf[at + i] := data[i];
      assert buf[at..at + i + 1] == buf[at..at + i] + [data[i]];
    }
  }

  /** Overwriting a part of a slice overwrites that part of the buffer. */
  lemma Splice(whole: Bytes, off: nat, end: nat, at: nat, data: Bytes)
    requires off + at + |data| <= end <= |whole|
    ensures var msg := whole[off..end];
            whole[..off + at] + data + whole[off + at + |data|..]
            == whole[..off] + (msg[..at] + data + msg[at + |data|..]) + whole[end..]
  {
    var msg := whole[off..end];
    assert whole[..off + at] == whole[..off] + msg[..at];
    assert whole[off + at + |data|..] == msg[at + |data|..] + whole[end..];
  }

  /** Recompute MAC1, in place, of the message of type t between `off` and `end`, if it has room for one. */
  method Stamp(c: Crypto, buf: array<Byte>, off: nat, end: nat, t: Word, pub: Key)
    requires off <= end <= buf.Length
    modifies buf
    ensures buf[..] == old(buf[..off]) + Stamped(c, t, old(buf[off..end]), pub) + old(buf[end..])
  {
    hide ComputeMac1;
    ghost var msg, whole := buf[off..end], buf[..];
    var mo := Mac1Offset(t);
    if mo.Some? && end - off >= mo.value + MAC_SIZE {
      var at := off + mo.value;
      assert buf[off..at] == msg[..mo.value];
      var mac := ComputeMac1(c, pub, buf[off..at]);
      PutBytes(buf, at, mac);
      Splice(whole, off, end, mo.value, mac);
    } else {
      assert whole == whole[..off] + msg + whole[end..];
    }
  }

  /** Deobfuscate: works inside the received buffer, of which the first n bytes are the packet. */
  method Deobfuscate(p: Params, c: Crypto, buf: array<Byte>, n: nat, pub: Key) returns (ok: bool, typ: Word, off: nat)
    requires n <= buf.Length
    modifies buf
    ensures ok ==> off <= n && p.Deobfuscated(c, old(buf[..n]), pub) == Some((buf[off..n], typ))
    ensures !ok ==> p.Deobfuscated(c, old(buf[..n]), pub) == None && buf[..] == old(buf[..])
    ensures ok ==> buf[..off] == old(buf[..off]) && buf[n..] == old(buf[n..])
  {
    hide Stamped, Params.Classify;
    ghost var pkt := buf[..n];
    ghost var rest := buf[n..];
    var found := p.Classify(buf[..n]);
    if found.None? { return false, 0, 0; }
    ok, typ, off := true, found.value.0, found.value.1;
    ghost var x := WithType(pkt[off..], typ);
    assert buf[off + 4..] == pkt[off..][4..] + rest;
    SetType(buf, off, typ);
    assert buf[..] == pkt[..off] + x + rest;
    assert buf[..off] == pkt[..off] && buf[off..n] == x && buf[n..] == rest;
    Stamp(c, buf, off, n, typ, pub);
    assert buf[off..n] == Stamped(c, typ, x, pub);
  }

  /** Obfuscate: builds a new buffer and leaves the plain packet alone. */
  method Obfuscate(p: Params, c: Crypto, plain: Bytes, pub: Key, junk: Bytes) returns (out: array<Byte>)
    requires |plain| >= 4 && |junk| == p.PrefixFor(Type(plain))
    ensures fresh(out) && out[..] == p.Obfuscated(c, plain, pub, junk)
  {
    hide Stamped;
    var typ := Type(plain);
    var prefix := p.PrefixFor(typ);
    out := new Byte[prefix + |plain|](_ => 0);
    PutBytes(out, 0, junk);
    PutBytes(out, prefix, plain);
    assert out[..] == junk + plain;
    ghost var x := WithType(plain, p.HFor(typ));
    SetType(out, prefix, p.HFor(typ));
    assert out[..] == junk + x;
    assert out[..prefix] == junk && out[prefix..out.Length] == x;
    Stamp(c, out, prefix, out.Length, typ, pub);
  }
}
