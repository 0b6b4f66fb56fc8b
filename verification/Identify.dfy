/**
 Recovering the client's static key from a handshake initiation (internal/awg/identify.go). The
 primitives are arbitrary functions; the initiator's side follows section 5.4.2 of the WireGuard
 whitepaper.
 */
module Identification {
  import opened Wrappers
  import opened Bits
  import opened Packets
  import opened Transforms

  /** BLAKE2s-256, HMAC-BLAKE2s, X25519 with key derivation, ChaCha20-Poly1305 with nonce 0. */
  datatype Noise = Noise(
    hash: Bytes -> Key,
    hmac: (Bytes, Bytes) -> Key,
    pubOf: Key -> Key,
    dh: (Key, Key) -> Option<Key>,
    seal: (Key, Bytes, Bytes) -> Bytes,
    open: (Key, Bytes, Bytes) -> Option<Bytes>)
  {
    function Kdf1(key: Key, input: Bytes): Key { hmac(hmac(key, input), [1]) }

    function Kdf2(key: Key, input: Bytes): (Key, Key)
    {
      var prk := hmac(key, input);
      var t1 := hmac(prk, [1]);
      (t1, hmac(prk, t1 + [2]))
    }

    function Kdf3(key: Key, input: Bytes): (Key, Key, Key)
    {
      var (t1, t2) := Kdf2(key, input);
      (t1, t2, hmac(hmac(key, input), t2 + [3]))
    }

    /**
     Diffie-Hellman commutes, failing on both sides or on none (section 6.1 of RFC 7748), and
     opening a sealed text with the same key and data gives it back (section 2.8 of RFC 8439).
     */
    ghost predicate Sound()
    {
      && (forall a, b :: dh(a, pubOf(b)) == dh(b, pubOf(a)))
      && (forall k, text, data ::
            open(k, seal(k, text, data), data) == Some(text) && |seal(k, text, data)| == |text| + 16)
    }
  }

  function Ascii(s: string): Bytes { seq(|s|, i requires 0 <= i < |s| => (s[i] as int) % 0x100) }

  const CONSTRUCTION := "Noise_IKpsk2_25519_ChaChaPoly_BLAKE2s"
  const IDENTIFIER := "WireGuard v1 zx2c4 Jason@zx2c4.com"

  /** ClientPubFromInit: the responder's side of the Noise chain up to the encrypted static key. */
  function ClientPubFromInit(n: Noise, init: Bytes, serverPriv: Key, serverPub: Key): Option<Key>
  {
    if |init| < 88 then None else
    var ephemeral := init[8..40];
    var encStatic := init[40..88];
    var ck := n.hash(Ascii(CONSTRUCTION));
    var h := n.hash(n.hash(n.hash(ck + Ascii(IDENTIFIER)) + serverPub) + ephemeral);
    var ck1 := n.Kdf1(ck, ephemeral);
    match n.dh(serverPriv, ephemeral)
    case None => None
    case Some(ss) =>
      match n.open(n.Kdf2(ck1, ss).1, encStatic, h)
      case None => None
      case Some(out) => if |out| != 32 then None else Some(out)
  }

  /** The first message of section 5.4.2; none if a Diffie-Hellman step fails. */
  function BuildInit(n: Noise, c: Crypto, sender: Bytes, priv: Key, ephPriv: Key, serverPub: Key, stamp: Bytes,
      mac2: Mac): Option<Bytes>
  {
    var c0 := n.hash(Ascii(CONSTRUCTION));
    var h0 := n.hash(n.hash(c0 + Ascii(IDENTIFIER)) + serverPub);
    var ephemeral := n.pubOf(ephPriv);
    var h1 := n.hash(h0 + ephemeral);
    match n.dh(ephPriv, serverPub)
    case None => None
    case Some(es) =>
      var (c2, k) := n.Kdf2(n.Kdf1(c0, ephemeral), es);
      var encrypted := n.seal(k, n.pubOf(priv), h1);
      match n.dh(priv, serverPub)
      case None => None
      case Some(ss) =>
        var timestamp := n.seal(n.Kdf2(c2, ss).1, stamp, n.hash(h1 + encrypted));
        var a := PutLe32(INIT) + sender + ephemeral + encrypted + timestamp;
        Some(a + ComputeMac1(c, serverPub, a) + mac2)
  }

  /** Every initiation built by a client with static key `priv` is attributed to that client. */
  lemma IdentifiesTheClient(n: Noise, c: Crypto, sender: Bytes, priv: Key, ephPriv: Key, serverPriv: Key,
      stamp: Bytes, mac2: Mac)
    requires n.Sound() && |sender| == 4 && |stamp| == 12
    requires BuildInit(n, c, sender, priv, ephPriv, n.pubOf(serverPriv), stamp, mac2).Some?
    ensures var m := BuildInit(n, c, sender, priv, ephPriv, n.pubOf(serverPriv), stamp, mac2).value;
      && |m| == 148 && Type(m) == INIT && MacValid(c, m, n.pubOf(serverPriv))
      && ClientPubFromInit(n, m, serverPriv, n.pubOf(serverPriv)) == Some(n.pubOf(priv))
  {
    var serverPub := n.pubOf(serverPriv);
    var ephemeral := n.pubOf(ephPriv);
    var c0 := n.hash(Ascii(CONSTRUCTION));
    var h1 := n.hash(n.hash(n.hash(c0 + Ascii(IDENTIFIER)) + serverPub) + ephemeral);
    assert n.dh(ephPriv, serverPub) == n.dh(serverPriv, ephemeral);
    var es := n.dh(ephPriv, serverPub).value;
    var (c2, k) := n.Kdf2(n.Kdf1(c0, ephemeral), es);
    var encrypted := n.seal(k, n.pubOf(priv), h1);
    var timestamp := n.seal(n.Kdf2(c2, n.dh(priv, serverPub).value).1, stamp, n.hash(h1 + encrypted));
    assert |encrypted| == 48 && |timestamp| == 28;
    var a := PutLe32(INIT) + sender + ephemeral + encrypted + timestamp;
    var m := a + ComputeMac1(c, serverPub, a) + mac2;
    assert m == BuildInit(n, c, sender, priv, ephPriv, serverPub, stamp, mac2).value;
    assert |a| == 116;
    assert m[..116] == a && m[116..132] == ComputeMac1(c, serverPub, a);
    assert m[8..40] == ephemeral && m[40..88] == encrypted;
    Le32RoundTrip(INIT, m[4..]);
    assert m == PutLe32(INIT) + m[4..];
    assert n.open(k, encrypted, h1) == Some(n.pubOf(priv));
  }

  // ----- the parts of the messages ------------------------------------------------------------------

  /**
   The second message, section 5.4.3, for chaining key `ck` and hash `h` after the first one; none if
   a Diffie-Hellman step fails.
   */
  function BuildResponse(n: Noise, c: Crypto, sender: Bytes, receiver: Bytes, ck: Key, h: Key, ephPriv: Key,
      clientEphemeral: Key, clientPub: Key, psk: Key, mac2: Mac): Option<Bytes>
  {
    var ephemeral := n.pubOf(ephPriv);
    match n.dh(ephPriv, clientEphemeral)
    case None => None
    case Some(ee) =>
      match n.dh(ephPriv, clientPub)
      case None => None
      case Some(es) =>
        var (_, tau, key) := n.Kdf3(n.Kdf1(n.Kdf1(n.Kdf1(ck, ephemeral), ee), es), psk);
        var empty := n.seal(key, [], n.hash(n.hash(h + ephemeral) + tau));
        var a := PutLe32(RESPONSE) + sender + receiver + ephemeral + empty;
        Some(a + ComputeMac1(c, clientPub, a) + mac2)
  }

  /** A cookie reply, section 5.4.7, and a transport message, section 5.4.6. */
  function BuildCookie(receiver: Bytes, nonce: Bytes, cookie: Bytes): Bytes
  {
    PutLe32(COOKIE) + receiver + nonce + cookie
  }

  function BuildTransport(receiver: Bytes, counter: Bytes, packet: Bytes): Bytes
  {
    PutLe32(TRANSPORT) + receiver + counter + packet
  }

  /** In a response the proxy finds the indices of both sides and a MAC1 for the client's key. */
  lemma ResponseParts(n: Noise, c: Crypto, sender: Bytes, receiver: Bytes, ck: Key, h: Key, ephPriv: Key,
      clientEphemeral: Key, clientPub: Key, psk: Key, mac2: Mac)
    requires n.Sound() && |sender| == 4 && |receiver| == 4
    requires BuildResponse(n, c, sender, receiver, ck, h, ephPriv, clientEphemeral, clientPub, psk, mac2).Some?
    ensures var m := BuildResponse(n, c, sender, receiver, ck, h, ephPriv, clientEphemeral, clientPub, psk, mac2).value;
      && |m| == 92 && Type(m) == RESPONSE && HasReceiver(m)
      && SenderIndex(m) == Le32(sender) && ReceiverIndex(m) == Le32(receiver) && MacValid(c, m, clientPub)
  {
    var m := BuildResponse(n, c, sender, receiver, ck, h, ephPriv, clientEphemeral, clientPub, psk, mac2).value;
    var ephemeral := n.pubOf(ephPriv);
    var ee, es := n.dh(ephPriv, clientEphemeral).value, n.dh(ephPriv, clientPub).value;
    var (_, tau, key) := n.Kdf3(n.Kdf1(n.Kdf1(n.Kdf1(ck, ephemeral), ee), es), psk);
    var empty := n.seal(key, [], n.hash(n.hash(h + ephemeral) + tau));
    assert |empty| == 16;
    var a := PutLe32(RESPONSE) + sender + receiver + ephemeral + empty;
    assert m == a + ComputeMac1(c, clientPub, a) + mac2;
    hide BuildResponse, ComputeMac1, Noise.Kdf3, Le32, PutLe32;
    assert m[4..] == sender + (m[8..]) && m[8..] == receiver + m[12..] && m == PutLe32(RESPONSE) + m[4..];
    TypeReads(RESPONSE, m);
    IndexReads(sender, m[8..]);
    IndexReads(receiver, m[12..]);
    assert m[..60] == a && m[60..76] == ComputeMac1(c, clientPub, a);
  }

  /** The index field reads as the four bytes that were put there. */
  lemma IndexReads(index: Bytes, rest: Bytes)
    requires |index| == 4
    ensures Le32(index + rest) == Le32(index)
  {
  }

  lemma TypeReads(t: Word, m: Bytes)
    requires |m| >= 4 && m == PutLe32(t) + m[4..]
    ensures Type(m) == t
  {
    Le32RoundTrip(t, m[4..]);
  }

  /** In the other messages it finds the index that they carry, and in an initiation also the MAC1 for the server. */
  lemma OtherParts(n: Noise, c: Crypto, index: Bytes, priv: Key, ephPriv: Key, serverPriv: Key, stamp: Bytes, mac2: Mac,
      nonce: Bytes, rest: Bytes)
    requires n.Sound() && |index| == 4 && |stamp| == 12
    requires BuildInit(n, c, index, priv, ephPriv, n.pubOf(serverPriv), stamp, mac2).Some?
    ensures var m := BuildInit(n, c, index, priv, ephPriv, n.pubOf(serverPriv), stamp, mac2).value;
      |m| == 148 && Type(m) == INIT && SenderIndex(m) == Le32(index) && MacValid(c, m, n.pubOf(serverPriv))
    ensures var m := BuildCookie(index, nonce, rest);
      Type(m) == COOKIE && HasReceiver(m) && ReceiverIndex(m) == Le32(index)
    ensures var m := BuildTransport(index, nonce, rest);
      Type(m) == TRANSPORT && HasReceiver(m) && ReceiverIndex(m) == Le32(index)
  {
    InitSender(n, c, index, priv, ephPriv, serverPriv, stamp, mac2);
    ReceiverAtFour(COOKIE, index, nonce + rest);
    ReceiverAtFour(TRANSPORT, index, nonce + rest);
    assert BuildCookie(index, nonce, rest) == PutLe32(COOKIE) + index + (nonce + rest);
    assert BuildTransport(index, nonce, rest) == PutLe32(TRANSPORT) + index + (nonce + rest);
    hide BuildInit, BuildCookie, BuildTransport;
  }

  lemma InitSender(n: Noise, c: Crypto, sender: Bytes, priv: Key, ephPriv: Key, serverPriv: Key, stamp: Bytes,
      mac2: Mac)
    requires n.Sound() && |sender| == 4 && |stamp| == 12
    requires BuildInit(n, c, sender, priv, ephPriv, n.pubOf(serverPriv), stamp, mac2).Some?
    ensures var m := BuildInit(n, c, sender, priv, ephPriv, n.pubOf(serverPriv), stamp, mac2).value;
      |m| == 148 && Type(m) == INIT && SenderIndex(m) == Le32(sender) && MacValid(c, m, n.pubOf(serverPriv))
  {
    IdentifiesTheClient(n, c, sender, priv, ephPriv, serverPriv, stamp, mac2);
    var m := BuildInit(n, c, sender, priv, ephPriv, n.pubOf(serverPriv), stamp, mac2).value;
    assert m[4..8] == sender;
    hide BuildInit, ClientPubFromInit, ComputeMac1, MacValid;
    assert m[4..] == sender + m[8..];
    IndexReads(sender, m[8..]);
  }

  lemma ReceiverAtFour(t: Word, receiver: Bytes, rest: Bytes)
    requires (t == COOKIE || t == TRANSPORT) && |receiver| == 4
    ensures var m := PutLe32(t) + receiver + rest; Type(m) == t && HasReceiver(m) && ReceiverIndex(m) == Le32(receiver)
  {
    var m := PutLe32(t) + receiver + rest;
    assert m[4..] == receiver + rest && m == PutLe32(t) + m[4..];
    TypeReads(t, m);
    IndexReads(receiver, rest);
  }

  /**
   Identification looks at bytes 8..88 only, which a trip through the two proxies leaves alone: it
   gives the same answer on the deobfuscated packet.
   */
  lemma IdentificationSurvivesTransport(n: Noise, c: Crypto, p: Params, m: Bytes, k: Key, k': Key, junk: Bytes,
      serverPriv: Key, serverPub: Key)
    requires |m| >= 4 && Type(m) == INIT && |junk| == p.s1
    requires !Collision(p, INIT, p.Obfuscated(c, m, k, junk))
    ensures var r := p.Deobfuscated(c, p.Obfuscated(c, m, k, junk), k');
      r.Some? && ClientPubFromInit(n, r.value.0, serverPriv, serverPub)
          == ClientPubFromInit(n, m, serverPriv, serverPub)
  {
    RoundTripIffNoCollision(p, c, m, junk, k, k');
    var plain := Stamped(c, INIT, m, k');
    if |m| >= 88 {
      assert plain[8..40] == m[8..40] && plain[40..88] == m[40..88];
    }
  }
}
