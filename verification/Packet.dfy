/** Message types, indices and the MAC1 field of WireGuard packets (internal/wg/message.go). */
module Packets {
  import opened Wrappers
  import opened Bits

  type Word = x: int | 0 <= x < 0x1_0000_0000
  type Key = s: Bytes | |s| == 32 witness seq(32, _ => 0)
  type Mac = s: Bytes | |s| == 16 witness seq(16, _ => 0)

  const INIT: Word := 1
  const RESPONSE: Word := 2
  const COOKIE: Word := 3
  const TRANSPORT: Word := 4

  const MAC_SIZE: nat := 16

  /** Little-endian value of the first four bytes. */
  function Le32(s: Bytes): Word
    requires |s| >= 4
  {
    var (a, b, c, d) := (s[0] as int, s[1] as int, s[2] as int, s[3] as int);
    a + 0x100 * b + 0x1_0000 * c + 0x100_0000 * d
  }

  function PutLe32(w: Word): (s: Bytes)
    ensures |s| == 4
  {
    [w % 0x100, w / 0x100 % 0x100, w / 0x1_0000 % 0x100, w / 0x100_0000]
  }

  lemma Le32RoundTrip(w: Word, rest: Bytes)
    ensures Le32(PutLe32(w) + rest) == w
  {
    var a, b := w / 0x100, w / 0x1_0000;
    assert a / 0x100 == b && b / 0x100 == w / 0x100_0000;
  }

  lemma Le32Unique(s: Bytes)
    requires |s| >= 4
    ensures PutLe32(Le32(s)) == s[..4]
  {
    BytesOf(s[0], s[1], s[2], s[3]);
  }

  lemma BytesOf(a: Byte, b: Byte, c: Byte, d: Byte)
    ensures var w := a + 0x100 * b + 0x1_0000 * c + 0x100_0000 * d;
      w % 0x100 == a && w / 0x100 % 0x100 == b && w / 0x1_0000 % 0x100 == c && w / 0x100_0000 == d
  {
    var w := a + 0x100 * b + 0x1_0000 * c + 0x100_0000 * d;
    assert w / 0x100 == b + 0x100 * c + 0x1_0000 * d;
    assert w / 0x1_0000 == c + 0x100 * d;
  }

  function Type(pkt: Bytes): Word { if |pkt| < 4 then 0 else Le32(pkt) }

  function WithType(pkt: Bytes, t: Word): (out: Bytes)
    requires |pkt| >= 4
    ensures |out| == |pkt| && Type(out) == t && out[4..] == pkt[4..]
  {
    Le32RoundTrip(t, pkt[4..]);
    PutLe32(t) + pkt[4..]
  }

  function SenderIndex(pkt: Bytes): Word
    requires |pkt| >= 8
  {
    Le32(pkt[4..])
  }

  /** Bytes that ReceiverIndex reads without checking the length. */
  predicate HasReceiver(pkt: Bytes)
  {
    && (Type(pkt) == RESPONSE ==> |pkt| >= 12)
    && (Type(pkt) == COOKIE || Type(pkt) == TRANSPORT ==> |pkt| >= 8)
  }

  function ReceiverIndex(pkt: Bytes): Word
    requires HasReceiver(pkt)
  {
    if Type(pkt) == RESPONSE then Le32(pkt[8..])
    else if Type(pkt) == COOKIE || Type(pkt) == TRANSPORT then Le32(pkt[4..])
    else 0
  }

  /** Offset of MAC1, for the messages that have one. */
  function Mac1Offset(t: Word): Option<nat>
  {
    if t == INIT then Some(116) else if t == RESPONSE then Some(60) else None
  }

  /** The message is of a type with MAC1 and long enough to hold it. */
  predicate HasMac1(t: Word, len: nat) { Mac1Offset(t).Some? && len >= Mac1Offset(t).value + MAC_SIZE }

  /** SetType, in place, on the packet that starts at `off`. */
  method SetType(pkt: array<Byte>, off: nat, t: Word)
    requires off + 4 <= pkt.Length
    modifies pkt
    ensures pkt[..] == old(pkt[..off]) + PutLe32(t) + old(pkt[off + 4..])
  {
    var b := PutLe32(t);
    pkt[off], pkt[off + 1], pkt[off + 2], pkt[off + 3] := b[0], b[1], b[2], b[3];
  }
}
