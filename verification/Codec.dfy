/**
 The binary MikroTik API framing (internal/router/binapi/codec.go): a variable-length
 prefix code for word lengths, words, and sentences closed by the empty word.

 `EncodeLength` and `DecodeLength` state the code arithmetically; the methods compute it with
 the source's masks, shifts and or-s.
 */
module Codec {
  import opened Bits
  import opened Sequences

  datatype Error = Truncated | BadLength(b: Byte)
  datatype Result<+T> = Ok(value: T) | Err(error: Error)

  const LENGTH_LIMIT: nat := 0x1_0000_0000

  // ----- lengths ---------------------------------------------------------

  function EncodeLength(n: nat): (s: Bytes)
    ensures 1 <= |s| <= 5
  {
    var n8 := n / 0x100;
    var n16 := n8 / 0x100;
    var n24 := n16 / 0x100;
    if n < 0x80 then [n]
    else if n < 0x4000 then [0x80 + n8, n % 0x100]
    else if n < 0x20_0000 then [0xC0 + n16, n8 % 0x100, n % 0x100]
    else if n < 0x1000_0000 then [0xE0 + n24, n16 % 0x100, n8 % 0x100, n % 0x100]
    else [0xF0, n24 % 0x100, n16 % 0x100, n8 % 0x100, n % 0x100]
  }

  /** Number of bytes after the first one, by the first byte; 0xF1..0xFF are refused. */
  function TailSize(b: Byte): nat
    requires b <= 0xF0
  {
    if b < 0x80 then 0 else if b < 0xC0 then 1 else if b < 0xE0 then 2 else if b < 0xF0 then 3 else 4
  }

  function BigEndian(hi: nat, tail: Bytes): nat
    decreases |tail|
  {
    if tail == [] then hi else BigEndian(hi, tail[..|tail| - 1]) * 0x100 + tail[|tail| - 1]
  }

  /** The first byte without its tag bits. */
  function Untagged(b: Byte): nat
    requires b <= 0xF0
  {
    if b < 0x80 then b else if b < 0xC0 then b - 0x80 else if b < 0xE0 then b - 0xC0
    else if b < 0xF0 then b - 0xE0 else 0
  }

  function DecodeLength(s: Bytes): (r: Result<(nat, Bytes)>)
    ensures r.Ok? ==> |r.value.1| < |s|
  {
    if s == [] then Err(Truncated)
    else if s[0] > 0xF0 then Err(BadLength(s[0]))
    else if |s| <= TailSize(s[0]) then Err(Truncated)
    else
      var k := 1 + TailSize(s[0]);
      Ok((BigEndian(Untagged(s[0]), s[1..k]), s[k..]))
  }

  lemma BigEndianUpTo4(hi: nat, s: Bytes)
    requires |s| <= 4
    ensures |s| == 0 ==> BigEndian(hi, s) == hi
    ensures |s| == 1 ==> BigEndian(hi, s) == hi * 0x100 + s[0]
    ensures |s| == 2 ==> BigEndian(hi, s) == (hi * 0x100 + s[0]) * 0x100 + s[1]
    ensures |s| == 3 ==> BigEndian(hi, s) == ((hi * 0x100 + s[0]) * 0x100 + s[1]) * 0x100 + s[2]
    ensures |s| == 4 ==>
              BigEndian(hi, s) == (((hi * 0x100 + s[0]) * 0x100 + s[1]) * 0x100 + s[2]) * 0x100 + s[3]
  {
    if s == [] {
    } else {
      BigEndianUpTo4(hi, s[..|s| - 1]);
    }
  }

  /** Every length below 2^32, and no other, survives the wire. */
  lemma LengthRoundTrip(n: nat, rest: Bytes)
    ensures DecodeLength(EncodeLength(n) + rest) == Ok((n, rest)) <==> n < LENGTH_LIMIT
  {
    hide BigEndian;
    var e := EncodeLength(n);
    var s := e + rest;
    assert s[1..|e|] == e[1..];
    assert s[|e|..] == rest;
    BigEndianUpTo4(Untagged(e[0]), e[1..]);
  }

  /** The encoder picks the shortest of all encodings the decoder accepts. */
  lemma ShortestForm(s: Bytes)
    requires DecodeLength(s).Ok?
    ensures var (n, rest) := DecodeLength(s).value;
      n < LENGTH_LIMIT && |EncodeLength(n)| <= |s| - |rest| && rest == s[|s| - |rest|..]
  {
    hide BigEndian;
    BigEndianUpTo4(Untagged(s[0]), s[1..1 + TailSize(s[0])]);
  }

  /** What was decoded stays decoded when more bytes arrive. */
  lemma DecodeLengthExtends(s: Bytes, t: Bytes)
    requires DecodeLength(s).Ok?
    ensures DecodeLength(s + t) == Ok((DecodeLength(s).value.0, DecodeLength(s).value.1 + t))
  {
    var k := 1 + TailSize(s[0]);
    assert (s + t)[1..k] == s[1..k];
    assert (s + t)[k..] == s[k..] + t;
  }

  // ----- words and sentences ------------------------------------------------

  function EncodeWord(w: Bytes): Bytes { EncodeLength(|w|) + w }

  function DecodeWord(s: Bytes): (r: Result<(Bytes, Bytes)>)
    ensures r.Ok? ==> |r.value.1| < |s|
  {
    match DecodeLength(s)
    case Err(e) => Err(e)
    case Ok((n, rest)) => if |rest| < n then Err(Truncated) else Ok((rest[..n], rest[n..]))
  }

  function EncodeSentence(words: seq<Bytes>): Bytes
  {
    if words == [] then EncodeLength(0) else EncodeWord(words[0]) + EncodeSentence(words[1..])
  }

  function DecodeSentence(s: Bytes): (r: Result<(seq<Bytes>, Bytes)>)
    ensures r.Ok? ==> |r.value.1| < |s|
    decreases |s|
  {
    match DecodeWord(s)
    case Err(e) => Err(e)
    case Ok((w, rest)) =>
      if w == [] then Ok(([], rest)) else
      match DecodeSentence(rest)
      case Err(e) => Err(e)
      case Ok((ws, last)) => Ok(([w] + ws, last))
  }

  /** A word that can be part of a sentence: non-empty, with a representable length. */
  predicate Sendable(w: Bytes) { 0 < |w| < LENGTH_LIMIT }

  predicate AllSendable(ws: seq<Bytes>) { forall i :: 0 <= i < |ws| ==> Sendable(ws[i]) }

  lemma DecodeWordExtends(s: Bytes, t: Bytes)
    requires DecodeWord(s).Ok?
    ensures DecodeWord(s + t) == Ok((DecodeWord(s).value.0, DecodeWord(s).value.1 + t))
  {
    DecodeLengthExtends(s, t);
    var (n, rest) := DecodeLength(s).value;
    assert (rest + t)[..n] == rest[..n];
    assert (rest + t)[n..] == rest[n..] + t;
  }

  lemma {:induction false} DecodeSentenceExtends(s: Bytes, t: Bytes)
    requires DecodeSentence(s).Ok?
    ensures DecodeSentence(s + t) == Ok((DecodeSentence(s).value.0, DecodeSentence(s).value.1 + t))
    decreases |s|
  {
    DecodeWordExtends(s, t);
    var (w, rest) := DecodeWord(s).value;
    if w == [] {
    } else {
      DecodeSentenceExtends(rest, t);
    }
  }

  /** What the decoder does with the encoding of a word of any length. */
  lemma DecodeEncodedWord(w: Bytes, rest: Bytes)
    ensures |w| < LENGTH_LIMIT ==> DecodeWord(EncodeWord(w) + rest) == Ok((w, rest))
    ensures |w| >= LENGTH_LIMIT && DecodeWord(EncodeWord(w) + rest).Ok?
            ==> |DecodeWord(EncodeWord(w) + rest).value.0| < |w|
  {
    LengthRoundTrip(|w|, w + rest);
    assert EncodeWord(w) + rest == EncodeLength(|w|) + (w + rest);
    if |w| < LENGTH_LIMIT {
      assert (w + rest)[..|w|] == w && (w + rest)[|w|..] == rest;
    } else if DecodeLength(EncodeWord(w) + rest).Ok? {
      ShortestForm(EncodeWord(w) + rest);
    }
  }

  /** A sentence survives the wire, whatever follows it, exactly when all its words are sendable. */
  lemma {:induction false} SentenceRoundTrip(ws: seq<Bytes>, rest: Bytes)
    ensures DecodeSentence(EncodeSentence(ws) + rest) == Ok((ws, rest)) <==> AllSendable(ws)
  {
    hide EncodeLength, DecodeWord;
    var s := EncodeSentence(ws) + rest;
    if ws == [] {
      DecodeEncodedWord([], rest);
      assert EncodeWord([]) == EncodeLength(0);
    } else {
      var more := EncodeSentence(ws[1..]) + rest;
      assert s == EncodeWord(ws[0]) + more;
      DecodeEncodedWord(ws[0], more);
      SentenceRoundTrip(ws[1..], rest);
      if Sendable(ws[0]) {
        assert ws == [ws[0]] + ws[1..];
        assert AllSendable(ws) <==> AllSendable(ws[1..]);
      } else if DecodeSentence(s).Ok? {
        var got := DecodeSentence(s).value.0;
        assert got == [] || |got[0]| < |ws[0]|;
      }
    }
  }

  // ----- streams of sentences -----------------------------------------------

  function EncodeStream(ss: seq<seq<Bytes>>): Bytes
  {
    if ss == [] then [] else EncodeSentence(ss[0]) + EncodeStream(ss[1..])
  }

  function DecodeStream(count: nat, s: Bytes): Result<(seq<seq<Bytes>>, Bytes)>
  {
    if count == 0 then Ok(([], s)) else
    match DecodeSentence(s)
    case Err(e) => Err(e)
    case Ok((ws, rest)) =>
      match DecodeStream(count - 1, rest)
      case Err(e) => Err(e)
      case Ok((more, last)) => Ok(([ws] + more, last))
  }

  predicate StreamSendable(ss: seq<seq<Bytes>>) { forall i :: 0 <= i < |ss| ==> AllSendable(ss[i]) }

  /** Decoding a stream recovers its sentences and leaves the following bytes untouched. */
  lemma {:induction false} StreamRoundTrip(ss: seq<seq<Bytes>>, rest: Bytes)
    requires StreamSendable(ss)
    ensures DecodeStream(|ss|, EncodeStream(ss) + rest) == Ok((ss, rest))
  {
    hide DecodeSentence, EncodeSentence, AllSendable;
    if ss == [] {
      assert EncodeStream(ss) + rest == rest;
    } else {
      var tail := ss[1..];
      var more := EncodeStream(tail) + rest;
      assert EncodeStream(ss) + rest == EncodeSentence(ss[0]) + more;
      SentenceRoundTrip(ss[0], more);
      StreamRoundTrip(tail, rest);
      assert DecodeStream(|ss| - 1, more) == Ok((tail, rest));
      assert ss == [ss[0]] + tail;
    }
  }

  lemma {:induction false} StreamSplit(ss: seq<seq<Bytes>>, k: nat)
    requires k <= |ss|
    ensures EncodeStream(ss) == EncodeStream(ss[..k]) + EncodeStream(ss[k..])
  {
    hide EncodeSentence;
    if k == 0 {
      assert ss[0..] == ss && ss[..0] == [];
    } else {
      var h, t := ss[0], ss[1..];
      StreamSplit(t, k - 1);
      ConsSplit(h, t, k);
      assert ss == [h] + t;
      StreamCons(h, t);
      StreamCons(h, t[..k - 1]);
      hide EncodeStream;
      Assoc(EncodeSentence(h), EncodeStream(t[..k - 1]), EncodeStream(t[k - 1..]));
    }
  }

  lemma StreamCons(h: seq<Bytes>, t: seq<seq<Bytes>>)
    ensures EncodeStream([h] + t) == EncodeSentence(h) + EncodeStream(t)
  {
    assert ([h] + t)[0] == h && ([h] + t)[1..] == t;
  }

  /**
   Framing is uniquely decodable, whatever the number of sentences: of two streams with the same
   bytes the shorter list is the beginning of the longer one, and what follows it is the rest of that.
   */
  lemma UniquelyDecodable(a: seq<seq<Bytes>>, b: seq<seq<Bytes>>, restA: Bytes, restB: Bytes)
    requires StreamSendable(a) && StreamSendable(b) && |a| <= |b|
    requires EncodeStream(a) + restA == EncodeStream(b) + restB
    ensures a == b[..|a|] && restA == EncodeStream(b[|a|..]) + restB
  {
    hide EncodeStream, AllSendable;
    var first, others := b[..|a|], b[|a|..];
    StreamSplit(b, |a|);
    assert EncodeStream(b) + restB == EncodeStream(first) + (EncodeStream(others) + restB);
    StreamRoundTrip(a, restA);
    StreamRoundTrip(first, EncodeStream(others) + restB);
  }

  /** So no two lists of sentences have the same bytes. */
  lemma StreamsAreDistinct(a: seq<seq<Bytes>>, b: seq<seq<Bytes>>)
    requires StreamSendable(a) && StreamSendable(b) && EncodeStream(a) == EncodeStream(b)
    ensures a == b
  {
    if |a| <= |b| {
      NothingFollows(a, b);
    } else {
      NothingFollows(b, a);
    }
  }

  lemma NothingFollows(a: seq<seq<Bytes>>, b: seq<seq<Bytes>>)
    requires StreamSendable(a) && StreamSendable(b) && |a| <= |b| && EncodeStream(a) == EncodeStream(b)
    ensures a == b
  {
    hide AllSendable;
    assert EncodeStream(a) + [] == EncodeStream(a) && EncodeStream(b) + [] == EncodeStream(b);
    UniquelyDecodable(a, b, [], []);
    StreamLength(b[|a|..]);
    assert b[..|b|] == b;
  }

  lemma {:induction false} StreamLength(ss: seq<seq<Bytes>>)
    ensures |EncodeStream(ss)| >= |ss|
  {
    if ss == [] {
    } else {
      StreamLength(ss[1..]);
      assert |EncodeSentence(ss[0])| > 0;
    }
  }

  /** A proper prefix of a sentence never decodes as a sentence: a cut reply is an error, not data. */
  lemma CutSentence(ws: seq<Bytes>, k: nat)
    requires AllSendable(ws) && k <= |EncodeSentence(ws)|
    ensures DecodeSentence(EncodeSentence(ws)[..k]).Ok? <==> k == |EncodeSentence(ws)|
  {
    var s := EncodeSentence(ws);
    assert s[..k] + s[k..] == s;
    assert s + [] == s;
    SentenceRoundTrip(ws, []);
    if DecodeSentence(s[..k]).Ok? {
      DecodeSentenceExtends(s[..k], s[k..]);
    }
    if k == |s| {
      assert s[..k] == s;
    }
  }

  // ----- the code ------------------------------------------------------------

  /** Go's `byte(n)`. */
  function ToByte(n: nat): Byte { n % 0x100 }

  /** `after` is `before` followed by a part of `b`, cut anywhere. */
  ghost predicate Partly(before: Bytes, after: Bytes, b: Bytes)
  {
    exists k :: 0 <= k <= |b| && after == before + b[..k]
  }

  lemma PartlyThen(before: Bytes, after: Bytes, done: Bytes, b: Bytes)
    requires Partly(before + done, after, b)
    ensures Partly(before, after, done + b)
  {
    var k :| 0 <= k <= |b| && after == before + done + b[..k];
    assert (done + b)[..|done| + k] == done + b[..k];
    assert after == before + (done + b)[..|done| + k];
  }

  lemma PartlyMore(before: Bytes, after: Bytes, b: Bytes, more: Bytes)
    requires Partly(before, after, b)
    ensures Partly(before, after, b + more)
  {
    var k :| 0 <= k <= |b| && after == before + b[..k];
    assert (b + more)[..k] == b[..k];
  }

  /** The two directions of a TCP connection as its user sees them. */
  class Transport {
    var accepted: Bytes  // what was written so far
    var unread: Bytes    // what will still arrive before the stream ends or fails
    ghost var failed: bool  // some write has failed

    constructor ()
      ensures accepted == unread == [] && !failed
    {
      accepted, unread, failed := [], [], false;
    }

    /** A write may fail after any part of `b`, even all of it, was accepted. */
    method Write(b: Bytes) returns (ok: bool)
      modifies this`accepted, this`failed
      ensures ok ==> accepted == old(accepted) + b
      ensures Partly(old(accepted), accepted, b)
      ensures failed == (old(failed) || !ok)
    {
      ok := *;
      failed := failed || !ok;
      var k: int := *;
      if ok || k < 0 || k > |b| { k := |b|; }
      accepted := accepted + b[..k];
      assert b[..|b|] == b;
    }

    method ReadByte() returns (r: Result<Byte>)
      modifies this`unread
      ensures old(unread) == [] ==> r == Err(Truncated) && unread == []
      ensures old(unread) != [] ==> r == Ok(old(unread)[0]) && unread == old(unread)[1..]
    {
      if unread == [] { return Err(Truncated); }
      r := Ok(unread[0]);
      unread := unread[1..];
    }

    method ReadFull(n: nat) returns (r: Result<Bytes>)
      modifies this`unread
      ensures |old(unread)| < n ==> r == Err(Truncated)
      ensures |old(unread)| >= n ==> r == Ok(old(unread)[..n]) && unread == old(unread)[n..]
    {
      if |unread| < n {
        unread := [];
        return Err(Truncated);
      }
      r := Ok(unread[..n]);
      unread := unread[n..];
    }
  }

  method WriteLength(w: Transport, n: nat) returns (ok: bool)
    modifies w`accepted, w`failed
    ensures ok ==> w.accepted == old(w.accepted) + EncodeLength(n)
    ensures Partly(old(w.accepted), w.accepted, EncodeLength(n))
    ensures w.failed == (old(w.failed) || !ok)
  {
    hide Or, Shr, Shl, Pow2;
    if n < 0x80 {
      ok := w.Write([ToByte(n)]);
    } else if n < 0x4000 {
      Tagged2(n);
      var m := Or(n, 0x8000);
      ok := w.Write([ToByte(Shr(m, 8)), ToByte(m)]);
    } else if n < 0x20_0000 {
      Tagged3(n);
      var m := Or(n, 0xC0_0000);
      ok := w.Write([ToByte(Shr(m, 16)), ToByte(Shr(m, 8)), ToByte(m)]);
    } else if n < 0x1000_0000 {
      Tagged4(n);
      ShrValues(n);
      ok := w.Write([Or(ToByte(Shr(n, 24)), 0xE0), ToByte(Shr(n, 16)), ToByte(Shr(n, 8)), ToByte(n)]);
    } else {
      ShrValues(n);
      ok := w.Write([0xF0, ToByte(Shr(n, 24)), ToByte(Shr(n, 16)), ToByte(Shr(n, 8)), ToByte(n)]);
    }
  }

  // The tag masks of writeLength lie above the bits of the length.

  lemma Tagged2(n: nat)
    requires n < 0x4000
    ensures ToByte(Shr(Or(n, 0x8000), 8)) == 0x80 + n / 0x100 && ToByte(Or(n, 0x8000)) == n % 0x100
  {
    hide And, Or, Shr, Shl, Pow2;
    assert Shl(2, 14) == 0x8000 by { ShlValues(2); }
    assert Pow2(14) == 0x4000 by { Pow2Values(); }
    OrFields(2, n, 14);
    ShrValues(0x8000 + n);
  }

  lemma Tagged3(n: nat)
    requires n < 0x20_0000
    ensures var m := Or(n, 0xC0_0000);
      ToByte(Shr(m, 16)) == 0xC0 + n / 0x100 / 0x100 && ToByte(Shr(m, 8)) == n / 0x100 % 0x100 && ToByte(m) == n % 0x100
  {
    hide And, Or, Shr, Shl, Pow2;
    assert Shl(6, 21) == 0xC0_0000 by { ShlValues(6); }
    assert Pow2(21) == 0x20_0000 by { Pow2Values(); }
    OrFields(6, n, 21);
    ShrValues(0xC0_0000 + n);
  }

  lemma Tagged4(n: nat)
    requires n < 0x1000_0000
    ensures Or(ToByte(Shr(n, 24)), 0xE0) == 0xE0 + n / 0x100 / 0x100 / 0x100
  {
    hide And, Or, Shr, Shl, Pow2;
    assert Shl(14, 4) == 0xE0 by { ShlValues(14); }
    assert Pow2(4) == 16 by { Pow2Values(); }
    assert Shr(n, 24) == n / 0x100 / 0x100 / 0x100 by { ShrValues(n); }
    OrFields(14, Shr(n, 24), 4);
  }

  lemma OrBelow(hi: nat, lo: nat, k: nat, p: nat)
    requires (k == 8 && p == 0x100) || (k == 16 && p == 0x1_0000) || (k == 24 && p == 0x100_0000)
    requires lo < p
    ensures Shl(hi, k) == hi * p
    ensures Or(Shl(hi, k), lo) == hi * p + lo
  {
    hide Or, Shl, Pow2;
    assert Shl(hi, k) == hi * p by { ShlValues(hi); }
    assert Pow2(k) == p by { Pow2Values(); }
    OrFields(hi, lo, k);
  }

  // Or-ing shifted bytes together reads them as a big-endian number.

  lemma Join2(a: nat, b: Byte)
    ensures Or(Shl(a, 8), b) == BigEndian(a, [b])
  {
    OrBelow(a, b, 8, 0x100);
    BigEndianUpTo4(a, [b]);
  }

  lemma Join3(a: nat, b: Byte, c: Byte)
    ensures Or(Or(Shl(a, 16), Shl(b, 8)), c) == BigEndian(a, [b, c])
  {
    hide Or, Shl, BigEndian;
    var ab := a * 0x100 + b;
    OrBelow(b, 0, 8, 0x100);
    OrBelow(a, Shl(b, 8), 16, 0x1_0000);
    OrBelow(ab, c, 8, 0x100);
    BigEndianUpTo4(a, [b, c]);
  }

  lemma Join4(a: nat, b: Byte, c: Byte, d: Byte)
    ensures Or(Or(Or(Shl(a, 24), Shl(b, 16)), Shl(c, 8)), d) == BigEndian(a, [b, c, d])
  {
    hide Or, Shl, BigEndian;
    var ab := a * 0x100 + b;
    var abc := ab * 0x100 + c;
    OrBelow(b, 0, 16, 0x1_0000);
    OrBelow(c, 0, 8, 0x100);
    OrBelow(a, Shl(b, 16), 24, 0x100_0000);
    OrBelow(ab, Shl(c, 8), 16, 0x1_0000);
    OrBelow(abc, d, 8, 0x100);
    BigEndianUpTo4(a, [b, c, d]);
  }

  lemma FourBytes(a: Byte, b: Byte, c: Byte, d: Byte)
    ensures BigEndian(0, [a, b, c, d]) == BigEndian(a, [b, c, d])
  {
    BigEndianUpTo4(0, [a, b, c, d]);
    BigEndianUpTo4(a, [b, c, d]);
  }

  /** The masks of readLength test ranges of the first byte and cut off its tag bits. */
  lemma MasksAreRanges(b: Byte)
    ensures And(b, 0x80) == 0 <==> b < 0x80
    ensures And(b, 0xC0) == 0x80 <==> 0x80 <= b < 0xC0
    ensures And(b, 0xE0) == 0xC0 <==> 0xC0 <= b < 0xE0
    ensures And(b, 0xF0) == 0xE0 <==> 0xE0 <= b < 0xF0
    ensures 0x80 <= b < 0xC0 ==> And(b, 0x3F) == Untagged(b)
    ensures 0xC0 <= b < 0xE0 ==> And(b, 0x1F) == Untagged(b)
    ensures 0xE0 <= b < 0xF0 ==> And(b, 0x0F) == Untagged(b)
  {
    hide And;
    Mask(b, 7, 128, 1);
    Mask(b, 6, 64, 3);
    Mask(b, 5, 32, 7);
    Mask(b, 4, 16, 15);
  }

  /** Of a byte, the mask of the low k bits keeps the remainder by 2^k, its complement the rest. */
  lemma Mask(b: Byte, k: nat, p: nat, m: nat)
    requires (k == 7 && p == 128 && m == 1) || (k == 6 && p == 64 && m == 3)
             || (k == 5 && p == 32 && m == 7) || (k == 4 && p == 16 && m == 15)
    ensures And(b, p - 1) == b % p
    ensures And(b, m * p) == b - b % p
  {
    hide And, Or, Shr, Shl, Pow2;
    var h := Shr(b, k);
    assert Pow2(k) == p && Pow2(8 - k) == m + 1 by { Pow2Values(); }
    assert h == b / p by { ShrValues(b); }
    assert Shl(h, k) == h * p by { ShlValues(h); }
    assert Shl(m, k) == m * p by { ShlValues(m); }
    AndLow(b, k);
    AndHigh(b, m, k);
    AndLow(h, 8 - k);
    ShlAtLeast(Shr(h, 8 - k), 8 - k);
  }

  lemma ShlAtLeast(a: nat, k: nat)
    ensures if a == 0 then Shl(a, k) == 0 else Shl(a, k) >= Pow2(k)
  {
  }

  method ReadLength(r: Transport) returns (res: Result<nat>)
    modifies r`unread
    ensures match DecodeLength(old(r.unread))
            case Ok((n, rest)) => res == Ok(n) && r.unread == rest
            case Err(e) => res == Err(e)
  {
    hide And, Or, Shl;
    var b := r.ReadByte();
    if b.Err? { return Err(b.error); }
    MasksAreRanges(b.value);
    if And(b.value, 0x80) == 0 {
      return Ok(b.value);
    } else if And(b.value, 0xC0) == 0x80 {
      var b2 := r.ReadByte();
      if b2.Err? { return Err(b2.error); }
      Join2(And(b.value, 0x3F), b2.value);
      assert old(r.unread)[1..2] == [b2.value];
      return Ok(Or(Shl(And(b.value, 0x3F), 8), b2.value));
    } else if And(b.value, 0xE0) == 0xC0 {
      var buf := r.ReadFull(2);
      if buf.Err? { return Err(buf.error); }
      Join3(And(b.value, 0x1F), buf.value[0], buf.value[1]);
      assert old(r.unread)[1..3] == buf.value == [buf.value[0], buf.value[1]];
      return Ok(Or(Or(Shl(And(b.value, 0x1F), 16), Shl(buf.value[0], 8)), buf.value[1]));
    } else if And(b.value, 0xF0) == 0xE0 {
      var buf := r.ReadFull(3);
      if buf.Err? { return Err(buf.error); }
      Join4(And(b.value, 0x0F), buf.value[0], buf.value[1], buf.value[2]);
      assert old(r.unread)[1..4] == buf.value == [buf.value[0], buf.value[1], buf.value[2]];
      return Ok(Or(Or(Or(Shl(And(b.value, 0x0F), 24), Shl(buf.value[0], 16)), Shl(buf.value[1], 8)), buf.value[2]));
    } else if b.value == 0xF0 {
      var buf := r.ReadFull(4);
      if buf.Err? { return Err(buf.error); }
      Join4(buf.value[0], buf.value[1], buf.value[2], buf.value[3]);
      FourBytes(buf.value[0], buf.value[1], buf.value[2], buf.value[3]);
      assert old(r.unread)[1..5] == buf.value == [buf.value[0], buf.value[1], buf.value[2], buf.value[3]];
      return Ok(Or(Or(Or(Shl(buf.value[0], 24), Shl(buf.value[1], 16)), Shl(buf.value[2], 8)), buf.value[3]));
    } else {
      return Err(BadLength(b.value));
    }
  }

  method WriteWord(w: Transport, s: Bytes) returns (ok: bool)
    modifies w`accepted, w`failed
    ensures ok ==> w.accepted == old(w.accepted) + EncodeWord(s)
    ensures Partly(old(w.accepted), w.accepted, EncodeWord(s))
    ensures w.failed == (old(w.failed) || !ok)
  {
    ok := WriteLength(w, |s|);
    if !ok {
      PartlyMore(old(w.accepted), w.accepted, EncodeLength(|s|), s);
      return;
    }
    ok := w.Write(s);
    PartlyThen(old(w.accepted), w.accepted, EncodeLength(|s|), s);
  }

  method ReadWord(r: Transport) returns (res: Result<Bytes>)
    modifies r`unread
    ensures match DecodeWord(old(r.unread))
            case Ok((w, rest)) => res == Ok(w) && r.unread == rest
            case Err(e) => res == Err(e)
  {
    var n := ReadLength(r);
    if n.Err? { return Err(n.error); }
    if n.value == 0 { return Ok([]); }
    res := r.ReadFull(n.value);
  }
}
