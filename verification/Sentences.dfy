/**
 Sentences of key/value words (internal/router/binapi/conn.go, kvWords of client.go).
 */
module Sentences {
  import opened Bits
  import opened Codec

  /** A received sentence: its first word and the pairs of its `=key=value` words. */
  datatype Sentence = Sentence(reply: Bytes, words: map<Bytes, Bytes>)

  const EQ: Byte := 61  // '='

  function FirstIndex(s: Bytes, b: Byte): (i: int)
    ensures i == -1 ==> b !in s
    ensures i != -1 ==> 0 <= i < |s| && s[i] == b && forall j :: 0 <= j < i ==> s[j] != b
  {
    if s == [] then -1
    else if s[0] == b then 0
    else
      var i := FirstIndex(s[1..], b);
      if i == -1 then -1 else i + 1
  }

  function AddPair(m: map<Bytes, Bytes>, w: Bytes): map<Bytes, Bytes>
  {
    if |w| > 1 && w[0] == EQ then m[PairOf(w).0 := PairOf(w).1] else m
  }

  /** A `=key=value` word ends its key at the first '=', and without one it is all key. */
  function PairOf(w: Bytes): (Bytes, Bytes)
    requires w != []
  {
    var rest := w[1..];
    var eq := FirstIndex(rest, EQ);
    if eq < 0 then (rest, []) else (rest[..eq], rest[eq + 1..])
  }

  function Pairs(words: seq<Bytes>): map<Bytes, Bytes>
  {
    if words == [] then map[] else AddPair(Pairs(words[..|words| - 1]), words[|words| - 1])
  }

  function Interpret(words: seq<Bytes>): Sentence
  {
    if words == [] then Sentence([], map[]) else Sentence(words[0], Pairs(words[1..]))
  }

  // ----- key/value words ------------------------------------------------------

  function KvWord(k: Bytes, v: Bytes): Bytes { [EQ] + k + [EQ] + v }

  function KvList(kv: map<Bytes, Bytes>, order: seq<Bytes>): (ws: seq<Bytes>)
    requires forall k :: k in order ==> k in kv
    ensures |ws| == |order|
  {
    if order == [] then []
    else KvList(kv, order[..|order| - 1]) + [KvWord(order[|order| - 1], kv[order[|order| - 1]])]
  }

  /** `order` lists every key once: one of the orders in which Go may iterate over the map. */
  ghost predicate Ordering(order: seq<Bytes>, keys: set<Bytes>)
  {
    && (forall k :: k in order <==> k in keys)
    && (forall i, j :: 0 <= i < j < |order| ==> order[i] != order[j])
  }

  lemma AddKvWord(m: map<Bytes, Bytes>, k: Bytes, v: Bytes)
    requires EQ !in k
    ensures AddPair(m, KvWord(k, v)) == m[k := v]
  {
    var w := KvWord(k, v);
    var rest := k + ([EQ] + v);
    assert w[1..] == rest;
    var eq := FirstIndex(rest, EQ);
    assert rest[|k|] == EQ;
    assert forall i :: 0 <= i < |k| ==> rest[i] == k[i] && rest[i] != EQ;
    assert rest[..eq] == k && rest[eq + 1..] == v;
  }

  lemma {:induction false} KeysHaveNoEquals(words: seq<Bytes>)
    ensures forall k :: k in Pairs(words) ==> EQ !in k
  {
    if words == [] {
    } else {
      KeysHaveNoEquals(words[..|words| - 1]);
    }
  }

  lemma {:induction false} KvPairs(kv: map<Bytes, Bytes>, order: seq<Bytes>)
    requires forall k :: k in order ==> k in kv && EQ !in k
    ensures forall k :: k in Pairs(KvList(kv, order)) <==> k in order
    ensures forall k :: k in order ==> Pairs(KvList(kv, order))[k] == kv[k]
  {
    assert Pairs([]) == map[];
    hide AddPair, Pairs, KvWord;
    if order == [] {
    } else {
      var init, k := order[..|order| - 1], order[|order| - 1];
      assert order == init + [k];
      KvPairs(kv, init);
      PairsAppend(KvList(kv, init), KvWord(k, kv[k]));
      AddKvWord(Pairs(KvList(kv, init)), k, kv[k]);
    }
  }

  /**
   The words of a map, in whatever order the map is iterated, parse back to that map exactly
   when no key contains '='. Values may contain '=' and keys and values may be empty.
   */
  lemma KvRoundTrip(kv: map<Bytes, Bytes>, order: seq<Bytes>)
    requires Ordering(order, kv.Keys)
    ensures Pairs(KvList(kv, order)) == kv <==> forall k :: k in kv ==> EQ !in k
  {
    hide Pairs, KvList;
    KeysHaveNoEquals(KvList(kv, order));
    if forall k :: k in kv ==> EQ !in k {
      KvPairs(kv, order);
    }
  }

  // ----- the order of the words ---------------------------------------------

  function WordOf(kv: map<Bytes, Bytes>, k: Bytes): Bytes
    requires k in kv
  {
    KvWord(k, kv[k])
  }

  /** Go's order on strings. */
  predicate AtMost(a: Bytes, b: Bytes)
  {
    a == [] || (b != [] && (a[0] < b[0] || (a[0] == b[0] && AtMost(a[1..], b[1..]))))
  }

  ghost predicate Sorted(ws: seq<Bytes>) { forall i, j :: 0 <= i < j < |ws| ==> AtMost(ws[i], ws[j]) }

  ghost predicate AlwaysSorted(kv: map<Bytes, Bytes>)
  {
    forall order :: Ordering(order, kv.Keys) ==> Sorted(KvList(kv, order))
  }

  lemma {:induction false} AtMostOrders(a: Bytes, b: Bytes)
    ensures AtMost(a, a)
    ensures AtMost(a, b) && AtMost(b, a) ==> a == b
  {
    if a == [] {
    } else {
      AtMostOrders(a[1..], if b == [] then b else b[1..]);
      assert b != [] ==> a == [a[0]] + a[1..] && b == [b[0]] + b[1..];
    }
  }

  lemma {:induction false} KvListAt(kv: map<Bytes, Bytes>, order: seq<Bytes>)
    requires forall k :: k in order ==> k in kv
    ensures forall i :: 0 <= i < |order| ==> KvList(kv, order)[i] == WordOf(kv, order[i])
  {
    if order == [] {
    } else {
      KvListAt(kv, order[..|order| - 1]);
    }
  }

  lemma {:induction false} OrderingExists(keys: set<Bytes>) returns (order: seq<Bytes>)
    ensures Ordering(order, keys)
  {
    if keys == {} {
      order := [];
    } else {
      var k :| k in keys;
      order := OrderingExists(keys - {k});
      order := order + [k];
    }
  }

  /** Go may come across any two keys in either order. */
  lemma OrderingWith(keys: set<Bytes>, k: Bytes, l: Bytes) returns (order: seq<Bytes>)
    requires k in keys && l in keys && k != l
    ensures Ordering(order, keys) && order[|order| - 2..] == [k, l]
  {
    order := OrderingExists(keys - {k, l});
    order := order + [k, l];
  }

  /** The words of a map come out sorted whatever the iteration order exactly when they are all the same word. */
  lemma AlwaysSortedIff(kv: map<Bytes, Bytes>)
    ensures AlwaysSorted(kv) <==> forall k, l :: k in kv && l in kv ==> WordOf(kv, k) == WordOf(kv, l)
  {
    hide AtMost, KvWord, KvList;
    if AlwaysSorted(kv) {
      forall k, l | k in kv && l in kv ensures WordOf(kv, k) == WordOf(kv, l) {
        if k != l {
          LaterIsGreater(kv, k, l);
          LaterIsGreater(kv, l, k);
          AtMostOrders(WordOf(kv, k), WordOf(kv, l));
        }
      }
    }
    if forall k, l :: k in kv && l in kv ==> WordOf(kv, k) == WordOf(kv, l) {
      forall order | Ordering(order, kv.Keys) ensures Sorted(KvList(kv, order)) {
        KvListAt(kv, order);
        forall i | 0 <= i < |order| ensures AtMost(WordOf(kv, order[i]), WordOf(kv, order[i])) {
          AtMostOrders(WordOf(kv, order[i]), []);
        }
      }
    }
  }

  lemma LaterIsGreater(kv: map<Bytes, Bytes>, k: Bytes, l: Bytes)
    requires AlwaysSorted(kv) && k in kv && l in kv && k != l
    ensures AtMost(WordOf(kv, k), WordOf(kv, l))
  {
    var order := OrderingWith(kv.Keys, k, l);
    var n := |order|;
    assert order[n - 2] == order[n - 2..][0] && order[n - 1] == order[n - 2..][1];
    KvListAt(kv, order);
    assert Sorted(KvList(kv, order));
  }

  /** For the fields of a command, whose keys have no '=', that is: when there is at most one. */
  lemma SortedOnlyIfSingle(kv: map<Bytes, Bytes>)
    requires forall k :: k in kv ==> EQ !in k
    ensures AlwaysSorted(kv) <==> |kv| <= 1
  {
    AlwaysSortedIff(kv);
    hide AlwaysSorted;
    assert |kv| == |kv.Keys|;
    forall k, l | k in kv && l in kv && WordOf(kv, k) == WordOf(kv, l) ensures k == l {
      AddKvWord(map[], k, kv[k]);
      AddKvWord(map[], l, kv[l]);
      assert map[][k := kv[k]] == map[][l := kv[l]];
      assert k in map[][l := kv[l]];
    }
    if |kv| > 1 {
      var k :| k in kv;
      assert kv.Keys != {k};
      var l :| l in kv && l != k;
    } else {
      forall k, l | k in kv && l in kv ensures k == l {
        assert {k, l} <= kv.Keys;
        SubsetSize({k, l}, kv.Keys);
      }
    }
  }

  lemma SubsetSize<T>(a: set<T>, b: set<T>)
    requires a <= b
    ensures |a| <= |b|
  {
    assert b == a + (b - a);
  }

  /** kvWords need not sort: these two fields may come out in descending order. */
  lemma KvWordsUnsorted()
    ensures var kv: map<Bytes, Bytes> := map[[97] := [], [98] := []];
      Ordering([[98], [97]], kv.Keys) && !Sorted(KvList(kv, [[98], [97]]))
  {
    var kv: map<Bytes, Bytes> := map[[97] := [], [98] := []];
    KvListAt(kv, [[98], [97]]);
    assert !AtMost(WordOf(kv, [98]), WordOf(kv, [97]));
  }

  /** What the word of key `k` is read as. */
  function Parsed(kv: map<Bytes, Bytes>, k: Bytes): (Bytes, Bytes)
    requires k in kv
  {
    PairOf(WordOf(kv, k))
  }

  /** Two words that name the same key give it the same value. */
  ghost predicate Consistent(kv: map<Bytes, Bytes>)
  {
    forall k, l :: k in kv && l in kv && Parsed(kv, k).0 == Parsed(kv, l).0
      ==> Parsed(kv, k).1 == Parsed(kv, l).1
  }

  ghost predicate OrderIndependent(kv: map<Bytes, Bytes>)
  {
    forall a, b :: Ordering(a, kv.Keys) && Ordering(b, kv.Keys) ==> Pairs(KvList(kv, a)) == Pairs(KvList(kv, b))
  }

  /** When the iteration order makes no difference to what is read. */
  lemma OrderIndependentIff(kv: map<Bytes, Bytes>)
    ensures OrderIndependent(kv) <==> Consistent(kv)
  {
    hide Parsed, Pairs, KvList;
    if Consistent(kv) {
      forall a, b | Ordering(a, kv.Keys) && Ordering(b, kv.Keys)
        ensures Pairs(KvList(kv, a)) == Pairs(KvList(kv, b))
      {
        ConsistentPairs(kv, a);
        ConsistentPairs(kv, b);
        SamePairs(kv, a, b, Pairs(KvList(kv, a)), Pairs(KvList(kv, b)));
      }
    }
    if OrderIndependent(kv) {
      forall k, l | k in kv && l in kv && Parsed(kv, k).0 == Parsed(kv, l).0
        ensures Parsed(kv, k).1 == Parsed(kv, l).1
      {
        if k != l {
          var a := OrderingWith(kv.Keys, k, l);
          var b := OrderingWith(kv.Keys, l, k);
          LastWins(kv, a);
          LastWins(kv, b);
          assert a[|a| - 1] == a[|a| - 2..][1] && b[|b| - 1] == b[|b| - 2..][1];
        }
      }
    }
  }

  /** The last word decides the value of its key. */
  lemma LastWins(kv: map<Bytes, Bytes>, order: seq<Bytes>)
    requires order != [] && forall k :: k in order ==> k in kv
    ensures var (key, value) := Parsed(kv, order[|order| - 1]);
      key in Pairs(KvList(kv, order)) && Pairs(KvList(kv, order))[key] == value
  {
    var init, k := order[..|order| - 1], order[|order| - 1];
    PairsAppend(KvList(kv, init), WordOf(kv, k));
  }

  /** What the words of `order` are read as when they do not contradict each other. */
  ghost predicate ReadAs(kv: map<Bytes, Bytes>, order: seq<Bytes>, m: map<Bytes, Bytes>)
    requires forall k :: k in order ==> k in kv
  {
    && (forall k :: k in order ==> Parsed(kv, k).0 in m && m[Parsed(kv, k).0] == Parsed(kv, k).1)
    && (forall x :: x in m ==> exists k :: k in order && Parsed(kv, k).0 == x)
  }

  lemma {:induction false} ConsistentPairs(kv: map<Bytes, Bytes>, order: seq<Bytes>)
    requires Consistent(kv) && forall k :: k in order ==> k in kv
    ensures ReadAs(kv, order, Pairs(KvList(kv, order)))
  {
    if order == [] {
      assert Pairs([]) == map[];
    } else {
      var init, k := order[..|order| - 1], order[|order| - 1];
      ConsistentPairs(kv, init);
      PairsAppend(KvList(kv, init), WordOf(kv, k));
      ReadMore(kv, init, k, Pairs(KvList(kv, init)));
      assert order == init + [k];
    }
  }

  lemma ReadMore(kv: map<Bytes, Bytes>, init: seq<Bytes>, k: Bytes, m: map<Bytes, Bytes>)
    requires Consistent(kv) && k in kv && forall l :: l in init ==> l in kv
    requires ReadAs(kv, init, m)
    ensures ReadAs(kv, init + [k], m[Parsed(kv, k).0 := Parsed(kv, k).1])
  {
    hide Parsed;
    var order := init + [k];
    assert forall l :: l in order <==> l in init || l == k;
  }

  lemma SamePairs(kv: map<Bytes, Bytes>, a: seq<Bytes>, b: seq<Bytes>, m: map<Bytes, Bytes>, n: map<Bytes, Bytes>)
    requires Ordering(a, kv.Keys) && Ordering(b, kv.Keys) && ReadAs(kv, a, m) && ReadAs(kv, b, n)
    ensures m == n
  {
    Included(kv, a, b, m, n);
    Included(kv, b, a, n, m);
    hide Ordering, ReadAs;
    assert m.Keys == n.Keys;
  }

  lemma Included(kv: map<Bytes, Bytes>, a: seq<Bytes>, b: seq<Bytes>, m: map<Bytes, Bytes>, n: map<Bytes, Bytes>)
    requires Ordering(a, kv.Keys) && Ordering(b, kv.Keys) && ReadAs(kv, a, m) && ReadAs(kv, b, n)
    ensures forall x :: x in m ==> x in n && m[x] == n[x]
  {
    hide Parsed;
    forall x | x in m ensures x in n && m[x] == n[x] {
      var k :| k in a && Parsed(kv, k).0 == x;
      assert k in b;
    }
  }

  /**
   A command with the arguments of `Add`, or of `Set` when `kv` includes ".id", is read by the
   router as that command with exactly those arguments, and the bytes after it are untouched.
   */
  lemma CommandArrives(cmd: Bytes, kv: map<Bytes, Bytes>, order: seq<Bytes>, rest: Bytes)
    requires Sendable(cmd) && Ordering(order, kv.Keys)
    requires forall k :: k in kv ==> EQ !in k && |k| + |kv[k]| + 2 < LENGTH_LIMIT
    ensures var r := DecodeSentence(EncodeSentence([cmd] + KvList(kv, order)) + rest);
      r.Ok? && Interpret(r.value.0) == Sentence(cmd, kv) && r.value.1 == rest
  {
    var ws := [cmd] + KvList(kv, order);
    KvSendable(kv, order);
    SentenceRoundTrip(ws, rest);
    WordsRead(cmd, kv, order);
  }

  lemma WordsRead(cmd: Bytes, kv: map<Bytes, Bytes>, order: seq<Bytes>)
    requires Ordering(order, kv.Keys) && forall k :: k in kv ==> EQ !in k
    ensures Interpret([cmd] + KvList(kv, order)) == Sentence(cmd, kv)
  {
    KvRoundTrip(kv, order);
    assert ([cmd] + KvList(kv, order))[1..] == KvList(kv, order);
  }

  lemma {:induction false} KvSendable(kv: map<Bytes, Bytes>, order: seq<Bytes>)
    requires forall k :: k in order ==> k in kv && |k| + |kv[k]| + 2 < LENGTH_LIMIT
    ensures AllSendable(KvList(kv, order))
  {
    if order == [] {
    } else {
      KvSendable(kv, order[..|order| - 1]);
    }
  }

  /** kvWords: despite its comment it does not sort; the words come in map order. */
  method KvWords(kv: map<Bytes, Bytes>) returns (out: seq<Bytes>)
    ensures exists order :: Ordering(order, kv.Keys) && out == KvList(kv, order)
  {
    out := [];
    ghost var order: seq<Bytes> := [];
    var todo := kv.Keys;
    while todo != {}
      invariant todo <= kv.Keys
      invariant Ordering(order, kv.Keys - todo)
      invariant out == KvList(kv, order)
    {
      var k :| k in todo;
      out := out + [KvWord(k, kv[k])];
      assert (order + [k])[..|order|] == order;
      order := order + [k];
      todo := todo - {k};
    }
  }

  /** Conn.Send: the words, then the empty word; any part may go out before an error. */
  method Send(w: Transport, words: seq<Bytes>) returns (ok: bool)
    modifies w`accepted, w`failed
    ensures ok ==> w.accepted == old(w.accepted) + EncodeSentence(words)
    ensures Partly(old(w.accepted), w.accepted, EncodeSentence(words))
    ensures w.failed == (old(w.failed) || !ok)
  {
    hide EncodeLength, EncodeWord, Partly;
    ghost var start := w.accepted;
    for i := 0 to |words|
      invariant w.accepted + EncodeSentence(words[i..]) == start + EncodeSentence(words)
      invariant |w.accepted| >= |start| && w.failed == old(w.failed)
    {
      ghost var here := w.accepted;
      ok := WriteWord(w, words[i]);
      assert words[i..][0] == words[i] && words[i..][1..] == words[i + 1..];
      if !ok {
        PartlyMore(here, w.accepted, EncodeWord(words[i]), EncodeSentence(words[i + 1..]));
        PartlyTail(start, here, w.accepted, EncodeSentence(words[i..]), EncodeSentence(words));
        return;
      }
    }
    ghost var here := w.accepted;
    ok := WriteLength(w, 0);
    PartlyTail(start, here, w.accepted, EncodeLength(0), EncodeSentence(words));
  }

  lemma PartlyTail(start: Bytes, here: Bytes, after: Bytes, tail: Bytes, whole: Bytes)
    requires here + tail == start + whole && |here| >= |start|
    requires Partly(here, after, tail)
    ensures Partly(start, after, whole)
  {
    var k :| 0 <= k <= |tail| && after == here + tail[..k];
    var n := |here| - |start|;
    assert (here + tail)[..|here| + k] == here + tail[..k];
    assert (start + whole)[..|start| + (n + k)] == start + whole[..n + k];
  }

  /** Conn.Recv: one sentence, up to its empty word. */
  method Recv(r: Transport) returns (res: Result<Sentence>)
    modifies r`unread
    ensures match DecodeSentence(old(r.unread))
            case Ok((ws, rest)) => res == Ok(Interpret(ws)) && r.unread == rest
            case Err(e) => res == Err(e)
  {
    assert Pairs([]) == map[];
    hide Pairs, AddPair, DecodeWord, DecodeSentence;
    AfterWord([], r.unread);
    var first := ReadWord(r);
    if first.Err? { return Err(first.error); }
    if first.value == [] { return Ok(Sentence([], map[])); }
    var words: map<Bytes, Bytes> := map[];
    ghost var read: seq<Bytes> := [first.value];
    assert read[1..] == [];
    while true
      invariant |read| >= 1 && read[0] == first.value && words == Pairs(read[1..])
      invariant DecodeSentence(old(r.unread)) == After(read, DecodeSentence(r.unread))
      decreases |r.unread|
    {
      AfterWord(read, r.unread);
      var w := ReadWord(r);
      if w.Err? { return Err(w.error); }
      if w.value == [] {
        assert read + [] == read;
        return Ok(Sentence(first.value, words));
      }
      words := AddPair(words, w.value);
      PairsAppend(read[1..], w.value);
      assert (read + [w.value])[1..] == read[1..] + [w.value];
      read := read + [w.value];
    }
  }

  ghost function After(read: seq<Bytes>, r: Result<(seq<Bytes>, Bytes)>): Result<(seq<Bytes>, Bytes)>
  {
    match r
    case Ok((ws, rest)) => Ok((read + ws, rest))
    case Err(e) => Err(e)
  }

  lemma AfterWord(read: seq<Bytes>, s: Bytes)
    ensures match DecodeWord(s)
            case Err(e) => DecodeSentence(s) == Err(e)
            case Ok((w, rest)) =>
              if w == [] then DecodeSentence(s) == Ok(([], rest))
              else
                && DecodeSentence(s) == After([w], DecodeSentence(rest))
                && After(read, DecodeSentence(s)) == After(read + [w], DecodeSentence(rest))
  {
    if DecodeWord(s).Ok? && DecodeWord(s).value.0 != [] {
      var (w, rest) := DecodeWord(s).value;
      if DecodeSentence(rest).Ok? {
        var ws := DecodeSentence(rest).value.0;
        assert read + ([w] + ws) == read + [w] + ws;
      }
    }
  }

  lemma PairsAppend(words: seq<Bytes>, w: Bytes)
    ensures Pairs(words + [w]) == AddPair(Pairs(words), w)
  {
    assert (words + [w])[..|words|] == words;
  }

  /** indexByte scans for the first occurrence. */
  method IndexByte(s: Bytes, b: Byte) returns (i: int)
    ensures i == FirstIndex(s, b)
  {
    i := 0;
    while i < |s|
      invariant 0 <= i <= |s| && b !in s[..i]
    {
      if s[i] == b { return; }
      assert s[..i + 1] == s[..i] + [s[i]];
      i := i + 1;
    }
    assert s[..|s|] == s;
    i := -1;
  }
}
