/**
 The login limiter (internal/api/auth.go): five failures in a window lock a key for five minutes.
 The attempt objects are shared through the map and updated in place.
 */
module Limiters {
  import opened Wrappers

  const MAX_FAILS := 5
  const SECOND: int := 1_000_000_000  // the clock counts nanoseconds
  const FAIL_WINDOW: int := 5 * 60 * SECOND
  const LOCKOUT_TIME: int := 5 * 60 * SECOND

  // ----- one key, as values ------------------------------------------------------------------------

  /** lockUntil is none until the first lock: the zero time. */
  datatype Count = Count(fails: nat, first: int, lockUntil: Option<int>)

  predicate MayTry(c: Option<Count>, now: int)
  {
    c.Some? && c.value.lockUntil.Some? ==> c.value.lockUntil.value <= now
  }

  /** Whether a failure starts a fresh window. */
  predicate StartsWindow(c: Option<Count>, now: int) { c.None? || now - c.value.first > FAIL_WINDOW }

  function Bumped(a: Count, now: int): Count
  {
    if a.fails + 1 >= MAX_FAILS then Count(0, now, Some(now + LOCKOUT_TIME)) else a.(fails := a.fails + 1)
  }

  function Failed(c: Option<Count>, now: int): Count
  {
    Bumped(if StartsWindow(c, now) then Count(0, now, None) else c.value, now)
  }

  /** Failures recorded since the key was unknown or reset, oldest first, each right after a permitted check. */
  ghost predicate Permitted(times: seq<int>)
    decreases |times|, 0
  {
    times == [] ||
    var n := |times| - 1;
    && Permitted(times[..n])
    && (n > 0 ==> times[n - 1] <= times[n])
    && MayTry(After(times[..n]), times[n])
  }

  ghost function After(times: seq<int>): Option<Count>
    decreases |times|, 1
  {
    if times == [] then None else Some(Failed(After(times[..|times| - 1]), times[|times| - 1]))
  }

  /** Number of failures in the half-open interval [from, to). */
  function Recorded(times: seq<int>, from: int, to: int): nat
  {
    if times == [] then 0
    else Recorded(times[..|times| - 1], from, to) + if from <= times[|times| - 1] < to then 1 else 0
  }

  lemma Append(times: seq<int>, now: int, from: int, to: int)
    ensures Permitted(times + [now]) <==>
              Permitted(times) && (times != [] ==> times[|times| - 1] <= now) && MayTry(After(times), now)
    ensures After(times + [now]) == Some(Failed(After(times), now))
    ensures Recorded(times + [now], from, to) == Recorded(times, from, to) + if from <= now < to then 1 else 0
  {
    assert (times + [now])[..|times|] == times;
  }

  lemma {:induction false} RecordedNone(times: seq<int>, from: int, to: int)
    requires forall i :: 0 <= i < |times| ==> !(from <= times[i] < to)
    ensures Recorded(times, from, to) == 0
  {
    if times == [] {
    } else {
      RecordedNone(times[..|times| - 1], from, to);
    }
  }

  lemma {:induction false} RecordedSplit(times: seq<int>, k: nat, from: int, to: int)
    requires k <= |times|
    ensures Recorded(times, from, to) <= Recorded(times[..k], from, to) + (|times| - k)
    decreases |times|
  {
    if k < |times| {
      RecordedSplit(times[..|times| - 1], k, from, to);
      assert times[..|times| - 1][..k] == times[..k];
    } else {
      assert times[..k] == times;
    }
  }

  /** Number of failures at `from` or later. */
  function Since(times: seq<int>, from: int): nat
  {
    if times == [] then 0
    else Since(times[..|times| - 1], from) + if from <= times[|times| - 1] then 1 else 0
  }

  lemma {:induction false} RecordedSince(times: seq<int>, from: int, to: int, earlier: int)
    requires earlier <= from
    ensures Recorded(times, from, to) <= Since(times, earlier)
  {
    if times == [] {
    } else {
      RecordedSince(times[..|times| - 1], from, to, earlier);
    }
  }

  lemma {:induction false} SinceSplit(times: seq<int>, k: nat, from: int)
    requires k <= |times| && forall i :: 0 <= i < k ==> times[i] < from
    ensures Since(times, from) <= |times| - k
    decreases |times|
  {
    if times == [] {
    } else {
      SinceSplit(times[..|times| - 1], if k == |times| then k - 1 else k, from);
    }
  }

  /**
   What the counter knows about the failures: the last `fails` of them are in its window; the
   earlier ones are no later than `first`, and of those at most four are recent, or the key was
   locked until `first` + LOCKOUT_TIME.
   */
  ghost predicate Tracks(c: Count, times: seq<int>)
  {
    && times != [] && c.fails < MAX_FAILS && c.fails <= |times|
    && (forall i, j :: 0 <= i <= j < |times| ==> times[i] <= times[j])
    && (forall i :: 0 <= i < |times| - c.fails ==> times[i] <= c.first)
    && c.first <= times[|times| - 1]
    && (c.lockUntil.Some? ==> c.lockUntil.value == c.first + LOCKOUT_TIME)
    && (c.lockUntil.None? ==> Since(times[..|times| - c.fails], c.first - FAIL_WINDOW) <= 4)
  }

  lemma {:induction false} CounterTracks(times: seq<int>)
    requires Permitted(times) && times != []
    ensures Tracks(After(times).value, times)
  {
    hide Tracks, Failed;
    var n := |times| - 1;
    var before, now := times[..n], times[n];
    assert times == before + [now];
    if before == [] {
      FirstFailure(now);
    } else {
      CounterTracks(before);
      assert before[n - 1] == times[n - 1];
      NextFailure(After(before).value, before, now);
    }
  }

  lemma FirstFailure(now: int)
    ensures Tracks(Failed(None, now), [now])
  {
    assert [now][..0] == [];
  }

  lemma NextFailure(c: Count, before: seq<int>, now: int)
    requires Tracks(c, before) && before[|before| - 1] <= now
    ensures Tracks(Failed(Some(c), now), before + [now])
  {
    var times := before + [now];
    var a := Failed(Some(c), now);
    var k := |before| - c.fails;
    hide Since;
    assert forall i :: 0 <= i < |before| ==> times[i] == before[i] <= now;
    if StartsWindow(Some(c), now) {
      SinceSplit(before, k, now - FAIL_WINDOW);
      assert times[..|before|] == before;
    } else if a.fails != 0 {
      assert |times| - a.fails == k && times[..k] == before[..k];
    }
  }

  /** In any half-open interval of five minutes at most nine failures are recorded for a key. */
  lemma {:induction false} AtMostNineFailures(times: seq<int>, from: int)
    requires Permitted(times)
    ensures Recorded(times, from, from + FAIL_WINDOW) <= 9
  {
    if times == [] {
    } else {
      var n := |times| - 1;
      var before, now := times[..n], times[n];
      AtMostNineFailures(before, from);
      if from <= now < from + FAIL_WINDOW && before != [] {
        CounterTracks(before);
        assert before[n - 1] == times[n - 1];
        EightBefore(After(before).value, before, now, from);
      }
    }
  }

  lemma EightBefore(c: Count, times: seq<int>, now: int, from: int)
    requires Tracks(c, times) && MayTry(Some(c), now) && now - FAIL_WINDOW < from <= now
    requires times[|times| - 1] <= now
    ensures Recorded(times, from, from + FAIL_WINDOW) <= 8
  {
    var k := |times| - c.fails;
    RecordedSplit(times, k, from, from + FAIL_WINDOW);
    if c.lockUntil.Some? || from > c.first {
      RecordedNone(times[..k], from, from + FAIL_WINDOW);
    } else {
      RecordedSince(times[..k], from, from + FAIL_WINDOW, c.first - FAIL_WINDOW);
    }
  }

  /** Five failures at 0, four at the moment that lock ends, five in the window after it. */
  function BurstTime(n: nat): int { if n < 5 then 0 else if n < 9 then LOCKOUT_TIME else LOCKOUT_TIME + 1 }

  function Burst(n: nat): (times: seq<int>)
    ensures |times| == n && (n > 0 ==> times[n - 1] == BurstTime(n - 1))
  {
    if n == 0 then [] else Burst(n - 1) + [BurstTime(n - 1)]
  }

  function BurstCount(n: nat): Option<Count> {
    if n == 0 then None
    else if n < 5 then Some(Count(n, 0, None))
    else if n <= 9 then Some(Count(n - 5, 0, Some(LOCKOUT_TIME)))
    else if n < 14 then Some(Count(n - 9, LOCKOUT_TIME + 1, None))
    else Some(Count(0, LOCKOUT_TIME + 1, Some(2 * LOCKOUT_TIME + 1)))
  }

  lemma BurstStep(n: nat)
    requires n < 14
    ensures MayTry(BurstCount(n), BurstTime(n)) && BurstCount(n + 1) == Some(Failed(BurstCount(n), BurstTime(n)))
    ensures n > 0 ==> BurstTime(n - 1) <= BurstTime(n)
  {
  }

  lemma {:induction false} BurstIsPermitted(n: nat)
    requires n <= 14
    ensures Permitted(Burst(n)) && After(Burst(n)) == BurstCount(n)
    ensures Recorded(Burst(n), LOCKOUT_TIME, LOCKOUT_TIME + FAIL_WINDOW) == if n <= 5 then 0 else n - 5
  {
    assert BurstCount(0) == None && Permitted([]) && After([]) == None;
    assert Recorded([], LOCKOUT_TIME, LOCKOUT_TIME + FAIL_WINDOW) == 0;
    hide Failed, BurstCount, MayTry, Permitted, After, Recorded;
    if n == 0 {
    } else {
      BurstIsPermitted(n - 1);
      BurstStep(n - 1);
      Append(Burst(n - 1), BurstTime(n - 1), LOCKOUT_TIME, LOCKOUT_TIME + FAIL_WINDOW);
    }
  }

  /** The bound of nine is reached. */
  lemma NineFailuresHappen()
    ensures Permitted(Burst(14)) && Recorded(Burst(14), LOCKOUT_TIME, LOCKOUT_TIME + FAIL_WINDOW) == 9
  {
    BurstIsPermitted(14);
  }

  // ----- exactly when a failure locks ---------------------------------------------------------------

  /** A counting window opens at a failure: at one that comes too late for the window before, or at one that locks. */
  datatype Opening = Opening(at: nat, byLock: bool)

  /** Failures counted in the window before index `end`; the one that locked is not. */
  function Counted(o: Opening, end: nat): int { end - o.at - if o.byLock then 1 else 0 }

  /** What opens window b while window a is current. */
  predicate Opens(times: seq<int>, a: Opening, b: Opening)
    requires a.at < b.at < |times|
  {
    if b.byLock then times[b.at] - times[a.at] <= FAIL_WINDOW && Counted(a, b.at) == MAX_FAILS - 1
    else times[b.at] - times[a.at] > FAIL_WINDOW
  }

  /** The failures since the window opened belong to it. */
  ghost predicate Belong(times: seq<int>, o: Opening)
  {
    && o.at < |times| && Counted(o, |times|) < MAX_FAILS
    && forall j :: o.at < j < |times| ==> times[j] - times[o.at] <= FAIL_WINDOW
  }

  /** The windows of a list of failures, by their times alone. */
  ghost predicate Windows(times: seq<int>, w: seq<Opening>)
  {
    w != [] &&
    var last := w[|w| - 1];
    && Belong(times, last)
    && if |w| == 1 then last == Opening(0, false)
       else Windows(times[..last.at], w[..|w| - 1]) && Opens(times, w[|w| - 2], last)
  }

  lemma LaterWindows(times: seq<int>, w: seq<Opening>, now: int)
    requires times != [] && w != []
    requires Belong(times + [now], w[|w| - 1]) && w[|w| - 1].at < |times|
    ensures Windows(times + [now], w) <==> Windows(times, w)
  {
    var last := w[|w| - 1];
    hide Opens;
    assert (times + [now])[..last.at] == times[..last.at];
    assert forall j :: last.at < j < |times| ==> (times + [now])[j] == times[j];
    if |w| > 1 && Windows(times[..last.at], w[..|w| - 1]) {
      SameOpening(times, w[|w| - 2], last, now);
    }
  }

  lemma SameOpening(times: seq<int>, a: Opening, b: Opening, now: int)
    requires a.at < b.at < |times|
    ensures Opens(times + [now], a, b) <==> Opens(times, a, b)
  {
    assert (times + [now])[a.at] == times[a.at] && (times + [now])[b.at] == times[b.at];
  }

  lemma {:induction false} WindowsExist(times: seq<int>) returns (w: seq<Opening>)
    requires times != []
    ensures Windows(times, w)
  {
    var n := |times| - 1;
    if n == 0 {
      w := [Opening(0, false)];
    } else {
      var before, now := times[..n], times[n];
      assert times == before + [now];
      w := WindowsExist(before);
      var last := w[|w| - 1];
      if now - times[last.at] > FAIL_WINDOW || Counted(last, n) == MAX_FAILS - 1 {
        var next := Opening(n, now - times[last.at] <= FAIL_WINDOW);
        assert (w + [next])[..|w|] == w && times[..n] == before;
        w := w + [next];
      } else {
        assert forall j :: last.at < j < n ==> times[j] == before[j];
        LaterWindows(before, w, now);
      }
    }
  }

  /** The counter is what the last window says. */
  lemma {:induction false} WindowsTell(times: seq<int>, w: seq<Opening>)
    requires Windows(times, w)
    ensures After(times) == Some(CountIn(times, w[|w| - 1]))
  {
    var n, last := |times| - 1, w[|w| - 1];
    var before, now := times[..n], times[n];
    assert times == before + [now];
    AfterAppend(before, now);
    if last.at == 0 {
      OnlyWindow(times, w);
    }
    hide After, CountIn, Failed, Opens, Belong;
    if n == 0 {
    } else if last.at == n {
      WindowsTell(before, w[..|w| - 1]);
      BelongToLast(before, w[..|w| - 1]);
      OpensHere(before, w[|w| - 2], last, now);
    } else {
      LaterWindows(before, w, now);
      WindowsTell(before, w);
      GoesOn(before, last, now);
    }
  }

  lemma AfterAppend(before: seq<int>, now: int)
    ensures After(before + [now]) == Some(Failed(After(before), now))
  {
    Append(before, now, 0, 0);
  }

  lemma BelongToLast(times: seq<int>, w: seq<Opening>)
    requires Windows(times, w)
    ensures Belong(times, w[|w| - 1])
  {
  }

  lemma OnlyWindow(times: seq<int>, w: seq<Opening>)
    requires Windows(times, w) && w[|w| - 1].at == 0
    ensures |times| == 1 ==> After(times) == Some(CountIn(times, w[|w| - 1]))
  {
    assert times[..0] == [] && After([]) == None;
  }

  /** A failure that opens a window makes the counter the one of that window. */
  lemma OpensHere(before: seq<int>, a: Opening, b: Opening, now: int)
    requires Belong(before, a) && b.at == |before| && Opens(before + [now], a, b)
    ensures Failed(Some(CountIn(before, a)), now) == CountIn(before + [now], b)
  {
  }

  /** A failure in the current window is counted. */
  lemma GoesOn(before: seq<int>, o: Opening, now: int)
    requires o.at < |before| && Counted(o, |before|) >= 0 && Belong(before + [now], o)
    ensures Failed(Some(CountIn(before, o)), now) == CountIn(before + [now], o)
  {
    assert (before + [now])[|before|] == now;
  }

  /** The counter in a window. */
  function CountIn(times: seq<int>, o: Opening): Count
    requires o.at < |times| && Counted(o, |times|) >= 0
  {
    Count(Counted(o, |times|), times[o.at], if o.byLock then Some(times[o.at] + LOCKOUT_TIME) else None)
  }

  /**
   Exactly when a permitted failure locks its key, and until when: if it falls into the current
   window and the window has counted four failures before it.
   */
  lemma LocksIff(times: seq<int>, w: seq<Opening>, now: int, later: int)
    requires Windows(times, w) && Permitted(times + [now]) && now <= later
    ensures var last := w[|w| - 1];
            !MayTry(After(times + [now]), later) <==>
              && now - times[last.at] <= FAIL_WINDOW && Counted(last, |times|) == MAX_FAILS - 1
              && later < now + LOCKOUT_TIME
  {
    Append(times, now, 0, 0);
    WindowsTell(times, w);
    hide After, Permitted, Recorded, Windows;
  }

  /** In the window that a lock opens, all counted failures come at the very moment the lock ends. */
  lemma AfterLockAtItsEnd(times: seq<int>, w: seq<Opening>, j: nat)
    requires Permitted(times) && Windows(times, w) && w[|w| - 1].byLock && w[|w| - 1].at < j < |times|
    ensures times[j] == times[w[|w| - 1].at] + LOCKOUT_TIME
  {
    var last := w[|w| - 1];
    assert times[j] - times[last.at] <= FAIL_WINDOW;
    hide After, Windows, Permitted;
    PermittedAt(times, j);
    WindowsBefore(times, w, j);
    WindowsTell(times[..j], w);
    assert times[..j][last.at] == times[last.at];
  }

  lemma PermittedAt(times: seq<int>, j: nat)
    requires Permitted(times) && j < |times|
    ensures MayTry(After(times[..j]), times[j])
  {
    PermittedBefore(times, j + 1);
    assert times[..j + 1][..j] == times[..j];
  }

  lemma {:induction false} WindowsBefore(times: seq<int>, w: seq<Opening>, k: nat)
    requires Windows(times, w) && w[|w| - 1].at < k <= |times|
    ensures Windows(times[..k], w)
    decreases |times|
  {
    if k == |times| {
      assert times[..k] == times;
    } else {
      var n := |times| - 1;
      assert times == times[..n] + [times[n]] && times[..n][..k] == times[..k];
      LaterWindows(times[..n], w, times[n]);
      WindowsBefore(times[..n], w, k);
    }
  }

  lemma {:induction false} PermittedBefore(times: seq<int>, k: nat)
    requires Permitted(times) && k <= |times|
    ensures Permitted(times[..k])
    decreases |times|
  {
    if k == |times| {
      assert times[..k] == times;
    } else {
      PermittedBefore(times[..|times| - 1], k);
      assert times[..|times| - 1][..k] == times[..k];
    }
  }

  lemma Extend(before: seq<int>, c: Option<Count>, now: int, times: seq<int>)
    requires Permitted(before) && After(before) == c && MayTry(c, now) && times == before + [now]
    requires before != [] ==> before[|before| - 1] <= now
    ensures Permitted(times) && After(times) == Some(Failed(c, now))
  {
    Append(before, now, 0, 0);
  }

  /** Five failures in a row, as close together as one likes, that lock nothing: they fall into two windows. */
  lemma FiveInARowWithoutLock(d: int)
    requires 0 < d <= FAIL_WINDOW
    ensures var w := FAIL_WINDOW;
            var times := [0, w - d, w - d, w - d, w + d, w + d];
            Permitted(times) && times[5] - times[1] == 2 * d && After(times).value.lockUntil == None
  {
    assert Permitted([]) && After([]) == None;
    hide After, Permitted;
    var x, y := FAIL_WINDOW - d, FAIL_WINDOW + d;
    Extend([], None, 0, [0]);
    Extend([0], Some(Count(1, 0, None)), x, [0, x]);
    Extend([0, x], Some(Count(2, 0, None)), x, [0, x, x]);
    Extend([0, x, x], Some(Count(3, 0, None)), x, [0, x, x, x]);
    Extend([0, x, x, x], Some(Count(4, 0, None)), y, [0, x, x, x, y]);
    Extend([0, x, x, x, y], Some(Count(1, y, None)), y, [0, x, x, x, y, y]);
  }

  /** The first five failures of an unknown key, if within one window, lock it until five minutes after the last. */
  lemma FiveFailuresLock(t: seq<int>, now: int)
    requires |t| == 5 && (forall i, j :: 0 <= i <= j < 5 ==> t[i] <= t[j]) && t[4] - t[0] <= FAIL_WINDOW
    ensures MayTry(After(t), now) <==> now >= t[4] + LOCKOUT_TIME
  {
    assert t == [t[0], t[1], t[2], t[3], t[4]];
    assert t[..4][..3] == t[..3] && t[..3][..2] == t[..2] && t[..2][..1] == t[..1] && t[..1][..0] == [];
    assert After(t[..1]) == Some(Count(1, t[0], None));
    assert After(t[..2]) == Some(Count(2, t[0], None));
    assert After(t[..3]) == Some(Count(3, t[0], None));
    assert After(t[..4]) == Some(Count(4, t[0], None));
  }

  /** The first five failures of an unknown key, if they do not fit into one window, lock nothing. */
  lemma SpreadFailuresDoNotLock(t: seq<int>)
    requires |t| == 5 && (forall i, j :: 0 <= i <= j < 5 ==> t[i] <= t[j]) && t[4] - t[0] > FAIL_WINDOW
    ensures After(t).value.lockUntil.None?
  {
    assert t[..1][..0] == [] && After(t[..1]) == Some(Failed(After([]), t[0]));
    assert t[..2] == t[..1] + [t[1]] && t[..3] == t[..2] + [t[2]] && t[..4] == t[..3] + [t[3]];
    Append(t[..1], t[1], 0, 0);
    Append(t[..2], t[2], 0, 0);
    Append(t[..3], t[3], 0, 0);
    var c2, c3, c4 := After(t[..2]).value, After(t[..3]).value, After(t[..4]).value;
    assert c2 == Count(2, t[0], None) || (c2.fails <= 1 && c2.lockUntil.None?);
    assert c3 == Count(3, t[0], None) || (c3.fails <= 2 && c3.lockUntil.None?);
    assert c4 == Count(4, t[0], None) || (c4.fails <= 3 && c4.lockUntil.None?);
  }

  /** The lock of a counter ends five minutes after its window started, whoever called `fail` and when. */
  lemma {:induction false} LockEndsWithWindow(times: seq<int>)
    requires times != [] && After(times).value.lockUntil.Some?
    ensures After(times).value.lockUntil.value == After(times).value.first + LOCKOUT_TIME
  {
    if |times| == 1 {
    } else if After(times[..|times| - 1]).value.lockUntil.Some? {
      LockEndsWithWindow(times[..|times| - 1]);
    }
  }

  /** So starting a fresh window never discards an active lock, even for failures without a permitted check. */
  lemma FreshWindowKeepsLocks(times: seq<int>, now: int)
    requires StartsWindow(After(times), now)
    ensures MayTry(After(times), now)
  {
    if times != [] && After(times).value.lockUntil.Some? {
      LockEndsWithWindow(times);
    }
  }

  // ----- the code ---------------------------------------------------------------------------------------

  class Attempt {
    var fails: nat
    var first: int
    var lockUntil: Option<int>

    constructor (first: int)
      ensures Value() == Count(0, first, None)
    {
      this.fails, this.first, this.lockUntil := 0, first, None;
    }

    function Value(): Count
      reads this
    {
      Count(fails, first, lockUntil)
    }
  }

  ghost function TimesOf(failures: map<string, seq<int>>, key: string): seq<int>
  {
    if key in failures then failures[key] else []
  }

  function CountOf(counts: map<string, Count>, key: string): Option<Count>
  {
    if key in counts then Some(counts[key]) else None
  }

  /** The counters are what the failures of their keys lead to. */
  ghost predicate Lead(failures: map<string, seq<int>>, counts: map<string, Count>)
  {
    failures.Keys == counts.Keys && forall k :: k in counts ==> After(failures[k]) == Some(counts[k])
  }

  lemma LeadOn(failures: map<string, seq<int>>, counts: map<string, Count>, key: string, now: int)
    requires Lead(failures, counts)
    ensures Lead(failures[key := TimesOf(failures, key) + [now]], counts[key := Failed(CountOf(counts, key), now)])
  {
    Append(TimesOf(failures, key), now, 0, 0);
    hide Permitted, Failed, Recorded;
    assert After(TimesOf(failures, key)) == CountOf(counts, key);
    hide After;
  }

  lemma LeadWithout(failures: map<string, seq<int>>, counts: map<string, Count>, key: string)
    requires Lead(failures, counts)
    ensures Lead(failures - {key}, counts - {key})
  {
  }

  /** No two keys share an attempt object. */
  ghost predicate Separate(m: map<string, Attempt>)
  {
    forall k, l :: k in m && l in m && k != l ==> m[k] != m[l]
  }

  /** The counters are the values of the attempt objects. */
  ghost predicate Mirrors(m: map<string, Attempt>, counts: map<string, Count>)
    reads m.Values
  {
    m.Keys == counts.Keys && forall k :: k in m ==> m[k].Value() == counts[k]
  }

  class Limiter {
    var m: map<string, Attempt>
    ghost var counts: map<string, Count>
    ghost var failures: map<string, seq<int>>  // of each key, since it was reset

    constructor ()
      ensures Valid() && failures == map[] && m == map[]
    {
      m, counts, failures := map[], map[], map[];
    }

    /** Every key has its own attempt object, whose value is what the failures of that key lead to. */
    ghost predicate Valid()
      reads this, m.Values
    {
      && Mirrors(m, counts)
      && Separate(m)
      && Lead(failures, counts)
    }

    ghost function Times(key: string): seq<int>
      reads this
    {
      TimesOf(failures, key)
    }

    /** Whether a login may be tried, and how long to wait if not. */
    method Allowed(key: string, now: int) returns (ok: bool, wait: int)
      requires Valid()
      ensures ok <==> MayTry(After(Times(key)), now)
      ensures !ok ==> After(Times(key)).value.lockUntil == Some(now + wait) && wait > 0
    {
      if key !in m { return true, 0; }
      var a := m[key];
      assert After(Times(key)) == Some(a.Value());
      if a.lockUntil.Some? && a.lockUntil.value - now > 0 {
        return false, a.lockUntil.value - now;
      }
      return true, 0;
    }

    /** The attempt object of a key, a new one if its window is over. */
    method Window(key: string, now: int) returns (a: Attempt)
      requires Valid()
      modifies this`m
      ensures m == old(m)[key := a] && Separate(m) && a in m.Values && fresh(m.Values - old(m.Values))
      ensures forall k :: k in m && k != key ==> k in old(m) && m[k] == old(m)[k] && m[k] != a
      ensures if StartsWindow(CountOf(counts, key), now) then fresh(a) && a.Value() == Count(0, now, None)
              else key in old(m) && a == old(m)[key]
    {
      hide After;
      if key !in m || now - m[key].first > FAIL_WINDOW {
        var window := new Attempt(now);
        m := m[key := window];
      }
      a := m[key];
      assert key in m.Keys;
    }

    /** The update that `fail` makes to the attempt object of the key. */
    method Bump(a: Attempt, now: int)
      modifies a
      ensures a.Value() == Bumped(old(a.Value()), now)
    {
      a.fails := a.fails + 1;
      if a.fails >= MAX_FAILS {
        a.lockUntil := Some(now + LOCKOUT_TIME);
        a.fails := 0;
        a.first := now;
      }
    }

    method Fail(key: string, now: int)
      requires Valid()
      modifies this, m.Values
      ensures Valid() && fresh(m.Values - old(m.Values))
      ensures failures == old(failures)[key := old(Times(key)) + [now]]
    {
      hide After, Bumped, TimesOf, Lead, Separate;
      LeadOn(failures, counts, key, now);
      ghost var next := Failed(CountOf(counts, key), now);
      var a := Window(key, now);
      Bump(a, now);
      assert a.Value() == next;
      hide Failed, StartsWindow, CountOf;
      forall k | k in m ensures m[k].Value() == counts[key := next][k] {}
      assert m.Keys == counts[key := next].Keys;
      assert Mirrors(m, counts[key := next]);
      hide Mirrors;
      failures, counts := failures[key := Times(key) + [now]], counts[key := next];
    }

    method Reset(key: string)
      requires Valid()
      modifies this
      ensures Valid() && failures == old(failures) - {key} && m == old(m) - {key}
    {
      LeadWithout(failures, counts, key);
      assert Separate(m - {key}) && Mirrors(m - {key}, counts - {key});
      hide Lead, Separate, Mirrors;
      m := m - {key};
      counts := counts - {key};
      failures := failures - {key};
    }
  }
}
