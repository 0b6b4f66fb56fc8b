/**
 The supervisor and the reload signal (cmd/awgproxy/main.go): any number of web handlers save the
 configuration and then send, without blocking, on a channel of capacity one; the supervisor
 loads, starts the stack, and restarts it when it receives.
 */
module Supervisors {

  /** Program points of `supervise`. Numbers are versions of the saved configuration. */
  datatype Phase =
    | Loading               // about to read the configuration
    | Unreadable(at: nat)   // reading failed; waiting for a reload
    | Loaded(v: nat)        // read; about to start the stack
    | Running(v: nat)       // in the select, stack started with v
    | Lame(v: nat)          // the stack ended by itself; waiting for a reload
    | Stopping              // cancelled the stack, waiting for it to end
    | Ending                // the same, on shutdown
    | Ended

  datatype State = State(
    file: nat,      // version in the file; each save makes the next one
    midSave: nat,   // handlers that have written the file and not sent yet
    signal: bool,   // the channel holds an element
    phase: Phase,
    live: nat,      // stacks whose done channel is not closed
    down: bool)     // the service context is cancelled

  ghost predicate Init(s: State) { s.midSave == 0 && !s.signal && s.phase == Loading && s.live == 0 && !s.down }

  // ----- steps -----------------------------------------------------------------------------

  datatype Move =
    | Save | Send | Shutdown
    | Load | FailToLoad | Start | StackEnds | Reload | NoticeEnd | Restart | Stop | End

  function Do(s: State, m: Move): State
  {
    match m
    case Save => s.(file := s.file + 1, midSave := s.midSave + 1)
    case Send => if s.midSave > 0 then s.(midSave := s.midSave - 1, signal := true) else s
    case Shutdown => s.(down := true)
    case Load => s.(phase := Loaded(s.file))
    case FailToLoad => s.(phase := Unreadable(s.file))
    case Start => if s.phase.Loaded? then s.(phase := Running(s.phase.v), live := s.live + 1) else s
    case StackEnds => if s.live > 0 then s.(live := s.live - 1) else s
    case Reload => s.(signal := false, phase := if s.phase.Unreadable? then Loading else Stopping)
    case NoticeEnd => if s.phase.Running? then s.(phase := Lame(s.phase.v)) else s
    case Restart => s.(phase := Loading)
    case Stop => s.(phase := if s.phase.Running? then Ending else Ended)
    case End => s.(phase := Ended)
  }

  predicate Waiting(p: Phase) { p.Unreadable? || p.Running? || p.Lame? }

  predicate Enabled(s: State, m: Move)
  {
    match m
    case Save => true
    case Send => s.midSave > 0
    case Shutdown => !s.down
    case Load => s.phase == Loading
    case FailToLoad => s.phase == Loading
    case Start => s.phase.Loaded?
    case StackEnds => s.live > 0
    case Reload => Waiting(s.phase) && s.signal
    case NoticeEnd => s.phase.Running? && s.live == 0
    case Restart => s.phase == Stopping && s.live == 0
    case Stop => Waiting(s.phase) && s.down
    case End => s.phase == Ending && s.live == 0
  }

  /** A run is given by its moves; any interleaving is one. */
  ghost predicate Possible(s: State, moves: seq<Move>)
    decreases |moves|
  {
    moves == [] || (Enabled(s, moves[0]) && Possible(Do(s, moves[0]), moves[1..]))
  }

  ghost function Final(s: State, moves: seq<Move>): State
    decreases |moves|
  {
    if moves == [] then s else Final(Do(s, moves[0]), moves[1..])
  }

  // ----- safety ---------------------------------------------------------------------------------

  /** The version this phase is about, if any. */
  function Version(p: Phase): int
  {
    match p
    case Unreadable(at) => at
    case Loaded(v) => v
    case Running(v) => v
    case Lame(v) => v
    case _ => -1
  }

  ghost predicate Inv(s: State)
  {
    // a save that the supervisor has not seen is announced, or about to be announced
    && Version(s.phase) <= s.file
    && (0 <= Version(s.phase) < s.file ==> s.signal || s.midSave > 0)
    // a stack lives only between its start and the reading of its done channel
    && s.live <= 1
    && (s.live == 1 ==> s.phase.Running? || s.phase == Stopping || s.phase == Ending)
  }

  lemma {:induction false} InvHolds(s: State, moves: seq<Move>)
    requires Inv(s) && Possible(s, moves)
    ensures Inv(Final(s, moves))
    decreases |moves|
  {
    if moves == [] {
    } else {
      InvHolds(Do(s, moves[0]), moves[1..]);
    }
  }

  /** Nothing is under way: the supervisor waits, the channel is empty, no handler is between its steps. */
  ghost predicate Settled(s: State) { Waiting(s.phase) && !s.signal && s.midSave == 0 }

  // ----- what the moves tell --------------------------------------------------------------------

  /** No stack ended since the last start. */
  ghost predicate NoneEnded(moves: seq<Move>)
  {
    forall i :: 0 <= i < |moves| && moves[i] == StackEnds ==> exists j :: i < j < |moves| && moves[j] == Start
  }

  function Saves(moves: seq<Move>): nat
  {
    if moves == [] then 0 else Saves(moves[..|moves| - 1]) + if moves[|moves| - 1] == Save then 1 else 0
  }

  /** A stack was started and none ended since. */
  ghost predicate Up(moves: seq<Move>) { Start in moves && NoneEnded(moves) }

  lemma {:induction false} FinalOne(s: State, moves: seq<Move>, m: Move)
    ensures Final(s, moves + [m]) == Do(Final(s, moves), m)
    ensures Possible(s, moves + [m]) <==> Possible(s, moves) && Enabled(Final(s, moves), m)
    decreases |moves|
  {
    if moves == [] {
      assert [m][1..] == [] && [] + [m] == [m];
      assert Possible(Do(s, m), []) && Final(Do(s, m), []) == Do(s, m);
    } else {
      assert (moves + [m])[0] == moves[0] && (moves + [m])[1..] == moves[1..] + [m];
      FinalOne(Do(s, moves[0]), moves[1..], m);
    }
  }

  lemma UpOne(moves: seq<Move>, m: Move)
    ensures Up(moves + [m]) <==> if m == Start then true else Up(moves) && m != StackEnds
    ensures NoneEnded(moves + [m]) <==> if m == Start then true else NoneEnded(moves) && m != StackEnds
  {
    var n, all := |moves|, moves + [m];
    assert all[n] == m;
    assert forall i :: 0 <= i < n ==> all[i] == moves[i];
    if m != Start && m != StackEnds {
      if NoneEnded(all) {
        forall i | 0 <= i < n && moves[i] == StackEnds ensures exists j :: i < j < n && moves[j] == Start {
          var j :| i < j < n + 1 && all[j] == Start;
          assert moves[j] == Start;
        }
      }
      if NoneEnded(moves) {
        forall i | 0 <= i < n + 1 && all[i] == StackEnds ensures exists j :: i < j < n + 1 && all[j] == Start {
          var j :| i < j < n && moves[j] == Start;
          assert all[j] == Start;
        }
      }
    }
  }

  /** Over every run, at every point: a stack is live exactly if one was started and none ended since. */
  lemma {:induction false} LiveIffUp(s: State, moves: seq<Move>)
    requires Init(s) && Possible(s, moves)
    ensures Final(s, moves).live == if Up(moves) then 1 else 0
    ensures Final(s, moves).phase.Running? || Final(s, moves).phase.Lame? || Final(s, moves).phase == Ending
            ==> Start in moves
    decreases |moves|
  {
    if moves == [] {
    } else {
      var n := |moves| - 1;
      var before, m := moves[..n], moves[n];
      assert moves == before + [m];
      FinalOne(s, before, m);
      LiveIffUp(s, before);
      InvHolds(s, before);
      UpOne(before, m);
      hide Up, Possible, Final, NoneEnded;
    }
  }

  lemma {:induction false} MovesTell(s: State, moves: seq<Move>)
    requires Init(s)
    ensures (Final(s, moves).down <==> Shutdown in moves) && Final(s, moves).file == s.file + Saves(moves)
    decreases |moves|
  {
    if moves == [] {
    } else {
      var before, m := moves[..|moves| - 1], moves[|moves| - 1];
      assert moves == before + [m];
      FinalOne(s, before, m);
      MovesTell(s, before);
      hide Final;
    }
  }

  /** In the select, that is: exactly one stack is live if and only if none ended since the last start. */
  lemma RunningIsLive(s: State, moves: seq<Move>)
    requires Init(s) && Possible(s, moves) && Final(s, moves).phase.Running?
    ensures Final(s, moves).live == if NoneEnded(moves) then 1 else 0
  {
    LiveIffUp(s, moves);
  }

  /** No save is lost and at most one stack is live, in every interleaving. */
  lemma NoLostReload(s: State, moves: seq<Move>)
    requires Init(s) && Possible(s, moves)
    ensures Final(s, moves).live <= 1
    ensures Settled(Final(s, moves)) ==> Version(Final(s, moves).phase) == Final(s, moves).file == s.file + Saves(moves)
  {
    InvHolds(s, moves);
    MovesTell(s, moves);
  }

  // ----- progress -----------------------------------------------------------------------------------

  function Rank(p: Phase): nat
  {
    match p
    case Stopping => 7
    case Loading => 6
    case Loaded(_) => 5
    case Running(_) => 3
    case Unreadable(_) => 2
    case Lame(_) => 2
    case Ending => 1
    case Ended => 0
  }

  function Measure(s: State): nat { 12 * s.midSave + (if s.signal then 6 else 0) + Rank(s.phase) + s.live }

  predicate Quiet(m: Move) { m != Save && m != Shutdown }

  /** Once saves stop, every step brings the system closer to rest, or to its end. */
  lemma QuietMovesDescend(s: State, m: Move)
    requires Inv(s) && Enabled(s, m) && Quiet(m)
    ensures Measure(Do(s, m)) < Measure(s)
  {
  }

  ghost predicate AllQuiet(moves: seq<Move>) { forall i :: 0 <= i < |moves| ==> Quiet(moves[i]) }

  predicate Serving(s: State) { !s.down && s.phase != Ending && s.phase != Ended }

  lemma {:induction false} QuietRunsAreShort(s: State, moves: seq<Move>)
    requires Inv(s) && Possible(s, moves) && AllQuiet(moves)
    ensures |moves| + Measure(Final(s, moves)) <= Measure(s)
    ensures Final(s, moves).down == s.down && Final(s, moves).file == s.file
    ensures Serving(s) ==> Serving(Final(s, moves))
    decreases |moves|
  {
    if moves == [] {
    } else {
      QuietMovesDescend(s, moves[0]);
      InvHolds(s, [moves[0]]);
      assert AllQuiet(moves[1..]) && Quiet(moves[0]);
      QuietRunsAreShort(Do(s, moves[0]), moves[1..]);
    }
  }

  lemma {:induction false} RunOn(s: State, a: seq<Move>, b: seq<Move>)
    ensures Final(s, a + b) == Final(Final(s, a), b)
    ensures Possible(s, a + b) <==> Possible(s, a) && Possible(Final(s, a), b)
    decreases |a|
  {
    if a == [] {
      assert [] + b == b;
    } else {
      assert (a + b)[0] == a[0] && (a + b)[1..] == a[1..] + b;
      RunOn(Do(s, a[0]), a[1..], b);
    }
  }

  /**
   Eventual reload: from any reachable state, a run without further saves makes at most
   `Measure` moves, and where no more move is possible the last saved configuration is in use, with
   a live stack if the supervisor stands in the select and no stack ended since the last start.
   The spontaneous end of a running stack is not counted among the moves that must happen.
   */
  lemma LatestConfigIsReached(start: State, history: seq<Move>, moves: seq<Move>)
    requires Init(start) && Possible(start, history)
    requires var s := Final(start, history); Serving(s) && Possible(s, moves) && AllQuiet(moves)
    ensures var s := Final(start, history);
      var last := Final(s, moves);
      && |moves| <= Measure(s)
      && last.file == s.file
      && (Settled(last) ==> Version(last.phase) == s.file)
      && (last.phase.Running? ==> last.live == if NoneEnded(history + moves) then 1 else 0)
      && (!Settled(last) ==> exists m :: Quiet(m) && Enabled(last, m))
  {
    var s := Final(start, history);
    InvHolds(start, history);
    QuietRunsAreShort(s, moves);
    InvHolds(s, moves);
    RunOn(start, history, moves);
    if Final(s, moves).phase.Running? {
      RunningIsLive(start, history + moves);
    }
    hide Possible, Final, NoneEnded;
    if !Settled(Final(s, moves)) {
      Unblocked(Final(s, moves));
    }
  }

  lemma Unblocked(s: State)
    requires Inv(s) && Serving(s) && !Settled(s)
    ensures exists m :: Quiet(m) && Enabled(s, m)
  {
    var m := if s.midSave > 0 then Send
             else if s.phase == Loading then Load
             else if s.phase.Loaded? then Start
             else if s.phase == Stopping then (if s.live > 0 then StackEnds else Restart)
             else Reload;
    assert Quiet(m) && Enabled(s, m);
  }

  /**
   Shutdown: once the service context is cancelled, a run without further saves makes at most
   `Measure` moves, and where no more move is possible the supervisor has returned and no stack is live.
   */
  lemma ShutdownEnds(start: State, history: seq<Move>, moves: seq<Move>)
    requires Init(start) && Possible(start, history) && Shutdown in history
    requires Possible(Final(start, history), moves) && AllQuiet(moves)
    ensures var s := Final(start, history);
      var last := Final(s, moves);
      && |moves| <= Measure(s)
      && (last.phase == Ended ==> last.live == 0)
      && (last.phase != Ended ==> exists m :: Quiet(m) && Enabled(last, m))
  {
    var s := Final(start, history);
    InvHolds(start, history);
    MovesTell(start, history);
    QuietRunsAreShort(s, moves);
    InvHolds(s, moves);
    hide Possible, Final;
    if Final(s, moves).phase != Ended {
      DownIsUnblocked(Final(s, moves));
    }
  }

  lemma DownIsUnblocked(s: State)
    requires Inv(s) && s.down && s.phase != Ended
    ensures exists m :: Quiet(m) && Enabled(s, m)
  {
    var m := if s.phase == Loading then Load
             else if s.phase.Loaded? then Start
             else if s.phase == Stopping then (if s.live > 0 then StackEnds else Restart)
             else if s.phase == Ending then (if s.live > 0 then StackEnds else End)
             else Stop;
    assert Quiet(m) && Enabled(s, m);
  }
}
