/**
 What the supervisor's restarts leave on the routers (cmd/awgproxy/main.go): before each start it
 may remove the rules that the previous configuration marked. The rules of a configuration sit on
 the router of its address, marked with its interface.
 */
module Restarts {
  import opened Wrappers

  /** The address of a router and the interface that marks the rules on it. */
  datatype Site = Site(address: string, iface: string)

  /** The part of the router settings that decides about rules. */
  datatype RouterConfig = RouterConfig(address: string, password: string, iface: string)
  {
    function At(): Site { Site(address, iface) }

    /** Rules can be installed: the dialer refuses an empty address only, the poller an unknown interface. */
    predicate Owns() { address != "" && iface != "" }
  }

  /**
   A started configuration; `cleaned` tells whether the removal before it, if it is tried, succeeds
   completely, and `first` whether it is the first of its process, which knows of none before.
   */
  datatype Start = Start(config: RouterConfig, cleaned: bool, first: bool)

  /** cleanupStaleRules: whether the rules of the previous configuration are removed before the start. */
  predicate Cleans(prev: RouterConfig, next: RouterConfig)
  {
    prev.iface != "" && prev.iface != next.iface && prev.address != "" && prev.password != ""
  }

  /** Sites that may hold rules after these starts. */
  function Left(starts: seq<Start>): set<Site>
  {
    if starts == [] then {}
    else
      var n := |starts| - 1;
      var before := Left(starts[..n]);
      var kept := if CleanDeparture(starts, n - 1) then before - {starts[n - 1].config.At()} else before;
      if starts[n].config.Owns() then kept + {starts[n].config.At()} else kept
  }

  /** The start after the i-th one removes its rules. */
  predicate CleanDeparture(starts: seq<Start>, i: int)
  {
    && 0 <= i < |starts| - 1 && !starts[i + 1].first
    && Cleans(starts[i].config, starts[i + 1].config) && starts[i + 1].cleaned
  }

  /** The starts of one process. */
  predicate Process(starts: seq<Start>)
  {
    forall i :: 0 <= i < |starts| ==> (starts[i].first <==> i == 0)
  }

  lemma LeftStep(before: seq<Start>, next: Start)
    ensures var sites := Left(before);
            var kept :=
              if before != [] && !next.first && Cleans(before[|before| - 1].config, next.config) && next.cleaned
              then sites - {before[|before| - 1].config.At()}
              else sites;
            Left(before + [next]) == if next.config.Owns() then kept + {next.config.At()} else kept
  {
    var starts := before + [next];
    assert starts[..|before|] == before;
  }

  /** supervise: a process keeps the previous configuration in a variable, and finds what earlier ones left. */
  method Supervise(past: seq<Start>, starts: seq<Start>, found: set<Site>) returns (left: set<Site>)
    requires Process(starts) && found == Left(past)
    ensures left == Left(past + starts)
  {
    var prevRcfg: Option<RouterConfig> := None;
    left := found;
    assert past + starts[..0] == past;
    for i := 0 to |starts|
      invariant left == Left(past + starts[..i])
      invariant prevRcfg == if i == 0 then None else Some(starts[i - 1].config)
    {
      assert past + starts[..i + 1] == past + starts[..i] + [starts[i]];
      LeftStep(past + starts[..i], starts[i]);
      hide Left;
      var newRcfg := starts[i].config;
      if prevRcfg.Some? && Cleans(prevRcfg.value, newRcfg) && starts[i].cleaned {
        left := left - {prevRcfg.value.At()};
      }
      prevRcfg := Some(newRcfg);
      if newRcfg.Owns() { left := left + {newRcfg.At()}; }
    }
    assert starts[..|starts|] == starts;
  }

  // ----- what remains, from the configurations and the outcomes ---------------------------------------

  /** The i-th start is the last one at its site, and its rules can be there. */
  ghost predicate LastAt(starts: seq<Start>, i: nat)
  {
    && i < |starts| && starts[i].config.Owns()
    && forall j :: i < j < |starts| ==> starts[j].config.At() != starts[i].config.At()
  }

  /** The i-th start is the last one at site x, and x was not left with a completed removal. */
  ghost predicate Remains(starts: seq<Start>, x: Site, i: nat)
  {
    LastAt(starts, i) && starts[i].config.At() == x && !CleanDeparture(starts, i)
  }

  ghost predicate Stays(starts: seq<Start>, x: Site) { exists i: nat :: Remains(starts, x, i) }

  /** A site may hold rules exactly if its last start is the current one or was left without a completed removal. */
  lemma {:induction false} LeftIff(starts: seq<Start>, x: Site)
    ensures x in Left(starts) <==> Stays(starts, x)
  {
    if starts == [] {
    } else {
      var n := |starts| - 1;
      LeftIff(starts[..n], x);
      if starts[n].config.At() == x {
        assert starts[n].config.Owns() ==> Remains(starts, x, n);
      } else {
        RemainsStep(starts, x);
      }
    }
  }

  /** A start elsewhere ends what remains at x exactly if it comes right after x and the removal is completed. */
  lemma RemainsStep(starts: seq<Start>, x: Site)
    requires starts != [] && starts[|starts| - 1].config.At() != x
    ensures Stays(starts, x) <==>
              Stays(starts[..|starts| - 1], x)
              && !(CleanDeparture(starts, |starts| - 2) && starts[|starts| - 2].config.At() == x)
  {
    var n := |starts| - 1;
    var front := starts[..n];
    forall i: nat | i < n - 1 ensures Remains(starts, x, i) <==>
        Remains(front, x, i) && starts[n - 1].config.At() != x {
      assert LastAt(front, i) ==> front[n - 1].config.At() != front[i].config.At();
    }
    if n > 0 {
      assert Remains(starts, x, n - 1) <==> Remains(front, x, n - 1) && !CleanDeparture(starts, n - 1);
    }
  }

  /** Only the current configuration has rules anywhere. */
  predicate NoOrphans(starts: seq<Start>)
  {
    starts == [] || Left(starts) <= {starts[|starts| - 1].config.At()}
  }

  /**
   No rules are orphaned if and only if every site was left, the last time, by the same process, for
   another interface, with a password, and with a removal that succeeded.
   */
  lemma NoOrphansIff(starts: seq<Start>)
    ensures NoOrphans(starts) <==>
              forall i: nat :: i < |starts| - 1 && LastAt(starts, i) ==>
                && !starts[i + 1].first && starts[i + 1].config.iface != starts[i].config.iface
                && starts[i].config.password != "" && starts[i + 1].cleaned
  {
    if NoOrphans(starts) {
      forall i: nat | i < |starts| - 1 && LastAt(starts, i) ensures CleanDeparture(starts, i) {
        var x := starts[i].config.At();
        LeftIff(starts, x);
        assert x != starts[|starts| - 1].config.At();
        assert CleanDeparture(starts, i) || Remains(starts, x, i);
      }
    } else {
      var x :| x in Left(starts) && x != starts[|starts| - 1].config.At();
      LeftIff(starts, x);
      var i: nat :| Remains(starts, x, i);
      assert i < |starts| - 1 && LastAt(starts, i);
    }
  }

  /**
   On one router, with passwords, without failures, and with no other interface chosen while the
   program is down, no sequence of configurations orphans rules.
   */
  lemma OneRouterLeavesNoOrphans(starts: seq<Start>)
    requires forall i :: 0 <= i < |starts| ==> starts[i].config.password != "" && starts[i].cleaned
    requires forall i, j :: 0 <= i < j < |starts| ==> starts[i].config.address == starts[j].config.address
    requires forall i :: 0 <= i < |starts| - 1 && starts[i + 1].first ==>
               starts[i + 1].config.iface == starts[i].config.iface
    ensures NoOrphans(starts)
  {
    NoOrphansIff(starts);
    forall i: nat | i < |starts| - 1 && LastAt(starts, i)
      ensures starts[i + 1].config.iface != starts[i].config.iface && !starts[i + 1].first
    {
      assert starts[i + 1].config.At() != starts[i].config.At();
    }
  }

  // ----- the ways to orphan rules, for good ---------------------------------------------------------------

  /** No later start is at the site of `a` again. */
  predicate Never(later: seq<Start>, a: RouterConfig) { forall s :: s in later ==> s.config.At() != a.At() }

  /**
   Whatever came before and whatever comes later, short of a return to the site: without a completed
   removal by the very next start the rules are orphaned.
   */
  lemma LeavingOrphans(before: seq<Start>, s: Start, next: Start, later: seq<Start>)
    requires s.config.Owns() && Never([next] + later, s.config)
    ensures next.first || s.config.iface == next.config.iface || s.config.password == "" || !next.cleaned ==>
              !NoOrphans(before + [s] + [next] + later)
  {
    var starts := before + [s] + [next] + later;
    var n := |before|;
    assert starts[n] == s && starts[n + 1] == next;
    assert forall j :: n < j < |starts| ==> starts[j] == ([next] + later)[j - n - 1];
    assert LastAt(starts, n);
    NoOrphansIff(starts);
    hide NoOrphans;
  }

  /** Between two starts at different sites, that is exact. */
  lemma LeavingOrphansIff(s: Start, next: Start)
    requires s.config.Owns() && s.config.At() != next.config.At()
    ensures !NoOrphans([s, next]) <==>
              next.first || s.config.iface == next.config.iface || s.config.password == "" || !next.cleaned
  {
    assert LastAt([s, next], 0);
    NoOrphansIff([s, next]);
    hide NoOrphans;
  }

  /** Another address with the same interface: the rules stay on the old router, whatever is configured there later. */
  lemma AddressChangeOrphans(before: seq<Start>, s: Start, next: Start, later: seq<Start>)
    requires s.config.Owns() && s.config.iface == next.config.iface && s.config.address != next.config.address
    requires Never(later, s.config)
    ensures !NoOrphans(before + [s] + [next] + later)
  {
    LeavingOrphans(before, s, next, later);
    hide NoOrphans;
  }

  /** Another interface in the file while the program is down: the new process removes nothing. */
  lemma ProgramRestartOrphans(before: seq<Start>, s: Start, next: Start, later: seq<Start>)
    requires s.config.Owns() && next.first && Never([next] + later, s.config)
    ensures !NoOrphans(before + [s] + [next] + later)
  {
    LeavingOrphans(before, s, next, later);
    hide NoOrphans;
  }

  /** A configuration without password in between: its rules are taken for never installed. */
  lemma InterimConfigOrphans(before: seq<Start>, s: Start, blank: Start, later: seq<Start>)
    requires s.config.Owns() && blank.config == s.config.(password := "")
    requires later != [] && Never(later, s.config)
    ensures !NoOrphans(before + [s] + [blank] + later)
  {
    var next, rest := later[0], later[1..];
    assert [next] + rest == later;
    assert before + [s] + [blank] + later == before + [s] + [blank] + [next] + rest;
    LeavingOrphans(before + [s], blank, next, rest);
    hide NoOrphans;
  }
}
