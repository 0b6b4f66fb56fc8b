/**
 What the rules do to packets. RouterOS applies a rule that is not disabled to the packets of its
 chain that agree with all matchers that it has; a dst-nat rule gives them a new destination. The
 hooks of cmd/awgproxy/main.go are to divert the WireGuard traffic and nothing else.
 */
module Traffic {
  import opened Wrappers
  import opened NatRules
  import opened Reconcilers
  import opened DivertHooks
  import Decimal

  /** A packet as the NAT rules see it: on its way out of the router ("output") or in ("dstnat"). */
  datatype Packet = Packet(chain: string, protocol: string, srcPort: nat, dst: Addr, dstPort: nat)

  /** An absent matcher takes every packet. */
  predicate Selects(f: Fields, key: string, value: string) { Get(f, key) == "" || Get(f, key) == value }

  predicate Enabled(f: Fields) { Get(f, "disabled") == "" || Get(f, "disabled") == "false" }

  predicate Takes(f: Fields, p: Packet)
  {
    && Enabled(f) && Get(f, "chain") == p.chain
    && Selects(f, "protocol", p.protocol)
    && Selects(f, "src-port", Port(p.srcPort)) && Selects(f, "dst-port", Port(p.dstPort))
    && Selects(f, "dst-address", Shown(p.dst))
  }

  /** Where a table with these own rules, in order, sends a packet of its family; none if it lets it be. */
  function Diverted(own: seq<Fields>, p: Packet): Option<(string, string)>
  {
    if own == [] then None
    else if Takes(own[0], p) && Get(own[0], "action") == "dst-nat" then
      Some((Get(own[0], if p.dst.Is6() then "to-address" else "to-addresses"), Get(own[0], "to-ports")))
    else Diverted(own[1..], p)
  }

  /** The new destination: the address in the form of the table, and the port. */
  function Into(a: Addr, port: int): Option<(string, string)> { Some((Shown(a), Port(port))) }

  lemma OnlyRule(f: Fields, p: Packet)
    ensures Diverted([f], p) ==
            if Takes(f, p) && Get(f, "action") == "dst-nat"
            then Some((Get(f, if p.dst.Is6() then "to-address" else "to-addresses"), Get(f, "to-ports")))
            else None
  {
    hide Takes;
    assert [f][1..] == [];
  }

  // ----- one rule ---------------------------------------------------------------------------------

  /** The constant fields of a divert rule. */
  lemma DivertConstants(w: DivertRule, marker: string)
    ensures var f := DivertFields(w, marker);
      && f.Keys >= {"chain", "protocol", "action", "disabled", "dst-port", "to-ports"}
      && f["protocol"] == "udp" && f["action"] == "dst-nat" && f["disabled"] == "false"
      && ("src-port" in f <==> w.chain == OUTPUT) && ("dst-address" in f <==> w.chain == OUTPUT)
      && (if w.toAddress.Is6() then "to-address" in f else "to-addresses" in f)
  {
  }

  lemma SamePort(a: int, b: nat)
    requires !BadPort(a)
    ensures Port(a) == Port(b) <==> a == b
  {
    if Port(a) == Port(b) {
      Decimal.PrintInjective(a, b);
    }
  }

  lemma SameShown(a: Addr, b: Addr)
    requires a.IsValid() && b.IsValid() && a.Is6() == b.Is6()
    ensures Shown(a) == Shown(b) <==> a.Unzoned() == b.Unzoned()
  {
    SameAddress(a, b);
  }

  /** Which packets an output rule takes, however many other fields it has besides the wanted ones. */
  lemma OutputRule(f: Fields, w: DivertRule, marker: string, p: Packet)
    requires Valid(w) && w.chain == OUTPUT && Holds([f], DivertFields(w, marker))
    requires p.dst.IsValid() && p.dst.Is6() == w.toAddress.Is6()
    ensures Diverted([f], p) ==
            if p.chain == OUTPUT && p.protocol == "udp" && p.srcPort == w.srcPort && p.dstPort == w.dstPort
               && p.dst.Unzoned() == w.dstAddress.Unzoned()
            then Into(w.toAddress, w.toPort) else None
  {
    var want := DivertFields(w, marker);
    FieldValues(w, marker);
    DivertConstants(w, marker);
    hide DivertFields;
    assert forall k :: k in want ==> Get(f, k) == Get(want, k);
    hide Holds;
    OnlyRule(f, p);
    SamePort(w.srcPort, p.srcPort);
    SamePort(w.dstPort, p.dstPort);
    SameShown(w.dstAddress, p.dst);
    hide Port, Shown;
  }

  /** A dstnat rule with exactly the wanted fields. */
  lemma DstnatRule(w: DivertRule, marker: string, p: Packet)
    requires Valid(w) && w.chain == DSTNAT && p.dst.IsValid() && p.dst.Is6() == w.toAddress.Is6()
    ensures Diverted([DivertFields(w, marker)], p) ==
            if p.chain == DSTNAT && p.protocol == "udp" && p.dstPort == w.dstPort then Into(w.toAddress, w.toPort)
            else None
  {
    var f := DivertFields(w, marker);
    FieldValues(w, marker);
    DivertConstants(w, marker);
    hide DivertFields;
    OnlyRule(f, p);
    SamePort(w.dstPort, p.dstPort);
    hide Port, Shown;
  }

  // ----- the client hook ----------------------------------------------------------------------------

  /** Addresses of the right families and real ports. */
  predicate Sound(c: Settings, snap: Snapshot)
  {
    && c.container.Ip4? && !c.container6.Ip4? && !BadPort(c.toPort)
    && (snap.upstream.Some? && snap.wgListenPort != 0 ==>
          snap.upstream.value.addr.IsValid() && !BadPort(snap.upstream.value.port) && !BadPort(snap.wgListenPort))
  }

  /** A packet from the router's WireGuard socket to the upstream. */
  predicate IsTunnel(p: Packet, snap: Snapshot)
  {
    && snap.upstream.Some? && snap.wgListenPort != 0
    && p.chain == "output" && p.protocol == "udp" && p.srcPort == snap.wgListenPort
    && p.dst.Unzoned() == snap.upstream.value.addr.Unzoned() && p.dstPort == snap.upstream.value.port
  }

  lemma SoundIsProper(c: Settings, snap: Snapshot)
    requires Sound(c, snap)
    ensures Proper(c, snap)
  {
  }

  /**
   After any run with any failing calls, a tick without failures, if the history is not dirty,
   diverts exactly the packets from the WireGuard port to the upstream, to the container's address
   of their family and its port; nothing if there is no upstream or no such address.
   */
  lemma ExactlyTheTunnelIsDiverted(c: Settings, start: State, run: seq<Event>, p: Packet)
    requires start.last == None && run != [] && run[|run| - 1].FaultFree() && !Dirty(c, run)
    requires (forall i :: 0 <= i < |run| ==> Sound(c, run[i].snap)) && p.dst.IsValid()
    ensures var container := if p.dst.Is6() then c.container6 else c.container;
            Diverted(After(c, start, run).Own(p.dst.Is6()), p) ==
            if IsTunnel(p, run[|run| - 1].snap) && container.IsValid() then Into(container, c.toPort) else None
  {
    hide Good, Dirty, After, Diverted, Proper, Sound;
    forall i | 0 <= i < |run| ensures Proper(c, run[i].snap) { SoundIsProper(c, run[i].snap); }
    TickIsGoodIffClean(c, start, run);
    GoodDiverts(c, After(c, start, run), run[|run| - 1].snap, p);
  }

  lemma GoodDiverts(c: Settings, s: State, snap: Snapshot, p: Packet)
    requires Sound(c, snap) && Good(c, s, snap) && p.dst.IsValid()
    ensures var container := if p.dst.Is6() then c.container6 else c.container;
            Diverted(s.Own(p.dst.Is6()), p) ==
            if IsTunnel(p, snap) && container.IsValid() then Into(container, c.toPort) else None
  {
    SoundIsProper(c, snap);
    var own := s.Own(p.dst.Is6());
    hide Holds, DivertFields, Diverted, Takes;
    assert Diverted([], p) == None by { NoRule(p); }
    if snap.HasUpstream() && p.dst.Is6() == snap.Six() && c.Target(snap.Six()).IsValid() {
      OneRule(own, c.WantFields(snap));
      OutputRule(own[0], c.Want(snap), c.marker, p);
    }
  }

  lemma NoRule(p: Packet)
    ensures Diverted([], p) == None
  {
  }

  lemma OneRule(own: seq<Fields>, want: Fields)
    requires Holds(own, want)
    ensures own == [own[0]]
  {
  }

  // ----- the server hook ----------------------------------------------------------------------------

  /** Every rule has exactly the fields of some valid rule of the table's family. */
  ghost predicate CleanFields(own: seq<Fields>, marker: string, six: bool)
  {
    forall f :: f in own ==> exists w :: Valid(w) && w.toAddress.Is6() == six && f == DivertFields(w, marker)
  }

  /** What a failing call leaves is such that this stays so. */
  lemma ExplainedStaysClean(before: seq<Fields>, after: seq<Fields>, want: DivertRule, marker: string)
    requires Valid(want) && FieldsExplained(before, after, DivertFields(want, marker))
    requires CleanFields(before, marker, want.toAddress.Is6())
    ensures CleanFields(after, marker, want.toAddress.Is6())
  {
    hide DivertFields, Valid;
    var six := want.toAddress.Is6();
    forall f | f in after ensures exists w :: Valid(w) && w.toAddress.Is6() == six && f == DivertFields(w, marker) {
      if f !in before && f != DivertFields(want, marker) {
        var g :| g in before && f == g + DivertFields(want, marker)
                 && Get(g, "chain") == Get(DivertFields(want, marker), "chain");
        UpdatedIsWanted(g, want, marker);
      }
    }
  }

  lemma UpdatedIsWanted(g: Fields, want: DivertRule, marker: string)
    requires Valid(want) && CleanFields([g], marker, want.toAddress.Is6())
    requires Get(g, "chain") == Get(DivertFields(want, marker), "chain")
    ensures g + DivertFields(want, marker) == DivertFields(want, marker)
  {
    assert g in [g];
    hide DivertFields, Valid;
    var w :| Valid(w) && w.toAddress.Is6() == want.toAddress.Is6() && g == DivertFields(w, marker);
    SetLeavesNothing(w, want, marker);
    ChainField(w, marker);
    ChainField(want, marker);
  }

  lemma UpheldIsWanted(own: seq<Fields>, want: DivertRule, marker: string)
    requires Valid(want) && CleanFields(own, marker, want.toAddress.Is6())
    ensures Upheld(own, want, marker) == [DivertFields(want, marker)]
  {
    hide DivertFields, Valid;
    if own != [] && Get(own[0], "chain") == Get(DivertFields(want, marker), "chain") {
      assert own[0] in own;
      UpdatedIsWanted(own[0], want, marker);
    }
  }

  /** What failing calls leave behind is explained by the tables before the tick, as the hook guarantees. */
  ghost predicate Explainable(c: ServerSettings, s: ServerState, e: ServerEvent)
  {
    && (e.leaves4.Some? ==> FieldsExplained(s.own4, e.leaves4.value, DivertFields(c.want, c.marker)))
    && (e.leaves6.Some? ==> FieldsExplained(s.own6, e.leaves6.value, DivertFields(c.want6, c.marker)))
  }

  ghost predicate AllExplainable(c: ServerSettings, start: ServerState, run: seq<ServerEvent>)
  {
    forall i :: 0 <= i < |run| ==> Explainable(c, ServerAfter(c, start, run[..i]), run[i])
  }

  ghost predicate Clean46(c: ServerSettings, s: ServerState)
  {
    CleanFields(s.own4, c.marker, false) && CleanFields(s.own6, c.marker, true)
  }

  predicate RightFamilies(c: ServerSettings) { !c.want.toAddress.Is6() && (c.UsesSix() ==> c.want6.toAddress.Is6()) }

  lemma ServerTickStaysClean(c: ServerSettings, s: ServerState, e: ServerEvent)
    requires c.Proper() && RightFamilies(c) && Clean46(c, s) && Explainable(c, s, e)
    ensures Clean46(c, ServerTick(c, s, e))
  {
    hide DivertFields, Valid, FieldsExplained;
    LeftIsClean(s.own4, e.leaves4, c.want, c.marker);
    if c.UsesSix() {
      LeftIsClean(s.own6, e.leaves6, c.want6, c.marker);
    } else {
      assert forall f :: f in Leftover(s.own6, e.failsAfter) ==> f in s.own6;
    }
  }

  lemma LeftIsClean(own: seq<Fields>, leaves: Option<seq<Fields>>, want: DivertRule, marker: string)
    requires Valid(want) && CleanFields(own, marker, want.toAddress.Is6())
    requires leaves.Some? ==> FieldsExplained(own, leaves.value, DivertFields(want, marker))
    ensures CleanFields(leaves.GetOr(Upheld(own, want, marker)), marker, want.toAddress.Is6())
  {
    if leaves.Some? {
      ExplainedStaysClean(own, leaves.value, want, marker);
    } else {
      UpheldIsWanted(own, want, marker);
      var six, rule := want.toAddress.Is6(), DivertFields(want, marker);
      hide DivertFields, Valid;
      assert CleanFields([rule], marker, six);
    }
  }

  lemma {:induction false} ServerStaysClean(c: ServerSettings, start: ServerState, run: seq<ServerEvent>)
    requires c.Proper() && RightFamilies(c) && Clean46(c, start) && AllExplainable(c, start, run)
    ensures Clean46(c, ServerAfter(c, start, run))
  {
    hide Clean46, Explainable, RightFamilies;
    if run == [] {
    } else {
      var n := |run| - 1;
      forall i | 0 <= i < n ensures Explainable(c, ServerAfter(c, start, run[..n][..i]), run[..n][i]) {
        assert run[..n][..i] == run[..i];
      }
      ServerStaysClean(c, start, run[..n]);
      ServerTickStaysClean(c, ServerAfter(c, start, run[..n]), run[n]);
    }
  }

  /**
   After any run with any failing calls, from tables whose own rules this program made, a tick
   without failures diverts exactly the UDP packets that come in for `dstPort`, to the container's
   address of their family and its port; those of IPv6 only if there is such an address.
   */
  lemma ExactlyThePublicPortIsDiverted(marker: string, container: Addr, container6: Addr, dstPort: int, toPort: int,
      start: ServerState, run: seq<ServerEvent>, p: Packet)
    requires container.Ip4? && !container6.Ip4? && !BadPort(dstPort) && !BadPort(toPort) && p.dst.IsValid()
    requires var c := ServerRules(marker, container, container6, dstPort, toPort);
             Clean46(c, start) && !start.cleaned6 && AllExplainable(c, start, run)
    requires run != [] && run[|run| - 1].FaultFree()
    ensures var s := ServerAfter(ServerRules(marker, container, container6, dstPort, toPort), start, run);
            var target := if p.dst.Is6() then container6 else container;
            Diverted(if p.dst.Is6() then s.own6 else s.own4, p) ==
            if p.chain == "dstnat" && p.protocol == "udp" && p.dstPort == dstPort && target.IsValid()
            then Into(target, toPort) else None
  {
    var c := ServerRules(marker, container, container6, dstPort, toPort);
    assert c.Proper() && RightFamilies(c);
    ServerTables(c, start, run);
    hide Diverted, DivertFields, Clean46, AllExplainable, ServerAfter;
    NoRule(p);
    if !p.dst.Is6() {
      DstnatRule(c.want, marker, p);
    } else if container6.IsValid() {
      DstnatRule(c.want6, marker, p);
    }
  }

  /** From clean tables a tick without failures leaves exactly the wanted fields. */
  lemma ServerTables(c: ServerSettings, start: ServerState, run: seq<ServerEvent>)
    requires c.Proper() && RightFamilies(c) && Clean46(c, start) && !start.cleaned6 && AllExplainable(c, start, run)
    requires run != [] && run[|run| - 1].FaultFree()
    ensures ServerAfter(c, start, run).own4 == [DivertFields(c.want, c.marker)]
    ensures ServerAfter(c, start, run).own6 == if c.UsesSix() then [DivertFields(c.want6, c.marker)] else []
  {
    hide DivertFields, Upheld, Explainable;
    var n := |run| - 1;
    var before := ServerAfter(c, start, run[..n]);
    forall i | 0 <= i < n ensures Explainable(c, ServerAfter(c, start, run[..n][..i]), run[..n][i]) {
      assert run[..n][..i] == run[..i];
    }
    ServerStaysClean(c, start, run[..n]);
    UpheldIsWanted(before.own4, c.want, c.marker);
    if c.UsesSix() {
      UpheldIsWanted(before.own6, c.want6, c.marker);
    } else {
      ServerRunsAreGood(c, start, run);
    }
  }

  // ----- masquerading -------------------------------------------------------------------------------

  /** The network whose packets a rule masquerades on their way out, none if it does nothing of the kind. */
  function Masquerades(f: Fields): Option<string>
  {
    if Enabled(f) && Get(f, "chain") == "srcnat" && Get(f, "action") == "masquerade" then Some(Get(f, "src-address"))
    else None
  }

  /** A settled table masquerades exactly the wanted network. */
  lemma ExactlyTheNetworkIsMasqueraded(rows: seq<Row>, marker: string, network: Text)
    requires Settled(rows, marker, MasqueradeFields(network, marker))
    ensures |Own(rows, marker)| == 1 && Masquerades(Own(rows, marker)[0].fields) == Some(network)
  {
    var want := MasqueradeFields(network, marker);
    assert want.Keys == {"chain", "action", "src-address", "comment", "disabled"};
    hide Own;
    var r := Own(rows, marker)[0];
    assert forall k :: k in want ==> Get(r.fields, k) == want[k];
  }
}
