/**
 NAT rules: what a reconciler wants (internal/router/nat.go) and the rule tables of a router.
 A rule is its id and its fields; an absent field reads as "".
 */
module NatRules {
  import Decimal

  type Fields = map<string, string>
  datatype Row = Row(id: nat, fields: Fields)

  function Get(f: Fields, k: string): string { if k in f then f[k] else "" }

  // ----- wanted rules -----------------------------------------------------------

  /** The printed form of a valid address is not empty. */
  type Text = s: string | s != "" witness "0.0.0.0"

  /** netip.Addr: the zero value or an address with its printed form, of IPv6 without the zone. */
  datatype Addr = NoAddr | Ip4(text: Text) | Ip6(text: Text, zone: string)
  {
    predicate IsValid() { !NoAddr? }
    predicate Is6() { Ip6? }
    function Unzoned(): Addr { if Ip6? then Ip6(text, "") else this }
    function String(): Text
    {
      if NoAddr? then "invalid IP" else if Ip6? && zone != "" then text + "%" + zone else text
    }
    /** netip.PrefixFrom(a, 128).String(): without the zone, and not a prefix at all of IPv4. */
    function Prefix128(): Text { if Ip6? then text + "/128" else "invalid Prefix" }
  }

  const OUTPUT := "output"
  const DSTNAT := "dstnat"

  datatype DivertRule = DivertRule(chain: string, srcPort: int, dstAddress: Addr, dstPort: int, toAddress: Addr,
      toPort: int)

  datatype RuleError =
    BadSrcPort | BadDstAddress | MixedFamilies | BadChain | BadDstPort | BadToAddress | BadToPort

  predicate BadPort(p: int) { p <= 0 || p > 65535 }

  datatype Verdict = Accepted | Rejected(error: RuleError)

  /** DivertRule.validate, in its order of checks. */
  function Validate(r: DivertRule): (v: Verdict)
    ensures v.Accepted? <==> Valid(r)
  {
    if r.chain == OUTPUT && BadPort(r.srcPort) then Rejected(BadSrcPort)
    else if r.chain == OUTPUT && !r.dstAddress.IsValid() then Rejected(BadDstAddress)
    else if r.chain == OUTPUT && r.dstAddress.Is6() != r.toAddress.Is6() then Rejected(MixedFamilies)
    else if r.chain != OUTPUT && r.chain != DSTNAT then Rejected(BadChain)
    else if BadPort(r.dstPort) then Rejected(BadDstPort)
    else if !r.toAddress.IsValid() then Rejected(BadToAddress)
    else if BadPort(r.toPort) then Rejected(BadToPort)
    else Accepted
  }

  /** A rule RouterOS can hold: complete, of one address family, with real ports. */
  predicate Valid(r: DivertRule)
  {
    && r.toAddress.IsValid() && !BadPort(r.dstPort) && !BadPort(r.toPort)
    && (|| r.chain == DSTNAT
        || (r.chain == OUTPUT && !BadPort(r.srcPort) && r.dstAddress.IsValid()
            && r.dstAddress.Is6() == r.toAddress.Is6()))
  }

  /** strconv.Itoa of a validated port. */
  function Port(p: int): string { if p < 0 then "-" + Decimal.Print(-p) else Decimal.Print(p) }

  /** DivertRule.fields and the comment that marks the rule as ours. */
  function DivertFields(r: DivertRule, marker: string): Fields
  {
    var f := map["chain" := r.chain, "protocol" := "udp", "action" := "dst-nat",
                 "dst-port" := Port(r.dstPort), "to-addresses" := r.toAddress.String(),
                 "to-ports" := Port(r.toPort), "disabled" := "false"];
    var g := if r.chain == OUTPUT
             then f["src-port" := Port(r.srcPort)]["dst-address" := r.dstAddress.String()] else f;
    var h := if !r.toAddress.Is6() then g
             else
               var v6 := (g - {"to-addresses"})["to-address" := r.toAddress.Prefix128()];
               if r.chain == OUTPUT then v6["dst-address" := r.dstAddress.Prefix128()] else v6;
    h["comment" := marker]
  }

  /** The masquerade rule for a network. */
  function MasqueradeFields(network: Text, marker: string): Fields
  {
    map["chain" := "srcnat", "action" := "masquerade", "src-address" := network,
        "comment" := marker, "disabled" := "false"]
  }

  function DivertMarker(iface: string): string { "awgproxy-divert:" + iface }

  function MasqueradeMarker(iface: string): string { "awgproxy-masquerade:" + iface }

  /** Markers of different interfaces or different kinds of rules never coincide. */
  lemma MarkersAreDistinct(a: string, b: string)
    ensures DivertMarker(a) == DivertMarker(b) <==> a == b
    ensures MasqueradeMarker(a) == MasqueradeMarker(b) <==> a == b
    ensures DivertMarker(a) != MasqueradeMarker(b)
  {
    assert DivertMarker(a)[16..] == a && DivertMarker(b)[16..] == b;
    assert MasqueradeMarker(a)[20..] == a && MasqueradeMarker(b)[20..] == b;
    assert DivertMarker(a)[9] != MasqueradeMarker(b)[9];
  }

  /** Fields that the reconcilers read back from a rule, and so can compare. */
  const DIVERT_KEYS := {"chain", "protocol", "action", "src-port", "dst-address", "dst-port",
                        "to-addresses", "to-ports", "comment", "disabled", "to-address"}
  const MASQUERADE_KEYS := {"chain", "action", "src-address", "comment", "disabled"}

  /** A wanted field map: marked, without empty values, made of comparable fields. */
  predicate Wanted(want: Fields, marker: string, keys: set<string>)
  {
    && "comment" in want && want["comment"] == marker
    && "chain" in want
    && want.Keys <= keys
    && forall k :: k in want ==> want[k] != ""
  }

  lemma DivertWanted(r: DivertRule, marker: string)
    requires Valid(r) && marker != ""
    ensures Wanted(DivertFields(r, marker), marker, DIVERT_KEYS)
    ensures DivertFields(r, marker)["chain"] == r.chain
  {
  }

  /** Two valid rules have the same fields exactly when, but for IPv6 zones, they divert the same traffic alike. */
  lemma FieldsDetermineRule(a: DivertRule, b: DivertRule, marker: string)
    requires Valid(a) && Valid(b)
    ensures DivertFields(a, marker) == DivertFields(b, marker) <==>
              && a.chain == b.chain && a.dstPort == b.dstPort && a.toPort == b.toPort
              && a.toAddress.Unzoned() == b.toAddress.Unzoned()
              && (a.chain == OUTPUT ==> a.srcPort == b.srcPort && a.dstAddress.Unzoned() == b.dstAddress.Unzoned())
  {
    if DivertFields(a, marker) == DivertFields(b, marker) {
      FieldValues(a, marker);
      FieldValues(b, marker);
      hide DivertFields, Port;
      PortInjective(a.dstPort, b.dstPort);
      PortInjective(a.toPort, b.toPort);
      SameAddress(a.toAddress, b.toAddress);
      if a.chain == OUTPUT {
        PortInjective(a.srcPort, b.srcPort);
        SameAddress(a.dstAddress, b.dstAddress);
      }
    }
  }

  /** How a field shows an address. */
  function Shown(a: Addr): Text { if a.Is6() then a.Prefix128() else a.String() }

  lemma FieldValues(r: DivertRule, marker: string)
    requires Valid(r)
    ensures var f := DivertFields(r, marker);
      && Get(f, "chain") == r.chain && Get(f, "dst-port") == Port(r.dstPort) && Get(f, "to-ports") == Port(r.toPort)
      && ("to-address" in f <==> r.toAddress.Is6())
      && Get(f, if r.toAddress.Is6() then "to-address" else "to-addresses") == Shown(r.toAddress)
      && (r.chain == OUTPUT ==> Get(f, "src-port") == Port(r.srcPort) && Get(f, "dst-address") == Shown(r.dstAddress))
  {
  }

  lemma PortInjective(a: int, b: int)
    requires !BadPort(a) && !BadPort(b)
    ensures Port(a) == Port(b) ==> a == b
  {
    if Port(a) == Port(b) {
      Decimal.PrintInjective(a, b);
    }
  }

  lemma SameAddress(a: Addr, b: Addr)
    requires a.IsValid() && b.IsValid() && a.Is6() == b.Is6()
    ensures Shown(a) == Shown(b) ==> a.Unzoned() == b.Unzoned()
  {
    if Shown(a) == Shown(b) && a.Is6() {
      SuffixInjective(a.text, b.text, "/128");
    }
  }

  lemma SuffixInjective(a: string, b: string, suffix: string)
    requires a + suffix == b + suffix
    ensures a == b
  {
    assert (a + suffix)[..|a|] == a && (b + suffix)[..|a|] == b;
  }

  /** diffFields: the wanted fields whose value differs from what the rule shows. */
  function Diff(got: Fields, want: Fields): (d: Fields)
  {
    map k | k in want && Get(got, k) != want[k] :: want[k]
  }

  /** Applying the difference makes the rule agree on every wanted field and keeps all others. */
  lemma DiffConverges(got: Fields, want: Fields)
    requires forall k :: k in want ==> want[k] != ""
    ensures got + Diff(got, want) == got + want
    ensures Diff(got, want) == map[] <==> got == got + want
  {
    assert forall k :: k in want && k !in Diff(got, want) ==> k in got && got[k] == want[k];
    if got == got + want {
      assert forall k :: k in want ==> (got + want)[k] == want[k];
    }
    if Diff(got, want) == map[] {
      assert got + Diff(got, want) == got;
    }
  }

  // ----- rule tables ----------------------------------------------------------------

  predicate IsOwn(r: Row, marker: string) { Get(r.fields, "comment") == marker }

  function Own(rows: seq<Row>, marker: string): (own: seq<Row>)
    ensures forall r :: r in own <==> r in rows && IsOwn(r, marker)
  {
    if rows == [] then []
    else if IsOwn(rows[0], marker) then [rows[0]] + Own(rows[1..], marker)
    else Own(rows[1..], marker)
  }

  function Foreign(rows: seq<Row>, marker: string): (f: seq<Row>)
    ensures forall r :: r in f <==> r in rows && !IsOwn(r, marker)
  {
    if rows == [] then []
    else if IsOwn(rows[0], marker) then Foreign(rows[1..], marker)
    else [rows[0]] + Foreign(rows[1..], marker)
  }

  function Drop(rows: seq<Row>, ids: set<nat>): (out: seq<Row>)
    ensures forall r :: r in out <==> r in rows && r.id !in ids
  {
    if rows == [] then []
    else if rows[0].id in ids then Drop(rows[1..], ids)
    else [rows[0]] + Drop(rows[1..], ids)
  }

  function Update(rows: seq<Row>, id: nat, diff: Fields): (out: seq<Row>)
    ensures |out| == |rows|
    ensures forall i :: 0 <= i < |rows| ==>
              out[i] == if rows[i].id == id then Row(id, rows[i].fields + diff) else rows[i]
  {
    seq(|rows|, i requires 0 <= i < |rows| =>
          if rows[i].id == id then Row(id, rows[i].fields + diff) else rows[i])
  }

  function Ids(rows: seq<Row>): (s: set<nat>) { set r | r in rows :: r.id }

  /** A router table: its rules in order, ids unique and never used again. */
  datatype Table = Table(rows: seq<Row>, next: nat)

  predicate WellFormed(t: Table)
  {
    && (forall i :: 0 <= i < |t.rows| ==> t.rows[i].id < t.next)
    && (forall i, j :: 0 <= i < j < |t.rows| ==> t.rows[i].id != t.rows[j].id)
  }
}
