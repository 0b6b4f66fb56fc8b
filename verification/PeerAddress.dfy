/**
 Addresses of peers (internal/api/web/peers.js): the token lists of `allowed_address`, the search
 for a conflict, and the suggestion of the next free host of the interface's subnet.
 */
module PeerAddresses {
  import opened Wrappers
  import opened Text
  import opened Addresses
  import opened Sequences
  import Bits
  import Decimal

  datatype Peer = Peer(id: string, allowedAddress: string)

  // ----- token lists -------------------------------------------------------------------------------

  /** Without the mask of a single host. */
  function WithoutHostMask(t: string): string
  {
    if EndsWith(t, "/32") && ':' !in t then t[..|t| - 3]
    else if EndsWith(t, "/128") && ':' in t then t[..|t| - 4]
    else t
  }

  function NormToken(x: string): string { WithoutHostMask(Lower(Trim(x))) }

  function NormTokens(parts: seq<string>): (tokens: seq<string>)
    ensures "" !in tokens
  {
    if parts == [] then [] else NormTokens(parts[..|parts| - 1]) + TokenOf(parts[|parts| - 1])
  }

  /** Empty parts are skipped. */
  function TokenOf(x: string): seq<string> { if NormToken(x) == "" then [] else [NormToken(x)] }

  function NormAddrTokens(s: string): (tokens: seq<string>)
    ensures "" !in tokens
  {
    if s == "" then [] else NormTokens(Split(s, ','))
  }

  lemma LastToken(front: seq<string>, last: string)
    ensures NormTokens(front + [last]) == NormTokens(front) + TokenOf(last)
  {
    hide TokenOf;
    var parts := front + [last];
    assert parts[..|parts| - 1] == front && parts[|parts| - 1] == last;
  }

  lemma {:induction false} TokensOfBoth(a: seq<string>, b: seq<string>)
    ensures NormTokens(a + b) == NormTokens(a) + NormTokens(b)
    decreases |b|
  {
    if b == [] {
      assert a + b == a;
      assert NormTokens(a) + [] == NormTokens(a);
    } else {
      hide NormTokens, TokenOf;
      var front, last := b[..|b| - 1], b[|b| - 1];
      TokensOfBoth(a, front);
      LastToken(a + front, last);
      LastToken(front, last);
      Unsnoc(a, b);
      Assoc(NormTokens(a), NormTokens(front), TokenOf(last));
    }
  }

  /** The tokens of two lists joined by a comma are those of both, in order. */
  lemma TokensOfLists(a: string, b: string)
    ensures NormAddrTokens(a + "," + b) == NormAddrTokens(a) + NormAddrTokens(b)
  {
    SplitBoth(a, b, ',');
    EmptyList();
    hide Split, NormTokens;
    TokensOfBoth(Split(a, ','), Split(b, ','));
  }

  lemma EmptyList()
    ensures NormTokens(Split("", ',')) == []
  {
    var none: seq<string> := [];
    assert [""][..0] == none && NormToken("") == "";
  }

  /** Blanks around an address and upper case do not matter. */
  lemma BlanksAndCaseIgnored(l: string, a: string, r: string)
    requires Trimmed(a) && a != "" && Spaces(l) && Spaces(r)
    ensures NormToken(l + a + r) == NormToken(a) == NormToken(Lower(a))
  {
    TrimPadded(l, a, r);
    LowerTwice(a);
    hide Trim, Lower;
  }

  /** An address without a mask and with the mask of a single host are the same token. */
  lemma HostMaskIgnored(a: string)
    requires Trimmed(a) && a != ""
    ensures ':' !in a ==> NormToken(a + "/32") == Lower(a)
    ensures ':' in a ==> NormToken(a + "/128") == Lower(a)
    ensures !EndsWith(Lower(a), "/32") && !EndsWith(Lower(a), "/128") ==> NormToken(a) == Lower(a)
  {
    LowerKeepsColons(a);
    MaskStays(a, "/32");
    MaskStays(a, "/128");
    MasksDrop(Lower(a));
    assert !EndsWith(Lower(a), "/32") && !EndsWith(Lower(a), "/128") ==> WithoutHostMask(Lower(a)) == Lower(a);
    hide Trim, Lower, WithoutHostMask, EndsWith;
  }

  lemma MasksDrop(t: string)
    ensures ':' !in t ==> WithoutHostMask(t + "/32") == t
    ensures ':' in t ==> WithoutHostMask(t + "/128") == t
  {
    var four, six := t + "/32", t + "/128";
    assert four[|four| - 3..] == "/32" && four[..|four| - 3] == t;
    assert six[|six| - 4..] == "/128" && six[..|six| - 4] == t;
  }

  lemma MaskStays(a: string, mask: string)
    requires Trimmed(a) && a != "" && (mask == "/32" || mask == "/128")
    ensures Lower(Trim(a + mask)) == Lower(a) + mask
  {
    assert Plain(mask) && !IsSpace(mask[|mask| - 1]);
    LowerConcat(a, mask);
    LowerPlain(mask);
    var s := a + mask;
    assert s[0] == a[0] && s[|s| - 1] == mask[|mask| - 1];
    hide Lower, Trim, IsSpace;
  }

  lemma LowerKeepsColons(a: string)
    ensures ':' in a <==> ':' in Lower(a)
  {
    hide Lower;
    assert forall i :: 0 <= i < |a| ==> (a[i] == ':' <==> Lower(a)[i] == ':');
  }

  // ----- conflicts ---------------------------------------------------------------------------------

  predicate Shares(addr: string, selfId: string, other: Peer, t: string)
  {
    && !(selfId != "" && other.id == selfId)
    && t in NormAddrTokens(addr) && t in NormAddrTokens(other.allowedAddress)
  }

  /** The first other peer that has a token of `addr`, and the first such token; an empty `selfId` excludes nobody. */
  method AddressConflict(addr: string, selfId: string, allPeers: seq<Peer>) returns (c: Option<(string, Peer)>)
    ensures c.None? <==> forall p, t :: p in allPeers ==> !Shares(addr, selfId, p, t)
    ensures c.Some? ==> c.value.1 in allPeers && Shares(addr, selfId, c.value.1, c.value.0)
    ensures c.Some? ==> exists i :: 0 <= i < |allPeers| && allPeers[i] == c.value.1
                          && forall j, t :: 0 <= j < i ==> !Shares(addr, selfId, allPeers[j], t)
  {
    hide NormAddrTokens;
    var mine := NormAddrTokens(addr);
    for i := 0 to |allPeers|
      invariant forall j, t :: 0 <= j < i ==> !Shares(addr, selfId, allPeers[j], t)
    {
      var other := allPeers[i];
      if selfId != "" && other.id == selfId { continue; }
      var theirs := NormAddrTokens(other.allowedAddress);
      for k := 0 to |mine|
        invariant forall l :: 0 <= l < k ==> mine[l] !in theirs
      {
        if mine[k] in theirs {
          assert Shares(addr, selfId, other, mine[k]);
          return Some((mine[k], other));
        }
      }
    }
    c := None;
  }

  // ----- the suggestion ----------------------------------------------------------------------------

  /** Addresses that the tokens of the peers name. */
  function QuadsIn(tokens: seq<string>): set<nat>
  {
    if tokens == [] then {}
    else QuadsIn(tokens[..|tokens| - 1]) + (var q := Quad(tokens[|tokens| - 1]); if q.Some? then {q.value} else {})
  }

  function Used(peers: seq<Peer>): set<nat>
  {
    if peers == [] then {}
    else Used(peers[..|peers| - 1]) + QuadsIn(NormAddrTokens(peers[|peers| - 1].allowedAddress))
  }

  /** The interface's own address and those of the peers. */
  function Unavailable(s: Subnet, peers: seq<Peer>): set<nat> { {s.ip} + Used(peers) }

  function LeastUnused(n: nat, bcast: nat, used: set<nat>): (r: Option<nat>)
    ensures r.Some? ==> n <= r.value < bcast && r.value !in used && forall k :: n <= k < r.value ==> k in used
    ensures r.None? ==> forall k :: n <= k < bcast ==> k in used
    decreases bcast - n
  {
    if n >= bcast then None
    else if n !in used then Some(n)
    else LeastUnused(n + 1, bcast, used)
  }

  function AsPeerAddress(n: Option<nat>): string { if n.None? then "" else Dotted(n.value) + "/32" }

  function HostIn(s: Subnet, peers: seq<Peer>): Option<nat>
  {
    LeastUnused(s.net + 1, s.bcast, Unavailable(s, peers))
  }

  function SuggestedHost(ifaceCIDR: string, peers: seq<Peer>): Option<nat>
  {
    var m := ReadSubnet(ifaceCIDR);
    if m.None? then None else HostIn(m.value, peers)
  }

  function Suggestion(ifaceCIDR: string, peers: seq<Peer>): string
  {
    AsPeerAddress(SuggestedHost(ifaceCIDR, peers))
  }

  method SuggestPeerAddress(ifaceCIDR: string, allPeers: seq<Peer>) returns (r: string)
    ensures r == Suggestion(ifaceCIDR, allPeers)
  {
    hide ReadSubnet, NormAddrTokens, Quad, Dotted;
    var m := ReadSubnet(ifaceCIDR);
    if m.None? { return ""; }
    var used: set<nat> := {m.value.ip};
    for i := 0 to |allPeers|
      invariant used == {m.value.ip} + Used(allPeers[..i])
    {
      var tokens := NormAddrTokens(allPeers[i].allowedAddress);
      ghost var before := used;
      for k := 0 to |tokens|
        invariant used == before + QuadsIn(tokens[..k])
      {
        assert tokens[..k + 1][..k] == tokens[..k];
        var mm := Quad(tokens[k]);
        if mm.Some? { used := used + {mm.value}; }
      }
      assert tokens[..|tokens|] == tokens;
      assert allPeers[..i + 1][..i] == allPeers[..i];
    }
    assert allPeers[..|allPeers|] == allPeers;
    var n := m.value.net + 1;
    while n < m.value.bcast
      invariant LeastUnused(n, m.value.bcast, used) == LeastUnused(m.value.net + 1, m.value.bcast, used)
    {
      if n !in used { return Dotted(n) + "/32"; }
      n := n + 1;
    }
    r := "";
  }

  // ----- what is suggested -------------------------------------------------------------------------

  /** Some token of a peer names the address `n`. */
  ghost predicate Taken(peers: seq<Peer>, n: nat)
  {
    exists p, t :: p in peers && t in NormAddrTokens(p.allowedAddress) && Quad(t) == Some(n)
  }

  /** A host of the subnet that neither the interface nor a peer has. */
  ghost predicate Free(s: Subnet, peers: seq<Peer>, n: nat)
  {
    s.net < n < s.bcast && n != s.ip && !Taken(peers, n)
  }

  ghost predicate FreeFor(ifaceCIDR: string, peers: seq<Peer>, n: nat)
  {
    ReadSubnet(ifaceCIDR).Some? && Free(ReadSubnet(ifaceCIDR).value, peers, n)
  }

  ghost predicate LeastFreeFor(ifaceCIDR: string, peers: seq<Peer>, n: nat)
  {
    FreeFor(ifaceCIDR, peers, n) && forall k: nat :: FreeFor(ifaceCIDR, peers, k) ==> n <= k
  }

  ghost predicate LeastFree(s: Subnet, peers: seq<Peer>, n: nat)
  {
    Free(s, peers, n) && forall k :: Free(s, peers, k) ==> n <= k
  }

  lemma {:induction false} QuadsInMeans(tokens: seq<string>, n: nat)
    ensures n in QuadsIn(tokens) <==> exists t :: t in tokens && Quad(t) == Some(n)
  {
    hide Quad;
    if tokens == [] {
    } else {
      var last := |tokens| - 1;
      QuadsInMeans(tokens[..last], n);
      assert tokens == tokens[..last] + [tokens[last]];
    }
  }

  lemma {:induction false} UsedMeans(peers: seq<Peer>, n: nat)
    ensures n in Used(peers) <==> Taken(peers, n)
  {
    hide Quad, NormAddrTokens, QuadsIn;
    if peers == [] {
    } else {
      var last := |peers| - 1;
      UsedMeans(peers[..last], n);
      QuadsInMeans(NormAddrTokens(peers[last].allowedAddress), n);
      assert peers == peers[..last] + [peers[last]];
    }
  }

  lemma SubnetIsBounded(ifaceCIDR: string)
    ensures ReadSubnet(ifaceCIDR).Some? ==> ReadSubnet(ifaceCIDR).value.bcast < 0x1_0000_0000
  {
    if ReadSubnet(ifaceCIDR).Some? {
      SubnetIsAlignedBlock(Cidr(ifaceCIDR).value.0, Cidr(ifaceCIDR).value.1);
    }
  }

  lemma FreeMeans(s: Subnet, peers: seq<Peer>, n: nat)
    ensures Free(s, peers, n) <==> s.net < n < s.bcast && n !in Unavailable(s, peers)
  {
    UsedMeans(peers, n);
    hide Used, Taken;
  }

  lemma SearchFindsLeastFree(s: Subnet, peers: seq<Peer>)
    ensures HostIn(s, peers).None? <==> forall n :: !Free(s, peers, n)
    ensures HostIn(s, peers).Some? ==> LeastFree(s, peers, HostIn(s, peers).value) && HostIn(s, peers).value < s.bcast
  {
    hide Free, Unavailable;
    forall n: nat ensures Free(s, peers, n) <==> s.net < n < s.bcast && n !in Unavailable(s, peers) {
      FreeMeans(s, peers, n);
    }
  }

  lemma AsPeerAddressInjective(a: nat, b: Option<nat>)
    requires a < 0x1_0000_0000 && (b.Some? ==> b.value < 0x1_0000_0000)
    ensures AsPeerAddress(Some(a)) == AsPeerAddress(b) <==> b == Some(a)
  {
    hide Quad, Dotted;
    DottedThenQuad(a);
    var d := Dotted(a);
    assert (d + "/32")[..|d + "/32"| - 3] == d;
    if b.Some? {
      DottedThenQuad(b.value);
      var e := Dotted(b.value);
      assert (e + "/32")[..|e + "/32"| - 3] == e;
    } else {
      assert |d + "/32"| > 0;
    }
  }

  /** The host suggested is the least free one; none is only if there is no subnet or no free host. */
  lemma SuggestedHostIsLeastFree(ifaceCIDR: string, peers: seq<Peer>)
    ensures var r := SuggestedHost(ifaceCIDR, peers);
            && (r.None? <==> forall n: nat :: !FreeFor(ifaceCIDR, peers, n))
            && (r.Some? ==> LeastFreeFor(ifaceCIDR, peers, r.value) && r.value < 0x1_0000_0000)
  {
    hide ReadSubnet, Free, HostIn;
    if ReadSubnet(ifaceCIDR).Some? {
      SubnetIsBounded(ifaceCIDR);
      SearchFindsLeastFree(ReadSubnet(ifaceCIDR).value, peers);
      var r := SuggestedHost(ifaceCIDR, peers);
      assert r.Some? ==> FreeFor(ifaceCIDR, peers, r.value);
    }
  }

  /** The text suggested is that of the smallest free host, whatever 32-bit address is compared. */
  lemma SuggestionIsLeastFree(ifaceCIDR: string, peers: seq<Peer>, n: nat)
    requires n < 0x1_0000_0000
    ensures Suggestion(ifaceCIDR, peers) == AsPeerAddress(Some(n)) <==> LeastFreeFor(ifaceCIDR, peers, n)
  {
    var r := SuggestedHost(ifaceCIDR, peers);
    SuggestedHostIsLeastFree(ifaceCIDR, peers);
    AsPeerAddressInjective(n, r);
    hide ReadSubnet, SuggestedHost, AsPeerAddress, FreeFor;
    assert LeastFreeFor(ifaceCIDR, peers, n) ==> FreeFor(ifaceCIDR, peers, n);
    if r.Some? {
      LeastFreeIsUnique(ifaceCIDR, peers, n, r.value);
    }
    hide LeastFreeFor;
  }

  lemma LeastFreeIsUnique(ifaceCIDR: string, peers: seq<Peer>, a: nat, b: nat)
    ensures LeastFreeFor(ifaceCIDR, peers, a) && LeastFreeFor(ifaceCIDR, peers, b) ==> a == b
  {
    hide FreeFor;
  }

  /** A host of the aligned block of 2^(32 - prefix) addresses around `ip` that is neither `ip` nor a peer's. */
  ghost predicate UnusedHost(ip: nat, prefix: nat, peers: seq<Peer>, n: nat)
    requires prefix <= 32
  {
    var low, size := ip % 0x1_0000_0000, Bits.Pow2(32 - prefix);
    low - low % size < n < low - low % size + size - 1 && n != ip && !Taken(peers, n)
  }

  /**
   For an address with a prefix length, something is suggested if and only if that is 8 to 30 and a host is
   unused.
   */
  lemma SuggestsIff(a: string, b: string, c: string, d: string, p: string, peers: seq<Peer>)
    requires Decimal.Numeral(a) && Decimal.Numeral(b) && Decimal.Numeral(c) && Decimal.Numeral(d) && Decimal.Numeral(p)
    ensures var ip := Combine(Decimal.Value(a), Decimal.Value(b), Decimal.Value(c), Decimal.Value(d));
            Suggestion(CidrText(a, b, c, d, p), peers) != "" <==>
              8 <= Decimal.Value(p) <= 30 && exists n: nat :: UnusedHost(ip, Decimal.Value(p), peers, n)
  {
    CidrOf(a, b, c, d, p);
    hide *;
    SuggestsForCidr(CidrText(a, b, c, d, p), peers);
  }

  lemma SuggestsForCidr(text: string, peers: seq<Peer>)
    ensures Cidr(text).Some? ==>
              var (ip, prefix) := Cidr(text).value;
              Suggestion(text, peers) != "" <==> 8 <= prefix <= 30 && exists n: nat :: UnusedHost(ip, prefix, peers, n)
  {
    if Cidr(text).Some? && 8 <= Cidr(text).value.1 <= 30 {
      var (ip, prefix) := Cidr(text).value;
      SuggestionWhileFree(text, peers);
      SuggestedHostIsLeastFree(text, peers);
      assert ReadSubnet(text) == Some(SubnetOf(ip, prefix));
      assert SuggestedHost(text, peers).Some? <==> exists n: nat :: FreeFor(text, peers, n);
      hide Cidr, SubnetOf, Suggestion, SuggestedHost, UnusedHost, LeastFreeFor, Free;
      forall n: nat ensures FreeFor(text, peers, n) <==> UnusedHost(ip, prefix, peers, n) {
        FreeIsUnused(ip, prefix, peers, n);
      }
    }
  }

  lemma FreeIsUnused(ip: nat, prefix: nat, peers: seq<Peer>, n: nat)
    requires 8 <= prefix <= 30
    ensures Free(SubnetOf(ip, prefix), peers, n) <==> UnusedHost(ip, prefix, peers, n)
  {
    assert SubnetOf(ip, prefix).ip == ip;
    hide SubnetOf, Taken, Bits.Pow2;
    SubnetIsAlignedBlock(ip, prefix);
  }

  /** For any other text nothing is suggested. */
  lemma OnlyNetworksSuggest(ifaceCIDR: string, peers: seq<Peer>)
    ensures Suggestion(ifaceCIDR, peers) == "" || exists a, b, c, d, p ::
              && Decimal.Numeral(a) && Decimal.Numeral(b) && Decimal.Numeral(c) && Decimal.Numeral(d)
              && Decimal.Numeral(p) && 8 <= Decimal.Value(p) <= 30 && ifaceCIDR == CidrText(a, b, c, d, p)
  {
    if Suggestion(ifaceCIDR, peers) != "" {
      assert Cidr(ifaceCIDR).Some? && 8 <= Cidr(ifaceCIDR).value.1 <= 30;
      hide *;
      CidrOnlyOf(ifaceCIDR);
    }
  }

  // ----- the suggestion as a peer's address ----------------------------------------------------------

  predicate Plain(s: string) { forall i :: 0 <= i < |s| ==> Decimal.IsDigit(s[i]) || s[i] == '.' || s[i] == '/' }

  lemma LowerPlain(s: string)
    requires Plain(s)
    ensures Lower(s) == s
  {
    assert forall i :: 0 <= i < |s| ==> Lower(s)[i] == s[i];
  }

  lemma DottedIsPlain(n: nat)
    ensures Plain(Dotted(n)) && Dotted(n) != ""
  {
    hide Decimal.Print, Bits.And, Bits.Shr;
  }

  lemma PlainToken(d: string)
    requires Plain(d) && d != ""
    ensures NormAddrTokens(d + "/32") == [d]
  {
    SplitNone(d + "/32", ',');
    PlainUnmasked(d);
    OneToken(d + "/32");
    hide *;
  }

  lemma PlainUnmasked(d: string)
    requires Plain(d) && d != ""
    ensures TokenOf(d + "/32") == [d]
  {
    var s := d + "/32";
    assert Plain(s) && Trimmed(s);
    LowerPlain(s);
    hide Lower, Trim;
    assert s[|s| - 3..] == "/32" && s[..|s| - 3] == d;
  }

  lemma OneToken(s: string)
    ensures s != "" && Split(s, ',') == [s] ==> NormAddrTokens(s) == TokenOf(s)
  {
    hide Split, TokenOf;
    LastToken([], s);
    assert [] + [s] == [s] && NormTokens([]) == [];
  }

  /** A suggestion never conflicts with any peer, whoever is excluded. */
  lemma SuggestionNeverConflicts(ifaceCIDR: string, peers: seq<Peer>, selfId: string, p: Peer, t: string)
    requires p in peers
    ensures !Shares(Suggestion(ifaceCIDR, peers), selfId, p, t)
  {
    hide ReadSubnet, Dotted, Quad, NormTokens, HostIn;
    if SuggestedHost(ifaceCIDR, peers).Some? {
      SuggestedHostIsLeastFree(ifaceCIDR, peers);
      var n := SuggestedHost(ifaceCIDR, peers).value;
      assert FreeFor(ifaceCIDR, peers, n);
      DottedThenQuad(n);
      DottedIsPlain(n);
      hide NormAddrTokens;
      PlainToken(Dotted(n));
    }
  }

  // ----- successive suggestions ------------------------------------------------------------------------

  ghost function FreeHosts(s: Subnet, peers: seq<Peer>): set<nat>
  {
    set n | s.net < n < s.bcast && Free(s, peers, n)
  }

  ghost function FreeHostsFor(ifaceCIDR: string, peers: seq<Peer>): (hosts: set<nat>)
    ensures forall n: nat :: n in hosts <==> FreeFor(ifaceCIDR, peers, n)
  {
    if ReadSubnet(ifaceCIDR).None? then {} else FreeHosts(ReadSubnet(ifaceCIDR).value, peers)
  }

  /** The list after peers with these ids are added one by one, each with the address suggested for it. */
  function Fill(ifaceCIDR: string, peers: seq<Peer>, ids: seq<string>): seq<Peer>
  {
    if ids == [] then peers
    else
      var before := Fill(ifaceCIDR, peers, ids[..|ids| - 1]);
      before + [Peer(ids[|ids| - 1], Suggestion(ifaceCIDR, before))]
  }

  lemma TakenByOneMore(peers: seq<Peer>, p: Peer, k: nat)
    ensures Taken(peers + [p], k) <==>
        Taken(peers, k) || exists t :: t in NormAddrTokens(p.allowedAddress) && Quad(t) == Some(k)
  {
    hide Quad, NormAddrTokens;
    if Taken(peers, k) {
      var q, t :| q in peers && t in NormAddrTokens(q.allowedAddress) && Quad(t) == Some(k);
      assert q in peers + [p];
    }
    assert p in peers + [p];
  }

  /** A peer with the suggested address takes that host and no other; one without an address takes none. */
  lemma AddedPeerTakes(peers: seq<Peer>, id: string, host: Option<nat>, k: nat)
    requires host.Some? ==> host.value < 0x1_0000_0000
    ensures Taken(peers + [Peer(id, AsPeerAddress(host))], k) <==> Taken(peers, k) || host == Some(k)
  {
    TakenByOneMore(peers, Peer(id, AsPeerAddress(host)), k);
    hide Dotted, Quad, NormTokens, Taken;
    if host.Some? {
      DottedThenQuad(host.value);
      DottedIsPlain(host.value);
      hide NormAddrTokens;
      PlainToken(Dotted(host.value));
      assert Dotted(host.value) in NormAddrTokens(AsPeerAddress(host));
    }
  }

  lemma FreeHostsShrink(ifaceCIDR: string, peers: seq<Peer>, id: string)
    ensures var host := SuggestedHost(ifaceCIDR, peers);
            FreeHostsFor(ifaceCIDR, peers + [Peer(id, Suggestion(ifaceCIDR, peers))])
            == FreeHostsFor(ifaceCIDR, peers) - (if host.None? then {} else {host.value})
  {
    var host := SuggestedHost(ifaceCIDR, peers);
    SuggestedHostIsLeastFree(ifaceCIDR, peers);
    var after := peers + [Peer(id, AsPeerAddress(host))];
    hide ReadSubnet, SuggestedHost, AsPeerAddress, Taken, FreeHostsFor;
    forall k: nat ensures FreeFor(ifaceCIDR, after, k) <==> FreeFor(ifaceCIDR, peers, k) && host != Some(k) {
      AddedPeerTakes(peers, id, host, k);
    }
    hide FreeFor;
  }

  /**
   From any list of peers, exactly as many suggestions in a row succeed as hosts are free: each takes
   the least, and once all are gone every further suggestion is empty.
   */
  lemma {:induction false} EveryFreeHostIsGivenOut(ifaceCIDR: string, peers: seq<Peer>, ids: seq<string>)
    ensures var filled, hosts := Fill(ifaceCIDR, peers, ids), |FreeHostsFor(ifaceCIDR, peers)|;
            && |FreeHostsFor(ifaceCIDR, filled)| == (if |ids| < hosts then hosts - |ids| else 0)
            && (Suggestion(ifaceCIDR, filled) != "" <==> |ids| < hosts)
  {
    var filled := Fill(ifaceCIDR, peers, ids);
    hide FreeHostsFor, SuggestedHost, Suggestion;
    if ids == [] {
    } else {
      var before := Fill(ifaceCIDR, peers, ids[..|ids| - 1]);
      assert filled == before + [Peer(ids[|ids| - 1], Suggestion(ifaceCIDR, before))];
      hide Fill;
      EveryFreeHostIsGivenOut(ifaceCIDR, peers, ids[..|ids| - 1]);
      OneIsGivenOut(ifaceCIDR, before, ids[|ids| - 1]);
    }
    SuggestionWhileFree(ifaceCIDR, filled);
  }

  lemma OneIsGivenOut(ifaceCIDR: string, peers: seq<Peer>, id: string)
    ensures var before := |FreeHostsFor(ifaceCIDR, peers)|;
            |FreeHostsFor(ifaceCIDR, peers + [Peer(id, Suggestion(ifaceCIDR, peers))])|
                == if before == 0 then 0 else before - 1
  {
    FreeHostsShrink(ifaceCIDR, peers, id);
    SuggestionWhileFree(ifaceCIDR, peers);
    hide FreeHostsFor, SuggestedHost, Suggestion;
  }

  lemma SuggestionWhileFree(ifaceCIDR: string, peers: seq<Peer>)
    ensures var host, hosts := SuggestedHost(ifaceCIDR, peers), FreeHostsFor(ifaceCIDR, peers);
            && (Suggestion(ifaceCIDR, peers) != "" <==> host.Some?)
            && (host.Some? <==> |hosts| > 0)
            && (host.Some? ==> host.value in hosts)
  {
    var host, hosts := SuggestedHost(ifaceCIDR, peers), FreeHostsFor(ifaceCIDR, peers);
    SuggestedHostIsLeastFree(ifaceCIDR, peers);
    hide ReadSubnet, SuggestedHost, Dotted, FreeFor, FreeHostsFor;
    if host.None? {
      assert hosts == {};
    } else {
      assert host.value in hosts;
    }
  }

  lemma {:induction false} GivenOut(ifaceCIDR: string, peers: seq<Peer>, ids: seq<string>, i: nat)
    requires i < |ids|
    ensures Peer(ids[i], Suggestion(ifaceCIDR, Fill(ifaceCIDR, peers, ids[..i]))) in Fill(ifaceCIDR, peers, ids)
    decreases |ids|
  {
    hide Suggestion;
    if i == |ids| - 1 {
    } else {
      var front := ids[..|ids| - 1];
      GivenOut(ifaceCIDR, peers, front, i);
      assert front[..i] == ids[..i] && front[i] == ids[i];
    }
  }

  /** No host is given out twice. */
  lemma SuggestionsDiffer(ifaceCIDR: string, peers: seq<Peer>, ids: seq<string>, i: nat, j: nat)
    requires i < j <= |ids|
    ensures Suggestion(ifaceCIDR, Fill(ifaceCIDR, peers, ids[..i])) != "" ==>
              Suggestion(ifaceCIDR, Fill(ifaceCIDR, peers, ids[..i])) != Suggestion(ifaceCIDR, Fill(ifaceCIDR,
                  peers, ids[..j]))
  {
    var before, after := Fill(ifaceCIDR, peers, ids[..i]), Fill(ifaceCIDR, peers, ids[..j]);
    hide Suggestion, Fill;
    GivenOut(ifaceCIDR, peers, ids[..j], i);
    assert ids[..j][..i] == ids[..i] && ids[..j][i] == ids[i];
    NotSuggestedAgain(ifaceCIDR, before, after, ids[i]);
  }

  lemma NotSuggestedAgain(ifaceCIDR: string, before: seq<Peer>, after: seq<Peer>, id: string)
    requires Peer(id, Suggestion(ifaceCIDR, before)) in after
    ensures Suggestion(ifaceCIDR, before) == "" || Suggestion(ifaceCIDR, after) != Suggestion(ifaceCIDR, before)
  {
    hide ReadSubnet, Dotted, HostIn, SuggestedHost, NormTokens;
    if SuggestedHost(ifaceCIDR, before).Some? {
      var n, p := SuggestedHost(ifaceCIDR, before).value, Peer(id, Suggestion(ifaceCIDR, before));
      DottedIsPlain(n);
      PlainToken(Dotted(n));
      SuggestionNeverConflicts(ifaceCIDR, after, "", p, Dotted(n));
      hide NormAddrTokens;
      assert Dotted(n) in NormAddrTokens(p.allowedAddress);
    }
  }

  function Range(lo: nat, hi: nat): (s: set<nat>)
    requires lo <= hi
    ensures forall n: nat :: n in s <==> lo <= n < hi
    ensures |s| == hi - lo
    decreases hi
  {
    if lo == hi then {} else Range(lo, hi - 1) + {hi - 1}
  }

  /** Without peers all hosts are free but the interface's own: 2^(32 - prefix) - 3 if it owns a host address. */
  lemma HostsWithoutPeers(ifaceCIDR: string)
    ensures ReadSubnet(ifaceCIDR).Some? ==>
              var s := ReadSubnet(ifaceCIDR).value;
              |FreeHostsFor(ifaceCIDR, [])|
                == Bits.Pow2(32 - Cidr(ifaceCIDR).value.1) - (if s.net < s.ip < s.bcast then 3 else 2)
  {
    if ReadSubnet(ifaceCIDR).Some? {
      var s, prefix := ReadSubnet(ifaceCIDR).value, Cidr(ifaceCIDR).value.1;
      SubnetIsAlignedBlock(Cidr(ifaceCIDR).value.0, prefix);
      Pow2Grows(1, 32 - prefix);
      Bits.Pow2Values();
      hide SubnetOf, Bits.Pow2;
      HostsOfSubnet(s);
    }
  }

  lemma HostsOfSubnet(s: Subnet)
    requires s.net < s.bcast
    ensures |FreeHosts(s, [])| == s.bcast - s.net - (if s.net < s.ip < s.bcast then 2 else 1)
  {
    assert FreeHosts(s, []) == Range(s.net + 1, s.bcast) - {s.ip};
  }

  /** From no peers, exactly 2^(32 - prefix) - 3 suggestions in a row succeed if the interface owns a host address. */
  lemma AllHostsFromNoPeers(ifaceCIDR: string, ids: seq<string>)
    ensures ReadSubnet(ifaceCIDR).Some? ==>
              var s := ReadSubnet(ifaceCIDR).value;
              s.net < s.ip < s.bcast ==>
                (Suggestion(ifaceCIDR, Fill(ifaceCIDR, [], ids)) != ""
                 <==> |ids| < Bits.Pow2(32 - Cidr(ifaceCIDR).value.1) - 3)
  {
    HostsWithoutPeers(ifaceCIDR);
    hide SubnetOf, FreeHostsFor, Fill, Suggestion, Bits.Pow2;
    EveryFreeHostIsGivenOut(ifaceCIDR, [], ids);
  }
}
