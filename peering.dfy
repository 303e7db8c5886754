/** The BGP half of `generate_frr_conf_content`: for a machine of a block,
    the neighbor statements towards every BGP peer it shares a declared LAN
    with, and the networks it advertises. */
module PeeringResolver {
  import opened PyStrings
  import opened StringOrder
  import opened Topology

  /** A peer is considered when it is another machine, has BGP, and has a
      non-empty AS number in the AS map. */
  predicate IsCandidate(m: Machine, peer: Machine, asMap: map<string, string>) {
    peer.name != m.name && peer.hasBgp && peer.name in asMap && asMap[peer.name] != ""
  }

  /** Connection `mc` of the machine and connection `pc` of a peer are on the
      same LAN, and that LAN is declared. */
  predicate Shares(mc: Connection, pc: Connection, lans: map<string, Lan>) {
    mc.lan == pc.lan && mc.lan in lans
  }

  /** Interface `i` of `m` and interface `j` of `peer` share a declared LAN. */
  predicate Adjacent(m: Machine, peer: Machine, i: int, j: int, lans: map<string, Lan>) {
    0 <= i < |m.connections| && 0 <= j < |peer.connections|
    && Shares(m.connections[i], peer.connections[j], lans)
  }

  /** The peer's address on the shared LAN. */
  function PeerAddress(m: Machine, peer: Machine, i: int, j: int, lans: map<string, Lan>): string
    requires Adjacent(m, peer, i, j, lans)
  {
    HostAddress(lans[m.connections[i].lan], peer.connections[j].octet)
  }

  function NeighborLine(ip: string, peerAs: string): string {
    "   neighbor " + ip + " remote-as " + peerAs
  }

  // ----- the three nested loops, as folds over their lists

  /** Innermost loop: the peer's connections against one of the machine's. */
  function PairLines(mc: Connection, pcs: seq<Connection>, peerAs: string, lans: map<string, Lan>): seq<string> {
    if pcs == [] then []
    else
      var pc := pcs[|pcs| - 1];
      PairLines(mc, pcs[..|pcs| - 1], peerAs, lans)
        + (if Shares(mc, pc, lans) then [NeighborLine(HostAddress(lans[mc.lan], pc.octet), peerAs)] else [])
  }

  function PairNets(mc: Connection, pcs: seq<Connection>, peerAs: string, ownAs: string, lans: map<string, Lan>): set<string> {
    if pcs == [] then {}
    else
      var pc := pcs[|pcs| - 1];
      PairNets(mc, pcs[..|pcs| - 1], peerAs, ownAs, lans)
        + (if Shares(mc, pc, lans) && peerAs != ownAs then {Cidr(lans[mc.lan])} else {})
  }

  /** Middle loop: each of the machine's connections in turn. */
  function ConnLines(mcs: seq<Connection>, pcs: seq<Connection>, peerAs: string, lans: map<string, Lan>): seq<string> {
    if mcs == [] then []
    else ConnLines(mcs[..|mcs| - 1], pcs, peerAs, lans) + PairLines(mcs[|mcs| - 1], pcs, peerAs, lans)
  }

  function ConnNets(mcs: seq<Connection>, pcs: seq<Connection>, peerAs: string, ownAs: string, lans: map<string, Lan>): set<string> {
    if mcs == [] then {}
    else ConnNets(mcs[..|mcs| - 1], pcs, peerAs, ownAs, lans) + PairNets(mcs[|mcs| - 1], pcs, peerAs, ownAs, lans)
  }

  /** Outer loop: each candidate peer in turn. */
  function PeerLines(m: Machine, peers: seq<Machine>, asMap: map<string, string>, lans: map<string, Lan>): seq<string> {
    if peers == [] then []
    else
      var peer := peers[|peers| - 1];
      PeerLines(m, peers[..|peers| - 1], asMap, lans)
        + (if IsCandidate(m, peer, asMap) then ConnLines(m.connections, peer.connections, asMap[peer.name], lans) else [])
  }

  function PeerNets(m: Machine, peers: seq<Machine>, asMap: map<string, string>, ownAs: string, lans: map<string, Lan>): set<string> {
    if peers == [] then {}
    else
      var peer := peers[|peers| - 1];
      PeerNets(m, peers[..|peers| - 1], asMap, ownAs, lans)
        + (if IsCandidate(m, peer, asMap) then ConnNets(m.connections, peer.connections, asMap[peer.name], ownAs, lans) else {})
  }

  /** What the resolver hands to the BGP template: the block's AS number, the
      distinct neighbor statements and the distinct advertised networks, both
      in ascending order. */
  datatype Peering = Peering(asNumber: string, neighbors: seq<string>, networks: seq<string>)

  function Resolve(m: Machine, block: Block, all: seq<Machine>, asMap: map<string, string>, lans: map<string, Lan>): (r: Option<Peering>)
    ensures r.Some? <==> m.hasBgp && Truthy(block.asNumber)
    ensures r.Some? ==> r.value.asNumber == block.asNumber.value
                        && StrictlySorted(r.value.neighbors) && StrictlySorted(r.value.networks)
                        && forall x :: x in block.manualBgpNetworks ==> x in r.value.networks
  {
    if m.hasBgp && Truthy(block.asNumber) then
      var lines := PeerLines(m, all, asMap, lans);
      var nets := (set x | x in block.manualBgpNetworks) + PeerNets(m, all, asMap, block.asNumber.value, lans);
      Some(Peering(block.asNumber.value, SortedFromSet(set x | x in lines), SortedFromSet(nets)))
    else None
  }

  // ----- the loops themselves

  /** The resolver as the source runs it: no configuration without BGP and an
      AS number, otherwise the peer scan followed by deduplication and sorting. */
  method ResolvePeering(m: Machine, block: Block, all: seq<Machine>, asMap: map<string, string>, lans: map<string, Lan>)
    returns (r: Option<Peering>)
    ensures r == Resolve(m, block, all, asMap, lans)
  {
    if !(m.hasBgp && block.asNumber.Some? && block.asNumber.value != "") {
      return None;
    }
    var neighborLines, networks := ScanPeers(m, all, asMap, block.asNumber.value, lans, set x | x in block.manualBgpNetworks);
    r := Some(Peering(block.asNumber.value, SortedFromSet(set x | x in neighborLines), SortedFromSet(networks)));
  }

  /** The outer loop: every machine of the lab as a candidate peer, appending
      to a list of neighbor lines and adding to a set of networks that starts
      with the manual ones. */
  method ScanPeers(m: Machine, all: seq<Machine>, asMap: map<string, string>, asNumber: string, lans: map<string, Lan>,
                   manual: set<string>)
    returns (neighborLines: seq<string>, networks: set<string>)
    ensures neighborLines == PeerLines(m, all, asMap, lans)
    ensures networks == manual + PeerNets(m, all, asMap, asNumber, lans)
  {
    neighborLines, networks := [], manual;
    var p := 0;
    while p < |all|
      invariant 0 <= p <= |all|
      invariant neighborLines == PeerLines(m, all[..p], asMap, lans)
      invariant networks == manual + PeerNets(m, all[..p], asMap, asNumber, lans)
    {
      var peer := all[p];
      PeerPrefix(m, all, p, asMap, asNumber, lans);
      if IsCandidate(m, peer, asMap) {
        UnionAssoc(manual, PeerNets(m, all[..p], asMap, asNumber, lans),
                   ConnNets(m.connections, peer.connections, asMap[peer.name], asNumber, lans));
        neighborLines, networks := ScanPeer(m.connections, peer.connections, asMap[peer.name], asNumber, lans, neighborLines, networks);
      }
      p := p + 1;
    }
    assert all[..p] == all;
  }

  /** The middle loop for one candidate peer: each connection of the machine
      in turn. */
  method ScanPeer(mcs: seq<Connection>, pcs: seq<Connection>, peerAs: string, asNumber: string, lans: map<string, Lan>,
                  lines: seq<string>, nets: set<string>)
    returns (lines': seq<string>, nets': set<string>)
    ensures lines' == lines + ConnLines(mcs, pcs, peerAs, lans)
    ensures nets' == nets + ConnNets(mcs, pcs, peerAs, asNumber, lans)
  {
    lines', nets' := lines, nets;
    var i := 0;
    while i < |mcs|
      invariant 0 <= i <= |mcs|
      invariant lines' == lines + ConnLines(mcs[..i], pcs, peerAs, lans)
      invariant nets' == nets + ConnNets(mcs[..i], pcs, peerAs, asNumber, lans)
    {
      ConnPrefix(mcs, i, pcs, peerAs, asNumber, lans);
      AppendAssoc(lines, ConnLines(mcs[..i], pcs, peerAs, lans), PairLines(mcs[i], pcs, peerAs, lans));
      UnionAssoc(nets, ConnNets(mcs[..i], pcs, peerAs, asNumber, lans), PairNets(mcs[i], pcs, peerAs, asNumber, lans));
      lines', nets' := ScanPair(mcs[i], pcs, peerAs, asNumber, lans, lines', nets');
      i := i + 1;
    }
    assert mcs[..i] == mcs;
  }

  /** The innermost loop: one connection of the machine against each
      connection of the peer. */
  method ScanPair(mc: Connection, pcs: seq<Connection>, peerAs: string, asNumber: string, lans: map<string, Lan>,
                  lines: seq<string>, nets: set<string>)
    returns (lines': seq<string>, nets': set<string>)
    ensures lines' == lines + PairLines(mc, pcs, peerAs, lans)
    ensures nets' == nets + PairNets(mc, pcs, peerAs, asNumber, lans)
  {
    lines', nets' := lines, nets;
    var j := 0;
    while j < |pcs|
      invariant 0 <= j <= |pcs|
      invariant lines' == lines + PairLines(mc, pcs[..j], peerAs, lans)
      invariant nets' == nets + PairNets(mc, pcs[..j], peerAs, asNumber, lans)
    {
      var pc := pcs[j];
      PairPrefix(mc, pcs, j, peerAs, asNumber, lans);
      if mc.lan == pc.lan {
        if mc.lan in lans {
          assert Shares(mc, pc, lans);
          var lan := lans[mc.lan];
          AppendAssoc(lines, PairLines(mc, pcs[..j], peerAs, lans), [NeighborLine(HostAddress(lan, pc.octet), peerAs)]);
          lines' := lines' + [NeighborLine(HostAddress(lan, pc.octet), peerAs)];
          if peerAs != asNumber {
            UnionAssoc(nets, PairNets(mc, pcs[..j], peerAs, asNumber, lans), {Cidr(lan)});
            nets' := nets' + {Cidr(lan)};
          }
        }
      }
      j := j + 1;
    }
    assert pcs[..j] == pcs;
  }

  /** Union is associative (stated once, for small proof contexts). */
  lemma UnionAssoc<T>(a: set<T>, b: set<T>, c: set<T>)
    ensures a + b + c == a + (b + c)
  {
  }

  /** One more peer extends the outer folds by that peer's contribution. */
  lemma PeerPrefix(m: Machine, all: seq<Machine>, p: int, asMap: map<string, string>, ownAs: string, lans: map<string, Lan>)
    requires 0 <= p < |all|
    ensures PeerLines(m, all[..p + 1], asMap, lans) == PeerLines(m, all[..p], asMap, lans)
              + (if IsCandidate(m, all[p], asMap) then ConnLines(m.connections, all[p].connections, asMap[all[p].name], lans) else [])
    ensures PeerNets(m, all[..p + 1], asMap, ownAs, lans) == PeerNets(m, all[..p], asMap, ownAs, lans)
              + (if IsCandidate(m, all[p], asMap) then ConnNets(m.connections, all[p].connections, asMap[all[p].name], ownAs, lans) else {})
  {
    assert all[..p + 1][..p] == all[..p];
  }

  /** One more connection of the machine extends the middle folds by its pairs. */
  lemma ConnPrefix(mcs: seq<Connection>, i: int, pcs: seq<Connection>, peerAs: string, ownAs: string, lans: map<string, Lan>)
    requires 0 <= i < |mcs|
    ensures ConnLines(mcs[..i + 1], pcs, peerAs, lans) == ConnLines(mcs[..i], pcs, peerAs, lans) + PairLines(mcs[i], pcs, peerAs, lans)
    ensures ConnNets(mcs[..i + 1], pcs, peerAs, ownAs, lans) == ConnNets(mcs[..i], pcs, peerAs, ownAs, lans) + PairNets(mcs[i], pcs, peerAs, ownAs, lans)
  {
    assert mcs[..i + 1][..i] == mcs[..i];
  }

  /** One more connection of the peer extends the inner folds by at most one entry. */
  lemma PairPrefix(mc: Connection, pcs: seq<Connection>, j: int, peerAs: string, ownAs: string, lans: map<string, Lan>)
    requires 0 <= j < |pcs|
    ensures PairLines(mc, pcs[..j + 1], peerAs, lans) == PairLines(mc, pcs[..j], peerAs, lans)
              + (if Shares(mc, pcs[j], lans) then [NeighborLine(HostAddress(lans[mc.lan], pcs[j].octet), peerAs)] else [])
    ensures PairNets(mc, pcs[..j + 1], peerAs, ownAs, lans) == PairNets(mc, pcs[..j], peerAs, ownAs, lans)
              + (if Shares(mc, pcs[j], lans) && peerAs != ownAs then {Cidr(lans[mc.lan])} else {})
  {
    assert pcs[..j + 1][..j] == pcs[..j];
  }

  // ----- what the folds contain

  lemma {:induction false} PairLinesMembers(mc: Connection, pcs: seq<Connection>, peerAs: string, lans: map<string, Lan>, x: string)
    ensures x in PairLines(mc, pcs, peerAs, lans) <==>
            exists j :: 0 <= j < |pcs| && Shares(mc, pcs[j], lans) && x == NeighborLine(HostAddress(lans[mc.lan], pcs[j].octet), peerAs)
  {
    if pcs != [] {
      var n := |pcs| - 1;
      PairLinesMembers(mc, pcs[..n], peerAs, lans, x);
      if exists j :: 0 <= j < |pcs| && Shares(mc, pcs[j], lans) && x == NeighborLine(HostAddress(lans[mc.lan], pcs[j].octet), peerAs) {
        var j :| 0 <= j < |pcs| && Shares(mc, pcs[j], lans) && x == NeighborLine(HostAddress(lans[mc.lan], pcs[j].octet), peerAs);
        if j < n {
          assert pcs[..n][j] == pcs[j];
        }
      }
    }
  }

  lemma {:induction false} PairNetsMembers(mc: Connection, pcs: seq<Connection>, peerAs: string, ownAs: string, lans: map<string, Lan>, x: string)
    ensures x in PairNets(mc, pcs, peerAs, ownAs, lans) <==>
            peerAs != ownAs && (exists j :: 0 <= j < |pcs| && Shares(mc, pcs[j], lans)) && x == Cidr(lans[mc.lan])
  {
    if pcs != [] {
      var n := |pcs| - 1;
      PairNetsMembers(mc, pcs[..n], peerAs, ownAs, lans, x);
      if exists j :: 0 <= j < |pcs| && Shares(mc, pcs[j], lans) {
        var j :| 0 <= j < |pcs| && Shares(mc, pcs[j], lans);
        if j < n {
          assert pcs[..n][j] == pcs[j];
        }
      }
    }
  }

  /** Interface `i` of the machine and interface `j` of the peer share a
      declared LAN, and `x` is the neighbor statement for that pair. */
  predicate PairNeighbor(mcs: seq<Connection>, pcs: seq<Connection>, peerAs: string, lans: map<string, Lan>, i: int, j: int, x: string) {
    0 <= i < |mcs| && 0 <= j < |pcs| && Shares(mcs[i], pcs[j], lans)
    && x == NeighborLine(HostAddress(lans[mcs[i].lan], pcs[j].octet), peerAs)
  }

  lemma {:induction false} ConnLinesSound(mcs: seq<Connection>, pcs: seq<Connection>, peerAs: string, lans: map<string, Lan>, x: string)
    requires x in ConnLines(mcs, pcs, peerAs, lans)
    ensures exists i, j :: PairNeighbor(mcs, pcs, peerAs, lans, i, j, x)
  {
    var n := |mcs| - 1;
    var init := mcs[..n];
    if x in ConnLines(init, pcs, peerAs, lans) {
      ConnLinesSound(init, pcs, peerAs, lans, x);
      var i, j :| PairNeighbor(init, pcs, peerAs, lans, i, j, x);
      assert init[i] == mcs[i];
      assert PairNeighbor(mcs, pcs, peerAs, lans, i, j, x);
    } else {
      PairLinesMembers(mcs[n], pcs, peerAs, lans, x);
      var j :| 0 <= j < |pcs| && Shares(mcs[n], pcs[j], lans) && x == NeighborLine(HostAddress(lans[mcs[n].lan], pcs[j].octet), peerAs);
      assert PairNeighbor(mcs, pcs, peerAs, lans, n, j, x);
    }
  }

  lemma {:induction false} ConnLinesComplete(mcs: seq<Connection>, pcs: seq<Connection>, peerAs: string, lans: map<string, Lan>, i: int, j: int, x: string)
    requires PairNeighbor(mcs, pcs, peerAs, lans, i, j, x)
    ensures x in ConnLines(mcs, pcs, peerAs, lans)
  {
    var n := |mcs| - 1;
    var init := mcs[..n];
    if i < n {
      assert init[i] == mcs[i];
      ConnLinesComplete(init, pcs, peerAs, lans, i, j, x);
    } else {
      PairLinesComplete(mcs[n], pcs, peerAs, lans, j, x);
    }
  }

  lemma {:induction false} PairLinesComplete(mc: Connection, pcs: seq<Connection>, peerAs: string, lans: map<string, Lan>, j: int, x: string)
    requires 0 <= j < |pcs| && Shares(mc, pcs[j], lans) && x == NeighborLine(HostAddress(lans[mc.lan], pcs[j].octet), peerAs)
    ensures x in PairLines(mc, pcs, peerAs, lans)
  {
    var n := |pcs| - 1;
    if j < n {
      assert pcs[..n][j] == pcs[j];
      PairLinesComplete(mc, pcs[..n], peerAs, lans, j, x);
    }
  }

  lemma ConnLinesMembers(mcs: seq<Connection>, pcs: seq<Connection>, peerAs: string, lans: map<string, Lan>, x: string)
    ensures x in ConnLines(mcs, pcs, peerAs, lans) <==> exists i, j :: PairNeighbor(mcs, pcs, peerAs, lans, i, j, x)
  {
    if x in ConnLines(mcs, pcs, peerAs, lans) {
      ConnLinesSound(mcs, pcs, peerAs, lans, x);
    }
    if exists i, j :: PairNeighbor(mcs, pcs, peerAs, lans, i, j, x) {
      var i, j :| PairNeighbor(mcs, pcs, peerAs, lans, i, j, x);
      ConnLinesComplete(mcs, pcs, peerAs, lans, i, j, x);
    }
  }

  lemma {:induction false} ConnNetsMembers(mcs: seq<Connection>, pcs: seq<Connection>, peerAs: string, ownAs: string, lans: map<string, Lan>, x: string)
    ensures x in ConnNets(mcs, pcs, peerAs, ownAs, lans) <==>
            peerAs != ownAs
            && exists i, j :: 0 <= i < |mcs| && 0 <= j < |pcs| && Shares(mcs[i], pcs[j], lans) && x == Cidr(lans[mcs[i].lan])
  {
    if mcs != [] {
      var n := |mcs| - 1;
      ConnNetsMembers(mcs[..n], pcs, peerAs, ownAs, lans, x);
      PairNetsMembers(mcs[n], pcs, peerAs, ownAs, lans, x);
      if exists i, j :: 0 <= i < |mcs| && 0 <= j < |pcs| && Shares(mcs[i], pcs[j], lans) && x == Cidr(lans[mcs[i].lan]) {
        var i, j :| 0 <= i < |mcs| && 0 <= j < |pcs| && Shares(mcs[i], pcs[j], lans) && x == Cidr(lans[mcs[i].lan]);
        if i < n {
          assert mcs[..n][i] == mcs[i];
        }
      }
      if x in ConnNets(mcs[..n], pcs, peerAs, ownAs, lans) {
        var i, j :| 0 <= i < n && 0 <= j < |pcs| && Shares(mcs[..n][i], pcs[j], lans) && x == Cidr(lans[mcs[..n][i].lan]);
        assert mcs[..n][i] == mcs[i];
      }
    }
  }

  /** A neighbor statement of `m` towards one interface pair of one candidate peer. */
  predicate NeighborOf(m: Machine, peers: seq<Machine>, asMap: map<string, string>, lans: map<string, Lan>, p: int, i: int, j: int, x: string) {
    0 <= p < |peers| && IsCandidate(m, peers[p], asMap) && Adjacent(m, peers[p], i, j, lans)
    && x == NeighborLine(PeerAddress(m, peers[p], i, j, lans), asMap[peers[p].name])
  }

  /** A network of a LAN `m` shares with a candidate peer in another AS. */
  predicate InterAsNetwork(m: Machine, peers: seq<Machine>, asMap: map<string, string>, ownAs: string, lans: map<string, Lan>, p: int, i: int, j: int, x: string) {
    0 <= p < |peers| && IsCandidate(m, peers[p], asMap) && Adjacent(m, peers[p], i, j, lans)
    && asMap[peers[p].name] != ownAs && x == Cidr(lans[m.connections[i].lan])
  }

  lemma {:induction false} PeerLinesMembers(m: Machine, peers: seq<Machine>, asMap: map<string, string>, lans: map<string, Lan>, x: string)
    ensures x in PeerLines(m, peers, asMap, lans) <==> exists p, i, j :: NeighborOf(m, peers, asMap, lans, p, i, j, x)
  {
    if x in PeerLines(m, peers, asMap, lans) {
      PeerLinesSound(m, peers, asMap, lans, x);
    }
    if exists p, i, j :: NeighborOf(m, peers, asMap, lans, p, i, j, x) {
      var p, i, j :| NeighborOf(m, peers, asMap, lans, p, i, j, x);
      PeerLinesComplete(m, peers, asMap, lans, p, i, j, x);
    }
  }

  lemma {:induction false} PeerLinesSound(m: Machine, peers: seq<Machine>, asMap: map<string, string>, lans: map<string, Lan>, x: string)
    requires x in PeerLines(m, peers, asMap, lans)
    ensures exists p, i, j :: NeighborOf(m, peers, asMap, lans, p, i, j, x)
  {
    var n := |peers| - 1;
    var init := peers[..n];
    var peer := peers[n];
    if x in PeerLines(m, init, asMap, lans) {
      PeerLinesSound(m, init, asMap, lans, x);
      var p, i, j :| NeighborOf(m, init, asMap, lans, p, i, j, x);
      assert init[p] == peers[p];
      assert NeighborOf(m, peers, asMap, lans, p, i, j, x);
    } else {
      ConnLinesSound(m.connections, peer.connections, asMap[peer.name], lans, x);
      var i, j :| PairNeighbor(m.connections, peer.connections, asMap[peer.name], lans, i, j, x);
      assert NeighborOf(m, peers, asMap, lans, n, i, j, x);
    }
  }

  lemma {:induction false} PeerLinesComplete(m: Machine, peers: seq<Machine>, asMap: map<string, string>, lans: map<string, Lan>,
                                             p: int, i: int, j: int, x: string)
    requires NeighborOf(m, peers, asMap, lans, p, i, j, x)
    ensures x in PeerLines(m, peers, asMap, lans)
  {
    var n := |peers| - 1;
    var init := peers[..n];
    if p < n {
      assert init[p] == peers[p];
      assert NeighborOf(m, init, asMap, lans, p, i, j, x);
      PeerLinesComplete(m, init, asMap, lans, p, i, j, x);
    } else {
      ConnLinesComplete(m.connections, peers[n].connections, asMap[peers[n].name], lans, i, j, x);
    }
  }


  lemma {:induction false} PeerNetsMembers(m: Machine, peers: seq<Machine>, asMap: map<string, string>, ownAs: string, lans: map<string, Lan>, x: string)
    ensures x in PeerNets(m, peers, asMap, ownAs, lans) <==> exists p, i, j :: InterAsNetwork(m, peers, asMap, ownAs, lans, p, i, j, x)
  {
    if peers != [] {
      var n := |peers| - 1;
      var init := peers[..n];
      var peer := peers[n];
      PeerNetsMembers(m, init, asMap, ownAs, lans, x);
      if IsCandidate(m, peer, asMap) {
        ConnNetsMembers(m.connections, peer.connections, asMap[peer.name], ownAs, lans, x);
      }
      if exists p, i, j :: InterAsNetwork(m, peers, asMap, ownAs, lans, p, i, j, x) {
        var p, i, j :| InterAsNetwork(m, peers, asMap, ownAs, lans, p, i, j, x);
        if p < n {
          assert init[p] == peers[p];
          assert InterAsNetwork(m, init, asMap, ownAs, lans, p, i, j, x);
        }
      }
      if x in PeerNets(m, init, asMap, ownAs, lans) {
        var p, i, j :| InterAsNetwork(m, init, asMap, ownAs, lans, p, i, j, x);
        assert init[p] == peers[p];
        assert InterAsNetwork(m, peers, asMap, ownAs, lans, p, i, j, x);
      }
      if IsCandidate(m, peer, asMap) && x in ConnNets(m.connections, peer.connections, asMap[peer.name], ownAs, lans) {
        var i, j :| 0 <= i < |m.connections| && 0 <= j < |peer.connections| && Shares(m.connections[i], peer.connections[j], lans)
                    && x == Cidr(lans[m.connections[i].lan]);
        assert InterAsNetwork(m, peers, asMap, ownAs, lans, n, i, j, x);
      }
    }
  }

  // ----- properties of the resolver

  /** The neighbor statements are exactly one per interface pair on which the
      machine and a candidate peer share a declared LAN: the peer's address on
      that LAN and the peer's AS number. Two such pairs with the same text give
      one statement; a peer reached on two LANs gives two. */
  lemma NeighborsExactly(m: Machine, block: Block, all: seq<Machine>, asMap: map<string, string>, lans: map<string, Lan>, x: string)
    requires Resolve(m, block, all, asMap, lans).Some?
    ensures x in Resolve(m, block, all, asMap, lans).value.neighbors <==> exists p, i, j :: NeighborOf(m, all, asMap, lans, p, i, j, x)
  {
    PeerLinesMembers(m, all, asMap, lans, x);
  }

  /** The advertised networks are the block's manual networks together with
      every shared declared LAN towards a candidate peer whose AS number
      differs from the block's own. */
  lemma NetworksExactly(m: Machine, block: Block, all: seq<Machine>, asMap: map<string, string>, lans: map<string, Lan>, x: string)
    requires Resolve(m, block, all, asMap, lans).Some?
    ensures x in Resolve(m, block, all, asMap, lans).value.networks <==>
            x in block.manualBgpNetworks || exists p, i, j :: InterAsNetwork(m, all, asMap, block.asNumber.value, lans, p, i, j, x)
  {
    PeerNetsMembers(m, all, asMap, block.asNumber.value, lans, x);
  }

  /** Peers that all sit in the machine's own AS add no network: only the
      manual networks are advertised, sorted and without repetition. */
  lemma IntraAsSuppression(m: Machine, block: Block, all: seq<Machine>, asMap: map<string, string>, lans: map<string, Lan>)
    requires Resolve(m, block, all, asMap, lans).Some?
    requires forall p :: 0 <= p < |all| && IsCandidate(m, all[p], asMap) ==> asMap[all[p].name] == block.asNumber.value
    ensures Resolve(m, block, all, asMap, lans).value.networks == SortedFromSet(set x | x in block.manualBgpNetworks)
  {
    var r := Resolve(m, block, all, asMap, lans).value;
    var manual := SortedFromSet(set x | x in block.manualBgpNetworks);
    forall x
      ensures x in r.networks <==> x in manual
    {
      NetworksExactly(m, block, all, asMap, lans, x);
    }
    SortedListingUnique(r.networks, manual);
  }

  lemma NeighborTransfer(m: Machine, all1: seq<Machine>, all2: seq<Machine>, asMap: map<string, string>, lans: map<string, Lan>, x: string)
    requires forall q :: q in all1 ==> q in all2
    requires exists p, i, j :: NeighborOf(m, all1, asMap, lans, p, i, j, x)
    ensures exists p, i, j :: NeighborOf(m, all2, asMap, lans, p, i, j, x)
  {
    var p, i, j :| NeighborOf(m, all1, asMap, lans, p, i, j, x);
    assert all1[p] in all2;
    var q :| 0 <= q < |all2| && all2[q] == all1[p];
    assert NeighborOf(m, all2, asMap, lans, q, i, j, x);
  }

  lemma NetworkTransfer(m: Machine, all1: seq<Machine>, all2: seq<Machine>, asMap: map<string, string>, ownAs: string, lans: map<string, Lan>, x: string)
    requires forall q :: q in all1 ==> q in all2
    requires exists p, i, j :: InterAsNetwork(m, all1, asMap, ownAs, lans, p, i, j, x)
    ensures exists p, i, j :: InterAsNetwork(m, all2, asMap, ownAs, lans, p, i, j, x)
  {
    var p, i, j :| InterAsNetwork(m, all1, asMap, ownAs, lans, p, i, j, x);
    assert all1[p] in all2;
    var q :| 0 <= q < |all2| && all2[q] == all1[p];
    assert InterAsNetwork(m, all2, asMap, ownAs, lans, q, i, j, x);
  }

  /** The output depends only on which peers exist and which manual networks
      the block lists, not on their order or repetition: the same elements give
      the same configuration. */
  lemma PeerOrderIrrelevant(m: Machine, block1: Block, block2: Block, all1: seq<Machine>, all2: seq<Machine>,
                            asMap: map<string, string>, lans: map<string, Lan>)
    requires block1.asNumber == block2.asNumber
    requires forall x :: x in block1.manualBgpNetworks <==> x in block2.manualBgpNetworks
    requires forall q :: q in all1 <==> q in all2
    ensures Resolve(m, block1, all1, asMap, lans) == Resolve(m, block2, all2, asMap, lans)
  {
    if m.hasBgp && Truthy(block1.asNumber) {
      var r1 := Resolve(m, block1, all1, asMap, lans).value;
      var r2 := Resolve(m, block2, all2, asMap, lans).value;
      var ownAs := block1.asNumber.value;
      forall x
        ensures x in r1.neighbors <==> x in r2.neighbors
      {
        NeighborsExactly(m, block1, all1, asMap, lans, x);
        NeighborsExactly(m, block2, all2, asMap, lans, x);
        if x in r1.neighbors {
          NeighborTransfer(m, all1, all2, asMap, lans, x);
        }
        if x in r2.neighbors {
          NeighborTransfer(m, all2, all1, asMap, lans, x);
        }
      }
      forall x
        ensures x in r1.networks <==> x in r2.networks
      {
        NetworksExactly(m, block1, all1, asMap, lans, x);
        NetworksExactly(m, block2, all2, asMap, lans, x);
        if exists p, i, j :: InterAsNetwork(m, all1, asMap, ownAs, lans, p, i, j, x) {
          NetworkTransfer(m, all1, all2, asMap, ownAs, lans, x);
        }
        if exists p, i, j :: InterAsNetwork(m, all2, asMap, ownAs, lans, p, i, j, x) {
          NetworkTransfer(m, all2, all1, asMap, ownAs, lans, x);
        }
      }
      SortedListingUnique(r1.neighbors, r2.neighbors);
      SortedListingUnique(r1.networks, r2.networks);
    }
  }
}
