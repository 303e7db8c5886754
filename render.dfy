/** The text of the files written for each machine: the FRR `daemons` file,
    the `.startup` script and the machine's lines of `lab.conf`, and which
    machines get FRR files at all. */
module Renderers {
  import opened PyStrings
  import opened Topology

  // ----- daemons

  /** The protocol daemons listed in the `daemons` file, in file order. */
  const Daemons: seq<string> :=
    ["zebra", "bgpd", "ospfd", "ospf6d", "ripd", "ripngd", "isisd", "pimd", "ldpd",
     "nhrpd", "eigrpd", "babeld", "sharpd", "staticd", "pbrd", "bfdd", "fabricd"]

  /** Which daemons a machine runs: zebra always, bgpd with BGP, ospfd for the
      ospf and both types, ripd for the rip and both types, nothing else. */
  predicate Enabled(daemon: string, kind: string, hasBgp: bool) {
    daemon == "zebra"
    || (daemon == "bgpd" && hasBgp)
    || (daemon == "ospfd" && (kind == "ospf" || kind == "both"))
    || (daemon == "ripd" && (kind == "rip" || kind == "both"))
  }

  /** The lines of the `daemons` file. */
  function DaemonsLines(kind: string, hasBgp: bool): (lines: seq<string>)
    ensures |lines| == |Daemons| + 5
  {
    var ospfd := if kind == "ospf" || kind == "both" then "yes" else "no";
    var ripd := if kind == "rip" || kind == "both" then "yes" else "no";
    var bgpd := if hasBgp then "yes" else "no";
    ["zebra=yes",
     "bgpd=" + bgpd,
     "ospfd=" + ospfd,
     "ospf6d=no",
     "ripd=" + ripd,
     "ripngd=no",
     "isisd=no",
     "pimd=no",
     "ldpd=no",
     "nhrpd=no",
     "eigrpd=no",
     "babeld=no",
     "sharpd=no",
     "staticd=no",
     "pbrd=no",
     "bfdd=no",
     "fabricd=no"] + DaemonsTail
  }

  /** The fixed lines after the daemon switches. */
  const DaemonsTail: seq<string> :=
    ["vtysh_enable=yes",
     "zebra_options=\" -s 90000000 --daemon -A 127.0.0.1\"",
     "bgpd_options=\"   --daemon -A 127.0.0.1\"",
     "ospfd_options=\"  --daemon -A 127.0.0.1\"",
     "ripd_options=\"   --daemon -A 127.0.0.1\""]

  /** Line `i` of the file switches daemon `i` on (`yes`) exactly when the
      machine runs it, and off (`no`) otherwise; the fixed lines follow. */
  lemma DaemonsSwitches(kind: string, hasBgp: bool)
    ensures forall i :: 0 <= i < |Daemons| ==>
              DaemonsLines(kind, hasBgp)[i] == Daemons[i] + "=" + (if Enabled(Daemons[i], kind, hasBgp) then "yes" else "no")
    ensures DaemonsLines(kind, hasBgp)[|Daemons|..] == DaemonsTail
  {
    DaemonsSwitchesRouting(kind, hasBgp);
    DaemonsSwitchesOthers(kind, hasBgp);
    DaemonsSwitchesLast(kind, hasBgp);
  }

  lemma DaemonsSwitchesRouting(kind: string, hasBgp: bool)
    ensures forall i :: 0 <= i < 5 ==>
              DaemonsLines(kind, hasBgp)[i] == Daemons[i] + "=" + (if Enabled(Daemons[i], kind, hasBgp) then "yes" else "no")
  {
    var lines := DaemonsLines(kind, hasBgp);
    forall i | 0 <= i < 5
      ensures lines[i] == Daemons[i] + "=" + (if Enabled(Daemons[i], kind, hasBgp) then "yes" else "no")
    {
      if i == 3 {
        assert Daemons[i] != "ospfd";
      }
    }
  }

  lemma DaemonsSwitchesOthers(kind: string, hasBgp: bool)
    ensures forall i :: 5 <= i < 11 ==>
              DaemonsLines(kind, hasBgp)[i] == Daemons[i] + "=" + (if Enabled(Daemons[i], kind, hasBgp) then "yes" else "no")
  {
    var lines := DaemonsLines(kind, hasBgp);
    forall i | 5 <= i < 11
      ensures lines[i] == Daemons[i] + "=" + (if Enabled(Daemons[i], kind, hasBgp) then "yes" else "no")
    {
      assert Daemons[i][0] != 'z' && Daemons[i] != "bgpd" && Daemons[i] != "ospfd" && Daemons[i] != "ripd";
    }
  }

  lemma DaemonsSwitchesLast(kind: string, hasBgp: bool)
    ensures forall i :: 11 <= i < 17 ==>
              DaemonsLines(kind, hasBgp)[i] == Daemons[i] + "=" + (if Enabled(Daemons[i], kind, hasBgp) then "yes" else "no")
  {
    var lines := DaemonsLines(kind, hasBgp);
    forall i | 11 <= i < 17
      ensures lines[i] == Daemons[i] + "=" + (if Enabled(Daemons[i], kind, hasBgp) then "yes" else "no")
    {
      assert Daemons[i][0] != 'z' && Daemons[i] != "bgpd" && Daemons[i] != "ospfd" && Daemons[i] != "ripd";
    }
  }

  /** `generate_daemons_content`. */
  function DaemonsContent(kind: string, hasBgp: bool): string {
    Unlines(DaemonsLines(kind, hasBgp))
  }

  // ----- startup

  /** `ip address add <address>/<mask> dev eth<i>`. */
  function AddressLine(lan: Lan, octet: string, i: nat): string {
    "ip address add " + HostAddress(lan, octet) + "/" + lan.mask + " dev eth" + NatToString(i)
  }

  /** One address line per connection on a declared LAN, in connection order,
      each naming the connection's own interface index. */
  function AddressLines(conns: seq<Connection>, lans: map<string, Lan>): seq<string> {
    if conns == [] then []
    else
      var i := |conns| - 1;
      AddressLines(conns[..i], lans)
        + (if conns[i].lan in lans then [AddressLine(lans[conns[i].lan], conns[i].octet, i)] else [])
  }

  /** The line that starts the machine's service, if it has one. */
  function ServiceLines(kind: string, hasBgp: bool): (lines: seq<string>)
    ensures lines == ["systemctl start frr"] <==> kind in {"rip", "ospf", "both", "bgp"} || hasBgp
    ensures lines == ["systemctl start apache2"] <==> !(kind in {"rip", "ospf", "both", "bgp"} || hasBgp) && kind == "server"
    ensures lines == [] <==> !(kind in {"rip", "ospf", "both", "bgp", "server"} || hasBgp)
  {
    if kind in {"rip", "ospf", "both", "bgp"} || hasBgp then ["systemctl start frr"]
    else if kind == "server" then ["systemctl start apache2"]
    else []
  }

  /** `generate_startup_content`: the lines joined by newlines, plus a final newline. */
  function StartupContent(m: Machine, lans: map<string, Lan>): string {
    Join(AddressLines(m.connections, lans) + ServiceLines(m.kind, m.hasBgp), "\n") + "\n"
  }

  /** The startup script as the source builds it: a loop over the connections. */
  method GenerateStartupContent(m: Machine, lans: map<string, Lan>) returns (text: string)
    ensures text == StartupContent(m, lans)
  {
    var content: seq<string> := [];
    var i := 0;
    while i < |m.connections|
      invariant 0 <= i <= |m.connections|
      invariant content == AddressLines(m.connections[..i], lans)
    {
      var conn := m.connections[i];
      assert m.connections[..i + 1][..i] == m.connections[..i];
      if conn.lan in lans {
        var lanInfo := lans[conn.lan];
        content := content + ["ip address add " + HostAddress(lanInfo, conn.octet) + "/" + lanInfo.mask + " dev eth" + NatToString(i)];
      }
      i := i + 1;
    }
    assert m.connections[..i] == m.connections;
    if m.kind in {"rip", "ospf", "both", "bgp"} || m.hasBgp {
      content := content + ["systemctl start frr"];
    } else if m.kind == "server" {
      content := content + ["systemctl start apache2"];
    } else {
      assert content == content + ServiceLines(m.kind, m.hasBgp);
    }
    text := Join(content, "\n") + "\n";
  }

  /** Every address line comes from a connection on a declared LAN and
      carries that connection's own index. */
  lemma {:induction false} AddressLinesSound(conns: seq<Connection>, lans: map<string, Lan>, x: string)
    requires x in AddressLines(conns, lans)
    ensures exists i :: 0 <= i < |conns| && conns[i].lan in lans && x == AddressLine(lans[conns[i].lan], conns[i].octet, i)
  {
    var n := |conns| - 1;
    var init := conns[..n];
    if x in AddressLines(init, lans) {
      AddressLinesSound(init, lans, x);
      var i :| 0 <= i < |init| && init[i].lan in lans && x == AddressLine(lans[init[i].lan], init[i].octet, i);
      assert init[i] == conns[i];
    } else {
      assert x == AddressLine(lans[conns[n].lan], conns[n].octet, n);
    }
  }

  /** Every connection on a declared LAN gets its address line, on the
      interface with its own index: an undeclared LAN before it does not
      renumber it. */
  lemma {:induction false} AddressLinesComplete(conns: seq<Connection>, lans: map<string, Lan>, i: nat)
    requires i < |conns| && conns[i].lan in lans
    ensures AddressLine(lans[conns[i].lan], conns[i].octet, i) in AddressLines(conns, lans)
  {
    var n := |conns| - 1;
    var init := conns[..n];
    if i < n {
      assert init[i] == conns[i];
      AddressLinesComplete(init, lans, i);
    }
  }

  /** With every LAN declared there is one address line per connection, in
      connection order. */
  lemma {:induction false} AddressLinesAllDeclared(conns: seq<Connection>, lans: map<string, Lan>)
    requires forall i :: 0 <= i < |conns| ==> conns[i].lan in lans
    ensures |AddressLines(conns, lans)| == |conns|
    ensures forall i :: 0 <= i < |conns| ==> AddressLines(conns, lans)[i] == AddressLine(lans[conns[i].lan], conns[i].octet, i)
  {
    if conns != [] {
      var n := |conns| - 1;
      var init := conns[..n];
      forall i | 0 <= i < |init|
        ensures init[i].lan in lans
      {
        assert init[i] == conns[i];
      }
      AddressLinesAllDeclared(init, lans);
      var lines := AddressLines(conns, lans);
      var last := AddressLine(lans[conns[n].lan], conns[n].octet, n);
      assert lines == AddressLines(init, lans) + [last];
      forall i | 0 <= i < |conns|
        ensures lines[i] == AddressLine(lans[conns[i].lan], conns[i].octet, i)
      {
        if i < n {
          assert init[i] == conns[i];
          assert lines[i] == AddressLines(init, lans)[i];
        }
      }
    }
  }

  /** The indices of the connections on declared LANs. */
  function DeclaredIndices(conns: seq<Connection>, lans: map<string, Lan>): seq<nat> {
    if conns == [] then []
    else
      var i := |conns| - 1;
      DeclaredIndices(conns[..i], lans) + (if conns[i].lan in lans then [i] else [])
  }

  /** `DeclaredIndices` lists each connection on a declared LAN exactly once,
      in increasing order, and nothing else. */
  lemma {:induction false} DeclaredIndicesExactly(conns: seq<Connection>, lans: map<string, Lan>)
    ensures forall k :: 0 <= k < |DeclaredIndices(conns, lans)| ==>
              DeclaredIndices(conns, lans)[k] < |conns| && conns[DeclaredIndices(conns, lans)[k]].lan in lans
    ensures forall k, l :: 0 <= k < l < |DeclaredIndices(conns, lans)| ==>
              DeclaredIndices(conns, lans)[k] < DeclaredIndices(conns, lans)[l]
    ensures forall i :: 0 <= i < |conns| && conns[i].lan in lans ==> i in DeclaredIndices(conns, lans)
  {
    if conns != [] {
      var n := |conns| - 1;
      var init := conns[..n];
      DeclaredIndicesExactly(init, lans);
      var before := DeclaredIndices(init, lans);
      var idx := DeclaredIndices(conns, lans);
      assert idx == before + (if conns[n].lan in lans then [n] else []);
      forall k | 0 <= k < |before|
        ensures before[k] < n && conns[before[k]].lan in lans
      {
        assert init[before[k]] == conns[before[k]];
      }
      forall i | 0 <= i < |conns| && conns[i].lan in lans
        ensures i in idx
      {
        if i < n {
          assert init[i] == conns[i];
        }
      }
    }
  }

  /** Address line `k` belongs to the `k`-th connection on a declared LAN,
      on that connection's own interface: connection order is kept, and an
      undeclared LAN leaves no line and no gap in the numbering. */
  lemma {:induction false} AddressLinesInOrder(conns: seq<Connection>, lans: map<string, Lan>)
    ensures |AddressLines(conns, lans)| == |DeclaredIndices(conns, lans)|
    ensures var idx := DeclaredIndices(conns, lans);
            forall k :: 0 <= k < |idx| ==>
              idx[k] < |conns| && conns[idx[k]].lan in lans
              && AddressLines(conns, lans)[k] == AddressLine(lans[conns[idx[k]].lan], conns[idx[k]].octet, idx[k])
  {
    DeclaredIndicesExactly(conns, lans);
    if conns != [] {
      var n := |conns| - 1;
      var init := conns[..n];
      AddressLinesInOrder(init, lans);
      DeclaredIndicesExactly(init, lans);
      var before := DeclaredIndices(init, lans);
      var idx := DeclaredIndices(conns, lans);
      var lines := AddressLines(conns, lans);
      forall k | 0 <= k < |idx|
        ensures lines[k] == AddressLine(lans[conns[idx[k]].lan], conns[idx[k]].octet, idx[k])
      {
        if k < |before| {
          assert idx[k] == before[k];
          assert init[before[k]] == conns[before[k]];
          assert lines[k] == AddressLines(init, lans)[k];
        }
      }
    }
  }

  /** The script always ends with a newline; without address or service lines
      it is that newline alone, otherwise each line followed by a newline. */
  lemma StartupIsLines(m: Machine, lans: map<string, Lan>)
    ensures var lines := AddressLines(m.connections, lans) + ServiceLines(m.kind, m.hasBgp);
            && (lines == [] ==> StartupContent(m, lans) == "\n")
            && (lines != [] ==> StartupContent(m, lans) == Unlines(lines))
            && StartupContent(m, lans)[|StartupContent(m, lans)| - 1] == '\n'
  {
    var lines := AddressLines(m.connections, lans) + ServiceLines(m.kind, m.hasBgp);
    if lines != [] {
      JoinThenNewline(lines);
    }
  }

  // ----- lab.conf

  /** `name[i]=lan` for each interface, then the image line and a blank line. */
  function ManifestLines(m: Machine): (lines: seq<string>)
    ensures |lines| == |m.connections| + 2
    ensures forall i :: 0 <= i < |m.connections| ==> lines[i] == InterfaceLine(m.name, i, m.connections[i].lan)
    ensures lines[|m.connections|] == ImageLine(m.name) && lines[|m.connections| + 1] == ""
  {
    seq(|m.connections|, i requires 0 <= i < |m.connections| => InterfaceLine(m.name, i, m.connections[i].lan))
      + [ImageLine(m.name), ""]
  }

  function InterfaceLine(name: string, i: nat, lan: string): string {
    name + "[" + NatToString(i) + "]=" + lan
  }

  function ImageLine(name: string): string {
    name + "[image]=\"kathara/frr\""
  }

  /** The whole `lab.conf`: every machine's lines, in machine order. */
  function LabConf(machines: seq<Machine>): string {
    if machines == [] then "" else LabConf(machines[..|machines| - 1]) + Unlines(ManifestLines(machines[|machines| - 1]))
  }

  /** All lines of `lab.conf`, in order. */
  function LabConfLines(machines: seq<Machine>): seq<string> {
    if machines == [] then [] else LabConfLines(machines[..|machines| - 1]) + ManifestLines(machines[|machines| - 1])
  }

  /** `lab.conf` is the text of its lines; listing more machines appends their lines. */
  lemma {:induction false} LabConfIsLines(machines: seq<Machine>)
    ensures LabConf(machines) == Unlines(LabConfLines(machines))
  {
    if machines != [] {
      var n := |machines| - 1;
      LabConfIsLines(machines[..n]);
      UnlinesAppend(LabConfLines(machines[..n]), ManifestLines(machines[n]));
    }
  }

  /** Listing more machines appends their lines. */
  lemma {:induction false} LabConfLinesAppend(xs: seq<Machine>, ys: seq<Machine>)
    ensures LabConfLines(xs + ys) == LabConfLines(xs) + LabConfLines(ys)
  {
    if ys == [] {
      assert xs + ys == xs;
    } else {
      var n := |ys| - 1;
      assert (xs + ys)[..|xs + ys| - 1] == xs + ys[..n];
      LabConfLinesAppend(xs, ys[..n]);
      AppendAssoc(LabConfLines(xs), LabConfLines(ys[..n]), ManifestLines(ys[n]));
    }
  }

  /** The lines of machine `k` come right after those of the machines listed
      before it and right before those of the machines listed after it. */
  lemma LabConfMachineOrder(machines: seq<Machine>, k: nat)
    requires k < |machines|
    ensures LabConfLines(machines) == LabConfLines(machines[..k]) + ManifestLines(machines[k]) + LabConfLines(machines[k + 1..])
  {
    var m := machines[k];
    var pre := machines[..k];
    var post := machines[k + 1..];
    LabConfLinesOne(m);
    LabConfLinesAppend(pre, [m]);
    LabConfLinesAppend(pre + [m], post);
    SplitAround(machines, k);
  }

  lemma SplitAround<T>(s: seq<T>, k: nat)
    requires k < |s|
    ensures s == s[..k] + [s[k]] + s[k + 1..]
  {
  }

  lemma LabConfLinesOne(m: Machine)
    ensures LabConfLines([m]) == ManifestLines(m)
  {
    assert [m][..0] == [];
  }

  /** The shape of a `lab.conf` line for the machine list. */
  predicate ManifestLineOf(machines: seq<Machine>, x: string) {
    (exists k, i :: 0 <= k < |machines| && 0 <= i < |machines[k].connections|
                    && x == InterfaceLine(machines[k].name, i, machines[k].connections[i].lan))
    || (exists k :: 0 <= k < |machines| && x == ImageLine(machines[k].name))
    || x == ""
  }

  /** Every `lab.conf` line binds some machine's interface `i` to the LAN of
      its `i`-th connection, or is some machine's image line, or is blank. */
  lemma {:induction false} LabConfLinesSound(machines: seq<Machine>, x: string)
    requires x in LabConfLines(machines)
    ensures ManifestLineOf(machines, x)
  {
    var n := |machines| - 1;
    var init := machines[..n];
    var m := machines[n];
    if x in LabConfLines(init) {
      LabConfLinesSound(init, x);
      if exists k, i :: 0 <= k < |init| && 0 <= i < |init[k].connections|
                        && x == InterfaceLine(init[k].name, i, init[k].connections[i].lan) {
        var k, i :| 0 <= k < |init| && 0 <= i < |init[k].connections|
                    && x == InterfaceLine(init[k].name, i, init[k].connections[i].lan);
        assert init[k] == machines[k];
      } else if exists k :: 0 <= k < |init| && x == ImageLine(init[k].name) {
        var k :| 0 <= k < |init| && x == ImageLine(init[k].name);
        assert init[k] == machines[k];
      }
    } else {
      var ml := ManifestLines(m);
      var j :| 0 <= j < |ml| && ml[j] == x;
      if j < |m.connections| {
        assert x == InterfaceLine(machines[n].name, j, machines[n].connections[j].lan);
      } else if j == |m.connections| {
        assert x == ImageLine(machines[n].name);
      }
    }
  }

  /** Every interface of every machine is bound in `lab.conf` to the LAN of
      its connection, and every machine has its image line. */
  lemma {:induction false} LabConfLinesComplete(machines: seq<Machine>, k: nat)
    requires k < |machines|
    ensures ImageLine(machines[k].name) in LabConfLines(machines)
    ensures forall i :: 0 <= i < |machines[k].connections| ==>
              InterfaceLine(machines[k].name, i, machines[k].connections[i].lan) in LabConfLines(machines)
  {
    var n := |machines| - 1;
    var init := machines[..n];
    if k < n {
      assert init[k] == machines[k];
      LabConfLinesComplete(init, k);
    } else {
      var ml := ManifestLines(machines[k]);
      assert ml[|machines[k].connections|] == ImageLine(machines[k].name);
      forall i | 0 <= i < |machines[k].connections|
        ensures InterfaceLine(machines[k].name, i, machines[k].connections[i].lan) in LabConfLines(machines)
      {
        assert ml[i] == InterfaceLine(machines[k].name, i, machines[k].connections[i].lan);
      }
    }
  }

  // ----- which files a machine gets

  /** A machine listed in a closed block gets `daemons` and `frr.conf` when
      its type is rip, ospf or both, or when it has BGP and its type is bgp or host. */
  predicate GetsFrrFiles(kind: string, hasBgp: bool) {
    kind in {"rip", "ospf", "both", "bgp", "host"} && (hasBgp || kind in {"rip", "ospf", "both"})
  }

  /** A machine of type `server` gets a web root instead. */
  predicate GetsWebRoot(kind: string) {
    !(kind in {"rip", "ospf", "both", "bgp", "host"}) && kind == "server"
  }

  /** FRR files go exactly to routers running an IGP and to BGP speakers of
      type bgp or host; a server with BGP starts FRR in its startup script but
      gets no FRR files, and gets its web root instead. */
  lemma FrrFilesExactly(kind: string, hasBgp: bool)
    ensures GetsFrrFiles(kind, hasBgp) <==> kind in {"rip", "ospf", "both"} || (hasBgp && kind in {"bgp", "host"})
    ensures GetsFrrFiles(kind, hasBgp) ==> ServiceLines(kind, hasBgp) == ["systemctl start frr"]
    ensures kind == "server" && hasBgp ==>
              !GetsFrrFiles(kind, hasBgp) && GetsWebRoot(kind) && ServiceLines(kind, hasBgp) == ["systemctl start frr"]
  {
  }
}
