/** The `frr.conf` text of a machine: a template per machine type whose
    placeholder lines are filled in with Python's `str.replace`, and the BGP
    stanza built from the resolved peering. */
module FrrConfig {
  import opened PyStrings
  import opened Topology
  import opened PeeringResolver

  const FileHeader := "! FRRouting configuration file"
  const LogLine := "log file /var/log/frr/frr.log"
  const StubLine := "   !area (TODO) stub"
  const RipPlaceholder := "   network (TODO)"
  const OspfPlaceholder := "   network (TODO) area (TODO)"

  // ----- the BGP stanza

  function NetworkLines(nets: seq<string>): (lines: seq<string>)
    ensures |lines| == |nets|
    ensures forall k :: 0 <= k < |nets| ==> lines[k] == "   network " + nets[k]
  {
    seq(|nets|, k requires 0 <= k < |nets| => "   network " + nets[k])
  }

  /** The commented-out policy lines closing the stanza. */
  const BgpTail: seq<string> :=
    ["   !",
     "   !Rimuovere il commento per utilizzare",
     "   no bgp network import-check",
     "   no bgp ebgp-requires-policy",
     "   !",
     "   !neighbor (TODO) prefix-list peerIn in",
     "   !neighbor (TODO) prefix-list peerOut out",
     "   !",
     "   !ip prefix-list peerIn deny (TODO)",
     "   !ip prefix-list peerIn permit (TODO)",
     "   !",
     "   !ip prefix-list peerOut deny (TODO)",
     "   !ip prefix-list peerOut permit (TODO)",
     "   !",
     "   !neighbor (TODO) route-map prefIn in",
     "   !route-map prefIn permit 10",
     "   !    set local-preference 110",
     "!"]

  /** The stanza's lines; the neighbor and network statements each fill one
      line of the template, which is empty when there are none. */
  function StanzaLines(p: Peering): seq<string> {
    StanzaHead(p) + BgpTail
  }

  function StanzaHead(p: Peering): seq<string> {
    ["router bgp " + p.asNumber,
     Join(p.neighbors, "\n"),
     "   !",
     "   ! Annuncio network",
     Join(NetworkLines(p.networks), "\n")]
  }

  /** `bgp_config`: the stanza, or the empty string when there is no peering. */
  function BgpConfig(r: Option<Peering>): string {
    match r
    case None => ""
    case Some(p) => Join(StanzaLines(p), "\n")
  }

  /** The stanza is present exactly for a BGP machine in a block with an AS
      number, and then opens with `router bgp` and that number. */
  lemma BgpConfigPresent(m: Machine, block: Block, all: seq<Machine>, asMap: map<string, string>, lans: map<string, Lan>)
    ensures var text := BgpConfig(Resolve(m, block, all, asMap, lans));
            && (text != "" <==> m.hasBgp && Truthy(block.asNumber))
            && (text != "" ==> |text| >= 11 + |block.asNumber.value|
                               && text[..11 + |block.asNumber.value|] == "router bgp " + block.asNumber.value)
  {
    var r := Resolve(m, block, all, asMap, lans);
    if r.Some? {
      var lines := StanzaLines(r.value);
      var head := "router bgp " + block.asNumber.value;
      assert lines[1..] != [];
      assert Join(lines, "\n") == head + "\n" + Join(lines[1..], "\n");
      assert (head + "\n" + Join(lines[1..], "\n"))[..|head|] == head;
    }
  }

  // ----- the IGP regions

  /** The RIP region: one `network` statement per RIP network. */
  function RipRegion(block: Block): string {
    Join(NetworkLines(block.ripNetworks), "\n")
  }

  function OspfLines(items: seq<OspfNetwork>): (lines: seq<string>)
    ensures |lines| == |items|
    ensures forall k :: 0 <= k < |items| ==> lines[k] == "   network " + items[k].network + " area " + items[k].area
  {
    seq(|items|, k requires 0 <= k < |items| => "   network " + items[k].network + " area " + items[k].area)
  }

  /** The OSPF region: one `network ... area ...` statement per OSPF network. */
  function OspfRegion(block: Block): string {
    Join(OspfLines(block.ospfNetworks), "\n")
  }

  /** With networks free of newlines, the joined statements are exactly one
      line per network: reading the text back line by line gives the
      statements (an empty list leaves one empty line). */
  lemma NetworkLinesOnePerLine(nets: seq<string>)
    requires forall k :: 0 <= k < |nets| ==> '\n' !in nets[k]
    ensures Split(Join(NetworkLines(nets), "\n"), '\n') == if nets == [] then [""] else NetworkLines(nets)
  {
    var lines := NetworkLines(nets);
    if nets != [] {
      forall k | 0 <= k < |lines|
        ensures '\n' !in lines[k]
      {
        assert '\n' !in "   network ";
      }
      SplitJoin(lines, '\n');
    }
  }

  /** The same for the OSPF statements, with networks and areas free of newlines. */
  lemma OspfLinesOnePerLine(items: seq<OspfNetwork>)
    requires forall k :: 0 <= k < |items| ==> '\n' !in items[k].network && '\n' !in items[k].area
    ensures Split(Join(OspfLines(items), "\n"), '\n') == if items == [] then [""] else OspfLines(items)
  {
    var lines := OspfLines(items);
    if items != [] {
      forall k | 0 <= k < |lines|
        ensures '\n' !in lines[k]
      {
        assert '\n' !in "   network " && '\n' !in " area ";
      }
      SplitJoin(lines, '\n');
    }
  }

  // ----- the templates and the dispatch on the machine type

  const RipHead: seq<string> := ["!", FileHeader, "!", "! RIP Configuration", "!", "router rip"]
  const OspfHead: seq<string> := ["!", FileHeader, "!", "! OSPF Configuration", "!", "router ospf"]
  const BothHead: seq<string> := ["!", FileHeader, "!", "! RIP Configuration", "router rip"]
  const BothMiddle: seq<string> := ["!", "! OSPF Configuration", "!", "router ospf"]

  function Trailer(bgp: string): seq<string> {
    ["!", bgp, LogLine]
  }

  function RipTemplate(bgp: string): string {
    Unlines(RipHead + [RipPlaceholder] + Trailer(bgp))
  }

  function OspfTemplate(bgp: string): string {
    Unlines(OspfHead + [OspfPlaceholder] + [StubLine] + Trailer(bgp))
  }

  function BothTemplate(bgp: string): string {
    Unlines(BothHead + [RipPlaceholder] + BothMiddle + [OspfPlaceholder] + [StubLine] + Trailer(bgp))
  }

  /** The template dispatch: each IGP type fills its placeholders with
      `replace`, type `bgp` gets the stanza alone, and any other type gets
      nothing. */
  function FrrConf(kind: string, rip: string, ospf: string, bgp: string): string {
    if kind == "rip" then ReplaceAll(RipTemplate(bgp), RipPlaceholder, rip)
    else if kind == "ospf" then ReplaceAll(OspfTemplate(bgp), OspfPlaceholder, ospf)
    else if kind == "both" then ReplaceAll(ReplaceAll(BothTemplate(bgp), RipPlaceholder, rip), OspfPlaceholder, ospf)
    else if kind == "bgp" then FileHeader + "\n!\n" + bgp + "\n" + LogLine + "\n"
    else ""
  }

  /** `generate_frr_conf_content`. */
  function FrrConfContent(m: Machine, block: Block, all: seq<Machine>, asMap: map<string, string>, lans: map<string, Lan>): string {
    FrrConf(m.kind, RipRegion(block), OspfRegion(block), BgpConfig(Resolve(m, block, all, asMap, lans)))
  }

  /** The file as the source computes it, running the resolver's loops. */
  method GenerateFrrConfContent(m: Machine, block: Block, all: seq<Machine>, asMap: map<string, string>, lans: map<string, Lan>)
    returns (text: string)
    ensures text == FrrConfContent(m, block, all, asMap, lans)
  {
    var peering := ResolvePeering(m, block, all, asMap, lans);
    var bgpConfig := BgpConfig(peering);
    text := FrrConf(m.kind, RipRegion(block), OspfRegion(block), bgpConfig);
  }

  // ----- what the replacements leave

  /** A line in which neither placeholder can occur: both contain `(` and `w`. */
  predicate Safe(line: string) {
    '(' !in line || 'w' !in line
  }

  predicate AllSafe(lines: seq<string>) {
    forall k :: 0 <= k < |lines| ==> Safe(lines[k])
  }

  /** Text built from the user's strings: none of them holds a `(`. */
  predicate NoParen(r: Option<Peering>) {
    r.Some? ==>
      && '(' !in r.value.asNumber
      && (forall k :: 0 <= k < |r.value.neighbors| ==> '(' !in r.value.neighbors[k])
      && (forall k :: 0 <= k < |r.value.networks| ==> '(' !in r.value.networks[k])
  }

  /** A string none of whose characters is `c`. */
  lemma Lacks(s: string, c: char)
    requires forall i :: 0 <= i < |s| ==> s[i] != c
    ensures c !in s
  {
  }

  lemma TailSafeFirst()
    ensures forall k :: 0 <= k < 6 ==> Safe(BgpTail[k])
  {
    Lacks("   !", '(');
    Lacks("   !Rimuovere il commento per utilizzare", '(');
    Lacks("   no bgp network import-check", '(');
    Lacks("   no bgp ebgp-requires-policy", '(');
    Lacks("   !neighbor (TODO) prefix-list peerIn in", 'w');
  }

  lemma TailSafeMiddle()
    ensures forall k :: 6 <= k < 12 ==> Safe(BgpTail[k])
  {
    Lacks("   !", '(');
    Lacks("   !neighbor (TODO) prefix-list peerOut out", 'w');
    Lacks("   !ip prefix-list peerIn deny (TODO)", 'w');
    Lacks("   !ip prefix-list peerIn permit (TODO)", 'w');
    Lacks("   !ip prefix-list peerOut deny (TODO)", 'w');
  }

  lemma TailSafeLast()
    ensures forall k :: 12 <= k < 18 ==> Safe(BgpTail[k])
  {
    Lacks("   !", '(');
    Lacks("   !ip prefix-list peerOut permit (TODO)", 'w');
    Lacks("   !neighbor (TODO) route-map prefIn in", 'w');
    Lacks("   !route-map prefIn permit 10", '(');
    Lacks("   !    set local-preference 110", '(');
    Lacks("!", '(');
  }

  /** The policy lines are commented out and hold neither placeholder. */
  lemma TailSafe()
    ensures AllSafe(BgpTail)
  {
    TailSafeFirst();
    TailSafeMiddle();
    TailSafeLast();
  }

  lemma FixedLinesSafe()
    ensures AllSafe(RipHead) && AllSafe(OspfHead) && AllSafe(BothHead) && AllSafe(BothMiddle)
    ensures Safe(StubLine) && Safe(LogLine) && Safe("!")
    ensures AllSafe(["!"]) && AllSafe([LogLine]) && AllSafe([StubLine, "!"])
  {
    Lacks("!", '(');
    Lacks(FileHeader, '(');
    Lacks("! RIP Configuration", '(');
    Lacks("! OSPF Configuration", '(');
    Lacks("router rip", '(');
    Lacks("router ospf", '(');
    Lacks(StubLine, 'w');
    Lacks(LogLine, '(');
  }

  lemma NetworkLinesLack(nets: seq<string>)
    requires forall k :: 0 <= k < |nets| ==> '(' !in nets[k]
    ensures '(' !in Join(NetworkLines(nets), "\n")
  {
    var lines := NetworkLines(nets);
    forall k | 0 <= k < |lines|
      ensures '(' !in lines[k]
    {
      assert '(' !in "   network ";
    }
    JoinLacks(lines, "\n", '(');
  }

  /** The stanza is never empty as a list of lines, and its text is their join;
      built from strings without `(`, every line is safe. */
  lemma StanzaSafe(r: Option<Peering>) returns (lines: seq<string>)
    requires NoParen(r)
    ensures lines != [] && BgpConfig(r) == Join(lines, "\n") && AllSafe(lines)
  {
    if r.None? {
      lines := [""];
    } else {
      lines := StanzaLines(r.value);
      HeadSafe(r.value);
      TailSafe();
      AllSafeAppend(StanzaHead(r.value), BgpTail);
    }
  }

  lemma HeadSafe(p: Peering)
    requires NoParen(Some(p))
    ensures AllSafe(StanzaHead(p))
  {
    Lacks("router bgp ", '(');
    JoinLacks(p.neighbors, "\n", '(');
    NetworkLinesLack(p.networks);
    Lacks("   !", '(');
    Lacks("   ! Annuncio network", '(');
  }

  lemma AllSafeAppend(a: seq<string>, b: seq<string>)
    requires AllSafe(a) && AllSafe(b)
    ensures AllSafe(a + b)
  {
    forall k | 0 <= k < |a + b|
      ensures Safe((a + b)[k])
    {
      if k >= |a| {
        assert (a + b)[k] == b[k - |a|];
      }
    }
  }

  /** `ReplaceEach` distributes over concatenation. */
  lemma ReplaceEachAppend(a: seq<string>, b: seq<string>, pat: string, rep: string)
    requires pat != []
    ensures ReplaceEach(a + b, pat, rep) == ReplaceEach(a, pat, rep) + ReplaceEach(b, pat, rep)
  {
  }

  lemma ReplaceEachJoins(a: seq<string>, b: seq<string>, pat: string, rep: string, a2: seq<string>, b2: seq<string>)
    requires pat != []
    requires ReplaceEach(a, pat, rep) == a2 && ReplaceEach(b, pat, rep) == b2
    ensures ReplaceEach(a + b, pat, rep) == a2 + b2
  {
    ReplaceEachAppend(a, b, pat, rep);
  }

  lemma ReplaceEachOne(x: string, pat: string, rep: string)
    requires pat != []
    ensures ReplaceEach([x], pat, rep) == [ReplaceAll(x, pat, rep)]
  {
  }

  /** Safe lines come through a replacement of either placeholder unchanged. */
  lemma KeepSafe(lines: seq<string>, pat: string, rep: string)
    requires pat != [] && '(' in pat && 'w' in pat
    requires AllSafe(lines)
    ensures ReplaceEach(lines, pat, rep) == lines
  {
    forall k | 0 <= k < |lines|
      ensures ReplaceAll(lines[k], pat, rep) == lines[k]
    {
      ReplaceAllKeepsLine(lines[k], pat, rep, '(', 'w');
    }
  }

  /** Writing a multi-line text as one line of a file is writing its lines. */
  lemma ExpandLine(pre: seq<string>, lines: seq<string>, post: seq<string>)
    requires lines != []
    ensures Unlines(pre + [Join(lines, "\n")] + post) == Unlines(pre + lines + post)
  {
    var j := Join(lines, "\n");
    UnlinesAppend(pre + [j], post);
    UnlinesAppend(pre, [j]);
    assert Unlines([j]) == j + "\n";
    JoinThenNewline(lines);
    UnlinesAppend(pre, lines);
    UnlinesAppend(pre + lines, post);
  }

  lemma RipPlaceholderMarks()
    ensures '(' in RipPlaceholder && 'w' in RipPlaceholder && '\n' !in RipPlaceholder
  {
    assert RipPlaceholder[11] == '(' && RipPlaceholder[6] == 'w';
    Lacks(RipPlaceholder, '\n');
  }

  lemma OspfPlaceholderMarks()
    ensures '(' in OspfPlaceholder && 'w' in OspfPlaceholder && '\n' !in OspfPlaceholder
  {
    assert OspfPlaceholder[11] == '(' && OspfPlaceholder[6] == 'w';
    Lacks(OspfPlaceholder, '\n');
  }

  /** The RIP placeholder is a prefix of the OSPF one. */
  lemma OspfPlaceholderExtendsRip()
    ensures OspfPlaceholder == RipPlaceholder + " area (TODO)"
  {
  }

  /** The placeholder line itself becomes the replacement text. */
  lemma ReplaceWholeLine(pat: string, rep: string)
    requires pat != []
    ensures ReplaceAll(pat, pat, rep) == rep
  {
    ReplaceAllAtStart("", pat, rep);
    assert pat + "" == pat;
  }

  /** A file made of safe lines, two lines `x1` and `x2` that the replacement
      turns into `y1` and `y2`, and a multi-line text of safe lines: the
      replacement changes those two lines and nothing else. */
  lemma ReplaceInFile(pre: seq<string>, x1: string, mid1: seq<string>, x2: string, mid2: seq<string>,
                      bl: seq<string>, post: seq<string>, pat: string, rep: string, y1: string, y2: string)
    requires pat != [] && '\n' !in pat && '(' in pat && 'w' in pat
    requires AllSafe(pre) && AllSafe(mid1) && AllSafe(mid2) && AllSafe(bl) && AllSafe(post) && bl != []
    requires ReplaceAll(x1, pat, rep) == y1 && ReplaceAll(x2, pat, rep) == y2
    ensures ReplaceAll(Unlines(pre + [x1] + mid1 + [x2] + mid2 + [Join(bl, "\n")] + post), pat, rep)
         == Unlines(pre + [y1] + mid1 + [y2] + mid2 + [Join(bl, "\n")] + post)
  {
    ExpandLine(pre + [x1] + mid1 + [x2] + mid2, bl, post);
    var lines := pre + [x1] + mid1 + [x2] + mid2 + bl + post;
    ReplaceAllLines(lines, pat, rep);
    KeepSafe(pre, pat, rep);
    KeepSafe(mid1, pat, rep);
    KeepSafe(mid2, pat, rep);
    KeepSafe(bl, pat, rep);
    KeepSafe(post, pat, rep);
    ReplaceEachOne(x1, pat, rep);
    ReplaceEachOne(x2, pat, rep);
    ReplaceEachJoins(pre, [x1], pat, rep, pre, [y1]);
    ReplaceEachJoins(pre + [x1], mid1, pat, rep, pre + [y1], mid1);
    ReplaceEachJoins(pre + [x1] + mid1, [x2], pat, rep, pre + [y1] + mid1, [y2]);
    ReplaceEachJoins(pre + [x1] + mid1 + [x2], mid2, pat, rep, pre + [y1] + mid1 + [y2], mid2);
    ReplaceEachJoins(pre + [x1] + mid1 + [x2] + mid2, bl, pat, rep, pre + [y1] + mid1 + [y2] + mid2, bl);
    ReplaceEachJoins(pre + [x1] + mid1 + [x2] + mid2 + bl, post, pat, rep, pre + [y1] + mid1 + [y2] + mid2 + bl, post);
    ExpandLine(pre + [y1] + mid1 + [y2] + mid2, bl, post);
  }

  /** The RIP template, cut where the replacement acts. */
  lemma RipTemplateParts(bgp: string)
    ensures RipTemplate(bgp) == Unlines(RipHead + [RipPlaceholder] + [] + ["!"] + [] + [bgp] + [LogLine])
  {
    assert RipHead + [RipPlaceholder] + Trailer(bgp) == RipHead + [RipPlaceholder] + [] + ["!"] + [] + [bgp] + [LogLine];
  }

  lemma RipResultParts(rip: string, bgp: string)
    ensures Unlines(RipHead + [rip] + Trailer(bgp)) == Unlines(RipHead + [rip] + [] + ["!"] + [] + [bgp] + [LogLine])
  {
    assert RipHead + [rip] + Trailer(bgp) == RipHead + [rip] + [] + ["!"] + [] + [bgp] + [LogLine];
  }

  /** The comment line `!` survives any replacement of a placeholder. */
  lemma BangKept(pat: string, rep: string)
    requires pat != [] && '(' in pat && 'w' in pat
    ensures ReplaceAll("!", pat, rep) == "!"
  {
    Lacks("!", '(');
    ReplaceAllKeepsLine("!", pat, rep, '(', 'w');
  }

  /** For a RIP router the placeholder line is replaced by the RIP region and
      nothing else changes. */
  lemma FrrConfRip(rip: string, ospf: string, r: Option<Peering>)
    requires NoParen(r)
    ensures FrrConf("rip", rip, ospf, BgpConfig(r)) == Unlines(RipHead + [rip] + Trailer(BgpConfig(r)))
  {
    var bl := StanzaSafe(r);
    var bgp := BgpConfig(r);
    FixedLinesSafe();
    RipPlaceholderMarks();
    ReplaceWholeLine(RipPlaceholder, rip);
    BangKept(RipPlaceholder, rip);
    ReplaceInFile(RipHead, RipPlaceholder, [], "!", [], bl, [LogLine], RipPlaceholder, rip, rip, "!");
    RipTemplateParts(bgp);
    RipResultParts(rip, bgp);
  }

  /** The OSPF template, cut where the replacement acts. */
  lemma OspfTemplateParts(rip: string, ospf: string, bgp: string)
    ensures FrrConf("ospf", rip, ospf, bgp)
         == ReplaceAll(Unlines(OspfHead + [OspfPlaceholder] + [] + [StubLine] + ["!"] + [bgp] + [LogLine]), OspfPlaceholder, ospf)
  {
    assert OspfHead + [OspfPlaceholder] + [StubLine] + Trailer(bgp)
        == OspfHead + [OspfPlaceholder] + [] + [StubLine] + ["!"] + [bgp] + [LogLine];
  }

  lemma OspfResultParts(ospf: string, bgp: string)
    ensures Unlines(OspfHead + [ospf] + [StubLine] + Trailer(bgp))
         == Unlines(OspfHead + [ospf] + [] + [StubLine] + ["!"] + [bgp] + [LogLine])
  {
    assert OspfHead + [ospf] + [StubLine] + Trailer(bgp)
        == OspfHead + [ospf] + [] + [StubLine] + ["!"] + [bgp] + [LogLine];
  }

  /** The commented-out stub statement survives any replacement of a placeholder. */
  lemma StubKept(pat: string, rep: string)
    requires pat != [] && '(' in pat && 'w' in pat
    ensures ReplaceAll(StubLine, pat, rep) == StubLine
  {
    Lacks(StubLine, 'w');
    ReplaceAllKeepsLine(StubLine, pat, rep, '(', 'w');
  }

  /** For an OSPF router the placeholder line is replaced by the OSPF region
      and nothing else changes. */
  lemma FrrConfOspf(rip: string, ospf: string, r: Option<Peering>)
    requires NoParen(r)
    ensures FrrConf("ospf", rip, ospf, BgpConfig(r)) == Unlines(OspfHead + [ospf] + [StubLine] + Trailer(BgpConfig(r)))
  {
    var bl := StanzaSafe(r);
    var bgp := BgpConfig(r);
    FixedLinesSafe();
    OspfPlaceholderMarks();
    ReplaceWholeLine(OspfPlaceholder, ospf);
    StubKept(OspfPlaceholder, ospf);
    ReplaceInFile(OspfHead, OspfPlaceholder, [], StubLine, ["!"], bl, [LogLine], OspfPlaceholder, ospf, ospf, StubLine);
    OspfTemplateParts(rip, ospf, bgp);
    OspfResultParts(ospf, bgp);
  }

  /** Where the one `(` of `x + " area (TODO)"` can be, when `x` has none. */
  lemma ParenPosition(x: string, j: nat)
    requires '(' !in x && j < |x| + 12
    ensures (x + " area (TODO)")[j] == '(' ==> j == |x| + 6
  {
    if j >= |x| {
      assert (x + " area (TODO)")[j] == " area (TODO)"[j - |x|];
    }
  }

  /** The OSPF placeholder has two `(`, twelve characters apart, so it cannot
      occur in `x + " area (TODO)"` when `x` has no `(`. */
  lemma NoOspfPlaceholder(x: string)
    requires '(' !in x
    ensures !Contains(x + " area (TODO)", OspfPlaceholder)
  {
    var t := x + " area (TODO)";
    forall k: nat | k <= |t|
      ensures !MatchAt(t, OspfPlaceholder, k)
    {
      if k + |OspfPlaceholder| <= |t| {
        ParenPosition(x, k + 11);
        ParenPosition(x, k + 23);
        assert t[k..k + |OspfPlaceholder|][11] == t[k + 11];
        assert t[k..k + |OspfPlaceholder|][23] == t[k + 23];
        assert OspfPlaceholder[11] == '(' && OspfPlaceholder[23] == '(';
      }
    }
  }

  lemma BothTemplateParts(bgp: string)
    ensures BothTemplate(bgp)
         == Unlines(BothHead + [RipPlaceholder] + BothMiddle + [OspfPlaceholder] + [StubLine, "!"] + [bgp] + [LogLine])
  {
    assert BothHead + [RipPlaceholder] + BothMiddle + [OspfPlaceholder] + [StubLine] + Trailer(bgp)
        == BothHead + [RipPlaceholder] + BothMiddle + [OspfPlaceholder] + [StubLine, "!"] + [bgp] + [LogLine];
  }

  lemma BothResultParts(rip: string, bgp: string)
    ensures Unlines(BothHead + [rip] + BothMiddle + [rip + " area (TODO)"] + [StubLine] + Trailer(bgp))
         == Unlines(BothHead + [rip] + BothMiddle + [rip + " area (TODO)"] + [StubLine, "!"] + [bgp] + [LogLine])
  {
    var filled := rip + " area (TODO)";
    assert BothHead + [rip] + BothMiddle + [filled] + [StubLine] + Trailer(bgp)
        == BothHead + [rip] + BothMiddle + [filled] + [StubLine, "!"] + [bgp] + [LogLine];
  }

  /** Replacing the RIP placeholder turns the OSPF placeholder line into the
      replacement followed by ` area (TODO)`. */
  lemma OspfLineFilledWithRip(rip: string)
    ensures ReplaceAll(OspfPlaceholder, RipPlaceholder, rip) == rip + " area (TODO)"
  {
    RipPlaceholderMarks();
    OspfPlaceholderExtendsRip();
    ReplaceAllAtStart(" area (TODO)", RipPlaceholder, rip);
    Lacks(" area (TODO)", 'w');
    ReplaceAllKeepsLine(" area (TODO)", RipPlaceholder, rip, '(', 'w');
  }

  /** For a router of type `both` the first `replace` also hits the OSPF
      placeholder line, whose prefix is the RIP placeholder: that line becomes
      the RIP region followed by ` area (TODO)`, and the second `replace`
      finds nothing left to fill. */
  lemma FrrConfBoth(rip: string, ospf: string, r: Option<Peering>)
    requires NoParen(r) && '(' !in rip
    ensures FrrConf("both", rip, ospf, BgpConfig(r))
         == Unlines(BothHead + [rip] + BothMiddle + [rip + " area (TODO)"] + [StubLine] + Trailer(BgpConfig(r)))
  {
    var bl := StanzaSafe(r);
    BothTemplateParts(BgpConfig(r));
    BothFirstPass(rip, bl);
    BothSecondPass(rip, ospf, bl);
    BothResultParts(rip, BgpConfig(r));
  }

  /** The first `replace` fills both placeholder lines with the RIP region. */
  lemma BothFirstPass(rip: string, bl: seq<string>)
    requires bl != [] && AllSafe(bl)
    ensures ReplaceAll(Unlines(BothHead + [RipPlaceholder] + BothMiddle + [OspfPlaceholder] + [StubLine, "!"] + [Join(bl, "\n")] + [LogLine]),
                       RipPlaceholder, rip)
         == Unlines(BothHead + [rip] + BothMiddle + [rip + " area (TODO)"] + [StubLine, "!"] + [Join(bl, "\n")] + [LogLine])
  {
    FixedLinesSafe();
    RipPlaceholderMarks();
    ReplaceWholeLine(RipPlaceholder, rip);
    OspfLineFilledWithRip(rip);
    ReplaceInFile(BothHead, RipPlaceholder, BothMiddle, OspfPlaceholder, [StubLine, "!"], bl, [LogLine],
                  RipPlaceholder, rip, rip, rip + " area (TODO)");
  }

  /** The second `replace` finds no OSPF placeholder left. */
  lemma BothSecondPass(rip: string, ospf: string, bl: seq<string>)
    requires bl != [] && AllSafe(bl) && '(' !in rip
    ensures var lines := BothHead + [rip] + BothMiddle + [rip + " area (TODO)"] + [StubLine, "!"] + [Join(bl, "\n")] + [LogLine];
            ReplaceAll(Unlines(lines), OspfPlaceholder, ospf) == Unlines(lines)
  {
    var filled := rip + " area (TODO)";
    FixedLinesSafe();
    OspfPlaceholderMarks();
    ReplaceAllKeepsLine(rip, OspfPlaceholder, ospf, '(', '(');
    NoOspfPlaceholder(rip);
    ReplaceAllAbsent(filled, OspfPlaceholder, ospf);
    ReplaceInFile(BothHead, rip, BothMiddle, filled, [StubLine, "!"], bl, [LogLine], OspfPlaceholder, ospf, rip, filled);
  }

  /** Consequently the OSPF networks of a `both` router never reach its
      file: replacing them by any others leaves the file as it was. */
  lemma BothIgnoresOspfNetworks(m: Machine, block: Block, all: seq<Machine>, asMap: map<string, string>,
                                lans: map<string, Lan>, other: seq<OspfNetwork>)
    requires m.kind == "both"
    requires forall k :: 0 <= k < |block.ripNetworks| ==> '(' !in block.ripNetworks[k]
    requires NoParen(Resolve(m, block, all, asMap, lans))
    ensures FrrConfContent(m, block, all, asMap, lans) == FrrConfContent(m, block.(ospfNetworks := other), all, asMap, lans)
  {
    var r := Resolve(m, block, all, asMap, lans);
    assert Resolve(m, block.(ospfNetworks := other), all, asMap, lans) == r;
    NetworkLinesLack(block.ripNetworks);
    FrrConfBoth(RipRegion(block), OspfRegion(block), r);
    FrrConfBoth(RipRegion(block), OspfRegion(block.(ospfNetworks := other)), r);
  }

  /** A `bgp` router's file is the header, a comment line, the stanza and
      the log line. */
  lemma FrrConfBgp(rip: string, ospf: string, bgp: string)
    ensures FrrConf("bgp", rip, ospf, bgp) == Unlines([FileHeader, "!", bgp, LogLine])
  {
    var lines := [FileHeader, "!", bgp, LogLine];
    assert lines[1..] == ["!", bgp, LogLine];
    assert lines[1..][1..] == [bgp, LogLine];
    assert lines[1..][1..][1..] == [LogLine];
    var tail := LogLine + "\n";
    assert Unlines([LogLine]) == tail;
    assert Unlines([bgp, LogLine]) == bgp + "\n" + tail;
    assert Unlines(["!", bgp, LogLine]) == "!" + "\n" + (bgp + "\n" + tail);
    calc {
      Unlines(lines);
      FileHeader + "\n" + ("!" + "\n" + (bgp + "\n" + tail));
      { assert "\n" + "!" + "\n" == "\n!\n"; }
      FileHeader + "\n!\n" + bgp + "\n" + LogLine + "\n";
    }
  }

  /** Any type other than rip, ospf, both and bgp (a host with BGP, say)
      gets an empty file. */
  lemma FrrConfOtherTypes(kind: string, rip: string, ospf: string, bgp: string)
    requires kind !in {"rip", "ospf", "both", "bgp"}
    ensures FrrConf(kind, rip, ospf, bgp) == ""
  {
  }
}
