/** `parse_config_file`: a single pass over the lines of a lab description.
    Bracket tags open and close blocks and sections; every other line is read
    according to the active section. A malformed line aborts the whole parse. */
module ConfigParser {
  import opened PyStrings
  import opened Topology

  datatype Parsed<T> = Ok(value: T) | Malformed

  /** The scanner's state: the active section (`None` between sections), the
      block being filled (`None` outside `[block]`), and the three accumulators. */
  datatype ParserState = ParserState(
    section: Option<string>,
    current: Option<Block>,
    machines: seq<Machine>,
    blocks: seq<Block>,
    lans: map<string, Lan>)

  const Initial := ParserState(None, None, [], [], map[])

  // ----- machine lines: name:type:lans.octet.octet...

  /** The base type: the type token with every `+bgp` removed. */
  function KindOf(typeToken: string): string {
    if Contains(typeToken, "+bgp") then ReplaceAll(typeToken, "+bgp", "")
    else if typeToken == "bgp" then "bgp"
    else typeToken
  }

  function HasBgpOf(typeToken: string): bool {
    if Contains(typeToken, "+bgp") then true
    else typeToken == "bgp"
  }

  /** `s.split(c, 1)`: at most two parts, cut at the first separator. */
  function SplitOnce(s: string, c: char): seq<string> {
    var parts := Split(s, c);
    if |parts| == 1 then parts else [parts[0], Join(parts[1..], [c])]
  }

  /** Connection `i` pairs the `i`-th LAN character with the `i`-th octet. */
  function Zip(lanChars: string, octets: seq<string>): (cs: seq<Connection>)
    requires |lanChars| <= |octets|
  {
    seq(|lanChars|, i requires 0 <= i < |lanChars| => Connection([lanChars[i]], octets[i]))
  }

  function ParseMachine(line: string): Option<Machine> {
    var fields := Split(line, ':');
    if |fields| != 3 then None
    else
      var halves := SplitOnce(fields[2], '.');
      if |halves| != 2 then None
      else
        var lanChars := halves[0];
        var octets := Split(halves[1], '.');
        if |lanChars| > |octets| then None
        else Some(Machine(fields[0], KindOf(fields[1]), HasBgpOf(fields[1]), Zip(lanChars, octets)))
  }

  /** The machine-line grammar, read off the line's own characters. The line
      is accepted exactly when it has two colons, its third field has a dot,
      and that field has at least as many octets after the first dot as LAN
      characters before it; extra octets are ignored. */
  lemma ParseMachineExactly(line: string)
    ensures var fields := Split(line, ':');
            var cuts := if |fields| == 3 then Split(fields[2], '.') else [];
            && (ParseMachine(line).Some? <==>
                 Count(line, ':') == 2 && Count(fields[2], '.') >= 1 && |cuts[0]| <= |cuts| - 1)
            && (ParseMachine(line).Some? ==>
                 var m := ParseMachine(line).value;
                 && m.name == fields[0]
                 && (m.hasBgp <==> Contains(fields[1], "+bgp") || fields[1] == "bgp")
                 && m.kind == ReplaceAll(fields[1], "+bgp", "")
                 && (m.kind == "bgp" ==> m.hasBgp)
                 && |m.connections| == |cuts[0]|
                 && forall i :: 0 <= i < |m.connections| ==>
                      m.connections[i] == Connection([cuts[0][i]], cuts[i + 1]))
  {
    var fields := Split(line, ':');
    if |fields| == 3 {
      var parts := Split(fields[2], '.');
      if |parts| > 1 {
        SplitJoin(parts[1..], '.');
      }
      KindIsReplace(fields[1]);
    }
  }

  /** Whatever the type token, the base type is the token with `+bgp` removed,
      and a base type of `bgp` always comes with the BGP flag. */
  lemma KindIsReplace(typeToken: string)
    ensures KindOf(typeToken) == ReplaceAll(typeToken, "+bgp", "")
    ensures KindOf(typeToken) == "bgp" ==> HasBgpOf(typeToken)
  {
    if !Contains(typeToken, "+bgp") {
      ReplaceAllAbsent(typeToken, "+bgp", "");
    }
  }

  /** The machine line a record is written as. */
  function MachineLine(name: string, typeToken: string, lanChars: string, octets: seq<string>): string {
    name + ":" + typeToken + ":" + (lanChars + "." + Join(octets, "."))
  }

  /** Two colons between colon-free fields split back into those fields. */
  lemma ColonFields(name: string, typeToken: string, conn: string)
    requires ':' !in name && ':' !in typeToken && ':' !in conn
    ensures Split(name + ":" + typeToken + ":" + conn, ':') == [name, typeToken, conn]
  {
    assert name + ":" + typeToken + ":" + conn == name + [':'] + (typeToken + [':'] + conn);
    SplitPrefix(name, typeToken + [':'] + conn, ':');
    SplitPrefix(typeToken, conn, ':');
    SplitNoSeparator(conn, ':');
  }

  /** The connection field splits at its dots into the LAN characters and the octets. */
  lemma DotFields(lanChars: string, octets: seq<string>)
    requires '.' !in lanChars && |octets| >= 1
    requires forall k :: 0 <= k < |octets| ==> '.' !in octets[k]
    ensures SplitOnce(lanChars + "." + Join(octets, "."), '.') == [lanChars, Join(octets, ".")]
    ensures Split(Join(octets, "."), '.') == octets
  {
    SplitPrefix(lanChars, Join(octets, "."), '.');
    SplitJoin(octets, '.');
    assert ([lanChars] + octets)[1..] == octets;
  }

  /** Writing a machine line and parsing it gives back its fields, when no
      field holds a separator of the grammar. */
  lemma MachineLineRoundTrip(name: string, typeToken: string, lanChars: string, octets: seq<string>)
    requires ':' !in name && ':' !in typeToken && ':' !in lanChars && '.' !in lanChars
    requires forall k :: 0 <= k < |octets| ==> ':' !in octets[k] && '.' !in octets[k]
    requires 1 <= |octets| && |lanChars| <= |octets|
    ensures ParseMachine(MachineLine(name, typeToken, lanChars, octets))
         == Some(Machine(name, KindOf(typeToken), HasBgpOf(typeToken), Zip(lanChars, octets)))
  {
    var conn := lanChars + "." + Join(octets, ".");
    JoinLacks(octets, ".", ':');
    ColonFields(name, typeToken, conn);
    assert ':' !in conn;
    DotFields(lanChars, octets);
  }

  // ----- one line

  /** After `strip()`, a line that is neither blank, nor a comment, nor a bracket tag. */
  predicate IsDataLine(raw: string) {
    var line := Strip(raw);
    line != [] && line[0] != '#' && !(line[0] == '[' && line[|line| - 1] == ']')
  }

  /** A bracket tag: `[block]`, `[/block]`, `[/x]` or `[x]`. */
  function Tag(st: ParserState, line: string): ParserState
    requires line != [] && line[0] == '[' && line[|line| - 1] == ']'
  {
    if line == "[block]" then
      st.(current := Some(EmptyBlock), section := None)
    else if line == "[/block]" then
      st.(blocks := if st.current.Some? then st.blocks + [st.current.value] else st.blocks,
          current := None, section := None)
    else if |line| >= 2 && line[..2] == "[/" then
      st.(section := None)
    else
      st.(section := Some(line[1..|line| - 1]))
  }

  /** A data line, read according to the active section. */
  function Data(st: ParserState, line: string): Parsed<ParserState> {
    if st.current.Some? && st.section.None? then
      match ParseMachine(line)
      case None => Malformed
      case Some(m) =>
        Ok(st.(machines := st.machines + [m],
               current := Some(st.current.value.(machines := st.current.value.machines + [m]))))
    else if st.section == Some("as") && st.current.Some? then
      var b := st.current.value;
      if b.asNumber.None? then Ok(st.(current := Some(b.(asNumber := Some(line)))))
      else Ok(st.(current := Some(b.(manualBgpNetworks := b.manualBgpNetworks + [line]))))
    else if st.section == Some("rip") && st.current.Some? then
      var b := st.current.value;
      Ok(st.(current := Some(b.(ripNetworks := b.ripNetworks + [line]))))
    else if st.section == Some("ospf") && st.current.Some? then
      var words := SplitWhitespace(line);
      if |words| != 2 then Malformed
      else
        var b := st.current.value;
        Ok(st.(current := Some(b.(ospfNetworks := b.ospfNetworks + [OspfNetwork(words[0], words[1])]))))
    else if st.section == Some("lan") then
      var fields := Split(line, ':');
      if |fields| != 2 then Malformed
      else
        var netMask := Split(fields[1], '/');
        if |netMask| != 2 then Malformed
        else Ok(st.(lans := st.lans[fields[0] := Lan(netMask[0], netMask[1])]))
    else Ok(st)
  }

  /** One iteration of the scanner's loop. */
  function Step(st: ParserState, raw: string): Parsed<ParserState> {
    var line := Strip(raw);
    if line == [] || line[0] == '#' then Ok(st)
    else if line[0] == '[' && line[|line| - 1] == ']' then Ok(Tag(st, line))
    else Data(st, line)
  }

  /** The scanner run over `lines` from state `st`; a malformed line is final. */
  function RunFrom(st: ParserState, lines: seq<string>): Parsed<ParserState> {
    if lines == [] then Ok(st)
    else
      match RunFrom(st, lines[..|lines| - 1])
      case Malformed => Malformed
      case Ok(s) => Step(s, lines[|lines| - 1])
  }

  function Parse(lines: seq<string>): Parsed<Lab> {
    match RunFrom(Initial, lines)
    case Malformed => Malformed
    case Ok(st) => Ok(Lab(st.machines, st.blocks, st.lans))
  }

  /** Running over `xs + ys` is running over `xs`, then over `ys`. */
  lemma {:induction false} RunFromAppend(st: ParserState, xs: seq<string>, ys: seq<string>)
    ensures RunFrom(st, xs + ys) == match RunFrom(st, xs)
                                    case Malformed => Malformed
                                    case Ok(s) => RunFrom(s, ys)
  {
    if ys == [] {
      assert xs + ys == xs;
    } else {
      assert (xs + ys)[..|xs + ys| - 1] == xs + ys[..|ys| - 1];
      RunFromAppend(st, xs, ys[..|ys| - 1]);
      if RunFrom(st, xs).Ok? {
        assert RunFrom(RunFrom(st, xs).value, ys) ==
          match RunFrom(RunFrom(st, xs).value, ys[..|ys| - 1])
          case Malformed => Malformed
          case Ok(s) => Step(s, ys[|ys| - 1]);
      }
    }
  }

  lemma MalformedIsFinal(lines: seq<string>, k: nat)
    requires k <= |lines| && RunFrom(Initial, lines[..k]) == Malformed
    ensures RunFrom(Initial, lines) == Malformed
  {
    RunFromAppend(Initial, lines[..k], lines[k..]);
    assert lines[..k] + lines[k..] == lines;
  }

  // ----- what a run of the scanner guarantees

  /** Invariants the scanner keeps: the open block's machines are the most
      recent machine lines, every machine of a closed block is in the global
      list, a machine of base type `bgp` has the BGP flag, and an AS number,
      once set, is a non-empty line. */
  predicate WellFormed(st: ParserState) {
    && (st.current.Some? ==>
          var ms := st.current.value.machines;
          |ms| <= |st.machines| && ms == st.machines[|st.machines| - |ms|..]
          && (st.current.value.asNumber.Some? ==> st.current.value.asNumber.value != ""))
    && (forall b, m :: b in st.blocks && m in b.machines ==> m in st.machines)
    && (forall m :: m in st.machines && m.kind == "bgp" ==> m.hasBgp)
    && (forall b :: b in st.blocks && b.asNumber.Some? ==> b.asNumber.value != "")
  }

  lemma DataKeepsWellFormed(st: ParserState, line: string)
    requires WellFormed(st) && line != [] && Data(st, line).Ok?
    ensures WellFormed(Data(st, line).value)
  {
    if st.current.Some? && st.section.None? {
      MachineKeepsWellFormed(st, ParseMachine(line).value, line);
    }
  }

  /** A machine line adds the machine to the lab's list and to the open block's. */
  lemma MachineKeepsWellFormed(st: ParserState, m: Machine, line: string)
    requires WellFormed(st) && st.current.Some? && ParseMachine(line) == Some(m)
    ensures WellFormed(st.(machines := st.machines + [m],
                           current := Some(st.current.value.(machines := st.current.value.machines + [m]))))
  {
    KindIsReplace(Split(line, ':')[1]);
    var ms := st.current.value.machines;
    assert (st.machines + [m])[|st.machines| + 1 - (|ms| + 1)..] == st.machines[|st.machines| - |ms|..] + [m];
  }

  lemma TagKeepsWellFormed(st: ParserState, line: string)
    requires WellFormed(st) && line != [] && line[0] == '[' && line[|line| - 1] == ']'
    ensures WellFormed(Tag(st, line))
  {
    if line == "[/block]" && st.current.Some? {
      var ms := st.current.value.machines;
      forall m | m in ms
        ensures m in st.machines
      {
        var k :| 0 <= k < |ms| && ms[k] == m;
        assert st.machines[|st.machines| - |ms| + k] == m;
      }
    }
  }

  lemma StepKeepsWellFormed(st: ParserState, raw: string)
    requires WellFormed(st) && Step(st, raw).Ok?
    ensures WellFormed(Step(st, raw).value)
  {
    var line := Strip(raw);
    if line == [] || line[0] == '#' {
    } else if line[0] == '[' && line[|line| - 1] == ']' {
      TagKeepsWellFormed(st, line);
    } else {
      DataKeepsWellFormed(st, line);
    }
  }

  lemma {:induction false} RunKeepsWellFormed(lines: seq<string>)
    ensures RunFrom(Initial, lines).Ok? ==> WellFormed(RunFrom(Initial, lines).value)
  {
    if lines != [] {
      var init := lines[..|lines| - 1];
      RunKeepsWellFormed(init);
      if RunFrom(Initial, init).Ok? && RunFrom(Initial, lines).Ok? {
        StepKeepsWellFormed(RunFrom(Initial, init).value, lines[|lines| - 1]);
      }
    }
  }

  /** What a successful parse hands on: every machine of every block is also
      in the global machine list, a machine of base type `bgp` always has the
      BGP flag, and every AS number present is non-empty. */
  lemma ParsedLabWellFormed(lines: seq<string>)
    requires Parse(lines).Ok?
    ensures var lab := Parse(lines).value;
            && (forall b, m :: b in lab.blocks && m in b.machines ==> m in lab.machines)
            && (forall m :: m in lab.machines && m.kind == "bgp" ==> m.hasBgp)
            && (forall b :: b in lab.blocks && b.asNumber.Some? ==> Truthy(b.asNumber))
  {
    RunKeepsWellFormed(lines);
  }

  /** A data line never touches the block list. */
  lemma DataKeepsBlocks(st: ParserState, line: string)
    requires Data(st, line).Ok?
    ensures Data(st, line).value.blocks == st.blocks
  {
  }

  /** Only the `[/block]` tag touches the block list. */
  lemma TagKeepsBlocks(st: ParserState, line: string)
    requires line != [] && line[0] == '[' && line[|line| - 1] == ']' && line != "[/block]"
    ensures Tag(st, line).blocks == st.blocks
  {
  }

  /** The block list changes only at a `[/block]` line, so a block that is
      never closed (or is reopened by `[block]`) never reaches it. */
  lemma StepKeepsBlocks(st: ParserState, raw: string)
    requires Strip(raw) != "[/block]" && Step(st, raw).Ok?
    ensures Step(st, raw).value.blocks == st.blocks
  {
    var line := Strip(raw);
    if line == [] || line[0] == '#' {
    } else if line[0] == '[' && line[|line| - 1] == ']' {
      TagKeepsBlocks(st, line);
    } else {
      DataKeepsBlocks(st, line);
    }
  }

  lemma {:induction false} BlocksOnlyOnClose(st: ParserState, xs: seq<string>)
    requires forall k :: 0 <= k < |xs| ==> Strip(xs[k]) != "[/block]"
    requires RunFrom(st, xs).Ok?
    ensures RunFrom(st, xs).value.blocks == st.blocks
  {
    if xs != [] {
      var init := xs[..|xs| - 1];
      BlocksOnlyOnClose(st, init);
      StepKeepsBlocks(RunFrom(st, init).value, xs[|xs| - 1]);
    }
  }

  /** `[/block]` appends the open block, if there is one, and leaves no block open. */
  lemma CloseAppendsOpenBlock(st: ParserState, raw: string)
    requires Strip(raw) == "[/block]"
    ensures Step(st, raw).Ok?
    ensures var st' := Step(st, raw).value;
            && st'.blocks == (if st.current.Some? then st.blocks + [st.current.value] else st.blocks)
            && st'.current.None? && st'.section.None?
            && st'.machines == st.machines && st'.lans == st.lans
  {
  }

  /** `id:network/mask`, when the line has that shape. */
  predicate IsLanLine(line: string) {
    Count(line, ':') == 1 && Count(Split(line, ':')[1], '/') == 1
  }

  function LanId(line: string): string {
    Split(line, ':')[0]
  }

  function LanOf(line: string): Lan
    requires IsLanLine(line)
  {
    var netMask := Split(Split(line, ':')[1], '/');
    Lan(netMask[0], netMask[1])
  }

  /** A data line in the `[as]` section of an open block. */
  lemma AsStep(st: ParserState, raw: string)
    requires st.current.Some? && st.section == Some("as") && IsDataLine(raw)
    ensures var b := st.current.value;
            Step(st, raw) == Ok(st.(current := Some(
              if b.asNumber.None? then b.(asNumber := Some(Strip(raw)))
              else b.(manualBgpNetworks := b.manualBgpNetworks + [Strip(raw)]))))
  {
  }

  /** A data line in an open block outside any section. */
  lemma MachineStep(st: ParserState, raw: string)
    requires st.current.Some? && st.section.None? && IsDataLine(raw)
    ensures var b := st.current.value;
            Step(st, raw) == match ParseMachine(Strip(raw))
                             case None => Malformed
                             case Some(m) => Ok(st.(machines := st.machines + [m], current := Some(b.(machines := b.machines + [m]))))
  {
  }

  /** A well-formed data line in the `[lan]` section. */
  lemma LanStep(st: ParserState, raw: string)
    requires st.section == Some("lan") && IsDataLine(raw) && IsLanLine(Strip(raw))
    ensures Step(st, raw) == Ok(st.(lans := st.lans[LanId(Strip(raw)) := LanOf(Strip(raw))]))
  {
  }

  /** A `[lan]` data line that is not `id:network/mask` fails the parse. */
  lemma LanLineRejected(st: ParserState, raw: string)
    requires st.section == Some("lan") && IsDataLine(raw) && !IsLanLine(Strip(raw))
    ensures Step(st, raw) == Malformed
  {
  }

  /** A data line in the `[rip]` section of an open block is a RIP network. */
  lemma RipStep(st: ParserState, raw: string)
    requires st.current.Some? && st.section == Some("rip") && IsDataLine(raw)
    ensures var b := st.current.value;
            Step(st, raw) == Ok(st.(current := Some(b.(ripNetworks := b.ripNetworks + [Strip(raw)]))))
  {
  }

  /** A data line in the `[ospf]` section of an open block must hold exactly
      two words, the network and its area; any other line fails the parse. */
  lemma OspfStep(st: ParserState, raw: string)
    requires st.current.Some? && st.section == Some("ospf") && IsDataLine(raw)
    ensures var words := SplitWhitespace(Strip(raw));
            var b := st.current.value;
            && (Step(st, raw).Ok? <==> |words| == 2)
            && (|words| == 2 ==>
                  Step(st, raw).value == st.(current := Some(b.(ospfNetworks := b.ospfNetworks + [OspfNetwork(words[0], words[1])]))))
  {
    assert Step(st, raw) == Data(st, Strip(raw));
  }

  /** Outside a block, data lines are ignored, except in the `[lan]` section. */
  lemma DataOutsideBlockIgnored(st: ParserState, raw: string)
    requires st.current.None? && st.section != Some("lan") && IsDataLine(raw)
    ensures Step(st, raw) == Ok(st)
  {
  }

  /** Every data line of a block's `[rip]` section is appended, in order, to
      its RIP networks. */
  lemma {:induction false} RipSectionLines(st: ParserState, xs: seq<string>)
    requires st.current.Some? && st.section == Some("rip")
    requires forall k :: 0 <= k < |xs| ==> IsDataLine(xs[k])
    ensures var b := st.current.value;
            RunFrom(st, xs) == Ok(st.(current := Some(b.(ripNetworks := b.ripNetworks + Stripped(xs)))))
  {
    var b := st.current.value;
    if xs != [] {
      var init := xs[..|xs| - 1];
      RipSectionLines(st, init);
      RipStep(RunFrom(st, init).value, xs[|xs| - 1]);
      AppendAssoc(b.ripNetworks, Stripped(init), [Strip(xs[|xs| - 1])]);
    } else {
      assert b.ripNetworks + [] == b.ripNetworks;
      assert b.(ripNetworks := b.ripNetworks) == b;
    }
  }

  /** The stripped form of each line, in order. */
  function Stripped(xs: seq<string>): (ls: seq<string>)
    ensures |ls| == |xs|
  {
    if xs == [] then [] else Stripped(xs[..|xs| - 1]) + [Strip(xs[|xs| - 1])]
  }

  /** The machines the lines parse to, in order; a line that does not parse
      contributes none. */
  function ParsedMachines(xs: seq<string>): seq<Machine> {
    if xs == [] then []
    else
      ParsedMachines(xs[..|xs| - 1]) + match ParseMachine(Strip(xs[|xs| - 1])) {
        case Some(m) => [m]
        case None => []
      }
  }

  /** Inside a block's `[as]` section the first line ever seen by the block
      becomes its AS number and every later line is a manually advertised
      network, in order. */
  lemma {:induction false} AsSectionLines(st: ParserState, xs: seq<string>)
    requires st.current.Some? && st.section == Some("as")
    requires forall k :: 0 <= k < |xs| ==> IsDataLine(xs[k])
    ensures var ls := Stripped(xs);
            var b := st.current.value;
            RunFrom(st, xs) == Ok(st.(current := Some(
              if b.asNumber.None? && ls != [] then
                b.(asNumber := Some(ls[0]), manualBgpNetworks := b.manualBgpNetworks + ls[1..])
              else
                b.(manualBgpNetworks := b.manualBgpNetworks + ls))))
  {
    var b := st.current.value;
    if b.asNumber.Some? || xs == [] {
      AsNumberSetLines(st, xs);
    } else {
      var st1 := st.(current := Some(b.(asNumber := Some(Strip(xs[0])))));
      assert RunFrom(st, [xs[0]]) == Ok(st1) by {
        RunFromOne(st, xs[0]);
        AsStep(st, xs[0]);
      }
      AsNumberSetLines(st1, xs[1..]);
      RunFromAppend(st, [xs[0]], xs[1..]);
      HeadTail(xs);
      StrippedHead(xs);
    }
  }

  lemma RunFromOne(st: ParserState, x: string)
    ensures RunFrom(st, [x]) == Step(st, x)
  {
    assert [x][..0] == [];
  }

  lemma HeadTail<T>(xs: seq<T>)
    requires xs != []
    ensures [xs[0]] + xs[1..] == xs
  {
  }

  /** Once the block has its AS number, every `[as]` line is a manual network. */
  lemma {:induction false} AsNumberSetLines(st: ParserState, xs: seq<string>)
    requires st.current.Some? && st.section == Some("as")
    requires st.current.value.asNumber.Some? || xs == []
    requires forall k :: 0 <= k < |xs| ==> IsDataLine(xs[k])
    ensures var b := st.current.value;
            RunFrom(st, xs) == Ok(st.(current := Some(b.(manualBgpNetworks := b.manualBgpNetworks + Stripped(xs)))))
  {
    var b := st.current.value;
    if xs != [] {
      var init := xs[..|xs| - 1];
      AsNumberSetLines(st, init);
      AsStep(RunFrom(st, init).value, xs[|xs| - 1]);
      AppendAssoc(b.manualBgpNetworks, Stripped(init), [Strip(xs[|xs| - 1])]);
    } else {
      assert b.manualBgpNetworks + [] == b.manualBgpNetworks;
      assert b.(manualBgpNetworks := b.manualBgpNetworks) == b;
    }
  }

  lemma {:induction false} StrippedHead(xs: seq<string>)
    requires xs != []
    ensures Stripped(xs) == [Strip(xs[0])] + Stripped(xs[1..])
  {
    if |xs| > 1 {
      var init := xs[..|xs| - 1];
      StrippedHead(init);
      assert init[1..] == xs[1..][..|xs[1..]| - 1];
    } else {
      assert xs[1..] == [];
    }
  }

  /** Every line is a data line holding a well-formed machine. */
  predicate AllMachineLines(xs: seq<string>) {
    xs == [] || (AllMachineLines(xs[..|xs| - 1]) && IsDataLine(xs[|xs| - 1]) && ParseMachine(Strip(xs[|xs| - 1])).Some?)
  }

  /** Inside a block and outside any section, machine lines that all parse
      are appended, in order, both to the global list and to the open block. */
  lemma {:induction false} MachineLinesAccepted(st: ParserState, xs: seq<string>)
    requires st.current.Some? && st.section.None?
    requires AllMachineLines(xs)
    ensures var ms := ParsedMachines(xs);
            var b := st.current.value;
            RunFrom(st, xs) == Ok(st.(machines := st.machines + ms, current := Some(b.(machines := b.machines + ms))))
  {
    var b := st.current.value;
    if xs == [] {
      assert st.machines + [] == st.machines && b.machines + [] == b.machines;
      assert b.(machines := b.machines) == b;
    } else {
      MachineLinesAccepted(st, xs[..|xs| - 1]);
      MachineAcceptStep(st, xs);
    }
  }

  /** The induction step of `MachineLinesAccepted`: one more machine line. */
  lemma MachineAcceptStep(st: ParserState, xs: seq<string>)
    requires xs != [] && st.current.Some? && st.section.None?
    requires IsDataLine(xs[|xs| - 1]) && ParseMachine(Strip(xs[|xs| - 1])).Some?
    requires var mi := ParsedMachines(xs[..|xs| - 1]);
             var b := st.current.value;
             RunFrom(st, xs[..|xs| - 1]) == Ok(st.(machines := st.machines + mi, current := Some(b.(machines := b.machines + mi))))
    ensures var ms := ParsedMachines(xs);
            var b := st.current.value;
            RunFrom(st, xs) == Ok(st.(machines := st.machines + ms, current := Some(b.(machines := b.machines + ms))))
  {
    var b := st.current.value;
    var x := xs[|xs| - 1];
    var mi := ParsedMachines(xs[..|xs| - 1]);
    var m := ParseMachine(Strip(x)).value;
    var s := st.(machines := st.machines + mi, current := Some(b.(machines := b.machines + mi)));
    RunFromLast(st, xs);
    ParsedLast(xs, m);
    MachineStepOk(s, x, m);
    AppendAssoc(st.machines, mi, [m]);
    AppendAssoc(b.machines, mi, [m]);
  }

  lemma RunFromLast(st: ParserState, xs: seq<string>)
    requires xs != [] && RunFrom(st, xs[..|xs| - 1]).Ok?
    ensures RunFrom(st, xs) == Step(RunFrom(st, xs[..|xs| - 1]).value, xs[|xs| - 1])
  {
  }

  lemma ParsedLast(xs: seq<string>, m: Machine)
    requires xs != [] && ParseMachine(Strip(xs[|xs| - 1])) == Some(m)
    ensures ParsedMachines(xs) == ParsedMachines(xs[..|xs| - 1]) + [m]
  {
  }

  lemma MachineStepOk(st: ParserState, raw: string, m: Machine)
    requires st.current.Some? && st.section.None? && IsDataLine(raw) && ParseMachine(Strip(raw)) == Some(m)
    ensures Step(st, raw) == Ok(st.(machines := st.machines + [m], current := Some(st.current.value.(machines := st.current.value.machines + [m]))))
  {
    MachineStep(st, raw);
  }

  /** Inside a block and outside any section, the run succeeds only if every
      machine line parses: one malformed machine line fails the whole parse. */
  lemma {:induction false} MachineLinesRejected(st: ParserState, xs: seq<string>, j: nat)
    requires st.current.Some? && st.section.None?
    requires forall k :: 0 <= k < |xs| ==> IsDataLine(xs[k])
    requires j < |xs| && ParseMachine(Strip(xs[j])).None?
    ensures RunFrom(st, xs) == Malformed
  {
    var n := |xs| - 1;
    var init := xs[..n];
    if j < n {
      assert init[j] == xs[j];
      MachineLinesRejected(st, init, j);
    } else if RunFrom(st, init).Ok? {
      assert j == n;
      var s := RunFrom(st, init).value;
      MachineSectionStays(st, init);
      MachineStep(s, xs[j]);
      assert Step(s, xs[j]) == Malformed;
    }
  }

  /** Machine lines keep the scanner inside the open block, outside any section. */
  lemma {:induction false} MachineSectionStays(st: ParserState, xs: seq<string>)
    requires st.current.Some? && st.section.None?
    requires forall k :: 0 <= k < |xs| ==> IsDataLine(xs[k])
    ensures RunFrom(st, xs).Ok? ==> RunFrom(st, xs).value.current.Some? && RunFrom(st, xs).value.section.None?
  {
    if xs != [] {
      var init := xs[..|xs| - 1];
      MachineSectionStays(st, init);
      if RunFrom(st, init).Ok? {
        MachineStep(RunFrom(st, init).value, xs[|xs| - 1]);
      }
    }
  }

  /** Every line is a well-formed `[lan]` entry `id:network/mask`. */
  predicate LanLines(xs: seq<string>) {
    xs == [] || (LanLines(xs[..|xs| - 1]) && IsDataLine(xs[|xs| - 1]) && IsLanLine(Strip(xs[|xs| - 1])))
  }

  /** Well-formed `[lan]` lines never fail and touch nothing but the LAN table. */
  lemma {:induction false} LanSectionStays(st: ParserState, xs: seq<string>)
    requires st.section == Some("lan")
    requires LanLines(xs)
    ensures RunFrom(st, xs).Ok? && RunFrom(st, xs).value == st.(lans := RunFrom(st, xs).value.lans)
  {
    if xs != [] {
      var init := xs[..|xs| - 1];
      LanSectionStays(st, init);
      LanStep(RunFrom(st, init).value, xs[|xs| - 1]);
    }
  }

  /** In a `[lan]` section, inside or outside a block, the last line with a
      given id decides that LAN: a later line overwrites an earlier one. */
  lemma {:induction false} LanSectionLastWins(st: ParserState, xs: seq<string>, j: nat)
    requires st.section == Some("lan")
    requires LanLines(xs)
    requires j < |xs| && forall k :: j < k < |xs| ==> LanId(Strip(xs[k])) != LanId(Strip(xs[j]))
    ensures RunFrom(st, xs).Ok?
    ensures var lans := RunFrom(st, xs).value.lans;
            && IsLanLine(Strip(xs[j]))
            && LanId(Strip(xs[j])) in lans && lans[LanId(Strip(xs[j]))] == LanOf(Strip(xs[j]))
  {
    var n := |xs| - 1;
    var init := xs[..n];
    LanSectionStays(st, init);
    var s := RunFrom(st, init).value;
    RunFromLast(st, xs);
    if j == n {
      LanStep(s, xs[j]);
    } else {
      LaterIdsInit(xs, j);
      LanSectionLastWins(st, init, j);
      LanStepOther(s, xs[n], LanId(Strip(xs[j])));
    }
  }

  /** Dropping the last line keeps line `j` and the lines after it. */
  lemma LaterIdsInit(xs: seq<string>, j: nat)
    requires j < |xs| - 1 && forall k :: j < k < |xs| ==> LanId(Strip(xs[k])) != LanId(Strip(xs[j]))
    ensures var init := xs[..|xs| - 1];
            init[j] == xs[j] && forall k :: j < k < |init| ==> LanId(Strip(init[k])) != LanId(Strip(init[j]))
  {
    var init := xs[..|xs| - 1];
    forall k | j < k < |init|
      ensures LanId(Strip(init[k])) != LanId(Strip(init[j]))
    {
      assert init[k] == xs[k] && init[j] == xs[j];
    }
  }

  /** A `[lan]` line for another id leaves this id's entry as it was. */
  lemma LanStepOther(st: ParserState, raw: string, id: string)
    requires st.section == Some("lan") && IsDataLine(raw) && IsLanLine(Strip(raw))
    requires LanId(Strip(raw)) != id
    ensures Step(st, raw).Ok?
    ensures var lans := Step(st, raw).value.lans;
            (id in lans <==> id in st.lans) && (id in st.lans ==> lans[id] == st.lans[id])
  {
    LanStep(st, raw);
  }

  /** An id no `[lan]` line mentions keeps its entry, or its absence. */
  lemma {:induction false} LanSectionUntouched(st: ParserState, xs: seq<string>, id: string)
    requires st.section == Some("lan")
    requires LanLines(xs)
    requires forall k :: 0 <= k < |xs| ==> LanId(Strip(xs[k])) != id
    ensures RunFrom(st, xs).Ok?
    ensures var lans := RunFrom(st, xs).value.lans;
            (id in lans <==> id in st.lans) && (id in st.lans ==> lans[id] == st.lans[id])
  {
    if xs != [] {
      var n := |xs| - 1;
      var init := xs[..n];
      forall k | 0 <= k < |init|
        ensures LanId(Strip(init[k])) != id
      {
        assert init[k] == xs[k];
      }
      LanSectionUntouched(st, init, id);
      LanSectionStays(st, init);
      LanStepOther(RunFrom(st, init).value, xs[n], id);
    }
  }

  // ----- the loop itself

  /** The body of the scanner's loop for one raw line, on the loop's own
      variables; `ok` is false when Python would raise on this line. */
  method ScanLine(activeSection: Option<string>, currentBlock: Option<Block>, allMachines: seq<Machine>,
                  generationBlocks: seq<Block>, lanConfig: map<string, Lan>, raw: string)
    returns (ok: bool, section': Option<string>, block': Option<Block>, machines': seq<Machine>,
             blocks': seq<Block>, lans': map<string, Lan>)
    ensures var r := Step(ParserState(activeSection, currentBlock, allMachines, generationBlocks, lanConfig), raw);
            if ok then r == Ok(ParserState(section', block', machines', blocks', lans')) else r == Malformed
  {
    ok, section', block', machines', blocks', lans' := true, activeSection, currentBlock, allMachines, generationBlocks, lanConfig;
    var line := Strip(raw);
    if line == [] || line[0] == '#' {
      return;
    }
    if line[0] == '[' && line[|line| - 1] == ']' {
      if line == "[block]" {
        block' := Some(EmptyBlock);
        section' := None;
      } else if line == "[/block]" {
        if currentBlock.Some? {
          blocks' := generationBlocks + [currentBlock.value];
        }
        block' := None;
        section' := None;
      } else if |line| >= 2 && line[..2] == "[/" {
        section' := None;
      } else {
        section' := Some(line[1..|line| - 1]);
      }
      return;
    }
    if currentBlock.Some? && activeSection.None? {
      var parsed := ParseMachine(line);
      if parsed.None? {
        ok := false;
        return;
      }
      var machine := parsed.value;
      machines' := allMachines + [machine];
      block' := Some(currentBlock.value.(machines := currentBlock.value.machines + [machine]));
    } else if activeSection == Some("as") && currentBlock.Some? {
      if currentBlock.value.asNumber.None? {
        block' := Some(currentBlock.value.(asNumber := Some(line)));
      } else {
        block' := Some(currentBlock.value.(manualBgpNetworks := currentBlock.value.manualBgpNetworks + [line]));
      }
    } else if activeSection == Some("rip") && currentBlock.Some? {
      block' := Some(currentBlock.value.(ripNetworks := currentBlock.value.ripNetworks + [line]));
    } else if activeSection == Some("ospf") && currentBlock.Some? {
      var words := SplitWhitespace(line);
      if |words| != 2 {
        ok := false;
        return;
      }
      block' := Some(currentBlock.value.(ospfNetworks := currentBlock.value.ospfNetworks + [OspfNetwork(words[0], words[1])]));
    } else if activeSection == Some("lan") {
      var fields := Split(line, ':');
      if |fields| != 2 {
        ok := false;
        return;
      }
      var netMask := Split(fields[1], '/');
      if |netMask| != 2 {
        ok := false;
        return;
      }
      lans' := lanConfig[fields[0] := Lan(netMask[0], netMask[1])];
    }
  }

  /** `parse_config_file` over lines already read from the file. */
  method ParseConfigFile(lines: seq<string>) returns (r: Parsed<Lab>)
    ensures r == Parse(lines)
  {
    var allMachines: seq<Machine> := [];
    var generationBlocks: seq<Block> := [];
    var lanConfig: map<string, Lan> := map[];
    var activeSection: Option<string> := None;
    var currentBlock: Option<Block> := None;
    var i := 0;
    while i < |lines|
      invariant 0 <= i <= |lines|
      invariant RunFrom(Initial, lines[..i])
             == Ok(ParserState(activeSection, currentBlock, allMachines, generationBlocks, lanConfig))
    {
      assert lines[..i + 1][..i] == lines[..i];
      var ok;
      ok, activeSection, currentBlock, allMachines, generationBlocks, lanConfig :=
        ScanLine(activeSection, currentBlock, allMachines, generationBlocks, lanConfig, lines[i]);
      if !ok {
        MalformedIsFinal(lines, i + 1);
        return Malformed;
      }
      i := i + 1;
    }
    assert lines[..i] == lines;
    r := Ok(Lab(allMachines, generationBlocks, lanConfig));
  }
}
