# Kathara lab generator: parser, BGP peering and file renderers

`lab_generator.py` reads a block-structured description of a small network and
writes a Kathara lab: per-machine FRR `daemons` and `frr.conf` files, a
`.startup` script per machine and the `lab.conf` manifest. This project models
the part of that program that makes decisions:

- **ConfigParser** (`parser.dfy`): `parse_config_file` as a step function
  `Step` over one stripped line (bracket tags `[block]`, `[/block]`, `[/x]`,
  `[x]`, then data lines read according to the active section), the whole run
  `RunFrom`, and the source's own loop (`ScanLine`, `ParseConfigFile`), proved
  equal to it. Every Python exception a line can raise (a bad machine, OSPF or
  LAN line) is the single outcome `Malformed`, which ends the parse.
- **Topology** (`topology.dfy`): the records the parser produces, the host
  address a machine gets on a LAN, and the `machine_to_as` map.
- **PeeringResolver** (`peering.dfy`): the BGP half of
  `generate_frr_conf_content`. The three nested loops are defined as folds
  (`PeerLines`, `PeerNets`, ...), and the loops themselves are methods proved
  against them (`ResolvePeering`, `ScanPeers`, `ScanPeer`, `ScanPair`).
  Deduplication and sorting are `sorted(set(...))` over Unicode code-point
  order (`StringOrder`, `order.dfy`).
- **FrrConfig** (`frrconf.dfy`): the BGP stanza, the per-type templates, and
  their placeholders filled with Python's `str.replace`.
- **Renderers** (`render.dfy`): `generate_daemons_content`,
  `generate_startup_content`, the `lab.conf` lines, and which machines get FRR
  files.
- **PyStrings** (`pystrings.dfy`): the Python string operations the program
  relies on, with Python's semantics (`strip`, `split`, `split()`, `join`,
  `in`, `replace`, decimal formatting).

Quirks of the code are modelled as written:
- A later `[lan]` line for the same id overwrites an earlier one.
- A block never closed by `[/block]` (or reopened by `[block]`) is dropped.
- Connections to undeclared LANs are skipped, both for peering and for
  addresses.
- Neighbor statements are deduplicated by their text.
- A machine of a type outside rip/ospf/both/bgp gets an empty `frr.conf`.
- For type `both`, the first `replace` also rewrites the OSPF placeholder
  line. That line starts with the RIP placeholder, so it becomes the RIP
  region followed by ` area (TODO)`. When no RIP network and no resolved BGP
  text contains `(`, the second `replace` finds no placeholder left, and the
  OSPF networks never reach the file (`FrrConfBoth`, `BothIgnoresOspfNetworks`).
  A RIP network such as `(TODO) area (TODO)` puts the OSPF placeholder back
  into the text, and then the second `replace` does fire.

Where the system's design notes and the code disagree, the model follows the
code:
- The design notes have bare `rip` / `ospf` / `as<n>` directives and closes
  blocks implicitly. The code uses bracket tags and explicit `[/block]`.
- The design notes make a connection to an undeclared LAN a fatal
  `UnresolvedLanReference`. The code silently skips it.
- The design notes deduplicate neighbors per peer ("two shared LANs give one
  neighbor line"). The code deduplicates by line text, so a peer reached on
  two LANs gets two lines, one per address.
- The design notes name distinct fatal error kinds, including
  `DuplicateMachineName`. The code has no such checks: duplicate names are
  accepted, and the parse fails only where Python raises.
- The design notes use the LAN's last octet as a base offset. The code
  replaces it with the machine's octet (`HostAddressReplacesLastOctet`).
- The design notes say absent regions render as empty. The code leaves
  `area (TODO)` text in a `both` router's file.

## Model

| member | source | states |
|---|---|---|
| `PyStrings.Strip` | lab_generator.py:182 | `line.strip()` leaves no whitespace at either end and never grows the line (which infix it keeps is `StripExactly`) |
| `PyStrings.StripExactly` | lab_generator.py:182 | `line.strip()` is the infix of the line with only whitespace before it and only whitespace after it |
| `PyStrings.Split` | lab_generator.py:204 | `split(c)` yields one more part than there are separators, and no part contains the separator |
| `PyStrings.JoinSplit` | lab_generator.py:216-217 | `split(c)` loses nothing: joining its parts with `c` gives back the text |
| `PyStrings.SplitJoin` | lab_generator.py:217 | splitting separator-free parts joined by `c` gives back the parts |
| `PyStrings.SplitWhitespaceWords` | lab_generator.py:233 | every part of `split()` is a non-empty run of non-whitespace characters (that they are the maximal runs, in order, is `SplitWhitespaceTokens`) |
| `PyStrings.SplitWhitespace` | lab_generator.py:233 | `s.split()` with no argument; it has no contract of its own, and is characterised by `SplitWhitespaceWords`, `SplitWhitespaceTokens` and `TokensUnique` |
| `PyStrings.SplitWhitespaceTokens` | lab_generator.py:233 | `split()` yields the words of the text in order: its first part starts after leading whitespace only and ends at whitespace or at the end of the text, and the other parts are those of the text after it |
| `PyStrings.TokensUnique` | lab_generator.py:233 | a text splits into words in one way only, so the property above determines `split()`'s result |
| `PyStrings.ReplaceAllAbsent` | lab_generator.py:208 | `replace` leaves text without an occurrence of the pattern unchanged |
| `PyStrings.ReplaceAllSplitsAtNewline` | lab_generator.py:118 | when the pattern holds no newline, `replace` on a text cut after a newline is `replace` on each part |
| `PyStrings.ReplaceAll` | lab_generator.py:118 | `str.replace`: non-overlapping occurrences replaced left to right, the replacement never rescanned; it has no contract of its own, and is characterised by `ReplaceAllAbsent` and `ReplaceAllSplitsAtNewline` |
| `StringOrder.SortedFromSet` | lab_generator.py:75-76 | `sorted(list(set))` is strictly ascending, has exactly the set's elements and the set's size |
| `StringOrder.SortedListingUnique` | lab_generator.py:75-76 | two strictly sorted listings with the same elements are equal, so the sorted output depends only on the set |
| `StringOrder.LessTotal` | lab_generator.py:75 | Python's string order relates every two distinct strings |
| `StringOrder.LessTransitive` | lab_generator.py:75 | Python's string order is transitive |
| `StringOrder.LessIrreflexive` | lab_generator.py:75 | no string is below itself |
| `StringOrder.LessAsymmetric` | lab_generator.py:75 | of two strings, at most one is below the other |
| `StringOrder.Less` | lab_generator.py:75-76 | Python's `<` on strings: code point by code point, a proper prefix first; it has no contract of its own, and is characterised by `LessIrreflexive`, `LessAsymmetric`, `LessTransitive` and `LessTotal` |
| `Topology.HostAddressReplacesLastOctet` | lab_generator.py:160-161 | for a dotted quad `a.b.c.d` the address is `a.b.c.<octet>` |
| `Topology.AsMapDomain` | lab_generator.py:251 | a name is in `machine_to_as` exactly when some block with an AS number lists a machine of that name |
| `Topology.AsMapLastBlockWins` | lab_generator.py:251 | a repeated name maps to the AS number of the last block that lists it |
| `Topology.AsMap` | lab_generator.py:251 | `machine_to_as`; it has no contract of its own, and is characterised by `AsMapDomain` and `AsMapLastBlockWins` |
| `ConfigParser.ParseMachineExactly` | lab_generator.py:204-218 | a machine line is accepted exactly when it has two colons, a dot in its third field and enough octets for its LAN characters; the record's name, BGP flag, base type and connections are read off the fields |
| `ConfigParser.KindIsReplace` | lab_generator.py:206-214 | the base type is always the type token with `+bgp` removed, and base type `bgp` implies the BGP flag |
| `ConfigParser.MachineLineRoundTrip` | lab_generator.py:204-218 | writing a machine line from separator-free fields and parsing it gives those fields back |
| `ConfigParser.ParseMachine` | lab_generator.py:204-218 | the machine line reader; it has no contract of its own, and is characterised by `ParseMachineExactly`, `KindIsReplace` and `MachineLineRoundTrip` |
| `ConfigParser.Step` | lab_generator.py:182-239 | one loop iteration: a stripped blank or `#` line is skipped, a bracketed line is a tag, anything else is data for the active section; it has no contract of its own, and is characterised by the step lemmas below and by `ScanLine` |
| `ConfigParser.RunFrom` | lab_generator.py:181-239 | the loop over the lines, ending at the first line that raises; it has no contract of its own, and is characterised by `RunFromAppend`, `MalformedIsFinal` and `ParseConfigFile` |
| `ConfigParser.Parse` | lab_generator.py:174-241 | `parse_config_file`'s result; it has no contract of its own, and is characterised by `ParsedLabWellFormed` and `ParseConfigFile` |
| `ConfigParser.RunFromAppend` | lab_generator.py:181-239 | scanning `xs + ys` is scanning `xs`, then `ys` from the state reached, and a failure is final |
| `ConfigParser.MalformedIsFinal` | lab_generator.py:181-241 | a line that raises aborts the whole parse, whatever follows |
| `ConfigParser.StepKeepsWellFormed` | lab_generator.py:181-239 | one line keeps the scanner's invariants |
| `ConfigParser.RunKeepsWellFormed` | lab_generator.py:174-241 | every successful prefix of a run keeps the scanner's invariants |
| `ConfigParser.ParsedLabWellFormed` | lab_generator.py:174-241 | after a successful parse every block machine is in the machine list, base type `bgp` carries the BGP flag, and every AS number present is non-empty |
| `ConfigParser.StepKeepsBlocks` | lab_generator.py:186-239 | a line other than `[/block]` leaves the block list unchanged |
| `ConfigParser.BlocksOnlyOnClose` | lab_generator.py:186-239 | lines without `[/block]` never add a block, so an unclosed or reopened block is dropped |
| `ConfigParser.CloseAppendsOpenBlock` | lab_generator.py:191-195 | `[/block]` appends the open block if there is one, closes it and the section, and touches nothing else |
| `ConfigParser.AsStep` | lab_generator.py:223-227 | an `[as]` line sets the AS number when the block has none, else appends a manual network |
| `ConfigParser.AsSectionLines` | lab_generator.py:223-227 | over a run of `[as]` lines the first line ever seen by the block becomes its AS number and the rest are manual networks, in order |
| `ConfigParser.AsNumberSetLines` | lab_generator.py:224-227 | once the AS number is set, every `[as]` line is appended as a manual network |
| `ConfigParser.MachineStep` | lab_generator.py:203-221 | a line in an open block outside any section adds the parsed machine to both lists, or fails the parse |
| `ConfigParser.MachineLinesAccepted` | lab_generator.py:203-221 | machine lines that all parse are appended, in order, to the lab's list and to the open block's list |
| `ConfigParser.MachineLinesRejected` | lab_generator.py:203-218 | one machine line that does not parse fails the whole run |
| `ConfigParser.MachineSectionStays` | lab_generator.py:203-221 | machine lines keep the scanner inside the open block and outside any section |
| `ConfigParser.RipStep` | lab_generator.py:229-230 | a data line in an open block's `[rip]` section is appended, stripped, to its RIP networks, and nothing else changes |
| `ConfigParser.RipSectionLines` | lab_generator.py:229-230 | a run of `[rip]` data lines appends all of them, stripped and in order, to the block's RIP networks |
| `ConfigParser.OspfStep` | lab_generator.py:232-234 | an `[ospf]` data line succeeds exactly when `split()` gives two words, and then appends the pair (network, area) to the block's OSPF networks; otherwise the parse fails |
| `ConfigParser.DataOutsideBlockIgnored` | lab_generator.py:203-239 | with no open block, a data line outside the `[lan]` section changes nothing |
| `ConfigParser.LanStep` | lab_generator.py:236-239 | a well-formed `[lan]` line sets its id's entry to its network and mask |
| `ConfigParser.LanLineRejected` | lab_generator.py:236-238 | a `[lan]` data line that is not `id:network/mask` (exactly one `:`, and exactly one `/` after it) fails the parse |
| `ConfigParser.LanSectionStays` | lab_generator.py:236-239 | well-formed `[lan]` lines never fail and change only the LAN table |
| `ConfigParser.LanSectionLastWins` | lab_generator.py:236-239 | the last `[lan]` line with a given id decides that LAN |
| `ConfigParser.LanSectionUntouched` | lab_generator.py:236-239 | an id no `[lan]` line mentions keeps its entry, or its absence |
| `ConfigParser.ScanLine` | lab_generator.py:182-239 | the loop body on the loop's own variables is exactly one scanner step, and it fails exactly where Python raises |
| `ConfigParser.ParseConfigFile` | lab_generator.py:174-241 | the loop over the file's lines returns what the step-function run returns |
| `PeeringResolver.Resolve` | lab_generator.py:50-76 | a stanza exists exactly for a BGP machine whose block has a non-empty AS number; its neighbor and network lists are strictly sorted, and the manual networks are among the networks |
| `PeeringResolver.ResolvePeering` | lab_generator.py:50-76 | the resolver as run equals `Resolve` |
| `PeeringResolver.ScanPeers` | lab_generator.py:55-73 | the loop over all machines builds exactly the outer folds |
| `PeeringResolver.ScanPeer` | lab_generator.py:62-73 | the loop over the machine's connections appends exactly the middle folds |
| `PeeringResolver.ScanPair` | lab_generator.py:63-73 | the loop over the peer's connections appends exactly the inner folds |
| `PeeringResolver.PairLinesMembers` | lab_generator.py:63-69 | for one connection, the lines are exactly the neighbor statements of the peer connections sharing a declared LAN |
| `PeeringResolver.PairNetsMembers` | lab_generator.py:63-73 | for one connection, a network is added exactly when the peer is in another AS and some peer connection shares the declared LAN |
| `PeeringResolver.ConnLinesMembers` | lab_generator.py:62-69 | for one peer, the lines are exactly the neighbor statements of the interface pairs sharing a declared LAN |
| `PeeringResolver.ConnNetsMembers` | lab_generator.py:62-73 | for one peer, the networks are exactly the shared declared LANs, and only towards another AS |
| `PeeringResolver.PeerLinesMembers` | lab_generator.py:55-69 | a line is produced exactly for an interface pair shared with a candidate peer |
| `PeeringResolver.PeerNetsMembers` | lab_generator.py:55-73 | a network is added exactly for a LAN shared with a candidate peer in another AS |
| `PeeringResolver.NeighborsExactly` | lab_generator.py:55-75 | the neighbor statements are one per shared interface pair with a candidate peer (another machine, with BGP, with a non-empty AS), naming the peer's address and AS, deduplicated by text |
| `PeeringResolver.NetworksExactly` | lab_generator.py:53-76 | the advertised networks are the manual networks plus every shared declared LAN towards a candidate peer in another AS |
| `PeeringResolver.IntraAsSuppression` | lab_generator.py:71-76 | with every candidate peer in the machine's own AS, only the manual networks are advertised |
| `PeeringResolver.PeerOrderIrrelevant` | lab_generator.py:53-76 | the stanza depends only on which machines and manual networks exist, not on their order or repetition |
| `FrrConfig.BgpConfigPresent` | lab_generator.py:50-101 | `bgp_config` is non-empty exactly for a BGP machine in a block with a non-empty AS number, and then starts with `router bgp <AS>` |
| `FrrConfig.BgpConfig` | lab_generator.py:50-101 | `bgp_config`: the stanza text or the empty string; it has no contract of its own, and is characterised by `BgpConfigPresent` |
| `FrrConfig.NetworkLinesOnePerLine` | lab_generator.py:103 | with newline-free networks, the joined network statements read back line by line are exactly one `   network <net>` statement per network, in order |
| `FrrConfig.OspfLinesOnePerLine` | lab_generator.py:104 | with newline-free networks and areas, the joined OSPF statements read back line by line are exactly one `   network <net> area <area>` statement per entry, in order |
| `FrrConfig.FrrConfRip` | lab_generator.py:107-118 | a rip router's file is the RIP template with the placeholder line replaced by the RIP region and nothing else changed |
| `FrrConfig.FrrConfOspf` | lab_generator.py:119-131 | an ospf router's file is the OSPF template with the placeholder line replaced by the OSPF region; the stub comment stays |
| `FrrConfig.OspfLineFilledWithRip` | lab_generator.py:148 | the first `replace` turns the OSPF placeholder line into the RIP region followed by ` area (TODO)` |
| `FrrConfig.FrrConfBoth` | lab_generator.py:132-149 | a both router's file has the RIP region in both placeholder lines, the second followed by ` area (TODO)`, and no OSPF network text |
| `FrrConfig.BothIgnoresOspfNetworks` | lab_generator.py:132-149 | a both router's file is the same whatever its block's OSPF networks |
| `FrrConfig.FrrConfBgp` | lab_generator.py:150-151 | a bgp router's file is the header, `!`, the stanza and the log line |
| `FrrConfig.FrrConfOtherTypes` | lab_generator.py:106-152 | every other type gets an empty file |
| `FrrConfig.FrrConf` | lab_generator.py:106-152 | the dispatch on the machine type; it has no contract of its own, and is characterised by `FrrConfRip`, `FrrConfOspf`, `FrrConfBoth`, `FrrConfBgp` and `FrrConfOtherTypes` |
| `FrrConfig.FrrConfContent` | lab_generator.py:45-152 | `generate_frr_conf_content`; it has no contract of its own, and is characterised by `GenerateFrrConfContent` and the `FrrConf` lemmas |
| `FrrConfig.GenerateFrrConfContent` | lab_generator.py:45-152 | the file as computed, running the resolver's loops, equals the template dispatch over the resolved stanza |
| `Renderers.DaemonsLines` | lab_generator.py:17-43 | the file has one line per daemon plus five fixed lines |
| `Renderers.DaemonsSwitches` | lab_generator.py:17-42 | line `i` switches daemon `i` on exactly when the machine runs it (zebra always, bgpd with BGP, ospfd for ospf/both, ripd for rip/both), and the fixed option lines follow |
| `Renderers.DaemonsContent` | lab_generator.py:17-43 | `generate_daemons_content`, the newline-terminated text of `DaemonsLines`; it has no contract of its own, and is characterised by `DaemonsSwitches` |
| `Renderers.ServiceLines` | lab_generator.py:165-171 | FRR is started for rip/ospf/both/bgp or any BGP machine, apache2 for a server without BGP, nothing otherwise |
| `Renderers.GenerateStartupContent` | lab_generator.py:154-172 | the loop over the connections produces the address lines and the service line, joined and ended by a newline |
| `Renderers.AddressLinesSound` | lab_generator.py:156-163 | every address line comes from a connection on a declared LAN and names that connection's own index |
| `Renderers.AddressLinesComplete` | lab_generator.py:156-163 | every connection on a declared LAN gets its line on `eth<its index>`, whatever undeclared LANs precede it |
| `Renderers.AddressLinesAllDeclared` | lab_generator.py:156-163 | with every LAN declared, line `i` is connection `i`'s address line |
| `Renderers.DeclaredIndicesExactly` | lab_generator.py:156-163 | the indices of the connections on declared LANs are listed each once, strictly increasing, and nothing else is |
| `Renderers.AddressLinesInOrder` | lab_generator.py:156-163 | address line `k` is the line of the `k`-th connection on a declared LAN, on that connection's own interface, so the lines keep connection order also when declared and undeclared LANs mix |
| `Renderers.AddressLines` | lab_generator.py:156-163 | the address lines; it has no contract of its own, and is characterised by `AddressLinesSound`, `AddressLinesComplete`, `AddressLinesAllDeclared` and `AddressLinesInOrder` |
| `Renderers.StartupContent` | lab_generator.py:154-172 | `generate_startup_content`; it has no contract of its own, and is characterised by `GenerateStartupContent`, `StartupIsLines` and the address-line lemmas |
| `Renderers.StartupIsLines` | lab_generator.py:172 | the script always ends with a newline: just `\n` with no lines, each line newline-terminated otherwise |
| `Renderers.ManifestLines` | lab_generator.py:293-295 | a machine contributes one `lab.conf` line per interface, line `i` binding interface `i` to its connection's LAN, then its image line and a blank line |
| `Renderers.LabConfIsLines` | lab_generator.py:290-295 | `lab.conf` is the newline-terminated text of its lines, machine after machine |
| `Renderers.LabConf` | lab_generator.py:290-295 | the text of `lab.conf`; it has no contract of its own, and is characterised by `LabConfIsLines` and the `LabConfLines` lemmas |
| `Renderers.LabConfLinesAppend` | lab_generator.py:291-295 | the lines of more machines are appended after those already written |
| `Renderers.LabConfMachineOrder` | lab_generator.py:291-295 | machine `k`'s lines sit right after those of the machines before it and right before those of the machines after it, so `lab.conf` follows the machine list's order |
| `Renderers.LabConfLinesSound` | lab_generator.py:291-295 | every `lab.conf` line binds some machine's interface `i` to its `i`-th connection's LAN, is an image line, or is blank |
| `Renderers.LabConfLinesComplete` | lab_generator.py:291-295 | every interface of every machine is bound to its LAN, and every machine has its image line |
| `Renderers.FrrFilesExactly` | lab_generator.py:265-266 | FRR files go exactly to rip/ospf/both routers and to BGP machines of type bgp or host; a server with BGP starts FRR but gets no FRR files |

## Left out

- File I/O is not modelled: opening and reading the description file, creating directories, writing files, and the `os.path` joins. `ParseConfigFile` takes the file's lines as a parameter. The renderers return file contents.
- `main`'s console messages, `sys.argv` handling and the missing-file exit are not modelled.
- `INDEX_HTML_CONTENT` and the web-root file are not modelled. Only the choice between FRR files and a web root is (`FrrFilesExactly`).
- Python's exception types are not distinguished. Every raising line is `Malformed`, and a failed parse writes nothing.
- `defaultdict(list)` is not modelled. A block is a record whose lists start empty and whose AS number is optional; `"as_number" in block` is `asNumber.Some?`.
- The machine type is a free string, as in the code. The design notes' enumeration of types is not imposed.
- `main`'s iteration over blocks and machines, which calls the renderers, is not modelled beyond `FrrFilesExactly`. Each renderer is modelled for one machine.
- FrrConfig.FrrConfRip: proved under the hypothesis that no resolved neighbor or network text contains `(`. With `(` in user text, a placeholder could in principle appear inside the stanza and also be replaced.
- FrrConfig.FrrConfOspf: proved under the same `(` hypothesis as `FrrConfRip`.
- FrrConfig.FrrConfBoth: proved under the same hypothesis, and also for RIP networks without `(`.
- FrrConfig.BothIgnoresOspfNetworks: proved for blocks whose RIP networks and resolved stanza text contain no `(`.
- ConfigParser.MachineLineRoundTrip: stated only for fields without the grammar's separators, which are the only lines the grammar can round-trip.
- Python's `str.isspace` is modelled by its table of whitespace code points. Unicode normalisation and surrogate handling are not modelled.
