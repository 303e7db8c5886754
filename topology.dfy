/** The records the lab description is parsed into: machines with their
    interface connections, LAN definitions and generation blocks, and the
    machine-name to AS-number map derived from the blocks. */
module Topology {
  import opened PyStrings

  datatype Option<T> = None | Some(value: T)

  /** Interface `i` of a machine: the LAN it is attached to (a one-character
      id) and the host octet it takes on that LAN. */
  datatype Connection = Connection(lan: string, octet: string)

  /** A machine line `name:type:lans.octets`; `kind` is the type with any
      `+bgp` removed. */
  datatype Machine = Machine(name: string, kind: string, hasBgp: bool, connections: seq<Connection>)

  datatype OspfNetwork = OspfNetwork(network: string, area: string)

  /** A `[block]` ... `[/block]` group. The list fields start empty and
      `asNumber` is unset until the block's first `[as]` line. */
  datatype Block = Block(
    machines: seq<Machine>,
    asNumber: Option<string>,
    manualBgpNetworks: seq<string>,
    ripNetworks: seq<string>,
    ospfNetworks: seq<OspfNetwork>)

  const EmptyBlock := Block([], None, [], [], [])

  /** A `[lan]` entry `id:network/mask`. */
  datatype Lan = Lan(network: string, mask: string)

  /** What the parser hands on: every machine line in order, the closed
      blocks in order, and the LAN table. */
  datatype Lab = Lab(machines: seq<Machine>, blocks: seq<Block>, lans: map<string, Lan>)

  /** Python truthiness of an optional string: present and non-empty. */
  predicate Truthy(o: Option<string>) {
    o.Some? && o.value != ""
  }

  /** The first three dot-separated fields of a network address, rejoined. */
  function NetworkBase(network: string): string {
    var fields := Split(network, '.');
    Join(if |fields| <= 3 then fields else fields[..3], ".")
  }

  /** The address a machine takes on a LAN: the LAN's base with the machine's
      octet in place of the last field. */
  function HostAddress(lan: Lan, octet: string): string {
    NetworkBase(lan.network) + "." + octet
  }

  /** For a dotted quad `a.b.c.d` the host address is `a.b.c.<octet>`. */
  lemma HostAddressReplacesLastOctet(a: string, b: string, c: string, d: string, mask: string, octet: string)
    requires '.' !in a && '.' !in b && '.' !in c && '.' !in d
    ensures HostAddress(Lan(a + "." + b + "." + c + "." + d, mask), octet) == a + "." + b + "." + c + "." + octet
  {
    var network := a + "." + b + "." + c + "." + d;
    assert Join([c, d], ".") == c + "." + d by {
      assert [c, d][1..] == [d];
    }
    assert Join([b, c, d], ".") == b + "." + c + "." + d by {
      assert [b, c, d][1..] == [c, d];
    }
    assert Join([a, b, c, d], ".") == network by {
      assert [a, b, c, d][1..] == [b, c, d];
    }
    SplitJoin([a, b, c, d], '.');
    assert [a, b, c, d][..3] == [a, b, c];
    assert Join([b, c], ".") == b + "." + c by {
      assert [b, c][1..] == [c];
    }
    assert Join([a, b, c], ".") == a + "." + b + "." + c by {
      assert [a, b, c][1..] == [b, c];
    }
  }

  /** The `network/mask` text of a LAN. */
  function Cidr(lan: Lan): string {
    lan.network + "/" + lan.mask
  }

  /** The AS-number entries one block contributes. */
  function BlockAsEntries(b: Block): (m: map<string, string>)
    ensures forall n :: n in m <==> b.asNumber.Some? && exists k :: 0 <= k < |b.machines| && b.machines[k].name == n
    ensures forall n :: n in m ==> m[n] == b.asNumber.value
  {
    if b.asNumber.None? then map[]
    else
      var names := set k | 0 <= k < |b.machines| :: b.machines[k].name;
      map n | n in names :: b.asNumber.value
  }

  /** `machine_to_as`: each machine of each block that has an AS number,
      mapped to that number; a name listed again in a later block takes the
      later block's number. */
  function AsMap(blocks: seq<Block>): map<string, string> {
    if blocks == [] then map[]
    else AsMap(blocks[..|blocks| - 1]) + BlockAsEntries(blocks[|blocks| - 1])
  }

  /** Block `i` declares an AS number and has a machine called `name`. */
  predicate AssignsAs(blocks: seq<Block>, i: int, name: string) {
    0 <= i < |blocks| && blocks[i].asNumber.Some?
    && exists k :: 0 <= k < |blocks[i].machines| && blocks[i].machines[k].name == name
  }

  /** The blocks before the last one assign a name as they did in the whole list. */
  lemma AssignsAsInit(blocks: seq<Block>, i: int, name: string)
    requires 0 <= i < |blocks| - 1
    ensures AssignsAs(blocks[..|blocks| - 1], i, name) <==> AssignsAs(blocks, i, name)
  {
    assert blocks[..|blocks| - 1][i] == blocks[i];
  }

  /** A name is in the AS map exactly when some block with an AS number holds
      a machine of that name. */
  lemma {:induction false} AsMapDomain(blocks: seq<Block>, name: string)
    ensures name in AsMap(blocks) <==> exists i :: AssignsAs(blocks, i, name)
  {
    if blocks != [] {
      var n := |blocks| - 1;
      var init := blocks[..n];
      AsMapDomain(init, name);
      assert name in BlockAsEntries(blocks[n]) <==> AssignsAs(blocks, n, name);
      if exists i :: AssignsAs(blocks, i, name) {
        var i :| AssignsAs(blocks, i, name);
        if i < n {
          AssignsAsInit(blocks, i, name);
        }
      }
      if exists i :: AssignsAs(init, i, name) {
        var i :| AssignsAs(init, i, name);
        AssignsAsInit(blocks, i, name);
      }
    }
  }

  /** A name maps to the AS number of the last block that assigns it one. */
  lemma {:induction false} AsMapLastBlockWins(blocks: seq<Block>, name: string, i: int)
    requires AssignsAs(blocks, i, name)
    requires forall j :: i < j < |blocks| ==> !AssignsAs(blocks, j, name)
    ensures name in AsMap(blocks) && AsMap(blocks)[name] == blocks[i].asNumber.value
  {
    var n := |blocks| - 1;
    var init := blocks[..n];
    if i < n {
      assert name !in BlockAsEntries(blocks[n]) by {
        assert !AssignsAs(blocks, n, name);
      }
      AssignsAsInit(blocks, i, name);
      forall j | i < j < |init|
        ensures !AssignsAs(init, j, name)
      {
        AssignsAsInit(blocks, j, name);
      }
      AsMapLastBlockWins(init, name, i);
    } else {
      assert name in BlockAsEntries(blocks[n]);
    }
  }
}
