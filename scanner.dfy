/** The subnet sweep (backend/snmp/scanner.go): `scanHost` probes one address
    for its identity and metrics; `ScanSubnet` walks a CIDR block from its
    network address upwards and probes every address whose dotted form does
    not end in ".0" or ".255". The Go code probes concurrently, at most 250
    at a time, and appends results in completion order; here the probes run
    one after the other and the result is compared as a multiset. */
module Scanner {
  import opened Common
  import opened Snmp
  import opened Metrics
  import opened Ipv4

  /** Go's `DiscoveredDevice`. */
  datatype Device = Device(
    ipAddress: string,
    name: string,
    upTime: string,
    sysDesc: string,
    metrics: DeviceMetrics)

  // The names under which the identity variables come back.
  const SysNameOid := ".1.3.6.1.2.1.1.5.0"
  const SysUpTimeOid := ".1.3.6.1.2.1.1.3.0"
  const SysDescrOid := ".1.3.6.1.2.1.1.1.0"

  /** The OID list of the identity GET, as `scanHost` requests it. */
  const IdentityOids := ["1.3.6.1.2.1.1.5.0", "1.3.6.1.2.1.1.3.0", "1.3.6.1.2.1.1.1.0"]

  /** `scanHost` converts the name and description values with a `[]byte`
      type assertion, which panics on any other type; the model requires
      that an agent's identity response never provokes that. */
  predicate IdentityWellTyped(agent: Agent) {
    agent.get(IdentityOids).Ok? ==>
      && TextValued(agent.get(IdentityOids).value, SysNameOid)
      && TextValued(agent.get(IdentityOids).value, SysDescrOid)
  }

  /** The device's metrics after the loop of `scanHost` has seen `vars`: the
      metrics of the last iteration whose `GetDeviceMetrics` call (made with
      the description as it stood then) succeeded, the zero value if none
      did. Processes and Description are never filled. */
  function MetricsAfter(agent: Agent, vars: seq<Pdu>): (m: DeviceMetrics)
    ensures m.processes == "" && m.description == ""
  {
    if vars == [] then NoMetrics
    else
      match MetricsOf(agent, LastText(vars, SysDescrOid))
      case Ok(fetched) => NoMetrics.(
        cpuUsage := fetched.cpuUsage,
        cpuIdle := fetched.cpuIdle,
        memTotalKB := fetched.memTotalKB,
        memFreeKB := fetched.memFreeKB,
        processes := fetched.processes)
      case Err(_) => MetricsAfter(agent, vars[..|vars| - 1])
  }

  /** What `scanHost(ip)` returns: an error when the session cannot be opened
      or the identity GET fails; otherwise a device that carries the probed
      address, whose name, uptime and description are the values of the
      last variable with the matching OID ("" when there is none, other
      names change nothing), and whose metrics are `MetricsAfter`. */
  function HostScan(ip: string, agent: Agent): Result<Device> {
    if !agent.reachable then Err(ConnectFailed)
    else
      match agent.get(IdentityOids)
      case Err(_) => Err(GetFailed)
      case Ok(vars) => Ok(Device(
        ip,
        LastText(vars, SysNameOid),
        LastRendered(vars, SysUpTimeOid),
        LastText(vars, SysDescrOid),
        MetricsAfter(agent, vars)))
  }

  /** `scanHost`: connect, GET the identity, then fill the device variable by
      variable, fetching the metrics again after each one. */
  method ScanHost(ip: string, agent: Agent) returns (r: Result<Device>)
    requires IdentityWellTyped(agent)
    ensures r == HostScan(ip, agent)
    ensures r.Err? <==> !agent.reachable || agent.get(IdentityOids).Err?
    ensures r.Ok? ==> r.value.ipAddress == ip
    ensures r.Ok? ==> r.value.metrics.processes == "" && r.value.metrics.description == ""
  {
    if !agent.reachable {
      return Err(ConnectFailed);
    }
    var result := agent.get(IdentityOids);
    if result.Err? {
      return Err(GetFailed);
    }
    var vars := result.value;
    var device := Device(ip, "", "", "", NoMetrics);
    for i := 0 to |vars|
      invariant device == Device(ip, LastText(vars[..i], SysNameOid), LastRendered(vars[..i], SysUpTimeOid),
                                 LastText(vars[..i], SysDescrOid), MetricsAfter(agent, vars[..i]))
    {
      var variable := vars[i];
      assert vars[..i + 1][..i] == vars[..i];
      if variable.name == SysNameOid {
        device := device.(name := BytesToString(variable.value.bytes));
      } else if variable.name == SysUpTimeOid {
        device := device.(upTime := Render(variable.value));
      } else if variable.name == SysDescrOid {
        device := device.(sysDesc := BytesToString(variable.value.bytes));
      }
      var metrics := GetDeviceMetrics(agent, device.sysDesc);
      if metrics.Ok? {
        var m := metrics.value;
        device := device.(metrics := device.metrics.(
          cpuUsage := m.cpuUsage,
          cpuIdle := m.cpuIdle,
          memTotalKB := m.memTotalKB,
          memFreeKB := m.memFreeKB,
          processes := m.processes));
      }
    }
    assert vars[..|vars|] == vars;
    return Ok(device);
  }

  /** The network address of a block: its written address, masked. */
  function NetworkAddress(c: Cidr): nat
    requires SweepableBlock(c)
  {
    Masked(BigEndian(c.address), c.prefix)
  }

  /** The address values `ScanSubnet` probes, in the order it probes them. */
  function SweepAddresses(c: Cidr): seq<nat>
    requires SweepableBlock(c)
  {
    Sweep(NetworkAddress(c), BlockSize(c.prefix))
  }

  /** The dotted quads of address values, in order. */
  function DottedAll(vs: seq<nat>): (r: seq<string>)
    ensures |r| == |vs|
  {
    if vs == [] then [] else DottedAll(vs[..|vs| - 1]) + [DottedValue(vs[|vs| - 1], 4)]
  }

  /** What one probe adds to the result: its device when `scanHost` succeeds. */
  function Found(ip: string, agent: Agent): (r: seq<Device>)
    ensures |r| <= 1
    ensures r != [] <==> agent.reachable && agent.get(IdentityOids).Ok?
    ensures r != [] ==> r[0].ipAddress == ip
  {
    match HostScan(ip, agent)
    case Ok(d) => [d]
    case Err(_) => []
  }

  /** The devices of the probes that succeed, in probe order. */
  function Responders(ips: seq<string>, net: Network): seq<Device> {
    if ips == [] then []
    else Responders(ips[..|ips| - 1], net) + Found(ips[|ips| - 1], net(ips[|ips| - 1]))
  }

  /** Every device found carries the address it was found at, and every
      address is found at most once per probe. */
  lemma {:induction false} RespondersFromProbes(ips: seq<string>, net: Network)
    ensures |Responders(ips, net)| <= |ips|
    ensures forall i :: 0 <= i < |Responders(ips, net)| ==> Responders(ips, net)[i].ipAddress in ips
  {
    if ips != [] {
      var pre := ips[..|ips| - 1];
      RespondersFromProbes(pre, net);
      forall i | 0 <= i < |Responders(ips, net)|
        ensures Responders(ips, net)[i].ipAddress in ips
      {
        if i < |Responders(pre, net)| {
          var a := Responders(pre, net)[i].ipAddress;
          assert a in pre;
          var j :| 0 <= j < |pre| && pre[j] == a;
          assert ips[j] == a;
        }
      }
    }
  }

  /** The network address is aligned to the block and is an IPv4 value. */
  lemma NetworkAligned(c: Cidr)
    requires SweepableBlock(c)
    ensures NetworkAddress(c) % BlockSize(c.prefix) == 0
    ensures NetworkAddress(c) < AddressSpace
  {
    var v, size := BigEndian(c.address), BlockSize(c.prefix);
    LowBitsMod(v, 32 - c.prefix);
    MaskedAligned(v, size);
    FourBytes();
  }

  lemma MaskedAligned(v: nat, size: nat)
    requires size >= 1
    ensures (v - v % size) % size == 0 && v - v % size <= v
  {
    ModUnique(v - v % size, size, v / size, 0);
  }

  lemma FourBytes()
    ensures Pow256(4) == AddressSpace
  {}

  /** The probed addresses are exactly the addresses of the block whose last
      octet is neither 0 nor 255, in strictly ascending order. */
  lemma {:induction false} SweepAddressesExactly(c: Cidr)
    requires SweepableBlock(c)
    ensures forall v: nat :: v in SweepAddresses(c) <==>
              v < AddressSpace && InBlock(v, NetworkAddress(c), c.prefix) && UsableOctet(v)
    ensures forall i, j :: 0 <= i < j < |SweepAddresses(c)| ==> SweepAddresses(c)[i] < SweepAddresses(c)[j]
  {
    var network, size := NetworkAddress(c), BlockSize(c.prefix);
    NetworkAligned(c);
    BlockFits(network, c.prefix);
    SweepWithin(network, size);
    SweepAscending(network, size);
    forall v: nat
      ensures v in SweepAddresses(c) <==> v < AddressSpace && InBlock(v, network, c.prefix) && UsableOctet(v)
    {
      InBlockRange(v, network, c.prefix);
      if network <= v < network + size && UsableOctet(v) {
        SweepComplete(network, size, v);
      }
    }
  }

  /** While the loop is inside the block, the `k`-th address it holds (the
      network address plus `k`, wrapped to 0 past the last IPv4 address) is
      not yet past the block and has not wrapped. */
  lemma SweepLeavesBlock(c: Cidr, k: nat)
    requires SweepableBlock(c)
    requires k <= BlockSize(c.prefix)
    requires InBlock(if NetworkAddress(c) + k == AddressSpace then 0 else NetworkAddress(c) + k,
                     NetworkAddress(c), c.prefix)
    ensures k < BlockSize(c.prefix) && NetworkAddress(c) + k < AddressSpace
  {
    var network, size := NetworkAddress(c), BlockSize(c.prefix);
    NetworkAligned(c);
    BlockFits(network, c.prefix);
    if network + k != AddressSpace {
      InBlockRange(network + k, network, c.prefix);
    }
  }

  /** Once the loop has left the block, it has seen all of it: so the loop
      stops after the last address, also when `inc` wraps around. */
  lemma SweepEnds(c: Cidr, k: nat)
    requires SweepableBlock(c)
    requires k <= BlockSize(c.prefix)
    requires !InBlock(if NetworkAddress(c) + k == AddressSpace then 0 else NetworkAddress(c) + k,
                      NetworkAddress(c), c.prefix)
    ensures k == BlockSize(c.prefix)
  {
    var network := NetworkAddress(c);
    NetworkAligned(c);
    BlockFits(network, c.prefix);
    if k < BlockSize(c.prefix) {
      InBlockRange(network + k, network, c.prefix);
    }
  }

  /** One more address of the range extends the sweep iff it is usable. */
  lemma SweepGrows(network: nat, k: nat)
    ensures UsableOctet(network + k) ==> Sweep(network, k + 1) == Sweep(network, k) + [network + k]
    ensures !UsableOctet(network + k) ==> Sweep(network, k + 1) == Sweep(network, k)
  {}

  lemma DottedAllSnoc(vs: seq<nat>, v: nat, next: seq<nat>)
    requires next == vs + [v]
    ensures DottedAll(next) == DottedAll(vs) + [DottedValue(v, 4)]
  {
    assert next[..|vs|] == vs;
  }

  lemma RespondersSnoc(ips: seq<string>, ip: string, net: Network, next: seq<string>)
    requires next == ips + [ip]
    ensures Responders(next, net) == Responders(ips, net) + Found(ip, net(ip))
  {
    assert next[..|ips|] == ips;
  }

  /** The filter lets every rendering of a usable address through. */
  lemma {:induction false} UsableNotSkipped(vs: seq<nat>)
    requires forall i :: 0 <= i < |vs| ==> UsableOctet(vs[i])
    ensures forall i :: 0 <= i < |DottedAll(vs)| ==> !Skipped(DottedAll(vs)[i])
  {
    if vs != [] {
      UsableNotSkipped(vs[..|vs| - 1]);
      SkippedIffUnusable(vs[|vs| - 1]);
    }
  }

  /** `ip.Mask(ipnet.Mask)`: a fresh four-byte address holding the network
      address of the block. */
  method MaskedAddress(c: Cidr) returns (ip: array<byte>)
    requires SweepableBlock(c)
    ensures fresh(ip) && ip.Length == 4
    ensures BigEndian(ip[..]) == NetworkAddress(c) < AddressSpace
  {
    var network := NetworkAddress(c);
    NetworkAligned(c);
    var start := Bytes(network, 4);
    ip := new byte[4](i requires 0 <= i < 4 => start[i]);
    assert ip[..] == start;
    BigEndianOfBytes(network, 4);
    FourBytes();
  }

  /** One pass of the loop body of `ScanSubnet` for the address `ip` holds,
      whose value is `v`: render it and dispatch it unless it ends in ".0"
      or ".255". `probed` is the list of values dispatched so far and
      `dispatched` their renderings. */
  method Visit(ip: array<byte>, ghost v: nat, dispatched: seq<string>, ghost probed: seq<nat>)
    returns (dispatched': seq<string>, ghost probed': seq<nat>)
    requires ip.Length == 4 && BigEndian(ip[..]) == v
    requires dispatched == DottedAll(probed)
    ensures probed' == if UsableOctet(v) then probed + [v] else probed
    ensures dispatched' == DottedAll(probed')
  {
    var current := DottedDecimal(ip[..]);
    DottedOfValue(ip[..]);
    FourBytes();
    SkippedIffUnusable(v);
    dispatched', probed' := dispatched, probed;
    if !Skipped(current) {
      probed' := probed + [v];
      dispatched' := dispatched + [current];
      DottedAllSnoc(probed, v, probed');
    }
  }

  /** The loop of `ScanSubnet`: from the network address of the block,
      visit each address while it lies in the block, then `inc` it. The
      addresses dispatched are the renderings of the swept values. */
  method SweepBlock(c: Cidr) returns (dispatched: seq<string>)
    requires SweepableBlock(c)
    ensures dispatched == DottedAll(SweepAddresses(c))
  {
    dispatched := [];
    var network := NetworkAddress(c);
    ghost var size := BlockSize(c.prefix);
    var ip := MaskedAddress(c);
    ghost var k: nat := 0;
    ghost var probed: seq<nat> := [];
    while InBlock(BigEndian(ip[..]), network, c.prefix)
      invariant k <= size
      invariant BigEndian(ip[..]) == if network + k == AddressSpace then 0 else network + k
      invariant probed == Sweep(network, k)
      invariant dispatched == DottedAll(probed)
      decreases size - k
    {
      SweepLeavesBlock(c, k);
      SweepGrows(network, k);
      dispatched, probed := Visit(ip, network + k, dispatched, probed);
      ghost var before := ip[..];
      Inc(ip);
      SuccessorWraps(before);
      FourBytes();
      k := k + 1;
    }
    SweepEnds(c, k);
  }

  /** The goroutines `ScanSubnet` starts, run to completion: each probes its
      address with `scanHost` and appends the device when one answers. They
      are run here one after the other in dispatch order. */
  method ProbeAll(dispatched: seq<string>, net: Network) returns (discovered: seq<Device>)
    requires forall ip :: IdentityWellTyped(net(ip))
    ensures discovered == Responders(dispatched, net)
  {
    discovered := [];
    for i := 0 to |dispatched|
      invariant discovered == Responders(dispatched[..i], net)
    {
      var ip := dispatched[i];
      var r := ScanHost(ip, net(ip));
      RespondersSnoc(dispatched[..i], ip, net, dispatched[..i + 1]);
      if r.Ok? {
        discovered := discovered + [r.value];
      }
    }
    assert dispatched[..|dispatched|] == dispatched;
  }

  /** `ScanSubnet`: an unparsable block probes nothing and yields nothing;
      otherwise the probes go to the dotted quads of exactly the addresses
      `SweepAddresses` lists, in that order, none of them ending in ".0" or
      ".255"; the devices found are those of the successful probes, in
      whatever order the probes finish. */
  method ScanSubnet(cidr: Option<Cidr>, net: Network) returns (discovered: seq<Device>, ghost dispatched: seq<string>)
    requires cidr.Some? ==> SweepableBlock(cidr.value)
    requires forall ip :: IdentityWellTyped(net(ip))
    ensures cidr.None? ==> discovered == [] && dispatched == []
    ensures cidr.Some? ==> dispatched == DottedAll(SweepAddresses(cidr.value))
    ensures forall i :: 0 <= i < |dispatched| ==> !Skipped(dispatched[i])
    ensures multiset(discovered) == multiset(Responders(dispatched, net))
  {
    if cidr.None? {
      return [], [];
    }
    var c := cidr.value;
    var addresses := SweepBlock(c);
    discovered := ProbeAll(addresses, net);
    dispatched := addresses;
    SweepWithin(NetworkAddress(c), BlockSize(c.prefix));
    UsableNotSkipped(SweepAddresses(c));
  }
}
