/** The topology walk (backend/snmp/discovery.go): from a start address,
    probe each host once, and expand every host that answers and is not a
    router or switch to its LLDP neighbours, or, when there are none, to
    the addresses of its ARP table. */
module Discovery {
  import opened Common
  import opened Text
  import opened Snmp
  import opened Scanner
  import opened Lldp

  /** Go's `GetDefaultGateway` after the PowerShell command: the command's
      error as it is, or its output trimmed of white space when that is an
      IP address. */
  function DefaultGateway(output: Result<string>, isIP: string -> bool): (r: Result<string>)
    ensures r.Ok? ==> isIP(r.value)
    ensures output.Err? ==> r == output
    ensures output.Ok? ==> (r.Ok? <==> isIP(TrimSpace(output.value)))
    ensures r.Ok? ==> r.value == TrimSpace(output.value)
    ensures r.Err? && output.Ok? ==> r.error == InvalidGateway(TrimSpace(output.value))
  {
    match output
    case Err(e) => Err(e)
    case Ok(out) =>
      var gw := TrimSpace(out);
      if isIP(gw) then Ok(gw) else Err(InvalidGateway(gw))
  }

  /** The gateway is the command's output with the white space around it
      removed: white space, then the gateway from position `i`, then white
      space. */
  lemma GatewayIsTrimmedOutput(output: Result<string>, isIP: string -> bool) returns (i: nat)
    requires DefaultGateway(output, isIP).Ok?
    ensures var out, gw := output.value, DefaultGateway(output, isIP).value;
            && i + |gw| <= |out|
            && (forall k :: 0 <= k < |gw| ==> gw[k] == out[i + k])
            && (forall k :: 0 <= k < i ==> IsSpace(out[k]))
            && (forall k :: i + |gw| <= k < |out| ==> IsSpace(out[k]))
    ensures var gw := DefaultGateway(output, isIP).value;
            gw != [] ==> !IsSpace(gw[0]) && !IsSpace(gw[|gw| - 1])
  {
    i := TrimSpaceSpec(output.value);
  }

  /** Feeding the gateway back in as the command's output gives it back. */
  lemma GatewayStable(output: Result<string>, isIP: string -> bool)
    requires DefaultGateway(output, isIP).Ok?
    ensures DefaultGateway(Ok(DefaultGateway(output, isIP).value), isIP) == DefaultGateway(output, isIP)
  {
    TrimSpaceIdempotent(output.value);
  }

  /** The root of the ARP table's IP-address column. */
  const ArpIpOid := "1.3.6.1.2.1.4.22.1.1"

  /** The IP that `getConnectedDevices` reads off a variable's name: its last
      four dot-separated components, joined with "."; none when there are
      fewer than four. */
  function ConnectedCandidate(name: string): Option<string> {
    var parts := Split(name, '.');
    if |parts| >= 4 then Some(Join(parts[|parts| - 4..], ".")) else None
  }

  /** A candidate splits into exactly the last four components of the name. */
  lemma CandidateComponents(name: string)
    requires ConnectedCandidate(name).Some?
    ensures var parts := Split(name, '.');
            Split(ConnectedCandidate(name).value, '.') == parts[|parts| - 4..]
  {
    var parts := Split(name, '.');
    var last := parts[|parts| - 4..];
    assert forall i :: 0 <= i < |last| ==> '.' !in last[i] by {
      forall i | 0 <= i < |last| ensures '.' !in last[i] {
        assert last[i] == parts[|parts| - 4 + i];
      }
    }
    SplitJoin(last, '.');
  }

  /** The IPs the walk's callback collects, in walk order. */
  function ConnectedOf(vars: seq<Pdu>, isIP: string -> bool): seq<string> {
    if vars == [] then []
    else
      ConnectedOf(vars[..|vars| - 1], isIP) +
        match ConnectedCandidate(vars[|vars| - 1].name) {
          case Some(ip) => if isIP(ip) then [ip] else []
          case None => []
        }
  }

  /** An IP is collected iff some variable's name yields it and it is valid. */
  lemma {:induction false} ConnectedOfSpec(vars: seq<Pdu>, isIP: string -> bool, ip: string)
    ensures ip in ConnectedOf(vars, isIP) <==>
              isIP(ip) && exists i :: 0 <= i < |vars| && ConnectedCandidate(vars[i].name) == Some(ip)
  {
    if vars != [] {
      var pre, c := vars[..|vars| - 1], ConnectedCandidate(vars[|vars| - 1].name);
      ConnectedOfSpec(pre, isIP, ip);
      assert ConnectedOf(vars, isIP) == ConnectedOf(pre, isIP) + if c.Some? && isIP(c.value) then [c.value] else [];
      if i :| 0 <= i < |vars| && ConnectedCandidate(vars[i].name) == Some(ip) {
        if i < |pre| {
          assert pre[i] == vars[i];
        }
      }
      if i :| 0 <= i < |pre| && ConnectedCandidate(pre[i].name) == Some(ip) {
        assert pre[i] == vars[i];
      }
    }
  }

  /** What `getConnectedDevices` returns for a host. */
  function ConnectedResult(agent: Agent, isIP: string -> bool): Result<seq<string>> {
    if !agent.reachable then Err(ConnectFailed)
    else
      match agent.walk(ArpIpOid)
      case Err(_) => Err(WalkFailed)
      case Ok(vars) => Ok(ConnectedOf(vars, isIP))
  }

  /** Go's `getConnectedDevices`: connect, then walk the ARP table's IP column
      and keep the valid addresses read off the variables' names. */
  method GetConnectedDevices(agent: Agent, isIP: string -> bool) returns (r: Result<seq<string>>)
    ensures r == ConnectedResult(agent, isIP)
    ensures r.Err? <==> !agent.reachable || agent.walk(ArpIpOid).Err?
  {
    if !agent.reachable {
      return Err(ConnectFailed);
    }
    var walked := agent.walk(ArpIpOid);
    if walked.Err? {
      return Err(WalkFailed);
    }
    var vars := walked.value;
    var ips: seq<string> := [];
    for i := 0 to |vars|
      invariant ips == ConnectedOf(vars[..i], isIP)
    {
      var parts := Split(vars[i].name, '.');
      assert vars[..i + 1][..i] == vars[..i];
      if |parts| >= 4 {
        var ip := Join(parts[|parts| - 4..], ".");
        if isIP(ip) {
          ips := ips + [ip];
        }
      }
    }
    assert vars[..|vars|] == vars;
    return Ok(ips);
  }

  // The capability probes of `isRouterOrSwitch`.
  const RouteOid := "1.3.6.1.2.1.4.21.1.1"
  const SwitchOid := "1.3.6.1.2.1.17.1.1.0"

  /** A GET of the single OID succeeds with at least one variable. */
  predicate Answers(agent: Agent, oid: string) {
    agent.get([oid]).Ok? && |agent.get([oid]).value| > 0
  }

  /** A host is taken for a router or switch when a session opens and it
      answers the routing-table or the bridge-table probe. */
  predicate RouterOrSwitch(agent: Agent) {
    agent.reachable && (Answers(agent, RouteOid) || Answers(agent, SwitchOid))
  }

  /** Go's `isRouterOrSwitch`: connect, then try the two probes in turn and
      stop at the first that answers; a failed connect counts as "no". */
  method IsRouterOrSwitch(agent: Agent) returns (r: bool)
    ensures r == RouterOrSwitch(agent)
  {
    if !agent.reachable {
      return false;
    }
    var oids := [RouteOid, SwitchOid];
    for i := 0 to |oids|
      invariant forall j :: 0 <= j < i ==> !Answers(agent, oids[j])
    {
      var result := agent.get([oids[i]]);
      if result.Ok? && |result.value| > 0 {
        return true;
      }
    }
    assert oids[0] == RouteOid && oids[1] == SwitchOid;
    return false;
  }

  /** An agent none of whose answers makes the walk's callbacks panic. */
  predicate WellBehaved(agent: Agent) {
    && IdentityWellTyped(agent)
    && (agent.walk(ArpOid).Ok? ==> ArpNamesWellFormed(agent.walk(ArpOid).value))
  }

  /** What the ARP table of a host yields when the neighbour list is empty or
      failed: the connected devices, or nothing when that walk fails too. */
  function Fallback(agent: Agent, isIP: string -> bool): seq<string> {
    match ConnectedResult(agent, isIP)
    case Ok(ips) => ips
    case Err(_) => []
  }

  /** The addresses a walk task offers for the queue: nothing when the host
      does not answer the identity probe or is a router or switch; its LLDP
      neighbours when there are any; otherwise its ARP fallback. The two
      lists are never merged. */
  function Expansion(agent: Agent, isIP: string -> bool): seq<string>
    requires WellBehaved(agent)
  {
    if !agent.reachable || agent.get(IdentityOids).Err? then []
    else if RouterOrSwitch(agent) then []
    else
      match NeighboursResult(agent, isIP)
      case Ok(ns) => if ns != [] then ns else Fallback(agent, isIP)
      case Err(_) => Fallback(agent, isIP)
  }

  /** Every address a task offers is a valid IP address, and it is offered
      by the LLDP list when that list is not empty and by the ARP walk
      otherwise. */
  lemma ExpansionAreIPs(agent: Agent, isIP: string -> bool, ip: string)
    requires WellBehaved(agent)
    requires ip in Expansion(agent, isIP)
    ensures isIP(ip)
    ensures agent.reachable && !RouterOrSwitch(agent) && agent.get(IdentityOids).Ok?
    ensures (NeighboursResult(agent, isIP).Ok? && NeighboursResult(agent, isIP).value != []
             && ip in NeighboursResult(agent, isIP).value) ||
            ((NeighboursResult(agent, isIP).Err? || NeighboursResult(agent, isIP).value == []) &&
             agent.walk(ArpIpOid).Ok? &&
             (exists i :: 0 <= i < |agent.walk(ArpIpOid).value|
                          && ConnectedCandidate(agent.walk(ArpIpOid).value[i].name) == Some(ip)))
  {
    var n := NeighboursResult(agent, isIP);
    if n.Ok? && n.value != [] {
      var arp := ArpMapOf(agent.walk(ArpOid).value, isIP);
      var chassis := agent.walk(ChassisOid).value;
      assert ip in Candidates(chassis, arp);
      CandidatesFromMap(chassis, arp, ip);
      var i :| 0 <= i < |chassis| && chassis[i].value.OctetString?
               && FormatMac(chassis[i].value.bytes) in arp && arp[FormatMac(chassis[i].value.bytes)] == ip;
      var mac := FormatMac(chassis[i].value.bytes);
      ArpMapLastWins(agent.walk(ArpOid).value, isIP, mac);
    } else {
      ConnectedOfSpec(agent.walk(ArpIpOid).value, isIP, ip);
    }
  }

  /** The addresses of `neighbours` that are not yet visited, in order. */
  function Unvisited(neighbours: seq<string>, visited: set<string>): (r: seq<string>)
    ensures forall x :: x in r <==> x in neighbours && x !in visited
  {
    if neighbours == [] then []
    else
      var last := neighbours[|neighbours| - 1];
      Unvisited(neighbours[..|neighbours| - 1], visited) + (if last in visited then [] else [last])
  }

  /** The tail of a walk task: append every neighbour not yet visited. */
  method Enqueue(queue: seq<string>, neighbours: seq<string>, visited: set<string>)
    returns (queue': seq<string>)
    ensures queue' == queue + Unvisited(neighbours, visited)
  {
    queue' := queue;
    for i := 0 to |neighbours|
      invariant queue' == queue + Unvisited(neighbours[..i], visited)
    {
      assert neighbours[..i + 1][..i] == neighbours[..i];
      if neighbours[i] !in visited {
        queue' := queue' + [neighbours[i]];
      }
    }
    assert neighbours[..|neighbours|] == neighbours;
  }

  /** The body of the goroutine `BFSDiscovery` starts for an address: probe
      it, record the device, and unless it is a router or switch work out
      its neighbours, falling back to the ARP walk when LLDP yields none. */
  method RunTask(ip: string, agent: Agent, isIP: string -> bool)
    returns (found: seq<Device>, neighbours: seq<string>)
    requires WellBehaved(agent)
    ensures found == Found(ip, agent)
    ensures neighbours == Expansion(agent, isIP)
  {
    var device := ScanHost(ip, agent);
    if device.Err? {
      return [], [];
    }
    found := [device.value];
    var isRouter := IsRouterOrSwitch(agent);
    if isRouter {
      return found, [];
    }
    var lldp := ScanLldpNeighbours(agent, isIP);
    if lldp.Ok? && |lldp.value| > 0 {
      return found, lldp.value;
    }
    var connected := GetConnectedDevices(agent, isIP);
    if connected.Err? {
      return found, [];
    }
    neighbours := connected.value;
  }

  /** `offers` gives the addresses the walk task of `ip` offers for the queue. */
  ghost predicate Offered(net: Network, isIP: string -> bool, offers: string -> seq<string>, ip: string) {
    WellBehaved(net(ip)) && offers(ip) == Expansion(net(ip), isIP)
  }

  /** `found` gives what the probe of `ip` reports. */
  ghost predicate Yields(net: Network, found: string -> seq<Device>, ip: string) {
    found(ip) == Found(ip, net(ip))
  }

  /** There is a `found` for every network: the probes' reports themselves. */
  lemma ProbeReports(net: Network) returns (found: string -> seq<Device>)
    ensures forall ip :: Yields(net, found, ip)
  {
    found := ip => Found(ip, net(ip));
  }

  /** The devices reported by the goroutines of `done`, in the order they finished. */
  function Gathered(done: seq<string>, found: string -> seq<Device>): seq<Device> {
    if done == [] then [] else Gathered(done[..|done| - 1], found) + found(done[|done| - 1])
  }

  /** When `found` is what each probe reports, the gathered devices are the
      responders of the finished tasks. */
  lemma {:induction false} GatheredResponders(done: seq<string>, net: Network, found: string -> seq<Device>)
    requires forall ip :: Yields(net, found, ip)
    ensures Gathered(done, found) == Responders(done, net)
  {
    if done != [] {
      assert Yields(net, found, done[|done| - 1]);
      GatheredResponders(done[..|done| - 1], net, found);
    }
  }

  /** A non-empty chain of addresses, each offered by the one before it. */
  predicate IsWalk(offers: string -> seq<string>, p: seq<string>) {
    p != [] && forall i :: 0 <= i < |p| - 1 ==> p[i + 1] in offers(p[i])
  }

  /** `x` can be reached from `start` by following offered addresses. */
  ghost predicate Reaches(offers: string -> seq<string>, start: string, x: string) {
    exists p :: IsWalk(offers, p) && p[0] == start && p[|p| - 1] == x
  }

  /** A set of addresses that contains everything its members offer. */
  ghost predicate Closed(s: set<string>, offers: string -> seq<string>) {
    forall a, b :: a in s && b in offers(a) ==> b in s
  }

  lemma ReachesStart(offers: string -> seq<string>, start: string)
    ensures Reaches(offers, start, start)
  {
    assert IsWalk(offers, [start]);
  }

  /** Reachability extends by one offered address. */
  lemma ReachesStep(offers: string -> seq<string>, start: string, a: string, b: string)
    requires Reaches(offers, start, a) && b in offers(a)
    ensures Reaches(offers, start, b)
  {
    var p :| IsWalk(offers, p) && p[0] == start && p[|p| - 1] == a;
    var q := p + [b];
    forall i | 0 <= i < |q| - 1
      ensures q[i + 1] in offers(q[i])
    {
      if i < |p| - 1 {
        assert q[i] == p[i] && q[i + 1] == p[i + 1];
      }
    }
    assert IsWalk(offers, q) && q[0] == start && q[|q| - 1] == b;
  }

  /** Every address of a walk that starts in a closed set lies in that set. */
  lemma {:induction false} WalkStaysIn(s: set<string>, offers: string -> seq<string>, p: seq<string>, k: nat)
    requires Closed(s, offers) && IsWalk(offers, p) && p[0] in s && k < |p|
    ensures p[k] in s
  {
    if k > 0 {
      WalkStaysIn(s, offers, p, k - 1);
      assert p[k] in offers(p[k - 1]);
    }
  }

  /** A closed set that holds the start holds everything reachable from it. */
  lemma ClosedHoldsReached(s: set<string>, offers: string -> seq<string>, start: string, x: string)
    requires Closed(s, offers) && start in s && Reaches(offers, start, x)
    ensures x in s
  {
    var p :| IsWalk(offers, p) && p[0] == start && p[|p| - 1] == x;
    WalkStaysIn(s, offers, p, |p| - 1);
  }

  /** A walk started at a router or switch reaches nothing but the start. */
  lemma RouterStartsAlone(net: Network, isIP: string -> bool, offers: string -> seq<string>, start: string, x: string)
    requires Offered(net, isIP, offers, start) && RouterOrSwitch(net(start))
    requires Reaches(offers, start, x)
    ensures x == start
  {
    assert offers(start) == [];
    assert Closed({start}, offers);
    ClosedHoldsReached({start}, offers, start, x);
  }

  /** The state of the walk between two pops: what is visited and queued
      lies in the universe and is reachable from the start; `probed` lists
      the visited addresses once each, the start first; and every address a
      visited host offers is visited or queued. */
  ghost predicate Frontier(offers: string -> seq<string>, start: string, universe: set<string>,
                           visited: set<string>, queue: seq<string>, probed: seq<string>)
  {
    && visited <= universe
    && (forall x :: x in queue ==> x in universe && Reaches(offers, start, x))
    && (forall x :: x in visited ==> Reaches(offers, start, x))
    && NoDuplicates(probed) && (forall x :: x in probed <==> x in visited)
    && (probed == [] ==> queue == [start])
    && (probed != [] ==> probed[0] == start)
    && (forall a, b :: a in visited && b in offers(a) ==> b in visited || b in queue)
  }

  /** Before the first pop only the start is queued. */
  lemma FrontierInit(offers: string -> seq<string>, start: string, universe: set<string>)
    requires start in universe
    ensures Frontier(offers, start, universe, {}, [start], [])
  {
    ReachesStart(offers, start);
  }

  /** Popping an address that is already visited keeps the state. */
  lemma FrontierSkip(offers: string -> seq<string>, start: string, universe: set<string>,
                     visited: set<string>, ip: string, queue: seq<string>, probed: seq<string>)
    requires Frontier(offers, start, universe, visited, [ip] + queue, probed) && ip in visited
    ensures Frontier(offers, start, universe, visited, queue, probed)
  {
    assert probed != [];
    forall a, b | a in visited && b in offers(a)
      ensures b in visited || b in queue
    {
      assert b in [ip] + queue ==> b == ip || b in queue;
    }
  }

  /** Visiting a popped address, and queueing what it offers that is not
      visited, keeps the state. */
  lemma FrontierVisit(offers: string -> seq<string>, start: string, universe: set<string>,
                      visited: set<string>, ip: string, queue: seq<string>, probed: seq<string>)
    requires Frontier(offers, start, universe, visited, [ip] + queue, probed) && ip !in visited
    requires Closed(universe, offers)
    ensures ip in universe
    ensures Frontier(offers, start, universe, visited + {ip},
                     queue + Unvisited(offers(ip), visited + {ip}), probed + [ip])
  {
    var visited', queue', probed' := visited + {ip}, queue + Unvisited(offers(ip), visited + {ip}), probed + [ip];
    assert ip in [ip] + queue;
    forall x | x in queue'
      ensures x in universe && Reaches(offers, start, x)
    {
      if x !in queue {
        assert x in offers(ip);
        ReachesStep(offers, start, ip, x);
      } else {
        assert x in [ip] + queue;
      }
    }
    forall a, b | a in visited' && b in offers(a)
      ensures b in visited' || b in queue'
    {
      if a != ip {
        assert b in [ip] + queue ==> b == ip || b in queue;
      }
    }
    forall i, j | 0 <= i < j < |probed'|
      ensures probed'[i] != probed'[j]
    {
      if j == |probed| {
        assert probed'[i] == probed[i] && probed[i] in probed;
      }
    }
    if probed == [] {
      assert ip == start;
    }
  }

  /** When the queue is empty the visited set is closed, so `probed` holds
      exactly the addresses reachable from the start. */
  lemma FrontierDone(offers: string -> seq<string>, start: string, universe: set<string>,
                     visited: set<string>, probed: seq<string>)
    requires Frontier(offers, start, universe, visited, [], probed)
    ensures |probed| >= 1 && probed[0] == start && NoDuplicates(probed)
    ensures forall x :: x in probed <==> Reaches(offers, start, x)
  {
    assert Closed(visited, offers);
    assert start in probed;
    forall x | Reaches(offers, start, x)
      ensures x in probed
    {
      ClosedHoldsReached(visited, offers, start, x);
    }
  }

  /** Visiting one more address of the universe shrinks what is left of it. */
  lemma UnvisitedShrinks(universe: set<string>, visited: set<string>, ip: string)
    requires ip in universe && ip !in visited
    ensures |universe - (visited + {ip})| < |universe - visited|
  {
    assert universe - visited == (universe - (visited + {ip})) + {ip};
  }

  /** One task of the walk run to its end, for an address whose offers are
      known: `RunTask`, then its device appended to the results and its
      unvisited neighbours to the queue. */
  method Finish(ip: string, net: Network, isIP: string -> bool,
                ghost offers: string -> seq<string>, ghost found: string -> seq<Device>,
                visited: set<string>, queue: seq<string>, devices: seq<Device>, ghost done: seq<string>)
    returns (queue': seq<string>, devices': seq<Device>, ghost done': seq<string>)
    requires forall ip :: Offered(net, isIP, offers, ip)
    requires forall ip :: Yields(net, found, ip)
    requires devices == Gathered(done, found)
    ensures done' == done + [ip] && devices' == Gathered(done', found)
    ensures queue' == queue + Unvisited(offers(ip), visited)
  {
    assert Offered(net, isIP, offers, ip) && Yields(net, found, ip);
    var device, neighbours := RunTask(ip, net(ip), isIP);
    done' := done + [ip];
    assert done'[..|done'| - 1] == done;
    devices' := devices + device;
    queue' := Enqueue(queue, neighbours, visited);
  }

  /** One turn of the walk's loop: pop the head of the queue and, unless it
      was visited, mark it and run its task. The walk's state is kept, and
      either an address of the universe is newly visited or the queue
      shrinks. */
  method Step(start: string, net: Network, isIP: string -> bool,
              ghost offers: string -> seq<string>, ghost found: string -> seq<Device>, ghost universe: set<string>,
              visited: set<string>, queue: seq<string>, devices: seq<Device>, ghost probed: seq<string>)
    returns (visited': set<string>, queue': seq<string>, devices': seq<Device>, ghost probed': seq<string>)
    requires forall ip :: Offered(net, isIP, offers, ip)
    requires forall ip :: Yields(net, found, ip)
    requires queue != [] && Closed(universe, offers)
    requires Frontier(offers, start, universe, visited, queue, probed)
    requires devices == Gathered(probed, found)
    ensures Frontier(offers, start, universe, visited', queue', probed')
    ensures devices' == Gathered(probed', found)
    ensures |universe - visited'| < |universe - visited| || (visited' == visited && |queue'| < |queue|)
  {
    var ip := queue[0];
    var rest := queue[1..];
    assert queue == [ip] + rest;
    if ip in visited {
      FrontierSkip(offers, start, universe, visited, ip, rest, probed);
      return visited, rest, devices, probed;
    }
    FrontierVisit(offers, start, universe, visited, ip, rest, probed);
    UnvisitedShrinks(universe, visited, ip);
    visited' := visited + {ip};
    queue', devices', probed' := Finish(ip, net, isIP, offers, found, visited', rest, devices, probed);
  }

  /** The topology walk with the termination test it is meant to have:
      the walk ends when the queue is empty and every dispatched task has
      finished. Tasks run to completion one at a time, in dispatch order;
      `offers` names what each address's task offers, and `universe` is a
      finite set of addresses, closed under those offers, that bounds the
      walk. Every reachable address is probed, nothing else is, and none
      twice. */
  method BfsDiscovery(start: string, net: Network, isIP: string -> bool,
                      ghost offers: string -> seq<string>, ghost universe: set<string>)
    returns (devices: seq<Device>, ghost probed: seq<string>)
    requires forall ip :: Offered(net, isIP, offers, ip)
    requires start in universe && Closed(universe, offers)
    ensures |probed| >= 1 && probed[0] == start
    ensures NoDuplicates(probed)
    ensures forall x :: x in probed <==> Reaches(offers, start, x)
    ensures multiset(devices) == multiset(Responders(probed, net))
  {
    var visited: set<string> := {};
    var queue := [start];
    devices := [];
    probed := [];
    ghost var found := ProbeReports(net);
    FrontierInit(offers, start, universe);
    while |queue| > 0
      invariant Frontier(offers, start, universe, visited, queue, probed)
      invariant devices == Gathered(probed, found)
      decreases |universe - visited|, |queue|
    {
      visited, queue, devices, probed := Step(start, net, isIP, offers, found, universe, visited, queue, devices, probed);
    }
    FrontierDone(offers, start, universe, visited, probed);
    GatheredResponders(probed, net, found);
  }

  /* The walk as written. The loop tests the queue while the goroutines it has
     dispatched may still be running; only a task that has finished has put
     its neighbours in the queue. When the queue is empty at a test, the
     loop ends, the goroutines still running are waited for, and whatever they
     queue is never popped. */

  /** The state of the walk as written between two tests of the queue:
      `pending` are the dispatched tasks still running, in dispatch order,
      and `done` the finished ones. What is visited or queued lies in the
      universe and is reachable from the start, and every visited address
      was dispatched once, the start first. */
  ghost predicate InFlight(offers: string -> seq<string>, start: string, universe: set<string>,
                           visited: set<string>, queue: seq<string>, pending: seq<string>, done: seq<string>)
  {
    && visited <= universe
    && (forall x :: x in queue ==> x in universe && Reaches(offers, start, x))
    && (forall x :: x in visited ==> Reaches(offers, start, x))
    && NoDuplicates(done + pending) && (forall x :: x in done + pending <==> x in visited)
    && (done + pending == [] ==> queue == [start])
    && (done + pending != [] ==> (done + pending)[0] == start)
  }

  /** Before the first pop only the start is queued. */
  lemma InFlightInit(offers: string -> seq<string>, start: string, universe: set<string>)
    requires start in universe
    ensures InFlight(offers, start, universe, {}, [start], [], [])
  {
    ReachesStart(offers, start);
  }

  /** Once no task is running, the finished ones were dispatched once each,
      the start first, and every one of them is reachable. */
  lemma InFlightDone(offers: string -> seq<string>, start: string, universe: set<string>,
                     visited: set<string>, queue: seq<string>, done: seq<string>)
    requires InFlight(offers, start, universe, visited, queue, [], done) && done != []
    ensures done[0] == start && NoDuplicates(done)
    ensures forall x :: x in done ==> Reaches(offers, start, x)
  {
    assert done + [] == done;
  }

  /** Popping an address: one already visited is dropped, any other is
      marked visited and its task dispatched. */
  lemma InFlightLaunch(offers: string -> seq<string>, start: string, universe: set<string>,
                       visited: set<string>, ip: string, queue: seq<string>,
                       pending: seq<string>, done: seq<string>)
    requires InFlight(offers, start, universe, visited, [ip] + queue, pending, done)
    ensures ip in universe
    ensures ip in visited ==> InFlight(offers, start, universe, visited, queue, pending, done)
    ensures ip !in visited ==> InFlight(offers, start, universe, visited + {ip}, queue, pending + [ip], done)
  {
    assert ip in [ip] + queue;
    forall x | x in queue
      ensures x in universe && Reaches(offers, start, x)
    {
      assert x in [ip] + queue;
    }
    if ip !in visited {
      var before, after := done + pending, done + (pending + [ip]);
      assert after == before + [ip];
      forall i, j | 0 <= i < j < |after|
        ensures after[i] != after[j]
      {
        if j == |before| {
          assert after[i] == before[i] && before[i] in before;
        }
      }
      if before == [] {
        assert ip == start;
      }
    }
  }

  /** The oldest running task finishes: it queues the unvisited addresses
      its host offers. */
  lemma InFlightFinish(offers: string -> seq<string>, start: string, universe: set<string>,
                       visited: set<string>, queue: seq<string>, pending: seq<string>, done: seq<string>,
                       queue': seq<string>, done': seq<string>)
    requires InFlight(offers, start, universe, visited, queue, pending, done)
    requires pending != [] && Closed(universe, offers)
    requires queue' == queue + Unvisited(offers(pending[0]), visited) && done' == done + [pending[0]]
    ensures InFlight(offers, start, universe, visited, queue', pending[1..], done')
    ensures done' + pending[1..] == done + pending
  {
    var ip := pending[0];
    assert (done + [ip]) + pending[1..] == done + pending;
    assert ip in done + pending;
    forall x | x in queue + Unvisited(offers(ip), visited)
      ensures x in universe && Reaches(offers, start, x)
    {
      if x !in queue {
        ReachesStep(offers, start, ip, x);
      }
    }
  }

  /** The oldest running task finishes: `Finish` for the head of `pending`. */
  method FinishOldest(start: string, net: Network, isIP: string -> bool,
                      ghost offers: string -> seq<string>, ghost found: string -> seq<Device>,
                      ghost universe: set<string>, visited: set<string>, queue: seq<string>,
                      devices: seq<Device>, pending: seq<string>, ghost done: seq<string>)
    returns (queue': seq<string>, devices': seq<Device>, pending': seq<string>, ghost done': seq<string>)
    requires forall ip :: Offered(net, isIP, offers, ip)
    requires forall ip :: Yields(net, found, ip)
    requires pending != [] && Closed(universe, offers)
    requires InFlight(offers, start, universe, visited, queue, pending, done)
    requires devices == Gathered(done, found)
    ensures InFlight(offers, start, universe, visited, queue', pending', done')
    ensures devices' == Gathered(done', found)
    ensures done' + pending' == done + pending && pending' == pending[1..]
  {
    queue', devices', done' := Finish(pending[0], net, isIP, offers, found, visited, queue, devices, done);
    InFlightFinish(offers, start, universe, visited, queue, pending, done, queue', done');
    pending' := pending[1..];
  }

  /** Before a test of the queue the scheduler lets the `n` oldest running
      tasks finish (all of them when fewer are running); each adds its device
      to the results and its unvisited neighbours to the queue. */
  method Progress(n: nat, start: string, net: Network, isIP: string -> bool,
                  ghost offers: string -> seq<string>, ghost found: string -> seq<Device>,
                  ghost universe: set<string>, visited: set<string>, queue: seq<string>,
                  devices: seq<Device>, pending: seq<string>, ghost done: seq<string>)
    returns (queue': seq<string>, devices': seq<Device>, pending': seq<string>, ghost done': seq<string>)
    requires forall ip :: Offered(net, isIP, offers, ip)
    requires forall ip :: Yields(net, found, ip)
    requires Closed(universe, offers)
    requires InFlight(offers, start, universe, visited, queue, pending, done)
    requires devices == Gathered(done, found)
    ensures InFlight(offers, start, universe, visited, queue', pending', done')
    ensures devices' == Gathered(done', found)
    ensures done' + pending' == done + pending
    ensures |pending'| == if n < |pending| then |pending| - n else 0
    ensures n == 0 || pending == [] ==> queue' == queue && pending' == pending && done' == done && devices' == devices
  {
    queue', devices', pending', done' := queue, devices, pending, done;
    var k := 0;
    while k < n && pending' != []
      invariant InFlight(offers, start, universe, visited, queue', pending', done')
      invariant devices' == Gathered(done', found)
      invariant done' + pending' == done + pending
      invariant k <= n && |pending'| == |pending| - k
      invariant n == 0 || pending == [] ==> queue' == queue && pending' == pending && done' == done && devices' == devices
      decreases |pending'|
    {
      queue', devices', pending', done' :=
        FinishOldest(start, net, isIP, offers, found, universe, visited, queue', devices', pending', done');
      k := k + 1;
    }
  }

  /** One turn of the loop as written: pop the head of the queue and, unless
      it was visited, mark it and dispatch its task, which keeps running. */
  method Launch(start: string, ghost offers: string -> seq<string>, ghost universe: set<string>,
                visited: set<string>, queue: seq<string>, pending: seq<string>, ghost done: seq<string>)
    returns (visited': set<string>, queue': seq<string>, pending': seq<string>)
    requires queue != [] && InFlight(offers, start, universe, visited, queue, pending, done)
    ensures InFlight(offers, start, universe, visited', queue', pending', done)
    ensures queue' == queue[1..]
    ensures queue[0] in visited ==> visited' == visited && pending' == pending
    ensures queue[0] !in visited ==> visited' == visited + {queue[0]} && pending' == pending + [queue[0]]
    ensures |universe - visited'| < |universe - visited| || (visited' == visited && pending' == pending)
  {
    var ip := queue[0];
    queue' := queue[1..];
    assert queue == [ip] + queue';
    InFlightLaunch(offers, start, universe, visited, ip, queue', pending, done);
    if ip in visited {
      return visited, queue', pending;
    }
    UnvisitedShrinks(universe, visited, ip);
    visited' := visited + {ip};
    pending' := pending + [ip];
  }

  /** The topology walk as written. Before the `k`-th test of the queue,
      after the first, the scheduler has let `schedule(k - 1)` of the running
      tasks finish. Every address probed is reachable and none is probed
      twice, but when the start's task is still running at the second test
      (`schedule(0) == 0`), the start is the only address probed, whatever
      it offers. */
  method BfsAsWritten(start: string, net: Network, isIP: string -> bool, schedule: nat -> nat,
                      ghost offers: string -> seq<string>, ghost universe: set<string>)
    returns (devices: seq<Device>, ghost probed: seq<string>)
    requires forall ip :: Offered(net, isIP, offers, ip)
    requires start in universe && Closed(universe, offers)
    ensures |probed| >= 1 && probed[0] == start
    ensures NoDuplicates(probed)
    ensures forall x :: x in probed ==> Reaches(offers, start, x)
    ensures multiset(devices) == multiset(Responders(probed, net))
    ensures schedule(0) == 0 ==> probed == [start]
  {
    var visited: set<string> := {};
    var queue := [start];
    var pending: seq<string> := [];
    devices := [];
    ghost var done: seq<string> := [];
    var turn: nat := 0;
    ghost var found := ProbeReports(net);
    InFlightInit(offers, start, universe);
    while |queue| > 0
      invariant InFlight(offers, start, universe, visited, queue, pending, done)
      invariant devices == Gathered(done, found)
      invariant turn == 0 ==> queue == [start] && done + pending == []
      invariant turn > 0 && schedule(0) == 0 ==> queue == [] && done + pending == [start]
      decreases |universe - visited|, |pending|, |queue|
    {
      visited, queue, pending := Launch(start, offers, universe, visited, queue, pending, done);
      queue, devices, pending, done :=
        Progress(schedule(turn), start, net, isIP, offers, found, universe, visited, queue, devices, pending, done);
      turn := turn + 1;
    }
    queue, devices, pending, done :=
      Progress(|pending|, start, net, isIP, offers, found, universe, visited, queue, devices, pending, done);
    // What the last tasks queued is never popped.
    InFlightDone(offers, start, universe, visited, queue, done);
    probed := done;
    GatheredResponders(probed, net, found);
  }

  /** The counterexample to `BfsAsWritten`'s `schedule(0) == 0 ==> probed ==
      [start]`: a neighbour the start offers is reachable, so the intended
      walk (`BfsDiscovery`, which probes exactly the reachable addresses)
      probes it, yet it is missing from the start-only list the walk as
      written returns when the start's goroutine is still running at the
      second test of the queue. */
  lemma LostNeighbour(offers: string -> seq<string>, start: string, x: string)
    requires x in offers(start) && x != start
    ensures Reaches(offers, start, x) && x !in [start]
  {
    ReachesStart(offers, start);
    ReachesStep(offers, start, start, x);
  }
}
