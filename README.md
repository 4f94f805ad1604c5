# SNMP network discovery, modelled in Dafny

This project models the discovery engine of a Go network-mapping tool. The
engine is the package `backend/snmp`. It finds hosts in two ways:

- **Subnet sweep.** Walk a CIDR block address by address. Skip every
  dotted address that ends in ".0" or ".255". Probe each remaining address
  over SNMP v2c for its name, uptime, description and resource metrics.
- **Topology walk.** Start at the local router and walk outwards
  breadth-first. Each responding host is expanded through its LLDP
  neighbours. The LLDP chassis IDs are mapped to IPs through the host's
  ARP table. When the LLDP list is empty or its walk failed, the ARP table's IP
  column is used instead. A host that answers the routing-table or bridge-table probe is
  taken for a router or switch and is not expanded.

Two helpers find the local router's address:

- from `route print` on Windows;
- from `ip route` on Linux and macOS.

A third helper reads the default gateway from a PowerShell command.

## How the model is built

The SNMP transport is an oracle. Each host has an `Agent` value that says:

- whether a session opens;
- what every GET of an OID list returns;
- what every WALK of a subtree hands to its callback, or the error it ends
  with.

`Network` maps an address string to its agent. Platform commands become
parameters: a command's output is a `Result<string>`, and `run` maps a
command line to that result. Go's `net.ParseIP` becomes the parameter
`isIP`. A parsed CIDR block is an `Option<Cidr>` input.

The modules follow the source files:

| module | file | flavour |
|---|---|---|
| `Common` | (shared) | bytes, `Option`, `Result`, the error kinds |
| `Text` | (shared) | the parts of Go's `strings` package the code uses |
| `Snmp` | (shared) | values, PDUs, agents; the "last variable with this name" rule of the switch loops |
| `Metrics` | metrics.go | methods with loops, proved against spec functions |
| `Ipv4` | scanner.go (`inc`, masking, `IP.String`, the filter) | in-place `inc` on an `array<byte>`; arithmetic on address values |
| `Scanner` | scanner.go | `scanHost`; the sweep loop on the byte array; the probes |
| `Lldp` | lldp.go | `formatMAC`; the ARP map built by a walk callback; de-duplication |
| `Discovery` | discovery.go | gateway; connected devices; router probe; the BFS walk |
| `NetworkUtils` | network_utils.go | the routing-table readers |

Loops in the source become `method`s with loop invariants. Each such method
is proved equal to a specification function. The properties are then proved
about that function as lemmas. Results that Go appends from goroutines
arrive in completion order, so they are compared as multisets.

### The topology walk

The walk's termination and coverage are stated over two ghost parameters:

- `offers(ip)`: the addresses the goroutine for `ip` puts forward. The
  precondition `Offered` ties it to `Expansion(net(ip), isIP)`, the
  expansion the goroutine computes.
- `universe`: a finite set of addresses that contains the start and is
  closed under `offers`. It bounds the walk.

`Reaches(offers, start, x)` holds when a chain of offers leads from `start`
to `x`.

The Go loop `for len(queue) > 0` tests the queue while the goroutines it has
dispatched are still running. The model therefore has two walks:

- `BfsAsWritten` models the code as written. A scheduler parameter
  `schedule(k)` says how many running tasks finish before the next test of
  the queue. The walk ends as soon as the queue is empty at a test. It then
  waits for the running tasks, and whatever they queue is never popped.
- `BfsDiscovery` is the walk as intended: it ends only when the queue is
  empty and no task is running. Here tasks run to completion one at a time,
  in dispatch order.

## Model

| member | source | states |
|---|---|---|
| Text.TrimSpaceSpec | backend/snmp/discovery.go:24 | `strings.TrimSpace` cuts its input into white space, the result, and white space, with every character of the result kept in place |
| Text.TrimSpaceIdempotent | backend/snmp/discovery.go:24 | trimming a trimmed string changes nothing |
| Text.FieldsPositions | backend/snmp/network_utils.go:38 | the words `strings.Fields` yields are the maximal runs of non-white-space characters of the input, left to right: each word occurs at its position with white space or an end of the input on either side, the positions ascend with a gap between words, and every non-white-space character lies inside some word |
| Text.SplitJoin | backend/snmp/discovery.go:52-55 | splitting on "." undoes joining with "." when no part holds a dot |
| Text.JoinSplit | backend/snmp/discovery.go:52-55 | joining the parts of a split with the separator gives the input back |
| Text.DecimalValue | backend/snmp/scanner.go:98 | reading back the decimal digits an octet renders as gives the octet, and the rendering has no leading zero except for 0 itself |
| Text.DecimalInjective | backend/snmp/scanner.go:98 | distinct octets render as distinct decimal strings |
| Snmp.BytesToString | backend/snmp/scanner.go:56 | `string(b)` has one character per byte, in order, with that byte's code |
| Snmp.LastValueSpec | backend/snmp/scanner.go:53-62 | a field filled by a `switch` over the variables holds the value of the last variable with its OID, and is left unset iff no variable has that OID |
| Metrics.GetWindowsMetrics | backend/snmp/metrics.go:26-52 | fails iff the GET fails, with the Windows error; otherwise CPU usage, total RAM and the processes count (stored in MemFreeKB) are the last values of their OIDs and every other field is empty |
| Metrics.GetLinuxMetrics | backend/snmp/metrics.go:54-83 | fails iff the GET fails, with the Linux error; otherwise CPU user, CPU idle, total and free RAM are the last values of their OIDs, and Processes and Description stay empty |
| Metrics.GetDeviceMetrics | backend/snmp/metrics.go:19-24 | takes the Windows path iff the lower-cased description contains "windows"; fails iff that path's GET fails; Processes and Description are never filled, and CPUIdle is empty on Windows |
| Metrics.MentionSelectsWindows | backend/snmp/metrics.go:20 | a description that holds "windows" in any letter case, anywhere, selects the Windows path |
| Metrics.WindowsBannerIsWindows | backend/snmp/metrics.go:20-21 | "Windows Server 2019" selects the Windows path |
| Metrics.NoWMeansLinux | backend/snmp/metrics.go:20-23 | a description without the letter w in either case selects the Linux path |
| Metrics.LinuxBannerIsNotWindows | backend/snmp/metrics.go:20-23 | "Linux 5.10" and the empty description select the Linux path |
| Ipv4.Inc | backend/snmp/scanner.go:126-133 | `inc` replaces the address bytes in place by their big-endian successor |
| Ipv4.SuccessorValue | backend/snmp/scanner.go:126-133 | the successor's value is the address value plus one, modulo 256 to the number of bytes |
| Ipv4.SuccessorWraps | backend/snmp/scanner.go:126-133 | `inc` adds one to the address value and wraps from the largest value to zero |
| Ipv4.SuccessorBytes | backend/snmp/scanner.go:127-132 | `inc` changes byte i exactly when every byte to its right is 255; it then adds one modulo 256 |
| Ipv4.BigEndianOfBytes | backend/snmp/scanner.go:97 | reading the bytes of a value back gives the value |
| Ipv4.BytesOfBigEndian | backend/snmp/scanner.go:97 | every byte sequence is the rendering of its own value |
| Ipv4.InBlockRange | backend/snmp/scanner.go:97 | `ipnet.Contains` holds, for an aligned network address, exactly for the block's size consecutive values from it |
| Ipv4.BlockFits | backend/snmp/scanner.go:97 | the block of a network address lies inside the IPv4 address space |
| Ipv4.SweepWithin | backend/snmp/scanner.go:97-101 | every value the sweep dispatches lies in the range and has a usable last octet |
| Ipv4.SweepAscending | backend/snmp/scanner.go:97-101 | the sweep dispatches its values in strictly ascending order, so none twice |
| Ipv4.SweepComplete | backend/snmp/scanner.go:97-101 | the sweep misses no usable address of the range |
| Ipv4.DottedIsJoin | backend/snmp/scanner.go:98 | `IP.String` of an IPv4 address is its decimal octets joined with "." |
| Ipv4.DottedOfValue | backend/snmp/scanner.go:98 | rendering the bytes and rendering their value agree |
| Ipv4.SkippedIffEdgeOctet | backend/snmp/scanner.go:99 | the ".0"/".255" suffix filter skips a dotted quad iff its last octet is 0 or 255 |
| Ipv4.SkippedIffUnusable | backend/snmp/scanner.go:99 | the filter skips an address iff its value is 0 or 255 modulo 256 |
| Ipv4.SuffixAfterDot | backend/snmp/scanner.go:99 | a dot and one to three digits end in ".0" or ".255" exactly when those digits are "0" or "255" |
| Ipv4.DecimalEdges | backend/snmp/scanner.go:99 | the only octets rendered "0" and "255" are 0 and 255 |
| Scanner.MetricsAfter | backend/snmp/scanner.go:53-75 | the metrics copied into a device never fill Processes or Description |
| Scanner.ScanHost | backend/snmp/scanner.go:21-78 | fails iff the session does not open or the identity GET fails; otherwise the device carries the probed address, the last name, uptime and description values, and the metrics of the last successful per-variable fetch |
| Scanner.Found | backend/snmp/scanner.go:110-118 | a probe adds at most one device, exactly when the host answers, and that device carries the probed address |
| Scanner.RespondersFromProbes | backend/snmp/scanner.go:106-119 | there are no more devices than probes, and every device carries a probed address |
| Scanner.NetworkAligned | backend/snmp/scanner.go:97 | the masked address is aligned to the block size and is an IPv4 value |
| Scanner.SweepAddressesExactly | backend/snmp/scanner.go:97-101 | the sweep probes exactly the block's addresses whose last octet is neither 0 nor 255, in ascending order |
| Scanner.SweepLeavesBlock | backend/snmp/scanner.go:97 | while the loop address is in the block, it has neither passed the block's end nor wrapped |
| Scanner.SweepEnds | backend/snmp/scanner.go:97 | the loop leaves the block only after its last address, also when `inc` wraps past 255.255.255.255 |
| Scanner.UsableNotSkipped | backend/snmp/scanner.go:99-101 | the filter lets every rendering of a usable address through |
| Scanner.MaskedAddress | backend/snmp/scanner.go:97 | `ip.Mask` yields a fresh four-byte array holding the network address |
| Scanner.Visit | backend/snmp/scanner.go:98-104 | one loop pass dispatches the rendering of the address exactly when its last octet is usable |
| Scanner.SweepBlock | backend/snmp/scanner.go:97-120 | the loop dispatches the dotted quads of the swept values, in order |
| Scanner.ProbeAll | backend/snmp/scanner.go:106-122 | running every dispatched probe gathers the devices of the answering hosts |
| Scanner.ScanSubnet | backend/snmp/scanner.go:80-124 | an unparsable block yields nothing; otherwise the probes go to exactly the swept addresses, none ending in ".0" or ".255", and the result is the answering hosts' devices as a multiset |
| Lldp.FormatMacShape | backend/snmp/lldp.go:12-19 | `formatMAC` writes two lower-case hex digits per byte with ":" between bytes, 3n-1 characters in all |
| Lldp.FormatMacCons | backend/snmp/lldp.go:12-19 | `formatMAC` of a byte and more bytes is its two digits, a colon, then the rest |
| Lldp.ParseFormatMac | backend/snmp/lldp.go:12-19 | reading the colon-separated hex pairs back gives the bytes |
| Lldp.FormatMacInjective | backend/snmp/lldp.go:44-52 | different MAC byte strings give different ARP map keys |
| Lldp.ArpMapLastWins | backend/snmp/lldp.go:38-55 | a MAC is a key of the ARP map iff some walked variable contributes it, and it maps to the IP of the last such variable |
| Lldp.ArpMapStep | backend/snmp/lldp.go:38-55 | one more walked variable applies its entry to the map |
| Lldp.RecordArp | backend/snmp/lldp.go:38-55 | the walk callback stores the candidate IP under the formatted MAC only for a byte-string value whose candidate is valid |
| Lldp.GetArpMap | backend/snmp/lldp.go:21-62 | fails iff the session does not open or the walk fails; otherwise the map of the walked variables, in which every IP is valid |
| Lldp.CandidatesFromMap | backend/snmp/lldp.go:88-101 | an IP is collected iff some byte-valued chassis ID's formatted MAC maps to it |
| Lldp.Dedup | backend/snmp/lldp.go:107-116 | de-duplication keeps exactly the elements of its input |
| Lldp.DedupOrdered | backend/snmp/lldp.go:107-116 | the de-duplicated list has no repeats and keeps the order of first occurrence |
| Lldp.DedupExample | backend/snmp/lldp.go:107-116 | IPs A, B, A, C become A, B, C |
| Lldp.ScanLldpNeighbours | backend/snmp/lldp.go:64-119 | fails iff the session, the ARP walk or the chassis walk fails; otherwise the de-duplicated IPs of the chassis IDs found in the ARP map |
| Discovery.DefaultGateway | backend/snmp/discovery.go:14-31 | a command error is passed on unchanged; otherwise the call succeeds exactly when the trimmed output is a valid IP, and then returns that trimmed output; a rejection names the trimmed output |
| Discovery.GatewayIsTrimmedOutput | backend/snmp/discovery.go:24-29 | the gateway is the output with only white space removed around it |
| Discovery.GatewayStable | backend/snmp/discovery.go:24-29 | feeding the gateway back in as the output gives it back |
| Discovery.CandidateComponents | backend/snmp/discovery.go:52-55 | a candidate IP splits into exactly the last four components of the variable's name |
| Discovery.ConnectedOfSpec | backend/snmp/discovery.go:51-61 | an IP is collected iff it is valid and some walked variable's name yields it |
| Discovery.GetConnectedDevices | backend/snmp/discovery.go:33-68 | fails iff the session does not open or the walk fails; otherwise the collected IPs in walk order |
| Discovery.IsRouterOrSwitch | backend/snmp/discovery.go:70-97 | true iff a session opens and the routing-table or the bridge-table GET answers with a variable |
| Discovery.ExpansionAreIPs | backend/snmp/discovery.go:122-156 | every address a task offers is a valid IP from an answering host that is not a router or switch, and it comes from a non-empty LLDP list or else from the ARP IP walk |
| Discovery.Unvisited | backend/snmp/discovery.go:150-156 | an address is queued iff the goroutine offers it and it is not visited |
| Discovery.Enqueue | backend/snmp/discovery.go:150-156 | the queue grows by the unvisited neighbours, in order |
| Discovery.RunTask | backend/snmp/discovery.go:122-149 | a task reports `Found` for its host and offers `Expansion` of it |
| Discovery.GatheredResponders | backend/snmp/discovery.go:126-133 | the devices the finished tasks report are the answering hosts' devices, in finishing order |
| Discovery.RouterStartsAlone | backend/snmp/discovery.go:136-139 | from a router or switch, nothing but the router itself is reached |
| Discovery.FrontierInit | backend/snmp/discovery.go:100-103 | the walk state holds before the first pop |
| Discovery.FrontierSkip | backend/snmp/discovery.go:109-116 | popping an address already visited keeps the walk state |
| Discovery.FrontierVisit | backend/snmp/discovery.go:109-121 | visiting a popped address, and queueing what it offers that is not visited, keeps the walk state |
| Discovery.FrontierDone | backend/snmp/discovery.go:108-159 | when the queue is empty and no task runs, exactly the reachable addresses were probed, the start first and none twice |
| Discovery.Finish | backend/snmp/discovery.go:122-157 | a finished task appends its device and queues its unvisited neighbours |
| Discovery.Step | backend/snmp/discovery.go:108-121 | one loop turn keeps the walk state and either visits a new address or shortens the queue |
| Discovery.BfsDiscovery | backend/snmp/discovery.go:99-162 | the intended walk probes the start first, every reachable address, nothing else, and none twice; its devices are those of the answering probed hosts |
| Discovery.InFlightInit | backend/snmp/discovery.go:100-106 | the as-written state holds before the first pop |
| Discovery.InFlightLaunch | backend/snmp/discovery.go:109-121 | popping an address drops it if visited, else marks it and dispatches its task, and keeps the state |
| Discovery.InFlightFinish | backend/snmp/discovery.go:122-157 | the oldest running task finishing keeps the state |
| Discovery.InFlightDone | backend/snmp/discovery.go:158 | once no task runs, the finished ones are reachable, the start first, none twice |
| Discovery.FinishOldest | backend/snmp/discovery.go:122-157 | the oldest running task finishes, reports its device and queues its unvisited neighbours |
| Discovery.Progress | backend/snmp/discovery.go:108-159 | the scheduler lets the n oldest running tasks finish, or all when fewer run; with n = 0 nothing changes |
| Discovery.Launch | backend/snmp/discovery.go:109-121 | one loop turn pops the head; an unvisited one is marked and its task left running |
| Discovery.BfsAsWritten | backend/snmp/discovery.go:99-162 | the walk as written probes only reachable addresses, the start first and none twice; when the start's task is still running at the second test, only the start is probed |
| Discovery.LostNeighbour | backend/snmp/discovery.go:108-156 | a neighbour the start offers is reachable, yet absent from what the walk as written probes in that case |
| NetworkUtils.RouteLineGateway | backend/snmp/network_utils.go:35-41 | a line names a gateway only when, trimmed, it starts with "0.0.0.0"; that gateway is a single word |
| NetworkUtils.FirstRouteGateway | backend/snmp/network_utils.go:34-43 | the gateway found is a single word |
| NetworkUtils.FirstRouteGatewayIndex | backend/snmp/network_utils.go:34-43 | the gateway found is the one named by some line, and no earlier line names one |
| NetworkUtils.FirstRouteGatewayNone | backend/snmp/network_utils.go:34-45 | no gateway is found iff no line names one |
| NetworkUtils.WindowsGateway | backend/snmp/network_utils.go:22-46 | a gateway returned is a single word |
| NetworkUtils.GetRouterIpWindows | backend/snmp/network_utils.go:22-46 | runs `route print 0.0.0.0`, passes on its error, and otherwise returns the first line's gateway or "Gateway not found" |
| NetworkUtils.ViaGateway | backend/snmp/network_utils.go:60-64 | the gateway found is one of the words of the output |
| NetworkUtils.ViaGatewayIndex | backend/snmp/network_utils.go:60-64 | the gateway is the word after a "via", and no earlier word is "via" |
| NetworkUtils.ViaGatewayNone | backend/snmp/network_utils.go:60-66 | no gateway is found iff no word but the last is "via" |
| NetworkUtils.UnixGateway | backend/snmp/network_utils.go:48-67 | a gateway returned is a single word |
| NetworkUtils.GetRouterIpUnix | backend/snmp/network_utils.go:48-67 | runs `ip route \| grep default`, passes on its error, and otherwise returns the word after the first "via" or "Gateway not found" |
| NetworkUtils.LocalRouterIp | backend/snmp/network_utils.go:11-20 | a router address returned is a single word; any system other than windows, linux and darwin is refused |
| NetworkUtils.GetLocalRouterIp | backend/snmp/network_utils.go:11-20 | runs the reader of the platform, or refuses an unsupported one |

## Left out

- The SNMP transport is not modelled: ports, community, version, timeouts, retries and connection closing. A host's agent answers every session the same way.
- Concurrency is not modelled. The probes of `ScanSubnet` and the goroutines of the walk run one after another. Results are compared as multisets. The 250-probe limit and the mutex are not modelled.
- Logging (`fmt.Print*`) is not modelled, and neither is `StartDiscovery`, which only logs.
- `GetLocalSubnet` (scanner.go:135-175) is not modelled: it only reads the host's interfaces.
- `exec.Command` is not run: command outputs and errors are inputs.
- Discovery.Answers: a GET succeeds when it returns at least one variable, as the code tests. In SNMP v2c an agent answers a GET of an absent object with a noSuchObject variable, so the real test holds for almost any answering host. The model does not tell those variables apart.
- `net.ParseIP` is the parameter `isIP`, and `net.ParseCIDR` is an `Option<Cidr>` input. Only IPv4 blocks are swept.
- Lldp.ArpCandidate: joins the last four components of the ARP index with ":" as the code does. Whether `net.ParseIP` accepts such a string is left to `isIP`. Go's parser rejects four ":"-separated decimal groups, so with the real parser the ARP map would stay empty and every walk would take the ARP fallback.
- Scanner.ScanHost: requires the name and description values to be byte strings. The Go type assertion panics on any other type.
- Lldp.GetArpMap: requires every byte-valued ARP variable to have at least four index components. The Go slice expression panics otherwise.
- Ipv4.SweepableBlock: a /0 block is excluded, because the Go loop never ends on it. `inc` wraps to 0.0.0.0, which is still inside the block.
- `strings.ToLower` is modelled for ASCII letters only.
- `fmt.Sprint` of a non-byte value is the value's given rendering.
- Discovery.BfsDiscovery: requires a finite set of addresses closed under what the goroutines offer, to bound the walk. It requires every agent to be well behaved (the panics above). The Go function's error result, always nil, is not returned.
- Discovery.BfsAsWritten: only the order in which tasks finish relative to the loop's queue tests is modelled. Running tasks finish oldest first. The unsynchronised read of the queue by the loop is not modelled.
- Discovery.Expansion: a router or switch is not expanded, as the code does. Its device is still reported.

## Findings

| source | as written | input that shows it | evidently intended | confidence | as-written member | corrected member |
|---|---|---|---|---|---|---|
| backend/snmp/discovery.go:108-158 | `for len(queue) > 0` exits when the queue is empty, even while dispatched tasks are still running; neighbours they append afterwards are never popped | a start host that offers a neighbour, with its task still running when the loop re-tests the empty queue (`schedule(0) == 0`): only the start is probed | the walk ends only when the queue is empty and every dispatched task has finished, so every reachable address is probed | not executed | Discovery.BfsAsWritten, Discovery.LostNeighbour | Discovery.BfsDiscovery |
