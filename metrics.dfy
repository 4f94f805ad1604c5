/** Resource metrics of a discovered host: the operating-system family is
    guessed from its system description, and one GET of a fixed OID list is
    mapped onto the fields of `DeviceMetrics` (backend/snmp/metrics.go). */
module Metrics {
  import opened Common
  import opened Text
  import opened Snmp

  /** Go's `DeviceMetrics`: every counter kept as its rendered string. */
  datatype DeviceMetrics = DeviceMetrics(
    cpuUsage: string,
    cpuIdle: string,
    memTotalKB: string,
    memFreeKB: string,
    processes: string,
    description: string)

  /** The zero value `&DeviceMetrics{}`. */
  const NoMetrics := DeviceMetrics("", "", "", "", "", "")

  // HOST-RESOURCES-MIB (RFC 2790) objects read from Windows hosts.
  const WinCpuOid := ".1.3.6.1.2.1.25.3.3.1.2.1"       // hrProcessorLoad.1
  const WinRamOid := ".1.3.6.1.2.1.25.2.2.0"           // hrMemorySize.0
  const WinProcessesOid := ".1.3.6.1.2.1.25.1.6.0"     // hrSystemProcesses.0
  const WindowsOids := [WinCpuOid, WinRamOid, WinProcessesOid]

  // UCD-SNMP-MIB objects read from every other host.
  const LinuxCpuUserOid := ".1.3.6.1.4.1.2021.11.9.0"  // ssCpuUser.0
  const LinuxCpuIdleOid := ".1.3.6.1.4.1.2021.11.11.0" // ssCpuIdle.0
  const LinuxMemTotalOid := ".1.3.6.1.4.1.2021.4.5.0"  // memTotalReal.0
  const LinuxMemFreeOid := ".1.3.6.1.4.1.2021.4.6.0"   // memAvailReal.0
  const LinuxOids := [LinuxCpuUserOid, LinuxCpuIdleOid, LinuxMemTotalOid, LinuxMemFreeOid]

  /** The Windows path is taken iff the lower-cased description contains "windows". */
  predicate IsWindows(sysDescr: string) {
    Contains(ToLower(sysDescr), "windows")
  }

  /** What the Windows path makes of a response: each field holds the last
      value of its OID; the processes OID lands in `memFreeKB`. */
  function WindowsMetricsOf(vars: seq<Pdu>): DeviceMetrics {
    NoMetrics.(
      cpuUsage := LastRendered(vars, WinCpuOid),
      memTotalKB := LastRendered(vars, WinRamOid),
      memFreeKB := LastRendered(vars, WinProcessesOid))
  }

  /** What the Linux path makes of a response: each field holds the last value of its OID. */
  function LinuxMetricsOf(vars: seq<Pdu>): DeviceMetrics {
    NoMetrics.(
      cpuUsage := LastRendered(vars, LinuxCpuUserOid),
      cpuIdle := LastRendered(vars, LinuxCpuIdleOid),
      memTotalKB := LastRendered(vars, LinuxMemTotalOid),
      memFreeKB := LastRendered(vars, LinuxMemFreeOid))
  }

  /** The outcome of `GetDeviceMetrics` for a host and a description. */
  function MetricsOf(agent: Agent, sysDescr: string): Result<DeviceMetrics> {
    if IsWindows(sysDescr) then
      match agent.get(WindowsOids)
      case Err(_) => Err(WindowsMetricsFailed)
      case Ok(vars) => Ok(WindowsMetricsOf(vars))
    else
      match agent.get(LinuxOids)
      case Err(_) => Err(LinuxMetricsFailed)
      case Ok(vars) => Ok(LinuxMetricsOf(vars))
  }

  /** `getWindowsMetrics`: one GET, then a pass over its variables. */
  method GetWindowsMetrics(agent: Agent) returns (r: Result<DeviceMetrics>)
    ensures r.Err? <==> agent.get(WindowsOids).Err?
    ensures r.Err? ==> r.error == WindowsMetricsFailed
    ensures r.Ok? ==> r.value == WindowsMetricsOf(agent.get(WindowsOids).value)
  {
    var res := agent.get(WindowsOids);
    if res.Err? {
      return Err(WindowsMetricsFailed);
    }
    var vars := res.value;
    var metrics := NoMetrics;
    for i := 0 to |vars|
      invariant metrics == WindowsMetricsOf(vars[..i])
    {
      var v := vars[i];
      assert vars[..i + 1][..i] == vars[..i];
      if v.name == WinCpuOid {
        metrics := metrics.(cpuUsage := Render(v.value));
      } else if v.name == WinRamOid {
        metrics := metrics.(memTotalKB := Render(v.value));
      } else if v.name == WinProcessesOid {
        metrics := metrics.(memFreeKB := Render(v.value));
      }
    }
    assert vars[..|vars|] == vars;
    return Ok(metrics);
  }

  /** `getLinuxMetrics`: one GET, then a pass over its variables. */
  method GetLinuxMetrics(agent: Agent) returns (r: Result<DeviceMetrics>)
    ensures r.Err? <==> agent.get(LinuxOids).Err?
    ensures r.Err? ==> r.error == LinuxMetricsFailed
    ensures r.Ok? ==> r.value == LinuxMetricsOf(agent.get(LinuxOids).value)
  {
    var res := agent.get(LinuxOids);
    if res.Err? {
      return Err(LinuxMetricsFailed);
    }
    var vars := res.value;
    var metrics := NoMetrics;
    for i := 0 to |vars|
      invariant metrics == LinuxMetricsOf(vars[..i])
    {
      var v := vars[i];
      assert vars[..i + 1][..i] == vars[..i];
      if v.name == LinuxCpuUserOid {
        metrics := metrics.(cpuUsage := Render(v.value));
      } else if v.name == LinuxCpuIdleOid {
        metrics := metrics.(cpuIdle := Render(v.value));
      } else if v.name == LinuxMemTotalOid {
        metrics := metrics.(memTotalKB := Render(v.value));
      } else if v.name == LinuxMemFreeOid {
        metrics := metrics.(memFreeKB := Render(v.value));
      }
    }
    assert vars[..|vars|] == vars;
    return Ok(metrics);
  }

  /** `GetDeviceMetrics`: choose the path by the description, then run it. */
  method GetDeviceMetrics(agent: Agent, sysDescr: string) returns (r: Result<DeviceMetrics>)
    ensures r == MetricsOf(agent, sysDescr)
    ensures r.Err? <==> agent.get(if IsWindows(sysDescr) then WindowsOids else LinuxOids).Err?
    ensures r.Ok? ==> r.value.processes == "" && r.value.description == ""
    ensures r.Ok? && IsWindows(sysDescr) ==> r.value.cpuIdle == ""
  {
    if IsWindows(sysDescr) {
      r := GetWindowsMetrics(agent);
    } else {
      r := GetLinuxMetrics(agent);
    }
  }

  /** A description that mentions Windows in any letter case, anywhere,
      selects the Windows path. */
  lemma {:induction false} MentionSelectsWindows(before: string, word: string, after: string)
    requires ToLower(word) == "windows"
    ensures IsWindows(before + word + after)
  {
    var s := before + word + after;
    ToLowerAppend(before + word, after);
    ToLowerAppend(before, word);
    ContainsInfix(ToLower(before), "windows", ToLower(after));
  }

  /** A Windows Server banner selects the Windows path. */
  lemma WindowsBannerIsWindows()
    ensures IsWindows("Windows Server 2019")
  {
    assert "Windows Server 2019" == "" + "Windows" + " Server 2019";
    assert ToLower("Windows") == "windows" by {
      ToLowerEach("Windows");
    }
    MentionSelectsWindows("", "Windows", " Server 2019");
  }

  /** A description without the letter w in either case, such as a Linux
      kernel banner or the empty description, selects the Linux path. */
  lemma {:induction false} NoWMeansLinux(sysDescr: string)
    requires 'w' !in sysDescr && 'W' !in sysDescr
    ensures !IsWindows(sysDescr)
  {
    var lower := ToLower(sysDescr);
    ToLowerEach(sysDescr);
    forall i | 0 <= i < |lower|
      ensures lower[i] != 'w'
    {
      assert sysDescr[i] in sysDescr;
    }
    if IsWindows(sysDescr) {
      ContainsHasFirst(lower, "windows");
    }
  }

  lemma LinuxBannerIsNotWindows()
    ensures !IsWindows("Linux 5.10") && !IsWindows("")
  {
    NoWMeansLinux("Linux 5.10");
    NoWMeansLinux("");
  }
}
