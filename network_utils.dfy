/** Finding the local router's address from the platform's routing table.
    The platform commands are not run: `run` gives the output (or the
    error) of a command line, and the operating system's name is a
    parameter. */
module NetworkUtils {
  import opened Common
  import opened Text

  /** A command line: the program followed by its arguments. */
  type Command = seq<string>

  const WindowsRouteCommand: Command := ["route", "print", "0.0.0.0"]
  const UnixRouteCommand: Command := ["sh", "-c", "ip route | grep default"]

  /** The prefix of a default-route line of `route print`. */
  const DefaultRoute := "0.0.0.0"

  /** The gateway one line of `route print` names: a line that, trimmed,
      starts with the default route and has more than three columns names
      its third column. */
  function RouteLineGateway(line: string): (r: Option<string>)
    ensures r.Some? ==> HasPrefix(TrimSpace(line), DefaultRoute) && IsField(r.value)
  {
    var trimmed := TrimSpace(line);
    var fields := Fields(trimmed);
    if HasPrefix(trimmed, DefaultRoute) && |fields| > 3 then Some(fields[2]) else None
  }

  /** The gateway of the first line that names one. */
  function FirstRouteGateway(lines: seq<string>): (r: Option<string>)
    ensures r.Some? ==> IsField(r.value)
  {
    if lines == [] then None
    else if RouteLineGateway(lines[0]).Some? then RouteLineGateway(lines[0])
    else FirstRouteGateway(lines[1..])
  }

  /** A gateway found comes from a line that names it, and no line before
      that one names a gateway. */
  lemma {:induction false} FirstRouteGatewayIndex(lines: seq<string>) returns (i: nat)
    requires FirstRouteGateway(lines).Some?
    ensures i < |lines| && FirstRouteGateway(lines) == RouteLineGateway(lines[i])
    ensures forall j :: 0 <= j < i ==> RouteLineGateway(lines[j]).None?
  {
    if RouteLineGateway(lines[0]).Some? {
      i := 0;
    } else {
      var k := FirstRouteGatewayIndex(lines[1..]);
      i := k + 1;
      forall j | 0 <= j < i
        ensures RouteLineGateway(lines[j]).None?
      {
        if j > 0 {
          assert lines[j] == lines[1..][j - 1];
        }
      }
    }
  }

  /** No gateway is found exactly when no line names one. */
  lemma {:induction false} FirstRouteGatewayNone(lines: seq<string>)
    ensures FirstRouteGateway(lines).None? <==> forall j :: 0 <= j < |lines| ==> RouteLineGateway(lines[j]).None?
  {
    if lines != [] {
      FirstRouteGatewayNone(lines[1..]);
      if RouteLineGateway(lines[0]).None? {
        forall j | 0 < j < |lines|
          ensures lines[j] == lines[1..][j - 1]
        {
        }
      }
    }
  }

  /** What `getRouterIPWindows` returns for the output of `route print`. */
  function WindowsGateway(output: Result<string>): (r: Result<string>)
    ensures r.Ok? ==> IsField(r.value)
  {
    match output
    case Err(e) => Err(e)
    case Ok(out) =>
      match FirstRouteGateway(Split(out, '\n'))
      case Some(gw) => Ok(gw)
      case None => Err(GatewayNotFound)
  }

  /** Go's `getRouterIPWindows`: scan the lines of `route print 0.0.0.0`
      and return the gateway of the first default-route line. */
  method GetRouterIpWindows(run: Command -> Result<string>) returns (r: Result<string>)
    ensures r == WindowsGateway(run(WindowsRouteCommand))
  {
    var output := run(WindowsRouteCommand);
    if output.Err? {
      return Err(output.error);
    }
    var lines := Split(output.value, '\n');
    for i := 0 to |lines|
      invariant FirstRouteGateway(lines[i..]) == FirstRouteGateway(lines)
    {
      assert lines[i..][1..] == lines[i + 1..];
      var line := TrimSpace(lines[i]);
      if HasPrefix(line, DefaultRoute) {
        var fields := Fields(line);
        if |fields| > 3 {
          return Ok(fields[2]);
        }
      }
    }
    return Err(GatewayNotFound);
  }

  /** The gateway `ip route` names: the word after the first "via" that is
      followed by another word. */
  function ViaGateway(fields: seq<string>): (r: Option<string>)
    ensures r.Some? ==> r.value in fields
  {
    if |fields| < 2 then None
    else if fields[0] == "via" then Some(fields[1])
    else ViaGateway(fields[1..])
  }

  /** A gateway found is the word after a "via", and no word before that
      "via" is one. */
  lemma {:induction false} ViaGatewayIndex(fields: seq<string>) returns (i: nat)
    requires ViaGateway(fields).Some?
    ensures i + 1 < |fields| && fields[i] == "via" && ViaGateway(fields) == Some(fields[i + 1])
    ensures forall j :: 0 <= j < i ==> fields[j] != "via"
  {
    if fields[0] == "via" {
      i := 0;
    } else {
      var k := ViaGatewayIndex(fields[1..]);
      i := k + 1;
      forall j | 0 <= j < i
        ensures fields[j] != "via"
      {
        if j > 0 {
          assert fields[j] == fields[1..][j - 1];
        }
      }
    }
  }

  /** No gateway is found exactly when no word but the last is "via". */
  lemma {:induction false} ViaGatewayNone(fields: seq<string>)
    ensures ViaGateway(fields).None? <==> forall j :: 0 <= j < |fields| - 1 ==> fields[j] != "via"
  {
    if |fields| >= 2 {
      ViaGatewayNone(fields[1..]);
      if fields[0] != "via" {
        forall j | 0 < j < |fields| - 1
          ensures fields[j] == fields[1..][j - 1]
        {
        }
      }
    }
  }

  /** What `getRouterIPUnix` returns for the output of `ip route | grep default`. */
  function UnixGateway(output: Result<string>): (r: Result<string>)
    ensures r.Ok? ==> IsField(r.value)
  {
    match output
    case Err(e) => Err(e)
    case Ok(out) =>
      var fields := Fields(out);
      match ViaGateway(fields)
      case Some(gw) => Ok(gw)
      case None => Err(GatewayNotFound)
  }

  /** Go's `getRouterIPUnix`: split the default route into words and return
      the word after the first "via" that has one. */
  method GetRouterIpUnix(run: Command -> Result<string>) returns (r: Result<string>)
    ensures r == UnixGateway(run(UnixRouteCommand))
  {
    var output := run(UnixRouteCommand);
    if output.Err? {
      return Err(output.error);
    }
    var fields := Fields(output.value);
    for i := 0 to |fields|
      invariant ViaGateway(fields[i..]) == ViaGateway(fields)
    {
      assert fields[i..][1..] == fields[i + 1..];
      if fields[i] == "via" && i + 1 < |fields| {
        return Ok(fields[i + 1]);
      }
    }
    return Err(GatewayNotFound);
  }

  /** What `GetLocalRouterIP` returns on the operating system `goos`. */
  function LocalRouterIp(goos: string, run: Command -> Result<string>): (r: Result<string>)
    ensures r.Ok? ==> IsField(r.value)
    ensures goos != "windows" && goos != "linux" && goos != "darwin" ==> r == Err(UnsupportedOs)
  {
    if goos == "windows" then WindowsGateway(run(WindowsRouteCommand))
    else if goos == "linux" || goos == "darwin" then UnixGateway(run(UnixRouteCommand))
    else Err(UnsupportedOs)
  }

  /** Go's `GetLocalRouterIP`: pick the routing-table reader of the platform. */
  method GetLocalRouterIp(goos: string, run: Command -> Result<string>) returns (r: Result<string>)
    ensures r == LocalRouterIp(goos, run)
  {
    if goos == "windows" {
      r := GetRouterIpWindows(run);
    } else if goos == "linux" || goos == "darwin" {
      r := GetRouterIpUnix(run);
    } else {
      r := Err(UnsupportedOs);
    }
  }
}
