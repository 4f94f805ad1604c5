/** The neighbour join of backend/snmp/lldp.go: a host's ARP table gives a
    map from MAC address to IP address, and each chassis ID its LLDP agent
    reports is looked up in that map. */
module Lldp {
  import opened Common
  import opened Text
  import opened Snmp

  /** ipNetToMediaPhysAddress (section 6 of RFC 1213): the ARP table,
      indexed by interface and the four octets of the IP address. */
  const ArpOid := "1.3.6.1.2.1.4.22.1.2"

  /** lldpRemChassisId (IEEE 802.1AB LLDP-MIB): the chassis IDs of the
      remote systems. */
  const ChassisOid := "1.0.8802.1.1.2.1.4.1.1.5"

  /** The hexadecimal renderings of the bytes, one per byte. */
  function HexParts(b: seq<byte>): (r: seq<string>)
    ensures |r| == |b|
  {
    if b == [] then [] else [Hex2(b[0])] + HexParts(b[1..])
  }

  /** Go's `formatMAC`: every byte as two lower-case hex digits, joined by ":". */
  function FormatMac(b: seq<byte>): string {
    Join(HexParts(b), ":")
  }

  /** `formatMAC` of a byte followed by more bytes: its two digits, a colon,
      then the rendering of the rest. */
  lemma FormatMacCons(x: byte, rest: seq<byte>)
    ensures rest == [] ==> FormatMac([x] + rest) == Hex2(x)
    ensures rest != [] ==> FormatMac([x] + rest) == Hex2(x) + ":" + FormatMac(rest)
  {
    assert ([x] + rest)[1..] == rest;
  }

  /** The rendering has three characters per byte less the final colon:
      at position 3i and 3i+1 the digits of byte i, at 3i+2 a colon. */
  lemma {:induction false} FormatMacShape(b: seq<byte>)
    ensures b == [] ==> FormatMac(b) == []
    ensures b != [] ==> |FormatMac(b)| == 3 * |b| - 1
    ensures forall i :: 0 <= i < |b| ==> FormatMac(b)[3 * i..3 * i + 2] == Hex2(b[i])
    ensures forall i :: 0 <= i < |b| - 1 ==> FormatMac(b)[3 * i + 2] == ':'
  {
    if b != [] {
      var s := FormatMac(b);
      var rest := b[1..];
      FormatMacCons(b[0], rest);
      assert b == [b[0]] + rest;
      if rest != [] {
        FormatMacShape(rest);
        var t := FormatMac(rest);
        assert s == Hex2(b[0]) + ":" + t;
        forall i | 1 <= i < |b|
          ensures s[3 * i..3 * i + 2] == Hex2(b[i])
        {
          assert s[3 * i..3 * i + 2] == t[3 * (i - 1)..3 * (i - 1) + 2];
        }
        forall i | 1 <= i < |b| - 1
          ensures s[3 * i + 2] == ':'
        {
          assert s[3 * i + 2] == t[3 * (i - 1) + 2];
        }
      }
    }
  }

  /** The byte two hex digits stand for. */
  function HexByte(hi: char, lo: char): byte
    requires IsHexDigit(hi) && IsHexDigit(lo)
  {
    HexValue(hi) * 16 + HexValue(lo)
  }

  /** Reads colon-separated pairs of lower-case hex digits back into bytes:
      a parser for what `formatMAC` writes. */
  function ParseMac(s: string): (r: Option<seq<byte>>)
    decreases |s|
  {
    if s == [] then Some([])
    else if |s| < 2 || !IsHexDigit(s[0]) || !IsHexDigit(s[1]) then None
    else if |s| == 2 then Some([HexByte(s[0], s[1])])
    else if s[2] != ':' || |s| == 3 then None
    else
      match ParseMac(s[3..])
      case None => None
      case Some(rest) => Some([HexByte(s[0], s[1])] + rest)
  }

  lemma HexDigitValue(d: nat)
    requires d < 16
    ensures HexValue(HexDigit(d)) == d
  {}

  /** Two hex digits read back give the byte they render. */
  lemma Hex2RoundTrip(b: byte)
    ensures HexByte(Hex2(b)[0], Hex2(b)[1]) == b
  {
    HexDigitValue(b / 16);
    HexDigitValue(b % 16);
  }

  /** `ParseMac` inverts `formatMAC`. */
  lemma {:induction false} ParseFormatMac(b: seq<byte>)
    ensures ParseMac(FormatMac(b)) == Some(b)
  {
    if b != [] {
      var rest := b[1..];
      FormatMacCons(b[0], rest);
      assert b == [b[0]] + rest;
      Hex2RoundTrip(b[0]);
      var s := FormatMac(b);
      if rest != [] {
        ParseFormatMac(rest);
        FormatMacShape(rest);
        var t := FormatMac(rest);
        assert s == Hex2(b[0]) + ":" + t;
        assert s[0] == Hex2(b[0])[0] && s[1] == Hex2(b[0])[1] && s[2] == ':' && |s| > 3;
        assert s[3..] == t;
        assert ParseMac(s) == Some([HexByte(s[0], s[1])] + rest);
      } else {
        assert s == Hex2(b[0]) && |s| == 2;
        assert ParseMac(s) == Some([HexByte(s[0], s[1])]);
        assert HexByte(s[0], s[1]) == b[0] && b == [b[0]];
      }
    }
  }

  /** So `formatMAC` maps different byte strings to different keys. */
  lemma FormatMacInjective(a: seq<byte>, b: seq<byte>)
    requires FormatMac(a) == FormatMac(b)
    ensures a == b
  {
    ParseFormatMac(a);
    ParseFormatMac(b);
  }

  /** The ARP names the join can handle: `getArpMap` slices the last four
      components of the index of every byte-valued variable, which panics
      when there are fewer. */
  predicate ArpNamesWellFormed(vars: seq<Pdu>) {
    forall i :: 0 <= i < |vars| && vars[i].value.OctetString? ==>
      |Split(TrimPrefix(vars[i].name, ArpOid + "."), '.')| >= 4
  }

  /** The candidate IP of an ARP variable: the last four components of its
      index, joined with ":" (not "."). */
  function ArpCandidate(name: string): string
    requires |Split(TrimPrefix(name, ArpOid + "."), '.')| >= 4
  {
    var parts := Split(TrimPrefix(name, ArpOid + "."), '.');
    Join(parts[|parts| - 4..], ":")
  }

  /** What one ARP variable contributes to the map: nothing unless its value
      is a byte string and its candidate IP passes `isIP`; otherwise the
      formatted MAC and the candidate. */
  function ArpEntry(v: Pdu, isIP: string -> bool): Option<(string, string)>
    requires v.value.OctetString? ==> |Split(TrimPrefix(v.name, ArpOid + "."), '.')| >= 4
  {
    match v.value
    case Other(_) => None
    case OctetString(b) =>
      var ip := ArpCandidate(v.name);
      if isIP(ip) then Some((FormatMac(b), ip)) else None
  }

  /** The contribution of each variable, in walk order. */
  function ArpEntries(vars: seq<Pdu>, isIP: string -> bool): (r: seq<Option<(string, string)>>)
    requires ArpNamesWellFormed(vars)
    ensures |r| == |vars|
  {
    if vars == [] then [] else ArpEntries(vars[..|vars| - 1], isIP) + [ArpEntry(vars[|vars| - 1], isIP)]
  }

  lemma {:induction false} ArpEntriesAt(vars: seq<Pdu>, isIP: string -> bool)
    requires ArpNamesWellFormed(vars)
    ensures forall i :: 0 <= i < |vars| ==> ArpEntries(vars, isIP)[i] == ArpEntry(vars[i], isIP)
  {
    if vars != [] {
      ArpEntriesAt(vars[..|vars| - 1], isIP);
    }
  }

  /** A map filled from a list of optional entries, each entry overwriting
      what an earlier one stored under its key. */
  function Fill(es: seq<Option<(string, string)>>): map<string, string> {
    if es == [] then map[]
    else
      var m := Fill(es[..|es| - 1]);
      match es[|es| - 1]
      case None => m
      case Some(e) => m[e.0 := e.1]
  }

  /** A key is in the filled map iff some entry has it, and it maps to the
      value of the last entry that has it. */
  lemma {:induction false} FillLastWins(es: seq<Option<(string, string)>>, key: string)
    ensures key in Fill(es) <==> exists i :: 0 <= i < |es| && es[i].Some? && es[i].value.0 == key
    ensures key in Fill(es) ==>
              exists i :: 0 <= i < |es| && es[i] == Some((key, Fill(es)[key]))
                          && forall j :: i < j < |es| ==> es[j].None? || es[j].value.0 != key
  {
    if es != [] {
      var n := |es|;
      var pre := es[..n - 1];
      FillLastWins(pre, key);
      var m := Fill(pre);
      assert forall i :: 0 <= i < |pre| ==> pre[i] == es[i];
      if es[n - 1].Some? && es[n - 1].value.0 == key {
        assert Fill(es)[key] == es[n - 1].value.1;
      } else if key in m {
        var i :| 0 <= i < |pre| && pre[i] == Some((key, m[key]))
                 && forall j :: i < j < |pre| ==> pre[j].None? || pre[j].value.0 != key;
        assert es[i] == Some((key, Fill(es)[key]));
      }
    }
  }

  /** The map `getArpMap` builds from the walked variables, in walk order. */
  function ArpMapOf(vars: seq<Pdu>, isIP: string -> bool): map<string, string>
    requires ArpNamesWellFormed(vars)
  {
    Fill(ArpEntries(vars, isIP))
  }

  /** A MAC is a key of the map iff some variable contributes it, and its IP
      is the one the last such variable contributes: the last write wins. */
  lemma ArpMapLastWins(vars: seq<Pdu>, isIP: string -> bool, mac: string)
    requires ArpNamesWellFormed(vars)
    ensures mac in ArpMapOf(vars, isIP) <==>
              exists i :: 0 <= i < |vars| && ArpEntry(vars[i], isIP).Some? && ArpEntry(vars[i], isIP).value.0 == mac
    ensures mac in ArpMapOf(vars, isIP) ==>
              exists i :: 0 <= i < |vars| && ArpEntry(vars[i], isIP) == Some((mac, ArpMapOf(vars, isIP)[mac]))
                          && forall j :: i < j < |vars| ==> ArpEntry(vars[j], isIP).None? || ArpEntry(vars[j], isIP).value.0 != mac
  {
    ArpEntriesAt(vars, isIP);
    FillLastWins(ArpEntries(vars, isIP), mac);
  }

  /** What `getArpMap` returns for a host: a connect error, the walk's error,
      or the map of the walked variables. */
  function ArpMapResult(agent: Agent, isIP: string -> bool): Result<map<string, string>>
    requires agent.walk(ArpOid).Ok? ==> ArpNamesWellFormed(agent.walk(ArpOid).value)
  {
    if !agent.reachable then Err(ConnectFailed)
    else
      match agent.walk(ArpOid)
      case Err(_) => Err(ArpWalkFailed)
      case Ok(vars) => Ok(ArpMapOf(vars, isIP))
  }

  /** Adding one more variable to the walk applies its entry to the map. */
  lemma ArpMapStep(vars: seq<Pdu>, i: nat, isIP: string -> bool)
    requires ArpNamesWellFormed(vars) && i < |vars|
    ensures ArpNamesWellFormed(vars[..i]) && ArpNamesWellFormed(vars[..i + 1])
    ensures ArpMapOf(vars[..i + 1], isIP) == match ArpEntry(vars[i], isIP) {
              case None => ArpMapOf(vars[..i], isIP)
              case Some(e) => ArpMapOf(vars[..i], isIP)[e.0 := e.1]
            }
  {
    assert vars[..i + 1][..i] == vars[..i];
    var es := ArpEntries(vars[..i], isIP);
    assert ArpEntries(vars[..i + 1], isIP) == es + [ArpEntry(vars[i], isIP)];
    assert (es + [ArpEntry(vars[i], isIP)])[..i] == es;
  }

  /** The walk callback of `getArpMap`: a byte-valued variable whose
      candidate IP is valid stores that IP under its formatted MAC. */
  method RecordArp(arpMap: map<string, string>, v: Pdu, isIP: string -> bool)
    returns (updated: map<string, string>)
    requires v.value.OctetString? ==> |Split(TrimPrefix(v.name, ArpOid + "."), '.')| >= 4
    ensures updated == match ArpEntry(v, isIP) {
              case None => arpMap
              case Some(e) => arpMap[e.0 := e.1]
            }
    ensures forall mac :: mac in updated ==> (mac in arpMap && updated[mac] == arpMap[mac]) || isIP(updated[mac])
  {
    updated := arpMap;
    if v.value.OctetString? {
      var mac := FormatMac(v.value.bytes);
      var suffix := TrimPrefix(v.name, ArpOid + ".");
      var parts := Split(suffix, '.');
      var ip := Join(parts[|parts| - 4..], ":");
      if isIP(ip) {
        updated := arpMap[mac := ip];
      }
    }
  }

  /** Go's `getArpMap`: connect, walk the ARP table and fill the map from the
      walk's callback. */
  method GetArpMap(agent: Agent, isIP: string -> bool) returns (r: Result<map<string, string>>)
    requires agent.walk(ArpOid).Ok? ==> ArpNamesWellFormed(agent.walk(ArpOid).value)
    ensures r == ArpMapResult(agent, isIP)
    ensures r.Err? <==> !agent.reachable || agent.walk(ArpOid).Err?
    ensures r.Ok? ==> forall mac :: mac in r.value ==> isIP(r.value[mac])
  {
    if !agent.reachable {
      return Err(ConnectFailed);
    }
    var walked := agent.walk(ArpOid);
    if walked.Err? {
      return Err(ArpWalkFailed);
    }
    var vars := walked.value;
    var arpMap: map<string, string> := map[];
    for i := 0 to |vars|
      invariant ArpNamesWellFormed(vars[..i])
      invariant arpMap == ArpMapOf(vars[..i], isIP)
      invariant forall mac :: mac in arpMap ==> isIP(arpMap[mac])
    {
      ArpMapStep(vars, i, isIP);
      arpMap := RecordArp(arpMap, vars[i], isIP);
    }
    assert vars[..|vars|] == vars;
    return Ok(arpMap);
  }

  /** The IPs the chassis walk collects, in walk order: for each byte-valued
      chassis ID whose formatted MAC is a key of the map, the mapped IP. */
  function Candidates(chassis: seq<Pdu>, arp: map<string, string>): seq<string> {
    if chassis == [] then []
    else
      var last := chassis[|chassis| - 1];
      Candidates(chassis[..|chassis| - 1], arp) +
        match last.value {
          case OctetString(b) => if FormatMac(b) in arp then [arp[FormatMac(b)]] else []
          case Other(_) => []
        }
  }

  /** Only chassis IDs found in the map contribute, and what they contribute
      is the IP the map holds for them. */
  lemma {:induction false} CandidatesFromMap(chassis: seq<Pdu>, arp: map<string, string>, ip: string)
    ensures ip in Candidates(chassis, arp) <==>
              exists i :: 0 <= i < |chassis| && chassis[i].value.OctetString?
                          && FormatMac(chassis[i].value.bytes) in arp
                          && arp[FormatMac(chassis[i].value.bytes)] == ip
  {
    if chassis != [] {
      var pre := chassis[..|chassis| - 1];
      CandidatesFromMap(pre, arp, ip);
      assert forall i :: 0 <= i < |pre| ==> pre[i] == chassis[i];
    }
  }

  /** The distinct elements of a list, each at its first occurrence. */
  function Dedup(xs: seq<string>): (r: seq<string>)
    ensures forall x :: x in r <==> x in xs
  {
    if xs == [] then []
    else
      var d := Dedup(xs[..|xs| - 1]);
      assert forall x :: x in xs <==> x in xs[..|xs| - 1] || x == xs[|xs| - 1] by {
        assert xs == xs[..|xs| - 1] + [xs[|xs| - 1]];
      }
      if xs[|xs| - 1] in d then d else d + [xs[|xs| - 1]]
  }

  /** The position of the first occurrence of `x`. */
  function FirstIndex(xs: seq<string>, x: string): (i: nat)
    requires x in xs
    ensures i < |xs| && xs[i] == x && x !in xs[..i]
  {
    if xs[0] == x then 0 else 1 + FirstIndex(xs[1..], x)
  }

  /** The de-duplicated list has no repeats and lists the elements in the
      order of their first occurrence. */
  lemma {:induction false} DedupOrdered(xs: seq<string>)
    ensures NoDuplicates(Dedup(xs))
    ensures forall i, j :: 0 <= i < j < |Dedup(xs)| ==> FirstIndex(xs, Dedup(xs)[i]) < FirstIndex(xs, Dedup(xs)[j])
  {
    if xs != [] {
      var n := |xs|;
      var pre := xs[..n - 1];
      var d := Dedup(pre);
      DedupOrdered(pre);
      forall x | x in pre
        ensures FirstIndex(xs, x) == FirstIndex(pre, x)
      {
        FirstIndexPrefix(pre, xs, x);
      }
      if xs[n - 1] !in d {
        var r := d + [xs[n - 1]];
        assert xs[n - 1] !in pre;
        assert FirstIndex(xs, xs[n - 1]) == n - 1;
        forall i, j | 0 <= i < j < |r|
          ensures r[i] != r[j] && FirstIndex(xs, r[i]) < FirstIndex(xs, r[j])
        {
          assert r[i] == d[i] && r[i] in d;
        }
      }
    }
  }

  lemma {:induction false} FirstIndexPrefix(pre: seq<string>, xs: seq<string>, x: string)
    requires x in pre && |pre| <= |xs| && xs[..|pre|] == pre
    ensures FirstIndex(xs, x) == FirstIndex(pre, x)
  {
    if pre[0] != x {
      assert xs[1..][..|pre| - 1] == pre[1..];
      FirstIndexPrefix(pre[1..], xs[1..], x);
    }
  }

  /** Chassis IDs whose MACs map to A, B, A and C give the IPs A, B
      and C, once each, in that order. */
  lemma DedupExample(a: string, b: string, c: string)
    requires a != b && b != c && a != c
    ensures Dedup([a, b, a, c]) == [a, b, c]
  {
    assert [a][..0] == [];
    assert Dedup([a]) == [a];
    assert [a, b][..1] == [a];
    assert Dedup([a, b]) == [a, b];
    assert [a, b, a][..2] == [a, b];
    assert Dedup([a, b, a]) == [a, b];
    assert [a, b, a, c][..3] == [a, b, a];
  }

  /** What `ScanLLDPNeighbours` returns for a host. */
  function NeighboursResult(agent: Agent, isIP: string -> bool): Result<seq<string>>
    requires agent.walk(ArpOid).Ok? ==> ArpNamesWellFormed(agent.walk(ArpOid).value)
  {
    if !agent.reachable then Err(ConnectFailed)
    else
      match ArpMapResult(agent, isIP)
      case Err(e) => Err(e)
      case Ok(arp) =>
        match agent.walk(ChassisOid)
        case Err(_) => Err(LldpWalkFailed)
        case Ok(chassis) => Ok(Dedup(Candidates(chassis, arp)))
  }

  /** Go's `ScanLLDPNeighbours`: connect, build the ARP map (an error there is
      returned as it is), walk the chassis IDs collecting the mapped IPs, then
      drop repeats keeping the first occurrence. */
  method ScanLldpNeighbours(agent: Agent, isIP: string -> bool) returns (r: Result<seq<string>>)
    requires agent.walk(ArpOid).Ok? ==> ArpNamesWellFormed(agent.walk(ArpOid).value)
    ensures r == NeighboursResult(agent, isIP)
    ensures r.Err? <==> !agent.reachable || agent.walk(ArpOid).Err? || agent.walk(ChassisOid).Err?
    ensures r.Ok? ==> NoDuplicates(r.value)
  {
    if !agent.reachable {
      return Err(ConnectFailed);
    }
    var arp := GetArpMap(agent, isIP);
    if arp.Err? {
      return Err(arp.error);
    }
    var arpMap := arp.value;
    var walked := agent.walk(ChassisOid);
    if walked.Err? {
      return Err(LldpWalkFailed);
    }
    var chassis := walked.value;
    var neighbourIPs: seq<string> := [];
    for i := 0 to |chassis|
      invariant neighbourIPs == Candidates(chassis[..i], arpMap)
    {
      var v := chassis[i];
      assert chassis[..i + 1][..i] == chassis[..i];
      if v.value.OctetString? {
        var mac := FormatMac(v.value.bytes);
        if mac in arpMap {
          neighbourIPs := neighbourIPs + [arpMap[mac]];
        }
      }
    }
    assert chassis[..|chassis|] == chassis;
    var uniq: set<string> := {};
    var result: seq<string> := [];
    for i := 0 to |neighbourIPs|
      invariant result == Dedup(neighbourIPs[..i])
      invariant forall x :: x in uniq <==> x in result
    {
      var ip := neighbourIPs[i];
      assert neighbourIPs[..i + 1][..i] == neighbourIPs[..i];
      if ip !in uniq {
        uniq := uniq + {ip};
        result := result + [ip];
      }
    }
    assert neighbourIPs[..|neighbourIPs|] == neighbourIPs;
    DedupOrdered(neighbourIPs);
    return Ok(result);
  }
}
