/** The sequential scanner of src/scan.c: the default configuration, the per-host
    identification pipeline and the two range walks. Probe outcomes come from a
    `HostOracle` per address; the optional logger is a flag, and the messages it would
    receive are returned in order. */
module Scan {
  import opened Optional
  import opened Text
  import opened Ipv4
  import opened Subnet
  import opened Net
  import opened DeviceLists
  import opened Ordinals

  /** `ScanConfig` of src/scan.h: the ports to try (at most 16, the size of
      `default_ports`) and the connect timeout in milliseconds. */
  datatype ScanConfig = ScanConfig(ports: seq<int>, timeoutMs: int)

  const MaxConfigPorts: nat := 16

  /** `scan_config_init`. */
  function ScanConfigInit(): (cfg: ScanConfig)
    ensures cfg.ports == [22, 80, 443, 139, 445, 3389]
    ensures cfg.timeoutMs == 500
  {
    ScanConfig([22, 80, 443, 139, 445, 3389], 500)
  }

  /** The default configuration fits `default_ports[16]`, names each port once, and only
      valid TCP ports. */
  lemma {:induction false} DefaultConfigWellFormed()
    ensures |ScanConfigInit().ports| == 6 <= MaxConfigPorts
    ensures forall i, j | 0 <= i < j < 6 :: ScanConfigInit().ports[i] != ScanConfigInit().ports[j]
    ensures forall i | 0 <= i < 6 :: 0 < ScanConfigInit().ports[i] < 65536
  {
  }

  // ---------------------------------------------------------------------------
  // Identification of one host (`identify_device`)
  // ---------------------------------------------------------------------------

  /** What the network would answer for one address: whether the ICMP machinery could be set
      up and an echo came back, the reverse-lookup name, the ARP reply, and the outcome of a
      TCP connect to each port. */
  datatype HostOracle = HostOracle(
    icmpReady: bool,
    echoReplied: bool,
    dnsName: Option<string>,
    arp: ArpReply,
    connect: (int, Timeval) -> ConnectAttempt)

  /** A probe sent to the host, in the order they are made. */
  datatype Probe = PingProbe | DnsProbe | ArpProbe | ConnectProbe(port: int)

  /** Sizes of the `DeviceInfo` text buffers. */
  const HostnameSize: nat := 256
  const MacSize: nat := 32
  const IpSize: nat := 64

  function PortProbes(ports: seq<int>): (r: seq<Probe>)
    ensures |r| == |ports|
    ensures forall i | 0 <= i < |ports| :: r[i] == ConnectProbe(ports[i])
  {
    if |ports| == 0 then [] else [ConnectProbe(ports[0])] + PortProbes(ports[1..])
  }

  /** `snprintf(msg, size, ...)`: the formatted text cut to `size - 1` characters. */
  function Msg(text: string, size: nat): (m: string)
    requires size > 0
    ensures |m| < size
  {
    Truncate(text, size - 1)
  }

  function PingMsg(ip: string): string { Msg("Ping " + ip + "...", 128) }
  function DnsMsg(ip: string): string { Msg("DNS " + ip + "...", 128) }
  function MacMsg(ip: string): string { Msg("MAC " + ip + "...", 160) }
  function PortsMsg(ip: string): string { Msg("Portas " + ip + "...", 160) }
  function PingFailedMsg(ip: string): string { Msg("Ping falhou " + ip, 128) }

  /** The summary line: empty hostname and MAC are shown as "(sem nome)" and "MAC --". */
  function DoneMsg(d: DeviceInfo): string {
    Msg("Conclu\U{ED}do " + d.ip + ": " + (if d.hostname == "" then "(sem nome)" else d.hostname) + ", "
          + (if d.mac == "" then "MAC --" else d.mac) + ", " + NatToDec(|d.openPorts|) + " portas", 256)
  }

  /** The outcome of identifying one host: the updated record, the log messages and the
      probes sent. */
  datatype Identified = Identified(info: DeviceInfo, log: seq<string>, probes: seq<Probe>)

  /** `identify_device`. A host that does not answer the ping gets no further probe and keeps
      its name, MAC and ports; a live host gets a reverse lookup, an ARP query and one
      connect per configured port, and its open ports are reset and refilled. */
  function IdentifyDevice(info: DeviceInfo, cfg: ScanConfig, o: HostOracle, logging: bool): (r: Identified)
    ensures r.info.ip == info.ip
    ensures r.info.isAlive <==> NetPing(info.ip, o.icmpReady, o.echoReplied)
    ensures r.info.isAlive ==> IpToUint(info.ip).Some?
    ensures !r.info.isAlive ==> r.info == info.(isAlive := false) && r.probes == [PingProbe]
    ensures r.info.isAlive ==> r.probes == [PingProbe, DnsProbe, ArpProbe] + PortProbes(cfg.ports)
    ensures r.info.isAlive ==>
              r.info.openPorts == OpenPortsOf(cfg.ports, cfg.timeoutMs, o.connect)
              && (forall p :: p in r.info.openPorts <==> p in cfg.ports && ConnectWithTimeout(p, cfg.timeoutMs, o.connect))
    ensures r.info.isAlive ==>
              r.info.hostname == NetReverseDns(info.ip, o.dnsName, info.hostname, HostnameSize).buf
              && r.info.mac == NetGetMac(info.ip, o.arp, info.mac, MacSize).buf
    ensures r.info.isAlive && o.dnsName.None? ==> r.info.hostname == ""
    ensures !logging ==> r.log == []
    ensures logging ==> |r.log| == (if r.info.isAlive then 5 else 2) && r.log[0] == PingMsg(info.ip)
    ensures logging && r.info.isAlive ==> r.log[4] == DoneMsg(r.info)
    ensures logging && !r.info.isAlive ==> r.log[1] == PingFailedMsg(info.ip)
  {
    var ip := info.ip;
    var alive := NetPing(ip, o.icmpReady, o.echoReplied);
    if alive then
      var host := NetReverseDns(ip, o.dnsName, info.hostname, HostnameSize).buf;
      var mac := NetGetMac(ip, o.arp, info.mac, MacSize).buf;
      var ports := OpenPortsOf(cfg.ports, cfg.timeoutMs, o.connect);
      var d := DeviceInfo(ip, host, mac, true, ports);
      var log := if logging then [PingMsg(ip), DnsMsg(ip), MacMsg(ip), PortsMsg(ip), DoneMsg(d)] else [];
      Identified(d, log, [PingProbe, DnsProbe, ArpProbe] + PortProbes(cfg.ports))
    else
      var log := if logging then [PingMsg(ip), PingFailedMsg(ip)] else [];
      Identified(info.(isAlive := false), log, [PingProbe])
  }

  /** Identification is a function of the address text alone once the record is blank: a
      dead host's record stays blank apart from its address. */
  lemma {:induction false} DeadHostStaysBlank(ip: string, cfg: ScanConfig, o: HostOracle, logging: bool)
    requires !NetPing(ip, o.icmpReady, o.echoReplied)
    ensures IdentifyDevice(Blank(ip), cfg, o, logging).info == Blank(ip)
  {
  }

  // ---------------------------------------------------------------------------
  // Range walks (`scan_range`, `scan_subnet`)
  // ---------------------------------------------------------------------------

  /** The record text of an ordinal: `uint_to_ip(ip, di.ip, sizeof(di.ip))` into a 64-byte
      buffer, which always holds the whole dotted quad. */
  function AddressText(ip: U32): (s: string)
    ensures s == UintToIp(Bits(ip), "", IpSize, true)
    ensures IpToUint(s) == Some(Bits(ip))
  {
    IpToUintOfFormat(Bits(ip));
    FormatIp(Bits(ip))
  }

  /** One iteration of the scan loops: a blank record for the address, the "Processando"
      message, then identification. */
  function Visit(cfg: ScanConfig, probe: U32 -> HostOracle, ip: U32, logging: bool): (r: Identified)
    ensures r.info.ip == AddressText(ip)
  {
    var text := AddressText(ip);
    var id := IdentifyDevice(Blank(text), cfg, probe(ip), logging);
    id.(log := (if logging then [Msg("Processando " + text, 128)] else []) + id.log)
  }

  /** The visit of every address of a walk with a fixed configuration, probe outcomes and
      logger. */
  function Visitor(cfg: ScanConfig, probe: U32 -> HostOracle, logging: bool): (v: U32 -> Identified)
    ensures forall ip: U32 :: v(ip).info.ip == AddressText(ip)
  {
    (ip: U32) => Visit(cfg, probe, ip, logging)
  }

  /** The records a walk over `ips` produces, one per ordinal, in order. */
  function Infos(visit: U32 -> Identified, ips: seq<U32>): (r: seq<DeviceInfo>)
    ensures |r| == |ips|
    ensures forall k | 0 <= k < |ips| :: r[k] == visit(ips[k]).info
    decreases |ips|
  {
    if |ips| == 0 then [] else [visit(ips[0]).info] + Infos(visit, ips[1..])
  }

  /** The messages a walk over `ips` logs, in order. */
  function Logs(visit: U32 -> Identified, ips: seq<U32>): (r: seq<string>)
    ensures (forall k | 0 <= k < |ips| :: visit(ips[k]).log == []) ==> r == []
    decreases |ips|
  {
    if |ips| == 0 then [] else visit(ips[0]).log + Logs(visit, ips[1..])
  }

  function Records(cfg: ScanConfig, probe: U32 -> HostOracle, ips: seq<U32>, logging: bool): seq<DeviceInfo> {
    Infos(Visitor(cfg, probe, logging), ips)
  }

  function ScanLog(cfg: ScanConfig, probe: U32 -> HostOracle, ips: seq<U32>, logging: bool): seq<string> {
    Logs(Visitor(cfg, probe, logging), ips)
  }

  /** The list and the log after a range walk. */
  datatype Walk = Walk(list: DeviceList, log: seq<string>)

  /** `for (; ip <= hi; ++ip) { ...; device_list_push(out, &di); }` from address `ip` on, with
      every push finding storage: one record and its messages per address, in order. The
      caller guarantees the loop ends: `hi` is not the largest ordinal whenever the loop is
      entered. */
  function ScanFrom(list: DeviceList, visit: U32 -> Identified, ip: U32, hi: U32): (w: Walk)
    requires ip > hi || hi < U32Max
    ensures w.list.items == list.items + Infos(visit, Range(ip, hi))
    ensures w.log == Logs(visit, Range(ip, hi))
    ensures Valid(list) ==> Valid(w.list)
    decreases hi - ip
  {
    if ip > hi then Walk(list, [])
    else
      var v := visit(ip);
      var rest := ScanFrom(Push(list, v.info, true), visit, Inc(ip), hi);
      ScanFromStep(list, visit, ip, hi, rest.list.items, rest.log);
      Walk(rest.list, v.log + rest.log)
  }

  /** One turn of the loop: the visit of `ip` comes first, then the walk from `++ip`. */
  lemma {:induction false} ScanFromStep(list: DeviceList, visit: U32 -> Identified, ip: U32, hi: U32, items: seq<DeviceInfo>, log: seq<string>)
    requires ip <= hi < U32Max
    requires items == Push(list, visit(ip).info, true).items + Infos(visit, Range(Inc(ip), hi))
    requires log == Logs(visit, Range(Inc(ip), hi))
    ensures items == list.items + Infos(visit, Range(ip, hi))
    ensures visit(ip).log + log == Logs(visit, Range(ip, hi))
  {
    var rest := Range(Inc(ip), hi);
    assert Range(ip, hi) == [ip] + rest by {
      RangeStep(ip, hi);
    }
    assert Push(list, visit(ip).info, true).items == list.items + [visit(ip).info] by {
      PushTrue(list, visit(ip).info);
    }
    InfosCons(visit, ip, rest);
    LogsCons(visit, ip, rest);
    SnocThenAppend(list.items, visit(ip).info, Infos(visit, rest));
  }

  lemma {:induction false} SnocThenAppend<T>(a: seq<T>, x: T, b: seq<T>)
    ensures a + [x] + b == a + ([x] + b)
  {
  }

  lemma {:induction false} InfosCons(visit: U32 -> Identified, x: U32, rest: seq<U32>)
    ensures Infos(visit, [x] + rest) == [visit(x).info] + Infos(visit, rest)
  {
    assert ([x] + rest)[1..] == rest;
  }

  lemma {:induction false} LogsCons(visit: U32 -> Identified, x: U32, rest: seq<U32>)
    ensures Logs(visit, [x] + rest) == visit(x).log + Logs(visit, rest)
  {
    assert ([x] + rest)[1..] == rest;
  }

  lemma {:induction false} PushTrue(l: DeviceList, info: DeviceInfo)
    ensures Push(l, info, true).items == l.items + [info]
  {
  }

  /** `scan_range`. Nothing happens when either end fails to parse; otherwise the range is
      walked as `ScanBetween` walks it. The source loops forever when the end is
      255.255.255.255, so that case is excluded. */
  function ScanRange(out: DeviceList, cfg: ScanConfig, startText: string, endText: string, probe: U32 -> HostOracle, logging: bool): (w: Walk)
    requires IpToUint(startText).Some? && IpToUint(endText).Some? ==> Ordinal(IpToUint(endText).value) < U32Max
    ensures IpToUint(startText).None? || IpToUint(endText).None? ==> w == Walk(out, [])
    ensures Valid(out) ==> Valid(w.list)
  {
    var s, e := IpToUint(startText), IpToUint(endText);
    if s.Some? && e.Some? then ScanBetween(out, cfg, probe, Ordinal(s.value), Ordinal(e.value), logging)
    else Walk(out, [])
  }

  /** With both ends parsed, one record per address from start to end, in ascending order,
      and nothing at all when the end is below the start. */
  lemma {:induction false} ScanRangeRecords(out: DeviceList, cfg: ScanConfig, startText: string, endText: string, probe: U32 -> HostOracle, logging: bool, s: bv32, e: bv32)
    requires IpToUint(startText) == Some(s) && IpToUint(endText) == Some(e) && Ordinal(e) < U32Max
    ensures var w := ScanRange(out, cfg, startText, endText, probe, logging);
            && (Ordinal(e) < Ordinal(s) ==> w == Walk(out, []))
            && w.list.items == out.items + Records(cfg, probe, Range(Ordinal(s), Ordinal(e)), logging)
            && w.log == ScanLog(cfg, probe, Range(Ordinal(s), Ordinal(e)), logging)
  {
    var w := ScanBetween(out, cfg, probe, Ordinal(s), Ordinal(e), logging);
    assert ScanRange(out, cfg, startText, endText, probe, logging) == w;
  }

  /** The walk from ordinal `s` to ordinal `e`, which appends nothing when `e < s`. */
  function ScanBetween(out: DeviceList, cfg: ScanConfig, probe: U32 -> HostOracle, s: U32, e: U32, logging: bool): (w: Walk)
    requires s > e || e < U32Max
    ensures e < s ==> w == Walk(out, [])
    ensures w.list.items == out.items + Records(cfg, probe, Range(s, e), logging)
    ensures w.log == ScanLog(cfg, probe, Range(s, e), logging)
    ensures Valid(out) ==> Valid(w.list)
  {
    if e < s then Walk(out, []) else ScanFrom(out, Visitor(cfg, probe, logging), s, e)
  }

  /** Record `k` appended by a range scan is the address `start + k`, so the records appear
      in ascending address order, each address once. */
  lemma {:induction false} ScanRangeAddresses(cfg: ScanConfig, probe: U32 -> HostOracle, s: U32, e: U32, logging: bool, k: nat)
    requires s <= e && k < |Range(s, e)|
    ensures Records(cfg, probe, Range(s, e), logging)[k].ip == AddressText(s + k)
    ensures |Records(cfg, probe, Range(s, e), logging)| == e - s + 1
  {
  }

  /** `scan_subnet`. Without a primary subnet nothing happens; otherwise the usable range of
      that subnet is walked as `scan_range` walks its range, which appends nothing when the
      range is empty (a /31 or /32). The source loops forever when the usable range ends at
      255.255.255.255 (the /32 of 0.0.0.0), so that case is excluded. */
  function ScanSubnet(out: DeviceList, cfg: ScanConfig, adapters: Option<seq<Adapter>>, probe: U32 -> HostOracle, logging: bool): (w: Walk)
    requires PrimarySubnet(adapters).Some? ==>
               Ordinal(PrimarySubnet(adapters).value.startIp) > Ordinal(PrimarySubnet(adapters).value.endIp)
               || Ordinal(PrimarySubnet(adapters).value.endIp) < U32Max
    ensures PrimarySubnet(adapters).None? ==> w == Walk(out, [])
    ensures Valid(out) ==> Valid(w.list)
  {
    match PrimarySubnet(adapters)
    case None => Walk(out, [])
    case Some(sn) => ScanBetween(out, cfg, probe, Ordinal(sn.startIp), Ordinal(sn.endIp), logging)
  }

  /** With a primary subnet, one record per usable address of it, in ascending order. */
  lemma {:induction false} ScanSubnetRecords(out: DeviceList, cfg: ScanConfig, adapters: Option<seq<Adapter>>, probe: U32 -> HostOracle, logging: bool, sn: SubnetV4)
    requires PrimarySubnet(adapters) == Some(sn)
    requires Ordinal(sn.startIp) > Ordinal(sn.endIp) || Ordinal(sn.endIp) < U32Max
    ensures var w := ScanSubnet(out, cfg, adapters, probe, logging);
            && w.list.items == out.items + Records(cfg, probe, Range(Ordinal(sn.startIp), Ordinal(sn.endIp)), logging)
            && w.log == ScanLog(cfg, probe, Range(Ordinal(sn.startIp), Ordinal(sn.endIp)), logging)
  {
    ScanSubnetWalksUsableRange(out, cfg, adapters, probe, logging, sn);
  }

  lemma {:induction false} ScanSubnetWalksUsableRange(out: DeviceList, cfg: ScanConfig, adapters: Option<seq<Adapter>>, probe: U32 -> HostOracle, logging: bool, sn: SubnetV4)
    requires PrimarySubnet(adapters) == Some(sn)
    requires Ordinal(sn.startIp) > Ordinal(sn.endIp) || Ordinal(sn.endIp) < U32Max
    ensures ScanSubnet(out, cfg, adapters, probe, logging)
            == ScanBetween(out, cfg, probe, Ordinal(sn.startIp), Ordinal(sn.endIp), logging)
  {
  }
}
