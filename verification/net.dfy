/** The probing layer of src/net.c with every Winsock / IP Helper call replaced by its
    observable outcome: the connect attempt, the ARP reply, the reverse lookup and the echo
    reply are parameters. What remains is the logic around those calls. */
module Net {
  import opened Optional
  import opened Text
  import opened Ipv4

  // ---------------------------------------------------------------------------
  // Timeout conversion (`connect_with_timeout`)
  // ---------------------------------------------------------------------------

  /** C integer division: the quotient is truncated toward zero. */
  function CDiv(a: int, b: int): int
    requires b > 0
  {
    if a >= 0 then a / b else -((-a) / b)
  }

  /** C remainder: it takes the sign of the dividend. */
  function CRem(a: int, b: int): int
    requires b > 0
  {
    a - CDiv(a, b) * b
  }

  lemma {:induction false} CRemBounds(a: int, b: int)
    requires b > 0
    ensures -b < CRem(a, b) < b
    ensures a >= 0 ==> CRem(a, b) >= 0
    ensures a < 0 ==> CRem(a, b) <= 0
  {
  }

  datatype Timeval = Timeval(sec: int, usec: int)

  /** `tv_sec = timeout_ms / 1000; tv_usec = (timeout_ms % 1000) * 1000`. The split loses
      nothing: the milliseconds are recovered, the microseconds stay under one second and
      both parts carry the sign of the timeout. */
  function TimevalOf(ms: int): (tv: Timeval)
    ensures tv.sec * 1000 + CDiv(tv.usec, 1000) == ms
    ensures -1_000_000 < tv.usec < 1_000_000 && tv.usec % 1000 == 0
    ensures ms >= 0 ==> tv.sec >= 0 && tv.usec >= 0 && tv.sec * 1000 + tv.usec / 1000 == ms
    ensures ms < 0 ==> tv.sec <= 0 && tv.usec <= 0
  {
    CRemBounds(ms, 1000);
    Timeval(CDiv(ms, 1000), CRem(ms, 1000) * 1000)
  }

  // ---------------------------------------------------------------------------
  // One TCP probe
  // ---------------------------------------------------------------------------

  /** What the socket calls of `connect_with_timeout` report for one port: no socket, an
      immediate connection, a failure other than WSAEWOULDBLOCK, or a pending connection
      with the `select` result, whether the socket is in the write set, and SO_ERROR. */
  datatype ConnectAttempt =
    | NoSocket
    | Connected
    | Failed
    | Pending(selectResult: int, writable: bool, soError: int)

  /** The port counts as open only on an immediate connection, or on a pending one that
      `select` reports writable in time with no socket error. */
  predicate PortOpen(a: ConnectAttempt) {
    match a
    case Connected => true
    case Pending(n, w, e) => n > 0 && w && e == 0
    case _ => false
  }

  lemma {:induction false} PortOpenCases(a: ConnectAttempt)
    ensures PortOpen(a) <==> a.Connected? || (a.Pending? && a.selectResult > 0 && a.writable && a.soError == 0)
    ensures a.NoSocket? || a.Failed? ==> !PortOpen(a)
  {
  }

  /** `connect_with_timeout(ip, port, timeout_ms)`; `connect` gives the outcome for a port
      and the `select` timeout derived from `timeout_ms`. */
  predicate ConnectWithTimeout(port: int, timeoutMs: int, connect: (int, Timeval) -> ConnectAttempt) {
    PortOpen(connect(port, TimevalOf(timeoutMs)))
  }

  // ---------------------------------------------------------------------------
  // Port scan (`net_scan_ports`)
  // ---------------------------------------------------------------------------

  /** The configured ports that connect, in configured order. */
  function OpenPortsOf(ports: seq<int>, timeoutMs: int, connect: (int, Timeval) -> ConnectAttempt): (r: seq<int>)
    ensures |r| <= |ports|
    ensures forall p :: p in r <==> p in ports && ConnectWithTimeout(p, timeoutMs, connect)
    decreases |ports|
  {
    if |ports| == 0 then []
    else
      var rest := OpenPortsOf(ports[1..], timeoutMs, connect);
      assert forall p :: p in ports <==> p == ports[0] || p in ports[1..];
      if ConnectWithTimeout(ports[0], timeoutMs, connect) then [ports[0]] + rest else rest
  }

  /** Scanning two lists of ports in turn finds the open ports of each, in that order. */
  lemma {:induction false} OpenPortsOfAppend(a: seq<int>, b: seq<int>, timeoutMs: int, connect: (int, Timeval) -> ConnectAttempt)
    ensures OpenPortsOf(a + b, timeoutMs, connect) == OpenPortsOf(a, timeoutMs, connect) + OpenPortsOf(b, timeoutMs, connect)
    decreases |a|
  {
    if |a| > 0 {
      assert (a + b)[1..] == a[1..] + b;
      OpenPortsOfAppend(a[1..], b, timeoutMs, connect);
    } else {
      assert a + b == b;
    }
  }

  /** Every port the filter keeps is one the scan connected to, and it is not reordered:
      the i-th kept port comes from a position at or after i. */
  lemma {:induction false} OpenPortsOfOrder(ports: seq<int>, timeoutMs: int, connect: (int, Timeval) -> ConnectAttempt, i: nat)
    requires i < |OpenPortsOf(ports, timeoutMs, connect)|
    ensures exists j :: i <= j < |ports| && ports[j] == OpenPortsOf(ports, timeoutMs, connect)[i]
    decreases |ports|
  {
    var rest := OpenPortsOf(ports[1..], timeoutMs, connect);
    if ConnectWithTimeout(ports[0], timeoutMs, connect) {
      if i > 0 {
        OpenPortsOfOrder(ports[1..], timeoutMs, connect, i - 1);
        var j :| i - 1 <= j < |ports[1..]| && ports[1..][j] == rest[i - 1];
        assert ports[j + 1] == OpenPortsOf(ports, timeoutMs, connect)[i];
      } else {
        assert ports[0] == OpenPortsOf(ports, timeoutMs, connect)[0];
      }
    } else {
      OpenPortsOfOrder(ports[1..], timeoutMs, connect, i);
      var j :| i <= j < |ports[1..]| && ports[1..][j] == rest[i];
      assert ports[j + 1] == OpenPortsOf(ports, timeoutMs, connect)[i];
    }
  }

  /** `net_scan_ports`. `sink` is the caller's `open_ports` array up to `*open_count`, or
      None when either pointer is null. Open ports are appended after what the sink already
      holds (the count is not reset), and the return value counts them either way. */
  method NetScanPorts(ports: seq<int>, timeoutMs: int, connect: (int, Timeval) -> ConnectAttempt, sink: Option<seq<int>>)
    returns (found: int, written: Option<seq<int>>)
    ensures found == |OpenPortsOf(ports, timeoutMs, connect)|
    ensures sink.None? ==> written.None?
    ensures sink.Some? ==> written == Some(sink.value + OpenPortsOf(ports, timeoutMs, connect))
  {
    found := 0;
    written := sink;
    var i := 0;
    assert ports[..0] == [];
    assert sink.Some? ==> sink.value + OpenPortsOf(ports[..0], timeoutMs, connect) == sink.value;
    while i < |ports|
      invariant 0 <= i <= |ports|
      invariant found == |OpenPortsOf(ports[..i], timeoutMs, connect)|
      invariant sink.None? ==> written.None?
      invariant sink.Some? ==> written == Some(sink.value + OpenPortsOf(ports[..i], timeoutMs, connect))
    {
      assert ports[..i + 1] == ports[..i] + [ports[i]];
      OpenPortsOfAppend(ports[..i], [ports[i]], timeoutMs, connect);
      assert [ports[i]][1..] == [];
      assert OpenPortsOf([ports[i]], timeoutMs, connect)
          == if ConnectWithTimeout(ports[i], timeoutMs, connect) then [ports[i]] else [];
      var done := OpenPortsOf(ports[..i], timeoutMs, connect);
      if ConnectWithTimeout(ports[i], timeoutMs, connect) {
        assert OpenPortsOf(ports[..i + 1], timeoutMs, connect) == done + [ports[i]];
        if written.Some? {
          assert written.value + [ports[i]] == sink.value + (done + [ports[i]]);
          written := Some(written.value + [ports[i]]);
        }
        found := found + 1;
      } else {
        assert done + [] == done;
        assert OpenPortsOf(ports[..i + 1], timeoutMs, connect) == done;
      }
      i := i + 1;
    }
    assert ports[..i] == ports;
  }

  // ---------------------------------------------------------------------------
  // MAC text (`net_get_mac`)
  // ---------------------------------------------------------------------------

  type Byte = b: int | 0 <= b < 256

  /** An upper-case hexadecimal digit. */
  function HexDigit(d: nat): (c: char)
    requires d < 16
    ensures '0' <= c <= '9' || 'A' <= c <= 'F'
  {
    if d < 10 then ('0' as int + d) as char else ('A' as int + d - 10) as char
  }

  function HexValue(c: char): (r: Option<nat>)
    ensures r.Some? ==> r.value < 16 && HexDigit(r.value) == c
    ensures r.None? <==> !('0' <= c <= '9' || 'A' <= c <= 'F')
  {
    if '0' <= c <= '9' then Some(c as int - '0' as int)
    else if 'A' <= c <= 'F' then Some(c as int - 'A' as int + 10)
    else None
  }

  lemma {:induction false} HexValueOfDigit(d: nat)
    requires d < 16
    ensures HexValue(HexDigit(d)) == Some(d)
  {
  }

  /** "%02X": two upper-case hexadecimal digits. */
  function HexByte(b: Byte): (s: string)
    ensures |s| == 2
  {
    [HexDigit(b / 16), HexDigit(b % 16)]
  }

  function ParseHexByte(s: string): (r: Option<Byte>)
    ensures r.Some? ==> HexByte(r.value) == s
  {
    if |s| != 2 then None
    else
      match (HexValue(s[0]), HexValue(s[1]))
      case (Some(hi), Some(lo)) =>
        var b: Byte := hi * 16 + lo;
        assert b / 16 == hi && b % 16 == lo;
        Some(b)
      case _ => None
  }

  lemma {:induction false} ParseHexByteOfText(b: Byte)
    ensures ParseHexByte(HexByte(b)) == Some(b)
  {
    HexValueOfDigit(b / 16);
    HexValueOfDigit(b % 16);
  }

  /** "%02X-%02X-%02X-%02X-%02X-%02X" of the six bytes ARP reports. */
  function MacText(m: seq<Byte>): (s: string)
    requires |m| == 6
    ensures |s| == 17
  {
    HexByte(m[0]) + "-" + HexByte(m[1]) + "-" + HexByte(m[2]) + "-"
      + HexByte(m[3]) + "-" + HexByte(m[4]) + "-" + HexByte(m[5])
  }

  /** Reads MAC text back: six two-digit groups separated by '-'. */
  function ParseMac(s: string): Option<seq<Byte>> {
    if |s| != 17 || s[2] != '-' || s[5] != '-' || s[8] != '-' || s[11] != '-' || s[14] != '-' then None
    else
      match (ParseHexByte(s[0..2]), ParseHexByte(s[3..5]), ParseHexByte(s[6..8]),
             ParseHexByte(s[9..11]), ParseHexByte(s[12..14]), ParseHexByte(s[15..17]))
      case (Some(a), Some(b), Some(c), Some(d), Some(e), Some(f)) => Some([a, b, c, d, e, f])
      case _ => None
  }

  /** The MAC text names the bytes it was made from: parsing it gives them back. */
  lemma {:induction false} ParseMacText(m: seq<Byte>)
    requires |m| == 6
    ensures ParseMac(MacText(m)) == Some(m)
  {
    var s := MacText(m);
    assert s[0..2] == HexByte(m[0]);
    assert s[3..5] == HexByte(m[1]);
    assert s[6..8] == HexByte(m[2]);
    assert s[9..11] == HexByte(m[3]);
    assert s[12..14] == HexByte(m[4]);
    assert s[15..17] == HexByte(m[5]);
    assert s[2] == '-' && s[5] == '-' && s[8] == '-' && s[11] == '-' && s[14] == '-';
    ParseHexByteOfText(m[0]);
    ParseHexByteOfText(m[1]);
    ParseHexByteOfText(m[2]);
    ParseHexByteOfText(m[3]);
    ParseHexByteOfText(m[4]);
    ParseHexByteOfText(m[5]);
    assert ParseHexByte(s[0..2]) == Some(m[0]);
    assert ParseHexByte(s[3..5]) == Some(m[1]);
    assert ParseHexByte(s[6..8]) == Some(m[2]);
    assert ParseHexByte(s[9..11]) == Some(m[3]);
    assert ParseHexByte(s[12..14]) == Some(m[4]);
    assert ParseHexByte(s[15..17]) == Some(m[5]);
    assert [m[0], m[1], m[2], m[3], m[4], m[5]] == m;
  }

  lemma {:induction false} MacTextInjective(m: seq<Byte>, n: seq<Byte>)
    requires |m| == 6 && |n| == 6 && MacText(m) == MacText(n)
    ensures m == n
  {
    ParseMacText(m);
    ParseMacText(n);
  }

  /** A string result of a probe that writes into a caller buffer: the return flag and the
      buffer contents afterwards. */
  datatype Written = Written(ok: bool, buf: string)

  /** The outcome of `SendARP`: whether it returned NO_ERROR, and the bytes it reported
      (their number is the returned length). */
  datatype ArpReply = ArpReply(noError: bool, bytes: seq<Byte>)

  /** `net_get_mac`. The buffer is written only when the address parses and ARP answers
      with exactly six bytes; then it holds the MAC text, cut to the buffer. */
  function NetGetMac(ip: string, arp: ArpReply, macbuf: string, macsz: nat): (r: Written)
    ensures r.ok <==> IpToUint(ip).Some? && arp.noError && |arp.bytes| == 6
    ensures !r.ok ==> r.buf == macbuf
    ensures r.ok && macsz > 17 ==> ParseMac(r.buf) == Some(arp.bytes)
    ensures r.ok && macsz > 0 ==> |r.buf| < macsz && |r.buf| <= 17 && r.buf == MacText(arp.bytes)[..|r.buf|]
    ensures r.ok && macsz > 0 ==> r.buf == MacText(arp.bytes)[..if macsz > 17 then 17 else macsz - 1]
  {
    if IpToUint(ip).None? then Written(false, macbuf)
    else if arp.noError && |arp.bytes| == 6 then Written(true, CopiedMac(arp.bytes, macbuf, macsz))
    else Written(false, macbuf)
  }

  /** The MAC text of `m` copied with `safe_strcpy` into a buffer of `macsz` characters. */
  function CopiedMac(m: seq<Byte>, macbuf: string, macsz: nat): (buf: string)
    requires |m| == 6
    ensures macsz > 17 ==> ParseMac(buf) == Some(m)
    ensures macsz > 0 ==> |buf| < macsz && |buf| <= 17 && buf == MacText(m)[..|buf|]
    ensures macsz > 0 ==> |buf| == if macsz > 17 then 17 else macsz - 1
    ensures macsz == 0 ==> buf == macbuf
  {
    ParseMacText(m);
    SafeStrcpy(Some(macbuf), macsz, Some(MacText(m))).value
  }

  // ---------------------------------------------------------------------------
  // Reverse lookup and ping
  // ---------------------------------------------------------------------------

  /** `net_reverse_dns`. `lookup` is the host name `gethostbyaddr` returns, None when the
      lookup fails or has no name. Any failure leaves an empty name. */
  function NetReverseDns(ip: string, lookup: Option<string>, hostname: string, hostsz: nat): (r: Written)
    ensures r.ok <==> IpToUint(ip).Some? && lookup.Some?
    ensures !r.ok ==> r.buf == ""
    ensures r.ok && hostsz == 0 ==> r.buf == hostname
    ensures r.ok && hostsz > 0 ==>
              |r.buf| < hostsz && |r.buf| <= |lookup.value| && r.buf == lookup.value[..|r.buf|]
              && (|lookup.value| < hostsz ==> r.buf == lookup.value)
    ensures r.ok && hostsz > 0 ==> r.buf == lookup.value[..if |lookup.value| < hostsz then |lookup.value| else hostsz - 1]
  {
    if IpToUint(ip).None? then Written(false, "")
    else match lookup
      case Some(name) => Written(true, SafeStrcpy(Some(hostname), hostsz, Some(name)).value)
      case None => Written(false, "")
  }

  /** `net_ping_ipv4`. `icmpReady` says whether Icmp.dll, its three entry points, the ICMP
      handle and the reply buffer were all obtained; `echoReplied` whether `IcmpSendEcho`
      returned a reply. An address that does not parse is never pinged. */
  function NetPing(ip: string, icmpReady: bool, echoReplied: bool): (r: bool)
    ensures r ==> IpToUint(ip).Some?
    ensures r <==> icmpReady && IpToUint(ip).Some? && echoReplied
  {
    if !icmpReady then false
    else if IpToUint(ip).None? then false
    else echoReplied
  }
}
