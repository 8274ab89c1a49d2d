/** The range box of the raygui front end (src/main_raygui.c): `parse_range`, the subnet
    text the "LAN only" option and "Auto-range" write into the box, and the choice of range
    the Scan button makes. Text buffers are strings; each `char[n]` destination keeps at
    most `n - 1` characters. */
module RangeParse {
  import opened Optional
  import opened Text
  import opened Ipv4
  import opened Subnet

  /** The new contents of `outStart` and `outEnd`, and the return value. */
  datatype Parsed = Parsed(ok: bool, start: string, end: string)

  /** The size of the range box and of the Scan button's buffers. */
  const BoxSize: nat := 64

  /** `p` as a prefix length. */
  function PrefixOf(p: int): Prefix
    requires 0 <= p <= 32
  {
    p as bv32
  }

  lemma {:induction false} PrefixOfValue(q: Prefix)
    ensures PrefixOf(q as int) == q
  {
  }

  /** `strncpy(out, in, len); out[len] = '\0'` with `len` the distance to the separator,
      cut to `size - 1`. */
  function LeftPart(input: string, sepAt: nat, size: nat): (r: string)
    requires sepAt <= |input| && size > 0
    ensures |r| <= sepAt && |r| < size && r == input[..|r|]
    ensures sepAt < size ==> r == input[..sepAt]
  {
    if sepAt >= size then input[..size - 1] else input[..sepAt]
  }

  /** The CIDR form "A.B.C.D/nn" with its '/' at `slash`. `atoi` reads the prefix; the base
      text is copied into `outStart` before anything is checked. */
  function ParseCidr(input: string, slash: nat, start: string, szStart: nat, end: string, szEnd: nat): (r: Parsed)
    requires slash < |input| && szStart > 0
    ensures var p := Atoi(input[slash + 1..]);
            r.ok <==> 0 <= p <= 32 && IpToUint(LeftPart(input, slash, szStart)).Some?
    ensures !r.ok ==> r == Parsed(false, LeftPart(input, slash, szStart), end)
  {
    var baseText := LeftPart(input, slash, szStart);
    var prefix := Atoi(input[slash + 1..]);
    if prefix < 0 || prefix > 32 then Parsed(false, baseText, end)
    else
      match IpToUint(baseText)
      case None => Parsed(false, baseText, end)
      case Some(base) =>
        var p := PrefixOf(prefix);
        var sBuf := UintToIp(Network(base, p), "", BoxSize, true);
        var eBuf := UintToIp(Broadcast(base, p), "", BoxSize, true);
        Parsed(true, SafeStrcpy(Some(baseText), szStart, Some(sBuf)).value, SafeStrcpy(Some(end), szEnd, Some(eBuf)).value)
  }

  /** On success, and with buffers that hold an address, the range is the whole block of
      the base address: network to broadcast address, inclusive. */
  lemma {:induction false} CidrBlock(input: string, slash: nat, start: string, szStart: nat, end: string, szEnd: nat)
    requires slash < |input| && szStart > 15 && szEnd > 15
    requires ParseCidr(input, slash, start, szStart, end, szEnd).ok
    ensures var r := ParseCidr(input, slash, start, szStart, end, szEnd);
            var p := PrefixOf(Atoi(input[slash + 1..]));
            var base := IpToUint(LeftPart(input, slash, szStart)).value;
            r.start == FormatIp(Network(base, p)) && r.end == FormatIp(Broadcast(base, p))
  {
    var base := IpToUint(LeftPart(input, slash, szStart)).value;
    var p := PrefixOf(Atoi(input[slash + 1..]));
    FormatIpLength(Network(base, p));
    FormatIpLength(Broadcast(base, p));
  }

  /** The dash forms with the '-' at `dash`. When the right side has no '.', it replaces the
      last octet of the left side: the left side up to and including its last '.', then the
      right side, built in a 64-byte buffer with `strncat`. Otherwise the right side is the
      end as it stands. Neither side is checked to be an address. */
  function ParseDash(input: string, dash: nat, start: string, szStart: nat, end: string, szEnd: nat): (r: Parsed)
    requires dash < |input| && szStart > 0
    ensures r.start == LeftPart(input, dash, szStart)
    ensures r.ok <==> '.' in input[dash + 1..] || ('.' in r.start && LastIndex(r.start, '.').value + 1 < BoxSize)
    ensures !r.ok ==> r.end == end
  {
    var left := LeftPart(input, dash, szStart);
    var right := input[dash + 1..];
    if '.' !in right then
      match LastIndex(left, '.')
      case None => Parsed(false, left, end)
      case Some(lastDot) =>
        var prefixLen := lastDot + 1;
        if prefixLen >= BoxSize then Parsed(false, left, end)
        else
          var buf := left[..prefixLen] + Truncate(right, BoxSize - prefixLen - 1);
          Parsed(true, left, SafeStrcpy(Some(end), szEnd, Some(buf)).value)
    else Parsed(true, left, SafeStrcpy(Some(end), szEnd, Some(right)).value)
  }

  /** A right side with a '.' is copied to the end as it stands. */
  lemma {:induction false} DashEndVerbatim(input: string, dash: nat, start: string, szStart: nat, end: string, szEnd: nat)
    requires dash < |input| && szStart > 0 && '.' in input[dash + 1..]
    ensures ParseDash(input, dash, start, szStart, end, szEnd).end == SafeStrcpy(Some(end), szEnd, Some(input[dash + 1..])).value
  {
  }

  /** A right side without a '.' replaces what follows the last '.' of the left side, cut
      to fit the 64-byte buffer. */
  lemma {:induction false} DashEndSpliced(input: string, dash: nat, start: string, szStart: nat, end: string, szEnd: nat)
    requires dash < |input| && szStart > 0 && '.' !in input[dash + 1..]
    requires ParseDash(input, dash, start, szStart, end, szEnd).ok
    ensures var left := LeftPart(input, dash, szStart);
            var prefixLen := LastIndex(left, '.').value + 1;
            ParseDash(input, dash, start, szStart, end, szEnd).end
              == SafeStrcpy(Some(end), szEnd, Some(left[..prefixLen] + Truncate(input[dash + 1..], BoxSize - prefixLen - 1))).value
  {
  }

  /** `parse_range(in, outStart, szStart, outEnd, szEnd)` on the old buffer contents `start`
      and `end`. The first '/' decides: with one, the text is CIDR, whatever dashes it holds;
      otherwise the first '-' splits it; with neither, nothing is written and the result is
      false. */
  function ParseRange(input: string, start: string, szStart: nat, end: string, szEnd: nat): (r: Parsed)
    requires szStart > 0
    ensures '/' !in input && '-' !in input ==> r == Parsed(false, start, end)
    ensures !r.ok ==> r.end == end
  {
    match FirstIndex(input, '/')
    case Some(slash) => ParseCidr(input, slash, start, szStart, end, szEnd)
    case None =>
      match FirstIndex(input, '-')
      case None => Parsed(false, start, end)
      case Some(dash) => ParseDash(input, dash, start, szStart, end, szEnd)
  }

  /** A '/' anywhere makes the text CIDR, even after a '-'. */
  lemma {:induction false} SlashFirst(input: string, start: string, szStart: nat, end: string, szEnd: nat)
    requires szStart > 0 && '/' in input
    ensures ParseRange(input, start, szStart, end, szEnd) == ParseCidr(input, FirstIndex(input, '/').value, start, szStart, end, szEnd)
  {
  }

  lemma {:induction false} DashSecond(input: string, start: string, szStart: nat, end: string, szEnd: nat)
    requires szStart > 0 && '/' !in input && '-' in input
    ensures ParseRange(input, start, szStart, end, szEnd) == ParseDash(input, FirstIndex(input, '-').value, start, szStart, end, szEnd)
  {
  }

  // ---------------------------------------------------------------------------
  // Properties of the accepted forms
  // ---------------------------------------------------------------------------

  lemma {:induction false} OctetTextCharacters(x: bv8, c: char)
    requires !IsDigit(c)
    ensures c !in OctetText(x)
  {
    var s := OctetText(x);
    assert forall i | 0 <= i < |s| :: s[i] != c by {
      assert AllDigits(s);
    }
  }

  /** An address text holds only digits and dots. */
  lemma {:induction false} FormatIpCharacters(ip: bv32, c: char)
    requires !IsDigit(c) && c != '.'
    ensures c !in FormatIp(ip)
  {
    var q := QuadOf(ip);
    OctetTextCharacters(q.a, c);
    OctetTextCharacters(q.b, c);
    OctetTextCharacters(q.c, c);
    OctetTextCharacters(q.d, c);
  }

  /** The text "network/prefix" written for a subnet. */
  function CidrText(ip: bv32, n: nat): (s: string)
    ensures n < 1000 ==> |s| <= 19
  {
    FormatIpLength(ip);
    NatToDecShort(n);
    FormatIp(ip) + "/" + NatToDec(n)
  }

  /** Where the '/' of a CIDR text is, and what follows it. */
  lemma {:induction false} CidrTextShape(ip: bv32, p: Prefix)
    ensures FirstIndex(CidrText(ip, p as nat), '/') == Some(|FormatIp(ip)|)
    ensures CidrText(ip, p as nat)[|FormatIp(ip)| + 1..] == NatToDec(p as nat)
    ensures CidrText(ip, p as nat)[..|FormatIp(ip)|] == FormatIp(ip)
  {
    var s := CidrText(ip, p as nat);
    FormatIpCharacters(ip, '/');
    assert s[|FormatIp(ip)|] == '/';
    assert s[..|FormatIp(ip)|] == FormatIp(ip);
  }

  /** `atoi` reads the prefix length back. */
  lemma {:induction false} CidrPrefixReads(p: Prefix)
    ensures Atoi(NatToDec(p as nat)) == p as int
  {
    AtoiOfNatToDec(p as nat, "");
    assert NatToDec(p as nat) + "" == NatToDec(p as nat);
  }

  /** Every address with every prefix length, written "A.B.C.D/nn", parses as the block it
      names: network to broadcast address. */
  lemma {:induction false} CidrParses(ip: bv32, p: Prefix, start: string, end: string)
    ensures ParseRange(CidrText(ip, p as nat), start, BoxSize, end, BoxSize)
            == Parsed(true, FormatIp(Network(ip, p)), FormatIp(Broadcast(ip, p)))
  {
    var s := CidrText(ip, p as nat);
    var slash := |FormatIp(ip)|;
    assert FirstIndex(s, '/') == Some(slash) && s[slash + 1..] == NatToDec(p as nat) && s[..slash] == FormatIp(ip) by {
      CidrTextShape(ip, p);
    }
    assert '/' in s;
    assert LeftPart(s, slash, BoxSize) == FormatIp(ip) by {
      FormatIpLength(ip);
    }
    assert Atoi(s[slash + 1..]) == p as int by {
      CidrPrefixReads(p);
    }
    assert PrefixOf(p as int) == p by {
      PrefixOfValue(p);
    }
    assert IpToUint(FormatIp(ip)) == Some(ip) by {
      IpToUintOfFormat(ip);
    }
    SlashFirst(s, start, BoxSize, end, BoxSize);
    CidrBlock(s, slash, start, BoxSize, end, BoxSize);
  }

  /** A prefix length outside 0..32 is refused, whatever the address. */
  lemma {:induction false} CidrBadPrefix(input: string, slash: nat, start: string, end: string)
    requires slash < |input| && FirstIndex(input, '/') == Some(slash)
    requires Atoi(input[slash + 1..]) < 0 || Atoi(input[slash + 1..]) > 32
    ensures !ParseRange(input, start, BoxSize, end, BoxSize).ok
    ensures ParseRange(input, start, BoxSize, end, BoxSize).end == end
  {
    SlashFirst(input, start, BoxSize, end, BoxSize);
  }

  /** "A.B.C.D-E": the end keeps the first three octets of the start and takes E as the
      last one, so "192.168.1.1-254" gives 192.168.1.1 to 192.168.1.254. */
  lemma {:induction false} DashLastOctet(left: string, right: string, start: string, end: string)
    requires '/' !in left && '-' !in left && '/' !in right
    requires '.' in left && '.' !in right
    requires |left| + 1 + |right| < BoxSize
    ensures var r := ParseRange(left + "-" + right, start, BoxSize, end, BoxSize);
            var lastDot := LastIndex(left, '.').value;
            r == Parsed(true, left, left[..lastDot + 1] + right)
  {
    var s := left + "-" + right;
    assert FirstIndex(s, '-') == Some(|left|) && s[..|left|] == left && s[|left| + 1..] == right && '/' !in s by {
      DashSplit(left, right);
    }
    assert ParseRange(s, start, BoxSize, end, BoxSize) == ParseDash(s, |left|, start, BoxSize, end, BoxSize) by {
      DashSecond(s, start, BoxSize, end, BoxSize);
    }
    assert LeftPart(s, |left|, BoxSize) == left;
    DashSplicedEnd(s, left, right, start, end);
  }

  lemma {:induction false} DashSplicedEnd(s: string, left: string, right: string, start: string, end: string)
    requires |left| < |s| && s[..|left|] == left && s[|left| + 1..] == right
    requires '.' in left && '.' !in right && |left| + 1 + |right| < BoxSize
    ensures var lastDot := LastIndex(left, '.').value;
            ParseDash(s, |left|, start, BoxSize, end, BoxSize) == Parsed(true, left, left[..lastDot + 1] + right)
  {
    var lastDot := LastIndex(left, '.').value;
    var buf := left[..lastDot + 1] + right;
    var r := ParseDash(s, |left|, start, BoxSize, end, BoxSize);
    assert LeftPart(s, |left|, BoxSize) == left;
    assert r.start == left;
    assert r.ok;
    assert r.end == buf by {
      assert Truncate(right, BoxSize - (lastDot + 1) - 1) == right;
      assert SafeStrcpy(Some(end), BoxSize, Some(buf)).value == buf;
      DashEndSpliced(s, |left|, start, BoxSize, end, BoxSize);
    }
  }

  /** Where the first '-' of "left-right" is, when `left` has none. */
  lemma {:induction false} DashSplit(left: string, right: string)
    requires '/' !in left && '-' !in left && '/' !in right
    ensures var s := left + "-" + right;
            '/' !in s && FirstIndex(s, '-') == Some(|left|) && s[..|left|] == left && s[|left| + 1..] == right
  {
    var s := left + "-" + right;
    assert s[|left|] == '-';
    assert s[..|left|] == left;
    assert s[|left| + 1..] == right;
  }

  /** "A.B.C.D-E.F.G.H": the end is the right side as written, unchecked. */
  lemma {:induction false} DashFullEnd(left: string, right: string, start: string, end: string)
    requires '/' !in left && '-' !in left && '/' !in right
    requires '.' in right
    requires |left| < BoxSize && |right| < BoxSize
    ensures ParseRange(left + "-" + right, start, BoxSize, end, BoxSize) == Parsed(true, left, right)
  {
    var s := left + "-" + right;
    DashSplit(left, right);
    DashSecond(s, start, BoxSize, end, BoxSize);
    DashEndVerbatim(s, |left|, start, BoxSize, end, BoxSize);
  }

  // ---------------------------------------------------------------------------
  // The Scan button
  // ---------------------------------------------------------------------------

  /** What a click on Scan leaves behind: the range box text, the range handed to
      `parallel_scan_start` (if any), the `isScanning` flag and the messages logged. */
  datatype Click = Click(rangeText: string, launch: Option<(bv32, bv32)>, scanning: bool, log: seq<string>)

  /** `snprintf(ipRangeText, 64, "%s/%d", netBuf, prefix)` for a subnet, the prefix being the
      number of one bits of its mask. The text has at most 18 characters, so the buffer
      never cuts it. */
  function SubnetText(sn: SubnetV4): (s: string)
    ensures |s| < BoxSize
  {
    PopcountBelow(sn.mask, 32);
    CidrText(sn.network, Popcount(sn.mask))
  }

  /** The range typed in the box, when it parses to two addresses in order. */
  function TypedRange(text: string): (r: Option<(bv32, bv32)>)
    ensures r.Some? ==> r.value.0 <= r.value.1
  {
    var p := ParseRange(text, "", BoxSize, "", BoxSize);
    if !p.ok then None
    else
      match (IpToUint(p.start), IpToUint(p.end))
      case (Some(s), Some(e)) => if e >= s then Some((s, e)) else None
      case _ => None
  }

  /** The Scan button. With "LAN only" the box is first rewritten to the primary subnet.
      While a scan runs nothing else happens. Otherwise the typed range is used when both
      ends parse in order; failing that, the primary subnet's usable range; failing that,
      nothing starts and "Invalid IP range" is logged. `adapters` is what
      `net_get_primary_subnet` sees, the same for both of its calls. */
  function ScanButton(lanOnly: bool, isScanning: bool, rangeText: string, adapters: Option<seq<Adapter>>): (c: Click)
    ensures lanOnly && PrimarySubnet(adapters).Some? ==> c.rangeText == SubnetText(PrimarySubnet(adapters).value)
    ensures !(lanOnly && PrimarySubnet(adapters).Some?) ==> c.rangeText == rangeText
    ensures isScanning ==> c.launch.None? && c.scanning
    ensures !isScanning ==> (c.scanning <==> c.launch.Some?)
    ensures !isScanning && TypedRange(c.rangeText).Some? ==> c.launch == TypedRange(c.rangeText)
    ensures !isScanning && TypedRange(c.rangeText).None? ==>
              c.launch == (if PrimarySubnet(adapters).Some? then Some((PrimarySubnet(adapters).value.startIp, PrimarySubnet(adapters).value.endIp)) else None)
    ensures !c.scanning ==> |c.log| >= 1 && c.log[|c.log| - 1] == "Invalid IP range"
  {
    var sn := PrimarySubnet(adapters);
    var text := if lanOnly && sn.Some? then SubnetText(sn.value) else rangeText;
    var log := if !lanOnly then []
               else if sn.Some? then ["LAN only: range forced to primary subnet"]
               else ["LAN only: failed to get primary subnet"];
    if isScanning then Click(text, None, true, log)
    else
      match TypedRange(text)
      case Some(range) => Click(text, Some(range), true, log)
      case None =>
        match sn
        case Some(s) => Click(text, Some((s.startIp, s.endIp)), true, log)
        case None => Click(text, None, false, log + ["Invalid IP range"])
  }

  lemma {:induction false} MaskAgain(ip: bv32, m: bv32)
    ensures (ip & m) & m == ip & m
  {
  }

  /** A network address is its own network address. */
  lemma {:induction false} NetworkAgain(ip: bv32, p: Prefix)
    ensures Network(Network(ip, p), p) == Network(ip, p)
  {
    MaskAgain(ip, Mask(p));
  }

  lemma {:induction false} OrAbove(x: bv32, y: bv32)
    ensures x <= x | y
  {
  }

  /** A subnet computed from an address and a prefix length has the mask of that length
      and a network address that is its own network address. */
  lemma {:induction false} SubnetOfIsBlock(ip: bv32, p: Prefix)
    ensures SubnetOf(ip, p).mask == Mask(p)
    ensures Network(SubnetOf(ip, p).network, p) == SubnetOf(ip, p).network
  {
    NetworkAgain(ip, p);
  }

  /** The CIDR text of a network address parses as its block. */
  lemma {:induction false} CidrParsesNetwork(net: bv32, p: Prefix)
    requires Network(net, p) == net
    ensures ParseRange(CidrText(net, p as nat), "", BoxSize, "", BoxSize) == Parsed(true, FormatIp(net), FormatIp(net | !Mask(p)))
  {
    CidrParses(net, p, "", "");
    BroadcastOfNetwork(net, p);
  }

  /** The Scan button reads the CIDR text of a network address as the whole block. */
  lemma {:induction false} CidrTypedRange(net: bv32, p: Prefix)
    requires Network(net, p) == net
    ensures TypedRange(CidrText(net, p as nat)) == Some((net, net | !Mask(p)))
  {
    CidrParsesNetwork(net, p);
    OrAbove(net, !Mask(p));
    TypedRangeOfTexts(CidrText(net, p as nat), net, net | !Mask(p));
  }

  lemma {:induction false} BroadcastOfNetwork(net: bv32, p: Prefix)
    requires Network(net, p) == net
    ensures Broadcast(net, p) == net | !Mask(p)
  {
  }

  /** A range that parses to two address texts in order is the one the button uses. */
  lemma {:induction false} TypedRangeOfTexts(text: string, s: bv32, e: bv32)
    requires ParseRange(text, "", BoxSize, "", BoxSize) == Parsed(true, FormatIp(s), FormatIp(e))
    requires s <= e
    ensures TypedRange(text) == Some((s, e))
  {
    IpToUintOfFormat(s);
    IpToUintOfFormat(e);
  }

  /** With "LAN only" and a primary subnet, the Scan button launches the whole block of the
      subnet, network and broadcast addresses included; the sequential `scan_subnet` leaves
      those two out. */
  lemma {:induction false} LanOnlyScansWholeBlock(rangeText: string, adapters: Option<seq<Adapter>>)
    requires PrimarySubnet(adapters).Some?
    ensures var sn := PrimarySubnet(adapters).value;
            ScanButton(true, false, rangeText, adapters).launch == Some((sn.network, sn.network | !sn.mask))
  {
    var sn := PrimarySubnet(adapters).value;
    var p := PrimaryBlock(adapters);
    SubnetTypedRange(sn, p);
  }

  /** The primary subnet is the block of some prefix length. */
  lemma {:induction false} PrimaryBlock(adapters: Option<seq<Adapter>>) returns (p: Prefix)
    requires PrimarySubnet(adapters).Some?
    ensures PrimarySubnet(adapters).value.mask == Mask(p)
    ensures Network(PrimarySubnet(adapters).value.network, p) == PrimarySubnet(adapters).value.network
  {
    var ads := adapters.value;
    var (i, j) := FirstUsableFrom(ads, 0).value;
    var u := ads[i].unicast[j];
    p := u.prefix;
    SubnetOfIsBlock(ByteSwap(u.sinAddr), p);
  }

  /** The subnet text of a block is read back by the Scan button as the whole block. */
  lemma {:induction false} SubnetTypedRange(sn: SubnetV4, p: Prefix)
    requires sn.mask == Mask(p) && Network(sn.network, p) == sn.network
    ensures TypedRange(SubnetText(sn)) == Some((sn.network, sn.network | !sn.mask))
  {
    assert Popcount(sn.mask) == p as nat by {
      PopcountOfMask(p);
    }
    SubnetTextRange(sn, p);
  }

  lemma {:induction false} SubnetTextRange(sn: SubnetV4, p: Prefix)
    requires Popcount(sn.mask) == p as nat && Network(sn.network, p) == sn.network
    ensures TypedRange(SubnetText(sn)) == Some((sn.network, sn.network | !Mask(p)))
  {
    CidrTypedRange(sn.network, p);
  }
}
