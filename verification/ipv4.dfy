/** IPv4 addresses as text and as 32-bit ordinals (src/utils.c `ip_to_uint`, `uint_to_ip`).

    The source converts through the Winsock routines `inet_addr`/`inet_ntoa`, which work on
    network byte order, and `ntohl`/`htonl`. Windows runs little-endian, so a network-order
    value holds the first octet in its least significant byte and `ntohl`/`htonl` are a byte
    swap; both facts are written out here. Only the four-octet dotted-decimal form of
    `inet_addr` is modelled. */
module Ipv4 {
  import opened Optional
  import opened Text
  import opened Ordinals

  /** The four octets of an address, in the order they are written. */
  datatype Quad = Quad(a: bv8, b: bv8, c: bv8, d: bv8)

  function OctetText(x: bv8): string {
    NatToDec(x as nat)
  }

  /** One octet of dotted text: canonical decimal, at most 255. */
  function ParseOctet(s: string): (r: Option<bv8>)
    ensures r.Some? ==> OctetText(r.value) == s
  {
    if CanonicalDecimal(s) && DecValue(s) < 256 then
      NatToDecOfDecValue(s);
      Some(OctetBits(DecValue(s)))
    else None
  }



  /** The dotted-decimal text "a.b.c.d" with four octets. */
  function ParseQuad(s: string): Option<Quad> {
    var parts := Split(s, '.');
    if |parts| == 4 then
      match (ParseOctet(parts[0]), ParseOctet(parts[1]), ParseOctet(parts[2]), ParseOctet(parts[3]))
      case (Some(a), Some(b), Some(c), Some(d)) => Some(Quad(a, b, c, d))
      case _ => None
    else None
  }

  function QuadText(q: Quad): string {
    OctetText(q.a) + "." + OctetText(q.b) + "." + OctetText(q.c) + "." + OctetText(q.d)
  }

  lemma {:induction false} OctetTextHasNoDot(x: bv8)
    ensures '.' !in OctetText(x)
  {
    var s := OctetText(x);
    assert forall i | 0 <= i < |s| :: s[i] != '.' by {
      assert AllDigits(s);
    }
  }

  lemma {:induction false} SplitQuadText(q: Quad)
    ensures Split(QuadText(q), '.') == [OctetText(q.a), OctetText(q.b), OctetText(q.c), OctetText(q.d)]
  {
    var sa, sb, sc, sd := OctetText(q.a), OctetText(q.b), OctetText(q.c), OctetText(q.d);
    OctetTextHasNoDot(q.a);
    OctetTextHasNoDot(q.b);
    OctetTextHasNoDot(q.c);
    OctetTextHasNoDot(q.d);
    SplitJoin([sa, sb, sc, sd], '.');
    JoinFour(sa, sb, sc, sd);
  }

  lemma {:induction false} JoinFour(sa: string, sb: string, sc: string, sd: string)
    ensures Join([sa, sb, sc, sd], ".") == sa + "." + sb + "." + sc + "." + sd
  {
    assert [sc, sd][1..] == [sd];
    assert Join([sc, sd], ".") == sc + "." + sd;
    assert [sb, sc, sd][1..] == [sc, sd];
    assert Join([sb, sc, sd], ".") == sb + "." + (sc + "." + sd);
    assert [sa, sb, sc, sd][1..] == [sb, sc, sd];
    assert Join([sa, sb, sc, sd], ".") == sa + "." + (sb + "." + (sc + "." + sd));
  }

  lemma {:induction false} ParseOctetOfText(x: bv8)
    ensures ParseOctet(OctetText(x)) == Some(x)
  {
    var n := x as nat;
    assert DecValue(NatToDec(n)) == n by {
      DecValueOfNatToDec(n);
    }
    OctetBitsOfValue(x);
  }

  /** Printing four octets and parsing the text gives the octets back. */
  lemma {:induction false} ParseQuadText(q: Quad)
    ensures ParseQuad(QuadText(q)) == Some(q)
  {
    SplitQuadText(q);
    ParseOctetOfText(q.a);
    ParseOctetOfText(q.b);
    ParseOctetOfText(q.c);
    ParseOctetOfText(q.d);
  }

  /** Accepted text is already canonical: printing what was parsed reproduces it exactly. */
  lemma {:induction false} QuadTextOfParse(s: string)
    requires ParseQuad(s).Some?
    ensures QuadText(ParseQuad(s).value) == s
  {
    var parts := Split(s, '.');
    var q := ParseQuad(s).value;
    assert OctetText(q.a) == parts[0] && OctetText(q.b) == parts[1];
    assert OctetText(q.c) == parts[2] && OctetText(q.d) == parts[3];
    SplitJoinInverse(s, '.');
    assert parts == [parts[0], parts[1], parts[2], parts[3]];
    JoinFour(parts[0], parts[1], parts[2], parts[3]);
  }

  /** Joining the pieces of a split restores the text. */
  lemma {:induction false} SplitJoinInverse(s: string, sep: char)
    ensures Join(Split(s, sep), [sep]) == s
    decreases |s|
  {
    if |s| > 0 {
      SplitJoinInverse(s[1..], sep);
      var rest := Split(s[1..], sep);
      if s[0] == sep {
        assert Split(s, sep) == [""] + rest;
        assert Join([""] + rest, [sep]) == "" + [sep] + Join(rest, [sep]);
        assert [s[0]] + s[1..] == s;
      } else {
        var parts := [[s[0]] + rest[0]] + rest[1..];
        assert Split(s, sep) == parts;
        if |rest| == 1 {
          assert Join(parts, [sep]) == [s[0]] + rest[0];
        } else {
          assert parts[1..] == rest[1..];
          assert Join(parts, [sep]) == [s[0]] + rest[0] + [sep] + Join(rest[1..], [sep]);
          assert Join(rest, [sep]) == rest[0] + [sep] + Join(rest[1..], [sep]);
        }
        assert [s[0]] + s[1..] == s;
      }
    }
  }

  // ---------------------------------------------------------------------------
  // Byte order
  // ---------------------------------------------------------------------------

  /** The host-order ordinal: the first octet is the most significant byte. */
  function HostValue(q: Quad): bv32 {
    (q.a as bv32 << 24) | (q.b as bv32 << 16) | (q.c as bv32 << 8) | (q.d as bv32)
  }

  /** The octets of a host-order ordinal, most significant first. */
  function QuadOf(x: bv32): Quad {
    Quad((x >> 24) as bv8, ((x >> 16) & 0xFF) as bv8, ((x >> 8) & 0xFF) as bv8, (x & 0xFF) as bv8)
  }

  /** The network-order value as a little-endian machine reads it: the first octet is the
      least significant byte. */
  function NetworkValue(q: Quad): bv32 {
    (q.d as bv32 << 24) | (q.c as bv32 << 16) | (q.b as bv32 << 8) | (q.a as bv32)
  }

  /** `ntohl` and `htonl` on a little-endian machine. */
  function ByteSwap(x: bv32): bv32 {
    (x >> 24) | ((x >> 8) & 0xFF00) | ((x << 8) & 0xFF_0000) | (x << 24)
  }

  lemma {:induction false} ByteSwapInvolution(x: bv32)
    ensures ByteSwap(ByteSwap(x)) == x
  {
  }

  lemma {:induction false} QuadOfHostValue(q: Quad)
    ensures QuadOf(HostValue(q)) == q
  {
  }

  lemma {:induction false} HostValueOfQuad(x: bv32)
    ensures HostValue(QuadOf(x)) == x
  {
  }

  lemma {:induction false} ByteSwapNetworkValue(q: Quad)
    ensures ByteSwap(NetworkValue(q)) == HostValue(q)
    ensures ByteSwap(HostValue(q)) == NetworkValue(q)
  {
  }

  // ---------------------------------------------------------------------------
  // Winsock conversions and utils.c
  // ---------------------------------------------------------------------------

  /** `INADDR_NONE`, the failure value of `inet_addr`; it is also the value of the valid
      address "255.255.255.255". */
  const InaddrNone: bv32 := 0xFFFF_FFFF
  const BroadcastText: string := "255.255.255.255"

  /** `inet_addr` on dotted-decimal text: the network-order value, or `INADDR_NONE`. */
  function InetAddr(s: string): bv32 {
    match ParseQuad(s)
    case Some(q) => NetworkValue(q)
    case None => InaddrNone
  }

  /** `inet_ntoa`: the octets of a network-order value, in memory order. */
  function InetNtoa(n: bv32): string {
    QuadText(MemoryQuad(n))
  }

  /** The bytes of a value in little-endian memory order. */
  function MemoryQuad(n: bv32): Quad {
    Quad((n & 0xFF) as bv8, ((n >> 8) & 0xFF) as bv8, ((n >> 16) & 0xFF) as bv8, (n >> 24) as bv8)
  }

  /** Swapping the bytes of a host-order value lays its octets out in writing order. */
  lemma {:induction false} MemoryQuadOfSwap(ip: bv32)
    ensures MemoryQuad(ByteSwap(ip)) == QuadOf(ip)
  {
  }

  lemma {:induction false} NetworkValueAllOnes(q: Quad)
    requires NetworkValue(q) == InaddrNone
    ensures q == Quad(255, 255, 255, 255)
  {
    assert QuadOf(ByteSwap(NetworkValue(q))) == Quad(255, 255, 255, 255);
    ByteSwapNetworkValue(q);
    QuadOfHostValue(q);
  }

  lemma {:induction false} BroadcastTextIsAllOnes()
    ensures QuadText(Quad(255, 255, 255, 255)) == BroadcastText
    ensures ParseQuad(BroadcastText) == Some(Quad(255, 255, 255, 255))
  {
    AllOnesText();
    ParseQuadText(Quad(255, 255, 255, 255));
  }

  lemma {:induction false} AllOnesText()
    ensures QuadText(Quad(255, 255, 255, 255)) == BroadcastText
  {
    assert OctetText(255) == "255" by {
      DecimalOf255();
    }
    assert "255" + "." + "255" + "." + "255" + "." + "255" == BroadcastText;
  }

  lemma {:induction false} DecimalOf255()
    ensures NatToDec(255) == "255"
  {
    assert NatToDec(2) == "2";
    assert NatToDec(25) == "25";
  }

  /** The only dotted-decimal text that `inet_addr` maps to `INADDR_NONE` is
      "255.255.255.255", and `ntohl` turns its result into the host-order value. */
  lemma {:induction false} InetAddrFacts(s: string)
    ensures ParseQuad(s).Some? ==> ByteSwap(InetAddr(s)) == HostValue(ParseQuad(s).value)
    ensures ParseQuad(s).Some? && InetAddr(s) == InaddrNone ==> s == BroadcastText
    ensures s == BroadcastText ==> ParseQuad(s) == Some(Quad(255, 255, 255, 255))
  {
    BroadcastTextIsAllOnes();
    if ParseQuad(s).Some? {
      var q := ParseQuad(s).value;
      ByteSwapNetworkValue(q);
      if InetAddr(s) == InaddrNone {
        NetworkValueAllOnes(q);
        QuadTextOfParse(s);
      }
    }
  }

  /** `ip_to_uint`: the host-order ordinal of dotted text, or failure. The address
      "255.255.255.255" is accepted although `inet_addr` reports it as `INADDR_NONE`;
      on failure the caller's output is not written. */
  function IpToUint(s: string): (r: Option<bv32>)
    ensures r.Some? <==> ParseQuad(s).Some?
    ensures r.Some? ==> r.value == HostValue(ParseQuad(s).value)
    ensures s == BroadcastText ==> r == Some(0xFFFF_FFFF)
  {
    InetAddrFacts(s);
    var a := InetAddr(s);
    if a == InaddrNone && s != BroadcastText then None else Some(ByteSwap(a))
  }

  /** The canonical text `uint_to_ip` produces for a host-order ordinal: `htonl` followed
      by `inet_ntoa`. */
  function FormatIp(ip: bv32): (s: string)
    ensures s == QuadText(QuadOf(ip))
  {
    MemoryQuadOfSwap(ip);
    InetNtoa(ByteSwap(ip))
  }

  /** Every ordinal survives printing and parsing. */
  lemma {:induction false} IpToUintOfFormat(ip: bv32)
    ensures IpToUint(FormatIp(ip)) == Some(ip)
  {
    ParseQuadText(QuadOf(ip));
    HostValueOfQuad(ip);
  }

  /** Every accepted text is the canonical printing of its ordinal. */
  lemma {:induction false} FormatOfIpToUint(s: string)
    requires IpToUint(s).Some?
    ensures FormatIp(IpToUint(s).value) == s
  {
    var q := ParseQuad(s).value;
    QuadOfHostValue(q);
    QuadTextOfParse(s);
  }

  /** Printing is injective: distinct ordinals have distinct texts. */
  lemma {:induction false} FormatIpInjective(x: bv32, y: bv32)
    requires FormatIp(x) == FormatIp(y)
    ensures x == y
  {
    IpToUintOfFormat(x);
    IpToUintOfFormat(y);
  }

  lemma {:induction false} FormatIpLength(ip: bv32)
    ensures 7 <= |FormatIp(ip)| <= 15
  {
    var q := QuadOf(ip);
    OctetTextLength(q.a);
    OctetTextLength(q.b);
    OctetTextLength(q.c);
    OctetTextLength(q.d);
  }

  lemma {:induction false} OctetTextLength(x: bv8)
    ensures 1 <= |OctetText(x)| <= 3
  {
    NatToDecShort(x as nat);
  }

  /** `uint_to_ip(ip, buf, buflen)`: the new contents of `buf`. `converted` is false when
      `inet_ntoa` returns NULL, in which case a non-empty buffer is emptied. */
  function UintToIp(ip: bv32, buf: string, buflen: nat, converted: bool): (r: string)
    ensures buflen > 0 ==> |r| <= buflen - 1
    ensures buflen == 0 ==> r == buf
    ensures converted && buflen > 15 ==> r == FormatIp(ip)
    ensures converted && 0 < buflen <= 15 ==> r == FormatIp(ip)[..if |FormatIp(ip)| < buflen then |FormatIp(ip)| else buflen - 1]
    ensures !converted && buflen > 0 ==> r == ""
  {
    FormatIpLength(ip);
    if converted then SafeStrcpy(Some(buf), buflen, Some(FormatIp(ip))).value
    else if buflen > 0 then ""
    else buf
  }
}
