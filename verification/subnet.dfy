/** Prefix (CIDR) arithmetic on host-order ordinals, as in section 3.1 of RFC 4632: a prefix
    length selects the leading bits shared by every address of a block. Covers the mask and
    usable-range computation of `net_get_primary_subnet` (src/net.c), the choice of adapter
    it makes, and the mask-to-prefix bit count of the raygui front end. */
module Subnet {
  import opened Optional
  import opened Ipv4

  /** A prefix length, 0 to 32. It is kept as a 32-bit value so that the mask arithmetic
      stays within bit-vector reasoning. */
  type Prefix = p: bv32 | p <= 32

  /** `prefix == 0 ? 0 : 0xFFFFFFFF << (32 - prefix)`. */
  function Mask(prefix: Prefix): bv32 {
    if prefix == 0 then 0 else 0xFFFF_FFFF << (32 - prefix)
  }

  function Network(base: bv32, prefix: Prefix): bv32 {
    base & Mask(prefix)
  }

  function Broadcast(base: bv32, prefix: Prefix): bv32 {
    Network(base, prefix) | !Mask(prefix)
  }

  /** Every ordinal that shares the prefix of `base` lies between the network and the
      broadcast address of its block. */
  lemma {:induction false} BlockBounds(base: bv32, prefix: Prefix, x: bv32)
    requires x & Mask(prefix) == Network(base, prefix)
    ensures Network(base, prefix) <= x <= Broadcast(base, prefix)
  {
  }

  /** `SubnetV4` of src/net.h: network, first and last usable ordinal, mask. */
  datatype SubnetV4 = SubnetV4(network: bv32, startIp: bv32, endIp: bv32, mask: bv32)

  /** The subnet `net_get_primary_subnet` reports for an interface address: the usable range
      leaves out the network and broadcast addresses, with 32-bit wrap-around. */
  function SubnetOf(ip: bv32, prefix: Prefix): SubnetV4 {
    SubnetOfMask(ip, Mask(prefix))
  }

  function SubnetOfMask(ip: bv32, mask: bv32): SubnetV4 {
    var network := ip & mask;
    SubnetV4(network, network + 1, (network | !mask) - 1, mask)
  }

  /** The usable range is non-empty up to /30. A /31 gives a start one past the end. A /32
      gives a start two past the end (modulo 2^32), which still reads as a non-empty range
      when the address is 0.0.0.0 (1 to 0xFFFFFFFF) or 255.255.255.255 (0 to 0xFFFFFFFE). */
  lemma {:induction false} UsableRange(ip: bv32, prefix: Prefix)
    ensures SubnetOf(ip, prefix).startIp <= SubnetOf(ip, prefix).endIp
            <==> prefix <= 30 || (prefix == 32 && (ip == 0 || ip == 0xFFFF_FFFF))
  {
    if prefix <= 30 {
      var sn := SubnetOf(ip, prefix);
      assert sn.mask & 3 == 0 by {
        MaskLowBits(prefix);
      }
      NetworkHasNoHostBits(ip, sn.mask);
      WideBlock(sn.network, sn.mask);
    } else if prefix == 31 {
      assert Mask(prefix) == 0xFFFF_FFFE by {
        MaskLowBits(prefix);
      }
      PointToPointEmpty(ip);
    } else {
      assert Mask(prefix) == 0xFFFF_FFFF by {
        MaskLowBits(prefix);
      }
      HostRouteRange(ip);
    }
  }

  lemma {:induction false} NetworkHasNoHostBits(ip: bv32, m: bv32)
    ensures (ip & m) & !m == 0
  {
  }

  lemma {:induction false} MaskLowBits(prefix: Prefix)
    ensures prefix <= 30 <==> Mask(prefix) & 3 == 0
    ensures prefix == 31 ==> Mask(prefix) == 0xFFFF_FFFE
    ensures prefix == 32 ==> Mask(prefix) == 0xFFFF_FFFF
  {
  }

  lemma {:induction false} WideBlock(n: bv32, m: bv32)
    requires m & 3 == 0 && n & !m == 0
    ensures n + 1 <= (n | !m) - 1
  {
  }

  /** A /31 block: the start is one past the end. */
  lemma {:induction false} PointToPointRange(ip: bv32)
    ensures SubnetOfMask(ip, 0xFFFF_FFFE).startIp == SubnetOfMask(ip, 0xFFFF_FFFE).endIp + 1
  {
    EvenBlock(ip & 0xFFFF_FFFE, ip);
  }

  lemma {:induction false} PointToPointEmpty(ip: bv32)
    ensures SubnetOfMask(ip, 0xFFFF_FFFE).startIp > SubnetOfMask(ip, 0xFFFF_FFFE).endIp
  {
    EvenBlock(ip & 0xFFFF_FFFE, ip);
  }

  lemma {:induction false} EvenBlock(n: bv32, ip: bv32)
    requires n == ip & 0xFFFF_FFFE
    ensures (n | !0xFFFF_FFFE) - 1 == n
    ensures n < n + 1
  {
    LowBitClear(ip);
    ClearedOrOne(n);
    EvenIncrement(n);
  }

  lemma {:induction false} LowBitClear(ip: bv32)
    ensures (ip & 0xFFFF_FFFE) & 1 == 0
  {
  }

  lemma {:induction false} ClearedOrOne(n: bv32)
    requires n & 1 == 0
    ensures (n | !0xFFFF_FFFE) - 1 == n
  {
  }

  lemma {:induction false} EvenIncrement(n: bv32)
    requires n & 1 == 0
    ensures n < n + 1
  {
  }

  lemma {:induction false} HostRouteRange(ip: bv32)
    ensures SubnetOfMask(ip, 0xFFFF_FFFF).startIp == SubnetOfMask(ip, 0xFFFF_FFFF).endIp + 2
    ensures SubnetOfMask(ip, 0xFFFF_FFFF).startIp <= SubnetOfMask(ip, 0xFFFF_FFFF).endIp <==> ip == 0 || ip == 0xFFFF_FFFF
  {
    AllOnesMask(ip);
    WrappedHostRange(ip);
  }

  lemma {:induction false} AllOnesMask(ip: bv32)
    ensures ip & 0xFFFF_FFFF == ip
    ensures (ip | !0xFFFF_FFFF) == ip
  {
  }

  lemma {:induction false} WrappedHostRange(ip: bv32)
    ensures ip + 1 == (ip - 1) + 2
    ensures ip + 1 <= ip - 1 <==> ip == 0 || ip == 0xFFFF_FFFF
  {
  }

  // ---------------------------------------------------------------------------
  // Mask to prefix length (raygui "Auto-range" and LAN-only Scan)
  // ---------------------------------------------------------------------------

  /** The number of one bits of `m`. */
  function Popcount(m: bv32): nat
    decreases m
  {
    if m == 0 then 0 else (if m & 1 == 1 then 1 else 0) + Popcount(m >> 1)
  }

  /** The raygui loop `while (m) { prefix += m & 1; m >>= 1; }`. */
  method MaskPrefixLength(mask: bv32) returns (prefix: int)
    ensures prefix == Popcount(mask)
    ensures mask == 0 <==> prefix == 0
  {
    var m := mask;
    prefix := 0;
    while m != 0
      invariant prefix >= 0
      invariant prefix + Popcount(m) == Popcount(mask)
      decreases m
    {
      prefix := prefix + (if m & 1 == 1 then 1 else 0);
      m := m >> 1;
    }
    if mask != 0 {
      PopcountNonZero(mask);
    }
  }

  lemma {:induction false} PopcountNonZero(m: bv32)
    requires m != 0
    ensures Popcount(m) >= 1
    decreases m
  {
    if m & 1 == 0 {
      assert m >> 1 != 0;
      PopcountNonZero(m >> 1);
    }
  }

  /** `k` one bits in the lowest positions. */
  function LowOnes(k: bv32): bv32
    requires k <= 32
  {
    if k == 32 then 0xFFFF_FFFF else ((1 as bv32) << k) - 1
  }

  lemma {:induction false} PopcountShiftedOnes(k: bv32, s: bv32)
    requires k <= 32 && s <= 32 - k
    ensures Popcount(LowOnes(k) << s) == k as nat
    decreases k, s
  {
    if k == 0 {
      NoOnes(s);
    } else if s > 0 {
      ShiftBound(k, s);
      PopcountShiftedOnes(k, s - 1);
      ShiftedCount(k, s, k as nat);
    } else {
      PopcountShiftedOnes(k - 1, 0);
      LowestCount(k);
    }
  }

  lemma {:induction false} NoOnes(s: bv32)
    requires s <= 32
    ensures Popcount(LowOnes(0) << s) == 0
  {
    assert LowOnes(0) << s == 0;
  }

  lemma {:induction false} ShiftBound(k: bv32, s: bv32)
    requires 0 < k <= 32 && 0 < s <= 32 - k
    ensures s - 1 <= 32 - k
  {
  }

  /** Shifting a run of ones one place further keeps its count. */
  lemma {:induction false} ShiftedCount(k: bv32, s: bv32, n: nat)
    requires 0 < k <= 32 && 0 < s <= 32 - k
    requires Popcount(LowOnes(k) << (s - 1)) == n
    ensures Popcount(LowOnes(k) << s) == n
  {
    PopcountHalf(LowOnes(k) << s);
    ShiftedOnesStep(k, s);
  }

  /** A run of ones at the bottom counts one more than the run one shorter. */
  lemma {:induction false} LowestCount(k: bv32)
    requires 0 < k <= 32
    requires Popcount(LowOnes(k - 1) << 0) == (k - 1) as nat
    ensures Popcount(LowOnes(k) << 0) == k as nat
  {
    PopcountHalf(LowOnes(k) << 0);
    ShiftedOnesStep(k, 0);
    ValueOfDecrement(k);
  }

  /** The count is the low bit plus the count of the rest. */
  lemma {:induction false} PopcountHalf(x: bv32)
    ensures Popcount(x) == (if x & 1 == 1 then 1 else 0) + Popcount(x >> 1)
  {
    if x == 0 {
      assert x >> 1 == 0;
    }
  }

  lemma {:induction false} ValueOfDecrement(k: bv32)
    requires 0 < k <= 32
    ensures (k - 1) as nat + 1 == k as nat
  {
  }

  /** The low bit of a run of ones and what is left after dropping it. */
  lemma {:induction false} ShiftedOnesStep(k: bv32, s: bv32)
    requires 0 < k <= 32 && s <= 32 - k
    ensures s > 0 ==> (LowOnes(k) << s) & 1 == 0 && (LowOnes(k) << s) >> 1 == LowOnes(k) << (s - 1)
    ensures s == 0 ==> (LowOnes(k) << s) & 1 == 1 && (LowOnes(k) << s) >> 1 == LowOnes(k - 1) << 0
  {
  }

  /** Counting the one bits of a mask recovers the prefix it was built from, so the
      "network/prefix" text shown for a subnet names the same block. */
  lemma {:induction false} PopcountOfMask(prefix: Prefix)
    ensures Popcount(Mask(prefix)) == prefix as nat
  {
    if prefix > 0 {
      assert Mask(prefix) == LowOnes(prefix) << (32 - prefix);
      PopcountShiftedOnes(prefix, 32 - prefix);
    }
  }

  /** A 32-bit value has at most `s` one bits when nothing is left after shifting it `s`
      places down. */
  lemma {:induction false} PopcountBelow(m: bv32, s: bv32)
    requires s <= 32 && (s < 32 ==> m >> s == 0)
    ensures Popcount(m) <= s as nat
    decreases s
  {
    if s == 0 {
      assert m == m >> 0;
    } else if m != 0 {
      assert s < 32 ==> (m >> 1) >> (s - 1) == m >> s;
      PopcountBelow(m >> 1, s - 1);
    }
  }

  // ---------------------------------------------------------------------------
  // Adapter choice
  // ---------------------------------------------------------------------------

  /** One unicast address of an adapter: IPv4 with its on-link prefix length and the
      network-order value of its `sockaddr_in`, or an address of another family. */
  datatype UnicastAddress = V4(sinAddr: bv32, prefix: Prefix) | OtherFamily

  /** An entry of the `GetAdaptersAddresses` list: whether its operational status is Up,
      and its unicast addresses in list order. */
  datatype Adapter = Adapter(up: bool, unicast: seq<UnicastAddress>)

  /** Unicast address `j` of adapter `i` is one `net_get_primary_subnet` would use. */
  predicate Usable(ads: seq<Adapter>, i: nat, j: nat) {
    i < |ads| && ads[i].up && j < |ads[i].unicast| && ads[i].unicast[j].V4?
  }

  /** The first usable (adapter, address) pair at or after adapter `from`, in the order the
      nested loops visit them. */
  function FirstUsableFrom(ads: seq<Adapter>, from: nat): (r: Option<(nat, nat)>)
    ensures r.None? ==> forall i: nat, j: nat | from <= i :: !Usable(ads, i, j)
    ensures r.Some? ==> from <= r.value.0 && Usable(ads, r.value.0, r.value.1)
    ensures r.Some? ==>
              forall i: nat, j: nat | from <= i && (i < r.value.0 || (i == r.value.0 && j < r.value.1)) :: !Usable(ads, i, j)
    decreases |ads| - from
  {
    if from >= |ads| then None
    else if ads[from].up && FirstV4(ads[from].unicast).Some? then Some((from, FirstV4(ads[from].unicast).value))
    else FirstUsableFrom(ads, from + 1)
  }

  function FirstV4(us: seq<UnicastAddress>): (r: Option<nat>)
    ensures r.None? ==> forall j | 0 <= j < |us| :: !us[j].V4?
    ensures r.Some? ==> r.value < |us| && us[r.value].V4? && forall j | 0 <= j < r.value :: !us[j].V4?
  {
    if |us| == 0 then None
    else if us[0].V4? then Some(0)
    else
      var r := FirstV4(us[1..]);
      if r.None? then None else Some(r.value + 1)
  }

  /** `net_get_primary_subnet`. `adapters` is None when the adapter list cannot be obtained
      (allocation or `GetAdaptersAddresses` failure). The subnet comes from the first Up
      adapter that has an IPv4 unicast address, and from the first such address; when there
      is none the result is None and the caller's subnet is not written. */
  function PrimarySubnet(adapters: Option<seq<Adapter>>): (r: Option<SubnetV4>)
    ensures adapters.None? ==> r.None?
    ensures adapters.Some? ==> (r.Some? <==> exists i: nat, j: nat :: Usable(adapters.value, i, j))
    ensures r.Some? ==>
              var (i, j) := FirstUsableFrom(adapters.value, 0).value;
              var u := adapters.value[i].unicast[j];
              r.value == SubnetOf(ByteSwap(u.sinAddr), u.prefix)
  {
    match adapters
    case None => None
    case Some(ads) =>
      match FirstUsableFrom(ads, 0)
      case None => None
      case Some((i, j)) =>
        var u := ads[i].unicast[j];
        Some(SubnetOf(ByteSwap(u.sinAddr), u.prefix))
  }
}
