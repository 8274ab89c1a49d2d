/** The per-host record (`DeviceInfo`, src/app.h) and the growable result array of
    src/list.c. The array is modelled by its used prefix `items` (so `count == |items|`) and
    its allocated `capacity`; the outcome of each `realloc` is an explicit flag. */
module DeviceLists {

  /** One scanned address. The C arrays `ip[64]`, `hostname[256]` and `mac[32]` hold C
      strings; `openPorts` is the used prefix of `open_ports[32]`. */
  datatype DeviceInfo = DeviceInfo(ip: string, hostname: string, mac: string, isAlive: bool, openPorts: seq<int>)

  /** A zero-filled record (`memset(&di, 0, sizeof(di))`) with its address text set. */
  function Blank(ip: string): (d: DeviceInfo)
    ensures d.ip == ip && d.hostname == "" && d.mac == "" && !d.isAlive && d.openPorts == []
  {
    DeviceInfo(ip, "", "", false, [])
  }

  datatype DeviceList = DeviceList(items: seq<DeviceInfo>, capacity: nat)

  const FirstCapacity: nat := 64

  /** The capacities the growth policy can produce: 0, then 64, 128, 256, ... */
  predicate IsGrownCapacity(c: nat)
    decreases c
  {
    c == 0 || c == FirstCapacity || (c > FirstCapacity && c % 2 == 0 && IsGrownCapacity(c / 2))
  }

  function Pow2(k: nat): (r: nat)
    ensures r >= 1
  {
    if k == 0 then 1 else 2 * Pow2(k - 1)
  }

  /** A well-formed list: the used prefix fits, and the capacity is one the policy produces. */
  predicate Valid(l: DeviceList) {
    |l.items| <= l.capacity && IsGrownCapacity(l.capacity)
  }

  /** `device_list_init`: no storage, nothing stored. */
  function Init(): (l: DeviceList)
    ensures Valid(l) && l.items == [] && l.capacity == 0
  {
    DeviceList([], 0)
  }

  /** `device_list_clear`: frees the storage; whatever the list held, it is back to `Init()`. */
  function Clear(l: DeviceList): (r: DeviceList)
    ensures r == Init()
    ensures Valid(r)
  {
    DeviceList([], 0)
  }

  lemma {:induction false} ClearIdempotent(l: DeviceList)
    ensures Clear(Clear(l)) == Clear(l)
    ensures |Clear(l).items| == 0
  {
  }

  /** The capacity `device_list_push` asks `realloc` for when the list is full. */
  function Grow(capacity: nat): (c: nat)
    ensures capacity == 0 ==> c == FirstCapacity
    ensures capacity > 0 ==> c == 2 * capacity
    ensures c > capacity
  {
    if capacity > 0 then capacity * 2 else FirstCapacity
  }

  /** `device_list_push`. `allocOk` is the outcome of the `realloc` made when the list is
      full; it is ignored when there is room. A failed `realloc` drops the record silently. */
  function Push(l: DeviceList, info: DeviceInfo, allocOk: bool): (r: DeviceList)
    ensures r == l || r.items == l.items + [info]
    ensures r == l <==> |l.items| + 1 > l.capacity && !allocOk
    ensures |l.items| + 1 <= l.capacity ==> r.capacity == l.capacity
    ensures |l.items| + 1 > l.capacity && allocOk ==> r.capacity == Grow(l.capacity)
    ensures Valid(l) ==> Valid(r)
  {
    if |l.items| + 1 > l.capacity then
      if !allocOk then l
      else
        GrowKeepsPolicy(l.capacity);
        DeviceList(l.items + [info], Grow(l.capacity))
    else DeviceList(l.items + [info], l.capacity)
  }

  lemma {:induction false} GrowKeepsPolicy(c: nat)
    ensures IsGrownCapacity(c) ==> IsGrownCapacity(Grow(c))
  {
    if c > 0 && IsGrownCapacity(c) {
      assert c >= FirstCapacity;
      assert (2 * c) / 2 == c;
    }
  }

  /** A successful push stores the record at index `count` and leaves the earlier records
      where they were. */
  lemma {:induction false} PushAppends(l: DeviceList, info: DeviceInfo, allocOk: bool)
    requires |l.items| + 1 <= l.capacity || allocOk
    ensures |Push(l, info, allocOk).items| == |l.items| + 1
    ensures Push(l, info, allocOk).items[|l.items|] == info
    ensures forall i | 0 <= i < |l.items| :: Push(l, info, allocOk).items[i] == l.items[i]
  {
  }

  /** Every capacity of the policy other than 0 is 64 times a power of two. */
  lemma {:induction false} GrownCapacityIsScaledPower(c: nat)
    requires IsGrownCapacity(c) && c > 0
    ensures exists k: nat :: c == FirstCapacity * Pow2(k)
    decreases c
  {
    if c == FirstCapacity {
      assert c == FirstCapacity * Pow2(0);
    } else {
      GrownCapacityIsScaledPower(c / 2);
      var k: nat :| c / 2 == FirstCapacity * Pow2(k);
      assert c == FirstCapacity * Pow2(k + 1);
    }
  }

  /** And every such multiple is reached. */
  lemma {:induction false} ScaledPowerIsGrownCapacity(k: nat)
    ensures IsGrownCapacity(FirstCapacity * Pow2(k))
  {
    if k > 0 {
      ScaledPowerIsGrownCapacity(k - 1);
      GrowKeepsPolicy(FirstCapacity * Pow2(k - 1));
    }
  }

  /** Pushes `infos` one by one; `allocs[i]` is the `realloc` outcome for the i-th push. */
  function PushAll(l: DeviceList, infos: seq<DeviceInfo>, allocs: seq<bool>): (r: DeviceList)
    requires |allocs| == |infos|
    ensures Valid(l) ==> Valid(r)
    ensures |l.items| <= |r.items| <= |l.items| + |infos|
    ensures r.items[..|l.items|] == l.items
    decreases |infos|
  {
    if |infos| == 0 then l
    else
      var next := Push(l, infos[0], allocs[0]);
      var r := PushAll(next, infos[1..], allocs[1..]);
      assert r.items[..|l.items|] == r.items[..|next.items|][..|l.items|];
      r
  }

  /** `sub` is `s` with some elements dropped, the rest kept in order. */
  predicate IsSubsequence<T(==)>(sub: seq<T>, s: seq<T>)
    decreases |s|
  {
    if |sub| == 0 then true
    else if |s| == 0 then false
    else if sub[0] == s[0] then IsSubsequence(sub[1..], s[1..])
    else IsSubsequence(sub, s[1..])
  }

  lemma {:induction false} SubsequenceOfTail<T>(sub: seq<T>, x: T, s: seq<T>)
    requires IsSubsequence(sub, s)
    ensures IsSubsequence(sub, [x] + s)
    decreases |s|, 1
  {
    assert ([x] + s)[1..] == s;
    if |sub| > 0 && sub[0] == x {
      DropFrontTail(sub, s);
    }
  }

  lemma {:induction false} DropFrontTail<T>(sub: seq<T>, s: seq<T>)
    requires |sub| > 0 && IsSubsequence(sub, s)
    ensures IsSubsequence(sub[1..], s)
    decreases |s|, 0
  {
    assert [s[0]] + s[1..] == s;
    if sub[0] == s[0] {
      SubsequenceOfTail(sub[1..], s[0], s[1..]);
    } else {
      DropFrontTail(sub, s[1..]);
      SubsequenceOfTail(sub[1..], s[0], s[1..]);
    }
  }

  /** Pushing a batch appends a subsequence of it: the records whose push found room or got
      its allocation, in batch order. */
  lemma {:induction false} PushAllAppendsSubsequence(l: DeviceList, infos: seq<DeviceInfo>, allocs: seq<bool>)
    requires |allocs| == |infos|
    ensures IsSubsequence(PushAll(l, infos, allocs).items[|l.items|..], infos)
    decreases |infos|
  {
    var r := PushAll(l, infos, allocs);
    if |infos| == 0 {
      assert r.items[|l.items|..] == [];
    } else {
      var next := Push(l, infos[0], allocs[0]);
      PushAllAppendsSubsequence(next, infos[1..], allocs[1..]);
      var tail := r.items[|next.items|..];
      assert IsSubsequence(tail, infos[1..]);
      assert [infos[0]] + infos[1..] == infos;
      if next == l {
        SubsequenceOfTail(tail, infos[0], infos[1..]);
      } else {
        assert r.items[|l.items|..] == [infos[0]] + tail;
        assert ([infos[0]] + tail)[1..] == tail;
      }
    }
  }

  /** When every allocation succeeds, pushing a batch appends exactly the batch. */
  lemma {:induction false} PushAllExact(l: DeviceList, infos: seq<DeviceInfo>, allocs: seq<bool>)
    requires |allocs| == |infos|
    requires forall i | 0 <= i < |allocs| :: allocs[i]
    ensures PushAll(l, infos, allocs).items == l.items + infos
    decreases |infos|
  {
    if |infos| == 0 {
    } else {
      var next := Push(l, infos[0], allocs[0]);
      PushAllExact(next, infos[1..], allocs[1..]);
      assert l.items + [infos[0]] + infos[1..] == l.items + infos;
    }
  }
}
