/** The multi-threaded scan engine of src/parallel_scan.c as a sequential state machine.
    The global `g_state` is an `Engine` value; each worker is a `Phase`, and one call of
    `WorkerStep` is one turn of the worker's loops, taken atomically. The tick count, the
    processor count, the outcome of `net_init` and the probe answers are parameters. */
module ParallelScan {
  import opened Optional
  import opened Text
  import opened DeviceLists
  import opened Ordinals
  import opened Scan

  /** The value of a 64-bit unsigned integer (`ULONGLONG`). */
  type U64 = x: int | 0 <= x < 0x1_0000_0000_0000_0000

  const RateLimit: int := 200
  const RateWindowMs: int := 1000
  const MaxThreads: int := 64
  const DefaultThreads: int := 16
  const EngineMsgSize: nat := 96

  /** `ScanState`. `nextIp` is the 32-bit pattern of the `LONG` claim cursor, read as
      unsigned as the workers do; thread handles and the lock are not modelled. */
  datatype Engine = Engine(
    startIp: U32,
    endIp: U32,
    nextIp: U32,
    cancel: bool,
    cfg: ScanConfig,
    results: DeviceList,
    logging: bool,
    numThreads: int,
    rateCount: int,
    rateWindowStart: U64,
    rateLimit: int)

  /** `static ScanState g_state = {0}`. */
  function Idle(): (e: Engine)
    ensures e.numThreads == 0 && !e.cancel && e.results == Init()
  {
    Engine(0, 0, 0, false, ScanConfig([], 0), Init(), false, 0, 0, 0, 0)
  }

  /** `parallel_scan_is_running`: threads were started and no stop was requested. */
  predicate IsRunning(e: Engine) {
    e.numThreads > 0 && !e.cancel
  }

  /** The state every reachable engine is in: a well-formed result list and a rate counter
      within its limit. */
  predicate Sound(e: Engine) {
    Valid(e.results) && 0 <= e.rateCount <= e.rateLimit
  }

  // ---------------------------------------------------------------------------
  // Worker count
  // ---------------------------------------------------------------------------

  /** The two's-complement value of the low 32 bits of `x`: a cast to `int`, or an `int`
      result that wraps. */
  function Int32(x: int): (r: int)
    ensures -0x8000_0000 <= r < 0x8000_0000
    ensures -0x8000_0000 <= x < 0x8000_0000 ==> r == x
    ensures 0 <= x < 0x1_0000_0000 ==> r == if x < 0x8000_0000 then x else x - 0x1_0000_0000
  {
    var m := x % 0x1_0000_0000;
    if m >= 0x8000_0000 then m - 0x1_0000_0000 else m
  }

  /** The thread count chosen from `dwNumberOfProcessors`: 16 when the `int` value of the
      count is not positive, otherwise twice the count, capped at 64. The doubling is done in
      `int`, so it wraps for counts from 2^30 to 2^31 - 1. */
  function WorkerCount(processors: U32): (n: int)
    ensures n <= MaxThreads
    ensures processors == 0 || processors >= 0x8000_0000 ==> n == DefaultThreads
    ensures 0 < processors < 0x4000_0000 ==> 1 <= n && n == if 2 * processors > MaxThreads then MaxThreads else 2 * processors
    ensures 0x4000_0000 <= processors < 0x8000_0000 ==> n < 0
  {
    var hw := Int32(processors);
    var desired := if hw > 0 then Int32(hw * 2) else DefaultThreads;
    if desired > MaxThreads then MaxThreads else desired
  }

  // ---------------------------------------------------------------------------
  // Start, stop, snapshot
  // ---------------------------------------------------------------------------

  /** The outcome of `parallel_scan_start`: the new state, the return value and the
      messages logged. */
  datatype Started = Started(engine: Engine, ok: bool, log: seq<string>)

  /** `parallel_scan_start`. Refused, with nothing changed, while threads run and no stop
      was requested. Otherwise the whole state is reset: cursor at the start, no cancel,
      an empty list, a fresh rate window at `now` with limit 200, and the given configuration
      or the default one. If `net_init` fails the engine stays without threads. */
  function Start(e: Engine, s: U32, end: U32, cfg: Option<ScanConfig>, logging: bool, now: U64, netInitOk: bool, processors: U32): (r: Started)
    ensures IsRunning(e) ==> r == Started(e, false, [])
    ensures !IsRunning(e) ==>
              && r.engine.startIp == s && r.engine.endIp == end && r.engine.nextIp == s
              && !r.engine.cancel && r.engine.results == Init() && r.engine.logging == logging
              && r.engine.cfg == (if cfg.Some? then cfg.value else ScanConfigInit())
              && r.engine.rateCount == 0 && r.engine.rateWindowStart == now && r.engine.rateLimit == RateLimit
    ensures r.ok <==> !IsRunning(e) && netInitOk
    ensures !IsRunning(e) && !netInitOk ==>
              r.engine.numThreads == 0 && r.log == (if logging then ["Network init failed"] else [])
    ensures r.ok ==>
              && r.engine.numThreads == WorkerCount(processors)
              && r.log == (if logging then [Msg("Workers started: " + IntToDec(WorkerCount(processors)), EngineMsgSize)] else [])
    ensures !IsRunning(e) ==> Sound(r.engine)
  {
    if !e.cancel && e.numThreads > 0 then Started(e, false, [])
    else
      var reset := Engine(s, end, s, false, if cfg.Some? then cfg.value else ScanConfigInit(),
                          Init(), logging, 0, 0, now, RateLimit);
      if !netInitOk then
        Started(reset, false, if logging then ["Network init failed"] else [])
      else
        var n := WorkerCount(processors);
        Started(reset.(numThreads := n),
                true, if logging then [Msg("Workers started: " + IntToDec(n), EngineMsgSize)] else [])
  }

  /** `parallel_scan_stop`: nothing when no threads were started; otherwise cancel is set
      and the engine forgets its threads. The list keeps the results. */
  function Stop(e: Engine): (r: Engine)
    ensures e.numThreads <= 0 ==> r == e
    ensures e.numThreads > 0 ==> r == e.(cancel := true, numThreads := 0)
    ensures !IsRunning(r)
    ensures r.results == e.results
  {
    if e.numThreads <= 0 then e else e.(cancel := true, numThreads := 0)
  }

  /** After a stop a new start is accepted, and with a working network and a realistic
      processor count the engine runs again. */
  lemma {:induction false} StopThenStart(e: Engine, s: U32, end: U32, cfg: Option<ScanConfig>, logging: bool, now: U64, processors: U32)
    requires processors < 0x4000_0000
    ensures Start(Stop(e), s, end, cfg, logging, now, true, processors).ok
    ensures IsRunning(Start(Stop(e), s, end, cfg, logging, now, true, processors).engine)
  {
  }

  /** `parallel_scan_snapshot`. `out` is None for a null pointer, which leaves nothing to do;
      otherwise `out` is cleared and each result is pushed in order, `allocs[i]` being the
      outcome of the allocation of the i-th push. */
  function Snapshot(e: Engine, out: Option<DeviceList>, allocs: seq<bool>): (r: Option<DeviceList>)
    requires |allocs| == |e.results.items|
    ensures out.None? <==> r.None?
    ensures r.Some? ==> Valid(r.value) && |r.value.items| <= |e.results.items|
    ensures r.Some? ==> IsSubsequence(r.value.items, e.results.items)
  {
    match out
    case None => None
    case Some(o) =>
      PushAllAppendsSubsequence(Clear(o), e.results.items, allocs);
      Some(PushAll(Clear(o), e.results.items, allocs))
  }

  /** When every allocation succeeds the snapshot is an exact, same-order copy. */
  lemma {:induction false} SnapshotCopies(e: Engine, o: DeviceList, allocs: seq<bool>)
    requires |allocs| == |e.results.items|
    requires forall i | 0 <= i < |allocs| :: allocs[i]
    ensures Snapshot(e, Some(o), allocs) == Some(PushAll(Init(), e.results.items, allocs))
    ensures Snapshot(e, Some(o), allocs).value.items == e.results.items
  {
    PushAllExact(Init(), e.results.items, allocs);
  }

  // ---------------------------------------------------------------------------
  // Rate limiter
  // ---------------------------------------------------------------------------

  /** `now - rate_window_start` in `ULONGLONG` arithmetic. */
  function Elapsed(now: U64, since: U64): (d: U64)
    ensures since <= now ==> d == now - since
    ensures now < since ==> d == now - since + 0x1_0000_0000_0000_0000
  {
    (now - since) % 0x1_0000_0000_0000_0000
  }

  /** The rate counter and its window. */
  datatype Gate = Gate(count: int, windowStart: U64, limit: int)

  /** One pass of the inner loop's test: the window restarts at `now` once 1000 ms have
      passed; a slot is granted, and counted, only while the count is below the limit. */
  function RateTry(g: Gate, now: U64): (r: (Gate, bool))
    ensures r.0.limit == g.limit
    ensures Elapsed(now, g.windowStart) >= RateWindowMs ==> r.0.windowStart == now
    ensures Elapsed(now, g.windowStart) < RateWindowMs ==> r.0.windowStart == g.windowStart
    ensures r.1 ==> r.0.count == (if Elapsed(now, g.windowStart) >= RateWindowMs then 1 else g.count + 1)
    ensures !r.1 ==> r.0.count == (if Elapsed(now, g.windowStart) >= RateWindowMs then 0 else g.count)
    ensures 0 <= g.count <= g.limit ==> 0 <= r.0.count <= g.limit
  {
    var (ws, cur) := if Elapsed(now, g.windowStart) >= RateWindowMs then (now, 0) else (g.windowStart, g.count);
    if cur < g.limit then (Gate(cur + 1, ws, g.limit), true) else (Gate(cur, ws, g.limit), false)
  }

  /** The number of slots granted to a sequence of tries at the times `nows`, and the
      final gate. */
  function Tries(g: Gate, nows: seq<U64>): (r: (Gate, nat))
    decreases |nows|
  {
    if |nows| == 0 then (g, 0)
    else
      var (g1, granted) := RateTry(g, nows[0]);
      var (g2, n) := Tries(g1, nows[1..]);
      (g2, n + (if granted then 1 else 0))
  }

  /** Within one window at most `limit` slots are granted: tries that all come less than
      1000 ms after the window start take at most the slots left below the limit. */
  lemma {:induction false} AtMostLimitPerWindow(g: Gate, nows: seq<U64>)
    requires 0 <= g.count <= g.limit
    requires forall i | 0 <= i < |nows| :: Elapsed(nows[i], g.windowStart) < RateWindowMs
    ensures Tries(g, nows).0.windowStart == g.windowStart
    ensures g.count + Tries(g, nows).1 == Tries(g, nows).0.count <= g.limit
    decreases |nows|
  {
    if |nows| > 0 {
      var (g1, granted) := RateTry(g, nows[0]);
      assert g1.windowStart == g.windowStart;
      AtMostLimitPerWindow(g1, nows[1..]);
    }
  }

  /** A try after the window has run out always succeeds when the limit is positive. */
  lemma {:induction false} NewWindowGrants(g: Gate, now: U64)
    requires g.limit > 0 && Elapsed(now, g.windowStart) >= RateWindowMs
    ensures RateTry(g, now).1 && RateTry(g, now).0 == Gate(1, now, g.limit)
  {
  }

  // ---------------------------------------------------------------------------
  // Workers
  // ---------------------------------------------------------------------------

  /** Where a worker is: about to test cancel and claim, waiting for a rate slot with an
      address claimed, or returned. */
  datatype Phase = AtTop | Waiting(ip: U32) | Exited

  /** The result of one worker step: new state, new phase, messages logged. */
  datatype Stepped = Stepped(engine: Engine, phase: Phase, log: seq<string>)

  /** The record a worker makes for an address: a blank record holding the address text,
      identified with the engine's configuration. */
  function ScanRecord(cfg: ScanConfig, o: HostOracle, ip: U32, logging: bool): (r: Identified)
    ensures r.info.ip == AddressText(ip)
  {
    IdentifyDevice(Blank(AddressText(ip)), cfg, o, logging)
  }

  /** A worker identifies an address exactly as the sequential scanner does. */
  lemma {:induction false} SameRecordAsSequential(cfg: ScanConfig, probe: U32 -> HostOracle, ip: U32, logging: bool)
    ensures ScanRecord(cfg, probe(ip), ip, logging).info == Visit(cfg, probe, ip, logging).info
    ensures Visit(cfg, probe, ip, logging).log
              == (if logging then [Msg("Processando " + AddressText(ip), 128)] else []) + ScanRecord(cfg, probe(ip), ip, logging).log
  {
  }

  /** The tail of the loop body after the wait: the "Scanning" message through the engine's
      logger, identification and the locked push (`allocOk` is the outcome of its
      allocation). `identify_device` logs through the logger of src/scan.c, which
      `scan_set_logger` sets independently of the engine's; `scanLogging` says whether that
      one is set. */
  function Process(e: Engine, ip: U32, o: HostOracle, allocOk: bool, scanLogging: bool): (r: Stepped)
    ensures r.phase == AtTop
    ensures r.engine == e.(results := r.engine.results)
    ensures r.engine.results == Push(e.results, ScanRecord(e.cfg, o, ip, scanLogging).info, allocOk)
    ensures !e.logging && !scanLogging ==> r.log == []
    ensures e.logging && !scanLogging ==> r.log == [Msg("Scanning " + AddressText(ip), EngineMsgSize)]
    ensures e.logging ==> |r.log| >= 1 && r.log[0] == Msg("Scanning " + AddressText(ip), EngineMsgSize)
    ensures scanLogging && e.logging ==> |r.log| >= 3 && r.log[1] == PingMsg(AddressText(ip))
    ensures scanLogging && !e.logging ==> |r.log| >= 2 && r.log[0] == PingMsg(AddressText(ip))
  {
    var id := ScanRecord(e.cfg, o, ip, scanLogging);
    var log := (if e.logging then [Msg("Scanning " + AddressText(ip), EngineMsgSize)] else []) + id.log;
    Stepped(e.(results := Push(e.results, id.info, allocOk)), AtTop, log)
  }

  /** One turn of `worker_proc`. At the top the worker leaves on cancel; otherwise it claims
      the cursor (returning the old value, advancing it by one with 32-bit wrap) and leaves
      when the claim is past the end. While waiting it makes one rate try at `now`; a granted
      slot, or cancel seen after the `Sleep(1)`, ends the wait and the address is processed.
      `scanLogging` says whether the logger of src/scan.c is set. */
  function WorkerStep(e: Engine, ph: Phase, now: U64, probe: U32 -> HostOracle, allocOk: bool, scanLogging: bool): (r: Stepped)
    ensures ph.Exited? ==> r == Stepped(e, Exited, [])
    ensures ph.AtTop? && e.cancel ==> r == Stepped(e, Exited, [])
    ensures ph.AtTop? && !e.cancel ==>
              && r.engine == e.(nextIp := Inc(e.nextIp))
              && r.log == []
              && r.phase == (if e.nextIp > e.endIp then Exited else Waiting(e.nextIp))
    ensures ph.Waiting? ==> r.engine.nextIp == e.nextIp && r.engine.cancel == e.cancel
    ensures ph.Waiting? && !RateTry(Gate(e.rateCount, e.rateWindowStart, e.rateLimit), now).1 && !e.cancel ==>
              r.phase == ph && r.log == [] && r.engine.results == e.results
    ensures ph.Waiting? && (RateTry(Gate(e.rateCount, e.rateWindowStart, e.rateLimit), now).1 || e.cancel) ==>
              r.phase == AtTop && r.engine.results == Push(e.results, ScanRecord(e.cfg, probe(ph.ip), ph.ip, scanLogging).info, allocOk)
    ensures r.engine.numThreads == e.numThreads && r.engine.cancel == e.cancel
    ensures r.engine.startIp == e.startIp && r.engine.endIp == e.endIp && r.engine.cfg == e.cfg
    ensures Sound(e) ==> Sound(r.engine)
  {
    match ph
    case Exited => Stepped(e, Exited, [])
    case AtTop =>
      if e.cancel then Stepped(e, Exited, [])
      else
        var ip := e.nextIp;
        var e1 := e.(nextIp := Inc(ip));
        if ip > e.endIp then Stepped(e1, Exited, []) else Stepped(e1, Waiting(ip), [])
    case Waiting(ip) =>
      var (g, granted) := RateTry(Gate(e.rateCount, e.rateWindowStart, e.rateLimit), now);
      var e1 := e.(rateCount := g.count, rateWindowStart := g.windowStart);
      if granted || e.cancel then Process(e1, ip, probe(ip), allocOk, scanLogging)
      else Stepped(e1, ph, [])
  }

  /** `is_running` is not touched by the workers: it stays true after every worker has run
      past the end of the range, until `Stop` is called. */
  lemma {:induction false} WorkersKeepRunningFlag(e: Engine, ph: Phase, now: U64, probe: U32 -> HostOracle, allocOk: bool, scanLogging: bool)
    ensures IsRunning(WorkerStep(e, ph, now, probe, allocOk, scanLogging).engine) == IsRunning(e)
  {
  }

  /** A worker that sees cancel while waiting still identifies and stores its address. */
  lemma {:induction false} CancelDuringWaitStillProcesses(e: Engine, ip: U32, now: U64, probe: U32 -> HostOracle, scanLogging: bool)
    requires e.cancel
    ensures WorkerStep(e, Waiting(ip), now, probe, true, scanLogging).phase == AtTop
    ensures WorkerStep(e, Waiting(ip), now, probe, true, scanLogging).engine.results.items
              == e.results.items + [ScanRecord(e.cfg, probe(ip), ip, scanLogging).info]
  {
  }

  // ---------------------------------------------------------------------------
  // The claim cursor
  // ---------------------------------------------------------------------------

  /** The addresses returned by `k` consecutive claims from cursor `c`. */
  function Claims(c: U32, k: nat): (r: seq<U32>)
    ensures |r| == k
    ensures forall j | 0 <= j < k :: r[j] == (c + j) % 0x1_0000_0000
    decreases k
  {
    if k == 0 then []
    else
      var rest := Claims(Inc(c), k - 1);
      assert forall j | 0 <= j < k - 1 :: rest[j] == (c + (j + 1)) % 0x1_0000_0000 by {
        forall j | 0 <= j < k - 1
          ensures rest[j] == (c + (j + 1)) % 0x1_0000_0000
        {
          CursorShift(c, j);
        }
      }
      [c] + rest
  }

  /** Advancing the cursor and then `j` more is advancing it by `j + 1`. */
  lemma {:induction false} CursorShift(c: U32, j: nat)
    ensures (Inc(c) + j) % 0x1_0000_0000 == (c + (j + 1)) % 0x1_0000_0000
  {
    if c == U32Max {
      assert c + (j + 1) == j + 0x1_0000_0000;
    }
  }

  /** The claims a worker goes on to process: those not past the end. */
  function Processed(claims: seq<U32>, end: U32): (r: seq<U32>)
    ensures forall x :: x in r <==> x in claims && x <= end
    decreases |claims|
  {
    if |claims| == 0 then []
    else (if claims[0] <= end then [claims[0]] else []) + Processed(claims[1..], end)
  }

  /** Claims that all lie past the end are all refused. */
  lemma {:induction false} ProcessedNone(claims: seq<U32>, end: U32)
    requires forall j | 0 <= j < |claims| :: claims[j] > end
    ensures Processed(claims, end) == []
    decreases |claims|
  {
    if |claims| > 0 {
      ProcessedNone(claims[1..], end);
    }
  }

  /** Without cancellation and while the cursor does not wrap, the claims made from the
      start (the range's own ones plus one refused claim per worker) hand out every address
      of the range exactly once, in ascending order. */
  lemma {:induction false} ClaimsCoverRange(s: U32, end: U32, k: nat)
    requires s <= end && end - s + 1 <= k <= 0x1_0000_0000 - s
    ensures Processed(Claims(s, k), end) == Range(s, end)
    decreases k
  {
    var cs := Claims(s, k);
    assert cs == [s] + Claims(Inc(s), k - 1);
    assert cs[1..] == Claims(Inc(s), k - 1);
    if s == end {
      ProcessedNone(cs[1..], end);
    } else {
      assert Inc(s) == s + 1;
      ClaimsCoverRange(s + 1, end, k - 1);
    }
  }

  /** The cursor wraps: when the refused claims reach past 255.255.255.255, the next one
      hands out address 0 again, which is at or below the end and so is scanned a second
      time (or, for a range not starting at 0, scanned although outside it). */
  lemma {:induction false} ClaimWrapsToZero(end: U32, w: nat)
    requires end < U32Max && end + w >= 0x1_0000_0000
    ensures Claims(end + 1, w)[0x1_0000_0000 - end - 1] == 0 <= end
  {
  }

  // ---------------------------------------------------------------------------
  // Runs of the workers
  // ---------------------------------------------------------------------------

  /** The record a worker makes for each address, for a fixed configuration, probe
      outcomes and logger of src/scan.c. */
  function Recorder(cfg: ScanConfig, probe: U32 -> HostOracle, scanLogging: bool): U32 -> Identified {
    (ip: U32) => ScanRecord(cfg, probe(ip), ip, scanLogging)
  }

  /** The workers' records are the sequential scanner's records, address by address. */
  lemma {:induction false} RecorderIsVisitor(cfg: ScanConfig, probe: U32 -> HostOracle, scanLogging: bool, ips: seq<U32>)
    ensures Infos(Recorder(cfg, probe, scanLogging), ips) == Infos(Visitor(cfg, probe, scanLogging), ips)
  {
    forall k | 0 <= k < |ips|
      ensures Infos(Recorder(cfg, probe, scanLogging), ips)[k] == Infos(Visitor(cfg, probe, scanLogging), ips)[k]
    {
      SameRecordAsSequential(cfg, probe, ips[k], scanLogging);
    }
  }

  /** One turn of a schedule: the worker that moves, the tick count it reads and the outcome
      of the allocation if it pushes. */
  datatype Turn = Turn(worker: nat, now: U64, allocOk: bool)

  /** The engine, the phase of every worker and the messages logged, after a schedule. */
  datatype Ran = Ran(engine: Engine, phases: seq<Phase>, log: seq<string>)

  /** The workers started by `parallel_scan_start`, each about to test cancel and claim. */
  function Workers(n: nat): (ps: seq<Phase>)
    ensures |ps| == n && forall i | 0 <= i < n :: ps[i] == AtTop
  {
    seq(n, _ => AtTop)
  }

  /** The workers taking the turns of `turns` one after another, a turn being one
      `WorkerStep` of the named worker. `scanLogging` says whether the logger of src/scan.c
      is set during the run. */
  function Run(e: Engine, phases: seq<Phase>, turns: seq<Turn>, probe: U32 -> HostOracle, scanLogging: bool): (r: Ran)
    requires forall i | 0 <= i < |turns| :: turns[i].worker < |phases|
    ensures |r.phases| == |phases|
    ensures r.engine.startIp == e.startIp && r.engine.endIp == e.endIp && r.engine.cfg == e.cfg
    ensures r.engine.cancel == e.cancel && r.engine.numThreads == e.numThreads
    ensures forall i | 0 <= i < |phases| && phases[i].Exited? :: r.phases[i].Exited?
    decreases |turns|
  {
    if |turns| == 0 then Ran(e, phases, [])
    else
      var t := turns[0];
      var st := WorkerStep(e, phases[t.worker], t.now, probe, t.allocOk, scanLogging);
      var rest := Run(st.engine, phases[t.worker := st.phase], turns[1..], probe, scanLogging);
      Ran(rest.engine, rest.phases, st.log + rest.log)
  }

  function ExitedOne(ph: Phase): nat {
    if ph.Exited? then 1 else 0
  }

  /** The number of workers that have returned. */
  function ExitedCount(phases: seq<Phase>): (n: nat)
    ensures n <= |phases|
    decreases |phases|
  {
    if |phases| == 0 then 0 else ExitedOne(phases[0]) + ExitedCount(phases[1..])
  }

  function PendingOne(ph: Phase, visit: U32 -> Identified): multiset<DeviceInfo> {
    if ph.Waiting? then multiset{visit(ph.ip).info} else multiset{}
  }

  /** The records the waiting workers are about to push, one per claimed address. */
  function Pending(phases: seq<Phase>, visit: U32 -> Identified): multiset<DeviceInfo>
    decreases |phases|
  {
    if |phases| == 0 then multiset{} else PendingOne(phases[0], visit) + Pending(phases[1..], visit)
  }

  /** Changing one worker's phase changes the count by that worker's part alone. */
  lemma {:induction false} ExitedCountUpdate(phases: seq<Phase>, w: nat, ph: Phase)
    requires w < |phases|
    ensures ExitedCount(phases[w := ph]) + ExitedOne(phases[w]) == ExitedCount(phases) + ExitedOne(ph)
    decreases |phases|
  {
    if w == 0 {
      assert phases[w := ph][1..] == phases[1..];
    } else {
      assert phases[w := ph][1..] == phases[1..][w - 1 := ph];
      ExitedCountUpdate(phases[1..], w - 1, ph);
    }
  }

  /** Changing one worker's phase changes the pending records by that worker's part alone. */
  lemma {:induction false} PendingUpdate(phases: seq<Phase>, w: nat, ph: Phase, visit: U32 -> Identified)
    requires w < |phases|
    ensures Pending(phases[w := ph], visit) + PendingOne(phases[w], visit) == Pending(phases, visit) + PendingOne(ph, visit)
    decreases |phases|
  {
    var changed := phases[w := ph];
    if w == 0 {
      assert changed[1..] == phases[1..];
    } else {
      assert changed[1..] == phases[1..][w - 1 := ph] && changed[0] == phases[0] && phases[1..][w - 1] == phases[w];
      PendingUpdate(phases[1..], w - 1, ph, visit);
      AddOnLeft(PendingOne(phases[0], visit), Pending(changed[1..], visit), PendingOne(phases[w], visit),
                Pending(phases[1..], visit), PendingOne(ph, visit));
    }
  }

  lemma {:induction false} AddOnLeft<T>(a: multiset<T>, b: multiset<T>, x: multiset<T>, c: multiset<T>, y: multiset<T>)
    requires b + x == c + y
    ensures a + b + x == a + c + y
  {
    calc {
      a + b + x;
      a + (b + x);
      a + (c + y);
      a + c + y;
    }
  }

  /** A claim adds one element to both the pending records and the claimed records. */
  lemma {:induction false} GainOne<T>(r: multiset<T>, p: multiset<T>, p1: multiset<T>, c: multiset<T>, x: T)
    requires p1 + multiset{} == p + multiset{x} && r + p == c
    ensures r + p1 == c + multiset{x}
  {
    assert p1 == p1 + multiset{};
    calc {
      r + p1;
      r + (p + multiset{x});
      r + p + multiset{x};
    }
  }

  lemma {:induction false} DropEmpty<T>(a: multiset<T>, b: multiset<T>)
    requires a + multiset{} == b + multiset{}
    ensures a == b
  {
    assert a == a + multiset{} && b == b + multiset{};
  }

  lemma {:induction false} ClaimInRange<T>(items: seq<T>, claimed: seq<T>, p: multiset<T>, p1: multiset<T>, x: T)
    requires multiset(items) + p == multiset(claimed) && p1 + multiset{} == p + multiset{x}
    ensures multiset(items) + p1 == multiset(claimed + [x])
  {
    GainOne(multiset(items), p, p1, multiset(claimed), x);
  }

  /** A push moves one element from the pending records to the results. */
  lemma {:induction false} MoveOne<T>(r: multiset<T>, p: multiset<T>, p1: multiset<T>, c: multiset<T>, x: T)
    requires p1 + multiset{x} == p + multiset{} && r + p == c
    ensures r + multiset{x} + p1 == c
  {
    assert p == p + multiset{};
    calc {
      r + multiset{x} + p1;
      r + (p1 + multiset{x});
    }
  }

  /** Freshly started workers: none has returned and none holds a claim. */
  lemma {:induction false} WorkersIdle(n: nat, visit: U32 -> Identified)
    ensures ExitedCount(Workers(n)) == 0 && Pending(Workers(n), visit) == multiset{}
    decreases n
  {
    if n > 0 {
      assert Workers(n)[1..] == Workers(n - 1);
      WorkersIdle(n - 1, visit);
    }
  }

  /** Workers that have all returned hold no claim. */
  lemma {:induction false} AllExitedIdle(phases: seq<Phase>, visit: U32 -> Identified)
    requires forall i | 0 <= i < |phases| :: phases[i].Exited?
    ensures ExitedCount(phases) == |phases| && Pending(phases, visit) == multiset{}
    decreases |phases|
  {
    if |phases| > 0 {
      AllExitedIdle(phases[1..], visit);
    }
  }

  /** The `n` addresses from `s` on. */
  function Span(s: U32, n: nat): (r: seq<U32>)
    requires s + n <= 0x1_0000_0000
    ensures |r| == n && forall k | 0 <= k < n :: r[k] == s + k
  {
    seq(n, (k: int) requires 0 <= k < n => (s + k) as U32)
  }

  lemma {:induction false} SpanSnoc(s: U32, n: nat)
    requires s + n < 0x1_0000_0000
    ensures Span(s, n + 1) == Span(s, n) + [s + n]
  {
  }

  lemma {:induction false} SpanIsRange(s: U32, end: U32)
    requires s <= end
    ensures Span(s, end + 1 - s) == Range(s, end)
  {
  }

  lemma {:induction false} InfosSnoc(visit: U32 -> Identified, ips: seq<U32>, x: U32)
    ensures Infos(visit, ips + [x]) == Infos(visit, ips) + [visit(x).info]
  {
  }

  /** The cursor value past which claims are refused: the end's successor, or the start when
      the range is empty. */
  function FirstRefused(s: U32, end: U32): int {
    if s <= end then end + 1 else s
  }

  /** How many addresses of `s..end` the claims up to cursor `next` have handed out. */
  function InRangeClaims(s: U32, end: U32, next: U32): (n: nat)
    requires s <= next
    ensures s <= end ==> s + n <= end + 1
    ensures s > end ==> n == 0
  {
    if s > end then 0 else (if next <= end + 1 then next else end + 1) - s
  }

  /** The cursor half of what a run keeps true while nobody cancels: range and cursor have
      not wrapped, and each returned worker was refused a claim past the end. */
  predicate CursorTracks(e: Engine, phases: seq<Phase>, s: U32, end: U32) {
    && e.startIp == s && e.endIp == end && !e.cancel
    && s <= e.nextIp <= FirstRefused(s, end) + ExitedCount(phases)
    && (ExitedCount(phases) > 0 ==> e.nextIp > end + 1)
  }

  /** The records half: the records pushed plus the records the waiting workers are about to
      push are exactly the records of the addresses of the range claimed so far. */
  predicate RecordsTrack(e: Engine, phases: seq<Phase>, visit: U32 -> Identified)
    requires e.startIp <= e.nextIp
  {
    multiset(e.results.items) + Pending(phases, visit)
      == multiset(Infos(visit, Span(e.startIp, InRangeClaims(e.startIp, e.endIp, e.nextIp))))
  }

  /** What a run of the workers keeps true while nobody cancels. */
  predicate Tracks(e: Engine, phases: seq<Phase>, s: U32, end: U32, visit: U32 -> Identified) {
    CursorTracks(e, phases, s, end) && RecordsTrack(e, phases, visit)
  }

  /** A claim at the top of the loop keeps the cursor half: it cannot wrap while some worker
      is still to return, and a claim past the end retires its worker. */
  lemma {:induction false} ClaimCursor(e: Engine, phases: seq<Phase>, w: nat, e1: Engine, ph: Phase)
    requires w < |phases| && phases[w] == AtTop
    requires FirstRefused(e.startIp, e.endIp) + |phases| <= U32Max
    requires CursorTracks(e, phases, e.startIp, e.endIp)
    requires e1 == e.(nextIp := Inc(e.nextIp)) && ph == (if e.nextIp > e.endIp then Exited else Waiting(e.nextIp))
    ensures e.nextIp < U32Max
    ensures CursorTracks(e1, phases[w := ph], e.startIp, e.endIp)
  {
    ExitedCountUpdate(phases, w, Exited);
    ExitedCountUpdate(phases, w, ph);
  }

  /** A claim at the top of the loop keeps the records half: a claim in the range becomes a
      pending record, a claim past the end adds nothing. */
  lemma {:induction false} ClaimRecords(e: Engine, phases: seq<Phase>, w: nat, e1: Engine, ph: Phase, visit: U32 -> Identified)
    requires w < |phases| && phases[w] == AtTop
    requires e.startIp <= e.nextIp < U32Max
    requires e1 == e.(nextIp := e.nextIp + 1) && ph == (if e.nextIp > e.endIp then Exited else Waiting(e.nextIp))
    requires RecordsTrack(e, phases, visit)
    ensures RecordsTrack(e1, phases[w := ph], visit)
  {
    if e.nextIp <= e.endIp {
      ClaimInRangeRecords(e, phases, w, e1, visit);
    } else {
      ClaimPastEndRecords(e, phases, w, e1, visit);
    }
  }

  lemma {:induction false} ClaimInRangeRecords(e: Engine, phases: seq<Phase>, w: nat, e1: Engine, visit: U32 -> Identified)
    requires w < |phases| && phases[w] == AtTop
    requires e.startIp <= e.nextIp <= e.endIp && e.nextIp < U32Max
    requires e1.startIp == e.startIp && e1.endIp == e.endIp && e1.nextIp == e.nextIp + 1 && e1.results == e.results
    requires RecordsTrack(e, phases, visit)
    ensures RecordsTrack(e1, phases[w := Waiting(e.nextIp)], visit)
  {
    var s, end, ip := e.startIp, e.endIp, e.nextIp;
    var p, p1 := Pending(phases, visit), Pending(phases[w := Waiting(ip)], visit);
    assert p1 + multiset{} == p + multiset{visit(ip).info} by {
      PendingUpdate(phases, w, Waiting(ip), visit);
    }
    assert InRangeClaims(s, end, ip) == ip - s && InRangeClaims(s, end, e1.nextIp) == ip - s + 1;
    ClaimedGrows(e.results.items, s, ip - s, visit, p, p1);
  }

  /** The records side of a claim of address `s + n`: it joins the pending records and the
      claimed ones. */
  lemma {:induction false} ClaimedGrows(items: seq<DeviceInfo>, s: U32, n: nat, visit: U32 -> Identified,
                                        p: multiset<DeviceInfo>, p1: multiset<DeviceInfo>)
    requires s + n < 0x1_0000_0000
    requires multiset(items) + p == multiset(Infos(visit, Span(s, n)))
    requires p1 + multiset{} == p + multiset{visit(s + n).info}
    ensures multiset(items) + p1 == multiset(Infos(visit, Span(s, n + 1)))
  {
    SpanSnoc(s, n);
    InfosSnoc(visit, Span(s, n), s + n);
    ClaimInRange(items, Infos(visit, Span(s, n)), p, p1, visit(s + n).info);
  }

  lemma {:induction false} ClaimPastEndRecords(e: Engine, phases: seq<Phase>, w: nat, e1: Engine, visit: U32 -> Identified)
    requires w < |phases| && phases[w] == AtTop
    requires e.startIp <= e.nextIp < U32Max && e.nextIp > e.endIp
    requires e1 == e.(nextIp := e.nextIp + 1)
    requires RecordsTrack(e, phases, visit)
    ensures RecordsTrack(e1, phases[w := Exited], visit)
  {
    var s, end, ip := e.startIp, e.endIp, e.nextIp;
    PendingUpdate(phases, w, Exited, visit);
    assert InRangeClaims(s, end, ip + 1) == InRangeClaims(s, end, ip);
    assert PendingOne(Exited, visit) == multiset{} && PendingOne(phases[w], visit) == multiset{};
    DropEmpty(Pending(phases[w := Exited], visit), Pending(phases, visit));
    assert e1.results == e.results;
  }

  /** A claim at the top of the loop keeps `Tracks`. */
  lemma {:induction false} ClaimTracks(e: Engine, phases: seq<Phase>, w: nat, now: U64, probe: U32 -> HostOracle, scanLogging: bool)
    requires w < |phases| && phases[w] == AtTop
    requires FirstRefused(e.startIp, e.endIp) + |phases| <= U32Max
    requires Tracks(e, phases, e.startIp, e.endIp, Recorder(e.cfg, probe, scanLogging))
    ensures var st := WorkerStep(e, AtTop, now, probe, true, scanLogging);
            Tracks(st.engine, phases[w := st.phase], e.startIp, e.endIp, Recorder(e.cfg, probe, scanLogging))
  {
    var st := WorkerStep(e, AtTop, now, probe, true, scanLogging);
    ClaimCursor(e, phases, w, st.engine, st.phase);
    ClaimRecords(e, phases, w, st.engine, st.phase, Recorder(e.cfg, probe, scanLogging));
  }

  /** A granted turn of a waiting worker moves its pending record into the results. */
  lemma {:induction false} PushRecords(e: Engine, phases: seq<Phase>, w: nat, e1: Engine, visit: U32 -> Identified)
    requires w < |phases| && phases[w].Waiting? && e.startIp <= e.nextIp
    requires e1.startIp == e.startIp && e1.endIp == e.endIp && e1.nextIp == e.nextIp
    requires e1.results.items == e.results.items + [visit(phases[w].ip).info]
    requires RecordsTrack(e, phases, visit)
    ensures RecordsTrack(e1, phases[w := AtTop], visit)
  {
    var x := visit(phases[w].ip).info;
    PendingUpdate(phases, w, AtTop, visit);
    assert multiset(e1.results.items) == multiset(e.results.items) + multiset{x};
    MoveOne(multiset(e.results.items), Pending(phases, visit), Pending(phases[w := AtTop], visit),
            multiset(Infos(visit, Span(e.startIp, InRangeClaims(e.startIp, e.endIp, e.nextIp)))), x);
  }

  /** A turn of a waiting worker keeps `Tracks`: a granted slot (or cancel) moves its pending
      record into the results, a refused one changes nothing that `Tracks` speaks of. */
  lemma {:induction false} WaitTracks(e: Engine, phases: seq<Phase>, w: nat, now: U64, probe: U32 -> HostOracle, scanLogging: bool)
    requires w < |phases| && phases[w].Waiting?
    requires Tracks(e, phases, e.startIp, e.endIp, Recorder(e.cfg, probe, scanLogging))
    ensures var st := WorkerStep(e, phases[w], now, probe, true, scanLogging);
            Tracks(st.engine, phases[w := st.phase], e.startIp, e.endIp, Recorder(e.cfg, probe, scanLogging))
  {
    var visit := Recorder(e.cfg, probe, scanLogging);
    var st := WorkerStep(e, phases[w], now, probe, true, scanLogging);
    ExitedCountUpdate(phases, w, st.phase);
    if st.phase == AtTop {
      var ip := phases[w].ip;
      PushTrue(e.results, visit(ip).info);
      PushRecords(e, phases, w, st.engine, visit);
    } else {
      assert phases[w := st.phase] == phases;
    }
  }

  /** Every turn keeps `Tracks`. */
  lemma {:induction false} StepTracks(e: Engine, phases: seq<Phase>, w: nat, now: U64, probe: U32 -> HostOracle, scanLogging: bool)
    requires w < |phases|
    requires FirstRefused(e.startIp, e.endIp) + |phases| <= U32Max
    requires Tracks(e, phases, e.startIp, e.endIp, Recorder(e.cfg, probe, scanLogging))
    ensures var st := WorkerStep(e, phases[w], now, probe, true, scanLogging);
            Tracks(st.engine, phases[w := st.phase], e.startIp, e.endIp, Recorder(e.cfg, probe, scanLogging))
  {
    match phases[w]
    case AtTop => ClaimTracks(e, phases, w, now, probe, scanLogging);
    case Waiting(_) => WaitTracks(e, phases, w, now, probe, scanLogging);
    case Exited => assert phases[w := Exited] == phases;
  }

  /** A whole schedule keeps `Tracks` when every allocation succeeds. */
  lemma {:induction false} RunTracks(e: Engine, phases: seq<Phase>, turns: seq<Turn>, probe: U32 -> HostOracle, scanLogging: bool)
    requires forall i | 0 <= i < |turns| :: turns[i].worker < |phases| && turns[i].allocOk
    requires FirstRefused(e.startIp, e.endIp) + |phases| <= U32Max
    requires Tracks(e, phases, e.startIp, e.endIp, Recorder(e.cfg, probe, scanLogging))
    ensures Tracks(Run(e, phases, turns, probe, scanLogging).engine, Run(e, phases, turns, probe, scanLogging).phases,
                   e.startIp, e.endIp, Recorder(e.cfg, probe, scanLogging))
    decreases |turns|
  {
    if |turns| > 0 {
      var t := turns[0];
      StepTracks(e, phases, t.worker, t.now, probe, scanLogging);
      var st := WorkerStep(e, phases[t.worker], t.now, probe, t.allocOk, scanLogging);
      RunTracks(st.engine, phases[t.worker := st.phase], turns[1..], probe, scanLogging);
    }
  }

  /** Once every worker has returned, `Tracks` says the results are exactly the records of
      `s..end`, each once. */
  lemma {:induction false} FinishedTracks(e: Engine, phases: seq<Phase>, visit: U32 -> Identified)
    requires |phases| > 0 && forall i | 0 <= i < |phases| :: phases[i].Exited?
    requires Tracks(e, phases, e.startIp, e.endIp, visit)
    ensures multiset(e.results.items) == multiset(Infos(visit, Range(e.startIp, e.endIp)))
  {
    AllExitedIdle(phases, visit);
    assert multiset(e.results.items) + Pending(phases, visit) == multiset(e.results.items);
    if e.startIp <= e.endIp {
      assert InRangeClaims(e.startIp, e.endIp, e.nextIp) == e.endIp + 1 - e.startIp;
      SpanIsRange(e.startIp, e.endIp);
    }
  }

  /** Without cancellation, with every allocation succeeding and with the cursor kept from
      wrapping, a scan launched by `parallel_scan_start` whose workers have all returned holds
      one result per address of start..end, each the record the sequential scanner makes for
      that address: the multiset of results is that of the sequential scan's records,
      whatever the interleaving of the workers and the timing of the rate limiter. */
  lemma {:induction false} RunCoversRange(e0: Engine, s: U32, end: U32, cfg: Option<ScanConfig>, logging: bool, now: U64,
                                          processors: U32, turns: seq<Turn>, probe: U32 -> HostOracle, scanLogging: bool)
    requires !IsRunning(e0) && 0 < processors < 0x4000_0000
    requires FirstRefused(s, end) + WorkerCount(processors) <= U32Max
    requires forall i | 0 <= i < |turns| :: turns[i].worker < WorkerCount(processors) && turns[i].allocOk
    requires forall i | 0 <= i < WorkerCount(processors) ::
               Run(Start(e0, s, end, cfg, logging, now, true, processors).engine, Workers(WorkerCount(processors)),
                   turns, probe, scanLogging).phases[i].Exited?
    ensures multiset(Run(Start(e0, s, end, cfg, logging, now, true, processors).engine, Workers(WorkerCount(processors)),
                         turns, probe, scanLogging).engine.results.items)
            == multiset(Infos(Visitor(if cfg.Some? then cfg.value else ScanConfigInit(), probe, scanLogging), Range(s, end)))
  {
    var e := Start(e0, s, end, cfg, logging, now, true, processors).engine;
    var n := WorkerCount(processors);
    var visit := Recorder(e.cfg, probe, scanLogging);
    WorkersIdle(n, visit);
    assert Tracks(e, Workers(n), s, end, visit);
    RunTracks(e, Workers(n), turns, probe, scanLogging);
    var r := Run(e, Workers(n), turns, probe, scanLogging);
    FinishedTracks(r.engine, r.phases, visit);
    RecorderIsVisitor(e.cfg, probe, scanLogging, Range(s, end));
  }
}
