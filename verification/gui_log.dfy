/** The log of the raygui front end (src/main_raygui.c): `gui_logger` keeps the latest
    message as the status text and files every message into a ring of 256 fixed-size lines;
    the "Debug Log" panel shows the first `min(count, 256)` slots, and "Clear Log" resets the
    count. Drawing is not modelled; the panel's content is the list of lines it labels. */
module GuiLog {
  import opened Optional
  import opened Text

  /** `g_logLines[256][160]` and `g_statusText[128]`. */
  const Slots: nat := 256
  const LineSize: nat := 160
  const StatusSize: nat := 128

  /** `g_statusText`, the 256 slots of `g_logLines` and `g_logCount`. */
  datatype Logger = Logger(status: string, lines: seq<string>, count: nat)

  predicate Valid(g: Logger) {
    |g.lines| == Slots
  }

  /** Start-up: status "Ready", every slot empty, nothing logged. */
  function Initial(): (g: Logger)
    ensures Valid(g) && g.count == 0 && g.status == "Ready"
  {
    Logger("Ready", seq(Slots, _ => ""), 0)
  }

  /** The slot message number `n` (counting from 0) goes to. */
  function SlotOf(n: nat): (k: nat)
    ensures k < Slots
  {
    n % Slots
  }

  /** `gui_logger(msg)`. A null message only empties the status. Otherwise the status
      becomes the message cut to 127 characters, slot `count % 256` the message cut to 159,
      and the count goes up by one; every other slot keeps its line. */
  function Log(g: Logger, msg: Option<string>): (r: Logger)
    requires Valid(g)
    ensures Valid(r)
    ensures msg.None? ==> r == g.(status := "")
    ensures msg.Some? ==> r.status == Truncate(msg.value, StatusSize - 1) && r.count == g.count + 1
    ensures msg.Some? ==> r.lines[SlotOf(g.count)] == Truncate(msg.value, LineSize - 1)
    ensures forall k | 0 <= k < Slots && (msg.None? || k != SlotOf(g.count)) :: r.lines[k] == g.lines[k]
  {
    match msg
    case None => g.(status := "")
    case Some(m) =>
      Logger(Truncate(m, StatusSize - 1), g.lines[SlotOf(g.count) := Truncate(m, LineSize - 1)], g.count + 1)
  }

  /** The "Clear Log" button: the count goes back to 0; the slots keep their old text, which
      is no longer shown. */
  function ClearLog(g: Logger): (r: Logger)
    requires Valid(g)
    ensures Valid(r) && r.count == 0 && r.lines == g.lines && r.status == g.status
    ensures Shown(r) == []
  {
    g.(count := 0)
  }

  /** The lines the panel shows, top to bottom: slots `0 .. min(count, 256) - 1`, in slot
      order. */
  function Shown(g: Logger): (r: seq<string>)
    requires Valid(g)
    ensures |r| == if g.count < Slots then g.count else Slots
    ensures forall i | 0 <= i < |r| :: r[i] == g.lines[i]
  {
    g.lines[..if g.count < Slots then g.count else Slots]
  }

  /** The logger after the messages `ms`, oldest first. */
  function LogAll(g: Logger, ms: seq<string>): (r: Logger)
    requires Valid(g)
    ensures Valid(r)
    decreases |ms|
  {
    if |ms| == 0 then g else Log(LogAll(g, ms[..|ms| - 1]), Some(ms[|ms| - 1]))
  }

  /** After the messages `ms`: the count has grown by `|ms|`, the status is the last message,
      each of the last 256 messages sits in its slot (cut to 159 characters), and the slots
      no message reached are untouched. */
  lemma {:induction false} LatestInEachSlot(g: Logger, ms: seq<string>)
    requires Valid(g)
    ensures LogAll(g, ms).count == g.count + |ms|
    ensures |ms| > 0 ==> LogAll(g, ms).status == Truncate(ms[|ms| - 1], StatusSize - 1)
    ensures forall j | 0 <= j < |ms| && |ms| <= j + Slots :: LogAll(g, ms).lines[SlotOf(g.count + j)] == Truncate(ms[j], LineSize - 1)
    ensures forall k | 0 <= k < Slots && |ms| <= (k - g.count) % Slots :: LogAll(g, ms).lines[k] == g.lines[k]
  {
    LogAllCount(g, ms);
    RecentSlots(g, ms);
    UntouchedSlots(g, ms);
    assert HoldsRecent(LogAll(g, ms), g.count, ms);
  }

  lemma {:induction false} LogAllCount(g: Logger, ms: seq<string>)
    requires Valid(g)
    ensures LogAll(g, ms).count == g.count + |ms|
    decreases |ms|
  {
    if |ms| > 0 {
      LogAllCount(g, ms[..|ms| - 1]);
    }
  }

  /** Each of the last 256 of `ms`, logged from message number `base` on, sits in its
      slot of `r`. */
  predicate HoldsRecent(r: Logger, base: nat, ms: seq<string>)
    requires Valid(r)
  {
    forall j | 0 <= j < |ms| && |ms| <= j + Slots :: r.lines[SlotOf(base + j)] == Truncate(ms[j], LineSize - 1)
  }

  lemma {:induction false} RecentSlots(g: Logger, ms: seq<string>)
    requires Valid(g)
    ensures HoldsRecent(LogAll(g, ms), g.count, ms)
    decreases |ms|
  {
    if |ms| > 0 {
      var front := ms[..|ms| - 1];
      RecentSlots(g, front);
      LogAllCount(g, front);
      RecentStep(g.count, front, ms, LogAll(g, front), LogAll(g, ms));
    }
  }

  /** Logging one more message keeps the last 256 in their slots. */
  lemma {:induction false} RecentStep(base: nat, front: seq<string>, ms: seq<string>, prev: Logger, r: Logger)
    requires Valid(prev) && prev.count == base + |front|
    requires |ms| == |front| + 1 && ms[..|front|] == front && r == Log(prev, Some(ms[|front|]))
    requires HoldsRecent(prev, base, front)
    ensures HoldsRecent(r, base, ms)
  {
    forall j | 0 <= j < |ms| && |ms| <= j + Slots
      ensures r.lines[SlotOf(base + j)] == Truncate(ms[j], LineSize - 1)
    {
      assert j < |front| ==> front[j] == ms[j];
      if j < |front| {
        SlotsDiffer(base + j, |front| - j);
      }
    }
  }

  lemma {:induction false} UntouchedSlots(g: Logger, ms: seq<string>)
    requires Valid(g)
    ensures forall k | 0 <= k < Slots && |ms| <= (k - g.count) % Slots :: LogAll(g, ms).lines[k] == g.lines[k]
    decreases |ms|
  {
    if |ms| > 0 {
      var front := ms[..|ms| - 1];
      UntouchedSlots(g, front);
      LogAllCount(g, front);
      UntouchedStep(g, |front|, ms[|ms| - 1], LogAll(g, front), LogAll(g, ms));
    }
  }

  /** Logging one more message leaves alone the slots no message has reached yet. */
  lemma {:induction false} UntouchedStep(g: Logger, n: nat, m: string, prev: Logger, r: Logger)
    requires Valid(g) && Valid(prev) && prev.count == g.count + n && r == Log(prev, Some(m))
    requires forall k | 0 <= k < Slots && n <= (k - g.count) % Slots :: prev.lines[k] == g.lines[k]
    ensures forall k | 0 <= k < Slots && n + 1 <= (k - g.count) % Slots :: r.lines[k] == g.lines[k]
  {
    forall k | 0 <= k < Slots && n + 1 <= (k - g.count) % Slots
      ensures r.lines[k] == g.lines[k]
    {
      if k == SlotOf(g.count + n) {
        SlotOffset(g.count, n);
        assert false;
      }
    }
  }

  /** Fewer than 256 messages apart land in different slots. */
  lemma {:induction false} SlotsDiffer(n: nat, d: nat)
    requires 0 < d < Slots
    ensures SlotOf(n + d) != SlotOf(n)
  {
  }

  /** Message `n + d` lands `d` slots after message `n`, counting round the ring. */
  lemma {:induction false} SlotOffset(n: nat, d: nat)
    requires d < Slots
    ensures (SlotOf(n + d) - n) % Slots == d
  {
  }

  /** After "Clear Log", up to 256 messages are shown in the order they were logged, each cut
      to 159 characters, whatever the slots held before. */
  lemma {:induction false} ClearThenLogShowsInOrder(g: Logger, ms: seq<string>)
    requires Valid(g) && |ms| <= Slots
    ensures |Shown(LogAll(ClearLog(g), ms))| == |ms|
    ensures forall j | 0 <= j < |ms| :: Shown(LogAll(ClearLog(g), ms))[j] == Truncate(ms[j], LineSize - 1)
  {
    var cleared := ClearLog(g);
    LatestInEachSlot(cleared, ms);
    forall j | 0 <= j < |ms|
      ensures Shown(LogAll(cleared, ms))[j] == Truncate(ms[j], LineSize - 1)
    {
      assert SlotOf(cleared.count + j) == j;
    }
  }

  /** Once 256 or more messages have been logged, all 256 slots are shown; the panel then
      lists slot order, not logging order, so the newest line need not be last. */
  lemma {:induction false} FullRingShowsEverySlot(g: Logger, ms: seq<string>)
    requires Valid(g) && g.count + |ms| >= Slots
    ensures |Shown(LogAll(g, ms))| == Slots
  {
    LatestInEachSlot(g, ms);
  }
}
