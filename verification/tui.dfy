/** The console front end: the selection cursor driven by the arrow keys in the key loop of
    src/main.c, and the result rows `tui_draw_results` (src/tui.c) paints. Console output,
    cursor positioning and the frame painting are not modelled; a drawing is the list of
    rows it would write. */
module Tui {
  import opened Text
  import opened DeviceLists
  import Export

  /** Console rows not available to results: the frame, header, separators and log area. */
  const ChromeRows: int := 7

  /** The console row of the first result. */
  const FirstResultRow: int := 3

  /** `area_h`: how many results fit on a console `height` rows tall. */
  function AreaHeight(height: int): int {
    height - ChromeRows
  }

  /** `selected_index` and `scroll_offset` of `TuiState`. */
  datatype Cursor = Cursor(sel: int, scroll: int)

  /** `tui_init` puts both at 0. */
  const Home: Cursor := Cursor(0, 0)

  /** The selection is on screen: it lies in the window of `areaH` results from `scroll`. */
  predicate OnScreen(c: Cursor, areaH: int) {
    0 <= c.scroll <= c.sel < c.scroll + areaH
  }

  // ---------------------------------------------------------------------------
  // The key loop
  // ---------------------------------------------------------------------------

  /** VK_UP: move the selection up one, scrolling up to it when it leaves the top of the
      window; nothing at the first result. */
  function MoveUp(c: Cursor): (r: Cursor)
    ensures c.sel > 0 ==> r.sel == c.sel - 1 && r.scroll <= c.scroll && r.scroll <= r.sel
    ensures c.sel <= 0 ==> r == c
  {
    if c.sel > 0 then
      var sel := c.sel - 1;
      Cursor(sel, if sel < c.scroll then sel else c.scroll)
    else c
  }

  /** VK_DOWN: move the selection down one while a result follows it, scrolling down one
      row when it leaves the bottom of the window; nothing at the last result. */
  function MoveDown(c: Cursor, count: int, areaH: int): (r: Cursor)
    ensures c.sel + 1 < count ==> r.sel == c.sel + 1 && c.scroll <= r.scroll <= c.scroll + 1
    ensures c.sel + 1 >= count ==> r == c
  {
    if c.sel + 1 < count then
      var sel := c.sel + 1;
      Cursor(sel, if sel >= c.scroll + areaH then c.scroll + 1 else c.scroll)
    else c
  }

  /** A key press: the five actions, the two arrows, Escape, and any other key with the
      character it types. */
  datatype Key = F1 | F2 | F3 | F4 | F5 | Up | Down | Escape | Other(ch: char)

  /** The keys that end the loop: Escape, 'q' and 'Q'. */
  predicate Quits(key: Key) {
    key == Escape || key == Other('q') || key == Other('Q')
  }

  /** What the loop keeps between key presses. */
  datatype Session = Session(cursor: Cursor, results: seq<DeviceInfo>, running: bool)

  /** The state after `tui_init` and `device_list_init`. */
  const Start: Session := Session(Home, [], true)

  /** One key press on a console `height` rows tall. F1 and F2 clear the results and refill
      them with a scan whose records are `scanned`; F3 pings and F4 resolves an address read
      from the console, and F5 writes results.txt through `export_results_to_file`, none of
      them changing the session; the arrows move the cursor; the quitting keys stop the loop. */
  function HandleKey(s: Session, height: int, key: Key, scanned: seq<DeviceInfo>): (r: Session)
    ensures key == F1 || key == F2 ==> r.results == scanned
    ensures key != F1 && key != F2 ==> r.results == s.results
    ensures key != Up && key != Down ==> r.cursor == s.cursor
    ensures r.running <==> s.running && !Quits(key)
  {
    match key
    case F1 => s.(results := scanned)
    case F2 => s.(results := scanned)
    case Up => s.(cursor := MoveUp(s.cursor))
    case Down => s.(cursor := MoveDown(s.cursor, |s.results|, AreaHeight(height)))
    case Escape => s.(running := false)
    case Other(ch) => if ch == 'q' || ch == 'Q' then s.(running := false) else s
    case _ => s
  }

  /** The session after a sequence of key presses, `scans[k]` being what a scan started by
      `keys[k]` would find. */
  function Run(s: Session, height: int, keys: seq<Key>, scans: seq<seq<DeviceInfo>>): (r: Session)
    requires |scans| == |keys|
    decreases |keys|
  {
    if |keys| == 0 then s
    else Run(HandleKey(s, height, keys[0], scans[0]), height, keys[1..], scans[1..])
  }

  /** Each arrow key keeps the selection on screen when the window holds at least one
      result. */
  lemma {:induction false} ArrowsKeepOnScreen(c: Cursor, count: int, areaH: int)
    requires areaH >= 1 && OnScreen(c, areaH)
    ensures OnScreen(MoveUp(c), areaH)
    ensures OnScreen(MoveDown(c, count, areaH), areaH)
  {
  }

  /** The arrows only ever move the selection to an existing result: once it names one of
      the results, it still does after either arrow. */
  lemma {:induction false} ArrowsStayInResults(c: Cursor, count: int, areaH: int)
    requires 0 <= c.sel < count
    ensures 0 <= MoveUp(c).sel < count
    ensures 0 <= MoveDown(c, count, areaH).sel < count
  {
  }

  /** From start-up, whatever keys are pressed and whatever the scans find, the selection
      stays on screen, provided the console leaves room for at least one result. A scan
      replaces the results but leaves the cursor where it was. */
  lemma {:induction false} CursorAlwaysOnScreen(s: Session, height: int, keys: seq<Key>, scans: seq<seq<DeviceInfo>>)
    requires AreaHeight(height) >= 1 && OnScreen(s.cursor, AreaHeight(height))
    requires |scans| == |keys|
    ensures OnScreen(Run(s, height, keys, scans).cursor, AreaHeight(height))
    decreases |keys|
  {
    if |keys| > 0 {
      var next := HandleKey(s, height, keys[0], scans[0]);
      ArrowsKeepOnScreen(s.cursor, |s.results|, AreaHeight(height));
      assert OnScreen(next.cursor, AreaHeight(height));
      CursorAlwaysOnScreen(next, height, keys[1..], scans[1..]);
    }
  }

  /** The loop stops at the first quitting key and stays stopped. */
  lemma {:induction false} RunStopsAtQuit(s: Session, height: int, keys: seq<Key>, scans: seq<seq<DeviceInfo>>)
    requires |scans| == |keys|
    ensures Run(s, height, keys, scans).running <==> s.running && forall k | 0 <= k < |keys| :: !Quits(keys[k])
    decreases |keys|
  {
    if |keys| > 0 {
      RunStopsAtQuit(HandleKey(s, height, keys[0], scans[0]), height, keys[1..], scans[1..]);
      assert forall k | 1 <= k < |keys| :: keys[1..][k - 1] == keys[k];
    }
  }

  // ---------------------------------------------------------------------------
  // Drawing the results
  // ---------------------------------------------------------------------------

  /** The integers `lo, lo + 1, ..., hi - 1`. */
  function Between(lo: int, hi: int): (r: seq<int>)
    ensures |r| == if lo < hi then hi - lo else 0
    ensures forall k | 0 <= k < |r| :: r[k] == lo + k
    decreases hi - lo
  {
    if lo >= hi then [] else [lo] + Between(lo + 1, hi)
  }

  /** The indices `tui_draw_results` visits: from `scroll` up to `scroll + areaH` or the end
      of the list, whichever comes first. */
  function VisibleIndices(scroll: int, areaH: int, count: int): (r: seq<int>)
  {
    var end := if scroll + areaH > count then count else scroll + areaH;
    Between(scroll, end)
  }

  /** The window holds exactly the results that are at or after `scroll`, fewer than
      `areaH` rows below it, and in the list, in ascending order. */
  lemma {:induction false} VisibleWindow(scroll: int, areaH: int, count: int)
    ensures forall i :: i in VisibleIndices(scroll, areaH, count) <==> scroll <= i < scroll + areaH && i < count
    ensures forall k | 0 <= k < |VisibleIndices(scroll, areaH, count)| :: VisibleIndices(scroll, areaH, count)[k] == scroll + k
  {
    var r := VisibleIndices(scroll, areaH, count);
    forall i | scroll <= i < scroll + areaH && i < count
      ensures i in r
    {
      assert r[i - scroll] == i;
    }
  }

  /** A text field as `tui_draw_results` prints it: the text itself, or the placeholder
      when the text is empty, so a column is never blank. */
  function OrPlaceholder(text: string, placeholder: string): (r: string)
    requires |placeholder| > 0
    ensures |r| > 0
    ensures text != "" ==> r == text
    ensures text == "" ==> r == placeholder
  {
    if text == "" then placeholder else text
  }

  /** Shown for an empty host name and an empty MAC. */
  const UnknownHost := "(desconhecido)"
  const NoMac := "--"

  /** The first column: '>' on the selected result, a space elsewhere. */
  function Marker(i: int, sel: int): char {
    if i == sel then '>' else ' '
  }

  /** `snprintf(line, 1024, "%c %-15s  %-30s  MAC: %-17s  %s", ...)`. */
  function RowText(d: DeviceInfo, marker: char): (line: string)
    ensures 0 < |line| <= 1023 && line[0] == marker
  {
    Truncate([marker] + " " + PadRight(d.ip, 15) + "  " + PadRight(OrPlaceholder(d.hostname, UnknownHost), 30)
             + "  MAC: " + PadRight(OrPlaceholder(d.mac, NoMac), 17) + "  " + Export.StatusField(d.isAlive), 1023)
  }

  /** `strncat(dst, src, 255 - strlen(dst))` on the 256-character ports buffer. */
  function StrnCat(dst: string, src: string): (r: string)
    requires |dst| <= 255
    ensures |r| <= 255
  {
    dst + Truncate(src, 255 - |dst|)
  }

  /** The ports loop: each port printed with "%s%d", the prefix being a space except before
      the first, and appended to `acc` with `StrnCat`. */
  function AppendPorts(acc: string, ports: seq<int>, first: bool): (r: string)
    requires |acc| <= 255
    ensures |r| <= 255
    decreases |ports|
  {
    if |ports| == 0 then acc
    else AppendPorts(StrnCat(acc, (if first then "" else " ") + IntToDec(ports[0])), ports[1..], false)
  }

  function PortsText(ports: seq<int>): (r: string)
    ensures |r| <= 255
  {
    AppendPorts("", ports, true)
  }

  /** The ports after the first, each preceded by a space. */
  function SpacedPorts(ports: seq<int>): string
    decreases |ports|
  {
    if |ports| == 0 then "" else " " + IntToDec(ports[0]) + SpacedPorts(ports[1..])
  }

  /** The ports text is the port numbers joined by single spaces, cut to the 255 characters
      the buffer holds: no leading or trailing space. */
  lemma {:induction false} PortsTextIsJoin(ports: seq<int>)
    ensures PortsText(ports) == Truncate(Join(Export.PortTexts(ports), " "), 255)
  {
    if |ports| > 0 {
      NonEmptyPortsText(ports);
    }
  }

  lemma {:induction false} NonEmptyPortsText(ports: seq<int>)
    requires |ports| > 0
    ensures PortsText(ports) == Truncate(Join(Export.PortTexts(ports), " "), 255)
  {
    var rest := SpacedPorts(ports[1..]);
    calc {
      PortsText(ports);
      AppendPorts("", ports, true);
      { AppendPortsTruncates("", ports, true); }
      Truncate("" + FirstPiece(ports, true) + rest, 255);
      { assert "" + FirstPiece(ports, true) + rest == IntToDec(ports[0]) + rest; }
      Truncate(IntToDec(ports[0]) + rest, 255);
      { JoinIsSpaced(ports); }
      Truncate(Join(Export.PortTexts(ports), " "), 255);
    }
  }

  lemma {:induction false} JoinIsSpaced(ports: seq<int>)
    requires |ports| > 0
    ensures Join(Export.PortTexts(ports), " ") == IntToDec(ports[0]) + SpacedPorts(ports[1..])
    decreases |ports|
  {
    var texts := Export.PortTexts(ports);
    var tail := ports[1..];
    if |ports| == 1 {
      assert tail == [];
    } else {
      var head := IntToDec(ports[0]);
      calc {
        Join(texts, " ");
        texts[0] + " " + Join(texts[1..], " ");
        { assert texts[1..] == Export.PortTexts(tail); }
        head + " " + Join(Export.PortTexts(tail), " ");
        { JoinIsSpaced(tail); }
        head + " " + (IntToDec(tail[0]) + SpacedPorts(tail[1..]));
        { Regroup(head, " ", IntToDec(tail[0]), SpacedPorts(tail[1..])); }
        head + (" " + IntToDec(tail[0]) + SpacedPorts(tail[1..]));
        head + SpacedPorts(tail);
      }
    }
  }

  lemma {:induction false} Regroup(a: string, b: string, c: string, d: string)
    ensures a + b + (c + d) == a + (b + c + d)
  {
  }

  /** The text the loop appends for the first of `ports`. */
  function FirstPiece(ports: seq<int>, first: bool): string
    requires |ports| > 0
  {
    (if first then "" else " ") + IntToDec(ports[0])
  }

  lemma {:induction false} SpacedUnfold(ports: seq<int>)
    requires |ports| > 0
    ensures SpacedPorts(ports) == FirstPiece(ports, false) + SpacedPorts(ports[1..])
  {
  }

  lemma {:induction false} StrnCatTruncates(dst: string, src: string)
    requires |dst| <= 255
    ensures StrnCat(dst, src) == Truncate(dst + src, 255)
  {
    if |src| > 255 - |dst| {
      assert (dst + src)[..255] == dst + src[..255 - |dst|];
    }
  }

  /** Appending piece by piece with `StrnCat` cuts the whole text once. */
  lemma {:induction false} AppendPortsTruncates(acc: string, ports: seq<int>, first: bool)
    requires |acc| <= 255 && |ports| > 0
    ensures AppendPorts(acc, ports, first) == Truncate(acc + FirstPiece(ports, first) + SpacedPorts(ports[1..]), 255)
    decreases |ports|, 1
  {
    if |ports| == 1 {
      LastPortTruncates(acc, ports, first);
    } else {
      MorePortsTruncate(acc, ports, first);
    }
  }

  lemma {:induction false} LastPortTruncates(acc: string, ports: seq<int>, first: bool)
    requires |acc| <= 255 && |ports| == 1
    ensures AppendPorts(acc, ports, first) == Truncate(acc + FirstPiece(ports, first) + SpacedPorts(ports[1..]), 255)
  {
    var piece := FirstPiece(ports, first);
    assert AppendPorts(acc, ports, first) == StrnCat(acc, piece);
    StrnCatTruncates(acc, piece);
    assert acc + piece + SpacedPorts(ports[1..]) == acc + piece;
  }

  lemma {:induction false} MorePortsTruncate(acc: string, ports: seq<int>, first: bool)
    requires |acc| <= 255 && |ports| > 1
    ensures AppendPorts(acc, ports, first) == Truncate(acc + FirstPiece(ports, first) + SpacedPorts(ports[1..]), 255)
    decreases |ports|, 0
  {
    var piece := FirstPiece(ports, first);
    var next := StrnCat(acc, piece);
    var tail := ports[1..];
    assert AppendPorts(acc, ports, first) == AppendPorts(next, tail, false);
    AppendPortsTruncates(next, tail, false);
    SpacedUnfold(tail);
    CutThroughStrnCat(acc, piece, FirstPiece(tail, false), SpacedPorts(tail[1..]), SpacedPorts(tail), AppendPorts(next, tail, false));
  }

  /** A text cut after `StrnCat` of its first piece is the whole text cut once. */
  lemma {:induction false} CutThroughStrnCat(acc: string, piece: string, b: string, c: string, rest: string, x: string)
    requires |acc| <= 255 && rest == b + c
    requires x == Truncate(StrnCat(acc, piece) + b + c, 255)
    ensures x == Truncate(acc + piece + rest, 255)
  {
    var next := StrnCat(acc, piece);
    assert next + b + c == next + rest;
    StrnCatTruncates(acc, piece);
    TruncateTwice(acc + piece, rest, 255);
  }

  /** Cutting before appending and cutting again equals cutting once. */
  lemma {:induction false} TruncateTwice(a: string, b: string, n: nat)
    ensures Truncate(Truncate(a, n) + b, n) == Truncate(a + b, n)
  {
    if |a| > n {
      assert (a + b)[..n] == a[..n];
      assert (a[..n] + b)[..n] == a[..n];
    }
  }

  /** One painted result: the console row, the result's index, the result itself and the
      marker in its first column. What is written is `Line` and, when present, `PortsLine`. */
  datatype Row = Row(y: int, index: int, item: DeviceInfo, marker: char)

  /** The line written at column 1 of the row. */
  function Line(r: Row): (line: string)
    ensures 0 < |line| <= 1023 && line[0] == r.marker
  {
    RowText(r.item, r.marker)
  }

  /** The "Ports: ..." text written at column 60, only for a result with open ports. */
  function PortsLine(r: Row): (p: Optional.Option<string>)
    ensures p.Some? <==> |r.item.openPorts| > 0
    ensures p.Some? ==> 7 <= |p.value| <= 262 && p.value[..7] == "Ports: "
  {
    if |r.item.openPorts| > 0 then Optional.Some("Ports: " + PortsText(r.item.openPorts)) else Optional.None
  }

  /** The "Ports: ..." text lists the open ports separated by single spaces. */
  lemma {:induction false} PortsLineIsJoin(r: Row)
    requires |r.item.openPorts| > 0
    ensures PortsLine(r) == Optional.Some("Ports: " + Truncate(Join(Export.PortTexts(r.item.openPorts), " "), 255))
  {
    PortsTextIsJoin(r.item.openPorts);
  }

  /** The row of result `i`, marked '>' exactly when it is the selected one. */
  function DrawRow(d: DeviceInfo, i: int, sel: int, y: int): (r: Row)
    ensures r.y == y && r.index == i && r.item == d
    ensures r.marker == '>' <==> i == sel
    ensures r.marker == ' ' <==> i != sel
  {
    Row(y, i, d, Marker(i, sel))
  }

  /** `tui_draw_results` for a console `height` rows tall: the visible results from the
      first result row down. */
  function Draw(c: Cursor, height: int, items: seq<DeviceInfo>): (rows: seq<Row>)
    requires 0 <= c.scroll
    ensures |rows| == |VisibleIndices(c.scroll, AreaHeight(height), |items|)|
    ensures forall k | 0 <= k < |rows| :: rows[k].index == c.scroll + k && rows[k].y == FirstResultRow + k
    ensures forall k | 0 <= k < |rows| :: rows[k].item == items[c.scroll + k]
  {
    var idx := VisibleIndices(c.scroll, AreaHeight(height), |items|);
    DrawFrom(c, items, idx)
  }

  function DrawFrom(c: Cursor, items: seq<DeviceInfo>, idx: seq<int>): (rows: seq<Row>)
    requires forall k | 0 <= k < |idx| :: idx[k] == c.scroll + k && 0 <= idx[k] < |items|
    ensures |rows| == |idx|
    ensures forall k | 0 <= k < |rows| :: rows[k] == DrawRow(items[idx[k]], idx[k], c.sel, FirstResultRow + k)
  {
    seq(|idx|, k requires 0 <= k < |idx| => DrawRow(items[idx[k]], idx[k], c.sel, FirstResultRow + k))
  }

  /** With the selection on screen and naming a result, exactly one painted row carries the
      '>' marker, and it is the selected result's. */
  lemma {:induction false} SelectionMarkedOnce(c: Cursor, height: int, items: seq<DeviceInfo>)
    requires OnScreen(c, AreaHeight(height)) && c.sel < |items|
    ensures forall k | 0 <= k < |Draw(c, height, items)| :: Line(Draw(c, height, items)[k])[0] == '>' <==> Draw(c, height, items)[k].index == c.sel
    ensures exists k | 0 <= k < |Draw(c, height, items)| :: Draw(c, height, items)[k].index == c.sel
  {
    var rows := Draw(c, height, items);
    var idx := VisibleIndices(c.scroll, AreaHeight(height), |items|);
    VisibleWindow(c.scroll, AreaHeight(height), |items|);
    assert c.sel in idx;
    var k := c.sel - c.scroll;
    assert rows[k].index == c.sel;
  }
}
