/** The text `export_results_to_file` (src/export.c) writes: a header line, then one
    semicolon-separated line per record in list order. Opening and writing the file are not
    modelled; whether `fopen` succeeded is a parameter. */
module Export {
  import opened Optional
  import opened Text
  import opened DeviceLists

  const HeaderLine: string := "IP;Hostname;MAC;Status;Ports"

  function StatusField(alive: bool): string {
    if alive then "UP" else "DOWN"
  }

  /** The "%d" texts of the ports, in order. */
  function PortTexts(ports: seq<int>): (r: seq<string>)
    ensures |r| == |ports|
    ensures forall i | 0 <= i < |ports| :: r[i] == IntToDec(ports[i])
  {
    if |ports| == 0 then [] else [IntToDec(ports[0])] + PortTexts(ports[1..])
  }

  /** The inner loop: each port printed with "%d%s", the suffix being "," except after the
      last one. */
  function PortsField(ports: seq<int>): string
    decreases |ports|
  {
    if |ports| == 0 then ""
    else IntToDec(ports[0]) + (if |ports| > 1 then "," else "") + PortsField(ports[1..])
  }

  /** The ports field is the port numbers joined by commas: no trailing comma, empty when
      there are none. */
  lemma {:induction false} PortsFieldIsJoin(ports: seq<int>)
    ensures PortsField(ports) == Join(PortTexts(ports), ",")
    decreases |ports|
  {
    if |ports| > 1 {
      PortsFieldIsJoin(ports[1..]);
      assert PortTexts(ports)[1..] == PortTexts(ports[1..]);
    }
  }

  /** Splitting the ports field at its commas gives back each port's decimal text. */
  lemma {:induction false} PortsFieldSplits(ports: seq<int>)
    requires |ports| > 0
    ensures Split(PortsField(ports), ',') == PortTexts(ports)
  {
    PortsFieldIsJoin(ports);
    forall i | 0 <= i < |ports|
      ensures ',' !in PortTexts(ports)[i]
    {
      DecimalCharacters(ports[i], ',');
    }
    SplitJoin(PortTexts(ports), ',');
  }

  /** "%d" prints only digits and a minus sign. */
  lemma {:induction false} DecimalCharacters(i: int, c: char)
    requires !IsDigit(c) && c != '-'
    ensures c !in IntToDec(i)
  {
  }

  lemma {:induction false} PortsFieldCharacters(ports: seq<int>, c: char)
    requires !IsDigit(c) && c != '-' && c != ','
    ensures c !in PortsField(ports)
    decreases |ports|
  {
    if |ports| > 0 {
      DecimalCharacters(ports[0], c);
      PortsFieldCharacters(ports[1..], c);
    }
  }

  /** One record's line without its newline: "ip;hostname;mac;UP|DOWN;ports". An empty
      hostname or MAC prints as an empty field. */
  function RowLine(d: DeviceInfo): string {
    d.ip + ";" + d.hostname + ";" + d.mac + ";" + StatusField(d.isAlive) + ";" + PortsField(d.openPorts)
  }

  function Fields(d: DeviceInfo): seq<string> {
    [d.ip, d.hostname, d.mac, StatusField(d.isAlive), PortsField(d.openPorts)]
  }

  /** The number of occurrences of `c` in `s`. */
  function Occurrences(s: string, c: char): (n: nat)
    ensures n == 0 <==> c !in s
  {
    if |s| == 0 then 0 else (if s[0] == c then 1 else 0) + Occurrences(s[1..], c)
  }

  lemma {:induction false} OccurrencesAppend(a: string, b: string, c: char)
    ensures Occurrences(a + b, c) == Occurrences(a, c) + Occurrences(b, c)
    decreases |a|
  {
    if |a| > 0 {
      assert (a + b)[1..] == a[1..] + b;
      OccurrencesAppend(a[1..], b, c);
    } else {
      assert a + b == b;
    }
  }

  /** Splitting yields one piece more than there are separators. */
  lemma {:induction false} SplitCount(s: string, sep: char)
    ensures |Split(s, sep)| == Occurrences(s, sep) + 1
    decreases |s|
  {
    if |s| > 0 {
      SplitCount(s[1..], sep);
    }
  }

  /** Fields are not escaped: a record's line splits into exactly the five fields at its
      semicolons when the address, name and MAC texts hold no ';', and into more pieces
      otherwise. */
  lemma {:induction false} RowSplitsIntoFields(d: DeviceInfo)
    ensures |Split(RowLine(d), ';')| == 5 <==> ';' !in d.ip && ';' !in d.hostname && ';' !in d.mac
    ensures ';' !in d.ip && ';' !in d.hostname && ';' !in d.mac ==> Split(RowLine(d), ';') == Fields(d)
  {
    var a, b, m := Occurrences(d.ip, ';'), Occurrences(d.hostname, ';'), Occurrences(d.mac, ';');
    RowPieceCount(d);
    if ';' !in d.ip && ';' !in d.hostname && ';' !in d.mac {
      CleanRowSplits(d);
    }
  }

  lemma {:induction false} RowPieceCount(d: DeviceInfo)
    ensures |Split(RowLine(d), ';')|
            == Occurrences(d.ip, ';') + Occurrences(d.hostname, ';') + Occurrences(d.mac, ';') + 5
  {
    RowSemicolons(d);
    SplitCount(RowLine(d), ';');
  }

  lemma {:induction false} CleanRowSplits(d: DeviceInfo)
    requires ';' !in d.ip && ';' !in d.hostname && ';' !in d.mac
    ensures Split(RowLine(d), ';') == Fields(d)
  {
    var fields := Fields(d);
    assert ';' !in fields[4] by {
      PortsFieldCharacters(d.openPorts, ';');
    }
    assert ';' !in fields[3];
    assert RowLine(d) == Join(fields, ";") by {
      JoinFive(d.ip, d.hostname, d.mac, StatusField(d.isAlive), PortsField(d.openPorts));
    }
    SplitJoin(fields, ';');
  }

  /** A record's line has the four separators plus those inside its texts. */
  lemma {:induction false} RowSemicolons(d: DeviceInfo)
    ensures Occurrences(RowLine(d), ';')
            == Occurrences(d.ip, ';') + Occurrences(d.hostname, ';') + Occurrences(d.mac, ';') + 4
  {
    var tail := StatusField(d.isAlive) + ";" + PortsField(d.openPorts);
    assert Occurrences(tail, ';') == 1 by {
      PortsFieldCharacters(d.openPorts, ';');
      SeparatedOccurrences(StatusField(d.isAlive), PortsField(d.openPorts), ';');
    }
    RowLineShape(d);
    ThreeSeparated(d.ip, d.hostname, d.mac, tail, ';');
  }

  lemma {:induction false} RowLineShape(d: DeviceInfo)
    ensures RowLine(d) == d.ip + ";" + (d.hostname + ";" + (d.mac + ";" + (StatusField(d.isAlive) + ";" + PortsField(d.openPorts))))
  {
  }

  lemma {:induction false} ThreeSeparated(a: string, b: string, m: string, t: string, c: char)
    ensures Occurrences(a + [c] + (b + [c] + (m + [c] + t)), c)
            == Occurrences(a, c) + Occurrences(b, c) + Occurrences(m, c) + 3 + Occurrences(t, c)
  {
    SeparatedOccurrences(m, t, c);
    SeparatedOccurrences(b, m + [c] + t, c);
    SeparatedOccurrences(a, b + [c] + (m + [c] + t), c);
  }

  lemma {:induction false} SeparatedOccurrences(a: string, b: string, c: char)
    ensures Occurrences(a + [c] + b, c) == Occurrences(a, c) + 1 + Occurrences(b, c)
  {
    OccurrencesAppend(a + [c], b, c);
    OccurrencesAppend(a, [c], c);
  }

  lemma {:induction false} JoinFive(a: string, b: string, c: string, d: string, e: string)
    ensures Join([a, b, c, d, e], ";") == a + ";" + b + ";" + c + ";" + d + ";" + e
  {
    assert [d, e][1..] == [e];
    assert Join([d, e], ";") == d + ";" + e;
    assert [c, d, e][1..] == [d, e];
    assert Join([c, d, e], ";") == c + ";" + (d + ";" + e);
    assert [b, c, d, e][1..] == [c, d, e];
    assert Join([b, c, d, e], ";") == b + ";" + (c + ";" + (d + ";" + e));
    assert [a, b, c, d, e][1..] == [b, c, d, e];
    assert Join([a, b, c, d, e], ";") == a + ";" + (b + ";" + (c + ";" + (d + ";" + e)));
  }

  /** The record lines, in list order. */
  function Body(items: seq<DeviceInfo>): string
    decreases |items|
  {
    if |items| == 0 then "" else RowLine(items[0]) + "\n" + Body(items[1..])
  }

  function RowLines(items: seq<DeviceInfo>): (r: seq<string>)
    ensures |r| == |items|
    ensures forall i | 0 <= i < |items| :: r[i] == RowLine(items[i])
  {
    if |items| == 0 then [] else [RowLine(items[0])] + RowLines(items[1..])
  }

  /** The whole file text: header line, then one line per record. */
  function ExportText(items: seq<DeviceInfo>): string {
    HeaderLine + "\n" + Body(items)
  }

  /** `export_results_to_file`. `fileOpened` is the outcome of `fopen`: without it the result is
      0 and nothing is written; otherwise 1 and the export text. */
  function ExportResults(fileOpened: bool, list: DeviceList): (r: (int, Option<string>))
    ensures !fileOpened <==> r.0 == 0
    ensures r.0 == 0 ==> r.1.None?
    ensures r.0 == 0 || r.0 == 1
    ensures r.0 == 1 ==> r.1.Some? && |r.1.value| >= |HeaderLine| + 1 && r.1.value[..|HeaderLine|] == HeaderLine
    ensures r.0 == 1 ==> r.1 == Some(ExportText(list.items))
  {
    if !fileOpened then (0, None) else (1, Some(ExportText(list.items)))
  }

  lemma {:induction false} BodyIsJoin(items: seq<DeviceInfo>)
    ensures Body(items) == Join(RowLines(items) + [""], "\n")
    decreases |items|
  {
    if |items| > 0 {
      BodyIsJoin(items[1..]);
      assert (RowLines(items) + [""])[1..] == RowLines(items[1..]) + [""];
    }
  }

  /** A record's line holds a newline only if one of its texts does. */
  lemma {:induction false} RowLineNewlines(d: DeviceInfo)
    requires '\n' !in d.ip && '\n' !in d.hostname && '\n' !in d.mac
    ensures '\n' !in RowLine(d)
  {
    PortsFieldCharacters(d.openPorts, '\n');
  }

  /** When no text holds a newline, the file is `count + 1` lines, each ended by a newline:
      the header, then each record's line in list order. */
  lemma {:induction false} ExportLines(items: seq<DeviceInfo>)
    requires forall i | 0 <= i < |items| :: '\n' !in items[i].ip && '\n' !in items[i].hostname && '\n' !in items[i].mac
    ensures Split(ExportText(items), '\n') == [HeaderLine] + RowLines(items) + [""]
    ensures Occurrences(ExportText(items), '\n') == |items| + 1
  {
    var parts := [HeaderLine] + RowLines(items) + [""];
    ExportTextIsJoin(items);
    LinesHaveNoNewline(items);
    SplitJoin(parts, '\n');
    SplitCount(ExportText(items), '\n');
  }

  lemma {:induction false} ExportTextIsJoin(items: seq<DeviceInfo>)
    ensures ExportText(items) == Join([HeaderLine] + RowLines(items) + [""], "\n")
  {
    var parts := [HeaderLine] + RowLines(items) + [""];
    BodyIsJoin(items);
    assert parts[1..] == RowLines(items) + [""];
  }

  lemma {:induction false} LinesHaveNoNewline(items: seq<DeviceInfo>)
    requires forall i | 0 <= i < |items| :: '\n' !in items[i].ip && '\n' !in items[i].hostname && '\n' !in items[i].mac
    ensures forall i | 0 <= i < |items| + 2 :: '\n' !in ([HeaderLine] + RowLines(items) + [""])[i]
  {
    var rows := RowLines(items);
    forall k | 0 <= k < |rows|
      ensures '\n' !in rows[k]
    {
      RowLineNewlines(items[k]);
    }
    HeaderHasNoNewline();
    FramedPieces(HeaderLine, rows, '\n');
  }

  lemma {:induction false} HeaderHasNoNewline()
    ensures '\n' !in HeaderLine
  {
  }

  /** No piece of `[first] + middle + [""]` holds `c` when neither `first` nor any of
      `middle` does. */
  lemma {:induction false} FramedPieces(first: string, middle: seq<string>, c: char)
    requires c !in first
    requires forall k | 0 <= k < |middle| :: c !in middle[k]
    ensures forall i | 0 <= i < |middle| + 2 :: c !in ([first] + middle + [""])[i]
  {
    var parts := [first] + middle + [""];
    forall i | 0 <= i < |parts|
      ensures c !in parts[i]
    {
      if 1 <= i <= |middle| {
        assert parts[i] == middle[i - 1];
      }
    }
  }
}
