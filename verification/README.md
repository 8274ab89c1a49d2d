# catnet_scanner core, modelled in Dafny

catnet_scanner is a Win32 network scanner with a console front end (src/main.c,
src/tui.c) and a raygui front end (src/main_raygui.c). This project models its core
logic as immutable datatypes and pure functions:

- dotted-decimal addresses and their 32-bit ordinals;
- CIDR masks, network and broadcast addresses, and the choice of the primary subnet;
- the user's range grammar;
- the growable device list;
- the per-host identification pipeline;
- the sequential and the parallel scan loops;
- the semicolon export format;
- the console cursor and result rows;
- the raygui log ring.

Every Winsock and Win32 call is replaced by a parameter that carries its outcome:

| call | parameter |
|---|---|
| ICMP echo | `HostOracle.icmpReady`, `echoReplied` |
| `gethostbyaddr` | `dnsName` |
| `SendARP` | `ArpReply` |
| `connect`/`select`/`getsockopt` | `ConnectAttempt` |
| `GetAdaptersAddresses` | an optional list of `Adapter` |
| `GetSystemInfo` | the processor count |
| `GetTickCount64` | `now` |
| `WSAStartup` | `netInitOk` |
| `realloc` | an `allocOk` flag |
| `fopen` | `fileOpened` |

C strings are `seq<char>` without the terminator. A null pointer is `Option.None`. A
buffer of `n` bytes holds at most `n - 1` characters.

Modules, one per file:

| module | file | what it models |
|---|---|---|
| `Optional` | text.dfy | the `Option` type |
| `Text` | text.dfy | `trim_newline`, `safe_strcpy`, "%d", `atoi`, splitting and joining |
| `Ordinals` | ordinals.dfy | 32-bit unsigned values as bounded integers, with `++` wrapping |
| `Ipv4` | ipv4.dfy | `ip_to_uint`/`uint_to_ip` through `inet_addr`/`inet_ntoa` and the little-endian byte swap |
| `Subnet` | subnet.dfy | prefix masks, `net_get_primary_subnet`, the mask popcount |
| `DeviceLists` | device_list.dfy | src/list.c |
| `Net` | net.dfy | the port filter, the timeout split, the MAC text, reverse DNS, ping |
| `Scan` | scan.dfy | src/scan.c |
| `ParallelScan` | parallel_scan.dfy | src/parallel_scan.c as a sequential state machine |
| `Export` | export.dfy | the text `export_results_to_file` writes |
| `RangeParse` | range_parse.dfy | `parse_range` and the raygui Scan button |
| `GuiLog` | gui_log.dfy | `gui_logger` and the debug log panel |
| `Tui` | tui.dfy | the VK_UP/VK_DOWN cursor, the key loop, `tui_draw_results` |

Addresses are `bv32` in `Ipv4` and `Subnet`, because `unsigned long` is 32 bits on
Windows. Scan loops count with `Ordinals.U32`, which is 0 .. 2^32-1, and `Inc`
wraps 0xFFFFFFFF to 0 as `++ip` does. Prefix lengths follow section 3.1 of RFC 4632.

Behaviour of the source that the model keeps, and that the lemmas make visible:

- `Subnet.UsableRange`: a /31 gives start = end + 1. A /32 gives start = end + 2
  modulo 2^32. For 0.0.0.0/32 and 255.255.255.255/32 the wrap gives a non-empty range:
  1 .. 0xFFFFFFFF and 0 .. 0xFFFFFFFE.
- `Scan.ScanSubnet`: on a usable range that ends at 255.255.255.255, the loop
  `ip <= end; ++ip` never ends. Only 0.0.0.0/32 produces such a range.
- `ParallelScan.WorkersKeepRunningFlag`: `parallel_scan_is_running` stays true after
  every worker has exited. Only `parallel_scan_stop` makes it false.
- Two range conventions:
  - `RangeParse.LanOnlyScansWholeBlock`: with "LAN only", the Scan button rewrites the
    box to the subnet's CIDR text. It therefore scans network .. broadcast inclusive.
  - `Scan.ScanSubnet` and the button's fallback use network + 1 .. broadcast − 1.
- `Tui.HandleKey`: a scan replaces the results but not the cursor. The selection can
  therefore name a result that no longer exists, until an arrow key moves it.
- `GuiLog.FullRingShowsEverySlot`: from 256 messages on, the panel lists the slots in
  slot order. The newest line then need not be the last one shown.
- `ParallelScan.ClaimWrapsToZero`: refused claims keep advancing the shared cursor.
  Past 255.255.255.255 it wraps to 0, where a claim is no longer past the end.
- Two loggers: `parallel_scan_start` takes the engine's logger, and `identify_device`
  logs through the one `scan_set_logger` installs. `ParallelScan.Process` keeps them
  apart. The raygui front end sets both to `gui_logger` (src/main_raygui.c:132 and 172-178).

## Model

| member | source | states |
|---|---|---|
| Text.TrimNewline | src/utils.c:24-28 | The result is a prefix of the input. Everything removed is '\n' or '\r'. The result does not end in either. |
| Text.TrimNewlineOrNull | src/utils.c:22-29 | A null argument stays null. Otherwise the result is a prefix of the string. |
| Text.TrimNewlineUnique | src/utils.c:24-28 | Any prefix that drops only line terminators and keeps none at its end is the trimmed string, so the maximal run is removed. |
| Text.TrimNewlineIdempotent | src/utils.c:22-29 | Trimming twice equals trimming once. |
| Text.TrimNewlineKeepsInterior | src/utils.c:24-28 | Every character that is not a line terminator survives at its position. |
| Text.SafeStrcpy | src/utils.c:31-36 | A null dst or dstsz 0 leaves dst unchanged. A null src gives the empty string. Otherwise the result is the prefix of src of length min(\|src\|, dstsz−1): all of src when it fits, exactly dstsz−1 characters when it does not. |
| Text.SafeStrcpyBounded | src/utils.c:34-35 | Copying into a buffer of size at least 1 leaves at most dstsz−1 characters. |
| Text.NatToDecOfDecValue | src/utils.c:17 | Canonical decimal text, with no leading zero, is the printed form of its own value. |
| Text.DecValueOfNatToDec | src/utils.c:17 | Reading printed decimal text gives the number back. |
| Text.AtoiOfNatToDec | src/main_raygui.c:66 | `atoi` reads back a printed non-negative int that is followed by a non-digit. |
| Text.AtoiOfNonNumeric | src/main_raygui.c:66 | Text that starts with no space, sign or digit reads as 0. |
| Text.SplitJoin | src/export.c:10-13 | Splitting a joined list gives the list back when no piece holds the separator. |
| Text.PadRight | src/tui.c:89 | "%-ws" keeps the text whole, pads it with spaces to width w, and never truncates. |
| Ordinals.Inc | src/scan.c:55 | `++` on a 32-bit unsigned value gives the successor. 0xFFFFFFFF wraps to 0. |
| Ordinals.RangeStep | src/scan.c:55 | The loop from lo to hi visits lo, then continues from ++lo. |
| Ordinals.RangeOrdered | src/scan.c:55 | A range holds exactly the values between its ends. Each occurs once, in ascending order. |
| Ipv4.ParseQuadText | src/utils.c:6 | Parsing the printed octets gives them back. |
| Ipv4.QuadTextOfParse | src/utils.c:6 | Accepted dotted text is canonical: printing the parsed octets reproduces it. |
| Ipv4.InetAddrFacts | src/utils.c:6-7 | The only dotted text that `inet_addr` maps to INADDR_NONE is "255.255.255.255". On success the byte swap of its value is the host-order ordinal. |
| Ipv4.ByteSwapNetworkValue | src/utils.c:10 | `ntohl` maps the network-order value to the host-order ordinal, and `htonl` maps it back. |
| Ipv4.QuadOfHostValue | src/utils.c:10 | The host-order ordinal's bytes, most significant first, are the octets as written. |
| Ipv4.IpToUint | src/utils.c:5-12 | Succeeds exactly on dotted-decimal text, with the host-order value. "255.255.255.255" succeeds with 0xFFFFFFFF despite the INADDR_NONE sentinel. Failure returns nothing to write. |
| Ipv4.IpToUintOfFormat | src/utils.c:5-20 | For every 32-bit ordinal o, ip_to_uint(uint_to_ip(o)) == o. |
| Ipv4.FormatOfIpToUint | src/utils.c:5-20 | Every accepted text is the canonical printing of its ordinal. |
| Ipv4.FormatIpInjective | src/utils.c:14-20 | Distinct ordinals print as distinct texts. |
| Ipv4.FormatIpLength | src/utils.c:14-18 | An address text has 7 to 15 characters, so a 16-byte buffer holds it. |
| Ipv4.UintToIp | src/utils.c:14-20 | The buffer never exceeds buflen−1 characters. With room, it holds the canonical text. In a buffer of 15 bytes or fewer it holds that text cut to buflen−1 characters. It becomes empty when `inet_ntoa` fails and buflen > 0. buflen 0 leaves it unchanged. |
| Subnet.BlockBounds | src/net.c:139-142 | Every address of the block lies between the network and the broadcast address. |
| Subnet.UsableRange | src/net.c:139-146 | start ≤ end exactly for prefixes up to /30, plus the two wrapping /32 cases. |
| Subnet.PointToPointRange | src/net.c:139-146 | A /31 gives start = end + 1. |
| Subnet.HostRouteRange | src/net.c:139-146 | A /32 gives start = end + 2 modulo 2^32. The range reads as non-empty only for 0.0.0.0 and 255.255.255.255. |
| Subnet.MaskLowBits | src/net.c:139 | The prefix is at most 30 iff the mask leaves the two low bits free. /31 and /32 give 0xFFFFFFFE and 0xFFFFFFFF. |
| Subnet.MaskPrefixLength | src/main_raygui.c:156 | The bit-counting loop returns the popcount of the mask. It returns 0 exactly for mask 0. |
| Subnet.PopcountOfMask | src/main_raygui.c:156 | The popcount of the mask built for prefix p is p, which inverts the mask construction. |
| Subnet.FirstUsableFrom | src/net.c:130-154 | Finds the first adapter that is up with an IPv4 unicast address, in list order. |
| Subnet.FirstV4 | src/net.c:133-151 | The first IPv4 entry of an adapter's unicast list. |
| Subnet.PrimarySubnet | src/net.c:122-157 | A subnet exists iff some adapter is up with an IPv4 address. It is the block of the first such address, read in host order. A failed adapter query gives none. |
| DeviceLists.Init | src/list.c:4-6 | A valid list with no items and capacity 0. |
| DeviceLists.Clear | src/list.c:8-11 | The result is the initial list, whatever the input. |
| DeviceLists.ClearIdempotent | src/list.c:8-11 | Clearing twice equals clearing once. |
| DeviceLists.Grow | src/list.c:14-15 | Capacity 0 becomes 64. Otherwise the capacity doubles. It always increases. |
| DeviceLists.Push | src/list.c:13-21 | The push either appends exactly the record or, only when full with a failed allocation, changes nothing. The capacity grows only when full. Validity, count ≤ capacity with capacity 0 or 64·2^k, is kept. |
| DeviceLists.PushAppends | src/list.c:13-21 | A successful push puts the record at the old count and leaves earlier items alone. |
| DeviceLists.GrowKeepsPolicy | src/list.c:14-18 | Growth keeps the capacity of the form 0 or 64·2^k. |
| DeviceLists.GrownCapacityIsScaledPower | src/list.c:14-18 | Every positive capacity the policy reaches is 64·2^k. |
| DeviceLists.ScaledPowerIsGrownCapacity | src/list.c:14-18 | Every 64·2^k is reachable by the policy. |
| DeviceLists.PushAll | src/parallel_scan.c:116-118 | Pushing many records keeps validity and the old items. It adds at most one item per record. |
| DeviceLists.PushAllAppendsSubsequence | src/parallel_scan.c:116-118 | What repeated pushes add is an order-preserving subsequence of the records, since failed allocations drop records. |
| DeviceLists.PushAllExact | src/parallel_scan.c:116-118 | When every allocation succeeds, exactly the records are appended, in order. |
| Net.CRemBounds | src/net.c:95 | C's truncating % has a magnitude below the divisor and the sign of the dividend. |
| Net.TimevalOf | src/net.c:95 | tv_sec·1000 + tv_usec/1000 == ms, and \|tv_usec\| < 1 000 000. For ms ≥ 0 both parts are non-negative. |
| Net.PortOpenCases | src/net.c:90-105 | A port is open iff connect succeeds at once, or it would block and select reports it writable with SO_ERROR 0. Every other outcome is closed. |
| Net.OpenPortsOf | src/net.c:108-120 | Holds exactly the configured ports that connect, and no more of them than were configured. |
| Net.OpenPortsOfAppend | src/net.c:110-118 | The filter distributes over concatenation. |
| Net.OpenPortsOfOrder | src/net.c:110-118 | The i-th open port comes from position i or later of the configured list. |
| Net.NetScanPorts | src/net.c:108-120 | Returns the number of ports that connect. The open ports are appended after what the output already held, in configured order. Nothing is written when the output is null. |
| Net.ParseMacText | src/net.c:71 | The MAC text is 17 characters of two-digit uppercase hex joined by '-', and it parses back to the six bytes. |
| Net.MacTextInjective | src/net.c:71 | Distinct MAC addresses have distinct texts. |
| Net.NetGetMac | src/net.c:59-76 | Succeeds iff the address parses and ARP returns 6 bytes without error. Success writes the 17-character MAC text, cut to macsz−1 characters when it does not fit. Failure leaves the buffer unchanged. |
| Net.NetReverseDns | src/net.c:49-57 | Succeeds iff the address parses and the lookup gives a name. The name is then copied whole when it fits, and cut to exactly hostsz−1 characters when it does not. Any failure leaves the name empty. |
| Net.NetPing | src/net.c:16-47 | True iff ICMP is available, the address parses, and an echo reply arrives. |
| Scan.ScanConfigInit | src/scan.c:10-15 | The default ports are 22, 80, 443, 139, 445, 3389 in that order. The timeout is 500 ms. |
| Scan.DefaultConfigWellFormed | src/scan.c:10-15 | The default ports number 6, are distinct, and are valid TCP ports. |
| Scan.IdentifyDevice | src/scan.c:17-36 | `is_alive` is the ping result. A dead host makes only the ping probe and keeps its fields. A live host is probed by DNS, ARP, then each configured port. Its ports are the order-preserving open filter. Its log is Ping, DNS, MAC, Portas, Concluído; a dead host logs Ping, then "Ping falhou". No logger means no messages. |
| Scan.DeadHostStaysBlank | src/scan.c:19-35 | A host that does not answer the ping stays a blank record with only its address. |
| Scan.AddressText | src/scan.c:43 | The text written for an ordinal is `uint_to_ip`'s, and it parses back to the ordinal. |
| Scan.ScanBetween | src/scan.c:54-61 | Walking s..e appends one record per address in ascending order, and their logs in order. Nothing is appended when e < s. |
| Scan.ScanFrom | src/scan.c:55-61 | The loop from ip to hi appends the records of exactly that range. |
| Scan.ScanRange | src/scan.c:50-62 | An endpoint that fails to parse leaves the list unchanged. The list stays valid. |
| Scan.ScanRangeRecords | src/scan.c:50-62 | With both endpoints parsed, end < start appends nothing. Otherwise the records of start..end are appended in order, with their messages. |
| Scan.ScanRangeAddresses | src/scan.c:55-61 | The scan appends end−start+1 records, and record k holds the text of start+k. |
| Scan.ScanSubnet | src/scan.c:38-48 | Without a primary subnet nothing changes. The list stays valid. |
| Scan.ScanSubnetRecords | src/scan.c:38-48 | With a primary subnet, exactly the records of its usable range are appended, none when start > end. |
| ParallelScan.Idle | src/parallel_scan.c:28 | The zeroed state has no threads, no cancel, and an empty result list. |
| ParallelScan.Int32 | src/parallel_scan.c:86 | The cast to int keeps values in range and wraps the others to two's complement. |
| ParallelScan.WorkerCount | src/parallel_scan.c:84-89 | 2·hw capped at 64 for hw below 2^30. 16 when the cast to int gives 0 or a negative value. For 2^30 ≤ hw < 2^31 the int doubling wraps to a negative count. Never above 64, the size of the threads array. |
| ParallelScan.Start | src/parallel_scan.c:62-98 | While running, refused with nothing changed. Otherwise it resets the state: cursor at start, no cancel, empty results, rate limit 200, the config copied or defaulted. It succeeds iff network init succeeds, with WorkerCount threads and a log line. On failure it stays idle. |
| ParallelScan.Stop | src/parallel_scan.c:100-110 | No threads means nothing changes. Otherwise it sets cancel and zero threads. After it, is_running is false and the results are kept. |
| ParallelScan.StopThenStart | src/parallel_scan.c:62-110 | After a stop, a start with a working network is accepted and running. |
| ParallelScan.Snapshot | src/parallel_scan.c:112-120 | A null output stays null. Otherwise the output is a valid, order-preserving subsequence of the results. |
| ParallelScan.SnapshotCopies | src/parallel_scan.c:112-120 | When every allocation succeeds, the snapshot is an exact same-order copy. |
| ParallelScan.Elapsed | src/parallel_scan.c:39 | now − window start in 64-bit unsigned arithmetic, wrapping. |
| ParallelScan.RateTry | src/parallel_scan.c:37-44 | The window restarts after 1000 ms. A slot is granted only below the limit. The count stays within the limit. |
| ParallelScan.AtMostLimitPerWindow | src/parallel_scan.c:37-44 | Within one window, at most the limit of slots is granted, and the count equals the grants made. |
| ParallelScan.NewWindowGrants | src/parallel_scan.c:39-44 | Once the window has run out, a try succeeds and opens a new window with count 1. |
| ParallelScan.SameRecordAsSequential | src/parallel_scan.c:48-54 | A worker identifies an address exactly as the sequential scan does. Only the log prefix differs. |
| ParallelScan.Process | src/parallel_scan.c:48-57 | Pushes the identified record, and nothing else in the state changes. The engine's logger gets "Scanning <ip>" first. The identification messages go to the logger of src/scan.c, which is set separately: with only the engine's logger set, "Scanning <ip>" is the whole log. |
| ParallelScan.WorkerStep | src/parallel_scan.c:30-60 | At the top, a worker exits on cancel; otherwise it claims the cursor, advances it with wrap, and exits on a claim past the end. While waiting, it retries until granted or cancelled, then processes. Range, configuration and thread count never change, and the engine stays sound. |
| ParallelScan.WorkersKeepRunningFlag | src/parallel_scan.c:122-124 | No worker step changes is_running. It does not turn false when the work runs out. |
| ParallelScan.CancelDuringWaitStillProcesses | src/parallel_scan.c:45-57 | Cancel seen during the wait leaves only the wait. The claimed address is still identified and appended. |
| ParallelScan.Claims | src/parallel_scan.c:34 | k claims from cursor c return c, c+1, … modulo 2^32. |
| ParallelScan.Processed | src/parallel_scan.c:35 | The claims a worker goes on to process are exactly those not past the end. |
| ParallelScan.ClaimsCoverRange | src/parallel_scan.c:32-35 | Without cancel and before the cursor wraps, the processed claims are exactly start..end, each once, in order. |
| ParallelScan.Run | src/parallel_scan.c:30-60 | The started workers take turns in any order, one `worker_proc` turn at a time. Range, configuration, cancel flag and thread count stay as started, and a worker that has returned stays returned. |
| ParallelScan.RunTracks | src/parallel_scan.c:32-57 | While nobody cancels and every push allocates, any schedule keeps this invariant: the pushed records plus the waiting workers' claims are exactly the records of the addresses of the range claimed so far, and each returned worker was refused a claim past the end. |
| ParallelScan.RecorderIsVisitor | src/parallel_scan.c:48-54 | Address by address, the workers' records are the records `scan_range` makes. |
| ParallelScan.RunCoversRange | src/parallel_scan.c:30-98 | After `parallel_scan_start` with no cancel and every push allocating, once all workers have returned the results hold one record per address of start..end, each as the sequential scan makes it, as a multiset: any interleaving and any rate-limiter timing. |
| ParallelScan.ClaimWrapsToZero | src/parallel_scan.c:34-35 | Refused claims past 255.255.255.255 wrap the cursor to 0, which is not past the end. |
| Export.PortTexts | src/export.c:12 | One "%d" text per port, in order. |
| Export.PortsFieldIsJoin | src/export.c:11-13 | The ports field is the ports joined by ',', with no trailing comma, and empty when there are none. |
| Export.PortsFieldSplits | src/export.c:11-13 | Splitting a non-empty ports field at ',' gives back the port texts. |
| Export.RowSplitsIntoFields | src/export.c:10-13 | A row splits into exactly five ';' fields iff ip, hostname and mac hold no ';'. Those five are ip, hostname, mac, UP/DOWN and the ports field. |
| Export.RowLines | src/export.c:8-14 | One row per record, in list order. |
| Export.BodyIsJoin | src/export.c:8-15 | The body is each row followed by a newline. |
| Export.ExportTextIsJoin | src/export.c:7-15 | The text is the header "IP;Hostname;MAC;Status;Ports" and the rows, each ended by a newline. |
| Export.ExportLines | src/export.c:7-15 | Without newlines in the fields, the text has count+1 lines: the header, then one row per record. |
| Export.ExportResults | src/export.c:4-18 | Returns 0 with nothing written iff the file cannot be opened. Otherwise it returns 1 and writes the export text: the header line, then one line per record. |
| RangeParse.LeftPart | src/main_raygui.c:63-65 | The text before the separator, cut to the buffer. |
| RangeParse.ParseCidr | src/main_raygui.c:61-78 | Succeeds iff atoi of the prefix is in 0..32 and the base parses. On failure only the start buffer is written. |
| RangeParse.CidrBlock | src/main_raygui.c:68-77 | On success, start is the network address and end the broadcast address, inclusive. |
| RangeParse.CidrParses | src/main_raygui.c:60-77 | Every address and prefix written as "A.B.C.D/nn" parses as its whole block. |
| RangeParse.CidrBadPrefix | src/main_raygui.c:66-67 | A prefix outside 0..32 fails and leaves the end buffer unchanged. |
| RangeParse.ParseDash | src/main_raygui.c:80-99 | The start is the text before '-'. A dotless right side needs a '.' in the start. The end buffer is written only on success. |
| RangeParse.DashEndVerbatim | src/main_raygui.c:96-98 | A right side holding '.' is copied to the end unchecked. |
| RangeParse.DashEndSpliced | src/main_raygui.c:88-95 | A dotless right side replaces what follows the start's last '.'. |
| RangeParse.ParseRange | src/main_raygui.c:54-100 | Input with neither '/' nor '-' fails with both buffers unchanged. A failure never writes the end. |
| RangeParse.SlashFirst | src/main_raygui.c:60-61 | A '/' anywhere makes the text CIDR, even after a '-'. |
| RangeParse.DashSecond | src/main_raygui.c:80-81 | Without '/', the first '-' splits the range. |
| RangeParse.DashLastOctet | src/main_raygui.c:87-95 | "A.B.C.D-E" gives end = the start text up to its last '.', followed by E. |
| RangeParse.DashFullEnd | src/main_raygui.c:96-99 | "A.B.C.D-E.F.G.H" returns both sides as written, without validating them. |
| RangeParse.CidrText | src/main_raygui.c:157 | The "%s/%d" text of a subnet fits the 64-byte box. |
| RangeParse.SubnetText | src/main_raygui.c:154-157 | The subnet text fits the 64-byte box. |
| RangeParse.TypedRange | src/main_raygui.c:169-171 | The typed range is used only when both ends parse and e ≥ s. |
| RangeParse.ScanButton | src/main_raygui.c:149-181 | "LAN only" with a subnet rewrites the box. While scanning, nothing launches. Otherwise it launches the typed range when valid, or else the subnet's usable range. With neither, it logs "Invalid IP range" and does not scan. |
| RangeParse.CidrTypedRange | src/main_raygui.c:157-171 | The CIDR text of a network address is read back as its whole block. |
| RangeParse.LanOnlyScansWholeBlock | src/main_raygui.c:150-172 | With "LAN only" and a primary subnet, Scan launches network..broadcast inclusive. |
| RangeParse.SubnetTextRange | src/main_raygui.c:154-171 | The subnet text, whose prefix is the popcount of the mask, reads back as the block. |
| GuiLog.Initial | src/main_raygui.c:41-43 | Status "Ready", 256 empty slots, count 0. |
| GuiLog.Log | src/main_raygui.c:44-52 | A null message only empties the status. Otherwise the status is the message cut to 127 characters, slot count mod 256 gets it cut to 159, and the count increases. Other slots are untouched. |
| GuiLog.ClearLog | src/main_raygui.c:185 | The count returns to 0 and nothing is shown. The slots keep their text. |
| GuiLog.Shown | src/main_raygui.c:363-370 | The panel shows min(count, 256) lines, slots 0 onward in slot order. |
| GuiLog.LatestInEachSlot | src/main_raygui.c:44-52 | After n messages, the count grew by n and the status is the last message. Each of the last 256 messages sits in slot (count + j) mod 256. Slots no message reached are untouched. |
| GuiLog.ClearThenLogShowsInOrder | src/main_raygui.c:44-52 | After Clear Log (line 185) and up to 256 messages, the panel (lines 366-370) lists them in logging order, each cut to 159 characters. |
| GuiLog.FullRingShowsEverySlot | src/main_raygui.c:363-370 | From 256 messages on, all 256 slots are shown. |
| Tui.MoveUp | src/main.c:110-116 | Above the first result, sel decreases by one and scroll snaps to it when needed. At sel 0 nothing changes. |
| Tui.MoveDown | src/main.c:117-124 | Before the last result, sel increases and scroll advances by at most one. At the last result nothing changes. |
| Tui.HandleKey | src/main.c:52-130 | F1/F2 replace the results and keep the cursor. Only the arrows move the cursor. Escape, 'q' and 'Q' end the loop; other keys keep it running. |
| Tui.ArrowsKeepOnScreen | src/main.c:110-124 | With area_h ≥ 1, both arrows keep scroll ≤ sel < scroll + area_h. |
| Tui.ArrowsStayInResults | src/main.c:110-124 | An arrow never moves a selection that names a result off the results. |
| Tui.CursorAlwaysOnScreen | src/main.c:46-130 | From an on-screen cursor, for example sel = scroll = 0 from `tui_init`, any keys and scans keep the selection on screen. |
| Tui.RunStopsAtQuit | src/main.c:125-130 | The `while (running)` loop of line 46 is still running iff no quitting key has been pressed. |
| Tui.VisibleWindow | src/tui.c:74-79 | The drawn indices are exactly [scroll, min(scroll + height − 7, count)), ascending. |
| Tui.RowText | src/tui.c:89 | The line starts with the marker and fits the 1024-byte buffer. |
| Tui.OrPlaceholder | src/tui.c:89 | A host name or MAC shows as it is. When empty it shows as the placeholder: "(desconhecido)" for the host name, "--" for the MAC. The column is never blank. |
| Tui.PortsTextIsJoin | src/tui.c:83-88 | The ports text is the ports joined by single spaces, with no leading or trailing space, cut to 255 characters. |
| Tui.Line | src/tui.c:89 | The written line starts with the row's marker and fits the 1024-byte buffer. |
| Tui.PortsLine | src/tui.c:91-96 | "Ports: …" is written iff the result has open ports, and it fits the 300-byte buffer. |
| Tui.PortsLineIsJoin | src/tui.c:83-96 | The "Ports: " text lists the open ports separated by single spaces. |
| Tui.DrawRow | src/tui.c:82-89 | The row of result i is marked '>' iff i is the selected index, and ' ' otherwise. |
| Tui.Draw | src/tui.c:72-97 | One row per visible index, in order, from console row 3, each showing the result at its index. |
| Tui.SelectionMarkedOnce | src/tui.c:79-89 | With an on-screen selection, exactly the selected row's line starts with '>', and that row is drawn. |

## Left out

- Every Win32 and Winsock call is an outcome parameter, as listed at the top: ICMP, DNS, ARP, sockets, adapters, threads, ticks, `fopen` and file writes.
- `inet_addr` accepts octal, hexadecimal and short forms ("10.1", "0x7f.1"). Only canonical four-octet dotted decimal is modelled.
- `inet_ntoa` is taken to succeed inside the scans (`Scan.AddressText`), in `RangeParse.ParseCidr`, which prints the network and broadcast addresses, and in `RangeParse.CidrText` and `RangeParse.SubnetText`, which print the subnet's network address. `Ipv4.UintToIp` still models its NULL case.
- Concurrency in src/parallel_scan.c is left out: threads, Interlocked operations, the critical section, the 5-second wait in stop, `Sleep`, and the unsynchronised update of the rate window. Claims and pushes are sequential steps.
- `open_ports[32]` in `DeviceInfo` is not bounded. The default configuration has 6 ports.
- Scan.ScanRange: excludes an end address of 255.255.255.255, because the source loop never ends there.
- Scan.ScanSubnet: excludes a usable range ending at 255.255.255.255, for the same reason.
- ParallelScan.RunCoversRange: the end of the range, or the start of an empty one, must lie at least the worker count below 255.255.255.255. Past that, refused claims can wrap the cursor to 0 and rescan (`ParallelScan.ClaimWrapsToZero`). The lemma also assumes no stop, every push allocating, a processor count from 1 to 2^30 − 1, and a schedule after which every worker has returned. It does not show that every schedule gets there.
- Scan.ScanBetween: assumes every push allocates. Failed allocations are modelled by DeviceLists.Push and ParallelScan.Snapshot. The members built on it inherit this assumption: Scan.ScanFrom, Scan.ScanRange, Scan.ScanRangeRecords, Scan.ScanRangeAddresses, Scan.ScanSubnet and Scan.ScanSubnetRecords.
- Text.Truncate: counts characters where the source counts bytes, so multi-byte text such as "Concluído" is cut by length in characters.
- GuiLog.Log: `g_logCount` is unbounded and does not overflow at 2^31.
- Tui.HandleKey: the scanned records are a parameter. The console height is read once at start-up, as `tui_init` does. F3 pings and F4 resolves an address read from stdin; F5 writes results.txt through `export_results_to_file` (`Export.ExportResults`). None of them changes the cursor, the results or the running flag, and their console input and output are not modelled.
- Tui.Draw: requires a non-negative scroll offset. Every reachable cursor has one.
- The raygui status bar, its "Done. Devices: n" alive count, the results table that shows only live hosts, and the Quick Tools Ping/DNS/Ports buttons are UI text and are not modelled.
- The Auto-range button writes the same "%s/%d" text as "LAN only". That text is `RangeParse.SubnetText`, and the button itself is not modelled.
- src/main_gacui.cpp, drawing, theming and the column layout are not part of this model.
- `scan.h` declares `scan_subnet` and `scan_range` as returning `int`. The model follows the `void` definitions in src/scan.c.
