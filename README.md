# TcpDumper core in Dafny

TcpDumper is a terminal UI with four modes: pinger, tcpdumper, scanner and interface. This
project models the logic behind those modes that is not operating-system I/O:

- the dotted-address conversions `IPv4ToVector` and `VectorToIpv4`, together with the parts
  of `std::getline`, `std::stoi` and `std::to_string` they rely on;
- the `inet_pton`/`inet_ntop` mapping between dotted text and four bytes, and the loopback
  rule of `GetIPv4Address`;
- the 42-byte Ethernet II + ARP request that `send_arp_request` builds in a zero-initialised
  `struct arp_packet`. Its layout follows the "Packet format" section of RFC 826, with
  multi-byte fields in network byte order;
- `receive_arp_replies`: the classifier that keeps only ARP replies, the
  `"<ip>\n<MAC>"` entry it renders, and the de-duplicating insert into `active_hosts`;
- `arp_scan`: the local address cut to its /24 prefix and one request per host 1 to 254;
- the per-frame state of the `TcpDump`, `Scanner` and `Ping` screens: buttons, paging and
  scroll counters, the windows of lines they draw, and the rewriting of `ping` output.

Modules and files:

| file | module | models |
|---|---|---|
| wrappers.dfy | `Wrappers` | `Option` and `Result` |
| decimal.dfy | `Decimal` | `std::to_string` and `std::stoi` on C++ `int` |
| getline.dfy | `Getline` | `std::getline` with a delimiter, and joining pieces back |
| dottedquad.dfy | `DottedQuad` | `IPv4ToVector`, `VectorToIpv4` |
| inet.dfy | `Inet` | `inet_pton`, `inet_ntop`, the address pick of `GetIPv4Address` |
| arpframe.dfy | `ArpFrame` | `struct arp_packet`, `send_arp_request`, the reply test, MAC text |
| hostregistry.dfy | `HostRegistry` | `active_hosts` and the receive loop |
| subnetscan.dfy | `SubnetScan` | `arp_scan` |
| tcpdumpview.dfy | `TcpDumpView` | `TcpDump` |
| scannerview.dfy | `ScannerView` | `Scanner` |
| pingview.dfy | `PingView` | `Ping` and `IpAddressPicker` |

State the source keeps in `static` locals or globals becomes a class with those fields:
`TcpDumpView.TcpDump`, `ScannerView.Scanner`, `PingView.Ping` and `HostRegistry.HostList`.
Each button press or frame step is a method, and each method states the whole new state.
Loops in the source stay loops. Each is proved against a specification function:

- `Split` for the `getline` loops;
- `ParseIpv4` and `FormatDotted` for the address conversions;
- `Encode(RequestPacket(...))` for the frame built in an `array<byte>`;
- `Inserted` and `AbsorbAll` for the host list;
- `Window` and `Shown` for the text the screens hand to `ImGui::Text`/`TextWrapped`.

The properties the source relies on are proved about those functions. Among them:

- `IPv4ToVector(VectorToIpv4(v)) == v`;
- `inet_pton(inet_ntop(a)) == a`, and `inet_pton` accepts only canonical text;
- parsing a frame undoes encoding it, and encoding a parsed frame undoes parsing it;
- the program's own requests are never taken for replies;
- the MAC text reads back as the MAC, and equal entries mean equal (IP, MAC) pairs;
- the host list keeps its earlier entries, never holds a duplicate, and holds only entries
  that came from replies;
- the sweep targets exactly hosts 1 to 254 of the local /24 network;
- the paging stays within the captured lines.

The following become inputs:

- what `GetIPv4Address` and `get_mac_address` return;
- whether the socket opened;
- the text `readOutput` returns;
- whether `waitpid` reports that the child exited;
- the buffers `recv` delivers.

Behaviour of the code a reader may not expect, which the model follows:

- START on the scanner screen does not clear `active_hosts`. Hosts from an earlier scan stay
  listed (`ScannerView.Scanner.Start` leaves the registry alone).
- A `tcpdump` line split across two reads is stored as two lines, because every
  `readOutput` chunk is split on its own (`TcpDumpView.TcpDump.Poll`).
- A line of `ping` output with exactly three characters is kept. Index 3 is then the
  string's terminating NUL, not `'b'`.
- The comment at main.cpp:419 speaks of a spoofed sender IP, but the code writes the real
  local address into the sender field (`ArpFrame.BuildArpRequest` stores `PtonOrZero(localIp)`).
- The comment at main.cpp:452 names the 192.168.0.0/24 subnet, but the code sweeps the /24
  network of the local address (`SubnetScan.SweepPrefix`).

## Model

| member | source | states |
|---|---|---|
| Decimal.IntToString | main.cpp:314 | `std::to_string`: a '-' exactly for negative values, otherwise only digits, ending in a digit |
| Decimal.DigitsOf | main.cpp:314 | the decimal digits of a natural number: never empty; a leading '0' only for 0; one digit exactly below 10 |
| Decimal.Stoi | main.cpp:305 | blank text, or text starting with neither white space, sign nor digit, is `invalid_argument` |
| Decimal.StoiLeadingDigits | main.cpp:305 | text starting with a digit reads as the value of its leading digits, whatever follows; `out_of_range` exactly when that exceeds `INT_MAX` |
| Decimal.StoiIntToString | main.cpp:305 | `std::stoi` reads back every `int` that `std::to_string` renders |
| Decimal.DigitsOfValue | main.cpp:305 | a canonical digit string (no leading zero) is the rendering of its own value |
| Getline.IndexOf | main.cpp:304 | the first delimiter position, or the length when there is none; no delimiter before it |
| Getline.Split | main.cpp:304 | the pieces `getline` yields: none holds the delimiter; there are none exactly for empty text |
| Getline.GetLine | main.cpp:304 | one `getline` call succeeds iff unread text remains; its piece is the next piece of the split, and the cursor moves past it |
| Getline.ReadAll | main.cpp:234-238 | the pieces a `while (getline(...))` loop collects are exactly `Split` of the text |
| Getline.SplitJoin | main.cpp:299-318 | splitting the dot-join of delimiter-free pieces (the last non-empty) gives the pieces back |
| Getline.JoinSplit | main.cpp:299-318 | joining the pieces of a split gives the text back, except a final delimiter, which no piece ends with |
| Getline.SplitTerminated | main.cpp:168-180 | splitting newline-terminated lines gives the lines back, empty lines included |
| Getline.CountOfJoin | main.cpp:311-318 | the join of n delimiter-free pieces holds exactly n - 1 delimiters |
| DottedQuad.Ipv4ToVector | main.cpp:299-309 | the loop yields `stoi` of every dot-separated piece, or the error of the first piece `stoi` rejects |
| DottedQuad.VectorToIpv4 | main.cpp:311-318 | appending `to_string(i) + "."` per element and dropping the last character gives the dot-join of the decimals |
| DottedQuad.ParseFormatRoundTrip | main.cpp:299-318 | `IPv4ToVector(VectorToIpv4(v)) == v` for every non-empty vector of `int` |
| DottedQuad.FormatDottedShape | main.cpp:311-318 | the result holds \|v\| - 1 dots and ends in a digit: `pop_back` removed only the trailing dot |
| Inet.ParseDecOctet | main.cpp:418-421 | an octet `inet_pton` accepts is the canonical decimal text of its value |
| Inet.InetPton | main.cpp:418-421 | accepted text gives exactly four bytes |
| Inet.InetNtop | main.cpp:283-285 | `inet_ntop` of four bytes: 7 to 15 characters (it fits `INET_ADDRSTRLEN`), three dots, no newline |
| Inet.PtonNtop | main.cpp:285-290 | `inet_pton` reads back every address `inet_ntop` renders |
| Inet.NtopPton | main.cpp:418-421 | whatever `inet_pton` accepts is exactly what `inet_ntop` renders for the result |
| Inet.GetIpv4Address | main.cpp:269-297 | the scan returns the first address not starting with "127.", or "" |
| Inet.FirstNonLoopbackIsFirst | main.cpp:288-291 | "" exactly when every address is loopback; otherwise the first non-loopback address |
| ArpFrame.Be16 | main.cpp:409-415 | `htons`: two bytes, high byte first, that read back as the value |
| ArpFrame.Encode | main.cpp:342-345 | an encoded `struct arp_packet` is 42 bytes |
| ArpFrame.FrameLayout | main.cpp:342-345 | each field of the packet sits at its fixed offset of the frame |
| ArpFrame.ParseEncode | main.cpp:371-374 | reading a transmitted frame through the `ethhdr`/`ether_arp` casts gives the packet back |
| ArpFrame.Parse | main.cpp:371-375 | the `ethhdr`/`ether_arp` casts only reinterpret: the packet read is well formed and re-encodes to the buffer's first 42 bytes |
| ArpFrame.PtonOrZero | main.cpp:418-421 | the four address bytes after `inet_pton` into a zeroed field: the address, or zeros on failure |
| ArpFrame.Store | main.cpp:407-416 | `memcpy`/`memset` into the packet: the bytes at the offset are replaced, all others unchanged |
| ArpFrame.PtonInto | main.cpp:418-421 | `inet_pton` into the packet writes four bytes on success and nothing on failure |
| ArpFrame.BuildArpRequest | main.cpp:403-424 | the packet built field by field in place is the encoding of the broadcast request from `srcMac` and the local address for the target |
| ArpFrame.RequestLayout | main.cpp:403-424 | request frame bytes: broadcast destination; MAC at 6-11 and 22-27; EtherType 0x0806; hardware type 1; protocol 0x0800; lengths 6 and 4; op 1; addresses at 28 and 38; target MAC zero |
| ArpFrame.HexByte | main.cpp:380-383 | `%02X`: two characters, uppercase hexadecimal digits, that read back as the byte |
| ArpFrame.FormatMac | main.cpp:380-383 | the `%02X:...` text is 17 characters, splits at the colons into the six `%02X` groups, and holds no newline |
| ArpFrame.MacRoundTrip | main.cpp:380-383 | the MAC text is 17 characters of six colon-separated pairs and reads back as the MAC |
| ArpFrame.Entry | main.cpp:378-387 | the entry `sender_ip + "\n" + sender_mac` is 25 to 33 characters and holds exactly one newline |
| ArpFrame.EntryRoundTrip | main.cpp:378-386 | the host entry `ip + "\n" + mac` reads back as the (IP, MAC) pair |
| ArpFrame.EntryInjective | main.cpp:386-396 | two entries are equal iff their IPs and MACs are equal, so de-duplicating entries de-duplicates pairs |
| ArpFrame.ReplyEntry | main.cpp:369-387 | a buffer is kept iff bytes 12-13 are 0x0806 and bytes 20-21 are 2; the entry is the sender IP (bytes 28-31) and sender MAC (bytes 22-27) as text |
| ArpFrame.RequestIgnored | main.cpp:374-376 | a request this program sends is never taken for a reply |
| ArpFrame.ReplyAccepted | main.cpp:374-387 | an encoded ARP reply is kept, and its entry reads back as its sender addresses |
| HostRegistry.Find | main.cpp:387-393 | the `found` scan is true iff an equal entry is listed |
| HostRegistry.HostList.constructor | main.cpp:338 | the host list starts empty |
| HostRegistry.HostList.Insert | main.cpp:385-396 | the list after the insert is `Inserted`: unchanged when the entry is present, else the entry appended |
| HostRegistry.HostList.Receive | main.cpp:368-397 | one pass of the receive loop: empty buffers and non-replies change nothing; a reply's entry is inserted |
| HostRegistry.HostList.ReceiveAll | main.cpp:366-399 | the list after the loop is `AbsorbAll` of the buffers in arrival order |
| HostRegistry.InsertedSpec | main.cpp:385-396 | a present entry leaves the list unchanged; a new one is appended, earlier entries keep their places; the members are the old ones plus the entry |
| HostRegistry.InsertedNoDuplicates | main.cpp:385-396 | the insert keeps a duplicate-free list duplicate-free |
| HostRegistry.InsertTwice | main.cpp:385-396 | inserting the same entry twice is inserting it once, and it is listed exactly once |
| HostRegistry.AbsorbAllSpec | main.cpp:366-399 | the receive loop keeps earlier entries in place, never lists a host twice, lists the entry of every received reply, and lists nothing else |
| HostRegistry.AbsorbAllKeeps | main.cpp:366-399 | the receive loop only appends |
| HostRegistry.AbsorbAllComplete | main.cpp:374-396 | after the loop, the entry of every received reply is listed |
| HostRegistry.AbsorbAllNoDuplicates | main.cpp:366-399 | the receive loop never lists a host twice |
| HostRegistry.AbsorbAllOrigin | main.cpp:366-399 | every listed entry was listed before or is the entry of a received reply |
| HostRegistry.AbsorbAllIgnoresNonReplies | main.cpp:368-376 | buffers that are empty or not ARP replies leave the list unchanged |
| SubnetScan.SweepRequest | main.cpp:449-456 | each request of the sweep is one 42-byte frame |
| SubnetScan.SendRequest | main.cpp:454-455 | one pass builds the request for `ip_str + "." + to_string(i)` |
| SubnetScan.SweepFramesAt | main.cpp:453-456 | among the first n requests, request k is for host number k + 1 |
| SubnetScan.Sweep | main.cpp:449-456 | 254 frames; frame k is the request for host number k + 1 behind the prefix |
| SubnetScan.ArpScan | main.cpp:428-458 | `ScanOutcome`: no MAC: error; local address `stoi` fails: that error; fewer than two numbers: error; otherwise success with exactly the 254 requests for prefix.1 to prefix.254, in order |
| SubnetScan.ScanOutcomeUnique | main.cpp:428-458 | the outcome is determined by the inputs: at most one result meets `ScanOutcome` |
| SubnetScan.SweepCoversSubnet | main.cpp:447-456 | for a local address a, target k parses to a with its last byte replaced by k, for every k in 1..254 |
| SubnetScan.SweepFrame | main.cpp:447-456 | the frame sent for host k asks, from the local address and MAC, for that address with its last byte replaced by k |
| TcpDumpView.WindowInBounds | main.cpp:248-249 | under the page invariant the window lies within the lines, spans at most 17, and is non-empty when there are lines |
| TcpDumpView.LastPageReachesEnd | main.cpp:218-220 | when DN is refused, the current page already ends at the last line |
| TcpDumpView.ClipShowsTail | main.cpp:252-256 | a drawn line is never empty: " " once scrolled past its end, else the line from the scroll column on |
| TcpDumpView.RenderPage | main.cpp:248-257 | the drawing loop shows end - start lines, at most 17, line j clipped at the scroll column |
| TcpDumpView.AppendLines | main.cpp:233-238 | the `getline` loop appends exactly the split of the chunk |
| TcpDumpView.TcpDump.constructor | main.cpp:189-193 | nothing runs, no lines, page and scroll 0 |
| TcpDumpView.TcpDump.Go | main.cpp:196-202 | GO starts a capture only when none runs, clearing lines and page; a running capture is untouched |
| TcpDumpView.TcpDump.Stop | main.cpp:204-210 | STOP ends the capture and keeps the lines, page and scroll |
| TcpDumpView.TcpDump.Up | main.cpp:212-214 | UP decrements the page only when it is positive |
| TcpDumpView.TcpDump.Down | main.cpp:218-220 | DN increments the page only when the next page starts inside the lines, so the page invariant holds |
| TcpDumpView.TcpDump.Left | main.cpp:222-224 | "<" decrements the scroll only when it is positive |
| TcpDumpView.TcpDump.Right | main.cpp:228-230 | ">" increments the scroll with no upper bound |
| TcpDumpView.TcpDump.Poll | main.cpp:231-246 | a running capture appends the split of its output; it stops running when it exited; the page is unchanged |
| TcpDumpView.TcpDump.Render | main.cpp:248-257 | the lines this frame hands to `ImGui::Text`, as `RenderPage` |
| ScannerView.Window | main.cpp:493-495 | the visited hosts: at most 4, consecutive from `scroll`, starting at `hosts[scroll]` when it exists, cut only by the end |
| ScannerView.RenderHosts | main.cpp:491-496 | the text block is every host of the window followed by a newline |
| ScannerView.RenderedNewlines | main.cpp:491-496 | a block of n entries holds 2n newlines |
| ScannerView.Scanner.constructor | main.cpp:462 | scroll 0, no listener |
| ScannerView.Scanner.Start | main.cpp:463-467 | START scans exactly when no listener runs and the socket opened, and returns the scan's outcome (`ScanOutcome`); the listener runs iff the scan succeeded, and then `sent` holds the 254 requests |
| ScannerView.Scanner.Stop | main.cpp:469-476 | STOP leaves the listener stopped |
| ScannerView.Scanner.Left | main.cpp:478-480 | "<" decrements the scroll only when it is positive |
| ScannerView.Scanner.Right | main.cpp:484-486 | ">" increments the scroll with no upper bound |
| ScannerView.Scanner.Render | main.cpp:491-496 | the text block this frame hands to `ImGui::TextWrapped`, as `RenderHosts` |
| PingView.RewriteLine | main.cpp:173-179 | an empty line stays empty; the result is "OK" iff index 3 holds 'b' or the line already is "OK"; otherwise the line is kept |
| PingView.AppendRewritten | main.cpp:173-179 | one loop pass appends the rewritten line and a newline |
| PingView.Filter | main.cpp:168-180 | the shown text is every output line rewritten and newline-terminated |
| PingView.ShownLines | main.cpp:168-181 | the shown text has one line per output line, in order, each the rewrite of its original |
| PingView.FilterIdempotent | main.cpp:168-180 | filtering the shown text again changes nothing |
| PingView.ReplyLineExample | main.cpp:175-176 | a `64 bytes from ...` reply line shows as "OK"; a statistics line is kept |
| PingView.PingTargetDotted | main.cpp:150-153 | the concatenated `to_string` target is the dotted form of the four picker values |
| PingView.Ping.constructor | main.cpp:144-146 | the picker starts at 192.168.0.1, no run, nothing collected |
| PingView.Ping.Bump | main.cpp:106-141 | a picker button adds +1 or -1 to one of the four values and changes nothing else |
| PingView.Ping.Press | main.cpp:148-157 | PING starts a run against the dotted picker address and clears the output, only when no run is active |
| PingView.Ping.Poll | main.cpp:158-167 | a running ping appends its output and stops running when it exited |
| PingView.Ping.Render | main.cpp:168-181 | the text this frame hands to `ImGui::TextWrapped`, as `Filter` of the collected output |

## Left out

- `Execute`, the `Subprocess` class and `Interface`: pipes, `fork`/`execvp`, non-blocking
  reads, `waitpid` and `kill` are process I/O. Their results (the output text and whether
  the child exited) are parameters of the `Poll` methods.
- `getifaddrs`, `ioctl(SIOCGIFHWADDR)`, `socket`, `if_nametoindex`, `sendto` and `recv`:
  system calls. Their results are inputs (address list, MAC, socket opened, buffers).
- `ArpFrame.BuildArpRequest`: takes the local address as one input, where the source calls
  `GetIPv4Address()` again for each of the 254 requests; the model assumes every call
  returns the same address.
- The listener thread, `host_mutex` and `arp_listening_thread_running` as shared flag:
  concurrency. The receive loop is modelled as a sequential pass over the buffers in
  arrival order, separate from the sweep that sends requests.
- `HostRegistry.HostList.Receive`: requires a non-empty buffer to hold at least 42 bytes.
  For a shorter one the source reads stale bytes of its 64 KiB buffer, which depend on
  earlier receives.
- `SubnetScan.ArpScan`: reports as errors two cases where the source does something else.
  A local address with fewer than two numbers is undefined behaviour in the source
  (`pop_back` on an empty vector, or `VectorToIpv4` of an empty one). A `std::stoi`
  exception escapes `Scanner` after the listening flag is already set, which ends the
  program. Neither case is modelled further.
- `ScannerView.Scanner.Stop`: does not model the `close` of the STOP handler. That handler
  closes a local `sock` that is uninitialised in that frame.
- `ScannerView.Scanner.Stop`: does not model `detach` and `delete` of the thread.
- `DottedQuad.VectorToIpv4`: requires a non-empty vector, because `pop_back` on the empty
  result is undefined.
- `PingView.RewriteLine`: keeps a line of one or two characters; in the source, reading
  index 3 of such a line is out of bounds.
- `PingView.Ping.Bump`: requires the value to stay within C++ `int`; signed overflow is
  undefined.
- The picker's `size() != 4` throw: the picker always holds exactly four values
  (`PingView.Ping.Valid`). The `%03d` text it draws is not modelled.
- All ImGui/ImTui drawing, the mode menu, `PacketGenerator` and `main`: UI glue. The model
  returns the text each screen hands to `ImGui::Text`/`TextWrapped` (`Render`, `RenderPage`,
  `RenderHosts`, `Filter`), not what ImGui then draws. The page/scroll counter labels are
  not modelled.
- `PingView.Ping.Render`: returns the text passed to `ImGui::TextWrapped` (main.cpp:181),
  which uses it as a printf format string. A `%` in it, as in ping's "0% packet loss"
  line, is read as a conversion, so the screen does not show that text as built.
- `TcpDumpView.TcpDump.Render`: returns the lines passed to `ImGui::Text` (main.cpp:255),
  which uses each as a printf format string; a `%` in a captured line is not drawn as is.
- `ScannerView.Scanner.Render`: returns the block passed to `ImGui::TextWrapped`
  (main.cpp:496) as a format string; host entries contain no `%`, so here the block is
  drawn as built.
- `TcpDumpView.TcpDump.Right`: increments an unbounded integer; the source's `int`
  `hor_scroll++` has undefined behaviour past `INT_MAX`.
- `ScannerView.Scanner.Right`: increments an unbounded integer; the source's `int`
  `scroll++` has undefined behaviour past `INT_MAX`.
- Text is `seq<char>` with one `char` per byte of a `std::string`. The source's `line[3]`
  (main.cpp:175) and `c_str() + hor_scroll` (main.cpp:255) are byte offsets, the model's
  `line[3]` and `line[hor..]` (`PingView.RewriteLine`, `TcpDumpView.Clip`) character
  offsets; they agree for the ASCII output of `ping` and `tcpdump -ntl`.
- `Decimal.Stoi`: models base-10 `std::stoi` on ASCII text. Locale-dependent white space
  is not modelled.
