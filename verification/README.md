# A verified model of arping

arping finds out which host on the local network owns an IPv4 address: it sends ARP requests, listens for replies in
timed windows, and reports round-trip times, lost probes and duplicate owners. This project models that program and
proves what its behaviour amounts to over whole runs.

## What is modelled

- **A ping session** (`Session.dfy`, `SessionInvariants.dfy`, `SessionTheorems.dfy`, `Endings.dfy`, `Program.dfy`). The
  environment of a run is data: every clock reading (and whether it failed), every SIGINT, every outcome of `select`,
  every captured frame, every failure to send. A run is a function of that data, cut off wherever the data ends, so a
  statement about all runs is a statement about all reachable states. `Program.Arping` holds the file-level variables and
  updates them in place, with the loops of the source; its methods are proved to compute exactly the session's functions.
  Beside the program's variables a run keeps a record of what it did (probes, windows opened and closed, batches
  dispatched, replies, silences), and the theorems say what the variables and the printed marks have to do with it.
- **Time** (`Clock.dfy`, `Timing.dfy`, `Deadline.dfy`). Seconds and nanoseconds are kept apart, with the borrow that
  `fixup_timespec` makes and without the carry that it does not make. How long windows last, how soon they close, and
  what `-w` promises.
- **The closing report** (`Statistics.dfy`, `Report.dfy`). Streaming statistics, the function `sqrt` of the program, and
  the unit scaling of `ts2str`, over the reals.
- **ARP frames** (`Arp.dfy`), **MAC addresses as text** (`MacText.dfy`), **option conflicts** (`Options.dfy`).
- **Interface selection** (`Interfaces.dfy`), on machines of either byte order.
- **libnet contexts** (`Libnet.dfy`), with a ghost account of live and freed memory, and **the checksum fold**
  (`Checksum.dfy`).

## Conventions

`long` and `time_t` have 64 bits; `unsigned int` counters wrap at 2^32 (`Ints.U32`); `double` is `real`. Times are
nanoseconds, and a working `gettimeofday` delivers whole microseconds. A *steady* run is one whose clock works and never
steps back, and whose `select` does not time out early. A *prompt* run is one whose `select` returns no later than asked
and in which at most a given *lag* passes before the next reading. The *delay* of a window is the time between the reading
that `wait_time` makes and the one from which `ping_recv` counts. C operations without a defined result are outcomes of
their own: reading the unassigned `ans` in `sqrt` is `Unassigned`, overflowing an `int` there is `OutOfRange`.

## Where the code does not do what its texts say

- `ping_recv` is said to listen for `packetwait` microseconds. Its end time is not carried, so a window can close early by
  what its nanoseconds exceed a second (`Timing.ShortWindow`); this happens for exactly the starts described by
  `Timing.ListensFullyIff`. `Clock.TimevalsNormalisedIff` says when `select` is given a second or more of microseconds,
  which happens also when the nanoseconds come to just a second.
- `-w` is said to end the program after a time. A window can outlast the deadline by the fraction of a second in `-W`
  and by the delay (`Deadline.GrantedWindowEnds`), and no window outlasts any deadline exactly when both are zero
  (`Deadline.DeadlineKeptIff`). `Deadline.LateRun` is a run with `-W 1 -w 2` that closes its window after the deadline by
  all of the delay. `-w 0` and `-W 0` stop after one probe (`Deadline.NoTimeIff`).
- `sqrt` is commented as the floor of the root. It returns an unassigned variable for 0 < x < 1, which is what the printed
  standard deviation is computed from whenever unequal round trips lie within two seconds (`Report.DeviationUnassigned`).
- `stats_min_time` uses a negative value for "no sample": the reported minimum is right under the exact condition in
  `Statistics.MinRightIff`, which a steady run meets. `SessionTheorems.WrongMinimum` is a run whose clock steps back
  after the probe: of round trips of -1 and 5 seconds it reports 5 as the least.
- The length check in `pingip_recv` does not count the 22 bytes that the receiver skips (`Arp.DecidedByCaptureIff`).
- Duplicate detection compares neighbours only and skips the comparison when the counter has wrapped to zero; it is
  exact for up to 2^32 replies and not beyond (`SessionTheorems.DupExactIff`). In the runs of
  `SessionTheorems.MissedDuplicate` a second host answers and is not noticed; batches of three frames are enough for one
  (`SessionTheorems.MissedInSmallBatches`).
- When every matching interface has mask 0, and only then, `arping_lookupdev` returns whatever its static buffer held
  (`Interfaces.BufferKeptIff`, and `Interfaces.UnmaskedMatch` for one such interface).
- `get_mac_addr` ignores whatever follows an address, and takes fields of any length (`MacText.ParsesIff`).
- A failed `libnet_init` closes descriptor 0 if it never came to open a link. Descriptors are conserved over a sequence
  of calls exactly if no attempt fails at `libnet_select_device` (`Libnet.DescriptorsConservedIff`); if both attempts of
  a call do, it opens nothing and closes descriptor 0 twice (`Libnet.ClosedUnopened`).

## Model

| member | source | states |
|---|---|---|
| Clock.FixupTimespec | arping.c:1193-1200 | terminates, keeps the instant, repairs negative nanoseconds and leaves others, even above a second |
| Clock.GuardIffClockMovedBack | arping.c:1257-1263 | the "clock moved back" guard fires on exactly the readings before the start of the window |
| Clock.LastTurnIff | arping.c:1233-1263 | a turn is the last iff its reading precedes the start of the window or is past its end, compared by seconds first; then select waits for nothing |
| Clock.ClockMovedBackEnds | arping.c:1252-1263 | after the clock was set back before the window, the turn waits for nothing and is the last |
| Clock.EndIsExact | arping.c:1218-1221 | the end of the window is its start plus its microseconds, though not carried |
| Clock.PlanIsExact | arping.c:1218-1276 | select is asked to wait for exactly what is left of the window, to the nanosecond |
| Clock.ExpiredEarlyByCarry | arping.c:1246-1250 | a turn judged past the end is early by at most the carry |
| Clock.UnexpiredIsInTime | arping.c:1246-1250 | a turn not judged past the end is not past it |
| Clock.TimevalsNormalisedIff | arping.c:1219-1276 | select gets a proper timeval at every reading iff the window is under a second or the nanoseconds of its end are below a second |
| Arp.AcceptsIffBytes | arping.c:957-1025 | the verdict byte for byte: which bytes of the capture must hold what, and which are the MAC of the replying host |
| Arp.AcceptsIffReplyFromTarget | arping.c:964-1028 | a captured packet is accepted iff its fields are those of an Ethernet/IPv4 ARP reply from the target (and, with -A, from the known MAC); the Ethernet source is recovered |
| Arp.ProbeBytes | arping.c:882-919 | the probe byte for byte: sender, the address asked for, the target hardware address, the opcode, the padding |
| Arp.ProbeRoundTrip | arping.c:882-919 | a probe is accepted by a peer pinging its source iff it was sent with -P (and -A agrees), and its MAC is recovered |
| Arp.DecidedByCaptureIff | arping.c:957-1025 | the verdict, and the MAC of an accepted frame, depend on captured bytes only, iff the capture is shorter than 42 or has at least 54 bytes |
| Statistics.MaxRightIff | arping.c:692-694 | the streamed maximum is the maximum iff some sample is at least -1 |
| Statistics.MinHolds | arping.c:689-691 | the streamed minimum is the last sample if negative, else the least since the last negative one |
| Statistics.MinRightIff | arping.c:689-691 | the streamed minimum is the minimum iff no sample is negative, or the last is negative and least |
| Statistics.CollectDescribesIff | arping.c:686-697 | all four statistics are right of their samples, exactly when |
| Statistics.ReportSound | arping.c:1895-1904 | avg is the mean and min <= avg <= max; the radicand is the variance, lies in [0, (max-avg)(avg-min)], and is 0 iff all samples are equal |
| Report.Sqrt | arping.c:169-197 | for every real: terminates with the floor of the root for 0 and 1 <= x < 2^31-1, unassigned for other x < 1 in int range, out of range otherwise; start + end never overflows before that |
| Report.SqrtMeans | arping.c:169-197 | what is returned for every real, in numbers: 0 for 0, the integer v with v^2 <= x < (v+1)^2 for 1 <= x < 2147483647, and no value otherwise |
| Report.DeviationUnassigned | arping.c:1902-1903 | unequal round trips less than two seconds apart always print the unassigned variable |
| Report.Ts2Str | arping.c:737-771 | terminates; every arm of the switch denotes the same duration; the mantissa is in its unit's range |
| Report.UnitsMean | arping.c:750-769 | what the printed units stand for |
| Program.Arping.UpdateStats | arping.c:686-697 | updates the four statistics in place and nothing else |
| Program.Arping.Passes | arping.c:969-1028 | the checks of pingip_recv, as the acceptance predicate |
| Program.Arping.PingIpRecv | arping.c:949-1089 | changes the variables exactly as the session function for one arrival |
| Program.Arping.OnSelect | arping.c:1282-1338 | the switch on the outcome of select, as the session function |
| Program.Arping.TakeTurn | arping.c:1231-1338 | one pass through the loop: the time left, the early return of a dying program, the reaction, and whether it is the last |
| Program.Arping.PingRecv | arping.c:1205-1339 | the receive loop computes the session function for one window |
| Program.Arping.PingIpSend | arping.c:871-942 | counts the probe even when sending failed, and takes its time |
| Program.Arping.WaitTimeNow | arping.c:711-730 | reads the clock only with a deadline; grants WaitTime |
| Program.Arping.RunPings | arping.c:1850-1912 | the main loop computes the session function for a run, and its exit code |
| SessionInvariants.DispatchRecords | arping.c:949-1089 | a batch adds exactly its accepted replies to the record, in order, timed against the last probe |
| SessionInvariants.OnReadyKeeps | arping.c:1320-1337 | a batch is dispatched below the reply limit only, so that the excess is less than its size |
| SessionInvariants.OnTimeoutKeeps | arping.c:1283-1304 | a timeout reports silence iff its window holds no reply, and keeps the invariant |
| SessionInvariants.TurnsKeep | arping.c:1231-1338 | every window keeps the invariant between variables and record, and the reply limit |
| SessionInvariants.PingKeeps | arping.c:1850-1866 | the same for every run: counters, statistics, duplicate flag, last MAC, marks, grants, limits; the excess over the reply limit is less than the last batch dispatched |
| Endings.WindowRecords | arping.c:1231-1338 | a window goes on exactly through the turns that give it no reason to end, is killed exactly at the first turn that finds the program dying, and records exactly the batches until then and the replies in them |
| SessionTheorems.LimitsHold | arping.c:1085-1088 | in every run: each batch was dispatched below the reply limit; the excess is less than the last batch; once the limit is reached nothing follows but the rest of that batch and the closing of its window; numsent <= count, and <= 3 for -d without -c |
| SessionTheorems.DupExactIff | arping.c:1077-1083 | neighbour comparison finds every duplicate among n replies iff n <= 2^32 |
| SessionTheorems.MissedDuplicate | arping.c:1077-1083 | for every n > 2^32, however n frames are split into batches of which the last begins below the reply limit, the run records n replies, of two hosts, and its flag is not set |
| SessionTheorems.MissedInSmallBatches | arping.c:1077-1088 | there is such a split with the default limit and no batch of more than three frames |
| SessionTheorems.WrongMinimum | arping.c:686-691 | a run whose clock steps back after the probe reports 5 as the least of -1 and 5 |
| SessionTheorems.ExitCodeMeans | arping.c:1908-1912 | of every run: with -d the exit code is 1 if two hosts answered and else 0 (up to 2^32 replies); otherwise it is 1 if the reply count is 0 mod 2^32 and else 0 |
| Endings.FaultyTurnKills | arping.c:1231-1338 | a window that comes to a turn with a signal, or with a failure of the clock, of select, or of the clock in the callback, dies |
| Endings.FaultsStop | arping.c:882-941 | a signal before a round leaves it out; a failure to send, of the clock anywhere in the round, or of select makes its round the last |
| Endings.FailedStart | arping.c:1850-1858 | with -w, a clock failure when the deadline is set ends the run before any probe |
| Endings.DispatchSendsNothing | arping.c:962 | a batch with a clock failure makes the program die, and no batch sends anything |
| Endings.ReactDies | arping.c:1282-1338 | what select brings makes the program die exactly by a failure, or by the reply that reaches the limit |
| Endings.CalmRunEnds | arping.c:1858-1866 | when no signal comes and nothing that is used fails, the program dies exactly at the reply limit; if it ends otherwise short of its probes (3 for -d without -c), wait_time granted nothing after the last one sent, and something after each before it |
| SessionTheorems.OneKindPerWindow | arping.c:1283-1304 | between two probes the marks are all replies, or one silence |
| SessionTheorems.MarksConserved | arping.c:1038-1041 | with -D: as many '!' as accepted replies; dots plus answered windows <= windows <= numsent |
| SessionTheorems.ClosingReport | arping.c:1886-1904 | the closing statistics of every steady run are least, mean and greatest round trip, and the variance under the root; the deviation is unassigned unless spread or equal |
| Deadline.DeadlineHolds | arping.c:1850-1866 | in every steady run each window, from where ping_recv starts it, ends by the deadline plus the fraction in packetWait plus its delay; a probe at or after the deadline is the last |
| Deadline.WindowsCloseByDeadline | arping.c:1850-1866 | in every prompt run every window has closed by the deadline plus the fraction in packetWait plus two lags |
| Deadline.LateRun | arping.c:1219-1221 | with -W 1 and -w 2, every delay under a second makes a steady run whose window closes after the deadline by all of it |
| Timing.WindowLasts | arping.c:1205-1339 | under a steady clock a window neither killed nor failed stays open for its time less the carry |
| Timing.WindowClosesBy | arping.c:1205-1339 | if select is prompt, a window that closes does so by its nominal end plus one lag |
| Timing.ListensFullyIff | arping.c:1219-1221 | every steady run of a window takes its full time iff the nanoseconds of its end do not exceed a second |
| Timing.ShortWindow | arping.c:1246-1250 | for every window whose end exceeds a second there is a steady run that closes early by all of the carry |
| Timing.WindowEndsWhenSetBack | arping.c:1252-1263 | a window closes at the latest at its first turn whose reading precedes its start, and no later turn matters |
| Timing.WindowCloses | arping.c:1231-1338 | if the clock moves, the receive loop ends within w + 2 turns, whatever select returns |
| Timing.StuckClock | arping.c:1305-1313 | if the clock stands still, no number of EINTRs ends it |
| Timing.RunFinishes | arping.c:1858-1866 | the whole run finishes if the clock moves |
| Deadline.GrantedWindowEnds | arping.c:722-729 | every granted window, from where ping_recv starts it, ends by the deadline plus the fraction of a second in packetWait plus the delay |
| Deadline.GrantedInFull | arping.c:715-729 | without a deadline all of packetWait is granted; a granted window is all of packetWait or, but for the delay, ends within a microsecond before the deadline |
| Deadline.OutlastsIff | arping.c:722-729 | a window outlasts the deadline iff the time left is less than packetWait and the delay together (more than whole seconds left), or the delay exceeds what truncation cut off (otherwise) |
| Deadline.DeadlineKeptIff | arping.c:722-729 | no window outlasts any deadline iff packetWait is a whole number of seconds and the delay is zero |
| Deadline.NoTimeIff | arping.c:722-729 | exactly when wait_time grants nothing and the main loop stops |
| Deadline.RoundsTimely | arping.c:1858-1866 | under a steady clock no reply precedes its probe, and a late probe ends the run |
| MacText.GetMacAddr | arping.c:660-681 | writes the parsed address, or leaves the output untouched |
| MacText.ParsesIff | arping.c:660-681 | the accepted language: the text begins with six hex fields joined by colons or by dashes, or with three dotted groups of at least three digits, whatever follows |
| MacText.DigitValues | arping.c:660-681 | which characters are hexadecimal digits, and what each is worth, in either case |
| MacText.SpellingsParse | arping.c:660-681 | every address parses from its spellings in two-digit bytes with colons, dashes or dots, in upper, lower or mixed case |
| MacText.FormatMacPrints | arping.c:497-502 | what format_mac prints, character by character |
| MacText.JoinedParses | arping.c:663-679 | six hex fields of any length joined by ':' or '-' parse to their values mod 256 |
| MacText.GroupsParse | arping.c:665 | three dotted groups parse to two digits and the rest of each, mod 256 |
| MacText.RoundTrip | arping.c:497-502 | parsing what format_mac prints is the identity; all three spellings parse to the address |
| MacText.IsMacAddr | arping.c:615-653 | recognises the two shapes, or any colon |
| MacText.ShapedParses | arping.c:615-681 | what is recognised by shape, without a colon, can be parsed |
| MacText.ColonParsedIsClassified | arping.c:650-664 | what the colon format parses is recognised |
| MacText.DottedQuadIsNoMac | arping.c:615-653 | no dotted IPv4 address is taken for a MAC address |
| MacText.SpellingsAreClassified | arping.c:615-653 | the three spellings of every address are recognised |
| Interfaces.Finder.LookupDev | findif_getifaddrs.c:69-121 | names the first match of greatest mask; NULL iff nothing matches; the buffer is untouched iff no match has a nonzero mask |
| Interfaces.BufferKeptIff | findif_getifaddrs.c:93-121 | a result is returned and the buffer kept iff something matches and every match has an all-zero mask |
| Interfaces.UnmaskedMatch | findif_getifaddrs.c:93-121 | one interface without a mask matches every target and leaves the buffer as it was |
| Interfaces.MatchMeans | findif_getifaddrs.c:73-95 | an entry counts iff it is up, named, neither loopback nor point-to-point, AF_INET with a mask, and agrees with the target in every bit of the mask |
| Interfaces.CutMeans | findif_getifaddrs.c:98-99 | a name under 16 characters is returned whole, a longer one as its first 15 |
| Interfaces.NetworkOrder | findif_getifaddrs.c:97 | on either machine the first byte in memory is the most significant after ntohl |
| Interfaces.FirstBitDecides | findif_getifaddrs.c:97 | masks, contiguous or not, compare by their first differing bit |
| Interfaces.MatchInHostOrder | findif_getifaddrs.c:93 | comparing under a mask in network order is comparing in host order |
| Interfaces.LongerIsGreater | findif_getifaddrs.c:97 | comparing contiguous masks after ntohl is comparing prefix lengths |
| Interfaces.BestIsLongestPrefix | findif_getifaddrs.c:93-102 | the chosen entry is the longest-prefix match, and its prefix lies in that of every other match |
| Libnet.ClearPacket | libnet_init_custom.c:118-142 | frees each buffer and node once, in order, reads no freed node, resets two fields only |
| Libnet.Destroy | libnet_init_custom.c:102-116 | closes the descriptor once and frees all that the context owns, once |
| Libnet.LibnetInit | libnet_init_custom.c:10-100 | returns a whole new context with its device name, or leaves nothing live behind; with LIBNET_LINK it fails iff malloc, the choice of a device or opening it does |
| Libnet.ContextOwner.DoLibnetInit | arping.c:424-467 | at most two attempts, the second for "lo"; nothing leaks; the descriptors closed are that of the superseded context and those of failed attempts; returns normally without recursion only with a context, for link injection on the device asked for; every earlier context destroyed once |
| Libnet.ContextOwner.InitAll | arping.c:1562-1738 | over any sequence of calls at most one context is alive, and exactly the descriptors of superseded contexts and of failed attempts have been closed |
| Libnet.DescriptorsAccounted | libnet_init_custom.c:36-116 | over any sequence of calls, what is closed and what is in use is what openings put in a context, each once, and a descriptor 0 for each attempt that fails at libnet_select_device |
| Libnet.DescriptorsConservedIff | libnet_init_custom.c:56-107 | every opened descriptor is closed once or in use, and nothing else is closed, iff no attempt made fails at libnet_select_device |
| Libnet.ClosedUnopened | libnet_init_custom.c:56-107 | one call whose two attempts fail there opens nothing and closes descriptor 0 twice |
| Options.Parse | arping.c:1399-1545 | the getopt loop and the conflict checks compute the flags' verdict |
| Options.FlagsMean | arping.c:1486-1503 | PINGMAC only by -T, PINGIP only by -t or -U, no mode iff none of them |
| Options.RejectedIff | arping.c:1534-1545 | a conflict is reported iff -T occurs with -t, -U or -B |
| Options.AcceptedInAnyOrder | arping.c:1486-1545 | the verdict, and the mode and the conflict flags of an accepted command line, do not depend on order |
| Checksum.MacroIsLoop | libnet/libnet-macros.h:134-135 | for every 32-bit x the macro is the RFC 1071 loop, and congruent to -x mod 65535 |
| Checksum.RefoldIsZero | libnet/libnet-macros.h:134-135 | adding the checksum back, without overflow, makes the refold 0 |
| Checksum.MessageVerifies | libnet/libnet-macros.h:134-135 | a message that carries its checksum anywhere verifies |

## Left out

- MacText.JoinedParses: fields above 2^32 - 1 have no defined sscanf result in C; the model takes their value mod 256 too.
- Leading blanks, signs and `0x` in MAC text: the scanner takes hexadecimal digits and literal characters only.
- VLAN tags, and pinging by MAC: the source says that neither is meant to run on this platform, and the latter repeats the counting logic.
- Options other than -B, -t, -T and -U. Those that set the display (-q, -D, -r, -R) or the source address (-0, -b, -S) overwrite one another, so their order matters.
- What `libnet_open_link` does with a descriptor before it fails: the model takes what it leaves in the context.
- All output but the marks of `-D`; `printf` rounding; beeps; the verbose mode's additional clock readings.
- Floating-point rounding.
- Exits before the loop: `pcap` and privilege errors, unresolvable names, `-h`, bad arguments of `-i`, `-Q`, `-V`, and a capture without a selectable descriptor.
- The bodies of libnet's builders, libpcap, `select`, `getifaddrs` and the resolver: they are outcomes of the environment. A device name chosen by `libnet_select_device` is not modelled.
- `get_mac.c`: calls into a platform library only.
- The unreachable `libent_destory(libnet)` after the final return: the last context is never destroyed.
