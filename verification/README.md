# Proofs about the alarm-clock firmware

The firmware runs on a small board with a two-line display. It keeps a clock with an alarm and three
buttons, fetches an info object and a list of news titles over HTTP/1.0 from a proxy on the local
network, and shows the date that belongs to the proxy's epoch. This project models its C sources in
Dafny and proves what they promise.

`dafny verify dfyconfig.toml` checks everything.

## What is proved

**Calendar** (`Calendar.dfy`). `EpochToDateTime` has the firmware's loops. The reference is the
opposite direction, "Seconds Since the Epoch" in section 4.16 of the Base Definitions of IEEE Std
1003.1-2017. The last year is a parameter `cap`, 2100 in the firmware. The date leads back to the
epoch if and only if `0 <= epoch < EndOfYear(cap)`; beyond that both clamps act and the date is
exactly 31 days early. Every valid date comes from exactly one epoch, dates are ordered as epochs
are, the weekday is that of Appendix B of RFC 3339, and the next epoch's date is the one-second
carry.

**Alarm** (`AlarmSpec.dfy`, `AlarmClock.dfy`, `AlarmRuns.dfy`, `AlarmWitness.dfy`). The class
`AlarmClock` has the file-level variables of `alarm.c` and the functions that assign them. Each method
is tied to a function of the state and to the list of states between its assignments, so that the
theorems about all runs and all statement boundaries are theorems about the class. The auto-mute and
snooze lengths and the alarm time are parameters. Two runs with the firmware's own values show that the
exceptions in the theorems are real: a ring that is muted at the alarm time and rings on, and
an alarm that is lost at its own alarm time although it was never disabled. `TickTable` says what a
tick makes of every flag and counter without following the order of the five functions, and
`NothingUnasked` and `RingEnds` say what alone can begin or end a ring or a snooze.

**Text from the network** (`CText.dfy`, `Json.dfy`, `JsonReader.dfy`, `HttpReceive.dfy`,
`InfoScanner.dfy`, `InfoRoundTrip.dfy`, `NewsScanner.dfy`, `NewsRoundTrip.dfy`). The receive loop depends on the bytes of
the stream and not on how they were cut. The two `strstr` scanners are proved against a JSON printer:
in printed JSON (section 7 of RFC 8259) the text `"name":` occurs only at a member whose name is that
name, or ends in a quote and that name, whatever the strings and the other names contain. So the
scanners recover what was printed, cut to their fields. The printer in turn is held against a reader
written from the grammar of RFC 8259: every document reads back from its printed form. What the
scanners make of other layouts, and of texts that break off, is stated on the texts themselves.

**Threads** (`Snapshot.dfy`, `Startup.dfy`, `Locks.dfy`). State machines whose steps interleave in any
order; a step that is not enabled changes nothing, so a run is any sequence of steps. Snapshots of the
shared struct linearize byte-wise writes and reads, the start-up semaphore conserves its tokens, the
info thread owns `http_mutex` through download and parse, and no set of threads can wait in a circle.
That things also happen is stated beside it: a round of lock, copies and unlock takes a snapshot, the
three threads start when all wait, and from every reachable state every path can be finished.

**Joined** (`DateScreen.dfy`, `EndToEnd.dfy`). The date screen shows no date until a body with an epoch
has been parsed. However a response is cut, the date on the display is that of the epoch
the proxy printed, no snapshot mixes two objects, and a tick of the alarm's clock is the next epoch.

## Assumptions

- A mutex has at most one owner; a lock waits while it is owned, and a lock with a timeout may give up.
- The semaphore holds at most one token. A give goes straight to the waiting thread of highest
  priority (the Wi-Fi thread, then first come), else it raises the count, else it is lost. A take with
  a token in the count does not wait.
- Steps are sequentially consistent, on one core: one step is one assignment in the alarm's traces, one
  byte in the snapshot machine, one lock, unlock or download in the mutex machine.
- A byte of text is a `char`; `int` and `long` are unbounded. Where the 32-bit range matters a theorem
  says that it is kept: `EpochComesBack` for the digit loop, `FirmwareRange` for the calendar.
- `recv` is a sequence of pieces of any non-zero length, which includes the firmware's at most 255
  bytes. A timeout, an error and a closed connection all end the sequence. Pins are arbitrary samples,
  one triple a tick.

## Where code and comment differ

`exsamene/src/networking_config_news.c:209` says that a request succeeds only if the full content was
received. The code also reports success when the connection breaks inside the header
(`BrokenHeaderSucceeds`: one byte is enough), and when no positive length is known.
`NewsResultByLength` gives the exact condition for every length that a header declares, right or
wrong, and `NewsResultWithoutLength` for streams without a length field. For NUL-free streams that fit the
buffer only those remain whose length is read out of the body (the header has no length field or a blank
one). There the result can depend on the cut: `LengthInBodyDependsOnCut` has one stream that fails
in one piece and succeeds in two.

`exsamene/src/wifi_connect.c:105` says that two gives let both waiting threads proceed. When the Wi-Fi
thread gets to its second give, they do exactly if one of the network threads has come by then; if neither
has, the second token is lost (`AdmittedExactly`). If the IPv4 event comes while only the network
threads wait, the first of them takes that token, the Wi-Fi thread never gives, and the other is never
admitted (`EarlyEventStarvesOne`).

An info download that breaks off inside the epoch is parsed and shown like a whole one, with the date of
the digits that came (`BrokenOffEndToEnd`); the info request reports success for any byte received.

The news scanner looks for `"title":`. The proxy prints one `"titles":` array, in which the
scanner finds nothing (`ProxyNewsShowsNothing`).

## Model

| member | source | states |
|---|---|---|
| Calendar.EpochToDateTime | exsamene/src/screen.c:202-237 | The loops end, for every epoch and cap, in the decomposition that the calendar theorems below are about |
| Calendar.LeapTestIsLeap | exsamene/src/screen.c:219-220 | The firmware's leap-year test is the Gregorian rule of RFC 3339, Appendix C |
| Calendar.MdaysAgree | exsamene/src/screen.c:227-232 | The month table with the February correction gives the Gregorian month lengths |
| Calendar.DaysBeforeYearClosed | exsamene/src/screen.c:216-225 | Summing year lengths from 1970 equals the closed form with the quotients by 4, 100 and 400 of the POSIX formula |
| Calendar.PeelYearsSplits | exsamene/src/screen.c:216-225 | The year loop conserves the day count and stops below the length of its year unless the cap stopped it |
| Calendar.PeelMonthsSplits | exsamene/src/screen.c:230-234 | The month loop conserves the day count within the year and stops below the length of its month |
| Calendar.RoundTrip | exsamene/src/screen.c:202-237 | Every epoch before the end of year `cap` yields a valid date and time whose POSIX seconds are that epoch |
| Calendar.BeyondCap | exsamene/src/screen.c:218-236 | From the end of year `cap` on, the clamps make the date read exactly 31 days early |
| Calendar.CapLeavesTime | exsamene/src/screen.c:209-214 | Past the cap hour, minute, second and weekday are still those of the true date, under 31 December or later of the last year |
| Calendar.BeforeEpoch | exsamene/src/screen.c:207 | Every epoch before 1970 reads as Thursday 1 January 1970, 00:00:00 |
| Calendar.RoundTripExactly | exsamene/src/screen.c:202-237 | The POSIX formula leads back to the epoch if and only if the epoch is not negative and before the end of year `cap` |
| Calendar.EveryDateOnce | exsamene/src/screen.c:202-237 | Every valid date and time up to `cap` is produced by its POSIX epoch and by no other in range |
| Calendar.ZellerCongruence | exsamene/src/screen.c:213-214 | Days since 1970 modulo 7 agree with the day-of-week computation of RFC 3339, Appendix B, for every date |
| Calendar.WeekdayIsZeller | exsamene/src/screen.c:213-236 | The weekday taken from the day count is the RFC 3339 weekday of the date that the loops find |
| Calendar.NextSecondIsOneSecond | exsamene/src/screen.c:209-236 | The calendar carry of one second keeps dates valid, is strictly later and adds one to the POSIX seconds |
| Calendar.SuccessorIsCarry | exsamene/src/screen.c:209-236 | The date of epoch + 1 is the one-second carry of the date of epoch, over minute, hour, day, month and year ends |
| Calendar.EpochOrderIsDateOrder | exsamene/src/screen.c:202-237 | One epoch is less than another exactly if its date is lexicographically earlier |
| Calendar.FirmwareRange | exsamene/src/screen.c:218 | With the cap 2100 the range ends at 4133980800, above every 32-bit `long` |
| AlarmClock.AlarmClock.UpdateClock | exsamene/src/alarm.c:68-74 | One second is added with carries in the order second, minute, hour, and each assignment is recorded |
| AlarmClock.AlarmClock.CheckAlarmTime | exsamene/src/alarm.c:80-91 | A ring starts only when enabled, neither ringing nor snoozed, and at the alarm time |
| AlarmClock.AlarmClock.UpdateSnooze | exsamene/src/alarm.c:97-107 | A snooze loses one second and turns into a new ring when none is left |
| AlarmClock.AlarmClock.UpdateAutoMute | exsamene/src/alarm.c:113-122 | A ring gains one second and ends at the auto-mute count |
| AlarmClock.AlarmClock.Snooze | exsamene/src/alarm.c:248-257 | Snoozing acts on a ring only, with the assignments in the source's order |
| AlarmClock.AlarmClock.Mute | exsamene/src/alarm.c:259-268 | Muting ends a ring or a snooze and clears both counters |
| AlarmClock.AlarmClock.ToggleEnabled | exsamene/src/alarm.c:270-280 | Disabling also ends ring and snooze; enabling changes nothing else |
| AlarmClock.AlarmClock.CheckButtons | exsamene/src/alarm.c:196-211 | A handler runs exactly on a fall from 1 to 0, in the order snooze, mute, enable, and the samples are remembered |
| AlarmClock.AlarmClock.Tick | exsamene/src/alarm.c:227-232 | One turn of the loop is clock, buttons, time check, snooze, auto-mute, with every intermediate state on record |
| AlarmClock.AlarmClock.Loop | exsamene/src/alarm.c:217-242 | After any button samples from boot, state, statement trace and handler runs are those of the run theorems |
| AlarmRuns.TickKeepsInvariant | exsamene/src/alarm.c:68-122 | A tick keeps: clock in range, never ringing and snoozed, disabled means neither, both counters strictly inside their bounds or 0 |
| AlarmRuns.EveryRunFromBoot | exsamene/src/alarm.c:217-242 | That invariant holds at every tick end of every run from boot |
| AlarmRuns.TickTable | exsamene/src/alarm.c:227-232 | Every flag and counter after a tick of an invariant state, by what the buttons leave of ring and snooze, by the counters and by the alarm time |
| AlarmRuns.NothingUnasked | exsamene/src/alarm.c:80-107 | In every run a snooze begins only with a press during a ring and goes on second by second, and a ring begins only at the alarm time of an enabled alarm or at the end of a snooze |
| AlarmRuns.RingEnds | exsamene/src/alarm.c:113-122 | In every run a ring ends only by a press or by its auto-mute count |
| AlarmRuns.TickTraceSafe | exsamene/src/alarm.c:68-122 | Between any two assignments of a tick at most one clock field is just past its range, and ringing and snoozed are never both true |
| AlarmRuns.EveryStatementBoundary | exsamene/src/alarm.c:286-290 | At every statement boundary of every run the clock text is `hh:mm:ss`, eight characters that show the three fields |
| AlarmRuns.RankStep | exsamene/src/alarm.c:97-122 | Without a press the time left to silence drops by exactly one a tick while it is positive |
| AlarmRuns.WindDown | exsamene/src/alarm.c:97-122 | Without presses the alarm is silent after exactly the seconds of snooze and ring left, even across the alarm time, and at most snooze - 1 + autoMute - 1 |
| AlarmRuns.SnoozeRingsAgain | exsamene/src/alarm.c:248-257 | A ring snoozed in any run and then left alone counts down second by second and begins anew exactly snooze - 1 ticks after the press |
| AlarmRuns.SnoozeRingsAgainFirmware | exsamene/src/alarm.c:15 | With the firmware's values the ring begins anew 299 ticks after the press and not before |
| AlarmRuns.RingStep | exsamene/src/alarm.c:84-122 | A ring that goes on counts one second up unless a mute press at the alarm time fires it again |
| AlarmRuns.RingBound | exsamene/src/alarm.c:113-121 | A ring seen at `autoMute` consecutive tick ends of any run was fired again after the first of them |
| AlarmRuns.NoLostAlarm | exsamene/src/alarm.c:80-122 | At a tick end on the alarm time with the alarm enabled, it is silent if and only if that very tick ended an old ring by auto-mute with no snooze or mute press |
| AlarmRuns.MuteSilences | exsamene/src/alarm.c:206-208 | A mute press in any run, whatever the other buttons do: silence, unless that tick ends at the alarm time with the alarm enabled, where the ring begins anew; so mute wins over snooze |
| AlarmRuns.UndisturbedRun | exsamene/src/alarm.c:227-232 | Without presses the clock is the tick count modulo a day, and the alarm rings for `autoMute` - 1 tick ends a day from the alarm time on |
| AlarmRuns.UndisturbedFirmware | exsamene/src/alarm.c:14-19 | With the firmware's values and released buttons the alarm rings exactly at tick counts 3 to 21 modulo 86400 |
| AlarmRuns.ButtonsLeaveClock | exsamene/src/alarm.c:227-232 | Buttons and alarm never move the clock |
| AlarmRuns.HandlerRunsPerFall | exsamene/src/alarm.c:196-211 | Over any samples each handler runs as often as 1 is directly followed by 0 on its pin, so a held button acts once |
| AlarmRuns.EnabledIsParity | exsamene/src/alarm.c:270-280 | In every run the alarm is enabled exactly if the enable pin has fallen an even number of times |
| AlarmWitness.RefireHappens | exsamene/src/alarm.c:227-232 | There is a run from boot in which a mute press at the alarm time lets the ring go on |
| AlarmWitness.LostAlarmHappens | exsamene/src/alarm.c:80-122 | There is a run from boot, with the enable button never pressed and the alarm enabled after every tick, that is silent at its own alarm time |
| CText.FindSkips | exsamene/src/networking_config_news.c:49 | Dropping text in which no occurrence starts moves the result of `strstr` by its length |
| CText.AtoiReadsDecimal | exsamene/src/network_config.c:156 | `atoi` reads a decimal numeral back to its number whatever non-digit follows |
| CText.AtoiReadsSigned | exsamene/src/network_config.c:156 | `atoi` skips the six white-space characters and takes one sign |
| CText.FindInPrefix | exsamene/src/network_config.c:41 | In a text that breaks off `strstr` finds the same occurrence if it is there whole, else nothing |
| HttpReceive.HttpBuffer.Append | exsamene/src/network_config.c:147-148 | The received piece follows the bytes received before, and the rest of the buffer stays zero |
| HttpReceive.HttpBuffer.Inspect | exsamene/src/network_config.c:150-166 | The length is taken once, when blank line and length field are both there, and the loop stops when header and body are complete |
| HttpReceive.HttpBuffer.ReceiveLoop | exsamene/src/network_config.c:131-167 | For any pieces of which every one the loop takes fits the buffer, the loop ends in the state and after the number of pieces that the framing theorems speak of |
| HttpReceive.HttpBuffer.ReadBody | exsamene/src/network_config.c:171-174 | The body is the text behind the first blank line, or there is none |
| HttpReceive.HttpBuffer.ReadNewsResult | exsamene/src/networking_config_news.c:209-215 | The result is that of the received bytes and length alone |
| HttpReceive.StepWithinResponse | exsamene/src/network_config.c:147-166 | Inside a response the state depends only on the number of bytes received, and the break test holds exactly once the header and as many bytes as it declares are there, whatever it declares |
| HttpReceive.ChunkIndependence | exsamene/src/network_config.c:122-174 | However a response that fits is cut, and whatever follows it, the loop stops exactly at its end with the whole response, its length and its body |
| HttpReceive.PartialResponse | exsamene/src/networking_config_news.c:151-192 | A response that breaks off is kept as far as it came, with no early stop and no half-read length |
| HttpReceive.PartialBody | exsamene/src/network_config.c:171-174 | Of a response that broke off, the body that came is handed on, or none if the header did not come whole |
| HttpReceive.LengthReadOnce | exsamene/src/network_config.c:150-160 | Once a length has been read, nothing received later changes it |
| HttpReceive.FirmwareBuffers | exsamene/src/wifi_connect.c:18 | Responses of up to 3071 bytes on `/info` and 5119 on `/news` are received whole |
| HttpReceive.FullBuffer | exsamene/src/network_config.c:131 | With 3071 or 5119 bytes in the buffer nothing more is read |
| HttpReceive.NewsResultByLength | exsamene/src/networking_config_news.c:209-215 | For any declared length v and any received part of a response, success is reported if and only if the part is not empty and v is not positive, or the header is incomplete, or v bytes of the body are there |
| HttpReceive.NewsResultExactly | exsamene/src/networking_config_news.c:209-215 | If the header declares the length of the body, success is reported if and only if the response is whole or broke off, not empty, inside the header or its blank line |
| HttpReceive.NewsResultWithoutLength | exsamene/src/networking_config_news.c:215 | Without a length field everything sent is received, and success is reported if and only if that is at least one byte |
| HttpReceive.BrokenHeaderSucceeds | exsamene/src/networking_config_news.c:209-215 | One byte of a header, without any body, is reported as success |
| HttpReceive.LengthInBodyDependsOnCut | exsamene/src/networking_config_news.c:181-190 | With a length field in the body only, the same bytes fail in one piece and succeed in two |
| HttpReceive.PlainResponseIsGood | exsamene/src/network_config.c:150-156 | Every body without NULs has a header under which the framing theorems apply |
| Json.EscapeSafe | python_proxi/proxi.py:323 | A printed string is printable ASCII and has each of its quotes behind a backslash |
| JsonReader.StringReadsBack | python_proxi/proxi.py:323 | Every string, of any characters, reads back from its printed form by section 7 of RFC 8259 |
| JsonReader.PrintReadsBack | python_proxi/proxi.py:323 | Every document reads back from its printed form by the grammar of RFC 8259 |
| Json.MatchInFirstToken | exsamene/src/network_config.c:41 | In printed JSON `"name":` matches inside a token if and only if the token is a member name that is name or ends in a quote and name, and then in one place |
| Json.EscapeAnswers | exsamene/src/network_config.c:41 | Whether a printed member name can be mistaken for the one searched is decided by the name before it is escaped |
| Json.FindFindsMember | exsamene/src/network_config.c:41-43 | `strstr` for `"name":` finds the first member whose name is name or ends in a quote and name, or nothing if there is none, whatever the strings contain |
| InfoScanner.InfoStore.CopySpan | exsamene/src/network_config.c:47-56 | Either copy loop writes the characters up to a stop character, the end or 31, one by one and nothing else |
| InfoScanner.InfoStore.ParseField | exsamene/src/network_config.c:40-58 | One table entry writes its scanned value and a NUL into its own field, or nothing when the key is missing |
| InfoScanner.InfoStore.ParseInfo | exsamene/src/network_config.c:25-62 | A parse is the table's byte writes in order, then the ready mark, and leaves the struct as those writes do |
| InfoScanner.InfoStore.GetSnapshot | exsamene/src/screen.c:110-118 | With the lock the copy is the whole struct; without it the copy stays as it was and the call fails |
| InfoScanner.ParseEffect | exsamene/src/network_config.c:40-61 | After a parse each field reads as its scanned text, or has not one byte changed if the body has no such member |
| InfoScanner.KeysByOffset | exsamene/src/network_config.c:27-36 | For every body: which of the seven keys decides about which 32 bytes of the struct, found or not |
| InfoScanner.ScanMember | exsamene/src/network_config.c:41-57 | Scanning a printed object for a name gives the value of the first member that `strstr` takes for it, to its first quote and cut to 31 characters |
| InfoScanner.ScanNoMember | exsamene/src/network_config.c:41-42 | A printed object in which no name is or ends in the quoted name yields nothing, whatever its strings contain |
| InfoScanner.ScanBareText | exsamene/src/network_config.c:45-56 | In any layout, a value without quotes ends at a comma, brace or blank, behind blanks and tabs, and is cut to 31 characters |
| InfoScanner.ScanQuotedText | exsamene/src/network_config.c:45-51 | In any layout, a quoted value ends at the next quote or the end of the text and is cut to 31 characters |
| InfoScanner.ScanFieldOfPrefix | exsamene/src/network_config.c:41-58 | From any text that breaks off, a field is scanned as what has come of its value, or not at all if its key is not there whole |
| InfoRoundTrip.ReadEpoch | exsamene/src/screen.c:252-255 | The digit loop ends in the number that the leading digits stand for and never computes a larger value on the way |
| InfoRoundTrip.FieldRoundTrip | python_proxi/proxi.py:295-323 | Each of the seven fields is scanned out of the proxy's object as the value printed there |
| InfoRoundTrip.StructHoldsObject | exsamene/src/network_config.c:25-62 | After a parse of the proxy's object the struct holds its values, whatever it held before |
| InfoRoundTrip.StructLayout | exsamene/src/network_config.h:13-22 | After a parse of the proxy's object the 225 bytes hold city, country, weather, temperature, latitude, longitude and epoch, 32 bytes each and in this order, and the mark |
| InfoRoundTrip.BodyReadsBack | python_proxi/proxi.py:295-323 | The body reads back, as JSON, to the proxy's object |
| InfoRoundTrip.PlainFieldComesBack | exsamene/src/network_config.c:25-62 | A string that needs no escape comes back unchanged, cut to 31 characters |
| InfoRoundTrip.EpochComesBack | exsamene/src/screen.c:252-255 | An epoch of at most 2147483647 is stored as its decimal digits, which read back to it without leaving 32 bits |
| InfoRoundTrip.ErrorBodyKeepsFields | python_proxi/proxi.py:333-336 | A body with only an error message changes none of the seven fields and still sets the ready mark |
| NewsScanner.NewsStore.CopyTitle | exsamene/src/networking_config_news.c:61-65 | A row receives the text up to a quote, the end or 79 characters, and the rows above it stay |
| NewsScanner.NewsStore.TakeTitle | exsamene/src/networking_config_news.c:52-66 | After `"title":` blanks and a quote are skipped, null gives no row, and the search resumes where the title left off |
| NewsScanner.NewsStore.ParseNewsTitles | exsamene/src/networking_config_news.c:39-78 | The rows on show are the first ten non-empty titles of the text, and ready says whether there is one |
| NewsScanner.CutQuotedText | exsamene/src/networking_config_news.c:53-66 | A quoted title in any layout, closed or not: its first 79 characters, and the search goes on behind its quote or inside it |
| NewsScanner.CutBareText | exsamene/src/networking_config_news.c:60-66 | A title without an opening quote is taken up to the next quote |
| NewsScanner.TitlesFit | exsamene/src/networking_config_news.c:48-73 | Never more than ten titles, each of 1 to 79 characters without quotes |
| NewsRoundTrip.ResumeInside | exsamene/src/networking_config_news.c:60-66 | A search resumed in the middle of a truncated title still finds exactly the titles behind it |
| NewsRoundTrip.ScanTokens | exsamene/src/networking_config_news.c:48-73 | From any well-formed printed stream the scanner takes the first non-empty titles in order |
| NewsRoundTrip.DocumentRoundTrip | exsamene/src/networking_config_news.c:39-78 | From any printed JSON tree, with any member names and strings, whose titles are strings or null, the titles come back in order, ten at most, each to its first quote and cut to 79 characters; a title is a member named title or whose name ends in a quote and title |
| NewsRoundTrip.MisleadingName | exsamene/src/networking_config_news.c:49 | A member whose name only ends in a quote and title is shown as a title |
| NewsRoundTrip.TitlesComeBack | exsamene/src/networking_config_news.c:39-78 | Titles without quotes and NULs, mixed with nulls and empty ones, come back as the first ten non-empty ones cut to 79 characters |
| NewsRoundTrip.ProxyNewsShowsNothing | python_proxi/proxi.py:189-193 | The proxy's news object has no row for the display, whatever its titles |
| Snapshot.StepKeepsInvariant | exsamene/src/network_config.c:38-61 | Every lock, byte write, byte copy and unlock keeps struct, owners, copy and earlier snapshots in agreement with whole parses |
| Snapshot.SnapshotsLinearize | exsamene/src/screen.c:110-118 | In every interleaving each snapshot is the struct after a whole number of parses, and that number never decreases |
| Snapshot.SnapshotIsCurrent | exsamene/src/screen.c:110-118 | A snapshot shows every parse completed before it and no part of a later one |
| Snapshot.RoundTakesSnapshot | exsamene/src/screen.c:110-118 | From every reachable state with the mutex free, a lock, 225 byte copies and an unlock add one snapshot of the parses done so far and change nothing else |
| Snapshot.RoundCompletesParse | exsamene/src/network_config.c:38-62 | From every reachable state with the mutex free, a lock, all byte writes and an unlock add one parse and change nothing else |
| Snapshot.SnapshotTerminated | exsamene/src/screen.c:252-255 | In every snapshot each field holds a NUL, so no reader runs past its end |
| Startup.ReadySemaphore.SemGive | exsamene/src/wifi_connect.c:17 | A give admits the waiter of highest priority, else raises the count to at most one, else is lost |
| Startup.ReadySemaphore.EventHandler | exsamene/src/wifi_connect.c:41-46 | The first IPv4 event gives once; later ones change nothing |
| Startup.ReadySemaphore.Schedule | exsamene/src/wifi_connect.c:98-107 | Any schedule of arrivals, timeouts, events and gives ends in the state that the start-up theorems speak of |
| Startup.RunKeepsInvariant | exsamene/src/wifi_connect.c:41-107 | Every run keeps queue, statuses and token counts in agreement |
| Startup.NoEarlyPassAndConservation | exsamene/src/wifi_connect.c:41-46 | No thread passes before the IPv4 event, and gives = takes + count + lost gives |
| Startup.AdmittedExactly | exsamene/src/wifi_connect.c:98-107 | When both network threads have come and neither has given up, both are through if and only if at least one had come before the Wi-Fi thread's second give |
| Startup.OneBeforeWifi | exsamene/src/wifi_connect.c:98-107 | In every run at most one network thread is through before the Wi-Fi thread is |
| Startup.FirstGiveDecides | exsamene/src/wifi_connect.c:98-107 | With both network threads waiting at the first give and neither giving up, both are admitted if the Wi-Fi thread waits too, else exactly one for good |
| Startup.EarlyEventStarvesOne | exsamene/src/wifi_connect.c:41-46 | In every run in which both network threads wait for the first give and the Wi-Fi thread does not, the one that came first is admitted and no other thread ever is, in every continuation |
| Startup.ArrivalWaitsOrPasses | exsamene/src/networking_config_news.c:226 | A thread that arrives passes and uses up the token if it is there, and else waits behind whoever came before |
| Startup.TimedOutForGood | exsamene/src/network_config.c:191-194 | A thread whose wait times out leaves its place in the queue to those behind it and never passes, whatever follows |
| Startup.WifiFailedForGood | exsamene/src/wifi_connect.c:75-94 | A Wi-Fi thread that fails before it waits never passes or gives, and at most one network thread is ever through |
| Startup.FirstEventServes | exsamene/src/wifi_connect.c:41-46 | In every run the first IPv4 event admits the waiting Wi-Fi thread, else the head of the queue, else leaves the token, and nothing to a thread that gave up |
| Startup.AllThreeStart | exsamene/src/wifi_connect.c:98-107 | With all three threads waiting, the event and the two gives let all three through, without a loss |
| Locks.NewsRequest | exsamene/src/networking_config_news.c:94-207 | Each exit of the request is one of four lock paths, with a download exactly if all set-up calls succeed |
| Locks.InfoRound | exsamene/src/network_config.c:196-203 | Each round begins by taking `http_mutex`, ends by giving it back and does each once, with a download exactly if all set-up calls succeed and a parse exactly if a body came |
| Locks.ParseFollowsDownload | exsamene/src/networking_config_news.c:197-200 | A network thread takes the mutex of its data only right behind a download |
| Locks.NewsGivesHttpBackOnce | exsamene/src/networking_config_news.c:112-147 | Every news path that takes `http_mutex` gives it back exactly once, and before the download |
| Locks.RunKeepsInvariant | exsamene/src/network_config.c:38-61 | In every interleaving the owners are exactly the threads whose remaining path unlocks before it locks |
| Locks.NoCircularWait | exsamene/src/screen.c:112-116 | In no reachable state does a chain of threads waiting for each other close |
| Locks.SomebodyCanGoOn | exsamene/src/network_config.c:198-203 | Whenever a thread waits for a mutex, some thread can take its next step |
| Locks.UnlocksOwnMutex | exsamene/src/networking_config_news.c:146-147 | Only owners unlock, and the news thread owns nothing while it downloads |
| Locks.InfoOwnsHttp | exsamene/src/network_config.c:198-203 | In every reachable state the info thread downloads and parses as the owner of `http_mutex` |
| Locks.WhoOwnsWhat | exsamene/src/network_config.h:5-29 | In every reachable state each mutex is owned by one of the two threads that share what it guards |
| Locks.TimeoutFrees | exsamene/src/screen.c:112-114 | A display that gives up waiting for a mutex owns nothing and leaves all others as they were |
| Locks.EverybodyCanFinish | exsamene/src/network_config.c:38-61 | From every reachable state every path that was begun can be finished, and then no mutex is owned |
| Locks.AloneRuns | exsamene/src/networking_config_news.c:112-147 | A thread that runs while the others rest takes every step of any of its paths, owning at each what the rest of the path gives back |
| EndToEnd.InfoRequest | exsamene/src/network_config.c:122-180 | A request leaves the struct as a parse of the received body does, or unchanged when there is none |
| EndToEnd.NewsRequest | exsamene/src/networking_config_news.c:151-216 | A request shows the titles of the received body and is ready exactly if there is one, or leaves rows and ready when there is no body, and reports the result of the bytes received |
| DateScreen.ShowDateTime | exsamene/src/screen.c:242-258 | The date shown is that of the digits in the snapshot; none without a snapshot or with an empty field |
| DateScreen.DateShownMeans | exsamene/src/screen.c:245-258 | No date exactly for an empty epoch field; else, below 4133980800, the valid date whose POSIX seconds are the number at the front of the field |
| DateScreen.SnapshotShowsLast | exsamene/src/network_config.c:40-58 | In every interleaving a snapshot has each field as the last completed parse that found it left it, and shows a date exactly if an epoch was left |
| DateScreen.NoDateYet | exsamene/src/screen.c:245-249 | No snapshot shows a date before a body with a non-empty epoch has been parsed whole |
| DateScreen.SnapshotFieldsFit | exsamene/src/network_config.h:9-22 | In every snapshot each of the seven fields shows at most 31 characters, in a struct of 7 times 32 bytes and a mark |
| DateScreen.BrokenOffEpoch | exsamene/src/network_config.c:41-58 | After the first k characters of the proxy's object: the old date below 14, none at 14 and 15, then the date of the digits that came, which is the right one if and only if all of them did |
| EndToEnd.EpochEndToEnd | exsamene/src/screen.c:252-258 | However the proxy's response is cut, the date shown is valid and its POSIX seconds are the epoch that was printed |
| EndToEnd.BrokenOffEndToEnd | exsamene/src/network_config.c:131-174 | The same for every download that breaks off, however it was cut |
| EndToEnd.SnapshotShowsObject | exsamene/src/screen.c:110-118 | In every interleaving a snapshot after a parse of the proxy's object shows its fields and its date, with nothing torn |
| EndToEnd.NewsEndToEnd | exsamene/src/networking_config_news.c:151-216 | However a news response is cut, the request succeeds and the titles of its document are shown |
| EndToEnd.TickIsNextEpoch | exsamene/src/alarm.c:68-74 | If the alarm's clock shows the time of an epoch, after a tick it shows the time of the next one, whatever the buttons do |
| EndToEnd.ClockKeepsStep | exsamene/src/alarm.c:217-242 | A clock in step with an epoch stays in step over every run |

## Left out

- EndToEnd.InfoRequest: only streams of which every piece that the loop takes fits the buffer, because the guard of the receive loop (`exsamene/src/network_config.c:131`) bounds the position before a receive and not after it; beyond that the source's copy has no defined meaning.
- EndToEnd.NewsRequest: the same, for `exsamene/src/networking_config_news.c:160`.
- HttpReceive.HttpBuffer.ReceiveLoop: the same.
- HttpReceive.HttpBuffer.Append: only pieces that fit the buffer, for the same reason.
- CText.AtoiReadsDecimal: `atoi` on unbounded integers; a length field beyond 32 bits is not modelled.
- Calendar.EpochToDateTime: `long` is unbounded; the theorems cover every 32-bit value.
- NewsRoundTrip.TitlesComeBack: the printer has one object per title, which is what the scanner expects and not what the proxy prints.
- Snapshot, Startup and Locks: the interleaved threads are states and steps on values; `InfoStore`, `ReadySemaphore`, `NewsRequest` and `InfoRound` are their imperative counterparts. Mutex re-entry and priority inheritance are not modelled.
- Sockets, poll, name resolution, sleeps, logging, Wi-Fi association and GPIO set-up: only whether a call succeeded, the bytes received and the pin levels are modelled; so the early return of the button check without a GPIO device is not.
- The threads' periods of 1, 15 and 30 seconds and the news thread's decision to sleep for ever.
- The speaker thread, the display driver, the text layout of the screens and the names of weekdays and months.
- The temperature and humidity sensor.
- The news screen, whose call is commented out in the source; only its lock path is in `Locks`.
- The proxy except for the shape of its JSON: routes, third-party services, geolocation, removal of duplicate titles.
