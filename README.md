# NetworkScannerApp core, modelled in Dafny

NetworkScannerApp is a Windows Forms LAN scanner. On every refresh it looks up
the default gateway. From the gateway address it derives the `/24` prefix. It
then profiles the router, this machine and every other address
`prefix1` … `prefix254` that answers a ping. A profile holds the host name, a
five-probe latency sample and the MAC address. Between scans the window keeps
the last latency string per address, and it reports an address whose new
latency is larger than the stored one.

This project models the deterministic core of `Form1.cs` and proves what it
promises:

- `outcomes.dfy`: `Option` stands for a nullable return. `Captured` is what an operating-system call produced: its text, or the message of the exception it raised.
- `text.dfy`: the .NET string operations the core relies on. These are `Split` (with and without `RemoveEmptyEntries`), `Replace(x, "")`, `ToUpper`, `Trim`, `IndexOf`, `Contains` and `Count(c => …)`. Each comes with the lemmas the core needs, such as the `Split`/`Join` round trip.
- `numbers.dfy`: `long.ToString()` of the averaged latency and `int.TryParse`, with the 32-bit range check.
- `latency.dfy`: `MeasureLatency` reduces five probe outcomes to `"<mean> ms"`, `"Request timed out"` or `"Error: <message>"`. It also holds the parse the regression check applies to those strings.
- `identity.dfy`: `IsValidMacAddress`, `FormatMacAddress`, the `arp -a` reader (`GetMacAddress`), the `nbtstat -A` reader (`GetNetBiosName`), `GetHostName`, and the NetBIOS fallback for the name `"Unknown"`.
- `sweep.dfy`:
  - `GetSubnet`, the candidate addresses, and the scan result: router first as `"Router"`, this machine second as `"This Device"`, then one profile per remainder address that answered.
  - The `Scanner` class holds the `previousLatencies` history. It has `ScanNetwork` and `UpdateDeviceData`.

Everything the network and the operating system answer is an input. For every address, a `Host` value holds:

- the liveness probe result;
- the five latency probe outcomes;
- the reverse lookup;
- the captured output of `nbtstat -A` and of `arp -a`.

The gateway address, the local address and the local MAC are parameters.

A row of the result is the `Device` record of `Form1.cs:404-410`, the datatype `Sweep.Device`: the address, the host name, the latency string and the MAC string, all as displayed.

The model follows the code as written. Note that:

- A MAC token is valid with 17 characters and exactly five `'-'`. A colon-separated token such as `00:1A:2B:3C:4D:5E` is refused, because only hyphens are counted.
- The not-found sentinel is `"MAC Address not found"`.
- The history is overwritten unconditionally, sentinels included. So a time-out erases the numeric baseline (`Sweep.SentinelNeverRegresses`).
- `GetSubnet` only counts dot-separated parts. It does not check that they are octets.

## Model

| member | source | states |
|---|---|---|
| Text.ContainsSpec | NetworkScannerApp/Form1.cs:261 | `Contains(s, p)` holds exactly when `p` occurs in `s` at some position |
| Text.CountChar | NetworkScannerApp/Form1.cs:344 | the count is at most the length, and it is zero exactly when the character is absent |
| Text.EraseChar | NetworkScannerApp/Form1.cs:349 | removing a one-character pattern shortens the text by the number of its occurrences and leaves none of them |
| Text.EraseCharAbsent | NetworkScannerApp/Form1.cs:349 | a text without the character is left unchanged |
| Text.EraseCharAround | NetworkScannerApp/Form1.cs:349 | an occurrence of the character cuts the text into two halves that are erased independently, so every other character stays, in order |
| Text.EraseKeepsPrefix | NetworkScannerApp/Form1.cs:162-163 | `Replace(p, "")` leaves a prefix alone when the prefix does not hold the pattern's first character |
| Text.ToUpperSpec | NetworkScannerApp/Form1.cs:349 | upper-casing is idempotent, and the result holds a `'-'` exactly when the input does |
| Text.ToUpperAppend | NetworkScannerApp/Form1.cs:349 | upper-casing works character by character: it distributes over concatenation |
| Text.Trim | NetworkScannerApp/Form1.cs:263 | the trimmed text is empty or starts and ends with a non-white-space character, and it holds only characters of the input |
| Text.TrimSpec | NetworkScannerApp/Form1.cs:263 | the trimmed text is the slice of the input between its leading and its trailing white space, and everything outside the slice is white space |
| Text.TrimPadded | NetworkScannerApp/Form1.cs:162-163 | white space around a text that neither starts nor ends with white space is exactly what trimming removes |
| Text.IndexOf | NetworkScannerApp/Form1.cs:263 | the index is -1 exactly when the character is absent; otherwise it holds the character and no earlier position does |
| Text.JoinSplit | NetworkScannerApp/Form1.cs:258 | splitting loses nothing: joining the pieces with the separator gives back the text |
| Text.SplitPiecesFree | NetworkScannerApp/Form1.cs:258 | no piece holds an occurrence of the separator, and the first piece is a prefix of the text |
| Text.SplitOnChar | NetworkScannerApp/Form1.cs:101 | splitting on a character yields one piece more than its occurrences, and no piece holds it |
| Text.SplitAround | NetworkScannerApp/Form1.cs:101 | a separator occurrence splits the text into the pieces of the part before it followed by the pieces of the part after it |
| Text.NonEmpty | NetworkScannerApp/Form1.cs:296 | `RemoveEmptyEntries` keeps a piece exactly when it is not empty, and never adds one |
| Text.NonEmptyKeepsOrder | NetworkScannerApp/Form1.cs:296 | an empty piece is dropped and any other piece is kept once, in its place between the pieces before it and the pieces after it |
| Numbers.NatToString | NetworkScannerApp/Form1.cs:217 | a rendered number is a non-empty digit string without a leading zero |
| Numbers.DigitsValueOfNatToString | NetworkScannerApp/Form1.cs:217 | reading back the digits of a rendered number gives the number |
| Numbers.NatToStringInjective | NetworkScannerApp/Form1.cs:135 | different numbers render differently |
| Numbers.TryParseInt | NetworkScannerApp/Form1.cs:162-163 | a successful parse lies in the 32-bit signed range |
| Numbers.ParseSignedPadded | NetworkScannerApp/Form1.cs:162-163 | digits with an optional `'-'` or `'+'` and white space around them parse to their signed value when it fits in 32 bits, and fail otherwise |
| Numbers.ParseNatToString | NetworkScannerApp/Form1.cs:162-163 | the rendering of a number parses back to it exactly when it fits in 32 bits, and fails otherwise |
| Numbers.ParseRejectsLeadingLetter | NetworkScannerApp/Form1.cs:162-163 | a text starting with anything but white space, a sign or a digit does not parse |
| Latency.MeasureLatency | NetworkScannerApp/Form1.cs:194-228 | the five probes become the display string of their sample: the first exception's message after `"Error: "`, the truncated mean of the successful round trips with `" ms"`, or `"Request timed out"` |
| Latency.FirstThrowAt | NetworkScannerApp/Form1.cs:199-226 | a probe that raises after probes that did not ends the sample with its message |
| Latency.FirstThrowSpec | NetworkScannerApp/Form1.cs:199-226 | no exception is recorded exactly when no probe raised; otherwise the recorded one is the earliest |
| Latency.RoundTripsSpec | NetworkScannerApp/Form1.cs:203-209 | the collected round trips are empty exactly when no probe succeeded; each one comes from a successful probe; there are exactly as many as successful probes, which is the divisor of the mean at line 216; and the round trip of the `k`-th successful probe sits at position `k`, so the list, and with it the summed numerator, is fixed |
| Latency.RoundTripsInOrder | NetworkScannerApp/Form1.cs:203-209 | a successful probe's round trip sits at the position given by the number of successes before it |
| Latency.Aggregate | NetworkScannerApp/Form1.cs:199-227 | an error carries the first raised message; a measured latency needs no raised probe and at least one round trip; a time-out needs no raised probe and no round trip (both directions in `AggregateOutcomes`) |
| Latency.AggregateOutcomes | NetworkScannerApp/Form1.cs:199-227 | an error carries the first raised message; a time-out happens exactly when every probe went unanswered; a measured latency happens exactly when no probe raised and one succeeded |
| Latency.MeanBetweenExtremes | NetworkScannerApp/Form1.cs:214-217 | the reported latency lies between the fastest and the slowest successful round trip |
| Latency.ParseLatency | NetworkScannerApp/Form1.cs:162-163 | what the regression check reads from a latency string lies in the 32-bit signed range |
| Latency.LatencyRoundTrip | NetworkScannerApp/Form1.cs:161-163 | removing `" ms"` from a rendered latency and parsing gives the milliseconds back, when they fit in 32 bits |
| Latency.SentinelsDoNotParse | NetworkScannerApp/Form1.cs:161-163 | the time-out and error strings never parse as a number |
| Latency.LeadingLetterDoesNotParse | NetworkScannerApp/Form1.cs:161-163 | a latency string starting with a letter never parses, whatever follows |
| Identity.IsValidMacAddress | NetworkScannerApp/Form1.cs:342-345 | a valid token holds a hyphen and exactly twelve other characters |
| Identity.FormatMacAddress | NetworkScannerApp/Form1.cs:347-350 | the result is as long as the input without its hyphens, and holds no hyphen |
| Identity.FormatMacAddressSpec | NetworkScannerApp/Form1.cs:347-350 | formatting removes every hyphen and leaves no lower-case ASCII letter; it is idempotent |
| Identity.FormatMacAddressContents | NetworkScannerApp/Form1.cs:347-350 | a hyphen-free text is only upper-cased, and a hyphen cuts the text into halves formatted on their own, so the result is the non-hyphen characters, upper-cased, in order |
| Identity.FormatValidMacAddress | NetworkScannerApp/Form1.cs:342-350 | a valid token formats to twelve characters without a hyphen |
| Identity.ColonSeparatedRejected | NetworkScannerApp/Form1.cs:342-345 | a token without hyphens is not a valid MAC |
| Identity.ColonSeparatedExample | NetworkScannerApp/Form1.cs:342-345 | the colon-separated `00:1A:2B:3C:4D:5E` is not a valid MAC |
| Identity.GetMacAddress | NetworkScannerApp/Form1.cs:275-319 | the local address gets the local MAC; a failed `arp` gets `"Error: "` and the message; otherwise the first non-empty line that mentions the address and carries a valid second token gives its formatted MAC, else the not-found sentinel |
| Identity.ArpLookupFirst | NetworkScannerApp/Form1.cs:296-310 | the first line that answers for the address decides the result |
| Identity.ArpLookupNone | NetworkScannerApp/Form1.cs:296-312 | when no line answers, the result is `"MAC Address not found"` |
| Identity.ArpLookupShape | NetworkScannerApp/Form1.cs:296-312 | the lookup yields the sentinel or twelve characters without a hyphen |
| Identity.TokensOfThree | NetworkScannerApp/Form1.cs:301 | a line of three space-free words tokenizes into those words |
| Identity.ArpMatchesLongerAddress | NetworkScannerApp/Form1.cs:299-307 | the address test is a substring test: the entry of a longer address that starts with the wanted one answers for it |
| Identity.RecordName | NetworkScannerApp/Form1.cs:263 | the name cut before the first `'<'` holds no `'<'` |
| Identity.GetNetBiosName | NetworkScannerApp/Form1.cs:243-272 | the first line holding `<20>`, or both `<00>` and `UNIQUE`, gives its trimmed text before `'<'`; a failed process or no such line gives `"Unknown"` |
| Identity.NetBiosLookupFirst | NetworkScannerApp/Form1.cs:258-264 | the first name record decides the name |
| Identity.NetBiosLookupNone | NetworkScannerApp/Form1.cs:258-271 | without a name record the name is `"Unknown"` |
| Identity.NetBiosNameHasNoSuffix | NetworkScannerApp/Form1.cs:263-271 | a NetBIOS name never holds `'<'` |
| Identity.HostNameOf | NetworkScannerApp/Form1.cs:230-241 | an answered lookup gives its name and a failed one gives `"Unknown"`, so any other name is exactly what the lookup answered |
| Identity.ResolveNameSpec | NetworkScannerApp/Form1.cs:146-154 | the NetBIOS name replaces the reverse-lookup name whenever that name is `"Unknown"`, whether the lookup failed or answered `"Unknown"` itself; any other name is kept; a name from the NetBIOS table holds no `'<'` |
| Sweep.GetSubnet | NetworkScannerApp/Form1.cs:99-107 | a prefix is derived exactly when the address holds three dots |
| Sweep.GetSubnetSpec | NetworkScannerApp/Form1.cs:99-107 | a prefix exists exactly when the address holds three dots; it is the address up to and including its third dot |
| Sweep.SubnetOfDottedQuad | NetworkScannerApp/Form1.cs:99-107 | for `a.b.c.d` with dot-free parts the prefix is `a.b.c.` |
| Sweep.Candidates | NetworkScannerApp/Form1.cs:133-137 | there are at most as many candidates as host numbers, and neither the router nor this machine is among them |
| Sweep.CandidatesSpec | NetworkScannerApp/Form1.cs:133-137 | the candidates are exactly the addresses `prefix + i`, `1 <= i <= 254`, other than the router and the local address, each once |
| Sweep.CandidateRange | NetworkScannerApp/Form1.cs:133-137 | at most 254 candidates, none of them the router or this machine, no duplicates |
| Sweep.OnlineSpec | NetworkScannerApp/Form1.cs:141 | the profiled candidates are exactly the candidates that answer, each once |
| Sweep.RemainderSpec | NetworkScannerApp/Form1.cs:141-159 | the remainder entries are the profiles of the answering candidates, in order |
| Sweep.ScanResultShape | NetworkScannerApp/Form1.cs:109-176 | the router entry comes first and the local entry second; after them comes exactly one profile per answering candidate, none for the router or this machine |
| Sweep.Record | NetworkScannerApp/Form1.cs:169 | storing never removes an address from the history |
| Sweep.RecordSpec | NetworkScannerApp/Form1.cs:169 | storing writes each device's address with its own latency string and leaves every other address as it was |
| Sweep.IsRegression | NetworkScannerApp/Form1.cs:161-164 | a regression needs a stored entry for the address and a new latency string that differs from it |
| Sweep.RegressionsSpec | NetworkScannerApp/Form1.cs:161-166 | a regression is reported for an address exactly when its new latency regresses against the history before the scan |
| Sweep.HistoryAfterScan | NetworkScannerApp/Form1.cs:133-173 | after a scan every remainder address holds its displayed latency; every other address, the router and this machine among them, keeps its entry; regressions are judged against the earlier history |
| Sweep.RegressionOnMillis | NetworkScannerApp/Form1.cs:161-166 | two measured latencies regress exactly when the new one is larger |
| Sweep.SentinelNeverRegresses | NetworkScannerApp/Form1.cs:161-169 | a stored time-out or error hides the earlier baseline, and a sentinel sample is never reported |
| Sweep.RegressionExample | NetworkScannerApp/Form1.cs:161-166 | with `20 ms` stored, `35 ms` is reported and `15 ms` is not |
| Sweep.ProfilePrimary | NetworkScannerApp/Form1.cs:114-130 | the router and this machine keep their fixed names and get their latency sample and MAC |
| Sweep.ProfileAddress | NetworkScannerApp/Form1.cs:143-154 | an answering address gets its resolved name, latency sample and MAC |
| Sweep.Scanner.constructor | NetworkScannerApp/Form1.cs:16 | the history starts empty |
| Sweep.Scanner.NoteLatency | NetworkScannerApp/Form1.cs:161-169 | reports a regression exactly when the stored and the new latency both parse and the new one is larger; then stores the new string |
| Sweep.Scanner.SweepRemainder | NetworkScannerApp/Form1.cs:133-173 | yields the remainder profiles, leaves the history as the specification of storing them prescribes, and reports the regressions |
| Sweep.Scanner.SweepAddress | NetworkScannerApp/Form1.cs:135-170 | the work for one host number extends the remainder, the history and the regressions exactly as their definitions prescribe for the next host number |
| Sweep.Scanner.ScanNetwork | NetworkScannerApp/Form1.cs:109-176 | returns the scan result and leaves the history updated with the remainder devices only |
| Sweep.Scanner.UpdateDeviceData | NetworkScannerApp/Form1.cs:33-55 | no gateway gives the router notice and no prefix gives the subnet notice, both with the history untouched; otherwise the scan runs on the derived prefix |

## Left out

- Ping, DNS, process launch and network-interface enumeration are left out. Their answers are inputs: a `Host` per address, plus the gateway, local address and local MAC as parameters. `GetDefaultGateway`, `GetLocalIPAddress` and `GetLocalMacAddress` are not modelled beyond their results.
- Concurrency is left out. The per-address tasks and the lock on the device list become one loop in increasing address order. The source fixes no order among remainder entries, and the model does not capture the unlocked writes to the history.
- `Task.Delay(100)` between probes and the one-second ping time-out are left out, because time is not modelled.
- The grid binding, the message boxes and the console regression line are left out. The notices become a `ScanOutcome`, and the reported addresses become the `regressed` result.
- A `null` local address is not modelled. The local address is always a string.
- Latency.MeasureLatency: the average is taken as exact integer division of the sum. The source averages in floating point and then truncates, which differs only for sums beyond double precision.
- Latency.Render: the mean is unbounded. The source's `long` cannot overflow for five sub-second probes.
- Identity.HostNameOf: any failure of the reverse lookup gives `"Unknown"`. The source catches only `SocketException`, and other exceptions would escape.
- Text.ToUpper upper-cases ASCII letters only. .NET `ToUpper` is culture-sensitive.
- Text.IndexOf is ordinal. `IndexOf(string)` in .NET is culture-sensitive.
- Text.Trim uses the fixed white-space set of `Char.IsWhiteSpace`.
- Numbers.TryParseInt does not accept the trailing NUL characters that `int.TryParse` tolerates.
- Identity.IsValidMacAddress: a string is a sequence of Unicode scalar values, while .NET `Length` counts UTF-16 code units. So the 17-character test of `IsValidMacAddress` (`Form1.cs:344`) differs from the source on tokens that hold characters outside the Basic Multilingual Plane.
- Identity.NewLine: `Environment.NewLine` is taken as `"\r\n"`, since the application runs on Windows.
