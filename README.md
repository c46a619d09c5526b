# net_monitor — a Dafny model of its traffic accounting and wireless queries

net_monitor shows how much traffic each network interface carries. There are
two front ends. One is a GTK window (`net_monitor.py`). The other is a KDE
Plasma data engine (`plasma/datasource/contents/code/main.py`). Both read the
kernel's cumulative byte counters from `/proc/net/dev` and turn successive
readings into totals and speeds. Wireless interfaces are also queried through
ioctls for their ESSID, mode and bit rate (`src/wifi.py`, `src/monitor.py`).

The model has five modules.

- `PyText` holds the Python 2 operations the code leans on: `str.strip()`,
  `str.split()`, the one-colon `split(":")`, `int()` on decimal text,
  `"%d"` formatting, and integer `/`, which floors.
- `ProcNetDev` models `readnet` and `get_traffic`. It covers the table of
  `/proc/net/dev` rows, the exception a malformed row raises, and the lookup
  of receive bytes (field 0) and transmit bytes (field 8). The GTK version
  re-reads the file. The `src/monitor.py` version falls back to a stored
  table, and when that table is empty it drops the result of `readnet()`.
- `Sampler` models `Monitor.update` of the GTK monitor.
  - `Histogram` is the shared `{"in": [...], "out": [...]}` dictionary.
  - `Interface` is one entry of `self.ifaces`.
  - `Monitor` holds all the entries. Each of these is a class whose fields
    the tick updates in place.
  - A tick works like this. The first measure is ignored. A negative delta
    gets 2**32 added. The totals grow. The speed is the delta floor-divided
    by the interval. The average shown is the history's sum divided by
    `HISTOGRAM_SIZE` (50). Each history keeps its last 50 speeds.
  - `LoadGraph.__get_max`, the maximum the graph scales to, is the
    `LoadGraph` class.
- `PlasmaEngine` models `updateSourceEvent` of the data engine as the class
  `DataEngine`. It covers the same delta rules plus the missing-device gate,
  the link-quality percentage and its guards, the stored counters, and the
  thirteen `setData` calls. As written, those calls publish `data_in` under
  all four counter keys.
- `Wireless` models the ioctl request buffer (`call` / `wifi_ioctl`). It also
  covers `get_mode`, `get_bitrate` and `get_essid`, and the MAC-address text
  of `get_address`.

Whatever the code obtains from the system enters as a parameter:

- the lines of `/proc/net/dev`
- the counter readings of a tick
- the data engine's `get_traffic`, as a function from interface name and
  table to a `(device_exists, data_in, data_out)` triple or a raised exception
- the outcome of an ioctl, as a function from request number and buffer to a
  reply or a raised exception
- the bytes the kernel writes into the ESSID buffer
- the wireless statistics
- the status, uptime and address strings
- the data engine's wireless details, or the fact that one of its wireless
  queries raised

Python exceptions that escape become the `Err` case of a `Result` in the
table readers and the wireless decoders. In `DataEngine.UpdateSourceEvent`
they become a `false` result, and the request then changes nothing. This
covers a malformed table, an unknown name (`KeyError`), a raising
`get_traffic` and a raising wireless query. `Sampler.Monitor.Update` takes
its readings as a total function; see "## Left out".

Some code is duplicated, and each copy is modelled once:

- `src/wifi.py` (class `Wireless`) and `Monitor.wifi_*` in `src/monitor.py`
  (lines 17-77) are the same code.
- `readnet` appears in `net_monitor.py:52-61` and in `src/monitor.py:126-135`.
- `get_address` appears in `net_monitor.py:35-50` and in
  `src/monitor.py:109-124`.

Some behaviours of the code are easy to miss.

- `get_bitrate` returns -1 when the ioctl raises or the reply is empty.
- `get_mode` has no fallback value. It raises when the ioctl raised (it
  slices `None`) and when the mode number is outside -7..6. A number in
  -7..-1 names a mode counted from the end of the table.
- The data engine publishes `data_in` under `data_in`, `data_out`,
  `total_in` and `total_out` (main.py lines 141-144).
- When the MAC request fails, `get_address` sets the address text to
  "No address assigned" and the MAC text keeps its initial
  "No physical address".
- The data engine unpacks a `(device_exists, data_in, data_out)` triple from
  `get_traffic`. The `get_traffic` of `src/monitor.py` returns a pair, and
  the one of `net_monitor.py` takes no table. The engine's `get_traffic` is
  therefore a parameter of the model.
- The data engine imports `Monitor` from the package `net_monitor`
  (main.py line 18), whose `__init__.py` is not part of this model. That
  `Monitor` is not the class of `src/monitor.py`. It also has
  `has_wireless`, `wireless_stats`, `get_uptime`, `get_connections`,
  `has_network_accounting` and `wifi_get_ap`, and its `get_traffic` returns
  three values. The model assumes that its `readnet` is the same as the two
  copies shown (`net_monitor.py:52-61`, `src/monitor.py:126-135`), and uses
  `ProcNetDev.ReadNet` for it.
- No code shown ever stores `"max_quality"`. `init()` creates the entries
  without it (main.py lines 42-49), and a request stores only the four
  counters (lines 136-139). So as written every interface, wireless or not,
  publishes the quality `"0%"`.

## Model

| member | source | states |
|---|---|---|
| PyText.Strip | net_monitor.py:58 | definition of `str.strip()`; meaning in `PyText.LeadingSpaces`, `PyText.TrailingSpaces` and `PyText.StripUntrimmed` |
| PyText.LeadingSpaces | net_monitor.py:58 | the whitespace `strip()` drops at the front: a run of whitespace ending before the first other character |
| PyText.TrailingSpaces | net_monitor.py:58 | the whitespace `strip()` drops at the back: a run of whitespace starting after the last other character |
| PyText.StripUntrimmed | net_monitor.py:58 | text that starts and ends with a non-whitespace character is left unchanged |
| PyText.Words | net_monitor.py:59 | `split()`: every token is non-empty and free of whitespace; `PyText.WordsOfJoin` pins its value on every text made of tokens and whitespace |
| PyText.Join | net_monitor.py:59 | definition of tokens with a separator between neighbours; meaning in `PyText.WordsOfJoin` |
| PyText.WordsAfterBlank | net_monitor.py:59 | whitespace in front of a text does not change what `split()` returns |
| PyText.WordsOfWordFirst | net_monitor.py:59 | a token followed by whitespace or by nothing is split off whole, and splitting continues after it |
| PyText.WordsOfJoin | net_monitor.py:59 | `split()` of tokens with leading whitespace, trailing whitespace (such as the newline `readlines()` keeps) and runs of whitespace between them gives exactly the tokens |
| PyText.SplitColon | net_monitor.py:57 | definition of the two-way `split(":")`; meaning in `PyText.SplitColonCounts` |
| PyText.ColonAt | net_monitor.py:57 | the index of the first colon, or None exactly when there is none |
| PyText.SplitColonCounts | net_monitor.py:57 | `l.split(":")` unpacks into two parts exactly when the row holds one colon; the parts are the text before and after it, neither containing a colon |
| PyText.SplitColonOfJoin | net_monitor.py:57 | splitting `a + ":" + b` gives back `(a, b)` when neither contains a colon |
| PyText.ParseInt | net_monitor.py:66-67 | definition of `int()` on a token; meaning in `PyText.ParseFormatInt` |
| PyText.FormatInt | plasma/datasource/contents/code/main.py:152 | definition of `"%d"`; meaning in `PyText.ParseFormatInt` |
| PyText.Decimal | plasma/datasource/contents/code/main.py:152 | the digits of `"%d"`: at least one decimal digit, and no leading zero unless the number is 0 |
| PyText.ParseFormatInt | net_monitor.py:66-67 | `int()` reads back every integer that `"%d"` writes |
| PyText.FloorDiv | net_monitor.py:348-349 | definition of Python 2 integer `/`; meaning in `PyText.FloorDivIsFloor` |
| PyText.FloorDivIsFloor | net_monitor.py:348-349 | Python 2 integer `/` (`FloorDiv`): the quotient rounded toward minus infinity, for either sign of divisor |
| PyText.TruncDiv | plasma/datasource/contents/code/main.py:152 | `"%d"` of a float quotient: 0 for a zero numerator, and otherwise the sign of the exact quotient |
| PyText.TruncDivNonNegative | plasma/datasource/contents/code/main.py:152 | for non-negative operands the truncated quotient is the floor quotient, so `b*q <= a < b*q + b` |
| ProcNetDev.Rows | net_monitor.py:55 | `readlines()[2:]`: the lines after the two header lines, none for a shorter file |
| ProcNetDev.Entry | net_monitor.py:57-59 | definition of one row's parse; meaning in `ProcNetDev.EntryOfRow` and `PyText.SplitColonCounts` |
| ProcNetDev.Fill | net_monitor.py:55-60 | definition of the table built row by row; meaning in `ProcNetDev.FillOk`, `FillFirstError`, `FillNames` and `FillLastRowWins` |
| ProcNetDev.Table | net_monitor.py:52-61 | definition of `readnet()`'s result; `ProcNetDev.ReadNet` is proved to compute it |
| ProcNetDev.ReadNet | net_monitor.py:52-61 | the loop returns the table of its rows (`Table`), or the exception of the first malformed row |
| ProcNetDev.FillOk | net_monitor.py:55-60 | `readnet` succeeds if and only if every row after the header has exactly one colon |
| ProcNetDev.FillFirstError | net_monitor.py:55-60 | the exception raised names the first malformed row |
| ProcNetDev.FillPrefixError | net_monitor.py:55-60 | once a prefix of the rows raises, the whole file raises the same exception |
| ProcNetDev.FillNames | net_monitor.py:55-60 | the table's keys are exactly the stripped names of the rows |
| ProcNetDev.FillLastRowWins | net_monitor.py:55-60 | a name's fields come from the last row carrying that name |
| ProcNetDev.EntryOfRow | net_monitor.py:57-59 | a line as `readlines()` returns it (whitespace, the name, a colon, whitespace, fields separated by runs of whitespace, the newline) parses to its name and its fields |
| ProcNetDev.TrafficOf | net_monitor.py:65-71 | an absent interface gives (0, 0); a present one succeeds exactly when it has more than 8 fields and fields 0 and 8 parse, and then gives their values |
| ProcNetDev.GetTraffic | net_monitor.py:63-71 | `get_traffic(iface)` re-reads the table: a malformed file raises, otherwise the lookup's result |
| ProcNetDev.StoredTraffic | src/monitor.py:137-148 | a non-empty `net` is looked up; otherwise the stored table is; if that is empty, `readnet()` can only raise and the answer is (0, 0) |
| ProcNetDev.TrafficOfCounters | net_monitor.py:65-67 | counters written in decimal in fields 0 and 8 are returned exactly |
| ProcNetDev.ReadBackCounters | net_monitor.py:52-71 | end to end: a two-line header plus one such line reads back as a one-entry table, and its counters come back from the lookup |
| Sampler.Histogram.constructor | net_monitor.py:455 | a new history dictionary holds two empty lists |
| Sampler.Interface.constructor | net_monitor.py:301-314 | a new entry has all four counters 0 and fresh, empty histories |
| Sampler.Monitor.constructor | net_monitor.py:293-318 | every interface `readnet()` listed gets its own entry and its own history, all unmeasured |
| Sampler.Interface.Tick | net_monitor.py:328-389 | the loop body of `update` changes the entry and its histories exactly as `Step` says, returns what `Step` shows, and keeps both histories within 50 samples |
| Sampler.Monitor.TickOne | net_monitor.py:328-389 | one pass of the loop changes only that interface's entry, as `Step` says |
| Sampler.Monitor.Update | net_monitor.py:325-389 | every interface advances by `Step` with its own reading, and one set of shown values is produced per interface |
| Sampler.Unwrap | net_monitor.py:340-344 | definition of the 2**32 correction; meaning in `Sampler.UnwrapIsCounterDistance` |
| Sampler.Diffs | net_monitor.py:328-344 | definition of a tick's deltas; meaning in `Sampler.FirstMeasureIsQuiet`, `WrapExample` and `UnwrapIsCounterDistance` |
| Sampler.Average | net_monitor.py:352-360 | definition of the average shown; meaning in `Sampler.AverageIsSumOverSize`, including 0 for an empty history |
| Sampler.Push | net_monitor.py:382-389 | definition of append-then-trim; meaning in `Sampler.PushSlides` and `PushWindow` |
| Sampler.Step | net_monitor.py:328-389 | definition of one interface's tick; `Sampler.Interface.Tick` is proved to perform it, and its meaning is in `StepStoresRawReadings`, `SpeedIsDeltaPerInterval` and `AverageBeforeAppend` |
| Sampler.Run | net_monitor.py:325-392 | definition of successive ticks (each `update` re-arms the timer); meaning in `Sampler.HistoryIsRecentSpeeds` and `TotalsNeverDecrease` |
| Sampler.Speeds | net_monitor.py:348-349 | definition of the speeds a run of ticks reports; used by `Sampler.HistoryIsRecentSpeeds` |
| Sampler.FirstMeasureIsQuiet | net_monitor.py:333-336 | with both stored counters 0 the deltas are 0: the totals stay and both speeds are 0 |
| Sampler.WrapExample | net_monitor.py:340-344 | a counter that went from 4294967290 to 5 moved by 11 bytes |
| Sampler.UnwrapIsCounterDistance | net_monitor.py:340-344 | between two 32-bit readings the corrected delta is the unique distance in [0, 2**32) carrying the old reading onto the new one modulo 2**32 |
| Sampler.StepStoresRawReadings | net_monitor.py:338-365 | the stored counters become the raw readings, and the totals grow by exactly the corrected deltas |
| Sampler.SpeedIsDeltaPerInterval | net_monitor.py:347-349 | for a positive interval, speed * interval <= delta < (speed + 1) * interval |
| Sampler.AverageBeforeAppend | net_monitor.py:350-360 | the average shown is computed from the histories as they were before this tick's speed is appended |
| Sampler.PushSlides | net_monitor.py:382-389 | a bounded history stays within 50 samples and ends with the new one; when full it loses exactly its oldest sample, the rest in order |
| Sampler.PushWindow | net_monitor.py:382-389 | appending and trimming keeps the last 50 samples of everything appended |
| Sampler.HistoryIsRecentSpeeds | net_monitor.py:382-389 | after any run of ticks each history is the last 50 of its old contents followed by the speeds reported |
| Sampler.TotalsNeverDecrease | net_monitor.py:338-346 | over any run of 32-bit readings the totals never decrease, and the stored counters remain 32-bit values |
| Sampler.AverageIsSumOverSize | net_monitor.py:352-360 | the average is 0 for an empty history; otherwise 50 * average <= sum < 50 * average + 50 |
| Sampler.Sum | net_monitor.py:354 | definition of `reduce(lambda x, y: x+y, h)`; meaning in `Sampler.SumOfCopies` and `AverageUnderReports` |
| Sampler.SumOfCopies | net_monitor.py:354 | the `reduce` sum of k copies of v is k * v |
| Sampler.AverageOfCopies | net_monitor.py:353-360 | k equal samples average to k*v floor-divided by 50 (three samples of 100 give 6) |
| Sampler.AverageUnderReports | net_monitor.py:353-360 | for non-negative speeds the average never exceeds the true mean of the samples held, and equals it once the history is full |
| Sampler.Max | net_monitor.py:215 | `max(list)`: an element of the list at least as large as every element |
| Sampler.HistMax | net_monitor.py:214-221 | definition of `maxin` / `maxout`; meaning in `Sampler.Peak` |
| Sampler.Peak | net_monitor.py:212-222 | the graph's scale bounds every sample of both histories; it is one of them or 0; it is at least 0 when either history is empty, and 0 when both are |
| Sampler.LoadGraph.constructor | net_monitor.py:98-110 | a new graph shares the history it was given and starts scaled to its maximum |
| Sampler.LoadGraph.GetMax | net_monitor.py:212-222 | `maxval` becomes `Peak` of the two shared histories: it bounds every sample, is at least 0 when either history is empty, and is 0 when both are |
| PlasmaEngine.DataEngine.constructor | plasma/datasource/contents/code/main.py:24-51 | every interface `readnet()` listed gets an entry with all counters 0 and no `max_quality`; the wireless set is the listed interfaces that pass `has_wireless` |
| PlasmaEngine.DataEngine.SetData | plasma/datasource/contents/code/main.py:141 | `setData(source, key, value)` sets one key of one source and leaves the stored counters alone |
| PlasmaEngine.Readings | plasma/datasource/contents/code/main.py:77-97 | definition of the counter triple a request obtains, None when `readnet()`, `get_traffic` or a wireless query raises; meaning in `PlasmaEngine.RowWithoutColonRaises` |
| PlasmaEngine.Deltas | plasma/datasource/contents/code/main.py:114-129 | definition of a request's deltas; meaning in `PlasmaEngine.QuietRequests` and `AdvanceCounts` |
| PlasmaEngine.Advance | plasma/datasource/contents/code/main.py:114-139 | definition of the saved entry; meaning in `PlasmaEngine.AdvanceCounts` and `SameCountsAsMonitor` |
| PlasmaEngine.Quality | plasma/datasource/contents/code/main.py:93-113 | definition of the link quality; meaning in `PlasmaEngine.QualityRange` |
| PlasmaEngine.Link | plasma/datasource/contents/code/main.py:98 | definition of `wifi_stats.get(iface, 0)` |
| PlasmaEngine.QualityText | plasma/datasource/contents/code/main.py:152 | definition of `"%d%%"`; meaning in `PlasmaEngine.QualityTextReadsBack` |
| PlasmaEngine.Details | plasma/datasource/contents/code/main.py:93-112 | definition of the wireless details published; meaning in `PlasmaEngine.PublishedDetails` |
| PlasmaEngine.Items | plasma/datasource/contents/code/main.py:141-155 | definition of the thirteen `setData` calls in order; meaning in `PlasmaEngine.AssignIsPublish` |
| PlasmaEngine.Assign | plasma/datasource/contents/code/main.py:141-155 | definition of the source's data after the first n calls |
| PlasmaEngine.Publish | plasma/datasource/contents/code/main.py:141-155 | definition of the source's data after a request; meaning in `PlasmaEngine.PublishedCounters`, `PublishedDetails` and `PublishKeepsOtherKeys` |
| PlasmaEngine.CountTraffic | plasma/datasource/contents/code/main.py:114-139 | the first-measure, missing-device and 2**32 steps compute exactly the new entry `Advance` specifies |
| PlasmaEngine.LinkQuality | plasma/datasource/contents/code/main.py:99-107 | the quality branches of a wireless interface compute exactly `Quality` |
| PlasmaEngine.DataEngine.SetAll | plasma/datasource/contents/code/main.py:141-155 | the `setData` calls in turn leave the counters alone and give the source the data `Assign` specifies |
| PlasmaEngine.DataEngine.UpdateSourceEvent | plasma/datasource/contents/code/main.py:74-156 | the request succeeds exactly when the name is known and `readnet()`, `get_traffic` and the wireless queries do not raise; a failed request changes nothing; a successful one advances the entry by `Advance` and sets the source's data to `Publish` of its old data; no request adds or removes an entry or changes its `max_quality` |
| PlasmaEngine.QualityWithoutMaximum | plasma/datasource/contents/code/main.py:100-152 | an entry without `max_quality` has quality 0, published as `"0%"` |
| PlasmaEngine.RowWithoutColonRaises | plasma/datasource/contents/code/main.py:77 | a `/proc/net/dev` row without a colon makes every request fail |
| PlasmaEngine.QuietRequests | plasma/datasource/contents/code/main.py:114-131 | the first measure and a device that does not exist both count nothing: the totals stay |
| PlasmaEngine.AdvanceCounts | plasma/datasource/contents/code/main.py:122-139 | when the stored and the new readings are 32-bit counters: the raw readings are stored, `max_quality` is kept, and each total grows by less than 2**32; when moreover the device exists and the stored pair is not (0, 0), the delta carries the old reading onto the new one modulo 2**32 |
| PlasmaEngine.SameCountsAsMonitor | plasma/datasource/contents/code/main.py:114-139 | for a device that exists the data engine stores and counts exactly what a GTK tick does from the same values |
| PlasmaEngine.QualityRange | plasma/datasource/contents/code/main.py:93-113 | quality is 0 when the interface is not wireless, has no `max_quality` or has a maximum of 0; for 0 <= link <= max it lies in 0..100 and is the floor of link*100/max |
| PlasmaEngine.QualityTextReadsBack | plasma/datasource/contents/code/main.py:152 | `"%d%%"` text ends in `%` and the rest reads back through `int()` as the quality |
| PlasmaEngine.AssignIsPublish | plasma/datasource/contents/code/main.py:141-155 | the thirteen `setData` calls, applied in order, give exactly `Publish` |
| PlasmaEngine.PublishedCounters | plasma/datasource/contents/code/main.py:141-144 | `data_in`, `data_out`, `total_in` and `total_out` all publish the new `data_in` reading |
| PlasmaEngine.PublishedDetails | plasma/datasource/contents/code/main.py:145-155 | the addresses, status, uptime and quality text are published; the wireless answers are published for a wireless interface and None otherwise |
| PlasmaEngine.PublishKeepsOtherKeys | plasma/datasource/contents/code/main.py:141-155 | keys outside the thirteen keep their earlier presence and values |
| Wireless.Pad | src/wifi.py:35-38 | `(s + '\0' * w)[:w]` is exactly w bytes: s's bytes, then NULs |
| Wireless.Request | src/wifi.py:35-38 | definition of the request buffer; meaning in `Wireless.RequestLayout` |
| Wireless.RequestLayout | src/wifi.py:34-38 | without an argument the request is 32 bytes; with one it is 16 bytes followed by the argument; the name comes first and NULs fill the rest of the name area |
| Wireless.Call | src/wifi.py:34-44 | `call` returns the ioctl's reply to the request buffer, or None exactly when the ioctl raised |
| Wireless.Signed | src/wifi.py:57 | a signed little-endian field of n bytes lies in [-256**n/2, 256**n/2) |
| Wireless.SignedRoundTrip | src/wifi.py:57 | unpacking what `struct.pack` wrote for a value in range gives the value back |
| Wireless.SignedBytesRoundTrip | src/wifi.py:57 | packing what was unpacked gives the bytes back |
| Wireless.Slice | src/wifi.py:57 | a byte-string slice clamps both ends to the length: `s[lo..hi]` when `hi` is in range, `s[lo..]` when only `lo` is, and empty otherwise |
| Wireless.ModeOf | src/wifi.py:56-58 | definition of the mode decoding; meaning in `Wireless.ModeOfIndex` and `ModeOfShortReply` |
| Wireless.GetMode | src/wifi.py:54-58 | definition of `get_mode`: `Call` followed by `ModeOf` |
| Wireless.ModeOfIndex | src/wifi.py:54-58 | a reply whose bytes 16..20 hold k names mode k (0 "Auto", 2 "Managed"), a negative k counts from the end, and it raises exactly when k is outside -7..6 |
| Wireless.ModeOfShortReply | src/wifi.py:54-58 | a failed call and a reply shorter than 20 bytes both raise |
| Wireless.BitrateOf | src/wifi.py:64-75 | definition of the bit-rate decoding; meaning in `Wireless.BitrateOfField` |
| Wireless.GetBitrate | src/wifi.py:60-75 | definition of `get_bitrate`: `Call` followed by `BitrateOf` |
| Wireless.BitrateOfField | src/wifi.py:60-75 | a reply packing (m, e) at byte 16 gives m when e is 0 and m * 10**e when e is positive; a failed call gives -1 |
| Wireless.EssidBuffer | src/wifi.py:48 | the ESSID buffer is always 16 bytes |
| Wireless.GetEssid | src/wifi.py:46-52 | the answer is the 16-byte NUL buffer, overwritten by what the kernel wrote, with NULs stripped at both ends |
| Wireless.StripNuls | src/wifi.py:52 | definition of `strip('\0')`; meaning in `Wireless.LeadingNuls`, `TrailingNuls` and `EssidReadsBack` |
| Wireless.LeadingNuls | src/wifi.py:52 | the NULs `strip('\0')` drops at the front: a run of NULs ending before the first other byte |
| Wireless.TrailingNuls | src/wifi.py:52 | the NULs `strip('\0')` drops at the back: a run of NULs starting after the last other byte |
| Wireless.EssidReadsBack | src/wifi.py:46-52 | an ESSID of at most 16 bytes without a NUL at either end comes back whole; a failed call gives the empty string |
| Wireless.Hex2 | net_monitor.py:46 | definition of `"%02x" % ord(char)`; meaning in `Wireless.FormatMacReadsBack` |
| Wireless.FormatMac | net_monitor.py:46 | definition of the colon-joined `"%02x"` text; meaning in `Wireless.FormatMacReadsBack` |
| Wireless.FormatMacReadsBack | net_monitor.py:44-48 | the MAC text has three characters per byte less one, and reading it back gives the bytes |
| Wireless.GetAddress | net_monitor.py:35-50 | a failed MAC request gives ("No address assigned", "No physical address"); otherwise the address text comes from the IP request and the MAC text is 17 characters that read back as reply bytes 18..24 |

## Left out

- The GTK and Plasma user interfaces are not modelled. This covers widgets, graph drawing, the `vnstati` images, the applet (`plasma/applet`) and the `print` diagnostics. None of them affects the counters.
- The file reads, sockets, `os.stat` and the timer are left out: they are I/O. Their results are parameters. `get_status`, `get_uptime`, `wireless_stats`, `has_wireless` and `has_network_accounting` (`enabled_ifaces`) only supply such inputs.
- `readwireless` (`src/monitor.py:91-107`) reads `/proc/net/wireless` and always returns `{}`. That constant is all that could be modelled, so it is not.
- The IP-address ioctl of `get_address` is left out. The dotted address text it yields is an input of `Wireless.GetAddress`.
- `wifi_get_ap`, `wifi_get_max_quality`, routes, DNS, connections and the native C extension (`native/net_monitor.c`) are not part of this model.
- `setup.py` is not part of this model.
- Packing the ESSID buffer's address and length into the request (`struct.pack('Pi', ...)`) is left out. `Wireless.GetEssid` takes the bytes the kernel copies into the buffer.
- Wireless.BitrateOf: `float(m) * 10**e` is a float whenever e is not 0, and floating point is not modelled. For a negative exponent the model returns `Fraction(m, e)` without a value. For a positive exponent it returns the exact product `m * 10**e`. Python's float rounds once the product needs more than 53 bits (m = 2147483647 with e = 10), is infinite near 1.8e308, and raises `OverflowError` for e >= 309, when `10**e` is converted to a float.
- PyText.TruncDiv: states only the sign of the truncated quotient. Its exact value is proved, by `PyText.TruncDivNonNegative`, only for non-negative operands. Float rounding of `link * 100.0 / max_quality` is not modelled; the quality is taken as the exact quotient truncated.
- Wireless.Signed: states the range only. Its meaning is carried by the two round-trip lemmas.
- `Monitor.update` re-arming its timer and calling `graph.update()` are left out. A `get_traffic` that raises during `update` is also left out: `Sampler.Monitor.Update` takes the readings as a total function.
- `speed_in` / `speed_out` in the data engine are computed but never used, and are not modelled.
- Sampler.Monitor.Update: iterates the interfaces in an arbitrary order. Python iterates the dictionary's order. Interfaces do not interact, so the result is the same.
- A zero `interval` would raise `ZeroDivisionError`. It is excluded by a precondition; both callers pass 1.
- The constructors take the set of interface names. The `readnet()` and `get_traffic` calls made while starting up are left out (`net_monitor.py` lines 293 and 300, main.py lines 30, 38 and 41). Their results are thrown away, but they can raise, and the model does not capture a start-up that fails.
- `struct.unpack` with the native formats `"i"` and `"ihbb"` is modelled little-endian, as stated at the head of `wireless.dfy`. On a big-endian host the decoded mode and bit rate differ.
- `ifname[:15]` truncation in the address ioctls is left out: the ioctl replies are inputs.
- Localisation is left out. The code passes "No physical address" and "No address assigned" through gettext `_()` (`net_monitor.py` lines 37, 42 and 48), and `Wireless.GetAddress` uses the untranslated texts.
- The data engine's `wifi_get_essid`, `wifi_get_mode`, `wifi_get_bitrate` and `wifi_get_ap` enter `PlasmaEngine.DataEngine.UpdateSourceEvent` as their answers, or as the fact that one of them raised. They are not computed there from the `Wireless` decoders. A failing mode or bit-rate decode in `Wireless` corresponds to the raising case.
