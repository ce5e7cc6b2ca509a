# inverex-solar-monitor, modelled in Dafny

inverex-solar-monitor is a small Flask service. It reads a Deye/Inverex
hybrid solar inverter over Modbus, through the inverter's Solarman Wi-Fi
logger (PySolarmanV5, TCP port 8899), and serves the readings as JSON. A
separate script finds the logger on the local network and reads its serial
number from the logger's web page.

This project models the core of both programs:

- **`app.py`, connection management** (module `InverterConnection`). There
  is one module-wide client with a five-second cooldown between connection
  attempts. The client is closed after every request. An inactivity timer
  closes it after 300 s, and `read_with_retry` bounds the retries of each
  register read. The module's globals are the fields of the class
  `ConnectionManager`. Its functions are methods that update those fields.
  Wall-clock time is a parameter `now`. The device is an oracle: one boolean
  says whether constructing a client succeeds, and a function of
  (register, count, attempt) gives the outcome of each read. Timers are
  recorded with the time they fall due. Which timer fires, and when, is up
  to the caller (`TimerFires`).
- **`app.py`, register decoding** (module `Registers`). These functions turn
  the raw 16-bit holding registers into what each endpoint reports:
  - "a missing or empty read is 0";
  - the 16-bit two's-complement conversion;
  - the status lookup tables with their `Unknown (n)` fallback;
  - the temperature offset;
  - the grid-connection flag;
  - the legacy endpoint's `abs`.

  Values the source scales by 0.1 or 0.01 are kept as integers in tenths or
  hundredths of their unit: the raw word for most of them, the signed value
  of the word for the battery current, and the signed value minus 1000 for
  the two temperatures.
- **`get-ip-and-serial.py`, discovery** (modules `Discovery` and `CoverMid`):
  - `find_deye_inverters` scans hosts 1..254 of the local /24, skipping the
    machine's own address and stopping after `max_scan` probes.
  - `get_cover_mid` fetches `status.html` with retries and extracts
    `var cover_mid = "<digits>"` with the pattern
    `var\s+cover_mid\s*=\s*"(\d+)"`.
  - `get_info` rescans once if the first scan finds nothing, then returns
    the first address that yields a serial number. If none does, it returns
    the first address found, with no serial.

  Whether a host's port answers is a predicate on its address, one per scan.
  The n-th HTTP request for a URL has its outcome given by a function of
  (url, n).
- `Decimal` and `Wrappers` are helpers. `Decimal` holds the decimal
  rendering behind the source's f-strings, with its parser and injectivity
  lemmas. `Wrappers` holds `Option` and the length of `range(n)`.

The code has two quirks worth stating, and both are modelled as written:

- `auto_disconnect` reschedules itself into a *local* `cleanup_timer`,
  because its `global` statement does not name `cleanup_timer`. The module
  therefore keeps remembering the old timer, and the replacement can never
  be cancelled (`RescheduledTimerIsOrphaned` shows two armed timers).
- `/api/data` applies `abs` to register 175 without the signed conversion
  that `/api/complete-data` applies to the same register. The `abs` is a
  no-op on a word, and the two endpoints disagree exactly when the AC power
  is negative (`LegacyLoadPowerIsRawWord`).

## Model

| member | source | states |
|---|---|---|
| Wrappers.RangeLength | get-ip-and-serial.py:52 | `range(n)` has `n` elements, and none when `n <= 0` |
| Decimal.NatToString | get-ip-and-serial.py:39 | the decimal rendering of a natural number is a non-empty string of digits, with no leading zero: it starts with `0` only when it is `0`, which renders the number 0 |
| Decimal.ParseNatToString | get-ip-and-serial.py:39 | parsing the decimal rendering of `n` gives back `n` |
| Decimal.NatToStringInjective | get-ip-and-serial.py:39 | different host numbers render differently |
| Decimal.IntToString | app.py:360 | the rendering of an integer is non-empty, starts with `-` exactly when the integer is negative, and has no leading zero: it starts with `0` only when it is `0`, and no `-` is followed by `0` |
| Decimal.ParseIntToString | app.py:360 | parsing the rendering of an integer gives it back |
| Decimal.IntToStringInjective | app.py:375 | different integers render differently |
| Registers.FirstWord | app.py:203 | `raw[0] if raw else 0`: a None or empty read is 0, otherwise the first word |
| Registers.Signed16 | app.py:219-220 | a word above 32767 becomes negative and the rest are kept; the result is in [-32768, 32768) and is congruent to the word modulo 65536 |
| Registers.SignedOfUnsigned | app.py:219-220 | the conversion inverts the 16-bit encoding on [-32768, 32768) |
| Registers.UnsignedOfSigned | app.py:219-220 | the 16-bit encoding of a converted word is that word |
| Registers.Signed16Injective | app.py:352-353 | different words give different signed values |
| Registers.UnknownStatus | app.py:360 | the fallback text is `Unknown (` followed by the decimal rendering of the code and `)` |
| Registers.UnknownStatusInjective | app.py:360 | different unknown codes give different fallback texts |
| Registers.BatteryStatus | app.py:359-360 | "Charge", "Stand-by", "Discharge" exactly for codes 0, 1, 2; every other code gets its own `Unknown (n)` |
| Registers.BatteryStatusInjective | app.py:359-360 | different battery codes are reported differently |
| Registers.InverterStatus | app.py:374-375 | "Stand-by", "Self-checking", "Normal", "FAULT" exactly for codes 0 to 3; every other code gets its own `Unknown (n)` |
| Registers.InverterStatusInjective | app.py:374-375 | different inverter codes are reported differently |
| Registers.GridConnection | app.py:398-400 | "On-Grid" exactly when the code is 1, "Off-Grid" otherwise |
| Registers.DecodeCriticalData | app.py:202-225 | SoC and load power are the first words read; battery power is the signed value, whose 16-bit encoding is the word read |
| Registers.DecodeSolarCurrent | app.py:252-287 | each field is the first word of its read; total solar power is pv1 + pv2, in [0, 2*65535] for words |
| Registers.DecodeGrid | app.py:323-341 | the power is the signed value of its word: in [-32768, 32768) with that word as its 16-bit encoding; `feeding_in` holds exactly when it is negative, that is when the word read exceeds 32767; voltage and current are the words read |
| Registers.DecodeBattery | app.py:346-367 | the status text is the battery lookup of the status code read ("Charge", "Stand-by", "Discharge" exactly for 0, 1, 2, otherwise `Unknown (n)`); the current is the signed value of its word; the voltage is the word read |
| Registers.TemperatureDeciCelsius | app.py:384-395 | a temperature is the signed word minus 100.0 degrees, in tenths; it lies in [-3376.8, 3176.7] degrees and determines the word |
| Registers.DecodeInverter | app.py:372-410 | the status text is the inverter lookup of its code and the grid text the grid-connection rule of its code; total AC power is the signed value of register 175; both temperatures follow the temperature rule |
| Registers.DecodeDailyStats | app.py:415-430 | production, consumption and battery charge are the words read, in 0.1 kWh |
| Registers.DecodeLegacyData | app.py:453-466 | SoC is the first word; load power is non-negative and equals the word or its negation |
| Registers.LegacyLoadPowerIsRawWord | app.py:459-460 | on a word, the legacy load power is the raw word, and it differs from /api/complete-data's total AC power exactly when that power is negative |
| InverterConnection.RetryFromFacts | app.py:146-162 | from any attempt on: the attempts stay below `max_retries`; the first list returned ends the loop; an error on the last attempt is raised |
| InverterConnection.ReadWithRetryContract | app.py:144-164 | at most `max_retries` reads; the result is the first list the device returns, and every earlier attempt returned no list; it raises exactly when the final attempt fails; otherwise it returns None with every attempt spent |
| InverterConnection.NoDataRetries | app.py:148-153 | a read that returns None does not end the loop (one unfolding step of the retry specification, used by the loop's reasoning) |
| InverterConnection.ReadWithRetry | app.py:144-164 | the loop returns what the retry specification gives, with the number of reads it made |
| InverterConnection.ConnectionManager.constructor | app.py:32-38 | no client, both timestamps 0, no timer |
| InverterConnection.ConnectionManager.ScheduleCleanup | app.py:40-54 | the remembered timer is cancelled; a new timer due in 300 s is started and remembered; nothing else changes |
| InverterConnection.ConnectionManager.UpdateActivity | app.py:76-82 | the activity time becomes `now` and the cleanup is rescheduled |
| InverterConnection.ConnectionManager.SafeDisconnect | app.py:129-142 | afterwards there is no client, on every path; nothing else changes |
| InverterConnection.ConnectionManager.AutoDisconnect | app.py:56-74 | after 300 s or more of inactivity the client is closed; otherwise a new timer is started, due 300 s after the last activity, and the module's remembered timer is left unchanged |
| InverterConnection.ConnectionManager.TimerFires | app.py:51-53 | a firing timer is disarmed and runs `auto_disconnect`; the timer count grows only when it reschedules; the remembered timer, firing on or after its due time, always closes the client |
| InverterConnection.ConnectionManager.GetModbusConnection | app.py:84-127 | activity is always recorded; within 5 s of the last attempt it returns None and changes nothing else; otherwise a new client replaces the old one, or no client is kept if construction fails, and the attempt time becomes `now` either way |
| InverterConnection.ConnectionManager.ServeCriticalData | app.py:186-234 | the client is closed afterwards; the cleanup timer is restarted, due 300 s from now, and remembered; a client is counted as created exactly when the cooldown has passed and construction succeeds; the request fails with the connection error exactly when the cooldown is active or construction fails; it fails naming register 184, 178 or 190 exactly when it connected, the reads before succeeded and that read raised; it is served exactly when it connects and none of the three reads raises; the data served decodes what those reads returned |
| InverterConnection.ConnectionManager.ServeLegacyData | app.py:439-471 | the same request flow for registers 184 and 175, with the same timer and client state afterwards and the same rule for which read failed |
| InverterConnection.BackToBackRequests | app.py:95-98 | a second request within 5 s of a first one is refused, whatever the device would answer and whether or not the first one constructed a client |
| InverterConnection.RescheduledTimerIsOrphaned | app.py:70-72 | a timer that reschedules itself leaves a timer nobody can cancel: the next request leaves two timers armed |
| CoverMid.SkipSpaces | get-ip-and-serial.py:58 | `\s*` is greedy: it stops at the first character that is not whitespace |
| CoverMid.SkipDigits | get-ip-and-serial.py:58 | `\d+` is greedy: it stops at the first character that is not a digit |
| CoverMid.MatchAt | get-ip-and-serial.py:58 | a match at a position captures a non-empty run of digits |
| CoverMid.MatchAtSound | get-ip-and-serial.py:58 | a match found at `p` is an instance of the pattern at `p` with that capture |
| CoverMid.MatchAtComplete | get-ip-and-serial.py:58 | every instance of the pattern at `p` is found there, with its capture, so a position has at most one capture |
| CoverMid.SearchFromDigits | get-ip-and-serial.py:58 | a search result is a non-empty run of digits |
| CoverMid.SearchFromLeftmost | get-ip-and-serial.py:58 | `re.search` returns the match at the leftmost position where the pattern occurs |
| CoverMid.SearchFromNone | get-ip-and-serial.py:58-63 | no result means that the pattern occurs nowhere from there on |
| CoverMid.ExtractCoverMid | get-ip-and-serial.py:58-63 | the serial returned is a non-empty string of digits |
| CoverMid.ExtractCoverMidIsLeftmostMatch | get-ip-and-serial.py:58-63 | the serial is the capture of the leftmost occurrence of the pattern; None exactly when the page has no occurrence |
| CoverMid.ExtractCoverMidLine | get-ip-and-serial.py:57-60 | a page that starts with `var cover_mid = "<digits>";` yields those digits |
| Discovery.SplitDots | get-ip-and-serial.py:30 | `split(".")` gives at least one part, and no part contains a dot |
| Discovery.JoinSplitDots | get-ip-and-serial.py:30-31 | `".".join(s.split("."))` is `s` |
| Discovery.SplitDotFree | get-ip-and-serial.py:30 | a string without a dot splits into itself alone |
| Discovery.SplitAfterPart | get-ip-and-serial.py:30 | a dot-free part followed by a dot splits off as the first part |
| Discovery.SplitJoinDots | get-ip-and-serial.py:30-31 | splitting a join of dot-free parts gives back those parts, so with `JoinSplitDots` the split cuts at every dot and nowhere else |
| Discovery.JoinDotsLast | get-ip-and-serial.py:31 | joining parts is joining all but the last, a dot, and the last |
| Discovery.AddressInjective | get-ip-and-serial.py:39 | different host numbers give different addresses |
| Discovery.LocalAddressIsCandidate | get-ip-and-serial.py:39-41 | for a dotted-quad local address, the candidate with the local host number is the local address itself, so that host is the one skipped |
| Discovery.ScanOrderFacts | get-ip-and-serial.py:36-41 | the scan order is strictly ascending, within 1..254, omits only the local address, and contains every other host |
| Discovery.ScanOrderExtends | get-ip-and-serial.py:36-38 | a scan stopped early probed a prefix of the full scan |
| Discovery.CappedFacts | get-ip-and-serial.py:37-38 | the first `max_scan` hosts are a prefix of the scan, of length `min(max_scan, its length)` |
| Discovery.StoppedScan | get-ip-and-serial.py:36-45 | stopping when `scanned >= max_scan`, or at the end of the range, leaves exactly the first `max_scan` hosts of the scan order |
| Discovery.ProbedFacts | get-ip-and-serial.py:33-45 | at most `max_scan` and at most 254 hosts are probed, ascending, never the local address; with `max_scan >= 254` every other host is probed |
| Discovery.OpenHostsFacts | get-ip-and-serial.py:42-44 | a host is kept exactly when it was probed and its port answered, in probe order |
| Discovery.ProbeOneMore | get-ip-and-serial.py:42-45 | probing a host appends its address to the result exactly when its port answers (one unfolding step of the result specification, used by the loop's reasoning) |
| Discovery.ScanContract | get-ip-and-serial.py:8-47 | the result is the probed addresses whose port answered, in ascending host order; it never contains the local address, and every address in it answered |
| Discovery.FindDeyeInverters | get-ip-and-serial.py:28-47 | the loop probes exactly the specified hosts and returns exactly the specified result |
| Discovery.FirstCompleted | get-ip-and-serial.py:52-55 | the attempt found is below `retries`, and its request got past `raise_for_status` |
| Discovery.FirstCompletedFacts | get-ip-and-serial.py:52-69 | every attempt before it failed, with an HTTP or a connection error; with no such attempt, every attempt failed |
| Discovery.GetCoverMidContract | get-ip-and-serial.py:50-70 | at most `retries` requests; failed requests are retried; the first completed page decides, so a page without the pattern ends the call with None; a serial is a non-empty run of digits from that page; when the attempts run out the result is None |
| Discovery.GetCoverMid | get-ip-and-serial.py:50-70 | the loop returns the specified serial and makes the specified number of requests |
| Discovery.FirstWithSerial | get-ip-and-serial.py:80-84 | the index found is within the list |
| Discovery.FirstWithSerialFacts | get-ip-and-serial.py:80-84 | the address chosen yields a serial, and no earlier address does; with none found, no address yields one |
| Discovery.SelectInverterContract | get-ip-and-serial.py:80-86 | the first address in list order that yields a serial, with that serial; failing that, the first address and no serial; nothing for an empty list |
| Discovery.GetInfoContract | get-ip-and-serial.py:73-86 | the address reported answered in one of the scans, is one of the first scan's results, or of the second scan's when the first found nothing, and is never this machine's own; no address means both scans found nothing; a serial is reported only with an address, as a non-empty run of digits |
| Discovery.GetInfo | get-ip-and-serial.py:73-86 | scanning, the rescan and the loop over candidates return exactly the specified choice |

## Left out

- The Flask layer is not modelled: routing, `jsonify`, CORS, the health and system-info endpoints, and the 404/500 handlers. A request handler is modelled as a method that returns `Served(data)` or `Failed(error)`. The JSON status fields are not modelled.
- The `timestamp` fields are not modelled. They are a clock read that no other value depends on.
- Floating-point scaling and `round(..., n)` are not modelled. Scaled values are kept as integers in 0.1 or 0.01 units: the raw word, except the battery current (the signed value of its word) and the two temperatures (the signed value minus 1000).
- Threads, `connection_lock` and the daemon timers' concurrency are not modelled. Each method runs atomically, and timers fire only when the caller says so (`TimerFires`).
- InverterConnection.ConnectionManager.TimerFires: the firing time is not tied to the time the timer is due, and the caller may fire a timer early. In the program, the remembered timer fires on time and then always closes the client, which `TimerFires` states. The reschedule branch of `auto_disconnect` is reached only in two cases, which the model does not represent: a request's `cancel()` racing a timer that has already started, or a step in the wall clock (`time.time()` against the timer's monotonic wait). `RescheduledTimerIsOrphaned` uses such an early firing.
- `time.sleep`, logging, `load_dotenv`, the environment variables and the `atexit` cleanup hook are not modelled.
- Sockets, PySolarmanV5 and `requests` are not modelled. They are oracles passed as parameters.
- InverterConnection.ConnectionManager.GetModbusConnection: the `disconnect()` of an existing client before the new one is built is not a separate event. Its exceptions are swallowed and the client is replaced either way.
- InverterConnection.ConnectionManager.UpdateActivity: `update_activity` reads the clock itself, a moment after `get_modbus_connection` does. Both reads are the one `now`.
- InverterConnection.ConnectionManager.ServeCriticalData: a client method raising an exception other than through a read, and exceptions raised by decoding, are not modelled. Decoding cannot raise on lists of integers.
- InverterConnection.RequestError: the error answer carries the exception text `str(e)`. The model names the cause instead: the connection failure, or the register whose read raised.
- The `/api/solar-current` and `/api/complete-data` request flows are modelled only as their decoders. Each is the connect, read-in-order, close flow of `ServeCriticalData` over more registers.
- CoverMid.ExtractCoverMid: `\d` is modelled as the ASCII digits 0-9. Python's `re` on `str` also matches other Unicode decimal digits. `\s` is Python's full `str.isspace` set.
- Discovery.FindDeyeInverters: `get_local_ip` is not modelled. The local address is a parameter, and its fallback `127.0.0.1` is just another input. `ipaddress.IPv4Network` is not modelled either: its result is unused, and the address `getsockname` returns is always valid for it.
- Discovery.GetInfo: the two scans use the same local address. The port oracle differs between the two scans.
- Discovery.GetCoverMid: the username and password are not modelled, because they only go into the request. Exceptions other than `requests.RequestException` are not modelled.
- The `__main__` block of `get-ip-and-serial.py` is not modelled. It only prints.
