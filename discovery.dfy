/**
 * Inverter discovery (get-ip-and-serial.py): scan the local /24 network for
 * hosts with the logger port open, fetch each one's status page for its
 * serial number, and choose the (address, serial) pair to report.
 *
 * The network is an oracle. Whether a host's port answers is a predicate
 * on its address (one per scan, since the two scans of get_info happen at
 * different times); the outcome of the n-th request for a URL is given by
 * a function of (url, n).
 */
module Discovery {
  import opened Wrappers
  import opened Decimal
  import opened CoverMid

  /** `max_scan` as get_info passes it. */
  const MaxScan: int := 50
  /** `retries` of get_cover_mid as get_info calls it. */
  const CoverMidRetries: int := 3
  /** The scan tries host numbers `range(1, 255)`. */
  const LastHost: nat := 254

  // ---------------------------------------------------------------------
  // The local address and the network prefix
  // ---------------------------------------------------------------------

  /** `s.split(".")` */
  function SplitDots(s: string): (parts: seq<string>)
    ensures |parts| >= 1
    ensures forall k :: 0 <= k < |parts| ==> '.' !in parts[k]
    decreases |s|
  {
    if s == [] then [""]
    else if s[0] == '.' then [""] + SplitDots(s[1..])
    else var rest := SplitDots(s[1..]); [[s[0]] + rest[0]] + rest[1..]
  }

  /** `".".join(parts)` for a non-empty list */
  function JoinDots(parts: seq<string>): string
    requires |parts| >= 1
    decreases |parts|
  {
    if |parts| == 1 then parts[0] else parts[0] + "." + JoinDots(parts[1..])
  }

  lemma {:induction false} JoinSplitDots(s: string)
    ensures JoinDots(SplitDots(s)) == s
    decreases |s|
  {
    if s != [] {
      JoinSplitDots(s[1..]);
      assert s == [s[0]] + s[1..];
      if s[0] != '.' {
        var rest := SplitDots(s[1..]);
        var parts := [[s[0]] + rest[0]] + rest[1..];
        if |rest| > 1 {
          assert parts[1..] == rest[1..];
        }
      }
    }
  }

  lemma {:induction false} SplitDotFree(w: string)
    requires '.' !in w
    ensures SplitDots(w) == [w]
    decreases |w|
  {
    if w != [] {
      SplitDotFree(w[1..]);
      assert w == [w[0]] + w[1..];
    }
  }

  lemma {:induction false} SplitAfterPart(w: string, t: string)
    requires '.' !in w
    ensures SplitDots(w + "." + t) == [w] + SplitDots(t)
    decreases |w|
  {
    var s := w + "." + t;
    if w == [] {
      assert s[1..] == t;
    } else {
      assert s[1..] == w[1..] + "." + t;
      SplitAfterPart(w[1..], t);
      assert w == [w[0]] + w[1..];
    }
  }

  /** Splitting a join of dot-free parts gives back the parts: `split(".")` cuts at every dot and nowhere else. */
  lemma {:induction false} SplitJoinDots(parts: seq<string>)
    requires |parts| >= 1
    requires forall k :: 0 <= k < |parts| ==> '.' !in parts[k]
    ensures SplitDots(JoinDots(parts)) == parts
    decreases |parts|
  {
    if |parts| == 1 {
      SplitDotFree(parts[0]);
    } else {
      SplitJoinDots(parts[1..]);
      SplitAfterPart(parts[0], JoinDots(parts[1..]));
      assert parts == [parts[0]] + parts[1..];
    }
  }

  lemma {:induction false} JoinDotsLast(parts: seq<string>)
    requires |parts| >= 2
    ensures JoinDots(parts) == JoinDots(parts[..|parts| - 1]) + "." + parts[|parts| - 1]
    decreases |parts|
  {
    if |parts| > 2 {
      JoinDotsLast(parts[1..]);
      assert parts[1..][..|parts| - 2] == parts[..|parts| - 1][1..];
    }
  }

  /** `".".join(local_ip.split(".")[:3])` */
  function BasePrefix(localIp: string): string {
    var parts := SplitDots(localIp);
    JoinDots(parts[..if |parts| < 3 then |parts| else 3])
  }

  /** `f"{base_prefix}.{i}"` */
  function Address(prefix: string, host: nat): string {
    prefix + "." + NatToString(host)
  }

  /** Different host numbers give different addresses. */
  lemma AddressInjective(prefix: string, h1: nat, h2: nat)
    ensures Address(prefix, h1) == Address(prefix, h2) ==> h1 == h2
  {
    if Address(prefix, h1) == Address(prefix, h2) {
      var n := |prefix| + 1;
      assert NatToString(h1) == Address(prefix, h1)[n..];
      assert NatToString(h2) == Address(prefix, h2)[n..];
      NatToStringInjective(h1, h2);
    }
  }

  /**
   * For a dotted-quad local address whose last part is the decimal host
   * number `host`, the candidate address for `host` is the local address
   * itself, which is the one the scan skips.
   */
  lemma LocalAddressIsCandidate(localIp: string, host: nat)
    requires |SplitDots(localIp)| == 4 && SplitDots(localIp)[3] == NatToString(host)
    ensures Address(BasePrefix(localIp), host) == localIp
  {
    var parts := SplitDots(localIp);
    JoinSplitDots(localIp);
    JoinDotsLast(parts);
  }

  // ---------------------------------------------------------------------
  // The scan: find_deye_inverters
  // ---------------------------------------------------------------------

  /** The host numbers below `hi`, in ascending order, except the one whose address is the local address. */
  function ScanOrder(prefix: string, localIp: string, hi: nat): seq<nat>
    decreases hi
  {
    if hi <= 1 then []
    else ScanOrder(prefix, localIp, hi - 1) + (if Address(prefix, hi - 1) == localIp then [] else [hi - 1])
  }

  lemma {:induction false} ScanOrderFacts(prefix: string, localIp: string, hi: nat)
    ensures var hosts := ScanOrder(prefix, localIp, hi);
      && |hosts| <= RangeLength(hi - 1)
      && (forall k :: 0 <= k < |hosts| ==> 1 <= hosts[k] < hi && Address(prefix, hosts[k]) != localIp)
      && (forall k, l :: 0 <= k < l < |hosts| ==> hosts[k] < hosts[l])
      && (forall h :: 1 <= h < hi && Address(prefix, h) != localIp ==> h in hosts)
    decreases hi
  {
    if hi > 1 {
      ScanOrderFacts(prefix, localIp, hi - 1);
    }
  }

  lemma {:induction false} ScanOrderExtends(prefix: string, localIp: string, i: nat, j: nat)
    requires i <= j
    ensures ScanOrder(prefix, localIp, i) <= ScanOrder(prefix, localIp, j)
    decreases j
  {
    if i < j {
      ScanOrderExtends(prefix, localIp, i, j - 1);
    }
  }

  /** The first `max_scan` entries (none when `max_scan <= 0`). */
  function Capped(hosts: seq<nat>, maxScan: int): seq<nat> {
    if maxScan <= 0 then [] else if maxScan >= |hosts| then hosts else hosts[..maxScan]
  }

  /** The hosts whose port answered, in the order they were probed. */
  function OpenHosts(prefix: string, hosts: seq<nat>, isOpen: string -> bool): seq<nat>
    decreases |hosts|
  {
    if hosts == [] then []
    else
      var last := hosts[|hosts| - 1];
      OpenHosts(prefix, hosts[..|hosts| - 1], isOpen) + (if isOpen(Address(prefix, last)) then [last] else [])
  }

  lemma {:induction false} OpenHostsFacts(prefix: string, hosts: seq<nat>, isOpen: string -> bool)
    requires forall k, l :: 0 <= k < l < |hosts| ==> hosts[k] < hosts[l]
    ensures var open := OpenHosts(prefix, hosts, isOpen);
      && |open| <= |hosts|
      && (forall h :: h in open <==> h in hosts && isOpen(Address(prefix, h)))
      && (forall k, l :: 0 <= k < l < |open| ==> open[k] < open[l])
    decreases |hosts|
  {
    if hosts != [] {
      var init := hosts[..|hosts| - 1];
      OpenHostsFacts(prefix, init, isOpen);
      assert hosts == init + [hosts[|hosts| - 1]];
      var open := OpenHosts(prefix, init, isOpen);
      assert forall k :: 0 <= k < |open| ==> open[k] in init;
    }
  }

  function Addresses(prefix: string, hosts: seq<nat>): (ips: seq<string>)
    ensures |ips| == |hosts|
    ensures forall k :: 0 <= k < |hosts| ==> ips[k] == Address(prefix, hosts[k])
  {
    seq(|hosts|, k requires 0 <= k < |hosts| => Address(prefix, hosts[k]))
  }

  /** The host numbers find_deye_inverters probes, in order. */
  function ProbedHosts(localIp: string, maxScan: int): seq<nat> {
    Capped(ScanOrder(BasePrefix(localIp), localIp, LastHost + 1), maxScan)
  }

  /** What find_deye_inverters returns: the probed addresses whose port answered, in order. */
  function ScanResult(localIp: string, isOpen: string -> bool, maxScan: int): seq<string> {
    var prefix := BasePrefix(localIp);
    Addresses(prefix, OpenHosts(prefix, ProbedHosts(localIp, maxScan), isOpen))
  }

  lemma CappedFacts(hosts: seq<nat>, maxScan: int)
    ensures Capped(hosts, maxScan) <= hosts
    ensures |Capped(hosts, maxScan)| == if RangeLength(maxScan) < |hosts| then RangeLength(maxScan) else |hosts|
  {
  }

  /** Stopping after `max_scan` probes leaves exactly the capped scan order. */
  lemma {:induction false} StoppedScan(prefix: string, localIp: string, i: nat, maxScan: int)
    requires i <= LastHost + 1
    requires |ScanOrder(prefix, localIp, i)| <= RangeLength(maxScan)
    requires i == LastHost + 1 || |ScanOrder(prefix, localIp, i)| >= maxScan
    ensures ScanOrder(prefix, localIp, i) == Capped(ScanOrder(prefix, localIp, LastHost + 1), maxScan)
  {
    var all := ScanOrder(prefix, localIp, LastHost + 1);
    var done := ScanOrder(prefix, localIp, i);
    ScanOrderExtends(prefix, localIp, i, LastHost + 1);
    CappedFacts(all, maxScan);
    assert done <= all;
  }

  lemma ProbedFacts(prefix: string, localIp: string, maxScan: int)
    ensures var probed := Capped(ScanOrder(prefix, localIp, LastHost + 1), maxScan);
      && |probed| <= RangeLength(maxScan) && |probed| <= LastHost
      && (forall k :: 0 <= k < |probed| ==> 1 <= probed[k] <= LastHost && Address(prefix, probed[k]) != localIp)
      && (forall k, l :: 0 <= k < l < |probed| ==> probed[k] < probed[l])
      && (maxScan >= LastHost ==> forall h :: 1 <= h <= LastHost && Address(prefix, h) != localIp ==> h in probed)
  {
    var all := ScanOrder(prefix, localIp, LastHost + 1);
    ScanOrderFacts(prefix, localIp, LastHost + 1);
    CappedFacts(all, maxScan);
    var probed := Capped(all, maxScan);
    assert forall k :: 0 <= k < |probed| ==> probed[k] == all[k];
    if maxScan >= LastHost {
      assert probed == all;
    }
  }

  /**
   * What find_deye_inverters promises: it probes at most `max_scan` and at
   * most 254 addresses, in ascending host order, never the local address;
   * with a large enough `max_scan` it probes every other host of the /24;
   * it returns, in probe order, exactly the probed addresses whose port
   * answered, so the local address is never among them.
   */
  lemma ScanContract(localIp: string, isOpen: string -> bool, maxScan: int)
    ensures var prefix, probed := BasePrefix(localIp), ProbedHosts(localIp, maxScan);
      var open := OpenHosts(prefix, probed, isOpen);
      && |probed| <= RangeLength(maxScan) && |probed| <= LastHost
      && (forall k :: 0 <= k < |probed| ==> 1 <= probed[k] <= LastHost && Address(prefix, probed[k]) != localIp)
      && (forall k, l :: 0 <= k < l < |probed| ==> probed[k] < probed[l])
      && (maxScan >= LastHost ==> forall h :: 1 <= h <= LastHost && Address(prefix, h) != localIp ==> h in probed)
      && (forall h :: h in open <==> h in probed && isOpen(Address(prefix, h)))
      && (forall k, l :: 0 <= k < l < |open| ==> open[k] < open[l])
      && ScanResult(localIp, isOpen, maxScan) == Addresses(prefix, open)
      && |ScanResult(localIp, isOpen, maxScan)| <= |probed|
      && localIp !in ScanResult(localIp, isOpen, maxScan)
      && (forall ip :: ip in ScanResult(localIp, isOpen, maxScan) ==> isOpen(ip))
  {
    var prefix := BasePrefix(localIp);
    ProbedFacts(prefix, localIp, maxScan);
    var probed := ProbedHosts(localIp, maxScan);
    OpenHostsFacts(prefix, probed, isOpen);
    var open := OpenHosts(prefix, probed, isOpen);
    var found := ScanResult(localIp, isOpen, maxScan);
    forall ip | ip in found
      ensures ip != localIp && isOpen(ip)
    {
      var k :| 0 <= k < |found| && found[k] == ip;
      assert open[k] in open;
    }
  }

  /** Probing one more host appends its address to the result exactly when its port answers. */
  lemma ProbeOneMore(prefix: string, hosts: seq<nat>, h: nat, isOpen: string -> bool)
    ensures Addresses(prefix, OpenHosts(prefix, hosts + [h], isOpen))
         == Addresses(prefix, OpenHosts(prefix, hosts, isOpen)) + (if isOpen(Address(prefix, h)) then [Address(prefix, h)] else [])
  {
    assert (hosts + [h])[..|hosts|] == hosts;
  }

  /**
   * find_deye_inverters: for i in 1..254, stop once `max_scan` hosts have
   * been probed, skip the local address without counting it, probe the rest
   * and collect those whose port answers. Also returns the host numbers
   * probed, in order (the calls made to the network).
   */
  method FindDeyeInverters(localIp: string, isOpen: string -> bool, maxScan: int)
    returns (found: seq<string>, probed: seq<nat>)
    ensures probed == ProbedHosts(localIp, maxScan)
    ensures found == ScanResult(localIp, isOpen, maxScan)
  {
    var prefix := BasePrefix(localIp);
    found, probed := [], [];
    var scanned := 0;
    for i := 1 to LastHost + 1
      invariant probed == ScanOrder(prefix, localIp, i)
      invariant scanned == |probed| <= RangeLength(maxScan)
      invariant found == Addresses(prefix, OpenHosts(prefix, probed, isOpen))
    {
      if scanned >= maxScan {
        StoppedScan(prefix, localIp, i, maxScan);
        return;
      }
      var ip := Address(prefix, i);
      if ip == localIp {
        continue;
      }
      ProbeOneMore(prefix, probed, i, isOpen);
      if isOpen(ip) {
        found := found + [ip];
      }
      probed := probed + [i];
      scanned := scanned + 1;
    }
    StoppedScan(prefix, localIp, LastHost + 1, maxScan);
  }

  // ---------------------------------------------------------------------
  // The serial number: get_cover_mid
  // ---------------------------------------------------------------------

  /** One HTTP request: a response with its status code and body, or a connection-level failure. */
  datatype HttpOutcome = Response(statusCode: int, text: string) | RequestFailed

  /** The outcome of the n-th request for a URL. */
  type HttpOracle = (string, nat) -> HttpOutcome

  /** `raise_for_status()` raises HTTPError for 4xx and 5xx status codes. */
  predicate RaisesForStatus(statusCode: int) {
    400 <= statusCode < 600
  }

  /** A request that got past `raise_for_status()`, whose body is searched. */
  predicate Completed(o: HttpOutcome) {
    o.Response? && !RaisesForStatus(o.statusCode)
  }

  function StatusUrl(ip: string): string {
    "http://" + ip + "/status.html"
  }

  /** The first attempt from `from` on, below `retries`, whose request completed. */
  function FirstCompleted(respond: HttpOracle, url: string, from: nat, retries: int): (r: Option<nat>)
    ensures r.Some? ==> from <= r.value < retries && Completed(respond(url, r.value))
    decreases retries - from
  {
    if from >= retries then None
    else if Completed(respond(url, from)) then Some(from)
    else FirstCompleted(respond, url, from + 1, retries)
  }

  lemma {:induction false} FirstCompletedFacts(respond: HttpOracle, url: string, from: nat, retries: int)
    ensures FirstCompleted(respond, url, from, retries).Some? ==>
      var k := FirstCompleted(respond, url, from, retries).value;
      from <= k < retries && Completed(respond(url, k))
      && forall j :: from <= j < k ==> !Completed(respond(url, j))
    ensures FirstCompleted(respond, url, from, retries).None? ==>
      forall j :: from <= j < retries ==> !Completed(respond(url, j))
    decreases retries - from
  {
    if from < retries && !Completed(respond(url, from)) {
      FirstCompletedFacts(respond, url, from + 1, retries);
    }
  }

  /** What get_cover_mid returns, and how many requests it makes. */
  function CoverMidSpec(ip: string, respond: HttpOracle, retries: int): (Option<string>, nat) {
    var url := StatusUrl(ip);
    match FirstCompleted(respond, url, 0, retries)
    case Some(k) => (ExtractCoverMid(respond(url, k).text), k + 1)
    case None => (None, RangeLength(retries))
  }

  /**
   * What get_cover_mid promises: at most `retries` requests; HTTP errors and
   * connection errors are retried; the first completed response decides, so
   * a page without the pattern ends the call at once with None; the serial
   * returned is a non-empty run of digits taken from that page; and once the
   * attempts are exhausted the result is None.
   */
  lemma GetCoverMidContract(ip: string, respond: HttpOracle, retries: int)
    ensures var (serial, n) := CoverMidSpec(ip, respond, retries); var url := StatusUrl(ip);
      && n <= RangeLength(retries)
      && (serial.Some? ==> |serial.value| > 0 && AllDigits(serial.value))
      && (forall j :: 0 <= j < n - 1 ==> !Completed(respond(url, j)))
      && (n > 0 && Completed(respond(url, n - 1)) ==> serial == ExtractCoverMid(respond(url, n - 1).text))
      && (!(n > 0 && Completed(respond(url, n - 1))) ==> serial == None && n == RangeLength(retries))
  {
    FirstCompletedFacts(respond, StatusUrl(ip), 0, retries);
  }

  /** get_cover_mid: request the status page up to `retries` times and extract `cover_mid`. */
  method GetCoverMid(ip: string, respond: HttpOracle, retries: int) returns (serial: Option<string>, requests: nat)
    ensures (serial, requests) == CoverMidSpec(ip, respond, retries)
  {
    var url := StatusUrl(ip);
    var attempt: nat := 0;
    while attempt < retries
      invariant FirstCompleted(respond, url, attempt, retries) == FirstCompleted(respond, url, 0, retries)
      decreases retries - attempt
    {
      var outcome := respond(url, attempt);
      if outcome.Response? && !RaisesForStatus(outcome.statusCode) {
        // found or "cover_mid not found in HTML.": either way no further request
        return ExtractCoverMid(outcome.text), attempt + 1;
      }
      // HTTP error or connection error: logged, a one-second sleep, then the next attempt
      attempt := attempt + 1;
    }
    return None, RangeLength(retries);
  }

  // ---------------------------------------------------------------------
  // The choice: get_info
  // ---------------------------------------------------------------------

  /** The candidate list of get_info: the first scan, or a second scan when the first found nothing. */
  function InverterList(localIp: string, firstScan: string -> bool, secondScan: string -> bool): seq<string> {
    var first := ScanResult(localIp, firstScan, MaxScan);
    if first == [] then ScanResult(localIp, secondScan, MaxScan) else first
  }

  /** The index, from `from` on, of the first address whose status page yields a serial number. */
  function FirstWithSerial(ips: seq<string>, respond: HttpOracle, from: nat): (r: Option<nat>)
    ensures r.Some? ==> from <= r.value < |ips|
    decreases |ips| - from
  {
    if from >= |ips| then None
    else if CoverMidSpec(ips[from], respond, CoverMidRetries).0.Some? then Some(from)
    else FirstWithSerial(ips, respond, from + 1)
  }

  /** The (ip, serial) pair get_info returns for a candidate list. */
  function SelectInverter(ips: seq<string>, respond: HttpOracle): (Option<string>, Option<string>) {
    match FirstWithSerial(ips, respond, 0)
    case Some(k) => (Some(ips[k]), CoverMidSpec(ips[k], respond, CoverMidRetries).0)
    case None => (if |ips| > 0 then Some(ips[0]) else None, None)
  }

  lemma {:induction false} FirstWithSerialFacts(ips: seq<string>, respond: HttpOracle, from: nat)
    ensures FirstWithSerial(ips, respond, from).Some? ==>
      var k := FirstWithSerial(ips, respond, from).value;
      from <= k < |ips| && CoverMidSpec(ips[k], respond, CoverMidRetries).0.Some?
      && forall j :: from <= j < k ==> CoverMidSpec(ips[j], respond, CoverMidRetries).0.None?
    ensures FirstWithSerial(ips, respond, from).None? ==>
      forall j :: from <= j < |ips| ==> CoverMidSpec(ips[j], respond, CoverMidRetries).0.None?
    decreases |ips| - from
  {
    if from < |ips| && CoverMidSpec(ips[from], respond, CoverMidRetries).0.None? {
      FirstWithSerialFacts(ips, respond, from + 1);
    }
  }

  /**
   * What get_info's choice promises: the first address in list order whose
   * page yields a serial, paired with that serial (index `k`); failing that,
   * the first address with no serial; (None, None) for an empty list.
   */
  lemma SelectInverterContract(ips: seq<string>, respond: HttpOracle) returns (k: nat)
    ensures var (ip, serial) := SelectInverter(ips, respond);
      && (serial.Some? ==>
            && k < |ips| && ip == Some(ips[k])
            && serial == CoverMidSpec(ips[k], respond, CoverMidRetries).0
            && forall j :: 0 <= j < k ==> CoverMidSpec(ips[j], respond, CoverMidRetries).0.None?)
      && (serial.None? ==>
            && ip == (if |ips| > 0 then Some(ips[0]) else None)
            && forall j :: 0 <= j < |ips| ==> CoverMidSpec(ips[j], respond, CoverMidRetries).0.None?)
  {
    FirstWithSerialFacts(ips, respond, 0);
    k := if FirstWithSerial(ips, respond, 0).Some? then FirstWithSerial(ips, respond, 0).value else 0;
  }

  /**
   * End to end: get_info reports a local-network address that answered on
   * the logger port in one of its scans, never this machine's own address,
   * and a serial number only as a non-empty run of digits.
   */
  lemma GetInfoContract(localIp: string, firstScan: string -> bool, secondScan: string -> bool, respond: HttpOracle)
    ensures var (ip, serial) := SelectInverter(InverterList(localIp, firstScan, secondScan), respond);
      && (ip.Some? ==> ip.value != localIp && (firstScan(ip.value) || secondScan(ip.value)))
      && (ip.Some? ==> ip.value in (if ScanResult(localIp, firstScan, MaxScan) != []
                                   then ScanResult(localIp, firstScan, MaxScan)
                                   else ScanResult(localIp, secondScan, MaxScan)))
      && (ip.None? ==> ScanResult(localIp, firstScan, MaxScan) == [] && ScanResult(localIp, secondScan, MaxScan) == [])
      && (serial.Some? ==> ip.Some? && |serial.value| > 0 && AllDigits(serial.value))
  {
    var ips := InverterList(localIp, firstScan, secondScan);
    ScanContract(localIp, firstScan, MaxScan);
    ScanContract(localIp, secondScan, MaxScan);
    var k := SelectInverterContract(ips, respond);
    if SelectInverter(ips, respond).1.Some? {
      GetCoverMidContract(ips[k], respond, CoverMidRetries);
    }
  }

  /**
   * get_info: scan (once more if nothing was found), then try the addresses
   * in order and return the first with a serial number; failing that, the
   * first address without one, or nothing at all.
   */
  method GetInfo(localIp: string, firstScan: string -> bool, secondScan: string -> bool, respond: HttpOracle)
    returns (ip: Option<string>, serial: Option<string>)
    ensures (ip, serial) == SelectInverter(InverterList(localIp, firstScan, secondScan), respond)
  {
    var ipList, probed := FindDeyeInverters(localIp, firstScan, MaxScan);
    if ipList == [] {
      ipList, probed := FindDeyeInverters(localIp, secondScan, MaxScan);
    }
    for i := 0 to |ipList|
      invariant FirstWithSerial(ipList, respond, i) == FirstWithSerial(ipList, respond, 0)
    {
      var coverMid, requests := GetCoverMid(ipList[i], respond, CoverMidRetries);
      GetCoverMidContract(ipList[i], respond, CoverMidRetries);
      if coverMid.Some? && coverMid.value != "" {
        return Some(ipList[i]), coverMid;
      }
    }
    return if |ipList| > 0 then Some(ipList[0]) else None, None;
  }
}
