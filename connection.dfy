/**
 * The Modbus connection manager of app.py: one module-wide PySolarmanV5
 * client guarded by a five-second reconnect cooldown, closed after every
 * request and, failing that, by an inactivity timer; and the bounded
 * register-read retry used by every endpoint.
 *
 * Wall-clock time is a parameter `now` (seconds, as `time.time()` returns).
 * The device is an oracle: whether constructing a client succeeds is a
 * boolean, and the outcome of each register read is given by a function of
 * (register, count, attempt). Timers are recorded by the time they are due;
 * which one fires, and when, is the caller's choice (TimerFires).
 */
module InverterConnection {
  import opened Wrappers
  import opened Registers

  /** `connection_cooldown`: seconds between two connection attempts. */
  const ConnectionCooldown: real := 5.0
  /** `inactivity_timeout`: seconds without activity before the client is closed. */
  const InactivityTimeout: real := 300.0
  /** `max_retries` of read_with_retry as every endpoint calls it. */
  const ReadRetries: int := 3

  const SocRegister: nat := 184
  const LoadPowerRegister: nat := 178
  const BatteryPowerRegister: nat := 190
  const TotalAcPowerRegister: nat := 175

  /** A PySolarmanV5 client; `serial` numbers the clients in the order they were constructed. */
  datatype Client = Client(serial: nat)

  /** The outcome of one `read_holding_registers` call. */
  datatype ReadOutcome = Data(words: seq<int>) | NoData | ReadError

  /** How read_with_retry ends: it returns a list or None, or it re-raises the last read error. */
  datatype ReadResult = Returned(reading: Reading) | Raised

  /** The device's answer to the attempt-th read of `count` registers from `register`. */
  type ReadOracle = (nat, nat, nat) -> ReadOutcome

  /**
   * read_with_retry from attempt `attempt` on: how it ends, and how many
   * read attempts have been made in all by then.
   */
  function RetryFrom(read: ReadOracle, register: nat, count: nat, attempt: nat, maxRetries: int): (ReadResult, nat)
    decreases maxRetries - attempt
  {
    if attempt >= maxRetries then (Returned(None), attempt)
    else match read(register, count, attempt)
      case Data(words) => (Returned(Some(words)), attempt + 1)
      case NoData => RetryFrom(read, register, count, attempt + 1, maxRetries)
      case ReadError =>
        if attempt == maxRetries - 1 then (Raised, attempt + 1)
        else RetryFrom(read, register, count, attempt + 1, maxRetries)
  }

  function ReadSpec(read: ReadOracle, register: nat, count: nat, maxRetries: int): (ReadResult, nat) {
    RetryFrom(read, register, count, 0, maxRetries)
  }

  /** The value an endpoint gets for one register (count 1, three attempts). */
  function RegisterRead(read: ReadOracle, register: nat): ReadResult {
    ReadSpec(read, register, 1, ReadRetries).0
  }

  lemma {:induction false} RetryFromFacts(read: ReadOracle, register: nat, count: nat, attempt: nat, maxRetries: int)
    ensures var (r, n) := RetryFrom(read, register, count, attempt, maxRetries);
      && (attempt >= maxRetries ==> r == Returned(None) && n == attempt)
      && (attempt < maxRetries ==> attempt < n <= maxRetries)
      && (forall j :: attempt <= j < n - 1 ==> !read(register, count, j).Data?)
      && (r.Returned? && r.reading.Some? <==> n > attempt && read(register, count, n - 1).Data?)
      && (r.Returned? && r.reading.Some? ==> r.reading.value == read(register, count, n - 1).words)
      && (r.Raised? <==> n > attempt && n == maxRetries && read(register, count, n - 1).ReadError?)
      && (r == Returned(None) && n > attempt ==> n == maxRetries && read(register, count, n - 1).NoData?)
    decreases maxRetries - attempt
  {
    if attempt < maxRetries {
      match read(register, count, attempt)
      case Data(_) =>
      case NoData => RetryFromFacts(read, register, count, attempt + 1, maxRetries);
      case ReadError =>
        if attempt < maxRetries - 1 {
          RetryFromFacts(read, register, count, attempt + 1, maxRetries);
        }
    }
  }

  /**
   * What read_with_retry promises: at most `maxRetries` attempts; the first
   * list the device returns is the result; None from the device does not
   * stop the loop; an error on the final attempt is re-raised; otherwise the
   * result is None once every attempt is spent.
   */
  lemma ReadWithRetryContract(read: ReadOracle, register: nat, count: nat, maxRetries: int)
    ensures var (r, n) := ReadSpec(read, register, count, maxRetries);
      && n <= RangeLength(maxRetries)
      && (forall j :: 0 <= j < n - 1 ==> !read(register, count, j).Data?)
      && (r.Returned? && r.reading.Some? <==> n > 0 && read(register, count, n - 1).Data?)
      && (r.Returned? && r.reading.Some? ==> r.reading.value == read(register, count, n - 1).words)
      && (r.Raised? <==> n > 0 && n == maxRetries && read(register, count, n - 1).ReadError?)
      && (r == Returned(None) ==> n == RangeLength(maxRetries)
                                  && forall j :: 0 <= j < n ==> !read(register, count, j).Data?)
  {
    RetryFromFacts(read, register, count, 0, maxRetries);
  }

  /** A read that returns None does not end the retry loop: the next attempt decides. */
  lemma {:induction false} NoDataRetries(read: ReadOracle, register: nat, count: nat, attempt: nat, maxRetries: int)
    requires attempt < maxRetries && read(register, count, attempt) == NoData
    ensures RetryFrom(read, register, count, attempt, maxRetries) == RetryFrom(read, register, count, attempt + 1, maxRetries)
  {
  }

  /** read_with_retry: a `for attempt in range(max_retries)` loop with early return or re-raise. */
  method ReadWithRetry(read: ReadOracle, register: nat, count: nat, maxRetries: int) returns (r: ReadResult, attempts: nat)
    ensures (r, attempts) == ReadSpec(read, register, count, maxRetries)
  {
    attempts := 0;
    while attempts < maxRetries
      invariant RetryFrom(read, register, count, attempts, maxRetries) == ReadSpec(read, register, count, maxRetries)
      decreases maxRetries - attempts
    {
      var outcome := read(register, count, attempts);
      match outcome {
        case Data(words) =>
          return Returned(Some(words)), attempts + 1;
        case NoData =>
          // "No data returned": logged, and the loop goes on
          NoDataRetries(read, register, count, attempts, maxRetries);
        case ReadError =>
          if attempts == maxRetries - 1 {
            return Raised, attempts + 1;
          }
          // a short sleep, then the next attempt
      }
      attempts := attempts + 1;
    }
    r := Returned(None);
  }

  /** Why a data endpoint answered with an error (HTTP 500). */
  datatype RequestError =
    | ConnectionFailed        // "Failed to establish modbus connection"
    | ReadFailed(register: nat)

  datatype Outcome<+T> = Served(data: T) | Failed(error: RequestError)

  class ConnectionManager {
    /** `modbus_connection` */
    var connection: Option<Client>
    /** `last_connection_attempt` */
    var lastConnectionAttempt: real
    /** `last_activity_time` */
    var lastActivityTime: real
    /** `cleanup_timer`: the timer the module remembers, by its number */
    var cleanupTimer: Option<nat>
    /** Timers started and neither cancelled nor fired: number to the time each is due. */
    var armed: map<nat, real>
    /** How many clients and how many timers have been created so far. */
    var clientsCreated: nat
    var timersCreated: nat

    ghost predicate Valid()
      reads this
    {
      && (connection.Some? ==> connection.value.serial < clientsCreated)
      && (cleanupTimer.Some? ==> cleanupTimer.value < timersCreated)
      && (forall id :: id in armed ==> id < timersCreated)
    }

    /**
     * The timer the module remembers, while it is still armed, falls due
     * 300 s after the last activity: every request restarts it.
     */
    ghost predicate RememberedTimerTracksActivity()
      reads this
    {
      cleanupTimer.Some? && cleanupTimer.value in armed ==>
        armed[cleanupTimer.value] == lastActivityTime + InactivityTimeout
    }

    /** The module's initial state: no client, both timestamps 0, no timer. */
    constructor ()
      ensures Valid()
      ensures connection == None && lastConnectionAttempt == 0.0 && lastActivityTime == 0.0
      ensures cleanupTimer == None && armed == map[] && clientsCreated == 0 && timersCreated == 0
      ensures RememberedTimerTracksActivity()
    {
      connection := None;
      lastConnectionAttempt, lastActivityTime := 0.0, 0.0;
      cleanupTimer, armed := None, map[];
      clientsCreated, timersCreated := 0, 0;
    }

    /** schedule_cleanup: cancel the remembered timer, start a new one due in 300 s and remember it. */
    method ScheduleCleanup(now: real)
      requires Valid()
      modifies this
      ensures Valid()
      ensures cleanupTimer == Some(old(timersCreated)) && timersCreated == old(timersCreated) + 1
      ensures armed == (if old(cleanupTimer).Some? then old(armed) - {old(cleanupTimer).value} else old(armed))
                       [old(timersCreated) := now + InactivityTimeout]
      ensures connection == old(connection) && clientsCreated == old(clientsCreated)
      ensures lastConnectionAttempt == old(lastConnectionAttempt) && lastActivityTime == old(lastActivityTime)
    {
      if cleanupTimer.Some? {
        // Timer.cancel(): a timer that has already fired is simply not armed any more
        armed := armed - {cleanupTimer.value};
      }
      armed := armed[timersCreated := now + InactivityTimeout];
      cleanupTimer := Some(timersCreated);
      timersCreated := timersCreated + 1;
    }

    /** update_activity: record the time of this request and restart the inactivity timer. */
    method UpdateActivity(now: real)
      requires Valid()
      modifies this
      ensures Valid()
      ensures lastActivityTime == now
      ensures cleanupTimer == Some(old(timersCreated)) && timersCreated == old(timersCreated) + 1
      ensures armed == (if old(cleanupTimer).Some? then old(armed) - {old(cleanupTimer).value} else old(armed))
                       [old(timersCreated) := now + InactivityTimeout]
      ensures connection == old(connection) && clientsCreated == old(clientsCreated)
      ensures lastConnectionAttempt == old(lastConnectionAttempt)
      ensures RememberedTimerTracksActivity()
    {
      lastActivityTime := now;
      ScheduleCleanup(now);
    }

    /**
     * safe_disconnect: close the client if there is one. An exception from
     * `disconnect()` is logged and swallowed, and the `finally` clears the
     * client on every path, so the outcome does not depend on it.
     */
    method SafeDisconnect()
      requires Valid()
      modifies this
      ensures Valid()
      ensures connection == None
      ensures lastConnectionAttempt == old(lastConnectionAttempt) && lastActivityTime == old(lastActivityTime)
      ensures cleanupTimer == old(cleanupTimer) && armed == old(armed)
      ensures clientsCreated == old(clientsCreated) && timersCreated == old(timersCreated)
    {
      if connection.Some? {
        connection := None;
      }
    }

    /**
     * auto_disconnect: after 300 s or more without activity, close the client;
     * otherwise start a new timer for the remaining time, which falls due 300 s
     * after the last activity. The new timer is bound to a local variable (the
     * function's `global` statement does not name `cleanup_timer`), so the
     * module keeps remembering the old timer and the new one is never cancelled.
     */
    method AutoDisconnect(now: real) returns (rescheduledIn: Option<real>)
      requires Valid()
      modifies this
      ensures Valid()
      ensures now - old(lastActivityTime) >= InactivityTimeout ==>
        connection == None && rescheduledIn == None && armed == old(armed) && timersCreated == old(timersCreated)
      ensures now - old(lastActivityTime) < InactivityTimeout ==>
        && connection == old(connection)
        && rescheduledIn == Some(InactivityTimeout - (now - old(lastActivityTime)))
        && rescheduledIn.value > 0.0
        && armed == old(armed)[old(timersCreated) := old(lastActivityTime) + InactivityTimeout]
        && timersCreated == old(timersCreated) + 1
      ensures cleanupTimer == old(cleanupTimer)
      ensures lastConnectionAttempt == old(lastConnectionAttempt) && lastActivityTime == old(lastActivityTime)
      ensures clientsCreated == old(clientsCreated)
      ensures old(RememberedTimerTracksActivity()) ==> RememberedTimerTracksActivity()
    {
      var elapsed := now - lastActivityTime;
      if elapsed >= InactivityTimeout {
        SafeDisconnect();
        rescheduledIn := None;
      } else {
        var remaining := InactivityTimeout - elapsed;
        armed := armed[timersCreated := now + remaining];
        timersCreated := timersCreated + 1;
        rescheduledIn := Some(remaining);
      }
    }

    /**
     * An armed timer fires at `now`: it is no longer armed, and it runs
     * auto_disconnect. The caller chooses `now`, which may be earlier than the
     * time the timer is due: a request's `cancel()` racing a timer that has
     * already started, or a step in the wall clock, which `time.time()` sees
     * and the timer's wait does not, both make auto_disconnect run with less
     * than 300 s elapsed. Without either, the remembered timer fires on time
     * and always closes the client (the last ensures).
     */
    method TimerFires(id: nat, now: real) returns (rescheduledIn: Option<real>)
      requires Valid() && id in armed
      modifies this
      ensures Valid()
      ensures now - old(lastActivityTime) >= InactivityTimeout ==>
        && connection == None && rescheduledIn == None && armed == old(armed) - {id}
        && timersCreated == old(timersCreated)
      ensures now - old(lastActivityTime) < InactivityTimeout ==>
        && connection == old(connection)
        && rescheduledIn == Some(InactivityTimeout - (now - old(lastActivityTime)))
        && armed == (old(armed) - {id})[old(timersCreated) := old(lastActivityTime) + InactivityTimeout]
        && timersCreated == old(timersCreated) + 1
      ensures cleanupTimer == old(cleanupTimer) && clientsCreated == old(clientsCreated)
      ensures lastConnectionAttempt == old(lastConnectionAttempt) && lastActivityTime == old(lastActivityTime)
      ensures old(RememberedTimerTracksActivity()) ==> RememberedTimerTracksActivity()
      ensures old(RememberedTimerTracksActivity()) && old(cleanupTimer) == Some(id) && now >= old(armed)[id] ==>
        connection == None && rescheduledIn == None
    {
      armed := armed - {id};
      rescheduledIn := AutoDisconnect(now);
    }

    /**
     * get_modbus_connection: mark activity; within 5 s of the previous attempt
     * answer None and change nothing else; otherwise close any existing client
     * and construct a new one, recording the attempt time whether or not the
     * construction succeeds.
     */
    method GetModbusConnection(now: real, constructed: bool) returns (client: Option<Client>)
      requires Valid()
      modifies this
      ensures Valid()
      ensures lastActivityTime == now
      ensures cleanupTimer == Some(old(timersCreated)) && timersCreated == old(timersCreated) + 1
      ensures armed == (if old(cleanupTimer).Some? then old(armed) - {old(cleanupTimer).value} else old(armed))
                       [old(timersCreated) := now + InactivityTimeout]
      ensures now - old(lastConnectionAttempt) < ConnectionCooldown ==>
        && client == None
        && connection == old(connection)
        && lastConnectionAttempt == old(lastConnectionAttempt)
        && clientsCreated == old(clientsCreated)
      ensures now - old(lastConnectionAttempt) >= ConnectionCooldown ==>
        && lastConnectionAttempt == now
        && (constructed ==> client == Some(Client(old(clientsCreated))) && clientsCreated == old(clientsCreated) + 1)
        && (!constructed ==> client == None && clientsCreated == old(clientsCreated))
        && connection == client
      ensures RememberedTimerTracksActivity()
    {
      UpdateActivity(now);
      if now - lastConnectionAttempt < ConnectionCooldown {
        return None;
      }
      // An existing client is disconnected first; any exception from that is ignored.
      if constructed {
        connection := Some(Client(clientsCreated));
        clientsCreated := clientsCreated + 1;
        lastConnectionAttempt := now;
        client := connection;
      } else {
        lastConnectionAttempt := now;
        connection := None;
        client := None;
      }
    }

    /**
     * /api/critical-data with its error decorator: connect, read registers
     * 184, 178 and 190 in turn, decode, and close the client in the `finally`
     * block; a missing client or a read that raises becomes an error answer,
     * after which the decorator closes the client again (a no-op by then).
     */
    method ServeCriticalData(now: real, constructed: bool, read: ReadOracle) returns (response: Outcome<CriticalData>)
      requires Valid()
      modifies this
      ensures Valid()
      ensures connection == None
      ensures lastActivityTime == now
      ensures lastConnectionAttempt == if now - old(lastConnectionAttempt) < ConnectionCooldown
                                       then old(lastConnectionAttempt) else now
      ensures cleanupTimer == Some(old(timersCreated)) && timersCreated == old(timersCreated) + 1
      ensures armed == (if old(cleanupTimer).Some? then old(armed) - {old(cleanupTimer).value} else old(armed))
                       [old(timersCreated) := now + InactivityTimeout]
      ensures RememberedTimerTracksActivity()
      ensures clientsCreated == if now - old(lastConnectionAttempt) >= ConnectionCooldown && constructed
                                then old(clientsCreated) + 1 else old(clientsCreated)
      ensures response == Failed(ConnectionFailed) <==>
        now - old(lastConnectionAttempt) < ConnectionCooldown || !constructed
      ensures response.Served? <==>
        && now - old(lastConnectionAttempt) >= ConnectionCooldown && constructed
        && RegisterRead(read, SocRegister).Returned?
        && RegisterRead(read, LoadPowerRegister).Returned?
        && RegisterRead(read, BatteryPowerRegister).Returned?
      ensures response == Failed(ReadFailed(SocRegister)) <==>
        && now - old(lastConnectionAttempt) >= ConnectionCooldown && constructed
        && RegisterRead(read, SocRegister).Raised?
      ensures response == Failed(ReadFailed(LoadPowerRegister)) <==>
        && now - old(lastConnectionAttempt) >= ConnectionCooldown && constructed
        && RegisterRead(read, SocRegister).Returned?
        && RegisterRead(read, LoadPowerRegister).Raised?
      ensures response == Failed(ReadFailed(BatteryPowerRegister)) <==>
        && now - old(lastConnectionAttempt) >= ConnectionCooldown && constructed
        && RegisterRead(read, SocRegister).Returned?
        && RegisterRead(read, LoadPowerRegister).Returned?
        && RegisterRead(read, BatteryPowerRegister).Raised?
      ensures response.Served? ==> response.data == DecodeCriticalData(
        RegisterRead(read, SocRegister).reading,
        RegisterRead(read, LoadPowerRegister).reading,
        RegisterRead(read, BatteryPowerRegister).reading)
    {
      var client := GetModbusConnection(now, constructed);
      if client.None? {
        SafeDisconnect();
        return Failed(ConnectionFailed);
      }
      var soc, _ := ReadWithRetry(read, SocRegister, 1, ReadRetries);
      if soc.Raised? {
        SafeDisconnect();
        return Failed(ReadFailed(SocRegister));
      }
      var load, _ := ReadWithRetry(read, LoadPowerRegister, 1, ReadRetries);
      if load.Raised? {
        SafeDisconnect();
        return Failed(ReadFailed(LoadPowerRegister));
      }
      var battery, _ := ReadWithRetry(read, BatteryPowerRegister, 1, ReadRetries);
      if battery.Raised? {
        SafeDisconnect();
        return Failed(ReadFailed(BatteryPowerRegister));
      }
      response := Served(DecodeCriticalData(soc.reading, load.reading, battery.reading));
      SafeDisconnect();
    }

    /** /api/data (legacy): the same request flow over registers 184 and 175. */
    method ServeLegacyData(now: real, constructed: bool, read: ReadOracle) returns (response: Outcome<LegacyData>)
      requires Valid()
      modifies this
      ensures Valid()
      ensures connection == None
      ensures lastActivityTime == now
      ensures lastConnectionAttempt == if now - old(lastConnectionAttempt) < ConnectionCooldown
                                       then old(lastConnectionAttempt) else now
      ensures cleanupTimer == Some(old(timersCreated)) && timersCreated == old(timersCreated) + 1
      ensures armed == (if old(cleanupTimer).Some? then old(armed) - {old(cleanupTimer).value} else old(armed))
                       [old(timersCreated) := now + InactivityTimeout]
      ensures RememberedTimerTracksActivity()
      ensures clientsCreated == if now - old(lastConnectionAttempt) >= ConnectionCooldown && constructed
                                then old(clientsCreated) + 1 else old(clientsCreated)
      ensures response == Failed(ConnectionFailed) <==>
        now - old(lastConnectionAttempt) < ConnectionCooldown || !constructed
      ensures response.Served? <==>
        && now - old(lastConnectionAttempt) >= ConnectionCooldown && constructed
        && RegisterRead(read, SocRegister).Returned?
        && RegisterRead(read, TotalAcPowerRegister).Returned?
      ensures response == Failed(ReadFailed(SocRegister)) <==>
        && now - old(lastConnectionAttempt) >= ConnectionCooldown && constructed
        && RegisterRead(read, SocRegister).Raised?
      ensures response == Failed(ReadFailed(TotalAcPowerRegister)) <==>
        && now - old(lastConnectionAttempt) >= ConnectionCooldown && constructed
        && RegisterRead(read, SocRegister).Returned?
        && RegisterRead(read, TotalAcPowerRegister).Raised?
      ensures response.Served? ==> response.data == DecodeLegacyData(
        RegisterRead(read, SocRegister).reading, RegisterRead(read, TotalAcPowerRegister).reading)
    {
      var client := GetModbusConnection(now, constructed);
      if client.None? {
        SafeDisconnect();
        return Failed(ConnectionFailed);
      }
      var soc, _ := ReadWithRetry(read, SocRegister, 1, ReadRetries);
      if soc.Raised? {
        SafeDisconnect();
        return Failed(ReadFailed(SocRegister));
      }
      var load, _ := ReadWithRetry(read, TotalAcPowerRegister, 1, ReadRetries);
      if load.Raised? {
        SafeDisconnect();
        return Failed(ReadFailed(TotalAcPowerRegister));
      }
      response := Served(DecodeLegacyData(soc.reading, load.reading));
      SafeDisconnect();
    }
  }

  /**
   * Two critical-data requests less than five seconds apart on a fresh
   * module: the first contacts the device, and the second is refused by the
   * cooldown whatever the device would have answered, because every
   * connection attempt, successful or not, restarts the cooldown. Whether
   * the first attempt constructs a client is `constructed`.
   */
  method BackToBackRequests(t1: real, t2: real, constructed: bool, read: ReadOracle)
    returns (first: Outcome<CriticalData>, second: Outcome<CriticalData>)
    requires ConnectionCooldown <= t1 && t2 - t1 < ConnectionCooldown
    ensures !constructed ==> first == Failed(ConnectionFailed)
    ensures first.Served? <==>
      && constructed
      && RegisterRead(read, SocRegister).Returned?
      && RegisterRead(read, LoadPowerRegister).Returned?
      && RegisterRead(read, BatteryPowerRegister).Returned?
    ensures second == Failed(ConnectionFailed)
  {
    var m := new ConnectionManager();
    first := m.ServeCriticalData(t1, constructed, read);
    second := m.ServeCriticalData(t2, true, read);
  }

  /**
   * A timer that runs auto_disconnect before 300 s have passed since the
   * last activity (at `t1 < t0 + 300`, earlier than it was due: a request's
   * `cancel()` racing a timer that has already started, or a step in the
   * wall clock) starts a replacement that the module does not remember. The
   * next request's schedule_cleanup then cancels the old, already fired
   * timer and leaves the replacement running beside the new one: two timers
   * are armed.
   */
  method RescheduledTimerIsOrphaned(t0: real, t1: real, t2: real) returns (armedTimers: nat, rescheduled: bool)
    requires t1 - t0 < InactivityTimeout
    ensures rescheduled
    ensures armedTimers == 2
  {
    var m := new ConnectionManager();
    m.UpdateActivity(t0);
    var fired := m.cleanupTimer.value;
    var delay := m.TimerFires(fired, t1);
    rescheduled := delay.Some?;
    m.UpdateActivity(t2);
    armedTimers := |m.armed.Keys|;
  }
}
