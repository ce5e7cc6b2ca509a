/**
 * Decoding of the inverter's raw holding registers into the values the
 * HTTP endpoints report (app.py, get_critical_data, get_solar_current,
 * get_complete_data, get_legacy_data).
 *
 * Registers are 16-bit words. Values the source scales by 0.1 or 0.01 are
 * kept here as integers in tenths or hundredths of their unit: the raw word
 * for most of them, the signed value of the word for the battery current,
 * and the signed value minus 1000 for the two temperatures. The source's
 * floating-point scaling and rounding are not modelled.
 */
module Registers {
  import opened Wrappers
  import opened Decimal

  /** What one `read_with_retry` call handed back: None, or the list of words read. */
  type Reading = Option<seq<int>>

  predicate IsWord(x: int) {
    0 <= x < 0x1_0000
  }

  /** `raw[0] if raw else 0`: a missing or empty read decodes to 0. */
  function FirstWord(reading: Reading): (w: int)
    ensures reading == None || reading == Some([]) ==> w == 0
    ensures reading.Some? && |reading.value| > 0 ==> w == reading.value[0]
  {
    if reading.Some? && |reading.value| > 0 then reading.value[0] else 0
  }

  /** `if x > 32767: x -= 65536`: a word read as a 16-bit two's-complement number. */
  function Signed16(x: int): (v: int)
    ensures IsWord(x) ==> -0x8000 <= v < 0x8000
    ensures IsWord(x) ==> (v < 0 <==> x > 0x7FFF)
    ensures IsWord(x) && x <= 0x7FFF ==> v == x
    ensures (x - v) % 0x1_0000 == 0
  {
    if x > 0x7FFF then x - 0x1_0000 else x
  }

  /** The 16-bit two's-complement encoding of a number: the word the device stores. */
  function Unsigned16(v: int): (w: int)
    ensures IsWord(w)
    ensures (w - v) % 0x1_0000 == 0
  {
    v % 0x1_0000
  }

  lemma SignedOfUnsigned(v: int)
    requires -0x8000 <= v < 0x8000
    ensures Signed16(Unsigned16(v)) == v
  {
  }

  lemma UnsignedOfSigned(x: int)
    requires IsWord(x)
    ensures Unsigned16(Signed16(x)) == x
  {
  }

  /** Signed16 loses nothing on words: different words decode to different numbers. */
  lemma Signed16Injective(x: int, y: int)
    requires IsWord(x) && IsWord(y)
    ensures Signed16(x) == Signed16(y) ==> x == y
  {
    UnsignedOfSigned(x);
    UnsignedOfSigned(y);
  }

  /** `f"Unknown ({code})"`, the fallback of both status lookups. */
  function UnknownStatus(code: int): (s: string)
    ensures |s| > 10 && s[..9] == "Unknown (" && s[|s| - 1] == ')'
    ensures s[9..|s| - 1] == IntToString(code)
  {
    "Unknown (" + IntToString(code) + ")"
  }

  lemma UnknownStatusInjective(a: int, b: int)
    ensures UnknownStatus(a) == UnknownStatus(b) ==> a == b
  {
    if UnknownStatus(a) == UnknownStatus(b) {
      var sa, sb := UnknownStatus(a), UnknownStatus(b);
      assert IntToString(a) == sa[9..|sa| - 1];
      assert IntToString(b) == sb[9..|sb| - 1];
      IntToStringInjective(a, b);
    }
  }

  /** Register 189: `{0: "Charge", 1: "Stand-by", 2: "Discharge"}` with the Unknown fallback. */
  function BatteryStatus(code: int): (s: string)
    ensures s == "Charge" <==> code == 0
    ensures s == "Stand-by" <==> code == 1
    ensures s == "Discharge" <==> code == 2
    ensures code !in {0, 1, 2} ==> s == UnknownStatus(code)
  {
    if code == 0 then "Charge"
    else if code == 1 then "Stand-by"
    else if code == 2 then "Discharge"
    else UnknownStatus(code)
  }

  /** Register 59: `{0: "Stand-by", 1: "Self-checking", 2: "Normal", 3: "FAULT"}` with the Unknown fallback. */
  function InverterStatus(code: int): (s: string)
    ensures s == "Stand-by" <==> code == 0
    ensures s == "Self-checking" <==> code == 1
    ensures s == "Normal" <==> code == 2
    ensures s == "FAULT" <==> code == 3
    ensures code !in {0, 1, 2, 3} ==> s == UnknownStatus(code)
  {
    if code == 0 then "Stand-by"
    else if code == 1 then "Self-checking"
    else if code == 2 then "Normal"
    else if code == 3 then "FAULT"
    else UnknownStatus(code)
  }

  /** The battery status text names its code: no two codes share a text. */
  lemma BatteryStatusInjective(a: int, b: int)
    ensures BatteryStatus(a) == BatteryStatus(b) ==> a == b
  {
    UnknownStatusInjective(a, b);
  }

  /** The inverter status text names its code: no two codes share a text. */
  lemma InverterStatusInjective(a: int, b: int)
    ensures InverterStatus(a) == InverterStatus(b) ==> a == b
  {
    UnknownStatusInjective(a, b);
  }

  /** Register 194: `"On-Grid" if code == 1 else "Off-Grid"`. */
  function GridConnection(code: int): (s: string)
    ensures s == "On-Grid" <==> code == 1
    ensures s == "Off-Grid" <==> code != 1
  {
    if code == 1 then "On-Grid" else "Off-Grid"
  }

  // ---------------------------------------------------------------------
  // The values each endpoint reports, one record per JSON object.
  // ---------------------------------------------------------------------

  /** /api/critical-data: registers 184 (SoC), 178 (load power), 190 (battery power, signed). */
  datatype CriticalData = CriticalData(batteryPercentage: int, loadPower: int, batteryPower: int)

  function DecodeCriticalData(soc: Reading, load: Reading, battery: Reading): (d: CriticalData)
    ensures d.batteryPercentage == FirstWord(soc) && d.loadPower == FirstWord(load)
    ensures IsWord(FirstWord(battery)) ==>
      -0x8000 <= d.batteryPower < 0x8000 && Unsigned16(d.batteryPower) == FirstWord(battery)
  {
    var b := Signed16(FirstWord(battery));
    CriticalData(FirstWord(soc), FirstWord(load), b)
  }

  /**
   * /api/solar-current: registers 110/112 (PV currents, 0.1 A), 186/187 (PV powers, W),
   * 109/111 (PV voltages, 0.1 V).
   */
  datatype SolarCurrent = SolarCurrent(
    pv1CurrentDeciAmps: int, pv2CurrentDeciAmps: int,
    pv1Power: int, pv2Power: int,
    pv1VoltageDeciVolts: int, pv2VoltageDeciVolts: int,
    totalSolarPower: int)

  function DecodeSolarCurrent(pv1Current: Reading, pv2Current: Reading, pv1Power: Reading,
                              pv2Power: Reading, pv1Voltage: Reading, pv2Voltage: Reading): (d: SolarCurrent)
    ensures d.pv1Power == FirstWord(pv1Power) && d.pv2Power == FirstWord(pv2Power)
    ensures d.totalSolarPower == d.pv1Power + d.pv2Power
    ensures IsWord(d.pv1Power) && IsWord(d.pv2Power) ==> 0 <= d.totalSolarPower <= 2 * 0xFFFF
    ensures d.pv1CurrentDeciAmps == FirstWord(pv1Current) && d.pv2CurrentDeciAmps == FirstWord(pv2Current)
    ensures d.pv1VoltageDeciVolts == FirstWord(pv1Voltage) && d.pv2VoltageDeciVolts == FirstWord(pv2Voltage)
  {
    var p1, p2 := FirstWord(pv1Power), FirstWord(pv2Power);
    SolarCurrent(FirstWord(pv1Current), FirstWord(pv2Current), p1, p2,
                 FirstWord(pv1Voltage), FirstWord(pv2Voltage), p1 + p2)
  }

  /** The `grid` object of /api/complete-data: registers 169 (power, signed), 150 (0.1 V), 160 (0.01 A). */
  datatype GridData = GridData(power: int, voltageDeciVolts: int, currentCentiAmps: int, feedingIn: bool)

  function DecodeGrid(power: Reading, voltage: Reading, current: Reading): (d: GridData)
    ensures d.feedingIn <==> d.power < 0
    ensures IsWord(FirstWord(power)) ==> -0x8000 <= d.power < 0x8000
    ensures IsWord(FirstWord(power)) ==> (d.feedingIn <==> FirstWord(power) > 0x7FFF)
    ensures IsWord(FirstWord(power)) ==> Unsigned16(d.power) == FirstWord(power)
    ensures d.voltageDeciVolts == FirstWord(voltage) && d.currentCentiAmps == FirstWord(current)
  {
    var p := Signed16(FirstWord(power));
    GridData(p, FirstWord(voltage), FirstWord(current), p < 0)
  }

  /** The `battery` object: registers 183 (0.01 V), 191 (current, signed, 0.01 A), 189 (status code). */
  datatype BatteryData = BatteryData(voltageCentiVolts: int, currentCentiAmps: int, status: string, statusCode: int)

  function DecodeBattery(voltage: Reading, current: Reading, status: Reading): (d: BatteryData)
    ensures d.statusCode == FirstWord(status)
    ensures d.status == BatteryStatus(d.statusCode)
    ensures d.status == "Charge" <==> d.statusCode == 0
    ensures d.status == "Stand-by" <==> d.statusCode == 1
    ensures d.status == "Discharge" <==> d.statusCode == 2
    ensures IsWord(FirstWord(current)) ==>
      -0x8000 <= d.currentCentiAmps < 0x8000 && Unsigned16(d.currentCentiAmps) == FirstWord(current)
    ensures d.voltageCentiVolts == FirstWord(voltage)
  {
    var code := FirstWord(status);
    BatteryData(FirstWord(voltage), Signed16(FirstWord(current)), BatteryStatus(code), code)
  }

  /** The temperature rule `signed * 0.1 - 100`, in tenths of a degree: the signed word minus 1000. */
  function TemperatureDeciCelsius(raw: int): (t: int)
    ensures IsWord(raw) ==> -0x8000 - 1000 <= t < 0x8000 - 1000
    ensures IsWord(raw) ==> Unsigned16(t + 1000) == raw
  {
    Signed16(raw) - 1000
  }

  /**
   * The `inverter` object: registers 59 (status code), 175 (total AC power, signed),
   * 90/91 (DC/AC temperature), 194 (grid connection code).
   */
  datatype InverterData = InverterData(
    status: string, statusCode: int, totalAcPower: int,
    dcTemperatureDeciCelsius: int, acTemperatureDeciCelsius: int,
    gridConnected: string, gridConnectedCode: int)

  function DecodeInverter(status: Reading, acPower: Reading, dcTemp: Reading, acTemp: Reading,
                          gridConnected: Reading): (d: InverterData)
    ensures d.statusCode == FirstWord(status) && d.gridConnectedCode == FirstWord(gridConnected)
    ensures d.status == InverterStatus(d.statusCode)
    ensures d.gridConnected == GridConnection(d.gridConnectedCode)
    ensures d.status == "Normal" <==> d.statusCode == 2
    ensures d.status == "FAULT" <==> d.statusCode == 3
    ensures d.gridConnected == "On-Grid" <==> d.gridConnectedCode == 1
    ensures IsWord(FirstWord(acPower)) ==>
      -0x8000 <= d.totalAcPower < 0x8000 && Unsigned16(d.totalAcPower) == FirstWord(acPower)
    ensures d.dcTemperatureDeciCelsius == TemperatureDeciCelsius(FirstWord(dcTemp))
    ensures d.acTemperatureDeciCelsius == TemperatureDeciCelsius(FirstWord(acTemp))
  {
    var code, grid := FirstWord(status), FirstWord(gridConnected);
    InverterData(InverterStatus(code), code, Signed16(FirstWord(acPower)),
                 TemperatureDeciCelsius(FirstWord(dcTemp)), TemperatureDeciCelsius(FirstWord(acTemp)),
                 GridConnection(grid), grid)
  }

  /** The `daily_stats` object: registers 108, 84, 70, each in 0.1 kWh. */
  datatype DailyStats = DailyStats(productionDeciKwh: int, consumptionDeciKwh: int, batteryChargeDeciKwh: int)

  function DecodeDailyStats(production: Reading, consumption: Reading, batteryCharge: Reading): (d: DailyStats)
    ensures d.productionDeciKwh == FirstWord(production)
    ensures d.consumptionDeciKwh == FirstWord(consumption)
    ensures d.batteryChargeDeciKwh == FirstWord(batteryCharge)
  {
    DailyStats(FirstWord(production), FirstWord(consumption), FirstWord(batteryCharge))
  }

  /** /api/legacy data: registers 184 (SoC) and 175 (load power, `abs` of the unsigned word). */
  datatype LegacyData = LegacyData(batteryPercentage: int, loadPower: int)

  function DecodeLegacyData(soc: Reading, load: Reading): (d: LegacyData)
    ensures d.batteryPercentage == FirstWord(soc)
    ensures d.loadPower >= 0
    ensures d.loadPower == FirstWord(load) || d.loadPower == -FirstWord(load)
  {
    var w := FirstWord(load);
    LegacyData(FirstWord(soc), if w < 0 then -w else w)
  }

  /**
   * The legacy endpoint reads register 175 without the signed conversion that
   * /api/complete-data applies to the same register, so its `abs` changes
   * nothing: it reports the raw word, and the two endpoints disagree exactly
   * when the inverter's AC power is negative.
   */
  lemma LegacyLoadPowerIsRawWord(soc: Reading, load: Reading, status: Reading, dcTemp: Reading,
                                 acTemp: Reading, gridConnected: Reading)
    requires IsWord(FirstWord(load))
    ensures DecodeLegacyData(soc, load).loadPower == FirstWord(load)
    ensures var inverter := DecodeInverter(status, load, dcTemp, acTemp, gridConnected);
      DecodeLegacyData(soc, load).loadPower != inverter.totalAcPower <==> inverter.totalAcPower < 0
  {
  }
}
