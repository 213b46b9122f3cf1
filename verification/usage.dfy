/** How a caller drives the driver, and what it can conclude from the contracts alone:
    a bus that keeps the last word written lets a setting be read back, and a bus
    whose first write fails stops the guarded write at the erase. */
module Usage {
  import opened Words
  import opened Registers
  import opened Conversions
  import opened SMBus
  import opened MLX90614

  /** A register file whose addresses below `k` all read zero. */
  function ZeroRegistersBelow(k: nat): (m: map<Byte, Word>)
    requires k <= 0x100
    ensures forall r: Byte :: r < k ==> r in m && m[r] == 0
  {
    if k == 0 then map[] else ZeroRegistersBelow(k - 1)[(k - 1) := 0]
  }

  /** A register file that reads zero at every address. */
  function ZeroRegisters(): (m: map<Byte, Word>)
    ensures Total(m)
    ensures forall r: Byte :: m[r] == 0
  {
    ZeroRegistersBelow(0x100)
  }

  /** Setting the emissivity and reading it back recovers it to within half a step. */
  method SetThenReadEmissivity(s: Sensor, epsilon: real) returns (ok: bool, e: real)
    requires s.Valid()
    modifies s.i2c
    ensures s.Valid()
    ensures !EmissivityAccepted(epsilon) ==> !ok
    ensures ok ==> -1.0 / 131070.0 <= e - epsilon <= 1.0 / 131070.0
  {
    ok := s.SetObjectEmissivityCoefficient(epsilon);
    e := s.ObjectEmissivityCoefficient();
    if ok {
      EmissivityRoundTrip(epsilon);
    }
  }

  /** Setting the object limits and reading them back recovers each to within 0.005 degrees. */
  method SetThenReadObjectLimits(s: Sensor, toMin: real, toMax: real) returns (ok: bool, gotMin: real, gotMax: real)
    requires s.Valid()
    requires SpanAccepted(toMin, toMax) ==> ObjectLimitEncodable(toMin) && ObjectLimitEncodable(toMax)
    modifies s.i2c
    ensures s.Valid()
    ensures !SpanAccepted(toMin, toMax) ==> !ok
    ensures ok ==> -0.005 <= gotMin - toMin <= 0.005 && -0.005 <= gotMax - toMax <= 0.005
  {
    ok := s.SetObjectTemperatureMinMax(toMin, toMax);
    gotMin := s.ObjectTemperatureMin();
    gotMax := s.ObjectTemperatureMax();
    if ok {
      ObjectLimitRoundTrip(toMin);
      ObjectLimitRoundTrip(toMax);
    }
  }

  /** The example program's configuration sequence on a healthy bus: the limits
      0 and 150 degrees and the emissivity 1.0 read back exactly. */
  method ConfigureHealthySensor() returns (failed: bool, okLimits: bool, minT: real, maxT: real, okEmiss: bool, e: real)
    ensures !failed && okLimits && okEmiss
    ensures minT == 0.0 && maxT == 150.0 && e == 1.0
  {
    var s := new Sensor(1, Device(false, true, ZeroRegisters(), {}));
    failed := s.Error();
    ObjectLimitExample();
    okLimits := s.SetObjectTemperatureMinMax(0.0, 150.0);
    minT := s.ObjectTemperatureMin();
    maxT := s.ObjectTemperatureMax();
    EmissivityEndpoints();
    okEmiss := s.SetObjectEmissivityCoefficient(1.0);
    e := s.ObjectEmissivityCoefficient();
  }

  /** A bus whose first write fails: the emissivity setter reports failure and the
      bus saw the erase write alone, with no delay and no value write. */
  method EraseFailure() returns (ok: bool, log: seq<Event>, stored: Word)
    ensures !ok && log == [Write(EMISS, 0)] && stored == 0x1234
  {
    var regs := ZeroRegisters()[EMISS := 0x1234];
    var s := new Sensor(1, Device(false, true, regs, {0}));
    ok := s.SetObjectEmissivityCoefficient(0.5);
    log := s.i2c.log;
    stored := s.i2c.regs[EMISS];
  }

  /** A bus that failed to open leaves the sensor flagged, and further calls still
      return (with whatever the bus reads). */
  method OpenFailure() returns (failed: bool, t: real)
    ensures failed
    ensures t == -273.15
  {
    var s := new Sensor(3, Device(true, true, ZeroRegisters(), {}));
    failed := s.Error();
    t := s.ObjectTemperature1();
  }
}
