/** The sensor's unit conversions: raw 16-bit register words to and from degrees
    Celsius and emissivity. Arithmetic is exact over `real`; each encoder rounds
    with `Round` and then converts to a 16-bit word, which is only defined when the
    rounded value is representable, so the encoders require exactly that. */
module Conversions {
  import opened Words
  import opened Rounding

  // ----- Measured temperatures (RAM registers TA, TOBJ1, TOBJ2) -----

  /** A temperature register counts in steps of 0.02 K from absolute zero;
      the result is in degrees Celsius. */
  function TemperatureFromRaw(raw: Word): (c: real)
    ensures (c + 273.15) * 50.0 == raw as real
    ensures -273.15 <= c <= 1037.55
  {
    raw as real * 0.02 - 273.15
  }

  /** Each raw step is exactly 0.02 degrees: the reading is strictly increasing in the raw word. */
  lemma TemperatureStep(raw: Word)
    requires raw < 0xFFFF
    ensures TemperatureFromRaw(raw + 1) - TemperatureFromRaw(raw) == 0.02
  {
  }

  // ----- Object temperature limits (EEPROM registers TOMIN, TOMAX) -----

  /** The range setters' acceptance test: they refuse `max - min < 1`. */
  function SpanAccepted(tMin: real, tMax: real): (b: bool)
    ensures b <==> tMin + 1.0 <= tMax
  {
    !(tMax - tMin < 1.0)
  }

  /** The centikelvin value `(t + 273.15) * 100` before rounding. */
  function Centikelvin(t: real): real
  {
    (t + 273.15) * 100.0
  }

  /** The rounded centikelvin value is representable as a 16-bit word. */
  predicate ObjectLimitEncodable(t: real)
  {
    0 <= Round(Centikelvin(t)) < 0x1_0000
  }

  /** `(uint16_t)round((t + 273.15) * 100)`: the nearest whole number of centikelvin. */
  function EncodeObjectLimit(t: real): (w: Word)
    requires ObjectLimitEncodable(t)
    ensures Centikelvin(t) - 0.5 <= w as real <= Centikelvin(t) + 0.5
  {
    Round(Centikelvin(t))
  }

  /** `raw / 100.0 - 273.15`: a stored limit read back in degrees Celsius. */
  function ObjectLimitFromRaw(raw: Word): (c: real)
    ensures Centikelvin(c) == raw as real
  {
    raw as real / 100.0 - 273.15
  }

  /** The documented object range, -70 to 380 degrees Celsius, always encodes. */
  lemma ObjectLimitDocumentedRange(t: real)
    requires -70.0 <= t <= 380.0
    ensures ObjectLimitEncodable(t)
    ensures 20315 <= EncodeObjectLimit(t) <= 65315
  {
    assert 20315.0 <= Centikelvin(t) <= 65315.0;
  }

  /** Encoding then decoding a limit is off by at most half a centikelvin step. */
  lemma ObjectLimitRoundTrip(t: real)
    requires ObjectLimitEncodable(t)
    ensures -0.005 <= ObjectLimitFromRaw(EncodeObjectLimit(t)) - t <= 0.005
  {
    var w := EncodeObjectLimit(t);
    var c := ObjectLimitFromRaw(w);
    assert Centikelvin(c) - Centikelvin(t) == (c - t) * 100.0;
  }

  /** Decoding then encoding a stored limit gives the same word back. */
  lemma ObjectLimitRawRoundTrip(raw: Word)
    ensures ObjectLimitEncodable(ObjectLimitFromRaw(raw))
    ensures EncodeObjectLimit(ObjectLimitFromRaw(raw)) == raw
  {
    RoundOfInteger(raw);
  }

  /** 0.0 and 150.0 degrees encode as 27315 and 42315. */
  lemma ObjectLimitExample()
    ensures ObjectLimitEncodable(0.0) && EncodeObjectLimit(0.0) == 27315
    ensures ObjectLimitEncodable(150.0) && EncodeObjectLimit(150.0) == 42315
  {
    RoundOfInteger(27315);
    RoundOfInteger(42315);
  }

  // ----- Emissivity (EEPROM register EMISS) -----

  /** The setter's acceptance test: it refuses `epsilon > 1.0 || epsilon < 0.1`. */
  function EmissivityAccepted(epsilon: real): (b: bool)
    ensures b <==> 0.1 <= epsilon <= 1.0
  {
    !(epsilon > 1.0 || epsilon < 0.1)
  }

  /** `(uint16_t)round(65535 * epsilon)`: the nearest multiple of 1/65535. */
  function EncodeEmissivity(epsilon: real): (w: Word)
    requires EmissivityAccepted(epsilon)
    ensures 65535.0 * epsilon - 0.5 <= w as real <= 65535.0 * epsilon + 0.5
    ensures 6554 <= w
  {
    var n := Round(65535.0 * epsilon);
    assert 6553.5 <= 65535.0 * epsilon <= 65535.0;
    n
  }

  /** `raw / 65535.0`: the stored emissivity as a fraction of the full word. */
  function EmissivityFromRaw(raw: Word): (e: real)
    ensures e * 65535.0 == raw as real
    ensures 0.0 <= e <= 1.0
  {
    raw as real / 65535.0
  }

  /** Both ends of [0.1, 1.0] are accepted; 1.0 encodes as the full word and 0.1 as 6554
      (6553.5 rounded away from zero). */
  lemma EmissivityEndpoints()
    ensures EmissivityAccepted(0.1) && EncodeEmissivity(0.1) == 6554
    ensures EmissivityAccepted(1.0) && EncodeEmissivity(1.0) == 0xFFFF
  {
    RoundTieAwayFromZero(6553);
    RoundOfInteger(0xFFFF);
  }

  /** Setting then reading the emissivity recovers it to within half a step of 1/65535. */
  lemma EmissivityRoundTrip(epsilon: real)
    requires EmissivityAccepted(epsilon)
    ensures -1.0 / 131070.0 <= EmissivityFromRaw(EncodeEmissivity(epsilon)) - epsilon <= 1.0 / 131070.0
  {
    var w := EncodeEmissivity(epsilon);
    var e := EmissivityFromRaw(w);
    assert (e - epsilon) * 65535.0 == w as real - 65535.0 * epsilon;
  }

  /** A stored word whose value reads as an accepted emissivity is re-encoded unchanged. */
  lemma EmissivityRawRoundTrip(raw: Word)
    requires raw >= 6554
    ensures EmissivityAccepted(EmissivityFromRaw(raw))
    ensures EncodeEmissivity(EmissivityFromRaw(raw)) == raw
  {
    RoundOfInteger(raw);
  }

  // ----- Ambient temperature range (EEPROM register TARANGE) -----

  /** The scale factor as the code computes it: `100/64` between two integer
      literals is integer division, so the factor is 1 and not 1.5625. */
  const AMBIENT_SCALE: int := 100 / 64

  /** The rounded byte value is representable as a 16-bit word. */
  predicate AmbientEncodable(t: real)
  {
    0 <= Round((t + 38.2) * AMBIENT_SCALE as real) < 0x1_0000
  }

  /** `(uint16_t)round((t + 38.2) * (100/64))`: with the factor being 1, the nearest
      integer to `t + 38.2`. */
  function EncodeAmbientByte(t: real): (b: Word)
    requires AmbientEncodable(t)
    ensures t + 38.2 - 0.5 <= b as real <= t + 38.2 + 0.5
  {
    assert AMBIENT_SCALE == 1;
    Round((t + 38.2) * AMBIENT_SCALE as real)
  }

  /** The factor is 1, not 1.5625: at 25 degrees the stored byte is 63, where the
      fractional factor would have given 99. */
  lemma AmbientScaleIsOne()
    ensures AMBIENT_SCALE == 1 && AMBIENT_SCALE as real != 100.0 / 64.0
    ensures AmbientEncodable(25.0) && EncodeAmbientByte(25.0) == 63
    ensures Round((25.0 + 38.2) * (100.0 / 64.0)) == 99
  {
    assert AMBIENT_SCALE == 1;
    RoundUnique(25.0 + 38.2, 63);
    RoundUnique((25.0 + 38.2) * (100.0 / 64.0), 99);
  }

  /** `(max_byte << 8) + min_byte`, converted back to a 16-bit word. */
  function EncodeAmbientRange(tMin: real, tMax: real): (w: Word)
    requires AmbientEncodable(tMin) && AmbientEncodable(tMax)
    ensures LowByte(w) == EncodeAmbientByte(tMin) % 0x100
  {
    PackWord(EncodeAmbientByte(tMax), EncodeAmbientByte(tMin))
  }

  /** Between -38.7 and 217.3 degrees (both exclusive) the byte is defined and fits in 8 bits;
      the documented maximum of 125 degrees lies inside. */
  lemma AmbientByteFits(t: real)
    requires -38.7 < t < 217.3
    ensures AmbientEncodable(t)
    ensures EncodeAmbientByte(t) < 0x100
  {
    assert AMBIENT_SCALE == 1;
    assert (t + 38.2) * AMBIENT_SCALE as real == t + 38.2;
  }

  /** When both bytes fit, the high byte of the packed range is the maximum's byte and
      the low byte is the minimum's. */
  lemma AmbientRangeBytes(tMin: real, tMax: real)
    requires -38.7 < tMin < 217.3 && -38.7 < tMax < 217.3
    ensures AmbientEncodable(tMin) && AmbientEncodable(tMax)
    ensures HighByte(EncodeAmbientRange(tMin, tMax)) == EncodeAmbientByte(tMax)
    ensures LowByte(EncodeAmbientRange(tMin, tMax)) == EncodeAmbientByte(tMin)
  {
    AmbientByteFits(tMin);
    AmbientByteFits(tMax);
    PackWordBytes(EncodeAmbientByte(tMax), EncodeAmbientByte(tMin));
  }

  /** The range 0 to 50 degrees packs bytes 38 and 88, where the intended
      1.5625 scale would have given 60 and 138. */
  lemma AmbientRangeExample()
    ensures AmbientEncodable(0.0) && AmbientEncodable(50.0)
    ensures EncodeAmbientRange(0.0, 50.0) == 88 * 0x100 + 38
    ensures Round(38.2 * 1.5625) == 60 && Round(88.2 * 1.5625) == 138
  {
    RoundUnique(38.2, 38);
    RoundUnique(88.2, 88);
    RoundUnique(38.2 * 1.5625, 60);
    RoundUnique(88.2 * 1.5625, 138);
    PackWordBytes(88, 38);
  }

  /** The documented ambient minimum of -40 degrees rounds to -2, which no 16-bit word holds. */
  lemma AmbientDocumentedMinimumNotEncodable()
    ensures Round((-40.0 + 38.2) * AMBIENT_SCALE as real) == -2
    ensures !AmbientEncodable(-40.0)
  {
    RoundUnique(-1.8, -2);
  }
}
