/** The MLX90614 infrared thermometer driver: the register map, the guarded
    EEPROM write and the unit conversions, on top of the abstract SMBus transport. */
module MLX90614 {
  import opened Words
  import opened Registers
  import opened Conversions
  import opened SMBus

  /** The settle delay the guarded write waits after each of its two writes. */
  const SETTLE_DELAY: int := 500000

  /** The events one guarded write leaves on the bus, given whether its erase
      write and its value write succeed. */
  function GuardedWriteTrace(reg: Byte, data: Word, eraseOk: bool, valueOk: bool): seq<Event>
  {
    if !eraseOk then [Write(reg, 0)]
    else if !valueOk then [Write(reg, 0), Wait(SETTLE_DELAY), Write(reg, data)]
    else [Write(reg, 0), Wait(SETTLE_DELAY), Write(reg, data), Wait(SETTLE_DELAY)]
  }

  /** The register file after one guarded write, given the same two outcomes. */
  function GuardedWriteRegisters(regs: map<Byte, Word>, reg: Byte, data: Word, eraseOk: bool, valueOk: bool): map<Byte, Word>
  {
    if !eraseOk then regs else if !valueOk then regs[reg := 0] else regs[reg := data]
  }

  /** The registers some write event in `t` addresses. */
  function WrittenRegisters(t: seq<Event>): set<Byte>
  {
    set i | 0 <= i < |t| && t[i].Write? :: t[i].reg
  }

  /** The EEPROM discipline: every non-zero value written to a register comes right
      after a settle delay that follows a successful erase of that same register.
      `failAt` gives the log positions at which a write fails. */
  ghost predicate EraseDiscipline(log: seq<Event>, failAt: set<nat>)
  {
    forall i :: 0 <= i < |log| && log[i].Write? && log[i].val != 0 ==>
      && 2 <= i
      && log[i - 1] == Wait(SETTLE_DELAY)
      && log[i - 2] == Write(log[i].reg, 0)
      && i - 2 !in failAt
  }

  /** The failing positions seen from a log that starts `d` events later. */
  function ShiftedFailures(failAt: set<nat>, d: nat): (s: set<nat>)
    ensures forall k: nat :: k in s <==> k + d in failAt
  {
    set k | k in failAt && k >= d :: k - d
  }

  /** The discipline is kept when a log is joined to a second log whose failing
      positions are counted from the end of the first. */
  lemma EraseDisciplineAppend(a: seq<Event>, b: seq<Event>, failAt: set<nat>)
    requires EraseDiscipline(a, failAt)
    requires EraseDiscipline(b, ShiftedFailures(failAt, |a|))
    ensures EraseDiscipline(a + b, failAt)
  {
    var ab := a + b;
    forall i | 0 <= i < |ab| && ab[i].Write? && ab[i].val != 0
      ensures && 2 <= i
              && ab[i - 1] == Wait(SETTLE_DELAY)
              && ab[i - 2] == Write(ab[i].reg, 0)
              && i - 2 !in failAt
    {
      if i < |a| {
        assert ab[i] == a[i];
        assert ab[i - 1] == a[i - 1] && ab[i - 2] == a[i - 2];
      } else {
        var j := i - |a|;
        assert ab[i] == b[j];
        assert ab[i - 1] == b[j - 1] && ab[i - 2] == b[j - 2];
        assert (j - 2) + |a| == i - 2;
      }
    }
  }

  /** A guarded write addresses its own register and no other. */
  lemma GuardedWriteTargets(reg: Byte, data: Word, eraseOk: bool, valueOk: bool)
    ensures WrittenRegisters(GuardedWriteTrace(reg, data, eraseOk, valueOk)) == {reg}
  {
    var t := GuardedWriteTrace(reg, data, eraseOk, valueOk);
    assert t[0] == Write(reg, 0);
    assert reg in WrittenRegisters(t);
  }

  /** A guarded write waits the settle delay after each write that succeeded and
      stops right after a write that failed: every delay in its trace is 500000
      and follows a write, and the trace ends in a write exactly when one failed. */
  lemma GuardedWriteSettles(reg: Byte, data: Word, eraseOk: bool, valueOk: bool)
    ensures var t := GuardedWriteTrace(reg, data, eraseOk, valueOk);
      && (forall i :: 0 <= i < |t| && t[i].Wait? ==> t[i].n == 500000 && 0 < i && t[i - 1].Write?)
      && (eraseOk ==> |t| >= 3 && t[1] == Wait(500000))
      && (eraseOk && valueOk ==> |t| == 4 && t[3] == Wait(500000))
      && (t[|t| - 1].Write? <==> !(eraseOk && valueOk))
  {
    var t := GuardedWriteTrace(reg, data, eraseOk, valueOk);
    forall i | 0 <= i < |t| && t[i].Wait?
      ensures t[i].n == 500000 && 0 < i && t[i - 1].Write?
    {
      assert i == 1 || i == 3;
    }
  }

  /** On its own, a guarded write issued at log position `d` keeps the discipline,
      its failing positions counted from `d`: its only value write comes two events
      after its erase, which succeeded, with the settle delay between. */
  lemma GuardedWriteTraceDiscipline(failAt: set<nat>, d: nat, reg: Byte, data: Word, eraseOk: bool, valueOk: bool)
    requires eraseOk <==> d !in failAt
    ensures EraseDiscipline(GuardedWriteTrace(reg, data, eraseOk, valueOk), ShiftedFailures(failAt, d))
  {
    var t := GuardedWriteTrace(reg, data, eraseOk, valueOk);
    forall i | 0 <= i < |t| && t[i].Write? && t[i].val != 0
      ensures && 2 <= i
              && t[i - 1] == Wait(SETTLE_DELAY)
              && t[i - 2] == Write(t[i].reg, 0)
              && i - 2 !in ShiftedFailures(failAt, d)
    {
      assert i == 2;
    }
  }

  /** Whatever its value write does, a guarded write whose erase outcome is the one
      the bus decides for its position keeps the EEPROM discipline of the log. */
  lemma GuardedWriteKeepsDiscipline(log: seq<Event>, failAt: set<nat>, reg: Byte, data: Word, eraseOk: bool, valueOk: bool)
    requires EraseDiscipline(log, failAt)
    requires eraseOk <==> |log| !in failAt
    ensures EraseDiscipline(log + GuardedWriteTrace(reg, data, eraseOk, valueOk), failAt)
  {
    GuardedWriteTraceDiscipline(failAt, |log|, reg, data, eraseOk, valueOk);
    EraseDisciplineAppend(log, GuardedWriteTrace(reg, data, eraseOk, valueOk), failAt);
  }

  /** A read or a delay never breaks the EEPROM discipline. */
  lemma NonWriteKeepsDiscipline(log: seq<Event>, failAt: set<nat>, e: Event)
    requires EraseDiscipline(log, failAt) && !e.Write?
    ensures EraseDiscipline(log + [e], failAt)
  {
    var le := log + [e];
    forall i | 0 <= i < |le| && le[i].Write? && le[i].val != 0
      ensures && 2 <= i
              && le[i - 1] == Wait(SETTLE_DELAY)
              && le[i - 2] == Write(le[i].reg, 0)
              && i - 2 !in failAt
    {
      assert i < |log|;
      assert le[i] == log[i] && le[i - 1] == log[i - 1] && le[i - 2] == log[i - 2];
    }
  }

  class Sensor {
    const i2c: Bus
    var err: bool

    /** The bus is bound to the sensor's address, the error flag records exactly the
        construction failures, and every non-zero write so far followed a successful
        erase of its register and a settle delay. */
    ghost predicate Valid()
      reads this, i2c
    {
      && i2c.Valid()
      && i2c.address == I2CADDR
      && (err <==> i2c.openError || !i2c.pecAvailable)
      && EraseDiscipline(i2c.log, i2c.failAt)
    }

    /** Opens the bus, binds the sensor's address and enables packet error checking;
        a failure is recorded in the error flag, not signalled. */
    constructor (bus: Byte, dev: Device)
      requires Total(dev.registers)
      ensures Valid() && fresh(i2c)
      ensures i2c.bus == bus && i2c.failAt == dev.failAt
      ensures i2c.openError == dev.openFails && i2c.pecAvailable == dev.pecAvailable
      ensures i2c.regs == dev.registers && i2c.log == []
      ensures err <==> dev.openFails || !dev.pecAvailable
    {
      i2c := new Bus(bus, I2CADDR, dev);
      err := false;
      new;
      if i2c.Error() {
        err := true;
      }
      var pec := i2c.EnablePacketErrorChecking();
      if !pec {
        err := true;
      }
    }

    /** Whether construction failed. No method changes the flag: they modify only the bus. */
    function Error(): (e: bool)
      reads this, i2c
      requires Valid()
      ensures e <==> i2c.openError || !i2c.pecAvailable
    {
      err
    }

    /** The high byte of the SMBus address register. */
    method WhoAmI() returns (id: Word)
      requires Valid()
      modifies i2c
      ensures Valid()
      ensures id < 0x100 && id == HighByte(old(i2c.regs)[SMBUS_ADDR])
      ensures i2c.regs == old(i2c.regs) && i2c.log == old(i2c.log) + [Read(SMBUS_ADDR)]
    {
      NonWriteKeepsDiscipline(i2c.log, i2c.failAt, Read(SMBUS_ADDR));
      var w := i2c.ReadWord(SMBUS_ADDR);
      id := w / 0x100;
    }

    /** The power management control register, unconverted. */
    method PowerManagementControl() returns (w: Word)
      requires Valid()
      modifies i2c
      ensures Valid()
      ensures w == old(i2c.regs)[PWMCTRL]
      ensures i2c.regs == old(i2c.regs) && i2c.log == old(i2c.log) + [Read(PWMCTRL)]
    {
      NonWriteKeepsDiscipline(i2c.log, i2c.failAt, Read(PWMCTRL));
      w := i2c.ReadWord(PWMCTRL);
    }

    /** Pauses by delegating to the bus. */
    method Wait(delay: int)
      requires Valid()
      modifies i2c
      ensures Valid()
      ensures i2c.regs == old(i2c.regs) && i2c.log == old(i2c.log) + [Event.Wait(delay)]
    {
      NonWriteKeepsDiscipline(i2c.log, i2c.failAt, Event.Wait(delay));
      i2c.Wait(delay);
    }

    /** The guarded EEPROM write: erase to zero, settle, write the value, settle.
        It gives up on the first failed write. */
    method WriteWord(reg: Byte, data: Word) returns (ok: bool)
      requires Valid()
      modifies i2c
      ensures Valid()
      ensures !i2c.WriteOk(|old(i2c.log)|) ==>
        !ok && i2c.log == old(i2c.log) + [Write(reg, 0)] && i2c.regs == old(i2c.regs)
      ensures i2c.WriteOk(|old(i2c.log)|) && !i2c.WriteOk(|old(i2c.log)| + 2) ==>
        && !ok
        && i2c.log == old(i2c.log) + [Write(reg, 0), Event.Wait(SETTLE_DELAY), Write(reg, data)]
        && i2c.regs == old(i2c.regs)[reg := 0]
      ensures ok <==> i2c.WriteOk(|old(i2c.log)|) && i2c.WriteOk(|old(i2c.log)| + 2)
      ensures ok ==>
        && i2c.log == old(i2c.log) + [Write(reg, 0), Event.Wait(SETTLE_DELAY), Write(reg, data), Event.Wait(SETTLE_DELAY)]
        && i2c.regs == old(i2c.regs)[reg := data]
      ensures var n := |old(i2c.log)|;
        && i2c.log == old(i2c.log) + GuardedWriteTrace(reg, data, i2c.WriteOk(n), i2c.WriteOk(n + 2))
        && i2c.regs == GuardedWriteRegisters(old(i2c.regs), reg, data, i2c.WriteOk(n), i2c.WriteOk(n + 2))
    {
      ghost var log0, n := i2c.log, |i2c.log|;
      ghost var trace := GuardedWriteTrace(reg, data, i2c.WriteOk(n), i2c.WriteOk(n + 2));
      GuardedWriteKeepsDiscipline(log0, i2c.failAt, reg, data, i2c.WriteOk(n), i2c.WriteOk(n + 2));
      ok := i2c.WriteWord(reg, 0);
      if !ok {
        assert i2c.log == log0 + trace;
        return false;
      }
      i2c.Wait(SETTLE_DELAY);
      assert |i2c.log| == n + 2;
      ok := i2c.WriteWord(reg, data);
      if !ok {
        assert i2c.log == log0 + trace;
        return false;
      }
      i2c.Wait(SETTLE_DELAY);
      assert i2c.log == log0 + trace;
      return true;
    }

    /** Sets the object temperature limits: refuses a span below one degree without
        touching the bus, else writes the minimum to TOMIN and only then, if that
        succeeded, the maximum to TOMAX. */
    method SetObjectTemperatureMinMax(toMin: real, toMax: real) returns (ok: bool)
      requires Valid()
      requires SpanAccepted(toMin, toMax) ==> ObjectLimitEncodable(toMin) && ObjectLimitEncodable(toMax)
      modifies i2c
      ensures Valid()
      ensures !SpanAccepted(toMin, toMax) ==> !ok && unchanged(i2c)
      ensures SpanAccepted(toMin, toMax) ==>
        var n := |old(i2c.log)|;
        var lo, hi := EncodeObjectLimit(toMin), EncodeObjectLimit(toMax);
        var minOk := i2c.WriteOk(n) && i2c.WriteOk(n + 2);
        var regsAfterMin := GuardedWriteRegisters(old(i2c.regs), TOMIN, lo, i2c.WriteOk(n), i2c.WriteOk(n + 2));
        && (ok <==> minOk && i2c.WriteOk(n + 4) && i2c.WriteOk(n + 6))
        && i2c.log == old(i2c.log) + GuardedWriteTrace(TOMIN, lo, i2c.WriteOk(n), i2c.WriteOk(n + 2))
                      + (if minOk then GuardedWriteTrace(TOMAX, hi, i2c.WriteOk(n + 4), i2c.WriteOk(n + 6)) else [])
        && i2c.regs == (if minOk then GuardedWriteRegisters(regsAfterMin, TOMAX, hi, i2c.WriteOk(n + 4), i2c.WriteOk(n + 6))
                        else regsAfterMin)
        && (!minOk ==> TOMAX !in WrittenRegisters(i2c.log[n..]))
      ensures ok ==> i2c.regs == old(i2c.regs)[TOMIN := EncodeObjectLimit(toMin)][TOMAX := EncodeObjectLimit(toMax)]
    {
      if toMax - toMin < 1.0 {
        return false;
      }
      var minData := EncodeObjectLimit(toMin);
      var maxData := EncodeObjectLimit(toMax);
      ghost var log0 := i2c.log;
      GuardedWriteTargets(TOMIN, minData, i2c.WriteOk(|log0|), i2c.WriteOk(|log0| + 2));
      ok := WriteWord(TOMIN, minData);
      if !ok {
        assert i2c.log[|log0|..] == GuardedWriteTrace(TOMIN, minData, i2c.WriteOk(|log0|), i2c.WriteOk(|log0| + 2));
        return false;
      }
      ok := WriteWord(TOMAX, maxData);
      if !ok {
        return false;
      }
      return true;
    }

    /** Sets the ambient temperature range: refuses a span below one degree without
        touching the bus, else packs both bytes into one word and writes it to TARANGE. */
    method SetAmbientTemperatureMinMax(taMin: real, taMax: real) returns (ok: bool)
      requires Valid()
      requires SpanAccepted(taMin, taMax) ==> AmbientEncodable(taMin) && AmbientEncodable(taMax)
      modifies i2c
      ensures Valid()
      ensures !SpanAccepted(taMin, taMax) ==> !ok && unchanged(i2c)
      ensures SpanAccepted(taMin, taMax) ==>
        var n := |old(i2c.log)|;
        var range := EncodeAmbientRange(taMin, taMax);
        && (ok <==> i2c.WriteOk(n) && i2c.WriteOk(n + 2))
        && i2c.log == old(i2c.log) + GuardedWriteTrace(TARANGE, range, i2c.WriteOk(n), i2c.WriteOk(n + 2))
        && i2c.regs == GuardedWriteRegisters(old(i2c.regs), TARANGE, range, i2c.WriteOk(n), i2c.WriteOk(n + 2))
    {
      if taMax - taMin < 1.0 {
        return false;
      }
      var range := EncodeAmbientRange(taMin, taMax);
      ok := WriteWord(TARANGE, range);
      if !ok {
        return false;
      }
      return true;
    }

    /** Reads a temperature register and converts it to degrees Celsius. */
    method Temperature(reg: Byte) returns (t: real)
      requires Valid()
      modifies i2c
      ensures Valid()
      ensures t == TemperatureFromRaw(old(i2c.regs)[reg])
      ensures i2c.regs == old(i2c.regs) && i2c.log == old(i2c.log) + [Read(reg)]
    {
      NonWriteKeepsDiscipline(i2c.log, i2c.failAt, Read(reg));
      var raw := i2c.ReadWord(reg);
      t := raw as real;
      t := t * 0.02;
      t := t - 273.15;
    }

    method ObjectTemperature1() returns (t: real)
      requires Valid()
      modifies i2c
      ensures Valid()
      ensures t == TemperatureFromRaw(old(i2c.regs)[TOBJ1])
      ensures i2c.regs == old(i2c.regs) && i2c.log == old(i2c.log) + [Read(TOBJ1)]
    {
      t := Temperature(TOBJ1);
    }

    method ObjectTemperature2() returns (t: real)
      requires Valid()
      modifies i2c
      ensures Valid()
      ensures t == TemperatureFromRaw(old(i2c.regs)[TOBJ2])
      ensures i2c.regs == old(i2c.regs) && i2c.log == old(i2c.log) + [Read(TOBJ2)]
    {
      t := Temperature(TOBJ2);
    }

    method AmbientTemperature() returns (t: real)
      requires Valid()
      modifies i2c
      ensures Valid()
      ensures t == TemperatureFromRaw(old(i2c.regs)[TA])
      ensures i2c.regs == old(i2c.regs) && i2c.log == old(i2c.log) + [Read(TA)]
    {
      t := Temperature(TA);
    }

    /** Sets the emissivity: refuses a value outside [0.1, 1.0] without touching the
        bus, else writes its encoding to EMISS and reports the guarded write's result. */
    method SetObjectEmissivityCoefficient(epsilon: real) returns (ok: bool)
      requires Valid()
      modifies i2c
      ensures Valid()
      ensures !EmissivityAccepted(epsilon) ==> !ok && unchanged(i2c)
      ensures EmissivityAccepted(epsilon) ==>
        var n := |old(i2c.log)|;
        var w := EncodeEmissivity(epsilon);
        && (ok <==> i2c.WriteOk(n) && i2c.WriteOk(n + 2))
        && i2c.log == old(i2c.log) + GuardedWriteTrace(EMISS, w, i2c.WriteOk(n), i2c.WriteOk(n + 2))
        && i2c.regs == GuardedWriteRegisters(old(i2c.regs), EMISS, w, i2c.WriteOk(n), i2c.WriteOk(n + 2))
    {
      if epsilon > 1.0 || epsilon < 0.1 {
        return false;
      }
      var emissivity := EncodeEmissivity(epsilon);
      ok := WriteWord(EMISS, emissivity);
      if !ok {
        return false;
      }
      return true;
    }

    method ObjectEmissivityCoefficient() returns (e: real)
      requires Valid()
      modifies i2c
      ensures Valid()
      ensures e == EmissivityFromRaw(old(i2c.regs)[EMISS])
      ensures i2c.regs == old(i2c.regs) && i2c.log == old(i2c.log) + [Read(EMISS)]
    {
      NonWriteKeepsDiscipline(i2c.log, i2c.failAt, Read(EMISS));
      var raw := i2c.ReadWord(EMISS);
      e := raw as real / 65535.0;
    }

    method ObjectTemperatureMin() returns (t: real)
      requires Valid()
      modifies i2c
      ensures Valid()
      ensures t == ObjectLimitFromRaw(old(i2c.regs)[TOMIN])
      ensures i2c.regs == old(i2c.regs) && i2c.log == old(i2c.log) + [Read(TOMIN)]
    {
      NonWriteKeepsDiscipline(i2c.log, i2c.failAt, Read(TOMIN));
      var raw := i2c.ReadWord(TOMIN);
      t := raw as real / 100.0 - 273.15;
    }

    method ObjectTemperatureMax() returns (t: real)
      requires Valid()
      modifies i2c
      ensures Valid()
      ensures t == ObjectLimitFromRaw(old(i2c.regs)[TOMAX])
      ensures i2c.regs == old(i2c.regs) && i2c.log == old(i2c.log) + [Read(TOMAX)]
    {
      NonWriteKeepsDiscipline(i2c.log, i2c.failAt, Read(TOMAX));
      var raw := i2c.ReadWord(TOMAX);
      t := raw as real / 100.0 - 273.15;
    }
  }
}
