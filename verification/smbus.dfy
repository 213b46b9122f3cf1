/** The SMBus transport the sensor driver sits on. Its implementation is not part
    of this model; it is represented by an abstract bus: a register file the reads
    return and the successful writes update, a log of every transaction and delay
    in the order issued, and fixed outcomes for the things the hardware decides
    (whether the bus opened, whether packet error checking can be enabled, which
    writes fail). */
module SMBus {
  import opened Words

  /** One step seen on the bus. */
  datatype Event = Read(reg: Byte) | Write(reg: Byte, val: Word) | Wait(n: int)

  /** What the hardware behind a bus will do: whether opening it (or binding the
      address) fails, whether enabling packet error checking succeeds, the initial
      register contents, and the log positions at which a write transaction fails. */
  datatype Device = Device(openFails: bool, pecAvailable: bool, registers: map<Byte, Word>, failAt: set<nat>)

  /** Every register address has a value. */
  ghost predicate Total(m: map<Byte, Word>)
  {
    forall r: Byte :: r in m
  }

  class Bus {
    const bus: Byte
    const address: Byte
    const openError: bool
    const pecAvailable: bool
    /** A write issued when the log holds `k` events fails iff `k` is in this set. */
    const failAt: set<nat>
    var regs: map<Byte, Word>
    var log: seq<Event>

    ghost predicate Valid()
      reads this
    {
      Total(regs)
    }

    constructor (bus: Byte, address: Byte, dev: Device)
      requires Total(dev.registers)
      ensures Valid()
      ensures this.bus == bus && this.address == address
      ensures openError == dev.openFails && pecAvailable == dev.pecAvailable && failAt == dev.failAt
      ensures regs == dev.registers && log == []
    {
      this.bus := bus;
      this.address := address;
      openError := dev.openFails;
      pecAvailable := dev.pecAvailable;
      failAt := dev.failAt;
      regs := dev.registers;
      log := [];
    }

    /** Whether a write issued when the log holds `k` events succeeds. */
    predicate WriteOk(k: nat)
    {
      k !in failAt
    }

    /** Whether opening the bus or binding the address failed. */
    function Error(): (e: bool)
      ensures e <==> openError
    {
      openError
    }

    method EnablePacketErrorChecking() returns (ok: bool)
      ensures ok == pecAvailable
    {
      ok := pecAvailable;
    }

    method ReadWord(reg: Byte) returns (w: Word)
      requires Valid()
      modifies this
      ensures Valid()
      ensures w == regs[reg]
      ensures regs == old(regs) && log == old(log) + [Read(reg)]
    {
      w := regs[reg];
      log := log + [Read(reg)];
    }

    method WriteWord(reg: Byte, val: Word) returns (ok: bool)
      requires Valid()
      modifies this
      ensures Valid()
      ensures ok == WriteOk(|old(log)|)
      ensures regs == if ok then old(regs)[reg := val] else old(regs)
      ensures log == old(log) + [Write(reg, val)]
    {
      ok := WriteOk(|log|);
      if ok {
        regs := regs[reg := val];
      }
      log := log + [Write(reg, val)];
    }

    method Wait(delay: int)
      requires Valid()
      modifies this
      ensures Valid()
      ensures regs == old(regs) && log == old(log) + [Event.Wait(delay)]
    {
      log := log + [Event.Wait(delay)];
    }
  }
}
