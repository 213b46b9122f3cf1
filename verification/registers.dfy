/** The MLX90614 register map and bus address, as the driver's macros fix them. */
module Registers {
  import opened Words

  /** The sensor's 7-bit SMBus address. */
  const I2CADDR: Byte := 0x5A

  // RAM registers
  const RAWIR1: Byte := 0x04
  const RAWIR2: Byte := 0x05
  /** Ambient temperature. */
  const TA: Byte := 0x06
  /** Object temperature, zone 1. */
  const TOBJ1: Byte := 0x07
  /** Object temperature, zone 2. */
  const TOBJ2: Byte := 0x08

  // EEPROM registers
  const SMBUS_ADDR: Byte := 0x2E
  const ID1: Byte := 0x3C
  const ID2: Byte := 0x3D
  const ID3: Byte := 0x3E
  const ID4: Byte := 0x3F
  /** Object maximum temperature. */
  const TOMAX: Byte := 0x20
  /** Object minimum temperature. */
  const TOMIN: Byte := 0x21
  /** Power management control. */
  const PWMCTRL: Byte := 0x22
  /** Ambient temperature range. */
  const TARANGE: Byte := 0x23
  /** Target emissivity coefficient. */
  const EMISS: Byte := 0x24
  const CONFIG: Byte := 0x25
  /** A second name for the SMBus address register. */
  const ADDR: Byte := 0x2E

  /** The layout the macros give: the RAM registers sit below the write registers,
      which are the datasheet's EEPROM addresses 0x00 to 0x05 plus 0x20 in order;
      every register has its own command, except that the address register goes by
      two names; and the device address fits in seven bits. */
  lemma RegisterMapLayout()
    ensures RAWIR1 < RAWIR2 < TA < TOBJ1 < TOBJ2 < TOMAX
    ensures TOMAX < TOMIN < PWMCTRL < TARANGE < EMISS < CONFIG < SMBUS_ADDR < ID1 < ID2 < ID3 < ID4
    ensures TOMAX == 0x20 + 0x00 && TOMIN == 0x20 + 0x01 && PWMCTRL == 0x20 + 0x02
    ensures TARANGE == 0x20 + 0x03 && EMISS == 0x20 + 0x04 && CONFIG == 0x20 + 0x05
    ensures ADDR == SMBUS_ADDR
    ensures I2CADDR < 0x80
  {
  }
}
