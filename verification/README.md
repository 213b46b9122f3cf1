# MLX90614 driver model

A Dafny model of the C++ driver for the MLX90614 infrared thermometer
(`mlx90614/mlx90614.h`): the register map, the guarded EEPROM write, the
conversions between raw 16-bit register words and degrees Celsius or
emissivity, and the range checks that the setters apply before they touch the bus.

The driver sits on an SMBus transport (`i2c/i2c.h`) that is not part of this
model. It is represented by the class `SMBus.Bus`:

- a register file (a total map from 8-bit register address to 16-bit word) that reads return and successful writes update;
- a log of every `Read(reg)`, `Write(reg, val)` and `Wait(n)` in the order issued;
- fixed outcomes chosen by the caller through a `Device` value: whether opening the bus or binding the address fails, whether enabling packet error checking succeeds, and at which log positions a write fails (a failed write is still logged but changes no register).

Modules:

- `Words`: bytes, words, `>> 8`, and the `(uint16_t)((hi << 8) + lo)` packing with its 16-bit truncation.
- `Rounding`: C's `round` (nearest integer, halves away from zero) over `real`.
- `Registers`: the address macros.
- `Conversions`: the encoders and decoders, and their round trips.
- `SMBus`: the abstract transport.
- `MLX90614`: the `Sensor` class (the C++ class `MLX90614`). Its invariant `Valid()` includes the EEPROM discipline: every non-zero word ever written follows a successful erase of the same register and a 500000 settle delay.
- `Usage`: caller scenarios: set-then-read, a failing erase write, a failed open.

Arithmetic is exact over `real`. In the ambient range encoder the factor
`(100/64)` is integer division between two integer literals, so it is 1, not
1.5625. The model follows the code: a byte is `round(T + 38.2)`.

## Model

| member | source | states |
|---|---|---|
| `Words.HighByte` | mlx90614/mlx90614.h:138 | `w >> 8` is the byte `b` with `256·b <= w < 256·b + 256` |
| `Words.LowByte` | mlx90614/mlx90614.h:188 | the low byte is what remains of `w` below `256·HighByte(w)` |
| `Words.PackWord` | mlx90614/mlx90614.h:188 | the packed word's low byte is `lo mod 256` |
| `Words.PackWordBytes` | mlx90614/mlx90614.h:186-188 | when both inputs are below 256, the high byte of the packed word is `hi` and the low byte is `lo` |
| `Words.PackWordTruncatesHigh` | mlx90614/mlx90614.h:188 | for `lo < 256`, the 16-bit conversion keeps only `hi mod 256` as the high byte |
| `Registers.RegisterMapLayout` | mlx90614/mlx90614.h:5-36 | the RAM registers lie below the write registers, which are the datasheet EEPROM addresses 0x00-0x05 plus 0x20 in order; all commands differ except `ADDR`, a second name for `SMBUS_ADDR`; the device address fits in 7 bits |
| `Rounding.Round` | mlx90614/mlx90614.h:171-172 | the result is within 1/2 of `x`; a tie goes up for `x >= 0` and down for `x < 0` |
| `Rounding.RoundUnique` | mlx90614/mlx90614.h:171-172 | any integer in the interval of `Round`'s contract equals `Round(x)` |
| `Rounding.RoundOfInteger` | mlx90614/mlx90614.h:171-172 | rounding a whole number returns it |
| `Rounding.RoundOdd` | mlx90614/mlx90614.h:221 | `Round(-x) == -Round(x)` for every `x` |
| `Rounding.RoundTieAwayFromZero` | mlx90614/mlx90614.h:221 | `k + 0.5` rounds to `k + 1` and `-(k + 0.5)` to `-(k + 1)` |
| `Conversions.TemperatureFromRaw` | mlx90614/mlx90614.h:195-202 | the result in degrees Celsius, plus 273.15, times 50 gives the raw word back; it lies in [-273.15, 1037.55] |
| `Conversions.TemperatureStep` | mlx90614/mlx90614.h:196-200 | one raw step is exactly 0.02 degrees |
| `Conversions.SpanAccepted` | mlx90614/mlx90614.h:168 | a range is accepted iff `max >= min + 1`, so a span of exactly 1 degree passes; the ambient setter (line 183) applies the same test |
| `Conversions.EncodeObjectLimit` | mlx90614/mlx90614.h:171-172 | the word is within 1/2 of `(t + 273.15)·100` |
| `Conversions.ObjectLimitFromRaw` | mlx90614/mlx90614.h:233-241 | `(c + 273.15)·100` is exactly the raw word |
| `Conversions.ObjectLimitDocumentedRange` | mlx90614/mlx90614.h:83-88 | every limit in the documented -70 to 380 degrees encodes, as a word in [20315, 65315] |
| `Conversions.ObjectLimitRoundTrip` | mlx90614/mlx90614.h:171-172 | encoding then decoding a limit is off by at most 0.005 degrees |
| `Conversions.ObjectLimitRawRoundTrip` | mlx90614/mlx90614.h:233-236 | every stored word decodes to a limit that encodes back to the same word |
| `Conversions.ObjectLimitExample` | mlx90614/mlx90614.h:171-172 | 0.0 and 150.0 degrees encode as 27315 and 42315 |
| `Conversions.EmissivityAccepted` | mlx90614/mlx90614.h:218 | an emissivity is accepted iff `0.1 <= epsilon <= 1.0`, both ends included |
| `Conversions.EncodeEmissivity` | mlx90614/mlx90614.h:221 | the word is within 1/2 of `65535·epsilon` and at least 6554 |
| `Conversions.EmissivityFromRaw` | mlx90614/mlx90614.h:228-231 | the result times 65535 is the raw word, and lies in [0, 1] |
| `Conversions.EmissivityEndpoints` | mlx90614/mlx90614.h:218-221 | both 0.1 and 1.0 are accepted; 1.0 encodes as 65535 and 0.1 as 6554 |
| `Conversions.EmissivityRoundTrip` | mlx90614/mlx90614.h:217-231 | setting then reading recovers epsilon to within 1/(2·65535) |
| `Conversions.EmissivityRawRoundTrip` | mlx90614/mlx90614.h:228-231 | a stored word of 6554 or more reads as an accepted emissivity that encodes back to the same word |
| `Conversions.EncodeAmbientByte` | mlx90614/mlx90614.h:186-187 | the byte is within 1/2 of `t + 38.2`: the factor `100/64` is 1 |
| `Conversions.AmbientScaleIsOne` | mlx90614/mlx90614.h:186-187 | `AMBIENT_SCALE` is 1 and differs from 100/64 = 1.5625: 25 degrees stores byte 63, where the fractional factor would give 99 |
| `Conversions.EncodeAmbientRange` | mlx90614/mlx90614.h:186-188 | the low byte of the packed range is the minimum's byte mod 256 |
| `Conversions.AmbientByteFits` | mlx90614/mlx90614.h:100-105 | between -38.7 and 217.3 degrees (exclusive) the byte is defined and below 256, which includes the documented maximum of 125 |
| `Conversions.AmbientRangeBytes` | mlx90614/mlx90614.h:186-188 | when both bytes fit, the high byte of the word is the maximum's byte and the low byte the minimum's |
| `Conversions.AmbientRangeExample` | mlx90614/mlx90614.h:186-188 | 0 to 50 degrees packs to `88·256 + 38`, where the 1.5625 scale would give bytes 60 and 138 |
| `Conversions.AmbientDocumentedMinimumNotEncodable` | mlx90614/mlx90614.h:100-103 | the documented minimum of -40 degrees rounds to -2, which no 16-bit word can hold |
| `SMBus.Bus.constructor` | mlx90614/mlx90614.h:126 | the bus starts with the device's registers, an empty log, and the device's fixed open, packet-error-checking and write outcomes |
| `SMBus.Bus.Error` | mlx90614/mlx90614.h:127 | the transport reports an error iff opening the bus or binding the address failed, an outcome fixed at construction |
| `SMBus.Bus.EnablePacketErrorChecking` | mlx90614/mlx90614.h:130 | the result is the device's fixed packet-error-checking outcome |
| `SMBus.Bus.ReadWord` | mlx90614/mlx90614.h:138 | returns the register's word, logs one `Read`, changes no register |
| `SMBus.Bus.WriteWord` | mlx90614/mlx90614.h:155 | logs one `Write`; succeeds unless the log position is marked failing; a success stores the word, a failure stores nothing |
| `SMBus.Bus.Wait` | mlx90614/mlx90614.h:159 | logs one `Wait` with the given delay, changes no register |
| `MLX90614.GuardedWriteTargets` | mlx90614/mlx90614.h:153-165 | whatever the outcomes, a guarded write addresses only its own register |
| `MLX90614.EraseDisciplineAppend` | mlx90614/mlx90614.h:153-165 | a log that keeps the erase-before-write discipline, joined to a second log that keeps it with its failing positions counted from the join, keeps it |
| `MLX90614.GuardedWriteSettles` | mlx90614/mlx90614.h:158-163 | every delay of a guarded write is `SETTLE_DELAY` (500000) and follows a write; a successful erase is followed by the delay, a fully successful write ends with it, and the trace ends in a write exactly when one failed |
| `MLX90614.GuardedWriteTraceDiscipline` | mlx90614/mlx90614.h:153-165 | a guarded write on its own keeps the discipline when its erase outcome is the bus's for its position: the value write comes two events after a successful erase of the same register, the settle delay between |
| `MLX90614.GuardedWriteKeepsDiscipline` | mlx90614/mlx90614.h:153-165 | appending a guarded write, with the erase outcome the bus gives its log position and any value outcome, keeps the discipline: each non-zero write comes two events after a successful erase of its register, with the settle delay between |
| `MLX90614.NonWriteKeepsDiscipline` | mlx90614/mlx90614.h:195-202 | appending a read or a delay keeps the discipline, including the success of each erase |
| `MLX90614.Sensor.constructor` | mlx90614/mlx90614.h:126-133 | binds address 0x5A; the error flag is set iff the transport reported an error or enabling packet error checking failed; the log starts empty |
| `MLX90614.Sensor.Error` | mlx90614/mlx90614.h:149-151 | reports exactly the construction failures; it stays so because every other method modifies only the bus |
| `MLX90614.Sensor.WhoAmI` | mlx90614/mlx90614.h:137-139 | one read of 0x2E; the result is that word's high byte, below 256 |
| `MLX90614.Sensor.PowerManagementControl` | mlx90614/mlx90614.h:141-143 | one read of 0x22, returned unconverted |
| `MLX90614.Sensor.Wait` | mlx90614/mlx90614.h:145-147 | logs one `Wait` of the given delay and nothing else |
| `MLX90614.Sensor.WriteWord` | mlx90614/mlx90614.h:153-165 | a failed erase returns false with only `Write(reg,0)` logged; a failed value write returns false without the final wait; success logs `Write(reg,0), Wait(500000), Write(reg,data), Wait(500000)`, stores `data` and returns true |
| `MLX90614.Sensor.SetObjectTemperatureMinMax` | mlx90614/mlx90614.h:167-180 | a span below 1 returns false with the bus unchanged; else the encoded minimum goes to 0x21 before the maximum to 0x20, 0x20 is never written if the 0x21 write failed, and success stores both |
| `MLX90614.Sensor.SetAmbientTemperatureMinMax` | mlx90614/mlx90614.h:182-193 | a span below 1 returns false with the bus unchanged; else exactly one guarded write of the packed range to 0x23, and its result is returned |
| `MLX90614.Sensor.Temperature` | mlx90614/mlx90614.h:195-202 | one read of the register, no write; returns `raw·0.02 - 273.15` |
| `MLX90614.Sensor.ObjectTemperature1` | mlx90614/mlx90614.h:205-207 | one read of 0x07, no write, converted to degrees Celsius |
| `MLX90614.Sensor.ObjectTemperature2` | mlx90614/mlx90614.h:209-211 | one read of 0x08, no write, converted to degrees Celsius |
| `MLX90614.Sensor.AmbientTemperature` | mlx90614/mlx90614.h:213-215 | one read of 0x06, no write, converted to degrees Celsius |
| `MLX90614.Sensor.SetObjectEmissivityCoefficient` | mlx90614/mlx90614.h:217-226 | a value above 1.0 or below 0.1 returns false with the bus unchanged; else one guarded write of `round(65535·epsilon)` to 0x24, whose result is returned |
| `MLX90614.Sensor.ObjectEmissivityCoefficient` | mlx90614/mlx90614.h:228-231 | one read of 0x24, returned as `raw/65535` |
| `MLX90614.Sensor.ObjectTemperatureMin` | mlx90614/mlx90614.h:233-236 | one read of 0x21, returned as `raw/100 - 273.15` |
| `MLX90614.Sensor.ObjectTemperatureMax` | mlx90614/mlx90614.h:238-241 | one read of 0x20, returned as `raw/100 - 273.15` |
| `Usage.SetThenReadEmissivity` | mlx90614/mlx90614.h:217-231 | on a bus that keeps the last word written, a successful set then read recovers epsilon to within 1/(2·65535); a rejected value reports false |
| `Usage.SetThenReadObjectLimits` | mlx90614/mlx90614.h:167-180 | after a successful set, reading back the limits recovers each to within 0.005 degrees |
| `Usage.ConfigureHealthySensor` | example/main.cpp:17-26 | on a healthy bus, limits 0 and 150 and emissivity 1.0 are set successfully and read back exactly |
| `Usage.EraseFailure` | mlx90614/mlx90614.h:153-157 | when the first write fails, the setter returns false, the log holds the erase write alone and the register keeps its old value |
| `Usage.OpenFailure` | mlx90614/mlx90614.h:126-133 | a bus that failed to open leaves the error flag set, and a later temperature read still returns |

## Left out

- The transport `i2c/i2c.h` is not part of this model; `SMBus.Bus` stands in for it. Its `error`, `enablePacketErrorChecking` and `wait` are reduced to fixed outcomes and a logged delay.
- The Linux transport in `cpp/linux/mlx90614/i2c_linux.h` (`open`/`ioctl` on `/dev/i2c-N`) is left out; as written it does not compile (its `read_byte`/`read_word` return `&data` with no `data` in scope).
- The stub class in `cpp/linux/mlx90614/mlx90614.h` and the example programs are left out. They are `printf`, polling loops, file writes and clock reads.
- `enablePacketErrorChecking` and `disablePacketErrorChecking` of the sensor class are declared but have no body in the source, so they are not modelled. The destructor is empty.
- Read failures: a bus read always returns the register file's word. In the source a failed read yields an unspecified value, and the getters have no way to report it.
- Timing: a delay is only logged with its literal argument; no time passes.
- Double precision: the model computes exactly over `real`. Binary round-off in 0.02, 273.15, 38.2 and `65535·epsilon` is not modelled, so an input that sits at a rounding tie in exact arithmetic may round the other way in doubles.
- `Conversions.EncodeObjectLimit`: requires the rounded value to fit in 16 bits, because casting an out-of-range or negative double to `uint16_t` is undefined behaviour in C++.
- `Conversions.EncodeAmbientByte`: requires the same; for example `TA_min = -40` gives `round(-1.8) = -2`, which has no defined conversion.
- `Conversions.EncodeEmissivity`: requires an accepted emissivity, the only inputs the setter encodes; every such value rounds into [6554, 65535].
- `MLX90614.Sensor.SetObjectTemperatureMinMax`: requires the two encodings to fit only when the span check passes, so the rejection of a short span is modelled for every input.
- `MLX90614.Sensor.SetAmbientTemperatureMinMax`: the same, for the two ambient bytes.
- The registers no operation uses are declared as constants only: the RAM registers `RAWIR1` and `RAWIR2` (0x04, 0x05), the EEPROM configuration register `CONFIG` (0x25) and the identification registers `ID1`-`ID4` (0x3C-0x3F). The older header in `cpp/linux` places the ID registers at 0x1C-0x1F; the model follows the core header.
- Where the header comments differ from the code, the model follows the code. The header contradicts itself about the span: the setters' summaries (mlx90614/mlx90614.h:83 and :100) say it must be greater than 1 °C, while their parameter comments (mlx90614/mlx90614.h:85-86 and :102-103) say at least 1 °C. The code agrees with the parameter comments: it rejects only a span below 1, so a span of exactly 1 °C is accepted (`Conversions.SpanAccepted`). The ambient comments (mlx90614/mlx90614.h:100-103) give -40 °C as the lowest minimum, but -40 encodes as `round(-1.8) = -2`, which no 16-bit word holds (`Conversions.AmbientDocumentedMinimumNotEncodable`). The factor `(100/64)` at mlx90614/mlx90614.h:186-187 is integer division and equals 1 (`Conversions.AmbientScaleIsOne`).
- NaN and infinities: the model's numbers are exact reals, so it has neither. In the source the acceptance tests do not reject NaN: `epsilon > 1.0 || epsilon < 0.1` (mlx90614/mlx90614.h:218), `TO_max - TO_min < 1` (mlx90614/mlx90614.h:168) and `TA_max - TA_min < 1` (mlx90614/mlx90614.h:183) are all false for a NaN input. The setter then goes on to an undefined conversion of NaN to `uint16_t` and to bus writes, which the model does not cover.
