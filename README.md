# PrvSetting: day-exemption table and flag registers of an NTP clock

This project models the bit-packed state store of an ESP32/ESP8266 NTP clock
with a TFT display. The store has two parts.

- The day-exemption table `mdata[12]` holds one 32-bit `_mDATA` word per
  month, January first. Field `bitNN` marks day NN as a weekday that is also
  a holiday. Field `bit32` is reserved, and `set_daydata` sets it to 1 for
  debugging (PrvSetting.cpp:11). Since nothing else sets it, a 1 there can
  also be read as telling an initialised table from zeroed memory; the code
  itself does not use it that way. `set_daydata` rebuilds the whole table
  with January 1st as the one marked day. `get_daydata(month, day)` reads one field by
  shift and mask.
- The flag registers `flag` and `err_flag` are two `_FLAG` bytes. Each can be
  read as a whole byte or as eight one-bit fields. Five fields have names:
  `flag_holidayjdg`, `flag_adjustsync` and `flag_hour_digit` in `flag`, and
  `flag_wifiinit_err` and `flag_udpbegin_err` in `err_flag`. `flag_init`
  clears both registers and then sets `flag_adjustsync`.

`prv_layout.dfy` (module `PrvLayout`) models PrvSetting.h. Each union is one
bit-vector (`bv8` or `bv32`), the `all_bits` view, with field accessors
`FieldBit8`/`FieldBit32` and field writes `WithField8`/`WithField32`. The
module also holds the named-flag aliases and a value of both registers,
`Registers`.

`prv_setting.dfy` (module `PrvSetting`) models PrvSetting.cpp. The globals
are the fields of a `Globals` object. Its constructor stands for the zero
initialisation of C statics. `SetDayData`, `WriteFlag` and `FlagInit` are
methods that change those fields, and `GetDayData` is a function that reads
them. Lemmas beside them state what the table and registers hold after
initialisation.

The firmware is C++ compiled by GCC for ESP32/ESP8266, and it relies on two
things the language leaves to the compiler. First, writing one member of a
union and reading another gives the same bits (type punning):
`mdata[0].d.bit01 = 1` writes a bit-field and `get_daydata` reads
`all_bits`. Second, bit-fields are allocated from the least significant bit
up, so that write is read back by `get_daydata(1, 1)` as bit 0. The model
states both assumptions in `FieldBit8` and `FieldBit32`: field `bitNN` is bit
NN - 1 of one bit-vector. The field writes `WithField8`/`WithField32` and the
byte and word constants (`0x8000_0001`, `0x02`) are proved against those two
predicates.

The layout comment at PrvSetting.h:21 describes the fields as days 1 to 31.
The code's shift in `get_daydata` is also defined for day 32, which reads the
reserved field. The model follows the code: `GetDayData` admits day 32, and `QueriesAfterSetDayData`
says it reads 1 after `set_daydata`.

## Model

| member | source | states |
|---|---|---|
| `PrvLayout.FieldBit8` | PrvSetting.h:6-15 | field `bitN` of an `_FB` byte is bit N - 1 of the whole byte (the type-punning and least-significant-bit-first assumptions). This predicate is the layout assumption itself; its own ensures (a set field makes the byte nonzero) is incidental, and what is proved about it is in `WithField8` and `Byte8Ext` |
| `PrvLayout.FieldBit32` | PrvSetting.h:18-56 | field `bitN` of an `_mDATA` word is bit N - 1 of the whole word (the same two assumptions). This predicate is the layout assumption itself; its own ensures (a set field makes the word nonzero) is incidental, and what is proved about it is in `WithField32`, `Word32Ext` and `ShiftAndMask32` |
| `PrvLayout.RegisterOf` | PrvSetting.h:69-74 | `flag_holidayjdg`, `flag_adjustsync` and `flag_hour_digit` are fields of `flag`, `flag_wifiinit_err` and `flag_udpbegin_err` of `err_flag`; a named flag is in `err_flag` exactly when its field is above `bit03` |
| `PrvLayout.Registers.Read` | PrvSetting.h:69-74 | reading a named flag as an rvalue gives its field of its own register, which is bit `FieldOf(f) - 1` of that register's whole byte |
| `PrvSetting.DayDataTable` | PrvSetting.cpp:12-26 | the table `set_daydata` leaves: 12 words, January equal to the sentinel `0x80000000` with `bit01` written to 1, and every other month equal to the sentinel |
| `PrvLayout.WithField8` | PrvSetting.h:6-15 | assigning `v` to field `bitN` of an `_FB` byte makes that field read `v` and leaves the other seven fields as they were |
| `PrvLayout.Byte8Ext` | PrvSetting.h:59-62 | the two views of `_FLAG` agree: two bytes whose eight fields agree are the same byte |
| `PrvLayout.WithField8Unique` | PrvSetting.h:59-62 | a field assignment has exactly one outcome on the whole-byte view |
| `PrvLayout.WithField32` | PrvSetting.h:18-56 | assigning `v` to field `bitN` of an `_mDATA` word makes that field read `v` and leaves the other 31 fields as they were |
| `PrvLayout.Word32Ext` | PrvSetting.h:18-56 | the two views of `_mDATA` agree: two words whose 32 fields agree are the same word |
| `PrvLayout.ShiftAndMask32` | PrvSetting.cpp:34 | shifting a word right by `n - 1` and masking with 1 gives 0 or 1, and gives 1 exactly when field `bitN` is set |
| `PrvLayout.FieldOf` | PrvSetting.h:69-74 | every named flag is an alias for one of the eight fields `bit01`..`bit08` |
| `PrvLayout.NamedFlagPositions` | PrvSetting.h:69-74 | `flag_holidayjdg`, `flag_adjustsync` and `flag_hour_digit` are bits 0, 1 and 2 of `flag`; `flag_wifiinit_err` and `flag_udpbegin_err` are bits 7 and 6 of `err_flag` |
| `PrvLayout.NamedFlagsDisjoint` | PrvSetting.h:69-74 | two different named flags in the same register alias different fields |
| `PrvLayout.Registers.Write` | PrvSetting.h:66-67 | assigning a named flag is a field write to its own register; the other register keeps its whole byte |
| `PrvLayout.WriteReadRoundTrip` | PrvSetting.h:69-74 | reading a named flag after assigning `v` to it gives `v` |
| `PrvLayout.WriteNonInterference` | PrvSetting.h:69-74 | assigning one named flag leaves every other named flag, in either register, as it was |
| `PrvLayout.WriteCurrentValue` | PrvSetting.h:59-62 | assigning a named flag the value it already has leaves both bytes unchanged |
| `PrvSetting.DayDataSentinel` | PrvSetting.cpp:11-23 | after `set_daydata` the reserved field `bit32` of every month is 1 |
| `PrvSetting.DayDataMarks` | PrvSetting.cpp:25-26 | after `set_daydata` day `d` of month `m` (d in 1..31) is marked exactly when it is January 1st |
| `PrvSetting.DayDataCharacterised` | PrvSetting.cpp:9-27 | a 12-month table equals the one `set_daydata` writes if and only if it marks exactly January 1st and the reserved field of every month |
| `PrvSetting.FlagInitResult` | PrvSetting.cpp:40-46 | clearing both registers and then setting `flag_adjustsync` gives `flag == 0x02` and `err_flag == 0x00` |
| `PrvSetting.FlagInitReads` | PrvSetting.cpp:42-45 | after `flag_init` `flag_adjustsync` reads 1 and every other named flag reads 0 |
| `PrvSetting.FlagInitCharacterised` | PrvSetting.cpp:42-45 | the registers equal those `flag_init` leaves if and only if `bit02` of `flag` is set and every other field of both registers is clear |
| `PrvSetting.Globals.constructor` | PrvSetting.cpp:4-6 | the globals start zero: twelve zero month words and two zero registers |
| `PrvSetting.Globals.SetDayData` | PrvSetting.cpp:9-27 | after `set_daydata`, `mdata[0] == 0x80000001` and `mdata[1..11] == 0x80000000`, whatever the table held before (so a second call changes nothing); the registers are untouched |
| `PrvSetting.Globals.GetDayData` | PrvSetting.cpp:30-37 | for month 1..12 and day 1..32 the result is 0 or 1, and it is 1 exactly when field `bit<day>` of `mdata[month-1]` is set; it changes no state |
| `PrvSetting.Globals.WriteFlag` | PrvSetting.h:69-74 | an assignment to a named flag changes the registers as `Registers.Write` does, leaves `mdata` alone and keeps the class invariant |
| `PrvSetting.Globals.FlagInit` | PrvSetting.cpp:40-46 | after `flag_init` the registers are `FlagInitRegisters`, that is `flag == 0x02` and `err_flag == 0x00`, whatever they held before; `mdata` is untouched and the class invariant is kept |
| `PrvSetting.QueriesAfterSetDayData` | PrvSetting.cpp:26-34 | after `set_daydata`, `get_daydata(1, 1) == 1`, `get_daydata(m, d) == 0` for every other month 1..12 and day 1..31, and day 32 reads 1 |

## Left out

- The `Arduino.h` dependency (PrvSetting.h:4) contributes no logic here and is not part of this model.
- The network, display, serial and format-string constants (PrvSetting.h:77-98) feed WiFi, NTP, UDP, HTTP, TFT and serial code that is not part of this model.
- The aliasing of a C++ union is not reproduced: each union is one bit-vector with field accessors, and the fields are proved to determine the whole value (`Byte8Ext`, `Word32Ext`).
- Bit-field allocation order and reading a union through a member other than the one last written are left to the compiler in C++; the model fixes the GCC behaviour the firmware relies on: the same bits under every member, allocated least significant bit first.
- `Globals.WriteFlag`: the value assigned to a one-bit field is a `bool`. In C the right-hand side is an integer and only its lowest bit is stored; the one assignment in PrvSetting.cpp (line 45) assigns 1; an assignment of any value other than 0 or 1, which C++ would truncate to its lowest bit, is not modelled.
- `Globals.GetDayData`: a month outside 1..12 indexes outside `mdata`, and a day outside 1..32 makes the shift undefined; both are excluded by its precondition, as the C code does not check them.
- Concurrency: the firmware is single-threaded, and the globals are accessed only from its one thread.
