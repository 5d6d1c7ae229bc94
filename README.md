# CNROM (NES mapper 3) bank switching in Dafny

This project models the CHR bank switch of the LameNES emulator's mapper 3
(CNROM). The CPU writes a byte somewhere in the cartridge's address space.
When the address is in 0x8000..0xFFFF, the mapper masks the byte with
`CHR - 1` to choose a CHR (graphics) bank. It then copies that 8192-byte bank
out of the cached iNES image into PPU memory at address 0.

The emulator keeps `PRG`, `CHR`, `romcache` and `ppu_memory` in globals.
Here they are parameters of the two methods:

- `prg` and `chr` are the PRG and CHR bank counts;
- `romcache` is the whole image, 16-byte header included, as an `array<Byte>`;
- `ppuMemory` is the PPU address space, as an `array<Byte>`.

Files:

- `bits.dfy` (module `Bits`): C's `&` on non-negative integers (`BitAnd`),
  powers of two, and the facts the bank mask relies on.
- `cnrom.dfy` (module `Cnrom`):
  - the two operations, `SwitchChr` (a copy loop standing for `memcpy`) and
    `Access` (the address decode);
  - the functions on sequences that specify them: `SelectBank`, `ChrOffset`,
    `ChrBank`, `SwitchedMemory`, `AccessedMemory`;
  - the lemmas about those functions.

The offset of bank `b` is `16 + PRG*16384 + b*8192` (`ChrOffset`). The trigger
test is exactly `address > 0x7fff && address < 0x10000` (`InTriggerRange`).

## Model

| member | source | states |
|---|---|---|
| `Bits.BitAnd` | mappers/cnrom.h:69 | `a & b` never exceeds either operand |
| `Bits.LowMaskIsModulo` | mappers/cnrom.h:69 | masking with `c - 1`, for `c` a power of two, is reduction modulo `c` |
| `Cnrom.SelectBank` | mappers/cnrom.h:69 | the bank `data & (CHR - 1)` is below `CHR` for every `CHR > 0`, is at most `data`, and equals `data % CHR` when `CHR` is a power of two |
| `Cnrom.ChrBankWithinImage` | mappers/cnrom.h:48-58 | every bank below `CHR` starts after the header and the PRG banks, and ends inside the CHR region, so every byte the copy reads is in bounds |
| `Cnrom.SwitchedMemory` | mappers/cnrom.h:58 | a switch keeps the size of PPU memory |
| `Cnrom.AccessedMemory` | mappers/cnrom.h:68-70 | a write keeps the size of PPU memory |
| `Cnrom.SwitchChr` | mappers/cnrom.h:36-59 | afterwards `ppu_memory[i] == romcache[16 + PRG*16384 + bank*8192 + i]` for `i < 8192`; every byte from 8192 on is unchanged; `romcache` is unchanged |
| `Cnrom.Access` | mappers/cnrom.h:61-71 | a write outside 0x8000..0xFFFF leaves PPU memory unchanged; a write inside loads bank `data & (CHR - 1)` into the first 8192 bytes; bytes from 8192 on are never touched; `romcache` is unchanged |
| `Cnrom.AccessUnchangedIff` | mappers/cnrom.h:68-69 | a write leaves PPU memory as it was if and only if the address is outside 0x8000..0xFFFF, or the selected bank is already in the first 8192 bytes |
| `Cnrom.AccessLoadsMaskedBank` | mappers/cnrom.h:58-69 | with a power-of-two `CHR`, a write inside the range shows bank `data % CHR` in the first 8192 bytes and keeps the rest |
| `Cnrom.AccessIdempotent` | mappers/cnrom.h:58-69 | two identical writes in a row leave the same PPU memory as one |
| `Cnrom.LastWriteWins` | mappers/cnrom.h:58-69 | after any write followed by a write inside the range, PPU memory is what the second write alone would give |
| `Cnrom.EveryBankSelectable` | mappers/cnrom.h:69 | with a power-of-two `CHR` of at most 256, writing `b < CHR` selects bank `b`, so every bank is reachable |
| `Cnrom.FourBankScenario` | mappers/cnrom.h:46-70 | with four CHR banks, writing 0x06 to 0x8000 shows bank 2; a following write of 0xFF to 0x7FFF changes nothing |

## Left out

- Debug tracing under `MAPPER_DEBUG` (mappers/cnrom.h:53-56, 64-66) is logging only.
- Loading and parsing the iNES header, and dispatching among mappers, are not part of this model. `PRG`, `CHR` and the image are inputs.
- `CHR == 0` is excluded by a precondition. The source does not check it: there the mask `CHR - 1` is all ones and `data` is used unmasked.
- A non-power-of-two `CHR` is allowed and stays in bounds, since the bank is still below `CHR`. Only `data % CHR` is not proved for it. The source then selects only the banks whose bits fit the mask (with `CHR == 3`, bank 1 is never selected).
- `romcache` and `ppu_memory` must be distinct arrays. `memcpy` requires that the two regions do not overlap.
- The callers must make sure the image holds all the banks and PPU memory holds 8192 bytes. The source checks neither before copying; the model states both as preconditions.
- The C `int` arithmetic `16 + 16384*PRG + bank*8192` is modelled on unbounded integers. It cannot overflow for the bank counts an iNES header can express (at most 255 of each).
- The SDL display code (system/desktop/display.c), including frame pacing in `update_fps_data`, is not part of this model. It is windowing, pixel-format and wall-clock timing code.
