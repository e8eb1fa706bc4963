# Speedracer emulator core in Dafny

This project models the deterministic core of the Speedracer SGI Octane (MIPS)
emulator and proves properties of it. The core has three parts:

- **CPU interpreter** (`Cpu`, cpu.dfy): the register file, HI/LO, the
  `pc`/`nextPC` pair and the sticky `halted` flag. It covers `reset`, `setPC`,
  `read_reg`, `write_reg` and one `stepOnce_mmu`. `is_halted` is the `halted`
  field. The MMU's `read32` instruction fetch is a partial map from address to
  word, and a missing address is a fetch fault.
- **Software-managed TLB** (`Tlb`, tlb.dfy): the `TLBEntry` record and the
  entry table. Its operations are read, write with modulo wrap, round-robin
  random write, probe and flush, plus the final store `tlb[index] = e` of `insertTLBEntry`.
- **MMIO devices and ROM words** (`Framebuffer`, `Uart`, `Rom`): the
  framebuffer's six-register file with its frame-ready flag, the UART stub's
  data and status registers, and `ROMRegion`'s bounds-checked big-endian
  32-bit read.

Every operation is a pure function on an immutable record. The one exception
is the TLB probe, which is also a method with a loop, mirroring the source's
scan. `uint32_t`/`uint64_t` values are bounded integers (`Base.u32`,
`Base.u64`). Each wrap-around is written out: `pc + 4` and `pc + 8` use
`Cpu.Add64`, `randomPtr + 1` is reduced modulo 2^32, and the ROM bounds check
reduces `offset + 4` modulo 2^64. Bit fields use division and remainder by
powers of two.

The model follows the code as written, not the MIPS architecture. MIPS
specifies several things the code does not do:

- delay-slotted jumps;
- a hard-wired register 0;
- reserved-instruction exceptions;
- a reset vector of `0xBFC00000`.

In the code, J and JAL redirect `pc` on the same step. Register 0 is writable.
Every unimplemented encoding sets `halted`, and `pc` still moves on to the old
`nextPC`. `reset` loads `pc = 0x1FC00000`, while `ROMRegion` defaults its
base to `0xBFC00000`. The model follows the code in each of these.

## Model

| member | source | states |
|---|---|---|
| Cpu.Reset | src/cpu.cpp:32-37 | every register reads 0, HI = LO = 0, pc = 0x1FC00000 with nextPC = pc + 4, not halted |
| Cpu.ReadReg | src/cpu.cpp:120-123 | registers 0..31 read their stored value (register 0 included, so it is not hard-wired to 0); any index of 32 or more reads 0 |
| Cpu.WriteReg | src/cpu.cpp:120-127 | a write followed by `read_reg` returns the value for indices below 32, index 0 included; other registers are unchanged; an index of 32 or more changes nothing and reads 0 |
| Cpu.SetPC | src/cpu.cpp:113-116 | pc becomes the address and nextPC = addr + 4 (mod 2^64); registers, HI/LO and `halted` are unchanged |
| Cpu.Decode | src/cpu.cpp:66-103 | the opcode/funct switch always yields a J/JAL target that fits in 26 bits |
| Cpu.DecodeClassifies | src/cpu.cpp:66-103 | opcode 2 decodes to J and opcode 3 to JAL, each with its 26-bit target; opcode 0 with funct 0x0D decodes to BREAK; any other SPECIAL funct and any other opcode decode to the halting forms |
| Cpu.JumpTarget | src/cpu.cpp:86-87 | the target keeps bits 31..28 of pc, clears bits above 31, and puts the 26-bit field shifted left by 2 below them |
| Cpu.JumpTargetReaches | src/cpu.cpp:85-95 | every word-aligned address below 2^32 in the same 256 MiB segment as pc is reachable by J/JAL, through the target field holding its low 28 bits divided by 4 |
| Cpu.Step | src/cpu.cpp:54-107 | a halted CPU is unchanged; a fetch fault sets only `halted`; J sets pc to bits 31..28 of pc joined with the 26-bit field shifted left by 2, on the same step, and keeps registers; JAL does the same and writes old pc + 8 to register 31 only; every other opcode (BREAK and other SPECIAL functs included) halts with pc := old nextPC; after every fetched step nextPC = pc + 4 and HI/LO are unchanged |
| Cpu.HaltingStepAdvances | src/cpu.cpp:70-83 | under nextPC = pc + 4, BREAK, any other SPECIAL funct and any other opcode halt and still advance pc by 4, leaving registers unchanged |
| Cpu.RunKeepsPairing | src/cpu.cpp:105-106 | nextPC = pc + 4 holds after any number of steps from a state where it holds |
| Cpu.HaltedIsFinal | src/cpu.cpp:55 | once halted, any number of further steps leaves the whole state unchanged |
| Cpu.RunOnlyLinks | src/cpu.cpp:85-106 | stepping never changes HI, LO or any register other than 31 |
| Cpu.JumpToSelfSpins | src/cpu.cpp:85-88 | a J to its own address never halts and keeps the state fixed: there is no delay slot to execute |
| Cpu.CallAndReturn | src/cpu.cpp:85-95 | JAL at a followed by J back to a + 8 leaves register 31 = a + 8 and pc = a + 8 after two steps, not halted; for any word-aligned a and callee in one 256 MiB segment below 2^32 (the reset segment 0x1FC00000 included), since J/JAL cannot leave the segment |
| Tlb.Create | src/mmu.h:6-21 | a new table has `tlbSize` entries (64 when not given), each the default entry: invalid, not global, dirty, PFN-valid, with VPN, PFN, ASID and page mask 0; randomPtr = 0 |
| Tlb.ReadEntry | src/mmu.cpp:14-17 | nothing when the index is at least the size; otherwise exactly the stored entry |
| Tlb.WriteSlot | src/mmu.cpp:19-23 | the slot written is the index when it is in range, else index mod size, and it always lies in the table |
| Tlb.WriteEntry | src/mmu.cpp:19-25 | the entry is stored at that slot; every other slot, the size and randomPtr are unchanged; the MMU invariant is kept |
| Tlb.InsertEntry | src/mmu.cpp:9-12 | reading back the index yields the entry; every other index reads as before; randomPtr is unchanged |
| Tlb.ReadAfterWrite | src/mmu.cpp:14-25 | round trip: for an in-range index, `readTLBEntry` after `writeTLBEntry` returns the written entry; other indices read as before |
| Tlb.WriteRandom | src/mmu.cpp:27-35 | an empty table is unchanged and 0 is returned; otherwise slot randomPtr is written and returned, every other slot is kept, and randomPtr becomes (randomPtr + 1) mod size, so it stays below the size |
| Tlb.RoundRobin | src/mmu.cpp:30-33 | the k-th of a run of random writes targets slot (randomPtr + k) mod size, and the pointer ends at (randomPtr + count) mod size |
| Tlb.RandomWritesCoverTable | src/mmu.cpp:31-32 | `size` consecutive random writes touch every slot, so wired slots are not skipped |
| Tlb.Flush | src/mmu.cpp:45-47 | every entry has `valid` cleared and all its other fields kept; the size and randomPtr are unchanged |
| Tlb.FlushEmptiesProbe | src/mmu.cpp:37-47 | after `flushAll` every probe returns -1, and a second flush changes nothing |
| Tlb.FirstMatchFrom | src/mmu.cpp:37-43 | reference probe: -1 exactly when no valid entry has the VPN; otherwise the first slot whose entry is valid and has that VPN |
| Tlb.Probe | src/mmu.cpp:37-43 | the scan returns -1 or a slot index; -1 exactly when nothing matches; otherwise a valid entry with that VPN and no match before it; this equals the reference probe |
| Tlb.NoValidNoMatch | src/mmu.h:34-35 | a table with no valid entry answers every probe with -1 |
| Tlb.ProbeIgnoresOtherFields | src/mmu.cpp:39-40 | two tables that agree on `valid` and `vpn` answer every probe alike, whatever their ASID, global, PFN and page-mask fields |
| Tlb.ProbeFindsWritten | src/mmu.cpp:19-43 | after a valid entry is written at slot i, its VPN probes to a slot at or before i; if to an earlier slot, to the same slot the probe found before the write |
| Framebuffer.Read32 | src/dev/framebuffer.cpp:22-34 | offsets 0x00, 0x04, 0x08, 0x0C, 0x10 and 0x14 read ctrl, width, height, pitch, fb_phys and vsync; every other offset reads 0 |
| Framebuffer.Create | src/dev/framebuffer.cpp:8-18 | ctrl = 0, width = 1280, height = 1024, pitch = width * 4 = 5120, fb_phys = 0x10000000, vsync = 0, frame-ready flag clear |
| Framebuffer.Write32 | src/dev/framebuffer.cpp:36-53 | a write at a known offset reads back; every other offset reads as before (writing width does not recompute pitch); the flag is set exactly by a write to 0x14 and is never cleared; unknown offsets change nothing |
| Framebuffer.Width | src/dev/framebuffer.h:40 | `get_width` is the register the guest reads at 0x04 |
| Framebuffer.Height | src/dev/framebuffer.h:41 | `get_height` is the register the guest reads at 0x08 |
| Framebuffer.Pitch | src/dev/framebuffer.h:42 | `get_pitch` is the register the guest reads at 0x0C |
| Framebuffer.FbPtr | src/dev/framebuffer.cpp:55-73 | with no memory: size 0 and a null pointer; with memory: size pitch * height, which fits in 64 bits; null in the build without a host mapping; otherwise exactly what the memory's `host_ptr_for_phys` answers for (fb_phys, size), null included |
| Framebuffer.FrameReadyIffVsyncWritten | src/dev/framebuffer.cpp:43-47 | after a run of writes, the flag is set exactly when it was set before or some write targeted 0x14 |
| Framebuffer.UntouchedRegisterKept | src/dev/framebuffer.cpp:36-53 | a register that no write in a run addresses keeps its value |
| Framebuffer.GeometryFromRegistersOnly | src/dev/framebuffer.h:40-41 | width, height, pitch and the `fb_ptr` result depend on the register file alone |
| Uart.Read32 | src/main.cpp:85-92 | offset 0x00 reads 0 (no receive data), 0x04 reads the status register, any other offset reads 0xFFFFFFFF |
| Uart.Create | src/main.cpp:95 | the status register starts at 0x01 |
| Uart.Write32 | src/main.cpp:72-82 | a write to 0x00 emits exactly `value & 0xFF` and leaves status unchanged; a write to 0x04 reads back from 0x04 and emits nothing; other offsets change nothing; no write changes what 0x00 or an unknown offset reads |
| Uart.ReadsOutsideStatusAreConstant | src/main.cpp:85-92 | a read at 0x00 returns 0 and a read at any unknown offset returns 0xFFFFFFFF |
| Uart.TransmitEchoes | src/main.cpp:185-188 | sending a byte string through the data register emits exactly that string and leaves the device state unchanged |
| Rom.BaseAddr | src/main.cpp:44 | `base_addr` returns the base the region holds, the one given at construction (see Rom.Create) |
| Rom.Create | src/main.cpp:27-44 | the base defaults to 0xBFC00000, `base_addr` returns the base given, and the image starts empty |
| Rom.BytesOfWord | src/main.cpp:50-53 | the word assembled big-endian from four bytes splits back into those same bytes |
| Rom.WordOfBytes | src/main.cpp:50-53 | splitting a word into big-endian bytes and reassembling them gives the word back |
| Rom.Read32Be | src/main.cpp:48-55 | 0xFFFFFFFF when offset + 4 exceeds the size; otherwise the word whose big-endian bytes are data[offset..offset+4] |
| Rom.Read32BeAsWritten | src/main.cpp:48-55 | with `offset + 4` wrapping modulo 2^64: when the wrapped sum exceeds the size the read returns 0xFFFFFFFF; the read goes out of bounds exactly when the wrapped sum fits in the size but the true sum does not; otherwise it returns the big-endian word at offset |
| Rom.AsWrittenAgreesBelowWrap | src/main.cpp:49 | for offset + 4 < 2^64, the as-written check returns the same word as the intended one |
| Rom.AsWrittenOverreads | src/main.cpp:49-53 | on a 4-byte image, offset 2^64 - 2 passes the as-written check and reads out of bounds, while the intended check returns 0xFFFFFFFF |
| Rom.ReadSerialized | src/main.cpp:48-55 | reading offset 4k of an image built from big-endian words returns word k |

## Findings

| source | as written | input that shows it | evidently intended | confidence | as-written member | corrected member |
|---|---|---|---|---|---|---|
| src/main.cpp:49 | the bounds check `offset + 4 > data.size()` is computed in `size_t` and wraps for offsets within 4 of 2^64 | a 4-byte image and offset 2^64 - 2: the sum wraps to 2, the check passes, and `data[offset]` is read far past the end | return 0xFFFFFFFF for every offset whose four bytes are not inside the image | high; not executed | Rom.Read32BeAsWritten (shown by Rom.AsWrittenOverreads) | Rom.Read32Be (Rom.ReadSerialized and Rom.AsWrittenAgreesBelowWrap are proved about it) |

## Left out

- `MMU::translate` and the index checks of `insertTLBEntry` are not modelled. The instruction fetch `mmu->read32(pc)` is an uninterpreted partial map.
- `Tlb.InsertEntry`: models only the final store `tlb[index] = e` of `insertTLBEntry`, so an index inside the table is required. Its handling of other indices is not modelled.
- `Tlb.Create`: models the MMU constructor as sizing the table to `tlbSize` default entries (64 by default) with `randomPtr = 0`, the member defaults. Its other work, such as keeping the `Memory` and `CP0` pointers, is not modelled.
- `Tlb.WriteEntry`: requires a non-empty table. On an empty table the source's `index % tlb.size()` divides by zero, which is undefined behaviour.
- `Tlb.WriteRandom`: requires the MMU invariant (`Tlb.Valid`): the table has fewer than 2^32 entries, and `randomPtr` is below the size when the table is non-empty. `randomPtr` is private and only this operation assigns it, so the invariant always holds.
- `Tlb.Probe`: the result is an unbounded `int`. The source's `static_cast<int>` of an index of 2^31 or more is not modelled.
- `pc`/`nextPC` are modelled as 64-bit, the `uint64_t` width that `setPC`, `read_reg` and `write_reg` use.
- CP0 (src/cp0.h): declarations only, with no behaviour to model. No exception, EPC, Count/Compare, Wired or ASID semantics are invented.
- Delay slots, reserved-instruction exceptions and a hard-wired register 0 are described for the architecture but not implemented by the code, so they are not modelled.
- The framebuffer's frame-ready callback (`frameCb`, `set_frame_ready_cb`) is an opaque host call and is not modelled. The `std::atomic` flag is a plain boolean.
- `Framebuffer.FbPtr`: `Memory::host_ptr_for_phys` is not modelled. It is a parameter (`Framebuffer.HostMap`), and the pointer it answers is returned unexamined.
- The UART's transmitted byte goes to host stdout. The model returns it as the emitted byte instead.
- Host I/O and glue are not modelled: `ROMRegion::load_from_file`, `resolve_rom_path`, `print_hexdump`, `main`, the SDL display thread (src/dev/sdl_display.*), the text menu (src/tools/tui_single_part2.cpp), `Emulator::init` wiring and all logging.
