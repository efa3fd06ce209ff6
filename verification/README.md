# i.MX RT10xx TRNG driver, modelled in Dafny

This project models the true random number generator driver of the i.MX RT10xx
chips (`chips/imxrt10xx/src/trng.rs`). It covers:

- the `TRNGRegisters` block: where each declared register sits in the 256-byte
  window at `0x400C_C000`, and which absolute address reaches which register;
- the bit-fields of `Control` (MCTL), `Check` (SCMISC), `Status`,
  `EntropyRead` and the three interrupt registers, and the masked
  read-modify-write the driver performs with them;
- the `TRNG` controller: `new`, and the `Entropy32` operations `get`, `cancel`
  and `set_client`. `get` is modelled both as its effect on the registers
  and as the ordered trace of hardware accesses it issues: clock enable, four
  MCTL modifies, a raw byte load, and the priming read of ENT15;
- `TRNGIter::next`, the cursor over the sixteen entropy words, alone and over
  any number of successive calls.

Files:

| file | module(s) | contents |
|---|---|---|
| `wrappers.dfy` | `Wrappers` | `Option` and `Result` |
| `bits.dfy` | `Bits` | fields, masks built bit by bit, field values, modify, read |
| `fields.dfy` | `Control`, `Check`, `Status`, `EntropyRead`, `InterruptControl`, `InterruptMask`, `InterruptStatus` | each register's fields and their layout facts |
| `layout.dfy` | `Layout` | offsets, address decoding, the register file |
| `trng.dfy` | `Trng` | the controller, `get` with its trace, `cancel`, `set_client` |
| `entropy.dfy` | `Entropy` | `TRNGIter::next` and runs of it |

Registers are values in a `RegisterFile`. A field modify reads the register,
replaces the bits under the field's mask and writes the result back, as the
register library's `modify` does. Because each `next` call reads MCTL and the
entropy words again, a run of calls is modelled against a sequence of
register views, one per call. The hardware may change ENT_VAL or the words
between two calls.

Two points about the code shape the model:

- `interrupt_handler` only logs. Its delivery of a cursor to the client and
  its re-arm or halt logic (trng.rs:420-435) are commented out, so nothing
  models them.
- `get` also issues a raw volatile byte load of address `0x400CC0B8`
  (trng.rs:505), between leaving programming mode and the priming read. The
  trace keeps this load, and `Trng.RawReadIsIntMask` shows it reaches byte 0
  of INT_MASK.

## Model

| member | source | states |
|---|---|---|
| Bits.SpanBit | chips/imxrt10xx/src/trng.rs:112-133 | a mask of `n` bits from bit `lo` has bit `i` set exactly when `lo <= i < lo + n` |
| Bits.MaskBit | chips/imxrt10xx/src/trng.rs:112-133 | a field's mask has bit `i` set exactly when the field's OFFSET/NUMBITS range covers `i` |
| Bits.DisjointMasks | chips/imxrt10xx/src/trng.rs:111-134 | two fields share no bit position if and only if their masks AND to zero |
| Bits.DescendingDisjoint | chips/imxrt10xx/src/trng.rs:111-134 | fields listed from high offsets to low, each ending at or below the previous one's start, are pairwise disjoint in positions and in masks |
| Bits.Val | chips/imxrt10xx/src/trng.rs:133 | a field value carries the field's mask and no bit outside it; for a field at offset 0 its bits are the written number cut to the field's width |
| Bits.ValZero | chips/imxrt10xx/src/trng.rs:112-114 | writing the number 0 into a field (like `PRGM::RunMode`) is the same as clearing it |
| Bits.SetField | chips/imxrt10xx/src/trng.rs:499-500 | `FIELD::SET` writes ones into exactly the field's bits |
| Bits.ClearField | chips/imxrt10xx/src/trng.rs:503 | `FIELD::CLEAR` writes zeros into exactly the field's bits |
| Bits.Modify | chips/imxrt10xx/src/trng.rs:499-503 | after `modify(fv)` the register holds `fv` under its mask and keeps every other bit |
| Bits.ModifyUnique | chips/imxrt10xx/src/trng.rs:499-503 | the modify is the only value holding `fv` that agrees with the old value outside the mask |
| Bits.ModifyModify | chips/imxrt10xx/src/trng.rs:499-503 | a second modify of the same field overrides the first; modifying twice with one value equals modifying once |
| Bits.ModifyCommute | chips/imxrt10xx/src/trng.rs:500-501 | modifies of disjoint fields, such as RST_DEF and SAMP_MODE, may be done in either order |
| Bits.ModifyKeepsMask | chips/imxrt10xx/src/trng.rs:499-503 | a modify leaves every bit under a mask disjoint from its own unchanged |
| Bits.ReadValAtZero | chips/imxrt10xx/src/trng.rs:108-398 | for a field at offset 0 (like `LRUN_MAX` or `ENT`), reading the field back after writing `v` into it gives `v` cut to the field's width |
| Bits.ReadValOneBit | chips/imxrt10xx/src/trng.rs:108-398 | for a one-bit field at any offset, reading it back after writing `v` gives the low bit of `v` |
| Bits.ReadValTwoBits | chips/imxrt10xx/src/trng.rs:108-398 | for a two-bit field at any offset (`OSC_DIV`, `SAMP_MODE`), reading it back after writing `v` gives the low two bits of `v` |
| Bits.ReadValFourBits | chips/imxrt10xx/src/trng.rs:108-398 | for a four-bit field at any offset (`RTY_CT`, `RETRY_CT`), reading it back after writing `v` gives the low four bits of `v` |
| Bits.IsSetOneBit | chips/imxrt10xx/src/trng.rs:455 | `is_set` on a one-bit field, as `next` applies it to ENT_VAL, holds exactly when that field's bit is one |
| Bits.IsSetAfterModify | chips/imxrt10xx/src/trng.rs:499-503 | after `FIELD::SET` the field reads as set, and after `FIELD::CLEAR` it does not |
| Control.NamedValues | chips/imxrt10xx/src/trng.rs:112-133 | `PRGM::ProgramMode`, `TSTOP_OK::OK` and `TRNG_ACC::Acc` set their one-bit fields; `PRGM::RunMode` and `TRNG_ACC::Deny` clear them; `SAMP_MODE::VON` writes 2 into bits 0-1 |
| Control.Masks | chips/imxrt10xx/src/trng.rs:112-133 | the masks of PRGM, RST_DEF, SAMP_MODE and ENT_VAL are 0x1_0000, 0x40, 0x3 and 0x400 |
| Control.Layout | chips/imxrt10xx/src/trng.rs:111-134 | the thirteen MCTL fields fit in 32 bits and no two of them overlap |
| Check.Layout | chips/imxrt10xx/src/trng.rs:136-139 | RTY_CT and LRUN_MAX fit in 32 bits and do not overlap |
| Status.Layout | chips/imxrt10xx/src/trng.rs:247-297 | RETRY_CT and the sixteen test-failure bits fit in 32 bits and no two overlap |
| EntropyRead.WholeWord | chips/imxrt10xx/src/trng.rs:299-301 | reading the ENT field (offset 0, 32 bits) returns the whole register value |
| InterruptControl.Layout | chips/imxrt10xx/src/trng.rs:352-363 | the INT_CTRL fields, including the 29-bit UNUSED field, fit in 32 bits without overlap, and their masks together cover every bit |
| InterruptMask.Layout | chips/imxrt10xx/src/trng.rs:365-375 | the INT_MASK fields fit in 32 bits without overlap |
| InterruptStatus.Layout | chips/imxrt10xx/src/trng.rs:377-384 | the INT_STATUS fields fit in 32 bits without overlap |
| Layout.RegisterAt | chips/imxrt10xx/src/trng.rs:14-106 | an offset decodes to a register only when it is word-aligned and the word lies inside the 0x100-byte block |
| Layout.RegisterAtOffset | chips/imxrt10xx/src/trng.rs:14-106 | decoding a register's declared offset gives that register back |
| Layout.OffsetOfRegisterAt | chips/imxrt10xx/src/trng.rs:14-106 | a decoded register starts exactly at the decoded offset |
| Layout.RegistersApart | chips/imxrt10xx/src/trng.rs:14-106 | every register is word-aligned and inside the block, and no two registers overlap |
| Layout.EntropyArray | chips/imxrt10xx/src/trng.rs:69-89 | ENT0 .. ENT15 are contiguous words from 0x040, directly after STATUS, ending at 0x080 where the reserved range starts |
| Layout.ReservedRanges | chips/imxrt10xx/src/trng.rs:67-102 | offsets in the reserved ranges 0x008-0x03C, 0x080-0x0B4 and from 0x0C0 on start no register |
| Layout.Locate | chips/imxrt10xx/src/trng.rs:14-106 | an absolute address is located only inside the block, at a byte index below 4 |
| Layout.LocateAddress | chips/imxrt10xx/src/trng.rs:14-106 | each byte of each register is located back to that register and byte |
| Layout.LocateInside | chips/imxrt10xx/src/trng.rs:14-106 | a located address is the register's address plus the located byte index |
| Layout.Store | chips/imxrt10xx/src/trng.rs:17-97 | a store to one register changes that register to the stored value and no other register |
| Layout.StoreLoad | chips/imxrt10xx/src/trng.rs:17-97 | storing back the value just loaded leaves the register file unchanged |
| Trng.New | chips/imxrt10xx/src/trng.rs:400-416 | a new controller addresses the block at 0x400C_C000, has no client, and keeps the clock controller it was given |
| Trng.SetClient | chips/imxrt10xx/src/trng.rs:535-537 | after `set_client(c)` the client is `c`; the register base and the clock controller are unchanged |
| Trng.SetClientReplaces | chips/imxrt10xx/src/trng.rs:535-537 | registering client B after client A is the same as registering only B |
| Trng.Cancel | chips/imxrt10xx/src/trng.rs:531-533 | `cancel` fails with FAIL whatever the controller's state |
| Trng.ConfigMasks | chips/imxrt10xx/src/trng.rs:499-503 | the bits `get` configures are exactly PRGM, RST_DEF and SAMP_MODE, and `SAMP_MODE::VON` writes 2 into bits 0-1 |
| Trng.Get | chips/imxrt10xx/src/trng.rs:477-529 | `get` returns `Ok(())`; after it PRGM reads RunMode, RST_DEF reads 1 and SAMP_MODE reads VON; every other MCTL bit and every other register is unchanged |
| Trng.GetReplays | chips/imxrt10xx/src/trng.rs:477-529 | replaying `get`'s access trace from the starting registers gives the registers `get` leaves |
| Trng.GetOrder | chips/imxrt10xx/src/trng.rs:479-515 | the clock is enabled first and only once; PRGM is set before RST_DEF and SAMP_MODE; it is cleared after both; the raw byte load follows; ENT15 is read last and only once |
| Trng.GetTraceOrder | chips/imxrt10xx/src/trng.rs:499-515 | in `get`'s accesses, the configuration writes fall between PRGM set and PRGM clear, followed by the byte load and then the ENT15 read |
| Trng.GetTraceEnds | chips/imxrt10xx/src/trng.rs:479-515 | `get`'s accesses start with the only clock enable and end with the only ENT15 read |
| Trng.GetConfiguresWhileHalted | chips/imxrt10xx/src/trng.rs:499-503 | whatever MCTL held, every write to an MCTL field other than PRGM happens while PRGM is set, and PRGM is clear when `get` ends |
| Trng.GuardedAppend | chips/imxrt10xx/src/trng.rs:477-529 | a condition on the register state at selected accesses that holds over two access traces holds over the two run one after the other |
| Trng.RepeatedConfiguresWhileHalted | chips/imxrt10xx/src/trng.rs:477-529 | over any number of successive `get` calls, no configuration write happens outside programming mode |
| Trng.GetMctl | chips/imxrt10xx/src/trng.rs:499-503 | after `get`, MCTL is its old value with PRGM, RST_DEF and SAMP_MODE replaced by 0x42 |
| Trng.GetIdempotent | chips/imxrt10xx/src/trng.rs:477-529 | a second `get` leaves the registers as the first one left them |
| Trng.RawReadIsIntMask | chips/imxrt10xx/src/trng.rs:504-507 | the raw byte load at 0x400CC0B8 is byte 0 of INT_MASK (offset 0xB8) of the block `new` addresses |
| Trng.IndexOf | chips/imxrt10xx/src/trng.rs:477-529 | the position found holds the event and no earlier position does; no position is found only when the event is absent |
| Entropy.Next | chips/imxrt10xx/src/trng.rs:454-473 | `next` returns None exactly when ENT_VAL is clear or the cursor is past 15, and then the cursor does not move; otherwise it returns ENT[idx] and moves the cursor to `(idx + 1) mod 16` |
| Entropy.NextValid | chips/imxrt10xx/src/trng.rs:459-469 | from a cursor in 0..15, `next` stays in 0..15, and with ENT_VAL set it always returns a word, so the final `None` branch is unreachable |
| Entropy.NextReadsEnt | chips/imxrt10xx/src/trng.rs:459-466 | a word returned by `next` is the ENT field read from the entropy register at the cursor, which is the whole 32-bit register |
| Entropy.ItemAt | chips/imxrt10xx/src/trng.rs:454-473 | while ENT_VAL stays set, call `k` of a run returns the word at position `(idx + k) mod 16` of the registers that call sees |
| Entropy.CursorAfter | chips/imxrt10xx/src/trng.rs:459-466 | while ENT_VAL stays set, `n` calls move the cursor `n` positions on, modulo 16 |
| Entropy.RunValid | chips/imxrt10xx/src/trng.rs:446-473 | a cursor that starts in 0..15 stays in 0..15 after any number of calls |
| Entropy.RunAllReady | chips/imxrt10xx/src/trng.rs:454-473 | while ENT_VAL stays set, call `k` returns the word at position `(idx + k) mod 16` as it is at that call, and the cursor ends `n` positions on, modulo 16 |
| Entropy.RunNoneReady | chips/imxrt10xx/src/trng.rs:455-472 | while ENT_VAL stays clear, every call returns None and the cursor does not move |
| Entropy.RunYields | chips/imxrt10xx/src/trng.rs:454-473 | with the words fixed, one word comes out per call that sees ENT_VAL, in cursor order and wrapping after ENT15; the cursor ends that many positions on |
| Entropy.Batch | chips/imxrt10xx/src/trng.rs:459-466 | from position 0, sixteen calls with ENT_VAL set return ENT0 .. ENT15 in order and the cursor is back at 0 |

## Left out

- `interrupt_handler` (trng.rs:418-436): its body only logs. The delivery of a cursor to the client and the `Continue`-driven re-arm or halt are commented out, so no operation models them.
- `debug!` logging in `get` and `interrupt_handler`: output only, with no effect on state.
- The clock gate `ccm.enable_trng_clock()`: `chips/imxrt10xx/src/ccm.rs` is not part of this model. It appears as an event in `get`'s trace that always succeeds and changes no TRNG register.
- Volatile and hardware-side effects. Registers are plain stored values. The model does not capture that the hardware self-clears RST_DEF, that the priming read starts generation, or that reading an entropy word consumes it. Hardware changes between `next` calls are captured only as the sequence of register views.
- Trng.Get: assumes no hardware interference while `get` runs, so each modify sees the value the previous one wrote.
- The value of the raw byte load and of the ENT15 read: the driver discards both, so they appear only as trace events.
- Commented-out code: the disabled registers and fields (poker, seed, frequency, run-length, security, version), `TRNG_read_entropy`, the busy-wait loop in `get`, and the `hil::rng::Rng` implementation.
- `StaticRef` and `OptionalCell`: the register reference is its base address, and the client cell is an `Option` of a client reference. References (the client, the `&'static Ccm`) are identified by their address.
- Lifetimes and concurrency between `get` and the interrupt handler: the model is sequential.
- Entropy.Next: `idx` is a `usize` in the source and a natural number here. It never exceeds 15 from a valid start (`Entropy.RunValid`), so overflow cannot arise.
- Bits.Val: its own contract states where the written number lands only for fields at offset 0 (and `Bits.ValZero` for the number 0). The read-back round trip is proved in `Bits.ReadValAtZero`, `Bits.ReadValOneBit`, `Bits.ReadValTwoBits` and `Bits.ReadValFourBits`. Together these cover every field the driver declares except INT_CTRL's UNUSED field (29 bits at offset 3), which the driver never writes or reads. No single lemma covers every width at every offset; the bit-vector fact with both the mask and the shift amount symbolic did not verify.
- Bits.Read: the round trip is unproved only for fields that are neither at offset 0 nor one, two or four bits wide. Among the driver's fields that is INT_CTRL's UNUSED alone.
- The Status test-failure bits and the INT_STATUS error bit are declared but never inspected by the driver. They are modelled only as layout.
