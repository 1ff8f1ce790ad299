# Dromajo in Dafny

A model of the parts of the Dromajo RISC-V emulator whose correctness is hard to see from the
code, with proofs over all inputs and all runs.

**Soft float** (`Ieee754`, `IeeeOps`, `IeeeLaws`, `SoftFloat*`, `MulHigh`). `Ieee754` says what correct rounding
is, over exact rationals and square roots, without mentioning the code: which representable value
each of the five modes must return, and when each flag must be raised. `IeeeOps` states the five
operations from it, and `IeeeLaws` what they come to in plain words: which results are NaN and which
word that is, signs, ties, overflow. The `SoftFloat` modules are the routines of the library as methods over words of
any even width with at least 8 exponent bits and no fewer mantissa bits (binary32, binary64 and
binary128 among them), each proved to return the specified word and flags for every operand. The
link between a jammed mantissa and the exact value behind it is the *cell*: the half-ulp line, or
open half-ulp interval, that the value is known to lie in.

**Memory system of a hart** (`Pmp`, `PmpMeaning`, `Mmu`, `Translation`, `Tlb`, `Hart`, `DirtyPages`,
`LrSc`). `Pmp` gives the
meaning of the protection registers after the privileged specification and proves the unpacked list
against it; `PmpMeaning` says what register writes leave, on the raw bits. `Mmu` is the slow path:
page-table walk, protection check, physical map, and `Translation` says over raw bytes which chains of
page-table entries it follows. `Tlb` is a state
machine of the steps that fill and flush the data TLBs, with coherence over every run; `Hart` is the
object with the arrays, each method one step. `DirtyPages` and `LrSc` do the same for the dirty
bitmap over any number of harts and for reservations over any interleaving.

**Golden-memory hash map** (`RobinHoodLayout`, `RobinHoodCrowding`, `RobinHood`, `RobinHoodOverflow`).
The invariant of the packed info bytes on plain sequences, when they run out in terms of the keys, the
table over its own arrays as a refinement of a finite map, and a run that overflows it.

**Live cache** (`Recency`, `LiveCache`, `Traverse`). The last `assoc` distinct tags of a trace as an
independent definition, the move-to-front sets against it, and the sorted traversal.

**Checkpoint boot ROM** (`BootRomIsa`, `BootRom`, `Checkpoint`, `CheckpointActs`, `RomBuilder`). Encoders, an
interpreter of the words they give, the program of a checkpoint, the emitter, and the state a hart
ends in.

`Powers` and `LittleEndian` hold the arithmetic of powers of two and of bytes, `Basics` what several
modules share.

`dafny verify dfyconfig.toml` checks the project.

## Where the code does not do what it seems to promise

- `mulh` and `mulhsu` subtract the negative operand itself from the unsigned high word, where the
  other operand is due. `MulHigh` keeps the code, gives a pair of operands for which both results are
  wrong, and proves exactly when each is right.
- `sqrtrem_u` starts from a power of two said to reach the root, but drops the low word when the high
  word is nonzero, and the loop then stops at once on a value that is too small
  (`SoftFloatSqrt.ShortExample`); the largest operand fails the assertion of the division
  (`SoftFloatSqrt.LargestWraps`); `SoftFloatSqrt.SqrtremU` says exactly when. The square root itself
  only passes a zero low word and is not affected.
- The overlap test of the protection check treats an empty or inverted top-of-range interval that
  lies inside an access as a match. `Pmp.HitsIff` is the exact condition, `Pmp.ListDecides` what it does
  to the decision; `Pmp.StraddleExample` is an eight-byte access that meets it.
- The check for misaligned superpages in the page-table walk looks at one bit of the page number per
  level where nine must be clear, so a misaligned superpage translates whenever those bits are clear
  (`Translation.MisalignedPasses`); `Translation.SuperpageIff` says exactly which entries it judges
  rightly, and `Translation.WalkIff` follows the code.
- Reset leaves a reservation of address 0 with a current sequence number, so a store-conditional to
  address 0 succeeds without any load-reserved (`LrSc.ResetReservesZero`). `LrSc.ScSafe` covers every
  address by counting that reservation; `LrSc.HeldIff` gives the usual meaning for all others.
- `insert_move` calls its overflow error impossible to reach. It is reached after 204 insertions with
  a hash that sends half of the keys to home 255 and half to home 256 of the double table
  (`RobinHoodOverflow.Overflow`), and entries are lost. `RobinHoodCrowding` and
  `RobinHood.Table.RehashPowerOfTwo` say from the keys exactly when it happens.
- What a load-reserved reserves is the virtual address. If its translation changes before the
  store-conditional, that one writes a word nobody reserved (`LrSc.RemapWrites`); `LrSc.CounterExact`
  asks for the place that was read.
- The boot ROM takes the upper halves of the floating-point registers from the integer registers
  (`Checkpoint.FpRestoredIff`), and restores `mcountinhibit`, `mcounteren` and `scounteren` through a
  12-bit immediate (`BootRom.SignExt12Iff`). It restores mstatus before the floating-point state, which
  marks FS dirty again (`Checkpoint.StatusRestoredIff`).
- Writing dcsr is meant to stop the counters, but the test compares before it masks and looks at bit 0:
  for a user-mode checkpoint they run (`Checkpoint.CountersStop`).
- The comment on the ROM layout gives the boot data 512 bytes. The emitted data takes up to 1080
  bytes; the check at the end of the emitter is against the real array and is proved never to fail.

## Model

| member | source | states |
|---|---|---|
| Ieee754.RoundsExists | include/softfp_template.h:117-178 | every exact value has a correctly rounded index in each of the five rounding modes |
| Ieee754.RoundsUnique | include/softfp_template.h:117-178 | and only one, so correct rounding determines the result word |
| Ieee754.NearestOfAll | include/softfp_template.h:117-178 | the index chosen by the two nearest modes is at least as close to the exact value as every other representable value |
| Ieee754.DirectedBound | include/softfp_template.h:117-178 | the index chosen by a directed mode is the greatest representable value not above, or the least not below, the exact value |
| IeeeOps.DecodeFields | include/softfp_template.h:98-102 | exactly which words are NaN, signalling NaN and infinity, and the sign of all others |
| IeeeOps.FiniteFields | include/softfp_template.h:98-102 | the value of every zero, subnormal and normal word from its sign, exponent and significand |
| IeeeOps.NaNTests | include/softfp_template.h:214-228 | the two NaN predicates hold exactly of the NaN and of the signalling NaN words |
| IeeeLaws.QuietIsCanonical | include/softfp_template.h:92-92 | the NaN of the operations, in every format, has sign 0, all exponent bits, the top mantissa bit and no other, and is quiet |
| IeeeLaws.CanonicalWords | include/softfp_template.h:92-92 | it is 7fc00000, 7ff8000000000000 and 7fff8000000000000000000000000000 in the three formats |
| IeeeLaws.OneWord | include/softfp_template.h:98-102 | exponent field 2^(exp-1) - 1 with an empty mantissa is the number one |
| IeeeLaws.NearestModes | include/softfp_template.h:117-178 | to nearest: no float is nearer, and a tie goes to the even one or away from zero as the mode says |
| IeeeLaws.DirectedModes | include/softfp_template.h:117-178 | toward zero, up and down, for either sign: exactly the floats on the far side of the exact value lie beyond the result |
| IeeeLaws.OverflowModes | include/softfp_template.h:117-178 | which word an overflow gives in each mode and sign, and the word and INEXACT flag of a result in range |
| IeeeLaws.AddNaN | include/softfp_template.h:230-284 | a sum is NaN exactly for a NaN operand or opposite infinities, then the canonical one; INVALID exactly for a signalling operand or opposite infinities |
| IeeeLaws.AddSign | include/softfp_template.h:230-284 | the sign of a sum of finite numbers, an exact zero included |
| IeeeLaws.MulNaN | include/softfp_template.h:338-385 | a product is NaN exactly for a NaN operand or zero times infinity, then the canonical one; INVALID accordingly; else the sign is the product of the signs |
| IeeeLaws.DivNaN | include/softfp_template.h:592-654 | a quotient is NaN exactly for a NaN operand, 0/0 or infinity/infinity, then the canonical one; INVALID accordingly; DIVIDE_ZERO exactly for a nonzero number over zero; else the sign is the product of the signs |
| IeeeLaws.SqrtNaN | include/softfp_template.h:719-764 | a root is NaN exactly for a NaN or a negative operand other than zero, then the canonical one; INVALID accordingly; else the sign is kept |
| IeeeLaws.FmaNaN | include/softfp_template.h:388-558 | a fused product and sum is NaN exactly for zero times infinity, a NaN operand, or an infinite product against the other infinity, then the canonical one; INVALID accordingly |
| IeeeLaws.Commutes | include/softfp_template.h:230-558 | addition, multiplication and the factors of a fused product commute, flags included |
| SoftFloatRound.RShiftRnd | include/softfp_template.h:104-115 | the sticky shift is the quotient with every lost bit jammed into the lowest one, for all shift counts |
| SoftFloatRound.CellShr | include/softfp_template.h:104-115 | a jammed mantissa still pins the exact value down between, or on, the rounding boundaries |
| SoftFloatRound.RoundsAt | include/softfp_template.h:117-178 | adding the mode's addend and dropping the round bits gives the correctly rounded index in all five modes |
| SoftFloatRound.TinyIff | include/softfp_template.h:117-178 | the subnormal test of the code holds exactly when the result is tiny after rounding (IEEE 754-2008 section 7.5) |
| SoftFloatRound.RoundPackSf | include/softfp_template.h:117-178 | for every mantissa with its leading bit in place whose lowest bit is sticky: the correctly rounded word, and INEXACT, OVERFLOW and UNDERFLOW exactly when required (IEEE 754-2008 sections 4.3, 7.4-7.6) |
| SoftFloatRound.NormalizeSf | include/softfp_template.h:180-188 | the same from an unnormalised mantissa |
| SoftFloatRound.ClzRange | src/softfp.cpp:49-67 | the leading-zero count locates the highest set bit |
| SoftFloatRound.ClzHalves | src/softfp.cpp:70-84 | the 128-bit count from the counts of its two halves |
| SoftFloatAdd.SumCell | include/softfp_template.h:269-281 | a jammed addend added or subtracted leaves the exact sum in the cell of the result, even under cancellation |
| SoftFloatAdd.AddSf | include/softfp_template.h:230-284 | for every pair of words and every mode: the exact sum rounded once, the sign of an exact zero by the mode, NaN and infinity cases, and the flags |
| SoftFloatAdd.SubSf | include/softfp_template.h:286-288 | the same of a and the word that differs from b only in sign |
| SoftFloatMul.MulU | include/softfp_template.h:308-334 | four half-word products and two carry steps are the full double-width product; no carry is lost |
| SoftFloatMul.NormalizeSubnormalSf | include/softfp_template.h:290-295 | a subnormal significand shifted up keeps its value with the adjusted exponent |
| SoftFloatMul.MulSf | include/softfp_template.h:338-385 | for every pair of words and every mode: the exact product rounded once, and the flags |
| SoftFloatDiv.DivremU | include/softfp_template.h:571-588 | the bit-serial division returns quotient and remainder of the double word, remainder below divisor, also when the shifted-out bit overflows |
| SoftFloatDiv.DivSf | include/softfp_template.h:592-654 | for every pair of words and every mode: the exact quotient rounded once, division by zero and invalid cases, and the flags |
| SoftFloatSqrt.NewtonAbove | include/softfp_template.h:689-715 | a Newton step never falls below the integer root |
| SoftFloatSqrt.SqrtremU | include/softfp_template.h:689-715 | for every double word with a high word below a quarter of the range: the division assertion fails exactly for the largest operand; otherwise the square of the result is at most the operand, the result is the floor of the root if and only if the first guess is not short, and the inexact bit is exact |
| SoftFloatSqrt.ZeroWordNotShort | include/softfp_template.h:693-702 | a zero high or low word, as the square root passes, gives a first guess that is never short |
| SoftFloatSqrt.ShortExample | include/softfp_template.h:693-702 | in every format, high word 1 and low word all ones give a short guess, although 2^l is said to reach the operand |
| SoftFloatSqrt.LargestWraps | include/softfp_template.h:703-709 | for the largest operand the second step adds quotient and iterate to exactly 2^size, which wraps to zero, the next divisor |
| SoftFloatSqrt.SqrtSf | include/softfp_template.h:719-764 | for every word and every mode: the correctly rounded square root, and the flags |
| SoftFloatFma.Normalize2Sf | include/softfp_template.h:190-212 | a double-word mantissa, exact or pinned down by a cell, is correctly rounded |
| SoftFloatFma.AlignSmaller | include/softfp_template.h:507-522 | the alignment of the smaller operand: jammed exactly, or, for a far shift, some nonzero word |
| SoftFloatFma.AddWords | include/softfp_template.h:525-528 | double-word addition with carry |
| SoftFloatFma.SubWords | include/softfp_template.h:529-538 | double-word subtraction with borrow |
| SoftFloatFma.FmaFarCell | include/softfp_template.h:509-515 | why the low word of a far smaller operand may be dropped: no rounding boundary lies between |
| SoftFloatFma.FmaSf | include/softfp_template.h:388-558 | for all words and every mode: the exact a*b+c rounded once (IEEE 754-2008 section 5.4.1), the special cases, and the flags |
| SoftFloatCvt.CvtSfToInt | include/softfp_template_icvt.h:54-119 | float to integer is round by mode, then saturate; INVALID exactly on NaN or out of range, INEXACT exactly when in range and inexact |
| SoftFloatCvt.CvtIntToSf | include/softfp_template_icvt.h:130-155 | integer to float is correctly rounded for every integer of the type |
| SoftFloatCvt.IntRoundTrip | include/softfp_template_icvt.h:54-155 | an integer of at most mantissa + 1 bits that fits the type comes back unchanged, with no flag, in every mode |
| MulHigh.MulHUCorrect | include/dromajo_template.h:258-281 | mulhu is the high word of the unsigned product |
| MulHigh.MulHCorrectIff | include/dromajo_template.h:285-293 | mulh is the signed high word if and only if the operands have the same sign |
| MulHigh.MulHSUCorrectIff | include/dromajo_template.h:295-301 | mulhsu is the signed-unsigned high word if and only if the first operand is not negative or the words are equal |
| MulHigh.MulHCounterexample | include/dromajo_template.h:285-301 | a pair of operands where both are wrong |
| RobinHoodLayout.PathInfo | gold/robin_hood.hpp:1237-1261 | every slot from the home of a key to its position carries at least the key's probe info |
| RobinHoodLayout.SearchMayStop | gold/robin_hood.hpp:1306-1326 | a search that meets a smaller info byte has proved the key absent |
| RobinHoodLayout.InsertKeeps | gold/robin_hood.hpp:2074-2096 | robin-hood insertion keeps the table invariant |
| RobinHoodLayout.RemoveKeeps | gold/robin_hood.hpp:1283-1301 | backward-shift deletion keeps the table invariant |
| RobinHoodLayout.HalveKeeps | gold/robin_hood.hpp:2157-2182 | halving every byte gives each slot the info of the narrower packing, and room for one more step |
| RobinHoodLayout.RoomFor | gold/robin_hood.hpp:2079-2082 | below the load limit the search for an empty slot ends before the sentinel |
| RobinHoodLayout.CalcMaxBounds | gold/robin_hood.hpp:1908-1913 | the element limit is at most 80 percent of the bucket count, short of it by less than one element up to a hundredth of the size range and by less than 80 above |
| RobinHoodCrowding.CrowdedIff | gold/robin_hood.hpp:1265-1281 | in any table the info bytes have run out if and only if some window of homes from a to b holds at least b - a + 127 keys |
| RobinHoodCrowding.EarlierWindows | gold/robin_hood.hpp:1970-1997 | a doubling must fail if some window of all keys holds b - a + 128, and cannot fail if every one holds at most b - a + 126 |
| RobinHoodCrowding.DoubledAgain | gold/robin_hood.hpp:2184-2204 | an insertion doubles at most twice, and the second time only the keys decide |
| RobinHood.Table.JamIff | gold/robin_hood.hpp:1333-1338 | the overflow guard of a move holds if and only if the keys are crowded, in a table without removals |
| RobinHoodOverflow.Clashing | gold/robin_hood.hpp:1333-1338 | 204 keys that fit 256 buckets and cannot be moved to 512 |
| RobinHoodOverflow.Fill | gold/robin_hood.hpp:2102-2155 | 204 insertions into an empty table with that hash all succeed |
| RobinHoodOverflow.Overflow | gold/robin_hood.hpp:1333-1338 | and the next new key is refused by a failed move, with entries lost |
| RobinHood.Table.constructor | gold/robin_hood.hpp:2224-2232 | an unallocated table is the empty map |
| RobinHood.Table.KeyToIdx | gold/robin_hood.hpp:1237-1249 | home slot and probe info of a key, from the bits of its hash |
| RobinHood.Table.FindIdx | gold/robin_hood.hpp:1306-1326 | finds the key exactly when the map has it, at a node that holds its value |
| RobinHood.Table.Locate | gold/robin_hood.hpp:2056-2066 | the node of a present key, or the insertion point of an absent one |
| RobinHood.Table.FindEmpty | gold/robin_hood.hpp:2080-2082 | the first empty slot from the insertion point on, inside the table |
| RobinHood.Table.ShiftUp | gold/robin_hood.hpp:1265-1281 | nodes and info bytes moved up by one, the element limit cleared exactly when a byte runs out of room |
| RobinHood.Table.InsertAt | gold/robin_hood.hpp:2074-2098 | the map gains the pair and nothing else changes; the element limit is cleared only if some byte has no room left |
| RobinHood.HalveWord | gold/robin_hood.hpp:2172-2176 | one shift and one mask over a 64-bit word halve each of its bytes by itself |
| RobinHood.Table.TryIncreaseInfo | gold/robin_hood.hpp:2157-2182 | one hash bit fewer in every byte, the map unchanged; refused exactly when the increment is at most 2 |
| RobinHood.Table.InitData | gold/robin_hood.hpp:2030-2047 | a fresh table of the given size is the empty map; the arrays have the bucket count plus at most 255 overflow slots, and the one info byte set is the sentinel |
| RobinHood.Table.InsertMove | gold/robin_hood.hpp:1333-1376 | a node known to be new is added if and only if the element limit is set or the increment is above 2; else nothing changes |
| RobinHood.Table.RehashPowerOfTwo | gold/robin_hood.hpp:1970-1997 | succeeds if and only if the keys but the last do not crowd the new size, and then keeps the map; a failure leaves a proper part of it that is crowded |
| RobinHood.Table.IncreaseSize | gold/robin_hood.hpp:2184-2204 | allocates, narrows or doubles without changing the map, each exactly under its guard; refuses exactly at low load or when the keys but the last crowd the double size |
| RobinHood.Table.Insert | gold/robin_hood.hpp:2050-2155 | refused exactly when growth is, and told from the keys before the call; else the pair is added exactly when the key was absent, at the bucket count Grown names; the loop ends |
| RobinHood.Table.ShiftDown | gold/robin_hood.hpp:1283-1301 | the run behind a removed slot moves down by one |
| RobinHood.Table.Erase | gold/robin_hood.hpp:1836-1854 | the map loses exactly the key, and the result says whether it was there |
| Pmp.CfgWordByte | src/riscv_cpu.cpp:1844-1856 | a pmpcfg write takes each unlocked byte and keeps each locked one |
| PmpMeaning.CfgWriteTakes | src/riscv_cpu.cpp:1837-1858 | a locked byte stays; of any other the permissions, the mode and the lock bit are taken and the two reserved bits cleared; pmpcfg2 writes do nothing |
| PmpMeaning.AddrWriteTakes | src/riscv_cpu.cpp:1862-1896 | the low 38 bits go to that register alone, unless the entry is locked or the next one is a locked top-of-range entry |
| PmpMeaning.Covers | src/riscv_cpu.cpp:1571-1624 | what an entry covers when off, top-of-range and four bytes wide, from the raw bits of its byte and registers |
| PmpMeaning.CoversPower | src/riscv_cpu.cpp:1598-1619 | an entry of the power-of-two mode whose register encodes an aligned region covers exactly that region |
| PmpMeaning.WrittenRegion | src/riscv_cpu.cpp:1837-1896 | writing the encoding of an aligned power-of-two region and then its byte makes the entry cover exactly that region, with the permissions and lock written |
| Pmp.ApplyWf | src/riscv_cpu.cpp:1837-1896 | every register write keeps reserved bits clear, addresses 38 bits wide and pmpcfg2 zero |
| Pmp.LockedForever | src/riscv_cpu.cpp:1837-1896 | over any sequence of register writes a locked entry keeps configuration, address and lower bound, hence the addresses it covers (section 3.6.1 of RISC-V Privileged v1.11) |
| Pmp.LockedStaysUnpacked | src/riscv_cpu.cpp:1571-1624 | and stays in the unpacked list with the same interval and permissions |
| Pmp.BoundsCover | src/riscv_cpu.cpp:1571-1624 | an unpacked interval is exactly the set of addresses its register entry covers |
| Pmp.NapotInverse | src/riscv_cpu.cpp:1598-1619 | decoding inverts the encoding of every naturally aligned power-of-two region of at least eight bytes |
| Pmp.DecodeNapot | src/riscv_cpu.cpp:1598-1619 | the trailing-ones loop and the 64-bit mask arithmetic compute that region for every 38-bit register |
| Pmp.HitsIff | src/riscv_cpu.cpp:258-265 | the overlap test agrees with the registers if and only if the access does not straddle an empty region |
| Pmp.SmallNeverStraddles | src/riscv_cpu.cpp:258-265 | an aligned access of at most four bytes never does |
| Pmp.StraddleExample | src/riscv_cpu.cpp:258-265 | an eight-byte access that does |
| Pmp.ListDecides | src/riscv_cpu.cpp:258-267 | the first match in the compacted list is the lowest-numbered register entry the access touches if and only if the access straddles no empty entry before it |
| Pmp.PmpUnit.UnpackPmpAddrs | src/riscv_cpu.cpp:1571-1624 | the list holds the active entries in register order |
| Pmp.PmpUnit.WriteCfg | src/riscv_cpu.cpp:1837-1858 | the new registers, whose bytes PmpMeaning.CfgWriteTakes names, and the list rebuilt from them |
| Pmp.PmpUnit.WriteAddr | src/riscv_cpu.cpp:1862-1896 | the new registers, which PmpMeaning.AddrWriteTakes names; locked entries, and the one below a locked top-of-range entry, refuse |
| Pmp.PmpUnit.AccessOk | src/riscv_cpu.cpp:241-267 | the verdict of the compacted list, which is that of the lowest-numbered register entry touched, at the effective privilege, unless an empty entry before it is straddled |
| Mmu.WalkByPage | src/riscv_cpu.cpp:419-534 | the walk gives every address of a page the same fault, or addresses in one page with the same offset |
| Mmu.PmpByPage | src/riscv_cpu.cpp:241-267 | page-aligned protection gives one verdict per page |
| Mmu.ResolveByPage | src/riscv_cpu.cpp:607-646 | if one access resolves to RAM, so does every access inside that page, at the same distance |
| Mmu.ResolveDepends | src/riscv_cpu.cpp:454-463 | memory matters to a translation only through the entries its walk reads |
| Mmu.AccessesAgree | src/riscv_cpu.cpp:419-534 | a load and a store of one address that both resolve to RAM resolve to the same place |
| Translation.FindRangeIff | src/iomem.cpp:80-88 | the range found is the last registered one that holds the address |
| Translation.WalkIff | src/riscv_cpu.cpp:419-534 | below machine mode with paging on, an address translates to pa if and only if it is sign-extended and a chain of readable eight-byte entries, from the page in satp down nine address bits at a time, valid pointers and then one leaf that grants the access by its V, R, W, X, U, A and D bits, leads to pa; all over raw bytes |
| Translation.AccessFaultIff | src/riscv_cpu.cpp:454-463 | an access fault if and only if a chain of pointers ends at an entry outside RAM or denied by the protection; every other failure is a page fault |
| Translation.BareWalk | src/riscv_cpu.cpp:419-437 | in machine mode or with paging off an address is its own translation |
| Translation.PmpIff | src/riscv_cpu.cpp:241-267 | permitted if and only if inside the physical address space and the first region that meets the access holds all of it and grants it, or none meets it in machine mode; an unlocked region does not bind machine mode |
| Translation.ResolveIff | src/riscv_cpu.cpp:607-646 | RAM at this host byte, page fault or access fault, each if and only if the walk, the protection and the physical map say so |
| Translation.SuperpageIff | src/riscv_cpu.cpp:491-496 | the misaligned-superpage check refuses exactly the misaligned leaves if and only if the page number is aligned or one of its first j bits is set |
| Translation.MisalignedPasses | src/riscv_cpu.cpp:491-496 | page number 2^j in a leaf j levels up is misaligned, passes, and maps page 0 |
| Tlb.HitIsSlow | src/riscv_cpu.cpp:350-399 | a read or write TLB hit gives the physical address, host location and permission verdict of the slow path |
| Tlb.StepCoherent | src/riscv_cpu.cpp:350-399 | every load, store, mstatus, satp and PMP write, fence, trap and return keeps the TLBs coherent |
| Tlb.RunIsSlow | src/riscv_cpu.cpp:350-399 | over every run from a flushed state, with MPRV clear, page-aligned regions and no store to a page-table entry in use, each aligned data access comes to exactly what the slow path says |
| Tlb.LoadServesPage | src/riscv_cpu.cpp:350-374 | one load that reaches RAM serves its page: every aligned load of it afterwards is answered from the TLB at the same distance |
| Tlb.StoreServesPage | src/riscv_cpu.cpp:376-399 | the same of stores |
| Tlb.SatpTaken | src/riscv_cpu.cpp:1708-1718 | of a legal value satp keeps mode and root page number and clears the bits between; any other mode leaves it as it was |
| Hart.ResolvedInBounds | src/riscv_cpu.cpp:607-646 | a resolved host pointer and the bytes behind it lie in host memory |
| Hart.StoreThenLoad | src/riscv_cpu.cpp:350-399 | after a store in a coherent run, every load of the address that resolves to RAM lands where the store did and reads its value |
| Hart.Hart.TlbFlushAll | src/riscv_cpu.cpp:889-899 | every entry of both TLBs becomes invalid |
| Hart.Hart.GetRange | src/iomem.cpp:80-88 | the last registered range that holds the address |
| Hart.Hart.GetPhysAddr | src/riscv_cpu.cpp:419-534 | the loop computes the walk that Translation.WalkIff and AccessFaultIff describe: fault class or physical address |
| Hart.Hart.Read | src/riscv_cpu.cpp:350-374 | a load is a step of the run and returns the bytes of the location it came to; misaligned addresses are refused |
| Hart.Hart.Write | src/riscv_cpu.cpp:376-399 | a store is a step of the run |
| Hart.Hart.SetMstatus | src/riscv_cpu.cpp:1247-1258 | the fields take their new values; flushes when MPRV, SUM or MXR change, or MPP under MPRV |
| Hart.Hart.WriteSatp | src/riscv_cpu.cpp:1708-1718 | refused in supervisor mode under TVM; else modes 0, 8 and 9 are taken with the root page number and the bits between cleared, other modes change nothing, and the TLBs are flushed |
| Hart.Hart.SetPriv | src/riscv_cpu.cpp:1966-1971 | the new privilege, and a flush when it changes |
| Hart.Hart.TrapToMachine | src/riscv_cpu.cpp:2038-2054 | MPP is the privilege before and the privilege 3; a step of the run |
| Hart.Hart.Mret | src/riscv_cpu.cpp:2079-2090 | the privilege is MPP before and MPP 0; a step of the run |
| Hart.Hart.WritePmpCfg | src/riscv_cpu.cpp:1837-1858 | new registers, byte by byte as PmpMeaning.CfgWriteTakes says, and a flush unless the write is ignored |
| Hart.Hart.WritePmpAddr | src/riscv_cpu.cpp:1862-1896 | new registers, and a flush unless the write is ignored |
| DirtyPages.SetBitAt | include/iomem.h:112-121 | setting a bit sets that bit and no other |
| DirtyPages.Machine.SetDirtyBit | include/iomem.h:112-121 | exactly one more page is dirty |
| DirtyPages.Machine.ResolvedPage | src/riscv_cpu.cpp:709-741 | a store that resolves to RAM lands in a whole page of host memory, in the tracked range only while it is enabled |
| DirtyPages.Machine.Store | src/riscv_cpu.cpp:688-760 | a store by any hart, through its TLB or by the walk, protection check and map, keeps: valid write entries point at dirty pages, and dirty pages are the stored ones |
| DirtyPages.Machine.FlushWriteRange | src/riscv_machine.cpp:1080-1083 | no hart keeps a write entry into the range; all others stay |
| DirtyPages.Machine.HasDirtyBits | src/iomem.cpp:142-153 | whether some word of the bitmap has a bit; if none has, no hart has a write entry into the range: the flush may be skipped |
| DirtyPages.Machine.GetDirtyBits | src/iomem.cpp:135-159 | bit g mod 32 of word g / 32 is set exactly for the pages g stored to since the last collection, so every byte that changed lies in a marked page |
| DirtyPages.Machine.FlushHart | src/riscv_cpu.cpp:889-899 | a flush of one hart keeps the invariant |
| DirtyPages.Machine.SetAddr | src/iomem.cpp:184-205 | enabling, moving or disabling the range keeps the invariant |
| LrSc.ScSafe | include/dromajo_template.h:1655-1680 | over every interleaving a store-conditional succeeds if and only if its address is held and the RAM stores of other harts since are a multiple of 2^64 |
| LrSc.HeldIff | include/dromajo_template.h:1655-1680 | an address other than 0 is held exactly by the hart's latest load-reserved, not consumed by a successful store-conditional |
| LrSc.ResetReservesZero | include/riscv_cpu.h:299-309 | straight after reset address 0 counts as reserved |
| LrSc.ScAtomic | include/dromajo_template.h:1655-1680 | so below 2^64 such stores: if and only if no other hart stored |
| LrSc.CounterExact | include/dromajo_template.h:1655-1680 | a 32- or 64-bit word updated by load-reserved, add one, store-conditional to the place that was read is its start plus the number of successes modulo its size, over byte memory with translations changing at will |
| LrSc.NarrowWraps | include/dromajo_template.h:1655-1680 | a full 32-bit word goes round to zero under the same discipline |
| LrSc.RemapWrites | include/dromajo_template.h:1655-1680 | if the translation changes in between, the store-conditional succeeds and writes a word nobody reserved; the count is then right exactly if both words were the same |
| LrSc.ExtendSigned | include/dromajo_template.h:1655-1663 | the register a word is loaded into, read as a signed number, is the word read as a signed number |
| LrSc.OverlapIff | src/riscv_cpu.cpp:387-396 | two accesses overlap exactly if they share a byte |
| LrSc.Machine.LoadReserved | include/dromajo_template.h:1655-1663 | records address and global sequence number; the register, read as signed, is the four or eight bytes at the place, little-endian, read as signed; a misaligned or faulting access changes nothing, and exactly those return no value |
| LrSc.Machine.Write | src/riscv_cpu.cpp:387-396 | a RAM store of 1 to 8 bytes writes the low bytes of the value and moves the global and the own number |
| LrSc.Machine.StoreConditional | include/dromajo_template.h:1665-1680 | success stores the low bytes and consumes the reservation; the result and the exceptions |
| Recency.RecencyTouched | include/LiveCacheCore.h:447-572 | the recency list holds exactly the accessed tags of its set |
| Recency.RecencyDescends | include/LiveCacheCore.h:447-572 | ordered by last access, the latest first |
| Recency.SetsInterleave | include/LiveCacheCore.h:269-283 | with a power of two sets the set of a tag is its low bits: tags share a set exactly if they differ by a multiple of the set count, and neighbouring tags never do |
| LiveCache.Cache.SetIndex | include/LiveCacheCore.h:269-283 | the remainder of the tag by the set count |
| LiveCache.AccessOk | include/LiveCacheCore.h:447-572 | one access keeps every set equal to the last `assoc` distinct tags, with their stamps and store marks |
| LiveCache.Cache.FindLine | include/LiveCacheCore.h:447-488 | a hit moves its line to the front, a miss changes nothing |
| LiveCache.Cache.FillLine | include/LiveCacheCore.h:490-572 | a miss replaces the oldest line |
| LiveCache.Cache.Access | src/LiveCache.cpp:96-131 | read and write: every set stays exact LRU; hits are counted exactly for resident tags |
| Traverse.MergeSort | src/LiveCache.cpp:165-202 | sorted by stamp, and a permutation |
| Traverse.Traverse | src/LiveCache.cpp:133-163 | each resident line with non-zero stamp once, by increasing last access, the low bit telling whether it was written since filled |
| BootRomIsa.Decodes | src/riscv_cpu.cpp:2429-2459 | for all arguments each emitted word decodes to the instruction it is meant to be, with the low five bits of a register number and the low twelve of a control register or immediate |
| BootRomIsa.EncodedWords | src/riscv_cpu.cpp:2429-2459 | the words of sample instructions, field by field as the RISC-V manual lays them out |
| BootRomIsa.BranchDecodes | src/riscv_cpu.cpp:2580-2588 | the scattered immediate of a branch is put together again for every distance |
| BootRomIsa.JumpDecodes | src/riscv_cpu.cpp:2580-2588 | and that of a jump |
| BootRomIsa.DirtyBits | src/riscv_cpu.cpp:76-84 | marking mstatus sets the FS field to 3 and bit 63 and leaves every other bit; it changes nothing exactly if both were so |
| BootRomIsa.DcsrFields | src/riscv_cpu.cpp:1787-1793 | a write of dcsr changes the privilege and the two stop bits and nothing else |
| BootRomIsa.FcsrViews | src/riscv_cpu.cpp:1643-1655 | fflags, frm and fcsr stay three views of one register under every write of one of them |
| BootRomIsa.PairAddsUp | src/riscv_cpu.cpp:2433-2451 | the rounded upper part and the signed lower part of a pc-relative address add up |
| BootRomIsa.LoadsPair | src/riscv_cpu.cpp:2548-2557 | a load sequence reads its own aligned data pair |
| BootRom.RunItem | src/riscv_cpu.cpp:2536-2588 | running the words of a recovery item has exactly its effect |
| BootRom.SignExt12Iff | src/riscv_cpu.cpp:2461-2464 | exactly the values that survive a 12-bit immediate, for 64-bit and for 32-bit registers |
| BootRom.HangsForever | src/riscv_cpu.cpp:2580-2588 | a hart other than 0 stays in the prologue for ever |
| Checkpoint.RunItems | src/riscv_cpu.cpp:2590-2745 | running the ROM has the effects of its items in order |
| Checkpoint.ProgramBand | src/riscv_cpu.cpp:2590-2745 | the items write each control register at most once, in a fixed order |
| Checkpoint.RecoveredIn | src/riscv_cpu.cpp:2590-2745 | each listed control register, the counters, mip and mstatus included, has an item with its own saved value |
| CheckpointActs.ActsAreThese | src/riscv_cpu.cpp:2590-2745 | the stores and control-register writes of the program are exactly a list written out register by register |
| CheckpointActs.ResetOnce | src/riscv_cpu.cpp:2670-2673 | each of the event counters b03 to b1f is written exactly once, with zero |
| Checkpoint.BootRestores | src/riscv_cpu.cpp:2590-2745 | the hart reaches the saved pc and privilege with x1 to x31 as saved, having stored and written control registers exactly in the order of the program; each register that only its own write changes holds what that write leaves, whatever its mask, and each event counter what writing zero leaves; mstatus is marked by the floating-point state restored after it; fflags, frm and fcsr are as saved |
| Checkpoint.NarrowIn | src/riscv_cpu.cpp:2683-2685 | the counter-enable and counter-inhibit registers have items of twelve bits |
| Checkpoint.StatusRestoredIff | src/riscv_cpu.cpp:2642-2660 | mstatus stays as its own write leaves it exactly if the saved FS field is off or dirty |
| Checkpoint.CountersStop | src/riscv_cpu.cpp:1787-1793 | from the write of dcsr to the dret the counters stand still exactly if the saved privilege is odd |
| Checkpoint.MinstretHeld | src/riscv_cpu.cpp:2718-2718 | with the counters stopped minstret holds its saved value up to the dret |
| Checkpoint.ProgramActs | src/riscv_cpu.cpp:2716-2731 | the two timer stores are the only stores; minstret and mcycle are written between them and satp is written last |
| Checkpoint.FpRestoredIff | src/riscv_cpu.cpp:2652-2661 | a floating-point register comes back exactly if its upper half is that of the integer register of the same number |
| Checkpoint.OtherHartsHang | src/riscv_cpu.cpp:2603-2604 | on a single-hart machine every other hart never leaves the prologue |
| RomBuilder.Emitted | src/riscv_cpu.cpp:2536-2578 | words emitted at the cursors never disturb what is laid out already |
| RomBuilder.Builder.Csr64 | src/riscv_cpu.cpp:2536-2546 | lays out a 64-bit control-register item |
| RomBuilder.Builder.Csr12 | src/riscv_cpu.cpp:2461-2464 | lays out a 12-bit control-register item |
| RomBuilder.Builder.Reg | src/riscv_cpu.cpp:2548-2557 | lays out a register item |
| RomBuilder.Builder.Io64 | src/riscv_cpu.cpp:2559-2578 | lays out a store item |
| RomBuilder.Builder.CreateBootRom | src/riscv_cpu.cpp:2590-2745 | the ROM holds the program of the checkpoint and dret and boots as BootRestores says; code and data never meet, so the only refusal is privilege 2 |

## Left out

- Insert: one method for both insertion and `operator[]`, which run the same steps and differ in the
  value they store for a new key.
- Read: a stale host pointer outside host memory, which coherence rules out, reads as zero instead of
  being undefined.
- BootRestores: assumes a data load from the ROM succeeds and nothing traps, that is, MPRV clear in
  the saved mstatus and no protection entry denying the ROM to machine mode. The mask of a control
  register is a parameter that looks at its own old value. Of mcycle, minstret and mip only the write
  is stated: the counters run from the dret on, storing mtime sets mcycle, and the timer moves mip.
- RunIsSlow: with MPRV set, with protection regions smaller than a page, or after a store to a page
  table in use without a fence, hits and walks may differ; those runs are outside the statement.
- The variants of `mul_u`, `divrem_u` and `sqrtrem_u` for hosts with a double-width integer type.
- Float comparisons, minimum and maximum, classification, sign injection, conversions between
  float formats.
- The code TLB, instruction fetch, triggers, misaligned accesses (the configuration refuses them),
  device reads and writes beyond telling them from RAM.
- A page table placed in a device range reads as a fault; the code would follow a null pointer.
- Privilege and interrupt bits of mstatus other than MPRV, MPP, SUM, MXR and TVM.
- Device writes to RAM, which neither set dirty bits nor count as stores for reservations.
- The cache warm-up loop of the boot ROM, and what else writing a control register does.
- The direct-mapped cache and the random replacement policy; cache lines are held by value where the
  code moves pointers, and set indices use a power-of-two count as the code assumes.
- The hash function, allocation, copying, iteration, `reserve` and `clear` of the hash map; hashes
  are natural numbers and the index mask is the remainder by the bucket count.
- The instruction decoder and interpreter loop, vector instructions, interrupt controllers, serial
  and block devices, tracing, and the out-of-order checks of the golden model.
