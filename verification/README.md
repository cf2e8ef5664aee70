# Verified model of the RISC-V processor model

This project models the parts of the simulator's RISC-V hart in which caches and derived values have to agree
with simple architectural definitions, and proves that they do, over all inputs and all runs, or exactly when they do
where the code needs a condition. `dafny verify dfyconfig.toml` checks everything.

Functions on values give each operation's meaning, classes (`PmpUnit`, `MmuUnit`, `HartUnit`, `MonitorUnit`,
`Rounding.Unit`, `NanBox.Unit`) hold the code that updates state in place and are proved equal to those functions,
and lemmas state what holds of every operation and every run.

- **Physical memory protection** (`PmpRegions`, `PmpPriority`, `PmpWrites`, `PmpCoherence`, `PmpMachine`,
  `PmpExamples`, `PmpRegisters`, `PmpUnit`). The reference is the first-match rule of section 3.6 of the RISC-V
  Privileged Architecture v1.10. In every reachable state each cached permission is withheld or equal to the first-match permission; locks are
  permanent; regions have the sizes the encoding promises; registers read back what was written where it can be.
- **Page-table walk, TLB and aliases** (`PageWalk`, `WalkProperties`, `WalkFaults`, `Walkers`, `Tlb`, `TlbCoherence`,
  `TlbTransparency`, `TlbRuns`, `TableChanges`, `MmuUnit`). The three walkers are one generic walk (section 4.3.2 of the
  same document), and which address an access reaches or which exception it raises is stated over the table entries on
  its way. A hart with TLB and memory aliases refines one that walks the tables at every access, for any sequence of
  accesses, MXR and SUM changes, address space switches, fences, and table changes with the fence that they need,
  made at once (`TlbRuns`) or later with other accesses in between (`TableChanges`).
- **Both together** (`ProtectedAccess`). Over every run an access reaches memory exactly if the walk and the
  first-match rule both allow it.
- **Traps, returns and interrupts** (`Hart`, `HartRuns`, `HartMeaning`, `TrapNesting`, `HartUnit`; sections 3.1.7, 3.1.13
  and 3.1.14 of the same document). No interrupt or wakeup is lost, at most three interrupts are taken back to back, returns
  undo traps, privilege rises only by traps, and architecture, data domain and simulated ASID are always what the
  registers define.
- **LR/SC across harts** (`Reservation`, `ReservationRuns`, `MonitorUnit`; section 7.2 of the RISC-V User-Level ISA
  v2.2). Over every interleaving a live tag is a reservation that nothing has ended.
- **Translation-time assumptions and arithmetic** (`Rounding`, `NanBox`, `Mulhsu`; sections 8.2, 9.2 and 6.1 of the
  User-Level ISA v2.2). `Bits` holds the word arithmetic and `Access` the shared types.

## Where the code needs a condition

- A `pmpaddr[i]` write invalidates only entry i although it also moves the base of a TOR entry i+1
  (riscv-ovpsim/source/riscvVM.c:2298-2305). `PmpExamples.TorBaseWriteStrands` gives a failing input,
  `PmpCoherence.AddrWriteExact` the exact condition on the registers and the written value.
- The Machine-mode invalidation of a `pmpcfg` write reads lock bits that have not been reverted yet
  (riscv-ovpsim/source/riscvVM.c:2140-2146). `PmpExamples.ClearingShadowOfLockedEntry` gives a failing input,
  `PmpMachine.MachWriteExact` the exact condition on the registers and the written value, for both kinds of write;
  Supervisor and User permissions are not affected by this one.
- A write of misa.MXL, where it is writable, switches the view in which satp is read without refreshing mode, domain
  and ASID (riscv-ovpsim/source/riscvCSR.c:107-110). `HartRuns.MxlWriteStrands` gives a failing input, after which
  the next miss of a data access finds satp in bare mode; `HartRuns.MisaWriteExact` gives the exact condition, and
  with MXL read-only, the default, nothing is asked (`HartRuns.FixedMxlIsHarmless`).
- The entry to the handler of a non-maskable interrupt does not end a reservation
  (riscv-ovpsim/source/riscvExceptions.c:1144-1163). `ReservationRuns.NmiKeepsReservation` gives a run in which SC
  succeeds there, `ReservationRuns.ScIsSafe` the exact condition.
- Resetting a suspended hart clears its tag but not its watch. SC stays safe (`ReservationRuns.ScIsSafe`) but may fail
  without need: `ReservationRuns.StaleWatchFails` gives a run, `ReservationRuns.StepNoStaleExact` the exact condition.
- A NAPOT address of 62 ones names the whole 64-bit space, not 2^65 bytes (`PmpRegions.NapotRegion`).
- Entries marked global are shared between address spaces. The refinement over several address spaces asks of the
  tables what the G bit means (section 4.3.1 of the Privileged Architecture): a global leaf is the leaf of its
  addresses in every address space. With a single address space nothing is asked (`TlbCoherence.OneSpaceAgrees`).

## Model

| member | source | states |
|---|---|---|
| `PmpRegions.EffectiveAddrMeaning` | riscv-ovpsim/source/riscvVM.c:1989-2009 | the address register read through grain G is rounded down to 2^G for TOR and NA4, and up to the end of its 2^(G-1) block for NAPOT |
| `PmpRegions.Na4Region` | riscv-ovpsim/source/riscvVM.c:2094-2107 | NA4 names exactly the 4 bytes at its effective address |
| `PmpRegions.TorRegion` | riscv-ovpsim/source/riscvVM.c:2119-2126 | an active TOR entry runs from the preceding register to just below its own, both rounded to the grain |
| `PmpRegions.NapotRegion` | riscv-ovpsim/source/riscvVM.c:2109-2117 | an effective address ending in t ones names the aligned block of 2^(t+3) bytes at the remaining bits; all 62 ones name the whole space |
| `PmpRegions.RegionsAreWholeGrains` | riscv-ovpsim/source/riscvVM.c:2094-2131 | every active region is a union of whole 2^(G+2)-byte grains |
| `PmpRegions.RegionsAreAligned` | riscv-ovpsim/source/riscvVM.c:2094-2131 | every active region starts on a multiple of 4 and ends just below one, the fact the strict comparisons of the refinement need |
| `PmpPriority.FirstMatch` | riscv-ovpsim/source/riscvVM.c:2391-2417 | the reference rule: the lowest-numbered entry that contains the address, and none before it does |
| `PmpPriority.FirstMatchUnique` | riscv-ovpsim/source/riscvVM.c:2391-2417 | that property determines the first match |
| `PmpPriority.SupervisorPerm` | riscv-ovpsim/source/riscvVM.c:2362-2374 | Supervisor and User mode get the permission of the first entry that contains the address, locked or not; without one nothing as soon as an entry is implemented |
| `PmpPriority.RefineRange` | riscv-ovpsim/source/riscvVM.c:2338-2386 | one refinement step keeps a range around the address on which first match and permission are those of the address |
| `PmpPriority.RefineAll` | riscv-ovpsim/source/riscvVM.c:2391-2412 | the loop from lowest to highest priority ends with a range on which every address has the first match and permission of the requested one |
| `PmpPriority.BlankingExact` | riscv-ovpsim/source/riscvVM.c:2155-2181 | invalidating a set keeps every coherent map coherent if and only if the set contains each address whose granted permission changes |
| `PmpPriority.BlankingKeepsCoherence` | riscv-ovpsim/source/riscvVM.c:2155-2181 | a map that was coherent stays coherent when the changed addresses are invalidated |
| `PmpPriority.FillMore` | riscv-ovpsim/source/riscvVM.c:2422-2454 | setting one refined range extends the correctly filled part of the request |
| `PmpPriority.DeniedFrom` | riscv-ovpsim/source/riscvVM.c:2411-2416 | a refined range denies an address exactly if its permission lacks the required one |
| `PmpWrites.TableIsAligned` | riscv-ovpsim/source/riscvVM.c:2094-2131 | the region table of valid registers meets the alignment the refinement needs |
| `PmpWrites.MaskAddrValue` | riscv-ovpsim/source/riscvVM.c:2278-2284 | a stored pmpaddr value is the implemented bits of the written one rounded down to half a NAPOT grain |
| `PmpWrites.MaskAddrBound` | riscv-ovpsim/source/riscvVM.c:2278-2284 | a stored pmpaddr value fits 62 bits and is rounded to half a NAPOT grain |
| `PmpWrites.WriteAddrRegs` | riscv-ovpsim/source/riscvVM.c:2273-2310 | a pmpaddr write keeps the register file valid |
| `PmpWrites.AddrReadsBack` | riscv-ovpsim/source/riscvVM.c:2273-2310 | after a pmpaddr write the register holds that value unless it does not exist, is locked or is the base of a locked TOR entry; no other register changes |
| `PmpWrites.WriteCfgRegs` | riscv-ovpsim/source/riscvVM.c:2217-2254 | after a pmpcfg write every byte is the old one if locked and otherwise the selectable form of the written one, and no address register moves |
| `PmpWrites.WriteCfgKeepsValid` | riscv-ovpsim/source/riscvVM.c:2194-2254 | a pmpcfg write keeps unimplemented entries clear and never selects NA4 with a grain above 4 bytes |
| `PmpRegisters.ByteRead` | riscv-ovpsim/source/riscvVM.c:1946-1970 | byte k of a pmpcfg register read in either width is the entry's R, W, X, A and L by their bit weights |
| `PmpRegisters.CfgReadsBack` | riscv-ovpsim/source/riscvVM.c:2189-2259 | every byte of every pmpcfg register, in either width, after a pmpcfg write: 0 without an implemented entry, unchanged in other registers or if locked, otherwise the written byte with reserved bits clear, and with A as before if NA4 cannot be selected |
| `PmpRegisters.RewriteKeeps` | riscv-ovpsim/source/riscvVM.c:2189-2259 | writing back what was read changes no entry |
| `PmpCoherence.CfgWriteCoversSup` | riscv-ovpsim/source/riscvVM.c:2221-2254 | invalidating old and new region of each changed entry covers every Supervisor permission that a pmpcfg write changes |
| `PmpCoherence.ResetCovers` | riscv-ovpsim/source/riscvVM.c:2315-2332 | reset covers every change in both modes, although each entry is invalidated with its predecessor already clear |
| `PmpCoherence.SupInvalidationSuffices` | riscv-ovpsim/source/riscvVM.c:2194-2332 | every register operation invalidates enough for Supervisor mode, unless it is a pmpaddr write that strands an address |
| `PmpCoherence.SupStep` | riscv-ovpsim/source/riscvVM.c:2155-2454 | each operation keeps the cached Supervisor permission of every address withheld or exact |
| `PmpMachine.MachinePerm` | riscv-ovpsim/source/riscvVM.c:2362-2374 | Machine mode is bound by the first locked entry that contains the address, unless an entry before it matches |
| `PmpMachine.LocksSurvive` | riscv-ovpsim/source/riscvVM.c:2136-2254 | outside the invalidated addresses a write leaves the locked entries at an address as they were |
| `PmpMachine.MachWriteExact` | riscv-ovpsim/source/riscvVM.c:2136-2310 | a pmpcfg or pmpaddr write keeps every coherent Machine map coherent if and only if it strands no address: none that is not invalidated, whose first locked entry restricts it and is covered or uncovered by the write |
| `PmpMachine.MachStep` | riscv-ovpsim/source/riscvVM.c:2155-2454 | each operation that strands no address keeps the cached Machine permission of every address withheld or exact |
| `PmpMachine.MachCoherentAlways` | riscv-ovpsim/source/riscvVM.c:2155-2454 | the same in every reachable state, as long as no write strands an address |
| `PmpCoherence.SupCoherentAlways` | riscv-ovpsim/source/riscvVM.c:2155-2454 | in every reachable state the cached Supervisor/User permission of each address is withheld or exactly the first-match permission, as long as no pmpaddr write strands an address |
| `PmpCoherence.NotBelowTor` | riscv-ovpsim/source/riscvVM.c:2298-2305 | a pmpaddr write strands no address if the next entry is not TOR |
| `PmpCoherence.LockSurvives` | riscv-ovpsim/source/riscvVM.c:1981-2049 | one register write leaves a locked entry's byte, address, TOR base and region unchanged |
| `PmpCoherence.LockIsPermanent` | riscv-ovpsim/source/riscvVM.c:2194-2310 | the same over every sequence of register writes without reset |
| `PmpCoherence.ReachableRegionsAreWholeGrains` | riscv-ovpsim/source/riscvVM.c:2225-2284 | in every reachable register file regions are whole grains and NA4 is absent when the grain exceeds 4 bytes |
| `PmpCoherence.AddrWriteExact` | riscv-ovpsim/source/riscvVM.c:2298-2305 | a pmpaddr write keeps every coherent Supervisor map coherent if and only if it strands no address (StaleAt, decidable from the registers) |
| `PmpExamples.TorBaseWriteStrands` | riscv-ovpsim/source/riscvVM.c:2298-2305 | a concrete register file and write that strand address 0: the condition on TOR cannot be dropped |
| `PmpExamples.ClearingShadowOfLockedEntry` | riscv-ovpsim/source/riscvVM.c:2140-2146 | a concrete pmpcfg write that strands a Machine permission: the condition cannot be dropped |
| `PmpUnit.Unit.constructor` | riscv-ovpsim/source/riscvVM.c:1587-1614 | power-up state: clear registers, nothing cached unless no entry is implemented |
| `PmpUnit.Unit.SetPriv` | riscv-ovpsim/source/riscvVM.c:2072-2075 | sets exactly the range in the map of the mode and leaves the other map alone |
| `PmpUnit.Unit.InvalidateEntry` | riscv-ovpsim/source/riscvVM.c:2155-2181 | withholds exactly the entry's region, in Machine mode only if it or a lower-priority entry is locked |
| `PmpUnit.Unit.WriteAddr` | riscv-ovpsim/source/riscvVM.c:2273-2310 | is the WriteAddr step; a register that is not locked takes the implemented bits of the value and no other changes; returns the effective address |
| `PmpUnit.Unit.ValidateEntry` | riscv-ovpsim/source/riscvVM.c:2222-2253 | one turn of the write-then-revert loop: new byte and invalidated addresses |
| `PmpUnit.Unit.WriteCfg` | riscv-ovpsim/source/riscvVM.c:2194-2259 | the loop amounts to the WriteCfg step; every byte is what the written value, locks, grain and implemented entries make of it, and the register read back is returned |
| `PmpUnit.Unit.ResetEntry` | riscv-ovpsim/source/riscvVM.c:2320-2331 | clears one entry after withholding its region |
| `PmpUnit.Unit.Reset` | riscv-ovpsim/source/riscvVM.c:2315-2332 | is the Reset step |
| `PmpUnit.Unit.MapInt` | riscv-ovpsim/source/riscvVM.c:2391-2417 | sets the permission of a range around the address on which the first match is constant, and records a protection failure |
| `PmpUnit.Unit.Map` | riscv-ovpsim/source/riscvVM.c:2422-2454 | terminates with every implemented address of the request set to its first-match permission, and reports a fault exactly if one of them is denied |
| `PageWalk.LeafOfBlock` | riscv-ovpsim/source/riscvVM.c:862-890 | every address in the block of a leaf finds that leaf |
| `PageWalk.ValidVAOfBlock` | riscv-ovpsim/source/riscvVM.c:376-378 | inside one leaf all addresses are canonical or none is |
| `WalkProperties.PathOfLeaf` | riscv-ovpsim/source/riscvVM.c:862-897 | a leaf that the search finds ends a path of pointer entries from the root |
| `WalkProperties.LeafOfPath` | riscv-ovpsim/source/riscvVM.c:862-897 | the search follows any such path to its leaf |
| `WalkProperties.GrantsMeaning` | riscv-ovpsim/source/riscvVM.c:335-371 | the permission check is the access rule of the specification for R, W and X, U, SUM and MXR |
| `WalkProperties.FinishMeaning` | riscv-ovpsim/source/riscvVM.c:903-957 | a leaf is accepted exactly if it is aligned, grants the access and its A and D bits are or can be set; the translation is the leaf's |
| `WalkProperties.WalkIsTranslation` | riscv-ovpsim/source/riscvVM.c:839-962 | given the path of table entries, the walk succeeds exactly if the address is valid and the leaf is aligned, grants the access and can be updated; it delivers the leaf's page number followed by the low address bits and the leaf's permissions for exactly its block, sets A and for a write D of the leaf and changes nothing else |
| `WalkProperties.NoPathNoTranslation` | riscv-ovpsim/source/riscvVM.c:862-897 | without a path the walk faults and writes nothing |
| `WalkProperties.WalkAdvances` | riscv-ovpsim/source/riscvVM.c:732-769 | a walk changes at most its leaf entry, there at most raises A and D, and nothing if it faults |
| `WalkProperties.FindLeafAdvances` | riscv-ovpsim/source/riscvVM.c:672-700 | raising A or D bits anywhere moves no leaf, also in tables that map themselves |
| `WalkProperties.OutcomeIsStable` | riscv-ovpsim/source/riscvVM.c:732-769 | no A or D update changes the outcome of any walk for any mode, access and address |
| `WalkProperties.WalkAgain` | riscv-ovpsim/source/riscvVM.c:732-769 | repeating a successful walk gives the same translation and writes nothing |
| `WalkProperties.BlockWalksAlike` | riscv-ovpsim/source/riscvVM.c:839-962 | addresses in the block of their leaf walk alike for every access in every mode |
| `WalkProperties.TranslationRange` | riscv-ovpsim/source/riscvVM.c:909-911 | a translation covers exactly the block of its leaf |
| `WalkProperties.RangeTranslatesAlike` | riscv-ovpsim/source/riscvVM.c:909-911 | every address in [lowVA, highVA] of a translation has that translation |
| `WalkFaults.ReadFails` | riscv-ovpsim/source/riscvVM.c:862-875 | the search stops at an unreadable entry exactly if a path of pointer entries leads to one |
| `WalkFaults.WalkIsDemanded` | riscv-ovpsim/source/riscvVM.c:839-962 | from the entries on the way alone: which address is reached, that an entry cannot be read, that a needed A or D update is refused |
| `WalkFaults.RaisedException` | riscv-ovpsim/source/riscvVM.c:505-580 | an access that raises has code 5 exactly if an entry on the way cannot be read, 7 exactly if a needed update is refused, and otherwise the page fault of its kind: 12 fetch, 13 load, 15 store |
| `Walkers.FillEntry` | riscv-ovpsim/source/riscvVM.c:708-769 | the code after the search is the last phase of the generic walk, with its bit masks |
| `Walkers.UpdateAD` | riscv-ovpsim/source/riscvVM.c:732-769 | A and D are set as the access demands, or the fault for a missing update is raised |
| `Walkers.ValidExtension` | riscv-ovpsim/source/riscvVM.c:376-378 | the extension bits repeat the top bit of the page number |
| `Walkers.ReadLevel` | riscv-ovpsim/source/riscvVM.c:868-886 | one turn of the table loop stops at the error or leaf of the generic search or goes on to the same search one level down |
| `Walkers.GetSv32VPNi` | riscv-ovpsim/source/riscvVM.c:644-646 | the page number of a level as a slice of the field |
| `Walkers.SearchSv32` | riscv-ovpsim/source/riscvVM.c:671-699 | the Sv32 table loop, with its own levels, shifts and entry size, is the generic search |
| `Walkers.TlbLookupSv32` | riscv-ovpsim/source/riscvVM.c:652-770 | the Sv32 walker is the generic walk |
| `Walkers.GetSv39VPNi` | riscv-ovpsim/source/riscvVM.c:831-833 | the page number of a level as a slice of the field |
| `Walkers.ValidSv39VA` | riscv-ovpsim/source/riscvVM.c:855-858 | Sv39 address validity |
| `Walkers.SearchSv39` | riscv-ovpsim/source/riscvVM.c:863-891 | the Sv39 table loop, with its own levels, shifts and entry size, is the generic search |
| `Walkers.TlbLookupSv39` | riscv-ovpsim/source/riscvVM.c:839-962 | the Sv39 walker is the generic walk |
| `Walkers.GetSv48VPNi` | riscv-ovpsim/source/riscvVM.c:1023-1025 | the page number of a level as a slice of the field |
| `Walkers.ValidSv48VA` | riscv-ovpsim/source/riscvVM.c:1047-1050 | Sv48 address validity |
| `Walkers.SearchSv48` | riscv-ovpsim/source/riscvVM.c:1055-1083 | the Sv48 table loop, with its own levels, shifts and entry size, is the generic search |
| `Walkers.TlbLookupSv48` | riscv-ovpsim/source/riscvVM.c:1031-1154 | the Sv48 walker is the generic walk |
| `Tlb.FreshIsUsable` | riscv-ovpsim/source/riscvVM.c:1917-1922 | the second permission check on a walked entry always passes |
| `TlbCoherence.OneSpaceAgrees` | riscv-ovpsim/source/riscvVM.c:300-302 | with one address space the condition on global mappings holds for all tables |
| `TlbCoherence.EntryLeaf` | riscv-ovpsim/source/riscvVM.c:1770-1784 | every address an entry covers, in every address space it matches, has the entry's leaf |
| `TlbCoherence.WalkOfEntry` | riscv-ovpsim/source/riscvVM.c:1837-1875 | a covered address walks to its entry: a permission fault exactly if the entry denies, otherwise the entry's translation without a write when no dirty bit is missing |
| `TlbCoherence.EntryInvStable` | riscv-ovpsim/source/riscvVM.c:732-769 | A and D updates by any walk keep every cached entry correct |
| `TlbCoherence.FreshEntry` | riscv-ovpsim/source/riscvVM.c:1382-1409 | a successful walk yields an entry that is correct and covers the address |
| `TlbCoherence.FreshDisjoint` | riscv-ovpsim/source/riscvVM.c:1880-1926 | a fresh translation overlaps no cached entry unless that entry already answers for the address |
| `TlbCoherence.AliasInside` | riscv-ovpsim/source/riscvVM.c:2465-2497 | the mapped range lies in the entry, contains the address, keeps the offset and has the entry's size or the simulator's maximum |
| `TlbCoherence.RetagOwns` | riscv-ovpsim/source/riscvVM.c:1218-1236 | aliases that survive a change of the simulated identifier still belong to the retagged entry |
| `TlbCoherence.UsablePriv` | riscv-ovpsim/source/riscvVM.c:1850-1872 | the permission an entry is mapped with covers the access, is granted by the entry and withholds write while the entry is not dirty |
| `TlbCoherence.MapInv` | riscv-ovpsim/source/riscvVM.c:2514-2546 | mapping an entry keeps all invariants of TLB and aliases |
| `TlbTransparency.DeleteInv` | riscv-ovpsim/source/riscvVM.c:1294-1311 | after deleting entries every remaining alias belongs to a remaining entry, whatever identifier changes happened while they were mapped |
| `TlbTransparency.NoEntriesNoAliases` | riscv-ovpsim/source/riscvVM.c:2681-2683 | invalidating everything leaves no alias in any mode |
| `TlbTransparency.DeletedIsUnreachable` | riscv-ovpsim/source/riscvVM.c:1171-1311 | no surviving alias reaches an address of a deleted entry in an address space the entry matches |
| `TlbTransparency.PrivThroughMask` | riscv-ovpsim/source/riscvVM.c:229-245 | permission in User and Supervisor mode depends on MXR and SUM only through the masked simulated identifier |
| `TlbTransparency.LiveAcross` | riscv-ovpsim/source/riscvVM.c:229-245 | an alias stays live through exactly those changes of ASID, MXR and SUM that cannot matter to its entry |
| `TlbTransparency.HitIsWalk` | riscv-ovpsim/source/riscvVM.c:2465-2508 | a live alias grants an access only if a walk would allow it now without a write, and delivers the walk's address |
| `TlbTransparency.ReloadIsWalk` | riscv-ovpsim/source/riscvVM.c:1900-1922 | the walk after a miss has the outcome of a fresh walk and leaves the invariants and an alias for the access |
| `TlbTransparency.EntryHitIsWalk` | riscv-ovpsim/source/riscvVM.c:1837-1875 | a usable cached entry has the outcome of a fresh walk |
| `TlbTransparency.OnlyOneFound` | riscv-ovpsim/source/riscvVM.c:1770-1784 | at most one entry answers for an address |
| `TlbTransparency.MissIsWalk` | riscv-ovpsim/source/riscvVM.c:2514-2546 | a miss has the fault or translation and the memory effect of a fresh walk, and maps the access with the entry's permission less write while the cached D is clear |
| `TlbTransparency.FenceIsExact` | riscv-ovpsim/source/riscvVM.c:1324-1352 | a fence deletes exactly the entries that answer for an address it reaches |
| `TlbTransparency.FenceKeepsAliases` | riscv-ovpsim/source/riscvVM.c:1294-1311 | the aliases left after a fence are exactly those of the entries left |
| `TlbTransparency.FenceIsEffective` | riscv-ovpsim/source/riscvVM.c:1324-1352 | after a fence for all address spaces neither an entry nor an alias answers for an address of its range under any identifier |
| `TlbTransparency.AsidFenceIsEffective` | riscv-ovpsim/source/riscvVM.c:1324-1352 | after a fence for one address space only global entries and their aliases still answer for its range from there, and none if no ASID is implemented |
| `TlbTransparency.FencedChange` | riscv-ovpsim/source/riscvVM.c:1475-1489 | a change of the tables followed by a fence that reaches all of it leaves every cached translation correct for the new tables |
| `TlbTransparency.FullFenceReaches` | riscv-ovpsim/source/riscvVM.c:2681-2683 | the fence of all addresses and address spaces reaches every change |
| `TlbTransparency.OneFenceReaches` | riscv-ovpsim/source/riscvVM.c:2696-2698 | the fence of one address reaches a change of the leaf of that address, whatever the size of its page |
| `TlbTransparency.MissKeepsAlias` | riscv-ovpsim/source/riscvVM.c:2514-2546 | a miss takes no live alias that can serve the same kind of access |
| `TlbTransparency.MissServesMore` | riscv-ovpsim/source/riscvVM.c:2618-2627 | one turn of the loop over pages serves everything up to the end of the mapped range and goes on serving what was served |
| `TlbTransparency.ServedTranslates` | riscv-ovpsim/source/riscvVM.c:2618-2627 | an address served after table updates could be translated before them |
| `TlbRuns.StepRefines` | riscv-ovpsim/source/riscvVM.c:2514-2546 | each access, status change, address space switch, fence or fenced table change is a step of a processor that walks at every access |
| `TlbRuns.RunInv` | riscv-ovpsim/source/riscvVM.c:1770-1926 | in every reachable state entries are walks of the tables, no two overlap, and every alias is backed by one |
| `TlbRuns.RunRefines` | riscv-ovpsim/source/riscvVM.c:2514-2546 | every step of every run has the exceptions, physical addresses and table updates of the processor without caches |
| `TlbRuns.EveryAccessMeans` | riscv-ovpsim/source/riscvVM.c:2514-2546 | every access of every run reaches the leaf's address or raises 5, 7 or the page fault of its kind exactly as the table entries on its way demand, whatever is cached |
| `TableChanges.OutdatedIsOwed` | riscv-ovpsim/source/riscvVM.c:1475-1489 | an entry outdated by a table change answers only for addresses the due fence reaches |
| `TableChanges.MissLarger` | riscv-ovpsim/source/riscvVM.c:2514-2546 | a miss that finds a current entry or none does the same with and without outdated entries in the TLB |
| `TableChanges.StepInv` | riscv-ovpsim/source/riscvVM.c:1475-1489 | accesses, status changes, address space switches, table changes without a fence and fences of any reach keep: entries are walks of the tables, or outdated by a change whose fence will delete them |
| `TableChanges.NothingDue` | riscv-ovpsim/source/riscvVM.c:1475-1489 | when no fence is due every cached entry and alias is right again |
| `TableChanges.EveryAccessMeans` | riscv-ovpsim/source/riscvVM.c:2514-2546 | over every run in which table changes, accesses and later fences interleave, every access that depends on no change still to be fenced does what the tables of the moment demand |
| `MmuUnit.Mmu.constructor` | riscv-ovpsim/source/riscvVM.c:1751-1754 | an empty TLB |
| `MmuUnit.Mmu.FindTLBEntry` | riscv-ovpsim/source/riscvVM.c:1770-1784 | returns an entry that covers the address and matches the ASID, or none if there is none |
| `MmuUnit.Mmu.DeleteMappingsMode` | riscv-ovpsim/source/riscvVM.c:1171-1199 | removes the entry's aliases in one mode and clears its mapped bit |
| `MmuUnit.Mmu.UnmapTLBEntry` | riscv-ovpsim/source/riscvVM.c:1204-1212 | removes the entry's aliases in every mode |
| `MmuUnit.Mmu.DeleteTLBEntry` | riscv-ovpsim/source/riscvVM.c:1294-1311 | removes the entry and its aliases |
| `MmuUnit.Mmu.Invalidate` | riscv-ovpsim/source/riscvVM.c:1475-1489 | deletes exactly the entries that overlap the range and match, sparing global ones for a fence with an ASID |
| `MmuUnit.Mmu.InvalidateAll` | riscv-ovpsim/source/riscvVM.c:2681-2683 | nothing is left, entry or alias |
| `MmuUnit.Mmu.InvalidateAllASID` | riscv-ovpsim/source/riscvVM.c:2688-2691 | exactly global entries and those of other address spaces stay, none without ASIDs; the invariants are kept |
| `MmuUnit.Mmu.InvalidateVA` | riscv-ovpsim/source/riscvVM.c:2696-2698 | exactly the entries that do not cover the address stay, and no alias reaches it |
| `MmuUnit.Mmu.InvalidateVAASID` | riscv-ovpsim/source/riscvVM.c:2703-2706 | exactly the entries that do not cover the address, are global or of another address space stay |
| `MmuUnit.Mmu.UnmapNewASID` | riscv-ovpsim/source/riscvVM.c:1218-1236 | removes the aliases in exactly the modes whose masked identifier changes |
| `MmuUnit.Mmu.MapTLBEntry` | riscv-ovpsim/source/riscvVM.c:2465-2508 | adds the alias for the accessed address and marks the mode mapped |
| `MmuUnit.Mmu.ValidateTLBEntryPriv` | riscv-ovpsim/source/riscvVM.c:1837-1875 | keeps, rejects or deletes the entry as Validate says |
| `MmuUnit.Mmu.TlbLookup` | riscv-ovpsim/source/riscvVM.c:1797-1818 | dispatches to the walker of the scheme |
| `MmuUnit.Mmu.Remap` | riscv-ovpsim/source/riscvVM.c:2533-2542 | retags and maps an entry |
| `MmuUnit.Mmu.Create` | riscv-ovpsim/source/riscvVM.c:1900-1922 | walks, allocates and maps, or reports the fault |
| `MmuUnit.Mmu.TlbMiss` | riscv-ovpsim/source/riscvVM.c:2514-2546 | is Miss for an entry that findTLBEntry may return |
| `MmuUnit.Mmu.VMMiss` | riscv-ovpsim/source/riscvVM.c:2612-2627 | an access of any length succeeds exactly if every byte translates in the tables at the start, then every byte is served by an alias; otherwise the fault is that of one of its bytes |
| `ProtectedAccess.CheckIsFirstMatch` | riscv-ovpsim/source/riscvVM.c:2422-2454 | the protection map, whatever it has cached, allows an access to implemented memory exactly if the first-match rule does |
| `ProtectedAccess.UseIsDemanded` | riscv-ovpsim/source/riscvVM.c:2465-2508 | an access through TLB, aliases and protection map has the outcome that walk and first-match rule demand |
| `ProtectedAccess.EveryAccessIsDemanded` | riscv-ovpsim/source/riscvVM.c:2465-2508 | the same over every run of accesses, status changes, fences, table changes and protection writes that strand no address: page fault, denial or the physical address |
| `ProtectedAccess.EveryAccessMeans` | riscv-ovpsim/source/riscvVM.c:2465-2508 | over every such run an access reaches the leaf's address if the first-match rule allows it, is denied if not, or raises 5, 7 or the page fault of its kind, by the table entries on its way and the protection registers alone |
| `HartRuns.EnabledMeaning` | riscv-ovpsim/source/riscvExceptions.c:750-781 | an interrupt is pending and enabled exactly if pending and its delegated mode is above the current one, or is the current one with its enable bit set |
| `HartRuns.TakenToDelegated` | riscv-ovpsim/source/riscvExceptions.c:192-219 | an interrupt that can be taken goes exactly to its delegated mode: the clamp never decides |
| `HartRuns.TrapNeverAdds` | riscv-ovpsim/source/riscvExceptions.c:335-409 | what is still enabled after a trap was enabled before and targets a strictly higher mode |
| `HartRuns.SavedPC` | riscv-ovpsim/source/riscvCSR.c:2083-2087 | the saved program counter is the interrupted one rounded down to an instruction boundary |
| `HartRuns.DelegatedImplemented` | riscv-ovpsim/source/riscvCSR.c:2156-2172 | delegation leads only to implemented modes |
| `HartRuns.ReturnModeImplemented` | riscv-ovpsim/source/riscvExceptions.c:461-463 | a return goes to an implemented mode |
| `HartRuns.StepMode` | riscv-ovpsim/source/riscvExceptions.c:335-560 | the current mode is implemented after every step |
| `HartRuns.StepWake` | riscv-ovpsim/source/riscvExceptions.c:1021-1113 | every step keeps: mip is lines or software bits, a hart waiting for an interrupt has none enabled and pending, it stands still exactly for a reason |
| `HartRuns.WakesUp` | riscv-ovpsim/source/riscvExceptions.c:1101-1105 | a hart that only waits runs again as soon as any step makes an enabled interrupt pending |
| `HartRuns.StatusReadsBack` | riscv-ovpsim/source/riscvCSR.c:279-297 | a fully writable status write reads back, and writing back what was read changes nothing |
| `HartRuns.StatusAliasIsConfined` | riscv-ovpsim/source/riscvCSR.c:349-381 | an alias without the Machine fields changes neither them nor the data domain |
| `HartRuns.AddedIsRequested` | riscv-ovpsim/source/riscvExceptions.c:1057-1113 | every step that enables an interrupt ends with a request to handle it |
| `HartRuns.StepRequest` | riscv-ovpsim/source/riscvExceptions.c:1057-1113 | no step leaves an interrupt that can be taken without a request |
| `HartRuns.StepDerived` | riscv-ovpsim/source/riscvUtils.c:46-239 | every step but a harmful misa write keeps architecture, dictionary mode, data domain and simulated ASID equal to the functions of the registers that define them |
| `HartRuns.MisaWriteExact` | riscv-ovpsim/source/riscvCSR.c:107-110 | a misa write keeps the derived state right if and only if MXL does not switch the register view or both views of satp and MXL agree wherever it matters |
| `HartRuns.FixedMxlIsHarmless` | riscv-ovpsim/source/riscvCSR.c:64-110 | with MXL read-only every misa write is harmless |
| `HartRuns.MxlWriteStrands` | riscv-ovpsim/source/riscvCSR.c:107-110 | a 64-bit hart in Machine mode with MPRV, MPP Supervisor and Sv39 that writes MXL 1 reads satp as bare while its data domain is still translated |
| `HartRuns.MisaTiesDF` | riscv-ovpsim/source/riscvCSR.c:64-114 | writing misa makes a read-only D or F follow the writable one and can make D need F |
| `HartRuns.AlwaysInv` | riscv-ovpsim/source/riscvExceptions.c:335-1254 | all of these in every state of every run without a harmful misa write |
| `HartRuns.SleepsExactly` | riscv-ovpsim/source/riscvExceptions.c:1021-1113 | over every run, a hart that waits stands still at a later moment exactly if no enabled interrupt has been pending at any moment since: no wakeup is lost and none comes for nothing |
| `HartRuns.TranslationHasScheme` | riscv-ovpsim/source/riscvVM.c:1797-1818 | over such runs, wherever addresses are translated satp reads Sv32, Sv39 or Sv48, so the abort is not reached |
| `HartMeaning.ModeChanges` | riscv-ovpsim/source/riscvExceptions.c:192-560 | a return never raises the mode, a trap never lowers it, a non-maskable interrupt leads to Machine mode and nothing else changes it |
| `HartMeaning.PrivilegeRises` | riscv-ovpsim/source/riscvExceptions.c:192-560 | over every run privilege rises only by an exception, a pending and enabled interrupt or a non-maskable interrupt |
| `HartMeaning.TrapMeaning` | riscv-ovpsim/source/riscvExceptions.c:335-409 | a trap leaves cause, value, return address, previous mode and interrupt enable in the registers of its mode, continues at its vector, for vectored interrupts at the entry of the cause, and touches no other trap register |
| `HartMeaning.ExceptionGoesTo` | riscv-ovpsim/source/riscvExceptions.c:192-227 | an exception goes to Machine mode unless in medeleg, then to Supervisor mode from there or below unless in sedeleg, otherwise it stays; mideleg and sideleg do not matter |
| `HartMeaning.InterruptGoesTo` | riscv-ovpsim/source/riscvExceptions.c:192-219 | an interrupt that is taken goes to Machine mode unless in mideleg, then to Supervisor mode unless in sideleg, then to User mode |
| `HartMeaning.ReturnMeaning` | riscv-ovpsim/source/riscvExceptions.c:456-560 | a return goes to the saved address and the saved mode, or the least privileged one if that is not implemented, pops the interrupt enable stack, leaves the least mode as previous mode and touches no other trap register |
| `HartMeaning.NmiEnters` | riscv-ovpsim/source/riscvExceptions.c:1144-1163 | the end of a non-maskable interrupt records cause 0 and the interrupted address, enters Machine mode with all enables as they were and runs the hart |
| `HartMeaning.StatusFieldwise` | riscv-ovpsim/source/riscvCSR.c:279-297 | a status write through any mask stores exactly the fields of the mask, MPP only if it names an implemented mode |
| `HartMeaning.DelegationStores` | riscv-ovpsim/source/riscvCSR.c:1314-1333 | writes of medeleg and sedeleg change exactly their writable bits |
| `HartMeaning.SatpReadsBack` | riscv-ovpsim/source/riscvCSR.c:1026-1072 | with a supported mode MODE, ASID and PPN read back at their bit positions of the view in force, the last two cut to the implemented width, and a 32-bit write leaves the upper half; otherwise satp is unchanged |
| `HartMeaning.MisaStores` | riscv-ovpsim/source/riscvCSR.c:64-114 | a misa write stores the writable extensions |
| `HartMeaning.MxlStores` | riscv-ovpsim/source/riscvCSR.c:64-114 | a misa write stores the writable bits of MXL in the view in force only |
| `HartMeaning.DerivedMeaning` | riscv-ovpsim/source/riscvVM.c:2711-2759 | translation of fetches and of data, the mode of data accesses under MPRV and MPP, the simulated ASID and the extensions in force are what satp, mstatus and misa say at their bit positions |
| `HartMeaning.AlwaysDerived` | riscv-ovpsim/source/riscvUtils.c:46-239 | the same in every state of every run without a harmful misa write |
| `TrapNesting.Climbing` | riscv-ovpsim/source/riscvExceptions.c:750-802 | each interrupt taken right after another goes to a higher mode |
| `TrapNesting.AtMostThree` | riscv-ovpsim/source/riscvExceptions.c:787-842 | at most three interrupts are taken back to back |
| `TrapNesting.ThreeOccur` | riscv-ovpsim/source/riscvExceptions.c:787-842 | three back to back do occur |
| `TrapNesting.NoTruncation` | riscv-ovpsim/source/riscvExceptions.c:251-396 | the previous-mode field holds every mode a trap can come from; one bit suffices for Supervisor |
| `TrapNesting.ReturnIsLegal` | riscv-ovpsim/source/riscvExceptions.c:468-560 | the return that matches a trap is legal in the mode it enters |
| `TrapNesting.ReturnUndoes` | riscv-ovpsim/source/riscvExceptions.c:251-560 | a return undoes its trap if the handler left the registers of its mode and below as it found them |
| `TrapNesting.BodyIsUndisturbed` | riscv-ovpsim/source/riscvExceptions.c:335-560 | code interrupted by any sequence and nesting of traps to higher modes, each handled and returned from, finds its mode, all enable bits and the trap registers of its mode and below unchanged |
| `TrapNesting.VisitRestores` | riscv-ovpsim/source/riscvExceptions.c:335-560 | a trap, a handler that may be interrupted by any chain or tree of traps to higher modes, and the matching return restore mode, program counter and all interrupt enable bits, and leave the registers of lower modes alone |
| `TrapNesting.CauseSurvives` | riscv-ovpsim/source/riscvExceptions.c:251-409 | whatever interrupts it, a handler finds the cause, value and return address of its own trap until it returns |
| `HartUnit.HighestBit` | riscv-ovpsim/source/riscvExceptions.c:787-802 | the shift loop finds the highest-numbered interrupt |
| `HartUnit.Unit.constructor` | riscv-ovpsim/source/riscvMain.c:358-365 | a hart at start-up satisfies all invariants |
| `HartUnit.Unit.SetCurrentMode` | riscv-ovpsim/source/riscvUtils.c:219-239 | makes all derived state right again, whatever mode and registers it came from, if architecture, ASID and satp are |
| `HartUnit.Unit.HaltProcessor` | riscv-ovpsim/source/riscvExceptions.c:1021-1028 | the hart stands still from then on, and still exactly for a reason |
| `HartUnit.Unit.RestartProcessor` | riscv-ovpsim/source/riscvExceptions.c:1033-1042 | the hart runs again exactly if no other reason is left |
| `HartUnit.Unit.CheckInterrupts` | riscv-ovpsim/source/riscvExceptions.c:1057-1113 | whatever changed before, afterwards no hart waits with an interrupt pending, a waiting one runs, and no interrupt that can be taken is without a request |
| `HartUnit.Unit.ComposePending` | riscv-ovpsim/source/riscvExceptions.c:1174-1186 | after a change of a source mip is their union again and neither a wakeup nor a request is missed |
| `HartUnit.Unit.Wfi` | riscv-ovpsim/source/riscvExceptions.c:1047-1052 | keeps all invariants; the hart does not stand still over a pending interrupt |
| `HartUnit.Unit.InterruptPort` | riscv-ovpsim/source/riscvExceptions.c:1237-1254 | keeps all invariants; the line shows in mip alone, a hart that waits for it runs, and if it can be taken it is requested |
| `HartUnit.Unit.NmiPort` | riscv-ovpsim/source/riscvExceptions.c:1144-1232 | keeps all invariants; the rising edge stops the hart, the falling edge runs even a waiting one in Machine mode with cause 0 and the interrupted address recorded, and neither enables an interrupt |
| `HartUnit.Unit.Exception` | riscv-ovpsim/source/riscvExceptions.c:335-409 | keeps all invariants; goes where medeleg and sedeleg say, leaves the registers TrapMeaning describes and enabled only earlier interrupts for higher modes |
| `HartUnit.Unit.DoInterrupt` | riscv-ovpsim/source/riscvExceptions.c:787-802 | keeps all invariants; takes the highest-numbered interrupt to the mode mideleg and sideleg give, with the registers TrapMeaning describes, and leaves enabled only those for higher modes |
| `HartUnit.Unit.FetchExcept` | riscv-ovpsim/source/riscvExceptions.c:808-842 | takes an interrupt exactly if one is pending and enabled, with the same guarantees |
| `HartUnit.Unit.MRet` | riscv-ovpsim/source/riscvExceptions.c:468-497 | keeps all invariants, has the effect ReturnMeaning describes for Machine mode and never raises the mode |
| `HartUnit.Unit.SRet` | riscv-ovpsim/source/riscvExceptions.c:502-531 | keeps all invariants, has the effect ReturnMeaning describes for Supervisor mode and never raises the mode |
| `HartUnit.Unit.URet` | riscv-ovpsim/source/riscvExceptions.c:536-560 | keeps all invariants, has the effect ReturnMeaning describes for User mode and never raises the mode |
| `HartUnit.Unit.StatusW` | riscv-ovpsim/source/riscvCSR.c:279-312 | keeps all invariants, derived state included; stores exactly the fields of any mask, MPP only if implemented; without a rising enable bit nothing becomes enabled |
| `HartUnit.Unit.IpW` | riscv-ovpsim/source/riscvCSR.c:421-443 | keeps all invariants; exactly the writable bits of the alias change |
| `HartUnit.Unit.IeW` | riscv-ovpsim/source/riscvCSR.c:518-536 | keeps all invariants; exactly the writable bits of the alias change |
| `HartUnit.Unit.MidelegW` | riscv-ovpsim/source/riscvCSR.c:576-594 | keeps all invariants; exactly the writable bits change |
| `HartUnit.Unit.SidelegW` | riscv-ovpsim/source/riscvCSR.c:599-617 | keeps all invariants; exactly the writable bits change |
| `HartUnit.Unit.SatpW` | riscv-ovpsim/source/riscvCSR.c:1026-1072 | keeps all invariants; a supported write reads back at its bit positions and refreshes mode, domain and ASID, an unsupported one is reverted |
| `HartUnit.Unit.MisaW` | riscv-ovpsim/source/riscvCSR.c:64-114 | keeps all invariants if and only if the write is harmless |
| `Reservation.HeldAfter` | riscv-ovpsim/source/riscvMorph.c:1437-1487 | an event keeps a reservation exactly if it does not end it |
| `Reservation.GranuleIsBlock` | riscv-ovpsim/source/riscvMorph.c:1348-1355 | granules are the aligned blocks of the grain: addresses share one exactly if they agree above it |
| `Reservation.OverlapsMeaning` | riscv-ovpsim/source/riscvUtils.c:450-470 | a store triggers a watch exactly if they have a byte in common |
| `Reservation.ReservedIsHeld` | riscv-ovpsim/source/riscvExceptions.c:1144-1163 | what the code holds and what the architecture reserves differ exactly by non-maskable interrupts since the LR |
| `ReservationRuns.StepWatched` | riscv-ovpsim/source/riscvUtils.c:459-503 | every suspended hart with a live tag keeps a watch on its granule |
| `ReservationRuns.StoreSpares` | riscv-ovpsim/source/riscvUtils.c:450-486 | a store that leaves a suspended hart's tag alone misses its granule |
| `ReservationRuns.StepSafe` | riscv-ovpsim/source/riscvMorph.c:1348-1487 | every event, non-maskable interrupts included, keeps each live tag a reservation that nothing else has ended |
| `ReservationRuns.StepNoStaleExact` | riscv-ovpsim/source/riscvCSR.c:1926-1927 | a watch without a live tag of a suspended hart arises exactly from the reset of a suspended hart with a live tag |
| `ReservationRuns.StoreTakes` | riscv-ovpsim/source/riscvUtils.c:450-486 | a store takes a tag only from another hart whose granule it overlaps |
| `ReservationRuns.StepComplete` | riscv-ovpsim/source/riscvMorph.c:1348-1487 | every event keeps each reservation a live tag |
| `ReservationRuns.AlwaysSafe` | riscv-ovpsim/source/riscvMorph.c:1348-1487 | both safety invariants in every state of every interleaving |
| `ReservationRuns.ScIsSafe` | riscv-ovpsim/source/riscvMorph.c:1375-1487 | a succeeding SC: the hart's latest LR was on the same granule and since then it took no trap but perhaps a non-maskable interrupt, no return, reset or SC, and no other hart wrote to the granule; so the reservation stands if and only if there was no non-maskable interrupt since the LR |
| `ReservationRuns.AlwaysExact` | riscv-ovpsim/source/riscvMorph.c:1348-1487 | unless a suspended hart with a live tag is reset, tags are exactly the reservations held |
| `ReservationRuns.ScIsExact` | riscv-ovpsim/source/riscvMorph.c:1375-1487 | then SC succeeds exactly when nothing but perhaps a non-maskable interrupt has ended the reservation, and without one since the LR exactly when it stands |
| `ReservationRuns.ResetLeavesStale` | riscv-ovpsim/source/riscvCSR.c:1926-1927 | a reset of a suspended hart with a live tag leaves its watch behind |
| `ReservationRuns.StaleWatchTakes` | riscv-ovpsim/source/riscvUtils.c:450-486 | a store to such a watch takes a reservation it does not end |
| `ReservationRuns.StaleWatchFails` | riscv-ovpsim/source/riscvUtils.c:450-486 | a concrete run with such a reset after which SC fails although the reservation stands |
| `ReservationRuns.NmiKeepsReservation` | riscv-ovpsim/source/riscvExceptions.c:1144-1163 | a concrete run in which SC succeeds in the handler of a non-maskable interrupt taken since the LR |
| `MonitorUnit.Monitor.constructor` | riscv-ovpsim/source/riscvCSR.c:1926-1927 | no tag is live and no watch installed |
| `MonitorUnit.Monitor.AbortExclusiveAccess` | riscv-ovpsim/source/riscvUtils.c:476-486 | the hart loses tag and watch, and no other suspended hart loses its protection |
| `MonitorUnit.Monitor.ContextSwitch` | riscv-ovpsim/source/riscvUtils.c:501-503 | keeps every live tag a reservation and every suspended one watched; the hart that stops is watched from then on, the one that starts is not |
| `MonitorUnit.Monitor.GenerateEATag` | riscv-ovpsim/source/riscvMorph.c:1348-1355 | the tag is the granule of the address |
| `MonitorUnit.Monitor.LoadReserved` | riscv-ovpsim/source/riscvMorph.c:1437-1457 | sets the running hart's tag and keeps both invariants |
| `MonitorUnit.Monitor.DoStore` | riscv-ovpsim/source/riscvUtils.c:450-454 | keeps both invariants; afterwards no other hart holds a tag on a granule the store touched |
| `MonitorUnit.Monitor.DoStoreConditional` | riscv-ovpsim/source/riscvMorph.c:1462-1487 | rd is 0 only if nothing but perhaps a non-maskable interrupt has ended the reservation; the tag ends either way and both invariants are kept |
| `MonitorUnit.Monitor.TrapOrReturnEntry` | riscv-ovpsim/source/riscvExceptions.c:362-363 | a trap or return ends the reservation and keeps both invariants |
| `Rounding.StepSound` | riscv-ovpsim/source/riscvMorph.c:2396-2542 | both caches stay sound through operations of every kind, also those without a rounding mode, frm writes and block starts |
| `Rounding.HostRoundsAsAsked` | riscv-ovpsim/source/riscvMorph.c:2509-2542 | an operation goes on exactly if its mode is legal, and the host then rounds as asked unless ties go away from zero |
| `Rounding.AlwaysSound` | riscv-ovpsim/source/riscvMorph.c:3134-3152 | the caches are sound in every state of every run |
| `Rounding.EveryOperationRounds` | riscv-ovpsim/source/riscvMorph.c:2396-2542 | for every sequence of operations and frm writes, however split into blocks, each operation that rounds has the rounding it asks for and exactly the illegal ones trap |
| `Rounding.Unit.constructor` | riscv-ovpsim/source/riscvMorph.c:3134-3152 | sound: no mode is known at start |
| `Rounding.Unit.RefreshFPCW` | riscv-ovpsim/source/riscvMorph.c:2417-2459 | the host rounds as asked and the run-time cache says so, or an invalid frm traps and leaves both as they were |
| `Rounding.Unit.EmitSetRM` | riscv-ovpsim/source/riscvMorph.c:2509-2542 | keeps the caches sound; whatever they skip, the operation rounds as it asks or has trapped exactly because its mode is illegal |
| `Rounding.Unit.FrmW` | riscv-ovpsim/source/riscvCSR.c:175-240 | keeps the caches sound; none speaks of the old frm afterwards |
| `Rounding.Unit.BeginBlock` | riscv-ovpsim/source/riscvMorph.c:3134-3152 | keeps the caches sound wherever a block starts |
| `NanBox.ReadsAgree` | riscv-ovpsim/source/riscvMorph.c:1951-1982 | with the mask sound, a read without test is the checked read |
| `NanBox.WriteKeepsBoxed` | riscv-ovpsim/source/riscvMorph.c:644-679 | every write keeps: registers in the mask have an all-ones upper half |
| `NanBox.ElisionPreserves` | riscv-ovpsim/source/riscvMorph.c:644-679 | along any straight-line block leaving out tests gives the registers that testing every operand gives |
| `NanBox.BlockPreserves` | riscv-ovpsim/source/riscvMorph.c:3143-3144 | in particular from the empty mask a block starts with |
| `NanBox.Unit.constructor` | riscv-ovpsim/source/riscvMorph.c:3143-3144 | no register is known to be boxed |
| `NanBox.Unit.ReadOperand` | riscv-ovpsim/source/riscvMorph.c:1951-1982 | the operand is the one the boxing rule demands although the test may be left out |
| `NanBox.Unit.WriteRegSize` | riscv-ovpsim/source/riscvMorph.c:644-679 | keeps the mask sound; the result reads back by the rule, a boxed one has an all-ones upper half, and no other register changes |
| `NanBox.Unit.RunBlock` | riscv-ovpsim/source/riscvMorph.c:644-679 | a translated block leaves the registers that the boxing rule demands |
| `Mulhsu.NegateHigh` | riscv-ovpsim/source/riscvMorph.c:853-865 | the upper half of the negated double word, with the carry from a zero low half |
| `Mulhsu.NegateWide` | riscv-ovpsim/source/riscvMorph.c:870-876 | the same by one negation of the double-width register |
| `Mulhsu.MulHalves` | riscv-ovpsim/source/riscvMorph.c:922-923 | the unsigned product in two halves |
| `Mulhsu.EmitMulhsu` | riscv-ovpsim/source/riscvMorph.c:894-933 | for every width and all operands the result is floor(signed(rs1) * rs2 / 2^w) mod 2^w |

## Left out

- The simulator library: `vmirtProtectMemory` is an update of an address-to-permission map, the range table a set of
  entries, `vmirtAliasMemoryVM` the addition of an alias that is live while the masked identifiers agree, a request for
  synchronous interrupt handling a flag. That such a request stands until a fetch finds no interrupt to take is an
  assumption about the library, on which the claim that no interrupt is lost rests.
- TLB entries and LR/SC tags are values in a set and a sequence that the methods reassign, not objects of their own.
- Split code and data domains for protection, artifact and debugger accesses, save and restore, the CSR bus.
- The search for the domain in riscvVMMiss, and accesses to physical addresses that are not implemented.
- Page table reads through the protection unit: the readable and the writable table entries are fixed sets.
- Accesses, between a change of the tables and its fence, to the addresses whose leaf has changed; the architecture
  lets them use the old or the new translation.
- The cut of a fence's ASID operand to the implemented width (maskASID), and the checks of tvecW on a new vector mode.
- Sv32 virtual addresses are 32 bits wide; wider numbers are rejected by the model, not truncated.
- Reset of a hart's registers (riscvReset) is not part of the trap runs, because it changes mstatus without refreshing
  the data domain; reset of the protection unit and of the reservation is modelled.
- Registers other than misa and satp have one view: after a write of MXL that switches the register width nothing is
  claimed of the values read from the trap registers.
- Interrupt numbers of 32 and above, delay slots, and configurations with user interrupts but no User mode.
- mstatus.FS dirty tracking, TVM, TW and TSR traps, performance counters.
- LR and SC at addresses that are not multiples of 4, which the aligned access refuses, and grains that are not powers
  of two; all harts share one address space in the reservation model.
- The width of a reservation tag: on 32-bit harts the code writes 32 of its 64 bits, so that the watched range has the
  upper half of the no-tag value; the model writes whole tags.
- Soft-float emulation and rounding ties away from zero.
- Instruction decode, disassembly, parameters, register views, documentation and the test suites.
- PmpMachine.MachCoherentAlways: only runs whose writes strand no Machine permission; MachWriteExact shows that the others break coherence.
- PmpCoherence.SupCoherentAlways: only runs whose pmpaddr writes strand no address; AddrWriteExact shows that the others break coherence.
- HartRuns.AlwaysInv: only runs without a harmful write of misa; MisaWriteExact shows that the others break it.
- Rounding.HostRoundsAsAsked: says nothing of the host control when ties round away or for operations without a rounding mode.
