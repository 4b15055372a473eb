# Kernel extension proofs

A Dafny model of the stateful parts of this repository for Atari System V on the
TT030: the loadable-module core, its ELF loader, symbol blocks and boot packing,
the character-driver linkage, the NE2000 receive ring, the USB device tree, the
DMA sound ring, the timed MIDI stream, byte access over a USB disk, the UFS block
map, and the X server's IKBD parser.  `dafny verify dfyconfig.toml` checks all of
it.

| module | models |
|---|---|
| `CandList`, `ModRecords`, `LoadSpec`, `Lifecycle` | `dlm/upstream/dlm_core.c`: the candidate list, the module records and what is kept about them, loading, failing, unwinding, unloading; `LoadSpec` is the pure function of names and files that a load is proved equal to |
| `LdLayout`, `LdSyms`, `LdReloc`, `LdTable` | `dlm/upstream/dlm_ld.c`: section layout, symbol resolution, section contents and relocation, and what the module's table exports |
| `SymBlock` | `dlm/upstream/dlm_sym.c` and the table builder of `dlm_ld.c` |
| `BootTable`, `BootPile`, `BootPack` | `dlm/upstream/dlm_boot.c`: in-place packing of the boot modules; what the table alone decides, the order and the places, and the bytes |
| `DevSlot` | `dlm/upstream/dlm_slot.c`: the character-driver linkage |
| `NuRing` | `driver-nu/nuchip.c`: the receive ring, with the chip as a concurrent producer |
| `UsbTree` | `driver-ub/usb.c`, `hub.c` and the class drivers' tables |
| `SndRing`, `MidiStream` | `driver-snd/snd.c`, `driver-midi/midi.c` |
| `UbXfer`, `Ufs`, `Ikbd` | `amix/mtools/ub_io.c`, `tools/ufs.py`, `xserver/atwIo.c` |
| `Claims` | writers that share an open file and claim room in a ring |
| `Basics`, `Bytes`, `RingMath` | shared types, big-endian fields, and positions round a ring |

What the outside world answers (files, entry points of modules, the USB wire,
block transfers, the play position, reads of any size) is a script the methods
take as an argument, and the theorems hold for every script.  Code that runs with
interrupts masked is one step; between two steps anything a script allows may
happen.

Some promises of the source fail on some inputs.  Each has its failing input and
its exact condition, proved:

* Loading: a load that fails after its load entry calls the module's unload entry.
  When that call is interrupted, the record stays, loading, its dependencies stay
  counted, and an abort stops there (`StuckLoad`).  After `modload` nothing is
  left behind if and only if the function on names says no undoing was cut short
  (`Modload`), and only a file with its load entry done, a linkage that does not
  install and an interrupted unload entry can do that (`JamHasFile`).
* Boot packing: a module that reaches past the last aligned address of the range,
  with an empty module listed before it at its start, is buried: the empty one
  goes first and it no longer fits below.  The next module moved is copied over
  it.  What the table allows is a condition on the table (`Trampled`): if it does
  not hold, all bytes are kept, and if it does, the buried module alone has the
  bytes of the first one copied over it (`Pack`, `UnalignedEnd`, `ThirdOver`).
  Without `copy` a module inside the range is placed if and only if it is neither
  buried nor an empty one that the modules going before it leave no word for
  (`Stays`, `EmptyStays`, `EmptyLeft`), which the table decides as well.
* Character drivers: a device opened again while its own close is in the driver
  ends up open with nothing to hold its module, which can then be unloaded
  (`OpenedAmidClose`); `OpenHolds` says exactly which open keys hold theirs.  A
  layered close that no layered open came before takes somebody else's hold
  (`UnpairedClose`); the holds add up if and only if there is none (`CloseEnd`).
  A key beyond the 32 the table holds keeps its hold for good, as the source says.
* Sound and MIDI: the test for room and the copy are two steps.  Processes that
  share the open file can both find room and overfill the ring (`TwoWriters`); it
  survives their copies if and only if there is room for all of them together
  (`PutAll`), and with one writer at a time it always does (`Writers`, `Write`).
  A sound block played again adds silence to wait out; the ring stays consistent
  if and only if that leaves it its two spare bytes (`Tick`).
* Byte access over a USB disk: block numbers are 32 bits, so a position of 2 TB or
  more wraps; `FlatIff` says exactly when the access is still the flat one.  A
  transfer that fails may have moved blocks that are not reported (`HalfRead`);
  `MovedIsReported` says exactly when the two agree.
* Symbol blocks: in a space of 1.7 GB or more the end of the hash can wrap below
  the size and pass its test (`WrapsPast`); `HeadCheck` accepts exactly the sound
  headers and those, and `BlkCheck` says what is then read past the space.
* Receive ring: on a chip that leaves out the CRC, frames before the first short
  one lose four bytes (`CloneRun`); the queue law is for chips that store it.

## Model

| member | source | states |
|---|---|---|
| CandList.LinkedAt | dlm/upstream/dlm_core.c:147-179 | two sequences that one set of links spells agree position by position from the head on |
| CandList.LinkedUnique | dlm/upstream/dlm_core.c:147-179 | the links, the head and the tail determine the sequence of candidates: there is one reading of the list |
| CandList.UnlinkKeeps | dlm/upstream/dlm_core.c:163-179 | taking out the record at any position, first, last or in the middle, leaves a well-formed doubly linked list of the others in their order |
| CandList.List.CandAdd | dlm/upstream/dlm_core.c:147-161 | the record is appended at the tail, or nothing changes when it is a candidate already; every other record keeps its membership and order |
| CandList.List.CandDel | dlm/upstream/dlm_core.c:163-179 | the record leaves the list, or nothing changes when it is no candidate; the order of the others is kept |
| ModRecords.NamingWithout | dlm/upstream/dlm_core.c:394-422 | the entries naming a record, counted over all records, are those of the others plus those of the one taken out |
| ModRecords.OwingStep | dlm/upstream/dlm_core.c:207-212 | giving one entry back lowers exactly the count of the record it names, and that count was positive |
| ModRecords.FreedListed | dlm/upstream/dlm_core.c:394-422 | once all its entries are given back, the remaining records are listed once each and each count is again the number of entries naming the record |
| ModRecords.FreedKeepsDeps | dlm/upstream/dlm_core.c:394-422 | freeing a record nothing depends on leaves no entry naming a freed record and keeps the order of settling |
| ModRecords.NoCycle | dlm/upstream/dlm_core.c:610-620 | every chain of dependency entries leads to records settled strictly earlier, so none leads back to its beginning |
| ModRecords.LoadingUnnamed | dlm/upstream/dlm_core.c:537-548 | no dependency entry names a record that is still loading |
| ModRecords.BeginSound | dlm/upstream/dlm_core.c:555-577 | entering a new loading record with its guard frame keeps lists, counts, order and frames consistent |
| ModRecords.DependSound | dlm/upstream/dlm_core.c:610-620 | one more entry together with one more count keeps the records consistent, and the new edge goes to an earlier settled record |
| ModRecords.SettleSound | dlm/upstream/dlm_core.c:685-696 | a record that settles takes the latest place in the order of settling, above all its dependencies |
| ModRecords.GrownTrans | dlm/upstream/dlm_core.c:522-700 | what nested loads add composes: a record new since either load has finished loading, is locked exactly when the kernel locks what it loads, and is unused |
| ModRecords.UnwoundKeeps | dlm/upstream/dlm_core.c:424-451 | each earlier record is kept as it was but for the dependents that settled meanwhile, after one load more is undone |
| ModRecords.DepsGrew | dlm/upstream/dlm_core.c:424-451 | what earlier records gained in their dependency counts is exactly the number of entries of the records that are new |
| ModRecords.StuckNeeded | dlm/upstream/dlm_core.c:872-892 | a record the sweep cannot unload is tied, along dependency entries, to one that is held, called, locked, in transition or last answered with a refusal |
| ModRecords.NeededStays | dlm/upstream/dlm_core.c:872-892 | along a chain of dependency entries that begins with a record that stays, every record stays |
| ModRecords.AskNext | dlm/upstream/dlm_core.c:872-892 | of the records asked so far exactly those that agreed have gone, and the answers kept are those given since the last one did |
| ModRecords.LoadAtRest | dlm/upstream/dlm_core.c:814-848 | a load that is over leaves modules that nobody uses, locked as the kernel says |
| ModRecords.SweptRest | dlm/upstream/dlm_core.c:872-892 | of modules nobody uses a sweep in which none refuses leaves nothing, or all when they are locked |
| ModRecords.LastCompIs | dlm/upstream/dlm_core.c:87-97 | the name of a module is what follows the last slash of its path |
| ModRecords.WantedSnoc | dlm/upstream/dlm_core.c:610-612 | the dependencies wanted are the listed names that are not built in, in their order |
| LoadSpec.TryKeeps | dlm/upstream/dlm_core.c:522-700 | a load, however it ends, loses and changes no module that was there |
| LoadSpec.CircleRefused | dlm/upstream/dlm_core.c:537-541 | no load goes in a circle, however long: when every file of a set of names wants a name of the set, or a module of the name is being loaded already, a load of any of them is not done, at any depth, and none of them ever settles |
| LoadSpec.LoadedIsGood | dlm/upstream/dlm_core.c:551-700 | whatever a load settles, succeeding or not, has a file with every stage good, and all that file wants has settled; a load that succeeds leaves its name settled and nothing in transition |
| LoadSpec.PlanLoads | dlm/upstream/dlm_core.c:522-700 | a load succeeds when its dependencies can be ranked, every file of the plan is good, none of them is in transition and the rank fits the depth that is left |
| LoadSpec.StuckLoad | dlm/upstream/dlm_core.c:424-451 | the concrete case: load entry done, a linkage that does not install, unload entry interrupted; the load is interrupted and its record stays, loading |
| LoadSpec.JamHasFile | dlm/upstream/dlm_core.c:424-451 | only a file whose image, wrapper and load entry go well, whose linkages do not all install and whose unload entry is interrupted can keep a load from being undone |
| LoadSpec.CameNew | dlm/upstream/dlm_core.c:551-700 | a new record, its file and its end - settled, gone, left by an interrupt or left for good - come to what the function on names says |
| LoadSpec.CameSnoc | dlm/upstream/dlm_core.c:610-620 | one dependency more comes to what the function says for the longer list |
| LoadSpec.CameStop | dlm/upstream/dlm_core.c:613-616 | the first dependency that does not load ends the list with EINVAL, or with the interrupt |
| LoadSpec.ReadsLook | dlm/upstream/dlm_core.c:111-121 | the records determine the map of names, and no two records have one name |
| Lifecycle.Core.constructor | dlm/upstream/dlm_core.c:1127-1145 | an empty core satisfies the invariant |
| Lifecycle.Core.Hold | dlm/upstream/dlm_core.c:182-189 | one more hold; the first one takes the record off the candidate list |
| Lifecycle.Core.Rele | dlm/upstream/dlm_core.c:190-197 | one hold fewer, never below none; the last one makes an unneeded record a candidate |
| Lifecycle.Core.DepAdd | dlm/upstream/dlm_core.c:198-205 | one more dependent; the first one takes the record off the candidate list |
| Lifecycle.Core.DepRele | dlm/upstream/dlm_core.c:206-212 | one dependent fewer; the last one makes an unheld record a candidate |
| Lifecycle.Core.ReleDeps | dlm/upstream/dlm_core.c:394-422 | every entry of the record is given back once, each count falls by exactly the entries that name the record, and every candidate is idle |
| Lifecycle.Core.FreeMod | dlm/upstream/dlm_core.c:394-422 | the record is gone from the heap, the list and the candidates, and its dependencies count one dependent fewer per entry |
| Lifecycle.Core.LinkRemoveAll | dlm/upstream/dlm_core.c:736-737 | the linkages of the record, and no others, are removed |
| Lifecycle.Core.LfClose | dlm/upstream/dlm_core.c:376-391 | the caller gets its saved credentials and root back, once |
| Lifecycle.Core.LfFail | dlm/upstream/dlm_core.c:424-451 | the innermost load is undone: record, linkages and entries gone, credentials given back; exactly when it was through its load entry and its unload entry is interrupted, the record and its entries stay, loading, with no frame for them |
| Lifecycle.Core.AbortLoads | dlm/upstream/dlm_core.c:751-767 | after an interrupt every load in progress is undone, innermost first, and the caller has the credentials it began with; exactly when the innermost one's unload entry is interrupted in turn, all of them stay, swapped credentials included |
| Lifecycle.Core.FindName | dlm/upstream/dlm_core.c:112-121 | the listed record of that name, or none when no record has it |
| Lifecycle.Core.Begin | dlm/upstream/dlm_core.c:555-590 | a fresh loading record at the end of the list under an id no record ever had, its frame innermost, system credentials when asked for |
| Lifecycle.Core.Settle | dlm/upstream/dlm_core.c:685-696 | the record is no longer loading and the frame is gone; nothing else changes |
| Lifecycle.Core.LinkInstallAll | dlm/upstream/dlm_core.c:679-683 | linkages are installed in order up to the first that fails, and m_nlink counts the installed ones |
| Lifecycle.Core.FillDep | dlm/upstream/dlm_core.c:610-620 | one dependency loaded or found, counted and entered, at one level deeper, and looked up as the system |
| Lifecycle.Core.FillDeps | dlm/upstream/dlm_core.c:594-620 | on success the entries name, in order, loaded modules of exactly the names wanted |
| Lifecycle.Core.Fill | dlm/upstream/dlm_core.c:591-683 | file, headers, dependencies, image, wrapper, load entry and linkages in order; success means every stage passed, and the record locked exactly when the kernel locks what it loads |
| Lifecycle.Core.Load | dlm/upstream/dlm_core.c:522-700 | its outcome, error code included, the names afterwards and what is left undone are those of a function of the names, the files and the depth alone; loaded: settled under the name; every record new since has gone through each stage, is locked exactly when the kernel locks what it loads, and has no hold and no demand mark but the caller's; failed: no frame of this load is left; earlier records keep everything but dependents gained, and credentials unwind in nested order; the path is looked up as the caller asks and every dependency as the system; recursion is bounded by the depth limit |
| Lifecycle.Core.Modload | dlm/upstream/dlm_core.c:814-848 | the outcome is that of the function on names; the path is looked up with the caller's credentials and dependencies with the system's; new records are complete, unused, and locked exactly when the kernel locks what it loads; nothing begun by the call is left loading and the caller has its credentials, whatever failed or was interrupted at any depth, if and only if that function says no undoing was cut short |
| Lifecycle.Core.Relink | dlm/upstream/dlm_core.c:703-711 | all linkages are installed again, or the kernel panics |
| Lifecycle.Core.Unload | dlm/upstream/dlm_core.c:718-749 | unloaded exactly when not busy, not demand-marked for an automatic unload, and the entry agrees; a refusal or interrupt leaves every record, linkage and list as it was |
| Lifecycle.Core.UnloadAll | dlm/upstream/dlm_core.c:872-892 | the sweep ends, whatever each attempt answers, and the records left are exactly those needed by a record that is held, called, locked, in transition or refused since the last one went; the answers are used one per record asked, exactly the records that agreed have gone, no demand mark is left outside a transition, and it stops early only for an interrupted entry or a linkage that does not go back |
| Lifecycle.Core.LeftIsNeeded | dlm/upstream/dlm_core.c:872-892 | when no record left can be unloaded, being left and being needed are the same |
| Lifecycle.Core.LoadsThenSweep | dlm/upstream/dlm_core.c:655-892 | after any loads, none of which left anything undone, a sweep in which every entry agrees leaves no module of a kernel that locks nothing, and every module of one that locks what it loads |
| Lifecycle.Core.UnloadId | dlm/upstream/dlm_core.c:865-871 | an unknown id is an error; otherwise the one record of that id loses its demand mark, even when it is refused, and goes exactly when it is not busy and its entry agrees; every other record is as before |
| Lifecycle.Core.Step | dlm/upstream/dlm_core.c:782-895 | every system call, hold and release keeps the invariant |
| Lifecycle.Core.Run | dlm/upstream/dlm_core.c:782-895 | every reachable state satisfies the invariant - counts, candidate list, linkages, order of settling, no two records of one name or of one id - and nothing is loading but what an undoing that was cut short has left |
| BootTable.WholeIsInside | dlm/upstream/dlm_boot.c:65-83 | the 32-bit end address and the wrap test together decide exactly whether a module lies wholly in the range |
| BootPack.GoesPacked | dlm/upstream/dlm_boot.c:85-113 | a module placed clear of all modules still to move keeps every byte placed or waiting, but for those of the buried one |
| BootTable.StartQueue | dlm/upstream/dlm_boot.c:129-136 | below the lowered top every module inside the range waits whole, but for the buried one and empty ones that stay |
| BootTable.VictimLeft | dlm/upstream/dlm_boot.c:137-138 | a module that reaches past the last aligned address, with an empty one listed before it at its start, is not chosen while that one waits, and does not fit afterwards |
| BootTable.QueueStep | dlm/upstream/dlm_boot.c:63-83 | after each move every module inside waits whole below the top, but the buried one and empty ones that the table says stay; none of those has gone, and the top is what those gone have left |
| BootTable.StaysNow | dlm/upstream/dlm_boot.c:63-113 | an empty module that the top comes down to is one of which the table says that those before it fill the range down to its start |
| BootTable.ChosenGoes | dlm/upstream/dlm_boot.c:63-113 | an empty module that is moved is none of those |
| BootTable.QueueDone | dlm/upstream/dlm_boot.c:137-140 | a module inside the range has been moved by the first pass if and only if the table says neither that it is buried nor that it stays |
| BootTable.FirstOver | dlm/upstream/dlm_boot.c:137-138 | while only empty modules have gone, the next one with bytes goes over the buried one, and is the one the table says goes first |
| BootTable.SecondOver | dlm/upstream/dlm_boot.c:141-142 | in the second pass the first module in its order that has room goes over a buried one that has none |
| BootPack.TaintBreaks | dlm/upstream/dlm_boot.c:121-148 | where the bytes of the module copied over the buried one differ from its own, the packing has failed |
| BootPack.TaintStays | dlm/upstream/dlm_boot.c:85-113 | whatever is moved later, the buried module among it, leaves those bytes there |
| BootPack.HitsWord | dlm/upstream/dlm_boot.c:96-99 | the first byte of the word below the last aligned address is always among them |
| BootPack.Verdict | dlm/upstream/dlm_boot.c:121-148 | in the end all is packed unless the table lets one be trampled; then that one alone has, where the first copied over it was placed, that one's bytes |
| BootPack.HighestFits | dlm/upstream/dlm_boot.c:63-113 | the place the chosen module takes is clear of every other module with bytes that has not gone, but for the buried one |
| BootPack.PlaceHighest | dlm/upstream/dlm_boot.c:137-138 | moving the highest waiting module keeps placed and waiting modules apart and whole, but for the bytes of the buried one |
| BootPack.PlaceInClear | dlm/upstream/dlm_boot.c:141-145 | with no other module left waiting in the range, a copy into it destroys nothing but possibly bytes of the buried one |
| BootPile.LimitTop | dlm/upstream/dlm_boot.c:129-136 | the first place is below the end of the range, or the lowest start of a module not placed earlier that starts in it and runs past its end |
| BootPile.StackedOn | dlm/upstream/dlm_boot.c:85-113 | a module placed lies at the aligned address just below the one placed before it, and the top is its address |
| BootPile.PilingStep | dlm/upstream/dlm_boot.c:137-138 | the first pass goes by start, highest first, and as listed at one start |
| BootPile.RestingPlaced | dlm/upstream/dlm_boot.c:141-145 | the second pass goes by its own order, and each module it left had no room when its turn came |
| BootPack.UnalignedEnd | dlm/upstream/dlm_boot.c:122-148 | a table with an unaligned end and an empty module at another's start that is buried and trampled by a third, in both modes, and one where it is buried but not trampled |
| BootPack.EmptyStays | dlm/upstream/dlm_boot.c:122-148 | a table in which an empty module is listed after one of its start that is at the top already: it is one that stays |
| BootPack.Boot.Move | dlm/upstream/dlm_boot.c:101-108 | the byte copy in either direction gives the bytes of the source at the target even where they overlap, and changes nothing else |
| BootPack.Boot.Next | dlm/upstream/dlm_boot.c:63-83 | the eligible untried module with the highest start, the first listed of those at one start, or none when no module is eligible |
| BootPack.Boot.Place | dlm/upstream/dlm_boot.c:85-113 | placed just below the top, aligned, or marked without room and nothing moved |
| BootPack.Boot.First | dlm/upstream/dlm_boot.c:129-136 | earlier placed modules are marked tried and the top is the lowest start of a module that runs past the end, or the end |
| BootPack.Boot.Pack | dlm/upstream/dlm_boot.c:121-148 | every module placed has its original bytes at an aligned address between the returned top and the end, placed modules are apart and every other module is untouched, unless the table lets a buried one be trampled; then that one alone has the bytes of the first copied over it, and it fails whenever they differ; the modules placed lie each at the aligned address just below the one placed before, from the end of the range or the lowest module that runs past it, and the returned top is where the last one lies, or where the first would have gone; those of the first pass are exactly the ones inside that are neither buried nor empty ones that stay, highest first; with copy the others follow in their order, and one that is not placed had no room when its turn came |
| BootPack.Boot.EmptyLeft | dlm/upstream/dlm_boot.c:121-148 | packed without copy, the second of two modules at the top, empty, is left |
| BootPack.Boot.ThirdOver | dlm/upstream/dlm_boot.c:121-148 | packed in either mode, the second of three modules has the bytes of the third and the packing fails when they differ |
| LdLayout.LaidOut | dlm/upstream/dlm_ld.c:93-127 | allocated sections lie in header order, apart from each other, aligned to at least 4 and to their demand, inside the image limit |
| LdLayout.LayOut | dlm/upstream/dlm_ld.c:93-143 | it succeeds exactly for acceptable headers, symbol and string table and relocation links included; then each allocated section is at the first multiple of its alignment, or of 4, after the one before it, the image ends with the last, and the one symbol table is found |
| LdLayout.Pow2Is | dlm/upstream/dlm_ld.c:113-117 | an alignment is accepted exactly when it is a power of two |
| LdSyms.FoundFrame | dlm/upstream/dlm_ld.c:193-208 | a chain walk depends only on the links at and below where it starts |
| LdSyms.EnterKeeps | dlm/upstream/dlm_ld.c:273-292 | a definition put in front of its bucket makes the hash find what the linear search finds, for every name |
| LdSyms.SkipKeeps | dlm/upstream/dlm_ld.c:256-284 | a symbol not entered changes what the hash finds for no name |
| LdSyms.OwnFind | dlm/upstream/dlm_ld.c:193-208 | the walk ends because chain links go down, and finds the strong definition or else the first weak one |
| LdSyms.DefineKeeps | dlm/upstream/dlm_ld.c:248-289 | after each definition every symbol carries the value of the definition in force, and the table mark is on it alone |
| LdSyms.Definitions | dlm/upstream/dlm_ld.c:247-293 | it succeeds exactly when no section index is bad and no name has two strong definitions |
| LdSyms.Lookup | dlm/upstream/dlm_ld.c:311-314 | the last-listed dependency that has the name, else the kernel, else nothing |
| LdSyms.ImportIs | dlm/upstream/dlm_ld.c:311-314 | an imported name has the value of the last-listed dependency that has it, that of the kernel when none has, and none when the kernel has not either |
| LdSyms.InForceOwn | dlm/upstream/dlm_ld.c:193-292 | the definition in force is the one strong definition of the name, or the first when all are weak |
| LdSyms.FinalMeant | dlm/upstream/dlm_ld.c:216-365 | the linear specification comes to what the symbol table, the dependencies and the kernel say |
| LdSyms.CommonsApart | dlm/upstream/dlm_ld.c:320-349 | commons come after the sections, in symbol order, apart, each aligned as it asks, inside the image |
| LdSyms.ImportOne | dlm/upstream/dlm_ld.c:302-357 | an undefined name takes the module's own definition, else a dependency's, else the kernel's, else 0 if weak; a common nobody has gets a place |
| LdSyms.LoadSyms | dlm/upstream/dlm_ld.c:216-365 | it succeeds exactly when the table is sane and everything resolves and fits; then an undefined name has the value of the strong definition, or else of the first weak one, else of the last-listed dependency that has it, else of the kernel, else 0 if weak; a definition has its own value, and the table mark exactly when it is in force; each common allocated is at the first aligned place after the one before it |
| LdReloc.Decide | dlm/upstream/dlm_ld.c:386-459 | a store stays inside the target section, in a field of the width of its type |
| LdReloc.PutGet | dlm/upstream/dlm_ld.c:437-456 | a stored field reads back as the value's low bits |
| LdReloc.ReadsBack | dlm/upstream/dlm_ld.c:432-457 | an accepted value is not truncated: the field read as signed, or unsigned for the absolute short ones, is the value itself |
| LdReloc.OnlyFields | dlm/upstream/dlm_ld.c:461-496 | a byte that no relocation's field has is as it was |
| LdReloc.FieldHolds | dlm/upstream/dlm_ld.c:386-496 | in the final image a field holds the value of the last relocation of it |
| LdReloc.InternalStays | dlm/upstream/dlm_ld.c:424-432 | a PC-relative reference into the image gives the same field, or the same refusal, at every base |
| LdReloc.WordMoves | dlm/upstream/dlm_ld.c:424-440 | a 32-bit field moves by the distance between the bases, modulo 2^32, and is never refused for it |
| LdReloc.Rebased | dlm/upstream/dlm_ld.c:386-496 | two relocated images for different bases: PC-relative fields of internal references are equal, absolute 32-bit ones differ by exactly the distance |
| LdReloc.RefusedStays | dlm/upstream/dlm_ld.c:480-493 | after a refused entry the pass cannot succeed |
| LdReloc.AcceptsMeant | dlm/upstream/dlm_ld.c:386-459 | an entry is accepted exactly when its field is inside the section, its symbol has an address, and some contents of the field stand for S + A modulo 2^32: by themselves for the absolute types, a short field read either way, and as the distance from base + place + offset for the PC-relative ones; what it stores does |
| LdReloc.PassMeans | dlm/upstream/dlm_ld.c:461-496 | in the image a pass leaves, each field that no later entry writes into stands for its symbol plus its addend |
| LdReloc.PassSucceeds | dlm/upstream/dlm_ld.c:461-496 | a pass succeeds exactly when each entry can be met |
| LdReloc.JobAt | dlm/upstream/dlm_ld.c:477-493 | the entries of a relocation section are its 12-byte groups of words, in order, after those of the sections before it |
| LdReloc.AcceptedRoomy | dlm/upstream/dlm_ld.c:93-127 | an accepted layout leaves every target section inside the image |
| LdReloc.Reloc1 | dlm/upstream/dlm_ld.c:386-459 | one entry applied in place, so that its field stands for S + A; refused, with the image unchanged, exactly when no contents of the field could |
| LdReloc.RelocSection | dlm/upstream/dlm_ld.c:477-493 | 64 entries at a time give what the entries one after the other give; a short read or a refused entry fails the whole |
| LdReloc.Reloc | dlm/upstream/dlm_ld.c:461-496 | the pass over all relocation sections in chunks equals the one-piece pass, in its success and in its image; it succeeds exactly when every section can be read and every entry met, and then each field stands for what its last entry says |
| LdReloc.FromOne | dlm/upstream/dlm_ld.c:367-382 | no byte of the image belongs to two sections |
| LdReloc.LoadImage | dlm/upstream/dlm_ld.c:367-382 | it succeeds exactly when all contents are in the file; then each section has them at its place and all other bytes are zero |
| SymBlock.HeadCheck | dlm/upstream/dlm_sym.c:112-141 | the header tests pass exactly for blocks whose parts lie in order inside the space, and for those whose hash's end wraps as a signed long |
| SymBlock.NoWrap | dlm/upstream/dlm_sym.c:139-141 | in a space below 0x66666660 bytes no hash's end wraps |
| SymBlock.WrapsPast | dlm/upstream/dlm_sym.c:139-141 | a header in a space of 1.75 GB whose hash's end wraps, and which every test passes |
| SymBlock.BlkCheck | dlm/upstream/dlm_sym.c:112-149 | accepted exactly when the header is sound, the strings end in a NUL, and every name offset and every bucket and chain entry is in range; or the end of the hash has wrapped, the names are in range, and all entries read from the space and beyond happen to be |
| SymBlock.StrEq | dlm/upstream/dlm_sym.c:167-167 | the comparison reads no byte past the end of the strings and is equality of names |
| SymBlock.Hash | dlm/upstream/dlm_sym.c:13-27 | the loop computes the ELF hash of the whole name |
| SymBlock.HashBound | dlm/upstream/dlm_sym.c:13-27 | the hash never has any of its top four bits |
| SymBlock.HashSyscall | dlm/upstream/dlm_sym.c:13-27 | the hash of "syscall" is 0xb09985c |
| SymBlock.BlkLookup | dlm/upstream/dlm_sym.c:152-176 | on any accepted block, even with cyclic chains, it ends, stays inside, and answers the first symbol of that name along the walk |
| SymBlock.WalkIsLast | dlm/upstream/dlm_sym.c:164-174 | along a chain as the builder makes it, the walk meets the last symbol of the name first |
| SymBlock.LookupIsLast | dlm/upstream/dlm_sym.c:152-176 | on a hashed block a name is found exactly when some symbol has it, and the last one with it is the answer |
| SymBlock.LookupIsTable | dlm/upstream/dlm_sym.c:152-176 | on a hashed block lookup is the lookup in a map from each name to its last value |
| SymBlock.BlkAddr | dlm/upstream/dlm_sym.c:182-210 | on any accepted block it ends, stays inside, and gives the first of the symbols with the greatest value not above the address, sections and file names excluded |
| SymBlock.BlkInit | dlm/upstream/dlm_sym.c:65-85 | the header lays out the parts for the counts given, in a block of exactly the computed size, with the range of addresses given |
| SymBlock.HashOne | dlm/upstream/dlm_sym.c:100-104 | one more symbol goes in front of its bucket, all earlier links kept |
| SymBlock.BlkHash | dlm/upstream/dlm_sym.c:88-105 | every symbol is linked in its bucket, later ones first, and symbols and strings are untouched |
| SymBlock.PutSyms | dlm/upstream/dlm_ld.c:519-531 | the marked symbols, in order, fill the entries after the null one: name, value, size, info and section index |
| SymBlock.BuildTable | dlm/upstream/dlm_ld.c:502-534 | every table built passes dlm_blkcheck and is hashed, has the module's range in its header, and holds exactly the marked symbols, word for word |
| LdTable.Exports | dlm/upstream/dlm_ld.c:502-534 | a name is in the module's table if and only if the module defines it or allocates it as a common, at the address in the running image of the last symbol that does, commons at their place behind the sections |
| LdTable.MarkIsExport | dlm/upstream/dlm_ld.c:219-360 | the symbols marked for the table are exactly the definitions in force and the commons the module allocates, each with its address as value |
| LdTable.ModuleTable | dlm/upstream/dlm_ld.c:502-534 | the table built of the symbols as resolved is usable, hashed, has the range of the image in its header, and exports every name so |
| NuRing.GoodChip | driver-nu/nuchip.c:577-624 | on a chip that stores the CRC every good frame is delivered once, in order, and none is an error |
| NuRing.CloneChip | driver-nu/nuchip.c:605-622 | where the counts leave the CRC out a frame arrives whole if and only if the driver already knows or learns it from this short frame; otherwise it loses its last four bytes |
| NuRing.CloneRun | driver-nu/nuchip.c:605-622 | over any run of frames on a chip that leaves the CRC out, those before the first short one lose their last four bytes, that one and all later ones arrive whole, and none is an error |
| NuRing.BadFrame | driver-nu/nuchip.c:594-622 | a frame is an error, and brings nothing, exactly when it lacks the received bit or is too short or too long for the chip's way of counting |
| NuRing.AllCounted | driver-nu/nuchip.c:577-624 | of any frames each is delivered or one error, and those delivered follow what was there |
| NuRing.LayoutKeeps | driver-nu/nuchip.c:145-161 | bytes written outside the stored frames leave all of them as they lie |
| NuRing.LayoutSnoc | driver-nu/nuchip.c:145-161 | a frame stored at CURR follows the ones before it, across the end of the ring too |
| NuRing.ChipSpace | driver-nu/nuchip.c:564-569 | BNRY a page behind the last page reported leaves the chip every page of the ring but those from there to CURR and one |
| NuRing.LiesReads | driver-nu/nuchip.c:577-624 | what the driver reads for a frame, header, length and data across the wrap, is the frame stored |
| NuRing.GoodHeader | driver-nu/nuchip.c:594-604 | the header of a stored frame passes the driver's tests |
| NuRing.Nic.constructor | driver-nu/nuchip.c:397-406 | after set-up the ring is empty, rxnext at its start and BNRY its cyclic predecessor |
| NuRing.Nic.Receive | driver-nu/nuchip.c:397-406 | a frame that fits before the BNRY page is stored at CURR and queued; one that does not is lost and changes nothing |
| NuRing.Nic.RdRing | driver-nu/nuchip.c:145-161 | the bytes read are those of the ring from the position on, wrapping at its end, even when frames arrive between the two pieces |
| NuRing.Nic.Take | driver-nu/nuchip.c:577-624 | one frame is read and handed on or dropped as its status and length say, and the ring moves on by its pages; a header that makes no sense drops all up to CURR; on a ring as the chip fills it the oldest frame is taken whatever arrives on the way |
| NuRing.Nic.SetBnry | driver-nu/nuchip.c:564-569 | BNRY is the page before rxnext, counted round the ring |
| NuRing.Nic.EmptyRing | driver-nu/nuchip.c:588-592 | CURR equals rxnext exactly when no frame is pending |
| NuRing.Nic.Fifo | driver-nu/nuchip.c:577-624 | what has been delivered followed by what is still in the ring is everything stored, in order, byte for byte |
| NuRing.Nic.Drain | driver-nu/nuchip.c:577-624 | with arrivals before the look at CURR, the header, the data, the wrapped rest and the BNRY write, frames leave in order, rxbad never rises, and it stops early only for an empty ring or a due clock |
| UsbTree.BelowOne | driver-ub/usb.c:771-810 | subtrees of two devices at the same depth have no slot in common |
| UsbTree.NoCircle | driver-ub/usb.c:771-810 | no device is below its own child |
| UsbTree.UnderRoot | driver-ub/usb.c:880-1049 | every device in use hangs from the root: the forest is one tree |
| UsbTree.KidsCover | driver-ub/usb.c:793-799 | the subtree of a device is the device and the subtrees at its ports, nothing more |
| UsbTree.LaterWhole | driver-ub/usb.c:793-799 | disconnecting the children at earlier ports leaves the subtree at a later port whole |
| UsbTree.CutKeeps | driver-ub/hub.c:321-331 | with a subtree cut off and the link cleared, the rest is a forest and no table names a freed slot |
| UsbTree.LinkKeeps | driver-ub/hub.c:365-368 | a device linked at a free port in a free slot keeps the forest |
| UsbTree.FreedIsCut | driver-ub/usb.c:860-868 | freeing a device that nothing names is cutting off a subtree of one |
| UsbTree.FailedSame | driver-ub/hub.c:370-377 | after a failed enumeration slots, links and tables are as before it, but for the hub's last port number and devgone |
| UsbTree.FilledStep | driver-ub/ubstor.c:293-350 | one probe more takes the first free entry, and there is one exactly when fewer have been taken than were free |
| UsbTree.OfferedStep | driver-ub/usb.c:1041-1045 | each interface gets its driver by its class, its endpoints and the entries left by those before it |
| UsbTree.Stack.StorageDisconnect | driver-ub/ubstor.c:352-362 | every entry naming the device is cleared and no other |
| UsbTree.Stack.HidDisconnect | driver-ub/ubhid.c:305-317 | every entry naming the device is cleared and no other |
| UsbTree.Stack.HubDisconnect | driver-ub/hub.c:182-192 | the entry naming the hub is cleared; clearing the first match is enough |
| UsbTree.Stack.Disconnect | driver-ub/usb.c:771-810 | exactly the slots of the subtree become free, exactly the entries naming them are cleared in the hub, storage and HID tables and devgone, and everything else is as it was; the recursion ends |
| UsbTree.Stack.AllocDevice | driver-ub/usb.c:831-853 | the first free slot, or none when all are in use |
| UsbTree.Stack.FreeDevice | driver-ub/usb.c:860-868 | the slot is free and devgone does not name it |
| UsbTree.Stack.HubConfigure | driver-ub/hub.c:383-515 | the first free table entry is taken exactly when there is one and every answer is right |
| UsbTree.Stack.FindDriver | driver-ub/usb.c:1072-1101 | the interface gets the storage or the HID driver exactly when it is of that class, has the endpoints and the table has room, and then the first free entry names the device; everything else is kept |
| UsbTree.Stack.NewDevice | driver-ub/usb.c:880-1049 | it succeeds exactly when every answer on the way is right; interface i of a device that is no hub then has the storage driver if and only if it is declared, of that class with endpoints, and more entries were free than interfaces before it ask for one, the HID driver likewise, and the first free entries, one for each, name the device; a hub has the first free entry and its ports exactly when there was one and its descriptor and status came; whatever fails, the forest and the tables are consistent and no table names the failed device |
| UsbTree.Stack.ConnectChange | driver-ub/hub.c:313-380 | what was at the port is cut off whole, a device that comes up takes the first free slot and the drivers and table entries due to it, one that does not leaves nothing, and the rest of the tree is untouched |
| UsbTree.Stack.Start | driver-ub/usb.c:72-86 | every slot is free but the root hub's, which is up exactly when every answer is right |
| UsbTree.Stack.Stop | driver-ub/ub.c:402-424 | every device but the root is gone and no table names anything |
| UsbTree.Stack.Run | driver-ub/hub.c:313-380 | after every sequence of plugs, unplugs, failures, starts and stops the devices form one tree and no table entry names a free slot |
| SndRing.PlaysInOrder | driver-snd/snd.c:242-286 | ahead of the play position come the silence of the gap, the bytes not yet played, oldest first, and then only silence |
| SndRing.ShowsPlayed | driver-snd/snd.c:258-271 | blanking what has played leaves the unplayed bytes due in order, in each of the three cases |
| SndRing.ShowsPut | driver-snd/snd.c:418-427 | bytes copied in at the write position follow the unplayed ones |
| SndRing.Sound.Start | driver-snd/snd.c:288-320 | the ring is silent and the write position leads the play position |
| SndRing.Sound.Tick | driver-snd/snd.c:242-286 | wpos is cpos + gap + filled round the ring with two bytes spare, the filled bytes before it are the last ones written, all others are zero, and counters and the marks for chaining move by what has played; when the position has gone back, if and only if the bytes to replay leave room |
| SndRing.Sound.Copy | driver-snd/snd.c:421-426 | two pieces at most put the bytes in order across the end of the ring |
| SndRing.Sound.Put | driver-snd/snd.c:419-427 | the copy of a piece that found room earlier keeps the ring's promise if and only if there is room for it now |
| SndRing.Sound.PutAll | driver-snd/snd.c:405-428 | the copies of several writers that all found room keep it if and only if there is room for all of them together |
| SndRing.Sound.TwoWriters | driver-snd/snd.c:411-427 | two pieces of 1024 bytes with room for 1024: the second copy goes over the byte that plays next |
| SndRing.Sound.Writers | driver-snd/snd.c:397-430 | in every run of writers and ticks the ring holds what it should up to the first piece claimed beyond the room, and with one writer at a time there is none |
| SndRing.Sound.Write | driver-snd/snd.c:397-430 | for every interleaving with ticks the bytes written join the unplayed ones in order; on an error, or while it sleeps for room, exactly a front part has; without room a signal ends it with EINTR, and only a fault with EFAULT |
| MidiStream.SentIsPrefix | driver-midi/midi.c:126-178 | what has gone out is a front part of the written stream without its waits, however it was split into writes |
| MidiStream.AllSent | driver-midi/midi.c:126-178 | with the queue empty, or only a wait without its count in it, all data of the stream has gone out |
| MidiStream.TicksExact | driver-midi/midi.c:94-99 | the two-part division is exactly floor(hertz * ms / 1000), so rounding does not accumulate |
| MidiStream.DueGrows | driver-midi/midi.c:144-160 | due ticks never go back, restarts of the timeline included |
| MidiStream.NotBeforeDue | driver-midi/midi.c:110-178 | no byte after a wait goes out before the restart tick plus floor(hertz * total ms / 1000) |
| MidiStream.Midi.Open | driver-midi/midi.c:235-268 | an empty queue on a timeline that begins now |
| MidiStream.Midi.Kick | driver-midi/midi.c:126-178 | nothing is lost or reordered and no byte goes out early; it ends with nothing left that could go and the port quiet, or with a wait that is not over, or with data next and exactly as many bytes sent as the port was ready for |
| MidiStream.Midi.TakeWait | driver-midi/midi.c:139-162 | exactly one wait and its count leave the queue; the due tick is the timeline's start plus all its waits, rounded once, or restarts at now when it is more than four ticks late |
| MidiStream.Midi.CopyIn | driver-midi/midi.c:316-320 | the copy of a piece that found room earlier keeps the queue if and only if there is room for it now |
| MidiStream.Midi.PutAll | driver-midi/midi.c:305-324 | the copies of several writers that all found room: those that find nothing being sent fit, and from then on the queue survives if and only if there is room for all the others together |
| MidiStream.Midi.TwoWriters | driver-midi/midi.c:308-320 | two pieces of 512 bytes with room for 512: after the second copy the queue is its last 511 bytes alone |
| MidiStream.Midi.Writers | driver-midi/midi.c:296-326 | in every run of writers, interrupts, ticks and wakes nothing copied is lost or reordered up to the first piece claimed beyond the room, and with one writer at a time there is none |
| MidiStream.Midi.WakeUp | driver-midi/midi.c:110-121 | the end of a wait resumes the queue, which is then served as by a kick |
| MidiStream.Midi.Drain | driver-midi/midi.c:110-178 | from every state a run of interrupts and wakes, two at most for each byte queued, sends all that was written without its waits |
| MidiStream.Midi.Write | driver-midi/midi.c:296-326 | for every interleaving with interrupts, ticks and wakes the bytes written join the stream in order; on an error, or while it sleeps for room, exactly a front part has; without room a signal ends it with EINTR, and only a fault with EFAULT |
| MidiStream.Midi.Flush | driver-midi/midi.c:339-352 | the queue is empty, no wait is pending and the timeline begins now |
| UbXfer.BlockOf | amix/mtools/ub_io.c:57-60 | the 32-bit block number and offset are those of the position modulo 2 TB |
| UbXfer.FlatIff | amix/mtools/ub_io.c:57-65 | the access is the flat one at the asked position exactly when that is below 2 TB, or nothing is asked, or the wrapped position is past the end too |
| UbXfer.WrapsAround | amix/mtools/ub_io.c:57-65 | a position of 2 TB reads the first byte of the unit |
| UbXfer.ProgressMore | amix/mtools/ub_io.c:56-92 | a piece moved after the first bytes of an access makes a longer front part of it |
| UbXfer.Unit.Part | amix/mtools/ub_io.c:79-91 | part of a block moved through the bounce buffer changes exactly that part; neighbours in the block are kept |
| UbXfer.Unit.Xfer | amix/mtools/ub_io.c:45-94 | min(len, bytes to the end) bytes move, as with a flat array, up to the first block transfer that fails; the bytes moved are those reported plus what that transfer moved of the access; EROFS and EINVAL change nothing; the loop ends |
| UbXfer.MovedIsReported | amix/mtools/ub_io.c:56-92 | the bytes moved are the bytes reported if and only if no transfer failed, or the failing one moved no block or was a read into the bounce buffer |
| UbXfer.Unit.HalfRead | amix/mtools/ub_io.c:62-78 | a read of two blocks whose one transfer fails after the first reports an error and has the first block in the buffer |
| Ufs.IndWalks | tools/ufs.py:26-31 | the pointers listed below an indirect block are, one for one, those the index arithmetic leads to, zeros below a hole |
| Ufs.BlocksArePointers | tools/ufs.py:23-35 | the list holds for each logical block the direct, single, double or triple indirect pointer, 0 for a hole |
| Ufs.IndKept | tools/ufs.py:42-49 | writing file data leaves the pointers below an indirect block as they were |
| Ufs.FileKept | tools/ufs.py:42-49 | writing file data leaves the inode and the block list as they were |
| Ufs.ContentIs | tools/ufs.py:36-41 | blocks that hold the parts of some data make up that data |
| Ufs.Image.Read | tools/ufs.py:36-41 | the file's bytes block by block, zeros in holes, cut to its size |
| Ufs.Image.Overwrite | tools/ufs.py:42-49 | refused exactly for a non-regular file, longer data, or a hole; else the file reads back as the data padded with zeros and no other byte of the image changes |
| Ikbd.SplitAnywhere | xserver/atwIo.c:221-272 | parsing a stream in two parts, carrying the rest, is parsing it whole |
| Ikbd.SameEvents | xserver/atwIo.c:221-272 | any two ways of splitting the same stream give the same events, the same motion before each and the same carry |
| Ikbd.Headers | xserver/atwIo.c:199-219 | header bit 1 is the left button, 1, and bit 0 the right one, 3; the distances are signed bytes, and the buttons change where they lead |
| Ikbd.Input.FlushMotion | xserver/atwIo.c:160-167 | gathered motion is delivered, and what the events and the rest amount to does not change |
| Ikbd.Input.MousePacket | xserver/atwIo.c:204-219 | motion is gathered first, then each changed button is delivered after it |
| Ikbd.Input.Packets | xserver/atwIo.c:238-270 | the whole packets in the buffer are handled and the incomplete one is carried to its front |
| Ikbd.Input.ProcessInputEvents | xserver/atwIo.c:221-272 | however the bytes are read, the events delivered are those of the whole stream, and the carry is less than one packet |
| DevSlot.OpenIsHeld | dlm/upstream/dlm_core.c:223-233 | a module with a key recorded, or a call into its driver under way, is busy |
| DevSlot.OpenHolds | dlm/upstream/dlm_slot.c:565-649 | an open key holds its module if and only if it was not opened while its own close was in the driver, or that close is still there, or its hold stays for good; and then the module cannot be unloaded |
| DevSlot.OpenedDesk | dlm/upstream/dlm_slot.c:582-590 | an open that works leaves each open key with a record or a hold for good, but for one whose close is in the driver |
| DevSlot.EndedDesk | dlm/upstream/dlm_slot.c:638-649 | a close that ends leaves a key opened meanwhile without a record, and no other |
| DevSlot.OpenRecorded | dlm/upstream/dlm_slot.c:582-587 | a newly recorded key takes over the hold of its open |
| DevSlot.CloseForgets | dlm/upstream/dlm_slot.c:638-646 | a forgotten key gives back exactly its hold |
| DevSlot.TakeKeeps | dlm/upstream/dlm_slot.c:725-734 | a slot taken from a module that nothing holds had no key |
| DevSlot.Linkage.Register | dlm/upstream/dlm_slot.c:487-524 | a slot for a new major over an empty row if there is memory; the same name again is fine; EEXIST exactly for a major of another name or a row in use |
| DevSlot.Linkage.FindKey | dlm/upstream/dlm_slot.c:526-537 | the recorded key, or none exactly when it is not recorded |
| DevSlot.Linkage.Install | dlm/upstream/dlm_slot.c:652-716 | all majors of the range are taken, exactly when each may be; otherwise none is |
| DevSlot.Linkage.Unload | dlm/upstream/dlm_slot.c:718-739 | drv_remove is reached exactly when nothing holds the module; then no key is recorded, and every key still open on it was opened while its own close was in the driver |
| DevSlot.Linkage.OpenBegin | dlm/upstream/dlm_slot.c:565-577 | the module of the major is held while its open runs, or there is none |
| DevSlot.Linkage.OpenEnd | dlm/upstream/dlm_slot.c:578-590 | the hold becomes the new key's, stays with a layered open, goes back for a failed or repeated one, and stays for good past the table's room |
| DevSlot.Linkage.OpenAbort | dlm/upstream/dlm_slot.c:558-564 | an interrupted open gives its hold back |
| DevSlot.Linkage.CloseBegin | dlm/upstream/dlm_slot.c:618-637 | the close is under way and its key no longer open, or is only counted as stale, exactly when no registered major of that number has a module |
| DevSlot.Linkage.CloseEnd | dlm/upstream/dlm_slot.c:638-649 | exactly the closed key and its hold go; a layered close takes a hold; a key never recorded takes none away and is counted as stale; the holds go on adding up if and only if this is not a layered close that no layered open came before |
| DevSlot.Linkage.OpenedAmidClose | dlm/upstream/dlm_slot.c:578-649 | a device closed, and opened again while that close is in the driver, is open on a module that is then unloaded |
| DevSlot.Linkage.UnpairedClose | dlm/upstream/dlm_slot.c:642-643 | a layered close that no open came before leaves an open key with no hold of its module |
| DevSlot.Linkage.Run | dlm/upstream/dlm_slot.c:539-739 | in every run up to such a close the holds add up and an open key holds its module exactly when OpenHolds says |

## Left out

- Bus cycles, delays, interrupt levels, cache handling and probing of the chips: hardware timing.
- Vnode and file reads, `copyin`, `setjmp` and `longjmp`, credential contents: they appear as success, failure or interrupt.
- Cross-process sleeping on a loading record: one process runs, so a record in transition belongs to the caller.
- The privilege checks of the system calls, `modpath`, `modstat`, `modadm` and `getksym`: no state beyond what is modelled.
- The contents of module images in the lifecycle: a load's stages are outcomes there; the loader modules say what the stages do.
- Records are a map from pointers, and the module list a sequence; next pointers of that list are not modelled. The candidate list has its links.
- `dlm_fs.c`, `dlm_sd.c`, `dlm_str.c`, the exec and hook linkages: they repeat the character-driver pattern.
- ELF header tests, the count of type-13 sections, their contents, `dlm_ld_dep`: single tests in a row. Name offsets of the symbol table are taken as checked.
- LdLayout.RoundUp: masks with a power of two are modelled as arithmetic.
- SymBlock.BlkInit: a block is below 2 GB, the range of the signed size.
- LoadSpec.PlanLoads: the depth of a load is counted along the first path that reaches a module, so a rank beyond the limit may still load; no condition on the depth is given that is necessary too.
- LdSyms.DefineKeeps: duplicate weak definitions carry the value in force when they were met, as the source has it; nothing more is claimed for them.
- LdSyms.ImportOne: the `ld_comhook` test hook, which a kernel never sets, is not modelled.
- LdReloc.Reloc: the 32-bit sum of a section's file offset and an entry's offset is not reduced; a file is below 2 GB, so a section whose first chunk can be read does not wrap.
- NuRing.Nic.Drain: `nu_input` copies the frame; the STREAMS side above it is not modelled.
- UsbTree.Stack.Run: the retry counters of `usb_hub_events` only choose which connect changes happen; any choice is covered. Hubs with more than 8 ports and devices with more than 8 interfaces are outside the model.
- UsbTree.Stack.Start: the root hub answers as a hub, as the host controller driver's own emulation does.
- SndRing.Sound.Tick: the frame interrupt's programming of the next block is not modelled; it decides only when positions count as gone back.
- MidiStream.Midi.Kick: `lbolt` and the sums of milliseconds are unbounded.
- NuRing.Nic.RdRing: frames arrive between the pieces of a read, not between the bytes of one.
- DevSlot.Linkage.Register: the second look after an allocation that slept is the only one modelled.
- DevSlot.Linkage.OpenEnd: the rows of `cdevsw` are not modelled beyond being empty or not, and a driver whose open changes the major is outside the model.
- UbXfer.Unit.Xfer: a unit is 64 KB short of 2 TB, so the 32-bit sum of a block number and a count does not wrap.
- Ufs.Image.Read: the inode's place in the image is given; `inode`'s group arithmetic, `dir` and `lookup` are not modelled. Pointers are not negative.
- Ikbd.Input.ProcessInputEvents: times, the screen saver and the delivery into the server are not modelled; events are a log.
- The X server's screen code, DLPI messages, release and build scripts, image patchers, `amx.c` tables: input and output plumbing or finite tables.
