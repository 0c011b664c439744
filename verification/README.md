# winter-lily: verified models of its hard cores

winter-lily runs LiliumOS programs on Linux. It has its own ELF loader with dynamic thread-local
storage, its own `OnceLock` and futex lock, and an emulated kernel interface. This project models the
parts of it that carry real invariants, and proves what they keep over every input and every run.

| file | models |
|---|---|
| `TlsMachine.dfy`, `Tls.dfy` | the TLS master block, per-thread catch-up, and the version test of `__tls_get_addr` |
| `OnceLock.dfy` | `OnceLock` and `LazyLock` as interleaved atomic steps |
| `EnvMap.dfy` | the environment as one byte arena with an index and a freelist |
| `MapPhdrs.dfy` | mapping ELF segments |
| `Utf8.dfy` | the chunked UTF-8 check |
| `Futex.dfy` | the futex word behind `Mutex` and `RwLock` |
| `LineReader.dfy`, `SearchList.dfy`, `HandleTable.dfy`, `Memcpy.dfy` | the buffered line reader, the library search list, the handle table, the copy loop |
| `Bits.dfy`, `Wrappers.dfy` | masks and shifts on numbers; `Option` |

How the models are built:

- Code that updates memory in place is a class or a method on arrays. Its `ensures` equates the new
  state with a specification function of the old one, and the laws are lemmas about that function.
- Concurrent code is a state machine. A step is one access that another thread can observe, together
  with what nobody can tell apart from it under a held lock. Any number of threads take part, and a run
  is any sequence of enabled steps. Atomics are taken to be sequentially consistent.
- The kernel's answers (`mprotect`, `mmap`, `read`) are parameters or arbitrary choices. So are
  initialiser outcomes and spurious compare-exchange failures.
- Integers are unbounded. Words appear as numbers with their masks (`And`, `Or`). The TLS code masks
  64-bit patterns as the source does, and `MaskIsFloor` shows what that computes, also on negative
  offsets.

## Where the code does not do what it is for

In each of these cases the model follows the code, a lemma gives the exact condition under which the
code is right, and where it helps another lemma gives a concrete input.

- `set_var` of `EnvMap` keeps the arena a representation of the map iff its freelist branch does not
  fire. That branch takes entries that are too short and writes to the wrong end of the arena.
  (`SetVarCorrectIff`, `RunFaithfulIff`, `ReuseExample`.) The documented format says an empty name is
  never a valid variable, since an emptied entry looks like one; these two results are about non-empty
  names. What a caller of `var` sees can still be right by luck; `SetVarObservedIff` says exactly when,
  for every name.
- `OnceLock` stores 0 after a break and then still drops the poison guard. Initialised stays
  initialised iff breaks and values cannot meet (`SafeIffNoBreakBesideValue`, `BreakLosesInit`).
  Initialisers exclude each other on either kind of lock, and `force` finds its closure, iff there are
  no breaks at all
  (`OneInitialiserIff`, `InitFnSafeIff`, `BreaksOverlap`). `get` breaks on an empty lock, so it poisons
  it (`PeekPoisons`).
- A late arrival at `OnceLock` can leave LOCK set for ever. A spinning call can still leave iff LOCK is
  not set beside INIT or POISONED (`SpinnerCanLeaveIff`, `SpinnerStrands`).
- `lock_shared` never reloads the word once it has seen the top bit. A request can still succeed iff it
  has not (`SharedRequestCanSucceedIff`, `SharedRequestStrands`).
- `check_utf8` has no end-of-input test and accepts one truncated last character (`AcceptedLanguage`).
- `map_phdrs` mishandles a segment that starts inside the previous one's last page (`SharedSegmentIff`,
  `SharedSegmentAlwaysIff`, `SharedSegmentExample`). Such a page ends up both writable and executable
  iff the last segment that starts in it clashes with the one that ends in it
  (`WritableExecutableIff`, `WritableExecutableExample`). The whole image is right iff a condition on
  the headers and the file holds (`AllLoadedIff`).
- `alloc_tls` stores the size before the version, and the version test takes no lock. In between an
  up-to-date thread has the sizes of the last completed load, not the master's
  (`VersionsDecideSizes`, `SizeWindowExample`); no module returned so far is missed
  (`FastPathSeesModule`).
- `alloc_tls` moves the cursor before asking the kernel. After a refusal a module is inside `load_size`
  iff what was granted since then makes up for it, and pages can be skipped (`ModuleCoveredIff`,
  `MasterPagesMappedIff`, `RefusalExample`).
- `alloc_tls` protects too little above an executable's module whose padding fills a page
  (`DynPagesMappedIff`, `WidePadExample`). This does not happen for alignments up to 4096
  (`PageAlignedIsMapped`).
- A second executable replaces `dyn_size` (`SecondExecutableIff`, `SecondExecutableExample`).
- `read_line_static` loses bytes of over-long and unterminated lines (`ReadAll`).
- `__memcpy_explicit` drops the last byte of 16 bytes and of lengths congruent to 8 modulo 16
  (`MemcpyExplicit`).
- `insert_handle` miscounts a handle of type zero (`InsertKeepsCountIff`).

## Model

| member | source | states |
|---|---|---|
| `TlsMachine.StepKeepsInv` | wl-ld-lilium/src/loader.rs:242-403 | every step of the TLS machine (thread creation, load section, the two halves of `alloc_tls`, `load_tls`, the three parts of `update_tls`, a thread's own write) keeps the joint invariant of master, modules, threads and accessible pages |
| `TlsMachine.AllocInTwoSteps` | wl-ld-lilium/src/loader.rs:265-277 | the size step and the version step together do what `AfterAlloc` says |
| `TlsMachine.RunKeepsInv` | wl-ld-lilium/src/loader.rs:242-403 | the invariant holds after every run, for any number of threads and modules and any interleaving |
| `TlsMachine.ThreadsAgree` | wl-ld-lilium/src/loader.rs:341-383 | in every reachable state each byte of a thread's range [-dyn_size, load_size) beyond the TCB that the thread has not written equals the master's byte |
| `TlsMachine.VersionsDecideSizes` | wl-ld-lilium/src/iface.rs:24-32 | a thread's version and sizes never exceed the master's; equal versions mean that the thread has the sizes of the last completed load, also in the middle of another one; these are the master's own iff no size store that adds anything waits for its version store |
| `TlsMachine.SizeWindowExample` | wl-ld-lilium/src/loader.rs:265-269 | between the two stores of `alloc_tls` the versions agree and the sizes differ |
| `TlsMachine.FastPathSeesModule` | wl-ld-lilium/src/iface.rs:21-32 | when the versions match, every module `alloc_tls` has returned belongs to a completed load, and a byte of it is in the thread's range iff the module is the executable's or the byte is below the load_size of the last completed load; then it is on an accessible page, outside the TCB, and holds the module's zero-filled image unless the thread wrote it |
| `TlsMachine.FillStores` | wl-ld-lilium/src/loader.rs:284-298 | `load_tls` changes the master exactly where the module is: to the image's bytes, as many as there are, and nothing else |
| `TlsMachine.LoadedBytesSeen` | wl-ld-lilium/src/iface.rs:21-32 | from `load_tls(module, data)` over any further run: a thread on the fast path reads `data[i]` at the module's `i`-th byte, and 0 past the data, if the byte is in its range and it has not written it |
| `TlsMachine.UnloadedBytesZero` | wl-ld-lilium/src/loader.rs:284-298 | a module `load_tls` was never called for reads as zeros |
| `TlsMachine.AllModulesReached` | wl-ld-lilium/src/iface.rs:21-32 | in a run without refusals that is every byte of every module returned so far |
| `TlsMachine.UpdateReachesFastPath` | wl-ld-lilium/src/loader.rs:341-383 | when an update ends, the thread's version and both sizes are the master's |
| `TlsMachine.OnlyOwnWrites` | wl-ld-lilium/src/loader.rs:348-382 | no step changes a byte in a thread's range beyond the TCB except that thread's own write to it, and the TCB's sizes and version change only in the thread's own update |
| `TlsMachine.WritesSurvive` | wl-ld-lilium/src/loader.rs:341-383 | over any further run, loads and updates included, a byte of a thread's range beyond the TCB keeps its value unless the thread writes that byte |
| `TlsMachine.PublishedBytesFixed` | wl-ld-lilium/src/ldso.rs:198-246 | a step never changes a master byte of a completed load, and published sizes only grow |
| `TlsMachine.PublishedForEver` | wl-ld-lilium/src/ldso.rs:198-246 | over any further run the master keeps every byte of the loads completed before it |
| `TlsMachine.AllocFacts` | wl-ld-lilium/src/loader.rs:242-278 | what one `alloc_tls` returns and changes: alignment, place relative to the cursor and the thread pointer, sizes, version, and nothing in the master on an error |
| `TlsMachine.AllocSucceedsIff` | wl-ld-lilium/src/loader.rs:242-278 | `alloc_tls` succeeds iff the kernel grants and the one aligned place from the cursor on (for an executable: the last one below the thread pointer) keeps the module inside the block, and returns that place; the cursor moves to the module's end whenever there is room, granted or not |
| `TlsMachine.ModulesDisjoint` | wl-ld-lilium/src/loader.rs:242-278 | in every run module ranges are pairwise disjoint, aligned as asked, outside the TCB and inside half the block |
| `TlsMachine.CursorConserved` | wl-ld-lilium/src/loader.rs:242-278 | the cursor equals the master's load_size plus exactly what refused allocations had advanced it |
| `TlsMachine.ModulesStay` | wl-ld-lilium/src/loader.rs:242-278 | over any further run a module keeps its place, size and alignment |
| `TlsMachine.ModuleCoveredIff` | wl-ld-lilium/src/loader.rs:254-270 | a new module lies within load_size, at any later time, iff the allocations granted since then have advanced load_size by at least what earlier refused ones had advanced the cursor |
| `TlsMachine.RefusalExample` | wl-ld-lilium/src/loader.rs:245-264 | a refused allocation and the same one granted: the module lies wholly outside load_size, and a page below load_size is inaccessible |
| `TlsMachine.ThreadPagesMapped` | wl-ld-lilium/src/loader.rs:348-380 | every page of a thread's range has been made accessible |
| `TlsMachine.ModuleBytesMapped` | wl-ld-lilium/src/loader.rs:258-264 | in every run, refusals or not, every byte of every module is on an accessible page of the master, as `load_tls` needs |
| `TlsMachine.DynPagesMappedIff` | wl-ld-lilium/src/loader.rs:254-264 | in every run the master's range below the thread pointer is accessible iff no executable's module has a page or more between its end and the thread pointer |
| `TlsMachine.PageLostIff` | wl-ld-lilium/src/loader.rs:243-264 | in every run a page below the cursor, past the first, is inaccessible iff all its bytes below the cursor lie in refused allocations and no empty module was put inside it |
| `TlsMachine.MasterPagesMappedIff` | wl-ld-lilium/src/loader.rs:258-264 | in every run every page of the master's range is accessible iff no executable's padding fills a page and no page below load_size fell to refused allocations in that sense |
| `TlsMachine.PageAlignedIsMapped` | wl-ld-lilium/src/loader.rs:258-264 | so it is in every run without refusals whose executables ask for alignments up to 4096, for all sizes |
| `TlsMachine.WidePadExample` | wl-ld-lilium/src/loader.rs:254-264 | one byte of executable TLS aligned to 8192 or more leaves a page of the range inaccessible |
| `TlsMachine.PadBelowAlignment` | wl-ld-lilium/src/loader.rs:254-258 | in every run an executable's module ends less than its alignment below the thread pointer |
| `TlsMachine.SecondExecutableIff` | wl-ld-lilium/src/loader.rs:271-276 | after `alloc_tls` and `load_tls` for a second executable, a thread that had caught up with the first is right again after its update iff the second takes at least as much room and its image agrees with the first where they overlap |
| `TlsMachine.SecondExecutableExample` | wl-ld-lilium/src/loader.rs:271-276 | two executables of eight bytes: the thread reports the current version and does not have the second's image |
| `Tls.StaticCopyMapped` | wl-ld-lilium/src/loader.rs:348-363 | the upper half of the update leaves the whole new range accessible, for all sizes |
| `Tls.DynCopyMapped` | wl-ld-lilium/src/loader.rs:365-380 | the same for the half below the thread pointer |
| `Tls.Region.CopyFrom` | wl-ld-lilium/src/loader.rs:359-361 | exactly the bytes of the interval are taken from the other block; only accessible pages are touched |
| `Tls.Region.UpdateStatic` | wl-ld-lilium/src/loader.rs:348-363 | in place, the thread's block becomes `CopyStatic` of it and the master |
| `Tls.Region.UpdateDyn` | wl-ld-lilium/src/loader.rs:365-380 | in place, the thread's block becomes `CopyDyn` of it and the master |
| `Tls.Region.UpdateTls` | wl-ld-lilium/src/loader.rs:341-383 | `update_tls` turns the block into `Update` of it and the master, touches no inaccessible page and leaves its whole range accessible |
| `Tls.Region.constructor` | wl-ld-lilium/src/loader.rs:385-393 | a fresh block has an empty range above the TCB, version 0 and zero bytes |
| `Tls.FdLoader.AllocTls` | wl-ld-lilium/src/loader.rs:242-278 | `alloc_tls`, in place and with the source's masks on 64-bit patterns, is `AfterAlloc`, which rounds and aligns, for every size, every power-of-two alignment of a word and every kernel answer |
| `Tls.FdLoader.Protect` | wl-ld-lilium/src/loader.rs:258-277 | its second half: pages, sizes and version |
| `Bits.MaskSigned` | wl-ld-lilium/src/loader.rs:255-261 | masking the 64-bit pattern of an `isize` rounds it down |
| `Bits.MaskUnsigned` | wl-ld-lilium/src/loader.rs:246 | masking a `usize` rounds it down |
| `Tls.FdLoader.LoadTls` | wl-ld-lilium/src/loader.rs:284-298 | `load_tls` stores exactly the image's bytes at the module's offset |
| `Bits.MaskIsFloor` | wl-ld-lilium/src/loader.rs:246-261 | on 64-bit two's complement, masking with the complement of a power of two minus one rounds down to its multiple, for negative values too |
| `OnceLock.StepKeepsInv` | wl-helpers/src/lib.rs:132-173 | every step of `try_get_or_init`, a panicking initialiser included, keeps the invariant of word, cell and calls |
| `OnceLock.RunKeepsInv` | wl-helpers/src/lib.rs:132-173 | the invariant holds after every run without breaks |
| `OnceLock.FlagsAbsorbing` | wl-helpers/src/lib.rs:60-66 | INIT and POISONED are absorbing, and an initialised cell keeps its value for the rest of the run |
| `OnceLock.OneWriterOneValue` | wl-helpers/src/lib.rs:145-167 | in every run one call at most is between acquisition and publication, the cell is written at most once, INIT and POISONED exclude each other, and no reference is out while the cell is being written |
| `OnceLock.ReferencesStayValid` | wl-helpers/src/lib.rs:139-166 | every returned reference sees the one stored value, then and after any further run |
| `OnceLock.InitialisedReturns` | wl-helpers/src/lib.rs:139-141 | in every reachable initialised state a call that begins now returns the stored value by its first access, whatever kind of call it is, and changes nothing |
| `OnceLock.PoisonedPanics` | wl-helpers/src/lib.rs:77-81 | in every reachable poisoned state it panics by its second access, and changes nothing |
| `OnceLock.PanicsOnlyIfPoisoned` | wl-helpers/src/lib.rs:77-81 | in a run without breaks a call has panicked only if the lock is poisoned |
| `OnceLock.TakenLockDecides` | wl-helpers/src/lib.rs:151-155 | a call that has taken the lock, left alone, panics on a poisoned lock, returns the stored value on an initialised one, and otherwise goes on to its initialiser |
| `OnceLock.InitialiserEntered` | wl-helpers/src/lib.rs:157-159 | the initialiser is then entered, `force` having taken the closure |
| `OnceLock.ValueEndsCall` | wl-helpers/src/lib.rs:160-167 | an initialiser's value is stored, published and returned |
| `OnceLock.PanicEndsCall` | wl-helpers/src/lib.rs:60-66 | an initialiser's panic poisons the lock and goes on |
| `OnceLock.SetReportsOwnership` | wl-helpers/src/lib.rs:228-237 | `set` gives nothing back exactly when this call wrote the cell, which then holds the caller's value; otherwise it gives the value back; no two calls both report success |
| `OnceLock.InitFnTakenOnce` | wl-helpers/src/lib.rs:279-288 | in a run without breaks `LazyLock::force` takes the closure at most once, and the `expect` never fails |
| `OnceLock.InitFnSafeIff` | wl-helpers/src/lib.rs:270-288 | for a set of initialiser outcomes that holds in every run iff the set does not hold a break, as `LazyLock::get` makes one |
| `OnceLock.OneInitialiserIff` | wl-helpers/src/lib.rs:145-172 | for a `OnceLock` and for a `LazyLock`, with the calls each offers, and a set of initialiser outcomes: no run has two initialisers running at once iff the set does not hold a break |
| `OnceLock.BreaksOverlap` | wl-helpers/src/lib.rs:145-172 | concrete runs for either kind of lock: two breaking `get` calls let a third call initialise without the lock, and a fourth one runs its initialiser beside it or finds the closure gone |
| `OnceLock.SpinnerStuck` | wl-helpers/src/lib.rs:145-150 | once a late arrival has set LOCK beside INIT or POISONED, a spinning call spins in every continuation, breaks included |
| `OnceLock.SpinnerCanLeaveIff` | wl-helpers/src/lib.rs:145-150 | in every state a break-free run reaches, some continuation takes a spinning call out of its loop iff LOCK is not set beside INIT or POISONED |
| `OnceLock.HolderReleases` | wl-helpers/src/lib.rs:151-172 | a call in the critical section, left to run alone, clears LOCK and moves nobody else |
| `OnceLock.SpinnerStrands` | wl-helpers/src/lib.rs:143-150 | a run of three calls from a fresh lock, without breaks or panics, that leaves one of them spinning for ever on an initialised lock |
| `OnceLock.SafeIffNoBreakBesideValue` | wl-helpers/src/lib.rs:157-172 | for either kind of lock and a set of initialiser outcomes, no run loses INIT iff the set does not hold both a break and a value |
| `OnceLock.BreakLosesInit` | wl-helpers/src/lib.rs:168-171 | a concrete run, for either kind of lock, in which the late poison guard of a `get` wipes out INIT |
| `OnceLock.PeekPoisons` | wl-helpers/src/lib.rs:239-241 | a `get` on an empty unlocked lock, running alone, leaves it poisoned |
| `Futex.StepKeepsInv` | wl-helpers/src/sync.rs:18-128 | every atomic step of lock, try-lock, unlock and downgrade keeps: the word is the reader count plus 2^31 times the writer count, with at most one writer and no reader beside it |
| `Futex.WordCountsHolders` | wl-helpers/src/sync.rs:18-128 | the same in every state a run reaches, for any number of agents |
| `Futex.WriterExcludesAll` | wl-helpers/src/sync.rs:18-122 | in every run a writer excludes every other reader and writer, also across the wrap at 2^31 readers |
| `Futex.DowngradeLeavesOneReader` | wl-helpers/src/sync.rs:125-129 | `downgrade` leaves the caller as the only reader |
| `Futex.QueriesReport` | wl-helpers/src/sync.rs:82-89 | `is_locked` tells whether anybody holds the lock; `is_locked_exclusive` is true for a writer and for exactly 2^31 readers |
| `Futex.FullWordAdmitsNobody` | wl-helpers/src/sync.rs:49-65 | while the top bit is set no step admits a new holder, except the writer turning reader |
| `Futex.ExclusiveTakesIff` | wl-helpers/src/sync.rs:21-24 | a compare-exchange of `lock_exclusive` takes the lock iff the word is 0 and it does not fail spuriously; otherwise nothing changes |
| `Futex.TryExclusiveTakesIff` | wl-helpers/src/sync.rs:91-95 | `try_lock_exclusive` takes the lock iff the word is 0 |
| `Futex.LoneExclusive` | wl-helpers/src/sync.rs:18-42 | `lock_exclusive` on a free lock, left alone, holds it |
| `Futex.LoneTryShared` | wl-helpers/src/sync.rs:97-114 | `try_lock_shared`, left alone, becomes one more reader iff the top bit is clear, and else gives up and changes nothing |
| `Futex.LoneShared` | wl-helpers/src/sync.rs:44-80 | `lock_shared`, left alone with the top bit clear, becomes one more reader after at most two attempts |
| `Futex.SharedRequestStuck` | wl-helpers/src/sync.rs:44-80 | a `lock_shared` whose local copy has the top bit never moves again, in any continuation |
| `Futex.SharedRequestCanSucceedIff` | wl-helpers/src/sync.rs:44-80 | a waiting `lock_shared` can still succeed in some continuation iff its local copy lacks the top bit |
| `Futex.SharedRequestStrands` | wl-helpers/src/sync.rs:44-80 | a run of four steps from a fresh lock that ends with the lock free and a `lock_shared` that can never take it |
| `EnvMap.RustStringsQualify` | wl-impl/src/env.rs:36-38 | no byte of well-formed UTF-8 is a terminator, so names and values may be taken terminator-free |
| `EnvMap.PrefixRoundTrip` | wl-impl/src/env.rs:66 | the eight bytes of a length prefix read back as the length |
| `EnvMap.SetVarRefines` | wl-impl/src/env.rs:115-184 | on an arena that represents a map, `set_var` succeeds and leaves one that represents the updated map, by overwriting in place, by appending or by relocating, whenever the reuse branch does not fire |
| `EnvMap.RemoveVarRefines` | wl-impl/src/env.rs:108-113 | `remove_var` leaves an arena that represents the map without the name |
| `EnvMap.ReuseBreaks` | wl-impl/src/env.rs:136-166 | when the reuse branch fires for a non-empty name, `set_var` panics or leaves an arena that represents no map whatever |
| `EnvMap.SetVarCorrectIff` | wl-impl/src/env.rs:115-184 | `set_var` of a non-empty name leaves an arena that represents the updated map iff no entry on the freelist is short enough to be taken (or the old entry is long enough) |
| `EnvMap.RunFaithfulIff` | wl-impl/src/env.rs:108-184 | over a whole run of `set_var` and `remove_var` the arena represents at every point what a plain map would hold, iff the reuse branch is never reached |
| `EnvMap.FaithfulIffQuiet` | wl-impl/src/env.rs:108-184 | the same iff on the operations alone: no `set_var` that outgrows its name's entry, or has none, comes when an entry left behind by an earlier relocation is no longer than it needs |
| `EnvMap.SteadyIsQuiet` | wl-impl/src/env.rs:108-184 | so every run in which no `set_var` of a present name outgrows that name's entry is right, whatever it removes in between |
| `EnvMap.RemoveArmsNothing` | wl-impl/src/env.rs:108-113 | `remove_var` does not make the reuse branch fire, or stop firing, for any other name |
| `EnvMap.ReuseMovesEntry` | wl-impl/src/env.rs:145-153 | the reuse branch exchanges the free entry on the list for the old one of the name, or takes it off, and indexes the name to it |
| `EnvMap.RelocationArmsReuse` | wl-impl/src/env.rs:136-145 | with an empty freelist, relocating one name makes the reuse branch fire for every new name that needs at least as much room as the old entry |
| `EnvMap.ReuseExample` | wl-impl/src/env.rs:155-165 | two `set_var` calls on an environment of one variable, the second of which panics |
| `EnvMap.EnvMap.FromIter` | wl-impl/src/env.rs:50-80 | panics iff a name is duplicated or the capacity is exceeded; otherwise the arena represents exactly the map of the pairs, each entry just as long as its pair needs, with an empty freelist |
| `EnvMap.EnvMap.Var` | wl-impl/src/env.rs:94-106 | on any arena `var` answers `ReadVar`: the bytes behind the name up to the first 0xFF, none, or a panic |
| `EnvMap.VarReadsMap` | wl-impl/src/env.rs:94-106 | on an arena that represents a map that is the map's value, or none |
| `EnvMap.ReadVarIff` | wl-impl/src/env.rs:96-102 | on any arena `var` answers a given value iff that value and 0xFF lie behind the name |
| `EnvMap.SetVarObservedIff` | wl-impl/src/env.rs:115-184 | after `set_var` of any name on an arena that represents a map, `var` answers for every name as the updated map would iff the reuse branch does not fire, or the free entry is far enough into the arena, the value already lies behind it, and the misplaced store agrees with every other value it overlaps |
| `EnvMap.EnvMap.RemoveVar` | wl-impl/src/env.rs:108-113 | `remove_var`, in place, is `AfterRemove` |
| `EnvMap.EnvMap.SetVar` | wl-impl/src/env.rs:115-184 | `set_var`, in place with its freelist scan, is `AfterSet`, panics included |
| `EnvMap.EnvMap.Overwrite` | wl-impl/src/env.rs:126-133 | the new value and its terminator replace the bytes behind the name, and no others |
| `EnvMap.EnvMap.SearchFreelist` | wl-impl/src/env.rs:136-144 | the scan finds the first listed entry that is at most as long as needed |
| `EnvMap.EnvMap.StoreReused` | wl-impl/src/env.rs:144-166 | the reuse branch, in place, is `Reuse` |
| `EnvMap.EnvMap.AppendEntry` | wl-impl/src/env.rs:168-183 | the appending branch, in place, is `Append` |
| `EnvMap.MemChr` | wl-impl/src/env.rs:98 | the first position of the byte, or none if it does not occur |
| `EnvMap.Iter.Next` | wl-impl/src/env.rs:192-213 | at the start of an entry it yields that entry's pair (the empty pair for an emptied one) and moves to the next entry; at the end it yields nothing |
| `EnvMap.Iter.Drain` | wl-impl/src/env.rs:187-213 | iteration terminates with one pair per entry, in arena order |
| `EnvMap.EachPairYieldedOnce` | wl-impl/src/env.rs:187-213 | iterating a represented arena yields each pair of the map, and no non-empty name twice |
| `EnvMap.NothingElseYielded` | wl-impl/src/env.rs:187-213 | anything else yielded is one empty pair per emptied entry |
| `MapPhdrs.MapOneLoads` | wl-ld-lilium/src/loader.rs:71-156 | one segment that shares no page with its predecessor is loaded: its file bytes, then zeros; its pages writable iff PF_W, executable iff PF_X without PF_W; nothing outside its pages |
| `MapPhdrs.Undisturbed` | wl-ld-lilium/src/loader.rs:116-154 | what a segment has loaded, its protection, and the untouched state of one still to come survive any step confined to another's pages |
| `MapPhdrs.MapAllLoads` | wl-ld-lilium/src/loader.rs:61-160 | over any ascending list of page-disjoint congruent segments, all are loaded and protected at the end and nothing else has changed |
| `MapPhdrs.ImageIsRight` | wl-ld-lilium/src/loader.rs:61-160 | on the freshly reserved region the result is the image of the System V gABI, every page of a segment with file bytes is writable iff PF_W and executable iff PF_X without PF_W, and no page is both |
| `MapPhdrs.AllLoadedIff` | wl-ld-lilium/src/loader.rs:61-160 | on the reserved region, over any ascending list of congruent segments, shared pages included: the loop comes to its end with every segment loaded iff every segment that shares its first page has at most 4096 file bytes and those of its bytes that are not stored equal what the segment before leaves there, a condition on the headers and the file alone |
| `MapPhdrs.SharedSegmentIff` | wl-ld-lilium/src/loader.rs:83-106 | one segment that starts in its predecessor's last page is loaded iff it has at most 4096 file bytes and the memory past those that fit the page already is what it should be |
| `MapPhdrs.SharedSegmentAlwaysIff` | wl-ld-lilium/src/loader.rs:83-106 | such a segment is loaded whatever the memory held before iff it ends in the shared page and has no bss |
| `MapPhdrs.SharedSegmentExample` | wl-ld-lilium/src/loader.rs:83-106 | a text and a data segment in one page, whose bss byte keeps a leftover file byte |
| `MapPhdrs.WritableExecutableIff` | wl-ld-lilium/src/loader.rs:74-106 | over any ascending list of congruent segments mapped to the end, a page is both writable and executable iff it is shared and the last segment that starts in it clashes with the one that ends in it, a condition on the headers alone |
| `MapPhdrs.FinalProtection` | wl-ld-lilium/src/loader.rs:74-154 | the protection of every page, shared ones included: the last segment to set it decides, by its flags, on a shared page together with those of the segment that ends there; a page nobody sets stays readable and writable |
| `MapPhdrs.WritableExecutableExample` | wl-ld-lilium/src/loader.rs:74-106 | the same two segments leave their page writable and executable |
| `MapPhdrs.FailsIffRefused` | wl-ld-lilium/src/loader.rs:61-160 | for any kernel answers, `map_phdrs` fails iff the kernel refuses a call made for some segment whose predecessors are all mapped; otherwise it ends as `MapAll` |
| `MapPhdrs.RefusalSays` | wl-ld-lilium/src/loader.rs:83-154 | the errors by the kernel's answers: none if all are granted; ReadError iff the seek or the reads of a shared page fail once the page is writable; LoadError iff another call that is made is refused |
| `MapPhdrs.ReadsFillIff` | wl-ld-lilium/src/loader.rs:178-193 | the reads fill a slice iff positive counts at the beginning of the answers add up to its length |
| `MapPhdrs.UnfinishedIff` | wl-ld-lilium/src/loader.rs:108-111 | when a segment reaches the unfinished branch, by its header |
| `MapPhdrs.Region.ReadOffset` | wl-ld-lilium/src/loader.rs:162-195 | succeeds iff the seek and the single reads, whatever their sizes, fill the slice; then exactly the requested file bytes have arrived |
| `MapPhdrs.Region.MapShared` | wl-ld-lilium/src/loader.rs:83-106 | the shared-page branch, in place, is `IntoShared`, writes only to writable pages, and ends in the error of the first refused call |
| `MapPhdrs.Region.MapFileSegment` | wl-ld-lilium/src/loader.rs:108-154 | mapping, clearing and protecting one segment, in place, is `MapAt`, and clears only writable pages; it fails iff `mmap` or `mprotect` does |
| `MapPhdrs.Region.MapPhdrs` | wl-ld-lilium/src/loader.rs:61-160 | the loop, in place, ends as `MapAllWith` says for the kernel's answers: the memory on success, which error otherwise, and when it reaches the unfinished branch |
| `Utf8.CheckUtf8` | wl-impl/src/helpers.rs:186-254 | Ok exactly when all bytes can be read and the string is well-formed by section 4 of RFC 3629, or well-formed up to one truncated last character; InvalidUtf8 exactly when the chunks that can be read are neither |
| `Utf8.ReachedIsLongest` | wl-impl/src/helpers.rs:195-201 | those chunks are the longest readable part of the string that ends with it or at a multiple of 32 |
| `Utf8.CheckChunk` | wl-impl/src/helpers.rs:203-242 | one 32-byte chunk leaves the state a byte-at-a-time decoder has at that point, so the chunking never changes the verdict |
| `Utf8.Accept` | wl-impl/src/helpers.rs:204-241 | the match on one byte is one step of the reference decoder |
| `Utf8.WellFormedIffBetween` | wl-impl/src/helpers.rs:203-242 | a string is in the RFC 3629 grammar iff the decoder accepts it and ends between characters |
| `Utf8.TruncatedIffInside` | wl-impl/src/helpers.rs:203-242 | the decoder accepts and ends inside a character iff the string is well-formed up to one truncated character |
| `Utf8.AcceptedLanguage` | wl-impl/src/helpers.rs:186-254 | the accepted strings are exactly those two kinds, and no string is of both |
| `Utf8.TwoByteForms` | wl-impl/src/helpers.rs:210-218 | the completion test passes exactly the grammar's two-byte characters |
| `Utf8.ThreeByteForms` | wl-impl/src/helpers.rs:210-218 | the same for three bytes: no overlong form, no surrogate |
| `Utf8.FourByteForms` | wl-impl/src/helpers.rs:210-218 | the same for four bytes: no overlong form, nothing above 0x10FFFF |
| `Utf8.TruncationIsAccepted` | wl-impl/src/helpers.rs:244-253 | a concrete string that is accepted and is not UTF-8 |
| `LineReader.BufFdReader.FillBuf` | wl-ld-lilium/src/io.rs:118-129 | loses no byte of the stream, leaves the buffer empty only at its end, reads only if the buffer is empty, and fails iff the kernel's answer to that read is an error |
| `LineReader.BufFdReader.Consume` | wl-ld-lilium/src/io.rs:131-136 | takes exactly that many bytes off the stream |
| `LineReader.BufFdReader.ReadLine` | wl-ld-lilium/src/io.rs:42-71 | a terminated line that fits is returned and taken off with its newline, however the reads are cut; otherwise the stream is dropped, or the buffer is filled and at most one byte lost; an error iff one of the kernel's answers is one |
| `LineReader.CopyToSliceHead` | wl-ld-lilium/src/helpers.rs:197-206 | the source lands at the head of the slice and nothing else changes |
| `LineReader.ReadAll` | wl-ld-lilium/src/ldso.rs:36-44 | reading until the end gives newline-free lines that make up the stream iff every line of it is terminated and fits; it fails iff one of the kernel's answers is an error |
| `LineReader.NextLine` | wl-ld-lilium/src/ldso.rs:40-44 | one round keeps the lines read so far on the stream, or off it for good |
| `LineReader.OnlyOneSplit` | wl-ld-lilium/src/io.rs:42-71 | newline-free lines that make up a stream are exactly its lines, in order |
| `SearchList.AppendEntry` | wl-ld-lilium/src/ldso.rs:69-73 | resizing and copying over the head appends the entry and one separator |
| `SearchList.Build` | wl-ld-lilium/src/ldso.rs:87-94 | the loop builds the entries joined, each followed by 0x1E |
| `SearchList.SplitAscii.Next` | wl-ld-lilium/src/helpers.rs:331-350 | yields the first piece and leaves what the other pieces come from; nothing at the end |
| `SearchList.SplitAscii.Collect` | wl-ld-lilium/src/ldso.rs:141 | iterating yields all pieces |
| `SearchList.RoundTripIff` | wl-ld-lilium/src/helpers.rs:327-351 | reading the built list back gives the original entries, empty ones included, iff no entry contains 0x1E |
| `SearchList.SplitMakesUp` | wl-ld-lilium/src/helpers.rs:331-350 | the pieces of any string hold no separator, and each followed by one they make up the string, up to the last one's separator |
| `SearchList.OnlySplit` | wl-ld-lilium/src/helpers.rs:331-350 | separator-free pieces that make up a string in that way are its pieces |
| `HandleTable.InsertFailsIffFull` | wl-impl/src/handle_base.rs:48-67 | an insert fails exactly when all 512 slots are occupied, whatever the hint, and otherwise fills a free slot and no other |
| `HandleTable.InsertTakesFirstFree` | wl-impl/src/handle_base.rs:49-59 | an insert takes the first free slot from the last one taken on, going round, and the next search starts there |
| `HandleTable.InsertKeepsCountIff` | wl-impl/src/handle_base.rs:55-61 | the live count is still right iff the insert failed or the handle's type is not zero |
| `HandleTable.CloseKeepsCount` | wl-impl/src/handle_base.rs:70-84 | closing a live handle keeps the count right |
| `HandleTable.CloseClears` | wl-impl/src/handle_base.rs:71-83 | the closed slot is all zeros; the other slots and the hint stay |
| `HandleTable.CountsOverRuns` | wl-impl/src/handle_base.rs:48-84 | over any run of inserts and closes the count is the number of occupied slots |
| `HandleTable.HandleStaysPut` | wl-impl/src/handle_base.rs:48-98 | a live handle keeps its contents through any run that does not close it |
| `HandleTable.HandleArray.InsertHandle` | wl-impl/src/handle_base.rs:48-67 | the rotating scan, in place, is `AfterInsert` |
| `HandleTable.HandleArray.Close` | wl-impl/src/handle_base.rs:70-84 | `close`, in place, is `AfterClose`, and closes the descriptors the handle holds, truncated to 32 bits |
| `HandleTable.ClosesHeldIff` | wl-impl/src/handle_base.rs:72-81 | the descriptor closed is the one held iff that fits 32 bits |
| `HandleTable.HandleArray.TryDeref` | wl-impl/src/handle_base.rs:85-98 | succeeds exactly on the address of an occupied slot, and yields that slot |
| `Memcpy.MemcpyExplicit` | wl-impl/src/libc/libc_defs.rs:75-123 | between ranges that do not overlap, all bytes arrive unless the length is 16 or congruent to 8 modulo 16; then all but the last, which keeps its old value; nothing else changes; so the copy is complete iff the length is none of those or the last byte was already right |
| `Memcpy.Blocks` | wl-impl/src/libc/libc_defs.rs:83-90 | the 16-byte loop copies all but the remainder modulo 16 |
| `Memcpy.Tail` | wl-impl/src/libc/libc_defs.rs:91-121 | the cascade copies all of the last bytes, except one when 8 or 16 are left |

## Left out

- Memory ordering: atomic steps are sequentially consistent, so missing fences are not seen.
- Liveness and parking: spinning, yielding and futex waits are no steps; the stuck states above are the only statements about progress.
- The exclusive-reference operations of `OnceLock` (`take`, `get_mut`, `force_unlock`, the `_mut` initialisers) and dropping; they are sequential and short.
- The resolver behind `load_subsystem` (`ld_so_impl`) is not part of this model: it is taken to call `alloc_tls` once per module and then `load_tls` with at most that size, with LOAD_LOCK held for writing. The executable's own load in entry.rs runs before any other thread exists, and is modelled as such a section too.
- At most one executable module with a non-empty range below the thread pointer is loaded in a run of the TLS machine; `SecondExecutableIff` says what a second one would do.
- Overflow of `usize` in `alloc_tls` and `map_phdrs`: sums are unbounded, and a request that leaves the block is a refusal.
- Tls.FdLoader.AllocTls: refuses an executable's size above 2^63 up front, where the source's cast to `isize` wraps around.
- EnvMap.EnvMap.Var: does not model the UTF-8 check of the bytes it returns, which cannot fail on a represented arena of Rust strings.
- The TCB's self pointer, `fs` register set-up and register saving around the slow path of `__tls_get_addr`.
- Which page protections other than those of the modelled block exist: `mmap` and `mprotect` act on whole pages of the block, a mapping's last page is zero past the end of the file, and unaligned or foreign addresses do not occur.
- Segments whose address and file offset are not congruent modulo 4096, which the gABI excludes: only when they reach the unfinished branch is stated.
- MapPhdrs.Region.MapPhdrs: asks for ascending segments inside the reserved region and the file, as the gABI and `alloc_base_addr` provide them; `alloc_base_addr` itself is not modelled. On a refusal it says nothing about the memory left behind, since the load is abandoned.
- The state of an `EnvMap`, a handle table or a reader after a panic or a read error.
- EnvMap.SetVarCorrectIff: does not cover the empty name, which the documented format excludes; capacities near `isize::MAX` are a panic.
- `Extend` for `EnvMap`, which is a loop of `set_var`; the hash map behind the index is a plain map.
- LineReader.ReadAll: asks for a non-empty line buffer, because with an empty one the source returns empty lines for ever; directives and nested files in the configuration are not modelled.
- `read`, `read_exact` and seeking of `BufFdReader`; `SplitAscii` from the back, `split_once` and its 7-bit check of the separator; the path buffer of `open_module`.
- Memcpy.MemcpyExplicit: asks for ranges that do not overlap, as `memcpy` does of its callers.
- System calls, process and socket handling, signal and entry code, hashing, CPUID and UUID tables, error mapping.
