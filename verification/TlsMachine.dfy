/**
  Loading modules and catching up, as interleaved steps of any number of threads.  A load runs with
  `LOAD_LOCK` held for writing and `update_tls` with it held for reading; a thread's own accesses,
  and the version test of `__tls_get_addr`, take no lock.  The version test can fall between the size
  store and the version store of `alloc_tls`, so these are two steps.
 */
module TlsMachine {
  import opened Bits
  import opened Tls
  import opened Wrappers

  type Tid = nat

  /** Where a thread stands in `update_tls`. */
  datatype Phase = Running | Locked | StaticDone | DynDone

  /** A thread's block; `wrote` (history) collects the offsets the thread has written itself. */
  datatype Thread = Thread(block: Block, phase: Phase, wrote: set<int>)

  /**
    A module given out by `alloc_tls`: where it was put, the cursor it was put behind (its own place
    for the executable), and the initial image once `load_tls` has been called for it.
    */
  datatype Module = Module(off: int, size: nat, align: nat, exec: bool, from: int, image: Option<seq<byte>>)

  /** What the master looked like when the write lock was taken. */
  datatype Section = Section(load: int, dyn: int, version: nat, count: nat)

  datatype State = State(
    loader: Loader,
    threads: map<Tid, Thread>,
    section: Option<Section>,
    modules: seq<Module>,
    pending: Option<int>,  // `alloc_tls` has stored a size, grown by this much, and not yet the version
    lost: int,             // history: cursor advance of allocations the kernel then refused
    refused: seq<Gap>)     // history: where the cursor stood before and after each of them

  datatype Gap = Gap(lo: int, hi: int)

  const INIT := State(Loader(TCB, Fresh()), map[], None, [], None, 0, [])

  datatype Step =
    | Spawn(t: Tid)
    | BeginLoad
    | Alloc(size: nat, align: nat, exec: bool, kernel: bool)  // `alloc_tls` up to the size store
    | StoreVersion                                            // ... and its version store
    | Fill(k: nat, data: seq<byte>)
    | EndLoad
    | BeginUpdate(t: Tid)
    | UpdateStatic(t: Tid)
    | UpdateDyn(t: Tid)
    | EndUpdate(t: Tid)
    | UserWrite(t: Tid, off: int, b: byte)

  function Master(s: State): Block { s.loader.master }

  /** Sizes and version of the last completed load: all a thread can have seen. */
  function Stable(s: State): Section {
    match s.section
    case Some(sec) => sec
    case None => Section(Master(s).loadSize, Master(s).dynSize, Master(s).version, |s.modules|)
  }

  predicate In(s: State, t: Tid, phase: Phase) { t in s.threads && s.threads[t].phase == phase }

  predicate Enabled(s: State, step: Step) {
    match step
    case Spawn(t) => t !in s.threads
    case BeginLoad => s.section.None? && forall t :: t in s.threads ==> s.threads[t].phase.Running?
    case Alloc(_, align, exec, _) =>
      s.section.Some? && s.pending.None? && IsPow2(align) && (exec ==> Master(s).dynSize == 0)
    case StoreVersion => s.pending.Some?
    case Fill(k, data) =>
      && s.section.Some? && s.pending.None? && s.section.value.count <= k < |s.modules|
      && s.modules[k].image.None? && |data| <= s.modules[k].size
      && BlockOk(Master(s)) && -HALF <= s.modules[k].off && s.modules[k].off + |data| <= HALF
    case EndLoad => s.section.Some? && s.pending.None?
    case BeginUpdate(t) => In(s, t, Running) && s.section.None?
    case UpdateStatic(t) => In(s, t, Locked) && BlockOk(s.threads[t].block) && BlockOk(Master(s))
    case UpdateDyn(t) => In(s, t, StaticDone) && BlockOk(s.threads[t].block) && BlockOk(Master(s))
    case EndUpdate(t) => In(s, t, DynDone)
    case UserWrite(t, off, _) =>
      && In(s, t, Running) && BlockOk(s.threads[t].block)
      && InRange(s.threads[t].block, off) && !InTcb(off)
  }

  function WithThread(s: State, t: Tid, th: Thread): State { s.(threads := s.threads[t := th]) }

  function AfterAllocStep(s: State, size: nat, align: nat, exec: bool, kernel: bool): State
    requires align > 0
  {
    var (loader, r) := AfterAlloc(s.loader, size, align, exec, kernel);
    match r
    case AllocError =>
      s.(loader := loader,
         lost := s.lost + (loader.tlsOff - s.loader.tlsOff),
         refused := s.refused + [Gap(s.loader.tlsOff, loader.tlsOff)])
    case Allocated(off) =>
      s.(loader := WithVersion(loader, Master(s).version),
         modules := s.modules + [Module(off, size, align, exec, if exec then off else s.loader.tlsOff, None)],
         pending := Some(Extent(loader.master) - Extent(Master(s))))
  }

  function Extent(m: Block): int { m.loadSize + m.dynSize }

  function WithVersion(l: Loader, version: nat): Loader { l.(master := l.master.(version := version)) }

  /** The two steps of a granted `alloc_tls` are what the whole of it does. */
  lemma AllocInTwoSteps(s: State, size: nat, align: nat, exec: bool)
    requires Enabled(s, Alloc(size, align, exec, true)) && align > 0
    requires AfterAlloc(s.loader, size, align, exec, true).1.Allocated?
    ensures var s1 := Apply(s, Alloc(size, align, exec, true));
            && Enabled(s1, StoreVersion)
            && Apply(s1, StoreVersion).loader == AfterAlloc(s.loader, size, align, exec, true).0
  {
  }

  lemma Pow2Positive(a: nat)
    requires IsPow2(a)
    ensures a > 0
  {
  }

  function Apply(s: State, step: Step): State
    requires Enabled(s, step)
  {
    match step
    case Spawn(t) => WithThread(s, t, Thread(Fresh(), Running, {}))
    case BeginLoad => s.(section := Some(Stable(s)))
    case Alloc(size, align, exec, kernel) => AfterAllocStep(s, size, align, exec, kernel)
    case StoreVersion => s.(loader := WithVersion(s.loader, Master(s).version + 1), pending := None)
    case Fill(k, data) =>
      s.(loader := s.loader.(master := AfterLoad(Master(s), s.modules[k].off, data)),
         modules := s.modules[k := s.modules[k].(image := Some(data))])
    case EndLoad => s.(section := None)
    case BeginUpdate(t) => WithThread(s, t, s.threads[t].(phase := Locked))
    case UpdateStatic(t) =>
      WithThread(s, t, s.threads[t].(phase := StaticDone, block := CopyStatic(s.threads[t].block, Master(s))))
    case UpdateDyn(t) =>
      WithThread(s, t, s.threads[t].(phase := DynDone, block := CopyDyn(s.threads[t].block, Master(s))))
    case EndUpdate(t) =>
      WithThread(s, t, s.threads[t].(phase := Running, block := CopyVersion(s.threads[t].block, Master(s))))
    case UserWrite(t, off, b) =>
      var th := s.threads[t];
      WithThread(s, t, th.(block := th.block.(bytes := th.block.bytes[off + HALF := b]), wrote := th.wrote + {off}))
  }

  ghost predicate CanRun(s: State, steps: seq<Step>)
    decreases |steps|
  {
    steps == [] || (Enabled(s, steps[0]) && CanRun(Apply(s, steps[0]), steps[1..]))
  }

  ghost function Run(s: State, steps: seq<Step>): State
    requires CanRun(s, steps)
    decreases |steps|
  {
    if steps == [] then s else Run(Apply(s, steps[0]), steps[1..])
  }

  // ---------------------------------------------------------------- the invariant

  /** The cursor, the sizes, and the untouched rest of the master block. */
  ghost predicate MasterOk(s: State) {
    var m := Master(s);
    && BlockOk(m) && 0 <= s.lost && s.loader.tlsOff == m.loadSize + s.lost <= HALF
    && (m.version == 0 && s.pending.None? ==> m.loadSize == TCB && m.dynSize == 0)
    && forall off :: Offset(off) && (off >= s.loader.tlsOff || off < -m.dynSize) ==> At(m, off) == 0
  }

  /** The alignment padding between an executable's module and the thread pointer. */
  function Pad(d: Module): int { -d.off - d.size }

  ghost predicate Placed(s: State, d: Module) {
    && 0 < d.align && d.off % d.align == 0 && (d.image.Some? ==> |d.image.value| <= d.size)
    && (if d.exec then -Master(s).dynSize <= d.off && d.off + d.size <= 0 && Pad(d) < d.align && d.from == d.off
        else TCB <= d.from <= d.off && d.off + d.size <= s.loader.tlsOff)
  }

  /** The initial image of a module, zero-filled to its size. */
  function ImageByte(d: Module, i: nat): byte {
    if d.image.Some? && i < |d.image.value| then d.image.value[i] else 0
  }

  ghost predicate ImageStored(m: Block, d: Module)
    requires |m.bytes| == BLOCK && -HALF <= d.off && d.off + d.size <= HALF
  {
    forall off :: d.off <= off < d.off + d.size ==> At(m, off) == ImageByte(d, off - d.off)
  }

  ghost predicate Apart(c: Module, d: Module) { c.off + c.size <= d.off || d.off + d.size <= c.off }

  ghost predicate ModulesOk(s: State) {
    && MasterOk(s)
    && (forall k :: 0 <= k < |s.modules| ==> Placed(s, s.modules[k]) && ImageStored(Master(s), s.modules[k]))
    && (forall j, k :: 0 <= j < k < |s.modules| ==> Apart(s.modules[j], s.modules[k]))
  }

  /** What a load in progress has added to the last completed one. */
  ghost predicate SectionOk(s: State) {
    && (s.pending.Some? ==> s.section.Some?)
    && (s.section.Some? ==> Added(s, s.section.value) && forall t :: t in s.threads ==> s.threads[t].phase.Running?)
  }

  ghost predicate Added(s: State, sec: Section) {
    var m := Master(s);
    && TCB <= sec.load <= m.loadSize && 0 <= sec.dyn <= m.dynSize && sec.version <= m.version
    && sec.count <= |s.modules|
    && (sec.version == m.version ==>
          && Extent(m) == sec.load + sec.dyn + (if s.pending.Some? then s.pending.value else 0)
          && |s.modules| == sec.count + (if s.pending.Some? then 1 else 0))
    && (sec.version == 0 ==> sec.load == TCB && sec.dyn == 0)
    && (forall k :: 0 <= k < |s.modules| ==> OldOrNew(s, sec, k))
  }

  /** Modules of earlier loads lie in the earlier range, as far as nothing was refused; new ones outside it. */
  predicate OldOrNew(s: State, sec: Section, k: nat)
    requires k < |s.modules|
  {
    var d := s.modules[k];
    if k < sec.count then if d.exec then -sec.dyn <= d.off else s.lost == 0 ==> d.off + d.size <= sec.load
    else if d.exec then sec.dyn == 0 else d.off >= sec.load
  }

  /** Every byte of the thread's range that it has not written is the master's. */
  ghost predicate Agrees(th: Thread, m: Block)
    requires BlockOk(th.block) && BlockOk(m)
  {
    forall off :: InRange(th.block, off) && !InTcb(off) && off !in th.wrote ==> At(th.block, off) == At(m, off)
  }

  ghost predicate ThreadOk(s: State, th: Thread) {
    var b := th.block;
    var seen := Stable(s);
    && BlockOk(b) && BlockOk(Master(s))
    && b.loadSize <= seen.load && b.dynSize <= seen.dyn && b.version <= seen.version
    && (b.version == seen.version ==> b.loadSize == seen.load && b.dynSize == seen.dyn)
    && Agrees(th, Master(s))
    && (forall off :: off in th.wrote ==> InRange(b, off) && !InTcb(off))
    && RangeMapped(b, -b.dynSize, b.loadSize)
    && (!th.phase.Running? ==> s.section.None?)
    && (th.phase.StaticDone? || th.phase.DynDone? ==> b.loadSize == Master(s).loadSize)
    && (th.phase.DynDone? ==> b.dynSize == Master(s).dynSize)
  }

  /** The `mprotect` call made for a module covers page `p`. */
  predicate OnPage(d: Module, p: int) { PageOf(d.from) <= p && PAGE * p < d.off + d.size }

  ghost predicate Touched(modules: seq<Module>, p: int) {
    exists k :: 0 <= k < |modules| && OnPage(modules[k], p)
  }

  /** At most one executable's module is not empty; it starts where the master's range does. */
  ghost predicate ExecOk(s: State) {
    && (forall k :: 0 <= k < |s.modules| && s.modules[k].exec ==>
          s.modules[k].off == -Master(s).dynSize || (s.modules[k].off == 0 && s.modules[k].size == 0))
    && (forall j, k :: 0 <= j < k < |s.modules| && s.modules[j].exec && s.modules[k].exec ==>
          s.modules[j].off == 0 && s.modules[j].size == 0)
    && (Master(s).dynSize > 0 ==> exists k :: 0 <= k < |s.modules| && IsDyn(s, s.modules[k]))
  }

  predicate IsDyn(s: State, d: Module) { d.exec && d.off == -Master(s).dynSize }

  /** Which pages of the master block are accessible. */
  ghost predicate PagesOk(s: State) {
    && (forall p :: p in Master(s).rw <==> p == 0 || Touched(s.modules, p))
    && (s.lost == 0 ==> RangeMapped(Master(s), 0, Master(s).loadSize))
    && ExecOk(s)
    && GapsOk(s)
  }

  /** A granted allocation took the cursor over offset `x`. */
  predicate Covers(d: Module, x: int) { !d.exec && d.from <= x < d.off + d.size }

  ghost predicate InGrant(modules: seq<Module>, x: int) {
    exists k :: 0 <= k < |modules| && Covers(modules[k], x)
  }

  predicate Spans(g: Gap, x: int) { g.lo <= x < g.hi }

  ghost predicate InGap(gaps: seq<Gap>, x: int) {
    exists i :: 0 <= i < |gaps| && Spans(gaps[i], x)
  }

  /** The cursor has gone over each offset in exactly one way: by a granted or by a refused allocation. */
  ghost predicate GapsOk(s: State) {
    && (forall i :: 0 <= i < |s.refused| ==> s.refused[i].hi <= s.loader.tlsOff)
    && (forall x :: TCB <= x < s.loader.tlsOff ==> (InGap(s.refused, x) <==> !InGrant(s.modules, x)))
  }

  ghost predicate Inv(s: State) {
    && ModulesOk(s)
    && SectionOk(s)
    && (forall t :: t in s.threads ==> ThreadOk(s, s.threads[t]))
    && PagesOk(s)
  }

  lemma InitInv()
    ensures Inv(INIT)
  {
  }

  // ---------------------------------------------------------------- loading

  /** What a successful allocation returns and leaves behind. */
  lemma AllocFacts(l: Loader, size: nat, align: nat, exec: bool, kernel: bool)
    requires align > 0 && BlockOk(l.master) && TCB <= l.tlsOff
    ensures var (l', r) := AfterAlloc(l, size, align, exec, kernel);
            && l'.master.bytes == l.master.bytes
            && (r.AllocError? ==> l'.master == l.master && l.tlsOff <= l'.tlsOff && (l'.tlsOff <= HALF || l' == l))
            && (r.Allocated? ==> l'.master.version == l.master.version + 1 && r.off % align == 0)
            && (r.Allocated? && !exec ==>
                  && l.tlsOff <= r.off && l'.tlsOff == r.off + size <= HALF
                  && l'.master.loadSize == l.master.loadSize + (l'.tlsOff - l.tlsOff)
                  && l'.master.dynSize == l.master.dynSize)
            && (r.Allocated? && exec ==>
                  && r.off == -l'.master.dynSize && l'.master.dynSize <= HALF && r.off + size <= 0
                  && -r.off - size < align
                  && l'.tlsOff == l.tlsOff && l'.master.loadSize == l.master.loadSize)
  {
    if exec {
      var val := FloorTo(-(size as int), align);
      AlignedFixed(val, align);
    }
  }

  /** Where an ordinary module can go: the first aligned place from the cursor on, if it ends inside the block. */
  predicate RoomAbove(tlsOff: int, size: nat, align: nat, off: int)
    requires align > 0
  {
    tlsOff <= off < tlsOff + align && off % align == 0 && off + size <= HALF
  }

  /** Where an executable's module can go: the last aligned place that keeps it below the thread pointer. */
  predicate RoomBelow(size: nat, align: nat, off: int)
    requires align > 0
  {
    -(size as int) - align < off <= -(size as int) && off % align == 0 && -HALF <= off
  }

  /**
    When `alloc_tls` succeeds, and where: iff the kernel grants and the one place the module can go to
    is inside the block.  An ordinary module with room moves the cursor to its end even if the kernel
    refuses.
    */
  lemma AllocSucceedsIff(l: Loader, size: nat, align: nat, exec: bool, kernel: bool)
    requires align > 0 && TCB <= l.tlsOff
    ensures var (l', r) := AfterAlloc(l, size, align, exec, kernel);
            && (!exec ==>
                  && (r.Allocated? <==> kernel && exists off :: RoomAbove(l.tlsOff, size, align, off))
                  && (forall off :: RoomAbove(l.tlsOff, size, align, off) ==>
                        l'.tlsOff == off + size && (kernel ==> r == Allocated(off)))
                  && ((forall off :: !RoomAbove(l.tlsOff, size, align, off)) ==> l' == l))
            && (exec ==>
                  && (r.Allocated? <==> kernel && exists off :: RoomBelow(size, align, off))
                  && (forall off :: RoomBelow(size, align, off) && kernel ==> r == Allocated(off)))
  {
    if exec { RoomBelowIff(l, size, align, kernel); } else { RoomAboveIff(l, size, align, kernel); }
  }

  /** Two multiples of `align` less than `align` apart are equal. */
  lemma SameMultiple(x: int, y: int, align: nat)
    requires align > 0 && x % align == 0 && y % align == 0 && x - align < y < x + align
    ensures x == y
  {
    var n := x / align - y / align;
    assert x == align * (x / align) && y == align * (y / align);
    assert align * n == x - y;
    SmallMultiple(align, n);
  }

  lemma RoomAboveIff(l: Loader, size: nat, align: nat, kernel: bool)
    requires align > 0 && TCB <= l.tlsOff
    ensures var (l', r) := AfterAlloc(l, size, align, false, kernel);
            && (r.Allocated? <==> kernel && exists off :: RoomAbove(l.tlsOff, size, align, off))
            && (forall off :: RoomAbove(l.tlsOff, size, align, off) ==>
                  l'.tlsOff == off + size && (kernel ==> r == Allocated(off)))
            && ((forall off :: !RoomAbove(l.tlsOff, size, align, off)) ==> l' == l)
  {
    var place := AlignUp(l.tlsOff, align);
    forall off | RoomAbove(l.tlsOff, size, align, off)
      ensures off == place
    {
      SameMultiple(off, place, align);
    }
    assert RoomAbove(l.tlsOff, size, align, place) <==> place + size <= HALF;
    assert ProtectAt(l.tlsOff) + ProtectLen(l.tlsOff, size, align) == place + size;
    assert ProtectAt(l.tlsOff) >= -HALF;
  }

  lemma RoomBelowIff(l: Loader, size: nat, align: nat, kernel: bool)
    requires align > 0
    ensures var r := AfterAlloc(l, size, align, true, kernel).1;
            && (r.Allocated? <==> kernel && exists off :: RoomBelow(size, align, off))
            && (forall off :: RoomBelow(size, align, off) && kernel ==> r == Allocated(off))
  {
    var place := FloorTo(-(size as int), align);
    AlignedFixed(place, align);
    forall off | RoomBelow(size, align, off)
      ensures off == place
    {
      SameMultiple(off, place, align);
    }
    assert RoomBelow(size, align, place) <==> -HALF <= place;
    assert -HALF <= ProtectAt(place) <==> -HALF <= place;
    assert ProtectAt(place) + ProtectLen(place, size, align) == place + size;
  }

  lemma ModulesAfterAlloc(s: State, size: nat, align: nat, exec: bool, kernel: bool)
    requires Inv(s) && Enabled(s, Alloc(size, align, exec, kernel))
    ensures ModulesOk(AfterAllocStep(s, size, align, exec, kernel))
  {
    Pow2Positive(align);
    AllocFacts(s.loader, size, align, exec, kernel);
    var s' := AfterAllocStep(s, size, align, exec, kernel);
    var m, m' := Master(s), Master(s');
    assert forall off :: Offset(off) ==> At(m', off) == At(m, off);
    assert MasterOk(s');
    forall k | 0 <= k < |s.modules|
      ensures Placed(s', s.modules[k]) && ImageStored(m', s.modules[k])
    {
      StaysPlaced(s, s', s.modules[k]);
    }
    forall j, k | 0 <= j < k < |s'.modules|
      ensures Apart(s'.modules[j], s'.modules[k])
    {
      assert Placed(s, s.modules[j]);
      if k < |s.modules| { assert Apart(s.modules[j], s.modules[k]); }
    }
  }

  lemma StaysPlaced(s: State, s': State, d: Module)
    requires MasterOk(s) && Placed(s, d) && ImageStored(Master(s), d) && MasterOk(s')
    requires Master(s').bytes == Master(s).bytes
    requires s.loader.tlsOff <= s'.loader.tlsOff && Master(s).dynSize <= Master(s').dynSize
    ensures Placed(s', d) && ImageStored(Master(s'), d)
  {
    forall off | d.off <= off < d.off + d.size
      ensures At(Master(s'), off) == ImageByte(d, off - d.off)
    {
      assert At(Master(s), off) == ImageByte(d, off - d.off);
    }
  }

  /** A successful static allocation maps everything up to its end. */
  lemma StaticPages(l: Loader, size: nat, align: nat, off: int)
    requires align > 0 && 0 <= l.tlsOff && AfterAlloc(l, size, align, false, true).1.Allocated?
    requires l.tlsOff <= off < NextOff(l, size, align)
    ensures Mapped(AfterAlloc(l, size, align, false, true).0.master, off)
  {
    var val := l.tlsOff;
    PagesCover(ProtectAt(val), ProtectLen(val, size, align), off);
  }

  /** What one `mprotect` call of `alloc_tls` covers, page by page. */
  lemma ProtectedPages(val: int, size: nat, align: nat, p: int)
    requires align > 0
    ensures p in Pages(ProtectAt(val), ProtectLen(val, size, align)) <==>
            PageOf(val) <= p && PAGE * p < AlignUp(val, align) + size
  {
    var hi := AlignUp(val, align) + size;
    assert ProtectAt(val) / PAGE == PageOf(val);
    assert p < (hi + (PAGE - 1)) / PAGE <==> PAGE * p < hi;
  }

  lemma TouchedAfter(modules: seq<Module>, d: Module, p: int)
    ensures Touched(modules + [d], p) <==> Touched(modules, p) || OnPage(d, p)
  {
    var more := modules + [d];
    if Touched(modules, p) {
      var k :| 0 <= k < |modules| && OnPage(modules[k], p);
      assert OnPage(more[k], p);
    }
    if OnPage(d, p) { assert OnPage(more[|modules|], p); }
  }

  /** The accessible pages after a successful allocation. */
  lemma TouchedAfterAlloc(s: State, size: nat, align: nat, exec: bool)
    requires Inv(s) && align > 0 && AfterAlloc(s.loader, size, align, exec, true).1.Allocated?
    ensures var s' := AfterAllocStep(s, size, align, exec, true);
            forall p :: p in Master(s').rw <==> p == 0 || Touched(s'.modules, p)
  {
    AllocFacts(s.loader, size, align, exec, true);
    var s' := AfterAllocStep(s, size, align, exec, true);
    var val := Cursor(s.loader, size, align, exec);
    var d := s'.modules[|s.modules|];
    if exec { AlignedFixed(val, align); }
    assert d.from == val && d.off == AlignUp(val, align);
    forall p
      ensures p in Master(s').rw <==> p == 0 || Touched(s'.modules, p)
    {
      ProtectedPages(val, size, align, p);
      TouchedAfter(s.modules, d, p);
      assert p in Master(s').rw <==> p in Master(s).rw || OnPage(d, p);
    }
  }

  lemma UpperAfterStatic(s: State, size: nat, align: nat)
    requires Inv(s) && align > 0 && AfterAlloc(s.loader, size, align, false, true).1.Allocated? && s.lost == 0
    ensures var m' := Master(AfterAllocStep(s, size, align, false, true)); RangeMapped(m', 0, m'.loadSize)
  {
    AllocFacts(s.loader, size, align, false, true);
    var m, m' := Master(s), Master(AfterAllocStep(s, size, align, false, true));
    forall off | 0 <= off < m'.loadSize
      ensures Mapped(m', off)
    {
      if off < m.loadSize { assert Mapped(m, off); } else { StaticPages(s.loader, size, align, off); }
    }
  }

  lemma UpperAfterExec(s: State, size: nat, align: nat)
    requires Inv(s) && align > 0 && AfterAlloc(s.loader, size, align, true, true).1.Allocated? && s.lost == 0
    ensures var m' := Master(AfterAllocStep(s, size, align, true, true)); RangeMapped(m', 0, m'.loadSize)
  {
    var m, m' := Master(s), Master(AfterAllocStep(s, size, align, true, true));
    forall off | 0 <= off < m.loadSize
      ensures Mapped(m', off)
    {
      assert Mapped(m, off);
    }
  }

  lemma ExecAfterAlloc(s: State, size: nat, align: nat, exec: bool)
    requires Inv(s) && align > 0 && (exec ==> Master(s).dynSize == 0)
    requires AfterAlloc(s.loader, size, align, exec, true).1.Allocated?
    ensures ExecOk(AfterAllocStep(s, size, align, exec, true))
  {
    AllocFacts(s.loader, size, align, exec, true);
    var s' := AfterAllocStep(s, size, align, exec, true);
    var n := |s.modules|;
    forall k | 0 <= k < n && s.modules[k].exec
      ensures s.modules[k].off == -Master(s).dynSize || (s.modules[k].off == 0 && s.modules[k].size == 0)
      ensures exec ==> s.modules[k].off == 0 && s.modules[k].size == 0
    {
      assert Placed(s, s.modules[k]);
    }
    if exec {
      assert IsDyn(s', s'.modules[n]);
    } else if Master(s).dynSize > 0 {
      var k :| 0 <= k < n && IsDyn(s, s.modules[k]);
      assert IsDyn(s', s'.modules[k]);
    }
  }

  /** What `ExecOk` and `Touched` say does not depend on the images. */
  lemma SameExec(s: State, s': State)
    requires ExecOk(s) && SamePlaces(s.modules, s'.modules) && Master(s').dynSize == Master(s).dynSize
    ensures ExecOk(s') && forall p :: Touched(s'.modules, p) <==> Touched(s.modules, p)
    ensures forall x :: InGrant(s'.modules, x) <==> InGrant(s.modules, x)
  {
    forall x
      ensures InGrant(s'.modules, x) <==> InGrant(s.modules, x)
    {
      if InGrant(s.modules, x) {
        var k :| 0 <= k < |s.modules| && Covers(s.modules[k], x);
        assert Covers(s'.modules[k], x);
      }
      if InGrant(s'.modules, x) {
        var k :| 0 <= k < |s.modules| && Covers(s'.modules[k], x);
        assert Covers(s.modules[k], x);
      }
    }
    forall p
      ensures Touched(s'.modules, p) <==> Touched(s.modules, p)
    {
      if Touched(s.modules, p) {
        var k :| 0 <= k < |s.modules| && OnPage(s.modules[k], p);
        assert OnPage(s'.modules[k], p);
      }
      if Touched(s'.modules, p) {
        var k :| 0 <= k < |s.modules| && OnPage(s'.modules[k], p);
        assert OnPage(s.modules[k], p);
      }
    }
    if Master(s).dynSize > 0 {
      var k :| 0 <= k < |s.modules| && IsDyn(s, s.modules[k]);
      assert IsDyn(s', s'.modules[k]);
    }
  }

  predicate SamePlaces(a: seq<Module>, b: seq<Module>) {
    |a| == |b| && forall k :: 0 <= k < |a| ==> b[k] == a[k].(image := b[k].image)
  }

  lemma PagesAfterAlloc(s: State, size: nat, align: nat, exec: bool, kernel: bool)
    requires Inv(s) && Enabled(s, Alloc(size, align, exec, kernel))
    ensures PagesOk(AfterAllocStep(s, size, align, exec, kernel))
  {
    Pow2Positive(align);
    AllocFacts(s.loader, size, align, exec, kernel);
    var s' := AfterAllocStep(s, size, align, exec, kernel);
    if AfterAlloc(s.loader, size, align, exec, kernel).1.Allocated? {
      TouchedAfterAlloc(s, size, align, exec);
      ExecAfterAlloc(s, size, align, exec);
      if s.lost == 0 {
        if exec { UpperAfterExec(s, size, align); } else { UpperAfterStatic(s, size, align); }
      }
      GapsAfterGrant(s, size, align, exec);
    } else {
      SameExec(s, s');
      GapsAfterRefusal(s, s'.loader.tlsOff);
      assert GapsOk(s');
    }
  }

  lemma GapsAfterGrant(s: State, size: nat, align: nat, exec: bool)
    requires Inv(s) && align > 0 && AfterAlloc(s.loader, size, align, exec, true).1.Allocated?
    ensures GapsOk(AfterAllocStep(s, size, align, exec, true))
  {
    AllocFacts(s.loader, size, align, exec, true);
    var s' := AfterAllocStep(s, size, align, exec, true);
    var n := |s.modules|;
    forall x | TCB <= x < s'.loader.tlsOff
      ensures InGap(s'.refused, x) <==> !InGrant(s'.modules, x)
    {
      GrantAfter(s.modules, s'.modules[n], x);
      if x >= s.loader.tlsOff { assert !InGap(s.refused, x); }
    }
  }

  lemma GrantAfter(modules: seq<Module>, d: Module, x: int)
    ensures InGrant(modules + [d], x) <==> InGrant(modules, x) || Covers(d, x)
  {
    var more := modules + [d];
    if InGrant(modules, x) {
      var k :| 0 <= k < |modules| && Covers(modules[k], x);
      assert Covers(more[k], x);
    }
    if Covers(d, x) { assert Covers(more[|modules|], x); }
  }

  lemma GapsAfterRefusal(s: State, hi: int)
    requires Inv(s) && s.loader.tlsOff <= hi
    ensures var gaps := s.refused + [Gap(s.loader.tlsOff, hi)];
            && (forall i :: 0 <= i < |gaps| ==> gaps[i].hi <= hi)
            && (forall x :: TCB <= x < hi ==> (InGap(gaps, x) <==> !InGrant(s.modules, x)))
  {
    var n, gaps := |s.refused|, s.refused + [Gap(s.loader.tlsOff, hi)];
    forall x | TCB <= x < hi
      ensures InGap(gaps, x) <==> !InGrant(s.modules, x)
    {
      if x >= s.loader.tlsOff {
        assert Spans(gaps[n], x);
        forall k | 0 <= k < |s.modules|
          ensures !Covers(s.modules[k], x)
        {
          assert Placed(s, s.modules[k]);
        }
      } else {
        if InGap(s.refused, x) {
          var i :| 0 <= i < n && Spans(s.refused[i], x);
          assert Spans(gaps[i], x);
        }
        if InGap(gaps, x) {
          var i :| 0 <= i <= n && Spans(gaps[i], x);
          assert Spans(s.refused[i], x);
        }
      }
    }
  }

  lemma AllocKeeps(s: State, size: nat, align: nat, exec: bool, kernel: bool)
    requires Inv(s) && Enabled(s, Alloc(size, align, exec, kernel))
    ensures Inv(AfterAllocStep(s, size, align, exec, kernel))
  {
    Pow2Positive(align);
    AllocFacts(s.loader, size, align, exec, kernel);
    ModulesAfterAlloc(s, size, align, exec, kernel);
    PagesAfterAlloc(s, size, align, exec, kernel);
    var s' := AfterAllocStep(s, size, align, exec, kernel);
    SectionAfterAlloc(s, size, align, exec, kernel);
    forall t | t in s'.threads
      ensures ThreadOk(s', s'.threads[t])
    {
      SameThread(s, s', s.threads[t]);
    }
  }

  lemma SectionAfterAlloc(s: State, size: nat, align: nat, exec: bool, kernel: bool)
    requires Inv(s) && Enabled(s, Alloc(size, align, exec, kernel)) && align > 0
    ensures SectionOk(AfterAllocStep(s, size, align, exec, kernel))
  {
    AllocFacts(s.loader, size, align, exec, kernel);
    var s' := AfterAllocStep(s, size, align, exec, kernel);
    var sec := s.section.value;
    forall k | 0 <= k < |s'.modules|
      ensures OldOrNew(s', sec, k)
    {
      if k < |s.modules| { assert OldOrNew(s, sec, k); }
    }
  }

  /** The version store: nothing but the master's version changes. */
  lemma VersionKeeps(s: State)
    requires Inv(s) && Enabled(s, StoreVersion)
    ensures Inv(Apply(s, StoreVersion))
  {
    var s' := Apply(s, StoreVersion);
    SameExec(s, s');
    assert forall off :: Mapped(Master(s'), off) == Mapped(Master(s), off);
    assert forall off :: Offset(off) ==> At(Master(s'), off) == At(Master(s), off);
    assert MasterOk(s');
    forall k | 0 <= k < |s'.modules|
      ensures Placed(s', s'.modules[k]) && ImageStored(Master(s'), s'.modules[k])
    {
      StaysPlaced(s, s', s.modules[k]);
    }
    SectionAfterVersion(s);
    forall t | t in s'.threads
      ensures ThreadOk(s', s'.threads[t])
    {
      SameThread(s, s', s.threads[t]);
    }
  }

  lemma SectionAfterVersion(s: State)
    requires SectionOk(s) && Enabled(s, StoreVersion)
    ensures SectionOk(Apply(s, StoreVersion))
  {
    var s' := Apply(s, StoreVersion);
    forall k | 0 <= k < |s'.modules|
      ensures OldOrNew(s', s.section.value, k)
    {
      assert OldOrNew(s, s.section.value, k);
    }
  }

  /** A running thread does not notice what a load adds to the master. */
  lemma SameThread(s: State, s': State, th: Thread)
    requires ThreadOk(s, th) && th.phase.Running? && BlockOk(Master(s')) && Stable(s') == Stable(s)
    requires Master(s').bytes == Master(s).bytes
    ensures ThreadOk(s', th)
  {
    assert forall off :: Offset(off) ==> At(Master(s'), off) == At(Master(s), off);
  }

  lemma ModulesAfterFill(s: State, k: nat, data: seq<byte>)
    requires Inv(s) && Enabled(s, Fill(k, data))
    ensures ModulesOk(Apply(s, Fill(k, data)))
  {
    var s' := Apply(s, Fill(k, data));
    var m, m', d := Master(s), Master(s'), s.modules[k];
    assert Placed(s, d) && ImageStored(m, d);
    assert forall off :: Offset(off) && !(d.off <= off < d.off + d.size) ==> At(m', off) == At(m, off);
    assert MasterOk(s');
    FilledImage(m, m', d, data);
    forall j | 0 <= j < |s'.modules|
      ensures Placed(s', s'.modules[j]) && ImageStored(m', s'.modules[j])
    {
      if j != k {
        assert Placed(s, s.modules[j]) && ImageStored(m, s.modules[j]);
        if j < k { assert Apart(s.modules[j], d); } else { assert Apart(d, s.modules[j]); }
        OtherImage(m, m', d, s.modules[j]);
      }
    }
    forall i, j | 0 <= i < j < |s'.modules|
      ensures Apart(s'.modules[i], s'.modules[j])
    {
      assert Apart(s.modules[i], s.modules[j]);
    }
  }

  lemma FilledImage(m: Block, m': Block, d: Module, data: seq<byte>)
    requires BlockOk(m) && |data| <= d.size && -HALF <= d.off && d.off + d.size <= HALF
    requires d.image.None? && ImageStored(m, d) && m' == AfterLoad(m, d.off, data)
    ensures ImageStored(m', d.(image := Some(data)))
  {
    forall off | d.off <= off < d.off + d.size
      ensures At(m', off) == ImageByte(d.(image := Some(data)), off - d.off)
    {
      if off >= d.off + |data| { assert At(m, off) == ImageByte(d, off - d.off) == 0; }
    }
  }

  lemma OtherImage(m: Block, m': Block, d: Module, c: Module)
    requires |m.bytes| == |m'.bytes| == BLOCK && -HALF <= c.off && c.off + c.size <= HALF
    requires (Apart(c, d) || Apart(d, c)) && ImageStored(m, c)
    requires forall off :: Offset(off) && !(d.off <= off < d.off + d.size) ==> At(m', off) == At(m, off)
    ensures ImageStored(m', c)
  {
    forall off | c.off <= off < c.off + c.size
      ensures At(m', off) == ImageByte(c, off - c.off)
    {
      assert At(m, off) == ImageByte(c, off - c.off);
    }
  }

  lemma FillKeeps(s: State, k: nat, data: seq<byte>)
    requires Inv(s) && Enabled(s, Fill(k, data))
    ensures Inv(Apply(s, Fill(k, data)))
  {
    ModulesAfterFill(s, k, data);
    var s' := Apply(s, Fill(k, data));
    var m, m', d := Master(s), Master(s'), s.modules[k];
    assert Placed(s, d);
    SameExec(s, s');
    assert forall off :: Mapped(m', off) == Mapped(m, off);
    SamePlacesSection(s, s');
    forall t | t in s'.threads
      ensures ThreadOk(s', s'.threads[t])
    {
      assert ThreadOk(s, s.threads[t]);
      FillUnseen(s, k, data, s.threads[t]);
    }
  }

  lemma SamePlacesSection(s: State, s': State)
    requires SectionOk(s) && SamePlaces(s.modules, s'.modules) && s'.section == s.section
    requires s'.pending == s.pending && s'.lost == s.lost && s'.threads == s.threads
    requires Master(s') == Master(s).(bytes := Master(s').bytes)
    ensures SectionOk(s')
  {
    if s.section.Some? {
      forall k | 0 <= k < |s'.modules|
        ensures OldOrNew(s', s.section.value, k)
      {
        assert OldOrNew(s, s.section.value, k);
      }
    }
  }

  /** An image stored during a load is outside what any thread has seen. */
  lemma FillUnseen(s: State, k: nat, data: seq<byte>, th: Thread)
    requires Inv(s) && Enabled(s, Fill(k, data)) && ThreadOk(s, th)
    ensures ThreadOk(Apply(s, Fill(k, data)), th)
  {
    var s' := Apply(s, Fill(k, data));
    assert Placed(s, s.modules[k]) && OldOrNew(s, s.section.value, k);
    assert forall off :: InRange(th.block, off) ==> At(Master(s'), off) == At(Master(s), off);
  }

  lemma SameMaster(s: State, s': State)
    requires Inv(s) && s'.loader == s.loader && s'.modules == s.modules && s'.lost == s.lost
    requires s'.refused == s.refused && s'.pending == s.pending
    ensures ModulesOk(s') && PagesOk(s')
  {
    SameExec(s, s');
    assert MasterOk(s');
    forall k | 0 <= k < |s'.modules|
      ensures Placed(s', s'.modules[k]) && ImageStored(Master(s'), s'.modules[k])
    {
      assert Placed(s, s.modules[k]);
    }
  }

  lemma LockKeeps(s: State, step: Step)
    requires Inv(s) && Enabled(s, step) && (step.BeginLoad? || step.EndLoad?)
    ensures Inv(Apply(s, step))
  {
    var s' := Apply(s, step);
    SameMaster(s, s');
    if step.BeginLoad? {
      forall k | 0 <= k < |s'.modules|
        ensures OldOrNew(s', Stable(s), k)
      {
        assert Placed(s, s.modules[k]);
      }
    }
    forall t | t in s'.threads
      ensures ThreadOk(s', s'.threads[t])
    {
      assert ThreadOk(s, s.threads[t]);
    }
  }

  // ---------------------------------------------------------------- threads

  /** A step that changes one thread. */
  lemma ThreadStepKeeps(s: State, t: Tid, th: Thread)
    requires Inv(s) && ThreadOk(s, th) && (s.section.Some? ==> th.phase.Running?)
    ensures Inv(WithThread(s, t, th))
  {
    var s' := WithThread(s, t, th);
    SameMaster(s, s');
    if s.section.Some? {
      forall k | 0 <= k < |s'.modules|
        ensures OldOrNew(s', s.section.value, k)
      {
        assert OldOrNew(s, s.section.value, k);
      }
    }
    forall u | u in s'.threads
      ensures ThreadOk(s', s'.threads[u])
    {
      if u != t { assert ThreadOk(s, s.threads[u]); }
    }
  }

  lemma StaticKeeps(s: State, t: Tid)
    requires Inv(s) && Enabled(s, UpdateStatic(t))
    ensures Inv(Apply(s, UpdateStatic(t)))
  {
    var th := s.threads[t];
    assert ThreadOk(s, th);
    StaticCopyMapped(th.block, Master(s));
    ThreadStepKeeps(s, t, Apply(s, UpdateStatic(t)).threads[t]);
  }

  /** Copying the part below the thread pointer keeps a thread in agreement with the master. */
  lemma DynAgrees(th: Thread, m: Block)
    requires BlockOk(th.block) && BlockOk(m) && Agrees(th, m) && th.block.dynSize <= m.dynSize
    requires forall off :: off in th.wrote ==> InRange(th.block, off)
    ensures BlockOk(CopyDyn(th.block, m)) && Agrees(th.(block := CopyDyn(th.block, m)), m)
    ensures CopyDyn(th.block, m).dynSize == m.dynSize
  {
  }

  lemma DynKeeps(s: State, t: Tid)
    requires Inv(s) && Enabled(s, UpdateDyn(t))
    ensures Inv(Apply(s, UpdateDyn(t)))
  {
    var th := s.threads[t];
    assert ThreadOk(s, th);
    DynAgrees(th, Master(s));
    DynCopyMapped(th.block, Master(s));
    var th' := th.(phase := DynDone, block := CopyDyn(th.block, Master(s)));
    assert forall off :: off in th.wrote ==> InRange(th.block, off) && !InTcb(off);
    assert Agrees(th', Master(s));
    ThreadStepKeeps(s, t, th');
  }

  lemma EndUpdateKeeps(s: State, t: Tid)
    requires Inv(s) && Enabled(s, EndUpdate(t))
    ensures Inv(Apply(s, EndUpdate(t)))
  {
    var th := s.threads[t];
    assert ThreadOk(s, th);
    var th' := Apply(s, EndUpdate(t)).threads[t];
    assert forall off :: Mapped(th'.block, off) == Mapped(th.block, off);
    ThreadStepKeeps(s, t, th');
  }

  lemma UserWriteKeeps(s: State, t: Tid, off: int, b: byte)
    requires Inv(s) && Enabled(s, UserWrite(t, off, b))
    ensures Inv(Apply(s, UserWrite(t, off, b)))
  {
    var th := s.threads[t];
    assert ThreadOk(s, th);
    var th' := Apply(s, UserWrite(t, off, b)).threads[t];
    assert forall o :: Mapped(th'.block, o) == Mapped(th.block, o);
    ThreadStepKeeps(s, t, th');
  }

  lemma StepKeepsInv(s: State, step: Step)
    requires Inv(s) && Enabled(s, step)
    ensures Inv(Apply(s, step))
  {
    match step
    case Spawn(t) => ThreadStepKeeps(s, t, Thread(Fresh(), Running, {}));
    case BeginLoad => LockKeeps(s, step);
    case EndLoad => LockKeeps(s, step);
    case Alloc(size, align, exec, kernel) => AllocKeeps(s, size, align, exec, kernel);
    case StoreVersion => VersionKeeps(s);
    case Fill(k, data) => FillKeeps(s, k, data);
    case BeginUpdate(t) =>
      assert ThreadOk(s, s.threads[t]);
      ThreadStepKeeps(s, t, s.threads[t].(phase := Locked));
    case UpdateStatic(t) => StaticKeeps(s, t);
    case UpdateDyn(t) => DynKeeps(s, t);
    case EndUpdate(t) => EndUpdateKeeps(s, t);
    case UserWrite(t, off, b) => UserWriteKeeps(s, t, off, b);
  }

  lemma {:induction false} RunKeepsInv(s: State, steps: seq<Step>)
    requires Inv(s) && CanRun(s, steps)
    ensures Inv(Run(s, steps))
    decreases |steps|
  {
    if steps != [] {
      StepKeepsInv(s, steps[0]);
      RunKeepsInv(Apply(s, steps[0]), steps[1..]);
    }
  }

  lemma Reached(steps: seq<Step>)
    requires CanRun(INIT, steps)
    ensures Inv(Run(INIT, steps))
  {
    InitInv();
    RunKeepsInv(INIT, steps);
  }

  // ---------------------------------------------------------------- results over every run

  /** In every reachable state, every byte of a thread's range that it has not written is the master's. */
  lemma ThreadsAgree(steps: seq<Step>, t: Tid, off: int)
    requires CanRun(INIT, steps) && t in Run(INIT, steps).threads
    requires var th := Run(INIT, steps).threads[t]; InRange(th.block, off) && !InTcb(off) && off !in th.wrote
    ensures var s := Run(INIT, steps);
            && BlockOk(s.threads[t].block) && BlockOk(Master(s)) && Offset(off)
            && At(s.threads[t].block, off) == At(Master(s), off)
  {
    Reached(steps);
    assert ThreadOk(Run(INIT, steps), Run(INIT, steps).threads[t]);
  }

  /** The version test of `__tls_get_addr`. */
  predicate FastPath(s: State, t: Tid) { t in s.threads && s.threads[t].block.version == Master(s).version }

  /**
    A thread's version and sizes never exceed the master's.  Equal versions mean that the thread has
    the sizes of the last completed load, even while another one is in progress; these are the
    master's own sizes iff no size store that adds anything waits for its version store.
    */
  lemma VersionsDecideSizes(steps: seq<Step>, t: Tid)
    requires CanRun(INIT, steps) && t in Run(INIT, steps).threads
    ensures var s := Run(INIT, steps); var b := s.threads[t].block; var m := Master(s);
            && b.version <= m.version && b.loadSize <= m.loadSize && b.dynSize <= m.dynSize
            && (FastPath(s, t) ==>
                  && b.loadSize == Stable(s).load && b.dynSize == Stable(s).dyn
                  && (b.loadSize == m.loadSize && b.dynSize == m.dynSize <==>
                      s.pending.None? || s.pending.value == 0))
  {
    Reached(steps);
    assert ThreadOk(Run(INIT, steps), Run(INIT, steps).threads[t]);
  }

  /** A thread, then the first half of an `alloc_tls`. */
  function WindowRun(size: nat): seq<Step> { [Spawn(0)] + ([BeginLoad] + [Alloc(size, 1, false, true)]) }

  /** Between the two stores of `alloc_tls` the versions agree and the sizes differ. */
  lemma SizeWindowExample(size: nat)
    requires 0 < size <= 1000 * PAGE
    ensures CanRun(INIT, WindowRun(size))
    ensures var s := Run(INIT, WindowRun(size));
            FastPath(s, 0) && s.threads[0].block.loadSize + size == Master(s).loadSize
  {
    var s1 := Apply(INIT, Spawn(0));
    var s2 := Apply(s1, BeginLoad);
    FirstGrant(s2, size);
    RunOne(s2, Alloc(size, 1, false, true));
    RunCons(s1, BeginLoad, [Alloc(size, 1, false, true)]);
    RunCons(INIT, Spawn(0), [BeginLoad] + [Alloc(size, 1, false, true)]);
  }

  lemma FirstGrant(s: State, size: nat)
    requires s.section.Some? && s.pending.None? && s.loader.tlsOff == TCB && size <= 1000 * PAGE
    ensures Enabled(s, Alloc(size, 1, false, true))
    ensures var s' := Apply(s, Alloc(size, 1, false, true));
            && Master(s').loadSize == Master(s).loadSize + size && Master(s').version == Master(s).version
            && s'.threads == s.threads
  {
    AlignedFixed(TCB, 1);
  }

  /**
    What `__tls_get_addr(module, i)` reaches without an update, for any module `alloc_tls` has
    returned.  The byte is in the thread's range iff the module is the executable's or the byte is
    below the `load_size` of the last completed load; then it is on an accessible page and holds the
    module's image (zero-filled), unless the thread has written it.
    */
  lemma FastPathSeesModule(steps: seq<Step>, t: Tid, k: nat, i: nat)
    requires CanRun(INIT, steps) && FastPath(Run(INIT, steps), t)
    requires Returned(Run(INIT, steps), k) && i < Run(INIT, steps).modules[k].size
    ensures BlockOk(Run(INIT, steps).threads[t].block) && Seen(Run(INIT, steps), t, k, i)
  {
    Reached(steps);
    ModuleSeen(Run(INIT, steps), t, k, i);
  }

  ghost predicate Seen(s: State, t: Tid, k: nat, i: nat)
    requires t in s.threads && k < |s.modules| && BlockOk(s.threads[t].block)
  {
    var th := s.threads[t]; var d := s.modules[k]; var off := d.off + i;
    && k < Stable(s).count && Offset(off) && !InTcb(off)
    && (InRange(th.block, off) <==> d.exec || off < Stable(s).load)
    && (InRange(th.block, off) ==> Mapped(th.block, off))
    && (InRange(th.block, off) && off !in th.wrote ==> At(th.block, off) == ImageByte(d, i))
  }

  lemma ModuleSeen(s: State, t: Tid, k: nat, i: nat)
    requires Inv(s) && FastPath(s, t) && Returned(s, k) && i < s.modules[k].size
    ensures BlockOk(s.threads[t].block) && Seen(s, t, k, i)
  {
    var d := s.modules[k];
    assert ThreadOk(s, s.threads[t]);
    assert Placed(s, d) && ImageStored(Master(s), d);
    var off := d.off + i;
    if s.section.Some? { assert OldOrNew(s, s.section.value, k); }
    assert At(Master(s), off) == ImageByte(d, off - d.off);
    if InRange(s.threads[t].block, off) { assert Mapped(s.threads[t].block, off); }
  }

  /** What `load_tls` stores: the image's bytes at the module's place, and nothing else. */
  lemma FillStores(s: State, k: nat, data: seq<byte>, off: int)
    requires Inv(s) && Enabled(s, Fill(k, data)) && Offset(off)
    ensures var s' := Apply(s, Fill(k, data)); var at := s.modules[k].off;
            && BlockOk(Master(s)) && BlockOk(Master(s')) && s'.threads == s.threads
            && At(Master(s'), off) == if at <= off < at + |data| then data[off - at] else At(Master(s), off)
  {
  }

  /** A module given to `load_tls` keeps its place and image; one `alloc_tls` has returned stays returned. */
  lemma {:induction false} FilledStays(s: State, more: seq<Step>, k: nat)
    requires CanRun(s, more) && Returned(s, k) && s.modules[k].image.Some?
    ensures Returned(Run(s, more), k) && Run(s, more).modules[k] == s.modules[k]
    decreases |more|
  {
    if more != [] {
      assert Returned(Apply(s, more[0]), k) && Apply(s, more[0]).modules[k] == s.modules[k];
      FilledStays(Apply(s, more[0]), more[1..], k);
    }
  }

  /**
    From `load_tls(module, data)` to `__tls_get_addr(module, i)`: whatever happens in between, a thread
    on the fast path reads `data[i]` there, and 0 past `data`, if the byte is in its range and the
    thread has not written it.
    */
  lemma LoadedBytesSeen(before: seq<Step>, k: nat, data: seq<byte>, after: seq<Step>, t: Tid, i: nat)
    requires CanRun(INIT, before) && Enabled(Run(INIT, before), Fill(k, data))
    requires CanRun(Apply(Run(INIT, before), Fill(k, data)), after)
    requires var s := Run(Apply(Run(INIT, before), Fill(k, data)), after);
             var off := Run(INIT, before).modules[k].off + i;
             && FastPath(s, t) && i < Run(INIT, before).modules[k].size
             && InRange(s.threads[t].block, off) && off !in s.threads[t].wrote
    ensures var s := Run(Apply(Run(INIT, before), Fill(k, data)), after);
            var off := Run(INIT, before).modules[k].off + i;
            && BlockOk(s.threads[t].block) && Offset(off)
            && At(s.threads[t].block, off) == if i < |data| then data[i] else 0
  {
    Reached(before);
    var s0 := Run(INIT, before);
    StepKeepsInv(s0, Fill(k, data));
    var s1 := Apply(s0, Fill(k, data));
    RunKeepsInv(s1, after);
    FilledStays(s1, after, k);
    ModuleSeen(Run(s1, after), t, k, i);
  }

  predicate Fills(step: Step, k: nat) { step.Fill? && step.k == k }

  lemma {:induction false} StaysUnfilled(s: State, more: seq<Step>, k: nat)
    requires CanRun(s, more) && (k < |s.modules| ==> s.modules[k].image.None?)
    requires forall j :: 0 <= j < |more| ==> !Fills(more[j], k)
    ensures k < |Run(s, more).modules| ==> Run(s, more).modules[k].image.None?
    decreases |more|
  {
    if more != [] {
      assert k < |Apply(s, more[0]).modules| ==> Apply(s, more[0]).modules[k].image.None?;
      StaysUnfilled(Apply(s, more[0]), more[1..], k);
    }
  }

  /** A module `load_tls` was never called for reads as zeros. */
  lemma UnloadedBytesZero(steps: seq<Step>, t: Tid, k: nat, i: nat)
    requires CanRun(INIT, steps) && FastPath(Run(INIT, steps), t)
    requires Returned(Run(INIT, steps), k) && i < Run(INIT, steps).modules[k].size
    requires forall j :: 0 <= j < |steps| ==> !Fills(steps[j], k)
    requires var off := Run(INIT, steps).modules[k].off + i; var th := Run(INIT, steps).threads[t];
             InRange(th.block, off) && off !in th.wrote
    ensures var off := Run(INIT, steps).modules[k].off + i; var b := Run(INIT, steps).threads[t].block;
            BlockOk(b) && Offset(off) && At(b, off) == 0
  {
    Reached(steps);
    StaysUnfilled(INIT, steps, k);
    ModuleSeen(Run(INIT, steps), t, k, i);
  }

  /** `alloc_tls` has returned module `k`: both its stores are done. */
  predicate Returned(s: State, k: nat) { k < |s.modules| && (s.pending.Some? ==> k < |s.modules| - 1) }

  /** Without refusals every module is reached in full. */
  lemma AllModulesReached(steps: seq<Step>, t: Tid, k: nat, i: nat)
    requires CanRun(INIT, steps) && FastPath(Run(INIT, steps), t) && Run(INIT, steps).lost == 0
    requires Returned(Run(INIT, steps), k) && i < Run(INIT, steps).modules[k].size
    ensures InRange(Run(INIT, steps).threads[t].block, Run(INIT, steps).modules[k].off + i)
  {
    Reached(steps);
    var s := Run(INIT, steps);
    ModuleSeen(s, t, k, i);
    assert Placed(s, s.modules[k]);
    if s.section.Some? { assert OldOrNew(s, s.section.value, k); }
  }

  /** When the slow path ends, the thread is on the fast path. */
  lemma UpdateReachesFastPath(steps: seq<Step>, t: Tid)
    requires CanRun(INIT, steps) && Enabled(Run(INIT, steps), EndUpdate(t))
    ensures var s' := Apply(Run(INIT, steps), EndUpdate(t));
            && FastPath(s', t) && s'.section.None?
            && s'.threads[t].block.loadSize == Master(s').loadSize
            && s'.threads[t].block.dynSize == Master(s').dynSize
  {
    Reached(steps);
    assert ThreadOk(Run(INIT, steps), Run(INIT, steps).threads[t]);
  }

  predicate Writes(step: Step, t: Tid, off: int) { step.UserWrite? && step.t == t && step.off == off }

  /** The step is part of an update of thread `t`. */
  predicate Updates(step: Step, t: Tid) {
    (step.UpdateStatic? || step.UpdateDyn? || step.EndUpdate?) && step.t == t
  }

  /**
    No step but the thread's own write changes a byte already in its range beyond the TCB, so no
    update undoes a write; and the TCB's fields change only in the thread's own update.
    */
  lemma OnlyOwnWrites(s: State, step: Step, t: Tid, off: int)
    requires Inv(s) && Enabled(s, step) && t in s.threads && InRange(s.threads[t].block, off) && !InTcb(off)
    ensures t in Apply(s, step).threads && BlockOk(s.threads[t].block) && BlockOk(Apply(s, step).threads[t].block)
    ensures var b := s.threads[t].block; var b' := Apply(s, step).threads[t].block;
            && InRange(b', off) && (At(b', off) == At(b, off) || Writes(step, t, off))
            && (!Updates(step, t) ==> b'.loadSize == b.loadSize && b'.dynSize == b.dynSize && b'.version == b.version)
  {
    assert ThreadOk(s, s.threads[t]);
    if Updates(step, t) {
      OwnUpdate(s, step, t, off);
    } else if Apply(s, step).threads[t] != s.threads[t] {
      assert step.UserWrite? || step.BeginUpdate?;
    }
  }

  lemma OwnUpdate(s: State, step: Step, t: Tid, off: int)
    requires Enabled(s, step) && Updates(step, t) && t in s.threads && ThreadOk(s, s.threads[t])
    requires InRange(s.threads[t].block, off)
    ensures var b := s.threads[t].block; var b' := Apply(s, step).threads[t].block;
            BlockOk(b') && InRange(b', off) && At(b', off) == At(b, off)
  {
  }

  /** Bytes of completed loads never change in the master again, and the published sizes only grow. */
  lemma PublishedBytesFixed(s: State, step: Step)
    requires Inv(s) && Enabled(s, step)
    ensures BlockOk(Master(s)) && BlockOk(Master(Apply(s, step)))
    ensures Stable(s).load <= Stable(Apply(s, step)).load && Stable(s).dyn <= Stable(Apply(s, step)).dyn
    ensures forall off :: -Stable(s).dyn <= off < Stable(s).load ==>
              At(Master(Apply(s, step)), off) == At(Master(s), off)
  {
    StepKeepsInv(s, step);
    match step
    case Alloc(size, align, exec, kernel) =>
      Pow2Positive(align);
      AllocFacts(s.loader, size, align, exec, kernel);
    case Fill(k, data) => assert Placed(s, s.modules[k]) && OldOrNew(s, s.section.value, k);
    case _ =>
  }

  /**
    Over any further run, through any number of loads and updates, a byte of the thread's range beyond
    the TCB keeps its value unless the thread itself writes that byte again.
    */
  lemma {:induction false} WritesSurvive(s: State, more: seq<Step>, t: Tid, off: int)
    requires Inv(s) && CanRun(s, more) && t in s.threads && InRange(s.threads[t].block, off) && !InTcb(off)
    requires forall i :: 0 <= i < |more| ==> !Writes(more[i], t, off)
    ensures t in Run(s, more).threads && BlockOk(s.threads[t].block) && BlockOk(Run(s, more).threads[t].block)
    ensures InRange(Run(s, more).threads[t].block, off)
    ensures At(Run(s, more).threads[t].block, off) == At(s.threads[t].block, off)
    decreases |more|
  {
    assert ThreadOk(s, s.threads[t]);
    if more != [] {
      OnlyOwnWrites(s, more[0], t, off);
      StepKeepsInv(s, more[0]);
      WritesSurvive(Apply(s, more[0]), more[1..], t, off);
    }
  }

  /** Over any further run, the master keeps every byte of the loads completed before it. */
  lemma {:induction false} PublishedForEver(s: State, more: seq<Step>, off: int)
    requires Inv(s) && CanRun(s, more) && -Stable(s).dyn <= off < Stable(s).load
    ensures BlockOk(Master(s)) && BlockOk(Master(Run(s, more))) && Offset(off)
    ensures At(Master(Run(s, more)), off) == At(Master(s), off)
    decreases |more|
  {
    if more != [] {
      PublishedBytesFixed(s, more[0]);
      StepKeepsInv(s, more[0]);
      PublishedForEver(Apply(s, more[0]), more[1..], off);
    }
  }

  /** Module ranges are aligned as asked, pairwise disjoint, outside the TCB and inside the block. */
  lemma ModulesDisjoint(steps: seq<Step>, j: nat, k: nat)
    requires CanRun(INIT, steps) && j < k < |Run(INIT, steps).modules|
    ensures var s := Run(INIT, steps); var c := s.modules[j]; var d := s.modules[k];
            && (c.off + c.size <= d.off || d.off + d.size <= c.off)
            && d.align > 0 && d.off % d.align == 0
            && (if d.exec then -HALF <= d.off && d.off + d.size <= 0 else TCB <= d.off && d.off + d.size <= HALF)
  {
    Reached(steps);
    var s := Run(INIT, steps);
    assert Placed(s, s.modules[k]) && Apart(s.modules[j], s.modules[k]);
  }

  /** The cursor is ahead of the master's `load_size` by exactly what refused allocations had advanced it. */
  lemma CursorConserved(steps: seq<Step>)
    requires CanRun(INIT, steps)
    ensures var s := Run(INIT, steps);
            s.loader.tlsOff == Master(s).loadSize + s.lost && 0 <= s.lost && s.loader.tlsOff <= HALF
  {
    Reached(steps);
  }

  /** Modules stay where they were put. */
  lemma {:induction false} ModulesStay(s: State, more: seq<Step>, k: nat)
    requires CanRun(s, more) && k < |s.modules|
    ensures |s.modules| <= |Run(s, more).modules|
    ensures var d := s.modules[k]; var d' := Run(s, more).modules[k]; d' == d.(image := d'.image)
    decreases |more|
  {
    if more != [] {
      assert var d := Apply(s, more[0]).modules[k]; d == s.modules[k].(image := d.image);
      ModulesStay(Apply(s, more[0]), more[1..], k);
    }
  }

  /**
    A new module lies within `load_size`, at any later time, iff the allocations granted since then
    have advanced `load_size` by at least what earlier refused ones had advanced the cursor.
    */
  lemma ModuleCoveredIff(steps: seq<Step>, size: nat, align: nat, more: seq<Step>)
    requires CanRun(INIT, steps) && Enabled(Run(INIT, steps), Alloc(size, align, false, true)) && align > 0
    requires AfterAlloc(Run(INIT, steps).loader, size, align, false, true).1.Allocated?
    requires CanRun(Apply(Run(INIT, steps), Alloc(size, align, false, true)), more)
    ensures var s := Run(INIT, steps); var s1 := Apply(s, Alloc(size, align, false, true)); var s2 := Run(s1, more);
            && |s.modules| < |s2.modules|
            && var d := s2.modules[|s.modules|];
               d.off + d.size <= Master(s2).loadSize <==> Master(s2).loadSize - Master(s1).loadSize >= s.lost
  {
    Reached(steps);
    var s := Run(INIT, steps);
    AllocFacts(s.loader, size, align, false, true);
    ModulesStay(Apply(s, Alloc(size, align, false, true)), more, |s.modules|);
  }

  /** An allocation that is refused, and the same one again, granted. */
  function RefusedRun(size: nat): seq<Step> {
    [BeginLoad] + ([Alloc(size, 1, false, false)] + [Alloc(size, 1, false, true)])
  }

  /**
    From two pages on, the module then starts where `load_size` ends, so it is wholly uncovered; and a
    page below `load_size` was never made accessible.
    */
  lemma RefusalExample(size: nat)
    requires 2 * PAGE <= size <= 1000 * PAGE
    ensures CanRun(INIT, RefusedRun(size))
    ensures var s := Run(INIT, RefusedRun(size)); var m := Master(s);
            && |s.modules| == 1 && s.modules[0].off == m.loadSize && s.modules[0].size == size && s.lost == size
            && PAGE < m.loadSize && !Mapped(m, PAGE)
  {
    var s1 := Apply(INIT, BeginLoad);
    var no, yes := Alloc(size, 1, false, false), Alloc(size, 1, false, true);
    Refused(s1, size);
    var s2 := Apply(s1, no);
    Regranted(s2, size);
    RunOne(s2, yes);
    RunCons(s1, no, [yes]);
    RunCons(INIT, BeginLoad, [no] + [yes]);
  }

  lemma Refused(s: State, size: nat)
    requires s.section.Some? && s.pending.None? && s.loader.tlsOff == TCB && size <= 1000 * PAGE && s.lost == 0
    ensures Enabled(s, Alloc(size, 1, false, false))
    ensures var s' := Apply(s, Alloc(size, 1, false, false));
            s' == s.(loader := s.loader.(tlsOff := TCB + size), lost := size, refused := s'.refused)
  {
    AlignedFixed(TCB, 1);
  }

  lemma Regranted(s: State, size: nat)
    requires s.section.Some? && s.pending.None? && s.loader.tlsOff == TCB + size && s.modules == []
    requires 2 * PAGE <= size <= 1000 * PAGE
    requires Master(s).loadSize == TCB && Master(s).rw == {0}
    ensures Enabled(s, Alloc(size, 1, false, true))
    ensures var s' := Apply(s, Alloc(size, 1, false, true)); var m := Master(s');
            && |s'.modules| == 1 && s'.modules[0].off == m.loadSize == TCB + size && s'.modules[0].size == size
            && s'.lost == s.lost && !Mapped(m, PAGE)
  {
    AlignedFixed(TCB + size, 1);
    ProtectedPages(TCB + size, size, 1, 1);
    assert PageOf(PAGE) == 1;
  }

  lemma RunOne(s: State, step: Step)
    requires Enabled(s, step)
    ensures CanRun(s, [step]) && Run(s, [step]) == Apply(s, step)
  {
    assert [step][1..] == [];
    assert CanRun(Apply(s, step), []);
  }

  lemma RunCons(s: State, step: Step, rest: seq<Step>)
    requires Enabled(s, step) && CanRun(Apply(s, step), rest)
    ensures CanRun(s, [step] + rest) && Run(s, [step] + rest) == Run(Apply(s, step), rest)
  {
    assert ([step] + rest)[1..] == rest;
  }

  /** Every page of a thread's range is accessible. */
  lemma ThreadPagesMapped(steps: seq<Step>, t: Tid, off: int)
    requires CanRun(INIT, steps) && t in Run(INIT, steps).threads
    requires InRange(Run(INIT, steps).threads[t].block, off)
    ensures Mapped(Run(INIT, steps).threads[t].block, off)
  {
    Reached(steps);
    assert ThreadOk(Run(INIT, steps), Run(INIT, steps).threads[t]);
  }

  /** Whatever has been refused, every byte of every module is on an accessible page, so `load_tls` can store it. */
  lemma ModuleBytesMapped(steps: seq<Step>, k: nat, off: int)
    requires CanRun(INIT, steps) && k < |Run(INIT, steps).modules|
    requires var d := Run(INIT, steps).modules[k]; d.off <= off < d.off + d.size
    ensures Mapped(Master(Run(INIT, steps)), off)
  {
    Reached(steps);
    var s := Run(INIT, steps);
    assert Placed(s, s.modules[k]);
    assert OnPage(s.modules[k], PageOf(off));
  }

  /** In every run, an executable's module is less than its alignment away from the thread pointer. */
  lemma PadBelowAlignment(steps: seq<Step>, k: nat)
    requires CanRun(INIT, steps) && k < |Run(INIT, steps).modules| && Run(INIT, steps).modules[k].exec
    ensures 0 <= Pad(Run(INIT, steps).modules[k]) < Run(INIT, steps).modules[k].align
  {
    Reached(steps);
    assert Placed(Run(INIT, steps), Run(INIT, steps).modules[k]);
  }

  /** The padding above every executable's module is less than a page. */
  ghost predicate NarrowPads(modules: seq<Module>) {
    forall k :: 0 <= k < |modules| && modules[k].exec ==> Pad(modules[k]) < PAGE
  }

  /** In every run, the master's range below the thread pointer is accessible iff no padding fills a page. */
  lemma DynPagesMappedIff(steps: seq<Step>)
    requires CanRun(INIT, steps)
    ensures var s := Run(INIT, steps);
            RangeMapped(Master(s), -Master(s).dynSize, 0) <==> NarrowPads(s.modules)
  {
    Reached(steps);
    var s := Run(INIT, steps);
    var m := Master(s);
    if m.dynSize > 0 {
      var k :| 0 <= k < |s.modules| && IsDyn(s, s.modules[k]);
      NarrowIff(s, k);
      if Pad(s.modules[k]) < PAGE { NarrowMapped(s, k); } else { TopPageUntouched(s, k); }
    } else {
      NoneIsNarrow(s);
    }
  }

  lemma NarrowIff(s: State, k: nat)
    requires Inv(s) && k < |s.modules| && IsDyn(s, s.modules[k]) && Master(s).dynSize > 0
    ensures NarrowPads(s.modules) <==> Pad(s.modules[k]) < PAGE
  {
    OnlyDyn(s, k);
  }

  lemma NoneIsNarrow(s: State)
    requires Inv(s) && Master(s).dynSize == 0
    ensures NarrowPads(s.modules)
  {
    forall k | 0 <= k < |s.modules| && s.modules[k].exec
      ensures Pad(s.modules[k]) < PAGE
    {
      assert Placed(s, s.modules[k]);
    }
  }

  lemma NarrowMapped(s: State, k: nat)
    requires Inv(s) && k < |s.modules| && IsDyn(s, s.modules[k]) && Pad(s.modules[k]) < PAGE
    ensures RangeMapped(Master(s), -Master(s).dynSize, 0)
  {
    assert Placed(s, s.modules[k]);
    forall off | -Master(s).dynSize <= off < 0
      ensures Mapped(Master(s), off)
    {
      assert OnPage(s.modules[k], PageOf(off));
    }
  }

  /** All other executables' modules are empty. */
  lemma OnlyDyn(s: State, k: nat)
    requires Inv(s) && k < |s.modules| && IsDyn(s, s.modules[k]) && Master(s).dynSize > 0
    ensures forall j :: 0 <= j < |s.modules| && s.modules[j].exec && j != k ==>
              s.modules[j].off == 0 && s.modules[j].size == 0
  {
  }

  /** With a page or more of padding, the page right below the thread pointer is not accessible. */
  lemma TopPageUntouched(s: State, k: nat)
    requires Inv(s) && k < |s.modules| && IsDyn(s, s.modules[k]) && Master(s).dynSize > 0 && Pad(s.modules[k]) >= PAGE
    ensures !Mapped(Master(s), -1)
  {
    OnlyDyn(s, k);
    forall j | 0 <= j < |s.modules|
      ensures !OnPage(s.modules[j], -1)
    {
      assert Placed(s, s.modules[j]);
    }
    assert PageOf(-1) == -1 && !Touched(s.modules, -1);
  }

  /** Page `p` fell to refused allocations: all its bytes below the cursor did, and no empty module was put in it. */
  ghost predicate Swallowed(s: State, p: int) {
    && (forall x :: PAGE * p <= x < PAGE * p + PAGE && x < s.loader.tlsOff ==> InGap(s.refused, x))
    && (forall k :: 0 <= k < |s.modules| && s.modules[k].from == s.modules[k].off + s.modules[k].size ==>
          !(PAGE * p < s.modules[k].from < PAGE * p + PAGE))
  }

  /** In every run, a page below the cursor, past the first, is inaccessible iff it fell to refused allocations. */
  lemma PageLostIff(steps: seq<Step>, p: int)
    requires CanRun(INIT, steps) && 0 < PAGE * p < Run(INIT, steps).loader.tlsOff
    ensures p in Master(Run(INIT, steps)).rw <==> !Swallowed(Run(INIT, steps), p)
  {
    Reached(steps);
    var s := Run(INIT, steps);
    if Touched(s.modules, p) {
      var k :| 0 <= k < |s.modules| && OnPage(s.modules[k], p);
      TouchedNotSwallowed(s, k, p);
    } else {
      UntouchedSwallowed(s, p);
    }
  }

  lemma TouchedNotSwallowed(s: State, k: nat, p: int)
    requires Inv(s) && k < |s.modules| && OnPage(s.modules[k], p) && p > 0
    ensures !Swallowed(s, p)
  {
    var d := s.modules[k];
    assert Placed(s, d);
    if d.from < d.off + d.size {
      var x := if d.from < PAGE * p then PAGE * p else d.from;
      assert Covers(d, x) && InGrant(s.modules, x);
      assert !InGap(s.refused, x);
    }
  }

  lemma UntouchedSwallowed(s: State, p: int)
    requires Inv(s) && !Touched(s.modules, p) && p > 0
    ensures Swallowed(s, p)
  {
    forall x | PAGE * p <= x < PAGE * p + PAGE && x < s.loader.tlsOff
      ensures InGap(s.refused, x)
    {
      forall k | 0 <= k < |s.modules|
        ensures !Covers(s.modules[k], x)
      {
        assert !OnPage(s.modules[k], p);
      }
      assert !InGrant(s.modules, x);
    }
    forall k | 0 <= k < |s.modules| && s.modules[k].from == s.modules[k].off + s.modules[k].size
      ensures !(PAGE * p < s.modules[k].from < PAGE * p + PAGE)
    {
      assert !OnPage(s.modules[k], p);
    }
  }

  /** No page that holds a byte below `load_size`, past the first, fell to refused allocations. */
  ghost predicate NoPageLost(s: State) {
    forall p :: 0 < PAGE * p < Master(s).loadSize ==> !Swallowed(s, p)
  }

  /**
    In every run, every page of the master's range is accessible, so that `update_tls` can read it, iff
    no executable's padding fills a page and no page fell to refused allocations.
    */
  lemma MasterPagesMappedIff(steps: seq<Step>)
    requires CanRun(INIT, steps)
    ensures var s := Run(INIT, steps); var m := Master(s);
            RangeMapped(m, -m.dynSize, m.loadSize) <==> NarrowPads(s.modules) && NoPageLost(s)
  {
    DynPagesMappedIff(steps);
    Reached(steps);
    var s := Run(INIT, steps);
    UpperMappedIff(steps);
    RangesJoin(Master(s), -Master(s).dynSize, Master(s).loadSize);
  }

  lemma UpperMappedIff(steps: seq<Step>)
    requires CanRun(INIT, steps)
    ensures var s := Run(INIT, steps); RangeMapped(Master(s), 0, Master(s).loadSize) <==> NoPageLost(s)
  {
    Reached(steps);
    var s := Run(INIT, steps);
    var m := Master(s);
    if RangeMapped(m, 0, m.loadSize) {
      forall p | 0 < PAGE * p < m.loadSize
        ensures !Swallowed(s, p)
      {
        assert Mapped(m, PAGE * p) && PageOf(PAGE * p) == p;
        PageLostIff(steps, p);
      }
    }
    if NoPageLost(s) {
      forall off | 0 <= off < m.loadSize
        ensures Mapped(m, off)
      {
        var p := PageOf(off);
        assert PAGE * p <= off;
        if p > 0 {
          assert !Swallowed(s, p);
          PageLostIff(steps, p);
        }
      }
    }
  }

  lemma RangesJoin(b: Block, lo: int, hi: int)
    requires lo <= 0 <= hi
    ensures RangeMapped(b, lo, hi) <==> RangeMapped(b, lo, 0) && RangeMapped(b, 0, hi)
  {
    if RangeMapped(b, lo, 0) && RangeMapped(b, 0, hi) {
      forall off | lo <= off < hi
        ensures Mapped(b, off)
      {
        if off < 0 { assert RangeMapped(b, lo, 0); } else { assert RangeMapped(b, 0, hi); }
      }
    }
  }

  /** In every run without refusals whose executables ask for at most page alignment, the whole range is accessible. */
  lemma PageAlignedIsMapped(steps: seq<Step>)
    requires CanRun(INIT, steps) && Run(INIT, steps).lost == 0
    requires forall k :: 0 <= k < |Run(INIT, steps).modules| && Run(INIT, steps).modules[k].exec ==>
               Run(INIT, steps).modules[k].align <= PAGE
    ensures var m := Master(Run(INIT, steps)); RangeMapped(m, -m.dynSize, m.loadSize)
  {
    Reached(steps);
    var s := Run(INIT, steps);
    forall k | 0 <= k < |s.modules| && s.modules[k].exec
      ensures Pad(s.modules[k]) < PAGE
    {
      PadBelowAlignment(steps, k);
    }
    UpperMappedIff(steps);
    MasterPagesMappedIff(steps);
  }

  /** An executable with one byte of TLS. */
  function WidePadRun(align: nat): seq<Step> { [BeginLoad] + [Alloc(1, align, true, true)] }

  /** Aligned to two pages or more, it leaves a page of the master's range inaccessible. */
  lemma WidePadExample(align: nat)
    requires IsPow2(align) && 2 * PAGE <= align <= HALF / 2
    ensures CanRun(INIT, WidePadRun(align))
    ensures var m := Master(Run(INIT, WidePadRun(align)));
            m.dynSize == align && !RangeMapped(m, -m.dynSize, m.loadSize)
  {
    var s1 := Apply(INIT, BeginLoad);
    var step := Alloc(1, align, true, true);
    OneByteBelow(s1, align);
    RunOne(s1, step);
    RunCons(INIT, BeginLoad, [step]);
    MasterPagesMappedIff(WidePadRun(align));
    assert Pad(Run(INIT, WidePadRun(align)).modules[0]) == align - 1;
  }

  lemma OneByteBelow(s: State, align: nat)
    requires s.section.Some? && s.pending.None? && s.modules == [] && Master(s).dynSize == 0
    requires IsPow2(align) && 2 * PAGE <= align <= HALF / 2
    ensures Enabled(s, Alloc(1, align, true, true))
    ensures var s' := Apply(s, Alloc(1, align, true, true));
            && |s'.modules| == 1 && s'.modules[0].exec && Pad(s'.modules[0]) == align - 1
            && Master(s').dynSize == align
  {
    OneByteFits(s.loader, align);
  }

  lemma OneByteFits(l: Loader, align: nat)
    requires 2 * PAGE <= align <= HALF / 2
    ensures AfterAlloc(l, 1, align, true, true).1 == Allocated(-(align as int))
    ensures AfterAlloc(l, 1, align, true, true).0.master.dynSize == align
  {
    DivUnique(-1, align, -1, align - 1);
    var val := FloorTo(-1, align);
    assert val == -(align as int);
    AlignedFixed(val, align);
    assert -HALF <= ProtectAt(val);
  }

  // ---------------------------------------------------------------- a second executable

  /** A thread's bytes below the thread pointer are the master's. */
  ghost predicate DynCurrent(t: Block, m: Block)
    requires BlockOk(t) && BlockOk(m)
  {
    t.dynSize == m.dynSize && forall off :: -m.dynSize <= off < 0 ==> At(t, off) == At(m, off)
  }

  /** What `update_tls` does below the thread pointer. */
  lemma UpdateBelow(t: Block, m: Block)
    requires BlockOk(t) && BlockOk(m)
    ensures BlockOk(Update(t, m))
    ensures DynCurrent(Update(t, m), m) <==>
            t.dynSize <= m.dynSize && forall off :: -t.dynSize <= off < 0 ==> At(t, off) == At(m, off)
  {
    var t1 := CopyStatic(t, m);
    var t2 := Update(t, m);
    assert forall off :: -HALF <= off < 0 ==> At(t1, off) == At(t, off);
    assert forall off :: -HALF <= off < 0 ==>
        At(t2, off) == if t.dynSize < m.dynSize && -m.dynSize <= off < -t.dynSize then At(m, off) else At(t, off);
  }

  /** The master after `alloc_tls` for a further executable and `load_tls` of its image. */
  function SecondExecutable(l: Loader, size: nat, align: nat, data: seq<byte>): Block
    requires align > 0 && BlockOk(l.master) && TCB <= l.tlsOff && |data| <= size
    requires AfterAlloc(l, size, align, true, true).1.Allocated?
  {
    AllocFacts(l, size, align, true, true);
    var (l', r) := AfterAlloc(l, size, align, true, true);
    AfterLoad(l'.master, r.off, data)
  }

  /**
    `alloc_tls` for a second executable replaces `dyn_size`.  A thread that had caught up with the
    first is right again after its update iff the second needs at least as much room, and its image
    agrees with the first wherever the two overlap.
    */
  lemma SecondExecutableIff(l: Loader, t: Block, size: nat, align: nat, data: seq<byte>)
    requires align > 0 && BlockOk(l.master) && TCB <= l.tlsOff && |data| <= size
    requires AfterAlloc(l, size, align, true, true).1.Allocated?
    requires BlockOk(t) && DynCurrent(t, l.master)
    ensures var m := l.master; var m' := SecondExecutable(l, size, align, data);
            var off := AfterAlloc(l, size, align, true, true).1.off;
            && BlockOk(m') && BlockOk(Update(t, m')) && -HALF <= off && off + |data| <= 0
            && (DynCurrent(Update(t, m'), m') <==>
                m.dynSize <= -off &&
                forall i :: 0 <= i < |data| && -m.dynSize <= off + i ==> data[i] == At(m, off + i))
  {
    AllocFacts(l, size, align, true, true);
    var m, m' := l.master, SecondExecutable(l, size, align, data);
    var off := AfterAlloc(l, size, align, true, true).1.off;
    UpdateBelow(t, m');
    assert forall x :: -HALF <= x < 0 ==> At(m', x) == if off <= x < off + |data| then data[x - off] else At(m, x);
    if forall x :: -t.dynSize <= x < 0 ==> At(t, x) == At(m', x) {
      forall i | 0 <= i < |data| && -m.dynSize <= off + i
        ensures data[i] == At(m, off + i)
      {
        assert At(t, off + i) == At(m', off + i);
      }
    }
  }

  /** Two executables with eight bytes of TLS each: a thread that saw the first never sees the second's image. */
  lemma SecondExecutableExample()
    ensures var l0 := Loader(TCB, Fresh());
            && AfterAlloc(l0, 8, 1, true, true).1 == Allocated(-8)
            && var l1 := AfterAlloc(l0, 8, 1, true, true).0;
               && BlockOk(l1.master) && AfterAlloc(l1, 8, 1, true, true).1 == Allocated(-8)
               && var t := Update(Fresh(), l1.master); var m' := SecondExecutable(l1, 8, 1, [1]);
                  && BlockOk(t) && BlockOk(m') && BlockOk(Update(t, m'))
                  && Update(t, m').version == m'.version && At(m', -8) == 1 && At(Update(t, m'), -8) == 0
  {
    var l0 := Loader(TCB, Fresh());
    var l1 := AfterAlloc(l0, 8, 1, true, true).0;
    AllocFacts(l0, 8, 1, true, true);
    UpdateBelow(Fresh(), l1.master);
    var t := Update(Fresh(), l1.master);
    SecondExecutableIff(l1, t, 8, 1, [1]);
  }
}
