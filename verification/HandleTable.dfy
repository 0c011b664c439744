/** The per-thread handle table: 512 slots, a rotating search for a free one, and a live count. */
module HandleTable {
  import opened Bits
  import opened Wrappers

  const NHANDLES: nat := 512
  const HANDLE_SIZE: nat := 32

  datatype Handle = Handle(ty: nat, blob1: int, blob2: int, fd: int)

  const ZEROED := Handle(0, 0, 0, 0)

  datatype Table = Table(slots: seq<Handle>, hint: nat, live: int)

  function Empty(): Table { Table(seq(NHANDLES, _ => ZEROED), 0, 0) }

  /** How many slots are occupied. */
  function Occupied(slots: seq<Handle>): nat {
    if slots == [] then 0 else Occupied(slots[..|slots| - 1]) + (if slots[|slots| - 1].ty != 0 then 1 else 0)
  }

  ghost predicate Valid(t: Table) {
    |t.slots| == NHANDLES && t.hint < NHANDLES && t.live == Occupied(t.slots)
  }

  /** The slot the search visits after `n` others. */
  function Visit(hint: nat, n: nat): (r: nat)
    ensures r < NHANDLES
  {
    (n + hint) % NHANDLES
  }

  /** The first free slot in search order, from the `n`-th visit on. */
  function FindFree(slots: seq<Handle>, hint: nat, n: nat): (r: Option<nat>)
    requires |slots| == NHANDLES && n <= NHANDLES
    ensures r.Some? ==> r.value < NHANDLES && slots[r.value].ty == 0
    decreases NHANDLES - n
  {
    if n == NHANDLES then None
    else if slots[Visit(hint, n)].ty == 0 then Some(Visit(hint, n))
    else FindFree(slots, hint, n + 1)
  }

  function AfterInsert(t: Table, h: Handle): (Table, Option<nat>)
    requires |t.slots| == NHANDLES
  {
    match FindFree(t.slots, t.hint, 0)
    case None => (t, None)
    case Some(n) => (Table(t.slots[n := h], n, t.live + 1), Some(n))
  }

  /** `x as i32`. */
  function AsI32(x: int): (r: int)
    ensures -0x8000_0000 <= r < 0x8000_0000
  {
    (x + 0x8000_0000) % 0x1_0000_0000 - 0x8000_0000
  }

  /** The descriptor closed is the one held iff that is an `i32`; the negated one must not be the least of them. */
  lemma ClosesHeldIff(fd: int, blob2: int)
    ensures AsI32(fd) == fd <==> -0x8000_0000 <= fd < 0x8000_0000
    ensures blob2 < 0 ==> (AsI32(-AsI32(blob2)) == -blob2 <==> -0x8000_0000 < blob2)
  {
  }

  function AfterClose(t: Table, n: nat): Table
    requires n < |t.slots|
  {
    t.(slots := t.slots[n := ZEROED], live := t.live - 1)
  }

  // ---------------------------------------------------------------- the search misses nothing

  lemma {:induction false} FindFreeMissesNone(slots: seq<Handle>, hint: nat, n: nat)
    requires |slots| == NHANDLES && n <= NHANDLES
    ensures FindFree(slots, hint, n).None? ==> forall k :: n <= k < NHANDLES ==> slots[Visit(hint, k)].ty != 0
    decreases NHANDLES - n
  {
    if n < NHANDLES && slots[Visit(hint, n)].ty != 0 { FindFreeMissesNone(slots, hint, n + 1); }
  }

  /** Every slot is visited, whatever the hint. */
  lemma EverySlotVisited(hint: nat, i: nat) returns (n: nat)
    requires i < NHANDLES && hint < NHANDLES
    ensures n < NHANDLES && Visit(hint, n) == i
  {
    n := if i >= hint then i - hint else i + NHANDLES - hint;
  }

  lemma {:induction false} OccupiedBound(slots: seq<Handle>)
    ensures Occupied(slots) <= |slots|
    ensures Occupied(slots) == |slots| <==> forall i :: 0 <= i < |slots| ==> slots[i].ty != 0
  {
    if slots != [] { OccupiedBound(slots[..|slots| - 1]); }
  }

  lemma {:induction false} OccupiedUpdate(slots: seq<Handle>, n: nat, h: Handle)
    requires n < |slots|
    ensures Occupied(slots[n := h]) ==
            Occupied(slots) - (if slots[n].ty != 0 then 1 else 0) + (if h.ty != 0 then 1 else 0)
  {
    var m := |slots| - 1;
    if n < m {
      OccupiedUpdate(slots[..m], n, h);
      assert slots[n := h][..m] == slots[..m][n := h];
    } else {
      assert slots[n := h][..m] == slots[..m];
    }
  }

  /** An insert fails exactly when the table is full, whatever the hint; and it only fills a free slot. */
  lemma InsertFailsIffFull(t: Table, h: Handle)
    requires Valid(t)
    ensures var (t', r) := AfterInsert(t, h);
            && (r.None? <==> t.live == NHANDLES)
            && (r.None? ==> t' == t)
            && (r.Some? ==> r.value < NHANDLES && t.slots[r.value].ty == 0 && t'.slots == t.slots[r.value := h])
  {
    FindFreeMissesNone(t.slots, t.hint, 0);
    OccupiedBound(t.slots);
    if FindFree(t.slots, t.hint, 0).None? {
      forall i | 0 <= i < NHANDLES
        ensures t.slots[i].ty != 0
      {
        var n := EverySlotVisited(t.hint, i);
        assert t.slots[Visit(t.hint, n)].ty != 0;
      }
    }
  }

  /** How many slots the search visits before slot `n`. */
  function Distance(hint: nat, n: nat): nat
    requires hint < NHANDLES && n < NHANDLES
  {
    if n >= hint then n - hint else n + NHANDLES - hint
  }

  lemma VisitAtDistance(hint: nat, n: nat)
    requires hint < NHANDLES && n < NHANDLES
    ensures Distance(hint, n) < NHANDLES && Visit(hint, Distance(hint, n)) == n
  {
  }

  /**
    Which slot an insert takes: the first free one from the last one taken on, going round; and the next
    search starts there.
    */
  lemma InsertTakesFirstFree(t: Table, h: Handle, d: nat)
    requires Valid(t) && AfterInsert(t, h).1.Some?
    ensures var (t', r) := AfterInsert(t, h);
            && r.value < NHANDLES && t'.hint == r.value && t'.live == t.live + 1
            && (d < Distance(t.hint, r.value) ==> t.slots[(d + t.hint) % NHANDLES].ty != 0)
  {
    var n := FindFree(t.slots, t.hint, 0).value;
    VisitAtDistance(t.hint, n);
    if d < Distance(t.hint, n) { SkipsOnlyOccupied(t.slots, t.hint, 0, Distance(t.hint, n), d); }
  }

  lemma {:induction false} SkipsOnlyOccupied(slots: seq<Handle>, hint: nat, from: nat, k: nat, d: nat)
    requires |slots| == NHANDLES && hint < NHANDLES && from <= d < k < NHANDLES
    requires FindFree(slots, hint, from) == Some(Visit(hint, k))
    ensures slots[Visit(hint, d)].ty != 0
    decreases NHANDLES - from
  {
    assert Visit(hint, from) != Visit(hint, k);
    if from < d { SkipsOnlyOccupied(slots, hint, from + 1, k, d); }
  }

  /** A closed slot is all zeros, and no other slot changes. */
  lemma CloseClears(t: Table, n: nat, i: nat)
    requires n < |t.slots| && i < |t.slots|
    ensures var t' := AfterClose(t, n);
            && |t'.slots| == |t.slots| && t'.live == t.live - 1 && t'.hint == t.hint
            && t'.slots[i] == if i == n then Handle(0, 0, 0, 0) else t.slots[i]
  {
  }

  /** The live count stays right after an insert iff it failed or the handle's type is not zero. */
  lemma InsertKeepsCountIff(t: Table, h: Handle)
    requires Valid(t)
    ensures Valid(AfterInsert(t, h).0) <==> AfterInsert(t, h).1.None? || h.ty != 0
  {
    InsertFailsIffFull(t, h);
    var (t', r) := AfterInsert(t, h);
    if r.Some? { OccupiedUpdate(t.slots, r.value, h); }
  }

  lemma CloseKeepsCount(t: Table, n: nat)
    requires Valid(t) && n < NHANDLES && t.slots[n].ty != 0
    ensures Valid(AfterClose(t, n))
  {
    OccupiedUpdate(t.slots, n, ZEROED);
  }

  // ---------------------------------------------------------------- whole runs

  datatype Op = Insert(h: Handle) | Close(n: nat)

  /** Inserts have a non-zero type; only live handles are closed. */
  ghost predicate CanRun(t: Table, ops: seq<Op>)
    requires |t.slots| == NHANDLES
    decreases |ops|
  {
    ops == [] ||
    match ops[0]
    case Insert(h) => h.ty != 0 && CanRun(AfterInsert(t, h).0, ops[1..])
    case Close(n) => n < NHANDLES && t.slots[n].ty != 0 && CanRun(AfterClose(t, n), ops[1..])
  }

  ghost function Run(t: Table, ops: seq<Op>): (r: Table)
    requires |t.slots| == NHANDLES && CanRun(t, ops)
    ensures |r.slots| == NHANDLES
    decreases |ops|
  {
    if ops == [] then t
    else
      match ops[0]
      case Insert(h) => Run(AfterInsert(t, h).0, ops[1..])
      case Close(n) => Run(AfterClose(t, n), ops[1..])
  }

  /** Over any run the live count is the number of occupied slots. */
  lemma {:induction false} CountsOverRuns(t: Table, ops: seq<Op>)
    requires Valid(t) && CanRun(t, ops)
    ensures Valid(Run(t, ops))
    decreases |ops|
  {
    if ops != [] {
      match ops[0]
      case Insert(h) =>
        InsertKeepsCountIff(t, h);
        CountsOverRuns(AfterInsert(t, h).0, ops[1..]);
      case Close(n) =>
        CloseKeepsCount(t, n);
        CountsOverRuns(AfterClose(t, n), ops[1..]);
    }
  }

  /** A live handle keeps its contents through any run that does not close it. */
  lemma {:induction false} HandleStaysPut(t: Table, ops: seq<Op>, n: nat)
    requires Valid(t) && CanRun(t, ops) && n < NHANDLES && t.slots[n].ty != 0
    requires forall i :: 0 <= i < |ops| ==> ops[i] != Close(n)
    ensures Run(t, ops).slots[n] == t.slots[n]
    decreases |ops|
  {
    if ops != [] {
      match ops[0]
      case Insert(h) =>
        InsertFailsIffFull(t, h);
        InsertKeepsCountIff(t, h);
        HandleStaysPut(AfterInsert(t, h).0, ops[1..], n);
      case Close(m) =>
        CloseKeepsCount(t, m);
        assert m != n;
        HandleStaysPut(AfterClose(t, m), ops[1..], n);
    }
  }

  // ---------------------------------------------------------------- the code, in place

  class HandleArray {
    const slots: array<Handle>
    var startHint: nat
    var liveHandles: int

    ghost function View(): Table
      reads this, slots
    {
      Table(slots[..], startHint, liveHandles)
    }

    constructor ()
      ensures View() == Empty() && fresh(slots)
    {
      slots := new Handle[NHANDLES](_ => ZEROED);
      startHint, liveHandles := 0, 0;
    }

    method InsertHandle(h: Handle) returns (r: Option<nat>)
      requires slots.Length == NHANDLES
      modifies this, slots
      ensures (View(), r) == AfterInsert(old(View()), h)
    {
      var start := startHint;
      for i := 0 to NHANDLES
        invariant View() == old(View())
        invariant FindFree(slots[..], start, 0) == FindFree(slots[..], start, i)
      {
        MaskIsMod(i + start);
        var n := And(i + start, NHANDLES - 1);
        if slots[n].ty == 0 {
          startHint := n;
          liveHandles := liveHandles + 1;
          slots[n] := h;
          return Some(n);
        }
      }
      return None;
    }

    /** `Handle::close`; the descriptors handed to `close` are returned. */
    method Close(n: nat, useFd2: bool) returns (closed: seq<int>)
      requires slots.Length == NHANDLES && n < NHANDLES
      modifies this, slots
      ensures View() == AfterClose(old(View()), n)
      ensures var h := old(slots[n]);
              closed == (if useFd2 && h.blob2 < 0 then [AsI32(-AsI32(h.blob2))] else [])
                        + (if h.fd >= 0 then [AsI32(h.fd)] else [])
    {
      liveHandles := liveHandles - 1;
      closed := [];
      if useFd2 && slots[n].blob2 < 0 { closed := closed + [AsI32(-AsI32(slots[n].blob2))]; }
      if slots[n].fd >= 0 { closed := closed + [AsI32(slots[n].fd)]; }
      slots[n] := ZEROED;
    }

    /** `try_deref` of a pointer `addr` bytes past the start of the array. */
    method TryDeref(addr: int) returns (r: Option<Handle>)
      requires slots.Length == NHANDLES
      ensures r.Some? <==> exists n :: 0 <= n < NHANDLES && addr == HANDLE_SIZE * n && slots[n].ty != 0
      ensures r.Some? ==> r.value == slots[addr / HANDLE_SIZE]
    {
      if 0 <= addr < HANDLE_SIZE * NHANDLES && addr % HANDLE_SIZE == 0 && slots[addr / HANDLE_SIZE].ty != 0 {
        assert addr == HANDLE_SIZE * (addr / HANDLE_SIZE);
        return Some(slots[addr / HANDLE_SIZE]);
      }
      return None;
    }
  }

  lemma MaskIsMod(v: nat)
    ensures And(v, NHANDLES - 1) == v % NHANDLES
  {
    assert Pow2(9) == NHANDLES;
    AndLow(v, 9);
  }
}
