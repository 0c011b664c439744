/**
  Thread-local storage blocks of the loader: the master block that modules are loaded into, and
  the per-thread blocks that catch up with it.  Offsets are relative to the thread pointer, which
  sits in the page-aligned middle of a block; the TCB occupies the first 32 bytes from there on.
 */
module Tls {
  import opened Bits

  const BLOCK: nat := 0x400_0000      // TLS_BLOCK_SIZE
  const HALF: int := 0x200_0000       // TLS_BLOCK_SIZE >> 1
  const TCB: int := 32                // size_of::<Tcb>()

  /** A block: the TCB fields, the bytes (the byte at offset `off` is `bytes[off + HALF]`) and the accessible pages. */
  datatype Block = Block(loadSize: int, dynSize: int, version: nat, bytes: seq<byte>, rw: set<int>)

  predicate Offset(off: int) { -HALF <= off < HALF }

  predicate BlockOk(b: Block) {
    |b.bytes| == BLOCK && TCB <= b.loadSize <= HALF && 0 <= b.dynSize <= HALF
  }

  function At(b: Block, off: int): byte
    requires |b.bytes| == BLOCK && Offset(off)
  {
    b.bytes[off + HALF]
  }

  /** The bytes a thread may use, TCB included. */
  predicate InRange(b: Block, off: int) { -b.dynSize <= off < b.loadSize }

  predicate InTcb(off: int) { 0 <= off < TCB }

  /** A freshly mapped block with its TCB written: `setup_tls_mc` and `set_tp`. */
  function Fresh(): (b: Block)
    ensures BlockOk(b)
  {
    Block(TCB, 0, 0, seq(BLOCK, _ => 0), {0})
  }

  // ---------------------------------------------------------------- pages

  function PageOf(off: int): int { off / PAGE }

  /** The pages touched by `mprotect(pg, len)`; `pg` is page-aligned and `len` is rounded up. */
  function Pages(pg: int, len: nat): (r: set<int>)
    ensures forall p :: p in r <==> pg / PAGE <= p < (pg + len + (PAGE - 1)) / PAGE
  {
    var lo, hi := pg / PAGE, (pg + len + (PAGE - 1)) / PAGE;
    set p: int | lo <= p < hi && Between(lo, p, hi)
  }

  predicate Between(lo: int, p: int, hi: int) { lo <= p < hi }

  predicate Mapped(b: Block, off: int) { PageOf(off) in b.rw }

  predicate RangeMapped(b: Block, lo: int, hi: int) { forall off :: lo <= off < hi ==> Mapped(b, off) }

  lemma PagesCover(pg: int, len: nat, off: int)
    requires pg % PAGE == 0 && pg <= off < pg + len
    ensures PageOf(off) in Pages(pg, len)
  {
  }

  /** The `mprotect` call below the thread pointer covers the bytes from `-hi` up to `-lo`. */
  lemma PagesCoverBelow(lo: int, hi: int, off: int)
    requires 0 <= lo <= hi && -hi <= off < -lo
    ensures AlignUp(hi, PAGE) >= lo && PageOf(off) in Pages(-AlignUp(hi, PAGE), AlignUp(hi, PAGE) - lo)
  {
    var top := AlignUp(hi, PAGE);
    var k := top / PAGE;
    assert -top == PAGE * -k;
    PagesCover(PAGE * -k, top - lo, off);
  }

  // ---------------------------------------------------------------- copying

  /** `dst` with its bytes at offsets `[lo, hi)` replaced by those of `src`. */
  function Copy(dst: seq<byte>, src: seq<byte>, lo: int, hi: int): (r: seq<byte>)
    requires |dst| == |src| == BLOCK && -HALF <= lo <= hi <= HALF
    ensures |r| == BLOCK
    ensures forall off :: Offset(off) ==> r[off + HALF] == if lo <= off < hi then src[off + HALF] else dst[off + HALF]
  {
    var a, b := lo + HALF, hi + HALF;
    dst[..a] + src[a..b] + dst[b..]
  }

  /** `dst` with `data` stored from offset `at` on. */
  function Store(dst: seq<byte>, at: int, data: seq<byte>): (r: seq<byte>)
    requires |dst| == BLOCK && -HALF <= at && at + |data| <= HALF
    ensures |r| == BLOCK
    ensures forall off :: Offset(off) ==>
              r[off + HALF] == if at <= off < at + |data| then data[off - at] else dst[off + HALF]
  {
    dst[..at + HALF] + data + dst[at + HALF + |data|..]
  }

  // ---------------------------------------------------------------- alloc_tls

  /** The loader's share of the state: the allocation cursor and the master block. */
  datatype Loader = Loader(tlsOff: int, master: Block)

  datatype AllocResult = Allocated(off: int) | AllocError

  /** Where a module goes: the cursor before alignment, or for the executable the offset below the thread pointer. */
  function Cursor(l: Loader, size: nat, align: nat, exec: bool): int
    requires align > 0
  {
    if exec then FloorTo(-(size as int), align) else l.tlsOff
  }

  /** The cursor after a non-executable allocation. */
  function NextOff(l: Loader, size: nat, align: nat): int
    requires align > 0
  {
    AlignUp(l.tlsOff, align) + size
  }

  /** The `mprotect` call of an allocation. */
  function ProtectAt(val: int): int { FloorTo(val, PAGE) }

  function ProtectLen(val: int, size: nat, align: nat): nat
    requires align > 0
  {
    size + (AlignUp(val, align) - ProtectAt(val))
  }

  /** The kernel grants a request only inside the block, and may refuse any. */
  predicate Granted(val: int, size: nat, align: nat, kernel: bool)
    requires align > 0
  {
    kernel && -HALF <= ProtectAt(val) && ProtectAt(val) + ProtectLen(val, size, align) <= HALF
  }

  /** `alloc_tls`; `kernel` is the kernel's answer to `mprotect`. */
  function AfterAlloc(l: Loader, size: nat, align: nat, exec: bool, kernel: bool): (Loader, AllocResult)
    requires align > 0
  {
    if !exec && NextOff(l, size, align) > HALF then (l, AllocError)
    else
      var moved := if exec then l else l.(tlsOff := NextOff(l, size, align));
      AfterProtect(moved, Cursor(l, size, align, exec), size, align, exec, kernel)
  }

  /** What follows once the cursor has moved. */
  function AfterProtect(l: Loader, val: int, size: nat, align: nat, exec: bool, kernel: bool): (Loader, AllocResult)
    requires align > 0
  {
    if !Granted(val, size, align, kernel) then (l, AllocError)
    else
      var aligned := AlignUp(val, align);
      var m := l.master;
      var rw := m.rw + Pages(ProtectAt(val), ProtectLen(val, size, align));
      var m' := if exec
                then m.(dynSize := -aligned, version := m.version + 1, rw := rw)
                else m.(loadSize := m.loadSize + size + (aligned - val), version := m.version + 1, rw := rw);
      (l.(master := m'), Allocated(aligned))
  }

  /** `load_tls`: the module's initial image is copied into the master block. */
  function AfterLoad(m: Block, at: int, data: seq<byte>): Block
    requires |m.bytes| == BLOCK && -HALF <= at && at + |data| <= HALF
  {
    m.(bytes := Store(m.bytes, at, data))
  }

  // ---------------------------------------------------------------- update_tls, in its three parts

  /** Catch up above the thread pointer. */
  function CopyStatic(t: Block, m: Block): Block
    requires BlockOk(t) && BlockOk(m)
  {
    if t.loadSize < m.loadSize then
      var pg := FloorTo(t.loadSize, PAGE);
      t.(rw := t.rw + Pages(pg, m.loadSize - pg),
         bytes := Copy(t.bytes, m.bytes, t.loadSize, m.loadSize),
         loadSize := m.loadSize)
    else t
  }

  /** Catch up below the thread pointer. */
  function CopyDyn(t: Block, m: Block): Block
    requires BlockOk(t) && BlockOk(m)
  {
    if t.dynSize < m.dynSize then
      var top := AlignUp(m.dynSize, PAGE);
      t.(rw := t.rw + Pages(-top, top - t.dynSize),
         bytes := Copy(t.bytes, m.bytes, -m.dynSize, -t.dynSize),
         dynSize := m.dynSize)
    else t
  }

  function CopyVersion(t: Block, m: Block): Block { t.(version := m.version) }

  function Update(t: Block, m: Block): (r: Block)
    requires BlockOk(t) && BlockOk(m)
  {
    CopyVersion(CopyDyn(CopyStatic(t, m), m), m)
  }

  /** Every byte copied is mapped in the thread's block afterwards. */
  lemma StaticCopyMapped(t: Block, m: Block)
    requires BlockOk(t) && BlockOk(m)
    ensures var t' := CopyStatic(t, m);
            RangeMapped(t, -t.dynSize, t.loadSize) ==> RangeMapped(t', -t'.dynSize, t'.loadSize)
  {
    if t.loadSize < m.loadSize && RangeMapped(t, -t.dynSize, t.loadSize) {
      var pg := FloorTo(t.loadSize, PAGE);
      var t' := CopyStatic(t, m);
      forall off | -t.dynSize <= off < m.loadSize
        ensures Mapped(t', off)
      {
        if off < t.loadSize { assert Mapped(t, off); } else { PagesCover(pg, m.loadSize - pg, off); }
      }
    }
  }

  lemma DynCopyMapped(t: Block, m: Block)
    requires BlockOk(t) && BlockOk(m)
    ensures var t' := CopyDyn(t, m);
            RangeMapped(t, -t.dynSize, t.loadSize) ==> RangeMapped(t', -t'.dynSize, t'.loadSize)
  {
    if t.dynSize < m.dynSize && RangeMapped(t, -t.dynSize, t.loadSize) {
      var t' := CopyDyn(t, m);
      forall off | -m.dynSize <= off < t.loadSize
        ensures Mapped(t', off)
      {
        if -t.dynSize <= off { assert Mapped(t, off); } else { PagesCoverBelow(t.dynSize, m.dynSize, off); }
      }
    }
  }

  // ---------------------------------------------------------------- the code, in place

  /** A block in memory. */
  class Region {
    var loadSize: int
    var dynSize: int
    var version: nat
    const bytes: array<byte>
    var rw: set<int>

    ghost function View(): Block
      reads this, bytes
    {
      Block(loadSize, dynSize, version, bytes[..], rw)
    }

    ghost predicate Valid()
      reads this, bytes
    {
      BlockOk(View())
    }

    /** A fresh anonymous mapping, its first page made accessible and its TCB written. */
    constructor ()
      ensures View() == Fresh() && fresh(bytes)
    {
      loadSize, dynSize, version, rw := TCB, 0, 0, {0};
      bytes := new byte[BLOCK](_ => 0);
    }

    /** `copy_nonoverlapping` between two blocks; every byte read and written is on an accessible page. */
    method CopyFrom(src: Region, lo: int, hi: int)
      requires Valid() && src.Valid() && bytes != src.bytes
      requires -HALF <= lo <= hi <= HALF
      requires RangeMapped(View(), lo, hi) && RangeMapped(src.View(), lo, hi)
      modifies bytes
      ensures View() == old(View()).(bytes := Copy(old(bytes[..]), src.bytes[..], lo, hi))
    {
      forall i | lo + HALF <= i < hi + HALF {
        bytes[i] := src.bytes[i];
      }
      assert forall i :: 0 <= i < BLOCK ==>
          bytes[..][i] == Copy(old(bytes[..]), src.bytes[..], lo, hi)[(i - HALF) + HALF];
    }

    /** The part of `update_tls` above the thread pointer. */
    method UpdateStatic(master: Region)
      requires Valid() && master.Valid() && this != master && bytes != master.bytes
      requires RangeMapped(View(), -dynSize, loadSize)
      requires RangeMapped(master.View(), -master.dynSize, master.loadSize)
      modifies this, bytes
      ensures View() == CopyStatic(old(View()), master.View())
    {
      if loadSize < master.loadSize {
        ghost var t, m := View(), master.View();
        var pg := PageMask(loadSize);
        rw := rw + Pages(pg, master.loadSize - pg);
        forall off | loadSize <= off < master.loadSize
          ensures Mapped(View(), off)
        {
          PagesCover(pg, master.loadSize - pg, off);
        }
        CopyFrom(master, loadSize, master.loadSize);
        loadSize := master.loadSize;
      }
    }

    /** The part of `update_tls` below the thread pointer. */
    method UpdateDyn(master: Region)
      requires Valid() && master.Valid() && this != master && bytes != master.bytes
      requires RangeMapped(View(), -dynSize, loadSize)
      requires RangeMapped(master.View(), -master.dynSize, master.loadSize)
      modifies this, bytes
      ensures View() == CopyDyn(old(View()), master.View())
    {
      if dynSize < master.dynSize {
        var top := PageMask(master.dynSize + (PAGE - 1));
        rw := rw + Pages(-top, top - dynSize);
        forall off | -master.dynSize <= off < -dynSize
          ensures Mapped(View(), off)
        {
          PagesCoverBelow(dynSize, master.dynSize, off);
        }
        CopyFrom(master, -master.dynSize, -dynSize);
        dynSize := master.dynSize;
      }
    }

    /** `update_tls` on the calling thread's block, the read lock held.  It touches no inaccessible page. */
    method UpdateTls(master: Region)
      requires Valid() && master.Valid() && this != master && bytes != master.bytes
      requires RangeMapped(View(), -dynSize, loadSize)
      requires RangeMapped(master.View(), -master.dynSize, master.loadSize)
      modifies this, bytes
      ensures View() == Update(old(View()), master.View())
      ensures RangeMapped(View(), -dynSize, loadSize)
    {
      ghost var t, m := View(), master.View();
      StaticCopyMapped(t, m);
      UpdateStatic(master);
      DynCopyMapped(View(), m);
      UpdateDyn(master);
      label done:
      version := master.version;
      assert forall off :: Mapped(View(), off) == Mapped(old@done(View()), off);
    }
  }

  /** `FdLoader`, with the master block it manages. */
  class FdLoader {
    var tlsOff: int
    const master: Region

    ghost function View(): Loader
      reads this, master, master.bytes
    {
      Loader(tlsOff, master.View())
    }

    constructor ()
      ensures View() == Loader(TCB, Fresh()) && fresh(master) && fresh(master.bytes)
    {
      tlsOff := TCB;
      master := new Region();
    }

    ghost predicate Valid()
      reads this
    {
      TCB <= tlsOff <= HALF
    }

    /** `alloc_tls`, with its masks on machine words. */
    method AllocTls(size: nat, align: nat, exec: bool, kernel: bool) returns (r: AllocResult)
      requires Valid() && IsPow2(align) && align <= TWO63
      modifies this, master
      ensures Valid() && (View(), r) == AfterAlloc(old(View()), size, align, exec, kernel)
    {
      var val: int;
      if !exec {
        var next := MaskUnsigned(tlsOff + (align - 1), align);
        MultipleAtLeast(next, align);
        next := next + size;
        if next > HALF { return AllocError; }
        val := tlsOff;
        tlsOff := next;
      } else {
        if size > TWO63 { return AllocError; }  // not an `isize`, and far more than a block
        val := MaskSigned(-(size as int), align);
      }
      r := Protect(val, size, align, exec, kernel);
    }

    /** The second half of `alloc_tls`: the pages, the sizes and the version. */
    method Protect(val: int, size: nat, align: nat, exec: bool, kernel: bool) returns (r: AllocResult)
      requires IsPow2(align) && align <= TWO63 && -TWO63 <= val && val + (align - 1) < TWO63
      requires exec ==> val <= 0 && val % align == 0
      modifies master
      ensures (View(), r) == AfterProtect(old(View()), val, size, align, exec, kernel)
    {
      var aligned := MaskSigned(val + (align - 1), align);
      var pg := PageMask(val);
      var len := size + (aligned - pg);
      if !(kernel && -HALF <= pg && pg + len <= HALF) { return AllocError; }
      master.rw := master.rw + Pages(pg, len);
      if !exec {
        master.loadSize := master.loadSize + size + (aligned - val);
      } else {
        AlignedFixed(val, align);
        master.dynSize := -aligned;
      }
      master.version := master.version + 1;
      return Allocated(aligned);
    }

    method LoadTls(at: int, data: seq<byte>)
      requires master.bytes.Length == BLOCK && -HALF <= at && at + |data| <= HALF
      requires RangeMapped(master.View(), at, at + |data|)
      modifies master.bytes
      ensures View() == old(View()).(master := AfterLoad(old(master.View()), at, data))
    {
      forall i | 0 <= i < |data| {
        master.bytes[at + HALF + i] := data[i];
      }
      ghost var stored := Store(old(master.bytes[..]), at, data);
      assert forall i :: 0 <= i < BLOCK ==> master.bytes[..][i] == stored[(i - HALF) + HALF];
      assert master.bytes[..] == stored;
    }
  }
}
