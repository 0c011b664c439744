/**
  `map_phdrs`: the loadable segments of an ELF object are mapped over the anonymous, zeroed region
  that `alloc_base_addr` has reserved.  Addresses are relative to that page-aligned region.
 */
module MapPhdrs {
  import opened Bits
  import opened Wrappers

  /** PROT_READ is always set. */
  datatype Perm = Perm(w: bool, x: bool)

  const RW := Perm(true, false)

  datatype Phdr = Phdr(paddr: nat, memsz: nat, filesz: nat, offset: nat, flagW: bool, flagX: bool)

  /** The region: its bytes, and one protection per page. */
  datatype Mem = Mem(bytes: seq<byte>, prot: seq<Perm>)

  predicate MemOk(m: Mem) { |m.bytes| == PAGE * |m.prot| }

  /** What `alloc_base_addr` hands over. */
  function Reserved(pages: nat): (m: Mem)
    ensures MemOk(m)
  {
    Mem(seq(PAGE * pages, _ => 0), seq(pages, _ => RW))
  }

  // ---------------------------------------------------------------- memory operations

  /** `v & !4095`. */
  function PageDown(v: int): (r: int)
    ensures r <= v < r + PAGE && r % PAGE == 0
  {
    PAGE * (v / PAGE)
  }

  /** `(v + 4095) & !4095`. */
  function PageUp(v: int): (r: int)
    ensures v <= r < v + PAGE && r % PAGE == 0
  {
    PageDown(v + (PAGE - 1))
  }

  /** File bytes past the end of the file read as zero in the last page of a mapping. */
  function FileByte(file: seq<byte>, i: int): byte { if 0 <= i < |file| then file[i] else 0 }

  /** `was` with the file bytes from `foff` on laid over `[lo, hi)`. */
  function Overlay(was: seq<byte>, file: seq<byte>, lo: int, hi: int, foff: int): (r: seq<byte>)
    ensures |r| == |was|
    ensures forall x :: 0 <= x < |was| ==> r[x] == if lo <= x < hi then FileByte(file, foff + (x - lo)) else was[x]
  {
    seq(|was|, x requires 0 <= x < |was| => OverlayByte(was, file, lo, hi, foff, x))
  }

  function OverlayByte(was: seq<byte>, file: seq<byte>, lo: int, hi: int, foff: int, x: int): byte
    requires 0 <= x < |was|
  {
    if lo <= x < hi then FileByte(file, foff + (x - lo)) else was[x]
  }

  /** `was` with the protection of the pages in `[lo, hi)` set. */
  function SetProt(was: seq<Perm>, lo: int, hi: int, perm: Perm): (r: seq<Perm>)
    ensures |r| == |was|
    ensures forall q :: 0 <= q < |was| ==> r[q] == if lo <= PAGE * q < hi then perm else was[q]
  {
    seq(|was|, q requires 0 <= q < |was| => if lo <= PAGE * q < hi then perm else was[q])
  }

  /** `mmap(pg, len, RW, MAP_PRIVATE | MAP_FIXED, file, foff)`: whole pages are replaced. */
  function Mmap(m: Mem, file: seq<byte>, pg: int, len: int, foff: int): Mem {
    Mem(Overlay(m.bytes, file, pg, PageUp(pg + len), foff), SetProt(m.prot, pg, PageUp(pg + len), RW))
  }

  /** `write_bytes(lo, 0, hi - lo)`. */
  function Zero(m: Mem, lo: int, hi: int): Mem { m.(bytes := Overlay(m.bytes, [], lo, hi, 0)) }

  /** `mprotect(pg, len, perm)`. */
  function Protect(m: Mem, pg: int, len: int, perm: Perm): Mem {
    m.(prot := SetProt(m.prot, pg, PageUp(pg + len), perm))
  }

  /** `n` file bytes from `off` on, read to address `at`. */
  function ReadIn(m: Mem, file: seq<byte>, at: int, n: int, off: int): Mem {
    m.(bytes := Overlay(m.bytes, file, at, at + n, off))
  }

  /** Every page with a byte of `[lo, hi)` is writable. */
  ghost predicate Writable(m: Mem, lo: int, hi: int) {
    lo >= hi || (0 <= lo && hi <= PAGE * |m.prot| &&
                 forall q :: 0 <= q < |m.prot| && lo - PAGE < PAGE * q < hi ==> m.prot[q].w)
  }

  // ---------------------------------------------------------------- one segment

  /** PF_X counts only without PF_W. */
  predicate Executable(ph: Phdr) { ph.flagX && !ph.flagW }

  function PermOf(ph: Phdr): Perm { Perm(ph.flagW, !ph.flagW && ph.flagX) }

  function Join(p: Perm, q: Perm): Perm { Perm(p.w || q.w, p.x || q.x) }

  /** The loop's state; `lastAddr` is the last byte of the last file segment, below the region at first. */
  datatype Progress = Progress(mem: Mem, lastAddr: int, lastPerm: Perm)

  /** `Unfinished` is the source's `todo!()`. */
  datatype Outcome = Done(p: Progress) | Unfinished

  predicate SharesPage(p: Progress, ph: Phdr) { PageDown(ph.paddr) <= PageDown(p.lastAddr) }

  /** The bytes left in the page of `a`; none if `a` is aligned. */
  function Room(a: nat): nat { PageUp(a) - a }

  function Min(a: int, b: int): int { if a < b then a else b }

  function MonusPage(n: nat): nat { if n < PAGE then 0 else n - PAGE }

  /** The segment's first bytes go into the page it shares with the previous one. */
  function IntoShared(p: Progress, file: seq<byte>, ph: Phdr): (r: Mem)
    requires MemOk(p.mem)
    ensures MemOk(r)
  {
    var pg := PageDown(p.lastAddr);
    var m1 := Protect(p.mem, pg, PAGE, RW);
    var m2 := ReadIn(m1, file, ph.paddr, Min(Room(ph.paddr), ph.filesz), ph.offset);
    Protect(m2, pg, PAGE, Join(PermOf(ph), p.lastPerm))
  }

  /** The file pages are mapped, and cleared around the segment's file bytes. */
  function Cleared(m: Mem, file: seq<byte>, addr: nat, len: nat, fileLen: nat, offset: nat): (r: Mem)
    requires MemOk(m)
    ensures MemOk(r)
  {
    var f := PageDown(offset);
    var m1 := Mmap(m, file, PageDown(addr), offset - f + fileLen, f);
    Zero(Zero(m1, PageDown(addr), addr), addr + fileLen, addr + len)
  }

  /** Mapping `fileLen` bytes of file and `len` bytes of memory at `addr`. */
  function MapAt(p: Progress, file: seq<byte>, addr: nat, len: nat, fileLen: nat, offset: nat, perm: Perm)
    : (r: Progress)
    requires MemOk(p.mem)
    ensures MemOk(r.mem)
  {
    var m1 := Cleared(p.mem, file, addr, len, fileLen, offset);
    Progress(Protect(m1, PageDown(addr), offset - PageDown(offset) + len, perm), addr + len - 1, perm)
  }

  function MapOne(p: Progress, file: seq<byte>, ph: Phdr): (r: Outcome)
    requires MemOk(p.mem)
    ensures r.Done? ==> MemOk(r.p.mem)
  {
    var shared := SharesPage(p, ph);
    var p1 := if shared then p.(mem := IntoShared(p, file, ph)) else p;
    var len := if shared then MonusPage(ph.memsz) else ph.memsz;
    var fileLen := if shared then MonusPage(ph.filesz) else ph.filesz;
    var addr := if shared then PageUp(ph.paddr) else ph.paddr;
    var offset := if shared then PageUp(ph.offset) else ph.offset;
    if fileLen == 0 then Done(p1)
    else if addr % PAGE != ph.offset % PAGE then Unfinished
    else Done(MapAt(p1, file, addr, len, fileLen, offset, PermOf(ph)))
  }

  function MapAll(p: Progress, file: seq<byte>, phdrs: seq<Phdr>): (r: Outcome)
    requires MemOk(p.mem)
    ensures r.Done? ==> MemOk(r.p.mem)
    decreases |phdrs|
  {
    if phdrs == [] then Done(p)
    else
      match MapOne(p, file, phdrs[0])
      case Unfinished => Unfinished
      case Done(p') => MapAll(p', file, phdrs[1..])
  }

  // ---------------------------------------------------------------- the kernel's answers

  datatype Error = LoadError | ReadError

  /** The answers to the calls made for one segment, in order; a `read` answers a byte count, or an error below 0. */
  datatype Reply = Reply(unprotect: bool, seek: bool, counts: seq<int>, reprotect: bool, mmap: bool, mprotect: bool)

  /** The reads fill a slice of `n` bytes; a read of nothing does not. */
  predicate ReadsFill(counts: seq<int>, n: nat)
    decreases n
  {
    n == 0 || (counts != [] && 0 < counts[0] <= n && ReadsFill(counts[1..], n - counts[0]))
  }

  function SharedRefusal(ph: Phdr, k: Reply): Option<Error> {
    if !k.unprotect then Some(LoadError)
    else if !k.seek || !ReadsFill(k.counts, Min(Room(ph.paddr), ph.filesz)) then Some(ReadError)
    else if !k.reprotect then Some(LoadError)
    else None
  }

  /** The error a segment ends with, if any: one of the calls made for it was refused. */
  function Refusal(p: Progress, ph: Phdr, k: Reply): Option<Error> {
    var shared := SharesPage(p, ph);
    var fileLen := if shared then MonusPage(ph.filesz) else ph.filesz;
    var addr := if shared then PageUp(ph.paddr) else ph.paddr;
    if shared && SharedRefusal(ph, k).Some? then SharedRefusal(ph, k)
    else if fileLen == 0 || addr % PAGE != ph.offset % PAGE || (k.mmap && k.mprotect) then None
    else Some(LoadError)
  }

  /** A sequence of read counts fills `n` bytes iff some positive ones at its beginning add up to `n`. */
  lemma {:induction false} ReadsFillIff(counts: seq<int>, n: nat)
    ensures ReadsFill(counts, n) <==> exists j :: AddsUp(counts, j, n)
    decreases n
  {
    if n == 0 {
      assert counts[..0] == [];
      assert AddsUp(counts, 0, n);
    } else if counts == [] {
      assert counts[..0] == [];
    } else if 0 < counts[0] <= n {
      var rest, left := counts[1..], n - counts[0];
      ReadsFillIff(rest, left);
      if j :| AddsUp(rest, j, left) {
        assert counts[..j + 1] == [counts[0]] + rest[..j];
        assert AddsUp(counts, j + 1, n);
      }
      if j :| AddsUp(counts, j, n) {
        assert j > 0 by { assert counts[..0] == []; }
        assert counts[..j] == [counts[0]] + rest[..j - 1];
        assert AddsUp(rest, j - 1, left);
      }
    } else {
      forall j | AddsUp(counts, j, n)
        ensures false
      {
        assert j > 0 by { assert counts[..0] == []; }
        assert counts[..j] == [counts[0]] + counts[1..][..j - 1];
        SumAtLeast(counts[1..][..j - 1]);
      }
    }
  }

  function Sum(counts: seq<int>): int { if counts == [] then 0 else counts[0] + Sum(counts[1..]) }

  predicate Positive(counts: seq<int>) { forall i :: 0 <= i < |counts| ==> counts[i] > 0 }

  predicate AddsUp(counts: seq<int>, j: int, n: nat) {
    0 <= j <= |counts| && Positive(counts[..j]) && Sum(counts[..j]) == n
  }

  lemma {:induction false} SumAtLeast(counts: seq<int>)
    requires Positive(counts)
    ensures Sum(counts) >= 0
  {
    if counts != [] { SumAtLeast(counts[1..]); }
  }

  /**
    The errors, by the answers: a segment whose calls are all granted does not fail; ReadError comes from
    the seek or the reads of a shared page, once that page is writable; every other refusal of a call
    that is made is a LoadError.
    */
  lemma RefusalSays(p: Progress, ph: Phdr, k: Reply)
    ensures var filled := k.seek && ReadsFill(k.counts, Min(Room(ph.paddr), ph.filesz));
            var mapped := if SharesPage(p, ph) then ph.filesz > PAGE && ph.offset % PAGE == 0
                          else ph.filesz > 0 && ph.paddr % PAGE == ph.offset % PAGE;
            && (k.unprotect && filled && k.reprotect && k.mmap && k.mprotect ==> Refusal(p, ph, k) == None)
            && (Refusal(p, ph, k) == Some(ReadError) <==> SharesPage(p, ph) && k.unprotect && !filled)
            && (Refusal(p, ph, k) == Some(LoadError) <==>
                || (SharesPage(p, ph) && (!k.unprotect || (filled && !k.reprotect)))
                || ((SharesPage(p, ph) ==> k.unprotect && filled && k.reprotect) && mapped && !(k.mmap && k.mprotect)))
  {
  }

  /** When a segment reaches the unfinished branch, by its header. */
  lemma UnfinishedIff(p: Progress, file: seq<byte>, ph: Phdr)
    requires MemOk(p.mem)
    ensures MapOne(p, file, ph).Unfinished? <==>
            if SharesPage(p, ph) then ph.filesz > PAGE && ph.offset % PAGE != 0
            else ph.filesz > 0 && ph.paddr % PAGE != ph.offset % PAGE
  {
  }

  /** How `map_phdrs` ends. */
  datatype Ending = Complete(p: Progress) | Failed(e: Error) | Todo

  function MapAllWith(p: Progress, file: seq<byte>, phdrs: seq<Phdr>, replies: seq<Reply>): (r: Ending)
    requires MemOk(p.mem) && |replies| == |phdrs|
    decreases |phdrs|
  {
    if phdrs == [] then Complete(p)
    else
      match Refusal(p, phdrs[0], replies[0])
      case Some(e) => Failed(e)
      case None =>
        match MapOne(p, file, phdrs[0])
        case Unfinished => Todo
        case Done(p') => MapAllWith(p', file, phdrs[1..], replies[1..])
  }

  /** The kernel refuses a call that is made: one for segment `j`, all before it being mapped. */
  ghost predicate RefusedAt(p: Progress, file: seq<byte>, phdrs: seq<Phdr>, replies: seq<Reply>, j: nat)
    requires MemOk(p.mem) && |replies| == |phdrs|
  {
    && j < |phdrs| && MapAll(p, file, phdrs[..j]).Done?
    && Refusal(MapAll(p, file, phdrs[..j]).p, phdrs[j], replies[j]).Some?
  }

  /** `map_phdrs` fails iff the kernel refuses a call that is made; otherwise it does what `MapAll` says. */
  lemma {:induction false} FailsIffRefused(p: Progress, file: seq<byte>, phdrs: seq<Phdr>, replies: seq<Reply>)
    requires MemOk(p.mem) && |replies| == |phdrs|
    ensures MapAllWith(p, file, phdrs, replies).Failed? <==> exists j :: RefusedAt(p, file, phdrs, replies, j)
    ensures !MapAllWith(p, file, phdrs, replies).Failed? ==>
              MapAllWith(p, file, phdrs, replies) ==
              match MapAll(p, file, phdrs) { case Done(p') => Complete(p') case Unfinished => Todo }
    decreases |phdrs|
  {
    if phdrs == [] {
    } else if Refusal(p, phdrs[0], replies[0]).Some? {
      assert phdrs[..0] == [];
      assert RefusedAt(p, file, phdrs, replies, 0);
    } else {
      if MapOne(p, file, phdrs[0]).Done? {
        FailsIffRefused(MapOne(p, file, phdrs[0]).p, file, phdrs[1..], replies[1..]);
      }
      RefusedLater(p, file, phdrs, replies);
    }
  }

  /** If the first segment is not refused, a later one must be. */
  lemma RefusedLater(p: Progress, file: seq<byte>, phdrs: seq<Phdr>, replies: seq<Reply>)
    requires MemOk(p.mem) && |replies| == |phdrs| && phdrs != [] && Refusal(p, phdrs[0], replies[0]).None?
    ensures (exists j :: RefusedAt(p, file, phdrs, replies, j)) <==>
            MapOne(p, file, phdrs[0]).Done? &&
            exists j :: RefusedAt(MapOne(p, file, phdrs[0]).p, file, phdrs[1..], replies[1..], j)
  {
    if j: nat :| RefusedAt(p, file, phdrs, replies, j) {
      RefusedShift(p, file, phdrs, replies, j);
    }
    if MapOne(p, file, phdrs[0]).Done? {
      var p1 := MapOne(p, file, phdrs[0]).p;
      if j: nat :| RefusedAt(p1, file, phdrs[1..], replies[1..], j) {
        assert phdrs[..j + 1][1..] == phdrs[1..][..j] && phdrs[..j + 1][0] == phdrs[0];
        assert RefusedAt(p, file, phdrs, replies, j + 1);
      }
    }
  }

  lemma RefusedShift(p: Progress, file: seq<byte>, phdrs: seq<Phdr>, replies: seq<Reply>, j: nat)
    requires MemOk(p.mem) && |replies| == |phdrs| && phdrs != [] && Refusal(p, phdrs[0], replies[0]).None?
    requires RefusedAt(p, file, phdrs, replies, j)
    ensures j > 0 && MapOne(p, file, phdrs[0]).Done?
    ensures RefusedAt(MapOne(p, file, phdrs[0]).p, file, phdrs[1..], replies[1..], j - 1)
  {
    assert phdrs[..0] == [];
    assert j != 0;
    assert phdrs[..j][1..] == phdrs[1..][..j - 1] && phdrs[..j][0] == phdrs[0];
  }

  function Begin(m: Mem): Progress { Progress(m, -1, Perm(false, false)) }

  // ---------------------------------------------------------------- the image of the gABI

  /** A segment as the System V gABI, chapter 5, "Program Header", describes one, inside the region and the file. */
  predicate SegmentOk(m: Mem, file: seq<byte>, ph: Phdr) {
    SegmentFits(m, file, ph) && ph.paddr % PAGE == ph.offset % PAGE
  }

  predicate SegmentFits(m: Mem, file: seq<byte>, ph: Phdr) {
    ph.filesz <= ph.memsz && ph.paddr + ph.memsz <= |m.bytes| && ph.offset + ph.filesz <= |file|
  }

  /** The segment's memory is its file bytes followed by zeros. */
  ghost predicate Loaded(m: Mem, file: seq<byte>, ph: Phdr) {
    ph.paddr + ph.memsz <= |m.bytes| && ph.offset + ph.filesz <= |file| &&
    forall x :: ph.paddr <= x < ph.paddr + ph.memsz ==>
      m.bytes[x] == if x - ph.paddr < ph.filesz then file[ph.offset + (x - ph.paddr)] else 0
  }

  /** The pages of a segment. */
  predicate InPages(ph: Phdr, x: int) { PageDown(ph.paddr) <= x < PageUp(ph.paddr + ph.memsz) }

  predicate OwnsPage(ph: Phdr, q: int) { PageDown(ph.paddr) <= PAGE * q < PageUp(ph.paddr + ph.memsz) }

  /** Segments in ascending order that share no page. */
  predicate PageDisjoint(phdrs: seq<Phdr>) {
    forall i, j :: 0 <= i < j < |phdrs| ==> PageUp(phdrs[i].paddr + phdrs[i].memsz) <= PageDown(phdrs[j].paddr)
  }

  /** The pages of a segment still to come are as `alloc_base_addr` left them. */
  ghost predicate Untouched(m: Mem, ph: Phdr) {
    && (forall x :: 0 <= x < |m.bytes| && InPages(ph, x) ==> m.bytes[x] == 0)
    && (forall q :: 0 <= q < |m.prot| && OwnsPage(ph, q) ==> m.prot[q] == RW)
  }

  /** The protection a segment ends up with; one without file bytes keeps the reserved region's. */
  ghost predicate Protected(m: Mem, ph: Phdr) {
    forall q :: 0 <= q < |m.prot| && OwnsPage(ph, q) ==>
      if ph.filesz > 0 then (m.prot[q].w <==> ph.flagW) && (m.prot[q].x <==> ph.flagX && !ph.flagW) else m.prot[q] == RW
  }

  /** `m'` differs from `m` only on pages of `ph`. */
  ghost predicate OnlyPagesOf(m: Mem, m': Mem, ph: Phdr) {
    && |m'.bytes| == |m.bytes| && |m'.prot| == |m.prot|
    && (forall x :: 0 <= x < |m.bytes| && !InPages(ph, x) ==> m'.bytes[x] == m.bytes[x])
    && (forall q :: 0 <= q < |m.prot| && !OwnsPage(ph, q) ==> m'.prot[q] == m.prot[q])
  }

  lemma PagesMono(a: int, b: int)
    requires a <= b
    ensures PageUp(a) <= PageUp(b) && PageDown(a) <= PageDown(b)
  {
  }

  /** The mapping's pages start where the segment's do and end where its file bytes do. */
  lemma MapAtGeometry(ph: Phdr)
    requires ph.paddr % PAGE == ph.offset % PAGE && ph.filesz <= ph.memsz
    ensures var a := PageDown(ph.paddr); var extra := ph.offset - PageDown(ph.offset);
            && extra == ph.paddr - a
            && PageUp(a + (extra + ph.filesz)) == PageUp(ph.paddr + ph.filesz) <= PageUp(ph.paddr + ph.memsz)
            && PageUp(a + (extra + ph.memsz)) == PageUp(ph.paddr + ph.memsz)
  {
    PagesMono(ph.paddr + ph.filesz, ph.paddr + ph.memsz);
  }

  lemma MapAtLoads(p: Progress, file: seq<byte>, ph: Phdr)
    requires MemOk(p.mem) && SegmentOk(p.mem, file, ph) && ph.filesz > 0
    ensures var p' := MapAt(p, file, ph.paddr, ph.memsz, ph.filesz, ph.offset, PermOf(ph));
            && |p'.mem.bytes| == |p.mem.bytes| && Loaded(p'.mem, file, ph)
            && OnlyPagesOf(p.mem, p'.mem, ph) && Protected(p'.mem, ph)
  {
    MapAtGeometry(ph);
    ClearedBytes(p.mem, file, ph);
  }

  lemma ClearedBytes(m: Mem, file: seq<byte>, ph: Phdr)
    requires MemOk(m) && SegmentOk(m, file, ph) && ph.filesz > 0
    ensures var m' := Cleared(m, file, ph.paddr, ph.memsz, ph.filesz, ph.offset);
            && |m'.bytes| == |m.bytes| && Loaded(m', file, ph)
            && forall x :: 0 <= x < |m.bytes| && !InPages(ph, x) ==> m'.bytes[x] == m.bytes[x]
  {
    MapAtGeometry(ph);
    var m' := Cleared(m, file, ph.paddr, ph.memsz, ph.filesz, ph.offset);
    forall x | ph.paddr <= x < ph.paddr + ph.memsz
      ensures m'.bytes[x] == if x - ph.paddr < ph.filesz then file[ph.offset + (x - ph.paddr)] else 0
    {
    }
  }

  lemma MapOneLoads(p: Progress, file: seq<byte>, ph: Phdr)
    requires MemOk(p.mem) && SegmentOk(p.mem, file, ph) && !SharesPage(p, ph) && Untouched(p.mem, ph)
    ensures var r := MapOne(p, file, ph);
            && r.Done? && |r.p.mem.bytes| == |p.mem.bytes| && Loaded(r.p.mem, file, ph)
            && OnlyPagesOf(p.mem, r.p.mem, ph) && Protected(r.p.mem, ph)
            && r.p.lastAddr == (if ph.filesz > 0 then ph.paddr + ph.memsz - 1 else p.lastAddr)
  {
    if ph.filesz > 0 {
      MapAtLoads(p, file, ph);
    } else {
      assert forall x :: ph.paddr <= x < ph.paddr + ph.memsz ==> InPages(ph, x);
    }
  }

  /** A segment's result survives a step that only touches another segment's pages. */
  lemma Undisturbed(m: Mem, m': Mem, file: seq<byte>, c: Phdr, d: Phdr)
    requires SegmentOk(m, file, c) && OnlyPagesOf(m, m', d)
    requires PageUp(c.paddr + c.memsz) <= PageDown(d.paddr) || PageUp(d.paddr + d.memsz) <= PageDown(c.paddr)
    ensures Loaded(m, file, c) ==> Loaded(m', file, c)
    ensures Protected(m, c) ==> Protected(m', c)
    ensures Untouched(m, c) ==> Untouched(m', c)
  {
  }

  ghost predicate AllLoaded(m: Mem, file: seq<byte>, phdrs: seq<Phdr>) {
    forall j :: 0 <= j < |phdrs| ==> Loaded(m, file, phdrs[j]) && Protected(m, phdrs[j])
  }

  /** `m'` differs from `m` only on pages of the segments. */
  ghost predicate OnlyPagesOfAll(m: Mem, m': Mem, phdrs: seq<Phdr>) {
    && |m'.bytes| == |m.bytes| && |m'.prot| == |m.prot|
    && (forall x :: 0 <= x < |m.bytes| && (forall j :: 0 <= j < |phdrs| ==> !InPages(phdrs[j], x)) ==>
          m'.bytes[x] == m.bytes[x])
    && (forall q :: 0 <= q < |m.prot| && (forall j :: 0 <= j < |phdrs| ==> !OwnsPage(phdrs[j], q)) ==>
          m'.prot[q] == m.prot[q])
  }

  /** The segments still to come are well formed, untouched, and past the last one mapped. */
  ghost predicate Pending(p: Progress, file: seq<byte>, phdrs: seq<Phdr>) {
    && MemOk(p.mem) && PageDisjoint(phdrs)
    && forall j :: 0 <= j < |phdrs| ==>
         SegmentOk(p.mem, file, phdrs[j]) && Untouched(p.mem, phdrs[j]) && !SharesPage(p, phdrs[j])
  }

  lemma PendingStep(p: Progress, file: seq<byte>, phdrs: seq<Phdr>)
    requires Pending(p, file, phdrs) && phdrs != []
    ensures MapOne(p, file, phdrs[0]).Done? && Pending(MapOne(p, file, phdrs[0]).p, file, phdrs[1..])
  {
    MapOneLoads(p, file, phdrs[0]);
    var p' := MapOne(p, file, phdrs[0]).p;
    var rest := phdrs[1..];
    assert PageDisjoint(rest) by {
      forall i, j | 0 <= i < j < |rest|
        ensures PageUp(rest[i].paddr + rest[i].memsz) <= PageDown(rest[j].paddr)
      {
        assert rest[i] == phdrs[i + 1] && rest[j] == phdrs[j + 1];
      }
    }
    forall j | 0 <= j < |rest|
      ensures SegmentOk(p'.mem, file, rest[j]) && Untouched(p'.mem, rest[j]) && !SharesPage(p', rest[j])
    {
      assert rest[j] == phdrs[j + 1];
      assert SegmentOk(p.mem, file, phdrs[j + 1]) && !SharesPage(p, phdrs[j + 1]);
      Undisturbed(p.mem, p'.mem, file, rest[j], phdrs[0]);
    }
  }

  lemma SurvivesAll(m: Mem, m': Mem, file: seq<byte>, c: Phdr, rest: seq<Phdr>)
    requires OnlyPagesOfAll(m, m', rest) && Loaded(m, file, c) && Protected(m, c)
    requires forall j :: 0 <= j < |rest| ==> PageUp(c.paddr + c.memsz) <= PageDown(rest[j].paddr)
    ensures Loaded(m', file, c) && Protected(m', c)
  {
    forall x, j | InPages(c, x) && 0 <= j < |rest|
      ensures !InPages(rest[j], x)
    {
    }
    forall q, j | OwnsPage(c, q) && 0 <= j < |rest|
      ensures !OwnsPage(rest[j], q)
    {
    }
    assert forall x :: c.paddr <= x < c.paddr + c.memsz ==> InPages(c, x);
  }

  lemma ComposePages(m: Mem, m1: Mem, m2: Mem, phdrs: seq<Phdr>)
    requires phdrs != [] && OnlyPagesOf(m, m1, phdrs[0]) && OnlyPagesOfAll(m1, m2, phdrs[1..])
    ensures OnlyPagesOfAll(m, m2, phdrs)
  {
    var rest := phdrs[1..];
    forall x | 0 <= x < |m.bytes| && (forall j :: 0 <= j < |phdrs| ==> !InPages(phdrs[j], x))
      ensures m2.bytes[x] == m.bytes[x]
    {
      assert !InPages(phdrs[0], x);
      forall j | 0 <= j < |rest|
        ensures !InPages(rest[j], x)
      {
        assert rest[j] == phdrs[j + 1];
      }
    }
    forall q | 0 <= q < |m.prot| && (forall j :: 0 <= j < |phdrs| ==> !OwnsPage(phdrs[j], q))
      ensures m2.prot[q] == m.prot[q]
    {
      assert !OwnsPage(phdrs[0], q);
      forall j | 0 <= j < |rest|
        ensures !OwnsPage(rest[j], q)
      {
        assert rest[j] == phdrs[j + 1];
      }
    }
  }

  lemma HeadSurvives(m: Mem, m': Mem, file: seq<byte>, phdrs: seq<Phdr>)
    requires phdrs != [] && PageDisjoint(phdrs) && OnlyPagesOfAll(m, m', phdrs[1..])
    requires Loaded(m, file, phdrs[0]) && Protected(m, phdrs[0])
    ensures Loaded(m', file, phdrs[0]) && Protected(m', phdrs[0])
  {
    var rest := phdrs[1..];
    assert forall j :: 0 <= j < |rest| ==> rest[j] == phdrs[j + 1];
    SurvivesAll(m, m', file, phdrs[0], rest);
  }

  lemma ComposeLoaded(m: Mem, file: seq<byte>, phdrs: seq<Phdr>)
    requires phdrs != [] && Loaded(m, file, phdrs[0]) && Protected(m, phdrs[0]) && AllLoaded(m, file, phdrs[1..])
    ensures AllLoaded(m, file, phdrs)
  {
    forall j | 0 <= j < |phdrs|
      ensures Loaded(m, file, phdrs[j]) && Protected(m, phdrs[j])
    {
      if j > 0 { assert phdrs[j] == phdrs[1..][j - 1]; }
    }
  }

  /**
    Over page-disjoint ascending segments: every segment is loaded as the gABI says, none disturbs
    another, and nothing outside their pages changes.
    */
  lemma {:induction false} MapAllLoads(p: Progress, file: seq<byte>, phdrs: seq<Phdr>)
    requires Pending(p, file, phdrs)
    ensures var r := MapAll(p, file, phdrs);
            r.Done? && AllLoaded(r.p.mem, file, phdrs) && OnlyPagesOfAll(p.mem, r.p.mem, phdrs)
    decreases |phdrs|
  {
    if phdrs != [] {
      var ph, rest := phdrs[0], phdrs[1..];
      MapOneLoads(p, file, ph);
      PendingStep(p, file, phdrs);
      var p1 := MapOne(p, file, ph).p;
      MapAllLoads(p1, file, rest);
      var m' := MapAll(p1, file, rest).p.mem;
      HeadSurvives(p1.mem, m', file, phdrs);
      ComposePages(p.mem, p1.mem, m', phdrs);
      ComposeLoaded(m', file, phdrs);
    }
  }

  /** On the reserved region, the whole image is right and no page is both writable and executable. */
  lemma ImageIsRight(pages: nat, file: seq<byte>, phdrs: seq<Phdr>)
    requires PageDisjoint(phdrs) && forall j :: 0 <= j < |phdrs| ==> SegmentOk(Reserved(pages), file, phdrs[j])
    ensures var r := MapAll(Begin(Reserved(pages)), file, phdrs);
            && r.Done? && AllLoaded(r.p.mem, file, phdrs) && OnlyPagesOfAll(Reserved(pages), r.p.mem, phdrs)
            && forall q :: 0 <= q < |r.p.mem.prot| ==> !(r.p.mem.prot[q].w && r.p.mem.prot[q].x)
  {
    var p := Begin(Reserved(pages));
    MapAllLoads(p, file, phdrs);
    var m' := MapAll(p, file, phdrs).p.mem;
    forall q | 0 <= q < |m'.prot|
      ensures !(m'.prot[q].w && m'.prot[q].x)
    {
      if j :| 0 <= j < |phdrs| && OwnsPage(phdrs[j], q) {
        assert Protected(m', phdrs[j]);
      } else {
        assert m'.prot[q] == p.mem.prot[q];
      }
    }
  }

  // ---------------------------------------------------------------- a segment that shares a page

  /** What a segment that starts in the previous one's last page finds there, past its own file bytes in that page. */
  ghost predicate LuckyRemainder(m: Mem, file: seq<byte>, ph: Phdr)
    requires ph.paddr + ph.memsz <= |m.bytes| && ph.offset + ph.filesz <= |file|
  {
    forall x :: ph.paddr + Min(Room(ph.paddr), ph.filesz) <= x < ph.paddr + ph.memsz ==>
      m.bytes[x] == if x - ph.paddr < ph.filesz then file[ph.offset + (x - ph.paddr)] else 0
  }

  /**
    As written, a segment that starts inside the previous one's last page is loaded right iff it has
    at most 4096 file bytes and the memory past what fits that page already is what it should be:
    the remaining file bytes are never mapped and the tail is never cleared.
    */
  lemma SharedSegmentIff(p: Progress, file: seq<byte>, ph: Phdr)
    requires MemOk(p.mem) && SegmentOk(p.mem, file, ph) && SharesPage(p, ph) && ph.paddr % PAGE != 0
    ensures MapOne(p, file, ph).Done? && Loaded(MapOne(p, file, ph).p.mem, file, ph)
            <==> ph.filesz <= PAGE && LuckyRemainder(p.mem, file, ph)
  {
    if ph.filesz <= PAGE {
      var m' := IntoShared(p, file, ph);
      var n := Min(Room(ph.paddr), ph.filesz);
      assert forall x :: 0 <= x < |m'.bytes| ==>
          m'.bytes[x] == if ph.paddr <= x < ph.paddr + n
                         then FileByte(file, ph.offset + (x - ph.paddr)) else p.mem.bytes[x];
    }
  }

  /** The segment is loaded right over memory that holds `bytes`. */
  ghost predicate LoadsOver(bytes: seq<byte>, p: Progress, file: seq<byte>, ph: Phdr) {
    |bytes| == PAGE * |p.mem.prot| ==>
      var r := MapOne(p.(mem := Mem(bytes, p.mem.prot)), file, ph);
      r.Done? && Loaded(r.p.mem, file, ph)
  }

  /**
    Whatever the memory held before: such a segment is loaded right iff it ends in the shared page
    and has no bss.
    */
  lemma SharedSegmentAlwaysIff(p: Progress, file: seq<byte>, ph: Phdr)
    requires MemOk(p.mem) && SegmentOk(p.mem, file, ph) && SharesPage(p, ph) && ph.paddr % PAGE != 0
    ensures (forall bytes :: LoadsOver(bytes, p, file, ph)) <==> ph.memsz <= Room(ph.paddr) && ph.filesz == ph.memsz
  {
    if ph.memsz <= Room(ph.paddr) && ph.filesz == ph.memsz {
      forall bytes: seq<byte> | |bytes| == PAGE * |p.mem.prot|
        ensures LoadsOver(bytes, p, file, ph)
      {
        SharedSegmentIff(p.(mem := Mem(bytes, p.mem.prot)), file, ph);
      }
    } else {
      var bytes := UnluckyBytes(p.mem, file, ph);
      SharedSegmentIff(p.(mem := Mem(bytes, p.mem.prot)), file, ph);
      assert !LoadsOver(bytes, p, file, ph);
    }
  }

  /** Memory that is wrong at the first byte the shared-page branch does not store. */
  lemma UnluckyBytes(m: Mem, file: seq<byte>, ph: Phdr) returns (bytes: seq<byte>)
    requires SegmentOk(m, file, ph) && Min(Room(ph.paddr), ph.filesz) < ph.memsz
    ensures |bytes| == |m.bytes| && !LuckyRemainder(Mem(bytes, m.prot), file, ph)
  {
    var x := ph.paddr + Min(Room(ph.paddr), ph.filesz);
    var right := if x - ph.paddr < ph.filesz then file[ph.offset + (x - ph.paddr)] else 0;
    var wrong: byte := if right == 0 then 1 else 0;
    bytes := m.bytes[x := wrong];
    assert Mem(bytes, m.prot).bytes[x] != right;
  }

  const TEXT := Phdr(0, 100, 100, 0, false, true)
  const DATA := Phdr(100, 2, 1, 100, true, false)

  lemma LeftoverByte(file: seq<byte>)
    requires |file| == PAGE && forall i :: 0 <= i < PAGE ==> file[i] == 1
    ensures var r := MapOne(Begin(Reserved(1)), file, TEXT);
            r.Done? && |r.p.mem.bytes| == PAGE && r.p.mem.bytes[101] == 1 && r.p.lastAddr == 99
  {
    var p := Begin(Reserved(1));
    assert !SharesPage(p, TEXT);
    MapAtGeometry(TEXT);
    assert PageUp(100) == PAGE;
  }

  /** A data segment of one file byte and one bss byte behind a text segment: the bss byte is a leftover file byte. */
  lemma SharedSegmentExample(file: seq<byte>)
    requires |file| == PAGE && forall i :: 0 <= i < PAGE ==> file[i] == 1
    ensures var r := MapAll(Begin(Reserved(1)), file, [TEXT] + [DATA]);
            r.Done? && !Loaded(r.p.mem, file, DATA)
  {
    LeftoverByte(file);
    var p1 := MapOne(Begin(Reserved(1)), file, TEXT).p;
    NotCleared(p1, file);
    MapTwo(Begin(Reserved(1)), file, TEXT, DATA);
  }

  lemma NotCleared(p: Progress, file: seq<byte>)
    requires |file| == PAGE && MemOk(p.mem) && |p.mem.bytes| == PAGE && p.mem.bytes[101] == 1 && p.lastAddr == 99
    ensures MapOne(p, file, DATA).Done? && !Loaded(MapOne(p, file, DATA).p.mem, file, DATA)
  {
    var m' := IntoShared(p, file, DATA);
    assert SharesPage(p, DATA);
    assert m'.bytes[101] == p.mem.bytes[101];
  }

  lemma MapTwo(p: Progress, file: seq<byte>, a: Phdr, b: Phdr)
    requires MemOk(p.mem) && MapOne(p, file, a).Done? && MapOne(MapOne(p, file, a).p, file, b).Done?
    ensures MapAll(p, file, [a] + [b]) == MapOne(MapOne(p, file, a).p, file, b)
  {
    var p1 := MapOne(p, file, a).p;
    assert ([a] + [b])[1..] == [b] && [b][1..] == [];
    assert MapAll(p1, file, [b]) == MapOne(p1, file, b);
  }

  // ---------------------------------------------------------------- writable and executable pages

  /** What the headers alone say of `lastAddr` and `lastPerm`, and the segment these come from. */
  datatype Mark = Mark(addr: int, seg: Phdr)

  const NO_SEGMENT := Phdr(0, 0, 0, 0, false, false)

  predicate Shares(k: Mark, ph: Phdr) { PageDown(ph.paddr) <= PageDown(k.addr) }

  /** The last file segment that did not share its first page. */
  function MarkOf(phdrs: seq<Phdr>): Mark {
    if phdrs == [] then Mark(-1, NO_SEGMENT)
    else
      var k := MarkOf(phdrs[..|phdrs| - 1]);
      var ph := phdrs[|phdrs| - 1];
      if Shares(k, ph) || ph.filesz == 0 then k else Mark(ph.paddr + ph.memsz - 1, ph)
  }

  /** Segment `i` starts in page `q`, the last page of the segment marked before it. */
  predicate SharesOn(phdrs: seq<Phdr>, i: nat, q: int)
    requires i < |phdrs|
  {
    Shares(MarkOf(phdrs[..i]), phdrs[i]) && PageDown(MarkOf(phdrs[..i]).addr) == PAGE * q
  }

  /** One of the two segments is writable and the other executable. */
  predicate Clash(phdrs: seq<Phdr>, i: nat)
    requires i < |phdrs|
  {
    var c, d := MarkOf(phdrs[..i]).seg, phdrs[i];
    (c.flagW && Executable(d)) || (d.flagW && Executable(c))
  }

  /** The last segment that starts in the shared page `q` clashes with the one that ends there. */
  ghost predicate Mixed(phdrs: seq<Phdr>, q: int) {
    exists i :: 0 <= i < |phdrs| && SharesOn(phdrs, i, q) && Clash(phdrs, i) && LastOn(phdrs, i, q)
  }

  ghost predicate LastOn(phdrs: seq<Phdr>, i: nat, q: int) {
    forall j :: i < j < |phdrs| ==> !SharesOn(phdrs, j, q)
  }

  predicate BothWX(p: Perm) { p.w && p.x }

  lemma {:induction false} MapAllSnoc(p: Progress, file: seq<byte>, front: seq<Phdr>, ph: Phdr)
    requires MemOk(p.mem)
    ensures MapAll(p, file, front + [ph]) ==
            match MapAll(p, file, front) { case Unfinished => Unfinished case Done(p') => MapOne(p', file, ph) }
    decreases |front|
  {
    var all := front + [ph];
    if front == [] {
      assert all[1..] == [];
    } else {
      assert all[0] == front[0] && all[1..] == front[1..] + [ph];
      if MapOne(p, file, front[0]).Done? { MapAllSnoc(MapOne(p, file, front[0]).p, file, front[1..], ph); }
    }
  }

  /** A list of congruent segments in ascending order, all inside the region and the file. */
  ghost predicate ListOk(m: Mem, file: seq<byte>, phdrs: seq<Phdr>) {
    MemOk(m) && Ascending(phdrs) && forall j :: 0 <= j < |phdrs| ==> SegmentOk(m, file, phdrs[j])
  }

  lemma {:induction false} MarkBelow(phdrs: seq<Phdr>)
    requires Ascending(phdrs) && phdrs != [] && forall j :: 0 <= j < |phdrs| ==> phdrs[j].filesz <= phdrs[j].memsz
    ensures MarkOf(phdrs[..|phdrs| - 1]).addr < phdrs[|phdrs| - 1].paddr
  {
    var n := |phdrs| - 1;
    var front := phdrs[..n];
    if front != [] {
      MarkBelow(front);
      assert front[n - 1] == phdrs[n - 1];
      assert phdrs[n - 1].paddr + phdrs[n - 1].memsz <= phdrs[n].paddr;
    }
  }

  /** A sharing segment only changes the protection of the shared page; another one gives its pages its own. */
  lemma ProtStep(p: Progress, file: seq<byte>, ph: Phdr, q: int)
    requires MemOk(p.mem) && SegmentOk(p.mem, file, ph) && p.lastAddr < ph.paddr && 0 <= q < |p.mem.prot|
    requires MapOne(p, file, ph).Done?
    ensures var p' := MapOne(p, file, ph).p;
            && |p'.mem.prot| == |p.mem.prot| && |p'.mem.bytes| == |p.mem.bytes|
            && (SharesPage(p, ph) ==>
                  && p'.lastAddr == p.lastAddr && p'.lastPerm == p.lastPerm
                  && p'.mem.prot[q] ==
                     if PAGE * q == PageDown(p.lastAddr) then Join(PermOf(ph), p.lastPerm) else p.mem.prot[q])
            && (!SharesPage(p, ph) && ph.filesz == 0 ==> p' == p)
            && (!SharesPage(p, ph) && ph.filesz > 0 ==>
                  && p'.lastAddr == ph.paddr + ph.memsz - 1 && p'.lastPerm == PermOf(ph)
                  && p'.mem.prot[q] == if OwnsPage(ph, q) then PermOf(ph) else p.mem.prot[q])
  {
    if SharesPage(p, ph) {
      assert ph.paddr % PAGE != 0;
      assert PageUp(ph.paddr) % PAGE == 0;
      OnePage(p.lastAddr, q);
    } else if ph.filesz > 0 {
      MapAtLoads(p, file, ph);
    }
  }

  lemma OnePage(a: int, q: int)
    ensures PageDown(a) <= PAGE * q < PageUp(PageDown(a) + PAGE) <==> PAGE * q == PageDown(a)
  {
  }

  lemma FrontAgrees(phdrs: seq<Phdr>, n: nat, i: nat, q: int)
    requires i < n <= |phdrs|
    ensures SharesOn(phdrs[..n], i, q) == SharesOn(phdrs, i, q) && Clash(phdrs[..n], i) == Clash(phdrs, i)
  {
    assert phdrs[..n][..i] == phdrs[..i];
  }

  /** What a list ends with, compared with what its front ends with. */
  lemma MixedStep(phdrs: seq<Phdr>, q: int)
    requires phdrs != []
    ensures var n := |phdrs| - 1;
            Mixed(phdrs, q) <==> if SharesOn(phdrs, n, q) then Clash(phdrs, n) else Mixed(phdrs[..n], q)
  {
    var n := |phdrs| - 1;
    if SharesOn(phdrs, n, q) {
      if Clash(phdrs, n) { assert LastOn(phdrs, n, q); }
    } else {
      if Mixed(phdrs[..n], q) { MixedGrows(phdrs, q); }
      if Mixed(phdrs, q) { MixedShrinks(phdrs, q); }
    }
  }

  lemma MixedGrows(phdrs: seq<Phdr>, q: int)
    requires phdrs != [] && !SharesOn(phdrs, |phdrs| - 1, q) && Mixed(phdrs[..|phdrs| - 1], q)
    ensures Mixed(phdrs, q)
  {
    var n := |phdrs| - 1;
    var front := phdrs[..n];
    var i :| 0 <= i < n && SharesOn(front, i, q) && Clash(front, i) && LastOn(front, i, q);
    FrontAgrees(phdrs, n, i, q);
    forall j | i < j <= n
      ensures !SharesOn(phdrs, j, q)
    {
      if j < n { FrontAgrees(phdrs, n, j, q); }
    }
    assert LastOn(phdrs, i, q);
  }

  lemma MixedShrinks(phdrs: seq<Phdr>, q: int)
    requires phdrs != [] && !SharesOn(phdrs, |phdrs| - 1, q) && Mixed(phdrs, q)
    ensures Mixed(phdrs[..|phdrs| - 1], q)
  {
    var n := |phdrs| - 1;
    var front := phdrs[..n];
    var i :| 0 <= i <= n && SharesOn(phdrs, i, q) && Clash(phdrs, i) && LastOn(phdrs, i, q);
    FrontAgrees(phdrs, n, i, q);
    forall j | i < j < n
      ensures !SharesOn(front, j, q)
    {
      FrontAgrees(phdrs, n, j, q);
    }
    assert LastOn(front, i, q);
  }

  /** Shared pages lie at or below the page of the last mark. */
  lemma {:induction false} SharedBelow(phdrs: seq<Phdr>, q: int)
    requires Ascending(phdrs) && Mixed(phdrs, q) && forall j :: 0 <= j < |phdrs| ==> phdrs[j].filesz <= phdrs[j].memsz
    ensures PAGE * q <= PageDown(MarkOf(phdrs).addr)
    decreases |phdrs|
  {
    var n := |phdrs| - 1;
    MixedStep(phdrs, q);
    MarkGrows(phdrs);
    PagesMono(MarkOf(phdrs[..n]).addr, MarkOf(phdrs).addr);
    if !SharesOn(phdrs, n, q) { SharedBelow(phdrs[..n], q); }
  }

  lemma MarkGrows(phdrs: seq<Phdr>)
    requires Ascending(phdrs) && phdrs != [] && forall j :: 0 <= j < |phdrs| ==> phdrs[j].filesz <= phdrs[j].memsz
    ensures MarkOf(phdrs[..|phdrs| - 1]).addr <= MarkOf(phdrs).addr
  {
    MarkBelow(phdrs);
  }

  /** Over a list mapped to the end, the headers alone say what `lastAddr` and `lastPerm` are. */
  lemma {:induction false} MarksMatch(m: Mem, file: seq<byte>, phdrs: seq<Phdr>, q: int)
    requires ListOk(m, file, phdrs) && MapAll(Begin(m), file, phdrs).Done? && 0 <= q < |m.prot|
    ensures var p := MapAll(Begin(m), file, phdrs).p;
            && |p.mem.prot| == |m.prot| && |p.mem.bytes| == |m.bytes|
            && p.lastAddr == MarkOf(phdrs).addr && p.lastPerm == PermOf(MarkOf(phdrs).seg)
    decreases |phdrs|
  {
    if phdrs != [] {
      var n := |phdrs| - 1;
      FrontOk(m, file, phdrs);
      MarksMatch(m, file, phdrs[..n], q);
      MarkBelow(phdrs);
      ProtStep(MapAll(Begin(m), file, phdrs[..n]).p, file, phdrs[n], q);
    }
  }

  lemma FrontOk(m: Mem, file: seq<byte>, phdrs: seq<Phdr>)
    requires ListOk(m, file, phdrs) && phdrs != []
    ensures var n := |phdrs| - 1;
            && ListOk(m, file, phdrs[..n]) && SegmentOk(m, file, phdrs[n])
            && MapAll(Begin(m), file, phdrs) ==
               match MapAll(Begin(m), file, phdrs[..n]) {
                 case Unfinished => Unfinished
                 case Done(p) => MapOne(p, file, phdrs[n])
               }
  {
    var n := |phdrs| - 1;
    assert phdrs == phdrs[..n] + [phdrs[n]];
    MapAllSnoc(Begin(m), file, phdrs[..n], phdrs[n]);
  }

  /**
    Over any ascending list of congruent segments that is mapped to the end, a page ends up both
    writable and executable iff it is shared and the last segment that starts in it clashes with the
    one that ends in it.
    */
  lemma {:induction false} WritableExecutableIff(m: Mem, file: seq<byte>, phdrs: seq<Phdr>, q: int)
    requires ListOk(m, file, phdrs) && MapAll(Begin(m), file, phdrs).Done?
    requires 0 <= q < |m.prot| && m.prot[q] == RW
    ensures var m' := MapAll(Begin(m), file, phdrs).p.mem;
            |m'.prot| == |m.prot| && (BothWX(m'.prot[q]) <==> Mixed(phdrs, q))
    decreases |phdrs|
  {
    MarksMatch(m, file, phdrs, q);
    if phdrs != [] {
      var n := |phdrs| - 1;
      var front, ph := phdrs[..n], phdrs[n];
      FrontOk(m, file, phdrs);
      MarksMatch(m, file, front, q);
      WritableExecutableIff(m, file, front, q);
      MarkBelow(phdrs);
      MixedStep(phdrs, q);
      var p := MapAll(Begin(m), file, front).p;
      ProtStep(p, file, ph, q);
      if OwnsPage(ph, q) && !SharesPage(p, ph) && Mixed(front, q) { SharedBelow(front, q); }
    }
  }

  /** Segment `i` sets the protection of page `q`: it starts in that shared page, or is mapped over it. */
  predicate SetsPage(phdrs: seq<Phdr>, i: nat, q: int)
    requires i < |phdrs|
  {
    if Shares(MarkOf(phdrs[..i]), phdrs[i]) then SharesOn(phdrs, i, q) else phdrs[i].filesz > 0 && OwnsPage(phdrs[i], q)
  }

  /** The protection segment `i` gives a page it sets, by the flags: on a shared page, those of both segments. */
  predicate FlagsGiven(p: Perm, phdrs: seq<Phdr>, i: nat)
    requires i < |phdrs|
  {
    var c, d := MarkOf(phdrs[..i]).seg, phdrs[i];
    if Shares(MarkOf(phdrs[..i]), d)
    then (p.w <==> d.flagW || c.flagW) && (p.x <==> (d.flagX && !d.flagW) || (c.flagX && !c.flagW))
    else (p.w <==> d.flagW) && (p.x <==> d.flagX && !d.flagW)
  }

  /** Segment `i` is the last to set page `q`. */
  ghost predicate LastSets(phdrs: seq<Phdr>, i: nat, q: int) {
    i < |phdrs| && SetsPage(phdrs, i, q) && forall j :: i < j < |phdrs| ==> !SetsPage(phdrs, j, q)
  }

  /**
    The protection of every page, over any ascending list of congruent segments mapped to the end: the
    last segment to set the page decides, by its flags; a page nobody sets stays readable and writable.
    */
  lemma {:induction false} FinalProtection(m: Mem, file: seq<byte>, phdrs: seq<Phdr>, q: int)
    requires ListOk(m, file, phdrs) && MapAll(Begin(m), file, phdrs).Done?
    requires 0 <= q < |m.prot| && m.prot[q] == RW
    ensures var m' := MapAll(Begin(m), file, phdrs).p.mem;
            && |m'.prot| == |m.prot|
            && (forall i :: LastSets(phdrs, i, q) ==> FlagsGiven(m'.prot[q], phdrs, i))
            && ((forall i :: 0 <= i < |phdrs| ==> !SetsPage(phdrs, i, q)) ==> m'.prot[q] == RW)
    decreases |phdrs|
  {
    MarksMatch(m, file, phdrs, q);
    if phdrs != [] {
      var n := |phdrs| - 1;
      var front, ph := phdrs[..n], phdrs[n];
      FrontOk(m, file, phdrs);
      MarksMatch(m, file, front, q);
      FinalProtection(m, file, front, q);
      MarkBelow(phdrs);
      var p := MapAll(Begin(m), file, front).p;
      ProtStep(p, file, ph, q);
      LastSetsStep(phdrs, q, MapOne(p, file, ph).p.mem.prot[q], p.mem.prot[q]);
    }
  }

  lemma SetsFront(phdrs: seq<Phdr>, n: nat, i: nat, q: int, p: Perm)
    requires i < n <= |phdrs|
    ensures SetsPage(phdrs[..n], i, q) == SetsPage(phdrs, i, q)
    ensures FlagsGiven(p, phdrs[..n], i) == FlagsGiven(p, phdrs, i)
  {
    assert phdrs[..n][..i] == phdrs[..i];
  }

  lemma LastSetsStep(phdrs: seq<Phdr>, q: int, after: Perm, before: Perm)
    requires phdrs != []
    requires var n := |phdrs| - 1;
             && (forall i :: LastSets(phdrs[..n], i, q) ==> FlagsGiven(before, phdrs[..n], i))
             && ((forall i :: 0 <= i < n ==> !SetsPage(phdrs[..n], i, q)) ==> before == RW)
             && (if SetsPage(phdrs, n, q) then FlagsGiven(after, phdrs, n) else after == before)
    ensures forall i :: LastSets(phdrs, i, q) ==> FlagsGiven(after, phdrs, i)
    ensures (forall i :: 0 <= i < |phdrs| ==> !SetsPage(phdrs, i, q)) ==> after == RW
  {
    var n := |phdrs| - 1;
    forall i: nat | LastSets(phdrs, i, q)
      ensures FlagsGiven(after, phdrs, i)
    {
      if i < n {
        assert !SetsPage(phdrs, n, q);
        LastSetsFront(phdrs, i, q);
        SetsFront(phdrs, n, i, q, before);
      }
    }
    if forall i :: 0 <= i < |phdrs| ==> !SetsPage(phdrs, i, q) {
      forall i | 0 <= i < n
        ensures !SetsPage(phdrs[..n], i, q)
      {
        SetsFront(phdrs, n, i, q, before);
      }
    }
  }

  lemma LastSetsFront(phdrs: seq<Phdr>, i: nat, q: int)
    requires LastSets(phdrs, i, q) && i < |phdrs| - 1
    ensures LastSets(phdrs[..|phdrs| - 1], i, q)
  {
    var n := |phdrs| - 1;
    SetsFront(phdrs, n, i, q, RW);
    forall j | i < j < n
      ensures !SetsPage(phdrs[..n], j, q)
    {
      SetsFront(phdrs, n, j, q, RW);
    }
  }

  /** The text and data segments of the example above leave their page writable and executable. */
  lemma WritableExecutableExample(file: seq<byte>)
    requires |file| == PAGE && forall i :: 0 <= i < PAGE ==> file[i] == 1
    ensures var r := MapAll(Begin(Reserved(1)), file, [TEXT] + [DATA]);
            r.Done? && |r.p.mem.prot| == 1 && BothWX(r.p.mem.prot[0])
  {
    var phdrs := [TEXT] + [DATA];
    SharedSegmentExample(file);
    assert phdrs[..1] == [TEXT] && [TEXT][..0] == [];
    assert MarkOf([TEXT]) == Mark(99, TEXT);
    assert SharesOn(phdrs, 1, 0) && Clash(phdrs, 1) && LastOn(phdrs, 1, 0);
    WritableExecutableIff(Reserved(1), file, phdrs, 0);
  }

  // ---------------------------------------------------------------- the whole image, shared pages included

  /** What the segment's memory should hold at `x`. */
  function Wanted(ph: Phdr, file: seq<byte>, x: int): byte {
    if x - ph.paddr < ph.filesz then FileByte(file, ph.offset + (x - ph.paddr)) else 0
  }

  /** What the marked segment leaves at `x`, past its own memory: the rest of its last file page, then zeros. */
  function LeftBehind(k: Mark, file: seq<byte>, x: int): byte {
    if x < PageUp(k.seg.paddr + k.seg.filesz) then FileByte(file, k.seg.offset + (x - k.seg.paddr)) else 0
  }

  /** The bytes a sharing segment does not store are there anyway. */
  ghost predicate ShareOk(k: Mark, file: seq<byte>, ph: Phdr) {
    ph.filesz <= PAGE &&
    forall x :: ph.paddr + Min(Room(ph.paddr), ph.filesz) <= x < ph.paddr + ph.memsz ==>
      Wanted(ph, file, x) == LeftBehind(k, file, x)
  }

  ghost predicate ShareOkAt(phdrs: seq<Phdr>, file: seq<byte>, j: nat)
    requires j < |phdrs|
  {
    Shares(MarkOf(phdrs[..j]), phdrs[j]) ==> ShareOk(MarkOf(phdrs[..j]), file, phdrs[j])
  }

  ghost predicate AllShareOk(phdrs: seq<Phdr>, file: seq<byte>) {
    forall j :: 0 <= j < |phdrs| ==> ShareOkAt(phdrs, file, j)
  }

  ghost predicate EveryLoaded(m: Mem, file: seq<byte>, phdrs: seq<Phdr>) {
    forall j :: 0 <= j < |phdrs| ==> Loaded(m, file, phdrs[j])
  }

  /** A mark is that of no segment, or of one with file bytes. */
  predicate MarkOk(k: Mark) {
    || (k.addr == -1 && k.seg == NO_SEGMENT)
    || (k.addr == k.seg.paddr + k.seg.memsz - 1 && 0 < k.seg.filesz <= k.seg.memsz)
  }

  /** What the memory holds behind the last of the segments mapped so far, which ends at `end`. */
  ghost predicate Behind(p: Progress, file: seq<byte>, k: Mark, end: int) {
    && MemOk(p.mem) && p.lastAddr == k.addr && MarkOk(k)
    && (forall x :: PageDown(k.addr) + PAGE <= x < |p.mem.bytes| ==> p.mem.bytes[x] == 0)
    && (forall x :: PageDown(k.addr) <= x < PageDown(k.addr) + PAGE && end <= x < |p.mem.bytes| && 0 <= x ==>
          p.mem.bytes[x] == LeftBehind(k, file, x))
  }

  function NextMark(k: Mark, ph: Phdr): Mark {
    if Shares(k, ph) || ph.filesz == 0 then k else Mark(ph.paddr + ph.memsz - 1, ph)
  }

  /** From the end of the list on, the memory holds what the mark leaves behind. */
  lemma BehindAll(p: Progress, file: seq<byte>, k: Mark, end: int, x: int)
    requires Behind(p, file, k, end) && PageDown(k.addr) <= x && end <= x < |p.mem.bytes| && 0 <= x
    ensures p.mem.bytes[x] == LeftBehind(k, file, x)
  {
    if k.addr >= 0 { PagesMono(k.seg.paddr + k.seg.filesz, k.addr + 1); }
  }

  /** Every byte after a segment that shares no page has been mapped. */
  lemma AnchorBytes(m: Mem, file: seq<byte>, ph: Phdr, x: int)
    requires MemOk(m) && SegmentOk(m, file, ph) && ph.filesz > 0 && 0 <= x < |m.bytes|
    ensures var m' := Cleared(m, file, ph.paddr, ph.memsz, ph.filesz, ph.offset);
            |m'.bytes| == |m.bytes| && m'.bytes[x] == AnchorByte(m, file, ph, x)
  {
    MapAtGeometry(ph);
  }

  function AnchorByte(m: Mem, file: seq<byte>, ph: Phdr, x: int): byte
    requires 0 <= x < |m.bytes|
  {
    if PageDown(ph.paddr) <= x < ph.paddr then 0
    else if ph.paddr <= x < ph.paddr + ph.memsz then Wanted(ph, file, x)
    else if ph.paddr + ph.memsz <= x < PageUp(ph.paddr + ph.filesz) then FileByte(file, ph.offset + (x - ph.paddr))
    else m.bytes[x]
  }

  ghost predicate Anchored(m: Mem, m': Mem, file: seq<byte>, ph: Phdr) {
    |m'.bytes| == |m.bytes| && forall x :: 0 <= x < |m.bytes| ==> m'.bytes[x] == AnchorByte(m, file, ph, x)
  }

  lemma LoadedIff(m: Mem, file: seq<byte>, ph: Phdr)
    requires SegmentFits(m, file, ph)
    ensures Loaded(m, file, ph) <==>
            forall x :: ph.paddr <= x < ph.paddr + ph.memsz ==> m.bytes[x] == Wanted(ph, file, x)
  {
  }

  /** What one segment adds: its own bytes, iff it shares no page or does so well; and what lies behind it. */
  ghost predicate Added(p: Progress, p': Progress, file: seq<byte>, k: Mark, ph: Phdr) {
    && |p'.mem.bytes| == |p.mem.bytes| && |p'.mem.prot| == |p.mem.prot|
    && Behind(p', file, NextMark(k, ph), ph.paddr + ph.memsz)
    && (forall x :: 0 <= x < ph.paddr && x < |p.mem.bytes| ==> p'.mem.bytes[x] == p.mem.bytes[x])
    && (Loaded(p'.mem, file, ph) <==> (Shares(k, ph) ==> ShareOk(k, file, ph)))
  }

  lemma AnchorStep(p: Progress, file: seq<byte>, k: Mark, end: int, ph: Phdr)
    requires Behind(p, file, k, end) && SegmentOk(p.mem, file, ph) && k.addr < ph.paddr && end <= ph.paddr
    requires !Shares(k, ph) && ph.filesz > 0
    ensures MapOne(p, file, ph).Done? && Added(p, MapOne(p, file, ph).p, file, k, ph)
  {
    var p' := MapOne(p, file, ph).p;
    forall x | 0 <= x < |p.mem.bytes|
      ensures p'.mem.bytes[x] == AnchorByte(p.mem, file, ph, x)
    {
      AnchorBytes(p.mem, file, ph, x);
    }
    assert Anchored(p.mem, p'.mem, file, ph);
    AnchorLoaded(p.mem, p'.mem, file, ph);
    AnchorLower(p, p'.mem, file, k, end, ph);
    AnchorBehind(p, p', file, k, end, ph);
  }

  lemma AnchorLoaded(m: Mem, m': Mem, file: seq<byte>, ph: Phdr)
    requires Anchored(m, m', file, ph) && SegmentFits(m', file, ph)
    ensures Loaded(m', file, ph)
  {
    LoadedIff(m', file, ph);
  }

  lemma AnchorLower(p: Progress, m': Mem, file: seq<byte>, k: Mark, end: int, ph: Phdr)
    requires Behind(p, file, k, end) && !Shares(k, ph) && Anchored(p.mem, m', file, ph)
    ensures forall x :: 0 <= x < ph.paddr && x < |p.mem.bytes| ==> m'.bytes[x] == p.mem.bytes[x]
  {
    assert PageDown(k.addr) + PAGE <= PageDown(ph.paddr);
  }

  lemma AnchorBehind(p: Progress, p': Progress, file: seq<byte>, k: Mark, end: int, ph: Phdr)
    requires Behind(p, file, k, end) && !Shares(k, ph) && 0 < ph.filesz <= ph.memsz && Anchored(p.mem, p'.mem, file, ph)
    requires MemOk(p'.mem) && p'.lastAddr == ph.paddr + ph.memsz - 1
    ensures Behind(p', file, NextMark(k, ph), ph.paddr + ph.memsz)
  {
    AnchorGeometry(k, ph);
    var k' := NextMark(k, ph);
    forall x | ph.paddr + ph.memsz <= x < |p.mem.bytes|
      ensures p'.mem.bytes[x] == LeftBehind(k', file, x)
      ensures PageDown(k'.addr) + PAGE <= x ==> LeftBehind(k', file, x) == 0
    {
      AnchorRest(p, p', file, k, end, ph, x);
    }
  }

  lemma AnchorGeometry(k: Mark, ph: Phdr)
    requires !Shares(k, ph) && 0 < ph.filesz <= ph.memsz
    ensures var last := ph.paddr + ph.memsz - 1;
            && PageDown(k.addr) + PAGE <= PageDown(ph.paddr)
            && PageUp(ph.paddr + ph.filesz) <= PageUp(ph.paddr + ph.memsz) == PageDown(last) + PAGE
  {
    PagesMono(ph.paddr + ph.filesz, ph.paddr + ph.memsz);
  }

  lemma AnchorRest(p: Progress, p': Progress, file: seq<byte>, k: Mark, end: int, ph: Phdr, x: int)
    requires Behind(p, file, k, end) && !Shares(k, ph) && 0 < ph.filesz <= ph.memsz && Anchored(p.mem, p'.mem, file, ph)
    requires ph.paddr + ph.memsz <= x < |p.mem.bytes|
    ensures p'.mem.bytes[x] == LeftBehind(NextMark(k, ph), file, x)
  {
    AnchorGeometry(k, ph);
    assert p'.mem.bytes[x] == AnchorByte(p.mem, file, ph, x);
    assert p.mem.bytes[x] == 0;
  }

  lemma EmptyStep(p: Progress, file: seq<byte>, k: Mark, end: int, ph: Phdr)
    requires Behind(p, file, k, end) && SegmentOk(p.mem, file, ph) && k.addr < ph.paddr && end <= ph.paddr
    requires !Shares(k, ph) && ph.filesz == 0
    ensures MapOne(p, file, ph).Done? && Added(p, MapOne(p, file, ph).p, file, k, ph)
  {
    assert PageDown(k.addr) + PAGE <= PageDown(ph.paddr);
    LoadedIff(p.mem, file, ph);
  }

  lemma SharedStep(p: Progress, file: seq<byte>, k: Mark, end: int, ph: Phdr)
    requires Behind(p, file, k, end) && SegmentOk(p.mem, file, ph) && k.addr < ph.paddr && end <= ph.paddr
    requires Shares(k, ph)
    ensures MapOne(p, file, ph).Done? <==> ph.filesz <= PAGE
    ensures ph.filesz <= PAGE ==> Added(p, MapOne(p, file, ph).p, file, k, ph)
  {
    assert PageDown(ph.paddr) == PageDown(k.addr) && ph.paddr % PAGE != 0;
    assert PageUp(ph.paddr) == PageDown(k.addr) + PAGE;
    if ph.filesz <= PAGE {
      var p' := MapOne(p, file, ph).p;
      var n := Min(Room(ph.paddr), ph.filesz);
      assert p' == p.(mem := IntoShared(p, file, ph));
      assert forall x :: 0 <= x < |p.mem.bytes| ==>
          p'.mem.bytes[x] == if ph.paddr <= x < ph.paddr + n
                             then FileByte(file, ph.offset + (x - ph.paddr)) else p.mem.bytes[x];
      SharedLoadedIff(p, p'.mem, file, k, end, ph, n);
    }
  }

  lemma SharedLoadedIff(p: Progress, m': Mem, file: seq<byte>, k: Mark, end: int, ph: Phdr, n: nat)
    requires Behind(p, file, k, end) && SegmentOk(p.mem, file, ph) && end <= ph.paddr && PageDown(k.addr) <= ph.paddr
    requires n == Min(Room(ph.paddr), ph.filesz) && ph.filesz <= PAGE && |m'.bytes| == |p.mem.bytes|
    requires forall x :: 0 <= x < |p.mem.bytes| ==>
               m'.bytes[x] == if ph.paddr <= x < ph.paddr + n
                              then FileByte(file, ph.offset + (x - ph.paddr)) else p.mem.bytes[x]
    ensures Loaded(m', file, ph) <==> ShareOk(k, file, ph)
  {
    LoadedIff(m', file, ph);
    forall x | ph.paddr + n <= x < ph.paddr + ph.memsz
      ensures m'.bytes[x] == LeftBehind(k, file, x)
    {
      BehindAll(p, file, k, end, x);
    }
  }

  /** A step that changes nothing below `ph` keeps what was loaded there, and what was not. */
  lemma KeepsLower(m: Mem, m': Mem, file: seq<byte>, c: Phdr, ph: Phdr)
    requires |m'.bytes| == |m.bytes| && SegmentFits(m, file, c) && c.paddr + c.memsz <= ph.paddr
    requires forall x :: 0 <= x < ph.paddr && x < |m.bytes| ==> m'.bytes[x] == m.bytes[x]
    ensures Loaded(m', file, c) <==> Loaded(m, file, c)
  {
    LoadedIff(m, file, c);
    LoadedIff(m', file, c);
  }

  function EndOf(phdrs: seq<Phdr>): int {
    if phdrs == [] then 0 else phdrs[|phdrs| - 1].paddr + phdrs[|phdrs| - 1].memsz
  }

  lemma SegmentStep(p: Progress, file: seq<byte>, k: Mark, end: int, ph: Phdr)
    requires Behind(p, file, k, end) && SegmentOk(p.mem, file, ph) && k.addr < ph.paddr && end <= ph.paddr
    ensures MapOne(p, file, ph).Done? <==> (Shares(k, ph) ==> ph.filesz <= PAGE)
    ensures MapOne(p, file, ph).Done? ==> Added(p, MapOne(p, file, ph).p, file, k, ph)
  {
    if Shares(k, ph) {
      SharedStep(p, file, k, end, ph);
    } else if ph.filesz > 0 {
      AnchorStep(p, file, k, end, ph);
    } else {
      EmptyStep(p, file, k, end, ph);
    }
  }

  /** Segments before the last one are loaded after it iff they were before. */
  lemma LoadedStep(m: Mem, m': Mem, file: seq<byte>, phdrs: seq<Phdr>)
    requires ListOk(m, file, phdrs) && phdrs != [] && |m'.bytes| == |m.bytes|
    requires forall x :: 0 <= x < phdrs[|phdrs| - 1].paddr && x < |m.bytes| ==> m'.bytes[x] == m.bytes[x]
    ensures var n := |phdrs| - 1;
            EveryLoaded(m', file, phdrs) <==> EveryLoaded(m, file, phdrs[..n]) && Loaded(m', file, phdrs[n])
  {
    var n := |phdrs| - 1;
    var front := phdrs[..n];
    forall j | 0 <= j < n
      ensures Loaded(m', file, phdrs[j]) <==> Loaded(m, file, front[j])
    {
      KeepsLower(m, m', file, phdrs[j], phdrs[n]);
    }
    if EveryLoaded(m', file, phdrs) {
      forall j | 0 <= j < n
        ensures Loaded(m, file, front[j])
      {
        assert Loaded(m', file, phdrs[j]);
      }
    }
  }

  lemma ShareOkStep(phdrs: seq<Phdr>, file: seq<byte>)
    requires phdrs != []
    ensures var n := |phdrs| - 1;
            AllShareOk(phdrs, file) <==> AllShareOk(phdrs[..n], file) && ShareOkAt(phdrs, file, n)
  {
    var n := |phdrs| - 1;
    forall j | 0 <= j < n
      ensures ShareOkAt(phdrs[..n], file, j) <==> ShareOkAt(phdrs, file, j)
    {
      assert phdrs[..n][..j] == phdrs[..j];
    }
  }

  /** Over a list so far: what lies behind it, and when all of it is loaded. */
  lemma {:induction false} ImageSoFar(m: Mem, file: seq<byte>, phdrs: seq<Phdr>)
    requires ListOk(m, file, phdrs) && forall x :: 0 <= x < |m.bytes| ==> m.bytes[x] == 0
    ensures var r := MapAll(Begin(m), file, phdrs);
            && (r.Done? ==>
                  && |r.p.mem.bytes| == |m.bytes| && |r.p.mem.prot| == |m.prot|
                  && Behind(r.p, file, MarkOf(phdrs), EndOf(phdrs))
                  && (EveryLoaded(r.p.mem, file, phdrs) <==> AllShareOk(phdrs, file)))
            && (!r.Done? ==> !AllShareOk(phdrs, file))
    decreases |phdrs|
  {
    if phdrs != [] {
      var n := |phdrs| - 1;
      var front, ph := phdrs[..n], phdrs[n];
      assert phdrs == front + [ph];
      assert forall j :: 0 <= j < n ==> front[j] == phdrs[j];
      MapAllSnoc(Begin(m), file, front, ph);
      ImageSoFar(m, file, front);
      ShareOkStep(phdrs, file);
      if MapAll(Begin(m), file, front).Done? {
        ImageStep(m, MapAll(Begin(m), file, front).p, file, phdrs);
      }
    }
  }

  lemma ImageStep(m: Mem, p: Progress, file: seq<byte>, phdrs: seq<Phdr>)
    requires ListOk(m, file, phdrs) && phdrs != [] && |p.mem.bytes| == |m.bytes| && |p.mem.prot| == |m.prot|
    requires Behind(p, file, MarkOf(phdrs[..|phdrs| - 1]), EndOf(phdrs[..|phdrs| - 1]))
    ensures var n := |phdrs| - 1; var r := MapOne(p, file, phdrs[n]);
            && (!r.Done? ==> !ShareOkAt(phdrs, file, n))
            && (r.Done? ==>
                  && |r.p.mem.bytes| == |m.bytes| && |r.p.mem.prot| == |m.prot|
                  && Behind(r.p, file, MarkOf(phdrs), EndOf(phdrs))
                  && (EveryLoaded(r.p.mem, file, phdrs) <==>
                      EveryLoaded(p.mem, file, phdrs[..n]) && ShareOkAt(phdrs, file, n)))
  {
    var n := |phdrs| - 1;
    var front, ph := phdrs[..n], phdrs[n];
    MarkBelow(phdrs);
    assert EndOf(front) <= ph.paddr by { if n > 0 { assert front[n - 1] == phdrs[n - 1]; } }
    SegmentStep(p, file, MarkOf(front), EndOf(front), ph);
    if MapOne(p, file, ph).Done? {
      LoadedStep(p.mem, MapOne(p, file, ph).p.mem, file, phdrs);
    }
  }

  /**
    On the reserved region, over any ascending list of congruent segments: `map_phdrs` comes to the end
    and every segment is loaded iff every segment that shares its first page has at most 4096 file
    bytes, and the bytes of it that are not stored equal what the segment before leaves there.  This is
    a condition on the headers and the file alone.
    */
  lemma AllLoadedIff(pages: nat, file: seq<byte>, phdrs: seq<Phdr>)
    requires ListOk(Reserved(pages), file, phdrs)
    ensures var r := MapAll(Begin(Reserved(pages)), file, phdrs);
            r.Done? && EveryLoaded(r.p.mem, file, phdrs) <==> AllShareOk(phdrs, file)
  {
    ImageSoFar(Reserved(pages), file, phdrs);
  }

  // ---------------------------------------------------------------- the code, in place

  /** Segments in ascending order, as the gABI requires of loadable entries. */
  predicate Ascending(phdrs: seq<Phdr>) {
    forall i, j :: 0 <= i < j < |phdrs| ==> phdrs[i].paddr + phdrs[i].memsz <= phdrs[j].paddr
  }

  /** The pages past the last file segment still have the reserved region's protection. */
  ghost predicate TailWritable(p: Progress) {
    forall q :: 0 <= q < |p.mem.prot| && PAGE * q > PageDown(p.lastAddr) ==> p.mem.prot[q] == RW
  }

  class Region {
    const bytes: array<byte>
    const prot: array<Perm>

    ghost function View(): Mem
      reads this, bytes, prot
    {
      Mem(bytes[..], prot[..])
    }

    constructor (pages: nat)
      ensures View() == Reserved(pages) && fresh(bytes) && fresh(prot)
    {
      bytes := new byte[PAGE * pages](_ => 0);
      prot := new Perm[pages](_ => RW);
    }

    method MmapFile(file: seq<byte>, pg: int, len: int, foff: int)
      modifies bytes, prot
      ensures View() == Mmap(old(View()), file, pg, len, foff)
    {
      var hi := PageUp(pg + len);
      forall x | 0 <= x < bytes.Length && pg <= x < hi {
        bytes[x] := FileByte(file, foff + (x - pg));
      }
      forall q | 0 <= q < prot.Length && pg <= PAGE * q < hi {
        prot[q] := RW;
      }
      assert bytes[..] == Overlay(old(bytes[..]), file, pg, hi, foff);
      assert prot[..] == SetProt(old(prot[..]), pg, hi, RW);
    }

    /** `write_bytes` with zero; only writable pages are written. */
    method ZeroRange(lo: int, hi: int)
      requires MemOk(View()) && Writable(View(), lo, hi)
      modifies bytes
      ensures View() == Zero(old(View()), lo, hi)
    {
      forall x | 0 <= x < bytes.Length && lo <= x < hi {
        bytes[x] := 0;
      }
      assert bytes[..] == Overlay(old(bytes[..]), [], lo, hi, 0);
    }

    method Mprotect(pg: int, len: int, perm: Perm)
      modifies prot
      ensures View() == Protect(old(View()), pg, len, perm)
    {
      var hi := PageUp(pg + len);
      forall q | 0 <= q < prot.Length && pg <= PAGE * q < hi {
        prot[q] := perm;
      }
      assert prot[..] == SetProt(old(prot[..]), pg, hi, perm);
    }

    /** `read_offset`: seeks, then reads until the slice is full; it succeeds iff the kernel's answers fill it. */
    method ReadOffset(file: seq<byte>, off: nat, at: nat, n: nat, seek: bool, counts: seq<int>) returns (ok: bool)
      requires MemOk(View()) && at + n <= bytes.Length && off + n <= |file| && Writable(View(), at, at + n)
      modifies bytes
      ensures ok <==> seek && ReadsFill(counts, n)
      ensures ok ==> View() == ReadIn(old(View()), file, at, n, off)
    {
      if !seek { return false; }
      var done, i := 0, 0;
      while done < n
        invariant 0 <= done <= n && 0 <= i <= |counts|
        invariant View() == ReadIn(old(View()), file, at, done, off)
        invariant ReadsFill(counts, n) <==> ReadsFill(counts[i..], n - done)
      {
        if i == |counts| { return false; }
        var got := counts[i];
        if got <= 0 || got > n - done { return false; }
        assert counts[i..][1..] == counts[i + 1..];
        Receive(file, off, at, done, got);
        assert ReadIn(ReadIn(old(View()), file, at, done, off), file, at + done, got, off + done)
            == ReadIn(old(View()), file, at, done + got, off);
        done, i := done + got, i + 1;
      }
      return true;
    }

    /** One `read` call. */
    method Receive(file: seq<byte>, off: nat, at: nat, done: nat, got: nat)
      requires at + done + got <= bytes.Length && off + done + got <= |file|
      modifies bytes
      ensures View() == ReadIn(old(View()), file, at + done, got, off + done)
    {
      forall i | 0 <= i < got {
        bytes[at + done + i] := file[off + done + i];
      }
      assert bytes[..] == Overlay(old(bytes[..]), file, at + done, at + done + got, off + done);
    }

    /** The shared-page branch for one segment. */
    method MapShared(file: seq<byte>, ph: Phdr, ghost p: Progress, lastAddr: int, lastPerm: Perm, k: Reply)
      returns (refusal: Option<Error>)
      requires View() == p.mem && p.lastAddr == lastAddr && p.lastPerm == lastPerm
      requires MemOk(p.mem) && SegmentFits(p.mem, file, ph) && SharesPage(p, ph) && lastAddr < ph.paddr
      modifies bytes, prot
      ensures refusal == SharedRefusal(ph, k)
      ensures refusal.None? ==> View() == IntoShared(p, file, ph)
    {
      var pg := PageDown(lastAddr);
      if !k.unprotect { return Some(LoadError); }
      Mprotect(pg, PAGE, RW);
      var size := Min(Room(ph.paddr), ph.filesz);
      SharedWritable(p, ph);
      var ok := ReadOffset(file, ph.offset, ph.paddr, size, k.seek, k.counts);
      if !ok { return Some(ReadError); }
      if !k.reprotect { return Some(LoadError); }
      Mprotect(pg, PAGE, Join(PermOf(ph), lastPerm));
      return None;
    }

    /** The mapping of one segment's file bytes, the clearing around them and the final protection. */
    method MapFileSegment(file: seq<byte>, ph: Phdr, ghost p: Progress, k: Reply) returns (ok: bool)
      requires View() == p.mem && MemOk(p.mem) && SegmentOk(p.mem, file, ph) && ph.filesz > 0
      requires !SharesPage(p, ph) && TailWritable(p)
      modifies bytes, prot
      ensures ok <==> k.mmap && k.mprotect
      ensures ok ==> View() == MapAt(p, file, ph.paddr, ph.memsz, ph.filesz, ph.offset, PermOf(ph)).mem
    {
      if !k.mmap { return false; }
      MapCleared(file, ph, p);
      if !k.mprotect { return false; }
      Mprotect(PageDown(ph.paddr), ph.offset - PageDown(ph.offset) + ph.memsz, PermOf(ph));
      ok := true;
    }

    method MapCleared(file: seq<byte>, ph: Phdr, ghost p: Progress)
      requires View() == p.mem && MemOk(p.mem) && SegmentOk(p.mem, file, ph)
      requires !SharesPage(p, ph) && TailWritable(p)
      modifies bytes, prot
      ensures View() == Cleared(p.mem, file, ph.paddr, ph.memsz, ph.filesz, ph.offset)
    {
      var a, f := PageDown(ph.paddr), PageDown(ph.offset);
      MmapFile(file, a, ph.offset - f + ph.filesz, f);
      StillWritable(p, file, ph);
      ClearAround(a, ph.paddr, ph.paddr + ph.filesz, ph.paddr + ph.memsz);
    }

    method ClearAround(a: int, lo: int, mid: int, hi: int)
      requires MemOk(View()) && Writable(View(), a, hi) && a <= lo <= mid <= hi
      modifies bytes
      ensures View() == Zero(Zero(old(View()), a, lo), mid, hi)
    {
      PartWritable(View(), a, hi, a, lo);
      ZeroRange(a, lo);
      PartWritable(old(View()), a, hi, mid, hi);
      ZeroRange(mid, hi);
    }

    /** One round of the loop. */
    method MapSegment(file: seq<byte>, ph: Phdr, ghost p: Progress, lastAddr: int, lastPerm: Perm, k: Reply)
      returns (error: Option<Error>, todo: bool, addr': int, perm': Perm)
      requires View() == p.mem && p.lastAddr == lastAddr && p.lastPerm == lastPerm
      requires MemOk(p.mem) && TailWritable(p) && SegmentFits(p.mem, file, ph) && lastAddr < ph.paddr
      modifies bytes, prot
      ensures error == Refusal(p, ph, k)
      ensures error.None? ==> todo == MapOne(p, file, ph).Unfinished?
      ensures error.None? && !todo ==>
                && MapOne(p, file, ph) == Done(Progress(View(), addr', perm'))
                && TailWritable(Progress(View(), addr', perm')) && addr' < ph.paddr + ph.memsz + 1
    {
      ghost var p1 := p;
      error, todo, addr', perm' := None, false, lastAddr, lastPerm;
      var addr, len, fileLen, offset := ph.paddr, ph.memsz, ph.filesz, ph.offset;
      if PageDown(ph.paddr) <= PageDown(lastAddr) {
        error := MapShared(file, ph, p, lastAddr, lastPerm, k);
        if error.Some? { return; }
        len, fileLen := MonusPage(len), MonusPage(fileLen);
        addr, offset := PageUp(addr), PageUp(offset);
        SharedTail(p, file, ph);
        p1 := p.(mem := IntoShared(p, file, ph));
      }
      if fileLen > 0 {
        if addr % PAGE != ph.offset % PAGE { return None, true, addr', perm'; }
        var seg := Phdr(addr, len, fileLen, offset, ph.flagW, ph.flagX);
        var ok := MapFileSegment(file, seg, p1, k);
        if !ok { return Some(LoadError), false, addr', perm'; }
        MapAtTail(p1, file, seg);
        addr', perm' := addr + len - 1, PermOf(ph);
      }
    }

    /** `map_phdrs` ends as `MapAllWith` says for the kernel's answers. */
    method MapPhdrs(phdrs: seq<Phdr>, file: seq<byte>, replies: seq<Reply>) returns (error: Option<Error>, todo: bool)
      requires MemOk(View()) && forall q :: 0 <= q < prot.Length ==> prot[q] == RW
      requires Ascending(phdrs) && forall j :: 0 <= j < |phdrs| ==> SegmentFits(View(), file, phdrs[j])
      requires |replies| == |phdrs|
      modifies bytes, prot
      ensures var end := MapAllWith(Begin(old(View())), file, phdrs, replies);
              && (end.Failed? <==> error.Some?) && (end.Failed? ==> error == Some(end.e))
              && (end.Todo? <==> todo) && (end.Complete? ==> View() == end.p.mem)
    {
      error, todo := None, false;
      var lastAddr, lastPerm := -1, Perm(false, false);
      for i := 0 to |phdrs|
        invariant MemOk(View()) && TailWritable(Progress(View(), lastAddr, lastPerm)) && error.None? && !todo
        invariant forall j :: i <= j < |phdrs| ==> lastAddr < phdrs[j].paddr
        invariant MapAllWith(Begin(old(View())), file, phdrs, replies) ==
                  MapAllWith(Progress(View(), lastAddr, lastPerm), file, phdrs[i..], replies[i..])
      {
        assert phdrs[i..][0] == phdrs[i] && phdrs[i..][1..] == phdrs[i + 1..];
        assert replies[i..][0] == replies[i] && replies[i..][1..] == replies[i + 1..];
        assert SegmentFits(old(View()), file, phdrs[i]);
        ghost var p := Progress(View(), lastAddr, lastPerm);
        error, todo, lastAddr, lastPerm := MapSegment(file, phdrs[i], p, lastAddr, lastPerm, replies[i]);
        if error.Some? { return error, false; }
        if todo { return; }
      }
      assert phdrs[|phdrs|..] == [];
    }
  }

  /** The shared page, made writable, holds all the bytes read into it. */
  lemma SharedWritable(p: Progress, ph: Phdr)
    requires MemOk(p.mem) && ph.paddr + ph.filesz <= |p.mem.bytes| && SharesPage(p, ph) && p.lastAddr < ph.paddr
    ensures var m := Protect(p.mem, PageDown(p.lastAddr), PAGE, RW);
            Writable(m, ph.paddr, ph.paddr + Min(Room(ph.paddr), ph.filesz))
  {
    var pg := PageDown(p.lastAddr);
    assert PageDown(ph.paddr) == pg && PageUp(ph.paddr) <= pg + PAGE && PageUp(pg + PAGE) == pg + PAGE;
    forall q: int | ph.paddr - PAGE < PAGE * q < pg + PAGE
      ensures PAGE * q == pg
    {
    }
  }

  lemma PartWritable(m: Mem, lo: int, hi: int, from: int, to: int)
    requires Writable(m, lo, hi) && lo <= from && to <= hi
    ensures forall m': Mem :: m'.prot == m.prot ==> Writable(m', from, to)
  {
  }

  lemma SharedTail(p: Progress, file: seq<byte>, ph: Phdr)
    requires MemOk(p.mem) && TailWritable(p)
    ensures TailWritable(p.(mem := IntoShared(p, file, ph)))
    ensures |IntoShared(p, file, ph).bytes| == |p.mem.bytes|
  {
  }

  lemma MapAtTail(p: Progress, file: seq<byte>, ph: Phdr)
    requires MemOk(p.mem) && TailWritable(p) && SegmentOk(p.mem, file, ph) && ph.filesz > 0 && !SharesPage(p, ph)
    ensures var p' := MapAt(p, file, ph.paddr, ph.memsz, ph.filesz, ph.offset, PermOf(ph));
            TailWritable(p') && |p'.mem.bytes| == |p.mem.bytes|
  {
    MapAtLoads(p, file, ph);
    var p' := MapAt(p, file, ph.paddr, ph.memsz, ph.filesz, ph.offset, PermOf(ph));
    forall q | 0 <= q < |p'.mem.prot| && PAGE * q > PageDown(p'.lastAddr)
      ensures p'.mem.prot[q] == RW
    {
      PastTheEnd(ph, q);
      assert PAGE * q > PageDown(p.lastAddr);
    }
  }

  lemma PastTheEnd(ph: Phdr, q: int)
    requires ph.memsz > 0 && PAGE * q > PageDown(ph.paddr + ph.memsz - 1)
    ensures !OwnsPage(ph, q) && PAGE * q > PageDown(ph.paddr)
  {
  }

  /** After the mapping, all of the segment's pages are writable. */
  lemma StillWritable(p: Progress, file: seq<byte>, ph: Phdr)
    requires MemOk(p.mem) && SegmentOk(p.mem, file, ph) && !SharesPage(p, ph) && TailWritable(p)
    ensures var f := PageDown(ph.offset);
            var m := Mmap(p.mem, file, PageDown(ph.paddr), ph.offset - f + ph.filesz, f);
            Writable(m, PageDown(ph.paddr), ph.paddr + ph.memsz)
  {
  }
}
