/** `__memcpy_explicit`: a 16-byte copy loop followed by a cascade for the tail, register by register. */
module Memcpy {
  import opened Bits

  /** `dst` with `data` stored from position `at` on. */
  function Stored(dst: seq<byte>, at: nat, data: seq<byte>): (r: seq<byte>)
    requires at + |data| <= |dst|
    ensures |r| == |dst|
    ensures forall i :: 0 <= i < |dst| ==> r[i] == if at <= i < at + |data| then data[i - at] else dst[i]
  {
    dst[..at] + data + dst[at + |data|..]
  }

  /** One load of `w` bytes into a register, and its store. */
  method Move(dest: array<byte>, rdi: nat, src: array<byte>, rsi: nat, w: nat)
    requires rdi + w <= dest.Length && rsi + w <= src.Length
    modifies dest
    ensures forall i :: 0 <= i < dest.Length ==>
              dest[i] == if rdi <= i < rdi + w then old(src[rsi + (i - rdi)]) else old(dest[i])
  {
    var register := src[rsi..rsi + w];
    forall i | 0 <= i < w {
      dest[rdi + i] := register[i];
    }
  }

  /** The two ranges of `len` bytes do not overlap. */
  predicate Apart(dest: array<byte>, at: nat, src: array<byte>, from: nat, len: nat) {
    dest != src || at + len <= from || from + len <= at
  }

  /** The first `n` bytes of `data` have arrived, nothing else has changed, and the source still holds `data`. */
  ghost predicate Arrived(dest: array<byte>, at: nat, src: array<byte>, from: nat, n: nat,
                          before: seq<byte>, data: seq<byte>)
    reads dest, src
  {
    && |before| == dest.Length && n <= |data| && at + |data| <= dest.Length && from + |data| <= src.Length
    && Apart(dest, at, src, from, |data|)
    && (forall i :: from <= i < from + |data| ==> src[i] == data[i - from])
    && (forall i :: 0 <= i < dest.Length ==> dest[i] == if at <= i < at + n then data[i - at] else before[i])
  }

  /** One more load and store, behind the `n` bytes that have arrived. */
  method MoveNext(dest: array<byte>, at: nat, src: array<byte>, from: nat, n: nat, w: nat,
                  ghost before: seq<byte>, ghost data: seq<byte>)
    requires Arrived(dest, at, src, from, n, before, data) && n + w <= |data|
    modifies dest
    ensures Arrived(dest, at, src, from, n + w, before, data)
  {
    Move(dest, at + n, src, from + n, w);
  }

  /** The lengths of which every byte is copied. */
  predicate Whole(len: nat) { len != 16 && len % 16 != 8 }

  /** Nothing outside the range changes, and of the range at most the last byte is not the source's. */
  ghost predicate Copied(before: seq<byte>, after: seq<byte>, at: nat, data: seq<byte>) {
    && at + |data| <= |before|
    && after == Stored(before, at, if Whole(|data|) then data else data[..|data| - 1])
  }

  /** The range holds the source's bytes. */
  predicate Complete(after: seq<byte>, at: nat, data: seq<byte>) {
    at + |data| <= |after| && after[at..at + |data|] == data
  }

  /**
    All bytes arrive if the length is neither 16 nor 8 modulo 16; otherwise all but the last, which
    keeps its old value.  Nothing else in memory changes.  So the copy is complete iff the length is
    one of the former or the last byte was already right.
    */
  method MemcpyExplicit(dest: array<byte>, at: nat, src: array<byte>, from: nat, len: nat)
    requires at + len <= dest.Length && from + len <= src.Length && Apart(dest, at, src, from, len)
    modifies dest
    ensures Copied(old(dest[..]), dest[..], at, old(src[from..from + len]))
    ensures Complete(dest[..], at, old(src[from..from + len])) <==>
            Whole(len) || old(dest[at + len - 1]) == old(src[from + len - 1])
  {
    ghost var before, data := dest[..], src[from..from + len];
    var n, rdx := 0, len;  // rdi = at + n, rsi = from + n
    if rdx > 16 { n, rdx := Blocks(dest, at, src, from, len, before, data); }
    n := Tail(dest, at, src, from, n, rdx, before, data);
    Finish(dest[..], at, n, before, data);
  }

  lemma Finish(after: seq<byte>, at: nat, n: nat, before: seq<byte>, data: seq<byte>)
    requires |after| == |before| && at + |data| <= |before| && n == if Whole(|data|) then |data| else |data| - 1
    requires forall i :: 0 <= i < |after| ==> after[i] == if at <= i < at + n then data[i - at] else before[i]
    ensures Copied(before, after, at, data)
    ensures Complete(after, at, data) <==> Whole(|data|) || before[at + |data| - 1] == data[|data| - 1]
  {
    var range := after[at..at + |data|];
    assert forall i :: 0 <= i < n ==> range[i] == data[i];
    if n < |data| { assert range[n] == before[at + n]; }
  }

  /** The 16-byte loop. */
  method Blocks(dest: array<byte>, at: nat, src: array<byte>, from: nat, len: nat,
                ghost before: seq<byte>, ghost data: seq<byte>) returns (n: nat, rdx: nat)
    requires Arrived(dest, at, src, from, 0, before, data) && |data| == len && len > 16
    modifies dest
    ensures n + rdx == len && rdx == len % 16 && Arrived(dest, at, src, from, n, before, data)
  {
    n, rdx := 0, len;
    while true
      invariant n + rdx == len && rdx >= 16 && n % 16 == 0
      invariant Arrived(dest, at, src, from, n, before, data)
      decreases rdx
    {
      MoveNext(dest, at, src, from, n, 16, before, data);
      n, rdx := n + 16, rdx - 16;
      if rdx < 16 { break; }
    }
  }

  /** The cascade from 8 bytes down. */
  method Tail(dest: array<byte>, at: nat, src: array<byte>, from: nat, start: nat, left: nat,
              ghost before: seq<byte>, ghost data: seq<byte>) returns (n: nat)
    requires Arrived(dest, at, src, from, start, before, data) && start + left == |data| && left <= 16
    modifies dest
    ensures n == (if left == 8 || left == 16 then |data| - 1 else |data|)
    ensures Arrived(dest, at, src, from, n, before, data)
  {
    var rdx := left;
    n := start;
    if rdx > 8 {
      MoveNext(dest, at, src, from, n, 8, before, data);
      n, rdx := n + 8, rdx - 8;
    }
    n := ShortTail(dest, at, src, from, n, rdx, before, data);
  }

  /** The cascade from 4 bytes down; of 8 bytes it copies 7. */
  method ShortTail(dest: array<byte>, at: nat, src: array<byte>, from: nat, start: nat, left: nat,
                   ghost before: seq<byte>, ghost data: seq<byte>) returns (n: nat)
    requires Arrived(dest, at, src, from, start, before, data) && start + left == |data| && left <= 8
    modifies dest
    ensures n == (if left == 8 then |data| - 1 else |data|) && Arrived(dest, at, src, from, n, before, data)
  {
    var rdx := left;
    n := start;
    if rdx >= 4 {
      MoveNext(dest, at, src, from, n, 4, before, data);
      n, rdx := n + 4, rdx - 4;
    }
    if rdx >= 2 {
      MoveNext(dest, at, src, from, n, 2, before, data);
      n, rdx := n + 2, rdx - 2;
    }
    if rdx >= 1 {
      MoveNext(dest, at, src, from, n, 1, before, data);
      n := n + 1;
    }
  }
}
