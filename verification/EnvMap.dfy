/**
  `EnvMap`: the environment as one byte arena of length-prefixed entries, an index from names to
  entry offsets, and a list of relocated entries.  It is meant to behave like a plain map.
 */
module EnvMap {
  import opened Bits
  import Utf8
  import opened Wrappers

  /** No byte of `s` is one of the two terminators. */
  predicate TerminatorFree(s: seq<byte>) { forall i :: 0 <= i < |s| ==> s[i] < 0xFE }

  /** The bytes of a name or a value. */
  type Str = s: seq<byte> | TerminatorFree(s)

  /** Rust strings are UTF-8, and no byte of well-formed UTF-8 is a terminator. */
  lemma RustStringsQualify(s: seq<byte>)
    requires Utf8.WellFormed(s)
    ensures TerminatorFree(s)
  {
    Utf8.NoHighBytes(s);
  }

  const KEY_TERM: byte := 0xFE
  const ENTRY_TERM: byte := 0xFF
  const EMPTY: seq<byte> := [0xFE, 0xFF]
  const PREFIX: nat := 8  // size_of::<usize>()
  const CAPACITY: nat := 0x8000_0000_0000_0000  // no `Vec<u8>` grows to this size

  function EntryLen(k: Str, v: Str): nat { 8 + 2 + |k| + |v| }

  // ---------------------------------------------------------------- usize as eight bytes

  function LittleEndian(n: nat, k: nat): (r: seq<byte>)
    ensures |r| == k
  {
    if k == 0 then [] else [n % 256] + LittleEndian(n / 256, k - 1)
  }

  function FromLittleEndian(s: seq<byte>): nat {
    if s == [] then 0 else s[0] + 256 * FromLittleEndian(s[1..])
  }

  function Pow256(k: nat): nat { if k == 0 then 1 else 256 * Pow256(k - 1) }

  lemma {:induction false} LengthRoundTrip(n: nat, k: nat)
    requires n < Pow256(k)
    ensures FromLittleEndian(LittleEndian(n, k)) == n
  {
    if k > 0 {
      LengthRoundTrip(n / 256, k - 1);
      assert LittleEndian(n, k)[1..] == LittleEndian(n / 256, k - 1);
    }
  }

  lemma PrefixRoundTrip(n: nat)
    requires n < CAPACITY
    ensures FromLittleEndian(LittleEndian(n, PREFIX)) == n
  {
    assert Pow256(4) == 0x1_0000_0000;
    assert Pow256(8) == 0x1_0000_0000 * 0x1_0000_0000;
    LengthRoundTrip(n, PREFIX);
  }

  // ---------------------------------------------------------------- the operations

  datatype Env = Env(env: seq<byte>, index: map<Str, nat>, free: seq<nat>)

  /** `Panicked`: a slice out of range, a missing length prefix, or a capacity overflow. */
  datatype Outcome = Done(e: Env) | Panicked

  /** The length prefix at `off`. */
  function LenAt(env: seq<byte>, off: nat): Option<nat> {
    if off + 8 <= |env| then Some(FromLittleEndian(env[off..off + 8])) else None
  }

  /** `env[at..][..|b|].copy_from_slice(b)`. */
  function Poke(env: seq<byte>, at: nat, b: seq<byte>): Option<seq<byte>> {
    if at + |b| <= |env| then Some(env[..at] + b + env[at + |b|..]) else None
  }

  function EntryBytes(k: Str, v: Str): (r: seq<byte>)
    ensures |r| == EntryLen(k, v)
  {
    LittleEndian(EntryLen(k, v), PREFIX) + k + [KEY_TERM] + v + [ENTRY_TERM]
  }

  datatype Scan = Found(i: nat) | NotFound | Malformed

  /** The first freelist position, from `i` on, whose entry is at most `elen` long. */
  function ScanFree(env: seq<byte>, free: seq<nat>, elen: nat, i: nat): (r: Scan)
    requires i <= |free|
    ensures r.Found? ==> i <= r.i < |free| && LenAt(env, free[r.i]).Some? && LenAt(env, free[r.i]).value <= elen
    ensures r.NotFound? ==>
              forall j :: i <= j < |free| ==> LenAt(env, free[j]).Some? && LenAt(env, free[j]).value > elen
    decreases |free| - i
  {
    if i == |free| then NotFound
    else if LenAt(env, free[i]).None? then Malformed
    else if LenAt(env, free[i]).value <= elen then Found(i)
    else ScanFree(env, free, elen, i + 1)
  }

  function SwapRemove(s: seq<nat>, i: nat): seq<nat>
    requires i < |s|
  {
    s[i := s[|s| - 1]][..|s| - 1]
  }

  /** The reuse branch, as written: it stores through `env[..elem]`, not `env[elem..]`. */
  function Reuse(e: Env, k: Str, v: Str, i: nat): Outcome
    requires i < |e.free|
  {
    var elem := e.free[i];
    var emptied := Emptied(e, k);
    if emptied.None? || elem > |e.env| || EntryLen(k, v) > elem then Panicked
    else
      var stored := Poke(emptied.value, 8, k + [KEY_TERM] + v + [ENTRY_TERM]);
      if stored.None? then Panicked
      else Done(Env(stored.value, e.index[k := elem],
                    if k in e.index then e.free[i := e.index[k]] else SwapRemove(e.free, i)))
  }

  function Append(e: Env, k: Str, v: Str): Outcome {
    if |e.env| + EntryLen(k, v) >= CAPACITY then Panicked
    else
      var grown := e.env + EntryBytes(k, v);
      if k !in e.index then Done(Env(grown, e.index[k := |e.env|], e.free))
      else
        match Poke(grown, e.index[k] + 8, EMPTY)
        case None => Panicked
        case Some(env') => Done(Env(env', e.index[k := |e.env|], e.free + [e.index[k]]))
  }

  predicate FitsInPlace(e: Env, k: Str, v: Str) {
    k in e.index && LenAt(e.env, e.index[k]).Some? && EntryLen(k, v) <= LenAt(e.env, e.index[k]).value
  }

  function AfterSet(e: Env, k: Str, v: Str): Outcome {
    if k in e.index && LenAt(e.env, e.index[k]).None? then Panicked
    else if FitsInPlace(e, k, v) then
      match Poke(e.env, e.index[k] + 9 + |k|, v + [ENTRY_TERM])
      case None => Panicked
      case Some(env') => Done(e.(env := env'))
    else
      match ScanFree(e.env, e.free, EntryLen(k, v), 0)
      case Malformed => Panicked
      case Found(i) => Reuse(e, k, v, i)
      case NotFound => Append(e, k, v)
  }

  /** `set_var` takes the reuse branch: it cannot overwrite in place and some free entry is no longer than needed. */
  predicate ReuseFires(e: Env, k: Str, v: Str) {
    !FitsInPlace(e, k, v) && ScanFree(e.env, e.free, EntryLen(k, v), 0).Found?
  }

  function AfterRemove(e: Env, k: Str): Outcome {
    if k !in e.index then Done(e)
    else
      match Poke(e.env, e.index[k] + 8, EMPTY)
      case None => Panicked
      case Some(env') => Done(Env(env', e.index - {k}, e.free))
  }

  // ---------------------------------------------------------------- what an arena represents

  datatype Entry = Live(key: Str, val: Str) | Free

  /** One entry of the arena, occupying the `len` bytes from `off` on. */
  datatype Slot = Slot(off: nat, len: nat, entry: Entry)

  /** The bytes `c` hold an entry: prefix, name, 0xFE, value, 0xFF and any padding. */
  ghost predicate Holds(c: seq<byte>, entry: Entry) {
    && |c| >= 10 && FromLittleEndian(c[..8]) == |c|
    && match entry
       case Free => c[8] == KEY_TERM && c[9] == ENTRY_TERM
       case Live(k, v) =>
         && EntryLen(k, v) <= |c|
         && c[8..8 + |k|] == k && c[8 + |k|] == KEY_TERM
         && c[9 + |k|..9 + |k| + |v|] == v && c[9 + |k| + |v|] == ENTRY_TERM
  }

  /** The entries follow one another without a gap and end at `total`. */
  ghost predicate Contiguous(slots: seq<Slot>, total: nat) {
    if slots == [] then total == 0
    else
      var last := slots[|slots| - 1];
      last.off + last.len == total && Contiguous(slots[..|slots| - 1], last.off)
  }

  ghost predicate Ordered(slots: seq<Slot>) {
    forall i, j :: 0 <= i < j < |slots| ==> slots[i].off + slots[i].len <= slots[j].off
  }

  ghost predicate SlotAt(env: seq<byte>, t: Slot) {
    t.off + t.len <= |env| && Holds(env[t.off..t.off + t.len], t.entry)
  }

  /** The arena is the concatenation of the entries `slots`. */
  ghost predicate Layout(env: seq<byte>, slots: seq<Slot>) {
    && |env| < CAPACITY
    && Contiguous(slots, |env|)
    && Ordered(slots)
    && forall i :: 0 <= i < |slots| ==> SlotAt(env, slots[i])
  }

  ghost predicate HasKey(slots: seq<Slot>, k: Str) {
    exists i :: 0 <= i < |slots| && slots[i].entry.Live? && slots[i].entry.key == k
  }

  ghost predicate FreeAt(slots: seq<Slot>, o: nat) {
    exists i :: 0 <= i < |slots| && slots[i].entry.Free? && slots[i].off == o
  }

  /** The index and `m` agree with the live entries. */
  ghost predicate Indexed(index: map<Str, nat>, slots: seq<Slot>, m: map<Str, Str>) {
    && m.Keys == index.Keys
    && (forall i :: 0 <= i < |slots| && slots[i].entry.Live? ==>
          var k := slots[i].entry.key; k in m && index[k] == slots[i].off && m[k] == slots[i].entry.val)
    && (forall k {:trigger HasKey(slots, k)} :: k in index ==> HasKey(slots, k))
  }

  /** The freelist names distinct emptied entries. */
  ghost predicate Listed(free: seq<nat>, slots: seq<Slot>) {
    && (forall j :: 0 <= j < |free| ==> FreeAt(slots, free[j]))
    && (forall i, j :: 0 <= i < j < |free| ==> free[i] != free[j])
  }

  /** `e` represents the map `m`, by the entries `slots`. */
  ghost predicate Rep(e: Env, slots: seq<Slot>, m: map<Str, Str>) {
    Layout(e.env, slots) && Indexed(e.index, slots, m) && Listed(e.free, slots)
  }

  ghost predicate Represents(e: Env, m: map<Str, Str>) {
    exists slots :: Rep(e, slots, m)
  }

  // ---------------------------------------------------------------- changing one entry

  lemma {:induction false} ContiguousUpdate(slots: seq<Slot>, total: nat, p: nat, entry: Entry)
    requires Contiguous(slots, total) && p < |slots|
    ensures Contiguous(slots[p := slots[p].(entry := entry)], total)
  {
    var n := |slots| - 1;
    var slots' := slots[p := slots[p].(entry := entry)];
    if p < n {
      ContiguousUpdate(slots[..n], slots[n].off, p, entry);
      assert slots'[..n] == slots[..n][p := slots[p].(entry := entry)];
    } else {
      assert slots'[..n] == slots[..n];
    }
  }

  /** Rewriting bytes inside one entry changes that entry only. */
  lemma LayoutUpdate(env: seq<byte>, slots: seq<Slot>, p: nat, at: nat, b: seq<byte>, entry: Entry)
    requires Layout(env, slots) && p < |slots|
    requires slots[p].off <= at && at + |b| <= slots[p].off + slots[p].len
    requires Poke(env, at, b).Some?
    requires SlotAt(Poke(env, at, b).value, slots[p].(entry := entry))
    ensures Layout(Poke(env, at, b).value, slots[p := slots[p].(entry := entry)])
  {
    var slots' := slots[p := slots[p].(entry := entry)];
    ContiguousUpdate(slots, |env|, p, entry);
    forall i | 0 <= i < |slots'|
      ensures SlotAt(Poke(env, at, b).value, slots'[i])
    {
      if i != p {
        assert SlotAt(env, slots[i]) && SlotAt(env, slots[p]);
        SlotUntouched(env, slots[i], at, b);
      }
    }
  }

  lemma SlotUntouched(env: seq<byte>, t: Slot, at: nat, b: seq<byte>)
    requires SlotAt(env, t) && at + |b| <= |env| && (t.off + t.len <= at || at + |b| <= t.off)
    ensures SlotAt(Poke(env, at, b).value, t)
  {
    PokeFrame(env, at, b, t.off, t.off + t.len);
  }

  lemma PokeFrame(env: seq<byte>, at: nat, b: seq<byte>, lo: nat, hi: nat)
    requires at + |b| <= |env| && lo <= hi <= |env| && (hi <= at || at + |b| <= lo)
    ensures Poke(env, at, b).value[lo..hi] == env[lo..hi]
  {
  }

  /** Inside an entry, poking the arena is poking the entry's own bytes. */
  lemma PokeInside(env: seq<byte>, at: nat, b: seq<byte>, lo: nat, hi: nat)
    requires lo <= at && at + |b| <= hi <= |env|
    ensures Poke(env, at, b).Some? && |Poke(env, at, b).value| == |env|
    ensures Poke(env, at, b).value[lo..hi] == env[lo..hi][..at - lo] + b + env[lo..hi][at - lo + |b|..]
  {
  }

  lemma EmptyBytes(c: seq<byte>, entry: Entry)
    requires Holds(c, entry)
    ensures Holds(c[..8] + EMPTY + c[10..], Free)
  {
    assert (c[..8] + EMPTY + c[10..])[..8] == c[..8];
  }

  lemma OverwriteBytes(c: seq<byte>, k: Str, w: Str, v: Str)
    requires Holds(c, Live(k, w)) && EntryLen(k, v) <= |c|
    ensures Holds(c[..9 + |k|] + (v + [ENTRY_TERM]) + c[10 + |k| + |v|..], Live(k, v))
  {
    var c' := c[..9 + |k|] + (v + [ENTRY_TERM]) + c[10 + |k| + |v|..];
    assert c'[..8] == c[..8];
    assert c'[8..8 + |k|] == c[8..8 + |k|];
    assert c'[9 + |k|..9 + |k| + |v|] == v;
  }

  lemma FreshBytes(k: Str, v: Str)
    requires EntryLen(k, v) < CAPACITY
    ensures Holds(EntryBytes(k, v), Live(k, v))
  {
    var c := EntryBytes(k, v);
    PrefixRoundTrip(EntryLen(k, v));
    assert c[..8] == LittleEndian(EntryLen(k, v), PREFIX);
    assert c[8..8 + |k|] == k;
    assert c[9 + |k|..9 + |k| + |v|] == v;
  }

  /** Writing `0xFE 0xFF` behind the prefix empties an entry. */
  lemma EmptySlot(env: seq<byte>, slots: seq<Slot>, p: nat)
    requires Layout(env, slots) && p < |slots|
    ensures Poke(env, slots[p].off + 8, EMPTY).Some?
    ensures Layout(Poke(env, slots[p].off + 8, EMPTY).value, slots[p := slots[p].(entry := Free)])
  {
    var t := slots[p];
    assert SlotAt(env, t);
    var c := env[t.off..t.off + t.len];
    EmptyBytes(c, t.entry);
    PokeInside(env, t.off + 8, EMPTY, t.off, t.off + t.len);
    LayoutUpdate(env, slots, p, t.off + 8, EMPTY, Free);
  }

  /** Overwriting the value of a live entry with one that fits. */
  lemma OverwriteSlot(env: seq<byte>, slots: seq<Slot>, p: nat, v: Str)
    requires Layout(env, slots) && p < |slots| && slots[p].entry.Live?
    requires EntryLen(slots[p].entry.key, v) <= slots[p].len
    ensures var k := slots[p].entry.key; var put := Poke(env, slots[p].off + 9 + |k|, v + [ENTRY_TERM]);
            put.Some? && Layout(put.value, slots[p := slots[p].(entry := Live(k, v))])
  {
    var t := slots[p];
    var k := t.entry.key;
    assert SlotAt(env, t);
    OverwriteHolds(env, t, v);
    assert t.off + 9 + |k| + |v + [ENTRY_TERM]| <= t.off + t.len;
    LayoutUpdate(env, slots, p, t.off + 9 + |k|, v + [ENTRY_TERM], Live(k, v));
  }

  lemma OverwriteHolds(env: seq<byte>, t: Slot, v: Str)
    requires SlotAt(env, t) && t.entry.Live? && EntryLen(t.entry.key, v) <= t.len
    ensures var k := t.entry.key; var put := Poke(env, t.off + 9 + |k|, v + [ENTRY_TERM]);
            put.Some? && SlotAt(put.value, t.(entry := Live(k, v)))
  {
    var k := t.entry.key;
    OverwriteBytes(env[t.off..t.off + t.len], k, t.entry.val, v);
    PokeInside(env, t.off + 9 + |k|, v + [ENTRY_TERM], t.off, t.off + t.len);
  }

  function NewSlot(env: seq<byte>, k: Str, v: Str): Slot { Slot(|env|, EntryLen(k, v), Live(k, v)) }

  lemma SlotExtends(env: seq<byte>, t: Slot, more: seq<byte>)
    requires SlotAt(env, t)
    ensures SlotAt(env + more, t)
  {
    assert (env + more)[t.off..t.off + t.len] == env[t.off..t.off + t.len];
  }

  lemma NewSlotHolds(env: seq<byte>, k: Str, v: Str)
    requires EntryLen(k, v) < CAPACITY
    ensures SlotAt(env + EntryBytes(k, v), NewSlot(env, k, v))
  {
    FreshBytes(k, v);
    assert (env + EntryBytes(k, v))[|env|..|env| + EntryLen(k, v)] == EntryBytes(k, v);
  }

  /** Adding a new entry at the end. */
  lemma LayoutAppend(env: seq<byte>, slots: seq<Slot>, k: Str, v: Str)
    requires Layout(env, slots) && |env| + EntryLen(k, v) < CAPACITY
    ensures Layout(env + EntryBytes(k, v), slots + [NewSlot(env, k, v)])
  {
    var slots' := slots + [NewSlot(env, k, v)];
    NewSlotHolds(env, k, v);
    forall i | 0 <= i < |slots|
      ensures SlotAt(env + EntryBytes(k, v), slots[i]) && slots[i].off + slots[i].len <= |env|
    {
      SlotExtends(env, slots[i], EntryBytes(k, v));
    }
    assert slots'[..|slots'| - 1] == slots;
  }

  /** The length prefix of an entry is its length. */
  lemma PrefixIsLength(env: seq<byte>, slots: seq<Slot>, p: nat)
    requires Layout(env, slots) && p < |slots|
    ensures LenAt(env, slots[p].off) == Some(slots[p].len) && slots[p].len >= 10
  {
    var t := slots[p];
    assert SlotAt(env, t);
    assert env[t.off..t.off + t.len][..8] == env[t.off..t.off + 8];
  }

  /** Entries are at distinct offsets. */
  lemma OffsetsDistinct(env: seq<byte>, slots: seq<Slot>, i: nat, j: nat)
    requires Layout(env, slots) && i < |slots| && j < |slots| && slots[i].off == slots[j].off
    ensures i == j
  {
    assert SlotAt(env, slots[i]) && SlotAt(env, slots[j]);
  }

  // ---------------------------------------------------------------- refinement

  /** The entry a name is indexed to. */
  lemma SlotOf(e: Env, slots: seq<Slot>, m: map<Str, Str>, k: Str) returns (p: nat)
    requires Rep(e, slots, m) && k in e.index
    ensures p < |slots| && slots[p].entry == Live(k, m[k]) && slots[p].off == e.index[k]
    ensures OnlyEntry(slots, p)
  {
    assert HasKey(slots, k);
    p :| 0 <= p < |slots| && slots[p].entry.Live? && slots[p].entry.key == k;
    forall i | 0 <= i < |slots| && slots[i].entry.Live? && slots[i].entry.key == k
      ensures i == p
    {
      OffsetsDistinct(e.env, slots, i, p);
    }
  }

  lemma FreeSlotOf(e: Env, slots: seq<Slot>, m: map<Str, Str>, j: nat) returns (p: nat)
    requires Rep(e, slots, m) && j < |e.free|
    ensures p < |slots| && slots[p].entry.Free? && slots[p].off == e.free[j]
  {
    assert FreeAt(slots, e.free[j]);
    p :| 0 <= p < |slots| && slots[p].entry.Free? && slots[p].off == e.free[j];
  }

  /** Emptied entries stay where they are, so the freelist stays right. */
  lemma StillListed(free: seq<nat>, slots: seq<Slot>, slots': seq<Slot>)
    requires Listed(free, slots) && |slots| <= |slots'|
    requires forall i :: 0 <= i < |slots| && slots[i].entry.Free? ==> slots'[i] == slots[i]
    ensures Listed(free, slots')
  {
    forall j | 0 <= j < |free|
      ensures FreeAt(slots', free[j])
    {
      assert FreeAt(slots, free[j]);
      var i :| 0 <= i < |slots| && slots[i].entry.Free? && slots[i].off == free[j];
      assert slots'[i].entry.Free?;
    }
  }

  /** `p` is the only entry for its name. */
  ghost predicate OnlyEntry(slots: seq<Slot>, p: nat) {
    p < |slots| && slots[p].entry.Live? &&
    forall i :: 0 <= i < |slots| && slots[i].entry.Live? && slots[i].entry.key == slots[p].entry.key ==> i == p
  }

  /** Names other than that of entry `p` keep their entries. */
  lemma StillKeyed(slots: seq<Slot>, slots': seq<Slot>, p: nat, x: Str)
    requires HasKey(slots, x) && |slots| <= |slots'|
    requires p < |slots| ==> slots[p].entry.Live? && slots[p].entry.key != x
    requires forall i :: 0 <= i < |slots| && i != p ==> slots'[i] == slots[i]
    ensures HasKey(slots', x)
  {
    var i :| 0 <= i < |slots| && slots[i].entry.Live? && slots[i].entry.key == x;
    assert slots'[i] == slots[i];
  }

  lemma IndexedOverwrite(index: map<Str, nat>, slots: seq<Slot>, m: map<Str, Str>, p: nat, v: Str)
    requires Indexed(index, slots, m) && OnlyEntry(slots, p)
    ensures var k := slots[p].entry.key;
            Indexed(index, slots[p := slots[p].(entry := Live(k, v))], m[k := v])
  {
    var k := slots[p].entry.key;
    var slots' := slots[p := slots[p].(entry := Live(k, v))];
    forall x | x in index
      ensures HasKey(slots', x)
    {
      if x == k { assert slots'[p].entry.key == k; } else { StillKeyed(slots, slots', p, x); }
    }
  }

  lemma IndexedRemove(index: map<Str, nat>, slots: seq<Slot>, m: map<Str, Str>, p: nat)
    requires Indexed(index, slots, m) && OnlyEntry(slots, p)
    ensures var k := slots[p].entry.key;
            Indexed(index - {k}, slots[p := slots[p].(entry := Free)], m - {k})
  {
    var k := slots[p].entry.key;
    var slots' := slots[p := slots[p].(entry := Free)];
    forall x | x in index - {k}
      ensures HasKey(slots', x)
    {
      StillKeyed(slots, slots', p, x);
    }
  }

  lemma IndexedAppend(index: map<Str, nat>, slots: seq<Slot>, m: map<Str, Str>, t: Slot)
    requires Indexed(index, slots, m) && t.entry.Live? && t.entry.key !in index
    ensures Indexed(index[t.entry.key := t.off], slots + [t], m[t.entry.key := t.entry.val])
  {
    var k := t.entry.key;
    var slots' := slots + [t];
    assert slots'[|slots|] == t;
    forall x | x in index[k := t.off]
      ensures HasKey(slots', x)
    {
      if x != k { StillKeyed(slots, slots', |slots|, x); }
    }
  }

  lemma IndexedRelocate(index: map<Str, nat>, slots: seq<Slot>, m: map<Str, Str>, p: nat, t: Slot)
    requires Indexed(index, slots, m) && OnlyEntry(slots, p)
    requires t.entry.Live? && t.entry.key == slots[p].entry.key
    ensures Indexed(index[t.entry.key := t.off], (slots + [t])[p := slots[p].(entry := Free)],
                    m[t.entry.key := t.entry.val])
  {
    var k := t.entry.key;
    IndexedRemove(index, slots, m, p);
    var less := slots[p := slots[p].(entry := Free)];
    IndexedAppend(index - {k}, less, m - {k}, t);
    assert less + [t] == (slots + [t])[p := slots[p].(entry := Free)];
    assert (index - {k})[k := t.off] == index[k := t.off];
    assert (m - {k})[k := t.entry.val] == m[k := t.entry.val];
  }

  /** Entries stay where they are and as long as they are; new ones come behind. */
  ghost predicate Grown(slots: seq<Slot>, slots': seq<Slot>) {
    |slots| <= |slots'| &&
    forall p :: 0 <= p < |slots| ==> slots'[p].off == slots[p].off && slots'[p].len == slots[p].len
  }

  lemma InPlaceLayout(e: Env, slots: seq<Slot>, m: map<Str, Str>, k: Str, v: Str, p: nat)
    requires Rep(e, slots, m) && FitsInPlace(e, k, v)
    requires p < |slots| && slots[p].entry == Live(k, m[k]) && slots[p].off == e.index[k]
    ensures var put := Poke(e.env, e.index[k] + 9 + |k|, v + [ENTRY_TERM]);
            put.Some? && Layout(put.value, slots[p := slots[p].(entry := Live(k, v))])
  {
    PrefixIsLength(e.env, slots, p);
    OverwriteSlot(e.env, slots, p, v);
  }

  lemma SetVarOverwrites(e: Env, k: Str, v: Str)
    requires FitsInPlace(e, k, v) && Poke(e.env, e.index[k] + 9 + |k|, v + [ENTRY_TERM]).Some?
    ensures AfterSet(e, k, v) == Done(e.(env := Poke(e.env, e.index[k] + 9 + |k|, v + [ENTRY_TERM]).value))
  {
  }

  lemma InPlaceRep(e: Env, slots: seq<Slot>, m: map<Str, Str>, k: Str, v: Str, p: nat, env': seq<byte>)
    requires Rep(e, slots, m) && k in e.index && OnlyEntry(slots, p) && slots[p].entry.key == k
    requires Layout(env', slots[p := slots[p].(entry := Live(k, v))])
    ensures Rep(e.(env := env'), slots[p := slots[p].(entry := Live(k, v))], m[k := v])
  {
    StillListed(e.free, slots, slots[p := slots[p].(entry := Live(k, v))]);
    IndexedOverwrite(e.index, slots, m, p, v);
  }

  lemma InPlaceRefines(e: Env, slots: seq<Slot>, m: map<Str, Str>, k: Str, v: Str) returns (slots': seq<Slot>)
    requires Rep(e, slots, m) && FitsInPlace(e, k, v)
    ensures AfterSet(e, k, v).Done? && Rep(AfterSet(e, k, v).e, slots', m[k := v])
    ensures Grown(slots, slots')
  {
    var p := SlotOf(e, slots, m, k);
    InPlaceLayout(e, slots, m, k, v, p);
    slots' := slots[p := slots[p].(entry := Live(k, v))];
    SetVarOverwrites(e, k, v);
    InPlaceRep(e, slots, m, k, v, p, Poke(e.env, e.index[k] + 9 + |k|, v + [ENTRY_TERM]).value);
  }

  lemma AppendNewRefines(e: Env, slots: seq<Slot>, m: map<Str, Str>, k: Str, v: Str) returns (slots': seq<Slot>)
    requires Rep(e, slots, m) && k !in e.index && |e.env| + EntryLen(k, v) < CAPACITY
    ensures Append(e, k, v).Done? && Rep(Append(e, k, v).e, slots', m[k := v])
    ensures Grown(slots, slots')
  {
    LayoutAppend(e.env, slots, k, v);
    slots' := slots + [NewSlot(e.env, k, v)];
    StillListed(e.free, slots, slots');
    IndexedAppend(e.index, slots, m, NewSlot(e.env, k, v));
  }

  lemma AppendOldRefines(e: Env, slots: seq<Slot>, m: map<Str, Str>, k: Str, v: Str) returns (slots': seq<Slot>)
    requires Rep(e, slots, m) && k in e.index && |e.env| + EntryLen(k, v) < CAPACITY
    ensures Append(e, k, v).Done? && Rep(Append(e, k, v).e, slots', m[k := v])
    ensures Grown(slots, slots')
  {
    var p := SlotOf(e, slots, m, k);
    LayoutAppend(e.env, slots, k, v);
    var grown := slots + [NewSlot(e.env, k, v)];
    EmptySlot(e.env + EntryBytes(k, v), grown, p);
    slots' := grown[p := slots[p].(entry := Free)];
    RelocatedListed(e, slots, m, k, p, slots');
    IndexedRelocate(e.index, slots, m, p, NewSlot(e.env, k, v));
  }

  /** The relocated entry joins the freelist. */
  lemma RelocatedListed(e: Env, slots: seq<Slot>, m: map<Str, Str>, k: Str, p: nat, slots': seq<Slot>)
    requires Rep(e, slots, m) && p < |slots| && slots[p].entry.Live? && |slots| <= |slots'|
    requires slots'[p] == slots[p].(entry := Free)
    requires forall i :: 0 <= i < |slots| && i != p ==> slots'[i] == slots[i]
    ensures Listed(e.free + [slots[p].off], slots')
  {
    StillListed(e.free, slots, slots');
    forall j | 0 <= j < |e.free|
      ensures e.free[j] != slots[p].off
    {
      var i := FreeSlotOf(e, slots, m, j);
      if slots[i].off == slots[p].off { OffsetsDistinct(e.env, slots, i, p); }
    }
    assert FreeAt(slots', slots[p].off);
  }

  lemma FreeHasLength(e: Env, slots: seq<Slot>, m: map<Str, Str>, i: nat)
    requires Rep(e, slots, m) && i < |e.free|
    ensures LenAt(e.env, e.free[i]).Some?
  {
    var p := FreeSlotOf(e, slots, m, i);
    PrefixIsLength(e.env, slots, p);
  }

  /** The freelist of a represented arena is never malformed. */
  lemma {:induction false} ScanWellFormed(e: Env, slots: seq<Slot>, m: map<Str, Str>, elen: nat, i: nat)
    requires Rep(e, slots, m) && i <= |e.free|
    ensures !ScanFree(e.env, e.free, elen, i).Malformed?
    decreases |e.free| - i
  {
    if i < |e.free| {
      FreeHasLength(e, slots, m, i);
      ScanWellFormed(e, slots, m, elen, i + 1);
    }
  }

  /** `set_var` refines the map update whenever the reuse branch does not fire. */
  lemma SetVarRefines(e: Env, slots: seq<Slot>, m: map<Str, Str>, k: Str, v: Str) returns (slots': seq<Slot>)
    requires Rep(e, slots, m) && |e.env| + EntryLen(k, v) < CAPACITY
    requires !ReuseFires(e, k, v)
    ensures AfterSet(e, k, v).Done? && Rep(AfterSet(e, k, v).e, slots', m[k := v])
    ensures Grown(slots, slots')
  {
    if FitsInPlace(e, k, v) {
      slots' := InPlaceRefines(e, slots, m, k, v);
    } else {
      ScanWellFormed(e, slots, m, EntryLen(k, v), 0);
      if k in e.index {
        var p := SlotOf(e, slots, m, k);
        PrefixIsLength(e.env, slots, p);
        slots' := AppendOldRefines(e, slots, m, k, v);
      } else {
        slots' := AppendNewRefines(e, slots, m, k, v);
      }
    }
  }

  /** `remove_var` refines the map removal. */
  lemma RemoveVarRefines(e: Env, slots: seq<Slot>, m: map<Str, Str>, k: Str) returns (slots': seq<Slot>)
    requires Rep(e, slots, m)
    ensures AfterRemove(e, k).Done? && Rep(AfterRemove(e, k).e, slots', m - {k})
    ensures Grown(slots, slots')
  {
    if k in e.index {
      var p := SlotOf(e, slots, m, k);
      EmptySlot(e.env, slots, p);
      slots' := slots[p := slots[p].(entry := Free)];
      StillListed(e.free, slots, slots');
      IndexedRemove(e.index, slots, m, p);
    } else {
      slots' := slots;
      assert m - {k} == m;
    }
  }

  lemma PokeElsewhere(env: seq<byte>, at: nat, b: seq<byte>, x: nat)
    requires at + |b| <= |env| && x < |env| && !(at <= x < at + |b|)
    ensures Poke(env, at, b).value[x] == env[x]
  {
  }

  lemma EmptiedByte(env: seq<byte>, slots: seq<Slot>, f: nat)
    requires Layout(env, slots) && f < |slots| && slots[f].entry.Free?
    ensures slots[f].off + 10 <= |env| && env[slots[f].off + 8] == KEY_TERM
  {
    var t := slots[f];
    assert SlotAt(env, t);
    assert env[t.off..t.off + t.len][8] == env[t.off + 8];
  }

  /** Emptying the old entry of `k` leaves an emptied entry emptied. */
  lemma EmptyingKeepsEmptied(e: Env, slots: seq<Slot>, m: map<Str, Str>, k: Str, f: nat)
    requires Rep(e, slots, m) && f < |slots| && slots[f].entry.Free? && k in e.index
    ensures var emptied := Poke(e.env, e.index[k] + 8, EMPTY);
            && emptied.Some? && |emptied.value| == |e.env| && slots[f].off + 10 <= |e.env|
            && emptied.value[slots[f].off + 8] == KEY_TERM
  {
    var p := SlotOf(e, slots, m, k);
    EmptySlot(e.env, slots, p);
    var slots' := slots[p := slots[p].(entry := Free)];
    assert slots'[f] == slots[f];
    EmptiedByte(Poke(e.env, slots[p].off + 8, EMPTY).value, slots', f);
  }

  /** The arena after the old entry of `k`, if any, has been emptied. */
  function Emptied(e: Env, k: Str): Option<seq<byte>> {
    if k in e.index then Poke(e.env, e.index[k] + 8, EMPTY) else Some(e.env)
  }

  lemma ReuseShape(e: Env, k: Str, v: Str, i: nat)
    requires i < |e.free| && Reuse(e, k, v, i).Done?
    ensures var e' := Reuse(e, k, v, i).e; var stored := k + [KEY_TERM] + v + [ENTRY_TERM];
            && Emptied(e, k).Some? && k in e'.index && e'.index[k] == e.free[i]
            && 8 + |stored| <= e.free[i] && 8 + |stored| <= |Emptied(e, k).value|
            && e'.env == Poke(Emptied(e, k).value, 8, stored).value
  {
  }

  /** The reuse branch exchanges the free entry for the old one of the name, or takes it off the list. */
  lemma ReuseMovesEntry(e: Env, k: Str, v: Str, i: nat)
    requires i < |e.free| && Reuse(e, k, v, i).Done?
    ensures var e' := Reuse(e, k, v, i).e;
            && e'.index == e.index[k := e.free[i]] && |e'.env| == |e.env|
            && multiset(e'.free) == multiset(e.free) - multiset{e.free[i]}
                                    + (if k in e.index then multiset{e.index[k]} else multiset{})
  {
    ReuseShape(e, k, v, i);
    if k in e.index { ReplaceTakes(e.free, i, e.index[k]); } else { SwapRemoveTakes(e.free, i); }
  }

  lemma ReplaceTakes(s: seq<nat>, i: nat, x: nat)
    requires i < |s|
    ensures multiset(s[i := x]) == multiset(s) - multiset{s[i]} + multiset{x}
  {
    assert s == s[..i] + [s[i]] + s[i + 1..];
    assert s[i := x] == s[..i] + [x] + s[i + 1..];
  }

  lemma SwapRemoveTakes(s: seq<nat>, i: nat)
    requires i < |s|
    ensures multiset(SwapRemove(s, i)) == multiset(s) - multiset{s[i]}
  {
    var n := |s| - 1;
    assert s == s[..n] + [s[n]];
    if i == n {
      assert SwapRemove(s, i) == s[..n];
    } else {
      assert SwapRemove(s, i) == s[..i] + [s[n]] + s[i + 1..n];
      assert s[..n] == s[..i] + [s[i]] + s[i + 1..n];
    }
  }

  /** When the reuse branch fires, the chosen free entry is left as it was: still emptied. */
  lemma ReuseLeavesEmptied(e: Env, slots: seq<Slot>, m: map<Str, Str>, k: Str, v: Str, i: nat)
    requires Rep(e, slots, m) && i < |e.free| && Reuse(e, k, v, i).Done?
    ensures var e' := Reuse(e, k, v, i).e;
            k in e'.index && e'.index[k] + 8 < |e'.env| && e'.env[e'.index[k] + 8] == KEY_TERM
  {
    ReuseShape(e, k, v, i);
    var f := FreeSlotOf(e, slots, m, i);
    EmptiedByte(e.env, slots, f);
    if k in e.index { EmptyingKeepsEmptied(e, slots, m, k, f); }
    PokeElsewhere(Emptied(e, k).value, 8, k + [KEY_TERM] + v + [ENTRY_TERM], e.free[i] + 8);
  }

  lemma SetVarReuses(e: Env, k: Str, v: Str)
    requires ReuseFires(e, k, v) && (k in e.index ==> LenAt(e.env, e.index[k]).Some?)
    ensures AfterSet(e, k, v) == Reuse(e, k, v, ScanFree(e.env, e.free, EntryLen(k, v), 0).i)
  {
  }

  lemma SetVarIsReuse(e: Env, slots: seq<Slot>, m: map<Str, Str>, k: Str, v: Str)
    requires Rep(e, slots, m) && ReuseFires(e, k, v)
    ensures AfterSet(e, k, v) == Reuse(e, k, v, ScanFree(e.env, e.free, EntryLen(k, v), 0).i)
  {
    if k in e.index {
      var p := SlotOf(e, slots, m, k);
      PrefixIsLength(e.env, slots, p);
    }
    SetVarReuses(e, k, v);
  }

  /** A name whose indexed bytes start with 0xFE is not represented. */
  lemma EmptiedIsNotLive(e: Env, slots: seq<Slot>, m: map<Str, Str>, k: Str)
    requires Rep(e, slots, m) && k in e.index && k != [] && e.index[k] + 8 < |e.env|
    ensures e.env[e.index[k] + 8] != KEY_TERM
  {
    var q := SlotOf(e, slots, m, k);
    LiveByte(e.env, slots, q);
  }

  /** When the reuse branch fires, `set_var` panics or leaves an arena that represents no map at all. */
  lemma ReuseBreaks(e: Env, slots: seq<Slot>, m: map<Str, Str>, k: Str, v: Str, m': map<Str, Str>)
    requires Rep(e, slots, m) && ReuseFires(e, k, v) && k != []
    ensures AfterSet(e, k, v).Done? ==> !Represents(AfterSet(e, k, v).e, m')
  {
    var i := ScanFree(e.env, e.free, EntryLen(k, v), 0).i;
    SetVarIsReuse(e, slots, m, k, v);
    if Reuse(e, k, v, i).Done? {
      ReuseLeavesEmptied(e, slots, m, k, v, i);
      EmptiedRepresentsNothing(Reuse(e, k, v, i).e, m', k);
    }
  }

  lemma EmptiedRepresentsNothing(e: Env, m: map<Str, Str>, k: Str)
    requires k in e.index && k != [] && e.index[k] + 8 < |e.env| && e.env[e.index[k] + 8] == KEY_TERM
    ensures !Represents(e, m)
  {
    if Represents(e, m) {
      var slots :| Rep(e, slots, m);
      EmptiedIsNotLive(e, slots, m, k);
    }
  }

  lemma LiveByte(env: seq<byte>, slots: seq<Slot>, q: nat)
    requires Layout(env, slots) && q < |slots| && slots[q].entry.Live? && slots[q].entry.key != []
    ensures slots[q].off + 10 <= |env| && env[slots[q].off + 8] == slots[q].entry.key[0]
  {
    var t := slots[q];
    assert SlotAt(env, t);
    var c := env[t.off..t.off + t.len];
    assert c[8] == env[t.off + 8];
    assert c[8..8 + |t.entry.key|][0] == c[8];
  }

  /**
    The exact condition: on an arena that represents `m`, `set_var` of a non-empty name leaves one
    that represents `m[k := v]` iff the reuse branch does not fire.
    */
  lemma SetVarCorrectIff(e: Env, slots: seq<Slot>, m: map<Str, Str>, k: Str, v: Str)
    requires Rep(e, slots, m) && k != [] && |e.env| + EntryLen(k, v) < CAPACITY
    ensures AfterSet(e, k, v).Done? && Represents(AfterSet(e, k, v).e, m[k := v]) <==> !ReuseFires(e, k, v)
  {
    if ReuseFires(e, k, v) {
      ReuseBreaks(e, slots, m, k, v, m[k := v]);
    } else {
      var slots' := SetVarRefines(e, slots, m, k, v);
    }
  }

  // ---------------------------------------------------------------- whole runs

  datatype Op = Set(k: Str, v: Str) | Remove(k: Str)

  function Step(e: Env, op: Op): Outcome {
    match op
    case Set(k, v) => AfterSet(e, k, v)
    case Remove(k) => AfterRemove(e, k)
  }

  function MapStep(m: map<Str, Str>, op: Op): map<Str, Str> {
    match op
    case Set(k, v) => m[k := v]
    case Remove(k) => m - {k}
  }

  /** After every operation of the run the arena represents the map a plain map would hold. */
  ghost predicate Faithful(e: Env, m: map<Str, Str>, ops: seq<Op>)
    decreases |ops|
  {
    ops == [] ||
    match Step(e, ops[0])
    case Panicked => false
    case Done(e') => Represents(e', MapStep(m, ops[0])) && Faithful(e', MapStep(m, ops[0]), ops[1..])
  }

  /** No `set_var` of the run reaches the reuse branch. */
  ghost predicate NeverReuses(e: Env, ops: seq<Op>)
    decreases |ops|
  {
    ops == [] ||
    (!(ops[0].Set? && ReuseFires(e, ops[0].k, ops[0].v)) &&
     (Step(e, ops[0]).Done? ==> NeverReuses(Step(e, ops[0]).e, ops[1..])))
  }

  /** The most the run can add to the arena. */
  function Appended(ops: seq<Op>): nat {
    if ops == [] then 0
    else (if ops[0].Set? then EntryLen(ops[0].k, ops[0].v) else 0) + Appended(ops[1..])
  }

  lemma StepGrowth(e: Env, slots: seq<Slot>, m: map<Str, Str>, op: Op)
    requires Rep(e, slots, m) && Step(e, op).Done?
    ensures |Step(e, op).e.env| <= |e.env| + (if op.Set? then EntryLen(op.k, op.v) else 0)
  {
  }

  /** Over a whole run of `set_var` and `remove_var`, the arena refines a plain map iff reuse never fires. */
  lemma {:induction false} RunFaithfulIff(e: Env, m: map<Str, Str>, ops: seq<Op>)
    requires Represents(e, m) && |e.env| + Appended(ops) < CAPACITY
    requires forall i :: 0 <= i < |ops| && ops[i].Set? ==> ops[i].k != []
    ensures Faithful(e, m, ops) <==> NeverReuses(e, ops)
    decreases |ops|
  {
    if ops != [] {
      var op := ops[0];
      var slots :| Rep(e, slots, m);
      if op.Set? && ReuseFires(e, op.k, op.v) {
        SetVarCorrectIff(e, slots, m, op.k, op.v);
      } else {
        var slots';
        if op.Set? {
          slots' := SetVarRefines(e, slots, m, op.k, op.v);
        } else {
          slots' := RemoveVarRefines(e, slots, m, op.k);
        }
        assert Rep(Step(e, op).e, slots', MapStep(m, op));
        StepGrowth(e, slots, m, op);
        RunFaithfulIff(Step(e, op).e, MapStep(m, op), ops[1..]);
      }
    }
  }

  // ---------------------------------------------------------------- runs, by the lengths of their entries

  /** The lengths of the entries of present names, and of the entries on the freelist. */
  datatype Sizes = Sizes(caps: map<Str, nat>, frees: seq<nat>)

  function SizesStep(z: Sizes, op: Op): Sizes {
    match op
    case Remove(k) => Sizes(z.caps - {k}, z.frees)
    case Set(k, v) =>
      if k !in z.caps then z.(caps := z.caps[k := EntryLen(k, v)])
      else if EntryLen(k, v) <= z.caps[k] then z
      else Sizes(z.caps[k := EntryLen(k, v)], z.frees + [z.caps[k]])
  }

  /** A `set_var` that outgrows its entry, or has none, finds a free one no longer than it needs. */
  ghost predicate Takes(z: Sizes, op: Op) {
    && op.Set? && (op.k in z.caps ==> EntryLen(op.k, op.v) > z.caps[op.k])
    && exists j :: 0 <= j < |z.frees| && z.frees[j] <= EntryLen(op.k, op.v)
  }

  /** No operation of the run takes a free entry: a condition on lengths alone. */
  ghost predicate Quiet(z: Sizes, ops: seq<Op>)
    decreases |ops|
  {
    ops == [] || (!Takes(z, ops[0]) && Quiet(SizesStep(z, ops[0]), ops[1..]))
  }

  /** The arena's length prefixes are those of `z`. */
  ghost predicate Sized(e: Env, z: Sizes) {
    && z.caps.Keys == e.index.Keys
    && (forall k :: k in z.caps ==> LenAt(e.env, e.index[k]) == Some(z.caps[k]))
    && |z.frees| == |e.free|
    && (forall j :: 0 <= j < |e.free| ==> LenAt(e.env, e.free[j]) == Some(z.frees[j]))
  }

  lemma FiresIffTakes(e: Env, slots: seq<Slot>, m: map<Str, Str>, z: Sizes, k: Str, v: Str)
    requires Rep(e, slots, m) && Sized(e, z)
    ensures ReuseFires(e, k, v) <==> Takes(z, Set(k, v))
  {
    ScanWellFormed(e, slots, m, EntryLen(k, v), 0);
    var scan := ScanFree(e.env, e.free, EntryLen(k, v), 0);
    if scan.Found? {
      assert z.frees[scan.i] <= EntryLen(k, v);
    } else {
      forall j | 0 <= j < |z.frees|
        ensures z.frees[j] > EntryLen(k, v)
      {
        assert LenAt(e.env, e.free[j]).value > EntryLen(k, v);
      }
    }
  }

  /** Entries keep their length prefixes. */
  lemma LenKept(env: seq<byte>, slots: seq<Slot>, env': seq<byte>, slots': seq<Slot>, p: nat)
    requires Layout(env, slots) && Layout(env', slots') && Grown(slots, slots') && p < |slots|
    ensures LenAt(env', slots[p].off) == LenAt(env, slots[p].off)
  {
    PrefixIsLength(env, slots, p);
    PrefixIsLength(env', slots', p);
  }

  lemma IndexedLenKept(e: Env, slots: seq<Slot>, m: map<Str, Str>, env': seq<byte>, slots': seq<Slot>, k: Str)
    requires Rep(e, slots, m) && Layout(env', slots') && Grown(slots, slots') && k in e.index
    ensures LenAt(env', e.index[k]) == LenAt(e.env, e.index[k])
  {
    var p := SlotOf(e, slots, m, k);
    LenKept(e.env, slots, env', slots', p);
  }

  lemma ListedLenKept(e: Env, slots: seq<Slot>, m: map<Str, Str>, env': seq<byte>, slots': seq<Slot>, j: nat)
    requires Rep(e, slots, m) && Layout(env', slots') && Grown(slots, slots') && j < |e.free|
    ensures LenAt(env', e.free[j]) == LenAt(e.env, e.free[j])
  {
    var p := FreeSlotOf(e, slots, m, j);
    LenKept(e.env, slots, env', slots', p);
  }

  /** All prefixes of indexed and of listed entries stay. */
  lemma SizedKept(e: Env, slots: seq<Slot>, m: map<Str, Str>, z: Sizes, env': seq<byte>, slots': seq<Slot>)
    requires Rep(e, slots, m) && Sized(e, z) && Layout(env', slots') && Grown(slots, slots')
    ensures Sized(e.(env := env'), z)
  {
    forall k | k in z.caps
      ensures LenAt(env', e.index[k]) == Some(z.caps[k])
    {
      IndexedLenKept(e, slots, m, env', slots', k);
    }
    forall j | 0 <= j < |e.free|
      ensures LenAt(env', e.free[j]) == Some(z.frees[j])
    {
      ListedLenKept(e, slots, m, env', slots', j);
    }
  }

  lemma SizedRemove(e: Env, slots: seq<Slot>, m: map<Str, Str>, z: Sizes, k: Str, slots': seq<Slot>)
    requires Rep(e, slots, m) && Sized(e, z) && AfterRemove(e, k).Done?
    requires Layout(AfterRemove(e, k).e.env, slots') && Grown(slots, slots')
    ensures Sized(AfterRemove(e, k).e, SizesStep(z, Remove(k)))
  {
    SizedKept(e, slots, m, z, AfterRemove(e, k).e.env, slots');
  }

  /** What `set_var` does to the index and the freelist when it does not reuse. */
  lemma SetShape(e: Env, slots: seq<Slot>, m: map<Str, Str>, k: Str, v: Str)
    requires Rep(e, slots, m) && !ReuseFires(e, k, v) && AfterSet(e, k, v).Done?
    ensures var e' := AfterSet(e, k, v).e;
            if FitsInPlace(e, k, v) then e'.index == e.index && e'.free == e.free
            else
              && e'.index == e.index[k := |e.env|]
              && e'.free == (if k in e.index then e.free + [e.index[k]] else e.free)
              && AppendedEnv(e, k, v) == Some(e'.env)
  {
    ScanWellFormed(e, slots, m, EntryLen(k, v), 0);
  }

  /** The arena with a new entry at its end and the old one emptied. */
  function AppendedEnv(e: Env, k: Str, v: Str): Option<seq<byte>> {
    var grown := e.env + EntryBytes(k, v);
    if k in e.index then Poke(grown, e.index[k] + 8, EMPTY) else Some(grown)
  }

  /** The new entry of an appended name, and its length. */
  lemma NewPrefix(e: Env, slots: seq<Slot>, m: map<Str, Str>, k: Str, v: Str, slots': seq<Slot>)
    requires Rep(e, slots, m) && !ReuseFires(e, k, v) && !FitsInPlace(e, k, v) && AfterSet(e, k, v).Done?
    requires Layout(AfterSet(e, k, v).e.env, slots')
    ensures LenAt(AfterSet(e, k, v).e.env, |e.env|) == Some(EntryLen(k, v))
  {
    SetShape(e, slots, m, k, v);
    LengthFits(e, slots, m, k, v);
    GrownPrefix(e.env, k, v);
    if k in e.index {
      var p := SlotOf(e, slots, m, k);
      PrefixIsLength(e.env, slots, p);
      assert SlotAt(e.env, slots[p]);
      PokedPrefix(e.env + EntryBytes(k, v), e.index[k] + 8, |e.env|);
    }
  }

  lemma GrownPrefix(env: seq<byte>, k: Str, v: Str)
    requires EntryLen(k, v) < CAPACITY
    ensures LenAt(env + EntryBytes(k, v), |env|) == Some(EntryLen(k, v))
  {
    PrefixRoundTrip(EntryLen(k, v));
    assert (env + EntryBytes(k, v))[|env|..|env| + 8] == LittleEndian(EntryLen(k, v), PREFIX);
  }

  lemma PokedPrefix(env: seq<byte>, at: nat, o: nat)
    requires at + 2 <= o && o + 8 <= |env|
    ensures LenAt(Poke(env, at, EMPTY).value, o) == LenAt(env, o)
  {
    PokeFrame(env, at, EMPTY, o, o + 8);
  }

  lemma LengthFits(e: Env, slots: seq<Slot>, m: map<Str, Str>, k: Str, v: Str)
    requires Rep(e, slots, m) && !ReuseFires(e, k, v) && !FitsInPlace(e, k, v) && AfterSet(e, k, v).Done?
    ensures EntryLen(k, v) < CAPACITY
  {
    ScanWellFormed(e, slots, m, EntryLen(k, v), 0);
  }

  lemma SizedSet(e: Env, slots: seq<Slot>, m: map<Str, Str>, z: Sizes, k: Str, v: Str, slots': seq<Slot>)
    requires Rep(e, slots, m) && Sized(e, z) && !ReuseFires(e, k, v) && AfterSet(e, k, v).Done?
    requires Layout(AfterSet(e, k, v).e.env, slots') && Grown(slots, slots')
    ensures Sized(AfterSet(e, k, v).e, SizesStep(z, Set(k, v)))
  {
    var e' := AfterSet(e, k, v).e;
    SizedKept(e, slots, m, z, e'.env, slots');
    SetShape(e, slots, m, k, v);
    if FitsInPlace(e, k, v) {
      assert e' == e.(env := e'.env);
    } else {
      NewPrefix(e, slots, m, k, v, slots');
      SizedAppended(e, e', z, SizesStep(z, Set(k, v)), k, EntryLen(k, v));
    }
  }

  lemma SizedAppended(e: Env, e': Env, z: Sizes, z': Sizes, k: Str, elen: nat)
    requires Sized(e.(env := e'.env), z) && k in e'.index && LenAt(e'.env, e'.index[k]) == Some(elen)
    requires e'.index == e.index[k := e'.index[k]] && z'.caps == z.caps[k := elen]
    requires e'.free == (if k in e.index then e.free + [e.index[k]] else e.free)
    requires z'.frees == (if k in z.caps then z.frees + [z.caps[k]] else z.frees)
    ensures Sized(e', z')
  {
    forall x | x in z'.caps
      ensures LenAt(e'.env, e'.index[x]) == Some(z'.caps[x])
    {
      if x != k { assert x in z.caps; }
    }
  }

  /**
    Over a whole run of `set_var` and `remove_var` the arena represents at every point what a plain map
    would hold iff no `set_var` that outgrows its entry, or has none, finds a free entry no longer than
    it needs: a condition on the lengths of names and values, in the order they come.
    */
  lemma {:induction false} FaithfulIffQuiet(e: Env, m: map<Str, Str>, z: Sizes, ops: seq<Op>)
    requires Represents(e, m) && Sized(e, z) && |e.env| + Appended(ops) < CAPACITY
    requires forall i :: 0 <= i < |ops| && ops[i].Set? ==> ops[i].k != []
    ensures Faithful(e, m, ops) <==> Quiet(z, ops)
    decreases |ops|
  {
    if ops != [] {
      var op := ops[0];
      var slots :| Rep(e, slots, m);
      if op.Set? { FiresIffTakes(e, slots, m, z, op.k, op.v); }
      if Takes(z, op) {
        SetVarCorrectIff(e, slots, m, op.k, op.v);
      } else {
        QuietStep(e, slots, m, z, op);
        StepGrowth(e, slots, m, op);
        FaithfulIffQuiet(Step(e, op).e, MapStep(m, op), SizesStep(z, op), ops[1..]);
      }
    }
  }

  lemma QuietStep(e: Env, slots: seq<Slot>, m: map<Str, Str>, z: Sizes, op: Op)
    requires Rep(e, slots, m) && Sized(e, z)
    requires op.Set? ==> !ReuseFires(e, op.k, op.v) && |e.env| + EntryLen(op.k, op.v) < CAPACITY
    ensures Step(e, op).Done? && Represents(Step(e, op).e, MapStep(m, op)) && Sized(Step(e, op).e, SizesStep(z, op))
  {
    if op.Set? {
      var slots' := SetVarRefines(e, slots, m, op.k, op.v);
      SizedSet(e, slots, m, z, op.k, op.v, slots');
    } else {
      var slots' := RemoveVarRefines(e, slots, m, op.k);
      SizedRemove(e, slots, m, z, op.k, slots');
    }
  }

  /** No `set_var` of a present name outgrows that name's entry. */
  ghost predicate Steady(caps: map<Str, nat>, ops: seq<Op>)
    decreases |ops|
  {
    ops == [] ||
    (match ops[0]
     case Remove(k) => Steady(caps - {k}, ops[1..])
     case Set(k, v) =>
       if k in caps then EntryLen(k, v) <= caps[k] && Steady(caps, ops[1..])
       else Steady(caps[k := EntryLen(k, v)], ops[1..]))
  }

  /** With nothing on the freelist such a run never takes a free entry, whatever it removes. */
  lemma {:induction false} SteadyIsQuiet(caps: map<Str, nat>, ops: seq<Op>)
    requires Steady(caps, ops)
    ensures Quiet(Sizes(caps, []), ops)
    decreases |ops|
  {
    if ops != [] { SteadyIsQuiet(SizesStep(Sizes(caps, []), ops[0]).caps, ops[1..]); }
  }

  /** `remove_var` does not make the reuse branch fire, or stop firing, for any other name. */
  lemma RemoveArmsNothing(e: Env, slots: seq<Slot>, m: map<Str, Str>, z: Sizes, k: Str, x: Str, w: Str)
    requires Rep(e, slots, m) && Sized(e, z) && x != k
    ensures AfterRemove(e, k).Done? && (ReuseFires(AfterRemove(e, k).e, x, w) <==> ReuseFires(e, x, w))
  {
    var slots' := RemoveVarRefines(e, slots, m, k);
    SizedRemove(e, slots, m, z, k, slots');
    FiresIffTakes(e, slots, m, z, x, w);
    FiresIffTakes(AfterRemove(e, k).e, slots', m - {k}, SizesStep(z, Remove(k)), x, w);
    TakesAfterRemove(z, k, x, w);
  }

  lemma TakesAfterRemove(z: Sizes, k: Str, x: Str, w: Str)
    requires x != k
    ensures Takes(SizesStep(z, Remove(k)), Set(x, w)) <==> Takes(z, Set(x, w))
  {
  }

  /** Relocating one name arms the reuse branch for every new name that needs at least as much room. */
  lemma RelocationArmsReuse(e: Env, slots: seq<Slot>, m: map<Str, Str>, k: Str, v: Str, x: Str, w: Str)
    requires Rep(e, slots, m) && |e.env| + EntryLen(k, v) < CAPACITY && e.free == []
    requires k in e.index && !FitsInPlace(e, k, v)
    requires x !in e.index && LenAt(e.env, e.index[k]).Some? && EntryLen(x, w) >= LenAt(e.env, e.index[k]).value
    ensures AfterSet(e, k, v).Done? && ReuseFires(AfterSet(e, k, v).e, x, w)
  {
    ScanWellFormed(e, slots, m, EntryLen(k, v), 0);
    OldEntryListed(e, slots, m, k, v);
    var e' := Append(e, k, v).e;
    assert AfterSet(e, k, v) == Done(e');
    assert ScanFree(e'.env, e'.free, EntryLen(x, w), 0) == Found(0);
  }

  /** After a relocation the freelist holds the old entry, whose length prefix is intact. */
  lemma OldEntryListed(e: Env, slots: seq<Slot>, m: map<Str, Str>, k: Str, v: Str)
    requires Rep(e, slots, m) && |e.env| + EntryLen(k, v) < CAPACITY && e.free == [] && k in e.index
    ensures var r := Append(e, k, v);
            && r.Done? && r.e.free == [e.index[k]] && r.e.index.Keys == e.index.Keys
            && LenAt(r.e.env, e.index[k]) == LenAt(e.env, e.index[k])
  {
    var p := SlotOf(e, slots, m, k);
    PrefixIsLength(e.env, slots, p);
    LayoutAppend(e.env, slots, k, v);
    var grown := slots + [NewSlot(e.env, k, v)];
    EmptySlot(e.env + EntryBytes(k, v), grown, p);
    PrefixIsLength(Append(e, k, v).e.env, grown[p := grown[p].(entry := Free)], p);
  }

  /** "A" is set to "" and then to "B"; setting "C" to "" then panics. */
  lemma ReuseExample()
    ensures var a: Str := [0x41]; var c: Str := [0x43];
            var e0 := Env(EntryBytes(a, []), map[a := 0], []);
            && Represents(e0, map[a := []])
            && AfterSet(e0, a, [0x42]).Done?
            && AfterSet(AfterSet(e0, a, [0x42]).e, c, []).Panicked?
  {
    var a: Str := [0x41];
    var c: Str := [0x43];
    var e0 := Env(EntryBytes(a, []), map[a := 0], []);
    var slots := [NewSlot([], a, [])];
    SingleEntry(a, []);
    PrefixIsLength(e0.env, slots, 0);
    RelocationArmsReuse(e0, slots, map[a := []], a, [0x42], c, []);
    var e1 := AfterSet(e0, a, [0x42]).e;
    RelocatedFreelist(e0, a, [0x42]);
    SetVarReuses(e1, c, []);
  }

  lemma SingleEntry(k: Str, v: Str)
    requires EntryLen(k, v) < CAPACITY
    ensures Rep(Env(EntryBytes(k, v), map[k := 0], []), [NewSlot([], k, v)], map[k := v])
  {
    var none: seq<Slot> := [];
    assert Layout([], none) && Indexed(map[], none, map[]);
    LayoutAppend([], none, k, v);
    IndexedAppend(map[], none, map[], NewSlot([], k, v));
    assert [] + EntryBytes(k, v) == EntryBytes(k, v) && none + [NewSlot([], k, v)] == [NewSlot([], k, v)];
    assert map[][k := 0] == map[k := 0] && map[][k := v] == map[k := v];
  }

  lemma RelocatedFreelist(e: Env, k: Str, v: Str)
    requires e.free == [] && k in e.index && !FitsInPlace(e, k, v) && AfterSet(e, k, v).Done?
    ensures AfterSet(e, k, v).e.free == [e.index[k]]
    ensures forall x :: x in AfterSet(e, k, v).e.index <==> x in e.index
  {
  }

  // ---------------------------------------------------------------- reading

  /** `memchr`: the first position of `b`. */
  method MemChr(b: byte, s: seq<byte>) returns (r: Option<nat>)
    ensures r.None? ==> b !in s
    ensures r.Some? ==> r.value < |s| && s[r.value] == b && b !in s[..r.value]
  {
    for i := 0 to |s|
      invariant b !in s[..i]
    {
      if s[i] == b { return Some(i); }
      assert s[..i + 1] == s[..i] + [s[i]];
    }
    assert s[..|s|] == s;
    return None;
  }

  /** In the bytes from a live entry on, the name is followed by the value and the value by 0xFF. */
  lemma ReadLive(env: seq<byte>, slots: seq<Slot>, p: nat)
    requires Layout(env, slots) && p < |slots| && slots[p].entry.Live?
    ensures var k := slots[p].entry.key; var v := slots[p].entry.val; var o := slots[p].off;
            && o + 10 + |k| + |v| <= |env|
            && env[o + 8..o + 8 + |k|] == k && env[o + 8 + |k|] == KEY_TERM
            && env[o + 9 + |k|..o + 9 + |k| + |v|] == v && env[o + 9 + |k| + |v|] == ENTRY_TERM
  {
    ReadSlot(env, slots[p]);
  }

  lemma ReadSlot(env: seq<byte>, t: Slot)
    requires SlotAt(env, t) && t.entry.Live?
    ensures var k := t.entry.key; var v := t.entry.val; var o := t.off;
            && o + 10 + |k| + |v| <= |env|
            && env[o + 8..o + 8 + |k|] == k && env[o + 8 + |k|] == KEY_TERM
            && env[o + 9 + |k|..o + 9 + |k| + |v|] == v && env[o + 9 + |k| + |v|] == ENTRY_TERM
  {
    var k, v := t.entry.key, t.entry.val;
    var c := env[t.off..t.off + t.len];
    assert c[8 + |k|] == env[t.off + 8 + |k|] && c[9 + |k| + |v|] == env[t.off + 9 + |k| + |v|];
    SubSlice(env, t.off, t.off + t.len, 8, 8 + |k|);
    SubSlice(env, t.off, t.off + t.len, 9 + |k|, 9 + |k| + |v|);
  }

  lemma SubSlice(s: seq<byte>, lo: nat, hi: nat, i: nat, j: nat)
    requires lo <= hi <= |s| && i <= j <= hi - lo
    ensures s[lo..hi][i..j] == s[lo + i..lo + j]
  {
    forall x | 0 <= x < j - i
      ensures s[lo..hi][i..j][x] == s[lo + i..lo + j][x]
    {
      assert s[lo..hi][i + x] == s[lo + i + x];
    }
  }

  /** Scanning for a terminator finds the end of a terminator-free prefix. */
  lemma FirstTerminator(s: seq<byte>, w: Str, b: byte, i: nat)
    requires |w| < |s| && s[..|w|] == w && s[|w|] == b && b >= 0xFE
    requires i < |s| && s[i] == b && b !in s[..i]
    ensures i == |w|
  {
  }

  // ---------------------------------------------------------------- what a caller sees

  datatype ReadResult = Absent | Value(bytes: seq<byte>) | Panics

  /** The first position of `b`, or the length. */
  function First(s: seq<byte>, b: byte): (r: nat)
    ensures r <= |s| && b !in s[..r] && (r < |s| ==> s[r] == b)
  {
    if s == [] || s[0] == b then 0
    else
      var r := 1 + First(s[1..], b);
      assert s[..r] == [s[0]] + s[1..][..r - 1];
      r
  }

  lemma {:induction false} FirstAt(s: seq<byte>, b: byte, i: nat)
    requires i < |s| && s[i] == b && b !in s[..i]
    ensures First(s, b) == i
  {
    if i > 0 {
      assert s[..i][0] == s[0] && s[..i][1..] == s[1..][..i - 1];
      FirstAt(s[1..], b, i - 1);
    }
  }

  /** Where the value of an indexed name starts. */
  function ValueOff(e: Env, k: Str): nat
    requires k in e.index
  {
    e.index[k] + 9 + |k|
  }

  /** What `var` answers on any arena. */
  function ReadVar(e: Env, k: Str): ReadResult {
    if k !in e.index then Absent
    else if ValueOff(e, k) > |e.env| then Panics
    else
      var ptr := e.env[ValueOff(e, k)..];
      var end := First(ptr, ENTRY_TERM);
      if end == |ptr| then Panics else Value(ptr[..end])
  }

  /** What `var` should answer for `x`. */
  function Expected(m: map<Str, Str>, x: Str): ReadResult { if x in m then Value(m[x]) else Absent }

  /** The arena holds `b` at offset `o`. */
  predicate Lies(env: seq<byte>, o: nat, b: seq<byte>) { o + |b| <= |env| && env[o..o + |b|] == b }

  lemma ReadVarIff(e: Env, k: Str, v: Str)
    requires k in e.index
    ensures ReadVar(e, k) == Value(v) <==> Lies(e.env, ValueOff(e, k), v + [ENTRY_TERM])
  {
    var o := ValueOff(e, k);
    if o <= |e.env| {
      var ptr := e.env[o..];
      var end := First(ptr, ENTRY_TERM);
      if Lies(e.env, o, v + [ENTRY_TERM]) {
        assert ptr[..|v| + 1] == v + [ENTRY_TERM];
        assert ptr[..|v|] == v && ptr[|v|] == ENTRY_TERM;
        FirstAt(ptr, ENTRY_TERM, |v|);
      }
      if ReadVar(e, k) == Value(v) {
        assert e.env[o..o + end + 1] == ptr[..end] + [ptr[end]];
      }
    }
  }

  /** On an arena that represents a map, `var` answers what the map holds. */
  lemma VarReadsMap(e: Env, slots: seq<Slot>, m: map<Str, Str>, k: Str)
    requires Rep(e, slots, m)
    ensures ReadVar(e, k) == Expected(m, k)
  {
    if k in m {
      LiveLies(e, slots, m, k);
      ReadVarIff(e, k, m[k]);
    }
  }

  lemma LiveLies(e: Env, slots: seq<Slot>, m: map<Str, Str>, k: Str)
    requires Rep(e, slots, m) && k in m
    ensures Lies(e.env, ValueOff(e, k), m[k] + [ENTRY_TERM])
  {
    var p := SlotOf(e, slots, m, k);
    SlotLies(e.env, slots, p);
  }

  lemma SlotLies(env: seq<byte>, slots: seq<Slot>, p: nat)
    requires Layout(env, slots) && p < |slots| && slots[p].entry.Live?
    ensures Lies(env, slots[p].off + 9 + |slots[p].entry.key|, slots[p].entry.val + [ENTRY_TERM])
  {
    ReadLive(env, slots, p);
    var o, v := slots[p].off + 9 + |slots[p].entry.key|, slots[p].entry.val;
    assert env[o..o + |v| + 1] == env[o..o + |v|] + [env[o + |v|]];
  }

  /** A caller of `var` cannot tell the arena from the map `m`. */
  ghost predicate Looks(e: Env, m: map<Str, Str>) {
    forall x: Str {:trigger ReadVar(e, x)} :: ReadVar(e, x) == Expected(m, x)
  }

  /** Storing `b` at offset 8 leaves the value of `x` as it reads. */
  ghost predicate Spared(e: Env, m: map<Str, Str>, b: seq<byte>, x: Str)
    requires x in m && x in e.index
  {
    forall y :: ValueOff(e, x) <= y <= ValueOff(e, x) + |m[x]| && 8 <= y < 8 + |b| && y < |e.env| ==>
      b[y - 8] == e.env[y]
  }

  /** What the reuse branch, taking free entry `i`, must find for name `x` in order to go unnoticed there. */
  ghost predicate LuckyFor(e: Env, m: map<Str, Str>, k: Str, v: Str, i: nat, x: Str)
    requires i < |e.free| && m.Keys == e.index.Keys && Emptied(e, k).Some? && x in m[k := v]
  {
    if x == k then Lies(Emptied(e, k).value, e.free[i] + 9 + |k|, v + [ENTRY_TERM])
    else Spared(e, m, k + [KEY_TERM] + v + [ENTRY_TERM], x)
  }

  ghost predicate Lucky(e: Env, m: map<Str, Str>, k: Str, v: Str, i: nat)
    requires i < |e.free| && m.Keys == e.index.Keys && Emptied(e, k).Some?
  {
    EntryLen(k, v) <= e.free[i] && forall x :: x in m[k := v] ==> LuckyFor(e, m, k, v, i, x)
  }

  lemma EmptiedDefined(e: Env, slots: seq<Slot>, m: map<Str, Str>, k: Str)
    requires Rep(e, slots, m)
    ensures Emptied(e, k).Some? && |Emptied(e, k).value| == |e.env|
  {
    if k in e.index {
      var p := SlotOf(e, slots, m, k);
      EmptySlot(e.env, slots, p);
    }
  }

  lemma ReuseDoneIff(e: Env, slots: seq<Slot>, m: map<Str, Str>, k: Str, v: Str, i: nat)
    requires Rep(e, slots, m) && i < |e.free|
    ensures Reuse(e, k, v, i).Done? <==> EntryLen(k, v) <= e.free[i]
  {
    EmptiedDefined(e, slots, m, k);
    var f := FreeSlotOf(e, slots, m, i);
    EmptiedByte(e.env, slots, f);
  }

  /** Emptying the entry of `k` leaves the values of other names. */
  lemma OtherLies(e: Env, slots: seq<Slot>, m: map<Str, Str>, k: Str, x: Str)
    requires Rep(e, slots, m) && x in m && x != k
    ensures Emptied(e, k).Some? && Lies(Emptied(e, k).value, ValueOff(e, x), m[x] + [ENTRY_TERM])
  {
    var q := SlotOf(e, slots, m, x);
    if k in e.index {
      var p := SlotOf(e, slots, m, k);
      PresentOtherLies(e, slots, k, x, p, q);
    } else {
      SlotLies(e.env, slots, q);
    }
  }

  lemma PresentOtherLies(e: Env, slots: seq<Slot>, k: Str, x: Str, p: nat, q: nat)
    requires Layout(e.env, slots) && p < |slots| && q < |slots| && k in e.index && x in e.index && x != k
    requires slots[p].entry.Live? && slots[p].entry.key == k && slots[p].off == e.index[k]
    requires slots[q].entry.Live? && slots[q].entry.key == x && slots[q].off == e.index[x]
    ensures Emptied(e, k).Some? && Lies(Emptied(e, k).value, ValueOff(e, x), slots[q].entry.val + [ENTRY_TERM])
  {
    EmptyingSpares(e.env, slots, p, q);
  }

  lemma EmptyingSpares(env: seq<byte>, slots: seq<Slot>, p: nat, q: nat)
    requires Layout(env, slots) && p < |slots| && q < |slots| && p != q && slots[q].entry.Live?
    ensures var emptied := Poke(env, slots[p].off + 8, EMPTY);
            && emptied.Some?
            && Lies(emptied.value, slots[q].off + 9 + |slots[q].entry.key|, slots[q].entry.val + [ENTRY_TERM])
  {
    EmptySlot(env, slots, p);
    var slots' := slots[p := slots[p].(entry := Free)];
    SlotLies(Poke(env, slots[p].off + 8, EMPTY).value, slots', q);
  }

  /** After a store elsewhere, `b` still lies at `o` iff the store agrees with it where they overlap. */
  lemma PokeLies(env: seq<byte>, at: nat, w: seq<byte>, o: nat, b: seq<byte>)
    requires at + |w| <= |env| && Lies(env, o, b)
    ensures Lies(Poke(env, at, w).value, o, b) <==>
            forall y :: o <= y < o + |b| && at <= y < at + |w| ==> w[y - at] == env[y]
  {
    SlicesAgreeIff(Poke(env, at, w).value, env, o, o + |b|);
  }

  lemma SlicesAgreeIff(x: seq<byte>, y: seq<byte>, lo: nat, hi: nat)
    requires lo <= hi <= |x| && |x| == |y|
    ensures x[lo..hi] == y[lo..hi] <==> forall i :: lo <= i < hi ==> x[i] == y[i]
  {
    if x[lo..hi] == y[lo..hi] {
      forall i | lo <= i < hi
        ensures x[i] == y[i]
      {
        assert x[lo..hi][i - lo] == y[lo..hi][i - lo];
      }
    }
  }

  /** Another name reads as before after the reuse branch iff the store spares its value. */
  lemma ReuseSparesIff(e: Env, slots: seq<Slot>, m: map<Str, Str>, k: Str, v: Str, i: nat, x: Str)
    requires Rep(e, slots, m) && i < |e.free| && Reuse(e, k, v, i).Done? && x in m && x != k
    ensures ReadVar(Reuse(e, k, v, i).e, x) == Value(m[x]) <==>
            Spared(e, m, k + [KEY_TERM] + v + [ENTRY_TERM], x)
  {
    ReuseShape(e, k, v, i);
    EmptiedDefined(e, slots, m, k);
    OtherLies(e, slots, m, k, x);
    LiveLies(e, slots, m, x);
    ReadVarIff(Reuse(e, k, v, i).e, x, m[x]);
    StoreSparesIff(Emptied(e, k).value, e.env, k + [KEY_TERM] + v + [ENTRY_TERM], ValueOff(e, x), m[x] + [ENTRY_TERM]);
  }

  lemma StoreSparesIff(emptied: seq<byte>, env: seq<byte>, w: seq<byte>, o: nat, b: seq<byte>)
    requires |emptied| == |env| && 8 + |w| <= |env| && Lies(emptied, o, b) && Lies(env, o, b)
    ensures Lies(Poke(emptied, 8, w).value, o, b) <==>
            forall y :: o <= y < o + |b| && 8 <= y < 8 + |w| && y < |env| ==> w[y - 8] == env[y]
  {
    PokeLies(emptied, 8, w, o, b);
    SlicesAgreeIff(emptied, env, o, o + |b|);
  }

  /** The name itself reads as set after the reuse branch iff its value happened to lie behind the free entry. */
  lemma ReuseReadsIff(e: Env, k: Str, v: Str, i: nat)
    requires i < |e.free| && Reuse(e, k, v, i).Done?
    ensures Emptied(e, k).Some?
    ensures ReadVar(Reuse(e, k, v, i).e, k) == Value(v) <==>
            Lies(Emptied(e, k).value, e.free[i] + 9 + |k|, v + [ENTRY_TERM])
  {
    ReuseShape(e, k, v, i);
    ReadVarIff(Reuse(e, k, v, i).e, k, v);
    StoredBefore(Emptied(e, k).value, k + [KEY_TERM] + v + [ENTRY_TERM], e.free[i] + 9 + |k|, v + [ENTRY_TERM]);
  }

  lemma StoredBefore(env: seq<byte>, w: seq<byte>, o: nat, b: seq<byte>)
    requires 8 + |w| <= o && 8 + |w| <= |env|
    ensures Lies(Poke(env, 8, w).value, o, b) <==> Lies(env, o, b)
  {
    if o + |b| <= |env| { PokeFrame(env, 8, w, o, o + |b|); }
  }

  lemma ReuseLooksIff(e: Env, slots: seq<Slot>, m: map<Str, Str>, k: Str, v: Str, i: nat)
    requires Rep(e, slots, m) && i < |e.free| && Reuse(e, k, v, i).Done?
    ensures Emptied(e, k).Some? && (Looks(Reuse(e, k, v, i).e, m[k := v]) <==> Lucky(e, m, k, v, i))
  {
    EmptiedDefined(e, slots, m, k);
    if Looks(Reuse(e, k, v, i).e, m[k := v]) { LooksThenLucky(e, slots, m, k, v, i); }
    if Lucky(e, m, k, v, i) { LuckyThenLooks(e, slots, m, k, v, i); }
  }

  lemma ReuseIndex(e: Env, k: Str, v: Str, i: nat)
    requires i < |e.free| && Reuse(e, k, v, i).Done?
    ensures Reuse(e, k, v, i).e.index == e.index[k := e.free[i]]
  {
  }

  lemma ReuseReads(e: Env, slots: seq<Slot>, m: map<Str, Str>, k: Str, v: Str, i: nat, x: Str)
    requires Rep(e, slots, m) && i < |e.free| && Reuse(e, k, v, i).Done?
    ensures Emptied(e, k).Some?
    ensures ReadVar(Reuse(e, k, v, i).e, x) == Expected(m[k := v], x) <==>
            (x in m[k := v] ==> LuckyFor(e, m, k, v, i, x))
  {
    EmptiedDefined(e, slots, m, k);
    ReuseIndex(e, k, v, i);
    if x == k {
      ReuseReadsIff(e, k, v, i);
    } else if x in m {
      ReuseSparesIff(e, slots, m, k, v, i, x);
    }
  }

  lemma LooksThenLucky(e: Env, slots: seq<Slot>, m: map<Str, Str>, k: Str, v: Str, i: nat)
    requires Rep(e, slots, m) && i < |e.free| && Reuse(e, k, v, i).Done? && Emptied(e, k).Some?
    requires Looks(Reuse(e, k, v, i).e, m[k := v])
    ensures Lucky(e, m, k, v, i)
  {
    ReuseDoneIff(e, slots, m, k, v, i);
    forall x | x in m[k := v]
      ensures LuckyFor(e, m, k, v, i, x)
    {
      ReuseReads(e, slots, m, k, v, i, x);
      assert ReadVar(Reuse(e, k, v, i).e, x) == Expected(m[k := v], x);
    }
  }

  lemma LuckyThenLooks(e: Env, slots: seq<Slot>, m: map<Str, Str>, k: Str, v: Str, i: nat)
    requires Rep(e, slots, m) && i < |e.free| && Reuse(e, k, v, i).Done? && Emptied(e, k).Some?
    requires Lucky(e, m, k, v, i)
    ensures Looks(Reuse(e, k, v, i).e, m[k := v])
  {
    forall x: Str
      ensures ReadVar(Reuse(e, k, v, i).e, x) == Expected(m[k := v], x)
    {
      ReuseReads(e, slots, m, k, v, i, x);
    }
  }

  /**
    What a caller of `var` sees: on an arena that represents `m`, after `set_var` of any name every
    name reads as in `m[k := v]` iff the reuse branch does not fire, or it does and is lucky.
    */
  lemma SetVarObservedIff(e: Env, slots: seq<Slot>, m: map<Str, Str>, k: Str, v: Str)
    requires Rep(e, slots, m) && |e.env| + EntryLen(k, v) < CAPACITY
    ensures Emptied(e, k).Some?
    ensures AfterSet(e, k, v).Done? && Looks(AfterSet(e, k, v).e, m[k := v]) <==>
            (ReuseFires(e, k, v) ==> Lucky(e, m, k, v, ScanFree(e.env, e.free, EntryLen(k, v), 0).i))
  {
    EmptiedDefined(e, slots, m, k);
    if ReuseFires(e, k, v) {
      var i := ScanFree(e.env, e.free, EntryLen(k, v), 0).i;
      SetVarIsReuse(e, slots, m, k, v);
      ReuseDoneIff(e, slots, m, k, v, i);
      if Reuse(e, k, v, i).Done? { ReuseLooksIff(e, slots, m, k, v, i); }
    } else {
      var slots' := SetVarRefines(e, slots, m, k, v);
      forall x: Str
        ensures ReadVar(AfterSet(e, k, v).e, x) == Expected(m[k := v], x)
      {
        VarReadsMap(AfterSet(e, k, v).e, slots', m[k := v], x);
      }
    }
  }

  // ---------------------------------------------------------------- building from pairs

  function MapOf(pairs: seq<(Str, Str)>): map<Str, Str> {
    if pairs == [] then map[]
    else MapOf(pairs[..|pairs| - 1])[pairs[|pairs| - 1].0 := pairs[|pairs| - 1].1]
  }

  /** The entry length of each name. */
  function CapsOf(pairs: seq<(Str, Str)>): map<Str, nat> {
    if pairs == [] then map[]
    else
      var (k, v) := pairs[|pairs| - 1];
      CapsOf(pairs[..|pairs| - 1])[k := EntryLen(k, v)]
  }

  function TotalLen(pairs: seq<(Str, Str)>): nat {
    if pairs == [] then 0
    else TotalLen(pairs[..|pairs| - 1]) + EntryLen(pairs[|pairs| - 1].0, pairs[|pairs| - 1].1)
  }

  ghost predicate Duplicate(pairs: seq<(Str, Str)>) {
    exists i, j :: 0 <= i < j < |pairs| && pairs[i].0 == pairs[j].0
  }

  lemma {:induction false} TotalPrefix(pairs: seq<(Str, Str)>, n: nat)
    requires n <= |pairs|
    ensures TotalLen(pairs[..n]) <= TotalLen(pairs)
  {
    if n < |pairs| {
      TotalPrefix(pairs[..|pairs| - 1], n);
      assert pairs[..|pairs| - 1][..n] == pairs[..n];
    } else {
      assert pairs[..n] == pairs;
    }
  }

  lemma {:induction false} KeysOf(pairs: seq<(Str, Str)>, k: Str)
    ensures k in MapOf(pairs) <==> exists j :: 0 <= j < |pairs| && pairs[j].0 == k
  {
    if pairs != [] {
      var front := pairs[..|pairs| - 1];
      KeysOf(front, k);
      if k in MapOf(front) {
        var j :| 0 <= j < |front| && front[j].0 == k;
        assert pairs[j].0 == k;
      }
      forall j | 0 <= j < |pairs| && pairs[j].0 == k
        ensures k in MapOf(pairs)
      {
        if j < |front| { assert front[j].0 == k; }
      }
    }
  }

  lemma NoNewDuplicate(pairs: seq<(Str, Str)>, i: nat)
    requires i < |pairs| && !Duplicate(pairs[..i])
    requires forall j :: 0 <= j < |pairs[..i]| ==> pairs[..i][j].0 != pairs[i].0
    ensures !Duplicate(pairs[..i + 1])
  {
    var front := pairs[..i + 1];
    forall x, y | 0 <= x < y < |front|
      ensures front[x].0 != front[y].0
    {
      assert pairs[..i][x].0 == pairs[x].0;
      if y < i { assert pairs[..i][y].0 == pairs[y].0; }
    }
  }

  /** The pairs before the `i`-th are in the arena. */
  ghost predicate Built(e: Env, slots: seq<Slot>, pairs: seq<(Str, Str)>) {
    && Rep(e, slots, MapOf(pairs)) && e.free == []
    && |e.env| == TotalLen(pairs) && Sized(e, Sizes(CapsOf(pairs), []))
  }

  lemma PairAdded(e: Env, slots: seq<Slot>, pairs: seq<(Str, Str)>, i: nat) returns (slots': seq<Slot>)
    requires i < |pairs| && Built(e, slots, pairs[..i]) && pairs[i].0 !in e.index
    requires |e.env| + EntryLen(pairs[i].0, pairs[i].1) < CAPACITY
    ensures var (k, v) := pairs[i];
            Built(Env(e.env + EntryBytes(k, v), e.index[k := |e.env|], []), slots', pairs[..i + 1])
  {
    var (k, v) := pairs[i];
    assert pairs[..i + 1][..i] == pairs[..i];
    slots' := AppendNewRefines(e, slots, MapOf(pairs[..i]), k, v);
    SizedSet(e, slots, MapOf(pairs[..i]), Sizes(CapsOf(pairs[..i]), []), k, v, slots');
  }

  class EnvMap {
    var env: seq<byte>
    var envMap: map<Str, nat>
    var freelist: seq<nat>

    constructor (e: Env)
      ensures State() == e
    {
      env, envMap, freelist := e.env, e.index, e.free;
    }

    function State(): Env
      reads this
    {
      Env(env, envMap, freelist)
    }

    /** `FromIterator`: duplicate names panic (a null result). */
    static method FromIter(pairs: seq<(Str, Str)>) returns (r: EnvMap?)
      ensures r == null <==> Duplicate(pairs) || TotalLen(pairs) >= CAPACITY
      ensures r != null ==> fresh(r) && r.freelist == [] && Represents(r.State(), MapOf(pairs))
      ensures r != null ==> Sized(r.State(), Sizes(CapsOf(pairs), []))
    {
      var env: seq<byte> := [];
      var envMap: map<Str, nat> := map[];
      ghost var slots: seq<Slot> := [];
      for i := 0 to |pairs|
        invariant Built(Env(env, envMap, []), slots, pairs[..i])
        invariant !Duplicate(pairs[..i])
      {
        var (key, val) := pairs[i];
        assert pairs[..i + 1][..i] == pairs[..i];
        TotalPrefix(pairs, i + 1);
        KeysOf(pairs[..i], key);
        if key in envMap {
          var j :| 0 <= j < |pairs[..i]| && pairs[..i][j].0 == key;
          assert pairs[j].0 == pairs[i].0;
          return null;
        }
        if |env| + EntryLen(key, val) >= CAPACITY { return null; }
        slots := PairAdded(Env(env, envMap, []), slots, pairs, i);
        NoNewDuplicate(pairs, i);
        var off := |env|;
        env := env + EntryBytes(key, val);
        envMap := envMap[key := off];
      }
      assert pairs[..|pairs|] == pairs;
      r := new EnvMap(Env(env, envMap, []));
    }

    /** `var`, on any arena: the bytes behind the name up to the first 0xFF. */
    method Var(key: Str) returns (r: ReadResult)
      ensures r == ReadVar(State(), key)
    {
      if key !in envMap { return Absent; }
      var at := envMap[key] + 8;
      if at > |env| { return Panics; }
      var ptr := env[at..];
      if |key| + 1 > |ptr| { return Panics; }
      ptr := ptr[|key| + 1..];
      assert ptr == env[envMap[key] + 9 + |key|..];
      var end := MemChr(ENTRY_TERM, ptr);
      if end.None? { return Panics; }
      FirstAt(ptr, ENTRY_TERM, end.value);
      return Value(ptr[..end.value]);
    }

    method RemoveVar(key: Str) returns (panicked: bool)
      modifies this
      ensures panicked <==> AfterRemove(old(State()), key).Panicked?
      ensures !panicked ==> State() == AfterRemove(old(State()), key).e
    {
      if key in envMap {
        var off := envMap[key];
        envMap := envMap - {key};
        if off + 8 + 2 > |env| { return true; }
        env := env[..off + 8] + EMPTY + env[off + 10..];
      }
      return false;
    }

    method SetVar(key: Str, val: Str) returns (panicked: bool)
      modifies this
      ensures panicked <==> AfterSet(old(State()), key, val).Panicked?
      ensures !panicked ==> State() == AfterSet(old(State()), key, val).e
    {
      if key in envMap {
        if envMap[key] + 8 > |env| { return true; }
        if EntryLen(key, val) <= FromLittleEndian(env[envMap[key]..envMap[key] + 8]) {
          panicked := Overwrite(key, val);
          return;
        }
      }
      var scan := SearchFreelist(EntryLen(key, val));
      match scan
      case Malformed => return true;
      case Found(i) => panicked := StoreReused(key, val, i);
      case NotFound => panicked := AppendEntry(key, val);
    }

    /** The loop over the freelist. */
    method SearchFreelist(elen: nat) returns (r: Scan)
      ensures r == ScanFree(env, freelist, elen, 0)
    {
      for i := 0 to |freelist|
        invariant ScanFree(env, freelist, elen, 0) == ScanFree(env, freelist, elen, i)
      {
        var elem := freelist[i];
        if elem + 8 > |env| { return Malformed; }
        var tlen := FromLittleEndian(env[elem..elem + 8]);
        if tlen <= elen { return Found(i); }
      }
      return NotFound;
    }

    /** The new value over the old one. */
    method Overwrite(key: Str, val: Str) returns (panicked: bool)
      requires key in envMap
      modifies this`env
      ensures var put := Poke(old(env), envMap[key] + 9 + |key|, val + [ENTRY_TERM]);
              panicked == put.None? && (!panicked ==> env == put.value)
    {
      var at := envMap[key] + 8 + 1 + |key|;
      if at + |val| + 1 > |env| { return true; }
      env := env[..at] + (val + [ENTRY_TERM]) + env[at + |val| + 1..];
      return false;
    }

    /** A new entry at the end; an old one is emptied and listed. */
    method AppendEntry(key: Str, val: Str) returns (panicked: bool)
      modifies this
      ensures panicked <==> Append(old(State()), key, val).Panicked?
      ensures !panicked ==> State() == Append(old(State()), key, val).e
    {
      if |env| + EntryLen(key, val) >= CAPACITY { return true; }
      var elem := |env|;
      env := env + EntryBytes(key, val);
      if key in envMap {
        var oldOff := envMap[key];
        envMap := envMap[key := elem];
        if oldOff + 8 + 2 > |env| { return true; }
        env := env[..oldOff + 8] + EMPTY + env[oldOff + 10..];
        freelist := freelist + [oldOff];
      } else {
        envMap := envMap[key := elem];
      }
      return false;
    }

    /** The body of the reuse branch. */
    method StoreReused(key: Str, val: Str, i: nat) returns (panicked: bool)
      requires i < |freelist|
      modifies this
      ensures panicked <==> Reuse(old(State()), key, val, i).Panicked?
      ensures !panicked ==> State() == Reuse(old(State()), key, val, i).e
    {
      var elem := freelist[i];
      if key in envMap {
        var oldOff := envMap[key];
        if oldOff + 8 + 2 > |env| { return true; }
        env := env[..oldOff + 8] + EMPTY + env[oldOff + 10..];
        freelist := freelist[i := oldOff];
      } else {
        freelist := SwapRemove(freelist, i);
      }
      envMap := envMap[key := elem];
      assert env == Emptied(old(State()), key).value;
      if elem > |env| || EntryLen(key, val) > elem { return true; }
      var entry := key + [KEY_TERM] + val + [ENTRY_TERM];
      env := env[..8] + entry + env[8 + |entry|..];
      return false;
    }
  }

  // ---------------------------------------------------------------- iterating

  /** What the iterator yields for an entry; an emptied one gives the empty pair. */
  function PairOf(entry: Entry): (seq<byte>, seq<byte>) {
    match entry
    case Live(k, v) => (k, v)
    case Free => ([], [])
  }

  /** Where entry `i` starts; the arena's end for `i == |slots|`. */
  function Start(env: seq<byte>, slots: seq<Slot>, i: nat): nat
    requires i <= |slots|
  {
    if i < |slots| then slots[i].off else |env|
  }

  lemma {:induction false} Adjacent(slots: seq<Slot>, total: nat, i: nat)
    requires Contiguous(slots, total) && i < |slots|
    ensures slots[i].off + slots[i].len == (if i + 1 < |slots| then slots[i + 1].off else total)
    ensures i == 0 ==> slots[i].off == 0
  {
    var n := |slots| - 1;
    if i < n {
      Adjacent(slots[..n], slots[n].off, i);
    } else if n == 0 {
      assert slots[..0] == [];
    } else {
      Adjacent(slots[..n], slots[n].off, 0);
    }
  }

  /** The bytes from an entry on begin with its name, 0xFE, its value and 0xFF. */
  lemma ReadAny(env: seq<byte>, slots: seq<Slot>, i: nat)
    requires Layout(env, slots) && i < |slots|
    ensures var (k, v) := PairOf(slots[i].entry); var rest := env[slots[i].off + 8..];
            && |k| + |v| + 2 <= |rest| && TerminatorFree(k) && TerminatorFree(v)
            && rest[..|k|] == k && rest[|k|] == KEY_TERM
            && rest[|k|..][..|v| + 1] == [KEY_TERM] + v && rest[|k|..][|v| + 1] == ENTRY_TERM
  {
    var t := slots[i];
    if t.entry.Live? {
      ReadLive(env, slots, i);
      RestOf(env, t.off + 8, t.entry.key, t.entry.val);
    } else {
      assert SlotAt(env, t);
      EmptiedByte(env, slots, i);
      assert env[t.off..t.off + t.len][9] == env[t.off + 9];
      RestOf(env, t.off + 8, [], []);
    }
  }

  lemma RestOf(env: seq<byte>, o: nat, k: Str, v: Str)
    requires o + 2 + |k| + |v| <= |env|
    requires env[o..o + |k|] == k && env[o + |k|] == KEY_TERM
    requires env[o + |k| + 1..o + |k| + 1 + |v|] == v && env[o + |k| + 1 + |v|] == ENTRY_TERM
    ensures var rest := env[o..];
            && rest[..|k|] == k && rest[|k|] == KEY_TERM
            && rest[|k|..][..|v| + 1] == [KEY_TERM] + v && rest[|k|..][|v| + 1] == ENTRY_TERM
  {
    var rest := env[o..];
    SubSlice(env, o, |env|, 0, |k|);
    SubSlice(env, o, |env|, |k| + 1, |k| + 1 + |v|);
    assert rest[|k|..][..|v| + 1] == [rest[|k|]] + rest[|k| + 1..|k| + 1 + |v|];
  }

  /** At the start of an entry: its length, the bytes behind the prefix, and the next entry. */
  lemma HeaderAt(env: seq<byte>, slots: seq<Slot>, i: nat, bytes: seq<byte>)
    requires Layout(env, slots) && i < |slots| && slots[i].off <= |env| && bytes == env[slots[i].off..]
    ensures 8 <= |bytes| && bytes[8..] == env[slots[i].off + 8..] && Start(env, slots, i + 1) <= |env|
    ensures var len := FromLittleEndian(bytes[..8]);
            len <= |bytes| && bytes[len..] == env[Start(env, slots, i + 1)..]
  {
    assert SlotAt(env, slots[i]);
    PrefixIsLength(env, slots, i);
    Adjacent(slots, |env|, i);
    assert bytes[..8] == env[slots[i].off..slots[i].off + 8];
  }

  class Iter {
    var bytes: seq<byte>

    constructor (env: seq<byte>)
      ensures bytes == env
    {
      bytes := env;
    }

    /** `next`, at the start of entry `i`. */
    method Next(ghost env: seq<byte>, ghost slots: seq<Slot>, ghost i: nat)
      returns (r: Option<(seq<byte>, seq<byte>)>)
      requires Layout(env, slots) && i <= |slots| && Start(env, slots, i) <= |env|
      requires bytes == env[Start(env, slots, i)..]
      modifies this
      ensures i == |slots| ==> r == None && bytes == old(bytes)
      ensures i < |slots| ==> Start(env, slots, i + 1) <= |env|
      ensures i < |slots| ==> r == Some(PairOf(slots[i].entry)) && bytes == env[Start(env, slots, i + 1)..]
    {
      if i < |slots| { HeaderAt(env, slots, i, bytes); }
      if |bytes| < 8 {
        return None;
      }
      var len := FromLittleEndian(bytes[..8]);
      var rest := bytes[8..];
      bytes := bytes[len..];
      ReadAny(env, slots, i);
      ghost var pair := PairOf(slots[i].entry);
      var key, val := SplitEntry(rest, pair.0, pair.1);
      return Some((key, val));
    }

    /** The two `memchr` calls on the bytes behind the prefix. */
    static method SplitEntry(rest: seq<byte>, ghost k: seq<byte>, ghost v: seq<byte>)
      returns (key: seq<byte>, val: seq<byte>)
      requires |k| + |v| + 2 <= |rest| && TerminatorFree(k) && TerminatorFree(v)
      requires rest[..|k|] == k && rest[|k|] == KEY_TERM
      requires rest[|k|..][..|v| + 1] == [KEY_TERM] + v && rest[|k|..][|v| + 1] == ENTRY_TERM
      ensures key == k && val == v
    {
      var off := MemChr(KEY_TERM, rest);
      FirstTerminator(rest, k, KEY_TERM, off.value);
      key := rest[..off.value];
      var tail := rest[off.value..];
      var end := MemChr(ENTRY_TERM, tail);
      AfterKey(tail, v, end.value);
      val := tail[1..end.value];
    }

    /** Calling `next` until it answers `None` yields one pair per entry, in arena order. */
    method Drain(ghost env: seq<byte>, ghost slots: seq<Slot>) returns (items: seq<(seq<byte>, seq<byte>)>)
      requires Layout(env, slots) && bytes == env
      modifies this
      ensures items == Yields(slots)
    {
      items := [];
      ghost var i := 0;
      if slots != [] { Adjacent(slots, |env|, 0); }
      while true
        invariant 0 <= i <= |slots| && Start(env, slots, i) <= |env|
        invariant bytes == env[Start(env, slots, i)..]
        invariant items == Yields(slots[..i])
        decreases |slots| - i
      {
        var r := Next(env, slots, i);
        if r.None? {
          assert slots[..i] == slots;
          return;
        }
        YieldsNext(slots, i);
        items := items + [r.value];
        i := i + 1;
      }
    }
  }

  lemma AfterKey(rest: seq<byte>, v: seq<byte>, end: nat)
    requires TerminatorFree(v) && |v| + 1 < |rest|
    requires rest[..|v| + 1] == [KEY_TERM] + v && rest[|v| + 1] == ENTRY_TERM
    requires end < |rest| && rest[end] == ENTRY_TERM && ENTRY_TERM !in rest[..end]
    ensures end == |v| + 1 && rest[1..end] == v
  {
    assert rest[1..|v| + 1] == rest[..|v| + 1][1..];
  }

  function Yields(slots: seq<Slot>): seq<(seq<byte>, seq<byte>)> {
    seq(|slots|, i requires 0 <= i < |slots| => PairOf(slots[i].entry))
  }

  lemma YieldsNext(slots: seq<Slot>, i: nat)
    requires i < |slots|
    ensures Yields(slots[..i + 1]) == Yields(slots[..i]) + [PairOf(slots[i].entry)]
  {
  }

  /** Iterating a represented arena yields every pair of the map, and no non-empty name twice. */
  lemma EachPairYieldedOnce(e: Env, slots: seq<Slot>, m: map<Str, Str>, k: Str) returns (p: nat)
    requires Rep(e, slots, m) && k in m
    ensures p < |slots| && Yields(slots)[p] == (k, m[k])
    ensures k != [] ==> forall q :: 0 <= q < |slots| && Yields(slots)[q].0 == k ==> q == p
  {
    p := SlotOf(e, slots, m, k);
  }

  /** Nothing else is yielded but one empty pair per emptied entry. */
  lemma NothingElseYielded(e: Env, slots: seq<Slot>, m: map<Str, Str>, p: nat)
    requires Rep(e, slots, m) && p < |slots|
    ensures slots[p].entry.Free? ==> Yields(slots)[p] == ([], [])
    ensures slots[p].entry.Live? ==>
              var k := slots[p].entry.key; k in m && Yields(slots)[p] == (k, m[k])
  {
  }
}
