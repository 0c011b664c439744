/**
  The library search list: entries appended to one buffer, each followed by 0x1E, and taken apart
  again with `SplitAscii`.
 */
module SearchList {
  import opened Bits
  import opened Wrappers

  const RS: byte := 0x1E

  // ---------------------------------------------------------------- building

  function Join(entries: seq<seq<byte>>): seq<byte> {
    if entries == [] then [] else Join(entries[..|entries| - 1]) + entries[|entries| - 1] + [RS]
  }

  /** `resize` with the separator, then `copy_to_slice_head` over the new bytes. */
  method AppendEntry(buf: seq<byte>, v: seq<byte>) returns (r: seq<byte>)
    ensures r == buf + v + [RS]
  {
    var pos := |buf|;
    r := buf + seq(|v| + 1, _ => RS);
    for i := 0 to |v|
      invariant |r| == pos + |v| + 1
      invariant r[..pos + i] == buf + v[..i]
      invariant forall j :: pos + i <= j < |r| ==> r[j] == RS
    {
      r := r[pos + i := v[i]];
      assert r[..pos + i + 1] == r[..pos + i] + [v[i]];
      assert v[..i + 1] == v[..i] + [v[i]];
    }
    assert v[..|v|] == v;
    assert r == r[..pos + |v|] + [r[pos + |v|]];
  }

  /** The loop of `init_cache_slow` over the variable's entries, and of `read_config_file` over its lines. */
  method Build(entries: seq<seq<byte>>) returns (buf: seq<byte>)
    ensures buf == Join(entries)
  {
    buf := [];
    for i := 0 to |entries|
      invariant buf == Join(entries[..i])
    {
      buf := AppendEntry(buf, entries[i]);
      assert entries[..i + 1][..i] == entries[..i];
    }
    assert entries[..|entries|] == entries;
  }

  // ---------------------------------------------------------------- splitting

  /** The first position of `sep`, or the length. */
  function Find(s: seq<byte>, sep: byte): (r: nat)
    ensures r <= |s| && sep !in s[..r] && (r < |s| ==> s[r] == sep)
  {
    if s == [] || s[0] == sep then 0
    else
      var r := 1 + Find(s[1..], sep);
      assert s[..r] == [s[0]] + s[1..][..r - 1];
      r
  }

  /** What forward iteration yields. */
  function Split(s: seq<byte>, sep: byte): seq<seq<byte>>
    decreases |s|
  {
    if s == [] then []
    else
      var i := Find(s, sep);
      if i < |s| then [s[..i]] + Split(s[i + 1..], sep) else [s]
  }

  class SplitAscii {
    var rest: seq<byte>
    const sep: byte

    constructor (s: seq<byte>, sep: byte)
      ensures rest == s && this.sep == sep
    {
      rest := s;
      this.sep := sep;
    }

    /** `Iterator::next`. */
    method Next() returns (r: Option<seq<byte>>)
      modifies this
      ensures old(rest) == [] ==> r == None && rest == []
      ensures old(rest) != [] ==> r.Some? && Split(old(rest), sep) == [r.value] + Split(rest, sep)
      ensures r.Some? ==> |rest| < |old(rest)|
    {
      if rest == [] { return None; }
      for i := 0 to |rest|
        invariant rest == old(rest) && sep !in rest[..i]
      {
        if rest[i] == sep {
          FindAt(rest, sep, i);
          r := Some(rest[..i]);
          rest := rest[i + 1..];
          return;
        }
        assert rest[..i + 1] == rest[..i] + [rest[i]];
      }
      assert rest[..|rest|] == rest;
      r := Some(rest);
      rest := rest[|rest|..];
    }

    /** A `for` loop over the iterator, as in `open_module`. */
    method Collect() returns (items: seq<seq<byte>>)
      modifies this
      ensures items == Split(old(rest), sep) && rest == []
    {
      items := [];
      while true
        invariant items + Split(rest, sep) == Split(old(rest), sep)
        decreases |rest|
      {
        label before:
        var r := Next();
        if r.None? { return; }
        assert items + ([r.value] + Split(rest, sep)) == (items + [r.value]) + Split(rest, sep);
        items := items + [r.value];
      }
    }
  }

  lemma FindAt(s: seq<byte>, sep: byte, i: nat)
    requires i < |s| && s[i] == sep && sep !in s[..i]
    ensures Find(s, sep) == i
  {
  }

  // ---------------------------------------------------------------- the round trip

  function Count(s: seq<byte>, sep: byte): nat {
    if s == [] then 0 else (if s[0] == sep then 1 else 0) + Count(s[1..], sep)
  }

  lemma {:induction false} CountConcat(s: seq<byte>, t: seq<byte>, sep: byte)
    ensures Count(s + t, sep) == Count(s, sep) + Count(t, sep)
  {
    if s == [] {
      assert s + t == t;
    } else {
      assert (s + t)[0] == s[0] && (s + t)[1..] == s[1..] + t;
      CountConcat(s[1..], t, sep);
    }
  }

  lemma {:induction false} CountZeroIff(s: seq<byte>, sep: byte)
    ensures Count(s, sep) == 0 <==> sep !in s
  {
    if s != [] {
      CountZeroIff(s[1..], sep);
      assert s == [s[0]] + s[1..];
    }
  }

  /** A buffer that is empty or ends in the separator splits into one piece per separator. */
  lemma {:induction false} PieceCount(s: seq<byte>, sep: byte)
    requires s == [] || s[|s| - 1] == sep
    ensures |Split(s, sep)| == Count(s, sep)
    decreases |s|
  {
    if s != [] {
      var i := Find(s, sep);
      FoundBeforeEnd(s, sep);
      CountAround(s, i, sep);
      PieceCount(s[i + 1..], sep);
    }
  }

  lemma FoundBeforeEnd(s: seq<byte>, sep: byte)
    requires s != [] && s[|s| - 1] == sep
    ensures Find(s, sep) < |s| && (s[Find(s, sep) + 1..] == [] || s[Find(s, sep) + 1..][|s| - Find(s, sep) - 2] == sep)
  {
    assert s[..|s|] == s && sep in s;
  }

  lemma CountAround(s: seq<byte>, i: nat, sep: byte)
    requires i < |s| && s[i] == sep && sep !in s[..i]
    ensures Count(s, sep) == 1 + Count(s[i + 1..], sep)
  {
    var head, tail := s[..i], s[i + 1..];
    assert s == head + ([sep] + tail);
    CountConcat(head, [sep] + tail, sep);
    CountZeroIff(head, sep);
    assert ([sep] + tail)[1..] == tail;
  }

  /** Splitting off a first entry that does not contain the separator. */
  lemma SplitFirst(e: seq<byte>, rest: seq<byte>, sep: byte)
    requires sep !in e
    ensures Split(e + [sep] + rest, sep) == [e] + Split(rest, sep)
  {
    var s := e + [sep] + rest;
    assert s[..|e|] == e;
    FindAt(s, sep, |e|);
    assert s[|e| + 1..] == rest;
  }

  lemma {:induction false} JoinCons(e: seq<byte>, es: seq<seq<byte>>)
    ensures Join([e] + es) == e + [RS] + Join(es)
  {
    if es == [] {
      assert ([e] + es)[..0] == [];
      assert Join([e] + es) == [] + e + [RS];
      assert Join(es) == [];
    } else {
      var n := |es| - 1;
      JoinCons(e, es[..n]);
      assert ([e] + es)[..n + 1] == [e] + es[..n];
    }
  }

  lemma {:induction false} JoinCount(es: seq<seq<byte>>)
    ensures Count(Join(es), RS) >= |es|
    ensures Count(Join(es), RS) == |es| <==> forall i :: 0 <= i < |es| ==> RS !in es[i]
    ensures Join(es) == [] || Join(es)[|Join(es)| - 1] == RS
  {
    if es != [] {
      var n := |es| - 1;
      JoinCount(es[..n]);
      CountConcat(Join(es[..n]) + es[n], [RS], RS);
      CountConcat(Join(es[..n]), es[n], RS);
      CountZeroIff(es[n], RS);
      assert Count([RS], RS) == 1;
    }
  }

  lemma {:induction false} CleanRoundTrip(es: seq<seq<byte>>)
    requires forall i :: 0 <= i < |es| ==> RS !in es[i]
    ensures Split(Join(es), RS) == es
  {
    if es != [] {
      var rest := es[1..];
      CleanRoundTrip(rest);
      assert es == [es[0]] + rest;
      JoinCons(es[0], rest);
      SplitFirst(es[0], Join(rest), RS);
    }
  }

  /** The search list read back is the list of entries, empty ones included, iff no entry contains 0x1E. */
  lemma RoundTripIff(es: seq<seq<byte>>)
    ensures Split(Join(es), RS) == es <==> forall i :: 0 <= i < |es| ==> RS !in es[i]
  {
    JoinCount(es);
    PieceCount(Join(es), RS);
    if forall i :: 0 <= i < |es| ==> RS !in es[i] { CleanRoundTrip(es); }
  }

  // ---------------------------------------------------------------- what splitting any string yields

  /** Every piece followed by the separator. */
  function JoinEach(pieces: seq<seq<byte>>, sep: byte): seq<byte> {
    if pieces == [] then [] else pieces[0] + [sep] + JoinEach(pieces[1..], sep)
  }

  /**
    The pieces of any string hold no separator, and each followed by one they make up the string; the
    last one's separator may be missing there, as in "/a:/b".
    */
  lemma SplitMakesUp(s: seq<byte>, sep: byte)
    ensures forall i :: 0 <= i < |Split(s, sep)| ==> sep !in Split(s, sep)[i]
    ensures Split(s, sep) == [] <==> s == []
    ensures JoinEach(Split(s, sep), sep) == if s == [] || s[|s| - 1] == sep then s else s + [sep]
  {
    PiecesClean(s, sep);
    PiecesJoin(s, sep);
  }

  lemma {:induction false} PiecesClean(s: seq<byte>, sep: byte)
    ensures forall i :: 0 <= i < |Split(s, sep)| ==> sep !in Split(s, sep)[i]
    decreases |s|
  {
    if s != [] {
      var i := Find(s, sep);
      if i < |s| { PiecesClean(s[i + 1..], sep); } else { assert s[..i] == s; }
    }
  }

  lemma {:induction false} PiecesJoin(s: seq<byte>, sep: byte)
    ensures JoinEach(Split(s, sep), sep) == if s == [] || s[|s| - 1] == sep then s else s + [sep]
    decreases |s|
  {
    if s != [] {
      var i := Find(s, sep);
      if i < |s| {
        PiecesJoin(s[i + 1..], sep);
        JoinEachCons(s[..i], Split(s[i + 1..], sep), sep);
        PutBack(s, i, sep);
      } else {
        assert s[..i] == s;
        JoinEachCons(s, [], sep);
      }
    }
  }

  lemma JoinEachCons(piece: seq<byte>, pieces: seq<seq<byte>>, sep: byte)
    ensures JoinEach([piece] + pieces, sep) == piece + [sep] + JoinEach(pieces, sep)
  {
    assert ([piece] + pieces)[1..] == pieces;
  }

  lemma PutBack(s: seq<byte>, i: nat, sep: byte)
    requires i < |s| && s[i] == sep
    ensures var rest := s[i + 1..];
            s[..i] + [sep] + (if rest == [] || rest[|rest| - 1] == sep then rest else rest + [sep]) ==
            if s[|s| - 1] == sep then s else s + [sep]
  {
    var rest := s[i + 1..];
    if rest != [] { assert rest[|rest| - 1] == s[|s| - 1]; }
  }

  /** Separator-free pieces that make up a string in that way are its pieces. */
  lemma {:induction false} OnlySplit(pieces: seq<seq<byte>>, sep: byte)
    requires forall i :: 0 <= i < |pieces| ==> sep !in pieces[i]
    ensures Split(JoinEach(pieces, sep), sep) == pieces
  {
    if pieces != [] {
      OnlySplit(pieces[1..], sep);
      assert pieces == [pieces[0]] + pieces[1..];
      SplitFirst(pieces[0], JoinEach(pieces[1..], sep), sep);
    }
  }
}
