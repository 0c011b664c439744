/** `BufFdReader`: a 128-byte buffer over a file descriptor, and reading it line by line. */
module LineReader {
  import opened Bits

  const NEWLINE: byte := 0x0A
  const BUFFER: nat := 128

  datatype LineResult = Line(len: nat) | End | Error

  /** The first newline, or the length. */
  function Eol(s: seq<byte>): (r: nat)
    ensures r <= |s| && NEWLINE !in s[..r] && (r < |s| ==> s[r] == NEWLINE)
  {
    if s == [] || s[0] == NEWLINE then 0
    else
      var r := 1 + Eol(s[1..]);
      assert s[..r] == [s[0]] + s[1..][..r - 1];
      r
  }

  lemma EolAt(s: seq<byte>, i: nat)
    requires i <= |s| && NEWLINE !in s[..i] && (i < |s| ==> s[i] == NEWLINE)
    ensures Eol(s) == i
  {
  }

  lemma EolBeyond(s: seq<byte>, i: nat)
    requires i <= |s| && NEWLINE !in s[..i]
    ensures Eol(s) >= i
  {
  }

  /** The next line is terminated and fits a buffer of `cap` bytes. */
  predicate NextFits(s: seq<byte>, cap: nat) { Eol(s) < |s| && Eol(s) <= cap }

  /** Every line is terminated and fits. */
  predicate AllFit(s: seq<byte>, cap: nat)
    decreases |s|
  {
    s == [] || (NextFits(s, cap) && AllFit(s[Eol(s) + 1..], cap))
  }

  /** One of the kernel's answers to the calls from `lo` on, before `hi`, was an error. */
  ghost predicate AnyError(kernel: seq<int>, lo: nat, hi: nat) {
    exists i :: lo <= i < hi && i < |kernel| && kernel[i] < 0
  }

  /** What a `read` delivers of `n` bytes: as many as the answer says, but some if there are any. */
  function Delivered(answer: int, n: nat): (r: nat)
    ensures r <= n && r <= BUFFER && (r == 0 <==> n == 0)
  {
    var most := if n < BUFFER then n else BUFFER;
    if 0 < answer < most then answer else most
  }

  class BufFdReader {
    var unread: seq<byte>  // what the descriptor will still deliver
    const kernel: seq<int>  // the kernel's answers to the first `read` calls, below 0 for an error
    var calls: nat
    const buf: array<byte>
    var pos: nat
    var len: nat

    ghost predicate Valid()
      reads this
    {
      buf.Length == BUFFER && pos <= len <= BUFFER
    }

    /** All bytes still to come. */
    ghost function Pending(): seq<byte>
      requires Valid()
      reads this, buf
    {
      buf[pos..len] + unread
    }

    constructor (stream: seq<byte>, kernel: seq<int>)
      ensures Valid() && Pending() == stream && fresh(buf) && this.kernel == kernel && calls == 0
    {
      this.kernel := kernel;
      unread, pos, len, calls := stream, 0, 0, 0;
      buf := new byte[BUFFER](_ => 0);
    }

    /** Fails iff the buffer is empty and the kernel's answer to the one `read` is an error. */
    method FillBuf() returns (ok: bool)
      requires Valid()
      modifies this, buf
      ensures Valid() && Pending() == old(Pending())
      ensures calls == old(calls) + (if old(pos) == old(len) then 1 else 0)
      ensures !ok <==> AnyError(kernel, old(calls), calls)
      ensures ok ==> (pos == len <==> Pending() == [])
    {
      if pos == len {
        var answer := if calls < |kernel| then kernel[calls] else 0;
        calls := calls + 1;
        if answer < 0 { return false; }
        var got := Delivered(answer, |unread|);
        forall i | 0 <= i < got {
          buf[i] := unread[i];
        }
        assert buf[..got] == unread[..got];
        assert old(buf[pos..len]) == [];
        len, pos := got, 0;
        unread := unread[got..];
        assert buf[0..got] == buf[..got];
      }
      return true;
    }

    method Consume(amt: nat)
      requires Valid() && pos + amt <= len
      modifies this`pos
      ensures Valid() && Pending() == old(Pending())[amt..]
    {
      pos := pos + amt;
      assert buf[pos..len] == old(buf[pos..len])[amt..];
    }

    /**
      `read_line_static`.  With `s` the bytes to come, a line that is terminated and fits is
      returned and taken off; otherwise either everything is dropped and `End` returned, or the
      buffer is filled and one byte may be lost.
      */
    method ReadLine(n: array<byte>) returns (r: LineResult)
      requires Valid() && n != buf
      modifies this, buf, n
      ensures Valid() && old(calls) <= calls && (r.Error? <==> AnyError(kernel, old(calls), calls))
      ensures !r.Error? && NextFits(old(Pending()), n.Length) ==>
                var s := old(Pending());
                r == Line(Eol(s)) && n[..Eol(s)] == s[..Eol(s)] && Pending() == s[Eol(s) + 1..]
      ensures r.End? ==> Pending() == [] && !NextFits(old(Pending()), n.Length)
      ensures r.Line? && !NextFits(old(Pending()), n.Length) ==>
                var s := old(Pending());
                && r.len == n.Length < |s| && n[..] == s[..n.Length] && NEWLINE !in s[..n.Length + 1]
                && (Pending() == s[n.Length..] || Pending() == s[n.Length + 1..])
    {
      ghost var s := Pending();
      assert s[0..] == s;
      var at := 0;
      while true
        invariant Valid() && 0 <= at <= n.Length && at <= |s|
        invariant n[..at] == s[..at] && NEWLINE !in s[..at]
        invariant Pending() == s[at..]
        invariant old(calls) <= calls && !AnyError(kernel, old(calls), calls)
        decreases |s| - at
      {
        ghost var before := calls;
        var ok := FillBuf();
        ErrorsAdd(kernel, old(calls), before, calls);
        if !ok { return Error; }
        if pos == len {
          assert s[..at] == s;
          EolBeyond(s, at);
          return End;
        }
        var done;
        at, done := TakeChunk(n, at, s);
        if done { return Line(at); }
      }
    }

    /** One round of the loop: search the buffered bytes, copy what fits, consume it and the newline. */
    method TakeChunk(n: array<byte>, at: nat, ghost s: seq<byte>) returns (end: nat, done: bool)
      requires Valid() && n != buf && pos < len && at <= n.Length && at <= |s|
      requires n[..at] == s[..at] && NEWLINE !in s[..at] && Pending() == s[at..]
      modifies this`pos, n
      ensures Valid() && at <= end <= n.Length && end <= |s| && n[..end] == s[..end] && NEWLINE !in s[..end]
      ensures !done ==> at < end && Pending() == s[end..]
      ensures done && Eol(s) <= n.Length ==> Eol(s) == end < |s| && Pending() == s[end + 1..]
      ensures done && Eol(s) > n.Length ==>
                && end == n.Length < |s| && NEWLINE !in s[..n.Length + 1]
                && (Pending() == s[end..] || Pending() == s[end + 1..])
    {
      var chunk := buf[pos..len];
      var maxLen := FindNewline(chunk);
      var found := maxLen < |chunk|;
      var tail := n.Length - at;
      var realLen := if maxLen < tail then maxLen else tail;
      end := at + realLen;
      done := tail < maxLen || found;
      ChunkTaken(s, at, chunk, unread, maxLen, realLen, n.Length);
      CopyToSliceHead(n, at, chunk[..realLen]);
      assert n[..end] == s[..end];
      if found {
        Consume(realLen + 1);
        assert Pending() == s[end + 1..];
      } else {
        Consume(realLen);
        assert Pending() == s[end..];
      }
    }
  }

  lemma ErrorsAdd(kernel: seq<int>, lo: nat, mid: nat, hi: nat)
    requires lo <= mid <= hi
    ensures AnyError(kernel, lo, hi) <==> AnyError(kernel, lo, mid) || AnyError(kernel, mid, hi)
  {
  }

  /** `copy_to_slice_head` into `dest[at..]`. */
  method CopyToSliceHead(dest: array<byte>, at: nat, src: seq<byte>)
    requires at + |src| <= dest.Length
    modifies dest
    ensures dest[..at + |src|] == old(dest[..at]) + src && dest[at + |src|..] == old(dest[at + |src|..])
  {
    forall i | 0 <= i < |src| {
      dest[at + i] := src[i];
    }
  }

  /** What one round leaves: `k` bytes of the chunk were copied, and the newline consumed if the chunk has one. */
  lemma ChunkTaken(s: seq<byte>, at: nat, chunk: seq<byte>, rest: seq<byte>, maxLen: nat, k: nat, cap: nat)
    requires at <= |s| && at <= cap && s[at..] == chunk + rest && NEWLINE !in s[..at] && 0 < |chunk|
    requires maxLen <= |chunk| && NEWLINE !in chunk[..maxLen] && (maxLen < |chunk| ==> chunk[maxLen] == NEWLINE)
    requires k == if maxLen < cap - at then maxLen else cap - at
    ensures at + k <= |s| && s[..at + k] == s[..at] + chunk[..k] && NEWLINE !in s[..at + k]
    ensures s[at..][k..] == s[at + k..]
    ensures maxLen < |chunk| ==> at + k + 1 <= |s| && s[at..][k + 1..] == s[at + k + 1..]
    ensures cap - at < maxLen ==> Eol(s) > cap && at + k == cap < |s| && NEWLINE !in s[..cap + 1]
    ensures maxLen < |chunk| && maxLen <= cap - at ==> Eol(s) == at + k < |s|
  {
    Advance(s, at, chunk, rest, k);
    LineEnds(s, at, chunk, rest, maxLen, cap);
    NoNewlineBefore(s, at + k, at + maxLen);
    if maxLen < |chunk| { Skip(s, at, k + 1); }
  }

  lemma NoNewlineBefore(s: seq<byte>, i: nat, j: nat)
    requires i <= j <= |s| && NEWLINE !in s[..j]
    ensures NEWLINE !in s[..i]
  {
    assert s[..i] == s[..j][..i];
  }

  method FindNewline(chunk: seq<byte>) returns (r: nat)
    ensures r <= |chunk| && NEWLINE !in chunk[..r] && (r < |chunk| ==> chunk[r] == NEWLINE)
  {
    r := 0;
    while r < |chunk| && chunk[r] != NEWLINE
      invariant 0 <= r <= |chunk| && NEWLINE !in chunk[..r]
    {
      assert chunk[..r + 1] == chunk[..r] + [chunk[r]];
      r := r + 1;
    }
  }

  lemma Skip(s: seq<byte>, at: nat, k: nat)
    requires at + k <= |s|
    ensures s[at..][k..] == s[at + k..]
  {
  }

  /** Copying bytes of a chunk that hold no newline. */
  lemma Advance(s: seq<byte>, at: nat, chunk: seq<byte>, rest: seq<byte>, k: nat)
    requires at <= |s| && s[at..] == chunk + rest && k <= |chunk|
    ensures |s| == at + |chunk| + |rest|
    ensures forall i :: 0 <= i < |chunk| ==> s[at + i] == chunk[i]
    ensures s[..at + k] == s[..at] + chunk[..k]
    ensures s[at..][k..] == s[at + k..]
  {
    assert forall i :: 0 <= i < |chunk| ==> s[at..][i] == chunk[i];
  }

  /** Where the newline is, once a chunk has been searched. */
  lemma LineEnds(s: seq<byte>, at: nat, chunk: seq<byte>, rest: seq<byte>, maxLen: nat, cap: nat)
    requires at <= |s| && at <= cap && s[at..] == chunk + rest && NEWLINE !in s[..at]
    requires maxLen <= |chunk| && NEWLINE !in chunk[..maxLen] && (maxLen < |chunk| ==> chunk[maxLen] == NEWLINE)
    ensures at + maxLen <= |s| && NEWLINE !in s[..at + maxLen]
    ensures maxLen < |chunk| ==> Eol(s) == at + maxLen < |s|
    ensures at + maxLen > cap ==> cap < |s| && NEWLINE !in s[..cap + 1] && Eol(s) > cap
  {
    Advance(s, at, chunk, rest, maxLen);
    assert s[..at + maxLen] == s[..at] + chunk[..maxLen];
    if maxLen < |chunk| { EolAt(s, at + maxLen); }
    if at + maxLen > cap {
      NoNewlineBefore(s, cap + 1, at + maxLen);
      EolBeyond(s, cap + 1);
    }
  }

  // ---------------------------------------------------------------- a whole stream

  function Unlines(lines: seq<seq<byte>>): seq<byte> {
    if lines == [] then [] else Unlines(lines[..|lines| - 1]) + lines[|lines| - 1] + [NEWLINE]
  }

  predicate NewlineFree(lines: seq<seq<byte>>) { forall i :: 0 <= i < |lines| ==> NEWLINE !in lines[i] }

  /** The newline-terminated lines of `s`, without their newlines. */
  function LinesOf(s: seq<byte>): seq<seq<byte>>
    decreases |s|
  {
    if Eol(s) == |s| then [] else [s[..Eol(s)]] + LinesOf(s[Eol(s) + 1..])
  }

  lemma {:induction false} UnlinesCons(line: seq<byte>, rest: seq<seq<byte>>)
    ensures Unlines([line] + rest) == line + [NEWLINE] + Unlines(rest)
  {
    var all := [line] + rest;
    if rest == [] {
      assert all[..0] == [];
    } else {
      var n := |rest| - 1;
      UnlinesCons(line, rest[..n]);
      assert all[..|all| - 1] == [line] + rest[..n];
    }
  }

  /** Newline-free lines that make up a stream are exactly its lines, in order. */
  lemma {:induction false} OnlyOneSplit(lines: seq<seq<byte>>)
    requires NewlineFree(lines)
    ensures LinesOf(Unlines(lines)) == lines
  {
    if lines != [] {
      var line, rest := lines[0], lines[1..];
      var s := Unlines(lines);
      assert lines == [line] + rest;
      UnlinesCons(line, rest);
      assert s[..|line|] == line && s[|line| + 1..] == Unlines(rest);
      EolAt(s, |line|);
      OnlyOneSplit(rest);
    }
  }

  /**
    Reading lines until `None`, as `read_config_file` does.  Without a read error, the lines put
    together again are the stream iff every line of it is terminated and fits the buffer.  It fails iff
    one of the kernel's answers was an error.
    */
  method ReadAll(reader: BufFdReader, cap: nat) returns (lines: seq<seq<byte>>, failed: bool)
    requires reader.Valid() && cap > 0
    modifies reader, reader.buf
    ensures !failed ==> (Unlines(lines) == old(reader.Pending()) <==> AllFit(old(reader.Pending()), cap))
    ensures NewlineFree(lines)
    ensures old(reader.calls) <= reader.calls
    ensures failed <==> AnyError(reader.kernel, old(reader.calls), reader.calls)
  {
    ghost var s := reader.Pending();
    var n := new byte[cap];
    lines, failed := [], false;
    while true
      invariant reader.Valid() && n.Length == cap && fresh(n)
      invariant Tracked(lines, reader.Pending(), s, cap)
      invariant old(reader.calls) <= reader.calls && !AnyError(reader.kernel, old(reader.calls), reader.calls)
      decreases |reader.Pending()|
    {
      ghost var before := reader.calls;
      var r, line := NextLine(reader, n, lines, s);
      ErrorsAdd(reader.kernel, old(reader.calls), before, reader.calls);
      if r.Error? { return lines, true; }
      if r.End? { return; }
      lines := lines + [line];
    }
  }

  /** One round of the loop. */
  method NextLine(reader: BufFdReader, n: array<byte>, ghost lines: seq<seq<byte>>, ghost s: seq<byte>)
    returns (r: LineResult, line: seq<byte>)
    requires reader.Valid() && n != reader.buf && n.Length > 0 && Tracked(lines, reader.Pending(), s, n.Length)
    modifies reader, reader.buf, n
    ensures reader.Valid() && old(reader.calls) <= reader.calls
    ensures r.Error? <==> AnyError(reader.kernel, old(reader.calls), reader.calls)
    ensures r.Line? ==>
              && Tracked(lines + [line], reader.Pending(), s, n.Length)
              && |reader.Pending()| < |old(reader.Pending())|
    ensures r.End? ==> (Unlines(lines) == s <==> AllFit(s, n.Length))
  {
    ghost var p := reader.Pending();
    r := reader.ReadLine(n);
    line := [];
    if r.Line? {
      line := n[..r.len];
      OneMoreLine(lines, p, s, n.Length, line, reader.Pending());
    } else if r.End? {
      AtTheEnd(lines, p, s, n.Length);
    }
  }

  /** What holds of the lines read so far, the bytes to come and the whole stream. */
  ghost predicate Tracked(lines: seq<seq<byte>>, p: seq<byte>, s: seq<byte>, cap: nat) {
    (OnTrack(lines, p, s, cap) || OffTrack(lines, s, cap)) && NewlineFree(lines)
  }

  lemma AtTheEnd(lines: seq<seq<byte>>, p: seq<byte>, s: seq<byte>, cap: nat)
    requires Tracked(lines, p, s, cap) && !NextFits(p, cap)
    ensures Unlines(lines) == s <==> AllFit(s, cap)
  {
    if OnTrack(lines, p, s, cap) {
      assert AllFit(p, cap) <==> p == [];
      assert |Unlines(lines) + p| == |Unlines(lines)| + |p|;
    }
  }

  /** The lines read so far and the bytes to come make up the stream. */
  ghost predicate OnTrack(lines: seq<seq<byte>>, p: seq<byte>, s: seq<byte>, cap: nat) {
    Unlines(lines) + p == s && (AllFit(s, cap) <==> AllFit(p, cap))
  }

  /** The lines read so far are not how the stream begins. */
  ghost predicate OffTrack(lines: seq<seq<byte>>, s: seq<byte>, cap: nat) {
    !AllFit(s, cap) && !(Unlines(lines) <= s)
  }

  lemma OneMoreLine(lines: seq<seq<byte>>, p: seq<byte>, s: seq<byte>, cap: nat, line: seq<byte>, p': seq<byte>)
    requires Tracked(lines, p, s, cap)
    requires NextFits(p, cap) ==> line == p[..Eol(p)] && p' == p[Eol(p) + 1..]
    requires !NextFits(p, cap) ==> cap < |p| && line == p[..cap] && NEWLINE !in p[..cap + 1]
    ensures Tracked(lines + [line], p', s, cap)
  {
    assert NEWLINE !in line;
    UnlinesSnoc(lines, line);
    if !OnTrack(lines, p, s, cap) {
      StaysOff(Unlines(lines), line, s);
    } else if NextFits(p, cap) {
      GoodLine(Unlines(lines), p, Eol(p));
    } else {
      LongLine(Unlines(lines), p, line, cap);
    }
  }

  lemma StaysOff(u: seq<byte>, line: seq<byte>, s: seq<byte>)
    requires !(u <= s)
    ensures !(u + (line + [NEWLINE]) <= s)
  {
    if u + (line + [NEWLINE]) <= s { PrefixTrans(u, line + [NEWLINE], s); }
  }

  lemma UnlinesSnoc(lines: seq<seq<byte>>, line: seq<byte>)
    ensures Unlines(lines + [line]) == Unlines(lines) + (line + [NEWLINE])
  {
    assert (lines + [line])[..|lines|] == lines;
  }

  lemma GoodLine(u: seq<byte>, p: seq<byte>, e: nat)
    requires e < |p| && p[e] == NEWLINE
    ensures u + p == u + (p[..e] + [NEWLINE]) + p[e + 1..]
  {
    assert p == p[..e] + [p[e]] + p[e + 1..];
  }

  lemma LongLine(u: seq<byte>, p: seq<byte>, line: seq<byte>, cap: nat)
    requires cap < |p| && line == p[..cap] && NEWLINE !in p[..cap + 1]
    ensures !(u + (line + [NEWLINE]) <= u + p)
  {
    var v := u + (line + [NEWLINE]);
    assert p[..cap + 1][cap] == p[cap];
    assert v[|u| + cap] == NEWLINE && (u + p)[|u| + cap] == p[cap];
  }

  lemma PrefixTrans(u: seq<byte>, x: seq<byte>, s: seq<byte>)
    requires u + x <= s
    ensures u <= s
  {
    assert u == (u + x)[..|u|];
    assert s[..|u|] == s[..|u + x|][..|u|];
  }
}
