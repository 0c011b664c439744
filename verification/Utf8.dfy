/**
  `check_utf8`: the incremental UTF-8 check applied to strings passed in by a user program,
  compared with the grammar of section 4 of RFC 3629.
 */
module Utf8 {
  import opened Bits
  import opened Wrappers

  // ---------------------------------------------------------------- the grammar of RFC 3629

  predicate IsTail(b: byte) { 0x80 <= b <= 0xBF }

  predicate AllTails(s: seq<byte>) { forall i :: 0 <= i < |s| ==> IsTail(s[i]) }

  /** `UTF8-char`: UTF8-1 / UTF8-2 / UTF8-3 / UTF8-4. */
  predicate IsChar(s: seq<byte>) {
    || (|s| == 1 && s[0] <= 0x7F)
    || (|s| == 2 && 0xC2 <= s[0] <= 0xDF && IsTail(s[1]))
    || (|s| == 3 && IsTail(s[1]) && IsTail(s[2]) &&
        (|| (s[0] == 0xE0 && 0xA0 <= s[1])
         || 0xE1 <= s[0] <= 0xEC
         || (s[0] == 0xED && s[1] <= 0x9F)
         || 0xEE <= s[0] <= 0xEF))
    || (|s| == 4 && IsTail(s[1]) && IsTail(s[2]) && IsTail(s[3]) &&
        (|| (s[0] == 0xF0 && 0x90 <= s[1])
         || 0xF1 <= s[0] <= 0xF3
         || (s[0] == 0xF4 && s[1] <= 0x8F)))
  }

  /** `UTF8-octets = *( UTF8-char )`. */
  predicate WellFormed(s: seq<byte>) {
    s == [] || exists n :: 1 <= n <= 4 && n <= |s| && IsChar(s[..n]) && WellFormed(s[n..])
  }

  /** The length a lead byte announces; 0 for a byte that starts no character. */
  function LeadSize(b: byte): nat {
    if b < 0x80 then 1
    else if b < 0xC0 then 0
    else if b < 0xE0 then 2
    else if b < 0xF0 then 3
    else if b < 0xF8 then 4
    else 0
  }

  /** A lead byte followed by fewer continuation bytes than it announces. */
  predicate Truncated(p: seq<byte>) {
    |p| > 0 && |p| < LeadSize(p[0]) && AllTails(p[1..])
  }

  // ---------------------------------------------------------------- the incremental decoder

  /** `Inside(left, size, val)`: `left` more bytes are due of a character announced as `size` bytes long. */
  datatype Decoder = Between | Inside(left: nat, size: nat, val: nat)

  /** `char::from_u32(v)` followed by `len_utf8`. */
  function CharLen(v: nat): Option<nat> {
    if 0xD800 <= v < 0xE000 || v > 0x10FFFF then None
    else if v < 0x80 then Some(1)
    else if v < 0x800 then Some(2)
    else if v < 0x10000 then Some(3)
    else Some(4)
  }

  // Payload masks of a continuation byte and of the three kinds of lead byte.
  const TAIL_BITS: nat := 0x3F
  const LEAD2_BITS: nat := 0x1F
  const LEAD3_BITS: nat := 0xF
  const LEAD4_BITS: nat := 0x7

  function Feed(d: Decoder, b: byte): Option<Decoder> {
    match d
    case Inside(left, size, val) =>
      if !(0x80 <= b < 0xC0) || left == 0 then None
      else
        var v := Or(val * 64, And(b, TAIL_BITS));
        if left > 1 then Some(Inside(left - 1, size, v))
        else if CharLen(v) == Some(size) then Some(Between)
        else None
    case Between =>
      if b < 0x80 then Some(Between)
      else if b < 0xC0 then None
      else if b < 0xE0 then Some(Inside(1, 2, And(b, LEAD2_BITS)))
      else if b < 0xF0 then Some(Inside(2, 3, And(b, LEAD3_BITS)))
      else if b < 0xF8 then Some(Inside(3, 4, And(b, LEAD4_BITS)))
      else None
  }

  /** Feeding a whole string, one byte at a time, starting in `d`. */
  function Decode(d: Decoder, s: seq<byte>): Option<Decoder>
    decreases |s|
  {
    if s == [] then Some(d)
    else
      match Feed(d, s[0])
      case None => None
      case Some(d') => Decode(d', s[1..])
  }

  datatype CheckResult = Ok | InvalidUtf8 | AccessError

  const CHUNK: nat := 32  // 4 * size_of::<usize>()

  /** How far the chunked reads get when only the first `readable` bytes can be read. */
  function Reached(len: nat, readable: nat): (r: nat)
    ensures r <= len
  {
    if readable >= len then len else readable - readable % CHUNK
  }

  /** That is the longest readable part of the string that ends with it or at a chunk boundary. */
  lemma ReachedIsLongest(len: nat, readable: nat, p: nat)
    requires p <= len && p <= readable && (p == len || p % CHUNK == 0)
    ensures var r := Reached(len, readable); p <= r <= readable && (r == len || r % CHUNK == 0)
  {
  }

  /**
    The check itself: 32-byte chunks are copied in (a copy that would leave the readable prefix
    faults), and the pending character is carried across chunks.
    */
  method CheckUtf8(str: seq<byte>, readable: nat) returns (r: CheckResult)
    ensures var pre := str[..Reached(|str|, readable)]; r.InvalidUtf8? <==> !WellFormed(pre) && !EndsTruncated(pre)
    ensures r.Ok? <==> readable >= |str| && (WellFormed(str) || EndsTruncated(str))
  {
    var pos, len := 0, |str|;
    var left, size, val := 0, 0, 0;
    AcceptedLanguage(str[..Reached(|str|, readable)]);
    while len > 0
      invariant 0 <= pos <= |str| && pos + len == |str| && 0 <= len
      invariant pos % CHUNK == 0 || pos == |str|
      invariant pos <= readable
      invariant Decode(Between, str[..pos]) == Some(StateOf(left, size, val))
    {
      var tlen := if len < CHUNK then len else CHUNK;
      if pos + tlen > readable {
        ReachedAt(|str|, readable, pos);
        return AccessError;
      }
      ReachedBeyond(|str|, readable, pos, tlen);
      var bad;
      left, size, val, bad := CheckChunk(str, pos, tlen, left, size, val);
      if bad {
        RejectedEarly(str, pos + tlen, Reached(|str|, readable));
        AcceptedLanguage(str);
        return InvalidUtf8;
      }
      len := len - tlen;
      pos := pos + tlen;
    }
    assert str[..pos] == str;
    AcceptedLanguage(str);
    return Ok;
  }

  /** The bytes of one chunk. */
  method CheckChunk(str: seq<byte>, pos: nat, tlen: nat, left: nat, size: nat, val: nat)
    returns (left': nat, size': nat, val': nat, bad: bool)
    requires pos + tlen <= |str| && Decode(Between, str[..pos]) == Some(StateOf(left, size, val))
    ensures bad <==> Decode(Between, str[..pos + tlen]).None?
    ensures !bad ==> Decode(Between, str[..pos + tlen]) == Some(StateOf(left', size', val'))
  {
    left', size', val', bad := left, size, val, false;
    var buf := str[pos..pos + tlen];
    for i := 0 to tlen
      invariant Decode(Between, str[..pos + i]) == Some(StateOf(left', size', val')) && !bad
    {
      DecodeSnoc(Between, str, pos + i);
      left', size', val', bad := Accept(left', size', val', buf[i]);
      if bad {
        RejectedEarly(str, pos + i + 1, pos + tlen);
        return;
      }
    }
  }

  /** The match on one byte. */
  method Accept(left: nat, size: nat, val: nat, v: byte) returns (left': nat, size': nat, val': nat, bad: bool)
    ensures bad <==> Feed(StateOf(left, size, val), v).None?
    ensures !bad ==> Feed(StateOf(left, size, val), v) == Some(StateOf(left', size', val'))
  {
    left', size', val', bad := left, size, val, true;
    if 0x80 <= v < 0xC0 {
      if left != 0 {
        val' := Or(val * 64, And(v, TAIL_BITS));
        left' := left - 1;
        bad := left' == 0 && CharLen(val') != Some(size);
      }
    } else if left != 0 {
    } else if v < 0x80 {
      bad := false;
    } else if 0xC0 <= v < 0xE0 {
      left', size', val', bad := 1, 2, And(v, LEAD2_BITS), false;
    } else if 0xE0 <= v < 0xF0 {
      left', size', val', bad := 2, 3, And(v, LEAD3_BITS), false;
    } else if 0xF0 <= v < 0xF8 {
      left', size', val', bad := 3, 4, And(v, LEAD4_BITS), false;
    }
  }

  /** A rejected prefix decides the verdict on every longer one. */
  lemma RejectedEarly(str: seq<byte>, n: nat, longer: nat)
    requires n <= longer <= |str| && Decode(Between, str[..n]).None?
    ensures Decode(Between, str[..longer]).None? && Decode(Between, str).None?
  {
    assert str[..longer][..n] == str[..n];
    DecodePrefix(Between, str[..longer], n);
    DecodePrefix(Between, str, n);
  }

  /** The decoder state held in the loop's three variables. */
  function StateOf(left: nat, size: nat, val: nat): Decoder {
    if left == 0 then Between else Inside(left, size, val)
  }

  lemma ReachedAt(len: nat, readable: nat, pos: nat)
    requires pos % CHUNK == 0 && pos <= readable && pos < len
    requires pos + (if len - pos < CHUNK then len - pos else CHUNK) > readable
    ensures Reached(len, readable) == pos
  {
  }

  lemma ReachedBeyond(len: nat, readable: nat, pos: nat, tlen: nat)
    requires pos % CHUNK == 0 && pos + tlen <= readable && pos + tlen <= len
    requires tlen == (if len - pos < CHUNK then len - pos else CHUNK)
    ensures Reached(len, readable) >= pos + tlen
  {
  }

  /** The verdict on a prefix that fails is the verdict on the whole string. */
  lemma {:induction false} DecodePrefix(d: Decoder, s: seq<byte>, n: nat)
    requires n <= |s|
    ensures Decode(d, s[..n]).None? ==> Decode(d, s).None?
    decreases n
  {
    if n > 0 {
      var f := Feed(d, s[0]);
      if f.Some? {
        DecodePrefix(f.value, s[1..], n - 1);
        assert s[..n][1..] == s[1..][..n - 1];
      }
    }
  }

  lemma {:induction false} DecodeSnoc(d: Decoder, s: seq<byte>, n: nat)
    requires n < |s|
    ensures Decode(d, s[..n + 1]) ==
            (match Decode(d, s[..n])
             case None => None
             case Some(d') => Feed(d', s[n]))
    decreases n
  {
    var f := Feed(d, s[0]);
    if n > 0 {
      assert s[..n + 1][1..] == s[1..][..n];
      assert s[..n][1..] == s[1..][..n - 1];
      if f.Some? {
        DecodeSnoc(f.value, s[1..], n - 1);
      }
    } else {
      assert s[..1][1..] == [];
    }
  }

  // ---------------------------------------------------------------- which strings are accepted

  /** The value assembled from a lead byte's payload and continuation bytes. */
  lemma MaskFacts(b: byte)
    ensures And(b, TAIL_BITS) == b % 64 && And(b, LEAD2_BITS) == b % 32
    ensures And(b, LEAD3_BITS) == b % 16 && And(b, LEAD4_BITS) == b % 8
  {
    assert Pow2(3) == 8 && Pow2(4) == 16 && Pow2(5) == 32 && Pow2(6) == 64;
    AndLow(b, 6);
    AndLow(b, 5);
    AndLow(b, 4);
    AndLow(b, 3);
  }

  lemma ShiftFacts(x: nat, b: byte)
    ensures Or(x * 64, And(b, TAIL_BITS)) == x * 64 + b % 64
  {
    assert Pow2(6) == 64;
    MaskFacts(b);
    OrShifted(x, b % 64, 6);
  }

  lemma DecodeStep(d: Decoder, s: seq<byte>)
    requires |s| > 0
    ensures Decode(d, s) == (if Feed(d, s[0]).None? then None else Decode(Feed(d, s[0]).value, s[1..]))
  {
  }

  /** The payload bits of each kind of lead byte. */
  lemma LeadPayload(b: byte)
    ensures 0xC0 <= b < 0xE0 ==> And(b, LEAD2_BITS) == b - 0xC0
    ensures 0xE0 <= b < 0xF0 ==> And(b, LEAD3_BITS) == b - 0xE0
    ensures 0xF0 <= b < 0xF8 ==> And(b, LEAD4_BITS) == b - 0xF0
  {
    MaskFacts(b);
    LeadRemainders(b);
  }

  lemma LeadRemainders(b: byte)
    ensures 0xC0 <= b < 0xE0 ==> b % 32 == b - 0xC0
    ensures 0xE0 <= b < 0xF0 ==> b % 16 == b - 0xE0
    ensures 0xF0 <= b < 0xF8 ==> b % 8 == b - 0xF0
  {
  }

  /** The completion test passes exactly the grammar: no overlong form, surrogate or value above 0x10FFFF. */
  lemma TwoByteForms(b0: byte, b1: byte)
    requires 0xC0 <= b0 < 0xE0 && IsTail(b1)
    ensures CharLen((b0 - 0xC0) * 64 + (b1 - 0x80)) == Some(2) <==> IsChar([b0, b1])
  {
  }

  lemma ThreeByteForms(b0: byte, b1: byte, b2: byte)
    requires 0xE0 <= b0 < 0xF0 && IsTail(b1) && IsTail(b2)
    ensures CharLen(((b0 - 0xE0) * 64 + (b1 - 0x80)) * 64 + (b2 - 0x80)) == Some(3) <==> IsChar([b0, b1, b2])
  {
  }

  lemma FourByteForms(b0: byte, b1: byte, b2: byte, b3: byte)
    requires 0xF0 <= b0 < 0xF8 && IsTail(b1) && IsTail(b2) && IsTail(b3)
    ensures CharLen((((b0 - 0xF0) * 64 + (b1 - 0x80)) * 64 + (b2 - 0x80)) * 64 + (b3 - 0x80)) == Some(4)
            <==> IsChar([b0, b1, b2, b3])
  {
  }

  /** One continuation byte, with the shift and the masks evaluated. */
  lemma FeedInside(left: nat, size: nat, val: nat, b: byte)
    requires left > 0
    ensures !IsTail(b) ==> Feed(Inside(left, size, val), b) == None
    ensures IsTail(b) && left > 1 ==>
              Feed(Inside(left, size, val), b) == Some(Inside(left - 1, size, val * 64 + (b - 0x80)))
    ensures IsTail(b) && left == 1 ==>
              Feed(Inside(left, size, val), b) ==
              (if CharLen(val * 64 + (b - 0x80)) == Some(size) then Some(Between) else None)
  {
    if IsTail(b) { TailValue(val, b); }
  }

  lemma TailValue(val: nat, b: byte)
    requires IsTail(b)
    ensures Or(val * 64, And(b, TAIL_BITS)) == val * 64 + (b - 0x80)
  {
    ShiftFacts(val, b);
    TailRemainder(b);
  }

  lemma TailRemainder(b: byte)
    requires IsTail(b)
    ensures b % 64 == b - 0x80
  {
  }

  /** Decoding past one continuation byte. */
  lemma DecodeTail(left: nat, size: nat, val: nat, s: seq<byte>)
    requires left > 0 && |s| > 0
    ensures !IsTail(s[0]) ==> Decode(Inside(left, size, val), s) == None
    ensures IsTail(s[0]) && left > 1 ==>
              Decode(Inside(left, size, val), s) == Decode(Inside(left - 1, size, val * 64 + (s[0] - 0x80)), s[1..])
    ensures IsTail(s[0]) && left == 1 ==>
              Decode(Inside(left, size, val), s) ==
              (if CharLen(val * 64 + (s[0] - 0x80)) == Some(size) then Decode(Between, s[1..]) else None)
  {
    DecodeStep(Inside(left, size, val), s);
    FeedInside(left, size, val, s[0]);
  }

  lemma DecodeTwo(s: seq<byte>)
    requires |s| >= 2 && 0xC0 <= s[0] < 0xE0
    ensures Decode(Between, s) == (if IsChar(s[..2]) then Decode(Between, s[2..]) else None)
  {
    LeadPayload(s[0]);
    DecodeStep(Between, s);
    DecodeTail(1, 2, s[0] - 0xC0, s[1..]);
    assert s[1..][1..] == s[2..] && s[..2] == [s[0], s[1]];
    if IsTail(s[1]) { TwoByteForms(s[0], s[1]); }
  }

  /** Decoding past the last two, and the last three, continuation bytes. */
  lemma DecodeTails2(size: nat, val: nat, t: seq<byte>)
    requires |t| >= 2
    ensures Decode(Inside(2, size, val), t) ==
            (if IsTail(t[0]) && IsTail(t[1]) && CharLen((val * 64 + (t[0] - 0x80)) * 64 + (t[1] - 0x80)) == Some(size)
             then Decode(Between, t[2..]) else None)
  {
    DecodeTail(2, size, val, t);
    if IsTail(t[0]) {
      DecodeTail(1, size, val * 64 + (t[0] - 0x80), t[1..]);
      assert t[1..][1..] == t[2..];
    }
  }

  lemma DecodeTails3(size: nat, val: nat, t: seq<byte>)
    requires |t| >= 3
    ensures Decode(Inside(3, size, val), t) ==
            (if IsTail(t[0]) && IsTail(t[1]) && IsTail(t[2]) &&
                CharLen(((val * 64 + (t[0] - 0x80)) * 64 + (t[1] - 0x80)) * 64 + (t[2] - 0x80)) == Some(size)
             then Decode(Between, t[3..]) else None)
  {
    DecodeTail(3, size, val, t);
    if IsTail(t[0]) {
      DecodeTails2(size, val * 64 + (t[0] - 0x80), t[1..]);
      assert t[1..][2..] == t[3..];
    }
  }

  lemma DecodeThree(s: seq<byte>)
    requires |s| >= 3 && 0xE0 <= s[0] < 0xF0
    ensures Decode(Between, s) == (if IsChar(s[..3]) then Decode(Between, s[3..]) else None)
  {
    LeadPayload(s[0]);
    DecodeStep(Between, s);
    DecodeTails2(3, s[0] - 0xE0, s[1..]);
    assert s[1..][2..] == s[3..] && s[..3] == [s[0], s[1], s[2]];
    if IsTail(s[1]) && IsTail(s[2]) { ThreeByteForms(s[0], s[1], s[2]); }
  }

  lemma DecodeFour(s: seq<byte>)
    requires |s| >= 4 && 0xF0 <= s[0] < 0xF8
    ensures Decode(Between, s) == (if IsChar(s[..4]) then Decode(Between, s[4..]) else None)
  {
    LeadPayload(s[0]);
    DecodeStep(Between, s);
    DecodeTails3(4, s[0] - 0xF0, s[1..]);
    assert s[1..][3..] == s[4..] && s[..4] == [s[0], s[1], s[2], s[3]];
    if IsTail(s[1]) && IsTail(s[2]) && IsTail(s[3]) { FourByteForms(s[0], s[1], s[2], s[3]); }
  }

  /** A string long enough for its first character is accepted iff that character is and the rest is. */
  lemma DecodeChar(s: seq<byte>)
    requires |s| > 0 && 1 <= LeadSize(s[0]) <= |s|
    ensures Decode(Between, s) ==
            (if IsChar(s[..LeadSize(s[0])]) then Decode(Between, s[LeadSize(s[0])..]) else None)
  {
    match LeadSize(s[0])
    case 1 => DecodeStep(Between, s);
    case 2 => DecodeTwo(s);
    case 3 => DecodeThree(s);
    case _ => DecodeFour(s);
  }

  /** A string shorter than its first character is accepted iff it is a lead byte and continuation bytes. */
  lemma DecodeShort(s: seq<byte>)
    requires |s| > 0 && |s| < LeadSize(s[0])
    ensures Decode(Between, s).Some? <==> Truncated(s)
    ensures Decode(Between, s) != Some(Between)
  {
    var d1 := Feed(Between, s[0]).value;
    if |s| >= 2 {
      DecodeStep(d1, s[1..]);
      assert s[1..][0] == s[1];
      assert s[1..][1..] == s[2..];
      if |s| >= 3 && IsTail(s[1]) {
        var d2 := Feed(d1, s[1]).value;
        DecodeStep(d2, s[2..]);
        assert s[1..][1] == s[2];
        assert s[2..][1..] == s[3..] == [];
      }
    }
  }

  lemma CharLead(s: seq<byte>, n: nat)
    requires 1 <= n <= |s| && IsChar(s[..n])
    ensures LeadSize(s[0]) == n
  {
  }

  /** A string is well formed iff decoding it succeeds and ends between characters. */
  lemma {:induction false} WellFormedIffBetween(s: seq<byte>)
    ensures WellFormed(s) <==> Decode(Between, s) == Some(Between)
  {
    if s != [] {
      var k := LeadSize(s[0]);
      if 1 <= k <= |s| {
        DecodeChar(s);
        WellFormedIffBetween(s[k..]);
        if WellFormed(s) {
          var n :| 1 <= n <= 4 && n <= |s| && IsChar(s[..n]) && WellFormed(s[n..]);
          CharLead(s, n);
        }
      } else {
        if k > |s| { DecodeShort(s); }
        forall n | 1 <= n <= 4 && n <= |s|
          ensures !IsChar(s[..n])
        {
        }
      }
    }
  }

  /** A string is accepted without being well formed iff it is well formed up to one truncated character. */
  ghost predicate EndsTruncated(s: seq<byte>) {
    exists n :: 0 <= n < |s| && WellFormed(s[..n]) && Truncated(s[n..])
  }

  lemma {:induction false} TruncatedIffInside(s: seq<byte>)
    ensures EndsTruncated(s) <==> Decode(Between, s).Some? && Decode(Between, s) != Some(Between)
  {
    if EndsTruncated(s) {
      var n :| 0 <= n < |s| && WellFormed(s[..n]) && Truncated(s[n..]);
      WellFormedIffBetween(s[..n]);
      DecodeAppend(Between, s[..n], s[n..]);
      assert s[..n] + s[n..] == s;
      DecodeShort(s[n..]);
    }
    if s != [] && Decode(Between, s).Some? && Decode(Between, s) != Some(Between) {
      FindTruncated(s);
    }
  }

  lemma {:induction false} FindTruncated(s: seq<byte>)
    requires Decode(Between, s).Some? && Decode(Between, s) != Some(Between)
    ensures EndsTruncated(s)
  {
    var k := LeadSize(s[0]);
    if k > |s| {
      DecodeShort(s);
      assert s[..0] == [] && s[0..] == s;
    } else {
      DecodeChar(s);
      FindTruncated(s[k..]);
      var m :| 0 <= m < |s[k..]| && WellFormed(s[k..][..m]) && Truncated(s[k..][m..]);
      PrependChar(s, k, m);
      assert s[k + m..] == s[k..][m..];
    }
  }

  lemma PrependChar(s: seq<byte>, k: nat, m: nat)
    requires 1 <= k <= 4 && k + m <= |s| && IsChar(s[..k]) && WellFormed(s[k..][..m])
    ensures WellFormed(s[..k + m])
  {
    var t := s[..k + m];
    assert t[..k] == s[..k] && t[k..] == s[k..][..m];
  }

  lemma {:induction false} DecodeAppend(d: Decoder, s: seq<byte>, t: seq<byte>)
    ensures Decode(d, s + t) ==
            (match Decode(d, s) case None => None case Some(d') => Decode(d', t))
    decreases |s|
  {
    if s == [] {
      assert s + t == t;
    } else {
      assert (s + t)[0] == s[0] && (s + t)[1..] == s[1..] + t;
      var f := Feed(d, s[0]);
      if f.Some? { DecodeAppend(f.value, s[1..], t); }
    }
  }

  /**
    The exact language of the check, when every byte can be read: the well-formed strings of
    RFC 3629, and the well-formed strings followed by one truncated character.
    */
  lemma AcceptedLanguage(s: seq<byte>)
    ensures Decode(Between, s).Some? <==> WellFormed(s) || EndsTruncated(s)
    ensures !(WellFormed(s) && EndsTruncated(s))
  {
    WellFormedIffBetween(s);
    TruncatedIffInside(s);
  }

  /** "é" cut after its first byte is accepted although it is not UTF-8. */
  lemma TruncationIsAccepted()
    ensures Decode(Between, [0xC3]).Some? && !WellFormed([0xC3])
  {
    var s: seq<byte> := [0xC3];
    DecodeShort(s);
    AcceptedLanguage(s);
    assert s[..0] == [] && s[0..] == s;
    assert EndsTruncated(s);
  }

  /** A well-formed string holds no byte at or above 0xF5; so 0xFE and 0xFF are free for use as terminators. */
  lemma {:induction false} NoHighBytes(s: seq<byte>)
    requires WellFormed(s)
    ensures forall i :: 0 <= i < |s| ==> s[i] < 0xF5
  {
    if s != [] {
      var n :| 1 <= n <= 4 && n <= |s| && IsChar(s[..n]) && WellFormed(s[n..]);
      NoHighBytes(s[n..]);
      forall i | 0 <= i < |s|
        ensures s[i] < 0xF5
      {
        if i < n {
          assert s[i] == s[..n][i];
        } else {
          assert s[i] == s[n..][i - n];
        }
      }
    }
  }
}
