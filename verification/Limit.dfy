/** Keeping text within a number of bytes: cutting at either end, and a buffer that keeps the end. */
module Limit {
  import opened Ints
  import opened Utf8

  // The characters of the two marks.
  const DOTS: seq<Byte> := [0xE2, 0x80, 0xA6]
  const OPEN: seq<Byte> := [0xEF, 0xBC, 0x88]
  const BELOW: seq<Byte> := [0xE4, 0xBB, 0xA5, 0xE4, 0xB8, 0x8B]
  const BEFORE: seq<Byte> := [0xE5, 0x89, 0x8D]
  const OMITTED: seq<Byte> := [0xE7, 0x95, 0xA5]
  const CLOSE: seq<Byte> := [0xEF, 0xBC, 0x89]

  /** The mark for a cut end: three dots, and "the rest omitted" in brackets. */
  function Suffix(): seq<Byte> {
    DOTS + (OPEN + (BELOW + (OMITTED + CLOSE)))
  }

  /** The mark for a cut start: "the beginning omitted" in brackets, and three dots. */
  function Prefix(): seq<Byte> {
    OPEN + (BEFORE + (OMITTED + (CLOSE + DOTS)))
  }

  // ---- Cutting ----

  function DropAtEnd(s: seq<Byte>): seq<Byte> {
    if s == [] || LastRune(s) > 0 then s else DropAtEnd(s[..|s| - 1])
  }

  function DropAtStart(s: seq<Byte>): seq<Byte> {
    if s == [] || FirstRune(s) > 0 then s else DropAtStart(s[1..])
  }

  method DropPartialRuneAtEnd(s0: seq<Byte>) returns (s: seq<Byte>)
    ensures s == DropAtEnd(s0)
  {
    s := s0;
    while s != []
      invariant DropAtEnd(s) == DropAtEnd(s0)
      decreases |s|
    {
      if LastRune(s) > 0 {
        break;
      }
      s := s[..|s| - 1];
    }
  }

  method DropPartialRuneAtStart(s0: seq<Byte>) returns (s: seq<Byte>)
    ensures s == DropAtStart(s0)
  {
    s := s0;
    while s != []
      invariant DropAtStart(s) == DropAtStart(s0)
      decreases |s|
    {
      if FirstRune(s) > 0 {
        break;
      }
      s := s[1..];
    }
  }

  /** `p` is the longest valid beginning of `s` with at most `n` bytes. */
  ghost predicate LongestStart(p: seq<Byte>, s: seq<Byte>, n: nat) {
    && p <= s && |p| <= n && Valid(p)
    && forall k :: 0 <= k <= n && k <= |s| && Valid(s[..k]) ==> k <= |p|
  }

  /** `p` is the longest valid end of `s` with at most `n` bytes. */
  ghost predicate LongestEnd(p: seq<Byte>, s: seq<Byte>, n: nat) {
    && |p| <= |s| && p == s[|s| - |p|..] && |p| <= n && Valid(p)
    && forall c :: 0 <= c <= |s| && |s| - c <= n && Valid(s[c..]) ==> |s| - c <= |p|
  }

  lemma {:induction false} DropAtEndLongest(s: seq<Byte>, n: nat)
    requires Valid(s) && n <= |s|
    ensures LongestStart(DropAtEnd(s[..n]), s, n)
  {
    hide LastRune, Valid, FirstRune, Boundary;
    var p := s[..n];
    if n == 0 {
      NothingIsValid();
    } else {
      RuneEndsAtBoundary(s, n);
      if LastRune(p) > 0 {
        BoundarySplits(s, n);
      } else {
        assert p[..n - 1] == s[..n - 1];
        DropAtEndLongest(s, n - 1);
        if Valid(s[..n]) {
          ValidPrefixAtBoundary(s, n);
        }
      }
    }
  }

  lemma NothingIsValid()
    ensures Valid([])
  {
  }

  lemma {:induction false} DropAtStartLongest(s: seq<Byte>, n: nat)
    requires Valid(s) && n <= |s|
    ensures LongestEnd(DropAtStart(s[|s| - n..]), s, n)
  {
    hide LastRune, Valid, FirstRune, Boundary;
    var p := s[|s| - n..];
    if n == 0 {
      NothingIsValid();
    } else {
      EncodingStartsHere(s, |s| - n);
      if FirstRune(p) == 0 {
        assert DropAtStart(p) == DropAtStart(p[1..]) && p[1..] == s[|s| - (n - 1)..];
        DropAtStartLongest(s, n - 1);
        assert !Valid(s[|s| - n..]);
      }
    }
  }

  /** Inside valid text an encoding starts just where the rest is valid. */
  lemma EncodingStartsHere(s: seq<Byte>, c: nat)
    requires Valid(s) && c < |s|
    ensures FirstRune(s[c..]) > 0 <==> Valid(s[c..])
  {
    hide Boundary;
    if FirstRune(s[c..]) > 0 {
      assert s[c..][..FirstRune(s[c..])][0] == s[c];
      BoundaryIffNoTail(s, c);
      BoundarySplits(s, c);
    }
  }

  /** The text cut behind `n` bytes, as the caller sees it. */
  function TailOf(s: seq<Byte>, n: nat): seq<Byte> {
    if |s| <= n then s else DropAtEnd(s[..n]) + Suffix()
  }

  function HeadOf(s: seq<Byte>, n: nat): seq<Byte> {
    if |s| <= n then s else Prefix() + DropAtStart(s[|s| - n..])
  }

  method Tail(s: seq<Byte>, n: nat) returns (r: seq<Byte>)
    ensures r == TailOf(s, n)
  {
    if |s| <= n {
      return s;
    }
    var p := DropPartialRuneAtEnd(s[..n]);
    return p + Suffix();
  }

  method Head(s: seq<Byte>, n: nat) returns (r: seq<Byte>)
    ensures r == HeadOf(s, n)
  {
    if |s| <= n {
      return s;
    }
    var p := DropPartialRuneAtStart(s[|s| - n..]);
    return Prefix() + p;
  }

  /** A three-byte character outside the restricted ranges. */
  predicate IsPlainTriple(t: seq<Byte>) {
    |t| == 3 && 0xE1 <= t[0] <= 0xEF && t[0] != 0xED && IsTail(t[1]) && IsTail(t[2])
  }

  lemma TripleIsValid(t: seq<Byte>)
    requires IsPlainTriple(t)
    ensures Valid(t)
  {
    assert IsRune(t) && t[..3] == t && t[3..] == [];
    FirstRuneIs(t, 3);
  }

  lemma MarksAreValid()
    ensures Valid(Suffix()) && Valid(Prefix())
  {
    hide Valid;
    TripleIsValid(DOTS);
    TripleIsValid(OPEN);
    TripleIsValid(BEFORE);
    TripleIsValid(OMITTED);
    TripleIsValid(CLOSE);
    assert BELOW == BELOW[..3] + BELOW[3..];
    TripleIsValid(BELOW[..3]);
    TripleIsValid(BELOW[3..]);
    ValidConcat(BELOW[..3], BELOW[3..]);
    ValidConcat(OMITTED, CLOSE);
    ValidConcat(BELOW, OMITTED + CLOSE);
    ValidConcat(OPEN, BELOW + (OMITTED + CLOSE));
    ValidConcat(DOTS, OPEN + (BELOW + (OMITTED + CLOSE)));
    ValidConcat(CLOSE, DOTS);
    ValidConcat(OMITTED, CLOSE + DOTS);
    ValidConcat(BEFORE, OMITTED + (CLOSE + DOTS));
    ValidConcat(OPEN, BEFORE + (OMITTED + (CLOSE + DOTS)));
  }

  /** On valid text the first `n` bytes are cut back to whole characters and no further, and the result is valid. */
  lemma TailKeepsLongest(s: seq<Byte>, n: nat)
    requires Valid(s) && n < |s|
    ensures exists p :: LongestStart(p, s, n) && TailOf(s, n) == p + Suffix()
    ensures Valid(TailOf(s, n))
  {
    hide Valid, Suffix;
    DropAtEndLongest(s, n);
    MarksAreValid();
    ValidConcat(DropAtEnd(s[..n]), Suffix());
  }

  /** On valid text the last `n` bytes are cut back to whole characters and no further, and the result is valid. */
  lemma HeadKeepsLongest(s: seq<Byte>, n: nat)
    requires Valid(s) && n < |s|
    ensures exists p :: LongestEnd(p, s, n) && HeadOf(s, n) == Prefix() + p
    ensures Valid(HeadOf(s, n))
  {
    hide Valid, Prefix;
    DropAtStartLongest(s, n);
    MarksAreValid();
    ValidConcat(Prefix(), DropAtStart(s[|s| - n..]));
  }

  // ---- The buffer ----

  /** The last `limit` bytes; nothing for a limit of 0 or less. */
  function LastBytes(s: seq<Byte>, limit: int): seq<Byte> {
    if limit <= 0 then [] else if |s| <= limit then s else s[|s| - limit..]
  }

  /**
   The buffer holds its bytes in room for `limit` of them and never has more room than that: what is
   written beyond it has to be dropped first.
   */
  class Buffer {
    const limit: int
    const room: array<Byte>
    var len: nat

    ghost predicate Valid()
      reads this
    {
      room.Length == Max(limit, 0) && len <= room.Length
    }

    ghost function Bytes(): seq<Byte>
      requires Valid()
      reads this, room
    {
      room[..len]
    }

    constructor (limit: int)
      ensures Valid() && fresh(room) && Bytes() == [] && this.limit == limit
    {
      this.limit := limit;
      room := new Byte[Max(limit, 0)];
      len := 0;
    }

    /** Keeps nothing but what stands behind the first `over` bytes, moved to the front. */
    method DropFirst(over: nat)
      requires Valid() && over <= len
      modifies this`len, room
      ensures Valid() && Bytes() == old(Bytes())[over..]
    {
      for i := 0 to len - over
        invariant len == old(len)
        invariant forall k :: 0 <= k < i ==> room[k] == old(room[over + k])
        invariant forall k :: i <= k < room.Length ==> room[k] == old(room[k])
      {
        room[i] := room[over + i];
      }
      len := len - over;
    }

    /** Adds bytes for which there is room. */
    method Append(p: seq<Byte>)
      requires Valid() && len + |p| <= room.Length
      modifies this`len, room
      ensures Valid() && Bytes() == old(Bytes()) + p
    {
      for i := 0 to |p|
        invariant len == old(len)
        invariant forall k :: 0 <= k < len ==> room[k] == old(room[k])
        invariant forall k :: 0 <= k < i ==> room[len + k] == p[k]
      {
        room[len + i] := p[i];
      }
      len := len + |p|;
    }

    method Write(p: seq<Byte>) returns (n: nat)
      requires Valid()
      modifies this`len, room
      ensures Valid() && n == |p|
      ensures Bytes() == LastBytes(old(Bytes()) + p, limit)
    {
      hide LastBytes;
      LastOfBoth(Bytes(), p, limit);
      if limit <= 0 {
        assert Bytes() == [];
      } else if |p| >= limit {
        len := 0;
        Append(p[|p| - limit..]);
      } else {
        var over := len + |p| - limit;
        if over > 0 {
          DropFirst(over);
        }
        Append(p);
      }
      return |p|;
    }

    method WriteAll(chunks: seq<seq<Byte>>)
      requires Valid() && Bytes() == []
      modifies this`len, room
      ensures Valid() && Bytes() == LastBytes(Concat(chunks), limit)
    {
      for i := 0 to |chunks|
        invariant Valid() && Bytes() == LastBytes(Concat(chunks[..i]), limit)
      {
        var _ := Write(chunks[i]);
        assert chunks[..i + 1][..i] == chunks[..i];
        LastBytesAgain(Concat(chunks[..i]), chunks[i], limit);
      }
      assert chunks[..|chunks|] == chunks;
    }
  }

  /** The last bytes of old and new: nothing, of the new alone, or of the old with all of the new. */
  lemma LastOfBoth(s: seq<Byte>, p: seq<Byte>, limit: int)
    ensures LastBytes(s + p, limit) ==
            if limit <= 0 then []
            else if |p| >= limit then p[|p| - limit..]
            else if |s| + |p| > limit then s[|s| + |p| - limit..] + p
            else s + p
  {
  }

  function Concat(chunks: seq<seq<Byte>>): seq<Byte> {
    if chunks == [] then [] else Concat(chunks[..|chunks| - 1]) + chunks[|chunks| - 1]
  }

  /** Keeping the end of what was kept and added keeps the end of everything. */
  lemma LastBytesAgain(s: seq<Byte>, p: seq<Byte>, limit: int)
    ensures LastBytes(LastBytes(s, limit) + p, limit) == LastBytes(s + p, limit)
  {
    var k := LastBytes(s, limit);
    if limit > 0 && |s| > limit {
      assert s + p == s[..|s| - limit] + (k + p);
    }
  }

  /** The buffer after any sequence of writes. */
  function Written(buf: seq<Byte>, chunks: seq<seq<Byte>>, limit: int): seq<Byte> {
    if chunks == [] then buf
    else LastBytes(Written(buf, chunks[..|chunks| - 1], limit) + chunks[|chunks| - 1], limit)
  }

  /** However a stream is cut into writes, the buffer holds exactly its last bytes. */
  lemma {:induction false} BufferHoldsEnd(chunks: seq<seq<Byte>>, limit: int)
    ensures Written([], chunks, limit) == LastBytes(Concat(chunks), limit)
    ensures |Written([], chunks, limit)| ==
            if limit <= 0 then 0 else if |Concat(chunks)| < limit then |Concat(chunks)| else limit
  {
    if chunks != [] {
      var before := chunks[..|chunks| - 1];
      BufferHoldsEnd(before, limit);
      LastBytesAgain(Concat(before), chunks[|chunks| - 1], limit);
    }
  }

  // ---- Any bytes, valid or not ----

  /** Text of at most n bytes is left alone. */
  lemma ShortUncut(s: seq<Byte>, n: nat)
    requires |s| <= n
    ensures TailOf(s, n) == s && HeadOf(s, n) == s
  {
  }

  /** Some character ends at the end of `s`. */
  ghost predicate EndsInRune(s: seq<Byte>) {
    exists k :: 0 <= k < |s| && IsRune(s[k..])
  }

  ghost predicate StartsWithRune(s: seq<Byte>) {
    exists k :: 0 < k <= |s| && IsRune(s[..k])
  }

  lemma LastRuneIff(s: seq<Byte>)
    ensures LastRune(s) > 0 <==> EndsInRune(s)
  {
    hide IsRune;
    if LastRune(s) > 0 {
      assert IsRune(s[|s| - LastRune(s)..]);
    }
    if k :| 0 <= k < |s| && IsRune(s[k..]) {
      RuneLength(s[k..]);
      assert s[k..] == s[|s| - (|s| - k)..];
      LastRuneIsFound(s, |s| - k);
    }
  }

  lemma FirstRuneIff(s: seq<Byte>)
    ensures FirstRune(s) > 0 <==> StartsWithRune(s)
  {
    if FirstRune(s) > 0 {
      assert IsRune(s[..FirstRune(s)]);
    }
    if k :| 0 < k <= |s| && IsRune(s[..k]) {
      assert s[..k][0] == s[0];
    }
  }

  /** Longer text is cut to the longest beginning of at most n bytes that is empty or ends in a character. */
  lemma TailCutsAtRune(s: seq<Byte>, n: nat)
    requires n < |s|
    ensures exists k: nat :: CutsAtRune(s, n, k) && TailOf(s, n) == s[..k] + Suffix()
  {
    var k := DropAtEndIs(s, n);
    assert CutsAtRune(s, n, k);
  }

  ghost predicate CutsAtRune(s: seq<Byte>, n: nat, k: nat) {
    && k <= n <= |s| && (k == 0 || EndsInRune(s[..k]))
    && forall m :: k < m <= n ==> !EndsInRune(s[..m])
  }

  lemma {:induction false} DropAtEndIs(s: seq<Byte>, n: nat) returns (k: nat)
    requires n <= |s|
    ensures CutsAtRune(s, n, k) && DropAtEnd(s[..n]) == s[..k]
  {
    hide LastRune, EndsInRune;
    k := n;
    LastRuneIff(s[..n]);
    if n > 0 && LastRune(s[..n]) == 0 {
      assert s[..n][..n - 1] == s[..n - 1];
      k := DropAtEndIs(s, n - 1);
    }
  }

  /** At the front, to the longest end of at most n bytes that is empty or starts with a character. */
  lemma HeadCutsAtRune(s: seq<Byte>, n: nat)
    requires n < |s|
    ensures exists k: nat :: StartsAtRune(s, |s| - n, k) && HeadOf(s, n) == Prefix() + s[k..]
  {
    var k := DropAtStartIs(s, |s| - n);
    assert StartsAtRune(s, |s| - n, k);
  }

  ghost predicate StartsAtRune(s: seq<Byte>, from: nat, k: nat) {
    && from <= k <= |s| && (k == |s| || StartsWithRune(s[k..]))
    && forall m :: from <= m < k ==> !StartsWithRune(s[m..])
  }

  lemma {:induction false} DropAtStartIs(s: seq<Byte>, from: nat) returns (k: nat)
    requires from <= |s|
    ensures StartsAtRune(s, from, k) && DropAtStart(s[from..]) == s[k..]
    decreases |s| - from
  {
    hide FirstRune, StartsWithRune;
    k := from;
    FirstRuneIff(s[from..]);
    if from < |s| && FirstRune(s[from..]) == 0 {
      assert s[from..][1..] == s[from + 1..];
      k := DropAtStartIs(s, from + 1);
    }
  }

  /** The marks: three dots and "the rest omitted" in brackets; "the beginning omitted" in brackets and three dots. */
  lemma MarksAre()
    ensures Suffix() ==
            Encode(0x2026) + Encode(0xFF08) + Encode(0x4EE5) + Encode(0x4E0B) + Encode(0x7565) + Encode(0xFF09)
    ensures Prefix() == Encode(0xFF08) + Encode(0x524D) + Encode(0x7565) + Encode(0xFF09) + Encode(0x2026)
  {
    assert Encode(0x2026) == DOTS && Encode(0xFF08) == OPEN && Encode(0xFF09) == CLOSE;
    assert Encode(0x4EE5) + Encode(0x4E0B) == BELOW && Encode(0x7565) == OMITTED && Encode(0x524D) == BEFORE;
  }

  /** The last bytes are the end of what was written, and as much of it as the limit allows. */
  lemma LastBytesAre(s: seq<Byte>, limit: int)
    ensures var r := LastBytes(s, limit);
            |r| <= |s| && r == s[|s| - |r|..] && |r| == if limit <= 0 then 0 else if |s| < limit then |s| else limit
  {
  }
}
