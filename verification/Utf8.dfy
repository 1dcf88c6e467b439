/** UTF-8 as sections 3 and 4 of RFC 3629 define it, on bytes. */
module Utf8 {
  import opened Sequences

  newtype Byte = b: int | 0 <= b < 256

  predicate IsTail(b: Byte) {
    0x80 <= b <= 0xBF
  }

  /** How many bytes the encoding that starts with `b` has; 0 when none starts with it. */
  function LengthFrom(b: Byte): nat {
    if b <= 0x7F then 1
    else if 0xC2 <= b <= 0xDF then 2
    else if 0xE0 <= b <= 0xEF then 3
    else if 0xF0 <= b <= 0xF4 then 4
    else 0
  }

  /** The second byte is further restricted after some first bytes. */
  predicate SecondFits(first: Byte, second: Byte) {
    && IsTail(second)
    && (first == 0xE0 ==> 0xA0 <= second)
    && (first == 0xED ==> second <= 0x9F)
    && (first == 0xF0 ==> 0x90 <= second)
    && (first == 0xF4 ==> second <= 0x8F)
  }

  /** `s` is the encoding of one character. */
  predicate IsRune(s: seq<Byte>) {
    && s != [] && LengthFrom(s[0]) == |s|
    && (|s| > 1 ==> SecondFits(s[0], s[1]))
    && (forall i :: 1 <= i < |s| ==> IsTail(s[i]))
  }

  /** The length of the encoding at the start of `s`, as utf8.DecodeRune finds it; 0 when there is none. */
  function FirstRune(s: seq<Byte>): (n: nat)
    ensures n <= |s| && (n > 0 ==> IsRune(s[..n]))
  {
    if s != [] && LengthFrom(s[0]) <= |s| && IsRune(s[..LengthFrom(s[0])]) then LengthFrom(s[0]) else 0
  }

  /** The length of the encoding at the end of `s`, as utf8.DecodeLastRune finds it; 0 when there is none. */
  function LastRune(s: seq<Byte>): (n: nat)
    ensures n <= |s| && (n > 0 ==> IsRune(s[|s| - n..]))
  {
    LastRuneFrom(s, 1)
  }

  function LastRuneFrom(s: seq<Byte>, k: nat): (n: nat)
    requires 1 <= k <= 5
    ensures n <= |s| && (n > 0 ==> IsRune(s[|s| - n..]))
    decreases 5 - k
  {
    if k == 5 || k > |s| then 0
    else if IsRune(s[|s| - k..]) then k
    else LastRuneFrom(s, k + 1)
  }

  lemma RuneLength(s: seq<Byte>)
    requires IsRune(s)
    ensures |s| <= 4
  {
  }

  lemma {:induction false} LastRuneFound(s: seq<Byte>, k: nat, from: nat)
    requires 1 <= from <= k <= |s| && IsRune(s[|s| - k..])
    ensures k <= 4 && LastRuneFrom(s, from) > 0
    decreases k - from
  {
    hide IsRune;
    RuneLength(s[|s| - k..]);
    if from < k {
      LastRuneFound(s, k, from + 1);
    }
  }

  /** A sequence of encodings. */
  predicate Valid(s: seq<Byte>)
    decreases |s|
  {
    s == [] || (FirstRune(s) > 0 && Valid(s[FirstRune(s)..]))
  }

  /** A whole number of encodings stands before position `c`. */
  predicate Boundary(s: seq<Byte>, c: nat)
    requires Valid(s)
    decreases |s|
  {
    c == 0 || (s != [] && FirstRune(s) <= c && Boundary(s[FirstRune(s)..], c - FirstRune(s)))
  }

  lemma FirstRuneIs(s: seq<Byte>, n: nat)
    requires 0 < n <= |s| && IsRune(s[..n])
    ensures FirstRune(s) == n
  {
    assert s[..n][0] == s[0];
  }

  /** Inside valid text exactly the boundaries hold no continuation byte. */
  lemma {:induction false} BoundaryIffNoTail(s: seq<Byte>, c: nat)
    requires Valid(s) && c < |s|
    ensures Boundary(s, c) <==> !IsTail(s[c])
    decreases |s|
  {
    var f := FirstRune(s);
    var first := s[..f];
    if c < f {
      assert s[c] == first[c];
    } else {
      BoundaryIffNoTail(s[f..], c - f);
    }
  }

  lemma {:induction false} BoundarySplits(s: seq<Byte>, c: nat)
    requires Valid(s) && Boundary(s, c)
    ensures c <= |s| && Valid(s[..c]) && Valid(s[c..])
    decreases |s|
  {
    if c == 0 {
      assert s[0..] == s;
    } else {
      var f := FirstRune(s);
      BoundarySplits(s[f..], c - f);
      assert s[..c][..f] == s[..f] && s[..c][f..] == s[f..][..c - f];
      FirstRuneIs(s[..c], f);
      assert s[f..][c - f..] == s[c..];
    }
  }

  /** Behind the first encoding, the boundaries are those of the rest. */
  lemma FirstStep(s: seq<Byte>, k: nat)
    requires Valid(s) && k > 0
    ensures Boundary(s, k) ==> s != []
    ensures s != [] ==> var f := FirstRune(s);
                        f > 0 && Valid(s[f..]) && (Boundary(s, k) <==> f <= k && Boundary(s[f..], k - f))
  {
    hide FirstRune, IsRune;
  }

  /** Past a boundary, the boundaries are those of the rest. */
  lemma {:induction false} BoundaryBeyond(s: seq<Byte>, c: nat, rest: seq<Byte>, d: nat)
    requires Valid(s) && Boundary(s, c) && c <= |s| && rest == s[c..] && Valid(rest)
    ensures Boundary(s, c + d) <==> Boundary(rest, d)
    decreases |s|
  {
    hide Boundary, Valid, FirstRune, IsRune;
    if c == 0 {
      assert rest == s;
    } else {
      var f := FirstRune(s);
      FirstStep(s, c);
      FirstStep(s, c + d);
      DropDrop(s, f, c - f);
      BoundaryBeyond(s[f..], c - f, rest, d);
    }
  }

  /** Where an encoding ends there is a boundary, and the other way round. */
  lemma RuneEndsAtBoundary(s: seq<Byte>, m: nat)
    requires Valid(s) && 0 < m <= |s|
    ensures LastRune(s[..m]) > 0 <==> Boundary(s, m)
  {
    hide IsRune, LastRune, FirstRune;
    if LastRune(s[..m]) > 0 {
      BoundaryAfterRune(s, m, LastRune(s[..m]));
    }
    if Boundary(s, m) {
      BoundarySplits(s, m);
      var k := LastOfValid(s[..m]);
      LastRuneIsFound(s[..m], k);
    }
  }

  lemma LastRuneIsFound(s: seq<Byte>, k: nat)
    requires 0 < k <= |s| && IsRune(s[|s| - k..])
    ensures LastRune(s) > 0
  {
    LastRuneFound(s, k, 1);
  }

  lemma BoundaryAfterRune(s: seq<Byte>, m: nat, k: nat)
    requires Valid(s) && 0 < k <= m <= |s| && IsRune(s[..m][m - k..])
    ensures Boundary(s, m)
  {
    hide Boundary, LastRune, FirstRune, IsRune, Valid;
    var at := m - k;
    assert s[..m][at..] == s[at..][..k] && s[at..][..k][0] == s[at];
    LeadIsNoTail(s[at..][..k]);
    BoundaryIffNoTail(s, at);
    BoundarySplits(s, at);
    FirstRuneIs(s[at..], k);
    OneRune(s[at..]);
    BoundaryBeyond(s, at, s[at..], k);
  }

  lemma LeadIsNoTail(s: seq<Byte>)
    requires IsRune(s)
    ensures s != [] && !IsTail(s[0])
  {
  }

  lemma OneRune(s: seq<Byte>)
    requires Valid(s) && s != []
    ensures Boundary(s, FirstRune(s))
  {
  }

  lemma {:induction false} LastOfValid(p: seq<Byte>) returns (k: nat)
    requires Valid(p) && p != []
    ensures 0 < k <= |p| && IsRune(p[|p| - k..])
    decreases |p|
  {
    var f := FirstRune(p);
    if f == |p| {
      assert p[..f] == p && p[|p| - f..] == p;
      k := f;
    } else {
      k := LastOfValid(p[f..]);
      assert p[f..][|p| - f - k..] == p[|p| - k..];
    }
  }

  lemma NothingBefore(s: seq<Byte>)
    requires Valid(s)
    ensures Boundary(s, 0)
  {
  }

  lemma ValidPrefixAtBoundary(s: seq<Byte>, c: nat)
    requires Valid(s) && c <= |s| && Valid(s[..c])
    ensures Boundary(s, c)
  {
    hide IsRune, LastRune, FirstRune, Boundary;
    if c == 0 {
      NothingBefore(s);
    } else {
      var k := LastOfValid(s[..c]);
      BoundaryAfterRune(s, c, k);
    }
  }

  lemma {:induction false} ValidConcat(a: seq<Byte>, b: seq<Byte>)
    requires Valid(a) && Valid(b)
    ensures Valid(a + b)
    decreases |a|
  {
    if a == [] {
      assert a + b == b;
    } else {
      var f := FirstRune(a);
      assert (a + b)[..f] == a[..f] && (a + b)[f..] == a[f..] + b;
      FirstRuneIs(a + b, f);
      ValidConcat(a[f..], b);
    }
  }

  // ---- Characters and their encodings ----

  /** A character number: anything up to 0x10FFFF but the surrogates. */
  predicate IsScalar(cp: int) {
    0 <= cp <= 0x10FFFF && !(0xD800 <= cp <= 0xDFFF)
  }

  /** The encoding of a character number, as the table in section 3 of RFC 3629 gives it. */
  function Encode(cp: int): seq<Byte>
    requires 0 <= cp <= 0x10FFFF
  {
    if cp < 0x80 then [cp as Byte]
    else if cp < 0x800 then [(0xC0 + cp / 64) as Byte, (0x80 + cp % 64) as Byte]
    else if cp < 0x1_0000 then
      [(0xE0 + cp / 4096) as Byte, (0x80 + cp / 64 % 64) as Byte, (0x80 + cp % 64) as Byte]
    else
      [(0xF0 + cp / 262144) as Byte, (0x80 + cp / 4096 % 64) as Byte, (0x80 + cp / 64 % 64) as Byte,
       (0x80 + cp % 64) as Byte]
  }

  /** The number a lead byte and three, two, one or no continuation bytes stand for. */
  function Decode(s: seq<Byte>): int
    requires 1 <= |s| <= 4
  {
    if |s| == 1 then s[0] as int
    else if |s| == 2 then (s[0] as int - 0xC0) * 64 + (s[1] as int - 0x80)
    else if |s| == 3 then (s[0] as int - 0xE0) * 4096 + (s[1] as int - 0x80) * 64 + (s[2] as int - 0x80)
    else
      (s[0] as int - 0xF0) * 262144 + (s[1] as int - 0x80) * 4096 + (s[2] as int - 0x80) * 64 + (s[3] as int - 0x80)
  }

  lemma EncodedIsRune(cp: int)
    requires IsScalar(cp)
    ensures IsRune(Encode(cp))
  {
    if cp < 0x80 {
      assert |Encode(cp)| == 1;
    } else if cp < 0x800 {
      ShortIsRune(cp);
    } else if cp < 0x1_0000 {
      MiddleIsRune(cp);
    } else {
      LongIsRune(cp);
    }
  }

  lemma ShortIsRune(cp: int)
    requires 0x80 <= cp < 0x800
    ensures IsRune(Encode(cp))
  {
    assert |Encode(cp)| == 2;
  }

  lemma MiddleIsRune(cp: int)
    requires 0x800 <= cp < 0x1_0000 && IsScalar(cp)
    ensures IsRune(Encode(cp))
  {
    assert |Encode(cp)| == 3 && IsTail(Encode(cp)[2]);
  }

  lemma LongIsRune(cp: int)
    requires 0x1_0000 <= cp <= 0x10FFFF
    ensures IsRune(Encode(cp))
  {
    assert |Encode(cp)| == 4 && IsTail(Encode(cp)[2]) && IsTail(Encode(cp)[3]);
  }

  /** A number is taken apart into the digits it was put together from. */
  lemma DigitsBack(a: int, b: int, c: int, d: int)
    requires 0 <= a && 0 <= b < 64 && 0 <= c < 64 && 0 <= d < 64
    ensures var n := a * 262144 + b * 4096 + c * 64 + d;
            n / 262144 == a && n / 4096 == a * 64 + b && n / 64 == a * 4096 + b * 64 + c
            && n / 4096 % 64 == b && n / 64 % 64 == c && n % 64 == d
  {
  }

  lemma RuneIsEncoded(s: seq<Byte>)
    requires IsRune(s)
    ensures 1 <= |s| <= 4 && IsScalar(Decode(s)) && Encode(Decode(s)) == s
  {
    if |s| == 2 {
      TwoBack(s);
    } else if |s| == 3 {
      ThreeBack(s);
    } else if |s| == 4 {
      FourBack(s);
    }
  }

  lemma TwoBack(s: seq<Byte>)
    requires IsRune(s) && |s| == 2
    ensures IsScalar(Decode(s)) && Encode(Decode(s)) == s
  {
    DigitsBack(0, 0, s[0] as int - 0xC0, s[1] as int - 0x80);
  }

  lemma ThreeBack(s: seq<Byte>)
    requires IsRune(s) && |s| == 3
    ensures IsScalar(Decode(s)) && Encode(Decode(s)) == s
  {
    DigitsBack(0, s[0] as int - 0xE0, s[1] as int - 0x80, s[2] as int - 0x80);
    assert IsTail(s[2]);
    assert 0x800 <= Decode(s) < 0x1_0000;
  }

  lemma FourBack(s: seq<Byte>)
    requires IsRune(s) && |s| == 4
    ensures IsScalar(Decode(s)) && Encode(Decode(s)) == s
  {
    DigitsBack(s[0] as int - 0xF0, s[1] as int - 0x80, s[2] as int - 0x80, s[3] as int - 0x80);
    assert IsTail(s[2]) && IsTail(s[3]);
    assert 0x1_0000 <= Decode(s) <= 0x10FFFF;
  }

  /** The byte strings taken for one character are exactly the encodings of character numbers. */
  lemma IsRuneIff(s: seq<Byte>)
    ensures IsRune(s) <==> exists cp :: IsScalar(cp) && Encode(cp) == s
  {
    hide IsRune, Encode, Decode;
    if IsRune(s) {
      RuneIsEncoded(s);
    }
    forall cp | IsScalar(cp)
      ensures IsRune(Encode(cp))
    {
      EncodedIsRune(cp);
    }
  }
}
