/**
 The string operations of the Go standard library that the models need. A Go string is a sequence
 of bytes; it is modelled as a `seq<char>` with one character for each byte.
 */
module Strings {
  import opened Sequences

  datatype Option<+T> = None | Some(value: T) {
    function UnwrapOr(default: T): T {
      if Some? then value else default
    }
  }

  /** strings.IndexByte: the first position of `c` in `s`, or -1. */
  function IndexOf<T(==)>(s: seq<T>, c: T): (i: int)
    ensures -1 <= i < |s|
    ensures i >= 0 ==> s[i] == c && c !in s[..i]
    ensures i < 0 ==> c !in s
  {
    if s == [] then -1
    else if s[0] == c then 0
    else
      var j := IndexOf(s[1..], c);
      if j < 0 then -1 else j + 1
  }

  /** The first position of `c` is the only one with no `c` before it. */
  lemma {:induction false} IndexOfUnique<T>(s: seq<T>, c: T, i: nat)
    requires i < |s| && s[i] == c && c !in s[..i]
    ensures IndexOf(s, c) == i
  {
    if i > 0 {
      assert s[..i][0] == s[0] && s[..i][1..] == s[1..][..i - 1];
      IndexOfUnique(s[1..], c, i - 1);
    }
  }

  /** unicode.ToLower on ASCII. */
  function LowerChar(c: char): char {
    if 'A' <= c <= 'Z' then c - 'A' + 'a' else c
  }

  /** `s` reads as the lower-case word `w`, in any letter case. */
  predicate Spells(s: string, w: string) {
    |s| == |w| && forall i :: 0 <= i < |s| ==> s[i] == w[i] || ('a' <= w[i] <= 'z' && s[i] == w[i] - 'a' + 'A')
  }

  /** That is what comparing without letter case means. */
  lemma LoweredSpells(s: string, w: string)
    requires forall i :: 0 <= i < |w| ==> !('A' <= w[i] <= 'Z')
    ensures Spells(s, w) <==> |s| == |w| && forall i :: 0 <= i < |s| ==> LowerChar(s[i]) == w[i]
  {
  }

  /** The result of strings.Cut: what precedes and follows the first separator. */
  datatype Pieces = Pieces(before: string, after: string, found: bool)

  /** strings.Cut for a one-character separator. */
  function Cut(s: string, sep: char): (p: Pieces)
    ensures p.found ==> s == p.before + [sep] + p.after
    ensures !p.found ==> p.before == s && p.after == "" && sep !in s
    ensures sep !in p.before
  {
    var i := IndexOf(s, sep);
    if i < 0 then Pieces(s, "", false) else Pieces(s[..i], s[i + 1..], true)
  }

  /** A string with a separator is cut at the separator that no other one precedes. */
  lemma CutAt(before: string, sep: char, after: string)
    requires sep !in before
    ensures Cut(before + [sep] + after, sep) == Pieces(before, after, true)
  {
    var s := before + [sep] + after;
    assert s[..|before|] == before;
    IndexOfUnique(s, sep, |before|);
    assert s[|before| + 1..] == after;
  }

  /** strings.Contains. */
  ghost predicate Contains(s: string, t: string) {
    exists k :: OccursAt(s, t, k)
  }

  /** `t` stands in `s` at position `k`. */
  predicate OccursAt(s: string, t: string, k: int) {
    0 <= k <= |s| && t <= s[k..]
  }

  /** strings.Split for a one-character separator. */
  function Split(s: string, sep: char): (lines: seq<string>)
    ensures |lines| > 0
    ensures forall i :: 0 <= i < |lines| ==> sep !in lines[i]
    decreases |s|
  {
    var p := Cut(s, sep);
    if p.found then [p.before] + Split(p.after, sep) else [s]
  }

  /** strings.Join for a one-character separator. */
  function Joined(parts: seq<string>, sep: char): string
    requires parts != []
  {
    if |parts| == 1 then parts[0] else parts[0] + [sep] + Joined(parts[1..], sep)
  }

  /** Joining undoes splitting. */
  lemma {:induction false} JoinedSplit(s: string, sep: char)
    ensures Joined(Split(s, sep), sep) == s
    decreases |s|
  {
    var p := Cut(s, sep);
    if p.found {
      JoinedSplit(p.after, sep);
      assert Split(s, sep)[1..] == Split(p.after, sep);
    }
  }

  /** Splitting undoes joining. */
  lemma {:induction false} SplitJoined(parts: seq<string>, sep: char)
    requires parts != [] && forall i :: 0 <= i < |parts| ==> sep !in parts[i]
    ensures Split(Joined(parts, sep), sep) == parts
  {
    hide Split;
    HeadAndTail(parts);
    if |parts| == 1 {
      SplitNothing(parts[0], sep);
    } else {
      SplitJoined(parts[1..], sep);
      SplitStep(parts[0], sep, Joined(parts[1..], sep));
    }
  }

  lemma SplitNothing(s: string, sep: char)
    requires sep !in s
    ensures Split(s, sep) == [s]
  {
  }

  lemma SplitStep(before: string, sep: char, after: string)
    requires sep !in before
    ensures Split(before + [sep] + after, sep) == [before] + Split(after, sep)
  {
    CutAt(before, sep, after);
  }

  /** strings.TrimSuffix for a one-character suffix. */
  function TrimSuffix(s: string, c: char): (r: string)
    ensures s != "" && s[|s| - 1] == c ==> s == r + [c]
    ensures s == "" || s[|s| - 1] != c ==> s == r
  {
    if s != "" && s[|s| - 1] == c then s[..|s| - 1] else s
  }

  /** strings.TrimLeft for a set of characters. */
  function TrimLeft(s: string, cut: set<char>): (r: string)
    ensures |r| <= |s| && (r != "" ==> r[0] !in cut)
  {
    if s != "" && s[0] in cut then TrimLeft(s[1..], cut) else s
  }

  /** What is trimmed off the front is of the set, and what is left is the end of the string. */
  lemma {:induction false} TrimLeftEnd(s: string, cut: set<char>)
    ensures var r := TrimLeft(s, cut);
            r == s[|s| - |r|..] && forall i :: 0 <= i < |s| - |r| ==> s[i] in cut
  {
    if s != "" && s[0] in cut {
      var t, r := s[1..], TrimLeft(s, cut);
      TrimLeftEnd(t, cut);
      hide TrimLeft;
      assert t[|t| - |r|..] == s[|s| - |r|..];
      assert forall i :: 1 <= i < |s| - |r| ==> s[i] == t[i - 1];
    }
  }

  lemma {:induction false} TrimLeftBehind(blank: string, s: string, cut: set<char>)
    requires (forall c :: c in blank ==> c in cut) && s != "" && s[0] !in cut
    ensures TrimLeft(blank + s, cut) == s
  {
    if blank == "" {
      assert blank + s == s;
    } else {
      var c, rest := blank[0], blank[1..];
      assert blank == [c] + rest && c in blank;
      TrimLeftBehind(rest, s, cut);
      TrimLeftOne(c, rest, s, cut);
    }
  }

  lemma TrimLeftOne(c: char, rest: string, s: string, cut: set<char>)
    requires c in cut
    ensures TrimLeft([c] + rest + s, cut) == TrimLeft(rest + s, cut)
  {
    assert ([c] + rest + s)[1..] == rest + s;
  }

  /** strings.TrimRight for a set of characters. */
  function TrimRight(s: string, cut: set<char>): (r: string)
    ensures r <= s
    ensures r != "" ==> r[|r| - 1] !in cut
    ensures forall i :: |r| <= i < |s| ==> s[i] in cut
  {
    if s != "" && s[|s| - 1] in cut then TrimRight(s[..|s| - 1], cut) else s
  }

  /** Both ends trimmed of a set of characters. */
  function Trim(s: string, cut: set<char>): string {
    TrimRight(TrimLeft(s, cut), cut)
  }

  predicate Trimmed(s: string, cut: set<char>) {
    s == "" || (s[0] !in cut && s[|s| - 1] !in cut)
  }

  lemma TrimTrims(s: string, cut: set<char>)
    ensures Trimmed(Trim(s, cut), cut)
    ensures forall c :: c in Trim(s, cut) ==> c in s
  {
    var t := TrimLeft(s, cut);
    var r := TrimRight(t, cut);
    TrimLeftEnd(s, cut);
    hide TrimLeft, TrimRight;
    assert r != "" ==> r[0] == t[0];
    assert forall c :: c in r ==> c in t;
  }

  lemma TrimmedStays(s: string, cut: set<char>)
    requires Trimmed(s, cut)
    ensures Trim(s, cut) == s
  {
    assert s != "" ==> TrimLeft(s, cut) == s;
  }

  /** Trimming takes off exactly what is of the set at both ends. */
  lemma TrimIs(front: string, s: string, back: string, cut: set<char>)
    requires Trimmed(s, cut)
    requires (forall c :: c in front ==> c in cut) && (forall c :: c in back ==> c in cut)
    ensures Trim(front + s + back, cut) == s
  {
    if s == "" {
      AllTrimmed(front + s + back, cut);
    } else {
      assert s + back != "" && (s + back)[0] == s[0];
      TrimLeftBehind(front, s + back, cut);
      assert front + (s + back) == front + s + back;
      TrimRightBehind(s, back, cut);
    }
  }

  lemma {:induction false} AllTrimmed(s: string, cut: set<char>)
    requires forall c :: c in s ==> c in cut
    ensures Trim(s, cut) == ""
  {
    if s != "" {
      assert s[0] in s && forall c :: c in s[1..] ==> c in s;
      AllTrimmed(s[1..], cut);
    }
  }

  lemma {:induction false} TrimRightBehind(s: string, back: string, cut: set<char>)
    requires s == "" || s[|s| - 1] !in cut
    requires forall c :: c in back ==> c in cut
    ensures TrimRight(s + back, cut) == s
    decreases |back|
  {
    if back == "" {
      assert s + back == s;
    } else {
      var n := |back| - 1;
      assert back[n] in back && forall c :: c in back[..n] ==> c in back;
      assert (s + back)[|s + back| - 1] == back[n] && (s + back)[..|s + back| - 1] == s + back[..n];
      TrimRightBehind(s, back[..n], cut);
    }
  }

  lemma TrimKeepsHead(s: string, cut: set<char>)
    requires s != "" && s[0] !in cut
    ensures Trim(s, cut) != "" && Trim(s, cut)[0] == s[0]
  {
    assert TrimLeft(s, cut) == s;
    var r := TrimRight(s, cut);
    assert |r| > 0;
  }
}
