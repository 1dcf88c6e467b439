/**
 The line diff shown before a configuration file is written: a table of longest common
 subsequences filled from the back, and a walk from the front that emits marked lines.
 */
module Diff {
  import opened Ints
  import opened Sequences
  import opened Strings

  const MARK_CONTEXT := "  "
  const MARK_REMOVE := "- "
  const MARK_ADD := "+ "

  /** Above this many lines on either side the table is given up. */
  const MAX_DIFF_LINES := 1000

  // ---- Longest common subsequences, by definition ----

  ghost predicate Common<T(!new)>(s: seq<T>, a: seq<T>, b: seq<T>) {
    Subsequence(s, a) && Subsequence(s, b)
  }

  /** `n` is the largest length any common subsequence of `a` and `b` has. */
  ghost predicate IsLongest<T(!new)>(n: nat, a: seq<T>, b: seq<T>) {
    && (exists s :: Common(s, a, b) && |s| == n)
    && (forall s :: Common(s, a, b) ==> |s| <= n)
  }

  // ---- The table ----

  /** The recurrence by which a table entry depends on its neighbours. */
  function LcsLength<T(==)>(a: seq<T>, b: seq<T>): nat {
    if a == [] || b == [] then 0
    else if a[0] == b[0] then LcsLength(a[1..], b[1..]) + 1
    else Max(LcsLength(a[1..], b), LcsLength(a, b[1..]))
  }

  lemma {:induction false} LcsLengthBounds<T(!new)>(s: seq<T>, a: seq<T>, b: seq<T>)
    requires Common(s, a, b)
    ensures |s| <= LcsLength(a, b)
    decreases |a| + |b|
  {
    if s == [] || a == [] || b == [] {
    } else if a[0] == b[0] {
      SubsequenceTail(s, a);
      SubsequenceTail(s, b);
      LcsLengthBounds(s[1..], a[1..], b[1..]);
    } else if s[0] != a[0] {
      LcsLengthBounds(s, a[1..], b);
    } else {
      LcsLengthBounds(s, a, b[1..]);
    }
  }

  lemma {:induction false} LcsLengthReached<T(!new)>(a: seq<T>, b: seq<T>) returns (s: seq<T>)
    ensures Common(s, a, b) && |s| == LcsLength(a, b)
    decreases |a| + |b|
  {
    if a == [] || b == [] {
      s := [];
    } else if a[0] == b[0] {
      var r := LcsLengthReached(a[1..], b[1..]);
      s := [a[0]] + r;
      assert s[1..] == r;
    } else if LcsLength(a[1..], b) >= LcsLength(a, b[1..]) {
      s := LcsLengthReached(a[1..], b);
    } else {
      s := LcsLengthReached(a, b[1..]);
    }
  }

  /** The recurrence computes the maximum over all common subsequences. */
  lemma LcsLengthIsLongest<T(!new)>(a: seq<T>, b: seq<T>)
    ensures IsLongest(LcsLength(a, b), a, b)
  {
    var s := LcsLengthReached(a, b);
    forall s | Common(s, a, b)
      ensures |s| <= LcsLength(a, b)
    {
      LcsLengthBounds(s, a, b);
    }
  }

  /** Every entry is the common length of the two suffixes that start there. */
  ghost predicate IsLcsTable(table: array2<nat>, old_: seq<string>, cur: seq<string>)
    reads table
  {
    && table.Length0 == |old_| + 1 && table.Length1 == |cur| + 1
    && forall i, j {:trigger table[i, j]} :: 0 <= i <= |old_| && 0 <= j <= |cur| ==>
         table[i, j] == LcsLength(old_[i..], cur[j..])
  }

  lemma LcsAtEnd(old_: seq<string>, cur: seq<string>, i: nat)
    requires i <= |old_|
    ensures LcsLength(old_[i..], cur[|cur|..]) == 0
  {
  }

  /** An entry from its neighbours. */
  lemma LcsStep(old_: seq<string>, cur: seq<string>, i: nat, j: nat)
    requires i < |old_| && j < |cur|
    ensures LcsLength(old_[i..], cur[j..]) ==
            if old_[i] == cur[j] then LcsLength(old_[i + 1..], cur[j + 1..]) + 1
            else Max(LcsLength(old_[i + 1..], cur[j..]), LcsLength(old_[i..], cur[j + 1..]))
  {
    DropDrop(old_, i, 1);
    DropDrop(cur, j, 1);
  }

  /** Row `r` of the table is filled. */
  ghost predicate IsLcsRow(table: array2<nat>, old_: seq<string>, cur: seq<string>, r: nat)
    requires r <= |old_| && table.Length0 == |old_| + 1 && table.Length1 == |cur| + 1
    reads table
  {
    forall c :: 0 <= c <= |cur| ==> table[r, c] == LcsLength(old_[r..], cur[c..])
  }

  /** Fills one entry from its neighbours. */
  method FillEntry(table: array2<nat>, old_: seq<string>, cur: seq<string>, i: nat, j: nat)
    requires i < |old_| && j < |cur| && table.Length0 == |old_| + 1 && table.Length1 == |cur| + 1
    requires table[i + 1, j + 1] == LcsLength(old_[i + 1..], cur[j + 1..])
    requires table[i + 1, j] == LcsLength(old_[i + 1..], cur[j..]) &&
             table[i, j + 1] == LcsLength(old_[i..], cur[j + 1..])
    modifies table
    ensures table[i, j] == LcsLength(old_[i..], cur[j..])
    ensures forall r, c :: 0 <= r <= |old_| && 0 <= c <= |cur| && !(r == i && c == j) ==>
            table[r, c] == old(table[r, c])
  {
    LcsStep(old_, cur, i, j);
    hide LcsLength, Max;
    if old_[i] == cur[j] {
      table[i, j] := table[i + 1, j + 1] + 1;
    } else {
      table[i, j] := Max(table[i + 1, j], table[i, j + 1]);
    }
  }

  /** Fills one row from the back, by the row after it. */
  method FillRow(table: array2<nat>, old_: seq<string>, cur: seq<string>, i: nat)
    requires i < |old_| && table.Length0 == |old_| + 1 && table.Length1 == |cur| + 1
    requires table[i, |cur|] == 0 && IsLcsRow(table, old_, cur, i + 1)
    modifies table
    ensures IsLcsRow(table, old_, cur, i)
    ensures forall r :: 0 <= r <= |old_| && r != i && old(IsLcsRow(table, old_, cur, r)) ==>
            IsLcsRow(table, old_, cur, r)
    ensures forall r :: 0 <= r <= |old_| && r != i ==> table[r, |cur|] == old(table[r, |cur|])
  {
    LcsAtEnd(old_, cur, i);
    hide LcsLength;
    var j := |cur| - 1;
    while j >= 0
      invariant -1 <= j < |cur|
      invariant forall r, c :: 0 <= r <= |old_| && 0 <= c <= |cur| && r != i ==> table[r, c] == old(table[r, c])
      invariant forall c :: j < c <= |cur| ==> table[i, c] == LcsLength(old_[i..], cur[c..])
    {
      FillEntry(table, old_, cur, i, j);
      j := j - 1;
    }
  }

  /** Fills the table from the back, row by row; every entry is the longest common length of the two suffixes. */
  method Lcs(old_: seq<string>, cur: seq<string>) returns (table: array2<nat>)
    ensures fresh(table) && IsLcsTable(table, old_, cur)
  {
    table := new nat[|old_| + 1, |cur| + 1]((_, _) => 0);
    LastRow(old_, cur);
    hide LcsLength;
    var i := |old_| - 1;
    while i >= 0
      invariant -1 <= i < |old_|
      invariant forall r :: i < r <= |old_| ==> IsLcsRow(table, old_, cur, r)
      invariant forall r :: 0 <= r <= i ==> table[r, |cur|] == 0
    {
      FillRow(table, old_, cur, i);
      i := i - 1;
    }
    forall r, c | 0 <= r <= |old_| && 0 <= c <= |cur|
      ensures table[r, c] == LcsLength(old_[r..], cur[c..])
    {
      assert IsLcsRow(table, old_, cur, r);
    }
  }

  lemma LastRow(old_: seq<string>, cur: seq<string>)
    ensures forall c :: 0 <= c <= |cur| ==> LcsLength(old_[|old_|..], cur[c..]) == 0
  {
  }

  // ---- Edit scripts ----

  predicate IsContext(l: string) { |l| >= 2 && l[..2] == "  " }
  predicate IsRemove(l: string) { |l| >= 2 && l[..2] == "- " }
  predicate IsAdd(l: string) { |l| >= 2 && l[..2] == "+ " }

  /** Every line carries one of the three marks. */
  predicate IsScript(e: seq<string>) {
    forall i :: 0 <= i < |e| ==> IsContext(e[i]) || IsRemove(e[i]) || IsAdd(e[i])
  }

  /** The old lines: added lines dropped, marks dropped. */
  function OldSide(e: seq<string>): seq<string> {
    if e == [] then []
    else (if IsContext(e[0]) || IsRemove(e[0]) then [e[0][2..]] else []) + OldSide(e[1..])
  }

  /** The new lines: removed lines dropped, marks dropped. */
  function NewSide(e: seq<string>): seq<string> {
    if e == [] then []
    else (if IsContext(e[0]) || IsAdd(e[0]) then [e[0][2..]] else []) + NewSide(e[1..])
  }

  /** The unchanged lines. */
  function Unchanged(e: seq<string>): seq<string> {
    if e == [] then []
    else (if IsContext(e[0]) then [e[0][2..]] else []) + Unchanged(e[1..])
  }

  /** The number of removed and added lines. */
  function Changes(e: seq<string>): nat {
    if e == [] then 0 else (if IsContext(e[0]) then 0 else 1) + Changes(e[1..])
  }

  /** `e` turns `old_` into `cur`. */
  predicate Transforms(e: seq<string>, old_: seq<string>, cur: seq<string>) {
    IsScript(e) && OldSide(e) == old_ && NewSide(e) == cur
  }

  /** What a script leaves unchanged is common to both sides, and fixes how much it changes. */
  lemma {:induction false} ScriptBalance(e: seq<string>)
    requires IsScript(e)
    ensures Common(Unchanged(e), OldSide(e), NewSide(e))
    ensures 2 * |Unchanged(e)| + Changes(e) == |OldSide(e)| + |NewSide(e)|
  {
    if e != [] {
      ScriptBalance(e[1..]);
      var l, u := e[0][2..], Unchanged(e[1..]);
      SubsequenceCons(l, u, OldSide(e[1..]));
      SubsequenceCons(l, u, NewSide(e[1..]));
      assert [] + OldSide(e[1..]) == OldSide(e[1..]);
      assert [] + NewSide(e[1..]) == NewSide(e[1..]);
      assert [] + u == u;
    }
  }

  // ---- The walk ----

  /** Every line with the same mark in front. */
  function WithMark(mark: string, lines: seq<string>): seq<string> {
    if lines == [] then [] else [mark + lines[0]] + WithMark(mark, lines[1..])
  }

  /** The script the walk emits for two remainders. */
  function Walk(old_: seq<string>, cur: seq<string>): seq<string>
    decreases |old_| + |cur|
  {
    if old_ == [] then WithMark(MARK_ADD, cur)
    else if cur == [] then WithMark(MARK_REMOVE, old_)
    else if old_[0] == cur[0] then [MARK_CONTEXT + old_[0]] + Walk(old_[1..], cur[1..])
    else if LcsLength(old_[1..], cur) >= LcsLength(old_, cur[1..]) then [MARK_REMOVE + old_[0]] + Walk(old_[1..], cur)
    else [MARK_ADD + cur[0]] + Walk(old_, cur[1..])
  }

  /** Everything removed, then everything added. */
  function Replacement(old_: seq<string>, cur: seq<string>): seq<string> {
    WithMark(MARK_REMOVE, old_) + WithMark(MARK_ADD, cur)
  }

  predicate Comparable(old_: seq<string>, cur: seq<string>) {
    |old_| <= 1000 && |cur| <= 1000
  }

  function ScriptOf(old_: seq<string>, cur: seq<string>): seq<string> {
    if Comparable(old_, cur) then Walk(old_, cur) else Replacement(old_, cur)
  }

  lemma {:induction false} MarkOne(mark: string, line: string, e: seq<string>)
    requires |mark| == 2 && (mark == MARK_CONTEXT || mark == MARK_REMOVE || mark == MARK_ADD)
    requires IsScript(e)
    ensures IsScript([mark + line] + e)
    ensures OldSide([mark + line] + e) == (if mark == MARK_ADD then [] else [line]) + OldSide(e)
    ensures NewSide([mark + line] + e) == (if mark == MARK_REMOVE then [] else [line]) + NewSide(e)
    ensures Unchanged([mark + line] + e) == (if mark == MARK_CONTEXT then [line] else []) + Unchanged(e)
  {
    var f := [mark + line] + e;
    assert f[1..] == e;
    assert (mark + line)[..2] == mark && (mark + line)[2..] == line;
    assert MARK_CONTEXT[0] != MARK_REMOVE[0] && MARK_CONTEXT[0] != MARK_ADD[0] && MARK_REMOVE[0] != MARK_ADD[0];
  }

  lemma {:induction false} MarkAll(mark: string, lines: seq<string>, e: seq<string>)
    requires mark == MARK_REMOVE || mark == MARK_ADD
    requires IsScript(e)
    ensures IsScript(WithMark(mark, lines) + e)
    ensures OldSide(WithMark(mark, lines) + e) == (if mark == MARK_ADD then [] else lines) + OldSide(e)
    ensures NewSide(WithMark(mark, lines) + e) == (if mark == MARK_REMOVE then [] else lines) + NewSide(e)
    ensures Unchanged(WithMark(mark, lines) + e) == Unchanged(e)
  {
    hide OldSide, NewSide, Unchanged, IsScript;
    if lines == [] {
      assert WithMark(mark, lines) + e == e;
      assert [] + OldSide(e) == OldSide(e) && [] + NewSide(e) == NewSide(e);
    } else {
      var first, rest := [mark + lines[0]], WithMark(mark, lines[1..]);
      MarksDiffer();
      MarkAll(mark, lines[1..], e);
      MarkOne(mark, lines[0], rest + e);
      Assoc(first, rest, e);
      HeadAndTail(lines);
      Assoc([lines[0]], lines[1..], OldSide(e));
      Assoc([lines[0]], lines[1..], NewSide(e));
      assert [] + Unchanged(e) == Unchanged(e) && [] + OldSide(e) == OldSide(e) && [] + NewSide(e) == NewSide(e);
    }
  }

  lemma MarksDiffer()
    ensures MARK_CONTEXT != MARK_REMOVE && MARK_CONTEXT != MARK_ADD && MARK_REMOVE != MARK_ADD
    ensures |MARK_CONTEXT| == 2 && |MARK_REMOVE| == 2 && |MARK_ADD| == 2
  {
    assert MARK_CONTEXT[0] != MARK_REMOVE[0] && MARK_CONTEXT[0] != MARK_ADD[0] && MARK_REMOVE[0] != MARK_ADD[0];
  }

  lemma MarkAllAlone(mark: string, lines: seq<string>)
    requires mark == MARK_REMOVE || mark == MARK_ADD
    ensures IsScript(WithMark(mark, lines))
    ensures OldSide(WithMark(mark, lines)) == if mark == MARK_ADD then [] else lines
    ensures NewSide(WithMark(mark, lines)) == if mark == MARK_REMOVE then [] else lines
    ensures Unchanged(WithMark(mark, lines)) == []
  {
    MarkAll(mark, lines, []);
    assert WithMark(mark, lines) + [] == WithMark(mark, lines);
  }

  /** The walk transforms old into new and leaves a longest common subsequence unchanged. */
  lemma {:induction false} WalkTransforms(old_: seq<string>, cur: seq<string>)
    ensures Transforms(Walk(old_, cur), old_, cur)
    ensures |Unchanged(Walk(old_, cur))| == LcsLength(old_, cur)
    decreases |old_| + |cur|
  {
    if old_ == [] {
      MarkAllAlone(MARK_ADD, cur);
    } else if cur == [] {
      MarkAllAlone(MARK_REMOVE, old_);
    } else {
      assert [old_[0]] + old_[1..] == old_ && [cur[0]] + cur[1..] == cur;
      if old_[0] == cur[0] {
        WalkTransforms(old_[1..], cur[1..]);
        MarkOne(MARK_CONTEXT, old_[0], Walk(old_[1..], cur[1..]));
      } else if LcsLength(old_[1..], cur) >= LcsLength(old_, cur[1..]) {
        WalkTransforms(old_[1..], cur);
        MarkOne(MARK_REMOVE, old_[0], Walk(old_[1..], cur));
      } else {
        WalkTransforms(old_, cur[1..]);
        MarkOne(MARK_ADD, cur[0], Walk(old_, cur[1..]));
      }
    }
  }

  /** Inputs of every size: the script reads back as the old lines and as the new lines. */
  lemma ScriptReconstructs(old_: seq<string>, cur: seq<string>)
    ensures Transforms(ScriptOf(old_, cur), old_, cur)
    ensures |Unchanged(ScriptOf(old_, cur))| == if |old_| <= 1000 && |cur| <= 1000 then LcsLength(old_, cur) else 0
  {
    if Comparable(old_, cur) {
      WalkTransforms(old_, cur);
    } else {
      var added := WithMark(MARK_ADD, cur);
      MarkAllAlone(MARK_ADD, cur);
      MarkAll(MARK_REMOVE, old_, added);
    }
  }

  /** Within the limit no edit script between the same two inputs changes fewer lines. */
  lemma ScriptIsMinimal(old_: seq<string>, cur: seq<string>, e: seq<string>)
    requires |old_| <= 1000 && |cur| <= 1000
    requires Transforms(e, old_, cur)
    ensures Changes(ScriptOf(old_, cur)) <= Changes(e)
  {
    ScriptReconstructs(old_, cur);
    ScriptBalance(ScriptOf(old_, cur));
    ScriptBalance(e);
    LcsLengthBounds(Unchanged(e), old_, cur);
  }

  /** `e` changes no more lines than any other script between the same two inputs. */
  ghost predicate IsMinimal(e: seq<string>, old_: seq<string>, cur: seq<string>) {
    Transforms(e, old_, cur) && forall f :: Transforms(f, old_, cur) ==> Changes(e) <= Changes(f)
  }

  predicate NothingInCommon(old_: seq<string>, cur: seq<string>) {
    forall i, j :: 0 <= i < |old_| && 0 <= j < |cur| ==> old_[i] != cur[j]
  }

  lemma {:induction false} NoLcsIff(old_: seq<string>, cur: seq<string>)
    ensures LcsLength(old_, cur) == 0 <==> NothingInCommon(old_, cur)
    decreases |old_| + |cur|
  {
    if old_ != [] && cur != [] && old_[0] != cur[0] {
      NoLcsIff(old_[1..], cur);
      NoLcsIff(old_, cur[1..]);
      assert forall i :: 1 <= i < |old_| ==> old_[i] == old_[1..][i - 1];
      assert forall j :: 1 <= j < |cur| ==> cur[j] == cur[1..][j - 1];
    }
  }

  /**
   Inputs of every size: the script is minimal exactly within the limit, or when the inputs have no line in
   common.
   */
  lemma MinimalIff(old_: seq<string>, cur: seq<string>)
    ensures IsMinimal(ScriptOf(old_, cur), old_, cur) <==>
            (|old_| <= 1000 && |cur| <= 1000) || NothingInCommon(old_, cur)
  {
    hide LcsLength, Transforms, Changes, ScriptOf, NothingInCommon;
    NoLcsIff(old_, cur);
    ScriptReconstructs(old_, cur);
    if Comparable(old_, cur) {
      forall f | Transforms(f, old_, cur)
        ensures Changes(ScriptOf(old_, cur)) <= Changes(f)
      {
        ScriptIsMinimal(old_, cur, f);
      }
    } else {
      forall f | Transforms(f, old_, cur)
        ensures LcsLength(old_, cur) == 0 ==> Changes(ScriptOf(old_, cur)) <= Changes(f)
      {
        MoreChanges(ScriptOf(old_, cur), f, old_, cur);
      }
      WalkTransforms(old_, cur);
      MoreChanges(Walk(old_, cur), ScriptOf(old_, cur), old_, cur);
    }
  }

  /** What a script leaves unchanged decides how much it changes. */
  lemma MoreChanges(e: seq<string>, f: seq<string>, old_: seq<string>, cur: seq<string>)
    requires Transforms(e, old_, cur) && Transforms(f, old_, cur)
    ensures Changes(e) - Changes(f) == 2 * (|Unchanged(f)| - |Unchanged(e)|)
    ensures |Unchanged(f)| <= LcsLength(old_, cur)
  {
    ScriptBalance(e);
    ScriptBalance(f);
    LcsLengthBounds(Unchanged(f), old_, cur);
  }

  lemma {:induction false} SelfLcs(a: seq<string>)
    ensures LcsLength(a, a) == |a|
  {
    if a != [] { SelfLcs(a[1..]); }
  }

  // ---- What is removed stands before what is added ----

  lemma LcsLengthShrinks(a: seq<string>, b: seq<string>)
    requires b != []
    ensures LcsLength(a, b[1..]) <= LcsLength(a, b)
  {
    LcsLengthIsLongest(a, b[1..]);
    LcsLengthIsLongest(a, b);
    var s :| Common(s, a, b[1..]) && |s| == LcsLength(a, b[1..]);
    assert Common(s, a, b);
  }

  /** No added line stands right in front of a removed one, so that a changed passage shows the old lines first. */
  ghost predicate OldFirst(e: seq<string>) {
    forall i :: 0 < i < |e| && IsRemove(e[i]) ==> !IsAdd(e[i - 1])
  }

  lemma OldFirstStep(l: string, e: seq<string>)
    requires OldFirst(e) && (IsAdd(l) && e != [] ==> !IsRemove(e[0]))
    ensures OldFirst([l] + e)
  {
    var all := [l] + e;
    forall i | 0 < i < |all| && IsRemove(all[i])
      ensures !IsAdd(all[i - 1])
    {
      assert all[i] == e[i - 1] && (i > 1 ==> all[i - 1] == e[i - 2]);
    }
  }

  lemma {:induction false} AllMarked(mark: string, lines: seq<string>)
    requires |mark| == 2
    ensures forall i :: 0 <= i < |WithMark(mark, lines)| ==>
              |WithMark(mark, lines)[i]| >= 2 && WithMark(mark, lines)[i][..2] == mark
  {
    if lines != [] {
      AllMarked(mark, lines[1..]);
    }
  }

  lemma {:induction false} WalkOldFirst(old_: seq<string>, cur: seq<string>)
    ensures OldFirst(Walk(old_, cur))
    decreases |old_| + |cur|
  {
    hide OldFirst, IsAdd, IsRemove;
    if old_ == [] || cur == [] {
      OneMarkOldFirst(if old_ == [] then MARK_ADD else MARK_REMOVE, if old_ == [] then cur else old_);
    } else if old_[0] == cur[0] {
      WalkOldFirst(old_[1..], cur[1..]);
      MarkIs(old_[0]);
      OldFirstStep(MARK_CONTEXT + old_[0], Walk(old_[1..], cur[1..]));
    } else if LcsLength(old_[1..], cur) >= LcsLength(old_, cur[1..]) {
      WalkOldFirst(old_[1..], cur);
      MarkIs(old_[0]);
      OldFirstStep(MARK_REMOVE + old_[0], Walk(old_[1..], cur));
    } else {
      WalkOldFirst(old_, cur[1..]);
      AddThenNoRemove(old_, cur);
      OldFirstStep(MARK_ADD + cur[0], Walk(old_, cur[1..]));
    }
  }

  lemma OneMarkOldFirst(mark: string, lines: seq<string>)
    requires mark == MARK_ADD || mark == MARK_REMOVE
    ensures OldFirst(WithMark(mark, lines))
  {
    AllMarked(mark, lines);
    MarksDiffer();
  }

  lemma MarkIs(l: string)
    ensures !IsAdd(MARK_CONTEXT + l) && !IsAdd(MARK_REMOVE + l)
    ensures !IsRemove(MARK_CONTEXT + l) && !IsRemove(MARK_ADD + l)
  {
    MarksDiffer();
    assert (MARK_CONTEXT + l)[..2] == MARK_CONTEXT && (MARK_REMOVE + l)[..2] == MARK_REMOVE;
    assert (MARK_ADD + l)[..2] == MARK_ADD;
  }

  /** Where adding is the only way to a longest common subsequence, the walk does not remove next. */
  lemma AddThenNoRemove(old_: seq<string>, cur: seq<string>)
    requires old_ != [] && cur != [] && LcsLength(old_[1..], cur) < LcsLength(old_, cur[1..])
    ensures Walk(old_, cur[1..]) != [] ==> !IsRemove(Walk(old_, cur[1..])[0])
  {
    var rest := cur[1..];
    assert rest != [];
    LcsLengthShrinks(old_[1..], cur);
    MarkIs(old_[0]);
    MarkIs(rest[0]);
  }

  /** Inputs of every size: the script never shows an added line right in front of a removed one. */
  lemma RemovedBeforeAdded(old_: seq<string>, cur: seq<string>)
    ensures OldFirst(ScriptOf(old_, cur))
  {
    if Comparable(old_, cur) {
      WalkOldFirst(old_, cur);
    } else {
      AllMarked(MARK_REMOVE, old_);
      AllMarked(MARK_ADD, cur);
      MarksDiffer();
    }
  }

  /** A diff shows no change exactly when nothing changed and the table was used. */
  lemma NoChangesIffEqual(old_: seq<string>, cur: seq<string>)
    ensures Changes(ScriptOf(old_, cur)) == 0 <==> old_ == cur && |old_| <= 1000 && |cur| <= 1000
  {
    var e := ScriptOf(old_, cur);
    ScriptReconstructs(old_, cur);
    ScriptBalance(e);
    if old_ == cur {
      SelfLcs(old_);
    }
    if Changes(e) == 0 {
      AllContext(e);
    }
  }

  lemma {:induction false} AllContext(e: seq<string>)
    requires IsScript(e) && Changes(e) == 0
    ensures OldSide(e) == NewSide(e)
  {
    if e != [] { AllContext(e[1..]); }
  }

  /** Emits the script: walks both sides by the table while both have lines, then the rest. */
  method DiffLines(old_: seq<string>, cur: seq<string>) returns (out: seq<string>)
    ensures out == ScriptOf(old_, cur)
  {
    if |old_| > MAX_DIFF_LINES || |cur| > MAX_DIFF_LINES {
      out := ReplaceAll(old_, cur);
      return;
    }
    out := WalkLines(old_, cur);
  }

  method WalkLines(old_: seq<string>, cur: seq<string>) returns (out: seq<string>)
    ensures out == Walk(old_, cur)
  {
    hide Walk, WithMark, IsLcsTable;
    var table := Lcs(old_, cur);
    out := [];
    var i, j := 0, 0;
    WholeSides(old_, cur);
    while i < |old_| && j < |cur|
      invariant 0 <= i <= |old_| && 0 <= j <= |cur|
      invariant IsLcsTable(table, old_, cur)
      invariant out + Walk(old_[i..], cur[j..]) == Walk(old_, cur)
      decreases |old_| + |cur| - i - j
    {
      var l: string;
      ghost var done := out;
      l, i, j := Turn(old_, cur, table, i, j);
      out := out + [l];
      Assoc(done, [l], Walk(old_[i..], cur[j..]));
    }
    var removed := Marked(MARK_REMOVE, old_[i..]);
    var added := Marked(MARK_ADD, cur[j..]);
    OneSideLeft(old_[i..], cur[j..]);
    Assoc(out, removed, added);
    out := out + removed + added;
  }

  lemma WholeSides(old_: seq<string>, cur: seq<string>)
    ensures old_[0..] == old_ && cur[0..] == cur
  {
  }

  lemma OneSideLeft(old_: seq<string>, cur: seq<string>)
    requires old_ == [] || cur == []
    ensures Walk(old_, cur) == WithMark(MARK_REMOVE, old_) + WithMark(MARK_ADD, cur)
  {
  }

  /** One turn of the walk: the line to emit and the positions after it. */
  method Turn(old_: seq<string>, cur: seq<string>, table: array2<nat>, i: nat, j: nat)
    returns (l: string, i': nat, j': nat)
    requires i < |old_| && j < |cur| && IsLcsTable(table, old_, cur)
    ensures i <= i' <= |old_| && j <= j' <= |cur| && i + j < i' + j'
    ensures Walk(old_[i..], cur[j..]) == [l] + Walk(old_[i'..], cur[j'..])
  {
    WalkStep(old_, cur, i, j);
    if old_[i] == cur[j] {
      l, i', j' := MARK_CONTEXT + old_[i], i + 1, j + 1;
    } else if table[i + 1, j] >= table[i, j + 1] {
      l, i', j' := MARK_REMOVE + old_[i], i + 1, j;
    } else {
      l, i', j' := MARK_ADD + cur[j], i, j + 1;
    }
  }

  /** One turn of the walk, in terms of positions. */
  lemma WalkStep(old_: seq<string>, cur: seq<string>, i: nat, j: nat)
    requires i < |old_| && j < |cur|
    ensures Walk(old_[i..], cur[j..]) ==
            if old_[i] == cur[j] then [MARK_CONTEXT + old_[i]] + Walk(old_[i + 1..], cur[j + 1..])
            else if LcsLength(old_[i + 1..], cur[j..]) >= LcsLength(old_[i..], cur[j + 1..])
            then [MARK_REMOVE + old_[i]] + Walk(old_[i + 1..], cur[j..])
            else [MARK_ADD + cur[j]] + Walk(old_[i..], cur[j + 1..])
  {
    assert old_[i..][1..] == old_[i + 1..] && cur[j..][1..] == cur[j + 1..];
  }

  /** The lines left on one side once the other is used up. */
  method Marked(mark: string, lines: seq<string>) returns (out: seq<string>)
    ensures out == WithMark(mark, lines)
  {
    out := [];
    for i := 0 to |lines|
      invariant out == WithMark(mark, lines[..i])
    {
      assert lines[..i + 1] == lines[..i] + [lines[i]];
      WithMarkAppend(mark, lines[..i], [lines[i]]);
      out := out + [mark + lines[i]];
    }
    assert lines[..|lines|] == lines;
  }

  lemma {:induction false} WithMarkAppend(mark: string, a: seq<string>, b: seq<string>)
    ensures WithMark(mark, a + b) == WithMark(mark, a) + WithMark(mark, b)
  {
    if a == [] {
      assert a + b == b;
    } else {
      assert (a + b)[1..] == a[1..] + b;
      WithMarkAppend(mark, a[1..], b);
    }
  }

  method ReplaceAll(old_: seq<string>, cur: seq<string>) returns (out: seq<string>)
    ensures out == Replacement(old_, cur)
  {
    var removed := Marked(MARK_REMOVE, old_);
    var added := Marked(MARK_ADD, cur);
    out := removed + added;
  }

  // ---- Text in, text out ----

  function StripReturns(lines: seq<string>): (out: seq<string>)
    ensures |out| == |lines|
    ensures forall i :: 0 <= i < |lines| ==> out[i] == TrimSuffix(lines[i], '\r')
  {
    seq(|lines|, i requires 0 <= i < |lines| => TrimSuffix(lines[i], '\r'))
  }

  /** The lines of a text; a trailing newline does not count as a further line. */
  function LinesOf(s: string): seq<string> {
    if s == "" then [] else StripReturns(Split(TrimSuffix(s, '\n'), '\n'))
  }

  method SplitLines(s: string) returns (out: seq<string>)
    ensures out == LinesOf(s)
  {
    if s == "" {
      return [];
    }
    out := Stripped(Split(TrimSuffix(s, '\n'), '\n'));
  }

  method Stripped(parts: seq<string>) returns (out: seq<string>)
    ensures out == StripReturns(parts)
  {
    out := parts;
    for i := 0 to |parts|
      invariant |out| == |parts|
      invariant forall k :: 0 <= k < i ==> out[k] == TrimSuffix(parts[k], '\r')
      invariant forall k :: i <= k < |parts| ==> out[k] == parts[k]
    {
      out := out[i := TrimSuffix(out[i], '\r')];
    }
  }

  /** Every line followed by a newline. */
  function Render(lines: seq<string>): string {
    if lines == [] then "" else lines[0] + "\n" + Render(lines[1..])
  }

  function DiffText(before: string, after: string): string {
    Render(ScriptOf(LinesOf(before), LinesOf(after)))
  }

  lemma {:induction false} RenderAppend(a: seq<string>, l: string)
    ensures Render(a + [l]) == Render(a) + l + "\n"
  {
    if a == [] {
      assert a + [l] == [l];
      assert [l][1..] == [];
    } else {
      assert (a + [l])[1..] == a[1..] + [l];
      RenderAppend(a[1..], l);
    }
  }

  method DiffTexts(before: string, after: string) returns (text: string)
    ensures text == DiffText(before, after)
  {
    var old_ := SplitLines(before);
    var cur := SplitLines(after);
    var lines := DiffLines(old_, cur);
    text := RenderLines(lines);
  }

  method RenderLines(lines: seq<string>) returns (b: string)
    ensures b == Render(lines)
  {
    b := "";
    for i := 0 to |lines|
      invariant b == Render(lines[..i])
    {
      assert lines[..i + 1] == lines[..i] + [lines[i]];
      RenderAppend(lines[..i], lines[i]);
      b := b + lines[i];
      b := b + "\n";
    }
    assert lines[..|lines|] == lines;
  }

  /** How the approval dialog splits a rendered diff into lines again. */
  function SplitDiff(d: string): seq<string> {
    if d == "" then [] else Split(TrimSuffix(d, '\n'), '\n')
  }

  lemma {:induction false} RenderJoined(lines: seq<string>)
    requires lines != []
    ensures Render(lines) == Joined(lines, '\n') + "\n"
  {
    if |lines| == 1 {
      assert lines[1..] == [] && Render([]) == "";
      assert lines[0] + "\n" + "" == lines[0] + "\n";
    } else {
      RenderJoined(lines[1..]);
      Assoc(lines[0] + "\n", Joined(lines[1..], '\n'), "\n");
    }
  }

  lemma SplitRendered(lines: seq<string>)
    requires lines != [] && forall i :: 0 <= i < |lines| ==> '\n' !in lines[i]
    ensures Render(lines) != "" && Render(lines)[|Render(lines)| - 1] == '\n'
    ensures Split(Render(lines)[..|Render(lines)| - 1], '\n') == lines
  {
    hide Render, Joined, Split;
    RenderJoined(lines);
    SplitJoined(lines, '\n');
    assert (Joined(lines, '\n') + "\n")[..|Joined(lines, '\n')|] == Joined(lines, '\n');
  }

  lemma {:induction false} WalkLineFree(old_: seq<string>, cur: seq<string>, c: char)
    requires c != '+' && c != '-' && c != ' '
    requires forall i :: 0 <= i < |old_| ==> c !in old_[i]
    requires forall i :: 0 <= i < |cur| ==> c !in cur[i]
    ensures forall i :: 0 <= i < |Walk(old_, cur)| ==> c !in Walk(old_, cur)[i]
    decreases |old_| + |cur|
  {
    if old_ == [] {
      MarkLineFree(MARK_ADD, cur, c);
    } else if cur == [] {
      MarkLineFree(MARK_REMOVE, old_, c);
    } else if old_[0] == cur[0] {
      WalkLineFree(old_[1..], cur[1..], c);
    } else if LcsLength(old_[1..], cur) >= LcsLength(old_, cur[1..]) {
      WalkLineFree(old_[1..], cur, c);
    } else {
      WalkLineFree(old_, cur[1..], c);
    }
  }

  lemma ScriptLineFree(old_: seq<string>, cur: seq<string>, c: char)
    requires c != '+' && c != '-' && c != ' '
    requires forall i :: 0 <= i < |old_| ==> c !in old_[i]
    requires forall i :: 0 <= i < |cur| ==> c !in cur[i]
    ensures forall i :: 0 <= i < |ScriptOf(old_, cur)| ==> c !in ScriptOf(old_, cur)[i]
  {
    if Comparable(old_, cur) {
      WalkLineFree(old_, cur, c);
    } else {
      MarkLineFree(MARK_REMOVE, old_, c);
      MarkLineFree(MARK_ADD, cur, c);
    }
  }

  lemma {:induction false} MarkLineFree(mark: string, lines: seq<string>, c: char)
    requires c !in mark && forall i :: 0 <= i < |lines| ==> c !in lines[i]
    ensures forall i :: 0 <= i < |WithMark(mark, lines)| ==> c !in WithMark(mark, lines)[i]
  {
    if lines != [] { MarkLineFree(mark, lines[1..], c); }
  }

  lemma LinesOfClean(s: string)
    ensures forall i :: 0 <= i < |LinesOf(s)| ==> '\n' !in LinesOf(s)[i]
  {
  }

  lemma SplitDiffOfRendered(e: seq<string>)
    requires forall i :: 0 <= i < |e| ==> '\n' !in e[i]
    ensures SplitDiff(Render(e)) == e
  {
    if e != [] {
      SplitRendered(e);
    }
  }

  /**
   The rendered diff of any two texts splits back into exactly the marked lines, so the text alone
   gives back the old lines and the new lines.
   */
  lemma DiffReadsBack(before: string, after: string)
    ensures SplitDiff(DiffText(before, after)) == ScriptOf(LinesOf(before), LinesOf(after))
    ensures OldSide(SplitDiff(DiffText(before, after))) == LinesOf(before)
    ensures NewSide(SplitDiff(DiffText(before, after))) == LinesOf(after)
  {
    var old_, cur := LinesOf(before), LinesOf(after);
    var e := ScriptOf(old_, cur);
    ScriptReconstructs(old_, cur);
    LinesOfClean(before);
    LinesOfClean(after);
    ScriptLineFree(old_, cur, '\n');
    SplitDiffOfRendered(e);
  }

  // ---- What counts as a line ----

  /** The lines, some of them with a carriage return at the end. */
  function WithReturns(lines: seq<string>, crs: seq<bool>): (r: seq<string>)
    requires |crs| == |lines|
    ensures |r| == |lines| && forall i :: 0 <= i < |r| ==> r[i] == if crs[i] then lines[i] + "\r" else lines[i]
  {
    seq(|lines|, i requires 0 <= i < |lines| => if crs[i] then lines[i] + "\r" else lines[i])
  }

  /**
   Texts of lines: no newline in them, and no carriage return at the end that could be taken for part of
   the line end.
   */
  predicate AreLines(lines: seq<string>, crs: seq<bool>)
    requires |crs| == |lines|
  {
    forall i :: 0 <= i < |lines| ==>
      '\n' !in lines[i] && (crs[i] || lines[i] == "" || lines[i][|lines[i]| - 1] != '\r')
  }

  lemma StrippedReturns(lines: seq<string>, crs: seq<bool>)
    requires |crs| == |lines| && AreLines(lines, crs)
    ensures StripReturns(WithReturns(lines, crs)) == lines
    ensures forall i :: 0 <= i < |lines| ==> '\n' !in WithReturns(lines, crs)[i]
  {
    var all := WithReturns(lines, crs);
    forall i | 0 <= i < |lines|
      ensures TrimSuffix(all[i], '\r') == lines[i]
    {
    }
  }

  /** A text whose lines all end in LF or CRLF has exactly these lines. */
  lemma LinesOfEnded(lines: seq<string>, crs: seq<bool>)
    requires |crs| == |lines| && AreLines(lines, crs)
    ensures LinesOf(Render(WithReturns(lines, crs))) == lines
  {
    var parts := WithReturns(lines, crs);
    StrippedReturns(lines, crs);
    if lines != [] {
      hide Render, Split, StripReturns, WithReturns;
      SplitRendered(parts);
    }
  }

  /** The same without a newline behind the last line, as long as anything stands there. */
  lemma LinesOfUnended(lines: seq<string>, crs: seq<bool>)
    requires |crs| == |lines| > 0 && AreLines(lines, crs)
    requires WithReturns(lines, crs)[|lines| - 1] != ""
    ensures LinesOf(Joined(WithReturns(lines, crs), '\n')) == lines
  {
    hide Split, StripReturns, WithReturns, Joined;
    var parts := WithReturns(lines, crs);
    StrippedReturns(lines, crs);
    JoinedLast(parts);
    SplitJoined(parts, '\n');
  }

  lemma {:induction false} JoinedLast(parts: seq<string>)
    requires parts != [] && parts[|parts| - 1] != "" && '\n' !in parts[|parts| - 1]
    ensures var s := Joined(parts, '\n'); s != "" && s[|s| - 1] != '\n'
  {
    if |parts| > 1 {
      JoinedLast(parts[1..]);
      var rest := Joined(parts[1..], '\n');
      var s := parts[0] + ['\n'] + rest;
      assert s[|s| - 1] == rest[|rest| - 1];
    }
  }

  /** Lines read back from their rendering, without carriage returns. */
  lemma LinesOfRendered(lines: seq<string>)
    requires forall i :: 0 <= i < |lines| ==>
               '\n' !in lines[i] && (lines[i] == "" || lines[i][|lines[i]| - 1] != '\r')
    ensures LinesOf(Render(lines)) == lines
  {
    hide Render, LinesOf;
    var crs := seq(|lines|, _ => false);
    LinesOfEnded(lines, crs);
    assert WithReturns(lines, crs) == lines;
  }

  /** A newline at the end of a text makes no difference. */
  lemma NewlineAtEnd(s: string)
    requires s != "" && s[|s| - 1] != '\n'
    ensures LinesOf(s + "\n") == LinesOf(s)
  {
    assert TrimSuffix(s + "\n", '\n') == s;
  }

  /** Texts that differ in that newline only make the same diff, on either side. */
  lemma NewlineMakesNoDiff(s: string, t: string)
    requires s != "" && s[|s| - 1] != '\n'
    ensures DiffText(s + "\n", t) == DiffText(s, t) && DiffText(t, s + "\n") == DiffText(t, s)
    ensures Changes(SplitDiff(DiffText(s + "\n", s))) == 0 <==> |LinesOf(s)| <= 1000
  {
    hide LinesOf, Changes, SplitDiff;
    NewlineAtEnd(s);
    NoChangesIffEqual(LinesOf(s), LinesOf(s));
    DiffReadsBack(s, s);
  }
}
