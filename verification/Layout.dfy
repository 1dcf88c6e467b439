/** Sharing the height of the list among its visible sections. */
module Layout {
  import opened Ints
  import opened Sequences

  /** A section: whether it has a title, which takes a divider line, and how many rows it shows. */
  datatype Size = Size(titled: bool, rows: nat)

  const HEADER_HEIGHT := 1

  /** The lines a section takes besides its rows. */
  function ChromeHeight(s: Size): int { (if s.titled then 1 else 0) + HEADER_HEIGHT }

  function Need(s: Size): int { ChromeHeight(s) + s.rows }

  /** The least a section gets: one row. */
  function Least(s: Size): int { ChromeHeight(s) + 1 }

  /** The sections that have rows; the others are not drawn. */
  function VisibleSizes(sizes: seq<Size>): (r: seq<Size>)
    ensures HaveRows(r)
  {
    if sizes == [] then []
    else VisibleSizes(sizes[..|sizes| - 1]) + if sizes[|sizes| - 1].rows > 0 then [sizes[|sizes| - 1]] else []
  }

  predicate HaveRows(sizes: seq<Size>) {
    forall i :: 0 <= i < |sizes| ==> sizes[i].rows > 0
  }

  function LeastOf(sizes: seq<Size>): int {
    if sizes == [] then 0 else Least(sizes[0]) + LeastOf(sizes[1..])
  }

  function Sum(a: seq<int>): int {
    if a == [] then 0 else a[0] + Sum(a[1..])
  }

  /** The heights given out: earlier sections first, with one row reserved for each later one. */
  function Allocs(avail: int, sizes: seq<Size>): (r: seq<int>)
    ensures |r| == |sizes|
    decreases |sizes|
  {
    if sizes == [] then []
    else
      var a := Max(Min(Need(sizes[0]), avail - LeastOf(sizes[1..])), Least(sizes[0]));
      [a] + Allocs(avail - a, sizes[1..])
  }

  /** What the sections from `from` on need at least. */
  method Reserve(sizes: seq<Size>, from: nat) returns (reserve: int)
    requires from <= |sizes|
    ensures reserve == LeastOf(sizes[from..])
  {
    reserve := 0;
    for j := from to |sizes|
      invariant reserve + LeastOf(sizes[j..]) == LeastOf(sizes[from..])
    {
      assert sizes[j..][1..] == sizes[j + 1..];
      reserve := reserve + Least(sizes[j]);
    }
  }

  method VisibleSections(sections: seq<Size>) returns (out: seq<Size>)
    ensures out == VisibleSizes(sections)
  {
    out := [];
    for i := 0 to |sections|
      invariant out == VisibleSizes(sections[..i])
    {
      assert sections[..i + 1][..i] == sections[..i];
      if sections[i].rows > 0 {
        out := out + [sections[i]];
      }
    }
    assert sections[..|sections|] == sections;
  }

  lemma AllocsStep(avail: int, sizes: seq<Size>, i: nat)
    requires i < |sizes|
    ensures var a := Max(Min(Need(sizes[i]), avail - LeastOf(sizes[i + 1..])), Least(sizes[i]));
            Allocs(avail, sizes[i..]) == [a] + Allocs(avail - a, sizes[i + 1..])
  {
    DropDrop(sizes, i, 1);
  }

  lemma AllocsEnds(avail: int, sizes: seq<Size>)
    ensures sizes[0..] == sizes && Allocs(avail, sizes[|sizes|..]) == []
  {
  }

  method Layout(height: int, filterVisible: bool, sections: seq<Size>) returns (allocs: seq<int>)
    ensures allocs == Allocs(if filterVisible then height - 1 else height, VisibleSizes(sections))
  {
    hide Allocs, LeastOf, Max, Min, Need, Least, VisibleSizes;
    var visible := VisibleSections(sections);
    var avail := height;
    if filterVisible {
      avail := avail - 1;
    }
    ghost var given := avail;
    allocs := [];
    AllocsEnds(avail, visible);
    for idx := 0 to |visible|
      invariant allocs + Allocs(avail, visible[idx..]) == Allocs(given, visible)
    {
      var reserve := Reserve(visible, idx + 1);
      var s := visible[idx];
      var alloc := Max(Min(Need(s), avail - reserve), Least(s));
      AllocsStep(avail, visible, idx);
      Assoc(allocs, [alloc], Allocs(avail - alloc, visible[idx + 1..]));
      allocs := allocs + [alloc];
      avail := avail - alloc;
    }
    AllocsEnds(avail, visible);
  }

  /** The lines of a section's table: its divider if it has a title, its header, and so many rows. */
  function Lines(s: Size, rows: int): int {
    if s.titled then 2 + rows else 1 + rows
  }

  /** Every section shows at least one of its rows and no blank line, and together they take no more than there is. */
  predicate Feasible(allocs: seq<int>, avail: int, sizes: seq<Size>) {
    && |allocs| == |sizes| && Sum(allocs) <= avail
    && forall i :: 0 <= i < |sizes| ==> Lines(sizes[i], 1) <= allocs[i] <= Lines(sizes[i], sizes[i].rows)
  }

  lemma {:induction false} AllocsFeasible(avail: int, sizes: seq<Size>)
    requires HaveRows(sizes) && LeastOf(sizes) <= avail
    ensures Feasible(Allocs(avail, sizes), avail, sizes)
    decreases |sizes|
  {
    if sizes != [] {
      var a := Allocs(avail, sizes)[0];
      AllocsFeasible(avail - a, sizes[1..]);
    }
  }

  /** `a` gives some section more than `b` does, and no earlier section less. */
  predicate EarlierMore(a: seq<int>, b: seq<int>) {
    a != [] && b != [] && (a[0] > b[0] || (a[0] == b[0] && EarlierMore(a[1..], b[1..])))
  }

  /**
   When the least heights fit, no feasible sharing favours earlier sections more: none can get more without
   a later one falling below its least.
   */
  lemma {:induction false} NoEarlierMore(avail: int, sizes: seq<Size>, other: seq<int>)
    requires HaveRows(sizes) && LeastOf(sizes) <= avail && Feasible(other, avail, sizes)
    ensures !EarlierMore(other, Allocs(avail, sizes))
    decreases |sizes|
  {
    if sizes != [] {
      var a := Allocs(avail, sizes)[0];
      LeastIsLeast(other[1..], sizes[1..]);
      if other[0] == a {
        NoEarlierMore(avail - a, sizes[1..], other[1..]);
      }
    }
  }

  lemma {:induction false} LeastIsLeast(allocs: seq<int>, sizes: seq<Size>)
    requires |allocs| == |sizes| && forall i :: 0 <= i < |sizes| ==> Least(sizes[i]) <= allocs[i]
    ensures LeastOf(sizes) <= Sum(allocs)
  {
    if sizes != [] { LeastIsLeast(allocs[1..], sizes[1..]); }
  }

  /** The sharing is feasible exactly when the least heights fit; otherwise every section gets its least. */
  lemma {:induction false} TooTight(avail: int, sizes: seq<Size>)
    requires HaveRows(sizes) && LeastOf(sizes) > avail
    ensures forall i :: 0 <= i < |sizes| ==> Allocs(avail, sizes)[i] == Lines(sizes[i], 1)
    decreases |sizes|
  {
    if sizes != [] {
      var a := Allocs(avail, sizes)[0];
      if sizes[1..] != [] {
        TooTight(avail - a, sizes[1..]);
      }
      assert forall i :: 1 <= i < |sizes| ==> Allocs(avail, sizes)[i] == Allocs(avail - a, sizes[1..])[i - 1];
    }
  }

  lemma FeasibleIff(avail: int, sizes: seq<Size>)
    requires HaveRows(sizes)
    ensures Feasible(Allocs(avail, sizes), avail, sizes) <==> LeastOf(sizes) <= avail
  {
    if LeastOf(sizes) <= avail {
      AllocsFeasible(avail, sizes);
    } else if Feasible(Allocs(avail, sizes), avail, sizes) {
      LeastIsLeast(Allocs(avail, sizes), sizes);
    }
  }

  /** The sections with a title. */
  function Titled(sizes: seq<Size>): set<int> {
    set i | 0 <= i < |sizes| && sizes[i].titled
  }

  /** The least heights together: two lines for each section, and one more for each title. */
  lemma {:induction false} LeastOfIs(sizes: seq<Size>)
    ensures LeastOf(sizes) == 2 * |sizes| + |Titled(sizes)|
  {
    hide LeastOf;
    if sizes == [] {
      assert Titled(sizes) == {} && LeastOf(sizes) == 0 by { NoLeast(); }
    } else {
      LeastOfIs(sizes[..|sizes| - 1]);
      LeastOfLast(sizes);
      TitledLast(sizes);
    }
  }

  lemma NoLeast()
    ensures LeastOf([]) == 0
  {
  }

  lemma TitledLast(sizes: seq<Size>)
    requires sizes != []
    ensures var n := |sizes| - 1; |Titled(sizes)| == |Titled(sizes[..n])| + if sizes[n].titled then 1 else 0
  {
    var n := |sizes| - 1;
    assert Titled(sizes) == Titled(sizes[..n]) + if sizes[n].titled then {n} else {};
    assert n !in Titled(sizes[..n]);
  }

  lemma {:induction false} LeastOfLast(sizes: seq<Size>)
    requires sizes != []
    ensures LeastOf(sizes) == LeastOf(sizes[..|sizes| - 1]) + Lines(sizes[|sizes| - 1], 1)
  {
    if |sizes| > 1 {
      LeastOfLast(sizes[1..]);
      assert sizes[1..][..|sizes| - 2] == sizes[..|sizes| - 1][1..];
    }
  }

  /** Exactly the sections with rows are drawn, in their order. */
  lemma {:induction false} VisibleAre(sizes: seq<Size>, s: Size)
    ensures multiset(VisibleSizes(sizes))[s] == if s.rows > 0 then multiset(sizes)[s] else 0
  {
    if sizes != [] {
      var before, last := sizes[..|sizes| - 1], sizes[|sizes| - 1];
      VisibleAre(before, s);
      assert multiset(sizes) == multiset(before) + multiset{last} by { assert sizes == before + [last]; }
    }
  }

  lemma {:induction false} VisibleInOrder(sizes: seq<Size>)
    ensures Subsequence(VisibleSizes(sizes), sizes)
  {
    hide Subsequence;
    if sizes == [] {
      SubsequenceOfItself(sizes);
    } else {
      var before, last := sizes[..|sizes| - 1], sizes[|sizes| - 1];
      VisibleInOrder(before);
      SubsequenceSnoc(VisibleSizes(before), before, last);
      assert sizes == before + [last] && VisibleSizes(before) + [] == VisibleSizes(before);
    }
  }
}
