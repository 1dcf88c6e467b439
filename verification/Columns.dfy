/** Choosing the table columns that fit a width. */
module Columns {
  import opened Ints
  import opened Sequences
  import opened Strings

  /** The space between two columns, and the space in front of the first. */
  const COLUMN_GUTTER := 1
  const COLUMN_PREFIX := 6

  datatype Column = Column(id: string, width: int)

  /** Columns always shown, and the order in which others are dropped first. */
  datatype Rules = Rules(keep: seq<string>, drop: seq<string>)

  function TotalWidth(cols: seq<Column>): int {
    if cols == [] then 0 else TotalWidth(cols[..|cols| - 1]) + cols[|cols| - 1].width
  }

  predicate Fits(cols: seq<Column>, width: int) {
    cols == [] || COLUMN_PREFIX + COLUMN_GUTTER * (|cols| - 1) + TotalWidth(cols) <= width
  }

  method ColumnsFit(cols: seq<Column>, width: int) returns (fit: bool)
    ensures fit == Fits(cols, width)
  {
    if |cols| == 0 {
      return true;
    }
    var total := COLUMN_PREFIX + COLUMN_GUTTER * (|cols| - 1);
    for i := 0 to |cols|
      invariant total == COLUMN_PREFIX + COLUMN_GUTTER * (|cols| - 1) + TotalWidth(cols[..i])
    {
      assert cols[..i + 1][..i] == cols[..i];
      total := total + cols[i].width;
    }
    assert cols[..|cols|] == cols;
    return total <= width;
  }

  function Without(cols: seq<Column>, id: string): seq<Column> {
    if cols == [] then []
    else if cols[0].id == id then Without(cols[1..], id)
    else [cols[0]] + Without(cols[1..], id)
  }

  lemma {:induction false} WithoutNext(cols: seq<Column>, i: nat, id: string)
    requires i < |cols|
    ensures Without(cols[..i + 1], id) == Without(cols[..i], id) + (if cols[i].id == id then [] else [cols[i]])
  {
    if i == 0 {
      assert cols[..1][1..] == [];
    } else {
      assert cols[..i + 1][1..] == cols[1..][..i] && cols[..i][1..] == cols[1..][..i - 1];
      WithoutNext(cols[1..], i - 1, id);
    }
  }

  method DropColumn(cols: seq<Column>, id: string) returns (kept: seq<Column>)
    ensures kept == Without(cols, id)
  {
    kept := [];
    for i := 0 to |cols|
      invariant kept == Without(cols[..i], id)
    {
      WithoutNext(cols, i, id);
      if cols[i].id != id {
        kept := kept + [cols[i]];
      }
    }
    assert cols[..|cols|] == cols;
  }

  /** Nothing more is dropped. */
  predicate Settled(cols: seq<Column>, width: int) {
    |cols| <= 1 || Fits(cols, width)
  }

  predicate UniqueIds(cols: seq<Column>) {
    forall i, j :: 0 <= i < j < |cols| ==> cols[i].id != cols[j].id
  }

  /**
   Second stage: columns go from the right, from position `i` down, but for those always shown.
   `None` when the position is past the columns left, which stops the program.
   */
  function FromRight(cols: seq<Column>, i: int, width: int, always: seq<string>): Option<seq<Column>>
    decreases i + 1
  {
    if i < 0 || Settled(cols, width) then Some(cols)
    else if i >= |cols| then None
    else FromRight(if cols[i].id in always then cols else Without(cols, cols[i].id), i - 1, width, always)
  }

  /** First stage: columns go in the order given, but for those always shown; then the second stage. */
  function Chosen(cols: seq<Column>, drop: seq<string>, width: int, always: seq<string>): Option<seq<Column>>
    decreases |drop|
  {
    if Settled(cols, width) then Some(cols)
    else if drop == [] then FromRight(cols, |cols| - 1, width, always)
    else Chosen(if drop[0] in always then cols else Without(cols, drop[0]), drop[1..], width, always)
  }

  lemma {:induction false} WithoutUnique(cols: seq<Column>, id: string)
    requires UniqueIds(cols)
    ensures UniqueIds(Without(cols, id))
    ensures forall c :: c in Without(cols, id) <==> c in cols && c.id != id
  {
    if cols != [] {
      assert cols == [cols[0]] + cols[1..];
      WithoutUnique(cols[1..], id);
      var rest := Without(cols[1..], id);
      forall i | 0 <= i < |rest|
        ensures rest[i].id != cols[0].id
      {
        assert rest[i] in cols[1..];
      }
    }
  }

  /** With unique identifiers exactly one column goes. */
  lemma {:induction false} WithoutOne(cols: seq<Column>, i: nat)
    requires i < |cols| && UniqueIds(cols)
    ensures Without(cols, cols[i].id) == cols[..i] + cols[i + 1..]
    ensures UniqueIds(Without(cols, cols[i].id))
  {
    WithoutUnique(cols, cols[i].id);
    if i == 0 {
      WithoutNone(cols[1..], cols[0].id);
      assert cols[..0] + cols[1..] == cols[1..];
    } else {
      var rest := cols[1..];
      assert UniqueIds(rest);
      assert Without(cols, cols[i].id) == [cols[0]] + Without(rest, rest[i - 1].id);
      hide UniqueIds, Without;
      WithoutOne(rest, i - 1);
      HeadAndTail(cols);
      TakeBehind([cols[0]], rest, i);
      DropBehind([cols[0]], rest, i + 1);
      Assoc([cols[0]], rest[..i - 1], rest[i..]);
    }
  }

  lemma {:induction false} WithoutNone(cols: seq<Column>, id: string)
    requires forall i :: 0 <= i < |cols| ==> cols[i].id != id
    ensures Without(cols, id) == cols
  {
    if cols != [] { WithoutNone(cols[1..], id); }
  }

  method Choose(all: seq<Column>, width: int, rules: Rules) returns (chosen: Option<seq<Column>>)
    ensures chosen == Chosen(all, rules.drop, width, rules.keep)
  {
    var keep := all;
    var always := rules.keep;
    for d := 0 to |rules.drop|
      invariant Chosen(keep, rules.drop[d..], width, always) == Chosen(all, rules.drop, width, always)
    {
      var id := rules.drop[d];
      assert rules.drop[d..][1..] == rules.drop[d + 1..];
      var fit := ColumnsFit(keep, width);
      if |keep| <= 1 || fit {
        return Some(keep);
      }
      if id in always {
        continue;
      }
      keep := DropColumn(keep, id);
    }
    var i := |keep| - 1;
    ghost var result := Chosen(all, rules.drop, width, always);
    while i >= 0
      invariant -1 <= i
      invariant FromRight(keep, i, width, always) == result
    {
      var fit := ColumnsFit(keep, width);
      if |keep| <= 1 || fit {
        return Some(keep);
      }
      if i >= |keep| {
        return None;
      }
      if keep[i].id !in always {
        keep := DropColumn(keep, keep[i].id);
      }
      i := i - 1;
    }
    return Some(keep);
  }

  // ---- What is chosen ----

  lemma {:induction false} WithoutIsSubsequence(cols: seq<Column>, id: string)
    ensures Subsequence(Without(cols, id), cols)
  {
    if cols != [] {
      WithoutIsSubsequence(cols[1..], id);
      SubsequenceCons(cols[0], Without(cols[1..], id), cols[1..]);
      assert [cols[0]] + cols[1..] == cols;
    }
  }

  /** `a` was chosen where `b` was: both or only the second succeeded, and `a` leaves out at least what `b` does. */
  ghost predicate Within(a: Option<seq<Column>>, b: Option<seq<Column>>) {
    a.Some? ==> b.Some? && Subsequence(a.value, b.value)
  }

  lemma WithinDropped(a: Option<seq<Column>>, cols: seq<Column>, id: string)
    requires Within(a, Some(Without(cols, id)))
    ensures Within(a, Some(cols))
  {
    if a.Some? {
      WithoutIsSubsequence(cols, id);
      SubsequenceTransitive(a.value, Without(cols, id), cols);
    }
  }

  lemma {:induction false} FromRightIsSubsequence(cols: seq<Column>, i: int, width: int, always: seq<string>)
    ensures Within(FromRight(cols, i, width, always), Some(cols))
    decreases i + 1
  {
    if i < 0 || Settled(cols, width) {
      SubsequenceOfItself(cols);
    } else if i < |cols| {
      if cols[i].id in always {
        FromRightIsSubsequence(cols, i - 1, width, always);
      } else {
        FromRightIsSubsequence(Without(cols, cols[i].id), i - 1, width, always);
        WithinDropped(FromRight(cols, i, width, always), cols, cols[i].id);
      }
    }
  }

  lemma {:induction false} ChosenIsSubsequence(cols: seq<Column>, drop: seq<string>, width: int, always: seq<string>)
    ensures Within(Chosen(cols, drop, width, always), Some(cols))
    decreases |drop|
  {
    if Settled(cols, width) {
      SubsequenceOfItself(cols);
    } else if drop == [] {
      FromRightIsSubsequence(cols, |cols| - 1, width, always);
    } else if drop[0] in always {
      ChosenIsSubsequence(cols, drop[1..], width, always);
    } else {
      ChosenIsSubsequence(Without(cols, drop[0]), drop[1..], width, always);
      WithinDropped(Chosen(cols, drop, width, always), cols, drop[0]);
    }
  }

  lemma {:induction false} FromRightMonotone(cols: seq<Column>, i: int, narrow: int, wide: int, always: seq<string>)
    requires narrow <= wide
    ensures Within(FromRight(cols, i, narrow, always), FromRight(cols, i, wide, always))
    decreases i + 1
  {
    if i < 0 || Settled(cols, wide) {
      FromRightIsSubsequence(cols, i, narrow, always);
    } else if i < |cols| {
      FromRightMonotone(if cols[i].id in always then cols else Without(cols, cols[i].id), i - 1, narrow, wide, always);
    }
  }

  /** A narrower width chooses a subsequence of what a wider one chooses, whatever the columns and rules. */
  lemma {:induction false} ChosenMonotone(cols: seq<Column>, drop: seq<string>, narrow: int, wide: int,
                                          always: seq<string>)
    requires narrow <= wide
    ensures Within(Chosen(cols, drop, narrow, always), Chosen(cols, drop, wide, always))
    decreases |drop|
  {
    if Settled(cols, wide) {
      ChosenIsSubsequence(cols, drop, narrow, always);
    } else if drop == [] {
      FromRightMonotone(cols, |cols| - 1, narrow, wide, always);
    } else {
      ChosenMonotone(if drop[0] in always then cols else Without(cols, drop[0]), drop[1..], narrow, wide, always);
    }
  }

  /** What every choice from `cols` must be. */
  ghost predicate GoodChoice(r: Option<seq<Column>>, cols: seq<Column>, width: int, always: seq<string>) {
    && r.Some? && (cols != [] ==> r.value != [])
    && (forall c :: c in cols && c.id in always ==> c in r.value)
    && (Fits(r.value, width) || |r.value| == 1 || forall c :: c in r.value ==> c.id in always)
  }

  lemma {:induction false} FromRightIsGood(cols: seq<Column>, i: int, width: int, always: seq<string>)
    requires i < |cols| && UniqueIds(cols)
    requires forall k :: 0 <= k < |cols| && i < k ==> cols[k].id in always
    ensures GoodChoice(FromRight(cols, i, width, always), cols, width, always)
    decreases i + 1
  {
    hide GoodChoice, UniqueIds, Fits;
    if i < 0 || Settled(cols, width) {
      SettledIsGood(cols, width, always);
    } else if cols[i].id in always {
      FromRightIsGood(cols, i - 1, width, always);
    } else {
      var less := Without(cols, cols[i].id);
      WithoutOne(cols, i);
      WithoutUnique(cols, cols[i].id);
      FromRightIsGood(less, i - 1, width, always);
      GoodFromLess(FromRight(less, i - 1, width, always), less, cols, width, always);
    }
  }

  /** Columns that fit, or are few, or are all to be kept, are a good choice of themselves. */
  lemma SettledIsGood(cols: seq<Column>, width: int, always: seq<string>)
    requires Settled(cols, width) || forall k :: 0 <= k < |cols| ==> cols[k].id in always
    ensures GoodChoice(Some(cols), cols, width, always)
  {
  }

  lemma GoodFromLess(r: Option<seq<Column>>, less: seq<Column>, cols: seq<Column>, width: int, always: seq<string>)
    requires GoodChoice(r, less, width, always) && less != []
    requires forall c :: c in cols && c.id in always ==> c in less
    ensures GoodChoice(r, cols, width, always)
  {
  }

  /**
   With unique identifiers the choice is never empty, holds every column that is always shown, and if
   it still does not fit it is a single column or holds nothing else.
   */
  lemma {:induction false} ChosenIsGood(cols: seq<Column>, drop: seq<string>, width: int, always: seq<string>)
    requires UniqueIds(cols)
    ensures GoodChoice(Chosen(cols, drop, width, always), cols, width, always)
    decreases |drop|
  {
    if Settled(cols, width) {
    } else if drop == [] {
      FromRightIsGood(cols, |cols| - 1, width, always);
    } else if drop[0] in always {
      ChosenIsGood(cols, drop[1..], width, always);
    } else {
      WithoutUnique(cols, drop[0]);
      assert cols[0].id != cols[1].id && cols[0] in cols && cols[1] in cols;
      ChosenIsGood(Without(cols, drop[0]), drop[1..], width, always);
    }
  }

  // ---- Repeated identifiers ----

  /** Every choice from the columns is good, for all rules and all widths from `least` on. */
  ghost predicate AlwaysGood(cols: seq<Column>, least: int) {
    forall drop, width, always :: width >= least ==> GoodChoice(Chosen(cols, drop, width, always), cols, width, always)
  }

  function Count(cols: seq<Column>, id: string): (n: nat)
    ensures n <= |cols|
  {
    if cols == [] then 0 else Count(cols[1..], id) + if cols[0].id == id then 1 else 0
  }

  lemma {:induction false} CountWithout(cols: seq<Column>, id: string, x: string)
    ensures Count(Without(cols, id), x) == if id == x then 0 else Count(cols, x)
    ensures forall c :: c in Without(cols, id) ==> c in cols && c.id != id
  {
    if cols != [] { CountWithout(cols[1..], id, x); }
  }

  lemma {:induction false} CountPair(cols: seq<Column>, i: nat, j: nat)
    requires i < j < |cols| && cols[i].id == cols[j].id
    ensures Count(cols, cols[i].id) >= 2
  {
    if i > 0 {
      CountPair(cols[1..], i - 1, j - 1);
    } else {
      CountOne(cols[1..], j - 1);
    }
  }

  lemma {:induction false} CountOne(cols: seq<Column>, i: nat)
    requires i < |cols|
    ensures Count(cols, cols[i].id) >= 1
  {
    if i > 0 { CountOne(cols[1..], i - 1); }
  }

  /** What columns of negative width take off the total. */
  function Deficit(cols: seq<Column>): nat {
    if cols == [] then 0 else Deficit(cols[1..]) + Max(-cols[0].width, 0)
  }

  lemma {:induction false} DeficitBounds(cols: seq<Column>)
    ensures -TotalWidth(cols) <= Deficit(cols)
  {
    if cols != [] {
      var init, last := cols[..|cols| - 1], cols[|cols| - 1];
      DeficitBounds(init);
      DeficitAppend(init, last);
      assert init + [last] == cols;
    }
  }

  lemma {:induction false} DeficitAppend(cols: seq<Column>, c: Column)
    ensures Deficit(cols + [c]) == Deficit(cols) + Max(-c.width, 0)
  {
    if cols != [] {
      assert (cols + [c])[1..] == cols[1..] + [c];
      DeficitAppend(cols[1..], c);
    }
  }

  lemma {:induction false} DeficitWithout(cols: seq<Column>, id: string)
    ensures Deficit(Without(cols, id)) <= Deficit(cols)
  {
    if cols != [] { DeficitWithout(cols[1..], id); }
  }

  lemma {:induction false} NoDeficit(cols: seq<Column>)
    requires forall i :: 0 <= i < |cols| ==> cols[i].width >= 0
    ensures Deficit(cols) == 0
  {
    if cols != [] { NoDeficit(cols[1..]); }
  }

  /** Once the other columns are gone, dropping an identifier that is there twice leaves nothing. */
  lemma {:induction false} Emptied(cols: seq<Column>, drop: seq<string>, x: string, width: int)
    requires width + Deficit(cols) < COLUMN_PREFIX && Count(cols, x) >= 2
    requires x !in drop && forall c :: c in cols ==> c.id == x || c.id in drop
    ensures Chosen(cols, drop + [x], width, []) == Some([])
    decreases |drop|
  {
    DeficitBounds(cols);
    var id := (drop + [x])[0];
    CountWithout(cols, id, x);
    if drop == [] {
      assert forall c :: c in Without(cols, x) ==> c in cols && c.id != x;
    } else {
      DeficitWithout(cols, id);
      assert (drop + [x])[1..] == drop[1..] + [x];
      Emptied(Without(cols, id), drop[1..], x, width);
    }
  }

  function OtherIds(cols: seq<Column>, x: string): (ids: seq<string>)
    ensures x !in ids && forall c :: c in cols ==> c.id == x || c.id in ids
  {
    if cols == [] then [] else (if cols[0].id == x then [] else [cols[0].id]) + OtherIds(cols[1..], x)
  }

  /** Two columns of the same identifier, and a width for which nothing fits: some rules leave nothing. */
  lemma RepeatedIsBad(cols: seq<Column>, width: int)
    requires !UniqueIds(cols) && width + Deficit(cols) < COLUMN_PREFIX
    ensures !AlwaysGood(cols, width)
  {
    var i, j :| 0 <= i < j < |cols| && cols[i].id == cols[j].id;
    var x := cols[i].id;
    CountPair(cols, i, j);
    Emptied(cols, OtherIds(cols, x), x, width);
    hide Chosen, Deficit;
    assert !GoodChoice(Chosen(cols, OtherIds(cols, x) + [x], width, []), cols, width, []);
  }

  /**
   The promises about the choice hold for all rules exactly when no identifier repeats: for all
   widths, and, with columns that take no negative width, for all widths that are not negative.
   */
  lemma GoodIffUnique(cols: seq<Column>)
    ensures (forall least :: AlwaysGood(cols, least)) <==> UniqueIds(cols)
    ensures (forall i :: 0 <= i < |cols| ==> cols[i].width >= 0) ==> (AlwaysGood(cols, 0) <==> UniqueIds(cols))
  {
    if UniqueIds(cols) {
      forall drop, width, always
        ensures GoodChoice(Chosen(cols, drop, width, always), cols, width, always)
      {
        ChosenIsGood(cols, drop, width, always);
      }
    } else {
      var deficit: int := Deficit(cols);
      RepeatedIsBad(cols, -deficit);
      if forall i :: 0 <= i < |cols| ==> cols[i].width >= 0 {
        NoDeficit(cols);
      }
    }
  }

  /** Two equal identifiers at the right end stop the program when the width is too small for three columns. */
  lemma RepeatedIdStops()
    ensures var cols := [Column("a", 1), Column("b", 1), Column("c", 1), Column("c", 1)];
            Chosen(cols, [], 0, []) == None
  {
    var a, b, c := Column("a", 1), Column("b", 1), Column("c", 1);
    var cols := [a, b, c, c];
    assert [c][1..] == [] && [c, c][1..] == [c] && [b, c, c][1..] == [c, c] && cols[1..] == [b, c, c];
    assert Without([], "c") == [];
    assert Without([c], "c") == [];
    assert Without([c, c], "c") == [];
    assert Without([b, c, c], "c") == [b];
    assert Without(cols, "c") == [a, b];
    DeficitBounds(cols);
    assert [a, b][..1] == [a] && [a][..0] == [];
    assert TotalWidth([a]) == 1;
    assert !Settled(cols, 0) && !Settled([a, b], 0);
    assert FromRight([a, b], 2, 0, []) == None;
    assert FromRight(cols, 3, 0, []) == FromRight([a, b], 2, 0, []);
  }

  // ---- Which columns go ----

  /** The width of the columns next to one another, one space between two of them. */
  function RowWidth(cols: seq<Column>): int
    requires cols != []
  {
    if |cols| == 1 then cols[0].width else cols[0].width + 1 + RowWidth(cols[1..])
  }

  lemma {:induction false} RowWidthIs(cols: seq<Column>)
    requires cols != []
    ensures RowWidth(cols) == |cols| - 1 + TotalWidth(cols)
  {
    if |cols| == 1 {
      assert cols[..0] == [];
    } else {
      RowWidthIs(cols[1..]);
      TotalWidthFirst(cols);
    }
  }

  lemma {:induction false} TotalWidthFirst(cols: seq<Column>)
    requires cols != []
    ensures TotalWidth(cols) == cols[0].width + TotalWidth(cols[1..])
  {
    if |cols| > 1 {
      var n := |cols| - 1;
      TotalWidthFirst(cols[..n]);
      assert cols[..n][1..] == cols[1..][..n - 1];
    }
  }

  /** Columns fit when six characters in front of them, they themselves and the spaces between them do. */
  lemma FitsIff(cols: seq<Column>, width: int)
    ensures Fits(cols, width) <==> cols == [] || 6 + RowWidth(cols) <= width
  {
    if cols != [] {
      RowWidthIs(cols);
    }
  }

  /** The columns with an identifier outside `gone`. */
  function LeftOf(cols: seq<Column>, gone: set<string>): seq<Column> {
    if cols == [] then [] else (if cols[0].id in gone then [] else [cols[0]]) + LeftOf(cols[1..], gone)
  }

  lemma {:induction false} LeftOfCount(cols: seq<Column>, gone: set<string>, c: Column)
    ensures multiset(LeftOf(cols, gone))[c] == if c.id in gone then 0 else multiset(cols)[c]
    ensures Subsequence(LeftOf(cols, gone), cols)
  {
    if cols != [] {
      LeftOfCount(cols[1..], gone, c);
      HeadAndTail(cols);
      SubsequenceCons(cols[0], LeftOf(cols[1..], gone), cols[1..]);
      assert [] + LeftOf(cols[1..], gone) == LeftOf(cols[1..], gone);
    }
  }

  lemma {:induction false} WithoutIsLeft(cols: seq<Column>, id: string, gone: set<string>)
    ensures LeftOf(Without(cols, id), gone) == LeftOf(cols, gone + {id})
  {
    if cols != [] {
      WithoutIsLeft(cols[1..], id, gone);
      if cols[0].id == id {
        assert [] + LeftOf(cols[1..], gone + {id}) == LeftOf(cols[1..], gone + {id});
      } else {
        assert ([cols[0]] + Without(cols[1..], id))[1..] == Without(cols[1..], id);
      }
    }
  }

  lemma {:induction false} NothingGone(cols: seq<Column>)
    ensures LeftOf(cols, {}) == cols
  {
    if cols != [] {
      NothingGone(cols[1..]);
      HeadAndTail(cols);
    }
  }

  /** The identifiers that the first `k` rules take away. */
  function Gone(drop: seq<string>, k: nat, always: seq<string>): set<string>
    requires k <= |drop|
  {
    set j | 0 <= j < k && drop[j] !in always :: drop[j]
  }

  lemma GoneFirst(drop: seq<string>, k: nat, always: seq<string>)
    requires 0 < k <= |drop|
    ensures Gone(drop, k, always) ==
            Gone(drop[1..], k - 1, always) + if drop[0] in always then {} else {drop[0]}
  {
    forall x | x in Gone(drop, k, always)
      ensures x in Gone(drop[1..], k - 1, always) + if drop[0] in always then {} else {drop[0]}
    {
      var j :| 0 <= j < k && drop[j] !in always && drop[j] == x;
      assert j > 0 ==> drop[1..][j - 1] == x;
    }
    forall x | x in Gone(drop[1..], k - 1, always)
      ensures x in Gone(drop, k, always)
    {
      var j :| 0 <= j < k - 1 && drop[1..][j] !in always && drop[1..][j] == x;
      assert drop[j + 1] == x;
    }
  }

  /** What the first `k` rules leave. */
  function AfterRules(cols: seq<Column>, drop: seq<string>, k: nat, always: seq<string>): seq<Column>
    requires k <= |drop|
  {
    LeftOf(cols, Gone(drop, k, always))
  }

  lemma AfterRulesStep(cols: seq<Column>, drop: seq<string>, k: nat, always: seq<string>)
    requires 0 < k <= |drop|
    ensures AfterRules(if drop[0] in always then cols else Without(cols, drop[0]), drop[1..], k - 1, always) ==
            AfterRules(cols, drop, k, always)
  {
    GoneFirst(drop, k, always);
    if drop[0] !in always {
      WithoutIsLeft(cols, drop[0], Gone(drop[1..], k - 1, always));
    } else {
      assert Gone(drop[1..], k - 1, always) + {} == Gone(drop[1..], k - 1, always);
    }
  }

  /**
   The rules are applied one after the other, just as many as it takes: the choice is what the fewest
   rules leave that fits or is one column; when not even all rules suffice, columns go from the right.
   */
  lemma {:induction false} RulesInOrder(cols: seq<Column>, drop: seq<string>, width: int, always: seq<string>)
    returns (k: nat)
    ensures k <= |drop| && forall j :: 0 <= j < k ==> !Settled(AfterRules(cols, drop, j, always), width)
    ensures var left := AfterRules(cols, drop, k, always);
            if Settled(left, width) then Chosen(cols, drop, width, always) == Some(left)
            else k == |drop| && Chosen(cols, drop, width, always) == FromRight(left, |left| - 1, width, always)
    decreases |drop|
  {
    hide Settled, AfterRules, FromRight;
    FirstLeft(cols, drop, always);
    k := 0;
    if !Settled(cols, width) && drop != [] {
      var next := if drop[0] in always then cols else Without(cols, drop[0]);
      var m := RulesInOrder(next, drop[1..], width, always);
      k := m + 1;
      forall j | 0 < j <= k
        ensures AfterRules(next, drop[1..], j - 1, always) == AfterRules(cols, drop, j, always)
      {
        AfterRulesStep(cols, drop, j, always);
      }
      forall j | 0 <= j < k
        ensures !Settled(AfterRules(cols, drop, j, always), width)
      {
        assert j > 0 ==> !Settled(AfterRules(next, drop[1..], j - 1, always), width);
      }
    }
  }

  lemma FirstLeft(cols: seq<Column>, drop: seq<string>, always: seq<string>)
    ensures AfterRules(cols, drop, 0, always) == cols
  {
    NothingGone(cols);
    assert Gone(drop, 0, always) == {};
  }

  /** The first `i` columns, and of the others those to be kept always. */
  function CutRight(cols: seq<Column>, i: nat, always: seq<string>): seq<Column>
    requires i <= |cols|
  {
    cols[..i] + KeptOf(cols[i..], always)
  }

  function KeptOf(cols: seq<Column>, always: seq<string>): seq<Column> {
    if cols == [] then [] else (if cols[0].id in always then [cols[0]] else []) + KeptOf(cols[1..], always)
  }

  lemma {:induction false} KeptSettled(cols: seq<Column>, always: seq<string>)
    ensures forall c :: c in KeptOf(cols, always) <==> c in cols && c.id in always
    ensures Subsequence(KeptOf(cols, always), cols)
  {
    if cols != [] {
      KeptSettled(cols[1..], always);
      HeadAndTail(cols);
      SubsequenceCons(cols[0], KeptOf(cols[1..], always), cols[1..]);
      assert [] + KeptOf(cols[1..], always) == KeptOf(cols[1..], always);
    }
  }

  lemma CutRightStep(cols: seq<Column>, i: nat, always: seq<string>)
    requires i < |cols| && UniqueIds(cols)
    ensures CutRight(cols, i, always) ==
            if cols[i].id in always then CutRight(cols, i + 1, always)
            else Without(CutRight(cols, i + 1, always), cols[i].id)
    ensures i < |CutRight(cols, i + 1, always)| && CutRight(cols, i + 1, always)[i] == cols[i]
  {
    var kept := KeptOf(cols[i + 1..], always);
    DropDrop(cols, i, 1);
    assert cols[..i + 1] == cols[..i] + [cols[i]];
    KeptSettled(cols[i + 1..], always);
    if cols[i].id !in always {
      assert cols[..i + 1] + kept == cols[..i] + ([cols[i]] + kept);
      assert cols[..i] + ([] + kept) == cols[..i] + kept;
      OneGoes(cols[..i], cols[i], kept);
    } else {
      Assoc(cols[..i], [cols[i]], kept);
    }
  }

  lemma OneGoes(a: seq<Column>, c: Column, b: seq<Column>)
    requires forall x :: x in a || x in b ==> x.id != c.id
    ensures Without(a + ([c] + b), c.id) == a + b
  {
    if a == [] {
      assert a + ([c] + b) == [c] + b && ([c] + b)[1..] == b && a + b == b;
      NoneGoes(b, c.id);
    } else {
      assert (a + ([c] + b))[1..] == a[1..] + ([c] + b) && (a + ([c] + b))[0] == a[0];
      OneGoes(a[1..], c, b);
      HeadAndTail(a);
      Assoc([a[0]], a[1..], b);
    }
  }

  lemma {:induction false} NoneGoes(cols: seq<Column>, id: string)
    requires forall x :: x in cols ==> x.id != id
    ensures Without(cols, id) == cols
  {
    if cols != [] {
      NoneGoes(cols[1..], id);
      HeadAndTail(cols);
    }
  }

  /**
   From the right, columns go one after the other but for those to be kept always, just as many as it
   takes: the choice is the longest such cut that fits or is one column, or the shortest of all.
   */
  lemma {:induction false} RightmostFirst(cols: seq<Column>, i: nat, width: int, always: seq<string>) returns (k: nat)
    requires i <= |cols| && UniqueIds(cols)
    ensures k <= i && forall j :: k < j <= i ==> !Settled(CutRight(cols, j, always), width)
    ensures k == 0 || Settled(CutRight(cols, k, always), width)
    ensures FromRight(CutRight(cols, i, always), i - 1, width, always) == Some(CutRight(cols, k, always))
    decreases i
  {
    hide Settled, CutRight, UniqueIds;
    k := i;
    if i > 0 && !Settled(CutRight(cols, i, always), width) {
      CutRightStep(cols, i - 1, always);
      k := RightmostFirst(cols, i - 1, width, always);
    }
  }

  lemma NothingCut(cols: seq<Column>, always: seq<string>)
    ensures CutRight(cols, |cols|, always) == cols
  {
  }

  /** The whole choice over columns without repeated identifiers: rules first, then from the right. */
  lemma ChosenIs(cols: seq<Column>, drop: seq<string>, width: int, always: seq<string>) returns (k: nat, m: nat)
    requires UniqueIds(cols)
    ensures k <= |drop| && forall j :: 0 <= j < k ==> !Settled(AfterRules(cols, drop, j, always), width)
    ensures var left := AfterRules(cols, drop, k, always);
            && m <= |left| && (k < |drop| ==> m == |left|) && (m == 0 || Settled(CutRight(left, m, always), width))
            && (forall j :: m < j <= |left| ==> !Settled(CutRight(left, j, always), width))
            && Chosen(cols, drop, width, always) == Some(CutRight(left, m, always))
  {
    hide Settled, CutRight, FromRight, Chosen;
    k := RulesInOrder(cols, drop, width, always);
    var left := AfterRules(cols, drop, k, always);
    NothingCut(left, always);
    m := |left|;
    if !Settled(left, width) {
      LeftUnique(cols, Gone(drop, k, always));
      m := RightmostFirst(left, |left|, width, always);
    }
  }

  lemma {:induction false} LeftUnique(cols: seq<Column>, gone: set<string>)
    requires UniqueIds(cols)
    ensures UniqueIds(LeftOf(cols, gone)) && forall c :: c in LeftOf(cols, gone) ==> c in cols
  {
    if cols != [] {
      LeftUnique(cols[1..], gone);
      if cols[0].id !in gone {
        UniqueCons(cols, LeftOf(cols[1..], gone));
      }
    }
  }

  lemma UniqueCons(cols: seq<Column>, rest: seq<Column>)
    requires cols != [] && UniqueIds(cols) && UniqueIds(rest) && forall c :: c in rest ==> c in cols[1..]
    ensures UniqueIds([cols[0]] + rest)
  {
    forall c | c in rest
      ensures c.id != cols[0].id
    {
      var m :| 0 <= m < |cols[1..]| && cols[1..][m] == c;
      assert cols[m + 1] == c;
    }
  }
}
