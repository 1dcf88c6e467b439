/**
 The list shared by all tabs: sections of rows with one cursor running through them, a selection by
 row identifier, and a filter.
 */
module Table {
  import opened Ints
  import opened Sequences
  import opened Strings

  /** How a section identifies, matches and disables its rows; a missing function is `None`. */
  datatype Def<!T> = Def(id: Option<T -> string>, matches: Option<(T, string) -> bool>, disabled: Option<T -> bool>,
                          selectable: bool)

  /** One section: all rows, the rows left by the filter, and the cursor of its table (-1 or 0 while it is empty). */
  datatype Section<!T> = Section(def: Def<T>, items: seq<T>, shown: seq<T>, cursor: int)

  datatype State<!T> = State(sections: seq<Section<T>>, focus: nat, checked: set<string>, query: string)

  // ---- One section ----

  predicate Visible<T>(s: Section<T>) {
    |s.shown| > 0
  }

  /** Rebuilding the rows: the table pulls its cursor back to the last row, and an empty one is put on row 0 again. */
  function Refreshed<T>(s: Section<T>): Section<T> {
    var c := Min(s.cursor, |s.shown| - 1);
    s.(cursor := if Visible(s) && c < 0 then 0 else c)
  }

  /** Setting the cursor, which the table clamps to its rows. */
  function WithCursor<T>(s: Section<T>, c: int): Section<T> {
    Refreshed(s.(cursor := Min(Max(Max(c, 0), 0), |s.shown| - 1)))
  }

  function SelectedIn<T>(s: Section<T>): Option<T> {
    if 0 <= s.cursor < |s.shown| then Some(s.shown[s.cursor]) else None
  }

  predicate CanSelect<T>(s: Section<T>) {
    s.def.selectable && s.def.id.Some?
  }

  predicate IsDisabled<T>(s: Section<T>, item: T) {
    s.def.disabled.Some? && s.def.disabled.value(item)
  }

  function Filter<T>(items: seq<T>, matches: (T, string) -> bool, q: string): seq<T> {
    if items == [] then []
    else Filter(items[..|items| - 1], matches, q) + if matches(items[|items| - 1], q) then [items[|items| - 1]] else []
  }

  /** The rows a filter leaves; a section that cannot match shows all of them. */
  function ShownFor<T>(def: Def<T>, items: seq<T>, q: string): seq<T> {
    if q == "" || def.matches.None? then items else Filter(items, def.matches.value, q)
  }

  function Refiltered<T>(s: Section<T>, q: string): Section<T> {
    Refreshed(s.(shown := ShownFor(s.def, s.items, q)))
  }

  /** The first shown row with the identifier, or -1. */
  function FindId<T>(shown: seq<T>, id: T -> string, x: string): (i: int)
    ensures -1 <= i < |shown|
    ensures i >= 0 ==> id(shown[i]) == x && forall k :: 0 <= k < i ==> id(shown[k]) != x
    ensures i < 0 ==> forall k :: 0 <= k < |shown| ==> id(shown[k]) != x
  {
    if shown == [] then -1
    else if id(shown[0]) == x then 0
    else
      var i := FindId(shown[1..], id, x);
      if i < 0 then -1 else i + 1
  }

  /**
   Where the cursor goes after the rows were exchanged: to the row remembered, else to row 0; without a
   memory it stays.
   */
  function Restored<T>(s: Section<T>, anchor: Option<string>): int {
    if anchor.None? || s.def.id.None? then s.cursor
    else Max(FindId(s.shown, s.def.id.value, anchor.value), 0)
  }

  // ---- The whole list ----

  predicate InRange<T>(t: State<T>) {
    t.focus < |t.sections|
  }

  function Selected<T>(t: State<T>): Option<T> {
    if InRange(t) then SelectedIn(t.sections[t.focus]) else None
  }

  function AnchorOf<T>(t: State<T>): Option<string> {
    if !InRange(t) then None
    else
      var s := t.sections[t.focus];
      if s.def.id.None? || SelectedIn(s).None? then None else Some(s.def.id.value(SelectedIn(s).value))
  }

  function RefreshedAt<T>(sections: seq<Section<T>>, i: nat): seq<Section<T>>
    requires i < |sections|
  {
    sections[i := Refreshed(sections[i])]
  }

  function RefreshedAll<T>(sections: seq<Section<T>>): (r: seq<Section<T>>)
    ensures |r| == |sections| && forall i :: 0 <= i < |sections| ==> r[i] == Refreshed(sections[i])
  {
    seq(|sections|, i requires 0 <= i < |sections| => Refreshed(sections[i]))
  }

  function Focused<T>(t: State<T>, i: int, c: int): State<T> {
    if !(0 <= i < |t.sections|) then t
    else
      var placed := t.sections[i := WithCursor(t.sections[i], c)];
      t.(focus := i,
         sections := if t.focus != i && t.focus < |t.sections| then RefreshedAt(placed, t.focus) else placed)
  }

  /** The first visible section at or after `from`, or -1. */
  function NextVisible<T>(sections: seq<Section<T>>, from: nat): (i: int)
    requires from <= |sections|
    ensures -1 <= i < |sections|
    ensures i >= 0 ==> from <= i && Visible(sections[i]) && forall k :: from <= k < i ==> !Visible(sections[k])
    ensures i < 0 ==> forall k :: from <= k < |sections| ==> !Visible(sections[k])
    decreases |sections| - from
  {
    if from == |sections| then -1 else if Visible(sections[from]) then from else NextVisible(sections, from + 1)
  }

  /** The last visible section before `to`, or -1. */
  function LastVisible<T>(sections: seq<Section<T>>, to: nat): (i: int)
    requires to <= |sections|
    ensures -1 <= i < to
    ensures i >= 0 ==> Visible(sections[i]) && forall k :: i < k < to ==> !Visible(sections[k])
    ensures i < 0 ==> forall k :: 0 <= k < to ==> !Visible(sections[k])
  {
    if to == 0 then -1 else if Visible(sections[to - 1]) then to - 1 else LastVisible(sections, to - 1)
  }

  function Normalized<T>(t: State<T>, anchor: Option<string>): State<T> {
    if InRange(t) && Visible(t.sections[t.focus]) then Focused(t, t.focus, Restored(t.sections[t.focus], anchor))
    else Focused(t, Max(NextVisible(t.sections, 0), 0), 0)
  }

  /** The identifiers of a selectable section's rows. */
  function LiveIn<T>(s: Section<T>): set<string> {
    if CanSelect(s) then set j | 0 <= j < |s.items| :: s.def.id.value(s.items[j]) else {}
  }

  /** The identifiers of the existing rows of selectable sections. */
  function LiveIds<T>(sections: seq<Section<T>>): set<string> {
    if sections == [] then {} else LiveIds(sections[..|sections| - 1]) + LiveIn(sections[|sections| - 1])
  }

  function Pruned<T>(t: State<T>): State<T> {
    if t.checked <= LiveIds(t.sections) then t
    else t.(checked := t.checked * LiveIds(t.sections), sections := RefreshedAll(t.sections))
  }

  /** New rows for section `k`. */
  function ItemsSet<T>(t: State<T>, k: int, items: seq<T>): State<T> {
    if !(0 <= k < |t.sections|) then t
    else
      var pruned := Pruned(t.(sections := t.sections[k := t.sections[k].(items := items)]));
      Normalized(pruned.(sections := pruned.sections[k := Refiltered(pruned.sections[k], t.query)]), AnchorOf(t))
  }

  function RefilteredAll<T>(sections: seq<Section<T>>, q: string): (r: seq<Section<T>>)
    ensures |r| == |sections| && forall i :: 0 <= i < |sections| ==> r[i] == Refiltered(sections[i], q)
  {
    seq(|sections|, i requires 0 <= i < |sections| => Refiltered(sections[i], q))
  }

  /** A new filter text, applied to every section. */
  function Queried<T>(t: State<T>, q: string): State<T> {
    Normalized(t.(query := q, sections := RefilteredAll(t.sections, q)), AnchorOf(t))
  }

  /** The cursor crosses into the next section that has rows; `None` when it does not cross. */
  function Crossed<T>(t: State<T>, down: bool): Option<State<T>> {
    if !InRange(t) then None
    else
      var s := t.sections[t.focus];
      var next := if down then NextVisible(t.sections, t.focus + 1) else LastVisible(t.sections, t.focus);
      if (if down then s.cursor >= |s.shown| - 1 else s.cursor <= 0) && next >= 0
      then Some(Focused(t, next, if down then 0 else |t.sections[next].shown| - 1))
      else None
  }

  /** The table of the focused section moves its own cursor by one row. */
  function MovedInside<T>(t: State<T>, down: bool): State<T> {
    if !InRange(t) then t
    else
      var s := t.sections[t.focus];
      var c := Min(Max(if down then s.cursor + 1 else s.cursor - 1, 0), |s.shown| - 1);
      t.(sections := t.sections[t.focus := Refreshed(s.(cursor := c))])
  }

  function Moved<T>(t: State<T>, down: bool): State<T> {
    if Crossed(t, down).Some? then Crossed(t, down).value else MovedInside(t, down)
  }

  /** To the first or to the last row of the whole list. */
  function AtEdge<T>(t: State<T>, last: bool): State<T> {
    var i := if last then LastVisible(t.sections, |t.sections|) else NextVisible(t.sections, 0);
    if i < 0 then t else Focused(t, i, if last then |t.sections[i].shown| - 1 else 0)
  }

  function Toggled<T>(t: State<T>): State<T> {
    if !InRange(t) || !CanSelect(t.sections[t.focus]) then t
    else
      var s := t.sections[t.focus];
      if SelectedIn(s).None? || IsDisabled(s, SelectedIn(s).value) then t
      else
        var id := s.def.id.value(SelectedIn(s).value);
        t.(checked := if id in t.checked then t.checked - {id} else t.checked + {id},
           sections := RefreshedAt(t.sections, t.focus))
  }

  /** The rows that checking all of a section checks. */
  function CheckableIds<T>(s: Section<T>): set<string> {
    if CanSelect(s) then set j | 0 <= j < |s.shown| && !IsDisabled(s, s.shown[j]) :: s.def.id.value(s.shown[j]) else {}
  }

  function CheckableAll<T>(sections: seq<Section<T>>): set<string> {
    if sections == [] then {} else CheckableAll(sections[..|sections| - 1]) + CheckableIds(sections[|sections| - 1])
  }

  function AllChecked<T>(t: State<T>): State<T> {
    t.(checked := t.checked + CheckableAll(t.sections),
       sections := seq(|t.sections|, i requires 0 <= i < |t.sections| =>
         if CanSelect(t.sections[i]) then Refreshed(t.sections[i]) else t.sections[i]))
  }

  function Cleared<T>(t: State<T>): State<T> {
    t.(checked := {}, sections := RefreshedAll(t.sections))
  }

  // ---- What every operation keeps ----

  /** The cursor stands on a row whenever there is one. */
  ghost predicate CursorOk<T>(s: Section<T>) {
    if Visible(s) then 0 <= s.cursor < |s.shown| else -1 <= s.cursor <= 0
  }

  ghost predicate SectionOk<T>(s: Section<T>, q: string) {
    CursorOk(s) && s.shown == ShownFor(s.def, s.items, q)
  }

  /** The focused section has rows whenever any section has. */
  ghost predicate FocusOk<T>(t: State<T>) {
    && (t.focus < |t.sections| || (t.sections == [] && t.focus == 0))
    && forall i :: 0 <= i < |t.sections| && Visible(t.sections[i]) ==> Visible(t.sections[t.focus])
  }

  ghost predicate Ok<T>(t: State<T>) {
    && (forall i :: 0 <= i < |t.sections| ==> SectionOk(t.sections[i], t.query))
    && FocusOk(t)
    && t.checked <= LiveIds(t.sections)
  }

  datatype Op<!T> =
    | SetItems(section: int, items: seq<T>)
    | SetQuery(q: string)
    | Move(down: bool)
    | GotoEdge(last: bool)
    | Toggle
    | CheckAll
    | ClearSelection

  function Step<T>(t: State<T>, op: Op<T>): State<T> {
    match op
    case SetItems(k, items) => ItemsSet(t, k, items)
    case SetQuery(q) => Queried(t, q)
    case Move(down) => Moved(t, down)
    case GotoEdge(last) => AtEdge(t, last)
    case Toggle => Toggled(t)
    case CheckAll => AllChecked(t)
    case ClearSelection => Cleared(t)
  }

  lemma FocusedKeeps<T>(t: State<T>, i: nat, c: int)
    requires forall k :: 0 <= k < |t.sections| ==> SectionOk(t.sections[k], t.query)
    requires i < |t.sections|
    requires Visible(t.sections[i]) || forall k :: 0 <= k < |t.sections| ==> !Visible(t.sections[k])
    requires t.checked <= LiveIds(t.sections)
    ensures Ok(Focused(t, i, c))
    ensures Focused(t, i, c).focus == i
    ensures Visible(t.sections[i]) ==>
              Selected(Focused(t, i, c)) == Some(t.sections[i].shown[Min(Max(c, 0), |t.sections[i].shown| - 1)])
  {
    FocusedSections(t, i, c);
    if Visible(t.sections[i]) { FocusedSelects(t, i, c); }
    hide LiveIds, Focused, ShownFor;
    SameIds(t.sections, Focused(t, i, c).sections);
  }

  /** Setting the focus changes cursors only, and leaves each on a row. */
  lemma FocusedSections<T>(t: State<T>, i: nat, c: int)
    requires forall k :: 0 <= k < |t.sections| ==> SectionOk(t.sections[k], t.query)
    requires i < |t.sections|
    ensures var after := Focused(t, i, c);
            && after.focus == i && after.checked == t.checked && after.query == t.query
            && |after.sections| == |t.sections|
            && forall k :: 0 <= k < |t.sections| ==>
                 && SectionOk(after.sections[k], t.query)
                 && after.sections[k].def == t.sections[k].def && after.sections[k].items == t.sections[k].items
                 && after.sections[k].shown == t.sections[k].shown
  {
    hide ShownFor;
  }

  lemma FocusedSelects<T>(t: State<T>, i: nat, c: int)
    requires i < |t.sections| && Visible(t.sections[i])
    ensures Selected(Focused(t, i, c)) == Some(t.sections[i].shown[Min(Max(c, 0), |t.sections[i].shown| - 1)])
  {
  }

  /** The identifiers depend on definitions and rows only. */
  lemma {:induction false} SameIds<T>(a: seq<Section<T>>, b: seq<Section<T>>)
    requires |a| == |b| && forall i :: 0 <= i < |a| ==> a[i].def == b[i].def && a[i].items == b[i].items
    ensures LiveIds(a) == LiveIds(b)
  {
    if a != [] {
      SameIds(a[..|a| - 1], b[..|b| - 1]);
    }
  }

  lemma {:induction false} LiveContains<T>(sections: seq<Section<T>>, i: nat)
    requires i < |sections|
    ensures LiveIn(sections[i]) <= LiveIds(sections)
  {
    if i < |sections| - 1 {
      LiveContains(sections[..|sections| - 1], i);
    }
  }

  lemma NormalizedKeeps<T>(t: State<T>, anchor: Option<string>)
    requires forall k :: 0 <= k < |t.sections| ==> SectionOk(t.sections[k], t.query)
    requires t.focus < |t.sections| || (t.sections == [] && t.focus == 0)
    requires t.checked <= LiveIds(t.sections)
    ensures Ok(Normalized(t, anchor))
  {
    hide LiveIds, Focused, SectionOk, Ok;
    if InRange(t) && Visible(t.sections[t.focus]) {
      FocusedKeeps(t, t.focus, Restored(t.sections[t.focus], anchor));
    } else if t.sections != [] {
      FocusedKeeps(t, Max(NextVisible(t.sections, 0), 0), 0);
    } else {
      NoSections(t, anchor);
    }
  }

  lemma NoSections<T>(t: State<T>, anchor: Option<string>)
    requires t.sections == [] && t.focus == 0 && t.checked <= LiveIds(t.sections)
    ensures Ok(Normalized(t, anchor))
  {
    assert Normalized(t, anchor) == t;
  }

  lemma RefilteredOk<T>(s: Section<T>, q: string)
    requires -1 <= s.cursor
    ensures SectionOk(Refiltered(s, q), q)
  {
  }

  lemma PrunedKeeps<T>(t: State<T>)
    ensures Pruned(t).checked == t.checked * LiveIds(t.sections) && Pruned(t).checked <= LiveIds(Pruned(t).sections)
    ensures Pruned(t).focus == t.focus && Pruned(t).query == t.query && |Pruned(t).sections| == |t.sections|
    ensures forall i :: 0 <= i < |t.sections| ==>
              Pruned(t).sections[i] == t.sections[i] || Pruned(t).sections[i] == Refreshed(t.sections[i])
  {
    SameIds(t.sections, RefreshedAll(t.sections));
  }

  lemma ItemsSetKeeps<T>(t: State<T>, k: int, items: seq<T>)
    requires Ok(t)
    ensures Ok(ItemsSet(t, k, items))
  {
    hide LiveIds, Pruned, Normalized, Refiltered, AnchorOf;
    if 0 <= k < |t.sections| {
      var given := t.(sections := t.sections[k := t.sections[k].(items := items)]);
      var pruned := Pruned(given);
      PrunedKeeps(given);
      var refiltered := pruned.(sections := pruned.sections[k := Refiltered(pruned.sections[k], t.query)]);
      RefilteredOk(pruned.sections[k], t.query);
      RefilteredSame(pruned.sections[k], t.query);
      SameIds(pruned.sections, refiltered.sections);
      NormalizedKeeps(refiltered, AnchorOf(t));
    }
  }

  lemma RefilteredSame<T>(s: Section<T>, q: string)
    ensures Refiltered(s, q).def == s.def && Refiltered(s, q).items == s.items
  {
  }

  lemma QueriedKeeps<T>(t: State<T>, q: string)
    requires Ok(t)
    ensures Ok(Queried(t, q))
  {
    hide LiveIds, Normalized, Refiltered, AnchorOf;
    var all := RefilteredAll(t.sections, q);
    forall i | 0 <= i < |all|
      ensures SectionOk(all[i], q) && all[i].def == t.sections[i].def && all[i].items == t.sections[i].items
    {
      RefilteredOk(t.sections[i], q);
      RefilteredSame(t.sections[i], q);
    }
    SameIds(t.sections, all);
    NormalizedKeeps(t.(query := q, sections := all), AnchorOf(t));
  }

  lemma MovedKeeps<T>(t: State<T>, down: bool)
    requires Ok(t)
    ensures Ok(Moved(t, down))
  {
    hide LiveIds, Focused, SectionOk;
    if Crossed(t, down).Some? {
      var next := if down then NextVisible(t.sections, t.focus + 1) else LastVisible(t.sections, t.focus);
      FocusedKeeps(t, next, if down then 0 else |t.sections[next].shown| - 1);
    } else {
      InsideKeeps(t, down);
    }
  }

  lemma InsideKeeps<T>(t: State<T>, down: bool)
    requires Ok(t)
    ensures Ok(MovedInside(t, down))
  {
    SameIds(t.sections, MovedInside(t, down).sections);
  }

  lemma EdgeKeeps<T>(t: State<T>, last: bool)
    requires Ok(t)
    ensures Ok(AtEdge(t, last))
  {
    hide LiveIds, Focused, SectionOk;
    var i := if last then LastVisible(t.sections, |t.sections|) else NextVisible(t.sections, 0);
    if i >= 0 {
      FocusedKeeps(t, i, if last then |t.sections[i].shown| - 1 else 0);
    }
  }

  /** A shown row is one of all rows. */
  lemma {:induction false} FilterIsPart<T>(items: seq<T>, matches: (T, string) -> bool, q: string,
                                           j: nat) returns (k: nat)
    requires j < |Filter(items, matches, q)|
    ensures k < |items| && items[k] == Filter(items, matches, q)[j]
  {
    var n := |items| - 1;
    var rest := Filter(items[..n], matches, q);
    if j < |rest| {
      k := FilterIsPart(items[..n], matches, q, j);
    } else {
      k := n;
    }
  }

  lemma ShownIsLive<T>(t: State<T>, i: nat, j: nat)
    requires i < |t.sections| && SectionOk(t.sections[i], t.query) && CanSelect(t.sections[i]) &&
             j < |t.sections[i].shown|
    ensures t.sections[i].def.id.value(t.sections[i].shown[j]) in LiveIds(t.sections)
  {
    var s := t.sections[i];
    var k := j;
    if !(t.query == "" || s.def.matches.None?) {
      k := FilterIsPart(s.items, s.def.matches.value, t.query, j);
    }
    assert s.items[k] == s.shown[j];
    assert s.def.id.value(s.items[k]) in LiveIn(s);
    LiveContains(t.sections, i);
  }

  lemma ToggledKeeps<T>(t: State<T>)
    requires Ok(t)
    ensures Ok(Toggled(t))
  {
    hide LiveIds;
    if InRange(t) && CanSelect(t.sections[t.focus]) && SelectedIn(t.sections[t.focus]).Some? {
      ShownIsLive(t, t.focus, t.sections[t.focus].cursor);
    }
    SameIds(t.sections, Toggled(t).sections);
  }

  lemma AllCheckedKeeps<T>(t: State<T>)
    requires Ok(t)
    ensures Ok(AllChecked(t))
  {
    hide LiveIds;
    SameIds(t.sections, AllChecked(t).sections);
    CheckableIsLive(t, |t.sections|);
    assert t.sections[..|t.sections|] == t.sections;
  }

  lemma {:induction false} CheckableIsLive<T>(t: State<T>, n: nat)
    requires n <= |t.sections| && forall i :: 0 <= i < |t.sections| ==> SectionOk(t.sections[i], t.query)
    ensures CheckableAll(t.sections[..n]) <= LiveIds(t.sections)
  {
    hide LiveIds, SectionOk;
    if n > 0 {
      var s := t.sections[n - 1];
      CheckableIsLive(t, n - 1);
      assert t.sections[..n][..n - 1] == t.sections[..n - 1];
      forall x | x in CheckableIds(s)
        ensures x in LiveIds(t.sections)
      {
        var j :| 0 <= j < |s.shown| && s.def.id.value(s.shown[j]) == x;
        ShownIsLive(t, n - 1, j);
      }
    }
  }

  lemma ClearedKeeps<T>(t: State<T>)
    requires Ok(t)
    ensures Ok(Cleared(t))
  {
  }

  /**
   Every operation keeps the invariant: cursors stand on rows, the filter is applied everywhere, the
   focus is on rows whenever there are any, and only existing rows of selectable sections are checked.
   */
  lemma StepKeeps<T>(t: State<T>, op: Op<T>)
    requires Ok(t)
    ensures Ok(Step(t, op))
  {
    hide Ok;
    match op
    case SetItems(k, items) => ItemsSetKeeps(t, k, items);
    case SetQuery(q) => QueriedKeeps(t, q);
    case Move(down) => MovedKeeps(t, down);
    case GotoEdge(last) => EdgeKeeps(t, last);
    case Toggle => ToggledKeeps(t);
    case CheckAll => AllCheckedKeeps(t);
    case ClearSelection => ClearedKeeps(t);
  }

  /** A new list: no rows yet, the focus on the first section. */
  function Initial<T>(defs: seq<Def<T>>): State<T> {
    Focused(State(seq(|defs|, i requires 0 <= i < |defs| => Section(defs[i], [], [], 0)), 0, {}, ""), 0, 0)
  }

  function Run<T>(t: State<T>, ops: seq<Op<T>>): State<T> {
    if ops == [] then t else Step(Run(t, ops[..|ops| - 1]), ops[|ops| - 1])
  }

  lemma {:induction false} ReachableOk<T>(defs: seq<Def<T>>, ops: seq<Op<T>>)
    ensures Ok(Run(Initial(defs), ops))
  {
    hide Ok, Step;
    if ops == [] {
      InitialOk(defs);
    } else {
      ReachableOk(defs, ops[..|ops| - 1]);
      StepKeeps(Run(Initial(defs), ops[..|ops| - 1]), ops[|ops| - 1]);
    }
  }

  lemma InitialOk<T>(defs: seq<Def<T>>)
    ensures Ok(Initial(defs))
  {
  }

  /** Toggling twice gives back the list as it was. */
  lemma ToggleTwice<T>(t: State<T>)
    requires Ok(t)
    ensures Toggled(Toggled(t)) == t
  {
    hide LiveIds, ShownFor;
    if InRange(t) && CanSelect(t.sections[t.focus]) && SelectedIn(t.sections[t.focus]).Some? {
      assert RefreshedAt(t.sections, t.focus) == t.sections;
    }
  }

  /**
   Checking all adds exactly the rows that are shown, in a selectable section, and not disabled: no hidden
   row is checked.
   */
  lemma AllCheckedIff<T>(t: State<T>, x: string)
    ensures x in AllChecked(t).checked <==> x in t.checked || ShowsCheckable(t.sections, x)
  {
    CheckableIff(t.sections, x);
  }

  ghost predicate ShowsCheckable<T>(sections: seq<Section<T>>, x: string) {
    exists i, j :: 0 <= i < |sections| && CanSelect(sections[i]) && 0 <= j < |sections[i].shown|
                   && !IsDisabled(sections[i], sections[i].shown[j])
                   && sections[i].def.id.value(sections[i].shown[j]) == x
  }

  lemma {:induction false} CheckableIff<T>(sections: seq<Section<T>>, x: string)
    ensures x in CheckableAll(sections) <==> ShowsCheckable(sections, x)
  {
    if sections != [] {
      var n := |sections| - 1;
      var init := sections[..n];
      CheckableIff(init, x);
      if ShowsCheckable(init, x) {
        var i, j :| 0 <= i < n && CanSelect(init[i]) && 0 <= j < |init[i].shown|
                    && !IsDisabled(init[i], init[i].shown[j]) && init[i].def.id.value(init[i].shown[j]) == x;
        assert sections[i] == init[i];
      }
      if ShowsCheckable(sections, x) {
        var i, j :| 0 <= i < |sections| && CanSelect(sections[i]) && 0 <= j < |sections[i].shown|
                    && !IsDisabled(sections[i], sections[i].shown[j])
                    && sections[i].def.id.value(sections[i].shown[j]) == x;
        assert i < n ==> init[i] == sections[i];
      }
    }
  }

  // ---- The selected row follows its identifier ----

  /** A row with the identifier is shown. */
  predicate Shows<T>(s: Section<T>, x: string)
    requires s.def.id.Some?
  {
    exists j :: 0 <= j < |s.shown| && s.def.id.value(s.shown[j]) == x
  }

  /** What is selected once rows were exchanged or filtered. */
  ghost predicate Follows<T>(t: State<T>, after: State<T>) {
    var f := t.focus;
    if f < |after.sections| && Visible(after.sections[f]) then
      && after.focus == f
      && var s := after.sections[f];
         s.def.id.Some? ==>
           && Selected(after).Some?
           && (if Selected(t).Some? && Shows(s, s.def.id.value(Selected(t).value))
               then s.def.id.value(Selected(after).value) == s.def.id.value(Selected(t).value)
               else Selected(after) == Some(s.shown[0]))
    else
      if NextVisible(after.sections, 0) >= 0 then
        && after.focus == NextVisible(after.sections, 0)
        && Selected(after) == Some(after.sections[after.focus].shown[0])
      else Selected(after).None?
  }

  lemma NormalizedFollows<T>(t: State<T>, mid: State<T>)
    requires forall k :: 0 <= k < |mid.sections| ==> SectionOk(mid.sections[k], mid.query)
    requires mid.checked <= LiveIds(mid.sections)
    requires |mid.sections| == |t.sections| && mid.focus == t.focus && FocusOk(t)
    requires InRange(t) ==> t.sections[t.focus].def == mid.sections[t.focus].def
    requires InRange(t) && AnchorOf(t).None? && mid.sections[t.focus].def.id.Some? ==> mid.sections[t.focus].cursor <= 0
    ensures Follows(t, Normalized(mid, AnchorOf(t)))
  {
    hide LiveIds;
    if InRange(mid) && Visible(mid.sections[mid.focus]) {
      FocusedKeeps(mid, mid.focus, Restored(mid.sections[mid.focus], AnchorOf(t)));
      FocusedShows(mid, mid.focus, Restored(mid.sections[mid.focus], AnchorOf(t)));
    } else if mid.sections != [] {
      FocusedKeeps(mid, Max(NextVisible(mid.sections, 0), 0), 0);
      FocusedShows(mid, Max(NextVisible(mid.sections, 0), 0), 0);
      SameVisible(mid.sections, Normalized(mid, AnchorOf(t)).sections);
    }
  }

  lemma FocusedShows<T>(t: State<T>, i: nat, c: int)
    requires i < |t.sections|
    ensures |Focused(t, i, c).sections| == |t.sections|
    ensures forall k :: 0 <= k < |t.sections| ==>
              Focused(t, i, c).sections[k].shown == t.sections[k].shown &&
              Focused(t, i, c).sections[k].def == t.sections[k].def
  {
  }

  lemma SameVisible<T>(a: seq<Section<T>>, b: seq<Section<T>>)
    requires |a| == |b| && forall k :: 0 <= k < |a| ==> a[k].shown == b[k].shown
    ensures NextVisible(a, 0) == NextVisible(b, 0)
  {
    var i, j := NextVisible(a, 0), NextVisible(b, 0);
    if i >= 0 { assert Visible(b[i]); }
    if j >= 0 { assert Visible(a[j]); }
  }

  /** Without a selected row the cursor of the focused section stands at its start, and stays there. */
  lemma NoAnchorAtStart<T>(s: Section<T>, q: string)
    requires s.cursor <= 0
    ensures Refiltered(s, q).cursor <= 0 && Refreshed(s).cursor <= 0
  {
  }

  /**
   New rows keep the cursor on the same row as long as it is shown in the focused section; otherwise
   row 0 of that section is selected, or of the first section with rows.
   */
  lemma SelectionFollowsItems<T>(t: State<T>, k: int, items: seq<T>)
    requires Ok(t) && 0 <= k < |t.sections|
    ensures Follows(t, ItemsSet(t, k, items))
  {
    hide LiveIds, Pruned, Normalized, Refiltered, Follows;
    var given := t.(sections := t.sections[k := t.sections[k].(items := items)]);
    var pruned := Pruned(given);
    PrunedKeeps(given);
    var mid := pruned.(sections := pruned.sections[k := Refiltered(pruned.sections[k], t.query)]);
    RefilteredOk(pruned.sections[k], t.query);
    RefilteredSame(pruned.sections[k], t.query);
    SameIds(pruned.sections, mid.sections);
    if AnchorOf(t).None? && t.sections[t.focus].def.id.Some? {
      NoAnchorAtStart(given.sections[t.focus], t.query);
      NoAnchorAtStart(pruned.sections[t.focus], t.query);
    }
    NormalizedFollows(t, mid);
  }

  lemma SelectionFollowsQuery<T>(t: State<T>, q: string)
    requires Ok(t)
    ensures Follows(t, Queried(t, q))
  {
    hide LiveIds, Normalized, Refiltered, Follows;
    var all := RefilteredAll(t.sections, q);
    forall i | 0 <= i < |all|
      ensures SectionOk(all[i], q) && all[i].def == t.sections[i].def && all[i].items == t.sections[i].items
    {
      RefilteredOk(t.sections[i], q);
      RefilteredSame(t.sections[i], q);
    }
    SameIds(t.sections, all);
    if InRange(t) && AnchorOf(t).None? && t.sections[t.focus].def.id.Some? {
      NoAnchorAtStart(t.sections[t.focus], q);
    }
    NormalizedFollows(t, t.(query := q, sections := all));
  }

  // ---- One cursor over all rows ----

  /** All shown rows, section after section. */
  function Rows<T>(sections: seq<Section<T>>): seq<T> {
    if sections == [] then [] else Rows(sections[..|sections| - 1]) + sections[|sections| - 1].shown
  }

  /** The number of rows before section `i`. */
  function RowsBefore<T>(sections: seq<Section<T>>, i: nat): nat
    requires i <= |sections|
  {
    if i == 0 then 0 else RowsBefore(sections, i - 1) + |sections[i - 1].shown|
  }

  /** The position of the cursor among all shown rows. */
  function Position<T>(t: State<T>): int
    requires InRange(t)
  {
    RowsBefore(t.sections, t.focus) + t.sections[t.focus].cursor
  }

  lemma {:induction false} RowAt<T>(sections: seq<Section<T>>, i: nat, c: nat)
    requires i < |sections| && c < |sections[i].shown|
    ensures RowsBefore(sections, i) + c < |Rows(sections)|
    ensures Rows(sections)[RowsBefore(sections, i) + c] == sections[i].shown[c]
  {
    var n := |sections| - 1;
    if i < n {
      RowAt(sections[..n], i, c);
      SameRowsBefore(sections[..n], sections, i);
    } else {
      AllRows(sections[..n]);
      SameRowsBefore(sections[..n], sections, n);
    }
  }

  lemma {:induction false} SameRowsBefore<T>(a: seq<Section<T>>, b: seq<Section<T>>, i: nat)
    requires i <= |a| && i <= |b| && forall k :: 0 <= k < i ==> a[k].shown == b[k].shown
    ensures RowsBefore(a, i) == RowsBefore(b, i)
  {
    if i > 0 { SameRowsBefore(a, b, i - 1); }
  }

  lemma {:induction false} AllRows<T>(sections: seq<Section<T>>)
    ensures |Rows(sections)| == RowsBefore(sections, |sections|)
  {
    if sections != [] {
      AllRows(sections[..|sections| - 1]);
      SameRowsBefore(sections[..|sections| - 1], sections, |sections| - 1);
    }
  }

  /** Sections without rows do not count. */
  lemma {:induction false} SkipsEmpty<T>(sections: seq<Section<T>>, i: nat, j: nat)
    requires i <= j <= |sections| && forall k :: i <= k < j ==> !Visible(sections[k])
    ensures RowsBefore(sections, j) == RowsBefore(sections, i)
  {
    if i < j { SkipsEmpty(sections, i, j - 1); }
  }

  lemma {:induction false} SameRows<T>(a: seq<Section<T>>, b: seq<Section<T>>)
    requires |a| == |b| && forall k :: 0 <= k < |a| ==> a[k].shown == b[k].shown
    ensures Rows(a) == Rows(b)
  {
    if a != [] { SameRows(a[..|a| - 1], b[..|b| - 1]); }
  }

  /** The selected row is the row at the position of the cursor. */
  lemma SelectedAtPosition<T>(t: State<T>)
    requires Ok(t) && Rows(t.sections) != []
    ensures InRange(t) && 0 <= Position(t) < |Rows(t.sections)|
    ensures Selected(t) == Some(Rows(t.sections)[Position(t)])
  {
    SomeRowVisible(t);
    RowAt(t.sections, t.focus, t.sections[t.focus].cursor);
  }

  lemma SomeRowVisible<T>(t: State<T>)
    requires Ok(t) && Rows(t.sections) != []
    ensures InRange(t) && Visible(t.sections[t.focus])
  {
    AllRows(t.sections);
    if forall k :: 0 <= k < |t.sections| ==> !Visible(t.sections[k]) {
      SkipsEmpty(t.sections, 0, |t.sections|);
    }
  }

  /** Where a focused row stands. */
  lemma FocusedPosition<T>(t: State<T>, i: nat, c: nat)
    requires i < |t.sections| && c < |t.sections[i].shown|
    ensures var after := Focused(t, i, c);
            InRange(after) && Rows(after.sections) == Rows(t.sections) &&
            Position(after) == RowsBefore(t.sections, i) + c
  {
    var after := Focused(t, i, c);
    FocusedShows(t, i, c);
    SameRows(after.sections, t.sections);
    SameRowsBefore(after.sections, t.sections, i);
  }

  /**
   Moving by one row moves the cursor by one position in the list of all rows, across sections and
   past empty ones, and stops at both ends.
   */
  lemma MovesByOne<T>(t: State<T>, down: bool)
    requires Ok(t) && Rows(t.sections) != []
    ensures var after := Moved(t, down);
            && InRange(t) && InRange(after) && Rows(after.sections) == Rows(t.sections)
            && Position(after) == Min(Max(Position(t) + (if down then 1 else -1), 0), |Rows(t.sections)| - 1)
  {
    hide Focused, Ok, Crossed, MovedInside;
    SelectedAtPosition(t);
    SomeRowVisible(t);
    CursorInRows(t);
    if Crossed(t, down).Some? {
      CrossesByOne(t, down);
    } else {
      InsidePosition(t, down);
      StaysAtEnd(t, down);
    }
  }

  /** Crossing into another section is a step of one row. */
  lemma CrossesByOne<T>(t: State<T>, down: bool)
    requires InRange(t) && Visible(t.sections[t.focus]) && 0 <= t.sections[t.focus].cursor < |t.sections[t.focus].shown|
    requires Crossed(t, down).Some?
    ensures var after := Crossed(t, down).value;
            && InRange(after) && Rows(after.sections) == Rows(t.sections)
            && Position(after) == Position(t) + (if down then 1 else -1)
            && 0 <= Position(after) < |Rows(t.sections)|
  {
    hide Focused;
    if down {
      var next := NextVisible(t.sections, t.focus + 1);
      FocusedPosition(t, next, 0);
      SkipsEmpty(t.sections, t.focus + 1, next);
      RowAt(t.sections, next, 0);
    } else {
      var next := LastVisible(t.sections, t.focus);
      FocusedPosition(t, next, |t.sections[next].shown| - 1);
      SkipsEmpty(t.sections, next + 1, t.focus);
      RowAt(t.sections, next, |t.sections[next].shown| - 1);
    }
  }

  /** A cursor that does not cross is inside its section or at the end of all rows. */
  lemma StaysAtEnd<T>(t: State<T>, down: bool)
    requires InRange(t) && Visible(t.sections[t.focus]) && 0 <= t.sections[t.focus].cursor < |t.sections[t.focus].shown|
    requires Crossed(t, down).None?
    ensures var s := t.sections[t.focus];
            RowsBefore(t.sections, t.focus) + Min(Max(s.cursor + (if down then 1 else -1), 0), |s.shown| - 1) ==
            Min(Max(Position(t) + (if down then 1 else -1), 0), |Rows(t.sections)| - 1)
  {
    hide Focused;
    var s := t.sections[t.focus];
    RowAt(t.sections, t.focus, |s.shown| - 1);
    if down && s.cursor == |s.shown| - 1 {
      AllRows(t.sections);
      SkipsEmpty(t.sections, t.focus + 1, |t.sections|);
    } else if !down && s.cursor == 0 {
      SkipsEmpty(t.sections, 0, t.focus);
    }
  }

  lemma CursorInRows<T>(t: State<T>)
    requires Ok(t) && InRange(t) && Visible(t.sections[t.focus])
    ensures 0 <= t.sections[t.focus].cursor < |t.sections[t.focus].shown|
  {
  }

  lemma InsidePosition<T>(t: State<T>, down: bool)
    requires InRange(t) && Visible(t.sections[t.focus])
    ensures var s, after := t.sections[t.focus], MovedInside(t, down);
            && InRange(after) && Rows(after.sections) == Rows(t.sections)
            && Position(after) == RowsBefore(t.sections, t.focus) +
                                  Min(Max(s.cursor + (if down then 1 else -1), 0), |s.shown| - 1)
  {
    var after := MovedInside(t, down);
    SameRows(after.sections, t.sections);
    SameRowsBefore(after.sections, t.sections, t.focus);
  }

  /** The sections when checking all has come to section `n`. */
  function PartlyRefreshed<T>(sections: seq<Section<T>>, n: nat): (r: seq<Section<T>>)
    ensures |r| == |sections|
  {
    seq(|sections|, i requires 0 <= i < |sections| =>
      if i < n && CanSelect(sections[i]) then Refreshed(sections[i]) else sections[i])
  }

  /** What checking all does at section `n`. */
  lemma CheckedPart<T>(sections: seq<Section<T>>, n: nat)
    ensures PartlyRefreshed(sections, 0) == sections && CheckableAll(sections[..0]) == {}
    ensures n < |sections| ==> var part := PartlyRefreshed(sections, n);
            && part[n] == sections[n]
            && PartlyRefreshed(sections, n + 1) == (if CanSelect(sections[n]) then RefreshedAt(part, n) else part)
            && CheckableAll(sections[..n + 1]) == CheckableAll(sections[..n]) + CheckableIds(sections[n])
            && (!CanSelect(sections[n]) ==> CheckableIds(sections[n]) == {})
  {
    hide CanSelect, Refreshed;
    if n < |sections| {
      assert sections[..n + 1][..n] == sections[..n];
      assert !CanSelect(sections[n]) ==> CheckableIds(sections[n]) == {};
    }
  }

  /** Going to an edge reaches the first or the last of all rows. */
  lemma EdgeIsEdge<T>(t: State<T>, last: bool)
    requires Ok(t) && Rows(t.sections) != []
    ensures var after := AtEdge(t, last);
            && InRange(after) && Rows(after.sections) == Rows(t.sections)
            && Position(after) == if last then |Rows(t.sections)| - 1 else 0
  {
    hide Focused, Ok;
    SomeRowVisible(t);
    AllRows(t.sections);
    var i := if last then LastVisible(t.sections, |t.sections|) else NextVisible(t.sections, 0);
    FocusedPosition(t, i, if last then |t.sections[i].shown| - 1 else 0);
    if last {
      SkipsEmpty(t.sections, i + 1, |t.sections|);
    } else {
      SkipsEmpty(t.sections, 0, i);
    }
  }

  // ---- Which rows are shown ----

  /** Of the rows exactly the matching ones are left, each as often as it was there. */
  lemma {:induction false} FilterIs<T>(items: seq<T>, matches: (T, string) -> bool, q: string, x: T)
    ensures multiset(Filter(items, matches, q))[x] == if matches(x, q) then multiset(items)[x] else 0
  {
    if items != [] {
      var before, y := items[..|items| - 1], items[|items| - 1];
      FilterIs(before, matches, q, x);
      assert multiset(items) == multiset(before) + multiset{y} by { assert items == before + [y]; }
    }
  }

  lemma {:induction false} FilterInOrder<T(!new)>(items: seq<T>, matches: (T, string) -> bool, q: string)
    ensures Subsequence(Filter(items, matches, q), items)
  {
    if items != [] {
      var before, y := items[..|items| - 1], items[|items| - 1];
      FilterInOrder(before, matches, q);
      SubsequenceSnoc(Filter(before, matches, q), before, y);
      assert items == before + [y] && Filter(before, matches, q) + [] == Filter(before, matches, q);
    }
  }

  /**
   Exactly the rows that match the filter are shown, in their order; without a filter, or where nothing can
   match, all.
   */
  ghost predicate ShowsMatching<T(!new)>(s: Section<T>, q: string) {
    && Subsequence(s.shown, s.items)
    && forall x :: multiset(s.shown)[x] ==
                   if q == "" || s.def.matches.None? || s.def.matches.value(x, q) then multiset(s.items)[x] else 0
  }

  lemma ShownMatches<T(!new)>(s: Section<T>, q: string)
    requires s.shown == ShownFor(s.def, s.items, q)
    ensures ShowsMatching(s, q)
  {
    hide Filter;
    if q == "" || s.def.matches.None? {
      SubsequenceOfItself(s.items);
    } else {
      FilterInOrder(s.items, s.def.matches.value, q);
      forall x
        ensures multiset(s.shown)[x] == if s.def.matches.value(x, q) then multiset(s.items)[x] else 0
      {
        FilterIs(s.items, s.def.matches.value, q, x);
      }
    }
  }

  /** The filter text that was set last. */
  function LastQuery<T>(ops: seq<Op<T>>): string {
    if ops == [] then ""
    else if ops[|ops| - 1].SetQuery? then ops[|ops| - 1].q
    else LastQuery(ops[..|ops| - 1])
  }

  /** The rows that a section was given last. */
  function LastItems<T>(ops: seq<Op<T>>, i: nat): seq<T> {
    if ops == [] then []
    else if ops[|ops| - 1].SetItems? && ops[|ops| - 1].section == i then ops[|ops| - 1].items
    else LastItems(ops[..|ops| - 1], i)
  }

  /**
   After any sequence of operations every section shows exactly the rows it was given last that match the
   last filter.
   */
  lemma ReachableShows<T(!new)>(defs: seq<Def<T>>, ops: seq<Op<T>>, i: nat)
    requires i < |defs|
    ensures var t := Run(Initial(defs), ops);
            && |t.sections| == |defs| && t.query == LastQuery(ops)
            && t.sections[i].def == defs[i] && t.sections[i].items == LastItems(ops, i)
            && ShowsMatching(t.sections[i], LastQuery(ops))
  {
    hide Initial, Run, LastQuery, LastItems, ShowsMatching, LiveIds, ShownFor;
    RunKeepsRows(defs, ops, i);
    ReachableOk(defs, ops);
    ShownMatches(Run(Initial(defs), ops).sections[i], LastQuery(ops));
  }

  lemma {:induction false} RunKeepsRows<T>(defs: seq<Def<T>>, ops: seq<Op<T>>, i: nat)
    requires i < |defs|
    ensures var t := Run(Initial(defs), ops);
            && |t.sections| == |defs| && t.query == LastQuery(ops)
            && t.sections[i].def == defs[i] && t.sections[i].items == LastItems(ops, i)
  {
    hide Step;
    if ops != [] {
      RunKeepsRows(defs, ops[..|ops| - 1], i);
      StepRows(Run(Initial(defs), ops[..|ops| - 1]), ops[|ops| - 1], i);
    }
  }

  /** What an operation changes besides cursors: the filter text, or the rows of one section. */
  lemma StepRows<T>(t: State<T>, op: Op<T>, i: nat)
    requires i < |t.sections|
    ensures var after := Step(t, op);
            && |after.sections| == |t.sections|
            && after.query == (if op.SetQuery? then op.q else t.query)
            && after.sections[i].def == t.sections[i].def
            && after.sections[i].items == (if op.SetItems? && op.section == i then op.items else t.sections[i].items)
  {
    hide LiveIds, ShownFor, Normalized, Focused, Pruned, AnchorOf;
    match op
    case SetItems(k, items) =>
      if 0 <= k < |t.sections| {
        var given := t.(sections := t.sections[k := t.sections[k].(items := items)]);
        var pruned := Pruned(given);
        PrunedKeeps(given);
        NormalizedRows(pruned.(sections := pruned.sections[k := Refiltered(pruned.sections[k], t.query)]), AnchorOf(t));
      }
    case SetQuery(q) => NormalizedRows(t.(query := q, sections := RefilteredAll(t.sections, q)), AnchorOf(t));
    case Move(down) =>
      if Crossed(t, down).Some? {
        var next := if down then NextVisible(t.sections, t.focus + 1) else LastVisible(t.sections, t.focus);
        FocusedRows(t, next, if down then 0 else |t.sections[next].shown| - 1);
      }
    case GotoEdge(last) =>
      var e := if last then LastVisible(t.sections, |t.sections|) else NextVisible(t.sections, 0);
      if e >= 0 {
        FocusedRows(t, e, if last then |t.sections[e].shown| - 1 else 0);
      }
    case Toggle =>
    case CheckAll =>
    case ClearSelection =>
  }

  ghost predicate SameRowsAndQuery<T>(a: State<T>, b: State<T>) {
    && a.query == b.query && a.checked == b.checked && |a.sections| == |b.sections|
    && forall i :: 0 <= i < |a.sections| ==>
         a.sections[i].def == b.sections[i].def && a.sections[i].items == b.sections[i].items
  }

  lemma FocusedRows<T>(t: State<T>, i: int, c: int)
    ensures SameRowsAndQuery(Focused(t, i, c), t)
  {
  }

  lemma NormalizedRows<T>(t: State<T>, anchor: Option<string>)
    ensures SameRowsAndQuery(Normalized(t, anchor), t)
  {
    hide Focused;
    if InRange(t) && Visible(t.sections[t.focus]) {
      FocusedRows(t, t.focus, Restored(t.sections[t.focus], anchor));
    } else {
      FocusedRows(t, Max(NextVisible(t.sections, 0), 0), 0);
    }
  }

  // ---- What is checked ----

  /** Some existing row of a selectable section has the identifier. */
  ghost predicate Exists<T>(sections: seq<Section<T>>, x: string) {
    exists i, j :: 0 <= i < |sections| && CanSelect(sections[i]) && 0 <= j < |sections[i].items|
                   && sections[i].def.id.value(sections[i].items[j]) == x
  }

  lemma {:induction false} LiveIff<T>(sections: seq<Section<T>>, x: string)
    ensures x in LiveIds(sections) <==> Exists(sections, x)
  {
    if sections != [] {
      var n := |sections| - 1;
      LiveIff(sections[..n], x);
      if Exists(sections[..n], x) {
        var i, j :| 0 <= i < n && CanSelect(sections[..n][i]) && 0 <= j < |sections[..n][i].items|
                    && sections[..n][i].def.id.value(sections[..n][i].items[j]) == x;
        assert sections[i] == sections[..n][i];
      }
      if Exists(sections, x) {
        var i, j :| 0 <= i < |sections| && CanSelect(sections[i]) && 0 <= j < |sections[i].items|
                    && sections[i].def.id.value(sections[i].items[j]) == x;
        assert i < n ==> sections[..n][i] == sections[i];
      }
    }
  }

  /** The row under the cursor, when it may be checked: its section is selectable and it is not disabled. */
  ghost predicate UnderCursor<T>(t: State<T>, x: string) {
    && InRange(t) && Selected(t).Some?
    && var s, row := t.sections[t.focus], Selected(t).value;
       && s.def.selectable && s.def.id.Some? && s.def.id.value(row) == x
       && !(s.def.disabled.Some? && s.def.disabled.value(row))
  }

  /** The same list but for what is checked, and for the cursors of sections without rows. */
  ghost predicate SameList<T>(a: State<T>, b: State<T>) {
    && a.focus == b.focus && a.query == b.query && |a.sections| == |b.sections|
    && forall i :: 0 <= i < |a.sections| ==>
         || a.sections[i] == b.sections[i]
         || (b.sections[i].shown == [] && a.sections[i] == b.sections[i].(cursor := a.sections[i].cursor))
  }

  /**
   Checking and unchecking change nothing but what is checked: the row under the cursor, all that may be,
   or everything.
   */
  lemma CheckingIs<T>(t: State<T>, x: string)
    requires Ok(t)
    ensures SameList(Toggled(t), t) && SameList(AllChecked(t), t) && SameList(Cleared(t), t)
    ensures x in Toggled(t).checked <==> (x in t.checked) != UnderCursor(t, x)
    ensures x in AllChecked(t).checked <==> x in t.checked || ShowsCheckable(t.sections, x)
    ensures x !in Cleared(t).checked
  {
    hide LiveIds, ShownFor, CheckableAll;
    AllCheckedIff(t, x);
  }

  /**
   New rows take away exactly the checked identifiers that no selectable row has any more; filters and
   moves take none.
   */
  lemma CheckedStays<T>(t: State<T>, op: Op<T>, x: string)
    requires op.SetItems? || op.SetQuery? || op.Move? || op.GotoEdge?
    ensures op.SetItems? && 0 <= op.section < |t.sections| ==>
              (x in Step(t, op).checked <==> x in t.checked && Exists(Step(t, op).sections, x))
    ensures !op.SetItems? || !(0 <= op.section < |t.sections|) ==> Step(t, op).checked == t.checked
  {
    hide LiveIds, ShownFor, Normalized, Focused, Pruned, AnchorOf;
    match op
    case SetItems(k, items) =>
      if 0 <= k < |t.sections| {
        var given := t.(sections := t.sections[k := t.sections[k].(items := items)]);
        var pruned := Pruned(given);
        PrunedKeeps(given);
        var mid := pruned.(sections := pruned.sections[k := Refiltered(pruned.sections[k], t.query)]);
        NormalizedRows(mid, AnchorOf(t));
        LiveIff(Step(t, op).sections, x);
        SameIds(given.sections, Step(t, op).sections);
      }
    case SetQuery(q) => NormalizedRows(t.(query := q, sections := RefilteredAll(t.sections, q)), AnchorOf(t));
    case Move(down) =>
      if Crossed(t, down).Some? {
        var next := if down then NextVisible(t.sections, t.focus + 1) else LastVisible(t.sections, t.focus);
        FocusedRows(t, next, if down then 0 else |t.sections[next].shown| - 1);
      }
    case GotoEdge(last) =>
      var e := if last then LastVisible(t.sections, |t.sections|) else NextVisible(t.sections, 0);
      if e >= 0 {
        FocusedRows(t, e, if last then |t.sections[e].shown| - 1 else 0);
      }
    case Toggle =>
    case CheckAll =>
    case ClearSelection =>
  }

  /** The focused section keeps its cursor where it was, as far as there are rows. */
  ghost predicate KeepsPlace<T>(t: State<T>, after: State<T>)
    requires InRange(t)
  {
    var f := t.focus;
    && f < |after.sections|
    && var n := |after.sections[f].shown|;
       n > 0 ==> after.focus == f && after.sections[f].cursor == Min(Max(t.sections[f].cursor, 0), n - 1)
  }

  /** In a section whose rows have no identifiers new rows and filters leave the cursor in its place. */
  lemma CursorKeepsPlace<T>(t: State<T>, op: Op<T>)
    requires Ok(t) && InRange(t) && (op.SetQuery? || (op.SetItems? && 0 <= op.section < |t.sections|))
    requires t.sections[t.focus].def.id.None?
    ensures KeepsPlace(t, Step(t, op))
  {
    hide LiveIds, ShownFor, Normalized, Pruned, AnchorOf, FocusOk;
    var f := t.focus;
    match op
    case SetItems(k, items) =>
      var given := t.(sections := t.sections[k := t.sections[k].(items := items)]);
      var pruned := Pruned(given);
      PrunedKeeps(given);
      var mid := pruned.(sections := pruned.sections[k := Refiltered(pruned.sections[k], t.query)]);
      NormalizedPlace(mid, AnchorOf(t));
    case SetQuery(q) =>
      var mid := t.(query := q, sections := RefilteredAll(t.sections, q));
      NormalizedPlace(mid, AnchorOf(t));
  }

  lemma NormalizedPlace<T>(t: State<T>, anchor: Option<string>)
    requires InRange(t) && t.sections[t.focus].def.id.None?
    ensures var after, f := Normalized(t, anchor), t.focus;
            && f < |after.sections| && after.sections[f].shown == t.sections[f].shown
            && (Visible(t.sections[f]) ==>
                  && after.focus == f
                  && after.sections[f].cursor == Min(Max(t.sections[f].cursor, 0), |t.sections[f].shown| - 1))
  {
  }

  // ---- The list itself ----

  class Model<T> {
    var sections: seq<Section<T>>
    var focus: nat
    var checked: set<string>
    var query: string

    ghost function Value(): State<T>
      reads this
    {
      State(sections, focus, checked, query)
    }

    constructor (defs: seq<Def<T>>)
      ensures Value() == Initial(defs) && focus == 0 && checked == {} && query == ""
    {
      sections := seq(|defs|, i requires 0 <= i < |defs| => Section(defs[i], [], [], 0));
      focus, checked, query := 0, {}, "";
      new;
      SetFocus(0, 0);
    }

    method Refresh(i: nat)
      requires i < |sections|
      modifies this`sections
      ensures sections == RefreshedAt(old(sections), i)
    {
      var s := sections[i];
      var c := Min(s.cursor, |s.shown| - 1);
      if |s.shown| > 0 && c < 0 {
        c := 0;
      }
      sections := sections[i := s.(cursor := c)];
    }

    method RefreshAll()
      modifies this`sections
      ensures sections == RefreshedAll(old(sections))
    {
      for i := 0 to |sections|
        invariant |sections| == |old(sections)|
        invariant forall k :: 0 <= k < i ==> sections[k] == Refreshed(old(sections)[k])
        invariant forall k :: i <= k < |sections| ==> sections[k] == old(sections)[k]
      {
        Refresh(i);
      }
    }

    method SetCursor(i: nat, c: int)
      requires i < |sections|
      modifies this`sections
      ensures sections == old(sections)[i := WithCursor(old(sections)[i], c)]
    {
      var s := sections[i];
      sections := sections[i := s.(cursor := Min(Max(Max(c, 0), 0), |s.shown| - 1))];
      Refresh(i);
    }

    method SetFocus(i: int, c: int)
      modifies this`sections, this`focus
      ensures Value() == Focused(old(Value()), i, c)
    {
      if i < 0 || i >= |sections| {
        return;
      }
      var prev := focus;
      focus := i;
      SetCursor(i, c);
      if prev != i && prev < |sections| {
        Refresh(prev);
      }
    }

    method FirstVisible(from: nat) returns (i: int)
      requires from <= |sections|
      ensures i == NextVisible(sections, from)
    {
      i := from;
      while i < |sections|
        invariant from <= i <= |sections|
        invariant forall k :: from <= k < i ==> !Visible(sections[k])
      {
        if Visible(sections[i]) {
          return;
        }
        i := i + 1;
      }
      return -1;
    }

    method VisibleBefore(to: nat) returns (i: int)
      requires to <= |sections|
      ensures i == LastVisible(sections, to)
    {
      i := to - 1;
      while i >= 0
        invariant -1 <= i < to
        invariant forall k :: i < k < to ==> !Visible(sections[k])
      {
        if Visible(sections[i]) {
          return;
        }
        i := i - 1;
      }
    }

    method NormalizeFocus(anchor: Option<string>)
      modifies this`sections, this`focus
      ensures Value() == Normalized(old(Value()), anchor)
    {
      if focus < |sections| && Visible(sections[focus]) {
        SetFocus(focus, Restored(sections[focus], anchor));
        return;
      }
      var i := FirstVisible(0);
      if i >= 0 {
        SetFocus(i, 0);
        return;
      }
      SetFocus(0, 0);
    }

    method FilterSection(i: nat)
      requires i < |sections|
      modifies this`sections
      ensures sections == old(sections)[i := Refiltered(old(sections)[i], query)]
    {
      var s := sections[i];
      if query == "" || s.def.matches.None? {
        sections := sections[i := s.(shown := s.items)];
        Refresh(i);
        return;
      }
      var shown: seq<T> := [];
      for j := 0 to |s.items|
        invariant shown == Filter(s.items[..j], s.def.matches.value, query)
      {
        assert s.items[..j + 1][..j] == s.items[..j];
        if s.def.matches.value(s.items[j], query) {
          shown := shown + [s.items[j]];
        }
      }
      assert s.items[..|s.items|] == s.items;
      sections := sections[i := s.(shown := shown)];
      Refresh(i);
    }

    /** Takes a new filter text over and applies it. */
    method SetQuery(q: string)
      modifies this
      ensures Value() == Queried(old(Value()), q)
    {
      var anchor := AnchorOf(State(sections, focus, checked, query));
      query := q;
      ghost var before := sections;
      for i := 0 to |sections|
        invariant query == q && focus == old(focus) && checked == old(checked)
        invariant |sections| == |before|
        invariant forall k :: 0 <= k < i ==> sections[k] == Refiltered(before[k], q)
        invariant forall k :: i <= k < |sections| ==> sections[k] == before[k]
      {
        FilterSection(i);
      }
      assert sections == RefilteredAll(before, q);
      NormalizeFocus(anchor);
    }

    /** The checked identifiers of one section's rows. */
    method LiveChecked(s: Section<T>) returns (ids: set<string>)
      ensures ids == checked * LiveIn(s)
    {
      ids := {};
      if CanSelect(s) {
        for j := 0 to |s.items|
          invariant ids == set k | 0 <= k < j && s.def.id.value(s.items[k]) in checked :: s.def.id.value(s.items[k])
        {
          var id := s.def.id.value(s.items[j]);
          if id in checked {
            ids := ids + {id};
          }
        }
      }
    }

    /** Drops checked identifiers of rows that no longer exist. */
    method PruneChecked()
      modifies this`sections, this`checked
      ensures Value() == Pruned(old(Value()))
    {
      if checked == {} {
        return;
      }
      var live: set<string> := {};
      for i := 0 to |sections|
        invariant sections == old(sections) && checked == old(checked)
        invariant live == checked * LiveIds(sections[..i])
      {
        hide LiveIn;
        var ids := LiveChecked(sections[i]);
        assert sections[..i + 1][..i] == sections[..i];
        live := live + ids;
      }
      assert sections[..|sections|] == sections;
      if live == checked {
        return;
      }
      checked := live;
      RefreshAll();
    }

    method SetItems(k: int, items: seq<T>)
      modifies this
      ensures Value() == ItemsSet(old(Value()), k, items)
    {
      if k < 0 || k >= |sections| {
        return;
      }
      var anchor := AnchorOf(State(sections, focus, checked, query));
      sections := sections[k := sections[k].(items := items)];
      PruneChecked();
      FilterSection(k);
      NormalizeFocus(anchor);
    }

    method CrossSection(down: bool) returns (crossed: bool)
      modifies this`sections, this`focus
      ensures crossed == Crossed(old(Value()), down).Some?
      ensures Value() == if crossed then Crossed(old(Value()), down).value else old(Value())
    {
      if focus >= |sections| {
        return false;
      }
      var s := sections[focus];
      var atEdge := s.cursor <= 0;
      if down {
        atEdge := s.cursor >= |s.shown| - 1;
      }
      if !atEdge {
        return false;
      }
      var next: int;
      if down {
        next := FirstVisible(focus + 1);
      } else {
        next := VisibleBefore(focus);
      }
      if next < 0 {
        return false;
      }
      SetFocus(next, if down then 0 else |sections[next].shown| - 1);
      return true;
    }

    /** A key that moves the cursor by one row. */
    method Move(down: bool)
      modifies this`sections, this`focus
      ensures Value() == Moved(old(Value()), down)
    {
      var crossed := CrossSection(down);
      if crossed || focus >= |sections| {
        return;
      }
      var s := sections[focus];
      var to := if down then s.cursor + 1 else s.cursor - 1;
      sections := sections[focus := s.(cursor := Min(Max(to, 0), |s.shown| - 1))];
      Refresh(focus);
    }

    method GotoEdge(last: bool)
      modifies this`sections, this`focus
      ensures Value() == AtEdge(old(Value()), last)
    {
      var i: int;
      if last {
        i := VisibleBefore(|sections|);
      } else {
        i := FirstVisible(0);
      }
      if i < 0 {
        return;
      }
      SetFocus(i, if last then |sections[i].shown| - 1 else 0);
    }

    method ToggleChecked()
      modifies this`sections, this`checked
      ensures Value() == Toggled(old(Value()))
    {
      if focus >= |sections| || !CanSelect(sections[focus]) {
        return;
      }
      var s := sections[focus];
      var item := SelectedIn(s);
      if item.None? || IsDisabled(s, item.value) {
        return;
      }
      var id := s.def.id.value(item.value);
      if id in checked {
        checked := checked - {id};
      } else {
        checked := checked + {id};
      }
      Refresh(focus);
    }

    /** Checks every shown row of a selectable section that is not disabled. */
    method CheckShown(s: Section<T>)
      requires CanSelect(s)
      modifies this`checked
      ensures checked == old(checked) + CheckableIds(s)
    {
      for j := 0 to |s.shown|
        invariant checked == old(checked) +
                  set k | 0 <= k < j && !IsDisabled(s, s.shown[k]) :: s.def.id.value(s.shown[k])
      {
        if IsDisabled(s, s.shown[j]) {
          continue;
        }
        checked := checked + {s.def.id.value(s.shown[j])};
      }
    }

    /** Checks every shown row of the selectable sections that is not disabled. */
    method CheckAll()
      modifies this`sections, this`checked
      ensures Value() == AllChecked(old(Value()))
    {
      ghost var before := sections;
      CheckedPart(before, 0);
      for i := 0 to |sections|
        invariant sections == PartlyRefreshed(before, i)
        invariant checked == old(checked) + CheckableAll(before[..i])
      {
        CheckedPart(before, i);
        hide CanSelect, CheckableIds, Refreshed, PartlyRefreshed, CheckableAll;
        var s := sections[i];
        if !CanSelect(s) {
          continue;
        }
        CheckShown(s);
        Refresh(i);
      }
      assert before[..|before|] == before;
    }

    method ClearSelection()
      modifies this`sections, this`checked
      ensures Value() == Cleared(old(Value()))
    {
      checked := {};
      RefreshAll();
    }
  }
}
