/**
 Unpacking over an existing directory: the archive is unpacked into a staging area first, and its
 entries are then moved to their final places by rename.
 */
module Stage {
  import opened Strings
  import opened Tree

  const STAGE_PREFIX := ".gsr-stage-"

  // ---- The overlay that promotion is to produce ----

  /** Directories on both sides merge; everything else staged replaces what was there. */
  function Merge(d: Node, s: Node): Node
    decreases s, 0
  {
    if d.Dir? && s.Dir? then
      Dir(map k | k in d.kids.Keys + s.kids.Keys ::
            if k !in s.kids then d.kids[k] else MergeOver(At(d.kids, k), s.kids[k]))
    else s
  }

  function At(kids: map<string, Node>, k: string): Option<Node> {
    if k in kids then Some(kids[k]) else None
  }

  function MergeOver(d: Option<Node>, s: Node): Node
    decreases s, 1
  {
    if d.Some? then Merge(d.value, s) else s
  }

  /** The staged directory without the names that must be kept. */
  function Without(s: Node, keep: seq<string>): Node
    requires s.Dir?
  {
    Dir(map k | k in s.kids && k !in keep :: s.kids[k])
  }

  function Overlay(d: Node, s: Node, keep: seq<string>): Node
    requires s.Dir?
  {
    Merge(d, Without(s, keep))
  }

  /** A proper ancestor of `p` is staged as something other than a directory. */
  ghost predicate Blocked(s: Node, p: Path) {
    exists n :: 0 <= n < |p| && See(s, p[..n]) != IsDir && See(s, p[..n]) != Absent
  }

  lemma SeeStep(n: Node, p: Path)
    requires p != []
    ensures See(n, p) == if n.Dir? && p[0] in n.kids then See(n.kids[p[0]], p[1..]) else Absent
  {
  }

  lemma BlockedStep(s: Node, p: Path)
    requires p != []
    ensures s.Dir? ==> (Blocked(s, p) <==> p[0] in s.kids && Blocked(s.kids[p[0]], p[1..]))
    ensures !s.Dir? ==> Blocked(s, p)
  {
    if !s.Dir? {
      assert See(s, p[..0]) != IsDir;
    } else {
      assert See(s, p[..0]) == IsDir;
      forall n | 0 < n < |p|
        ensures See(s, p[..n]) == if p[0] in s.kids then See(s.kids[p[0]], p[1..][..n - 1]) else Absent
      {
        assert p[..n][1..] == p[1..][..n - 1];
      }
      if p[0] in s.kids && Blocked(s.kids[p[0]], p[1..]) {
        var n :| 0 <= n < |p[1..]| && See(s.kids[p[0]], p[1..][..n]) != IsDir &&
                 See(s.kids[p[0]], p[1..][..n]) != Absent;
        assert See(s, p[..n + 1]) == See(s.kids[p[0]], p[1..][..n]);
      }
    }
  }

  /** The overlay, path by path: what is staged wins; below a staged file nothing stays; the rest survives. */
  lemma {:induction false} MergeSees(d: Node, s: Node, p: Path)
    ensures See(Merge(d, s), p) ==
            if See(s, p) != Absent then See(s, p)
            else if Blocked(s, p) then Absent
            else See(d, p)
    decreases |p|
  {
    if p != [] {
      SeeStep(d, p);
      SeeStep(s, p);
      SeeStep(Merge(d, s), p);
      BlockedStep(s, p);
      if s.Dir? && p[0] in s.kids && d.Dir? && p[0] in d.kids {
        MergeSees(d.kids[p[0]], s.kids[p[0]], p[1..]);
      } else if s.Dir? && p[0] in s.kids && Blocked(s.kids[p[0]], p[1..]) {
        BlockedIsAbsent(s.kids[p[0]], p[1..]);
      }
    }
  }

  lemma {:induction false} BlockedIsAbsent(s: Node, p: Path)
    requires Blocked(s, p)
    ensures See(s, p) == Absent
  {
    SeeStep(s, p);
    BlockedStep(s, p);
    if s.Dir? {
      BlockedIsAbsent(s.kids[p[0]], p[1..]);
    }
  }

  // ---- States on the way ----

  /** What recursive removal may leave of `d` while it runs. */
  ghost predicate Thinned(x: Node, d: Node) {
    || x == d
    || (x.Dir? && d.Dir? && x.kids.Keys <= d.kids.Keys && forall k :: k in x.kids ==> Thinned(x.kids[k], d.kids[k]))
  }

  /** A state of one entry while `s` is moved over `d`. */
  ghost predicate MidEntry(x: Option<Node>, d: Option<Node>, s: Node)
    decreases s, 1
  {
    || x == d
    || x == Some(MergeOver(d, s))
    || (d.Some? && d.value.Dir? != s.Dir? && (x.None? || Thinned(x.value, d.value)))
    || (d.Some? && x.Some? && Midway(x.value, d.value, s))
  }

  /** A state of a directory while the directory `s` is merged into it. */
  ghost predicate Midway(x: Node, d: Node, s: Node)
    decreases s, 0
  {
    && x.Dir? && d.Dir? && s.Dir?
    && (forall k :: k in s.kids ==> MidEntry(At(x.kids, k), At(d.kids, k), s.kids[k]))
    && (forall k :: k !in s.kids ==> At(x.kids, k) == At(d.kids, k))
  }

  function SeeIn(n: Option<Node>, p: Path): View {
    if n.Some? then See(n.value, p) else Absent
  }

  /** At `p` or above it the old and the new tree differ in whether a directory stands there. */
  ghost predicate KindChanges(old_: Option<Node>, new_: Option<Node>, p: Path) {
    exists n :: 0 <= n <= |p| && KindDiffers(SeeIn(old_, p[..n]), SeeIn(new_, p[..n]))
  }

  predicate KindDiffers(a: View, b: View) {
    a != Absent && b != Absent && (a == IsDir) != (b == IsDir)
  }

  /** A path shows what it showed before or what it is to show, or is briefly absent because its kind changes. */
  ghost predicate WhollyOldOrNew(x: Option<Node>, old_: Option<Node>, new_: Option<Node>, p: Path) {
    || SeeIn(x, p) == SeeIn(old_, p)
    || SeeIn(x, p) == SeeIn(new_, p)
    || (SeeIn(x, p) == Absent && KindChanges(old_, new_, p))
  }

  lemma {:induction false} ThinnedSees(x: Node, d: Node, p: Path)
    requires Thinned(x, d)
    ensures See(x, p) == See(d, p) || See(x, p) == Absent
    decreases |p|
  {
    if p != [] && x != d {
      SeeStep(x, p);
      SeeStep(d, p);
      if p[0] in x.kids {
        ThinnedSees(x.kids[p[0]], d.kids[p[0]], p[1..]);
      }
    }
  }

  lemma KindChangesBelow(old_: Node, new_: Node, p: Path)
    requires p != [] && old_.Dir? && new_.Dir?
    requires KindChanges(At(old_.kids, p[0]), At(new_.kids, p[0]), p[1..])
    ensures KindChanges(Some(old_), Some(new_), p)
  {
    var n :| 0 <= n <= |p[1..]| &&
             KindDiffers(SeeIn(At(old_.kids, p[0]), p[1..][..n]), SeeIn(At(new_.kids, p[0]), p[1..][..n]));
    assert p[..n + 1][1..] == p[1..][..n];
    SeeStep(old_, p[..n + 1]);
    SeeStep(new_, p[..n + 1]);
    assert KindDiffers(SeeIn(Some(old_), p[..n + 1]), SeeIn(Some(new_), p[..n + 1]));
  }

  lemma {:induction false} MidEntrySees(x: Option<Node>, d: Option<Node>, s: Node, p: Path)
    requires MidEntry(x, d, s)
    ensures WhollyOldOrNew(x, d, Some(MergeOver(d, s)), p)
    decreases |p|, 1
  {
    if x == d || x == Some(MergeOver(d, s)) {
    } else if d.Some? && d.value.Dir? != s.Dir? && (x.None? || Thinned(x.value, d.value)) {
      if x.Some? {
        ThinnedSees(x.value, d.value, p);
      }
      assert KindDiffers(SeeIn(d, p[..0]), SeeIn(Some(MergeOver(d, s)), p[..0]));
    } else {
      MidwaySees(x.value, d.value, s, p);
    }
  }

  /** On the way, every path is wholly old or wholly new, or absent while its kind changes. */
  lemma {:induction false} MidwaySees(x: Node, d: Node, s: Node, p: Path)
    requires Midway(x, d, s)
    ensures WhollyOldOrNew(Some(x), Some(d), Some(Merge(d, s)), p)
    decreases |p|, 0
  {
    if p != [] {
      var m := Merge(d, s);
      var k := p[0];
      SeeStep(x, p);
      SeeStep(d, p);
      SeeStep(m, p);
      if k in s.kids {
        assert At(m.kids, k) == Some(MergeOver(At(d.kids, k), s.kids[k]));
        MidEntrySees(At(x.kids, k), At(d.kids, k), s.kids[k], p[1..]);
        if KindChanges(At(d.kids, k), At(m.kids, k), p[1..]) {
          KindChangesBelow(d, m, p);
        }
      } else {
        assert At(x.kids, k) == At(d.kids, k);
      }
    }
  }

  // ---- The file system ----

  /** What is left of a staged directory once everything in it was moved: the directories that were merged. */
  function Residue(d: Node, s: Node): Node
    requires d.Dir? && s.Dir?
    decreases s
  {
    Dir(map k | k in s.kids && k in d.kids && d.kids[k].Dir? && s.kids[k].Dir? :: Residue(d.kids[k], s.kids[k]))
  }

  /** The destination entries when those in `done` have been merged. */
  function Mixed(dk: map<string, Node>, sk: map<string, Node>, done: set<string>): map<string, Node>
    requires done <= sk.Keys
  {
    map k | k in dk.Keys + done :: if k in done then MergeOver(At(dk, k), sk[k]) else dk[k]
  }

  /** The staged entries when those in `done` have been moved. */
  function Left(dk: map<string, Node>, sk: map<string, Node>, done: set<string>): map<string, Node> {
    map k | k in sk && (k !in done || (k in dk && dk[k].Dir? && sk[k].Dir?)) ::
      if k in done then Residue(dk[k], sk[k]) else sk[k]
  }

  /** The destination without left-over staging areas. */
  function Swept(d: Node): Node
    requires d.Dir?
  {
    Dir(map k | k in d.kids && !(STAGE_PREFIX <= k) :: d.kids[k])
  }

  /** `h` is `t` but for what stands at `p`, and there it is some `x` on the way from `d` to `s` over `d`. */
  ghost predicate SeenMerging(h: Node, t: Node, p: Path, d: Node, s: Node) {
    HasParent(t, p) && exists x :: h == Put(t, p, x) && Midway(x, d, s)
  }

  ghost predicate SeenRemoving(h: Node, t: Node, p: Path, d: Node) {
    && p != [] && HasParent(t, p)
    && (h == Del(t, p) || exists x :: h == Put(t, p, x) && Thinned(x, d))
  }

  /** A state of `t` while its left-over staging areas are removed: nothing else is touched. */
  ghost predicate SeenSweeping(h: Node, t: Node) {
    && h.Dir? && t.Dir? && h.kids.Keys <= t.kids.Keys
    && (forall k :: k in h.kids && ".gsr-stage-" <= k ==> Thinned(h.kids[k], t.kids[k]))
    && (forall k :: !(".gsr-stage-" <= k) ==> At(h.kids, k) == At(t.kids, k))
  }

  // ---- Single steps ----

  predicate IsLeaf(n: Node) {
    n.Dir? ==> n.kids == map[]
  }

  /** rename(2) may put `v` in the place of `to`: nothing, the same kind, or an empty directory. */
  predicate MayReplace(to: Option<Node>, v: Node) {
    to.None? || (!to.value.Dir? && !v.Dir?) || (to.value.Dir? && v.Dir? && to.value.kids == map[])
  }

  /** That is: nothing that stood there disappears but what the new entry stands for, and a directory stays one. */
  lemma MayReplaceIff(to: Option<Node>, v: Node)
    ensures MayReplace(to, v) <==>
            to == None || ((to.value.Dir? <==> v.Dir?) && forall p :: p != [] ==> See(to.value, p) == Absent)
  {
    if to.Some? && to.value.Dir? && to.value.kids != map[] {
      var k :| k in to.value.kids;
      SeeStep(to.value, [k]);
      assert [k][0] == k && See(to.value.kids[k], []) != Absent;
    }
  }

  /** One file, link or empty directory goes. */
  ghost predicate Removes(a: Node, b: Node, p: Path) {
    p != [] && HasParent(a, p) && Get(a, p).Some? && IsLeaf(Get(a, p).value) && b == Del(a, p)
  }

  /** One rename puts `v` at `p`. */
  ghost predicate Renames(a: Node, b: Node, p: Path, v: Node) {
    p != [] && HasParent(a, p) && MayReplace(Get(a, p), v) && b == Put(a, p, v)
  }

  /** A removal makes one path absent at which nothing stood below, and no other changes. */
  lemma RemovalIs(a: Node, b: Node, p: Path, q: Path)
    requires Removes(a, b, p)
    ensures See(b, q) == if p <= q then Absent else See(a, q)
    ensures See(a, p) != Absent
  {
    SeeDel(a, p, q);
  }

  /** A rename puts a whole tree at one path, and no path elsewhere changes. */
  lemma RenameIs(a: Node, b: Node, p: Path, v: Node, q: Path)
    requires Renames(a, b, p, v)
    ensures See(b, q) == if p <= q then See(v, q[|p|..]) else See(a, q)
  {
    SeePut(a, p, v, q);
  }

  /** The smallest change a tree can undergo. */
  ghost predicate OneStep(a: Node, b: Node) {
    (exists p :: Removes(a, b, p)) || (exists p, v :: Renames(a, b, p, v))
  }

  /** Successive states with no state left out: each follows from the one before by a single step. */
  ghost predicate Trace(states: seq<Node>) {
    states != [] && forall i :: 0 < i < |states| ==> OneStep(states[i - 1], states[i])
  }

  lemma TraceGrows(states: seq<Node>, b: Node)
    requires Trace(states) && OneStep(states[|states| - 1], b)
    ensures Trace(states + [b])
  {
    hide OneStep;
  }

  lemma TraceFrom(states: seq<Node>, n: nat)
    requires Trace(states) && n < |states|
    ensures Trace(states[n..])
  {
    hide OneStep;
    forall i | 0 < i < |states[n..]|
      ensures OneStep(states[n..][i - 1], states[n..][i])
    {
      assert states[n..][i - 1] == states[n + i - 1] && states[n..][i] == states[n + i];
    }
  }

  /**
   The destination directory and the staging area. `seen` records every state the destination has
   been in, one single step after the other, so that what a forced stop may leave behind can be stated.
   */
  class Area {
    var tree: Node
    var stage: Node
    ghost var seen: seq<Node>

    /** The record ends with the present state and leaves out none before it. */
    ghost predicate Valid()
      reads this
    {
      seen != [] && seen[|seen| - 1] == tree && Trace(seen)
    }

    constructor (tree: Node, stage: Node)
      ensures Valid() && this.tree == tree && this.stage == stage && seen == [tree]
    {
      this.tree := tree;
      this.stage := stage;
      seen := [tree];
    }

    /** rename(2) from the staging area: atomic over the same kind, refused when only one side is a directory. */
    method Rename(p: Path) returns (ok: bool)
      requires Valid() && p != [] && Get(stage, p).Some? && HasParent(stage, p) && HasParent(tree, p)
      modifies this
      ensures Valid()
      ensures var from, to := Get(old(stage), p).value, Get(old(tree), p);
              && ok == MayReplace(to, from)
              && tree == (if ok then Put(old(tree), p, from) else old(tree))
              && stage == (if ok then Del(old(stage), p) else old(stage))
              && seen == old(seen) + (if ok then [tree] else [])
    {
      var from, to := Get(stage, p).value, Get(tree, p);
      ok := MayReplace(to, from);
      if ok {
        ghost var before := tree;
        tree := Put(tree, p, from);
        stage := Del(stage, p);
        assert Renames(before, tree, p, from);
        TraceGrows(seen, tree);
        seen := seen + [tree];
      }
    }

    /** unlink(2) and rmdir(2). */
    method Remove(p: Path)
      requires Valid() && p != [] && HasParent(tree, p) && Get(tree, p).Some? && IsLeaf(Get(tree, p).value)
      modifies this`tree, this`seen
      ensures Valid() && tree == Del(old(tree), p) && seen == old(seen) + [tree]
    {
      ghost var before := tree;
      tree := Del(tree, p);
      assert Removes(before, tree, p);
      TraceGrows(seen, tree);
      seen := seen + [tree];
    }

    /** Recursive removal, one file or emptied directory at a time. */
    method RemoveAll(p: Path)
      requires Valid() && p != [] && Get(tree, p).Some? && HasParent(tree, p)
      modifies this`tree, this`seen
      ensures Valid() && tree == Del(old(tree), p)
      ensures old(seen) <= seen
      ensures forall h :: h in seen[|old(seen)|..] ==> SeenRemoving(h, old(tree), p, Get(old(tree), p).value)
      decreases Get(tree, p).value
    {
      hide Trace;
      ghost var t := tree;
      var d := Get(tree, p).value;
      if d.Dir? {
        var todo := d.kids.Keys;
        PutSame(tree, p);
        assert d.kids - (d.kids.Keys - todo) == d.kids;
        while todo != {}
          invariant Valid() && todo <= d.kids.Keys
          invariant tree == Put(t, p, Dir(d.kids - (d.kids.Keys - todo)))
          invariant old(seen) <= seen
          invariant forall h :: h in seen[|old(seen)|..] ==> SeenRemoving(h, t, p, d)
        {
          var e :| e in todo;
          ghost var kids := d.kids - (d.kids.Keys - todo);
          Entry(t, p, kids, e, tree);
          ghost var before := tree;
          ghost var sofar := seen;
          RemoveAll(p + [e]);
          forall h | h in seen[|sofar|..]
            ensures SeenRemoving(h, t, p, d)
          {
            RemovingEntry(h, t, p, d, kids, e);
          }
          todo := todo - {e};
          assert kids - {e} == d.kids - (d.kids.Keys - todo);
        }
        assert d.kids - (d.kids.Keys - {}) == map[];
        PutDel(t, p, Dir(map[]));
        GetPut(t, p, Dir(map[]));
      }
      Remove(p);
    }

    /** Removes staging areas that an earlier forced stop left behind. */
    method SweepStaleStages()
      requires Valid() && tree.Dir?
      modifies this`tree, this`seen
      ensures Valid() && tree == Swept(old(tree))
      ensures old(seen) <= seen
      ensures forall h :: h in seen[|old(seen)|..] ==> SeenSweeping(h, old(tree))
    {
      hide Trace, SeenSweeping;
      ghost var t := tree;
      ghost var kids := tree.kids;
      var todo := tree.kids.Keys;
      ghost var gone: set<string> := {};
      assert kids - {} == kids;
      while todo != {}
        invariant Valid() && todo <= kids.Keys && gone == (set k | k in kids && k !in todo && STAGE_PREFIX <= k)
        invariant tree == Dir(kids - gone)
        invariant old(seen) <= seen
        invariant forall h :: h in seen[|old(seen)|..] ==> SeenSweeping(h, t)
      {
        var e :| e in todo;
        todo := todo - {e};
        if !(STAGE_PREFIX <= e) {
          continue;
        }
        assert [e][1..] == [];
        ghost var sofar := seen;
        RemoveAll([e]);
        forall h | h in seen[|sofar|..]
          ensures SeenSweeping(h, t)
        {
          SweepingEntry(h, t, gone, e);
        }
        gone := gone + {e};
        assert tree == Dir(kids - gone);
      }
    }

    /**
     The whole unpacking: `staged` is what unpacking the archive into a fresh staging area gave, or
     nothing when it failed. Sweeping ends with the state recorded in front of `start`.
     */
    method Extract(staged: Option<Node>, keep: seq<string>) returns (ok: bool, ghost start: nat)
      requires Valid() && tree.Dir? && (staged.Some? ==> staged.value.Dir?)
      modifies this
      ensures Valid() && ok == staged.Some?
      ensures tree == if ok then Overlay(Swept(old(tree)), staged.value, keep) else Swept(old(tree))
      ensures stage == Dir(map[])
      ensures old(seen) <= seen && |old(seen)| <= start <= |seen|
      ensures forall h :: h in seen[|old(seen)|..start] ==> SeenSweeping(h, old(tree))
      ensures seen[start - 1] == Swept(old(tree))
      ensures if ok then Recorded(seen[start - 1..], Swept(old(tree)), staged.value, keep) else start == |seen|
    {
      hide Trace, SeenSweeping, SeenMerging;
      SweepStaleStages();
      start := |seen|;
      ghost var swept := seen;
      assert Trace(swept) && seen[..start] == swept;
      if staged.Some? {
        ghost var t := tree;
        stage := staged.value;
        Promote([], keep);
        assert seen[..start] == swept;
        NotYetMerging(t, Without(staged.value, keep));
        TraceFrom(seen, start - 1);
        assert seen[start - 1..] == [t] + seen[start..];
      }
      stage := Dir(map[]);
      ok := staged.Some?;
    }

    /** Moves one staged entry into place; what stands in the way is removed only when the rename is refused. */
    method Move(p: Path)
      requires Valid() && p != [] && Get(stage, p).Some? && HasParent(stage, p) && HasParent(tree, p)
      requires !(IsDirAt(tree, p) && IsDirAt(stage, p))
      modifies this
      ensures Valid() && tree == Put(old(tree), p, Get(old(stage), p).value)
      ensures stage == Del(old(stage), p)
      ensures old(seen) <= seen
      ensures forall h :: h in seen[|old(seen)|..] ==>
                SeenMoving(h, old(tree), p, Get(old(tree), p), Get(old(stage), p).value)
    {
      hide Trace;
      ghost var t := tree;
      var ok := Rename(p);
      if ok {
        return;
      }
      RemoveAll(p);
      DelThenPut(t, p, Get(stage, p).value);
      ok := Rename(p);
    }

    /**
     Moves what is staged under `rel` to its place, descending only where a real directory stands on
     both sides. Below the root the first name of the path is known not to be kept.
     */
    method Promote(rel: Path, keep: seq<string>)
      requires Valid() && IsDirAt(tree, rel) && IsDirAt(stage, rel)
      requires rel == [] || rel[0] !in keep
      modifies this
      ensures Valid()
      ensures var d, s := Get(old(tree), rel).value, Get(old(stage), rel).value;
              var eff := if rel == [] then Without(s, keep) else s;
              && HasParent(old(tree), rel) && tree == Put(old(tree), rel, Merge(d, eff))
              && HasParent(old(stage), rel) && stage == Put(old(stage), rel, Dir(Left(d.kids, s.kids, eff.kids.Keys)))
              && old(seen) <= seen
              && forall h :: h in seen[|old(seen)|..] ==> SeenMerging(h, old(tree), rel, d, eff)
      decreases Get(stage, rel).value, 1
    {
      hide Trace, HasParent, Put, Del, Get, Mixed, Left, SeenMerging, Merge;
      ghost var t, g := tree, stage;
      ghost var d := Get(tree, rel).value;
      var s := Get(stage, rel).value;
      ghost var eff := if rel == [] then Without(s, keep) else s;
      ghost var done: set<string> := {};
      var todo := s.kids.Keys;
      PutSame(tree, rel);
      PutSame(stage, rel);
      NothingDone(d, s, eff);
      while todo != {}
        invariant Valid() && todo <= s.kids.Keys && done == eff.kids.Keys - todo
        invariant tree == Put(t, rel, Dir(Mixed(d.kids, eff.kids, done)))
        invariant stage == Put(g, rel, Dir(Left(d.kids, s.kids, done)))
        invariant old(seen) <= seen
        invariant forall h :: h in seen[|old(seen)|..] ==> SeenMerging(h, t, rel, d, eff)
      {
        var e :| e in todo;
        todo := todo - {e};
        if (rel + [e])[0] in keep {
          continue;
        }
        PromoteEntry(rel, e, keep, t, g, d, s, eff, done);
        done := done + {e};
      }
      assert done == eff.kids.Keys;
    }

    /** One turn of the loop in `Promote`, for an entry that is not kept. */
    method PromoteEntry(rel: Path, e: string, keep: seq<string>,
                        ghost t: Node, ghost g: Node, ghost d: Node, ghost s: Node, ghost eff: Node,
                        ghost done: set<string>)
      requires Valid() && HasParent(t, rel) && HasParent(g, rel) && (rel + [e])[0] !in keep
      requires d.Dir? && s.Dir? && eff.Dir? && done <= eff.kids.Keys && e in eff.kids && e !in done
      requires eff.kids.Keys <= s.kids.Keys && forall k :: k in eff.kids ==> eff.kids[k] == s.kids[k]
      requires tree == Put(t, rel, Dir(Mixed(d.kids, eff.kids, done)))
      requires stage == Put(g, rel, Dir(Left(d.kids, s.kids, done)))
      modifies this
      ensures Valid() && tree == Put(t, rel, Dir(Mixed(d.kids, eff.kids, done + {e})))
      ensures stage == Put(g, rel, Dir(Left(d.kids, s.kids, done + {e})))
      ensures old(seen) <= seen
      ensures forall h :: h in seen[|old(seen)|..] ==> SeenMerging(h, t, rel, d, eff)
      decreases s, 0
    {
      hide Trace, HasParent, Put, Del, Get, Mixed, Left;
      var p := rel + [e];
      EntryStates(t, g, rel, d, s, eff, done, e);
      if IsDirAt(stage, p) && IsDirAt(tree, p) {
        Promote(p, keep);
      } else {
        Move(p);
      }
      forall h | h in seen[|old(seen)|..]
        ensures SeenMerging(h, t, rel, d, eff)
      {
        MergingEntry(h, t, rel, d, eff, done, e);
      }
    }
  }

  // ---- What promotion guarantees ----

  /**
   The record of a promotion of the whole staging area, from the first state to the last, single step by
   single step.
   */
  ghost predicate Recorded(states: seq<Node>, tree: Node, stage: Node, keep: seq<string>) {
    && stage.Dir? && Trace(states)
    && states[0] == tree && states[|states| - 1] == Overlay(tree, stage, keep)
    && forall h :: h in states ==> SeenMerging(h, tree, [], tree, Without(stage, keep))
  }

  lemma NotYetMerging(tree: Node, s: Node)
    requires tree.Dir? && s.Dir?
    ensures SeenMerging(tree, tree, [], tree, s)
  {
    forall k | k in s.kids
      ensures MidEntry(At(tree.kids, k), At(tree.kids, k), s.kids[k])
    {
    }
    assert tree == Put(tree, [], tree) && Midway(tree, tree, s);
  }

  /**
   In every state a forced stop may leave behind, each path shows wholly what it showed before or
   wholly what it is to show; only a path at or below a change between directory and file may be absent.
   */
  lemma EveryPathOldOrNew(states: seq<Node>, tree: Node, stage: Node, keep: seq<string>, h: Node, p: Path)
    requires Recorded(states, tree, stage, keep) && h in states
    ensures WhollyOldOrNew(Some(h), Some(tree), Some(Overlay(tree, stage, keep)), p)
  {
    hide Trace;
    MidwaySees(h, tree, Without(stage, keep), p);
  }

  /** The same from the first sweep to the last rename, for every path outside left-over staging areas. */
  lemma StoppedAnywhere(sweep: seq<Node>, states: seq<Node>, t: Node, stage: Node, keep: seq<string>, h: Node, p: Path)
    requires t.Dir? && forall x :: x in sweep ==> SeenSweeping(x, t)
    requires Recorded(states, Swept(t), stage, keep) && h in sweep + states
    requires p != [] ==> !(".gsr-stage-" <= p[0])
    ensures WhollyOldOrNew(Some(h), Some(t), Some(Overlay(Swept(t), stage, keep)), p)
  {
    hide Trace, Overlay;
    if h in sweep {
      SweptElsewhere(h, t, p);
    } else {
      EveryPathOldOrNew(states, Swept(t), stage, keep, h, p);
      var new_ := Some(Overlay(Swept(t), stage, keep));
      assert SeenSweeping(Swept(t), t);
      SweptElsewhere(Swept(t), t, p);
      if KindChanges(Some(Swept(t)), new_, p) {
        var n :| 0 <= n <= |p| && KindDiffers(SeeIn(Some(Swept(t)), p[..n]), SeeIn(new_, p[..n]));
        SweptElsewhere(Swept(t), t, p[..n]);
        assert KindDiffers(SeeIn(Some(t), p[..n]), SeeIn(new_, p[..n]));
      }
    }
  }

  /** Sweeping touches nothing outside left-over staging areas. */
  lemma SweptElsewhere(h: Node, t: Node, p: Path)
    requires SeenSweeping(h, t) && (p != [] ==> !(STAGE_PREFIX <= p[0]))
    ensures See(h, p) == See(t, p)
  {
    if p != [] {
      assert At(h.kids, p[0]) == At(t.kids, p[0]);
    }
  }

  /** Removing one more staging area is a state of the sweep. */
  lemma SweepingEntry(h: Node, t: Node, gone: set<string>, e: string)
    requires t.Dir? && e in t.kids && e !in gone && STAGE_PREFIX <= e && forall k :: k in gone ==> STAGE_PREFIX <= k
    requires SeenRemoving(h, Dir(t.kids - gone), [e], t.kids[e])
    ensures SeenSweeping(h, t)
  {
    if h != Del(Dir(t.kids - gone), [e]) {
      var x :| h == Put(Dir(t.kids - gone), [e], x) && Thinned(x, t.kids[e]);
    }
  }

  /** Nothing at or below a kept name is touched, at any moment. */
  lemma KeptUntouched(states: seq<Node>, tree: Node, stage: Node, keep: seq<string>, h: Node, p: Path)
    requires Recorded(states, tree, stage, keep) && h in states
    requires p != [] && p[0] in keep
    ensures Get(h, p) == Get(tree, p)
  {
    hide Trace;
    assert Midway(h, tree, Without(stage, keep));
    assert At(h.kids, p[0]) == At(tree.kids, p[0]);
  }

  // ---- Starting again ----

  /** Merging over any state on the way ends where the merge would have ended. */
  lemma {:induction false} MidwayMerges(x: Node, d: Node, s: Node)
    requires Midway(x, d, s)
    ensures Merge(x, s) == Merge(d, s)
    decreases s, 0
  {
    var a, b := Merge(x, s).kids, Merge(d, s).kids;
    assert x.kids.Keys + s.kids.Keys == d.kids.Keys + s.kids.Keys by { SameOtherNames(x, d, s); }
    forall k | k in b
      ensures a[k] == b[k]
    {
      if k in s.kids {
        MidEntryMerges(At(x.kids, k), At(d.kids, k), s.kids[k]);
      } else {
        assert At(x.kids, k) == At(d.kids, k);
      }
    }
    assert a == b;
  }

  lemma SameOtherNames(x: Node, d: Node, s: Node)
    requires x.Dir? && d.Dir? && s.Dir? && forall k :: k !in s.kids ==> At(x.kids, k) == At(d.kids, k)
    ensures x.kids.Keys + s.kids.Keys == d.kids.Keys + s.kids.Keys
  {
    forall k | k !in s.kids
      ensures k in x.kids <==> k in d.kids
    {
      assert At(x.kids, k) == At(d.kids, k);
    }
  }

  lemma {:induction false} MidEntryMerges(x: Option<Node>, d: Option<Node>, s: Node)
    requires MidEntry(x, d, s)
    ensures MergeOver(x, s) == MergeOver(d, s)
    decreases s, 1
  {
    if x == Some(MergeOver(d, s)) {
      if d.Some? {
        MergeAgain(d.value, s);
      } else {
        MergeItself(s);
      }
    } else if d.Some? && d.value.Dir? != s.Dir? && (x.None? || Thinned(x.value, d.value)) {
      assert MergeOver(d, s) == s;
    } else if x != d {
      MidwayMerges(x.value, d.value, s);
    }
  }

  /** Unpacking the same again over the result changes nothing. */
  lemma {:induction false} MergeAgain(d: Node, s: Node)
    ensures Merge(Merge(d, s), s) == Merge(d, s)
    decreases s
  {
    if s.Dir? && d.Dir? {
      var m := Merge(d, s);
      forall k | k in s.kids
        ensures Merge(m.kids[k], s.kids[k]) == m.kids[k]
      {
        assert m.kids[k] == MergeOver(At(d.kids, k), s.kids[k]);
        if k in d.kids {
          MergeAgain(d.kids[k], s.kids[k]);
        } else {
          MergeItself(s.kids[k]);
        }
      }
      assert Merge(m, s).kids == m.kids;
    } else {
      MergeItself(s);
    }
  }

  lemma {:induction false} MergeItself(s: Node)
    ensures Merge(s, s) == s
    decreases s
  {
    if s.Dir? {
      forall k | k in s.kids
        ensures Merge(s.kids[k], s.kids[k]) == s.kids[k]
      {
        MergeItself(s.kids[k]);
      }
      assert Merge(s, s).kids == s.kids;
    }
  }

  /**
   An unpacking over `t`, swept through `sweep` and promoted through `states`, is stopped at `h`, which
   leaves `x` behind: `h` and whatever is in staging areas, the one of the stopped unpacking included.
   */
  ghost predicate Stopped(x: Node, sweep: seq<Node>, states: seq<Node>, h: Node, t: Node, stage: Node,
                          keep: seq<string>) {
    && t.Dir? && (forall y :: y in sweep ==> SeenSweeping(y, t))
    && Recorded(states, Swept(t), stage, keep) && h in sweep + states
    && x.Dir? && h.Dir? && Swept(x) == Swept(h)
  }

  /** Unpacking the same again, over whatever a stop left behind, ends where the stopped unpacking would have ended. */
  lemma Resumed(x: Node, sweep: seq<Node>, states: seq<Node>, h: Node, t: Node, stage: Node, keep: seq<string>)
    requires Stopped(x, sweep, states, h, t, stage, keep)
    ensures Overlay(Swept(x), stage, keep) == Overlay(Swept(t), stage, keep)
  {
    hide Trace, Merge, Without, Midway;
    if h in sweep {
      SweptAlike(h, t);
    } else {
      assert Midway(h, Swept(t), Without(stage, keep));
      SweptMidway(h, t, Without(stage, keep));
      MidwayMerges(Swept(h), Swept(t), Without(stage, keep));
    }
  }

  /** However often it is stopped and started again. */
  lemma {:induction false} ResumedAgain(xs: seq<Node>, stage: Node, keep: seq<string>)
    requires stage.Dir? && xs != [] && xs[0].Dir?
    requires forall i :: 0 < i < |xs| ==> LeftBehind(xs[i], xs[i - 1], stage, keep)
    ensures xs[|xs| - 1].Dir? && Overlay(Swept(xs[|xs| - 1]), stage, keep) == Overlay(Swept(xs[0]), stage, keep)
  {
    hide Overlay, Stopped;
    if |xs| > 1 {
      var n := |xs| - 1;
      ResumedAgain(xs[..n], stage, keep);
      var sweep, states, h :| Stopped(xs[n], sweep, states, h, xs[n - 1], stage, keep);
      StoppedOnDir(xs[n], sweep, states, h, xs[n - 1], stage, keep);
      Resumed(xs[n], sweep, states, h, xs[n - 1], stage, keep);
    }
  }

  ghost predicate LeftBehind(x: Node, t: Node, stage: Node, keep: seq<string>) {
    exists sweep, states, h :: Stopped(x, sweep, states, h, t, stage, keep)
  }

  lemma StoppedOnDir(x: Node, sweep: seq<Node>, states: seq<Node>, h: Node, t: Node, stage: Node, keep: seq<string>)
    requires Stopped(x, sweep, states, h, t, stage, keep)
    ensures x.Dir? && t.Dir?
  {
  }

  lemma SweptAlike(h: Node, t: Node)
    requires SeenSweeping(h, t)
    ensures Swept(h) == Swept(t)
  {
    var a, b := Swept(h).kids, Swept(t).kids;
    forall k | !(STAGE_PREFIX <= k)
      ensures k in a <==> k in b
      ensures k in a && k in b ==> a[k] == b[k]
    {
      assert At(h.kids, k) == At(t.kids, k);
    }
    assert a == b;
  }

  /** Sweeping a state on the way of a merge gives a state on its way. */
  lemma SweptMidway(h: Node, t: Node, s: Node)
    requires t.Dir? && Midway(h, Swept(t), s)
    ensures Midway(Swept(h), Swept(t), s)
  {
    hide MidEntry;
    var a, b := Swept(h).kids, Swept(t).kids;
    forall k
      ensures At(a, k) == (if STAGE_PREFIX <= k then None else At(h.kids, k))
      ensures STAGE_PREFIX <= k ==> At(b, k) == None
    {
    }
    forall k | k in s.kids
      ensures MidEntry(At(a, k), At(b, k), s.kids[k])
    {
      if STAGE_PREFIX <= k {
        NotYet(None, s.kids[k]);
      }
    }
  }

  lemma NotYet(d: Option<Node>, s: Node)
    ensures MidEntry(d, d, s)
  {
  }

  /** The final tree, path by path. */
  lemma OverlaySees(tree: Node, stage: Node, keep: seq<string>, p: Path)
    requires tree.Dir? && stage.Dir?
    ensures See(Overlay(tree, stage, keep), p) ==
            if p != [] && p[0] in keep then See(tree, p)
            else if See(stage, p) != Absent then See(stage, p)
            else if Blocked(stage, p) then Absent
            else See(tree, p)
  {
    var w := Without(stage, keep);
    MergeSees(tree, w, p);
    if p != [] {
      SeeStep(stage, p);
      SeeStep(w, p);
      BlockedStep(stage, p);
      BlockedStep(w, p);
    }
  }

  /** After a complete promotion only directories remain staged, apart from what is kept. */
  lemma {:induction false} ResidueHoldsNoFiles(d: Node, s: Node, p: Path)
    requires d.Dir? && s.Dir?
    ensures See(Residue(d, s), p) == IsDir || See(Residue(d, s), p) == Absent
    decreases |p|
  {
    if p != [] {
      SeeStep(Residue(d, s), p);
      if p[0] in Residue(d, s).kids {
        ResidueHoldsNoFiles(d.kids[p[0]], s.kids[p[0]], p[1..]);
      }
    }
  }

  lemma StagedFilesAllMoved(d: Node, s: Node, keep: seq<string>, p: Path)
    requires d.Dir? && s.Dir? && p != [] && p[0] !in keep
    ensures var left := Dir(Left(d.kids, s.kids, Without(s, keep).kids.Keys));
            See(left, p) == IsDir || See(left, p) == Absent
  {
    var left := Dir(Left(d.kids, s.kids, Without(s, keep).kids.Keys));
    SeeStep(left, p);
    if p[0] in left.kids {
      ResidueHoldsNoFiles(d.kids[p[0]], s.kids[p[0]], p[1..]);
    }
  }

  /** What the two trees hold at an entry that is still to be moved, and what handling it makes of them. */
  lemma EntryStates(t: Node, g: Node, rel: Path, d: Node, s: Node, eff: Node, done: set<string>, e: string)
    requires HasParent(t, rel) && HasParent(g, rel)
    requires d.Dir? && s.Dir? && eff.Dir? && done <= eff.kids.Keys && e in eff.kids && e !in done
    requires eff.kids.Keys <= s.kids.Keys && forall k :: k in eff.kids ==> eff.kids[k] == s.kids[k]
    ensures var p, kids, left := rel + [e], Mixed(d.kids, eff.kids, done), Left(d.kids, s.kids, done);
            var tree, stage := Put(t, rel, Dir(kids)), Put(g, rel, Dir(left));
            && HasParent(tree, p) && HasParent(stage, p)
            && Get(tree, p) == At(d.kids, e) && Get(stage, p) == Some(s.kids[e])
            && Put(tree, p, MergeOver(At(d.kids, e), s.kids[e])) ==
               Put(t, rel, Dir(Mixed(d.kids, eff.kids, done + {e})))
            && if s.kids[e].Dir? && e in d.kids && d.kids[e].Dir? then
                 Put(stage, p, Dir(Left(d.kids[e].kids, s.kids[e].kids, s.kids[e].kids.Keys))) ==
                 Put(g, rel, Dir(Left(d.kids, s.kids, done + {e})))
               else Del(stage, p) == Put(g, rel, Dir(Left(d.kids, s.kids, done + {e})))
  {
    hide HasParent, Put, Del, Get;
    var kids, left := Mixed(d.kids, eff.kids, done), Left(d.kids, s.kids, done);
    Entry(t, rel, kids, e, MergeOver(At(d.kids, e), s.kids[e]));
    MixedStep(d.kids, eff.kids, done, e);
    LeftStep(d.kids, s.kids, done, e);
    if s.kids[e].Dir? && e in d.kids && d.kids[e].Dir? {
      ResidueIsLeft(d.kids[e], s.kids[e]);
      Entry(g, rel, left, e, Residue(d.kids[e], s.kids[e]));
    } else {
      Entry(g, rel, left, e, s.kids[e]);
    }
  }

  lemma NothingDone(d: Node, s: Node, eff: Node)
    requires d.Dir? && s.Dir? && eff.Dir?
    ensures Dir(Mixed(d.kids, eff.kids, {})) == d && Dir(Left(d.kids, s.kids, {})) == s
    ensures Dir(Mixed(d.kids, eff.kids, eff.kids.Keys)) == Merge(d, eff)
  {
    assert Mixed(d.kids, eff.kids, {}) == d.kids;
    assert Left(d.kids, s.kids, {}) == s.kids by { hide MergeOver, Residue; }
  }

  predicate IsDirAt(n: Node, p: Path) {
    Get(n, p).Some? && Get(n, p).value.Dir?
  }

  ghost predicate SeenMoving(h: Node, t: Node, p: Path, d: Option<Node>, s: Node) {
    && HasParent(t, p)
    && (h == Put(t, p, s) || (d.Some? && d.value.Dir? != s.Dir? && SeenRemoving(h, t, p, d.value)))
  }

  lemma {:induction false} DelThenPut(t: Node, p: Path, v: Node)
    requires p != [] && HasParent(t, p)
    ensures var m := Del(t, p); HasParent(m, p) && Get(m, p).None? && Put(m, p, v) == Put(t, p, v)
  {
    if |p| > 1 {
      DelThenPut(t.kids[p[0]], p[1..], v);
    } else {
      assert (t.kids - {p[0]})[p[0] := v] == t.kids[p[0] := v];
    }
  }

  lemma ResidueIsLeft(d: Node, s: Node)
    requires d.Dir? && s.Dir?
    ensures Residue(d, s) == Dir(Left(d.kids, s.kids, s.kids.Keys))
  {
  }

  lemma MixedStep(dk: map<string, Node>, sk: map<string, Node>, done: set<string>, e: string)
    requires done <= sk.Keys && e in sk && e !in done
    ensures Mixed(dk, sk, done)[e := MergeOver(At(dk, e), sk[e])] == Mixed(dk, sk, done + {e})
  {
  }

  lemma LeftStep(dk: map<string, Node>, sk: map<string, Node>, done: set<string>, e: string)
    requires e in sk && e !in done
    ensures Left(dk, sk, done + {e}) ==
            if e in dk && dk[e].Dir? && sk[e].Dir? then Left(dk, sk, done)[e := Residue(dk[e], sk[e])]
            else Left(dk, sk, done) - {e}
  {
  }

  /** One entry on its way makes a state of the whole directory. */
  lemma MidwayEntry(d: Node, s: Node, done: set<string>, e: string, y: Option<Node>)
    requires d.Dir? && s.Dir? && done <= s.kids.Keys && e in s.kids
    requires MidEntry(y, At(d.kids, e), s.kids[e])
    ensures var kids := Mixed(d.kids, s.kids, done);
            Midway(Dir(if y.Some? then kids[e := y.value] else kids - {e}), d, s)
  {
    hide MidEntry, MergeOver;
    var kids := Mixed(d.kids, s.kids, done);
    var x := if y.Some? then kids[e := y.value] else kids - {e};
    forall k | k in s.kids
      ensures MidEntry(At(x, k), At(d.kids, k), s.kids[k])
    {
      if k == e {
        assert At(x, k) == y;
      } else {
        assert At(x, k) == At(kids, k);
        MixedIsMidway(d, s, done, k);
      }
    }
  }

  /** An entry that is merged, or not touched yet, is on its way. */
  lemma MixedIsMidway(d: Node, s: Node, done: set<string>, k: string)
    requires d.Dir? && s.Dir? && done <= s.kids.Keys && k in s.kids
    ensures MidEntry(At(Mixed(d.kids, s.kids, done), k), At(d.kids, k), s.kids[k])
  {
    hide MergeOver;
    assert k in done ==> At(Mixed(d.kids, s.kids, done), k) == Some(MergeOver(At(d.kids, k), s.kids[k]));
    assert k !in done ==> At(Mixed(d.kids, s.kids, done), k) == At(d.kids, k);
  }

  lemma MergingEntry(h: Node, t: Node, p: Path, d: Node, s: Node, done: set<string>, e: string)
    requires HasParent(t, p) && d.Dir? && s.Dir? && done <= s.kids.Keys && e in s.kids && e !in done
    requires var m := Put(t, p, Dir(Mixed(d.kids, s.kids, done)));
             if s.kids[e].Dir? && e in d.kids && d.kids[e].Dir? then SeenMerging(h, m, p + [e], d.kids[e], s.kids[e])
             else SeenMoving(h, m, p + [e], At(d.kids, e), s.kids[e])
    ensures SeenMerging(h, t, p, d, s)
  {
    hide HasParent, Get, Put, Del, Mixed, Midway, MidEntry;
    var kids := Mixed(d.kids, s.kids, done);
    Entry(t, p, kids, e, s.kids[e]);
    var y := EntryOnItsWay(h, Put(t, p, Dir(kids)), p + [e], At(d.kids, e), s.kids[e]);
    MidwayEntry(d, s, done, e, y);
    if y.Some? {
      Entry(t, p, kids, e, y.value);
    }
  }

  /** What stands at an entry while it is merged or moved. */
  lemma EntryOnItsWay(h: Node, m: Node, p: Path, d: Option<Node>, s: Node) returns (y: Option<Node>)
    requires p != [] && HasParent(m, p)
    requires if s.Dir? && d.Some? && d.value.Dir? then SeenMerging(h, m, p, d.value, s) else SeenMoving(h, m, p, d, s)
    ensures MidEntry(y, d, s) && h == if y.Some? then Put(m, p, y.value) else Del(m, p)
  {
    hide Get, Put, Del, Thinned;
    if s.Dir? && d.Some? && d.value.Dir? {
      var x :| h == Put(m, p, x) && Midway(x, d.value, s);
      y := Some(x);
    } else if h == Put(m, p, s) {
      y := Some(s);
      assert MergeOver(d, s) == s;
    } else if h == Del(m, p) {
      y := None;
    } else {
      var x :| h == Put(m, p, x) && Thinned(x, d.value);
      y := Some(x);
    }
  }

  lemma {:induction false} PutDel(t: Node, p: Path, v: Node)
    requires p != [] && HasParent(t, p)
    ensures HasParent(Put(t, p, v), p) && Del(Put(t, p, v), p) == Del(t, p)
  {
    if |p| > 1 {
      PutDel(t.kids[p[0]], p[1..], v);
    } else {
      assert t.kids[p[0] := v] - {p[0]} == t.kids - {p[0]};
    }
  }

  lemma RemovingEntry(h: Node, t: Node, p: Path, d: Node, kids: map<string, Node>, e: string)
    requires p != [] && HasParent(t, p) && d.Dir? && e in kids
    requires kids.Keys <= d.kids.Keys && forall k :: k in kids ==> kids[k] == d.kids[k]
    requires SeenRemoving(h, Put(t, p, Dir(kids)), p + [e], kids[e])
    ensures SeenRemoving(h, t, p, d)
  {
    var m := Put(t, p, Dir(kids));
    Entry(t, p, kids, e, m);
    if h == Del(m, p + [e]) {
      assert Thinned(Dir(kids - {e}), d);
    } else {
      var y :| h == Put(m, p + [e], y) && Thinned(y, kids[e]);
      Entry(t, p, kids, e, y);
      forall k | k in kids[e := y]
        ensures Thinned(kids[e := y][k], d.kids[k])
      {
      }
      assert Thinned(Dir(kids[e := y]), d);
    }
  }
}
