/** Directory trees as values, addressed by paths. */
module Tree {
  import opened Strings

  type Path = seq<string>

  datatype Node = File(data: string) | Link(target: string) | Dir(kids: map<string, Node>)

  /** What stands at a path. */
  datatype View = Absent | IsFile(data: string) | IsLink(target: string) | IsDir

  function Get(n: Node, p: Path): Option<Node> {
    if p == [] then Some(n)
    else if n.Dir? && p[0] in n.kids then Get(n.kids[p[0]], p[1..])
    else None
  }

  function ViewOf(n: Node): View {
    match n
    case File(data) => IsFile(data)
    case Link(target) => IsLink(target)
    case Dir(_) => IsDir
  }

  function See(n: Node, p: Path): View {
    match Get(n, p)
    case None => Absent
    case Some(m) => ViewOf(m)
  }

  /** The directory that would hold `p` exists. */
  predicate HasParent(n: Node, p: Path) {
    p == [] || (n.Dir? && (|p| == 1 || (p[0] in n.kids && HasParent(n.kids[p[0]], p[1..]))))
  }

  /** `n` with `v` at `p`, whatever stood there. */
  function Put(n: Node, p: Path, v: Node): Node
    requires HasParent(n, p)
  {
    if p == [] then v
    else if |p| == 1 then Dir(n.kids[p[0] := v])
    else Dir(n.kids[p[0] := Put(n.kids[p[0]], p[1..], v)])
  }

  /** `n` without what stood at `p`. */
  function Del(n: Node, p: Path): Node
    requires p != [] && HasParent(n, p)
  {
    if |p| == 1 then Dir(n.kids - {p[0]})
    else Dir(n.kids[p[0] := Del(n.kids[p[0]], p[1..])])
  }

  lemma {:induction false} GetPut(n: Node, p: Path, v: Node)
    requires HasParent(n, p)
    ensures Get(Put(n, p, v), p) == Some(v)
    ensures HasParent(Put(n, p, v), p)
  {
    if |p| > 1 {
      GetPut(n.kids[p[0]], p[1..], v);
    } else if |p| == 1 {
      assert p[1..] == [];
    }
  }

  lemma {:induction false} PutSame(n: Node, p: Path)
    requires Get(n, p).Some?
    ensures HasParent(n, p) && Put(n, p, Get(n, p).value) == n
  {
    if p != [] {
      PutSame(n.kids[p[0]], p[1..]);
      if |p| == 1 {
        assert p[1..] == [];
      }
      assert n.kids[p[0] := n.kids[p[0]]] == n.kids;
    }
  }

  /** Reading and writing one entry of a directory that was put at `p`. */
  lemma Entry(n: Node, p: Path, kids: map<string, Node>, e: string, v: Node)
    requires HasParent(n, p)
    ensures var m := Put(n, p, Dir(kids));
            && HasParent(m, p + [e])
            && Get(m, p + [e]) == (if e in kids then Some(kids[e]) else None)
            && Put(m, p + [e], v) == Put(n, p, Dir(kids[e := v]))
            && Del(m, p + [e]) == Put(n, p, Dir(kids - {e}))
  {
    EntryGet(n, p, kids, e);
    hide HasParent, Get, Put, Del;
    EntryPut(n, p, kids, e, v);
    EntryDel(n, p, kids, e);
  }

  lemma PathStep(p: Path, e: string)
    ensures |p + [e]| > 0 && (p == [] ==> p + [e] == [e] && (p + [e])[1..] == [])
    ensures p != [] ==> (p + [e])[0] == p[0] && (p + [e])[1..] == p[1..] + [e]
  {
  }

  lemma {:induction false} EntryGet(n: Node, p: Path, kids: map<string, Node>, e: string)
    requires HasParent(n, p)
    ensures var m := Put(n, p, Dir(kids));
            HasParent(m, p + [e]) && Get(m, p + [e]) == if e in kids then Some(kids[e]) else None
    decreases |p|
  {
    PathStep(p, e);
    if |p| == 1 {
      assert p[1..] == [];
      EntryGet(Dir(kids), [], kids, e);
    } else if |p| > 1 {
      EntryGet(n.kids[p[0]], p[1..], kids, e);
    }
  }

  lemma {:induction false} EntryPut(n: Node, p: Path, kids: map<string, Node>, e: string, v: Node)
    requires HasParent(n, p) && HasParent(Put(n, p, Dir(kids)), p + [e])
    ensures Put(Put(n, p, Dir(kids)), p + [e], v) == Put(n, p, Dir(kids[e := v]))
    decreases |p|
  {
    PathStep(p, e);
    if |p| == 1 {
      assert p[1..] == [];
      assert n.kids[p[0] := Dir(kids)][p[0] := Dir(kids[e := v])] == n.kids[p[0] := Dir(kids[e := v])];
    } else if |p| > 1 {
      var below := n.kids[p[0]];
      EntryPut(below, p[1..], kids, e, v);
      assert n.kids[p[0] := Put(below, p[1..], Dir(kids))][p[0] := Put(below, p[1..], Dir(kids[e := v]))] ==
             n.kids[p[0] := Put(below, p[1..], Dir(kids[e := v]))];
    }
  }

  lemma {:induction false} EntryDel(n: Node, p: Path, kids: map<string, Node>, e: string)
    requires HasParent(n, p) && HasParent(Put(n, p, Dir(kids)), p + [e])
    ensures Del(Put(n, p, Dir(kids)), p + [e]) == Put(n, p, Dir(kids - {e}))
    decreases |p|
  {
    PathStep(p, e);
    if |p| == 1 {
      assert p[1..] == [];
      assert n.kids[p[0] := Dir(kids)][p[0] := Dir(kids - {e})] == n.kids[p[0] := Dir(kids - {e})];
    } else if |p| > 1 {
      var below := n.kids[p[0]];
      EntryDel(below, p[1..], kids, e);
      assert n.kids[p[0] := Put(below, p[1..], Dir(kids))][p[0] := Put(below, p[1..], Dir(kids - {e}))] ==
             n.kids[p[0] := Put(below, p[1..], Dir(kids - {e}))];
    }
  }

  // ---- What putting and deleting change, path by path ----

  lemma {:induction false} SeePut(n: Node, p: Path, v: Node, q: Path)
    requires HasParent(n, p)
    ensures See(Put(n, p, v), q) == if p <= q then See(v, q[|p|..]) else See(n, q)
    decreases |p|
  {
    if p == [] {
      assert q[0..] == q;
    } else if q == [] {
      assert !(p <= q);
    } else {
      PathTail(p, q);
      if |p| == 1 {
        assert p[1..] == [] && (p[0] == q[0] ==> q[|p|..] == q[1..]);
      } else if q[0] == p[0] {
        SeePut(n.kids[p[0]], p[1..], v, q[1..]);
      }
    }
  }

  lemma {:induction false} SeeDel(n: Node, p: Path, q: Path)
    requires p != [] && HasParent(n, p)
    ensures See(Del(n, p), q) == if p <= q then Absent else See(n, q)
    decreases |p|
  {
    if q == [] {
      assert !(p <= q);
    } else {
      PathTail(p, q);
      if |p| > 1 && q[0] == p[0] {
        SeeDel(n.kids[p[0]], p[1..], q[1..]);
      }
    }
  }

  lemma PathTail(p: Path, q: Path)
    requires p != [] && q != []
    ensures p <= q <==> p[0] == q[0] && p[1..] <= q[1..]
    ensures p <= q ==> q[|p|..] == q[1..][|p| - 1..]
  {
    if p[0] == q[0] && p[1..] <= q[1..] {
      assert forall i :: 1 <= i < |p| ==> p[i] == p[1..][i - 1] == q[1..][i - 1] == q[i];
    }
  }
}
