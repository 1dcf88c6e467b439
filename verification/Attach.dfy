/** Matching systemd units and running processes to runner directories. */
module Attach {
  import opened Sequences
  import opened Strings

  const LOAD_NOT_FOUND := "not-found"

  /** A systemd unit; `load` is empty when its state could not be shown. */
  datatype Unit = Unit(name: string, load: string, dir: string)

  datatype Kind = Listener | Worker

  datatype Process = Process(pid: int, dir: string, kind: Kind, started: int)

  /** How a runner is kept running; `Unavailable` when the units could not be listed. */
  datatype ManagedBy = Unknown | Systemd | Standalone | Unavailable

  datatype Runner = Runner(dir: string, unitName: string, svc: Option<Unit>, listener: Option<Process>,
                           workers: seq<Process>, managed: ManagedBy)

  datatype Warning =
    | DuplicateName(dir: string, name: string, firstDir: string)
    | UnitNotFound(name: string)
    | DuplicateUnit(name: string, dir: string, attached: string)

  // ---- The two indices ----

  /** The index by directory: the last runner of a directory. */
  predicate IsDirIndex(m: map<string, nat>, rs: seq<Runner>) {
    && (forall d :: d in m ==> m[d] < |rs| && rs[m[d]].dir == d && forall k :: m[d] < k < |rs| ==> rs[k].dir != d)
    && (forall i :: 0 <= i < |rs| ==> rs[i].dir in m)
  }

  method IndexByDir(rs: seq<Runner>) returns (byDir: map<string, nat>)
    ensures IsDirIndex(byDir, rs)
  {
    byDir := map[];
    for i := 0 to |rs|
      invariant IsDirIndex(byDir, rs[..i])
    {
      byDir := byDir[rs[i].dir := i];
    }
    assert rs[..|rs|] == rs;
  }

  /** The first runner that names the unit, or -1. */
  function FirstNamed(rs: seq<Runner>, u: string): (i: int)
    ensures -1 <= i < |rs|
  {
    if rs == [] then -1
    else
      var i := FirstNamed(rs[..|rs| - 1], u);
      if i >= 0 then i else if rs[|rs| - 1].unitName == u then |rs| - 1 else -1
  }

  /** How many runners name the unit. */
  function TimesNamed(rs: seq<Runner>, u: string): nat {
    if rs == [] then 0
    else TimesNamed(rs[..|rs| - 1], u) + if rs[|rs| - 1].unitName == u then 1 else 0
  }

  /** The index by unit name holds exactly the names that occur once, each with its runner. */
  ghost predicate IsUnitIndex(m: map<string, nat>, rs: seq<Runner>) {
    && (forall u :: u in m <==> u != "" && TimesNamed(rs, u) == 1)
    && (forall u :: u in m ==> m[u] == FirstNamed(rs, u))
  }

  /** Exactly one runner names the unit, and it is the `i`-th. */
  predicate NamedOnlyBy(rs: seq<Runner>, u: string, i: nat) {
    i < |rs| && rs[i].unitName == u && forall k :: 0 <= k < |rs| && k != i ==> rs[k].unitName != u
  }

  lemma {:induction false} NeverNamed(rs: seq<Runner>, u: string)
    ensures TimesNamed(rs, u) == 0 <==> forall k :: 0 <= k < |rs| ==> rs[k].unitName != u
    ensures TimesNamed(rs, u) == 0 <==> FirstNamed(rs, u) == -1
  {
    if rs != [] {
      var before := rs[..|rs| - 1];
      NeverNamed(before, u);
      assert forall k :: 0 <= k < |before| ==> rs[k] == before[k];
    }
  }

  /** Counted once means named by exactly one runner, the one found. */
  lemma {:induction false} NamedOnce(rs: seq<Runner>, u: string, i: nat)
    ensures NamedOnlyBy(rs, u, i) <==> TimesNamed(rs, u) == 1 && FirstNamed(rs, u) == i
  {
    if rs != [] {
      var before := rs[..|rs| - 1];
      NamedOnce(before, u, i);
      NeverNamed(before, u);
      assert forall k :: 0 <= k < |before| ==> rs[k] == before[k];
    }
  }

  /** One warning for every runner that names a unit an earlier runner names. */
  function NameWarnings(rs: seq<Runner>): seq<Warning> {
    if rs == [] then []
    else
      var before, r := rs[..|rs| - 1], rs[|rs| - 1];
      NameWarnings(before) +
      if r.unitName != "" && FirstNamed(before, r.unitName) >= 0
      then [DuplicateName(r.dir, r.unitName, before[FirstNamed(before, r.unitName)].dir)] else []
  }

  /** The names given so far, each with its first runner, and which of them occurred again. */
  ghost predicate IndexSoFar(byUnit: map<string, nat>, dup: set<string>, rs: seq<Runner>) {
    && (forall u :: u in byUnit <==> u != "" && TimesNamed(rs, u) >= 1)
    && (forall u :: u in byUnit ==> byUnit[u] == FirstNamed(rs, u))
    && (forall u :: u in dup <==> u != "" && TimesNamed(rs, u) >= 2)
  }

  lemma IndexNext(byUnit: map<string, nat>, dup: set<string>, rs: seq<Runner>, i: nat)
    requires i < |rs| && IndexSoFar(byUnit, dup, rs[..i])
    ensures var u, now := rs[i].unitName, rs[..i + 1];
            if u == "" then IndexSoFar(byUnit, dup, now)
            else if u in byUnit then IndexSoFar(byUnit, dup + {u}, now)
            else IndexSoFar(byUnit[u := i], dup, now)
    ensures var u := rs[i].unitName;
            NameWarnings(rs[..i + 1]) == NameWarnings(rs[..i]) +
              if u in byUnit then [DuplicateName(rs[i].dir, u, rs[byUnit[u]].dir)] else []
  {
    var now := rs[..i + 1];
    assert now[..i] == rs[..i] && now[i] == rs[i];
    forall u
      ensures TimesNamed(now, u) == TimesNamed(rs[..i], u) + if rs[i].unitName == u then 1 else 0
      ensures FirstNamed(now, u) ==
              if FirstNamed(rs[..i], u) >= 0 then FirstNamed(rs[..i], u)
              else if rs[i].unitName == u then i else -1
      ensures TimesNamed(rs[..i], u) == 0 <==> FirstNamed(rs[..i], u) == -1
    {
      NeverNamed(rs[..i], u);
    }
  }

  method IndexByUnitName(rs: seq<Runner>) returns (byUnit: map<string, nat>, warns: seq<Warning>)
    ensures IsUnitIndex(byUnit, rs)
    ensures warns == NameWarnings(rs)
  {
    hide FirstNamed, TimesNamed, NameWarnings;
    byUnit, warns := map[], [];
    var dup: set<string> := {};
    NothingIndexed();
    assert rs[..0] == [];
    for i := 0 to |rs|
      invariant IndexSoFar(byUnit, dup, rs[..i])
      invariant warns == NameWarnings(rs[..i])
    {
      var u := rs[i].unitName;
      IndexNext(byUnit, dup, rs, i);
      if u == "" {
        continue;
      }
      if u in byUnit {
        dup := dup + {u};
        warns := warns + [DuplicateName(rs[i].dir, u, rs[byUnit[u]].dir)];
        continue;
      }
      byUnit := byUnit[u := i];
    }
    assert rs[..|rs|] == rs;
    byUnit := byUnit - dup;
  }

  lemma NothingIndexed()
    ensures IndexSoFar(map[], {}, []) && NameWarnings([]) == []
  {
  }

  // ---- Processes ----

  /** The runner a process belongs to. */
  predicate Belongs(p: Process, kind: Kind, byDir: map<string, nat>, i: nat) {
    p.dir != "" && p.dir in byDir && byDir[p.dir] == i && p.kind == kind
  }

  function Matching(ps: seq<Process>, kind: Kind, byDir: map<string, nat>, i: nat): seq<Process> {
    if ps == [] then []
    else
      Matching(ps[..|ps| - 1], kind, byDir, i) +
      if Belongs(ps[|ps| - 1], kind, byDir, i) then [ps[|ps| - 1]] else []
  }

  function Later(l: Option<Process>, p: Process): Option<Process> {
    if l.Some? && p.started <= l.value.started then l else Some(p)
  }

  /** The listener after processes were seen in order. */
  function Latest(l: Option<Process>, ps: seq<Process>): Option<Process> {
    if ps == [] then l else Later(Latest(l, ps[..|ps| - 1]), ps[|ps| - 1])
  }

  /** The `i`-th process is the first of those started last. */
  predicate FirstOfLatest(ps: seq<Process>, i: nat) {
    && i < |ps|
    && (forall k :: 0 <= k < i ==> ps[k].started < ps[i].started)
    && (forall k :: i < k < |ps| ==> ps[k].started <= ps[i].started)
  }

  lemma {:induction false} LatestIsLatest(ps: seq<Process>) returns (i: nat)
    ensures ps == [] <==> Latest(None, ps).None?
    ensures ps != [] ==> FirstOfLatest(ps, i) && Latest(None, ps) == Some(ps[i])
  {
    i := 0;
    if ps != [] {
      var before, p := ps[..|ps| - 1], ps[|ps| - 1];
      i := LatestIsLatest(before);
      assert forall k :: 0 <= k < |before| ==> ps[k] == before[k];
      if before == [] || p.started > before[i].started {
        i := |ps| - 1;
      }
    }
  }

  /** What the processes seen so far make of a runner. */
  function WithProcesses(r: Runner, ps: seq<Process>, byDir: map<string, nat>, i: nat): Runner {
    r.(listener := Latest(r.listener, Matching(ps, Listener, byDir, i)),
      workers := r.workers + Matching(ps, Worker, byDir, i))
  }

  method AttachProcesses(rs: array<Runner>, byDir: map<string, nat>, running: seq<Process>)
    requires IsDirIndex(byDir, rs[..])
    modifies rs
    ensures forall i :: 0 <= i < rs.Length ==> rs[i] == WithProcesses(old(rs[i]), running, byDir, i)
  {
    DirIndexInRange(byDir, rs[..]);
    hide IsDirIndex, WithProcesses, Latest, Matching;
    NoProcesses(byDir);
    for k := 0 to |running|
      invariant forall i :: 0 <= i < rs.Length ==> rs[i] == WithProcesses(old(rs[i]), running[..k], byDir, i)
    {
      ProcessNext(running, k, byDir);
      AttachOne(rs, byDir, running[k]);
    }
    assert running[..|running|] == running;
  }

  lemma DirIndexInRange(m: map<string, nat>, rs: seq<Runner>)
    requires IsDirIndex(m, rs)
    ensures forall d :: d in m ==> m[d] < |rs|
  {
  }

  lemma NoProcesses(byDir: map<string, nat>)
    ensures forall r: Runner, i: nat :: WithProcesses(r, [], byDir, i) == r
  {
    forall r: Runner, i: nat
      ensures WithProcesses(r, [], byDir, i) == r
    {
      assert r.workers + [] == r.workers;
    }
  }

  /** What one process makes of the runner it belongs to. */
  function WithOne(r: Runner, p: Process, byDir: map<string, nat>, i: nat): Runner {
    if Belongs(p, Listener, byDir, i) then r.(listener := Later(r.listener, p))
    else if Belongs(p, Worker, byDir, i) then r.(workers := r.workers + [p])
    else r
  }

  method AttachOne(rs: array<Runner>, byDir: map<string, nat>, p: Process)
    requires forall d :: d in byDir ==> byDir[d] < rs.Length
    modifies rs
    ensures forall i :: 0 <= i < rs.Length ==> rs[i] == WithOne(old(rs[i]), p, byDir, i)
  {
    if p.dir == "" || p.dir !in byDir {
      return;
    }
    var i := byDir[p.dir];
    match p.kind {
      case Listener =>
        AttachListener(rs, i, p);
      case Worker =>
        rs[i] := rs[i].(workers := rs[i].workers + [p]);
    }
  }

  method AttachListener(rs: array<Runner>, i: nat, p: Process)
    requires i < rs.Length
    modifies rs
    ensures forall k :: 0 <= k < rs.Length ==>
              rs[k] == if k == i then old(rs[k]).(listener := Later(old(rs[k]).listener, p)) else old(rs[k])
  {
    if rs[i].listener.Some? && !(p.started > rs[i].listener.value.started) {
      return;
    }
    rs[i] := rs[i].(listener := Some(p));
  }

  lemma ProcessNext(ps: seq<Process>, k: nat, byDir: map<string, nat>)
    requires k < |ps|
    ensures forall r: Runner, i: nat ::
              WithProcesses(r, ps[..k + 1], byDir, i) == WithOne(WithProcesses(r, ps[..k], byDir, i), ps[k], byDir, i)
  {
    assert ps[..k + 1][..k] == ps[..k];
    forall r: Runner, i: nat
      ensures WithProcesses(r, ps[..k + 1], byDir, i) == WithOne(WithProcesses(r, ps[..k], byDir, i), ps[k], byDir, i)
    {
      var ls, ws := Matching(ps[..k], Listener, byDir, i), Matching(ps[..k], Worker, byDir, i);
      assert (ls + [ps[k]])[..|ls|] == ls;
      Assoc(r.workers, ws, [ps[k]]);
      assert ws + [] == ws && ls + [] == ls;
    }
  }

  // ---- Units ----

  /** A unit that the first pass attaches by its name. */
  predicate IsNamed(u: Unit, byUnit: map<string, nat>) {
    u.load != LOAD_NOT_FOUND && u.name in byUnit
  }

  /** A unit left for the second pass whose state is known. */
  predicate IsLeft(u: Unit, byUnit: map<string, nat>) {
    u.load != LOAD_NOT_FOUND && u.load != "" && u.name !in byUnit
  }

  predicate HasRunner(u: Unit, byDir: map<string, nat>) {
    u.dir != "" && u.dir in byDir
  }

  /** The unit the first pass leaves attached to the `i`-th runner. */
  function ByName(units: seq<Unit>, byUnit: map<string, nat>, i: nat): Option<Unit> {
    if units == [] then None
    else
      var u := units[|units| - 1];
      if IsNamed(u, byUnit) && byUnit[u.name] == i then Some(u) else ByName(units[..|units| - 1], byUnit, i)
  }

  /** The first unit of the second pass for the `i`-th runner. */
  function ByDir(units: seq<Unit>, byUnit: map<string, nat>, byDir: map<string, nat>, i: nat): Option<Unit> {
    if units == [] then None
    else
      var before, u := ByDir(units[..|units| - 1], byUnit, byDir, i), units[|units| - 1];
      if before.Some? then before
      else if IsLeft(u, byUnit) && HasRunner(u, byDir) && byDir[u.dir] == i then Some(u)
      else None
  }

  /** The unit a runner ends up with: by name first, then what it had, then by directory. */
  function Chosen(svc: Option<Unit>, named: Option<Unit>, byDir: Option<Unit>): Option<Unit> {
    if named.Some? then named else if svc.Some? then svc else byDir
  }

  function Orphans(units: seq<Unit>, byUnit: map<string, nat>, byDir: map<string, nat>): seq<Unit> {
    if units == [] then []
    else
      var u := units[|units| - 1];
      Orphans(units[..|units| - 1], byUnit, byDir) + if IsLeft(u, byUnit) && !HasRunner(u, byDir) then [u] else []
  }

  function NotFound(units: seq<Unit>): seq<Warning> {
    if units == [] then []
    else
      var u := units[|units| - 1];
      NotFound(units[..|units| - 1]) + if u.load == LOAD_NOT_FOUND then [UnitNotFound(u.name)] else []
  }

  /** A unit whose state could not be shown and that no runner names. */
  predicate IsUnknown(u: Unit, byUnit: map<string, nat>) {
    u.load == "" && u.name !in byUnit
  }

  /** The first wins over the second. */
  function Named(second: Option<Unit>, first: Option<Unit>): Option<Unit> {
    if first.Some? then first else second
  }

  /** The units attached after the first pass. */
  function FirstPass(rs: seq<Runner>, units: seq<Unit>, byUnit: map<string, nat>): (svcs: seq<Option<Unit>>)
    ensures |svcs| == |rs|
    ensures forall i :: 0 <= i < |rs| ==> svcs[i] == Named(rs[i].svc, ByName(units, byUnit, i))
  {
    seq(|rs|, i requires 0 <= i < |rs| => Named(rs[i].svc, ByName(units, byUnit, i)))
  }

  function Svcs(rs: seq<Runner>): (svcs: seq<Option<Unit>>)
    ensures |svcs| == |rs| && forall i :: 0 <= i < |rs| ==> svcs[i] == rs[i].svc
  {
    seq(|rs|, i requires 0 <= i < |rs| => rs[i].svc)
  }

  /** The unit that already sits at the runner of `u` when the second pass comes to `u`. */
  function Sitting(u: Unit, before: seq<Unit>, svcs: seq<Option<Unit>>,
                   byUnit: map<string, nat>, byDir: map<string, nat>): Option<Unit> {
    if IsLeft(u, byUnit) && HasRunner(u, byDir) && byDir[u.dir] < |svcs|
    then Named(ByDir(before, byUnit, byDir, byDir[u.dir]), svcs[byDir[u.dir]])
    else None
  }

  /** One warning for every unit of the second pass that finds its runner taken; `svcs` is what the first pass left. */
  function Ignored(units: seq<Unit>, svcs: seq<Option<Unit>>,
                   byUnit: map<string, nat>, byDir: map<string, nat>): seq<Warning> {
    if units == [] then []
    else
      var before, u := units[..|units| - 1], units[|units| - 1];
      var s := Sitting(u, before, svcs, byUnit, byDir);
      Ignored(before, svcs, byUnit, byDir) + if s.Some? then [DuplicateUnit(u.name, u.dir, s.value.name)] else []
  }

  /** What one more unit adds to the first pass. */
  lemma NextByName(units: seq<Unit>, k: nat, byUnit: map<string, nat>)
    requires k < |units|
    ensures forall i: nat :: ByName(units[..k + 1], byUnit, i) ==
                             if IsNamed(units[k], byUnit) && byUnit[units[k].name] == i then Some(units[k])
                             else ByName(units[..k], byUnit, i)
    ensures NotFound(units[..k + 1]) ==
            NotFound(units[..k]) + if units[k].load == LOAD_NOT_FOUND then [UnitNotFound(units[k].name)] else []
  {
    var before, upTo := units[..k], units[..k + 1];
    assert upTo[..k] == before && upTo[k] == units[k] && |upTo| - 1 == k;
    forall i: nat
      ensures ByName(upTo, byUnit, i) ==
              if IsNamed(units[k], byUnit) && byUnit[units[k].name] == i then Some(units[k])
              else ByName(before, byUnit, i)
    {
    }
  }

  /** What one more unit adds to the second pass. */
  lemma NextByDir(units: seq<Unit>, k: nat, byUnit: map<string, nat>, byDir: map<string, nat>, svcs: seq<Option<Unit>>)
    requires k < |units|
    ensures var before, u := units[..k], units[k];
            var s := Sitting(u, before, svcs, byUnit, byDir);
            && (forall i: nat :: ByDir(units[..k + 1], byUnit, byDir, i) ==
                                 if ByDir(before, byUnit, byDir, i).Some? then ByDir(before, byUnit, byDir, i)
                                 else if IsLeft(u, byUnit) && HasRunner(u, byDir) && byDir[u.dir] == i then Some(u)
                                 else None)
            && Orphans(units[..k + 1], byUnit, byDir) ==
               Orphans(before, byUnit, byDir) + (if IsLeft(u, byUnit) && !HasRunner(u, byDir) then [u] else [])
            && Ignored(units[..k + 1], svcs, byUnit, byDir) ==
               Ignored(before, svcs, byUnit, byDir) +
               if s.Some? then [DuplicateUnit(u.name, u.dir, s.value.name)] else []
  {
    assert units[..k + 1][..k] == units[..k];
  }

  /** First pass: units of which nothing exists are reported, others go to the runner that names them. */
  method AttachByName(rs: array<Runner>, byUnit: map<string, nat>, units: seq<Unit>)
    returns (handled: array<bool>, warns: seq<Warning>)
    requires forall u :: u in byUnit ==> byUnit[u] < rs.Length
    modifies rs
    ensures fresh(handled) && handled.Length == |units|
    ensures forall j :: 0 <= j < |units| ==> handled[j] == (units[j].load == LOAD_NOT_FOUND || units[j].name in byUnit)
    ensures forall i :: 0 <= i < rs.Length ==>
              rs[i] == old(rs[i]).(svc := Named(old(rs[i]).svc, ByName(units, byUnit, i)))
    ensures warns == NotFound(units)
  {
    warns := [];
    handled := new bool[|units|](_ => false);
    for k := 0 to |units|
      invariant fresh(handled) && handled.Length == |units|
      invariant forall j :: 0 <= j < k ==> handled[j] == (units[j].load == LOAD_NOT_FOUND || units[j].name in byUnit)
      invariant forall j :: k <= j < |units| ==> !handled[j]
      invariant forall i :: 0 <= i < rs.Length ==>
                  rs[i] == old(rs[i]).(svc := Named(old(rs[i]).svc, ByName(units[..k], byUnit, i)))
      invariant warns == NotFound(units[..k])
    {
      var u := units[k];
      NextByName(units, k, byUnit);
      hide ByName, NotFound;
      if u.load == LOAD_NOT_FOUND {
        handled[k] := true;
        warns := warns + [UnitNotFound(u.name)];
        continue;
      }
      if u.name in byUnit {
        var r := byUnit[u.name];
        rs[r] := rs[r].(svc := Some(u));
        handled[k] := true;
      }
    }
    assert units[..|units|] == units;
  }

  /** One unit of the second pass; `taken` is the unit that keeps it from its runner. */
  method AttachLeft(rs: array<Runner>, u: Unit, byDir: map<string, nat>) returns (orphan: bool, taken: Option<Unit>)
    requires forall d :: d in byDir ==> byDir[d] < rs.Length
    modifies rs
    ensures orphan == !HasRunner(u, byDir)
    ensures taken == if orphan then None else old(rs[byDir[u.dir]]).svc
    ensures forall i :: 0 <= i < rs.Length ==>
              rs[i] ==
              if !orphan && byDir[u.dir] == i && old(rs[i]).svc.None? then old(rs[i]).(svc := Some(u))
              else old(rs[i])
  {
    if u.dir == "" || u.dir !in byDir {
      return true, None;
    }
    var r := byDir[u.dir];
    orphan, taken := false, rs[r].svc;
    if taken.Some? {
      return;
    }
    rs[r] := rs[r].(svc := Some(u));
  }

  /** Second pass: the units left go to the runner of their working directory, unless it is taken. */
  method AttachByDir(rs: array<Runner>, handled: array<bool>, ghost byUnit: map<string, nat>, byDir: map<string, nat>,
                     units: seq<Unit>)
    returns (orphans: seq<Unit>, warns: seq<Warning>)
    requires forall d :: d in byDir ==> byDir[d] < rs.Length
    requires handled.Length == |units|
    requires forall j :: 0 <= j < |units| ==> handled[j] == (units[j].load == LOAD_NOT_FOUND || units[j].name in byUnit)
    modifies rs
    ensures forall i :: 0 <= i < rs.Length ==>
              rs[i] == old(rs[i]).(svc := Named(ByDir(units, byUnit, byDir, i), old(rs[i]).svc))
    ensures orphans == Orphans(units, byUnit, byDir)
    ensures warns == Ignored(units, Svcs(old(rs[..])), byUnit, byDir)
  {
    ghost var svcs := Svcs(rs[..]);
    orphans, warns := [], [];
    for k := 0 to |units|
      invariant forall j :: 0 <= j < |units| ==>
                handled[j] == (units[j].load == LOAD_NOT_FOUND || units[j].name in byUnit)
      invariant forall i :: 0 <= i < rs.Length ==>
                  rs[i] == old(rs[i]).(svc := Named(ByDir(units[..k], byUnit, byDir, i), old(rs[i]).svc))
      invariant orphans == Orphans(units[..k], byUnit, byDir)
      invariant warns == Ignored(units[..k], svcs, byUnit, byDir)
    {
      var u := units[k];
      NextByDir(units, k, byUnit, byDir, svcs);
      hide ByDir, Orphans, Ignored;
      if handled[k] {
        continue;
      }
      if u.load == "" {
        continue;
      }
      var orphan, taken := AttachLeft(rs, u, byDir);
      assert taken == Sitting(u, units[..k], svcs, byUnit, byDir);
      if orphan {
        orphans := orphans + [u];
      } else if taken.Some? {
        warns := warns + [DuplicateUnit(u.name, u.dir, taken.value.name)];
      }
    }
    assert units[..|units|] == units;
  }

  method AttachUnits(rs: array<Runner>, byUnit: map<string, nat>, byDir: map<string, nat>, units: seq<Unit>)
    returns (orphans: seq<Unit>, warns: seq<Warning>)
    requires forall u :: u in byUnit ==> byUnit[u] < rs.Length
    requires forall d :: d in byDir ==> byDir[d] < rs.Length
    modifies rs
    ensures forall i :: 0 <= i < rs.Length ==>
              rs[i] ==
              old(rs[i]).(svc := Chosen(old(rs[i]).svc, ByName(units, byUnit, i), ByDir(units, byUnit, byDir, i)))
    ensures orphans == Orphans(units, byUnit, byDir)
    ensures warns == NotFound(units) + Ignored(units, FirstPass(old(rs[..]), units, byUnit), byUnit, byDir)
  {
    var handled: array<bool>;
    handled, warns := AttachByName(rs, byUnit, units);
    assert Svcs(rs[..]) == FirstPass(old(rs[..]), units, byUnit);
    var more: seq<Warning>;
    orphans, more := AttachByDir(rs, handled, byUnit, byDir, units);
    warns := warns + more;
  }

  // ---- All together ----

  predicate SortedByPid(ps: seq<Process>) {
    forall i, j :: 0 <= i < j < |ps| ==> ps[i].pid <= ps[j].pid
  }

  function Insert(p: Process, ps: seq<Process>): seq<Process> {
    if ps == [] || p.pid <= ps[0].pid then [p] + ps else [ps[0]] + Insert(p, ps[1..])
  }

  lemma {:induction false} InsertedPermutes(p: Process, ps: seq<Process>)
    ensures multiset(Insert(p, ps)) == multiset(ps) + multiset{p}
  {
    if ps != [] && p.pid > ps[0].pid {
      InsertedPermutes(p, ps[1..]);
      assert ps == [ps[0]] + ps[1..];
    }
  }

  lemma {:induction false} InsertedSorted(p: Process, ps: seq<Process>)
    requires SortedByPid(ps)
    ensures SortedByPid(Insert(p, ps))
    ensures forall q :: q in Insert(p, ps) ==> q == p || q in ps
  {
    if ps != [] && p.pid > ps[0].pid {
      var rest := Insert(p, ps[1..]);
      InsertedSorted(p, ps[1..]);
      forall i | 0 <= i < |rest|
        ensures ps[0].pid <= rest[i].pid
      {
        assert rest[i] in rest;
      }
    }
  }

  /** sort.Slice by PID, as one of the orders it may give. */
  function SortByPid(ps: seq<Process>): (r: seq<Process>)
    ensures SortedByPid(r) && multiset(r) == multiset(ps)
  {
    if ps == [] then []
    else
      assert ps == ps[..|ps| - 1] + [ps[|ps| - 1]];
      InsertedPermutes(ps[|ps| - 1], SortByPid(ps[..|ps| - 1]));
      InsertedSorted(ps[|ps| - 1], SortByPid(ps[..|ps| - 1]));
      Insert(ps[|ps| - 1], SortByPid(ps[..|ps| - 1]))
  }

  /** How a runner is kept running, from what was attached to it. */
  function ManagedOf(r: Runner, unitsListed: bool): ManagedBy {
    if r.svc.Some? then Systemd
    else if !unitsListed then Unavailable
    else if r.listener.Some? then Standalone
    else Unknown
  }

  /** What attaching makes of the `i`-th runner. */
  predicate Attached(after: Runner, before: Runner, i: nat, running: seq<Process>, units: seq<Unit>, unitsListed: bool,
                     byUnit: map<string, nat>, byDir: map<string, nat>) {
    && after.dir == before.dir && after.unitName == before.unitName
    && after.svc == Chosen(before.svc, ByName(units, byUnit, i), ByDir(units, byUnit, byDir, i))
    && after.listener == Latest(before.listener, Matching(running, Listener, byDir, i))
    && multiset(after.workers) == multiset(before.workers + Matching(running, Worker, byDir, i))
    && SortedByPid(after.workers)
    && after.managed == ManagedOf(after, unitsListed)
  }

  method AttachAll(rs: array<Runner>, running: seq<Process>, units: seq<Unit>, unitsListed: bool)
    returns (orphans: seq<Unit>, warns: seq<Warning>, ghost byUnit: map<string, nat>, ghost byDir: map<string, nat>)
    modifies rs
    ensures IsUnitIndex(byUnit, old(rs[..])) && IsDirIndex(byDir, old(rs[..]))
    ensures forall i :: 0 <= i < rs.Length ==>
            Attached(rs[i], old(rs[i]), i, running, units, unitsListed, byUnit, byDir)
    ensures orphans == Orphans(units, byUnit, byDir)
    ensures warns == NameWarnings(old(rs[..])) + NotFound(units)
                     + Ignored(units, FirstPass(old(rs[..]), units, byUnit), byUnit, byDir)
  {
    hide IsUnitIndex, IsDirIndex, ByName, ByDir, Orphans, NotFound, Ignored, NameWarnings, Latest, Matching,
      SortByPid, ManagedOf, FirstPass, SortedByPid;
    ghost var given := rs[..];
    var unitIndex, nameWarns := IndexByUnitName(rs[..]);
    var dirIndex := IndexByDir(rs[..]);
    byUnit, byDir := unitIndex, dirIndex;
    UnitIndexInRange(byUnit, given);
    DirIndexInRange(byDir, given);
    AttachProcesses(rs, dirIndex, running);
    SameFirstPass(rs[..], given, units, byUnit);
    var unitWarns: seq<Warning>;
    orphans, unitWarns := AttachUnits(rs, unitIndex, dirIndex, units);
    warns := nameWarns + unitWarns;
    Finish(rs, unitsListed);
    Assoc(nameWarns, NotFound(units), Ignored(units, FirstPass(given, units, byUnit), byUnit, byDir));
  }

  lemma SameFirstPass(a: seq<Runner>, b: seq<Runner>, units: seq<Unit>, byUnit: map<string, nat>)
    requires |a| == |b| && forall i :: 0 <= i < |a| ==> a[i].svc == b[i].svc
    ensures FirstPass(a, units, byUnit) == FirstPass(b, units, byUnit)
  {
    hide ByName;
  }

  /** The workers in the order of their process numbers, and how each runner is kept running. */
  method Finish(rs: array<Runner>, unitsListed: bool)
    modifies rs
    ensures forall i :: 0 <= i < rs.Length ==> Finished(rs[i], old(rs[i]), unitsListed)
  {
    hide Finished;
    for i := 0 to rs.Length
      invariant forall k :: 0 <= k < i ==> Finished(rs[k], old(rs[k]), unitsListed)
      invariant forall k :: i <= k < rs.Length ==> rs[k] == old(rs[k])
    {
      ghost var before := rs[i];
      rs[i] := rs[i].(workers := SortByPid(rs[i].workers));
      rs[i] := rs[i].(managed := ManagedOf(rs[i], unitsListed));
      IsFinished(rs[i], before, unitsListed);
    }
  }

  predicate Finished(after: Runner, before: Runner, unitsListed: bool) {
    && after.(workers := before.workers, managed := before.managed) == before
    && SortedByPid(after.workers) && multiset(after.workers) == multiset(before.workers)
    && after.managed == ManagedOf(after, unitsListed)
  }

  lemma IsFinished(after: Runner, before: Runner, unitsListed: bool)
    requires var sorted := before.(workers := SortByPid(before.workers));
             after == sorted.(managed := ManagedOf(sorted, unitsListed))
    ensures Finished(after, before, unitsListed)
  {
  }

  lemma UnitIndexInRange(m: map<string, nat>, rs: seq<Runner>)
    requires IsUnitIndex(m, rs)
    ensures forall u :: u in m ==> m[u] < |rs|
  {
  }

  // ---- What becomes of a unit ----

  predicate DistinctNames(units: seq<Unit>) {
    forall i, j :: 0 <= i < j < |units| ==> units[i].name != units[j].name
  }

  lemma {:induction false} OrphansAre(units: seq<Unit>, byUnit: map<string, nat>, byDir: map<string, nat>, u: Unit)
    ensures u in Orphans(units, byUnit, byDir) <==> u in units && IsLeft(u, byUnit) && !HasRunner(u, byDir)
  {
    if units != [] {
      OrphansAre(units[..|units| - 1], byUnit, byDir, u);
      assert units == units[..|units| - 1] + [units[|units| - 1]];
    }
  }

  lemma {:induction false} NotFoundAre(units: seq<Unit>, u: Unit)
    requires u in units && DistinctNames(units)
    ensures UnitNotFound(u.name) in NotFound(units) <==> u.load == LOAD_NOT_FOUND
  {
    var before, v := units[..|units| - 1], units[|units| - 1];
    assert units == before + [v];
    if u != v {
      NotFoundAre(before, u);
    } else {
      NotReported(before, u.name);
    }
  }

  lemma {:induction false} NotReported(units: seq<Unit>, name: string)
    requires forall i :: 0 <= i < |units| ==> units[i].name != name
    ensures UnitNotFound(name) !in NotFound(units)
  {
    if units != [] { NotReported(units[..|units| - 1], name); }
  }

  /** A runner that alone names a unit gets it when it exists, whatever the working directories say. */
  lemma {:induction false} UniqueNameWins(units: seq<Unit>, rs: seq<Runner>, byUnit: map<string, nat>, i: nat, j: nat)
    requires DistinctNames(units) && IsUnitIndex(byUnit, rs)
    requires j < |units| && IsNamed(units[j], byUnit) && byUnit[units[j].name] == i
    ensures forall svc, byDir :: Chosen(svc, ByName(units, byUnit, i), byDir) == Some(units[j])
  {
    var before, v := units[..|units| - 1], units[|units| - 1];
    if j < |units| - 1 {
      UniqueNameWins(before, rs, byUnit, i, j);
      if IsNamed(v, byUnit) && byUnit[v.name] == i {
        NameOfIndex(byUnit, rs, v.name);
        NameOfIndex(byUnit, rs, units[j].name);
        assert false;
      }
    }
  }

  lemma NameOfIndex(byUnit: map<string, nat>, rs: seq<Runner>, u: string)
    requires IsUnitIndex(byUnit, rs) && u in byUnit
    ensures byUnit[u] < |rs| && rs[byUnit[u]].unitName == u
  {
    NamedOnce(rs, u, byUnit[u]);
  }

  /** Only named units are attached by name. */
  lemma {:induction false} ByNameIsNamed(units: seq<Unit>, byUnit: map<string, nat>, i: nat)
    ensures var c := ByName(units, byUnit, i);
            c.Some? ==> c.value in units && IsNamed(c.value, byUnit) && byUnit[c.value.name] == i
  {
    if units != [] {
      ByNameIsNamed(units[..|units| - 1], byUnit, i);
      assert units == units[..|units| - 1] + [units[|units| - 1]];
    }
  }

  predicate IsCandidate(u: Unit, byUnit: map<string, nat>, byDir: map<string, nat>, i: nat) {
    IsLeft(u, byUnit) && HasRunner(u, byDir) && byDir[u.dir] == i
  }

  /** Attached by directory is the first candidate. */
  lemma {:induction false} ByDirIsFirst(units: seq<Unit>, byUnit: map<string, nat>, byDir: map<string, nat>, i: nat,
                                        j: nat)
    requires j < |units| && DistinctNames(units) && IsCandidate(units[j], byUnit, byDir, i)
    ensures ByDir(units, byUnit, byDir, i).Some?
    ensures ByDir(units, byUnit, byDir, i) == Some(units[j]) <==> ByDir(units[..j], byUnit, byDir, i).None?
  {
    var n := |units| - 1;
    if j < n {
      ByDirIsFirst(units[..n], byUnit, byDir, i, j);
      assert units[..n][..j] == units[..j];
    } else {
      ByDirIsCandidate(units[..j], byUnit, byDir, i);
    }
  }

  lemma {:induction false} ByDirIsCandidate(units: seq<Unit>, byUnit: map<string, nat>, byDir: map<string, nat>, i: nat)
    ensures var c := ByDir(units, byUnit, byDir, i);
            c.Some? ==> c.value in units && IsCandidate(c.value, byUnit, byDir, i)
  {
    if units != [] {
      ByDirIsCandidate(units[..|units| - 1], byUnit, byDir, i);
      assert units == units[..|units| - 1] + [units[|units| - 1]];
    }
  }

  /** The warning about a unit that finds its runner taken. */
  ghost predicate ReportedDuplicate(u: Unit, warns: seq<Warning>) {
    exists s :: DuplicateUnit(u.name, u.dir, s) in warns
  }

  lemma {:induction false} IgnoredAre(units: seq<Unit>, svcs: seq<Option<Unit>>, byUnit: map<string, nat>,
                                      byDir: map<string, nat>, j: nat, t: string)
    requires j < |units| && DistinctNames(units)
    ensures DuplicateUnit(units[j].name, units[j].dir, t) in Ignored(units, svcs, byUnit, byDir) <==>
            var s := Sitting(units[j], units[..j], svcs, byUnit, byDir); s.Some? && s.value.name == t
  {
    hide Sitting;
    var n := |units| - 1;
    if j < n {
      IgnoredAre(units[..n], svcs, byUnit, byDir, j, t);
      assert units[..n][..j] == units[..j];
    } else {
      NotIgnored(units[..n], svcs, byUnit, byDir, units[n]);
    }
  }

  lemma {:induction false} NotIgnored(units: seq<Unit>, svcs: seq<Option<Unit>>, byUnit: map<string, nat>,
                                      byDir: map<string, nat>, u: Unit)
    requires forall i :: 0 <= i < |units| ==> units[i].name != u.name
    ensures !ReportedDuplicate(u, Ignored(units, svcs, byUnit, byDir))
  {
    hide Sitting;
    if units != [] {
      NotIgnored(units[..|units| - 1], svcs, byUnit, byDir, u);
    }
  }

  /** The unit a runner without one ends up with. */
  function Final(units: seq<Unit>, byUnit: map<string, nat>, byDir: map<string, nat>, i: nat): Option<Unit> {
    Chosen(None, ByName(units, byUnit, i), ByDir(units, byUnit, byDir, i))
  }

  ghost predicate IsAttached(u: Unit, rs: seq<Runner>, units: seq<Unit>,
                             byUnit: map<string, nat>, byDir: map<string, nat>) {
    exists i :: 0 <= i < |rs| && Final(units, byUnit, byDir, i) == Some(u)
  }

  function One(b: bool): nat {
    if b then 1 else 0
  }

  /**
   Every unit lands in exactly one place: attached, orphaned, reported as missing, reported as a
   duplicate, or passed over because its state could not be shown.
   */
  lemma EveryUnitOnce(rs: seq<Runner>, units: seq<Unit>, byUnit: map<string, nat>, byDir: map<string, nat>, j: nat)
    requires IsUnitIndex(byUnit, rs) && IsDirIndex(byDir, rs) && DistinctNames(units) && j < |units|
    requires forall i :: 0 <= i < |rs| ==> rs[i].svc == None
    ensures var u := units[j];
            One(IsAttached(u, rs, units, byUnit, byDir))
            + One(u in Orphans(units, byUnit, byDir))
            + One(UnitNotFound(u.name) in NotFound(units))
            + One(ReportedDuplicate(u, Ignored(units, FirstPass(rs, units, byUnit), byUnit, byDir)))
            + One(IsUnknown(u, byUnit)) == 1
  {
    hide Orphans, NotFound, Ignored, ByName, ByDir, IsUnitIndex, IsDirIndex, DistinctNames;
    var u := units[j];
    var svcs := FirstPass(rs, units, byUnit);
    OrphansAre(units, byUnit, byDir, u);
    NotFoundAre(units, u);
    forall t
      ensures DuplicateUnit(u.name, u.dir, t) in Ignored(units, svcs, byUnit, byDir) <==>
              var s := Sitting(u, units[..j], svcs, byUnit, byDir); s.Some? && s.value.name == t
    {
      IgnoredAre(units, svcs, byUnit, byDir, j, t);
    }
    var sitting := Sitting(u, units[..j], svcs, byUnit, byDir);
    assert sitting.Some? ==>
      DuplicateUnit(u.name, u.dir, sitting.value.name) in Ignored(units, svcs, byUnit, byDir);
    AttachedIff(rs, units, byUnit, byDir, j);
  }

  /** A unit is attached just when it is named, or left for a runner that nobody sits at yet. */
  lemma AttachedIff(rs: seq<Runner>, units: seq<Unit>, byUnit: map<string, nat>, byDir: map<string, nat>, j: nat)
    requires IsUnitIndex(byUnit, rs) && IsDirIndex(byDir, rs) && DistinctNames(units) && j < |units|
    requires forall i :: 0 <= i < |rs| ==> rs[i].svc == None
    ensures var u := units[j];
            IsAttached(u, rs, units, byUnit, byDir) <==>
            IsNamed(u, byUnit) ||
            (IsLeft(u, byUnit) && HasRunner(u, byDir) &&
             Sitting(u, units[..j], FirstPass(rs, units, byUnit), byUnit, byDir).None?)
    ensures var u := units[j];
            IsLeft(u, byUnit) && HasRunner(u, byDir) ==> byDir[u.dir] < |rs|
  {
    hide ByName, ByDir;
    var u := units[j];
    if IsNamed(u, byUnit) {
      var i := byUnit[u.name];
      NameOfIndex(byUnit, rs, u.name);
      UniqueNameWins(units, rs, byUnit, i, j);
      assert Final(units, byUnit, byDir, i) == Some(u);
    } else {
      forall i | 0 <= i < |rs|
        ensures Final(units, byUnit, byDir, i) == Some(u) <==>
                IsCandidate(u, byUnit, byDir, i) && ByName(units, byUnit, i).None? &&
                ByDir(units[..j], byUnit, byDir, i).None?
      {
        ByNameIsNamed(units, byUnit, i);
        ByDirIsCandidate(units, byUnit, byDir, i);
        if IsCandidate(u, byUnit, byDir, i) {
          ByDirIsFirst(units, byUnit, byDir, i, j);
        }
      }
    }
  }

  // ---- What becomes of a process ----

  /** With distinct directories a process belongs to the runner of its directory. */
  lemma BelongsToDir(rs: seq<Runner>, byDir: map<string, nat>, p: Process, kind: Kind, i: nat)
    requires IsDirIndex(byDir, rs) && i < |rs|
    requires forall k, l :: 0 <= k < l < |rs| ==> rs[k].dir != rs[l].dir
    ensures Belongs(p, kind, byDir, i) <==> p.dir != "" && p.dir == rs[i].dir && p.kind == kind
  {
  }

  /**
   Of the processes seen, exactly those that belong to the runner are taken, in their order and as often as
   they are there.
   */
  lemma {:induction false} MatchingAre(ps: seq<Process>, kind: Kind, byDir: map<string, nat>, i: nat, p: Process)
    ensures multiset(Matching(ps, kind, byDir, i))[p] == if Belongs(p, kind, byDir, i) then multiset(ps)[p] else 0
  {
    if ps != [] {
      var before, q := ps[..|ps| - 1], ps[|ps| - 1];
      MatchingAre(before, kind, byDir, i, p);
      assert multiset(ps) == multiset(before) + multiset{q} by { assert ps == before + [q]; }
      hide Belongs;
    }
  }

  lemma {:induction false} MatchingInOrder(ps: seq<Process>, kind: Kind, byDir: map<string, nat>, i: nat)
    ensures Subsequence(Matching(ps, kind, byDir, i), ps)
  {
    if ps != [] {
      var before, q := ps[..|ps| - 1], ps[|ps| - 1];
      MatchingInOrder(before, kind, byDir, i);
      assert ps == before + [q];
      SubsequenceSnoc(Matching(before, kind, byDir, i), before, q);
      assert Matching(before, kind, byDir, i) + [] == Matching(before, kind, byDir, i);
    }
  }

  /** A process of the kind that runs in the directory. */
  predicate RunsIn(p: Process, kind: Kind, dir: string) {
    p.kind == kind && p.dir == dir && p.dir != ""
  }

  ghost predicate DistinctDirs(rs: seq<Runner>) {
    forall k, l :: 0 <= k < l < |rs| ==> rs[k].dir != rs[l].dir
  }

  /**
   The processes of a runner that started without any: its workers are the worker processes of its
   directory, each as often as it was seen; its listener is a listener process of its directory that
   none there was started after, and the first of those, and is missing only when there is none.
   */
  lemma ProcessesOf(rs: seq<Runner>, i: nat, after: Runner, running: seq<Process>, units: seq<Unit>, listed: bool,
                    byUnit: map<string, nat>, byDir: map<string, nat>)
    requires IsDirIndex(byDir, rs) && DistinctDirs(rs) && i < |rs|
    requires rs[i].workers == [] && rs[i].listener == None
    requires Attached(after, rs[i], i, running, units, listed, byUnit, byDir)
    ensures forall p ::
              multiset(after.workers)[p] == if RunsIn(p, Worker, rs[i].dir) then multiset(running)[p] else 0
    ensures forall k, l :: 0 <= k < l < |after.workers| ==> after.workers[k].pid <= after.workers[l].pid
    ensures IsListener(after.listener, running, rs[i].dir)
  {
    hide IsDirIndex, Matching, Latest, Belongs;
    var dir := rs[i].dir;
    var ws := Matching(running, Worker, byDir, i);
    assert [] + ws == ws;
    forall p
      ensures multiset(ws)[p] == if RunsIn(p, Worker, dir) then multiset(running)[p] else 0
    {
      MatchingAre(running, Worker, byDir, i, p);
      BelongsToDir(rs, byDir, p, Worker, i);
    }
    forall p
      ensures Belongs(p, Listener, byDir, i) <==> RunsIn(p, Listener, dir)
    {
      BelongsToDir(rs, byDir, p, Listener, i);
    }
    ListenerIs(running, byDir, i, dir);
  }

  /** Of the listener processes in the directory, the first of those started last; none only when there is none. */
  predicate IsListener(l: Option<Process>, ps: seq<Process>, dir: string) {
    if l == None then forall k :: 0 <= k < |ps| ==> !RunsIn(ps[k], Listener, dir)
    else exists m :: 0 <= m < |ps| && ps[m] == l.value && IsTheListener(ps, m, dir)
  }

  predicate IsTheListener(ps: seq<Process>, m: nat, dir: string)
    requires m < |ps|
  {
    && RunsIn(ps[m], Listener, dir)
    && (forall k :: 0 <= k < m && RunsIn(ps[k], Listener, dir) ==> ps[k].started < ps[m].started)
    && (forall k :: m < k < |ps| && RunsIn(ps[k], Listener, dir) ==> ps[k].started <= ps[m].started)
  }

  lemma ListenerStep(l: Option<Process>, ps: seq<Process>, p: Process, dir: string)
    requires IsListener(l, ps, dir)
    ensures IsListener(if RunsIn(p, Listener, dir) then Later(l, p) else l, ps + [p], dir)
  {
    hide RunsIn;
    var n, all := |ps|, ps + [p];
    var l' := if RunsIn(p, Listener, dir) then Later(l, p) else l;
    assert all[n] == p && forall k :: 0 <= k < n ==> all[k] == ps[k];
    if l' == l {
      if l != None {
        var m :| 0 <= m < n && ps[m] == l.value && IsTheListener(ps, m, dir);
        assert all[m] == l.value && IsTheListener(all, m, dir);
      }
    } else {
      if l != None {
        var m :| 0 <= m < n && ps[m] == l.value && IsTheListener(ps, m, dir);
        assert forall k :: 0 <= k < n && RunsIn(ps[k], Listener, dir) ==> ps[k].started <= ps[m].started;
      }
      assert IsTheListener(all, n, dir);
    }
  }

  lemma {:induction false} ListenerIs(ps: seq<Process>, byDir: map<string, nat>, i: nat, dir: string)
    requires forall p :: Belongs(p, Listener, byDir, i) <==> RunsIn(p, Listener, dir)
    ensures IsListener(Latest(None, Matching(ps, Listener, byDir, i)), ps, dir)
  {
    hide Belongs, RunsIn, IsListener;
    if ps == [] {
      NobodyListens(dir);
    } else {
      var before, p := ps[..|ps| - 1], ps[|ps| - 1];
      var ls := Matching(before, Listener, byDir, i);
      ListenerIs(before, byDir, i, dir);
      ListenerStep(Latest(None, ls), before, p, dir);
      assert ps == before + [p];
      if RunsIn(p, Listener, dir) {
        assert (ls + [p])[..|ls|] == ls;
      } else {
        assert ls + [] == ls;
      }
    }
  }

  lemma NobodyListens(dir: string)
    ensures IsListener(None, [], dir)
  {
  }

  /** How a runner is kept running, from what is attached to it in the end. */
  lemma ManagedIs(after: Runner, before: Runner, i: nat, running: seq<Process>, units: seq<Unit>, listed: bool,
                  byUnit: map<string, nat>, byDir: map<string, nat>)
    requires Attached(after, before, i, running, units, listed, byUnit, byDir)
    ensures after.managed == Systemd <==> after.svc != None
    ensures after.managed == Unavailable <==> after.svc == None && !listed
    ensures after.managed == Standalone <==> after.svc == None && listed && after.listener != None
    ensures after.managed == Unknown <==> after.svc == None && listed && after.listener == None
  {
    hide Latest, Matching, ByName, ByDir, SortedByPid;
  }

  // ---- The outcome in terms of the runners and units alone ----

  /** The `i`-th runner, and no other, names the unit. */
  predicate NamesIt(rs: seq<Runner>, i: nat, u: Unit) {
    u.name != "" && NamedOnlyBy(rs, u.name, i)
  }

  ghost predicate Nameless(rs: seq<Runner>, u: Unit) {
    forall i :: 0 <= i < |rs| ==> !NamesIt(rs, i, u)
  }

  /** The `i`-th runner is the last of the directory. */
  predicate LastOfDir(rs: seq<Runner>, i: nat, dir: string) {
    i < |rs| && rs[i].dir == dir && forall k :: i < k < |rs| ==> rs[k].dir != dir
  }

  /** The unit exists and is named by this runner alone. */
  predicate TakesByName(rs: seq<Runner>, i: nat, u: Unit) {
    u.load != "not-found" && NamesIt(rs, i, u)
  }

  /** The state of the unit is known, no runner alone names it, and it works in this runner's directory. */
  ghost predicate WorksIn(rs: seq<Runner>, i: nat, u: Unit) {
    u.load != "not-found" && u.load != "" && Nameless(rs, u) && u.dir != "" && LastOfDir(rs, i, u.dir)
  }

  ghost predicate Indexed(rs: seq<Runner>, byUnit: map<string, nat>, byDir: map<string, nat>) {
    IsUnitIndex(byUnit, rs) && IsDirIndex(byDir, rs)
  }

  lemma IndicesMean(rs: seq<Runner>, byUnit: map<string, nat>, byDir: map<string, nat>, u: Unit)
    requires Indexed(rs, byUnit, byDir)
    ensures IsNamed(u, byUnit) <==> exists i :: 0 <= i < |rs| && TakesByName(rs, i, u)
    ensures forall i: nat :: IsNamed(u, byUnit) && byUnit[u.name] == i <==> TakesByName(rs, i, u)
    ensures u.name in byUnit <==> !Nameless(rs, u)
    ensures forall i: nat :: IsCandidate(u, byUnit, byDir, i) <==> WorksIn(rs, i, u)
    ensures HasRunner(u, byDir) <==> u.dir != "" && exists k :: 0 <= k < |rs| && rs[k].dir == u.dir
  {
    hide TimesNamed, FirstNamed;
    forall i: nat
      ensures u.name in byUnit && byUnit[u.name] == i <==> NamesIt(rs, i, u)
    {
      NamedOnce(rs, u.name, i);
    }
    if u.name in byUnit {
      assert NamesIt(rs, byUnit[u.name], u);
    }
    if IsNamed(u, byUnit) {
      assert TakesByName(rs, byUnit[u.name], u);
    }
    if i :| 0 <= i < |rs| && TakesByName(rs, i, u) {
      assert NamesIt(rs, i, u);
    }
    if u.dir in byDir {
      assert LastOfDir(rs, byDir[u.dir], u.dir);
    }
  }

  lemma {:induction false} NoneByName(units: seq<Unit>, byUnit: map<string, nat>, i: nat)
    ensures ByName(units, byUnit, i) == None <==>
            forall m :: 0 <= m < |units| ==> !(IsNamed(units[m], byUnit) && byUnit[units[m].name] == i)
  {
    if units != [] {
      var before := units[..|units| - 1];
      NoneByName(before, byUnit, i);
      assert forall m :: 0 <= m < |before| ==> units[m] == before[m];
    }
  }

  lemma {:induction false} NoneByDir(units: seq<Unit>, byUnit: map<string, nat>, byDir: map<string, nat>, i: nat)
    ensures ByDir(units, byUnit, byDir, i) == None <==>
            forall m :: 0 <= m < |units| ==> !IsCandidate(units[m], byUnit, byDir, i)
  {
    if units != [] {
      var before := units[..|units| - 1];
      NoneByDir(before, byUnit, byDir, i);
      assert forall m :: 0 <= m < |before| ==> units[m] == before[m];
    }
  }

  /** No unit takes the runner by its name, and none of the first `j` works in its directory. */
  ghost predicate FreeFor(rs: seq<Runner>, i: nat, units: seq<Unit>, j: nat) {
    && (forall m :: 0 <= m < |units| ==> !TakesByName(rs, i, units[m]))
    && (forall m :: 0 <= m < j && m < |units| ==> !WorksIn(rs, i, units[m]))
  }

  /**
   Which unit a runner ends up with that had none: the one it alone names, if that exists; else the
   first of known state that no runner alone names and that works in its directory; else none.
   */
  lemma UnitOf(rs: seq<Runner>, i: nat, after: Runner, running: seq<Process>, units: seq<Unit>, listed: bool,
               byUnit: map<string, nat>, byDir: map<string, nat>, j: nat)
    requires Indexed(rs, byUnit, byDir) && i < |rs| && rs[i].svc == None && DistinctNames(units)
    requires Attached(after, rs[i], i, running, units, listed, byUnit, byDir)
    ensures after.dir == rs[i].dir && after.unitName == rs[i].unitName
    ensures after.svc == None <==> FreeFor(rs, i, units, |units|)
    ensures j < |units| ==>
              (after.svc == Some(units[j]) <==>
               TakesByName(rs, i, units[j]) || (WorksIn(rs, i, units[j]) && FreeFor(rs, i, units, j)))
  {
    hide Matching, Latest, SortedByPid, ManagedOf, WorksIn, TakesByName, IsCandidate, Indexed;
    forall m | 0 <= m < |units|
      ensures IsNamed(units[m], byUnit) && byUnit[units[m].name] == i <==> TakesByName(rs, i, units[m])
      ensures IsCandidate(units[m], byUnit, byDir, i) <==> WorksIn(rs, i, units[m])
    {
      IndicesMean(rs, byUnit, byDir, units[m]);
    }
    NoneByName(units, byUnit, i);
    NoneByDir(units, byUnit, byDir, i);
    if j < |units| {
      UnitAt(rs, i, units, byUnit, byDir, j);
    }
  }

  /** A unit that a runner had before stays unless another one takes the runner by its name. */
  lemma HeldUnitStays(rs: seq<Runner>, i: nat, after: Runner, running: seq<Process>, units: seq<Unit>, listed: bool,
                      byUnit: map<string, nat>, byDir: map<string, nat>)
    requires Indexed(rs, byUnit, byDir) && i < |rs| && rs[i].svc != None
    requires Attached(after, rs[i], i, running, units, listed, byUnit, byDir)
    ensures (forall m :: 0 <= m < |units| ==> !TakesByName(rs, i, units[m])) ==> after.svc == rs[i].svc
    ensures after.svc == rs[i].svc ||
            exists m :: 0 <= m < |units| && TakesByName(rs, i, units[m]) && after.svc == Some(units[m])
  {
    hide Matching, Latest, SortedByPid, ManagedOf, TakesByName, ByName, ByDir, Indexed;
    forall m | 0 <= m < |units|
      ensures IsNamed(units[m], byUnit) && byUnit[units[m].name] == i <==> TakesByName(rs, i, units[m])
    {
      IndicesMean(rs, byUnit, byDir, units[m]);
    }
    NoneByName(units, byUnit, i);
    ByNameIsNamed(units, byUnit, i);
  }

  lemma UnitAt(rs: seq<Runner>, i: nat, units: seq<Unit>, byUnit: map<string, nat>, byDir: map<string, nat>, j: nat)
    requires Indexed(rs, byUnit, byDir) && j < |units| && DistinctNames(units)
    ensures Final(units, byUnit, byDir, i) == Some(units[j]) <==>
            TakesByName(rs, i, units[j]) || (WorksIn(rs, i, units[j]) && FreeFor(rs, i, units, j))
  {
    hide ByName, ByDir, WorksIn, TakesByName, IsCandidate, IsUnitIndex, IsDirIndex;
    var u := units[j];
    forall m | 0 <= m < |units|
      ensures IsNamed(units[m], byUnit) && byUnit[units[m].name] == i <==> TakesByName(rs, i, units[m])
      ensures IsCandidate(units[m], byUnit, byDir, i) <==> WorksIn(rs, i, units[m])
    {
      IndicesMean(rs, byUnit, byDir, units[m]);
    }
    NoneByName(units, byUnit, i);
    NoneByDir(units[..j], byUnit, byDir, i);
    ByNameIsNamed(units, byUnit, i);
    ByDirIsCandidate(units, byUnit, byDir, i);
    if TakesByName(rs, i, u) {
      UniqueNameWins(units, rs, byUnit, i, j);
    } else if WorksIn(rs, i, u) {
      ByDirIsFirst(units, byUnit, byDir, i, j);
    }
  }

  /** Orphans are the units of known state that no runner alone names and in whose directory there is no runner. */
  lemma OrphansAreUnits(rs: seq<Runner>, units: seq<Unit>, byUnit: map<string, nat>, byDir: map<string, nat>, u: Unit)
    requires Indexed(rs, byUnit, byDir)
    ensures u in Orphans(units, byUnit, byDir) <==>
            && u in units && u.load != "not-found" && u.load != "" && Nameless(rs, u)
            && (u.dir == "" || forall k :: 0 <= k < |rs| ==> rs[k].dir != u.dir)
  {
    hide Indexed, Orphans, Nameless;
    OrphansAre(units, byUnit, byDir, u);
    IndicesMean(rs, byUnit, byDir, u);
  }

  lemma {:induction false} OrphansInOrder(units: seq<Unit>, byUnit: map<string, nat>, byDir: map<string, nat>)
    ensures Subsequence(Orphans(units, byUnit, byDir), units)
  {
    if units != [] {
      var before, u := units[..|units| - 1], units[|units| - 1];
      OrphansInOrder(before, byUnit, byDir);
      assert units == before + [u];
      SubsequenceSnoc(Orphans(before, byUnit, byDir), before, u);
      assert Orphans(before, byUnit, byDir) + [] == Orphans(before, byUnit, byDir);
    }
  }

  /** Exactly the units of which nothing exists are reported as such. */
  lemma {:induction false} ReportedMissing(units: seq<Unit>, name: string)
    ensures UnitNotFound(name) in NotFound(units) <==>
            exists m :: 0 <= m < |units| && units[m].name == name && units[m].load == "not-found"
    ensures forall w :: w in NotFound(units) ==> w.UnitNotFound?
  {
    if units != [] {
      var before := units[..|units| - 1];
      ReportedMissing(before, name);
      assert forall m :: 0 <= m < |before| ==> units[m] == before[m];
    }
  }

  /** A unit is reported as a duplicate when another one sits at its runner in the end, with the name of that one. */
  lemma ReportedAsDuplicate(rs: seq<Runner>, units: seq<Unit>, byUnit: map<string, nat>, byDir: map<string, nat>,
                            j: nat, t: string)
    requires Indexed(rs, byUnit, byDir) && DistinctNames(units) && j < |units|
    requires forall i :: 0 <= i < |rs| ==> rs[i].svc == None
    ensures DuplicateUnit(units[j].name, units[j].dir, t) in
            Ignored(units, FirstPass(rs, units, byUnit), byUnit, byDir) <==>
            exists i :: 0 <= i < |rs| && WorksIn(rs, i, units[j]) && AnotherSits(units, byUnit, byDir, i, j, t)
  {
    hide ByName, ByDir, Ignored, WorksIn, IsCandidate, Indexed;
    var u, svcs := units[j], FirstPass(rs, units, byUnit);
    IgnoredAre(units, svcs, byUnit, byDir, j, t);
    IndicesMean(rs, byUnit, byDir, u);
    if IsLeft(u, byUnit) && HasRunner(u, byDir) {
      var i := byDir[u.dir];
      assert IsCandidate(u, byUnit, byDir, i) && i < |rs| by { LeftHasRunner(rs, byUnit, byDir, u); }
      forall k: nat | WorksIn(rs, k, u)
        ensures k == i
      {
        LeftHasRunner(rs, byUnit, byDir, u);
      }
      SittingStays(units, byUnit, byDir, i, j);
    } else {
      forall k: nat
        ensures !WorksIn(rs, k, u)
      {
        LeftHasRunner(rs, byUnit, byDir, u);
      }
    }
  }

  lemma LeftHasRunner(rs: seq<Runner>, byUnit: map<string, nat>, byDir: map<string, nat>, u: Unit)
    requires Indexed(rs, byUnit, byDir)
    ensures IsLeft(u, byUnit) && HasRunner(u, byDir) ==>
              byDir[u.dir] < |rs| && IsCandidate(u, byUnit, byDir, byDir[u.dir])
    ensures forall i: nat :: WorksIn(rs, i, u) ==> IsLeft(u, byUnit) && HasRunner(u, byDir) && byDir[u.dir] == i
  {
    IndicesMean(rs, byUnit, byDir, u);
  }

  /** Another unit than the `j`-th, of the name `t`, is the runner's in the end. */
  ghost predicate AnotherSits(units: seq<Unit>, byUnit: map<string, nat>, byDir: map<string, nat>, i: nat, j: nat,
                              t: string) {
    exists m :: 0 <= m < |units| && m != j && units[m].name == t && Final(units, byUnit, byDir, i) == Some(units[m])
  }

  /** What sits at the runner when the second pass comes to a unit stays there. */
  lemma SittingStays(units: seq<Unit>, byUnit: map<string, nat>, byDir: map<string, nat>, i: nat, j: nat)
    requires DistinctNames(units) && j < |units| && IsCandidate(units[j], byUnit, byDir, i)
    ensures var sitting := Named(ByDir(units[..j], byUnit, byDir, i), ByName(units, byUnit, i));
            forall t :: AnotherSits(units, byUnit, byDir, i, j, t) <==> sitting.Some? && sitting.value.name == t
  {
    hide ByName, ByDir;
    ByNameIsNamed(units, byUnit, i);
    ByDirIsCandidate(units[..j], byUnit, byDir, i);
    ByDirIsFirst(units, byUnit, byDir, i, j);
    if ByDir(units[..j], byUnit, byDir, i).Some? {
      ByDirStays(units, j, byUnit, byDir, i);
    }
    var final := Final(units, byUnit, byDir, i);
    var sitting := Named(ByDir(units[..j], byUnit, byDir, i), ByName(units, byUnit, i));
    if sitting.Some? {
      assert final == sitting && sitting.value in units;
      var m :| 0 <= m < |units| && units[m] == sitting.value;
      assert m != j;
      assert AnotherSits(units, byUnit, byDir, i, j, units[m].name);
    } else {
      assert final == Some(units[j]);
    }
  }

  lemma {:induction false} ByDirStays(units: seq<Unit>, j: nat, byUnit: map<string, nat>, byDir: map<string, nat>,
                                      i: nat)
    requires j <= |units| && ByDir(units[..j], byUnit, byDir, i).Some?
    ensures ByDir(units, byUnit, byDir, i) == ByDir(units[..j], byUnit, byDir, i)
    decreases |units| - j
  {
    if j == |units| {
      assert units[..j] == units;
    } else {
      assert units[..j + 1][..j] == units[..j];
      ByDirStays(units, j + 1, byUnit, byDir, i);
    }
  }

  /** A runner is warned about when an earlier one names the same unit, with the directory of the first that does. */
  lemma {:induction false} NameWarningsAre(rs: seq<Runner>, w: Warning)
    requires w.DuplicateName?
    ensures w in NameWarnings(rs) <==> exists k :: 0 <= k < |rs| && NamesAgain(rs, k, w)
  {
    hide NamesAgain, FirstNamed;
    if rs != [] {
      var n := |rs| - 1;
      NameWarningsAre(rs[..n], w);
      forall k | 0 <= k < n
        ensures NamesAgain(rs[..n], k, w) <==> NamesAgain(rs, k, w)
      {
        NamesAgainBefore(rs, n, k, w);
      }
      WarnedAtLast(rs, w);
    }
  }

  /**
   The warning is about the `k`-th runner, which names a unit that an earlier one names, and tells the
   first that does.
   */
  ghost predicate NamesAgain(rs: seq<Runner>, k: nat, w: Warning)
    requires k < |rs| && w.DuplicateName?
  {
    && w.dir == rs[k].dir && w.name == rs[k].unitName && w.name != ""
    && exists j :: 0 <= j < k && rs[j].unitName == w.name && rs[j].dir == w.firstDir && FirstToName(rs, j)
  }

  predicate FirstToName(rs: seq<Runner>, j: nat)
    requires j < |rs|
  {
    forall m :: 0 <= m < j ==> rs[m].unitName != rs[j].unitName
  }

  lemma NamesAgainBefore(rs: seq<Runner>, n: nat, k: nat, w: Warning)
    requires k < n <= |rs| && w.DuplicateName?
    ensures NamesAgain(rs[..n], k, w) <==> NamesAgain(rs, k, w)
  {
    assert forall j :: 0 <= j < n ==> rs[..n][j] == rs[j];
    forall j | 0 <= j < n
      ensures FirstToName(rs[..n], j) <==> FirstToName(rs, j)
    {
    }
  }

  lemma WarnedAtLast(rs: seq<Runner>, w: Warning)
    requires rs != [] && w.DuplicateName?
    ensures var n := |rs| - 1;
            var r, i := rs[n], FirstNamed(rs[..n], rs[n].unitName);
            NamesAgain(rs, n, w) <==>
            r.unitName != "" && i >= 0 && w == DuplicateName(r.dir, r.unitName, rs[i].dir)
  {
    var n := |rs| - 1;
    var i := FirstNamed(rs[..n], rs[n].unitName);
    FirstNamedIs(rs[..n], rs[n].unitName);
    hide FirstNamed;
    assert forall j :: 0 <= j < n ==> rs[..n][j] == rs[j];
    if i >= 0 {
      assert FirstToName(rs, i);
    }
    forall j | 0 <= j < n && rs[j].unitName == rs[n].unitName && FirstToName(rs, j)
      ensures i == j
    {
    }
  }

  lemma {:induction false} FirstNamedIs(rs: seq<Runner>, u: string)
    ensures var i := FirstNamed(rs, u);
            if i < 0 then forall k :: 0 <= k < |rs| ==> rs[k].unitName != u
            else rs[i].unitName == u && forall k :: 0 <= k < i ==> rs[k].unitName != u
  {
    if rs != [] {
      var before := rs[..|rs| - 1];
      FirstNamedIs(before, u);
      assert forall k :: 0 <= k < |before| ==> rs[k] == before[k];
    }
  }
}
