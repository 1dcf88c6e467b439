/**
 The disk usage scan of the runners' work directories: at most one runs at a time, the automatic
 trigger starts it once, and the busy flag is dropped when it answers.
 */
module WorkScan {
  import opened Strings

  /** A scan that was started: its number, and the runner directories copied when it was. */
  datatype Command = Command(seqNo: int, targets: seq<string>)

  /** The result of a scan, one entry per directory scanned. */
  datatype Msg<U> = Msg(seqNo: int, usage: map<string, U>)

  /** The command that scans the runners; without runners there is none. */
  function Scan(seqNo: int, runners: seq<string>): Option<Command> {
    if runners == [] then None else Some(Command(seqNo, runners))
  }

  datatype Progress<U> = Progress(seqNo: nat, busy: bool, usage: map<string, U>)

  /** The command a start hands out: none while a scan runs or when there is nothing to scan. */
  function StartCommand<U>(p: Progress<U>, runners: seq<string>): Option<Command> {
    if p.busy then None else Scan(p.seqNo + 1, runners)
  }

  function OnceCommand<U>(p: Progress<U>, runners: seq<string>): Option<Command> {
    if p.seqNo > 0 then None else StartCommand(p, runners)
  }

  /** The progress after a command was, or was not, handed out. */
  function After<U>(p: Progress<U>, cmd: Option<Command>): Progress<U> {
    if cmd.None? then p else p.(seqNo := p.seqNo + 1, busy := true)
  }

  function Applied<U>(p: Progress<U>, msg: Msg<U>): Progress<U> {
    if msg.seqNo != p.seqNo then p else p.(busy := false, usage := msg.usage)
  }

  class State<U> {
    var seqNo: nat
    var busy: bool
    var usage: map<string, U>

    constructor ()
      ensures Value() == Progress(0, false, map[])
    {
      seqNo, busy, usage := 0, false, map[];
    }

    ghost function Value(): Progress<U>
      reads this
    {
      Progress(seqNo, busy, usage)
    }

    method Start(runners: seq<string>) returns (cmd: Option<Command>)
      modifies this`seqNo, this`busy
      ensures cmd == StartCommand(old(Value()), runners)
      ensures Value() == After(old(Value()), cmd)
    {
      if busy {
        return None;
      }
      cmd := Scan(seqNo + 1, runners);
      if cmd.None? {
        return;
      }
      seqNo := seqNo + 1;
      busy := true;
    }

    predicate Started()
      reads this
    {
      seqNo > 0
    }

    method StartOnce(runners: seq<string>) returns (cmd: Option<Command>)
      modifies this`seqNo, this`busy
      ensures cmd == OnceCommand(old(Value()), runners)
      ensures Value() == After(old(Value()), cmd)
    {
      if Started() {
        return None;
      }
      cmd := Start(runners);
    }

    method Apply(msg: Msg<U>)
      modifies this`busy, this`usage
      ensures Value() == Applied(old(Value()), msg)
    {
      if msg.seqNo != seqNo {
        return;
      }
      busy := false;
      usage := msg.usage;
    }
  }

  // ---- The protocol ----

  /** The progress, the commands not yet answered, every command started, and every answer. */
  datatype World<U> = World(progress: Progress<U>, outstanding: seq<Command>, started: seq<Command>, done: seq<Msg<U>>)

  /** A discovery succeeded, the user refreshes by hand, or some outstanding scan answers. */
  datatype Event<U> =
    Discovered(runners: seq<string>) | Refresh(runners: seq<string>) | Deliver(which: nat, usage: map<string, U>)

  function Dirs(targets: seq<string>): set<string> {
    set d | d in targets
  }

  /** A scan answers for exactly the directories it was given. */
  predicate Enabled<U>(w: World<U>, e: Event<U>) {
    e.Deliver? ==> e.which < |w.outstanding| && e.usage.Keys == Dirs(w.outstanding[e.which].targets)
  }

  function Issue<U>(w: World<U>, cmd: Option<Command>): World<U> {
    var issued := if cmd.None? then [] else [cmd.value];
    World(After(w.progress, cmd), w.outstanding + issued, w.started + issued, w.done)
  }

  function Step<U>(w: World<U>, e: Event<U>): World<U>
    requires Enabled(w, e)
  {
    match e
    case Discovered(runners) => Issue(w, OnceCommand(w.progress, runners))
    case Refresh(runners) => Issue(w, StartCommand(w.progress, runners))
    case Deliver(which, usage) =>
      var msg := Msg(w.outstanding[which].seqNo, usage);
      World(Applied(w.progress, msg), w.outstanding[..which] + w.outstanding[which + 1..], w.started, w.done + [msg])
  }

  function Initial<U>(): World<U> {
    World(Progress(0, false, map[]), [], [], [])
  }

  ghost predicate Run<U>(w: World<U>, events: seq<Event<U>>, end: World<U>)
    decreases |events|
  {
    if events == [] then end == w
    else Enabled(w, events[0]) && Run(Step(w, events[0]), events[1..], end)
  }

  /**
   Busy exactly while one scan is outstanding, which is then the current one; scans are numbered in the
   order they start, each answered before the next starts; the usage held is that of the last answer
   and covers exactly the runners that scan was given.
   */
  ghost predicate Inv<U>(w: World<U>) {
    var p := w.progress;
    && p.seqNo == |w.started|
    && (forall i :: 0 <= i < |w.started| ==> w.started[i].seqNo == i + 1 && w.started[i].targets != [])
    && |w.done| == p.seqNo - (if p.busy then 1 else 0)
    && w.outstanding == (if p.busy then [w.started[p.seqNo - 1]] else [])
    && (if w.done == [] then p.usage == map[]
        else p.usage == w.done[|w.done| - 1].usage && p.usage.Keys == Dirs(w.started[|w.done| - 1].targets))
  }

  lemma StepKeeps<U>(w: World<U>, e: Event<U>)
    requires Inv(w) && Enabled(w, e)
    ensures Inv(Step(w, e))
  {
    hide Dirs;
    match e
    case Discovered(runners) => IssueKeeps(w, OnceCommand(w.progress, runners));
    case Refresh(runners) => IssueKeeps(w, StartCommand(w.progress, runners));
    case Deliver(which, usage) =>
      assert w.outstanding == [w.started[w.progress.seqNo - 1]];
      assert w.outstanding[..which] + w.outstanding[which + 1..] == [];
  }

  lemma IssueKeeps<U>(w: World<U>, cmd: Option<Command>)
    requires Inv(w)
    requires cmd.Some? ==> !w.progress.busy && cmd.value.seqNo == w.progress.seqNo + 1 && cmd.value.targets != []
    ensures Inv(Issue(w, cmd))
  {
    hide Dirs;
    if cmd.None? {
      assert Issue(w, cmd) == w;
    }
  }

  lemma {:induction false} EveryRunKeeps<U>(w: World<U>, events: seq<Event<U>>, end: World<U>)
    requires Inv(w) && Run(w, events, end)
    ensures Inv(end)
    decreases |events|
  {
    if events != [] {
      StepKeeps(w, events[0]);
      EveryRunKeeps(Step(w, events[0]), events[1..], end);
    }
  }

  /** After every interleaving: busy exactly when one scan is outstanding, never more, and it is the current one. */
  lemma BusyIffOutstanding<U>(events: seq<Event<U>>, end: World<U>)
    requires Run(Initial(), events, end)
    ensures Inv(end) && |end.outstanding| <= 1
    ensures end.progress.busy <==> |end.outstanding| == 1
    ensures end.outstanding != [] ==> end.outstanding[0].seqNo == end.progress.seqNo
  {
    EveryRunKeeps(Initial(), events, end);
  }

  /** Busy never sticks: whichever scan answers, the next refresh with runners starts one again. */
  lemma NeverSticks<U>(events: seq<Event<U>>, w: World<U>, answer: Event<U>, runners: seq<string>)
    requires Run(Initial(), events, w) && answer.Deliver? && Enabled(w, answer) && runners != []
    ensures var answered := Step(w, answer);
            && !answered.progress.busy && answered.progress.usage == answer.usage
            && Step(answered, Refresh(runners)).outstanding == [Command(w.progress.seqNo + 1, runners)]
  {
    BusyIffOutstanding(events, w);
  }

  // ---- Starting once ----

  /** The first trigger that had runners, among events from discoveries only. */
  function FirstRunners<U>(events: seq<Event<U>>): seq<string> {
    if events == [] then []
    else if events[0].Discovered? && events[0].runners != [] then events[0].runners
    else FirstRunners(events[1..])
  }

  /** Without a refresh by hand, discoveries scan once: the first list that is not empty, and never again. */
  lemma {:induction false} OnceScansTheFirst<U>(w: World<U>, events: seq<Event<U>>, end: World<U>)
    requires Inv(w) && Run(w, events, end)
    requires forall e :: e in events ==> !e.Refresh?
    ensures end.started == if w.started != [] then w.started
                           else if FirstRunners(events) == [] then []
                           else [Command(1, FirstRunners(events))]
    decreases |events|
  {
    if events != [] {
      hide Dirs;
      StepKeeps(w, events[0]);
      OnceScansTheFirst(Step(w, events[0]), events[1..], end);
    }
  }

  /** Even with refreshes in between, a discovery starts a scan only while none was ever started. */
  lemma DiscoveredOnlyOnce<U>(events: seq<Event<U>>, w: World<U>, runners: seq<string>)
    requires Run(Initial(), events, w)
    ensures Step(w, Discovered(runners)).started ==
            if w.started == [] && runners != [] then [Command(1, runners)] else w.started
  {
    BusyIffOutstanding(events, w);
  }

  /**
   Whatever a late answer says, only that of the scan that is running ends it; no other one clears the
   busy flag or touches the usage held.
   */
  lemma OnlyCurrentEnds<U>(w: World<U>, msg: Msg<U>)
    requires Inv(w) && w.progress.busy
    ensures !Applied(w.progress, msg).busy <==> msg.seqNo == w.outstanding[0].seqNo
    ensures Applied(w.progress, msg).busy ==> Applied(w.progress, msg) == w.progress
    ensures !Applied(w.progress, msg).busy ==> Applied(w.progress, msg).usage == msg.usage
  {
    assert w.outstanding[0] == w.started[w.progress.seqNo - 1];
  }
}
