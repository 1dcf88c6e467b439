/**
 Following the journal of a systemd unit by asking for its last lines again and again and sending
 only what was not in the previous answer.
 */
module Journal {
  import opened Ints
  import opened Sequences

  type Line = string

  /** How many lines one answer holds at most. */
  const JOURNAL_LINES := 200

  /** The failure at which following ends, counted without a success in between. */
  const JOURNAL_RETRIES := 3

  // ---- The overlap of two answers ----

  /** The last `n` lines of `prev` are the first `n` of `cur`. */
  predicate Overlaps(prev: seq<Line>, cur: seq<Line>, n: int) {
    0 <= n <= |prev| && n <= |cur| && prev[|prev| - n..] == cur[..n]
  }

  function LargestOverlap(prev: seq<Line>, cur: seq<Line>, n: nat): (m: nat)
    requires n <= |prev| && n <= |cur|
    ensures m <= n && Overlaps(prev, cur, m)
    ensures forall k :: m < k <= n ==> !Overlaps(prev, cur, k)
  {
    if n == 0 || Overlaps(prev, cur, n) then n else LargestOverlap(prev, cur, n - 1)
  }

  /** The largest overlap. */
  function Overlap(prev: seq<Line>, cur: seq<Line>): (n: nat)
    ensures Overlaps(prev, cur, n)
    ensures forall k :: Overlaps(prev, cur, k) ==> k <= n
  {
    LargestOverlap(prev, cur, if |prev| < |cur| then |prev| else |cur|)
  }

  method EqualLines(a: seq<Line>, b: seq<Line>) returns (equal: bool)
    requires |a| == |b|
    ensures equal == (a == b)
  {
    for i := 0 to |a|
      invariant a[..i] == b[..i]
    {
      if a[i] != b[i] {
        return false;
      }
    }
    assert a == a[..|a|] == b[..|a|] == b;
    return true;
  }

  /** Tries the lengths from the largest possible one down. */
  method ComputeOverlap(prev: seq<Line>, cur: seq<Line>) returns (n: nat)
    ensures n == Overlap(prev, cur)
  {
    n := if |prev| < |cur| then |prev| else |cur|;
    while n > 0
      invariant n <= |prev| && n <= |cur|
      invariant forall k :: Overlaps(prev, cur, k) ==> k <= n
    {
      var equal := EqualLines(prev[|prev| - n..], cur[..n]);
      if equal {
        assert Overlaps(prev, cur, n);
        return;
      }
      n := n - 1;
    }
    assert Overlaps(prev, cur, 0);
  }

  // ---- Polling ----

  /** One answer of journalctl: a failure, or the lines it printed. */
  datatype Answer = Failure | Output(lines: seq<Line>)

  datatype State = State(prev: seq<Line>, fails: nat, sent: seq<Line>, ended: bool)

  const START := State([], 0, [], false)

  function Step(s: State, a: Answer): State {
    if s.ended then s
    else match a
      case Failure => s.(fails := s.fails + 1, ended := s.fails + 1 >= JOURNAL_RETRIES)
      case Output(lines) =>
        State(if lines != [] then lines else s.prev, 0, s.sent + lines[Overlap(s.prev, lines)..], false)
  }

  function Steps(s: State, answers: seq<Answer>): State
    decreases |answers|
  {
    if answers == [] then s else Steps(Step(s, answers[0]), answers[1..])
  }

  /** The loop, over the answers it gets until it is cancelled or gives up. */
  method Follow(answers: seq<Answer>) returns (out: seq<Line>, failed: bool)
    ensures var s := Steps(START, answers); out == s.sent && failed == s.ended
  {
    var prev: seq<Line> := [];
    var fails := 0;
    out := [];
    for i := 0 to |answers|
      invariant fails < JOURNAL_RETRIES
      invariant Steps(State(prev, fails, out, false), answers[i..]) == Steps(START, answers)
    {
      assert answers[i..][1..] == answers[i + 1..];
      match answers[i] {
        case Failure =>
          fails := fails + 1;
          if fails >= JOURNAL_RETRIES {
            EndedStays(State(prev, fails, out, true), answers[i + 1..]);
            return out, true;
          }
        case Output(lines) =>
          fails := 0;
          var n := ComputeOverlap(prev, lines);
          out := out + lines[n..];
          if |lines| > 0 {
            prev := lines;
          }
      }
    }
    return out, false;
  }

  lemma {:induction false} EndedStays(s: State, answers: seq<Answer>)
    requires s.ended
    ensures Steps(s, answers) == s
  {
    if answers != [] { EndedStays(s, answers[1..]); }
  }

  // ---- The log behind the answers ----

  /** What one successful request shows of the log. */
  function Window(log: seq<Line>): (w: seq<Line>)
    ensures |w| == Min(|log|, 200) && w == log[|log| - |w|..]
  {
    if |log| <= JOURNAL_LINES then log else log[|log| - JOURNAL_LINES..]
  }

  function Emitted(prev: seq<Line>, cur: seq<Line>): seq<Line> {
    cur[Overlap(prev, cur)..]
  }

  ghost predicate Distinct(log: seq<Line>) {
    forall i, j :: 0 <= i < j < |log| ==> log[i] != log[j]
  }

  lemma WindowIsEnd(log: seq<Line>)
    ensures Window(log) == log[|log| - |Window(log)|..]
  {
  }

  /** Where the end of one window and the start of another stand in the log. */
  lemma EndAndStart(before: seq<Line>, after: seq<Line>, m: nat)
    requires before <= after && m <= |Window(before)| && m <= |Window(after)|
    ensures var lo := |after| - |Window(after)|;
            && Window(before)[|Window(before)| - m..] == after[|before| - m..|before|]
            && Window(after)[..m] == after[lo..lo + m]
  {
    WindowIsEnd(before);
    WindowIsEnd(after);
    hide Window;
    DropDrop(before, |before| - |Window(before)|, |Window(before)| - m);
    TakeDrop(after, |before|, |before| - m);
    DropTake(after, |after| - |Window(after)|, m);
    assert before == after[..|before|];
  }

  /** The lines that both windows of a growing log show overlap them. */
  lemma TrueOverlap(before: seq<Line>, after: seq<Line>)
    requires before <= after
    requires |after| - |before| <= |Window(after)|
    ensures Overlaps(Window(before), Window(after), |Window(after)| - (|after| - |before|))
  {
    hide Window, Min;
    var n, lo := |Window(after)| - (|after| - |before|), |after| - |Window(after)|;
    WindowShorter(before, after);
    EndAndStart(before, after, n);
    assert lo == |before| - n && lo + n == |before|;
  }

  lemma WindowShorter(before: seq<Line>, after: seq<Line>)
    requires before <= after && |after| - |before| <= |Window(after)|
    ensures |Window(after)| - (|after| - |before|) <= |Window(before)|
  {
  }

  /** Whatever the log holds, a poll sends nothing but a suffix of the lines that are truly new. */
  lemma EmitsOnlyNew(before: seq<Line>, after: seq<Line>)
    requires before <= after
    ensures var e := Emitted(Window(before), Window(after));
            |e| <= |after| - |before| && e == after[|after| - |e|..]
  {
    hide Overlap;
    var cur := Window(after);
    var n := Overlap(Window(before), cur);
    assert cur == after[|after| - |cur|..];
    assert cur[n..] == after[|after| - |cur| + n..];
    if |after| - |before| <= |cur| {
      TrueOverlap(before, after);
    }
  }

  /**
   The log repeats itself `d` lines on, over everything the new window shows of the lines seen before
   and `d` lines more, as far back as the old window reaches.
   */
  ghost predicate Hides(before: seq<Line>, after: seq<Line>, d: int) {
    var lo := |after| - |Window(after)|;
    && 1 <= d <= |after| - |before| && d <= lo <= |before| + d
    && |before| + d - lo <= |Window(before)|
    && after[lo - d..|before|] == after[lo..|before| + d]
  }

  /** No more lines were logged than one window holds, and no repetition hides any of them. */
  ghost predicate Lossless(before: seq<Line>, after: seq<Line>) {
    |after| - |before| <= 200 && forall d :: !Hides(before, after, d)
  }

  /** A repetition is an overlap longer than the true one. */
  lemma HidesIffOverlaps(before: seq<Line>, after: seq<Line>, d: int)
    requires before <= after && |after| - |before| <= |Window(after)| && d >= 1
    ensures Hides(before, after, d) <==>
            Overlaps(Window(before), Window(after), |Window(after)| - (|after| - |before|) + d)
  {
    hide Window;
    var m := |before| - (|after| - |Window(after)|) + d;
    if m <= |Window(before)| && m <= |Window(after)| {
      EndAndStart(before, after, m);
    }
  }

  /** For any log: a poll sends every new line exactly when not too many were logged and no repetition hides one. */
  lemma EmitsAllIff(before: seq<Line>, after: seq<Line>)
    requires before <= after
    ensures Emitted(Window(before), Window(after)) == after[|before|..] <==> Lossless(before, after)
    ensures !Lossless(before, after) ==> |Emitted(Window(before), Window(after))| < |after| - |before|
  {
    hide Window, Emitted, Lossless;
    EmitsOnlyNew(before, after);
    LosslessIffAsMany(before, after);
  }

  lemma LosslessIffAsMany(before: seq<Line>, after: seq<Line>)
    requires before <= after
    ensures |Emitted(Window(before), Window(after))| == |after| - |before| <==> Lossless(before, after)
  {
    EmittedCount(Window(before), Window(after));
    WindowLength(after);
    hide Window, Hides, Emitted, Min, Overlaps;
    var growth, n := |after| - |before|, |Window(after)|;
    var m := Overlap(Window(before), Window(after));
    if growth <= n {
      TrueOverlap(before, after);
      if m > n - growth {
        HidesIffOverlaps(before, after, m - (n - growth));
      }
      forall d | Hides(before, after, d)
        ensures m >= n - growth + d && d >= 1
      {
        HidesAtLeastOne(before, after, d);
        HidesIffOverlaps(before, after, d);
      }
    }
  }

  lemma EmittedCount(prev: seq<Line>, cur: seq<Line>)
    ensures |Emitted(prev, cur)| == |cur| - Overlap(prev, cur)
  {
  }

  lemma WindowLength(log: seq<Line>)
    ensures |Window(log)| <= JOURNAL_LINES && |Window(log)| <= |log|
    ensures |Window(log)| == |log| || |Window(log)| == JOURNAL_LINES
  {
  }

  lemma HidesAtLeastOne(before: seq<Line>, after: seq<Line>, d: int)
    requires Hides(before, after, d)
    ensures d >= 1
  {
  }

  /** Without repeated lines only the number of new lines counts. */
  lemma DistinctLossless(before: seq<Line>, after: seq<Line>)
    requires before <= after && Distinct(after)
    ensures Lossless(before, after) <==> |after| - |before| <= JOURNAL_LINES
  {
    hide Distinct, Overlap, Emitted;
    EmitsNew(before, after);
    EmitsOnlyNew(before, after);
    EmitsAllIff(before, after);
  }

  /** Repeated lines cost nothing while the whole log fits into one window. */
  lemma EmitsAllWhileShort(before: seq<Line>, after: seq<Line>)
    requires before <= after && |after| <= JOURNAL_LINES
    ensures Emitted(Window(before), Window(after)) == after[|before|..]
  {
    TrueOverlap(before, after);
  }

  /** When no line repeats, a poll sends the new lines, up to as many as one window holds. */
  lemma EmitsNew(before: seq<Line>, after: seq<Line>)
    requires before <= after && Distinct(after)
    ensures |Emitted(Window(before), Window(after))| == Min(|after| - |before|, JOURNAL_LINES)
  {
    hide Overlap, Window, Distinct;
    var m := Overlap(Window(before), Window(after));
    EmitsOnlyNew(before, after);
    if m > 0 {
      OverlapIsTrue(before, after, m);
    } else if |after| - |before| <= |Window(after)| {
      TrueOverlap(before, after);
    }
  }

  /** Without repeated lines there is only one way for two windows to overlap. */
  lemma OverlapIsTrue(before: seq<Line>, after: seq<Line>, m: int)
    requires before <= after && Distinct(after)
    requires m > 0 && Overlaps(Window(before), Window(after), m)
    ensures |Window(after)| - m == |after| - |before|
  {
    var prev, cur := Window(before), Window(after);
    assert prev[|prev| - m..][m - 1] == cur[..m][m - 1];
    assert after[|before| - 1] == prev[|prev| - 1];
    assert cur[m - 1] == after[|after| - |cur| + m - 1];
  }

  // ---- Whole runs ----

  datatype Outcome = Fails | Empty | Shows

  /** One poll: the lines logged since the previous one, and how the request turns out. */
  datatype Poll = Poll(growth: seq<Line>, outcome: Outcome)

  function AnswerTo(log: seq<Line>, outcome: Outcome): Answer {
    match outcome
    case Fails => Failure
    case Empty => Output([])
    case Shows => Output(Window(log))
  }

  function LogAfter(log: seq<Line>, polls: seq<Poll>): (r: seq<Line>)
    ensures log <= r
    decreases |polls|
  {
    if polls == [] then log else LogAfter(log + polls[0].growth, polls[1..])
  }

  /** The answers a log gives while it grows. */
  function Answers(log: seq<Line>, polls: seq<Poll>): seq<Answer>
    decreases |polls|
  {
    if polls == [] then []
    else
      var log' := log + polls[0].growth;
      [AnswerTo(log', polls[0].outcome)] + Answers(log', polls[1..])
  }

  /** Three requests in a row never fail. */
  predicate Patient(fails: nat, polls: seq<Poll>)
    decreases |polls|
  {
    polls == [] ||
    if polls[0].outcome.Fails? then fails + 1 < 3 && Patient(fails + 1, polls[1..])
    else Patient(0, polls[1..])
  }

  predicate ShowsLines(log: seq<Line>, p: Poll) {
    p.outcome.Shows? && log + p.growth != []
  }

  /** The log as the last non-empty answer showed it; `seen` when there is none. */
  function LastShown(seen: seq<Line>, log: seq<Line>, polls: seq<Poll>): seq<Line>
    decreases |polls|
  {
    if polls == [] then seen
    else
      var log' := log + polls[0].growth;
      LastShown(if ShowsLines(log, polls[0]) then log' else seen, log', polls[1..])
  }

  /** The log as the first non-empty answer showed it. */
  function FirstShown(log: seq<Line>, polls: seq<Poll>): seq<Line>
    decreases |polls|
  {
    if polls == [] then []
    else
      var log' := log + polls[0].growth;
      if ShowsLines(log, polls[0]) then log' else FirstShown(log', polls[1..])
  }

  /** No poll loses a line: between two non-empty answers the growth fits, and no repetition hides any of it. */
  ghost predicate NothingLost(seen: seq<Line>, log: seq<Line>, polls: seq<Poll>)
    decreases |polls|
  {
    if polls == [] then true
    else
      var log' := log + polls[0].growth;
      if ShowsLines(log, polls[0])
      then (seen == [] || Lossless(seen, log')) && NothingLost(log', log', polls[1..])
      else NothingLost(seen, log', polls[1..])
  }

  /** Between two non-empty answers no more lines are logged than one window holds. */
  predicate GapsFit(seen: seq<Line>, log: seq<Line>, polls: seq<Poll>)
    decreases |polls|
  {
    if polls == [] then true
    else
      var log' := log + polls[0].growth;
      if ShowsLines(log, polls[0])
      then (seen == [] || |log'| - |seen| <= 200) && GapsFit(log', log', polls[1..])
      else GapsFit(seen, log', polls[1..])
  }

  /** Following ends by itself exactly at the third failure in a row. */
  lemma {:induction false} EndsIffImpatient(s: State, log: seq<Line>, polls: seq<Poll>)
    requires !s.ended
    ensures Steps(s, Answers(log, polls)).ended <==> !Patient(s.fails, polls)
    decreases |polls|
  {
    if polls != [] {
      var log' := log + polls[0].growth;
      var s' := Step(s, AnswerTo(log', polls[0].outcome));
      StepsOfAnswers(s, log, polls);
      if s'.ended {
        EndedStays(s', Answers(log', polls[1..]));
      } else {
        EndsIffImpatient(s', log', polls[1..]);
      }
    }
  }

  lemma StepsOfAnswers(s: State, log: seq<Line>, polls: seq<Poll>)
    requires polls != []
    ensures var log' := log + polls[0].growth;
            Steps(s, Answers(log, polls)) == Steps(Step(s, AnswerTo(log', polls[0].outcome)), Answers(log', polls[1..]))
  {
    assert Answers(log, polls)[1..] == Answers(log + polls[0].growth, polls[1..]);
  }

  /**
   A run that has shown `seen` and sent at most its lines from `base` on: it stays complete while
   no poll loses a line, and is never complete again once one does.
   */
  lemma {:induction false} RunFrom(s: State, seen: seq<Line>, base: nat, log: seq<Line>, polls: seq<Poll>)
    requires !s.ended && s.prev == Window(seen) && seen != [] && seen <= log && base <= |seen|
    requires |s.sent| <= |seen| - base && Patient(s.fails, polls)
    ensures var f, last := Steps(s, Answers(log, polls)), LastShown(seen, log, polls);
            && base <= |last| && |f.sent| <= |last| - base
            && (s.sent == seen[base..] && NothingLost(seen, log, polls) ==> f.sent == last[base..])
            && (|s.sent| < |seen| - base || !NothingLost(seen, log, polls) ==> |f.sent| < |last| - base)
    decreases |polls|
  {
    hide Step, Window, Lossless;
    if polls != [] {
      var log' := log + polls[0].growth;
      var s' := Step(s, AnswerTo(log', polls[0].outcome));
      StepsOfAnswers(s, log, polls);
      if ShowsLines(log, polls[0]) {
        ShowingStep(s, seen, base, log');
        RunFrom(s', log', base, log', polls[1..]);
      } else {
        QuietStep(s, log', polls[0].outcome);
        RunFrom(s', seen, base, log', polls[1..]);
      }
    }
  }

  /** One non-empty answer keeps a complete run complete just when it loses no line. */
  lemma ShowingStep(s: State, seen: seq<Line>, base: nat, log: seq<Line>)
    requires !s.ended && s.prev == Window(seen) && log != [] && seen <= log && base <= |seen|
    requires |s.sent| <= |seen| - base
    ensures var s' := Step(s, Output(Window(log)));
            && !s'.ended && s'.prev == Window(log) && s'.fails == 0
            && |s'.sent| <= |log| - base
            && (s.sent == seen[base..] && Lossless(seen, log) ==> s'.sent == log[base..])
            && (|s.sent| < |seen| - base || !Lossless(seen, log) ==> |s'.sent| < |log| - base)
  {
    hide Overlap, Window, Lossless;
    EmitsAllIff(seen, log);
    EmitsOnlyNew(seen, log);
    assert log[base..] == log[base..|seen|] + log[|seen|..] && log[..|seen|] == seen;
  }

  /** A failure or an empty answer changes nothing but the count of failures. */
  lemma QuietStep(s: State, log: seq<Line>, outcome: Outcome)
    requires !s.ended && (outcome.Shows? ==> log == [])
    ensures var s' := Step(s, AnswerTo(log, outcome));
            && s'.prev == s.prev && s'.sent == s.sent
            && s'.fails == (if outcome.Fails? then s.fails + 1 else 0)
            && s'.ended == (outcome.Fails? && s.fails + 1 >= JOURNAL_RETRIES)
  {
    EmptyEmitsNothing(s.prev);
  }

  lemma EmptyEmitsNothing(prev: seq<Line>)
    ensures Emitted(prev, []) == []
  {
  }

  /**
   Whole runs over any log, with empty answers anywhere and never three failures in a row: the log
   from the first window on is sent with every line exactly once, if and only if no poll loses a line.
   */
  lemma {:induction false} ExactlyOnce(s: State, log: seq<Line>, polls: seq<Poll>)
    requires !s.ended && s.prev == [] && s.sent == [] && Patient(s.fails, polls)
    ensures SentOnce(s, log, polls) <==> NothingLost([], log, polls)
    decreases |polls|
  {
    if polls == [] {
      OnceWithoutPolls(s, log);
    } else if ShowsLines(log, polls[0]) {
      OnceFromFirst(s, log, polls);
    } else {
      hide SentOnce, NothingLost, AnswerTo, Step;
      var log' := log + polls[0].growth;
      OnceAfterQuiet(s, log, polls);
      QuietStep(s, log', polls[0].outcome);
      ExactlyOnce(Step(s, AnswerTo(log', polls[0].outcome)), log', polls[1..]);
    }
  }

  lemma OnceWithoutPolls(s: State, log: seq<Line>)
    requires s.sent == []
    ensures SentOnce(s, log, []) && NothingLost([], log, [])
  {
    hide Step, Overlap, Lossless;
    assert Steps(s, Answers(log, [])) == s;
  }

  /** An answer without lines leaves the rest of the run to decide. */
  lemma OnceAfterQuiet(s: State, log: seq<Line>, polls: seq<Poll>)
    requires polls != [] && !ShowsLines(log, polls[0])
    ensures var log' := log + polls[0].growth;
            SentOnce(s, log, polls) == SentOnce(Step(s, AnswerTo(log', polls[0].outcome)), log', polls[1..])
    ensures NothingLost([], log, polls) == NothingLost([], log + polls[0].growth, polls[1..])
  {
    var log', rest := log + polls[0].growth, polls[1..];
    hide Step, Overlap, Overlaps, Lossless, Window, AnswerTo, Steps, Answers;
    assert FirstShown(log, polls) == FirstShown(log', rest);
    assert LastShown([], log, polls) == LastShown([], log', rest);
    assert NothingLost([], log, polls) == NothingLost([], log', rest);
    hide FirstShown, LastShown, NothingLost;
    StepsOfAnswers(s, log, polls);
  }

  /** The run from its first non-empty answer on. */
  lemma OnceFromFirst(s: State, log: seq<Line>, polls: seq<Poll>)
    requires !s.ended && s.prev == [] && s.sent == [] && Patient(s.fails, polls)
    requires polls != [] && ShowsLines(log, polls[0])
    ensures SentOnce(s, log, polls) <==> NothingLost([], log, polls)
  {
    var log', rest := log + polls[0].growth, polls[1..];
    var s' := Step(s, Output(Window(log')));
    hide Step, Overlap, Overlaps, Window, Steps, Answers, Lossless;
    assert FirstShown(log, polls) == log';
    assert LastShown([], log, polls) == LastShown(log', log', rest);
    assert NothingLost([], log, polls) == NothingLost(log', log', rest);
    hide FirstShown, LastShown, NothingLost;
    StepsOfAnswers(s, log, polls);
    FirstAnswer(s, log');
    var base := |log'| - |Window(log')|;
    assert s'.prev == Window(log') && log' != [];
    assert |s'.sent| <= |log'| - base;
    assert Patient(s'.fails, rest);
    RunFrom(s', log', base, log', rest);
    var f, last := Steps(s, Answers(log, polls)).sent, LastShown([], log, polls);
    assert f == Steps(s', Answers(log', rest)).sent;
    assert f == last[base..] <==> NothingLost(log', log', rest);
    assert SentOnce(s, log, polls) <==> f == last[base..];
  }

  /** What the run sends is the log from the first window shown to the last, every line once and in order. */
  ghost predicate SentOnce(s: State, log: seq<Line>, polls: seq<Poll>) {
    var first, last := FirstShown(log, polls), LastShown([], log, polls);
    var base := |first| - |Window(first)|;
    base <= |last| && Steps(s, Answers(log, polls)).sent == last[base..]
  }

  /** Without repeated lines nothing is lost exactly when no gap between two non-empty answers exceeds one window. */
  lemma {:induction false} DistinctGaps(seen: seq<Line>, log: seq<Line>, polls: seq<Poll>)
    requires seen <= log && Distinct(LogAfter(log, polls))
    ensures NothingLost(seen, log, polls) <==> GapsFit(seen, log, polls)
    decreases |polls|
  {
    hide Distinct, Lossless;
    if polls != [] {
      var log' := log + polls[0].growth;
      DistinctPrefix(log', LogAfter(log', polls[1..]));
      DistinctLossless(seen, log');
      DistinctGaps(if ShowsLines(log, polls[0]) then log' else seen, log', polls[1..]);
    }
  }

  lemma DistinctPrefix(a: seq<Line>, b: seq<Line>)
    requires a <= b && Distinct(b)
    ensures Distinct(a)
  {
    assert forall i :: 0 <= i < |a| ==> a[i] == b[i];
  }

  lemma FirstAnswer(s: State, log: seq<Line>)
    requires !s.ended && s.prev == [] && s.sent == [] && log != []
    ensures var s' := Step(s, Output(Window(log)));
            s'.sent == log[|log| - |Window(log)|..] && s'.prev == Window(log) && !s'.ended && s'.fails == 0
  {
    var w := Window(log);
    assert w == log[|log| - |w|..];
    assert w[0..] == w;
  }

  /** With repeated lines a full window may hide new ones: here every one of them is lost. */
  lemma RepeatedLinesAreLost(before: seq<Line>, n: nat)
    requires |before| == JOURNAL_LINES && forall i :: 0 <= i < |before| ==> before[i] == before[0]
    ensures Emitted(Window(before), Window(before + seq(n, _ => before[0]))) == []
  {
    hide Overlap, Emitted;
    var after := before + seq(n, _ => before[0]);
    assert forall i :: 0 <= i < |after| ==> after[i] == before[0];
    assert Window(after) == before;
    NothingAfterItself(before);
  }

  lemma NothingAfterItself(a: seq<Line>)
    ensures Emitted(a, a) == []
  {
    assert a[|a| - |a|..] == a[..|a|];
    assert Overlaps(a, a, |a|);
  }
}
