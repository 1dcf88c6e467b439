/**
 The discovery cycle: at most one discovery runs at a time, a failed one never replaces the list that
 is shown, and results that arrive late are dropped.
 */
module Discovery {
  import opened Strings

  /** The result of one cycle; `err` is set when it failed or ran out of time, and `result` may then be partial. */
  datatype Msg<R, E> = Msg(seqNo: nat, result: R, err: Option<E>)

  datatype Outcome<R, E> = Outcome(applied: nat, result: R, err: Option<E>, stale: bool, startHostReq: bool)

  function Reconcile<R, E>(applied: nat, cur: R, curErr: Option<E>, msg: Msg<R, E>): (o: Outcome<R, E>)
    ensures o.applied >= applied && o.applied >= msg.seqNo && (o.applied == applied || o.applied == msg.seqNo)
    ensures o.stale <==> msg.seqNo < o.applied
    ensures o.startHostReq <==> !o.stale && msg.err.None?
    ensures o.startHostReq ==> o.result == msg.result
    ensures !o.startHostReq ==> o.result == cur
  {
    if msg.seqNo < applied then Outcome(applied, cur, curErr, true, false)
    else Outcome(msg.seqNo, if msg.err.None? then msg.result else cur, msg.err, false, msg.err.None?)
  }

  // ---- Reconcile alone, under any order of delivery ----

  /** What is held: the newest cycle taken in, its error, and the list. */
  datatype Held<R, E> = Held(applied: nat, result: R, err: Option<E>)

  function Take<R, E>(h: Held<R, E>, msg: Msg<R, E>): Held<R, E> {
    var o := Reconcile(h.applied, h.result, h.err, msg);
    if o.stale then h else Held(o.applied, o.result, o.err)
  }

  function TakeAll<R, E>(h: Held<R, E>, msgs: seq<Msg<R, E>>): Held<R, E> {
    if msgs == [] then h else Take(TakeAll(h, msgs[..|msgs| - 1]), msgs[|msgs| - 1])
  }

  /** No message delivered before number `i` belongs to a newer cycle. */
  predicate Newest<R, E>(msgs: seq<Msg<R, E>>, i: nat)
    requires i < |msgs|
  {
    forall k :: 0 <= k < i ==> msgs[k].seqNo <= msgs[i].seqNo
  }

  /** Message `i` was a success that nothing newer had overtaken. */
  predicate Holds<R, E>(msgs: seq<Msg<R, E>>, i: nat)
    requires i < |msgs|
  {
    Newest(msgs, i) && msgs[i].err.None?
  }

  /** The last delivery that held, if any: an index, by looking backwards over the deliveries. */
  function LastHolding<R, E>(msgs: seq<Msg<R, E>>, n: nat): (i: int)
    requires n <= |msgs|
    ensures -1 <= i < n
    ensures i >= 0 ==> Holds(msgs, i)
    ensures forall k :: i < k < n ==> !Holds(msgs, k)
  {
    if n == 0 then -1
    else if Holds(msgs, n - 1) then n - 1
    else LastHolding(msgs, n - 1)
  }

  /** The last delivery that was not overtaken. */
  function LastNewest<R, E>(msgs: seq<Msg<R, E>>, n: nat): (i: int)
    requires n <= |msgs|
    ensures -1 <= i < n
    ensures i >= 0 ==> Newest(msgs, i)
    ensures forall k :: i < k < n ==> !Newest(msgs, k)
  {
    if n == 0 then -1
    else if Newest(msgs, n - 1) then n - 1
    else LastNewest(msgs, n - 1)
  }

  /** `n` is the newest cycle among the messages, 0 when there is none. */
  predicate IsNewestSeq<R, E>(msgs: seq<Msg<R, E>>, n: nat) {
    && (forall k :: 0 <= k < |msgs| ==> msgs[k].seqNo <= n)
    && (n == 0 || exists k :: 0 <= k < |msgs| && msgs[k].seqNo == n)
  }

  /**
   Whatever the order of delivery: the newest cycle delivered counts as taken in, the list is that of
   the last success no newer delivery had overtaken, and the error that of the last cycle not overtaken.
   */
  lemma {:induction false} HeldIs<R, E>(empty: R, msgs: seq<Msg<R, E>>)
    ensures var h := TakeAll(Held(0, empty, None), msgs);
            var i := LastHolding(msgs, |msgs|);
            var j := LastNewest(msgs, |msgs|);
            && IsNewestSeq(msgs, h.applied)
            && h.result == (if i < 0 then empty else msgs[i].result)
            && h.err == (if j < 0 then None else msgs[j].err)
  {
    if msgs != [] {
      var init := msgs[..|msgs| - 1];
      var n, last := |init|, msgs[|init|];
      var h := TakeAll(Held(0, empty, None), init);
      HeldIs(empty, init);
      SamePrefix(msgs, n);
      NewestTaken(empty, msgs);
      NewestIffSeq(msgs, h.applied);
      assert LastHolding(msgs, n + 1) == if Newest(msgs, n) && last.err.None? then n else LastHolding(init, n);
      assert LastNewest(msgs, n + 1) == if Newest(msgs, n) then n else LastNewest(init, n);
      assert TakeAll(Held(0, empty, None), msgs) == Take(h, last);
      hide Newest, IsNewestSeq, LastHolding, LastNewest, TakeAll;
    }
  }

  lemma {:induction false} NewestTaken<R, E>(empty: R, msgs: seq<Msg<R, E>>)
    ensures IsNewestSeq(msgs, TakeAll(Held(0, empty, None), msgs).applied)
  {
    if msgs != [] {
      var init := msgs[..|msgs| - 1];
      NewestTaken(empty, init);
      var a := TakeAll(Held(0, empty, None), init).applied;
      if a > 0 {
        var k :| 0 <= k < |init| && init[k].seqNo == a;
        assert msgs[k].seqNo == a;
      }
    }
  }

  lemma NewestIffSeq<R, E>(msgs: seq<Msg<R, E>>, n: nat)
    requires msgs != [] && IsNewestSeq(msgs[..|msgs| - 1], n)
    ensures Newest(msgs, |msgs| - 1) <==> msgs[|msgs| - 1].seqNo >= n
  {
    var init := msgs[..|msgs| - 1];
    assert forall k :: 0 <= k < |init| ==> init[k] == msgs[k];
  }

  lemma {:induction false} SamePrefix<R, E>(msgs: seq<Msg<R, E>>, n: nat)
    requires n < |msgs|
    ensures LastHolding(msgs[..|msgs| - 1], n) == LastHolding(msgs, n)
    ensures LastNewest(msgs[..|msgs| - 1], n) == LastNewest(msgs, n)
  {
    if n > 0 {
      SamePrefix(msgs, n - 1);
      var init := msgs[..|msgs| - 1];
      assert Newest(init, n - 1) == Newest(msgs, n - 1) by {
        assert forall k :: 0 <= k < n ==> init[k] == msgs[k];
      }
    }
  }

  /** No delivery moves anything back: neither the cycle taken in nor the cycle whose list is held. */
  lemma NeverBackwards<R, E>(empty: R, msgs: seq<Msg<R, E>>)
    requires msgs != []
    ensures TakeAll(Held(0, empty, None), msgs[..|msgs| - 1]).applied <= TakeAll(Held(0, empty, None), msgs).applied
    ensures var i, j := LastHolding(msgs[..|msgs| - 1], |msgs| - 1), LastHolding(msgs, |msgs|);
            i >= 0 ==> i <= j && msgs[i].seqNo <= msgs[j].seqNo
  {
    SamePrefix(msgs, |msgs| - 1);
  }

  /**
   The result of a delivery is held afterwards exactly when it succeeded and was not overtaken, unless the
   old list was the same.
   */
  lemma HeldIff<R, E>(empty: R, msgs: seq<Msg<R, E>>, msg: Msg<R, E>)
    ensures var before := TakeAll(Held(0, empty, None), msgs);
            var after := TakeAll(Held(0, empty, None), msgs + [msg]);
            after.result == msg.result <==>
            ((msg.err.None? && forall m :: m in msgs ==> m.seqNo <= msg.seqNo) || before.result == msg.result)
  {
    assert (msgs + [msg])[..|msgs|] == msgs;
    HeldIs(empty, msgs);
    var a := TakeAll(Held(0, empty, None), msgs).applied;
    if msg.seqNo < a {
      var k :| 0 <= k < |msgs| && msgs[k].seqNo == a;
      assert msgs[k] in msgs;
    }
  }

  // ---- The state machine ----

  datatype Cycle<R, E> = Cycle(inflight: nat, seqNo: nat, held: Held<R, E>)

  function Started<R, E>(c: Cycle<R, E>): Cycle<R, E> {
    if c.inflight > 0 then c else c.(inflight := 1, seqNo := c.seqNo + 1)
  }

  function Applied<R, E>(c: Cycle<R, E>, msg: Msg<R, E>): Cycle<R, E> {
    c.(inflight := if c.inflight > 0 then c.inflight - 1 else 0, held := Take(c.held, msg))
  }

  class State<R, E> {
    var inflight: nat
    var seqNo: nat
    var applied: nat
    var result: R
    var err: Option<E>

    constructor (empty: R)
      ensures Value() == Cycle(0, 0, Held(0, empty, None))
    {
      inflight, seqNo, applied, result, err := 0, 0, 0, empty, None;
    }

    ghost function Value(): Cycle<R, E>
      reads this
    {
      Cycle(inflight, seqNo, Held(applied, result, err))
    }

    predicate Busy()
      reads this
    {
      inflight > 0
    }

    /** Starts a cycle unless one is running; the command carries the cycle's number. */
    method Start() returns (cmd: Option<nat>)
      modifies this`inflight, this`seqNo
      ensures Value() == Started(old(Value()))
      ensures cmd == if old(inflight) > 0 then None else Some(old(seqNo) + 1)
    {
      if Busy() {
        return None;
      }
      inflight := inflight + 1;
      seqNo := seqNo + 1;
      return Some(seqNo);
    }

    /** One period of the automatic refresh; the next tick is booked whether or not a cycle starts. */
    method OnTick() returns (cmd: Option<nat>, booked: bool)
      modifies this`inflight, this`seqNo
      ensures Value() == Started(old(Value())) && booked
      ensures cmd == if old(inflight) > 0 then None else Some(old(seqNo) + 1)
    {
      cmd := Start();
      booked := true;
    }

    method Apply(msg: Msg<R, E>) returns (out: Outcome<R, E>)
      modifies this`inflight, this`applied, this`result, this`err
      ensures Value() == Applied(old(Value()), msg)
      ensures out == Reconcile(old(applied), old(result), old(err), msg)
    {
      if inflight > 0 {
        inflight := inflight - 1;
      }
      out := Reconcile(applied, result, err, msg);
      if out.stale {
        return;
      }
      applied, result, err := out.applied, out.result, out.err;
    }
  }

  // ---- The protocol ----

  /** The state, the commands started and not yet answered, the ticks booked, and every answer so far. */
  datatype World<R, E> = World(cycle: Cycle<R, E>, outstanding: seq<nat>, ticks: nat, done: seq<Msg<R, E>>)

  /** A booked tick fires, the user refreshes by hand, or some outstanding command answers. */
  datatype Event<R, E> = Tick | Refresh | Deliver(which: nat, result: R, err: Option<E>)

  predicate Enabled<R, E>(w: World<R, E>, e: Event<R, E>) {
    match e
    case Tick => w.ticks > 0
    case Refresh => true
    case Deliver(which, _, _) => which < |w.outstanding|
  }

  /** The world after a start was tried: the command it hands out is outstanding from then on. */
  function AfterStart<R, E>(w: World<R, E>): World<R, E> {
    w.(cycle := Started(w.cycle),
       outstanding := w.outstanding + if w.cycle.inflight > 0 then [] else [w.cycle.seqNo + 1])
  }

  function Answer<R, E>(w: World<R, E>, e: Event<R, E>): Msg<R, E>
    requires e.Deliver? && Enabled(w, e)
  {
    Msg(w.outstanding[e.which], e.result, e.err)
  }

  function Step<R, E>(w: World<R, E>, e: Event<R, E>): World<R, E>
    requires Enabled(w, e)
  {
    match e
    case Tick =>
      var started := AfterStart(w.(ticks := w.ticks - 1));
      started.(ticks := started.ticks + 1)
    case Refresh => AfterStart(w)
    case Deliver(which, _, _) =>
      var msg := Answer(w, e);
      World(Applied(w.cycle, msg), w.outstanding[..which] + w.outstanding[which + 1..], w.ticks, w.done + [msg])
  }

  /** Programs start with one tick booked and an empty list. */
  function Initial<R, E>(empty: R): World<R, E> {
    World(Cycle(0, 0, Held(0, empty, None)), [], 1, [])
  }

  ghost predicate Run<R, E>(w: World<R, E>, events: seq<Event<R, E>>, end: World<R, E>)
    decreases |events|
  {
    if events == [] then end == w
    else Enabled(w, events[0]) && Run(Step(w, events[0]), events[1..], end)
  }

  /** The list of the latest successful cycle. */
  function LastGood<R, E>(empty: R, done: seq<Msg<R, E>>): R {
    if done == [] then empty
    else if done[|done| - 1].err.None? then done[|done| - 1].result
    else LastGood(empty, done[..|done| - 1])
  }

  /**
   The commands outstanding are counted exactly and never exceed one; the cycles answered are exactly
   1, 2, 3, …, in this order; the list held is that of the latest successful one; a tick stays booked.
   */
  ghost predicate Inv<R, E>(w: World<R, E>, empty: R) {
    var c := w.cycle;
    && c.inflight == |w.outstanding| <= 1
    && c.held.applied == |w.done| == c.seqNo - c.inflight
    && (c.inflight == 1 ==> w.outstanding[0] == c.seqNo)
    && (forall i :: 0 <= i < |w.done| ==> w.done[i].seqNo == i + 1)
    && c.held.result == LastGood(empty, w.done)
    && c.held.err == (if w.done == [] then None else w.done[|w.done| - 1].err)
    && w.ticks == 1
  }

  lemma StepKeeps<R, E>(w: World<R, E>, empty: R, e: Event<R, E>)
    requires Inv(w, empty) && Enabled(w, e)
    ensures Inv(Step(w, e), empty)
  {
    if e.Deliver? {
      assert Step(w, e).done[..|w.done|] == w.done;
    }
  }

  /** The invariant holds after every interleaving of ticks, refreshes and answers. */
  lemma {:induction false} EveryRunKeeps<R, E>(w: World<R, E>, empty: R, events: seq<Event<R, E>>, end: World<R, E>)
    requires Inv(w, empty) && Run(w, events, end)
    ensures Inv(end, empty)
    decreases |events|
  {
    if events != [] {
      StepKeeps(w, empty, events[0]);
      EveryRunKeeps(Step(w, events[0]), empty, events[1..], end);
    }
  }

  lemma FromTheStart<R, E>(empty: R, events: seq<Event<R, E>>, end: World<R, E>)
    requires Run(Initial(empty), events, end)
    ensures Inv(end, empty)
    ensures |end.outstanding| <= 1 && end.cycle.held.applied <= end.cycle.seqNo
  {
    EveryRunKeeps(Initial(empty), empty, events, end);
  }

  /** In every run an answer is never stale, and one that failed leaves the list as it was. */
  lemma AnswersCount<R, E>(empty: R, events: seq<Event<R, E>>, w: World<R, E>, e: Event<R, E>)
    requires Run(Initial(empty), events, w) && e.Deliver? && Enabled(w, e)
    ensures var h := w.cycle.held;
            var o := Reconcile(h.applied, h.result, h.err, Answer(w, e));
            !o.stale && o.result == if e.err.None? then e.result else h.result
  {
    FromTheStart(empty, events, w);
  }

  /** Message `i` succeeded and every cycle after it failed; -1 stands for no success at all. */
  predicate LatestSuccess<R, E>(done: seq<Msg<R, E>>, i: int) {
    && -1 <= i < |done|
    && (i >= 0 ==> done[i].err.None?)
    && forall k :: i < k < |done| ==> done[k].err.Some?
  }

  lemma {:induction false} LastGoodIsLatest<R, E>(empty: R, done: seq<Msg<R, E>>, i: int)
    requires LatestSuccess(done, i)
    ensures LastGood(empty, done) == if i < 0 then empty else done[i].result
    decreases |done|
  {
    if done != [] && i < |done| - 1 {
      LastGoodIsLatest(empty, done[..|done| - 1], i);
    }
  }

  /** After any run the list held is that of the latest successful cycle, or the first one while none succeeded. */
  lemma HoldsTheLatestSuccess<R, E>(empty: R, events: seq<Event<R, E>>, end: World<R, E>, i: int)
    requires Run(Initial(empty), events, end) && LatestSuccess(end.done, i)
    ensures end.cycle.held.result == if i < 0 then empty else end.done[i].result
  {
    FromTheStart(empty, events, end);
    LastGoodIsLatest(empty, end.done, i);
  }

  /** A refresh can always go on: while nothing is outstanding it starts a new cycle, and the tick is always there. */
  lemma NeverStops<R, E>(empty: R, events: seq<Event<R, E>>, w: World<R, E>)
    requires Run(Initial(empty), events, w)
    ensures Enabled(w, Tick)
    ensures var after := Step(w, Tick);
            if w.outstanding == [] then after.outstanding == [w.cycle.seqNo + 1] else after.outstanding == w.outstanding
  {
    FromTheStart(empty, events, w);
  }

  /** Whatever an answer brings, overtaken or not, it counts as one cycle less in flight, and never below none. */
  lemma {:induction false} CountsDown<R, E>(c: Cycle<R, E>, msgs: seq<Msg<R, E>>)
    ensures AppliedAll(c, msgs).inflight == if |msgs| < c.inflight then c.inflight - |msgs| else 0
    ensures AppliedAll(c, msgs).seqNo == c.seqNo && AppliedAll(c, msgs).held == TakeAll(c.held, msgs)
  {
    if msgs != [] {
      CountsDown(c, msgs[..|msgs| - 1]);
    }
  }

  function AppliedAll<R, E>(c: Cycle<R, E>, msgs: seq<Msg<R, E>>): Cycle<R, E> {
    if msgs == [] then c else Applied(AppliedAll(c, msgs[..|msgs| - 1]), msgs[|msgs| - 1])
  }
}
