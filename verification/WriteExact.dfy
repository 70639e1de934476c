/** The guards of the write protocol's promises are exact: a step that breaks one can, wherever
    in a run it is taken, be continued to the failure. A store that is lost, a page that no
    store can reach, a report that is dropped.
 */
module WriteExact {
  import opened Modular
  import opened WriteProtocol
  import opened WriteInvariant
  import opened WriteAlways
  import opened WriteTheorems
  import opened WriteRuns

  // ---- the guards are exact ---------------------------------------------------------------

  /** A store to p went through although p is protected, and nothing will report it. */
  ghost predicate Lost(s: State, p: nat) {
    p in s.shielded && ArmingFinished(s, p) && p in s.written && !Pending(s, p)
  }

  /** A protected page that is tracked and writable, with the owner at rest, is one store
      away from being lost. */
  lemma StoreLoses(s: State, m: State, p: nat)
    requires Always(s) && Reaches(s, m, Plain()) && m.owner == Resting
    requires p in m.shielded && p in m.tracked && p !in m.readOnly
    ensures exists n :: Reaches(s, n, Plain()) && Lost(n, p)
  {
    hide Reaches, Shape, Tokens;
    Go(s, m, Store(p), Plain());
    var n := m.(written := m.written + {p});
    ReachesAlways(s, n, Plain());
    ShieldFacts(n, p);
    OpenIsNotPending(n, p);
  }

  /** An ArmFault that gives up with a marked page still writable loses a store to it. */
  lemma AbortLoses(s: State, p: nat)
    requires Always(s) && Enabled(s, Abort) && p in s.shielded && p !in s.readOnly
    ensures exists n :: Reaches(Apply(s, Abort), n, Plain()) && Lost(n, p)
  {
    hide Reaches, Shape, Tokens;
    var b, ok := Apply(s, Abort), Plain();
    AlwaysStep(s, Abort);
    ShieldFacts(s, p);
    OnePage(p);
    Start(b, ok);
    Go(b, b, Scan(p, p + 1), ok);
    Go(b, b.(owner := Scanning(p, p + 1, p)), Advance, ok);
    Go(b, b.(owner := Scanning(p, p + 1, p + 1)), Advance, ok);
    StoreLoses(b, b.(tracked := b.tracked + {p}), p);
  }

  /** ArmFault has finished: the owner is at rest, the batch is protected, the range tracked. */
  ghost predicate Finished(m: State, n: State)
    requires m.owner.Marking?
  {
    && n.owner == Resting && n.writers == m.writers && n.queued == m.queued && m.shielded <= n.shielded
    && m.readOnly + Batch(m.owner.run, m.owner.at) <= n.readOnly
    && n.tracked == m.tracked + Pages(m.owner.first, m.owner.end)
  }

  /** Left to itself ArmFault comes to its end. */
  lemma {:induction false} OwnerFinishes(s: State, m: State, allow: Step -> bool)
    requires Reaches(s, m, allow) && m.owner.Marking? && allow(Advance)
    requires m.owner.run == 0 || m.owner.run < m.owner.at
    ensures exists n :: Reaches(s, n, allow) && Finished(m, n)
    decreases if m.owner.at < m.owner.end then m.owner.end - m.owner.at else 0
  {
    hide Reaches, Pages;
    var Marking(first, end, at, run) := m.owner;
    var k := OwnerStep(m);
    Go(s, m, Advance, allow);
    if at < end {
      OwnerFinishes(s, k, allow);
      var n :| Reaches(s, n, allow) && Finished(k, n);
      if k.owner.run != 0 {
        BatchGrows(run, at);
      }
      assert Finished(m, n);
    } else {
      assert Finished(m, k);
    }
  }

  lemma BatchGrows(run: nat, at: nat)
    requires run == 0 || run < at
    ensures Batch(run, at) <= Batch(if run == 0 then at else run, at + 1)
  {
    if run != 0 {
      PagesSnoc(run, at);
    }
  }

  /** A host write has opened page p; otherwise p and the other threads are as before. */
  ghost predicate Flushed(m: State, n: State, t: nat, p: nat)
    requires t < |m.writers|
  {
    && n.owner == m.owner && n.tracked == m.tracked && |n.writers| == |m.writers|
    && (forall u :: 0 <= u < |m.writers| && u != t ==> n.writers[u] == m.writers[u])
    && p !in n.readOnly && p !in Unopened(n.writers[t]) && !n.writers[t].Opening?
    && (p in n.shielded <==> p in m.shielded) && m.queued <= n.queued
  }

  function Remaining(end: nat, at: nat): nat {
    if at < end then 2 + 3 * (end - at) else 2
  }

  /** How many actions a host write takes at most until it opens its batch. */
  function ToFlush(w: Writer): nat {
    match w
    case HostFlush(end, at, run) => 1
    case HostScan(end, at, run) => Remaining(end, at)
    case HostFill(end, at, run, slot) => Remaining(end, at + 1) + 1
    case HostClaim(end, at, run) => Remaining(end, at + 1) + 2
    case _ => 0
  }

  /** Left to itself a host write opens the pages it has exchanged. */
  lemma {:induction false} HostFlushes(s: State, m: State, t: nat, p: nat, allow: Step -> bool)
    requires Reaches(s, m, allow) && t < |m.writers| && p in Unopened(m.writers[t]) && HostShape(m.writers[t])
    requires allow(Thread(t))
    ensures exists n :: Reaches(s, n, allow) && Flushed(m, n, t, p)
    decreases ToFlush(m.writers[t])
  {
    hide Reaches;
    var w, k := m.writers[t], ThreadStep(m, t);
    Go(s, m, Thread(t), allow);
    if w.HostFlush? {
      assert Unopened(k.writers[t]) == {};
      assert Flushed(m, k, t, p);
    } else {
      HostGoesOn(m, t, p);
      HostFlushes(s, k, t, p, allow);
      var n :| Reaches(s, n, allow) && Flushed(k, n, t, p);
      assert Flushed(m, n, t, p);
    }
  }

  lemma HostGoesOn(m: State, t: nat, p: nat)
    requires t < |m.writers| && p in Unopened(m.writers[t]) && HostShape(m.writers[t]) && !m.writers[t].HostFlush?
    ensures var k := ThreadStep(m, t);
            && p in Unopened(k.writers[t]) && HostShape(k.writers[t])
            && ToFlush(k.writers[t]) < ToFlush(m.writers[t])
            && (p in k.shielded <==> p in m.shielded) && m.queued <= k.queued
            && k.owner == m.owner && k.tracked == m.tracked
  {
    var w := m.writers[t];
    if w.HostScan? {
      assert p != w.at by {
        PagesMember(w.run, w.at, p);
      }
      BatchSnoc(w.run, w.at);
    }
  }

  /** An ArmFault that marks a page which a host write has yet to open loses a store to it. */
  lemma MarkLoses(s: State, t: nat)
    requires Always(s) && MarksOpen(s, Advance) && t < |s.writers| && s.owner.at in Unopened(s.writers[t])
    ensures exists n :: Reaches(OwnerStep(s), n, Plain()) && Lost(n, s.owner.at)
  {
    hide Reaches, Shape, Tokens, Pages;
    var p, b, ok := s.owner.at, OwnerStep(s), Plain();
    assert Enabled(s, Advance);
    AlwaysStep(s, Advance);
    MarkingShape(s);
    HostShapeAt(s, t);
    Start(b, ok);
    OwnerFinishes(b, b, ok);
    var m :| Reaches(b, m, ok) && Finished(b, m);
    PagesMember(s.owner.first, s.owner.end, p);
    HostFlushes(b, m, t, p, ok);
    var n :| Reaches(b, n, ok) && Flushed(m, n, t, p);
    StoreLoses(b, n, p);
  }

  lemma MarkingShape(s: State)
    requires Shape(s) && s.owner.Marking?
    ensures s.owner.first <= s.owner.at <= s.owner.end && (s.owner.run == 0 || s.owner.run < s.owner.at)
  {
  }

  lemma HostShapeAt(s: State, t: nat)
    requires Shape(s) && t < |s.writers|
    ensures HostShape(s.writers[t])
  {
  }

  /** Wherever a run takes a step that is not PageSafe, it can go on to a store that is lost:
      the guard of ProtectedIsReadOnly and NoLostWrite excludes nothing harmless. */
  lemma UnsafeStepLoses(init: State, steps: seq<Step>, step: Step)
    requires Init(init) && Possible(init, steps) && Enabled(Exec(init, steps), step)
    requires !PageSafe(Exec(init, steps), step)
    ensures exists n, p: nat :: Reaches(Apply(Exec(init, steps), step), n, Plain()) && Lost(n, p)
  {
    hide Reaches, Shape, Tokens, Lost;
    InitAlways(init);
    AlwaysRun(init, steps);
    var s := Exec(init, steps);
    if step.Abort? {
      var p: nat :| p in s.shielded && p !in s.readOnly;
      AbortLoses(s, p);
    } else {
      var t: nat :| t < |s.writers| && s.owner.at in Unopened(s.writers[t]);
      MarkLoses(s, t);
    }
  }

  // ---- a late fault --------------------------------------------------------------

  /** Page p is open in the tracker's eyes but read-only on the host, and nobody is about
      to open it: every store faults, and the handler only asks for another try. */
  ghost predicate Stuck(s: State, p: nat) {
    && p in s.readOnly && p !in s.shielded
    && (s.owner.Marking? || s.owner.Checking? || s.owner.Disarming? ==> s.owner.first <= s.owner.at)
    && !(s.owner.Marking? && In(s.owner.first, p, s.owner.end))
    && !(s.owner.Checking? && In(s.owner.first, p, s.owner.end))
    && !(s.owner.Disarming? && In(s.owner.first, p, s.owner.end))
    && forall t :: 0 <= t < |s.writers| ==> s.writers[t] != Opening(p) && p !in Unopened(s.writers[t])
  }

  /** A run that never arms or disarms page p again. */
  predicate Leaves(steps: seq<Step>, p: nat) {
    forall i :: 0 <= i < |steps| ==>
                  && (steps[i].Arm? ==> !In(steps[i].first, p, steps[i].end))
                  && (steps[i].Disarm? ==> !In(steps[i].first, p, steps[i].end))
  }

  lemma StuckThread(s: State, t: nat, p: nat)
    requires Stuck(s, p) && t < |s.writers| && HostShape(s.writers[t])
    ensures Stuck(ThreadStep(s, t), p)
  {
    var w, n := s.writers[t], ThreadStep(s, t);
    if w.HostScan? {
      BatchSnoc(w.run, w.at);
    } else if w.HostFlush? {
      assert Unopened(n.writers[t]) == {};
    }
    assert p !in Unopened(n.writers[t]);
    forall u | 0 <= u < |n.writers| ensures n.writers[u] != Opening(p) && p !in Unopened(n.writers[u]) {
      assert u != t ==> n.writers[u] == s.writers[u];
    }
  }

  predicate HostShapes(s: State) {
    forall t :: 0 <= t < |s.writers| ==> HostShape(s.writers[t])
  }

  lemma HostShapesKept(s: State, step: Step)
    requires HostShapes(s) && Enabled(s, step)
    ensures HostShapes(Apply(s, step))
  {
    if step.Thread? {
      forall u | 0 <= u < |s.writers| ensures HostShape(ThreadStep(s, step.t).writers[u]) {
        assert HostShape(s.writers[u]);
      }
    }
  }

  lemma StuckStep(s: State, step: Step, p: nat)
    requires Stuck(s, p) && HostShapes(s) && Enabled(s, step) && Leaves([step], p)
    ensures Stuck(Apply(s, step), p)
  {
    assert Leaves([step], p) ==> [step][0] == step;
    if step.Thread? {
      StuckThread(s, step.t, p);
    } else if step.Advance? {
      StuckOwner(s, p);
    }
  }

  lemma StuckOwner(s: State, p: nat)
    requires Stuck(s, p) && Enabled(s, Advance)
    ensures Stuck(OwnerStep(s), p)
  {
  }

  /** A stuck page stays stuck: whatever faults, host writes, stores and collections
      follow, no store to it completes until it is armed or disarmed again. */
  lemma {:induction false} StuckForever(s: State, steps: seq<Step>, p: nat)
    requires Stuck(s, p) && HostShapes(s) && Possible(s, steps) && Leaves(steps, p)
    ensures Stuck(Exec(s, steps), p) && !Enabled(Exec(s, steps), Store(p))
    decreases |steps|
  {
    if steps != [] {
      assert Leaves([steps[0]], p);
      StuckStep(s, steps[0], p);
      HostShapesKept(s, steps[0]);
      StuckForever(Apply(s, steps[0]), steps[1..], p);
    }
  }

  // ---- when no page sticks --------------------------------------------------------------

  /** A thread exchanges a page that ArmFault has marked and not yet protected. */
  predicate LateExchange(s: State, step: Step) {
    && step.Thread? && step.t < |s.writers|
    && match s.writers[step.t]
       case Faulted(p) => p in s.shielded && InBatch(s.owner, p)
       case HostScan(end, at, run) => at < end && at in s.shielded && InBatch(s.owner, at)
       case _ => false
  }

  predicate InTime(s: State, step: Step) {
    !LateExchange(s, step)
  }

  predicate Opens(w: Writer, p: nat) {
    w == Opening(p) || p in Unopened(w)
  }

  predicate Reopens(o: Owner, p: nat) {
    o.Disarming? && In(o.first, p, o.end)
  }

  /** Every read-only page is protected, about to be opened by the thread that exchanged
      it, or in the range being disarmed; and what ArmFault is about to protect is marked. */
  ghost predicate Attended(s: State) {
    && (forall p :: p in s.readOnly ==>
          p in s.shielded || Reopens(s.owner, p) || exists t :: 0 <= t < |s.writers| && Opens(s.writers[t], p))
    && (s.owner.Marking? ==> Batch(s.owner.run, s.owner.at) <= s.shielded)
  }

  lemma AttendedNotStuck(s: State, p: nat)
    requires Attended(s)
    ensures !Stuck(s, p)
  {
  }

  /** The page a thread opens or has exchanged is still in its care, or has been opened. */
  lemma ThreadCares(s: State, t: nat, p: nat)
    requires Shape(s) && t < |s.writers| && p in ThreadStep(s, t).readOnly
    requires Opens(s.writers[t], p) || (p in s.shielded && p !in ThreadStep(s, t).shielded)
    ensures Opens(ThreadStep(s, t).writers[t], p)
  {
    HostShapeAt(s, t);
    if s.writers[t].HostScan? {
      BatchSnoc(s.writers[t].run, s.writers[t].at);
    }
  }

  lemma ThreadAttended(s: State, t: nat)
    requires Shape(s) && Attended(s) && t < |s.writers|
    ensures Attended(ThreadStep(s, t)) <==> !LateExchange(s, Thread(t))
  {
    var n := ThreadStep(s, t);
    forall p | p in n.readOnly
      ensures p in n.shielded || Reopens(n.owner, p) || exists u :: 0 <= u < |n.writers| && Opens(n.writers[u], p)
    {
      ThreadKeepsCare(s, t, p);
    }
    ThreadBatch(s, t);
  }

  lemma ThreadKeepsCare(s: State, t: nat, p: nat)
    requires Shape(s) && Attended(s) && t < |s.writers| && p in ThreadStep(s, t).readOnly
    ensures var n := ThreadStep(s, t);
            p in n.shielded || Reopens(n.owner, p) || exists u :: 0 <= u < |n.writers| && Opens(n.writers[u], p)
  {
    hide Shape, Opens, Unopened;
    var n := ThreadStep(s, t);
    assert p in s.readOnly && n.owner == s.owner;
    if (p in s.shielded && p !in n.shielded) || Opens(s.writers[t], p) {
      ThreadCares(s, t, p);
    } else if p !in s.shielded && !Reopens(s.owner, p) {
      var u :| 0 <= u < |s.writers| && Opens(s.writers[u], p);
      assert n.writers[u] == s.writers[u];
    }
  }

  lemma ThreadBatch(s: State, t: nat)
    requires t < |s.writers| && (s.owner.Marking? ==> Batch(s.owner.run, s.owner.at) <= s.shielded)
    ensures (s.owner.Marking? ==> Batch(s.owner.run, s.owner.at) <= ThreadStep(s, t).shielded) <==>
            !LateExchange(s, Thread(t))
  {
    if s.owner.Marking? {
      var w := s.writers[t];
      PagesMember(s.owner.run, s.owner.at, if w.Faulted? then w.page else if w.HostScan? then w.at else 0);
    }
  }

  lemma OwnerAttended(s: State)
    requires Shape(s) && Attended(s) && Enabled(s, Advance)
    ensures Attended(OwnerStep(s))
  {
    hide Pages, Unopened;
    PagesAll();
    var n := OwnerStep(s);
    if s.owner.Marking? && s.owner.at > 0 {
      BatchSnoc(s.owner.run, s.owner.at);
    }
    forall p | p in n.readOnly
      ensures p in n.shielded || Reopens(n.owner, p) || exists t :: 0 <= t < |n.writers| && Opens(n.writers[t], p)
    {
      if p in s.readOnly && p !in s.shielded && !Reopens(s.owner, p) {
        var t :| 0 <= t < |s.writers| && Opens(s.writers[t], p);
        assert Opens(n.writers[t], p);
      }
    }
  }

  lemma OtherAttended(s: State, step: Step)
    requires Attended(s) && Enabled(s, step) && !step.Thread? && !step.Advance?
    ensures Attended(Apply(s, step))
  {
    hide Pages;
    var n := Apply(s, step);
    forall p | p in n.readOnly
      ensures p in n.shielded || Reopens(n.owner, p) || exists t :: 0 <= t < |n.writers| && Opens(n.writers[t], p)
    {
      if p !in s.shielded && !Reopens(s.owner, p) {
        var t :| 0 <= t < |s.writers| && Opens(s.writers[t], p);
        assert Opens(n.writers[t], p);
      }
    }
  }

  /** A step keeps every read-only page attended if and only if it is no late exchange. */
  lemma AttendedExact(s: State, step: Step)
    requires Always(s) && Attended(s) && Enabled(s, step)
    ensures Attended(Apply(s, step)) <==> InTime(s, step)
  {
    hide Shape, Tokens, Attended;
    if step.Thread? {
      ThreadAttended(s, step.t);
    } else if step.Advance? {
      OwnerAttended(s);
    } else {
      OtherAttended(s, step);
    }
  }

  lemma {:induction false} AttendedRun(s: State, steps: seq<Step>)
    requires Always(s) && Attended(s) && Possible(s, steps) && Obeys(s, steps, InTime)
    ensures Attended(Exec(s, steps))
    decreases |steps|
  {
    hide Always, Attended, InTime;
    if steps != [] {
      AlwaysStep(s, steps[0]);
      AttendedExact(s, steps[0]);
      AttendedRun(Apply(s, steps[0]), steps[1..]);
    }
  }

  /** In every run in which no thread exchanges a page of the batch being armed, no page is
      ever stuck. */
  lemma NoPageSticks(init: State, steps: seq<Step>, p: nat)
    requires Init(init) && Possible(init, steps) && Obeys(init, steps, InTime)
    ensures !Stuck(Exec(init, steps), p)
  {
    hide Always, Stuck;
    InitAlways(init);
    assert Attended(init);
    AttendedRun(init, steps);
    AttendedNotStuck(Exec(init, steps), p);
  }

  /** The first k threads have no page p left to open; otherwise p and the owner are as before. */
  ghost predicate Cleared(m: State, n: State, p: nat, k: nat) {
    && n.owner == m.owner && |n.writers| == |m.writers| && k <= |n.writers|
    && (forall u :: 0 <= u < k ==> p !in Unopened(n.writers[u]))
    && (forall u :: 0 <= u < |n.writers| && n.writers[u] == Opening(p) ==> m.writers[u] == Opening(p))
    && (p in n.shielded <==> p in m.shielded) && m.queued <= n.queued
  }

  /** Host writes that have exchanged page p can all open it before the owner goes on. */
  lemma {:induction false} FlushAll(s: State, m: State, p: nat, k: nat)
    requires Always(s) && Reaches(s, m, Plain()) && k <= |m.writers|
    ensures exists n :: Reaches(s, n, Plain()) && Cleared(m, n, p, k)
  {
    hide Reaches, Always;
    if k == 0 {
      assert Cleared(m, m, p, 0);
    } else {
      FlushAll(s, m, p, k - 1);
      var n :| Reaches(s, n, Plain()) && Cleared(m, n, p, k - 1);
      ReachesAlways(s, n, Plain());
      if p in Unopened(n.writers[k - 1]) {
        AlwaysShape(n);
        HostShapeAt(n, k - 1);
        HostFlushes(s, n, k - 1, p, Plain());
        var o :| Reaches(s, o, Plain()) && Flushed(n, o, k - 1, p);
        assert Cleared(m, o, p, k);
      } else {
        assert Cleared(m, n, p, k);
      }
    }
  }

  /** The exchanging thread, if it came from a fault, opens the page before the owner goes on. */
  lemma ExchangedOpens(s: State, t: nat, p: nat)
    requires Always(s) && LateExchange(s, Thread(t)) && p == Token(ThreadStep(s, t).writers[t])
    ensures exists m :: Reaches(ThreadStep(s, t), m, Plain()) && Cleared(ThreadStep(s, t), m, p, 0) &&
                        forall u :: 0 <= u < |m.writers| ==> m.writers[u] != Opening(p)
  {
    hide Reaches, Pages;
    var b, ok := ThreadStep(s, t), Plain();
    Start(b, ok);
    forall u: nat | u < |s.writers| && u != t ensures b.writers[u] != Opening(p) {
      assert PageAt(s, InWriter(u)) == Token(s.writers[u]);
    }
    if s.writers[t].Faulted? {
      Go(b, b, Thread(t), ok);
      var m := ThreadStep(b, t);
      assert Cleared(b, m, p, 0);
      assert forall u :: 0 <= u < |m.writers| ==> m.writers[u] != Opening(p);
    } else {
      assert Cleared(b, b, p, 0);
      assert forall u :: 0 <= u < |b.writers| ==> b.writers[u] != Opening(p);
    }
  }

  lemma ExchangedFacts(s: State, t: nat, p: nat)
    requires Always(s) && LateExchange(s, Thread(t)) && p == Token(ThreadStep(s, t).writers[t])
    ensures InBatch(s.owner, p) && ThreadStep(s, t).owner == s.owner && p in ThreadStep(s, t).queued
  {
  }

  lemma ExchangeEnabled(s: State, t: nat)
    requires LateExchange(s, Thread(t))
    ensures t < |s.writers| && Enabled(s, Thread(t)) && s.owner.Marking?
  {
  }

  /** Wherever in a run a thread exchanges a page of the batch being armed, the run can go on
      until that page is stuck. */
  lemma LateExchangeSticks(init: State, steps: seq<Step>, t: nat)
    requires Init(init) && Possible(init, steps) && LateExchange(Exec(init, steps), Thread(t))
    ensures exists n, p: nat :: Reaches(ThreadStep(Exec(init, steps), t), n, Plain()) && Stuck(n, p)
  {
    hide Reaches, Always, Pages, LateExchange, Stuck, Unopened;
    InitAlways(init);
    AlwaysRun(init, steps);
    var s := Exec(init, steps);
    ExchangeEnabled(s, t);
    var b := ThreadStep(s, t);
    var p := Token(b.writers[t]);
    AlwaysStep(s, Thread(t));
    ExchangedFacts(s, t, p);
    ExchangedOpens(s, t, p);
    var m :| Reaches(b, m, Plain()) && Cleared(b, m, p, 0) && forall u :: 0 <= u < |m.writers| ==> m.writers[u] != Opening(p);
    FlushAll(b, m, p, |m.writers|);
    var o :| Reaches(b, o, Plain()) && Cleared(m, o, p, |m.writers|);
    AlwaysShape(s);
    MarkingShape(s);
    OwnerFinishes(b, o, Plain());
    var n :| Reaches(b, n, Plain()) && Finished(o, n);
    ReachesAlways(b, n, Plain());
    FinishedSticks(o, n, p);
  }

  lemma FinishedSticks(m: State, n: State, p: nat)
    requires m.owner.Marking? && InBatch(m.owner, p) && p in m.queued && Finished(m, n) && Always(n)
    requires forall u :: 0 <= u < |m.writers| ==> m.writers[u] != Opening(p) && p !in Unopened(m.writers[u])
    ensures Stuck(n, p)
  {
    hide Shape, Tokens, Pages;
    PagesMember(m.owner.run, m.owner.at, p);
    QueuedNotShielded(n, p);
  }

  lemma QueuedNotShielded(s: State, p: nat)
    requires Shape(s) && p in s.queued
    ensures p !in s.shielded
  {
  }

  // ---- a full queue ----------------------------------------------------------------------

  /** Page q is waiting to be collected, but nothing will bring it to the owner. */
  ghost predicate Dropped(s: State, q: nat) {
    q in s.queued && q != 0 && forall a :: PageAt(s, a) != q
  }

  /** Storing over an entry that nobody has taken drops its page. */
  lemma OverwriteDrops(s: State, t: nat, p: nat, k: nat, q: nat)
    requires Always(s) && Overwrites(s, t, p, k, q) && q != 0
    ensures Dropped(ThreadStep(s, t), q)
  {
    var n, x := ThreadStep(s, t), k % |s.slots|;
    assert PageAt(s, InSlot(x)) == q;
    assert PageAt(s, InWriter(t)) == p;
    forall a ensures PageAt(n, a) != q {
      if a == InSlot(x) {
        assert PageAt(n, a) == p;
      } else if a == InWriter(t) {
        assert PageAt(n, a) == 0;
      } else {
        assert PageAt(n, a) == PageAt(s, a);
      }
    }
  }

  /** The first time a thread claims a position of a full queue, the run can go on until a
      page is dropped. */
  lemma FullClaimDrops(init: State, steps: seq<Step>, t: nat)
    requires Init(init) && Possible(init, steps) && Obeys(init, steps, QueueSafe)
    requires Enabled(Exec(init, steps), Thread(t)) && !QueueSafe(Exec(init, steps), Thread(t))
    ensures exists n, q: nat :: Reaches(ThreadStep(Exec(init, steps), t), n, Plain()) && Dropped(n, q)
  {
    hide Reaches, Shape, Tokens, Dropped, Accounted;
    InitAlways(init);
    InitAccounted(init);
    AccountedRun(init, steps);
    var s := Exec(init, steps);
    var b, ok := ThreadStep(s, t), Plain();
    AlwaysStep(s, Thread(t));
    Start(b, ok);
    var q, u, p := FullSlot(s, t);
    if u != t {
      assert b.writers[u] == s.writers[u] && b.slots == s.slots;
      StoredFirst(b, t, p, |s.log|, u, q, |s.log| - s.capacity);
      Go(b, b, Thread(u), ok);
      ReachesAlways(b, ThreadStep(b, u), ok);
      var c := ThreadStep(b, u);
      Go(b, c, Thread(t), ok);
      OverwriteDrops(c, t, p, |s.log|, q);
    } else {
      Go(b, b, Thread(t), ok);
      OverwriteDrops(b, t, p, |s.log|, q);
    }
  }

  /** The page q whose slot a claim of a full queue lands on, and the thread u, if not t
      itself, that has yet to store q there. */
  lemma FullSlot(s: State, t: nat) returns (q: nat, u: nat, p: nat)
    requires Accounted(s) && t < |s.writers| && !QueueSafe(s, Thread(t))
    ensures q != 0
    ensures u == t ==> Overwrites(ThreadStep(s, t), t, p, |s.log|, q)
    ensures u != t ==> u < |s.writers| && Fills(s.writers[u], q, |s.log| - s.capacity) && s.capacity == |s.slots| > 0
    ensures u != t ==> Fills(ThreadStep(s, t).writers[t], p, |s.log|) && |s.log| >= s.capacity
    ensures u != t ==> (|s.log| - s.capacity) % s.capacity == |s.log| % s.capacity
  {
    var pos, k, w := Position(s.owner, s.tail), |s.log|, s.writers[t];
    assert k == pos + s.capacity;
    ModDistance(pos, s.capacity);
    q, p := s.log[pos], if w.Claiming? then w.page else w.at;
    u := t;
    if SlotOf(s.slots, pos) != q {
      u :| 0 <= u < |s.writers| && Fills(s.writers[u], q, pos);
    }
  }

  /** Thread t is about to store p over the entry q of position k's slot. */
  ghost predicate Overwrites(s: State, t: nat, p: nat, k: nat, q: nat) {
    t < |s.writers| && Fills(s.writers[t], p, k) && |s.slots| > 0 && SlotOf(s.slots, k) == q
  }

  /** Once thread u has stored q, thread t overwrites it. */
  lemma StoredFirst(s: State, t: nat, p: nat, k: nat, u: nat, q: nat, j: nat)
    requires t < |s.writers| && u < |s.writers| && u != t && Fills(s.writers[t], p, k) && Fills(s.writers[u], q, j)
    requires |s.slots| > 0 && j % |s.slots| == k % |s.slots|
    ensures Overwrites(ThreadStep(s, u), t, p, k, q)
  {
  }

  lemma DroppedStays(s: State, step: Step, q: nat)
    requires Always(s) && Dropped(s, q) && Enabled(s, step)
    ensures Dropped(Apply(s, step), q)
  {
    hide Pages;
    var n := Apply(s, step);
    if step.Reopen? {
      assert PageAt(s, InTodo(step.page)) == step.page;
    }
    forall a ensures PageAt(n, a) != q {
      DroppedAt(s, step, q, a);
    }
  }

  lemma DroppedAt(s: State, step: Step, q: nat, a: Place)
    requires Always(s) && Dropped(s, q) && Enabled(s, step)
    ensures PageAt(Apply(s, step), a) != q
  {
    hide Pages;
    assert PageAt(s, a) != q;
    if step.Thread? {
      assert PageAt(s, InWriter(step.t)) != q;
    } else if step.Advance? && s.owner.Taking? {
      if s.owner.at < s.owner.head {
        assert PageAt(s, InSlot(s.owner.at % |s.slots|)) != q;
      } else {
        assert forall i: nat :: i < |s.owner.taken| ==> PageAt(s, InTaken(i)) == s.owner.taken[i];
      }
    }
  }

  /** A dropped page is never reported and, being queued, never armed again. */
  lemma {:induction false} DroppedForever(s: State, steps: seq<Step>, q: nat)
    requires Always(s) && Dropped(s, q) && Possible(s, steps)
    ensures Dropped(Exec(s, steps), q) && q !in Exec(s, steps).shielded
    decreases |steps|
  {
    hide Dropped, Shape, Tokens;
    if steps != [] {
      AlwaysStep(s, steps[0]);
      DroppedStays(s, steps[0], q);
      DroppedForever(Apply(s, steps[0]), steps[1..], q);
    } else {
      DroppedQueued(s, q);
      QueuedNotShielded(s, q);
    }
  }

  lemma DroppedQueued(s: State, q: nat)
    requires Dropped(s, q)
    ensures q in s.queued
  {
  }
}
