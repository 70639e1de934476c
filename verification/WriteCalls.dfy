/** What the answers of the tracker's calls mean, over every run between their beginning and
    their end: ArmFault refuses pages whose last write is not collected, its `true` and that of
    AllArmed say that every page of the range is protected or was exchanged since the call
    began, and every call comes to its end.
 */
module WriteCalls {
  import opened WriteProtocol
  import opened WriteInvariant
  import opened WriteAlways
  import opened WriteTheorems

  /** The owner begins no other call. */
  predicate OneCall(steps: seq<Step>) {
    forall i :: 0 <= i < |steps| ==> !steps[i].Scan? && !steps[i].Arm? && !steps[i].Disarm? && !steps[i].Take?
  }

  /** The owner is inside the call for [first, end) or at rest. */
  predicate InCall(o: Owner, first: nat, end: nat) {
    match o
    case Resting => true
    case Scanning(f, e, at) => f == first && e == end
    case Checking(f, e, at) => f == first && e == end
    case Marking(f, e, at, run) => f == first && e == end
    case _ => false
  }

  // ---- a refusal ------------------------------------------------------------------------

  /** ArmFault has a queued page ahead of it. */
  predicate Refusing(s: State, end: nat, p: nat) {
    s.owner == Resting || (s.owner.Checking? && s.owner.end == end && s.owner.at <= p < end && p in s.queued)
  }

  lemma RefusingStep(s: State, step: Step, end: nat, p: nat)
    requires Refusing(s, end, p) && Enabled(s, step) && OneCall([step])
    ensures var n := Apply(s, step);
            Refusing(n, end, p) && n.tracked == s.tracked && n.armed == s.armed && n.shielded <= s.shielded
  {
    assert [step][0] == step;
    if step.Thread? {
      RefusingThread(s, step.t, end, p);
    }
  }

  lemma RefusingThread(s: State, t: nat, end: nat, p: nat)
    requires Refusing(s, end, p) && t < |s.writers|
    ensures var n := ThreadStep(s, t);
            Refusing(n, end, p) && n.tracked == s.tracked && n.armed == s.armed && n.shielded <= s.shielded
  {
  }

  lemma {:induction false} RefusingRun(s: State, steps: seq<Step>, end: nat, p: nat)
    requires Refusing(s, end, p) && Possible(s, steps) && OneCall(steps)
    ensures var n := Exec(s, steps);
            Refusing(n, end, p) && n.tracked == s.tracked && n.armed == s.armed && n.shielded <= s.shielded
    decreases |steps|
  {
    hide Refusing, Enabled, Apply;
    if steps != [] {
      assert OneCall([steps[0]]);
      RefusingStep(s, steps[0], end, p);
      RefusingRun(Apply(s, steps[0]), steps[1..], end, p);
    }
  }

  /** An ArmFault that begins while the last write of a page in its range is not collected
      arms nothing: whatever threads do meanwhile, the owner only checks pages until it is
      done, no page becomes protected, armed or tracked. */
  lemma ArmRefusesQueued(s: State, first: nat, end: nat, p: nat, steps: seq<Step>)
    requires Enabled(s, Arm(first, end)) && p in s.queued && first <= p < end
    requires Possible(Apply(s, Arm(first, end)), steps) && OneCall(steps)
    ensures var n := Exec(Apply(s, Arm(first, end)), steps);
            && (n.owner == Resting || n.owner.Checking?)
            && n.tracked == s.tracked && n.armed == s.armed && n.shielded <= s.shielded
  {
    RefusingRun(Apply(s, Arm(first, end)), steps, end, p);
  }

  // ---- what true means ----------------------------------------------------------------------

  /** No page looked at was queued when the call began, and queued pages stay queued. */
  ghost predicate Looked(start: set<nat>, s: State) {
    && (s.owner.Scanning? || s.owner.Checking? || s.owner.Marking? ==> start <= s.queued)
    && match s.owner
       case Scanning(first, end, at) => Pages(first, at) !! start
       case Checking(first, end, at) => Pages(first, at) !! start
       case Marking(first, end, at, run) => Pages(first, end) !! start
       case _ => true
  }

  lemma LookedStep(start: set<nat>, s: State, step: Step, first: nat, end: nat)
    requires Shape(s) && Looked(start, s) && InCall(s.owner, first, end) && Enabled(s, step) && OneCall([step])
    ensures Looked(start, Apply(s, step)) && InCall(Apply(s, step).owner, first, end)
  {
    assert [step][0] == step;
    if step.Thread? {
      LookedThread(start, s, step.t);
    } else if step.Advance? {
      LookedOwner(start, s, first, end);
    }
  }

  lemma LookedThread(start: set<nat>, s: State, t: nat)
    requires Looked(start, s) && t < |s.writers|
    ensures Looked(start, ThreadStep(s, t)) && ThreadStep(s, t).owner == s.owner
  {
  }

  lemma LookedOwner(start: set<nat>, s: State, first: nat, end: nat)
    requires Shape(s) && Looked(start, s) && InCall(s.owner, first, end) && Enabled(s, Advance)
    ensures Looked(start, OwnerStep(s)) && InCall(OwnerStep(s).owner, first, end)
  {
    hide Pages;
    if (s.owner.Scanning? || s.owner.Checking?) && s.owner.first <= s.owner.at {
      PagesSnoc(s.owner.first, s.owner.at);
    }
  }

  lemma {:induction false} LookedRun(start: set<nat>, s: State, steps: seq<Step>, first: nat, end: nat)
    requires Always(s) && Looked(start, s) && InCall(s.owner, first, end) && Possible(s, steps) && OneCall(steps)
    ensures var n := Exec(s, steps); Always(n) && Looked(start, n) && InCall(n.owner, first, end)
    decreases |steps|
  {
    hide Tokens, Shape, Looked, Enabled, Apply, InCall;
    if steps != [] {
      assert OneCall([steps[0]]);
      AlwaysStep(s, steps[0]);
      LookedStep(start, s, steps[0], first, end);
      LookedRun(start, Apply(s, steps[0]), steps[1..], first, end);
    }
  }

  /** The next step of the owner returns true for [first, end). */
  predicate AboutToConfirm(s: State, first: nat, end: nat) {
    || s.owner == Scanning(first, end, end)
    || (s.owner.Marking? && s.owner == Marking(first, end, end, s.owner.run))
  }

  predicate Begins(step: Step, first: nat, end: nat) {
    step == Arm(first, end) || step == Scan(first, end)
  }

  /** Whatever happens in between, an ArmFault or AllArmed that returns true confirms exactly
      its range, and every page of it is protected, or was not queued when the call began and
      has been exchanged since. */
  lemma ConfirmedMeans(init: State, before: seq<Step>, call: Step, first: nat, end: nat, steps: seq<Step>)
    requires Init(init) && Possible(init, before) && Begins(call, first, end) && Enabled(Exec(init, before), call)
    requires Possible(Apply(Exec(init, before), call), steps) && OneCall(steps)
    requires AboutToConfirm(Exec(Apply(Exec(init, before), call), steps), first, end)
    ensures var s, m := Exec(init, before), Exec(Apply(Exec(init, before), call), steps);
            var n := OwnerStep(m);
            && n.owner == Resting && n.tracked == m.tracked + Pages(first, end)
            && Pages(first, end) !! s.queued
            && forall p :: p in Pages(first, end) ==> p in n.shielded || p in n.queued
  {
    hide Tokens, Pages;
    InitAlways(init);
    AlwaysRun(init, before);
    var s := Exec(init, before);
    AlwaysStep(s, call);
    CallBegins(s, call, first, end);
    LookedRun(s.queued, Apply(s, call), steps, first, end);
    var m := Exec(Apply(s, call), steps);
    forall p | p in Pages(first, end) ensures p in m.shielded || p in m.queued {
      assert p in m.shielded + m.queued;
    }
  }

  lemma CallBegins(s: State, call: Step, first: nat, end: nat)
    requires Begins(call, first, end) && Enabled(s, call)
    ensures Looked(s.queued, Apply(s, call)) && InCall(Apply(s, call).owner, first, end)
  {
    NoPages(first);
  }

  /** AllArmed answers false at the first page that is not protected, and changes nothing. */
  lemma ScanRefuses(s: State)
    requires s.owner.Scanning? && s.owner.at < s.owner.end && s.owner.at !in s.shielded
    ensures OwnerStep(s) == s.(owner := Resting)
  {
  }

  // ---- what a host write does -------------------------------------------------------------

  /** ArmFault marks page p. */
  predicate Marks(s: State, step: Step, p: nat) {
    MarksOpen(s, step) && s.owner.at == p
  }

  /** Thread t begins nothing new and page p is not marked again. */
  function OneHostWrite(t: nat, p: nat): (State, Step) -> bool {
    (s: State, step: Step) =>
      !(step.Fault? && step.t == t) && !(step.HostBegin? && step.t == t) && !Marks(s, step, p)
  }

  /** OnHostWrite for pages up to `end` has left no page behind it protected. */
  predicate Passed(s: State, t: nat, end: nat, p: nat) {
    t < |s.writers| &&
    match s.writers[t]
    case Idle => p !in s.shielded
    case HostScan(e, at, run) => e == end && (p < at ==> p !in s.shielded)
    case HostClaim(e, at, run) => e == end && (p <= at ==> p !in s.shielded)
    case HostFill(e, at, run, slot) => e == end && (p <= at ==> p !in s.shielded)
    case HostFlush(e, at, run) => e == end && (p <= at ==> p !in s.shielded)
    case _ => false
  }

  lemma PassedStep(s: State, step: Step, t: nat, end: nat, p: nat)
    requires Passed(s, t, end, p) && p < end && Enabled(s, step) && OneHostWrite(t, p)(s, step)
    ensures Passed(Apply(s, step), t, end, p)
  {
    if step.Thread? {
      PassedThread(s, step.t, t, end, p);
    } else if step.Advance? {
      assert p !in s.shielded ==> p !in OwnerStep(s).shielded;
    }
  }

  lemma PassedThread(s: State, u: nat, t: nat, end: nat, p: nat)
    requires Passed(s, t, end, p) && p < end && u < |s.writers|
    ensures Passed(ThreadStep(s, u), t, end, p)
  {
  }

  lemma {:induction false} PassedRun(s: State, steps: seq<Step>, t: nat, end: nat, p: nat)
    requires Passed(s, t, end, p) && p < end && Possible(s, steps) && Obeys(s, steps, OneHostWrite(t, p))
    ensures Passed(Exec(s, steps), t, end, p)
    decreases |steps|
  {
    hide Passed, Enabled, Apply, OneHostWrite;
    if steps != [] {
      PassedStep(s, steps[0], t, end, p);
      PassedRun(Apply(s, steps[0]), steps[1..], t, end, p);
    }
  }

  /** Whatever happens in between, an OnHostWrite that returns has taken every page of its
      range out of protection, unless ArmFault has marked it again meanwhile. */
  lemma HostWriteExchanges(s: State, t: nat, first: nat, end: nat, p: nat, steps: seq<Step>)
    requires Enabled(s, HostBegin(t, first, end)) && first <= p < end
    requires Possible(Apply(s, HostBegin(t, first, end)), steps)
    requires Obeys(Apply(s, HostBegin(t, first, end)), steps, OneHostWrite(t, p))
    requires var n := Exec(Apply(s, HostBegin(t, first, end)), steps); t < |n.writers| && n.writers[t] == Idle
    ensures p !in Exec(Apply(s, HostBegin(t, first, end)), steps).shielded
  {
    PassedRun(Apply(s, HostBegin(t, first, end)), steps, t, end, p);
  }

  /** What a thread has left to do. */
  function ThreadEffort(w: Writer): nat {
    match w
    case Idle => 0
    case Faulted(_) => 4
    case Opening(_) => 3
    case Claiming(_) => 2
    case Filling(_, _) => 1
    case HostScan(end, at, run) => 4 * Rest(at, end) + 2
    case HostClaim(end, at, run) => 4 * Rest(at + 1, end) + 4
    case HostFill(end, at, run, slot) => 4 * Rest(at + 1, end) + 3
    case HostFlush(end, at, run) => 4 * Rest(at, end) + 1
  }

  /** Every step of a thread is possible and brings the end of its call closer. */
  lemma ThreadsEnd(s: State, t: nat)
    requires t < |s.writers| && s.writers[t] != Idle
    ensures Enabled(s, Thread(t)) && ThreadEffort(Apply(s, Thread(t)).writers[t]) < ThreadEffort(s.writers[t])
  {
  }

  // ---- every call ends ------------------------------------------------------------------------

  /** What the owner has left to do. */
  function Effort(o: Owner): nat {
    match o
    case Resting => 0
    case Scanning(first, end, at) => Rest(at, end) + 1
    case Checking(first, end, at) => Rest(at, end) + Rest(first, end) + 2
    case Marking(first, end, at, run) => Rest(at, end) + 1
    case Disarming(first, end, at) => Rest(at, end) + 2
    case Noting(first, end) => 1
    case Taking(at, head, taken) => 2 * Rest(at, head) + |taken| + 2
    case Reopening(todo) => |todo| + 1
  }

  function Rest(at: nat, end: nat): nat {
    if at < end then end - at else 0
  }

  lemma {:induction false} FewElements(s: seq<nat>)
    ensures |Elements(s)| <= |s|
  {
    if s == [] {
      assert Elements(s) == {};
    } else {
      var front, last := s[..|s| - 1], s[|s| - 1];
      FewElements(front);
      assert s == front + [last];
      assert Elements(s) == Elements(front) + {last};
    }
  }

  /** Every step of the owner inside a call brings its end closer, and only the wait for a
      thread that has claimed a queue position and not filled it can hold it up. */
  lemma CallsEnd(s: State)
    requires Always(s) && s.owner != Resting
    ensures Enabled(s, Advance) ==> Effort(OwnerStep(s).owner) < Effort(s.owner)
    ensures forall p :: Enabled(s, Reopen(p)) ==> Effort(Apply(s, Reopen(p)).owner) < Effort(s.owner)
    ensures !Enabled(s, Advance) ==>
              (s.owner.Reopening? && s.owner.todo != {}) ||
              (s.owner.Taking? && s.owner.at < s.owner.head && s.slots[s.owner.at % s.capacity] == 0)
  {
    hide Always, Shape, Pages, Elements, OwnerStep, Effort;
    SlotsThere(s);
    if Enabled(s, Advance) {
      OwnerAdvances(s);
    }
    forall p | Enabled(s, Reopen(p)) ensures Effort(Apply(s, Reopen(p)).owner) < Effort(s.owner) {
      ReopenAdvances(s, p);
    }
  }

  lemma SlotsThere(s: State)
    requires Always(s)
    ensures |s.slots| == s.capacity > 0
  {
    hide Tokens;
  }

  lemma OwnerAdvances(s: State)
    requires |s.slots| > 0 && s.owner != Resting && Enabled(s, Advance)
    ensures Effort(OwnerStep(s).owner) < Effort(s.owner)
  {
    hide Pages, Elements;
    if s.owner.Taking? {
      FewElements(s.owner.taken);
    }
  }

  lemma ReopenAdvances(s: State, p: nat)
    requires Enabled(s, Reopen(p))
    ensures Effort(Apply(s, Reopen(p)).owner) < Effort(s.owner)
  {
  }
}
