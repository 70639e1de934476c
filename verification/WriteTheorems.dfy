/** What the write tracker promises its caches, each under the guard that its proof needs:
    protected pages are read-only, no write is lost, no queue entry is overwritten. The
    guards are exact: a step that breaks one breaks what it protects.
 */
module WriteTheorems {
  import opened Modular
  import opened WriteProtocol
  import opened WriteInvariant
  import opened WriteAlways

  // ---- protection: threads ---------------------------------------------------------

  lemma ShieldWriter(s: State, t: nat, w: Writer)
    requires Shield(s) && t < |s.writers| && Unopened(w) !! s.shielded
    ensures Shield(SetWriter(s, t, w))
  {
  }

  /** Protected to queued leaves the other protected pages as they are. */
  lemma ShieldTake(s: State, p: nat)
    requires Shield(s)
    ensures Shield(s.(shielded := s.shielded - {p}, queued := s.queued + {p}))
  {
  }

  /** Opening pages that are not protected. */
  lemma ShieldOpen(s: State, pages: set<nat>)
    requires Shield(s) && pages !! s.shielded
    ensures Shield(s.(readOnly := s.readOnly - pages))
  {
  }

  lemma ShieldLog(s: State, log: seq<nat>, slots: seq<nat>)
    requires Shield(s)
    ensures Shield(s.(log := log)) && Shield(s.(slots := slots))
  {
  }

  lemma ShieldAt(s: State, t: nat)
    requires Shape(s) && Shield(s) && t < |s.writers|
    ensures HostShape(s.writers[t]) && Unopened(s.writers[t]) !! s.shielded
  {
  }

  /** A page that a thread is about to open is queued. */
  lemma OpeningIsQueued(s: State, t: nat)
    requires Always(s) && t < |s.writers| && s.writers[t].Opening?
    ensures s.writers[t].page !in s.shielded
  {
    assert PageAt(s, InWriter(t)) == s.writers[t].page;
  }

  lemma ThreadShield(s: State, t: nat)
    requires Always(s) && Shield(s) && t < |s.writers|
    ensures Shield(ThreadStep(s, t))
  {
    hide Shape, Tokens, Shield, Pages;
    var w, n := s.writers[t], ThreadStep(s, t);
    ShieldAt(s, t);
    match w {
      case Idle =>
      case Faulted(p) =>
        if p in s.shielded {
          ShieldTake(s, p);
          ShieldWriter(s.(shielded := s.shielded - {p}, queued := s.queued + {p}), t, Opening(p));
        } else {
          ShieldWriter(s, t, Idle);
        }
      case Opening(p) =>
        OpeningIsQueued(s, t);
        ShieldOpen(s, {p});
        ShieldWriter(s.(readOnly := s.readOnly - {p}), t, Claiming(p));
      case Claiming(p) => ShieldLog(s, s.log + [p], s.slots);
        ShieldWriter(s.(log := s.log + [p]), t, Filling(p, |s.log|));
      case Filling(p, slot) => ShieldLog(s, s.log, n.slots);
        ShieldWriter(s.(slots := n.slots), t, Idle);
      case HostScan(end, at, run) =>
        if at < end && at in s.shielded {
          BatchSnoc(run, at);
          ShieldTake(s, at);
          ShieldWriter(s.(shielded := s.shielded - {at}, queued := s.queued + {at}), t, n.writers[t]);
        } else {
          ShieldWriter(s, t, n.writers[t]);
        }
      case HostFlush(end, at, run) =>
        ShieldOpen(s, Batch(run, at));
        ShieldWriter(s.(readOnly := s.readOnly - Batch(run, at)), t, n.writers[t]);
      case HostClaim(end, at, run) => ShieldLog(s, s.log + [at], s.slots);
        ShieldWriter(s.(log := s.log + [at]), t, n.writers[t]);
      case HostFill(end, at, run, slot) => ShieldLog(s, s.log, n.slots);
        ShieldWriter(s.(slots := n.slots), t, n.writers[t]);
    }
  }

  /** Writers only move pages from protected to queued, grow the log and open pages. */
  predicate WriterEffect(s: State, n: State) {
    && n.shielded <= s.shielded && s.queued <= n.queued && s.shielded + s.queued == n.shielded + n.queued
    && (forall p :: p in s.readOnly && p !in n.readOnly ==> p !in s.shielded)
    && s.log <= n.log && n.tail == s.tail && n.owner == s.owner
    && n.armed == s.armed && n.capacity == s.capacity && n.tracked == s.tracked && n.written == s.written
  }

  lemma ThreadEffect(s: State, t: nat)
    requires Always(s) && Shield(s) && t < |s.writers|
    ensures WriterEffect(s, ThreadStep(s, t))
  {
    hide Shape, Tokens, Shield;
    ShieldAt(s, t);
    if s.writers[t].Opening? {
      OpeningIsQueued(s, t);
    }
  }

  lemma EffectTrack(s: State, n: State)
    requires WriterEffect(s, n) && Track(s)
    ensures Track(n)
  {
  }

  // ---- protection: the owner --------------------------------------------------------

  lemma ScanGuarded(s: State)
    requires Shape(s) && Guarded(s) && s.owner.Scanning?
    ensures Guarded(OwnerStep(s))
  {
    var Scanning(first, end, at) := s.owner;
    forall p | p in Pages(first, at) ensures (p in s.shielded && p in s.readOnly) || p in s.queued {
      assert p in s.shielded + s.queued;
    }
  }

  /** The batch about to be protected covers every protected page that is still writable. */
  lemma BatchProtects(s: State)
    requires Shape(s) && Shield(s) && s.owner.Marking?
    ensures s.shielded <= s.readOnly + Batch(s.owner.run, s.owner.at)
    ensures Pages(s.owner.first, s.owner.at) <= s.shielded + s.queued
  {
    var Marking(first, end, at, run) := s.owner;
    forall p | p in s.shielded ensures p in s.readOnly + Batch(run, at) {
      if InBatch(s.owner, p) {
        PagesMember(run, at, p);
      }
    }
  }

  lemma MarkFinish(s: State)
    requires Shape(s) && Guarded(s) && s.owner.Marking? && s.owner.at >= s.owner.end
    ensures Guarded(OwnerStep(s))
  {
    BatchProtects(s);
  }

  lemma MarkSkip(s: State)
    requires Shape(s) && Guarded(s) && s.owner.Marking? && s.owner.at < s.owner.end
    requires s.owner.at in s.shielded || s.owner.at in s.queued
    ensures Guarded(OwnerStep(s))
  {
    BatchProtects(s);
  }

  /** Marking an open page keeps the protection exactly if no host write has yet to open it. */
  lemma MarkOpenPage(s: State)
    requires Shape(s) && Guarded(s) && Enabled(s, Advance) && MarksOpen(s, Advance)
    ensures Guarded(OwnerStep(s)) <==> PageSafe(s, Advance)
  {
    var Marking(first, end, at, run) := s.owner;
    var n := OwnerStep(s);
    assert at !in s.tracked;
    forall p | p in n.shielded ensures p in n.readOnly || InBatch(n.owner, p) {
      if p == at || InBatch(s.owner, p) {
        assert In(n.owner.run, p, n.owner.at);
      }
    }
    if !PageSafe(s, Advance) {
      var t :| 0 <= t < |s.writers| && at in Unopened(s.writers[t]);
      assert at in Unopened(n.writers[t]) && at in n.shielded;
    }
  }

  lemma DisarmGuarded(s: State)
    requires Shape(s) && Guarded(s) && s.owner.Disarming?
    ensures Guarded(OwnerStep(s))
  {
    var Disarming(first, end, at) := s.owner;
    PagesSnoc(first, at);
    PagesMember(first, end, at);
  }

  lemma OwnerGuarded(s: State)
    requires Shape(s) && Guarded(s) && Enabled(s, Advance) && !MarksOpen(s, Advance)
    ensures Guarded(OwnerStep(s))
  {
    hide Shape, Guarded;
    match s.owner {
      case Scanning(first, end, at) => ScanGuarded(s);
      case Marking(first, end, at, run) =>
        if at >= end {
          MarkFinish(s);
        } else {
          MarkSkip(s);
        }
      case Disarming(first, end, at) => DisarmGuarded(s);
      case _ => QuietGuarded(s);
    }
  }

  lemma QuietGuarded(s: State)
    requires Shape(s) && Guarded(s) && Enabled(s, Advance)
    requires s.owner.Checking? || s.owner.Noting? || s.owner.Taking? || s.owner.Reopening?
    ensures Guarded(OwnerStep(s))
  {
    hide Pages;
    PagesAll();
  }

  lemma PagesAll()
    ensures forall lo: nat, hi: nat, p: nat :: p in Pages(lo, hi) <==> In(lo, p, hi)
  {
  }

  /** Giving up keeps the protection exactly if every marked page is already read-only. */
  lemma AbortGuarded(s: State)
    requires Guarded(s) && Enabled(s, Abort)
    ensures Guarded(Apply(s, Abort)) <==> PageSafe(s, Abort)
  {
    var n := Apply(s, Abort);
    if !(s.shielded <= s.readOnly) {
      var p :| p in s.shielded && p !in s.readOnly;
      assert p in n.shielded && p !in n.readOnly && !InBatch(n.owner, p);
    }
  }

  lemma OtherGuarded(s: State, step: Step)
    requires Shape(s) && Tokens(s) && Guarded(s) && Enabled(s, step) && !step.Thread? && !step.Advance? && !step.Abort?
    ensures Guarded(Apply(s, step))
  {
    if step.Reopen? {
      assert PageAt(s, InTodo(step.page)) == step.page;
    } else if step.HostBegin? {
      assert Unopened(HostScan(step.end, step.first, 0)) == {};
    }
  }

  /** Every step keeps the protection if and only if it is PageSafe. */
  lemma GuardExact(s: State, step: Step)
    requires Always(s) && Guarded(s) && Enabled(s, step)
    ensures Guarded(Apply(s, step)) <==> PageSafe(s, step)
  {
    hide Shape, Tokens, Shield, Track;
    if step.Thread? {
      ThreadShield(s, step.t);
      ThreadEffect(s, step.t);
      EffectTrack(s, ThreadStep(s, step.t));
    } else if step.Advance? {
      if MarksOpen(s, step) {
        MarkOpenPage(s);
      } else {
        OwnerGuarded(s);
      }
    } else if step.Abort? {
      AbortGuarded(s);
    } else {
      OtherGuarded(s, step);
    }
  }

  lemma {:induction false} GuardedRun(s: State, steps: seq<Step>)
    requires Always(s) && Guarded(s) && Possible(s, steps) && Obeys(s, steps, PageSafe)
    ensures Always(Exec(s, steps)) && Guarded(Exec(s, steps))
    decreases |steps|
  {
    hide Always, Guarded;
    if steps != [] {
      AlwaysStep(s, steps[0]);
      GuardExact(s, steps[0]);
      GuardedRun(Apply(s, steps[0]), steps[1..]);
    }
  }

  lemma InitGuarded(s: State)
    requires Init(s)
    ensures Guarded(s)
  {
  }

  // ---- the queue ----------------------------------------------------------------------

  lemma InitAccounted(s: State)
    requires Init(s)
    ensures Accounted(s)
  {
    assert forall t: nat, p: nat :: t < |s.writers| ==> !Holds(s.writers[t], p);
    assert forall t: nat, p: nat, k: nat :: t < |s.writers| ==> !Fills(s.writers[t], p, k);
  }

  lemma ShieldFacts(s: State, p: nat)
    requires Shape(s) && p in s.shielded
    ensures p !in s.queued && p != 0
  {
  }

  lemma SlotsSize(s: State)
    requires Filled(s.capacity, s.slots, s.log, Position(s.owner, s.tail), s.writers)
    ensures |s.slots| == s.capacity > 0
  {
  }

  lemma ThreadQueue(s: State, t: nat)
    requires Shape(s) && Accounted(s) && t < |s.writers| && QueueSafe(s, Thread(t))
    ensures var n := ThreadStep(s, t);
            && Outstanding(n.queued, n.log, n.tail, Todo(n.owner), n.writers)
            && Filled(n.capacity, n.slots, n.log, Position(n.owner, n.tail), n.writers)
  {
    hide Outstanding, Filled, Shape;
    var w, n := s.writers[t], ThreadStep(s, t);
    var todo, pos := Todo(s.owner), Position(s.owner, s.tail);
    if w.Idle? {
    } else if w.Claiming? || w.HostClaim? {
      var p := if w.Claiming? then w.page else w.at;
      assert Holds(w, p);
      OutClaim(s.queued, s.log, s.tail, todo, s.writers, t, n.writers[t], p);
      FillClaim(s.capacity, s.slots, s.log, pos, s.writers, t, n.writers[t], p);
    } else if w.Filling? || w.HostFill? {
      SlotsSize(s);
      var p := if w.Filling? then w.page else w.at;
      assert Fills(w, p, w.slot);
      OutSame(s.queued, s.log, s.tail, todo, s.writers, t, n.writers[t]);
      FillStore(s.capacity, s.slots, s.log, pos, s.writers, t, n.writers[t], p, w.slot);
    } else if (w.Faulted? && w.page in s.shielded) || (w.HostScan? && w.at < w.end && w.at in s.shielded) {
      var p := if w.Faulted? then w.page else w.at;
      ShieldFacts(s, p);
      OutHold(s.queued, s.log, s.tail, todo, s.writers, t, n.writers[t], p);
      FillSame(s.capacity, s.slots, s.log, pos, s.writers, t, n.writers[t]);
    } else {
      OutSame(s.queued, s.log, s.tail, todo, s.writers, t, n.writers[t]);
      FillSame(s.capacity, s.slots, s.log, pos, s.writers, t, n.writers[t]);
    }
  }

  lemma ThreadTake(s: State, t: nat)
    requires TakeShape(s) && t < |s.writers|
    ensures TakeShape(ThreadStep(s, t))
  {
    var n := ThreadStep(s, t);
    if s.owner.Taking? {
      assert n.log[s.tail..s.owner.at] == s.log[s.tail..s.owner.at];
    }
  }

  lemma OwnerQueue(s: State)
    requires Accounted(s) && Enabled(s, Advance)
    ensures Accounted(OwnerStep(s))
  {
    hide Outstanding, Filled;
    if s.owner.Taking? {
      if s.owner.at >= s.owner.head {
        OutTake(s.queued, s.log, s.tail, s.writers, s.owner.head);
      } else {
        SlotsSize(s);
        var at := s.owner.at;
        FillTake(s.capacity, s.slots, s.log, at, s.writers);
        assert s.log[s.tail..at + 1] == s.log[s.tail..at] + [s.log[at]];
      }
    }
  }

  lemma OutFacts(s: State)
    requires Outstanding(s.queued, s.log, s.tail, Todo(s.owner), s.writers)
    ensures s.tail <= |s.log| && Todo(s.owner) <= s.queued
  {
  }

  lemma OtherQueue(s: State, step: Step)
    requires Accounted(s) && Enabled(s, step) && !step.Thread? && !step.Advance?
    ensures Accounted(Apply(s, step))
  {
    hide Outstanding, Filled;
    match step {
      case Fault(t, p) => WriterQueue(s, t, Faulted(p));
      case HostBegin(t, first, end) => WriterQueue(s, t, HostScan(end, first, 0));
      case Reopen(p) => OutReopen(s.queued, s.log, s.tail, s.owner.todo, s.writers, p);
      case Take =>
        OutFacts(s);
        assert s.log[s.tail..s.tail] == [];
      case _ =>
    }
  }

  lemma WriterQueue(s: State, t: nat, w: Writer)
    requires Accounted(s) && t < |s.writers| && s.writers[t] == Idle && (w.Faulted? || w.HostScan?)
    ensures Accounted(SetWriter(s, t, w))
  {
    hide Outstanding, Filled;
    OutSame(s.queued, s.log, s.tail, Todo(s.owner), s.writers, t, w);
    FillSame(s.capacity, s.slots, s.log, Position(s.owner, s.tail), s.writers, t, w);
  }

  /** Every step that is QueueSafe keeps the queue in order. */
  lemma AccountedStep(s: State, step: Step)
    requires Shape(s) && Accounted(s) && Enabled(s, step) && QueueSafe(s, step)
    ensures Accounted(Apply(s, step))
  {
    hide Shape, Outstanding, Filled;
    if step.Thread? {
      ThreadQueue(s, step.t);
      ThreadTake(s, step.t);
    } else if step.Advance? {
      OwnerQueue(s);
    } else {
      OtherQueue(s, step);
    }
  }

  /** Every step keeps the queue in order if and only if it is QueueSafe. */
  lemma QueueExact(s: State, step: Step)
    requires Shape(s) && Accounted(s) && Enabled(s, step)
    ensures Accounted(Apply(s, step)) <==> QueueSafe(s, step)
  {
    hide Shape, Outstanding;
    if QueueSafe(s, step) {
      AccountedStep(s, step);
    } else {
      FullClaimOverruns(s, step.t);
    }
  }

  lemma FullClaimOverruns(s: State, t: nat)
    requires Accounted(s) && !QueueSafe(s, Thread(t))
    ensures !Accounted(ThreadStep(s, t))
  {
    var n := ThreadStep(s, t);
    assert |n.log| == |s.log| + 1 && n.owner == s.owner && n.tail == s.tail && n.capacity == s.capacity;
  }

  lemma {:induction false} AccountedRun(s: State, steps: seq<Step>)
    requires Always(s) && Accounted(s) && Possible(s, steps) && Obeys(s, steps, QueueSafe)
    ensures Always(Exec(s, steps)) && Accounted(Exec(s, steps))
    decreases |steps|
  {
    hide Shape, Tokens, Accounted;
    if steps != [] {
      AlwaysStep(s, steps[0]);
      AccountedStep(s, steps[0]);
      AccountedRun(Apply(s, steps[0]), steps[1..]);
    }
  }

  /** Somebody has claimed a position in the same slot and not stored into it yet. */
  ghost predicate SlotAwaited(s: State, k: nat)
    requires s.capacity > 0
  {
    exists t: nat, p: nat, j: nat :: t < |s.writers| && Fills(s.writers[t], p, j) && IsIndex(j, s.capacity, k % s.capacity)
  }

  /** The guard of the queue is exact: a claim lands on an empty slot that nobody else is
      about to fill if and only if the queue is not full. */
  lemma ClaimExact(s: State)
    requires Accounted(s)
    ensures |s.slots| == s.capacity > 0
    ensures (SlotOf(s.slots, |s.log|) == 0 && !SlotAwaited(s, |s.log|)) <==>
            |s.log| < Position(s.owner, s.tail) + s.capacity
  {
    var pos, k := Position(s.owner, s.tail), |s.log|;
    if k < pos + s.capacity {
      FreshIsEmpty(s.capacity, s.slots, s.log, pos, s.writers);
      forall t: nat, p: nat, j: nat | t < |s.writers| && Fills(s.writers[t], p, j)
        ensures !IsIndex(j, s.capacity, k % s.capacity)
      {
        ModDistinct(j, k, s.capacity);
      }
    } else {
      ModDistance(pos, s.capacity);
      assert s.log[pos] != 0;
      if SlotOf(s.slots, pos) == 0 {
        var t :| 0 <= t < |s.writers| && Fills(s.writers[t], s.log[pos], pos);
        assert IsIndex(pos, s.capacity, k % s.capacity);
      }
    }
  }

  // ---- what the tracker promises -----------------------------------------------------

  /** Arming of p is finished: no ArmFault is between marking and protecting it. */
  predicate ArmingFinished(s: State, p: nat) {
    !InBatch(s.owner, p)
  }

  /** Something still carries page p to a report: a queue slot, the owner's list of
      taken pages, the owner's pending note, or a thread that is about to enqueue it. */
  ghost predicate Pending(s: State, p: nat) {
    || (exists x :: 0 <= x < |s.slots| && s.slots[x] == p)
    || (s.owner.Taking? && p in s.owner.taken)
    || (s.owner.Reopening? && p in s.owner.todo)
    || InDisarm(s.owner, p)
    || (exists t :: 0 <= t < |s.writers| && (Holds(s.writers[t], p) || exists k :: Fills(s.writers[t], p, k)))
  }

  /** In every reachable state a page that is protected, its arming finished, is
      read-only on the host, so a store to it cannot complete; and every page the
      tracker made read-only is one its fault handler recognises. */
  lemma ProtectedIsReadOnly(init: State, steps: seq<Step>, p: nat)
    requires Init(init) && Possible(init, steps) && Obeys(init, steps, PageSafe)
    ensures var s := Exec(init, steps);
            && (p in s.shielded && ArmingFinished(s, p) ==> p in s.readOnly && !Enabled(s, Store(p)))
            && (p in s.readOnly ==> p in s.everArmed)
  {
    InitAlways(init);
    InitGuarded(init);
    GuardedRun(init, steps);
  }

  lemma QueuedIsPending(s: State, p: nat)
    requires Accounted(s) && p in s.queued
    ensures Pending(s, p)
  {
    if Claimed(s.log, s.tail, p) {
      var i :| s.tail <= i < |s.log| && s.log[i] == p;
      if i < Position(s.owner, s.tail) {
        assert s.owner.taken == s.log[s.tail..s.owner.at];
        assert s.log[s.tail..s.owner.at][i - s.tail] == s.log[i];
        assert s.owner.taken[i - s.tail] == p;
      } else if SlotOf(s.slots, i) != p {
        var t :| 0 <= t < |s.writers| && Fills(s.writers[t], p, i);
      } else {
        assert s.slots[i % |s.slots|] == p;
      }
    }
  }

  /** A page that is not queued and not being disarmed has no report under way. */
  lemma OpenIsNotPending(s: State, p: nat)
    requires Always(s) && p !in s.queued && p != 0 && !InDisarm(s.owner, p)
    ensures !Pending(s, p)
  {
    assert forall x: nat :: x < |s.slots| ==> PageAt(s, InSlot(x)) == s.slots[x];
    assert forall t: nat :: t < |s.writers| ==> PageAt(s, InWriter(t)) == Token(s.writers[t]);
    assert PageAt(s, InTodo(p)) == p || PageAt(s, InTodo(p)) == 0;
    assert s.owner.Taking? ==> forall i: nat :: i < |s.owner.taken| ==> PageAt(s, InTaken(i)) == s.owner.taken[i];
  }

  /** No lost write: in every reachable state a tracked page that was stored to since
      Arm returned true is already on its way to a report. */
  lemma NoLostWrite(init: State, steps: seq<Step>, p: nat)
    requires Init(init) && Possible(init, steps) && Obeys(init, steps, PageSafe) && Obeys(init, steps, QueueSafe)
    ensures p in Exec(init, steps).written ==> Pending(Exec(init, steps), p)
  {
    hide Shape, Tokens;
    InitAlways(init);
    InitGuarded(init);
    InitAccounted(init);
    GuardedRun(init, steps);
    AccountedRun(init, steps);
    var s := Exec(init, steps);
    if p in s.written && p in s.queued {
      QueuedIsPending(s, p);
    }
  }

  /** Queue safety: a writer that stores into its claimed slot finds it empty, so no
      entry is overwritten before TakeFaulted has taken it, and TakeFaulted reads the page
      each position was claimed for. */
  lemma QueueSafety(init: State, steps: seq<Step>)
    requires Init(init) && Possible(init, steps) && Obeys(init, steps, QueueSafe)
    ensures var s := Exec(init, steps);
            && |s.slots| == s.capacity > 0
            && (forall t: nat, p: nat, k: nat :: t < |s.writers| && Fills(s.writers[t], p, k) ==> SlotOf(s.slots, k) == 0)
            && (s.owner.Taking? && s.owner.at < |s.log| && SlotOf(s.slots, s.owner.at) != 0 ==>
                  SlotOf(s.slots, s.owner.at) == s.log[s.owner.at])
  {
    InitAlways(init);
    InitAccounted(init);
    AccountedRun(init, steps);
  }

  // ---- how full the queue gets ------------------------------------------------------------

  /** With at most half the queue in orphans, a thread that holds a page finds room for it. */
  lemma RoomToClaim(s: State, t: nat, p: nat)
    requires Shape(s) && Room(s) && t < |s.writers| && |Orphans(s)| <= s.capacity / 2
    requires Outstanding(s.queued, s.log, s.tail, Todo(s.owner), s.writers) && TakeShape(s) && Holds(s.writers[t], p)
    ensures |s.log| < Position(s.owner, s.tail) + s.capacity
  {
    hide Shape, Room;
    QueuedFits(s);
    ClaimFits(s.queued, s.log, s.tail, p);
  }

  /** The capacity check of ArmFault holds on to its bound in every run in which ArmFault
      does not give up half-way. */
  lemma RoomKept(s: State, step: Step)
    requires Always(s) && Room(s) && Enabled(s, step) && !step.Abort?
    ensures Room(Apply(s, step))
  {
    hide Tokens, Shape, Room;
    if step.Thread? {
      ThreadRoom(s, step.t);
    } else if step.Advance? {
      OwnerRoom(s);
    } else if step.Reopen? {
      ReopenRoom(s, step.page);
    } else {
      StartRoom(s, step);
    }
  }

  lemma StartRoom(s: State, step: Step)
    requires Room(s) && Enabled(s, step)
    requires !step.Abort? && !step.Thread? && !step.Advance? && !step.Reopen?
    ensures Room(Apply(s, step))
  {
  }

  lemma ThreadRoom(s: State, t: nat)
    requires Room(s) && t < |s.writers|
    ensures Room(ThreadStep(s, t))
  {
    hide ThreadStep;
    ThreadFrame(s, t);
  }

  lemma ThreadFrame(s: State, t: nat)
    requires t < |s.writers|
    ensures var n := ThreadStep(s, t);
            && n.shielded <= s.shielded && n.owner == s.owner && n.armed == s.armed && n.capacity == s.capacity
            && n.queued <= s.shielded + s.queued
  {
  }

  /** A page that is being reopened is not protected. */
  lemma ReopenRoom(s: State, p: nat)
    requires Always(s) && Room(s) && Enabled(s, Reopen(p))
    ensures Room(Apply(s, Reopen(p)))
  {
    assert PageAt(s, InTodo(p)) == p;
    SubsetSize(s.armed - {p}, s.armed);
  }

  lemma OwnerRoom(s: State)
    requires Shape(s) && Room(s) && Enabled(s, Advance)
    ensures Room(OwnerStep(s))
  {
    hide Pages, Shape;
    match s.owner {
      case Marking(first, end, at, run) => MarkRoom(s);
      case Disarming(first, end, at) => DisarmRoom(s);
      case _ =>
    }
  }

  lemma MarkRoom(s: State)
    requires Shape(s) && Room(s) && s.owner.Marking?
    ensures Room(OwnerStep(s))
  {
    hide Pages, Shape;
    MarkingPlace(s);
    var Marking(first, end, at, run) := s.owner;
    PagesMember(first, end, at);
    PagesSize(first, end);
    UnionSize(s.armed, Pages(first, end));
  }

  lemma MarkingPlace(s: State)
    requires Shape(s) && s.owner.Marking?
    ensures s.owner.first <= s.owner.at <= s.owner.end
  {
  }

  lemma DisarmRoom(s: State)
    requires Shape(s) && Room(s) && s.owner.Disarming?
    ensures Room(OwnerStep(s))
  {
    hide Pages, Shape;
    var Disarming(first, end, at) := s.owner;
    if at >= end {
      DisarmedAll(s);
    }
    SubsetSize(s.armed - Pages(first, end), s.armed);
  }

  lemma DisarmedAll(s: State)
    requires Shape(s) && s.owner.Disarming? && s.owner.at >= s.owner.end
    ensures Pages(s.owner.first, s.owner.end) !! s.shielded
  {
  }

  /** Without Disarm no written page leaves the run map before it is collected. */
  ghost predicate Listed(s: State) {
    s.queued <= s.armed + Target(s.owner) && !s.owner.Disarming? && !s.owner.Noting?
  }

  predicate DisarmFree(steps: seq<Step>) {
    forall i :: 0 <= i < |steps| ==> !steps[i].Disarm? && !steps[i].Abort?
  }

  lemma ListedStep(s: State, step: Step)
    requires Room(s) && Listed(s) && Enabled(s, step) && !step.Disarm? && !step.Abort?
    ensures Listed(Apply(s, step))
  {
    if step.Thread? {
      ListedThread(s, step.t);
    } else if step.Advance? {
      ListedOwner(s);
    } else {
      ListedOther(s, step);
    }
  }

  lemma ListedThread(s: State, t: nat)
    requires Room(s) && Listed(s) && t < |s.writers|
    ensures Listed(ThreadStep(s, t))
  {
    hide ThreadStep;
    ThreadFrame(s, t);
  }

  lemma ListedOther(s: State, step: Step)
    requires Listed(s) && Enabled(s, step) && !step.Disarm? && !step.Abort? && !step.Thread? && !step.Advance?
    ensures Listed(Apply(s, step))
  {
  }

  lemma ListedOwner(s: State)
    requires Listed(s)
    ensures Listed(OwnerStep(s))
  {
  }

  lemma ListedClaim(s: State, step: Step)
    requires Always(s) && Accounted(s) && Room(s) && Listed(s) && Enabled(s, step)
    ensures QueueSafe(s, step)
  {
    hide Tokens, Outstanding, Filled;
    if Claims(s, step) {
      var w := s.writers[step.t];
      var p := if w.Claiming? then w.page else w.at;
      assert Orphans(s) == {};
      RoomToClaim(s, step.t, p);
    }
  }

  lemma {:induction false} DisarmFreeRun(s: State, steps: seq<Step>)
    requires Always(s) && Accounted(s) && Room(s) && Listed(s) && Possible(s, steps) && DisarmFree(steps)
    ensures Obeys(s, steps, QueueSafe)
    ensures Always(Exec(s, steps)) && Room(Exec(s, steps)) && Listed(Exec(s, steps))
    decreases |steps|
  {
    hide Always, Accounted, Room, Listed, QueueSafe;
    if steps != [] {
      ListedClaim(s, steps[0]);
      AlwaysStep(s, steps[0]);
      AlwaysShape(s);
      AccountedStep(s, steps[0]);
      RoomKept(s, steps[0]);
      ListedStep(s, steps[0]);
      DisarmFreeRun(Apply(s, steps[0]), steps[1..]);
    }
  }

  lemma AlwaysShape(s: State)
    requires Always(s)
    ensures Shape(s)
  {
  }

  /** In every run without Disarm, in which ArmFault does not give up half-way, the
      protected and queued pages number fewer than half the queue, and no claim ever finds
      it full: the promises of the queue hold without any guard. */
  lemma DisarmFreeIsSafe(init: State, steps: seq<Step>)
    requires Init(init) && Possible(init, steps) && DisarmFree(steps)
    ensures Obeys(init, steps, QueueSafe)
    ensures |Exec(init, steps).shielded + Exec(init, steps).queued| < Exec(init, steps).capacity / 2
  {
    hide Tokens;
    InitAlways(init);
    InitAccounted(init);
    assert |init.armed| == 0;
    DisarmFreeRun(init, steps);
    var s := Exec(init, steps);
    SubsetSize(s.shielded + s.queued, s.armed + Target(s.owner));
    UnionSize(s.armed, Target(s.owner));
    if s.owner.Marking? {
      PagesSize(s.owner.first, s.owner.end);
    }
  }
}
