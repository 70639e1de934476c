/** Where the write protocol stops keeping its promises, each shown by a run of the
    protocol itself: a host write in flight, a failed allocation inside ArmFault, pages
    disarmed while queued, and a fault that is handled late.
 */
module WriteFindings {
  import opened WriteProtocol
  import opened WriteInvariant
  import opened WriteAlways
  import opened WriteTheorems
  import opened WriteRuns
  import opened WriteExact

  /** ArmFault up to the point where page p is marked but not yet protected. */
  lemma MarkOne(s: State, m: State, p: nat, allow: Step -> bool)
    requires Reaches(s, m, allow) && m.owner == Resting && 0 < p && p !in m.shielded && p !in m.queued
    requires |m.armed| + 1 < m.capacity / 2 && allow(Arm(p, p + 1)) && allow(Advance)
    ensures Reaches(s, m.(owner := Marking(p, p + 1, p + 1, p),
                          shielded := m.shielded + {p}, everArmed := m.everArmed + {p}), allow)
  {
    hide Reaches;
    Go(s, m, Arm(p, p + 1), allow);
    var a := m.(owner := Checking(p, p + 1, p));
    Go(s, a, Advance, allow);
    var b := m.(owner := Checking(p, p + 1, p + 1));
    Go(s, b, Advance, allow);
    var c := m.(owner := Marking(p, p + 1, p, 0));
    Go(s, c, Advance, allow);
  }

  function Armed(m: State, p: nat): State {
    m.(shielded := m.shielded + {p}, everArmed := m.everArmed + {p}, readOnly := m.readOnly + {p},
       armed := m.armed + {p}, tracked := m.tracked + {p})
  }

  /** Arm returns true for the single page p. */
  lemma ArmOne(s: State, m: State, p: nat, allow: Step -> bool)
    requires Reaches(s, m, allow) && m.owner == Resting && 0 < p && p !in m.shielded && p !in m.queued
    requires |m.armed| + 1 < m.capacity / 2 && allow(Arm(p, p + 1)) && allow(Advance)
    ensures Reaches(s, Armed(m, p), allow)
  {
    hide Reaches;
    MarkOne(s, m, p, allow);
    OnePage(p);
    Go(s, m.(owner := Marking(p, p + 1, p + 1, p), shielded := m.shielded + {p}, everArmed := m.everArmed + {p}),
       Advance, allow);
  }

  function Enqueued(m: State, p: nat): State
    requires |m.slots| > 0
  {
    m.(log := m.log + [p], slots := m.slots[|m.log| % |m.slots| := p])
  }

  /** A thread that holds page p enqueues it and returns from its handler. */
  lemma EnqueueOne(s: State, m: State, t: nat, p: nat, allow: Step -> bool)
    requires Reaches(s, m, allow) && t < |m.writers| && m.writers[t] == Claiming(p) && |m.slots| > 0 && allow(Thread(t))
    ensures Reaches(s, Enqueued(SetWriter(m, t, Idle), p), allow)
  {
    hide Reaches;
    Go(s, m, Thread(t), allow);
    var a := SetWriter(m, t, Filling(p, |m.log|)).(log := m.log + [p]);
    Go(s, a, Thread(t), allow);
    assert a.writers[t := Idle] == m.writers[t := Idle];
  }

  function Faulting(m: State, p: nat): State {
    m.(shielded := m.shielded - {p}, queued := m.queued + {p}, readOnly := m.readOnly - {p})
  }

  /** A thread in the fault handler of protected page p exchanges and opens it. */
  lemma OpenOne(s: State, m: State, t: nat, p: nat, allow: Step -> bool)
    requires Reaches(s, m, allow) && t < |m.writers| && m.writers[t] == Faulted(p) && p in m.shielded && allow(Thread(t))
    ensures Reaches(s, SetWriter(Faulting(m, p), t, Claiming(p)), allow)
  {
    hide Reaches;
    Go(s, m, Thread(t), allow);
    var a := SetWriter(m, t, Opening(p)).(shielded := m.shielded - {p}, queued := m.queued + {p});
    Go(s, a, Thread(t), allow);
    assert a.writers[t := Claiming(p)] == m.writers[t := Claiming(p)];
  }

  function Collected(m: State, p: nat): State
    requires |m.slots| > 0
  {
    m.(slots := m.slots[m.tail % |m.slots| := 0], tail := |m.log|, queued := m.queued - {p},
       armed := m.armed - {p}, tracked := m.tracked - {p}, written := m.written - {p})
  }

  /** TakeFaulted with page p alone in the queue. */
  lemma CollectOne(s: State, m: State, p: nat, allow: Step -> bool)
    requires Reaches(s, m, allow) && m.owner == Resting && |m.log| == m.tail + 1 && p != 0
    requires |m.slots| == m.capacity > 0 && m.slots[m.tail % m.capacity] == p
    requires allow(Take) && allow(Advance) && allow(Reopen(p))
    ensures Reaches(s, Collected(m, p), allow)
  {
    hide Reaches;
    Go(s, m, Take, allow);
    var a := m.(owner := Taking(m.tail, |m.log|, []));
    Go(s, a, Advance, allow);
    var b := m.(owner := Taking(m.tail + 1, |m.log|, [p]), slots := m.slots[m.tail % |m.slots| := 0]);
    assert [] + [p] == [p];
    Go(s, b, Advance, allow);
    var c := m.(owner := Reopening({p}), tail := |m.log|, slots := m.slots[m.tail % |m.slots| := 0]);
    assert Elements([p]) == {p};
    Go(s, c, Reopen(p), allow);
    assert {p} - {p} == {};
    Go(s, Collected(m, p).(owner := Reopening({})), Advance, allow);
  }

  // ---- a late fault --------------------------------------------------------------

  /** Two threads fault on the same page; the second handles its fault only when the page
      has been collected and is being armed again, between the mark and the mprotect.
      Collecting its entry then leaves the page open, read-only and unattended. */
  lemma LateFaultSticks(init: State)
    requires Init(init) && init.capacity >= 4 && |init.writers| >= 2
    ensures exists s :: Reaches(init, s, Plain()) && Stuck(s, 1) && 1 !in s.queued && s.owner == Resting
  {
    hide Reaches;
    var ok := Plain();
    Start(init, ok);
    OnePage(1);
    ArmOne(init, init, 1, ok);
    var a := Armed(init, 1);
    Go(init, a, Fault(0, 1), ok);
    var b := SetWriter(a, 0, Faulted(1));
    Go(init, b, Fault(1, 1), ok);
    var c := SetWriter(b, 1, Faulted(1));
    OpenOne(init, c, 0, 1, ok);
    var d := SetWriter(Faulting(c, 1), 0, Claiming(1));
    EnqueueOne(init, d, 0, 1, ok);
    var e := Enqueued(SetWriter(d, 0, Idle), 1);
    CollectOne(init, e, 1, ok);
    var f := Collected(e, 1);
    assert f.armed == {} && f.shielded == {} && f.queued == {};
    LateHalf(init, f);
  }

  lemma LateHalf(init: State, f: State)
    requires Reaches(init, f, Plain()) && f.owner == Resting && f.capacity >= 4 && |f.slots| == f.capacity
    requires f.armed == {} && f.shielded == {} && f.queued == {} && f.tail == |f.log|
    requires |f.writers| >= 2 && f.writers[1] == Faulted(1)
    requires forall t :: 0 <= t < |f.writers| && t != 1 ==> f.writers[t] == Idle
    ensures exists s :: Reaches(init, s, Plain()) && Stuck(s, 1) && 1 !in s.queued && s.owner == Resting
  {
    hide Reaches;
    var ok := Plain();
    OnePage(1);
    MarkOne(init, f, 1, ok);
    var g := f.(owner := Marking(1, 2, 2, 1), shielded := f.shielded + {1}, everArmed := f.everArmed + {1});
    OpenOne(init, g, 1, 1, ok);
    var h := SetWriter(Faulting(g, 1), 1, Claiming(1));
    Go(init, h, Advance, ok);
    var i := h.(owner := Resting, readOnly := h.readOnly + {1}, armed := h.armed + {1}, tracked := h.tracked + {1});
    EnqueueOne(init, i, 1, 1, ok);
    var j := Enqueued(SetWriter(i, 1, Idle), 1);
    CollectOne(init, j, 1, ok);
    var k := Collected(j, 1);
    assert Stuck(k, 1);
  }

  // ---- a host write in flight --------------------------------------------------------

  /** OnHostWrite enqueues a page before its batched mprotect. If the page is collected and
      armed again in between, the mprotect opens a page that is protected: a store to it
      completes and nothing will report it. */
  lemma HostWriteLosesStore(init: State)
    requires Init(init) && init.capacity >= 4 && |init.writers| >= 1
    ensures exists s :: Reaches(init, s, PlainOrHost()) && 1 in s.shielded && ArmingFinished(s, 1) &&
                        1 in s.written && !Pending(s, 1)
  {
    hide Reaches;
    var ok := PlainOrHost();
    Start(init, ok);
    OnePage(1);
    ArmOne(init, init, 1, ok);
    var a := Armed(init, 1);
    Go(init, a, HostBegin(0, 1, 2), ok);
    var b := SetWriter(a, 0, HostScan(2, 1, 0));
    Go(init, b, Thread(0), ok);
    var c := SetWriter(b, 0, HostClaim(2, 1, 1)).(shielded := b.shielded - {1}, queued := b.queued + {1});
    Go(init, c, Thread(0), ok);
    var d := SetWriter(c, 0, HostFill(2, 1, 1, 0)).(log := [1]);
    assert c.log + [1] == [1];
    Go(init, d, Thread(0), ok);
    var e := SetWriter(d, 0, HostScan(2, 2, 1)).(slots := d.slots[0 := 1]);
    assert 0 % |d.slots| == 0;
    CollectOne(init, e, 1, ok);
    HostHalf(init, Collected(e, 1));
  }

  lemma HostHalf(init: State, f: State)
    requires Reaches(init, f, PlainOrHost()) && f.owner == Resting && f.capacity >= 4
    requires f.armed == {} && f.shielded == {} && f.queued == {}
    requires |f.writers| >= 1 && f.writers[0] == HostScan(2, 2, 1)
    requires forall t :: 1 <= t < |f.writers| ==> f.writers[t] == Idle
    requires forall x :: 0 <= x < |f.slots| ==> f.slots[x] == 0
    ensures exists s :: Reaches(init, s, PlainOrHost()) && 1 in s.shielded && ArmingFinished(s, 1) &&
                        1 in s.written && !Pending(s, 1)
  {
    hide Reaches;
    var ok := PlainOrHost();
    OnePage(1);
    ArmOne(init, f, 1, ok);
    var g := Armed(f, 1);
    Go(init, g, Thread(0), ok);
    var i := SetWriter(g, 0, HostFlush(2, 2, 1));
    Go(init, i, Thread(0), ok);
    var h := SetWriter(i, 0, Idle).(readOnly := i.readOnly - {1});
    Go(init, h, Store(1), ok);
    var k := h.(written := h.written + {1});
    assert !Pending(k, 1);
  }

  // ---- an allocation failure inside ArmFault -------------------------------------------

  /** ArmFault leaves its marking loop when the record of the next page cannot be
      allocated, with earlier pages marked but never protected. AllArmed then answers true
      for such a page, and a store to it is not reported. Pages 262143 and 262144 are the
      last of one 1 GiB chunk of the page table and the first of the next. */
  lemma FailedArmLosesStore(init: State)
    requires Init(init) && init.capacity >= 6
    ensures exists s :: Reaches(init, s, PlainOrAbort()) && 262143 in s.shielded && ArmingFinished(s, 262143) &&
                        262143 in s.written && !Pending(s, 262143)
  {
    hide Reaches;
    var ok, p := PlainOrAbort(), 262143;
    Start(init, ok);
    OnePage(p);
    Go(init, init, Arm(p, p + 2), ok);
    Go(init, init.(owner := Checking(p, p + 2, p)), Advance, ok);
    Go(init, init.(owner := Checking(p, p + 2, p + 1)), Advance, ok);
    Go(init, init.(owner := Checking(p, p + 2, p + 2)), Advance, ok);
    Go(init, init.(owner := Marking(p, p + 2, p, 0)), Advance, ok);
    var a := init.(owner := Marking(p, p + 2, p + 1, p), shielded := {p}, everArmed := {p});
    assert init.shielded + {p} == {p} && init.everArmed + {p} == {p};
    Go(init, a, Abort, ok);
    AbortHalf(init, a.(owner := Resting), p);
  }

  lemma AbortHalf(init: State, b: State, p: nat)
    requires Reaches(init, b, PlainOrAbort()) && b.owner == Resting && 0 < p && p in b.shielded
    requires b.shielded == {p} && b.readOnly == {} && b.queued == {}
    requires forall t :: 0 <= t < |b.writers| ==> b.writers[t] == Idle
    requires forall x :: 0 <= x < |b.slots| ==> b.slots[x] == 0
    ensures exists s :: Reaches(init, s, PlainOrAbort()) && p in s.shielded && ArmingFinished(s, p) &&
                        p in s.written && !Pending(s, p)
  {
    hide Reaches;
    var ok := PlainOrAbort();
    OnePage(p);
    Go(init, b, Scan(p, p + 1), ok);
    Go(init, b.(owner := Scanning(p, p + 1, p)), Advance, ok);
    Go(init, b.(owner := Scanning(p, p + 1, p + 1)), Advance, ok);
    var c := b.(tracked := b.tracked + {p});
    Go(init, c, Store(p), ok);
    var k := c.(written := c.written + {p});
    assert !Pending(k, p);
  }

  // ---- disarming queued pages ------------------------------------------------------------

  /** Page p is armed, written by thread 0 and disarmed before anyone collects. */
  lemma WriteAndDisarm(s: State, m: State, p: nat, allow: Step -> bool)
    requires Reaches(s, m, allow) && allow == PlainOrDisarm()
    requires m.owner == Resting && 0 < p && p !in m.shielded && p !in m.queued && m.armed == {}
    requires m.capacity == |m.slots| >= 4 && |m.writers| >= 1 && m.writers[0] == Idle
    requires p !in m.readOnly && p !in m.tracked && m.written == {}
    ensures Reaches(s, Enqueued(m, p).(queued := m.queued + {p}, everArmed := m.everArmed + {p}), allow)
  {
    hide Reaches;
    OnePage(p);
    ArmOne(s, m, p, allow);
    var a := Armed(m, p);
    Go(s, a, Fault(0, p), allow);
    OpenOne(s, SetWriter(a, 0, Faulted(p)), 0, p, allow);
    var b := SetWriter(Faulting(SetWriter(a, 0, Faulted(p)), p), 0, Claiming(p));
    EnqueueOne(s, b, 0, p, allow);
    var c := Enqueued(SetWriter(b, 0, Idle), p);
    assert c.writers == m.writers;
    DisarmOne(s, c, p, allow);
    AddedRemoved(m.shielded, p);
    AddedRemoved(m.readOnly, p);
    AddedRemoved(m.armed, p);
    AddedRemoved(m.tracked, p);
  }

  lemma AddedRemoved(x: set<nat>, p: nat)
    requires p !in x
    ensures x + {p} - {p} == x && x + {p} - {p} - {p} == x && x - {p} == x
  {
  }

  lemma DisarmOne(s: State, m: State, p: nat, allow: Step -> bool)
    requires Reaches(s, m, allow) && m.owner == Resting && 0 < p && allow(Disarm(p, p + 1)) && allow(Advance)
    ensures Reaches(s, m.(shielded := m.shielded - {p}, readOnly := m.readOnly - {p}, armed := m.armed - {p},
                          tracked := m.tracked - {p}, written := m.written - {p}), allow)
  {
    hide Reaches;
    OnePage(p);
    Go(s, m, Disarm(p, p + 1), allow);
    Go(s, m.(owner := Disarming(p, p + 1, p)), Advance, allow);
    var a := m.(owner := Disarming(p, p + 1, p + 1), shielded := m.shielded - {p});
    Go(s, a, Advance, allow);
    var b := m.(owner := Noting(p, p + 1), shielded := m.shielded - {p}, readOnly := m.readOnly - {p},
                armed := m.armed - {p});
    Go(s, b, Advance, allow);
  }

  /** The state after pages 1..n went through WriteAndDisarm, one after the other. */
  function Rounds(init: State, n: nat): State
    requires n <= init.capacity
  {
    init.(queued := Pages(1, n + 1), everArmed := Pages(1, n + 1),
          log := seq(n, i => i + 1), slots := seq(init.capacity, i => if i < n then i + 1 else 0))
  }

  lemma RoundsNext(init: State, n: nat)
    requires 0 < n <= init.capacity && |init.writers| > 0
    ensures var m := Rounds(init, n - 1);
            Enqueued(m, n).(queued := m.queued + {n}, everArmed := m.everArmed + {n}) == Rounds(init, n)
  {
    var m, k := Rounds(init, n - 1), Rounds(init, n);
    PagesSnoc(1, n);
    assert (n - 1) % init.capacity == n - 1;
    assert m.log + [n] == k.log;
    assert m.slots[n - 1 := n] == k.slots;
  }

  lemma {:induction false} FillQueue(init: State, n: nat)
    requires Init(init) && init.capacity >= 4 && |init.writers| >= 1 && n <= init.capacity
    ensures Reaches(init, Rounds(init, n), PlainOrDisarm())
  {
    hide Reaches;
    var ok := PlainOrDisarm();
    if n == 0 {
      Start(init, ok);
      assert Pages(1, 1) == {};
      assert Rounds(init, 0) == init;
    } else {
      FillQueue(init, n - 1);
      var m := Rounds(init, n - 1);
      PagesMember(1, n, n);
      WriteAndDisarm(init, m, n, ok);
      RoundsNext(init, n);
    }
  }

  /** Disarm drops a written page from the byte count while its entry stays queued, so a
      cache that arms and releases pages without collecting fills the whole queue: a
      writer is then about to overwrite an entry nobody has taken. */
  lemma DisarmOverrunsQueue(init: State)
    requires Init(init) && init.capacity >= 4 && |init.writers| >= 1
    ensures exists s, p: nat, k: nat ::
              Reaches(init, s, PlainOrDisarm()) && |s.slots| > 0 && |s.writers| > 0 && Fills(s.writers[0], p, k) && SlotOf(s.slots, k) != 0
  {
    hide Reaches;
    var ok, p := PlainOrDisarm(), init.capacity + 1;
    FillQueue(init, init.capacity);
    var m := Rounds(init, init.capacity);
    PagesMember(1, p, p);
    ArmOne(init, m, p, ok);
    var a := Armed(m, p);
    Go(init, a, Fault(0, p), ok);
    OpenOne(init, SetWriter(a, 0, Faulted(p)), 0, p, ok);
    var b := SetWriter(Faulting(SetWriter(a, 0, Faulted(p)), p), 0, Claiming(p));
    Go(init, b, Thread(0), ok);
    var c := SetWriter(b, 0, Filling(p, |b.log|)).(log := b.log + [p]);
    assert Fills(c.writers[0], p, init.capacity);
    assert init.capacity % init.capacity == 0;
    assert SlotOf(c.slots, init.capacity) == 1;
  }
}
