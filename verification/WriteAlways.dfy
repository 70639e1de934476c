/** What every run of the write protocol keeps, whatever its environment does: the states
    stay well-formed, and a written page never has two reports under way.
 */
module WriteAlways {
  import opened WriteProtocol
  import opened WriteInvariant

  // ---- shapes ------------------------------------------------------------------

  /** A host write that exchanges page `at` adds it to its unopened batch. */
  lemma BatchSnoc(run: nat, at: nat)
    requires 0 < at && run <= at
    ensures Batch(if run == 0 then at else run, at + 1) == Batch(run, at) + {at}
  {
    if run == 0 {
      PagesSnoc(at, at);
      assert Pages(at, at) == {};
    } else {
      PagesSnoc(run, at);
    }
  }

  lemma ThreadShape(s: State, t: nat)
    requires Shape(s) && t < |s.writers|
    ensures Shape(ThreadStep(s, t))
  {
    hide OwnerShape, HostShape;
    var w, n := s.writers[t], ThreadStep(s, t);
    ThreadHostShape(s, t);
    forall u | 0 <= u < |n.writers| ensures HostShape(n.writers[u]) {
      assert u != t ==> n.writers[u] == s.writers[u];
    }
    assert n.shielded + n.queued == s.shielded + s.queued;
    FewerShielded(s, n);
  }

  lemma ThreadHostShape(s: State, t: nat)
    requires t < |s.writers| && HostShape(s.writers[t]) && 0 !in s.shielded
    ensures HostShape(ThreadStep(s, t).writers[t])
  {
  }

  lemma FewerShielded(s: State, n: State)
    requires OwnerShape(s) && n.owner == s.owner && n.shielded <= s.shielded
    requires n.shielded + n.queued == s.shielded + s.queued
    ensures OwnerShape(n)
  {
  }

  /** Every page of the batch has been marked, so the handler recognises it. */
  lemma BatchArmed(s: State)
    requires Shape(s) && s.owner.Marking?
    ensures Batch(s.owner.run, s.owner.at) <= s.everArmed
    ensures Batch(s.owner.run, s.owner.at) <= s.shielded + s.queued
  {
    var Marking(first, end, at, run) := s.owner;
    forall p | p in Batch(run, at) ensures p in s.shielded + s.queued && p in s.everArmed {
      PagesMember(first, at, p);
    }
  }

  lemma OwnerShapeKept(s: State)
    requires Shape(s) && Enabled(s, Advance)
    ensures Shape(OwnerStep(s))
  {
    hide Pages, Elements;
    match s.owner {
      case Scanning(first, end, at) => PagesSnoc(first, at);
      case Checking(first, end, at) => NoPages(first);
      case Marking(first, end, at, run) =>
        BatchArmed(s);
        PagesSnoc(first, at);
      case Disarming(first, end, at) => PagesSnoc(first, at);
      case _ =>
    }
  }

  lemma NoPages(p: nat)
    ensures Pages(p, p) == {}
  {
  }

  lemma OtherShape(s: State, step: Step)
    requires Shape(s) && Enabled(s, step) && !step.Thread? && !step.Advance?
    ensures Shape(Apply(s, step))
  {
    match step {
      case Scan(first, end) => NoPages(first);
      case Disarm(first, end) => NoPages(first);
      case _ =>
    }
  }

  // ---- tokens ------------------------------------------------------------------

  /** All places keep what they hold or lose it, except that `to` may get what `from` had. */
  ghost predicate Moved(s: State, n: State, from: Place, to: Place) {
    forall a :: PageAt(n, a) != 0 ==>
                  if a == to then PageAt(n, a) == PageAt(s, from)
                  else a != from && PageAt(n, a) == PageAt(s, a)
  }

  lemma TokensMoved(s: State, n: State, from: Place, to: Place)
    requires Tokens(s) && Moved(s, n, from, to) && s.queued <= n.queued
    ensures Tokens(n)
  {
    hide PageAt;
    forall a, b | PageAt(n, a) == PageAt(n, b) != 0 ensures a == b {
      var x := if a == to then from else a;
      var y := if b == to then from else b;
      assert PageAt(s, x) == PageAt(s, y) != 0;
    }
  }

  /** The exchange from protected to queued starts a report. */
  lemma TokensStart(s: State, n: State, t: nat, p: nat)
    requires Tokens(s) && p !in s.queued && n.queued == s.queued + {p}
    requires forall a :: a != InWriter(t) ==> PageAt(n, a) == PageAt(s, a)
    requires PageAt(n, InWriter(t)) == p
    ensures Tokens(n)
  {
    hide PageAt;
    forall a | a != InWriter(t) && PageAt(n, a) != 0 ensures PageAt(n, a) != p {
      assert PageAt(s, a) in s.queued;
    }
    forall a, b | PageAt(n, a) == PageAt(n, b) != 0 ensures a == b {
      if a != InWriter(t) && b != InWriter(t) {
        assert PageAt(s, a) == PageAt(s, b);
      }
    }
  }

  lemma ThreadTokens(s: State, t: nat)
    requires Shape(s) && Tokens(s) && t < |s.writers|
    ensures Tokens(ThreadStep(s, t))
  {
    hide Tokens;
    var w, n := s.writers[t], ThreadStep(s, t);
    if (w.Faulted? && w.page in s.shielded) || (w.HostScan? && w.at < w.end && w.at in s.shielded) {
      var p := if w.Faulted? then w.page else w.at;
      TokensStart(s, n, t, p);
    } else if w.Filling? || w.HostFill? {
      var x := w.slot % |s.slots|;
      assert Moved(s, n, InWriter(t), InSlot(x));
      TokensMoved(s, n, InWriter(t), InSlot(x));
    } else {
      assert Token(n.writers[t]) == Token(w);
      assert Moved(s, n, InWriter(t), InWriter(t));
      TokensMoved(s, n, InWriter(t), InWriter(t));
    }
  }

  lemma OwnerTokens(s: State)
    requires Shape(s) && Tokens(s) && Enabled(s, Advance)
    ensures Tokens(OwnerStep(s))
  {
    hide Tokens, Pages;
    var n := OwnerStep(s);
    if s.owner.Taking? && s.owner.at < s.owner.head {
      var x, i := s.owner.at % |s.slots|, |s.owner.taken|;
      assert Moved(s, n, InSlot(x), InTaken(i));
      TokensMoved(s, n, InSlot(x), InTaken(i));
    } else if s.owner.Taking? {
      TakenTokens(s);
    } else {
      assert Moved(s, n, InWriter(0), InWriter(0));
      TokensMoved(s, n, InWriter(0), InWriter(0));
    }
  }

  /** The pages taken from the queue pass to the owner's list. */
  lemma TakenTokens(s: State)
    requires Tokens(s) && s.owner.Taking? && s.owner.at >= s.owner.head
    ensures Tokens(OwnerStep(s))
  {
    var n := OwnerStep(s);
    forall a | PageAt(n, a) != 0 ensures PageAt(s, Origin(s, a)) == PageAt(n, a) {
    }
    forall a, b | PageAt(n, a) == PageAt(n, b) != 0 ensures a == b {
      assert Origin(s, a) == Origin(s, b);
    }
  }

  /** Where the page at place a of the owner's list was before. */
  ghost function Origin(s: State, a: Place): Place {
    if a.InTodo? && s.owner.Taking? && a.p in s.owner.taken
    then var i :| 0 <= i < |s.owner.taken| && s.owner.taken[i] == a.p; InTaken(i)
    else a
  }

  lemma OtherTokens(s: State, step: Step)
    requires Tokens(s) && Enabled(s, step) && !step.Thread? && !step.Advance?
    ensures Tokens(Apply(s, step))
  {
    hide Tokens, Pages;
    var n := Apply(s, step);
    if step.Reopen? {
      ReopenTokens(s, step.page);
    } else {
      assert Moved(s, n, InWriter(0), InWriter(0));
      TokensMoved(s, n, InWriter(0), InWriter(0));
    }
  }

  lemma ReopenTokens(s: State, p: nat)
    requires Tokens(s) && Enabled(s, Reopen(p))
    ensures Tokens(Apply(s, Reopen(p)))
  {
    var n := Apply(s, Reopen(p));
    assert PageAt(s, InTodo(p)) == p && PageAt(n, InTodo(p)) == 0;
    forall a | PageAt(n, a) != 0 ensures PageAt(s, a) == PageAt(n, a) && PageAt(n, a) in n.queued {
    }
  }

  // ---- every run ----------------------------------------------------------------

  lemma InitAlways(s: State)
    requires Init(s)
    ensures Always(s)
  {
    forall a ensures PageAt(s, a) == 0 {
    }
  }

  lemma AlwaysStep(s: State, step: Step)
    requires Always(s) && Enabled(s, step)
    ensures Always(Apply(s, step))
  {
    hide Shape, Tokens;
    if step.Thread? {
      ThreadShape(s, step.t);
      ThreadTokens(s, step.t);
    } else if step.Advance? {
      OwnerShapeKept(s);
      OwnerTokens(s);
    } else {
      OtherShape(s, step);
      OtherTokens(s, step);
    }
  }

  lemma {:induction false} AlwaysRun(s: State, steps: seq<Step>)
    requires Always(s) && Possible(s, steps)
    ensures Always(Exec(s, steps))
    decreases |steps|
  {
    hide Always;
    if steps != [] {
      AlwaysStep(s, steps[0]);
      AlwaysRun(Apply(s, steps[0]), steps[1..]);
    }
  }

  /** In every run, however full the queue gets, no page is in it twice, and a page that is
      not queued has no report under way. */
  lemma OneReportAtMost(init: State, steps: seq<Step>)
    requires Init(init) && Possible(init, steps)
    ensures var s := Exec(init, steps);
            && (forall x, y :: 0 <= x < y < |s.slots| && s.slots[x] != 0 ==> s.slots[x] != s.slots[y])
            && (forall a :: PageAt(s, a) != 0 ==> PageAt(s, a) in s.queued && PageAt(s, a) !in s.shielded)
  {
    InitAlways(init);
    AlwaysRun(init, steps);
    var s := Exec(init, steps);
    forall x, y | 0 <= x < y < |s.slots| && s.slots[x] != 0 ensures s.slots[x] != s.slots[y] {
      assert PageAt(s, InSlot(x)) == s.slots[x] && PageAt(s, InSlot(y)) == s.slots[y];
    }
  }
}
