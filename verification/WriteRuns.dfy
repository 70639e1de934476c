/** Reachability in the write protocol, one step at a time. */
module WriteRuns {
  import opened WriteProtocol
  import opened WriteInvariant
  import opened WriteAlways

  /** State n is reached from s by a run of enabled steps, all of an allowed kind. */
  ghost predicate Reaches(s: State, n: State, allow: Step -> bool) {
    exists steps :: Possible(s, steps) && Exec(s, steps) == n && AllAllowed(steps, allow)
  }

  predicate AllAllowed(steps: seq<Step>, allow: Step -> bool) {
    forall i :: 0 <= i < |steps| ==> allow(steps[i])
  }

  /** Faults, stores, arming and collecting only. */
  function Plain(): Step -> bool {
    (x: Step) => !x.Abort? && !x.Disarm? && !x.HostBegin?
  }

  function PlainOrHost(): Step -> bool {
    (x: Step) => !x.Abort? && !x.Disarm?
  }

  function PlainOrAbort(): Step -> bool {
    (x: Step) => !x.Disarm? && !x.HostBegin?
  }

  function PlainOrDisarm(): Step -> bool {
    (x: Step) => !x.Abort? && !x.HostBegin?
  }

  lemma {:induction false} RunSnoc(s: State, steps: seq<Step>, x: Step)
    requires Possible(s, steps) && Enabled(Exec(s, steps), x)
    ensures Possible(s, steps + [x]) && Exec(s, steps + [x]) == Apply(Exec(s, steps), x)
    decreases |steps|
  {
    if steps == [] {
      assert (steps + [x])[1..] == [];
    } else {
      RunSnoc(Apply(s, steps[0]), steps[1..], x);
      assert (steps + [x])[1..] == steps[1..] + [x];
    }
  }

  lemma Start(s: State, allow: Step -> bool)
    ensures Reaches(s, s, allow)
  {
    assert Possible(s, []) && Exec(s, []) == s && AllAllowed([], allow);
  }

  lemma Go(s: State, m: State, x: Step, allow: Step -> bool)
    requires Reaches(s, m, allow) && Enabled(m, x) && allow(x)
    ensures Reaches(s, Apply(m, x), allow)
  {
    var steps :| Possible(s, steps) && Exec(s, steps) == m && AllAllowed(steps, allow);
    RunSnoc(s, steps, x);
    assert AllAllowed(steps + [x], allow);
  }

  lemma OnePage(p: nat)
    ensures Pages(p, p + 1) == {p} && Pages(p, p) == {}
  {
    PagesSnoc(p, p);
  }

  lemma ReachesAlways(s: State, n: State, allow: Step -> bool)
    requires Always(s) && Reaches(s, n, allow)
    ensures Always(n)
  {
    hide Always;
    var steps :| Possible(s, steps) && Exec(s, steps) == n && AllAllowed(steps, allow);
    AlwaysRun(s, steps);
  }
}
