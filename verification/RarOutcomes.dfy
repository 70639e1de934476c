/** How reads of streamed RAR entries end: a read fails only if the decoder failed or the range
    passes the end of the entry, a range that has been delivered is a success, and every read
    that is not at the mercy of a failed decoder can be brought to a successful end.
 */
module RarOutcomes {
  import opened Basics
  import opened RarRing
  import opened RarProtocol
  import opened RarTheorems

  /** A decoder that finished well has produced its whole entry. */
  ghost predicate Complete(plain: nat -> seq<Byte>, s: State) {
    forall i :: 0 <= i < |s.sessions| && s.sessions[i].channel.done && s.sessions[i].channel.ok ==>
                  s.sessions[i].channel.produced == |plain(s.sessions[i].header)|
  }

  /** Some decode of the entry failed. */
  predicate DecodeFailed(s: State, header: nat) {
    exists i :: 0 <= i < |s.sessions| && Broken(s.sessions[i], header)
  }

  predicate Broken(x: Session, header: nat) {
    x.header == header && x.channel.done && !x.channel.ok
  }

  /** Every failed read has a cause. */
  ghost predicate Explained(plain: nat -> seq<Byte>, s: State) {
    forall r :: 0 <= r < |s.readers| && s.readers[r].pc == Finished(false) ==>
                  DecodeFailed(s, s.readers[r].header) ||
                  s.readers[r].off + s.readers[r].len > |plain(s.readers[r].header)|
  }

  /** Sessions keep their entry, and a finished or stopped decode stays as it is. */
  predicate SessionsGrow(s: State, n: State) {
    && |s.sessions| <= |n.sessions|
    && forall i :: 0 <= i < |s.sessions| ==>
                     && n.sessions[i].header == s.sessions[i].header
                     && (s.sessions[i].stopped ==> n.sessions[i].stopped)
                     && (s.sessions[i].channel.done ==>
                           && n.sessions[i].channel.done && n.sessions[i].channel.ok == s.sessions[i].channel.ok
                           && n.sessions[i].channel.produced == s.sessions[i].channel.produced)
  }

  lemma FailureStays(s: State, n: State, header: nat)
    requires SessionsGrow(s, n) && DecodeFailed(s, header)
    ensures DecodeFailed(n, header)
  {
    var i :| 0 <= i < |s.sessions| && Broken(s.sessions[i], header);
    assert Broken(n.sessions[i], header);
  }

  lemma StepGrows(plain: nat -> seq<Byte>, s: State, step: Step)
    requires Enabled(plain, s, step)
    ensures SessionsGrow(s, Apply(plain, s, step))
  {
  }

  lemma StepComplete(plain: nat -> seq<Byte>, s: State, step: Step)
    requires Complete(plain, s) && Enabled(plain, s, step)
    ensures Complete(plain, Apply(plain, s, step))
  {
    var n := Apply(plain, s, step);
    forall i | 0 <= i < |n.sessions| && n.sessions[i].channel.done && n.sessions[i].channel.ok
      ensures n.sessions[i].channel.produced == |plain(n.sessions[i].header)|
    {
      if step.Finish? && i == step.s {
        assert n.sessions[i].channel.produced == s.sessions[i].channel.produced;
      } else if i < |s.sessions| {
        assert s.sessions[i].channel.done && s.sessions[i].channel.ok;
      }
    }
  }

  /** Consume gives up only for a cause. */
  lemma FailedPassHasCause(plain: nat -> seq<Byte>, s: State, r: nat)
    requires Inv(plain, s) && Complete(plain, s) && Enabled(plain, s, Read(r))
    requires s.readers[r].pc != Finished(false) && ReadStep(s, r).readers[r].pc == Finished(false)
    ensures DecodeFailed(s, s.readers[r].header) ||
            s.readers[r].off + s.readers[r].len > |plain(s.readers[r].header)|
  {
    hide CacheOk, LocksOk, StopsOk, PrivateOk;
    var rd, sid := s.readers[r], s.readers[r].pc.sid;
    var c := s.sessions[sid].channel;
    ReaderAt(plain, s, r);
    SessionAt(plain, s, sid);
    if c.ok {
      assert c.done && c.consumed == c.produced == |plain(rd.header)|;
    } else {
      assert Broken(s.sessions[sid], rd.header);
    }
  }

  lemma StepExplained(plain: nat -> seq<Byte>, s: State, step: Step)
    requires Inv(plain, s) && Complete(plain, s) && Explained(plain, s) && Enabled(plain, s, step)
    ensures Explained(plain, Apply(plain, s, step))
  {
    hide Inv, Complete;
    var n := Apply(plain, s, step);
    StepGrows(plain, s, step);
    forall r | 0 <= r < |n.readers| && n.readers[r].pc == Finished(false)
      ensures DecodeFailed(n, n.readers[r].header) ||
              n.readers[r].off + n.readers[r].len > |plain(n.readers[r].header)|
    {
      OneExplained(plain, s, step, r);
    }
  }

  lemma OneExplained(plain: nat -> seq<Byte>, s: State, step: Step, r: nat)
    requires Inv(plain, s) && Complete(plain, s) && Explained(plain, s) && Enabled(plain, s, step)
    requires r < |Apply(plain, s, step).readers| && Apply(plain, s, step).readers[r].pc == Finished(false)
    requires SessionsGrow(s, Apply(plain, s, step))
    ensures var n := Apply(plain, s, step);
            DecodeFailed(n, n.readers[r].header) || n.readers[r].off + n.readers[r].len > |plain(n.readers[r].header)|
  {
    hide Inv, Complete, SessionsGrow, DecodeFailed;
    var n := Apply(plain, s, step);
    assert |n.readers| == |s.readers| && n.readers[r].header == s.readers[r].header;
    assert n.readers[r].off == s.readers[r].off && n.readers[r].len == s.readers[r].len;
    if s.readers[r].pc != Finished(false) {
      assert step == Read(r);
      FailedPassHasCause(plain, s, r);
    }
    if DecodeFailed(s, s.readers[r].header) {
      FailureStays(s, n, s.readers[r].header);
    }
  }

  lemma {:induction false} RunExplained(plain: nat -> seq<Byte>, s: State, steps: seq<Step>)
    requires Inv(plain, s) && Complete(plain, s) && Explained(plain, s) && Possible(plain, s, steps)
    ensures Inv(plain, Exec(plain, s, steps)) && Complete(plain, Exec(plain, s, steps))
    ensures Explained(plain, Exec(plain, s, steps))
    decreases |steps|
  {
    hide Inv, Complete, Explained, Enabled, Apply;
    if steps != [] {
      StepKept(plain, s, steps[0]);
      StepComplete(plain, s, steps[0]);
      StepExplained(plain, s, steps[0]);
      RunExplained(plain, Apply(plain, s, steps[0]), steps[1..]);
    }
  }

  /** In every interleaving a read that failed has a cause: a decode of its entry failed, or
      its range passes the end of the entry. */
  lemma FailureHasCause(plain: nat -> seq<Byte>, init: State, steps: seq<Step>, r: nat)
    requires Init(init) && Possible(plain, init, steps)
    ensures var s := Exec(plain, init, steps);
            r < |s.readers| && s.readers[r].pc == Finished(false) ==>
              DecodeFailed(s, s.readers[r].header) ||
              s.readers[r].off + s.readers[r].len > |plain(s.readers[r].header)|
  {
    InitInv(plain, init);
    RunExplained(plain, init, steps);
  }

  predicate NoDecodeFails(steps: seq<Step>) {
    forall i :: 0 <= i < |steps| ==> !(steps[i].Finish? && !steps[i].ok)
  }

  lemma {:induction false} NoFailedDecode(plain: nat -> seq<Byte>, s: State, steps: seq<Step>)
    requires Possible(plain, s, steps) && NoDecodeFails(steps)
    requires forall h: nat :: !DecodeFailed(s, h)
    ensures forall h: nat :: !DecodeFailed(Exec(plain, s, steps), h)
    decreases |steps|
  {
    if steps != [] {
      var n := Apply(plain, s, steps[0]);
      forall h: nat ensures !DecodeFailed(n, h) {
        NoNewFailure(plain, s, steps[0], h);
      }
      NoFailedDecode(plain, n, steps[1..]);
    }
  }

  lemma NoNewFailure(plain: nat -> seq<Byte>, s: State, step: Step, h: nat)
    requires Enabled(plain, s, step) && !(step.Finish? && !step.ok) && !DecodeFailed(s, h)
    ensures !DecodeFailed(Apply(plain, s, step), h)
  {
    var n := Apply(plain, s, step);
    forall i | 0 <= i < |n.sessions| ensures !Broken(n.sessions[i], h) {
      if i < |s.sessions| {
        assert !Broken(s.sessions[i], h);
      }
    }
  }

  /** Where no decoder fails, no read inside its entry ever fails. */
  lemma SoundDecodersNeverFail(plain: nat -> seq<Byte>, init: State, steps: seq<Step>, r: nat)
    requires Init(init) && Possible(plain, init, steps) && NoDecodeFails(steps)
    ensures var s := Exec(plain, init, steps);
            r < |s.readers| && s.readers[r].off + s.readers[r].len <= |plain(s.readers[r].header)| ==>
              s.readers[r].pc != Finished(false)
  {
    NoFailedDecode(plain, init, steps);
    FailureHasCause(plain, init, steps, r);
  }

  // ---- the end of a decode -------------------------------------------------------------------

  lemma {:induction false} RunGrows(plain: nat -> seq<Byte>, s: State, steps: seq<Step>)
    requires Possible(plain, s, steps)
    ensures SessionsGrow(s, Exec(plain, s, steps))
    decreases |steps|
  {
    hide Enabled, Apply, SessionsGrow;
    if steps == [] {
      GrowsNot(s);
    } else {
      var m := Apply(plain, s, steps[0]);
      StepGrows(plain, s, steps[0]);
      RunGrows(plain, m, steps[1..]);
      GrowsTwice(s, m, Exec(plain, s, steps));
    }
  }

  lemma GrowsNot(s: State)
    ensures SessionsGrow(s, s)
  {
  }

  lemma GrowsTwice(s: State, m: State, n: State)
    requires SessionsGrow(s, m) && SessionsGrow(m, n)
    ensures SessionsGrow(s, n)
  {
  }

  /** A decoder that has finished or was stopped produces nothing any more, in every run. */
  lemma NothingAfterTheEnd(plain: nat -> seq<Byte>, s: State, sid: nat, last: Step, steps: seq<Step>, count: nat)
    requires Enabled(plain, s, last) && (last == Stop(sid) || last == Finish(sid, true) || last == Finish(sid, false))
    requires Possible(plain, Apply(plain, s, last), steps)
    ensures !Enabled(plain, Exec(plain, Apply(plain, s, last), steps), Produce(sid, count))
  {
    hide Possible, Exec;
    RunGrows(plain, Apply(plain, s, last), steps);
  }

  /** Once its decoder has finished, a reader never waits: every pass ends the read or brings
      it closer to its end. */
  lemma FinishEndsWaiting(plain: nat -> seq<Byte>, s: State, sid: nat, ok: bool, steps: seq<Step>, r: nat)
    requires Inv(plain, s) && Enabled(plain, s, Finish(sid, ok))
    requires Possible(plain, Apply(plain, s, Finish(sid, ok)), steps)
    requires var n := Exec(plain, Apply(plain, s, Finish(sid, ok)), steps);
             r < |n.readers| && n.readers[r].pc == Draining(sid)
    ensures var n := Exec(plain, Apply(plain, s, Finish(sid, ok)), steps);
            && Enabled(plain, n, Read(r))
            && var m := Apply(plain, n, Read(r));
               m.readers[r].pc.Finished? || m.sessions[sid].channel.consumed > n.sessions[sid].channel.consumed
  {
    hide Inv, Possible, Exec, Enabled, Apply;
    var f := Apply(plain, s, Finish(sid, ok));
    StepKept(plain, s, Finish(sid, ok));
    RunKept(plain, f, steps);
    RunGrows(plain, f, steps);
    FinishIs(plain, s, sid, ok);
    DoneNeverWaits(plain, Exec(plain, f, steps), sid, r);
  }

  lemma FinishIs(plain: nat -> seq<Byte>, s: State, sid: nat, ok: bool)
    requires Enabled(plain, s, Finish(sid, ok))
    ensures var f := Apply(plain, s, Finish(sid, ok));
            sid < |f.sessions| && f.sessions[sid].channel.done && f.sessions[sid].channel.ok == ok
  {
  }

  lemma DoneNeverWaits(plain: nat -> seq<Byte>, n: State, sid: nat, r: nat)
    requires Inv(plain, n) && r < |n.readers| && n.readers[r].pc == Draining(sid)
    requires sid < |n.sessions| && n.sessions[sid].channel.done
    ensures Enabled(plain, n, Read(r))
    ensures var m := Apply(plain, n, Read(r));
            m.readers[r].pc.Finished? || m.sessions[sid].channel.consumed > n.sessions[sid].channel.consumed
  {
    hide CacheOk, LocksOk, ReadersOk, StopsOk, PrivateOk;
    SessionAt(plain, n, sid);
    var rd, c := n.readers[r], n.sessions[sid].channel;
    if c.consumed < rd.off + rd.len {
      DrainKeeps(c, plain(n.sessions[sid].header), rd.off, rd.len);
    }
  }

  // ---- reads can be finished -------------------------------------------------------------------

  /** The reader can be brought to success. */
  ghost predicate CanSucceed(plain: nat -> seq<Byte>, s: State, r: nat) {
    exists steps :: Possible(plain, s, steps) && r < |Exec(plain, s, steps).readers| &&
                    Exec(plain, s, steps).readers[r].pc == Finished(true)
  }

  lemma Then(plain: nat -> seq<Byte>, s: State, step: Step, r: nat)
    requires Enabled(plain, s, step) && CanSucceed(plain, Apply(plain, s, step), r)
    ensures CanSucceed(plain, s, r)
  {
    hide Enabled, Apply;
    var n := Apply(plain, s, step);
    var rest :| Possible(plain, n, rest) && r < |Exec(plain, n, rest).readers| &&
                Exec(plain, n, rest).readers[r].pc == Finished(true);
    var steps := [step] + rest;
    assert steps[0] == step && steps[1..] == rest;
    assert Possible(plain, s, steps) && Exec(plain, s, steps) == Exec(plain, n, rest);
  }

  /** A range that has been delivered is a success, and the lock is given back. */
  lemma DeliveredSucceeds(plain: nat -> seq<Byte>, s: State, r: nat)
    requires Inv(plain, s) && r < |s.readers| && s.readers[r].pc.Draining?
    requires s.readers[r].pc.sid < |s.sessions|
    requires s.sessions[s.readers[r].pc.sid].channel.consumed >= s.readers[r].off + s.readers[r].len
    ensures Enabled(plain, s, Read(r))
    ensures Apply(plain, s, Read(r)).readers[r].pc == Finished(true)
    ensures Apply(plain, s, Read(r)).sessions[s.readers[r].pc.sid].holder == None
  {
    SessionAt(plain, s, s.readers[r].pc.sid);
  }

  function Left(s: State, r: nat): nat
    requires r < |s.readers| && s.readers[r].pc.Draining? && s.readers[r].pc.sid < |s.sessions|
  {
    var rd, c := s.readers[r], s.sessions[s.readers[r].pc.sid].channel;
    if c.consumed >= rd.off + rd.len then 0
    else 2 * (rd.off + rd.len - c.consumed) + if c.consumed >= c.produced then 1 else 0
  }

  /** The reader drains a session whose decoder has not failed, within its entry. */
  predicate Promising(plain: nat -> seq<Byte>, s: State, r: nat) {
    && r < |s.readers| && s.readers[r].pc.Draining? && s.readers[r].pc.sid < |s.sessions|
    && var rd, c := s.readers[r], s.sessions[s.readers[r].pc.sid].channel;
       rd.off + rd.len <= |plain(rd.header)| && !(c.done && !c.ok)
  }

  /** Such a reader reaches its end by its own passes and its decoder's. */
  lemma {:induction false} DrainsToTheEnd(plain: nat -> seq<Byte>, s: State, r: nat)
    requires Inv(plain, s) && Complete(plain, s) && Promising(plain, s, r)
    ensures CanSucceed(plain, s, r)
    decreases if Promising(plain, s, r) then Left(s, r) else 0
  {
    hide Inv, Complete, CanSucceed;
    var sid := s.readers[r].pc.sid;
    var c := s.sessions[sid].channel;
    if c.consumed >= s.readers[r].off + s.readers[r].len {
      DeliveredSucceeds(plain, s, r);
      Done(plain, Apply(plain, s, Read(r)), r);
      Then(plain, s, Read(r), r);
    } else {
      var step := NextStep(plain, s, r);
      StepKept(plain, s, step);
      StepComplete(plain, s, step);
      DrainsToTheEnd(plain, Apply(plain, s, step), r);
      Then(plain, s, step, r);
    }
  }

  lemma Done(plain: nat -> seq<Byte>, s: State, r: nat)
    requires r < |s.readers| && s.readers[r].pc == Finished(true)
    ensures CanSucceed(plain, s, r)
  {
    assert Possible(plain, s, []) && Exec(plain, s, []) == s;
  }

  lemma NextStep(plain: nat -> seq<Byte>, s: State, r: nat) returns (step: Step)
    requires Inv(plain, s) && Complete(plain, s) && Promising(plain, s, r)
    requires s.sessions[s.readers[r].pc.sid].channel.consumed < s.readers[r].off + s.readers[r].len
    ensures Enabled(plain, s, step)
    ensures Promising(plain, Apply(plain, s, step), r) && Left(Apply(plain, s, step), r) < Left(s, r)
  {
    hide CacheOk, LocksOk;
    var rd, sid := s.readers[r], s.readers[r].pc.sid;
    var c := s.sessions[sid].channel;
    ReaderAt(plain, s, r);
    SessionAt(plain, s, sid);
    if c.consumed < c.produced {
      step := Read(r);
      DrainKeeps(c, plain(rd.header), rd.off, rd.len);
    } else {
      step := Produce(sid, 1);
      ReaderRefers(s, r, sid);
      NotStopped(s, sid);
    }
  }

  /** From every reachable state, a reader that has not been let in yet and asks for a range
      inside its entry can be brought to success, by a fresh session or the private one. */
  lemma EveryReadCanSucceed(plain: nat -> seq<Byte>, init: State, steps: seq<Step>, r: nat)
    requires Init(init) && Possible(plain, init, steps)
    requires var s := Exec(plain, init, steps);
             r < |s.readers| && s.readers[r].pc.Trying? &&
             s.readers[r].off + s.readers[r].len <= |plain(s.readers[r].header)|
    ensures CanSucceed(plain, Exec(plain, init, steps), r)
  {
    hide Inv, Complete, CanSucceed, Explained;
    InitFacts(plain, init);
    RunExplained(plain, init, steps);
    var s := Exec(plain, init, steps);
    if s.readers[r].pc.attempt < ATTEMPTS {
      FreshSucceeds(plain, s, r);
    } else {
      PrivateSucceeds(plain, s, r);
    }
  }

  lemma InitFacts(plain: nat -> seq<Byte>, s: State)
    requires Init(s)
    ensures Inv(plain, s) && Complete(plain, s) && Explained(plain, s)
  {
    InitInv(plain, s);
  }

  lemma FreshSucceeds(plain: nat -> seq<Byte>, s: State, r: nat)
    requires Inv(plain, s) && Complete(plain, s) && r < |s.readers| && s.readers[r].pc.Trying?
    requires s.readers[r].pc.attempt < ATTEMPTS && s.readers[r].off + s.readers[r].len <= |plain(s.readers[r].header)|
    ensures CanSucceed(plain, s, r)
  {
    hide Inv, Complete, CanSucceed;
    var a := Apply(plain, s, Begin(r));
    StepKept(plain, s, Begin(r));
    StepComplete(plain, s, Begin(r));
    var b := Apply(plain, a, Lock(r));
    StepKept(plain, a, Lock(r));
    StepComplete(plain, a, Lock(r));
    var c := Apply(plain, b, Recheck(r));
    StepKept(plain, b, Recheck(r));
    StepComplete(plain, b, Recheck(r));
    assert Promising(plain, c, r);
    DrainsToTheEnd(plain, c, r);
    Then(plain, b, Recheck(r), r);
    Then(plain, a, Lock(r), r);
    Then(plain, s, Begin(r), r);
  }

  lemma PrivateSucceeds(plain: nat -> seq<Byte>, s: State, r: nat)
    requires Inv(plain, s) && Complete(plain, s) && r < |s.readers| && s.readers[r].pc.Trying?
    requires s.readers[r].pc.attempt >= ATTEMPTS && s.readers[r].off + s.readers[r].len <= |plain(s.readers[r].header)|
    ensures CanSucceed(plain, s, r)
  {
    hide Inv, Complete, CanSucceed;
    var a := Apply(plain, s, Fallback(r));
    StepKept(plain, s, Fallback(r));
    StepComplete(plain, s, Fallback(r));
    var b := Apply(plain, a, Publish(r));
    StepKept(plain, a, Publish(r));
    StepComplete(plain, a, Publish(r));
    assert Promising(plain, b, r);
    DrainsToTheEnd(plain, b, r);
    Then(plain, a, Publish(r), r);
    Then(plain, s, Fallback(r), r);
  }
}
