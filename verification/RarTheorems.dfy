/** Every run of the shared RAR sessions keeps the invariant, so every read that succeeds
    returns the bytes of its range.
 */
module RarTheorems {
  import opened Basics
  import opened RarRing
  import opened RarProtocol

  // ---- the cache ---------------------------------------------------------------------

  lemma {:induction false} WithoutFacts(cache: seq<nat>, sid: nat)
    requires forall i, j :: 0 <= i < j < |cache| ==> cache[i] != cache[j]
    ensures var w := Without(cache, sid);
            && (forall i, j :: 0 <= i < j < |w| ==> w[i] != w[j])
            && (forall x :: x in w <==> x in cache && x != sid)
            && |w| == |cache| - if sid in cache then 1 else 0
  {
    if cache != [] {
      var rest := cache[1..];
      assert forall i :: 0 <= i < |rest| ==> rest[i] == cache[i + 1];
      WithoutFacts(rest, sid);
      assert cache == [cache[0]] + rest;
      var w := Without(rest, sid);
      assert forall k :: 0 <= k < |w| ==> w[k] in rest;
      assert cache[0] !in rest;
    }
  }

  lemma InsertFacts(cache: seq<nat>, n: nat, sid: nat)
    requires CacheOk(cache, n) && sid < n && sid !in cache
    ensures CacheOk(Insert(cache, sid), n)
    ensures forall x :: x in Insert(cache, sid) ==> x in cache || x == sid
  {
  }

  lemma PromoteFacts(cache: seq<nat>, n: nat, sid: nat)
    requires CacheOk(cache, n) && sid in cache
    ensures CacheOk(Promote(cache, sid), n)
    ensures forall x :: x in Promote(cache, sid) <==> x in cache
  {
    WithoutFacts(cache, sid);
    var w := Without(cache, sid);
    assert forall i :: 0 <= i < |w| ==> w[i] in cache;
    InsertFacts(w, n, sid);
    assert Insert(w, sid) == [sid] + w;
  }

  lemma CacheGrows(cache: seq<nat>, n: nat)
    requires CacheOk(cache, n)
    ensures CacheOk(cache, n + 1)
  {
  }

  // ---- locks ----------------------------------------------------------------------------

  /** A reader step that leaves the lock with whoever has it. */
  lemma LockSame(sessions: seq<Session>, readers: seq<Reader>, r: nat, rd: Reader)
    requires LocksOk(sessions, readers) && r < |readers|
    requires forall i: nat :: i < |sessions| ==> (HasLock(rd.pc, i) <==> HasLock(readers[r].pc, i))
    ensures LocksOk(sessions, readers[r := rd])
  {
  }

  lemma LockTake(sessions: seq<Session>, readers: seq<Reader>, r: nat, rd: Reader, sid: nat)
    requires LocksOk(sessions, readers) && r < |readers| && sid < |sessions| && sessions[sid].holder.None?
    requires forall i: nat :: !HasLock(readers[r].pc, i)
    requires forall i: nat :: HasLock(rd.pc, i) <==> i == sid
    ensures LocksOk(sessions[sid := sessions[sid].(holder := Some(r))], readers[r := rd])
  {
  }

  lemma LockDrop(sessions: seq<Session>, readers: seq<Reader>, r: nat, rd: Reader, sid: nat)
    requires LocksOk(sessions, readers) && r < |readers| && sid < |sessions|
    requires forall i: nat :: HasLock(readers[r].pc, i) <==> i == sid
    requires forall i: nat :: !HasLock(rd.pc, i)
    ensures LocksOk(sessions[sid := sessions[sid].(holder := None)], readers[r := rd])
  {
    var after, next := sessions[sid := sessions[sid].(holder := None)], readers[r := rd];
    forall q: nat, i: nat | q < |next| && i < |after| && HasLock(next[q].pc, i) ensures after[i].holder == Some(q) {
      assert q != r && HasLock(readers[q].pc, i) && sessions[i].holder == Some(q);
      assert HasLock(readers[r].pc, sid) && sessions[sid].holder == Some(r);
    }
  }

  lemma LockNew(sessions: seq<Session>, readers: seq<Reader>, n: Session, r: nat, rd: Reader)
    requires LocksOk(sessions, readers) && r < |readers|
    requires forall q: nat :: q < |readers| ==> !HasLock(readers[q].pc, |sessions|)
    requires forall i: nat :: !HasLock(readers[r].pc, i)
    requires (n.holder.None? && forall i: nat :: !HasLock(rd.pc, i)) ||
             (n.holder == Some(r) && forall i: nat :: HasLock(rd.pc, i) <==> i == |sessions|)
    ensures LocksOk(sessions + [n], readers[r := rd])
  {
  }

  lemma LockChannel(sessions: seq<Session>, readers: seq<Reader>, sid: nat, n: Session)
    requires LocksOk(sessions, readers) && sid < |sessions| && n.holder == sessions[sid].holder
    ensures LocksOk(sessions[sid := n], readers)
  {
  }

  // ---- readers ----------------------------------------------------------------------------

  lemma ReadersUpdate(plain: nat -> seq<Byte>, sessions: seq<Session>, readers: seq<Reader>, r: nat, rd: Reader)
    requires ReadersOk(plain, sessions, readers) && r < |readers| && ReaderOk(plain, sessions, rd)
    ensures ReadersOk(plain, sessions, readers[r := rd])
  {
  }

  /** A change to a session that keeps its header and cursor disturbs no reader. */
  lemma ReadersSession(plain: nat -> seq<Byte>, sessions: seq<Session>, readers: seq<Reader>, sid: nat, n: Session)
    requires ReadersOk(plain, sessions, readers) && sid < |sessions|
    requires n.header == sessions[sid].header && n.channel.consumed == sessions[sid].channel.consumed
    ensures ReadersOk(plain, sessions[sid := n], readers)
  {
    var after := sessions[sid := n];
    forall r | 0 <= r < |readers| ensures ReaderOk(plain, after, readers[r]) {
      assert ReaderOk(plain, sessions, readers[r]);
    }
  }

  lemma ReadersNew(plain: nat -> seq<Byte>, sessions: seq<Session>, readers: seq<Reader>, n: Session)
    requires ReadersOk(plain, sessions, readers)
    ensures ReadersOk(plain, sessions + [n], readers)
  {
    forall r | 0 <= r < |readers| ensures ReaderOk(plain, sessions + [n], readers[r]) {
      assert ReaderOk(plain, sessions, readers[r]);
    }
  }

  /** The lock holder moves the cursor of its session; no other reader depends on it. */
  lemma ReadersCursor(plain: nat -> seq<Byte>, sessions: seq<Session>, readers: seq<Reader>, sid: nat, c: Channel, r: nat, rd: Reader)
    requires ReadersOk(plain, sessions, readers) && LocksOk(sessions, readers)
    requires sid < |sessions| && r < |readers| && HasLock(readers[r].pc, sid)
    requires ReaderOk(plain, sessions[sid := sessions[sid].(channel := c)], rd)
    ensures ReadersOk(plain, sessions[sid := sessions[sid].(channel := c)], readers[r := rd])
  {
    var after := sessions[sid := sessions[sid].(channel := c)];
    assert sessions[sid].holder == Some(r);
    forall q | 0 <= q < |readers| && q != r ensures ReaderOk(plain, after, readers[q]) {
      assert ReaderOk(plain, sessions, readers[q]);
      assert !HasLock(readers[q].pc, sid);
    }
  }

  lemma SessionsUpdate(plain: nat -> seq<Byte>, sessions: seq<Session>, sid: nat, n: Session)
    requires SessionsOk(plain, sessions) && sid < |sessions| && Carries(n.channel, plain(n.header))
    ensures SessionsOk(plain, sessions[sid := n])
  {
  }

  lemma SessionsNew(plain: nat -> seq<Byte>, sessions: seq<Session>, header: nat, holder: Option<nat>)
    requires SessionsOk(plain, sessions)
    ensures SessionsOk(plain, sessions + [Fresh(header, holder)])
  {
    assert Carries(Fresh(header, holder).channel, plain(header));
  }

  lemma StopsKept(s: State, n: State)
    requires StopsOk(s) && |s.sessions| <= |n.sessions|
    requires forall i :: 0 <= i < |s.sessions| ==> n.sessions[i].stopped == s.sessions[i].stopped
    requires forall i :: |s.sessions| <= i < |n.sessions| ==> !n.sessions[i].stopped
    requires forall x: nat :: x in n.cache && x < |s.sessions| ==> Referenced(s, x)
    requires forall r, x: nat :: 0 <= r < |n.readers| && Refers(n.readers[r].pc, x) && x < |s.sessions| ==> Referenced(s, x)
    ensures StopsOk(n)
  {
  }

  lemma ReaderRefers(s: State, r: nat, sid: nat)
    requires r < |s.readers| && Refers(s.readers[r].pc, sid)
    ensures Referenced(s, sid)
  {
  }

  // ---- steps ----------------------------------------------------------------------------------

  lemma ReuseKept(plain: nat -> seq<Byte>, s: State, r: nat, sid: nat)
    requires Inv(plain, s) && Enabled(plain, s, Reuse(r, sid))
    ensures Inv(plain, Apply(plain, s, Reuse(r, sid)))
  {
    hide CacheOk, SessionsOk, LocksOk, ReadersOk, StopsOk, Promote, Carries;
    var n := Apply(plain, s, Reuse(r, sid));
    PromoteFacts(s.cache, |s.sessions|, sid);
    LockSame(s.sessions, s.readers, r, n.readers[r]);
    ReaderAt(plain, s, r);
    ReadersUpdate(plain, s.sessions, s.readers, r, n.readers[r]);
    StopsKept(s, n);
  }

  lemma ReaderAt(plain: nat -> seq<Byte>, s: State, r: nat)
    requires ReadersOk(plain, s.sessions, s.readers) && r < |s.readers|
    ensures ReaderOk(plain, s.sessions, s.readers[r])
  {
  }

  /** No reader has the lock of a session that does not exist yet. */
  lemma NoFutureLock(plain: nat -> seq<Byte>, s: State)
    requires ReadersOk(plain, s.sessions, s.readers)
    ensures forall q: nat :: q < |s.readers| ==> !HasLock(s.readers[q].pc, |s.sessions|) && !Refers(s.readers[q].pc, |s.sessions|)
  {
    forall q: nat | q < |s.readers|
      ensures !HasLock(s.readers[q].pc, |s.sessions|) && !Refers(s.readers[q].pc, |s.sessions|)
    {
      assert ReaderOk(plain, s.sessions, s.readers[q]);
    }
  }

  lemma NotCached(cache: seq<nat>, n: nat)
    requires CacheOk(cache, n)
    ensures n !in cache
  {
  }

  lemma BeginKept(plain: nat -> seq<Byte>, s: State, r: nat)
    requires Inv(plain, s) && Enabled(plain, s, Begin(r))
    ensures Inv(plain, Apply(plain, s, Begin(r)))
  {
    hide CacheOk, SessionsOk, LocksOk, ReadersOk, StopsOk, Insert, Carries;
    var n := Apply(plain, s, Begin(r));
    var added := Fresh(s.readers[r].header, None);
    CacheGrows(s.cache, |s.sessions|);
    NotCached(s.cache, |s.sessions|);
    InsertFacts(s.cache, |s.sessions| + 1, |s.sessions|);
    SessionsNew(plain, s.sessions, s.readers[r].header, None);
    NoFutureLock(plain, s);
    LockNew(s.sessions, s.readers, added, r, n.readers[r]);
    ReaderAt(plain, s, r);
    ReadersNew(plain, s.sessions, s.readers, added);
    ReadersUpdate(plain, n.sessions, s.readers, r, n.readers[r]);
    StopsKept(s, n);
    forall q | 0 <= q < |n.readers| && n.readers[q].pc.Publishing? ensures n.readers[q].pc.sid !in n.cache {
      assert Refers(n.readers[q].pc, n.readers[q].pc.sid);
    }
  }

  lemma FallbackKept(plain: nat -> seq<Byte>, s: State, r: nat)
    requires Inv(plain, s) && Enabled(plain, s, Fallback(r))
    ensures Inv(plain, Apply(plain, s, Fallback(r)))
  {
    hide CacheOk, SessionsOk, LocksOk, ReadersOk, StopsOk, Carries;
    var n := Apply(plain, s, Fallback(r));
    var added := Fresh(s.readers[r].header, Some(r));
    CacheGrows(s.cache, |s.sessions|);
    NotCached(s.cache, |s.sessions|);
    SessionsNew(plain, s.sessions, s.readers[r].header, Some(r));
    NoFutureLock(plain, s);
    LockNew(s.sessions, s.readers, added, r, n.readers[r]);
    ReaderAt(plain, s, r);
    ReadersNew(plain, s.sessions, s.readers, added);
    ReadersUpdate(plain, n.sessions, s.readers, r, n.readers[r]);
    StopsKept(s, n);
  }

  lemma LockKept(plain: nat -> seq<Byte>, s: State, r: nat)
    requires Inv(plain, s) && Enabled(plain, s, Lock(r))
    ensures Inv(plain, Apply(plain, s, Lock(r)))
  {
    hide CacheOk, SessionsOk, LocksOk, ReadersOk, StopsOk, Carries;
    var n, sid := Apply(plain, s, Lock(r)), s.readers[r].pc.sid;
    ReaderAt(plain, s, r);
    LockTake(s.sessions, s.readers, r, n.readers[r], sid);
    SessionAt(plain, s, sid);
    SessionsUpdate(plain, s.sessions, sid, n.sessions[sid]);
    ReadersSession(plain, s.sessions, s.readers, sid, n.sessions[sid]);
    ReadersUpdate(plain, n.sessions, s.readers, r, n.readers[r]);
    ReaderRefers(s, r, sid);
    StopsKept(s, n);
  }

  lemma SessionAt(plain: nat -> seq<Byte>, s: State, sid: nat)
    requires SessionsOk(plain, s.sessions) && sid < |s.sessions|
    ensures Carries(s.sessions[sid].channel, plain(s.sessions[sid].header))
  {
  }

  /** Giving the lock back, with the reader going on to `pc`. */
  lemma ReleaseKept(plain: nat -> seq<Byte>, s: State, r: nat, pc: Pc)
    requires Inv(plain, s) && r < |s.readers| && (s.readers[r].pc.Checking? || s.readers[r].pc.Draining?)
    requires s.readers[r].pc.sid < |s.sessions| && (pc.Trying? || pc.Finished?)
    requires ReaderOk(plain, s.sessions, s.readers[r].(pc := pc))
    ensures Inv(plain, SetHolder(SetPc(s, r, pc), s.readers[r].pc.sid, None))
  {
    hide CacheOk, SessionsOk, LocksOk, ReadersOk, StopsOk, Carries;
    var sid := s.readers[r].pc.sid;
    var n := SetHolder(SetPc(s, r, pc), sid, None);
    LockDrop(s.sessions, s.readers, r, n.readers[r], sid);
    SessionAt(plain, s, sid);
    SessionsUpdate(plain, s.sessions, sid, n.sessions[sid]);
    ReadersUpdate(plain, s.sessions, s.readers, r, n.readers[r]);
    ReadersSession(plain, s.sessions, n.readers, sid, n.sessions[sid]);
    StopsKept(s, n);
  }

  /** Moving from the check, or from publishing, into Consume keeps the lock. */
  lemma EnterKept(plain: nat -> seq<Byte>, s: State, r: nat, cache: seq<nat>)
    requires Inv(plain, s) && r < |s.readers| && (s.readers[r].pc.Checking? || s.readers[r].pc.Publishing?)
    requires s.readers[r].pc.sid < |s.sessions|
    requires s.sessions[s.readers[r].pc.sid].channel.consumed <= s.readers[r].off
    requires CacheOk(cache, |s.sessions|)
    requires forall x :: x in cache ==> x in s.cache || (s.readers[r].pc.Publishing? && x == s.readers[r].pc.sid)
    ensures Inv(plain, SetPc(s, r, Draining(s.readers[r].pc.sid)).(cache := cache))
  {
    hide CacheOk, SessionsOk, LocksOk, ReadersOk, StopsOk, Carries;
    var sid := s.readers[r].pc.sid;
    var n := SetPc(s, r, Draining(sid)).(cache := cache);
    ReaderAt(plain, s, r);
    SoleLock(s, r, sid);
    LockSame(s.sessions, s.readers, r, n.readers[r]);
    ReadersUpdate(plain, s.sessions, s.readers, r, n.readers[r]);
    ReaderRefers(s, r, sid);
    StopsKept(s, n);
  }

  lemma SoleLock(s: State, r: nat, sid: nat)
    requires LocksOk(s.sessions, s.readers) && r < |s.readers| && sid < |s.sessions| && HasLock(s.readers[r].pc, sid)
    ensures forall q: nat :: q < |s.readers| && q != r ==> !HasLock(s.readers[q].pc, sid)
  {
    assert s.sessions[sid].holder == Some(r);
  }

  lemma RecheckKept(plain: nat -> seq<Byte>, s: State, r: nat)
    requires Inv(plain, s) && Enabled(plain, s, Recheck(r))
    ensures Inv(plain, Apply(plain, s, Recheck(r)))
  {
    hide CacheOk, SessionsOk, LocksOk, ReadersOk, StopsOk, Carries;
    var sid, attempt := s.readers[r].pc.sid, s.readers[r].pc.attempt;
    ReaderAt(plain, s, r);
    if s.sessions[sid].channel.consumed > s.readers[r].off {
      ReleaseKept(plain, s, r, Trying(attempt + 1));
    } else {
      EnterKept(plain, s, r, s.cache);
    }
  }

  lemma PublishKept(plain: nat -> seq<Byte>, s: State, r: nat)
    requires Inv(plain, s) && Enabled(plain, s, Publish(r))
    ensures Inv(plain, Apply(plain, s, Publish(r)))
  {
    hide CacheOk, SessionsOk, LocksOk, ReadersOk, StopsOk, Insert, Carries;
    ReaderAt(plain, s, r);
    InsertFacts(s.cache, |s.sessions|, s.readers[r].pc.sid);
    EnterKept(plain, s, r, Insert(s.cache, s.readers[r].pc.sid));
  }

  lemma ReadKept(plain: nat -> seq<Byte>, s: State, r: nat)
    requires Inv(plain, s) && Enabled(plain, s, Read(r))
    ensures Inv(plain, Apply(plain, s, Read(r)))
  {
    hide CacheOk, SessionsOk, LocksOk, ReadersOk, StopsOk, Carries, Drain;
    var rd, sid := s.readers[r], s.readers[r].pc.sid;
    var c := s.sessions[sid].channel;
    ReaderAt(plain, s, r);
    SessionAt(plain, s, sid);
    if c.consumed >= rd.off + rd.len {
      ReleaseKept(plain, s, r, Finished(true));
    } else {
      DrainKeeps(c, plain(rd.header), rd.off, rd.len);
      match Drain(c, rd.off, rd.len) {
        case Blocked =>
        case Failed => ReleaseKept(plain, s, r, Finished(false));
        case Skipped(d) =>
          assert rd.buf + [] == rd.buf && s.readers[r := rd] == s.readers;
          CursorKept(plain, s, r, d, []);
        case Copied(d, bytes) => CursorKept(plain, s, r, d, bytes);
      }
    }
  }

  /** The lock holder's cursor moves on and the bytes it stepped over reach its buffer. */
  lemma CursorKept(plain: nat -> seq<Byte>, s: State, r: nat, d: Channel, bytes: seq<Byte>)
    requires Inv(plain, s) && r < |s.readers| && s.readers[r].pc.Draining? && s.readers[r].pc.sid < |s.sessions|
    requires var rd, c, stream := s.readers[r], s.sessions[s.readers[r].pc.sid].channel, plain(s.readers[r].header);
             && Carries(d, stream) && c.consumed < d.consumed <= |stream|
             && ((bytes == [] && d.consumed <= rd.off) ||
                 (rd.off <= c.consumed && d.consumed <= rd.off + rd.len && bytes == stream[c.consumed..d.consumed]))
    ensures var sid := s.readers[r].pc.sid;
            Inv(plain, SetChannel(s.(readers := s.readers[r := s.readers[r].(buf := s.readers[r].buf + bytes)]), sid, d))
  {
    hide CacheOk, SessionsOk, LocksOk, ReadersOk, StopsOk, Carries;
    var rd, sid := s.readers[r], s.readers[r].pc.sid;
    var c, stream := s.sessions[sid].channel, plain(rd.header);
    var next := rd.(buf := rd.buf + bytes);
    var n := SetChannel(s.(readers := s.readers[r := next]), sid, d);
    ReaderAt(plain, s, r);
    assert Delivered(stream, next, d.consumed) by {
      if bytes != [] && rd.off < c.consumed {
        assert stream[rd.off..c.consumed] + bytes == stream[rd.off..d.consumed];
      }
      assert [] + bytes == bytes;
    }
    ReadersCursor(plain, s.sessions, s.readers, sid, d, r, next);
    SessionsUpdate(plain, s.sessions, sid, n.sessions[sid]);
    LockSame(s.sessions, s.readers, r, next);
    LockChannel(s.sessions, n.readers, sid, n.sessions[sid]);
    ReaderRefers(s, r, sid);
    StopsKept2(s, n);
  }

  /** StopsKept for a step that moves no reader and no cache entry. */
  lemma StopsKept2(s: State, n: State)
    requires StopsOk(s) && |s.sessions| == |n.sessions| && n.cache == s.cache && |n.readers| == |s.readers|
    requires forall i :: 0 <= i < |s.sessions| ==> n.sessions[i].stopped == s.sessions[i].stopped
    requires forall r :: 0 <= r < |s.readers| ==> n.readers[r].pc == s.readers[r].pc
    ensures StopsOk(n)
  {
    forall i: nat | Referenced(n, i) ensures Referenced(s, i) {
      if i !in s.cache {
        var r :| 0 <= r < |n.readers| && Refers(n.readers[r].pc, i);
        assert Refers(s.readers[r].pc, i);
      }
    }
  }

  lemma ProduceKept(plain: nat -> seq<Byte>, s: State, sid: nat, count: nat)
    requires Inv(plain, s) && Enabled(plain, s, Produce(sid, count))
    ensures Inv(plain, Apply(plain, s, Produce(sid, count)))
  {
    hide CacheOk, SessionsOk, LocksOk, ReadersOk, StopsOk, Carries;
    var n, c, stream := Apply(plain, s, Produce(sid, count)), s.sessions[sid].channel, plain(s.sessions[sid].header);
    SessionAt(plain, s, sid);
    PushKeeps(c, stream, stream[c.produced..c.produced + count]);
    ChannelKept(plain, s, sid, n.sessions[sid].channel);
  }

  lemma ChannelKept(plain: nat -> seq<Byte>, s: State, sid: nat, c: Channel)
    requires Inv(plain, s) && sid < |s.sessions| && Carries(c, plain(s.sessions[sid].header))
    requires c.consumed == s.sessions[sid].channel.consumed
    ensures Inv(plain, SetChannel(s, sid, c))
  {
    hide CacheOk, SessionsOk, LocksOk, ReadersOk, StopsOk, Carries;
    var n := SetChannel(s, sid, c);
    SessionsUpdate(plain, s.sessions, sid, n.sessions[sid]);
    LockChannel(s.sessions, s.readers, sid, n.sessions[sid]);
    ReadersSession(plain, s.sessions, s.readers, sid, n.sessions[sid]);
    StopsKept2(s, n);
  }

  lemma FinishKept(plain: nat -> seq<Byte>, s: State, sid: nat, ok: bool)
    requires Inv(plain, s) && Enabled(plain, s, Finish(sid, ok))
    ensures Inv(plain, Apply(plain, s, Finish(sid, ok)))
  {
    SessionAt(plain, s, sid);
    ChannelKept(plain, s, sid, s.sessions[sid].channel.(done := true, ok := ok));
  }

  lemma StopKept(plain: nat -> seq<Byte>, s: State, sid: nat)
    requires Inv(plain, s) && Enabled(plain, s, Stop(sid))
    ensures Inv(plain, Apply(plain, s, Stop(sid)))
  {
    hide CacheOk, SessionsOk, LocksOk, ReadersOk, Carries;
    var n := Apply(plain, s, Stop(sid));
    SessionAt(plain, s, sid);
    SessionsUpdate(plain, s.sessions, sid, n.sessions[sid]);
    LockChannel(s.sessions, s.readers, sid, n.sessions[sid]);
    ReadersSession(plain, s.sessions, s.readers, sid, n.sessions[sid]);
  }

  /** Every critical section keeps the invariant. */
  lemma StepKept(plain: nat -> seq<Byte>, s: State, step: Step)
    requires Inv(plain, s) && Enabled(plain, s, step)
    ensures Inv(plain, Apply(plain, s, step))
  {
    hide Inv, Enabled, Apply;
    match step {
      case Reuse(r, sid) => ReuseKept(plain, s, r, sid);
      case Begin(r) => BeginKept(plain, s, r);
      case Lock(r) => LockKept(plain, s, r);
      case Recheck(r) => RecheckKept(plain, s, r);
      case Fallback(r) => FallbackKept(plain, s, r);
      case Publish(r) => PublishKept(plain, s, r);
      case Read(r) => ReadKept(plain, s, r);
      case Produce(sid, count) => ProduceKept(plain, s, sid, count);
      case Finish(sid, ok) => FinishKept(plain, s, sid, ok);
      case Stop(sid) => StopKept(plain, s, sid);
    }
  }

  lemma {:induction false} RunKept(plain: nat -> seq<Byte>, s: State, steps: seq<Step>)
    requires Inv(plain, s) && Possible(plain, s, steps)
    ensures Inv(plain, Exec(plain, s, steps))
    decreases |steps|
  {
    hide Inv, Enabled, Apply;
    if steps != [] {
      StepKept(plain, s, steps[0]);
      RunKept(plain, Apply(plain, s, steps[0]), steps[1..]);
    }
  }

  lemma InitInv(plain: nat -> seq<Byte>, s: State)
    requires Init(s)
    ensures Inv(plain, s)
  {
  }

  // ---- what readers get -------------------------------------------------------------------------

  /** In every interleaving of readers and decoders, a read that returned success delivered
      exactly the bytes [off, off+len) of its entry, and the cache never exceeds four. */
  lemma SuccessfulReadIsExact(plain: nat -> seq<Byte>, init: State, steps: seq<Step>, r: nat)
    requires Init(init) && Possible(plain, init, steps)
    ensures var s := Exec(plain, init, steps);
            && |s.cache| <= 4
            && (r < |s.readers| && s.readers[r].pc == Finished(true) && s.readers[r].len > 0 ==>
                  var rd := s.readers[r];
                  rd.off + rd.len <= |plain(rd.header)| && rd.buf == plain(rd.header)[rd.off..rd.off + rd.len])
  {
    InitInv(plain, init);
    RunKept(plain, init, steps);
    var s := Exec(plain, init, steps);
    if r < |s.readers| {
      ReaderAt(plain, s, r);
    }
  }

  /** Whenever a reader enters Consume - after the recheck or on its private session - the
      session has not passed its offset, nobody else has the lock, and the decoder has not
      been aborted. */
  lemma ConsumeStartsInTime(plain: nat -> seq<Byte>, init: State, steps: seq<Step>, step: Step, r: nat)
    requires Init(init) && Possible(plain, init, steps) && Enabled(plain, Exec(plain, init, steps), step)
    requires var s := Exec(plain, init, steps);
             r < |s.readers| && !s.readers[r].pc.Draining? && r < |Apply(plain, s, step).readers| &&
             Apply(plain, s, step).readers[r].pc.Draining?
    ensures var n := Apply(plain, Exec(plain, init, steps), step);
            var sid := n.readers[r].pc.sid;
            && sid < |n.sessions| && n.sessions[sid].channel.consumed <= n.readers[r].off
            && n.sessions[sid].holder == Some(r) && !n.sessions[sid].stopped && n.readers[r].buf == []
  {
    InitInv(plain, init);
    RunKept(plain, init, steps);
    var s := Exec(plain, init, steps);
    var n := Apply(plain, s, step);
    StepKept(plain, s, step);
    EntersBy(plain, s, step, r);
    ReaderAt(plain, s, r);
    ReaderAt(plain, n, r);
    LockedBy(n, r);
    ReaderRefers(n, r, n.readers[r].pc.sid);
    NotStopped(n, n.readers[r].pc.sid);
  }

  lemma EntersBy(plain: nat -> seq<Byte>, s: State, step: Step, r: nat)
    requires Enabled(plain, s, step) && r < |s.readers| && !s.readers[r].pc.Draining?
    requires r < |Apply(plain, s, step).readers| && Apply(plain, s, step).readers[r].pc.Draining?
    ensures (step == Recheck(r) && s.sessions[s.readers[r].pc.sid].channel.consumed <= s.readers[r].off) ||
            step == Publish(r)
    ensures Apply(plain, s, step).sessions == s.sessions
    ensures Apply(plain, s, step).readers[r] == s.readers[r].(pc := Draining(s.readers[r].pc.sid))
  {
    hide Drain, Pushed, Referenced;
  }

  lemma LockedBy(s: State, r: nat)
    requires LocksOk(s.sessions, s.readers) && r < |s.readers| && s.readers[r].pc.Draining?
    requires s.readers[r].pc.sid < |s.sessions|
    ensures s.sessions[s.readers[r].pc.sid].holder == Some(r)
  {
    assert HasLock(s.readers[r].pc, s.readers[r].pc.sid);
  }

  lemma NotStopped(s: State, sid: nat)
    requires StopsOk(s) && sid < |s.sessions| && Referenced(s, sid)
    ensures !s.sessions[sid].stopped
  {
  }

  /** A reader inside Consume is never deadlocked with its decoder: it can go on, or the
      decoder can push its next byte or finish. */
  lemma ConsumeMakesProgress(plain: nat -> seq<Byte>, init: State, steps: seq<Step>, r: nat)
    requires Init(init) && Possible(plain, init, steps)
    requires r < |Exec(plain, init, steps).readers| && Exec(plain, init, steps).readers[r].pc.Draining?
    ensures var s := Exec(plain, init, steps);
            var sid := s.readers[r].pc.sid;
            Enabled(plain, s, Read(r)) || Enabled(plain, s, Produce(sid, 1)) || Enabled(plain, s, Finish(sid, true))
  {
    InitInv(plain, init);
    RunKept(plain, init, steps);
    var s := Exec(plain, init, steps);
    var rd, sid := s.readers[r], s.readers[r].pc.sid;
    ReaderAt(plain, s, r);
    SessionAt(plain, s, sid);
    ReaderRefers(s, r, sid);
    NotStopped(s, sid);
    var c := s.sessions[sid].channel;
    if c.consumed < rd.off + rd.len {
      NeverBothBlocked(c, rd.off, rd.len);
    }
  }
}
