/** Concurrent reads of streamed RAR entries: any number of readers share a cache of at
    most four decode sessions, each session with its own decoder thread. A step is one
    critical section of the source. Whatever the interleaving, a read that succeeds
    returns exactly the bytes of its range.
 */
module RarProtocol {
  import opened Basics
  import opened RarRing

  /** `holder` is the reader that has the session's read lock; `stopped` is set once the
      last reference is gone and the destructor aborts the decoder. */
  datatype Session = Session(header: nat, channel: Channel, holder: Option<nat>, stopped: bool)

  /** ExtractRange on a streamed entry: up to four attempts on a cached or fresh session,
      then a private session that is locked before it becomes visible. */
  datatype Pc =
    | Trying(attempt: nat)
    | Waiting(sid: nat, attempt: nat)
    | Checking(sid: nat, attempt: nat)
    | Publishing(sid: nat)
    | Draining(sid: nat)
    | Finished(success: bool)

  /** A reader asks for [off, off+len) of the entry whose header sits at `header`. */
  datatype Reader = Reader(header: nat, off: nat, len: nat, pc: Pc, buf: seq<Byte>)

  datatype State = State(sessions: seq<Session>, cache: seq<nat>, readers: seq<Reader>)

  const MAX_SESSIONS: nat := 4
  const ATTEMPTS: nat := 4

  datatype Step =
    | Reuse(r: nat, sid: nat)
    | Begin(r: nat)
    | Lock(r: nat)
    | Recheck(r: nat)
    | Fallback(r: nat)
    | Publish(r: nat)
    | Read(r: nat)
    | Produce(s: nat, count: nat)
    | Finish(s: nat, ok: bool)
    | Stop(s: nat)

  function Fresh(header: nat, holder: Option<nat>): Session {
    Session(header, Channel(seq(RING_SIZE, i => 0), 0, 0, false, false), holder, false)
  }

  /** Most recently used first; the fifth session falls out. */
  function Insert(cache: seq<nat>, sid: nat): seq<nat> {
    var longer := [sid] + cache;
    if |longer| > MAX_SESSIONS then longer[..|longer| - 1] else longer
  }

  function Without(cache: seq<nat>, sid: nat): seq<nat> {
    if cache == [] then []
    else if cache[0] == sid then cache[1..]
    else [cache[0]] + Without(cache[1..], sid)
  }

  function Promote(cache: seq<nat>, sid: nat): seq<nat> {
    Insert(Without(cache, sid), sid)
  }

  predicate Refers(pc: Pc, sid: nat) {
    match pc
    case Waiting(s, _) => s == sid
    case Checking(s, _) => s == sid
    case Publishing(s) => s == sid
    case Draining(s) => s == sid
    case _ => false
  }

  predicate Referenced(s: State, sid: nat) {
    sid in s.cache || exists r :: 0 <= r < |s.readers| && Refers(s.readers[r].pc, sid)
  }

  /** `plain(h)` is what the decoder emits for the entry at header offset h. */
  predicate Enabled(plain: nat -> seq<Byte>, s: State, step: Step) {
    match step
    case Reuse(r, sid) =>
      && r < |s.readers| && s.readers[r].pc.Trying? && s.readers[r].pc.attempt < ATTEMPTS
      && sid in s.cache && sid < |s.sessions| && s.sessions[sid].header == s.readers[r].header
    case Begin(r) => r < |s.readers| && s.readers[r].pc.Trying? && s.readers[r].pc.attempt < ATTEMPTS
    case Lock(r) =>
      && r < |s.readers| && s.readers[r].pc.Waiting?
      && s.readers[r].pc.sid < |s.sessions| && s.sessions[s.readers[r].pc.sid].holder.None?
    case Recheck(r) => r < |s.readers| && s.readers[r].pc.Checking? && s.readers[r].pc.sid < |s.sessions|
    case Fallback(r) => r < |s.readers| && s.readers[r].pc.Trying? && s.readers[r].pc.attempt >= ATTEMPTS
    case Publish(r) => r < |s.readers| && s.readers[r].pc.Publishing?
    case Read(r) =>
      && r < |s.readers| && s.readers[r].pc.Draining? && s.readers[r].pc.sid < |s.sessions|
      && var rd, c := s.readers[r], s.sessions[s.readers[r].pc.sid].channel;
         && |c.ring| > 0 && c.consumed <= c.produced
         && (c.consumed < rd.off + rd.len ==> !Drain(c, rd.off, rd.len).Blocked?)
    case Produce(sid, count) =>
      && sid < |s.sessions| && count > 0
      && var c := s.sessions[sid].channel;
         && |c.ring| > 0 && c.consumed <= c.produced && !Full(c) && !c.done && !s.sessions[sid].stopped
         && c.produced + count <= |plain(s.sessions[sid].header)|
    case Finish(sid, ok) =>
      && sid < |s.sessions| && !s.sessions[sid].channel.done
      && (ok ==> s.sessions[sid].channel.produced == |plain(s.sessions[sid].header)|)
    case Stop(sid) => sid < |s.sessions| && !Referenced(s, sid)
  }

  function SetPc(s: State, r: nat, pc: Pc): State
    requires r < |s.readers|
  {
    s.(readers := s.readers[r := s.readers[r].(pc := pc)])
  }

  function SetChannel(s: State, sid: nat, c: Channel): State
    requires sid < |s.sessions|
  {
    s.(sessions := s.sessions[sid := s.sessions[sid].(channel := c)])
  }

  function SetHolder(s: State, sid: nat, h: Option<nat>): State
    requires sid < |s.sessions|
  {
    s.(sessions := s.sessions[sid := s.sessions[sid].(holder := h)])
  }

  /** One pass of Consume by the reader that holds the lock, or its return. */
  function ReadStep(s: State, r: nat): State
    requires r < |s.readers| && s.readers[r].pc.Draining? && s.readers[r].pc.sid < |s.sessions|
    requires var c := s.sessions[s.readers[r].pc.sid].channel; |c.ring| > 0 && c.consumed <= c.produced
  {
    var rd := s.readers[r];
    var sid := rd.pc.sid;
    var c := s.sessions[sid].channel;
    if c.consumed >= rd.off + rd.len then SetHolder(SetPc(s, r, Finished(true)), sid, None)
    else
      match Drain(c, rd.off, rd.len)
      case Blocked => s
      case Failed => SetHolder(SetPc(s, r, Finished(false)), sid, None)
      case Skipped(d) => SetChannel(s, sid, d)
      case Copied(d, bytes) => SetChannel(s.(readers := s.readers[r := rd.(buf := rd.buf + bytes)]), sid, d)
  }

  function Apply(plain: nat -> seq<Byte>, s: State, step: Step): State
    requires Enabled(plain, s, step)
  {
    match step
    case Reuse(r, sid) =>
      SetPc(s, r, Waiting(sid, s.readers[r].pc.attempt)).(cache := Promote(s.cache, sid))
    case Begin(r) =>
      SetPc(s, r, Waiting(|s.sessions|, s.readers[r].pc.attempt))
      .(sessions := s.sessions + [Fresh(s.readers[r].header, None)], cache := Insert(s.cache, |s.sessions|))
    case Lock(r) =>
      var sid, attempt := s.readers[r].pc.sid, s.readers[r].pc.attempt;
      SetHolder(SetPc(s, r, Checking(sid, attempt)), sid, Some(r))
    case Recheck(r) =>
      var sid, attempt := s.readers[r].pc.sid, s.readers[r].pc.attempt;
      if s.sessions[sid].channel.consumed > s.readers[r].off
      then SetHolder(SetPc(s, r, Trying(attempt + 1)), sid, None)
      else SetPc(s, r, Draining(sid))
    case Fallback(r) =>
      SetPc(s, r, Publishing(|s.sessions|)).(sessions := s.sessions + [Fresh(s.readers[r].header, Some(r))])
    case Publish(r) =>
      SetPc(s, r, Draining(s.readers[r].pc.sid)).(cache := Insert(s.cache, s.readers[r].pc.sid))
    case Read(r) => ReadStep(s, r)
    case Produce(sid, count) =>
      var c := s.sessions[sid].channel;
      SetChannel(s, sid, Pushed(c, plain(s.sessions[sid].header)[c.produced..c.produced + count]))
    case Finish(sid, ok) => SetChannel(s, sid, s.sessions[sid].channel.(done := true, ok := ok))
    case Stop(sid) => s.(sessions := s.sessions[sid := s.sessions[sid].(stopped := true)])
  }

  predicate Init(s: State) {
    && s.sessions == [] && s.cache == []
    && forall r :: 0 <= r < |s.readers| ==> s.readers[r].pc == Trying(0) && s.readers[r].buf == []
  }

  predicate Possible(plain: nat -> seq<Byte>, s: State, steps: seq<Step>)
    decreases |steps|
  {
    steps == [] || (Enabled(plain, s, steps[0]) && Possible(plain, Apply(plain, s, steps[0]), steps[1..]))
  }

  function Exec(plain: nat -> seq<Byte>, s: State, steps: seq<Step>): State
    requires Possible(plain, s, steps)
    decreases |steps|
  {
    if steps == [] then s else Exec(plain, Apply(plain, s, steps[0]), steps[1..])
  }

  // ---- the invariant ---------------------------------------------------------------

  predicate HasLock(pc: Pc, sid: nat) {
    match pc
    case Checking(s, _) => s == sid
    case Publishing(s) => s == sid
    case Draining(s) => s == sid
    case _ => false
  }

  ghost predicate CacheOk(cache: seq<nat>, n: nat) {
    && |cache| <= MAX_SESSIONS
    && (forall i :: 0 <= i < |cache| ==> cache[i] < n)
    && (forall i, j :: 0 <= i < j < |cache| ==> cache[i] != cache[j])
  }

  ghost predicate SessionsOk(plain: nat -> seq<Byte>, sessions: seq<Session>) {
    forall i :: 0 <= i < |sessions| ==> Carries(sessions[i].channel, plain(sessions[i].header))
  }

  /** The read lock is held by exactly the reader that is past Lock on that session. */
  ghost predicate LocksOk(sessions: seq<Session>, readers: seq<Reader>) {
    && (forall i :: 0 <= i < |sessions| && sessions[i].holder.Some? ==>
                      sessions[i].holder.value < |readers| && HasLock(readers[sessions[i].holder.value].pc, i))
    && (forall r, i :: 0 <= r < |readers| && 0 <= i < |sessions| && HasLock(readers[r].pc, i) ==>
                         sessions[i].holder == Some(r))
  }

  ghost predicate ReaderOk(plain: nat -> seq<Byte>, sessions: seq<Session>, rd: Reader) {
    match rd.pc
    case Trying(_) => rd.buf == []
    case Waiting(sid, _) => sid < |sessions| && sessions[sid].header == rd.header && rd.buf == []
    case Checking(sid, _) => sid < |sessions| && sessions[sid].header == rd.header && rd.buf == []
    case Publishing(sid) =>
      sid < |sessions| && sessions[sid].header == rd.header && rd.buf == [] && sessions[sid].channel.consumed == 0
    case Draining(sid) =>
      && sid < |sessions| && sessions[sid].header == rd.header
      && Delivered(plain(rd.header), rd, sessions[sid].channel.consumed)
    case Finished(success) => success ==> Whole(plain(rd.header), rd)
  }

  /** Up to stream position `consumed`, the buffer holds exactly the range's bytes. */
  ghost predicate Delivered(stream: seq<Byte>, rd: Reader, consumed: nat) {
    && consumed <= rd.off + rd.len
    && (consumed <= rd.off ==> rd.buf == [])
    && (consumed > rd.off ==> consumed <= |stream| && rd.buf == stream[rd.off..consumed])
  }

  ghost predicate Whole(stream: seq<Byte>, rd: Reader) {
    rd.len > 0 ==> rd.off + rd.len <= |stream| && rd.buf == stream[rd.off..rd.off + rd.len]
  }

  ghost predicate ReadersOk(plain: nat -> seq<Byte>, sessions: seq<Session>, readers: seq<Reader>) {
    forall r :: 0 <= r < |readers| ==> ReaderOk(plain, sessions, readers[r])
  }

  /** A decoder is only aborted once nobody can read its session any more. */
  ghost predicate StopsOk(s: State) {
    forall i :: 0 <= i < |s.sessions| && s.sessions[i].stopped ==> !Referenced(s, i)
  }

  /** A private session is not in the cache before its reader publishes it. */
  ghost predicate PrivateOk(cache: seq<nat>, readers: seq<Reader>) {
    forall r :: 0 <= r < |readers| && readers[r].pc.Publishing? ==> readers[r].pc.sid !in cache
  }

  ghost predicate Inv(plain: nat -> seq<Byte>, s: State) {
    && CacheOk(s.cache, |s.sessions|)
    && SessionsOk(plain, s.sessions)
    && LocksOk(s.sessions, s.readers)
    && ReadersOk(plain, s.sessions, s.readers)
    && StopsOk(s) && PrivateOk(s.cache, s.readers)
  }
}
