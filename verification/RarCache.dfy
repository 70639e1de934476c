/** The session cache of the RAR backend as AcquireSession edits it under the cache lock. */
module RarCache {
  import opened Basics
  import opened RarProtocol
  import opened RarTheorems

  /** A cached session can serve a read at `off` of the entry at `header`. */
  predicate Serves(headers: seq<nat>, cursors: seq<nat>, sid: nat, header: nat, off: nat) {
    sid < |headers| && sid < |cursors| && headers[sid] == header && cursors[sid] <= off
  }

  class Cache {
    /** Session ids, most recently used first; header and cursor of every session. */
    var sessions: seq<nat>
    var headers: seq<nat>
    var cursors: seq<nat>

    ghost predicate Valid()
      reads this
    {
      |headers| == |cursors| && CacheOk(sessions, |headers|)
    }

    constructor ()
      ensures Valid() && sessions == [] && headers == []
    {
      sessions, headers, cursors := [], [], [];
    }

    /** The place in the cache of the session of the entry that can still reach `off` and has
        the least left to skip, if there is one; of several the least recently used. */
    method Choose(header: nat, off: nat) returns (found: bool, at: nat)
      requires Valid()
      ensures found ==> at < |sessions| && Serves(headers, cursors, sessions[at], header, off)
      ensures found <==> exists x :: x in sessions && Serves(headers, cursors, x, header, off)
      ensures found ==> forall x :: x in sessions && Serves(headers, cursors, x, header, off) ==>
                                      cursors[x] <= cursors[sessions[at]]
      ensures found ==> forall j :: at < j < |sessions| && Serves(headers, cursors, sessions[j], header, off) ==>
                                      cursors[sessions[j]] < cursors[sessions[at]]
    {
      found, at := false, 0;
      for i := 0 to |sessions|
        invariant found ==> at < i && Serves(headers, cursors, sessions[at], header, off)
        invariant forall j :: 0 <= j < i && Serves(headers, cursors, sessions[j], header, off) ==>
                                found && cursors[sessions[j]] <= cursors[sessions[at]]
        invariant forall j :: at < j < i && Serves(headers, cursors, sessions[j], header, off) ==>
                                cursors[sessions[j]] < cursors[sessions[at]]
      {
        var sid := sessions[i];
        if headers[sid] != header {
          continue;
        }
        var pos := cursors[sid];
        if pos <= off && (!found || pos >= cursors[sessions[at]]) {
          found, at := true, i;
        }
      }
      if found {
        assert sessions[at] in sessions;
      }
    }

    /** Of the cached sessions of the entry that can still reach `off`, the one with the least
        left to skip; a new one if there is none. The chosen session moves to the front, and
        what the cache has no place for is handed back. */
    method Acquire(header: nat, off: nat) returns (best: nat, evicted: Option<nat>)
      requires Valid()
      modifies this
      ensures Valid() && |sessions| <= 4 && sessions != [] && sessions[0] == best
      ensures Serves(headers, cursors, best, header, off)
      ensures if exists x :: x in old(sessions) && Serves(old(headers), old(cursors), x, header, off)
              then && best in old(sessions) && headers == old(headers) && cursors == old(cursors)
                   && sessions == Promote(old(sessions), best)
                   && forall x :: x in old(sessions) && Serves(headers, cursors, x, header, off) ==>
                                    cursors[x] <= cursors[best]
              else && best == |old(headers)| && headers == old(headers) + [header] && cursors == old(cursors) + [0]
                   && sessions == Insert(old(sessions), best)
      ensures evicted.Some? <==> exists x :: x in old(sessions) && x !in sessions
      ensures evicted.Some? ==> evicted.value in old(sessions) && evicted.value !in sessions
    {
      hide Promote, Insert;
      var found, at := Choose(header, off);
      evicted := None;
      ghost var before, n := sessions, |headers|;
      if found {
        best := sessions[at];
        PromoteIs(before, n, at);
        sessions := sessions[..at] + sessions[at + 1..];
      } else {
        best := |headers|;
        headers, cursors := headers + [header], cursors + [0];
        CacheGrows(before, n);
        NotCached(before, n);
        InsertFacts(before, |headers|, best);
        InsertIs(before, best);
      }
      sessions := [best] + sessions;
      if |sessions| > MAX_SESSIONS {
        evicted := Some(sessions[|sessions| - 1]);
        sessions := sessions[..|sessions| - 1];
      }
    }
  }

  /** Promoting loses no session. */
  lemma PromoteIs(cache: seq<nat>, n: nat, at: nat)
    requires CacheOk(cache, n) && at < |cache|
    ensures var p := Promote(cache, cache[at]);
            p == [cache[at]] + (cache[..at] + cache[at + 1..]) && CacheOk(p, n) && forall x :: x in cache ==> x in p
  {
    WithoutIndex(cache, at);
    PromoteFacts(cache, n, cache[at]);
  }

  /** Inserting loses a session exactly if the cache is full. */
  lemma InsertIs(cache: seq<nat>, sid: nat)
    requires |cache| <= MAX_SESSIONS && sid !in cache
    requires forall i, j :: 0 <= i < j < |cache| ==> cache[i] != cache[j]
    ensures var longer := [sid] + cache;
            Insert(cache, sid) == if |longer| > MAX_SESSIONS then longer[..|longer| - 1] else longer
    ensures |cache| < MAX_SESSIONS ==> forall x :: x in cache ==> x in Insert(cache, sid)
    ensures |cache| == MAX_SESSIONS ==> cache[|cache| - 1] !in Insert(cache, sid)
  {
    if |cache| == MAX_SESSIONS {
      EvictedLast(cache, sid);
    } else {
      assert forall x :: x in cache ==> x in [sid] + cache;
    }
  }

  lemma WithoutIndex(cache: seq<nat>, at: nat)
    requires at < |cache| && forall i, j :: 0 <= i < j < |cache| ==> cache[i] != cache[j]
    ensures Without(cache, cache[at]) == cache[..at] + cache[at + 1..]
    decreases at
  {
    if at > 0 {
      var rest := cache[1..];
      assert forall i :: 0 <= i < |rest| ==> rest[i] == cache[i + 1];
      WithoutIndex(rest, at - 1);
      assert [cache[0]] + (rest[..at - 1] + rest[at..]) == cache[..at] + cache[at + 1..];
    }
  }

  /** A full cache loses exactly its last session to a new one. */
  lemma EvictedLast(cache: seq<nat>, best: nat)
    requires |cache| == MAX_SESSIONS && best !in cache
    requires forall i, j :: 0 <= i < j < |cache| ==> cache[i] != cache[j]
    ensures Insert(cache, best) == [best] + cache[..MAX_SESSIONS - 1]
    ensures cache[MAX_SESSIONS - 1] !in Insert(cache, best)
  {
    assert ([best] + cache)[..MAX_SESSIONS] == [best] + cache[..MAX_SESSIONS - 1];
  }

  // ---- the cache in every run ---------------------------------------------------------------

  /** The session at the front after a step that puts one there. */
  function Front(s: State, step: Step): Option<nat> {
    match step
    case Reuse(r, sid) => Some(sid)
    case Begin(r) => Some(|s.sessions|)
    case Publish(r) => if r < |s.readers| && s.readers[r].pc.Publishing? then Some(s.readers[r].pc.sid) else None
    case _ => None
  }

  /** `sid` goes to the front and the others keep their order; only a session that was not
      cached takes the place of the last of four. */
  ghost predicate ToFront(cache: seq<nat>, sid: nat, after: seq<nat>) {
    if sid in cache
    then exists i :: 0 <= i < |cache| && cache[i] == sid && after == [sid] + (cache[..i] + cache[i + 1..])
    else after == [sid] + cache[..Min(|cache|, 3)]
  }

  lemma PromoteMoves(cache: seq<nat>, n: nat, sid: nat)
    requires CacheOk(cache, n) && sid in cache
    ensures ToFront(cache, sid, Promote(cache, sid))
  {
    var i :| 0 <= i < |cache| && cache[i] == sid;
    WithoutIndex(cache, i);
  }

  lemma InsertMoves(cache: seq<nat>, n: nat, sid: nat)
    requires CacheOk(cache, n) && sid !in cache
    ensures ToFront(cache, sid, Insert(cache, sid))
  {
  }

  /** In every run the cache holds the four sessions used last: one that is reused, begun or
      published goes to the front, and nothing else changes it. */
  lemma CacheStep(plain: nat -> seq<Byte>, s: State, step: Step)
    requires Inv(plain, s) && Enabled(plain, s, step)
    ensures match Front(s, step)
            case None => Apply(plain, s, step).cache == s.cache
            case Some(sid) => ToFront(s.cache, sid, Apply(plain, s, step).cache)
  {
    hide SessionsOk, LocksOk, ReadersOk, StopsOk, Referenced, Insert, Promote, ToFront;
    match step {
      case Reuse(r, sid) => PromoteMoves(s.cache, |s.sessions|, sid);
      case Begin(r) => InsertMoves(s.cache, |s.sessions|, |s.sessions|);
      case Publish(r) => InsertMoves(s.cache, |s.sessions|, s.readers[r].pc.sid);
      case _ =>
    }
  }
}
