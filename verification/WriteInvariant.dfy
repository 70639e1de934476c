/** What runs of the write protocol keep. Some of it holds in every run, some needs that
    ArmFault marks and leaves pages safely, some that the queue is not full at a claim.
 */
module WriteInvariant {
  import opened Modular
  import opened WriteProtocol

  // ---- who answers for a queued page -------------------------------------

  /** The writer took page p from protected to queued and has not claimed a slot yet. */
  predicate Holds(w: Writer, p: nat) {
    || (w.Opening? && w.page == p)
    || (w.Claiming? && w.page == p)
    || (w.HostClaim? && w.at == p)
  }

  /** The writer claimed queue position k for page p and has not stored it yet. */
  predicate Fills(w: Writer, p: nat, k: nat) {
    || (w.Filling? && w.page == p && w.slot == k)
    || (w.HostFill? && w.at == p && w.slot == k)
  }

  ghost predicate Claimed(log: seq<nat>, tail: nat, p: nat) {
    exists i :: tail <= i < |log| && log[i] == p
  }

  ghost predicate Held(writers: seq<Writer>, p: nat) {
    exists t :: 0 <= t < |writers| && Holds(writers[t], p)
  }

  ghost predicate BeingFilled(writers: seq<Writer>, p: nat, k: nat) {
    exists t :: 0 <= t < |writers| && Fills(writers[t], p, k)
  }

  function Todo(o: Owner): set<nat> {
    if o.Reopening? then o.todo else {}
  }

  ghost predicate LogQueued(queued: set<nat>, log: seq<nat>, tail: nat, todo: set<nat>) {
    forall i :: tail <= i < |log| ==> log[i] in queued && log[i] != 0 && log[i] !in todo
  }

  ghost predicate HeldQueued(queued: set<nat>, log: seq<nat>, tail: nat, todo: set<nat>, writers: seq<Writer>) {
    forall t: nat, p: nat :: 0 <= t < |writers| && Holds(writers[t], p) ==>
                               p in queued && p != 0 && p !in todo && !Claimed(log, tail, p)
  }

  ghost predicate HeldOnce(writers: seq<Writer>) {
    forall t: nat, u: nat, p: nat :: 0 <= t < u < |writers| ==> !(Holds(writers[t], p) && Holds(writers[u], p))
  }

  ghost predicate Kept(queued: set<nat>, log: seq<nat>, tail: nat, todo: set<nat>, writers: seq<Writer>) {
    forall p :: p in queued ==> p in todo || Claimed(log, tail, p) || Held(writers, p)
  }

  /** Every queued page has exactly one keeper: a queue position from `tail` on, the
      owner's list of taken pages, or a writer that is about to enqueue it. */
  ghost predicate Outstanding(queued: set<nat>, log: seq<nat>, tail: nat, todo: set<nat>, writers: seq<Writer>) {
    && tail <= |log|
    && LogQueued(queued, log, tail, todo)
    && (forall i, j :: tail <= i < j < |log| ==> log[i] != log[j])
    && todo <= queued
    && HeldQueued(queued, log, tail, todo, writers)
    && HeldOnce(writers)
    && Kept(queued, log, tail, todo, writers)
  }

  function SlotOf(slots: seq<nat>, k: nat): nat
    requires |slots| > 0
  {
    slots[k % |slots|]
  }

  ghost predicate InUse(x: nat, lo: nat, hi: nat, n: nat)
    requires n > 0
  {
    exists k :: lo <= k < hi && IsIndex(k, n, x)
  }

  predicate IsIndex(k: nat, n: nat, x: nat)
    requires n > 0
  {
    k % n == x
  }

  /** Each position from `pos` on holds its page, or is empty and owned by one writer;
      every other slot is empty. */
  ghost predicate Filled(capacity: nat, slots: seq<nat>, log: seq<nat>, pos: nat, writers: seq<Writer>) {
    && capacity > 0 && |slots| == capacity && pos <= |log| <= pos + capacity
    && (forall t: nat, p: nat, k: nat :: 0 <= t < |writers| && Fills(writers[t], p, k) ==>
                            pos <= k < |log| && log[k] == p && SlotOf(slots, k) == 0)
    && (forall t: nat, u: nat, p: nat, r: nat, k: nat :: 0 <= t < u < |writers| ==> !(Fills(writers[t], p, k) && Fills(writers[u], r, k)))
    && (forall k :: pos <= k < |log| ==>
                      SlotOf(slots, k) == log[k] || (SlotOf(slots, k) == 0 && BeingFilled(writers, log[k], k)))
    && (forall x :: 0 <= x < capacity && slots[x] != 0 ==> InUse(x, pos, |log|, capacity))
  }

  // ---- page states and host protection ------------------------------------

  predicate InBatch(o: Owner, p: nat) {
    o.Marking? && o.run != 0 && In(o.run, p, o.at)
  }

  predicate InDisarm(o: Owner, p: nat) {
    || (o.Disarming? && In(o.first, p, o.end))
    || (o.Noting? && In(o.first, p, o.end))
  }

  ghost predicate OwnerShape(s: State) {
    match s.owner
    case Scanning(first, end, at) => 0 < first <= at <= end && Pages(first, at) <= s.shielded + s.queued
    case Checking(first, end, at) => 0 < first <= at <= end
    case Marking(first, end, at, run) =>
      && 0 < first <= at <= end && (run == 0 || first <= run < at)
      && Pages(first, at) <= s.shielded + s.queued
    case Disarming(first, end, at) => 0 < first <= at <= end && Pages(first, at) !! s.shielded
    case Noting(first, end) => 0 < first <= end && Pages(first, end) !! s.shielded
    case _ => true
  }

  predicate HostShape(w: Writer) {
    match w
    case HostScan(end, at, run) => 0 < at && run <= at
    case HostFlush(end, at, run) => 0 < at && run <= at
    case HostClaim(end, at, run) => 0 < run <= at
    case HostFill(end, at, run, slot) => 0 < run <= at
    case _ => true
  }

  ghost predicate Shape(s: State) {
    && s.shielded !! s.queued && 0 !in s.shielded && |s.slots| == s.capacity > 0
    && s.readOnly <= s.everArmed && s.shielded <= s.everArmed && s.queued <= s.everArmed
    && OwnerShape(s)
    && (forall t :: 0 <= t < |s.writers| ==> HostShape(s.writers[t]))
  }

  /** Where the report of a written page can be. */
  datatype Place = InSlot(x: nat) | InWriter(t: nat) | InTaken(i: nat) | InTodo(p: nat)

  /** The page a thread has exchanged and not yet put into the queue. */
  function Token(w: Writer): nat {
    match w
    case Opening(p) => p
    case Claiming(p) => p
    case Filling(p, slot) => p
    case HostClaim(end, at, run) => at
    case HostFill(end, at, run, slot) => at
    case _ => 0
  }

  function PageAt(s: State, a: Place): nat {
    match a
    case InSlot(x) => if x < |s.slots| then s.slots[x] else 0
    case InWriter(t) => if t < |s.writers| then Token(s.writers[t]) else 0
    case InTaken(i) => if s.owner.Taking? && i < |s.owner.taken| then s.owner.taken[i] else 0
    case InTodo(p) => if s.owner.Reopening? && p in s.owner.todo then p else 0
  }

  /** A page has at most one report under way, and only while its state is queued. */
  ghost predicate Tokens(s: State) {
    && (forall a :: PageAt(s, a) != 0 ==> PageAt(s, a) in s.queued)
    && (forall a, b :: PageAt(s, a) == PageAt(s, b) != 0 ==> a == b)
  }

  /** What every run keeps. */
  ghost predicate Always(s: State) {
    Shape(s) && Tokens(s)
  }

  ghost predicate Shield(s: State) {
    && (forall p :: p in s.shielded ==> p in s.readOnly || InBatch(s.owner, p))
    && (forall t :: 0 <= t < |s.writers| ==> Unopened(s.writers[t]) !! s.shielded)
  }

  ghost predicate Track(s: State) {
    && s.written <= s.tracked && s.written !! s.shielded
    && forall p :: p in s.tracked ==>
                     (p in s.shielded && p in s.readOnly) || p in s.queued || InDisarm(s.owner, p)
  }

  /** What runs keep whose steps are PageSafe. */
  ghost predicate Guarded(s: State) {
    Shield(s) && Track(s)
  }

  ghost predicate TakeShape(s: State) {
    s.owner.Taking? ==>
      s.tail <= s.owner.at <= s.owner.head <= |s.log| && s.owner.taken == s.log[s.tail..s.owner.at]
  }

  /** What runs keep whose steps are QueueSafe. */
  ghost predicate Accounted(s: State) {
    && Outstanding(s.queued, s.log, s.tail, Todo(s.owner), s.writers)
    && Filled(s.capacity, s.slots, s.log, Position(s.owner, s.tail), s.writers)
    && TakeShape(s)
  }

  function Wanted(o: Owner): nat {
    if (o.Checking? || o.Marking?) && o.first <= o.end then o.end - o.first else 0
  }

  /** What the capacity check of ArmFault gives as long as it does not give up half-way. */
  ghost predicate Room(s: State) {
    && s.shielded <= s.armed + Target(s.owner)
    && |s.armed| + Wanted(s.owner) < s.capacity / 2
  }

  // ---- counting ------------------------------------------------------------

  lemma {:induction false} PagesSize(lo: nat, hi: nat)
    requires lo <= hi
    ensures |Pages(lo, hi)| == hi - lo
    decreases hi - lo
  {
    if lo < hi {
      PagesSize(lo + 1, hi);
      assert Pages(lo, hi) == {lo} + Pages(lo + 1, hi) by {
        forall p: nat ensures p in Pages(lo, hi) <==> p == lo || p in Pages(lo + 1, hi) {
          assert In(lo, p, hi) <==> p == lo || In(lo + 1, p, hi);
        }
      }
    } else {
      assert Pages(lo, hi) == {};
    }
  }

  lemma PagesSnoc(lo: nat, hi: nat)
    requires lo <= hi
    ensures Pages(lo, hi + 1) == Pages(lo, hi) + {hi}
  {
    forall p: nat ensures p in Pages(lo, hi + 1) <==> p in Pages(lo, hi) || p == hi {
      assert In(lo, p, hi + 1) <==> In(lo, p, hi) || p == hi;
    }
  }

  lemma PagesMember(lo: nat, hi: nat, p: nat)
    ensures p in Pages(lo, hi) <==> In(lo, p, hi)
  {
  }

  lemma SubsetSize<T>(a: set<T>, b: set<T>)
    requires a <= b
    ensures |a| <= |b|
  {
    assert b == a + (b - a);
  }

  lemma UnionSize<T>(a: set<T>, b: set<T>)
    ensures |a + b| <= |a| + |b|
  {
    assert a + b == a + (b - a);
    SubsetSize(b - a, b);
  }

  lemma {:induction false} DistinctSize(s: seq<nat>)
    requires forall i, j :: 0 <= i < j < |s| ==> s[i] != s[j]
    ensures |Elements(s)| == |s|
  {
    if s == [] {
      assert Elements(s) == {};
    } else {
      var rest := s[..|s| - 1];
      DistinctSize(rest);
      assert Elements(s) == Elements(rest) + {s[|s| - 1]} by {
        forall p ensures p in Elements(s) <==> p in Elements(rest) || p == s[|s| - 1] {
          assert s == rest + [s[|s| - 1]];
        }
      }
    }
  }

  /** Fewer queued pages than slots. */
  lemma QueuedFits(s: State)
    requires Room(s) && Shape(s) && |Orphans(s)| <= s.capacity / 2
    ensures |s.queued| < s.capacity
  {
    var target := Target(s.owner);
    assert |target| <= Wanted(s.owner) by {
      if s.owner.Marking? {
        PagesSize(s.owner.first, s.owner.end);
      }
    }
    SubsetSize(s.queued, s.armed + target + Orphans(s));
    UnionSize(s.armed + target, Orphans(s));
    UnionSize(s.armed, target);
  }

  /** A page that is queued but not in the queue leaves room for one more slot. */
  lemma ClaimFits(queued: set<nat>, log: seq<nat>, tail: nat, p: nat)
    requires tail <= |log| && p in queued && !Claimed(log, tail, p)
    requires forall i :: tail <= i < |log| ==> log[i] in queued
    requires forall i, j :: tail <= i < j < |log| ==> log[i] != log[j]
    ensures |log| - tail + 1 <= |queued|
  {
    var s := log[tail..];
    DistinctSize(s);
    assert Elements(s) + {p} <= queued by {
      forall x | x in Elements(s) ensures x in queued {
        var i :| 0 <= i < |s| && s[i] == x;
        assert log[tail + i] == x;
      }
    }
    assert p !in Elements(s) by {
      forall i | 0 <= i < |s| ensures s[i] != p {
        assert s[i] == log[tail + i];
      }
    }
    SubsetSize(Elements(s) + {p}, queued);
  }

  // ---- the queue, step by step ----------------------------------------------

  /** A writer step that neither takes nor hands over a page. */
  lemma OutSame(queued: set<nat>, log: seq<nat>, tail: nat, todo: set<nat>, writers: seq<Writer>, t: nat, w: Writer)
    requires Outstanding(queued, log, tail, todo, writers) && t < |writers|
    requires forall p: nat :: Holds(writers[t], p) <==> Holds(w, p)
    ensures Outstanding(queued, log, tail, todo, writers[t := w])
  {
    var after := writers[t := w];
    assert Kept(queued, log, tail, todo, after) by {
      forall p | p in queued ensures p in todo || Claimed(log, tail, p) || Held(after, p) {
        if Held(writers, p) {
          HeldUpdate(writers, t, w, p);
        }
      }
    }
    assert HeldQueued(queued, log, tail, todo, after) by {
      forall u: nat, p: nat | u < |after| && Holds(after[u], p)
        ensures p in queued && p != 0 && p !in todo && !Claimed(log, tail, p)
      {
        assert Holds(writers[u], p);
      }
    }
    assert HeldOnce(after) by {
      forall u: nat, v: nat, p: nat | u < v < |after| ensures !(Holds(after[u], p) && Holds(after[v], p)) {
        assert !(Holds(writers[u], p) && Holds(writers[v], p));
      }
    }
  }

  lemma HeldUpdate(writers: seq<Writer>, t: nat, w: Writer, p: nat)
    requires t < |writers| && Held(writers, p) && (Holds(writers[t], p) ==> Holds(w, p))
    ensures Held(writers[t := w], p)
  {
    var u :| 0 <= u < |writers| && Holds(writers[u], p);
    assert Holds(writers[t := w][u], p);
  }

  /** No writer but t holds p, so t may hold it. */
  lemma OnceUpdate(writers: seq<Writer>, t: nat, w: Writer, p: nat)
    requires HeldOnce(writers) && t < |writers|
    requires forall u: nat :: u < |writers| ==> !Holds(writers[u], p) || u == t
    requires forall q: nat :: Holds(w, q) ==> q == p
    ensures HeldOnce(writers[t := w])
  {
    var after := writers[t := w];
    forall u: nat, v: nat, q: nat | u < v < |after| ensures !(Holds(after[u], q) && Holds(after[v], q)) {
      assert !(Holds(writers[u], q) && Holds(writers[v], q));
    }
  }

  /** The compare-and-swap from protected to queued: the writer becomes the keeper. */
  lemma OutHold(queued: set<nat>, log: seq<nat>, tail: nat, todo: set<nat>, writers: seq<Writer>, t: nat, w: Writer, p: nat)
    requires Outstanding(queued, log, tail, todo, writers) && t < |writers|
    requires p !in queued && p != 0
    requires forall q: nat :: !Holds(writers[t], q)
    requires forall q: nat :: Holds(w, q) <==> q == p
    ensures Outstanding(queued + {p}, log, tail, todo, writers[t := w])
  {
    hide Kept, HeldQueued, HeldOnce;
    var after := writers[t := w];
    assert HeldQueued(queued + {p}, log, tail, todo, after) by {
      HoldQueued(queued, log, tail, todo, writers, t, w, p);
    }
    assert HeldOnce(after) by {
      NotHeld(queued, log, tail, todo, writers, p);
      OnceUpdate(writers, t, w, p);
    }
    assert Kept(queued + {p}, log, tail, todo, after) by {
      HoldKept(queued, log, tail, todo, writers, t, w, p);
    }
  }

  lemma NotHeld(queued: set<nat>, log: seq<nat>, tail: nat, todo: set<nat>, writers: seq<Writer>, p: nat)
    requires HeldQueued(queued, log, tail, todo, writers) && p !in queued
    ensures forall u: nat :: u < |writers| ==> !Holds(writers[u], p)
  {
  }

  lemma HoldQueued(queued: set<nat>, log: seq<nat>, tail: nat, todo: set<nat>, writers: seq<Writer>, t: nat, w: Writer, p: nat)
    requires HeldQueued(queued, log, tail, todo, writers) && LogQueued(queued, log, tail, todo) && t < |writers|
    requires p !in queued && p != 0 && todo <= queued
    requires forall q: nat :: Holds(w, q) <==> q == p
    ensures HeldQueued(queued + {p}, log, tail, todo, writers[t := w])
  {
    var after := writers[t := w];
    assert !Claimed(log, tail, p);
    forall u: nat, q: nat | u < |after| && Holds(after[u], q)
      ensures q in queued + {p} && q != 0 && q !in todo && !Claimed(log, tail, q)
    {
      if u == t {
        assert q == p && p !in todo;
      } else {
        assert Holds(writers[u], q);
        assert q in queued && q != 0 && q !in todo && !Claimed(log, tail, q);
      }
    }
  }

  lemma HoldKept(queued: set<nat>, log: seq<nat>, tail: nat, todo: set<nat>, writers: seq<Writer>, t: nat, w: Writer, p: nat)
    requires Kept(queued, log, tail, todo, writers) && t < |writers| && Holds(w, p)
    requires forall q: nat :: !Holds(writers[t], q)
    ensures Kept(queued + {p}, log, tail, todo, writers[t := w])
  {
    var after := writers[t := w];
    assert Holds(after[t], p);
    forall q | q in queued + {p} ensures q in todo || Claimed(log, tail, q) || Held(after, q) {
      if q != p && Held(writers, q) {
        HeldUpdate(writers, t, w, q);
      }
    }
  }

  /** fetch_add on the queue head: the position becomes the keeper. */
  lemma OutClaim(queued: set<nat>, log: seq<nat>, tail: nat, todo: set<nat>, writers: seq<Writer>, t: nat, w: Writer, p: nat)
    requires Outstanding(queued, log, tail, todo, writers) && t < |writers|
    requires Holds(writers[t], p)
    requires forall q: nat :: !Holds(w, q)
    ensures Outstanding(queued, log + [p], tail, todo, writers[t := w])
  {
    hide Kept, HeldOnce;
    var after, longer := writers[t := w], log + [p];
    assert p in queued && p != 0 && p !in todo && !Claimed(log, tail, p);
    forall i, j | tail <= i < j < |longer| ensures longer[i] != longer[j] {
      if j == |log| {
        assert log[i] != p;
      }
    }
    assert HeldOnce(after) by {
      OnlyHolder(writers, t, p);
      OnceUpdate(writers, t, w, p);
    }
    assert HeldQueued(queued, longer, tail, todo, after) by {
      OnlyHolder(writers, t, p);
      ClaimQueued(queued, log, tail, todo, writers, t, w, p);
    }
    assert Kept(queued, longer, tail, todo, after) by {
      ClaimKept(queued, log, tail, todo, writers, t, w, p);
    }
  }

  lemma OnlyHolder(writers: seq<Writer>, t: nat, p: nat)
    requires HeldOnce(writers) && t < |writers| && Holds(writers[t], p)
    ensures forall u: nat :: u < |writers| ==> !Holds(writers[u], p) || u == t
  {
  }

  lemma ClaimQueued(queued: set<nat>, log: seq<nat>, tail: nat, todo: set<nat>, writers: seq<Writer>, t: nat, w: Writer, p: nat)
    requires HeldQueued(queued, log, tail, todo, writers) && t < |writers|
    requires forall u: nat :: u < |writers| ==> !Holds(writers[u], p) || u == t
    requires forall q: nat :: !Holds(w, q)
    ensures HeldQueued(queued, log + [p], tail, todo, writers[t := w])
  {
    var after, longer := writers[t := w], log + [p];
    forall u: nat, q: nat | u < |after| && Holds(after[u], q)
      ensures q in queued && q != 0 && q !in todo && !Claimed(longer, tail, q)
    {
      assert u != t && Holds(writers[u], q);
      assert q != p && !Claimed(log, tail, q);
      forall i | tail <= i < |longer| ensures longer[i] != q {
        if i < |log| {
          assert log[i] != q;
        }
      }
    }
  }

  lemma ClaimKept(queued: set<nat>, log: seq<nat>, tail: nat, todo: set<nat>, writers: seq<Writer>, t: nat, w: Writer, p: nat)
    requires Kept(queued, log, tail, todo, writers) && t < |writers| && tail <= |log|
    requires Holds(writers[t], p)
    requires forall q: nat :: Holds(writers[t], q) ==> q == p
    ensures Kept(queued, log + [p], tail, todo, writers[t := w])
  {
    var after, longer := writers[t := w], log + [p];
    forall q | q in queued ensures q in todo || Claimed(longer, tail, q) || Held(after, q) {
      if q == p {
        assert longer[|log|] == p;
      } else if Claimed(log, tail, q) {
        var i :| tail <= i < |log| && log[i] == q;
        assert longer[i] == q;
      } else if Held(writers, q) {
        HeldUpdate(writers, t, w, q);
      }
    }
  }

  /** The owner moves its tail: the taken pages pass from the queue to its list. */
  lemma OutTake(queued: set<nat>, log: seq<nat>, tail: nat, writers: seq<Writer>, head: nat)
    requires Outstanding(queued, log, tail, {}, writers) && tail <= head <= |log|
    ensures Outstanding(queued, log, head, Elements(log[tail..head]), writers)
  {
    var todo := Elements(log[tail..head]);
    forall p | p in todo ensures Claimed(log, tail, p) && p in queued {
      var i :| 0 <= i < |log[tail..head]| && log[tail..head][i] == p;
      assert log[tail + i] == p;
    }
    forall i | head <= i < |log| ensures log[i] !in todo {
      forall j | 0 <= j < |log[tail..head]| ensures log[tail..head][j] != log[i] {
        assert log[tail + j] != log[i];
      }
    }
    forall p | Claimed(log, head, p) ensures Claimed(log, tail, p) {
      var i :| head <= i < |log| && log[i] == p;
      assert tail <= i;
    }
    forall p | p in queued ensures p in todo || Claimed(log, head, p) || Held(writers, p) {
      if Claimed(log, tail, p) {
        var i :| tail <= i < |log| && log[i] == p;
        if i < head {
          assert log[tail..head][i - tail] == p;
        } else {
          assert Claimed(log, head, p);
        }
      }
    }
  }

  lemma OutReopen(queued: set<nat>, log: seq<nat>, tail: nat, todo: set<nat>, writers: seq<Writer>, p: nat)
    requires Outstanding(queued, log, tail, todo, writers) && p in todo
    ensures Outstanding(queued - {p}, log, tail, todo - {p}, writers)
  {
  }

  lemma FillSame(capacity: nat, slots: seq<nat>, log: seq<nat>, pos: nat, writers: seq<Writer>, t: nat, w: Writer)
    requires Filled(capacity, slots, log, pos, writers) && t < |writers|
    requires forall p: nat, k: nat :: Fills(writers[t], p, k) <==> Fills(w, p, k)
    ensures Filled(capacity, slots, log, pos, writers[t := w])
  {
    var after := writers[t := w];
    forall k | pos <= k < |log|
      ensures SlotOf(slots, k) == log[k] || (SlotOf(slots, k) == 0 && BeingFilled(after, log[k], k))
    {
      if SlotOf(slots, k) != log[k] {
        var u :| 0 <= u < |writers| && Fills(writers[u], log[k], k);
        assert Fills(after[u], log[k], k);
      }
    }
  }

  /** A fresh position lands on an empty slot. */
  lemma FreshIsEmpty(capacity: nat, slots: seq<nat>, log: seq<nat>, pos: nat, writers: seq<Writer>)
    requires Filled(capacity, slots, log, pos, writers) && |log| < pos + capacity
    ensures SlotOf(slots, |log|) == 0
  {
    var x := |log| % capacity;
    forall k | pos <= k < |log| ensures !IsIndex(k, capacity, x) {
      ModDistinct(k, |log|, capacity);
    }
  }

  lemma FillClaim(capacity: nat, slots: seq<nat>, log: seq<nat>, pos: nat, writers: seq<Writer>, t: nat, w: Writer, p: nat)
    requires Filled(capacity, slots, log, pos, writers) && t < |writers| && |log| < pos + capacity
    requires forall q: nat, k: nat :: !Fills(writers[t], q, k)
    requires forall q: nat, k: nat :: Fills(w, q, k) <==> q == p && k == |log|
    ensures Filled(capacity, slots, log + [p], pos, writers[t := w])
  {
    var after, longer := writers[t := w], log + [p];
    FreshIsEmpty(capacity, slots, log, pos, writers);
    assert Fills(after[t], p, |log|);
    forall k | pos <= k < |longer|
      ensures SlotOf(slots, k) == longer[k] || (SlotOf(slots, k) == 0 && BeingFilled(after, longer[k], k))
    {
      if k < |log| && SlotOf(slots, k) != log[k] {
        var u :| 0 <= u < |writers| && Fills(writers[u], log[k], k);
        assert Fills(after[u], longer[k], k);
      }
    }
    forall x | 0 <= x < capacity && slots[x] != 0 ensures InUse(x, pos, |longer|, capacity) {
      var k :| pos <= k < |log| && IsIndex(k, capacity, x);
      assert k < |longer|;
    }
  }

  /** Storing into a claimed slot changes that slot only. */
  lemma SlotUpdate(slots: seq<nat>, k: nat, v: nat, j: nat)
    requires |slots| > 0
    requires j == k || j < k < j + |slots| || k < j < k + |slots|
    ensures SlotOf(slots[k % |slots| := v], j) == if j == k then v else SlotOf(slots, j)
  {
    if j < k {
      ModDistinct(j, k, |slots|);
    } else if k < j {
      ModDistinct(k, j, |slots|);
    }
  }

  lemma FillStore(capacity: nat, slots: seq<nat>, log: seq<nat>, pos: nat, writers: seq<Writer>, t: nat, w: Writer, p: nat, k: nat)
    requires Filled(capacity, slots, log, pos, writers) && t < |writers|
    requires Fills(writers[t], p, k)
    requires forall q: nat, j: nat :: !Fills(w, q, j)
    ensures Filled(capacity, slots[k % capacity := p], log, pos, writers[t := w])
  {
    var after, full := writers[t := w], slots[k % capacity := p];
    forall u: nat, q: nat, j: nat | u < |after| && Fills(after[u], q, j)
      ensures pos <= j < |log| && log[j] == q && SlotOf(full, j) == 0
    {
      assert u != t && Fills(writers[u], q, j) && j != k;
      SlotUpdate(slots, k, p, j);
    }
    forall j | pos <= j < |log|
      ensures SlotOf(full, j) == log[j] || (SlotOf(full, j) == 0 && BeingFilled(after, log[j], j))
    {
      SlotUpdate(slots, k, p, j);
      if j != k && SlotOf(slots, j) != log[j] {
        var u :| 0 <= u < |writers| && Fills(writers[u], log[j], j);
        assert u != t;
        assert Fills(after[u], log[j], j);
      }
    }
    forall x | 0 <= x < capacity && full[x] != 0 ensures InUse(x, pos, |log|, capacity) {
      if x == k % capacity {
        assert IsIndex(k, capacity, x);
      }
    }
  }

  /** The owner empties the slot at its position, which holds exactly the page claimed there. */
  lemma FillTake(capacity: nat, slots: seq<nat>, log: seq<nat>, pos: nat, writers: seq<Writer>)
    requires Filled(capacity, slots, log, pos, writers) && pos < |log|
    requires SlotOf(slots, pos) != 0
    ensures SlotOf(slots, pos) == log[pos]
    ensures Filled(capacity, slots[pos % capacity := 0], log, pos + 1, writers)
  {
    var cleared := slots[pos % capacity := 0];
    forall u: nat, q: nat, j: nat | u < |writers| && Fills(writers[u], q, j)
      ensures pos + 1 <= j < |log| && log[j] == q && SlotOf(cleared, j) == 0
    {
      assert j != pos;
      SlotUpdate(slots, pos, 0, j);
    }
    forall j | pos + 1 <= j < |log|
      ensures SlotOf(cleared, j) == log[j] || (SlotOf(cleared, j) == 0 && BeingFilled(writers, log[j], j))
    {
      SlotUpdate(slots, pos, 0, j);
    }
    forall x | 0 <= x < capacity && cleared[x] != 0 ensures InUse(x, pos + 1, |log|, capacity) {
      var k :| pos <= k < |log| && IsIndex(k, capacity, x);
      assert k != pos;
    }
  }
}
