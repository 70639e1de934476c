/** The kernel's handle table: an array of slots scanned cyclically for a free one, grown by
    doubling, against the map from live slots to objects that it stands for. Objects are
    identified by numbers; a handle is four times a slot.
 */
module ObjectTable {
  import opened Basics

  datatype Entry = Entry(refCount: int, obj: Option<nat>)

  const EMPTY := Entry(0, None)
  const MIN_CAPACITY: nat := 16 * 1024
  /** Growing a table of 2^27 slots of 16 bytes would overflow its 32-bit size. */
  const MAX_CAPACITY: nat := 0x800_0000
  const NO_HANDLE: nat := 0xffff_ffff

  datatype Held = Held(obj: nat, refs: int)

  /** What the table stands for. */
  function Live(table: seq<Entry>): map<nat, Held> {
    map s: nat | s < |table| && table[s].obj.Some? :: Held(table[s].obj.value, table[s].refCount)
  }

  predicate Free(table: seq<Entry>, s: nat) {
    s < |table| && table[s].obj.None?
  }

  predicate Taken(table: seq<Entry>, s: nat) {
    s < |table| && table[s].obj.Some?
  }

  predicate Full(table: seq<Entry>) {
    forall s: nat :: 1 <= s < |table| ==> table[s].obj.Some?
  }

  /** The slot the scan looks at in step k: from `last` upwards, then from 1. */
  function ScanAt(last: nat, cap: nat, k: nat): nat
    requires 1 <= last < cap
  {
    if last + k < cap then last + k else last + k - cap + 1
  }

  /** Every slot from `last` upwards and around to s is taken. */
  predicate FirstFree(table: seq<Entry>, last: nat, s: nat) {
    forall x: nat :: 1 <= x < |table| && (if s >= last then last <= x < s else x >= last || x < s) ==> Taken(table, x)
  }

  lemma FirstFreeAt(table: seq<Entry>, last: nat, k: nat)
    requires 1 <= last < |table| && k < |table| - 1
    requires forall j: nat :: j < k ==> Taken(table, ScanAt(last, |table|, j))
    ensures FirstFree(table, last, ScanAt(last, |table|, k))
  {
    var s := ScanAt(last, |table|, k);
    forall x: nat | 1 <= x < |table| && (if s >= last then last <= x < s else x >= last || x < s)
      ensures Taken(table, x)
    {
      var j := if x >= last then x - last else x + |table| - 1 - last;
      assert ScanAt(last, |table|, j) == x;
    }
  }

  lemma LiveUpdate(table: seq<Entry>, s: nat, e: Entry)
    requires s < |table|
    ensures Live(table[s := e]) == if e.obj.Some? then Live(table)[s := Held(e.obj.value, e.refCount)]
                                   else Live(table) - {s}
  {
  }

  lemma LiveGrown(table: seq<Entry>, more: seq<Entry>)
    requires forall i :: 0 <= i < |more| ==> more[i].obj.None?
    ensures Live(table + more) == Live(table)
  {
  }

  /** Having scanned all cap - 1 steps, every slot but 0 was seen. */
  lemma ScannedAll(table: seq<Entry>, last: nat)
    requires 1 <= last < |table|
    requires forall k: nat :: k < |table| - 1 ==> Taken(table, ScanAt(last, |table|, k))
    ensures Full(table)
  {
    forall s: nat | 1 <= s < |table| ensures table[s].obj.Some? {
      var k := if s >= last then s - last else s + |table| - 1 - last;
      assert ScanAt(last, |table|, k) == s;
    }
  }

  class Table {
    var table: seq<Entry>
    var last: nat

    ghost predicate Valid()
      reads this
    {
      && (table == [] ==> last == 0)
      && (table != [] ==> 1 <= last < |table|)
      && (table != [] ==> table[0].obj.None?)
    }

    ghost function Contents(): map<nat, Held>
      reads this
    {
      Live(table)
    }

    constructor ()
      ensures Valid() && Contents() == map[] && table == []
    {
      table, last := [], 0;
    }

    /** realloc and clearing of the new part; `memory` is the allocator's answer. */
    method Resize(newCap: nat, memory: bool) returns (ok: bool)
      requires newCap >= |table|
      modifies this
      ensures ok == memory
      ensures ok ==> table == old(table) + seq(newCap - old(|table|), i => EMPTY) && last == old(|table|)
      ensures !ok ==> table == old(table) && last == old(last)
    {
      if !memory {
        return false;
      }
      last := |table|;
      table := table + seq(newCap - |table|, i => EMPTY);
      return true;
    }

    /** The scan for a free slot, from `last` upwards and around, stepping over slot 0. */
    method Scan() returns (slot: Option<nat>)
      requires Valid()
      ensures slot.None? <==> Full(table)
      ensures slot.Some? ==> 1 <= slot.value && Free(table, slot.value) && FirstFree(table, last, slot.value)
    {
      hide Full, ScanAt;
      if table == [] {
        EmptyFull();
        return None;
      }
      var at, scanned := last, 0;
      ghost var k: nat := 0;
      ScanStart(last, |table|);
      while scanned < |table|
        invariant k <= |table| - 1 && at == ScanAt(last, |table|, k)
        invariant scanned == (if last + k < |table| then k else k + 1)
        invariant forall j: nat :: j < k ==> Taken(table, ScanAt(last, |table|, j))
        decreases |table| - scanned
      {
        ScanInRange(last, |table|, k);
        if table[at].obj.None? {
          FreeNotFull(table, at);
          FirstFreeAt(table, last, k);
          return Some(at);
        }
        ScanNext(last, |table|, k);
        scanned := scanned + 1;
        at := (at + 1) % |table|;
        if at == 0 {
          scanned := scanned + 1;
          at := at + 1;
        }
        k := k + 1;
      }
      ScannedAll(table, last);
      return None;
    }

    /** A free slot other than 0; the table grows exactly if there is none. */
    method FindSlot(memory: bool) returns (slot: Option<nat>)
      requires Valid() && |table| < MAX_CAPACITY
      modifies this
      ensures Valid() && Contents() == old(Contents())
      ensures slot.None? <==> Full(old(table)) && !memory
      ensures slot.Some? ==> 1 <= slot.value && Free(table, slot.value)
      ensures table != old(table) <==> Full(old(table)) && memory
      ensures table != old(table) ==> |table| == Max(MIN_CAPACITY, 2 * old(|table|)) && slot == Some(old(|table|) + 1)
      ensures table == old(table) && slot.Some? ==> FirstFree(table, last, slot.value)
      ensures last == if table == old(table) then old(last) else old(|table|) + 1
    {
      hide Full, Live, FirstFree;
      slot := Scan();
      if slot.Some? {
        return;
      }
      var newCap := Max(MIN_CAPACITY, 2 * |table|);
      LiveGrown(table, seq(newCap - |table|, i => EMPTY));
      var ok := Resize(newCap, memory);
      if !ok {
        return None;
      }
      last := last + 1;
      return Some(last);
    }

    /** A handle no live object has, non-zero and a multiple of four. */
    method Add(obj: nat, memory: bool) returns (ok: bool, handle: nat)
      requires Valid() && |table| < MAX_CAPACITY
      modifies this
      ensures Valid()
      ensures !ok <==> Full(old(table)) && !memory
      ensures !ok ==> handle == NO_HANDLE && Contents() == old(Contents())
      ensures ok ==> handle > 0 && handle % 4 == 0 && handle / 4 !in old(Contents())
      ensures ok ==> Contents() == old(Contents())[handle / 4 := Held(obj, 1)]
      ensures ok && !Full(old(table)) ==> FirstFree(old(table), old(last), handle / 4)
    {
      hide Live, FirstFree;
      var slot := FindSlot(memory);
      if slot.None? {
        return false, NO_HANDLE;
      }
      LiveUpdate(table, slot.value, Entry(1, Some(obj)));
      FreeNotLive(table, slot.value);
      table := table[slot.value := Entry(1, Some(obj))];
      return true, slot.value * 4;
    }

    /** The two low bits of a handle are ignored. */
    method Get(handle: nat) returns (obj: Option<nat>)
      requires Valid()
      ensures obj == if handle / 4 in Contents() then Some(Contents()[handle / 4].obj) else None
    {
      var slot := handle / 4;
      obj := None;
      if slot < |table| && table[slot].obj.Some? {
        obj := table[slot].obj;
      }
    }

    method Remove(handle: nat) returns (ok: bool)
      requires Valid()
      modifies this`table
      ensures Valid() && Contents() == old(Contents()) - {handle / 4} && |table| == old(|table|)
      ensures ok <==> handle / 4 in old(Contents())
    {
      var slot := handle / 4;
      if slot < |table| && table[slot].obj.Some? {
        LiveUpdate(table, slot, EMPTY);
        table := table[slot := EMPTY];
        return true;
      }
      return false;
    }

    /** One reference more. It also succeeds, without effect on any object, on an empty slot. */
    method Keep(handle: nat) returns (ok: bool)
      requires Valid()
      modifies this`table
      ensures Valid() && Contents() == Kept(old(Contents()), handle / 4) && |table| == old(|table|)
      ensures ok <==> handle / 4 < |table|
    {
      hide Live;
      var slot := handle / 4;
      if slot >= |table| {
        NotLive(table, slot);
        return false;
      }
      LiveIs(table, slot);
      LiveUpdate(table, slot, table[slot].(refCount := table[slot].refCount + 1));
      table := table[slot := table[slot].(refCount := table[slot].refCount + 1)];
      return true;
    }

    /** One reference less; the object leaves with the last. On an empty slot only the stray
        count of earlier calls decides the answer. */
    method Release(handle: nat) returns (ok: bool)
      requires Valid()
      modifies this`table
      ensures Valid() && Contents() == Released(old(Contents()), handle / 4) && |table| == old(|table|)
      ensures ok <==> handle / 4 < |table| && (handle / 4 in old(Contents()) || old(table)[handle / 4].refCount != 1)
    {
      hide Live;
      var slot := handle / 4;
      if slot >= |table| {
        NotLive(table, slot);
        return false;
      }
      LiveIs(table, slot);
      LiveUpdate(table, slot, table[slot].(refCount := table[slot].refCount - 1));
      table := table[slot := table[slot].(refCount := table[slot].refCount - 1)];
      if table[slot].refCount == 0 {
        ok := Remove(handle);
        return;
      }
      return true;
    }

    /** Empties every slot and keeps the capacity. */
    method Purge()
      requires Valid()
      modifies this`table
      ensures Valid() && Contents() == map[] && |table| == old(|table|)
    {
      var slot := 0;
      while slot < |table|
        invariant slot <= |table| == old(|table|) && Valid()
        invariant forall i :: 0 <= i < slot ==> table[i].obj.None?
      {
        if table[slot].obj.Some? {
          table := table[slot := EMPTY];
        }
        slot := slot + 1;
      }
    }

    method Reset()
      modifies this
      ensures Valid() && Contents() == map[] && table == []
    {
      table, last := [], 0;
    }
  }

  lemma EmptyFull()
    ensures Full([])
  {
  }

  lemma ScanStart(last: nat, cap: nat)
    requires 1 <= last < cap
    ensures ScanAt(last, cap, 0) == last
  {
  }

  lemma ScanInRange(last: nat, cap: nat, k: nat)
    requires 1 <= last < cap && k < cap - 1
    ensures 1 <= ScanAt(last, cap, k) < cap
  {
  }

  lemma ScanNext(last: nat, cap: nat, k: nat)
    requires 1 <= last < cap && k < cap - 1
    ensures var next := (ScanAt(last, cap, k) + 1) % cap;
            ScanAt(last, cap, k + 1) == if next == 0 then 1 else next
    ensures (ScanAt(last, cap, k) + 1) % cap == 0 <==> last + k + 1 == cap
  {
  }

  lemma FreeNotFull(table: seq<Entry>, s: nat)
    requires 1 <= s && Free(table, s)
    ensures !Full(table)
  {
  }

  lemma FreeNotLive(table: seq<Entry>, s: nat)
    requires Free(table, s)
    ensures s !in Live(table)
  {
  }

  lemma NotLive(table: seq<Entry>, s: nat)
    requires s >= |table|
    ensures s !in Live(table)
  {
  }

  lemma LiveIs(table: seq<Entry>, s: nat)
    requires s < |table|
    ensures s in Live(table) <==> table[s].obj.Some?
    ensures s in Live(table) ==> Live(table)[s] == Held(table[s].obj.value, table[s].refCount)
    ensures s !in Live(table) ==> Live(table) - {s} == Live(table)
  {
  }

  // ---- runs of the table -----------------------------------------------------------

  function Kept(m: map<nat, Held>, s: nat): map<nat, Held> {
    if s in m then m[s := Held(m[s].obj, m[s].refs + 1)] else m
  }

  function Released(m: map<nat, Held>, s: nat): map<nat, Held> {
    if s !in m then m
    else if m[s].refs == 1 then m - {s}
    else m[s := Held(m[s].obj, m[s].refs - 1)]
  }

  /** Operations on the map, by slot. Adding takes any free slot. */
  datatype Op = AddAt(slot: nat, obj: nat) | RemoveAt(slot: nat) | KeepAt(slot: nat) | ReleaseAt(slot: nat)

  function Apply(m: map<nat, Held>, op: Op): map<nat, Held> {
    match op
    case AddAt(s, o) => if s in m then m else m[s := Held(o, 1)]
    case RemoveAt(s) => m - {s}
    case KeepAt(s) => Kept(m, s)
    case ReleaseAt(s) => Released(m, s)
  }

  function Exec(m: map<nat, Held>, ops: seq<Op>): map<nat, Held> {
    if ops == [] then m else Apply(Exec(m, ops[..|ops| - 1]), ops[|ops| - 1])
  }

  /** Keeps minus releases of a slot. */
  function Balance(ops: seq<Op>, s: nat): int {
    if ops == [] then 0
    else Balance(ops[..|ops| - 1], s) +
         (if ops[|ops| - 1] == KeepAt(s) then 1 else if ops[|ops| - 1] == ReleaseAt(s) then -1 else 0)
  }

  ghost predicate Positive(ops: seq<Op>, s: nat) {
    1 + Balance(ops, s) > 0 && (ops != [] ==> ops[|ops| - 1] != RemoveAt(s))
  }

  /** At every moment fewer references were given back than had been taken. */
  ghost predicate Covered(ops: seq<Op>, s: nat) {
    forall k :: 0 <= k <= |ops| ==> Positive(ops[..k], s)
  }

  /** The object was there at every moment. */
  ghost predicate Stayed(m: map<nat, Held>, ops: seq<Op>, s: nat) {
    forall k :: 0 <= k <= |ops| ==> s in Exec(m, ops[..k])
  }

  ghost predicate EveryFront(ops: seq<Op>, p: seq<Op> -> bool) {
    forall k :: 0 <= k <= |ops| ==> p(ops[..k])
  }

  /** A property holds of all front parts iff it holds of all proper ones and of the whole. */
  lemma FrontsSplit(ops: seq<Op>, p: seq<Op> -> bool)
    requires ops != []
    ensures EveryFront(ops, p) <==> EveryFront(ops[..|ops| - 1], p) && p(ops)
  {
    var front := ops[..|ops| - 1];
    forall k | 0 <= k < |ops| ensures front[..k] == ops[..k] {
    }
    assert ops[..|ops|] == ops;
    if EveryFront(ops, p) {
      forall k | 0 <= k <= |front| ensures p(front[..k]) {
        assert p(ops[..k]);
      }
      assert p(ops[..|ops|]);
    }
    if EveryFront(front, p) && p(ops) {
      forall k | 0 <= k <= |ops| ensures p(ops[..k]) {
        assert k < |ops| ==> p(front[..k]);
      }
    }
  }

  lemma StayedFront(m: map<nat, Held>, ops: seq<Op>, s: nat)
    requires ops != []
    ensures Stayed(m, ops, s) <==> Stayed(m, ops[..|ops| - 1], s) && s in Exec(m, ops)
  {
    hide Exec;
    var p := (x: seq<Op>) => s in Exec(m, x);
    FrontsSplit(ops, p);
    assert Stayed(m, ops, s) <==> EveryFront(ops, p);
    assert Stayed(m, ops[..|ops| - 1], s) <==> EveryFront(ops[..|ops| - 1], p);
  }

  lemma CoveredFront(ops: seq<Op>, s: nat)
    requires ops != []
    ensures Covered(ops, s) <==> Covered(ops[..|ops| - 1], s) && Positive(ops, s)
  {
    hide Positive;
    var p := (x: seq<Op>) => Positive(x, s);
    FrontsSplit(ops, p);
    assert Covered(ops, s) <==> EveryFront(ops, p);
    assert Covered(ops[..|ops| - 1], s) <==> EveryFront(ops[..|ops| - 1], p);
  }

  /** After Add, an object stays in its slot exactly as long as it is not removed and the
      releases have not reached one more than the keeps, whatever happens to other slots. */
  lemma {:induction false} LeavesWithLastRelease(m: map<nat, Held>, s: nat, obj: nat, ops: seq<Op>)
    requires s in m && m[s] == Held(obj, 1)
    ensures Stayed(m, ops, s) <==> Covered(ops, s)
    ensures Stayed(m, ops, s) ==> s in Exec(m, ops) && Exec(m, ops)[s] == Held(obj, 1 + Balance(ops, s))
    decreases |ops|
  {
    if ops == [] {
      assert ops[..0] == [];
    } else {
      hide Stayed, Covered;
      var front := ops[..|ops| - 1];
      LeavesWithLastRelease(m, s, obj, front);
      StayedFront(m, ops, s);
      CoveredFront(ops, s);
      if Covered(front, s) {
        CoveredNow(front, s);
      }
    }
  }

  lemma CoveredNow(ops: seq<Op>, s: nat)
    requires Covered(ops, s)
    ensures 1 + Balance(ops, s) > 0
  {
    assert ops[..|ops|] == ops;
  }
}
