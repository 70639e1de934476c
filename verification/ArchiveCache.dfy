/** The in-memory cache of decoded archive entries: a list of whole entries, most recently
    used first, shared by every reader under one lock. A read takes the lock up to three
    times and decodes outside it, so anything may happen in between.
 */
module ArchiveCache {
  import opened Basics

  datatype Slot = Slot(index: nat, data: seq<Byte>)

  /** Bytes [off, off+len) of s, clamped to its end. */
  function Slice(s: seq<Byte>, off: nat, len: nat): seq<Byte> {
    if off >= |s| then [] else s[off..Min(off + len, |s|)]
  }

  function Bytes(s: seq<Slot>): nat {
    if s == [] then 0 else Bytes(s[..|s| - 1]) + |s[|s| - 1].data|
  }

  lemma {:induction false} BytesConcat(x: seq<Slot>, y: seq<Slot>)
    ensures Bytes(x + y) == Bytes(x) + Bytes(y)
  {
    if y == [] {
      assert x + y == x;
    } else {
      assert (x + y)[..|x + y| - 1] == x + y[..|y| - 1];
      BytesConcat(x, y[..|y| - 1]);
    }
  }

  lemma BytesOne(s: Slot)
    ensures Bytes([s]) == |s.data|
  {
    assert [s][..0] == [];
  }

  /** Every slot holds its entry's whole content, and no entry has two slots. */
  ghost predicate Agrees(s: seq<Slot>, contents: seq<seq<Byte>>) {
    && (forall i :: 0 <= i < |s| ==> s[i].index < |contents| && s[i].data == contents[s[i].index])
    && (forall i, j :: 0 <= i < j < |s| ==> s[i].index != s[j].index)
  }

  predicate Cached(s: seq<Slot>, index: nat) {
    exists i :: 0 <= i < |s| && s[i].index == index
  }

  /** Slot k moved to the front. */
  function Promoted(s: seq<Slot>, k: nat): seq<Slot>
    requires k < |s|
  {
    [s[k]] + (s[..k] + s[k + 1..])
  }

  lemma PromotedFacts(s: seq<Slot>, k: nat, contents: seq<seq<Byte>>)
    requires k < |s| && Agrees(s, contents)
    ensures Agrees(Promoted(s, k), contents) && Bytes(Promoted(s, k)) == Bytes(s)
    ensures forall x: nat :: Cached(Promoted(s, k), x) <==> Cached(s, x)
  {
    hide *;
    PromotedAgrees(s, k, contents);
    PromotedBytes(s, k);
    forall x: nat ensures Cached(Promoted(s, k), x) <==> Cached(s, x) {
      PromotedCached(s, k, x);
    }
  }

  lemma PromotedFront(s: seq<Slot>, k: nat)
    requires k < |s|
    ensures |Promoted(s, k)| == |s| && Promoted(s, k)[0] == s[k]
  {
  }

  lemma PromotedBytes(s: seq<Slot>, k: nat)
    requires k < |s|
    ensures Bytes(Promoted(s, k)) == Bytes(s)
  {
    hide Bytes;
    var x, m, y := s[..k], [s[k]], s[k + 1..];
    assert s == x + (m + y);
    BytesConcat(x, m + y);
    BytesConcat(m, y);
    BytesConcat(m, x + y);
    BytesConcat(x, y);
  }

  lemma PromotedCached(s: seq<Slot>, k: nat, x: nat)
    requires k < |s|
    ensures Cached(Promoted(s, k), x) <==> Cached(s, x)
  {
    var p := Promoted(s, k);
    if Cached(s, x) {
      var i :| 0 <= i < |s| && s[i].index == x;
      assert p[if i < k then i + 1 else if i == k then 0 else i] == s[i];
    }
    if Cached(p, x) {
      var i :| 0 <= i < |p| && p[i].index == x;
      assert p[i] == s[if i == 0 then k else if i <= k then i - 1 else i];
    }
  }

  lemma PromotedAgrees(s: seq<Slot>, k: nat, contents: seq<seq<Byte>>)
    requires k < |s| && Agrees(s, contents)
    ensures Agrees(Promoted(s, k), contents)
  {
    var p := Promoted(s, k);
    forall i | 0 <= i < |p| ensures p[i] == s[if i == 0 then k else if i <= k then i - 1 else i] {
    }
  }

  /** The longest front part of s that fits into the budget. */
  function Fitting(s: seq<Slot>, budget: nat): (r: seq<Slot>)
    ensures r <= s && Bytes(r) <= budget
    ensures forall k :: |r| < k <= |s| ==> Bytes(s[..k]) > budget
  {
    if Bytes(s) <= budget then
      s
    else
      var r := Fitting(s[..|s| - 1], budget);
      assert forall k :: 0 <= k < |s| ==> s[..|s| - 1][..k] == s[..k];
      assert s[..|s|] == s;
      r
  }

  lemma FittingAgrees(s: seq<Slot>, budget: nat, contents: seq<seq<Byte>>)
    requires Agrees(s, contents)
    ensures Agrees(Fitting(s, budget), contents)
  {
  }

  /** The front slot survives exactly if it alone fits. */
  lemma FrontFits(s: seq<Slot>, budget: nat)
    requires s != []
    ensures Fitting(s, budget) != [] <==> |s[0].data| <= budget
  {
    BytesOne(s[0]);
    assert s[..1] == [s[0]];
    if Fitting(s, budget) != [] {
      var r := Fitting(s, budget);
      assert r == [s[0]] + r[1..];
      BytesConcat([s[0]], r[1..]);
    } else {
      assert Bytes(s[..1]) > budget;
    }
  }

  class Cache {
    /** What the backend decodes each entry to, and the size its index entry states. */
    const contents: seq<seq<Byte>>
    const sizes: seq<nat>
    /** The entries whose stream is intact: the backend never fails on them. */
    const intact: set<nat>
    const budget: nat
    const smallMax: nat
    var lru: seq<Slot>
    var lruBytes: nat

    ghost predicate Valid()
      reads this
    {
      && |sizes| == |contents|
      && (forall i :: 0 <= i < |contents| ==> |contents[i]| <= sizes[i])
      && Agrees(lru, contents) && lruBytes == Bytes(lru) && lruBytes <= budget
    }

    constructor (decoded: seq<seq<Byte>>, stated: seq<nat>, sound: set<nat>, limit: nat, small: nat)
      requires |stated| == |decoded| && forall i :: 0 <= i < |decoded| ==> |decoded[i]| <= stated[i]
      ensures Valid() && contents == decoded && sizes == stated && intact == sound
      ensures budget == limit && smallMax == small && lru == []
    {
      contents, sizes, intact := decoded, stated, sound;
      budget, smallMax, lru, lruBytes := limit, small, [], 0;
    }

    /** Drops slots from the back until the rest fits. */
    method Trim()
      requires lruBytes == Bytes(lru)
      modifies this`lru, this`lruBytes
      ensures lru == Fitting(old(lru), budget) && lruBytes == Bytes(lru) <= budget
    {
      while lruBytes > budget && lru != []
        invariant lruBytes == Bytes(lru) && Fitting(lru, budget) == Fitting(old(lru), budget)
        decreases |lru|
      {
        lruBytes := lruBytes - |lru[|lru| - 1].data|;
        lru := lru[..|lru| - 1];
      }
    }

    method Find(index: nat) returns (k: nat)
      ensures k <= |lru| && (k < |lru| ==> lru[k].index == index)
      ensures k == |lru| <==> !Cached(lru, index)
    {
      k := 0;
      while k < |lru| && lru[k].index != index
        invariant k <= |lru| && forall i :: 0 <= i < k ==> lru[i].index != index
      {
        k := k + 1;
      }
    }

    /** First and last lock section of a read: the slice if the entry is cached. */
    method CopyCached(index: nat, off: nat, len: nat) returns (r: Option<seq<Byte>>)
      requires Valid() && index < |contents|
      modifies this`lru
      ensures Valid() && (forall x: nat :: Cached(lru, x) <==> Cached(old(lru), x))
      ensures r == if Cached(old(lru), index) then Some(Slice(contents[index], off, len)) else None
      ensures r.Some? ==> lru != [] && lru[0].index == index
      ensures r.None? ==> lru == old(lru)
    {
      hide Fitting, Promoted, Cached, Bytes;
      var k := Find(index);
      if k == |lru| {
        return None;
      }
      PromotedFacts(lru, k, contents);
      PromotedFront(lru, k);
      lru := Promoted(lru, k);
      var data := lru[0].data;
      assert data == contents[index];
      if off >= |data| {
        return Some([]);
      }
      var n := Min(len, |data| - off);
      return Some(data[off..off + n]);
    }

    /** Second lock section: another reader may have inserted the entry meanwhile. */
    method Insert(index: nat, data: seq<Byte>)
      requires Valid() && index < |contents| && data == contents[index]
      modifies this`lru, this`lruBytes
      ensures Valid()
      ensures if Cached(old(lru), index) then lru == old(lru)
              else lru == Fitting([Slot(index, data)] + old(lru), budget)
      ensures Cached(lru, index) <==> Cached(old(lru), index) || |data| <= budget
    {
      hide Fitting;
      var k := Find(index);
      if k == |lru| {
        var slot := Slot(index, data);
        var more := [slot] + lru;
        BytesConcat([slot], lru);
        BytesOne(slot);
        InsertedAgrees(lru, slot, contents);
        lruBytes := lruBytes + |data|;
        lru := more;
        Trim();
        FittingAgrees(more, budget, contents);
        FrontFits(more, budget);
        FrontCached(more, lru);
      }
    }

    /** Any number of lock sections of other readers, in any order; none if this one is
        alone. */
    method Interfere(alone: bool)
      requires Valid()
      modifies this`lru, this`lruBytes
      ensures Valid() && (alone ==> lru == old(lru))
    {
      hide Fitting, Agrees, Slice;
      var n: int := *;
      var sections := if n < 0 || alone then 0 else n;
      for i := 0 to sections
        invariant Valid() && (alone ==> lru == old(lru))
      {
        var index: nat, off: nat, len: nat := *, *, *;
        var inserts: bool := *;
        if index < |contents| {
          if inserts {
            Insert(index, contents[index]);
          } else {
            var r := CopyCached(index, off, len);
          }
        }
      }
    }

    /** The backend: fails, or returns the range clamped to what the entry decodes to. */
    method Extract(index: nat, off: nat, len: nat) returns (r: Option<seq<Byte>>)
      requires index < |contents|
      ensures r.Some? ==> r.value == Slice(contents[index], off, len)
      ensures index in intact ==> r.Some?
    {
      var fails: bool := *;
      r := if fails && index !in intact then None else Some(Slice(contents[index], off, len));
    }

    /** One read of entry `index`. Whatever the other readers do, and whether it is served
        from the cache, through it or past it, a success is the clamped slice. Part of a
        small entry is read through the cache: a reader that is alone finds it there next
        time if it fits. A whole or a large entry is read past the cache. */
    method Read(index: nat, off: int, len: int, alone: bool) returns (r: Option<seq<Byte>>)
      requires Valid()
      modifies this`lru, this`lruBytes
      ensures Valid()
      ensures off < 0 || len < 0 || index >= |contents| ==> r == None
      ensures off >= 0 && len >= 0 && index < |contents| && (off >= sizes[index] || len == 0) ==> r == Some([])
      ensures r.Some? ==> off >= 0 && len >= 0 && index < |contents| && r.value == Slice(contents[index], off, len)
      ensures off >= 0 && len >= 0 && index < |contents| && index in intact ==> r.Some?
      ensures alone && r.Some? && 0 <= off < sizes[index] && len > 0 && sizes[index] <= smallMax ==>
                if Cached(old(lru), index) then lru != [] && lru[0].index == index
                else if off == 0 && len >= sizes[index] then lru == old(lru)
                else |contents[index]| <= budget ==> lru != [] && lru[0].index == index
      ensures alone && r.Some? && sizes[index] > smallMax ==> lru == old(lru)
    {
      hide Fitting, Agrees;
      if off < 0 || len < 0 || index >= |sizes| {
        return None;
      }
      var size := sizes[index];
      if off >= size {
        return Some([]);
      }
      var n := Min(len, size - off);
      SliceClamped(contents[index], off, len, size);
      if n == 0 {
        return Some([]);
      }
      if size > smallMax {
        r := Extract(index, off, n);
        return;
      }
      Interfere(alone);
      r := CopyCached(index, off, n);
      if r.Some? {
        return;
      }
      if off == 0 && n == size {
        r := Extract(index, 0, n);
        return;
      }
      var data := Extract(index, 0, size);
      if data.None? {
        return None;
      }
      assert data.value == contents[index];
      Interfere(alone);
      Insert(index, data.value);
      Interfere(alone);
      r := CopyCached(index, off, n);
      if r.Some? {
        return;
      }
      r := Extract(index, off, n);
    }
  }

  lemma SliceClamped(s: seq<Byte>, off: nat, len: nat, size: nat)
    requires |s| <= size && off < size
    ensures Slice(s, off, Min(len, size - off)) == Slice(s, off, len)
  {
  }

  lemma InsertedAgrees(s: seq<Slot>, slot: Slot, contents: seq<seq<Byte>>)
    requires Agrees(s, contents) && !Cached(s, slot.index) && slot.index < |contents| && slot.data == contents[slot.index]
    ensures Agrees([slot] + s, contents)
  {
    var t := [slot] + s;
    forall i, j | 0 <= i < j < |t| ensures t[i].index != t[j].index {
      assert t[j] == s[j - 1];
    }
  }

  /** Of a list without repetitions, a front part holds the first entry iff it is not empty. */
  lemma FrontCached(s: seq<Slot>, r: seq<Slot>)
    requires s != [] && r <= s
    requires forall i, j :: 0 <= i < j < |s| ==> s[i].index != s[j].index
    ensures Cached(r, s[0].index) <==> r != []
  {
    if r != [] {
      assert r[0] == s[0];
    }
  }
}
