/** The kernel's virtual memory map: an unordered list of mappings that has to behave like
    a partial function from addresses to attributes, although mappings are punched,
    truncated, split and appended in place while the list is being scanned.
 */
module VmMaps {
  import opened Basics

  /** One tracked mapping [ptr, ptr+size). */
  datatype Entry = Entry(
    ptr: nat, size: nat, prot: nat, sceProt: nat, name: string, reserved: bool, hasPhys: bool, physOffset: nat)

  /** What a query reports for a single address; `phys` is its physical image. */
  datatype Attr = Attr(prot: nat, sceProt: nat, name: string, reserved: bool, hasPhys: bool, phys: nat)

  datatype Range = Range(ptr: nat, size: nat)

  const TWO64: nat := 0x1_0000_0000_0000_0000

  predicate Inside(e: Entry, a: int) {
    e.ptr <= a < e.ptr + e.size
  }

  predicate InHole(p: int, a: int, end: int) {
    p <= a < end
  }

  /** Physical offsets are unsigned 64-bit numbers. */
  function Wrap(x: nat): nat {
    x % TWO64
  }

  lemma WrapTwice(x: nat, k: nat)
    ensures Wrap(Wrap(x) + k) == Wrap(x + k)
  {
  }

  function At(e: Entry, a: int): Attr
    requires Inside(e, a)
  {
    Attr(e.prot, e.sceProt, e.name, e.reserved, e.hasPhys, if e.hasPhys then Wrap(e.physOffset + (a - e.ptr)) else 0)
  }

  /** The map says t about address a. */
  ghost predicate Maps(es: seq<Entry>, a: int, t: Attr) {
    exists i :: 0 <= i < |es| && MapsOne(es[i], a, t)
  }

  predicate MapsOne(e: Entry, a: int, t: Attr) {
    Inside(e, a) && At(e, a) == t
  }

  /** No address is in both. */
  predicate Apart(x: Entry, y: Entry) {
    x.size == 0 || y.size == 0 || x.ptr + x.size <= y.ptr || y.ptr + y.size <= x.ptr
  }

  ghost predicate Disjoint(es: seq<Entry>) {
    forall i, j :: 0 <= i < j < |es| ==> Apart(es[i], es[j])
  }

  /** Offsets and sizes of direct mappings are 64-bit numbers; their sum may not be. */
  ghost predicate PhysBounded(es: seq<Entry>) {
    forall i :: 0 <= i < |es| && es[i].hasPhys ==> es[i].physOffset < TWO64 && es[i].size < TWO64
  }

  /** The physical range of the mapping reaches 2^64. */
  predicate Wraps(e: Entry) {
    e.physOffset + e.size >= TWO64
  }

  /** A disjoint list is a partial function: a query has one answer. */
  lemma MapsUnique(es: seq<Entry>, a: int, t: Attr, u: Attr)
    requires Disjoint(es) && Maps(es, a, t) && Maps(es, a, u)
    ensures t == u
  {
    var i :| 0 <= i < |es| && MapsOne(es[i], a, t);
    var j :| 0 <= j < |es| && MapsOne(es[j], a, u);
    assert i == j;
  }

  lemma MapsConcat(x: seq<Entry>, y: seq<Entry>, a: int, t: Attr)
    ensures Maps(x + y, a, t) <==> Maps(x, a, t) || Maps(y, a, t)
  {
    var s := x + y;
    if Maps(x, a, t) {
      var i :| 0 <= i < |x| && MapsOne(x[i], a, t);
      assert s[i] == x[i];
    }
    if Maps(y, a, t) {
      var i :| 0 <= i < |y| && MapsOne(y[i], a, t);
      assert s[|x| + i] == y[i];
    }
    if Maps(s, a, t) {
      var i :| 0 <= i < |s| && MapsOne(s[i], a, t);
      if i < |x| {
        assert MapsOne(x[i], a, t);
      } else {
        assert MapsOne(y[i - |x|], a, t);
      }
    }
  }

  lemma MapsSingle(e: Entry, a: int, t: Attr)
    ensures Maps([e], a, t) <==> MapsOne(e, a, t)
  {
    assert [e][0] == e;
  }

  // ---- punching a hole ------------------------------------------------------------

  /** Entry e has an address in the hole, or contains the hole's position. */
  predicate Meets(e: Entry, p: nat, end: nat) {
    p < e.ptr + e.size && e.ptr < end
  }

  /** The part of e below the hole, if any, and the part above it. */
  function Below(e: Entry, p: nat): seq<Entry> {
    if e.ptr < p && p <= e.ptr + e.size then [e.(size := p - e.ptr)] else []
  }

  function Above(e: Entry, end: nat): seq<Entry> {
    if end < e.ptr + e.size && e.ptr <= end
    then [e.(ptr := end, size := e.ptr + e.size - end, physOffset := Wrap(e.physOffset + (end - e.ptr)))]
    else []
  }

  /** How many entries still meet the hole: what a scan has left to do. */
  function Left(es: seq<Entry>, p: nat, end: nat): nat {
    if es == [] then 0 else (if Meets(es[0], p, end) then 1 else 0) + Left(es[1..], p, end)
  }

  lemma {:induction false} LeftConcat(x: seq<Entry>, y: seq<Entry>, p: nat, end: nat)
    ensures Left(x + y, p, end) == Left(x, p, end) + Left(y, p, end)
  {
    if x == [] {
      assert x + y == y;
    } else {
      LeftConcat(x[1..], y, p, end);
      assert (x + y)[1..] == x[1..] + y;
    }
  }

  ghost predicate Clear(es: seq<Entry>, p: nat, end: nat) {
    forall i :: 0 <= i < |es| ==> !Meets(es[i], p, end)
  }

  lemma CutMaps(e: Entry, p: nat, end: nat, a: int, t: Attr)
    requires p <= end && Meets(e, p, end)
    ensures MapsOne(e, a, t) && !InHole(p, a, end) <==> Maps(Below(e, p), a, t) || Maps(Above(e, end), a, t)
  {
    if Below(e, p) != [] {
      MapsSingle(Below(e, p)[0], a, t);
    }
    if Above(e, end) != [] {
      MapsSingle(Above(e, end)[0], a, t);
      if a >= end {
        WrapTwice(e.physOffset + (end - e.ptr), a - end);
      }
    }
  }

  /** The list once entry i has been cut: the lower part stays in place, the upper part
      stays in place if it is the only one and is appended otherwise. */
  function Cut(es: seq<Entry>, i: nat, p: nat, end: nat): seq<Entry>
    requires i < |es|
  {
    var lo, hi := Below(es[i], p), Above(es[i], end);
    if lo != [] then es[..i] + lo + es[i + 1..] + hi else es[..i] + hi + es[i + 1..]
  }

  lemma MapsAround(x: seq<Entry>, m: seq<Entry>, y: seq<Entry>, z: seq<Entry>, a: int, t: Attr)
    ensures Maps(x + m + y + z, a, t) <==> Maps(x, a, t) || Maps(m, a, t) || Maps(y, a, t) || Maps(z, a, t)
  {
    MapsConcat(x + m + y, z, a, t);
    MapsConcat(x + m, y, a, t);
    MapsConcat(x, m, a, t);
  }

  /** Cutting one entry removes its addresses in the hole and changes no other. */
  lemma CutKeeps(es: seq<Entry>, i: nat, p: nat, end: nat, a: int, t: Attr)
    requires i < |es| && p <= end && Meets(es[i], p, end)
    ensures Maps(Cut(es, i, p, end), a, t) || InHole(p, a, end) <==> Maps(es, a, t) || InHole(p, a, end)
  {
    var x, y, lo, hi := es[..i], es[i + 1..], Below(es[i], p), Above(es[i], end);
    assert es == x + [es[i]] + y + [];
    MapsAround(x, [es[i]], y, [], a, t);
    MapsSingle(es[i], a, t);
    CutMaps(es[i], p, end, a, t);
    if lo != [] {
      MapsAround(x, lo, y, hi, a, t);
    } else {
      MapsAround(x, hi, y, [], a, t);
      assert x + hi + y + [] == Cut(es, i, p, end);
    }
  }

  /** n covers no address that e does not. */
  predicate Shrinks(n: Entry, e: Entry) {
    n.size == 0 || (e.ptr <= n.ptr && n.ptr + n.size <= e.ptr + e.size)
  }

  lemma DisjointRemove(es: seq<Entry>, i: nat)
    requires Disjoint(es) && i < |es|
    ensures Disjoint(es[..i] + es[i + 1..])
  {
  }

  lemma DisjointUpdate(es: seq<Entry>, i: nat, n: Entry)
    requires Disjoint(es) && i < |es| && Shrinks(n, es[i])
    ensures Disjoint(es[i := n])
  {
  }

  lemma DisjointAppend(es: seq<Entry>, n: Entry)
    requires Disjoint(es)
    requires forall k :: 0 <= k < |es| ==> Apart(es[k], n)
    ensures Disjoint(es + [n])
  {
  }

  lemma CutDisjoint(es: seq<Entry>, i: nat, p: nat, end: nat)
    requires Disjoint(es) && i < |es| && p <= end && Meets(es[i], p, end)
    ensures Disjoint(Cut(es, i, p, end))
  {
    var lo, hi := Below(es[i], p), Above(es[i], end);
    if lo == [] && hi == [] {
      DisjointRemove(es, i);
      assert Cut(es, i, p, end) == es[..i] + es[i + 1..];
    } else if lo == [] {
      DisjointUpdate(es, i, hi[0]);
      assert Cut(es, i, p, end) == es[i := hi[0]];
    } else {
      DisjointUpdate(es, i, lo[0]);
      var kept := es[i := lo[0]];
      assert es[..i] + lo + es[i + 1..] == kept;
      if hi == [] {
        assert Cut(es, i, p, end) == kept;
      } else {
        forall k | 0 <= k < |kept| ensures Apart(kept[k], hi[0]) {
          if k < i {
            assert Apart(es[k], es[i]);
          } else if k > i {
            assert Apart(es[i], es[k]);
          }
        }
        DisjointAppend(kept, hi[0]);
        assert Cut(es, i, p, end) == kept + [hi[0]];
      }
    }
  }

  lemma CutPhys(es: seq<Entry>, i: nat, p: nat, end: nat)
    requires PhysBounded(es) && i < |es| && p <= end && Meets(es[i], p, end)
    ensures PhysBounded(Cut(es, i, p, end))
  {
    var n := Cut(es, i, p, end);
    var lo, hi := Below(es[i], p), Above(es[i], end);
    forall k | 0 <= k < |n| && n[k].hasPhys ensures n[k].physOffset < TWO64 && n[k].size < TWO64 {
      if k < i {
        assert n[k] == es[k];
      } else if lo == [] && hi == [] {
        assert n[k] == es[k + 1];
      } else if k == i {
        assert es[i].hasPhys;
      } else if k < |es| {
        assert n[k] == es[k];
      } else {
        assert n[k] == hi[0] && es[i].hasPhys;
      }
    }
  }

  /** After the step at i the scan continues with the same prefix cleared and less to do. */
  lemma CutProgress(es: seq<Entry>, i: nat, p: nat, end: nat)
    requires i < |es| && p <= end && Meets(es[i], p, end) && Clear(es[..i], p, end)
    ensures var lo, hi, n := Below(es[i], p), Above(es[i], end), Cut(es, i, p, end);
            var next := if lo == [] && hi == [] then i else i + 1;
            next <= |n| && Clear(n[..next], p, end) && Left(n[next..], p, end) < Left(es[i..], p, end)
  {
    var lo, hi, n := Below(es[i], p), Above(es[i], end), Cut(es, i, p, end);
    LeftConcat([es[i]], es[i + 1..], p, end);
    assert es[i..] == [es[i]] + es[i + 1..];
    assert [es[i]][1..] == [];
    if lo == [] && hi == [] {
      assert n[i..] == es[i + 1..] && n[..i] == es[..i];
    } else {
      var first := if lo != [] then lo[0] else hi[0];
      assert n[..i + 1] == es[..i] + [first];
      var tail := if lo != [] then hi else [];
      assert n[i + 1..] == es[i + 1..] + tail;
      LeftConcat(es[i + 1..], tail, p, end);
      if tail != [] {
        assert tail[1..] == [];
      }
    }
  }

  lemma ClearSnoc(es: seq<Entry>, i: nat, p: nat, end: nat)
    requires i < |es| && Clear(es[..i], p, end) && !Meets(es[i], p, end)
    ensures Clear(es[..i + 1], p, end) && Left(es[i + 1..], p, end) == Left(es[i..], p, end)
  {
    assert es[..i + 1] == es[..i] + [es[i]];
    assert es[i..] == [es[i]] + es[i + 1..];
    LeftConcat([es[i]], es[i + 1..], p, end);
    assert [es[i]][1..] == [];
  }

  /** What a hole leaves behind. */
  ghost predicate Punched(old_: seq<Entry>, new_: seq<Entry>, p: nat, end: nat) {
    forall a: int, t :: Maps(new_, a, t) <==> Maps(old_, a, t) && !InHole(p, a, end)
  }

  ghost predicate SameOutside(old_: seq<Entry>, new_: seq<Entry>, p: nat, end: nat) {
    forall a: int, t :: Maps(new_, a, t) || InHole(p, a, end) <==> Maps(old_, a, t) || InHole(p, a, end)
  }

  lemma SameStep(old_: seq<Entry>, es: seq<Entry>, i: nat, p: nat, end: nat)
    requires SameOutside(old_, es, p, end) && i < |es| && p <= end && Meets(es[i], p, end)
    ensures SameOutside(old_, Cut(es, i, p, end), p, end)
  {
    var n := Cut(es, i, p, end);
    forall a: int, t ensures Maps(n, a, t) || InHole(p, a, end) <==> Maps(old_, a, t) || InHole(p, a, end) {
      CutKeeps(es, i, p, end, a, t);
    }
  }

  lemma PunchDone(old_: seq<Entry>, es: seq<Entry>, p: nat, end: nat)
    requires SameOutside(old_, es, p, end) && Clear(es, p, end)
    ensures Punched(old_, es, p, end)
  {
    forall a: int, t ensures Maps(es, a, t) <==> Maps(old_, a, t) && !InHole(p, a, end) {
      if InHole(p, a, end) {
        forall i | 0 <= i < |es| ensures !MapsOne(es[i], a, t) {
        }
      }
      assert Maps(es, a, t) || InHole(p, a, end) <==> Maps(old_, a, t) || InHole(p, a, end);
    }
  }

  lemma PunchStart(es: seq<Entry>, p: nat, end: nat)
    ensures SameOutside(es, es, p, end) && Clear(es[..0], p, end)
  {
  }

  /** Adding a mapping on top of the hole that was punched for it. */
  lemma AddOnTop(old_: seq<Entry>, es: seq<Entry>, n: Entry)
    requires Disjoint(es) && PhysBounded(es) && (n.hasPhys ==> n.physOffset < TWO64 && n.size < TWO64)
    requires Punched(old_, es, n.ptr, n.ptr + n.size)
    ensures Disjoint(es + [n]) && PhysBounded(es + [n])
    ensures forall a: int, t :: Maps(es + [n], a, t) <==> if Inside(n, a) then t == At(n, a) else Maps(old_, a, t)
  {
    forall k | 0 <= k < |es| ensures Apart(es[k], n) {
      if !Apart(es[k], n) {
        var a := if es[k].ptr < n.ptr then n.ptr else es[k].ptr;
        assert MapsOne(es[k], a, At(es[k], a));
        assert InHole(n.ptr, a, n.ptr + n.size);
        assert Maps(es, a, At(es[k], a));
        assert false;
      }
    }
    DisjointAppend(es, n);
    forall a: int, t
      ensures Maps(es + [n], a, t) <==> if Inside(n, a) then t == At(n, a) else Maps(old_, a, t)
    {
      MapsConcat(es, [n], a, t);
      MapsSingle(n, a, t);
      assert Inside(n, a) <==> InHole(n.ptr, a, n.ptr + n.size);
    }
  }

  // ---- ranges handed to the host and to the mapping-changed hook ---------------------

  ghost predicate Hit(rs: seq<Range>, a: int) {
    exists i :: 0 <= i < |rs| && HitOne(rs[i], a)
  }

  predicate HitOne(r: Range, a: int) {
    r.ptr <= a < r.ptr + r.size
  }

  lemma HitSnoc(rs: seq<Range>, r: Range, a: int)
    ensures Hit(rs + [r], a) <==> Hit(rs, a) || HitOne(r, a)
  {
    var s := rs + [r];
    if Hit(rs, a) {
      var i :| 0 <= i < |rs| && HitOne(rs[i], a);
      assert s[i] == rs[i];
    }
    if HitOne(r, a) {
      assert s[|rs|] == r;
    }
  }

  /** Address a has a physical image and lies in [ptr, end). */
  ghost predicate PhysIn(es: seq<Entry>, ptr: nat, end: nat, a: int) {
    exists t :: Maps(es, a, t) && t.hasPhys && InHole(ptr, a, end)
  }

  /** Address a of a mapping that does not wrap has its physical image in [phys, limit). */
  predicate ImageOne(e: Entry, phys: nat, limit: nat, a: int) {
    Inside(e, a) && !Wraps(e) && ImageAttr(At(e, a), phys, limit)
  }

  ghost predicate ImageIn(es: seq<Entry>, phys: nat, limit: nat, a: int) {
    exists i :: 0 <= i < |es| && ImageOne(es[i], phys, limit, a)
  }

  predicate ImageAttr(t: Attr, phys: nat, limit: nat) {
    t.hasPhys && phys <= t.phys < limit
  }

  lemma {:induction false} MapsPrefix(es: seq<Entry>, k: nat, a: int, t: Attr)
    requires k < |es|
    ensures Maps(es[..k + 1], a, t) <==> Maps(es[..k], a, t) || MapsOne(es[k], a, t)
  {
    assert es[..k + 1] == es[..k] + [es[k]];
    MapsConcat(es[..k], [es[k]], a, t);
    MapsSingle(es[k], a, t);
  }

  /** The virtual range of entry e that is removed with [phys, limit): the sum of a mapping
      that wraps is smaller than its offset, which leaves nothing. */
  function ImageRange(e: Entry, phys: nat, limit: nat): seq<Range> {
    var first, end := Max(phys, e.physOffset), Min(limit, Wrap(e.physOffset + e.size));
    if e.hasPhys && first < end then [Range(e.ptr + first - e.physOffset, end - first)] else []
  }

  lemma ImageRangeExact(e: Entry, phys: nat, limit: nat, a: int)
    requires e.hasPhys ==> e.physOffset < TWO64 && e.size < TWO64
    ensures var more := ImageRange(e, phys, limit);
            |more| <= 1 && ((more != [] && HitOne(more[0], a)) <==> ImageOne(e, phys, limit, a))
  {
  }

  ghost predicate Removing(es: seq<Entry>, k: nat, rs: seq<Range>, phys: nat, limit: nat)
    requires k <= |es|
  {
    forall a: int :: Hit(rs, a) <==> ImageIn(es[..k], phys, limit, a)
  }

  lemma ImageSnoc(es: seq<Entry>, k: nat, phys: nat, limit: nat, a: int)
    requires k < |es|
    ensures ImageIn(es[..k + 1], phys, limit, a) <==> ImageIn(es[..k], phys, limit, a) || ImageOne(es[k], phys, limit, a)
  {
    hide ImageOne;
    assert es[..k + 1] == es[..k] + [es[k]];
    if ImageIn(es[..k], phys, limit, a) {
      var i :| 0 <= i < |es[..k]| && ImageOne(es[..k][i], phys, limit, a);
      assert es[..k + 1][i] == es[..k][i];
    }
    if ImageOne(es[k], phys, limit, a) {
      assert es[..k + 1][k] == es[k];
    }
  }

  lemma RemovingStep(es: seq<Entry>, k: nat, rs: seq<Range>, phys: nat, limit: nat)
    requires k < |es| && PhysBounded(es) && Removing(es, k, rs, phys, limit)
    ensures Removing(es, k + 1, rs + ImageRange(es[k], phys, limit), phys, limit)
  {
    hide ImageOne, ImageIn, ImageRange;
    var e, more := es[k], ImageRange(es[k], phys, limit);
    forall a: int ensures Hit(rs + more, a) <==> ImageIn(es[..k + 1], phys, limit, a) {
      ImageRangeExact(e, phys, limit, a);
      ImageSnoc(es, k, phys, limit, a);
      if more == [] {
        assert rs + more == rs;
      } else {
        HitSnoc(rs, more[0], a);
        assert more == [more[0]];
      }
    }
  }

  /** The list after the ranges rs have been punched out of the original one. */
  ghost predicate PunchedAll(old_: seq<Entry>, new_: seq<Entry>, rs: seq<Range>) {
    forall a: int, t :: Maps(new_, a, t) <==> Maps(old_, a, t) && !Hit(rs, a)
  }

  lemma PunchedNone(es: seq<Entry>)
    ensures PunchedAll(es, es, [])
  {
  }

  lemma PunchedNext(old_: seq<Entry>, mid: seq<Entry>, new_: seq<Entry>, rs: seq<Range>, r: Range)
    requires PunchedAll(old_, mid, rs) && Punched(mid, new_, r.ptr, r.ptr + r.size)
    ensures PunchedAll(old_, new_, rs + [r])
  {
    forall a: int, t ensures Maps(new_, a, t) <==> Maps(old_, a, t) && !Hit(rs + [r], a) {
      HitSnoc(rs, r, a);
      assert HitOne(r, a) <==> InHole(r.ptr, a, r.ptr + r.size);
    }
  }

  /** Exactly the addresses of mappings that do not wrap with their image in [phys, limit) are
      gone. */
  ghost predicate ImageRemoved(old_: seq<Entry>, new_: seq<Entry>, phys: nat, limit: nat) {
    forall a: int, t :: Maps(new_, a, t) <==> Maps(old_, a, t) && !ImageIn(old_, phys, limit, a)
  }

  lemma ImageRemovedDone(old_: seq<Entry>, new_: seq<Entry>, rs: seq<Range>, phys: nat, limit: nat)
    requires Removing(old_, |old_|, rs, phys, limit) && PunchedAll(old_, new_, rs)
    ensures ImageRemoved(old_, new_, phys, limit)
  {
    hide ImageIn, Maps, Hit;
    assert old_[..|old_|] == old_;
  }

  /** No mapping that wraps has an image in [phys, limit). */
  ghost predicate WrapsElsewhere(es: seq<Entry>, phys: nat, limit: nat) {
    forall i, a: int :: 0 <= i < |es| && Wraps(es[i]) && Inside(es[i], a) ==> !ImageAttr(At(es[i], a), phys, limit)
  }

  /** After the removal no address keeps an image in the range, however many aliases there
      were, if and only if no mapping that wraps had one; every address without one keeps its
      attributes. */
  lemma RemovedExact(old_: seq<Entry>, new_: seq<Entry>, phys: nat, limit: nat)
    requires Disjoint(old_) && ImageRemoved(old_, new_, phys, limit)
    ensures (forall a: int, t :: Maps(new_, a, t) ==> !ImageAttr(t, phys, limit)) <==> WrapsElsewhere(old_, phys, limit)
    ensures forall a: int, t :: Maps(old_, a, t) && !ImageAttr(t, phys, limit) ==> Maps(new_, a, t)
  {
    forall a: int, t | Maps(old_, a, t) && !ImageAttr(t, phys, limit) ensures Maps(new_, a, t) {
      NoOtherImage(old_, phys, limit, a, t);
    }
    if WrapsElsewhere(old_, phys, limit) {
      forall a: int, t | Maps(new_, a, t) ensures !ImageAttr(t, phys, limit) {
        var i :| 0 <= i < |old_| && MapsOne(old_[i], a, t);
        assert !ImageOne(old_[i], phys, limit, a);
      }
    } else {
      var i, a: int :| 0 <= i < |old_| && Wraps(old_[i]) && Inside(old_[i], a) && ImageAttr(At(old_[i], a), phys, limit);
      WrappedStays(old_, new_, phys, limit, i, a);
    }
  }

  lemma NoOtherImage(es: seq<Entry>, phys: nat, limit: nat, a: int, t: Attr)
    requires Disjoint(es) && Maps(es, a, t) && !ImageAttr(t, phys, limit)
    ensures !ImageIn(es, phys, limit, a)
  {
    forall j | 0 <= j < |es| ensures !ImageOne(es[j], phys, limit, a) {
      if Inside(es[j], a) {
        assert MapsOne(es[j], a, At(es[j], a));
        MapsUnique(es, a, t, At(es[j], a));
      }
    }
  }

  lemma OneHolder(es: seq<Entry>, i: nat, j: nat, a: int)
    requires Disjoint(es) && i < |es| && j < |es| && Inside(es[i], a) && Inside(es[j], a)
    ensures i == j
  {
  }

  /** A mapping that wraps keeps every address, whatever is removed. */
  lemma WrappedStays(old_: seq<Entry>, new_: seq<Entry>, phys: nat, limit: nat, i: nat, a: int)
    requires Disjoint(old_) && ImageRemoved(old_, new_, phys, limit)
    requires i < |old_| && Wraps(old_[i]) && Inside(old_[i], a)
    ensures Maps(new_, a, At(old_[i], a))
  {
    assert MapsOne(old_[i], a, At(old_[i], a));
    forall j | 0 <= j < |old_| ensures !ImageOne(old_[j], phys, limit, a) {
      if Inside(old_[j], a) {
        OneHolder(old_, i, j, a);
      }
    }
  }

  // ---- the map itself --------------------------------------------------------------------

  class VmMap {
    var entries: seq<Entry>
    /** Ranges passed to the mapping-changed hook, oldest first. */
    var changed: seq<Range>
    /** Ranges the host replaced by fresh memory, oldest first. */
    var detached: seq<Range>

    ghost predicate Valid()
      reads this
    {
      Disjoint(entries) && PhysBounded(entries)
    }

    constructor ()
      ensures Valid() && entries == [] && changed == [] && detached == []
    {
      entries, changed, detached := [], [], [];
    }

    /** Erases [p, p+s) in place. It ends although a split appends to the list it scans. */
    method PunchHole(p: nat, s: nat)
      requires Valid()
      modifies this`entries
      ensures Valid() && Punched(old(entries), entries, p, p + s)
    {
      hide Disjoint, PhysBounded, SameOutside, Clear, Left, Cut, Below, Above, Meets, Punched;
      var end := p + s;
      PunchStart(entries, p, end);
      assert entries[..0] == [];
      var i := 0;
      while i < |entries|
        invariant 0 <= i <= |entries|
        invariant Disjoint(entries) && PhysBounded(entries)
        invariant SameOutside(old(entries), entries, p, end) && Clear(entries[..i], p, end)
        decreases Left(entries[i..], p, end), |entries| - i
      {
        var e := entries[i];
        var eEnd := e.ptr + e.size;
        if eEnd <= p || e.ptr >= end {
          MeetsNot(e, p, end);
          ClearSnoc(entries, i, p, end);
          i := i + 1;
          continue;
        }
        CutCases(entries, i, p, end);
        SameStep(old(entries), entries, i, p, end);
        CutDisjoint(entries, i, p, end);
        CutPhys(entries, i, p, end);
        CutProgress(entries, i, p, end);
        if e.ptr >= p && eEnd <= end {
          entries := entries[..i] + entries[i + 1..];
          continue;
        }
        if e.ptr < p && eEnd > end {
          var tail := Entry(end, eEnd - end, e.prot, e.sceProt, e.name, e.reserved, e.hasPhys,
                            Wrap(e.physOffset + (end - e.ptr)));
          entries := entries[i := e.(size := p - e.ptr)] + [tail];
          i := i + 1;
          continue;
        }
        if e.ptr < p {
          entries := entries[i := e.(size := p - e.ptr)];
        } else {
          entries := entries[i := e.(size := eEnd - end, physOffset := Wrap(e.physOffset + (end - e.ptr)), ptr := end)];
        }
        i := i + 1;
      }
      assert entries[..i] == entries;
      PunchDone(old(entries), entries, p, end);
    }

    /** Maps [ptr, ptr+size): the newest mapping of an address wins. */
    method Add(ptr: nat, size: nat, prot: nat, sceProt: nat, reserved: bool)
      requires Valid()
      modifies this`entries, this`changed
      ensures Valid()
      ensures forall a: int, t :: Maps(entries, a, t) <==>
                if InHole(ptr, a, ptr + size) then t == Attr(prot, sceProt, "", reserved, false, 0)
                else Maps(old(entries), a, t)
      ensures changed == old(changed) + [Range(ptr, size)]
    {
      PunchHole(ptr, size);
      changed := changed + [Range(ptr, size)];
      var n := Entry(ptr, size, prot, sceProt, "", reserved, false, 0);
      AddOnTop(old(entries), entries, n);
      entries := entries + [n];
      assert forall a: int :: InHole(ptr, a, ptr + size) <==> Inside(n, a);
    }

    /** Add with a physical image: address a of the range gets `physOffset` + (a - ptr), in 64
        bits. */
    method AddDirect(ptr: nat, size: nat, prot: nat, sceProt: nat, physOffset: nat)
      requires Valid() && physOffset < TWO64 && size < TWO64
      modifies this`entries, this`changed
      ensures Valid()
      ensures forall a: int, t :: Maps(entries, a, t) <==>
                if InHole(ptr, a, ptr + size) then t == Attr(prot, sceProt, "", false, true, Wrap(physOffset + (a - ptr)))
                else Maps(old(entries), a, t)
      ensures changed == old(changed) + [Range(ptr, size)]
    {
      PunchHole(ptr, size);
      changed := changed + [Range(ptr, size)];
      var n := Entry(ptr, size, prot, sceProt, "", false, true, physOffset);
      AddOnTop(old(entries), entries, n);
      entries := entries + [n];
      assert forall a: int :: InHole(ptr, a, ptr + size) <==> Inside(n, a);
    }

    /** Drops [ptr, ptr+size). Exactly its direct-memory addresses are detached from
        their backing. */
    method Remove(ptr: nat, size: nat)
      requires Valid()
      modifies this
      ensures Valid() && Punched(old(entries), entries, ptr, ptr + size)
      ensures changed == old(changed) + [Range(ptr, size)]
      ensures exists rs :: detached == old(detached) + rs &&
                           forall a: int :: Hit(rs, a) <==> PhysIn(old(entries), ptr, ptr + size, a)
    {
      hide Disjoint, PhysBounded, Detaching, Punched, Maps, PhysIn, Hit;
      ghost var rs: seq<Range> := [];
      assert detached == old(detached) + rs;
      DetachStart(entries, ptr, ptr + size);
      for k := 0 to |entries|
        invariant entries == old(entries) && changed == old(changed)
        invariant detached == old(detached) + rs
        invariant Detaching(entries, k, rs, ptr, ptr + size)
      {
        var page := entries[k];
        DetachStep(entries, k, rs, ptr, ptr + size);
        if !page.hasPhys {
          continue;
        }
        var first, end := Max(ptr, page.ptr), Min(ptr + size, page.ptr + page.size);
        if first < end {
          detached := detached + [Range(first, end - first)];
          rs := rs + [Range(first, end - first)];
        }
      }
      DetachDone(entries, rs, ptr, ptr + size);
      PunchHole(ptr, size);
      changed := changed + [Range(ptr, size)];
    }

    /** Drops every alias of physical [phys, phys+size), however many there are. The
        ranges are computed before the list changes. Sums wrap at 64 bits: a wrapped request
        removes nothing, and a mapping whose own range wraps is never removed. */
    method RemoveDirect(phys: nat, size: nat)
      requires Valid() && phys < TWO64 && size < TWO64
      modifies this
      ensures Valid()
      ensures phys + size < TWO64 ==> ImageRemoved(old(entries), entries, phys, phys + size)
      ensures phys + size >= TWO64 ==> forall a: int, t :: Maps(entries, a, t) <==> Maps(old(entries), a, t)
      ensures exists rs :: detached == old(detached) + rs && changed == old(changed) + rs &&
                           PunchedAll(old(entries), entries, rs) &&
                           Removing(old(entries), |old(entries)|, rs, phys, Wrap(phys + size))
    {
      hide Disjoint, PhysBounded, Removing, Punched, PunchedAll, ImageRange, ImageRemoved;
      var limit := Wrap(phys + size);
      var removed: seq<Range> := [];
      RemovingStart(entries, phys, limit);
      for k := 0 to |entries|
        invariant entries == old(entries) && detached == old(detached) && changed == old(changed)
        invariant Removing(entries, k, removed, phys, limit)
      {
        var page := entries[k];
        RemovingStep(entries, k, removed, phys, limit);
        ImageRangeIs(page, phys, limit);
        if page.hasPhys {
          var first, end := Max(phys, page.physOffset), Min(limit, Wrap(page.physOffset + page.size));
          if first < end {
            removed := removed + [Range(page.ptr + first - page.physOffset, end - first)];
          } else {
            assert removed + [] == removed;
          }
        } else {
          assert removed + [] == removed;
        }
      }
      ghost var before := entries;
      PunchedNone(entries);
      assert removed[..0] == [];
      assert detached + [] == detached && changed + [] == changed;
      for k := 0 to |removed|
        invariant Valid()
        invariant detached == old(detached) + removed[..k] && changed == old(changed) + removed[..k]
        invariant PunchedAll(before, entries, removed[..k])
      {
        ghost var mid := entries;
        var r := removed[k];
        detached := detached + [r];
        PunchHole(r.ptr, r.size);
        changed := changed + [r];
        PunchedNext(before, mid, entries, removed[..k], r);
        assert removed[..k + 1] == removed[..k] + [r];
      }
      assert removed[..|removed|] == removed;
      ImageRemovedDone(before, entries, removed, phys, limit);
      Wrapped(before, entries, phys, size);
    }

    /** The mapping that holds an address; there is at most one. */
    method Get(a: nat) returns (r: Option<Entry>)
      requires Valid()
      ensures forall t :: Maps(entries, a, t) <==> r.Some? && MapsOne(r.value, a, t)
      ensures r.Some? ==> r.value in entries && Inside(r.value, a)
    {
      for k := 0 to |entries|
        invariant forall j :: 0 <= j < k ==> !Inside(entries[j], a)
      {
        if a >= entries[k].ptr && a < entries[k].ptr + entries[k].size {
          forall t | Maps(entries, a, t) ensures MapsOne(entries[k], a, t) {
            assert Maps(entries, a, At(entries[k], a));
            MapsUnique(entries, a, t, At(entries[k], a));
          }
          return Some(entries[k]);
        }
      }
      return None;
    }

    /** True iff some entry meets the range; OverlapsIsMapped says it in addresses. */
    method Overlaps(ptr: nat, size: nat) returns (hit: bool)
      ensures hit <==> exists i :: 0 <= i < |entries| && Meets(entries[i], ptr, ptr + size)
    {
      for k := 0 to |entries|
        invariant forall j :: 0 <= j < k ==> !Meets(entries[j], ptr, ptr + size)
      {
        if ptr < entries[k].ptr + entries[k].size && entries[k].ptr < ptr + size {
          return true;
        }
      }
      return false;
    }

    /** Applies a protection to every mapping that meets [ptr, ptr+size), whole. */
    method ProtectRange(ptr: nat, size: nat, prot: nat, sceProt: nat)
      requires Valid()
      modifies this`entries
      ensures Valid() && entries == Protected(old(entries), ptr, ptr + size, prot, sceProt)
      ensures forall a: int, t :: InHole(ptr, a, ptr + size) ==>
                (Maps(entries, a, t) <==> t.prot == prot && t.sceProt == sceProt && MappedAlike(old(entries), a, t))
    {
      var end := ptr + size;
      for k := 0 to |entries|
        invariant |entries| == |old(entries)|
        invariant forall j :: 0 <= j < k ==> entries[j] == ProtectOne(old(entries)[j], ptr, end, prot, sceProt)
        invariant forall j :: k <= j < |entries| ==> entries[j] == old(entries)[j]
      {
        if ptr < entries[k].ptr + entries[k].size && entries[k].ptr < end {
          entries := entries[k := entries[k].(prot := prot, sceProt := sceProt)];
        }
      }
      ProtectedShape(old(entries), ptr, end, prot, sceProt);
      assert entries == Protected(old(entries), ptr, end, prot, sceProt);
      forall a: int, t | InHole(ptr, a, ptr + size)
        ensures Maps(entries, a, t) <==> t.prot == prot && t.sceProt == sceProt && MappedAlike(old(entries), a, t)
      {
        ProtectInside(old(entries), ptr, end, prot, sceProt, a, t);
      }
    }
  }

  lemma MeetsNot(e: Entry, p: nat, end: nat)
    ensures Meets(e, p, end) <==> !(e.ptr + e.size <= p || e.ptr >= end)
  {
  }

  /** The four branches of the scan, as cuts. */
  lemma CutCases(es: seq<Entry>, i: nat, p: nat, end: nat)
    requires i < |es| && p <= end && !(es[i].ptr + es[i].size <= p || es[i].ptr >= end)
    ensures Meets(es[i], p, end)
    ensures var e := es[i];
            var eEnd := e.ptr + e.size;
            var lo, hi := Below(e, p), Above(e, end);
            if e.ptr >= p && eEnd <= end then
              lo == [] && hi == [] && Cut(es, i, p, end) == es[..i] + es[i + 1..]
            else if e.ptr < p && eEnd > end then
              lo != [] && hi != [] && 
              Cut(es, i, p, end) == es[i := e.(size := p - e.ptr)] +
                [Entry(end, eEnd - end, e.prot, e.sceProt, e.name, e.reserved, e.hasPhys, Wrap(e.physOffset + (end - e.ptr)))]
            else if e.ptr < p then
              lo != [] && hi == [] && Cut(es, i, p, end) == es[i := e.(size := p - e.ptr)]
            else
              lo == [] && hi != [] &&
              Cut(es, i, p, end) == es[i := e.(size := eEnd - end, physOffset := Wrap(e.physOffset + (end - e.ptr)), ptr := end)]
  {
  }

  // ---- detaching ------------------------------------------------------------------------------

  ghost predicate Detaching(es: seq<Entry>, k: nat, rs: seq<Range>, ptr: nat, end: nat)
    requires k <= |es|
  {
    forall a: int :: Hit(rs, a) <==> PhysIn(es[..k], ptr, end, a)
  }

  lemma DetachStart(es: seq<Entry>, ptr: nat, end: nat)
    ensures Detaching(es, 0, [], ptr, end)
  {
  }

  lemma DetachStep(es: seq<Entry>, k: nat, rs: seq<Range>, ptr: nat, end: nat)
    requires k < |es| && Detaching(es, k, rs, ptr, end)
    ensures var first, stop := Max(ptr, es[k].ptr), Min(end, es[k].ptr + es[k].size);
            Detaching(es, k + 1, if es[k].hasPhys && first < stop then rs + [Range(first, stop - first)] else rs, ptr, end)
  {
    var e := es[k];
    var first, stop := Max(ptr, e.ptr), Min(end, e.ptr + e.size);
    var more := if e.hasPhys && first < stop then rs + [Range(first, stop - first)] else rs;
    forall a: int ensures Hit(more, a) <==> PhysIn(es[..k + 1], ptr, end, a) {
      if e.hasPhys && first < stop {
        HitSnoc(rs, Range(first, stop - first), a);
      }
      assert Hit(more, a) <==> Hit(rs, a) || (e.hasPhys && Inside(e, a) && InHole(ptr, a, end));
      if PhysIn(es[..k], ptr, end, a) {
        var t :| Maps(es[..k], a, t) && t.hasPhys && InHole(ptr, a, end);
        MapsPrefix(es, k, a, t);
      }
      if e.hasPhys && Inside(e, a) {
        MapsPrefix(es, k, a, At(e, a));
      }
      if PhysIn(es[..k + 1], ptr, end, a) {
        var t :| Maps(es[..k + 1], a, t) && t.hasPhys && InHole(ptr, a, end);
        MapsPrefix(es, k, a, t);
      }
    }
  }

  lemma DetachDone(es: seq<Entry>, rs: seq<Range>, ptr: nat, end: nat)
    requires Detaching(es, |es|, rs, ptr, end)
    ensures forall a: int :: Hit(rs, a) <==> PhysIn(es, ptr, end, a)
  {
    assert es[..|es|] == es;
  }

  lemma RemovingStart(es: seq<Entry>, phys: nat, limit: nat)
    ensures Removing(es, 0, [], phys, limit)
  {
  }

  lemma ImageRangeIs(e: Entry, phys: nat, limit: nat)
    ensures ImageRange(e, phys, limit) ==
            if e.hasPhys && Max(phys, e.physOffset) < Min(limit, Wrap(e.physOffset + e.size))
            then [Range(e.ptr + Max(phys, e.physOffset) - e.physOffset,
                        Min(limit, Wrap(e.physOffset + e.size)) - Max(phys, e.physOffset))]
            else []
    ensures Max(phys, e.physOffset) >= e.physOffset
  {
  }

  lemma NoImage(es: seq<Entry>, phys: nat, limit: nat)
    requires limit <= phys
    ensures forall a: int :: !ImageIn(es, phys, limit, a)
  {
  }

  /** The request's own sum: without wrapping it is what was asked for, with it nothing. */
  lemma Wrapped(old_: seq<Entry>, new_: seq<Entry>, phys: nat, size: nat)
    requires phys < TWO64 && size < TWO64 && ImageRemoved(old_, new_, phys, Wrap(phys + size))
    ensures phys + size < TWO64 ==> ImageRemoved(old_, new_, phys, phys + size)
    ensures phys + size >= TWO64 ==> forall a: int, t :: Maps(new_, a, t) <==> Maps(old_, a, t)
  {
    hide Maps, ImageIn;
    if phys + size >= TWO64 {
      assert Wrap(phys + size) == phys + size - TWO64 <= phys;
      NoImage(old_, phys, Wrap(phys + size));
    }
  }

  // ---- protection -------------------------------------------------------------------------------

  function ProtectOne(e: Entry, ptr: nat, end: nat, prot: nat, sceProt: nat): Entry {
    if Meets(e, ptr, end) then e.(prot := prot, sceProt := sceProt) else e
  }

  function Protected(es: seq<Entry>, ptr: nat, end: nat, prot: nat, sceProt: nat): seq<Entry> {
    seq(|es|, i requires 0 <= i < |es| => ProtectOne(es[i], ptr, end, prot, sceProt))
  }

  /** The map says t about address a, up to its protection. */
  ghost predicate MappedAlike(es: seq<Entry>, a: int, t: Attr) {
    exists u :: Maps(es, a, u) && SameButProt(t, u)
  }

  predicate SameButProt(t: Attr, u: Attr) {
    t.name == u.name && t.reserved == u.reserved && t.hasPhys == u.hasPhys && t.phys == u.phys
  }

  /** Every mapped address of the range has the new protection and keeps all else. */
  lemma ProtectInside(es: seq<Entry>, ptr: nat, end: nat, prot: nat, sceProt: nat, a: int, t: Attr)
    requires InHole(ptr, a, end)
    ensures Maps(Protected(es, ptr, end, prot, sceProt), a, t) <==>
            t.prot == prot && t.sceProt == sceProt && MappedAlike(es, a, t)
  {
    var n := Protected(es, ptr, end, prot, sceProt);
    if Maps(n, a, t) {
      var i :| 0 <= i < |n| && MapsOne(n[i], a, t);
      assert MapsOne(es[i], a, At(es[i], a));
      assert Maps(es, a, At(es[i], a)) && SameButProt(t, At(es[i], a));
    }
    if t.prot == prot && t.sceProt == sceProt && MappedAlike(es, a, t) {
      var u :| Maps(es, a, u) && SameButProt(t, u);
      var i :| 0 <= i < |es| && MapsOne(es[i], a, u);
      assert MapsOne(n[i], a, t);
    }
  }

  lemma ProtectedShape(es: seq<Entry>, ptr: nat, end: nat, prot: nat, sceProt: nat)
    ensures Disjoint(es) ==> Disjoint(Protected(es, ptr, end, prot, sceProt))
    ensures PhysBounded(es) ==> PhysBounded(Protected(es, ptr, end, prot, sceProt))
  {
  }

  /** A mapping whose protection changes although part of it lies outside the range. */
  predicate Spills(e: Entry, ptr: nat, end: nat, prot: nat, sceProt: nat) {
    && Meets(e, ptr, end) && (e.prot != prot || e.sceProt != sceProt)
    && (e.ptr < ptr || end < e.ptr + e.size)
  }

  ghost predicate Confined(es: seq<Entry>, ptr: nat, end: nat, prot: nat, sceProt: nat) {
    forall a: int, t :: !InHole(ptr, a, end) ==>
                          (Maps(Protected(es, ptr, end, prot, sceProt), a, t) <==> Maps(es, a, t))
  }

  /** ProtectRange leaves every address outside the range alone if and only if no mapping
      that it changes reaches out of the range: unlike PunchHole it does not split. */
  lemma ProtectConfined(es: seq<Entry>, ptr: nat, end: nat, prot: nat, sceProt: nat)
    requires Disjoint(es)
    ensures Confined(es, ptr, end, prot, sceProt) <==>
            forall i :: 0 <= i < |es| ==> !Spills(es[i], ptr, end, prot, sceProt)
  {
    var n := Protected(es, ptr, end, prot, sceProt);
    if forall i :: 0 <= i < |es| ==> !Spills(es[i], ptr, end, prot, sceProt) {
      forall a: int, t | !InHole(ptr, a, end) ensures Maps(n, a, t) <==> Maps(es, a, t) {
        assert forall i :: 0 <= i < |es| ==> (MapsOne(n[i], a, t) <==> MapsOne(es[i], a, t));
      }
    } else {
      var i :| 0 <= i < |es| && Spills(es[i], ptr, end, prot, sceProt);
      var a := if es[i].ptr < ptr then es[i].ptr else es[i].ptr + es[i].size - 1;
      ProtectSpills(es, ptr, end, prot, sceProt, i, a);
    }
  }

  lemma ProtectSpills(es: seq<Entry>, ptr: nat, end: nat, prot: nat, sceProt: nat, i: nat, a: int)
    requires Disjoint(es) && i < |es| && Spills(es[i], ptr, end, prot, sceProt)
    requires Inside(es[i], a) && !InHole(ptr, a, end)
    ensures !Confined(es, ptr, end, prot, sceProt)
  {
    var n := Protected(es, ptr, end, prot, sceProt);
    var t := At(n[i], a);
    assert Maps(n, a, t) by {
      assert MapsOne(n[i], a, t);
    }
    assert Maps(es, a, At(es[i], a)) by {
      assert MapsOne(es[i], a, At(es[i], a));
    }
    if Maps(es, a, t) {
      MapsUnique(es, a, t, At(es[i], a));
      assert false;
    }
  }

  /** A case: protecting one page of a mapping of two protects the other as well. */
  lemma ProtectReachesOut()
    ensures exists es: seq<Entry>, t ::
              Disjoint(es) && Maps(es, 5000, t) && t.prot == 3 &&
              !Maps(Protected(es, 0, 4096, 1, 1), 5000, t) && !Confined(es, 0, 4096, 1, 1)
  {
    var e := Entry(0, 8192, 3, 3, "", false, false, 0);
    var es, t := [e], At(e, 5000);
    assert MapsOne(es[0], 5000, t);
    var n := Protected(es, 0, 4096, 1, 1);
    assert n == [e.(prot := 1, sceProt := 1)];
    ProtectSpills(es, 0, 4096, 1, 1, 0, 5000);
  }

  /** For a non-empty range over non-empty mappings, Overlaps answers whether some address
      of the range is mapped. */
  lemma OverlapsIsMapped(es: seq<Entry>, ptr: nat, size: nat)
    requires size > 0 && forall i :: 0 <= i < |es| ==> es[i].size > 0
    ensures (exists i :: 0 <= i < |es| && Meets(es[i], ptr, ptr + size)) <==>
            exists a: int, t :: InHole(ptr, a, ptr + size) && Maps(es, a, t)
  {
    if i :| 0 <= i < |es| && Meets(es[i], ptr, ptr + size) {
      var a := Max(ptr, es[i].ptr);
      assert InHole(ptr, a, ptr + size) && MapsOne(es[i], a, At(es[i], a));
      assert Maps(es, a, At(es[i], a));
    }
    if a: int, t :| InHole(ptr, a, ptr + size) && Maps(es, a, t) {
      var i :| 0 <= i < |es| && MapsOne(es[i], a, t);
      assert Meets(es[i], ptr, ptr + size);
    }
  }
}
