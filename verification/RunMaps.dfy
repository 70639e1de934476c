/** The coalesced run maps of the guest write tracker: sorted half-open address
    runs that never touch, edited in place by InsertRun and EraseRun. Each edit
    is an exact set operation on addresses and returns an exact byte count.
 */
module RunMaps {
  import opened Basics

  /** One run [first, end) of the ordered map: key `first`, value `end`. */
  datatype Run = Run(first: nat, end: nat)

  /** Sorted, non-empty runs with a gap between neighbours. */
  ghost predicate Canonical(s: seq<Run>) {
    && (forall i :: 0 <= i < |s| ==> s[i].first < s[i].end)
    && (forall i, j :: 0 <= i < j < |s| ==> s[i].end < s[j].first)
  }

  ghost predicate Holds(r: Run, a: int) {
    r.first <= a < r.end
  }

  ghost predicate Covers(s: seq<Run>, a: int) {
    exists i :: 0 <= i < |s| && Holds(s[i], a)
  }

  function Length(r: Run): nat {
    if r.first <= r.end then r.end - r.first else 0
  }

  /** Bytes the runs cover. */
  function Total(s: seq<Run>): nat {
    if s == [] then 0 else Length(s[0]) + Total(s[1..])
  }

  lemma {:induction false} TotalConcat(x: seq<Run>, y: seq<Run>)
    ensures Total(x + y) == Total(x) + Total(y)
  {
    if x == [] {
      assert x + y == y;
    } else {
      TotalConcat(x[1..], y);
      assert (x + y)[1..] == x[1..] + y;
    }
  }

  lemma TotalOne(r: Run)
    ensures Total([r]) == Length(r)
  {
    assert [r][1..] == [];
  }

  ghost predicate Within(lo: int, a: int, hi: int) {
    lo <= a < hi
  }

  ghost function Interval(lo: int, hi: int): set<int> {
    set a: int | lo <= a < hi && Within(lo, a, hi)
  }

  ghost function Addresses(s: seq<Run>): set<int> {
    if s == [] then {} else Interval(s[0].first, s[0].end) + Addresses(s[1..])
  }

  lemma {:induction false} IntervalSize(lo: int, hi: int)
    requires lo <= hi
    ensures |Interval(lo, hi)| == hi - lo
    decreases hi - lo
  {
    if lo < hi {
      IntervalSize(lo + 1, hi);
      assert Interval(lo, hi) == {lo} + Interval(lo + 1, hi) by {
        forall a ensures a in Interval(lo, hi) <==> a == lo || a in Interval(lo + 1, hi) {
          assert Within(lo, a, hi) <==> a == lo || Within(lo + 1, a, hi);
        }
      }
    } else {
      assert Interval(lo, hi) == {};
    }
  }

  lemma {:induction false} AddressesAreCovered(s: seq<Run>, a: int)
    ensures a in Addresses(s) <==> Covers(s, a)
  {
    if s != [] {
      AddressesAreCovered(s[1..], a);
      assert a in Interval(s[0].first, s[0].end) <==> Holds(s[0], a) by {
        assert Within(s[0].first, a, s[0].end) <==> Holds(s[0], a);
      }
      CoversConcat([s[0]], s[1..], a);
      CoversOne(s[0], a);
      assert s == [s[0]] + s[1..];
    }
  }

  /** The byte count of a canonical map is the number of addresses it covers. */
  lemma {:induction false} TotalIsCardinality(s: seq<Run>)
    requires Canonical(s)
    ensures Total(s) == |Addresses(s)|
  {
    if s != [] {
      var head, rest := Interval(s[0].first, s[0].end), s[1..];
      TotalIsCardinality(rest);
      IntervalSize(s[0].first, s[0].end);
      forall a | a in head ensures a !in Addresses(rest) {
        AddressesAreCovered(rest, a);
        assert forall k :: 0 <= k < |rest| ==> rest[k] == s[k + 1];
      }
      assert head !! Addresses(rest);
    }
  }

  ghost predicate Below(x: seq<Run>, b: int) {
    forall i :: 0 <= i < |x| ==> x[i].end < b
  }

  ghost predicate Above(y: seq<Run>, b: int) {
    forall i :: 0 <= i < |y| ==> b < y[i].first
  }

  lemma CanonicalSplit(s: seq<Run>, i: nat)
    requires Canonical(s) && i < |s|
    ensures Canonical(s[..i]) && Below(s[..i], s[i].first)
    ensures Canonical(s[i + 1..]) && Above(s[i + 1..], s[i].end)
  {
  }

  lemma CanonicalJoin(x: seq<Run>, r: Run, y: seq<Run>)
    requires Canonical(x) && Canonical(y) && r.first < r.end
    requires Below(x, r.first) && Above(y, r.end)
    ensures Canonical(x + [r] + y)
  {
    var s := x + [r] + y;
    forall i, j | 0 <= i < j < |s| ensures s[i].end < s[j].first {
      if i < |x| {
        assert s[i] == x[i];
      }
      if j > |x| {
        assert s[j] == y[j - |x| - 1];
      }
    }
  }

  /** Index of the first run whose key exceeds `key`. */
  method UpperBound(runs: seq<Run>, key: nat) returns (i: nat)
    requires Canonical(runs)
    ensures i <= |runs|
    ensures forall k :: 0 <= k < i ==> runs[k].first <= key
    ensures forall k :: i <= k < |runs| ==> key < runs[k].first
  {
    i := 0;
    while i < |runs| && runs[i].first <= key
      invariant i <= |runs|
      invariant forall k :: 0 <= k < i ==> runs[k].first <= key
    {
      i := i + 1;
    }
  }

  /** Addresses of runs s[i..j]. */
  ghost predicate CoversPart(s: seq<Run>, i: nat, j: nat, a: int)
    requires i <= j <= |s|
  {
    exists k :: i <= k < j && Holds(s[k], a)
  }

  lemma CoversSplit(s: seq<Run>, i: nat, j: nat, a: int)
    requires i <= j <= |s|
    ensures Covers(s, a) <==> Covers(s[..i], a) || CoversPart(s, i, j, a) || Covers(s[j..], a)
  {
    if Covers(s, a) {
      var k :| 0 <= k < |s| && Holds(s[k], a);
      if k < i {
        assert s[..i][k] == s[k];
      } else if k >= j {
        assert s[j..][k - j] == s[k];
      }
    }
    if Covers(s[j..], a) {
      var k :| 0 <= k < |s[j..]| && Holds(s[j..][k], a);
      assert s[k + j] == s[j..][k];
    }
  }

  lemma CoversConcat(x: seq<Run>, y: seq<Run>, a: int)
    ensures Covers(x + y, a) <==> Covers(x, a) || Covers(y, a)
  {
    CoversSplit(x + y, |x|, |x|, a);
    assert (x + y)[..|x|] == x && (x + y)[|x|..] == y;
  }

  lemma CoversOne(r: Run, a: int)
    ensures Covers([r], a) <==> Holds(r, a)
  {
    if Holds(r, a) {
      assert Holds([r][0], a);
    }
  }

  lemma CoversThree(x: seq<Run>, r: Run, y: seq<Run>, a: int)
    ensures Covers(x + [r] + y, a) <==> Covers(x, a) || Holds(r, a) || Covers(y, a)
  {
    CoversConcat(x + [r], y, a);
    CoversConcat(x, [r], a);
    CoversOne(r, a);
  }

  lemma TotalThree(x: seq<Run>, r: Run, y: seq<Run>)
    ensures Total(x + [r] + y) == Total(x) + Length(r) + Total(y)
  {
    TotalConcat(x + [r], y);
    TotalConcat(x, [r]);
    TotalOne(r);
  }

  class RunMap {
    var runs: seq<Run>

    constructor ()
      ensures runs == []
    {
      runs := [];
    }

    /** Union with one run: neighbours and overlaps merge, and `added` is the growth of Total. */
    method InsertRun(first: nat, end: nat) returns (added: nat)
      requires Canonical(runs) && first < end
      modifies this
      ensures Canonical(runs)
      ensures forall a :: Covers(runs, a) <==> Covers(old(runs), a) || Within(first, a, end)
      ensures Total(runs) == Total(old(runs)) + added
    {
      hide *;
      ghost var s0 := runs;
      var lo, hi := first, end;
      var total: int := end - first;
      var it := UpperBound(runs, first);
      ghost var u := it;
      if it != 0 && runs[it - 1].end >= first {
        it := it - 1;
      }
      ghost var j := it;
      InsertStart(s0, u, it, first, end);
      while it < |runs| && runs[it].first <= hi
        invariant it <= j <= |s0|
        invariant runs == s0[..it] + s0[j..]
        invariant 0 <= lo < hi
        invariant Below(s0[..it], lo)
        invariant j < |s0| ==> lo <= s0[j].end
        invariant forall a :: Within(lo, a, hi) <==> Within(first, a, end) || CoversPart(s0, it, j, a)
        invariant total == hi - lo - Total(s0[it..j])
        decreases |runs|
      {
        DropOne(s0, it, j);
        var r := runs[it];
        var a, b := Max(lo, r.first), Min(hi, r.end);
        if b > a {
          total := total - (b - a);
        }
        Absorb(s0, it, j, first, end, lo, hi);
        lo := Min(lo, r.first);
        hi := Max(hi, r.end);
        runs := runs[..it] + runs[it + 1..];
        j := j + 1;
      }
      InsertDone(s0, it, j, first, end, lo, hi);
      AbsorbedFits(s0, it, j, first, end, lo, hi);
      runs := runs[..it] + [Run(lo, hi)] + runs[it..];
      added := total;
    }

    /** Difference with one run: what sticks out stays, and `removed` is the loss of Total. */
    method EraseRun(first: nat, end: nat) returns (removed: nat)
      requires Canonical(runs) && first < end
      modifies this
      ensures Canonical(runs)
      ensures forall a :: Covers(runs, a) <==> Covers(old(runs), a) && !Within(first, a, end)
      ensures Total(runs) + removed == Total(old(runs))
    {
      hide *;
      removed := 0;
      var it := UpperBound(runs, first);
      ghost var u := it;
      if it != 0 {
        it := it - 1;
      }
      EraseStart(runs, u, first);
      while it < |runs| && runs[it].first < end
        invariant 0 <= it <= |runs|
        invariant Canonical(runs)
        invariant Below(runs[..it], first + 1)
        invariant forall a :: Covers(runs, a) || Within(first, a, end) <==> Covers(old(runs), a) || Within(first, a, end)
        invariant Total(runs) + removed == Total(old(runs))
        decreases |runs| - it, if it < |runs| && runs[it].first < end then 1 else 0
      {
        var r := runs[it];
        if r.end <= first {
          BelowSnoc(runs, it, first + 1);
          it := it + 1;
          continue;
        }
        ghost var x, y := runs[..it], runs[it + 1..];
        assert runs == x + [r] + y;
        ErasePieces(x, r, y, first, end);
        removed := removed + (Min(r.end, end) - Max(r.first, first));
        runs := runs[..it] + runs[it + 1..];
        if r.first < first {
          runs := runs[..it] + [Run(r.first, first)] + runs[it..];
          it := it + 1;
        }
        if r.end > end {
          runs := runs[..it] + [Run(end, r.end)] + runs[it..];
        }
        EraseCursor(x, r, y, first, end, runs, it);
      }
      EraseDone(old(runs), runs, it, first, end);
    }

    /** The complement of the runs within a range, itself in canonical form. */
    method Gaps(first: nat, end: nat) returns (gaps: seq<Run>)
      requires Canonical(runs)
      ensures Canonical(gaps)
      ensures forall a :: Covers(gaps, a) <==> Within(first, a, end) && !Covers(runs, a)
    {
      hide *;
      gaps := [];
      var it := UpperBound(runs, first);
      ghost var u := it;
      if it != 0 && runs[it - 1].end > first {
        it := it - 1;
      }
      var cursor := first;
      GapStart(runs, u, it, first, end);
      while it < |runs| && runs[it].first < end && cursor < end
        invariant 0 <= it <= |runs|
        invariant Canonical(gaps) && Below(gaps, cursor)
        invariant first <= cursor
        invariant Below(runs[..it], cursor + 1)
        invariant it < |runs| ==> cursor <= runs[it].end
        invariant forall a :: Covers(gaps, a) <==> Within(first, a, Min(cursor, end)) && !Covers(runs, a)
      {
        var r := runs[it];
        GapStep(runs, it, first, end, cursor, gaps);
        if r.first > cursor {
          gaps := gaps + [Run(cursor, r.first)];
        }
        cursor := Max(cursor, r.end);
        it := it + 1;
      }
      GapDone(runs, it, first, end, cursor, gaps);
      if cursor < end {
        gaps := gaps + [Run(cursor, end)];
      }
    }
  }

  lemma GapStart(s: seq<Run>, u: nat, it: nat, first: nat, end: nat)
    requires Canonical(s) && u <= |s|
    requires forall k :: 0 <= k < u ==> s[k].first <= first
    requires forall k :: u <= k < |s| ==> first < s[k].first
    requires it == if u != 0 && s[u - 1].end > first then u - 1 else u
    ensures Canonical([]) && Below([], first) && Below(s[..it], first + 1)
    ensures it < |s| ==> first <= s[it].end
    ensures forall a :: Covers([], a) <==> Within(first, a, Min(first, end)) && !Covers(s, a)
  {
    forall k | 0 <= k < it ensures s[..it][k].end < first + 1 {
      if k < it - 1 {
        assert s[k].end < s[it - 1].first;
      }
      if it < u {
        assert s[k].end < s[it].first;
      }
    }
  }

  lemma GapDone(runs: seq<Run>, it: nat, first: nat, end: nat, cursor: nat, gaps: seq<Run>)
    requires Canonical(runs) && it <= |runs| && first <= cursor
    requires it < |runs| && cursor < end ==> end <= runs[it].first
    requires Below(runs[..it], cursor + 1)
    requires Canonical(gaps) && Below(gaps, cursor)
    requires forall a :: Covers(gaps, a) <==> Within(first, a, Min(cursor, end)) && !Covers(runs, a)
    ensures cursor < end ==> Canonical(gaps + [Run(cursor, end)])
    ensures forall a :: Covers(if cursor < end then gaps + [Run(cursor, end)] else gaps, a) <==>
                        Within(first, a, end) && !Covers(runs, a)
  {
    var all := if cursor < end then gaps + [Run(cursor, end)] else gaps;
    if cursor < end {
      CanonicalJoin(gaps, Run(cursor, end), []);
      assert all == gaps + [Run(cursor, end)] + [];
    }
    forall a ensures Covers(all, a) <==> Within(first, a, end) && !Covers(runs, a) {
      CoversConcat(gaps, [Run(cursor, end)], a);
      CoversOne(Run(cursor, end), a);
      if Within(cursor, a, end) {
        Untouched(runs, it, cursor, end, a);
      }
    }
  }

  /** No run covers [lo, hi) when those before `it` end by lo and those from it start at hi or later. */
  lemma Untouched(runs: seq<Run>, it: nat, lo: nat, hi: nat, a: int)
    requires Canonical(runs) && it <= |runs|
    requires Below(runs[..it], lo + 1)
    requires it < |runs| ==> hi <= runs[it].first
    requires lo <= a < hi
    ensures !Covers(runs, a)
  {
    forall k | 0 <= k < |runs| ensures !Holds(runs[k], a) {
      if k < it {
        assert runs[..it][k] == runs[k];
      } else if k > it {
        assert runs[it].end < runs[k].first;
      }
    }
  }

  lemma DropOne(s: seq<Run>, it: nat, j: nat)
    requires it <= j <= |s| && it < |s[..it] + s[j..]|
    ensures j < |s| && (s[..it] + s[j..])[it] == s[j]
    ensures (s[..it] + s[j..])[..it] + (s[..it] + s[j..])[it + 1..] == s[..it] + s[j + 1..]
  {
  }

  lemma {:induction false} TotalFits(s: seq<Run>, lo: nat, hi: nat)
    requires Canonical(s) && lo <= hi
    requires forall k :: 0 <= k < |s| ==> lo <= s[k].first && s[k].end <= hi
    ensures Total(s) <= hi - lo
  {
    if s != [] {
      assert forall k :: 0 <= k < |s[1..]| ==> s[1..][k] == s[k + 1];
      TotalFits(s[1..], s[0].end, hi);
    }
  }

  lemma AbsorbedFits(s: seq<Run>, it: nat, j: nat, first: nat, end: nat, lo: nat, hi: nat)
    requires Canonical(s) && it <= j <= |s| && lo < hi
    requires forall a :: Within(lo, a, hi) <==> Within(first, a, end) || CoversPart(s, it, j, a)
    ensures Total(s[it..j]) <= hi - lo
  {
    forall k | it <= k < j ensures lo <= s[k].first && s[k].end <= hi {
      assert Holds(s[k], s[k].first) && Holds(s[k], s[k].end - 1);
      assert Within(lo, s[k].first, hi) && Within(lo, s[k].end - 1, hi);
    }
    TotalFits(s[it..j], lo, hi);
  }

  lemma EraseStart(s: seq<Run>, u: nat, first: nat)
    requires Canonical(s) && u <= |s|
    requires forall k :: 0 <= k < u ==> s[k].first <= first
    ensures Below(s[..if u != 0 then u - 1 else u], first + 1)
  {
    forall k | 0 <= k < u - 1 ensures s[k].end < first + 1 {
      assert s[k].end < s[u - 1].first;
    }
  }

  lemma BelowSnoc(s: seq<Run>, it: nat, b: nat)
    requires it < |s| && Below(s[..it], b) && s[it].end < b
    ensures Below(s[..it + 1], b)
  {
    assert s[..it + 1] == s[..it] + [s[it]];
  }

  /** Where the cursor stands after EraseRun has replaced run r by its pieces. */
  lemma EraseCursor(x: seq<Run>, r: Run, y: seq<Run>, first: nat, end: nat, s: seq<Run>, it: nat)
    requires Below(x, first + 1)
    requires s == (if r.first < first then x + [Run(r.first, first)] else x) +
                  (if r.end > end then [Run(end, r.end)] + y else y)
    requires it == |x| + if r.first < first then 1 else 0
    ensures s == x + Pieces(r, first, end) + y
    ensures Below(s[..it], first + 1)
    ensures |s| - it <= |y| || (it < |s| && s[it].first == end && |s| - it == |y| + 1)
  {
    forall k | 0 <= k < it ensures s[..it][k].end < first + 1 {
      if k < |x| {
        assert s[k] == x[k];
      }
    }
  }

  lemma EraseDone(before: seq<Run>, s: seq<Run>, it: nat, first: nat, end: nat)
    requires Canonical(s) && it <= |s| && Below(s[..it], first + 1)
    requires it < |s| ==> end <= s[it].first
    requires forall a :: Covers(s, a) || Within(first, a, end) <==> Covers(before, a) || Within(first, a, end)
    ensures forall a :: Covers(s, a) <==> Covers(before, a) && !Within(first, a, end)
  {
    forall a ensures Covers(s, a) <==> Covers(before, a) && !Within(first, a, end) {
      if Within(first, a, end) {
        Untouched(s, it, first, end, a);
      }
      assert Covers(s, a) || Within(first, a, end) <==> Covers(before, a) || Within(first, a, end);
    }
  }

  lemma InsertStart(s: seq<Run>, u: nat, it: nat, first: nat, end: nat)
    requires Canonical(s) && first < end && u <= |s|
    requires forall k :: 0 <= k < u ==> s[k].first <= first
    requires forall k :: u <= k < |s| ==> first < s[k].first
    requires it == if u != 0 && s[u - 1].end >= first then u - 1 else u
    ensures Below(s[..it], first)
    ensures it < |s| ==> first <= s[it].end
    ensures s == s[..it] + s[it..]
    ensures forall a :: Within(first, a, end) <==> Within(first, a, end) || CoversPart(s, it, it, a)
    ensures Total(s[it..it]) == 0
  {
    forall k | 0 <= k < it ensures s[..it][k].end < first {
      if k < it - 1 {
        assert s[k].end < s[it - 1].first;
      }
      if it < u {
        assert s[k].end < s[it].first;
      }
    }
    assert s[it..it] == [];
  }

  /** One merge step of InsertRun: the run at j is absorbed into [lo, hi). */
  lemma Absorb(s: seq<Run>, it: nat, j: nat, first: nat, end: nat, lo: nat, hi: nat)
    requires Canonical(s) && it <= j < |s| && lo < hi
    requires Below(s[..it], lo) && lo <= s[j].end && s[j].first <= hi
    requires forall a :: Within(lo, a, hi) <==> Within(first, a, end) || CoversPart(s, it, j, a)
    ensures Below(s[..it], Min(lo, s[j].first))
    ensures forall a :: Within(Min(lo, s[j].first), a, Max(hi, s[j].end)) <==>
                        Within(first, a, end) || CoversPart(s, it, j + 1, a)
    ensures Max(hi, s[j].end) - Min(lo, s[j].first) - Total(s[it..j + 1]) ==
            hi - lo - Total(s[it..j]) -
            if Max(lo, s[j].first) < Min(hi, s[j].end) then Min(hi, s[j].end) - Max(lo, s[j].first) else 0
    ensures Min(lo, s[j].first) < Max(hi, s[j].end)
    ensures j + 1 < |s| ==> Min(lo, s[j].first) <= s[j + 1].end
  {
    forall a
      ensures Within(Min(lo, s[j].first), a, Max(hi, s[j].end)) <==>
              Within(first, a, end) || CoversPart(s, it, j + 1, a)
    {
      assert CoversPart(s, it, j + 1, a) <==> CoversPart(s, it, j, a) || Holds(s[j], a);
      assert Within(Min(lo, s[j].first), a, Max(hi, s[j].end)) <==> Within(lo, a, hi) || Holds(s[j], a);
    }
    assert s[it..j + 1] == s[it..j] + [s[j]];
    TotalConcat(s[it..j], [s[j]]);
    TotalOne(s[j]);
    forall k | 0 <= k < it ensures s[..it][k].end < Min(lo, s[j].first) {
      assert s[k].end < s[j].first;
    }
  }

  /** One step of Gaps: everything up to the end of run `it` is decided. */
  lemma GapStep(runs: seq<Run>, it: nat, first: nat, end: nat, cursor: nat, gaps: seq<Run>)
    requires Canonical(runs) && it < |runs| && runs[it].first < end && first <= cursor < end
    requires Below(runs[..it], cursor + 1) && cursor <= runs[it].end
    requires Canonical(gaps) && Below(gaps, cursor)
    requires forall a :: Covers(gaps, a) <==> Within(first, a, Min(cursor, end)) && !Covers(runs, a)
    ensures var more := if runs[it].first > cursor then gaps + [Run(cursor, runs[it].first)] else gaps;
            && Canonical(more) && Below(more, Max(cursor, runs[it].end))
            && forall a :: Covers(more, a) <==> Within(first, a, Min(Max(cursor, runs[it].end), end)) && !Covers(runs, a)
    ensures first <= Max(cursor, runs[it].end)
    ensures Below(runs[..it + 1], Max(cursor, runs[it].end) + 1)
    ensures it + 1 < |runs| ==> Max(cursor, runs[it].end) <= runs[it + 1].end
  {
    hide Canonical, Covers, Below;
    var r := runs[it];
    var more := if r.first > cursor then gaps + [Run(cursor, r.first)] else gaps;
    GapShape(runs, it, cursor, gaps);
    GapNext(runs, it, cursor);
    forall a
      ensures Covers(more, a) <==> Within(first, a, Min(Max(cursor, r.end), end)) && !Covers(runs, a)
    {
      GapCovers(runs, it, first, end, cursor, gaps, a);
    }
  }

  lemma GapShape(runs: seq<Run>, it: nat, cursor: nat, gaps: seq<Run>)
    requires Canonical(runs) && it < |runs| && Canonical(gaps) && Below(gaps, cursor)
    ensures var more := if runs[it].first > cursor then gaps + [Run(cursor, runs[it].first)] else gaps;
            Canonical(more) && Below(more, Max(cursor, runs[it].end))
  {
    hide Canonical;
    CanonicalAt(runs, it);
    var r := Run(cursor, runs[it].first);
    if runs[it].first > cursor {
      EmptyCanonical(r.end);
      CanonicalJoin(gaps, r, []);
      assert gaps + [r] + [] == gaps + [r];
    }
  }

  lemma GapNext(runs: seq<Run>, it: nat, cursor: nat)
    requires Canonical(runs) && it < |runs| && Below(runs[..it], cursor + 1) && cursor <= runs[it].end
    ensures Below(runs[..it + 1], Max(cursor, runs[it].end) + 1)
    ensures it + 1 < |runs| ==> Max(cursor, runs[it].end) <= runs[it + 1].end
  {
    assert runs[..it + 1] == runs[..it] + [runs[it]];
    if it + 1 < |runs| {
      assert runs[it].end < runs[it + 1].first < runs[it + 1].end;
    }
  }

  lemma CoveredAt(runs: seq<Run>, it: nat, a: int)
    requires it < |runs| && Holds(runs[it], a)
    ensures Covers(runs, a)
  {
  }

  /** Whether address a is a gap is decided up to the end of run `it`. */
  lemma GapCovers(runs: seq<Run>, it: nat, first: nat, end: nat, cursor: nat, gaps: seq<Run>, a: int)
    requires Canonical(runs) && it < |runs| && runs[it].first < end && first <= cursor < end
    requires Below(runs[..it], cursor + 1) && cursor <= runs[it].end
    requires Covers(gaps, a) <==> Within(first, a, Min(cursor, end)) && !Covers(runs, a)
    ensures var more := if runs[it].first > cursor then gaps + [Run(cursor, runs[it].first)] else gaps;
            Covers(more, a) <==> Within(first, a, Min(Max(cursor, runs[it].end), end)) && !Covers(runs, a)
  {
    hide Canonical, Covers, Below;
    CanonicalAt(runs, it);
    var r := runs[it];
    CoversConcat(gaps, [Run(cursor, r.first)], a);
    CoversOne(Run(cursor, r.first), a);
    if Within(cursor, a, r.first) {
      Untouched(runs, it, cursor, r.first, a);
    }
    if Holds(r, a) {
      CoveredAt(runs, it, a);
    }
  }

  /** Replacing runs s[it..j] by the merged run [lo, hi) is the union with [first, end). */
  lemma InsertDone(s: seq<Run>, it: nat, j: nat, first: nat, end: nat, lo: nat, hi: nat)
    requires Canonical(s) && it <= j <= |s| && lo < hi
    requires Below(s[..it], lo)
    requires it < |s[..it] + s[j..]| ==> hi < (s[..it] + s[j..])[it].first
    requires forall a :: Within(lo, a, hi) <==> Within(first, a, end) || CoversPart(s, it, j, a)
    ensures (s[..it] + s[j..])[..it] == s[..it] && (s[..it] + s[j..])[it..] == s[j..]
    ensures Canonical(s[..it] + [Run(lo, hi)] + s[j..])
    ensures forall a :: Covers(s[..it] + [Run(lo, hi)] + s[j..], a) <==> Covers(s, a) || Within(first, a, end)
    ensures Total(s[..it] + [Run(lo, hi)] + s[j..]) == Total(s) - Total(s[it..j]) + (hi - lo)
  {
    var x, y, r := s[..it], s[j..], Run(lo, hi);
    assert Canonical(x + [r] + y) by {
      if j < |s| {
        assert Above(y, hi);
      }
      CanonicalJoin(x, r, y);
    }
    forall a ensures Covers(x + [r] + y, a) <==> Covers(s, a) || Within(first, a, end) {
      CoversThree(x, r, y, a);
      CoversSplit(s, it, j, a);
      assert Holds(r, a) <==> Within(lo, a, hi);
    }
    TotalThree(x, r, y);
    TotalSplit(s, it, j);
  }

  lemma TotalSplit(s: seq<Run>, i: nat, j: nat)
    requires i <= j <= |s|
    ensures Total(s) == Total(s[..i]) + Total(s[i..j]) + Total(s[j..])
  {
    assert s == s[..i] + s[i..j] + s[j..];
    TotalConcat(s[..i] + s[i..j], s[j..]);
    TotalConcat(s[..i], s[i..j]);
  }

  /** What is left of run r once [first, end) is cut out of it. */
  ghost function Pieces(r: Run, first: nat, end: nat): seq<Run> {
    (if r.first < first then [Run(r.first, first)] else []) +
    (if r.end > end then [Run(end, r.end)] else [])
  }

  lemma PiecesFacts(r: Run, first: nat, end: nat)
    requires first < end && r.first < r.end && first < r.end && r.first < end
    ensures forall a :: Covers(Pieces(r, first, end), a) <==> Holds(r, a) && !Within(first, a, end)
    ensures Total(Pieces(r, first, end)) + (Min(r.end, end) - Max(r.first, first)) == Length(r)
  {
    var lo := if r.first < first then [Run(r.first, first)] else [];
    var hi := if r.end > end then [Run(end, r.end)] else [];
    forall a ensures Covers(lo + hi, a) <==> Holds(r, a) && !Within(first, a, end) {
      CoversConcat(lo, hi, a);
      CoversOne(Run(r.first, first), a);
      CoversOne(Run(end, r.end), a);
    }
    TotalConcat(lo, hi);
    TotalOne(Run(r.first, first));
    TotalOne(Run(end, r.end));
  }

  lemma CanonicalPieces(x: seq<Run>, r: Run, y: seq<Run>, first: nat, end: nat)
    requires Canonical(x + [r] + y)
    requires first < end && first < r.end && r.first < end
    ensures Canonical(x + Pieces(r, first, end) + y)
  {
    hide Canonical, Below, Above;
    var s := x + [r] + y;
    CanonicalSplit(s, |x|);
    assert s[..|x|] == x && s[|x| + 1..] == y && s[|x|] == r;
    assert r.first < r.end by {
      CanonicalAt(s, |x|);
    }
    var p, q := Run(r.first, first), Run(end, r.end);
    if r.first < first {
      Nested(x, y, r.first, r.end, r.first, first);
      if r.end > end {
        EmptyCanonical(first);
        CanonicalJoin(x, p, []);
        assert x + [p] + [] == x + [p];
        Nested(x, y, r.first, r.end, end, r.end);
        BelowJoin(x, p, end);
        CanonicalJoin(x + [p], q, y);
        assert x + Pieces(r, first, end) + y == x + [p] + [q] + y;
      } else {
        CanonicalJoin(x, p, y);
        assert x + Pieces(r, first, end) + y == x + [p] + y;
      }
    } else if r.end > end {
      Nested(x, y, r.first, r.end, end, r.end);
      CanonicalJoin(x, q, y);
      assert x + Pieces(r, first, end) + y == x + [q] + y;
    } else {
      CanonicalGlue(x, y, r.first, r.end);
      assert x + Pieces(r, first, end) + y == x + y;
    }
  }

  lemma CanonicalAt(s: seq<Run>, i: nat)
    requires Canonical(s) && i < |s|
    ensures s[i].first < s[i].end
  {
  }

  lemma EmptyCanonical(b: nat)
    ensures Canonical([]) && Above([], b)
  {
  }

  lemma Nested(x: seq<Run>, y: seq<Run>, lo: nat, hi: nat, first: nat, end: nat)
    requires Below(x, lo) && Above(y, hi) && lo <= first && end <= hi
    ensures Below(x, first) && Above(y, end)
  {
  }

  lemma BelowJoin(x: seq<Run>, p: Run, b: nat)
    requires Below(x, b) && p.end < b
    ensures Below(x + [p], b)
  {
  }

  lemma CanonicalGlue(x: seq<Run>, y: seq<Run>, lo: nat, hi: nat)
    requires Canonical(x) && Canonical(y) && Below(x, lo) && Above(y, hi) && lo <= hi
    ensures Canonical(x + y)
  {
    var s := x + y;
    forall i, j | 0 <= i < j < |s| ensures s[i].end < s[j].first {
      if i < |x| <= j {
        assert x[i].end < lo && hi < y[j - |x|].first;
      }
    }
  }

  lemma ErasePieces(x: seq<Run>, r: Run, y: seq<Run>, first: nat, end: nat)
    requires Canonical(x + [r] + y)
    requires first < end && first < r.end && r.first < end
    ensures Canonical(x + Pieces(r, first, end) + y)
    ensures forall a :: Covers(x + Pieces(r, first, end) + y, a) || Within(first, a, end) <==>
                        Covers(x + [r] + y, a) || Within(first, a, end)
    ensures Total(x + Pieces(r, first, end) + y) + (Min(r.end, end) - Max(r.first, first)) == Total(x + [r] + y)
    ensures Max(r.first, first) <= Min(r.end, end)
  {
    var s, m := x + [r] + y, Pieces(r, first, end);
    assert s[|x|] == r;
    CanonicalPieces(x, r, y, first, end);
    PiecesFacts(r, first, end);
    forall a
      ensures Covers(x + m + y, a) || Within(first, a, end) <==> Covers(s, a) || Within(first, a, end)
    {
      CoversThree(x, r, y, a);
      CoversConcat(x + m, y, a);
      CoversConcat(x, m, a);
    }
    TotalThree(x, r, y);
    TotalConcat(x + m, y);
    TotalConcat(x, m);
  }

  const PAGE_SIZE: nat := 4096

  predicate Aligned(p: nat) {
    p % PAGE_SIZE == 0
  }

  predicate SortedPages(pages: seq<nat>) {
    && (forall i :: 0 <= i < |pages| ==> Aligned(pages[i]))
    && (forall i, j :: 0 <= i < j < |pages| ==> pages[i] <= pages[j])
  }

  /** The aligned pages the ranges cover are exactly the listed ones. */
  ghost predicate Exactly(out: seq<Run>, pages: seq<nat>) {
    forall p: nat :: Aligned(p) ==> (Covers(out, p) <==> p in pages)
  }

  lemma ExtendRange(pages: seq<nat>, start: nat, i: nat, r: Run)
    requires SortedPages(pages) && start < i < |pages| && r.first == pages[start]
    requires r.end == pages[i - 1] + PAGE_SIZE && pages[i] <= r.end && Exactly([r], pages[start..i])
    ensures Max(r.end, pages[i] + PAGE_SIZE) == pages[i] + PAGE_SIZE > r.first
    ensures Exactly([Run(r.first, pages[i] + PAGE_SIZE)], pages[start..i + 1])
  {
    var n := Run(r.first, pages[i] + PAGE_SIZE);
    assert pages[i - 1] <= pages[i] && Aligned(pages[i - 1]) && Aligned(pages[i]);
    assert pages[i] == r.end || pages[i] + PAGE_SIZE == r.end;
    assert pages[start..i + 1] == pages[start..i] + [pages[i]];
    assert pages[start] <= pages[i];
    forall p: nat | Aligned(p) ensures Covers([n], p) <==> p in pages[start..i + 1] {
      CoversOne(n, p);
      CoversOne(r, p);
    }
  }

  lemma OneRange(pages: seq<nat>, i: nat)
    requires SortedPages(pages) && i < |pages|
    ensures Exactly([Run(pages[i], pages[i] + PAGE_SIZE)], pages[i..i + 1]) && pages[i] < pages[i] + PAGE_SIZE
  {
    var r := Run(pages[i], pages[i] + PAGE_SIZE);
    assert Aligned(pages[i]) && pages[i..i + 1] == [pages[i]];
    forall p: nat | Aligned(p) ensures Covers([r], p) <==> p in pages[i..i + 1] {
      CoversOne(r, p);
    }
  }

  lemma AppendRange(out: seq<Run>, pages: seq<nat>, start: nat, i: nat, r: Run)
    requires SortedPages(pages) && start < i <= |pages| && r.first == pages[start] < r.end
    requires Canonical(out) && Below(out, r.first)
    requires Exactly(out, pages[..start]) && Exactly([r], pages[start..i])
    requires i < |pages| ==> r.end < pages[i]
    ensures Canonical(out + [r]) && Exactly(out + [r], pages[..i])
    ensures i < |pages| ==> Below(out + [r], pages[i])
  {
    CanonicalJoin(out, r, []);
    assert out + [r] == out + [r] + [];
    assert pages[..i] == pages[..start] + pages[start..i];
    forall p: nat | Aligned(p) ensures Covers(out + [r], p) <==> p in pages[..i] {
      CoversConcat(out, [r], p);
    }
  }

  /** The ranges TakeFaulted reports for the sorted pages it took from the queue: the
      aligned pages they cover are exactly the pages taken, whatever duplicates there
      are, and neighbouring ranges leave a gap. */
  method TakenRanges(pages: seq<nat>) returns (out: seq<Run>)
    requires SortedPages(pages)
    ensures Canonical(out) && Exactly(out, pages)
  {
    hide *;
    out := [];
    NoRanges(pages);
    var i := 0;
    while i < |pages|
      invariant 0 <= i <= |pages|
      invariant Canonical(out) && Exactly(out, pages[..i])
      invariant i < |pages| ==> Below(out, pages[i])
    {
      var first, start := pages[i], i;
      var end := first + PAGE_SIZE;
      OneRange(pages, i);
      i := i + 1;
      while i < |pages| && pages[i] <= end
        invariant start < i <= |pages|
        invariant first < end == pages[i - 1] + PAGE_SIZE
        invariant Exactly([Run(first, end)], pages[start..i])
      {
        ExtendRange(pages, start, i, Run(first, end));
        end := Max(end, pages[i] + PAGE_SIZE);
        i := i + 1;
      }
      AppendRange(out, pages, start, i, Run(first, end));
      out := out + [Run(first, end)];
    }
    assert pages[..|pages|] == pages;
  }

  lemma NoRanges(pages: seq<nat>)
    ensures Canonical([]) && Exactly([], pages[..0]) && forall b :: Below([], b)
  {
  }
}
