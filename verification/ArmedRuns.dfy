/** The write tracker's record of what is armed: a run map and, beside it, a byte count that
    every operation adjusts by what the run map reports. The capacity check of ArmFault
    relies on the count alone.
 */
module ArmedRuns {
  import opened RunMaps

  /** Every range has a byte. */
  predicate Proper(rs: seq<Run>) {
    forall i :: 0 <= i < |rs| ==> rs[i].first < rs[i].end
  }

  class Armed {
    const armed: RunMap
    var armedBytes: nat

    ghost predicate Valid()
      reads this, armed
    {
      Canonical(armed.runs) && armedBytes == Total(armed.runs)
    }

    constructor ()
      ensures Valid() && fresh(armed) && armed.runs == []
    {
      armed := new RunMap();
      armedBytes := 0;
    }

    /** After a successful ArmFault. */
    method Insert(first: nat, end: nat)
      requires Valid() && first < end
      modifies this, armed
      ensures Valid()
      ensures forall a :: Covers(armed.runs, a) <==> Covers(old(armed.runs), a) || Within(first, a, end)
    {
      hide Canonical, Covers, Total;
      var added := armed.InsertRun(first, end);
      armedBytes := armedBytes + added;
    }

    /** After DisarmFault. The count never goes below zero. */
    method Erase(first: nat, end: nat)
      requires Valid() && first < end
      modifies this, armed
      ensures Valid()
      ensures forall a :: Covers(armed.runs, a) <==> Covers(old(armed.runs), a) && !Within(first, a, end)
    {
      hide Canonical, Covers, Total;
      var removed := armed.EraseRun(first, end);
      armedBytes := armedBytes - removed;
    }

    /** TakeFaulted, Drain and EndFrame: range after range. */
    method EraseAll(ranges: seq<Run>)
      requires Valid() && Proper(ranges)
      modifies this, armed
      ensures Valid()
      ensures forall a :: Covers(armed.runs, a) <==> Covers(old(armed.runs), a) && !Covers(ranges, a)
    {
      hide Canonical, Covers, Total;
      NothingCovered();
      assert ranges[..0] == [];
      for i := 0 to |ranges|
        invariant Valid()
        invariant forall a :: Covers(armed.runs, a) <==> Covers(old(armed.runs), a) && !Covers(ranges[..i], a)
      {
        Erase(ranges[i].first, ranges[i].end);
        CoversNext(ranges, i);
      }
      assert ranges[..|ranges|] == ranges;
    }

    /** Arming in scan mode: only the gaps are inserted, which covers the whole range. */
    method InsertGaps(first: nat, end: nat)
      requires Valid()
      modifies this, armed
      ensures Valid()
      ensures forall a :: Covers(armed.runs, a) <==> Covers(old(armed.runs), a) || Within(first, a, end)
    {
      hide Canonical, Covers, Total;
      var gaps := armed.Gaps(first, end);
      CanonicalProper(gaps);
      NothingCovered();
      assert gaps[..0] == [];
      for i := 0 to |gaps|
        invariant Valid()
        invariant forall a :: Covers(armed.runs, a) <==> Covers(old(armed.runs), a) || Covers(gaps[..i], a)
      {
        Insert(gaps[i].first, gaps[i].end);
        CoversNext(gaps, i);
      }
      assert gaps[..|gaps|] == gaps;
    }

    /** The count is the number of armed addresses. */
    lemma CountsAddresses()
      requires Valid()
      ensures armedBytes == |Addresses(armed.runs)|
      ensures forall a :: a in Addresses(armed.runs) <==> Covers(armed.runs, a)
    {
      TotalIsCardinality(armed.runs);
      forall a ensures a in Addresses(armed.runs) <==> Covers(armed.runs, a) {
        AddressesAreCovered(armed.runs, a);
      }
    }
  }

  lemma NothingCovered()
    ensures forall a :: !Covers([], a)
  {
  }

  lemma CanonicalProper(s: seq<Run>)
    requires Canonical(s)
    ensures Proper(s)
  {
  }

  lemma CoversNext(s: seq<Run>, i: nat)
    requires i < |s|
    ensures forall a :: Covers(s[..i + 1], a) <==> Covers(s[..i], a) || Within(s[i].first, a, s[i].end)
  {
    hide Covers;
    assert s[..i + 1] == s[..i] + [s[i]];
    forall a ensures Covers(s[..i + 1], a) <==> Covers(s[..i], a) || Within(s[i].first, a, s[i].end) {
      CoversConcat(s[..i], [s[i]], a);
      CoversOne(s[i], a);
    }
  }
}
