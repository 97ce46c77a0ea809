/** The reservation table: a block is added once, freed once, and a free block always means a free slot. */
module StoreReserved {
  import opened StoreSpec
  import opened StoreInvariant

  lemma {:induction false} UsedSlotsUpdate(s: seq<nat>, i: nat, v: nat)
    requires i < |s|
    ensures UsedSlots(s[i := v]) + (if s[i] == FREE_SLOT then 0 else 1)
            == UsedSlots(s) + (if v == FREE_SLOT then 0 else 1)
  {
    if i == 0 {
      assert s[0 := v][1..] == s[1..];
    } else {
      assert s[i := v][1..] == s[1..][i - 1 := v];
      UsedSlotsUpdate(s[1..], i - 1, v);
    }
  }

  /** The blocks of a stretch of the table that are not factory bad. */
  ghost function Sound(status: seq<Status>, from: nat, end: nat): set<nat>
    requires end <= |status|
  {
    set b: nat | from <= b < end && !status[b].FactoryBad?
  }

  lemma {:induction false} SoundCount(status: seq<Status>, from: nat, need: nat)
    requires from <= |status| && Enough(status, from, need)
    ensures |Sound(status, from, RegionEnd(status, from, need))| == need
    decreases |status| - from
  {
    var end := RegionEnd(status, from, need);
    if need == 0 {
      assert Sound(status, from, end) == {};
    } else {
      SoundCount(status, from + 1, if status[from].FactoryBad? then need else need - 1);
      SoundStep(status, from, end);
    }
  }

  lemma SoundStep(status: seq<Status>, from: nat, end: nat)
    requires from < end <= |status|
    ensures |Sound(status, from, end)|
            == |Sound(status, from + 1, end)| + if status[from].FactoryBad? then 0 else 1
  {
    var rest := Sound(status, from + 1, end);
    assert Sound(status, from, end) == if status[from].FactoryBad? then rest else {from} + rest;
  }

  ghost function Members(s: seq<nat>): set<nat> {
    set x | x in s
  }

  lemma {:induction false} DistinctCount(s: seq<nat>)
    requires forall i, j :: 0 <= i < j < |s| ==> s[i] != s[j]
    ensures |Members(s)| == |s|
  {
    if s == [] {
      assert Members(s) == {};
    } else {
      var rest := s[1..];
      DistinctCount(rest);
      assert s[0] !in rest;
      assert Members(s) == {s[0]} + Members(rest);
    }
  }

  lemma SubsetCount(a: set<nat>, b: set<nat>)
    requires a <= b
    ensures |a| <= |b|
  {
    assert b == a + (b - a);
  }

  /** Forty-eight slots, forty-eight usable blocks: if one of the blocks is not listed, a slot is free. */
  lemma SlotAvailable(g: Geometry, reserved: seq<nat>, n: nat)
    requires WellFormed(g) && |reserved| == RESERVED_BLOCK_CNT && ReservedOk(g, reserved)
    requires Usable(g, n) && n !in reserved
    ensures FREE_SLOT in reserved
  {
    if FREE_SLOT !in reserved {
      var sound := Sound(g.status, g.start, End(g));
      SoundCount(g.status, g.start, RESERVED_BLOCK_CNT);
      DistinctCount(reserved);
      forall x | x in Members(reserved) ensures x in sound - {n} {
        assert Usable(g, x);
      }
      SubsetCount(Members(reserved), sound - {n});
      assert false;
    }
  }

  lemma ReserveEffect(g: Geometry, reserved: seq<nat>, n: nat)
    requires WellFormed(g) && |reserved| == RESERVED_BLOCK_CNT && ReservedOk(g, reserved)
    requires Usable(g, n) && n !in reserved
    ensures var after := Reserve(reserved, n);
            && ReservedOk(g, after)
            && UsedSlots(after) == UsedSlots(reserved) + 1
            && n in after
            && forall x :: x != n && x != FREE_SLOT ==> (x in after <==> x in reserved)
  {
    SlotAvailable(g, reserved, n);
    var i := FirstIndex(reserved, FREE_SLOT);
    var after := reserved[i := n];
    assert Reserve(reserved, n) == after;
    UsedSlotsUpdate(reserved, i, n);
    assert after[i] == n;
    forall x | x != n && x != FREE_SLOT ensures x in after <==> x in reserved {
      if x in reserved {
        var j :| 0 <= j < |reserved| && reserved[j] == x;
        assert after[j] == x;
      }
    }
  }

  lemma ReleaseEffect(g: Geometry, reserved: seq<nat>, b: nat)
    requires WellFormed(g) && ReservedOk(g, reserved) && b in reserved && b != FREE_SLOT
    ensures var after := Release(reserved, b);
            && ReservedOk(g, after)
            && UsedSlots(after) + 1 == UsedSlots(reserved)
            && b !in after
            && forall x :: x != b && x != FREE_SLOT ==> (x in after <==> x in reserved)
  {
    var i := FirstIndex(reserved, b);
    var after := reserved[i := FREE_SLOT];
    assert Release(reserved, b) == after;
    UsedSlotsUpdate(reserved, i, FREE_SLOT);
    forall x | x != b && x != FREE_SLOT ensures x in after <==> x in reserved {
      if x in reserved {
        var j :| 0 <= j < |reserved| && reserved[j] == x;
        assert after[j] == x;
      }
    }
  }
}
