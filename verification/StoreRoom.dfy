/** When a save always finds a block, and one that the recovery scan will look into. */
module StoreRoom {
  import opened Flash
  import opened StoreSpec
  import opened StoreInvariant
  import opened StoreReserved
  import opened StoreSaves
  import opened StoreRecovery

  predicate HasBlock(info: Info, x: nat) {
    info.valid && info.blk == x
  }

  ghost predicate Owned(infos: seq<Info>, x: nat) {
    exists r :: 0 <= r < |infos| && HasBlock(infos[r], x)
  }

  /** Every used slot of the reservation table is the block of a valid record. */
  ghost predicate AllOwned(st: State) {
    forall x: nat :: x in st.reserved && x != FREE_SLOT ==> Owned(st.infos, x)
  }

  /** The scan looks into the block of every valid record. */
  ghost predicate InWindow(g: Geometry, st: State)
    requires |st.infos| == |g.records|
  {
    forall q :: 0 <= q < |g.records| && st.infos[q].valid ==> Findable(g, st.infos[q].blk)
  }

  ghost predicate AllFit(g: Geometry)
    requires WellFormed(g)
  {
    forall q :: 0 <= q < |g.records| ==> Fits(g, g.records[q])
  }

  /**
   * The lowest blocks that the allocator may hand out, one more than there are records, are blocks that the scan
   * looks into.  Factory-bad blocks may lie between them.
   */
  ghost predicate Roomy(g: Geometry)
    requires WellFormed(g)
  {
    |g.records| < RESERVED_BLOCK_CNT && Enough(g.status, g.start, |g.records| + 1)
    && forall b: nat :: Usable(g, b) && b < RegionEnd(g.status, g.start, |g.records| + 1) ==> Findable(g, b)
  }

  ghost predicate Healthy(g: Geometry)
    requires WellFormed(g)
  {
    AllFit(g) && Roomy(g)
  }

  /** What a run keeps: the store invariant, every record within reach of the scan, no slot without a record. */
  ghost predicate Settled(g: Geometry, st: State)
    requires WellFormed(g)
  {
    Inv(g, st) && InWindow(g, st) && AllOwned(st)
  }

  // ---------------------------------------------------------------- the pigeonhole

  ghost function Blocks(infos: seq<Info>): set<nat> {
    set q | 0 <= q < |infos| :: infos[q].blk
  }

  lemma {:induction false} BlocksCount(infos: seq<Info>)
    ensures |Blocks(infos)| <= |infos|
  {
    if infos == [] {
      assert Blocks(infos) == {};
    } else {
      var last := |infos| - 1;
      BlocksCount(infos[..last]);
      assert Blocks(infos) == Blocks(infos[..last]) + {infos[last].blk};
    }
  }

  lemma {:induction false} RegionEndGrows(status: seq<Status>, from: nat, less: nat, need: nat)
    requires less <= need && Enough(status, from, less) && Enough(status, from, need)
    ensures RegionEnd(status, from, less) <= RegionEnd(status, from, need)
    decreases |status| - from
  {
    if less > 0 {
      if status[from].FactoryBad? {
        RegionEndGrows(status, from + 1, less, need);
      } else {
        RegionEndGrows(status, from + 1, less - 1, need - 1);
      }
    }
  }

  /** Among the lowest blocks, one more than there are records, some block belongs to no record. */
  lemma SomeBlockLeft(g: Geometry, infos: seq<Info>) returns (b: nat)
    requires WellFormed(g) && Roomy(g) && |infos| == |g.records|
    ensures Usable(g, b) && b < RegionEnd(g.status, g.start, |g.records| + 1) && b !in Blocks(infos)
  {
    var need := |g.records| + 1;
    var end := RegionEnd(g.status, g.start, need);
    var low := Sound(g.status, g.start, end);
    SoundCount(g.status, g.start, need);
    BlocksCount(infos);
    RegionEndGrows(g.status, g.start, need, RESERVED_BLOCK_CNT);
    if low <= Blocks(infos) {
      SubsetCount(low, Blocks(infos));
      assert false;
    }
    b :| b in low && b !in Blocks(infos);
  }

  /** In a settled store the allocator always has a block, and one that the scan looks into. */
  lemma FreeBlockInWindow(g: Geometry, st: State, excluded: nat)
    requires WellFormed(g) && Roomy(g) && Settled(g, st)
    requires excluded == 0 || excluded in st.reserved
    ensures var free := FirstFree(g, st.reserved, excluded); free.Some? && Findable(g, free.value)
  {
    var b := SomeBlockLeft(g, st.infos);
    assert !Owned(st.infos, b);
    assert Candidate(g, st.reserved, excluded, b);
  }

  // ---------------------------------------------------------------- saves keep the store settled

  lemma BumpSettled(g: Geometry, st: State, r: nat)
    requires WellFormed(g) && Settled(g, st) && r < |g.records| && st.infos[r].stamp + 1 < 0x1_0000
    ensures Settled(g, Bumped(st, r))
  {
    BumpKeeps(g, st, r);
    var post := Bumped(st, r);
    forall x: nat | x in st.reserved && x != FREE_SLOT ensures Owned(post.infos, x) {
      var q :| 0 <= q < |st.infos| && HasBlock(st.infos[q], x);
      assert HasBlock(post.infos[q], x);
    }
  }

  lemma RelocateSettled(g: Geometry, st: State, r: nat, n: nat, content: Block, update: bool)
    requires WellFormed(g) && Settled(g, st) && CanRelocate(g, st, r, n, content) && Findable(g, n)
    requires Inv(g, Relocate(g, st, r, n, content, update))
    ensures Settled(g, Relocate(g, st, r, n, content, update))
  {
    var post := Relocate(g, st, r, n, content, update);
    RelocateTable(g, st, r, n, content);
    RelocateMoves(g, st, r, n, content, update);
    forall x: nat | x in post.reserved && x != FREE_SLOT ensures Owned(post.infos, x) {
      if x == n {
        assert HasBlock(post.infos[r], x);
      } else {
        var q :| 0 <= q < |st.infos| && HasBlock(st.infos[q], x);
        assert HasBlock(post.infos[q], x);
      }
    }
  }

  lemma BlkSaveSettled(g: Geometry, st: State, r: nat, buf: seq<byte>)
    requires WellFormed(g) && Roomy(g) && Settled(g, st) && CanSave(g, st, r, buf)
    requires g.records[r].kind.FullBlk? && st.infos[r].stamp + 1 < 0x1_0000
    ensures BlkSave(g, st, r, buf).ok && Settled(g, BlkSave(g, st, r, buf).st)
  {
    FreeBlockInWindow(g, st, 0);
    var n, st0 := FirstFree(g, st.reserved, 0).value, Bumped(st, r);
    var copy := NewCopy(g, g.records[r], buf, st0.infos[r].stamp);
    BumpSettled(g, st, r);
    BlkRelocates(g, st, r, buf, n);
    BlkSaveKeeps(g, st, r, buf);
    RelocateSettled(g, st0, r, n, Fill(ErasedBlock(g.pages), 0, copy), st.infos[r].update);
  }

  lemma PagePassSettled(g: Geometry, st: State, r: nat, buf: seq<byte>, excluded: nat)
    requires WellFormed(g) && Roomy(g) && Settled(g, st) && CanSave(g, st, r, buf)
    requires g.records[r].kind.FullPage? && Fits(g, g.records[r]) && st.infos[r].stamp + 1 < 0x1_0000
    requires excluded == 0 || excluded in st.reserved
    ensures var after := PagePass(g, st, r, buf, excluded);
            && after.ok && Settled(g, after.st) && after.st.infos[r].valid
            && after.st.infos[r].blk in after.st.reserved
  {
    var st0, after := Bumped(st, r), PagePass(g, st, r, buf, excluded);
    BumpSettled(g, st, r);
    PagePassKeeps(g, st, r, buf, excluded);
    if MustMove(g, st, r) {
      FreeBlockInWindow(g, st, excluded);
      var n := FirstFree(g, st.reserved, excluded).value;
      var copy := NewCopy(g, g.records[r], buf, st0.infos[r].stamp);
      PageRelocates(g, st, r, buf, n, excluded);
      RelocateSettled(g, st0, r, n, Put(ErasedBlock(g.pages), 0, copy), false);
    } else {
      AppendSettled(st0, after.st, r);
    }
    assert RecordOk(g, after.st, r);
  }

  lemma AppendSettled(st: State, post: State, r: nat)
    requires AllOwned(st) && r < |st.infos| && |post.infos| == |st.infos| && post.reserved == st.reserved
    requires post.infos == st.infos[r := post.infos[r]]
    requires post.infos[r].valid == st.infos[r].valid && post.infos[r].blk == st.infos[r].blk
    ensures AllOwned(post)
  {
    forall x: nat | x in post.reserved && x != FREE_SLOT ensures Owned(post.infos, x) {
      var q :| 0 <= q < |st.infos| && HasBlock(st.infos[q], x);
      assert HasBlock(post.infos[q], x);
    }
  }

  /** On a healthy chip every save that may run succeeds, and leaves the store settled. */
  lemma SaveSettled(g: Geometry, st: State, r: nat, buf: seq<byte>)
    requires WellFormed(g) && Healthy(g) && Settled(g, st) && CanRun(g, st, r, buf)
    ensures Save(g, st, r, buf).ok && Settled(g, Save(g, st, r, buf).st)
  {
    if g.records[r].kind.FullBlk? {
      BlkSaveSettled(g, st, r, buf);
    } else {
      PagePassSettled(g, st, r, buf, 0);
      PagePassKeeps(g, st, r, buf, 0);
      var first := PagePass(g, st, r, buf, 0).st;
      PagePassSettled(g, first, r, buf, first.infos[r].blk);
    }
  }
}
