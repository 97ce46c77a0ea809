/** What a save costs: how many slots it takes, what it stores for a record of any size, and how often. */
module StoreBookkeeping {
  import opened Arith
  import opened Flash
  import opened Paging
  import opened StoreSpec
  import opened StoreInvariant
  import opened StoreSaves
  import opened StoreRecovery

  // ---------------------------------------------------------------- the reservation table

  /** Slots a successful save adds to those in use: one for a record that had no block. */
  function NewSlots(info: Info): nat {
    if info.valid then 0 else 1
  }

  lemma BlkSaveSlots(g: Geometry, st: State, r: nat, buf: seq<byte>)
    requires WellFormed(g) && Inv(g, st) && CanSave(g, st, r, buf)
    requires g.records[r].kind.FullBlk? && st.infos[r].stamp + 1 < 0x1_0000
    ensures var after := BlkSave(g, st, r, buf);
            UsedSlots(after.st.reserved) == UsedSlots(st.reserved) + (if after.ok then NewSlots(st.infos[r]) else 0)
  {
    var free := FirstFree(g, st.reserved, 0);
    if free.Some? {
      var copy := NewCopy(g, g.records[r], buf, Bumped(st, r).infos[r].stamp);
      BlkRelocates(g, st, r, buf, free.value);
      RelocateTable(g, Bumped(st, r), r, free.value, Fill(ErasedBlock(g.pages), 0, copy));
    }
  }

  lemma PagePassSlots(g: Geometry, st: State, r: nat, buf: seq<byte>, excluded: nat)
    requires WellFormed(g) && Inv(g, st) && CanSave(g, st, r, buf)
    requires g.records[r].kind.FullPage? && Fits(g, g.records[r]) && st.infos[r].stamp + 1 < 0x1_0000
    ensures var after := PagePass(g, st, r, buf, excluded);
            && UsedSlots(after.st.reserved)
               == UsedSlots(st.reserved) + (if after.ok then NewSlots(st.infos[r]) else 0)
            && (after.ok ==> after.st.infos[r].valid)
  {
    var free := FirstFree(g, st.reserved, excluded);
    if MustMove(g, st, r) && free.Some? {
      var copy := NewCopy(g, g.records[r], buf, Bumped(st, r).infos[r].stamp);
      PageRelocates(g, st, r, buf, free.value, excluded);
      RelocateTable(g, Bumped(st, r), r, free.value, Put(ErasedBlock(g.pages), 0, copy));
    }
  }

  /** A first save takes one slot, later ones none; a save that fails has taken one only if its first copy is in. */
  lemma SaveSlots(g: Geometry, st: State, r: nat, buf: seq<byte>)
    requires WellFormed(g) && CanRun(g, st, r, buf)
    ensures var after := Save(g, st, r, buf);
            && UsedSlots(after.st.reserved)
               == UsedSlots(st.reserved) + (if after.st.infos[r].valid then NewSlots(st.infos[r]) else 0)
            && (after.ok ==> after.st.infos[r].valid)
            && forall q :: 0 <= q < |g.records| && after.st.infos[q].valid ==>
                 after.st.infos[q].blk in after.st.reserved
  {
    var after := Save(g, st, r, buf);
    SaveKeeps(g, st, r, buf);
    forall q | 0 <= q < |g.records| && after.st.infos[q].valid ensures after.st.infos[q].blk in after.st.reserved {
      assert RecordOk(g, after.st, q);
    }
    if g.records[r].kind.FullBlk? {
      BlkSaveSlots(g, st, r, buf);
    } else {
      PagePassSlots(g, st, r, buf, 0);
      PagePassKeeps(g, st, r, buf, 0);
      var first := PagePass(g, st, r, buf, 0);
      if first.ok {
        PagePassSlots(g, first.st, r, buf, first.st.infos[r].blk);
      }
    }
  }

  // ---------------------------------------------------------------- a record too large for its block

  /** Does no block but the record's own open with its name? */
  ghost predicate NoStale(g: Geometry, st: State, r: nat)
    requires WellFormed(g) && StateShaped(g, st) && r < |g.records|
  {
    forall b :: Opens(g, st.cells, g.records[r], b) ==> st.infos[r].valid && b == st.infos[r].blk
  }

  /** An oversized FullBlk record is "saved" as an erased block: nothing of it is left on the flash. */
  lemma OversizeLeavesNothing(g: Geometry, st: State, r: nat, buf: seq<byte>)
    requires WellFormed(g) && Inv(g, st) && CanSave(g, st, r, buf) && NoStale(g, st, r)
    requires g.records[r].kind.FullBlk? && st.infos[r].stamp + 1 < 0x1_0000
    requires !Fits(g, g.records[r]) && BlkSave(g, st, r, buf).ok
    ensures var after := BlkSave(g, st, r, buf).st; Inv(g, after) && Absent(g, after.cells, g.records[r])
  {
    var rec, st0 := g.records[r], Bumped(st, r);
    var n := FirstFree(g, st.reserved, 0).value;
    var content := Fill(ErasedBlock(g.pages), 0, NewCopy(g, rec, buf, st0.infos[r].stamp));
    BlkSaveKeeps(g, st, r, buf);
    BlkRelocates(g, st, r, buf, n);
    BlkContent(g, rec, buf, st0.infos[r].stamp);
    RelocateCells(g, st0, r, n, content, st.infos[r].update);
    assert rec.name != ERASED_TAG;
    var after := BlkSave(g, st, r, buf).st;
    forall b: nat | Usable(g, b) ensures !Opens(g, after.cells, rec, b) {
      assert Opens(g, st.cells, rec, b) ==> b == st.infos[r].blk;
    }
  }

  /** Without stale blocks before the save, no block but the new one can open with the record after it. */
  lemma OnlyNewOpens(g: Geometry, st: State, r: nat, buf: seq<byte>, b: nat)
    requires WellFormed(g) && Inv(g, st) && CanSave(g, st, r, buf) && NoStale(g, st, r)
    requires g.records[r].kind.FullBlk? && st.infos[r].stamp + 1 < 0x1_0000 && BlkSave(g, st, r, buf).ok
    ensures StateShaped(g, BlkSave(g, st, r, buf).st)
    ensures var after := BlkSave(g, st, r, buf).st;
            Opens(g, after.cells, g.records[r], b) ==> b == after.infos[r].blk
  {
    var rec, st0 := g.records[r], Bumped(st, r);
    var n := FirstFree(g, st.reserved, 0).value;
    var content := Fill(ErasedBlock(g.pages), 0, NewCopy(g, rec, buf, st0.infos[r].stamp));
    BlkSaveKeeps(g, st, r, buf);
    BlkRelocates(g, st, r, buf, n);
    RelocateCells(g, st0, r, n, content, st.infos[r].update);
    assert rec.name != ERASED_TAG;
    assert Opens(g, st.cells, rec, b) ==> b == st.infos[r].blk;
  }

  /**
   * Neither the size nor the place is checked, so a FullBlk save reports success for a record of any size and for
   * any block the allocator hands out.  The bytes are recovered exactly when one copy fits the pages of a block
   * and the block is one that the scan looks into.
   */
  lemma SavedExactlyIfFits(g: Geometry, st: State, r: nat, buf: seq<byte>)
    requires WellFormed(g) && Inv(g, st) && CanSave(g, st, r, buf) && NoStale(g, st, r)
    requires g.records[r].kind.FullBlk? && st.infos[r].stamp + 1 < 0x1_0000 && BlkSave(g, st, r, buf).ok
    ensures var after := BlkSave(g, st, r, buf).st;
            Shaped(g, after.cells)
            && (Recover(g, after.cells, r) == Some(buf[..g.records[r].size])
                <==> Fits(g, g.records[r]) && Findable(g, after.infos[r].blk))
  {
    BlkSaveKeeps(g, st, r, buf);
    var after := BlkSave(g, st, r, buf).st;
    if Fits(g, g.records[r]) && Findable(g, after.infos[r].blk) {
      SavedIsRecovered(g, after, r, buf);
    } else {
      if !Fits(g, g.records[r]) {
        OversizeLeavesNothing(g, st, r, buf);
      }
      forall c: nat | Findable(g, c) ensures !Opens(g, after.cells, g.records[r], c) {
        OnlyNewOpens(g, st, r, buf, c);
      }
      LocateFindsNothing(g, after.cells, g.records[r], g.start, COLD);
    }
  }

  // ---------------------------------------------------------------- replicas

  lemma {:induction false} SlotIs(i: nat, width: nat, n: nat)
    ensures Slot(i, width, n) == i + Times(n, width)
    decreases n
  {
    if n > 0 {
      SlotIs(i + width, width, n - 1);
      MulSucc(n - 1, width);
    }
  }

  /** The new block of a FullBlk save is an erased one filled with copies that carry the new stamp. */
  lemma SavedBlock(g: Geometry, st: State, r: nat, buf: seq<byte>) returns (copy: seq<Page>)
    requires WellFormed(g) && Inv(g, st) && CanSave(g, st, r, buf)
    requires g.records[r].kind.FullBlk? && BlkSave(g, st, r, buf).ok
    ensures var info, cells := BlkSave(g, st, r, buf).st.infos[r], BlkSave(g, st, r, buf).st.cells;
            && copy == NewCopy(g, g.records[r], buf, info.stamp)
            && |copy| == Pages(g, g.records[r])
            && info.blk < |cells| && cells[info.blk] == Fill(ErasedBlock(g.pages), 0, copy)
  {
    copy := NewCopy(g, g.records[r], buf, Bump(st.infos[r]).stamp);
    assert RecordOk(g, st, r);
  }

  /** After a FullBlk save every replica that fits the block reads back as the saved bytes, not only the first. */
  lemma EveryReplicaReads(g: Geometry, st: State, r: nat, buf: seq<byte>, n: nat, dst: seq<byte>)
    requires WellFormed(g) && Inv(g, st) && CanSave(g, st, r, buf)
    requires g.records[r].kind.FullBlk? && BlkSave(g, st, r, buf).ok && |dst| == g.records[r].size
    requires Times(n, Pages(g, g.records[r])) + Pages(g, g.records[r]) <= g.pages
    ensures var after := BlkSave(g, st, r, buf).st;
            var blk := after.infos[r].blk;
            blk < |after.cells| && Sized(after.cells[blk], g.pageSize)
            && ReadPages(after.cells[blk], Times(n, Pages(g, g.records[r])), g.records[r].name, dst, g.pageSize)
               == buf[..|dst|]
  {
    var copy := SavedBlock(g, st, r, buf);
    ReplicaReads(g, g.records[r], BlkSave(g, st, r, buf).st.infos[r].stamp, buf, copy, n, dst);
  }

  lemma ReplicaHolds(g: Geometry, rec: Record, stamp: nat, buf: seq<byte>, copy: seq<Page>, n: nat)
    requires WellFormed(g) && IsBuffer(g, rec, buf)
    requires copy == NewCopy(g, rec, buf, stamp) && Times(n, |copy|) + |copy| <= g.pages
    ensures |copy| > 0
    ensures var block := Fill(ErasedBlock(g.pages), 0, copy);
            Sized(block, g.pageSize) && Holds(block, Times(n, |copy|), Split(buf, g.pageSize), rec.name)
  {
    FreshCopy(g, rec, buf, stamp);
    FillShaped(ErasedBlock(g.pages), 0, copy, g.pageSize);
    var block, at := Fill(ErasedBlock(g.pages), 0, copy), Times(n, |copy|);
    SlotIs(0, |copy|, n);
    forall j | 0 <= j < |copy| ensures block[at..at + |copy|][j] == copy[j] {
      FillReplicates(ErasedBlock(g.pages), 0, copy, n, j);
    }
    assert block[at..at + |copy|] == copy;
    CopyHolds(block, at, buf, g.pageSize, rec.name, stamp);
  }

  lemma ReplicaReads(g: Geometry, rec: Record, stamp: nat, buf: seq<byte>, copy: seq<Page>, n: nat, dst: seq<byte>)
    requires WellFormed(g) && IsBuffer(g, rec, buf) && |dst| == rec.size
    requires copy == NewCopy(g, rec, buf, stamp) && Times(n, |copy|) + |copy| <= g.pages
    ensures |copy| > 0
    ensures var block := Fill(ErasedBlock(g.pages), 0, copy);
            Sized(block, g.pageSize)
            && ReadPages(block, Times(n, |copy|), rec.name, dst, g.pageSize) == buf[..|dst|]
  {
    ReplicaHolds(g, rec, stamp, buf, copy, n);
    ReadsBack(Fill(ErasedBlock(g.pages), 0, copy), Times(n, |copy|), rec.name, buf, dst, g.pageSize);
  }

  lemma FillDone(block: Block, i: nat, copy: seq<Page>)
    requires |copy| > 0 && i + |copy| > |block|
    ensures Fill(block, i, copy) == block
  {
  }

  lemma FillOne(block: Block, i: nat, copy: seq<Page>)
    requires |copy| > 0 && i + |copy| <= |block|
    ensures Fill(block, i, copy) == Fill(Put(block, i, copy), i + |copy|, copy)
  {
  }

  /** Is `at` a whole number of steps of `width` behind `i`? */
  predicate OnGrid(i: nat, width: nat, at: nat)
    requires width > 0
    decreases at - i
  {
    i == at || (i + width <= at && OnGrid(i + width, width, at))
  }

  lemma {:induction false} TimesOnGrid(i: nat, width: nat, n: nat)
    requires width > 0
    ensures OnGrid(i, width, i + Times(n, width))
    decreases n
  {
    if n > 0 {
      MulSucc(n - 1, width);
      MulNat(n - 1, width);
      TimesOnGrid(i + width, width, n - 1);
    } else {
      assert Times(0, width) == 0;
    }
  }

  lemma PutBefore(block: Block, i: nat, copy: seq<Page>, at: nat)
    requires i + |copy| <= at < |block|
    ensures Put(block, i, copy)[at] == block[at]
  {
  }

  /** Filling leaves a page that no copy has room to cover as it was. */
  lemma {:induction false} FillStopsShort(block: Block, i: nat, copy: seq<Page>, at: nat)
    requires |copy| > 0 && OnGrid(i, |copy|, at) && at < |block| < at + |copy|
    ensures Fill(block, i, copy)[at] == block[at]
    decreases at - i
  {
    if i == at {
      FillDone(block, i, copy);
    } else {
      FillOne(block, i, copy);
      PutBefore(block, i, copy, at);
      FillStopsShort(Put(block, i, copy), i + |copy|, copy, at);
    }
  }

  /**
   * Whatever reads fail, a scan of a saved FullBlk block is never misled: the first page of any slot it may be
   * looking at carries the record's tag and the new stamp, or is erased.
   */
  lemma AnySlotIdentifies(g: Geometry, st: State, r: nat, buf: seq<byte>, n: nat)
    requires WellFormed(g) && Inv(g, st) && CanSave(g, st, r, buf)
    requires g.records[r].kind.FullBlk? && BlkSave(g, st, r, buf).ok
    requires Times(n, Pages(g, g.records[r])) < g.pages
    ensures var after := BlkSave(g, st, r, buf).st;
            var info := after.infos[r];
            info.blk < |after.cells| && |after.cells[info.blk]| == g.pages
            && var p := after.cells[info.blk][Times(n, Pages(g, g.records[r]))];
               p == Erased || (p.Programmed? && p.name == g.records[r].name && p.stamp == info.stamp)
  {
    var copy := SavedBlock(g, st, r, buf);
    FreshCopy(g, g.records[r], buf, BlkSave(g, st, r, buf).st.infos[r].stamp);
    SlotHolds(ErasedBlock(g.pages), 0, copy, n, Times(n, |copy|));
  }

  lemma SlotHolds(block: Block, i: nat, copy: seq<Page>, n: nat, at: nat)
    requires |copy| > 0 && at == i + Times(n, |copy|) && at < |block|
    ensures Fill(block, i, copy)[at] == if at + |copy| <= |block| then copy[0] else block[at]
  {
    if at + |copy| <= |block| {
      SlotIs(i, |copy|, n);
      FillReplicates(block, i, copy, n, 0);
    } else {
      TimesOnGrid(i, |copy|, n);
      FillStopsShort(block, i, copy, at);
    }
  }

  // ---------------------------------------------------------------- where runs begin

  /** A flash without any record, an empty table and an empty index: the state a new chip starts in. */
  lemma BlankStart(g: Geometry, cells: Cells)
    requires WellFormed(g) && Shaped(g, cells)
    requires forall r :: 0 <= r < |g.records| ==> Absent(g, cells, g.records[r])
    ensures Inv(g, Boot(g, cells))
    ensures Boot(g, cells) == State(cells, seq(RESERVED_BLOCK_CNT, _ => FREE_SLOT), seq(|g.records|, _ => COLD))
  {
    var st := State(cells, seq(RESERVED_BLOCK_CNT, _ => FREE_SLOT), seq(|g.records|, _ => COLD));
    BlankBoot(g, st, 0);
    forall r | 0 <= r < |g.records| ensures RecordOk(g, st, r) {
    }
  }

  lemma {:induction false} BlankBoot(g: Geometry, st: State, k: nat)
    requires WellFormed(g) && StateShaped(g, st) && st.infos == seq(|g.records|, _ => COLD)
    requires forall r :: 0 <= r < |g.records| ==> Absent(g, st.cells, g.records[r])
    ensures BootFrom(g, st, k) == st
    decreases |g.records| - k
  {
    if k < |g.records| {
      ScanFindsNothing(g, st.cells, k);
      assert st.infos[k := COLD] == st.infos;
      BlankBoot(g, st, k + 1);
    }
  }
}
