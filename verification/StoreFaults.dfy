/**
 * What a cold scan makes of a flash with bad blocks, torn blocks and unreadable pages: exactly when it still
 * finds a record, and what is lost when it does not.
 */
module StoreFaults {
  import opened Arith
  import opened Flash
  import opened Paging
  import opened StoreSpec
  import opened StoreInvariant
  import opened StoreSaves
  import opened StoreRecovery
  import opened StoreBookkeeping
  import opened StoreActs
  import opened StoreEffects

  // ---------------------------------------------------------------- is anything found at all?

  lemma {:induction false} LocateSees(g: Geometry, cells: Cells, rec: Record, b: nat, info: Info, c: nat)
    requires WellFormed(g) && Shaped(g, cells) && g.start <= b <= g.start + RESERVED_BLOCK_CNT
    requires info.valid || (b <= c && Findable(g, c) && Opens(g, cells, rec, c))
    ensures Locate(g, cells, rec, b, g.start + RESERVED_BLOCK_CNT, info).valid
    decreases g.start + RESERVED_BLOCK_CNT - b
  {
    if b < g.start + RESERVED_BLOCK_CNT {
      if !g.status[b].Good? {
        LocateSees(g, cells, rec, b + 1, info, c);
      } else {
        var next := Visit(info, b, cells[b][0], rec.name);
        if !(rec.kind.FullBlk? && next.valid && next.blk != 0) {
          LocateSees(g, cells, rec, b + 1, next, c);
        }
      }
    }
  }

  /** Something is recovered for a record iff some block that the scan looks into opens with its tag. */
  lemma RecoversIff(g: Geometry, cells: Cells, r: nat)
    requires WellFormed(g) && Shaped(g, cells) && r < |g.records|
    ensures Recover(g, cells, r).Some? <==> exists c: nat :: Findable(g, c) && Opens(g, cells, g.records[r], c)
  {
    var rec := g.records[r];
    if c: nat :| Findable(g, c) && Opens(g, cells, rec, c) {
      LocateSees(g, cells, rec, g.start, COLD, c);
    } else {
      LocateFindsNothing(g, cells, rec, g.start, COLD);
    }
  }

  /**
   * A successful save into a block that the scan does not look into: the record is in the index and on the flash,
   * but a restart recovers nothing for it, unless an older block that the scan does look into still opens with it.
   */
  lemma SavedOutOfReach(g: Geometry, st: State, r: nat, buf: seq<byte>)
    requires WellFormed(g) && CanRun(g, st, r, buf) && Save(g, st, r, buf).ok
    requires !Findable(g, Save(g, st, r, buf).st.infos[r].blk)
    ensures var after := Save(g, st, r, buf).st;
            && Inv(g, after) && Saved(g, after, r, buf)
            && (Recover(g, after.cells, r) == None <==>
                  forall c: nat :: Findable(g, c) && c != after.infos[r].blk ==>
                    !Opens(g, after.cells, g.records[r], c))
  {
    SaveKeeps(g, st, r, buf);
    RecoversIff(g, Save(g, st, r, buf).st.cells, r);
  }

  /** The first reserved block went bad in use: the first FullBlk save takes it, and a restart finds nothing. */
  lemma FirstSaveOutOfReach(g: Geometry, cells: Cells, r: nat, buf: seq<byte>)
    requires WellFormed(g) && Shaped(g, cells) && g.start < |g.status| && g.status[g.start].UsedBad?
    requires forall q :: 0 <= q < |g.records| ==> Absent(g, cells, g.records[q])
    requires r < |g.records| && g.records[r].kind.FullBlk? && Fits(g, g.records[r]) && IsBuffer(g, g.records[r], buf)
    ensures var st := Boot(g, cells);
            && CanRun(g, st, r, buf) && Save(g, st, r, buf).ok
            && Inv(g, Save(g, st, r, buf).st) && Save(g, st, r, buf).st.infos[r].blk == g.start
            && Recover(g, Save(g, st, r, buf).st.cells, r) == None
  {
    var st := Boot(g, cells);
    BlankStart(g, cells);
    assert CanRun(g, st, r, buf);
    assert g.start < End(g) <= FREE_SLOT;
    FirstFreeIs(g, st.reserved, 0, g.start);
    SavedOutOfReach(g, st, r, buf);
    var after := Save(g, st, r, buf).st;
    forall c: nat | Findable(g, c) && c != g.start ensures !Opens(g, after.cells, g.records[r], c) {
      assert after.cells[c] == cells[c];
      assert !Opens(g, cells, g.records[r], c);
    }
  }

  // ---------------------------------------------------------------- which block of a FullBlk record is found

  /** Block `n` is the lowest that the scan looks into and that opens with the record. */
  ghost predicate Lowest(g: Geometry, cells: Cells, rec: Record, n: nat)
    requires WellFormed(g) && Shaped(g, cells)
  {
    Findable(g, n) && Opens(g, cells, rec, n) && NoneBelow(g, cells, rec, n)
  }

  ghost predicate NoneBelow(g: Geometry, cells: Cells, rec: Record, n: nat)
    requires WellFormed(g) && Shaped(g, cells)
  {
    forall c: nat :: c < n && Findable(g, c) ==> !Opens(g, cells, rec, c)
  }

  lemma {:induction false} LocateLowest(g: Geometry, cells: Cells, rec: Record, b: nat, n: nat)
    requires WellFormed(g) && Shaped(g, cells) && rec.kind.FullBlk?
    requires g.start <= b <= g.start + RESERVED_BLOCK_CNT
    requires forall c: nat :: c < b && Findable(g, c) ==> !Opens(g, cells, rec, c)
    ensures var info := Locate(g, cells, rec, b, g.start + RESERVED_BLOCK_CNT, COLD);
            info.valid && info.blk == n <==> Lowest(g, cells, rec, n)
    decreases g.start + RESERVED_BLOCK_CNT - b
  {
    if b < g.start + RESERVED_BLOCK_CNT {
      if !g.status[b].Good? || TagOf(cells[b][0]) != rec.name {
        LocateLowest(g, cells, rec, b + 1, n);
      } else {
        assert Findable(g, b) && Opens(g, cells, rec, b);
      }
    }
  }

  /** On any flash, torn blocks and all, the scan for a FullBlk record settles on block `n` iff `n` is the lowest. */
  lemma BlkScanIff(g: Geometry, cells: Cells, r: nat, n: nat)
    requires WellFormed(g) && Shaped(g, cells) && r < |g.records| && g.records[r].kind.FullBlk?
    ensures Scan(g, cells, r).valid && Scan(g, cells, r).blk == n <==> Lowest(g, cells, g.records[r], n)
    ensures Lowest(g, cells, g.records[r], n) ==>
              Scan(g, cells, r).page == 0
              && Recover(g, cells, r)
                 == Some(ReadPages(cells[n], 0, g.records[r].name, seq(g.records[r].size, _ => 0 as byte), g.pageSize))
  {
    LocateLowest(g, cells, g.records[r], g.start, n);
  }

  // ---------------------------------------------------------------- which block of a FullPage record is found

  /** Block `n` opens with the record, with a greater stamp than every other one below `end`, or the same and lower. */
  ghost predicate Leads(g: Geometry, cells: Cells, rec: Record, end: nat, n: nat)
    requires WellFormed(g) && Shaped(g, cells)
  {
    n < end && Findable(g, n) && Opens(g, cells, rec, n)
    && forall c: nat :: c < end && c != n && Findable(g, c) && Opens(g, cells, rec, c) ==>
         var mine, other := StampOf(First(cells, n)), StampOf(First(cells, c));
         other < mine || (other == mine && n < c)
  }

  /** The entry of a walk that has come to block `b`: the leading block so far, or nothing when there is none. */
  ghost predicate AtLeader(g: Geometry, cells: Cells, rec: Record, b: nat, info: Info)
    requires WellFormed(g) && Shaped(g, cells)
  {
    if info.valid then Leads(g, cells, rec, b, info.blk) && info.stamp == StampOf(First(cells, info.blk))
    else forall c: nat :: c < b && Findable(g, c) ==> !Opens(g, cells, rec, c)
  }

  lemma VisitLeads(g: Geometry, cells: Cells, rec: Record, b: nat, info: Info)
    requires WellFormed(g) && Shaped(g, cells) && rec.kind.FullPage? && Findable(g, b)
    requires AtLeader(g, cells, rec, b, info)
    ensures AtLeader(g, cells, rec, b + 1, Visit(info, b, cells[b][0], rec.name))
  {
    assert Opens(g, cells, rec, b) <==> TagOf(cells[b][0]) == rec.name;
  }

  lemma {:induction false} LocateLeads(g: Geometry, cells: Cells, rec: Record, b: nat, info: Info)
    requires WellFormed(g) && Shaped(g, cells) && rec.kind.FullPage?
    requires g.start <= b <= g.start + RESERVED_BLOCK_CNT && AtLeader(g, cells, rec, b, info)
    ensures AtLeader(g, cells, rec, g.start + RESERVED_BLOCK_CNT,
                     Locate(g, cells, rec, b, g.start + RESERVED_BLOCK_CNT, info))
    decreases g.start + RESERVED_BLOCK_CNT - b
  {
    if b < g.start + RESERVED_BLOCK_CNT {
      if g.status[b].Good? {
        VisitLeads(g, cells, rec, b, info);
        LocateLeads(g, cells, rec, b + 1, Visit(info, b, cells[b][0], rec.name));
      } else {
        assert AtLeader(g, cells, rec, b + 1, info);
        LocateLeads(g, cells, rec, b + 1, info);
      }
    }
  }

  /**
   * On any flash, torn blocks and all, the scan for a FullPage record settles on block `n` iff, among the blocks that
   * it looks into and that open with the record, `n` has the greatest stamp on its first page, the lowest of equals.
   */
  lemma PageScanIff(g: Geometry, cells: Cells, r: nat, n: nat)
    requires WellFormed(g) && Shaped(g, cells) && r < |g.records| && g.records[r].kind.FullPage?
    ensures Scan(g, cells, r).valid && Scan(g, cells, r).blk == n
            <==> Leads(g, cells, g.records[r], g.start + RESERVED_BLOCK_CNT, n)
  {
    LocateLeads(g, cells, g.records[r], g.start, COLD);
  }

  /**
   * A FullPage record is moving to block `n`, and its old block, which opens with stamp `t`, has not been erased: the
   * scan settles on the new copy iff the stamp, counted up to `s + 1` in sixteen bits, did not wrap; or, when the old
   * block opens with stamp 0 itself, iff the new one is lower.
   */
  lemma MovedFoundIff(g: Geometry, cells: Cells, r: nat, prev: nat, n: nat, t: nat, info: Info)
    requires WellFormed(g) && Shaped(g, cells) && r < |g.records| && g.records[r].kind.FullPage?
    requires prev != n && Findable(g, prev) && Findable(g, n)
    requires forall c: nat :: Findable(g, c) ==> (Opens(g, cells, g.records[r], c) <==> c == prev || c == n)
    requires StampOf(First(cells, prev)) == t <= info.stamp < 0x1_0000
    requires StampOf(First(cells, n)) == Bump(info).stamp
    ensures Scan(g, cells, r).valid && Scan(g, cells, r).blk in {prev, n}
    ensures Scan(g, cells, r).blk == n <==> info.stamp < 0xffff || (t == 0 && n < prev)
  {
    PageScanIff(g, cells, r, n);
    PageScanIff(g, cells, r, prev);
  }

  /**
   * A FullBlk save that ended in block `n`, on the first try or a later one, is what a cold scan finds iff the scan
   * looks into `n` and into no lower block that opens with the record; then it recovers the saved bytes.
   */
  lemma BlkSaveFoundIff(g: Geometry, cells: Cells, r: nat, buf: seq<byte>, stamp: nat, n: nat)
    requires WellFormed(g) && Shaped(g, cells) && r < |g.records| && g.records[r].kind.FullBlk?
    requires Fits(g, g.records[r]) && IsBuffer(g, g.records[r], buf) && Usable(g, n)
    requires cells[n] == Fill(ErasedBlock(g.pages), 0, NewCopy(g, g.records[r], buf, stamp))
    ensures Scan(g, cells, r).valid && Scan(g, cells, r).blk == n
            <==> Findable(g, n) && NoneBelow(g, cells, g.records[r], n)
    ensures Findable(g, n) && NoneBelow(g, cells, g.records[r], n) ==>
              Recover(g, cells, r) == Some(buf[..g.records[r].size])
  {
    var rec := g.records[r];
    BlkScanIff(g, cells, r, n);
    BlkContent(g, rec, buf, stamp);
    assert cells[n][0] == First(cells, n);
    if Lowest(g, cells, rec, n) {
      ReadsBack(cells[n], 0, rec.name, buf, seq(rec.size, _ => 0 as byte), g.pageSize);
    }
  }

  /**
   * A FullBlk save that failed left the old block `n` alone: if a scan found it before, one finds it after iff no
   * lower block that the scan looks into now opens with the record, and then recovers what it did before.
   */
  lemma FailedBlkSaveFoundIff(g: Geometry, before: Cells, after: Cells, r: nat, n: nat)
    requires WellFormed(g) && Shaped(g, before) && Shaped(g, after) && r < |g.records| && g.records[r].kind.FullBlk?
    requires Lowest(g, before, g.records[r], n) && after[n] == before[n]
    ensures Scan(g, after, r).valid && Scan(g, after, r).blk == n <==> NoneBelow(g, after, g.records[r], n)
    ensures NoneBelow(g, after, g.records[r], n) ==> Recover(g, after, r) == Recover(g, before, r)
  {
    BlkScanIff(g, before, r, n);
    BlkScanIff(g, after, r, n);
    assert First(after, n) == First(before, n);
  }

  // ---------------------------------------------------------------- an append that failed and was repeated

  /**
   * A FullPage save may report success with its only copy behind erased pages: the scan, which looks at the first
   * page of a block, then recovers nothing, unless another block that it looks into opens with the record.
   */
  lemma StrandedIsLost(g: Geometry, st: State, r: nat, buf: seq<byte>)
    requires WellFormed(g) && Stranded(g, st, r, buf)
    ensures Recover(g, st.cells, r) == None
            <==> forall c: nat :: Findable(g, c) && c != st.infos[r].blk ==> !Opens(g, st.cells, g.records[r], c)
  {
    RecoversIff(g, st.cells, r);
    assert g.records[r].name != ERASED_TAG;
    assert First(st.cells, st.infos[r].blk) == Erased;
  }

  /** The state after an append in place that failed once, whose test was passed, and that then went in. */
  function Repeated(g: Geometry, st: State, r: nat, buf: seq<byte>): State
    requires CanSave(g, st, r, buf) && Fits(g, g.records[r]) && !MustMove(g, st, r)
  {
    var info := Bump(st.infos[r]);
    var at := info.page + Pages(g, g.records[r]);
    st.(cells := st.cells[info.blk := Put(ErasedBlock(g.pages), at, NewCopy(g, g.records[r], buf, info.stamp))],
        infos := st.infos[r := info.(page := at)])
  }

  lemma RepeatedIsStranded(g: Geometry, st: State, r: nat, buf: seq<byte>)
    requires WellFormed(g) && Inv(g, st) && CanSave(g, st, r, buf)
    requires g.records[r].kind.FullPage? && Fits(g, g.records[r]) && !MustMove(g, st, r)
    ensures Stranded(g, Repeated(g, st, r, buf), r, buf)
  {
    var info := Bump(st.infos[r]);
    var at := info.page + Pages(g, g.records[r]);
    assert RecordOk(g, st, r);
    AloneShaped(g, g.records[r], buf, info.stamp, at);
    StaysShaped(g, st.cells, info.blk, Put(ErasedBlock(g.pages), at, NewCopy(g, g.records[r], buf, info.stamp)));
  }

  lemma AloneShaped(g: Geometry, rec: Record, buf: seq<byte>, stamp: nat, at: nat)
    requires WellFormed(g) && IsBuffer(g, rec, buf) && at + Pages(g, rec) <= g.pages
    ensures var copy := NewCopy(g, rec, buf, stamp);
            at + |copy| <= g.pages && |Put(ErasedBlock(g.pages), at, copy)| == g.pages
            && Sized(Put(ErasedBlock(g.pages), at, copy), g.pageSize)
  {
    PageContent(g, rec, buf, stamp, ErasedBlock(g.pages), at);
    FreshCopy(g, rec, buf, stamp);
  }

  lemma StaysShaped(g: Geometry, cells: Cells, b: nat, x: Block)
    requires Shaped(g, cells) && b < |cells| && |x| == g.pages && Sized(x, g.pageSize)
    ensures Shaped(g, cells[b := x])
  {
  }

  /** Such an append has lost the record: it was recovered before, and is not any more. */
  lemma RepeatedAppendLoses(g: Geometry, st: State, r: nat, buf: seq<byte>)
    requires WellFormed(g) && Inv(g, st) && CanSave(g, st, r, buf) && NoStale(g, st, r)
    requires g.records[r].kind.FullPage? && Fits(g, g.records[r]) && !MustMove(g, st, r)
    requires Findable(g, st.infos[r].blk)
    ensures Recover(g, st.cells, r).Some?
    ensures var after := Repeated(g, st, r, buf);
            Stranded(g, after, r, buf) && Recover(g, after.cells, r) == None
  {
    var rec, after := g.records[r], Repeated(g, st, r, buf);
    assert RecordOk(g, st, r);
    ScanFindsLive(g, st.cells, r, st.infos[r].blk, st.infos[r].page);
    RepeatedIsStranded(g, st, r, buf);
    StrandedIsLost(g, after, r, buf);
    forall c: nat | Findable(g, c) && c != after.infos[r].blk ensures !Opens(g, after.cells, rec, c) {
      assert after.cells[c] == st.cells[c];
      assert !Opens(g, st.cells, rec, c);
    }
  }

  // ---------------------------------------------------------------- what the scan finds although reads fail

  /** Every slot of block `n` with room for a whole copy opens with the record. */
  ghost predicate Copied(g: Geometry, cells: Cells, rec: Record, n: nat)
    requires g.pageSize >= 1
  {
    n < |cells|
    && forall slot: nat :: Times(slot, Pages(g, rec)) + Pages(g, rec) <= |cells[n]| ==>
         TagOf(cells[n][Times(slot, Pages(g, rec))]) == rec.name
  }

  /** No slot of block `b` opens with the record. */
  ghost predicate Silent(g: Geometry, cells: Cells, rec: Record, b: nat)
    requires g.pageSize >= 1
  {
    b < |cells|
    && forall slot: nat :: Times(slot, Pages(g, rec)) < |cells[b]| ==>
         TagOf(cells[b][Times(slot, Pages(g, rec))]) != rec.name
  }

  lemma SilentShowsNothing(g: Geometry, cells: Cells, rec: Record, seen: map<nat, nat>, b: nat)
    requires WellFormed(g) && Shaped(g, cells) && Silent(g, cells, rec, b)
    ensures !Shows(g, cells, rec, seen, b)
  {
    if Shows(g, cells, rec, seen, b) {
      var slot := OrderAt(g.pages, g.blockPages, Pages(g, rec), seen[b]);
      assert false;
    }
  }

  /** A visit of a block full of copies shows the record unless every copy it looked at was unreadable. */
  lemma CopiedShows(g: Geometry, cells: Cells, rec: Record, seen: map<nat, nat>, acts: seq<Act>, n: nat, p: nat)
    requires WellFormed(g) && Shaped(g, cells) && Copied(g, cells, rec, n)
    requires n in seen && VisitTied(g, rec, n, seen[n], acts)
    requires p in Order(g, rec) && p + Pages(g, rec) <= g.pages && Reading(n, p, false) !in acts
    ensures Shows(g, cells, rec, seen, n)
  {
    var order, k, width := Order(g, rec), seen[n], Pages(g, rec);
    if k < |order| {
      var slot := OrderAt(g.pages, g.blockPages, width, k);
      if order[k] + width > g.pages {
        var j := WholeBefore(g.pages, g.blockPages, width, k, p);
        assert false;
      }
    }
  }

  /**
   * Whatever reads fail, a FullBlk record whose lowest block in reach is full of copies is found there, as long as one
   * of the copies that the search looks at could be read.
   */
  lemma FoundDespiteFailures(g: Geometry, cells: Cells, rec: Record, seen: map<nat, nat>, acts: seq<Act>, info: Info,
                             n: nat, p: nat)
    requires WellFormed(g) && Shaped(g, cells) && rec.kind.FullBlk?
    requires SeenTied(g, rec, seen, acts) && Walked(g, cells, rec, seen, info, g.start + RESERVED_BLOCK_CNT)
    requires Findable(g, n) && Copied(g, cells, rec, n)
    requires forall b: nat :: b < n && Findable(g, b) ==> Silent(g, cells, rec, b)
    requires p in Order(g, rec) && p + Pages(g, rec) <= g.pages && Reading(n, p, false) !in acts
    ensures info.valid && info.blk == n
  {
    if info.valid && info.blk < n {
      SilentShowsNothing(g, cells, rec, seen, info.blk);
      assert false;
    }
    assert n in seen;
    CopiedShows(g, cells, rec, seen, acts, n, p);
  }

  /** A block saved by a FullBlk save is full of copies. */
  lemma SavedIsCopied(g: Geometry, st: State, r: nat, buf: seq<byte>)
    requires WellFormed(g) && Inv(g, st) && CanSave(g, st, r, buf)
    requires g.records[r].kind.FullBlk? && BlkSave(g, st, r, buf).ok
    ensures Copied(g, BlkSave(g, st, r, buf).st.cells, g.records[r], BlkSave(g, st, r, buf).st.infos[r].blk)
  {
    var after, rec := BlkSave(g, st, r, buf).st, g.records[r];
    var copy := SavedBlock(g, st, r, buf);
    var n := after.infos[r].blk;
    FreshCopy(g, rec, buf, after.infos[r].stamp);
    SavedBlockSized(g, st, r, buf);
    forall slot: nat | Times(slot, |copy|) + |copy| <= |after.cells[n]|
      ensures TagOf(after.cells[n][Times(slot, |copy|)]) == rec.name
    {
      SlotHolds(ErasedBlock(g.pages), 0, copy, slot, Times(slot, |copy|));
    }
  }

  // ---------------------------------------------------------------- the scan when pages cannot be read

  /** No block that the scan looks into, other than `live`, shows the record's tag at the start of a copy. */
  ghost predicate OnlyHere(g: Geometry, cells: Cells, rec: Record, live: nat)
    requires g.pageSize >= 1
  {
    forall b: nat, slot: nat, stamp: nat :: Findable(g, b) && Sighted(g, cells, rec, b, slot, stamp) ==> b == live
  }

  /**
   * After a FullBlk save, with any reads failing: every entry that a scan can settle on is the saved block with the
   * saved stamp iff no other block that it looks into shows the record's tag at the start of a copy.
   */
  lemma ScanDespiteFailuresIff(g: Geometry, st: State, r: nat, buf: seq<byte>)
    requires WellFormed(g) && Inv(g, st) && CanSave(g, st, r, buf)
    requires g.records[r].kind.FullBlk? && BlkSave(g, st, r, buf).ok
    ensures var after := BlkSave(g, st, r, buf).st;
            var rec, live := g.records[r], after.infos[r];
            (forall info :: Seen(g, after.cells, rec, info) ==> info.blk == live.blk && info.stamp == live.stamp)
            <==> OnlyHere(g, after.cells, rec, live.blk)
  {
    var after := BlkSave(g, st, r, buf).st;
    var rec, live := g.records[r], after.infos[r];
    if OnlyHere(g, after.cells, rec, live.blk) {
      forall info | Seen(g, after.cells, rec, info) ensures info.blk == live.blk && info.stamp == live.stamp {
        SeenIsLive(g, st, r, buf, info);
      }
    } else {
      var b: nat, slot: nat, stamp: nat :|
        Findable(g, b) && Sighted(g, after.cells, rec, b, slot, stamp) && b != live.blk;
      assert Seen(g, after.cells, rec, Info(true, b, 0, 0, stamp, false));
    }
  }

  lemma SeenIsLive(g: Geometry, st: State, r: nat, buf: seq<byte>, info: Info)
    requires WellFormed(g) && Inv(g, st) && CanSave(g, st, r, buf)
    requires g.records[r].kind.FullBlk? && BlkSave(g, st, r, buf).ok
    requires OnlyHere(g, BlkSave(g, st, r, buf).st.cells, g.records[r], BlkSave(g, st, r, buf).st.infos[r].blk)
    requires Seen(g, BlkSave(g, st, r, buf).st.cells, g.records[r], info)
    ensures var live := BlkSave(g, st, r, buf).st.infos[r]; info.blk == live.blk && info.stamp == live.stamp
  {
    var cells, rec := BlkSave(g, st, r, buf).st.cells, g.records[r];
    var slot: nat :| Sighted(g, cells, rec, info.blk, slot, info.stamp);
    SavedBlockSized(g, st, r, buf);
    AnySlotIdentifies(g, st, r, buf, slot);
    assert rec.name != ERASED_TAG;
  }

  lemma SavedBlockSized(g: Geometry, st: State, r: nat, buf: seq<byte>)
    requires WellFormed(g) && Inv(g, st) && CanSave(g, st, r, buf)
    requires g.records[r].kind.FullBlk? && BlkSave(g, st, r, buf).ok
    ensures var after := BlkSave(g, st, r, buf).st;
            after.infos[r].blk < |after.cells| && |after.cells[after.infos[r].blk]| == g.pages
  {
    var copy := SavedBlock(g, st, r, buf);
  }
}
