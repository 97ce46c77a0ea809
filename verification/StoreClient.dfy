/** The store object in use: what a save wrote is what a reader gets after the next restart. */
module StoreClient {
  import opened Arith
  import opened Flash
  import opened Paging
  import opened StoreSpec
  import opened StoreInvariant
  import opened StoreSaves
  import opened StoreRecovery
  import opened StoreRoom
  import opened StoreFaults
  import opened StoreRuns
  import opened StoreActs
  import opened StoreEffects
  import opened StoreChip

  /** Save by record kind; on a chip without failures the outcome is the one `Save` states. */
  method SaveRecord(c: Chip, r: nat, buf: seq<byte>) returns (ret: int)
    requires c.Valid() && c.perfect && CanRun(c.g, c.Now(), r, buf)
    modifies c, c.reserved
    ensures c.Valid() && Outcome(ret == 0, c.Now()) == Save(c.g, old(c.Now()), r, buf)
  {
    ghost var steps;
    assert RecordOk(c.g, c.Now(), r);
    if c.g.records[r].kind.FullBlk? {
      var tries;
      ghost var e, first, last;
      ret, tries, e, first, last, steps := c.SaveFullBlk(r, buf);
    } else {
      ghost var again, one, two;
      ret, again, one, two, steps := c.SaveFullPage(r, buf);
    }
  }

  /** Save, restart, read: the saved bytes come back, and every other record recovers as before. */
  method SaveRestartRead(c: Chip, r: nat, buf: seq<byte>, dst: seq<byte>) returns (ret: int, out: seq<byte>)
    requires c.Valid() && c.perfect && Healthy(c.g) && Settled(c.g, c.Now()) && CanTry(c.g, c.Now(), r, buf)
    requires |dst| == c.g.records[r].size
    modifies c, c.reserved
    ensures c.Valid() && Settled(c.g, c.Now())
    ensures ret == 0 && out == buf[..|dst|]
    ensures forall q :: 0 <= q < |c.g.records| && q != r ==>
              Recover(c.g, c.cells, q) == Recover(c.g, old(c.cells), q)
  {
    ghost var before := c.Now();
    ret := SaveRecord(c, r, buf);
    RestartAfter(c.g, before, r, buf, dst);
    ghost var seens, locateds, acts := c.Restart();
    var ok;
    ghost var n, looked;
    ok, out, n, looked := c.ReadInfo(r, dst);
  }

  /** After a save and a restart the index is valid again and leads to the saved bytes. */
  lemma RestartAfter(g: Geometry, before: State, r: nat, buf: seq<byte>, dst: seq<byte>)
    requires WellFormed(g) && Healthy(g) && Settled(g, before) && CanTry(g, before, r, buf)
    requires |dst| == g.records[r].size
    ensures var after := Save(g, before, r, buf);
            after.ok && StateShaped(g, after.st) &&
            var st := Boot(g, after.st.cells);
            && Settled(g, st) && st.cells == after.st.cells
            && (forall q :: 0 <= q < |g.records| && q != r ==>
                  Recover(g, st.cells, q) == Recover(g, before.cells, q))
            && st.infos[r].valid && st.infos[r].page + Pages(g, g.records[r]) <= g.pages
            && ReadAt(g, st.cells, g.records[r], st.infos[r], dst) == buf[..|dst|]
  {
    var after := Save(g, before, r, buf);
    SaveSettled(g, before, r, buf);
    SaveKeeps(g, before, r, buf);
    SaveView(g, before, r, buf);
    BootKeeps(g, after.st);
    var st := Boot(g, after.st.cells);
    assert RecordOk(g, st, r);
    forall q | 0 <= q < |g.records| && q != r ensures Recover(g, st.cells, q) == Recover(g, before.cells, q) {
      assert View(g, after.st.cells)[q] == View(g, before.cells)[q];
    }
    RestartedBlock(g, after.st, st, r, buf, dst);
  }

  /** A restart finds the copy that the save left, and reading it gives the saved bytes. */
  lemma RestartedBlock(g: Geometry, saved: State, st: State, r: nat, buf: seq<byte>, dst: seq<byte>)
    requires WellFormed(g) && AllFit(g) && Inv(g, saved) && InWindow(g, saved)
    requires r < |g.records| && st == Boot(g, saved.cells)
    requires IsBuffer(g, g.records[r], buf) && |dst| == g.records[r].size
    requires Inv(g, st) && Saved(g, saved, r, buf)
    ensures st.infos[r].valid
    ensures ReadAt(g, st.cells, g.records[r], st.infos[r], dst) == buf[..|dst|]
  {
    var blank := State(saved.cells, seq(RESERVED_BLOCK_CNT, _ => FREE_SLOT), seq(|g.records|, _ => COLD));
    BootSteps(g, saved, blank, 0);
    BootScan(g, saved, r);
    var info := st.infos[r];
    ReadsBack(st.cells[info.blk], info.page, g.records[r].name, buf, dst, g.pageSize);
  }

  // ---------------------------------------------------------------- when things fail

  /**
   * A FullBlk save with any program and erase failures, and what a cold scan finds afterwards: the new block when
   * the save moved, the old one when it did not, in both cases iff no lower block that the scan looks into opens
   * with the record.  It gives up on a failed program only after four blocks, each of which had one.
   */
  method SaveUnderFailures(c: Chip, r: nat, buf: seq<byte>) returns (ret: int, ghost e: Effort, ghost acts: seq<Act>)
    requires c.Valid() && CanSave(c.g, c.Now(), r, buf)
    requires c.g.records[r].kind.FullBlk? && Fits(c.g, c.g.records[r])
    requires c.infos[r].valid ==> c.infos[r].blk in c.reserved[..]
    requires !c.infos[r].valid ==> c.infos[r].page == 0
    modifies c, c.reserved
    ensures c.Valid() && (ret == 0 || ret == READ_ONLY || ret == WRITE_FAILED || ret == BAD_BLOCK_FAILURE)
    ensures old(c.log) + acts <= c.log && Failed(acts, e)
    ensures ret == WRITE_FAILED ==> |e.blks| == |e.fails| == 4
    ensures ret == 0 || ret == READ_ONLY ==>
              var n, rec := c.infos[r].blk, c.g.records[r];
              && c.infos[r].valid
              && (Scan(c.g, c.cells, r).valid && Scan(c.g, c.cells, r).blk == n
                  <==> Findable(c.g, n) && NoneBelow(c.g, c.cells, rec, n))
              && (Findable(c.g, n) && NoneBelow(c.g, c.cells, rec, n) ==>
                    Recover(c.g, c.cells, r) == Some(buf[..rec.size]))
    ensures ret == WRITE_FAILED || ret == BAD_BLOCK_FAILURE ==>
              var n, rec := old(c.infos)[r].blk, c.g.records[r];
              && c.infos[r].valid == old(c.infos)[r].valid && c.infos[r].blk == n
              && (c.infos[r].valid && Lowest(c.g, old(c.cells), rec, n) ==>
                    && (Scan(c.g, c.cells, r).valid && Scan(c.g, c.cells, r).blk == n
                        <==> NoneBelow(c.g, c.cells, rec, n))
                    && (NoneBelow(c.g, c.cells, rec, n) ==>
                          Recover(c.g, c.cells, r) == Recover(c.g, old(c.cells), r)))
  {
    ghost var before, prev := c.cells, c.infos[r];
    var tries;
    ghost var last, steps;
    ret, tries, e, acts, last, steps := c.SaveFullBlk(r, buf);
    if ret == 0 || ret == READ_ONLY {
      BlkSaveFoundIff(c.g, c.cells, r, buf, Bump(prev).stamp, c.infos[r].blk);
    } else if prev.valid && Lowest(c.g, before, c.g.records[r], prev.blk) {
      FailedBlkSaveFoundIff(c.g, before, c.cells, r, prev.blk);
    }
  }

  /**
   * A FullPage save with any failures.  The blocks of the other records keep their pages; on success the bytes are
   * where the index says; but when the last copy went in after a test of its block, a cold scan finds nothing unless
   * another block that it looks into opens with the record.
   */
  method AppendUnderFailures(c: Chip, r: nat, buf: seq<byte>) returns (ret: int, ghost again: bool)
    requires c.CanAppend(r, buf)
    modifies c, c.reserved
    ensures c.Valid() && OthersKept(c.g, old(c.Now()), c.cells, r)
    ensures ret == 0 ==> HoldsCopy(c.g, c.Now(), r, buf)
    ensures ret == 0 && again ==>
              (Recover(c.g, c.cells, r) == None
               <==> forall b: nat :: Findable(c.g, b) && b != c.infos[r].blk ==>
                      !Opens(c.g, c.cells, c.g.records[r], b))
  {
    ghost var one, two, steps;
    ret, again, one, two, steps := c.SaveFullPage(r, buf);
    if ret == 0 && again {
      StrandedIsLost(c.g, c.Now(), r, buf);
    }
  }

  /**
   * The scan for a FullBlk record after a save, from a cold entry and with any reads failing, when no other block it
   * looks into shows the record's tag: it finds the saved block with its stamp, unless every copy that it looks at was
   * unreadable.
   */
  method ScanDespiteFailures(c: Chip, r: nat, ghost st: State, ghost buf: seq<byte>) returns (ghost acts: seq<Act>)
    requires c.Valid() && Inv(c.g, st) && CanSave(c.g, st, r, buf) && c.infos[r] == COLD
    requires c.g.records[r].kind.FullBlk? && BlkSave(c.g, st, r, buf).ok
    requires c.cells == BlkSave(c.g, st, r, buf).st.cells
    requires OnlyHere(c.g, c.cells, c.g.records[r], BlkSave(c.g, st, r, buf).st.infos[r].blk)
    modifies c`infos, c`log
    ensures c.Valid() && c.log == old(c.log) + acts
    ensures var live := BlkSave(c.g, st, r, buf).st.infos[r];
            && (c.infos[r].valid ==> c.infos[r].blk == live.blk && c.infos[r].stamp == live.stamp)
            && (!c.infos[r].valid && Findable(c.g, live.blk) ==>
                  forall p :: p in Order(c.g, c.g.records[r]) && p + Pages(c.g, c.g.records[r]) <= c.g.pages ==>
                    Reading(live.blk, p, false) in acts)
  {
    ghost var seen;
    seen, acts := c.LocateRecord(r);
    ghost var live, rec := BlkSave(c.g, st, r, buf).st.infos[r], c.g.records[r];
    if c.infos[r].valid {
      SeenIsLive(c.g, st, r, buf, c.infos[r]);
    } else if Findable(c.g, live.blk) {
      SavedIsCopied(c.g, st, r, buf);
      OthersSilent(c.g, c.cells, rec, live.blk);
      forall p | p in Order(c.g, rec) && p + Pages(c.g, rec) <= c.g.pages ensures Reading(live.blk, p, false) in acts {
        if Reading(live.blk, p, false) !in acts {
          FoundDespiteFailures(c.g, c.cells, rec, seen, acts, c.infos[r], live.blk, p);
        }
      }
    }
  }

  lemma OthersSilent(g: Geometry, cells: Cells, rec: Record, live: nat)
    requires WellFormed(g) && Shaped(g, cells) && OnlyHere(g, cells, rec, live)
    ensures forall b: nat :: b < live && Findable(g, b) ==> Silent(g, cells, rec, b)
  {
    forall b: nat | b < live && Findable(g, b) ensures Silent(g, cells, rec, b) {
      forall slot: nat | Times(slot, Pages(g, rec)) < |cells[b]|
        ensures TagOf(cells[b][Times(slot, Pages(g, rec))]) != rec.name
      {
        assert !Sighted(g, cells, rec, b, slot, StampOf(cells[b][Times(slot, Pages(g, rec))]));
      }
    }
  }

  /**
   * A restart with any reads failing: a FullBlk record whose lowest block in reach is full of copies is found there, as
   * long as one of the copies that the search looks at could be read.
   */
  method RestartUnderFailures(c: Chip) returns (ghost acts: seq<Act>)
    requires c.Valid()
    modifies c`infos, c`log, c.reserved
    ensures c.Valid() && c.log == old(c.log) + acts
    ensures forall r :: 0 <= r < |c.infos| ==> Grounded(c.g, c.cells, c.g.records[r], c.infos[r])
    ensures forall r, n: nat, p :: 0 <= r < |c.infos| && c.g.records[r].kind.FullBlk? && Findable(c.g, n)
              && Copied(c.g, c.cells, c.g.records[r], n)
              && (forall b: nat :: b < n && Findable(c.g, b) ==> Silent(c.g, c.cells, c.g.records[r], b))
              && p in Order(c.g, c.g.records[r]) && p + Pages(c.g, c.g.records[r]) <= c.g.pages
              && Reading(n, p, false) !in acts
              ==> c.infos[r].valid && c.infos[r].blk == n
  {
    ghost var seens, locateds;
    seens, locateds, acts := c.Restart();
    forall r, n: nat, p | 0 <= r < |c.infos| && c.g.records[r].kind.FullBlk? && Findable(c.g, n)
        && Copied(c.g, c.cells, c.g.records[r], n)
        && (forall b: nat :: b < n && Findable(c.g, b) ==> Silent(c.g, c.cells, c.g.records[r], b))
        && p in Order(c.g, c.g.records[r]) && p + Pages(c.g, c.g.records[r]) <= c.g.pages
        && Reading(n, p, false) !in acts
      ensures c.infos[r].valid && c.infos[r].blk == n
    {
      assert FoundBy(c.g, c.cells, c.g.records[r], seens[r], locateds[r], acts, c.infos[r]);
      FoundDespiteFailures(c.g, c.cells, c.g.records[r], seens[r], acts, locateds[r], n, p);
    }
  }
}
