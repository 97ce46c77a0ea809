/** Whole runs: any sequence of saves, power cuts and restarts behaves like a table of values. */
module StoreRuns {
  import opened Arith
  import opened Flash
  import opened Paging
  import opened StoreSpec
  import opened StoreInvariant
  import opened StoreReserved
  import opened StoreSaves
  import opened StoreRecovery
  import opened StoreRoom

  // ---------------------------------------------------------------- one power cut

  /** What a cut state recovers: every other record as before. */
  lemma CutSpares(g: Geometry, st: State, r: nat, buf: seq<byte>, cells: Cells, cut: State, j: nat, q: nat)
    requires WellFormed(g) && CanRun(g, st, r, buf) && q < |g.records| && q != r && Fits(g, g.records[q])
    requires InWindow(g, st) && CutOk(g, st, r, buf, cells, cut, j)
    ensures Recover(g, cells, q) == Recover(g, st.cells, q)
  {
    SameRecovery(g, st, cut, q);
  }

  /** What a cut state recovers for the record itself: as before, or the pages that are in. */
  lemma CutRecovers(g: Geometry, st: State, r: nat, buf: seq<byte>, cells: Cells, cut: State, j: nat)
    requires WellFormed(g) && CanRun(g, st, r, buf)
    requires InWindow(g, st) && CutOk(g, st, r, buf, cells, cut, j) && InWindow(g, cut)
    ensures Recover(g, cells, r)
            == if j == 0 then Recover(g, st.cells, r)
               else Some(Torn(buf, Times(j, g.pageSize), g.records[r].size))
  {
    if j == 0 {
      SameRecovery(g, st, cut, r);
    } else {
      var rec, info := g.records[r], cut.infos[r];
      assert RecordOk(g, cut, r);
      ScanFindsLive(g, cut.cells, r, info.blk, info.page);
      ReadsTorn(cut.cells[info.blk], info.page, rec.name, buf, j, rec.size, g.pageSize);
    }
  }

  /** A record of at most one page of bytes, or a FullBlk record whose block lies below the lowest free one. */
  ghost predicate NeverTorn(g: Geometry, st: State, r: nat)
    requires WellFormed(g) && StateShaped(g, st) && r < |g.records|
  {
    g.records[r].size <= g.pageSize
    || (g.records[r].kind.FullBlk? && FirstFree(g, st.reserved, 0).Some?
        && StaysBelow(st.infos[r], FirstFree(g, st.reserved, 0).value))
  }

  /** The step of a save that programs the first page of a new copy: behind the erase, if there is one. */
  function FirstPageStep(g: Geometry, st: State, r: nat): nat
    requires g.pageSize >= 1 && r < |g.records| && r < |st.infos|
  {
    if g.records[r].kind.FullPage? && !MustMove(g, st, r) then 0 else 1
  }

  lemma PagesIn(size: nat, pageSize: nat, j: nat)
    requires pageSize > 0 && j > 0
    ensures Times(j, pageSize) >= pageSize
    ensures j == ArgPages(size, pageSize) ==> Times(j, pageSize) >= size
    ensures j == 1 ==> Times(j, pageSize) == pageSize
  {
    MulSign(j, pageSize);
    PagesCover(size, pageSize);
  }

  /**
   * Stopped after any program or erase, a save leaves the old bytes or the first `j` pages of the new ones, and
   * every other record as it was, as long as the scan looks into the records' blocks and into the blocks taken.
   */
  lemma PowerCut(g: Geometry, st: State, r: nat, buf: seq<byte>, k: nat) returns (cut: State, j: nat)
    requires WellFormed(g) && CanRun(g, st, r, buf) && InWindow(g, st)
    requires forall n :: Takes(g, st, r, buf, n) ==> Findable(g, n)
    requires k < |SaveSteps(g, st, r, buf)|
    ensures CutOk(g, st, r, buf, SaveSteps(g, st, r, buf)[k], cut, j) && InWindow(g, cut)
    ensures forall q :: 0 <= q < |g.records| && q != r && Fits(g, g.records[q]) ==>
              Recover(g, cut.cells, q) == Recover(g, st.cells, q)
    ensures Recover(g, cut.cells, r)
            == if j == 0 then Recover(g, st.cells, r)
               else Some(Torn(buf, Times(j, g.pageSize), g.records[r].size))
    ensures NeverTorn(g, st, r) && j > 0 ==> Times(j, g.pageSize) >= g.records[r].size
    ensures !NeverTorn(g, st, r) && k == FirstPageStep(g, st, r) ==> j == 1
  {
    if g.records[r].kind.FullBlk? {
      cut, j := BlkCut(g, st, r, buf, k);
    } else {
      cut, j := PageCut(g, st, r, buf, k);
    }
    if j > 0 {
      PagesIn(g.records[r].size, g.pageSize, j);
    }
    assert InWindow(g, cut) by {
      assert SamePlace(st.infos[r], cut.infos[r]) || Takes(g, st, r, buf, cut.infos[r].blk);
    }
    forall q | 0 <= q < |g.records| && q != r && Fits(g, g.records[q])
      ensures Recover(g, cut.cells, q) == Recover(g, st.cells, q)
    {
      CutSpares(g, st, r, buf, cut.cells, cut, j, q);
    }
    CutRecovers(g, st, r, buf, cut.cells, cut, j);
  }

  /** On a healthy chip the blocks taken are always ones that the scan looks into. */
  lemma TakenInWindow(g: Geometry, st: State, r: nat, buf: seq<byte>)
    requires WellFormed(g) && Roomy(g) && Settled(g, st) && CanRun(g, st, r, buf)
    ensures forall n :: Takes(g, st, r, buf, n) ==> Findable(g, n)
  {
    FreeBlockInWindow(g, st, 0);
    if g.records[r].kind.FullPage? {
      PagePassSettled(g, st, r, buf, 0);
      var first := PagePass(g, st, r, buf, 0).st;
      FreeBlockInWindow(g, first, first.infos[r].blk);
    }
  }

  // ---------------------------------------------------------------- exactly when a save is atomic

  ghost predicate OldOrNew(g: Geometry, st: State, r: nat, buf: seq<byte>, cells: Cells)
    requires WellFormed(g) && Shaped(g, st.cells) && r < |g.records| && g.records[r].size <= |buf|
  {
    Shaped(g, cells)
    && (Recover(g, cells, r) == Recover(g, st.cells, r)
        || Recover(g, cells, r) == Some(buf[..g.records[r].size]))
  }

  /** Whatever is saved, and after whatever step the power goes, a reader gets the old bytes or the new ones. */
  ghost predicate Atomic(g: Geometry, st: State, r: nat)
    requires WellFormed(g) && StateShaped(g, st) && r < |g.records|
  {
    forall buf, k: nat :: CanTry(g, st, r, buf) && k < |SaveSteps(g, st, r, buf)| ==>
      OldOrNew(g, st, r, buf, SaveSteps(g, st, r, buf)[k])
  }

  lemma AtomicIfNeverTorn(g: Geometry, st: State, r: nat, buf: seq<byte>, k: nat)
    requires WellFormed(g) && Healthy(g) && Settled(g, st) && CanTry(g, st, r, buf) && NeverTorn(g, st, r)
    requires k < |SaveSteps(g, st, r, buf)|
    ensures OldOrNew(g, st, r, buf, SaveSteps(g, st, r, buf)[k])
  {
    TakenInWindow(g, st, r, buf);
    var cut, j := PowerCut(g, st, r, buf, k);
    if j > 0 {
      TornWhole(buf, Times(j, g.pageSize), g.records[r].size);
    }
  }

  lemma FirstPageIsAStep(g: Geometry, st: State, r: nat, buf: seq<byte>)
    requires WellFormed(g) && Healthy(g) && Settled(g, st) && CanRun(g, st, r, buf)
    ensures FirstPageStep(g, st, r) < |SaveSteps(g, st, r, buf)|
  {
    FreeBlockInWindow(g, st, 0);
  }

  /** A buffer whose first page is not what was recovered before, and whose other pages are not zero. */
  lemma TearingBuffer(g: Geometry, rec: Record, was: Option<seq<byte>>) returns (buf: seq<byte>)
    requires g.pageSize >= 1 && rec.size > g.pageSize
    ensures IsBuffer(g, rec, buf)
    ensures Some(Torn(buf, g.pageSize, rec.size)) != was && Torn(buf, g.pageSize, rec.size) != buf[..rec.size]
  {
    var x: byte := if was.Some? && |was.value| > 0 && was.value[0] == 1 then 2 else 1;
    buf := seq(SavedLen(rec.size, g.pageSize), _ => x);
    var torn := Torn(buf, g.pageSize, rec.size);
    assert torn[0] == x && torn[rec.size - 1] == 0 && buf[..rec.size][rec.size - 1] == x;
  }

  lemma TornSomewhere(g: Geometry, st: State, r: nat) returns (buf: seq<byte>)
    requires WellFormed(g) && Healthy(g) && Settled(g, st) && r < |g.records|
    requires st.infos[r].stamp + 2 < 0x1_0000 && !NeverTorn(g, st, r)
    ensures CanTry(g, st, r, buf) && FirstPageStep(g, st, r) < |SaveSteps(g, st, r, buf)|
    ensures !OldOrNew(g, st, r, buf, SaveSteps(g, st, r, buf)[FirstPageStep(g, st, r)])
  {
    buf := TearingBuffer(g, g.records[r], Recover(g, st.cells, r));
    FirstPageIsAStep(g, st, r, buf);
    TakenInWindow(g, st, r, buf);
    var cut, j := PowerCut(g, st, r, buf, FirstPageStep(g, st, r));
    PagesIn(g.records[r].size, g.pageSize, j);
  }

  /**
   * The scan looks at first pages only, so a save survives every power cut exactly when the record has at most one
   * page of bytes, or replicates over a block that lies above the one in use.
   */
  lemma AtomicIff(g: Geometry, st: State, r: nat)
    requires WellFormed(g) && Healthy(g) && Settled(g, st) && r < |g.records| && st.infos[r].stamp + 2 < 0x1_0000
    ensures Atomic(g, st, r) <==> NeverTorn(g, st, r)
  {
    if NeverTorn(g, st, r) {
      forall buf, k: nat | CanTry(g, st, r, buf) && k < |SaveSteps(g, st, r, buf)|
        ensures OldOrNew(g, st, r, buf, SaveSteps(g, st, r, buf)[k])
      {
        AtomicIfNeverTorn(g, st, r, buf, k);
      }
    } else {
      var buf := TornSomewhere(g, st, r);
    }
  }

  // ---------------------------------------------------------------- restart

  lemma OwnedGrows(infos: seq<Info>, k: nat, info: Info, x: nat)
    requires k < |infos|
    requires Owned(infos[..k], x) || HasBlock(info, x)
    ensures Owned(infos[k := info][..k + 1], x)
  {
    var after := infos[k := info][..k + 1];
    if HasBlock(info, x) {
      assert HasBlock(after[k], x);
    } else {
      var r :| 0 <= r < k && HasBlock(infos[..k][r], x);
      assert HasBlock(after[r], x);
    }
  }

  /** Half way through the boot scan: records below `k` are indexed and exactly their blocks are reserved. */
  ghost predicate Booting(g: Geometry, cells: Cells, st: State, k: nat)
    requires WellFormed(g) && Shaped(g, cells)
  {
    k <= |g.records| && StateShaped(g, st) && st.cells == cells && ReservedOk(g, st.reserved)
    && (forall r :: 0 <= r < |g.records| ==> st.infos[r] == if r < k then Scan(g, cells, r) else COLD)
    && (forall x :: x in st.reserved && x != FREE_SLOT ==> Owned(st.infos[..k], x))
    && (forall r :: 0 <= r < k && st.infos[r].valid ==>
          st.infos[r].blk in st.reserved && st.infos[r].blk != FREE_SLOT)
  }

  /** What the scan of record `r` returns on the flash of a valid state. */
  lemma BootScan(g: Geometry, st: State, r: nat)
    requires WellFormed(g) && AllFit(g) && Inv(g, st) && InWindow(g, st) && r < |g.records|
    ensures var info, found := st.infos[r], Scan(g, st.cells, r);
            && found.valid == info.valid
            && (!info.valid ==> found == COLD)
            && (info.valid ==>
                  found.blk == info.blk && found.page == info.page
                  && found.stamp == StampOf(st.cells[info.blk][info.page])
                  && Opens(g, st.cells, g.records[r], found.blk))
  {
    assert RecordOk(g, st, r);
    if st.infos[r].valid {
      ScanFindsLive(g, st.cells, r, st.infos[r].blk, st.infos[r].page);
    } else {
      ScanFindsNothing(g, st.cells, r);
    }
  }

  lemma {:induction false} BootSteps(g: Geometry, from: State, st: State, k: nat)
    requires WellFormed(g) && AllFit(g) && Inv(g, from) && InWindow(g, from) && Booting(g, from.cells, st, k)
    ensures Booting(g, from.cells, BootFrom(g, st, k), |g.records|)
    decreases |g.records| - k
  {
    if k < |g.records| {
      var info := Scan(g, st.cells, k);
      var reserved := if info.valid then Reserve(st.reserved, info.blk) else st.reserved;
      var next := State(st.cells, reserved, st.infos[k := info]);
      BootScan(g, from, k);
      if info.valid {
        forall r | 0 <= r < k && st.infos[r].valid ensures st.infos[r].blk != info.blk {
          BootScan(g, from, r);
          assert g.records[r].name != g.records[k].name;
        }
        ReserveEffect(g, st.reserved, info.blk);
      }
      BootStep(g, from.cells, st, k);
      BootSteps(g, from, next, k + 1);
    }
  }

  lemma BootStep(g: Geometry, cells: Cells, st: State, k: nat)
    requires WellFormed(g) && Shaped(g, cells) && Booting(g, cells, st, k) && k < |g.records|
    requires var info := Scan(g, cells, k);
             info.valid ==>
               var after := Reserve(st.reserved, info.blk);
               && ReservedOk(g, after) && info.blk in after && Usable(g, info.blk)
               && forall x :: x != info.blk && x != FREE_SLOT ==> (x in after <==> x in st.reserved)
    ensures var info := Scan(g, cells, k);
            var reserved := if info.valid then Reserve(st.reserved, info.blk) else st.reserved;
            Booting(g, cells, State(cells, reserved, st.infos[k := info]), k + 1)
  {
    var info := Scan(g, cells, k);
    var reserved := if info.valid then Reserve(st.reserved, info.blk) else st.reserved;
    var next := State(cells, reserved, st.infos[k := info]);
    forall x | x in reserved && x != FREE_SLOT ensures Owned(next.infos[..k + 1], x) {
      assert (info.valid && x == info.blk) || x in st.reserved;
      OwnedGrows(st.infos, k, info, x);
    }
    forall r | 0 <= r < k + 1 && next.infos[r].valid
      ensures next.infos[r].blk in reserved && next.infos[r].blk != FREE_SLOT
    {
      if r < k {
        assert next.infos[r] == st.infos[r];
        assert st.infos[r].blk in st.reserved;
      }
    }
  }

  /** From the flash of a valid state within reach of the scan a restart rebuilds a settled one, every entry fresh. */
  lemma BootKeeps(g: Geometry, from: State)
    requires WellFormed(g) && AllFit(g) && Inv(g, from) && InWindow(g, from)
    ensures var st := Boot(g, from.cells);
            && Settled(g, st) && st.cells == from.cells
            && forall r :: 0 <= r < |g.records| && st.infos[r].valid ==> Fresh(g, st, r)
  {
    var blank := State(from.cells, seq(RESERVED_BLOCK_CNT, _ => FREE_SLOT), seq(|g.records|, _ => COLD));
    var st := Boot(g, from.cells);
    BootSteps(g, from, blank, 0);
    forall r | 0 <= r < |g.records|
      ensures RecordOk(g, st, r) && (st.infos[r].valid ==> Fresh(g, st, r))
    {
      BootedRecord(g, from, st, r);
    }
    forall q, r | 0 <= q < r < |g.records| && st.infos[q].valid && st.infos[r].valid
      ensures st.infos[q].blk != st.infos[r].blk
    {
      BootScan(g, from, q);
      BootScan(g, from, r);
      assert g.records[q].name != g.records[r].name;
    }
    assert st.infos[..|g.records|] == st.infos;
    forall q | 0 <= q < |g.records| && st.infos[q].valid ensures Findable(g, st.infos[q].blk) {
      BootScan(g, from, q);
    }
  }

  lemma BootedRecord(g: Geometry, from: State, st: State, r: nat)
    requires WellFormed(g) && AllFit(g) && Inv(g, from) && InWindow(g, from) && Booting(g, from.cells, st, |g.records|)
    requires r < |g.records|
    ensures RecordOk(g, st, r) && (st.infos[r].valid ==> Fresh(g, st, r))
  {
    BootScan(g, from, r);
    assert RecordOk(g, from, r);
    forall b: nat | Opens(g, st.cells, g.records[r], b) && b in st.reserved ensures b == st.infos[r].blk {
      BootedBlocks(g, from, st, r, b);
    }
  }

  /** After the boot scan a reserved block opens with the record that owns it, and with no other. */
  lemma BootedBlocks(g: Geometry, from: State, st: State, r: nat, b: nat)
    requires WellFormed(g) && AllFit(g) && Inv(g, from) && InWindow(g, from) && Booting(g, from.cells, st, |g.records|)
    requires r < |g.records| && Opens(g, st.cells, g.records[r], b) && b in st.reserved
    ensures st.infos[r].blk == b
  {
    assert st.infos[..|g.records|] == st.infos;
    var q :| 0 <= q < |g.records| && HasBlock(st.infos[q], b);
    BootScan(g, from, q);
    assert g.records[q].name == g.records[r].name;
  }

  // ---------------------------------------------------------------- runs

  /** A save of `buf` into record `r`; the same cut after `k` programs and erases and restarted; a restart. */
  datatype Event = SaveEvent(r: nat, buf: seq<byte>) | CutEvent(r: nat, buf: seq<byte>, k: nat) | Restart

  /** What an event asks of its caller; nothing about the store's own invariant. */
  ghost predicate CanStep(g: Geometry, st: State, e: Event)
    requires WellFormed(g)
  {
    match e
    case SaveEvent(r, buf) => CanTry(g, st, r, buf)
    case CutEvent(r, buf, k) =>
      CanTry(g, st, r, buf) && k <= |SaveSteps(g, st, r, buf)|
    case Restart => StateShaped(g, st)
  }

  /** The flash when the power goes. */
  ghost function CellsAtCut(g: Geometry, st: State, r: nat, buf: seq<byte>, k: nat): Cells
    requires WellFormed(g) && CanStep(g, st, CutEvent(r, buf, k))
  {
    if k == 0 then st.cells else SaveSteps(g, st, r, buf)[k - 1]
  }

  ghost predicate Step(g: Geometry, st: State, e: Event, post: State)
    requires WellFormed(g) && CanStep(g, st, e)
  {
    match e
    case SaveEvent(r, buf) => post == Save(g, st, r, buf).st
    case CutEvent(r, buf, k) =>
      var cells := CellsAtCut(g, st, r, buf, k);
      Shaped(g, cells) ==> post == Boot(g, cells)
    case Restart => post == Boot(g, st.cells)
  }

  type Table = seq<Option<seq<byte>>>

  /** The table of values a reader of the flash sees. */
  ghost function View(g: Geometry, cells: Cells): (v: Table)
    requires WellFormed(g) && Shaped(g, cells)
    ensures |v| == |g.records| && forall r :: 0 <= r < |v| ==> v[r] == Recover(g, cells, r)
  {
    seq(|g.records|, r requires 0 <= r < |g.records| => Recover(g, cells, r))
  }

  /** The table after record `r` took the first `size` bytes of `buf`. */
  function Put(v: Table, r: nat, buf: seq<byte>, size: nat): Table
    requires r < |v| && size <= |buf|
  {
    v[r := Some(buf[..size])]
  }

  /** The table after record `r` took a copy of which the first `amount` bytes are in. */
  function PutPart(v: Table, r: nat, buf: seq<byte>, size: nat, amount: nat): Table
    requires r < |v| && size <= |buf|
  {
    v[r := Some(Torn(buf, amount, size))]
  }

  /**
   * One event on that table: a save writes its row, a cut save leaves it or writes the first pages of it, at least
   * one, and a restart does nothing.
   */
  ghost predicate ViewStep(g: Geometry, e: Event, before: Table, after: Table)
    requires |before| == |g.records|
  {
    match e
    case SaveEvent(r, buf) =>
      r < |before| && g.records[r].size <= |buf| && after == Put(before, r, buf, g.records[r].size)
    case CutEvent(r, buf, _) =>
      r < |before| && g.records[r].size <= |buf|
      && (after == before
          || exists amount: nat :: g.pageSize <= amount && after == PutPart(before, r, buf, g.records[r].size, amount))
    case Restart => after == before
  }

  /** A successful save on the table, on any chip whose records' blocks the scan looks into before and after. */
  lemma SaveView(g: Geometry, st: State, r: nat, buf: seq<byte>)
    requires WellFormed(g) && AllFit(g) && CanRun(g, st, r, buf) && InWindow(g, st)
    requires Save(g, st, r, buf).ok && StateShaped(g, Save(g, st, r, buf).st) && InWindow(g, Save(g, st, r, buf).st)
    ensures var after := Save(g, st, r, buf).st;
            Inv(g, after) && ViewStep(g, SaveEvent(r, buf), View(g, st.cells), View(g, after.cells))
  {
    var after := Save(g, st, r, buf).st;
    SaveKeeps(g, st, r, buf);
    forall q | 0 <= q < |g.records| && q != r
      ensures Recover(g, after.cells, q) == Recover(g, st.cells, q)
    {
      SameRecovery(g, st, after, q);
    }
    SavedIsRecovered(g, after, r, buf);
  }

  /** A save that finds no free block either did nothing or has already appended its first copy. */
  lemma FailedSaveView(g: Geometry, st: State, r: nat, buf: seq<byte>)
    requires WellFormed(g) && CanRun(g, st, r, buf) && !Save(g, st, r, buf).ok && InWindow(g, st)
    requires forall n :: Takes(g, st, r, buf, n) ==> Findable(g, n)
    ensures var after := Save(g, st, r, buf).st;
            && Inv(g, after)
            && (Recover(g, after.cells, r) == Recover(g, st.cells, r)
                || Recover(g, after.cells, r) == Some(buf[..g.records[r].size]))
  {
    SaveKeeps(g, st, r, buf);
    if g.records[r].kind.FullPage? {
      PagePassKeeps(g, st, r, buf, 0);
      var first := PagePass(g, st, r, buf, 0);
      if first.ok {
        PagePassKeeps(g, first.st, r, buf, first.st.infos[r].blk);
        assert MustMove(g, st, r) ==> Takes(g, st, r, buf, first.st.infos[r].blk);
        SavedIsRecovered(g, first.st, r, buf);
      }
    }
  }

  lemma CutView(g: Geometry, st: State, r: nat, buf: seq<byte>, k: nat)
    requires WellFormed(g) && Healthy(g) && Settled(g, st) && CanStep(g, st, CutEvent(r, buf, k))
    ensures var cells := CellsAtCut(g, st, r, buf, k);
            && Shaped(g, cells) && Settled(g, Boot(g, cells)) && Boot(g, cells).cells == cells
            && ViewStep(g, CutEvent(r, buf, k), View(g, st.cells), View(g, cells))
  {
    if k == 0 {
      BootKeeps(g, st);
    } else {
      TakenInWindow(g, st, r, buf);
      var cut, j := PowerCut(g, st, r, buf, k - 1);
      BootKeeps(g, cut);
      var before, after := View(g, st.cells), View(g, cut.cells);
      if j == 0 {
        assert after == before;
      } else {
        PagesIn(g.records[r].size, g.pageSize, j);
        assert after == PutPart(before, r, buf, g.records[r].size, Times(j, g.pageSize));
      }
    }
  }

  /** One event keeps the store settled and is one event on the table. */
  lemma StepRefines(g: Geometry, st: State, e: Event, post: State)
    requires WellFormed(g) && Healthy(g) && Settled(g, st) && CanStep(g, st, e) && Step(g, st, e, post)
    ensures Settled(g, post) && ViewStep(g, e, View(g, st.cells), View(g, post.cells))
  {
    match e
    case SaveEvent(r, buf) =>
      SaveSettled(g, st, r, buf);
      SaveView(g, st, r, buf);
    case CutEvent(r, buf, k) => CutView(g, st, r, buf, k);
    case Restart => BootKeeps(g, st);
  }

  ghost predicate IsRun(g: Geometry, states: seq<State>, events: seq<Event>)
    requires WellFormed(g)
  {
    |states| == |events| + 1
    && forall i :: 0 <= i < |events| ==>
         CanStep(g, states[i], events[i]) && Step(g, states[i], events[i], states[i + 1])
  }

  /** In every run every state is settled and every event acts on the table of values alone. */
  lemma {:induction false} RunRefines(g: Geometry, states: seq<State>, events: seq<Event>, i: nat)
    requires WellFormed(g) && Healthy(g) && IsRun(g, states, events) && Settled(g, states[0]) && i <= |events|
    ensures Settled(g, states[i])
    ensures i < |events| ==>
              Settled(g, states[i + 1])
              && ViewStep(g, events[i], View(g, states[i].cells), View(g, states[i + 1].cells))
  {
    if i > 0 {
      RunRefines(g, states, events, i - 1);
    }
    if i < |events| {
      StepRefines(g, states[i], events[i], states[i + 1]);
    }
  }

  predicate Touches(e: Event, r: nat) {
    !e.Restart? && e.r == r
  }

  lemma RowAfter(g: Geometry, e: Event, before: Table, after: Table, r: nat)
    requires |before| == |g.records| && r < |g.records| && ViewStep(g, e, before, after)
    ensures |after| == |before|
    ensures !Touches(e, r) ==> after[r] == before[r]
    ensures e.SaveEvent? && e.r == r ==> g.records[r].size <= |e.buf| && after[r] == Some(e.buf[..g.records[r].size])
    ensures e.CutEvent? && e.r == r && g.records[r].size <= g.pageSize ==>
              g.records[r].size <= |e.buf|
              && (after[r] == before[r] || after[r] == Some(e.buf[..g.records[r].size]))
  {
    if e.CutEvent? && after != before {
      var size := g.records[e.r].size;
      var amount: nat :| g.pageSize <= amount && after == PutPart(before, e.r, e.buf, size, amount);
      if size <= amount {
        TornWhole(e.buf, amount, size);
      }
    }
  }

  /** One event of a run, seen at one record. */
  lemma RunRow(g: Geometry, states: seq<State>, events: seq<Event>, i: nat, r: nat)
    requires WellFormed(g) && Healthy(g) && IsRun(g, states, events) && Settled(g, states[0])
    requires i < |events| && r < |g.records|
    ensures Settled(g, states[i]) && Settled(g, states[i + 1])
    ensures !Touches(events[i], r) ==> Recover(g, states[i + 1].cells, r) == Recover(g, states[i].cells, r)
    ensures events[i].SaveEvent? && events[i].r == r ==>
              g.records[r].size <= |events[i].buf|
              && Recover(g, states[i + 1].cells, r) == Some(events[i].buf[..g.records[r].size])
    ensures events[i].CutEvent? && events[i].r == r && g.records[r].size <= g.pageSize ==>
              g.records[r].size <= |events[i].buf|
              && (Recover(g, states[i + 1].cells, r) == Recover(g, states[i].cells, r)
                  || Recover(g, states[i + 1].cells, r) == Some(events[i].buf[..g.records[r].size]))
  {
    RunRefines(g, states, events, i);
    RowAfter(g, events[i], View(g, states[i].cells), View(g, states[i + 1].cells), r);
  }

  /** A run that does not touch a record leaves what is recovered for it. */
  lemma {:induction false} RowStays(g: Geometry, states: seq<State>, events: seq<Event>, i: nat, j: nat, r: nat)
    requires WellFormed(g) && Healthy(g) && IsRun(g, states, events) && Settled(g, states[0])
    requires i <= j <= |events| && r < |g.records|
    requires forall k :: i <= k < j ==> !Touches(events[k], r)
    ensures Settled(g, states[i]) && Settled(g, states[j])
    ensures Recover(g, states[j].cells, r) == Recover(g, states[i].cells, r)
    decreases j - i
  {
    if i < j {
      RunRow(g, states, events, i, r);
      RowStays(g, states, events, i + 1, j, r);
    } else {
      RunRefines(g, states, events, i);
    }
  }

  /** Durability: what a save wrote is recovered at the end of every run that does not touch it again. */
  lemma Durable(g: Geometry, states: seq<State>, events: seq<Event>, i: nat, j: nat, r: nat, buf: seq<byte>)
    requires WellFormed(g) && Healthy(g) && IsRun(g, states, events) && Settled(g, states[0])
    requires i < j <= |events| && events[i] == SaveEvent(r, buf)
    requires forall k :: i < k < j ==> !Touches(events[k], r)
    ensures Settled(g, states[j]) && r < |g.records| && g.records[r].size <= |buf|
    ensures Recover(g, states[j].cells, r) == Some(buf[..g.records[r].size])
  {
    RunRow(g, states, events, i, r);
    RowStays(g, states, events, i + 1, j, r);
  }
}
