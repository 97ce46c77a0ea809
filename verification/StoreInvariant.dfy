/** What every save, every power cut and every restart keeps true of the record store. */
module StoreInvariant {
  import opened Flash
  import opened StoreSpec

  function First(cells: Cells, b: nat): Page
    requires b < |cells| && |cells[b]| > 0
  {
    cells[b][0]
  }

  /** Does block `b` open with a page of the record? */
  ghost predicate Opens(g: Geometry, cells: Cells, rec: Record, b: nat)
    requires WellFormed(g) && Shaped(g, cells)
  {
    Usable(g, b) && TagOf(First(cells, b)) == rec.name
  }

  ghost predicate Absent(g: Geometry, cells: Cells, rec: Record)
    requires WellFormed(g) && Shaped(g, cells)
  {
    forall b :: !Opens(g, cells, rec, b)
  }

  /** The newest copy of the record is in this block, at page `v`. */
  ghost predicate LiveShape(g: Geometry, block: Block, rec: Record, v: nat)
    requires g.pageSize >= 1
  {
    v + Pages(g, rec) <= |block|
    && TagOf(block[0]) == rec.name
    && match rec.kind
       case FullBlk => v == 0
       case FullPage =>
         && LastCopy(block, 0, Pages(g, rec), rec.name, None) == Some(v)
         && StampOf(block[0]) <= StampOf(block[v])
         && forall k :: v + Pages(g, rec) <= k < |block| ==> block[k] == Erased
  }

  /**
   * A stale block of the record (left by a power cut) never wins over the live block `live`: it is older,
   * or, for a record whose scan stops at the first hit, it lies higher.
   */
  ghost predicate Loses(g: Geometry, cells: Cells, rec: Record, live: nat, b: nat)
    requires WellFormed(g) && Shaped(g, cells) && Usable(g, live) && Usable(g, b)
  {
    match rec.kind
    case FullBlk => live < b
    case FullPage => StampOf(First(cells, b)) < StampOf(First(cells, live))
  }

  ghost predicate LiveAt(g: Geometry, cells: Cells, rec: Record, live: nat, v: nat)
    requires WellFormed(g) && Shaped(g, cells)
  {
    Usable(g, live) && LiveShape(g, cells[live], rec, v)
    && forall b :: Opens(g, cells, rec, b) && b != live ==> Loses(g, cells, rec, live, b)
  }

  ghost predicate RecordOk(g: Geometry, st: State, r: nat)
    requires WellFormed(g) && StateShaped(g, st) && r < |g.records|
  {
    var info, rec := st.infos[r], g.records[r];
    if !info.valid then info.page == 0 && Absent(g, st.cells, rec)
    else
      Usable(g, info.blk) && info.blk in st.reserved
      && (forall b :: Opens(g, st.cells, rec, b) && b != info.blk ==> b !in st.reserved)
      && (Fits(g, rec) ==>
            LiveAt(g, st.cells, rec, info.blk, info.page)
            && StampOf(st.cells[info.blk][info.page]) <= info.stamp)
  }

  /** The used slots of the reservation table are distinct blocks of the region. */
  ghost predicate ReservedOk(g: Geometry, reserved: seq<nat>)
    requires WellFormed(g)
  {
    (forall i :: 0 <= i < |reserved| && reserved[i] != FREE_SLOT ==> Usable(g, reserved[i]))
    && (forall i, j :: 0 <= i < j < |reserved| && reserved[i] != FREE_SLOT ==> reserved[i] != reserved[j])
  }

  ghost predicate OneBlockEach(infos: seq<Info>) {
    forall q, r :: 0 <= q < r < |infos| && infos[q].valid && infos[r].valid ==> infos[q].blk != infos[r].blk
  }

  ghost predicate Inv(g: Geometry, st: State)
    requires WellFormed(g)
  {
    StateShaped(g, st) && ReservedOk(g, st.reserved) && OneBlockEach(st.infos)
    && forall r :: 0 <= r < |g.records| ==> RecordOk(g, st, r)
  }

  /** The entry is as fresh as the flash: true after a restart and after every successful save. */
  ghost predicate Fresh(g: Geometry, st: State, r: nat)
    requires WellFormed(g) && StateShaped(g, st) && r < |g.records|
  {
    var info := st.infos[r];
    info.valid && info.blk < |st.cells| && info.page < g.pages
    && info.stamp == StampOf(st.cells[info.blk][info.page])
  }

  // ---------------------------------------------------------------- the scan finds the live block

  ghost predicate BeforeLive(g: Geometry, cells: Cells, rec: Record, live: nat, info: Info)
    requires WellFormed(g) && Shaped(g, cells) && Usable(g, live)
  {
    info.valid ==> rec.kind.FullPage? && info.stamp < StampOf(First(cells, live))
  }

  ghost predicate AtLive(g: Geometry, cells: Cells, live: nat, info: Info)
    requires WellFormed(g) && Shaped(g, cells) && Usable(g, live)
  {
    info.valid && info.blk == live && info.stamp == StampOf(First(cells, live))
  }

  lemma {:induction false} LocateFindsLive(g: Geometry, cells: Cells, rec: Record, live: nat, b: nat, info: Info)
    requires WellFormed(g) && Shaped(g, cells)
    requires Usable(g, live) && Findable(g, live) && Opens(g, cells, rec, live)
    requires forall c :: Opens(g, cells, rec, c) && c != live ==> Loses(g, cells, rec, live, c)
    requires g.start <= b <= g.start + RESERVED_BLOCK_CNT
    requires if b <= live then BeforeLive(g, cells, rec, live, info)
             else rec.kind.FullPage? && AtLive(g, cells, live, info)
    ensures AtLive(g, cells, live, Locate(g, cells, rec, b, g.start + RESERVED_BLOCK_CNT, info))
    decreases g.start + RESERVED_BLOCK_CNT - b
  {
    if b < g.start + RESERVED_BLOCK_CNT {
      if !g.status[b].Good? {
        LocateFindsLive(g, cells, rec, live, b + 1, info);
      } else {
        assert Usable(g, b);
        if b != live && TagOf(cells[b][0]) == rec.name {
          assert Opens(g, cells, rec, b);
        }
        var next := Visit(info, b, cells[b][0], rec.name);
        if b < live {
          assert BeforeLive(g, cells, rec, live, next);
        } else {
          assert AtLive(g, cells, live, next);
        }
        if !(rec.kind.FullBlk? && next.valid && next.blk != 0) {
          LocateFindsLive(g, cells, rec, live, b + 1, next);
        }
      }
    }
  }

  lemma {:induction false} LocateFindsNothing(g: Geometry, cells: Cells, rec: Record, b: nat, info: Info)
    requires WellFormed(g) && Shaped(g, cells)
    requires g.start <= b <= g.start + RESERVED_BLOCK_CNT
    requires forall c :: Findable(g, c) ==> !Opens(g, cells, rec, c)
    requires !info.valid
    ensures Locate(g, cells, rec, b, g.start + RESERVED_BLOCK_CNT, info) == info
    decreases g.start + RESERVED_BLOCK_CNT - b
  {
    if b < g.start + RESERVED_BLOCK_CNT {
      if g.status[b].Good? {
        assert Usable(g, b) && Findable(g, b);
        assert !Opens(g, cells, rec, b);
      }
      LocateFindsNothing(g, cells, rec, b + 1, info);
    }
  }
}
