/** One save keeps the invariant, and a cold scan afterwards finds what the index says. */
module StoreSaves {
  import opened Flash
  import opened Paging
  import opened StoreSpec
  import opened StoreInvariant
  import opened StoreReserved

  // ---------------------------------------------------------------- scan against index

  lemma {:induction false} LocateOnlyFindable(g: Geometry, cells: Cells, rec: Record, b: nat, end: nat, info: Info)
    requires WellFormed(g) && Shaped(g, cells)
    requires g.start <= b && end <= g.start + RESERVED_BLOCK_CNT
    requires info.valid ==> Findable(g, info.blk)
    ensures var r := Locate(g, cells, rec, b, end, info); r.valid ==> Findable(g, r.blk)
    decreases end - b
  {
    if b < end {
      if !g.status[b].Good? {
        LocateOnlyFindable(g, cells, rec, b + 1, end, info);
      } else {
        var next := Visit(info, b, cells[b][0], rec.name);
        if !(rec.kind.FullBlk? && next.valid && next.blk != 0) {
          LocateOnlyFindable(g, cells, rec, b + 1, end, next);
        }
      }
    }
  }

  lemma NewestIsLive(g: Geometry, block: Block, rec: Record, v: nat)
    requires g.pageSize >= 1 && LiveShape(g, block, rec, v)
    ensures Newest(g, block, rec) == Some(v)
  {
  }

  lemma ScanFindsLive(g: Geometry, cells: Cells, r: nat, live: nat, v: nat)
    requires WellFormed(g) && Shaped(g, cells) && r < |g.records|
    requires LiveAt(g, cells, g.records[r], live, v) && Findable(g, live)
    ensures var info := Scan(g, cells, r);
            info.valid && info.blk == live && info.page == v && info.stamp == StampOf(cells[live][v])
    ensures Recover(g, cells, r)
            == Some(ReadPages(cells[live], v, g.records[r].name,
                              seq(g.records[r].size, _ => 0 as byte), g.pageSize))
  {
    LocateFindsLive(g, cells, g.records[r], live, g.start, COLD);
    NewestIsLive(g, cells[live], g.records[r], v);
  }

  lemma ScanFindsNothing(g: Geometry, cells: Cells, r: nat)
    requires WellFormed(g) && Shaped(g, cells) && r < |g.records|
    requires Absent(g, cells, g.records[r])
    ensures Scan(g, cells, r) == COLD && Recover(g, cells, r) == None
  {
    LocateFindsNothing(g, cells, g.records[r], g.start, COLD);
  }

  /** The scan and the index name the same copy exactly when the scan looks at the record's block at all. */
  lemma ScanAgreesWithIndex(g: Geometry, st: State, r: nat)
    requires WellFormed(g) && Inv(g, st) && r < |g.records|
    requires st.infos[r].valid && Fits(g, g.records[r])
    ensures var info, found := st.infos[r], Scan(g, st.cells, r);
            && ((found.valid && found.blk == info.blk && found.page == info.page) <==> Findable(g, info.blk))
            && (Findable(g, info.blk) && Fresh(g, st, r) ==> found.stamp == info.stamp)
  {
    var info := st.infos[r];
    assert RecordOk(g, st, r);
    if Findable(g, info.blk) {
      ScanFindsLive(g, st.cells, r, info.blk, info.page);
    } else {
      LocateOnlyFindable(g, st.cells, g.records[r], g.start, g.start + RESERVED_BLOCK_CNT, COLD);
      LocateInRange(g, st.cells, g.records[r], g.start, g.start + RESERVED_BLOCK_CNT, COLD);
    }
  }

  // ---------------------------------------------------------------- content of a freshly written block

  lemma FreshCopy(g: Geometry, rec: Record, buf: seq<byte>, stamp: nat)
    requires g.pageSize >= 1 && IsBuffer(g, rec, buf)
    ensures var copy := NewCopy(g, rec, buf, stamp);
            && |copy| == Pages(g, rec) > 0
            && (forall k :: 0 <= k < |copy| ==>
                  copy[k].Programmed? && copy[k].name == rec.name && copy[k].stamp == stamp
                  && |copy[k].data| == g.pageSize)
  {
    SavedPages(buf, rec.size, g.pageSize);
  }

  /** The first pages of a copy at the start of an erased block are already the newest copy of that block. */
  lemma PutErasedIsLive(g: Geometry, rec: Record, copy: seq<Page>)
    requires WellFormed(g) && rec.name != ERASED_TAG && rec.kind.FullPage? && Fits(g, rec)
    requires 0 < |copy| <= Pages(g, rec) && forall k :: 0 <= k < |copy| ==> TagOf(copy[k]) == rec.name
    ensures LiveShape(g, Put(ErasedBlock(g.pages), 0, copy), rec, 0)
  {
    var block, width := Put(ErasedBlock(g.pages), 0, copy), Pages(g, rec);
    assert TagOf(block[0]) == rec.name;
    assert LastCopy(block, 0, width, rec.name, None) == LastCopy(block, width, width, rec.name, Some(0));
    if width < |block| {
      assert block[width] == Erased;
    }
  }

  lemma FillErasedIsLive(g: Geometry, rec: Record, copy: seq<Page>)
    requires WellFormed(g) && rec.kind.FullBlk? && Fits(g, rec)
    requires |copy| == Pages(g, rec) && TagOf(copy[0]) == rec.name
    ensures var block := Fill(ErasedBlock(g.pages), 0, copy);
            block[..|copy|] == copy && LiveShape(g, block, rec, 0)
  {
    var block := Fill(ErasedBlock(g.pages), 0, copy);
    forall j | 0 <= j < |copy| ensures block[j] == copy[j] {
      FillReplicates(ErasedBlock(g.pages), 0, copy, 0, j);
    }
  }

  lemma {:induction false} FillShaped(block: Block, i: nat, copy: seq<Page>, pageSize: nat)
    requires |copy| > 0
    requires Sized(block, pageSize) && Sized(copy, pageSize)
    ensures Sized(Fill(block, i, copy), pageSize)
    decreases |block| - i
  {
    if i + |copy| <= |block| {
      FillShaped(Put(block, i, copy), i + |copy|, copy, pageSize);
    }
  }

  // ---------------------------------------------------------------- appending to a log

  lemma {:induction false} LastCopyAtLeast(block: Block, i: nat, width: nat, name: string, last: nat, v: nat)
    requires width > 0 && last < |block| && LastCopy(block, i, width, name, Some(last)) == Some(v)
    requires last <= i
    ensures last <= v
    decreases |block| - i
  {
    if i < |block| && TagOf(block[i]) == name {
      LastCopyAtLeast(block, i + width, width, name, i, v);
    }
  }

  /** One more copy right behind the last one becomes the last one. */
  lemma {:induction false} LastCopyExtends(block: Block, after: Block, i: nat, width: nat, name: string,
                                           last: Option<nat>, v: nat)
    requires width > 0 && |after| == |block|
    requires last.Some? ==> last.value < |block| && i == last.value + width
    requires LastCopy(block, i, width, name, last) == Some(v)
    requires v + width < |block|
    requires forall k :: 0 <= k < v + width ==> after[k] == block[k]
    requires TagOf(after[v + width]) == name && TagOf(block[v + width]) != name
    requires v + 2 * width < |block| ==> TagOf(after[v + 2 * width]) != name
    ensures LastCopy(after, i, width, name, last) == Some(v + width)
    decreases |block| - i
  {
    if i < |block| && TagOf(block[i]) == name {
      LastCopyAtLeast(block, i + width, width, name, i, v);
      LastCopyExtends(block, after, i + width, width, name, Some(i), v);
    } else {
      assert last == Some(v) && i == v + width;
      assert LastCopy(after, i, width, name, last) == LastCopy(after, i + width, width, name, Some(i));
    }
  }

  /** A copy, or its first pages, right behind the newest one becomes the newest. */
  lemma AppendIsLive(g: Geometry, block: Block, rec: Record, v: nat, copy: seq<Page>)
    requires WellFormed(g) && rec.name != ERASED_TAG && rec.kind.FullPage?
    requires LiveShape(g, block, rec, v)
    requires 0 < |copy| <= Pages(g, rec) && v + 2 * Pages(g, rec) <= |block|
    requires forall k :: 0 <= k < |copy| ==> TagOf(copy[k]) == rec.name && StampOf(block[v]) <= StampOf(copy[k])
    ensures LiveShape(g, Put(block, v + Pages(g, rec), copy), rec, v + Pages(g, rec))
  {
    var width := Pages(g, rec);
    var after := Put(block, v + width, copy);
    assert after[v + width] == copy[0] && block[v + width] == Erased;
    if v + 2 * width < |block| {
      assert after[v + 2 * width] == Erased;
    }
    LastCopyExtends(block, after, 0, width, rec.name, None, v);
  }

  // ---------------------------------------------------------------- moving a record to a fresh block

  /** Block `n` is free, and `content` is what a save of record `r` leaves in it. */
  ghost predicate CanRelocate(g: Geometry, st: State, r: nat, n: nat, content: Block)
    requires WellFormed(g)
  {
    Inv(g, st) && r < |g.records| && Usable(g, n) && n !in st.reserved
    && |content| == g.pages && Sized(content, g.pageSize)
    && (TagOf(content[0]) == g.records[r].name || TagOf(content[0]) == ERASED_TAG)
    && (Fits(g, g.records[r]) ==>
          LiveShape(g, content, g.records[r], 0) && StampOf(content[0]) == st.infos[r].stamp)
  }

  /** The flash after a move: `content` in block `n`, the old block erased unless `keep` says "not yet". */
  ghost predicate MovedCells(g: Geometry, prev: Info, before: Cells, after: Cells, n: nat, content: Block,
                             keep: bool)
  {
    |after| == |before|
    && forall b :: 0 <= b < |before| ==>
         after[b] == if !keep && prev.valid && b == prev.blk then ErasedBlock(g.pages)
                     else if b == n then content else before[b]
  }

  /** The table after a move: `n` in, the old block out, one more used slot on a first save. */
  ghost predicate MovedTable(g: Geometry, prev: Info, before: seq<nat>, after: seq<nat>, n: nat)
    requires WellFormed(g)
  {
    |after| == |before| && ReservedOk(g, after)
    && UsedSlots(after) == UsedSlots(before) + (if prev.valid then 0 else 1)
    && forall x :: x != FREE_SLOT ==>
         (x in after <==> x == n || (x in before && !(prev.valid && x == prev.blk)))
  }

  /** The observable effect of the move from `st` to `post`. */
  ghost predicate Moved(g: Geometry, st: State, post: State, r: nat, n: nat, content: Block, keep: bool)
    requires WellFormed(g) && StateShaped(g, st) && r < |g.records|
  {
    && StateShaped(g, post) && OneBlockEach(post.infos)
    && MovedCells(g, st.infos[r], st.cells, post.cells, n, content, keep)
    && MovedTable(g, st.infos[r], st.reserved, post.reserved, n)
    && post.infos[r].valid && post.infos[r].blk == n && post.infos[r].page == 0
    && post.infos == st.infos[r := post.infos[r]] && post.infos[r].stamp == st.infos[r].stamp
  }

  lemma RelocateTable(g: Geometry, st: State, r: nat, n: nat, content: Block)
    requires WellFormed(g) && CanRelocate(g, st, r, n, content)
    ensures MovedTable(g, st.infos[r], st.reserved, TableAfterMove(st.infos[r], st.reserved, n), n)
  {
    assert RecordOk(g, st, r);
    ReserveEffect(g, st.reserved, n);
    if st.infos[r].valid {
      ReleaseEffect(g, Reserve(st.reserved, n), st.infos[r].blk);
    }
  }

  lemma RelocateCells(g: Geometry, st: State, r: nat, n: nat, content: Block, update: bool)
    requires WellFormed(g) && CanRelocate(g, st, r, n, content)
    ensures var post := Relocate(g, st, r, n, content, update);
            && Shaped(g, post.cells)
            && MovedCells(g, st.infos[r], st.cells, post.cells, n, content, false)
            && post.reserved == TableAfterMove(st.infos[r], st.reserved, n)
  {
    assert RecordOk(g, st, r);
  }

  lemma IndexStaysApart(infos: seq<Info>, r: nat, moved: Info)
    requires r < |infos| && OneBlockEach(infos)
    requires forall q :: 0 <= q < |infos| && infos[q].valid ==> infos[q].blk != moved.blk
    ensures OneBlockEach(infos[r := moved])
  {
  }

  lemma RelocateMoves(g: Geometry, st: State, r: nat, n: nat, content: Block, update: bool)
    requires WellFormed(g) && CanRelocate(g, st, r, n, content)
    ensures Moved(g, st, Relocate(g, st, r, n, content, update), r, n, content, false)
  {
    var post := Relocate(g, st, r, n, content, update);
    RelocateCells(g, st, r, n, content, update);
    RelocateTable(g, st, r, n, content);
    forall q | 0 <= q < |st.infos| && st.infos[q].valid ensures st.infos[q].blk != n {
      assert RecordOk(g, st, q);
    }
    var moved := st.infos[r].(valid := true, blk := n, page := 0, update := update);
    IndexStaysApart(st.infos, r, moved);
    assert post.infos[r] == moved && post.infos == st.infos[r := moved];
  }

  /** The move is invisible to every other record. */
  lemma MoveOpens(g: Geometry, st: State, post: State, r: nat, n: nat, content: Block, keep: bool, q: nat, b: nat)
    requires WellFormed(g) && CanRelocate(g, st, r, n, content) && Moved(g, st, post, r, n, content, keep)
    requires q < |g.records| && Opens(g, post.cells, g.records[q], b)
    requires q != r || b != n
    ensures Opens(g, st.cells, g.records[q], b) && post.cells[b] == st.cells[b] && b != n
    ensures !keep ==> !(st.infos[r].valid && b == st.infos[r].blk)
  {
    assert g.records[q].name != ERASED_TAG;
    if q != r {
      assert g.records[q].name != g.records[r].name;
    }
  }

  lemma MoveSparesOthers(g: Geometry, st: State, post: State, r: nat, n: nat, content: Block, keep: bool, q: nat)
    requires WellFormed(g) && CanRelocate(g, st, r, n, content) && Moved(g, st, post, r, n, content, keep)
    requires q < |g.records| && q != r
    ensures RecordOk(g, post, q)
    ensures st.infos[q].valid ==> post.cells[st.infos[q].blk] == st.cells[st.infos[q].blk]
  {
    var info, rec := st.infos[q], g.records[q];
    assert RecordOk(g, st, q) && RecordOk(g, st, r);
    forall b: nat | Opens(g, post.cells, rec, b)
      ensures Opens(g, st.cells, rec, b) && post.cells[b] == st.cells[b] && b != n
    {
      MoveOpens(g, st, post, r, n, content, keep, q, b);
    }
    if info.valid && Fits(g, rec) {
      forall b: nat | Opens(g, post.cells, rec, b) && b != info.blk
        ensures Loses(g, post.cells, rec, info.blk, b)
      {
        assert Loses(g, st.cells, rec, info.blk, b);
      }
    }
  }

  /** The new copy outranks whatever the flash still holds of the record. */
  ghost predicate Outranks(g: Geometry, st: State, r: nat, n: nat)
    requires WellFormed(g) && StateShaped(g, st) && r < |g.records|
  {
    var info := st.infos[r];
    match g.records[r].kind
    case FullPage => info.valid && Fits(g, g.records[r]) ==> StampOf(st.cells[info.blk][info.page]) < info.stamp
    case FullBlk => forall b :: Usable(g, b) && b !in st.reserved ==> n <= b
  }

  lemma MoveSelf(g: Geometry, st: State, post: State, r: nat, n: nat, content: Block, keep: bool)
    requires WellFormed(g) && CanRelocate(g, st, r, n, content) && Moved(g, st, post, r, n, content, keep)
    requires Outranks(g, st, r, n)
    requires keep && g.records[r].kind.FullBlk? && st.infos[r].valid ==> n < st.infos[r].blk
    ensures RecordOk(g, post, r)
  {
    var prev, rec := st.infos[r], g.records[r];
    assert RecordOk(g, st, r);
    assert post.cells[n] == content;
    forall b: nat | Opens(g, post.cells, rec, b) && b != n
      ensures b !in post.reserved && (Fits(g, rec) ==> Loses(g, post.cells, rec, n, b))
    {
      MoveOpens(g, st, post, r, n, content, keep, r, b);
      if !(prev.valid && b == prev.blk) {
        assert b !in st.reserved;
        if Fits(g, rec) && rec.kind.FullPage? {
          assert Loses(g, st.cells, rec, prev.blk, b);
        }
      }
    }
  }

  /** Nothing of the other records changes: neither their entries nor the blocks these name. */
  ghost predicate Spares(g: Geometry, st: State, post: State, r: nat)
    requires WellFormed(g) && StateShaped(g, st) && StateShaped(g, post)
  {
    forall q :: 0 <= q < |g.records| && q != r ==>
                  post.infos[q] == st.infos[q]
                  && (st.infos[q].valid ==> post.cells[st.infos[q].blk] == st.cells[st.infos[q].blk])
  }

  lemma MoveKeeps(g: Geometry, st: State, post: State, r: nat, n: nat, content: Block, keep: bool)
    requires WellFormed(g) && CanRelocate(g, st, r, n, content) && Moved(g, st, post, r, n, content, keep)
    requires Outranks(g, st, r, n)
    requires keep && g.records[r].kind.FullBlk? && st.infos[r].valid ==> n < st.infos[r].blk
    ensures Inv(g, post) && Spares(g, st, post, r)
    ensures Fits(g, g.records[r]) ==> Fresh(g, post, r)
  {
    MoveSelf(g, st, post, r, n, content, keep);
    forall q | 0 <= q < |g.records| && q != r
      ensures RecordOk(g, post, q)
      ensures st.infos[q].valid ==> post.cells[st.infos[q].blk] == st.cells[st.infos[q].blk]
    {
      MoveSparesOthers(g, st, post, r, n, content, keep, q);
    }
    assert RecordOk(g, st, r);
    assert post.cells[n] == content;
  }

  lemma RelocateKeeps(g: Geometry, st: State, r: nat, n: nat, content: Block, update: bool)
    requires WellFormed(g) && CanRelocate(g, st, r, n, content) && Outranks(g, st, r, n)
    ensures var post := Relocate(g, st, r, n, content, update);
            && Inv(g, post) && Moved(g, st, post, r, n, content, false) && Spares(g, st, post, r)
            && (Fits(g, g.records[r]) ==> Fresh(g, post, r))
  {
    RelocateMoves(g, st, r, n, content, update);
    MoveKeeps(g, st, Relocate(g, st, r, n, content, update), r, n, content, false);
  }

  // ---------------------------------------------------------------- saves

  lemma BumpKeeps(g: Geometry, st: State, r: nat)
    requires WellFormed(g) && Inv(g, st) && r < |g.records| && st.infos[r].stamp + 1 < 0x1_0000
    ensures Inv(g, Bumped(st, r))
    ensures Bumped(st, r).infos[r].stamp == st.infos[r].stamp + 1
  {
    var post := Bumped(st, r);
    assert post.infos[r].blk == st.infos[r].blk && post.infos[r].valid == st.infos[r].valid;
    forall q | 0 <= q < |g.records| ensures RecordOk(g, post, q) {
      assert RecordOk(g, st, q);
    }
  }

  /** After a save that reports success the index is fresh and its block holds the caller's bytes. */
  ghost predicate Saved(g: Geometry, st: State, r: nat, buf: seq<byte>)
    requires WellFormed(g) && StateShaped(g, st) && r < |g.records|
  {
    Fresh(g, st, r)
    && Holds(st.cells[st.infos[r].blk], st.infos[r].page, Split(buf, g.pageSize), g.records[r].name)
  }

  /** The allocator's block is fit to take the record, and the lowest block that is. */
  lemma FreeBlockTakes(g: Geometry, st: State, r: nat, n: nat, content: Block, excluded: nat)
    requires WellFormed(g) && Inv(g, st) && r < |g.records|
    requires FirstFree(g, st.reserved, excluded) == Some(n)
    requires |content| == g.pages && Sized(content, g.pageSize)
    requires TagOf(content[0]) == g.records[r].name || TagOf(content[0]) == ERASED_TAG
    requires Fits(g, g.records[r]) ==>
               LiveShape(g, content, g.records[r], 0) && StampOf(content[0]) == st.infos[r].stamp
    ensures CanRelocate(g, st, r, n, content)
    ensures excluded == 0 ==> forall b :: Usable(g, b) && b !in st.reserved ==> n <= b
  {
    if excluded == 0 {
      forall b | Usable(g, b) && b !in st.reserved ensures n <= b {
        assert Candidate(g, st.reserved, 0, b);
      }
    }
  }

  lemma BlkRelocates(g: Geometry, st: State, r: nat, buf: seq<byte>, n: nat)
    requires WellFormed(g) && Inv(g, st) && CanSave(g, st, r, buf)
    requires g.records[r].kind.FullBlk? && st.infos[r].stamp + 1 < 0x1_0000
    requires FirstFree(g, st.reserved, 0) == Some(n)
    ensures var st0 := Bumped(st, r);
            var copy := NewCopy(g, g.records[r], buf, st0.infos[r].stamp);
            var content := Fill(ErasedBlock(g.pages), 0, copy);
            && CanRelocate(g, st0, r, n, content) && Outranks(g, st0, r, n)
            && (Fits(g, g.records[r]) ==> Holds(content, 0, Split(buf, g.pageSize), g.records[r].name))
  {
    var rec, st0 := g.records[r], Bumped(st, r);
    var stamp := st0.infos[r].stamp;
    BumpKeeps(g, st, r);
    FreshCopy(g, rec, buf, stamp);
    FillShaped(ErasedBlock(g.pages), 0, NewCopy(g, rec, buf, stamp), g.pageSize);
    BlkContent(g, rec, buf, stamp);
    FreeBlockTakes(g, st0, r, n, Fill(ErasedBlock(g.pages), 0, NewCopy(g, rec, buf, stamp)), 0);
  }

  lemma SparesTrans(g: Geometry, a: State, b: State, c: State, r: nat)
    requires WellFormed(g) && StateShaped(g, a) && StateShaped(g, b) && StateShaped(g, c)
    requires Spares(g, a, b, r) && Spares(g, b, c, r)
    ensures Spares(g, a, c, r)
  {
  }

  /** What the two kinds of move have in common: bump the stamp, then relocate. */
  lemma MovedIsSaved(g: Geometry, st: State, r: nat, buf: seq<byte>, n: nat, content: Block, update: bool)
    requires WellFormed(g) && Inv(g, st) && r < |g.records| && st.infos[r].stamp + 1 < 0x1_0000
    requires CanRelocate(g, Bumped(st, r), r, n, content) && Outranks(g, Bumped(st, r), r, n)
    requires Fits(g, g.records[r]) ==> Holds(content, 0, Split(buf, g.pageSize), g.records[r].name)
    ensures var post := Relocate(g, Bumped(st, r), r, n, content, update);
            && Inv(g, post) && Spares(g, st, post, r)
            && post.infos[r].stamp == st.infos[r].stamp + 1
            && (Fits(g, g.records[r]) ==> Saved(g, post, r, buf))
  {
    var st0 := Bumped(st, r);
    var post := Relocate(g, st0, r, n, content, update);
    BumpKeeps(g, st, r);
    assert Spares(g, st, st0, r);
    RelocateKeeps(g, st0, r, n, content, update);
    SparesTrans(g, st, st0, post, r);
    assert RecordOk(g, st0, r);
    assert post.cells[n] == content;
  }

  lemma BlkSaveKeeps(g: Geometry, st: State, r: nat, buf: seq<byte>)
    requires WellFormed(g) && Inv(g, st) && CanSave(g, st, r, buf)
    requires g.records[r].kind.FullBlk? && st.infos[r].stamp + 1 < 0x1_0000
    ensures var after := BlkSave(g, st, r, buf);
            && Inv(g, after.st) && Spares(g, st, after.st, r)
            && (after.ok && Fits(g, g.records[r]) ==> Saved(g, after.st, r, buf))
  {
    var rec, st0 := g.records[r], Bumped(st, r);
    BumpKeeps(g, st, r);
    var free := FirstFree(g, st.reserved, 0);
    if free.Some? {
      var content := Fill(ErasedBlock(g.pages), 0, NewCopy(g, rec, buf, st0.infos[r].stamp));
      BlkRelocates(g, st, r, buf, free.value);
      MovedIsSaved(g, st, r, buf, free.value, content, st.infos[r].update);
    }
  }

  lemma BlkContent(g: Geometry, rec: Record, buf: seq<byte>, stamp: nat)
    requires WellFormed(g) && IsBuffer(g, rec, buf) && rec.kind.FullBlk?
    ensures var copy := NewCopy(g, rec, buf, stamp);
            var content := Fill(ErasedBlock(g.pages), 0, copy);
            && (!Fits(g, rec) ==> content == ErasedBlock(g.pages))
            && (Fits(g, rec) ==>
                  LiveShape(g, content, rec, 0) && StampOf(content[0]) == stamp
                  && Holds(content, 0, Split(buf, g.pageSize), rec.name))
  {
    var copy := NewCopy(g, rec, buf, stamp);
    var content := Fill(ErasedBlock(g.pages), 0, copy);
    FreshCopy(g, rec, buf, stamp);
    if Fits(g, rec) {
      FillErasedIsLive(g, rec, copy);
      assert content[0] == content[..|copy|][0];
      assert content[0..0 + |copy|] == content[..|copy|];
      CopyHolds(content, 0, buf, g.pageSize, rec.name, stamp);
    }
  }

  lemma PageContent(g: Geometry, rec: Record, buf: seq<byte>, stamp: nat, block: Block, at: nat)
    requires WellFormed(g) && IsBuffer(g, rec, buf) && |block| == g.pages && at + Pages(g, rec) <= g.pages
    ensures var copy := NewCopy(g, rec, buf, stamp);
            var content := Put(block, at, copy);
            && StampOf(content[at]) == stamp
            && Holds(content, at, Split(buf, g.pageSize), rec.name)
            && (Sized(block, g.pageSize) ==> Sized(content, g.pageSize))
  {
    var copy := NewCopy(g, rec, buf, stamp);
    var content := Put(block, at, copy);
    FreshCopy(g, rec, buf, stamp);
    assert content[at] == copy[0];
    assert content[at..at + |copy|] == copy;
    CopyHolds(content, at, buf, g.pageSize, rec.name, stamp);
  }

  lemma AppendKeeps(g: Geometry, st: State, r: nat, copy: seq<Page>)
    requires WellFormed(g) && Inv(g, st) && r < |g.records|
    requires g.records[r].kind.FullPage? && Fits(g, g.records[r]) && !MustMove(g, st, r)
    requires 0 < |copy| <= Pages(g, g.records[r]) && Sized(copy, g.pageSize)
    requires forall k :: 0 <= k < |copy| ==>
               TagOf(copy[k]) == g.records[r].name && StampOf(copy[k]) == st.infos[r].stamp
    ensures var info := st.infos[r];
            var at := info.page + Pages(g, g.records[r]);
            var post := State(st.cells[info.blk := Put(st.cells[info.blk], at, copy)], st.reserved,
                              st.infos[r := info.(page := at)]);
            Inv(g, post) && Fresh(g, post, r) && Spares(g, st, post, r)
  {
    var rec, info := g.records[r], st.infos[r];
    var at := info.page + Pages(g, rec);
    var block := Put(st.cells[info.blk], at, copy);
    var post := State(st.cells[info.blk := block], st.reserved, st.infos[r := info.(page := at)]);
    assert RecordOk(g, st, r);
    AppendIsLive(g, st.cells[info.blk], rec, info.page, copy);
    assert block[at] == copy[0] && block[0] == st.cells[info.blk][0];
    assert Shaped(g, post.cells);
    forall b | 0 <= b < |st.cells| ensures First(post.cells, b) == First(st.cells, b) {
    }
    forall q | 0 <= q < |g.records| ensures RecordOk(g, post, q) {
      SameFirstPages(g, st, post, r, q);
    }
    AppendSpares(g, st, post, r);
  }

  lemma AppendSpares(g: Geometry, st: State, post: State, r: nat)
    requires WellFormed(g) && Inv(g, st) && StateShaped(g, post) && r < |g.records| && st.infos[r].valid
    requires post.infos == st.infos[r := post.infos[r]] && post.infos[r].blk == st.infos[r].blk
    requires post.infos[r].valid
    requires post.cells == st.cells[st.infos[r].blk := post.cells[st.infos[r].blk]]
    ensures Spares(g, st, post, r) && OneBlockEach(post.infos)
  {
  }

  /** A change behind the first page of record `r`'s own block disturbs nothing but the entry of `r`. */
  lemma SameFirstPages(g: Geometry, st: State, post: State, r: nat, q: nat)
    requires WellFormed(g) && Inv(g, st) && StateShaped(g, post) && r < |g.records| && q < |g.records|
    requires st.infos[r].valid && post.reserved == st.reserved
    requires forall b :: 0 <= b < |st.cells| ==> First(post.cells, b) == First(st.cells, b)
    requires forall b :: 0 <= b < |st.cells| && b != st.infos[r].blk ==> post.cells[b] == st.cells[b]
    requires forall p :: 0 <= p < |st.infos| && p != r ==> post.infos[p] == st.infos[p]
    requires post.infos[r].valid && post.infos[r].blk == st.infos[r].blk
    requires Fits(g, g.records[r]) ==>
               LiveShape(g, post.cells[st.infos[r].blk], g.records[r], post.infos[r].page)
               && StampOf(post.cells[st.infos[r].blk][post.infos[r].page]) <= post.infos[r].stamp
    ensures RecordOk(g, post, q)
  {
    var rec, info := g.records[q], st.infos[q];
    assert RecordOk(g, st, q);
    forall b: nat | Opens(g, post.cells, rec, b) ensures Opens(g, st.cells, rec, b) {
    }
    if info.valid && Fits(g, rec) {
      forall b: nat | Opens(g, post.cells, rec, b) && b != info.blk
        ensures Loses(g, post.cells, rec, info.blk, b)
      {
        assert Loses(g, st.cells, rec, info.blk, b);
      }
    }
  }

  /** The first `j` pages of the copy in a fresh block are enough for the block to take the record. */
  lemma PagePartRelocates(g: Geometry, st: State, r: nat, buf: seq<byte>, n: nat, excluded: nat, j: nat)
    requires WellFormed(g) && Inv(g, st) && CanSave(g, st, r, buf)
    requires g.records[r].kind.FullPage? && Fits(g, g.records[r]) && st.infos[r].stamp + 1 < 0x1_0000
    requires FirstFree(g, st.reserved, excluded) == Some(n) && 0 < j <= Pages(g, g.records[r])
    ensures var st0 := Bumped(st, r);
            var content := Put(ErasedBlock(g.pages), 0, NewCopy(g, g.records[r], buf, st0.infos[r].stamp)[..j]);
            CanRelocate(g, st0, r, n, content) && Outranks(g, st0, r, n)
  {
    var rec, st0 := g.records[r], Bumped(st, r);
    var part := NewCopy(g, rec, buf, st0.infos[r].stamp)[..j];
    BumpKeeps(g, st, r);
    assert RecordOk(g, st, r);
    FreshCopy(g, rec, buf, st0.infos[r].stamp);
    PutErasedIsLive(g, rec, part);
    assert Put(ErasedBlock(g.pages), 0, part)[0] == part[0];
    FreeBlockTakes(g, st0, r, n, Put(ErasedBlock(g.pages), 0, part), excluded);
  }

  lemma PageRelocates(g: Geometry, st: State, r: nat, buf: seq<byte>, n: nat, excluded: nat)
    requires WellFormed(g) && Inv(g, st) && CanSave(g, st, r, buf)
    requires g.records[r].kind.FullPage? && Fits(g, g.records[r]) && st.infos[r].stamp + 1 < 0x1_0000
    requires FirstFree(g, st.reserved, excluded) == Some(n)
    ensures var st0 := Bumped(st, r);
            var content := Put(ErasedBlock(g.pages), 0, NewCopy(g, g.records[r], buf, st0.infos[r].stamp));
            && CanRelocate(g, st0, r, n, content) && Outranks(g, st0, r, n)
            && Holds(content, 0, Split(buf, g.pageSize), g.records[r].name)
  {
    var copy := NewCopy(g, g.records[r], buf, Bumped(st, r).infos[r].stamp);
    PagePartRelocates(g, st, r, buf, n, excluded, |copy|);
    assert copy[..|copy|] == copy;
    PageContent(g, g.records[r], buf, Bumped(st, r).infos[r].stamp, ErasedBlock(g.pages), 0);
  }

  lemma PageMoveKeeps(g: Geometry, st: State, r: nat, buf: seq<byte>, excluded: nat)
    requires WellFormed(g) && Inv(g, st) && CanSave(g, st, r, buf) && MustMove(g, st, r)
    requires g.records[r].kind.FullPage? && Fits(g, g.records[r]) && st.infos[r].stamp + 1 < 0x1_0000
    ensures var after := PagePass(g, st, r, buf, excluded);
            && Inv(g, after.st) && Spares(g, st, after.st, r)
            && after.st.infos[r].stamp == st.infos[r].stamp + 1
            && (after.ok ==> Saved(g, after.st, r, buf))
  {
    var st0 := Bumped(st, r);
    BumpKeeps(g, st, r);
    var free := FirstFree(g, st.reserved, excluded);
    if free.Some? {
      var content := Put(ErasedBlock(g.pages), 0, NewCopy(g, g.records[r], buf, st0.infos[r].stamp));
      PageRelocates(g, st, r, buf, free.value, excluded);
      MovedIsSaved(g, st, r, buf, free.value, content, false);
    }
  }

  lemma PageAppendKeeps(g: Geometry, st: State, r: nat, buf: seq<byte>, excluded: nat)
    requires WellFormed(g) && Inv(g, st) && CanSave(g, st, r, buf) && !MustMove(g, st, r)
    requires g.records[r].kind.FullPage? && Fits(g, g.records[r]) && st.infos[r].stamp + 1 < 0x1_0000
    ensures var after := PagePass(g, st, r, buf, excluded);
            && after.ok && Inv(g, after.st) && Spares(g, st, after.st, r)
            && after.st.infos[r].stamp == st.infos[r].stamp + 1
            && Saved(g, after.st, r, buf)
  {
    var rec, st0 := g.records[r], Bumped(st, r);
    var info := st0.infos[r];
    BumpKeeps(g, st, r);
    FreshCopy(g, rec, buf, info.stamp);
    AppendKeeps(g, st0, r, NewCopy(g, rec, buf, info.stamp));
    PageContent(g, rec, buf, info.stamp, st.cells[info.blk], info.page + Pages(g, rec));
  }

  lemma PagePassKeeps(g: Geometry, st: State, r: nat, buf: seq<byte>, excluded: nat)
    requires WellFormed(g) && Inv(g, st) && CanSave(g, st, r, buf)
    requires g.records[r].kind.FullPage? && Fits(g, g.records[r]) && st.infos[r].stamp + 1 < 0x1_0000
    ensures var after := PagePass(g, st, r, buf, excluded);
            && Inv(g, after.st) && Spares(g, st, after.st, r)
            && after.st.infos[r].stamp == st.infos[r].stamp + 1
            && (after.ok ==> Saved(g, after.st, r, buf))
  {
    if MustMove(g, st, r) {
      PageMoveKeeps(g, st, r, buf, excluded);
    } else {
      PageAppendKeeps(g, st, r, buf, excluded);
    }
  }

  lemma PageSaveKeeps(g: Geometry, st: State, r: nat, buf: seq<byte>)
    requires WellFormed(g) && Inv(g, st) && CanSave(g, st, r, buf)
    requires g.records[r].kind.FullPage? && Fits(g, g.records[r]) && st.infos[r].stamp + 2 < 0x1_0000
    ensures var after := PageSave(g, st, r, buf);
            && Inv(g, after.st) && Spares(g, st, after.st, r)
            && (after.ok ==> Saved(g, after.st, r, buf))
  {
    PagePassKeeps(g, st, r, buf, 0);
    var first := PagePass(g, st, r, buf, 0);
    if first.ok {
      PagePassKeeps(g, first.st, r, buf, first.st.infos[r].blk);
    }
  }
}
