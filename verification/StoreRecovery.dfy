/** Saves, power cuts and restarts, seen by a reader that only has the flash. */
module StoreRecovery {
  import opened Flash
  import opened Paging
  import opened StoreSpec
  import opened StoreInvariant
  import opened StoreSaves

  /** What a save asks of its caller: the buffer, a record that fits, and a stamp that does not wrap. */
  ghost predicate CanTry(g: Geometry, st: State, r: nat, buf: seq<byte>)
    requires WellFormed(g)
  {
    CanSave(g, st, r, buf) && Fits(g, g.records[r]) && st.infos[r].stamp + 2 < 0x1_0000
  }

  ghost predicate CanRun(g: Geometry, st: State, r: nat, buf: seq<byte>)
    requires WellFormed(g)
  {
    Inv(g, st) && CanTry(g, st, r, buf)
  }

  lemma SaveKeeps(g: Geometry, st: State, r: nat, buf: seq<byte>)
    requires WellFormed(g) && CanRun(g, st, r, buf)
    ensures var after := Save(g, st, r, buf);
            Inv(g, after.st) && Spares(g, st, after.st, r) && (after.ok ==> Saved(g, after.st, r, buf))
  {
    if g.records[r].kind.FullBlk? {
      BlkSaveKeeps(g, st, r, buf);
    } else {
      PageSaveKeeps(g, st, r, buf);
    }
  }

  /** A cold scan yields the block, page and stamp that the index holds. */
  ghost predicate ScanMatches(g: Geometry, st: State, r: nat)
    requires WellFormed(g) && StateShaped(g, st) && r < |g.records|
  {
    var info, found := st.infos[r], Scan(g, st.cells, r);
    found.valid && found.blk == info.blk && found.page == info.page && found.stamp == info.stamp
  }

  lemma SavedIsRecovered(g: Geometry, st: State, r: nat, buf: seq<byte>)
    requires WellFormed(g) && Inv(g, st) && r < |g.records| && IsBuffer(g, g.records[r], buf)
    requires Fits(g, g.records[r]) && Saved(g, st, r, buf) && Findable(g, st.infos[r].blk)
    ensures Recover(g, st.cells, r) == Some(buf[..g.records[r].size])
    ensures ScanMatches(g, st, r)
  {
    var info, rec := st.infos[r], g.records[r];
    assert RecordOk(g, st, r);
    ScanFindsLive(g, st.cells, r, info.blk, info.page);
    ReadsBack(st.cells[info.blk], info.page, rec.name, buf, seq(rec.size, _ => 0 as byte), g.pageSize);
  }

  /** A successful save is what a restart recovers, at the place and with the stamp the index holds. */
  lemma RecoveryAfterSave(g: Geometry, st: State, r: nat, buf: seq<byte>)
    requires WellFormed(g) && CanRun(g, st, r, buf)
    ensures var after := Save(g, st, r, buf);
            && Inv(g, after.st)
            && (after.ok && Findable(g, after.st.infos[r].blk) ==>
                  && Recover(g, after.st.cells, r) == Some(buf[..g.records[r].size])
                  && ScanMatches(g, after.st, r))
  {
    SaveKeeps(g, st, r, buf);
    var after := Save(g, st, r, buf);
    if after.ok && Findable(g, after.st.infos[r].blk) {
      SavedIsRecovered(g, after.st, r, buf);
    }
  }

  // ---------------------------------------------------------------- other records

  /** Two valid states that agree on a record's entry and on its block recover the same bytes for it. */
  lemma SameRecovery(g: Geometry, st: State, post: State, q: nat)
    requires WellFormed(g) && Inv(g, st) && Inv(g, post) && q < |g.records| && Fits(g, g.records[q])
    requires post.infos[q].valid == st.infos[q].valid
    requires st.infos[q].valid ==>
               Findable(g, st.infos[q].blk) && post.infos[q].blk == st.infos[q].blk
               && post.infos[q].page == st.infos[q].page
               && post.cells[st.infos[q].blk] == st.cells[st.infos[q].blk]
    ensures Recover(g, post.cells, q) == Recover(g, st.cells, q)
  {
    var info := st.infos[q];
    assert RecordOk(g, st, q) && RecordOk(g, post, q);
    if info.valid {
      ScanFindsLive(g, st.cells, q, info.blk, info.page);
      ScanFindsLive(g, post.cells, q, info.blk, info.page);
    } else {
      ScanFindsNothing(g, st.cells, q);
      ScanFindsNothing(g, post.cells, q);
    }
  }

  /** Saving one record leaves what a restart recovers for every other one unchanged. */
  lemma NonInterference(g: Geometry, st: State, r: nat, buf: seq<byte>, q: nat)
    requires WellFormed(g) && CanRun(g, st, r, buf)
    requires q < |g.records| && q != r && Fits(g, g.records[q])
    requires st.infos[q].valid ==> Findable(g, st.infos[q].blk)
    ensures var after := Save(g, st, r, buf);
            && Inv(g, after.st) && Recover(g, after.st.cells, q) == Recover(g, st.cells, q)
  {
    SaveKeeps(g, st, r, buf);
    SameRecovery(g, st, Save(g, st, r, buf).st, q);
  }

  // ---------------------------------------------------------------- power cuts

  predicate SamePlace(before: Info, after: Info) {
    after.valid == before.valid && after.blk == before.blk
  }

  /** Block `n` is the one that this append takes. */
  ghost predicate PassTakes(g: Geometry, st: State, r: nat, excluded: nat, n: nat)
    requires WellFormed(g) && StateShaped(g, st) && r < |g.records|
  {
    MustMove(g, st, r) && FirstFree(g, st.reserved, excluded) == Some(n)
  }

  /** Block `n` is one of the blocks that this save takes. */
  ghost predicate Takes(g: Geometry, st: State, r: nat, buf: seq<byte>, n: nat)
    requires WellFormed(g) && CanSave(g, st, r, buf) && Fits(g, g.records[r])
  {
    if g.records[r].kind.FullBlk? then FirstFree(g, st.reserved, 0) == Some(n)
    else
      PagePassShaped(g, st, r, buf, 0);
      var first := PagePass(g, st, r, buf, 0);
      PassTakes(g, st, r, 0, n) || (first.ok && PassTakes(g, first.st, r, first.st.infos[r].blk, n))
  }

  /** The entry is fresh and the first `j` pages of its copy are those of `buf`; the others are not programmed. */
  ghost predicate SavedPart(g: Geometry, st: State, r: nat, buf: seq<byte>, j: nat)
    requires WellFormed(g) && StateShaped(g, st) && r < |g.records|
  {
    Fresh(g, st, r)
    && HoldsPart(st.cells[st.infos[r].blk], st.infos[r].page, Split(buf, g.pageSize), j, g.records[r].name)
  }

  /**
   * `cut` is a valid state whose flash is `cells`.  With `j == 0` nothing changed for a reader; otherwise record
   * `r` is at its new copy, of which `j` pages are in.
   */
  ghost predicate CutOk(g: Geometry, st: State, r: nat, buf: seq<byte>, cells: Cells, cut: State, j: nat)
    requires WellFormed(g) && Inv(g, st) && r < |g.records| && IsBuffer(g, g.records[r], buf)
  {
    Inv(g, cut) && cut.cells == cells && Spares(g, st, cut, r)
    && if j > 0 then SavedPart(g, cut, r, buf, j)
       else cut.infos[r] == st.infos[r]
            && (st.infos[r].valid ==> cut.cells[st.infos[r].blk] == st.cells[st.infos[r].blk])
  }

  /** A finished save is a cut one with all its pages in. */
  lemma SavedIsPart(g: Geometry, st: State, r: nat, buf: seq<byte>)
    requires WellFormed(g) && StateShaped(g, st) && r < |g.records| && IsBuffer(g, g.records[r], buf)
    requires Saved(g, st, r, buf)
    ensures SavedPart(g, st, r, buf, Pages(g, g.records[r]))
  {
    SavedPages(buf, g.records[r].size, g.pageSize);
    WholeIsPart(st.cells[st.infos[r].blk], st.infos[r].page, Split(buf, g.pageSize), g.records[r].name);
  }

  /** Writing to a free block, with a first page that is erased or loses to the live one, changes nothing. */
  lemma WriteFreeKeeps(g: Geometry, st: State, r: nat, n: nat, x: Block)
    requires WellFormed(g) && Inv(g, st) && r < |g.records| && Usable(g, n) && n !in st.reserved
    requires |x| == g.pages && Sized(x, g.pageSize)
    requires TagOf(x[0]) == ERASED_TAG
             || (TagOf(x[0]) == g.records[r].name && g.records[r].kind.FullBlk?
                 && st.infos[r].valid && st.infos[r].blk < n)
    ensures var post := st.(cells := st.cells[n := x]);
            Inv(g, post) && Spares(g, st, post, r)
            && (st.infos[r].valid ==> post.cells[st.infos[r].blk] == st.cells[st.infos[r].blk])
  {
    var post := st.(cells := st.cells[n := x]);
    assert Shaped(g, post.cells);
    forall q | 0 <= q < |g.records|
      ensures RecordOk(g, post, q)
      ensures st.infos[q].valid ==> post.cells[st.infos[q].blk] == st.cells[st.infos[q].blk]
    {
      assert RecordOk(g, st, q) && g.records[q].name != ERASED_TAG;
      forall b: nat | Opens(g, post.cells, g.records[q], b)
        ensures Opens(g, st.cells, g.records[q], b) || (b == n && q == r)
      {
        if q != r {
          assert g.records[q].name != g.records[r].name;
        }
      }
      if st.infos[q].valid && Fits(g, g.records[q]) {
        forall b: nat | Opens(g, post.cells, g.records[q], b) && b != st.infos[q].blk
          ensures Loses(g, post.cells, g.records[q], st.infos[q].blk, b)
        {
          if b != n {
            assert Loses(g, st.cells, g.records[q], st.infos[q].blk, b);
          }
        }
      }
    }
  }

  /** From page `at` on the block has the first `j` pages of the copy, and erased pages in place of the others. */
  ghost predicate HasPart(x: Block, at: nat, copy: seq<Page>, j: nat) {
    0 < j <= |copy| && at + |copy| <= |x|
    && (forall i :: 0 <= i < j ==> x[at + i] == copy[i])
    && forall i :: at + j <= i < at + |copy| ==> x[i] == Erased
  }

  lemma PartHolds(g: Geometry, rec: Record, buf: seq<byte>, stamp: nat, x: Block, at: nat, j: nat)
    requires WellFormed(g) && IsBuffer(g, rec, buf) && rec.name != ERASED_TAG
    requires HasPart(x, at, NewCopy(g, rec, buf, stamp), j)
    ensures HoldsPart(x, at, Split(buf, g.pageSize), j, rec.name)
    ensures TagOf(x[at]) == rec.name && StampOf(x[at]) == stamp
  {
    var copy, pieces := NewCopy(g, rec, buf, stamp), Split(buf, g.pageSize);
    SavedPages(buf, rec.size, g.pageSize);
    assert x[at + 0] == copy[0];
    forall i | 0 <= i < j ensures IsPiece(x[at + i], pieces[..j][i], rec.name) {
      assert x[at + i] == copy[i] == Programmed(pieces[i], rec.name, stamp);
    }
  }

  /** A new block that opens with the record is written, the old one not yet erased; the new one wins. */
  lemma CutBeforeErase(g: Geometry, st: State, r: nat, n: nat, content: Block) returns (cut: State)
    requires WellFormed(g) && Inv(g, st) && r < |g.records|
    requires Fits(g, g.records[r]) && st.infos[r].stamp + 1 < 0x1_0000
    requires CanRelocate(g, Bumped(st, r), r, n, content) && Outranks(g, Bumped(st, r), r, n)
    requires g.records[r].kind.FullBlk? && st.infos[r].valid ==> n < st.infos[r].blk
    ensures Inv(g, cut) && cut.cells == st.cells[n := content] && Spares(g, st, cut, r)
    ensures Fresh(g, cut, r) && cut.infos[r].blk == n && cut.infos[r].page == 0 && cut.cells[n] == content
  {
    var st0 := Bumped(st, r);
    BumpKeeps(g, st, r);
    RelocateMoves(g, st0, r, n, content, false);
    assert RecordOk(g, st0, r);
    cut := Relocate(g, st0, r, n, content, false).(cells := st.cells[n := content]);
    assert Shaped(g, cut.cells);
    assert Moved(g, st0, cut, r, n, content, true);
    MoveKeeps(g, st0, cut, r, n, content, true);
    assert Spares(g, st, st0, r);
    SparesTrans(g, st, st0, cut, r);
  }

  /** The first pages of the new copy are in, and the record is at that copy. */
  lemma PartWins(g: Geometry, st: State, r: nat, buf: seq<byte>, n: nat, content: Block, j: nat)
    returns (cut: State)
    requires WellFormed(g) && Inv(g, st) && CanSave(g, st, r, buf)
    requires Fits(g, g.records[r]) && st.infos[r].stamp + 1 < 0x1_0000
    requires CanRelocate(g, Bumped(st, r), r, n, content) && Outranks(g, Bumped(st, r), r, n)
    requires j > 0 && HoldsPart(content, 0, Split(buf, g.pageSize), j, g.records[r].name)
    requires g.records[r].kind.FullBlk? && st.infos[r].valid ==> n < st.infos[r].blk
    ensures CutOk(g, st, r, buf, st.cells[n := content], cut, j) && cut.infos[r].blk == n
  {
    cut := CutBeforeErase(g, st, r, n, content);
  }

  /** The flash states while a block is being filled from page `i` on never change the pages before it. */
  lemma {:induction false} FillStepKeeps(cells: Cells, n: nat, i: nat, copy: seq<Page>, pageSize: nat, k: nat)
    returns (x: Block)
    requires n < |cells| && |copy| > 0 && Sized(cells[n], pageSize) && Sized(copy, pageSize)
    requires k < |FillSteps(cells, n, i, copy)|
    ensures i <= |x| == |cells[n]| && Sized(x, pageSize) && FillSteps(cells, n, i, copy)[k] == cells[n := x]
    ensures forall p :: 0 <= p < i ==> x[p] == cells[n][p]
    decreases |cells[n]| - i
  {
    if k < |copy| {
      x := Put(cells[n], i, copy[..k + 1]);
    } else {
      var next := cells[n := Put(cells[n], i, copy)];
      x := FillStepKeeps(next, n, i + |copy|, copy, pageSize, k - |copy|);
      assert next[n := x] == cells[n := x];
    }
  }

  /** After `k + 1` programs of a fill the first copy of the erased block has its first `k + 1` pages, or all. */
  lemma FillStep(cells: Cells, n: nat, copy: seq<Page>, pageSize: nat, k: nat) returns (x: Block)
    requires n < |cells| && |copy| > 0 && Sized(copy, pageSize)
    requires forall p :: 0 <= p < |cells[n]| ==> cells[n][p] == Erased
    requires k < |FillSteps(cells, n, 0, copy)|
    ensures |x| == |cells[n]| && Sized(x, pageSize) && FillSteps(cells, n, 0, copy)[k] == cells[n := x]
    ensures HasPart(x, 0, copy, PieceLen(k + 1, |copy|))
  {
    if k < |copy| {
      x := Put(cells[n], 0, copy[..k + 1]);
    } else {
      var next := cells[n := Put(cells[n], 0, copy)];
      x := FillStepKeeps(next, n, |copy|, copy, pageSize, k - |copy|);
      assert next[n := x] == cells[n := x];
    }
  }

  /** The scan of a FullBlk record stops at its old block, which lies below the new one. */
  predicate StaysBelow(info: Info, n: nat) {
    info.valid && info.blk < n
  }

  lemma BlkCutWritten(g: Geometry, st: State, r: nat, buf: seq<byte>, n: nat, x: Block, j: nat) returns (cut: State)
    requires WellFormed(g) && CanRun(g, st, r, buf) && g.records[r].kind.FullBlk?
    requires FirstFree(g, st.reserved, 0) == Some(n)
    requires |x| == g.pages && Sized(x, g.pageSize)
    requires HasPart(x, 0, NewCopy(g, g.records[r], buf, st.infos[r].stamp + 1), j)
    ensures CutOk(g, st, r, buf, st.cells[n := x], cut, if StaysBelow(st.infos[r], n) then 0 else j)
    ensures SamePlace(st.infos[r], cut.infos[r]) || cut.infos[r].blk == n
  {
    var rec, info := g.records[r], st.infos[r];
    PartHolds(g, rec, buf, info.stamp + 1, x, 0, j);
    assert RecordOk(g, st, r);
    if StaysBelow(info, n) {
      WriteFreeKeeps(g, st, r, n, x);
      cut := st.(cells := st.cells[n := x]);
    } else {
      BlkRelocates(g, st, r, buf, n);
      assert CanRelocate(g, Bumped(st, r), r, n, x);
      cut := PartWins(g, st, r, buf, n, x, j);
    }
  }

  /** The flash after step `k` of a FullBlk save: as before, or with `j` pages of the new copy in. */
  lemma BlkCut(g: Geometry, st: State, r: nat, buf: seq<byte>, k: nat) returns (cut: State, j: nat)
    requires WellFormed(g) && CanRun(g, st, r, buf) && g.records[r].kind.FullBlk?
    requires k < |BlkSaveSteps(g, st, r, buf)|
    ensures CutOk(g, st, r, buf, BlkSaveSteps(g, st, r, buf)[k], cut, j)
    ensures SamePlace(st.infos[r], cut.infos[r]) || FirstFree(g, st.reserved, 0) == Some(cut.infos[r].blk)
    ensures FirstFree(g, st.reserved, 0).Some?
    ensures if StaysBelow(st.infos[r], FirstFree(g, st.reserved, 0).value)
            then j == 0 || j == Pages(g, g.records[r])
            else j == PieceLen(k, Pages(g, g.records[r]))
  {
    var n := FirstFree(g, st.reserved, 0).value;
    var cells := st.cells[n := ErasedBlock(g.pages)];
    var copy := NewCopy(g, g.records[r], buf, Bump(st.infos[r]).stamp);
    var fill := FillSteps(cells, n, 0, copy);
    FreshCopy(g, g.records[r], buf, Bump(st.infos[r]).stamp);
    if k == 0 {
      WriteFreeKeeps(g, st, r, n, ErasedBlock(g.pages));
      cut, j := st.(cells := cells), 0;
    } else if k <= |fill| {
      var x := FillStep(cells, n, copy, g.pageSize, k - 1);
      assert cells[n := x] == st.cells[n := x];
      cut := BlkCutWritten(g, st, r, buf, n, x, PieceLen(k, |copy|));
      j := if StaysBelow(st.infos[r], n) then 0 else PieceLen(k, |copy|);
    } else {
      BlkSaveKeeps(g, st, r, buf);
      cut, j := BlkSave(g, st, r, buf).st, |copy|;
      SavedIsPart(g, cut, r, buf);
    }
  }

  /** The new block of an append with the first `j` pages of the copy in. */
  lemma PageCutMoved(g: Geometry, st: State, r: nat, buf: seq<byte>, excluded: nat, n: nat, j: nat)
    returns (cut: State)
    requires WellFormed(g) && Inv(g, st) && CanSave(g, st, r, buf)
    requires g.records[r].kind.FullPage? && Fits(g, g.records[r]) && st.infos[r].stamp + 1 < 0x1_0000
    requires FirstFree(g, st.reserved, excluded) == Some(n) && 0 < j <= Pages(g, g.records[r])
    ensures var part := NewCopy(g, g.records[r], buf, Bump(st.infos[r]).stamp)[..j];
            CutOk(g, st, r, buf, st.cells[n := Put(ErasedBlock(g.pages), 0, part)], cut, j)
    ensures cut.infos[r].blk == n
  {
    var stamp := Bump(st.infos[r]).stamp;
    var copy := NewCopy(g, g.records[r], buf, stamp);
    var x := Put(ErasedBlock(g.pages), 0, copy[..j]);
    assert HasPart(x, 0, copy, j);
    PartHolds(g, g.records[r], buf, stamp, x, 0, j);
    PagePartRelocates(g, st, r, buf, n, excluded, j);
    cut := PartWins(g, st, r, buf, n, x, j);
  }

  /** An append to the block in use with the first `j` pages of the copy in. */
  lemma PageCutInPlace(g: Geometry, st: State, r: nat, buf: seq<byte>, j: nat) returns (cut: State)
    requires WellFormed(g) && Inv(g, st) && CanSave(g, st, r, buf) && !MustMove(g, st, r)
    requires g.records[r].kind.FullPage? && Fits(g, g.records[r]) && st.infos[r].stamp + 1 < 0x1_0000
    requires 0 < j <= Pages(g, g.records[r])
    ensures var info, part := st.infos[r], NewCopy(g, g.records[r], buf, Bump(st.infos[r]).stamp)[..j];
            var at := info.page + Pages(g, g.records[r]);
            CutOk(g, st, r, buf, st.cells[info.blk := Put(st.cells[info.blk], at, part)], cut, j)
    ensures SamePlace(st.infos[r], cut.infos[r])
  {
    var rec, st0 := g.records[r], Bumped(st, r);
    var info := st0.infos[r];
    var copy, at := NewCopy(g, rec, buf, info.stamp), info.page + Pages(g, rec);
    BumpKeeps(g, st, r);
    FreshCopy(g, rec, buf, info.stamp);
    AppendKeeps(g, st0, r, copy[..j]);
    var x := Put(st.cells[info.blk], at, copy[..j]);
    cut := State(st.cells[info.blk := x], st.reserved, st0.infos[r := info.(page := at)]);
    assert HasPart(x, at, copy, j) by {
      assert RecordOk(g, st, r);
    }
    PartHolds(g, rec, buf, info.stamp, x, at, j);
    assert Spares(g, st, st0, r);
    SparesTrans(g, st, st0, cut, r);
  }

  /** The flash after step `k` of an append that takes a new block. */
  lemma PageCutMoving(g: Geometry, st: State, r: nat, buf: seq<byte>, excluded: nat, n: nat, k: nat)
    returns (cut: State)
    requires WellFormed(g) && Inv(g, st) && CanSave(g, st, r, buf) && MustMove(g, st, r)
    requires g.records[r].kind.FullPage? && Fits(g, g.records[r]) && st.infos[r].stamp + 1 < 0x1_0000
    requires FirstFree(g, st.reserved, excluded) == Some(n) && k <= Pages(g, g.records[r])
    requires k < |PagePassSteps(g, st, r, buf, excluded)|
    ensures CutOk(g, st, r, buf, PagePassSteps(g, st, r, buf, excluded)[k], cut, k)
    ensures SamePlace(st.infos[r], cut.infos[r]) || cut.infos[r].blk == n
  {
    var copy := NewCopy(g, g.records[r], buf, Bump(st.infos[r]).stamp);
    var cells := st.cells[n := ErasedBlock(g.pages)];
    if k == 0 {
      WriteFreeKeeps(g, st, r, n, ErasedBlock(g.pages));
      cut := st.(cells := cells);
    } else {
      var x := Put(ErasedBlock(g.pages), 0, copy[..k]);
      assert ProgramSteps(cells, n, 0, copy)[k - 1] == cells[n := x] == st.cells[n := x];
      cut := PageCutMoved(g, st, r, buf, excluded, n, k);
    }
  }

  /** The flash after step `k` of one append: as before, or with `j` pages of the new copy in. */
  lemma PagePassCut(g: Geometry, st: State, r: nat, buf: seq<byte>, excluded: nat, k: nat)
    returns (cut: State, j: nat)
    requires WellFormed(g) && Inv(g, st) && CanSave(g, st, r, buf)
    requires g.records[r].kind.FullPage? && Fits(g, g.records[r]) && st.infos[r].stamp + 1 < 0x1_0000
    requires k < |PagePassSteps(g, st, r, buf, excluded)|
    ensures CutOk(g, st, r, buf, PagePassSteps(g, st, r, buf, excluded)[k], cut, j)
    ensures SamePlace(st.infos[r], cut.infos[r]) || PassTakes(g, st, r, excluded, cut.infos[r].blk)
    ensures j == if MustMove(g, st, r) then PieceLen(k, Pages(g, g.records[r])) else k + 1
  {
    var width := Pages(g, g.records[r]);
    if !MustMove(g, st, r) {
      j := k + 1;
      cut := PageCutInPlace(g, st, r, buf, j);
    } else if k <= width {
      j := k;
      cut := PageCutMoving(g, st, r, buf, excluded, FirstFree(g, st.reserved, excluded).value, k);
    } else {
      PagePassKeeps(g, st, r, buf, excluded);
      cut, j := PagePass(g, st, r, buf, excluded).st, width;
      SavedIsPart(g, cut, r, buf);
    }
  }

  /** A cut after a save that was complete: the record is at that save's copy, or at a newer one. */
  lemma CutAfter(g: Geometry, st: State, first: State, r: nat, buf: seq<byte>, cells: Cells, cut: State, j: nat)
    requires WellFormed(g) && Inv(g, st) && Inv(g, first) && CanSave(g, st, r, buf) && Spares(g, st, first, r)
    requires Saved(g, first, r, buf) && CutOk(g, first, r, buf, cells, cut, j)
    ensures CutOk(g, st, r, buf, cells, cut, if j == 0 then Pages(g, g.records[r]) else j)
  {
    SparesTrans(g, st, first, cut, r);
    SavedIsPart(g, first, r, buf);
  }

  /** Step `k` of a FullPage save is a step of its first append, or of its second one. */
  lemma PageStepAt(g: Geometry, st: State, r: nat, buf: seq<byte>, k: nat)
    requires CanSave(g, st, r, buf) && Fits(g, g.records[r]) && k < |PageSaveSteps(g, st, r, buf)|
    ensures var steps, first := PagePassSteps(g, st, r, buf, 0), PagePass(g, st, r, buf, 0);
            if k < |steps| then PageSaveSteps(g, st, r, buf)[k] == steps[k]
            else
              first.ok && CanSave(g, first.st, r, buf) && first.st.infos[r].valid &&
              var more := PagePassSteps(g, first.st, r, buf, first.st.infos[r].blk);
              k - |steps| < |more| && PageSaveSteps(g, st, r, buf)[k] == more[k - |steps|]
  {
    PagePassShaped(g, st, r, buf, 0);
  }

  /** The flash after step `k` of a FullPage save: as before, or at a new copy with `j` pages in. */
  lemma PageCut(g: Geometry, st: State, r: nat, buf: seq<byte>, k: nat) returns (cut: State, j: nat)
    requires WellFormed(g) && CanRun(g, st, r, buf) && g.records[r].kind.FullPage?
    requires k < |PageSaveSteps(g, st, r, buf)|
    ensures CutOk(g, st, r, buf, PageSaveSteps(g, st, r, buf)[k], cut, j)
    ensures SamePlace(st.infos[r], cut.infos[r]) || Takes(g, st, r, buf, cut.infos[r].blk)
    ensures k < |PagePassSteps(g, st, r, buf, 0)| ==>
              j == if MustMove(g, st, r) then PieceLen(k, Pages(g, g.records[r])) else k + 1
  {
    var n := |PagePassSteps(g, st, r, buf, 0)|;
    PageStepAt(g, st, r, buf, k);
    if k < n {
      cut, j := PagePassCut(g, st, r, buf, 0, k);
    } else {
      var first := PagePass(g, st, r, buf, 0).st;
      PagePassKeeps(g, st, r, buf, 0);
      cut, j := PageCutAgain(g, st, r, buf, first, k - n);
    }
  }

  lemma PageCutAgain(g: Geometry, st: State, r: nat, buf: seq<byte>, first: State, k: nat)
    returns (cut: State, j: nat)
    requires WellFormed(g) && CanRun(g, st, r, buf) && g.records[r].kind.FullPage?
    requires PagePass(g, st, r, buf, 0) == Outcome(true, first) && CanSave(g, first, r, buf)
    requires Inv(g, first) && Spares(g, st, first, r) && Saved(g, first, r, buf)
    requires first.infos[r].stamp == st.infos[r].stamp + 1
    requires k < |PagePassSteps(g, first, r, buf, first.infos[r].blk)|
    ensures CutOk(g, st, r, buf, PagePassSteps(g, first, r, buf, first.infos[r].blk)[k], cut, j)
    ensures SamePlace(st.infos[r], cut.infos[r]) || Takes(g, st, r, buf, cut.infos[r].blk)
  {
    var at;
    cut, at := PagePassCut(g, first, r, buf, first.infos[r].blk, k);
    CutAfter(g, st, first, r, buf, PagePassSteps(g, first, r, buf, first.infos[r].blk)[k], cut, at);
    j := if at == 0 then Pages(g, g.records[r]) else at;
  }
}
