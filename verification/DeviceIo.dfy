/** Transfers of several pages to a device: nand_read and nand_write of dev/phydev.c over the chip operations. */
module DeviceIo {
  import opened Arith
  import opened Addressing
  import opened ReadRetry
  import opened ChipOps

  const ARGUMENT_FAILURE := -8
  const ECC_FAILURE := 5

  /** A device: how its pages are striped, where it starts and how long it is, in pages of its own. */
  datatype Device = Device(multiChip: bool, twoPlane: bool, chipnr: nat, offset: nat, pages: nat,
                           slc: bool, kind: SlcKind, perBlock: nat)

  /** The operation of turn `k` of a transfer that starts at page `first` of the device. */
  function OpAt(d: Device, first: nat, k: nat): Op
    requires SlcBlock(d.kind, d.perBlock)
  {
    Op(d.multiChip, d.twoPlane, d.chipnr, TransferPage(d.slc, d.kind, d.offset, first, k, d.perBlock))
  }

  /** The units that one page of the device takes. */
  function UnitsOf(c: Config, d: Device): nat {
    var chips := if d.multiChip then c.chips else 1;
    if d.twoPlane then 2 * chips else chips
  }

  lemma OpUnits(c: Config, d: Device, first: nat, k: nat)
    requires SlcBlock(d.kind, d.perBlock)
    ensures ChipCount(c, OpAt(d, first, k)) * Planes(OpAt(d, first, k)) == UnitsOf(c, d)
  {
  }

  /** The chips reach all pages of a transfer of `count` pages, and their pages have addresses of their own. */
  ghost predicate CanTransfer(c: Config, m: nat, d: Device, first: nat, count: nat, cells: Array) {
    && c.diePages == Pow2(m) && IsPow2(c.inner) && c.limit <= 254 && SlcBlock(d.kind, d.perBlock)
    && forall k: nat :: k < count ==>
         Reaches(c, OpAt(d, first, k), cells) && OpAt(d, first, k).page < Times(c.inner, c.diePages)
  }

  /** The page of turn `k` holds `buf`. */
  ghost predicate PageHolds(c: Config, d: Device, first: nat, k: nat, cells: Array, buf: seq<Unit>)
    requires SlcBlock(d.kind, d.perBlock) && Reaches(c, OpAt(d, first, k), cells) && |buf| == UnitsOf(c, d)
  {
    OpUnits(c, d, first, k);
    HoldsPage(c, OpAt(d, first, k), cells, buf)
  }

  ghost predicate HasPages(c: Config, m: nat, d: Device, first: nat, cells: Array, bufs: seq<seq<Unit>>, n: nat)
    requires n <= |bufs| && CanTransfer(c, m, d, first, |bufs|, cells)
    requires forall k :: 0 <= k < |bufs| ==> |bufs[k]| == UnitsOf(c, d)
  {
    forall k: nat :: k < n ==> PageHolds(c, d, first, k, cells, bufs[k])
  }

  /** A page that holds its buffer still does after another page of the same shape was written. */
  lemma OtherPageHolds(c: Config, m: nat, op: Op, other: Op, before: Array, after: Array, buf: seq<Unit>)
    requires c.perBlock > 0 && c.diePages == Pow2(m) && IsPow2(c.inner)
    requires op.page != other.page && op.twoPlane == other.twoPlane
    requires op.page < Times(c.inner, c.diePages) && other.page < Times(c.inner, c.diePages)
    requires Reaches(c, other, before) && Reaches(c, other, after) && SameElsewhere(c, op, before, after)
    requires |buf| == ChipCount(c, other) * Planes(other) && HoldsPage(c, other, before, buf)
    ensures HoldsPage(c, other, after, buf)
  {
    forall i: nat, p: nat | i < ChipCount(c, other) && p < Planes(other)
      ensures UnitAt(other, i, p) < |buf| && CellAt(c, other, after, i, p) == Written(buf[UnitAt(other, i, p)])
    {
      OtherPagesKeep(c, m, op, other, before, after, i, p);
      assert CellAt(c, other, before, i, p) == Written(buf[UnitAt(other, i, p)]);
    }
  }

  lemma StillReaches(c: Config, op: Op, other: Op, before: Array, after: Array)
    requires c.perBlock > 0 && Reaches(c, other, before) && SameElsewhere(c, op, before, after)
    ensures Reaches(c, other, after)
  {
    forall i: nat, p: nat | i < ChipCount(c, other) && p < Planes(other) ensures InArray(c, other, after, i, p) {
      assert InArray(c, other, before, i, p);
      assert |after[ChipOf(c, other, i)]| == |before[ChipOf(c, other, i)]|;
    }
  }

  lemma StillCan(c: Config, m: nat, d: Device, first: nat, count: nat, op: Op, before: Array, after: Array)
    requires c.perBlock > 0 && CanTransfer(c, m, d, first, count, before) && SameElsewhere(c, op, before, after)
    ensures CanTransfer(c, m, d, first, count, after)
  {
    forall k: nat | k < count ensures Reaches(c, OpAt(d, first, k), after) {
      StillReaches(c, op, OpAt(d, first, k), before, after);
    }
  }

  /** One more page is in, and the earlier ones are still there, unless they are all the same page. */
  lemma PageMore(c: Config, m: nat, d: Device, first: nat, before: Array, after: Array, bufs: seq<seq<Unit>>, k: nat)
    requires k < |bufs| && c.perBlock > 0
    requires CanTransfer(c, m, d, first, |bufs|, before) && CanTransfer(c, m, d, first, |bufs|, after)
    requires forall j :: 0 <= j < |bufs| ==> |bufs[j]| == UnitsOf(c, d)
    requires !d.slc || |bufs| == 1
    requires HasPages(c, m, d, first, before, bufs, k)
    requires SameElsewhere(c, OpAt(d, first, k), before, after)
    requires PageHolds(c, d, first, k, after, bufs[k])
    ensures HasPages(c, m, d, first, after, bufs, k + 1)
  {
    forall j: nat | j < k ensures PageHolds(c, d, first, j, after, bufs[j]) {
      OpUnits(c, d, first, j);
      assert PageHolds(c, d, first, j, before, bufs[j]);
      OtherPageHolds(c, m, OpAt(d, first, k), OpAt(d, first, j), before, after, bufs[j]);
    }
  }

  /** The pages of the transfer's turns from `n` on are erased. */
  ghost predicate BlankPages(c: Config, m: nat, d: Device, first: nat, cells: Array, count: nat, n: nat)
    requires CanTransfer(c, m, d, first, count, cells)
  {
    forall k: nat :: n <= k < count ==> IsBlank(c, OpAt(d, first, k), cells)
  }

  lemma BlankStays(c: Config, m: nat, d: Device, first: nat, before: Array, after: Array, count: nat, k: nat)
    requires k < count && c.perBlock > 0 && (!d.slc || count == 1)
    requires CanTransfer(c, m, d, first, count, before) && CanTransfer(c, m, d, first, count, after)
    requires SameElsewhere(c, OpAt(d, first, k), before, after) && BlankPages(c, m, d, first, before, count, k)
    ensures BlankPages(c, m, d, first, after, count, k + 1)
  {
    forall j: nat | k + 1 <= j < count ensures IsBlank(c, OpAt(d, first, j), after) {
      assert IsBlank(c, OpAt(d, first, j), before);
      forall i: nat, p: nat | i < ChipCount(c, OpAt(d, first, j)) && p < Planes(OpAt(d, first, j))
        ensures CellAt(c, OpAt(d, first, j), after, i, p) == Erased
      {
        OtherPagesKeep(c, m, OpAt(d, first, k), OpAt(d, first, j), before, after, i, p);
      }
    }
  }

  /** Without SLC mode turn `k` goes to page `first + k` of the device, which starts at page `offset` of the chips. */
  lemma TurnWhere(d: Device, first: nat, k: nat)
    requires SlcBlock(d.kind, d.perBlock)
    ensures var op := OpAt(d, first, k);
            && op.multiChip == d.multiChip && op.twoPlane == d.twoPlane && op.chipnr == d.chipnr
            && (!d.slc ==> op.page == d.offset + first + k)
            && (d.slc ==>
                  Div(op.page, 2 * d.perBlock) == Div(d.offset, 2 * d.perBlock) + Div(first, d.perBlock)
                  && Mod(op.page, 2 * d.perBlock) == SlcPage(d.kind, Mod(first, d.perBlock), d.perBlock))
  {
    if d.slc {
      SlcMapParts(d.kind, d.offset, first, d.perBlock);
    }
  }

  /** Two devices one behind the other never share a page, as long as their transfers stay inside them. */
  lemma DevicesApart(a: Device, b: Device, i: nat, j: nat)
    requires SlcBlock(a.kind, a.perBlock) && SlcBlock(b.kind, b.perBlock) && !a.slc && !b.slc
    requires a.offset + a.pages <= b.offset && i < a.pages && j < b.pages
    ensures OpAt(a, i, 0).page != OpAt(b, j, 0).page
    ensures a.offset <= OpAt(a, i, 0).page < a.offset + a.pages
  {
    TurnWhere(a, i, 0);
    TurnWhere(b, j, 0);
  }

  /**
   * Write `bufs` from page `first` of the device on.  On a device that is not in SLC mode, or for a single page, a
   * successful write to erased pages leaves every buffer in its own page.
   */
  method NandWrite(ch: Chips, ghost m: nat, d: Device, first: nat, bufs: seq<seq<Unit>>)
    returns (ret: int, written: nat)
    requires CanTransfer(ch.c, m, d, first, |bufs|, ch.cells)
    requires forall k :: 0 <= k < |bufs| ==> |bufs[k]| == UnitsOf(ch.c, d)
    modifies ch
    ensures CanTransfer(ch.c, m, d, first, |bufs|, ch.cells) && written <= |bufs|
    ensures first + |bufs| > d.pages <==> ret == ARGUMENT_FAILURE
    ensures ret == ARGUMENT_FAILURE ==> ch.cells == old(ch.cells) && written == 0
    ensures ret == 0 || ret == ARGUMENT_FAILURE || ret == WRITE_FAILED
    ensures old(ch.status) <= ch.status
    ensures ret == WRITE_FAILED ==> written < |bufs| && exists k :: |old(ch.status)| <= k < |ch.status| && !ch.status[k]
    ensures ret == 0 ==> written == |bufs| && forall k :: |old(ch.status)| <= k < |ch.status| ==> ch.status[k]
    ensures ret == 0 && (!d.slc || |bufs| <= 1) && BlankPages(ch.c, m, d, first, old(ch.cells), |bufs|, 0) ==>
              HasPages(ch.c, m, d, first, ch.cells, bufs, |bufs|)
  {
    written := 0;
    if first + |bufs| > d.pages {
      return ARGUMENT_FAILURE, 0;
    }
    ghost var clean := (!d.slc || |bufs| <= 1) && BlankPages(ch.c, m, d, first, ch.cells, |bufs|, 0);
    while written < |bufs|
      invariant written <= |bufs| && CanTransfer(ch.c, m, d, first, |bufs|, ch.cells)
      invariant old(ch.status) <= ch.status
      invariant forall k :: |old(ch.status)| <= k < |ch.status| ==> ch.status[k]
      invariant clean ==> HasPages(ch.c, m, d, first, ch.cells, bufs, written)
      invariant clean ==> BlankPages(ch.c, m, d, first, ch.cells, |bufs|, written)
    {
      ghost var before := ch.cells;
      var op := OpAt(d, first, written);
      OpUnits(ch.c, d, first, written);
      ret := ch.WritePage(op, bufs[written]);
      StillCan(ch.c, m, d, first, |bufs|, op, before, ch.cells);
      if ret < 0 {
        return;
      }
      if clean {
        assert IsBlank(ch.c, op, before);
        PageMore(ch.c, m, d, first, before, ch.cells, bufs, written);
        BlankStays(ch.c, m, d, first, before, ch.cells, |bufs|, written);
      }
      written := written + 1;
    }
    ret := 0;
  }

  /** Read one page after the other into a fresh buffer; an ECC error ends the transfer. */
  method NandRead(ch: Chips, d: Device, first: nat, count: nat, o: nat -> Oracle)
    returns (ret: int, bufs: seq<seq<Unit>>)
    requires ch.c.limit <= 254 && SlcBlock(d.kind, d.perBlock)
    ensures first + count > d.pages <==> ret == ARGUMENT_FAILURE
    ensures ret == 0 || ret == ARGUMENT_FAILURE || ret == ECC_FAILURE
    ensures ret == 0 ==> |bufs| == count
    ensures forall k :: 0 <= k < |bufs| ==>
              var e := Read(SetupOf(ch.c, OpAt(d, first, k)), o(k), START);
              bufs[k] == e.buf && e.errs == 0
    ensures ret == ECC_FAILURE ==>
              |bufs| < count && Read(SetupOf(ch.c, OpAt(d, first, |bufs|)), o(|bufs|), START).errs > 0
  {
    bufs := [];
    if first + count > d.pages {
      return ARGUMENT_FAILURE, bufs;
    }
    while |bufs| < count
      invariant |bufs| <= count
      invariant forall k :: 0 <= k < |bufs| ==>
                  var e := Read(SetupOf(ch.c, OpAt(d, first, k)), o(k), START);
                  bufs[k] == e.buf && e.errs == 0
    {
      var buf, errs, dmas := ch.ReadPage(OpAt(d, first, |bufs|), o(|bufs|));
      if errs > 0 {
        return ECC_FAILURE, bufs;
      }
      bufs := bufs + [buf];
    }
    ret := 0;
  }

  /** The device round trip: what a successful write left, a successful read of the same pages returns. */
  lemma DeviceRoundTrip(c: Config, m: nat, d: Device, first: nat, cells: Array, bufs: seq<seq<Unit>>,
                        o: nat -> Oracle, k: nat)
    requires CanTransfer(c, m, d, first, |bufs|, cells)
    requires forall j :: 0 <= j < |bufs| ==> |bufs[j]| == UnitsOf(c, d)
    requires HasPages(c, m, d, first, cells, bufs, |bufs|) && k < |bufs|
    requires Faithful(o(k), Met(c, OpAt(d, first, k), cells))
    ensures var e := Read(SetupOf(c, OpAt(d, first, k)), o(k), START); e.errs == 0 ==> e.buf == bufs[k]
  {
    OpUnits(c, d, first, k);
    assert PageHolds(c, d, first, k, cells, bufs[k]);
    WriteThenRead(c, OpAt(d, first, k), cells, bufs[k], o(k));
  }

  /** In SLC mode all turns of a transfer go to one page, so only equal buffers can all be there. */
  lemma SlcTransferNeedsEqual(c: Config, m: nat, d: Device, first: nat, cells: Array, bufs: seq<seq<Unit>>,
                              j: nat, k: nat)
    requires CanTransfer(c, m, d, first, |bufs|, cells) && d.slc
    requires forall i :: 0 <= i < |bufs| ==> |bufs[i]| == UnitsOf(c, d)
    requires HasPages(c, m, d, first, cells, bufs, |bufs|) && j < |bufs| && k < |bufs|
    ensures bufs[j] == bufs[k]
  {
    var op := OpAt(d, first, j);
    assert OpAt(d, first, k) == op;
    assert PageHolds(c, d, first, j, cells, bufs[j]) && PageHolds(c, d, first, k, cells, bufs[k]);
    forall u | 0 <= u < UnitsOf(c, d) ensures bufs[j][u] == bufs[k][u] {
      var i, p := if d.twoPlane then u / 2 else u, if d.twoPlane then u % 2 else 0;
      assert UnitAt(op, i, p) == u;
      assert CellAt(c, op, cells, i, p) == Written(bufs[j][u]) && CellAt(c, op, cells, i, p) == Written(bufs[k][u]);
    }
  }
}
