/** Striped page operations of phy/chip_operation.c on an array of chips. */
module ChipOps {
  import opened Arith
  import opened Sequences
  import opened Addressing
  import opened ReadRetry

  const WRITE_FAILED := -14

  /** The part of `ops_para` and the controller that places an operation. */
  datatype Op = Op(multiChip: bool, twoPlane: bool, chipnr: nat, page: nat)

  datatype Config = Config(chips: nat, perBlock: nat, diePages: nat, inner: nat, limit: nat, ones: Unit)

  type Array = seq<seq<Cell>>

  function ChipCount(c: Config, op: Op): nat {
    if op.multiChip then c.chips else 1
  }

  function Planes(op: Op): nat {
    if op.twoPlane then 2 else 1
  }

  function ChipOf(c: Config, op: Op, i: nat): nat {
    if ChipCount(c, op) > 1 then i else op.chipnr
  }

  function Row(c: Config, op: Op, plane: nat): nat
    requires c.perBlock > 0
  {
    var page := Adjust(op.page, c.diePages, c.inner);
    if op.twoPlane then
      MulNat(2 * (page / c.perBlock) + plane, c.perBlock);
      PlanePage(page, plane, c.perBlock)
    else page
  }

  /** Where unit (`i`, `p`) is in the caller's buffer: chip-major, plane-minor. */
  function UnitAt(op: Op, i: nat, p: nat): nat {
    if op.twoPlane then 2 * i + p else i
  }

  predicate InArray(c: Config, op: Op, cells: Array, i: nat, p: nat)
    requires c.perBlock > 0
  {
    ChipOf(c, op, i) < |cells| && Row(c, op, p) < |cells[ChipOf(c, op, i)]|
  }

  /** The array has all the pages that the operation names. */
  ghost predicate Reaches(c: Config, op: Op, cells: Array) {
    c.perBlock > 0 && forall i: nat, p: nat :: i < ChipCount(c, op) && p < Planes(op) ==> InArray(c, op, cells, i, p)
  }

  ghost function CellAt(c: Config, op: Op, cells: Array, i: nat, p: nat): Cell
    requires Reaches(c, op, cells) && i < ChipCount(c, op) && p < Planes(op)
  {
    assert InArray(c, op, cells, i, p);
    cells[ChipOf(c, op, i)][Row(c, op, p)]
  }

  ghost predicate IsTarget(c: Config, op: Op, chip: nat, row: nat)
    requires c.perBlock > 0
  {
    exists i: nat, p: nat :: i < ChipCount(c, op) && p < Planes(op) && chip == ChipOf(c, op, i) && row == Row(c, op, p)
  }

  /** Two arrays that differ at the targets of `op` alone. */
  ghost predicate SameElsewhere(c: Config, op: Op, before: Array, after: Array)
    requires c.perBlock > 0
  {
    |after| == |before|
    && forall chip: nat :: chip < |before| ==>
         |after[chip]| == |before[chip]|
         && forall row: nat :: row < |before[chip]| && !IsTarget(c, op, chip, row) ==>
              after[chip][row] == before[chip][row]
  }

  /** The chips below `n` that programmed without a failure hold their units. */
  ghost predicate Holds(c: Config, op: Op, cells: Array, buf: seq<Unit>, n: nat, passed: seq<bool>)
    requires Reaches(c, op, cells) && |buf| == ChipCount(c, op) * Planes(op) && n <= ChipCount(c, op)
  {
    |passed| == n && forall i: nat, p: nat :: i < n && p < Planes(op) && passed[i] ==>
      UnitAt(op, i, p) < |buf| && CellAt(c, op, cells, i, p) == Written(buf[UnitAt(op, i, p)])
  }

  /** Every chip and plane holds its unit of the buffer. */
  ghost predicate HoldsPage(c: Config, op: Op, cells: Array, buf: seq<Unit>)
    requires Reaches(c, op, cells) && |buf| == ChipCount(c, op) * Planes(op)
  {
    Holds(c, op, cells, buf, ChipCount(c, op), seq(ChipCount(c, op), _ => true))
  }

  /** All pages that the operation names are erased. */
  ghost predicate IsBlank(c: Config, op: Op, cells: Array)
    requires Reaches(c, op, cells)
  {
    forall i: nat, p: nat :: i < ChipCount(c, op) && p < Planes(op) ==> CellAt(c, op, cells, i, p) == Erased
  }

  lemma RowsApart(c: Config, op: Op)
    requires c.perBlock > 0 && op.twoPlane
    ensures Row(c, op, 0) != Row(c, op, 1)
  {
    var page := Adjust(op.page, c.diePages, c.inner);
    if Row(c, op, 0) == Row(c, op, 1) {
      PlanePageInjective(page, 0, page, 1, c.perBlock);
      assert false;
    }
  }

  /** The chips from `n` on have not been programmed yet. */
  ghost predicate BlankFrom(c: Config, op: Op, cells: Array, n: nat)
    requires Reaches(c, op, cells)
  {
    forall i: nat, p: nat :: n <= i < ChipCount(c, op) && p < Planes(op) ==> CellAt(c, op, cells, i, p) == Erased
  }

  /** One more chip was sent its share, `units`. */
  lemma HoldsMore(c: Config, op: Op, before: Array, after: Array, buf: seq<Unit>, n: nat, passed: seq<bool>, ok: bool,
                  units: seq<Unit>)
    requires Reaches(c, op, before) && Reaches(c, op, after) && n < ChipCount(c, op)
    requires |buf| == ChipCount(c, op) * Planes(op)
    requires Holds(c, op, before, buf, n, passed) && BlankFrom(c, op, before, n)
    requires UnitAt(op, n, 0) + Planes(op) <= |buf| && units == buf[UnitAt(op, n, 0)..UnitAt(op, n, 0) + Planes(op)]
    requires ok ==> forall p: nat :: p < Planes(op) && CellAt(c, op, before, n, p) == Erased ==>
               CellAt(c, op, after, n, p) == Written(units[p])
    requires forall j: nat, p: nat :: j < ChipCount(c, op) && j != n && p < Planes(op) ==>
               CellAt(c, op, after, j, p) == CellAt(c, op, before, j, p)
    ensures Holds(c, op, after, buf, n + 1, passed + [ok]) && BlankFrom(c, op, after, n + 1)
  {
    assert forall p: nat :: p < Planes(op) ==> CellAt(c, op, before, n, p) == Erased;
  }

  lemma ShareFits(c: Config, op: Op, i: nat)
    requires i < ChipCount(c, op)
    ensures UnitAt(op, i, 0) + Planes(op) <= ChipCount(c, op) * Planes(op)
  {
  }

  lemma SameElsewhereTrans(c: Config, op: Op, first: Array, second: Array, third: Array)
    requires c.perBlock > 0 && SameElsewhere(c, op, first, second) && SameElsewhere(c, op, second, third)
    ensures SameElsewhere(c, op, first, third)
  {
    forall chip: nat | chip < |first|
      ensures |third[chip]| == |first[chip]|
      ensures forall row: nat :: row < |first[chip]| && !IsTarget(c, op, chip, row) ==>
                third[chip][row] == first[chip][row]
    {
      assert |second[chip]| == |first[chip]|;
    }
  }

  ghost function SetupOf(c: Config, op: Op): Setup {
    Setup(ChipCount(c, op), op.twoPlane, c.limit, c.ones)
  }

  /** The cells that the read machine meets, by chip and plane of the operation. */
  ghost function Met(c: Config, op: Op, cells: Array): Cells
    requires Reaches(c, op, cells)
  {
    (i: nat, p: nat) => if i < ChipCount(c, op) && p < Planes(op) then CellAt(c, op, cells, i, p) else Erased
  }

  class Chips {
    const c: Config
    var cells: Array
    /** How the programs went, chip after chip. */
    ghost var status: seq<bool>

    constructor (c: Config, cells: Array)
      ensures this.c == c && this.cells == cells && status == []
    {
      this.c, this.cells, status := c, cells, [];
    }

    /** One pass from RETRY_DMA: plane 0 unless it is done, then plane 1 or the only plane. */
    method ReadPass(op: Op, o: Oracle, s: Scan) returns (next: Scan)
      requires s.i < ChipCount(c, op) && s.retry <= c.limit <= 254
      ensures next == Pass(SetupOf(c, op), o, s)
    {
      var plane0Done, retry, dmas, errs, buf := s.plane0Done, s.retry, s.dmas, s.errs, s.buf;
      if op.twoPlane && !plane0Done {
        var first := o(s.i, 0, dmas);
        dmas := dmas + 1;
        match first {
        case Blank =>
          buf := buf + [c.ones];
        case Clean(d) =>
          plane0Done, retry, buf := true, 0, buf + [d];
        case Broken(d) =>
          if retry < c.limit {
            return Scan(s.i, plane0Done, (retry + 1) % 256, dmas, buf, errs);
          }
          errs, plane0Done, retry, buf := errs + 1, true, 0, buf + [d];
        }
      }
      var seen := o(s.i, if op.twoPlane then 1 else 0, dmas);
      dmas := dmas + 1;
      match seen {
      case Blank =>
        buf := buf + [c.ones];
      case Clean(d) =>
        plane0Done, buf := false, buf + [d];
      case Broken(d) =>
        if retry < c.limit {
          return Scan(s.i, plane0Done, (retry + 1) % 256, dmas, buf, errs);
        }
        errs, plane0Done, buf := errs + 1, false, buf + [d];
      }
      next := Scan(s.i + 1, plane0Done, 0, dmas, buf, errs);
    }

    /** Read one striped page; the outcome of every DMA read is up to `o`. */
    method ReadPage(op: Op, o: Oracle) returns (buf: seq<Unit>, errs: nat, dmas: nat)
      requires c.limit <= 254
      ensures var e := Read(SetupOf(c, op), o, START);
              buf == e.buf && errs == e.errs && dmas == e.dmas
    {
      var s := START;
      while s.i < ChipCount(c, op)
        invariant s.i <= ChipCount(c, op) && s.retry <= c.limit
        invariant Read(SetupOf(c, op), o, s) == Read(SetupOf(c, op), o, START)
        decreases ChipCount(c, op) - s.i, if s.plane0Done then 0 else 1, c.limit - s.retry
      {
        PassGoesOn(SetupOf(c, op), o, s);
        s := ReadPass(op, o, s);
      }
      buf, errs, dmas := s.buf, s.errs, s.dmas;
    }

    /**
     * Program one chip's share.  An erased page whose program passes holds its unit; a page that was not erased,
     * or whose program failed, is left in an unknown state.
     */
    method ProgramChip(op: Op, i: nat, units: seq<Unit>) returns (ok: bool)
      requires Reaches(c, op, cells) && i < ChipCount(c, op) && |units| == Planes(op)
      modifies this
      ensures Reaches(c, op, cells) && SameElsewhere(c, op, old(cells), cells)
      ensures status == old(status) + [ok]
      ensures ok ==> forall p: nat :: p < Planes(op) && CellAt(c, op, old(cells), i, p) == Erased ==>
                CellAt(c, op, cells, i, p) == Written(units[p])
      ensures forall j: nat, p: nat :: j < ChipCount(c, op) && j != i && p < Planes(op) ==>
                CellAt(c, op, cells, j, p) == CellAt(c, op, old(cells), j, p)
    {
      ok := *;
      status := status + [ok];
      var chip := ChipOf(c, op, i);
      var row := Row(c, op, 0);
      assert InArray(c, op, cells, i, 0);
      ghost var before := cells;
      var first: Cell := *;
      var x := cells[chip][row := if ok && cells[chip][row].Erased? then Written(units[0]) else first];
      if op.twoPlane {
        var second: Cell := *;
        var row1 := Row(c, op, 1);
        RowsApart(c, op);
        assert InArray(c, op, cells, i, 1);
        x := x[row1 := if ok && cells[chip][row1].Erased? then Written(units[1]) else second];
      }
      cells := cells[chip := x];
      assert forall j: nat, p: nat :: InArray(c, op, before, j, p) ==> InArray(c, op, cells, j, p);
      assert IsTarget(c, op, chip, row);
      assert op.twoPlane ==> IsTarget(c, op, chip, Row(c, op, 1));
      forall j: nat, p: nat | j < ChipCount(c, op) && j != i && p < Planes(op)
        ensures CellAt(c, op, cells, j, p) == CellAt(c, op, before, j, p)
      {
        assert ChipOf(c, op, j) != chip && InArray(c, op, before, j, p);
      }
    }

    /** One turn of the first loop: chip `i` is sent its share. */
    method ProgramShare(op: Op, buf: seq<Unit>, i: nat, pos: nat, ghost blank: bool, ghost passed: seq<bool>)
      returns (ok: bool)
      requires Reaches(c, op, cells) && i < ChipCount(c, op) && pos == UnitAt(op, i, 0)
      requires |buf| == ChipCount(c, op) * Planes(op)
      requires blank ==> Holds(c, op, cells, buf, i, passed) && BlankFrom(c, op, cells, i)
      modifies this
      ensures Reaches(c, op, cells) && SameElsewhere(c, op, old(cells), cells) && status == old(status) + [ok]
      ensures blank ==> Holds(c, op, cells, buf, i + 1, passed + [ok]) && BlankFrom(c, op, cells, i + 1)
    {
      ghost var before := cells;
      ShareFits(c, op, i);
      var units := buf[pos..pos + Planes(op)];
      ok := ProgramChip(op, i, units);
      if blank {
        HoldsMore(c, op, before, cells, buf, i, passed, ok, units);
      }
    }

    /** The first loop of a write: every chip is sent its share. */
    method ProgramAll(op: Op, buf: seq<Unit>) returns (passed: seq<bool>)
      requires Reaches(c, op, cells) && |buf| == ChipCount(c, op) * Planes(op)
      modifies this
      ensures Reaches(c, op, cells) && SameElsewhere(c, op, old(cells), cells) && |passed| == ChipCount(c, op)
      ensures status == old(status) + passed
      ensures IsBlank(c, op, old(cells)) ==> Holds(c, op, cells, buf, ChipCount(c, op), passed)
    {
      passed := [];
      ghost var blank := IsBlank(c, op, cells);
      var pos, i := 0, 0;
      while i < ChipCount(c, op)
        invariant i <= ChipCount(c, op) && pos == UnitAt(op, i, 0) && |passed| == i && status == old(status) + passed
        invariant Reaches(c, op, cells) && SameElsewhere(c, op, old(cells), cells)
        invariant blank ==> Holds(c, op, cells, buf, i, passed) && BlankFrom(c, op, cells, i)
      {
        ghost var before := cells;
        var ok := ProgramShare(op, buf, i, pos, blank, passed);
        SameElsewhereTrans(c, op, old(cells), before, cells);
        Regroup(old(status), passed, [ok]);
        passed, pos, i := passed + [ok], pos + Planes(op), i + 1;
      }
    }

    /** The second loop: the status of every chip, in order; the first failure ends it. */
    method CheckStatus(passed: seq<bool>) returns (ret: int)
      ensures ret == 0 || ret == WRITE_FAILED
      ensures ret == 0 <==> passed == seq(|passed|, _ => true)
    {
      var i := 0;
      while i < |passed|
        invariant i <= |passed| && forall k :: 0 <= k < i ==> passed[k]
      {
        if !passed[i] {
          return WRITE_FAILED;
        }
        i := i + 1;
      }
      ret := 0;
    }

    /**
     * Write one striped page: all chips are programmed first, then their status is checked in order.
     * A successful write to erased pages leaves every chip and plane with its unit of the buffer; no other page
     * ever changes.
     */
    method WritePage(op: Op, buf: seq<Unit>) returns (ret: int)
      requires Reaches(c, op, cells) && |buf| == ChipCount(c, op) * Planes(op)
      modifies this
      ensures Reaches(c, op, cells) && SameElsewhere(c, op, old(cells), cells)
      ensures ret == 0 || ret == WRITE_FAILED
      ensures |status| == |old(status)| + ChipCount(c, op) && old(status) <= status
      ensures ret == 0 <==> forall k :: |old(status)| <= k < |status| ==> status[k]
      ensures ret == 0 && IsBlank(c, op, old(cells)) ==> HoldsPage(c, op, cells, buf)
    {
      var passed := ProgramAll(op, buf);
      ret := CheckStatus(passed);
      assert forall k :: 0 <= k < |passed| ==> status[|old(status)| + k] == passed[k];
    }
  }

  // ---------------------------------------------------------------- where a page is, in numbers

  /** The operation goes to all chips; otherwise to the one chip that it names. */
  predicate ToAll(c: Config, op: Op) {
    op.multiChip && c.chips > 1
  }

  /** The page that is asked for, below the first die or behind the address bits of the others. */
  function PageOf(c: Config, op: Op): nat {
    if op.page < c.diePages then op.page else op.page - c.diePages + Times(c.inner, c.diePages)
  }

  /** Row `row` is that page: itself with one plane, or in plane 0 or 1 of its pair of blocks. */
  predicate IsRow(c: Config, op: Op, p: nat, row: nat)
    requires c.perBlock > 0
  {
    if op.twoPlane then
      row / c.perBlock == 2 * (PageOf(c, op) / c.perBlock) + p && row % c.perBlock == PageOf(c, op) % c.perBlock
    else row == PageOf(c, op)
  }

  /** The operation stays inside its chips, whose dies are powers of two in pages and in number. */
  ghost predicate Placed(c: Config, m: nat, op: Op) {
    c.perBlock > 0 && c.diePages == Pow2(m) && IsPow2(c.inner) && op.page < Times(c.inner, c.diePages)
  }

  lemma RowIs(c: Config, m: nat, op: Op, p: nat, row: nat)
    requires Placed(c, m, op)
    ensures IsRow(c, op, p, row) <==> row == Row(c, op, p)
  {
    if op.page >= c.diePages {
      AdjustPow2(op.page, m, c.inner);
    }
    if op.twoPlane {
      PlanePageParts(PageOf(c, op), p, c.perBlock);
      var q, rem := DivMod(row, c.perBlock);
    }
  }

  /** A page held by an operation: unit group `i` of the buffer is in chip `i`, or in the one chip named. */
  lemma HeldWhere(c: Config, m: nat, op: Op, cells: Array, buf: seq<Unit>, i: nat, p: nat, row: nat)
    requires Placed(c, m, op) && Reaches(c, op, cells) && |buf| == ChipCount(c, op) * Planes(op)
    requires HoldsPage(c, op, cells, buf) && p < (if op.twoPlane then 2 else 1) && IsRow(c, op, p, row)
    ensures ToAll(c, op) && i < c.chips ==>
              i < |cells| && row < |cells[i]| && (if op.twoPlane then 2 * i + p else i) < |buf|
              && cells[i][row] == Written(buf[if op.twoPlane then 2 * i + p else i])
    ensures !ToAll(c, op) && (op.multiChip ==> c.chips == 1) ==>
              op.chipnr < |cells| && row < |cells[op.chipnr]| && p < |buf|
              && cells[op.chipnr][row] == Written(buf[p])
  {
    RowIs(c, m, op, p, row);
    if ToAll(c, op) {
      if i < c.chips {
        assert InArray(c, op, cells, i, p);
        assert CellAt(c, op, cells, i, p) == Written(buf[UnitAt(op, i, p)]);
      }
    } else if op.multiChip ==> c.chips == 1 {
      assert InArray(c, op, cells, 0, p);
      assert CellAt(c, op, cells, 0, p) == Written(buf[UnitAt(op, 0, p)]);
    }
  }

  /** Nothing changes but that page: on the chips the operation goes to, in the rows of its planes. */
  lemma ChangedWhere(c: Config, m: nat, op: Op, before: Array, after: Array, chip: nat, row: nat)
    requires Placed(c, m, op) && SameElsewhere(c, op, before, after)
    requires chip < |before| && row < |before[chip]|
    ensures |after| == |before| && |after[chip]| == |before[chip]|
    ensures after[chip][row] != before[chip][row] ==>
              && (if ToAll(c, op) then chip < c.chips else chip == op.chipnr)
              && (IsRow(c, op, 0, row) || (op.twoPlane && IsRow(c, op, 1, row)))
  {
    if after[chip][row] != before[chip][row] {
      var i: nat, p: nat :| i < ChipCount(c, op) && p < Planes(op) && chip == ChipOf(c, op, i) && row == Row(c, op, p);
      RowIs(c, m, op, p, row);
    }
  }

  /** The cell that a read meets at chip `i` and plane `p` is the one in that row. */
  lemma MetWhere(c: Config, m: nat, op: Op, cells: Array, i: nat, p: nat, row: nat)
    requires Placed(c, m, op) && Reaches(c, op, cells) && p < (if op.twoPlane then 2 else 1) && IsRow(c, op, p, row)
    ensures ToAll(c, op) && i < c.chips ==>
              i < |cells| && row < |cells[i]| && Met(c, op, cells)(i, p) == cells[i][row]
    ensures !ToAll(c, op) && (op.multiChip ==> c.chips == 1) ==>
              op.chipnr < |cells| && row < |cells[op.chipnr]| && Met(c, op, cells)(0, p) == cells[op.chipnr][row]
  {
    RowIs(c, m, op, p, row);
    assert i < ChipCount(c, op) ==> InArray(c, op, cells, i, p);
    assert 0 < ChipCount(c, op) ==> InArray(c, op, cells, 0, p);
  }

  /** One striped page as a read sees it: how often each page was tried, and what that delivered. */
  lemma ReadOfWritten(c: Config, op: Op, cells: Array, buf: seq<Unit>, o: Oracle) returns (rows: seq<seq<Try>>)
    requires c.limit <= 254 && Reaches(c, op, cells) && |buf| == ChipCount(c, op) * Planes(op)
    requires HoldsPage(c, op, cells, buf) && Faithful(o, Met(c, op, cells))
    ensures var e := Read(SetupOf(c, op), o, START);
            && |rows| == ChipCount(c, op) && ChipsTried(SetupOf(c, op), o, 0, rows, 0, e.dmas)
            && e.buf == AllUnits(rows) && e.errs == AllBad(rows)
    ensures forall i: nat, p: nat :: i < |rows| && p < Planes(op) ==> TryRight(op, buf, rows, i, p)
  {
    var s, met := SetupOf(c, op), Met(c, op, cells);
    HeldNeverBlank(c, op, cells, buf, o);
    rows := ReadTries(s, o, START);
    assert START.buf + AllUnits(rows) == AllUnits(rows);
    forall i: nat, p: nat | i < |rows| && p < Planes(op) ensures TryRight(op, buf, rows, i, p) {
      RowTried(s, o, 0, rows, 0, Read(s, o, START).dmas, i);
      assert CellAt(c, op, cells, i, p) == Written(buf[UnitAt(op, i, p)]);
      assert Answers(met(i, p), o(i, p, rows[i][p].to - 1));
    }
  }

  lemma HeldNeverBlank(c: Config, op: Op, cells: Array, buf: seq<Unit>, o: Oracle)
    requires Reaches(c, op, cells) && |buf| == ChipCount(c, op) * Planes(op)
    requires HoldsPage(c, op, cells, buf) && Faithful(o, Met(c, op, cells))
    ensures op.twoPlane ==> forall i: nat :: i < ChipCount(c, op) ==> NeverBlank(o, i)
  {
    forall i: nat | i < ChipCount(c, op) && op.twoPlane ensures NeverBlank(o, i) {
      forall p: nat, t: nat ensures p < 2 ==> !o(i, p, t).Blank? {
        if p < 2 {
          assert CellAt(c, op, cells, i, p) == Written(buf[UnitAt(op, i, p)]);
          assert Answers(Met(c, op, cells)(i, p), o(i, p, t));
        }
      }
    }
  }

  /** A page that was not broken in all its reads delivered its unit. */
  ghost predicate TryRight(op: Op, buf: seq<Unit>, rows: seq<seq<Try>>, i: nat, p: nat)
    requires i < |rows|
  {
    p < |rows[i]| && UnitAt(op, i, p) < |buf| && (!rows[i][p].bad ==> rows[i][p].unit == buf[UnitAt(op, i, p)])
  }

  // ---------------------------------------------------------------- the round trip

  function BufferAt(s: Setup, i: nat, p: nat): nat {
    if s.twoPlane then 2 * i + p else i
  }

  ghost predicate UnitOk(s: Setup, cells: Cells, buf: seq<Unit>, i: nat, p: nat) {
    BufferAt(s, i, p) < |buf| && ReadsAs(s, cells(i, p)) == buf[BufferAt(s, i, p)]
  }

  lemma {:induction false} IdealIs(s: Setup, cells: Cells, i: nat, buf: seq<Unit>)
    requires i <= s.chips && |buf| == s.chips * (if s.twoPlane then 2 else 1)
    requires forall j: nat, p: nat :: j < s.chips && p < (if s.twoPlane then 2 else 1) ==> UnitOk(s, cells, buf, j, p)
    ensures Ideal(s, cells, i) == buf[BufferAt(s, i, 0)..]
    decreases s.chips - i
  {
    if i < s.chips {
      IdealIs(s, cells, i + 1, buf);
      assert UnitOk(s, cells, buf, i, 0);
      if s.twoPlane {
        assert UnitOk(s, cells, buf, i, 1);
      }
    }
  }

  lemma MetIdeal(c: Config, op: Op, cells: Array, buf: seq<Unit>)
    requires Reaches(c, op, cells) && |buf| == ChipCount(c, op) * Planes(op)
    requires HoldsPage(c, op, cells, buf)
    ensures Ideal(SetupOf(c, op), Met(c, op, cells), 0) == buf
    ensures Even(SetupOf(c, op), Met(c, op, cells))
  {
    var s, met := SetupOf(c, op), Met(c, op, cells);
    forall i: nat, p: nat | i < s.chips && p < Planes(op)
      ensures UnitOk(s, met, buf, i, p) && met(i, p).Written?
    {
      assert CellAt(c, op, cells, i, p) == Written(buf[UnitAt(op, i, p)]);
    }
    IdealIs(s, met, 0, buf);
    assert buf[0..] == buf;
  }

  /**
   * The striped round trip: after a successful write, a read of the same page that counts no ECC error returns
   * the whole buffer, for any number of chips, one or two planes, and any retries on the way.
   */
  lemma WriteThenRead(c: Config, op: Op, cells: Array, buf: seq<Unit>, o: Oracle)
    requires c.limit <= 254 && Reaches(c, op, cells) && |buf| == ChipCount(c, op) * Planes(op)
    requires HoldsPage(c, op, cells, buf)
    requires Faithful(o, Met(c, op, cells))
    ensures var e := Read(SetupOf(c, op), o, START);
            |e.buf| == |buf| && (e.errs == 0 ==> e.buf == buf)
            && e.dmas <= ChipCount(c, op) * (if op.twoPlane then 3 * c.limit + 2 else c.limit + 1)
  {
    var s, met := SetupOf(c, op), Met(c, op, cells);
    MetIdeal(c, op, cells, buf);
    ReadDelivers(s, o, met, START);
    ReadBoundAll(s, o);
    assert START.buf + buf == buf;
  }

  /** A striped page that was never written reads as all ones, without an ECC error. */
  lemma ErasedReadsOnes(c: Config, op: Op, cells: Array, o: Oracle)
    requires c.limit <= 254 && Reaches(c, op, cells) && Faithful(o, Met(c, op, cells)) && IsBlank(c, op, cells)
    ensures var e := Read(SetupOf(c, op), o, START);
            e.errs == 0 && e.buf == seq(ChipCount(c, op) * Planes(op), _ => c.ones)
  {
    var s, met := SetupOf(c, op), Met(c, op, cells);
    var ones := seq(s.chips * Planes(op), _ => c.ones);
    forall i: nat, p: nat | i < s.chips && p < Planes(op) ensures UnitOk(s, met, ones, i, p) && met(i, p).Erased? {
      assert CellAt(c, op, cells, i, p) == Erased;
    }
    IdealIs(s, met, 0, ones);
    assert ones[0..] == ones;
    ReadDelivers(s, o, met, START);
    ErasedCountNothing(s, o, met, START);
    assert START.buf + ones == ones;
  }

  lemma RowsDiffer(c: Config, m: nat, op: Op, other: Op, p: nat, q: nat)
    requires c.perBlock > 0 && c.diePages == Pow2(m) && IsPow2(c.inner)
    requires op.page != other.page && op.twoPlane == other.twoPlane && p < Planes(op) && q < Planes(op)
    requires op.page < Times(c.inner, c.diePages) && other.page < Times(c.inner, c.diePages)
    ensures Row(c, op, p) != Row(c, other, q)
  {
    var a, b := Adjust(op.page, c.diePages, c.inner), Adjust(other.page, c.diePages, c.inner);
    AdjustInjectiveIff(m, c.inner);
    assert a != b;
    if op.twoPlane && Row(c, op, p) == Row(c, other, q) {
      PlanePageInjective(a, p, b, q, c.perBlock);
      assert false;
    }
  }

  /** With a power of two dies per chip, writing one page leaves every other page of the chips as it reads. */
  lemma OtherPagesKeep(c: Config, m: nat, op: Op, other: Op, before: Array, after: Array, i: nat, q: nat)
    requires c.perBlock > 0 && c.diePages == Pow2(m) && IsPow2(c.inner)
    requires op.page != other.page && op.twoPlane == other.twoPlane
    requires op.page < Times(c.inner, c.diePages) && other.page < Times(c.inner, c.diePages)
    requires Reaches(c, other, before) && Reaches(c, other, after) && SameElsewhere(c, op, before, after)
    requires i < ChipCount(c, other) && q < Planes(other)
    ensures CellAt(c, other, after, i, q) == CellAt(c, other, before, i, q)
  {
    var chip, row := ChipOf(c, other, i), Row(c, other, q);
    assert InArray(c, other, before, i, q);
    if IsTarget(c, op, chip, row) {
      var j: nat, p: nat :| j < ChipCount(c, op) && p < Planes(op) && chip == ChipOf(c, op, j) && row == Row(c, op, p);
      RowsDiffer(c, m, op, other, p, q);
      assert false;
    }
  }
}
