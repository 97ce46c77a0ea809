/**
 * The read machine of phy/chip_operation.c: the pages of one striped read are fetched chip by chip and plane by
 * plane, and a page that fails its ECC is read again under the next retry setting.
 */
module ReadRetry {
  import opened Arith
  import opened Sequences

  /** One `page_size` worth of data; buffers are counted in these. */
  type Unit = seq<int>

  /** What one DMA read and its ECC check report: corrected, blank (an ECC failure with hardly a zero bit), failed. */
  datatype Seen = Clean(data: Unit) | Blank | Broken(data: Unit)

  /** The outcome of read number `t` when it goes to plane `p` of the `i`-th chip: anything at all. */
  type Oracle = (nat, nat, nat) -> Seen

  /** `limit` is the number of retries allowed, 0 when retrying is off; `ones` is a unit of 0xff. */
  datatype Setup = Setup(chips: nat, twoPlane: bool, limit: nat, ones: Unit)

  /**
   * The machine at its label RETRY_DMA: at chip `i`, with plane 0 done or not, `retry` retries used, `dmas` DMA
   * reads made so far, the buffer filled so far and the ECC errors counted.
   */
  datatype Scan = Scan(i: nat, plane0Done: bool, retry: nat, dmas: nat, buf: seq<Unit>, errs: nat)

  const START := Scan(0, false, 0, 0, [], 0)

  ghost predicate Running(c: Setup, s: Scan) {
    s.i <= c.chips && s.retry <= c.limit <= 254
  }

  // ---------------------------------------------------------------- one pass from RETRY_DMA

  /** A page that failed is tried again: the counter moves and the machine goes back to RETRY_DMA. */
  function Again(s: Scan): Scan {
    s.(retry := (s.retry + 1) % 256, dmas := s.dmas + 1)
  }

  function NextChip(s: Scan, unit: Unit, plane0Done: bool, err: nat): Scan {
    Scan(s.i + 1, plane0Done, 0, s.dmas + 1, s.buf + [unit], s.errs + err)
  }

  /** Plane 1, or the only plane. A blank page leaves `plane0Done` as it is. */
  function LastPlane(c: Setup, o: Oracle, s: Scan): Scan {
    match o(s.i, if c.twoPlane then 1 else 0, s.dmas)
    case Blank => NextChip(s, c.ones, s.plane0Done, 0)
    case Clean(d) => NextChip(s, d, false, 0)
    case Broken(d) => if s.retry < c.limit then Again(s) else NextChip(s, d, false, 1)
  }

  /** Plane 0 is finished; a blank page does not set `plane0Done` and leaves the counter alone. */
  function Plane0(c: Setup, s: Scan, seen: Seen): Scan {
    match seen
    case Blank => s.(dmas := s.dmas + 1, buf := s.buf + [c.ones])
    case Clean(d) => Scan(s.i, true, 0, s.dmas + 1, s.buf + [d], s.errs)
    case Broken(d) => Scan(s.i, true, 0, s.dmas + 1, s.buf + [d], s.errs + 1)
  }

  function Pass(c: Setup, o: Oracle, s: Scan): Scan {
    if !c.twoPlane || s.plane0Done then LastPlane(c, o, s)
    else
      var seen := o(s.i, 0, s.dmas);
      if seen.Broken? && s.retry < c.limit then Again(s) else LastPlane(c, o, Plane0(c, s, seen))
  }

  /** The whole read. Every jump back lowers (chips left, plane 0 unfinished, retries left). */
  function Read(c: Setup, o: Oracle, s: Scan): (e: Scan)
    requires s.i <= c.chips && s.retry <= c.limit <= 254
    ensures e.i == c.chips && e.errs >= s.errs && e.dmas >= s.dmas && s.buf <= e.buf
    decreases c.chips - s.i, if s.plane0Done then 0 else 1, c.limit - s.retry
  {
    if s.i == c.chips then s else Read(c, o, Pass(c, o, s))
  }

  // ---------------------------------------------------------------- how many reads

  /** DMA reads that chip `s.i` can still take. */
  ghost function Left(c: Setup, s: Scan): int {
    if !c.twoPlane || s.plane0Done then c.limit - s.retry + 1 else 2 * (c.limit - s.retry) + c.limit + 2
  }

  ghost function PerChip(c: Setup): nat {
    if c.twoPlane then 3 * c.limit + 2 else c.limit + 1
  }

  /** The DMA reads that `n` whole chips can take. */
  ghost function Share(c: Setup, n: nat): nat {
    if n == 0 then 0 else PerChip(c) + Share(c, n - 1)
  }

  lemma {:induction false} ShareIs(c: Setup, n: nat)
    ensures Share(c, n) == n * PerChip(c)
  {
    if n > 0 {
      ShareIs(c, n - 1);
      MulSucc(n - 1, PerChip(c));
    }
  }

  /** One pass uses up what it reads: of its own chip's share, leaving the next chip a whole one. */
  lemma PassCost(c: Setup, o: Oracle, s: Scan)
    requires Running(c, s) && s.i < c.chips
    ensures var next := Pass(c, o, s);
            Running(c, next)
            && (next.i == s.i ==> next.dmas + Left(c, next) <= s.dmas + Left(c, s))
            && (next.i != s.i ==>
                  next.i == s.i + 1 && next.dmas <= s.dmas + Left(c, s) && Left(c, next) <= PerChip(c))
  {
  }

  /** The loop step: one pass keeps the counters in range and does not change what the read will end with. */
  lemma PassGoesOn(c: Setup, o: Oracle, s: Scan)
    requires Running(c, s) && s.i < c.chips
    ensures var next := Pass(c, o, s);
            && Running(c, next) && Read(c, o, next) == Read(c, o, s)
            && (next.i == s.i ==>
                  (s.plane0Done ==> next.plane0Done)
                  && (s.plane0Done == next.plane0Done ==> next.retry > s.retry))
            && next.i <= s.i + 1
  {
    PassCost(c, o, s);
  }

  /**
   * Whatever the chip answers, a read makes at most `limit + 1` DMA reads per chip with one plane, and at most
   * `3 * limit + 2` with two.
   */
  lemma {:induction false} ReadBound(c: Setup, o: Oracle, s: Scan)
    requires Running(c, s)
    ensures s.i == c.chips ==> Read(c, o, s).dmas == s.dmas
    ensures s.i < c.chips ==> Read(c, o, s).dmas <= s.dmas + Left(c, s) + Share(c, c.chips - s.i - 1)
    decreases c.chips - s.i, if s.plane0Done then 0 else 1, c.limit - s.retry
  {
    if s.i < c.chips {
      PassCost(c, o, s);
      ReadBound(c, o, Pass(c, o, s));
    }
  }

  lemma ReadBoundAll(c: Setup, o: Oracle)
    requires c.limit <= 254
    ensures Read(c, o, START).dmas <= c.chips * PerChip(c)
  {
    ReadBound(c, o, START);
    ShareIs(c, c.chips);
  }

  // ---------------------------------------------------------------- what is on the flash

  datatype Cell = Erased | Written(data: Unit)

  /** The cell that the read reaches at each chip and plane. */
  type Cells = (nat, nat) -> Cell

  /** An erased page reads as blank; a written one is corrected to its data or fails. */
  predicate Answers(cell: Cell, seen: Seen) {
    match cell
    case Erased => seen.Blank?
    case Written(d) => seen == Clean(d) || seen.Broken?
  }

  ghost predicate Faithful(o: Oracle, cells: Cells) {
    forall i: nat, p: nat, t: nat :: Answers(cells(i, p), o(i, p, t))
  }

  function ReadsAs(c: Setup, cell: Cell): Unit {
    if cell.Erased? then c.ones else cell.data
  }

  /** The buffer a read from chip `i` on is meant to fill: chip by chip, plane 0 before plane 1. */
  function Ideal(c: Setup, cells: Cells, i: nat): (units: seq<Unit>)
    decreases c.chips - i
  {
    if i >= c.chips then []
    else if c.twoPlane then
      [ReadsAs(c, cells(i, 0)), ReadsAs(c, cells(i, 1))] + Ideal(c, cells, i + 1)
    else [ReadsAs(c, cells(i, 0))] + Ideal(c, cells, i + 1)
  }

  /** What is still to come at state `s`. */
  ghost function Pending(c: Setup, cells: Cells, s: Scan): seq<Unit> {
    if s.i < c.chips && c.twoPlane && s.plane0Done
    then [ReadsAs(c, cells(s.i, 1))] + Ideal(c, cells, s.i + 1)
    else Ideal(c, cells, s.i)
  }

  /** What read `e`, started at `s`, delivers: the right number of units and, without an ECC error, the right ones. */
  ghost predicate Delivers(c: Setup, cells: Cells, s: Scan, e: Scan) {
    |e.buf| == |s.buf| + |Pending(c, cells, s)|
    && (e.errs == s.errs ==> e.buf == s.buf + Pending(c, cells, s))
  }

  lemma DeliversMore(c: Setup, cells: Cells, s: Scan, next: Scan, e: Scan, units: seq<Unit>)
    requires Delivers(c, cells, next, e) && s.errs <= next.errs <= e.errs
    requires |next.buf| == |s.buf| + |units| && Pending(c, cells, s) == units + Pending(c, cells, next)
    requires next.errs == s.errs ==> next.buf == s.buf + units
    ensures Delivers(c, cells, s, e)
  {
    if e.errs == s.errs {
      Regroup(s.buf, units, Pending(c, cells, next));
    }
  }

  /** One plane, or two planes that are both written or both erased on every chip. */
  ghost predicate Even(c: Setup, cells: Cells) {
    c.twoPlane ==> forall i: nat :: i < c.chips ==> cells(i, 0).Erased? == cells(i, 1).Erased?
  }

  /** The units one pass was meant to add. */
  ghost function Taken(c: Setup, cells: Cells, s: Scan, next: Scan): seq<Unit> {
    if next.i == s.i then
      if next.plane0Done == s.plane0Done then [] else [ReadsAs(c, cells(s.i, 0))]
    else if !c.twoPlane then [ReadsAs(c, cells(s.i, 0))]
    else if s.plane0Done then [ReadsAs(c, cells(s.i, 1))]
    else [ReadsAs(c, cells(s.i, 0)), ReadsAs(c, cells(s.i, 1))]
  }

  ghost predicate InStep(c: Setup, cells: Cells, s: Scan) {
    s.plane0Done ==> c.twoPlane && s.i < c.chips && cells(s.i, 0).Written?
  }

  lemma PassTakes(c: Setup, o: Oracle, cells: Cells, s: Scan)
    requires Running(c, s) && s.i < c.chips && Faithful(o, cells) && Even(c, cells) && InStep(c, cells, s)
    ensures var next := Pass(c, o, s);
            var units := Taken(c, cells, s, next);
            && InStep(c, cells, next) && (next.i != s.i ==> !next.plane0Done) && s.errs <= next.errs
            && |next.buf| == |s.buf| + |units|
            && (next.errs == s.errs ==> next.buf == s.buf + units)
  {
    assert Answers(cells(s.i, 0), o(s.i, 0, s.dmas));
    if c.twoPlane {
      assert Answers(cells(s.i, 1), o(s.i, 1, s.dmas)) && Answers(cells(s.i, 1), o(s.i, 1, s.dmas + 1));
    }
  }

  lemma PassLeaves(c: Setup, o: Oracle, cells: Cells, s: Scan)
    requires Running(c, s) && s.i < c.chips && InStep(c, cells, s)
    requires Pass(c, o, s).i == s.i || !Pass(c, o, s).plane0Done
    ensures var next := Pass(c, o, s);
            Pending(c, cells, s) == Taken(c, cells, s, next) + Pending(c, cells, next)
  {
    var next := Pass(c, o, s);
    if next.i == s.i && next.plane0Done == s.plane0Done {
      assert [] + Pending(c, cells, s) == Pending(c, cells, s);
    } else if next.i == s.i {
      var first, second, rest := ReadsAs(c, cells(s.i, 0)), ReadsAs(c, cells(s.i, 1)), Ideal(c, cells, s.i + 1);
      assert [first] + ([second] + rest) == [first, second] + rest;
    }
  }

  /**
   * With one plane, or with two planes programmed together, a read that counts no ECC error fills the buffer
   * with every page in its place, whatever was retried; otherwise the buffer still has the right length.
   */
  lemma {:induction false} ReadDelivers(c: Setup, o: Oracle, cells: Cells, s: Scan)
    requires Running(c, s) && Faithful(o, cells) && Even(c, cells) && InStep(c, cells, s)
    ensures Delivers(c, cells, s, Read(c, o, s))
    decreases c.chips - s.i, if s.plane0Done then 0 else 1, c.limit - s.retry
  {
    if s.i < c.chips {
      var next := Pass(c, o, s);
      PassTakes(c, o, cells, s);
      PassLeaves(c, o, cells, s);
      ReadDelivers(c, o, cells, next);
      DeliversMore(c, cells, s, next, Read(c, o, s), Taken(c, cells, s, next));
    }
  }

  /** Erased pages never count as an ECC error. */
  lemma {:induction false} ErasedCountNothing(c: Setup, o: Oracle, cells: Cells, s: Scan)
    requires Running(c, s) && Faithful(o, cells)
    requires forall i: nat, p: nat :: i < c.chips && p < (if c.twoPlane then 2 else 1) ==> cells(i, p).Erased?
    ensures Read(c, o, s).errs == s.errs
    decreases c.chips - s.i, if s.plane0Done then 0 else 1, c.limit - s.retry
  {
    if s.i < c.chips {
      assert Answers(cells(s.i, 0), o(s.i, 0, s.dmas));
      if c.twoPlane {
        assert Answers(cells(s.i, 1), o(s.i, 1, s.dmas)) && Answers(cells(s.i, 1), o(s.i, 1, s.dmas + 1));
      }
      PassGoesOn(c, o, s);
      ErasedCountNothing(c, o, cells, Pass(c, o, s));
    }
  }

  // ---------------------------------------------------------------- exactly when two planes stay in step

  /** The state in which the machine leaves chip `s.i`. */
  function ChipEnd(c: Setup, o: Oracle, s: Scan): (e: Scan)
    requires s.i < c.chips && s.retry <= c.limit <= 254
    ensures e.i == s.i + 1 && e.retry == 0
    decreases if s.plane0Done then 0 else 1, c.limit - s.retry
  {
    var next := Pass(c, o, s);
    if next.i > s.i then next else ChipEnd(c, o, next)
  }

  /** The chip took its two units, and the next one starts with its plane 0. */
  predicate KeepsStep(c: Setup, s: Scan, e: Scan) {
    |e.buf| == |s.buf| + 2 && !e.plane0Done
  }

  /**
   * The pages of one chip keep the machine in step: not a written plane 0 with an erased plane 1, and an erased
   * plane 0 only with a plane 1 whose first read is not retried.
   */
  predicate PairOk(c: Setup, o: Oracle, cells: Cells, s: Scan) {
    match (cells(s.i, 0), cells(s.i, 1))
    case (Written(_), Erased) => false
    case (Erased, Written(_)) => c.limit == 0 || !o(s.i, 1, s.dmas + 1).Broken?
    case _ => true
  }

  /** A chip whose plane 0 is erased: it is read once per pass, and `plane0Done` is never set. */
  lemma {:induction false} ErasedFirst(c: Setup, o: Oracle, cells: Cells, s: Scan)
    requires s.i < c.chips && c.twoPlane && s.retry <= c.limit <= 254 && Faithful(o, cells)
    requires cells(s.i, 0).Erased? && !s.plane0Done
    ensures var e := ChipEnd(c, o, s);
            && !e.plane0Done && |e.buf| >= |s.buf| + 2
            && (|e.buf| == |s.buf| + 2 <==> s.retry == c.limit || !o(s.i, 1, s.dmas + 1).Broken?)
    decreases c.limit - s.retry
  {
    assert Answers(cells(s.i, 0), o(s.i, 0, s.dmas));
    var next := Pass(c, o, s);
    if next.i == s.i {
      ErasedFirst(c, o, cells, next);
    }
  }

  /** A chip whose plane 0 is written: the machine ends in step iff plane 1 is written too. */
  lemma {:induction false} WrittenFirst(c: Setup, o: Oracle, cells: Cells, s: Scan)
    requires s.i < c.chips && c.twoPlane && s.retry <= c.limit <= 254 && Faithful(o, cells)
    requires cells(s.i, 0).Written?
    ensures var e := ChipEnd(c, o, s);
            |e.buf| == |s.buf| + (if s.plane0Done then 1 else 2) && e.plane0Done == cells(s.i, 1).Erased?
    decreases if s.plane0Done then 0 else 1, c.limit - s.retry
  {
    assert Answers(cells(s.i, 0), o(s.i, 0, s.dmas));
    assert Answers(cells(s.i, 1), o(s.i, 1, s.dmas)) && Answers(cells(s.i, 1), o(s.i, 1, s.dmas + 1));
    var next := Pass(c, o, s);
    if next.i == s.i {
      WrittenFirst(c, o, cells, next);
    }
  }

  /** One chip, for every flash and every ECC behaviour: it keeps the machine in step iff `PairOk`. */
  lemma ChipKeepsStep(c: Setup, o: Oracle, cells: Cells, s: Scan)
    requires s.i < c.chips && c.twoPlane && s.retry == 0 && c.limit <= 254 && Faithful(o, cells) && !s.plane0Done
    ensures KeepsStep(c, s, ChipEnd(c, o, s)) <==> PairOk(c, o, cells, s)
    ensures |ChipEnd(c, o, s).buf| == |s.buf| + 2 <==> PairOk(c, o, cells, s) || cells(s.i, 0).Written?
  {
    assert Answers(cells(s.i, 1), o(s.i, 1, s.dmas + 1));
    if cells(s.i, 0).Written? {
      WrittenFirst(c, o, cells, s);
    } else {
      ErasedFirst(c, o, cells, s);
    }
  }

  /** Every chip from `s` on keeps the machine in step; after the last one it does not matter what is left over. */
  ghost predicate Aligned(c: Setup, o: Oracle, cells: Cells, s: Scan)
    requires s.retry == 0 && c.limit <= 254
    decreases c.chips - s.i
  {
    s.i >= c.chips
    || ((PairOk(c, o, cells, s) || (s.i + 1 == c.chips && cells(s.i, 0).Written?))
        && Aligned(c, o, cells, ChipEnd(c, o, s)))
  }

  /** The run itself: every chip takes two units and starts with its plane 0. */
  ghost predicate StaysInStep(c: Setup, o: Oracle, s: Scan)
    requires s.retry == 0 && c.limit <= 254
    decreases c.chips - s.i
  {
    s.i >= c.chips
    || (var e := ChipEnd(c, o, s);
        |e.buf| == |s.buf| + 2 && (e.i == c.chips || !e.plane0Done) && StaysInStep(c, o, e))
  }

  /** A two-plane read stays in step exactly when no chip but the last has one of the two bad pairs of pages. */
  lemma {:induction false} InStepIffAligned(c: Setup, o: Oracle, cells: Cells, s: Scan)
    requires s.i <= c.chips && c.twoPlane && s.retry == 0 && c.limit <= 254 && Faithful(o, cells) && !s.plane0Done
    ensures StaysInStep(c, o, s) <==> Aligned(c, o, cells, s)
    decreases c.chips - s.i
  {
    if s.i < c.chips {
      var e := ChipEnd(c, o, s);
      ChipKeepsStep(c, o, cells, s);
      if !e.plane0Done {
        InStepIffAligned(c, o, cells, e);
      }
    }
  }

  lemma {:induction false} ReadByChips(c: Setup, o: Oracle, s: Scan)
    requires s.i < c.chips && s.retry <= c.limit <= 254
    ensures Read(c, o, s) == Read(c, o, ChipEnd(c, o, s))
    decreases if s.plane0Done then 0 else 1, c.limit - s.retry
  {
    if Pass(c, o, s).i == s.i {
      ReadByChips(c, o, Pass(c, o, s));
    }
  }

  // ---------------------------------------------------------------- exactly which answers make an ECC error

  /**
   * Reads number `from` to `to - 1` go to one page, plane `p` of chip `i`: it is read again as long as it comes out
   * broken, `limit` times at most, and the last answer decides.  Only a page that was broken in all `limit + 1` reads
   * counts as an ECC error.
   */
  ghost predicate PageTried(c: Setup, o: Oracle, i: nat, p: nat, from: nat, to: nat, unit: Unit, failed: bool) {
    && from < to <= from + c.limit + 1
    && (forall t: nat :: from <= t < to - 1 ==> o(i, p, t).Broken?)
    && match o(i, p, to - 1)
       case Clean(d) => unit == d && !failed
       case Blank => unit == c.ones && !failed
       case Broken(d) => unit == d && failed && to == from + c.limit + 1
  }

  function LastOf(c: Setup): nat {
    if c.twoPlane then 1 else 0
  }

  /** No page of the chip answers as a blank one does. */
  ghost predicate NeverBlank(o: Oracle, i: nat) {
    forall p: nat, t: nat :: p < 2 ==> !o(i, p, t).Blank?
  }

  /** The only plane, or plane 1 once plane 0 is done; the page was first read by read number `from`. */
  lemma {:induction false} LastPlaneTried(c: Setup, o: Oracle, s: Scan, from: nat) returns (unit: Unit, failed: bool)
    requires s.i < c.chips && s.retry <= c.limit <= 254 && c.twoPlane == s.plane0Done && s.dmas == from + s.retry
    requires forall t: nat :: from <= t < s.dmas ==> o(s.i, LastOf(c), t).Broken?
    requires c.twoPlane ==> NeverBlank(o, s.i)
    ensures var e := ChipEnd(c, o, s);
            && PageTried(c, o, s.i, LastOf(c), from, e.dmas, unit, failed) && !e.plane0Done
            && e.buf == s.buf + [unit] && e.errs == s.errs + (if failed then 1 else 0)
    decreases c.limit - s.retry
  {
    var next := Pass(c, o, s);
    if next.i == s.i {
      unit, failed := LastPlaneTried(c, o, next, from);
    } else {
      unit, failed := next.buf[|next.buf| - 1], next.errs > s.errs;
    }
  }

  /** Plane 0 of a chip with two planes, first read by read number `from`, and then plane 1. */
  lemma {:induction false} BothPlanesTried(c: Setup, o: Oracle, s: Scan, from: nat)
    returns (mid: nat, first: Unit, bad0: bool, second: Unit, bad1: bool)
    requires s.i < c.chips && s.retry <= c.limit <= 254 && c.twoPlane && !s.plane0Done && s.dmas == from + s.retry
    requires forall t: nat :: from <= t < s.dmas ==> o(s.i, 0, t).Broken?
    requires NeverBlank(o, s.i)
    ensures var e := ChipEnd(c, o, s);
            && PageTried(c, o, s.i, 0, from, mid, first, bad0) && PageTried(c, o, s.i, 1, mid, e.dmas, second, bad1)
            && e.buf == s.buf + [first, second] && !e.plane0Done
            && e.errs == s.errs + (if bad0 then 1 else 0) + (if bad1 then 1 else 0)
    decreases c.limit - s.retry
  {
    var seen := o(s.i, 0, s.dmas);
    if seen.Broken? && s.retry < c.limit {
      mid, first, bad0, second, bad1 := BothPlanesTried(c, o, Again(s), from);
    } else {
      var next := Plane0(c, s, seen);
      assert Pass(c, o, s) == Pass(c, o, next);
      mid, first, bad0 := next.dmas, seen.data, seen.Broken?;
      second, bad1 := LastPlaneTried(c, o, next, mid);
    }
  }

  /** How one page was tried: by the reads from number `from` to `to - 1`, with this result. */
  datatype Try = Try(from: nat, to: nat, unit: Unit, bad: bool)

  ghost predicate Tried(c: Setup, o: Oracle, i: nat, p: nat, t: Try) {
    PageTried(c, o, i, p, t.from, t.to, t.unit, t.bad)
  }

  /** The pages of chip `i`: plane 0 and, with two planes, plane 1 right after it. */
  ghost predicate ChipTried(c: Setup, o: Oracle, i: nat, row: seq<Try>) {
    if c.twoPlane then
      |row| == 2 && Tried(c, o, i, 0, row[0]) && Tried(c, o, i, 1, row[1]) && row[1].from == row[0].to
    else |row| == 1 && Tried(c, o, i, 0, row[0])
  }

  /** The chips from `i` on, one row each, by the reads from number `from` to `to - 1`. */
  ghost predicate ChipsTried(c: Setup, o: Oracle, i: nat, rows: seq<seq<Try>>, from: nat, to: nat)
    decreases |rows|
  {
    if rows == [] then from == to
    else
      ChipTried(c, o, i, rows[0]) && rows[0][0].from == from
      && ChipsTried(c, o, i + 1, rows[1..], rows[0][|rows[0]| - 1].to, to)
  }

  function UnitsOf(row: seq<Try>): (units: seq<Unit>)
    ensures |units| == |row| && forall p :: 0 <= p < |row| ==> units[p] == row[p].unit
  {
    seq(|row|, p requires 0 <= p < |row| => row[p].unit)
  }

  function AllUnits(rows: seq<seq<Try>>): seq<Unit> {
    if rows == [] then [] else UnitsOf(rows[0]) + AllUnits(rows[1..])
  }

  /** The pages that were never read well. */
  function BadIn(row: seq<Try>): nat {
    if row == [] then 0 else (if row[0].bad then 1 else 0) + BadIn(row[1..])
  }

  function AllBad(rows: seq<seq<Try>>): nat {
    if rows == [] then 0 else BadIn(rows[0]) + AllBad(rows[1..])
  }

  lemma BadInOne(a: Try, b: Try)
    ensures BadIn([a]) == if a.bad then 1 else 0
    ensures BadIn([a, b]) == BadIn([a]) + if b.bad then 1 else 0
  {
    assert [a][1..] == [] && [a, b][1..] == [b] && [b][1..] == [];
  }

  lemma TryChip(c: Setup, o: Oracle, s: Scan) returns (row: seq<Try>)
    requires s.i < c.chips && c.limit <= 254 && s.retry == 0 && !s.plane0Done
    requires c.twoPlane ==> NeverBlank(o, s.i)
    ensures var e := ChipEnd(c, o, s);
            && ChipTried(c, o, s.i, row) && !e.plane0Done
            && row[0].from == s.dmas && row[|row| - 1].to == e.dmas
            && e.buf == s.buf + UnitsOf(row) && e.errs == s.errs + BadIn(row)
  {
    var end := ChipEnd(c, o, s).dmas;
    if c.twoPlane {
      var mid, first, bad0, second, bad1 := BothPlanesTried(c, o, s, s.dmas);
      row := [Try(s.dmas, mid, first, bad0), Try(mid, end, second, bad1)];
      BadInOne(row[0], row[1]);
      assert UnitsOf(row) == [first, second];
    } else {
      var unit, failed := LastPlaneTried(c, o, s, s.dmas);
      row := [Try(s.dmas, end, unit, failed)];
      BadInOne(row[0], row[0]);
      assert UnitsOf(row) == [unit];
    }
  }

  /**
   * The whole read in terms of the answers alone: page after page is tried, chip by chip and plane by plane, and the
   * errors counted are the pages that were broken in every one of their `limit + 1` reads.
   */
  lemma {:induction false} ReadTries(c: Setup, o: Oracle, s: Scan) returns (rows: seq<seq<Try>>)
    requires s.i <= c.chips && c.limit <= 254 && s.retry == 0 && !s.plane0Done
    requires c.twoPlane ==> forall i: nat :: i < c.chips ==> NeverBlank(o, i)
    ensures var e := Read(c, o, s);
            && |rows| == c.chips - s.i && ChipsTried(c, o, s.i, rows, s.dmas, e.dmas)
            && e.buf == s.buf + AllUnits(rows) && e.errs == s.errs + AllBad(rows)
    decreases c.chips - s.i
  {
    rows := [];
    if s.i < c.chips {
      var row := TryChip(c, o, s);
      ReadByChips(c, o, s);
      var rest := ReadTries(c, o, ChipEnd(c, o, s));
      rows := [row] + rest;
      assert rows[1..] == rest;
      Regroup(s.buf, UnitsOf(row), AllUnits(rest));
    }
  }

  /** Chip by chip: row `k` of the tries is that of chip `i + k`. */
  lemma {:induction false} RowTried(c: Setup, o: Oracle, i: nat, rows: seq<seq<Try>>, from: nat, to: nat, k: nat)
    requires ChipsTried(c, o, i, rows, from, to) && k < |rows|
    ensures ChipTried(c, o, i + k, rows[k])
    decreases k
  {
    if k > 0 {
      RowTried(c, o, i + 1, rows[1..], rows[0][|rows[0]| - 1].to, to, k - 1);
    }
  }

  // ---------------------------------------------------------------- in step

  /** The units still missing from chip `s.i`. */
  ghost function Rest(c: Setup, cells: Cells, s: Scan): seq<Unit> {
    if s.plane0Done then [ReadsAs(c, cells(s.i, 1))] else [ReadsAs(c, cells(s.i, 0)), ReadsAs(c, cells(s.i, 1))]
  }

  lemma {:induction false} ChipFills(c: Setup, o: Oracle, cells: Cells, s: Scan)
    requires s.i < c.chips && c.twoPlane && s.retry <= c.limit <= 254 && Faithful(o, cells)
    requires cells(s.i, 0).Written? || (s.retry == 0 && !s.plane0Done && PairOk(c, o, cells, s))
    ensures var e := ChipEnd(c, o, s);
            && s.errs <= e.errs && |e.buf| == |s.buf| + |Rest(c, cells, s)|
            && (e.errs == s.errs ==> e.buf == s.buf + Rest(c, cells, s))
    decreases if s.plane0Done then 0 else 1, c.limit - s.retry
  {
    assert Answers(cells(s.i, 0), o(s.i, 0, s.dmas));
    assert Answers(cells(s.i, 1), o(s.i, 1, s.dmas)) && Answers(cells(s.i, 1), o(s.i, 1, s.dmas + 1));
    var next := Pass(c, o, s);
    if next.i == s.i {
      ChipFills(c, o, cells, next);
    }
  }

  /** In step, a two-plane read without an ECC error fills the buffer with every page in its place. */
  lemma {:induction false} AlignedDelivers(c: Setup, o: Oracle, cells: Cells, s: Scan)
    requires s.i <= c.chips && c.twoPlane && s.retry == 0 && c.limit <= 254 && Faithful(o, cells) && !s.plane0Done
    requires Aligned(c, o, cells, s)
    ensures var e := Read(c, o, s);
            && |e.buf| == |s.buf| + |Ideal(c, cells, s.i)|
            && (e.errs == s.errs ==> e.buf == s.buf + Ideal(c, cells, s.i))
    decreases c.chips - s.i
  {
    if s.i < c.chips {
      var next := ChipEnd(c, o, s);
      ReadByChips(c, o, s);
      ChipFills(c, o, cells, s);
      if next.i < c.chips {
        ChipKeepsStep(c, o, cells, s);
        AlignedDelivers(c, o, cells, next);
        Regroup(s.buf, Rest(c, cells, s), Ideal(c, cells, next.i));
      } else {
        assert Rest(c, cells, s) + [] == Rest(c, cells, s);
      }
    }
  }

  /** A blank plane 0 with a plane 1 that needs one retry: the read puts three units into a buffer for two. */
  lemma BlankPlaneOverruns(c: Setup, o: Oracle, d: Unit)
    requires c.chips == 1 && c.twoPlane && c.limit == 1
    requires o(0, 0, 0) == Blank && o(0, 1, 1).Broken? && o(0, 0, 2) == Blank && o(0, 1, 3) == Clean(d)
    ensures Read(c, o, START).buf == [c.ones, c.ones, d] && Read(c, o, START).errs == 0
  {
    var s1 := Pass(c, o, START);
    assert s1 == Scan(0, false, 1, 2, [c.ones], 0);
    var s2 := Pass(c, o, s1);
    assert s2 == Scan(1, false, 0, 4, [c.ones] + [c.ones] + [d], 0);
    assert Read(c, o, START) == Read(c, o, s1) == Read(c, o, s2) == s2;
  }
}
