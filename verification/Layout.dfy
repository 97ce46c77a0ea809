/** Where dev/phydev.c lays the devices of the configuration out on the chips, behind the reserved region. */
module Layout {
  import opened Arith
  import opened StoreSpec
  import opened StoreReserved

  const U32 := 0x1_0000_0000
  const ADJUST_PART_SIZE := 10
  const ADJUST_BLOCK_NUM := 4

  /**
   * `bootBlocks` blocks in front belong to the boot device, `round` is chips times planes, and `scan` is what the
   * reserved-region scan is told about each block.
   */
  datatype Nand = Nand(chipSize: nat, blockSize: nat, bootBlocks: nat, round: nat, scan: seq<Status>)

  /**
   * A device other than the boot device: the size of its (super)blocks, what is reported for each of them by
   * number, its partition sizes, and the size to use when it has none.
   */
  datatype Dev = Dev(eraseSize: nat, view: seq<Status>, parts: seq<nat>, size: nat)

  datatype Place = Place(offset: nat, size: nat)

  ghost predicate Sane(c: Nand, devs: seq<Dev>) {
    c.blockSize > 0 && c.round > 0 && Times(c.bootBlocks, c.blockSize) <= c.chipSize
    && c.bootBlocks <= |c.scan| && Enough(c.scan, c.bootBlocks, RESERVED_BLOCK_CNT)
    && forall i :: 0 <= i < |devs| ==> devs[i].eraseSize > 0
  }

  function BootSize(c: Nand): nat {
    Times(c.bootBlocks, c.blockSize)
  }

  /** The next multiple of `m`, as the code computes it for `x >= 1`. */
  function RoundUp(x: nat, m: nat): nat
    requires x >= 1 && m > 0
  {
    Times(Div(x - 1, m) + 1, m)
  }

  lemma RoundUpIs(x: nat, m: nat)
    requires x >= 1 && m > 0
    ensures x <= RoundUp(x, m) < x + m && Mod(RoundUp(x, m), m) == 0
  {
    var q, rem := DivMod(x - 1, m);
    MulSucc(q, m);
    DivUnique((q + 1) * m, m, q + 1, 0);
  }

  function Sum(s: seq<nat>): nat {
    if s == [] then 0 else s[0] + Sum(s[1..])
  }

  /** Superblocks a device asks for: those of its partitions, a tenth more rounded up, and four. */
  function Wanted(d: Dev): nat
    requires d.eraseSize > 0
  {
    var n := Div(Sum(d.parts), d.eraseSize);
    n + (n + (ADJUST_PART_SIZE - 1)) / ADJUST_PART_SIZE + ADJUST_BLOCK_NUM
  }

  // ---------------------------------------------------------------- the specification

  /** Blocks taken by the reserved region. The product is a 32-bit one. */
  function FirstOffset(c: Nand): nat
    requires c.round > 0 && Enough(c.scan, c.bootBlocks, RESERVED_BLOCK_CNT)
  {
    var blocks := RoundUp(RegionEnd(c.scan, c.bootBlocks, RESERVED_BLOCK_CNT) - c.bootBlocks, c.round);
    Times(blocks, c.blockSize) % U32 + BootSize(c)
  }

  ghost predicate ScanEnds(d: Dev, offset: nat)
    requires d.eraseSize > 0
  {
    Enough(d.view, Div(offset, d.eraseSize), Wanted(d))
  }

  /** The distance scanned; the start of the scan is kept in 32 bits, the running offset in 64. */
  function Scanned(d: Dev, offset: nat): nat
    requires d.eraseSize > 0 && ScanEnds(d, offset)
  {
    var k := Div(offset, d.eraseSize);
    Times(RegionEnd(d.view, k, Wanted(d)) - k, d.eraseSize) + (offset - offset % U32)
  }

  function SizeOf(c: Nand, d: Dev, offset: nat): nat
    requires c.round > 0 && d.eraseSize > 0 && ScanEnds(d, offset) && Div(Scanned(d, offset), d.eraseSize) >= 1
  {
    Times(RoundUp(Div(Scanned(d, offset), d.eraseSize), c.round), d.eraseSize)
  }

  lemma ScannedIs(d: Dev, offset: nat)
    requires d.eraseSize > 0 && ScanEnds(d, offset)
    ensures var k := Div(offset, d.eraseSize);
            var blocks := RegionEnd(d.view, k, Wanted(d)) - k;
            && Div(Scanned(d, offset), d.eraseSize) >= blocks >= Wanted(d) >= 1
            && (offset < U32 ==> Div(Scanned(d, offset), d.eraseSize) == blocks)
  {
    var k := Div(offset, d.eraseSize);
    var blocks := RegionEnd(d.view, k, Wanted(d)) - k;
    var more := offset - offset % U32;
    var q, rem := DivMod(more, d.eraseSize);
    MulAdd(blocks, q, d.eraseSize);
    DivUnique(Scanned(d, offset), d.eraseSize, blocks + q, rem);
    if offset < U32 {
      DivUnique(0, d.eraseSize, 0, 0);
    }
  }

  function EndOf(c: Nand, prev: Option<Place>): nat {
    if prev.Some? then prev.value.offset + prev.value.size else BootSize(c)
  }

  function OffsetOf(c: Nand, prev: Option<Place>): nat
    requires c.round > 0 && Enough(c.scan, c.bootBlocks, RESERVED_BLOCK_CNT)
  {
    if prev.Some? then EndOf(c, prev) else FirstOffset(c)
  }

  ghost predicate CanPlace(c: Nand, devs: seq<Dev>, i: nat, prev: Option<Place>)
    requires Sane(c, devs) && i < |devs|
  {
    i + 1 < |devs| ==> ScanEnds(devs[i], OffsetOf(c, prev))
  }

  /** Device `i` behind `prev`; the last one takes what is left of the chips. */
  function PlaceOf(c: Nand, devs: seq<Dev>, i: nat, prev: Option<Place>): Place
    requires Sane(c, devs) && i < |devs| && EndOf(c, prev) <= c.chipSize && CanPlace(c, devs, i, prev)
  {
    var offset := OffsetOf(c, prev);
    Place(offset,
          if i + 1 < |devs| then ScannedIs(devs[i], offset); SizeOf(c, devs[i], offset)
          else if devs[i].parts != [] then c.chipSize - EndOf(c, prev)
          else devs[i].size)
  }

  predicate InChip(c: Nand, p: Place) {
    p.offset + p.size <= c.chipSize
  }

  /** Every scan that the layout needs finds enough blocks. */
  ghost predicate ScansEnd(c: Nand, devs: seq<Dev>, i: nat, prev: Option<Place>)
    requires Sane(c, devs) && EndOf(c, prev) <= c.chipSize
    decreases |devs| - i
  {
    i < |devs| ==>
      CanPlace(c, devs, i, prev)
      && var p := PlaceOf(c, devs, i, prev); InChip(c, p) ==> ScansEnd(c, devs, i + 1, Some(p))
  }

  /** The layout of devices `i` and up, or nothing when one of them leaves the chips. */
  function Places(c: Nand, devs: seq<Dev>, i: nat, prev: Option<Place>): (r: Option<seq<Place>>)
    requires Sane(c, devs) && EndOf(c, prev) <= c.chipSize && ScansEnd(c, devs, i, prev)
    decreases |devs| - i
  {
    if i >= |devs| then Some([])
    else
      var p := PlaceOf(c, devs, i, prev);
      if !InChip(c, p) then None
      else
        match Places(c, devs, i + 1, Some(p))
        case None => None
        case Some(rest) => Some([p] + rest)
  }

  // ---------------------------------------------------------------- the code

  /** The do-while that both scans are: it steps over factory-bad blocks and stops behind the last one wanted. */
  method CountBlocks(status: seq<Status>, from: nat, total: nat) returns (blocks: nat)
    requires total >= 1 && Enough(status, from, total)
    ensures blocks == RegionEnd(status, from, total) - from && blocks >= total
  {
    var count := 0;
    blocks := 0;
    while count < total
      invariant count <= total
      invariant Enough(status, from + blocks, total - count)
      invariant RegionEnd(status, from + blocks, total - count) == RegionEnd(status, from, total)
      decreases |status| - from - blocks
    {
      if !status[from + blocks].FactoryBad? {
        count := count + 1;
      }
      blocks := blocks + 1;
    }
  }

  method SizeByScan(c: Nand, d: Dev, offset: nat) returns (size: nat)
    requires c.round > 0 && d.eraseSize > 0 && ScanEnds(d, offset)
    ensures Div(Scanned(d, offset), d.eraseSize) >= 1 && size == SizeOf(c, d, offset)
  {
    var start := offset % U32;
    var blocks := CountBlocks(d.view, Div(offset, d.eraseSize), Wanted(d));
    var end := offset + Times(blocks, d.eraseSize);
    ScannedIs(d, offset);
    size := Times(RoundUp(Div(end - start, d.eraseSize), c.round), d.eraseSize);
  }

  /** Placing one more device leaves the result what it was going to be. */
  ghost predicate OnTrack(c: Nand, devs: seq<Dev>, i: nat, prev: Option<Place>, places: seq<Place>,
                          goal: Option<seq<Place>>)
    requires Sane(c, devs)
  {
    EndOf(c, prev) <= c.chipSize && ScansEnd(c, devs, i, prev)
    && match Places(c, devs, i, prev)
       case None => goal == None
       case Some(rest) => goal == Some(places + rest)
  }

  lemma TrackStep(c: Nand, devs: seq<Dev>, i: nat, prev: Option<Place>, places: seq<Place>, goal: Option<seq<Place>>)
    requires Sane(c, devs) && i < |devs| && OnTrack(c, devs, i, prev, places, goal)
    ensures var p := PlaceOf(c, devs, i, prev);
            if InChip(c, p) then OnTrack(c, devs, i + 1, Some(p), places + [p], goal) else goal == None
  {
    var p := PlaceOf(c, devs, i, prev);
    if InChip(c, p) {
      var rest := Places(c, devs, i + 1, Some(p));
      if rest.Some? {
        assert places + ([p] + rest.value) == (places + [p]) + rest.value;
      }
    }
  }

  lemma TrackStarts(c: Nand, devs: seq<Dev>)
    requires Sane(c, devs) && ScansEnd(c, devs, 0, None)
    ensures OnTrack(c, devs, 0, None, [], Places(c, devs, 0, None))
  {
    var r := Places(c, devs, 0, None);
    if r.Some? {
      assert [] + r.value == r.value;
    }
  }

  lemma TrackEnds(c: Nand, devs: seq<Dev>, prev: Option<Place>, places: seq<Place>, goal: Option<seq<Place>>)
    requires Sane(c, devs) && OnTrack(c, devs, |devs|, prev, places, goal)
    ensures goal == Some(places)
  {
    assert places + [] == places;
  }

  /** The offset and the size of one device. */
  method PlaceNext(c: Nand, devs: seq<Dev>, i: nat, prev: Option<Place>) returns (p: Place)
    requires Sane(c, devs) && i < |devs| && EndOf(c, prev) <= c.chipSize && CanPlace(c, devs, i, prev)
    ensures p == PlaceOf(c, devs, i, prev)
  {
    var offset, size := EndOf(c, prev), devs[i].size;
    if prev.None? {
      var blocks := CountBlocks(c.scan, c.bootBlocks, RESERVED_BLOCK_CNT);
      offset := Times(RoundUp(blocks, c.round), c.blockSize) % U32 + BootSize(c);
    }
    if i + 1 < |devs| {
      size := SizeByScan(c, devs[i], offset);
    } else if devs[i].parts != [] {
      size := c.chipSize - EndOf(c, prev);
    }
    p := Place(offset, size);
  }

  /** Lay the devices out in order; a device that ends beyond the chips makes the whole initialisation fail. */
  method Init(c: Nand, devs: seq<Dev>) returns (r: Option<seq<Place>>)
    requires Sane(c, devs) && ScansEnd(c, devs, 0, None)
    ensures r == Places(c, devs, 0, None)
  {
    ghost var goal := Places(c, devs, 0, None);
    TrackStarts(c, devs);
    var places: seq<Place> := [];
    var prev: Option<Place> := None;
    var i := 0;
    while i < |devs|
      invariant i <= |devs| && OnTrack(c, devs, i, prev, places, goal)
    {
      TrackStep(c, devs, i, prev, places, goal);
      var p := PlaceNext(c, devs, i, prev);
      if !InChip(c, p) {
        return None;
      }
      places, prev, i := places + [p], Some(p), i + 1;
    }
    TrackEnds(c, devs, prev, places, goal);
    r := Some(places);
  }

  // ---------------------------------------------------------------- what the layout guarantees

  /** Each device begins where the one before it ends, inside the chips. */
  ghost predicate Consecutive(c: Nand, places: seq<Place>) {
    (forall k :: 0 <= k < |places| ==> InChip(c, places[k]))
    && forall k :: 0 < k < |places| ==> places[k].offset == places[k - 1].offset + places[k - 1].size
  }

  lemma {:induction false} LayoutShape(c: Nand, devs: seq<Dev>, i: nat, prev: Option<Place>)
    requires Sane(c, devs) && EndOf(c, prev) <= c.chipSize && ScansEnd(c, devs, i, prev) && i <= |devs|
    requires Places(c, devs, i, prev).Some?
    ensures var places := Places(c, devs, i, prev).value;
            && |places| == |devs| - i && Consecutive(c, places)
            && (places != [] ==> places[0].offset == OffsetOf(c, prev))
            && (places != [] && devs[|devs| - 1].parts != [] && (prev.Some? || |places| > 1) ==>
                  places[|places| - 1].offset + places[|places| - 1].size == c.chipSize)
            && forall k :: 0 <= k < |places| - 1 ==>
                 var d, offset := devs[i + k], places[k].offset;
                 ScanEnds(d, offset) && Div(Scanned(d, offset), d.eraseSize) >= 1
                 && places[k].size == SizeOf(c, d, offset)
    decreases |devs| - i
  {
    if i < |devs| {
      var p := PlaceOf(c, devs, i, prev);
      LayoutShape(c, devs, i + 1, Some(p));
      if i + 1 < |devs| {
        ScannedIs(devs[i], p.offset);
      }
    }
  }

  lemma {:induction false} LastWithoutParts(c: Nand, devs: seq<Dev>, i: nat, prev: Option<Place>)
    requires Sane(c, devs) && EndOf(c, prev) <= c.chipSize && ScansEnd(c, devs, i, prev) && i <= |devs|
    requires Places(c, devs, i, prev).Some?
    ensures var places := Places(c, devs, i, prev).value;
            places != [] && devs[|devs| - 1].parts == [] ==> places[|places| - 1].size == devs[|devs| - 1].size
    decreases |devs| - i
  {
    if i < |devs| {
      LastWithoutParts(c, devs, i + 1, Some(PlaceOf(c, devs, i, prev)));
    }
  }

  /**
   * The devices follow each other, stay inside the chips, and the last one with partitions ends exactly where
   * the chips end.
   */
  lemma LayoutIsConsecutive(c: Nand, devs: seq<Dev>)
    requires Sane(c, devs) && ScansEnd(c, devs, 0, None) && Places(c, devs, 0, None).Some?
    ensures var places := Places(c, devs, 0, None).value;
            && |places| == |devs| && Consecutive(c, places)
            && (|devs| > 1 && devs[|devs| - 1].parts != [] ==>
                  places[|devs| - 1].offset + places[|devs| - 1].size == c.chipSize)
            && (devs != [] && devs[|devs| - 1].parts == [] ==> places[|devs| - 1].size == devs[|devs| - 1].size)
            && (devs != [] ==> places[0].offset == FirstOffset(c))
  {
    LayoutShape(c, devs, 0, None);
    LastWithoutParts(c, devs, 0, None);
  }

  /** A tenth more, rounded up, and four. */
  lemma WantedIs(d: Dev)
    requires d.eraseSize > 0
    ensures var n, k := Div(Sum(d.parts), d.eraseSize), Wanted(d);
            k >= n + 4 && n <= 10 * (k - n - 4) < n + 10
  {
  }

  lemma SumMore(s: seq<nat>, x: nat)
    ensures Sum(s + [x]) == Sum(s) + x && Sum([]) == 0
  {
    if s == [] {
      assert [] + [x] == [x];
    } else {
      SumMore(s[1..], x);
      assert (s + [x])[1..] == s[1..] + [x];
    }
  }

  /**
   * Every device but the last, with partitions of `n` whole erase blocks together, holds `good` superblocks that are
   * not reported factory bad, `n` and a tenth more, rounded up, and four; they lie between its start and `end`, and no
   * shorter stretch holds as many.  Below 4 GiB the device ends with that stretch, rounded up to a multiple of `round`.
   */
  lemma EnoughGoodBlocks(c: Nand, devs: seq<Dev>, k: nat) returns (n: nat, good: nat, end: nat)
    requires Sane(c, devs) && ScansEnd(c, devs, 0, None) && Places(c, devs, 0, None).Some?
    requires k + 1 < |devs|
    ensures k < |Places(c, devs, 0, None).value|
    ensures Times(n, devs[k].eraseSize) <= Sum(devs[k].parts) < Times(n + 1, devs[k].eraseSize)
    ensures good >= n + 4 && n <= 10 * (good - n - 4) < n + 10
    ensures var p, d := Places(c, devs, 0, None).value[k], devs[k];
            var first := Div(p.offset, d.eraseSize);
            && first < end <= first + Div(p.size, d.eraseSize)
            && (first <= |d.view| ==>
                  end <= |d.view| && |Sound(d.view, first, end)| == good && !d.view[end - 1].FactoryBad?)
            && (p.offset < U32 ==>
                  Div(p.size, d.eraseSize) < end - first + c.round && Mod(Div(p.size, d.eraseSize), c.round) == 0)
  {
    LayoutShape(c, devs, 0, None);
    var p, d := Places(c, devs, 0, None).value[k], devs[k];
    var first := Div(p.offset, d.eraseSize);
    WantedIs(d);
    ScannedIs(d, p.offset);
    n, good, end := Div(Sum(d.parts), d.eraseSize), Wanted(d), RegionEnd(d.view, first, Wanted(d));
    var blocks := Div(Scanned(d, p.offset), d.eraseSize);
    RoundUpIs(blocks, c.round);
    DivUnique(p.size, d.eraseSize, RoundUp(blocks, c.round), 0);
    WholeBlocks(Sum(d.parts), d.eraseSize);
    if first <= |d.view| {
      SoundCount(d.view, first, good);
      EndsGood(d.view, first, good);
    }
  }

  lemma WholeBlocks(x: nat, d: nat)
    requires d > 0
    ensures Times(Div(x, d), d) <= x < Times(Div(x, d) + 1, d)
  {
    DivModTimes(x, d);
    MulSucc(Div(x, d), d);
  }

  /** The last block of the stretch is one of those counted. */
  lemma {:induction false} EndsGood(status: seq<Status>, from: nat, need: nat)
    requires from <= |status| && need > 0 && Enough(status, from, need)
    ensures from < RegionEnd(status, from, need) <= |status|
    ensures !status[RegionEnd(status, from, need) - 1].FactoryBad?
    decreases |status| - from
  {
    if status[from].FactoryBad? {
      EndsGood(status, from + 1, need);
    } else if need > 1 {
      EndsGood(status, from + 1, need - 1);
    }
  }

  /**
   * A device gets the scanned blocks rounded up to a multiple of `round` exactly when it starts below 4 GiB:
   * beyond that the scan's start is cut to 32 bits and the distance comes out too long.
   */
  lemma SizeIsScanIff(c: Nand, d: Dev, offset: nat)
    requires c.round > 0 && d.eraseSize > 0 && ScanEnds(d, offset) && Times(c.round, d.eraseSize) <= U32
    ensures var k := Div(offset, d.eraseSize);
            var blocks := RegionEnd(d.view, k, Wanted(d)) - k;
            && blocks >= 1 && Div(Scanned(d, offset), d.eraseSize) >= 1
            && (SizeOf(c, d, offset) == Times(RoundUp(blocks, c.round), d.eraseSize) <==> offset < U32)
  {
    ScannedIs(d, offset);
    if offset >= U32 {
      var k := Div(offset, d.eraseSize);
      var blocks := RegionEnd(d.view, k, Wanted(d)) - k;
      ScannedBeyond(c, d, offset);
      var far := Div(Scanned(d, offset), d.eraseSize);
      RoundUpIs(blocks, c.round);
      RoundUpIs(far, c.round);
      MulSign(RoundUp(far, c.round) - RoundUp(blocks, c.round), d.eraseSize);
      MulAdd(RoundUp(far, c.round) - RoundUp(blocks, c.round), RoundUp(blocks, c.round), d.eraseSize);
    }
  }

  lemma ScannedBeyond(c: Nand, d: Dev, offset: nat)
    requires c.round > 0 && d.eraseSize > 0 && ScanEnds(d, offset) && Times(c.round, d.eraseSize) <= U32 <= offset
    ensures var k := Div(offset, d.eraseSize);
            Div(Scanned(d, offset), d.eraseSize) >= RegionEnd(d.view, k, Wanted(d)) - k + c.round
  {
    var k := Div(offset, d.eraseSize);
    var blocks := RegionEnd(d.view, k, Wanted(d)) - k;
    var q, rem := DivMod(Scanned(d, offset), d.eraseSize);
    assert offset - offset % U32 >= U32;
    if q < blocks + c.round {
      MulAdd(blocks, c.round, d.eraseSize);
      MulSign(blocks + c.round - 1 - q, d.eraseSize);
      MulAdd(blocks + c.round - 1 - q, q, d.eraseSize);
      MulSucc(blocks + c.round - 1, d.eraseSize);
      assert false;
    }
  }

  /** On one chip the first device starts at or behind the last block of the record store's region. */
  lemma LayoutClearsReserved(c: Nand, g: Geometry)
    requires WellFormed(g) && c.round > 0 && c.blockSize > 0
    requires c.bootBlocks == g.start && c.scan == g.status
    requires Times(RoundUp(End(g) - g.start, c.round), c.blockSize) < U32
    ensures FirstOffset(c) >= Times(End(g), c.blockSize)
  {
    var blocks := End(g) - g.start;
    RoundUpIs(blocks, c.round);
    var extra := RoundUp(blocks, c.round) - blocks;
    MulAdd(blocks, extra, c.blockSize);
    MulNat(extra, c.blockSize);
    MulAdd(blocks, g.start, c.blockSize);
  }

  /**
   * The first device starts less than a round of blocks behind the region, on a multiple of it from the boot area,
   * exactly when these blocks are shorter than 4 GiB: their product with the block size is a 32-bit one.
   */
  lemma FirstOffsetClose(c: Nand) returns (blocks: nat)
    requires c.round > 0 && c.blockSize > 0 && Enough(c.scan, c.bootBlocks, RESERVED_BLOCK_CNT)
    ensures 0 <= c.bootBlocks + blocks - RegionEnd(c.scan, c.bootBlocks, 48) < c.round && Mod(blocks, c.round) == 0
    ensures FirstOffset(c) == Times(c.bootBlocks + blocks, c.blockSize) <==> Times(blocks, c.blockSize) < 0x1_0000_0000
  {
    var need := RegionEnd(c.scan, c.bootBlocks, RESERVED_BLOCK_CNT) - c.bootBlocks;
    blocks := RoundUp(need, c.round);
    RoundUpIs(need, c.round);
    MulAdd(c.bootBlocks, blocks, c.blockSize);
  }

  lemma FirstOffsetBeyondBoot(c: Nand)
    requires c.round > 0 && c.blockSize > 0 && Enough(c.scan, c.bootBlocks, RESERVED_BLOCK_CNT)
    ensures var blocks := RoundUp(RegionEnd(c.scan, c.bootBlocks, RESERVED_BLOCK_CNT) - c.bootBlocks, c.round);
            FirstOffset(c) > BootSize(c) <==> Times(blocks, c.blockSize) % U32 != 0
    ensures Times(RoundUp(RegionEnd(c.scan, c.bootBlocks, RESERVED_BLOCK_CNT) - c.bootBlocks, c.round), c.blockSize) > 0
  {
    var need := RegionEnd(c.scan, c.bootBlocks, RESERVED_BLOCK_CNT) - c.bootBlocks;
    RoundUpIs(need, c.round);
    MulSign(RoundUp(need, c.round), c.blockSize);
  }

  /**
   * A boot device and one other device with partitions: the other one is given the chips minus the boot device, but
   * starts behind the reserved region as well, so the initialisation fails, always when the region, rounded up, is
   * shorter than 4 GiB, and otherwise unless its length is a multiple of 4 GiB.
   */
  lemma SingleDeviceFails(c: Nand, devs: seq<Dev>)
    requires Sane(c, devs) && |devs| == 1 && devs[0].parts != [] && ScansEnd(c, devs, 0, None)
    ensures var blocks := RoundUp(RegionEnd(c.scan, c.bootBlocks, 48) - c.bootBlocks, c.round);
            && (Places(c, devs, 0, None) == None <==> Times(blocks, c.blockSize) % 0x1_0000_0000 != 0)
            && (Times(blocks, c.blockSize) < 0x1_0000_0000 ==> Places(c, devs, 0, None) == None)
  {
    var p := PlaceOf(c, devs, 0, None);
    assert p.offset + p.size == FirstOffset(c) + (c.chipSize - BootSize(c));
    FirstOffsetBeyondBoot(c);
  }
}
