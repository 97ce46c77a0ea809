/**
 * Partitions as windows of one translation layer: block/aml_nftl_block.c and block/aml_nftl_init.c. The
 * translation layer itself is an array of sectors.
 */
module Partition {
  import opened StoreSpec

  const U64 := 0x1_0000_0000_0000_0000
  const SECTOR := 512

  type u64 = x: int | 0 <= x < U64

  const EIO := -5

  /** A partition's sectors within the translation layer. */
  datatype Window = Window(offset: nat, size: nat)

  // ---------------------------------------------------------------- laying out the windows

  function SumTo(sizes: seq<u64>, i: nat): nat
    requires i <= |sizes|
  {
    if i == 0 then 0 else SumTo(sizes, i - 1) + sizes[i - 1]
  }

  /** 64-bit addition. */
  function Add64(a: u64, b: u64): u64 {
    if a + b < U64 then a + b else a + b - U64
  }

  /** Where partition `i` starts, in bytes: a 64-bit running sum. */
  function Start(sizes: seq<u64>, i: nat): u64
    requires i <= |sizes|
  {
    if i == 0 then 0 else Add64(Start(sizes, i - 1), sizes[i - 1])
  }

  lemma {:induction false} StartIsSum(sizes: seq<u64>, i: nat)
    requires i <= |sizes| && SumTo(sizes, i) < U64
    ensures Start(sizes, i) == SumTo(sizes, i)
  {
    if i > 0 {
      StartIsSum(sizes, i - 1);
    }
  }

  function Sectors(bytes: nat): nat {
    bytes / SECTOR
  }

  lemma SectorsAdd(a: nat, b: nat, c: nat)
    requires a + b <= c
    ensures Sectors(a) + Sectors(b) <= Sectors(c)
  {
  }

  /** The window of one partition; nothing when it would start behind the capacity. */
  function WindowOf(capacity: nat, start: nat, size: nat): Option<Window> {
    var offset, sectors := Sectors(start), Sectors(size);
    if offset >= capacity then None
    else Some(Window(offset, if offset + sectors <= capacity then sectors else capacity - offset))
  }

  predicate InWindow(w: Window, sector: nat) {
    w.offset <= sector < w.offset + w.size
  }

  predicate HasWindow(capacity: nat, sizes: seq<u64>, i: nat, w: Option<Window>)
    requires i < |sizes|
  {
    WindowOf(capacity, Start(sizes, i), sizes[i]) == w
  }

  /** `windows` are the windows of the first partitions, up to the first that has none. */
  ghost predicate WindowsOf(capacity: nat, sizes: seq<u64>, windows: seq<Window>) {
    |windows| <= |sizes|
    && (forall i :: 0 <= i < |windows| ==> HasWindow(capacity, sizes, i, Some(windows[i])))
    && (|windows| < |sizes| ==> HasWindow(capacity, sizes, |windows|, None))
  }

  /**
   * The window of one partition holds exactly the sectors of the capacity that lie within its whole sectors, counted
   * from its start cut to sectors; it is refused iff the start is at or behind the capacity.
   */
  method InitWindow(capacity: nat, start: nat, size: nat) returns (w: Option<Window>)
    ensures w.None? <==> capacity * SECTOR <= start
    ensures w.Some? ==> w.value.offset == start / SECTOR
    ensures w.Some? ==> forall k: nat :: InWindow(w.value, k) <==>
              k < capacity && start / SECTOR <= k < start / SECTOR + size / SECTOR
    ensures w == WindowOf(capacity, start, size)
  {
    var offset, sectors := Sectors(start), Sectors(size);
    if offset >= capacity {
      return None;
    }
    w := Some(Window(offset, if offset + sectors <= capacity then sectors else capacity - offset));
  }

  method AddPartitions(capacity: nat, sizes: seq<u64>) returns (windows: seq<Window>)
    ensures WindowsOf(capacity, sizes, windows)
  {
    windows := [];
    var current: u64 := 0;
    for i := 0 to |sizes|
      invariant |windows| == i && current == Start(sizes, i)
      invariant forall k :: 0 <= k < i ==> HasWindow(capacity, sizes, k, Some(windows[k]))
    {
      var w := InitWindow(capacity, current, sizes[i]);
      if w.None? {
        return;
      }
      windows := windows + [w.value];
      current := Add64(current, sizes[i]);
    }
  }

  predicate Apart(a: Window, b: Window) {
    a.offset + a.size <= b.offset || b.offset + b.size <= a.offset
  }

  lemma {:induction false} SumGrows(sizes: seq<u64>, i: nat, j: nat)
    requires i <= j <= |sizes|
    ensures SumTo(sizes, i) <= SumTo(sizes, j)
    decreases j - i
  {
    if i < j {
      SumGrows(sizes, i, j - 1);
    }
  }

  /** When the running sum reaches the second of two partitions without wrapping, their windows are in order. */
  lemma WindowsApart(capacity: nat, sizes: seq<u64>, windows: seq<Window>, i: nat, j: nat)
    requires WindowsOf(capacity, sizes, windows) && i < j < |windows|
    requires SumTo(sizes, j) < U64
    ensures windows[i].offset + windows[i].size <= windows[j].offset
  {
    SumGrows(sizes, i + 1, j);
    StartIsSum(sizes, i);
    StartIsSum(sizes, j);
    assert HasWindow(capacity, sizes, i, Some(windows[i])) && HasWindow(capacity, sizes, j, Some(windows[j]));
    WindowsInOrder(capacity, Start(sizes, i), sizes[i], Start(sizes, j), sizes[j], windows[i], windows[j]);
  }

  lemma WindowsInOrder(capacity: nat, a: nat, size: nat, b: nat, next: nat, first: Window, second: Window)
    requires a + size <= b
    requires WindowOf(capacity, a, size) == Some(first) && WindowOf(capacity, b, next) == Some(second)
    ensures first.offset + first.size <= second.offset
  {
    SectorsAdd(a, size, b);
  }

  /** Every window ends where the next ones begin, or before. */
  ghost predicate InOrder(windows: seq<Window>) {
    forall i, j :: 0 <= i < j < |windows| ==> windows[i].offset + windows[i].size <= windows[j].offset
  }

  /** The first partition whose start, added up without wrapping, would not fit 64 bits. */
  lemma {:induction false} FirstWrap(sizes: seq<u64>, n: nat) returns (k: nat)
    requires n <= |sizes| && SumTo(sizes, n) >= U64
    ensures 0 < k <= n && SumTo(sizes, k - 1) < U64 <= SumTo(sizes, k)
  {
    if SumTo(sizes, n - 1) < U64 {
      k := n;
    } else {
      k := FirstWrap(sizes, n - 1);
    }
  }

  /**
   * A partition that starts below the capacity and ends beyond 2^64 is longer than a sector, and the next one starts
   * before it.
   */
  lemma WrapOverlaps(capacity: nat, a: u64, size: u64, next: nat, first: Window, second: Window)
    requires capacity < U64 / SECTOR && a + size >= U64
    requires WindowOf(capacity, a, size) == Some(first) && WindowOf(capacity, Add64(a, size), next) == Some(second)
    ensures first.size > 0 && second.offset <= first.offset
  {
    assert Sectors(a) < U64 / SECTOR - 1;
    assert size >= SECTOR;
    SectorsAdd(Add64(a, size), 0, a);
  }

  /**
   * Partition isolation: the windows are in order, each behind the ones before it, exactly when the start of the
   * last of them is reached without wrapping.  (The capacity is a 32-bit number of sectors.)
   */
  lemma InOrderIff(capacity: nat, sizes: seq<u64>, windows: seq<Window>)
    requires WindowsOf(capacity, sizes, windows) && windows != [] && capacity < U64 / SECTOR
    ensures InOrder(windows) <==> SumTo(sizes, |windows| - 1) < U64
  {
    var last := |windows| - 1;
    if SumTo(sizes, last) < U64 {
      forall i, j | 0 <= i < j < |windows| ensures windows[i].offset + windows[i].size <= windows[j].offset {
        SumGrows(sizes, j, last);
        WindowsApart(capacity, sizes, windows, i, j);
      }
    } else {
      var k := FirstWrap(sizes, last);
      StartIsSum(sizes, k - 1);
      assert HasWindow(capacity, sizes, k - 1, Some(windows[k - 1])) && HasWindow(capacity, sizes, k, Some(windows[k]));
      WrapOverlaps(capacity, Start(sizes, k - 1), sizes[k - 1], sizes[k], windows[k - 1], windows[k]);
    }
  }

  /** Every window is inside the capacity, even when the sizes wrap. */
  lemma WindowInside(capacity: nat, sizes: seq<u64>, windows: seq<Window>, i: nat)
    requires WindowsOf(capacity, sizes, windows) && i < |windows|
    ensures windows[i].offset + windows[i].size <= capacity
  {
    assert HasWindow(capacity, sizes, i, Some(windows[i]));
  }

  /**
   * The all-ones size stands for "the rest": in first place it leaves every later partition without a window, and
   * anywhere else before the last window it breaks the order.
   */
  lemma AllOnesBeforeLast(capacity: nat, sizes: seq<u64>, windows: seq<Window>, i: nat)
    requires WindowsOf(capacity, sizes, windows) && capacity < U64 / SECTOR
    requires i < |windows| && sizes[i] == U64 - 1
    ensures SumTo(sizes, i) == 0 ==> |windows| == i + 1
    ensures i + 1 < |windows| ==> !InOrder(windows)
  {
    if i + 1 < |windows| {
      assert HasWindow(capacity, sizes, i + 1, Some(windows[i + 1]));
      if SumTo(sizes, i) == 0 {
        StartIsSum(sizes, i + 1);
        assert false;
      }
      SumGrows(sizes, i + 1, |windows| - 1);
      InOrderIff(capacity, sizes, windows);
    }
  }

  /** Such a list of sizes: the windows of the second and the third partition overlap. */
  lemma AllOnesInMiddleOverlaps(windows: seq<Window>)
    requires WindowsOf(100, [1024 as u64, U64 - 1, 1024], windows)
    ensures |windows| == 3 && !Apart(windows[1], windows[2])
  {
    var sizes: seq<u64> := [1024, U64 - 1, 1024];
    assert Start(sizes, 0) == 0 && Start(sizes, 1) == 1024 && Start(sizes, 2) == 1023;
    assert WindowOf(100, 1023, 1024) == Some(Window(1, 2));
    assert WindowOf(100, 1024, U64 - 1) == Some(Window(2, 98));
    assert !HasWindow(100, sizes, 0, None) && !HasWindow(100, sizes, 1, None) && !HasWindow(100, sizes, 2, None);
    assert |windows| == 3;
    assert HasWindow(100, sizes, 1, Some(windows[1])) && HasWindow(100, sizes, 2, Some(windows[2]));
  }

  // ---------------------------------------------------------------- requests

  type Sector = int

  function Total(lens: seq<nat>): nat {
    if lens == [] then 0 else Total(lens[..|lens| - 1]) + lens[|lens| - 1]
  }

  function Flat(segs: seq<seq<Sector>>): (data: seq<Sector>) {
    if segs == [] then [] else Flat(segs[..|segs| - 1]) + segs[|segs| - 1]
  }

  lemma FlatMore(segs: seq<seq<Sector>>, k: nat)
    requires k < |segs|
    ensures Flat(segs[..k + 1]) == Flat(segs[..k]) + segs[k]
  {
    assert segs[..k + 1][..k] == segs[..k];
  }

  lemma {:induction false} FlatShorter(segs: seq<seq<Sector>>, k: nat)
    requires k <= |segs|
    ensures |Flat(segs[..k])| <= |Flat(segs)|
    decreases |segs| - k
  {
    if k < |segs| {
      FlatMore(segs, k);
      FlatShorter(segs, k + 1);
    } else {
      assert segs[..k] == segs;
    }
  }

  lemma TotalMore(lens: seq<nat>, k: nat)
    requires k < |lens|
    ensures Total(lens[..k + 1]) == Total(lens[..k]) + lens[k]
  {
    assert lens[..k + 1][..k] == lens[..k];
  }

  lemma {:induction false} TotalShorter(lens: seq<nat>, k: nat)
    requires k <= |lens|
    ensures Total(lens[..k]) <= Total(lens)
    decreases |lens| - k
  {
    if k < |lens| {
      TotalMore(lens, k);
      TotalShorter(lens, k + 1);
    } else {
      assert lens[..k] == lens;
    }
  }

  /** `data` laid over the sectors from `at` on. */
  function Over(sectors: seq<Sector>, at: nat, data: seq<Sector>): (r: seq<Sector>)
    requires at + |data| <= |sectors|
    ensures |r| == |sectors|
  {
    sectors[..at] + data + sectors[at + |data|..]
  }

  lemma OverMore(sectors: seq<Sector>, at: nat, a: seq<Sector>, b: seq<Sector>)
    requires at + |a| + |b| <= |sectors|
    ensures Over(Over(sectors, at, a), at + |a|, b) == Over(sectors, at, a + b)
  {
  }

  lemma NextSegment(sectors: seq<Sector>, at: nat, segs: seq<seq<Sector>>, k: nat)
    requires k < |segs| && at + |Flat(segs)| <= |sectors|
    ensures var before, after := Flat(segs[..k]), Flat(segs[..k + 1]);
            && |after| == |before| + |segs[k]| <= |Flat(segs)|
            && Over(Over(sectors, at, before), at + |before|, segs[k]) == Over(sectors, at, after)
  {
    FlatMore(segs, k);
    FlatShorter(segs, k + 1);
    OverMore(sectors, at, Flat(segs[..k]), segs[k]);
  }

  /** Only the sectors of the window may differ. */
  ghost predicate OnlyWithin(w: Window, before: seq<Sector>, after: seq<Sector>) {
    |after| == |before|
    && forall k :: 0 <= k < |before| && !(w.offset <= k < w.offset + w.size) ==> after[k] == before[k]
  }

  /** `now` is `before` with the first `k` segments laid over it from `start` on. */
  ghost predicate Laid(before: seq<Sector>, start: nat, segs: seq<seq<Sector>>, k: nat, now: seq<Sector>) {
    k <= |segs| && |Flat(segs[..k])| <= |Flat(segs)| && start + |Flat(segs)| <= |before|
    && now == Over(before, start, Flat(segs[..k]))
  }

  lemma NoneLaid(before: seq<Sector>, start: nat, segs: seq<seq<Sector>>)
    requires start + |Flat(segs)| <= |before|
    ensures Laid(before, start, segs, 0, before)
  {
    assert Over(before, start, []) == before;
  }

  /** Segments laid inside the window, with anything in the place of the next one, leave the other sectors alone. */
  lemma LaidWithin(before: seq<Sector>, start: nat, segs: seq<seq<Sector>>, k: nat, w: Window, now: seq<Sector>)
    requires k <= |segs| && start + |Flat(segs)| <= |before| && |Flat(segs[..k])| <= |Flat(segs)|
    requires w.offset <= start && start + |Flat(segs)| <= w.offset + w.size
    requires var done := Flat(segs[..k]);
             var laid := Over(before, start, done);
             now == laid
             || (k < |segs| && |done| + |segs[k]| <= |Flat(segs)|
                 && OnlyWithin(Window(start + |done|, |segs[k]|), laid, now))
    ensures OnlyWithin(w, before, now)
  {
  }

  /** The translation layer; any of its operations may fail, and a failed write leaves its sectors in any state. */
  class Nftl {
    var sectors: seq<Sector>
    var reboot: bool
    /** How many calls of the layer have failed so far. */
    ghost var failures: nat

    constructor (sectors: seq<Sector>)
      ensures this.sectors == sectors && !reboot && failures == 0
    {
      this.sectors, reboot, failures := sectors, false, 0;
    }

    method NandWrite(at: nat, data: seq<Sector>) returns (failed: bool)
      requires at + |data| <= |sectors|
      modifies this`sectors, this`failures
      ensures failures == old(failures) + if failed then 1 else 0
      ensures !failed ==> sectors == Over(old(sectors), at, data)
      ensures OnlyWithin(Window(at, |data|), old(sectors), sectors)
    {
      failed := *;
      failures := if failed then failures + 1 else failures;
      var junk: seq<Sector> := *;
      sectors := Over(sectors, at, if failed && |junk| == |data| then junk else data);
    }

    method NandRead(at: nat, n: nat) returns (failed: bool, data: seq<Sector>)
      requires at + n <= |sectors|
      modifies this`failures
      ensures failures == old(failures) + if failed then 1 else 0
      ensures |data| == n && (!failed ==> data == sectors[at..at + n])
    {
      failed := *;
      failures := if failed then failures + 1 else failures;
      data := sectors[at..at + n];
    }

    method NandDiscard(at: nat, n: nat)
      requires at + n <= |sectors|
      modifies this`sectors
      ensures OnlyWithin(Window(at, n), old(sectors), sectors)
    {
      var junk: seq<Sector> := *;
      if |junk| == n {
        sectors := Over(sectors, at, junk);
      }
    }

    /** A write request: its segments go out one after the other, from its first sector on. */
    method WriteRequest(w: Window, pos: nat, segs: seq<seq<Sector>>) returns (ret: int)
      requires w.offset + w.size <= |sectors|
      modifies this`sectors, this`failures
      ensures (ret == 0 || ret == EIO) && failures >= old(failures)
      ensures OnlyWithin(w, old(sectors), sectors)
      ensures !reboot && pos + |Flat(segs)| <= w.size ==>
                (ret == 0 <==> failures == old(failures))
                && OnlyWithin(Window(w.offset + pos, |Flat(segs)|), old(sectors), sectors)
      ensures reboot ==> ret == 0 && sectors == old(sectors)
      ensures !reboot && pos + |Flat(segs)| > w.size ==> ret == EIO && sectors == old(sectors)
      ensures !reboot && ret == 0 ==>
                pos + |Flat(segs)| <= w.size && sectors == Over(old(sectors), w.offset + pos, Flat(segs))
    {
      if reboot {
        return 0;
      }
      if pos + |Flat(segs)| > w.size {
        return EIO;
      }
      ret := 0;
      var at := pos;
      ghost var before, start := sectors, w.offset + pos;
      NoneLaid(before, start, segs);
      for k := 0 to |segs|
        invariant failures == old(failures)
        invariant at + w.offset == start + |Flat(segs[..k])| && Laid(before, start, segs, k, sectors)
      {
        NextSegment(before, start, segs, k);
        var failed := NandWrite(at + w.offset, segs[k]);
        if failed {
          LaidWithin(before, start, segs, k, Window(start, |Flat(segs)|), sectors);
          return EIO;
        }
        at := at + |segs[k]|;
      }
      assert segs[..|segs|] == segs;
      LaidWithin(before, start, segs, |segs|, Window(start, |Flat(segs)|), sectors);
    }

    /** A read request into segments of the given lengths; `segs` are those that were filled. */
    method ReadRequest(w: Window, pos: nat, lens: seq<nat>) returns (ret: int, segs: seq<seq<Sector>>)
      requires w.offset + w.size <= |sectors|
      modifies this`failures
      ensures (ret == 0 || ret == EIO) && failures >= old(failures)
      ensures reboot ==> ret == 0 && segs == []
      ensures !reboot && pos + Total(lens) > w.size ==> ret == EIO
      ensures !reboot && pos + Total(lens) <= w.size ==> (ret == 0 <==> failures == old(failures))
      ensures !reboot && ret == 0 ==>
                && pos + Total(lens) <= w.size
                && |segs| == |lens| && (forall k :: 0 <= k < |lens| ==> |segs[k]| == lens[k])
                && Flat(segs) == sectors[w.offset + pos..w.offset + pos + Total(lens)]
    {
      segs := [];
      if reboot {
        return 0, segs;
      }
      if pos + Total(lens) > w.size {
        return EIO, segs;
      }
      var at := pos;
      for k := 0 to |lens|
        invariant at == pos + Total(lens[..k]) <= w.size && failures == old(failures)
        invariant |segs| == k && forall i :: 0 <= i < k ==> |segs[i]| == lens[i]
        invariant Flat(segs) == sectors[w.offset + pos..w.offset + at]
      {
        TotalMore(lens, k);
        TotalShorter(lens, k + 1);
        var failed, data := NandRead(at + w.offset, lens[k]);
        if failed {
          return EIO, segs;
        }
        assert (segs + [data])[..k] == segs;
        segs, at := segs + [data], at + lens[k];
      }
      assert lens[..|lens|] == lens;
      ret := 0;
    }

    /** A discard is one call and always reports success. */
    method DiscardRequest(w: Window, pos: nat, n: nat) returns (ret: int)
      requires w.offset + w.size <= |sectors|
      modifies this`sectors
      ensures OnlyWithin(w, old(sectors), sectors)
      ensures reboot ==> ret == 0 && sectors == old(sectors)
      ensures !reboot ==> ret == if pos + n > w.size then EIO else 0
      ensures !reboot && ret == 0 ==> OnlyWithin(Window(w.offset + pos, n), old(sectors), sectors)
      ensures ret == EIO ==> sectors == old(sectors)
    {
      if reboot {
        return 0;
      }
      if pos + n > w.size {
        return EIO;
      }
      NandDiscard(pos + w.offset, n);
      ret := 0;
    }
  }

  /**
   * Write to one partition, then read it back through segments of any shape, with any write to another partition
   * in between: the bytes written come back.
   */
  method WriteReadAcross(ftl: Nftl, a: Window, b: Window, pos: nat, segs: seq<seq<Sector>>, otherPos: nat,
                         other: seq<seq<Sector>>, lens: seq<nat>)
    returns (wrote: int, ret: int, back: seq<seq<Sector>>)
    requires Apart(a, b) && a.offset + a.size <= |ftl.sectors| && b.offset + b.size <= |ftl.sectors|
    requires !ftl.reboot && Total(lens) == |Flat(segs)|
    modifies ftl`sectors, ftl`failures
    ensures wrote == 0 && ret == 0 ==> Flat(back) == Flat(segs)
    ensures pos + |Flat(segs)| <= a.size && ftl.failures == old(ftl.failures) ==> wrote == 0 && ret == 0
  {
    ghost var before := ftl.sectors;
    wrote := ftl.WriteRequest(a, pos, segs);
    ghost var middle := ftl.sectors;
    var ignored := ftl.WriteRequest(b, otherPos, other);
    ret, back := ftl.ReadRequest(a, pos, lens);
    if wrote == 0 && ret == 0 {
      var at, n := a.offset + pos, |Flat(segs)|;
      assert middle[at..at + n] == Flat(segs);
      assert ftl.sectors[at..at + n] == middle[at..at + n];
    }
  }
}
