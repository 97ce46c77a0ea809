/**
 * The record store as the driver runs it: one object with the flash, the reservation table and the index,
 * changed step by step.  `perfect` says that no program, erase or read fails; otherwise any may, and `log` says which.
 */
module StoreChip {
  import opened Arith
  import opened Sequences
  import opened Flash
  import opened Paging
  import opened StoreSpec
  import opened StoreActs
  import opened StoreJob
  import opened StoreEffects

  class Chip {
    const g: Geometry
    const perfect: bool
    var cells: Cells
    const reserved: array<nat>
    var infos: seq<Info>
    /** The flash after each program and each erase so far: the places where the power may go. */
    ghost var trace: seq<Cells>
    /** Everything asked of the chip so far, and how it went. */
    ghost var log: seq<Act>

    ghost predicate Valid()
      reads this, reserved
    {
      WellFormed(g) && reserved.Length == RESERVED_BLOCK_CNT
      && StateShaped(g, State(cells, reserved[..], infos))
    }

    ghost predicate FlashOk()
      reads this`cells
    {
      WellFormed(g) && Shaped(g, cells)
    }

    ghost function Now(): State
      reads this, reserved
    {
      State(cells, reserved[..], infos)
    }

    constructor (g: Geometry, perfect: bool, cells: Cells)
      requires WellFormed(g) && Shaped(g, cells)
      ensures Valid() && fresh(reserved) && this.g == g && this.perfect == perfect && trace == [] && log == []
      ensures Now() == State(cells, seq(RESERVED_BLOCK_CNT, _ => FREE_SLOT), seq(|g.records|, _ => COLD))
    {
      this.g, this.perfect, this.cells, trace, log := g, perfect, cells, [], [];
      reserved := new nat[RESERVED_BLOCK_CNT](_ => FREE_SLOT);
      infos := seq(|g.records|, _ => COLD);
    }

    // ------------------------------------------------------------ the chip operations, with their outcome left open

    method Erase(b: nat) returns (ok: bool)
      requires FlashOk() && b < |cells|
      modifies this`cells, this`trace, this`log
      ensures FlashOk() && cells == old(cells)[b := cells[b]]
      ensures trace == old(trace) + [cells] && log == old(log) + [Erasing(b, ok)]
      ensures ok ==> cells[b] == ErasedBlock(g.pages)
      ensures perfect ==> ok
    {
      ok := *;
      ok := ok || perfect;
      var left: Block := *;
      if ok {
        left := ErasedBlock(g.pages);
      } else if |left| != g.pages || !Sized(left, g.pageSize) {
        left := cells[b];
      }
      cells := cells[b := left];
      trace, log := trace + [cells], log + [Erasing(b, ok)];
    }

    method Program(b: nat, i: nat, page: Page) returns (ok: bool)
      requires FlashOk() && b < |cells| && i < g.pages
      requires page.Programmed? && |page.data| == g.pageSize
      modifies this`cells, this`trace, this`log
      ensures FlashOk() && cells == old(cells)[b := old(cells)[b][i := cells[b][i]]]
      ensures trace == old(trace) + [cells] && log == old(log) + [Writing(b, i, ok)]
      ensures ok ==> cells[b][i] == page
      ensures perfect ==> ok
    {
      ok := *;
      ok := ok || perfect;
      var left: Page := *;
      if ok {
        left := page;
      } else if left.Programmed? && |left.data| != g.pageSize {
        left := Erased;
      }
      cells := cells[b := cells[b][i := left]];
      trace, log := trace + [cells], log + [Writing(b, i, ok)];
    }

    method Read(b: nat, i: nat) returns (page: Option<Page>)
      requires FlashOk() && b < |cells| && i < g.pages
      modifies this`log
      ensures log == old(log) + [Reading(b, i, page.Some?)]
      ensures page.Some? ==> page.value == cells[b][i]
      ensures perfect ==> page.Some?
    {
      var ok: bool := *;
      page := if ok || perfect then Some(cells[b][i]) else None;
      log := log + [Reading(b, i, page.Some?)];
    }

    /** One more read of a search that has come as far as `acts`. */
    method ReadOn(b: nat, i: nat, ghost start: seq<Act>, ghost acts: seq<Act>)
      returns (page: Option<Page>, ghost more: seq<Act>)
      requires FlashOk() && b < |cells| && i < g.pages && log == start + acts
      modifies this`log
      ensures log == start + more && more == acts + [Reading(b, i, page.Some?)]
      ensures page.Some? ==> page.value == cells[b][i]
      ensures perfect ==> page.Some?
    {
      page := Read(b, i);
      more := acts + [Reading(b, i, page.Some?)];
      Regroup(start, acts, [Reading(b, i, page.Some?)]);
    }

    // ------------------------------------------------------------ the allocator

    method GetLastReserveBlock() returns (total: nat)
      requires Valid()
      ensures total == End(g)
    {
      total := g.start;
      var count := 0;
      while count < RESERVED_BLOCK_CNT
        invariant count <= RESERVED_BLOCK_CNT && total <= |g.status|
        invariant Enough(g.status, total, RESERVED_BLOCK_CNT - count)
        invariant RegionEnd(g.status, total, RESERVED_BLOCK_CNT - count) == End(g)
        decreases |g.status| - total
      {
        if g.status[total].FactoryBad? {
          total := total + 1;
          continue;
        }
        total := total + 1;
        count := count + 1;
      }
    }

    method IsReserved(b: nat) returns (used: bool)
      requires Valid()
      ensures used <==> b in reserved[..]
    {
      used := false;
      for i := 0 to RESERVED_BLOCK_CNT
        invariant !used && b !in reserved[..i]
      {
        if reserved[i] == b {
          assert reserved[..][i] == b;
          return true;
        }
        assert reserved[..i + 1] == reserved[..i] + [reserved[i]];
      }
      assert reserved[..RESERVED_BLOCK_CNT] == reserved[..];
    }

    /** The lowest free block that erases; the candidates below it were asked to, and did not. */
    method GetFreeBlock(excluded: nat) returns (ret: int, ghost steps: seq<Cells>, ghost acts: seq<Act>)
      requires Valid()
      modifies this`cells, this`trace, this`log
      ensures Valid() && |cells| == |old(cells)|
      ensures ret >= 0 ==> Chose(g, reserved[..], acts, excluded, ret) && cells[ret] == ErasedBlock(g.pages)
      ensures ret < 0 ==> ret == BAD_BLOCK_FAILURE && NoneLeft(g, reserved[..], acts, excluded)
      ensures log == old(log) + acts && Hunt(acts, ret)
      ensures forall k :: 0 <= k < |acts| ==> Candidate(g, reserved[..], excluded, acts[k].b)
      ensures forall b: nat :: b < |cells| && b != ret && Erasing(b, false) !in acts ==> cells[b] == old(cells)[b]
      ensures trace == old(trace) + steps && AllKept(old(cells), steps, reserved[..])
      ensures perfect ==> steps == if ret >= 0 then [cells] else []
      ensures perfect ==> acts == if ret >= 0 then [Erasing(ret, true)] else []
    {
      steps, acts := [], [];
      var start := g.start;
      var total := GetLastReserveBlock();
      while start < total
        invariant g.start <= start && total == End(g) && Valid() && |cells| == |old(cells)|
        invariant log == old(log) + acts && Hunt(acts, -1)
        invariant forall k :: 0 <= k < |acts| ==> Candidate(g, reserved[..], excluded, acts[k].b)
        invariant forall b: nat :: b < start && Candidate(g, reserved[..], excluded, b) ==> Erasing(b, false) in acts
        invariant forall b: nat :: b < |cells| && Erasing(b, false) !in acts ==> cells[b] == old(cells)[b]
        invariant trace == old(trace) + steps && AllKept(old(cells), steps, reserved[..])
        invariant perfect ==> steps == [] && acts == []
      {
        var used := IsReserved(start);
        if used || start == excluded || g.status[start].FactoryBad? {
          start := start + 1;
          continue;
        }
        var ok := Erase(start);
        Regroup(old(trace), steps, [cells]);
        Regroup(old(log), acts, [Erasing(start, ok)]);
        steps, acts := steps + [cells], acts + [Erasing(start, ok)];
        if ok {
          return start, steps, acts;
        }
        start := start + 1;
      }
      ret := BAD_BLOCK_FAILURE;
    }

    // ------------------------------------------------------------ programs

    /**
     * Erase, write every page, read every page back, erase again: 0 means that all of that went well and the block
     * is erased.  The test pages carry the tag and the stamp of the save that asked for the test.
     */
    method TestBlockReserved(b: nat, name: string, stamp: nat)
      returns (ret: int, ghost steps: seq<Cells>, ghost acts: seq<Act>)
      requires FlashOk() && b < |cells|
      modifies this`cells, this`trace, this`log
      ensures FlashOk() && cells == old(cells)[b := cells[b]]
      ensures trace == old(trace) + steps && OnlyAt(old(cells), steps, b) && |steps| >= 1
      ensures log == old(log) + acts && acts != [] && acts[0].Erasing? && acts[0].b == b
      ensures ret == 0 || ret == -1
      ensures Ended(acts, ret == 0)
      ensures ret == 0 ==> cells[b] == ErasedBlock(g.pages) && TestRun(acts, b, g.pages)
      ensures ret == 0 ==> TestPattern(steps, b, g.pages, Programmed(seq(g.pageSize, _ => 0xa5 as byte), name, stamp))
      ensures perfect ==> ret == 0
    {
      var pattern := Programmed(seq(g.pageSize, _ => 0xa5 as byte), name, stamp);
      var ok := Erase(b);
      ghost var first, more, done := cells, [], [];
      steps, acts := [cells], [Erasing(b, ok)];
      if !ok {
        return -1, steps, acts;
      }
      ok, more, done := TestWrite(b, pattern);
      FillOnlyAt(old(cells), first, steps, more, b);
      Regroup(old(trace), steps, more);
      Regroup(old(log), acts, done);
      EndedMore(acts, done, ok);
      steps, acts := steps + more, acts + done;
      if !ok {
        return -1, steps, acts;
      }
      ok, done := TestRead(b, pattern);
      Regroup(old(log), acts, done);
      EndedMore(acts, done, ok);
      acts := acts + done;
      if !ok {
        return -1, steps, acts;
      }
      ok := Erase(b);
      Regroup(old(trace), steps, [cells]);
      Regroup(old(log), acts, [Erasing(b, ok)]);
      EndedMore(acts, [Erasing(b, ok)], ok);
      steps, acts := steps + [cells], acts + [Erasing(b, ok)];
      ret := if ok then 0 else -1;
    }

    /** The pattern goes into every page of the block. */
    method TestWrite(b: nat, pattern: Page) returns (ok: bool, ghost steps: seq<Cells>, ghost acts: seq<Act>)
      requires FlashOk() && b < |cells| && pattern.Programmed? && |pattern.data| == g.pageSize
      modifies this`cells, this`trace, this`log
      ensures FlashOk() && cells == old(cells)[b := cells[b]]
      ensures trace == old(trace) + steps && OnlyAt(old(cells), steps, b)
      ensures log == old(log) + acts && Ended(acts, ok)
      ensures ok ==> |steps| == g.pages && forall k :: 0 <= k < g.pages ==> ProgrammedAt(steps[k], b, k, pattern)
      ensures ok ==> |acts| == g.pages && forall k :: 0 <= k < g.pages ==> acts[k] == Writing(b, k, true)
      ensures ok ==> forall k :: 0 <= k < g.pages ==> cells[b][k] == pattern
      ensures perfect ==> ok
    {
      steps, acts, ok := [], [], true;
      for t := 0 to g.pages
        invariant FlashOk() && cells == old(cells)[b := cells[b]]
        invariant trace == old(trace) + steps && OnlyAt(old(cells), steps, b) && |steps| == t
        invariant log == old(log) + acts && |acts| == t
        invariant forall k :: 0 <= k < t ==> acts[k] == Writing(b, k, true)
        invariant forall k :: 0 <= k < t ==> cells[b][k] == pattern
        invariant forall k :: 0 <= k < t ==> ProgrammedAt(steps[k], b, k, pattern)
      {
        ok := Program(b, t, pattern);
        Regroup(old(trace), steps, [cells]);
        Regroup(old(log), acts, [Writing(b, t, ok)]);
        steps, acts := steps + [cells], acts + [Writing(b, t, ok)];
        if !ok {
          return;
        }
      }
      ok := true;
    }

    /** Every page of the block is read back; one that cannot be read counts as one that came out wrong. */
    method TestRead(b: nat, pattern: Page) returns (ok: bool, ghost acts: seq<Act>)
      requires FlashOk() && b < |cells| && pattern.Programmed? && |pattern.data| == g.pageSize
      requires forall k :: 0 <= k < g.pages ==> cells[b][k] == pattern
      modifies this`log
      ensures log == old(log) + acts && Ended(acts, ok)
      ensures ok ==> |acts| == g.pages && forall k :: 0 <= k < g.pages ==> acts[k] == Reading(b, k, true)
      ensures perfect ==> ok
    {
      acts := [];
      for t := 0 to g.pages
        invariant log == old(log) + acts && |acts| == t
        invariant forall k :: 0 <= k < t ==> acts[k] == Reading(b, k, true)
      {
        var page;
        page, acts := ReadOn(b, t, old(log), acts);
        if page.None? || DataOf(page.value, g.pageSize) != pattern.data {
          return false, acts;
        }
      }
      ok := true;
    }

    /** The next page of the copy described by `job`. */
    method ProgramPiece(ghost job: Job, ghost steps: seq<Cells>, b: nat, i: nat, buf: seq<byte>, name: string,
                        stamp: nat, offset: nat, amount: nat)
      returns (ok: bool)
      requires FlashOk() && job == Job(job.before, b, i, buf, g.pageSize, name, stamp)
      requires Shaped(g, job.before) && job.At(steps, cells, offset, amount) && amount < |buf|
      modifies this`cells, this`trace, this`log
      ensures FlashOk() && trace == old(trace) + [cells] && log == old(log) + [Writing(b, i + offset, ok)]
      ensures ok ==> job.At(steps + [cells], cells, offset + 1, amount + g.pageSize)
      ensures OnlyAt(job.before, steps + [cells], b) && cells == job.before[b := cells[b]]
      ensures perfect ==> ok
    {
      var len := PieceLen(|buf| - amount, g.pageSize);
      var piece := Pad(buf[amount..amount + len], g.pageSize);
      ghost var before := cells;
      job.Room(steps, before, offset, amount);
      ok := Program(b, i + offset, Programmed(piece, name, stamp));
      job.Stops(steps, before, offset, amount, cells);
      if ok {
        job.OnePageMore(steps, before, offset, amount, len, cells);
      }
    }

    /** One copy of the record, page by page, from page `i` of block `b` on; the first program that fails ends it. */
    method ProgramCopy(b: nat, i: nat, buf: seq<byte>, name: string, stamp: nat)
      returns (ok: bool, ghost steps: seq<Cells>, ghost acts: seq<Act>)
      requires FlashOk() && b < |cells| && buf != []
      requires i + |Split(buf, g.pageSize)| <= g.pages
      modifies this`cells, this`trace, this`log
      ensures FlashOk() && cells == old(cells)[b := cells[b]]
      ensures trace == old(trace) + steps && OnlyAt(old(cells), steps, b)
      ensures log == old(log) + acts && WritesTo(acts, b) && Ended(acts, ok)
      ensures ok ==> cells[b] == Put(old(cells)[b], i, CopyOf(buf, g.pageSize, name, stamp))
      ensures ok ==> steps == ProgramSteps(old(cells), b, i, CopyOf(buf, g.pageSize, name, stamp))
      ensures perfect ==> ok
    {
      ghost var job := Job(cells, b, i, buf, g.pageSize, name, stamp);
      var offset, amount := 0, 0;
      steps, acts := [], [];
      job.Starts();
      while amount < |buf|
        invariant FlashOk() && job.At(steps, cells, offset, amount) && trace == old(trace) + steps
        invariant log == old(log) + acts && WritesTo(acts, b) && AllOk(acts)
        decreases |buf| - amount
      {
        ok := ProgramPiece(job, steps, b, i, buf, name, stamp, offset, amount);
        Regroup(old(trace), steps, [cells]);
        Regroup(old(log), acts, [Writing(b, i + offset, ok)]);
        steps, acts := steps + [cells], acts + [Writing(b, i + offset, ok)];
        if !ok {
          return;
        }
        offset := offset + 1;
        amount := amount + g.pageSize;
      }
      job.Finishes(steps, cells, offset, amount);
      ok := true;
    }

    /** Copies of the record laid end to end over the block; a tail shorter than one copy stays as it is. */
    method ProgramBlock(b: nat, argPages: nat, buf: seq<byte>, name: string, stamp: nat)
      returns (ok: bool, ghost steps: seq<Cells>, ghost acts: seq<Act>)
      requires FlashOk() && b < |cells| && buf != []
      requires argPages == |Split(buf, g.pageSize)|
      modifies this`cells, this`trace, this`log
      ensures FlashOk() && cells == old(cells)[b := cells[b]]
      ensures trace == old(trace) + steps && OnlyAt(old(cells), steps, b)
      ensures log == old(log) + acts && WritesTo(acts, b) && Ended(acts, ok)
      ensures ok ==> cells[b] == Fill(old(cells)[b], 0, CopyOf(buf, g.pageSize, name, stamp))
      ensures ok ==> steps == FillSteps(old(cells), b, 0, CopyOf(buf, g.pageSize, name, stamp))
      ensures perfect ==> ok
    {
      ghost var job := Job(cells, b, 0, buf, g.pageSize, name, stamp);
      job.FillingStarts();
      steps, acts := [], [];
      var i := 0;
      while i < g.pages && g.pages - i >= argPages
        invariant FlashOk() && i <= g.pages && job.Filling(steps, cells, i)
        invariant trace == old(trace) + steps
        invariant log == old(log) + acts && WritesTo(acts, b) && AllOk(acts)
      {
        ghost var before, more, tries := cells, [], [];
        ok, more, tries := ProgramCopy(b, i, buf, name, stamp);
        job.FillingStops(steps, before, i, more, cells);
        Regroup(old(trace), steps, more);
        Regroup(old(log), acts, tries);
        EndedMore(acts, tries, ok);
        acts := acts + tries;
        if !ok {
          steps := steps + more;
          return;
        }
        job.FillsOneMore(steps, before, i, more, cells);
        steps := steps + more;
        i := i + argPages;
      }
      job.FillingEnds(steps, cells, i);
      ok := true;
    }

    // ------------------------------------------------------------ bookkeeping of a save

    method ReserveSlot(b: nat)
      requires reserved.Length == RESERVED_BLOCK_CNT
      modifies reserved
      ensures reserved[..] == Reserve(old(reserved[..]), b)
    {
      SwapSlot(FREE_SLOT, b);
    }

    method ReleaseSlot(b: nat)
      requires reserved.Length == RESERVED_BLOCK_CNT
      modifies reserved
      ensures reserved[..] == Release(old(reserved[..]), b)
    {
      SwapSlot(b, FREE_SLOT);
    }

    method SwapSlot(v: nat, w: nat)
      requires reserved.Length == RESERVED_BLOCK_CNT
      modifies reserved
      ensures reserved[..] == Swap(old(reserved[..]), v, w)
    {
      ghost var before := reserved[..];
      for i := 0 to RESERVED_BLOCK_CNT
        invariant reserved[..] == before && i <= FirstIndex(before, v)
      {
        assert reserved[i] == before[i];
        if reserved[i] == v {
          reserved[i] := w % 256;
          assert reserved[..] == before[i := w % 256];
          return;
        }
      }
    }

    // ------------------------------------------------------------ taking a new block

    /** The first program of a fresh block: copies of a FullBlk record all over it, one copy of a FullPage record. */
    method ProgramNew(r: nat, blk: nat, buf: seq<byte>, stamp: nat)
      returns (ok: bool, ghost steps: seq<Cells>, ghost acts: seq<Act>)
      requires Valid() && r < |g.records| && IsBuffer(g, g.records[r], buf) && blk < |cells|
      requires g.records[r].kind.FullPage? ==> Fits(g, g.records[r])
      requires cells[blk] == ErasedBlock(g.pages)
      modifies this`cells, this`trace, this`log
      ensures Valid() && cells == old(cells)[blk := cells[blk]]
      ensures trace == old(trace) + steps && OnlyAt(old(cells), steps, blk)
      ensures log == old(log) + acts && WritesTo(acts, blk) && Ended(acts, ok)
      ensures ok ==> cells[blk] == NewContent(g, g.records[r], buf, stamp)
      ensures ok ==>
                steps == NewSteps(old(cells), blk, g.records[r].kind, NewCopy(g, g.records[r], buf, stamp))
      ensures perfect ==> ok
    {
      var rec := g.records[r];
      var argPages := rec.size / g.pageSize + 1;
      ArgPagesIs(rec.size, g.pageSize);
      SavedPages(buf, rec.size, g.pageSize);
      if rec.kind.FullBlk? {
        ok, steps, acts := ProgramBlock(blk, argPages, buf, rec.name, stamp);
      } else {
        ok, steps, acts := ProgramCopy(blk, 0, buf, rec.name, stamp);
      }
    }

    /** One try of a save: a free block is taken and programmed. */
    method TryBlock(r: nat, buf: seq<byte>, stamp: nat, excluded: nat)
      returns (ret: int, ghost steps: seq<Cells>, ghost taken: seq<Act>, ghost written: seq<Act>, ok: bool)
      requires Valid() && r < |g.records| && IsBuffer(g, g.records[r], buf)
      requires g.records[r].kind.FullPage? ==> Fits(g, g.records[r])
      modifies this`cells, this`trace, this`log
      ensures Valid() && trace == old(trace) + steps && log == old(log) + taken + written
      ensures Kept(old(cells), cells, reserved[..]) && AllKept(old(cells), steps, reserved[..])
      ensures ret < 0 ==> ret == BAD_BLOCK_FAILURE && NoneLeft(g, reserved[..], taken, excluded) && written == []
      ensures ret >= 0 ==>
                Usable(g, ret) && ret !in reserved[..] && Chose(g, reserved[..], taken, excluded, ret)
                && WritesTo(written, ret) && Ended(written, ok)
                && (ok ==> cells[ret] == NewContent(g, g.records[r], buf, stamp))
      ensures perfect ==> WroteFresh(old(cells), reserved[..], r, buf, stamp, excluded, ret, steps, cells)
      ensures perfect && ret >= 0 ==> ok
    {
      ret, steps, taken := GetFreeBlock(excluded);
      written, ok := [], false;
      if ret < 0 {
        if perfect {
          FirstFreeIsNone(g, reserved[..], excluded);
        }
        return;
      }
      ghost var ready, more := cells, [];
      ok, more, written := ProgramNew(r, ret, buf, stamp);
      KeptSteps(old(cells), ready, steps, more, ret, reserved[..]);
      Regroup(old(trace), steps, more);
      if perfect {
        FirstFreeIs(g, reserved[..], excluded, ret);
        assert ready == old(cells)[ret := ErasedBlock(g.pages)];
        assert cells == old(cells)[ret := cells[ret]];
      }
      steps := steps + more;
    }

    /** One try and, when a program failed and a test is left, the test of the block. */
    method TryAndTest(r: nat, buf: seq<byte>, stamp: nat, excluded: nat, mayTest: bool)
      returns (ret: int, ok: bool, ghost steps: seq<Cells>, ghost taken: seq<Act>, ghost written: seq<Act>,
               ghost probed: seq<Act>)
      requires Valid() && r < |g.records| && IsBuffer(g, g.records[r], buf)
      requires g.records[r].kind.FullPage? ==> Fits(g, g.records[r])
      modifies this`cells, this`trace, this`log
      ensures Valid() && trace == old(trace) + steps && log == old(log) + (taken + written + probed)
      ensures Kept(old(cells), cells, reserved[..]) && AllKept(old(cells), steps, reserved[..])
      ensures TryActs(g, reserved[..], excluded, ret, ok, mayTest, taken, written, probed)
      ensures ret >= 0 ==> Usable(g, ret) && ret !in reserved[..]
      ensures ret >= 0 && ok ==> cells[ret] == NewContent(g, g.records[r], buf, stamp)
      ensures perfect ==> WroteFresh(old(cells), reserved[..], r, buf, stamp, excluded, ret, steps, cells)
      ensures perfect && ret >= 0 ==> ok
    {
      ret, steps, taken, written, ok := TryBlock(r, buf, stamp, excluded);
      probed := [];
      if ret >= 0 && !ok && mayTest {
        ghost var spoiled, tried := cells, [];
        var outcome;
        outcome, tried, probed := TestBlockReserved(ret, g.records[r].name, stamp);
        KeptSteps(old(cells), spoiled, steps, tried, ret, reserved[..]);
        Regroup(old(trace), steps, tried);
        steps := steps + tried;
      }
      Regroup(old(log), taken, written);
      Regroup(old(log), taken + written, probed);
    }

    /** One more try of a search for a block that has come as far as `acts`, with the tries `e`. */
    method NextTry(r: nat, buf: seq<byte>, stamp: nat, blk: nat, tests: nat, ghost excluded: nat, ghost tested: nat,
                   ghost start: seq<Act>, ghost acts: seq<Act>, ghost e: Effort)
      returns (ret: int, ok: bool, ghost steps: seq<Cells>, ghost next: Effort, ghost more: seq<Act>)
      requires Valid() && r < |g.records| && IsBuffer(g, g.records[r], buf)
      requires g.records[r].kind.FullPage? ==> Fits(g, g.records[r])
      requires tests == tested + |e.blks| <= 3 && blk == Barred(e, excluded, |e.blks|)
      requires log == start + acts && Trying(g, reserved[..], acts, e, excluded)
      modifies this`cells, this`trace, this`log
      ensures Valid() && trace == old(trace) + steps && log == start + more
      ensures Kept(old(cells), cells, reserved[..]) && AllKept(old(cells), steps, reserved[..])
      ensures if ret < 0 then ret == BAD_BLOCK_FAILURE && next == e else next.blks == e.blks + [ret]
      ensures if ret < 0 then Tried(g, reserved[..], more, next, excluded, tested, BAD_BLOCK_FAILURE)
              else if ok then Tried(g, reserved[..], more, next, excluded, tested, 0)
              else if tests == 3 then Tried(g, reserved[..], more, next, excluded, tested, WRITE_FAILED)
              else Trying(g, reserved[..], more, next, excluded)
      ensures ret >= 0 ==> Usable(g, ret) && ret !in reserved[..]
      ensures ret >= 0 && ok ==> cells[ret] == NewContent(g, g.records[r], buf, stamp)
      ensures perfect ==> WroteFresh(old(cells), reserved[..], r, buf, stamp, blk, ret, steps, cells)
      ensures perfect && ret >= 0 ==> ok
    {
      ghost var taken, written, probed;
      ret, ok, steps, taken, written, probed := TryAndTest(r, buf, stamp, blk, tests < 3);
      Regroup(start, acts, taken + written + probed);
      TryStep(g, reserved[..], acts, e, excluded, tested, ret, ok, taken, written, probed);
      more := acts + (taken + written + probed);
      next := if ret < 0 then e
              else if ok then Effort(e.blks + [ret], e.fails)
              else OneMore(e, ret, TryEnd(acts, taken, written) - 1);
    }

    /** What `TryBlock` does when nothing fails. */
    ghost predicate WroteFresh(before: Cells, slots: seq<nat>, r: nat, buf: seq<byte>, stamp: nat, excluded: nat,
                               ret: int, steps: seq<Cells>, after: Cells)
      requires WellFormed(g) && r < |g.records| && IsBuffer(g, g.records[r], buf) && Shaped(g, before)
      requires g.records[r].kind.FullPage? ==> Fits(g, g.records[r])
    {
      match FirstFree(g, slots, excluded)
      case None => ret == BAD_BLOCK_FAILURE && after == before && steps == []
      case Some(n) =>
        var clean := before[n := ErasedBlock(g.pages)];
        ret == n && after == before[n := NewContent(g, g.records[r], buf, stamp)]
        && steps == [clean] + NewSteps(clean, n, g.records[r].kind, NewCopy(g, g.records[r], buf, stamp))
    }

    /**
     * Take a free block and program it; a block that fails is tested and another one tried.  A save tests three
     * times at most, and `tested` tests were made before.
     */
    method WriteFresh(r: nat, buf: seq<byte>, stamp: nat, excluded: nat, tested: nat)
      returns (ret: int, blk: nat, tries: nat, ghost e: Effort, ghost steps: seq<Cells>, ghost acts: seq<Act>)
      requires Valid() && r < |g.records| && IsBuffer(g, g.records[r], buf) && tested <= 3
      requires g.records[r].kind.FullPage? ==> Fits(g, g.records[r])
      modifies this`cells, this`trace, this`log
      ensures Valid() && trace == old(trace) + steps && log == old(log) + acts
      ensures ret == 0 || ret == WRITE_FAILED || ret == BAD_BLOCK_FAILURE
      ensures Tried(g, reserved[..], acts, e, excluded, tested, ret) && tries == |e.blks|
      ensures Kept(old(cells), cells, reserved[..]) && AllKept(old(cells), steps, reserved[..])
      ensures ret == 0 ==> Usable(g, blk) && blk !in reserved[..] && blk == e.blks[tries - 1]
      ensures ret == 0 ==> cells[blk] == NewContent(g, g.records[r], buf, stamp)
      ensures perfect ==>
                WroteFresh(old(cells), reserved[..], r, buf, stamp, excluded, if ret == 0 then blk else ret, steps,
                           cells)
      ensures perfect && ret == 0 ==> tries == 1
    {
      var tests := tested;
      blk, tries, e, steps, acts := excluded, 0, NO_EFFORT, [], [];
      TryingStarts(g, reserved[..], excluded);
      while true
        invariant Valid() && trace == old(trace) + steps && log == old(log) + acts
        invariant tests <= 3 && tested + tries == tests
        invariant |e.blks| == tries && blk == Barred(e, excluded, tries) && Trying(g, reserved[..], acts, e, excluded)
        invariant Kept(old(cells), cells, reserved[..]) && AllKept(old(cells), steps, reserved[..])
        invariant perfect ==> tries == 0 && steps == [] && cells == old(cells)
        decreases 3 - tests
      {
        var free, ok;
        ghost var more;
        free, ok, more, e, acts := NextTry(r, buf, stamp, blk, tests, excluded, tested, old(log), acts, e);
        Regroup(old(trace), steps, more);
        steps := steps + more;
        if free < 0 {
          return BAD_BLOCK_FAILURE, blk, tries, e, steps, acts;
        }
        blk, tries := free, tries + 1;
        if ok {
          return 0, blk, tries, e, steps, acts;
        }
        if tests >= 3 {
          return WRITE_FAILED, blk, tries, e, steps, acts;
        }
        tests := tests + 1;
      }
    }

    // ------------------------------------------------------------ moving to it

    /**
     * Erase a block that is no longer needed; one that will not erase must at least pass its test. `erased` and
     * `passed` say how the erase and, if it came to that, the test went.
     */
    method DropBlock(b: nat, name: string, stamp: nat)
      returns (ret: int, ghost erased: bool, ghost passed: bool, ghost steps: seq<Cells>, ghost acts: seq<Act>)
      requires FlashOk() && b < |cells|
      modifies this`cells, this`trace, this`log
      ensures FlashOk() && cells == old(cells)[b := cells[b]]
      ensures trace == old(trace) + steps && OnlyAt(old(cells), steps, b)
      ensures log == old(log) + acts && Dropped(acts, b, erased, passed)
      ensures erased || passed ==> cells[b] == ErasedBlock(g.pages)
      ensures if erased then steps == [cells] && !passed else |steps| >= 2
      ensures ret == 0 || ret == READ_ONLY
      ensures ret == READ_ONLY <==> !erased && !passed
      ensures perfect ==> ret == 0 && steps == [cells]
    {
      var ok := Erase(b);
      erased, passed := ok, false;
      steps, acts := [cells], [Erasing(b, ok)];
      ret := 0;
      if !ok {
        ghost var torn := cells;
        var tested, more, probed := TestBlockReserved(b, name, stamp);
        FillOnlyAt(old(cells), torn, steps, more, b);
        Regroup(old(trace), steps, more);
        Regroup(old(log), acts, probed);
        assert (acts + probed)[1..] == probed;
        steps, acts := steps + more, acts + probed;
        passed := tested == 0;
        ret := if tested == 0 then 0 else READ_ONLY;
      }
    }

    /** Block `blk` becomes the record's block; the old one is erased and its slot freed. */
    method MoveTo(r: nat, blk: nat, clearUpdate: bool)
      returns (ret: int, ghost erased: bool, ghost passed: bool, ghost steps: seq<Cells>, ghost acts: seq<Act>)
      requires Valid() && r < |g.records| && Usable(g, blk)
      requires !infos[r].valid ==> infos[r].page == 0
      modifies this`cells, this`infos, this`trace, this`log, reserved
      ensures Valid() && trace == old(trace) + steps && log == old(log) + acts
      ensures var prev := old(infos)[r];
              infos == old(infos)[r := prev.(valid := true, blk := blk, page := 0,
                                             update := if clearUpdate && ret == 0 then false else prev.update)]
      ensures OldBlockDone(old(infos)[r], old(cells), cells, steps)
      ensures if HasOld(old(infos)[r]) then Dropped(acts, old(infos)[r].blk, erased, passed) else acts == []
      ensures ret == 0 ==> reserved[..] == TableAfterMove(old(infos)[r], old(reserved[..]), blk)
      ensures ret == 0 && HasOld(old(infos)[r]) ==> cells[old(infos)[r].blk] == ErasedBlock(g.pages)
      ensures ret != 0 ==> ret == READ_ONLY && reserved[..] == Reserve(old(reserved[..]), blk)
      ensures ret == READ_ONLY <==> HasOld(old(infos)[r]) && !erased && !passed
      ensures perfect ==> ret == 0 && steps == OldErased(old(infos)[r], cells)
    {
      var prev := infos[r];
      steps, acts, erased, passed := [], [], false, false;
      ReserveSlot(blk);
      infos := infos[r := prev.(valid := true, blk := blk, page := 0)];
      if prev.valid && prev.blk != 0 {
        ret, erased, passed, steps, acts := DropBlock(prev.blk, g.records[r].name, prev.stamp);
        if ret != 0 {
          return;
        }
        ReleaseSlot(prev.blk);
      }
      if clearUpdate {
        infos := infos[r := infos[r].(update := false)];
      }
      ret := 0;
    }

    /**
     * The half of a save that takes a new block.  0: moved.  WRITE_FAILED, BAD_BLOCK_FAILURE: nothing moved, and all
     * tries failed.  READ_ONLY: moved, but the old block neither erased nor passed its test, so its slot stays taken.
     */
    method MoveSave(r: nat, buf: seq<byte>, excluded: nat, tested: nat, clearUpdate: bool)
      returns (ret: int, tries: nat, ghost e: Effort, ghost first: seq<Act>, ghost last: seq<Act>,
               ghost steps: seq<Cells>)
      requires Valid() && CanSave(g, Now(), r, buf) && tested <= 3
      requires g.records[r].kind.FullPage? ==> Fits(g, g.records[r])
      requires infos[r].valid ==> infos[r].blk in reserved[..]
      requires !infos[r].valid ==> infos[r].page == 0
      modifies this`cells, this`infos, this`trace, this`log, reserved
      ensures Valid() && trace == old(trace) + steps && log == old(log) + first + last
      ensures ret == 0 || ret == READ_ONLY || ret == WRITE_FAILED || ret == BAD_BLOCK_FAILURE
      ensures Tried(g, old(reserved[..]), first, e, excluded, tested, ret) && tries == |e.blks|
      ensures ret == WRITE_FAILED || ret == BAD_BLOCK_FAILURE ==> NothingMoved(old(Now()), steps, Now()) && last == []
      ensures ret == 0 || ret == READ_ONLY ==>
                MovedIn(g, old(Now()), steps, Now(), r, NewContent(g, g.records[r], buf, old(infos)[r].stamp),
                        ret == 0, clearUpdate)
                && infos[r].blk == e.blks[tries - 1]
                && OldGone(old(infos)[r], last, ret == 0)
      ensures ret == 0 && HasOld(old(infos)[r]) ==> cells[old(infos)[r].blk] == ErasedBlock(g.pages)
      ensures perfect ==> MovedPerfectly(g, old(Now()), r, buf, excluded, clearUpdate, ret, steps, Now())
      ensures perfect && ret == 0 ==> tries == 1
    {
      var wrote, blk, n;
      ghost var effort, before, head := NO_EFFORT, cells, [];
      wrote, blk, n, effort, head, first := WriteFresh(r, buf, infos[r].stamp, excluded, tested);
      tries, e, last, steps := n, effort, [], head;
      if wrote < 0 {
        assert log == old(log) + first + last;
        return wrote, tries, e, first, last, steps;
      }
      ghost var written, slots, prev, second, erased, passed := cells, reserved[..], infos[r], [], false, false;
      ret, erased, passed, second, last := MoveTo(r, blk, clearUpdate);
      OldUntilNewHolds(before, written, head, second, prev, cells, slots, blk);
      Regroup(old(trace), head, second);
      steps := head + second;
    }

    // ------------------------------------------------------------ saving a FullBlk record

    /** Save a FullBlk record: the stamp goes up, and the record moves to a new block or stays where it is. */
    method SaveFullBlk(r: nat, buf: seq<byte>)
      returns (ret: int, tries: nat, ghost e: Effort, ghost first: seq<Act>, ghost last: seq<Act>,
               ghost steps: seq<Cells>)
      requires Valid() && CanSave(g, Now(), r, buf) && g.records[r].kind.FullBlk?
      requires infos[r].valid ==> infos[r].blk in reserved[..]
      requires !infos[r].valid ==> infos[r].page == 0
      modifies this`cells, this`infos, this`trace, this`log, reserved
      ensures Valid() && trace == old(trace) + steps && log == old(log) + first + last
      ensures ret == 0 || ret == READ_ONLY || ret == WRITE_FAILED || ret == BAD_BLOCK_FAILURE
      ensures Tried(g, old(reserved[..]), first, e, 0, 0, ret) && tries == |e.blks|
      ensures ret == WRITE_FAILED || ret == BAD_BLOCK_FAILURE ==>
                NothingMoved(Bumped(old(Now()), r), steps, Now()) && last == []
      ensures ret == 0 || ret == READ_ONLY ==>
                MovedIn(g, Bumped(old(Now()), r), steps, Now(), r,
                        Fill(ErasedBlock(g.pages), 0, NewCopy(g, g.records[r], buf, Bump(old(infos)[r]).stamp)),
                        ret == 0, false)
                && infos[r].blk == e.blks[tries - 1]
                && OldGone(old(infos)[r], last, ret == 0)
      ensures ret == 0 && HasOld(old(infos)[r]) ==> cells[old(infos)[r].blk] == ErasedBlock(g.pages)
      ensures perfect ==>
                Outcome(ret == 0, Now()) == BlkSave(g, old(Now()), r, buf)
                && steps == BlkSaveSteps(g, old(Now()), r, buf)
    {
      infos := infos[r := Bump(infos[r])];
      ret, tries, e, first, last, steps := MoveSave(r, buf, 0, 0, false);
    }

    // ------------------------------------------------------------ saving a FullPage record

    ghost predicate CanAppend(r: nat, buf: seq<byte>)
      reads this, reserved
    {
      Valid() && CanSave(g, Now(), r, buf) && g.records[r].kind.FullPage? && Fits(g, g.records[r])
      && Listed(g, Now(), r)
    }

    /**
     * Append behind the newest copy of the block in use.  When a program fails the code tests that very block, which
     * erases it, and programs the same pages again.  `again` says that the copy went in after a test was passed.
     */
    method AppendInPlace(r: nat, buf: seq<byte>, tested: nat)
      returns (ret: int, tries: nat, ghost again: bool, ghost e: Effort, ghost steps: seq<Cells>, ghost acts: seq<Act>)
      requires CanAppend(r, buf) && !MustMove(g, Now(), r) && tested <= 3
      modifies this`cells, this`infos, this`trace, this`log
      ensures Valid() && trace == old(trace) + steps && log == old(log) + acts
      ensures ret == 0 || ret == WRITE_FAILED
      ensures Repeated(acts, e, old(infos)[r].blk, tested, ret) && tries == |e.blks|
      ensures var info, at := old(infos)[r], old(infos)[r].page + Pages(g, g.records[r]);
              var copy := NewCopy(g, g.records[r], buf, info.stamp);
              && cells == old(cells)[info.blk := cells[info.blk]] && OnlyAt(old(cells), steps, info.blk)
              && infos == old(infos)[r := if ret == 0 then info.(page := at) else info]
              && (ret == 0 ==> cells[info.blk][at..at + |copy|] == copy)
              && (ret == 0 && tries == 1 ==>
                    !again && cells[info.blk] == Put(old(cells)[info.blk], at, copy)
                    && steps == ProgramSteps(old(cells), info.blk, at, copy))
              && (ret == 0 && again ==> tries > 1 && cells[info.blk] == Put(ErasedBlock(g.pages), at, copy))
      ensures perfect ==> ret == 0 && tries == 1
    {
      var rec, info := g.records[r], infos[r];
      var argPages := rec.size / g.pageSize + 1;
      ArgPagesIs(rec.size, g.pageSize);
      SavedPages(buf, rec.size, g.pageSize);
      var at := info.page + argPages;
      var tests := tested;
      tries, again, e, steps, acts := 0, false, NO_EFFORT, [], [];
      while true
        invariant Valid() && trace == old(trace) + steps && log == old(log) + acts
        invariant tests <= 3 && tested + tries == tests
        invariant |e.blks| == tries && Repeating(acts, e, info.blk)
        invariant infos == old(infos) && cells == old(cells)[info.blk := cells[info.blk]]
        invariant OnlyAt(old(cells), steps, info.blk)
        invariant tries == 0 ==> !again && cells == old(cells) && steps == []
        invariant again ==> cells[info.blk] == ErasedBlock(g.pages)
        invariant perfect ==> tries == 0
        decreases 3 - tests
      {
        ghost var before := cells;
        var ok, passed;
        ghost var more;
        ok, passed, more, e, acts :=
          NextInPlace(info.blk, at, buf, rec.name, info.stamp, tests, tested, old(log), acts, e);
        FillOnlyAt(old(cells), before, steps, more, info.blk);
        Regroup(old(trace), steps, more);
        steps, tries := steps + more, tries + 1;
        if ok {
          infos := infos[r := info.(page := at)];
          return 0, tries, again, e, steps, acts;
        }
        if tests >= 3 {
          return WRITE_FAILED, tries, again, e, steps, acts;
        }
        again, tests := passed, tests + 1;
      }
    }

    /** One try of an append in place and, when a program failed and a test is left, the test of the block. */
    method TryInPlace(b: nat, at: nat, buf: seq<byte>, name: string, stamp: nat, mayTest: bool)
      returns (ok: bool, passed: bool, ghost steps: seq<Cells>, ghost written: seq<Act>, ghost probed: seq<Act>)
      requires FlashOk() && b < |cells| && buf != [] && at + |Split(buf, g.pageSize)| <= g.pages
      modifies this`cells, this`trace, this`log
      ensures FlashOk() && cells == old(cells)[b := cells[b]]
      ensures trace == old(trace) + steps && OnlyAt(old(cells), steps, b)
      ensures log == old(log) + (written + probed) && RepeatActs(b, ok, mayTest, written, probed)
      ensures ok ==> cells[b] == Put(old(cells)[b], at, CopyOf(buf, g.pageSize, name, stamp))
      ensures ok ==> steps == ProgramSteps(old(cells), b, at, CopyOf(buf, g.pageSize, name, stamp))
      ensures passed ==> cells[b] == ErasedBlock(g.pages)
      ensures perfect ==> ok
    {
      ok, steps, written := ProgramCopy(b, at, buf, name, stamp);
      passed, probed := false, [];
      if !ok && mayTest {
        ghost var spoiled, tried := cells, [];
        var outcome;
        outcome, tried, probed := TestBlockReserved(b, name, stamp);
        FillOnlyAt(old(cells), spoiled, steps, tried, b);
        Regroup(old(trace), steps, tried);
        steps, passed := steps + tried, outcome == 0;
      }
      Regroup(old(log), written, probed);
    }

    /** One more try of an append in place that has come as far as `acts`, with the tries `e`. */
    method NextInPlace(b: nat, at: nat, buf: seq<byte>, name: string, stamp: nat, tests: nat, ghost tested: nat,
                       ghost start: seq<Act>, ghost acts: seq<Act>, ghost e: Effort)
      returns (ok: bool, passed: bool, ghost steps: seq<Cells>, ghost next: Effort, ghost more: seq<Act>)
      requires FlashOk() && b < |cells| && buf != [] && at + |Split(buf, g.pageSize)| <= g.pages
      requires tests == tested + |e.blks| <= 3 && log == start + acts && Repeating(acts, e, b)
      modifies this`cells, this`trace, this`log
      ensures FlashOk() && cells == old(cells)[b := cells[b]]
      ensures trace == old(trace) + steps && OnlyAt(old(cells), steps, b)
      ensures log == start + more && |next.blks| == |e.blks| + 1
      ensures if ok then Repeated(more, next, b, tested, 0)
              else if tests == 3 then Repeated(more, next, b, tested, WRITE_FAILED)
              else Repeating(more, next, b)
      ensures ok ==> cells[b] == Put(old(cells)[b], at, CopyOf(buf, g.pageSize, name, stamp))
      ensures ok ==> steps == ProgramSteps(old(cells), b, at, CopyOf(buf, g.pageSize, name, stamp))
      ensures passed ==> cells[b] == ErasedBlock(g.pages)
      ensures perfect ==> ok
    {
      ghost var written, probed;
      ok, passed, steps, written, probed := TryInPlace(b, at, buf, name, stamp, tests < 3);
      Regroup(start, acts, written + probed);
      RepeatStep(acts, e, b, tested, ok, written, probed);
      more := acts + (written + probed);
      next := if ok then Effort(e.blks + [b], e.fails) else OneMore(e, b, |acts| + |written| - 1);
    }

    /** Append in place, seen from outside. */
    method AppendHere(r: nat, buf: seq<byte>, tested: nat)
      returns (ret: int, tries: nat, ghost again: bool, ghost e: Effort, ghost steps: seq<Cells>, ghost acts: seq<Act>)
      requires CanAppend(r, buf) && !MustMove(g, Now(), r) && tested <= 3
      modifies this`cells, this`infos, this`trace, this`log
      ensures Valid() && trace == old(trace) + steps && log == old(log) + acts && CanSave(g, Now(), r, buf)
      ensures ret == 0 || ret == WRITE_FAILED
      ensures Repeated(acts, e, old(infos)[r].blk, tested, ret) && tries == |e.blks|
      ensures OthersStay(g, old(Now()), steps, Now(), r)
      ensures infos[r].blk == old(infos)[r].blk && infos[r].valid
      ensures infos[r].page == old(infos)[r].page + (if ret == 0 then Pages(g, g.records[r]) else 0)
      ensures ret == 0 ==>
                CanAppend(r, buf) && HoldsCopy(g, Now(), r, buf) && OthersListed(g, old(Now()), Now(), r)
                && 1 <= tries <= 4 - tested
      ensures ret == 0 && again ==> Stranded(g, Now(), r, buf)
      ensures ret == 0 && tries == 1 ==> !again && AppendedPerfectly(g, old(Now()), r, buf, steps, Now())
      ensures perfect ==> ret == 0 && tries == 1
    {
      ghost var before := Now();
      ret, tries, again, e, steps, acts := AppendInPlace(r, buf, tested);
      InPlaceOthers(g, before, steps, Now(), r);
    }

    /** Append to a fresh block, which takes over from the block in use. */
    method MoveCopy(r: nat, buf: seq<byte>, excluded: nat, tested: nat)
      returns (ret: int, tries: nat, ghost e: Effort, ghost first: seq<Act>, ghost last: seq<Act>,
               ghost steps: seq<Cells>)
      requires CanAppend(r, buf) && tested <= 3
      modifies this`cells, this`infos, this`trace, this`log, reserved
      ensures Valid() && trace == old(trace) + steps && log == old(log) + first + last && CanSave(g, Now(), r, buf)
      ensures ret == 0 || ret == READ_ONLY || ret == WRITE_FAILED || ret == BAD_BLOCK_FAILURE
      ensures Tried(g, old(reserved[..]), first, e, excluded, tested, ret) && tries == |e.blks|
      ensures OthersStay(g, old(Now()), steps, Now(), r)
      ensures ret == 0 || ret == READ_ONLY ==>
                infos[r].valid && infos[r].blk !in old(reserved[..]) && infos[r].blk == e.blks[tries - 1]
                && infos[r].page == 0 && OldGone(old(infos)[r], last, ret == 0)
      ensures ret == 0 ==>
                CanAppend(r, buf) && HoldsCopy(g, Now(), r, buf) && OthersListed(g, old(Now()), Now(), r)
                && 1 <= tries <= 4 - tested
      ensures perfect ==> MovedPerfectly(g, old(Now()), r, buf, excluded, true, ret, steps, Now())
      ensures perfect && ret == 0 ==> tries == 1
    {
      ghost var before := Now();
      ret, tries, e, first, last, steps := MoveSave(r, buf, excluded, tested, true);
      ghost var content := NewContent(g, g.records[r], buf, before.infos[r].stamp);
      if ret == 0 || ret == READ_ONLY {
        MovedOthers(g, before, steps, Now(), r, content, ret == 0, true);
      }
      if ret == 0 {
        MovedListed(g, before, steps, Now(), r, content, true);
      }
    }

    /**
     * One append: to the block in use while there is room behind the newest copy for one more, else, or when the block
     * is marked for update, to a fresh one.
     */
    method AppendCopy(r: nat, buf: seq<byte>, excluded: nat, tested: nat)
      returns (ret: int, tries: nat, ghost again: bool, ghost e: Effort, ghost first: seq<Act>, ghost last: seq<Act>,
               ghost steps: seq<Cells>)
      requires CanAppend(r, buf) && tested <= 3
      modifies this`cells, this`infos, this`trace, this`log, reserved
      ensures Valid() && trace == old(trace) + steps && log == old(log) + first + last && CanSave(g, Now(), r, buf)
      ensures ret == 0 || ret == READ_ONLY || ret == WRITE_FAILED || ret == BAD_BLOCK_FAILURE
      ensures OthersStay(g, old(Now()), steps, Now(), r)
      ensures var info, width := old(infos)[r], Pages(g, g.records[r]);
              if info.valid && !info.update && (info.page + width) + width <= g.pages then
                Repeated(first, e, info.blk, tested, ret) && reserved[..] == old(reserved[..])
                && infos[r].blk == info.blk && infos[r].page == info.page + (if ret == 0 then width else 0)
              else
                Tried(g, old(reserved[..]), first, e, excluded, tested, ret)
                && (ret == 0 ==> infos[r].blk !in old(reserved[..]) && infos[r].page == 0)
      ensures tries == |e.blks|
      ensures ret == 0 ==>
                CanAppend(r, buf) && HoldsCopy(g, Now(), r, buf) && OthersListed(g, old(Now()), Now(), r)
                && 1 <= tries <= 4 - tested
      ensures ret == 0 && again ==> Stranded(g, Now(), r, buf)
      ensures perfect ==>
                && Outcome(ret == 0, Now()) == PagePass(g, old(Now()), r, buf, excluded)
                && steps == PagePassSteps(g, old(Now()), r, buf, excluded)
                && !again && (ret == 0 ==> tries == 1) && (ret == 0 || ret == BAD_BLOCK_FAILURE)
    {
      ghost var start := Now();
      var argPages := g.records[r].size / g.pageSize + 1;
      ArgPagesIs(g.records[r].size, g.pageSize);
      infos := infos[r := Bump(infos[r])];
      var info := infos[r];
      if info.valid && !info.update && info.page + 2 * argPages <= g.pages {
        last := [];
        ret, tries, again, e, steps, first := AppendHere(r, buf, tested);
        if ret == 0 && tries == 1 {
          PassAppends(g, start, r, buf, excluded, steps, Now());
        }
      } else {
        again := false;
        ret, tries, e, first, last, steps := MoveCopy(r, buf, excluded, tested);
        if perfect {
          PassMoves(g, start, r, buf, excluded, ret, steps, Now());
        }
      }
      BumpOthers(g, start, steps, Now(), r);
    }

    /**
     * The second append of a save that started in state `start`, with `before` as the flash states since then; what
     * the first append left is the current state.
     */
    method AppendAgain(r: nat, buf: seq<byte>, tested: nat, ghost start: State, ghost before: seq<Cells>)
      returns (ret: int, ghost again: bool, ghost e: Effort, ghost first: seq<Act>, ghost last: seq<Act>,
               ghost steps: seq<Cells>)
      requires CanAppend(r, buf) && tested <= 3 && CanSave(g, start, r, buf)
      requires OthersStay(g, start, before, Now(), r) && OthersListed(g, start, Now(), r)
      requires perfect ==>
                 PagePass(g, start, r, buf, 0) == Outcome(true, Now()) && before == PagePassSteps(g, start, r, buf, 0)
      modifies this`cells, this`infos, this`trace, this`log, reserved
      ensures Valid() && before <= steps && trace == old(trace) + steps[|before|..] && CanSave(g, Now(), r, buf)
      ensures log == old(log) + first + last
      ensures ret == 0 || ret == READ_ONLY || ret == WRITE_FAILED || ret == BAD_BLOCK_FAILURE
      ensures OthersStay(g, start, steps, Now(), r)
      ensures Strove(g, old(Now()), r, first, e, old(infos)[r].blk, tested, ret)
      ensures ret == 0 ==> HoldsCopy(g, Now(), r, buf) && Listed(g, Now(), r)
      ensures ret == 0 && again ==> Stranded(g, Now(), r, buf)
      ensures perfect ==>
                && Outcome(ret == 0, Now()) == PageSave(g, start, r, buf) && !again
                && steps == PageSaveSteps(g, start, r, buf) && (ret == 0 || ret == BAD_BLOCK_FAILURE)
    {
      ghost var middle, more := Now(), [];
      var tries;
      ret, tries, again, e, first, last, more := AppendCopy(r, buf, infos[r].blk, tested);
      steps := before + more;
      OthersTrans(g, start, before, middle, more, Now(), r);
      if perfect {
        PageSaveIs(g, start, r, buf, Outcome(true, middle), Outcome(ret == 0, Now()));
      }
    }

    /**
     * Save a FullPage record: the bytes are appended twice, with three tests in all.  Whatever fails, the other
     * records' blocks are left alone; a save that reports success has the bytes at the place the index names.  `again`
     * says that the last copy was programmed again into a block that had been erased by its test: `Stranded`.
     */
    method SaveFullPage(r: nat, buf: seq<byte>)
      returns (ret: int, ghost again: bool, ghost one: Append, ghost two: Option<Append>, ghost steps: seq<Cells>)
      requires CanAppend(r, buf)
      modifies this`cells, this`infos, this`trace, this`log, reserved
      ensures Valid() && trace == old(trace) + steps && CanSave(g, Now(), r, buf)
      ensures ret == 0 || ret == READ_ONLY || ret == WRITE_FAILED || ret == BAD_BLOCK_FAILURE
      ensures OthersStay(g, old(Now()), steps, Now(), r)
      ensures log == old(log) + one.first + one.last + (if two.Some? then two.value.first + two.value.last else [])
      ensures two.None? ==> ret != 0 && Strove(g, old(Now()), r, one.first, one.e, 0, 0, ret)
      ensures two.Some? ==>
                && Strove(g, old(Now()), r, one.first, one.e, 0, 0, 0) && 1 <= |one.e.blks| <= 4
                && |two.value.start.infos| == |g.records|
                && Strove(g, two.value.start, r, two.value.first, two.value.e, two.value.start.infos[r].blk,
                          |one.e.blks| - 1, ret)
      ensures ret == 0 ==> HoldsCopy(g, Now(), r, buf) && Listed(g, Now(), r)
      ensures ret == 0 && again ==> Stranded(g, Now(), r, buf)
      ensures perfect ==>
                && Outcome(ret == 0, Now()) == PageSave(g, old(Now()), r, buf) && !again
                && steps == PageSaveSteps(g, old(Now()), r, buf) && (ret == 0 || ret == BAD_BLOCK_FAILURE)
    {
      ghost var start, past, before, e, first, last := Now(), trace, [], NO_EFFORT, [], [];
      var tries;
      ret, tries, again, e, first, last, before := AppendCopy(r, buf, 0, 0);
      one, two, steps := Append(start, e, first, last), None, before;
      if ret != 0 {
        if perfect {
          PageSaveStops(g, start, r, buf);
        }
        assert log == old(log) + one.first + one.last + [];
        return;
      }
      ghost var middle := Now();
      ret, again, e, first, last, steps := AppendAgain(r, buf, tries - 1, start, before);
      two := Some(Append(middle, e, first, last));
      Regroup(past, before, steps[|before|..]);
      assert before + steps[|before|..] == steps;
      Regroup(old(log) + one.first + one.last, first, last);
    }

    // ------------------------------------------------------------ the recovery scan

    /**
     * The first readable page among those at which the scan looks in block `b`: the first pages of nine slots and, when
     * all of these failed, of the middle one, possibly backwards, and of the one behind the last whole copy.
     */
    method FirstReadable(b: nat, argPages: nat) returns (found: Option<Page>, ghost n: nat, ghost acts: seq<Act>)
      requires FlashOk() && b < |cells| && argPages > 0
      modifies this`log
      ensures log == old(log) + acts && |acts| <= 11
      ensures Searched(acts, b, ScanOrder(g.pages, g.blockPages, argPages), n, found.Some?)
      ensures found.Some? ==>
                var at := ScanOrder(g.pages, g.blockPages, argPages)[n];
                at < |cells[b]| && found.value == cells[b][at] && exists slot: nat :: at == Times(slot, argPages)
      ensures perfect ==> found == Some(cells[b][0]) && n == 0
    {
      ghost var order := ScanOrder(g.pages, g.blockPages, argPages);
      var i: nat, failed: nat, middle := 0, 0, 0;
      ghost var slot: nat := 0;
      found, n, acts := None, 0, [];
      HuntStarts(g.pages, g.blockPages, argPages);
      FailedReadsStart(log, b, order);
      while i < g.pages
        invariant n <= |order| && log == old(log) + FailedReads(b, order, n)
        invariant Hunting(order, n, g.pages, g.blockPages, argPages, middle, i, slot, failed)
        invariant perfect ==> n == 0 && i == 0
        decreases |order| - n
      {
        HuntStep(order, n, g.pages, g.blockPages, argPages, middle, i, slot, failed);
        found := Read(b, i);
        Regroup(old(log), FailedReads(b, order, n), [Reading(b, i, found.Some?)]);
        if found.Some? {
          acts := FailedReads(b, order, n) + [Reading(b, i, true)];
          return;
        }
        FailedReadsMore(b, order, n);
        failed, n := failed + 1, n + 1;
        i, slot := i + argPages, slot + 1;
        if failed > 8 && middle == 0 {
          i, slot := MiddleSlot(g.blockPages, argPages), Div(g.blockPages, argPages) / 2;
          middle := -1;
        } else if middle == -1 {
          i, slot := LastSlot(g.blockPages, argPages), Div(g.blockPages, argPages);
          middle := -2;
        }
      }
      HuntEnds(order, n, g.pages, g.blockPages, argPages, middle, i, slot, failed);
      acts := FailedReads(b, order, n) + [];
      assert acts == FailedReads(b, order, n);
      found := None;
    }

    /** Read into block `b`; the entry changes only on the sight of the record's tag at the start of a copy. */
    method VisitBlock(rec: Record, b: nat, argPages: nat, info: Info)
      returns (next: Info, ghost n: nat, ghost acts: seq<Act>)
      requires FlashOk() && Findable(g, b) && argPages == Pages(g, rec)
      modifies this`log
      ensures log == old(log) + acts && Visited(g, cells, rec, b, n, acts, info, next)
      ensures perfect ==> next == Visit(info, b, cells[b][0], rec.name)
    {
      var page;
      page, n, acts := FirstReadable(b, argPages);
      SearchedTied(g, rec, b, n, acts);
      next := info;
      if page.Some? {
        next := Visit(info, b, page.value, rec.name);
        ghost var slot: nat :| Order(g, rec)[n] == Times(slot, argPages);
        assert TagOf(page.value) == rec.name ==> Sighted(g, cells, rec, b, slot, StampOf(page.value));
      }
    }

    /** One block of the walk; `stop` says that a FullBlk record was found. */
    method WalkStep(rec: Record, argPages: nat, b: nat, info: Info, ghost first: Info, ghost goal: Info,
                    ghost start: seq<Act>, ghost seen: map<nat, nat>, ghost acts: seq<Act>)
      returns (next: Info, stop: bool, ghost saw: map<nat, nat>, ghost more: seq<Act>)
      requires FlashOk() && argPages == Pages(g, rec) && g.start <= b < g.start + RESERVED_BLOCK_CNT
      requires log == start + acts && Walking(g, cells, rec, seen, acts, first, info, b)
      requires perfect ==> LocateOn(g, cells, rec, b, g.start + RESERVED_BLOCK_CNT, info, goal)
      modifies this`log
      ensures log == start + more
      ensures stop ==> rec.kind.FullBlk? && next.valid && WalkDone(g, cells, rec, saw, more, first, next, b)
      ensures !stop ==> Walking(g, cells, rec, saw, more, first, next, b + 1)
      ensures perfect ==>
                if stop then next == goal
                else LocateOn(g, cells, rec, b + 1, g.start + RESERVED_BLOCK_CNT, next, goal)
    {
      if perfect {
        LocateStep(g, cells, rec, b, g.start + RESERVED_BLOCK_CNT, info, goal);
      }
      next, stop, saw, more := info, false, seen, acts;
      if !g.status[b].Good? {
        WalkPast(g, cells, rec, seen, acts, first, info, b);
        return;
      }
      ghost var n, looked := 0, [];
      next, n, looked := VisitBlock(rec, b, argPages, info);
      WalkOn(g, cells, rec, seen, acts, first, info, b, n, looked, next);
      Regroup(start, acts, looked);
      saw, more := seen[b := n], acts + looked;
      stop := rec.kind.FullBlk? && next.valid && next.blk != 0;
    }

    /** The walk over the 48-block window, from the entry `first`. */
    method Walk(rec: Record, argPages: nat, first: Info)
      returns (info: Info, ghost seen: map<nat, nat>, ghost acts: seq<Act>, ghost last: nat)
      requires FlashOk() && argPages == Pages(g, rec)
      modifies this`log
      ensures log == old(log) + acts && WalkOver(g, cells, rec, seen, acts, first, info, last)
      ensures perfect ==> info == Locate(g, cells, rec, g.start, g.start + RESERVED_BLOCK_CNT, first)
    {
      var end := g.start + RESERVED_BLOCK_CNT;
      var b := g.start;
      ghost var goal := Locate(g, cells, rec, b, end, first);
      info, seen, acts := first, map[], [];
      while b < end
        invariant g.start <= b <= end && log == old(log) + acts
        invariant Walking(g, cells, rec, seen, acts, first, info, b)
        invariant perfect ==> LocateOn(g, cells, rec, b, end, info, goal)
      {
        var stop;
        info, stop, seen, acts := WalkStep(rec, argPages, b, info, first, goal, old(log), seen, acts);
        if stop {
          return info, seen, acts, b;
        }
        b := b + 1;
      }
      last := b;
    }

    /**
     * Settle which block holds the record.  Whatever reads fail, an entry that was empty only gets a good block of the
     * window in which the record's tag was read; `seen` says how far the search had to go in each block, and `Walked`
     * what follows from that.
     */
    method LocateRecord(r: nat) returns (ghost seen: map<nat, nat>, ghost acts: seq<Act>)
      requires Valid() && r < |g.records| && (!infos[r].valid ==> infos[r].page == 0)
      modifies this`infos, this`log
      ensures Valid() && infos == old(infos)[r := infos[r]] && log == old(log) + acts
      ensures infos[r].page == old(infos)[r].page && infos[r].update == old(infos)[r].update
      ensures Unmoved(old(infos)[r], infos[r]) || Seen(g, cells, g.records[r], infos[r])
      ensures SeenTied(g, g.records[r], seen, acts)
      ensures !old(infos)[r].valid ==>
                Walked(g, cells, g.records[r], seen, infos[r], g.start + RESERVED_BLOCK_CNT)
      ensures perfect ==>
                infos[r] == Locate(g, cells, g.records[r], g.start, g.start + RESERVED_BLOCK_CNT, old(infos)[r])
    {
      var argPages := g.records[r].size / g.pageSize + 1;
      ArgPagesIs(g.records[r].size, g.pageSize);
      var info;
      ghost var last;
      info, seen, acts, last := Walk(g.records[r], argPages, infos[r]);
      WalkEnds(g, cells, g.records[r], seen, acts, infos[r], info, last);
      infos := infos[r := info];
    }

    /** Which copy inside the located block is current; a page that cannot be read asks for a move later. */
    method ResolveCopy(r: nat) returns (ghost found: Option<nat>, ghost acts: seq<Act>)
      requires Valid() && r < |g.records| && infos[r].valid
      modifies this`infos, this`log
      ensures Valid() && infos == old(infos)[r := infos[r]] && log == old(log) + acts
      ensures Resolved(g, cells, g.records[r], old(infos)[r], acts, found, infos[r])
      ensures perfect ==> infos[r] == Resolve(g, cells, g.records[r], old(infos)[r])
    {
      var argPages := g.records[r].size / g.pageSize + 1;
      ArgPagesIs(g.records[r].size, g.pageSize);
      var failed, at;
      if g.records[r].kind.FullBlk? {
        at, failed, acts := FindFirstCopy(infos[r].blk, argPages, g.records[r].name);
      } else {
        at, failed, acts := FindLastCopy(infos[r].blk, argPages, g.records[r].name);
      }
      found := at;
      Settle(r, at, failed);
    }

    method Settle(r: nat, found: Option<nat>, failed: bool)
      requires Valid() && r < |g.records| && infos[r].valid
      requires found.Some? ==> found.value < g.pages
      modifies this`infos
      ensures Valid() && infos == old(infos)[r := Chosen(cells, old(infos)[r], found, failed)]
    {
      var info := infos[r];
      if found.Some? {
        info := info.(page := found.value, stamp := StampOf(cells[info.blk][found.value]));
      }
      if failed {
        info := info.(update := true);
      }
      infos := infos[r := info];
    }

    method FindFirstCopy(b: nat, argPages: nat, name: string)
      returns (found: Option<nat>, failed: bool, ghost acts: seq<Act>)
      requires FlashOk() && b < |cells| && argPages > 0
      modifies this`log
      ensures log == old(log) + acts && FirstFound(cells[b], acts, b, argPages, name, found)
      ensures found.Some? ==> found.value < g.pages && TagOf(cells[b][found.value]) == name
      ensures failed <==> !AllOk(acts)
      ensures perfect ==> !failed && found == FirstCopy(cells[b], 0, argPages, name)
    {
      found, failed, acts := None, false, [];
      var i: nat := 0;
      ghost var flash, block := cells, cells[b];
      SlotNext(0, argPages);
      while i < g.pages
        invariant cells == flash && log == old(log) + acts && FirstSearch(block, acts, b, argPages, name, failed, i)
        invariant perfect ==> !failed && FirstCopy(block, i, argPages, name) == FirstCopy(block, 0, argPages, name)
        decreases g.pages - i
      {
        ghost var before := acts;
        var page;
        page, acts := ReadOn(b, i, old(log), acts);
        FirstSearchStep(block, before, b, argPages, name, failed, i, page.Some?);
        if page.None? {
          failed := true;
        } else if TagOf(page.value) == name {
          return Some(i), failed, acts;
        }
        i := i + argPages;
      }
    }

    method FindLastCopy(b: nat, argPages: nat, name: string)
      returns (found: Option<nat>, failed: bool, ghost acts: seq<Act>)
      requires FlashOk() && b < |cells| && argPages > 0
      modifies this`log
      ensures log == old(log) + acts && LastFound(cells[b], acts, b, argPages, name, found)
      ensures found.Some? ==> found.value < g.pages && TagOf(cells[b][found.value]) == name
      ensures failed <==> !AllOk(acts)
      ensures perfect ==> !failed && found == LastCopy(cells[b], 0, argPages, name, None)
    {
      found, failed, acts := None, false, [];
      var i: nat := 0;
      ghost var flash, block := cells, cells[b];
      SlotNext(0, argPages);
      while i < g.pages
        invariant cells == flash && log == old(log) + acts
        invariant LastSearch(block, acts, b, argPages, name, found, failed, i)
        invariant found.Some? ==> found.value < |block| && TagOf(block[found.value]) == name
        invariant perfect ==>
                    !failed
                    && LastCopy(block, i, argPages, name, found) == LastCopy(block, 0, argPages, name, None)
        decreases g.pages - i
      {
        ghost var before := acts;
        var page;
        page, acts := ReadOn(b, i, old(log), acts);
        LastSearchStep(block, before, b, argPages, name, found, failed, i, page.Some?);
        if page.None? {
          failed := true;
        } else if TagOf(page.value) == name {
          found := Some(i);
        } else {
          return;
        }
        i := i + argPages;
      }
    }

    /**
     * Find a record by name: scan the window, settle on the newest copy, reserve its block.  `located` is the entry
     * between the two steps.
     */
    method CheckInfo(r: nat)
      returns (ghost seen: map<nat, nat>, ghost located: Info, ghost found: Option<nat>, ghost walk: seq<Act>,
               ghost search: seq<Act>)
      requires Valid() && r < |g.records| && (!infos[r].valid ==> infos[r].page == 0)
      modifies this`infos, this`log, reserved
      ensures Valid() && infos == old(infos)[r := infos[r]] && log == old(log) + walk + search
      ensures reserved[..] == if infos[r].valid then Reserve(old(reserved[..]), infos[r].blk) else old(reserved[..])
      ensures SeenTied(g, g.records[r], seen, walk)
      ensures !old(infos)[r].valid ==>
                && Walked(g, cells, g.records[r], seen, located, g.start + RESERVED_BLOCK_CNT)
                && Grounded(g, cells, g.records[r], infos[r])
      ensures if located.valid then Resolved(g, cells, g.records[r], located, search, found, infos[r])
              else infos[r] == located && search == []
      ensures infos[r].valid == located.valid && infos[r].blk == located.blk
      ensures perfect ==> infos[r] == ScanFrom(g, cells, g.records[r], old(infos)[r])
    {
      seen, walk := LocateRecord(r);
      located, found, search := infos[r], None, [];
      if infos[r].valid {
        found, search := ResolveCopy(r);
        if !old(infos)[r].valid {
          SeenIsGrounded(g, cells, g.records[r], located, infos[r]);
        }
        ReserveSlot(infos[r].blk);
      }
    }

    /**
     * Read the record's current copy into `dst`.  The first page that fails ends it, with the bytes before in place
     * and the rest of `dst` as it was; pages that carry another tag leave their share alone.
     */
    method ReadInfo(r: nat, dst: seq<byte>) returns (ok: bool, out: seq<byte>, ghost n: nat, ghost acts: seq<Act>)
      requires Valid() && r < |g.records|
      requires infos[r].valid ==> infos[r].page + Pages(g, g.records[r]) <= g.pages
      requires |dst| == g.records[r].size
      modifies this`log
      ensures log == old(log) + acts && |out| == |dst| && (!infos[r].valid ==> ok && out == dst && acts == [])
      ensures infos[r].valid ==>
                GotUpTo(ok, acts, infos[r].blk, infos[r].page, n, ReadAt(g, cells, g.records[r], infos[r], dst), dst,
                        g.pageSize, out)
      ensures perfect ==> ok
    {
      ok, out, n, acts := true, dst, 0, [];
      if infos[r].valid {
        ok, out, n, acts := ReadCopy(infos[r].blk, infos[r].page, g.records[r].name, dst);
      }
    }

    /** One turn of the read loop. */
    method LoadNext(b: nat, at: nat, name: string, dst: seq<byte>, loaded: nat, sofar: seq<byte>, ghost page: nat,
                    ghost n: nat, ghost count: nat, ghost goal: seq<byte>, ghost start: seq<Act>, ghost acts: seq<Act>)
      returns (ok: bool, out: seq<byte>, ghost more: seq<Act>)
      requires FlashOk() && b < |cells| && page + count <= g.pages && loaded < |dst| < Steps(count, g.pageSize)
      requires log == start + acts && acts == OkReads(b, page, n)
      requires PiecesIn(cells[b], page, name, dst, g.pageSize, goal)
      requires Loading(page, n, g.pageSize, at, loaded, sofar, goal)
      modifies this`log
      ensures log == start + more
      ensures ok ==>
                more == OkReads(b, page, n + 1)
                && Loading(page, n + 1, g.pageSize, at + 1, loaded + g.pageSize, out, goal)
      ensures !ok ==>
                more == OkReads(b, page, n) + [Reading(b, page + n, false)]
                && out == sofar <= goal && |out| == loaded && |goal| == |dst|
      ensures perfect ==> ok
    {
      StepsClimb(n, count, g.pageSize);
      var p := Read(b, at);
      more := acts + [Reading(b, at, p.Some?)];
      Regroup(start, acts, [Reading(b, at, p.Some?)]);
      ok, out := p.Some?, sofar;
      if ok {
        assert PieceIn(cells[b], page, n, name, dst, g.pageSize, goal);
        LoadStep(cells[b], page, n, name, dst, g.pageSize, loaded, sofar, goal);
        OkReadsMore(b, page, n);
        out := sofar + ReadPiece(p.value, name, dst[loaded..], g.pageSize);
      }
    }

    /**
     * The read loop; `goal` is what it is to end with, `count` the pages it may read.  It ends with all of it, or
     * with the bytes of the pages before the first one that failed.
     */
    method ReadLoop(b: nat, page: nat, name: string, dst: seq<byte>, ghost count: nat, ghost goal: seq<byte>)
      returns (ok: bool, out: seq<byte>, ghost n: nat, ghost acts: seq<Act>)
      requires FlashOk() && b < |cells| && page + count <= g.pages && |dst| < Steps(count, g.pageSize)
      requires PiecesIn(cells[b], page, name, dst, g.pageSize, goal)
      modifies this`log
      ensures log == old(log) + acts
      ensures acts == if ok then OkReads(b, page, n) else OkReads(b, page, n) + [Reading(b, page + n, false)]
      ensures if ok then out == goal && |dst| <= Steps(n, g.pageSize) < |dst| + g.pageSize
              else |out| == Steps(n, g.pageSize) < |dst| == |goal| && out <= goal
      ensures perfect ==> ok
    {
      var at: nat, loaded: nat := page, 0;
      out, n, acts := [], 0, [];
      ghost var flash, before := cells, log;
      OkReadsStart(log, b, page);
      while loaded < |dst|
        invariant cells == flash && log == before + acts && acts == OkReads(b, page, n)
        invariant Loading(page, n, g.pageSize, at, loaded, out, goal)
        decreases |dst| - loaded
      {
        ok, out, acts := LoadNext(b, at, name, dst, loaded, out, page, n, count, goal, before, acts);
        if !ok {
          return;
        }
        at, loaded, n := at + 1, loaded + g.pageSize, n + 1;
      }
      ok := true;
    }

    method ReadCopy(b: nat, page: nat, name: string, dst: seq<byte>)
      returns (ok: bool, out: seq<byte>, ghost n: nat, ghost acts: seq<Act>)
      requires FlashOk() && b < |cells| && page + ArgPages(|dst|, g.pageSize) <= g.pages
      modifies this`log
      ensures log == old(log) + acts && |out| == |dst|
      ensures GotUpTo(ok, acts, b, page, n, ReadPages(cells[b], page, name, dst, g.pageSize), dst, g.pageSize, out)
      ensures perfect ==> ok
    {
      StepsHoldCopy(|dst|, g.pageSize);
      PiecesOfRead(cells[b], page, name, dst, g.pageSize);
      ok, out, n, acts := ReadLoop(b, page, name, dst, ArgPages(|dst|, g.pageSize),
                                   ReadPages(cells[b], page, name, dst, g.pageSize));
      StepsAre(n, g.pageSize);
      if !ok {
        out := out + dst[|out|..];
      }
    }

    // ------------------------------------------------------------ restart

    /** Start-up: an empty table and index, then one scan per record.  Reads may fail. */
    method Restart() returns (ghost seens: seq<map<nat, nat>>, ghost locateds: seq<Info>, ghost acts: seq<Act>)
      requires Valid()
      modifies this`infos, this`log, reserved
      ensures Valid() && log == old(log) + acts
      ensures forall r :: 0 <= r < |infos| ==> Grounded(g, cells, g.records[r], infos[r])
      ensures FoundAll(g, cells, seens, locateds, acts, infos, |infos|)
      ensures perfect ==> Now() == Boot(g, cells)
    {
      for i := 0 to RESERVED_BLOCK_CNT
        invariant Valid() && infos == old(infos) && log == old(log)
        invariant forall k :: 0 <= k < i ==> reserved[k] == FREE_SLOT
      {
        reserved[i] := FREE_SLOT;
      }
      infos := seq(|g.records|, _ => COLD);
      seens, locateds, acts := [], [], [];
      assert reserved[..] == seq(RESERVED_BLOCK_CNT, _ => FREE_SLOT);
      for r := 0 to |g.records|
        invariant Valid() && log == old(log) + acts && FoundAll(g, cells, seens, locateds, acts, infos, r)
        invariant perfect ==> BootFrom(g, Now(), r) == Boot(g, cells)
        invariant forall k :: r <= k < |infos| ==> infos[k] == COLD
        invariant forall k :: 0 <= k < r ==> Grounded(g, cells, g.records[k], infos[k])
      {
        ghost var before := infos;
        ghost var seen, located, found, walk, search := CheckInfo(r);
        FoundOneMore(g, cells, seens, locateds, acts, before, r, seen, located, walk, search, infos[r]);
        Regroup(old(log), acts, walk + search);
        Regroup(old(log) + acts, walk, search);
        acts := acts + (walk + search);
        seens, locateds := seens + [seen], locateds + [located];
      }
    }
  }
}
