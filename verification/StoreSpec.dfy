/**
 * The named-record store of phy/chipenv.c on values: where the allocator looks, what a cold scan
 * recovers, and what one save does to the flash, the reservation table and the index.
 */
module StoreSpec {
  import opened Flash
  import opened Paging

  datatype Option<+T> = None | Some(value: T)

  /** How a record uses its block: FullBlk replicates it over a fresh block, FullPage appends. */
  datatype Kind = FullBlk | FullPage

  datatype Status = Good | UsedBad | FactoryBad

  datatype Record = Record(name: string, kind: Kind, size: nat)

  /**
   * `start` is the first reserved block, `pages` the pages of a block in use (half of `blockPages` in SLC
   * mode), `status` the bad-block table read by record block number.
   */
  datatype Geometry = Geometry(start: nat, pages: nat, blockPages: nat, pageSize: nat,
                               status: seq<Status>, records: seq<Record>)

  /** The in-memory index entry of one record (`nand_arg_info`). */
  datatype Info = Info(valid: bool, blk: nat, page: nat, free: nat, stamp: nat, update: bool)

  datatype State = State(cells: Cells, reserved: seq<nat>, infos: seq<Info>)

  datatype Outcome = Outcome(ok: bool, st: State)

  const RESERVED_BLOCK_CNT := 48
  const FREE_SLOT := 0xff
  const COLD := Info(false, 0, 0, 0, 0, false)

  // ---------------------------------------------------------------- the reserved region

  /** Are there `need` blocks from `from` on that are not factory bad? */
  predicate Enough(status: seq<Status>, from: nat, need: nat)
    decreases |status| - from
  {
    need == 0
    || (from < |status| && Enough(status, from + 1, if status[from].FactoryBad? then need else need - 1))
  }

  /** One past the block that completes `need` blocks which are not factory bad. */
  function RegionEnd(status: seq<Status>, from: nat, need: nat): (end: nat)
    requires Enough(status, from, need)
    ensures from + need <= end
    ensures from <= |status| ==> end <= |status|
    decreases |status| - from
  {
    if need == 0 then from
    else RegionEnd(status, from + 1, if status[from].FactoryBad? then need else need - 1)
  }

  ghost predicate WellFormed(g: Geometry) {
    g.start >= 1 && g.pages >= 1 && g.blockPages >= g.pages && g.pageSize >= 1
    && g.start <= |g.status|
    && Enough(g.status, g.start, RESERVED_BLOCK_CNT)
    && RegionEnd(g.status, g.start, RESERVED_BLOCK_CNT) <= FREE_SLOT
    && (forall r :: 0 <= r < |g.records| ==> |g.records[r].name| == 4 && g.records[r].name != ERASED_TAG)
    && (forall q, r :: 0 <= q < r < |g.records| ==> g.records[q].name != g.records[r].name)
  }

  function End(g: Geometry): nat
    requires Enough(g.status, g.start, RESERVED_BLOCK_CNT)
  {
    RegionEnd(g.status, g.start, RESERVED_BLOCK_CNT)
  }

  /** A block the allocator may hand out. */
  predicate Usable(g: Geometry, b: nat)
    requires WellFormed(g)
  {
    g.start <= b < End(g) && !g.status[b].FactoryBad?
  }

  /** A block the recovery scan looks into: it also skips blocks that went bad in use. */
  predicate Findable(g: Geometry, b: nat) {
    g.start <= b < g.start + RESERVED_BLOCK_CNT && b < |g.status| && g.status[b].Good?
  }

  function Pages(g: Geometry, rec: Record): (n: nat)
    requires g.pageSize >= 1
    ensures n > 0
  {
    ArgPages(rec.size, g.pageSize)
  }

  predicate Fits(g: Geometry, rec: Record)
    requires g.pageSize >= 1
  {
    Pages(g, rec) <= g.pages
  }

  predicate IsBuffer(g: Geometry, rec: Record, buf: seq<byte>)
    requires g.pageSize >= 1
  {
    |buf| == SavedLen(rec.size, g.pageSize)
  }

  // ---------------------------------------------------------------- the reservation table

  function FirstIndex(s: seq<nat>, v: nat): (i: nat)
    ensures i <= |s|
    ensures i < |s| ==> s[i] == v
    ensures forall j :: 0 <= j < i ==> s[j] != v
  {
    if s == [] || s[0] == v then 0
    else
      assert forall j :: 0 < j < |s| ==> s[j] == s[1..][j - 1];
      1 + FirstIndex(s[1..], v)
  }

  /** The first slot holding `v` takes `w`; nothing happens when no slot does. Slots are bytes. */
  function Swap(reserved: seq<nat>, v: nat, w: nat): (r: seq<nat>)
    ensures |r| == |reserved|
  {
    var i := FirstIndex(reserved, v);
    if i < |reserved| then reserved[i := w % 256] else reserved
  }

  function Reserve(reserved: seq<nat>, b: nat): seq<nat> { Swap(reserved, FREE_SLOT, b) }

  function Release(reserved: seq<nat>, b: nat): seq<nat> { Swap(reserved, b, FREE_SLOT) }

  function UsedSlots(reserved: seq<nat>): nat {
    if reserved == [] then 0
    else (if reserved[0] == FREE_SLOT then 0 else 1) + UsedSlots(reserved[1..])
  }

  // ---------------------------------------------------------------- the allocator

  predicate Candidate(g: Geometry, reserved: seq<nat>, excluded: nat, b: nat)
    requires WellFormed(g)
  {
    Usable(g, b) && b !in reserved && b != excluded
  }

  /** The block `amlnand_get_free_block` returns when every erase succeeds. */
  function FreeFrom(g: Geometry, reserved: seq<nat>, excluded: nat, b: nat): (r: Option<nat>)
    requires WellFormed(g) && g.start <= b
    ensures r.Some? ==> Candidate(g, reserved, excluded, r.value) && b <= r.value
    ensures r.Some? ==> forall c :: b <= c < r.value ==> !Candidate(g, reserved, excluded, c)
    ensures r.None? ==> forall c :: b <= c ==> !Candidate(g, reserved, excluded, c)
    decreases End(g) - b
  {
    if b >= End(g) then None
    else if Candidate(g, reserved, excluded, b) then Some(b)
    else FreeFrom(g, reserved, excluded, b + 1)
  }

  function FirstFree(g: Geometry, reserved: seq<nat>, excluded: nat): Option<nat>
    requires WellFormed(g)
  {
    FreeFrom(g, reserved, excluded, g.start)
  }

  lemma FirstFreeIs(g: Geometry, reserved: seq<nat>, excluded: nat, n: nat)
    requires WellFormed(g) && Candidate(g, reserved, excluded, n)
    requires forall c :: 0 <= c < n ==> !Candidate(g, reserved, excluded, c)
    ensures FirstFree(g, reserved, excluded) == Some(n)
  {
  }

  lemma FirstFreeIsNone(g: Geometry, reserved: seq<nat>, excluded: nat)
    requires WellFormed(g) && forall c: nat :: !Candidate(g, reserved, excluded, c)
    ensures FirstFree(g, reserved, excluded) == None
  {
  }

  // ---------------------------------------------------------------- shapes

  ghost predicate Shaped(g: Geometry, cells: Cells) {
    |cells| == |g.status|
    && forall b :: 0 <= b < |cells| ==> |cells[b]| == g.pages && Sized(cells[b], g.pageSize)
  }

  ghost predicate StateShaped(g: Geometry, st: State) {
    Shaped(g, st.cells) && |st.reserved| == RESERVED_BLOCK_CNT && |st.infos| == |g.records|
    && forall r :: 0 <= r < |st.infos| && st.infos[r].valid ==>
         st.infos[r].blk < |st.cells| && st.infos[r].page < g.pages
  }

  // ---------------------------------------------------------------- the recovery scan

  /** What one readable first page tells the scan. */
  function Visit(info: Info, b: nat, first: Page, name: string): Info {
    if TagOf(first) != name then info
    else if !info.valid then info.(valid := true, blk := b, stamp := StampOf(first))
    else if StampOf(first) > info.stamp then info.(free := info.blk, blk := b, stamp := StampOf(first))
    else info.(free := b)
  }

  /** The walk over blocks `b` to `end` (exclusive); the scan of a FullBlk record stops at its first block. */
  function Locate(g: Geometry, cells: Cells, rec: Record, b: nat, end: nat, info: Info): Info
    requires Shaped(g, cells) && g.pages >= 1 && end <= |cells|
    decreases end - b
  {
    if b >= end then info
    else if !g.status[b].Good? then Locate(g, cells, rec, b + 1, end, info)
    else
      var next := Visit(info, b, cells[b][0], rec.name);
      if rec.kind.FullBlk? && next.valid && next.blk != 0 then next
      else Locate(g, cells, rec, b + 1, end, next)
  }

  /** What is left of the walk behind block `b`. */
  ghost predicate LocateOn(g: Geometry, cells: Cells, rec: Record, b: nat, end: nat, info: Info, goal: Info)
    requires Shaped(g, cells) && g.pages >= 1 && end <= |cells|
  {
    Locate(g, cells, rec, b, end, info) == goal
  }

  lemma LocateStep(g: Geometry, cells: Cells, rec: Record, b: nat, end: nat, info: Info, goal: Info)
    requires Shaped(g, cells) && g.pages >= 1 && b < end <= |cells| && LocateOn(g, cells, rec, b, end, info, goal)
    ensures !g.status[b].Good? ==> LocateOn(g, cells, rec, b + 1, end, info, goal)
    ensures g.status[b].Good? ==>
              var next := Visit(info, b, cells[b][0], rec.name);
              if rec.kind.FullBlk? && next.valid && next.blk != 0 then next == goal
              else LocateOn(g, cells, rec, b + 1, end, next, goal)
  {
  }

  /** First aligned page of the block carrying the name, for a FullBlk record. */
  function FirstCopy(block: Block, i: nat, width: nat, name: string): (r: Option<nat>)
    requires width > 0
    ensures r.Some? ==> i <= r.value < |block| && TagOf(block[r.value]) == name
    decreases |block| - i
  {
    if i >= |block| then None
    else if TagOf(block[i]) == name then Some(i)
    else FirstCopy(block, i + width, width, name)
  }

  /** Last page of the unbroken run of copies, for a FullPage record. */
  function LastCopy(block: Block, i: nat, width: nat, name: string, last: Option<nat>): (r: Option<nat>)
    requires width > 0
    requires last.Some? ==> last.value < |block|
    ensures r.Some? ==> r.value < |block|
    decreases |block| - i
  {
    if i < |block| && TagOf(block[i]) == name then LastCopy(block, i + width, width, name, Some(i))
    else last
  }

  function Newest(g: Geometry, block: Block, rec: Record): (r: Option<nat>)
    requires g.pageSize >= 1
    ensures r.Some? ==> r.value < |block|
  {
    match rec.kind
    case FullBlk => FirstCopy(block, 0, Pages(g, rec), rec.name)
    case FullPage => LastCopy(block, 0, Pages(g, rec), rec.name, None)
  }

  function Resolve(g: Geometry, cells: Cells, rec: Record, info: Info): Info
    requires g.pageSize >= 1
    requires info.valid ==> info.blk < |cells|
  {
    if !info.valid then info
    else
      match Newest(g, cells[info.blk], rec)
      case None => info
      case Some(i) => info.(page := i, stamp := StampOf(cells[info.blk][i]))
  }

  /** The index entry that a scan, started from the entry `info`, leaves behind when every read succeeds. */
  function ScanFrom(g: Geometry, cells: Cells, rec: Record, info: Info): Info
    requires WellFormed(g) && Shaped(g, cells)
    requires info.valid ==> info.blk < |cells|
  {
    LocateInRange(g, cells, rec, g.start, g.start + RESERVED_BLOCK_CNT, info);
    Resolve(g, cells, rec, Locate(g, cells, rec, g.start, g.start + RESERVED_BLOCK_CNT, info))
  }

  lemma LocateInRange(g: Geometry, cells: Cells, rec: Record, b: nat, end: nat, info: Info)
    requires Shaped(g, cells) && g.pages >= 1 && end <= |cells|
    requires info.valid ==> info.blk < |cells|
    ensures var r := Locate(g, cells, rec, b, end, info); r.page == info.page && (r.valid ==> r.blk < |cells|)
    decreases end - b
  {
  }

  function Scan(g: Geometry, cells: Cells, r: nat): (info: Info)
    requires WellFormed(g) && Shaped(g, cells) && r < |g.records|
    ensures info.valid ==> info.blk < |cells| && info.page < g.pages
  {
    LocateInRange(g, cells, g.records[r], g.start, g.start + RESERVED_BLOCK_CNT, COLD);
    ScanFrom(g, cells, g.records[r], COLD)
  }

  function ReadAt(g: Geometry, cells: Cells, rec: Record, info: Info, dst: seq<byte>): seq<byte>
    requires g.pageSize >= 1 && Shaped(g, cells) && info.blk < |cells|
  {
    ReadPages(cells[info.blk], info.page, rec.name, dst, g.pageSize)
  }

  /** What a reader finds after a restart: nothing, or the bytes read back at the place the scan found. */
  function Recover(g: Geometry, cells: Cells, r: nat): Option<seq<byte>>
    requires WellFormed(g) && Shaped(g, cells) && r < |g.records|
  {
    var info := Scan(g, cells, r);
    LocateInRange(g, cells, g.records[r], g.start, g.start + RESERVED_BLOCK_CNT, COLD);
    if !info.valid then None
    else Some(ReadAt(g, cells, g.records[r], info, seq(g.records[r].size, _ => 0 as byte)))
  }

  // ---------------------------------------------------------------- one save

  function Bump(info: Info): Info {
    info.(stamp := (info.stamp + 1) % 0x1_0000)
  }

  function Bumped(st: State, r: nat): State
    requires r < |st.infos|
  {
    st.(infos := st.infos[r := Bump(st.infos[r])])
  }

  function NewCopy(g: Geometry, rec: Record, buf: seq<byte>, stamp: nat): (copy: seq<Page>)
    requires g.pageSize >= 1 && IsBuffer(g, rec, buf)
    ensures |copy| == Pages(g, rec)
  {
    SavedPages(buf, rec.size, g.pageSize);
    CopyOf(buf, g.pageSize, rec.name, stamp)
  }

  /** The table once block `n` is taken and the block of the old entry given back. */
  function TableAfterMove(prev: Info, reserved: seq<nat>, n: nat): seq<nat> {
    if prev.valid && prev.blk != 0 then Release(Reserve(reserved, n), prev.blk) else Reserve(reserved, n)
  }

  /** The record moves to block `n`, now holding `content`; its old block is erased and its slot freed. */
  function Relocate(g: Geometry, st: State, r: nat, n: nat, content: Block, update: bool): State
    requires r < |st.infos| && n < |st.cells|
    requires st.infos[r].valid ==> st.infos[r].blk < |st.cells|
  {
    var prev := st.infos[r];
    var cells := st.cells[n := content];
    State(if prev.valid && prev.blk != 0 then cells[prev.blk := ErasedBlock(g.pages)] else cells,
          TableAfterMove(prev, st.reserved, n),
          st.infos[r := prev.(valid := true, blk := n, page := 0, update := update)])
  }

  ghost predicate CanSave(g: Geometry, st: State, r: nat, buf: seq<byte>) {
    WellFormed(g) && StateShaped(g, st) && r < |g.records| && IsBuffer(g, g.records[r], buf)
  }

  /** A FullBlk save with no program or erase failure. */
  function BlkSave(g: Geometry, st: State, r: nat, buf: seq<byte>): Outcome
    requires CanSave(g, st, r, buf)
  {
    var st0 := Bumped(st, r);
    match FirstFree(g, st.reserved, 0)
    case None => Outcome(false, st0)
    case Some(n) =>
      var copy := NewCopy(g, g.records[r], buf, st0.infos[r].stamp);
      Outcome(true, Relocate(g, st0, r, n, Fill(ErasedBlock(g.pages), 0, copy), st.infos[r].update))
  }

  /** Must a FullPage save take a new block? */
  predicate MustMove(g: Geometry, st: State, r: nat)
    requires g.pageSize >= 1 && r < |g.records| && r < |st.infos|
  {
    var info := st.infos[r];
    !info.valid || info.update || info.page + 2 * Pages(g, g.records[r]) > g.pages
  }

  /** One of the two appends of a FullPage save. */
  function PagePass(g: Geometry, st: State, r: nat, buf: seq<byte>, excluded: nat): Outcome
    requires CanSave(g, st, r, buf) && Fits(g, g.records[r])
  {
    var st0 := Bumped(st, r);
    var info := st0.infos[r];
    var copy := NewCopy(g, g.records[r], buf, info.stamp);
    if MustMove(g, st, r) then
      match FirstFree(g, st.reserved, excluded)
      case None => Outcome(false, st0)
      case Some(n) => Outcome(true, Relocate(g, st0, r, n, Put(ErasedBlock(g.pages), 0, copy), false))
    else
      var at := info.page + Pages(g, g.records[r]);
      Outcome(true, State(st.cells[info.blk := Put(st.cells[info.blk], at, copy)], st.reserved,
                          st0.infos[r := info.(page := at)]))
  }

  lemma PagePassShaped(g: Geometry, st: State, r: nat, buf: seq<byte>, excluded: nat)
    requires CanSave(g, st, r, buf) && Fits(g, g.records[r])
    ensures var after := PagePass(g, st, r, buf, excluded);
            CanSave(g, after.st, r, buf) && (after.ok ==> after.st.infos[r].valid)
  {
  }

  /** A FullPage save: the same bytes are appended twice. */
  function PageSave(g: Geometry, st: State, r: nat, buf: seq<byte>): Outcome
    requires CanSave(g, st, r, buf) && Fits(g, g.records[r])
  {
    PagePassShaped(g, st, r, buf, 0);
    var first := PagePass(g, st, r, buf, 0);
    if first.ok then PagePass(g, first.st, r, buf, first.st.infos[r].blk) else first
  }

  lemma PageSaveIs(g: Geometry, st: State, r: nat, buf: seq<byte>, first: Outcome, second: Outcome)
    requires CanSave(g, st, r, buf) && Fits(g, g.records[r])
    requires first == PagePass(g, st, r, buf, 0) && first.ok && CanSave(g, first.st, r, buf)
    requires second == PagePass(g, first.st, r, buf, first.st.infos[r].blk)
    ensures PageSave(g, st, r, buf) == second
    ensures PageSaveSteps(g, st, r, buf)
            == PagePassSteps(g, st, r, buf, 0) + PagePassSteps(g, first.st, r, buf, first.st.infos[r].blk)
  {
  }

  lemma PageSaveStops(g: Geometry, st: State, r: nat, buf: seq<byte>)
    requires CanSave(g, st, r, buf) && Fits(g, g.records[r]) && !PagePass(g, st, r, buf, 0).ok
    ensures PageSave(g, st, r, buf) == PagePass(g, st, r, buf, 0)
    ensures PageSaveSteps(g, st, r, buf) == PagePassSteps(g, st, r, buf, 0)
  {
    assert PagePassSteps(g, st, r, buf, 0) + [] == PagePassSteps(g, st, r, buf, 0);
  }

  function Save(g: Geometry, st: State, r: nat, buf: seq<byte>): Outcome
    requires CanSave(g, st, r, buf)
    requires g.records[r].kind.FullPage? ==> Fits(g, g.records[r])
  {
    if g.records[r].kind.FullBlk? then BlkSave(g, st, r, buf) else PageSave(g, st, r, buf)
  }

  // ---------------------------------------------------------------- the flash after each program or erase

  function ProgramSteps(cells: Cells, n: nat, base: nat, copy: seq<Page>): (steps: seq<Cells>)
    requires n < |cells| && base + |copy| <= |cells[n]|
    ensures |steps| == |copy|
  {
    seq(|copy|, k requires 0 <= k < |copy| => cells[n := Put(cells[n], base, copy[..k + 1])])
  }

  function FillSteps(cells: Cells, n: nat, i: nat, copy: seq<Page>): seq<Cells>
    requires n < |cells| && |copy| > 0
    decreases |cells[n]| - i
  {
    if i + |copy| > |cells[n]| then []
    else ProgramSteps(cells, n, i, copy)
         + FillSteps(cells[n := Put(cells[n], i, copy)], n, i + |copy|, copy)
  }

  function OldErased(prev: Info, final: Cells): seq<Cells> {
    if prev.valid && prev.blk != 0 then [final] else []
  }

  function BlkSaveSteps(g: Geometry, st: State, r: nat, buf: seq<byte>): seq<Cells>
    requires CanSave(g, st, r, buf)
  {
    match FirstFree(g, st.reserved, 0)
    case None => []
    case Some(n) =>
      var copy := NewCopy(g, g.records[r], buf, Bump(st.infos[r]).stamp);
      var cells := st.cells[n := ErasedBlock(g.pages)];
      [cells] + FillSteps(cells, n, 0, copy) + OldErased(st.infos[r], BlkSave(g, st, r, buf).st.cells)
  }

  function PagePassSteps(g: Geometry, st: State, r: nat, buf: seq<byte>, excluded: nat): seq<Cells>
    requires CanSave(g, st, r, buf) && Fits(g, g.records[r])
  {
    var info := st.infos[r];
    var copy := NewCopy(g, g.records[r], buf, Bump(info).stamp);
    if MustMove(g, st, r) then
      match FirstFree(g, st.reserved, excluded)
      case None => []
      case Some(n) =>
        var cells := st.cells[n := ErasedBlock(g.pages)];
        [cells] + ProgramSteps(cells, n, 0, copy)
        + OldErased(info, PagePass(g, st, r, buf, excluded).st.cells)
    else
      ProgramSteps(st.cells, info.blk, info.page + Pages(g, g.records[r]), copy)
  }

  function PageSaveSteps(g: Geometry, st: State, r: nat, buf: seq<byte>): seq<Cells>
    requires CanSave(g, st, r, buf) && Fits(g, g.records[r])
  {
    PagePassShaped(g, st, r, buf, 0);
    var first := PagePass(g, st, r, buf, 0);
    PagePassSteps(g, st, r, buf, 0)
    + if first.ok then PagePassSteps(g, first.st, r, buf, first.st.infos[r].blk) else []
  }

  function SaveSteps(g: Geometry, st: State, r: nat, buf: seq<byte>): seq<Cells>
    requires CanSave(g, st, r, buf)
    requires g.records[r].kind.FullPage? ==> Fits(g, g.records[r])
  {
    if g.records[r].kind.FullBlk? then BlkSaveSteps(g, st, r, buf) else PageSaveSteps(g, st, r, buf)
  }

  // ---------------------------------------------------------------- restart

  /** Records `k` and up are scanned in turn; every record found has its block reserved. */
  function BootFrom(g: Geometry, st: State, k: nat): State
    requires WellFormed(g) && StateShaped(g, st)
    decreases |g.records| - k
  {
    if k >= |g.records| then st
    else
      var info := Scan(g, st.cells, k);
      var reserved := if info.valid then Reserve(st.reserved, info.blk) else st.reserved;
      BootFrom(g, State(st.cells, reserved, st.infos[k := info]), k + 1)
  }

  function Boot(g: Geometry, cells: Cells): State
    requires WellFormed(g) && Shaped(g, cells)
  {
    BootFrom(g, State(cells, seq(RESERVED_BLOCK_CNT, _ => FREE_SLOT), seq(|g.records|, _ => COLD)), 0)
  }
}
