/** What a save did to the flash, the table and the index, and what a scan saw: the words of the store's contracts. */
module StoreEffects {
  import opened Arith
  import opened Sequences
  import opened Flash
  import opened Paging
  import opened StoreSpec
  import opened StoreInvariant
  import opened StoreReserved
  import opened StoreActs
  import opened StoreJob

  const BAD_BLOCK_FAILURE := -17
  const WRITE_FAILED := -14
  const READ_ONLY := -30

  /** No reserved block changed. */
  ghost predicate Kept(before: Cells, after: Cells, reserved: seq<nat>) {
    |after| == |before| && forall b :: 0 <= b < |before| && b in reserved ==> after[b] == before[b]
  }

  ghost predicate AllKept(before: Cells, steps: seq<Cells>, reserved: seq<nat>) {
    forall k :: 0 <= k < |steps| ==> Kept(before, steps[k], reserved)
  }

  lemma KeptSteps(first: Cells, before: Cells, steps: seq<Cells>, more: seq<Cells>, b: nat, reserved: seq<nat>)
    requires Kept(first, before, reserved) && AllKept(first, steps, reserved)
    requires OnlyAt(before, more, b) && b !in reserved
    ensures AllKept(first, steps + more, reserved)
  {
  }

  predicate ProgrammedAt(cells: Cells, b: nat, k: nat, page: Page) {
    b < |cells| && k < |cells[b]| && cells[b][k] == page
  }

  /** The flash states of a passed test: erased, then one page after the other with the pattern, then erased. */
  ghost predicate TestPattern(steps: seq<Cells>, b: nat, pages: nat, pattern: Page) {
    |steps| == pages + 2 && forall k :: 1 <= k <= pages ==> ProgrammedAt(steps[k], b, k - 1, pattern)
  }

  /** Does the entry name a block that a move has to give up? */
  predicate HasOld(prev: Info) {
    prev.valid && prev.blk != 0
  }

  /** What a save leaves in a block it has just taken. */
  function NewContent(g: Geometry, rec: Record, buf: seq<byte>, stamp: nat): Block
    requires g.pageSize >= 1 && IsBuffer(g, rec, buf) && (rec.kind.FullPage? ==> Fits(g, rec))
  {
    var copy := NewCopy(g, rec, buf, stamp);
    match rec.kind
    case FullBlk => Fill(ErasedBlock(g.pages), 0, copy)
    case FullPage => Put(ErasedBlock(g.pages), 0, copy)
  }

  /** The flash states while it does so. */
  ghost function NewSteps(cells: Cells, n: nat, kind: Kind, copy: seq<Page>): seq<Cells>
    requires n < |cells| && |copy| > 0 && (kind.FullPage? ==> |copy| <= |cells[n]|)
  {
    match kind
    case FullBlk => FillSteps(cells, n, 0, copy)
    case FullPage => ProgramSteps(cells, n, 0, copy)
  }

  /** No reserved block changed, except perhaps the one of the entry `own`. */
  ghost predicate KeptBut(before: Cells, after: Cells, reserved: seq<nat>, own: Info) {
    |after| == |before|
    && forall b :: 0 <= b < |before| && b in reserved && !(own.valid && b == own.blk) ==> after[b] == before[b]
  }

  /** A save that took no block: no reserved block changed at any time. */
  ghost predicate NothingMoved(before: State, steps: seq<Cells>, after: State) {
    && after.infos == before.infos && after.reserved == before.reserved
    && Kept(before.cells, after.cells, before.reserved) && AllKept(before.cells, steps, before.reserved)
  }

  /**
   * A save that moved record `r` to a fresh block which holds `content`; at every moment the old block or the whole
   * new one was there.  With `done` the old block was given back, else it stays listed next to the new one.
   */
  ghost predicate MovedIn(g: Geometry, before: State, steps: seq<Cells>, after: State, r: nat, content: Block,
                          done: bool, clearUpdate: bool)
    requires WellFormed(g) && r < |before.infos| == |after.infos|
  {
    var prev, n := before.infos[r], after.infos[r].blk;
    && Usable(g, n) && n !in before.reserved && n < |after.cells| && after.cells[n] == content
    && after.infos == before.infos[r := prev.(valid := true, blk := n, page := 0,
                                              update := if clearUpdate && done then false else prev.update)]
    && after.reserved == (if done then TableAfterMove(prev, before.reserved, n) else Reserve(before.reserved, n))
    && OldUntilNew(before.cells, steps, before.reserved, prev, n, content)
    && KeptBut(before.cells, after.cells, before.reserved, prev)
  }

  /** Only the block of the old entry, if there is one, was touched. */
  ghost predicate OldBlockDone(prev: Info, before: Cells, after: Cells, steps: seq<Cells>) {
    if prev.valid && prev.blk != 0 then
      prev.blk < |before| && |after| == |before| && after == before[prev.blk := after[prev.blk]]
      && OnlyAt(before, steps, prev.blk)
    else
      after == before && steps == []
  }

  /**
   * Every state has all reserved blocks as they were, or the whole new content in block `n` and all reserved blocks
   * but the one of the old entry as they were.
   */
  ghost predicate OldUntilNew(before: Cells, steps: seq<Cells>, reserved: seq<nat>, prev: Info, n: nat,
                              content: Block)
  {
    forall k :: 0 <= k < |steps| ==>
      Kept(before, steps[k], reserved)
      || (n < |steps[k]| && steps[k][n] == content && KeptBut(before, steps[k], reserved, prev))
  }

  lemma OldUntilNewHolds(before: Cells, written: Cells, first: seq<Cells>, second: seq<Cells>, prev: Info,
                         after: Cells, reserved: seq<nat>, n: nat)
    requires AllKept(before, first, reserved) && Kept(before, written, reserved)
    requires n < |written| && n !in reserved
    requires OldBlockDone(prev, written, after, second)
    requires prev.valid ==> prev.blk in reserved
    ensures OldUntilNew(before, first + second, reserved, prev, n, written[n])
    ensures KeptBut(before, after, reserved, prev)
    ensures n < |after| && after[n] == written[n]
  {
  }

  /** The bytes are in the block of the entry, at its page, with its stamp. */
  ghost predicate HoldsCopy(g: Geometry, st: State, r: nat, buf: seq<byte>) {
    CanSave(g, st, r, buf) && st.infos[r].valid &&
    var info, copy := st.infos[r], NewCopy(g, g.records[r], buf, st.infos[r].stamp);
    && info.page + |copy| <= |st.cells[info.blk]|
    && st.cells[info.blk][info.page..info.page + |copy|] == copy
  }

  /** The entry's block holds nothing but one copy of the bytes, and not at its start. */
  ghost predicate Stranded(g: Geometry, st: State, r: nat, buf: seq<byte>) {
    CanSave(g, st, r, buf) && st.infos[r].valid &&
    var info, copy := st.infos[r], NewCopy(g, g.records[r], buf, st.infos[r].stamp);
    && 0 < info.page && info.page + |copy| <= g.pages
    && st.cells[info.blk] == Put(ErasedBlock(g.pages), info.page, copy)
  }

  /** The blocks of the other records are as they were. */
  ghost predicate OthersKept(g: Geometry, before: State, cells: Cells, r: nat)
    requires WellFormed(g) && r < |before.infos|
  {
    |cells| == |before.cells|
    && forall b: nat :: b < |cells| && OtherBlock(g, before, r, b) ==> cells[b] == before.cells[b]
  }

  /** A listed block of the region that is not the one of record `r`. */
  ghost predicate OtherBlock(g: Geometry, st: State, r: nat, b: nat)
    requires WellFormed(g) && r < |st.infos|
  {
    Usable(g, b) && b in st.reserved && !(st.infos[r].valid && b == st.infos[r].blk)
  }

  /** At no time anything happened to the other records: neither to their blocks nor to their slots. */
  ghost predicate OthersStay(g: Geometry, before: State, steps: seq<Cells>, after: State, r: nat)
    requires WellFormed(g) && r < |before.infos| == |after.infos|
  {
    && after.infos == before.infos[r := after.infos[r]]
    && OthersKept(g, before, after.cells, r)
    && (forall k :: 0 <= k < |steps| ==> OthersKept(g, before, steps[k], r))
  }

  /** The other blocks are still listed, and the record is not at one of them. */
  ghost predicate OthersListed(g: Geometry, before: State, after: State, r: nat)
    requires WellFormed(g) && r < |before.infos| == |after.infos|
  {
    forall b: nat :: OtherBlock(g, before, r, b) ==> OtherBlock(g, after, r, b)
  }

  /** The table lists distinct blocks, and the record's block is one of them. */
  ghost predicate Listed(g: Geometry, st: State, r: nat)
    requires WellFormed(g) && r < |st.infos|
  {
    |st.reserved| == RESERVED_BLOCK_CNT && ReservedOk(g, st.reserved)
    && if st.infos[r].valid then Usable(g, st.infos[r].blk) && st.infos[r].blk in st.reserved
       else st.infos[r].page == 0
  }

  lemma MovedListed(g: Geometry, before: State, steps: seq<Cells>, after: State, r: nat, content: Block,
                    clearUpdate: bool)
    requires WellFormed(g) && r < |before.infos| == |after.infos| && Listed(g, before, r)
    requires MovedIn(g, before, steps, after, r, content, true, clearUpdate)
    ensures Listed(g, after, r) && OthersListed(g, before, after, r)
  {
    var prev, n := before.infos[r], after.infos[r].blk;
    ReserveEffect(g, before.reserved, n);
    if prev.valid {
      ReleaseEffect(g, Reserve(before.reserved, n), prev.blk);
    }
  }

  lemma MovedOthers(g: Geometry, before: State, steps: seq<Cells>, after: State, r: nat, content: Block,
                    done: bool, clearUpdate: bool)
    requires WellFormed(g) && r < |before.infos| == |after.infos|
    requires MovedIn(g, before, steps, after, r, content, done, clearUpdate)
    ensures OthersStay(g, before, steps, after, r)
  {
  }

  lemma InPlaceOthers(g: Geometry, before: State, steps: seq<Cells>, after: State, r: nat)
    requires WellFormed(g) && r < |before.infos| == |after.infos| && before.infos[r].valid
    requires after.infos == before.infos[r := after.infos[r]] && |after.cells| == |before.cells|
    requires before.infos[r].blk < |before.cells| && OnlyAt(before.cells, steps, before.infos[r].blk)
    requires after.cells == before.cells[before.infos[r].blk := after.cells[before.infos[r].blk]]
    ensures OthersStay(g, before, steps, after, r)
  {
  }

  lemma BumpOthers(g: Geometry, st: State, steps: seq<Cells>, after: State, r: nat)
    requires WellFormed(g) && r < |st.infos| == |after.infos| && OthersStay(g, Bumped(st, r), steps, after, r)
    ensures OthersStay(g, st, steps, after, r)
    ensures OthersListed(g, Bumped(st, r), after, r) ==> OthersListed(g, st, after, r)
  {
    forall b: nat | OtherBlock(g, st, r, b) ensures OtherBlock(g, Bumped(st, r), r, b) {
    }
  }

  /** What taking a new block does when nothing fails. */
  ghost predicate MovedPerfectly(g: Geometry, before: State, r: nat, buf: seq<byte>, excluded: nat,
                                 clearUpdate: bool, ret: int, steps: seq<Cells>, after: State)
    requires CanSave(g, before, r, buf) && (g.records[r].kind.FullPage? ==> Fits(g, g.records[r]))
  {
    match FirstFree(g, before.reserved, excluded)
    case None => ret == BAD_BLOCK_FAILURE && steps == [] && after == before
    case Some(n) =>
      var prev, rec := before.infos[r], g.records[r];
      var clean := before.cells[n := ErasedBlock(g.pages)];
      && ret == 0
      && after == Relocate(g, before, r, n, NewContent(g, rec, buf, prev.stamp), !clearUpdate && prev.update)
      && steps == [clean] + NewSteps(clean, n, rec.kind, NewCopy(g, rec, buf, prev.stamp))
                  + OldErased(prev, after.cells)
  }

  lemma PassMoves(g: Geometry, st: State, r: nat, buf: seq<byte>, excluded: nat, ret: int, steps: seq<Cells>,
                  after: State)
    requires CanSave(g, st, r, buf) && g.records[r].kind.FullPage? && Fits(g, g.records[r]) && MustMove(g, st, r)
    requires MovedPerfectly(g, Bumped(st, r), r, buf, excluded, true, ret, steps, after)
    ensures Outcome(ret == 0, after) == PagePass(g, st, r, buf, excluded)
    ensures steps == PagePassSteps(g, st, r, buf, excluded)
  {
  }

  /** What an append in place does when nothing fails. */
  ghost predicate AppendedPerfectly(g: Geometry, before: State, r: nat, buf: seq<byte>, steps: seq<Cells>, after: State)
    requires CanSave(g, before, r, buf) && Fits(g, g.records[r]) && !MustMove(g, before, r)
  {
    var info := before.infos[r];
    var at, copy := info.page + Pages(g, g.records[r]), NewCopy(g, g.records[r], buf, info.stamp);
    && after == State(before.cells[info.blk := Put(before.cells[info.blk], at, copy)], before.reserved,
                      before.infos[r := info.(page := at)])
    && steps == ProgramSteps(before.cells, info.blk, at, copy)
  }

  lemma PassAppends(g: Geometry, st: State, r: nat, buf: seq<byte>, excluded: nat, steps: seq<Cells>, after: State)
    requires CanSave(g, st, r, buf) && Fits(g, g.records[r]) && !MustMove(g, st, r)
    requires AppendedPerfectly(g, Bumped(st, r), r, buf, steps, after)
    ensures Outcome(true, after) == PagePass(g, st, r, buf, excluded)
    ensures steps == PagePassSteps(g, st, r, buf, excluded)
  {
  }

  /** Two halves of a save, neither of which touches the other records. */
  lemma OthersTrans(g: Geometry, a: State, first: seq<Cells>, b: State, second: seq<Cells>, c: State, r: nat)
    requires WellFormed(g) && r < |a.infos| == |b.infos| == |c.infos|
    requires OthersStay(g, a, first, b, r) && OthersListed(g, a, b, r) && OthersStay(g, b, second, c, r)
    ensures OthersStay(g, a, first + second, c, r)
  {
    forall cells | OthersKept(g, b, cells, r) ensures OthersKept(g, a, cells, r) {
    }
  }

  /** The first page of slot `slot` of block `b` carries the record's tag and this stamp. */
  ghost predicate Sighted(g: Geometry, cells: Cells, rec: Record, b: nat, slot: nat, stamp: nat)
    requires g.pageSize >= 1
  {
    var at := Times(slot, Pages(g, rec));
    b < |cells| && at < |cells[b]| && TagOf(cells[b][at]) == rec.name && StampOf(cells[b][at]) == stamp
  }

  /** The entry names a block that the scan looks into, and a copy in it was sighted. */
  ghost predicate Seen(g: Geometry, cells: Cells, rec: Record, info: Info)
    requires g.pageSize >= 1
  {
    info.valid && Findable(g, info.blk) && exists slot: nat :: Sighted(g, cells, rec, info.blk, slot, info.stamp)
  }

  /** The entry names a page of its block with the record's tag and the entry's stamp. */
  ghost predicate AtCopy(cells: Cells, rec: Record, info: Info) {
    info.blk < |cells| && info.page < |cells[info.blk]|
    && TagOf(cells[info.blk][info.page]) == rec.name && StampOf(cells[info.blk][info.page]) == info.stamp
  }

  predicate StampKept(before: Info, after: Info) {
    after.page == before.page && after.stamp == before.stamp
  }

  /** The entry is empty, or names a block the scan looks into with a page of the record of exactly this stamp. */
  ghost predicate Grounded(g: Geometry, cells: Cells, rec: Record, info: Info) {
    info.valid ==>
      Findable(g, info.blk) && info.blk < |cells|
      && exists k :: 0 <= k < |cells[info.blk]|
                     && TagOf(cells[info.blk][k]) == rec.name && StampOf(cells[info.blk][k]) == info.stamp
  }

  lemma SeenIsGrounded(g: Geometry, cells: Cells, rec: Record, located: Info, info: Info)
    requires g.pageSize >= 1 && Seen(g, cells, rec, located) && info.blk == located.blk
    requires StampKept(located, info) || AtCopy(cells, rec, info)
    ensures Grounded(g, cells, rec, info)
  {
    if StampKept(located, info) {
      var slot: nat :| Sighted(g, cells, rec, located.blk, slot, located.stamp);
      var k := Times(slot, Pages(g, rec));
      assert TagOf(cells[info.blk][k]) == rec.name;
    }
  }

  predicate Unmoved(before: Info, after: Info) {
    after.valid == before.valid && after.blk == before.blk && after.stamp == before.stamp
  }

  // ---------------------------------------------------------------- the blocks that a save tried

  /** Block `b` may be handed out, and every lower one that may be was asked to erase and did not. */
  ghost predicate Chose(g: Geometry, reserved: seq<nat>, acts: seq<Act>, excluded: nat, b: nat)
    requires WellFormed(g)
  {
    Candidate(g, reserved, excluded, b)
    && forall c: nat :: c < b && Candidate(g, reserved, excluded, c) ==> Erasing(c, false) in acts
  }

  ghost predicate NoneLeft(g: Geometry, reserved: seq<nat>, acts: seq<Act>, excluded: nat)
    requires WellFormed(g)
  {
    forall c: nat :: Candidate(g, reserved, excluded, c) ==> Erasing(c, false) in acts
  }

  /** The block that try number `k` must not take: the one that has just failed. */
  function Barred(e: Effort, excluded: nat, k: nat): nat
    requires k <= |e.blks|
  {
    if k == 0 then excluded else e.blks[k - 1]
  }

  ghost predicate ChoseAll(g: Geometry, reserved: seq<nat>, acts: seq<Act>, e: Effort, excluded: nat)
    requires WellFormed(g)
  {
    forall k :: 0 <= k < |e.blks| ==> ChoseAt(g, reserved, acts, e, excluded, k)
  }

  ghost predicate ChoseAt(g: Geometry, reserved: seq<nat>, acts: seq<Act>, e: Effort, excluded: nat, k: nat)
    requires WellFormed(g) && k < |e.blks|
  {
    Chose(g, reserved, acts, Barred(e, excluded, k), e.blks[k])
  }

  /**
   * How a save looked for a block, with `tested` tests made before.  It gave up on a program only with its tests used
   * up, and for want of a block only when every block it might have taken had failed to erase.
   */
  ghost predicate Tried(g: Geometry, reserved: seq<nat>, acts: seq<Act>, e: Effort, excluded: nat, tested: nat,
                        ret: int)
    requires WellFormed(g)
  {
    Failed(acts, e) && ChoseAll(g, reserved, acts, e, excluded)
    && if ret == WRITE_FAILED then |e.fails| == |e.blks| && tested + |e.blks| == 4
       else if ret == BAD_BLOCK_FAILURE then
         |e.fails| == |e.blks| && tested + |e.blks| <= 3
         && LastTested(acts, e) && NoneLeft(g, reserved, acts, Barred(e, excluded, |e.blks|))
       else |e.fails| + 1 == |e.blks| && tested + |e.blks| <= 4
  }

  lemma ChoseMore(g: Geometry, reserved: seq<nat>, acts: seq<Act>, e: Effort, excluded: nat, more: seq<Act>)
    requires WellFormed(g) && ChoseAll(g, reserved, acts, e, excluded)
    ensures ChoseAll(g, reserved, acts + more, e, excluded)
  {
    forall k | 0 <= k < |e.blks| ensures ChoseAt(g, reserved, acts + more, e, excluded, k) {
      assert ChoseAt(g, reserved, acts, e, excluded, k);
    }
  }

  /** What a save does after its search for a block changes nothing about how it searched. */
  lemma ChoseNext(g: Geometry, reserved: seq<nat>, acts: seq<Act>, e: Effort, excluded: nat, taken: seq<Act>, b: nat,
                  fails: seq<nat>)
    requires WellFormed(g) && ChoseAll(g, reserved, acts, e, excluded)
    requires Chose(g, reserved, taken, Barred(e, excluded, |e.blks|), b)
    ensures ChoseAll(g, reserved, acts + taken, Effort(e.blks + [b], fails), excluded)
  {
    var next := Effort(e.blks + [b], fails);
    forall k | 0 <= k < |next.blks| ensures ChoseAt(g, reserved, acts + taken, next, excluded, k) {
      if k < |e.blks| {
        assert ChoseAt(g, reserved, acts, e, excluded, k);
        assert Barred(next, excluded, k) == Barred(e, excluded, k);
      }
    }
  }

  /** A save between two tries: all blocks chosen so far have failed and were tested. */
  ghost predicate Trying(g: Geometry, reserved: seq<nat>, acts: seq<Act>, e: Effort, excluded: nat)
    requires WellFormed(g)
  {
    |e.fails| == |e.blks| && Failed(acts, e) && LastTested(acts, e) && ChoseAll(g, reserved, acts, e, excluded)
  }

  lemma TryingStarts(g: Geometry, reserved: seq<nat>, excluded: nat)
    requires WellFormed(g)
    ensures Trying(g, reserved, [], NO_EFFORT, excluded)
  {
  }

  lemma TryFindsNone(g: Geometry, reserved: seq<nat>, acts: seq<Act>, e: Effort, excluded: nat, tested: nat,
                     taken: seq<Act>)
    requires WellFormed(g) && Trying(g, reserved, acts, e, excluded) && tested + |e.blks| <= 3
    requires NoneLeft(g, reserved, taken, Barred(e, excluded, |e.blks|))
    ensures Tried(g, reserved, acts + taken, e, excluded, tested, BAD_BLOCK_FAILURE)
  {
    FailedMore(acts, e, taken);
    ChoseMore(g, reserved, acts, e, excluded, taken);
  }

  /** The acts of one more try. */
  lemma TryChose(g: Geometry, reserved: seq<nat>, acts: seq<Act>, e: Effort, excluded: nat, taken: seq<Act>,
                 written: seq<Act>, b: nat, fails: seq<nat>)
    requires WellFormed(g) && Trying(g, reserved, acts, e, excluded)
    requires Chose(g, reserved, taken, Barred(e, excluded, |e.blks|), b)
    ensures ChoseAll(g, reserved, acts + taken + written, Effort(e.blks + [b], fails), excluded)
  {
    ChoseNext(g, reserved, acts, e, excluded, taken, b, fails);
    ChoseMore(g, reserved, acts + taken, Effort(e.blks + [b], fails), excluded, written);
  }

  lemma FailedThenWell(acts: seq<Act>, e: Effort, more: seq<Act>, b: nat)
    requires Failed(acts, e) && |e.fails| == |e.blks|
    ensures Failed(acts + more, Effort(e.blks + [b], e.fails))
  {
    var f := Effort(e.blks + [b], e.fails);
    FailedMore(acts, e, more);
    forall k | 0 <= k < |f.fails| ensures FailedAt(acts + more, f.fails[k], f.blks[k]) {
      assert FailedAt(acts + more, e.fails[k], e.blks[k]);
    }
    forall k | 0 <= k < |f.fails| - 1 ensures TestedAt(acts + more, f.fails[k], f.blks[k]) {
      assert TestedAt(acts + more, e.fails[k], e.blks[k]);
    }
  }

  /** The effort after a try of block `b` that failed with act number `at`. */
  function OneMore(e: Effort, b: nat, at: nat): Effort {
    Effort(e.blks + [b], e.fails + [at])
  }

  /** The acts of one try: taking a block, programming it, and testing it when that failed. */
  ghost predicate TryActs(g: Geometry, reserved: seq<nat>, barred: nat, b: int, ok: bool, mayTest: bool,
                          taken: seq<Act>, written: seq<Act>, probed: seq<Act>)
    requires WellFormed(g)
  {
    if b < 0 then b == BAD_BLOCK_FAILURE && NoneLeft(g, reserved, taken, barred) && written == [] && probed == []
    else
      Chose(g, reserved, taken, barred, b) && WritesTo(written, b) && Ended(written, ok)
      && if ok || !mayTest then probed == []
         else probed != [] && probed[0].Erasing? && probed[0].b == b
  }

  /** Where the last of the three stretches of acts begins. */
  function TryEnd(acts: seq<Act>, taken: seq<Act>, written: seq<Act>): nat {
    |acts| + |taken| + |written|
  }

  /** What one more try makes of a search: it gives up, succeeds, or can go on. */
  lemma TryStep(g: Geometry, reserved: seq<nat>, acts: seq<Act>, e: Effort, excluded: nat, tested: nat, b: int,
                ok: bool, taken: seq<Act>, written: seq<Act>, probed: seq<Act>)
    requires WellFormed(g) && Trying(g, reserved, acts, e, excluded) && tested + |e.blks| <= 3
    requires TryActs(g, reserved, Barred(e, excluded, |e.blks|), b, ok, tested + |e.blks| < 3, taken, written, probed)
    ensures var all := acts + (taken + written + probed);
            if b < 0 then Tried(g, reserved, all, e, excluded, tested, BAD_BLOCK_FAILURE)
            else if ok then Tried(g, reserved, all, Effort(e.blks + [b], e.fails), excluded, tested, 0)
            else
              TryEnd(acts, taken, written) > 0 &&
              var f := OneMore(e, b, TryEnd(acts, taken, written) - 1);
              if tested + |e.blks| == 3 then Tried(g, reserved, all, f, excluded, tested, WRITE_FAILED)
              else Trying(g, reserved, all, f, excluded)
  {
    Regroup(acts, taken + written, probed);
    Regroup(acts, taken, written);
    if b < 0 {
      TryFindsNone(g, reserved, acts, e, excluded, tested, taken);
      assert acts + (taken + written + probed) == acts + taken;
    } else if ok {
      TryChose(g, reserved, acts, e, excluded, taken, written, b, e.fails);
      Regroup(acts, taken, written);
      FailedThenWell(acts, e, taken + written, b);
      assert acts + (taken + written + probed) == acts + taken + written;
    } else {
      TryFails(g, reserved, acts, e, excluded, taken, written, probed, b);
    }
  }

  lemma TryFails(g: Geometry, reserved: seq<nat>, acts: seq<Act>, e: Effort, excluded: nat, taken: seq<Act>,
                 written: seq<Act>, probed: seq<Act>, b: nat)
    requires WellFormed(g) && Trying(g, reserved, acts, e, excluded)
    requires Chose(g, reserved, taken, Barred(e, excluded, |e.blks|), b)
    requires WritesTo(written, b) && Ended(written, false)
    requires probed != [] ==> probed[0].Erasing? && probed[0].b == b
    ensures TryEnd(acts, taken, written) > 0
    ensures var all, f := acts + (taken + written + probed), OneMore(e, b, TryEnd(acts, taken, written) - 1);
            Failed(all, f) && ChoseAll(g, reserved, all, f, excluded) && (probed != [] ==> LastTested(all, f))
  {
    FailedThenTested(acts, e, taken, written, probed, b);
    ChoseThenTested(g, reserved, acts, e, excluded, taken, written, probed, b,
                    OneMore(e, b, TryEnd(acts, taken, written) - 1).fails);
  }

  lemma ChoseThenTested(g: Geometry, reserved: seq<nat>, acts: seq<Act>, e: Effort, excluded: nat, taken: seq<Act>,
                        written: seq<Act>, probed: seq<Act>, b: nat, fails: seq<nat>)
    requires WellFormed(g) && Trying(g, reserved, acts, e, excluded)
    requires Chose(g, reserved, taken, Barred(e, excluded, |e.blks|), b)
    ensures ChoseAll(g, reserved, acts + (taken + written + probed), Effort(e.blks + [b], fails), excluded)
  {
    TryChose(g, reserved, acts, e, excluded, taken, written, b, fails);
    ChoseMore(g, reserved, acts + taken + written, Effort(e.blks + [b], fails), excluded, probed);
    assert acts + (taken + written + probed) == acts + taken + written + probed;
  }

  lemma FailedThenTested(acts: seq<Act>, e: Effort, taken: seq<Act>, written: seq<Act>, probed: seq<Act>, b: nat)
    requires |e.fails| == |e.blks| && Failed(acts, e) && LastTested(acts, e)
    requires WritesTo(written, b) && Ended(written, false)
    requires probed != [] ==> probed[0].Erasing? && probed[0].b == b
    ensures TryEnd(acts, taken, written) > 0
    ensures var all, f := acts + (taken + written + probed), OneMore(e, b, TryEnd(acts, taken, written) - 1);
            Failed(all, f) && (probed != [] ==> LastTested(all, f))
  {
    var some, f := acts + taken + written, OneMore(e, b, TryEnd(acts, taken, written) - 1);
    FailedMore(acts, e, taken);
    FailedAgain(acts + taken, e, written, b);
    FailedMore(some, f, probed);
    if probed != [] {
      TestedThen(some, f, probed, b);
    }
    assert acts + (taken + written + probed) == some + probed;
  }

  /** An append in place: always the same block, tested after every failure, until a program went well. */
  ghost predicate Repeated(acts: seq<Act>, e: Effort, blk: nat, tested: nat, ret: int) {
    Failed(acts, e) && (forall k :: 0 <= k < |e.blks| ==> e.blks[k] == blk)
    && if ret == 0 then |e.fails| + 1 == |e.blks| && tested + |e.blks| <= 4
       else ret == WRITE_FAILED && |e.fails| == |e.blks| && tested + |e.blks| == 4
  }

  /** An append in place between two tries. */
  ghost predicate Repeating(acts: seq<Act>, e: Effort, blk: nat) {
    |e.fails| == |e.blks| && Failed(acts, e) && LastTested(acts, e)
    && forall k :: 0 <= k < |e.blks| ==> e.blks[k] == blk
  }

  /** The acts of one try in place: programming the copy, and testing the block when that failed. */
  ghost predicate RepeatActs(blk: nat, ok: bool, mayTest: bool, written: seq<Act>, probed: seq<Act>) {
    WritesTo(written, blk) && Ended(written, ok)
    && if ok || !mayTest then probed == [] else probed != [] && probed[0].Erasing? && probed[0].b == blk
  }

  lemma RepeatStep(acts: seq<Act>, e: Effort, blk: nat, tested: nat, ok: bool, written: seq<Act>, probed: seq<Act>)
    requires Repeating(acts, e, blk) && tested + |e.blks| <= 3
    requires RepeatActs(blk, ok, tested + |e.blks| < 3, written, probed)
    ensures var all := acts + (written + probed);
            if ok then Repeated(all, Effort(e.blks + [blk], e.fails), blk, tested, 0)
            else
              |acts| + |written| > 0 &&
              var f := OneMore(e, blk, |acts| + |written| - 1);
              if tested + |e.blks| == 3 then Repeated(all, f, blk, tested, WRITE_FAILED) else Repeating(all, f, blk)
  {
    Regroup(acts, written, probed);
    if ok {
      FailedThenWell(acts, e, written, blk);
      assert acts + (written + probed) == acts + written;
    } else {
      var f := OneMore(e, blk, |acts| + |written| - 1);
      FailedAgain(acts, e, written, blk);
      FailedMore(acts + written, f, probed);
      if probed != [] {
        TestedThen(acts + written, f, probed, blk);
      }
    }
  }

  /** One append of a FullPage save: in the block in use while one more copy fits behind the newest. */
  ghost predicate Strove(g: Geometry, st: State, r: nat, acts: seq<Act>, e: Effort, excluded: nat, tested: nat,
                         ret: int)
    requires WellFormed(g) && r < |g.records| && r < |st.infos|
  {
    var info, width := st.infos[r], Pages(g, g.records[r]);
    if info.valid && !info.update && (info.page + width) + width <= g.pages
    then Repeated(acts, e, info.blk, tested, ret)
    else Tried(g, st.reserved, acts, e, excluded, tested, ret)
  }

  /** One append of a save: the state it started from, its tries, and its acts before and after the record moved. */
  datatype Append = Append(start: State, e: Effort, first: seq<Act>, last: seq<Act>)

  /** The acts of giving a block back: an erase and, when that failed, a test. */
  ghost predicate Dropped(acts: seq<Act>, b: nat, erased: bool, passed: bool) {
    acts != [] && acts[0] == Erasing(b, erased)
    && if erased then acts == [Erasing(b, true)]
       else |acts| > 1 && acts[1].Erasing? && acts[1].b == b && Ended(acts[1..], passed)
  }

  /** What became of the block of the old entry: the save is refused exactly when neither erase nor test went well. */
  ghost predicate OldGone(prev: Info, acts: seq<Act>, done: bool) {
    if !HasOld(prev) then done && acts == []
    else exists erased, passed :: Dropped(acts, prev.blk, erased, passed) && (done <==> erased || passed)
  }

  // ---------------------------------------------------------------- what a walk over the window saw

  ghost function Order(g: Geometry, rec: Record): seq<nat>
    requires g.pageSize >= 1
  {
    ScanOrder(g.pages, g.blockPages, Pages(g, rec))
  }

  /** In block `b` the page number `seen[b]` of the order was read, and it carries the record's tag. */
  ghost predicate Shows(g: Geometry, cells: Cells, rec: Record, seen: map<nat, nat>, b: nat)
    requires g.pageSize >= 1
  {
    var order := Order(g, rec);
    b in seen && seen[b] < |order| && b < |cells| && order[seen[b]] < |cells[b]|
    && TagOf(cells[b][order[seen[b]]]) == rec.name
  }

  ghost function Shown(g: Geometry, cells: Cells, rec: Record, seen: map<nat, nat>, b: nat): nat
    requires g.pageSize >= 1 && Shows(g, cells, rec, seen, b)
  {
    StampOf(cells[b][Order(g, rec)[seen[b]]])
  }

  /** The entry comes before block `c`, which shows the record too: a lower block, or a newer stamp. */
  ghost predicate Beats(g: Geometry, cells: Cells, rec: Record, seen: map<nat, nat>, info: Info, c: nat)
    requires g.pageSize >= 1 && Shows(g, cells, rec, seen, c)
  {
    match rec.kind
    case FullBlk => info.blk < c
    case FullPage =>
      Shown(g, cells, rec, seen, c) < info.stamp || (Shown(g, cells, rec, seen, c) == info.stamp && info.blk < c)
  }

  /**
   * What the walk from an empty entry over the blocks below `end` settles on: every block that the scan looks into
   * was visited, up to the one found when the record is FullBlk; the entry is empty when none of them shows the
   * record, else it names one that does and comes before all others.
   */
  ghost predicate Walked(g: Geometry, cells: Cells, rec: Record, seen: map<nat, nat>, info: Info, end: nat)
    requires g.pageSize >= 1
  {
    (forall c: nat :: Findable(g, c) && c < end && (rec.kind.FullPage? || !info.valid || c <= info.blk) ==> c in seen)
    && (forall c :: c in seen ==> c < end)
    && if !info.valid then forall c: nat :: Findable(g, c) ==> !Shows(g, cells, rec, seen, c)
       else Findable(g, info.blk) && Shows(g, cells, rec, seen, info.blk)
            && info.stamp == Shown(g, cells, rec, seen, info.blk)
            && forall c: nat :: Findable(g, c) && c != info.blk && Shows(g, cells, rec, seen, c) ==>
                 Beats(g, cells, rec, seen, info, c)
  }

  /** In every visited block the pages before the one that was read could not be read. */
  ghost predicate SeenTied(g: Geometry, rec: Record, seen: map<nat, nat>, acts: seq<Act>)
    requires g.pageSize >= 1
  {
    forall b :: b in seen ==> VisitTied(g, rec, b, seen[b], acts)
  }

  ghost predicate VisitTied(g: Geometry, rec: Record, b: nat, n: nat, acts: seq<Act>)
    requires g.pageSize >= 1
  {
    n <= |Order(g, rec)|
    && (forall k :: 0 <= k < n ==> Reading(b, Order(g, rec)[k], false) in acts)
    && (n < |Order(g, rec)| ==> Reading(b, Order(g, rec)[n], true) in acts)
  }

  lemma SearchedTied(g: Geometry, rec: Record, b: nat, n: nat, acts: seq<Act>)
    requires g.pageSize >= 1 && Searched(acts, b, Order(g, rec), n, n < |Order(g, rec)|)
    ensures VisitTied(g, rec, b, n, acts)
  {
    forall k | 0 <= k < n ensures Reading(b, Order(g, rec)[k], false) in acts {
      assert FailedReads(b, Order(g, rec), n)[k] == acts[k];
    }
    if n < |Order(g, rec)| {
      assert acts[n] == Reading(b, Order(g, rec)[n], true);
    }
  }

  lemma SeenTiedMore(g: Geometry, rec: Record, seen: map<nat, nat>, acts: seq<Act>, more: seq<Act>, b: nat, n: nat)
    requires g.pageSize >= 1 && SeenTied(g, rec, seen, acts) && VisitTied(g, rec, b, n, more)
    ensures SeenTied(g, rec, seen[b := n], acts + more)
  {
    var after := seen[b := n];
    forall c | c in after ensures VisitTied(g, rec, c, after[c], acts + more) {
      if c != b {
        assert VisitTied(g, rec, c, seen[c], acts);
      }
    }
  }

  lemma SeenTiedLater(g: Geometry, rec: Record, seen: map<nat, nat>, acts: seq<Act>, before: seq<Act>, more: seq<Act>)
    requires g.pageSize >= 1 && SeenTied(g, rec, seen, acts)
    ensures SeenTied(g, rec, seen, before + acts + more)
  {
    forall c | c in seen ensures VisitTied(g, rec, c, seen[c], before + acts + more) {
      assert VisitTied(g, rec, c, seen[c], acts);
    }
  }

  lemma WalkedPast(g: Geometry, cells: Cells, rec: Record, seen: map<nat, nat>, info: Info, b: nat)
    requires g.pageSize >= 1 && Walked(g, cells, rec, seen, info, b) && !Findable(g, b)
    ensures Walked(g, cells, rec, seen, info, b + 1)
  {
  }

  /** One more block was visited. */
  lemma WalkedOn(g: Geometry, cells: Cells, rec: Record, seen: map<nat, nat>, info: Info, b: nat, n: nat, next: Info)
    requires WellFormed(g) && Shaped(g, cells) && Walked(g, cells, rec, seen, info, b) && Findable(g, b)
    requires b !in seen && (info.valid ==> rec.kind.FullPage? && info.blk < b) && n <= |Order(g, rec)|
    requires n < |Order(g, rec)| ==> Order(g, rec)[n] < g.pages
    requires next == if n < |Order(g, rec)| then Visit(info, b, cells[b][Order(g, rec)[n]], rec.name) else info
    ensures Walked(g, cells, rec, seen[b := n], next, b + 1)
  {
    var after := seen[b := n];
    forall c: nat | c != b && Shows(g, cells, rec, after, c) ensures Shows(g, cells, rec, seen, c) {
    }
    forall c: nat | c != b && Shows(g, cells, rec, seen, c)
      ensures Shows(g, cells, rec, after, c)
      ensures Shown(g, cells, rec, after, c) == Shown(g, cells, rec, seen, c)
    {
    }
  }

  /** What one visit saw and made of the entry. */
  ghost predicate Visited(g: Geometry, cells: Cells, rec: Record, b: nat, n: nat, acts: seq<Act>, info: Info,
                          next: Info)
    requires WellFormed(g) && Shaped(g, cells) && Findable(g, b)
  {
    var order := Order(g, rec);
    && VisitTied(g, rec, b, n, acts) && (n < |order| ==> order[n] < g.pages)
    && next == (if n < |order| then Visit(info, b, cells[b][order[n]], rec.name) else info)
    && (Unmoved(info, next) || Seen(g, cells, rec, next))
  }

  /**
   * The walk from the entry `first` has come to `info`, and every block below `b` is done; when it stops at a FullBlk
   * record the block found is the last one visited.
   */
  ghost predicate Walking(g: Geometry, cells: Cells, rec: Record, seen: map<nat, nat>, acts: seq<Act>, first: Info,
                          info: Info, b: nat)
    requires g.pageSize >= 1
  {
    && info.page == first.page && info.update == first.update
    && (Unmoved(first, info) || Seen(g, cells, rec, info))
    && SeenTied(g, rec, seen, acts) && (forall c :: c in seen ==> c < b)
    && (!first.valid ==> Walked(g, cells, rec, seen, info, b) && (info.valid ==> rec.kind.FullPage? && info.blk < b))
  }

  /** The same behind the visit of block `b`. */
  ghost predicate WalkDone(g: Geometry, cells: Cells, rec: Record, seen: map<nat, nat>, acts: seq<Act>, first: Info,
                           info: Info, b: nat)
    requires g.pageSize >= 1
  {
    && info.page == first.page && info.update == first.update
    && (Unmoved(first, info) || Seen(g, cells, rec, info))
    && SeenTied(g, rec, seen, acts) && (forall c :: c in seen ==> c <= b)
    && (!first.valid ==> Walked(g, cells, rec, seen, info, b + 1) && (info.valid ==> info.blk <= b))
  }

  lemma WalkPast(g: Geometry, cells: Cells, rec: Record, seen: map<nat, nat>, acts: seq<Act>, first: Info, info: Info,
                 b: nat)
    requires g.pageSize >= 1 && Walking(g, cells, rec, seen, acts, first, info, b) && !Findable(g, b)
    ensures Walking(g, cells, rec, seen, acts, first, info, b + 1)
  {
    if !first.valid {
      WalkedPast(g, cells, rec, seen, info, b);
    }
  }

  lemma WalkOn(g: Geometry, cells: Cells, rec: Record, seen: map<nat, nat>, acts: seq<Act>, first: Info, info: Info,
               b: nat, n: nat, more: seq<Act>, next: Info)
    requires WellFormed(g) && Shaped(g, cells) && Findable(g, b)
    requires Walking(g, cells, rec, seen, acts, first, info, b) && Visited(g, cells, rec, b, n, more, info, next)
    ensures WalkDone(g, cells, rec, seen[b := n], acts + more, first, next, b)
    ensures !(rec.kind.FullBlk? && next.valid && next.blk != 0) ==>
              Walking(g, cells, rec, seen[b := n], acts + more, first, next, b + 1)
  {
    SeenTiedMore(g, rec, seen, acts, more, b, n);
    if !first.valid {
      WalkedOn(g, cells, rec, seen, info, b, n, next);
    }
  }

  /** The walk ended at the end of the window, or at the block of a FullBlk record. */
  ghost predicate WalkOver(g: Geometry, cells: Cells, rec: Record, seen: map<nat, nat>, acts: seq<Act>, first: Info,
                           info: Info, b: nat)
    requires g.pageSize >= 1
  {
    if b < g.start + RESERVED_BLOCK_CNT then
      rec.kind.FullBlk? && info.valid && WalkDone(g, cells, rec, seen, acts, first, info, b)
    else Walking(g, cells, rec, seen, acts, first, info, b) && b == g.start + RESERVED_BLOCK_CNT
  }

  lemma WalkEnds(g: Geometry, cells: Cells, rec: Record, seen: map<nat, nat>, acts: seq<Act>, first: Info, info: Info,
                 b: nat)
    requires g.pageSize >= 1 && WalkOver(g, cells, rec, seen, acts, first, info, b)
    ensures info.page == first.page && info.update == first.update && SeenTied(g, rec, seen, acts)
    ensures Unmoved(first, info) || Seen(g, cells, rec, info)
    ensures !first.valid ==> Walked(g, cells, rec, seen, info, g.start + RESERVED_BLOCK_CNT)
  {
  }

  // ---------------------------------------------------------------- what a search for the newest copy saw

  /** The reads of a search at every `width`-th page of block `b`. */
  ghost predicate SteppedReads(acts: seq<Act>, b: nat, pages: nat, width: nat) {
    forall k :: 0 <= k < |acts| ==>
      acts[k].Reading? && acts[k].b == b && acts[k].page == Times(k, width) < pages
  }

  ghost predicate TagRead(block: Block, acts: seq<Act>, name: string, k: nat) {
    k < |acts| && acts[k].Reading? && acts[k].ok && acts[k].page < |block| && TagOf(block[acts[k].page]) == name
  }

  ghost predicate OtherRead(block: Block, acts: seq<Act>, name: string, k: nat) {
    k < |acts| && acts[k].Reading? && acts[k].ok && acts[k].page < |block| && TagOf(block[acts[k].page]) != name
  }

  /** The first copy whose tag could be read; without one all places were looked at. */
  ghost predicate FirstFound(block: Block, acts: seq<Act>, b: nat, width: nat, name: string, found: Option<nat>) {
    SteppedReads(acts, b, |block|, width)
    && match found
       case None => Times(|acts|, width) >= |block| && forall k: nat :: !TagRead(block, acts, name, k)
       case Some(p) =>
         acts != [] && TagRead(block, acts, name, |acts| - 1) && p == acts[|acts| - 1].page
         && forall k: nat :: k < |acts| - 1 ==> !TagRead(block, acts, name, k)
  }

  /** The last copy whose tag could be read before a page of something else; unreadable pages do not end the search. */
  ghost predicate LastFound(block: Block, acts: seq<Act>, b: nat, width: nat, name: string, found: Option<nat>) {
    SteppedReads(acts, b, |block|, width)
    && (Times(|acts|, width) >= |block| || (acts != [] && OtherRead(block, acts, name, |acts| - 1)))
    && (forall k: nat :: k < |acts| - 1 ==> !OtherRead(block, acts, name, k))
    && LastTagged(block, acts, name, found)
  }

  ghost predicate LastTagged(block: Block, acts: seq<Act>, name: string, found: Option<nat>) {
    match found
    case None => forall k: nat :: !TagRead(block, acts, name, k)
    case Some(p) =>
      exists k: nat ::
        TagRead(block, acts, name, k) && p == acts[k].page && forall j: nat :: k < j ==> !TagRead(block, acts, name, j)
  }

  /** The search is at page `i`, and `failed` says whether some page could not be read. */
  ghost predicate Stepping(block: Block, acts: seq<Act>, b: nat, width: nat, failed: bool, i: nat) {
    i == Times(|acts|, width) && (failed <==> !AllOk(acts)) && SteppedReads(acts, b, |block|, width)
  }

  lemma StepRead(block: Block, acts: seq<Act>, b: nat, width: nat, failed: bool, i: nat, ok: bool)
    requires Stepping(block, acts, b, width, failed, i) && i < |block|
    ensures Stepping(block, acts + [Reading(b, i, ok)], b, width, failed || !ok, i + width)
  {
    SlotNext(|acts|, width);
    OkMore(acts, Reading(b, i, ok));
  }

  ghost predicate FirstSearch(block: Block, acts: seq<Act>, b: nat, width: nat, name: string, failed: bool, i: nat) {
    Stepping(block, acts, b, width, failed, i) && forall k: nat :: !TagRead(block, acts, name, k)
  }

  lemma FirstSearchStep(block: Block, acts: seq<Act>, b: nat, width: nat, name: string, failed: bool, i: nat, ok: bool)
    requires FirstSearch(block, acts, b, width, name, failed, i) && i < |block|
    ensures var all := acts + [Reading(b, i, ok)];
            if ok && TagOf(block[i]) == name then
              FirstFound(block, all, b, width, name, Some(i)) && (failed <==> !AllOk(all))
            else FirstSearch(block, all, b, width, name, failed || !ok, i + width)
  {
    StepRead(block, acts, b, width, failed, i, ok);
    OneMoreRead(block, acts, name, Reading(b, i, ok));
  }

  ghost predicate LastSearch(block: Block, acts: seq<Act>, b: nat, width: nat, name: string, found: Option<nat>,
                             failed: bool, i: nat)
  {
    Stepping(block, acts, b, width, failed, i) && LastTagged(block, acts, name, found)
    && forall k: nat :: !OtherRead(block, acts, name, k)
  }

  lemma LastSearchStep(block: Block, acts: seq<Act>, b: nat, width: nat, name: string, found: Option<nat>,
                       failed: bool, i: nat, ok: bool)
    requires LastSearch(block, acts, b, width, name, found, failed, i) && i < |block|
    ensures var all := acts + [Reading(b, i, ok)];
            if ok && TagOf(block[i]) != name then
              LastFound(block, all, b, width, name, found) && (failed <==> !AllOk(all))
            else LastSearch(block, all, b, width, name, if ok then Some(i) else found, failed || !ok, i + width)
  {
    StepRead(block, acts, b, width, failed, i, ok);
    OneMoreRead(block, acts, name, Reading(b, i, ok));
    LastTaggedMore(block, acts, name, found, Reading(b, i, ok));
  }

  lemma OneMoreRead(block: Block, acts: seq<Act>, name: string, act: Act)
    ensures forall k: nat :: k < |acts| ==> (TagRead(block, acts + [act], name, k) <==> TagRead(block, acts, name, k))
    ensures forall k: nat :: k < |acts| ==>
              (OtherRead(block, acts + [act], name, k) <==> OtherRead(block, acts, name, k))
  {
  }

  lemma LastTaggedMore(block: Block, acts: seq<Act>, name: string, found: Option<nat>, act: Act)
    requires LastTagged(block, acts, name, found)
    ensures LastTagged(block, acts + [act], name,
                       if TagRead(block, acts + [act], name, |acts|) then Some(act.page) else found)
  {
    var all := acts + [act];
    forall k: nat | k < |acts| ensures TagRead(block, all, name, k) <==> TagRead(block, acts, name, k) {
    }
    if !TagRead(block, all, name, |acts|) && found.Some? {
      var k: nat :| TagRead(block, acts, name, k) && found.value == acts[k].page
                    && forall j: nat :: k < j ==> !TagRead(block, acts, name, j);
      assert TagRead(block, all, name, k) && found.value == all[k].page;
    }
  }

  /** The entry after the search: the copy found with its stamp, and a request to move when a page failed. */
  function Chosen(cells: Cells, info: Info, found: Option<nat>, failed: bool): Info
    requires info.blk < |cells| && (found.Some? ==> found.value < |cells[info.blk]|)
  {
    var at := if found.None? then info
              else info.(page := found.value, stamp := StampOf(cells[info.blk][found.value]));
    if failed then at.(update := true) else at
  }

  /** What `acts` made of the entry `located`. */
  ghost predicate Resolved(g: Geometry, cells: Cells, rec: Record, located: Info, acts: seq<Act>, found: Option<nat>,
                           info: Info)
    requires g.pageSize >= 1
  {
    located.blk < |cells| && (found.Some? ==> found.value < |cells[located.blk]|)
    && info == Chosen(cells, located, found, !AllOk(acts))
    && match rec.kind
       case FullBlk => FirstFound(cells[located.blk], acts, located.blk, Pages(g, rec), rec.name, found)
       case FullPage => LastFound(cells[located.blk], acts, located.blk, Pages(g, rec), rec.name, found)
  }

  /** What a restart made of one record: where the walk settled, and the copy chosen in that block. */
  ghost predicate FoundBy(g: Geometry, cells: Cells, rec: Record, seen: map<nat, nat>, located: Info, acts: seq<Act>,
                          info: Info)
    requires WellFormed(g)
  {
    SeenTied(g, rec, seen, acts) && Walked(g, cells, rec, seen, located, g.start + RESERVED_BLOCK_CNT)
    && info.valid == located.valid && info.blk == located.blk
  }

  ghost predicate FoundAll(g: Geometry, cells: Cells, seens: seq<map<nat, nat>>, locateds: seq<Info>, acts: seq<Act>,
                           infos: seq<Info>, n: nat)
    requires WellFormed(g) && |infos| == |g.records|
  {
    |seens| == |locateds| == n <= |infos|
    && forall r :: 0 <= r < n ==> FoundBy(g, cells, g.records[r], seens[r], locateds[r], acts, infos[r])
  }

  /** One more record was looked for. */
  lemma FoundOneMore(g: Geometry, cells: Cells, seens: seq<map<nat, nat>>, locateds: seq<Info>, acts: seq<Act>,
                     infos: seq<Info>, n: nat, seen: map<nat, nat>, located: Info, walk: seq<Act>, search: seq<Act>,
                     info: Info)
    requires WellFormed(g) && |infos| == |g.records| && FoundAll(g, cells, seens, locateds, acts, infos, n)
    requires n < |infos| && FoundBy(g, cells, g.records[n], seen, located, walk, info)
    ensures FoundAll(g, cells, seens + [seen], locateds + [located], acts + (walk + search), infos[n := info], n + 1)
  {
    var all := acts + (walk + search);
    SeenTiedLater(g, g.records[n], seen, walk, acts, search);
    Regroup(acts, walk, search);
    forall r | 0 <= r < n ensures FoundBy(g, cells, g.records[r], seens[r], locateds[r], all, infos[r]) {
      SeenTiedLater(g, g.records[r], seens[r], acts, [], walk + search);
      assert [] + acts + (walk + search) == all;
    }
  }

  // ---------------------------------------------------------------- reading a record

  /** `n` steps of `width`, counted one by one. */
  function Steps(n: nat, width: nat): nat {
    if n == 0 then 0 else Steps(n - 1, width) + width
  }

  lemma {:induction false} StepsAre(n: nat, width: nat)
    ensures Steps(n, width) == Times(n, width)
  {
    SlotNext(0, width);
    if n > 0 {
      StepsAre(n - 1, width);
      SlotNext(n - 1, width);
    }
  }

  /** The read loop after `n` pages: `at` is the next page, `loaded` bytes of `goal` are in `out`. */
  ghost predicate Loading(page: nat, n: nat, pageSize: nat, at: nat, loaded: nat, out: seq<byte>, goal: seq<byte>) {
    at == page + n && loaded == Steps(n, pageSize) && loaded < |goal| + pageSize
    && out == goal[..if loaded < |goal| then loaded else |goal|]
  }

  /** The bytes of page `n` of a read are in their place in `goal`. */
  ghost predicate PieceIn(block: Block, page: nat, n: nat, name: string, dst: seq<byte>, pageSize: nat, goal: seq<byte>)
    requires Sized(block, pageSize) && |goal| == |dst|
  {
    page + n < |block| ==>
      forall k {:trigger goal[k]} :: Steps(n, pageSize) <= k < Steps(n, pageSize) + pageSize && k < |dst| ==>
        goal[k] == ByteOf(block[page + n], name, pageSize, k - Steps(n, pageSize), dst[k])
  }

  ghost predicate PiecesIn(block: Block, page: nat, name: string, dst: seq<byte>, pageSize: nat, goal: seq<byte>)
    requires Sized(block, pageSize)
  {
    |goal| == |dst| && forall n: nat :: PieceIn(block, page, n, name, dst, pageSize, goal)
  }

  /** `tail` is `all` from byte `width` on. */
  ghost predicate Behind(all: seq<byte>, width: nat, tail: seq<byte>) {
    |tail| == (if width < |all| then |all| - width else 0)
    && forall k :: width <= k < |all| ==> all[k] == tail[k - width]
  }

  lemma BehindIs(all: seq<byte>, width: nat, piece: seq<byte>, tail: seq<byte>)
    requires |piece| == PieceLen(|all|, width) && |tail| == |From(all, width)|
    ensures Behind(all, width, From(all, width)) && |piece + tail| == |all| && Behind(piece + tail, width, tail)
  {
  }

  lemma PieceBehind(block: Block, page: nat, n: nat, name: string, dst: seq<byte>, pageSize: nat, goal: seq<byte>,
                    rest: seq<byte>, tail: seq<byte>)
    requires Sized(block, pageSize) && |goal| == |dst| && |tail| == |rest|
    requires PieceIn(block, page + 1, n, name, rest, pageSize, tail)
    requires Behind(dst, pageSize, rest) && Behind(goal, pageSize, tail)
    ensures PieceIn(block, page, n + 1, name, dst, pageSize, goal)
  {
  }

  lemma PieceInFront(block: Block, page: nat, name: string, dst: seq<byte>, pageSize: nat, goal: seq<byte>,
                     piece: seq<byte>, tail: seq<byte>)
    requires Sized(block, pageSize) && page < |block| && goal == piece + tail && |goal| == |dst|
    requires piece == ReadPiece(block[page], name, dst, pageSize)
    ensures PieceIn(block, page, 0, name, dst, pageSize, goal)
  {
  }

  lemma PieceNext(block: Block, page: nat, n: nat, name: string, dst: seq<byte>, pageSize: nat, goal: seq<byte>,
                  piece: seq<byte>, rest: seq<byte>, tail: seq<byte>)
    requires Sized(block, pageSize) && goal == piece + tail && rest == From(dst, pageSize)
    requires |piece| == PieceLen(|dst|, pageSize) && |tail| == |rest|
    requires PieceIn(block, page + 1, n, name, rest, pageSize, tail)
    ensures |goal| == |dst| && PieceIn(block, page, n + 1, name, dst, pageSize, goal)
  {
    BehindIs(dst, pageSize, piece, tail);
    PieceBehind(block, page, n, name, dst, pageSize, goal, rest, tail);
  }

  lemma PieceUp(block: Block, page: nat, n: nat, name: string, dst: seq<byte>, pageSize: nat, goal: seq<byte>,
                piece: seq<byte>, rest: seq<byte>, tail: seq<byte>)
    requires Sized(block, pageSize) && page < |block| && goal == piece + tail && rest == From(dst, pageSize)
    requires piece == ReadPiece(block[page], name, dst, pageSize) && |tail| == |rest| && |goal| == |dst|
    requires n > 0 ==> PieceIn(block, page + 1, n - 1, name, rest, pageSize, tail)
    ensures PieceIn(block, page, n, name, dst, pageSize, goal)
  {
    if n == 0 {
      PieceInFront(block, page, name, dst, pageSize, goal, piece, tail);
    } else {
      PieceNext(block, page, n - 1, name, dst, pageSize, goal, piece, rest, tail);
    }
  }

  lemma {:induction false} PieceOfRead(block: Block, page: nat, n: nat, name: string, dst: seq<byte>, pageSize: nat)
    requires pageSize > 0 && Sized(block, pageSize)
    ensures PieceIn(block, page, n, name, dst, pageSize, ReadPages(block, page, name, dst, pageSize))
    decreases n
  {
    if dst != [] && page < |block| {
      var rest := From(dst, pageSize);
      if n > 0 {
        PieceOfRead(block, page + 1, n - 1, name, rest, pageSize);
      }
      ReadPagesStep(block, page, name, dst, pageSize);
      PieceUp(block, page, n, name, dst, pageSize, ReadPages(block, page, name, dst, pageSize),
              ReadPiece(block[page], name, dst, pageSize), rest, ReadPages(block, page + 1, name, rest, pageSize));
    }
  }

  lemma PiecesOfRead(block: Block, page: nat, name: string, dst: seq<byte>, pageSize: nat)
    requires pageSize > 0 && Sized(block, pageSize)
    ensures PiecesIn(block, page, name, dst, pageSize, ReadPages(block, page, name, dst, pageSize))
  {
    var goal := ReadPages(block, page, name, dst, pageSize);
    forall n: nat ensures PieceIn(block, page, n, name, dst, pageSize, goal) {
      PieceOfRead(block, page, n, name, dst, pageSize);
    }
  }

  lemma LoadStep(block: Block, page: nat, n: nat, name: string, dst: seq<byte>, pageSize: nat, loaded: nat,
                 out: seq<byte>, goal: seq<byte>)
    requires Sized(block, pageSize) && page + n < |block| && loaded < |dst| == |goal|
    requires PieceIn(block, page, n, name, dst, pageSize, goal)
    requires Loading(page, n, pageSize, page + n, loaded, out, goal)
    ensures Loading(page, n + 1, pageSize, page + n + 1, loaded + pageSize,
                    out + ReadPiece(block[page + n], name, dst[loaded..], pageSize), goal)
  {
    var piece := ReadPiece(block[page + n], name, dst[loaded..], pageSize);
    forall j | 0 <= j < |piece| ensures piece[j] == goal[loaded + j] {
      assert goal[loaded + j] == ByteOf(block[page + n], name, pageSize, j, dst[loaded + j]);
    }
  }

  lemma {:induction false} StepsClimb(n: nat, count: nat, width: nat)
    requires Steps(n, width) < Steps(count, width)
    ensures n < count
  {
    if n > 0 && count > 0 {
      StepsClimb(n - 1, count - 1, width);
    }
  }

  lemma {:induction false} StepsHoldCopy(size: nat, width: nat)
    requires width > 0
    ensures size < Steps(ArgPages(size, width), width)
  {
    if size >= width {
      StepsHoldCopy(size - width, width);
    }
  }

  /** Good reads of `n` consecutive pages from page `page` of block `b` on. */
  ghost function OkReads(b: nat, page: nat, n: nat): (acts: seq<Act>)
    ensures |acts| == n
  {
    seq(n, k requires 0 <= k < n => Reading(b, page + k, true))
  }

  lemma OkReadsStart(log: seq<Act>, b: nat, page: nat)
    ensures OkReads(b, page, 0) == [] && log + [] == log
  {
  }

  lemma OkReadsMore(b: nat, page: nat, n: nat)
    ensures OkReads(b, page, n) + [Reading(b, page + n, true)] == OkReads(b, page, n + 1)
  {
  }

  /**
   * The reads of a copy of which `n` pages could be read, and what they gave: all of `goal`, or the bytes of those
   * pages and the rest of `dst` as it was.
   */
  ghost predicate GotUpTo(ok: bool, acts: seq<Act>, b: nat, page: nat, n: nat, goal: seq<byte>, dst: seq<byte>,
                          pageSize: nat, out: seq<byte>)
  {
    acts == (if ok then OkReads(b, page, n) else OkReads(b, page, n) + [Reading(b, page + n, false)])
    && if ok then out == goal && |dst| <= Times(n, pageSize) < |dst| + pageSize
       else Times(n, pageSize) < |dst| == |goal| && out == goal[..Times(n, pageSize)] + dst[Times(n, pageSize)..]
  }
}
