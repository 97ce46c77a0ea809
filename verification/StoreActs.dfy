/** What the store asked of the chip and how it went: every erase, program and read, in order. */
module StoreActs {
  import opened Arith

  datatype Act =
    | Erasing(b: nat, ok: bool)
    | Writing(b: nat, page: nat, ok: bool)
    | Reading(b: nat, page: nat, ok: bool)

  predicate AllOk(acts: seq<Act>) {
    forall k :: 0 <= k < |acts| ==> acts[k].ok
  }

  /** All went well, or only the last one did not. */
  predicate Ended(acts: seq<Act>, ok: bool) {
    if ok then AllOk(acts)
    else acts != [] && !acts[|acts| - 1].ok && forall k :: 0 <= k < |acts| - 1 ==> acts[k].ok
  }

  predicate WritesTo(acts: seq<Act>, b: nat) {
    forall k :: 0 <= k < |acts| ==> acts[k].Writing? && acts[k].b == b
  }

  lemma EndedMore(acts: seq<Act>, more: seq<Act>, ok: bool)
    requires AllOk(acts) && Ended(more, ok)
    ensures Ended(acts + more, ok)
  {
  }

  lemma OkMore(acts: seq<Act>, act: Act)
    ensures AllOk(acts + [act]) <==> AllOk(acts) && act.ok
  {
    assert (acts + [act])[|acts|] == act;
    if AllOk(acts + [act]) {
      forall k | 0 <= k < |acts| ensures acts[k].ok {
        assert (acts + [act])[k] == acts[k];
      }
    }
  }

  // ---------------------------------------------------------------- a block test

  /** A passed test: erase, program every page, read every page back, erase again. */
  ghost predicate TestRun(acts: seq<Act>, b: nat, pages: nat) {
    |acts| == 2 * pages + 2
    && acts[0] == Erasing(b, true)
    && (forall t :: 0 <= t < pages ==> acts[1 + t] == Writing(b, t, true))
    && (forall t :: 0 <= t < pages ==> acts[1 + pages + t] == Reading(b, t, true))
    && acts[2 * pages + 1] == Erasing(b, true)
  }

  // ---------------------------------------------------------------- looking for a free block

  /** Erases alone; all failed but the last, which is the one of block `ret` when there is one. */
  ghost predicate Hunt(acts: seq<Act>, ret: int) {
    (forall k :: 0 <= k < |acts| ==> acts[k].Erasing? && (acts[k].ok <==> ret >= 0 && k == |acts| - 1))
    && (ret >= 0 ==> acts != [] && acts[|acts| - 1].b == ret)
  }

  // ---------------------------------------------------------------- a save and its retries

  /** The blocks that a save programmed, in order, and where among its acts the failed programs are. */
  datatype Effort = Effort(blks: seq<nat>, fails: seq<nat>)

  const NO_EFFORT := Effort([], [])

  /** Act number `at` is a program of block `b` that failed. */
  predicate FailedAt(acts: seq<Act>, at: nat, b: nat) {
    at < |acts| && acts[at].Writing? && acts[at].b == b && !acts[at].ok
  }

  /** Right behind act number `at` the test of block `b` begins. */
  predicate TestedAt(acts: seq<Act>, at: nat, b: nat) {
    at + 1 < |acts| && acts[at + 1].Erasing? && acts[at + 1].b == b
  }

  /** Every block in `fails` had a program that failed, one after the other, and all but the last were tested then. */
  ghost predicate Failed(acts: seq<Act>, e: Effort) {
    |e.fails| <= |e.blks|
    && (forall k :: 0 <= k < |e.fails| ==> FailedAt(acts, e.fails[k], e.blks[k]))
    && (forall k :: 0 <= k < |e.fails| - 1 ==> TestedAt(acts, e.fails[k], e.blks[k]))
    && (forall j, k :: 0 <= j < k < |e.fails| ==> e.fails[j] < e.fails[k])
  }

  /** The last failed program was followed by a test as well. */
  ghost predicate LastTested(acts: seq<Act>, e: Effort) {
    0 < |e.fails| <= |e.blks| ==> TestedAt(acts, e.fails[|e.fails| - 1], e.blks[|e.fails| - 1])
  }

  lemma FailedMore(acts: seq<Act>, e: Effort, more: seq<Act>)
    requires Failed(acts, e)
    ensures Failed(acts + more, e)
    ensures LastTested(acts, e) ==> LastTested(acts + more, e)
  {
    forall k | 0 <= k < |e.fails| ensures FailedAt(acts + more, e.fails[k], e.blks[k]) {
      assert FailedAt(acts, e.fails[k], e.blks[k]);
    }
    forall k | 0 <= k < |e.fails| && TestedAt(acts, e.fails[k], e.blks[k])
      ensures TestedAt(acts + more, e.fails[k], e.blks[k])
    {
    }
  }

  /** One more try, of block `b`, whose last program failed. */
  lemma FailedAgain(acts: seq<Act>, e: Effort, written: seq<Act>, b: nat)
    requires Failed(acts, e) && LastTested(acts, e) && |e.fails| == |e.blks|
    requires WritesTo(written, b) && Ended(written, false)
    ensures Failed(acts + written, Effort(e.blks + [b], e.fails + [|acts + written| - 1]))
  {
    var all, f := acts + written, Effort(e.blks + [b], e.fails + [|acts + written| - 1]);
    FailedMore(acts, e, written);
    forall k | 0 <= k < |f.fails| ensures FailedAt(all, f.fails[k], f.blks[k]) {
      if k < |e.fails| {
        assert FailedAt(all, e.fails[k], e.blks[k]);
      } else {
        assert all[|all| - 1] == written[|written| - 1];
      }
    }
    forall k | 0 <= k < |f.fails| - 1 ensures TestedAt(all, f.fails[k], f.blks[k]) {
      if k < |e.fails| - 1 {
        assert TestedAt(all, e.fails[k], e.blks[k]);
      }
    }
  }

  /** The block is tested then. */
  lemma TestedThen(acts: seq<Act>, e: Effort, probed: seq<Act>, b: nat)
    requires Failed(acts, e) && 0 < |e.fails| == |e.blks| && e.fails[|e.fails| - 1] + 1 == |acts|
    requires probed != [] && probed[0].Erasing? && probed[0].b == b == e.blks[|e.blks| - 1]
    ensures Failed(acts + probed, e) && LastTested(acts + probed, e)
  {
    FailedMore(acts, e, probed);
    assert (acts + probed)[|acts|] == probed[0];
  }

  // ---------------------------------------------------------------- where the scan looks in a block

  /** First page of the last whole copy that `pages` pages have room for, and one copy further. */
  function LastSlot(pages: nat, width: nat): (i: nat)
    requires width > 0
    ensures i + width > pages
  {
    DivModTimes(pages, width);
    Times(Div(pages, width), width)
  }

  /** First page of the middle copy. */
  function MiddleSlot(pages: nat, width: nat): nat
    requires width > 0
  {
    Times(Div(pages, width) / 2, width)
  }

  /** The first pages of slots `k` to 8, as far as they lie in the block. */
  function Slots(pages: nat, width: nat, k: nat): (r: seq<nat>)
    requires width > 0
    ensures |r| <= 9 - k || r == []
    decreases 9 - k
  {
    if k >= 9 || Times(k, width) >= pages then [] else [Times(k, width)] + Slots(pages, width, k + 1)
  }

  /** The pages that the search still turns to after nine failures. */
  function Jumps(pages: nat, blockPages: nat, width: nat): (r: seq<nat>)
    requires width > 0
    ensures |r| <= 2
  {
    if MiddleSlot(blockPages, width) >= pages then []
    else [MiddleSlot(blockPages, width)]
         + if LastSlot(blockPages, width) >= pages then [] else [LastSlot(blockPages, width)]
  }

  /** The pages at which the search for a readable one looks, in order, once slot `k` is next. */
  function Ahead(pages: nat, blockPages: nat, width: nat, k: nat): (r: seq<nat>)
    requires width > 0
    ensures k == 0 ==> |r| <= 11
  {
    Slots(pages, width, k) + if Times(8, width) < pages then Jumps(pages, blockPages, width) else []
  }

  /** The rest of the order when the search is at page `i` after `n` failures; `middle` counts the jumps down. */
  function Rest(pages: nat, blockPages: nat, width: nat, middle: int, i: nat, n: nat): (r: seq<nat>)
    requires width > 0
  {
    if middle == 0 then Ahead(pages, blockPages, width, n)
    else if i >= pages then []
    else if middle == -1 then
      [i] + if LastSlot(blockPages, width) >= pages then [] else [LastSlot(blockPages, width)]
    else [i]
  }

  /** The search at page `i` of the block: what comes after it. */
  lemma RestStep(pages: nat, blockPages: nat, width: nat, middle: int, i: nat, n: nat)
    requires 0 < width && pages <= blockPages && i < pages
    requires middle == 0 ==> n <= 8 && i == Times(n, width)
    ensures var next := if middle == 0 then
                          if n < 8 then Rest(pages, blockPages, width, 0, i + width, n + 1)
                          else Rest(pages, blockPages, width, -1, MiddleSlot(blockPages, width), n + 1)
                        else if middle == -1 then Rest(pages, blockPages, width, -2, LastSlot(blockPages, width), n + 1)
                        else [];
            Rest(pages, blockPages, width, middle, i, n) == [i] + next
  {
    if middle == 0 && n == 8 {
      assert Slots(pages, width, 9) == [];
    }
  }

  lemma RestEnds(pages: nat, blockPages: nat, width: nat, middle: int, i: nat, n: nat)
    requires 0 < width && pages <= i && (middle == 0 ==> n <= 8 && i == Times(n, width))
    ensures Rest(pages, blockPages, width, middle, i, n) == []
  {
    if middle == 0 {
      SlotsMonotone(n, 8, width);
    }
  }

  lemma TailStep(order: seq<nat>, n: nat, i: nat, rest: seq<nat>)
    requires n <= |order| && order[n..] == [i] + rest
    ensures n < |order| && order[n] == i && order[n + 1..] == rest
  {
    assert order[n..][0] == i && order[n..][1..] == rest;
  }

  function ScanOrder(pages: nat, blockPages: nat, width: nat): (r: seq<nat>)
    requires width > 0
    ensures |r| <= 11
  {
    Ahead(pages, blockPages, width, 0)
  }

  /** Reads of the first `n` pages of `order` that all failed. */
  ghost function FailedReads(b: nat, order: seq<nat>, n: nat): (acts: seq<Act>)
    requires n <= |order|
    ensures |acts| == n
  {
    seq(n, k requires 0 <= k < n => Reading(b, order[k], false))
  }

  lemma FailedReadsStart(log: seq<Act>, b: nat, order: seq<nat>)
    ensures log + FailedReads(b, order, 0) == log
  {
  }

  lemma FailedReadsMore(b: nat, order: seq<nat>, n: nat)
    requires n < |order|
    ensures FailedReads(b, order, n) + [Reading(b, order[n], false)] == FailedReads(b, order, n + 1)
  {
  }

  /** A search that failed at the first `n` pages of `order`, and then ended with a good read or with them. */
  ghost predicate Searched(acts: seq<Act>, b: nat, order: seq<nat>, n: nat, found: bool) {
    n <= |order| && (found <==> n < |order|)
    && acts == FailedReads(b, order, n) + if found then [Reading(b, order[n], true)] else []
  }

  /** The search is at page `i`, the first page of slot `slot`, after `n` failures. */
  ghost predicate Hunting(order: seq<nat>, n: nat, pages: nat, blockPages: nat, width: nat, middle: int, i: nat,
                          slot: nat, failed: nat)
    requires width > 0
  {
    n <= |order| && order[n..] == Rest(pages, blockPages, width, middle, i, n) && i == Times(slot, width)
    && (middle == 0 ==> failed == n == slot <= 8) && (middle == 0 || middle == -1 || middle == -2)
    && (middle == -2 ==> i >= pages || i == LastSlot(blockPages, width))
  }

  lemma HuntStarts(pages: nat, blockPages: nat, width: nat)
    requires width > 0
    ensures Hunting(ScanOrder(pages, blockPages, width), 0, pages, blockPages, width, 0, 0, 0, 0)
  {
    SlotNext(0, width);
  }

  /** The page in question is the next one of the order; without it the search goes on one slot further, or jumps. */
  lemma HuntStep(order: seq<nat>, n: nat, pages: nat, blockPages: nat, width: nat, middle: int, i: nat, slot: nat,
                 failed: nat)
    requires 0 < width && pages <= blockPages && i < pages
    requires Hunting(order, n, pages, blockPages, width, middle, i, slot, failed)
    ensures n < |order| && order[n] == i
    ensures var half := Div(blockPages, width) / 2;
            if middle == 0 && failed + 1 > 8 then
              Hunting(order, n + 1, pages, blockPages, width, -1, MiddleSlot(blockPages, width), half, failed + 1)
            else if middle == -1 then
              Hunting(order, n + 1, pages, blockPages, width, -2, LastSlot(blockPages, width), Div(blockPages, width),
                      failed + 1)
            else Hunting(order, n + 1, pages, blockPages, width, middle, i + width, slot + 1, failed + 1)
  {
    var rest := Rest(pages, blockPages, width, middle, i, n)[1..];
    RestStep(pages, blockPages, width, middle, i, n);
    TailStep(order, n, i, rest);
    SlotNext(slot, width);
  }

  lemma HuntEnds(order: seq<nat>, n: nat, pages: nat, blockPages: nat, width: nat, middle: int, i: nat, slot: nat,
                 failed: nat)
    requires width > 0 && pages <= i && Hunting(order, n, pages, blockPages, width, middle, i, slot, failed)
    ensures n == |order|
  {
    RestEnds(pages, blockPages, width, middle, i, n);
  }

  lemma SlotNext(k: nat, width: nat)
    ensures Times(k, width) + width == Times(k + 1, width) && Times(0, width) == 0
  {
    MulSucc(k, width);
  }

  lemma SlotsMonotone(j: nat, k: nat, width: nat)
    requires j <= k
    ensures Times(j, width) <= Times(k, width)
  {
    MulAdd(k - j, j, width);
    MulNat(k - j, width);
  }

  /** The slots from `k` on are the first pages of slots `k`, `k + 1`, ...; one is missing only for lack of room. */
  lemma {:induction false} SlotsAt(pages: nat, width: nat, k: nat)
    requires width > 0 && k <= 9
    ensures var r := Slots(pages, width, k);
            var end := k + |r|;
            && end <= 9 && (forall m :: k <= m < end ==> r[m - k] == Times(m, width) < pages)
            && (end < 9 ==> Times(end, width) >= pages)
    decreases 9 - k
  {
    if k < 9 && Times(k, width) < pages {
      SlotsAt(pages, width, k + 1);
      var r, rest := Slots(pages, width, k), Slots(pages, width, k + 1);
      forall m | k <= m < k + |r| ensures r[m - k] == Times(m, width) < pages {
        assert m > k ==> r[m - k] == rest[m - (k + 1)];
      }
    }
  }

  /** The order turns to the first page of slot `s` at its place number `k`. */
  lemma OrderAt(pages: nat, blockPages: nat, width: nat, k: nat) returns (s: nat)
    requires width > 0 && pages <= blockPages && k < |ScanOrder(pages, blockPages, width)|
    ensures ScanOrder(pages, blockPages, width)[k] == Times(s, width) < pages
    ensures k < 9 ==> s == k
    ensures k >= 9 ==> Times(8, width) < pages && k <= 10
    ensures k == 10 ==> Times(s, width) + width > pages
  {
    SlotsAt(pages, width, 0);
    var slots := Slots(pages, width, 0);
    if k < |slots| {
      s := k;
    } else {
      assert Times(8, width) < pages;
      s := if k == 9 then Div(blockPages, width) / 2 else Div(blockPages, width);
    }
  }

  /** The search looks at the first nine slots, the middle one and the one behind the last copy, where they are. */
  lemma ScanOrderCovers(pages: nat, blockPages: nat, width: nat, s: nat)
    requires width > 0 && pages <= blockPages && Times(s, width) < pages
    requires s < 9 || s == Div(blockPages, width) / 2 || s == Div(blockPages, width)
    ensures Times(s, width) in ScanOrder(pages, blockPages, width)
  {
    SlotsAt(pages, width, 0);
    var slots, order := Slots(pages, width, 0), ScanOrder(pages, blockPages, width);
    if s < |slots| {
      assert order[s] == Times(s, width);
    } else {
      SlotsMonotone(|slots|, s, width);
      assert |slots| == 9;
      SlotsMonotone(8, s, width);
      SlotsMonotone(Div(blockPages, width) / 2, Div(blockPages, width), width);
      assert order[9] == MiddleSlot(blockPages, width);
      assert s == Div(blockPages, width) ==> order[10] == LastSlot(blockPages, width);
    }
  }

  /** Before the search comes to a slot too short for a whole copy it has looked at every other page of its order. */
  lemma WholeBefore(pages: nat, blockPages: nat, width: nat, k: nat, p: nat) returns (j: nat)
    requires width > 0 && pages <= blockPages && k < |ScanOrder(pages, blockPages, width)|
    requires ScanOrder(pages, blockPages, width)[k] + width > pages
    requires p in ScanOrder(pages, blockPages, width) && p + width <= pages
    ensures j < k && ScanOrder(pages, blockPages, width)[j] == p
  {
    var order := ScanOrder(pages, blockPages, width);
    j :| 0 <= j < |order| && order[j] == p;
    var s := OrderAt(pages, blockPages, width, j);
    var t := OrderAt(pages, blockPages, width, k);
    if j >= k {
      assert j > k && k < 9;
      if s >= k {
        SlotsMonotone(k, s, width);
        assert false;
      }
      var q := OrderAt(pages, blockPages, width, s);
      j := s;
    }
  }
}
