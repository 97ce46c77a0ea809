/** Raw flash as the record store sees it: blocks of pages, and the edits it makes to one block. */
module Flash {

  type byte = x: int | 0 <= x < 256

  /** A page is erased, or carries data, the four-letter tag of its record and that save's time stamp. */
  datatype Page = Erased | Programmed(data: seq<byte>, name: string, stamp: nat)

  type Block = seq<Page>

  type Cells = seq<Block>

  // What the user bytes of an erased page read as.
  const ERASED_TAG: string := ['\U{00FF}', '\U{00FF}', '\U{00FF}', '\U{00FF}']

  function TagOf(p: Page): string {
    if p.Erased? then ERASED_TAG else p.name
  }

  function StampOf(p: Page): nat {
    if p.Erased? then 0xffff else p.stamp
  }

  /** The data area of a page; an erased page reads as all ones. */
  function DataOf(p: Page, pageSize: nat): seq<byte> {
    if p.Erased? then seq(pageSize, _ => 0xff as byte) else p.data
  }

  /** Every programmed page carries exactly one page of data. */
  predicate Sized(block: Block, pageSize: nat) {
    forall k :: 0 <= k < |block| && block[k].Programmed? ==> |block[k].data| == pageSize
  }

  function ErasedBlock(pages: nat): (b: Block)
    ensures |b| == pages && forall k :: 0 <= k < pages ==> b[k] == Erased
  {
    seq(pages, _ => Erased)
  }

  /** `copy` laid over `block` from page `base` on. */
  function Put(block: Block, base: nat, copy: seq<Page>): (r: Block)
    requires base + |copy| <= |block|
    ensures |r| == |block|
    ensures forall k :: 0 <= k < |block| ==>
              r[k] == if base <= k < base + |copy| then copy[k - base] else block[k]
  {
    block[..base] + copy + block[base + |copy|..]
  }

  lemma PutNothing(block: Block, base: nat)
    requires base <= |block|
    ensures Put(block, base, []) == block
  {
  }

  lemma PutOneMore(block: Block, base: nat, copy: seq<Page>, k: nat)
    requires k < |copy| && base + |copy| <= |block|
    ensures Put(block, base, copy[..k + 1]) == Put(block, base, copy[..k])[base + k := copy[k]]
  {
  }

  /** The block after copies of one record have been laid end to end from page `i` while they fit. */
  function Fill(block: Block, i: nat, copy: seq<Page>): (r: Block)
    requires |copy| > 0
    ensures |r| == |block|
    decreases |block| - i
  {
    if i + |copy| > |block| then block
    else Fill(Put(block, i, copy), i + |copy|, copy)
  }

  /** Filling from page `i` on leaves the pages before it alone. */
  lemma {:induction false} FillKeepsPrefix(block: Block, i: nat, copy: seq<Page>, k: nat)
    requires |copy| > 0 && k < i && k < |block|
    ensures Fill(block, i, copy)[k] == block[k]
    decreases |block| - i
  {
    if i + |copy| <= |block| {
      FillKeepsPrefix(Put(block, i, copy), i + |copy|, copy, k);
    }
  }

  /** Where slot `n` of a block starts when slots of `width` pages are laid from page `i` on. */
  function Slot(i: nat, width: nat, n: nat): (k: nat)
    ensures n == 0 ==> k == i
    ensures i <= k
    decreases n
  {
    if n == 0 then i else Slot(i + width, width, n - 1)
  }

  /** Every slot that fits in a filled block holds one whole copy. */
  lemma {:induction false} FillReplicates(block: Block, i: nat, copy: seq<Page>, n: nat, j: nat)
    requires |copy| > 0 && j < |copy|
    requires Slot(i, |copy|, n) + |copy| <= |block|
    ensures Fill(block, i, copy)[Slot(i, |copy|, n) + j] == copy[j]
    decreases n
  {
    var width := |copy|;
    var next := Put(block, i, copy);
    assert Fill(block, i, copy) == Fill(next, i + width, copy);
    if n == 0 {
      FillKeepsPrefix(next, i + width, copy, i + j);
    } else {
      FillReplicates(next, i + width, copy, n - 1, j);
    }
  }
}
