/** Page address arithmetic: internal chips, planes, record blocks over several chips, and the SLC page maps. */
module Addressing {
  import opened Arith

  // ---------------------------------------------------------------- bits

  function Pow2(m: nat): (p: nat)
    ensures p >= 1
  {
    if m == 0 then 1 else 2 * Pow2(m - 1)
  }

  /** Bitwise or. */
  function Or(a: nat, b: nat): nat {
    if a == 0 then b
    else if b == 0 then a
    else 2 * Or(a / 2, b / 2) + (if a % 2 == 1 || b % 2 == 1 then 1 else 0)
  }

  predicate IsPow2(k: nat) {
    k == 1 || (k > 1 && k % 2 == 0 && IsPow2(k / 2))
  }

  lemma TimesDouble(q: nat, d: nat, e: nat)
    requires e == 2 * d
    ensures Times(q, e) == 2 * Times(q, d)
  {
    assert q * e == 2 * (q * d);
  }

  lemma Halves(a: nat, half: nat, bit: nat)
    requires bit < 2 && a == 2 * half + bit
    ensures a / 2 == half && a % 2 == bit
  {
  }

  lemma OrTwice(a: nat, b: nat, x: nat, y: nat, z: nat, half: nat, bit: nat)
    requires bit < 2 && a == 2 * x + 2 * half + bit && b == 2 * y && Or(x + half, y) == z + half
    ensures Or(a, b) == 2 * z + 2 * half + bit
  {
    Halves(a, x + half, bit);
    Halves(b, y, 0);
  }

  /** Low bits stay where they are when the other operand has none of them. */
  lemma {:induction false} OrShift(q: nat, k: nat, m: nat, rem: nat)
    requires rem < Pow2(m)
    ensures Or(Times(q, Pow2(m)) + rem, Times(k, Pow2(m))) == Times(Or(q, k), Pow2(m)) + rem
  {
    if m > 0 {
      var d, e := Pow2(m - 1), Pow2(m);
      var half, bit := rem / 2, rem % 2;
      OrShift(q, k, m - 1, half);
      TimesDouble(q, d, e);
      TimesDouble(k, d, e);
      TimesDouble(Or(q, k), d, e);
      OrTwice(Times(q, e) + rem, Times(k, e), Times(q, d), Times(k, d), Times(Or(q, k), d), half, bit);
    }
  }

  /** Below a power of two, or is plus. */
  lemma {:induction false} OrBelow(q: nat, k: nat)
    requires IsPow2(k) && q < k
    ensures Or(q, k) == q + k
  {
    if k > 1 {
      OrBelow(q / 2, k / 2);
    }
  }

  /** The highest power of two below `k` that is not one itself, and what is left of `k`. */
  lemma {:induction false} SplitHighest(k: nat) returns (low: nat)
    requires k >= 3 && !IsPow2(k)
    ensures 0 < low <= k - 2 && Or(low, k) == k
  {
    if k % 2 == 1 {
      low := 1;
      assert Or(0, k / 2) == k / 2;
    } else {
      var half := SplitHighest(k / 2);
      low := 2 * half;
    }
  }

  // ---------------------------------------------------------------- internal chips

  /** The row address sent for page `p` of a chip made of `inner` dies of `diePages` pages. */
  function Adjust(p: nat, diePages: nat, inner: nat): nat {
    if p < diePages then p else Or(p - diePages, Times(inner, diePages))
  }

  ghost predicate AdjustInjective(diePages: nat, inner: nat) {
    forall p: nat, q: nat :: p < q < Times(inner, diePages) ==> Adjust(p, diePages, inner) != Adjust(q, diePages, inner)
  }

  lemma AdjustStep(p: nat, diePages: nat, inner: nat, x: nat, y: nat, v: nat)
    requires p == diePages + x && y == Times(inner, diePages) && Or(x, y) == v
    ensures Adjust(p, diePages, inner) == v
  {
  }

  lemma AdjustIs(p: nat, m: nat, inner: nat, q: nat, rem: nat)
    requires rem < Pow2(m) && p == Pow2(m) + Times(q, Pow2(m)) + rem
    ensures Adjust(p, Pow2(m), inner) == Times(Or(q, inner), Pow2(m)) + rem
  {
    var d := Pow2(m);
    OrShift(q, inner, m, rem);
    AdjustStep(p, d, inner, Times(q, d) + rem, Times(inner, d), Times(Or(q, inner), d) + rem);
  }

  lemma TimesAdd(a: nat, b: nat, d: nat)
    ensures Times(a + b, d) == Times(a, d) + Times(b, d)
    ensures b >= 1 ==> Times(b, d) >= d
  {
    MulAdd(a, b, d);
    MulSign(b, d);
  }

  lemma DieBelow(q: nat, rem: nat, d: nat, inner: nat)
    requires d + Times(q, d) + rem < Times(inner, d)
    ensures q < inner
  {
    if q >= inner {
      TimesAdd(q - inner, inner, d);
      assert false;
    }
  }

  lemma DivTimes(x: nat, d: nat) returns (q: nat, rem: nat)
    requires d > 0
    ensures rem < d && x == Times(q, d) + rem
  {
    q, rem := DivMod(x, d);
  }

  /** With a power of two dies, every page beyond the first die moves up by the same distance. */
  lemma AdjustPow2(p: nat, m: nat, inner: nat)
    requires IsPow2(inner) && Pow2(m) <= p < Times(inner, Pow2(m))
    ensures Adjust(p, Pow2(m), inner) == p - Pow2(m) + Times(inner, Pow2(m))
  {
    var d := Pow2(m);
    var q, rem := DivTimes(p - d, d);
    AdjustIs(p, m, inner, q, rem);
    DieBelow(q, rem, d, inner);
    OrBelow(q, inner);
    TimesAdd(q, inner, d);
  }

  /** Two pages of a chip whose number of dies is not a power of two that get the same row address. */
  lemma AdjustCollides(m: nat, inner: nat) returns (p: nat, q: nat)
    requires inner >= 1 && !IsPow2(inner)
    ensures var d := Pow2(m); p < q < Times(inner, d) && Adjust(p, d, inner) == Adjust(q, d, inner)
  {
    var d := Pow2(m);
    var low := SplitHighest(inner);
    p, q := d, d + Times(low, d);
    AdjustIs(p, m, inner, 0, 0);
    AdjustIs(q, m, inner, low, 0);
    TimesAdd(0, low, d);
    TimesAdd(1 + low, inner - 1 - low, d);
    TimesAdd(low, 1, d);
    MulComm(1, d);
  }

  /**
   * With dies of a power of two pages, different pages of a chip get different row addresses exactly when the
   * number of dies is a power of two; with three dies, say, two pages share one.
   */
  lemma AdjustInjectiveIff(m: nat, inner: nat)
    requires inner >= 1
    ensures AdjustInjective(Pow2(m), inner) <==> IsPow2(inner)
  {
    var d := Pow2(m);
    if IsPow2(inner) {
      TimesAdd(0, inner, d);
      forall p: nat, q: nat | p < q < Times(inner, d) ensures Adjust(p, d, inner) != Adjust(q, d, inner) {
        if q >= d {
          AdjustPow2(q, m, inner);
          if p >= d {
            AdjustPow2(p, m, inner);
          }
        }
      }
    } else {
      var p, q := AdjustCollides(m, inner);
    }
  }

  // ---------------------------------------------------------------- planes

  /** Page `p` of the doubled blocks, in plane 0 or 1: block `b` is made of blocks `2b` and `2b + 1`. */
  function PlanePage(p: nat, plane: nat, perBlock: nat): nat
    requires perBlock > 0
  {
    (2 * (p / perBlock) + plane) * perBlock + p % perBlock
  }

  lemma PlanePageParts(p: nat, plane: nat, perBlock: nat)
    requires perBlock > 0
    ensures PlanePage(p, plane, perBlock) / perBlock == 2 * (p / perBlock) + plane
    ensures PlanePage(p, plane, perBlock) % perBlock == p % perBlock
  {
    DivUnique(PlanePage(p, plane, perBlock), perBlock, 2 * (p / perBlock) + plane, p % perBlock);
  }

  /** The split loses nothing: two plane pages are the same only for the same page and plane. */
  lemma PlanePageInjective(p: nat, a: nat, q: nat, b: nat, perBlock: nat)
    requires perBlock > 0 && a < 2 && b < 2 && PlanePage(p, a, perBlock) == PlanePage(q, b, perBlock)
    ensures p == q && a == b
  {
    PlanePageParts(p, a, perBlock);
    PlanePageParts(q, b, perBlock);
    var p0, p1 := DivMod(p, perBlock);
    var q0, q1 := DivMod(q, perBlock);
  }

  // ---------------------------------------------------------------- record blocks over several chips

  /** The chip that record block `b` is on. */
  function RecordChip(b: nat, chips: nat): nat
    requires chips > 0
  {
    b % chips
  }

  /** Its block there; the first `boot` blocks of the chip hold the boot loader. */
  function RecordBlock(b: nat, boot: nat, chips: nat): int
    requires chips > 0
  {
    (b - b % chips) / chips + boot - boot / chips
  }

  lemma {:induction false} DivMonotone(a: nat, b: nat, d: nat)
    requires d > 0 && a <= b
    ensures a / d <= b / d
  {
    if b >= d {
      DivStep(b, d);
      if a >= d {
        DivStep(a, d);
        DivMonotone(a - d, b - d, d);
      } else {
        DivSmall(a, d);
      }
    } else {
      DivSmall(a, d);
      DivSmall(b, d);
    }
  }

  lemma RecordBlockIs(b: nat, boot: nat, chips: nat)
    requires chips > 0
    ensures RecordBlock(b, boot, chips) == b / chips + boot - boot / chips
  {
    assert b - b % chips == (b / chips) * chips;
    DivUnique(b - b % chips, chips, b / chips, 0);
  }

  /** Record blocks share no physical block, and none of them is in the boot area of its chip. */
  lemma RecordBlocksApart(a: nat, b: nat, boot: nat, chips: nat)
    requires chips > 0 && boot <= a && boot <= b
    ensures RecordBlock(b, boot, chips) >= boot
    ensures RecordChip(a, chips) == RecordChip(b, chips) && RecordBlock(a, boot, chips) == RecordBlock(b, boot, chips)
            ==> a == b
  {
    RecordBlockIs(a, boot, chips);
    RecordBlockIs(b, boot, chips);
    DivMonotone(boot, b, chips);
    assert a == (a / chips) * chips + a % chips && b == (b / chips) * chips + b % chips;
  }

  /**
   * The record blocks behind the boot area go round the chips: with `first` turns of boot blocks in front, the block
   * of turn `turn` for chip `chip` is there, `turn` blocks behind the place where the boot area of a chip ends.
   */
  lemma RecordBlocksRound(first: nat, turn: nat, chip: nat, chips: nat)
    requires chip < chips
    ensures var boot := Times(first, chips);
            var b := boot + Times(turn, chips) + chip;
            RecordChip(b, chips) == chip && RecordBlock(b, boot, chips) == boot + turn
  {
    var boot := Times(first, chips);
    var b := boot + Times(turn, chips) + chip;
    MulAdd(first, turn, chips);
    DivUnique(b, chips, first + turn, chip);
    DivUnique(boot, chips, first, 0);
    RecordBlockIs(b, boot, chips);
  }

  // ---------------------------------------------------------------- SLC page lists

  /** Entry `i` of the page list of the older Hynix types: 0, 1, 2, 3, 6, 7, 10, 11, ..., 250, 251. */
  function HynixPage(i: nat): (p: nat)
    requires i < 128
  {
    if i < 2 then i else if i % 2 == 0 then 2 * i - 2 else 2 * i - 3
  }

  /** Entry `i` of the page list of the 1ynm type: 0, 1, 3, 5, ..., 253. */
  function Hynix1ynmPage(i: nat): (p: nat)
    requires i < 128
  {
    if i == 0 then 0 else 2 * i - 1
  }

  /** A device's SLC page map is one of the two lists, or every second page of the SanDisk 19nm type. */
  datatype SlcKind = Hynix | Hynix1ynm | Sandisk

  /** Pages of a block used in SLC mode; the lists are for blocks of 256 pages. */
  predicate SlcBlock(kind: SlcKind, perBlock: nat) {
    perBlock > 0 && (kind.Sandisk? || perBlock == 128)
  }

  function SlcPage(kind: SlcKind, i: nat, perBlock: nat): nat
    requires SlcBlock(kind, perBlock) && i < perBlock
  {
    match kind
    case Hynix => HynixPage(i)
    case Hynix1ynm => Hynix1ynmPage(i)
    case Sandisk => 2 * i
  }

  lemma SlcPagesClimb(kind: SlcKind, i: nat, j: nat, perBlock: nat)
    requires SlcBlock(kind, perBlock) && i < j < perBlock
    ensures SlcPage(kind, i, perBlock) < SlcPage(kind, j, perBlock) < 2 * perBlock
  {
  }

  /** Which pages of a block are on the list of its kind; with `SlcPagesClimb` this fixes the list entry by entry. */
  predicate OnList(kind: SlcKind, p: nat, perBlock: nat) {
    match kind
    case Hynix => p < 2 || (p < 252 && p % 4 >= 2)
    case Hynix1ynm => p == 0 || (p < 254 && p % 2 == 1)
    case Sandisk => p < 2 * perBlock && p % 2 == 0
  }

  lemma SlcListIs(kind: SlcKind, p: nat, perBlock: nat)
    requires SlcBlock(kind, perBlock)
    ensures OnList(kind, p, perBlock) <==> exists i: nat :: i < perBlock && SlcPage(kind, i, perBlock) == p
  {
    if OnList(kind, p, perBlock) {
      var i: nat := match kind
        case Hynix => if p < 2 then p else if p % 4 == 2 then (p + 2) / 2 else (p + 3) / 2
        case Hynix1ynm => (p + 1) / 2
        case Sandisk => p / 2;
      assert i < perBlock && SlcPage(kind, i, perBlock) == p;
    }
  }

  lemma SlcPageBound(kind: SlcKind, i: nat, perBlock: nat)
    requires SlcBlock(kind, perBlock) && i < perBlock
    ensures SlcPage(kind, i, perBlock) < 2 * perBlock
  {
  }

  /** Page `i` of SLC block `b`. */
  function SlcAt(kind: SlcKind, b: nat, i: nat, perBlock: nat): nat
    requires SlcBlock(kind, perBlock) && i < perBlock
  {
    Times(b, 2 * perBlock) + SlcPage(kind, i, perBlock)
  }

  lemma SlcAtParts(kind: SlcKind, b: nat, i: nat, perBlock: nat)
    requires SlcBlock(kind, perBlock) && i < perBlock
    ensures Div(SlcAt(kind, b, i, perBlock), 2 * perBlock) == b
    ensures Mod(SlcAt(kind, b, i, perBlock), 2 * perBlock) == SlcPage(kind, i, perBlock)
  {
    DivUnique(SlcAt(kind, b, i, perBlock), 2 * perBlock, b, SlcPage(kind, i, perBlock));
  }

  /** The physical page of logical page `l` of an SLC device that starts at physical page `offset`. */
  function SlcMap(kind: SlcKind, offset: nat, l: nat, perBlock: nat): nat
    requires SlcBlock(kind, perBlock)
  {
    SlcAt(kind, Div(offset, 2 * perBlock) + Div(l, perBlock), Mod(l, perBlock), perBlock)
  }

  /** The page map stays in the block that the logical page belongs to, at the listed page. */
  lemma SlcMapParts(kind: SlcKind, offset: nat, l: nat, perBlock: nat)
    requires SlcBlock(kind, perBlock)
    ensures var p, full := SlcMap(kind, offset, l, perBlock), 2 * perBlock;
            Div(p, full) == Div(offset, full) + Div(l, perBlock)
            && Mod(p, full) == SlcPage(kind, Mod(l, perBlock), perBlock)
            && (Mod(offset, full) == 0 ==> p >= offset)
  {
    var full := 2 * perBlock;
    SlcAtParts(kind, Div(offset, full) + Div(l, perBlock), Mod(l, perBlock), perBlock);
    DivModTimes(offset, full);
    TimesAdd(Div(offset, full), Div(l, perBlock), full);
  }

  /** Strictly increasing, so no two logical pages share a physical one. */
  lemma SlcMapClimbs(kind: SlcKind, offset: nat, l: nat, m: nat, perBlock: nat)
    requires SlcBlock(kind, perBlock) && l < m
    ensures SlcMap(kind, offset, l, perBlock) < SlcMap(kind, offset, m, perBlock)
  {
    var a, b := Div(l, perBlock), Div(m, perBlock);
    var i, j := Mod(l, perBlock), Mod(m, perBlock);
    var base := Div(offset, 2 * perBlock);
    DivMonotone(l, m, perBlock);
    DivModTimes(l, perBlock);
    DivModTimes(m, perBlock);
    if a == b {
      SlcPagesClimb(kind, i, j, perBlock);
    } else {
      SlcPageBound(kind, i, perBlock);
      TimesAdd(base + a, b - a, 2 * perBlock);
    }
  }

  /**
   * The filler page that a save on the 1ynm type writes behind page `i`, for `i >= 1`, is no page of the list;
   * the page behind the first one is.
   */
  lemma FillerIsFree(i: nat)
    requires i < 128
    ensures (forall j: nat :: j < 128 ==> Hynix1ynmPage(j) != Hynix1ynmPage(i) + 1) <==> i >= 1
  {
    if i == 0 {
      assert Hynix1ynmPage(1) == Hynix1ynmPage(0) + 1;
    }
  }

  // ---------------------------------------------------------------- transfers of several pages

  /** The page that turn `k` of a device read or write goes to: the SLC map never looks at the running address. */
  function TransferPage(slc: bool, kind: SlcKind, offset: nat, first: nat, k: nat, perBlock: nat): nat
    requires SlcBlock(kind, perBlock)
  {
    if slc then SlcMap(kind, offset, first, perBlock) else offset + first + k
  }

  /** The pages of one transfer are all different exactly when the device is not SLC or there is only one page. */
  lemma TransferPagesDiffer(slc: bool, kind: SlcKind, offset: nat, first: nat, count: nat, perBlock: nat)
    requires SlcBlock(kind, perBlock)
    ensures (forall j: nat, k: nat :: j < k < count ==>
               TransferPage(slc, kind, offset, first, j, perBlock)
               != TransferPage(slc, kind, offset, first, k, perBlock))
            <==> !slc || count <= 1
  {
    if slc && count > 1 {
      assert TransferPage(slc, kind, offset, first, 0, perBlock) == TransferPage(slc, kind, offset, first, 1, perBlock);
    }
  }
}
