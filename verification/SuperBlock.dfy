/** The bad-block table and the superblock view of it: block_isbad and block_markbad of phy/chip_operation.c. */
module SuperBlock {

  const GOOD := 0
  const USED_BAD := 1
  const FACTORY_BAD := 2

  type Table = seq<seq<nat>>

  /** A (super)block: `blk` is counted in doubled blocks when it spans both planes. */
  datatype Super = Super(multiChip: bool, twoPlane: bool, chipnr: nat, blk: nat)

  predicate Member(s: Super, chip: nat, b: nat) {
    (s.multiChip || chip == s.chipnr) && (if s.twoPlane then b == 2 * s.blk || b == 2 * s.blk + 1 else b == s.blk)
  }

  /** All entries that a call on `s` can touch are in the table. */
  ghost predicate InTable(t: Table, s: Super) {
    s.chipnr < |t| && forall c :: 0 <= c < |t| ==> |t[c]| > (if s.twoPlane then 2 * s.blk + 1 else s.blk)
  }

  ghost predicate AllGood(t: Table, s: Super) {
    forall c: nat, b: nat :: c < |t| && b < |t[c]| && Member(s, c, b) ==> t[c][b] == GOOD
  }

  /** The code reported for one entry. */
  function Code(entry: nat): int {
    if entry <= FACTORY_BAD then entry else -1
  }

  /** `code` is what one of the members of `s` reports. */
  ghost predicate ReportedBy(t: Table, s: Super, code: int) {
    exists c: nat, b: nat :: c < |t| && b < |t[c]| && Member(s, c, b) && Code(t[c][b]) == code
  }

  /** The table with exactly the members of `s` made bad. */
  function Marked(t: Table, s: Super): (r: Table)
    ensures |r| == |t|
    ensures forall c :: 0 <= c < |t| ==> |r[c]| == |t[c]| && forall b :: 0 <= b < |t[c]| ==>
              r[c][b] == if Member(s, c, b) then USED_BAD else t[c][b]
  {
    seq(|t|, c requires 0 <= c < |t| =>
      seq(|t[c]|, b requires 0 <= b < |t[c]| => if Member(s, c, b) then USED_BAD else t[c][b]))
  }

  /** What a marking call makes of the table: the entry tested is the one before the shift to doubled blocks. */
  function AfterMark(t: Table, s: Super, allowed: bool): Table
    requires s.chipnr < |t| && s.blk < |t[s.chipnr]|
  {
    if allowed && t[s.chipnr][s.blk] == GOOD then Marked(t, s) else t
  }

  // ---------------------------------------------------------------- the two operations

  class BadBlocks {
    /** One row of the table per chip. */
    const rows: array<seq<nat>>
    var bbtValid: bool

    constructor (chips: nat, blocks: nat)
      ensures fresh(rows) && !bbtValid && rows.Length == chips
      ensures forall c :: 0 <= c < chips ==> rows[c] == seq(blocks, _ => GOOD)
    {
      rows := new seq<nat>[chips](_ => seq(blocks, _ => GOOD));
      bbtValid := false;
    }

    method GetStatus(c: nat, b: nat) returns (code: int)
      requires c < rows.Length && b < |rows[c]|
      ensures code == Code(rows[c][b])
      ensures if rows[c][b] in {0, 1, 2} then code == rows[c][b] else code == -1
    {
      code := if rows[c][b] <= FACTORY_BAD then rows[c][b] else -1;
    }

    /** Plane 0, then plane 1, of doubled block `b` on chip `c`. */
    method GetPair(c: nat, b: nat) returns (code: int)
      requires c < rows.Length && 2 * b + 1 < |rows[c]|
      ensures code == if rows[c][2 * b] == GOOD then Code(rows[c][2 * b + 1]) else Code(rows[c][2 * b])
    {
      code := GetStatus(c, 2 * b);
      if code == GOOD {
        code := GetStatus(c, 2 * b + 1);
      }
    }

    /** A (super)block is reported good iff every member block is; a bad one with the code of one of its members. */
    method IsBad(s: Super) returns (code: int)
      requires InTable(rows[..], s)
      ensures code == GOOD <==> AllGood(rows[..], s)
      ensures ReportedBy(rows[..], s, code)
    {
      ghost var t := rows[..];
      if s.twoPlane && !s.multiChip {
        code := GetPair(s.chipnr, s.blk);
        assert Member(s, s.chipnr, 2 * s.blk) && Member(s, s.chipnr, 2 * s.blk + 1);
      } else if !s.twoPlane && s.multiChip {
        code := GOOD;
        for c := 0 to rows.Length
          invariant code == GOOD && forall k :: 0 <= k < c ==> t[k][s.blk] == GOOD
        {
          code := GetStatus(c, s.blk);
          assert Member(s, c, s.blk);
          if code != GOOD {
            return;
          }
        }
        assert Member(s, s.chipnr, s.blk);
      } else if s.twoPlane {
        code := GetStatus(s.chipnr, 2 * s.blk);
        assert Member(s, s.chipnr, 2 * s.blk);
        if code == GOOD {
          for c := 0 to rows.Length
            invariant code == GOOD
            invariant forall k :: 0 <= k < c ==> t[k][2 * s.blk] == GOOD && t[k][2 * s.blk + 1] == GOOD
          {
            code := GetPair(c, s.blk);
            assert Member(s, c, 2 * s.blk) && Member(s, c, 2 * s.blk + 1);
            if code != GOOD {
              return;
            }
          }
        }
      } else {
        code := GetStatus(s.chipnr, s.blk);
        assert Member(s, s.chipnr, s.blk);
      }
    }

    method SetBad(c: nat, b: nat)
      requires c < rows.Length && b < |rows[c]|
      modifies rows
      ensures rows[..] == old(rows[..])[c := old(rows[c])[b := USED_BAD]]
    {
      rows[c] := rows[c][b := USED_BAD];
    }

    /** Mark the members on one chip. */
    method SetOnChip(s: Super, c: nat)
      requires c < rows.Length && InTable(rows[..], s)
      modifies rows
      ensures rows[..] == old(rows[..])[c := rows[c]] && |rows[c]| == |old(rows[c])|
      ensures forall b :: 0 <= b < |rows[c]| ==>
                rows[c][b] == if Member(s.(multiChip := true), c, b) then USED_BAD else old(rows[c])[b]
    {
      if s.twoPlane {
        SetBad(c, 2 * s.blk);
        SetBad(c, 2 * s.blk + 1);
      } else {
        SetBad(c, s.blk);
      }
    }

    /** Marks exactly the members of `s`, or changes nothing: the guard is one entry, tested before the plane shift. */
    method MarkBad(s: Super, allowMarkbad: bool) returns (marked: bool)
      requires InTable(rows[..], s)
      modifies rows
      ensures rows[..] == AfterMark(old(rows[..]), s, allowMarkbad && bbtValid)
      ensures marked == (allowMarkbad && bbtValid && old(rows[s.chipnr])[s.blk] == GOOD)
    {
      marked := false;
      ghost var t := rows[..];
      if allowMarkbad && bbtValid && rows[s.chipnr][s.blk] == GOOD {
        marked := true;
        if s.multiChip {
          for c := 0 to rows.Length
            invariant forall k :: c <= k < rows.Length ==> rows[k] == t[k]
            invariant forall k :: 0 <= k < c ==> rows[k] == Marked(t, s)[k]
          {
            SetOnChip(s, c);
          }
        } else {
          SetOnChip(s, s.chipnr);
          assert rows[s.chipnr] == Marked(t, s)[s.chipnr];
          assert forall k :: 0 <= k < rows.Length && k != s.chipnr ==> rows[k] == Marked(t, s)[k];
        }
        assert rows[..] == Marked(t, s);
      }
    }
  }

  // ---------------------------------------------------------------- what marking does to the superblock view

  /** After a marking call the superblock is reported bad iff it already was, or the call took its marking branch. */
  lemma MarkedExactlyIf(t: Table, s: Super, allowed: bool)
    requires InTable(t, s)
    ensures !AllGood(AfterMark(t, s, allowed), s) <==> !AllGood(t, s) || (allowed && t[s.chipnr][s.blk] == GOOD)
  {
    if allowed && t[s.chipnr][s.blk] == GOOD {
      var b := if s.twoPlane then 2 * s.blk else s.blk;
      assert Member(s, s.chipnr, b);
      assert Marked(t, s)[s.chipnr][b] == USED_BAD;
    }
  }

  /** With one plane the guard is a member, so an allowed call on a table of known codes always leaves a bad block. */
  lemma OnePlaneAlwaysMarks(t: Table, s: Super)
    requires InTable(t, s) && !s.twoPlane
    ensures !AllGood(AfterMark(t, s, true), s)
  {
    assert Member(s, s.chipnr, s.blk);
    MarkedExactlyIf(t, s, true);
  }

  /** With two planes it is not: a good superblock beyond block 0 whose guard entry is bad stays good. */
  lemma TwoPlaneMarkCanMiss(t: Table, s: Super)
    requires InTable(t, s) && s.twoPlane && AllGood(t, s)
    ensures AllGood(AfterMark(t, s, true), s) <==> t[s.chipnr][s.blk] != GOOD
    ensures s.blk == 0 ==> !AllGood(AfterMark(t, s, true), s)
  {
    MarkedExactlyIf(t, s, true);
    assert Member(s, s.chipnr, 2 * s.blk);
  }

  lemma TwoPlaneMarkMisses()
    ensures var t := [[GOOD, USED_BAD, GOOD, GOOD]];
            var s := Super(false, true, 0, 1);
            InTable(t, s) && AllGood(t, s) && AllGood(AfterMark(t, s, true), s)
  {
  }

  /** Marking one superblock never changes how another one of the same shape is reported. */
  lemma MarkSparesOthers(t: Table, s: Super, other: Super, allowed: bool)
    requires InTable(t, s) && InTable(t, other)
    requires s.twoPlane == other.twoPlane && s.multiChip == other.multiChip
    requires s.blk != other.blk || (!s.multiChip && s.chipnr != other.chipnr)
    ensures AllGood(AfterMark(t, s, allowed), other) <==> AllGood(t, other)
  {
    var r := AfterMark(t, s, allowed);
    forall c: nat, b: nat | c < |t| && b < |t[c]| && Member(other, c, b) ensures r[c][b] == t[c][b] {
    }
  }
}
