/** How a caller's buffer is cut into page-sized pieces on the way out and glued together on the way in. */
module Paging {
  import opened Arith
  import opened Flash

  /** One page of data: the piece, followed by zeros up to the page size. */
  function Pad(piece: seq<byte>, pageSize: nat): (data: seq<byte>)
    requires |piece| <= pageSize
    ensures |data| == pageSize
  {
    piece + seq(pageSize - |piece|, _ => 0 as byte)
  }

  function PieceLen(n: nat, pageSize: nat): (len: nat)
    ensures len <= n && len <= pageSize
  {
    if n < pageSize then n else pageSize
  }

  function Split(buf: seq<byte>, pageSize: nat): (pieces: seq<seq<byte>>)
    requires pageSize > 0
    ensures forall j :: 0 <= j < |pieces| ==> |pieces[j]| == pageSize
    ensures pieces == [] <==> buf == []
  {
    if buf == [] then []
    else
      var len := PieceLen(|buf|, pageSize);
      [Pad(buf[..len], pageSize)] + Split(buf[len..], pageSize)
  }

  /** The pages one copy of a record of `size` bytes takes: a whole spare page when the size is a multiple. */
  function ArgPages(size: nat, pageSize: nat): (n: nat)
    requires pageSize > 0
    ensures n > 0
  {
    if size < pageSize then 1 else 1 + ArgPages(size - pageSize, pageSize)
  }

  lemma {:induction false} ArgPagesIs(size: nat, pageSize: nat)
    requires pageSize > 0
    ensures ArgPages(size, pageSize) == size / pageSize + 1
  {
    if size < pageSize {
      DivSmall(size, pageSize);
    } else {
      ArgPagesIs(size - pageSize, pageSize);
      DivStep(size, pageSize);
    }
  }

  /** How many bytes of the caller's buffer a save copies out. */
  function SavedLen(size: nat, pageSize: nat): (n: nat)
    requires pageSize > 0
    ensures n >= size && n > 0
  {
    if size % pageSize == 0 then size + pageSize else size
  }

  /** What is left of the buffer once `amount` bytes have been taken. */
  function From(buf: seq<byte>, amount: nat): seq<byte> {
    if amount < |buf| then buf[amount..] else []
  }

  lemma SplitStep(buf: seq<byte>, amount: nat, pageSize: nat)
    requires pageSize > 0 && amount < |buf|
    ensures var len := PieceLen(|buf| - amount, pageSize);
            var pieces := Split(From(buf, amount), pageSize);
            && pieces != [] && pieces[0] == Pad(buf[amount..amount + len], pageSize)
            && pieces[1..] == Split(From(buf, amount + pageSize), pageSize)
  {
    var len := PieceLen(|buf| - amount, pageSize);
    assert From(buf, amount)[..len] == buf[amount..amount + len];
    assert From(buf, amount)[len..] == From(buf, amount + pageSize);
  }

  lemma {:induction false} SplitCount(buf: seq<byte>, pageSize: nat)
    requires pageSize > 0 && buf != []
    ensures |Split(buf, pageSize)| == ArgPages(|buf| - 1, pageSize)
    decreases |buf|
  {
    if |buf| > pageSize {
      SplitCount(buf[pageSize..], pageSize);
    } else {
      assert buf[PieceLen(|buf|, pageSize)..] == [];
    }
  }

  lemma {:induction false} SavedLenPages(size: nat, pageSize: nat)
    requires pageSize > 0
    ensures ArgPages(SavedLen(size, pageSize) - 1, pageSize) == ArgPages(size, pageSize)
    decreases size
  {
    if size >= pageSize {
      DivStep(size, pageSize);
      SavedLenPages(size - pageSize, pageSize);
    } else {
      DivSmall(size, pageSize);
    }
  }

  /** A save's page loop, driven by a byte count, writes exactly `ArgPages` pages. */
  lemma SavedPages(buf: seq<byte>, size: nat, pageSize: nat)
    requires pageSize > 0 && |buf| == SavedLen(size, pageSize)
    ensures |Split(buf, pageSize)| == ArgPages(size, pageSize)
  {
    SplitCount(buf, pageSize);
    SavedLenPages(size, pageSize);
  }

  /** What one turn of the read loop adds to the bytes read so far; `rest` is the part of the buffer still to fill. */
  function ReadPiece(p: Page, name: string, rest: seq<byte>, pageSize: nat): (piece: seq<byte>)
    requires p.Programmed? ==> |p.data| == pageSize
    ensures |piece| == PieceLen(|rest|, pageSize)
  {
    var len := PieceLen(|rest|, pageSize);
    seq(len, i requires 0 <= i < len => ByteOf(p, name, pageSize, i, rest[i]))
  }

  /** Byte `i` of what page `p` puts in place of `was`. */
  function ByteOf(p: Page, name: string, pageSize: nat, i: nat, was: byte): byte
    requires i < pageSize && (p.Programmed? ==> |p.data| == pageSize)
  {
    if TagOf(p) == name then DataOf(p, pageSize)[i] else was
  }

  /** What a read leaves in the caller's buffer `dst`: pages with another tag do not touch their share of it. */
  function ReadPages(block: Block, page: nat, name: string, dst: seq<byte>, pageSize: nat): (r: seq<byte>)
    requires pageSize > 0
    requires Sized(block, pageSize)
    ensures |r| == |dst|
    decreases |dst|
  {
    if dst == [] || page >= |block| then dst
    else
      ReadPiece(block[page], name, dst, pageSize)
      + ReadPages(block, page + 1, name, From(dst, pageSize), pageSize)
  }

  lemma ReadPagesStep(block: Block, at: nat, name: string, rest: seq<byte>, pageSize: nat)
    requires pageSize > 0 && Sized(block, pageSize) && rest != [] && at < |block|
    ensures ReadPages(block, at, name, rest, pageSize)
            == ReadPiece(block[at], name, rest, pageSize)
               + ReadPages(block, at + 1, name, From(rest, pageSize), pageSize)
  {
  }

  function CopyOf(buf: seq<byte>, pageSize: nat, name: string, stamp: nat): (copy: seq<Page>)
    requires pageSize > 0
    ensures |copy| == |Split(buf, pageSize)|
  {
    var pieces := Split(buf, pageSize);
    seq(|pieces|, j requires 0 <= j < |pieces| => Programmed(pieces[j], name, stamp))
  }

  predicate IsPiece(p: Page, piece: seq<byte>, name: string) {
    p.Programmed? && p.data == piece && p.name == name
  }

  /** The block holds, from page `page` on, exactly the pieces in `pieces`. */
  ghost predicate Holds(block: Block, page: nat, pieces: seq<seq<byte>>, name: string) {
    page + |pieces| <= |block|
    && forall j {:trigger pieces[j]} :: 0 <= j < |pieces| ==> IsPiece(block[page + j], pieces[j], name)
  }

  lemma HoldsTail(block: Block, page: nat, pieces: seq<seq<byte>>, name: string)
    requires pieces != [] && Holds(block, page, pieces, name)
    ensures Holds(block, page + 1, pieces[1..], name)
  {
    forall j {:trigger pieces[1..][j]} | 0 <= j < |pieces| - 1
      ensures IsPiece(block[page + 1 + j], pieces[1..][j], name)
    {
      assert IsPiece(block[page + (j + 1)], pieces[j + 1], name);
    }
  }

  lemma CopyHolds(block: Block, page: nat, buf: seq<byte>, pageSize: nat, name: string, stamp: nat)
    requires pageSize > 0
    requires page + |Split(buf, pageSize)| <= |block|
    requires block[page..page + |Split(buf, pageSize)|] == CopyOf(buf, pageSize, name, stamp)
    ensures Holds(block, page, Split(buf, pageSize), name)
  {
    var pieces := Split(buf, pageSize);
    forall j {:trigger pieces[j]} | 0 <= j < |pieces|
      ensures IsPiece(block[page + j], pieces[j], name)
    {
      assert block[page..page + |pieces|][j] == CopyOf(buf, pageSize, name, stamp)[j];
    }
  }

  /** The first page of a copy reads as the first bytes of the buffer. */
  lemma PieceReadsBack(p: Page, name: string, buf: seq<byte>, dst: seq<byte>, pageSize: nat)
    requires pageSize > 0 && 0 < |dst| <= |buf|
    requires IsPiece(p, Pad(buf[..PieceLen(|buf|, pageSize)], pageSize), name)
    ensures ReadPiece(p, name, dst, pageSize) == buf[..PieceLen(|dst|, pageSize)]
  {
    var len, take := PieceLen(|buf|, pageSize), PieceLen(|dst|, pageSize);
    assert buf[..len][..take] == buf[..take];
  }

  /** One turn of the read loop on a copy, for any destination. */
  lemma ReadsBackStep(block: Block, page: nat, name: string, buf: seq<byte>, dst: seq<byte>, pageSize: nat)
    requires pageSize > 0 && 0 < |dst| <= |buf| && Sized(block, pageSize)
    requires Holds(block, page, Split(buf, pageSize), name)
    ensures var take, len := PieceLen(|dst|, pageSize), PieceLen(|buf|, pageSize);
            && ReadPages(block, page, name, dst, pageSize)
               == buf[..take] + ReadPages(block, page + 1, name, dst[take..], pageSize)
            && Holds(block, page + 1, Split(buf[len..], pageSize), name)
  {
    var pieces := Split(buf, pageSize);
    assert IsPiece(block[page + 0], pieces[0], name);
    PieceReadsBack(block[page], name, buf, dst, pageSize);
    ReadPagesStep(block, page, name, dst, pageSize);
    HoldsTail(block, page, pieces, name);
  }

  /** Reading back a copy gives the saved bytes, whatever the destination held. */
  lemma {:induction false} ReadsBack(block: Block, page: nat, name: string,
                                     buf: seq<byte>, dst: seq<byte>, pageSize: nat)
    requires pageSize > 0 && |dst| <= |buf|
    requires Sized(block, pageSize)
    requires Holds(block, page, Split(buf, pageSize), name)
    ensures ReadPages(block, page, name, dst, pageSize) == buf[..|dst|]
    decreases |dst|
  {
    if dst != [] {
      TakeStep(buf, |dst|, pageSize);
      ReadsBackStep(block, page, name, buf, dst, pageSize);
      ReadsBack(block, page + 1, name, buf[PieceLen(|buf|, pageSize)..], dst[PieceLen(|dst|, pageSize)..], pageSize);
    }
  }

  lemma TakeStep(buf: seq<byte>, n: nat, pageSize: nat)
    requires pageSize > 0 && 0 < n <= |buf|
    ensures var take, len := PieceLen(n, pageSize), PieceLen(|buf|, pageSize);
            n - take <= |buf| - len && buf[..n] == buf[..take] + buf[len..][..n - take]
  {
  }

  // ---------------------------------------------------------------- copies of which only the first pages are in

  /** The first `amount` bytes of a buffer, then the zeros that a reader started from. */
  function Torn(buf: seq<byte>, amount: nat, n: nat): (r: seq<byte>)
    requires n <= |buf|
    ensures |r| == n
  {
    var whole := PieceLen(n, amount);
    buf[..whole] + seq(n - whole, _ => 0 as byte)
  }

  lemma TornWhole(buf: seq<byte>, amount: nat, n: nat)
    requires n <= |buf| && n <= amount
    ensures Torn(buf, amount, n) == buf[..n]
  {
  }

  /** From page `page` on, the block holds the first `j` of the pieces; the pages of the others carry another tag. */
  ghost predicate HoldsPart(block: Block, page: nat, pieces: seq<seq<byte>>, j: nat, name: string) {
    j <= |pieces| && page + |pieces| <= |block| && Holds(block, page, pieces[..j], name)
    && forall k :: page + j <= k < page + |pieces| ==> TagOf(block[k]) != name
  }

  lemma WholeIsPart(block: Block, page: nat, pieces: seq<seq<byte>>, name: string)
    requires Holds(block, page, pieces, name)
    ensures HoldsPart(block, page, pieces, |pieces|, name)
  {
    assert pieces[..|pieces|] == pieces;
  }

  lemma HoldsPartTail(block: Block, page: nat, pieces: seq<seq<byte>>, j: nat, name: string)
    requires pieces != [] && HoldsPart(block, page, pieces, j, name)
    ensures HoldsPart(block, page + 1, pieces[1..], if j == 0 then 0 else j - 1, name)
    ensures j == 0 ==> TagOf(block[page]) != name
    ensures j > 0 ==> IsPiece(block[page], pieces[0], name)
  {
    if j > 0 {
      HoldsTail(block, page, pieces[..j], name);
      assert pieces[..j][1..] == pieces[1..][..j - 1];
      assert IsPiece(block[page + 0], pieces[..j][0], name);
    }
  }

  lemma TornStep(buf: seq<byte>, j: nat, n: nat, pageSize: nat)
    requires pageSize > 0 && 0 < n <= |buf|
    ensures var take, len := PieceLen(n, pageSize), PieceLen(|buf|, pageSize);
            n - take <= |buf| - len
            && Torn(buf, Times(j, pageSize), n)
               == (if j == 0 then seq(take, _ => 0 as byte) else buf[..take])
                  + Torn(buf[len..], Times(if j == 0 then 0 else j - 1, pageSize), n - take)
  {
    if j > 0 {
      MulSucc(j - 1, pageSize);
      assert Times(j, pageSize) == Times(j - 1, pageSize) + pageSize;
    } else {
      assert Times(0, pageSize) == 0;
    }
  }

  /** The first page of such a copy: its bytes are in, or the destination is left alone. */
  lemma TornPiece(p: Page, name: string, buf: seq<byte>, j: nat, n: nat, pageSize: nat)
    requires pageSize > 0 && 0 < n <= |buf| && (p.Programmed? ==> |p.data| == pageSize)
    requires if j == 0 then TagOf(p) != name else IsPiece(p, Split(buf, pageSize)[0], name)
    ensures var take := PieceLen(n, pageSize);
            ReadPiece(p, name, seq(n, _ => 0 as byte), pageSize)
            == if j == 0 then seq(take, _ => 0 as byte) else buf[..take]
  {
    if j > 0 {
      PieceReadsBack(p, name, buf, seq(n, _ => 0 as byte), pageSize);
    }
  }

  lemma ZerosRest(n: nat, take: nat)
    requires take <= n
    ensures seq(n, _ => 0 as byte)[take..] == seq(n - take, _ => 0 as byte)
  {
  }

  /** One turn of the read loop on such a copy. */
  lemma ReadsTornStep(block: Block, page: nat, name: string, buf: seq<byte>, j: nat, n: nat, pageSize: nat)
    requires pageSize > 0 && 0 < n <= |buf| && Sized(block, pageSize)
    requires HoldsPart(block, page, Split(buf, pageSize), j, name)
    ensures var take := PieceLen(n, pageSize);
            ReadPages(block, page, name, seq(n, _ => 0 as byte), pageSize)
            == (if j == 0 then seq(take, _ => 0 as byte) else buf[..take])
               + ReadPages(block, page + 1, name, seq(n - take, _ => 0 as byte), pageSize)
  {
    HoldsPartTail(block, page, Split(buf, pageSize), j, name);
    TornPiece(block[page], name, buf, j, n, pageSize);
    ZerosRest(n, PieceLen(n, pageSize));
    ReadPagesStep(block, page, name, seq(n, _ => 0 as byte), pageSize);
  }

  lemma TornTail(block: Block, page: nat, name: string, buf: seq<byte>, j: nat, pageSize: nat)
    requires pageSize > 0 && buf != [] && HoldsPart(block, page, Split(buf, pageSize), j, name)
    ensures var len := PieceLen(|buf|, pageSize);
            HoldsPart(block, page + 1, Split(buf[len..], pageSize), if j == 0 then 0 else j - 1, name)
  {
    HoldsPartTail(block, page, Split(buf, pageSize), j, name);
  }

  /** Reading a copy of which `j` pages are in gives their bytes and leaves the rest of a zeroed destination alone. */
  lemma {:induction false} ReadsTorn(block: Block, page: nat, name: string, buf: seq<byte>, j: nat,
                                     n: nat, pageSize: nat)
    requires pageSize > 0 && n <= |buf| && Sized(block, pageSize)
    requires HoldsPart(block, page, Split(buf, pageSize), j, name)
    ensures ReadPages(block, page, name, seq(n, _ => 0 as byte), pageSize) == Torn(buf, Times(j, pageSize), n)
    decreases n
  {
    if n > 0 {
      TornStep(buf, j, n, pageSize);
      ReadsTornStep(block, page, name, buf, j, n, pageSize);
      TornTail(block, page, name, buf, j, pageSize);
      ReadsTorn(block, page + 1, name, buf[PieceLen(|buf|, pageSize)..], if j == 0 then 0 else j - 1,
                n - PieceLen(n, pageSize), pageSize);
    }
  }

  /** The pages of one copy have room for the whole record. */
  lemma {:induction false} PagesCover(size: nat, pageSize: nat)
    requires pageSize > 0
    ensures Times(ArgPages(size, pageSize), pageSize) > size
    decreases size
  {
    if size < pageSize {
      assert Times(1, pageSize) == pageSize;
    } else {
      PagesCover(size - pageSize, pageSize);
      MulSucc(ArgPages(size - pageSize, pageSize), pageSize);
    }
  }
}
