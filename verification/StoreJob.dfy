/** Bookkeeping for the page loop of a save: how far one copy has come. */
module StoreJob {
  import opened Flash
  import opened Paging
  import opened StoreSpec

  /** The states after each program or erase changed block `b` alone. */
  ghost predicate OnlyAt(before: Cells, steps: seq<Cells>, b: nat) {
    forall k :: 0 <= k < |steps| ==>
      |steps[k]| == |before| && forall c :: 0 <= c < |before| && c != b ==> steps[k][c] == before[c]
  }

  lemma FillOnlyAt(first: Cells, before: Cells, steps: seq<Cells>, more: seq<Cells>, b: nat)
    requires b < |first| && |before| == |first| && before == first[b := before[b]]
    requires OnlyAt(first, steps, b) && OnlyAt(before, more, b)
    ensures OnlyAt(first, steps + more, b)
  {
  }

  /** The parameters of one copy on its way to block `b`. */
  datatype Job = Job(before: Cells, b: nat, i: nat, buf: seq<byte>, pageSize: nat, name: string, stamp: nat) {
    ghost predicate Ok() {
      pageSize > 0 && b < |before| && i + |Split(buf, pageSize)| <= |before[b]|
    }

    ghost function Copy(): seq<Page>
      requires pageSize > 0
    {
      CopyOf(buf, pageSize, name, stamp)
    }

    /** `k` pages, `amount` bytes, are down; `steps` are the flash states so far and `now` is the last. */
    ghost predicate At(steps: seq<Cells>, now: Cells, k: nat, amount: nat) {
      Ok() && k <= |Copy()|
      && now == before[b := Put(before[b], i, Copy()[..k])]
      && steps == ProgramSteps(before, b, i, Copy())[..k]
      && Split(buf, pageSize)[k..] == Split(From(buf, amount), pageSize)
    }

    lemma Starts()
      requires Ok()
      ensures At([], before, 0, 0)
    {
      PutNothing(before[b], i);
      assert before[b := before[b]] == before;
      assert From(buf, 0) == buf;
    }

    /** The piece that the byte count points at is piece `k`. */
    lemma NextPiece(k: nat, amount: nat, len: nat)
      requires Ok() && k <= |Copy()| && Split(buf, pageSize)[k..] == Split(From(buf, amount), pageSize)
      requires amount < |buf| && len == PieceLen(|buf| - amount, pageSize)
      ensures k < |Copy()| && Copy()[k] == Programmed(Pad(buf[amount..amount + len], pageSize), name, stamp)
      ensures Split(buf, pageSize)[k + 1..] == Split(From(buf, amount + pageSize), pageSize)
    {
      SplitStep(buf, amount, pageSize);
      var pieces := Split(buf, pageSize);
      assert pieces[k] == pieces[k..][0];
      assert pieces[k + 1..] == pieces[k..][1..];
    }

    lemma OnePageMore(steps: seq<Cells>, now: Cells, k: nat, amount: nat, len: nat, next: Cells)
      requires At(steps, now, k, amount) && amount < |buf| && len == PieceLen(|buf| - amount, pageSize)
      requires k < |Copy()| ==>
                 next == now[b := now[b][i + k := Programmed(Pad(buf[amount..amount + len], pageSize), name, stamp)]]
      ensures k < |Copy()| && At(steps + [next], next, k + 1, amount + pageSize)
    {
      NextPiece(k, amount, len);
      PutOneMore(before[b], i, Copy(), k);
      assert next == before[b := Put(before[b], i, Copy()[..k + 1])];
      var all := ProgramSteps(before, b, i, Copy());
      assert all[k] == next;
      assert all[..k + 1] == all[..k] + [all[k]];
    }

    lemma Room(steps: seq<Cells>, now: Cells, k: nat, amount: nat)
      requires At(steps, now, k, amount) && amount < |buf|
      ensures i + k < |before[b]| && |now| == |before| && |now[b]| == |before[b]|
    {
      SplitStep(buf, amount, pageSize);
    }

    lemma Stops(steps: seq<Cells>, now: Cells, k: nat, amount: nat, next: Cells)
      requires At(steps, now, k, amount)
      requires b < |next| && b < |now| && next == now[b := next[b]]
      ensures OnlyAt(before, steps + [next], b) && next == before[b := next[b]]
    {
    }

    lemma Finishes(steps: seq<Cells>, now: Cells, k: nat, amount: nat)
      requires At(steps, now, k, amount) && amount >= |buf|
      ensures now == before[b := Put(before[b], i, Copy())] && steps == ProgramSteps(before, b, i, Copy())
      ensures OnlyAt(before, steps, b)
    {
      assert Copy()[..|Copy()|] == Copy();
    }

    /** Whole copies are down before page `k` of the block. */
    ghost predicate Filling(steps: seq<Cells>, now: Cells, k: nat) {
      pageSize > 0 && buf != [] && b < |before| && |now| == |before| && now == before[b := now[b]]
      && |now[b]| == |before[b]|
      && Fill(now[b], k, Copy()) == Fill(before[b], 0, Copy())
      && steps + FillSteps(now, b, k, Copy()) == FillSteps(before, b, 0, Copy())
      && OnlyAt(before, steps, b)
    }

    lemma FillingStarts()
      requires pageSize > 0 && buf != [] && b < |before|
      ensures Filling([], before, 0)
    {
      assert before[b := before[b]] == before;
    }

    lemma FillsOneMore(steps: seq<Cells>, now: Cells, k: nat, more: seq<Cells>, next: Cells)
      requires Filling(steps, now, k) && k + |Copy()| <= |before[b]|
      requires |next| == |now| && next == now[b := next[b]]
      requires next[b] == Put(now[b], k, Copy()) && more == ProgramSteps(now, b, k, Copy())
      ensures OnlyAt(now, more, b) ==> Filling(steps + more, next, k + |Copy()|)
    {
      assert next == before[b := next[b]];
      assert next == now[b := Put(now[b], k, Copy())];
      var rest := FillSteps(next, b, k + |Copy()|, Copy());
      assert FillSteps(now, b, k, Copy()) == more + rest;
      assert steps + more + rest == steps + (more + rest);
      if OnlyAt(now, more, b) {
        FillOnlyAt(before, now, steps, more, b);
      }
    }

    lemma FillingStops(steps: seq<Cells>, now: Cells, k: nat, more: seq<Cells>, next: Cells)
      requires Filling(steps, now, k) && OnlyAt(now, more, b)
      requires |next| == |now| && next == now[b := next[b]]
      ensures OnlyAt(before, steps + more, b) && next == before[b := next[b]]
    {
      FillOnlyAt(before, now, steps, more, b);
    }

    lemma FillingEnds(steps: seq<Cells>, now: Cells, k: nat)
      requires Filling(steps, now, k) && k + |Copy()| > |before[b]|
      ensures now == before[b := Fill(before[b], 0, Copy())] && steps == FillSteps(before, b, 0, Copy())
      ensures OnlyAt(before, steps, b)
    {
    }
  }
}
