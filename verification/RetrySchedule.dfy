/** Which read-retry setting each retry uses: the handlers of phy/new_nand.c and what a run of them covers. */
module RetrySchedule {
  import opened Arith
  import opened Sequences

  /** How many of the settings in `log` are `v`. */
  function Tally(log: seq<nat>, v: nat): nat {
    if log == [] then 0 else Tally(log[..|log| - 1], v) + (if log[|log| - 1] == v then 1 else 0)
  }

  lemma TallyAppend(log: seq<nat>, x: nat, v: nat)
    ensures Tally(log + [x], v) == Tally(log, v) + (if x == v then 1 else 0)
  {
    assert (log + [x])[..|log|] == log;
  }

  lemma {:induction false} TallyConcat(a: seq<nat>, b: seq<nat>, v: nat)
    ensures Tally(a + b, v) == Tally(a, v) + Tally(b, v)
  {
    if b == [] {
      assert a + b == a;
    } else {
      var last := |b| - 1;
      assert (a + b)[..|a| + last] == a + b[..last];
      TallyConcat(a, b[..last], v);
    }
  }

  // ---------------------------------------------------------------- a rotation covers every setting once

  /** `count` settings from `z` on, going round. */
  function Rotation(z: nat, count: nat, n: nat): (log: seq<nat>)
    requires n > 0
    ensures |log| == count
  {
    if count == 0 then [] else Rotation(z, count - 1, n) + [Mod(z + (count - 1), n)]
  }

  /** The one place where a full turn from `z` meets `v`. */
  function Meets(z: nat, v: nat, n: nat): (j: nat)
    requires v < n
    ensures j < n
  {
    var start := Mod(z, n);
    if start <= v then v - start else v + n - start
  }

  lemma ModShift(z: nat, j: nat, n: nat)
    requires j < n
    ensures Mod(z + j, n) == if Mod(z, n) + j < n then Mod(z, n) + j else Mod(z, n) + j - n
  {
    var q, rem := DivMod(z, n);
    if rem + j < n {
      DivUnique(z + j, n, q, rem + j);
    } else {
      MulSucc(q, n);
      DivUnique(z + j, n, q + 1, rem + j - n);
    }
  }

  lemma {:induction false} RotationTally(z: nat, count: nat, n: nat, v: nat)
    requires v < n && count <= n
    ensures Tally(Rotation(z, count, n), v) == if Meets(z, v, n) < count then 1 else 0
  {
    if count > 0 {
      RotationTally(z, count - 1, n, v);
      ModShift(z, count - 1, n);
      TallyAppend(Rotation(z, count - 1, n), Mod(z + (count - 1), n), v);
    }
  }

  // ---------------------------------------------------------------- the Hynix handler

  /** The setting that call number `c` uses, as the handler computes it. */
  function HynixSetting(c: nat, n: nat): (setting: nat)
    requires n > 0
    ensures setting < n
  {
    if c < n then c else Mod(Div(c, n) + Mod(c, n), n)
  }

  function HynixRun(c: nat, count: nat, n: nat): (log: seq<nat>)
    requires n > 0
    ensures |log| == count
  {
    if count == 0 then [] else HynixRun(c, count - 1, n) + [HynixSetting(c + (count - 1), n)]
  }

  /** Calls number `z * n + j` with `j < n` go round from `z`. */
  lemma HynixIsRotation(z: nat, j: nat, n: nat)
    requires j < n
    ensures HynixSetting(Times(z, n) + j, n) == Mod(z + j, n)
  {
    var c := Times(z, n) + j;
    DivUnique(c, n, z, j);
    if c < n {
      DivUnique(c, n, 0, c);
      DivUnique(z + j, n, 0, j);
    }
  }

  lemma {:induction false} HynixZone(z: nat, count: nat, n: nat)
    requires n > 0 && count <= n
    ensures HynixRun(Times(z, n), count, n) == Rotation(z, count, n)
  {
    if count > 0 {
      HynixZone(z, count - 1, n);
      HynixIsRotation(z, count - 1, n);
    }
  }

  lemma {:induction false} HynixSplit(c: nat, a: nat, b: nat, n: nat)
    requires n > 0
    ensures HynixRun(c, a + b, n) == HynixRun(c, a, n) + HynixRun(c + a, b, n)
  {
    if b > 0 {
      HynixSplit(c, a, b - 1, n);
      var x := [HynixSetting(c + a + (b - 1), n)];
      Regroup(HynixRun(c, a, n), HynixRun(c + a, b - 1, n), x);
    }
  }

  /** The zone of calls number `z * n` and up uses every setting once. */
  lemma HynixZoneTally(z: nat, n: nat, v: nat)
    requires v < n
    ensures Tally(HynixRun(Times(z, n), n, n), v) == 1
  {
    HynixZone(z, n, n);
    RotationTally(z, n, n, v);
  }

  lemma HynixMore(c: nat, n: nat, v: nat)
    requires v < n
    ensures Tally(HynixRun(0, c + n, n), v) == Tally(HynixRun(0, c, n), v) + Tally(HynixRun(c, n, n), v)
  {
    HynixSplit(0, c, n, n);
    TallyConcat(HynixRun(0, c, n), HynixRun(c, n, n), v);
  }

  lemma TimesNext(z: nat, n: nat)
    ensures Times(z + 1, n) == Times(z, n) + n && Times(0, n) == 0
  {
    MulSucc(z, n);
  }

  /** How often the first `calls` calls use setting `v`. */
  function HynixUses(calls: nat, n: nat, v: nat): nat
    requires n > 0
  {
    Tally(HynixRun(0, calls, n), v)
  }

  lemma HynixNextZone(z: nat, c: nat, n: nat, v: nat)
    requires v < n && c == Times(z, n)
    ensures HynixUses(c + n, n, v) == HynixUses(c, n, v) + 1
  {
    HynixMore(c, n, v);
    HynixZoneTally(z, n, v);
  }

  /** From a fresh counter, `rounds * n` calls use every setting exactly `rounds` times. */
  lemma {:induction false} HynixRounds(rounds: nat, n: nat, v: nat)
    requires v < n
    ensures HynixUses(Times(rounds, n), n, v) == rounds
  {
    if rounds > 0 {
      HynixRounds(rounds - 1, n, v);
      TimesNext(rounds - 1, n);
      HynixNextZone(rounds - 1, Times(rounds - 1, n), n, v);
    } else {
      TimesNext(0, n);
    }
  }

  // ---------------------------------------------------------------- the handlers

  /** One retry table: the number of settings and every chip's counter, an unsigned char. */
  class RetryTable {
    const n: nat
    const cur: array<nat>

    ghost predicate Valid()
      reads cur
    {
      0 < n < 256 && forall k :: 0 <= k < cur.Length ==> cur[k] < 256
    }

    constructor (n: nat, chips: nat)
      requires 0 < n < 256
      ensures Valid() && fresh(cur) && this.n == n && cur.Length == chips
      ensures forall k :: 0 <= k < chips ==> cur[k] == 0
    {
      this.n := n;
      cur := new nat[chips](_ => 0);
    }

    method HandleHynix(chip: nat) returns (setting: nat)
      requires Valid() && chip < cur.Length
      modifies cur
      ensures Valid() && setting == HynixSetting(old(cur[chip]), n)
      ensures cur[chip] == (old(cur[chip]) + 1) % 256
      ensures forall k :: 0 <= k < cur.Length && k != chip ==> cur[k] == old(cur[k])
    {
      var c := cur[chip];
      if c < n {
        setting := c;
      } else {
        var zone, offset := Div(c, n), Mod(c, n);
        setting := Mod(zone + offset, n);
      }
      cur[chip] := (c + 1) % 256;
    }

    /** Leaving a retry clears the counters of all chips, not only of this one. */
    method ExitHynix()
      requires Valid()
      modifies cur
      ensures Valid() && forall k :: 0 <= k < cur.Length ==> cur[k] == 0
    {
      for k := 0 to cur.Length
        invariant Valid() && forall m :: 0 <= m < k ==> cur[m] == 0
      {
        cur[k] := 0;
      }
    }

    /** Toshiba, Samsung, Micron and SanDisk 19nm: a counter that goes round. */
    method HandleWrap(chip: nat) returns (setting: nat)
      requires Valid() && chip < cur.Length && cur[chip] < n
      modifies cur
      ensures Valid() && setting == old(cur[chip]) && cur[chip] == Mod(old(cur[chip]) + 1, n)
      ensures forall k :: 0 <= k < cur.Length && k != chip ==> cur[k] == old(cur[k])
    {
      setting := cur[chip];
      var next := setting + 1;
      WrapIsMod(setting, n);
      cur[chip] := if next > n - 1 then 0 else next;
    }

    /** A read that never gets a clean page on a 20nm or 1ynm chip: `n * n` retries, `n` with every setting. */
    method ExhaustHynix(chip: nat) returns (ghost log: seq<nat>)
      requires Valid() && chip < cur.Length && cur[chip] == 0 && Times(n, n) < 256
      modifies cur
      ensures Valid() && forall k :: 0 <= k < cur.Length ==> cur[k] == 0
      ensures |log| == Times(n, n) && forall v :: 0 <= v < n ==> Tally(log, v) == n
    {
      log := [];
      for k := 0 to Times(n, n)
        invariant Valid() && cur[chip] == k && log == HynixRun(0, k, n)
      {
        var setting := HandleHynix(chip);
        log := log + [setting];
      }
      forall v: nat | v < n ensures Tally(log, v) == n {
        HynixRounds(n, n, v);
      }
      ExitHynix();
    }

    /** The same on a chip whose counter goes round: `n` retries, one with every setting, wherever it started. */
    method ExhaustWrap(chip: nat) returns (ghost log: seq<nat>)
      requires Valid() && chip < cur.Length && cur[chip] < n
      modifies cur
      ensures Valid() && forall k :: 0 <= k < cur.Length ==> cur[k] == old(cur[k])
      ensures |log| == n && forall v :: 0 <= v < n ==> Tally(log, v) == 1
    {
      log := [];
      ghost var z := cur[chip];
      DivUnique(z, n, 0, z);
      for k := 0 to n
        invariant Valid() && cur[chip] == Mod(z + k, n) && log == Rotation(z, k, n)
        invariant forall m :: 0 <= m < cur.Length && m != chip ==> cur[m] == old(cur[m])
      {
        var setting := HandleWrap(chip);
        log := log + [setting];
        ModStep(z + k, n);
      }
      ModTurn(z, n);
      forall v: nat | v < n ensures Tally(log, v) == 1 {
        RotationTally(z, n, n, v);
      }
    }
  }

  lemma WrapIsMod(c: nat, n: nat)
    requires c < n
    ensures Mod(c + 1, n) == if c + 1 > n - 1 then 0 else c + 1
  {
    if c + 1 < n {
      DivUnique(c + 1, n, 0, c + 1);
    } else {
      DivUnique(c + 1, n, 1, 0);
    }
  }

  lemma ModStep(x: nat, n: nat)
    requires n > 0
    ensures Mod(Mod(x, n) + 1, n) == Mod(x + 1, n)
  {
    WrapIsMod(Mod(x, n), n);
    var q, rem := DivMod(x, n);
    if rem + 1 < n {
      DivUnique(x + 1, n, q, rem + 1);
    } else {
      MulSucc(q, n);
      DivUnique(x + 1, n, q + 1, 0);
    }
  }

  lemma ModTurn(z: nat, n: nat)
    requires z < n
    ensures Mod(z + n, n) == z
  {
    DivUnique(z + n, n, 1, z);
  }
}
