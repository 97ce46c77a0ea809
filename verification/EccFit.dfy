/** Choosing the ECC mode and moving the user bytes: phy/hw_controller.c. */
module EccFit {
  import opened Arith
  import opened Flash

  /** One ECC mode: data bytes per step, parity bytes and user bytes that go with them. */
  datatype Mode = Mode(unit: nat, parity: nat, user: nat)

  /** The modes of the M8 controller; the first is the raw mode, which the search never reaches. */
  const BCH_LIST: seq<Mode> := [
    Mode(0, 0, 0), Mode(512, 14, 2), Mode(1024, 14, 2), Mode(1024, 42, 2), Mode(1024, 54, 2),
    Mode(1024, 70, 2), Mode(1024, 88, 2), Mode(1024, 106, 2), Mode(384, 106, 2)]

  datatype Choice = NoMatch | Choice(index: nat, steps: nat, oobAvail: nat, fill: int)

  ghost predicate Searchable(list: seq<Mode>, maxBch: nat, pageSize: nat) {
    1 <= maxBch <= |list| && forall i :: 1 <= i < maxBch ==> 0 < list[i].unit <= pageSize
  }

  function Overhead(m: Mode): nat {
    m.parity + m.user
  }

  function Codeword(m: Mode): nat {
    m.unit + Overhead(m)
  }

  lemma DivPositive(x: nat, d: nat)
    requires 0 < d <= x
    ensures Div(x, d) >= 1
  {
    DivStep(x, d);
  }

  function UnitsPerPage(m: Mode, pageSize: nat): (n: nat)
    requires 0 < m.unit <= pageSize
    ensures n >= 1
  {
    DivPositive(pageSize, m.unit);
    Div(pageSize, m.unit)
  }

  /** Do the mode's parity and user bytes fit a step's share of the spare area? */
  predicate Fits(m: Mode, pageSize: nat, oobSize: nat)
    requires 0 < m.unit <= pageSize
  {
    Div(oobSize, UnitsPerPage(m, pageSize)) >= Overhead(m)
  }

  /** The number of codewords that the page and its spare area have room for together. */
  function Steps(m: Mode, pageSize: nat, oobSize: nat): nat
    requires m.unit > 0
  {
    Div(pageSize + oobSize, Codeword(m))
  }

  /** The search from the top: the highest mode that fits, or none. */
  method Confirm(list: seq<Mode>, maxBch: nat, pageSize: nat, oobSize: nat) returns (c: Choice)
    requires Searchable(list, maxBch, pageSize)
    ensures c.NoMatch? <==> forall i :: 1 <= i < maxBch ==> !Fits(list[i], pageSize, oobSize)
    ensures c.Choice? ==>
              && 1 <= c.index < maxBch && Fits(list[c.index], pageSize, oobSize)
              && (forall i :: c.index < i < maxBch ==> !Fits(list[i], pageSize, oobSize))
              && c.steps == Steps(list[c.index], pageSize, oobSize)
              && c.oobAvail == Times(c.steps, list[c.index].user)
              && c.fill == oobSize - Times(c.steps, Overhead(list[c.index]))
  {
    var i := maxBch - 1;
    while i > 0
      invariant 0 <= i < maxBch
      invariant forall j :: i < j < maxBch ==> !Fits(list[j], pageSize, oobSize)
    {
      var m := list[i];
      if Fits(m, pageSize, oobSize) {
        var steps := Steps(m, pageSize, oobSize);
        return Choice(i, steps, Times(steps, m.user), oobSize - Times(steps, Overhead(m)));
      }
      i := i - 1;
    }
    c := NoMatch;
  }

  /** On the M8 list the highest fitting mode is one with the most parity. */
  lemma HighestIsStrongest(i: nat, j: nat)
    requires 1 <= i <= j < |BCH_LIST|
    ensures BCH_LIST[i].parity <= BCH_LIST[j].parity && BCH_LIST[j].user == 2
  {
    assert BCH_LIST[i].parity <= BCH_LIST[i + (j - i)].parity;
  }

  lemma FitsMeans(m: Mode, pageSize: nat, oobSize: nat)
    requires 0 < m.unit <= pageSize
    ensures Fits(m, pageSize, oobSize) <==> Times(UnitsPerPage(m, pageSize), Overhead(m)) <= oobSize
  {
    var n := UnitsPerPage(m, pageSize);
    var q, rem := DivMod(oobSize, n);
    MulComm(n, Overhead(m));
    if q >= Overhead(m) {
      MulAdd(q - Overhead(m), Overhead(m), n);
      MulNat(q - Overhead(m), n);
    } else {
      MulAdd(Overhead(m) - 1 - q, q, n);
      MulNat(Overhead(m) - 1 - q, n);
      MulSucc(Overhead(m) - 1, n);
    }
  }

  /** A mode fits iff the parity and user bytes of the whole units of a page fit the spare area together. */
  lemma FitsPlainly(m: Mode, pageSize: nat, oobSize: nat)
    requires 0 < m.unit <= pageSize
    ensures Fits(m, pageSize, oobSize) <==> Times(Div(pageSize, m.unit), m.parity + m.user) <= oobSize
  {
    FitsMeans(m, pageSize, oobSize);
  }

  /** The steps are as many codewords, of data, parity and user bytes, as page and spare area together have room for. */
  lemma StepsMean(m: Mode, pageSize: nat, oobSize: nat)
    requires m.unit > 0
    ensures var steps, word := Steps(m, pageSize, oobSize), m.unit + m.parity + m.user;
            Times(steps, word) <= pageSize + oobSize < Times(steps + 1, word)
    ensures Overhead(m) + m.unit == m.unit + m.parity + m.user
  {
    DivModTimes(pageSize + oobSize, Codeword(m));
    MulSucc(Steps(m, pageSize, oobSize), Codeword(m));
  }

  /** Spare bytes left once every unit of the page has its codeword. */
  function Spare(m: Mode, pageSize: nat, oobSize: nat): int
    requires 0 < m.unit <= pageSize
  {
    pageSize + oobSize - Times(UnitsPerPage(m, pageSize), Codeword(m))
  }

  lemma SpareIs(m: Mode, pageSize: nat, oobSize: nat)
    requires 0 < m.unit <= pageSize
    ensures Spare(m, pageSize, oobSize)
            == Mod(pageSize, m.unit) + oobSize - Times(UnitsPerPage(m, pageSize), Overhead(m))
  {
    var n, rem := DivMod(pageSize, m.unit);
    MulComm(n, m.unit);
    MulComm(n, Overhead(m));
    MulComm(n, Codeword(m));
    MulAdd(m.unit, Overhead(m), n);
  }

  /**
   * A fitting mode has at least one step per unit of the page, and exactly one per unit iff what is left over is
   * less than one more codeword; the spare area always has room for all parity and user bytes.
   */
  lemma StepsCover(m: Mode, pageSize: nat, oobSize: nat)
    requires 0 < m.unit <= pageSize && Fits(m, pageSize, oobSize)
    ensures var n, steps := UnitsPerPage(m, pageSize), Steps(m, pageSize, oobSize);
            && steps >= n
            && (steps == n <==> Spare(m, pageSize, oobSize) < Codeword(m))
            && Times(steps, Overhead(m)) <= oobSize
  {
    var n, w := UnitsPerPage(m, pageSize), Codeword(m);
    var steps, rem := DivMod(pageSize + oobSize, w);
    FitsMeans(m, pageSize, oobSize);
    SpareIs(m, pageSize, oobSize);
    StepsAgainst(n, steps, rem, w, pageSize + oobSize);
    if steps > n {
      UnitsBeyond(n, steps, m.unit, pageSize);
      MulComm(steps, m.unit);
      MulComm(steps, Overhead(m));
      MulComm(steps, w);
      MulAdd(m.unit, Overhead(m), steps);
    }
  }

  lemma StepsAgainst(n: nat, steps: nat, rem: nat, w: nat, total: nat)
    requires w > 0 && rem < w && total == steps * w + rem && total >= Times(n, w)
    ensures steps >= n && (steps == n <==> total - Times(n, w) < w)
  {
    if steps < n {
      MulAdd(n - 1 - steps, steps, w);
      MulNat(n - 1 - steps, w);
      MulSucc(n - 1, w);
      assert false;
    } else if steps > n {
      MulAdd(steps - n, n, w);
      MulSign(steps - n, w);
    }
  }

  lemma UnitsBeyond(n: nat, steps: nat, unit: nat, pageSize: nat)
    requires unit > 0 && n == Div(pageSize, unit) && steps > n
    ensures steps * unit > pageSize
  {
    var q, rem := DivMod(pageSize, unit);
    MulSucc(n, unit);
    MulAdd(steps - (n + 1), n + 1, unit);
    MulNat(steps - (n + 1), unit);
  }

  /** When the unit divides the page, the steps hold the whole page, and no more than it iff the spare is small. */
  lemma WholePage(m: Mode, pageSize: nat, oobSize: nat)
    requires 0 < m.unit <= pageSize && Fits(m, pageSize, oobSize) && Mod(pageSize, m.unit) == 0
    ensures var n := UnitsPerPage(m, pageSize);
            var data := Times(Steps(m, pageSize, oobSize), m.unit);
            && data >= pageSize
            && (data == pageSize <==> oobSize - Times(n, Overhead(m)) < Codeword(m))
  {
    var n, steps := UnitsPerPage(m, pageSize), Steps(m, pageSize, oobSize);
    StepsCover(m, pageSize, oobSize);
    SpareIs(m, pageSize, oobSize);
    var q, rem := DivMod(pageSize, m.unit);
    if steps > n {
      UnitsBeyond(n, steps, m.unit, pageSize);
    }
  }

  // ---------------------------------------------------------------- user bytes

  const PER_INFO_BYTE := 8

  /** Where user byte `j` lives in the info buffer: packed, or one or two bytes at the front of each eight. */
  function UserAt(packed: bool, userMode: nat, j: nat): nat {
    if packed then j else if userMode == 2 then PER_INFO_BYTE * (j / 2) + j % 2 else PER_INFO_BYTE * j
  }

  /** The last word that `n` user bytes need ends inside the buffer; pairs are complete. */
  ghost predicate UserFits(packed: bool, userMode: nat, n: nat, room: nat) {
    if packed then n <= room
    else if userMode == 2 then n % 2 == 0 && PER_INFO_BYTE * (n / 2) <= room
    else PER_INFO_BYTE * n <= room
  }

  /** Store a word, lowest byte first. */
  method PutWord(info: array<byte>, at: nat, low: byte, high: byte)
    requires at + 4 <= info.Length
    modifies info
    ensures info[at] == low && info[at + 1] == high
    ensures forall k :: 0 <= k < info.Length && !(at <= k < at + 4) ==> info[k] == old(info[k])
  {
    info[at], info[at + 1], info[at + 2], info[at + 3] := low, high, 0, 0;
  }

  /** Byte `k` of the info buffer is in none of the words (or packed bytes) that `n` user bytes take. */
  predicate OutsideUser(packed: bool, userMode: nat, n: nat, k: nat) {
    if packed then k >= n
    else k % PER_INFO_BYTE >= 4 || (if userMode == 2 then 2 * (k / PER_INFO_BYTE) >= n else k / PER_INFO_BYTE >= n)
  }

  lemma WordIsUser(userMode: nat, n: nat, times: nat, k: nat)
    requires if userMode == 2 then 2 * times < n else times < n
    requires PER_INFO_BYTE * times <= k < PER_INFO_BYTE * times + 4
    ensures !OutsideUser(false, userMode, n, k)
  {
    assert k / PER_INFO_BYTE == times;
  }

  method SetUserByte(info: array<byte>, oob: seq<byte>, packed: bool, userMode: nat)
    requires UserFits(packed, userMode, |oob|, info.Length)
    modifies info
    ensures forall j :: 0 <= j < |oob| ==>
              UserAt(packed, userMode, j) < info.Length && info[UserAt(packed, userMode, j)] == oob[j]
    ensures forall k :: 0 <= k < info.Length && OutsideUser(packed, userMode, |oob|, k) ==> info[k] == old(info[k])
  {
    if packed {
      for j := 0 to |oob|
        invariant forall k :: 0 <= k < j ==> info[k] == oob[k]
        invariant forall k :: j <= k < info.Length ==> info[k] == old(info[k])
      {
        info[j] := oob[j];
      }
      return;
    }
    var j, times := 0, 0;
    while j < |oob|
      invariant j <= |oob| && (if userMode == 2 then j == 2 * times else j == times)
      invariant forall k :: 0 <= k < j ==>
                  UserAt(packed, userMode, k) < PER_INFO_BYTE * times && info[UserAt(packed, userMode, k)] == oob[k]
      invariant forall k :: 0 <= k < info.Length && OutsideUser(packed, userMode, |oob|, k) ==>
                  info[k] == old(info[k])
      decreases |oob| - j
    {
      forall k | PER_INFO_BYTE * times <= k < PER_INFO_BYTE * times + 4
        ensures !OutsideUser(false, userMode, |oob|, k)
      {
        WordIsUser(userMode, |oob|, times, k);
      }
      if userMode == 2 {
        PutWord(info, PER_INFO_BYTE * times, oob[j], oob[j + 1]);
        j := j + 2;
      } else {
        PutWord(info, PER_INFO_BYTE * times, oob[j], 0);
        j := j + 1;
      }
      times := times + 1;
    }
  }

  method GetUserByte(info: array<byte>, n: nat, packed: bool, userMode: nat) returns (oob: seq<byte>)
    requires UserFits(packed, userMode, n, info.Length)
    ensures |oob| == n
    ensures forall j :: 0 <= j < n ==>
              UserAt(packed, userMode, j) < info.Length && oob[j] == info[UserAt(packed, userMode, j)]
  {
    if packed {
      return info[..n];
    }
    oob := [];
    var times := 0;
    while |oob| < n
      invariant |oob| <= n && (if userMode == 2 then |oob| == 2 * times else |oob| == times)
      invariant forall k :: 0 <= k < |oob| ==>
                  UserAt(packed, userMode, k) < info.Length && oob[k] == info[UserAt(packed, userMode, k)]
    {
      oob := oob + [info[PER_INFO_BYTE * times]];
      if userMode == 2 {
        oob := oob + [info[PER_INFO_BYTE * times + 1]];
      }
      times := times + 1;
    }
  }

  /** What was set is what is got, in every mode. */
  method UserRoundTrip(info: array<byte>, oob: seq<byte>, packed: bool, userMode: nat) returns (back: seq<byte>)
    requires UserFits(packed, userMode, |oob|, info.Length)
    modifies info
    ensures back == oob
  {
    SetUserByte(info, oob, packed, userMode);
    back := GetUserByte(info, |oob|, packed, userMode);
  }
}
