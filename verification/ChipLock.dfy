/**
 * The chip lock of dev/amlnf_ctrl.c as interleaved atomic steps: the chip state and its wait queue under the
 * spinlock `amlnf_lock`, and behind them the pin mutex with its idle flag.
 */
module ChipLock {

  /** Where a thread is: outside, in amlnand_get_device, using the chip, or in amlnand_release_device. */
  datatype PC =
    | Outside
    | GetSpin | Test | Claim | ClaimOut | WantMutex | SetFlag
    | Prepare | Enqueue | SleepOut | Asleep | Woken
    | Using
    | RelSpin | RelReady | RelWake | RelOut | TestFlag | ClearFlag | Unlock

  /**
   * `spin` and `owner` say who holds the spinlock and the mutex, `ready` is the chip state, `flag` the idle flag,
   * `queue` the wait queue and `sleepy` the threads whose task state is uninterruptible. `locks` and `unlocks`
   * count what has been done to the mutex.
   */
  datatype Lock = Lock(pc: seq<PC>, spin: int, ready: bool, owner: int, flag: bool,
                       queue: set<int>, sleepy: set<int>, locks: nat, unlocks: nat)

  const NOBODY := -1

  function Fresh(threads: nat): Lock {
    Lock(seq(threads, _ => Outside), NOBODY, true, NOBODY, false, {}, {}, 0, 0)
  }

  /** Can thread `t` take its next step? Only locks and sleeping hold a thread up. */
  predicate Enabled(s: Lock, t: nat)
    requires t < |s.pc|
  {
    match s.pc[t]
    case GetSpin => s.spin == NOBODY
    case RelSpin => s.spin == NOBODY
    case WantMutex => s.owner == NOBODY
    case Asleep => t !in s.sleepy
    case _ => true
  }

  /** Where thread `t` goes next. */
  function Goes(s: Lock, t: nat): PC
    requires t < |s.pc|
  {
    match s.pc[t]
    case Outside => GetSpin
    case GetSpin => Test
    case Test => if s.ready then Claim else Prepare
    case Claim => ClaimOut
    case ClaimOut => WantMutex
    case WantMutex => SetFlag
    case SetFlag => Using
    case Prepare => Enqueue
    case Enqueue => SleepOut
    case SleepOut => Asleep
    case Asleep => Woken
    case Woken => GetSpin
    case Using => RelSpin
    case RelSpin => RelReady
    case RelReady => RelWake
    case RelWake => RelOut
    case RelOut => TestFlag
    case TestFlag => if s.flag then ClearFlag else Outside
    case ClearFlag => Unlock
    case Unlock => Outside
  }

  /** What its step does to the shared fields. */
  function Effect(s: Lock, t: nat): Lock
    requires t < |s.pc|
  {
    match s.pc[t]
    case GetSpin | RelSpin => s.(spin := t)
    case ClaimOut | SleepOut | RelOut => s.(spin := NOBODY)
    case Claim => s.(ready := false)
    case RelReady => s.(ready := true)
    case WantMutex => s.(owner := t, locks := s.locks + 1)
    case Unlock => s.(owner := NOBODY, unlocks := s.unlocks + 1)
    case SetFlag => s.(flag := true)
    case ClearFlag => s.(flag := false)
    case Prepare => s.(sleepy := s.sleepy + {t})
    case RelWake => s.(sleepy := s.sleepy - s.queue)
    case Enqueue => s.(queue := s.queue + {t})
    case Woken => s.(queue := s.queue - {t})
    case _ => s
  }

  /** One atomic step of thread `t`. */
  function Next(s: Lock, t: nat): Lock
    requires t < |s.pc| && Enabled(s, t)
  {
    Effect(s, t).(pc := s.pc[t := Goes(s, t)])
  }

  // ---------------------------------------------------------------- the invariant

  predicate HoldsSpin(pc: PC) {
    pc.Test? || pc.Claim? || pc.ClaimOut? || pc.Prepare? || pc.Enqueue? || pc.SleepOut?
    || pc.RelReady? || pc.RelWake? || pc.RelOut?
  }

  /** Between claiming the chip state and giving it back. */
  predicate HoldsChip(pc: PC) {
    pc.ClaimOut? || pc.WantMutex? || pc.SetFlag? || pc.Using? || pc.RelSpin? || pc.RelReady?
  }

  predicate HoldsMutex(pc: PC) {
    pc.SetFlag? || pc.Using? || pc.RelSpin? || pc.RelReady? || pc.RelWake? || pc.RelOut?
    || pc.TestFlag? || pc.ClearFlag? || pc.Unlock?
  }

  predicate FlagUp(pc: PC) {
    HoldsMutex(pc) && !pc.SetFlag? && !pc.Unlock?
  }

  predicate InQueue(pc: PC) {
    pc.SleepOut? || pc.Asleep? || pc.Woken?
  }

  ghost predicate SpinOk(s: Lock) {
    forall t: nat :: t < |s.pc| ==> (s.spin == t <==> HoldsSpin(s.pc[t]))
  }

  ghost predicate MutexOk(s: Lock) {
    (forall t: nat :: t < |s.pc| ==> (s.owner == t <==> HoldsMutex(s.pc[t])))
    && (forall t: nat :: t < |s.pc| && HoldsMutex(s.pc[t]) ==> s.flag == FlagUp(s.pc[t]))
    && (s.flag ==> s.owner != NOBODY)
    && s.locks == s.unlocks + if s.owner == NOBODY then 0 else 1
  }

  ghost predicate ChipOk(s: Lock) {
    (forall t: nat :: t < |s.pc| && HoldsChip(s.pc[t]) ==> !s.ready)
    && (forall t: nat, u: nat :: t < u < |s.pc| ==> !(HoldsChip(s.pc[t]) && HoldsChip(s.pc[u])))
    && (!s.ready ==> exists t: nat :: t < |s.pc| && HoldsChip(s.pc[t]))
    && (forall t: nat :: t < |s.pc| && s.pc[t].Claim? ==> s.ready)
  }

  ghost predicate QueueOk(s: Lock) {
    (forall t: int :: t in s.queue <==> 0 <= t < |s.pc| && InQueue(s.pc[t]))
    && (forall t: int :: t in s.sleepy ==>
          0 <= t < |s.pc| && (s.pc[t].Enqueue? || s.pc[t].SleepOut? || s.pc[t].Asleep?))
    && (forall t: nat :: t < |s.pc| && s.pc[t].Enqueue? ==> t in s.sleepy)
  }

  predicate IsWaker(s: Lock, u: nat) {
    u < |s.pc| && s.pc[u].RelWake?
  }

  predicate IsHolder(s: Lock, u: nat) {
    u < |s.pc| && HoldsChip(s.pc[u])
  }

  /** A thread that sleeps, or is about to, does so while the chip is taken or the waker is on its way. */
  ghost predicate WakeOk(s: Lock) {
    (forall t: nat :: t < |s.pc| && s.pc[t].Prepare? ==> !s.ready)
    && (s.sleepy != {} && s.ready ==> exists t: nat :: IsWaker(s, t))
  }

  ghost predicate Inv(s: Lock) {
    -1 <= s.spin < |s.pc| && -1 <= s.owner < |s.pc|
    && SpinOk(s) && MutexOk(s) && ChipOk(s) && QueueOk(s) && WakeOk(s)
  }

  lemma FreshOk(threads: nat)
    ensures Inv(Fresh(threads))
  {
  }

  // ---------------------------------------------------------------- one step, field by field

  predicate PcMoves(s: Lock, t: nat, n: Lock)
    requires t < |s.pc|
  {
    n.pc == s.pc[t := Goes(s, t)]
  }

  predicate SpinMoves(s: Lock, t: nat, n: Lock)
    requires t < |s.pc|
  {
    var pc := s.pc[t];
    n.spin == if pc.GetSpin? || pc.RelSpin? then t
              else if pc.ClaimOut? || pc.SleepOut? || pc.RelOut? then NOBODY else s.spin
  }

  predicate ReadyMoves(s: Lock, t: nat, n: Lock)
    requires t < |s.pc|
  {
    n.ready == if s.pc[t].Claim? then false else if s.pc[t].RelReady? then true else s.ready
  }

  predicate MutexMoves(s: Lock, t: nat, n: Lock)
    requires t < |s.pc|
  {
    var pc := s.pc[t];
    && n.owner == (if pc.WantMutex? then t else if pc.Unlock? then NOBODY else s.owner)
    && n.flag == (if pc.SetFlag? then true else if pc.ClearFlag? then false else s.flag)
    && n.locks == s.locks + (if pc.WantMutex? then 1 else 0)
    && n.unlocks == s.unlocks + (if pc.Unlock? then 1 else 0)
  }

  predicate QueueMoves(s: Lock, t: nat, n: Lock)
    requires t < |s.pc|
  {
    var pc := s.pc[t];
    && n.queue == (if pc.Enqueue? then s.queue + {t} else if pc.Woken? then s.queue - {t} else s.queue)
    && n.sleepy == (if pc.Prepare? then s.sleepy + {t} else if pc.RelWake? then s.sleepy - s.queue else s.sleepy)
  }

  lemma Moves(s: Lock, t: nat)
    requires t < |s.pc| && Enabled(s, t)
    ensures var n := Next(s, t);
            PcMoves(s, t, n) && SpinMoves(s, t, n) && ReadyMoves(s, t, n) && MutexMoves(s, t, n) && QueueMoves(s, t, n)
  {
  }

  // ---------------------------------------------------------------- every step keeps the invariant

  lemma SpinKept(s: Lock, t: nat, n: Lock)
    requires t < |s.pc| && SpinOk(s) && -1 <= s.spin < |s.pc| && Enabled(s, t)
    requires PcMoves(s, t, n) && SpinMoves(s, t, n)
    ensures SpinOk(n) && -1 <= n.spin < |n.pc|
  {
  }

  lemma MutexKept(s: Lock, t: nat, n: Lock)
    requires t < |s.pc| && MutexOk(s) && -1 <= s.owner < |s.pc| && Enabled(s, t)
    requires PcMoves(s, t, n) && MutexMoves(s, t, n)
    ensures MutexOk(n) && -1 <= n.owner < |n.pc|
  {
  }

  /** Only one thread at a time holds the spinlock, so a thread that found the chip ready can rely on it. */
  lemma ChipKept(s: Lock, t: nat, n: Lock)
    requires t < |s.pc| && Enabled(s, t) && SpinOk(s) && ChipOk(s) && PcMoves(s, t, n) && ReadyMoves(s, t, n)
    ensures ChipOk(n)
  {
    ChipTaken(s, t, n);
    if !n.ready {
      if s.ready {
        assert HoldsChip(n.pc[t]);
      } else {
        var u: nat :| u < |s.pc| && HoldsChip(s.pc[u]);
        assert HoldsChip(n.pc[u]);
      }
    }
  }

  lemma ChipTaken(s: Lock, t: nat, n: Lock)
    requires t < |s.pc| && Enabled(s, t) && SpinOk(s) && ChipOk(s) && PcMoves(s, t, n) && ReadyMoves(s, t, n)
    ensures HoldsChip(n.pc[t]) ==> HoldsChip(s.pc[t]) || s.pc[t].Claim?
    ensures forall u: nat :: u < |s.pc| && HoldsChip(n.pc[u]) ==> !n.ready
    ensures forall u: nat :: u < |s.pc| && n.pc[u].Claim? ==> n.ready
  {
  }

  lemma QueueKept(s: Lock, t: nat, n: Lock)
    requires t < |s.pc| && SpinOk(s) && QueueOk(s) && Enabled(s, t) && PcMoves(s, t, n) && QueueMoves(s, t, n)
    ensures QueueOk(n)
  {
  }

  /** Whoever is about to sleep is in the queue when the waker comes: both work under the spinlock. */
  lemma SleepersQueued(s: Lock, t: nat)
    requires t < |s.pc| && SpinOk(s) && QueueOk(s) && s.pc[t].RelWake?
    ensures s.sleepy <= s.queue
  {
    forall u | u in s.sleepy ensures u in s.queue {
      assert HoldsSpin(s.pc[u]) ==> u == t;
    }
  }

  lemma WakeKept(s: Lock, t: nat, n: Lock)
    requires t < |s.pc| && Enabled(s, t) && SpinOk(s) && QueueOk(s) && WakeOk(s) && PcMoves(s, t, n)
    requires ReadyMoves(s, t, n) && QueueMoves(s, t, n)
    ensures WakeOk(n)
  {
    if s.pc[t].RelWake? {
      SleepersQueued(s, t);
      assert n.sleepy == {};
    } else if n.sleepy != {} && n.ready {
      if s.pc[t].RelReady? {
        assert IsWaker(n, t);
      } else {
        var u: nat :| IsWaker(s, u);
        assert IsWaker(n, u);
      }
    }
  }

  lemma StepKeeps(s: Lock, t: nat)
    requires Inv(s) && t < |s.pc| && Enabled(s, t)
    ensures Inv(Next(s, t))
  {
    var n := Next(s, t);
    Moves(s, t);
    SpinKept(s, t, n);
    MutexKept(s, t, n);
    ChipKept(s, t, n);
    QueueKept(s, t, n);
    WakeKept(s, t, n);
  }

  // ---------------------------------------------------------------- runs

  ghost predicate IsRun(states: seq<Lock>, who: seq<nat>) {
    |states| == |who| + 1
    && forall i :: 0 <= i < |who| ==>
         who[i] < |states[i].pc| && Enabled(states[i], who[i]) && states[i + 1] == Next(states[i], who[i])
  }

  lemma {:induction false} RunKeeps(states: seq<Lock>, who: seq<nat>, threads: nat, i: nat)
    requires IsRun(states, who) && states[0] == Fresh(threads) && i <= |who|
    ensures Inv(states[i]) && |states[i].pc| == threads
  {
    if i == 0 {
      FreshOk(threads);
    } else {
      RunKeeps(states, who, threads, i - 1);
      StepKeeps(states[i - 1], who[i - 1]);
    }
  }

  /** Mutual exclusion: at most one thread is between getting the device and releasing it, and it owns the mutex. */
  lemma OneUser(states: seq<Lock>, who: seq<nat>, threads: nat, i: nat, t: nat, u: nat)
    requires IsRun(states, who) && states[0] == Fresh(threads) && i <= |who|
    requires t < threads && u < threads
    ensures |states[i].pc| == threads
    ensures states[i].pc[t].Using? ==> states[i].owner == t && !states[i].ready && states[i].flag
    ensures states[i].pc[t].Using? && states[i].pc[u].Using? ==> t == u
  {
    RunKeeps(states, who, threads, i);
  }

  /** A release always finds the flag up, so it unlocks the mutex; and only the owner ever does. */
  lemma ReleaseUnlocks(states: seq<Lock>, who: seq<nat>, threads: nat, i: nat, t: nat)
    requires IsRun(states, who) && states[0] == Fresh(threads) && i <= |who| && t < threads
    ensures |states[i].pc| == threads
    ensures states[i].pc[t].TestFlag? ==> states[i].flag
    ensures states[i].pc[t].Unlock? ==> states[i].owner == t
    ensures states[i].locks == states[i].unlocks + (if states[i].owner == NOBODY then 0 else 1)
  {
    RunKeeps(states, who, threads, i);
  }

  /** No wake-up is missed: whoever sleeps while the chip is ready has a waker that is about to wake the queue. */
  lemma NoLostWakeUp(states: seq<Lock>, who: seq<nat>, threads: nat, i: nat, t: nat)
    requires IsRun(states, who) && states[0] == Fresh(threads) && i <= |who| && t < threads
    requires |states[i].pc| == threads && states[i].pc[t].Asleep? && t in states[i].sleepy
    ensures t in states[i].queue
    ensures exists u: nat :: u != t && (IsHolder(states[i], u) || IsWaker(states[i], u))
  {
    RunKeeps(states, who, threads, i);
    SleeperHasHelp(states[i], t);
  }

  lemma SleeperHasHelp(s: Lock, t: nat)
    requires Inv(s) && t < |s.pc| && s.pc[t].Asleep? && t in s.sleepy
    ensures t in s.queue
    ensures exists u: nat :: u != t && (IsHolder(s, u) || IsWaker(s, u))
  {
    if s.ready {
      assert exists u: nat :: IsWaker(s, u) && u != t;
    } else {
      var u: nat :| u < |s.pc| && HoldsChip(s.pc[u]);
      assert IsHolder(s, u);
    }
  }

  /** The waking step leaves nobody asleep. */
  lemma WakeWakesAll(s: Lock, t: nat)
    requires Inv(s) && t < |s.pc| && s.pc[t].RelWake?
    ensures Enabled(s, t) && Next(s, t).sleepy == {}
  {
    SleepersQueued(s, t);
  }

  // ---------------------------------------------------------------- no deadlock

  lemma SpinHolderGoes(s: Lock) returns (u: nat)
    requires Inv(s) && s.spin != NOBODY
    ensures u < |s.pc| && !s.pc[u].Outside? && Enabled(s, u)
  {
    u := s.spin;
    assert HoldsSpin(s.pc[u]);
  }

  lemma OwnerGoes(s: Lock) returns (u: nat)
    requires Inv(s) && s.owner != NOBODY
    ensures u < |s.pc| && !s.pc[u].Outside? && Enabled(s, u)
  {
    u := s.owner;
    assert HoldsMutex(s.pc[u]);
    if s.spin != NOBODY {
      u := SpinHolderGoes(s);
    }
  }

  /** As long as some thread is in the protocol, some thread in the protocol can take a step. */
  lemma NoDeadlock(s: Lock, t: nat) returns (u: nat)
    requires Inv(s) && t < |s.pc| && !s.pc[t].Outside?
    ensures u < |s.pc| && !s.pc[u].Outside? && Enabled(s, u)
  {
    u := t;
    if s.spin != NOBODY {
      u := SpinHolderGoes(s);
    } else if s.owner != NOBODY {
      u := OwnerGoes(s);
    } else if s.pc[t].Asleep? && t in s.sleepy {
      assert !s.ready;
      u :| 0 <= u < |s.pc| && HoldsChip(s.pc[u]);
    }
  }

  // ---------------------------------------------------------------- the shared fields, changed in place

  /** The lock as the driver keeps it; the two counts and the program counters are there for the specification. */
  class Shared {
    var spin: int
    var ready: bool
    var owner: int
    var flag: bool
    var queue: set<int>
    var sleepy: set<int>
    var pc: seq<PC>
    ghost var locks: nat
    ghost var unlocks: nat

    ghost function Now(): Lock
      reads this
    {
      Lock(pc, spin, ready, owner, flag, queue, sleepy, locks, unlocks)
    }

    constructor (threads: nat)
      ensures Now() == Fresh(threads)
    {
      spin, ready, owner, flag, queue, sleepy := NOBODY, true, NOBODY, false, {}, {};
      pc, locks, unlocks := seq(threads, _ => Outside), 0, 0;
    }

    /** amlnand_get_device up to the wait for the mutex: claim the chip, or queue up and sleep. */
    method StepGet(t: nat) returns (to: PC)
      requires t < |pc| && Enabled(Now(), t)
      requires pc[t].Outside? || pc[t].GetSpin? || pc[t].Test? || pc[t].Claim? || pc[t].ClaimOut?
               || pc[t].Prepare? || pc[t].Enqueue? || pc[t].SleepOut? || pc[t].Asleep? || pc[t].Woken?
      modifies this`spin, this`ready, this`queue, this`sleepy
      ensures Now().(pc := pc[t := to]) == Next(old(Now()), t)
    {
      match pc[t] {
        case Outside => to := GetSpin;
        case GetSpin => spin, to := t, Test;
        case Test => to := if ready then Claim else Prepare;
        case Claim => ready, to := false, ClaimOut;
        case ClaimOut => spin, to := NOBODY, WantMutex;
        case Prepare => sleepy, to := sleepy + {t}, Enqueue;
        case Enqueue => queue, to := queue + {t}, SleepOut;
        case SleepOut => spin, to := NOBODY, Asleep;
        case Asleep => to := Woken;
        case Woken => queue, to := queue - {t}, GetSpin;
      }
    }

    /** nand_get_chip and nand_release_chip: the mutex and the idle flag. */
    method StepPins(t: nat) returns (to: PC)
      requires t < |pc| && Enabled(Now(), t)
      requires pc[t].WantMutex? || pc[t].SetFlag? || pc[t].TestFlag? || pc[t].ClearFlag? || pc[t].Unlock?
      modifies this`owner, this`flag, this`locks, this`unlocks
      ensures Now().(pc := pc[t := to]) == Next(old(Now()), t)
    {
      match pc[t] {
        case WantMutex => owner, locks, to := t, locks + 1, SetFlag;
        case SetFlag => flag, to := true, Using;
        case TestFlag => to := if flag then ClearFlag else Outside;
        case ClearFlag => flag, to := false, Unlock;
        case Unlock => owner, unlocks, to := NOBODY, unlocks + 1, Outside;
      }
    }

    /** amlnand_release_device up to the pins: give the chip back and wake the queue. */
    method StepRelease(t: nat) returns (to: PC)
      requires t < |pc| && Enabled(Now(), t)
      requires pc[t].Using? || pc[t].RelSpin? || pc[t].RelReady? || pc[t].RelWake? || pc[t].RelOut?
      modifies this`spin, this`ready, this`sleepy
      ensures Now().(pc := pc[t := to]) == Next(old(Now()), t)
    {
      match pc[t] {
        case Using => to := RelSpin;
        case RelSpin => spin, to := t, RelReady;
        case RelReady => ready, to := true, RelWake;
        case RelWake => sleepy, to := sleepy - queue, RelOut;
        case RelOut => spin, to := NOBODY, TestFlag;
      }
    }

    method Step(t: nat)
      requires t < |pc| && Enabled(Now(), t)
      modifies this
      ensures Now() == Next(old(Now()), t)
    {
      var to;
      match pc[t] {
        case WantMutex | SetFlag | TestFlag | ClearFlag | Unlock => to := StepPins(t);
        case Using | RelSpin | RelReady | RelWake | RelOut => to := StepRelease(t);
        case _ => to := StepGet(t);
      }
      pc := pc[t := to];
    }

    /** Give thread `t` a turn; one that is held up stays where it is. */
    method Turn(t: nat)
      requires Inv(Now())
      modifies this
      ensures Inv(Now()) && |pc| == |old(pc)|
    {
      if t < |pc| && Enabled(Lock(pc, spin, ready, owner, flag, queue, sleepy, 0, 0), t) {
        StepKeeps(Now(), t);
        Step(t);
      }
    }

    /** Whatever the scheduler does, at most one thread ends up using the chip, and it owns the mutex. */
    method Run(schedule: seq<nat>)
      requires Inv(Now())
      modifies this
      ensures Inv(Now()) && |pc| == |old(pc)|
      ensures forall t: nat :: t < |pc| && pc[t].Using? ==> owner == t
    {
      for i := 0 to |schedule|
        invariant Inv(Now()) && |pc| == |old(pc)|
      {
        Turn(schedule[i]);
      }
    }
  }
}
