/**
 * The request list and the work item of ntd/aml_ntd_blkdevs.c, as interleaved atomic steps: submitters put
 * requests on the list and queue the work; one worker takes them off.
 */
module RequestQueue {
  import opened Sequences

  type Request = nat

  /** Where the worker is: not running, about to look at the list, or carrying out a request. */
  datatype Worker = Idle | Looking | Busy(req: Request)

  /**
   * `kicks` submitters have added their request and not yet queued the work; `pending` says that the work is
   * queued. `submitted` and `completed` are histories.
   */
  datatype Dev = Dev(list: seq<Request>, kicks: nat, pending: bool, worker: Worker,
                     submitted: seq<Request>, completed: seq<Request>)

  const FRESH := Dev([], 0, false, Idle, [], [])

  datatype Action = Add(req: Request) | Kick | WorkStart | Take | Complete | Finish

  /** Can the action happen now? A work item does not start again while it is running. */
  predicate Enabled(d: Dev, a: Action) {
    match a
    case Add(_) => true
    case Kick => d.kicks > 0
    case WorkStart => d.pending && d.worker.Idle?
    case Take => d.worker.Looking? && d.list != []
    case Complete => d.worker.Busy?
    case Finish => d.worker.Looking? && d.list == []
  }

  function Next(d: Dev, a: Action): Dev
    requires Enabled(d, a)
  {
    match a
    case Add(r) => d.(list := d.list + [r], kicks := d.kicks + 1, submitted := d.submitted + [r])
    case Kick => d.(kicks := d.kicks - 1, pending := true)
    case WorkStart => d.(pending := false, worker := Looking)
    case Take => d.(list := d.list[1..], worker := Busy(d.list[0]))
    case Complete => d.(worker := Looking, completed := d.completed + [d.worker.req])
    case Finish => d.(worker := Idle)
  }

  function InFlight(w: Worker): seq<Request> {
    if w.Busy? then [w.req] else []
  }

  /** Nothing is lost, doubled or out of order, and a waiting request has somebody who will come for it. */
  ghost predicate Inv(d: Dev) {
    d.submitted == d.completed + (InFlight(d.worker) + d.list)
    && (d.list != [] ==> d.pending || !d.worker.Idle? || d.kicks > 0)
  }

  lemma StepKeeps(d: Dev, a: Action)
    requires Inv(d) && Enabled(d, a)
    ensures Inv(Next(d, a))
  {
    match a
    case Add(r) =>
      Regroup(d.completed, InFlight(d.worker) + d.list, [r]);
      Regroup(InFlight(d.worker), d.list, [r]);
    case Take =>
      assert d.list == [d.list[0]] + d.list[1..];
      assert [] + d.list == d.list;
    case Complete =>
      Regroup(d.completed, [d.worker.req], d.list);
      assert [] + d.list == d.list;
    case _ =>
  }

  // ---------------------------------------------------------------- runs

  ghost predicate IsRun(devs: seq<Dev>, actions: seq<Action>) {
    |devs| == |actions| + 1
    && forall i :: 0 <= i < |actions| ==> Enabled(devs[i], actions[i]) && devs[i + 1] == Next(devs[i], actions[i])
  }

  /** In every interleaving the completed requests are a prefix of the submitted ones, in their order. */
  lemma {:induction false} RunKeeps(devs: seq<Dev>, actions: seq<Action>, i: nat)
    requires IsRun(devs, actions) && devs[0] == FRESH && i <= |actions|
    ensures Inv(devs[i]) && devs[i].completed <= devs[i].submitted
    ensures |devs[i].submitted| == |devs[i].completed| + |InFlight(devs[i].worker)| + |devs[i].list|
  {
    if i > 0 {
      RunKeeps(devs, actions, i - 1);
      StepKeeps(devs[i - 1], actions[i - 1]);
    }
  }

  /** Nobody is on the way: no submitter before its kick, no work queued or running. */
  predicate Quiet(d: Dev) {
    d.kicks == 0 && !d.pending && d.worker.Idle?
  }

  /** Every quiet state has completed everything that was submitted. */
  lemma QuietIsDone(d: Dev)
    requires Inv(d) && Quiet(d)
    ensures d.list == [] && d.completed == d.submitted
  {
    assert d.completed + ([] + []) == d.completed;
  }

  /** The steps still to come when nothing more is submitted, at most. */
  function Work(d: Dev): nat {
    3 * d.kicks + (if d.pending then 2 else 0) + 2 * |d.list|
    + (match d.worker case Idle => 0 case Looking => 1 case Busy(_) => 2)
  }

  /** Never stuck: unless the state is quiet some step other than a submission can happen. */
  lemma AlwaysGoesOn(d: Dev) returns (a: Action)
    requires !Quiet(d)
    ensures !a.Add? && Enabled(d, a)
  {
    if d.kicks > 0 {
      a := Kick;
    } else if d.worker.Busy? {
      a := Complete;
    } else if d.worker.Looking? {
      a := if d.list == [] then Finish else Take;
    } else {
      a := WorkStart;
    }
  }

  lemma StepWorks(d: Dev, a: Action)
    requires Enabled(d, a) && !a.Add?
    ensures Work(Next(d, a)) < Work(d)
  {
  }

  /** Once submissions stop, every interleaving comes to rest within `Work` steps. */
  lemma {:induction false} RunEnds(devs: seq<Dev>, actions: seq<Action>)
    requires IsRun(devs, actions) && forall i :: 0 <= i < |actions| ==> !actions[i].Add?
    ensures |actions| + Work(devs[|actions|]) <= Work(devs[0])
    decreases |actions|
  {
    if actions != [] {
      var n := |actions| - 1;
      RunEnds(devs[..n + 1], actions[..n]);
      StepWorks(devs[n], actions[n]);
    }
  }

  /** ... and a run that cannot go on has completed every request, first come first served. */
  lemma RestIsDone(devs: seq<Dev>, actions: seq<Action>)
    requires IsRun(devs, actions) && devs[0] == FRESH
    requires forall a: Action :: !a.Add? ==> !Enabled(devs[|actions|], a)
    ensures devs[|actions|].completed == devs[|actions|].submitted
  {
    var d := devs[|actions|];
    RunKeeps(devs, actions, |actions|);
    if !Quiet(d) {
      var a := AlwaysGoesOn(d);
    } else {
      QuietIsDone(d);
    }
  }

  // ---------------------------------------------------------------- the worker loop

  function Flat(batches: seq<seq<Request>>): seq<Request> {
    if batches == [] then [] else batches[0] + Flat(batches[1..])
  }

  /** One device as the worker sees it. */
  class BlkDev {
    var list: seq<Request>
    var completed: seq<Request>

    constructor ()
      ensures list == [] && completed == []
    {
      list, completed := [], [];
    }

    /** The locked part of a submission. */
    method QueueRq(r: Request)
      modifies this`list
      ensures list == old(list) + [r]
    {
      list := list + [r];
    }

    method NextRequest() returns (r: Request, found: bool)
      modifies this`list
      ensures found <==> old(list) != []
      ensures found ==> old(list) == [r] + list
      ensures !found ==> list == old(list)
    {
      if list == [] {
        return 0, false;
      }
      r, found := list[0], true;
      list := list[1..];
    }

    /**
     * The work item: until the list is empty, take a request off and complete it. While request number `k` is
     * carried out the lock is open, and the requests of `arrivals[k]` join the list.
     */
    method BlktransWork(arrivals: seq<seq<Request>>) returns (done: nat)
      modifies this
      ensures list == [] && |completed| == |old(completed)| + done
      ensures completed == old(completed) + (old(list) + Joined(arrivals, done))
    {
      done := 0;
      while true
        invariant |completed| == |old(completed)| + done
        invariant completed + list == old(completed) + (old(list) + Joined(arrivals, done))
        decreases if done < |arrivals| then |arrivals| - done else 0, |list|
      {
        ghost var before, taken := completed, list;
        var r, found := NextRequest();
        if !found {
          break;
        }
        var batch := if done < |arrivals| then arrivals[done] else [];
        Turn(before, taken, r, list, batch, old(completed), old(list), Joined(arrivals, done));
        JoinedStep(arrivals, done);
        list := list + batch;
        completed := completed + [r];
        done := done + 1;
      }
    }
  }

  /** The requests that joined while the first `done` ones were carried out. */
  function Joined(arrivals: seq<seq<Request>>, done: nat): seq<Request> {
    Flat(arrivals[..if done < |arrivals| then done else |arrivals|])
  }

  lemma JoinedStep(arrivals: seq<seq<Request>>, done: nat)
    ensures Joined(arrivals, done + 1)
            == Joined(arrivals, done) + if done < |arrivals| then arrivals[done] else []
  {
    if done < |arrivals| {
      FlatStep(arrivals, done);
    }
  }

  lemma Turn(completed: seq<Request>, list: seq<Request>, r: Request, rest: seq<Request>, batch: seq<Request>,
             a: seq<Request>, b: seq<Request>, joined: seq<Request>)
    requires list == [r] + rest && completed + list == a + (b + joined)
    ensures (completed + [r]) + (rest + batch) == a + (b + (joined + batch))
  {
    assert (completed + [r]) + (rest + batch) == (completed + list) + batch;
    assert (a + (b + joined)) + batch == a + (b + (joined + batch));
  }

  lemma {:induction false} FlatStep(batches: seq<seq<Request>>, k: nat)
    requires k < |batches|
    ensures Flat(batches[..k + 1]) == Flat(batches[..k]) + batches[k]
    decreases k
  {
    if k > 0 {
      FlatStep(batches[1..], k - 1);
      assert batches[..k + 1][1..] == batches[1..][..k];
      assert batches[..k][1..] == batches[1..][..k - 1];
    }
  }
}
