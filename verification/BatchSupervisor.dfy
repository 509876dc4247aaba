/** The supervisor of the batch workers: one session, at most one replacement, and no partial answers. */
module BatchSupervisor {
  import Frames

  /** What one exchange with a worker comes to. */
  datatype Exchange = Answer(value: string) | Failed(reason: string)

  /** Killing a worker: what it had printed, or it would not die. */
  datatype Stop = Stopped(stderr: string) | StopStuck

  /** Closing a healthy session. */
  datatype Finish = Clean | Unclean(reason: string) | FinishStuck

  /** Everything outside the supervisor.  Workers are numbered in the order they are started. */
  datatype Environment = Environment(
    starts: nat -> bool,
    exchange: (nat, nat) -> Exchange,
    stop: nat -> Stop,
    finish: nat -> Finish)

  datatype Failure =
    | InvalidCases
    | CannotStart(worker: nat)
    | NotTerminated(worker: nat)
    | SessionFailed(worker: nat)
    | CaseFailed(index: nat, reason: string, stderr: string)

  datatype Outcome = Results(values: map<string, string>) | Raised(failure: Failure)

  /** A case: its name and the size of its frame. */
  datatype Case = Case(name: string, size: nat)

  class World {
    const env: Environment
    var started: nat
    var live: set<nat>
    /** The most workers that were ever alive at once. */
    var peak: nat
    /** Every exchange, in order: worker and case. */
    var log: seq<(nat, nat)>

    constructor (env: Environment)
      ensures this.env == env && started == 0 && live == {} && peak == 0 && log == []
    {
      this.env := env;
      started, live, peak, log := 0, {}, 0, [];
    }

    method Spawn() returns (ok: bool)
      modifies this
      ensures started == old(started) + 1 && log == old(log) && ok == env.starts(old(started))
      ensures live == if ok then old(live) + {old(started)} else old(live)
      ensures peak == if |live| > old(peak) then |live| else old(peak)
    {
      ok := env.starts(started);
      if ok {
        live := live + {started};
      }
      peak := if |live| > peak then |live| else peak;
      started := started + 1;
    }

    method Ask(worker: nat, index: nat) returns (r: Exchange)
      modifies this`log
      ensures r == env.exchange(worker, index) && log == old(log) + [(worker, index)]
    {
      log := log + [(worker, index)];
      r := env.exchange(worker, index);
    }

    method Kill(worker: nat) returns (r: Stop)
      modifies this`live
      ensures r == env.stop(worker) && live == if r.Stopped? then old(live) - {worker} else old(live)
    {
      r := env.stop(worker);
      if r.Stopped? {
        live := live - {worker};
      }
    }

    method Close(worker: nat) returns (r: Finish)
      modifies this`live
      ensures r == env.finish(worker) && live == if r.FinishStuck? then old(live) else old(live) - {worker}
    {
      r := env.finish(worker);
      if !r.FinishStuck? {
        live := live - {worker};
      }
    }
  }

  // ------------------------------------------------------------------ validation

  ghost predicate ValidCases(cases: seq<Case>) {
    && (forall i | 0 <= i < |cases| :: cases[i].name != [] && cases[i].size <= Frames.MAX_FRAME)
    && (forall i, j | 0 <= i < j < |cases| :: cases[i].name != cases[j].name)
  }

  method Validate(cases: seq<Case>) returns (ok: bool)
    ensures ok <==> ValidCases(cases)
  {
    var seen: set<string> := {};
    for i := 0 to |cases|
      invariant ValidCases(cases[..i]) && seen == set k | 0 <= k < i :: cases[k].name
    {
      if cases[i].name == [] || cases[i].name in seen || cases[i].size > Frames.MAX_FRAME {
        return false;
      }
      seen := seen + {cases[i].name};
    }
    assert cases[..|cases|] == cases;
    return true;
  }

  // ------------------------------------------------------------------ meaning

  /** The worker answers every case from `from` up to `to`. */
  ghost predicate Answers(env: Environment, worker: nat, from: nat, to: nat) {
    forall i | from <= i < to :: env.exchange(worker, i).Answer?
  }

  /** The first case the first worker fails; the number of cases if it fails none. */
  ghost function FirstFailure(env: Environment, n: nat): (k: nat)
    ensures k <= n && Answers(env, 0, 0, k) && (k < n ==> env.exchange(0, k).Failed?)
  {
    FailureFrom(env, 0, n)
  }

  ghost function FailureFrom(env: Environment, from: nat, n: nat): (k: nat)
    requires from <= n
    ensures from <= k <= n && Answers(env, 0, from, k) && (k < n ==> env.exchange(0, k).Failed?)
    decreases n - from
  {
    if from == n || env.exchange(0, from).Failed? then from else FailureFrom(env, from + 1, n)
  }

  /** A failure leaves earlier answers to trust and later cases to check. */
  ghost predicate Resumes(env: Environment, n: nat) {
    0 < FirstFailure(env, n) < n - 1
  }

  /** A second worker is started. */
  ghost predicate Replaces(env: Environment, n: nat) {
    env.starts(0) && Resumes(env, n) && env.stop(0).Stopped?
  }

  /** The error the first failed case gives rise to. */
  ghost function FirstError(env: Environment, n: nat): Failure
    requires FirstFailure(env, n) < n && env.stop(0).Stopped?
  {
    CaseFailed(FirstFailure(env, n), env.exchange(0, FirstFailure(env, n)).reason, env.stop(0).stderr)
  }

  /** The worker answers its whole share of the cases. */
  ghost predicate Served(env: Environment, worker: nat, n: nat) {
    if worker == 0 then FirstFailure(env, n) == n else Answers(env, worker, FirstFailure(env, n) + 1, n)
  }

  /** Ending the worker fails. */
  ghost predicate Lingers(env: Environment, worker: nat, n: nat) {
    if Served(env, worker, n) then env.finish(worker).FinishStuck? else env.stop(worker).StopStuck?
  }

  /** The exact condition for the first failure to be what is raised: its worker died, and a wanted
      replacement started and, if it failed too, died. */
  ghost predicate FirstFailureSurfaces(env: Environment, n: nat) {
    && env.stop(0).Stopped?
    && (Resumes(env, n) ==> env.starts(1) && (Served(env, 1, n) || env.stop(1).Stopped?))
  }

  /** One worker starts, answers every case and ends cleanly. */
  ghost predicate Succeeds(env: Environment, n: nat) {
    env.starts(0) && Served(env, 0, n) && env.finish(0).Clean?
  }

  /** What is raised once a case has failed. */
  ghost function RaisedFailure(env: Environment, n: nat): Failure
    requires FirstFailure(env, n) < n
  {
    if env.stop(0).StopStuck? then NotTerminated(0)
    else if Resumes(env, n) && !env.starts(1) then CannotStart(1)
    else if Resumes(env, n) && !Served(env, 1, n) && env.stop(1).StopStuck? then NotTerminated(1)
    else FirstError(env, n)
  }

  ghost predicate RaisesFirst(env: Environment, n: nat, r: Outcome)
    requires FirstFailure(env, n) < n
  {
    env.stop(0).Stopped? && r == Raised(FirstError(env, n))
  }

  ghost predicate AnswersCollected(env: Environment, cases: seq<Case>, values: map<string, string>) {
    && (forall name :: name in values <==> exists i :: 0 <= i < |cases| && cases[i].name == name)
    && (forall i | 0 <= i < |cases| ::
          cases[i].name in values && env.exchange(0, i).Answer? && values[cases[i].name] == env.exchange(0, i).value)
  }

  // ------------------------------------------------------------------ the loop

  /** One worker serves cases from `from` on, until it fails one. */
  method Serve(world: World, worker: nat, cases: seq<Case>, from: nat, observed0: map<string, string>)
      returns (index: nat, last: Exchange, observed: map<string, string>)
    requires from <= |cases| && |world.log| == from
    modifies world`log
    ensures from <= index <= |cases| && Answers(world.env, worker, from, index)
    ensures index < |cases| ==> last == world.env.exchange(worker, index) && last.Failed?
    ensures |world.log| == if index < |cases| then index + 1 else index
    ensures old(world.log) <= world.log
    ensures forall k | from <= k < |world.log| :: world.log[k] == (worker, k)
    ensures forall name :: name in observed <==> name in observed0 || exists i :: from <= i < index && cases[i].name == name
    ensures ValidCases(cases) ==> forall i | from <= i < index :: observed[cases[i].name] == world.env.exchange(worker, i).value
  {
    observed, last := observed0, Answer("");
    index := from;
    while index < |cases|
      invariant from <= index <= |cases| && Answers(world.env, worker, from, index)
      invariant |world.log| == index && old(world.log) <= world.log
      invariant forall k | from <= k < |world.log| :: world.log[k] == (worker, k)
      invariant forall name :: name in observed <==> name in observed0 || exists i :: from <= i < index && cases[i].name == name
      invariant ValidCases(cases) ==> forall i | from <= i < index :: observed[cases[i].name] == world.env.exchange(worker, i).value
    {
      last := world.Ask(worker, index);
      if last.Failed? {
        return;
      }
      observed := observed[cases[index].name := last.value];
      index := index + 1;
    }
  }

  /** The whole supervised session. */
  method RunBatch(world: World, cases: seq<Case>) returns (r: Outcome)
    requires world.started == 0 && world.live == {} && world.peak == 0 && world.log == []
    modifies world
    // at most one worker at a time, at most two in all
    ensures world.peak <= 1 && world.started <= 2
    // nothing is left running unless a worker could not be ended
    ensures world.live == {} || world.live == {world.started - 1}
    // a replacement is started exactly when the first worker died of a case that leaves others to check
    ensures world.started == if !ValidCases(cases) || cases == [] then 0
                             else if Replaces(world.env, |cases|) then 2 else 1
    ensures ValidCases(cases) && cases != [] ==>
              (world.live != {} <==> world.env.starts(world.started - 1) && Lingers(world.env, world.started - 1, |cases|))
    // results are exactly the answers of a wholly successful session
    ensures r.Results? <==> ValidCases(cases) && (cases == [] || Succeeds(world.env, |cases|))
    ensures r.Results? ==> AnswersCollected(world.env, cases, r.values)
    // what is raised when no case has failed
    ensures !ValidCases(cases) ==> r == Raised(InvalidCases)
    ensures ValidCases(cases) && cases != [] && !world.env.starts(0) ==> r == Raised(CannotStart(0))
    ensures ValidCases(cases) && cases != [] && world.env.starts(0) && Served(world.env, 0, |cases|) ==>
              world.env.finish(0).Clean? || r == Raised(SessionFailed(0))
    // once a case has failed, what is raised is the first failure, under the exact condition
    ensures ValidCases(cases) && world.env.starts(0) && !Served(world.env, 0, |cases|) ==>
              (FirstFailureSurfaces(world.env, |cases|) <==> RaisesFirst(world.env, |cases|, r))
              && r == Raised(RaisedFailure(world.env, |cases|))
    // each case up to the first failure is tried
    ensures ValidCases(cases) && world.env.starts(0) && !Served(world.env, 0, |cases|) ==>
              FirstFailure(world.env, |cases|) < |world.log|
    // no case is tried twice or skipped, and a replacement goes on right after the failed case
    ensures |world.log| <= |cases| && forall k | 0 <= k < |world.log| ::
              world.log[k] == (if k <= FirstFailure(world.env, |cases|) then 0 else 1, k)
  {
    hide ValidCases, AnswersCollected, FirstFailure;
    var ok := Validate(cases);
    if !ok {
      return Raised(InvalidCases);
    }
    if cases == [] {
      NothingToCollect(world.env);
      return Results(map[]);
    }
    var n := |cases|;
    ok := world.Spawn();
    if !ok {
      return Raised(CannotStart(0));
    }
    var index, last, observed := Serve(world, 0, cases, 0, map[]);
    FirstFailureIs(world.env, n, index);
    if index == n {
      Collected(world.env, cases, observed);
      var ended := world.Close(0);
      match ended {
        case Clean => return Results(observed);
        case Unclean(_) => return Raised(SessionFailed(0));
        case FinishStuck => return Raised(SessionFailed(0));
      }
    }
    var stopped := world.Kill(0);
    if stopped.StopStuck? {
      return Raised(NotTerminated(0));
    }
    var first := CaseFailed(index, last.reason, stopped.stderr);
    if index == 0 || index + 1 == n {
      return Raised(first);
    }
    r := Resume(world, cases, index, first);
  }

  lemma NothingToCollect(env: Environment)
    ensures AnswersCollected(env, [], map[])
  {
  }

  lemma Collected(env: Environment, cases: seq<Case>, observed: map<string, string>)
    requires ValidCases(cases) && Answers(env, 0, 0, |cases|)
    requires forall name :: name in observed <==> exists i :: 0 <= i < |cases| && cases[i].name == name
    requires forall i | 0 <= i < |cases| :: cases[i].name in observed && observed[cases[i].name] == env.exchange(0, i).value
    ensures AnswersCollected(env, cases, observed)
  {
  }

  lemma FirstFailureIs(env: Environment, n: nat, k: nat)
    requires k <= n && Answers(env, 0, 0, k) && (k < n ==> env.exchange(0, k).Failed?)
    ensures FirstFailure(env, n) == k
  {
    var f := FirstFailure(env, n);
    assert forall i: nat | i < k :: env.exchange(0, i).Answer?;
    assert forall i: nat | i < f :: env.exchange(0, i).Answer?;
    assert f < n ==> env.exchange(0, f).Failed?;
  }

  /** The replacement checks the cases after the failed one. */
  method Resume(world: World, cases: seq<Case>, index: nat, first: Failure) returns (r: Outcome)
    requires world.started == 1 && world.live == {} && world.peak <= 1 && |world.log| == index + 1
    requires 0 < index < |cases| - 1 && index == FirstFailure(world.env, |cases|)
    modifies world
    ensures r.Raised? && world.peak <= 1 && world.started == 2
    ensures world.live == {} || world.live == {1}
    ensures world.live != {} <==> world.env.starts(1) && Lingers(world.env, 1, |cases|)
    ensures r.failure == if !world.env.starts(1) then CannotStart(1)
                         else if Served(world.env, 1, |cases|) || world.env.stop(1).Stopped? then first
                         else NotTerminated(1)
    ensures old(world.log) <= world.log && |world.log| <= |cases|
    ensures forall k | index < k < |world.log| :: world.log[k] == (1, k)
  {
    var ok := world.Spawn();
    if !ok {
      return Raised(CannotStart(1));
    }
    var second, last, observed := Serve(world, 1, cases, index + 1, map[]);
    if second == |cases| {
      var ended := world.Close(1);
      return Raised(first);
    }
    assert !Answers(world.env, 1, index + 1, |cases|) by {
      assert world.env.exchange(1, second).Failed?;
    }
    var stopped := world.Kill(1);
    return Raised(if stopped.StopStuck? then NotTerminated(1) else first);
  }

  /** A worker that cannot be ended hides the failure it was to be ended for, and stays alive. */
  method StuckWorkerHidesFirst() returns (world: World, r: Outcome)
    ensures world.env.exchange(0, 1) == Failed("crash") && (0, 1) in world.log
    ensures r == Raised(NotTerminated(0)) && world.live == {0}
  {
    var env := Environment(w => true, (w, i) => if i == 1 then Failed("crash") else Answer(""),
                           w => StopStuck, w => Clean);
    var cases := [Case("a", 1), Case("b", 1), Case("c", 1)];
    FirstFailureIs(env, 3, 1);
    assert ValidCases(cases) && !Served(env, 0, 3);
    world := new World(env);
    r := RunBatch(world, cases);
    assert world.log[1] == (0, 1);
    assert !Replaces(env, 3);
  }

  /** A replacement that does not start hides the failure it was started for. */
  method StartFailureHidesFirst() returns (world: World, r: Outcome)
    ensures world.env.exchange(0, 1) == Failed("crash") && (0, 1) in world.log
    ensures r == Raised(CannotStart(1))
  {
    var env := Environment(w => w == 0, (w, i) => if i == 1 then Failed("crash") else Answer(""),
                           w => Stopped(""), w => Clean);
    var cases := [Case("a", 1), Case("b", 1), Case("c", 1)];
    FirstFailureIs(env, 3, 1);
    assert ValidCases(cases) && Resumes(env, 3) && !Served(env, 0, 3);
    world := new World(env);
    r := RunBatch(world, cases);
    assert world.log[1] == (0, 1);
  }
}
