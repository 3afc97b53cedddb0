/** Value iteration for a finite MDP whose transition model is known:
    in-place (Gauss-Seidel) sweeps of the Bellman optimality backup until the
    largest change in a sweep falls below theta, then a deterministic greedy
    policy read off the final values. */
module DpValueIteration {
  import opened Tables

  /** One entry of `env.P[s][a]`: (prob, next_state, reward, done). */
  datatype Outcome = Outcome(prob: real, next: nat, reward: real, done: bool)

  /** The parts of the environment value iteration reads: `env.nS`, `env.nA`, `env.P`. */
  datatype Env = Env(nS: nat, nA: nat, P: seq<seq<seq<Outcome>>>)
  {
    /** A table of nS rows of nA outcome lists whose next states are states. */
    predicate Valid()
    {
      nA > 0 && |P| == nS &&
      (forall s :: 0 <= s < nS ==> |P[s]| == nA) &&
      (forall s, a, k :: 0 <= s < nS && 0 <= a < nA && 0 <= k < |P[s][a]| ==> P[s][a][k].next < nS)
    }
  }

  predicate NextsBelow(outs: seq<Outcome>, n: nat)
  {
    forall k :: 0 <= k < |outs| ==> outs[k].next < n
  }

  /** `sum prob * (reward + gamma * V[next])` over the outcomes, accumulated in order. */
  function Backup(outs: seq<Outcome>, gamma: real, V: seq<real>): real
    requires NextsBelow(outs, |V|)
    decreases |outs|
  {
    if outs == [] then 0.0
    else
      var o := outs[|outs| - 1];
      Backup(outs[..|outs| - 1], gamma, V) + o.prob * (o.reward + gamma * V[o.next])
  }

  /** The one-step lookahead row `A` for state s under values V. */
  function ActionValues(env: Env, gamma: real, V: seq<real>, s: nat): (A: seq<real>)
    requires env.Valid() && |V| == env.nS && s < env.nS
    ensures |A| == env.nA
    ensures forall a :: 0 <= a < env.nA ==> A[a] == Backup(env.P[s][a], gamma, V)
  {
    seq(env.nA, a requires 0 <= a < env.nA => Backup(env.P[s][a], gamma, V))
  }

  /** `best_action_value = np.max(A)`: the value a sweep writes at state s when
      the current values are W (0.0 for inputs outside the model, which no
      caller supplies). */
  function BestValue(env: Env, gamma: real, W: seq<real>, s: nat): real
  {
    if env.Valid() && |W| == env.nS && s < env.nS then Max(ActionValues(env, gamma, W, s)) else 0.0
  }

  /** `best_action = np.argmax(A)` */
  function GreedyAction(env: Env, gamma: real, V: seq<real>, s: nat): nat
    requires env.Valid() && |V| == env.nS && s < env.nS
  {
    ArgMax(ActionValues(env, gamma, V, s))
  }

  /** The Bellman optimality backup as the update a sweep applies state by state. */
  function Bellman(env: Env, gamma: real): (seq<real>, nat) -> real
  {
    (W: seq<real>, s: nat) => BestValue(env, gamma, W, s)
  }

  /** The backup a sweep writes at s is the largest action value, reached at the
      greedy action, which is the lowest index of that value; the policy row
      built there is a distribution with all its weight on that action. */
  lemma GreedyRow(env: Env, gamma: real, W: seq<real>, s: nat)
    requires env.Valid() && |W| == env.nS && s < env.nS
    ensures IsFirstMax(ActionValues(env, gamma, W, s), GreedyAction(env, gamma, W, s))
    ensures Bellman(env, gamma)(W, s) == Backup(env.P[s][GreedyAction(env, gamma, W, s)], gamma, W)
    ensures forall a :: 0 <= a < env.nA ==> Backup(env.P[s][a], gamma, W) <= Bellman(env, gamma)(W, s)
    ensures IsDistribution(OneHot(env.nA, GreedyAction(env, gamma, W, s)))
  {
    var A := ActionValues(env, gamma, W, s);
    ArgMaxIsFirstMax(A);
    MaxAtArgMax(A);
    OneHotIsDistribution(env.nA, ArgMax(A));
  }

  /** The values after the first k states of one in-place sweep starting from V:
      state s is overwritten with f(values so far, s). */
  function Partial(f: (seq<real>, nat) -> real, V: seq<real>, k: nat): (W: seq<real>)
    requires k <= |V|
    ensures |W| == |V|
    decreases k
  {
    if k == 0 then V
    else
      var W := Partial(f, V, k - 1);
      W[k - 1 := f(W, k - 1)]
  }

  /** The sweep's `delta` after the first k states:
      `delta = max(delta, abs(best_action_value - V[s]))`. */
  function Delta(f: (seq<real>, nat) -> real, V: seq<real>, k: nat): real
    requires k <= |V|
    decreases k
  {
    if k == 0 then 0.0
    else
      var W := Partial(f, V, k - 1);
      Max2(Delta(f, V, k - 1), Abs(f(W, k - 1) - W[k - 1]))
  }

  /** The values of nS states after i whole sweeps starting from V. */
  function Sweeps(f: (seq<real>, nat) -> real, nS: nat, V: seq<real>, i: nat): (W: seq<real>)
    requires |V| == nS
    ensures |W| == nS
  {
    if i == 0 then V else Partial(f, Sweeps(f, nS, V, i - 1), nS)
  }

  /** The `delta` of the sweep that starts after i whole sweeps from V. */
  function SweepDelta(f: (seq<real>, nat) -> real, nS: nat, V: seq<real>, i: nat): real
    requires |V| == nS
  {
    Delta(f, Sweeps(f, nS, V, i), nS)
  }

  /** Within a sweep, the first k steps leave index j >= k as it was. */
  lemma {:induction false} PartialUntouched(f: (seq<real>, nat) -> real, V: seq<real>, k: nat, j: nat)
    requires k <= j < |V|
    ensures Partial(f, V, k)[j] == V[j]
    decreases k
  {
    if k > 0 {
      PartialUntouched(f, V, k - 1, j);
    }
  }

  /** Within a sweep, index j < k keeps the value step j wrote, f applied to the
      values left by steps 0..j-1 (so earlier updates are visible to later
      states): later steps leave it alone. */
  lemma {:induction false} PartialSettled(f: (seq<real>, nat) -> real, V: seq<real>, k: nat, j: nat)
    requires j < k <= |V|
    ensures Partial(f, V, k)[j] == f(Partial(f, V, j), j)
    decreases k
  {
    if k > j + 1 {
      PartialSettled(f, V, k - 1, j);
    }
  }

  /** Step k-1 of a sweep raises delta to the change it makes to V[k-1]; the
      value just before that update is still the one the sweep began with. */
  lemma DeltaStep(f: (seq<real>, nat) -> real, V: seq<real>, k: nat)
    requires 0 < k <= |V|
    ensures Delta(f, V, k) == Max2(Delta(f, V, k - 1), Abs(Partial(f, V, k)[k - 1] - V[k - 1]))
  {
    PartialUntouched(f, V, k - 1, k - 1);
  }

  /** `delta` bounds the change `|new V[s] - V[s]|` of every state the sweep has visited. */
  lemma {:induction false} DeltaBoundsChange(f: (seq<real>, nat) -> real, V: seq<real>, k: nat, s: nat)
    requires s < k <= |V|
    ensures Abs(Partial(f, V, k)[s] - V[s]) <= Delta(f, V, k)
    decreases k
  {
    DeltaStep(f, V, k);
    if s < k - 1 {
      DeltaBoundsChange(f, V, k - 1, s);
      PartialSettled(f, V, k, s);
      PartialSettled(f, V, k - 1, s);
    }
  }

  /** `delta` is zero or the change of some visited state: it is the largest change. */
  lemma {:induction false} DeltaIsAttained(f: (seq<real>, nat) -> real, V: seq<real>, k: nat)
    requires k <= |V|
    ensures Delta(f, V, k) >= 0.0
    ensures Delta(f, V, k) == 0.0 || exists s :: 0 <= s < k && Delta(f, V, k) == Abs(Partial(f, V, k)[s] - V[s])
    decreases k
  {
    if k > 0 {
      DeltaIsAttained(f, V, k - 1);
      DeltaStep(f, V, k);
      var d := Delta(f, V, k);
      if d != 0.0 && d == Delta(f, V, k - 1) {
        var s :| 0 <= s < k - 1 && d == Abs(Partial(f, V, k - 1)[s] - V[s]);
        PartialSettled(f, V, k, s);
        PartialSettled(f, V, k - 1, s);
      }
    }
  }

  /** Once a sweep's delta is below theta, no state moved by theta or more in it. */
  lemma ConvergedSweep(f: (seq<real>, nat) -> real, nS: nat, V: seq<real>, theta: real)
    requires |V| == nS && Delta(f, V, nS) < theta
    ensures forall s :: 0 <= s < nS ==> Abs(Partial(f, V, nS)[s] - V[s]) < theta
  {
    forall s | 0 <= s < nS
      ensures Abs(Partial(f, V, nS)[s] - V[s]) < theta
    {
      DeltaBoundsChange(f, V, nS, s);
    }
  }

  /** The first n sweeps from V each moved some state by theta or more. */
  ghost predicate SlowSweeps(f: (seq<real>, nat) -> real, nS: nat, V: seq<real>, n: nat, theta: real)
    requires |V| == nS
  {
    forall i :: 0 <= i < n ==> SweepDelta(f, nS, V, i) >= theta
  }

  /** One more sweep whose delta is not below theta. */
  lemma SlowSweepsExtend(f: (seq<real>, nat) -> real, nS: nat, V: seq<real>, n: nat, theta: real)
    requires |V| == nS && SlowSweeps(f, nS, V, n, theta) && SweepDelta(f, nS, V, n) >= theta
    ensures SlowSweeps(f, nS, V, n + 1, theta)
  {
  }

  /** How a run of at most `bound` sweeps from V ended after n sweeps: it stops
      at the first sweep whose delta is below theta and only there (then
      `converged`, and no state moved by theta or more in that last sweep), or
      it used up the bound with every sweep slow. */
  ghost predicate RunEnded(f: (seq<real>, nat) -> real, nS: nat, V: seq<real>, bound: nat, n: nat, converged: bool, theta: real)
    requires |V| == nS
  {
    n <= bound &&
    (converged <==> n > 0 && SweepDelta(f, nS, V, n - 1) < theta) &&
    SlowSweeps(f, nS, V, if converged then n - 1 else n, theta) &&
    (!converged ==> n == bound) &&
    (converged ==> forall s :: 0 <= s < nS ==> Abs(Sweeps(f, nS, V, n)[s] - Sweeps(f, nS, V, n - 1)[s]) < theta)
  }

  /** The loop's exit facts give the run's outcome. */
  lemma RunEnds(f: (seq<real>, nat) -> real, nS: nat, V: seq<real>, bound: nat, n: nat, converged: bool, theta: real)
    requires |V| == nS && n <= bound
    requires converged ==> n > 0 && SweepDelta(f, nS, V, n - 1) < theta && SlowSweeps(f, nS, V, n - 1, theta)
    requires !converged ==> n == bound && SlowSweeps(f, nS, V, n, theta)
    ensures RunEnded(f, nS, V, bound, n, converged, theta)
  {
    if converged {
      ConvergedSweep(f, nS, Sweeps(f, nS, V, n - 1), theta);
    } else if n > 0 {
      assert SweepDelta(f, nS, V, n - 1) >= theta;
    }
  }

  /** The inner `for a` / `for outcome` loops: the lookahead row for state s. */
  method LookAhead(env: Env, gamma: real, V: array<real>, s: nat) returns (A: array<real>)
    requires env.Valid() && V.Length == env.nS && s < env.nS
    ensures fresh(A)
    ensures A[..] == ActionValues(env, gamma, V[..], s)
  {
    A := new real[env.nA](_ => 0.0);
    for a := 0 to env.nA
      invariant forall b :: 0 <= b < a ==> A[b] == Backup(env.P[s][b], gamma, V[..])
      invariant forall b :: a <= b < env.nA ==> A[b] == 0.0
    {
      var outs := env.P[s][a];
      ghost var row := A[..];
      for k := 0 to |outs|
        invariant A[a] == Backup(outs[..k], gamma, V[..])
        invariant forall b :: 0 <= b < env.nA && b != a ==> A[b] == row[b]
      {
        var o := outs[k];
        assert outs[..k + 1][..k] == outs[..k];
        A[a] := A[a] + o.prob * (o.reward + gamma * V[o.next]);
      }
      assert outs[..|outs|] == outs;
    }
  }

  /** The body of `for s in range(env.nS)`: back up state s in place and
      return the change `abs(best_action_value - V[s])`. */
  method UpdateState(env: Env, gamma: real, V: array<real>, s: nat) returns (change: real)
    requires env.Valid() && V.Length == env.nS && s < env.nS
    modifies V
    ensures V[..] == old(V[..])[s := Bellman(env, gamma)(old(V[..]), s)]
    ensures change == Abs(Bellman(env, gamma)(old(V[..]), s) - old(V[s]))
  {
    var A := LookAhead(env, gamma, V, s);
    var bestActionValue := A[ArgMax(A[..])];
    MaxAtArgMax(A[..]);
    change := Abs(bestActionValue - V[s]);
    V[s] := bestActionValue;
  }

  /** One pass of `for s in range(env.nS)`: updates V in place and returns delta. */
  method Sweep(env: Env, gamma: real, V: array<real>) returns (delta: real)
    requires env.Valid() && V.Length == env.nS
    modifies V
    ensures V[..] == Partial(Bellman(env, gamma), old(V[..]), env.nS)
    ensures delta == Delta(Bellman(env, gamma), old(V[..]), env.nS)
  {
    delta := 0.0;
    for s := 0 to env.nS
      invariant V[..] == Partial(Bellman(env, gamma), old(V[..]), s)
      invariant delta == Delta(Bellman(env, gamma), old(V[..]), s)
    {
      var change := UpdateState(env, gamma, V, s);
      delta := Max2(delta, change);
    }
  }

  /** The second pass: a deterministic policy, one-hot at the greedy action. */
  method ExtractPolicy(env: Env, gamma: real, V: array<real>) returns (policy: array<seq<real>>)
    requires env.Valid() && V.Length == env.nS
    ensures fresh(policy) && policy.Length == env.nS
    ensures forall s :: 0 <= s < env.nS ==> policy[s] == OneHot(env.nA, GreedyAction(env, gamma, V[..], s))
  {
    policy := new seq<real>[env.nS](_ => Zeros(env.nA));
    for s := 0 to env.nS
      invariant forall t :: 0 <= t < s ==> policy[t] == OneHot(env.nA, GreedyAction(env, gamma, V[..], t))
      invariant forall t :: s <= t < env.nS ==> policy[t] == Zeros(env.nA)
    {
      var A := LookAhead(env, gamma, V, s);
      var bestAction := ArgMax(A[..]);
      ZerosSetIsOneHot(env.nA, bestAction);
      policy[s] := policy[s][bestAction := 1.0];
    }
  }

  /** Sweep number i + 1 of a run that started from `start`. */
  method NextSweep(env: Env, gamma: real, V: array<real>, ghost start: seq<real>, ghost i: nat) returns (delta: real)
    requires env.Valid() && V.Length == env.nS && |start| == env.nS
    requires V[..] == Sweeps(Bellman(env, gamma), env.nS, start, i)
    modifies V
    ensures V[..] == Sweeps(Bellman(env, gamma), env.nS, start, i + 1)
    ensures delta == SweepDelta(Bellman(env, gamma), env.nS, start, i)
  {
    delta := Sweep(env, gamma, V);
  }

  /** The `while True` loop of sweeps, starting from the values in V. The
      source's loop has no bound; here at most maxSweeps sweeps run, and
      `converged` says whether the loop left through its `delta < theta` exit. */
  method SweepUntilConverged(env: Env, theta: real, gamma: real, maxSweeps: nat, V: array<real>)
    returns (sweeps: nat, converged: bool)
    requires env.Valid() && V.Length == env.nS
    modifies V
    ensures V[..] == Sweeps(Bellman(env, gamma), env.nS, old(V[..]), sweeps)
    ensures RunEnded(Bellman(env, gamma), env.nS, old(V[..]), maxSweeps, sweeps, converged, theta)
  {
    ghost var start := V[..];
    ghost var f := Bellman(env, gamma);
    sweeps := 0;
    converged := false;
    while sweeps < maxSweeps
      invariant V[..] == Sweeps(f, env.nS, start, sweeps)
      invariant sweeps <= maxSweeps
      invariant SlowSweeps(f, env.nS, start, sweeps, theta)
    {
      var delta := NextSweep(env, gamma, V, start, sweeps);
      if delta < theta {
        sweeps := sweeps + 1;
        converged := true;
        break;
      }
      SlowSweepsExtend(f, env.nS, start, sweeps, theta);
      sweeps := sweeps + 1;
    }
    RunEnds(f, env.nS, start, maxSweeps, sweeps, converged, theta);
  }

  /** `value_iteration(env, theta, discount_factor)`: V starts at zero, sweeps
      run until one moves no state by theta or more (or maxSweeps are spent),
      and the returned policy is greedy with respect to the returned V. */
  method ValueIteration(env: Env, theta: real, gamma: real, maxSweeps: nat)
    returns (policy: array<seq<real>>, V: array<real>, sweeps: nat, converged: bool)
    requires env.Valid()
    ensures fresh(policy) && fresh(V) && policy.Length == env.nS && V.Length == env.nS
    ensures V[..] == Sweeps(Bellman(env, gamma), env.nS, Zeros(env.nS), sweeps)
    ensures RunEnded(Bellman(env, gamma), env.nS, Zeros(env.nS), maxSweeps, sweeps, converged, theta)
    ensures forall s :: 0 <= s < env.nS ==> policy[s] == OneHot(env.nA, GreedyAction(env, gamma, V[..], s))
  {
    V := new real[env.nS](_ => 0.0);
    assert V[..] == Zeros(env.nS);
    sweeps, converged := SweepUntilConverged(env, theta, gamma, maxSweeps, V);
    policy := ExtractPolicy(env, gamma, V);
  }
}
