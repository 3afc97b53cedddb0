/** On-policy first-visit Monte Carlo control with an epsilon-greedy selector.
    Episodes are sampled with the current action values, and every distinct
    (state, action) pair of an episode is credited once with the discounted
    return from its first occurrence. Q is the running mean of those returns. */
module McOnEpsControl {
  import opened Tables

  /** One element of `episode`: (state, action, reward). */
  datatype Step = Step(state: nat, action: nat, reward: real)

  /** A (state, action) pair: the key of `returns_sum` and `returns_count`. */
  datatype Pair = Pair(state: nat, action: nat)

  /** What `env.step(action)` answers: (next_state, reward, done). */
  datatype Transition = Transition(next: nat, reward: real, done: bool)

  /** The random numbers one time step consumes: `np.random.random()`,
      `np.random.randint(0, nA)`, and the environment's own draw. */
  datatype Draw = Draw(coin: real, randomAction: nat, noise: nat)

  function PairOf(x: Step): Pair
  {
    Pair(x.state, x.action)
  }

  /** `states_in_episode`: the distinct pairs the episode visits. */
  function PairsIn(episode: seq<Step>): set<Pair>
  {
    set t | 0 <= t < |episode| :: PairOf(episode[t])
  }

  /** The epsilon-greedy choice: greedy when the coin exceeds epsilon. */
  function Act(qRow: seq<real>, epsilon: real, coin: real, randomAction: nat): nat
    requires |qRow| > 0
  {
    if coin > epsilon then ArgMax(qRow) else randomAction
  }

  // ---------------------------------------------------------------------------
  // Episodes

  /** The environment's answer at time t of an episode. */
  function Answer(episode: seq<Step>, draws: seq<Draw>, step: (nat, nat, nat) -> Transition, t: nat): Transition
    requires t < |episode| && t < |draws|
  {
    step(episode[t].state, episode[t].action, draws[t].noise)
  }

  /** Step t of the episode follows the selector and the environment: its state
      is the start or the previous step's next state, reached through a step
      that was not `done`; its action is the epsilon-greedy choice for that
      state, and its reward is the environment's. */
  ghost predicate Follows(q: seq<seq<real>>, epsilon: real, start: nat, draws: seq<Draw>,
                          step: (nat, nat, nat) -> Transition, episode: seq<Step>, t: nat)
    requires t < |episode| && t < |draws|
  {
    (if t == 0 then episode[t].state == start
     else !Answer(episode, draws, step, t - 1).done && episode[t].state == Answer(episode, draws, step, t - 1).next) &&
    episode[t].state < |q| && |q[episode[t].state]| > 0 &&
    episode[t].action == Act(q[episode[t].state], epsilon, draws[t].coin, draws[t].randomAction) &&
    episode[t].reward == Answer(episode, draws, step, t).reward
  }

  /** Every step of the episode so far follows the selector and the environment. */
  ghost predicate IsEpisodePrefix(q: seq<seq<real>>, epsilon: real, start: nat, draws: seq<Draw>,
                                  step: (nat, nat, nat) -> Transition, episode: seq<Step>)
  {
    |episode| <= |draws| &&
    forall t :: 0 <= t < |episode| ==> Follows(q, epsilon, start, draws, step, episode, t)
  }

  /** The episode so far may go on from `state`: it is the start when nothing
      has happened yet, and otherwise the last step was not `done` and led there. */
  ghost predicate GoesOnFrom(start: nat, draws: seq<Draw>, step: (nat, nat, nat) -> Transition,
                             episode: seq<Step>, state: nat)
  {
    |episode| <= |draws| &&
    if |episode| == 0 then state == start
    else !Answer(episode, draws, step, |episode| - 1).done && state == Answer(episode, draws, step, |episode| - 1).next
  }

  /** A whole episode: it stops right after the first `done` step, or, when
      that never comes, once the draws are used up. */
  ghost predicate IsEpisode(q: seq<seq<real>>, epsilon: real, start: nat, draws: seq<Draw>,
                            step: (nat, nat, nat) -> Transition, episode: seq<Step>, terminated: bool)
  {
    IsEpisodePrefix(q, epsilon, start, draws, step, episode) &&
    (terminated <==> |episode| > 0 && Answer(episode, draws, step, |episode| - 1).done) &&
    (!terminated ==> |episode| == |draws|)
  }

  /** Extending an episode prefix by one step taken from the state the prefix
      leads to, with the selector's action and the environment's reward. */
  lemma PrefixExtend(q: seq<seq<real>>, epsilon: real, start: nat, draws: seq<Draw>,
                     step: (nat, nat, nat) -> Transition, episode: seq<Step>, x: Step)
    requires IsEpisodePrefix(q, epsilon, start, draws, step, episode)
    requires |episode| < |draws| && GoesOnFrom(start, draws, step, episode, x.state)
    requires x.state < |q| && |q[x.state]| > 0
    requires x.action == Act(q[x.state], epsilon, draws[|episode|].coin, draws[|episode|].randomAction)
    requires x.reward == step(x.state, x.action, draws[|episode|].noise).reward
    ensures IsEpisodePrefix(q, epsilon, start, draws, step, episode + [x])
    ensures Answer(episode + [x], draws, step, |episode|) == step(x.state, x.action, draws[|episode|].noise)
  {
    var e := episode + [x];
    forall t | 0 <= t < |e|
      ensures Follows(q, epsilon, start, draws, step, e, t)
    {
      if t < |episode| {
        assert Follows(q, epsilon, start, draws, step, episode, t);
        assert e[t] == episode[t];
        if t > 0 {
          assert Answer(e, draws, step, t - 1) == Answer(episode, draws, step, t - 1);
        }
      } else if t > 0 {
        assert Answer(e, draws, step, t - 1) == Answer(episode, draws, step, t - 1);
      }
    }
  }

  /** A prefix becomes a whole episode when it ends on a `done` step, or when
      the draws are used up without one. */
  lemma EpisodeEnds(q: seq<seq<real>>, epsilon: real, start: nat, draws: seq<Draw>,
                    step: (nat, nat, nat) -> Transition, episode: seq<Step>, terminated: bool, state: nat)
    requires IsEpisodePrefix(q, epsilon, start, draws, step, episode)
    requires terminated ==> |episode| > 0 && Answer(episode, draws, step, |episode| - 1).done
    requires !terminated ==> |episode| == |draws| && GoesOnFrom(start, draws, step, episode, state)
    ensures IsEpisode(q, epsilon, start, draws, step, episode, terminated)
  {
  }

  /** Every step of an episode is in a state of the table and takes one of its
      actions, when the random actions drawn are. */
  lemma EpisodeInRange(q: seq<seq<real>>, epsilon: real, start: nat, draws: seq<Draw>,
                       step: (nat, nat, nat) -> Transition, episode: seq<Step>, nA: nat)
    requires IsEpisodePrefix(q, epsilon, start, draws, step, episode)
    requires forall s :: 0 <= s < |q| ==> |q[s]| == nA
    requires forall t :: 0 <= t < |draws| ==> draws[t].randomAction < nA
    ensures forall t :: 0 <= t < |episode| ==> episode[t].state < |q| && episode[t].action < nA
  {
    forall t | 0 <= t < |episode|
      ensures episode[t].state < |q| && episode[t].action < nA
    {
      assert Follows(q, epsilon, start, draws, step, episode, t);
    }
  }

  /** Some step of the episode took the greedy branch in state s. */
  ghost predicate GreedyIn(episode: seq<Step>, draws: seq<Draw>, epsilon: real, s: nat)
  {
    exists t :: 0 <= t < |episode| && t < |draws| && episode[t].state == s && draws[t].coin > epsilon
  }

  lemma GreedyInExtend(episode: seq<Step>, draws: seq<Draw>, epsilon: real, x: Step, s: nat)
    requires |episode| < |draws|
    ensures GreedyIn(episode + [x], draws, epsilon, s) <==>
      GreedyIn(episode, draws, epsilon, s) || (x.state == s && draws[|episode|].coin > epsilon)
  {
    var e := episode + [x];
    if GreedyIn(e, draws, epsilon, s) && !(x.state == s && draws[|episode|].coin > epsilon) {
      var t :| 0 <= t < |e| && t < |draws| && e[t].state == s && draws[t].coin > epsilon;
      assert t < |episode| && episode[t] == e[t];
    }
    if GreedyIn(episode, draws, epsilon, s) {
      var t :| 0 <= t < |episode| && t < |draws| && episode[t].state == s && draws[t].coin > epsilon;
      assert e[t] == episode[t];
    }
    if x.state == s && draws[|episode|].coin > epsilon {
      assert e[|episode|] == x;
    }
  }

  /** Two episodes that follow the same selector, environment and draws agree
      step by step as far as both go. */
  lemma {:induction false} EpisodesAgree(q: seq<seq<real>>, epsilon: real, start: nat, draws: seq<Draw>,
                                         step: (nat, nat, nat) -> Transition, e1: seq<Step>, e2: seq<Step>, k: nat)
    requires IsEpisodePrefix(q, epsilon, start, draws, step, e1)
    requires IsEpisodePrefix(q, epsilon, start, draws, step, e2)
    requires k < |e1| && k < |e2|
    ensures e1[k] == e2[k]
  {
    assert Follows(q, epsilon, start, draws, step, e1, k);
    assert Follows(q, epsilon, start, draws, step, e2, k);
    if k > 0 {
      EpisodesAgree(q, epsilon, start, draws, step, e1, e2, k - 1);
      assert Answer(e1, draws, step, k - 1) == Answer(e2, draws, step, k - 1);
    }
  }

  /** Episode generation is determined by its inputs: the same selector state,
      environment and draws give the same episode. */
  lemma EpisodeIsDetermined(q: seq<seq<real>>, epsilon: real, start: nat, draws: seq<Draw>,
                            step: (nat, nat, nat) -> Transition,
                            e1: seq<Step>, t1: bool, e2: seq<Step>, t2: bool)
    requires IsEpisode(q, epsilon, start, draws, step, e1, t1)
    requires IsEpisode(q, epsilon, start, draws, step, e2, t2)
    ensures e1 == e2 && t1 == t2
  {
    forall k | 0 <= k < |e1| && k < |e2|
      ensures e1[k] == e2[k]
    {
      EpisodesAgree(q, epsilon, start, draws, step, e1, e2, k);
    }
    if |e1| > 0 && |e2| > 0 {
      // Where the shorter one ends, both see the same answer, so both stop there.
      var k := if |e1| < |e2| then |e1| - 1 else |e2| - 1;
      assert Answer(e1, draws, step, k) == Answer(e2, draws, step, k);
      assert k + 1 < |e1| ==> Follows(q, epsilon, start, draws, step, e1, k + 1);
      assert k + 1 < |e2| ==> Follows(q, epsilon, start, draws, step, e2, k + 1);
    }
  }

  // ---------------------------------------------------------------------------
  // First-visit returns

  /** `next(i for i, x in enumerate(episode) if (x[0], x[1]) == p)` */
  function FirstOccurrence(episode: seq<Step>, p: Pair): (i: nat)
    requires p in PairsIn(episode)
    ensures i < |episode| && PairOf(episode[i]) == p
    ensures forall j :: 0 <= j < i ==> PairOf(episode[j]) != p
  {
    if PairOf(episode[0]) == p then 0
    else
      assert p in PairsIn(episode[1..]) by {
        var t :| 0 <= t < |episode| && PairOf(episode[t]) == p;
        assert PairOf(episode[1..][t - 1]) == p;
      }
      1 + FirstOccurrence(episode[1..], p)
  }

  function Pow(x: real, k: nat): real
  {
    if k == 0 then 1.0 else x * Pow(x, k - 1)
  }

  /** The sum over j of `steps[j].reward * discount ** (k + j)`. */
  function Discounted(steps: seq<Step>, discount: real, k: nat): real
  {
    if steps == [] then 0.0
    else steps[0].reward * Pow(discount, k) + Discounted(steps[1..], discount, k + 1)
  }

  /** `G = sum([x[2] * discount ** i for i, x in enumerate(episode[first:])])` */
  function ReturnFrom(episode: seq<Step>, first: nat, discount: real): real
    requires first <= |episode|
  {
    Discounted(episode[first..], discount, 0)
  }

  lemma {:induction false} DiscountedShift(steps: seq<Step>, discount: real, k: nat)
    ensures Discounted(steps, discount, k + 1) == discount * Discounted(steps, discount, k)
  {
    if steps != [] {
      DiscountedShift(steps[1..], discount, k + 1);
      assert steps[0].reward * Pow(discount, k + 1) == discount * (steps[0].reward * Pow(discount, k));
    }
  }

  /** The return from index i is its reward plus the discounted return from
      i + 1; the return from the end of the episode is 0. */
  lemma ReturnRecurrence(episode: seq<Step>, i: nat, discount: real)
    requires i < |episode|
    ensures ReturnFrom(episode, i, discount) == episode[i].reward + discount * ReturnFrom(episode, i + 1, discount)
    ensures ReturnFrom(episode, |episode|, discount) == 0.0
  {
    assert episode[i..][1..] == episode[i + 1..];
    DiscountedShift(episode[i + 1..], discount, 0);
  }

  // ---------------------------------------------------------------------------
  // Crediting returns

  function Get(m: map<Pair, seq<real>>, p: Pair): seq<real>
  {
    if p in m then m[p] else []
  }

  /** The return credited to pair p: the discounted return from its first
      occurrence in the episode. */
  function FirstVisitReturn(episode: seq<Step>, p: Pair, discount: real): real
    requires p in PairsIn(episode)
  {
    ReturnFrom(episode, FirstOccurrence(episode, p), discount)
  }

  /** The credit history after the pairs in `which` have each been credited with
      their first-visit return. */
  function CreditSome(credited: map<Pair, seq<real>>, episode: seq<Step>, discount: real,
                      which: set<Pair>): map<Pair, seq<real>>
    requires which <= PairsIn(episode)
  {
    map p | p in credited.Keys + which ::
      Get(credited, p) + (if p in which then [FirstVisitReturn(episode, p, discount)] else [])
  }

  /** The credit history after a whole episode. */
  function Credit(credited: map<Pair, seq<real>>, episode: seq<Step>, discount: real): map<Pair, seq<real>>
  {
    CreditSome(credited, episode, discount, PairsIn(episode))
  }

  /** Each pair of the episode gains exactly one return, the one from its first
      occurrence; every other pair keeps its history. */
  lemma CreditedOnce(credited: map<Pair, seq<real>>, episode: seq<Step>, discount: real, p: Pair)
    ensures p in PairsIn(episode) ==>
      Get(Credit(credited, episode, discount), p) ==
      Get(credited, p) + [ReturnFrom(episode, FirstOccurrence(episode, p), discount)]
    ensures p !in PairsIn(episode) ==> Get(Credit(credited, episode, discount), p) == Get(credited, p)
  {
  }

  /** The elements of a sequence, as a set. */
  function Elems(order: seq<Pair>): set<Pair>
  {
    set k | 0 <= k < |order| :: order[k]
  }

  /** Crediting the pairs one at a time in the order given. */
  function CreditInOrder(credited: map<Pair, seq<real>>, episode: seq<Step>, discount: real,
                         order: seq<Pair>): map<Pair, seq<real>>
    requires Elems(order) <= PairsIn(episode)
    decreases |order|
  {
    if order == [] then credited
    else
      var p := order[0];
      assert p in Elems(order);
      assert Elems(order[1..]) <= Elems(order) by {
        forall x | x in Elems(order[1..]) ensures x in Elems(order) {
          var k :| 0 <= k < |order[1..]| && order[1..][k] == x;
          assert order[k + 1] == x;
        }
      }
      CreditInOrder(credited[p := Get(credited, p) + [FirstVisitReturn(episode, p, discount)]],
                    episode, discount, order[1..])
  }

  /** Adding one more pair to those credited. */
  lemma CreditSomeStep(credited: map<Pair, seq<real>>, episode: seq<Step>, discount: real,
                       which: set<Pair>, p: Pair)
    requires which <= PairsIn(episode) && p in PairsIn(episode) && p !in which
    ensures CreditSome(credited, episode, discount, which + {p}) ==
      var c := CreditSome(credited, episode, discount, which);
      c[p := Get(c, p) + [FirstVisitReturn(episode, p, discount)]]
  {
    var g := FirstVisitReturn(episode, p, discount);
    var c := CreditSome(credited, episode, discount, which);
    var d := CreditSome(credited, episode, discount, which + {p});
    var e := c[p := Get(c, p) + [g]];
    assert d.Keys == e.Keys;
    forall q | q in d.Keys
      ensures d[q] == e[q]
    {
      if q == p {
        assert Get(c, p) == Get(credited, p);
        assert d[q] == Get(credited, p) + [g];
      } else {
        assert d[q] == c[q];
      }
    }
  }

  /** No pair occurs twice in the order. */
  predicate NoRepeats(order: seq<Pair>)
  {
    forall i, j :: 0 <= i < j < |order| ==> order[i] != order[j]
  }

  /** The elements of a sequence without repeats, one by one. */
  lemma ElemsCons(order: seq<Pair>)
    requires order != [] && NoRepeats(order)
    ensures Elems(order) == {order[0]} + Elems(order[1..]) && order[0] !in Elems(order[1..])
    ensures NoRepeats(order[1..])
  {
    forall x | x in Elems(order)
      ensures x == order[0] || x in Elems(order[1..])
    {
      var k :| 0 <= k < |order| && order[k] == x;
      if k > 0 {
        assert order[1..][k - 1] == x;
      }
    }
  }

  /** Crediting no pair changes nothing. */
  lemma CreditNone(credited: map<Pair, seq<real>>, episode: seq<Step>, discount: real)
    ensures CreditSome(credited, episode, discount, {}) == credited
  {
    var c0 := CreditSome(credited, episode, discount, {});
    assert c0.Keys == credited.Keys;
    forall q | q in credited
      ensures c0[q] == credited[q]
    {
      assert Get(credited, q) + [] == credited[q];
    }
  }

  /** Two credit histories that agree on every pair are equal. */
  lemma SameHistories(d: map<Pair, seq<real>>, e: map<Pair, seq<real>>)
    requires forall q :: (q in d <==> q in e) && (q in d ==> d[q] == e[q])
    ensures d == e
  {
    assert d.Keys == e.Keys;
  }

  /** Crediting p, then a set without it: the history of one pair q. */
  lemma CreditSomeAfterOneAt(credited: map<Pair, seq<real>>, episode: seq<Step>, discount: real,
                             which: set<Pair>, p: Pair, q: Pair)
    requires which <= PairsIn(episode) && p in PairsIn(episode) && p !in which
    ensures
      var d := CreditSome(credited[p := Get(credited, p) + [FirstVisitReturn(episode, p, discount)]],
                          episode, discount, which);
      var e := CreditSome(credited, episode, discount, which + {p});
      (q in d <==> q in e) && (q in d ==> d[q] == e[q])
  {
    var c := credited[p := Get(credited, p) + [FirstVisitReturn(episode, p, discount)]];
    if q == p {
      assert Get(c, p) == Get(credited, p) + [FirstVisitReturn(episode, p, discount)];
    } else {
      assert Get(c, q) == Get(credited, q);
    }
  }

  /** Crediting one pair first and then a set without it is crediting the set
      with the pair added. */
  lemma CreditSomeAfterOne(credited: map<Pair, seq<real>>, episode: seq<Step>, discount: real,
                           which: set<Pair>, p: Pair)
    requires which <= PairsIn(episode) && p in PairsIn(episode) && p !in which
    ensures CreditSome(credited[p := Get(credited, p) + [FirstVisitReturn(episode, p, discount)]],
                       episode, discount, which) ==
      CreditSome(credited, episode, discount, which + {p})
  {
    var d := CreditSome(credited[p := Get(credited, p) + [FirstVisitReturn(episode, p, discount)]],
                        episode, discount, which);
    var e := CreditSome(credited, episode, discount, which + {p});
    forall q
      ensures (q in d <==> q in e) && (q in d ==> d[q] == e[q])
    {
      CreditSomeAfterOneAt(credited, episode, discount, which, p, q);
    }
    SameHistories(d, e);
  }

  /** Crediting distinct pairs one at a time, in any order, credits exactly
      the set of them. */
  lemma {:induction false} CreditInOrderIsCreditSome(credited: map<Pair, seq<real>>, episode: seq<Step>,
                                                     discount: real, order: seq<Pair>)
    requires Elems(order) <= PairsIn(episode) && NoRepeats(order)
    ensures CreditInOrder(credited, episode, discount, order) ==
      CreditSome(credited, episode, discount, Elems(order))
    decreases |order|
  {
    if order == [] {
      assert Elems(order) == {};
      CreditNone(credited, episode, discount);
    } else {
      var p := order[0];
      ElemsCons(order);
      var c := credited[p := Get(credited, p) + [FirstVisitReturn(episode, p, discount)]];
      CreditInOrderIsCreditSome(c, episode, discount, order[1..]);
      CreditSomeAfterOne(credited, episode, discount, Elems(order[1..]), p);
      assert Elems(order[1..]) + {p} == Elems(order);
    }
  }

  /** The episode's update does not depend on the order in which its set of
      pairs is visited: every order without repeats gives the same result. */
  lemma AnyOrderCredits(credited: map<Pair, seq<real>>, episode: seq<Step>, discount: real, order: seq<Pair>)
    requires Elems(order) == PairsIn(episode) && NoRepeats(order)
    ensures CreditInOrder(credited, episode, discount, order) == Credit(credited, episode, discount)
  {
    CreditInOrderIsCreditSome(credited, episode, discount, order);
  }

  /** `returns_sum[p] / returns_count[p]` for a positive count. */
  function Ratio(total: real, count: nat): real
    requires count > 0
  {
    total / count as real
  }

  /** The arithmetic mean of the returns credited to a pair (0 with none). */
  function Mean(xs: seq<real>): real
  {
    if |xs| == 0 then 0.0 else Ratio(Sum(xs), |xs|)
  }

  /** `returns_sum / returns_count` after adding one return is the mean of the
      history extended by that return. */
  lemma RunningMean(xs: seq<real>, g: real)
    ensures Ratio(Sum(xs) + g, |xs| + 1) == Mean(xs + [g])
  {
    var ys := xs + [g];
    SumAppend(xs, g);
    assert Mean(ys) == Ratio(Sum(ys), |ys|);
    SameRatio(Sum(ys), Sum(xs) + g, |ys|, |xs| + 1);
  }

  lemma SameRatio(a: real, b: real, m: nat, n: nat)
    requires a == b && m == n && m > 0
    ensures Ratio(a, m) == Ratio(b, n)
  {
  }

  // ---------------------------------------------------------------------------
  // The tables, as values

  /** `returns_sum[p]` of a `defaultdict(float)`. */
  function SumAt(sums: map<Pair, real>, p: Pair): real
  {
    if p in sums then sums[p] else 0.0
  }

  /** `returns_count[p]` of a `defaultdict(float)`: a count of returns. */
  function CountAt(counts: map<Pair, nat>, p: Pair): nat
  {
    if p in counts then counts[p] else 0
  }

  /** The accumulators hold, for every credited pair, the sum and the number of
      its credited returns, and only pairs of the table are credited. */
  ghost predicate Tallies(sums: map<Pair, real>, counts: map<Pair, nat>, credited: map<Pair, seq<real>>,
                          nS: nat, nA: nat)
  {
    sums.Keys == credited.Keys && counts.Keys == credited.Keys &&
    forall p :: p in credited ==>
      p.state < nS && p.action < nA && sums[p] == Sum(credited[p]) && counts[p] == |credited[p]|
  }

  /** Every entry of Q is the mean of the returns credited to its pair. */
  ghost predicate MeanTable(q: seq<seq<real>>, credited: map<Pair, seq<real>>, nA: nat)
  {
    forall s :: 0 <= s < |q| ==>
      |q[s]| == nA && forall a :: 0 <= a < nA ==> q[s][a] == Mean(Get(credited, Pair(s, a)))
  }

  /** One pass of the crediting loop body: adding g to `returns_sum[p]`, one to
      `returns_count[p]` and setting `Q[p]` to their quotient keeps the tallies
      and keeps Q the mean of the history extended by g. */
  lemma CreditOne(sums: map<Pair, real>, counts: map<Pair, nat>, credited: map<Pair, seq<real>>,
                  q: seq<seq<real>>, nS: nat, nA: nat, p: Pair, g: real,
                  sums': map<Pair, real>, counts': map<Pair, nat>, credited': map<Pair, seq<real>>,
                  q': seq<seq<real>>)
    requires Tallies(sums, counts, credited, nS, nA) && MeanTable(q, credited, nA)
    requires |q| == nS && p.state < nS && p.action < nA
    requires sums' == sums[p := SumAt(sums, p) + g]
    requires counts' == counts[p := CountAt(counts, p) + 1]
    requires credited' == credited[p := Get(credited, p) + [g]]
    requires q' == q[p.state := q[p.state][p.action := Ratio(sums'[p], counts'[p])]]
    ensures Tallies(sums', counts', credited', nS, nA) && MeanTable(q', credited', nA)
  {
    var history := Get(credited, p);
    assert SumAt(sums, p) == Sum(history) && CountAt(counts, p) == |history|;
    TalliesStep(sums, counts, credited, nS, nA, p, g, sums', counts', credited');
    RunningMean(history, g);
    MeanTableStep(q, credited, nA, p, Ratio(sums'[p], counts'[p]), credited', q');
  }

  /** Adding g to `returns_sum[p]` and one to `returns_count[p]` tallies the
      history of p extended by g. */
  lemma TalliesStep(sums: map<Pair, real>, counts: map<Pair, nat>, credited: map<Pair, seq<real>>,
                    nS: nat, nA: nat, p: Pair, g: real,
                    sums': map<Pair, real>, counts': map<Pair, nat>, credited': map<Pair, seq<real>>)
    requires Tallies(sums, counts, credited, nS, nA) && p.state < nS && p.action < nA
    requires sums' == sums[p := SumAt(sums, p) + g]
    requires counts' == counts[p := CountAt(counts, p) + 1]
    requires credited' == credited[p := Get(credited, p) + [g]]
    ensures Tallies(sums', counts', credited', nS, nA)
  {
    var history := Get(credited, p);
    assert SumAt(sums, p) == Sum(history) && CountAt(counts, p) == |history|;
    SumAppend(history, g);
  }

  /** Writing the mean of p's extended history into Q[p] keeps Q the table of means. */
  lemma MeanTableStep(q: seq<seq<real>>, credited: map<Pair, seq<real>>, nA: nat, p: Pair, mean: real,
                      credited': map<Pair, seq<real>>, q': seq<seq<real>>)
    requires MeanTable(q, credited, nA) && p.state < |q| && p.action < nA
    requires p in credited' && mean == Mean(credited'[p])
    requires forall r :: r != p ==> Get(credited', r) == Get(credited, r)
    requires q' == q[p.state := q[p.state][p.action := mean]]
    ensures MeanTable(q', credited', nA)
  {
    forall s, a | 0 <= s < |q'| && 0 <= a < nA
      ensures q'[s][a] == Mean(Get(credited', Pair(s, a)))
    {
      if Pair(s, a) != p {
        assert q'[s][a] == q[s][a];
      }
    }
  }

  /** The policy rows after an episode so far: a state where some step took the
      greedy branch holds the one-hot row of Q's first maximum, every other
      state keeps its initial row. */
  ghost predicate PolicyAfter(q: seq<seq<real>>, initial: seq<seq<real>>, current: seq<seq<real>>,
                              episode: seq<Step>, draws: seq<Draw>, epsilon: real)
  {
    (forall s :: 0 <= s < |q| ==> |q[s]| > 0) && |initial| == |q| && |current| == |q| &&
    forall s :: 0 <= s < |q| ==>
      current[s] == if GreedyIn(episode, draws, epsilon, s) then OneHot(|q[s]|, ArgMax(q[s])) else initial[s]
  }

  /** Before the first step every row is its initial row. */
  lemma PolicyAfterNothing(q: seq<seq<real>>, initial: seq<seq<real>>, draws: seq<Draw>, epsilon: real)
    requires (forall s :: 0 <= s < |q| ==> |q[s]| > 0) && |initial| == |q|
    ensures PolicyAfter(q, initial, initial, [], draws, epsilon)
  {
  }

  /** One step of the episode: the greedy branch rewrites the row of its state. */
  lemma PolicyStep(q: seq<seq<real>>, initial: seq<seq<real>>, before: seq<seq<real>>, after: seq<seq<real>>,
                   episode: seq<Step>, draws: seq<Draw>, epsilon: real, x: Step)
    requires PolicyAfter(q, initial, before, episode, draws, epsilon)
    requires |episode| < |draws| && x.state < |q|
    requires after == if draws[|episode|].coin > epsilon
      then before[x.state := OneHot(|q[x.state]|, ArgMax(q[x.state]))] else before
    ensures PolicyAfter(q, initial, after, episode + [x], draws, epsilon)
  {
    forall s | 0 <= s < |q|
      ensures after[s] ==
        if GreedyIn(episode + [x], draws, epsilon, s) then OneHot(|q[s]|, ArgMax(q[s])) else initial[s]
    {
      GreedyInExtend(episode, draws, epsilon, x, s);
    }
  }

  // ---------------------------------------------------------------------------
  // The solver's state

  /** The tables `eps_mc_control` owns: Q, the policy and the return accumulators. */
  class Solver {
    const nS: nat
    const nA: nat
    const discount: real
    const epsilon: real
    /** `Q`, as a dense table: row s holds the values of every action in s. */
    const Q: array<seq<real>>
    /** `policy`: one row of action probabilities per state. */
    const policy: array<seq<real>>
    /** `returns_sum`, absent keys standing for 0.0. */
    var returnsSum: map<Pair, real>
    /** `returns_count`, absent keys standing for 0. */
    var returnsCount: map<Pair, nat>
    /** Every return credited so far to each pair, oldest first. */
    ghost var credited: map<Pair, seq<real>>

    /** The accumulators hold the sum and the number of the credited returns,
        Q holds their mean, and every policy row is uniform or one-hot. */
    ghost predicate Valid()
      reads this, Q, policy
    {
      nA > 0 && Q != policy && Q.Length == nS && policy.Length == nS &&
      (forall s :: 0 <= s < nS ==> RowShape(policy[s], nA)) &&
      Tallies(returnsSum, returnsCount, credited, nS, nA) && MeanTable(Q[..], credited, nA)
    }

    /** Fresh tables: Q all zero, every policy row uniform at 1/nA, nothing credited. */
    constructor (nS: nat, nA: nat, discount: real, epsilon: real)
      requires nA > 0
      ensures Valid() && fresh(Q) && fresh(policy)
      ensures this.nS == nS && this.nA == nA && this.discount == discount && this.epsilon == epsilon
      ensures forall s :: 0 <= s < nS ==> Q[s] == Zeros(nA) && policy[s] == Uniform(nA)
      ensures returnsSum == map[] && returnsCount == map[] && credited == map[]
    {
      this.nS := nS;
      this.nA := nA;
      this.discount := discount;
      this.epsilon := epsilon;
      Q := new seq<real>[nS](_ => Zeros(nA));
      policy := new seq<real>[nS](_ => Uniform(nA));
      returnsSum := map[];
      returnsCount := map[];
      credited := map[];
    }

    /** `policy_fn(state, policy)` with its random draws passed in: `coin` is
        `np.random.random()` and `randomAction` is `np.random.randint(0, nA)`.
        The greedy branch overwrites the state's policy row with a one-hot row. */
    method SelectAction(state: nat, coin: real, randomAction: nat) returns (action: nat)
      requires Valid() && state < nS && randomAction < nA
      modifies policy
      ensures Valid()
      ensures action < nA && action == Act(Q[state], epsilon, coin, randomAction)
      ensures coin > epsilon ==>
        IsFirstMax(Q[state], action) && policy[..] == old(policy[..])[state := OneHot(nA, action)]
      ensures coin <= epsilon ==> action == randomAction && policy[..] == old(policy[..])
    {
      if coin > epsilon {
        action := ArgMax(Q[state]);
        ArgMaxIsFirstMax(Q[state]);
        policy[state] := OneHot(nA, action);
      } else {
        action := randomAction;
      }
    }

    /** One pass of the episode's `while True` loop from `state`, the step's
        draws being `draws[|episode|]`: select an action, ask the environment,
        and record (state, action, reward). */
    method TakeStep(start: nat, draws: seq<Draw>, step: (nat, nat, nat) -> Transition,
                    episode: seq<Step>, state: nat, ghost initial: seq<seq<real>>)
      returns (x: Step, answer: Transition)
      requires Valid() && state < nS && |episode| < |draws| && draws[|episode|].randomAction < nA
      requires IsEpisodePrefix(Q[..], epsilon, start, draws, step, episode)
      requires GoesOnFrom(start, draws, step, episode, state)
      requires PolicyAfter(Q[..], initial, policy[..], episode, draws, epsilon)
      modifies policy
      ensures Valid()
      ensures answer == Answer(episode + [x], draws, step, |episode|)
      ensures !answer.done ==> GoesOnFrom(start, draws, step, episode + [x], answer.next)
      ensures IsEpisodePrefix(Q[..], epsilon, start, draws, step, episode + [x])
      ensures PolicyAfter(Q[..], initial, policy[..], episode + [x], draws, epsilon)
    {
      var t := |episode|;
      ghost var before := policy[..];
      var action := SelectAction(state, draws[t].coin, draws[t].randomAction);
      answer := step(state, action, draws[t].noise);
      x := Step(state, action, answer.reward);
      PrefixExtend(Q[..], epsilon, start, draws, step, episode, x);
      PolicyStep(Q[..], initial, before, policy[..], episode, draws, epsilon, x);
    }

    /** One episode: `state = env.reset()` is `start`, and the `while True` loop
        draws its randomness from `draws`, stopping after the first `done` step
        or, if none comes, when the draws run out. */
    method GenerateEpisode(start: nat, draws: seq<Draw>, step: (nat, nat, nat) -> Transition)
      returns (episode: seq<Step>, terminated: bool)
      requires Valid() && start < nS
      requires forall t :: 0 <= t < |draws| ==> draws[t].randomAction < nA
      requires forall s: nat, a: nat, z: nat :: s < nS && a < nA ==> step(s, a, z).next < nS
      modifies policy
      ensures Valid()
      ensures IsEpisode(Q[..], epsilon, start, draws, step, episode, terminated)
      ensures forall t :: 0 <= t < |episode| ==> episode[t].state < nS && episode[t].action < nA
      ensures PolicyAfter(Q[..], old(policy[..]), policy[..], episode, draws, epsilon)
    {
      episode := [];
      terminated := false;
      var state: nat := start;
      PolicyAfterNothing(Q[..], policy[..], draws, epsilon);
      while |episode| < |draws|
        invariant Valid() && state < nS && !terminated
        invariant IsEpisodePrefix(Q[..], epsilon, start, draws, step, episode)
        invariant GoesOnFrom(start, draws, step, episode, state)
        invariant PolicyAfter(Q[..], old(policy[..]), policy[..], episode, draws, epsilon)
      {
        var x, answer := TakeStep(start, draws, step, episode, state, old(policy[..]));
        episode := episode + [x];
        if answer.done {
          terminated := true;
          break;
        }
        EpisodeInRange(Q[..], epsilon, start, draws, step, episode, nA);
        state := answer.next;
      }
      EpisodeEnds(Q[..], epsilon, start, draws, step, episode, terminated, state);
      EpisodeInRange(Q[..], epsilon, start, draws, step, episode, nA);
    }

    /** The body of the `for state, action in states_in_episode` loop: the
        first-visit return of p is added to `returns_sum[p]`, its count goes up
        by one, and `Q[p]` becomes their quotient. */
    method CreditPair(episode: seq<Step>, p: Pair)
      requires Valid() && p in PairsIn(episode)
      requires forall t :: 0 <= t < |episode| ==> episode[t].state < nS && episode[t].action < nA
      modifies this, Q
      ensures Valid()
      ensures credited == old(credited)[p := Get(old(credited), p) + [FirstVisitReturn(episode, p, discount)]]
      ensures Q[p.state][p.action] == Mean(credited[p])
    {
      var g := FirstVisitReturn(episode, p, discount);
      ghost var first := FirstOccurrence(episode, p);
      assert p.state < nS && p.action < nA by {
        assert PairOf(episode[first]) == p;
      }
      var total := SumAt(returnsSum, p) + g;
      var count := CountAt(returnsCount, p) + 1;
      ghost var q := Q[..];
      ghost var credited' := credited[p := Get(credited, p) + [g]];
      ghost var q' := q[p.state := q[p.state][p.action := Ratio(total, count)]];
      CreditOne(returnsSum, returnsCount, credited, q, nS, nA, p, g,
                returnsSum[p := total], returnsCount[p := count], credited', q');
      returnsSum := returnsSum[p := total];
      returnsCount := returnsCount[p := count];
      credited := credited';
      Q[p.state] := Q[p.state][p.action := Ratio(total, count)];
      assert Q[..] == q';
    }

    /** The `for state, action in states_in_episode` loop. The set is visited in
        an arbitrary order; the result does not depend on it. */
    method CreditEpisode(episode: seq<Step>)
      requires Valid()
      requires forall t :: 0 <= t < |episode| ==> episode[t].state < nS && episode[t].action < nA
      modifies this, Q
      ensures Valid()
      ensures credited == Credit(old(credited), episode, discount)
    {
      var pending := PairsIn(episode);
      ghost var visited: set<Pair> := {};
      CreditNone(credited, episode, discount);
      while pending != {}
        invariant Valid()
        invariant pending !! visited && pending + visited == PairsIn(episode)
        invariant credited == CreditSome(old(credited), episode, discount, visited)
        decreases pending
      {
        var p :| p in pending;
        CreditSomeStep(old(credited), episode, discount, visited, p);
        CreditPair(episode, p);
        pending := pending - {p};
        visited := visited + {p};
      }
    }
  }

  /** `eps_mc_control(env, num_episodes, discount, epsilon)`: `starts[i]` is what
      `env.reset()` gives for episode i, `draws[i]` its random numbers and `step`
      the environment's transition. The run stops early only if an episode does
      not reach `done` within its draws (where the source would not return). */
  method EpsMcControl(nS: nat, nA: nat, numEpisodes: nat, discount: real, epsilon: real,
                      starts: seq<nat>, draws: seq<seq<Draw>>, step: (nat, nat, nat) -> Transition)
    returns (solver: Solver, episodesRun: nat)
    requires nA > 0
    requires |starts| >= numEpisodes && |draws| >= numEpisodes
    requires forall i :: 0 <= i < numEpisodes ==> starts[i] < nS
    requires forall i, t :: 0 <= i < numEpisodes && 0 <= t < |draws[i]| ==> draws[i][t].randomAction < nA
    requires forall s: nat, a: nat, z: nat :: s < nS && a < nA ==> step(s, a, z).next < nS
    ensures fresh(solver) && solver.Valid()
    ensures solver.nS == nS && solver.nA == nA && solver.discount == discount && solver.epsilon == epsilon
    ensures episodesRun <= numEpisodes
    ensures forall p :: p in solver.credited ==> |solver.credited[p]| <= episodesRun
  {
    solver := new Solver(nS, nA, discount, epsilon);
    episodesRun := 0;
    while episodesRun < numEpisodes
      invariant solver.Valid() && fresh(solver.Q) && fresh(solver.policy)
      invariant solver.nS == nS && solver.nA == nA && solver.discount == discount && solver.epsilon == epsilon
      invariant episodesRun <= numEpisodes
      invariant forall p :: p in solver.credited ==> |solver.credited[p]| <= episodesRun
    {
      var episode, terminated := solver.GenerateEpisode(starts[episodesRun], draws[episodesRun], step);
      if !terminated {
        break;
      }
      ghost var before := solver.credited;
      solver.CreditEpisode(episode);
      forall p | p in solver.credited
        ensures |solver.credited[p]| <= episodesRun + 1
      {
        CreditedOnce(before, episode, discount, p);
      }
      episodesRun := episodesRun + 1;
    }
  }
}
