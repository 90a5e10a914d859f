/**
 * The reward evaluator of the "Social Rejection" scenario. Before the step
 * horizon it gives no reward signal. At the horizon, agents outside the safe
 * zone are penalised with -1, and the berries carried by the agents inside it
 * are pooled and split evenly among them.
 */
module Rewards {
  import opened Wrappers
  import opened SocialRejection

  /** What an agent carries. The model assumes a poisoned berry is never also a good berry. */
  datatype Carrying = Nothing | GoodBerry | PoisonedBerry

  /** The part of an agent's state the evaluator reads. */
  datatype Agent = Agent(pos: Pos, carrying: Carrying)

  /** The indices, in agent order, of the agents in the safe zone. */
  function SafeIndices(env: Env, agents: seq<Agent>): (ixs: seq<nat>)
    ensures forall k :: 0 <= k < |ixs| ==> ixs[k] < |agents| && SafeZone(env, agents[ixs[k]].pos)
  {
    if agents == [] then []
    else
      var n := |agents| - 1;
      var before := SafeIndices(env, agents[..n]);
      if SafeZone(env, agents[n].pos) then before + [n] else before
  }

  /** The safe indices are listed in increasing agent order, each at most once. */
  lemma {:induction false} SafeIndicesIncreasing(env: Env, agents: seq<Agent>)
    ensures forall k, l :: 0 <= k < l < |SafeIndices(env, agents)| ==> SafeIndices(env, agents)[k] < SafeIndices(env, agents)[l]
  {
    if agents != [] {
      SafeIndicesIncreasing(env, agents[..|agents| - 1]);
    }
  }

  /** Every safe agent is listed among the safe indices. */
  lemma {:induction false} SafeAgentListed(env: Env, agents: seq<Agent>, j: nat)
    requires j < |agents| && SafeZone(env, agents[j].pos)
    ensures j in SafeIndices(env, agents)
  {
    var n := |agents| - 1;
    if j < n {
      assert agents[..n][j] == agents[j];
      SafeAgentListed(env, agents[..n], j);
    }
  }

  /** What one agent adds to the pool: nothing when it is stranded; when it is safe, the good reward
      for a good berry, the poisoned reward for a poisoned berry and nothing for an empty hand. */
  function Carried(env: Env, a: Agent): real
  {
    if !SafeZone(env, a.pos) then 0.0
    else match a.carrying
      case GoodBerry => env.goodBerryReward
      case PoisonedBerry => env.poisonedBerryReward
      case Nothing => 0.0
  }

  /** The pool: what the agents add to it, summed in agent order. */
  function Pool(env: Env, agents: seq<Agent>): real
  {
    if agents == [] then 0.0 else Pool(env, agents[..|agents| - 1]) + Carried(env, agents[|agents| - 1])
  }

  /** One step of the first loop: the next agent's index joins the safe list exactly when it is safe,
      and what it carries is added to the pool. */
  lemma PrefixStep(env: Env, agents: seq<Agent>, n: nat)
    requires n < |agents|
    ensures SafeIndices(env, agents[..n + 1]) ==
      SafeIndices(env, agents[..n]) + (if SafeZone(env, agents[n].pos) then [n] else [])
    ensures Pool(env, agents[..n + 1]) == Pool(env, agents[..n]) + Carried(env, agents[n])
  {
    assert agents[..n + 1][..n] == agents[..n];
  }

  /** The number of safe agents carrying `c`. */
  function SafeCarrying(env: Env, agents: seq<Agent>, c: Carrying): nat
  {
    if agents == [] then 0
    else
      var n := |agents| - 1;
      SafeCarrying(env, agents[..n], c) + (if SafeZone(env, agents[n].pos) && agents[n].carrying == c then 1 else 0)
  }

  /** The reward vector at the horizon: -1 for every stranded agent, an equal share of the pool for every safe one. */
  function TerminalRewards(env: Env, agents: seq<Agent>): (r: seq<real>)
    ensures |r| == |agents|
  {
    var k := |SafeIndices(env, agents)|;
    if k == 0 then
      seq(|agents|, i => -1.0)
    else
      var share := Pool(env, agents) / k as real;
      seq(|agents|, i requires 0 <= i < |agents| => if SafeZone(env, agents[i].pos) then share else -1.0)
  }

  /** A vector is the terminal vector as soon as it holds -1 for every stranded agent and the share
      pool / number of safe agents at every index of the safe list. */
  lemma TerminalRewardsFromEntries(env: Env, agents: seq<Agent>, v: seq<real>, share: real)
    requires |v| == |agents|
    requires forall j :: 0 <= j < |v| && !SafeZone(env, agents[j].pos) ==> v[j] == -1.0
    requires forall k :: 0 <= k < |SafeIndices(env, agents)| ==> v[SafeIndices(env, agents)[k]] == share
    requires SafeIndices(env, agents) != [] ==> share == Pool(env, agents) / |SafeIndices(env, agents)| as real
    ensures v == TerminalRewards(env, agents)
  {
    var expected := TerminalRewards(env, agents);
    forall j | 0 <= j < |agents|
      ensures v[j] == expected[j]
    {
      if SafeZone(env, agents[j].pos) {
        SafeAgentListed(env, agents, j);
        var k :| 0 <= k < |SafeIndices(env, agents)| && SafeIndices(env, agents)[k] == j;
      }
    }
  }

  /** The evaluator's result at step `stepCount`: nothing before the horizon, the terminal vector from it on. */
  function StepRewards(env: Env, agents: seq<Agent>, stepCount: int): (r: Option<seq<real>>)
    ensures r.None? <==> stepCount < env.maxSteps
  {
    if stepCount >= env.maxSteps then Some(TerminalRewards(env, agents)) else None
  }

  /** The evaluator as the source runs it: one pass that collects the safe indices, sums the pool and
      penalises the stranded agents, then one pass over the safe indices that writes the shares. */
  method ComputeRewards(env: Env, agents: seq<Agent>, stepCount: int) returns (r: Option<seq<real>>)
    ensures r == StepRewards(env, agents, stepCount)
  {
    if stepCount >= env.maxSteps {
      var safeIxs: seq<nat> := [];
      var totalReward := 0.0;
      var stepRewards := new real[|agents|](_ => 0.0);
      for ix := 0 to |agents|
        invariant safeIxs == SafeIndices(env, agents[..ix])
        invariant totalReward == Pool(env, agents[..ix])
        invariant forall j :: 0 <= j < ix && !SafeZone(env, agents[j].pos) ==> stepRewards[j] == -1.0
      {
        PrefixStep(env, agents, ix);
        if SafeZone(env, agents[ix].pos) {
          safeIxs := safeIxs + [ix];
          match agents[ix].carrying {
            case GoodBerry => totalReward := totalReward + env.goodBerryReward;
            case PoisonedBerry => totalReward := totalReward + env.poisonedBerryReward;
            case Nothing =>
          }
        } else {
          stepRewards[ix] := -1.0;
        }
      }
      assert agents[..|agents|] == agents;
      ghost var penalised := stepRewards[..];
      ShareAmongSafe(stepRewards, safeIxs, totalReward);
      ghost var share := if safeIxs == [] then 0.0 else totalReward / |safeIxs| as real;
      forall j | 0 <= j < |agents| && !SafeZone(env, agents[j].pos)
        ensures stepRewards[j] == -1.0
      {
        assert penalised[j] == -1.0;
      }
      TerminalRewardsFromEntries(env, agents, stepRewards[..], share);
      r := Some(stepRewards[..]);
    } else {
      r := None;
    }
  }

  /** The second loop of the evaluator: every listed index receives the same share of the pool, and
      every other entry keeps its value. */
  method ShareAmongSafe(stepRewards: array<real>, safeIxs: seq<nat>, totalReward: real)
    requires forall k :: 0 <= k < |safeIxs| ==> safeIxs[k] < stepRewards.Length
    modifies stepRewards
    ensures forall k :: 0 <= k < |safeIxs| ==> stepRewards[safeIxs[k]] == totalReward / |safeIxs| as real
    ensures forall j :: 0 <= j < stepRewards.Length && j !in safeIxs ==> stepRewards[j] == old(stepRewards[j])
  {
    for i := 0 to |safeIxs|
      invariant forall k :: 0 <= k < i ==> stepRewards[safeIxs[k]] == totalReward / |safeIxs| as real
      invariant forall j :: 0 <= j < stepRewards.Length && j !in safeIxs ==> stepRewards[j] == old(stepRewards[j])
    {
      stepRewards[safeIxs[i]] := totalReward / |safeIxs| as real;
    }
  }

  /** A stranded agent's terminal reward is -1, whatever it carries. */
  lemma StrandedPenalised(env: Env, agents: seq<Agent>, i: nat)
    requires i < |agents| && !SafeZone(env, agents[i].pos)
    ensures TerminalRewards(env, agents)[i] == -1.0
  {
  }

  /** A safe agent's terminal reward is the pool divided by the number of safe agents, which is then positive. */
  lemma SafeAgentGetsShare(env: Env, agents: seq<Agent>, i: nat)
    requires i < |agents| && SafeZone(env, agents[i].pos)
    ensures |SafeIndices(env, agents)| > 0
    ensures TerminalRewards(env, agents)[i] == Pool(env, agents) / |SafeIndices(env, agents)| as real
  {
    SafeAgentListed(env, agents, i);
  }

  /** All safe agents receive the same reward. */
  lemma SafeAgentsShareEqually(env: Env, agents: seq<Agent>, i: nat, j: nat)
    requires i < |agents| && SafeZone(env, agents[i].pos)
    requires j < |agents| && SafeZone(env, agents[j].pos)
    ensures TerminalRewards(env, agents)[i] == TerminalRewards(env, agents)[j]
  {
    SafeAgentGetsShare(env, agents, i);
  }

  /** There is no safe agent exactly when the safe-index list is empty, and then every entry is -1. */
  lemma NoSafeAgentsAllPenalised(env: Env, agents: seq<Agent>)
    ensures SafeIndices(env, agents) == [] <==> forall i :: 0 <= i < |agents| ==> !SafeZone(env, agents[i].pos)
    ensures SafeIndices(env, agents) == [] ==> forall i :: 0 <= i < |agents| ==> TerminalRewards(env, agents)[i] == -1.0
  {
    if SafeIndices(env, agents) == [] {
      forall i | 0 <= i < |agents| ensures !SafeZone(env, agents[i].pos) {
        if SafeZone(env, agents[i].pos) {
          SafeAgentListed(env, agents, i);
        }
      }
    } else {
      var k := SafeIndices(env, agents)[0];
      assert SafeZone(env, agents[k].pos);
    }
  }

  /** `n` copies of `x` added up. */
  function Repeated(x: real, n: nat): real
  {
    if n == 0 then 0.0 else Repeated(x, n - 1) + x
  }

  /** Adding up `n` copies of `x` is multiplying `x` by `n`. */
  lemma {:induction false} RepeatedIsProduct(x: real, n: nat)
    ensures Repeated(x, n) == x * n as real
  {
    if n > 0 {
      RepeatedIsProduct(x, n - 1);
    }
  }

  /** The pool is one good reward per safe good berry plus one poisoned reward per safe poisoned berry. */
  lemma {:induction false} PoolByRepeat(env: Env, agents: seq<Agent>)
    ensures Pool(env, agents) ==
      Repeated(env.goodBerryReward, SafeCarrying(env, agents, GoodBerry))
      + Repeated(env.poisonedBerryReward, SafeCarrying(env, agents, PoisonedBerry))
  {
    if agents != [] {
      PoolByRepeat(env, agents[..|agents| - 1]);
    }
  }

  /** The pool counts each safe good berry at the good reward and each safe poisoned berry at the poisoned reward. */
  lemma {:induction false} PoolByKind(env: Env, agents: seq<Agent>)
    ensures Pool(env, agents) ==
      env.goodBerryReward * SafeCarrying(env, agents, GoodBerry) as real
      + env.poisonedBerryReward * SafeCarrying(env, agents, PoisonedBerry) as real
  {
    PoolByRepeat(env, agents);
    RepeatedPairIsProducts(Pool(env, agents), env.goodBerryReward, SafeCarrying(env, agents, GoodBerry),
      env.poisonedBerryReward, SafeCarrying(env, agents, PoisonedBerry));
  }

  /** An amount made of two repeated additions is the sum of the two products. */
  lemma RepeatedPairIsProducts(total: real, x: real, m: nat, y: real, n: nat)
    requires total == Repeated(x, m) + Repeated(y, n)
    ensures total == x * m as real + y * n as real
  {
    RepeatedIsProduct(x, m);
    RepeatedIsProduct(y, n);
  }

  /** The sum of the entries of `r` that belong to safe agents. */
  function SafeSum(env: Env, agents: seq<Agent>, r: seq<real>): real
    requires |r| == |agents|
  {
    if agents == [] then 0.0
    else
      var n := |agents| - 1;
      SafeSum(env, agents[..n], r[..n]) + (if SafeZone(env, agents[n].pos) then r[n] else 0.0)
  }

  lemma {:induction false} SafeSumOfEqualShares(env: Env, agents: seq<Agent>, r: seq<real>, share: real)
    requires |r| == |agents|
    requires forall i :: 0 <= i < |agents| && SafeZone(env, agents[i].pos) ==> r[i] == share
    ensures SafeSum(env, agents, r) == share * |SafeIndices(env, agents)| as real
  {
    SafeSumRepeats(env, agents, r, share);
    RepeatedIsProduct(share, |SafeIndices(env, agents)|);
  }

  /** `SafeSumOfEqualShares` with the product written as repeated addition. */
  lemma {:induction false} SafeSumRepeats(env: Env, agents: seq<Agent>, r: seq<real>, share: real)
    requires |r| == |agents|
    requires forall i :: 0 <= i < |agents| && SafeZone(env, agents[i].pos) ==> r[i] == share
    ensures SafeSum(env, agents, r) == Repeated(share, |SafeIndices(env, agents)|)
  {
    if agents != [] {
      var n := |agents| - 1;
      forall i | 0 <= i < n && SafeZone(env, agents[..n][i].pos) ensures r[..n][i] == share {
        assert agents[..n][i] == agents[i];
      }
      SafeSumRepeats(env, agents[..n], r[..n], share);
    }
  }

  /** With no safe agent the pool is empty. */
  lemma {:induction false} NoSafeAgentsEmptyPool(env: Env, agents: seq<Agent>)
    requires forall i :: 0 <= i < |agents| ==> !SafeZone(env, agents[i].pos)
    ensures Pool(env, agents) == 0.0
  {
    if agents != [] {
      var n := |agents| - 1;
      assert forall i :: 0 <= i < n ==> agents[..n][i] == agents[i];
      NoSafeAgentsEmptyPool(env, agents[..n]);
    }
  }

  /** The safe agents' rewards add up to exactly the pool; with no safe agent both are 0. */
  lemma SafeRewardsAddUpToPool(env: Env, agents: seq<Agent>)
    ensures SafeSum(env, agents, TerminalRewards(env, agents)) == Pool(env, agents)
  {
    var k := |SafeIndices(env, agents)|;
    if k == 0 {
      NoSafeAgentsAllPenalised(env, agents);
      NoSafeAgentsEmptyPool(env, agents);
      SafeSumRepeats(env, agents, TerminalRewards(env, agents), 0.0);
    } else {
      var share := Pool(env, agents) / k as real;
      forall i | 0 <= i < |agents| && SafeZone(env, agents[i].pos)
        ensures TerminalRewards(env, agents)[i] == share
      {
        SafeAgentGetsShare(env, agents, i);
      }
      SafeSumOfEqualShares(env, agents, TerminalRewards(env, agents), share);
      ShareTimesCount(Pool(env, agents), k as real);
    }
  }

  /** Dividing by a non-zero count and multiplying back gives the original amount. */
  lemma ShareTimesCount(pool: real, count: real)
    requires count != 0.0
    ensures pool / count * count == pool
  {
  }

  /** Which agents are safe depends on positions only, not on what they carry. */
  lemma {:induction false} SafeIndicesIgnoreCarrying(env: Env, agents: seq<Agent>, i: nat, c: Carrying)
    requires i < |agents|
    ensures SafeIndices(env, agents[i := Agent(agents[i].pos, c)]) == SafeIndices(env, agents)
  {
    var n := |agents| - 1;
    var changed := agents[i := Agent(agents[i].pos, c)];
    if i < n {
      assert changed[..n] == agents[..n][i := Agent(agents[i].pos, c)];
      SafeIndicesIgnoreCarrying(env, agents[..n], i, c);
    } else {
      assert changed[..n] == agents[..n];
    }
  }

  /** What a stranded agent carries adds nothing to the pool. */
  lemma {:induction false} PoolIgnoresStranded(env: Env, agents: seq<Agent>, i: nat, c: Carrying)
    requires i < |agents| && !SafeZone(env, agents[i].pos)
    ensures Pool(env, agents[i := Agent(agents[i].pos, c)]) == Pool(env, agents)
  {
    var n := |agents| - 1;
    var changed := agents[i := Agent(agents[i].pos, c)];
    if i < n {
      assert changed[..n] == agents[..n][i := Agent(agents[i].pos, c)];
      PoolIgnoresStranded(env, agents[..n], i, c);
    } else {
      assert changed[..n] == agents[..n];
    }
  }

  /** Changing what a stranded agent carries changes no agent's terminal reward. */
  lemma StrandedCarryingIrrelevant(env: Env, agents: seq<Agent>, i: nat, c: Carrying)
    requires i < |agents| && !SafeZone(env, agents[i].pos)
    ensures TerminalRewards(env, agents[i := Agent(agents[i].pos, c)]) == TerminalRewards(env, agents)
  {
    SafeIndicesIgnoreCarrying(env, agents, i, c);
    PoolIgnoresStranded(env, agents, i, c);
  }

  /** With rewards 0.1 and -0.8, two safe agents, one carrying a good berry and one nothing, each get 0.05. */
  lemma ShareExample(env: Env, agents: seq<Agent>)
    requires env.wallXPos == 2 && env.goodBerryReward == 0.1 && env.poisonedBerryReward == -0.8
    requires agents == [Agent(Pos(1, 5), GoodBerry), Agent(Pos(2, 3), Nothing), Agent(Pos(5, 5), PoisonedBerry)]
    ensures TerminalRewards(env, agents) == [0.05, 0.05, -1.0]
  {
    assert agents[..2][..1] == agents[..1];
    assert agents[..1][..0] == [];
    assert SafeIndices(env, agents[..1]) == [0];
    assert SafeIndices(env, agents[..2]) == [0, 1];
    assert SafeIndices(env, agents) == [0, 1];
    assert Pool(env, agents[..1]) == 0.1;
    assert Pool(env, agents[..2]) == 0.1;
    assert Pool(env, agents) == 0.1;
  }
}
