/** The one-pass check of a route's weighted targets, against what it accepts in the end. */
module RouteTargets {
  import opened Wrappers

  /** A target as it is read: a field that is not a text, or no finite number, is absent. */
  datatype Target = Target(deployment: Option<string>, priority: Option<real>, weight: Option<real>)

  datatype TargetError = NotAList | NoDeployment | RepeatedDeployment | OutOfRange | TierTooHeavy

  const MAX_TIER_WEIGHT: int := 256

  predicate HasDeployment(target: Target) {
    target.deployment.Some? && target.deployment.value != ""
  }

  predicate IsInteger(number: Option<real>) {
    number.Some? && number.value.Floor as real == number.value
  }

  predicate IsInRange(target: Target) {
    && IsInteger(target.priority) && 0.0 <= target.priority.value <= 255.0
    && IsInteger(target.weight) && 1.0 <= target.weight.value <= 256.0
  }

  function Priority(target: Target): (priority: int)
    requires IsInRange(target)
  {
    target.priority.value.Floor
  }

  function Weight(target: Target): (weight: int)
    requires IsInRange(target)
    ensures 1 <= weight <= 256
  {
    target.weight.value.Floor
  }

  function Contribution(target: Target, tier: int): nat {
    if IsInRange(target) && Priority(target) == tier then Weight(target) else 0
  }

  function TierWeight(targets: seq<Target>, tier: int): nat {
    if targets == [] then 0
    else TierWeight(targets[..|targets| - 1], tier) + Contribution(targets[|targets| - 1], tier)
  }

  predicate Distinct(targets: seq<Target>) {
    forall i, j :: 0 <= i < j < |targets| ==> targets[i].deployment != targets[j].deployment
  }

  /** A complete set of targets, whatever the order it is written in. */
  ghost predicate Acceptable(targets: seq<Target>) {
    && (forall i :: 0 <= i < |targets| ==> HasDeployment(targets[i]) && IsInRange(targets[i]))
    && Distinct(targets)
    && forall tier :: TierWeight(targets, tier) <= MAX_TIER_WEIGHT
  }

  predicate Names(targets: seq<Target>, id: string) {
    exists i :: 0 <= i < |targets| && targets[i].deployment == Some(id)
  }

  /** What is wrong with a target after others that are in order, checked in this order. */
  function Fault(before: seq<Target>, target: Target): Option<TargetError> {
    if !HasDeployment(target) then Some(NoDeployment)
    else if Names(before, target.deployment.value) then Some(RepeatedDeployment)
    else if !IsInRange(target) then Some(OutOfRange)
    else if TierWeight(before, Priority(target)) + Weight(target) > MAX_TIER_WEIGHT then Some(TierTooHeavy)
    else None
  }

  /** The running totals are the weights of their tiers, and tiers without a total have none. */
  ghost predicate Tallied(targets: seq<Target>, tiers: map<int, int>) {
    forall tier :: TierWeight(targets, tier) == if tier in tiers then tiers[tier] else 0
  }

  lemma TalliedWithOneMore(before: seq<Target>, target: Target, tiers: map<int, int>)
    requires Tallied(before, tiers) && IsInRange(target)
    ensures var total := (if Priority(target) in tiers then tiers[Priority(target)] else 0) + Weight(target);
            Tallied(before + [target], tiers[Priority(target) := total])
  {
    TierWeightsWithOneMore(before, target);
  }

  method ValidateRouteTargets(value: Option<seq<Target>>) returns (result: Result<(), TargetError>)
    ensures result.Ok? <==> value.Some? && Acceptable(value.value)
    ensures value.None? ==> result == Err(NotAList)
    ensures value.Some? && result.Err? ==>
              exists i :: 0 <= i < |value.value| && Acceptable(value.value[..i])
                          && Fault(value.value[..i], value.value[i]) == Some(result.error)
  {
    if value.None? {
      return Err(NotAList);
    }
    var targets := value.value;
    var ids: set<string> := {};
    var tiers: map<int, int> := map[];
    for i := 0 to |targets|
      invariant Acceptable(targets[..i])
      invariant forall id :: id in ids <==> Names(targets[..i], id)
      invariant Tallied(targets[..i], tiers)
    {
      var target := targets[i];
      ghost var before := targets[..i];
      assert targets[..i + 1] == before + [target];
      AcceptableStepByStep(before, target);
      if Fault(before, target).Some? {
        RejectedForGood(targets, i + 1);
      }
      if target.deployment.None? || target.deployment.value == "" {
        return Err(NoDeployment);
      }
      var id := target.deployment.value;
      if id in ids {
        return Err(RepeatedDeployment);
      }
      NamesWithOneMore(before, target);
      ids := ids + {id};
      if !IsInRange(target) {
        return Err(OutOfRange);
      }
      var priority := Priority(target);
      var total := (if priority in tiers then tiers[priority] else 0) + Weight(target);
      if total > MAX_TIER_WEIGHT {
        return Err(TierTooHeavy);
      }
      TalliedWithOneMore(before, target, tiers);
      tiers := tiers[priority := total];
    }
    assert targets[..|targets|] == targets;
    return Ok(());
  }

  // ---- Stopping early, and order ---------------------------------------------------------------------------

  lemma NamesWithOneMore(before: seq<Target>, target: Target)
    ensures forall id :: Names(before + [target], id) <==> Names(before, id) || target.deployment == Some(id)
  {
    var after := before + [target];
    assert after[|before|] == target && forall i :: 0 <= i < |before| ==> after[i] == before[i];
    forall id | Names(before, id) || target.deployment == Some(id)
      ensures Names(after, id)
    {
      if Names(before, id) {
        var i :| 0 <= i < |before| && before[i].deployment == Some(id);
        assert after[i].deployment == Some(id);
      }
    }
  }

  lemma TierWeightsWithOneMore(before: seq<Target>, target: Target)
    ensures forall tier :: TierWeight(before + [target], tier) == TierWeight(before, tier) + Contribution(target, tier)
  {
  }

  lemma AcceptableStepByStep(before: seq<Target>, target: Target)
    requires Acceptable(before)
    ensures Acceptable(before + [target]) <==> Fault(before, target).None?
  {
    var after := before + [target];
    TierWeightsWithOneMore(before, target);
    assert after[|before|] == target && forall i :: 0 <= i < |before| ==> after[i] == before[i];
    if Acceptable(after) {
      assert TierWeight(after, Priority(target)) <= MAX_TIER_WEIGHT;
    }
  }

  lemma {:induction false} LongerTiersAreHeavier(targets: seq<Target>, n: nat, tier: int)
    requires n <= |targets|
    ensures TierWeight(targets[..n], tier) <= TierWeight(targets, tier)
  {
    if n == |targets| {
      assert targets[..n] == targets;
    } else {
      var init := targets[..|targets| - 1];
      assert init[..n] == targets[..n];
      LongerTiersAreHeavier(init, n, tier);
    }
  }

  /** Stopping at the first target that breaks a rule gives the verdict on the whole list. */
  lemma RejectedForGood(targets: seq<Target>, n: nat)
    requires n <= |targets| && !Acceptable(targets[..n])
    ensures !Acceptable(targets)
  {
    if Acceptable(targets) {
      forall tier
        ensures TierWeight(targets[..n], tier) <= MAX_TIER_WEIGHT
      {
        LongerTiersAreHeavier(targets, n, tier);
      }
      assert false;
    }
  }

  function Without(targets: seq<Target>, i: nat): seq<Target>
    requires i < |targets|
  {
    targets[..i] + targets[i + 1..]
  }

  lemma {:induction false} TierWeightWithout(targets: seq<Target>, i: nat, tier: int)
    requires i < |targets|
    ensures TierWeight(targets, tier) == TierWeight(Without(targets, i), tier) + Contribution(targets[i], tier)
  {
    var n := |targets| - 1;
    if i == n {
      assert Without(targets, i) == targets[..n];
    } else {
      TierWeightWithout(targets[..n], i, tier);
      assert Without(targets, i)[..n - 1] == Without(targets[..n], i);
      assert Without(targets, i)[n - 1] == targets[n];
    }
  }

  lemma OneLess(targets: seq<Target>, i: nat)
    requires i < |targets|
    ensures multiset(Without(targets, i)) == multiset(targets) - multiset{targets[i]}
  {
    assert targets == targets[..i] + ([targets[i]] + targets[i + 1..]);
  }

  lemma {:induction false} TierWeightIgnoresOrder(a: seq<Target>, b: seq<Target>, tier: int)
    requires multiset(a) == multiset(b)
    ensures TierWeight(a, tier) == TierWeight(b, tier)
  {
    if a == [] {
      assert |multiset(b)| == 0;
    } else {
      var n := |a| - 1;
      assert a == a[..n] + [a[n]];
      assert a[n] in multiset(b);
      var i :| 0 <= i < |b| && b[i] == a[n];
      assert multiset(a[..n]) == multiset(a) - multiset{a[n]};
      OneLess(b, i);
      TierWeightWithout(b, i, tier);
      TierWeightIgnoresOrder(a[..n], Without(b, i), tier);
    }
  }

  lemma TwoPlacesCountTwice(targets: seq<Target>, i: nat, j: nat)
    requires i < j < |targets| && targets[i] == targets[j]
    ensures multiset(targets)[targets[i]] >= 2
  {
    assert targets == targets[..i] + [targets[i]] + targets[i + 1..j] + [targets[j]] + targets[j + 1..];
  }

  lemma {:induction false} CountedTwiceMeansTwoPlaces(targets: seq<Target>, target: Target)
    requires multiset(targets)[target] >= 2
    ensures exists i, j :: 0 <= i < j < |targets| && targets[i] == target && targets[j] == target
  {
    var n := |targets| - 1;
    assert targets == targets[..n] + [targets[n]];
    if targets[n] == target {
      assert target in multiset(targets[..n]);
      var i :| 0 <= i < n && targets[..n][i] == target;
      assert targets[i] == target;
    } else {
      CountedTwiceMeansTwoPlaces(targets[..n], target);
      var i, j :| 0 <= i < j < n && targets[..n][i] == target && targets[..n][j] == target;
      assert targets[i] == target && targets[j] == target;
    }
  }

  lemma DistinctnessIgnoresOrder(a: seq<Target>, b: seq<Target>)
    requires multiset(a) == multiset(b) && Distinct(a)
    ensures Distinct(b)
  {
    forall i, j | 0 <= i < j < |b|
      ensures b[i].deployment != b[j].deployment
    {
      if b[i] == b[j] {
        TwoPlacesCountTwice(b, i, j);
        CountedTwiceMeansTwoPlaces(a, b[i]);
      } else {
        assert b[i] in multiset(a) && b[j] in multiset(a);
        var k :| 0 <= k < |a| && a[k] == b[i];
        var l :| 0 <= l < |a| && a[l] == b[j];
      }
    }
  }

  /** Rearranging the targets never changes the verdict. */
  lemma AcceptanceIgnoresOrder(a: seq<Target>, b: seq<Target>)
    requires multiset(a) == multiset(b)
    ensures Acceptable(a) <==> Acceptable(b)
  {
    if Acceptable(a) {
      AcceptableInAnyOrder(a, b);
    }
    if Acceptable(b) {
      AcceptableInAnyOrder(b, a);
    }
  }

  lemma AcceptableInAnyOrder(a: seq<Target>, b: seq<Target>)
    requires multiset(a) == multiset(b) && Acceptable(a)
    ensures Acceptable(b)
  {
    forall i | 0 <= i < |b|
      ensures HasDeployment(b[i]) && IsInRange(b[i])
    {
      assert b[i] in multiset(a);
    }
    DistinctnessIgnoresOrder(a, b);
    forall tier
      ensures TierWeight(b, tier) <= MAX_TIER_WEIGHT
    {
      TierWeightIgnoresOrder(a, b, tier);
    }
  }

  /** The fields hold these integers. */
  predicate HoldsIntegers(target: Target, priority: int, weight: int) {
    target.priority == Some(priority as real) && target.weight == Some(weight as real)
  }

  /** In integers: priorities up to 255 and weights from 1 to 256. */
  lemma InRangeExactlyWhen(target: Target)
    ensures IsInRange(target) <==>
            exists priority, weight ::
              HoldsIntegers(target, priority, weight) && 0 <= priority <= 255 && 1 <= weight <= 256
  {
    if IsInRange(target) {
      assert HoldsIntegers(target, target.priority.value.Floor, target.weight.value.Floor);
    }
  }
}
