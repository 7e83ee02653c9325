/** Choosing the cluster member that receives a new resource: an unused
    member if there is one, else the member with the most CPU cores per
    resource it already holds (`CPUCoreUtilizationPlacementStrategy`). */
module Placement {
  import opened Wrappers

  /** A cluster member (`DistributedInstance`): equal members are the same
      member. Its core count is reported by the member and may be unknown,
      which shows as a count of zero or below. */
  datatype Instance = Instance(address: string, cpuCores: int)

  /** Java's `/` on integers, which rounds toward zero. */
  function JavaDiv(a: int, b: int): (r: int)
    requires b > 0
    ensures a >= 0 ==> r * b <= a < (r + 1) * b
    ensures a < 0 ==> (r - 1) * b < a <= r * b
  {
    if a >= 0 then a / b else -((-a) / b)
  }

  /** `calculateUsageFactor`: cores per resource held; only defined for a
      member that holds at least one resource. */
  function CalculateUsageFactor(usage: multiset<Instance>, instance: Instance): (r: int)
    requires usage[instance] > 0
    ensures instance.cpuCores >= 0 ==> r >= 0 && r * usage[instance] <= instance.cpuCores < (r + 1) * usage[instance]
  {
    JavaDiv(instance.cpuCores, usage[instance])
  }

  /** A member that holds no resource yet. */
  predicate Unused(available: seq<Instance>, usage: multiset<Instance>, i: int)
    requires 0 <= i < |available|
  {
    usage[available[i]] == 0
  }

  /** The first member that holds no resource yet. */
  predicate FirstUnused(available: seq<Instance>, usage: multiset<Instance>, i: int)
    requires 0 <= i < |available|
  {
    Unused(available, usage, i) && forall j :: 0 <= j < i ==> !Unused(available, usage, j)
  }

  /** A member whose core count is known. */
  predicate HasCores(available: seq<Instance>, i: int)
    requires 0 <= i < |available|
  {
    available[i].cpuCores > 0
  }

  /** Slot `k` among the first `n` members has known cores and the highest
      usage factor, and is the earliest with that factor. */
  predicate BestAmong(available: seq<Instance>, usage: multiset<Instance>, n: int, k: int)
    requires 0 <= n <= |available|
  {
    0 <= k < n && HasCores(available, k) && usage[available[k]] > 0 &&
    forall j :: 0 <= j < n && HasCores(available, j) && usage[available[j]] > 0 ==>
      CalculateUsageFactor(usage, available[j]) <= CalculateUsageFactor(usage, available[k]) &&
      (j < k ==> CalculateUsageFactor(usage, available[j]) < CalculateUsageFactor(usage, available[k]))
  }

  /** At most one slot is the best: the contract below fixes the result. */
  lemma BestIsUnique(available: seq<Instance>, usage: multiset<Instance>, k1: int, k2: int)
    requires forall i :: 0 <= i < |available| ==> usage[available[i]] > 0
    requires BestAmong(available, usage, |available|, k1) && BestAmong(available, usage, |available|, k2)
    ensures k1 == k2
  {
  }

  /** `getSystemWithLowestUsage`: the first unused member, if there is one;
      otherwise the best member with known cores; `None` when there is
      neither. */
  method GetSystemWithLowestUsage(available: seq<Instance>, usage: multiset<Instance>) returns (r: Option<Instance>)
    ensures forall i :: 0 <= i < |available| && FirstUnused(available, usage, i) ==> r == Some(available[i])
    ensures (forall i :: 0 <= i < |available| ==> !Unused(available, usage, i)) ==>
              (r.None? <==> forall i :: 0 <= i < |available| ==> !HasCores(available, i)) &&
              (r.Some? ==> exists k :: BestAmong(available, usage, |available|, k) && r == Some(available[k]))
    ensures r.Some? ==> r.value in available && (usage[r.value] == 0 || r.value.cpuCores > 0)
  {
    var possibleSystem: Option<Instance> := None;
    var cpuCoreUsageFactor := 0;
    ghost var best := 0;
    var i := 0;
    while i < |available|
      invariant 0 <= i <= |available|
      invariant forall j :: 0 <= j < i ==> !Unused(available, usage, j)
      invariant possibleSystem.None? <==> forall j :: 0 <= j < i ==> !HasCores(available, j)
      invariant possibleSystem.Some? ==>
                  BestAmong(available, usage, i, best) && possibleSystem == Some(available[best]) &&
                  cpuCoreUsageFactor == CalculateUsageFactor(usage, available[best])
    {
      var instance := available[i];
      if usage[instance] == 0 {
        assert Unused(available, usage, i);
        return Some(instance);
      }
      assert HasCores(available, i) == (instance.cpuCores > 0);
      if instance.cpuCores > 0 {
        if possibleSystem.None? {
          possibleSystem := Some(instance);
          cpuCoreUsageFactor := CalculateUsageFactor(usage, instance);
          best := i;
        } else if CalculateUsageFactor(usage, instance) > cpuCoreUsageFactor {
          possibleSystem := Some(instance);
          cpuCoreUsageFactor := CalculateUsageFactor(usage, instance);
          best := i;
        }
      }
      i := i + 1;
    }
    r := possibleSystem;
  }
}
