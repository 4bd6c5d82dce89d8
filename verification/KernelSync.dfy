/** Bringing the kernel's rule table in line with a plan: the rule half of
    server/internal/ebpf/loader_linux.go. Every map operation may fail. */
module KernelSync {
  import opened Prelude
  import opened ForwardingRules
  import opened KernelPlan

  /** Which key each planned rule occupies; a later entry of the same id wins. */
  function KeysById(plan: seq<PlannedRule>): map<uint32, RuleKey> {
    if plan == [] then map[]
    else KeysById(plan[..|plan| - 1])[plan[|plan| - 1].ruleID := plan[|plan| - 1].key]
  }

  /** Keys that were written for an earlier plan and are not wanted in the target table. */
  ghost function StaleKeys(tracked: map<uint32, RuleKey>, target: KernelTable): set<RuleKey> {
    tracked.Values - target.Keys
  }

  /** A completed synchronisation: stale keys gone, the target written over the rest. */
  ghost predicate Synced(before: KernelTable, tracked: map<uint32, RuleKey>, target: KernelTable, after: KernelTable) {
    after == (before - StaleKeys(tracked, target)) + target
  }

  /** An interrupted one: so many entries of the plan are written and, only once all are, some stale keys are gone. */
  ghost predicate Interrupted(before: KernelTable, tracked: map<uint32, RuleKey>, plan: seq<PlannedRule>, written: nat,
                              after: KernelTable) {
    written <= |plan| && exists gone: set<RuleKey> ::
      && gone <= StaleKeys(tracked, TableOf(plan))
      && (gone != {} ==> written == |plan|)
      && after == (before - gone) + TableOf(plan[..written])
  }

  lemma InterruptedAt(before: KernelTable, tracked: map<uint32, RuleKey>, plan: seq<PlannedRule>,
                      written: nat, gone: set<RuleKey>, after: KernelTable)
    requires written <= |plan| && gone <= StaleKeys(tracked, TableOf(plan)) && (gone != {} ==> written == |plan|)
    requires after == (before + TableOf(plan[..written])) - gone
    ensures Interrupted(before, tracked, plan, written, after)
  {
    assert plan[..|plan|] == plan;
    assert after == (before - gone) + TableOf(plan[..written]);
  }

  lemma SyncedAt(before: KernelTable, tracked: map<uint32, RuleKey>, plan: seq<PlannedRule>, after: KernelTable)
    requires after == (before + TableOf(plan[..|plan|])) - StaleKeys(tracked, TableOf(plan))
    ensures Synced(before, tracked, TableOf(plan), after)
  {
    assert plan[..|plan|] == plan;
  }

  lemma TableOfPrefix(plan: seq<PlannedRule>, n: nat)
    requires n < |plan|
    ensures TableOf(plan[..n + 1]) == TableOf(plan[..n])[plan[n].key := plan[n].value]
    ensures KeysById(plan[..n + 1]) == KeysById(plan[..n])[plan[n].ruleID := plan[n].key]
  {
    assert plan[..n + 1][..n] == plan[..n];
  }

  lemma {:induction false} TableKeys(plan: seq<PlannedRule>, key: RuleKey)
    ensures key in TableOf(plan) <==> exists k :: 0 <= k < |plan| && plan[k].key == key
  {
    if plan != [] {
      var n := |plan| - 1;
      TableKeys(plan[..n], key);
      if exists k :: 0 <= k < |plan| && plan[k].key == key {
        var k :| 0 <= k < |plan| && plan[k].key == key;
        assert k < n ==> plan[..n][k].key == key;
      }
    }
  }

  lemma {:induction false} KeysByIdEntries(plan: seq<PlannedRule>)
    requires forall a, b :: 0 <= a < b < |plan| ==> plan[a].ruleID != plan[b].ruleID
    ensures forall k :: 0 <= k < |plan| ==>
      plan[k].ruleID in KeysById(plan) && KeysById(plan)[plan[k].ruleID] == plan[k].key
    ensures forall id :: id in KeysById(plan) ==> exists k :: 0 <= k < |plan| && plan[k].ruleID == id
  {
    if plan != [] {
      var init := plan[..|plan| - 1];
      KeysByIdEntries(init);
      assert forall k :: 0 <= k < |init| ==> init[k] == plan[k];
    }
  }

  /** With distinct rule ids, the tracked keys are the keys of the table. */
  lemma TrackedKeysAreTableKeys(plan: seq<PlannedRule>)
    requires forall a, b :: 0 <= a < b < |plan| ==> plan[a].ruleID != plan[b].ruleID
    ensures KeysById(plan).Values == TableOf(plan).Keys
  {
    KeysByIdEntries(plan);
    forall key
      ensures key in KeysById(plan).Values <==> key in TableOf(plan).Keys
    {
      TableKeys(plan, key);
      if key in TableOf(plan) {
        var k :| 0 <= k < |plan| && plan[k].key == key;
        assert KeysById(plan)[plan[k].ruleID] == key;
      }
      if key in KeysById(plan).Values {
        var id :| id in KeysById(plan) && KeysById(plan)[id] == key;
        var k :| 0 <= k < |plan| && plan[k].ruleID == id;
      }
    }
  }

  /** A completed synchronisation leaves exactly the target table if and only if every key that was present
      but not tracked is one the target wants: an untracked key is never removed. */
  lemma SyncedIsExactIffNothingUntracked(before: KernelTable, tracked: map<uint32, RuleKey>, target: KernelTable,
                                         after: KernelTable)
    requires Synced(before, tracked, target, after)
    ensures after == target <==> before.Keys - tracked.Values <= target.Keys
  {
    if before.Keys - tracked.Values <= target.Keys {
      assert after.Keys == target.Keys;
    } else {
      var key :| key in before.Keys - tracked.Values && key !in target;
      assert key in after;
    }
  }

  /** Which map operations fail during one synchronisation. */
  datatype Faults = Faults(device: uint32 -> bool, update: RuleKey -> bool, delete: RuleKey -> bool)

  predicate WriteFails(faults: Faults, key: RuleKey, value: RuleValue) {
    (value.action == KERNEL_REDIRECT && faults.device(value.ifIndex)) || faults.update(key)
  }

  ghost predicate AllWritesSucceed(faults: Faults, plan: seq<PlannedRule>) {
    forall k :: 0 <= k < |plan| ==> !WriteFails(faults, plan[k].key, plan[k].value)
  }

  /** The first n entries of the plan can be written and the next one, if any, cannot. */
  ghost predicate StopsAfter(faults: Faults, plan: seq<PlannedRule>, n: nat) {
    && n <= |plan|
    && AllWritesSucceed(faults, plan[..n])
    && (n < |plan| ==> WriteFails(faults, plan[n].key, plan[n].value))
  }

  ghost predicate AllDeletesSucceed(faults: Faults, tracked: map<uint32, RuleKey>, target: KernelTable) {
    forall key :: key in StaleKeys(tracked, target) ==> !faults.delete(key)
  }

  /** Every redirect of the plan has its device registered. */
  ghost predicate DevicesRegistered(plan: seq<PlannedRule>, devMap: set<uint32>) {
    forall k :: 0 <= k < |plan| && plan[k].value.action == KERNEL_REDIRECT ==> plan[k].value.ifIndex in devMap
  }

  /** The BPF maps of a loaded XDP program. */
  class KernelMaps {
    var rules: KernelTable
    var devMap: set<uint32>
  }

  class Loader {
    const kernel: KernelMaps
    const maxKernelRules: nat
    var kernelRuleKeys: map<uint32, RuleKey>

    /** Every key of the kernel table is one this loader knows it wrote. */
    ghost predicate Coherent()
      reads this, kernel
    {
      kernel.rules.Keys == kernelRuleKeys.Values
    }

    constructor (kernel: KernelMaps, maxKernelRules: nat)
      requires kernel.rules == map[]
      ensures this.kernel == kernel && this.maxKernelRules == maxKernelRules
      ensures kernelRuleKeys == map[] && Coherent()
    {
      this.kernel, this.maxKernelRules, kernelRuleKeys := kernel, maxKernelRules, map[];
    }

    method RebuildKernelRules(plan: seq<PlannedRule>, faults: Faults) returns (ok: bool, ghost written: nat)
      modifies this`kernelRuleKeys, kernel
      ensures ok <==>
        && |plan| <= maxKernelRules
        && AllWritesSucceed(faults, plan)
        && AllDeletesSucceed(faults, old(kernelRuleKeys), TableOf(plan))
      ensures ok ==> Synced(old(kernel.rules), old(kernelRuleKeys), TableOf(plan), kernel.rules)
      ensures ok ==> kernelRuleKeys == KeysById(plan)
      ensures ok ==> DevicesRegistered(plan, kernel.devMap)
      ensures !ok ==> Interrupted(old(kernel.rules), old(kernelRuleKeys), plan, written, kernel.rules)
      ensures !ok ==> kernelRuleKeys == old(kernelRuleKeys)
      ensures if |plan| > maxKernelRules then written == 0 && kernel.rules == old(kernel.rules)
              else StopsAfter(faults, plan, written)
      ensures old(kernel.devMap) <= kernel.devMap
    {
      ghost var before := kernel.rules;
      if |plan| > maxKernelRules {
        InterruptedAt(before, kernelRuleKeys, plan, 0, {}, kernel.rules);
        return false, 0;
      }
      ok, written := WriteRules(plan, faults);
      if !ok {
        InterruptedAt(before, kernelRuleKeys, plan, written, {}, kernel.rules);
        return;
      }
      ghost var gone: set<RuleKey>;
      ok, gone := DeleteStaleRules(plan, faults);
      if !ok {
        InterruptedAt(before, kernelRuleKeys, plan, written, gone, kernel.rules);
        return;
      }
      SyncedAt(before, kernelRuleKeys, plan, kernel.rules);
      kernelRuleKeys := DesiredRuleKeys(plan);
    }

    method WriteRules(plan: seq<PlannedRule>, faults: Faults) returns (ok: bool, ghost written: nat)
      modifies kernel
      ensures old(kernel.devMap) <= kernel.devMap
      ensures StopsAfter(faults, plan, written) && kernel.rules == old(kernel.rules) + TableOf(plan[..written])
      ensures ok <==> written == |plan|
      ensures ok <==> AllWritesSucceed(faults, plan)
      ensures ok ==> DevicesRegistered(plan, kernel.devMap)
    {
      for n := 0 to |plan|
        invariant AllWritesSucceed(faults, plan[..n])
        invariant kernel.rules == old(kernel.rules) + TableOf(plan[..n])
        invariant old(kernel.devMap) <= kernel.devMap
        invariant DevicesRegistered(plan[..n], kernel.devMap)
      {
        TableOfPrefix(plan, n);
        ok := WriteRule(plan[n], faults);
        if !ok {
          return false, n;
        }
      }
      assert plan[..|plan|] == plan;
      return true, |plan|;
    }

    method WriteRule(rule: PlannedRule, faults: Faults) returns (ok: bool)
      modifies kernel
      ensures ok <==> !WriteFails(faults, rule.key, rule.value)
      ensures kernel.rules == if ok then old(kernel.rules)[rule.key := rule.value] else old(kernel.rules)
      ensures old(kernel.devMap) <= kernel.devMap
      ensures ok && rule.value.action == KERNEL_REDIRECT ==> rule.value.ifIndex in kernel.devMap
    {
      if rule.value.action == KERNEL_REDIRECT {
        if faults.device(rule.value.ifIndex) {
          return false;
        }
        kernel.devMap := kernel.devMap + {rule.value.ifIndex};
      }
      if faults.update(rule.key) {
        return false;
      }
      kernel.rules := kernel.rules[rule.key := rule.value];
      return true;
    }

    method DeleteStaleRules(plan: seq<PlannedRule>, faults: Faults) returns (ok: bool, ghost gone: set<RuleKey>)
      modifies kernel`rules
      ensures gone <= StaleKeys(kernelRuleKeys, TableOf(plan)) && kernel.rules == old(kernel.rules) - gone
      ensures ok <==> AllDeletesSucceed(faults, kernelRuleKeys, TableOf(plan))
      ensures ok ==> gone == StaleKeys(kernelRuleKeys, TableOf(plan))
    {
      var desiredRuleKeys := DesiredRuleKeys(plan);
      var desiredKeys := TableOf(plan).Keys;
      var remaining := kernelRuleKeys.Keys;
      gone := {};
      while remaining != {}
        invariant remaining <= kernelRuleKeys.Keys
        invariant forall key :: key in gone ==> !faults.delete(key)
        invariant gone <= StaleKeys(kernelRuleKeys, TableOf(plan)) && kernel.rules == old(kernel.rules) - gone
        invariant forall id :: id in kernelRuleKeys && id !in remaining && kernelRuleKeys[id] !in desiredKeys ==>
          kernelRuleKeys[id] in gone
        decreases remaining
      {
        var id :| id in remaining;
        remaining := remaining - {id};
        var key := kernelRuleKeys[id];
        if id in desiredRuleKeys && desiredRuleKeys[id] == key {
          DesiredKeysInTable(plan, id);
        } else if key !in desiredKeys {
          if faults.delete(key) {
            return false, gone;
          }
          gone := gone + {key};
          kernel.rules := kernel.rules - {key};
        }
      }
      return true, gone;
    }

    /** One synchronisation with the rule map's current list, as its add and remove callbacks make it. */
    method SyncKernelRules(host: Host, ruleMap: RuleMap, faults: Faults) returns (ok: bool)
      requires ruleMap.Valid() && ruleMap.IdsAgree()
      modifies this`kernelRuleKeys, kernel
      ensures ok <==> SyncSucceeds(host, ruleMap.sorted, old(kernelRuleKeys), faults, maxKernelRules)
      ensures var target := CompiledTable(host, ruleMap.sorted);
        if ok then
          && Synced(old(kernel.rules), old(kernelRuleKeys), target, kernel.rules)
          && kernelRuleKeys.Values == target.Keys
        else
          && HalfWritten(host, ruleMap.sorted, faults, maxKernelRules, old(kernel.rules), kernel.rules)
          && kernelRuleKeys == old(kernelRuleKeys)
      ensures ok && old(Coherent()) ==> Coherent() && kernel.rules == CompiledTable(host, ruleMap.sorted)
      // While every synchronisation succeeds, the kernel and userspace together decide every packet as userspace alone.
      ensures ok && old(Coherent()) ==> Transparent(host, ruleMap.sorted, kernel.rules)
    {
      var plan := BuildKernelRulePlan(host, ruleMap.sorted);
      ghost var before, tracked := kernel.rules, kernelRuleKeys;
      PlanFacts(host, ruleMap, plan, faults);
      ghost var written;
      ok, written := RebuildKernelRules(plan, faults);
      if ok {
        SyncedIsExactIffNothingUntracked(before, tracked, TableOf(plan), kernel.rules);
      } else {
        InterruptedIsHalfWritten(host, ruleMap.sorted, plan, faults, maxKernelRules, before, tracked, written,
          kernel.rules);
      }
    }
  }

  // ---------- synchronising with a rule list ----------

  ghost predicate Fits(host: Host, rules: seq<ForwardingRule>, max: nat) {
    |OffloadedUpTo(host, rules, |rules|)| <= max
  }

  /** The kernel accepts the entry of the rule at position i. */
  ghost predicate Accepted(host: Host, rules: seq<ForwardingRule>, faults: Faults, i: nat)
    requires i < |rules|
  {
    match Encode(host, rules[i])
    case None => true
    case Some(e) => !WriteFails(faults, e.key, e.value)
  }

  /** Everything a synchronisation needs of the map operations. */
  ghost predicate SyncSucceeds(host: Host, rules: seq<ForwardingRule>, tracked: map<uint32, RuleKey>, faults: Faults,
                              max: nat) {
    && Fits(host, rules, max)
    && (forall i: nat :: i < |rules| && Offloadable(host, rules, i) ==> Accepted(host, rules, faults, i))
    && AllDeletesSucceed(faults, tracked, CompiledTable(host, rules))
  }

  /** The key of the rule at position i is written: it and every rule pushed before it are accepted. */
  ghost predicate Reached(host: Host, rules: seq<ForwardingRule>, faults: Faults, i: nat)
    requires i < |rules|
  {
    && Offloadable(host, rules, i)
    && forall j: nat :: j <= i && Offloadable(host, rules, j) ==> Accepted(host, rules, faults, j)
  }

  /** A synchronisation gets as far as writing this key. */
  ghost predicate KeyWritten(host: Host, rules: seq<ForwardingRule>, faults: Faults, max: nat, key: RuleKey) {
    && Fits(host, rules, max)
    && exists i: nat ::
         i < |rules| && Reached(host, rules, faults, i) && Encode(host, rules[i]).value.key == key
  }

  /** What a failed synchronisation may have done to the table: it has written exactly the entries it got to. */
  ghost predicate HalfWritten(host: Host, rules: seq<ForwardingRule>, faults: Faults, max: nat, before: KernelTable,
                              after: KernelTable) {
    && (forall key :: key in after ==> key in before || KeyWritten(host, rules, faults, max, key))
    && (forall key :: KeyWritten(host, rules, faults, max, key) ==>
          key in after && key in CompiledTable(host, rules) && after[key] == CompiledTable(host, rules)[key])
  }

  /** Positions of the plan and positions of the rules pushed correspond in order. */
  lemma PlannedAt(host: Host, rules: seq<ForwardingRule>, plan: seq<PlannedRule>, i: nat) returns (k: nat)
    requires Compiles(host, rules, OffloadedUpTo(host, rules, |rules|), plan)
    requires i < |rules| && Offloadable(host, rules, i)
    ensures k < |plan| && OffloadedUpTo(host, rules, |rules|)[k] == i
    ensures Encode(host, rules[i]) == Some(Encoded(plan[k].key, plan[k].value))
  {
    OffloadedExactly(host, rules, |rules|);
    assert i in OffloadedUpTo(host, rules, |rules|);
    k :| 0 <= k < |plan| && OffloadedUpTo(host, rules, |rules|)[k] == i;
  }

  lemma PlanWrites(host: Host, rules: seq<ForwardingRule>, plan: seq<PlannedRule>, faults: Faults)
    requires Compiles(host, rules, OffloadedUpTo(host, rules, |rules|), plan)
    ensures AllWritesSucceed(faults, plan) <==>
      forall i: nat :: i < |rules| && Offloadable(host, rules, i) ==> Accepted(host, rules, faults, i)
  {
    var chosen := OffloadedUpTo(host, rules, |rules|);
    OffloadedExactly(host, rules, |rules|);
    if AllWritesSucceed(faults, plan) {
      forall i: nat | i < |rules| && Offloadable(host, rules, i)
        ensures Accepted(host, rules, faults, i)
      {
        var k := PlannedAt(host, rules, plan, i);
        assert !WriteFails(faults, plan[k].key, plan[k].value);
      }
    } else {
      var k :| 0 <= k < |plan| && WriteFails(faults, plan[k].key, plan[k].value);
      assert chosen[k] in chosen;
      assert !Accepted(host, rules, faults, chosen[k]);
    }
  }

  lemma WrittenIsReached(host: Host, rules: seq<ForwardingRule>, plan: seq<PlannedRule>, faults: Faults, n: nat, k: nat)
    returns (i: nat)
    requires Compiles(host, rules, OffloadedUpTo(host, rules, |rules|), plan) && StopsAfter(faults, plan, n) && k < n
    ensures i < |rules| && Reached(host, rules, faults, i) && Encode(host, rules[i]).value.key == plan[k].key
  {
    var chosen := OffloadedUpTo(host, rules, |rules|);
    OffloadedExactly(host, rules, |rules|);
    i := chosen[k];
    assert i in chosen;
    forall j: nat | j <= i && Offloadable(host, rules, j)
      ensures Accepted(host, rules, faults, j)
    {
      var m := PlannedAt(host, rules, plan, j);
      assert plan[..n][m] == plan[m];
    }
  }

  lemma ReachedIsWritten(host: Host, rules: seq<ForwardingRule>, plan: seq<PlannedRule>, faults: Faults, n: nat, i: nat)
    returns (k: nat)
    requires Compiles(host, rules, OffloadedUpTo(host, rules, |rules|), plan) && StopsAfter(faults, plan, n)
    requires i < |rules| && Reached(host, rules, faults, i)
    ensures k < n && plan[k].key == Encode(host, rules[i]).value.key
  {
    var chosen := OffloadedUpTo(host, rules, |rules|);
    OffloadedExactly(host, rules, |rules|);
    k := PlannedAt(host, rules, plan, i);
    forall m | 0 <= m <= k
      ensures !WriteFails(faults, plan[m].key, plan[m].value)
    {
      assert chosen[m] in chosen && Accepted(host, rules, faults, chosen[m]);
    }
  }

  /** The entries written before the first failure belong to the rules reached. */
  lemma WrittenIffReached(host: Host, rules: seq<ForwardingRule>, plan: seq<PlannedRule>, faults: Faults, n: nat,
                          key: RuleKey)
    requires Compiles(host, rules, OffloadedUpTo(host, rules, |rules|), plan) && StopsAfter(faults, plan, n)
    ensures key in TableOf(plan[..n]) <==>
      exists i: nat :: i < |rules| && Reached(host, rules, faults, i) && Encode(host, rules[i]).value.key == key
  {
    TableKeys(plan[..n], key);
    if key in TableOf(plan[..n]) {
      var k :| 0 <= k < n && plan[..n][k].key == key;
      var _ := WrittenIsReached(host, rules, plan, faults, n, k);
    }
    if i: nat :| i < |rules| && Reached(host, rules, faults, i) && Encode(host, rules[i]).value.key == key {
      var k := ReachedIsWritten(host, rules, plan, faults, n, i);
      assert plan[..n][k].key == key;
    }
  }

  lemma InterruptedIsHalfWritten(host: Host, rules: seq<ForwardingRule>, plan: seq<PlannedRule>, faults: Faults,
                                 max: nat, before: KernelTable, tracked: map<uint32, RuleKey>, written: nat,
                                 after: KernelTable)
    requires Compiles(host, rules, OffloadedUpTo(host, rules, |rules|), plan)
    requires Interrupted(before, tracked, plan, written, after)
    requires if |plan| > max then written == 0 && after == before else StopsAfter(faults, plan, written)
    ensures HalfWritten(host, rules, faults, max, before, after)
  {
    if |plan| <= max {
      forall key
        ensures key in TableOf(plan[..written]) <==> KeyWritten(host, rules, faults, max, key)
      {
        WrittenIffReached(host, rules, plan, faults, written, key);
      }
      PlanKeysDistinct(host, rules, plan);
      PlanIsCompiledTable(host, rules, plan);
      PrefixEntries(plan, written);
    }
  }

  lemma PrefixEntries(plan: seq<PlannedRule>, n: nat)
    requires n <= |plan| && forall a, b :: 0 <= a < b < |plan| ==> plan[a].key != plan[b].key
    ensures forall key :: key in TableOf(plan[..n]) ==>
      key in TableOf(plan) && TableOf(plan[..n])[key] == TableOf(plan)[key]
  {
    TableHoldsThePlan(plan);
    TableHoldsThePlan(plan[..n]);
    forall key | key in TableOf(plan[..n])
      ensures key in TableOf(plan) && TableOf(plan[..n])[key] == TableOf(plan)[key]
    {
      var k :| 0 <= k < n && plan[..n][k].key == key;
      assert plan[..n][k] == plan[k];
    }
  }

  method DesiredRuleKeys(plan: seq<PlannedRule>) returns (keys: map<uint32, RuleKey>)
    ensures keys == KeysById(plan)
  {
    keys := map[];
    for n := 0 to |plan|
      invariant keys == KeysById(plan[..n])
    {
      TableOfPrefix(plan, n);
      keys := keys[plan[n].ruleID := plan[n].key];
    }
    assert plan[..|plan|] == plan;
  }

  lemma {:induction false} DesiredKeysInTable(plan: seq<PlannedRule>, id: uint32)
    requires id in KeysById(plan)
    ensures KeysById(plan)[id] in TableOf(plan)
  {
    var n := |plan| - 1;
    if plan[n].ruleID != id {
      DesiredKeysInTable(plan[..n], id);
    }
  }

  lemma PlanIdsDistinct(host: Host, ruleMap: RuleMap, plan: seq<PlannedRule>)
    requires ruleMap.Valid() && ruleMap.IdsAgree()
    requires Compiles(host, ruleMap.sorted, OffloadedUpTo(host, ruleMap.sorted, |ruleMap.sorted|), plan)
    ensures forall a, b :: 0 <= a < b < |plan| ==> plan[a].ruleID != plan[b].ruleID
  {
    var chosen := OffloadedUpTo(host, ruleMap.sorted, |ruleMap.sorted|);
    OffloadedExactly(host, ruleMap.sorted, |ruleMap.sorted|);
    forall a, b | 0 <= a < b < |plan|
      ensures plan[a].ruleID != plan[b].ruleID
    {
      ListedIdsDistinct(ruleMap.sorted, ruleMap.sortedIds, ruleMap.rules, chosen[a], chosen[b]);
    }
  }

  /** What a synchronisation needs to know of the compiled plan. */
  lemma PlanFacts(host: Host, ruleMap: RuleMap, plan: seq<PlannedRule>, faults: Faults)
    requires ruleMap.Valid() && ruleMap.IdsAgree()
    requires Compiles(host, ruleMap.sorted, OffloadedUpTo(host, ruleMap.sorted, |ruleMap.sorted|), plan)
    ensures TableOf(plan) == CompiledTable(host, ruleMap.sorted) && KeysById(plan).Values == TableOf(plan).Keys
    ensures Transparent(host, ruleMap.sorted, TableOf(plan))
    ensures AllWritesSucceed(faults, plan) <==>
      forall i: nat :: i < |ruleMap.sorted| && Offloadable(host, ruleMap.sorted, i) ==>
        Accepted(host, ruleMap.sorted, faults, i)
  {
    PlanIdsDistinct(host, ruleMap, plan);
    TrackedKeysAreTableKeys(plan);
    PlanIsCompiledTable(host, ruleMap.sorted, plan);
    PlanWrites(host, ruleMap.sorted, plan, faults);
    OffloadPreservesVerdicts(host, ruleMap.sorted, plan);
  }

  lemma ListedIdsDistinct(list: seq<ForwardingRule>, ids: seq<uint32>, rules: map<uint32, ForwardingRule>, i: nat,
                          j: nat)
    requires ListsValues(list, ids, rules) && i < j < |list|
    ensures ids[i] != ids[j]
  {
    assert ids == ids[..j] + [ids[j]] + ids[j + 1..];
    assert multiset(ids)[ids[j]] == 1;
    assert ids[i] == ids[..j][i] && ids[i] in multiset(ids[..j]);
  }

  // ---------- an addition the kernel refuses ----------

  /** The refused rule leaves its key behind: it was written and is not one the table had. */
  ghost predicate LeavesItsKey(host: Host, rule: ForwardingRule, tried: seq<ForwardingRule>, faults: Faults, max: nat,
                               table: KernelTable) {
    match Encode(host, rule)
    case None => false
    case Some(e) => KeyWritten(host, tried, faults, max, e.key) && e.key !in table
  }

  /** The table a rollback arrives at: the one of before, with the refused rule's entry if it left its key behind. */
  ghost function AfterRollback(host: Host, rule: ForwardingRule, tried: seq<ForwardingRule>, faults: Faults, max: nat,
                               table: KernelTable): (after: KernelTable)
    ensures after == table <==> !LeavesItsKey(host, rule, tried, faults, max, table)
  {
    if LeavesItsKey(host, rule, tried, faults, max, table) then
      table[Encode(host, rule).value.key := Encode(host, rule).value.value]
    else table
  }

  /** Adding one rule adds at most that rule's own entry to the table. */
  lemma AdditionAddsItsKeyOnly(host: Host, rules: map<uint32, ForwardingRule>, id: uint32, rule: ForwardingRule,
                               l0: seq<ForwardingRule>, i0: seq<uint32>, l1: seq<ForwardingRule>, i1: seq<uint32>,
                               key: RuleKey)
    requires id !in rules && OrderDetermined(host, rules)
    requires Indexes(l0, i0, rules) && Indexes(l1, i1, rules[id := rule])
    requires key in CompiledTable(host, l1)
    ensures key in CompiledTable(host, l0) || Encode(host, rule) == Some(Encoded(key, CompiledTable(host, l1)[key]))
  {
    var p := BlockTest(host, key);
    FirstIsLeast(l1, i1, rules[id := rule], p);
    FirstIsLeast(l0, i0, rules, p);
    var first :| IsLeast(rules[id := rule], p, first) && rules[id := rule][first] == FirstWith(l1, p).value;
    if first != id {
      assert IsLeast(rules, p, first) by {
        forall other | other in rules && p(rules[other])
          ensures rules[first].priority <= rules[other].priority
        {
          assert rules[id := rule][other] == rules[other];
        }
      }
      assert LeastAgree(rules, p, ValueOf(host));
    }
  }

  /** The table after a rollback is the one userspace now asks for if and only if every key the failed attempt wrote
      is old or asked for. */
  lemma RollbackIsExactIff(host: Host, tried: seq<ForwardingRule>, faults: Faults, max: nat, before: KernelTable,
                           interrupted: KernelTable, tracked: map<uint32, RuleKey>, target: KernelTable,
                           restored: KernelTable)
    requires tracked.Values == before.Keys && HalfWritten(host, tried, faults, max, before, interrupted)
    requires Synced(interrupted, tracked, target, restored)
    ensures restored == target <==>
      forall key :: KeyWritten(host, tried, faults, max, key) && key !in before ==> key in target
  {
    SyncedIsExactIffNothingUntracked(interrupted, tracked, target, restored);
    if restored == target {
      forall key | KeyWritten(host, tried, faults, max, key) && key !in before
        ensures key in target
      {
        assert key in interrupted.Keys - tracked.Values;
      }
    }
  }

  /** A rollback to the table of before, over one with a single key more, leaves that key. */
  lemma KeyLeftBehind(before: KernelTable, interrupted: KernelTable, tracked: map<uint32, RuleKey>, key: RuleKey,
                      restored: KernelTable)
    requires tracked.Values == before.Keys && Synced(interrupted, tracked, before, restored)
    requires key in interrupted && key !in before && forall k :: k in interrupted ==> k in before || k == key
    ensures restored == before[key := interrupted[key]]
  {
  }

  /** An addition fails half way and the rollback synchronises with the old rules again, sorted afresh. When the order
      of equal priorities does not matter to the old rules, the old table is restored if and only if the refused rule
      has not left its own key behind; otherwise its entry is all that is left. */
  lemma RollbackRestoresTableIff(host: Host, rules: map<uint32, ForwardingRule>, id: uint32, rule: ForwardingRule,
                                 l0: seq<ForwardingRule>, i0: seq<uint32>, l1: seq<ForwardingRule>, i1: seq<uint32>,
                                 l2: seq<ForwardingRule>, i2: seq<uint32>, faults: Faults, max: nat,
                                 interrupted: KernelTable, tracked: map<uint32, RuleKey>, restored: KernelTable)
    requires id !in rules && OrderDetermined(host, rules)
    requires Indexes(l0, i0, rules) && Indexes(l1, i1, rules[id := rule]) && Indexes(l2, i2, rules)
    requires tracked.Values == CompiledTable(host, l0).Keys
    requires HalfWritten(host, l1, faults, max, CompiledTable(host, l0), interrupted)
    requires Synced(interrupted, tracked, CompiledTable(host, l2), restored)
    ensures restored == CompiledTable(host, l0) <==> !LeavesItsKey(host, rule, l1, faults, max, CompiledTable(host, l0))
    ensures restored == AfterRollback(host, rule, l1, faults, max, CompiledTable(host, l0))
  {
    var table := CompiledTable(host, l0);
    SameTable(host, rules, l0, i0, l2, i2);
    forall key | key in interrupted && key !in table
      ensures Encode(host, rule) == Some(Encoded(key, interrupted[key]))
        && LeavesItsKey(host, rule, l1, faults, max, table)
    {
      AdditionAddsItsKeyOnly(host, rules, id, rule, l0, i0, l1, i1, key);
    }
    if LeavesItsKey(host, rule, l1, faults, max, table) {
      KeyLeftBehind(table, interrupted, tracked, Encode(host, rule).value.key, restored);
    } else {
      SyncedIsExactIffNothingUntracked(interrupted, tracked, table, restored);
    }
  }

  /** Even when the rollback's own synchronisation fails, no key is added but the refused rule's. */
  lemma NothingElseIsAdded(host: Host, rules: map<uint32, ForwardingRule>, id: uint32, rule: ForwardingRule,
                           l0: seq<ForwardingRule>, i0: seq<uint32>, l1: seq<ForwardingRule>, i1: seq<uint32>,
                           l2: seq<ForwardingRule>, i2: seq<uint32>, faults: Faults, again: Faults, max: nat,
                           interrupted: KernelTable, after: KernelTable, key: RuleKey)
    requires id !in rules && OrderDetermined(host, rules)
    requires Indexes(l0, i0, rules) && Indexes(l1, i1, rules[id := rule]) && Indexes(l2, i2, rules)
    requires HalfWritten(host, l1, faults, max, CompiledTable(host, l0), interrupted)
    requires HalfWritten(host, l2, again, max, interrupted, after)
    requires key in after && key !in CompiledTable(host, l0)
    ensures Encode(host, rule).Some? && key == Encode(host, rule).value.key
    ensures LeavesItsKey(host, rule, l1, faults, max, CompiledTable(host, l0))
  {
    SameTable(host, rules, l0, i0, l2, i2);
    assert key in interrupted;
    AdditionAddsItsKeyOnly(host, rules, id, rule, l0, i0, l1, i1, key);
  }

  // ---------- runs of additions and removals ----------

  /** A synchronisation that was interrupted: the rules as they were sorted, and what failed. */
  datatype Attempt = Attempt(rules: seq<ForwardingRule>, faults: Faults)

  ghost predicate EverReached(host: Host, attempts: seq<Attempt>, max: nat, key: RuleKey) {
    exists i :: 0 <= i < |attempts| && KeyWritten(host, attempts[i].rules, attempts[i].faults, max, key)
  }

  /** Every kernel key is tracked or was reached by an interrupted synchronisation. */
  ghost predicate AllAccounted(host: Host, attempts: seq<Attempt>, max: nat, tracked: map<uint32, RuleKey>,
                               table: KernelTable) {
    forall key :: key in table ==> key in tracked.Values || EverReached(host, attempts, max, key)
  }

  lemma InterruptionKeepsAccount(host: Host, attempts: seq<Attempt>, rules: seq<ForwardingRule>, faults: Faults,
                                 max: nat, tracked: map<uint32, RuleKey>, before: KernelTable, after: KernelTable)
    requires AllAccounted(host, attempts, max, tracked, before) && HalfWritten(host, rules, faults, max, before, after)
    ensures AllAccounted(host, attempts + [Attempt(rules, faults)], max, tracked, after)
  {
    var more := attempts + [Attempt(rules, faults)];
    forall key | key in after && key !in tracked.Values
      ensures EverReached(host, more, max, key)
    {
      if key in before {
        var i :| 0 <= i < |attempts| && KeyWritten(host, attempts[i].rules, attempts[i].faults, max, key);
        assert more[i] == attempts[i];
      } else {
        assert more[|attempts|] == Attempt(rules, faults);
      }
    }
  }

  /** What a completed synchronisation leaves: the target, and untracked keys that it does not know of. */
  ghost predicate Leaves(host: Host, attempts: seq<Attempt>, max: nat, target: KernelTable, table: KernelTable) {
    && (forall key :: key in target ==> key in table && table[key] == target[key])
    && (forall key :: key in table && key !in target ==> EverReached(host, attempts, max, key))
  }

  lemma SuccessLeaves(host: Host, attempts: seq<Attempt>, max: nat, tracked: map<uint32, RuleKey>, before: KernelTable,
                      target: KernelTable, after: KernelTable)
    requires AllAccounted(host, attempts, max, tracked, before) && Synced(before, tracked, target, after)
    ensures Leaves(host, attempts, max, target, after)
    ensures forall key :: key in after && key !in target <==> key in before && key !in tracked.Values && key !in target
  {
  }

  /** Kernel and userspace then decide every packet as userspace alone if and only if each key left behind happens to
      do what userspace does. */
  lemma LeftoversMatterIff(host: Host, attempts: seq<Attempt>, max: nat, rules: seq<ForwardingRule>, table: KernelTable)
    requires Leaves(host, attempts, max, CompiledTable(host, rules), table)
    ensures Transparent(host, rules, table) <==>
      forall key :: key in table && key !in CompiledTable(host, rules) ==>
        AllMeet(host, rules, key, EntryVerdict(table[key]))
  {
    TransparentIff(host, rules, table);
    TransparentIff(host, rules, CompiledTable(host, rules));
    CompiledTableIsTransparent(host, rules);
  }

  /** A rule map whose callbacks synchronise the kernel. */
  class KernelBackedRules {
    const ruleMap: RuleMap
    const loader: Loader
    /** The interrupted synchronisations so far. */
    ghost var attempts: seq<Attempt>

    /** What every run keeps: the rule map is in order and every kernel key is accounted for. */
    ghost predicate Valid(host: Host)
      reads this, ruleMap, ruleMap.rules.Values, loader, loader.kernel
    {
      && ruleMap.Valid() && ruleMap.IdsAgree()
      && AllAccounted(host, attempts, loader.maxKernelRules, loader.kernelRuleKeys, loader.kernel.rules)
    }

    /** What holds after every synchronisation that completes. */
    ghost predicate Settled(host: Host)
      reads this, ruleMap, loader, loader.kernel
    {
      var target := CompiledTable(host, ruleMap.sorted);
      && loader.kernelRuleKeys.Values == target.Keys
      && Leaves(host, attempts, loader.maxKernelRules, target, loader.kernel.rules)
    }

    /** Kernel and userspace are in step, with nothing left behind. */
    ghost predicate Ready(host: Host)
      reads this, ruleMap, ruleMap.rules.Values, loader, loader.kernel
    {
      && ruleMap.Valid() && ruleMap.IdsAgree()
      && loader.Coherent() && loader.kernel.rules == CompiledTable(host, ruleMap.sorted)
    }

    constructor (host: Host, maxKernelRules: nat)
      ensures Valid(host) && Ready(host) && ruleMap.rules == map[] && ruleMap.drawn == 0
      ensures fresh(ruleMap) && fresh(loader) && fresh(loader.kernel) && loader.maxKernelRules == maxKernelRules
    {
      ruleMap := new RuleMap();
      var kernel := new KernelMaps;
      kernel.rules := map[];
      loader := new Loader(kernel, maxKernelRules);
      attempts := [];
    }

    /** The callback: asks the kernel to take the rules as they are now sorted. */
    method Sync(host: Host, faults: Faults) returns (ok: bool)
      requires Valid(host)
      modifies loader`kernelRuleKeys, loader.kernel, this`attempts
      ensures Valid(host)
      ensures ok <==> SyncSucceeds(host, ruleMap.sorted, old(loader.kernelRuleKeys), faults, loader.maxKernelRules)
      ensures ok ==>
        && Settled(host) && attempts == old(attempts)
        && Synced(old(loader.kernel.rules), old(loader.kernelRuleKeys), CompiledTable(host, ruleMap.sorted),
                  loader.kernel.rules)
      ensures ok && old(loader.Coherent()) ==> Ready(host)
      ensures !ok ==>
        && loader.kernelRuleKeys == old(loader.kernelRuleKeys)
        && attempts == old(attempts) + [Attempt(ruleMap.sorted, faults)]
        && HalfWritten(host, ruleMap.sorted, faults, loader.maxKernelRules, old(loader.kernel.rules),
                       loader.kernel.rules)
    {
      ghost var before, tracked, max := loader.kernel.rules, loader.kernelRuleKeys, loader.maxKernelRules;
      ok := loader.SyncKernelRules(host, ruleMap, faults);
      if ok {
        SuccessLeaves(host, attempts, max, tracked, before, CompiledTable(host, ruleMap.sorted), loader.kernel.rules);
      } else {
        InterruptionKeepsAccount(host, attempts, ruleMap.sorted, faults, max, tracked, before, loader.kernel.rules);
        attempts := attempts + [Attempt(ruleMap.sorted, faults)];
      }
    }

    /** Stores the rule and asks the kernel to follow. */
    method Try(host: Host, rule: ForwardingRule, faults: Faults) returns (ok: bool)
      requires Valid(host) && rule !in ruleMap.rules.Values
      modifies ruleMap, rule, loader`kernelRuleKeys, loader.kernel, this`attempts
      ensures Valid(host)
      ensures ruleMap.nextID == Add32(old(ruleMap.nextID), 1)
      ensures ruleMap.rules == old(ruleMap.rules)[ruleMap.nextID := rule]
      ensures ok <==> SyncSucceeds(host, ruleMap.sorted, old(loader.kernelRuleKeys), faults, loader.maxKernelRules)
      ensures ok ==> Settled(host)
      ensures ok && old(loader.Coherent()) ==> Ready(host)
      ensures !ok ==>
        && loader.kernelRuleKeys == old(loader.kernelRuleKeys)
        && HalfWritten(host, ruleMap.sorted, faults, loader.maxKernelRules, old(loader.kernel.rules),
                       loader.kernel.rules)
    {
      var _ := ruleMap.Store(rule);
      ok := Sync(host, faults);
    }

    /** Takes a rule out and asks the kernel to follow. */
    method Undo(host: Host, id: uint32, again: Faults) returns (ok: bool)
      requires Valid(host)
      modifies ruleMap`rules, ruleMap`sorted, ruleMap`sortedIds, loader`kernelRuleKeys, loader.kernel, this`attempts
      ensures Valid(host) && ruleMap.rules == old(ruleMap.rules) - {id}
      ensures ok <==> SyncSucceeds(host, ruleMap.sorted, old(loader.kernelRuleKeys), again, loader.maxKernelRules)
      ensures ok ==>
        && Settled(host)
        && Synced(old(loader.kernel.rules), old(loader.kernelRuleKeys), CompiledTable(host, ruleMap.sorted),
                  loader.kernel.rules)
      ensures ok && old(loader.Coherent()) ==> Ready(host)
      ensures !ok ==>
        && loader.kernelRuleKeys == old(loader.kernelRuleKeys)
        && HalfWritten(host, ruleMap.sorted, again, loader.maxKernelRules, old(loader.kernel.rules),
                       loader.kernel.rules)
    {
      ruleMap.TakeOut(id);
      ok := Sync(host, again);
    }

    /** Removes a rule; the callback is best effort. When it fails, keys it got to write, such as that of a rule the
        removed one had blocked, are in the kernel without being tracked. */
    method RemoveRule(host: Host, id: uint32, faults: Faults) returns (found: bool, synced: bool)
      requires Valid(host)
      modifies ruleMap`rules, ruleMap`sorted, ruleMap`sortedIds, loader`kernelRuleKeys, loader.kernel, this`attempts
      ensures Valid(host)
      ensures found <==> id in old(ruleMap.rules)
      ensures ruleMap.rules == old(ruleMap.rules) - {id}
      ensures !found ==>
        !synced && ruleMap.sorted == old(ruleMap.sorted) && loader.kernel.rules == old(loader.kernel.rules)
      ensures found ==>
        (synced <==> SyncSucceeds(host, ruleMap.sorted, old(loader.kernelRuleKeys), faults, loader.maxKernelRules))
      ensures synced ==> Settled(host)
      ensures synced && old(loader.Coherent()) ==> Ready(host)
      ensures found && !synced ==>
        && loader.kernelRuleKeys == old(loader.kernelRuleKeys)
        && HalfWritten(host, ruleMap.sorted, faults, loader.maxKernelRules, old(loader.kernel.rules),
                       loader.kernel.rules)
    {
      if id !in ruleMap.rules {
        assert ruleMap.rules - {id} == ruleMap.rules;
        return false, false;
      }
      synced := Undo(host, id, faults);
      return true, synced;
    }

    /** Adds a rule with the loader as callback. The kernel has been asked to take the rules as sorted in tried; when
        it refuses, the rule is taken out and the kernel is asked again, and rolledBack says whether that worked. */
    method AddRule(host: Host, rule: ForwardingRule, faults: Faults, again: Faults)
      returns (r: AddResult, rolledBack: bool, ghost tried: seq<ForwardingRule>, ghost triedIds: seq<uint32>)
      requires Valid(host) && rule !in ruleMap.rules.Values
      modifies ruleMap, rule, loader`kernelRuleKeys, loader.kernel, this`attempts
      ensures Valid(host)
      ensures rule.action == "" <==> r == ActionRequired
      ensures r == ActionRequired ==>
        && ruleMap.rules == old(ruleMap.rules) && ruleMap.sorted == old(ruleMap.sorted)
        && loader.kernel.rules == old(loader.kernel.rules)
      ensures r != ActionRequired ==>
        && ruleMap.nextID == Add32(old(ruleMap.nextID), 1)
        && Indexes(tried, triedIds, old(ruleMap.rules)[ruleMap.nextID := rule])
        && (r == SyncError <==> !SyncSucceeds(host, tried, old(loader.kernelRuleKeys), faults, loader.maxKernelRules))
      ensures r.Added? ==>
        && r.id == ruleMap.nextID && ruleMap.rules == old(ruleMap.rules)[r.id := rule]
        && Settled(host) && (old(loader.Coherent()) ==> Ready(host))
      ensures r == SyncError ==>
        && ruleMap.rules == old(ruleMap.rules) - {ruleMap.nextID}
        && (rolledBack <==>
              SyncSucceeds(host, ruleMap.sorted, old(loader.kernelRuleKeys), again, loader.maxKernelRules))
        && (rolledBack ==> Settled(host))
      // Starting in step and once rolled back, the kernel is in step again exactly when no key was left behind.
      ensures r == SyncError && rolledBack && old(Ready(host)) ==>
        (loader.kernel.rules == CompiledTable(host, ruleMap.sorted) <==>
          forall key ::
            KeyWritten(host, tried, faults, loader.maxKernelRules, key) && key !in old(loader.kernel.rules) ==>
              key in CompiledTable(host, ruleMap.sorted))
      // The old table is back exactly when the refused rule's own key was not written or was there before; otherwise
      // that entry is all that is left of the rule.
      ensures r == SyncError && rolledBack && old(Ready(host)) && ruleMap.nextID !in old(ruleMap.rules) ==>
        OrderDetermined(host, old(ruleMap.rules)) ==>
          loader.kernel.rules
            == AfterRollback(host, rule, tried, faults, loader.maxKernelRules, old(loader.kernel.rules))
      // A rollback that fails too adds nothing else.
      ensures r == SyncError && !rolledBack && old(Ready(host)) && ruleMap.nextID !in old(ruleMap.rules) ==>
        OrderDetermined(host, old(ruleMap.rules)) ==>
          forall key :: key in loader.kernel.rules && key !in old(loader.kernel.rules) ==>
            && LeavesItsKey(host, rule, tried, faults, loader.maxKernelRules, old(loader.kernel.rules))
            && key == Encode(host, rule).value.key
    {
      if rule.action == "" {
        return ActionRequired, false, [], [];
      }
      ghost var rules, l0, i0, inStep := ruleMap.rules, ruleMap.sorted, ruleMap.sortedIds, Ready(host);
      ghost var before, tracked, max := loader.kernel.rules, loader.kernelRuleKeys, loader.maxKernelRules;
      var ok := Try(host, rule, faults);
      tried, triedIds := ruleMap.sorted, ruleMap.sortedIds;
      var id := ruleMap.nextID;
      if ok {
        return Added(id), false, tried, triedIds;
      }
      ghost var interrupted := loader.kernel.rules;
      r := SyncError;
      rolledBack := Undo(host, id, again);
      StoredAndTakenOut(rules, id, rule);
      if inStep && rolledBack {
        RollbackIsExactIff(host, tried, faults, max, before, interrupted, tracked, CompiledTable(host, ruleMap.sorted),
          loader.kernel.rules);
        if id !in rules && OrderDetermined(host, rules) {
          RollbackRestoresTableIff(host, rules, id, rule, l0, i0, tried, triedIds, ruleMap.sorted, ruleMap.sortedIds,
            faults, max, interrupted, tracked, loader.kernel.rules);
        }
      } else if inStep && id !in rules && OrderDetermined(host, rules) {
        forall key | key in loader.kernel.rules && key !in before
          ensures LeavesItsKey(host, rule, tried, faults, max, before) && key == Encode(host, rule).value.key
        {
          NothingElseIsAdded(host, rules, id, rule, l0, i0, tried, triedIds, ruleMap.sorted, ruleMap.sortedIds,
            faults, again, max, interrupted, loader.kernel.rules, key);
        }
      }
    }
  }

  datatype RuleSpec = RuleSpec(srcAddr: string, dstAddr: string, srcPort: uint16, dstPort: uint16, protocol: uint8,
                               action: string, target: string, priority: int)

  datatype Change =
    | Add(spec: RuleSpec, faults: Faults, again: Faults)
    | Remove(id: uint32, faults: Faults)

  /** Over every run of additions and removals, whatever fails, each kernel key is tracked or was reached by an
      interrupted synchronisation; a synchronisation that then completes leaves the compiled table and such keys. */
  method Run(host: Host, maxKernelRules: nat, script: seq<Change>, last: Faults)
    returns (backed: KernelBackedRules, ok: bool)
    ensures backed.Valid(host) && (ok ==> backed.Settled(host))
  {
    backed := new KernelBackedRules(host, maxKernelRules);
    for i := 0 to |script|
      invariant fresh(backed) && fresh(backed.ruleMap) && fresh(backed.loader) && fresh(backed.loader.kernel)
      invariant backed.Valid(host)
    {
      match script[i] {
        case Add(s, faults, again) =>
          var rule := new ForwardingRule(s.srcAddr, s.dstAddr, s.srcPort, s.dstPort, s.protocol, s.action, s.target,
                                         s.priority);
          var _, _, _, _ := backed.AddRule(host, rule, faults, again);
        case Remove(id, faults) =>
          var _, _ := backed.RemoveRule(host, id, faults);
      }
    }
    ok := backed.Sync(host, last);
  }

  lemma {:induction false} NoMoreThanRules(host: Host, rules: seq<ForwardingRule>, n: nat)
    requires n <= |rules|
    ensures |OffloadedUpTo(host, rules, n)| <= n
  {
    if n > 0 {
      NoMoreThanRules(host, rules, n - 1);
    }
  }

  const DNS := RuleKey(PROTOCOL_UDP, 53)

  ghost predicate PassesDns(rule: ForwardingRule) {
    NamesExactly(rule, DNS) && rule.action == ACTION_PASS && rule.priority == 2
  }

  ghost predicate DropsHttp(rule: ForwardingRule) {
    NamesExactly(rule, HTTP) && rule.action == ACTION_DROP && rule.priority == 1
  }

  predicate HoldsOnly(rules: map<uint32, ForwardingRule>, rule: ForwardingRule) {
    rules.Keys == {1} && rules[1] == rule
  }

  /** The two rules can be listed in one way only; the drop is written, and then the pass is not. */
  lemma DropIsWrittenFirst(host: Host, before: map<uint32, ForwardingRule>, list: seq<ForwardingRule>, ids: seq<uint32>,
                           dns: ForwardingRule, web: ForwardingRule, tracked: map<uint32, RuleKey>, faults: Faults,
                           max: nat)
    requires HoldsOnly(before, dns) && Indexes(list, ids, before[2 := web]) && PassesDns(dns) && DropsHttp(web)
      && max >= 2
    requires faults.update(DNS) && !faults.update(HTTP)
    ensures !SyncSucceeds(host, list, tracked, faults, max) && KeyWritten(host, list, faults, max, HTTP)
  {
    var rules := before[2 := web];
    assert rules.Keys == {1, 2};
    assert |multiset(ids)| == |multiset(rules.Keys)| == 2;
    var i := ListedSomewhere(list, ids, rules, 1);
    var j := ListedSomewhere(list, ids, rules, 2);
    assert list == [web, dns];
    OffloadableIffNotBlocked(host, list, 0);
    OffloadableIffNotBlocked(host, list, 1);
    NoMoreThanRules(host, list, 2);
    assert Reached(host, list, faults, 0);
    assert !Accepted(host, list, faults, 1);
  }

  const NEVER := Faults(_ => false, _ => false, _ => false)

  lemma NothingFails(host: Host, rules: seq<ForwardingRule>, tracked: map<uint32, RuleKey>, max: nat)
    requires Fits(host, rules, max)
    ensures SyncSucceeds(host, rules, tracked, NEVER, max)
  {
  }

  lemma OnlyDns(host: Host, rules: map<uint32, ForwardingRule>, list: seq<ForwardingRule>, ids: seq<uint32>,
                dns: ForwardingRule, tracked: map<uint32, RuleKey>)
    requires HoldsOnly(rules, dns) && Indexes(list, ids, rules) && PassesDns(dns)
    ensures list == [dns] && SyncSucceeds(host, list, tracked, NEVER, 2)
  {
    assert |multiset(ids)| == |multiset(rules.Keys)| == 1;
    var i := ListedSomewhere(list, ids, rules, 1);
    NoMoreThanRules(host, list, 1);
    NothingFails(host, list, tracked, 2);
  }

  lemma NothingForHttp(host: Host, rules: map<uint32, ForwardingRule>, dns: ForwardingRule, pkt: Packet)
    requires HoldsOnly(rules, dns) && PassesDns(dns) && KeyOf(pkt) == HTTP
    ensures HTTP !in CompiledTable(host, [dns]) && ListVerdict(host, [dns], pkt) == Unmatched
    ensures OrderDetermined(host, rules)
  {
    FirstWithNone([dns], BlockTest(host, HTTP));
    DistinctPrioritiesDetermine(host, rules);
    ListVerdictIsUnmatched(host, [dns], pkt);
  }

  lemma LeftoverDrops(host: Host, web: ForwardingRule, tried: seq<ForwardingRule>, faults: Faults, max: nat,
                      table: KernelTable, pkt: Packet)
    requires DropsHttp(web) && KeyOf(pkt) == HTTP && KeyWritten(host, tried, faults, max, HTTP) && HTTP !in table
    ensures KernelVerdict(AfterRollback(host, web, tried, faults, max, table), pkt) == Some(Dropped)
  {
  }

  method AddDns(host: Host, dns: ForwardingRule) returns (backed: KernelBackedRules)
    requires PassesDns(dns)
    modifies dns
    ensures fresh(backed) && fresh(backed.ruleMap) && fresh(backed.loader) && fresh(backed.loader.kernel)
    ensures backed.Valid(host) && backed.Ready(host) && HoldsOnly(backed.ruleMap.rules, dns)
      && backed.ruleMap.nextID == 1
    ensures backed.loader.maxKernelRules == 2 && HTTP !in backed.loader.kernel.rules
  {
    backed := new KernelBackedRules(host, 2);
    ghost var rules, tracked := backed.ruleMap.rules[1 := dns], backed.loader.kernelRuleKeys;
    assert HoldsOnly(rules, dns);
    var r, rolledBack;
    ghost var tried, ids;
    r, rolledBack, tried, ids := backed.AddRule(host, dns, NEVER, NEVER);
    OnlyDns(host, rules, tried, ids, dns, tracked);
    OnlyDns(host, rules, backed.ruleMap.sorted, backed.ruleMap.sortedIds, dns, tracked);
    NothingForHttp(host, rules, dns, Packet("", "", 0, HTTP.dstPort, HTTP.protocol));
  }

  const DNS_REFUSED := NEVER.(update := key => key == DNS)

  lemma HttpIsTried(host: Host, rules: map<uint32, ForwardingRule>, dns: ForwardingRule, web: ForwardingRule,
                    tried: seq<ForwardingRule>, ids: seq<uint32>, tracked: map<uint32, RuleKey>, table: KernelTable,
                    pkt: Packet)
    requires HoldsOnly(rules, dns) && PassesDns(dns) && DropsHttp(web) && KeyOf(pkt) == HTTP && HTTP !in table
    requires Indexes(tried, ids, rules[2 := web])
    ensures !SyncSucceeds(host, tried, tracked, DNS_REFUSED, 2)
    ensures KernelVerdict(AfterRollback(host, web, tried, DNS_REFUSED, 2, table), pkt) == Some(Dropped)
  {
    DropIsWrittenFirst(host, rules, tried, ids, dns, web, tracked, DNS_REFUSED, 2);
    LeftoverDrops(host, web, tried, DNS_REFUSED, 2, table, pkt);
  }

  method RefuseHttp(host: Host, backed: KernelBackedRules, dns: ForwardingRule, web: ForwardingRule, ghost pkt: Packet)
    returns (r: AddResult, rolledBack: bool)
    requires backed.Valid(host) && backed.Ready(host) && HoldsOnly(backed.ruleMap.rules, dns)
    requires backed.ruleMap.nextID == 1 && backed.loader.maxKernelRules == 2 && HTTP !in backed.loader.kernel.rules
    requires dns != web && PassesDns(dns) && DropsHttp(web) && KeyOf(pkt) == HTTP
    requires OrderDetermined(host, backed.ruleMap.rules)
    modifies backed, backed.ruleMap, web, backed.loader, backed.loader.kernel
    ensures r == SyncError && backed.ruleMap.Valid() && HoldsOnly(backed.ruleMap.rules, dns)
    ensures rolledBack <==> SyncSucceeds(host, backed.ruleMap.sorted, old(backed.loader.kernelRuleKeys), NEVER, 2)
    ensures rolledBack ==> KernelVerdict(backed.loader.kernel.rules, pkt) == Some(Dropped)
  {
    ghost var rules, tracked, table := backed.ruleMap.rules, backed.loader.kernelRuleKeys, backed.loader.kernel.rules;
    ghost var tried, ids;
    r, rolledBack, tried, ids := backed.AddRule(host, web, DNS_REFUSED, NEVER);
    HttpIsTried(host, rules, dns, web, tried, ids, tracked, table, pkt);
  }

  /** A run in which a refused rule keeps working in the kernel: writing the drop rule for TCP port 80 succeeds,
      writing the rule after it fails, and the rollback, though it works, does not know of the key. */
  method RefusedRuleStaysInTheKernel(host: Host, ghost pkt: Packet)
    returns (backed: KernelBackedRules, r: AddResult, rolledBack: bool)
    requires KeyOf(pkt) == HTTP
    ensures r == SyncError && rolledBack && ListVerdict(host, backed.ruleMap.sorted, pkt) == Unmatched
    ensures KernelVerdict(backed.loader.kernel.rules, pkt) == Some(Dropped)
  {
    var dns := new ForwardingRule("", "", 0, DNS.dstPort, DNS.protocol, ACTION_PASS, "", 2);
    var web := new ForwardingRule("", "", 0, HTTP.dstPort, HTTP.protocol, ACTION_DROP, "", 1);
    backed := AddDns(host, dns);
    NothingForHttp(host, backed.ruleMap.rules, dns, pkt);
    ghost var tracked := backed.loader.kernelRuleKeys;
    r, rolledBack := RefuseHttp(host, backed, dns, web, pkt);
    OnlyDns(host, backed.ruleMap.rules, backed.ruleMap.sorted, backed.ruleMap.sortedIds, dns, tracked);
  }

  lemma ListsTwo(a: ForwardingRule, b: ForwardingRule, ida: uint32, idb: uint32, rules: map<uint32, ForwardingRule>)
    requires ida != idb && rules == map[ida := a, idb := b] && a.priority <= b.priority
    ensures Indexes([a, b], [ida, idb], rules)
  {
    assert rules.Keys == {ida, idb};
    assert multiset([ida, idb]) == multiset({ida, idb});
  }

  /** What ties can do: of two rules of one priority, the one that names an address keeps the other out of the
      table when it happens to be sorted first. */
  lemma TiesCanCostAnEntry(host: Host, wide: ForwardingRule, narrow: ForwardingRule)
    requires NamesExactly(wide, HTTP) && wide.action == ACTION_DROP
    requires RuleKey(narrow.protocol, narrow.dstPort) == HTTP && narrow.srcAddr == "10.0.0.1"
      && narrow.priority == wide.priority
    ensures var rules := map[1 := wide, 2 := narrow];
      && Indexes([wide, narrow], [1, 2], rules) && HTTP in CompiledTable(host, [wide, narrow])
      && Indexes([narrow, wide], [2, 1], rules) && HTTP !in CompiledTable(host, [narrow, wide])
  {
    ListsTwo(wide, narrow, 1, 2, map[1 := wide, 2 := narrow]);
    ListsTwo(narrow, wide, 2, 1, map[1 := wide, 2 := narrow]);
    FirstWithAt([wide, narrow], BlockTest(host, HTTP), 0);
    FirstWithAt([narrow, wide], BlockTest(host, HTTP), 0);
  }
}
