/** Access-control evaluation over an unordered rule map: ACLRuleEngine.Evaluate of
    server/internal/controlplane/node_registry.go. */
module AccessControl {
  import opened Prelude

  const ALLOW := "allow"
  const ANY := "*"

  datatype AclRule = AclRule(
    source: string, target: string, action: string, protocol: string, ports: seq<int>,
    priority: int, expiresAt: Option<int>)

  datatype Access = Access(source: string, target: string, protocol: string, port: int)

  /** The rule has not expired and covers the access. */
  predicate Applies(rule: AclRule, access: Access, now: int) {
    && (rule.expiresAt.Some? ==> now <= rule.expiresAt.value)
    && (rule.source == ANY || rule.source == access.source)
    && (rule.target == ANY || rule.target == access.target)
    && (rule.protocol == ANY || rule.protocol == access.protocol)
    && (rule.ports == [] || access.port in rule.ports)
  }

  /** The accesses a rule covers are found from any one of them field by field: each field may become what the rule
      says of that field, whatever the others are; and it covers them until it expires. */
  lemma CoversFieldByField(rule: AclRule, access: Access, now: int, name: string, port: int, later: int)
    requires Applies(rule, access, now)
    ensures Applies(rule, access.(source := name), now) <==> rule.source == "*" || rule.source == name
    ensures Applies(rule, access.(target := name), now) <==> rule.target == "*" || rule.target == name
    ensures Applies(rule, access.(protocol := name), now) <==> rule.protocol == "*" || rule.protocol == name
    ensures Applies(rule, access.(port := port), now) <==> rule.ports == [] || port in rule.ports
    ensures Applies(rule, access, later) <==> rule.expiresAt == None || later <= rule.expiresAt.value
  {
  }

  /** A rule covers some access until it expires, namely its own. */
  lemma RuleCoversItsOwn(rule: AclRule, now: int)
    requires rule.expiresAt.Some? ==> now <= rule.expiresAt.value
    ensures var port := if rule.ports == [] then 0 else rule.ports[0];
      Applies(rule, Access(rule.source, rule.target, rule.protocol, port), now)
  {
  }

  type Rules = map<string, AclRule>

  /** order is the map's rules in some iteration order, ids the keys in that order. */
  ghost predicate Visits(order: seq<AclRule>, ids: seq<string>, rules: Rules) {
    && multiset(ids) == multiset(rules.Keys)
    && |order| == |ids|
    && forall i :: 0 <= i < |ids| ==> ids[i] in rules && order[i] == rules[ids[i]]
  }

  /** The priority to beat: -1 while nothing has been picked. */
  function Bar(best: Option<AclRule>): int {
    match best
    case None => -1
    case Some(rule) => rule.priority
  }

  /** The rule a scan in this order ends up with. */
  ghost function Scan(order: seq<AclRule>, access: Access, now: int): Option<AclRule> {
    if order == [] then None
    else
      var best, last := Scan(order[..|order| - 1], access, now), order[|order| - 1];
      if Applies(last, access, now) && last.priority > Bar(best) then Some(last) else best
  }

  function Verdict(best: Option<AclRule>): bool {
    best.Some? && best.value.action == ALLOW
  }

  /** A rule that applies, has non-negative priority, and is beaten by no other that applies. */
  ghost predicate IsTop(rules: Rules, id: string, access: Access, now: int) {
    && id in rules
    && Applies(rules[id], access, now)
    && rules[id].priority >= 0
    && forall other :: other in rules && Applies(rules[other], access, now) ==>
      rules[other].priority <= rules[id].priority
  }

  ghost predicate TopRulesAgree(rules: Rules, access: Access, now: int) {
    forall a, b :: IsTop(rules, a, access, now) && IsTop(rules, b, access, now) ==>
      (rules[a].action == ALLOW <==> rules[b].action == ALLOW)
  }

  /** A scan ends with the first rule of greatest priority, if any applicable priority is non-negative. */
  lemma {:induction false} ScanPicksFirstGreatest(order: seq<AclRule>, access: Access, now: int)
    ensures var best := Scan(order, access, now);
      && Bar(best) >= -1
      && (forall i :: 0 <= i < |order| && Applies(order[i], access, now) ==> order[i].priority <= Bar(best))
      && (best.Some? ==> exists i ::
            && 0 <= i < |order| && order[i] == best.value
            && best.value.priority >= 0 && Applies(best.value, access, now)
            && forall j :: 0 <= j < i && Applies(order[j], access, now) ==> order[j].priority < best.value.priority)
  {
    if order == [] {
    } else {
      var init := order[..|order| - 1];
      ScanPicksFirstGreatest(init, access, now);
      assert forall i :: 0 <= i < |init| ==> init[i] == order[i];
      var best := Scan(init, access, now);
      if best.Some? {
        var i :| 0 <= i < |init| && init[i] == best.value
          && forall j :: 0 <= j < i && Applies(init[j], access, now) ==> init[j].priority < best.value.priority;
        assert order[i] == best.value;
      }
      assert order[|order| - 1] == order[|init|];
    }
  }

  /** What any scan of the map ends with is a top rule, or nothing when there is none. */
  lemma ScanFindsTop(rules: Rules, order: seq<AclRule>, ids: seq<string>, access: Access, now: int)
    requires Visits(order, ids, rules)
    ensures var best := Scan(order, access, now);
      && (best == None <==> forall id :: !IsTop(rules, id, access, now))
      && (best.Some? ==> exists id :: IsTop(rules, id, access, now) && rules[id] == best.value)
  {
    ScanPicksFirstGreatest(order, access, now);
    var best := Scan(order, access, now);
    forall id | id in rules && Applies(rules[id], access, now)
      ensures rules[id].priority <= Bar(best)
    {
      assert id in multiset(ids);
      var k :| 0 <= k < |ids| && ids[k] == id;
      assert order[k] == rules[id];
    }
    if best.Some? {
      var i :| 0 <= i < |order| && order[i] == best.value;
      assert IsTop(rules, ids[i], access, now);
    }
  }

  lemma {:induction false} EnumerateKeys(keys: set<string>) returns (ids: seq<string>)
    ensures multiset(ids) == multiset(keys)
    decreases keys
  {
    if keys == {} {
      ids := [];
    } else {
      var k :| k in keys;
      var rest := EnumerateKeys(keys - {k});
      ids := [k] + rest;
      assert keys == (keys - {k}) + {k};
    }
  }

  /** Some iteration order visits a given rule first. */
  lemma VisitFirst(rules: Rules, id: string) returns (order: seq<AclRule>, ids: seq<string>)
    requires id in rules
    ensures Visits(order, ids, rules) && |order| > 0 && order[0] == rules[id]
  {
    var rest := EnumerateKeys(rules.Keys - {id});
    ids := [id] + rest;
    assert rules.Keys == (rules.Keys - {id}) + {id};
    assert forall i :: 0 <= i < |ids| ==> ids[i] in multiset(ids);
    order := seq(|ids|, i requires 0 <= i < |ids| => rules[ids[i]]);
  }

  /** Visited first, a top rule wins over its equals. */
  lemma TopRuleCanWin(rules: Rules, id: string, access: Access, now: int)
    returns (order: seq<AclRule>, ids: seq<string>)
    requires IsTop(rules, id, access, now)
    ensures Visits(order, ids, rules) && Scan(order, access, now) == Some(rules[id])
  {
    order, ids := VisitFirst(rules, id);
    ScanPicksFirstGreatest(order, access, now);
    var best := Scan(order, access, now).value;
    var i :| 0 <= i < |order| && order[i] == best && Applies(best, access, now)
      && forall j :: 0 <= j < i && Applies(order[j], access, now) ==> order[j].priority < best.priority;
    assert best == rules[ids[i]];
  }

  /** The answer is the same in every iteration order if and only if the top rules agree on it. */
  lemma OrderIrrelevantIffTopRulesAgree(rules: Rules, access: Access, now: int)
    ensures TopRulesAgree(rules, access, now) <==>
      forall o1, i1, o2, i2 :: Visits(o1, i1, rules) && Visits(o2, i2, rules) ==>
        Verdict(Scan(o1, access, now)) == Verdict(Scan(o2, access, now))
  {
    if TopRulesAgree(rules, access, now) {
      forall o1, i1, o2, i2 | Visits(o1, i1, rules) && Visits(o2, i2, rules)
        ensures Verdict(Scan(o1, access, now)) == Verdict(Scan(o2, access, now))
      {
        ScanFindsTop(rules, o1, i1, access, now);
        ScanFindsTop(rules, o2, i2, access, now);
      }
    } else {
      var a, b :| IsTop(rules, a, access, now) && IsTop(rules, b, access, now)
        && rules[a].action == ALLOW && rules[b].action != ALLOW;
      var o1, i1 := TopRuleCanWin(rules, a, access, now);
      var o2, i2 := TopRuleCanWin(rules, b, access, now);
      assert Verdict(Scan(o1, access, now)) != Verdict(Scan(o2, access, now));
    }
  }

  class ACLRuleEngine {
    var rules: Rules

    /** Denies when no top rule exists; otherwise answers as one of them, and so as all of them when they agree. */
    method Evaluate(access: Access, now: int) returns (allowed: bool)
      ensures exists order, ids :: Visits(order, ids, rules) && allowed == Verdict(Scan(order, access, now))
      ensures (forall id :: !IsTop(rules, id, access, now)) ==> !allowed
      ensures TopRulesAgree(rules, access, now) ==>
        forall id :: IsTop(rules, id, access, now) ==> (allowed <==> rules[id].action == "allow")
    {
      var bestRule: Option<AclRule> := None;
      var bestPriority := -1;
      var remaining := rules.Keys;
      ghost var order: seq<AclRule>, ids: seq<string> := [], [];
      while remaining != {}
        invariant remaining <= rules.Keys
        invariant multiset(ids) + multiset(remaining) == multiset(rules.Keys)
        invariant |order| == |ids|
        invariant forall i :: 0 <= i < |ids| ==> ids[i] in rules && order[i] == rules[ids[i]]
        invariant bestRule == Scan(order, access, now) && bestPriority == Bar(bestRule)
        decreases remaining
      {
        var id :| id in remaining;
        var rule := rules[id];
        remaining := remaining - {id};
        assert (order + [rule])[..|order|] == order;
        order, ids := order + [rule], ids + [id];
        if Applies(rule, access, now) && rule.priority > bestPriority {
          bestPriority := rule.priority;
          bestRule := Some(rule);
        }
      }
      assert Visits(order, ids, rules);
      ScanFindsTop(rules, order, ids, access, now);
      return bestRule.Some? && bestRule.value.action == ALLOW;
    }
  }
}
