/** The userspace rule set of server/internal/ebpf/forwarder.go: matching, the priority-sorted
    rule map with its rollback, and packet processing. */
module ForwardingRules {
  import opened Prelude

  const ACTION_FORWARD := "forward"
  const ACTION_DROP := "drop"
  const ACTION_PASS := "pass"

  /** The two lookups the rules make outside this package: does a CIDR contain an address
      (package net), and which interface index does a forward target resolve to. */
  datatype Host = Host(cidrContains: (string, string) -> bool, ifIndexOf: string -> Option<uint32>)

  datatype Packet = Packet(srcIP: string, dstIP: string, srcPort: uint16, dstPort: uint16, protocol: uint8)

  /** A rule. Only its id is ever updated in place; 0 and "" are wildcards. */
  class ForwardingRule {
    var id: uint32
    const srcAddr: string
    const dstAddr: string
    const srcPort: uint16
    const dstPort: uint16
    const protocol: uint8
    const action: string
    const target: string
    const priority: int

    constructor (srcAddr: string, dstAddr: string, srcPort: uint16, dstPort: uint16, protocol: uint8,
                 action: string, target: string, priority: int)
      ensures id == 0
      ensures this.srcAddr == srcAddr && this.dstAddr == dstAddr
      ensures this.srcPort == srcPort && this.dstPort == dstPort && this.protocol == protocol
      ensures this.action == action && this.target == target && this.priority == priority
    {
      id := 0;
      this.srcAddr, this.dstAddr := srcAddr, dstAddr;
      this.srcPort, this.dstPort, this.protocol := srcPort, dstPort, protocol;
      this.action, this.target, this.priority := action, target, priority;
    }
  }

  predicate IpMatches(host: Host, ruleAddr: string, packetIP: string) {
    ruleAddr == packetIP || host.cidrContains(ruleAddr, packetIP)
  }

  predicate Matches(host: Host, rule: ForwardingRule, pkt: Packet) {
    && (rule.protocol == 0 || rule.protocol == pkt.protocol)
    && (rule.srcPort == 0 || rule.srcPort == pkt.srcPort)
    && (rule.dstPort == 0 || rule.dstPort == pkt.dstPort)
    && (rule.srcAddr == "" || IpMatches(host, rule.srcAddr, pkt.srcIP))
    && (rule.dstAddr == "" || IpMatches(host, rule.dstAddr, pkt.dstIP))
  }

  /** The rule at position i is the first of the list that matches. */
  ghost predicate IsFirstMatch(host: Host, rules: seq<ForwardingRule>, pkt: Packet, i: nat) {
    && i < |rules|
    && Matches(host, rules[i], pkt)
    && forall j :: 0 <= j < i ==> !Matches(host, rules[j], pkt)
  }

  ghost predicate MatchesNone(host: Host, rules: seq<ForwardingRule>, pkt: Packet) {
    forall j :: 0 <= j < |rules| ==> !Matches(host, rules[j], pkt)
  }

  /** What happens to a packet. RedirectTo is how the kernel forwards; ForwardTo is how userspace does. */
  datatype Verdict =
    | Unmatched
    | Dropped
    | PassedToStack
    | ForwardTo(target: string)
    | RedirectTo(ifIndex: uint32)
    | UnknownAction

  function RuleVerdict(rule: ForwardingRule): Verdict {
    if rule.action == ACTION_DROP then Dropped
    else if rule.action == ACTION_PASS then PassedToStack
    else if rule.action == ACTION_FORWARD then ForwardTo(rule.target)
    else UnknownAction
  }

  /** The reference semantics of a rule list: walk it in order, the first match decides. */
  ghost function ListVerdict(host: Host, rules: seq<ForwardingRule>, pkt: Packet): Verdict {
    if rules == [] then Unmatched
    else if Matches(host, rules[0], pkt) then RuleVerdict(rules[0])
    else ListVerdict(host, rules[1..], pkt)
  }

  lemma {:induction false} ListVerdictIsFirstMatch(host: Host, rules: seq<ForwardingRule>, pkt: Packet, i: nat)
    requires IsFirstMatch(host, rules, pkt, i)
    ensures ListVerdict(host, rules, pkt) == RuleVerdict(rules[i])
  {
    if i == 0 {
    } else {
      assert !Matches(host, rules[0], pkt);
      ListVerdictIsFirstMatch(host, rules[1..], pkt, i - 1);
    }
  }

  lemma {:induction false} ListVerdictIsUnmatched(host: Host, rules: seq<ForwardingRule>, pkt: Packet)
    requires MatchesNone(host, rules, pkt)
    ensures ListVerdict(host, rules, pkt) == Unmatched
  {
    if rules == [] {
    } else {
      assert !Matches(host, rules[0], pkt);
      ListVerdictIsUnmatched(host, rules[1..], pkt);
    }
  }

  // ---------- which field of a packet each field of a rule speaks of ----------

  /** The packets agree on every field that some rule of the list constrains. */
  ghost predicate SeenAlike(rules: seq<ForwardingRule>, a: Packet, b: Packet) {
    forall rule :: rule in rules ==>
      && (rule.srcAddr != "" ==> a.srcIP == b.srcIP)
      && (rule.dstAddr != "" ==> a.dstIP == b.dstIP)
      && (rule.srcPort != 0 ==> a.srcPort == b.srcPort)
      && (rule.dstPort != 0 ==> a.dstPort == b.dstPort)
      && (rule.protocol != 0 ==> a.protocol == b.protocol)
  }

  /** A list decides packets that it sees alike alike: a field no rule constrains is never looked at. */
  lemma {:induction false} SeenAlikeDecidedAlike(host: Host, rules: seq<ForwardingRule>, a: Packet, b: Packet)
    requires SeenAlike(rules, a, b)
    ensures ListVerdict(host, rules, a) == ListVerdict(host, rules, b)
  {
    if rules != [] {
      assert rules[0] in rules;
      assert forall rule :: rule in rules[1..] ==> rule in rules;
      SeenAlikeDecidedAlike(host, rules[1..], a, b);
    }
  }

  /** The packets a rule matches are found from any one of them field by field: each field may become what the rule
      says of that field, and nothing else, whatever the other fields are. */
  lemma MatchedFieldByField(host: Host, rule: ForwardingRule, pkt: Packet, ip: string, port: uint16, protocol: uint8)
    requires Matches(host, rule, pkt)
    ensures Matches(host, rule, pkt.(srcIP := ip)) <==>
      rule.srcAddr == "" || ip == rule.srcAddr || host.cidrContains(rule.srcAddr, ip)
    ensures Matches(host, rule, pkt.(dstIP := ip)) <==>
      rule.dstAddr == "" || ip == rule.dstAddr || host.cidrContains(rule.dstAddr, ip)
    ensures Matches(host, rule, pkt.(srcPort := port)) <==> rule.srcPort == 0 || port == rule.srcPort
    ensures Matches(host, rule, pkt.(dstPort := port)) <==> rule.dstPort == 0 || port == rule.dstPort
    ensures Matches(host, rule, pkt.(protocol := protocol)) <==> rule.protocol == 0 || protocol == rule.protocol
  {
  }

  /** Such a packet always exists. */
  lemma RuleMatchesItsOwnPacket(host: Host, rule: ForwardingRule)
    ensures Matches(host, rule, Packet(rule.srcAddr, rule.dstAddr, rule.srcPort, rule.dstPort, rule.protocol))
  {
  }

  /** A drop rule for one source address drops exactly what comes from there; one for a destination, what goes there. */
  lemma DropsBySide(host: Host, rule: ForwardingRule, pkt: Packet)
    requires rule.action == ACTION_DROP && rule.srcPort == rule.dstPort == 0 && rule.protocol == 0
    ensures rule.dstAddr == "" && rule.srcAddr != "" ==>
      (ListVerdict(host, [rule], pkt) == Dropped <==>
        pkt.srcIP == rule.srcAddr || host.cidrContains(rule.srcAddr, pkt.srcIP))
    ensures rule.srcAddr == "" && rule.dstAddr != "" ==>
      (ListVerdict(host, [rule], pkt) == Dropped <==>
        pkt.dstIP == rule.dstAddr || host.cidrContains(rule.dstAddr, pkt.dstIP))
  {
    assert ListVerdict(host, [], pkt) == Unmatched;
  }

  ghost predicate PriorityOrdered(rules: seq<ForwardingRule>) {
    forall i, j :: 0 <= i < j < |rules| ==> rules[i].priority <= rules[j].priority
  }

  /** ids names every key of the map exactly once, and list holds the values under them in that order:
      list is a permutation of the map's values. */
  ghost predicate ListsValues(list: seq<ForwardingRule>, ids: seq<uint32>, rules: map<uint32, ForwardingRule>) {
    && multiset(ids) == multiset(rules.Keys)
    && |list| == |ids|
    && (forall i {:trigger list[i]} :: 0 <= i < |ids| ==> ids[i] in rules && list[i] == rules[ids[i]])
  }

  lemma ListedSomewhere(list: seq<ForwardingRule>, ids: seq<uint32>, rules: map<uint32, ForwardingRule>, id: uint32)
    returns (k: nat)
    requires ListsValues(list, ids, rules) && id in rules
    ensures k < |list| && ids[k] == id && list[k] == rules[id]
  {
    assert id in multiset(ids);
    k :| 0 <= k < |ids| && ids[k] == id;
  }

  /** Everything before position i is in final place. */
  ghost predicate SettledUpTo(list: seq<ForwardingRule>, i: nat) {
    forall a, b :: 0 <= a < i && a < b < |list| ==> list[a].priority <= list[b].priority
  }

  /** Position i holds a least priority number among positions i..j. */
  ghost predicate LeastOf(list: seq<ForwardingRule>, i: nat, j: nat)
    requires i < |list|
  {
    forall b :: i <= b < j && b < |list| ==> list[i].priority <= list[b].priority
  }

  function Swapped<T>(list: seq<T>, i: nat, j: nat): seq<T>
    requires i < |list| && j < |list|
  {
    list[i := list[j]][j := list[i]]
  }

  lemma SwapKeepsListing(list: seq<ForwardingRule>, ids: seq<uint32>, rules: map<uint32, ForwardingRule>,
                         i: nat, j: nat)
    requires ListsValues(list, ids, rules) && i < j < |list|
    ensures ListsValues(Swapped(list, i, j), Swapped(ids, i, j), rules)
  {
    var list', ids' := Swapped(list, i, j), Swapped(ids, i, j);
    forall k | 0 <= k < |ids'|
      ensures ids'[k] in rules && list'[k] == rules[ids'[k]]
    {
      var was := if k == i then j else if k == j then i else k;
      assert list'[k] == list[was];
    }
  }

  lemma SwapKeepsSettled(list: seq<ForwardingRule>, i: nat, j: nat)
    requires i < j < |list| && SettledUpTo(list, i) && LeastOf(list, i, j)
    requires list[j].priority < list[i].priority
    ensures SettledUpTo(Swapped(list, i, j), i)
    ensures LeastOf(Swapped(list, i, j), i, j + 1)
  {
  }

  method Values(rules: map<uint32, ForwardingRule>) returns (list: seq<ForwardingRule>, ghost ids: seq<uint32>)
    ensures ListsValues(list, ids, rules)
    ensures |list| == |rules|
  {
    list, ids := [], [];
    var remaining := rules.Keys;
    while remaining != {}
      invariant remaining <= rules.Keys
      invariant multiset(ids) + multiset(remaining) == multiset(rules.Keys)
      invariant |list| == |ids|
      invariant forall i :: 0 <= i < |ids| ==> ids[i] in rules && list[i] == rules[ids[i]]
      decreases remaining
    {
      var id :| id in remaining;
      list, ids := list + [rules[id]], ids + [id];
      remaining := remaining - {id};
    }
    assert |multiset(ids)| == |multiset(rules.Keys)| == |rules|;
  }

  // ---------- what the order among equal priorities can change ----------

  /** list is what the sort can leave for this map: any order of its values that respects the priorities. */
  ghost predicate Indexes(list: seq<ForwardingRule>, ids: seq<uint32>, rules: map<uint32, ForwardingRule>) {
    ListsValues(list, ids, rules) && PriorityOrdered(list)
  }

  /** The first rule of the list with a property. */
  ghost function FirstWith(list: seq<ForwardingRule>, p: ForwardingRule -> bool): Option<ForwardingRule> {
    if list == [] then None else if p(list[0]) then Some(list[0]) else FirstWith(list[1..], p)
  }

  /** What a walk that stops at that rule answers. */
  ghost function Answer<A>(list: seq<ForwardingRule>, p: ForwardingRule -> bool, none: A, f: ForwardingRule -> A): A {
    match FirstWith(list, p)
    case None => none
    case Some(rule) => f(rule)
  }

  ghost predicate IsLeast(rules: map<uint32, ForwardingRule>, p: ForwardingRule -> bool, id: uint32) {
    && id in rules
    && p(rules[id])
    && forall other :: other in rules && p(rules[other]) ==> rules[id].priority <= rules[other].priority
  }

  /** The rules of least priority number among those with property p agree on f. */
  ghost predicate LeastAgree<A>(rules: map<uint32, ForwardingRule>, p: ForwardingRule -> bool, f: ForwardingRule -> A) {
    forall a, b :: IsLeast(rules, p, a) && IsLeast(rules, p, b) ==> f(rules[a]) == f(rules[b])
  }

  lemma {:induction false} FirstWithAt(list: seq<ForwardingRule>, p: ForwardingRule -> bool, i: nat)
    requires i < |list| && p(list[i]) && forall j :: 0 <= j < i ==> !p(list[j])
    ensures FirstWith(list, p) == Some(list[i])
  {
    if i > 0 {
      FirstWithAt(list[1..], p, i - 1);
    }
  }

  lemma {:induction false} FirstWithNone(list: seq<ForwardingRule>, p: ForwardingRule -> bool)
    requires forall j :: 0 <= j < |list| ==> !p(list[j])
    ensures FirstWith(list, p) == None
  {
    if list != [] {
      FirstWithNone(list[1..], p);
    }
  }

  /** Where the first rule with the property stands. */
  lemma {:induction false} FirstPosition(list: seq<ForwardingRule>, p: ForwardingRule -> bool) returns (i: nat)
    ensures i <= |list| && forall j :: 0 <= j < i ==> !p(list[j])
    ensures FirstWith(list, p) == if i < |list| then Some(list[i]) else None
    ensures i < |list| ==> p(list[i])
  {
    i := 0;
    while i < |list| && !p(list[i])
      invariant i <= |list| && forall j :: 0 <= j < i ==> !p(list[j])
    {
      i := i + 1;
    }
    if i < |list| {
      FirstWithAt(list, p, i);
    } else {
      FirstWithNone(list, p);
    }
  }

  /** In every index of the map the first rule with the property is one of least priority number. */
  lemma FirstIsLeast(list: seq<ForwardingRule>, ids: seq<uint32>, rules: map<uint32, ForwardingRule>,
                     p: ForwardingRule -> bool)
    requires Indexes(list, ids, rules)
    ensures FirstWith(list, p) == None ==> forall id :: !IsLeast(rules, p, id)
    ensures FirstWith(list, p).Some? ==> exists id :: IsLeast(rules, p, id) && rules[id] == FirstWith(list, p).value
  {
    var i := FirstPosition(list, p);
    forall id | id in rules && p(rules[id])
      ensures i < |list| && list[i].priority <= rules[id].priority
    {
      var k := ListedSomewhere(list, ids, rules, id);
    }
    if i < |list| {
      assert list[i] == rules[ids[i]];
      assert IsLeast(rules, p, ids[i]);
    }
  }

  function Inserted<T>(list: seq<T>, k: nat, x: T): (r: seq<T>)
    requires k <= |list|
    ensures |r| == |list| + 1
    ensures forall i :: 0 <= i < |r| ==> r[i] == if i < k then list[i] else if i == k then x else list[i - 1]
  {
    list[..k] + [x] + list[k..]
  }

  lemma InsertedElements<T>(list: seq<T>, k: nat, x: T, elements: set<T>)
    requires k <= |list| && multiset(list) == multiset(elements) && x !in elements
    ensures multiset(Inserted(list, k, x)) == multiset(elements + {x})
  {
    assert list == list[..k] + list[k..];
    assert multiset(Inserted(list, k, x)) == multiset(list[..k]) + multiset{x} + multiset(list[k..]);
    assert multiset(elements + {x}) == multiset(elements) + multiset{x};
  }

  lemma InsertKeepsListing(list: seq<ForwardingRule>, ids: seq<uint32>, rules: map<uint32, ForwardingRule>, id: uint32,
                           rule: ForwardingRule, k: nat)
    requires ListsValues(list, ids, rules) && id !in rules && k <= |list|
    ensures ListsValues(Inserted(list, k, rule), Inserted(ids, k, id), rules[id := rule])
  {
    var list', ids', more := Inserted(list, k, rule), Inserted(ids, k, id), rules[id := rule];
    InsertedElements(ids, k, id, rules.Keys);
    assert more.Keys == rules.Keys + {id};
    forall i | 0 <= i < |ids'|
      ensures ids'[i] in more && list'[i] == more[ids'[i]]
    {
      if i != k {
        var was := if i < k then i else i - 1;
        var there := list[was];
        assert there == rules[ids[was]];
      }
    }
  }

  /** A rule can be inserted in front of all rules of its own priority. */
  lemma InsertInFront(list: seq<ForwardingRule>, ids: seq<uint32>, rules: map<uint32, ForwardingRule>, id: uint32,
                      rule: ForwardingRule)
    returns (k: nat, list': seq<ForwardingRule>, ids': seq<uint32>)
    requires Indexes(list, ids, rules) && id !in rules
    ensures Indexes(list', ids', rules[id := rule])
    ensures k < |list'| && list'[k] == rule && forall j :: 0 <= j < k ==> list'[j].priority < rule.priority
  {
    k := 0;
    while k < |list| && list[k].priority < rule.priority
      invariant k <= |list| && forall j :: 0 <= j < k ==> list[j].priority < rule.priority
    {
      k := k + 1;
    }
    list', ids' := Inserted(list, k, rule), Inserted(ids, k, id);
    InsertKeepsListing(list, ids, rules, id, rule, k);
  }

  lemma {:induction false} SomeIndex(rules: map<uint32, ForwardingRule>)
    returns (list: seq<ForwardingRule>, ids: seq<uint32>)
    ensures Indexes(list, ids, rules)
    decreases |rules|
  {
    if rules == map[] {
      list, ids := [], [];
    } else {
      var id :| id in rules;
      list, ids := SomeIndex(rules - {id});
      var k;
      k, list, ids := InsertInFront(list, ids, rules - {id}, id, rules[id]);
      assert (rules - {id})[id := rules[id]] == rules;
    }
  }

  /** Some index puts a given least rule first among those with the property. */
  lemma LeastCanComeFirst(rules: map<uint32, ForwardingRule>, p: ForwardingRule -> bool, id: uint32)
    returns (list: seq<ForwardingRule>, ids: seq<uint32>)
    requires IsLeast(rules, p, id)
    ensures Indexes(list, ids, rules) && FirstWith(list, p) == Some(rules[id])
  {
    list, ids := SomeIndex(rules - {id});
    var k;
    k, list, ids := InsertInFront(list, ids, rules - {id}, id, rules[id]);
    assert (rules - {id})[id := rules[id]] == rules;
    forall j | 0 <= j < k
      ensures !p(list[j])
    {
      var there := list[j];
      assert ids[j] in rules && there == rules[ids[j]];
    }
    FirstWithAt(list, p, k);
  }

  /** A walk answers the same in every index of the map if and only if the least rules agree on the answer. */
  lemma AnswerIndependentIff<A>(rules: map<uint32, ForwardingRule>, p: ForwardingRule -> bool, none: A,
                                f: ForwardingRule -> A)
    ensures LeastAgree(rules, p, f) <==>
      forall l1, i1, l2, i2 :: Indexes(l1, i1, rules) && Indexes(l2, i2, rules) ==>
        Answer(l1, p, none, f) == Answer(l2, p, none, f)
  {
    if LeastAgree(rules, p, f) {
      forall l1, i1, l2, i2 | Indexes(l1, i1, rules) && Indexes(l2, i2, rules)
        ensures Answer(l1, p, none, f) == Answer(l2, p, none, f)
      {
        FirstIsLeast(l1, i1, rules, p);
        FirstIsLeast(l2, i2, rules, p);
      }
    } else {
      var a, b :| IsLeast(rules, p, a) && IsLeast(rules, p, b) && f(rules[a]) != f(rules[b]);
      var l1, i1 := LeastCanComeFirst(rules, p, a);
      var l2, i2 := LeastCanComeFirst(rules, p, b);
      assert Answer(l1, p, none, f) != Answer(l2, p, none, f);
    }
  }

  function MatchTest(host: Host, pkt: Packet): ForwardingRule -> bool {
    (rule: ForwardingRule) => Matches(host, rule, pkt)
  }

  lemma {:induction false} ListVerdictIsAnswer(host: Host, list: seq<ForwardingRule>, pkt: Packet)
    ensures ListVerdict(host, list, pkt) == Answer(list, MatchTest(host, pkt), Unmatched, RuleVerdict)
  {
    if list != [] {
      ListVerdictIsAnswer(host, list[1..], pkt);
    }
  }

  /** A packet's verdict survives every re-sort of the same rules if and only if the matching rules of least
      priority number agree on it. */
  lemma VerdictIndependentIff(host: Host, rules: map<uint32, ForwardingRule>, pkt: Packet)
    ensures LeastAgree(rules, MatchTest(host, pkt), RuleVerdict) <==>
      forall l1, i1, l2, i2 :: Indexes(l1, i1, rules) && Indexes(l2, i2, rules) ==>
        ListVerdict(host, l1, pkt) == ListVerdict(host, l2, pkt)
  {
    var p := MatchTest(host, pkt);
    AnswerIndependentIff(rules, p, Unmatched, RuleVerdict);
    forall list: seq<ForwardingRule>
      ensures ListVerdict(host, list, pkt) == Answer(list, p, Unmatched, RuleVerdict)
    {
      ListVerdictIsAnswer(host, list, pkt);
    }
  }

  /** How the kernel sync callback of AddRule answers. */
  datatype SyncOutcome = NoCallback | SyncOk | SyncFailed

  datatype AddResult = Added(id: uint32) | ActionRequired | SyncError

  /** Storing a rule and taking it out again is a no-op exactly when the id was free. */
  lemma StoredAndTakenOut(rules: map<uint32, ForwardingRule>, id: uint32, rule: ForwardingRule)
    ensures rules[id := rule] - {id} == rules - {id}
    ensures rules - {id} == rules <==> id !in rules
  {
  }

  class RuleMap {
    var rules: map<uint32, ForwardingRule>
    var sorted: seq<ForwardingRule>
    /** The ids under which the entries of sorted are stored. */
    ghost var sortedIds: seq<uint32>
    var nextID: uint32
    /** How many ids have been drawn from nextID so far. */
    ghost var drawn: nat

    /** sorted is a priority-ordered permutation of the map's values. */
    ghost predicate SortedIsCurrent()
      reads this
    {
      Indexes(sorted, sortedIds, rules)
    }

    ghost predicate IdsInRange()
      reads this
    {
      && nextID == drawn % TWO_TO_THE_32
      && (drawn < TWO_TO_THE_32 ==> forall id :: id in rules ==> 1 <= id <= drawn)
    }

    ghost predicate Valid()
      reads this
    {
      SortedIsCurrent() && IdsInRange()
    }

    /** Every rule object sits in the map under its own id. */
    ghost predicate IdsAgree()
      reads this, rules.Values
    {
      forall id :: id in rules ==> rules[id].id == id
    }

    constructor ()
      ensures Valid() && IdsAgree()
      ensures rules == map[] && drawn == 0
    {
      rules, sorted, sortedIds, nextID, drawn := map[], [], [], 0, 0;
    }

    /** Values in some iteration order of the map, then the in-place exchange sort by priority. */
    method RebuildSorted()
      modifies this`sorted, this`sortedIds
      ensures SortedIsCurrent()
    {
      sorted, sortedIds := Values(rules);
      var n := |sorted|;
      for i := 0 to n
        invariant |sorted| == n && ListsValues(sorted, sortedIds, rules)
        invariant SettledUpTo(sorted, i)
      {
        SettlePosition(i);
      }
    }

    /** The inner loop of the sort. */
    method SettlePosition(i: nat)
      requires ListsValues(sorted, sortedIds, rules) && i < |sorted| && SettledUpTo(sorted, i)
      modifies this`sorted, this`sortedIds
      ensures ListsValues(sorted, sortedIds, rules) && |sorted| == old(|sorted|) && SettledUpTo(sorted, i + 1)
    {
      var n := |sorted|;
      for j := i + 1 to n
        invariant |sorted| == n && ListsValues(sorted, sortedIds, rules)
        invariant SettledUpTo(sorted, i) && LeastOf(sorted, i, j)
      {
        if sorted[j].priority < sorted[i].priority {
          SwapKeepsListing(sorted, sortedIds, rules, i, j);
          SwapKeepsSettled(sorted, i, j);
          sorted, sortedIds := Swapped(sorted, i, j), Swapped(sortedIds, i, j);
        }
      }
    }

    method DrawId() returns (id: uint32)
      requires IdsInRange()
      modifies this`nextID, this`drawn
      ensures id == nextID == Add32(old(nextID), 1) && drawn == old(drawn) + 1
      ensures IdsInRange()
      ensures drawn < TWO_TO_THE_32 ==> id == drawn && id !in rules
    {
      nextID := Add32(nextID, 1);
      drawn := drawn + 1;
      id := nextID;
    }

    method SetRules(rules: map<uint32, ForwardingRule>)
      modifies this`rules, this`sorted, this`sortedIds
      ensures this.rules == rules
      ensures SortedIsCurrent()
    {
      this.rules := rules;
      RebuildSorted();
    }

    /** The first half of an addition: draws the next id and stores the rule under it. As long as the counter has
        not gone round, the n-th id drawn is n. */
    method Store(rule: ForwardingRule) returns (id: uint32)
      requires Valid()
      modifies this, rule
      ensures Valid()
      ensures id == rule.id == nextID == Add32(old(nextID), 1) && drawn == old(drawn) + 1
      ensures rules == old(rules)[id := rule]
      ensures drawn < TWO_TO_THE_32 ==> id == drawn && id !in old(rules)
      ensures old(IdsAgree()) && rule !in old(rules.Values) ==> IdsAgree()
    {
      ghost var before := rules;
      id := DrawId();
      rule.id := id;
      SetRules(rules[id := rule]);
      assert forall k :: k in before ==> before[k] in before.Values;
    }

    /** The rollback of an addition the kernel refused; it undoes it exactly when the id had been free. */
    method TakeOut(id: uint32)
      requires Valid()
      modifies this`rules, this`sorted, this`sortedIds
      ensures Valid()
      ensures rules == old(rules) - {id}
      ensures old(IdsAgree()) ==> IdsAgree()
    {
      SetRules(rules - {id});
    }

    /** Draws the next id, stores the rule under it and, if the kernel refuses it, takes it out again. */
    method AddRule(rule: ForwardingRule, sync: SyncOutcome) returns (r: AddResult)
      requires Valid()
      modifies this, rule
      ensures Valid()
      ensures rule.action == "" ==>
        r == ActionRequired && rules == old(rules) && sorted == old(sorted) && nextID == old(nextID)
        && drawn == old(drawn) && rule.id == old(rule.id)
      ensures rule.action != "" ==>
        nextID == Add32(old(nextID), 1) && drawn == old(drawn) + 1 && rule.id == nextID
      ensures rule.action != "" && sync != SyncFailed ==>
        r == Added(nextID) && rules == old(rules)[nextID := rule]
      ensures rule.action != "" && sync == SyncFailed ==>
        r == SyncError && rules == old(rules) - {nextID}
      // As long as the counter has not gone round, the n-th id drawn is n: no id is ever handed out twice.
      ensures rule.action != "" && drawn < TWO_TO_THE_32 ==> nextID == drawn && nextID !in old(rules)
      // The rollback leaves the rule set alone exactly when the drawn id was free.
      ensures r == SyncError ==> (rules == old(rules) <==> nextID !in old(rules))
      // A rule object that is not in the map already keeps every object under its own id.
      ensures old(IdsAgree()) && rule !in old(rules.Values) ==> IdsAgree()
    {
      if rule.action == "" {
        return ActionRequired;
      }
      ghost var before := rules;
      var id := Store(rule);
      if sync == SyncFailed {
        TakeOut(id);
        StoredAndTakenOut(before, id, rule);
        return SyncError;
      }
      return Added(id);
    }

    method RemoveRule(id: uint32) returns (found: bool)
      requires Valid()
      modifies this`rules, this`sorted, this`sortedIds
      ensures Valid()
      ensures found <==> id in old(rules)
      ensures rules == old(rules) - {id}
      ensures !found ==> sorted == old(sorted)
      ensures old(IdsAgree()) ==> IdsAgree()
    {
      if id !in rules {
        assert rules - {id} == rules;
        return false;
      }
      TakeOut(id);
      return true;
    }

    /** The first match of the sorted list; among all rules it is one of minimal priority number. */
    method Match(host: Host, pkt: Packet) returns (rule: ForwardingRule?)
      requires Valid()
      ensures rule == null ==> MatchesNone(host, sorted, pkt)
      ensures rule == null <==> forall id :: id in rules ==> !Matches(host, rules[id], pkt)
      ensures rule != null ==>
        exists i: nat :: IsFirstMatch(host, sorted, pkt, i) && sorted[i] == rule
      ensures rule != null ==>
        && Matches(host, rule, pkt)
        && rule in rules.Values
        && forall id :: id in rules && Matches(host, rules[id], pkt) ==> rule.priority <= rules[id].priority
    {
      for i := 0 to |sorted|
        invariant forall j :: 0 <= j < i ==> !Matches(host, sorted[j], pkt)
      {
        if Matches(host, sorted[i], pkt) {
          assert IsFirstMatch(host, sorted, pkt, i);
          assert rules[sortedIds[i]] == sorted[i];
          forall id | id in rules && Matches(host, rules[id], pkt)
            ensures sorted[i].priority <= rules[id].priority
          {
            var k := ListedSomewhere(sorted, sortedIds, rules, id);
          }
          return sorted[i];
        }
      }
      forall id | id in rules
        ensures !Matches(host, rules[id], pkt)
      {
        var k := ListedSomewhere(sorted, sortedIds, rules, id);
      }
      return null;
    }
  }

  /** A refused addition takes out whatever is stored under the id drawn, the number of draws modulo 2^32. */
  method Refuse(m: RuleMap, rule: ForwardingRule) returns (r: AddResult)
    requires m.Valid() && rule.action != ""
    modifies m, rule
    ensures m.Valid() && m.drawn == old(m.drawn) + 1
    ensures r == SyncError && m.rules == old(m.rules) - {m.drawn % TWO_TO_THE_32}
  {
    r := m.AddRule(rule, SyncFailed);
  }

  /** Refusals leave the first rule alone until the counter has gone round. */
  method RefuseUntilWrap(m: RuleMap, rule: ForwardingRule)
    requires m.Valid() && rule.action != "" && m.drawn == 1 && m.rules.Keys == {1}
    modifies m, rule
    ensures m.Valid() && m.drawn == TWO_TO_THE_32 && m.rules == old(m.rules)
  {
    for n := 1 to TWO_TO_THE_32
      invariant m.Valid() && m.drawn == n && m.rules == old(m.rules)
    {
      var _ := Refuse(m, rule);
      assert (n + 1) % TWO_TO_THE_32 !in old(m.rules);
    }
  }

  /** A run in which an id collides: after 2^32 draws the counter is back at 1, and a refused addition then takes
      the first rule away with it. */
  method RefusalTakesAnotherRule() returns (m: RuleMap, r: AddResult, ghost before: map<uint32, ForwardingRule>)
    ensures fresh(m) && m.Valid() && m.drawn == TWO_TO_THE_32 + 1
    ensures before.Keys == {1} && r == SyncError && m.rules == map[]
  {
    m := new RuleMap();
    var first := new ForwardingRule("", "", 0, 0, 0, ACTION_DROP, "", 0);
    r := m.AddRule(first, NoCallback);
    before := m.rules;
    var refused := new ForwardingRule("", "", 0, 0, 0, ACTION_PASS, "", 0);
    RefuseUntilWrap(m, refused);
    r := Refuse(m, refused);
  }

  /** The packet counters a forwarder keeps. */
  class PacketStats {
    var packetsForwarded: uint64
    var bytesForwarded: uint64
    var packetsDropped: uint64

    method RecordForward(bytes: nat)
      modifies this
      ensures packetsForwarded == Add64(old(packetsForwarded), 1)
      ensures bytesForwarded == Add64(old(bytesForwarded), bytes % TWO_TO_THE_64)
      ensures packetsDropped == old(packetsDropped)
    {
      packetsForwarded := Add64(packetsForwarded, 1);
      bytesForwarded := Add64(bytesForwarded, bytes % TWO_TO_THE_64);
    }

    method RecordDrop()
      modifies this`packetsDropped
      ensures packetsDropped == Add64(old(packetsDropped), 1)
    {
      packetsDropped := Add64(packetsDropped, 1);
    }
  }

  class UserspaceForwarder {
    const ruleMap: RuleMap
    const stats: PacketStats

    constructor (stats: PacketStats)
      ensures fresh(ruleMap) && ruleMap.Valid() && ruleMap.rules == map[]
      ensures this.stats == stats
    {
      ruleMap := new RuleMap();
      this.stats := stats;
    }

    /** Returns the forward target ("" when there is none), or None for an action it does not know. */
    method ProcessPacket(host: Host, pkt: Packet, packetSize: nat) returns (target: Option<string>)
      requires ruleMap.Valid()
      modifies stats
      ensures var v := ListVerdict(host, ruleMap.sorted, pkt);
        && target == (match v case ForwardTo(t) => Some(t) case UnknownAction => None case _ => Some(""))
        && stats.packetsForwarded == (if v.Unmatched? || v.ForwardTo?
                                       then Add64(old(stats.packetsForwarded), 1) else old(stats.packetsForwarded))
        && stats.bytesForwarded == (if v.Unmatched? || v.ForwardTo?
                                     then Add64(old(stats.bytesForwarded), packetSize % TWO_TO_THE_64)
                                     else old(stats.bytesForwarded))
        && stats.packetsDropped == (if v.Dropped?
                                     then Add64(old(stats.packetsDropped), 1) else old(stats.packetsDropped))
      // In the rules' own terms: what the action of the first matching rule says is what happens and what is counted.
      ensures forall i: nat :: IsFirstMatch(host, ruleMap.sorted, pkt, i) ==>
        target == match ruleMap.sorted[i].action
                  case "drop" => Some("")
                  case "pass" => Some("")
                  case "forward" => Some(ruleMap.sorted[i].target)
                  case _ => None
      ensures forall i: nat :: IsFirstMatch(host, ruleMap.sorted, pkt, i) ==>
        && stats.packetsDropped
             == (if ruleMap.sorted[i].action == "drop" then Add64(old(stats.packetsDropped), 1)
                 else old(stats.packetsDropped))
        && stats.packetsForwarded
             == (if ruleMap.sorted[i].action == "forward" then Add64(old(stats.packetsForwarded), 1)
                 else old(stats.packetsForwarded))
      ensures MatchesNone(host, ruleMap.sorted, pkt) ==>
        target == Some("") && stats.packetsForwarded == Add64(old(stats.packetsForwarded), 1)
    {
      var rule := ruleMap.Match(host, pkt);
      if rule == null {
        ListVerdictIsUnmatched(host, ruleMap.sorted, pkt);
        stats.RecordForward(packetSize);
        return Some("");
      }
      ghost var i: nat :| IsFirstMatch(host, ruleMap.sorted, pkt, i) && ruleMap.sorted[i] == rule;
      ListVerdictIsFirstMatch(host, ruleMap.sorted, pkt, i);
      if rule.action == ACTION_DROP {
        stats.RecordDrop();
        return Some("");
      } else if rule.action == ACTION_PASS {
        return Some("");
      } else if rule.action == ACTION_FORWARD {
        stats.RecordForward(packetSize);
        return Some(rule.target);
      }
      return None;
    }
  }
}
