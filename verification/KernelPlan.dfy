/** The rule compiler of server/internal/ebpf/kernel_rules.go: which rules of a priority-ordered list
    may be pushed down into an exact-match table on (protocol, destination port). */
module KernelPlan {
  import opened Prelude
  import opened ForwardingRules

  const PROTOCOL_TCP: uint8 := 6
  const PROTOCOL_UDP: uint8 := 17

  const KERNEL_PASS: uint32 := 1
  const KERNEL_DROP: uint32 := 2
  const KERNEL_REDIRECT: uint32 := 3

  datatype RuleKey = RuleKey(protocol: uint8, dstPort: uint16)
  datatype RuleValue = RuleValue(action: uint32, ifIndex: uint32)
  const HTTP := RuleKey(PROTOCOL_TCP, 80)

  datatype Encoded = Encoded(key: RuleKey, value: RuleValue)
  datatype PlannedRule = PlannedRule(ruleID: uint32, key: RuleKey, value: RuleValue)

  function EncodeAction(host: Host, rule: ForwardingRule): Option<RuleValue> {
    if rule.action == ACTION_PASS then Some(RuleValue(KERNEL_PASS, 0))
    else if rule.action == ACTION_DROP then Some(RuleValue(KERNEL_DROP, 0))
    else if rule.action == ACTION_FORWARD && host.ifIndexOf(rule.target).Some? then
      Some(RuleValue(KERNEL_REDIRECT, host.ifIndexOf(rule.target).value))
    else None
  }

  function Encode(host: Host, rule: ForwardingRule): Option<Encoded> {
    if rule.protocol != PROTOCOL_TCP && rule.protocol != PROTOCOL_UDP then None
    else if rule.dstPort == 0 then None
    else if rule.srcPort != 0 || rule.srcAddr != "" || rule.dstAddr != "" then None
    else match EncodeAction(host, rule)
      case None => None
      case Some(value) => Some(Encoded(RuleKey(rule.protocol, rule.dstPort), value))
  }

  /** Which rules can be exact-match entries, and what the entry tells the kernel: 1 to pass, 2 to drop, 3 to
      redirect to the interface the target resolves to. */
  lemma EncodableIff(host: Host, rule: ForwardingRule)
    ensures Encode(host, rule).Some? <==>
      && rule.protocol in {6, 17} && rule.dstPort != 0
      && rule.srcPort == 0 && rule.srcAddr == "" && rule.dstAddr == ""
      && (rule.action in {"pass", "drop"} || (rule.action == "forward" && host.ifIndexOf(rule.target).Some?))
    ensures Encode(host, rule).Some? ==> var e := Encode(host, rule).value;
      && e.key.protocol == rule.protocol && e.key.dstPort == rule.dstPort
      && e.value.action == (if rule.action == "pass" then 1 else if rule.action == "drop" then 2 else 3)
      && e.value.ifIndex == (if rule.action == "forward" then host.ifIndexOf(rule.target).value else 0)
  {
  }

  predicate MayMatchKey(rule: ForwardingRule, key: RuleKey) {
    && (rule.protocol == 0 || rule.protocol == key.protocol)
    && (rule.dstPort == 0 || rule.dstPort == key.dstPort)
  }

  /** What the scan of the prior rules asks of each of them. */
  predicate Blocks(host: Host, prior: ForwardingRule, key: RuleKey) {
    match Encode(host, prior)
    case Some(e) => e.key == key
    case None => MayMatchKey(prior, key)
  }

  function KeyOf(pkt: Packet): RuleKey {
    RuleKey(pkt.protocol, pkt.dstPort)
  }

  /** The meaning of "may be pushed down": the rule is encodable and decides every packet of its key. */
  ghost predicate Offloadable(host: Host, rules: seq<ForwardingRule>, i: nat)
    requires i < |rules|
  {
    match Encode(host, rules[i])
    case None => false
    case Some(e) => forall pkt: Packet :: KeyOf(pkt) == e.key ==> IsFirstMatch(host, rules, pkt, i)
  }

  /** The positions, in order, of the offloadable rules among the first n: a compiler defined by meaning alone. */
  ghost function OffloadedUpTo(host: Host, rules: seq<ForwardingRule>, n: nat): seq<nat>
    requires n <= |rules|
  {
    if n == 0 then []
    else OffloadedUpTo(host, rules, n - 1) + if Offloadable(host, rules, n - 1) then [n - 1] else []
  }

  lemma {:induction false} OffloadedExactly(host: Host, rules: seq<ForwardingRule>, n: nat)
    requires n <= |rules|
    ensures var chosen := OffloadedUpTo(host, rules, n);
      && (forall a, b :: 0 <= a < b < |chosen| ==> chosen[a] < chosen[b])
      && (forall i: nat :: i in chosen <==> i < n && Offloadable(host, rules, i))
  {
    if n == 0 {
    } else {
      OffloadedExactly(host, rules, n - 1);
      var prior := OffloadedUpTo(host, rules, n - 1);
      assert forall a :: 0 <= a < |prior| ==> prior[a] in prior;
    }
  }

  ghost predicate Compiles(host: Host, rules: seq<ForwardingRule>, chosen: seq<nat>, plan: seq<PlannedRule>)
    reads rules
  {
    && |plan| == |chosen|
    && forall k :: 0 <= k < |plan| ==>
      && chosen[k] < |rules|
      && var e := Encode(host, rules[chosen[k]]);
         e.Some? && plan[k] == PlannedRule(rules[chosen[k]].id, e.value.key, e.value.value)
  }

  /** A prior rule blocks a key exactly when it matches some packet of that key; the witness carries the
      rule's own addresses, since an address matches itself as a string. */
  lemma BlocksIffMatchesSomePacket(host: Host, prior: ForwardingRule, key: RuleKey)
    ensures Blocks(host, prior, key) <==> exists pkt: Packet :: KeyOf(pkt) == key && Matches(host, prior, pkt)
  {
    if Blocks(host, prior, key) {
      var pkt := Packet(prior.srcAddr, prior.dstAddr, prior.srcPort, key.dstPort, key.protocol);
      assert KeyOf(pkt) == key && Matches(host, prior, pkt);
    }
  }

  /** The syntactic test of the compiler decides the semantic question. */
  lemma OffloadableIffNotBlocked(host: Host, rules: seq<ForwardingRule>, i: nat)
    requires i < |rules|
    ensures Offloadable(host, rules, i) <==>
      && Encode(host, rules[i]).Some?
      && forall j :: 0 <= j < i ==> !Blocks(host, rules[j], Encode(host, rules[i]).value.key)
  {
    match Encode(host, rules[i])
    case None =>
    case Some(e) =>
      forall j | 0 <= j < i
        ensures Blocks(host, rules[j], e.key) <==>
          exists pkt: Packet :: KeyOf(pkt) == e.key && Matches(host, rules[j], pkt)
      {
        BlocksIffMatchesSomePacket(host, rules[j], e.key);
      }
  }

  method KeyBlockedByPriorRules(host: Host, key: RuleKey, priorRules: seq<ForwardingRule>) returns (blocked: bool)
    ensures blocked <==> exists j :: 0 <= j < |priorRules| && Blocks(host, priorRules[j], key)
  {
    for k := 0 to |priorRules|
      invariant forall j :: 0 <= j < k ==> !Blocks(host, priorRules[j], key)
    {
      match Encode(host, priorRules[k])
      case Some(e) =>
        if e.key == key {
          return true;
        }
      case None =>
        if MayMatchKey(priorRules[k], key) {
          return true;
        }
    }
    return false;
  }

  /** The compiler: its plan holds exactly the offloadable rules, in order. */
  method BuildKernelRulePlan(host: Host, rules: seq<ForwardingRule>) returns (plan: seq<PlannedRule>)
    ensures Compiles(host, rules, OffloadedUpTo(host, rules, |rules|), plan)
  {
    plan := [];
    var plannedKeys: set<RuleKey> := {};
    var priorRules: seq<ForwardingRule> := [];
    for n := 0 to |rules|
      invariant priorRules == rules[..n]
      invariant Compiles(host, rules, OffloadedUpTo(host, rules, n), plan)
      invariant forall key :: key in plannedKeys ==> exists j :: 0 <= j < n && Blocks(host, rules[j], key)
    {
      var rule := rules[n];
      OffloadableIffNotBlocked(host, rules, n);
      match Encode(host, rule) {
        case None =>
        case Some(e) =>
          assert Blocks(host, rule, e.key);
          if e.key !in plannedKeys {
            var blocked := KeyBlockedByPriorRules(host, e.key, priorRules);
            if !blocked {
              plan := plan + [PlannedRule(rule.id, e.key, e.value)];
              plannedKeys := plannedKeys + {e.key};
            }
          }
      }
      priorRules := priorRules + [rule];
    }
  }

  type KernelTable = map<RuleKey, RuleValue>

  /** The table that results from writing the plan's entries in order. */
  function TableOf(plan: seq<PlannedRule>): KernelTable {
    if plan == [] then map[]
    else TableOf(plan[..|plan| - 1])[plan[|plan| - 1].key := plan[|plan| - 1].value]
  }

  lemma {:induction false} TableHoldsThePlan(plan: seq<PlannedRule>)
    requires forall a, b :: 0 <= a < b < |plan| ==> plan[a].key != plan[b].key
    ensures forall k :: 0 <= k < |plan| ==> plan[k].key in TableOf(plan) && TableOf(plan)[plan[k].key] == plan[k].value
    ensures forall key :: key in TableOf(plan) ==> exists k :: 0 <= k < |plan| && plan[k].key == key
  {
    if plan == [] {
    } else {
      var init := plan[..|plan| - 1];
      TableHoldsThePlan(init);
      assert forall k :: 0 <= k < |init| ==> init[k] == plan[k];
    }
  }

  /** The plan's keys are distinct: two offloadable rules cannot both decide the packets of one key. */
  lemma PlanKeysDistinct(host: Host, rules: seq<ForwardingRule>, plan: seq<PlannedRule>)
    requires Compiles(host, rules, OffloadedUpTo(host, rules, |rules|), plan)
    ensures forall a, b :: 0 <= a < b < |plan| ==> plan[a].key != plan[b].key
  {
    var chosen := OffloadedUpTo(host, rules, |rules|);
    OffloadedExactly(host, rules, |rules|);
    forall a, b | 0 <= a < b < |plan|
      ensures plan[a].key != plan[b].key
    {
      assert chosen[a] in chosen && chosen[b] in chosen;
      var pa := Packet("", "", 0, plan[a].key.dstPort, plan[a].key.protocol);
      var pb := Packet("", "", 0, plan[b].key.dstPort, plan[b].key.protocol);
      assert Matches(host, rules[chosen[a]], pa) && IsFirstMatch(host, rules, pb, chosen[b]);
    }
  }

  /** What the XDP program does with a packet that hits an entry. */
  function EntryVerdict(v: RuleValue): Verdict {
    if v.action == KERNEL_DROP then Dropped
    else if v.action == KERNEL_REDIRECT then RedirectTo(v.ifIndex)
    else PassedToStack
  }

  /** The XDP program on a TCP or UDP packet: one exact-match lookup. None is a miss. */
  function KernelVerdict(table: KernelTable, pkt: Packet): Option<Verdict> {
    if KeyOf(pkt) in table then Some(EntryVerdict(table[KeyOf(pkt)])) else None
  }

  /** The table first, the userspace list on a miss. */
  ghost function OffloadedVerdict(host: Host, table: KernelTable, rules: seq<ForwardingRule>, pkt: Packet): Verdict {
    match KernelVerdict(table, pkt)
    case Some(v) => v
    case None => ListVerdict(host, rules, pkt)
  }

  /** Forwarding to a target that names an interface and redirecting to that interface are the same thing. */
  function Resolved(host: Host, v: Verdict): Verdict {
    match v
    case ForwardTo(t) => (match host.ifIndexOf(t) case Some(n) => RedirectTo(n) case None => v)
    case _ => v
  }

  /** A packet whose key is in the compiled table is decided by the rule the entry was made from. */
  lemma TableEntryDecides(host: Host, rules: seq<ForwardingRule>, plan: seq<PlannedRule>, pkt: Packet) returns (i: nat)
    requires Compiles(host, rules, OffloadedUpTo(host, rules, |rules|), plan)
    requires KeyOf(pkt) in TableOf(plan)
    ensures IsFirstMatch(host, rules, pkt, i)
    ensures Encode(host, rules[i]) == Some(Encoded(KeyOf(pkt), TableOf(plan)[KeyOf(pkt)]))
  {
    PlanKeysDistinct(host, rules, plan);
    TableHoldsThePlan(plan);
    var k :| 0 <= k < |plan| && plan[k].key == KeyOf(pkt);
    var chosen := OffloadedUpTo(host, rules, |rules|);
    OffloadedExactly(host, rules, |rules|);
    i := chosen[k];
    assert i in chosen;
  }

  // ---------- the compiled table, said without the compiler ----------

  function BlockTest(host: Host, key: RuleKey): ForwardingRule -> bool {
    (rule: ForwardingRule) => Blocks(host, rule, key)
  }

  function ValueOf(host: Host): ForwardingRule -> Option<RuleValue> {
    (rule: ForwardingRule) => match Encode(host, rule) case Some(e) => Some(e.value) case None => None
  }

  /** What the table holds for a key: the first rule that can match a packet of the key decides, and it is in
      the table if it is encodable. */
  ghost function EntryFor(host: Host, rules: seq<ForwardingRule>, key: RuleKey): Option<RuleValue> {
    Answer(rules, BlockTest(host, key), None, ValueOf(host))
  }

  lemma EntryKey(host: Host, rules: seq<ForwardingRule>, key: RuleKey) returns (i: nat)
    requires EntryFor(host, rules, key).Some?
    ensures i < |rules| && Encode(host, rules[i]) == Some(Encoded(key, EntryFor(host, rules, key).value))
    ensures forall j :: 0 <= j < i ==> !Blocks(host, rules[j], key)
  {
    i := FirstPosition(rules, BlockTest(host, key));
  }

  /** A map comprehension over the keys the rules name. */
  ghost function CompiledTable(host: Host, rules: seq<ForwardingRule>): (table: KernelTable)
    ensures forall key :: key in table <==> EntryFor(host, rules, key).Some?
    ensures forall key :: key in table ==> table[key] == EntryFor(host, rules, key).value
  {
    var named := set i | 0 <= i < |rules| :: RuleKey(rules[i].protocol, rules[i].dstPort);
    assert forall key :: EntryFor(host, rules, key).Some? ==> key in named by {
      forall key | EntryFor(host, rules, key).Some?
        ensures key in named
      {
        var i := EntryKey(host, rules, key);
        assert key == RuleKey(rules[i].protocol, rules[i].dstPort);
      }
    }
    map key | key in named && EntryFor(host, rules, key).Some? :: EntryFor(host, rules, key).value
  }

  lemma PlannedEntry(host: Host, rules: seq<ForwardingRule>, plan: seq<PlannedRule>, key: RuleKey)
    requires Compiles(host, rules, OffloadedUpTo(host, rules, |rules|), plan)
    ensures key in TableOf(plan) <==> EntryFor(host, rules, key).Some?
    ensures key in TableOf(plan) ==> TableOf(plan)[key] == EntryFor(host, rules, key).value
  {
    var chosen := OffloadedUpTo(host, rules, |rules|);
    OffloadedExactly(host, rules, |rules|);
    PlanKeysDistinct(host, rules, plan);
    TableHoldsThePlan(plan);
    if key in TableOf(plan) {
      var i := TableEntryDecides(host, rules, plan, Packet("", "", 0, key.dstPort, key.protocol));
      assert Blocks(host, rules[i], key);
      var k :| 0 <= k < |plan| && plan[k].key == key;
      assert chosen[k] in chosen;
      OffloadableIffNotBlocked(host, rules, chosen[k]);
      FirstWithAt(rules, BlockTest(host, key), chosen[k]);
    }
    if EntryFor(host, rules, key).Some? {
      var i := EntryKey(host, rules, key);
      OffloadableIffNotBlocked(host, rules, i);
      assert i in chosen;
      var k :| 0 <= k < |chosen| && chosen[k] == i;
      assert plan[k].key == key;
    }
  }

  /** The plan written to an empty table is the compiled table. */
  lemma PlanIsCompiledTable(host: Host, rules: seq<ForwardingRule>, plan: seq<PlannedRule>)
    requires Compiles(host, rules, OffloadedUpTo(host, rules, |rules|), plan)
    ensures TableOf(plan) == CompiledTable(host, rules)
  {
    forall key
      ensures key in TableOf(plan) <==> key in CompiledTable(host, rules)
      ensures key in TableOf(plan) ==> TableOf(plan)[key] == CompiledTable(host, rules)[key]
    {
      PlannedEntry(host, rules, plan, key);
    }
  }

  /** Nobody can tell from a packet's fate that the table is there. */
  ghost predicate Transparent(host: Host, rules: seq<ForwardingRule>, table: KernelTable) {
    forall pkt: Packet ::
      Resolved(host, OffloadedVerdict(host, table, rules, pkt)) == Resolved(host, ListVerdict(host, rules, pkt))
  }

  /** The compiled table decides every packet of its keys as userspace does. */
  lemma CompiledTableIsTransparent(host: Host, rules: seq<ForwardingRule>)
    ensures Transparent(host, rules, CompiledTable(host, rules))
  {
    var table := CompiledTable(host, rules);
    forall pkt: Packet
      ensures Resolved(host, OffloadedVerdict(host, table, rules, pkt)) == Resolved(host, ListVerdict(host, rules, pkt))
    {
      if KeyOf(pkt) in table {
        var i := EntryKey(host, rules, KeyOf(pkt));
        OffloadableIffNotBlocked(host, rules, i);
        ListVerdictIsFirstMatch(host, rules, pkt, i);
      }
    }
  }

  /** Pushing the compiled plan into the kernel changes no packet's verdict. */
  lemma OffloadPreservesVerdicts(host: Host, rules: seq<ForwardingRule>, plan: seq<PlannedRule>)
    requires Compiles(host, rules, OffloadedUpTo(host, rules, |rules|), plan)
    ensures Transparent(host, rules, TableOf(plan))
  {
    PlanIsCompiledTable(host, rules, plan);
    CompiledTableIsTransparent(host, rules);
  }

  /** Every two indexes of the same rules compile to the same table if and only if, for every key, the rules of
      least priority number among those that can match it have the same entry. */
  lemma TableIndependentIff(host: Host, rules: map<uint32, ForwardingRule>)
    ensures OrderDetermined(host, rules) <==>
      forall l1, i1, l2, i2 :: Indexes(l1, i1, rules) && Indexes(l2, i2, rules) ==>
        CompiledTable(host, l1) == CompiledTable(host, l2)
  {
    if OrderDetermined(host, rules) {
      forall l1, i1, l2, i2 | Indexes(l1, i1, rules) && Indexes(l2, i2, rules)
        ensures CompiledTable(host, l1) == CompiledTable(host, l2)
      {
        SameTable(host, rules, l1, i1, l2, i2);
      }
    } else {
      var key :| !LeastAgree(rules, BlockTest(host, key), ValueOf(host));
      AnswerIndependentIff(rules, BlockTest(host, key), None, ValueOf(host));
      var l1, i1, l2, i2 :| Indexes(l1, i1, rules) && Indexes(l2, i2, rules)
        && EntryFor(host, l1, key) != EntryFor(host, l2, key);
      assert CompiledTable(host, l1) != CompiledTable(host, l2);
    }
  }

  ghost predicate OrderDetermined(host: Host, rules: map<uint32, ForwardingRule>) {
    forall key :: LeastAgree(rules, BlockTest(host, key), ValueOf(host))
  }

  lemma SameTable(host: Host, rules: map<uint32, ForwardingRule>, l1: seq<ForwardingRule>, i1: seq<uint32>,
                  l2: seq<ForwardingRule>, i2: seq<uint32>)
    requires OrderDetermined(host, rules) && Indexes(l1, i1, rules) && Indexes(l2, i2, rules)
    ensures CompiledTable(host, l1) == CompiledTable(host, l2)
  {
    forall key
      ensures EntryFor(host, l1, key) == EntryFor(host, l2, key)
    {
      AnswerIndependentIff(rules, BlockTest(host, key), None, ValueOf(host));
    }
  }

  /** Rules of pairwise distinct priorities never leave the table to chance. */
  lemma DistinctPrioritiesDetermine(host: Host, rules: map<uint32, ForwardingRule>)
    requires forall a, b :: a in rules && b in rules && a != b ==> rules[a].priority != rules[b].priority
    ensures OrderDetermined(host, rules)
  {
    forall key
      ensures LeastAgree(rules, BlockTest(host, key), ValueOf(host))
    {
      forall a, b | IsLeast(rules, BlockTest(host, key), a) && IsLeast(rules, BlockTest(host, key), b)
        ensures a == b
      {
        assert rules[a].priority <= rules[b].priority <= rules[a].priority;
      }
    }
  }

  // ---------- what else could be pushed ----------

  /** Every packet of the key has this fate in userspace. */
  ghost predicate AllMeet(host: Host, rules: seq<ForwardingRule>, key: RuleKey, fate: Verdict) {
    forall pkt: Packet :: KeyOf(pkt) == key ==> Resolved(host, ListVerdict(host, rules, pkt)) == fate
  }

  /** A table, whatever it was made from, is transparent exactly when each entry does to its packets what
      userspace does to every one of them. */
  lemma TransparentIff(host: Host, rules: seq<ForwardingRule>, table: KernelTable)
    ensures Transparent(host, rules, table) <==>
      forall key :: key in table ==> AllMeet(host, rules, key, EntryVerdict(table[key]))
  {
    if Transparent(host, rules, table) {
      forall key, pkt: Packet | key in table && KeyOf(pkt) == key
        ensures Resolved(host, ListVerdict(host, rules, pkt)) == EntryVerdict(table[key])
      {
        assert Resolved(host, OffloadedVerdict(host, table, rules, pkt))
          == Resolved(host, ListVerdict(host, rules, pkt));
      }
    } else {
      var pkt: Packet :| Resolved(host, OffloadedVerdict(host, table, rules, pkt))
        != Resolved(host, ListVerdict(host, rules, pkt));
      assert !AllMeet(host, rules, KeyOf(pkt), EntryVerdict(table[KeyOf(pkt)]));
    }
  }

  /** The rule names exactly this TCP or UDP key and asks nothing else of a packet. */
  predicate NamesExactly(rule: ForwardingRule, key: RuleKey) {
    && (key.protocol == PROTOCOL_TCP || key.protocol == PROTOCOL_UDP) && key.dstPort != 0
    && RuleKey(rule.protocol, rule.dstPort) == key
    && rule.srcPort == 0 && rule.srcAddr == "" && rule.dstAddr == ""
  }

  /** A key that could be pushed, because all its packets meet one kernel fate, is in the plan, with that fate, if
      and only if the first rule that can match one of its packets names exactly that key. */
  lemma PlanCoversIff(host: Host, rules: seq<ForwardingRule>, key: RuleKey, value: RuleValue) returns (i: nat)
    requires AllMeet(host, rules, key, EntryVerdict(value))
    ensures i < |rules| && (exists pkt: Packet :: KeyOf(pkt) == key && Matches(host, rules[i], pkt))
    ensures forall j, pkt: Packet :: 0 <= j < i && KeyOf(pkt) == key ==> !Matches(host, rules[j], pkt)
    ensures key in CompiledTable(host, rules) <==> NamesExactly(rules[i], key)
    ensures key in CompiledTable(host, rules) ==> EntryVerdict(CompiledTable(host, rules)[key]) == EntryVerdict(value)
  {
    i := FirstPosition(rules, BlockTest(host, key));
    var pkt := Packet("", "", 0, key.dstPort, key.protocol);
    forall j | 0 <= j < |rules|
      ensures Blocks(host, rules[j], key) <==> exists p: Packet :: KeyOf(p) == key && Matches(host, rules[j], p)
    {
      BlocksIffMatchesSomePacket(host, rules[j], key);
    }
    if i == |rules| {
      ListVerdictIsUnmatched(host, rules, pkt);
      assert false;
    }
    if NamesExactly(rules[i], key) || Encode(host, rules[i]).Some? {
      ListVerdictIsFirstMatch(host, rules, pkt, i);
    }
  }

  /** The compiler is cautious: it pushes nothing for a port all of whose packets are dropped, when a rule that
      names an address comes first, though pushing the drop would change no packet's fate. */
  lemma MoreCouldBePushed(host: Host, narrow: ForwardingRule, wide: ForwardingRule)
    requires narrow.action == wide.action == ACTION_DROP && narrow.srcAddr == "10.0.0.1" && NamesExactly(wide, HTTP)
    requires RuleKey(narrow.protocol, narrow.dstPort) == HTTP
    ensures CompiledTable(host, [narrow, wide]) == map[]
    ensures Transparent(host, [narrow, wide], map[HTTP := RuleValue(KERNEL_DROP, 0)])
  {
    var rules, drop := [narrow, wide], RuleValue(KERNEL_DROP, 0);
    forall pkt: Packet | KeyOf(pkt) == HTTP
      ensures ListVerdict(host, rules, pkt) == Dropped
    {
      ListVerdictIsFirstMatch(host, rules, pkt, if Matches(host, narrow, pkt) then 0 else 1);
    }
    TransparentIff(host, rules, map[HTTP := drop]);
    forall key
      ensures EntryFor(host, rules, key) == None
    {
      if key == HTTP {
        FirstWithAt(rules, BlockTest(host, key), 0);
      } else {
        FirstWithNone(rules, BlockTest(host, key));
      }
    }
  }
}
