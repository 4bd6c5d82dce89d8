/** The connectivity-check state machine of desktop/internal/p2p/ice.go. Ticks of the check loop, completions of
    individual checks and arriving candidates are atomic steps that interleave freely. */
module IceAgent {
  import opened Prelude
  import opened IcePriority

  datatype Candidate = Candidate(id: string, kind: CandidateType, addr: string, port: int, priority: uint32,
                                   foundation: string)

  datatype PairState = Waiting | InProgress | PairSucceeded | PairFailed

  datatype AgentState = New | Gathering | Checking | Connected | AgentFailed | Closed

  class CandidatePair {
    const local: Candidate
    const remote: Candidate
    const priority: uint64
    var state: PairState
    var nominated: bool
    /** How many times a check of this pair has been started. */
    ghost var checks: nat

    constructor (local: Candidate, remote: Candidate)
      ensures this.local == local && this.remote == remote
      ensures priority == ComputePairPriority(local.priority, remote.priority)
      ensures state == Waiting && !nominated && checks == 0
    {
      this.local, this.remote := local, remote;
      priority := ComputePairPriority(local.priority, remote.priority);
      state, nominated, checks := Waiting, false, 0;
    }
  }

  type Ends = (Candidate, Candidate)

  function EndsOf(pairs: seq<CandidatePair>): (r: seq<Ends>)
    ensures |r| == |pairs|
  {
    seq(|pairs|, i requires 0 <= i < |pairs| => (pairs[i].local, pairs[i].remote))
  }

  /** All locals with one remote. */
  function Row(locals: seq<Candidate>, remote: Candidate): seq<Ends> {
    seq(|locals|, i requires 0 <= i < |locals| => (locals[i], remote))
  }

  /** The product of locals and remotes. */
  function Product(locals: seq<Candidate>, remotes: seq<Candidate>): seq<Ends> {
    if remotes == [] then []
    else Product(locals, remotes[..|remotes| - 1]) + Row(locals, remotes[|remotes| - 1])
  }

  /** Each local is paired with each remote as often as the two are listed. */
  lemma {:induction false} ProductCounts(locals: seq<Candidate>, remotes: seq<Candidate>, l: Candidate, r: Candidate)
    ensures multiset(Product(locals, remotes))[(l, r)] == multiset(locals)[l] * multiset(remotes)[r]
  {
    if remotes == [] {
      assert multiset(remotes)[r] == 0;
    } else {
      var front, last := remotes[..|remotes| - 1], remotes[|remotes| - 1];
      ProductCounts(locals, front, l, r);
      RowCounts(locals, last, l, r);
      CountLast(remotes, r);
      OneMoreTimes(multiset(locals)[l], multiset(front)[r]);
    }
  }

  lemma OneMoreTimes(a: nat, b: nat)
    ensures a * (b + 1) == a * b + a
  {
  }

  lemma CountLast<T>(s: seq<T>, x: T)
    requires s != []
    ensures multiset(s)[x] == multiset(s[..|s| - 1])[x] + if s[|s| - 1] == x then 1 else 0
  {
    assert s == s[..|s| - 1] + [s[|s| - 1]];
  }

  lemma {:induction false} RowCounts(locals: seq<Candidate>, remote: Candidate, l: Candidate, r: Candidate)
    ensures multiset(Row(locals, remote))[(l, r)] == if r == remote then multiset(locals)[l] else 0
  {
    if locals != [] {
      var n := |locals| - 1;
      RowCounts(locals[..n], remote, l, r);
      CountLast(locals, l);
      CountLast(Row(locals, remote), (l, r));
      assert Row(locals, remote)[..n] == Row(locals[..n], remote);
    }
  }

  /** A further local candidate adds one pair for each remote. */
  lemma {:induction false} ProductGrows(locals: seq<Candidate>, c: Candidate, remotes: seq<Candidate>)
    ensures |Product(locals + [c], remotes)| == |Product(locals, remotes)| + |remotes|
  {
    if remotes == [] {
    } else {
      ProductGrows(locals, c, remotes[..|remotes| - 1]);
    }
  }

  ghost predicate PrioritySorted(pairs: seq<CandidatePair>) {
    forall i, j :: 0 <= i < j < |pairs| ==> pairs[i].priority >= pairs[j].priority
  }

  /** The library sort, of which only order and permutation are known: equal priorities may come in any order. */
  method SortByPriority(pairs: seq<CandidatePair>) returns (sorted: seq<CandidatePair>)
    ensures multiset(sorted) == multiset(pairs)
    ensures PrioritySorted(sorted)
  {
    sorted := [];
    for n := 0 to |pairs|
      invariant multiset(sorted) == multiset(pairs[..n])
      invariant PrioritySorted(sorted)
    {
      assert pairs[..n + 1] == pairs[..n] + [pairs[n]];
      sorted := InsertByPriority(sorted, pairs[n]);
    }
    assert pairs[..|pairs|] == pairs;
  }

  method InsertByPriority(sorted: seq<CandidatePair>, pair: CandidatePair) returns (r: seq<CandidatePair>)
    requires PrioritySorted(sorted)
    ensures multiset(r) == multiset(sorted) + multiset{pair}
    ensures PrioritySorted(r)
  {
    var k := 0;
    while k < |sorted| && sorted[k].priority >= pair.priority
      invariant 0 <= k <= |sorted|
      invariant forall i :: 0 <= i < k ==> sorted[i].priority >= pair.priority
    {
      k := k + 1;
    }
    assert sorted == sorted[..k] + sorted[k..];
    InsertKeepsSorted(sorted, k, pair);
    return sorted[..k] + [pair] + sorted[k..];
  }

  lemma InsertKeepsSorted(sorted: seq<CandidatePair>, k: nat, pair: CandidatePair)
    requires PrioritySorted(sorted) && k <= |sorted|
    requires forall i :: 0 <= i < k ==> sorted[i].priority >= pair.priority
    requires k < |sorted| ==> pair.priority > sorted[k].priority
    ensures PrioritySorted(sorted[..k] + [pair] + sorted[k..])
  {
    var r := sorted[..k] + [pair] + sorted[k..];
    forall i, j | 0 <= i < j < |r|
      ensures r[i].priority >= r[j].priority
    {
      assert r[i] == if i < k then sorted[i] else if i == k then pair else sorted[i - 1];
      assert r[j] == if j < k then sorted[j] else if j == k then pair else sorted[j - 1];
    }
  }

  lemma EndsOfConcat(a: seq<CandidatePair>, b: seq<CandidatePair>)
    ensures EndsOf(a + b) == EndsOf(a) + EndsOf(b)
  {
  }

  lemma EndsAround(front: seq<CandidatePair>, x: CandidatePair, back: seq<CandidatePair>)
    ensures multiset(EndsOf(front + [x] + back)) == multiset(EndsOf(front + back)) + multiset{(x.local, x.remote)}
  {
    EndsOfConcat(front + [x], back);
    EndsOfConcat(front, [x]);
    EndsOfConcat(front, back);
  }

  lemma WithoutOne(s: seq<CandidatePair>, front: seq<CandidatePair>, x: CandidatePair, back: seq<CandidatePair>)
    requires s == front + [x] + back
    ensures multiset(s) - multiset{x} == multiset(front + back)
  {
  }

  /** A permutation of the pairs is a permutation of their ends. */
  lemma {:induction false} EndsOfPermutation(a: seq<CandidatePair>, b: seq<CandidatePair>)
    requires multiset(a) == multiset(b)
    ensures multiset(EndsOf(a)) == multiset(EndsOf(b))
    decreases |a|
  {
    if a == [] {
      assert |b| == |multiset(b)| == 0;
    } else {
      var n := |a| - 1;
      var x, init := a[n], a[..n];
      assert a == init + [x] + [] && init + [] == init;
      assert x in multiset(a) && x in multiset(b);
      var k :| 0 <= k < |b| && b[k] == x;
      var front, back := b[..k], b[k + 1..];
      assert b == front + [x] + back;
      WithoutOne(a, init, x, []);
      WithoutOne(b, front, x, back);
      EndsOfPermutation(init, front + back);
      EndsAround(init, x, []);
      EndsAround(front, x, back);
    }
  }

  lemma OneMoreListed(before: seq<CandidatePair>, pair: CandidatePair, after: seq<CandidatePair>)
    requires multiset(after) == multiset(before + [pair])
    ensures |after| == |before| + 1
    ensures multiset(after) == multiset(before) + multiset{pair}
    ensures multiset(EndsOf(after)) == multiset(EndsOf(before)) + multiset{(pair.local, pair.remote)}
  {
    EndsOfPermutation(after, before + [pair]);
    EndsOfConcat(before, [pair]);
    assert |after| == |multiset(after)| == |before| + 1;
  }

  lemma RowCompletes(locals: seq<Candidate>, remotes: seq<Candidate>, c: Candidate)
    ensures multiset(Product(locals, remotes + [c])) == multiset(Product(locals, remotes)) + multiset(Row(locals, c))
  {
    assert (remotes + [c])[..|remotes|] == remotes;
  }

  /** It enlarges the product exactly when there are remotes. */
  lemma ProductUnchangedIff(locals: seq<Candidate>, c: Candidate, remotes: seq<Candidate>)
    ensures multiset(Product(locals + [c], remotes)) == multiset(Product(locals, remotes)) <==> remotes == []
  {
    ProductGrows(locals, c, remotes);
    if remotes != [] {
      assert |multiset(Product(locals + [c], remotes))| != |multiset(Product(locals, remotes))|;
    }
  }

  /** How a pair may change over time. */
  predicate Later(before: PairState, after: PairState) {
    || before == after
    || before == Waiting
    || (before == InProgress && after in {PairSucceeded, PairFailed})
  }

  datatype TickResult = Started(pair: CandidatePair) | Finished | AllFailed | KeepWaiting

  class Agent {
    var state: AgentState
    var localCandidates: seq<Candidate>
    var remoteCandidates: seq<Candidate>
    var checklist: seq<CandidatePair>
    /** The pairs on the checklist, each of which is on it once. */
    ghost var pairs: set<CandidatePair>
    var selectedPair: CandidatePair?

    ghost predicate Valid()
      reads this, pairs
    {
      && multiset(checklist) == multiset(pairs)
      && PrioritySorted(checklist)
      && (forall p :: p in pairs ==>
            && p.priority == ComputePairPriority(p.local.priority, p.remote.priority)
            && p.checks == (if p.state == Waiting then 0 else 1)
            && (p.nominated <==> p == selectedPair))
      && (selectedPair != null ==> selectedPair in pairs && selectedPair.state == PairSucceeded)
    }

    /** The checklist is exactly locals x remotes. */
    ghost predicate Complete()
      reads this
    {
      multiset(EndsOf(checklist)) == multiset(Product(localCandidates, remoteCandidates))
    }

    /** What every step keeps: pairs stay on the list and only move forward, and a selected pair stays selected. */
    twostate predicate Evolves()
      reads this, pairs
    {
      && localCandidates == old(localCandidates)
      && old(pairs) <= pairs
      && (forall p :: p in old(pairs) ==> Later(old(p.state), p.state))
      && (old(selectedPair) != null ==> selectedPair == old(selectedPair))
    }

    constructor ()
      ensures Valid() && Complete()
      ensures localCandidates == [] && remoteCandidates == [] && checklist == [] && pairs == {}
        && selectedPair == null && state == New
    {
      state := New;
      localCandidates, remoteCandidates, checklist, pairs, selectedPair := [], [], [], {}, null;
    }

    /** A local candidate gathered before any remote one is known keeps the checklist complete; a later one is
        never paired with the remotes already there. */
    method AddLocalCandidate(c: Candidate)
      requires Valid() && Complete()
      modifies this`localCandidates
      ensures Valid()
      ensures localCandidates == old(localCandidates) + [c]
      ensures Complete() <==> remoteCandidates == []
    {
      localCandidates := localCandidates + [c];
      ProductUnchangedIff(old(localCandidates), c, remoteCandidates);
    }

    /** Pairs the new candidate with every local one. */
    method AddRemoteCandidate(c: Candidate)
      requires Valid() && Complete()
      modifies this`remoteCandidates, this`checklist, this`pairs
      ensures Valid() && Complete() && Evolves()
      ensures remoteCandidates == old(remoteCandidates) + [c]
      ensures |checklist| == |old(checklist)| + |localCandidates|
      ensures old(pairs) <= pairs
      ensures forall p :: p in pairs - old(pairs) ==> fresh(p) && p.state == Waiting && p.remote == c
    {
      remoteCandidates := remoteCandidates + [c];
      RowCompletes(localCandidates, old(remoteCandidates), c);
      PairWithLocals(c);
    }

    method PairWithLocals(c: Candidate)
      requires Valid()
      modifies this`checklist, this`pairs
      ensures Valid()
      ensures multiset(EndsOf(checklist)) == multiset(EndsOf(old(checklist))) + multiset(Row(localCandidates, c))
      ensures old(pairs) <= pairs && |checklist| == |old(checklist)| + |localCandidates|
      ensures forall p :: p in pairs - old(pairs) ==> fresh(p) && p.state == Waiting && p.remote == c
    {
      var locals := localCandidates;
      for i := 0 to |locals|
        invariant Valid()
        invariant multiset(EndsOf(checklist)) == multiset(EndsOf(old(checklist))) + multiset(Row(locals, c)[..i])
        invariant old(pairs) <= pairs && |checklist| == |old(checklist)| + i
        invariant forall p :: p in pairs - old(pairs) ==> fresh(p) && p.state == Waiting && p.remote == c
      {
        assert Row(locals, c)[..i + 1] == Row(locals, c)[..i] + [(locals[i], c)];
        var pair := new CandidatePair(locals[i], c);
        AddPair(pair);
      }
      assert Row(locals, c)[..|locals|] == Row(locals, c);
    }

    method AddPair(pair: CandidatePair)
      requires Valid() && pair !in pairs
      requires pair.priority == ComputePairPriority(pair.local.priority, pair.remote.priority)
      requires pair.state == Waiting && pair.checks == 0 && !pair.nominated
      modifies this`checklist, this`pairs
      ensures Valid()
      ensures multiset(EndsOf(checklist)) == multiset(EndsOf(old(checklist))) + multiset{(pair.local, pair.remote)}
      ensures pairs == old(pairs) + {pair}
      ensures |checklist| == |old(checklist)| + 1
    {
      ghost var before := checklist;
      var sorted := SortByPriority(checklist + [pair]);
      OneMoreListed(before, pair, sorted);
      checklist, pairs := sorted, pairs + {pair};
    }

    /** Marks the waiting pair of greatest priority as in progress and returns it, or null when none waits. */
    method GetNextWaitingPair() returns (pair: CandidatePair?)
      requires Valid()
      modifies pairs
      ensures Valid()
      ensures pair == null <==> forall p :: p in pairs ==> old(p.state) != Waiting
      ensures pair != null ==>
        && pair in pairs && old(pair.state) == Waiting && pair.state == InProgress && pair.checks == 1
        && forall p :: p in pairs && old(p.state) == Waiting ==> p.priority <= pair.priority
      ensures forall p :: p in pairs && p != pair ==> p.state == old(p.state) && p.checks == old(p.checks)
      ensures forall p :: p in pairs ==> p.nominated == old(p.nominated)
    {
      pair := FirstWaiting();
      if pair != null {
        pair.state := InProgress;
        pair.checks := pair.checks + 1;
      }
    }

    method FirstWaiting() returns (pair: CandidatePair?)
      requires Valid()
      ensures pair == null <==> forall p :: p in pairs ==> p.state != Waiting
      ensures pair != null ==>
        pair in pairs && pair.state == Waiting && forall p :: p in pairs && p.state == Waiting ==>
          p.priority <= pair.priority
    {
      for i := 0 to |checklist|
        invariant forall j :: 0 <= j < i ==> checklist[j].state != Waiting
      {
        assert checklist[i] in multiset(checklist);
        if checklist[i].state == Waiting {
          forall p | p in pairs && p.state == Waiting
            ensures p.priority <= checklist[i].priority
          {
            assert p in multiset(checklist);
          }
          return checklist[i];
        }
      }
      forall p | p in pairs
        ensures p.state != Waiting
      {
        assert p in multiset(checklist);
      }
      return null;
    }

    /** The end of a check: a response makes the pair succeed, and the first pair to succeed is nominated. */
    method FinishCheck(pair: CandidatePair, responded: bool)
      requires Valid() && pair in pairs && pair.state == InProgress
      modifies this`selectedPair, this`state, pair
      ensures Valid()
      ensures pair.state == if responded then PairSucceeded else PairFailed
      ensures selectedPair == if responded && old(selectedPair) == null then pair else old(selectedPair)
      ensures state == if responded && old(selectedPair) == null then Connected else old(state)
    {
      pair.state := if responded then PairSucceeded else PairFailed;
      if responded && selectedPair == null {
        pair.nominated := true;
        selectedPair := pair;
        state := Connected;
      }
    }

    method EndCheckAt(index: nat, responded: bool)
      requires Valid() && index < |checklist| && checklist[index].state == InProgress
      modifies this`selectedPair, this`state, pairs
      ensures Valid() && Evolves()
    {
      assert checklist[index] in multiset(checklist);
      FinishCheck(checklist[index], responded);
    }

    method AllPairsFailed() returns (all: bool)
      requires multiset(checklist) == multiset(pairs)
      ensures all <==> checklist != [] && forall p :: p in pairs ==> p.state == PairFailed
    {
      if checklist == [] {
        return false;
      }
      for i := 0 to |checklist|
        invariant forall j :: 0 <= j < i ==> checklist[j].state == PairFailed
      {
        assert checklist[i] in multiset(checklist);
        if checklist[i].state != PairFailed {
          return false;
        }
      }
      forall p | p in pairs
        ensures p.state == PairFailed
      {
        assert p in multiset(checklist);
      }
      return true;
    }

    /** One tick of the check loop. It reports success only with a selected pair and nothing left waiting, and
        failure only when there are pairs and all of them have failed. */
    method Tick() returns (r: TickResult)
      requires Valid()
      modifies this`state, pairs
      ensures Valid() && Evolves()
      ensures r.Started? <==> exists p :: p in pairs && old(p.state) == Waiting
      ensures r.Started? ==>
        r.pair in pairs && old(r.pair.state) == Waiting && r.pair.state == InProgress && r.pair.checks == 1
      ensures r.Finished? <==> selectedPair != null && forall p :: p in pairs ==> old(p.state) != Waiting
      ensures r.AllFailed? <==> checklist != [] && forall p :: p in pairs ==> old(p.state) == PairFailed
      ensures forall p :: p in pairs && !(r.Started? && p == r.pair) ==>
        p.state == old(p.state) && p.checks == old(p.checks)
      ensures state == if r.AllFailed? then AgentFailed else old(state)
    {
      var pair := GetNextWaitingPair();
      if pair != null {
        return Started(pair);
      }
      if selectedPair != null {
        return Finished;
      }
      var failed := AllPairsFailed();
      if failed {
        state := AgentFailed;
        return AllFailed;
      }
      return KeepWaiting;
    }
  }

  datatype Event =
    | RemoteArrived(c: Candidate)
    | LoopTick
    | CheckEnded(index: nat, responded: bool)

  method Apply(agent: Agent, event: Event)
    requires agent.Valid() && agent.Complete()
    modifies agent, agent.pairs
    ensures agent.Valid() && agent.Complete()
    ensures agent.Evolves() && fresh(agent.pairs - old(agent.pairs))
  {
    match event {
      case RemoteArrived(c) => agent.AddRemoteCandidate(c);
      case LoopTick => var _ := agent.Tick();
      case CheckEnded(index, responded) =>
        if index < |agent.checklist| && agent.checklist[index].state == InProgress {
          agent.EndCheckAt(index, responded);
        }
    }
  }

  /** Any run after gathering: the checklist stays exactly locals x remotes in priority order, no pair is checked
      twice or goes back, and a selected pair stays selected. */
  method Run(agent: Agent, events: seq<Event>)
    requires agent.Valid() && agent.Complete()
    modifies agent, agent.pairs
    ensures agent.Valid() && agent.Complete()
    ensures agent.Evolves()
    ensures forall p :: p in agent.pairs ==>
      p.checks <= 1 && p.priority == ComputePairPriority(p.local.priority, p.remote.priority)
    ensures forall p :: p in old(agent.pairs) ==>
      && p in agent.pairs
      && (old(p.state) in {PairSucceeded, PairFailed} ==> p.state == old(p.state))
      && (old(p.state) == InProgress ==> p.state != Waiting)
    ensures agent.selectedPair != null ==> agent.selectedPair.state == PairSucceeded
    ensures old(agent.selectedPair) != null ==> agent.selectedPair == old(agent.selectedPair)
  {
    for i := 0 to |events|
      invariant agent.Valid() && agent.Complete()
      invariant agent.Evolves() && fresh(agent.pairs - old(agent.pairs))
    {
      Apply(agent, events[i]);
    }
  }
}
