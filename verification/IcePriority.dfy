/** Candidate and pair priorities of desktop/internal/p2p/ice.go, in 32- and 64-bit arithmetic. */
module IcePriority {
  import opened Prelude

  datatype CandidateType = Host | ServerReflexive | Relay

  function TypePreference(kind: CandidateType): uint32 {
    match kind
    case Host => 126
    case ServerReflexive => 100
    case Relay => 0
  }

  function Shl32(x: uint32, factor: nat): uint32 {
    x * factor % TWO_TO_THE_32
  }

  function ComputePriority(kind: CandidateType, localPref: uint32, componentID: uint32): uint32 {
    Add32(Add32(Shl32(TypePreference(kind), 0x100_0000), Shl32(localPref, 0x100)), (256 - componentID) % TWO_TO_THE_32)
  }

  function ComputePairPriority(g: uint32, d: uint32): uint64 {
    var lo, hi := if g > d then d else g, if g > d then g else d;
    Add64(Add64(TWO_TO_THE_32 * lo % TWO_TO_THE_64, 2 * hi % TWO_TO_THE_64), if g > d then 1 else 0)
  }

  /** The parameters RFC 8445 allows: a 16-bit local preference and a component from 1 to 256. */
  predicate InRange(localPref: uint32, componentID: uint32) {
    localPref < 0x1_0000 && 1 <= componentID <= 256
  }

  /** Nothing wraps, and the top bit stays clear. */
  lemma PriorityHasNoTopBit(kind: CandidateType, localPref: uint32, componentID: uint32)
    requires InRange(localPref, componentID)
    ensures ComputePriority(kind, localPref, componentID)
      == (match kind case Host => 126 case ServerReflexive => 100 case Relay => 0) * 0x100_0000
        + localPref * 0x100 + (256 - componentID)
    ensures ComputePriority(kind, localPref, componentID) < 0x8000_0000
  {
    var t, l, c := TypePreference(kind) * 0x100_0000, localPref * 0x100, 256 - componentID;
    Fits32(t);
    Fits32(l);
    Fits32(c);
    Fits32(t + l);
    Fits32(t + l + c);
  }

  lemma Fits32(x: int)
    requires 0 <= x < TWO_TO_THE_32
    ensures x % TWO_TO_THE_32 == x
  {
  }

  /** Candidates that differ in type, local preference or component differ in priority. */
  lemma PriorityIsInjective(kind: CandidateType, localPref: uint32, componentID: uint32,
                            kind': CandidateType, localPref': uint32, componentID': uint32)
    requires InRange(localPref, componentID) && InRange(localPref', componentID')
    requires ComputePriority(kind, localPref, componentID) == ComputePriority(kind', localPref', componentID')
    ensures kind == kind' && localPref == localPref' && componentID == componentID'
  {
    PriorityHasNoTopBit(kind, localPref, componentID);
    PriorityHasNoTopBit(kind', localPref', componentID');
    assert TypePreference(kind) == TypePreference(kind');
  }

  /** The type decides first: any host candidate before any server-reflexive one before any relayed one. */
  lemma TypeDominates(localPref: uint32, componentID: uint32, localPref': uint32, componentID': uint32)
    requires InRange(localPref, componentID) && InRange(localPref', componentID')
    ensures ComputePriority(Host, localPref, componentID) > ComputePriority(ServerReflexive, localPref', componentID')
    ensures ComputePriority(ServerReflexive, localPref, componentID) > ComputePriority(Relay, localPref', componentID')
  {
    PriorityHasNoTopBit(Host, localPref, componentID);
    PriorityHasNoTopBit(ServerReflexive, localPref, componentID);
    PriorityHasNoTopBit(ServerReflexive, localPref', componentID');
    PriorityHasNoTopBit(Relay, localPref', componentID');
  }

  function Min(a: int, b: int): int {
    if a <= b then a else b
  }

  function Max(a: int, b: int): int {
    if a <= b then b else a
  }

  function TieBit(g: int, d: int): int {
    if g > d then 1 else 0
  }

  /** The formula of section 6.1.2.3 of RFC 8445, in unbounded arithmetic. */
  function PairFormula(g: int, d: int): int {
    TWO_TO_THE_32 * Min(g, d) + 2 * Max(g, d) + TieBit(g, d)
  }

  const MAX_PRIORITY: uint32 := 0xFFFF_FFFF

  predicate BothGreatest(g: uint32, d: uint32) {
    g == MAX_PRIORITY && d == MAX_PRIORITY
  }

  lemma Fits64(x: int)
    requires 0 <= x < TWO_TO_THE_64
    ensures x % TWO_TO_THE_64 == x
  {
  }

  lemma PairSum(g: uint32, d: uint32)
    ensures ComputePairPriority(g, d) == PairFormula(g, d) - if BothGreatest(g, d) then TWO_TO_THE_64 else 0
  {
    var lo, hi := Min(g, d), Max(g, d);
    Fits64(TWO_TO_THE_32 * lo);
    Fits64(2 * hi);
    if !BothGreatest(g, d) {
      Fits64(TWO_TO_THE_32 * lo + 2 * hi);
      Fits64(PairFormula(g, d));
    }
  }

  /** The pair priority is the formula for every two 32-bit priorities except twice the greatest one, for which the
      64-bit sum goes round. */
  lemma PairPriorityIsFormulaIff(g: uint32, d: uint32)
    ensures ComputePairPriority(g, d) == PairFormula(g, d) <==> !BothGreatest(g, d)
  {
    PairSum(g, d);
  }

  /** A pair of this agent never goes round, whatever priority the remote candidate claims. */
  lemma LocalPairDoesNotWrap(kind: CandidateType, localPref: uint32, componentID: uint32, remote: uint32)
    requires InRange(localPref, componentID)
    ensures var l := ComputePriority(kind, localPref, componentID);
      ComputePairPriority(l, remote) == PairFormula(l, remote)
        && ComputePairPriority(remote, l) == PairFormula(remote, l)
  {
    PriorityHasNoTopBit(kind, localPref, componentID);
    PairPriorityIsFormulaIff(ComputePriority(kind, localPref, componentID), remote);
    PairPriorityIsFormulaIff(remote, ComputePriority(kind, localPref, componentID));
  }

  lemma GreatestPairGoesRound()
    ensures ComputePairPriority(MAX_PRIORITY, MAX_PRIORITY) < ComputePairPriority(1, 1)
  {
    PairSum(MAX_PRIORITY, MAX_PRIORITY);
    PairSum(1, 1);
  }

  // ---------- the order of pairs ----------

  /** Lexicographic: the smaller priority first, then the larger, then whether the first argument is the larger. */
  predicate LexLess(g: int, d: int, g': int, d': int) {
    || Min(g, d) < Min(g', d')
    || (Min(g, d) == Min(g', d') && Max(g, d) < Max(g', d'))
    || (Min(g, d) == Min(g', d') && Max(g, d) == Max(g', d') && TieBit(g, d) < TieBit(g', d'))
  }

  /** What the larger priority and the tie bit contribute; from 2^32 on it reaches into the smaller priority's half. */
  function LowPart(g: int, d: int): int {
    2 * Max(g, d) + TieBit(g, d)
  }

  /** The first pair's low part makes up for a smaller priority one below the second pair's. */
  predicate Overtakes(g: int, d: int, g': int, d': int) {
    Min(g', d') == Min(g, d) + 1 && LowPart(g, d) > TWO_TO_THE_32 + LowPart(g', d')
  }

  predicate Draws(g: int, d: int, g': int, d': int) {
    Min(g', d') == Min(g, d) + 1 && LowPart(g, d) == TWO_TO_THE_32 + LowPart(g', d')
  }

  /** When comparing two pair priorities is comparing the pairs lexicographically. */
  predicate OrderServes(g: uint32, d: uint32, g': uint32, d': uint32) {
    if BothGreatest(g, d) then BothGreatest(g', d') || (Min(g', d') == 0 && LowPart(g', d') <= TWO_TO_THE_32 - 2)
    else if BothGreatest(g', d') then Min(g, d) == 0 && LowPart(g, d) < TWO_TO_THE_32 - 2
    else !Overtakes(g, d, g', d') && !Draws(g, d, g', d') && !Overtakes(g', d', g, d)
  }

  lemma FormulaOrder(g: uint32, d: uint32, g': uint32, d': uint32)
    ensures (PairFormula(g, d) < PairFormula(g', d') <==> LexLess(g, d, g', d'))
      <==> !Overtakes(g, d, g', d') && !Draws(g, d, g', d') && !Overtakes(g', d', g, d)
  {
    var lo, lo' := Min(g, d), Min(g', d');
    assert PairFormula(g, d) == TWO_TO_THE_32 * lo + LowPart(g, d);
    assert PairFormula(g', d') == TWO_TO_THE_32 * lo' + LowPart(g', d');
    assert 0 <= LowPart(g, d) < 2 * TWO_TO_THE_32 && 0 <= LowPart(g', d') < 2 * TWO_TO_THE_32;
    assert LexLess(g, d, g', d') <==> lo < lo' || (lo == lo' && LowPart(g, d) < LowPart(g', d'));
  }

  /** For every two pairs of 32-bit priorities: the code orders them lexicographically if and only if neither is the
      pair that goes round, up to the few pairs it still falls below, and neither overtakes the other. */
  lemma PairOrderIsLexicographicIff(g: uint32, d: uint32, g': uint32, d': uint32)
    ensures (ComputePairPriority(g, d) < ComputePairPriority(g', d') <==> LexLess(g, d, g', d')) <==>
      OrderServes(g, d, g', d')
  {
    PairSum(g, d);
    PairSum(g', d');
    if !BothGreatest(g, d) && !BothGreatest(g', d') {
      FormulaOrder(g, d, g', d');
    }
  }

  /** Below 2^31, where every priority computed here lies, the order is lexicographic. */
  lemma PairOrderIsLexicographic(g: uint32, d: uint32, g': uint32, d': uint32)
    requires g < 0x8000_0000 && d < 0x8000_0000 && g' < 0x8000_0000 && d' < 0x8000_0000
    ensures ComputePairPriority(g, d) < ComputePairPriority(g', d') <==> LexLess(g, d, g', d')
  {
    PairOrderIsLexicographicIff(g, d, g', d');
  }

  /** A remote priority with the top bit set can lift a pair over one with a greater smaller priority. */
  lemma TopBitCanOvertake()
    ensures LexLess(1, 0x8000_000A, 2, 2) && ComputePairPriority(1, 0x8000_000A) > ComputePairPriority(2, 2)
  {
    PairSum(1, 0x8000_000A);
    PairSum(2, 2);
  }

  /** The two pairs have the same priority but for the tie bit. */
  predicate SameBase(g: int, d: int, g': int, d': int) {
    var lo, hi, lo', hi' := Min(g, d), Max(g, d), Min(g', d'), Max(g', d');
    || (lo == lo' && hi == hi')
    || (lo' == lo + 1 && hi == hi' + 0x8000_0000)
    || (lo == lo' + 1 && hi' == hi + 0x8000_0000)
    || (lo == hi == MAX_PRIORITY && lo' == 0 && hi' == 0x7FFF_FFFF)
    || (lo' == hi' == MAX_PRIORITY && lo == 0 && hi == 0x7FFF_FFFF)
  }

  /** One pair has the greater priority on the one side and the other pair does not, or the same for the other side. */
  predicate OppositeTilt(l: int, r: int, l': int, r': int) {
    (l <= r && l' > r') || (l >= r && l' < r')
  }

  /** A pair priority is this, which both agents agree on, plus the tie bit, on which they do not. */
  function PairBase(g: uint32, d: uint32): uint64 {
    ComputePairPriority(Min(g, d), Max(g, d))
  }

  lemma BaseAndTieBit(g: uint32, d: uint32)
    ensures PairBase(g, d) == PairBase(d, g) && PairBase(g, d) % 2 == 0
    ensures ComputePairPriority(g, d) == PairBase(g, d) + TieBit(g, d)
  {
    PairSum(g, d);
    PairSum(Min(g, d), Max(g, d));
    assert PairBase(g, d) == 2 * (PairBase(g, d) / 2);
  }

  lemma SameBaseIff(g: uint32, d: uint32, g': uint32, d': uint32)
    ensures PairBase(g, d) == PairBase(g', d') <==> SameBase(g, d, g', d')
  {
    PairSum(Min(g, d), Max(g, d));
    PairSum(Min(g', d'), Max(g', d'));
  }

  /** Even numbers that differ keep their order whatever bit is added to them. */
  lemma TieBitsDecide(base: int, base': int, l: int, r: int, l': int, r': int)
    requires base % 2 == 0 && base' % 2 == 0
    ensures (base + TieBit(l, r) < base' + TieBit(l', r') <==> base + TieBit(r, l) < base' + TieBit(r', l'))
      <==> !(base == base' && OppositeTilt(l, r, l', r'))
  {
  }

  /** Each agent passes its own candidate's priority first, whichever role it has. For every two pairs of 32-bit
      priorities, two agents rank them alike unless the pairs differ in the tie bit only and tilt opposite ways. */
  lemma AgentsRankAlikeIff(l: uint32, r: uint32, l': uint32, r': uint32)
    ensures (ComputePairPriority(l, r) < ComputePairPriority(l', r') <==>
      ComputePairPriority(r, l) < ComputePairPriority(r', l'))
      <==> !(SameBase(l, r, l', r') && OppositeTilt(l, r, l', r'))
  {
    BaseAndTieBit(l, r);
    BaseAndTieBit(l', r');
    BaseAndTieBit(r, l);
    BaseAndTieBit(r', l');
    SameBaseIff(l, r, l', r');
    TieBitsDecide(PairBase(l, r), PairBase(l', r'), l, r, l', r');
  }

  /** Below 2^31 that leaves pairs with the same two priorities the other way round. */
  lemma AgentsRankAlikeUnlessMirrored(l: uint32, r: uint32, l': uint32, r': uint32)
    requires l < 0x8000_0000 && r < 0x8000_0000 && l' < 0x8000_0000 && r' < 0x8000_0000
    ensures (ComputePairPriority(l, r) < ComputePairPriority(l', r') <==>
      ComputePairPriority(r, l) < ComputePairPriority(r', l'))
      <==> !(l == r' && r == l' && l != r)
  {
    AgentsRankAlikeIff(l, r, l', r');
  }

  /** With the top bit set, pairs that are not mirror images can be ranked differently too. */
  lemma TopBitCanSplitAgents()
    ensures ComputePairPriority(1, 0x8000_0005) < ComputePairPriority(5, 2)
    ensures !(ComputePairPriority(0x8000_0005, 1) < ComputePairPriority(2, 5))
  {
    PairSum(1, 0x8000_0005);
    PairSum(0x8000_0005, 1);
    PairSum(5, 2);
    PairSum(2, 5);
  }
}
