/** Path scoring and ranking, desktop/internal/scheduler/policy.go, over the reals. */
module PathPolicy {
  import opened Prelude

  datatype PathState = Available | Degraded | Unavailable

  /** Round-trip time in whole milliseconds, loss rate, and estimated bandwidth in bits per second. */
  datatype Metrics = Metrics(rttMs: nat, lossRate: real, bandwidth: int)

  class Path {
    const id: string
    const pathType: int
    var state: PathState
    var metrics: Metrics
    var manualLock: bool
    var createdAt: int

    constructor (id: string, pathType: int, state: PathState, metrics: Metrics)
      ensures this.id == id && this.pathType == pathType && this.state == state && this.metrics == metrics
        && !manualLock
    {
      this.id, this.pathType, this.state, this.metrics, manualLock, createdAt := id, pathType, state, metrics, false, 0;
    }
  }

  datatype PathScore = PathScore(pathID: string, pathType: int, score: real, priority: int, metrics: Metrics)

  /** Direct UDP, direct QUIC, direct TCP, nearby relay, global relay; an unknown type has no bonus. */
  function PriorityBonus(pathType: int): real {
    match pathType
    case 0 => 1.0
    case 1 => 0.8
    case 2 => 0.6
    case 3 => 0.4
    case 4 => 0.2
    case _ => 0.0
  }

  function RttScore(rttMs: nat): real {
    1.0 / (1.0 + rttMs as real / 100.0)
  }

  function BandwidthScore(bandwidth: int): real {
    if bandwidth > 0 then bandwidth as real / (bandwidth as real + 1000000.0) else 0.5
  }

  /** Each ingredient contributes its weight times its own score, so the weights say what each is worth. */
  function RawScore(pathType: int, m: Metrics): real {
    0.30 * PriorityBonus(pathType) + 0.30 * RttScore(m.rttMs) + 0.25 * (1.0 - m.lossRate)
    + 0.15 * BandwidthScore(m.bandwidth)
  }

  /** Rounds to the nearest integer, halves away from zero. */
  function Round(x: real): int {
    if x < 0.0 then -((-x + 0.5).Floor) else (x + 0.5).Floor
  }

  function RoundToFourPlaces(x: real): real {
    Round(x * 10000.0) as real / 10000.0
  }

  function ScorePath(p: Path): PathScore
    reads p
  {
    PathScore(p.id, p.pathType, RoundToFourPlaces(RawScore(p.pathType, p.metrics)), p.pathType + 1, p.metrics)
  }

  lemma DivideMonotone(x: int, y: int)
    requires x <= y
    ensures x as real / 10000.0 <= y as real / 10000.0
  {
  }

  lemma RoundMonotone(x: real, y: real)
    requires x <= y
    ensures Round(x) <= Round(y)
  {
  }

  lemma RoundingKeepsOrder(x: real, y: real)
    requires x <= y
    ensures RoundToFourPlaces(x) <= RoundToFourPlaces(y)
  {
    RoundMonotone(x * 10000.0, y * 10000.0);
    DivideMonotone(Round(x * 10000.0), Round(y * 10000.0));
  }

  /** a / b <= c / d when a * d <= c * b. */
  lemma QuotientOrder(a: real, b: real, c: real, d: real)
    requires b > 0.0 && d > 0.0
    ensures a / b <= c / d <==> a * d <= c * b
  {
    var x, y := a / b, c / d;
    assert a == x * b && c == y * d;
    assert a * d == x * (b * d) && c * b == y * (b * d);
    var m := b * d;
    assert m > 0.0;
    if x <= y {
      assert (y - x) * m >= 0.0;
    } else {
      assert (x - y) * m > 0.0;
    }
  }

  lemma RttScoreAntitone(a: nat, b: nat)
    requires a <= b
    ensures RttScore(b) <= RttScore(a)
  {
    var da, db := 1.0 + a as real / 100.0, 1.0 + b as real / 100.0;
    assert da <= db;
    QuotientOrder(1.0, db, 1.0, da);
  }

  /** More bandwidth scores no less, except that an unmeasured bandwidth, not above 0, counts like 1 Mbit/s. */
  lemma BandwidthScoreMonotoneIff(a: int, b: int)
    requires a <= b
    ensures BandwidthScore(a) <= BandwidthScore(b) <==> a > 0 || b <= 0 || b >= 1000000
  {
    var x, y := a as real, b as real;
    if a > 0 {
      QuotientOrder(x, x + 1000000.0, y, y + 1000000.0);
      assert x * (y + 1000000.0) == x * y + 1000000.0 * x;
      assert y * (x + 1000000.0) == x * y + 1000000.0 * y;
    } else if b > 0 {
      QuotientOrder(1.0, 2.0, y, y + 1000000.0);
    }
  }

  /** q is no worse than p in type, round-trip time and loss, and its bandwidth is no lower and really measured. */
  predicate NoWorse(typeP: int, p: Metrics, typeQ: int, q: Metrics) {
    && 0 <= typeQ <= typeP
    && q.rttMs <= p.rttMs
    && q.lossRate <= p.lossRate
    && p.bandwidth <= q.bandwidth
    && (p.bandwidth > 0 || q.bandwidth <= 0 || q.bandwidth >= 1000000)
  }

  /** A path that is no worse never scores lower, even after rounding. */
  lemma ScoreIsMonotone(typeP: int, p: Metrics, typeQ: int, q: Metrics)
    requires NoWorse(typeP, p, typeQ, q)
    ensures RoundToFourPlaces(RawScore(typeP, p)) <= RoundToFourPlaces(RawScore(typeQ, q))
  {
    RttScoreAntitone(q.rttMs, p.rttMs);
    BandwidthScoreMonotoneIff(p.bandwidth, q.bandwidth);
    assert PriorityBonus(typeP) <= PriorityBonus(typeQ);
    RoundingKeepsOrder(RawScore(typeP, p), RawScore(typeQ, q));
  }

  /** Scores a whole step of the rounding apart stay apart. */
  lemma RoundingSeparates(x: real, y: real)
    requires x + 0.0001 <= y
    ensures RoundToFourPlaces(x) < RoundToFourPlaces(y)
  {
    RoundMonotone(x * 10000.0 + 1.0, y * 10000.0);
    assert Round(x * 10000.0) < Round(y * 10000.0);
  }

  /** With everything else equal, whatever it is, measuring 1 bit/s lowers the rounded score of an unmeasured path. */
  lemma MeasuringCanLowerScore(t: int, m: Metrics)
    ensures RoundToFourPlaces(RawScore(t, m.(bandwidth := 1))) < RoundToFourPlaces(RawScore(t, m.(bandwidth := 0)))
  {
    QuotientOrder(1.0, 1000001.0, 0.1, 1.0);
    RoundingSeparates(RawScore(t, m.(bandwidth := 1)), RawScore(t, m.(bandwidth := 0)));
  }

  lemma ScoreIsInUnitInterval(pathType: int, m: Metrics)
    requires 0.0 <= m.lossRate <= 1.0
    ensures 0.0 <= RawScore(pathType, m) <= 1.0
    ensures 0.0 <= RoundToFourPlaces(RawScore(pathType, m)) <= 1.0
  {
    var d := 1.0 + m.rttMs as real / 100.0;
    QuotientOrder(1.0, d, 1.0, 1.0);
    QuotientOrder(0.0, 1.0, 1.0, d);
    if m.bandwidth > 0 {
      var b := m.bandwidth as real;
      QuotientOrder(b, b + 1000000.0, 1.0, 1.0);
      QuotientOrder(0.0, 1.0, b, b + 1000000.0);
    }
    RoundingKeepsOrder(0.0, RawScore(pathType, m));
    RoundingKeepsOrder(RawScore(pathType, m), 1.0);
    assert RoundToFourPlaces(1.0) == 1.0;
  }

  /** The score in closed form, for the five path types: an independent way to write the weighted sum. */
  lemma ScoreInClosedForm(pathType: int, m: Metrics)
    requires 0 <= pathType <= 4
    ensures RawScore(pathType, m) == 0.06 * (5 - pathType) as real + 30.0 / (100.0 + m.rttMs as real)
      + 0.25 - 0.25 * m.lossRate
      + if m.bandwidth <= 0 then 0.075 else 0.15 - 150000.0 / (m.bandwidth as real + 1000000.0)
  {
    var d := m.rttMs as real;
    QuotientsEqual(1.0, 1.0 + d / 100.0, 100.0, 100.0 + d);
    if m.bandwidth > 0 {
      var b := m.bandwidth as real;
      QuotientsEqual(b, b + 1000000.0, b + 1000000.0 - 1000000.0, b + 1000000.0);
      var x := 1.0 / (b + 1000000.0);
      assert 1000000.0 / (b + 1000000.0) == 1000000.0 * x && 150000.0 / (b + 1000000.0) == 150000.0 * x;
      assert (b + 1000000.0) / (b + 1000000.0) == 1.0;
      assert b / (b + 1000000.0) == 1.0 - 1000000.0 / (b + 1000000.0);
    }
  }

  lemma QuotientsEqual(a: real, b: real, c: real, d: real)
    requires b > 0.0 && d > 0.0 && a * d == c * b
    ensures a / b == c / d
  {
    QuotientOrder(a, b, c, d);
    QuotientOrder(c, d, a, b);
  }

  /** Any other type scores like a path without a type bonus. */
  lemma UnknownTypeHasNoBonus(pathType: int, m: Metrics)
    requires pathType < 0 || pathType > 4
    ensures RawScore(pathType, m) == RawScore(4, m) - 0.06
  {
  }

  /** Rounding to four places moves a score by at most half a unit of the last place, and leaves such numbers alone. */
  lemma RoundsToNearest(x: real, n: int)
    ensures -0.00005 <= RoundToFourPlaces(x) - x <= 0.00005
    ensures RoundToFourPlaces(n as real / 10000.0) == n as real / 10000.0
  {
    var y := x * 10000.0;
    assert -0.5 <= Round(y) as real - y <= 0.5;
    assert Round(n as real) == n;
  }

  /** Higher score first, then lower priority number. */
  predicate AtLeastAsGood(a: PathScore, b: PathScore) {
    a.score > b.score || (a.score == b.score && a.priority <= b.priority)
  }

  ghost predicate Ranked(scores: seq<PathScore>) {
    forall i, j :: 0 <= i < j < |scores| ==> AtLeastAsGood(scores[i], scores[j])
  }

  /** The scores of the paths that are not unavailable, in their order. */
  ghost function UsableScores(paths: seq<Path>): seq<PathScore>
    reads paths
  {
    if paths == [] then []
    else
      var last := paths[|paths| - 1];
      UsableScores(paths[..|paths| - 1]) + if last.state != Unavailable then [ScorePath(last)] else []
  }

  /** The usable paths ranked; paths equal in both criteria may come in any order. */
  method RankPaths(paths: seq<Path>) returns (scores: seq<PathScore>)
    ensures multiset(scores) == multiset(UsableScores(paths))
    ensures Ranked(scores)
  {
    scores := [];
    for n := 0 to |paths|
      invariant scores == UsableScores(paths[..n])
    {
      assert paths[..n + 1][..n] == paths[..n];
      if paths[n].state != Unavailable {
        scores := scores + [ScorePath(paths[n])];
      }
    }
    assert paths[..|paths|] == paths;
    scores := SortScores(scores);
  }

  /** The library sort, of which only order and permutation are known. */
  method SortScores(scores: seq<PathScore>) returns (r: seq<PathScore>)
    ensures multiset(r) == multiset(scores)
    ensures Ranked(r)
  {
    r := [];
    for n := 0 to |scores|
      invariant multiset(r) == multiset(scores[..n])
      invariant Ranked(r)
    {
      assert scores[..n + 1] == scores[..n] + [scores[n]];
      r := InsertRanked(r, scores[n]);
    }
    assert scores[..|scores|] == scores;
  }

  method InsertRanked(scores: seq<PathScore>, s: PathScore) returns (r: seq<PathScore>)
    requires Ranked(scores)
    ensures multiset(r) == multiset(scores) + multiset{s}
    ensures Ranked(r)
  {
    var k := 0;
    while k < |scores| && AtLeastAsGood(scores[k], s)
      invariant 0 <= k <= |scores|
      invariant forall i :: 0 <= i < k ==> AtLeastAsGood(scores[i], s)
    {
      k := k + 1;
    }
    InsertKeepsRanked(scores, k, s);
    assert scores == scores[..k] + scores[k..];
    return scores[..k] + [s] + scores[k..];
  }

  lemma InsertKeepsRanked(scores: seq<PathScore>, k: nat, s: PathScore)
    requires Ranked(scores) && k <= |scores|
    requires forall i :: 0 <= i < k ==> AtLeastAsGood(scores[i], s)
    requires k < |scores| ==> !AtLeastAsGood(scores[k], s)
    ensures Ranked(scores[..k] + [s] + scores[k..])
  {
    var r := scores[..k] + [s] + scores[k..];
    forall i, j | 0 <= i < j < |r|
      ensures AtLeastAsGood(r[i], r[j])
    {
      assert r[i] == if i < k then scores[i] else if i == k then s else scores[i - 1];
      assert r[j] == if j < k then scores[j] else if j == k then s else scores[j - 1];
    }
  }

  function SelectBestPath(scores: seq<PathScore>): Option<PathScore> {
    if scores == [] then None else Some(scores[0])
  }

  ghost predicate IsUsableScore(s: PathScore, paths: seq<Path>)
    reads paths
  {
    exists p :: p in paths && p.state != Unavailable && s == ScorePath(p)
  }

  lemma {:induction false} UsableScoresAre(paths: seq<Path>, s: PathScore)
    ensures s in UsableScores(paths) <==> IsUsableScore(s, paths)
  {
    if paths != [] {
      var n := |paths| - 1;
      UsableScoresAre(paths[..n], s);
      assert paths == paths[..n] + [paths[n]];
    }
  }

  /** The head of the ranking belongs to a usable path that is at least as good as every usable path; there is
      none only when no path is usable. */
  lemma BestIsMaximal(paths: seq<Path>, scores: seq<PathScore>)
    requires multiset(scores) == multiset(UsableScores(paths)) && Ranked(scores)
    ensures SelectBestPath(scores) == None <==> forall p :: p in paths ==> p.state == Unavailable
    ensures SelectBestPath(scores).Some? ==>
      && IsUsableScore(SelectBestPath(scores).value, paths)
      && forall p :: p in paths && p.state != Unavailable ==>
        var best, other := SelectBestPath(scores).value, ScorePath(p);
        best.score > other.score || (best.score == other.score && best.priority <= other.priority)
  {
    forall s
      ensures s in scores <==> IsUsableScore(s, paths)
    {
      UsableScoresAre(paths, s);
      assert s in scores <==> s in multiset(scores);
      assert s in UsableScores(paths) <==> s in multiset(UsableScores(paths));
    }
    forall p | p in paths && p.state != Unavailable
      ensures scores != [] && AtLeastAsGood(scores[0], ScorePath(p))
    {
      assert IsUsableScore(ScorePath(p), paths);
      var k :| 0 <= k < |scores| && scores[k] == ScorePath(p);
    }
    if scores != [] {
      assert scores[0] in scores;
    }
  }
}
