/**
  The risk score: 8 points per vulnerability counted, 3 more per vulnerability
  that carries severity data, saturating at 100.
  Models `compute_risk_score` of backend/app/scoring.py.
 */
module Scoring {
  import opened JsonValue
  import opened OsvClient
  import opened Sums

  const PointsPerVulnerability: int := 8
  const PointsPerSeverity: int := 3
  const ScoreCap: int := 100

  /** A vulnerability whose severity value is truthy (a non-empty list) earns the extra points. */
  function Severe(v: Vulnerability): int {
    if Truthy(v.severity) then 1 else 0
  }

  function Count(r: PackageResult): int {
    r.vulnCount
  }

  function SevereIn(r: PackageResult): int {
    SumBy(r.vulnerabilities, Severe)
  }

  /** The sum of the results' `vuln_count` fields. */
  function TotalCount(results: seq<PackageResult>): int {
    SumBy(results, Count)
  }

  /** How many of the results' vulnerabilities carry severity data. */
  function TotalSevere(results: seq<PackageResult>): int {
    SumBy(results, SevereIn)
  }

  /** The score in closed form: min(100, 8 * total count + 3 * number of severity-bearing vulnerabilities). */
  function RiskScore(results: seq<PackageResult>): int {
    Min(ScoreCap, PointsPerVulnerability * TotalCount(results) + PointsPerSeverity * TotalSevere(results))
  }

  /** `compute_risk_score`: the accumulating loops, then the clamp. */
  method ComputeRiskScore(results: seq<PackageResult>) returns (score: int)
    ensures score == RiskScore(results)
    ensures score <= ScoreCap
    ensures results == [] ==> score == 0
  {
    score := 0;
    for i := 0 to |results|
      invariant score == 8 * TotalCount(results[..i]) + 3 * TotalSevere(results[..i])
    {
      var r := results[i];
      var vc := r.vulnCount;
      score := score + vc * 8;
      for j := 0 to |r.vulnerabilities|
        invariant score == 8 * TotalCount(results[..i]) + 8 * vc + 3 * TotalSevere(results[..i])
                           + 3 * SumBy(r.vulnerabilities[..j], Severe)
      {
        assert r.vulnerabilities[..j + 1][..j] == r.vulnerabilities[..j];
        if Truthy(r.vulnerabilities[j].severity) {
          score := score + 3;
        }
      }
      assert r.vulnerabilities[..|r.vulnerabilities|] == r.vulnerabilities;
      assert results[..i + 1][..i] == results[..i];
    }
    assert results[..|results|] == results;
    score := Min(100, score);
  }

  /** The score never exceeds 100, and is not negative when no count is. */
  lemma RiskScoreBounds(results: seq<PackageResult>)
    ensures RiskScore(results) <= ScoreCap
    ensures (forall i :: 0 <= i < |results| ==> results[i].vulnCount >= 0) ==> RiskScore(results) >= 0
  {
    if forall i :: 0 <= i < |results| ==> results[i].vulnCount >= 0 {
      SumByNonNegative(results, Count);
      forall i | 0 <= i < |results| ensures SevereIn(results[i]) >= 0 {
        SumByNonNegative(results[i].vulnerabilities, Severe);
      }
      SumByNonNegative(results, SevereIn);
    }
  }

  /** Reordering the results does not change the score. */
  lemma RiskScoreOrderIndependent(a: seq<PackageResult>, b: seq<PackageResult>)
    requires multiset(a) == multiset(b)
    ensures RiskScore(a) == RiskScore(b)
  {
    SumByPermutation(a, b, Count);
    SumByPermutation(a, b, SevereIn);
  }

  /** Reordering the vulnerabilities within one result does not change the score. */
  lemma RiskScoreVulnerabilityOrderIndependent(results: seq<PackageResult>, k: nat, reordered: seq<Vulnerability>)
    requires k < |results|
    requires multiset(reordered) == multiset(results[k].vulnerabilities)
    ensures RiskScore(results[k := results[k].(vulnerabilities := reordered)]) == RiskScore(results)
  {
    var r' := results[k].(vulnerabilities := reordered);
    SumByPermutation(reordered, results[k].vulnerabilities, Severe);
    SumByUpdate(results, k, r', Count);
    SumByUpdate(results, k, r', SevereIn);
  }

  /** Appending a result whose count is not negative never lowers the score. */
  lemma RiskScoreMonotoneInResults(results: seq<PackageResult>, r: PackageResult)
    requires r.vulnCount >= 0
    ensures RiskScore(results) <= RiskScore(results + [r])
  {
    SumByAppend(results, [r], Count);
    SumByAppend(results, [r], SevereIn);
    assert SumBy([r], Count) == r.vulnCount;
    assert [r][..0] == [];
    SumByNonNegative(r.vulnerabilities, Severe);
  }

  /** Appending a vulnerability to one result never lowers the score. */
  lemma RiskScoreMonotoneInVulnerabilities(results: seq<PackageResult>, k: nat, v: Vulnerability)
    requires k < |results|
    ensures var r := results[k];
            RiskScore(results) <= RiskScore(results[k := r.(vulnerabilities := r.vulnerabilities + [v])])
  {
    var r := results[k];
    var r' := r.(vulnerabilities := r.vulnerabilities + [v]);
    SumByAppend(r.vulnerabilities, [v], Severe);
    assert [v][..0] == [];
    SumByUpdate(results, k, r', Count);
    SumByUpdate(results, k, r', SevereIn);
  }
}
