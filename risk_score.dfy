/**
 * The residual-risk scorer: one number per finding from the product's business criticality,
 * its internet exposure and the finding's CVSS score or severity.
 *
 * Scores and weights are exact `real`s. The application computes in binary floating point;
 * its rounding is not modelled, and it can only matter where a score meets the tolerance
 * at the `>=` comparison.
 */
module RiskScore {
  import opened Wrappers
  import opened Domain

  /** Business criticality on a 0..5 scale: the position of the level, with unset read as medium. */
  function BusinessCriticalityScore(c: Criticality): (s: nat)
    ensures s < |CriticalityLevels|
    ensures CriticalityLevels[s] == if c == Unset then Medium else c
  {
    match c
    case Unset => 3
    case NoneCriticality => 0
    case VeryLow => 1
    case Low => 2
    case Medium => 3
    case High => 4
    case VeryHigh => 5
  }

  /** 1 for a product reachable from the internet, 0 otherwise. */
  function NetworkReachabilityScore(internetAccessible: bool): nat
  {
    if internetAccessible then 1 else 0
  }

  /** The recognised severities, least severe first. */
  const SeverityOrder: seq<string> := ["Informational", "Low", "Medium", "High", "Critical"]

  /**
   * The fixed fallback score per severity, which the code calls the worst possible score for
   * that severity; an unrecognised severity scores 5.0.
   */
  function SeverityFallbackScore(severity: string): (s: real)
    ensures 1.9 <= s <= 10.0
    ensures severity !in SeverityOrder ==> s == 5.0
  {
    if severity == "Critical" then 10.0
    else if severity == "High" then 7.9
    else if severity == "Medium" then 5.9
    else if severity == "Low" then 3.9
    else if severity == "Informational" then 1.9
    else 5.0
  }

  /**
   * The vulnerability part of the score. A stored CVSSv3 score counts only when it is present
   * and non-zero (a zero score is falsy and falls through to the severity).
   */
  function CveScore(severity: string, cvssv3Score: Option<real>): (s: real)
    ensures cvssv3Score.Some? && cvssv3Score.value != 0.0 ==> s == cvssv3Score.value
    ensures s != 0.0
    ensures (cvssv3Score.Some? ==> 0.0 <= cvssv3Score.value <= 10.0) ==> 0.0 < s <= 10.0
  {
    if cvssv3Score.Some? && cvssv3Score.value != 0.0 then cvssv3Score.value
    else SeverityFallbackScore(severity)
  }

  /** One weighted part of the formula: a sub-score on the 0..10 scale times its weight, over 100. */
  function WeightedPart(subScore: real, weight: real): real
  {
    (subScore * weight) / 100.0
  }

  /**
   * The residual risk score of a finding under a policy. The criticality and reachability parts
   * are scaled by 2 and 10 onto the 0..10 range of the CVE part before weighting.
   */
  function ResidualRiskScore(policy: Policy, f: Finding, product: Product): real
  {
    var bcs := BusinessCriticalityScore(product.businessCriticality) as real;
    var nrs := NetworkReachabilityScore(product.internetAccessible) as real;
    var cve := CveScore(f.severity, f.cvssv3Score);
    WeightedPart(bcs * 2.0, policy.businessCriticalityWeight)
      + WeightedPart(nrs * 10.0, policy.networkReachabilityWeight)
      + WeightedPart(cve, policy.cveWeight)
  }

  /** An unset criticality scores as medium, while the explicit choice "none" scores 0. */
  lemma UnsetIsMediumNotNone()
    ensures BusinessCriticalityScore(Unset) == BusinessCriticalityScore(Medium) == 3
    ensures BusinessCriticalityScore(NoneCriticality) == 0
    ensures BusinessCriticalityScore(VeryHigh) == 5
  {
  }

  /** The criticality score grows strictly along the order of the levels. */
  lemma CriticalityScoreIncreasing(i: nat, j: nat)
    requires i < j < |CriticalityLevels|
    ensures BusinessCriticalityScore(CriticalityLevels[i]) < BusinessCriticalityScore(CriticalityLevels[j])
  {
  }

  /** Without a CVSS score, a more severe finding gets a strictly higher fallback score. */
  lemma SeverityFallbackIncreasing(i: nat, j: nat)
    requires i < j < |SeverityOrder|
    ensures SeverityFallbackScore(SeverityOrder[i]) < SeverityFallbackScore(SeverityOrder[j])
  {
  }

  /** An unrecognised severity sits strictly between "Low" and "Medium". */
  lemma UnknownSeverityBetweenLowAndMedium(severity: string)
    requires severity !in SeverityOrder
    ensures SeverityFallbackScore("Low") < SeverityFallbackScore(severity) < SeverityFallbackScore("Medium")
  {
  }

  /**
   * A missing or zero CVSS score falls through to the severity table: Critical 10,
   * High 7.9, Medium 5.9, Low 3.9, Informational 1.9 and 5.0 for any other severity.
   */
  lemma NoUsableCvssUsesSeverityTable(severity: string, cvssv3Score: Option<real>)
    requires cvssv3Score.None? || cvssv3Score.value == 0.0
    ensures CveScore(severity, cvssv3Score) == CveScore(severity, None)
    ensures CveScore("Critical", None) == 10.0 && CveScore("High", None) == 7.9
    ensures CveScore("Medium", None) == 5.9 && CveScore("Low", None) == 3.9
    ensures CveScore("Informational", None) == 1.9
    ensures severity !in SeverityOrder ==> CveScore(severity, cvssv3Score) == 5.0
  {
  }

  /** A present non-zero CVSS score makes the severity irrelevant to the score. */
  lemma CvssOverridesSeverity(policy: Policy, f: Finding, g: Finding, product: Product)
    requires f.cvssv3Score == g.cvssv3Score
    requires f.cvssv3Score.Some? && f.cvssv3Score.value != 0.0
    ensures ResidualRiskScore(policy, f, product) == ResidualRiskScore(policy, g, product)
  {
  }

  lemma ProductNonNegative(x: real, w: real)
    requires 0.0 <= x && 0.0 <= w
    ensures 0.0 <= x * w
  {
  }

  /** A sub-score in [0, 10] with a non-negative weight contributes between 0 and a tenth of the weight. */
  lemma WeightedPartInRange(subScore: real, weight: real)
    requires 0.0 <= subScore <= 10.0 && 0.0 <= weight
    ensures 0.0 <= WeightedPart(subScore, weight) <= weight / 10.0
  {
    ProductNonNegative(subScore, weight);
    ProductNonNegative(10.0 - subScore, weight);
    assert (10.0 - subScore) * weight == 10.0 * weight - subScore * weight;
  }

  /**
   * With non-negative weights that add up to 100 and a CVSS score in [0, 10] (or none), the
   * score lies in [0, 10].
   */
  lemma ScoreInRange(policy: Policy, f: Finding, product: Product)
    requires 0.0 <= policy.businessCriticalityWeight
    requires 0.0 <= policy.networkReachabilityWeight
    requires 0.0 <= policy.cveWeight
    requires policy.businessCriticalityWeight + policy.networkReachabilityWeight + policy.cveWeight == 100.0
    requires f.cvssv3Score.Some? ==> 0.0 <= f.cvssv3Score.value <= 10.0
    ensures 0.0 <= ResidualRiskScore(policy, f, product) <= 10.0
  {
    WeightedPartInRange(
      BusinessCriticalityScore(product.businessCriticality) as real * 2.0, policy.businessCriticalityWeight);
    WeightedPartInRange(
      NetworkReachabilityScore(product.internetAccessible) as real * 10.0, policy.networkReachabilityWeight);
    WeightedPartInRange(CveScore(f.severity, f.cvssv3Score), policy.cveWeight);
  }

  /** Exposure to the internet adds exactly a tenth of the reachability weight. */
  lemma ReachabilityContribution(policy: Policy, f: Finding, c: Criticality)
    ensures ResidualRiskScore(policy, f, Product(c, true))
         == ResidualRiskScore(policy, f, Product(c, false)) + policy.networkReachabilityWeight / 10.0
  {
  }

  /** Each criticality step adds a fiftieth of the business-criticality weight. */
  lemma CriticalityContribution(policy: Policy, f: Finding, c1: Criticality, c2: Criticality, exposed: bool)
    ensures ResidualRiskScore(policy, f, Product(c2, exposed)) - ResidualRiskScore(policy, f, Product(c1, exposed))
         == (BusinessCriticalityScore(c2) as real - BusinessCriticalityScore(c1) as real)
            * policy.businessCriticalityWeight / 50.0
  {
  }

  /**
   * Weights 40/20/40, unset criticality, internet exposure and CVSS 7.5 give
   * 2.4 + 2.0 + 3.0 = 7.4.
   */
  lemma WorkedExample(severity: string, tolerance: real)
    ensures ResidualRiskScore(
              Policy(40.0, 20.0, 40.0, tolerance),
              Finding(1, severity, Some(7.5), true, false, false, false, false),
              Product(Unset, true)) == 7.4
  {
  }
}
