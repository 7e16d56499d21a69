/**
 * The records the residual-risk engine reads: products, policies (residual risk settings),
 * findings and the tests that hold them.
 */
module Domain {
  import opened Wrappers

  /**
   * Business criticality of a product. `Unset` is an empty or missing value, which is not the
   * same as the explicit choice `NoneCriticality`. The stored value in the application is a
   * string; a string outside the six choices would leave the score unbound and make the
   * weighted formula fail, and the enumeration rules that case out.
   */
  datatype Criticality = Unset | NoneCriticality | VeryLow | Low | Medium | High | VeryHigh

  /** The six set criticalities in the product's order of choices, least critical first. */
  const CriticalityLevels: seq<Criticality> := [NoneCriticality, VeryLow, Low, Medium, High, VeryHigh]

  /** The two product attributes the scorer reads. */
  datatype Product = Product(businessCriticality: Criticality, internetAccessible: bool)

  /**
   * Residual risk settings. The three weights are meant to add up to 100, but nothing checks
   * that; `tolerance` is the score from which a finding is untolerable.
   */
  datatype Policy = Policy(
    businessCriticalityWeight: real,
    networkReachabilityWeight: real,
    cveWeight: real,
    tolerance: real)

  /** A finding with the attributes the scorer and the eligibility filter read. */
  datatype Finding = Finding(
    id: nat,
    severity: string,
    cvssv3Score: Option<real>,
    active: bool,
    isMitigated: bool,
    riskAccepted: bool,
    outOfScope: bool,
    falsePositive: bool)

  /** A test of an engagement and its findings, in the order the store returns them. */
  datatype Test = Test(findings: seq<Finding>)
}
