# Residual-risk scoring and engagement validation

A Dafny model of the engagement services of DefectDojo (`dojo/engagement/services.py`):

- **Scorer** (`RiskScore`): the residual risk score of a finding, from the product's business
  criticality (0..5, unset read as medium, explicit "none" as 0), its internet exposure (0/1) and
  the finding's CVSSv3 score, or, when that is missing or zero, a fixed fallback score for its
  severity, which the code calls the worst possible score (Critical 10, High 7.9, Medium 5.9, Low 3.9, Informational 1.9, anything else 5.0),
  combined by the weighted formula `bcs*2*wb/100 + nrs*10*wn/100 + cve*wc/100`.
- **Validator** (`EngagementValidation.Validate`): collects the eligible findings of an
  engagement's tests (active, not mitigated, not risk-accepted, in scope, not false positive),
  classifies each one under the default residual risk settings (score at or above the tolerance
  is untolerable) or, without settings, by severity (Critical and High are untolerable), and
  returns the verdict `valid = no untolerable finding` with the two lists, plus the residual
  risk level written back onto each scored finding, as a map from finding id to score.
- **Lifecycle** (`EngagementLifecycle.Engagement`): closing sets an engagement inactive and
  "Completed"; reopening sets it active and "In Progress".

Files: `wrappers.dfy` (Option), `domain.dfy` (products, policies, findings, tests),
`risk_score.dfy`, `validation.dfy`, `lifecycle.dfy`.

Scores and weights are exact `real`s; the application's binary floating point is not modelled
(it can only matter when a score meets the tolerance exactly).

Modelling choices taken from the code:

- The eligible findings are a list, the concatenation over the tests in order, not an
  unordered set.
- Every eligible finding is scored against the product of its test's engagement, which is the
  validated engagement's product, so `Validate` takes one `Product`.
- Without settings the untolerable list is computed as "eligible minus tolerable" on findings
  compared by id, as the code does; `NoPolicyDifferenceIsSevere` proves it is the Critical/High
  filter when ids are distinct.
- A stored CVSS score is used whenever it is non-zero, negative values included, since the code
  tests the value's truthiness.

## Model

| member | source | states |
|---|---|---|
| RiskScore.BusinessCriticalityScore | dojo/engagement/services.py:36-52 | the score is the position of the criticality in the ordered levels none..very high (so 0..5), an unset value scoring as medium |
| RiskScore.UnsetIsMediumNotNone | dojo/engagement/services.py:37-52 | unset scores 3 like medium, explicit none scores 0, very high 5 |
| RiskScore.CriticalityScoreIncreasing | dojo/engagement/services.py:38-49 | the criticality score is strictly increasing along the ordered levels |
| RiskScore.SeverityFallbackScore | dojo/engagement/services.py:58-71 | the fallback lies in [1.9, 10] and is 5.0 for any unrecognised severity |
| RiskScore.SeverityFallbackIncreasing | dojo/engagement/services.py:59-68 | a more severe recognised severity gets a strictly higher fallback score |
| RiskScore.UnknownSeverityBetweenLowAndMedium | dojo/engagement/services.py:69-71 | an unrecognised severity scores strictly between Low and Medium |
| RiskScore.CveScore | dojo/engagement/services.py:55-71 | a present non-zero CVSSv3 score is used unchanged; the CVE part is never 0 (a zero score is never used), and with a CVSS score in [0, 10] or none it lies in (0, 10] |
| RiskScore.NoUsableCvssUsesSeverityTable | dojo/engagement/services.py:56-71 | a missing or zero CVSS score gives the severity's table value: Critical 10, High 7.9, Medium 5.9, Low 3.9, Informational 1.9, any other severity 5.0 |
| RiskScore.CvssOverridesSeverity | dojo/engagement/services.py:56-57 | two findings with the same non-zero CVSS score get the same score whatever their severities |
| RiskScore.NetworkReachabilityScore | dojo/engagement/services.py:54 | no contract of its own: 1 when internet accessible, else 0; pinned down by `ReachabilityContribution` together with `WorkedExample` and `ScoreInRange` |
| RiskScore.ResidualRiskScore | dojo/engagement/services.py:33-92 | no contract of its own: the weighted formula of line 81; characterised by `ScoreInRange`, `ReachabilityContribution`, `CriticalityContribution`, `CvssOverridesSeverity` and `WorkedExample` |
| RiskScore.WeightedPartInRange | dojo/engagement/services.py:79-81 | one weighted part of the formula, for a sub-score in [0, 10] and a non-negative weight, lies between 0 and a tenth of the weight |
| RiskScore.ScoreInRange | dojo/engagement/services.py:74-81 | with non-negative weights summing to 100 and CVSS in [0, 10] or none, the final score is in [0, 10] |
| RiskScore.ReachabilityContribution | dojo/engagement/services.py:54-81 | internet exposure raises the score by exactly the reachability weight divided by 10 |
| RiskScore.CriticalityContribution | dojo/engagement/services.py:36-81 | the score difference between two criticalities is their score difference times the business weight divided by 50 |
| RiskScore.WorkedExample | dojo/engagement/services.py:74-81 | weights 40/20/40, unset criticality, internet exposed, CVSS 7.5 give exactly 7.4 |
| EngagementValidation.Eligible | dojo/engagement/services.py:97 | no contract of its own: the five-flag filter; used by `EligibleOf` and `EligibleFindingsMembers` |
| EngagementValidation.EligibleOf | dojo/engagement/services.py:97 | a finding of a test is kept iff it is in the test and eligible (all five flags), each eligible finding as many times as it occurs in the test |
| EngagementValidation.EligibleFindings | dojo/engagement/services.py:94-97 | no contract of its own: the concatenation over the tests in order; characterised by `EligibleFindingsMembers` and computed by `CollectEligible` |
| EngagementValidation.EligibleFindingsMembers | dojo/engagement/services.py:94-97 | a finding is collected iff it is eligible and belongs to one of the engagement's tests |
| EngagementValidation.EligibleOfOrdered | dojo/engagement/services.py:96-97 | each test's eligible findings keep the test's order |
| EngagementValidation.IsSevere | dojo/engagement/services.py:116 | no contract of its own: severity "Critical" or "High"; used by `NoPolicyBySeverity` |
| EngagementValidation.Untolerable | dojo/engagement/services.py:108-117 | no contract of its own: score at or above the tolerance under a policy, `IsSevere` without one; characterised by `VerdictClassifies` and `ToleranceIsInclusive` |
| EngagementValidation.TolerableOf | dojo/engagement/services.py:108-116 | a finding is tolerable iff it is in the input and the rule does not mark it untolerable |
| EngagementValidation.UntolerableOf | dojo/engagement/services.py:108-114 | a finding is untolerable iff it is in the input and the rule marks it untolerable |
| EngagementValidation.WithoutIds | dojo/engagement/services.py:117 | a finding survives the difference iff it is in the input and its id is not among the removed ids |
| EngagementValidation.RiskLevels | dojo/engagement/services.py:90-91 | no contract of its own: the write-back of each score by finding id, later writes winning; characterised by `RiskLevelsKeys`, `RiskLevelsRecordScores` and `NoPolicyWritesNoLevels` |
| EngagementValidation.Verdict | dojo/engagement/services.py:105-123 | no contract of its own: the two lists and `valid`; characterised by `VerdictPartitions`, `VerdictClassifies`, `ValidIffNoneUntolerable`, `EmptyIsValid` and `NoPolicyVerdict` |
| EngagementValidation.CollectEligible | dojo/engagement/services.py:94-97 | the loop over the tests builds exactly the concatenation of each test's eligible findings |
| EngagementValidation.ClassifyByScore | dojo/engagement/services.py:108-114 | the loop over the findings builds exactly the tolerable list, the untolerable list and the score of every written-back level |
| EngagementValidation.Validate | dojo/engagement/services.py:93-123 | the loops compute exactly the verdict on the eligible findings of the tests and the score map of the write-backs |
| EngagementValidation.ClassificationSplits | dojo/engagement/services.py:108-114 | tolerable and untolerable together are the input as a multiset |
| EngagementValidation.ClassificationOrdered | dojo/engagement/services.py:109-114 | both classes keep the relative order of the eligible findings |
| EngagementValidation.WithoutIdsIsSevereFilter | dojo/engagement/services.py:116-117 | removing exactly the ids of non-severe findings leaves exactly the severe ones |
| EngagementValidation.NoPolicyDifferenceIsSevere | dojo/engagement/services.py:115-117 | with distinct ids, eligible minus tolerable is exactly the Critical/High findings |
| EngagementValidation.NoPolicyVerdict | dojo/engagement/services.py:115-117 | without settings the verdict's lists are the severity split |
| EngagementValidation.VerdictPartitions | dojo/engagement/services.py:105-123 | every eligible finding is in exactly one list, nothing else is, counts add up, and both lists keep eligible order |
| EngagementValidation.VerdictClassifies | dojo/engagement/services.py:108-117 | an eligible finding is untolerable iff the rule marks it, tolerable iff not |
| EngagementValidation.ToleranceIsInclusive | dojo/engagement/services.py:111-112 | a score exactly equal to the tolerance is untolerable and never tolerable |
| EngagementValidation.NoPolicyBySeverity | dojo/engagement/services.py:115-117 | without settings a finding is untolerable iff its severity is Critical or High, whatever its CVSS |
| EngagementValidation.ValidIffNoneUntolerable | dojo/engagement/services.py:119-121 | valid iff the untolerable list is empty iff no eligible finding is untolerable |
| EngagementValidation.EmptyIsValid | dojo/engagement/services.py:105-121 | no eligible findings give valid with both lists empty, with or without settings |
| EngagementValidation.RiskLevelsKeys | dojo/engagement/services.py:90-91 | under settings, exactly the ids of the eligible findings get a residual risk level |
| EngagementValidation.RiskLevelsRecordScores | dojo/engagement/services.py:90-91 | under settings and with distinct ids, each eligible finding's level is its own score |
| EngagementValidation.NoPolicyWritesNoLevels | dojo/engagement/services.py:115-117 | without settings no residual risk level is written |
| EngagementLifecycle.Engagement.Close | dojo/engagement/services.py:12-15 | afterwards inactive and "Completed"; only `active` and `status` may change |
| EngagementLifecycle.Engagement.Reopen | dojo/engagement/services.py:21-24 | afterwards active and "In Progress"; only `active` and `status` may change |

## Left out

- Database access (the test and finding queries, the settings lookup, creating the validation
  record, the many-to-many writes, `save()` calls) becomes inputs and returned values.
- Choosing the "first" of several default settings is a database ordering detail; the settings
  are an optional input.
- Closing the linked Jira epic when an engagement is closed: a call into the Jira integration,
  which is not part of this model.
- The pre-save hook that names an unnamed engagement after its start date: signal plumbing
  whose value depends on the date's string form.
- Debug output and the unused commit hash.
- Binary floating-point rounding: all arithmetic is exact.
- A business criticality string outside the six choices, on which the code fails with an
  unbound variable: the enumeration of criticalities excludes it.
- The order of the untolerable list without settings: the code builds it from a Python set, so
  its order is arbitrary; the model keeps the eligible order.
- Failures of the store propagate to the caller in the code; the model has no store.
- NoPolicyVerdict, NoPolicyBySeverity, VerdictPartitions, VerdictClassifies, ValidIffNoneUntolerable: without settings they assume distinct finding ids, which the database's primary key guarantees but the model's input does not.
- RiskLevelsRecordScores: assumes distinct finding ids; with repeated ids the later write wins.
