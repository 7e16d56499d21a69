/**
 * Engagement validation: collect the eligible findings of an engagement's tests, classify each
 * one as tolerable or untolerable (by residual risk score under the default policy, or by
 * severity when there is no policy) and give the verdict.
 *
 * The store's queries become inputs: the engagement's tests with their findings, the product
 * every one of those findings belongs to, and the default policy if there is one. The
 * validation record and the per-finding residual risk levels are returned instead of written.
 */
module EngagementValidation {
  import opened Wrappers
  import opened Domain
  import opened RiskScore

  /** The verdict for one engagement. */
  datatype ValidationResult = ValidationResult(valid: bool, tolerable: seq<Finding>, untolerable: seq<Finding>)

  /** Active, not mitigated, not risk-accepted, in scope and not a false positive. */
  predicate Eligible(f: Finding)
  {
    f.active && !f.isMitigated && !f.riskAccepted && !f.outOfScope && !f.falsePositive
  }

  /** `a` is `b` with some elements deleted: the elements of `a` appear in `b` in the same order. */
  predicate IsSubsequence<T(==)>(a: seq<T>, b: seq<T>)
    decreases |b|
  {
    a == [] ||
    (b != [] &&
      ((a[|a| - 1] == b[|b| - 1] && IsSubsequence(a[..|a| - 1], b[..|b| - 1]))
       || IsSubsequence(a, b[..|b| - 1])))
  }

  /** No two findings share an id (the store's primary key). */
  predicate DistinctIds(s: seq<Finding>)
  {
    forall i, j :: 0 <= i < j < |s| ==> s[i].id != s[j].id
  }

  function Ids(s: seq<Finding>): set<nat>
  {
    set f | f in s :: f.id
  }

  /** The eligible findings of one test, in the test's order. */
  function EligibleOf(findings: seq<Finding>): (r: seq<Finding>)
    ensures forall f :: f in r <==> f in findings && Eligible(f)
    ensures forall f :: multiset(r)[f] == if Eligible(f) then multiset(findings)[f] else 0
    decreases |findings|
  {
    if findings == [] then []
    else
      var last := findings[|findings| - 1];
      var rest := EligibleOf(findings[..|findings| - 1]);
      assert findings == findings[..|findings| - 1] + [last];
      if Eligible(last) then rest + [last] else rest
  }

  /** The eligible findings of all tests: test by test, in order. */
  function EligibleFindings(tests: seq<Test>): seq<Finding>
    decreases |tests|
  {
    if tests == [] then []
    else EligibleFindings(tests[..|tests| - 1]) + EligibleOf(tests[|tests| - 1].findings)
  }

  /** Severity "Critical" or "High". */
  predicate IsSevere(f: Finding)
  {
    f.severity in ["Critical", "High"]
  }

  /**
   * The classification rule: under a policy, a score at or above the tolerance; without one,
   * a severe finding.
   */
  predicate Untolerable(policy: Option<Policy>, product: Product, f: Finding)
  {
    match policy
    case Some(p) => ResidualRiskScore(p, f, product) >= p.tolerance
    case None => IsSevere(f)
  }

  /** The tolerable findings of `s`, in order. */
  function TolerableOf(policy: Option<Policy>, product: Product, s: seq<Finding>): (r: seq<Finding>)
    ensures forall f :: f in r <==> f in s && !Untolerable(policy, product, f)
    decreases |s|
  {
    if s == [] then []
    else
      var last := s[|s| - 1];
      var rest := TolerableOf(policy, product, s[..|s| - 1]);
      assert s == s[..|s| - 1] + [last];
      if Untolerable(policy, product, last) then rest else rest + [last]
  }

  /** The untolerable findings of `s`, in order. */
  function UntolerableOf(policy: Option<Policy>, product: Product, s: seq<Finding>): (r: seq<Finding>)
    ensures forall f :: f in r <==> f in s && Untolerable(policy, product, f)
    decreases |s|
  {
    if s == [] then []
    else
      var last := s[|s| - 1];
      var rest := UntolerableOf(policy, product, s[..|s| - 1]);
      assert s == s[..|s| - 1] + [last];
      if Untolerable(policy, product, last) then rest + [last] else rest
  }

  /**
   * The findings of `s` whose id is not in `ids`: a set difference of findings, which compare
   * and hash by id. The model keeps the order of `s`.
   */
  function WithoutIds(s: seq<Finding>, ids: set<nat>): (r: seq<Finding>)
    ensures forall f :: f in r <==> f in s && f.id !in ids
    decreases |s|
  {
    if s == [] then []
    else
      var last := s[|s| - 1];
      var rest := WithoutIds(s[..|s| - 1], ids);
      assert s == s[..|s| - 1] + [last];
      if last.id in ids then rest else rest + [last]
  }

  /**
   * The residual risk levels written back onto the findings, by id: one per scored finding,
   * a later write to the same id replacing an earlier one; none without a policy.
   */
  function RiskLevels(policy: Option<Policy>, product: Product, s: seq<Finding>): map<nat, real>
    decreases |s|
  {
    match policy
    case None => map[]
    case Some(p) =>
      if s == [] then map[]
      else
        var last := s[|s| - 1];
        RiskLevels(policy, product, s[..|s| - 1])[last.id := ResidualRiskScore(p, last, product)]
  }

  /**
   * The verdict on the eligible findings `all`. Without a policy the untolerable findings are
   * those left after removing the tolerable ones.
   */
  function Verdict(policy: Option<Policy>, product: Product, all: seq<Finding>): ValidationResult
  {
    var tolerable := TolerableOf(policy, product, all);
    var untolerable :=
      if policy.Some? then UntolerableOf(policy, product, all) else WithoutIds(all, Ids(tolerable));
    ValidationResult(|untolerable| == 0, tolerable, untolerable)
  }

  /** Gathers the eligible findings of the tests, test by test. */
  method CollectEligible(tests: seq<Test>) returns (all: seq<Finding>)
    ensures all == EligibleFindings(tests)
  {
    all := [];
    for i := 0 to |tests|
      invariant all == EligibleFindings(tests[..i])
    {
      assert tests[..i + 1][..i] == tests[..i];
      all := all + EligibleOf(tests[i].findings);
    }
    assert tests[..|tests|] == tests;
  }

  /**
   * Scores every finding under the policy, records its residual risk level and sorts it into
   * the untolerable list (score at or above the tolerance) or the tolerable one.
   */
  method ClassifyByScore(p: Policy, product: Product, all: seq<Finding>)
    returns (tolerable: seq<Finding>, untolerable: seq<Finding>, riskLevels: map<nat, real>)
    ensures tolerable == TolerableOf(Some(p), product, all)
    ensures untolerable == UntolerableOf(Some(p), product, all)
    ensures riskLevels == RiskLevels(Some(p), product, all)
  {
    tolerable, untolerable, riskLevels := [], [], map[];
    for j := 0 to |all|
      invariant tolerable == TolerableOf(Some(p), product, all[..j])
      invariant untolerable == UntolerableOf(Some(p), product, all[..j])
      invariant riskLevels == RiskLevels(Some(p), product, all[..j])
    {
      assert all[..j + 1][..j] == all[..j];
      var f := all[j];
      var residualScore := ResidualRiskScore(p, f, product);
      riskLevels := riskLevels[f.id := residualScore];
      if residualScore >= p.tolerance {
        untolerable := untolerable + [f];
      } else {
        tolerable := tolerable + [f];
      }
    }
    assert all[..|all|] == all;
  }

  /**
   * Validates an engagement given its tests, its product and the default policy (if any):
   * gathers the eligible findings, classifies them and returns the verdict together with the
   * residual risk level of every scored finding.
   */
  method Validate(tests: seq<Test>, product: Product, policy: Option<Policy>)
    returns (result: ValidationResult, riskLevels: map<nat, real>)
    ensures result == Verdict(policy, product, EligibleFindings(tests))
    ensures riskLevels == RiskLevels(policy, product, EligibleFindings(tests))
  {
    var all := CollectEligible(tests);
    var tolerable: seq<Finding>;
    var untolerable: seq<Finding>;
    match policy {
      case Some(p) =>
        tolerable, untolerable, riskLevels := ClassifyByScore(p, product, all);
      case None =>
        tolerable := TolerableOf(policy, product, all);
        untolerable := WithoutIds(all, Ids(tolerable));
        riskLevels := map[];
    }
    result := ValidationResult(|untolerable| == 0, tolerable, untolerable);
  }

  // ---------------------------------------------------------------------------------------
  // Properties of the eligible list

  /** A finding is collected iff it is eligible and belongs to one of the tests. */
  lemma {:induction false} EligibleFindingsMembers(tests: seq<Test>, f: Finding)
    ensures f in EligibleFindings(tests) <==>
            Eligible(f) && exists i :: 0 <= i < |tests| && f in tests[i].findings
    decreases |tests|
  {
    if tests != [] {
      var init := tests[..|tests| - 1];
      EligibleFindingsMembers(init, f);
      if exists i :: 0 <= i < |tests| && f in tests[i].findings {
        var i :| 0 <= i < |tests| && f in tests[i].findings;
        if i < |tests| - 1 {
          assert f in init[i].findings;
        }
      }
    }
  }

  /** The eligible findings of each test appear in the test's own order. */
  lemma {:induction false} EligibleOfOrdered(findings: seq<Finding>)
    ensures IsSubsequence(EligibleOf(findings), findings)
    decreases |findings|
  {
    if findings != [] {
      var init := findings[..|findings| - 1];
      EligibleOfOrdered(init);
      var rest := EligibleOf(init);
      if Eligible(findings[|findings| - 1]) {
        assert (rest + [findings[|findings| - 1]])[..|rest|] == rest;
      }
    }
  }

  // ---------------------------------------------------------------------------------------
  // Properties of the classification

  /** Tolerable and untolerable findings together are exactly the input, counted with multiplicity. */
  lemma {:induction false} ClassificationSplits(policy: Option<Policy>, product: Product, s: seq<Finding>)
    ensures multiset(TolerableOf(policy, product, s)) + multiset(UntolerableOf(policy, product, s))
         == multiset(s)
    decreases |s|
  {
    if s != [] {
      var init := s[..|s| - 1];
      ClassificationSplits(policy, product, init);
      assert s == init + [s[|s| - 1]];
    }
  }

  /** Both classes keep the relative order of the input. */
  lemma {:induction false} ClassificationOrdered(policy: Option<Policy>, product: Product, s: seq<Finding>)
    ensures IsSubsequence(TolerableOf(policy, product, s), s)
    ensures IsSubsequence(UntolerableOf(policy, product, s), s)
    decreases |s|
  {
    if s != [] {
      var init := s[..|s| - 1];
      var last := s[|s| - 1];
      ClassificationOrdered(policy, product, init);
      var t := TolerableOf(policy, product, init);
      var u := UntolerableOf(policy, product, init);
      assert (t + [last])[..|t|] == t;
      assert (u + [last])[..|u|] == u;
    }
  }

  /** With distinct ids, a finding is determined by its id. */
  lemma SameIdSameFinding(s: seq<Finding>, f: Finding, g: Finding)
    requires DistinctIds(s)
    requires f in s && g in s && f.id == g.id
    ensures f == g
  {
    var i :| 0 <= i < |s| && s[i] == f;
    var j :| 0 <= j < |s| && s[j] == g;
    // Equal ids at positions i and j force i == j.
    assert s[i].id == s[j].id;
  }

  /** Removing exactly the ids of the non-severe findings leaves exactly the severe ones. */
  lemma {:induction false} WithoutIdsIsSevereFilter(product: Product, s: seq<Finding>, ids: set<nat>)
    requires forall f :: f in s ==> (f.id in ids <==> !IsSevere(f))
    ensures WithoutIds(s, ids) == UntolerableOf(None, product, s)
    decreases |s|
  {
    if s != [] {
      var init := s[..|s| - 1];
      assert forall f :: f in init ==> f in s;
      WithoutIdsIsSevereFilter(product, init, ids);
    }
  }

  /**
   * Without a policy and with distinct ids, the set difference "eligible minus tolerable" is
   * exactly the Critical and High findings.
   */
  lemma NoPolicyDifferenceIsSevere(product: Product, s: seq<Finding>)
    requires DistinctIds(s)
    ensures WithoutIds(s, Ids(TolerableOf(None, product, s))) == UntolerableOf(None, product, s)
  {
    var tolerable := TolerableOf(None, product, s);
    forall f | f in s
      ensures f.id in Ids(tolerable) <==> !IsSevere(f)
    {
      if f.id in Ids(tolerable) {
        var g :| g in tolerable && g.id == f.id;
        SameIdSameFinding(s, f, g);
      }
    }
    WithoutIdsIsSevereFilter(product, s, Ids(tolerable));
  }

  // ---------------------------------------------------------------------------------------
  // Properties of the verdict

  /** The verdict without a policy is the severity split. */
  lemma NoPolicyVerdict(product: Product, all: seq<Finding>)
    requires DistinctIds(all)
    ensures Verdict(None, product, all).tolerable == TolerableOf(None, product, all)
    ensures Verdict(None, product, all).untolerable == UntolerableOf(None, product, all)
  {
    NoPolicyDifferenceIsSevere(product, all);
  }

  /**
   * Every eligible finding lands in exactly one of the two lists, nothing else does, and
   * both lists keep the eligible order.
   */
  lemma VerdictPartitions(policy: Option<Policy>, product: Product, all: seq<Finding>)
    requires policy.Some? || DistinctIds(all)
    ensures var v := Verdict(policy, product, all);
      && multiset(v.tolerable) + multiset(v.untolerable) == multiset(all)
      && (forall f :: f in all <==> f in v.tolerable || f in v.untolerable)
      && (forall f :: !(f in v.tolerable && f in v.untolerable))
      && IsSubsequence(v.tolerable, all) && IsSubsequence(v.untolerable, all)
  {
    if policy.None? {
      NoPolicyVerdict(product, all);
    }
    ClassificationSplits(policy, product, all);
    ClassificationOrdered(policy, product, all);
  }

  /** An eligible finding is untolerable iff the classification rule says so. */
  lemma VerdictClassifies(policy: Option<Policy>, product: Product, all: seq<Finding>, f: Finding)
    requires policy.Some? || DistinctIds(all)
    requires f in all
    ensures f in Verdict(policy, product, all).untolerable <==> Untolerable(policy, product, f)
    ensures f in Verdict(policy, product, all).tolerable <==> !Untolerable(policy, product, f)
  {
    if policy.None? {
      NoPolicyVerdict(product, all);
    }
  }

  /** Under a policy, a score exactly at the tolerance is untolerable, never tolerable. */
  lemma ToleranceIsInclusive(p: Policy, product: Product, all: seq<Finding>, f: Finding)
    requires f in all
    requires ResidualRiskScore(p, f, product) == p.tolerance
    ensures f in Verdict(Some(p), product, all).untolerable
    ensures f !in Verdict(Some(p), product, all).tolerable
  {
    VerdictClassifies(Some(p), product, all, f);
  }

  /**
   * Without a policy, severity alone decides: "Critical" and "High" are untolerable, every
   * other severity tolerable, whatever the CVSS score.
   */
  lemma NoPolicyBySeverity(product: Product, all: seq<Finding>, f: Finding)
    requires DistinctIds(all)
    requires f in all
    ensures f in Verdict(None, product, all).untolerable <==> f.severity == "Critical" || f.severity == "High"
    ensures f in Verdict(None, product, all).tolerable <==> f.severity != "Critical" && f.severity != "High"
  {
    VerdictClassifies(None, product, all, f);
  }

  /** The engagement is valid iff no eligible finding is untolerable. */
  lemma ValidIffNoneUntolerable(policy: Option<Policy>, product: Product, all: seq<Finding>)
    requires policy.Some? || DistinctIds(all)
    ensures Verdict(policy, product, all).valid <==> Verdict(policy, product, all).untolerable == []
    ensures Verdict(policy, product, all).valid <==> forall f :: f in all ==> !Untolerable(policy, product, f)
  {
    var v := Verdict(policy, product, all);
    if !v.valid {
      var f := v.untolerable[0];
      VerdictPartitions(policy, product, all);
      VerdictClassifies(policy, product, all, f);
    } else {
      forall f | f in all
        ensures !Untolerable(policy, product, f)
      {
        VerdictClassifies(policy, product, all, f);
      }
    }
  }

  /** No eligible findings: valid, with both lists empty, with or without a policy. */
  lemma EmptyIsValid(policy: Option<Policy>, product: Product)
    ensures Verdict(policy, product, []) == ValidationResult(true, [], [])
  {
  }

  /** Under a policy, exactly the ids of the scored findings get a residual risk level. */
  lemma {:induction false} RiskLevelsKeys(p: Policy, product: Product, s: seq<Finding>)
    ensures RiskLevels(Some(p), product, s).Keys == Ids(s)
    decreases |s|
  {
    if s != [] {
      var init := s[..|s| - 1];
      assert s == init + [s[|s| - 1]];
      RiskLevelsKeys(p, product, init);
      assert Ids(s) == Ids(init) + {s[|s| - 1].id};
    }
  }

  /**
   * Under a policy and with distinct ids, the level recorded for each eligible finding is its
   * own score.
   */
  lemma {:induction false} RiskLevelsRecordScores(p: Policy, product: Product, s: seq<Finding>)
    requires DistinctIds(s)
    ensures forall f :: f in s ==>
      f.id in RiskLevels(Some(p), product, s) && RiskLevels(Some(p), product, s)[f.id] == ResidualRiskScore(p, f, product)
    decreases |s|
  {
    if s != [] {
      var init := s[..|s| - 1];
      var last := s[|s| - 1];
      assert DistinctIds(init);
      RiskLevelsRecordScores(p, product, init);
      forall f | f in s
        ensures f.id in RiskLevels(Some(p), product, s)
        ensures RiskLevels(Some(p), product, s)[f.id] == ResidualRiskScore(p, f, product)
      {
        if f != last {
          var i :| 0 <= i < |s| && s[i] == f;
          assert i < |s| - 1 && init[i] == f;
        }
      }
    }
  }

  /** Without a policy nothing is scored, so no residual risk level is written. */
  lemma NoPolicyWritesNoLevels(product: Product, s: seq<Finding>)
    ensures RiskLevels(None, product, s) == map[]
  {
  }
}
