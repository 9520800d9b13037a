/** The acceptance policy: whether an evaluated draft may be shown at all. */
module Acceptance {
  import opened Evaluation

  const MinimumAcceptableScore: real := 60.0

  /** Rules whose presence rejects a draft whatever its score. */
  const CriticalRuleIds: seq<string> := ["cm0dy8xir000n6ldc0ol0mr5d", "cm0bnf3xa0001xoj412d0r198"]

  /** Whether any triggered rule has one of the critical ids. */
  function SomeCritical(rules: seq<Rule>): (found: bool)
    ensures found <==> exists i :: 0 <= i < |rules| && rules[i].id in CriticalRuleIds
  {
    if rules == [] then false
    else if rules[0].id in CriticalRuleIds then true
    else
      var rest := SomeCritical(rules[1..]);
      assert forall i :: 1 <= i < |rules| ==> rules[i] == rules[1..][i - 1];
      rest
  }

  /**
    Rejects a score below the minimum; otherwise rejects when a critical rule
    was triggered. Either condition alone rejects.
  */
  function IsResponseAcceptable(evaluation: Verdict): (acceptable: bool)
    ensures evaluation.overall < MinimumAcceptableScore ==> !acceptable
    ensures acceptable <==>
      evaluation.overall >= MinimumAcceptableScore &&
      forall i :: 0 <= i < |evaluation.rules| ==> evaluation.rules[i].id !in CriticalRuleIds
  {
    if evaluation.overall < MinimumAcceptableScore then false
    else !SomeCritical(evaluation.rules)
  }

  /** The set of rule ids a verdict names. */
  function RuleIds(rules: seq<Rule>): set<string>
  {
    set i | 0 <= i < |rules| :: rules[i].id
  }

  /** No rule is critical exactly when no id the rules name is critical. */
  lemma CriticalFreeByIds(rules: seq<Rule>)
    ensures (forall i :: 0 <= i < |rules| ==> rules[i].id !in CriticalRuleIds) <==>
            (forall id :: id in RuleIds(rules) ==> id !in CriticalRuleIds)
  {
  }

  /** Acceptance looks at the score and at the ids of the rules, and at nothing else. */
  lemma AcceptanceDependsOnScoreAndIds(v: Verdict, w: Verdict)
    requires v.overall == w.overall
    requires RuleIds(v.rules) == RuleIds(w.rules)
    ensures IsResponseAcceptable(v) == IsResponseAcceptable(w)
  {
    CriticalFreeByIds(v.rules);
    CriticalFreeByIds(w.rules);
  }
}
