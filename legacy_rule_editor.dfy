/**
 * The list logic of the earlier rule editor (src/components/Rules.js): the
 * same `addRule` and `removeRule` as the current editor, except that
 * `addRule` appends without de-duplicating.
 */
module LegacyRuleEditor {
  import opened Rules
  import opened RuleEditor
  import Ramda

  /** `addRule`: `[...rules, ...newRules]`. */
  function AddRule(rules: seq<Rule>, options: NewRuleOptions, opposite: Direction -> Direction): (r: seq<Rule>)
    ensures rules <= r
    ensures |r| == |rules| + (if options.addSymmetricRule then 2 else 1)
    ensures r[|rules|] == RequestedRule(options)
    ensures options.addSymmetricRule ==> r[|rules| + 1] == MirrorRule(options, opposite)
  {
    rules + NewRules(options, opposite)
  }

  /** Without de-duplication, adding a rule that is already present repeats it. */
  lemma AddPresentRuleDuplicates(rules: seq<Rule>, options: NewRuleOptions, opposite: Direction -> Direction)
    requires RequestedRule(options) in rules
    ensures !NoDuplicates(AddRule(rules, options, opposite))
  {
    var r := AddRule(rules, options, opposite);
    var k :| 0 <= k < |rules| && rules[k] == RequestedRule(options);
    assert r[k] == r[|rules|];
  }

  /**
   * `removeRule`: `remove(ruleIndex, 1, rules)`. The earlier editor's source
   * repeats the current editor's `removeRule` verbatim, so this mirrors
   * `RuleEditor.RemoveRule`.
   */
  function RemoveRule(rules: seq<Rule>, ruleIndex: int): (r: seq<Rule>)
    ensures 0 <= ruleIndex < |rules| ==>
      && |r| == |rules| - 1
      && (forall k :: 0 <= k < ruleIndex ==> r[k] == rules[k])
      && (forall k :: ruleIndex <= k < |r| ==> r[k] == rules[k + 1])
    ensures ruleIndex >= |rules| ==> r == rules
  {
    Ramda.Remove(ruleIndex, 1, rules)
  }
}
