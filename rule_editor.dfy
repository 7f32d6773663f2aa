/**
 * The list logic of the rule editor (src/components/rules/Rules.js): the
 * values `addRule` and `removeRule` hand to `setRules`. The React state
 * around them is not modelled.
 */
module RuleEditor {
  import opened Rules
  import Ramda

  /** The form selections `addRule` receives. */
  datatype NewRuleOptions = NewRuleOptions(origin: Tile, target: Tile, direction: Direction, addSymmetricRule: bool)

  /** The rule the form describes. */
  function RequestedRule(options: NewRuleOptions): Rule {
    Rule(options.origin, options.target, options.direction)
  }

  /** The same adjacency read from the target's side. */
  function MirrorRule(options: NewRuleOptions, opposite: Direction -> Direction): Rule {
    Rule(options.target, options.origin, opposite(options.direction))
  }

  /**
   * `newRules`: the requested rule, followed by its mirror when
   * `addSymmetricRule` is set. `getOppositeDirection` is imported from
   * `services/utils` but not defined there, so it is the parameter `opposite`.
   */
  function NewRules(options: NewRuleOptions, opposite: Direction -> Direction): (r: seq<Rule>)
    ensures |r| == if options.addSymmetricRule then 2 else 1
    ensures r[0] == RequestedRule(options)
    ensures options.addSymmetricRule ==> r[1] == MirrorRule(options, opposite)
    ensures forall x :: x in r ==> x == RequestedRule(options) || (options.addSymmetricRule && x == MirrorRule(options, opposite))
  {
    if options.addSymmetricRule then [RequestedRule(options), MirrorRule(options, opposite)]
    else [RequestedRule(options)]
  }

  /** `addRule`: `removeDuplicateRules([...rules, ...newRules])`. */
  function AddRule(rules: seq<Rule>, options: NewRuleOptions, opposite: Direction -> Direction): (r: seq<Rule>)
    ensures NoDuplicates(r)
    ensures RequestedRule(options) in r
    ensures options.addSymmetricRule ==> MirrorRule(options, opposite) in r
    ensures forall x :: x in rules ==> x in r
    ensures forall x :: x in r ==> x in rules || x in NewRules(options, opposite)
    ensures NoDuplicates(rules) ==> rules <= r && |r| <= |rules| + |NewRules(options, opposite)|
    ensures |NewRules(options, opposite)| == if options.addSymmetricRule then 2 else 1
  {
    var newRules := NewRules(options, opposite);
    DedupedExtends(rules, newRules);
    assert NoDuplicates(rules) ==> Deduped(rules) == rules by {
      if NoDuplicates(rules) {
        DedupedOfDuplicateFree(rules);
      }
    }
    Deduped(rules + newRules)
  }

  /** Adding a rule that is already present leaves a duplicate-free list unchanged. */
  lemma {:induction false} AddPresentRuleIsNoOp(rules: seq<Rule>, options: NewRuleOptions, opposite: Direction -> Direction)
    requires NoDuplicates(rules)
    requires forall x :: x in NewRules(options, opposite) ==> x in rules
    ensures AddRule(rules, options, opposite) == rules
  {
    var r := AddRule(rules, options, opposite);
    if r != rules {
      AppendedIsNew(rules, r);
      assert false;
    }
  }

  /** In a duplicate-free list that extends `prefix`, the next entry does not occur in `prefix`. */
  lemma AppendedIsNew(prefix: seq<Rule>, r: seq<Rule>)
    requires NoDuplicates(r) && prefix <= r && r != prefix
    ensures r[|prefix|] in r && r[|prefix|] !in prefix
  {
    assert forall k :: 0 <= k < |prefix| ==> prefix[k] == r[k];
  }

  /** `removeRule`: `remove(ruleIndex, 1, rules)`. */
  function RemoveRule(rules: seq<Rule>, ruleIndex: int): (r: seq<Rule>)
    ensures 0 <= ruleIndex < |rules| ==>
      && |r| == |rules| - 1
      && (forall k :: 0 <= k < ruleIndex ==> r[k] == rules[k])
      && (forall k :: ruleIndex <= k < |r| ==> r[k] == rules[k + 1])
    ensures ruleIndex >= |rules| ==> r == rules
  {
    Ramda.Remove(ruleIndex, 1, rules)
  }
}
