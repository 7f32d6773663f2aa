/**
 * Adjacency rules and their de-duplication (src/services/rules.js).
 * A rule `[origin, target, direction]` says that a cell holding `origin`
 * allows `target` in the cell one step away in `direction`.
 */
module Rules {

  /** Tile types are opaque names such as "TREE" or "OCEAN". */
  type Tile = string

  /** The four direction names a rule may carry. */
  datatype Direction = Up | Down | Left | Right

  datatype Rule = Rule(origin: Tile, target: Tile, direction: Direction)

  /** `areRulesEqual`: field-by-field comparison, which is equality of the triples. */
  function AreRulesEqual(a: Rule, b: Rule): (equal: bool)
    ensures equal <==> a == b
  {
    a.origin == b.origin && a.target == b.target && a.direction == b.direction
  }

  /** `areRulesEqual` is an equivalence relation. */
  lemma AreRulesEqualIsEquivalence(a: Rule, b: Rule, c: Rule)
    ensures AreRulesEqual(a, a)
    ensures AreRulesEqual(a, b) <==> AreRulesEqual(b, a)
    ensures AreRulesEqual(a, b) && AreRulesEqual(b, c) ==> AreRulesEqual(a, c)
  {
  }

  /** `deDupedRules.every((deDupedRule) => !areRulesEqual(deDupedRule, rule))` */
  predicate IsNew(kept: seq<Rule>, rule: Rule) {
    forall k :: k in kept ==> !AreRulesEqual(k, rule)
  }

  /** No two entries of the list are equal. */
  predicate NoDuplicates(rules: seq<Rule>) {
    forall i, j :: 0 <= i < j < |rules| ==> rules[i] != rules[j]
  }

  /**
   * The list `removeDuplicateRules` returns: the input read left to right,
   * each rule kept unless an equal one has been kept already.
   */
  function Deduped(rules: seq<Rule>): (r: seq<Rule>)
    ensures NoDuplicates(r)
    ensures forall x :: x in r <==> x in rules
    ensures |r| <= |rules|
  {
    if rules == [] then []
    else
      var kept := Deduped(rules[..|rules| - 1]);
      var rule := rules[|rules| - 1];
      if rule in kept then kept else kept + [rule]
  }

  /** `removeDuplicateRules` */
  method RemoveDuplicateRules(rules: seq<Rule>) returns (deDupedRules: seq<Rule>)
    ensures deDupedRules == Deduped(rules)
  {
    deDupedRules := [];
    for i := 0 to |rules|
      invariant deDupedRules == Deduped(rules[..i])
    {
      var rule := rules[i];
      assert rules[..i + 1][..i] == rules[..i];
      if IsNew(deDupedRules, rule) {
        deDupedRules := deDupedRules + [rule];
      }
    }
    assert rules[..|rules|] == rules;
  }

  /**
   * An independent description of the result: the rules at those positions
   * of the input where no equal rule occurs earlier, in input order.
   */
  function FirstOccurrences(rules: seq<Rule>): seq<Rule> {
    if rules == [] then []
    else
      var i := |rules| - 1;
      FirstOccurrences(rules[..i]) + (if rules[i] in rules[..i] then [] else [rules[i]])
  }

  /** De-duplication keeps exactly the first occurrence of every rule, in input order. */
  lemma {:induction false} DedupedIsFirstOccurrences(rules: seq<Rule>)
    ensures Deduped(rules) == FirstOccurrences(rules)
  {
    if rules != [] {
      DedupedIsFirstOccurrences(rules[..|rules| - 1]);
    }
  }

  /** A list without duplicates is its own de-duplication. */
  lemma {:induction false} DedupedOfDuplicateFree(rules: seq<Rule>)
    requires NoDuplicates(rules)
    ensures Deduped(rules) == rules
  {
    if rules != [] {
      var init := rules[..|rules| - 1];
      assert NoDuplicates(init);
      DedupedOfDuplicateFree(init);
      assert rules[|rules| - 1] !in init;
      assert init + [rules[|rules| - 1]] == rules;
    }
  }

  /** `removeDuplicateRules` is idempotent. */
  lemma DedupedIdempotent(rules: seq<Rule>)
    ensures Deduped(Deduped(rules)) == Deduped(rules)
  {
    DedupedOfDuplicateFree(Deduped(rules));
  }

  /**
   * De-duplicating a longer list extends the de-duplication of its prefix,
   * by at most as many rules as were appended.
   */
  lemma {:induction false} DedupedExtends(prefix: seq<Rule>, suffix: seq<Rule>)
    ensures Deduped(prefix) <= Deduped(prefix + suffix)
    ensures |Deduped(prefix + suffix)| <= |Deduped(prefix)| + |suffix|
  {
    if suffix == [] {
      assert prefix + suffix == prefix;
    } else {
      var init := suffix[..|suffix| - 1];
      DedupedExtends(prefix, init);
      assert (prefix + suffix)[..|prefix + suffix| - 1] == prefix + init;
    }
  }
}
