/** The rule-list diff of src/ruleManager.ts: which rules a reload of the rule
    table removed, changed or added, keyed by `id`. The rule record of that
    file is reduced to its `id` and the rest of the object, which the source
    compares as a whole. */
module ChangedRules {
  import opened Wrappers
  import opened Sequences

  /** A rule as the diff sees it: its key and everything else. */
  datatype Rule = Rule(id: string, rule: string)

  /** `new Map(newRules.map((rule) => [rule.id, rule]))`: a later rule with
      the same `id` overwrites an earlier one. */
  function RulesById(rules: seq<Rule>): map<string, Rule>
    decreases |rules|
  {
    if rules == [] then map[]
    else
      var last := rules[|rules| - 1];
      RulesById(rules[..|rules| - 1])[last.id := last]
  }

  /** `rules.some((rule) => rule.id === id)`. */
  predicate HasId(rules: seq<Rule>, id: string)
  {
    exists r :: r in rules && r.id == id
  }

  /** What one old rule contributes: itself when its `id` is gone, the new
      version when that differs from it, nothing when they are equal. */
  function OldRuleEntry(oldRule: Rule, newRulesMap: map<string, Rule>): seq<Rule>
  {
    if oldRule.id !in newRulesMap then [oldRule]
    else if newRulesMap[oldRule.id] != oldRule then [newRulesMap[oldRule.id]]
    else []
  }

  /** The contributions of the old rules, in old order. */
  function OldRuleEntries(oldRules: seq<Rule>, newRulesMap: map<string, Rule>): seq<Rule>
    decreases |oldRules|
  {
    if oldRules == [] then []
    else OldRuleEntries(oldRules[..|oldRules| - 1], newRulesMap) + OldRuleEntry(oldRules[|oldRules| - 1], newRulesMap)
  }

  /** The new rules whose `id` no old rule has, in new order. */
  function BrandNewRules(oldRules: seq<Rule>, newRules: seq<Rule>): seq<Rule>
    decreases |newRules|
  {
    if newRules == [] then []
    else
      var last := newRules[|newRules| - 1];
      BrandNewRules(oldRules, newRules[..|newRules| - 1]) + (if HasId(oldRules, last.id) then [] else [last])
  }

  /** The reference answer: removed or changed rules in old order, then brand
      new rules in new order. */
  function ChangedRulesOf(oldRules: seq<Rule>, newRules: seq<Rule>): seq<Rule>
  {
    OldRuleEntries(oldRules, RulesById(newRules)) + BrandNewRules(oldRules, newRules)
  }

  /** `getChangedRules`: builds the id map, walks the old rules, then the new ones. */
  method GetChangedRules(oldRules: seq<Rule>, newRules: seq<Rule>) returns (changedRules: seq<Rule>)
    ensures changedRules == ChangedRulesOf(oldRules, newRules)
  {
    changedRules := [];
    var newRulesMap: map<string, Rule> := map[];
    var i := 0;
    while i < |newRules|
      invariant 0 <= i <= |newRules|
      invariant newRulesMap == RulesById(newRules[..i])
    {
      RulesByIdStep(newRules, i);
      newRulesMap := newRulesMap[newRules[i].id := newRules[i]];
      i := i + 1;
    }
    assert newRules[..i] == newRules;

    var j := 0;
    while j < |oldRules|
      invariant 0 <= j <= |oldRules|
      invariant changedRules == OldRuleEntries(oldRules[..j], newRulesMap)
    {
      var oldRule := oldRules[j];
      OldRuleEntriesStep(oldRules, j, newRulesMap);
      if oldRule.id !in newRulesMap || newRulesMap[oldRule.id] != oldRule {
        var reported := if oldRule.id in newRulesMap then newRulesMap[oldRule.id] else oldRule;
        changedRules := changedRules + [reported];
      }
      j := j + 1;
    }
    assert oldRules[..j] == oldRules;

    ghost var fromOld := changedRules;
    ghost var added: seq<Rule> := [];
    var k := 0;
    while k < |newRules|
      invariant 0 <= k <= |newRules|
      invariant added == BrandNewRules(oldRules, newRules[..k])
      invariant changedRules == fromOld + added
    {
      var newRule := newRules[k];
      BrandNewRulesStep(oldRules, newRules, k);
      if !(exists oldRule :: oldRule in oldRules && oldRule.id == newRule.id) {
        AppendAssociative(fromOld, added, [newRule]);
        changedRules := changedRules + [newRule];
        added := added + [newRule];
      }
      k := k + 1;
    }
    assert newRules[..k] == newRules;
  }

  /** One more rule in the id map overwrites its id's entry. */
  lemma RulesByIdStep(rules: seq<Rule>, i: nat)
    requires i < |rules|
    ensures RulesById(rules[..i + 1]) == RulesById(rules[..i])[rules[i].id := rules[i]]
  {
    assert rules[..i + 1][..i] == rules[..i];
  }

  /** One more old rule appends its own contribution. */
  lemma OldRuleEntriesStep(oldRules: seq<Rule>, j: nat, newRulesMap: map<string, Rule>)
    requires j < |oldRules|
    ensures OldRuleEntries(oldRules[..j + 1], newRulesMap)
         == OldRuleEntries(oldRules[..j], newRulesMap) + OldRuleEntry(oldRules[j], newRulesMap)
  {
    assert oldRules[..j + 1][..j] == oldRules[..j];
  }

  /** One more new rule is appended iff no old rule has its id. */
  lemma BrandNewRulesStep(oldRules: seq<Rule>, newRules: seq<Rule>, k: nat)
    requires k < |newRules|
    ensures BrandNewRules(oldRules, newRules[..k + 1])
         == BrandNewRules(oldRules, newRules[..k]) + (if HasId(oldRules, newRules[k].id) then [] else [newRules[k]])
  {
    assert newRules[..k + 1][..k] == newRules[..k];
  }

  // ---------------------------------------------------------------------------
  // The id map

  /** The map holds exactly the ids of the list, and for each the LAST rule of
      the list carrying it. */
  lemma {:induction false} RulesByIdIsLastOccurrence(rules: seq<Rule>, id: string)
    ensures id in RulesById(rules) <==> HasId(rules, id)
    ensures id in RulesById(rules) ==>
      exists i :: 0 <= i < |rules| && rules[i] == RulesById(rules)[id]
                  && rules[i].id == id
                  && forall j :: i < j < |rules| ==> rules[j].id != id
  {
    if rules != [] {
      var front := rules[..|rules| - 1];
      var last := rules[|rules| - 1];
      RulesByIdIsLastOccurrence(front, id);
      assert rules == front + [last];
      if last.id == id {
        assert rules[|rules| - 1] == RulesById(rules)[id];
      } else if id in RulesById(rules) {
        var i :| 0 <= i < |front| && front[i] == RulesById(front)[id] && front[i].id == id
                 && forall j :: i < j < |front| ==> front[j].id != id;
        assert rules[i] == front[i];
      }
    }
  }

  /** With unique ids, every rule is what the map holds for its id. */
  lemma {:induction false} RulesByIdUnique(rules: seq<Rule>, r: Rule)
    requires forall i, j :: 0 <= i < j < |rules| ==> rules[i].id != rules[j].id
    requires r in rules
    ensures r.id in RulesById(rules) && RulesById(rules)[r.id] == r
  {
    var front := rules[..|rules| - 1];
    var last := rules[|rules| - 1];
    assert rules == front + [last];
    if r != last {
      assert r in front;
      RulesByIdUnique(front, r);
      var i :| 0 <= i < |front| && front[i] == r;
      assert rules[i].id != rules[|rules| - 1].id;
    }
  }

  // ---------------------------------------------------------------------------
  // What the diff reports

  lemma {:induction false} OldRuleEntriesMembership(oldRules: seq<Rule>, newRulesMap: map<string, Rule>, x: Rule)
    ensures x in OldRuleEntries(oldRules, newRulesMap) <==>
            exists o :: o in oldRules && x in OldRuleEntry(o, newRulesMap)
  {
    if oldRules != [] {
      var front := oldRules[..|oldRules| - 1];
      OldRuleEntriesMembership(front, newRulesMap, x);
      assert oldRules == front + [oldRules[|oldRules| - 1]];
    }
  }

  lemma {:induction false} BrandNewRulesMembership(oldRules: seq<Rule>, newRules: seq<Rule>, x: Rule)
    ensures x in BrandNewRules(oldRules, newRules) <==> x in newRules && !HasId(oldRules, x.id)
  {
    if newRules != [] {
      var front := newRules[..|newRules| - 1];
      BrandNewRulesMembership(oldRules, front, x);
      assert newRules == front + [newRules[|newRules| - 1]];
    }
  }

  /** A rule is reported exactly when it is
      (a) an old rule whose `id` no new rule has (a removal),
      (b) the last new rule with some old rule's `id`, different from that old
          rule (a change, reported as the new version), or
      (c) a new rule whose `id` no old rule has (an addition). */
  lemma ChangedRulesMembership(oldRules: seq<Rule>, newRules: seq<Rule>, x: Rule)
    ensures x in ChangedRulesOf(oldRules, newRules) <==>
      || (x in oldRules && !HasId(newRules, x.id))
      || (exists o :: o in oldRules && o.id in RulesById(newRules) && RulesById(newRules)[o.id] == x && x != o)
      || (x in newRules && !HasId(oldRules, x.id))
  {
    var m := RulesById(newRules);
    OldRuleEntriesMembership(oldRules, m, x);
    BrandNewRulesMembership(oldRules, newRules, x);
    RulesByIdIsLastOccurrence(newRules, x.id);
    if x in oldRules && !HasId(newRules, x.id) {
      assert x in OldRuleEntry(x, m);
    }
    if exists o :: o in oldRules && x in OldRuleEntry(o, m) {
      var o :| o in oldRules && x in OldRuleEntry(o, m);
      RulesByIdIsLastOccurrence(newRules, o.id);
    }
  }

  lemma {:induction false} OldRuleEntriesNone(oldRules: seq<Rule>, newRulesMap: map<string, Rule>)
    requires forall o :: o in oldRules ==> o.id in newRulesMap && newRulesMap[o.id] == o
    ensures OldRuleEntries(oldRules, newRulesMap) == []
  {
    if oldRules != [] {
      var front := oldRules[..|oldRules| - 1];
      assert forall o :: o in front ==> o in oldRules;
      OldRuleEntriesNone(front, newRulesMap);
    }
  }

  lemma {:induction false} BrandNewRulesNone(oldRules: seq<Rule>, newRules: seq<Rule>)
    requires forall r :: r in newRules ==> HasId(oldRules, r.id)
    ensures BrandNewRules(oldRules, newRules) == []
  {
    if newRules != [] {
      var front := newRules[..|newRules| - 1];
      assert forall r :: r in front ==> r in newRules;
      BrandNewRulesNone(oldRules, front);
    }
  }

  /** Comparing a list with itself reports nothing, provided its ids are unique
      (as ids of a rule table are meant to be). */
  lemma NoChangeReportsNothing(rules: seq<Rule>)
    requires forall i, j :: 0 <= i < j < |rules| ==> rules[i].id != rules[j].id
    ensures ChangedRulesOf(rules, rules) == []
  {
    forall o | o in rules
      ensures o.id in RulesById(rules) && RulesById(rules)[o.id] == o
      ensures HasId(rules, o.id)
    {
      RulesByIdUnique(rules, o);
    }
    OldRuleEntriesNone(rules, RulesById(rules));
    BrandNewRulesNone(rules, rules);
  }

  /** The example the project's own suite pins: rule 1 unchanged, rule 2
      updated, rule 3 removed, rule 4 added give `[2 (updated), 3, 4]`. */
  lemma UpdatedRemovedAdded()
    ensures ChangedRulesOf(SuiteOldRules, SuiteNewRules)
         == [Rule("2", "Updated Rule 2"), Rule("3", "Rule 3"), Rule("4", "New Rule 4")]
  {
    SuiteOldEntries();
    SuiteBrandNew();
  }

  /** The two rule lists of that example. */
  const SuiteOldRules := [Rule("1", "Rule 1"), Rule("2", "Rule 2"), Rule("3", "Rule 3")]
  const SuiteNewRules := [Rule("1", "Rule 1"), Rule("2", "Updated Rule 2"), Rule("4", "New Rule 4")]

  /** The id map of the example's new rules. */
  lemma SuiteIdMap()
    ensures RulesById(SuiteNewRules)
         == map["1" := Rule("1", "Rule 1"), "2" := Rule("2", "Updated Rule 2"), "4" := Rule("4", "New Rule 4")]
  {
    var n1, n2, n4 := SuiteNewRules[0], SuiteNewRules[1], SuiteNewRules[2];
    assert SuiteNewRules[..2] == [n1, n2] && [n1, n2][..1] == [n1] && [n1][..0] == [];
    assert RulesById([n1]) == map["1" := n1];
    assert RulesById([n1, n2]) == map["1" := n1, "2" := n2];
  }

  /** The example's pass over the old rules: updated 2, then the removed 3. */
  lemma SuiteOldEntries()
    ensures OldRuleEntries(SuiteOldRules, RulesById(SuiteNewRules)) == [Rule("2", "Updated Rule 2"), Rule("3", "Rule 3")]
  {
    SuiteIdMap();
    var m := RulesById(SuiteNewRules);
    var o1, o2 := SuiteOldRules[0], SuiteOldRules[1];
    assert SuiteOldRules[..2] == [o1, o2] && [o1, o2][..1] == [o1] && [o1][..0] == [];
    assert OldRuleEntries([o1], m) == [];
    assert OldRuleEntries([o1, o2], m) == [Rule("2", "Updated Rule 2")];
  }

  /** The example's pass over the new rules: only 4 is new. */
  lemma SuiteBrandNew()
    ensures BrandNewRules(SuiteOldRules, SuiteNewRules) == [Rule("4", "New Rule 4")]
  {
    var n1, n2 := SuiteNewRules[0], SuiteNewRules[1];
    assert SuiteNewRules[..2] == [n1, n2] && [n1, n2][..1] == [n1] && [n1][..0] == [];
    assert SuiteOldRules[0] in SuiteOldRules && SuiteOldRules[1] in SuiteOldRules;
    assert BrandNewRules(SuiteOldRules, [n1]) == [];
    assert BrandNewRules(SuiteOldRules, [n1, n2]) == [];
  }

  /** With a repeated `id` among the new rules, an old rule is compared with,
      and replaced by, the last of them. */
  lemma RepeatedIdUsesLast(oldRule: Rule, first: Rule, second: Rule)
    requires first.id == oldRule.id && second.id == oldRule.id
    requires second != oldRule
    ensures ChangedRulesOf([oldRule], [first, second]) == [second]
  {
    var newRules := [first, second];
    assert newRules[..1] == [first] && [first][..0] == [];
    assert RulesById([first]) == map[oldRule.id := first];
    assert RulesById(newRules) == map[oldRule.id := second];
    assert [oldRule][..0] == [];
    assert OldRuleEntries([oldRule], RulesById(newRules)) == [second];
    assert oldRule in [oldRule];
    assert BrandNewRules([oldRule], [first]) == [];
    assert BrandNewRules([oldRule], newRules) == [];
  }
}
