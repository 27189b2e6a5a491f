/** Running a rule's quantifier and constraint patterns on one source text and
    splitting the quantifier matches into satisfied and violated ones
    (src/core/astGrep/ruleExecutor.ts). The structural matcher itself
    (parse, root, findAll) and the node comparison `areNodesEqual` are foreign
    and enter as function parameters. */
module RuleExecutor {
  import opened Wrappers
  import opened RuleTypes
  import opened AstGrepUtilities

  /** A point in the source: zero-based line, column and character index. */
  datatype Position = Position(line: nat, column: nat, index: nat)

  datatype Range = Range(start: Position, end: Position)

  /** A matched syntax-tree node: its kind, its text and its range. */
  datatype SgNode = SgNode(kind: string, text: string, range: Range)

  /** The root handle a successful parse yields. */
  datatype SgRoot = SgRoot(lang: Lang, source: string)

  /** The foreign matcher. `None` stands for a call that throws. */
  datatype MatchProvider = MatchProvider(
    parse: (Lang, string) -> Option<SgRoot>,
    findAll: (SgRoot, NapiConfig) -> Option<seq<SgNode>>)

  /** The two lists `getSatisfiedAndViolatedNodes` returns. */
  datatype NodePartition = NodePartition(satisfiedNodes: seq<SgNode>, violatedNodes: seq<SgNode>)

  /** The two lists `getSatifiedAndViolatedResults` returns. */
  datatype SatisfiedAndViolatedSnippets = SatisfiedAndViolatedSnippets(
    satisfiedSnippets: seq<Snippet>, violatedSnippets: seq<Snippet>)

  // ---------------------------------------------------------------------------
  // Running one pattern

  /** `findAll` on a parsed root; a throwing `findAll` gives no matches. */
  function ExecuteRuleOnAstRoot(rule: NapiConfig, root: SgRoot, findAll: (SgRoot, NapiConfig) -> Option<seq<SgNode>>): (nodes: seq<SgNode>)
    ensures findAll(root, rule).Some? ==> nodes == findAll(root, rule).value
    ensures findAll(root, rule).None? ==> nodes == []
  {
    match findAll(root, rule)
    case Some(found) => found
    case None => []
  }

  /** Parses `source` and runs `rule` on its root. The empty source is answered
      without parsing; a parse or match that throws gives no matches. */
  function ExecuteRuleOnSource(rule: NapiConfig, source: string, lang: Lang, provider: MatchProvider): (nodes: seq<SgNode>)
    ensures source == "" ==> nodes == []
    ensures provider.parse(lang, source).None? ==> nodes == []
    ensures nodes != [] ==>
      && source != ""
      && provider.parse(lang, source).Some?
      && provider.findAll(provider.parse(lang, source).value, rule) == Some(nodes)
    ensures source != "" && provider.parse(lang, source).Some?
            && provider.findAll(provider.parse(lang, source).value, rule).Some? ==>
      nodes == provider.findAll(provider.parse(lang, source).value, rule).value
  {
    if source == "" then []
    else
      match provider.parse(lang, source)
      case None => []
      case Some(root) => ExecuteRuleOnAstRoot(rule, root, provider.findAll)
  }

  /** On the empty source the matcher is never consulted: any two providers
      give the same (empty) answer. */
  lemma EmptySourceIgnoresProvider(rule: NapiConfig, lang: Lang, p: MatchProvider, q: MatchProvider)
    ensures ExecuteRuleOnSource(rule, "", lang, p) == ExecuteRuleOnSource(rule, "", lang, q) == []
  {
  }

  // ---------------------------------------------------------------------------
  // Snippets

  /** The node range a snippet records. */
  function RangeOfSnippet(s: Snippet): Range
  {
    Range(Position(s.lines.start, s.columns.start, s.offsets.start),
          Position(s.lines.end, s.columns.end, s.offsets.end))
  }

  /** Copies a node's text and its line, column and offset ranges. */
  function GetSnippetFromSgNode(node: SgNode): (s: Snippet)
    ensures s.snippet == node.text
    ensures RangeOfSnippet(s) == node.range
  {
    Snippet(node.text,
            Span(node.range.start.line, node.range.end.line),
            Span(node.range.start.column, node.range.end.column),
            Span(node.range.start.index, node.range.end.index))
  }

  /** A snippet determines the node's text and range and nothing else: two
      nodes give the same snippet exactly when they agree on both. */
  lemma SnippetIdentifiesSpan(a: SgNode, b: SgNode)
    ensures GetSnippetFromSgNode(a) == GetSnippetFromSgNode(b) <==> a.text == b.text && a.range == b.range
  {
    if GetSnippetFromSgNode(a) == GetSnippetFromSgNode(b) {
      assert a.range == RangeOfSnippet(GetSnippetFromSgNode(a));
    }
  }

  /** `nodes.map(getSnippetFromSgNode)`. */
  function SnippetsOf(nodes: seq<SgNode>): (r: seq<Snippet>)
    ensures |r| == |nodes|
    ensures forall i :: 0 <= i < |nodes| ==> r[i] == GetSnippetFromSgNode(nodes[i])
  {
    seq(|nodes|, i requires 0 <= i < |nodes| => GetSnippetFromSgNode(nodes[i]))
  }

  // ---------------------------------------------------------------------------
  // Classification

  /** `constraintNodes.some(c => areNodesEqual(q, c))`. */
  predicate IsSatisfied(q: SgNode, constraintNodes: seq<SgNode>, areNodesEqual: (SgNode, SgNode) -> bool)
  {
    exists c :: c in constraintNodes && areNodesEqual(q, c)
  }

  /** The quantifier nodes whose satisfaction is `satisfied`, in input order. */
  function Filtered(quantifierNodes: seq<SgNode>, constraintNodes: seq<SgNode>,
                    areNodesEqual: (SgNode, SgNode) -> bool, satisfied: bool): (r: seq<SgNode>)
    decreases |quantifierNodes|
  {
    if quantifierNodes == [] then []
    else
      var last := quantifierNodes[|quantifierNodes| - 1];
      var front := Filtered(quantifierNodes[..|quantifierNodes| - 1], constraintNodes, areNodesEqual, satisfied);
      if IsSatisfied(last, constraintNodes, areNodesEqual) == satisfied then front + [last] else front
  }

  /** The reference partition: satisfied nodes, then violated nodes. */
  function Classify(quantifierNodes: seq<SgNode>, constraintNodes: seq<SgNode>,
                    areNodesEqual: (SgNode, SgNode) -> bool): NodePartition
  {
    NodePartition(Filtered(quantifierNodes, constraintNodes, areNodesEqual, true),
                  Filtered(quantifierNodes, constraintNodes, areNodesEqual, false))
  }

  /** The for-loop of `getSatisfiedAndViolatedNodes`. `mismatchLogged` is the
      diagnostic printed when the number of satisfied nodes differs from the
      number of constraint nodes; it has no bearing on the partition. */
  method GetSatisfiedAndViolatedNodes(quantifierNodes: seq<SgNode>, constraintNodes: seq<SgNode>,
                                      areNodesEqual: (SgNode, SgNode) -> bool)
    returns (result: NodePartition, mismatchLogged: bool)
    ensures result == Classify(quantifierNodes, constraintNodes, areNodesEqual)
    ensures mismatchLogged <==> |result.satisfiedNodes| != |constraintNodes|
  {
    var satisfiedNodes: seq<SgNode> := [];
    var violatedNodes: seq<SgNode> := [];
    var i := 0;
    while i < |quantifierNodes|
      invariant 0 <= i <= |quantifierNodes|
      invariant satisfiedNodes == Filtered(quantifierNodes[..i], constraintNodes, areNodesEqual, true)
      invariant violatedNodes == Filtered(quantifierNodes[..i], constraintNodes, areNodesEqual, false)
    {
      var quantifierNode := quantifierNodes[i];
      assert quantifierNodes[..i + 1][..i] == quantifierNodes[..i];
      var isSatisfied := exists c :: c in constraintNodes && areNodesEqual(quantifierNode, c);
      if isSatisfied {
        satisfiedNodes := satisfiedNodes + [quantifierNode];
      } else {
        violatedNodes := violatedNodes + [quantifierNode];
      }
      i := i + 1;
    }
    assert quantifierNodes[..i] == quantifierNodes;
    mismatchLogged := |satisfiedNodes| != |constraintNodes|;
    result := NodePartition(satisfiedNodes, violatedNodes);
  }

  // ---------------------------------------------------------------------------
  // What the partition promises

  /** Every quantifier node lands in exactly one of the two lists: the counts
      add up and the multisets add up. */
  lemma {:induction false} PartitionIsComplete(quantifierNodes: seq<SgNode>, constraintNodes: seq<SgNode>,
                                               areNodesEqual: (SgNode, SgNode) -> bool)
    ensures var p := Classify(quantifierNodes, constraintNodes, areNodesEqual);
      && |p.satisfiedNodes| + |p.violatedNodes| == |quantifierNodes|
      && multiset(p.satisfiedNodes) + multiset(p.violatedNodes) == multiset(quantifierNodes)
  {
    if quantifierNodes != [] {
      var front := quantifierNodes[..|quantifierNodes| - 1];
      PartitionIsComplete(front, constraintNodes, areNodesEqual);
      assert quantifierNodes == front + [quantifierNodes[|quantifierNodes| - 1]];
    }
  }

  /** A node is in the `satisfied` list exactly when it is a quantifier node
      that some constraint node equals, and in the `violated` list exactly when
      it is a quantifier node that no constraint node equals. */
  lemma {:induction false} FilteredMembership(quantifierNodes: seq<SgNode>, constraintNodes: seq<SgNode>,
                                              areNodesEqual: (SgNode, SgNode) -> bool, satisfied: bool, n: SgNode)
    ensures n in Filtered(quantifierNodes, constraintNodes, areNodesEqual, satisfied) <==>
            n in quantifierNodes && IsSatisfied(n, constraintNodes, areNodesEqual) == satisfied
  {
    if quantifierNodes != [] {
      var front := quantifierNodes[..|quantifierNodes| - 1];
      FilteredMembership(front, constraintNodes, areNodesEqual, satisfied, n);
      assert quantifierNodes == front + [quantifierNodes[|quantifierNodes| - 1]];
    }
  }

  /** Consequently no node is both satisfied and violated. */
  lemma PartitionIsDisjoint(quantifierNodes: seq<SgNode>, constraintNodes: seq<SgNode>,
                            areNodesEqual: (SgNode, SgNode) -> bool, n: SgNode)
    ensures var p := Classify(quantifierNodes, constraintNodes, areNodesEqual);
      !(n in p.satisfiedNodes && n in p.violatedNodes)
  {
    FilteredMembership(quantifierNodes, constraintNodes, areNodesEqual, true, n);
    FilteredMembership(quantifierNodes, constraintNodes, areNodesEqual, false, n);
  }

  /** `sub` sits inside `s` at the strictly increasing positions `idx`. */
  ghost predicate EmbeddedAt(sub: seq<SgNode>, s: seq<SgNode>, idx: seq<nat>)
  {
    && |idx| == |sub|
    && (forall j :: 0 <= j < |idx| ==> idx[j] < |s| && sub[j] == s[idx[j]])
    && (forall j, k :: 0 <= j < k < |idx| ==> idx[j] < idx[k])
  }

  /** The positions of the quantifier nodes whose satisfaction is `satisfied`. */
  ghost function FilteredPositions(quantifierNodes: seq<SgNode>, constraintNodes: seq<SgNode>,
                                   areNodesEqual: (SgNode, SgNode) -> bool, satisfied: bool): seq<nat>
    decreases |quantifierNodes|
  {
    if quantifierNodes == [] then []
    else
      var n := |quantifierNodes| - 1;
      var front := FilteredPositions(quantifierNodes[..n], constraintNodes, areNodesEqual, satisfied);
      if IsSatisfied(quantifierNodes[n], constraintNodes, areNodesEqual) == satisfied then front + [n] else front
  }

  /** Both lists keep the relative order of `quantifierNodes`: each is embedded
      in it at strictly increasing positions. */
  lemma {:induction false} FilteredKeepsOrder(quantifierNodes: seq<SgNode>, constraintNodes: seq<SgNode>,
                                              areNodesEqual: (SgNode, SgNode) -> bool, satisfied: bool)
    ensures EmbeddedAt(Filtered(quantifierNodes, constraintNodes, areNodesEqual, satisfied), quantifierNodes,
                       FilteredPositions(quantifierNodes, constraintNodes, areNodesEqual, satisfied))
    ensures forall j :: 0 <= j < |FilteredPositions(quantifierNodes, constraintNodes, areNodesEqual, satisfied)| ==>
              FilteredPositions(quantifierNodes, constraintNodes, areNodesEqual, satisfied)[j] < |quantifierNodes|
  {
    if quantifierNodes != [] {
      var n := |quantifierNodes| - 1;
      var front := quantifierNodes[..n];
      FilteredKeepsOrder(front, constraintNodes, areNodesEqual, satisfied);
    }
  }

  /** With no constraint nodes every quantifier node is violated. */
  lemma {:induction false} NoConstraintsAllViolated(quantifierNodes: seq<SgNode>, areNodesEqual: (SgNode, SgNode) -> bool)
    ensures Classify(quantifierNodes, [], areNodesEqual) == NodePartition([], quantifierNodes)
  {
    if quantifierNodes != [] {
      var front := quantifierNodes[..|quantifierNodes| - 1];
      NoConstraintsAllViolated(front, areNodesEqual);
      assert quantifierNodes == front + [quantifierNodes[|quantifierNodes| - 1]];
    }
  }

  /** With no quantifier nodes both lists are empty. */
  lemma NoQuantifiersNothingToReport(constraintNodes: seq<SgNode>, areNodesEqual: (SgNode, SgNode) -> bool)
    ensures Classify([], constraintNodes, areNodesEqual) == NodePartition([], [])
  {
  }

  // ---------------------------------------------------------------------------
  // The whole evaluation of one rule on one source

  /** Runs both patterns on `source`, classifies the quantifier matches and turns
      each node of either list into its snippet. */
  method GetSatifiedAndViolatedResults(quantifierRule: NapiConfig, constraintRule: NapiConfig, source: string,
                                       lang: Lang, provider: MatchProvider, areNodesEqual: (SgNode, SgNode) -> bool)
    returns (r: SatisfiedAndViolatedSnippets)
    ensures var quantifierNodes := ExecuteRuleOnSource(quantifierRule, source, lang, provider);
            var constraintNodes := ExecuteRuleOnSource(constraintRule, source, lang, provider);
            var p := Classify(quantifierNodes, constraintNodes, areNodesEqual);
      && |r.satisfiedSnippets| == |p.satisfiedNodes|
      && |r.violatedSnippets| == |p.violatedNodes|
      && (forall i :: 0 <= i < |p.satisfiedNodes| ==> r.satisfiedSnippets[i] == GetSnippetFromSgNode(p.satisfiedNodes[i]))
      && (forall i :: 0 <= i < |p.violatedNodes| ==> r.violatedSnippets[i] == GetSnippetFromSgNode(p.violatedNodes[i]))
      && |r.satisfiedSnippets| + |r.violatedSnippets| == |quantifierNodes|
    ensures source == "" ==> r == SatisfiedAndViolatedSnippets([], [])
  {
    var quantifierNodes := ExecuteRuleOnSource(quantifierRule, source, lang, provider);
    var constraintNodes := ExecuteRuleOnSource(constraintRule, source, lang, provider);
    var sgNodesObject, _ := GetSatisfiedAndViolatedNodes(quantifierNodes, constraintNodes, areNodesEqual);
    PartitionIsComplete(quantifierNodes, constraintNodes, areNodesEqual);
    var satisfiedSnippets := SnippetsOf(sgNodesObject.satisfiedNodes);
    var violatedSnippets := SnippetsOf(sgNodesObject.violatedNodes);
    r := SatisfiedAndViolatedSnippets(satisfiedSnippets, violatedSnippets);
  }

  /** Two quantifier matches, one of which a constraint match coincides with,
      give one satisfied and one violated node, when the comparison is
      equality of the whole node. */
  lemma OneOfTwoSatisfied(a: SgNode, b: SgNode, areNodesEqual: (SgNode, SgNode) -> bool)
    requires a != b
    requires forall x, y :: areNodesEqual(x, y) <==> x == y
    ensures Classify([a, b], [a], areNodesEqual) == NodePartition([a], [b])
  {
    assert [a, b][..1] == [a];
    assert a in [a] && areNodesEqual(a, a);
    assert IsSatisfied(a, [a], areNodesEqual);
    assert !IsSatisfied(b, [a], areNodesEqual);
    assert [a][..0] == [];
    assert Filtered([a], [a], areNodesEqual, true) == [a];
    assert Filtered([a], [a], areNodesEqual, false) == [];
  }
}
