/** The records shared by the rule processor (src/core/ruleProcessor/types.ts). */
module RuleTypes {
  import opened Wrappers

  /** A `{start, end}` pair of one of a snippet's three ranges. */
  datatype Span = Span(start: nat, end: nat)

  /** One matched region: its text and its line, column and offset ranges. */
  datatype Snippet = Snippet(snippet: string, lines: Span, columns: Span, offsets: Span)

  /** The per-file result record as the type file declares it. */
  datatype ResultObject = ResultObject(relativeFilePath: string, snippets: seq<Snippet>)

  /** The rule configuration handed to the structural matcher; opaque here. */
  datatype NapiConfig = NapiConfig(config: string)

  /** A rule of the rule table. */
  datatype Rule = Rule(
    index: string,
    title: string,
    description: string,
    tags: seq<string>,
    rule: NapiConfig,
    filesAndFolders: Option<seq<string>>,
    results: Option<seq<seq<ResultObject>>>)
}
