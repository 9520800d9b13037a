/**
  The verdict the evaluation service returns for one (userMessage, serverMessage)
  pair: `{scores: {overall}, rules: [{id, data?: {suggestions: [[sourceWords, replacements], ...]}}]}`.
*/
module Evaluation {
  import opened Wrappers

  /** One entry of `rule.data.suggestions`: the words to look for and the words to put instead. */
  datatype SuggestionPair = SuggestionPair(sourceWords: seq<string>, replacements: seq<string>)

  /** `rule.data`; `suggestions` may be absent, in which case the rule rewrites nothing. */
  datatype RuleData = RuleData(suggestions: Option<seq<SuggestionPair>>)

  /** A triggered quality rule; `data` is absent for rules that carry no rewrite. */
  datatype Rule = Rule(id: string, data: Option<RuleData>)

  /** `scores.overall` is a JSON number, hence a real. */
  datatype Verdict = Verdict(overall: real, rules: seq<Rule>)
}
