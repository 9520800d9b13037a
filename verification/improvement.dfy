/**
  improveResponse: the rules of a verdict, in order, each rewriting the text
  the previous ones produced; within a rule, its suggestion pairs in order.
*/
module Improvement {
  import opened Evaluation
  import opened Matching

  /** The rule carries data, and that data carries a list of suggestion pairs. */
  predicate HasSuggestions(rule: Rule)
    ensures rule.data.None? ==> !HasSuggestions(rule)
    ensures rule.data.Some? && rule.data.value.suggestions.None? ==> !HasSuggestions(rule)
  {
    rule.data.Some? && rule.data.value.suggestions.Some?
  }

  /** The pairs a rule contributes; none when it carries no suggestions. */
  function Suggestions(rule: Rule): (pairs: seq<SuggestionPair>)
    ensures pairs != [] ==> HasSuggestions(rule)
  {
    if HasSuggestions(rule) then rule.data.value.suggestions.value else []
  }

  predicate LiteralPairs(pairs: seq<SuggestionPair>)
  {
    forall i :: 0 <= i < |pairs| ==> AllLiteral(pairs[i].sourceWords)
  }

  /** Every term the rules would join into a pattern is literal. */
  predicate LiteralRules(rules: seq<Rule>)
  {
    forall i :: 0 <= i < |rules| ==> LiteralPairs(Suggestions(rules[i]))
  }

  /** The pairs applied one after the other, each to the text the previous one produced. */
  function ApplyPairs(pairs: seq<SuggestionPair>, st: Rewritten, random: nat -> Fraction): (r: Rewritten)
    requires LiteralPairs(pairs)
    ensures r.next >= st.next
    decreases |pairs|
  {
    if pairs == [] then st
    else ApplyPairs(pairs[1..], ReplaceAll(st, pairs[0], random), random)
  }

  /** The rules applied one after the other. */
  function Improve(rules: seq<Rule>, st: Rewritten, random: nat -> Fraction): (r: Rewritten)
    requires LiteralRules(rules)
    ensures r.next >= st.next
    decreases |rules|
  {
    if rules == [] then st
    else Improve(rules[1..], ApplyPairs(Suggestions(rules[0]), st, random), random)
  }

  /** All suggestion pairs of the rules, in the order the rules give them. */
  function AllPairs(rules: seq<Rule>): seq<SuggestionPair>
    decreases |rules|
  {
    if rules == [] then [] else Suggestions(rules[0]) + AllPairs(rules[1..])
  }

  /**
    The source's loop: `improvedMessage` is reassigned once per suggestion pair,
    and every replacement draws the next random number.
  */
  method ImproveResponse(rules: seq<Rule>, serverMessage: string, random: nat -> Fraction)
    returns (improvedMessage: string)
    requires LiteralRules(rules)
    ensures improvedMessage == Improve(rules, Rewritten(serverMessage, 0), random).text
  {
    improvedMessage := serverMessage;
    var draws := 0;
    for i := 0 to |rules|
      invariant Improve(rules[i..], Rewritten(improvedMessage, draws), random)
             == Improve(rules, Rewritten(serverMessage, 0), random)
    {
      var rule := rules[i];
      assert rules[i..][0] == rule && rules[i..][1..] == rules[i + 1..];
      assert LiteralPairs(Suggestions(rule));
      if rule.data.Some? && rule.data.value.suggestions.Some? {
        var suggestions := rule.data.value.suggestions.value;
        for j := 0 to |suggestions|
          invariant Improve(rules[i + 1..], ApplyPairs(suggestions[j..], Rewritten(improvedMessage, draws), random), random)
                 == Improve(rules, Rewritten(serverMessage, 0), random)
        {
          assert suggestions[j..][0] == suggestions[j] && suggestions[j..][1..] == suggestions[j + 1..];
          var replaced := ReplaceAll(Rewritten(improvedMessage, draws), suggestions[j], random);
          improvedMessage, draws := replaced.text, replaced.next;
        }
      }
    }
  }

  // ---------------------------------------------------------------------------
  // Properties
  // ---------------------------------------------------------------------------

  lemma {:induction false} ApplyPairsAppend(a: seq<SuggestionPair>, b: seq<SuggestionPair>, st: Rewritten, random: nat -> Fraction)
    requires LiteralPairs(a) && LiteralPairs(b)
    ensures LiteralPairs(a + b)
    ensures ApplyPairs(a + b, st, random) == ApplyPairs(b, ApplyPairs(a, st, random), random)
    decreases |a|
  {
    forall i | 0 <= i < |a + b|
      ensures AllLiteral((a + b)[i].sourceWords)
    {
      if i >= |a| {
        assert (a + b)[i] == b[i - |a|];
      }
    }
    if a != [] {
      assert (a + b)[0] == a[0] && (a + b)[1..] == a[1..] + b;
      var next := ReplaceAll(st, a[0], random);
      ApplyPairsAppend(a[1..], b, next, random);
    } else {
      assert a + b == b;
    }
  }

  /**
    Improving equals applying every suggestion pair of every rule, in list
    order, each to the text produced so far.
  */
  lemma {:induction false} ImproveIsPairComposition(rules: seq<Rule>, st: Rewritten, random: nat -> Fraction)
    requires LiteralRules(rules)
    ensures LiteralPairs(AllPairs(rules))
    ensures Improve(rules, st, random) == ApplyPairs(AllPairs(rules), st, random)
    decreases |rules|
  {
    if rules != [] {
      assert LiteralPairs(Suggestions(rules[0]));
      ImproveIsPairComposition(rules[1..], ApplyPairs(Suggestions(rules[0]), st, random), random);
      ApplyPairsAppend(Suggestions(rules[0]), AllPairs(rules[1..]), st, random);
    }
  }

  /** Later rules rewrite what earlier rules produced. */
  lemma {:induction false} ImproveAppend(first: seq<Rule>, second: seq<Rule>, st: Rewritten, random: nat -> Fraction)
    requires LiteralRules(first) && LiteralRules(second)
    ensures LiteralRules(first + second)
    ensures Improve(first + second, st, random) == Improve(second, Improve(first, st, random), random)
    decreases |first|
  {
    forall i | 0 <= i < |first + second|
      ensures LiteralPairs(Suggestions((first + second)[i]))
    {
      if i >= |first| {
        assert (first + second)[i] == second[i - |first|];
      }
    }
    if first != [] {
      assert (first + second)[0] == first[0] && (first + second)[1..] == first[1..] + second;
      ImproveAppend(first[1..], second, ApplyPairs(Suggestions(first[0]), st, random), random);
    } else {
      assert first + second == second;
    }
  }

  /** Rules without suggestions are skipped: with no suggestion-bearing rule the text comes back unchanged. */
  lemma {:induction false} ImproveWithoutSuggestions(rules: seq<Rule>, st: Rewritten, random: nat -> Fraction)
    requires forall i :: 0 <= i < |rules| ==> !HasSuggestions(rules[i])
    ensures LiteralRules(rules)
    ensures Improve(rules, st, random) == st
    decreases |rules|
  {
    if rules != [] {
      ImproveWithoutSuggestions(rules[1..], st, random);
    }
  }
}
