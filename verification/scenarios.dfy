/**
  Concrete requests and rewrites: rules chaining their rewrites, and the
  outcomes of the endpoint for the usual evaluator answers.
*/
module Scenarios {
  import opened Wrappers
  import opened Evaluation
  import opened Matching
  import opened Improvement
  import opened Chatbot

  /** A term whose first letter differs from the character at `i` does not occur at `i`. */
  lemma FirstCharDiffers(text: string, i: nat, term: string)
    requires i + |term| <= |text| && |term| > 0
    requires Canonicalize(text[i]) != Canonicalize(term[0])
    ensures !MatchesAt(text, i, term)
  {
  }

  /** Every character of `s` kept. */
  function KeepAll(s: string): seq<Piece>
  {
    if s == [] then [] else [Kept(s[0])] + KeepAll(s[1..])
  }

  /** A text whose only occurrence of `term` is its last word. */
  lemma {:induction false} ScanLastWord(text: string, term: string, i: nat, n: nat)
    requires i <= n && n + |term| == |text| && |term| > 0
    requires MatchesAt(text, n, term)
    requires forall p :: i <= p < n ==> Canonicalize(text[p]) != Canonicalize(term[0])
    ensures ScanFrom(text, [term], i) == KeepAll(text[i..n]) + [Matched(text[n..])]
    decreases n - i
  {
    if i == n {
      assert FirstMatch(text, n, [term]) == Some(0);
      assert FirstMatch(text, |text|, [term]) == None;
      assert ScanFrom(text, [term], |text|) == [];
      assert text[n..n + |term|] == text[n..];
      assert KeepAll(text[i..n]) == [];
    } else {
      FirstCharDiffers(text, i, term);
      ScanLastWord(text, term, i + 1, n);
      assert text[i..n][1..] == text[i + 1..n];
    }
  }

  lemma {:induction false} RenderKeepAll(s: string, w: string, rep: string, random: nat -> Fraction, k: nat)
    ensures Render(KeepAll(s) + [Matched(w)], [rep], random, k) == Rewritten(s + rep, k + 1)
    decreases |s|
  {
    if s == [] {
      assert Pick(random(k), 1) == 0;
    } else {
      RenderKeepAll(s[1..], w, rep, random, k);
      assert (KeepAll(s) + [Matched(w)])[1..] == KeepAll(s[1..]) + [Matched(w)];
      assert s == [s[0]] + s[1..];
    }
  }

  /** Two rules of one pair each: the second pair rewrites the first one's result. */
  lemma ImproveOnePairEach(a: Rule, b: Rule, pa: SuggestionPair, pb: SuggestionPair, st: Rewritten, random: nat -> Fraction)
    requires Suggestions(a) == [pa] && Suggestions(b) == [pb]
    requires AllLiteral(pa.sourceWords) && AllLiteral(pb.sourceWords)
    ensures LiteralRules([a, b])
    ensures Improve([a, b], st, random) == ReplaceAll(ReplaceAll(st, pa, random), pb, random)
  {
    assert [a, b][1..] == [b];
    var st1 := ReplaceAll(st, pa, random);
    assert [pa][1..] == [] && [pb][1..] == [];
    assert ApplyPairs([pa], st, random) == st1;
    assert Improve([a, b], st, random) == Improve([b], st1, random);
    var st2 := ReplaceAll(st1, pb, random);
    assert ApplyPairs([pb], st1, random) == st2;
    assert Improve([b], st1, random) == Improve([], st2, random);
  }

  /** Replacing the last word of a text that has no other occurrence of it. */
  lemma ReplaceLastWord(prefix: string, word: string, term: string, rep: string, random: nat -> Fraction, k: nat)
    requires |term| > 0 && AllLiteral([term]) && EqualIgnoringCase(word, term)
    requires forall p :: 0 <= p < |prefix| ==> Canonicalize(prefix[p]) != Canonicalize(term[0])
    ensures ReplaceAll(Rewritten(prefix + word, k), SuggestionPair([term], [rep]), random) == Rewritten(prefix + rep, k + 1)
  {
    var text := prefix + word;
    assert text[|prefix|..|text|] == word;
    assert text[0..|prefix|] == prefix;
    ScanLastWord(text, term, 0, |prefix|);
    RenderKeepAll(prefix, word, rep, random, k);
  }

  lemma NoCOrD(prefix: string)
    requires prefix == "I have a "
    ensures forall p :: 0 <= p < |prefix| ==> Canonicalize(prefix[p]) != 'C' && Canonicalize(prefix[p]) != 'D'
  {
  }

  /** Rule b alone finds no "dog" in "I have a Cat" and leaves it as it is. */
  lemma DogPairAloneKeepsDraft(draft: string, st: Rewritten, random: nat -> Fraction)
    requires draft == "I have a Cat" && st.text == draft
    ensures AllLiteral(["dog"])
    ensures ReplaceAll(st, SuggestionPair(["dog"], ["fish"]), random) == st
  {
    assert forall p :: 0 <= p < |draft| ==> Canonicalize(draft[p]) != 'D';
    forall i | 0 <= i <= |draft|
      ensures !MatchesAt(draft, i, "dog")
    {
      if i + 3 <= |draft| {
        FirstCharDiffers(draft, i, "dog");
      }
    }
    ReplaceAllWithoutOccurrence(st, SuggestionPair(["dog"], ["fish"]), random);
  }

  /**
    Rule a turns "cat" into "dog" and rule b "dog" into "fish": applied in
    order to "I have a Cat" they give "I have a fish", which applying both to
    the original text independently could not.
  */
  lemma RulesChain(rules: seq<Rule>, draft: string, random: nat -> Fraction)
    requires rules == [Rule("a", Some(RuleData(Some([SuggestionPair(["cat"], ["dog"])])))),
                       Rule("b", Some(RuleData(Some([SuggestionPair(["dog"], ["fish"])]))))]
    requires draft == "I have a Cat"
    ensures LiteralRules(rules)
    ensures Improve(rules, Rewritten(draft, 0), random).text == "I have a fish"
  {
    var prefix := "I have a ";
    var catPair, dogPair := SuggestionPair(["cat"], ["dog"]), SuggestionPair(["dog"], ["fish"]);
    NoCOrD(prefix);
    assert EqualIgnoringCase("Cat", "cat") && EqualIgnoringCase("dog", "dog");
    var st0 := Rewritten(prefix + "Cat", 0);
    assert st0 == Rewritten(draft, 0);
    ReplaceLastWord(prefix, "Cat", "cat", "dog", random, 0);
    var st1 := ReplaceAll(st0, catPair, random);
    assert st1 == Rewritten(prefix + "dog", 1);
    ReplaceLastWord(prefix, "dog", "dog", "fish", random, 1);
    var st2 := ReplaceAll(st1, dogPair, random);
    assert st2.text == prefix + "fish" == "I have a fish";
    ImproveOnePairEach(rules[0], rules[1], catPair, dogPair, st0, random);
    assert rules == [rules[0], rules[1]];
  }

  /** The evaluator's answer `{"scores":{"overall":40},"rules":[]}` is a rejection. */
  lemma LowScoreIsRejected(message: string, getResponse: string -> string,
                           evaluate: (string, string) -> Result<Verdict, EvaluationError>,
                           random: nat -> Fraction)
    requires message != ""
    requires evaluate(message, getResponse(message)) == Success(Verdict(40.0, []))
    ensures LiteralVerdict(Some(message), getResponse, evaluate)
    ensures HandleChatbot(Some(message), getResponse, evaluate, random) == Reply(400, ErrorBody(QualityRejected))
  {
  }

  /** The answer `{"scores":{"overall":90},"rules":[]}` returns the draft as it is. */
  lemma CleanVerdictReturnsDraft(message: string, getResponse: string -> string,
                                 evaluate: (string, string) -> Result<Verdict, EvaluationError>,
                                 random: nat -> Fraction)
    requires message != ""
    requires evaluate(message, getResponse(message)) == Success(Verdict(90.0, []))
    ensures LiteralVerdict(Some(message), getResponse, evaluate)
    ensures HandleChatbot(Some(message), getResponse, evaluate, random) == Reply(200, MessageBody(getResponse(message)))
  {
  }

  /** A high score with a critical rule triggered is still a rejection. */
  lemma CriticalRuleIsRejected(message: string, getResponse: string -> string,
                               evaluate: (string, string) -> Result<Verdict, EvaluationError>,
                               random: nat -> Fraction)
    requires message != ""
    requires evaluate(message, getResponse(message)) == Success(Verdict(95.0, [Rule("cm0bnf3xa0001xoj412d0r198", None)]))
    ensures LiteralVerdict(Some(message), getResponse, evaluate)
    ensures HandleChatbot(Some(message), getResponse, evaluate, random) == Reply(400, ErrorBody(QualityRejected))
  {
  }
}
