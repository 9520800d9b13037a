/**
  One suggestion pair applied to a text. The source words, joined with `|`,
  form a global case-insensitive pattern; every occurrence of it is replaced
  by a replacement picked at random.
  The pattern is an alternation of literal terms; matching is global (every
  occurrence, scanning left to right) and ignores ASCII case; at one position
  the first term of the list that matches wins. The callback's result is
  inserted as it is, and the callback draws one random number per occurrence.
*/
module Matching {
  import opened Wrappers
  import opened Evaluation

  // ---------------------------------------------------------------------------
  // Terms and case-insensitive comparison
  // ---------------------------------------------------------------------------

  /** The SyntaxCharacter set of ECMAScript regular expressions. */
  const SyntaxCharacters: set<char> :=
    {'^', '$', '\\', '.', '*', '+', '?', '(', ')', '[', ']', '{', '}', '|'}

  /** A term that stands for itself when it is joined into a pattern. */
  predicate IsLiteral(term: string)
  {
    forall i :: 0 <= i < |term| ==> term[i] !in SyntaxCharacters
  }

  predicate AllLiteral(terms: seq<string>)
  {
    forall i :: 0 <= i < |terms| ==> IsLiteral(terms[i])
  }

  /** The alternatives of the terms joined with `|`: an empty list joins to the empty pattern. */
  function Alternatives(terms: seq<string>): seq<string>
  {
    if terms == [] then [""] else terms
  }

  /** Canonicalize of a non-Unicode case-insensitive pattern, on ASCII letters. */
  function Canonicalize(c: char): (d: char)
    ensures !('a' <= d <= 'z')
    ensures 'A' <= d <= 'Z' <==> 'A' <= c <= 'Z' || 'a' <= c <= 'z'
    ensures !('a' <= c <= 'z') ==> d == c
    ensures 'a' <= c <= 'z' ==> d as int == c as int - ('a' as int - 'A' as int)
  {
    if 'a' <= c <= 'z' then (c as int - 32) as char else c
  }

  /** `a` and `b` are the same text up to the case of ASCII letters. */
  predicate EqualIgnoringCase(a: string, b: string)
    ensures a == b ==> EqualIgnoringCase(a, b)
    ensures EqualIgnoringCase(a, b) ==> |a| == |b|
  {
    |a| == |b| && forall j :: 0 <= j < |a| ==> Canonicalize(a[j]) == Canonicalize(b[j])
  }

  /** `term` occurs at position `i` of `text`, ignoring case. */
  predicate MatchesAt(text: string, i: nat, term: string)
  {
    i + |term| <= |text| && EqualIgnoringCase(text[i..i + |term|], term)
  }

  /** `term` occurs anywhere in `text`, ignoring case. */
  predicate Occurs(text: string, term: string)
  {
    exists i :: 0 <= i <= |text| && MatchesAt(text, i, term)
  }

  /** The alternative the pattern takes at position `i`: the first one in the list that matches. */
  function FirstMatch(text: string, i: nat, alts: seq<string>): (r: Option<nat>)
    ensures r.Some? ==> r.value < |alts| && i + |alts[r.value]| <= |text|
    decreases |alts|
  {
    if alts == [] then None
    else if MatchesAt(text, i, alts[0]) then Some(0)
    else
      match FirstMatch(text, i, alts[1..])
      case Some(t) => Some(t + 1)
      case None => None
  }

  /**
    Alternation order: the alternative taken matches, no earlier one does, and
    when none is taken none matches.
  */
  lemma {:induction false} FirstMatchIsFirst(text: string, i: nat, alts: seq<string>)
    ensures var r := FirstMatch(text, i, alts);
      && (r.Some? ==> MatchesAt(text, i, alts[r.value]) &&
                      forall t :: 0 <= t < r.value ==> !MatchesAt(text, i, alts[t]))
      && (r.None? ==> forall t :: 0 <= t < |alts| ==> !MatchesAt(text, i, alts[t]))
    decreases |alts|
  {
    if alts != [] && !MatchesAt(text, i, alts[0]) {
      FirstMatchIsFirst(text, i, alts[1..]);
      assert forall t :: 1 <= t < |alts| ==> alts[t] == alts[1..][t - 1];
    }
  }

  // ---------------------------------------------------------------------------
  // Scanning: the text cut into kept characters and matched occurrences
  // ---------------------------------------------------------------------------

  datatype Piece = Kept(c: char) | Matched(src: string)

  /** The text a list of pieces was cut from. */
  function Source(ps: seq<Piece>): string
  {
    if ps == [] then []
    else (match ps[0] case Kept(c) => [c] case Matched(s) => s) + Source(ps[1..])
  }

  function MatchCount(ps: seq<Piece>): nat
  {
    if ps == [] then 0 else (if ps[0].Matched? then 1 else 0) + MatchCount(ps[1..])
  }

  /**
    The global search from position `i`. After an occurrence the search goes on
    where it ended; after an empty occurrence the next character is kept and the
    search goes on after it, and an empty alternative also matches at the end.
  */
  function ScanFrom(text: string, alts: seq<string>, i: nat): (ps: seq<Piece>)
    requires i <= |text|
    decreases |text| - i
  {
    match FirstMatch(text, i, alts)
    case Some(t) =>
      var n := |alts[t]|;
      if n > 0 then [Matched(text[i..i + n])] + ScanFrom(text, alts, i + n)
      else if i < |text| then [Matched(""), Kept(text[i])] + ScanFrom(text, alts, i + 1)
      else [Matched("")]
    case None =>
      if i < |text| then [Kept(text[i])] + ScanFrom(text, alts, i + 1) else []
  }

  /** The text cut by the pattern of `terms`; the pieces concatenate back to the text. */
  function Scan(text: string, terms: seq<string>): (ps: seq<Piece>)
    ensures Source(ps) == text
  {
    ScanFromCovers(text, Alternatives(terms), 0);
    ScanFrom(text, Alternatives(terms), 0)
  }

  // ---------------------------------------------------------------------------
  // Rendering: the replacement callback
  // ---------------------------------------------------------------------------

  /** A value of Math.random(). */
  type Fraction = u: real | 0.0 <= u < 1.0

  /** The integer part of `u * n`: an index below `n` when there is one. */
  function Pick(u: Fraction, n: nat): (j: nat)
    ensures n > 0 ==> j < n
    ensures n == 0 ==> j == 0
  {
    var x := u * n as real;
    assert 0.0 <= x && (n > 0 ==> x < n as real);
    x.Floor
  }

  /**
    What the callback returns for the draw `u`; indexing past the end of an
    empty list gives `undefined`, which `replace` turns into that word.
  */
  function Replacement(reps: seq<string>, u: Fraction): (r: string)
    ensures r in Candidates(reps)
  {
    var j := Pick(u, |reps|);
    if j < |reps| then reps[j] else "undefined"
  }

  /** The replacements the callback can return. */
  function Candidates(reps: seq<string>): seq<string>
  {
    if reps == [] then ["undefined"] else reps
  }

  /** A text together with the index of the next unused random draw. */
  datatype Rewritten = Rewritten(text: string, next: nat)

  /** Builds the result from the pieces; the k-th draw serves the occurrence it reaches first. */
  function Render(ps: seq<Piece>, reps: seq<string>, random: nat -> Fraction, k: nat): (r: Rewritten)
    ensures r.next == k + MatchCount(ps)
  {
    if ps == [] then Rewritten([], k)
    else
      match ps[0]
      case Kept(c) =>
        var rest := Render(ps[1..], reps, random, k);
        Rewritten([c] + rest.text, rest.next)
      case Matched(_) =>
        var rest := Render(ps[1..], reps, random, k + 1);
        Rewritten(Replacement(reps, random(k)) + rest.text, rest.next)
  }

  /** The result of one `replace` call, starting at draw `st.next`: one draw per occurrence. */
  function ReplaceAll(st: Rewritten, pair: SuggestionPair, random: nat -> Fraction): (r: Rewritten)
    requires AllLiteral(pair.sourceWords)
    ensures r.next == st.next + MatchCount(Scan(st.text, pair.sourceWords))
  {
    Render(Scan(st.text, pair.sourceWords), pair.replacements, random, st.next)
  }

  /** `ps` with every kept character copied and its m-th occurrence replaced by `chosen[m]`. */
  function Fill(ps: seq<Piece>, chosen: seq<string>): string
    requires |chosen| == MatchCount(ps)
    decreases |ps|
  {
    if ps == [] then []
    else match ps[0]
      case Kept(c) => [c] + Fill(ps[1..], chosen)
      case Matched(_) => chosen[0] + Fill(ps[1..], chosen[1..])
  }

  /** What the callback returns for the `count` draws that start with draw `k`, in order. */
  function Draws(reps: seq<string>, random: nat -> Fraction, k: nat, count: nat): seq<string>
  {
    seq(count, (m: nat) => Replacement(reps, random(k + m)))
  }

  /**
    `out` is `ps` with every kept character copied and every occurrence
    replaced by one element of `reps`.
  */
  ghost predicate Instantiates(ps: seq<Piece>, out: string, reps: seq<string>)
    decreases |ps|
  {
    if ps == [] then out == []
    else match ps[0]
      case Kept(c) => |out| > 0 && out[0] == c && Instantiates(ps[1..], out[1..], reps)
      case Matched(_) =>
        exists j :: 0 <= j < |reps| && reps[j] <= out && Instantiates(ps[1..], out[|reps[j]|..], reps)
  }

  // ---------------------------------------------------------------------------
  // Properties
  // ---------------------------------------------------------------------------

  /** Each draw `u` picks index j exactly when u lies in [j/n, (j+1)/n): every index is equally likely. */
  lemma PickIsUniform(u: Fraction, n: nat, j: nat)
    requires j < n
    ensures Pick(u, n) == j <==> j as real / n as real <= u < (j + 1) as real / n as real
  {
    var x := u * n as real;
    assert j as real <= x <==> j as real / n as real <= u;
    assert x < (j + 1) as real <==> u < (j + 1) as real / n as real;
  }

  lemma {:induction false} RenderInstantiates(ps: seq<Piece>, reps: seq<string>, random: nat -> Fraction, k: nat)
    ensures Instantiates(ps, Render(ps, reps, random, k).text, Candidates(reps))
    decreases |ps|
  {
    if ps != [] {
      var out := Render(ps, reps, random, k).text;
      match ps[0]
      case Kept(c) =>
        RenderInstantiates(ps[1..], reps, random, k);
        assert out[1..] == Render(ps[1..], reps, random, k).text;
      case Matched(_) =>
        var rest := Render(ps[1..], reps, random, k + 1);
        RenderInstantiates(ps[1..], reps, random, k + 1);
        var r := Replacement(reps, random(k));
        var j :| 0 <= j < |Candidates(reps)| && Candidates(reps)[j] == r;
        assert out == r + rest.text;
        assert out[|r|..] == rest.text;
    }
  }

  /** Occurrences are served by consecutive draws in text order: the m-th one by draw `k + m`. */
  lemma {:induction false} RenderFillsDraws(ps: seq<Piece>, reps: seq<string>, random: nat -> Fraction, k: nat)
    ensures Render(ps, reps, random, k).text == Fill(ps, Draws(reps, random, k, MatchCount(ps)))
    decreases |ps|
  {
    if ps != [] {
      var count := MatchCount(ps);
      match ps[0]
      case Kept(_) =>
        RenderFillsDraws(ps[1..], reps, random, k);
      case Matched(_) =>
        RenderFillsDraws(ps[1..], reps, random, k + 1);
        assert Draws(reps, random, k, count)[1..] == Draws(reps, random, k + 1, count - 1);
    }
  }

  /** Without occurrences, rendering copies the text and draws nothing. */
  lemma {:induction false} RenderWithoutMatches(ps: seq<Piece>, reps: seq<string>, random: nat -> Fraction, k: nat)
    requires MatchCount(ps) == 0
    ensures Render(ps, reps, random, k) == Rewritten(Source(ps), k)
    decreases |ps|
  {
    if ps != [] {
      RenderWithoutMatches(ps[1..], reps, random, k);
    }
  }

  lemma {:induction false} ScanFromWithoutOccurrence(text: string, alts: seq<string>, i: nat)
    requires i <= |text|
    requires forall j, t :: i <= j <= |text| && 0 <= t < |alts| ==> !MatchesAt(text, j, alts[t])
    ensures MatchCount(ScanFrom(text, alts, i)) == 0
    decreases |text| - i
  {
    FirstMatchIsFirst(text, i, alts);
    if i < |text| {
      ScanFromWithoutOccurrence(text, alts, i + 1);
    }
  }

  /** If some alternative matches at or after `i`, the search from `i` finds an occurrence. */
  lemma {:induction false} ScanFromFindsOccurrence(text: string, alts: seq<string>, i: nat, j: nat, t: nat)
    requires i <= j <= |text| && t < |alts|
    requires MatchesAt(text, j, alts[t])
    ensures MatchCount(ScanFrom(text, alts, i)) > 0
    decreases j - i
  {
    FirstMatchIsFirst(text, i, alts);
    if FirstMatch(text, i, alts).None? {
      ScanFromFindsOccurrence(text, alts, i + 1, j, t);
    }
  }

  lemma {:induction false} SourceAppend(a: seq<Piece>, b: seq<Piece>)
    ensures Source(a + b) == Source(a) + Source(b)
    decreases |a|
  {
    if a == [] {
      assert a + b == b;
    } else {
      assert (a + b)[0] == a[0] && (a + b)[1..] == a[1..] + b;
      SourceAppend(a[1..], b);
    }
  }

  /**
    What the search did at piece `q` of `ps` (a scan from `i`), whose offset in
    the text is `o`: an occurrence is the text under the first alternative that
    matches at `o`; a kept character is the text's character at `o`, and no
    alternative matches at `o` unless an empty occurrence was just found there.
  */
  ghost predicate ScannedAt(text: string, alts: seq<string>, ps: seq<Piece>, i: nat, q: nat)
    requires q < |ps|
  {
    var o := i + |Source(ps[..q])|;
    match ps[q]
    case Matched(s) =>
      var m := FirstMatch(text, o, alts);
      m.Some? && s == text[o..o + |alts[m.value]|]
    case Kept(c) =>
      o < |text| && c == text[o] &&
      ((q == 0 || ps[q - 1] != Matched("")) ==> FirstMatch(text, o, alts).None?)
  }

  /** A piece scanned from `next` keeps its meaning behind pieces that cover `text[i..next]`. */
  lemma ScannedAtShift(text: string, alts: seq<string>, head: seq<Piece>, rest: seq<Piece>, i: nat, next: nat, q: nat)
    requires |head| <= q < |head| + |rest|
    requires i + |Source(head)| == next
    requires ScannedAt(text, alts, rest, next, q - |head|)
    ensures ScannedAt(text, alts, head + rest, i, q)
  {
    var ps := head + rest;
    assert ps[..q] == head + rest[..q - |head|];
    SourceAppend(head, rest[..q - |head|]);
    assert ps[q] == rest[q - |head|];
    if q > |head| {
      assert ps[q - 1] == rest[q - |head| - 1];
    }
  }

  /**
    One step of the search from `i`: the pieces it emits there (`head`), each
    what the search takes at its offset, and the position `next` it resumes at;
    `next == i` only for the empty occurrence at the end, which ends the scan.
  */
  lemma ScanFromStep(text: string, alts: seq<string>, i: nat) returns (head: seq<Piece>, next: nat)
    requires i <= |text|
    requires ScanFrom(text, alts, i) != []
    ensures i <= next <= |text| && i + |Source(head)| == next
    ensures next == i ==> ScanFrom(text, alts, i) == head
    ensures next > i ==> ScanFrom(text, alts, i) == head + ScanFrom(text, alts, next)
    ensures forall q :: 0 <= q < |head| ==> q < |ScanFrom(text, alts, i)| && ScannedAt(text, alts, ScanFrom(text, alts, i), i, q)
  {
    var ps := ScanFrom(text, alts, i);
    var m := FirstMatch(text, i, alts);
    assert ps[..0] == [];
    if m.Some? && |alts[m.value]| > 0 {
      next := i + |alts[m.value]|;
      head := [Matched(text[i..next])];
      assert ps == head + ScanFrom(text, alts, next);
      assert Source(head[1..]) == [];
    } else if m.Some? && i < |text| {
      head, next := [Matched(""), Kept(text[i])], i + 1;
      assert ps == head + ScanFrom(text, alts, next);
      assert ps[..1] == [Matched("")];
      assert Source(head[1..][1..]) == [];
    } else if m.Some? {
      head, next := [Matched("")], i;
      assert Source(head[1..]) == [];
    } else {
      head, next := [Kept(text[i])], i + 1;
      assert ps == head + ScanFrom(text, alts, next);
      assert Source(head[1..]) == [];
    }
  }

  /** Every piece of the scan is what the leftmost-first search takes at its offset. */
  lemma {:induction false} ScanFromScannedAt(text: string, alts: seq<string>, i: nat, q: nat)
    requires i <= |text|
    requires q < |ScanFrom(text, alts, i)|
    ensures ScannedAt(text, alts, ScanFrom(text, alts, i), i, q)
    decreases |text| - i
  {
    var head, next := ScanFromStep(text, alts, i);
    if q >= |head| {
      ScanFromScannedAt(text, alts, next, q - |head|);
      ScannedAtShift(text, alts, head, ScanFrom(text, alts, next), i, next, q);
    }
  }

  /**
    One `replace` call: the pieces cover the text exactly and in order (so the
    occurrences do not overlap and come left to right), every occurrence equals
    one of the terms up to case, every occurrence is replaced by one of the
    replacements while the text between occurrences is copied, and exactly one
    random draw is spent per occurrence.
  */
  lemma ReplaceAllShape(st: Rewritten, pair: SuggestionPair, random: nat -> Fraction)
    requires AllLiteral(pair.sourceWords)
    ensures
      var alts := Alternatives(pair.sourceWords);
      var ps := Scan(st.text, pair.sourceWords);
      var r := ReplaceAll(st, pair, random);
      && Source(ps) == st.text
      && (forall q :: 0 <= q < |ps| ==> ScannedAt(st.text, alts, ps, 0, q))
      && (MatchCount(ps) > 0 <==>
            exists j, t :: 0 <= j <= |st.text| && 0 <= t < |alts| && MatchesAt(st.text, j, alts[t]))
      && (forall p :: p in ps && p.Matched? ==>
            exists t :: t in alts && EqualIgnoringCase(p.src, t))
      && r.text == Fill(ps, Draws(pair.replacements, random, st.next, MatchCount(ps)))
      && Instantiates(ps, r.text, Candidates(pair.replacements))
      && r.next == st.next + MatchCount(ps)
  {
    var alts := Alternatives(pair.sourceWords);
    var ps := Scan(st.text, pair.sourceWords);
    forall q | 0 <= q < |ps|
      ensures ScannedAt(st.text, alts, ps, 0, q)
    {
      ScanFromScannedAt(st.text, alts, 0, q);
    }
    if exists j, t :: 0 <= j <= |st.text| && 0 <= t < |alts| && MatchesAt(st.text, j, alts[t]) {
      var j, t :| 0 <= j <= |st.text| && 0 <= t < |alts| && MatchesAt(st.text, j, alts[t]);
      ScanFromFindsOccurrence(st.text, alts, 0, j, t);
    } else {
      ScanFromWithoutOccurrence(st.text, alts, 0);
    }
    ScanFromMatchesAlternatives(st.text, alts, 0);
    RenderFillsDraws(ps, pair.replacements, random, st.next);
    RenderInstantiates(ps, pair.replacements, random, st.next);
  }

  /** At most one occurrence per position of the text and one at its end: a bound on the draws. */
  lemma {:induction false} ScanFromCountBound(text: string, alts: seq<string>, i: nat)
    requires i <= |text|
    ensures MatchCount(ScanFrom(text, alts, i)) <= |text| - i + 1
    decreases |text| - i
  {
    var ps := ScanFrom(text, alts, i);
    match FirstMatch(text, i, alts)
    case Some(t) =>
      var n := |alts[t]|;
      if n > 0 {
        ScanFromCountBound(text, alts, i + n);
        assert ps[1..] == ScanFrom(text, alts, i + n);
      } else if i < |text| {
        ScanFromCountBound(text, alts, i + 1);
        assert ps[1..][1..] == ScanFrom(text, alts, i + 1);
      }
    case None =>
      if i < |text| {
        ScanFromCountBound(text, alts, i + 1);
        assert ps[1..] == ScanFrom(text, alts, i + 1);
      }
  }

  /** A pair none of whose terms occurs in the text, ignoring case, leaves it as it is. */
  lemma ReplaceAllWithoutOccurrence(st: Rewritten, pair: SuggestionPair, random: nat -> Fraction)
    requires AllLiteral(pair.sourceWords)
    requires pair.sourceWords != []
    requires forall t :: t in pair.sourceWords ==> !Occurs(st.text, t)
    ensures ReplaceAll(st, pair, random) == st
  {
    var alts := pair.sourceWords;
    forall j, t | 0 <= j <= |st.text| && 0 <= t < |alts|
      ensures !MatchesAt(st.text, j, alts[t])
    {
      assert alts[t] in alts;
    }
    ScanFromWithoutOccurrence(st.text, alts, 0);
    ScanFromCovers(st.text, alts, 0);
    RenderWithoutMatches(Scan(st.text, alts), pair.replacements, random, st.next);
  }

  /** The pieces cover the rest of the text exactly and in order: occurrences do not overlap. */
  lemma {:induction false} ScanFromCovers(text: string, alts: seq<string>, i: nat)
    requires i <= |text|
    ensures Source(ScanFrom(text, alts, i)) == text[i..]
    decreases |text| - i
  {
    var ps := ScanFrom(text, alts, i);
    var m := FirstMatch(text, i, alts);
    if m.Some? && |alts[m.value]| > 0 {
      var next := i + |alts[m.value]|;
      var head := [Matched(text[i..next])];
      ScanFromCovers(text, alts, next);
      assert ps == head + ScanFrom(text, alts, next);
      SourceAppend(head, ScanFrom(text, alts, next));
      assert text[i..next] + text[next..] == text[i..];
    } else if i < |text| {
      var head := if m.Some? then [Matched(""), Kept(text[i])] else [Kept(text[i])];
      ScanFromCovers(text, alts, i + 1);
      assert ps == head + ScanFrom(text, alts, i + 1);
      SourceAppend(head, ScanFrom(text, alts, i + 1));
      assert Source(head) == [text[i]];
      assert [text[i]] + text[i + 1..] == text[i..];
    } else if m.Some? {
      assert ps == [Matched("")];
    }
  }

  /** Every occurrence is one of the alternatives, up to case. */
  lemma {:induction false} ScanFromMatchesAlternatives(text: string, alts: seq<string>, i: nat)
    requires i <= |text|
    ensures forall p :: p in ScanFrom(text, alts, i) && p.Matched? ==>
      exists t :: t in alts && EqualIgnoringCase(p.src, t)
    decreases |text| - i
  {
    match FirstMatch(text, i, alts)
    case Some(t) =>
      var n := |alts[t]|;
      FirstMatchIsFirst(text, i, alts);
      assert alts[t] in alts;
      if n > 0 {
        ScanFromMatchesAlternatives(text, alts, i + n);
      } else if i < |text| {
        ScanFromMatchesAlternatives(text, alts, i + 1);
      }
    case None =>
      if i < |text| {
        ScanFromMatchesAlternatives(text, alts, i + 1);
      }
  }

  /** Alternatives that agree up to case are taken at the same positions. */
  lemma {:induction false} FirstMatchIgnoresCase(text: string, i: nat, alts: seq<string>, alts': seq<string>)
    requires |alts| == |alts'|
    requires forall t :: 0 <= t < |alts| ==> EqualIgnoringCase(alts[t], alts'[t])
    ensures FirstMatch(text, i, alts) == FirstMatch(text, i, alts')
    decreases |alts|
  {
    if alts != [] {
      FirstMatchIgnoresCase(text, i, alts[1..], alts'[1..]);
    }
  }

  lemma {:induction false} ScanFromIgnoresCase(text: string, alts: seq<string>, alts': seq<string>, i: nat)
    requires i <= |text|
    requires |alts| == |alts'|
    requires forall t :: 0 <= t < |alts| ==> EqualIgnoringCase(alts[t], alts'[t])
    ensures ScanFrom(text, alts, i) == ScanFrom(text, alts', i)
    decreases |text| - i
  {
    FirstMatchIgnoresCase(text, i, alts, alts');
    var m := FirstMatch(text, i, alts);
    if m.Some? && |alts[m.value]| > 0 {
      ScanFromIgnoresCase(text, alts, alts', i + |alts[m.value]|);
    } else if i < |text| {
      ScanFromIgnoresCase(text, alts, alts', i + 1);
    }
  }

  /** The case in which the terms are written does not matter. */
  lemma ReplaceAllIgnoresCaseOfTerms(st: Rewritten, pair: SuggestionPair, pair': SuggestionPair, random: nat -> Fraction)
    requires AllLiteral(pair.sourceWords) && AllLiteral(pair'.sourceWords)
    requires pair.replacements == pair'.replacements
    requires |pair.sourceWords| == |pair'.sourceWords|
    requires forall t :: 0 <= t < |pair.sourceWords| ==>
      EqualIgnoringCase(pair.sourceWords[t], pair'.sourceWords[t])
    ensures ReplaceAll(st, pair, random) == ReplaceAll(st, pair', random)
  {
    ScanFromIgnoresCase(st.text, Alternatives(pair.sourceWords), Alternatives(pair'.sourceWords), 0);
  }

  /** `r` before every character of `s` and once more at the end. */
  function Interleave(s: string, r: string): string
  {
    if s == [] then r else r + [s[0]] + Interleave(s[1..], r)
  }

  lemma {:induction false} RenderEmptyPattern(text: string, r: string, random: nat -> Fraction, i: nat, k: nat)
    requires i <= |text|
    ensures Render(ScanFrom(text, [""], i), [r], random, k) == Rewritten(Interleave(text[i..], r), k + |text| - i + 1)
    decreases |text| - i
  {
    assert MatchesAt(text, i, "");
    assert FirstMatch(text, i, [""]) == Some(0);
    assert Pick(random(k), 1) == 0;
    if i < |text| {
      RenderEmptyPattern(text, r, random, i + 1, k + 1);
      var rest := ScanFrom(text, [""], i + 1);
      assert ScanFrom(text, [""], i) == [Matched(""), Kept(text[i])] + rest;
      assert ([Matched(""), Kept(text[i])] + rest)[1..] == [Kept(text[i])] + rest;
      assert text[i..][0] == text[i] && text[i..][1..] == text[i + 1..];
    } else {
      assert ScanFrom(text, [""], i) == [Matched("")];
    }
  }

  /**
    An empty list of terms joins to the empty pattern, which matches before
    every character and at the end: the replacement is inserted there.
  */
  lemma ReplaceAllEmptyTerms(st: Rewritten, r: string, random: nat -> Fraction)
    ensures AllLiteral([])
    ensures ReplaceAll(st, SuggestionPair([], [r]), random) == Rewritten(Interleave(st.text, r), st.next + |st.text| + 1)
  {
    RenderEmptyPattern(st.text, r, random, 0, st.next);
  }
}
