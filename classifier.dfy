/**
  The lexicon-based tweet classifier: one left-to-right pass over the lexical
  tokens of a tweet gives lexicon words their polarity, marks the scope of a
  negator and intensifies the token after an intensifier; the tweet's sentiment
  is then the sum of the token values, bucketed by two thresholds.
 */
module Classifier {
  import opened ClassifierOptions

  /**
    A lexical token as the parser hands it over. The source's token class is not
    part of this model: its setters are modelled by the fields they set, and
    each intensification is recorded rather than combined, since how a token
    turns these into a value is decided by that class (a parameter below).
   */
  datatype LexicalToken = LexicalToken(
    phrase: string,
    atEndOfSentence: bool,
    lexicalValue: real,
    inNegatedContext: bool,
    intensifications: seq<real>)

  datatype Classification = Negative | Neutral | Positive

  /** What the pass does for a token: at most one branch, in this priority. */
  datatype Action = SetLexicalValue(value: real) | Negate | Intensify(amount: real) | Nothing

  /** The lookups the pass consults: the polarity lexicon and the option word lists. */
  datatype Settings = Settings(
    lexicon: map<string, real>,
    negators: set<string>,
    intensifiers: map<string, real>,
    negationScope: real)

  function ChooseAction(phrase: string, s: Settings): (a: Action)
    ensures a.SetLexicalValue? <==> phrase in s.lexicon
    ensures a.SetLexicalValue? ==> a.value == s.lexicon[phrase]
    ensures a.Negate? <==> phrase !in s.lexicon && phrase in s.negators
    ensures a.Intensify? <==> phrase !in s.lexicon && phrase !in s.negators && phrase in s.intensifiers
    ensures a.Intensify? ==> a.amount == s.intensifiers[phrase]
  {
    if phrase in s.lexicon then SetLexicalValue(s.lexicon[phrase])
    else if phrase in s.negators then Negate
    else if phrase in s.intensifiers then Intensify(s.intensifiers[phrase])
    else Nothing
  }

  /** The parts of the tokens the pass never touches: their number, phrases and sentence ends. */
  ghost predicate SameText(ts: seq<LexicalToken>, us: seq<LexicalToken>) {
    |ts| == |us| &&
    forall j :: 0 <= j < |ts| ==>
      us[j].phrase == ts[j].phrase && us[j].atEndOfSentence == ts[j].atEndOfSentence
  }

  /** No token strictly between positions `lo` and `hi` ends a sentence. */
  ghost predicate NoEndBetween(ts: seq<LexicalToken>, lo: int, hi: int) {
    forall k :: lo < k < hi && 0 <= k < |ts| ==> !ts[k].atEndOfSentence
  }

  /** Token `j` lies in the negation scope of the negator at `index`. */
  ghost predicate InNegationScope(ts: seq<LexicalToken>, index: nat, scope: real, j: int) {
    index < j < |ts| && j as real <= index as real + scope && NoEndBetween(ts, index, j)
  }

  lemma SameTextSameEnds(ts: seq<LexicalToken>, us: seq<LexicalToken>, lo: int, hi: int)
    requires SameText(ts, us)
    ensures NoEndBetween(ts, lo, hi) <==> NoEndBetween(us, lo, hi)
  {
  }

  /**
    The loop of `propagateNegation` from position `i` on: mark tokens while
    `i <= index + scope` and within bounds, stopping after the first token
    that ends a sentence.
   */
  function NegateFrom(ts: seq<LexicalToken>, i: nat, last: real): (r: seq<LexicalToken>)
    ensures SameText(ts, r)
    decreases |ts| - i
  {
    if i < |ts| && i as real <= last then
      var marked := ts[i := ts[i].(inNegatedContext := true)];
      if ts[i].atEndOfSentence then marked else NegateFrom(marked, i + 1, last)
    else ts
  }

  function Negated(ts: seq<LexicalToken>, index: nat, scope: real): seq<LexicalToken> {
    NegateFrom(ts, index + 1, index as real + scope)
  }

  /**
    The window `propagateNegation` marks: exactly the tokens after `index`, at
    most `scope` positions on, up to and including the first end of sentence;
    every other token, and every other field, is left as it was.
   */
  lemma {:induction false} NegatedWindow(ts: seq<LexicalToken>, index: nat, scope: real)
    ensures |Negated(ts, index, scope)| == |ts|
    ensures forall j :: 0 <= j < |ts| ==>
              Negated(ts, index, scope)[j] ==
                if InNegationScope(ts, index, scope, j) then ts[j].(inNegatedContext := true) else ts[j]
  {
    NegateFromWindow(ts, index, index + 1, index as real + scope);
  }

  lemma {:induction false} NegateFromWindow(ts: seq<LexicalToken>, index: nat, i: nat, last: real)
    requires index < i
    requires NoEndBetween(ts, index, i)
    ensures |NegateFrom(ts, i, last)| == |ts|
    ensures forall j :: 0 <= j < |ts| ==>
              NegateFrom(ts, i, last)[j] ==
                if i <= j && j as real <= last && NoEndBetween(ts, index, j)
                then ts[j].(inNegatedContext := true) else ts[j]
    decreases |ts| - i
  {
    if i < |ts| && i as real <= last {
      var marked := ts[i := ts[i].(inNegatedContext := true)];
      if !ts[i].atEndOfSentence {
        assert SameText(ts, marked);
        forall j: int {:trigger NoEndBetween(ts, index, j)} ensures NoEndBetween(ts, index, j) <==> NoEndBetween(marked, index, j) {
          SameTextSameEnds(ts, marked, index, j);
        }
        assert NoEndBetween(marked, index, i + 1);
        NegateFromWindow(marked, index, i + 1, last);
      } else {
        forall j: int | i < j < |ts| ensures !NoEndBetween(ts, index, j) {
          assert index < i < j && ts[i].atEndOfSentence;
        }
      }
    }
  }

  /**
    `intensifyNext`: unless token `index` ends a sentence, the next token
    records the intensification; nothing else changes.
   */
  function Intensified(ts: seq<LexicalToken>, index: nat, amount: real): (r: seq<LexicalToken>)
    requires index < |ts|
    requires !ts[index].atEndOfSentence ==> index + 1 < |ts|
    ensures SameText(ts, r)
    ensures forall j :: 0 <= j < |ts| && j != index + 1 ==> r[j] == ts[j]
    ensures ts[index].atEndOfSentence ==> r == ts
    ensures !ts[index].atEndOfSentence ==>
              r[index + 1] == ts[index + 1].(intensifications := ts[index + 1].intensifications + [amount])
  {
    if !ts[index].atEndOfSentence then
      ts[index + 1 := ts[index + 1].(intensifications := ts[index + 1].intensifications + [amount])]
    else ts
  }

  /** The pass would read past the end: an intensifier that is the last token but does not end a sentence. */
  predicate IntensifiesPastEnd(ts: seq<LexicalToken>, s: Settings) {
    |ts| > 0 && ChooseAction(ts[|ts| - 1].phrase, s).Intensify? && !ts[|ts| - 1].atEndOfSentence
  }

  function Step(ts: seq<LexicalToken>, i: nat, s: Settings): (r: seq<LexicalToken>)
    requires i < |ts| && !IntensifiesPastEnd(ts, s)
    ensures SameText(ts, r)
  {
    match ChooseAction(ts[i].phrase, s)
    case SetLexicalValue(v) => ts[i := ts[i].(lexicalValue := v)]
    case Negate => Negated(ts, i, s.negationScope)
    case Intensify(amount) => Intensified(ts, i, amount)
    case Nothing => ts
  }

  /** The pass's guard only looks at phrases and sentence ends, which marking keeps. */
  lemma SameTextKeeps(ts: seq<LexicalToken>, us: seq<LexicalToken>, vs: seq<LexicalToken>, s: Settings)
    requires SameText(ts, us) && SameText(us, vs)
    ensures SameText(ts, vs)
    ensures IntensifiesPastEnd(ts, s) <==> IntensifiesPastEnd(vs, s)
  {
  }

  /** The marking loop of `calculateSentiment` from token `i` to the end. */
  function MarkFrom(ts: seq<LexicalToken>, i: nat, s: Settings): (r: seq<LexicalToken>)
    requires !IntensifiesPastEnd(ts, s)
    ensures SameText(ts, r)
    decreases |ts| - i
  {
    if i >= |ts| then ts
    else
      var next := Step(ts, i, s);
      assert SameText(ts, next);
      MarkFrom(next, i + 1, s)
  }

  function Marked(ts: seq<LexicalToken>, s: Settings): seq<LexicalToken>
    requires !IntensifiesPastEnd(ts, s)
  {
    MarkFrom(ts, 0, s)
  }

  /** The stream sum of the token values, left to right. */
  function Total(ts: seq<LexicalToken>, value: LexicalToken -> real): real {
    if ts == [] then 0.0 else Total(ts[..|ts| - 1], value) + value(ts[|ts| - 1])
  }

  /**
    After the pass, a token whose phrase is in the lexicon carries the lexicon's
    value: only its own step sets a lexical value, and negation and
    intensification leave that field alone.
   */
  lemma {:induction false} LexiconValueIsSet(ts: seq<LexicalToken>, s: Settings, j: nat)
    requires !IntensifiesPastEnd(ts, s)
    requires j < |ts| && ts[j].phrase in s.lexicon
    ensures Marked(ts, s)[j].lexicalValue == s.lexicon[ts[j].phrase]
  {
    MarkFromLexicon(ts, 0, s, j);
  }

  lemma {:induction false} MarkFromLexicon(ts: seq<LexicalToken>, i: nat, s: Settings, j: nat)
    requires !IntensifiesPastEnd(ts, s)
    requires j < |ts| && ts[j].phrase in s.lexicon
    requires i > j ==> ts[j].lexicalValue == s.lexicon[ts[j].phrase]
    ensures MarkFrom(ts, i, s)[j].lexicalValue == s.lexicon[ts[j].phrase]
    decreases |ts| - i
  {
    if i < |ts| {
      var next := Step(ts, i, s);
      assert next[j].lexicalValue == if i == j then s.lexicon[ts[j].phrase] else ts[j].lexicalValue by {
        match ChooseAction(ts[i].phrase, s)
        case SetLexicalValue(v) =>
        case Negate => NegatedWindow(ts, i, s.negationScope);
        case Intensify(_) =>
        case Nothing =>
      }
      assert !IntensifiesPastEnd(next, s);
      MarkFromLexicon(next, i + 1, s, j);
    }
  }

  /**
    A token that is neither preceded by an intensifier nor inside a negation
    scope comes out of the pass with its negation flag and intensifications as
    the parser set them.
   */
  lemma {:induction false} UntouchedWithoutModifiers(ts: seq<LexicalToken>, s: Settings, j: nat)
    requires !IntensifiesPastEnd(ts, s)
    requires j < |ts|
    requires j == 0 || !ChooseAction(ts[j - 1].phrase, s).Intensify?
    requires forall i :: 0 <= i < j && ChooseAction(ts[i].phrase, s).Negate? ==>
               !InNegationScope(ts, i, s.negationScope, j)
    ensures Marked(ts, s)[j].inNegatedContext == ts[j].inNegatedContext
    ensures Marked(ts, s)[j].intensifications == ts[j].intensifications
  {
    MarkFromUntouched(ts, 0, s, j);
  }

  /** One step leaves token `j` alone when no negation in reach covers it and no intensifier precedes it. */
  lemma StepLeavesUntouched(ts: seq<LexicalToken>, i: nat, s: Settings, j: nat)
    requires !IntensifiesPastEnd(ts, s)
    requires i < |ts| && j < |ts|
    requires j == 0 || !ChooseAction(ts[j - 1].phrase, s).Intensify?
    requires forall k :: i <= k < j && ChooseAction(ts[k].phrase, s).Negate? ==>
               !InNegationScope(ts, k, s.negationScope, j)
    ensures Step(ts, i, s)[j].inNegatedContext == ts[j].inNegatedContext
    ensures Step(ts, i, s)[j].intensifications == ts[j].intensifications
  {
    match ChooseAction(ts[i].phrase, s)
    case SetLexicalValue(v) =>
    case Negate =>
      NegatedWindow(ts, i, s.negationScope);
      if i < j {
        assert !InNegationScope(ts, i, s.negationScope, j);
      }
    case Intensify(_) =>
    case Nothing =>
  }

  lemma {:induction false} MarkFromUntouched(ts: seq<LexicalToken>, i: nat, s: Settings, j: nat)
    requires !IntensifiesPastEnd(ts, s)
    requires j < |ts|
    requires j == 0 || !ChooseAction(ts[j - 1].phrase, s).Intensify?
    requires forall k :: i <= k < j && ChooseAction(ts[k].phrase, s).Negate? ==>
               !InNegationScope(ts, k, s.negationScope, j)
    ensures MarkFrom(ts, i, s)[j].inNegatedContext == ts[j].inNegatedContext
    ensures MarkFrom(ts, i, s)[j].intensifications == ts[j].intensifications
    decreases |ts| - i
  {
    if i < |ts| {
      var next := Step(ts, i, s);
      StepLeavesUntouched(ts, i, s, j);
      assert !IntensifiesPastEnd(next, s);
      forall k | i + 1 <= k < j && ChooseAction(next[k].phrase, s).Negate?
        ensures !InNegationScope(next, k, s.negationScope, j)
      {
        assert next[k].phrase == ts[k].phrase;
        assert !InNegationScope(ts, k, s.negationScope, j);
        SameTextSameEnds(ts, next, k, j);
      }
      if j > 0 {
        assert next[j - 1].phrase == ts[j - 1].phrase;
      }
      MarkFromUntouched(next, i + 1, s, j);
    }
  }

  class Classifier {
    /** The prior-polarity lexicon the classifier was built with. */
    const lexicon: map<string, real>

    constructor (lexicon: map<string, real>)
      ensures this.lexicon == lexicon
    {
      this.lexicon := lexicon;
    }

    /** The settings one pass reads from the lexicon and the options. */
    function SettingsOf(opts: Options): Settings
      reads opts
    {
      Settings(lexicon, opts.negators, opts.intensifiers,
               if opts.HasVariable(NegationScopeLength) then opts.GetVariable(NegationScopeLength) else 0.0)
    }

    /**
      The branch a phrase takes, told by the option tests the pass calls: a
      phrase outside the lexicon is negated exactly when `isNegation` holds, and
      otherwise intensifies exactly when `isIntensifier` holds, by the amount
      `getIntensifierValue` returns.
     */
    lemma ActionFromOptions(opts: Options, phrase: string)
      ensures var a := ChooseAction(phrase, SettingsOf(opts));
              (a.Negate? <==> phrase !in lexicon && opts.IsNegation(phrase)) &&
              (a.Intensify? <==> phrase !in lexicon && !opts.IsNegation(phrase) && opts.IsIntensifier(phrase)) &&
              (a.Intensify? ==> a.amount == opts.GetIntensifierValue(phrase)) &&
              (a.Nothing? <==> phrase !in lexicon && !opts.IsNegation(phrase) && !opts.IsIntensifier(phrase))
    {
    }

    /** Some token takes the negation branch, which reads the scope length option. */
    predicate NeedsScope(ts: seq<LexicalToken>, opts: Options)
      reads opts
    {
      exists i :: 0 <= i < |ts| && ChooseAction(ts[i].phrase, SettingsOf(opts)).Negate?
    }

    /** `propagateNegation`, with the scope length read from the options. */
    method PropagateNegation(tokens: array<LexicalToken>, index: nat, opts: Options)
      requires index < tokens.Length && opts.HasVariable(NegationScopeLength)
      modifies tokens
      ensures tokens[..] == Negated(old(tokens[..]), index, opts.GetVariable(NegationScopeLength))
    {
      var scope := opts.GetVariable(NegationScopeLength);
      ghost var original := tokens[..];
      var i := index + 1;
      while i as real <= index as real + scope && i < tokens.Length
        invariant index + 1 <= i
        invariant NegateFrom(tokens[..], i, index as real + scope) == Negated(original, index, scope)
        decreases tokens.Length - i
      {
        tokens[i] := tokens[i].(inNegatedContext := true);
        if tokens[i].atEndOfSentence {
          return;
        }
        i := i + 1;
      }
    }

    /** `intensifyNext`. */
    method IntensifyNext(tokens: array<LexicalToken>, index: nat, intensification: real)
      requires index < tokens.Length
      requires !tokens[index].atEndOfSentence ==> index + 1 < tokens.Length
      modifies tokens
      ensures tokens[..] == Intensified(old(tokens[..]), index, intensification)
    {
      if !tokens[index].atEndOfSentence {
        tokens[index + 1] := tokens[index + 1].(intensifications := tokens[index + 1].intensifications + [intensification]);
      }
    }

    /** One iteration of the marking loop of `calculateSentiment`. */
    method ApplyStep(tokens: array<LexicalToken>, i: nat, opts: Options)
      requires i < tokens.Length && !IntensifiesPastEnd(tokens[..], SettingsOf(opts))
      requires ChooseAction(tokens[i].phrase, SettingsOf(opts)).Negate? ==> opts.HasVariable(NegationScopeLength)
      modifies tokens
      ensures tokens[..] == Step(old(tokens[..]), i, SettingsOf(opts))
    {
      var phrase := tokens[i].phrase;
      if phrase in lexicon {
        tokens[i] := tokens[i].(lexicalValue := lexicon[phrase]);
      } else if opts.IsNegation(phrase) {
        PropagateNegation(tokens, i, opts);
      } else if opts.IsIntensifier(phrase) {
        IntensifyNext(tokens, i, opts.GetIntensifierValue(phrase));
      }
    }

    /**
      `calculateSentiment` on the parsed tokens: the marking pass in place, then
      the sum of the token values.
     */
    method CalculateSentiment(tokens: array<LexicalToken>, opts: Options, value: LexicalToken -> real)
      returns (sentiment: real)
      requires !IntensifiesPastEnd(tokens[..], SettingsOf(opts))
      requires NeedsScope(tokens[..], opts) ==> opts.HasVariable(NegationScopeLength)
      modifies tokens
      ensures tokens[..] == Marked(old(tokens[..]), SettingsOf(opts))
      ensures sentiment == Total(tokens[..], value)
    {
      ghost var s := SettingsOf(opts);
      ghost var original := tokens[..];
      for i := 0 to tokens.Length
        invariant SameText(original, tokens[..])
        invariant !IntensifiesPastEnd(tokens[..], s)
        invariant MarkFrom(tokens[..], i, s) == Marked(original, s)
      {
        ghost var before := tokens[..];
        if opts.IsNegation(tokens[i].phrase) && tokens[i].phrase !in lexicon {
          assert original[i].phrase == tokens[i].phrase;
          assert ChooseAction(original[i].phrase, s).Negate?;
        }
        ApplyStep(tokens, i, opts);
        SameTextKeeps(original, before, tokens[..], s);
      }
      sentiment := Total(tokens[..], value);
    }

    /**
      `classify`: the tweet's sentiment handed to the bucketing rule together
      with the lower and then the higher threshold option.
     */
    method Classify(tokens: array<LexicalToken>, opts: Options, value: LexicalToken -> real,
                    classifyFromThresholds: (real, real, real) -> Classification)
      returns (c: Classification)
      requires !IntensifiesPastEnd(tokens[..], SettingsOf(opts))
      requires NeedsScope(tokens[..], opts) ==> opts.HasVariable(NegationScopeLength)
      requires opts.HasVariable(ClassificationThresholdLower) && opts.HasVariable(ClassificationThresholdHigher)
      modifies tokens
      ensures c == classifyFromThresholds(Total(Marked(old(tokens[..]), SettingsOf(opts)), value),
                                          opts.GetVariable(ClassificationThresholdLower),
                                          opts.GetVariable(ClassificationThresholdHigher))
    {
      var sentimentValue := CalculateSentiment(tokens, opts, value);
      c := classifyFromThresholds(sentimentValue,
                                  opts.GetVariable(ClassificationThresholdLower),
                                  opts.GetVariable(ClassificationThresholdHigher));
    }
  }
}
