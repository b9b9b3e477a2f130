/**
  The classifier's word lists and numeric options. The source keeps them in
  process-wide static fields filled from a JSON file; here they are the fields
  of one `Options` object, and the JSON loading is outside the model.
 */
module ClassifierOptions {
  import opened Text

  /** The named numeric options; `Name()` is the key each has in the options map. */
  datatype Variable =
    | NegationValue
    | ExclamationIntensifier
    | QuestionIntensifier
    | NegationScopeLength
    | DowntonerScalar
    | AmplifierScalar
    | ClassificationThresholdLower
    | ClassificationThresholdHigher
  {
    /** `Variable.name()`: the constant's name as declared in the source enum. */
    function Name(): string {
      match this
      case NegationValue => "NEGATION_VALUE"
      case ExclamationIntensifier => "EXCLAMATION_INTENSIFIER"
      case QuestionIntensifier => "QUESTION_INTENSIFIER"
      case NegationScopeLength => "NEGATION_SCOPE_LENGTH"
      case DowntonerScalar => "DOWNTONER_SCALAR"
      case AmplifierScalar => "AMPLIFIER_SCALAR"
      case ClassificationThresholdLower => "CLASSIFICATION_THRESHOLD_LOWER"
      case ClassificationThresholdHigher => "CLASSIFICATION_THRESHOLD_HIGHER"
    }
  }

  /** Two distinct variables never share a key, so setting one cannot disturb another. */
  lemma NameInjective(u: Variable, v: Variable)
    ensures u.Name() == v.Name() ==> u == v
  {
  }

  /**
    `isSpecialClassWord`: the word both starts and ends with "||"; the two marks
    may overlap, so "||" and "|||" qualify.
   */
  predicate IsSpecialClassWord(word: string) {
    StartsWith(word, "||") && EndsWith(word, "||")
  }

  lemma SpecialClassWordShape(word: string)
    ensures IsSpecialClassWord(word) <==>
              |word| >= 2 && word[0] == '|' && word[1] == '|' && word[|word| - 2] == '|' && word[|word| - 1] == '|'
    ensures IsSpecialClassWord("||") && IsSpecialClassWord("|||") && !IsSpecialClassWord("|")
  {
    assert "||"[..2] == "||";
    assert "|||"[..2] == "||" && "|||"[1..] == "||";
    if |word| >= 2 {
      assert word[..2] == [word[0], word[1]];
      assert word[|word| - 2..] == [word[|word| - 2], word[|word| - 1]];
    }
  }

  class Options {
    var options: map<string, real>
    var intensifiers: map<string, real>
    var negators: set<string>
    var stopWords: set<string>

    /** The state `loadOptions` leaves behind once the JSON has been read. */
    constructor (options: map<string, real>, intensifiers: map<string, real>,
                 negators: set<string>, stopWords: set<string>)
      ensures this.options == options && this.intensifiers == intensifiers
      ensures this.negators == negators && this.stopWords == stopWords
    {
      this.options := options;
      this.intensifiers := intensifiers;
      this.negators := negators;
      this.stopWords := stopWords;
    }

    predicate IsStopWord(word: string)
      reads this
    {
      word in stopWords
    }

    predicate IsNegation(word: string)
      reads this
    {
      word in negators
    }

    predicate IsIntensifier(word: string)
      reads this
    {
      word in intensifiers
    }

    /** `getIntensifierValue`: the map lookup; an unknown word would unbox null. */
    function GetIntensifierValue(word: string): real
      reads this
      requires IsIntensifier(word)
    {
      intensifiers[word]
    }

    /** `containsStopWord`: scans the words and stops at the first stop word. */
    method ContainsStopWord(words: seq<string>) returns (r: bool)
      ensures r <==> exists i :: 0 <= i < |words| && IsStopWord(words[i])
    {
      for i := 0 to |words|
        invariant forall k :: 0 <= k < i ==> !IsStopWord(words[k])
      {
        if words[i] in stopWords {
          return true;
        }
      }
      return false;
    }

    /** `containsNegation`: scans the words and stops at the first negator. */
    method ContainsNegation(words: seq<string>) returns (r: bool)
      ensures r <==> exists i :: 0 <= i < |words| && IsNegation(words[i])
    {
      for i := 0 to |words|
        invariant forall k :: 0 <= k < i ==> !IsNegation(words[k])
      {
        if words[i] in negators {
          return true;
        }
      }
      return false;
    }

    /** `containsIntensifier`: scans the words and stops at the first intensifier key. */
    method ContainsIntensifier(words: seq<string>) returns (r: bool)
      ensures r <==> exists i :: 0 <= i < |words| && IsIntensifier(words[i])
    {
      for i := 0 to |words|
        invariant forall k :: 0 <= k < i ==> !IsIntensifier(words[k])
      {
        if words[i] in intensifiers {
          return true;
        }
      }
      return false;
    }

    predicate HasVariable(v: Variable)
      reads this
    {
      v.Name() in options
    }

    /** `getVariable`: the option stored under the variable's name (null would fail to unbox). */
    function GetVariable(v: Variable): real
      reads this
      requires HasVariable(v)
    {
      options[v.Name()]
    }

    /** `setVariable`: stores `value` under the variable's name. */
    method SetVariable(v: Variable, value: real)
      modifies this
      ensures HasVariable(v) && GetVariable(v) == value
      ensures forall u :: u != v ==> (HasVariable(u) <==> old(HasVariable(u)))
      ensures forall u :: u != v && HasVariable(u) ==> GetVariable(u) == old(GetVariable(u))
      ensures options.Keys == old(options.Keys) + {v.Name()}
      ensures forall k :: k in options && k != v.Name() ==> options[k] == old(options[k])
      ensures intensifiers == old(intensifiers) && negators == old(negators) && stopWords == old(stopWords)
    {
      options := options[v.Name() := value];
      forall u | u != v
        ensures u.Name() != v.Name()
      {
        NameInjective(u, v);
      }
    }

    /**
      `getOptions`: a copy of the options map. A Dafny map is a value, so later
      changes to the copy cannot reach the options, nor the other way round.
     */
    method GetOptions() returns (copy: map<string, real>)
      ensures copy == options
      ensures forall v :: HasVariable(v) ==> v.Name() in copy && copy[v.Name()] == GetVariable(v)
    {
      copy := map k | k in options :: options[k];
    }
  }
}
