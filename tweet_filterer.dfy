/**
  The first cleaning stage of the raw tweet dump: a fixed chain of rejection
  rules (`shouldInclude`) and the de-duplication that writes a line only when
  its normalised form has not been seen since the last periodic clean-up of
  the seen-forms map.
 */
module TweetFilterer {
  import opened Text
  import opened Wrappers

  predicate IsDigit(c: char) {
    '0' <= c <= '9'
  }

  /** Length of the run of ASCII digits `[0-9]` that ends `s`. */
  function TrailingDigits(s: string): (d: nat)
    ensures d <= |s|
    ensures forall i :: |s| - d <= i < |s| ==> IsDigit(s[i])
    ensures d < |s| ==> !IsDigit(s[|s| - d - 1])
  {
    if s == [] || !IsDigit(s[|s| - 1]) then 0 else 1 + TrailingDigits(s[..|s| - 1])
  }

  /** `s[..e]` ends with one of `.`, `,`, `x` followed by one or more digits. */
  predicate NumberEndsAt(s: string, e: nat)
    requires e <= |s|
  {
    var d := TrailingDigits(s[..e]);
    1 <= d < e && s[e - d - 1] in {'.', ',', 'x'}
  }

  /** The line terminators of `java.util.regex` (without UNIX_LINES). */
  predicate IsLineTerminator(c: char) {
    c == '\n' || c == '\r' || c == '\U{85}' || c == '\U{2028}' || c == '\U{2029}'
  }

  /**
    Where `$` (without MULTILINE) matches: at the end of the input, before a
    final line terminator, or before a final "\r\n".
   */
  predicate DollarAt(s: string, e: nat) {
    e == |s| ||
    (e == |s| - 1 && IsLineTerminator(s[e])) ||
    (e == |s| - 2 && s[e] == '\r' && s[e + 1] == '\n')
  }

  /**
    `endsWithNumber.matcher(text).find()` for the pattern `[\.,x][0-9]+$`,
    checked at the three places where `$` can match.
   */
  predicate EndsWithNumber(s: string) {
    NumberEndsAt(s, |s|) ||
    (|s| >= 1 && IsLineTerminator(s[|s| - 1]) && NumberEndsAt(s, |s| - 1)) ||
    (|s| >= 2 && s[|s| - 2] == '\r' && s[|s| - 1] == '\n' && NumberEndsAt(s, |s| - 2))
  }

  /** A match of `[\.,x][0-9]+` in `s` made of the mark at `e - d - 1` and the `d` digits before `e`. */
  ghost predicate NumberMatch(s: string, e: int, d: int) {
    1 <= d && d + 1 <= e <= |s| && s[e - d - 1] in {'.', ',', 'x'} &&
    forall i :: e - d <= i < e ==> IsDigit(s[i])
  }

  /**
    The regex reading of the rule: some occurrence of a mark followed by
    digits ends at a position where `$` matches.
   */
  lemma EndsWithNumberMeaning(s: string)
    ensures EndsWithNumber(s) <==> exists e: nat, d: int :: DollarAt(s, e) && NumberMatch(s, e, d)
  {
    if EndsWithNumber(s) {
      EndsWithNumberHasMatch(s);
    }
    if exists e: nat, d: int :: DollarAt(s, e) && NumberMatch(s, e, d) {
      var e: nat, d: int :| DollarAt(s, e) && NumberMatch(s, e, d);
      MatchEndsWithNumber(s, e, d);
    }
  }

  lemma EndsWithNumberHasMatch(s: string)
    requires EndsWithNumber(s)
    ensures exists e: nat, d: int :: DollarAt(s, e) && NumberMatch(s, e, d)
  {
    var e: nat := if NumberEndsAt(s, |s|) then |s|
                  else if |s| >= 1 && IsLineTerminator(s[|s| - 1]) && NumberEndsAt(s, |s| - 1) then |s| - 1
                  else |s| - 2;
    assert DollarAt(s, e) && NumberEndsAt(s, e);
    NumberEndsAtMatches(s, e);
  }

  lemma MatchEndsWithNumber(s: string, e: nat, d: int)
    requires DollarAt(s, e) && NumberMatch(s, e, d)
    ensures EndsWithNumber(s)
  {
    NumberMatchIsTrailingRun(s, e, d);
  }

  /** The trailing run of digits before `e` and the mark before it form a match. */
  lemma NumberEndsAtMatches(s: string, e: nat)
    requires e <= |s| && NumberEndsAt(s, e)
    ensures NumberMatch(s, e, TrailingDigits(s[..e]))
  {
    var d := TrailingDigits(s[..e]);
    assert forall i :: e - d <= i < e ==> s[i] == s[..e][i];
  }

  /** A mark is not a digit, so the digits of a match are the whole trailing run. */
  lemma NumberMatchIsTrailingRun(s: string, e: nat, d: int)
    requires NumberMatch(s, e, d)
    ensures NumberEndsAt(s, e)
  {
    var t := s[..e];
    assert forall i :: 0 <= i < |t| ==> t[i] == s[i];
    TrailingRunLength(t, d);
  }

  lemma {:induction false} TrailingRunLength(t: string, d: nat)
    requires 1 <= d < |t| && !IsDigit(t[|t| - d - 1])
    requires forall i :: |t| - d <= i < |t| ==> IsDigit(t[i])
    ensures TrailingDigits(t) == d
    decreases d
  {
    var u := t[..|t| - 1];
    if d > 1 {
      assert forall i :: 0 <= i < |u| ==> u[i] == t[i];
      TrailingRunLength(u, d - 1);
    } else {
      assert u[|u| - 1] == t[|t| - 2];
    }
  }

  /** The rejection rules of `shouldInclude`, in the order they are tried. */
  datatype Rule =
    | Retweet
    | Link
    | WeatherChannel
    | HarryStyles
    | Degree
    | TVPersonality
    | NumberAtEnd

  /** Whether one rule rejects `text`. */
  predicate Fires(rule: Rule, text: string) {
    match rule
    case Retweet => StartsWith(text, "RT @")
    case Link => Contains(text, "https://") || Contains(text, "http://")
    case WeatherChannel => StartsWith(text, "Get Weather Updates from The Weather Channel")
    case HarryStyles => Contains(ToLowerAscii(text), "harry_styles")
    case Degree => Contains(text, "\U{B0}")
    case TVPersonality => Contains(text, "TVPersonality2015")
    case NumberAtEnd => EndsWithNumber(text)
  }

  /** The early-return chain of `shouldInclude`: the first rule that rejects `text`, if any. */
  function FirstRejection(text: string): (r: Option<Rule>)
    ensures r.Some? ==> Fires(r.value, text)
  {
    if StartsWith(text, "RT @") then Some(Retweet)
    else if Contains(text, "https://") || Contains(text, "http://") then Some(Link)
    else if StartsWith(text, "Get Weather Updates from The Weather Channel") then Some(WeatherChannel)
    else if Contains(ToLowerAscii(text), "harry_styles") then Some(HarryStyles)
    else if Contains(text, "\U{B0}") then Some(Degree)
    else if Contains(text, "TVPersonality2015") then Some(TVPersonality)
    else if EndsWithNumber(text) then Some(NumberAtEnd)
    else None
  }

  predicate ShouldInclude(text: string) {
    FirstRejection(text).None?
  }

  /** A tweet is kept exactly when no rule rejects it. */
  lemma ShouldIncludeIffNoRuleFires(text: string)
    ensures ShouldInclude(text) <==> forall rule: Rule :: !Fires(rule, text)
  {
    if ShouldInclude(text) {
      forall rule: Rule ensures !Fires(rule, text) {
        match rule
        case Retweet =>
        case Link =>
        case WeatherChannel =>
        case HarryStyles =>
        case Degree =>
        case TVPersonality =>
        case NumberAtEnd =>
      }
    }
  }

  /** A retweet and a tweet with a link are turned away. */
  lemma RetweetAndLinkRejected()
    ensures !ShouldInclude("RT @someone: hello")
    ensures !ShouldInclude("see http://t.co")
  {
    assert StartsWith("RT @someone: hello", "RT @");
    assert StartsWith("see http://t.co"[4..], "http://");
  }

  /** The "harry_styles" rule ignores case. */
  lemma HarryStylesRejected()
    ensures FirstRejection("I love Harry_Styles") == Some(HarryStyles)
  {
    var text := "I love Harry_Styles";
    LowerOfExample();
    var lower := "i love harry_styles";
    assert StartsWith(lower[7..], "harry_styles");
    assert Contains(lower, "harry_styles");
    assert ToLowerAscii(text) == lower;
    assert text[..4][0] != "RT @"[0];
    NotContainsMissingChar(text, "https://", 5);
    NotContainsMissingChar(text, "http://", 4);
  }

  lemma LowerOfExample()
    ensures ToLowerAscii("I love Harry_Styles") == "i love harry_styles"
  {
  }

  /**
    A mark followed by digits at the end, or before a final line break, matches;
    digits after a space, or followed by another character, do not.
   */
  lemma EndsWithNumberExamples()
    ensures EndsWithNumber("sold for 4.50")
    ensures EndsWithNumber("size x12\n")
    ensures !EndsWithNumber("route 66")
    ensures !EndsWithNumber("4.5kg")
  {
    var a := "sold for 4.50";
    TrailingRunLength(a, 2);
    assert a[..|a|] == a;
    var b := "size x12\n";
    assert b[..|b| - 1] == "size x12";
    TrailingRunLength("size x12", 2);
    var c := "route 66";
    TrailingRunLength(c, 2);
    assert c[..|c|] == c;
    var d := "4.5kg";
    assert d[..|d|] == d;
  }

  /**
    Text without the characters the other rules look for (':', '_', 'T', 'R',
    'G' and the degree sign) is kept exactly when it does not end with a number.
   */
  lemma PlainTextRule(text: string)
    requires ':' !in text && '_' !in text && 'T' !in text && '\U{B0}' !in text && 'R' !in text && 'G' !in text
    ensures ShouldInclude(text) <==> !EndsWithNumber(text)
  {
    NoRuleMatchesPlainText(text);
    PrefixNeedsFirstChar(text, "RT @");
    PrefixNeedsFirstChar(text, "Get Weather Updates from The Weather Channel");
  }

  lemma PrefixNeedsFirstChar(text: string, p: string)
    requires |p| > 0 && p[0] !in text
    ensures !StartsWith(text, p)
  {
    if |p| <= |text| {
      assert text[..|p|][0] == text[0];
    }
  }

  /** Text without ':', '_', 'T' and the degree sign meets none of the substring rules. */
  lemma NoRuleMatchesPlainText(text: string)
    requires ':' !in text && '_' !in text && 'T' !in text && '\U{B0}' !in text
    ensures !Contains(text, "https://") && !Contains(text, "http://")
    ensures !Contains(ToLowerAscii(text), "harry_styles")
    ensures !Contains(text, "TVPersonality2015") && !Contains(text, "\U{B0}")
  {
    NotContainsMissingChar(text, "https://", 5);
    NotContainsMissingChar(text, "http://", 4);
    assert '_' !in ToLowerAscii(text);
    NotContainsMissingChar(ToLowerAscii(text), "harry_styles", 5);
    NotContainsMissingChar(text, "TVPersonality2015", 0);
    NotContainsMissingChar(text, "\U{B0}", 0);
  }

  /** The number of lines between two clean-ups of the seen-forms map. */
  const CleanupPeriod: nat := 10000000

  /**
    The state of `rawTweetCleaner` after some lines: the seen-forms map, the
    lines written so far and the input positions they came from.
   */
  datatype CleanerState = CleanerState(unique: map<string, int>, written: seq<string>, writtenAt: seq<nat>)

  /**
    `MapUtils.removeInfrequentItems(unique, 2)`, whose body is not part of this
    model: entries are dropped one by one by a criterion on key and count.
   */
  function RemoveInfrequentItems(m: map<string, int>, keep: (string, int) -> bool): (r: map<string, int>)
    ensures r.Keys <= m.Keys
    ensures forall k :: k in r ==> r[k] == m[k] && keep(k, m[k])
    ensures forall k :: k in m && keep(k, m[k]) ==> k in r
  {
    map k | k in m && keep(k, m[k]) :: m[k]
  }

  /** One line of the loop of `rawTweetCleaner`, line number `j`. */
  function CleanLine(st: CleanerState, j: nat, line: string, admit: string -> bool, filter: string -> string,
                     keep: (string, int) -> bool): CleanerState
  {
    var unique := if j % CleanupPeriod == 0 then RemoveInfrequentItems(st.unique, keep) else st.unique;
    if !admit(line) || filter(line) in unique then st.(unique := unique)
    else CleanerState(unique[filter(line) := 1], st.written + [line], st.writtenAt + [j])
  }

  /**
    The cleaner's state after the first `n` lines, with `admit` for the
    admission rule (`shouldInclude`): every written line is the input line at
    its recorded position and is admitted, and lines are written in input order.
   */
  function Cleaned(lines: seq<string>, n: nat, admit: string -> bool, filter: string -> string, keep: (string, int) -> bool)
    : (st: CleanerState)
    requires n <= |lines|
    ensures |st.written| == |st.writtenAt|
    ensures forall k :: 0 <= k < |st.writtenAt| ==> st.writtenAt[k] < n && st.written[k] == lines[st.writtenAt[k]]
    ensures forall k :: 0 <= k < |st.written| ==> admit(st.written[k])
    ensures forall k, l :: 0 <= k < l < |st.writtenAt| ==> st.writtenAt[k] < st.writtenAt[l]
  {
    if n == 0 then CleanerState(map[], [], [])
    else CleanLine(Cleaned(lines, n - 1, admit, filter, keep), n - 1, lines[n - 1], admit, filter, keep)
  }

  /** The first line of the clean-up period that line `j` falls in. */
  function PeriodStart(j: nat): nat {
    j / CleanupPeriod * CleanupPeriod
  }

  lemma PeriodFacts(j: nat)
    ensures PeriodStart(j) <= j
    ensures j % CleanupPeriod == 0 ==> PeriodStart(j) == j
    ensures j % CleanupPeriod != 0 ==> j > 0 && PeriodStart(j) == PeriodStart(j - 1)
  {
  }

  /** A clean-up line is also a progress line, so the nested test in the loop sees every clean-up. */
  lemma ProgressTick(n: nat)
    ensures n % CleanupPeriod == 0 ==> n % 100000 == 0
  {
    if n % CleanupPeriod == 0 {
      var q := n / CleanupPeriod;
      assert n == 100000 * (100 * q);
    }
  }

  /** The normalised forms of the written lines. */
  function Forms(written: seq<string>, filter: string -> string): set<string> {
    set k | 0 <= k < |written| :: filter(written[k])
  }

  /** Every form in the seen-forms map is that of a written line. */
  ghost predicate SeenAreWritten(st: CleanerState, filter: string -> string) {
    st.unique.Keys <= Forms(st.written, filter)
  }

  /** After `n` lines, the forms of the lines written in the current period are in the map. */
  ghost predicate PeriodIsSeen(st: CleanerState, n: nat, filter: string -> string) {
    |st.written| == |st.writtenAt| &&
    forall k :: 0 <= k < |st.written| && n > 0 && st.writtenAt[k] >= PeriodStart(n - 1) ==>
      filter(st.written[k]) in st.unique
  }

  /** No two lines written in the same period share a form. */
  ghost predicate DistinctInPeriod(st: CleanerState, filter: string -> string) {
    |st.written| == |st.writtenAt| &&
    forall k, l :: 0 <= k < l < |st.written| && PeriodStart(st.writtenAt[k]) == PeriodStart(st.writtenAt[l]) ==>
      filter(st.written[k]) != filter(st.written[l])
  }

  /** The form of `line`, at position `j`, differs from that of every line written before it. */
  ghost predicate FormIsNew(st: CleanerState, filter: string -> string, j: nat, line: string) {
    |st.written| == |st.writtenAt| &&
    forall k :: 0 <= k < |st.written| && st.writtenAt[k] < j ==> filter(st.written[k]) != filter(line)
  }

  /** Among the first `n` lines, each one that passes and has a new form was written. */
  ghost predicate NewFormsWritten(lines: seq<string>, n: nat, st: CleanerState, admit: string -> bool,
                                  filter: string -> string) {
    n <= |lines| &&
    forall j :: 0 <= j < n && admit(lines[j]) && FormIsNew(st, filter, j, lines[j]) ==> j in st.writtenAt
  }

  lemma StepSeenAreWritten(lines: seq<string>, j: nat, admit: string -> bool, filter: string -> string, keep: (string, int) -> bool)
    requires j < |lines| && SeenAreWritten(Cleaned(lines, j, admit, filter, keep), filter)
    ensures SeenAreWritten(Cleaned(lines, j + 1, admit, filter, keep), filter)
  {
    var st := Cleaned(lines, j, admit, filter, keep);
    var st' := Cleaned(lines, j + 1, admit, filter, keep);
    assert Forms(st.written, filter) <= Forms(st'.written, filter) by {
      forall k | 0 <= k < |st.written| ensures filter(st.written[k]) in Forms(st'.written, filter) {
        assert st'.written[k] == st.written[k];
      }
    }
    if st'.written != st.written {
      assert st'.written[|st.written|] == lines[j];
    }
  }

  lemma StepPeriodIsSeen(lines: seq<string>, j: nat, admit: string -> bool, filter: string -> string, keep: (string, int) -> bool)
    requires j < |lines| && PeriodIsSeen(Cleaned(lines, j, admit, filter, keep), j, filter)
    ensures PeriodIsSeen(Cleaned(lines, j + 1, admit, filter, keep), j + 1, filter)
  {
    var st := Cleaned(lines, j, admit, filter, keep);
    var st' := Cleaned(lines, j + 1, admit, filter, keep);
    PeriodFacts(j);
    forall k | 0 <= k < |st'.written| && st'.writtenAt[k] >= PeriodStart(j)
      ensures filter(st'.written[k]) in st'.unique
    {
      if k < |st.written| {
        assert st'.writtenAt[k] == st.writtenAt[k] < j;
        assert j % CleanupPeriod != 0;
        assert filter(st.written[k]) in st.unique;
      }
    }
  }

  lemma StepDistinctInPeriod(lines: seq<string>, j: nat, admit: string -> bool, filter: string -> string, keep: (string, int) -> bool)
    requires j < |lines|
    requires DistinctInPeriod(Cleaned(lines, j, admit, filter, keep), filter)
    requires PeriodIsSeen(Cleaned(lines, j, admit, filter, keep), j, filter)
    ensures DistinctInPeriod(Cleaned(lines, j + 1, admit, filter, keep), filter)
  {
    var st := Cleaned(lines, j, admit, filter, keep);
    var st' := Cleaned(lines, j + 1, admit, filter, keep);
    PeriodFacts(j);
    forall k, l | 0 <= k < l < |st'.written| && PeriodStart(st'.writtenAt[k]) == PeriodStart(st'.writtenAt[l])
      ensures filter(st'.written[k]) != filter(st'.written[l])
    {
      if l == |st.written| {
        var x := st.writtenAt[k];
        assert st'.writtenAt[l] == j && x < j;
        PeriodFacts(x);
        assert x >= PeriodStart(j);
        assert j % CleanupPeriod != 0;
        assert filter(st.written[k]) in st.unique;
      } else {
        assert st'.written[k] == st.written[k] && st'.written[l] == st.written[l];
        assert st'.writtenAt[k] == st.writtenAt[k] && st'.writtenAt[l] == st.writtenAt[l];
      }
    }
  }

  /** Writing line `j` or not leaves an earlier written line and its position alone. */
  lemma CleanLineKeepsOld(st: CleanerState, j: nat, line: string, admit: string -> bool, filter: string -> string,
                          keep: (string, int) -> bool, x: nat)
    requires |st.written| == |st.writtenAt| && x < |st.written|
    ensures var st' := CleanLine(st, j, line, admit, filter, keep);
            x < |st'.written| && x < |st'.writtenAt| &&
            st'.written[x] == st.written[x] && st'.writtenAt[x] == st.writtenAt[x]
  {
  }

  /** An admitted line whose form no written line has is written. */
  lemma CleanLineWritesNew(st: CleanerState, j: nat, line: string, admit: string -> bool, filter: string -> string,
                           keep: (string, int) -> bool)
    requires |st.written| == |st.writtenAt| && SeenAreWritten(st, filter) && admit(line)
    requires forall k :: 0 <= k < |st.written| ==> filter(st.written[k]) != filter(line)
    ensures j in CleanLine(st, j, line, admit, filter, keep).writtenAt
  {
    assert filter(line) !in Forms(st.written, filter);
    var writtenAt := st.writtenAt + [j];
    assert writtenAt[|st.writtenAt|] == j;
  }

  /** A line already written stays written. */
  lemma CleanLineKeepsWritten(st: CleanerState, j: nat, line: string, admit: string -> bool, filter: string -> string,
                              keep: (string, int) -> bool, i: nat)
    requires |st.written| == |st.writtenAt| && i in st.writtenAt
    ensures i in CleanLine(st, j, line, admit, filter, keep).writtenAt
  {
    var x :| 0 <= x < |st.writtenAt| && st.writtenAt[x] == i;
    CleanLineKeepsOld(st, j, line, admit, filter, keep, x);
  }

  /** A form new against the state after line `j` was new against the state before it. */
  lemma CleanLineFormIsNew(st: CleanerState, j: nat, line: string, admit: string -> bool, filter: string -> string,
                           keep: (string, int) -> bool, i: nat, l: string)
    requires |st.written| == |st.writtenAt|
    requires FormIsNew(CleanLine(st, j, line, admit, filter, keep), filter, i, l)
    ensures FormIsNew(st, filter, i, l)
  {
    forall k | 0 <= k < |st.written| && st.writtenAt[k] < i
      ensures filter(st.written[k]) != filter(l)
    {
      CleanLineKeepsOld(st, j, line, admit, filter, keep, k);
    }
  }

  /** A line up to `j` that is admitted and new against the state after line `j` was written by then. */
  lemma NewFormWrittenAt(lines: seq<string>, j: nat, i: nat, admit: string -> bool, filter: string -> string,
                         keep: (string, int) -> bool)
    requires i <= j < |lines|
    requires NewFormsWritten(lines, j, Cleaned(lines, j, admit, filter, keep), admit, filter)
    requires SeenAreWritten(Cleaned(lines, j, admit, filter, keep), filter)
    requires admit(lines[i]) && FormIsNew(Cleaned(lines, j + 1, admit, filter, keep), filter, i, lines[i])
    ensures i in Cleaned(lines, j + 1, admit, filter, keep).writtenAt
  {
    var st := Cleaned(lines, j, admit, filter, keep);
    CleanLineFormIsNew(st, j, lines[j], admit, filter, keep, i, lines[i]);
    if i < j {
      CleanLineKeepsWritten(st, j, lines[j], admit, filter, keep, i);
    } else {
      CleanLineWritesNew(st, j, lines[j], admit, filter, keep);
    }
  }

  lemma StepNewFormsWritten(lines: seq<string>, j: nat, admit: string -> bool, filter: string -> string, keep: (string, int) -> bool)
    requires j < |lines|
    requires NewFormsWritten(lines, j, Cleaned(lines, j, admit, filter, keep), admit, filter)
    requires SeenAreWritten(Cleaned(lines, j, admit, filter, keep), filter)
    ensures NewFormsWritten(lines, j + 1, Cleaned(lines, j + 1, admit, filter, keep), admit, filter)
  {
    var st' := Cleaned(lines, j + 1, admit, filter, keep);
    forall i | 0 <= i < j + 1 && admit(lines[i]) && FormIsNew(st', filter, i, lines[i])
      ensures i in st'.writtenAt
    {
      NewFormWrittenAt(lines, j, i, admit, filter, keep);
    }
  }

  /** What the cleaner's state keeps true after each line. */
  ghost predicate CleanerInvariant(lines: seq<string>, n: nat, st: CleanerState, admit: string -> bool, filter: string -> string) {
    SeenAreWritten(st, filter) && PeriodIsSeen(st, n, filter) &&
    DistinctInPeriod(st, filter) && NewFormsWritten(lines, n, st, admit, filter)
  }

  lemma StepInvariant(lines: seq<string>, j: nat, admit: string -> bool, filter: string -> string, keep: (string, int) -> bool)
    requires j < |lines| && CleanerInvariant(lines, j, Cleaned(lines, j, admit, filter, keep), admit, filter)
    ensures CleanerInvariant(lines, j + 1, Cleaned(lines, j + 1, admit, filter, keep), admit, filter)
  {
    StepSeenAreWritten(lines, j, admit, filter, keep);
    StepPeriodIsSeen(lines, j, admit, filter, keep);
    StepDistinctInPeriod(lines, j, admit, filter, keep);
    StepNewFormsWritten(lines, j, admit, filter, keep);
  }

  lemma CleanedInvariant(lines: seq<string>, n: nat, admit: string -> bool, filter: string -> string,
                         keep: (string, int) -> bool)
    requires n <= |lines|
    ensures CleanerInvariant(lines, n, Cleaned(lines, n, admit, filter, keep), admit, filter)
  {
    var i := 0;
    while i < n
      invariant i <= n && CleanerInvariant(lines, i, Cleaned(lines, i, admit, filter, keep), admit, filter)
    {
      StepInvariant(lines, i, admit, filter, keep);
      i := i + 1;
    }
  }

  /**
    Within one clean-up period no two written lines share a normalised form:
    the seen-forms map only grows between clean-ups.
   */
  lemma NoDuplicateWithinPeriod(lines: seq<string>, admit: string -> bool, filter: string -> string, keep: (string, int) -> bool,
                                k: nat, l: nat)
    requires var st := Cleaned(lines, |lines|, admit, filter, keep);
             k < l < |st.written| && PeriodStart(st.writtenAt[k]) == PeriodStart(st.writtenAt[l])
    ensures var st := Cleaned(lines, |lines|, admit, filter, keep);
            filter(st.written[k]) != filter(st.written[l])
  {
    CleanedInvariant(lines, |lines|, admit, filter, keep);
  }

  /**
    A line that is admitted and whose normalised form differs from
    that of every line written before it is written, whatever the clean-ups
    dropped.
   */
  lemma NewFormIsWritten(lines: seq<string>, admit: string -> bool, filter: string -> string, keep: (string, int) -> bool, j: nat)
    requires j < |lines| && admit(lines[j])
    requires var st := Cleaned(lines, |lines|, admit, filter, keep);
             forall k :: 0 <= k < |st.written| && st.writtenAt[k] < j ==> filter(st.written[k]) != filter(lines[j])
    ensures j in Cleaned(lines, |lines|, admit, filter, keep).writtenAt
  {
    CleanedInvariant(lines, |lines|, admit, filter, keep);
  }

  /**
    `rawTweetCleaner` over the lines of the input file: `filter` stands for the
    normalising chain (free digits removed, whitespace collapsed, trimmed,
    lower-cased) and `keep` for the criterion of the periodic clean-up. The
    lines returned are the ones written to the output file.
   */
  method RawTweetCleaner(lines: seq<string>, filter: string -> string, keep: (string, int) -> bool)
    returns (written: seq<string>)
    ensures written == Cleaned(lines, |lines|, ShouldInclude, filter, keep).written
  {
    var unique: map<string, int> := map[];
    ghost var writtenAt: seq<nat> := [];
    written := [];
    var lineCounter := 0;
    while lineCounter < |lines|
      invariant lineCounter <= |lines|
      invariant CleanerState(unique, written, writtenAt) == Cleaned(lines, lineCounter, ShouldInclude, filter, keep)
    {
      ghost var before := CleanerState(unique, written, writtenAt);
      var line := lines[lineCounter];
      ProgressTick(lineCounter);
      if lineCounter % 100000 == 0 {
        if lineCounter % 10000000 == 0 {
          unique := RemoveInfrequentItems(unique, keep);
        }
      }
      if ShouldInclude(line) {
        var filtered := filter(line);
        if filtered !in unique {
          // `incrementMapByValue(unique, filtered, 1)` on an absent key stores 0 + 1
          unique := unique[filtered := 1];
          written := written + [line];
          writtenAt := writtenAt + [lineCounter];
        }
      }
      assert CleanerState(unique, written, writtenAt) == CleanLine(before, lineCounter, line, ShouldInclude, filter, keep);
      lineCounter := lineCounter + 1;
    }
  }
}
