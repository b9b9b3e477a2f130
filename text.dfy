/**
  The few java.lang.String operations the preprocessors and filters rely on,
  written out over `seq<char>`: prefix/suffix/substring tests, ASCII lower-casing,
  `trim()`, and `split("\\s+")` together with the space-joining the n-gram
  miner uses to build its keys.
 */
module Text {

  /** The characters of the regex class `\s` (without UNICODE_CHARACTER_CLASS). */
  predicate IsSpace(c: char) {
    c == ' ' || c == '\t' || c == '\n' || c == '\U{B}' || c == '\U{C}' || c == '\r'
  }

  /** A token as the whitespace tokenizer produces it: non-empty and free of `\s`. */
  predicate IsWord(w: string) {
    |w| > 0 && forall i :: 0 <= i < |w| ==> !IsSpace(w[i])
  }

  predicate AllWords(ws: seq<string>) {
    forall i :: 0 <= i < |ws| ==> IsWord(ws[i])
  }

  /** `s.startsWith(p)` */
  predicate StartsWith(s: string, p: string) {
    |p| <= |s| && s[..|p|] == p
  }

  /** `s.endsWith(p)` */
  predicate EndsWith(s: string, p: string) {
    |p| <= |s| && s[|s| - |p|..] == p
  }

  /** `s.contains(p)` */
  predicate Contains(s: string, p: string) {
    exists i :: 0 <= i <= |s| - |p| && StartsWith(s[i..], p)
  }

  /** A string cannot contain a pattern that has a character the string lacks. */
  lemma NotContainsMissingChar(s: string, p: string, j: nat)
    requires j < |p| && p[j] !in s
    ensures !Contains(s, p)
  {
    forall i | 0 <= i <= |s| - |p|
      ensures !StartsWith(s[i..], p)
    {
      assert s[i..][..|p|][j] == s[i + j];
    }
  }

  function LowerAscii(c: char): char {
    if 'A' <= c <= 'Z' then (c as int + 32) as char else c
  }

  /** `s.toLowerCase()`, restricted to the ASCII letters. */
  function ToLowerAscii(s: string): (r: string)
    ensures |r| == |s|
    ensures forall i :: 0 <= i < |s| ==> r[i] == LowerAscii(s[i])
  {
    seq(|s|, i requires 0 <= i < |s| => LowerAscii(s[i]))
  }

  /** `a` and `b` are the same text once ASCII letters are lower-cased. */
  predicate EqualIgnoringAsciiCase(a: string, b: string) {
    |a| == |b| && forall j :: 0 <= j < |a| ==> LowerAscii(a[j]) == LowerAscii(b[j])
  }

  /** The text spells `p` at position `i` in some mix of ASCII case. */
  predicate SpelledAt(s: string, p: string, i: int) {
    0 <= i <= |s| - |p| && EqualIgnoringAsciiCase(s[i..i + |p|], p)
  }

  /**
    Looking for a lower-case pattern in the lower-cased text finds exactly the
    places where the text spells the pattern in any mix of ASCII case.
   */
  lemma LowerContainsIgnoringCase(s: string, p: string)
    requires ToLowerAscii(p) == p
    ensures Contains(ToLowerAscii(s), p) <==> exists i :: SpelledAt(s, p, i)
  {
    var t := ToLowerAscii(s);
    forall i | 0 <= i <= |s| - |p|
      ensures StartsWith(t[i..], p) <==> SpelledAt(s, p, i)
    {
      WindowLowered(s, p, i);
    }
  }

  lemma WindowLowered(s: string, p: string, i: nat)
    requires ToLowerAscii(p) == p && i + |p| <= |s|
    ensures StartsWith(ToLowerAscii(s)[i..], p) <==> EqualIgnoringAsciiCase(s[i..i + |p|], p)
  {
    var t := ToLowerAscii(s);
    var w := s[i..i + |p|];
    assert forall j :: 0 <= j < |p| ==> LowerAscii(p[j]) == p[j] by {
      forall j | 0 <= j < |p| ensures LowerAscii(p[j]) == p[j] {
        assert ToLowerAscii(p)[j] == LowerAscii(p[j]);
      }
    }
    assert forall j :: 0 <= j < |p| ==> t[i..][..|p|][j] == LowerAscii(w[j]);
    if EqualIgnoringAsciiCase(w, p) {
      assert t[i..][..|p|] == p;
    }
  }

  /** Number of leading characters up to `' '` that `String.trim()` removes. */
  function LeadingTrim(s: string): (k: nat)
    ensures k <= |s|
    ensures forall i :: 0 <= i < k ==> s[i] <= ' '
    ensures k < |s| ==> s[k] > ' '
  {
    if s == [] || s[0] > ' ' then 0 else 1 + LeadingTrim(s[1..])
  }

  /** Number of trailing characters up to `' '` that `String.trim()` removes. */
  function TrailingTrim(s: string): (k: nat)
    ensures k <= |s|
    ensures forall i :: |s| - k <= i < |s| ==> s[i] <= ' '
    ensures k < |s| ==> s[|s| - k - 1] > ' '
  {
    if s == [] || s[|s| - 1] > ' ' then 0 else 1 + TrailingTrim(s[..|s| - 1])
  }

  /** `String.trim()`: drops every leading and trailing character whose code is at most U+0020. */
  function Trim(s: string): (t: string)
    ensures |t| <= |s|
    ensures t != [] ==> t[0] > ' ' && t[|t| - 1] > ' '
    ensures LeadingTrim(s) + |t| <= |s| && t == s[LeadingTrim(s)..LeadingTrim(s) + |t|]
    ensures forall i :: LeadingTrim(s) + |t| <= i < |s| ==> s[i] <= ' '
  {
    var a := LeadingTrim(s);
    var b := TrailingTrim(s[a..]);
    TrailingTrimOfSuffix(s, a);
    s[a..|s| - b]
  }

  /** What `TrailingTrim` of a suffix says about the whole string. */
  lemma TrailingTrimOfSuffix(s: string, a: nat)
    requires a <= |s|
    ensures var b := TrailingTrim(s[a..]);
            a + b <= |s| &&
            (forall i :: |s| - b <= i < |s| ==> s[i] <= ' ') &&
            (a + b < |s| ==> s[|s| - b - 1] > ' ')
  {
    var rest := s[a..];
    var b := TrailingTrim(rest);
    forall i | |s| - b <= i < |s|
      ensures s[i] <= ' '
    {
      assert s[i] == rest[i - a];
    }
    if a + b < |s| {
      assert s[|s| - b - 1] == rest[|rest| - b - 1];
    }
  }

  /** Index of the first `\s` character of `s`, or `|s|` when there is none. */
  function FirstSpace(s: string): (i: nat)
    ensures i <= |s|
    ensures forall k :: 0 <= k < i ==> !IsSpace(s[k])
    ensures i < |s| ==> IsSpace(s[i])
  {
    if s == [] || IsSpace(s[0]) then 0 else 1 + FirstSpace(s[1..])
  }

  /** End of the maximal run of `\s` characters that starts at `i`. */
  function EndOfRun(s: string, i: nat): (j: nat)
    requires i <= |s|
    ensures i <= j <= |s|
    ensures forall k :: i <= k < j ==> IsSpace(s[k])
    ensures j < |s| ==> !IsSpace(s[j])
    decreases |s| - i
  {
    if i == |s| || !IsSpace(s[i]) then i else EndOfRun(s, i + 1)
  }

  /**
    The pieces between the maximal runs of `\s`, as `Pattern.split` collects them
    before trailing empty strings are dropped (a leading run gives a leading "").
   */
  function Fields(s: string): (r: seq<string>)
    ensures |r| >= 1
    decreases |s|
  {
    var i := FirstSpace(s);
    if i == |s| then [s]
    else
      var j := EndOfRun(s, i + 1);
      [s[..i]] + Fields(s[j..])
  }

  function DropTrailingEmpty(xs: seq<string>): (r: seq<string>)
    ensures |r| <= |xs| && r == xs[..|r|]
    ensures r != [] ==> r[|r| - 1] != ""
    ensures forall i :: |r| <= i < |xs| ==> xs[i] == ""
  {
    if xs != [] && xs[|xs| - 1] == "" then DropTrailingEmpty(xs[..|xs| - 1]) else xs
  }

  /**
    `s.split("\\s+")`: no match gives `[s]` itself; otherwise the pieces between
    the runs, with trailing empty pieces removed.
   */
  function Split(s: string): seq<string> {
    if FirstSpace(s) == |s| then [s] else DropTrailingEmpty(Fields(s))
  }

  /** The n-gram miner's key: the tokens joined by one space (`prefix + " " + word`). */
  function Join(ws: seq<string>): string
    decreases |ws|
  {
    if ws == [] then ""
    else if |ws| == 1 then ws[0]
    else ws[0] + " " + Join(ws[1..])
  }

  lemma {:induction false} JoinStartsWithFirst(ws: seq<string>)
    requires |ws| >= 1
    ensures |Join(ws)| >= |ws[0]| && Join(ws)[..|ws[0]|] == ws[0]
    ensures |ws| >= 2 ==> Join(ws) == ws[0] + " " + Join(ws[1..])
  {
  }

  /** The space-joined form of a word list contains no `\s` but the separators. */
  lemma {:induction false} JoinHead(ws: seq<string>)
    requires |ws| >= 1 && AllWords(ws)
    ensures |Join(ws)| > 0 && !IsSpace(Join(ws)[0])
    ensures !IsSpace(Join(ws)[|Join(ws)| - 1])
    ensures |ws| == 1 ==> FirstSpace(Join(ws)) == |Join(ws)|
  {
    if |ws| == 1 {
      WordHasNoSpace(ws[0]);
    } else {
      JoinHead(ws[1..]);
      var t := Join(ws[1..]);
      assert Join(ws) == ws[0] + " " + t;
      assert Join(ws)[|Join(ws)| - 1] == t[|t| - 1];
      assert Join(ws)[0] == ws[0][0];
    }
  }

  lemma WordHasNoSpace(w: string)
    requires IsWord(w)
    ensures FirstSpace(w) == |w|
  {
  }

  /** The pieces of a space-joined word list are exactly its words. */
  lemma {:induction false} FieldsJoin(ws: seq<string>)
    requires |ws| >= 1 && AllWords(ws)
    ensures Fields(Join(ws)) == ws
    decreases |ws|
  {
    if |ws| == 1 {
      WordHasNoSpace(ws[0]);
      assert ws == [ws[0]];
    } else {
      var tail := ws[1..];
      FieldsJoinStep(ws);
      FieldsJoin(tail);
      assert ws[..1] == [ws[0]];
      assert ws == ws[..1] + tail;
    }
  }

  /** The first piece of a space-joined list of two or more words is its first word. */
  lemma FieldsJoinStep(ws: seq<string>)
    requires |ws| >= 2 && AllWords(ws)
    ensures AllWords(ws[1..]) && Fields(Join(ws)) == [ws[0]] + Fields(Join(ws[1..]))
  {
    var tail := ws[1..];
    assert AllWords(tail) by {
      assert forall i :: 0 <= i < |tail| ==> tail[i] == ws[i + 1];
    }
    JoinStartsWithFirst(ws);
    JoinHead(tail);
    FieldsCons(ws[0], Join(tail));
  }

  /** A word, one space and a text that starts with a non-space split into the word and the text's pieces. */
  lemma FieldsCons(a: string, t: string)
    requires IsWord(a) && |t| >= 1 && !IsSpace(t[0])
    ensures Fields(a + " " + t) == [a] + Fields(t)
  {
    var s := a + " " + t;
    var n := |a|;
    assert forall k :: 0 <= k < n ==> s[k] == a[k];
    assert s[n] == ' ';
    FirstSpaceAt(s, n);
    assert s[n + 1] == t[0];
    assert EndOfRun(s, n + 1) == n + 1;
    assert s[..n] == a;
    assert s[n + 1..] == t;
  }

  lemma FirstSpaceAt(s: string, n: nat)
    requires n < |s| && IsSpace(s[n])
    requires forall k :: 0 <= k < n ==> !IsSpace(s[k])
    ensures FirstSpace(s) == n
  {
  }

  /**
    Splitting the space-joined form of a word list gives the list back, so the
    string keys the n-gram miner builds are in one-to-one correspondence with
    their token lists.
   */
  lemma {:induction false} SplitJoin(ws: seq<string>)
    requires |ws| >= 1 && AllWords(ws)
    ensures Split(Join(ws)) == ws
  {
    JoinHead(ws);
    FieldsJoin(ws);
    if |ws| >= 2 {
      var s := Join(ws);
      JoinStartsWithFirst(ws);
      assert s[|ws[0]|] == ' ';
      assert FirstSpace(s) <= |ws[0]|;
      assert DropTrailingEmpty(ws) == ws;
    }
  }

  lemma JoinInjective(ws: seq<string>, vs: seq<string>)
    requires |ws| >= 1 && AllWords(ws)
    requires |vs| >= 1 && AllWords(vs)
    requires Join(ws) == Join(vs)
    ensures ws == vs
  {
    SplitJoin(ws);
    SplitJoin(vs);
  }

  /** A single word splits to itself. */
  lemma SplitWord(w: string)
    requires IsWord(w)
    ensures Split(w) == [w]
  {
    WordHasNoSpace(w);
  }

  /**
    The pieces of a string that neither starts nor ends with `\s` are words.
   */
  lemma {:induction false} FieldsOfTrimmedAreWords(s: string)
    requires |s| > 0 && !IsSpace(s[0]) && !IsSpace(s[|s| - 1])
    ensures AllWords(Fields(s))
    decreases |s|
  {
    var i := FirstSpace(s);
    if i < |s| {
      var j := EndOfRun(s, i + 1);
      assert j < |s|;
      var rest := s[j..];
      assert rest[0] == s[j];
      assert rest[|rest| - 1] == s[|s| - 1];
      FieldsOfTrimmedAreWords(rest);
      assert i > 0;
      assert IsWord(s[..i]);
      assert Fields(s) == [s[..i]] + Fields(rest);
    }
  }

  /**
    Tokenizing a trimmed sentence: when the split yields more than one token,
    every token is a word.
   */
  lemma SplitTrimmedAreWords(sentence: string)
    ensures var tokens := Split(Trim(sentence));
            |tokens| != 1 ==> AllWords(tokens)
  {
    var t := Trim(sentence);
    if t != [] && FirstSpace(t) < |t| {
      assert !IsSpace(t[0]) && !IsSpace(t[|t| - 1]);
      FieldsOfTrimmedAreWords(t);
      var f := Fields(t);
      var d := DropTrailingEmpty(f);
      assert d == f[..|d|];
      assert forall k :: 0 <= k < |d| ==> d[k] == f[k];
    }
  }

  predicate NoSpace(w: string) {
    forall i :: 0 <= i < |w| ==> !IsSpace(w[i])
  }

  lemma {:induction false} FieldsHaveNoSpace(s: string)
    ensures forall k :: 0 <= k < |Fields(s)| ==> NoSpace(Fields(s)[k])
    decreases |s|
  {
    var i := FirstSpace(s);
    if i < |s| {
      var j := EndOfRun(s, i + 1);
      FieldsHaveNoSpace(s[j..]);
      assert NoSpace(s[..i]);
      assert Fields(s) == [s[..i]] + Fields(s[j..]);
    }
  }

  /** A non-space character at `p` lands in a non-empty piece, the `k`-th. */
  lemma {:induction false} FieldsHaveNonEmpty(s: string, p: nat) returns (k: nat)
    requires p < |s| && !IsSpace(s[p])
    ensures k < |Fields(s)| && Fields(s)[k] != ""
    decreases |s|
  {
    var i := FirstSpace(s);
    if i == |s| {
      k := 0;
    } else if p < i {
      assert |s[..i]| > 0;
      k := 0;
    } else {
      var j := EndOfRun(s, i + 1);
      assert p >= j;
      var k' := FieldsHaveNonEmpty(s[j..], p - j);
      assert Fields(s) == [s[..i]] + Fields(s[j..]);
      k := k' + 1;
    }
  }

  /**
    `split("\\s+")` as `Pattern.split` behaves: a string without `\s` comes
    back whole; otherwise no piece holds `\s` and trailing empty pieces are
    dropped, so a string of `\s` only gives no pieces at all, while a leading
    `\s` before some other character gives a leading empty piece.
   */
  lemma SplitLikeJava(s: string)
    ensures FirstSpace(s) == |s| ==> Split(s) == [s]
    ensures FirstSpace(s) < |s| ==> forall k :: 0 <= k < |Split(s)| ==> NoSpace(Split(s)[k])
    ensures FirstSpace(s) < |s| && Split(s) != [] ==> Split(s)[|Split(s)| - 1] != ""
    ensures |s| > 0 && (forall p :: 0 <= p < |s| ==> IsSpace(s[p])) ==> Split(s) == []
    ensures forall p :: 0 < p < |s| && IsSpace(s[0]) && !IsSpace(s[p]) ==> |Split(s)| >= 2 && Split(s)[0] == ""
  {
    var f := Fields(s);
    if FirstSpace(s) < |s| {
      var d := DropTrailingEmpty(f);
      FieldsHaveNoSpace(s);
      assert forall k :: 0 <= k < |d| ==> d[k] == f[k];
      if |s| > 0 && forall p :: 0 <= p < |s| ==> IsSpace(s[p]) {
        assert FirstSpace(s) == 0 && EndOfRun(s, 1) == |s|;
        assert s[|s|..] == [];
        assert f == [s[..0]] + Fields([]);
        assert f == ["", ""];
      }
      forall p | 0 < p < |s| && IsSpace(s[0]) && !IsSpace(s[p])
        ensures |d| >= 2 && d[0] == ""
      {
        var k := FieldsHaveNonEmpty(s, p);
        assert f[0] == s[..0];
        assert k < |d|;
      }
    }
  }
}
