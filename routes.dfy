/**
 * The parsing block of the food-scan handler (`POST /api/analyze`): from the free text the
 * generative model returns, it derives whether the food is vegan, a confidence percentage and
 * a food name, each with a fixed fallback, and builds the record handed to the store.
 */
module Routes {
  import opened Wrappers
  import opened JsString
  import Storage

  const DefaultConfidence: int := 85
  const DefaultFoodName: string := "Food Item"

  // ----- isVegan -----

  /** `text` contains `w` (given in lower case) in any mix of upper and lower case. */
  ghost predicate MentionsIgnoringCase(text: string, w: string)
  {
    exists i :: OccursAtIgnoreCase(text, w, i)
  }

  /** The vegan verdict: three substring tests on the lower-cased text. */
  function IsVegan(text: string): bool
  {
    var lower := ToLowerCase(text);
    Includes(lower, "vegan") && !Includes(lower, "not vegan") && !Includes(lower, "isn't vegan")
  }

  /** The verdict is "vegan" exactly when "vegan" is mentioned and neither negation is, in any case. */
  lemma IsVeganMeaning(text: string)
    ensures IsVegan(text) <==>
      MentionsIgnoringCase(text, "vegan")
      && !MentionsIgnoringCase(text, "not vegan")
      && !MentionsIgnoringCase(text, "isn't vegan")
  {
    IncludesLowerCase(text, "vegan");
    IncludesLowerCase(text, "not vegan");
    IncludesLowerCase(text, "isn't vegan");
  }

  /** One "not vegan", in any case and anywhere, decides the verdict whatever else the text says. */
  lemma NotVeganWins(text: string, i: int)
    requires OccursAtIgnoreCase(text, "not vegan", i)
    ensures !IsVegan(text)
  {
    IncludesLowerCase(text, "not vegan");
  }

  // ----- confidence: the first match of /(\d+)%/ -----

  /** The regular-expression class `\d` (ASCII digits only). */
  predicate IsDigit(c: char)
  {
    '0' <= c <= '9'
  }

  /** The end of the longest run of digits starting at `p` (the greedy `\d+`). */
  function DigitEnd(s: string, p: nat): (e: nat)
    requires p <= |s|
    ensures p <= e <= |s|
    ensures forall k :: p <= k < e ==> IsDigit(s[k])
    ensures e == |s| || !IsDigit(s[e])
    decreases |s| - p
  {
    if p < |s| && IsDigit(s[p]) then DigitEnd(s, p + 1) else p
  }

  ghost predicate AllDigits(d: string)
  {
    forall k :: 0 <= k < |d| ==> IsDigit(d[k])
  }

  /** `parseInt` on a run of decimal digits (unbounded, so no loss of precision). */
  function ParseDecimal(d: string): nat
    requires AllDigits(d)
  {
    if d == [] then 0
    else ParseDecimal(d[..|d| - 1]) * 10 + (d[|d| - 1] as int - '0' as int)
  }

  /** The decimal digits of `n`, without leading zeros. */
  function DecimalString(n: nat): (d: string)
    ensures AllDigits(d) && |d| >= 1
  {
    if n < 10 then [('0' as int + n) as char]
    else DecimalString(n / 10) + [('0' as int + n % 10) as char]
  }

  /** `parseInt` reads back every number written in decimal. */
  lemma {:induction false} ParseDecimalString(n: nat)
    ensures ParseDecimal(DecimalString(n)) == n
  {
    var d := DecimalString(n);
    if n >= 10 {
      ParseDecimalString(n / 10);
      assert d[..|d| - 1] == DecimalString(n / 10);
    }
  }

  /** A leading zero does not change the value: `parseInt("095")` is 95. */
  lemma {:induction false} ParseDecimalLeadingZero(d: string)
    requires AllDigits(d)
    ensures AllDigits("0" + d) && ParseDecimal("0" + d) == ParseDecimal(d)
    decreases |d|
  {
    if d != [] {
      assert ("0" + d)[..|"0" + d| - 1] == "0" + d[..|d| - 1];
      ParseDecimalLeadingZero(d[..|d| - 1]);
    }
  }

  /** The match of `/(\d+)%/` that starts at `p`, if any: the whole digit run from `p`, then `%`. */
  function MatchAt(s: string, p: nat): (m: Option<nat>)
    requires p <= |s|
    ensures m.Some? ==> p < |s| && IsDigit(s[p]) && PercentAfterDigit(s, DigitEnd(s, p))
  {
    if p < |s| && IsDigit(s[p]) then
      var e := DigitEnd(s, p);
      if e < |s| && s[e] == '%' then Some(ParseDecimal(s[p..e])) else None
    else None
  }

  /** The leftmost match at or after `p` (the regular expression's search order). */
  function FirstMatch(s: string, p: nat): (m: Option<nat>)
    requires p <= |s|
    ensures m.Some? ==> exists k :: p <= k < |s| && MatchAt(s, k) == m
    decreases |s| - p
  {
    if p == |s| then None
    else
      match MatchAt(s, p)
      case Some(v) => Some(v)
      case None => FirstMatch(s, p + 1)
  }

  /** `confidenceMatch ? parseInt(confidenceMatch[1]) : 85`. */
  function Confidence(text: string): (c: int)
    ensures c >= 0
  {
    FirstMatch(text, 0).GetOr(DefaultConfidence)
  }

  /** Index `q` holds a `%` right after a digit. */
  predicate PercentAfterDigit(s: string, q: int)
  {
    0 < q < |s| && s[q] == '%' && IsDigit(s[q - 1])
  }

  lemma {:induction false} NoPercentNoMatch(s: string, p: nat)
    requires p <= |s|
    requires forall q :: !PercentAfterDigit(s, q)
    ensures FirstMatch(s, p) == None
    decreases |s| - p
  {
    if p < |s| {
      if MatchAt(s, p).Some? {
        assert false;
      }
      NoPercentNoMatch(s, p + 1);
    }
  }

  /** A text with no digit immediately followed by `%` gets the default confidence, 85. */
  lemma ConfidenceDefault(text: string)
    requires forall q :: !PercentAfterDigit(text, q)
    ensures Confidence(text) == 85
  {
    NoPercentNoMatch(text, 0);
  }

  /** Before the start `p` of the first digit-run-then-`%`, no position starts a match. */
  lemma FirstMatchSkips(s: string, i: nat, p: nat, q: nat)
    requires i <= p < q < |s|
    requires PercentAfterDigit(s, q)
    requires forall k :: 0 < k < q ==> !PercentAfterDigit(s, k)
    requires p == 0 || !IsDigit(s[p - 1])
    ensures FirstMatch(s, i) == FirstMatch(s, p)
  {
    forall k | i <= k < p
      ensures FirstSearch(s)(k) == FirstSearch(s)(k + 1)
    {
      FirstMatchStep(s, k, p, q);
    }
    ChainEqual(FirstSearch(s), i, p);
  }

  /** The search for a confidence match from each position, as one function of the position. */
  ghost function FirstSearch(s: string): nat -> Option<nat>
  {
    (k: nat) => if k <= |s| then FirstMatch(s, k) else None
  }

  /** Before `p`, the search moves on to the next position. */
  lemma FirstMatchStep(s: string, i: nat, p: nat, q: nat)
    requires i < p < q < |s|
    requires forall k :: 0 < k < q ==> !PercentAfterDigit(s, k)
    requires !IsDigit(s[p - 1])
    ensures FirstSearch(s)(i) == FirstSearch(s)(i + 1)
  {
    NoMatchInsideRun(s, i, p, q);
    FirstSearchPasses(s, i);
  }

  /** Where no match starts, the search moves on to the next position. */
  lemma FirstSearchPasses(s: string, i: nat)
    requires i < |s| && MatchAt(s, i) == None
    ensures FirstSearch(s)(i) == FirstSearch(s)(i + 1)
  {
    assert FirstMatch(s, i) == FirstMatch(s, i + 1);
  }

  /** A digit run starting before `p` stops before `p`, so it is not followed by the first `%`. */
  lemma NoMatchInsideRun(s: string, i: nat, p: nat, q: nat)
    requires i < p < q < |s|
    requires forall k :: 0 < k < q ==> !PercentAfterDigit(s, k)
    requires !IsDigit(s[p - 1])
    ensures MatchAt(s, i) == None
  {
    if IsDigit(s[i]) {
      var e := DigitEnd(s, i);
      assert e < p;
      assert !PercentAfterDigit(s, e);
    }
  }

  /**
   * Otherwise the confidence is the value of the whole digit run that ends at the first `%`
   * preceded by a digit, with no clamping to 0..100.
   */
  lemma ConfidenceFirstPercent(text: string, p: nat, q: nat)
    requires p < q && PercentAfterDigit(text, q)
    requires forall k :: 0 < k < q ==> !PercentAfterDigit(text, k)
    requires forall k :: p <= k < q ==> IsDigit(text[k])
    requires p == 0 || !IsDigit(text[p - 1])
    ensures AllDigits(text[p..q]) && Confidence(text) == ParseDecimal(text[p..q])
  {
    assert AllDigits(text[p..q]) by {
      forall k | 0 <= k < q - p
        ensures IsDigit(text[p..q][k])
      {
        assert text[p..q][k] == text[p + k];
      }
    }
    var e := DigitEnd(text, p);
    assert e == q;
    assert MatchAt(text, p) == Some(ParseDecimal(text[p..q]));
    assert FirstMatch(text, p) == MatchAt(text, p);
    FirstMatchSkips(text, 0, p, q);
  }

  /** `n%` after a text with no earlier digit-then-`%` yields `n`, however large. */
  lemma ConfidenceOfPercent(before: string, n: nat, after: string)
    requires forall q :: !PercentAfterDigit(before, q)
    requires before == [] || !IsDigit(before[|before| - 1])
    ensures Confidence(before + DecimalString(n) + "%" + after) == n
  {
    var d := DecimalString(n);
    var text := before + d + "%" + after;
    var p, q := |before|, |before| + |d|;
    assert text[p..q] == d;
    forall k | 0 < k < q
      ensures !PercentAfterDigit(text, k)
    {
      if k < |before| {
        assert !PercentAfterDigit(before, k);
      } else if k > |before| {
        assert text[k] == d[k - |before|];
      }
    }
    ConfidenceFirstPercent(text, p, q);
    ParseDecimalString(n);
  }

  /** "This dish is not vegan." is judged not vegan, although it mentions "vegan". */
  lemma NotVeganExample()
    ensures !IsVegan("This dish is not vegan.")
  {
    assert OccursAtIgnoreCase("This dish is not vegan.", "not vegan", 13);
    NotVeganWins("This dish is not vegan.", 13);
  }

  /** "I am 95% sure" has confidence 95. */
  lemma ConfidenceExample()
    ensures Confidence("I am 95% sure") == 95
  {
    assert DecimalString(95) == "95";
    assert "I am " + DecimalString(95) + "%" + " sure" == "I am 95% sure";
    ConfidenceOfPercent("I am ", 95, " sure");
  }

  // ----- foodName -----

  /** The characters that end the name capture `[^.!?]+`. */
  predicate IsTerminator(c: char)
  {
    c == '.' || c == '!' || c == '?'
  }

  /** The end of the longest run from `j` free of `.`, `!` and `?` (the greedy `[^.!?]+`). */
  function NameEnd(line: string, j: nat): (e: nat)
    requires j <= |line|
    ensures j <= e <= |line|
    ensures forall k :: j <= k < e ==> !IsTerminator(line[k])
    ensures e == |line| || IsTerminator(line[e])
    decreases |line| - j
  {
    if j < |line| && !IsTerminator(line[j]) then NameEnd(line, j + 1) else j
  }

  predicate IsArticle(c: char)
  {
    c == 'a' || c == 'A'
  }

  /** A line is examined only if it mentions "this" and one of the three phrases, in any case. */
  function IsCandidateLine(line: string): bool
  {
    var lower := ToLowerCase(line);
    Includes(lower, "this")
    && (Includes(lower, "appears to be") || Includes(lower, "looks like") || Includes(lower, "is a"))
  }

  /** One of the alternatives `appears to be`, `looks like`, `is a` occurs at `p`, ignoring case. */
  predicate PhraseAt(line: string, p: nat)
  {
    OccursAtIgnoreCase(line, "appears to be", p)
    || OccursAtIgnoreCase(line, "looks like", p)
    || OccursAtIgnoreCase(line, "is a", p)
  }

  /** An occurrence of `w` at `p` begins with `w`'s first letter, in either case. */
  lemma FirstLetter(line: string, w: string, p: nat)
    requires w != []
    ensures OccursAtIgnoreCase(line, w, p) ==> LowerChar(line[p]) == w[0]
  {
    if OccursAtIgnoreCase(line, w, p) {
      assert LowerChar(line[p + 0]) == w[0];
    }
  }

  /**
   * The end of the alternative matched (ignoring case) at `p`. The three alternatives start
   * with different letters, so at most one of them occurs at any position.
   */
  function PhraseEnd(line: string, p: nat): (e: Option<nat>)
    ensures e.Some? <==> PhraseAt(line, p)
    ensures OccursAtIgnoreCase(line, "appears to be", p) ==> e == Some(p + 13)
    ensures OccursAtIgnoreCase(line, "looks like", p) ==> e == Some(p + 10)
    ensures OccursAtIgnoreCase(line, "is a", p) ==> e == Some(p + 4)
    ensures e.Some? ==> p < e.value <= |line|
  {
    FirstLetter(line, "appears to be", p);
    FirstLetter(line, "looks like", p);
    FirstLetter(line, "is a", p);
    if OccursAtIgnoreCase(line, "appears to be", p) then Some(p + 13)
    else if OccursAtIgnoreCase(line, "looks like", p) then Some(p + 10)
    else if OccursAtIgnoreCase(line, "is a", p) then Some(p + 4)
    else None
  }

  /**
   * The greedy capture `([^.!?]+)` starting at `j`: it runs up to the first `.`, `!` or `?`
   * at or after `j`, or to the end of the line.
   */
  function CaptureFrom(line: string, j: nat): (c: string)
    requires j < |line| && !IsTerminator(line[j])
    ensures |c| >= 1 && j + |c| <= |line| && c == line[j..j + |c|]
    ensures forall k :: 0 <= k < |c| ==> !IsTerminator(c[k])
    ensures j + |c| == |line| || IsTerminator(line[j + |c|])
  {
    line[j..NameEnd(line, j)]
  }

  /**
   * The capture when an article and whitespace follow at `e`: the group `a\s+` takes the
   * whitespace run; failing that, its `\s+` gives back one character; failing that, the
   * group is skipped and the article itself starts the capture.
   */
  function ArticleCapture(line: string, e: nat): (c: string)
    requires e + 1 < |line| && IsArticle(line[e]) && IsSpace(line[e + 1])
    ensures |c| >= 1 && forall k :: 0 <= k < |c| ==> !IsTerminator(c[k])
  {
    var e2 := SpaceEnd(line, e + 1);
    if e2 < |line| && !IsTerminator(line[e2]) then CaptureFrom(line, e2)
    else if e2 > e + 2 then CaptureFrom(line, e2 - 1)
    else CaptureFrom(line, e)
  }

  /**
   * The capture group of `/(?:appears to be|looks like|is a)\s+(?:a\s+)?([^.!?]+)/i` when
   * the match starts at `p`, with the engine's backtracking worked out: the greedy `\s+`
   * runs to `e`; the optional article group is tried first, then dropped; only when
   * nothing capturable follows does a `\s+` give back one whitespace character, which the
   * capture then takes.
   */
  function CaptureAt(line: string, p: nat): (c: Option<string>)
    requires p <= |line|
    ensures c.Some? ==> |c.value| >= 1 && forall k :: 0 <= k < |c.value| ==> !IsTerminator(c.value[k])
  {
    match PhraseEnd(line, p)
    case None => None
    case Some(e0) =>
      var e := SpaceEnd(line, e0);
      if e == e0 then None
      else if e + 1 < |line| && IsArticle(line[e]) && IsSpace(line[e + 1]) then Some(ArticleCapture(line, e))
      else if e < |line| && !IsTerminator(line[e]) then Some(CaptureFrom(line, e))
      else if e > e0 + 1 then Some(CaptureFrom(line, e - 1))
      else None
  }

  /** `line.match(...)`: the leftmost match, searching from `p`. */
  function NameMatch(line: string, p: nat): (c: Option<string>)
    requires p <= |line|
    ensures c.Some? ==> |c.value| >= 1 && forall k :: 0 <= k < |c.value| ==> !IsTerminator(c.value[k])
    decreases |line| - p
  {
    if p == |line| then None
    else
      match CaptureAt(line, p)
      case Some(c) => Some(c)
      case None => NameMatch(line, p + 1)
  }

  /** A name as the handler can produce it: trimmed, and free of `.`, `!` and `?`. */
  ghost predicate IsCleanName(n: string)
  {
    && (n == [] || (!IsSpace(n[0]) && !IsSpace(n[|n| - 1])))
    && forall k :: 0 <= k < |n| ==> !IsTerminator(n[k])
  }

  /** The name one line yields, if it is a candidate and the regular expression matches it. */
  function LineName(line: string): (n: Option<string>)
    ensures n.Some? ==> IsCleanName(n.value)
  {
    if IsCandidateLine(line) then
      match NameMatch(line, 0)
      case Some(c) =>
        TrimKeepsOnly(c, IsTerminator);
        Some(Trim(c))
      case None => None
    else None
  }

  /** The name from the first line that yields one. */
  function FirstName(lines: seq<string>): (n: Option<string>)
    ensures n.Some? ==> IsCleanName(n.value)
  {
    if lines == [] then None
    else
      match LineName(lines[0])
      case Some(n) => Some(n)
      case None => FirstName(lines[1..])
  }

  /** No name comes out exactly when no line yields one. */
  lemma {:induction false} FirstNameNone(lines: seq<string>)
    ensures FirstName(lines).None? <==> forall k :: 0 <= k < |lines| ==> LineName(lines[k]).None?
  {
    if lines != [] {
      FirstNameNone(lines[1..]);
      assert forall k :: 1 <= k < |lines| ==> lines[k] == lines[1..][k - 1];
    }
  }

  /** The food name of a response: the first line's name, or "Food Item". */
  function FoodName(text: string): (n: string)
    ensures IsCleanName(n)
  {
    FirstName(Split(text, '\n')).GetOr(DefaultFoodName)
  }

  lemma {:induction false} FirstNameAt(lines: seq<string>, k: nat)
    requires k < |lines| && LineName(lines[k]).Some?
    requires forall j :: 0 <= j < k ==> LineName(lines[j]).None?
    ensures FirstName(lines) == LineName(lines[k])
  {
    if k > 0 {
      assert lines[1..][k - 1] == lines[k];
      forall j | 0 <= j < k - 1
        ensures LineName(lines[1..][j]).None?
      {
        assert lines[1..][j] == lines[j + 1];
      }
      FirstNameAt(lines[1..], k - 1);
    }
  }

  /** Lines are examined in order: the first line that yields a name decides, later lines are ignored. */
  lemma FoodNameFirstLine(text: string, k: nat)
    requires k < |Split(text, '\n')| && LineName(Split(text, '\n')[k]).Some?
    requires forall j :: 0 <= j < k ==> LineName(Split(text, '\n')[j]).None?
    ensures FoodName(text) == LineName(Split(text, '\n')[k]).value
  {
    FirstNameAt(Split(text, '\n'), k);
  }

  /** No line mentioning "this" together with one of the phrases: the name is "Food Item". */
  lemma FoodNameDefault(text: string)
    requires forall k :: 0 <= k < |Split(text, '\n')| ==> !IsCandidateLine(Split(text, '\n')[k])
    ensures FoodName(text) == "Food Item"
  {
    var lines := Split(text, '\n');
    forall k | 0 <= k < |lines|
      ensures LineName(lines[k]).None?
    {
    }
    FirstNameNone(lines);
  }

  /** A line is a candidate exactly when it mentions "this" and one of the phrases, in any case. */
  lemma IsCandidateLineMeaning(line: string)
    ensures IsCandidateLine(line) <==>
      MentionsIgnoringCase(line, "this")
      && (MentionsIgnoringCase(line, "appears to be")
          || MentionsIgnoringCase(line, "looks like")
          || MentionsIgnoringCase(line, "is a"))
  {
    IncludesLowerCase(line, "this");
    IncludesLowerCase(line, "appears to be");
    IncludesLowerCase(line, "looks like");
    IncludesLowerCase(line, "is a");
  }

  /** `ph` is one of the three alternatives, in any mix of upper and lower case. */
  ghost predicate IsPhrase(ph: string)
  {
    (|ph| == 13 && OccursAtIgnoreCase(ph, "appears to be", 0))
    || (|ph| == 10 && OccursAtIgnoreCase(ph, "looks like", 0))
    || (|ph| == 4 && OccursAtIgnoreCase(ph, "is a", 0))
  }

  /** No match starts at `p`: the pattern captures nothing there. */
  ghost predicate NoMatchAt(line: string, p: nat)
    requires p <= |line|
  {
    CaptureAt(line, p).None?
  }

  /** An alternative written into a line is matched there and ends where it ends. */
  lemma PhraseInLine(pre: string, ph: string, tail: string)
    requires IsPhrase(ph)
    ensures PhraseEnd(pre + ph + tail, |pre|) == Some(|pre| + |ph|)
  {
    var line := pre + ph + tail;
    assert forall k :: 0 <= k < |ph| ==> line[|pre| + k] == ph[k];
  }

  /** No match starts at any position before `n`. */
  ghost predicate NoMatchBefore(line: string, n: nat)
    requires n <= |line|
  {
    forall k :: 0 <= k < n ==> NoMatchAt(line, k)
  }

  lemma NoMatchBeforeNext(line: string, n: nat)
    requires n < |line| && NoMatchBefore(line, n) && NoMatchAt(line, n)
    ensures NoMatchBefore(line, n + 1)
  {
  }

  /** The search from `i` moves past every position before `n`, where no match starts. */
  lemma NameMatchSkips(line: string, i: nat, n: nat)
    requires i <= n <= |line| && NoMatchBefore(line, n)
    ensures NameMatch(line, i) == NameMatch(line, n)
  {
    forall k | i <= k < n
      ensures Search(line)(k) == Search(line)(k + 1)
    {
      NameMatchStep(line, k, n);
    }
    ChainEqual(Search(line), i, n);
  }

  /** The search for a match from each position, as one function of the position. */
  ghost function Search(line: string): nat -> Option<string>
  {
    (k: nat) => if k <= |line| then NameMatch(line, k) else None
  }

  /** Values that agree with their successors from `i` up to `n` agree at `i` and `n`. */
  lemma {:induction false} ChainEqual<T>(f: nat -> T, i: nat, n: nat)
    requires i <= n
    requires forall k :: i <= k < n ==> f(k) == f(k + 1)
    ensures f(i) == f(n)
    decreases n - i
  {
    if i < n {
      ChainEqual(f, i + 1, n);
    }
  }

  /** Where no match starts, at `p` before `n`, the search moves on to the next position. */
  lemma NameMatchStep(line: string, p: nat, n: nat)
    requires p < n <= |line| && NoMatchBefore(line, n)
    ensures Search(line)(p) == Search(line)(p + 1)
  {
    assert NoMatchAt(line, p);
    assert NameMatch(line, p) == NameMatch(line, p + 1);
  }

  /** With `NoMatchBefore`, the leftmost position where the pattern captures decides the match. */
  lemma NameMatchLeftmost(line: string, p: nat)
    requires p <= |line| && NoMatchBefore(line, p)
    ensures p < |line| && CaptureAt(line, p).Some? ==> NameMatch(line, 0) == CaptureAt(line, p)
    ensures p == |line| ==> NameMatch(line, 0) == None
  {
    NameMatchSkips(line, 0, p);
  }

  /** The capture from `j` is the `n` characters there when none ends it and a terminator or the end follows. */
  lemma CaptureFromIs(line: string, j: nat, n: nat)
    requires 1 <= n && j + n <= |line|
    requires forall k :: j <= k < j + n ==> !IsTerminator(line[k])
    requires j + n == |line| || IsTerminator(line[j + n])
    ensures !IsTerminator(line[j]) && CaptureFrom(line, j) == line[j..j + n]
  {
    var c := CaptureFrom(line, j);
    assert |c| == n;
  }

  /**
   * The match at `p` when the phrase ending at `e0` is followed by the whitespace run up to `e`
   * and no article group: the capture is the `n` characters from `e`.
   */
  lemma CaptureAtPlain(line: string, p: nat, e0: nat, e: nat, n: nat)
    requires p <= |line| && PhraseEnd(line, p) == Some(e0)
    requires 1 <= n && e0 < e && e + n <= |line|
    requires (forall k :: e0 <= k < e ==> IsSpace(line[k])) && !IsSpace(line[e])
    requires !(e + 1 < |line| && IsArticle(line[e]) && IsSpace(line[e + 1]))
    requires forall k :: e <= k < e + n ==> !IsTerminator(line[k])
    requires e + n == |line| || IsTerminator(line[e + n])
    ensures CaptureAt(line, p) == Some(line[e..e + n])
  {
    SpaceEndIs(line, e0, e);
    CaptureFromIs(line, e, n);
  }

  /** When whitespace after the phrase runs to an article and more whitespace, the article group decides the capture. */
  lemma CaptureAtIsArticle(line: string, p: nat, e0: nat, e: nat)
    requires p <= |line| && PhraseEnd(line, p) == Some(e0) && e0 <= |line|
    requires SpaceEnd(line, e0) == e && e != e0
    requires e + 1 < |line| && IsArticle(line[e]) && IsSpace(line[e + 1])
    ensures CaptureAt(line, p) == Some(ArticleCapture(line, e))
  {
  }

  /** The article group takes the whitespace up to `j`, and the capture is the `n` characters from `j`. */
  lemma ArticleCaptureIs(line: string, e: nat, j: nat, n: nat)
    requires 1 <= n && e + 1 < j && j + n <= |line|
    requires IsArticle(line[e]) && (forall k :: e + 1 <= k < j ==> IsSpace(line[k])) && !IsSpace(line[j])
    requires forall k :: j <= k < j + n ==> !IsTerminator(line[k])
    requires j + n == |line| || IsTerminator(line[j + n])
    ensures ArticleCapture(line, e) == line[j..j + n]
  {
    SpaceEndIs(line, e + 1, j);
    CaptureFromIs(line, j, n);
  }

  /**
   * The match at `p` when the whitespace after the phrase is followed by an article, more
   * whitespace up to `j`, and the `n` characters from `j`: the article group is dropped.
   */
  lemma CaptureAtArticle(line: string, p: nat, e0: nat, e: nat, j: nat, n: nat)
    requires p <= |line| && PhraseEnd(line, p) == Some(e0)
    requires 1 <= n && e0 < e && e + 1 < j && j + n <= |line|
    requires forall k :: e0 <= k < e ==> IsSpace(line[k])
    requires IsArticle(line[e]) && (forall k :: e + 1 <= k < j ==> IsSpace(line[k])) && !IsSpace(line[j])
    requires forall k :: j <= k < j + n ==> !IsTerminator(line[k])
    requires j + n == |line| || IsTerminator(line[j + n])
    ensures CaptureAt(line, p) == Some(line[j..j + n])
  {
    SpaceEndIs(line, e0, e);
    CaptureAtIsArticle(line, p, e0, e);
    ArticleCaptureIs(line, e, j, n);
  }

  /** A match starts only where a phrase occurs and whitespace follows it. */
  lemma CaptureAtNeedsPhraseAndSpace(line: string, p: nat)
    requires p <= |line|
    ensures CaptureAt(line, p).Some? ==>
      PhraseEnd(line, p).Some? && PhraseEnd(line, p).value < |line| && IsSpace(line[PhraseEnd(line, p).value])
  {
  }

  /**
   * The match at `p` when the whitespace after the phrase runs from `e0` to `e` and only a
   * terminator or the end of the line follows: with two or more whitespace characters the
   * `\s+` gives back the last one and the capture is that one character; with one there is
   * no match.
   */
  lemma CaptureAtGiveBack(line: string, p: nat, e0: nat, e: nat)
    requires p <= |line| && PhraseEnd(line, p) == Some(e0)
    requires e0 < e <= |line|
    requires forall k :: e0 <= k < e ==> IsSpace(line[k])
    requires e == |line| || IsTerminator(line[e])
    ensures CaptureAt(line, p) == if e > e0 + 1 then Some(line[e - 1..e]) else None
  {
    SpaceEndIs(line, e0, e);
    if e > e0 + 1 {
      CaptureFromIs(line, e - 1, 1);
    }
  }

  /**
   * The article group when only whitespace up to `e2` and then a terminator or the end of the
   * line follow the article at `e`: with two or more whitespace characters the last one is
   * given back and captured; with one the group is skipped and the article and that
   * whitespace character are captured.
   */
  lemma ArticleCaptureGiveBack(line: string, e: nat, e2: nat)
    requires e + 1 < e2 <= |line| && IsArticle(line[e])
    requires forall k :: e + 1 <= k < e2 ==> IsSpace(line[k])
    requires e2 == |line| || IsTerminator(line[e2])
    ensures ArticleCapture(line, e) == if e2 > e + 2 then line[e2 - 1..e2] else line[e..e2]
  {
    SpaceEndIs(line, e + 1, e2);
    if e2 > e + 2 {
      CaptureFromIs(line, e2 - 1, 1);
    } else {
      CaptureFromIs(line, e, 2);
    }
  }

  /** The match at `p` when the phrase is followed by whitespace, an article and whitespace, then a terminator or the end. */
  lemma CaptureAtArticleGiveBack(line: string, p: nat, e0: nat, e: nat, e2: nat)
    requires p <= |line| && PhraseEnd(line, p) == Some(e0)
    requires e0 < e && e + 1 < e2 <= |line|
    requires forall k :: e0 <= k < e ==> IsSpace(line[k])
    requires IsArticle(line[e]) && forall k :: e + 1 <= k < e2 ==> IsSpace(line[k])
    requires e2 == |line| || IsTerminator(line[e2])
    ensures CaptureAt(line, p) == Some(if e2 > e + 2 then line[e2 - 1..e2] else line[e..e2])
  {
    SpaceEndIs(line, e0, e);
    CaptureAtIsArticle(line, p, e0, e);
    ArticleCaptureGiveBack(line, e, e2);
  }

  /** The match at the start of `ph` in `pre + ph + ws + name + rest` captures exactly `name`. */
  lemma CaptureAfterPhrase(pre: string, ph: string, ws: string, name: string, rest: string)
    requires IsPhrase(ph) && ws != [] && AllSpace(ws)
    requires name != [] && !IsSpace(name[0])
    requires !(|name| >= 2 && IsArticle(name[0]) && IsSpace(name[1]))
    requires forall k :: 0 <= k < |name| ==> !IsTerminator(name[k])
    requires rest == [] || IsTerminator(rest[0])
    ensures CaptureAt(pre + ph + ws + name + rest, |pre|) == Some(name)
  {
    var head := pre + ph;
    var tail := name + rest;
    var line := head + ws + tail;
    var e0 := |head|;
    var e := e0 + |ws|;
    var n := |name|;
    assert line == pre + ph + ws + name + rest;
    assert PhraseEnd(line, |pre|) == Some(e0) by {
      PhraseInLine(pre, ph, ws + tail);
      assert pre + ph + (ws + tail) == line;
    }
    assert forall k :: e0 <= k < e ==> IsSpace(line[k]) by {
      assert forall k :: e0 <= k < e ==> line[k] == ws[k - e0];
    }
    assert line[e..e + n] == name && line[e..] == tail;
    assert !IsSpace(line[e]) && !(e + 1 < |line| && IsArticle(line[e]) && IsSpace(line[e + 1])) by {
      assert line[e] == name[0];
      if n >= 2 {
        assert line[e + 1] == name[1];
      } else if e + 1 < |line| {
        assert line[e + 1] == rest[0];
      }
    }
    assert forall k :: e <= k < e + n ==> !IsTerminator(line[k]) by {
      assert forall k :: e <= k < e + n ==> line[k] == name[k - e];
    }
    assert e + n == |line| || IsTerminator(line[e + n]) by {
      if e + n < |line| {
        assert line[e + n] == rest[0];
      }
    }
    CaptureAtPlain(line, |pre|, e0, e, n);
  }

  /**
   * A line made of `pre`, a phrase `ph`, whitespace `ws`, a `name` and `rest`, with no match
   * starting in `pre`: the leftmost match is the phrase `ph` and the capture is exactly `name`,
   * which runs to the first `.`, `!` or `?`.
   */
  lemma NameAfterPhrase(line: string, pre: string, ph: string, ws: string, name: string, rest: string)
    requires line == pre + ph + ws + name + rest
    requires IsPhrase(ph) && ws != [] && AllSpace(ws)
    requires name != [] && !IsSpace(name[0])
    requires !(|name| >= 2 && IsArticle(name[0]) && IsSpace(name[1]))
    requires forall k :: 0 <= k < |name| ==> !IsTerminator(name[k])
    requires rest == [] || IsTerminator(rest[0])
    requires NoMatchBefore(line, |pre|)
    ensures NameMatch(line, 0) == Some(name)
    ensures IsCandidateLine(line) ==> LineName(line) == Some(Trim(name))
  {
    CaptureAfterPhrase(pre, ph, ws, name, rest);
    NameMatchSkips(line, 0, |pre|);
  }

  /**
   * Where the pieces of `line == head + ws + art + ws2 + name + rest` sit: whitespace, the
   * article at `e`, whitespace up to `j`, then `name`, which a terminator or the end follows.
   */
  lemma ArticleLayout(line: string, head: string, ws: string, art: string, ws2: string,
                      name: string, rest: string)
    requires line == head + ws + art + ws2 + name + rest
    requires ws != [] && AllSpace(ws) && (art == "a" || art == "A") && ws2 != [] && AllSpace(ws2)
    requires name != [] && !IsSpace(name[0])
    requires forall k :: 0 <= k < |name| ==> !IsTerminator(name[k])
    requires rest == [] || IsTerminator(rest[0])
    ensures var e := |head| + |ws|; var j := e + 1 + |ws2|;
      && |head| < e && e + 1 < j && j + |name| <= |line|
      && (forall k :: |head| <= k < e ==> IsSpace(line[k]))
      && IsArticle(line[e]) && (forall k :: e + 1 <= k < j ==> IsSpace(line[k])) && !IsSpace(line[j])
      && (forall k :: j <= k < j + |name| ==> !IsTerminator(line[k]))
      && (j + |name| == |line| || IsTerminator(line[j + |name|]))
      && line[j..j + |name|] == name
  {
    var e := |head| + |ws|;
    var j := e + 1 + |ws2|;
    var tail := name + rest;
    assert line == head + ws + art + ws2 + tail;
    assert forall k :: |head| <= k < e ==> line[k] == ws[k - |head|];
    assert line[e] == art[0];
    assert forall k :: e + 1 <= k < j ==> line[k] == ws2[k - e - 1];
    assert line[j..] == tail;
    assert forall k :: j <= k < j + |name| ==> line[k] == name[k - j];
    if j + |name| < |line| {
      assert line[j + |name|] == rest[0];
    }
  }

  /** The match at the start of `ph` in `pre + ph + ws + art + ws2 + name + rest` captures exactly `name`. */
  lemma CaptureAfterArticle(pre: string, ph: string, ws: string, art: string, ws2: string,
                            name: string, rest: string)
    requires IsPhrase(ph) && ws != [] && AllSpace(ws)
    requires art == "a" || art == "A"
    requires ws2 != [] && AllSpace(ws2)
    requires name != [] && !IsSpace(name[0])
    requires forall k :: 0 <= k < |name| ==> !IsTerminator(name[k])
    requires rest == [] || IsTerminator(rest[0])
    ensures CaptureAt(pre + ph + ws + art + ws2 + name + rest, |pre|) == Some(name)
  {
    var line := pre + ph + ws + art + ws2 + name + rest;
    var head := pre + ph;
    var e := |head| + |ws|;
    ArticleLayout(line, head, ws, art, ws2, name, rest);
    assert PhraseEnd(line, |pre|) == Some(|head|) by {
      PhraseInLine(pre, ph, ws + art + ws2 + name + rest);
      assert pre + ph + (ws + art + ws2 + name + rest) == line;
    }
    CaptureAtArticle(line, |pre|, |head|, e, e + 1 + |ws2|, |name|);
  }

  /**
   * A line made of `pre`, a phrase `ph`, whitespace `ws`, the article `art` ("a" in either
   * case), more whitespace `ws2`, a `name` and `rest`, with no match starting in `pre`: the
   * article and the whitespace after it are dropped and the capture is exactly `name`.
   */
  lemma NameAfterArticle(line: string, pre: string, ph: string, ws: string, art: string,
                         ws2: string, name: string, rest: string)
    requires line == pre + ph + ws + art + ws2 + name + rest
    requires IsPhrase(ph) && ws != [] && AllSpace(ws)
    requires art == "a" || art == "A"
    requires ws2 != [] && AllSpace(ws2)
    requires name != [] && !IsSpace(name[0])
    requires forall k :: 0 <= k < |name| ==> !IsTerminator(name[k])
    requires rest == [] || IsTerminator(rest[0])
    requires NoMatchBefore(line, |pre|)
    ensures NameMatch(line, 0) == Some(name)
    ensures IsCandidateLine(line) ==> LineName(line) == Some(Trim(name))
  {
    CaptureAfterArticle(pre, ph, ws, art, ws2, name, rest);
    NameMatchSkips(line, 0, |pre|);
  }

  /** No alternative starts with a letter other than `a`, `l` or `i`, in either case. */
  lemma NoPhraseAt(line: string, p: nat)
    requires p < |line| && LowerChar(line[p]) != 'a' && LowerChar(line[p]) != 'l' && LowerChar(line[p]) != 'i'
    ensures NoMatchAt(line, p)
  {
    FirstLetter(line, "appears to be", p);
    FirstLetter(line, "looks like", p);
    FirstLetter(line, "is a", p);
  }

  /** In "This appears ...", the `is a` inside "This appears" is not followed by whitespace. */
  lemma ExampleIsAInThis(text: string)
    requires text == "This appears to be a vegan salad."
    ensures NoMatchAt(text, 2)
  {
    assert OccursAtIgnoreCase(text, "is a", 2) by {
      forall k | 0 <= k < 4
        ensures LowerChar(text[2 + k]) == "is a"[k]
      {
        if k == 0 {} else if k == 1 {} else if k == 2 {} else {}
      }
    }
    assert PhraseEnd(text, 2) == Some(6);
    assert text[6] == 'p';
  }

  /** No match starts at positions 0 and 1, the "Th" of "This". */
  lemma ExampleNoMatchUpTo1(text: string)
    requires text == "This appears to be a vegan salad."
    ensures NoMatchBefore(text, 2)
  {
    NoPhraseAt(text, 0);
    NoMatchBeforeNext(text, 0);
    NoPhraseAt(text, 1);
    NoMatchBeforeNext(text, 1);
  }

  /** No match starts at positions 0 to 2, the "Thi" of "This". */
  lemma ExampleNoMatchUpTo2(text: string)
    requires text == "This appears to be a vegan salad."
    ensures NoMatchBefore(text, 3)
  {
    ExampleNoMatchUpTo1(text);
    ExampleIsAInThis(text);
    NoMatchBeforeNext(text, 2);
  }

  /** No match starts in "This". */
  lemma ExampleNoMatchUpTo3(text: string)
    requires text == "This appears to be a vegan salad."
    ensures NoMatchBefore(text, 4)
  {
    ExampleNoMatchUpTo2(text);
    NoPhraseAt(text, 3);
    NoMatchBeforeNext(text, 3);
  }

  /** No match starts in "This " before "appears to be". */
  lemma ExampleNoEarlyMatch(text: string)
    requires text == "This appears to be a vegan salad."
    ensures NoMatchBefore(text, 5)
  {
    ExampleNoMatchUpTo3(text);
    NoPhraseAt(text, 4);
    NoMatchBeforeNext(text, 4);
  }

  /** "This appears to be a vegan salad." mentions "this" and "appears to be". */
  lemma ExampleIsCandidate(text: string)
    requires text == "This appears to be a vegan salad."
    ensures IsCandidateLine(text)
  {
    assert OccursAtIgnoreCase(text, "this", 0) by {
      forall k | 0 <= k < 4
        ensures LowerChar(text[k]) == "this"[k]
      {
        if k == 0 {} else if k == 1 {} else if k == 2 {} else {}
      }
    }
    assert text == "This " + "appears to be" + " a vegan salad.";
    PhraseInLine("This ", "appears to be", " a vegan salad.");
    IsCandidateLineMeaning(text);
  }

  /** The leftmost match in "This appears to be a vegan salad." captures "vegan salad". */
  lemma ExampleMatch(text: string)
    requires text == "This appears to be a vegan salad."
    ensures NameMatch(text, 0) == Some("vegan salad")
  {
    assert text == "This " + "appears to be" + " " + "a" + " " + "vegan salad" + ".";
    assert IsPhrase("appears to be") && AllSpace(" ");
    assert forall k :: 0 <= k < |"vegan salad"| ==> !IsTerminator("vegan salad"[k]);
    ExampleNoEarlyMatch(text);
    NameAfterArticle(text, "This ", "appears to be", " ", "a", " ", "vegan salad", ".");
  }

  /** The line "This appears to be a vegan salad." yields the name "vegan salad". */
  lemma ExampleLineName(text: string)
    requires text == "This appears to be a vegan salad."
    ensures LineName(text) == Some("vegan salad")
  {
    TrimUnchanged("vegan salad");
    ExampleIsCandidate(text);
    ExampleMatch(text);
  }

  /** "This appears to be a vegan salad." gives the food name "vegan salad". */
  lemma FoodNameExample(text: string)
    requires text == "This appears to be a vegan salad."
    ensures FoodName(text) == "vegan salad"
  {
    SplitWithoutSep(text, '\n');
    ExampleLineName(text);
    assert FirstName([text]) == LineName(text);
  }

  /** The handler's loop over `text.split('\n')`, leaving at the first line that yields a name. */
  method ExtractFoodName(text: string) returns (foodName: string)
    ensures foodName == FoodName(text)
  {
    var lines := Split(text, '\n');
    foodName := DefaultFoodName;
    var i := 0;
    while i < |lines|
      invariant 0 <= i <= |lines|
      invariant foodName == DefaultFoodName
      invariant FirstName(lines) == FirstName(lines[i..])
    {
      var line := lines[i];
      assert lines[i..][0] == line && lines[i..][1..] == lines[i + 1..];
      if IsCandidateLine(line) {
        var nameMatch := NameMatch(line, 0);
        if nameMatch.Some? {
          foodName := Trim(nameMatch.value);
          break;
        }
      }
      i := i + 1;
    }
  }

  /**
   * The whole parsing block: every text, the empty one included, yields all three fields,
   * and the record for the store carries the text itself and no image.
   */
  method AnalyzeResponse(text: string) returns (scanData: Storage.InsertScan)
    ensures scanData.foodName == FoodName(text) && IsCleanName(scanData.foodName)
    ensures scanData.isVegan == IsVegan(text)
    ensures scanData.confidence == Confidence(text)
    ensures scanData.analysis == text && scanData.imageUrl == None
  {
    var isVegan := IsVegan(text);
    var confidence := Confidence(text);
    var foodName := ExtractFoodName(text);
    scanData := Storage.InsertScan(foodName, isVegan, text, confidence, None);
  }

  /**
   * Parses the response and stores the scan under the next id, stamped with `now`;
   * the store's other entries and its users are left as they were.
   */
  method AnalyzeAndStore(store: Storage.MemStorage, text: string, now: int) returns (savedScan: Storage.Scan)
    requires store.Valid()
    modifies store
    ensures store.Valid()
    ensures savedScan == Storage.Scan(old(store.currentScanId), FoodName(text), IsVegan(text), text,
                                      Confidence(text), None, now)
    ensures store.scans == old(store.scans)[savedScan.id := savedScan]
    ensures store.users == old(store.users)
  {
    var scanData := AnalyzeResponse(text);
    savedScan := store.CreateScan(scanData, now);
  }
}
