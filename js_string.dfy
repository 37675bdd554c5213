/**
 * The JavaScript string primitives the core relies on: `toLowerCase` (ASCII letters only),
 * `includes`, `trim`, `split` on one character, and the whitespace set that both the regular
 * expression class `\s` and `trim()` use.
 */
module JsString {

  /** `toLowerCase` on one character; only the ASCII letters A-Z change. */
  function LowerChar(c: char): char
  {
    if 'A' <= c <= 'Z' then (c as int - 'A' as int + 'a' as int) as char else c
  }

  /** `String.prototype.toLowerCase`, restricted to ASCII case mapping. */
  function ToLowerCase(s: string): (r: string)
    ensures |r| == |s|
    ensures forall k :: 0 <= k < |r| ==> !('A' <= r[k] <= 'Z') && LowerChar(r[k]) == LowerChar(s[k])
  {
    seq(|s|, k requires 0 <= k < |s| => LowerChar(s[k]))
  }

  /** `w` occurs in `s` starting at index `i`. */
  predicate OccursAt(s: string, w: string, i: int)
  {
    0 <= i && i + |w| <= |s| && s[i..i + |w|] == w
  }

  /** `w` (given in lower case) occurs in `s` at index `i` when case is ignored. */
  predicate OccursAtIgnoreCase(s: string, w: string, i: int)
  {
    0 <= i && i + |w| <= |s| && forall k :: 0 <= k < |w| ==> LowerChar(s[i + k]) == w[k]
  }

  /** `s.includes(w)`: a left-to-right scan for `w` from index `from`. */
  function IncludesFrom(s: string, w: string, from: nat): bool
    decreases |s| - from
  {
    if from + |w| > |s| then false
    else if s[from..from + |w|] == w then true
    else IncludesFrom(s, w, from + 1)
  }

  /** `s.includes(w)`. */
  function Includes(s: string, w: string): bool
  {
    IncludesFrom(s, w, 0)
  }

  lemma {:induction false} IncludesFromMeaning(s: string, w: string, from: nat)
    ensures IncludesFrom(s, w, from) <==> exists i :: from <= i && OccursAt(s, w, i)
    decreases |s| - from
  {
    if from + |w| <= |s| {
      if s[from..from + |w|] == w {
        assert OccursAt(s, w, from);
      } else {
        IncludesFromMeaning(s, w, from + 1);
        assert !OccursAt(s, w, from);
      }
    }
  }

  /** The scan finds `w` exactly when `w` occurs somewhere in `s`. */
  lemma IncludesMeaning(s: string, w: string)
    ensures Includes(s, w) <==> exists i :: OccursAt(s, w, i)
  {
    IncludesFromMeaning(s, w, 0);
  }

  /** Looking for `w` in the lower-cased string is looking for it in `s` ignoring case. */
  lemma LowerOccursAt(s: string, w: string, i: int)
    ensures OccursAt(ToLowerCase(s), w, i) <==> OccursAtIgnoreCase(s, w, i)
  {
    if 0 <= i && i + |w| <= |s| {
      var low := ToLowerCase(s);
      if OccursAtIgnoreCase(s, w, i) {
        assert forall k :: 0 <= k < |w| ==> low[i..i + |w|][k] == w[k];
      } else {
        var k :| 0 <= k < |w| && LowerChar(s[i + k]) != w[k];
        assert low[i..i + |w|][k] != w[k];
      }
    }
  }

  /** `text.toLowerCase().includes(w)` holds exactly when `w` occurs in `text` ignoring case. */
  lemma IncludesLowerCase(s: string, w: string)
    ensures Includes(ToLowerCase(s), w) <==> exists i :: OccursAtIgnoreCase(s, w, i)
  {
    IncludesMeaning(ToLowerCase(s), w);
    if Includes(ToLowerCase(s), w) {
      var i :| OccursAt(ToLowerCase(s), w, i);
      LowerOccursAt(s, w, i);
    }
    if exists i :: OccursAtIgnoreCase(s, w, i) {
      var i :| OccursAtIgnoreCase(s, w, i);
      LowerOccursAt(s, w, i);
    }
  }

  /** The end of the longest run of whitespace starting at `p` (the greedy `\s+` of a regular expression). */
  function SpaceEnd(s: string, p: nat): (e: nat)
    requires p <= |s|
    ensures p <= e <= |s|
    ensures forall k :: p <= k < e ==> IsSpace(s[k])
    ensures e == |s| || !IsSpace(s[e])
    decreases |s| - p
  {
    if p < |s| && IsSpace(s[p]) then SpaceEnd(s, p + 1) else p
  }

  /** A whitespace run from `p` that stops at `e` ends at `e`. */
  lemma SpaceEndIs(s: string, p: nat, e: nat)
    requires p <= e <= |s|
    requires forall k :: p <= k < e ==> IsSpace(s[k])
    requires e == |s| || !IsSpace(s[e])
    ensures SpaceEnd(s, p) == e
  {
  }

  /**
   * JavaScript's WhiteSpace and LineTerminator code points: tab, line feed, vertical tab,
   * form feed, carriage return, space, and the Unicode spaces U+00A0, U+1680, U+2000-U+200A,
   * U+2028, U+2029, U+202F, U+205F, U+3000 and U+FEFF.
   */
  predicate IsSpace(c: char)
  {
    var n := c as int;
    (9 <= n <= 13) || n == 32 || n == 0xA0 || n == 0x1680 || (0x2000 <= n <= 0x200A)
    || n == 0x2028 || n == 0x2029 || n == 0x202F || n == 0x205F || n == 0x3000 || n == 0xFEFF
  }

  ghost predicate AllSpace(s: string)
  {
    forall k :: 0 <= k < |s| ==> IsSpace(s[k])
  }

  /** `r` is a suffix of `s` that does not start with whitespace, and only whitespace precedes it. */
  ghost predicate IsTrimmedStart(s: string, r: string)
  {
    |r| <= |s| && r == s[|s| - |r|..] && AllSpace(s[..|s| - |r|]) && (r == [] || !IsSpace(r[0]))
  }

  /** `r` is a prefix of `s` that does not end with whitespace, and only whitespace follows it. */
  ghost predicate IsTrimmedEnd(s: string, r: string)
  {
    |r| <= |s| && r == s[..|r|] && AllSpace(s[|r|..]) && (r == [] || !IsSpace(r[|r| - 1]))
  }

  /** `trimStart()`: drops the leading whitespace, nothing else. */
  function TrimStart(s: string): (r: string)
    ensures IsTrimmedStart(s, r)
    decreases |s|
  {
    if s != [] && IsSpace(s[0]) then
      var r := TrimStart(s[1..]);
      assert s[..|s| - |r|] == [s[0]] + s[1..][..|s| - 1 - |r|];
      r
    else s
  }

  /** `trimEnd()`: drops the trailing whitespace, nothing else. */
  function TrimEnd(s: string): (r: string)
    ensures IsTrimmedEnd(s, r)
    decreases |s|
  {
    if s != [] && IsSpace(s[|s| - 1]) then
      var r := TrimEnd(s[..|s| - 1]);
      assert s[|r|..] == s[..|s| - 1][|r|..] + [s[|s| - 1]];
      r
    else s
  }

  /** `r` is `s` with the `i` whitespace characters before it and only whitespace after it removed. */
  ghost predicate TrimmedAt(s: string, r: string, i: int)
  {
    0 <= i && i + |r| <= |s| && r == s[i..i + |r|] && AllSpace(s[..i]) && AllSpace(s[i + |r|..])
  }

  /** `String.prototype.trim`. */
  function Trim(s: string): (r: string)
    ensures r == [] || (!IsSpace(r[0]) && !IsSpace(r[|r| - 1]))
    ensures exists i :: TrimmedAt(s, r, i)
    ensures r == [] <==> AllSpace(s)
  {
    var t := TrimStart(s);
    var r := TrimEnd(t);
    TrimBothEnds(s, t, r);
    r
  }

  lemma TrimBothEnds(s: string, t: string, r: string)
    requires IsTrimmedStart(s, t) && IsTrimmedEnd(t, r)
    ensures r == [] || (!IsSpace(r[0]) && !IsSpace(r[|r| - 1]))
    ensures TrimmedAt(s, r, |s| - |t|)
    ensures r == [] <==> AllSpace(s)
  {
    var i := |s| - |t|;
    assert t == s[i..];
    assert r == t[..|r|];
    assert r == s[i..i + |r|];
    assert s[i + |r|..] == t[|r|..];
    if r != [] {
      assert r[0] == t[0];
    }
    if r == [] {
      assert s == s[..i];
    } else {
      assert !IsSpace(s[i]);
    }
  }

  /** Every character of `trim(s)` is a character of `s`. */
  lemma TrimKeepsOnly(s: string, bad: char -> bool)
    requires forall k :: 0 <= k < |s| ==> !bad(s[k])
    ensures forall k :: 0 <= k < |Trim(s)| ==> !bad(Trim(s)[k])
  {
    var r := Trim(s);
    var i :| TrimmedAt(s, r, i);
    forall k | 0 <= k < |r|
      ensures !bad(r[k])
    {
      assert r[k] == s[i + k];
    }
  }

  /** A string with no whitespace at either end is left as it is by `trim()`. */
  lemma TrimUnchanged(s: string)
    requires s == [] || (!IsSpace(s[0]) && !IsSpace(s[|s| - 1]))
    ensures Trim(s) == s
  {
    var r := Trim(s);
    var i :| TrimmedAt(s, r, i);
    if s != [] {
      assert !AllSpace(s);
    }
  }

  /** Joins `parts` with `sep` between consecutive parts: the inverse of `Split`. */
  function Join(parts: seq<string>, sep: char): string
  {
    if |parts| == 0 then ""
    else if |parts| == 1 then parts[0]
    else parts[0] + [sep] + Join(parts[1..], sep)
  }

  /** `s.split(sep)` for a one-character separator: at least one part, none holding `sep`. */
  function Split(s: string, sep: char): (parts: seq<string>)
    ensures |parts| >= 1
    ensures forall k :: 0 <= k < |parts| ==> sep !in parts[k]
    ensures Join(parts, sep) == s
    decreases |s|
  {
    if s == [] then [""]
    else
      var rest := Split(s[1..], sep);
      if s[0] == sep then
        [""] + rest
      else
        var parts := [[s[0]] + rest[0]] + rest[1..];
        assert parts[1..] == rest[1..];
        parts
  }

  /** A string without the separator splits into itself alone. */
  lemma SplitWithoutSep(s: string, sep: char)
    requires sep !in s
    ensures Split(s, sep) == [s]
  {
    var parts := Split(s, sep);
    assert parts == [parts[0]];
  }
}
