/**
 * The few pieces of Python's `str` behaviour the script relies on:
 * substring test (`in`), `startswith`/`endswith`, `replace`, `strip`,
 * and `int()` on a string.
 */
module Text {
  import opened Wrappers

  // ---------------------------------------------------------------------
  // Substrings

  predicate StartsWith(s: string, prefix: string) {
    |prefix| <= |s| && s[..|prefix|] == prefix
  }

  predicate EndsWith(s: string, suffix: string) {
    |suffix| <= |s| && s[|s| - |suffix|..] == suffix
  }

  /** `sub` occurs in `s` starting at index `i`. */
  predicate OccursAt(s: string, sub: string, i: nat) {
    i + |sub| <= |s| && s[i..i + |sub|] == sub
  }

  /** Python's `sub in s`: some slice of `s` equals `sub` (the empty string is in every string). */
  predicate Contains(s: string, sub: string) {
    exists i: nat :: i <= |s| && OccursAt(s, sub, i)
  }

  lemma ContainsTail(s: string, sub: string)
    requires |s| > 0 && Contains(s[1..], sub)
    ensures Contains(s, sub)
  {
    var i: nat :| i <= |s[1..]| && OccursAt(s[1..], sub, i);
    assert s[i + 1..i + 1 + |sub|] == s[1..][i..i + |sub|];
    assert OccursAt(s, sub, i + 1);
  }

  lemma NotContainsTail(s: string, sub: string)
    requires |s| > 0 && !Contains(s, sub)
    ensures !Contains(s[1..], sub)
  {
    if Contains(s[1..], sub) {
      ContainsTail(s, sub);
    }
  }

  // ---------------------------------------------------------------------
  // str.replace(old, new): every non-overlapping occurrence, scanning left to right

  function ReplaceAll(s: string, pat: string, rep: string): string
    requires |pat| > 0
    decreases |s|
  {
    if |s| < |pat| then s
    else if s[..|pat|] == pat then rep + ReplaceAll(s[|pat|..], pat, rep)
    else [s[0]] + ReplaceAll(s[1..], pat, rep)
  }

  /** str.split(sep) with a non-empty separator: the pieces between the occurrences. */
  function Split(s: string, pat: string): (parts: seq<string>)
    requires |pat| > 0
    ensures |parts| >= 1
    ensures StartsWith(s, parts[0])
    decreases |s|
  {
    if |s| < |pat| then [s]
    else if s[..|pat|] == pat then [""] + Split(s[|pat|..], pat)
    else
      var rest := Split(s[1..], pat);
      [[s[0]] + rest[0]] + rest[1..]
  }

  /** sep.join(parts). */
  function Join(parts: seq<string>, sep: string): string
    requires |parts| >= 1
  {
    if |parts| == 1 then parts[0] else parts[0] + sep + Join(parts[1..], sep)
  }

  /** No piece produced by Split still holds the separator. */
  lemma {:induction false} SplitPiecesAreFree(s: string, pat: string)
    requires |pat| > 0
    ensures forall k :: 0 <= k < |Split(s, pat)| ==> !Contains(Split(s, pat)[k], pat)
    decreases |s|
  {
    var parts := Split(s, pat);
    if |s| < |pat| {
      assert parts == [s];
    } else if s[..|pat|] == pat {
      SplitPiecesAreFree(s[|pat|..], pat);
      var rest := Split(s[|pat|..], pat);
      assert parts == [""] + rest;
      forall k | 0 <= k < |parts| ensures !Contains(parts[k], pat) {
        if k > 0 { assert parts[k] == rest[k - 1]; }
      }
    } else {
      SplitPiecesAreFree(s[1..], pat);
      var rest := Split(s[1..], pat);
      var head := [s[0]] + rest[0];
      assert parts == [head] + rest[1..];
      assert StartsWith(s[1..], rest[0]);
      assert head == s[..|head|];
      forall k | 0 <= k < |parts| ensures !Contains(parts[k], pat) {
        if k > 0 {
          assert parts[k] == rest[k];
        } else {
          forall i: nat | i <= |head| ensures !OccursAt(head, pat, i) {
            if i == 0 {
              assert |pat| <= |head| ==> head[..|pat|] == s[..|pat|];
            } else {
              assert i + |pat| <= |head| ==> head[i..i + |pat|] == rest[0][i - 1..i - 1 + |pat|];
              assert !OccursAt(rest[0], pat, i - 1);
            }
          }
        }
      }
    }
  }

  /** pat.join(s.split(pat)) == s: the pieces of Split, glued back with the separator, are the input. */
  lemma {:induction false} JoinSplit(s: string, pat: string)
    requires |pat| > 0
    ensures Join(Split(s, pat), pat) == s
    decreases |s|
  {
    if |s| < |pat| {
    } else if s[..|pat|] == pat {
      JoinSplit(s[|pat|..], pat);
      var rest := Split(s[|pat|..], pat);
      assert Split(s, pat) == [""] + rest;
      assert ([""] + rest)[1..] == rest;
      assert s == pat + s[|pat|..];
    } else {
      JoinSplit(s[1..], pat);
      JoinConsChar(s[0], Split(s[1..], pat), pat);
      assert s == [s[0]] + s[1..];
    }
  }

  /**
   * Python's identity s.replace(a, b) == b.join(s.split(a)): cutting `s` at
   * every occurrence of the pattern gives pieces that rebuild `s` and hold
   * no occurrence, and the replacement is put in every cut.
   */
  lemma {:induction false} ReplaceIsJoinOfSplit(s: string, pat: string, rep: string)
    requires |pat| > 0
    ensures Join(Split(s, pat), pat) == s
    ensures forall k :: 0 <= k < |Split(s, pat)| ==> !Contains(Split(s, pat)[k], pat)
    ensures ReplaceAll(s, pat, rep) == Join(Split(s, pat), rep)
    decreases |s|
  {
    JoinSplit(s, pat);
    SplitPiecesAreFree(s, pat);
    if |s| < |pat| {
    } else if s[..|pat|] == pat {
      ReplaceIsJoinOfSplit(s[|pat|..], pat, rep);
      var rest := Split(s[|pat|..], pat);
      assert Split(s, pat) == [""] + rest;
      assert ([""] + rest)[1..] == rest;
    } else {
      ReplaceIsJoinOfSplit(s[1..], pat, rep);
      JoinConsChar(s[0], Split(s[1..], pat), rep);
    }
  }

  lemma JoinConsChar(c: char, parts: seq<string>, sep: string)
    requires |parts| >= 1
    ensures Join([[c] + parts[0]] + parts[1..], sep) == [c] + Join(parts, sep)
  {
    var longer := [[c] + parts[0]] + parts[1..];
    if |parts| > 1 {
      assert longer[1..] == parts[1..];
      assert ([c] + parts[0]) + sep + Join(parts[1..], sep) == [c] + (parts[0] + sep + Join(parts[1..], sep));
    }
  }

  /** A string without the pattern is returned unchanged. */
  lemma {:induction false} ReplaceWithoutOccurrence(s: string, pat: string, rep: string)
    requires |pat| > 0 && !Contains(s, pat)
    ensures ReplaceAll(s, pat, rep) == s
    decreases |s|
  {
    if |s| >= |pat| {
      assert !OccursAt(s, pat, 0);
      NotContainsTail(s, pat);
      ReplaceWithoutOccurrence(s[1..], pat, rep);
    }
  }

  // ---------------------------------------------------------------------
  // str.strip()

  /** Python's str.isspace(): the characters strip() and int() discard. */
  predicate IsSpace(c: char) {
    c == ' ' || ('\t' <= c <= '\r') || ('\U{1c}' <= c <= '\U{1f}')
    || c == '\U{85}' || c == '\U{a0}' || c == '\U{1680}'
    || ('\U{2000}' <= c <= '\U{200a}') || c == '\U{2028}' || c == '\U{2029}'
    || c == '\U{202f}' || c == '\U{205f}' || c == '\U{3000}'
  }

  predicate AllSpace(s: string) {
    forall i :: 0 <= i < |s| ==> IsSpace(s[i])
  }

  /** Number of whitespace characters at the start of `s`. */
  function LeadingSpaces(s: string): (n: nat)
    ensures n <= |s| && AllSpace(s[..n])
    ensures n < |s| ==> !IsSpace(s[n])
  {
    if |s| > 0 && IsSpace(s[0]) then
      var k := LeadingSpaces(s[1..]);
      assert s[1..][..k] == s[1..k + 1];
      1 + k
    else 0
  }

  /** Number of whitespace characters at the end of `s`. */
  function TrailingSpaces(s: string): (n: nat)
    ensures n <= |s| && AllSpace(s[|s| - n..])
    ensures n < |s| ==> !IsSpace(s[|s| - n - 1])
  {
    if |s| > 0 && IsSpace(s[|s| - 1]) then
      var k := TrailingSpaces(s[..|s| - 1]);
      assert s[..|s| - 1][|s| - 1 - k..] == s[|s| - 1 - k..|s| - 1];
      1 + k
    else 0
  }

  lemma TrailingSpacesStopAtNonSpace(t: string)
    requires |t| > 0 && !IsSpace(t[0])
    ensures TrailingSpaces(t) < |t|
  {
    var n := TrailingSpaces(t);
    var u := t[|t| - n..];
    assert |u| == 0 || IsSpace(u[0]);
  }

  /** str.strip(): the slice of `s` left after removing whitespace at both ends. */
  function Strip(s: string): string {
    var t := s[LeadingSpaces(s)..];
    t[..|t| - TrailingSpaces(t)]
  }

  /** The bounds of the slice strip() keeps. */
  lemma StripBounds(s: string) returns (i: nat, j: nat)
    ensures i <= j <= |s| && Strip(s) == s[i..j] && AllSpace(s[..i]) && AllSpace(s[j..])
    ensures i < j ==> !IsSpace(s[i]) && !IsSpace(s[j - 1])
  {
    i := LeadingSpaces(s);
    var t := s[i..];
    var m := TrailingSpaces(t);
    j := |s| - m;
    assert t[|t| - m..] == s[j..];
    assert t[..|t| - m] == s[i..j];
    if i < j {
      assert t[|t| - m - 1] == s[j - 1];
    }
  }

  /** strip() removes only whitespace, from both ends, and leaves none there. */
  lemma StripIsTrimmedSlice(s: string)
    ensures exists i, j :: 0 <= i <= j <= |s| && Strip(s) == s[i..j] && AllSpace(s[..i]) && AllSpace(s[j..])
    ensures Strip(s) == [] || (!IsSpace(Strip(s)[0]) && !IsSpace(Strip(s)[|Strip(s)| - 1]))
  {
    var i, j := StripBounds(s);
    if Strip(s) != [] {
      assert Strip(s)[0] == s[i];
      assert Strip(s)[|Strip(s)| - 1] == s[j - 1];
    }
  }

  /** A string with no whitespace at either end is its own strip. */
  lemma StripTrimmed(s: string)
    requires s == [] || (!IsSpace(s[0]) && !IsSpace(s[|s| - 1]))
    ensures Strip(s) == s
  {
    assert s[LeadingSpaces(s)..] == s;
  }

  /** strip() is idempotent. */
  lemma StripIdempotent(s: string)
    ensures Strip(Strip(s)) == Strip(s)
  {
    StripIsTrimmedSlice(s);
    StripTrimmed(Strip(s));
  }

  /** `not s.strip()` holds exactly for all-whitespace strings. */
  lemma StripEmptyIffAllSpace(s: string)
    ensures Strip(s) == [] <==> AllSpace(s)
  {
    var i := LeadingSpaces(s);
    var t := s[i..];
    var j := |s| - TrailingSpaces(t);
    assert t[|t| - TrailingSpaces(t)..] == s[j..];
    if i < |s| {
      TrailingSpacesStopAtNonSpace(t);
    } else {
      assert s[..i] == s;
    }
  }

  // ---------------------------------------------------------------------
  // Digits and int()

  predicate IsAsciiDigit(c: char) {
    '0' <= c <= '9'
  }

  /** re.match(r'\d+', s) succeeds: `s` starts with a digit. */
  predicate StartsWithDigit(s: string) {
    |s| > 0 && IsAsciiDigit(s[0])
  }

  /** Digits as int() accepts them: non-empty, starting with a digit, every `_` followed by a digit. */
  predicate IsDigitGroups(d: string) {
    && |d| > 0
    && IsAsciiDigit(d[0])
    && forall i :: 0 <= i < |d| ==> GroupCharAt(d, i)
  }

  /** Position `i` holds a digit, or a `_` with a digit right after it. */
  predicate GroupCharAt(d: string, i: nat)
    requires i < |d|
  {
    IsAsciiDigit(d[i]) || (d[i] == '_' && i + 1 < |d| && IsAsciiDigit(d[i + 1]))
  }

  function WithoutUnderscores(d: string): string {
    if d == [] then []
    else WithoutUnderscores(d[..|d| - 1]) + (if d[|d| - 1] == '_' then [] else [d[|d| - 1]])
  }

  function DigitsValue(ds: string): nat {
    if ds == [] then 0
    else
      var c := ds[|ds| - 1];
      DigitsValue(ds[..|ds| - 1]) * 10 + (if IsAsciiDigit(c) then (c as int) - ('0' as int) else 0)
  }

  function ParseDigits(d: string): Option<nat> {
    if IsDigitGroups(d) then Some(DigitsValue(WithoutUnderscores(d))) else None
  }

  /** Python's int(s) for a str: surrounding whitespace, an optional sign, digit groups. */
  function ParseInt(s: string): Option<int> {
    var t := Strip(s);
    if |t| > 0 && (t[0] == '+' || t[0] == '-') then
      match ParseDigits(t[1..])
      case None => None
      case Some(n) => Some(if t[0] == '-' then -(n as int) else n as int)
    else ParseDigits(t)
  }

  /** The decimal spelling of a natural number, as str(n) writes it. */
  function Decimal(n: nat): (s: string)
    ensures |s| > 0 && forall i :: 0 <= i < |s| ==> IsAsciiDigit(s[i])
  {
    var d := ['0' + (n % 10) as char];
    if n < 10 then d else Decimal(n / 10) + d
  }

  lemma {:induction false} DigitsValueOfDecimal(n: nat)
    ensures DigitsValue(Decimal(n)) == n
  {
    var d := ['0' + (n % 10) as char];
    if n >= 10 {
      DigitsValueOfDecimal(n / 10);
      assert (Decimal(n / 10) + d)[..|Decimal(n)| - 1] == Decimal(n / 10);
    }
  }

  lemma {:induction false} NoUnderscoresUnchanged(d: string)
    requires forall i :: 0 <= i < |d| ==> IsAsciiDigit(d[i])
    ensures WithoutUnderscores(d) == d
  {
    if d != [] {
      NoUnderscoresUnchanged(d[..|d| - 1]);
    }
  }

  /** int(str(n)) == n: int() reads back the decimal spelling of every natural number. */
  lemma ParseIntOfDecimal(n: nat)
    ensures ParseInt(Decimal(n)) == Some(n)
  {
    var s := Decimal(n);
    assert Strip(s) == s by {
      assert !IsSpace(s[0]) && !IsSpace(s[|s| - 1]);
      StripTrimmed(s);
    }
    assert ParseDigits(s) == Some(n) by {
      assert IsDigitGroups(s);
      NoUnderscoresUnchanged(s);
      DigitsValueOfDecimal(n);
    }
  }

  /** A string whose stripped form starts with something other than a sign or a digit is no int. */
  lemma ParseIntRejects(s: string)
    requires var t := Strip(s); |t| > 0 && t[0] != '+' && t[0] != '-' && !IsAsciiDigit(t[0])
    ensures ParseInt(s) == None
  {
  }

  lemma NotDigitGroupsAt(d: string, j: nat)
    requires j < |d| && !IsAsciiDigit(d[j]) && d[j] != '_'
    ensures !IsDigitGroups(d)
  {
    assert !GroupCharAt(d, j);
  }

  /** A character other than a digit or `_` after the first position makes int() fail. */
  lemma ParseIntRejectsStray(s: string, i: nat)
    requires var t := Strip(s); 0 < i < |t| && !IsAsciiDigit(t[i]) && t[i] != '_'
    ensures ParseInt(s) == None
  {
    var t := Strip(s);
    if t[0] == '+' || t[0] == '-' {
      var d := t[1..];
      assert d[i - 1] == t[i];
      NotDigitGroupsAt(d, i - 1);
    } else {
      NotDigitGroupsAt(t, i);
    }
  }
}
