/**
 * The operations on Python `str` values that the bot relies on, stated over
 * `seq<char>`: `str(n)`, `strip()`, `upper()`, `lower()`, `split(sep)`,
 * `in`, `endswith` and `replace`.
 *
 * Case mapping covers the ASCII letters only; see README.
 */
module Strings {

  predicate IsDigit(c: char) {
    '0' <= c <= '9'
  }

  predicate AllDigits(s: string) {
    forall i :: 0 <= i < |s| ==> IsDigit(s[i])
  }

  /** `str(n)` for a non-negative integer: decimal digits, no leading zero. */
  function NatToDecimal(n: nat): (s: string)
    ensures |s| >= 1 && AllDigits(s)
    ensures s[0] == '0' ==> n == 0
  {
    var last := [('0' as int + n % 10) as char];
    if n < 10 then last else NatToDecimal(n / 10) + last
  }

  /** The value of a string of decimal digits (the inverse of `NatToDecimal`). */
  function DecimalValue(s: string): nat
    requires AllDigits(s)
  {
    if s == [] then 0 else 10 * DecimalValue(s[..|s| - 1]) + (s[|s| - 1] as int - '0' as int)
  }

  lemma {:induction false} DecimalRoundTrip(n: nat)
    ensures DecimalValue(NatToDecimal(n)) == n
  {
    var s := NatToDecimal(n);
    if n >= 10 {
      assert s[..|s| - 1] == NatToDecimal(n / 10);
      DecimalRoundTrip(n / 10);
    }
  }

  /** Python's `str.isspace` for one character: the characters `strip()` removes. */
  predicate IsSpace(c: char) {
    || c == ' '
    || '\t' <= c <= '\r'
    || '\U{1C}' <= c <= '\U{1F}'
    || c == '\U{85}' || c == '\U{A0}' || c == '\U{1680}'
    || '\U{2000}' <= c <= '\U{200A}'
    || c == '\U{2028}' || c == '\U{2029}' || c == '\U{202F}' || c == '\U{205F}' || c == '\U{3000}'
  }

  predicate AllSpace(s: string) {
    forall i :: 0 <= i < |s| ==> IsSpace(s[i])
  }

  /** How many whitespace characters `lstrip()` removes from the front of `s`. */
  function Leading(s: string): (n: nat)
    ensures n <= |s| && AllSpace(s[..n])
    ensures n < |s| ==> !IsSpace(s[n])
  {
    if s == [] || !IsSpace(s[0]) then 0
    else
      var n := 1 + Leading(s[1..]);
      assert s[..n] == [s[0]] + s[1..][..n - 1];
      n
  }

  /** How many characters `rstrip()` keeps at the front of `s`. */
  function Kept(s: string): (n: nat)
    ensures n <= |s| && AllSpace(s[n..])
    ensures n > 0 ==> !IsSpace(s[n - 1])
  {
    if s == [] || !IsSpace(s[|s| - 1]) then |s|
    else
      var n := Kept(s[..|s| - 1]);
      assert s[n..] == s[..|s| - 1][n..] + [s[|s| - 1]];
      n
  }

  /** `lstrip()`: the longest suffix that does not start with whitespace. */
  function StripLeft(s: string): (r: string)
    ensures r == [] || !IsSpace(r[0])
  {
    s[Leading(s)..]
  }

  /** `rstrip()`: the longest prefix that does not end with whitespace. */
  function StripRight(s: string): (r: string)
    ensures r == [] || !IsSpace(r[|r| - 1])
  {
    s[..Kept(s)]
  }

  /** `strip()`: `lstrip()` then `rstrip()`; neither end of the result is whitespace. */
  function Strip(s: string): (r: string)
    ensures r == [] || (!IsSpace(r[0]) && !IsSpace(r[|r| - 1]))
  {
    var r := StripRight(StripLeft(s));
    assert r != [] ==> r[0] == StripLeft(s)[0];
    r
  }

  /** A prefix `r` of the suffix `s[i..]`, followed there by whitespace only, is a slice of `s`. */
  lemma PrefixOfSuffix(s: string, i: nat, r: string)
    requires i <= |s| && |r| <= |s| - i && r == s[i..][..|r|] && AllSpace(s[i..][|r|..])
    ensures r == s[i..i + |r|] && AllSpace(s[i + |r|..])
  {
    assert s[i + |r|..] == s[i..][|r|..];
  }

  /**
   * What `strip()` keeps is the slice of `s` that starts after the leading
   * whitespace; only whitespace was cut off on either side.
   */
  lemma StripSlice(s: string)
    ensures var i, r := Leading(s), Strip(s);
      i + |r| <= |s| && r == s[i..i + |r|] && AllSpace(s[..i]) && AllSpace(s[i + |r|..])
  {
    var i := Leading(s);
    PrefixOfSuffix(s, i, Strip(s));
  }

  /** When everything from `i` on is whitespace but `s[i]` is not, `i` is the end of `s`. */
  lemma SpaceToEnd(s: string, i: nat)
    requires i <= |s| && AllSpace(s[i..]) && (i < |s| ==> !IsSpace(s[i]))
    ensures i == |s|
  {
  }

  /** `strip()` keeps nothing exactly when `s` is all whitespace. */
  lemma StripEmpty(s: string)
    ensures Strip(s) == [] <==> AllSpace(s)
  {
    var i := Leading(s);
    var l := s[i..];
    assert Strip(s) == l[..Kept(l)];
    if Strip(s) == [] {
      assert l[Kept(l)..] == l;
      SpaceToEnd(s, i);
      assert s[..i] == s;
    } else {
      assert Strip(s)[0] == s[i];
    }
  }

  lemma StripUnchanged(s: string)
    requires s == [] || (!IsSpace(s[0]) && !IsSpace(s[|s| - 1]))
    ensures Strip(s) == s
  {
  }

  function UpperChar(c: char): char {
    if 'a' <= c <= 'z' then (c as int - 32) as char else c
  }

  function LowerChar(c: char): char {
    if 'A' <= c <= 'Z' then (c as int + 32) as char else c
  }

  predicate HasNoLower(s: string) {
    forall i :: 0 <= i < |s| ==> !('a' <= s[i] <= 'z')
  }

  /** `upper()`, for the ASCII letters: same length, no lower-case letter left. */
  function Upper(s: string): (r: string)
    ensures |r| == |s| && HasNoLower(r)
    ensures forall i {:trigger r[i]} :: 0 <= i < |s| ==> r[i] == s[i] || ('a' <= s[i] <= 'z' && r[i] as int == s[i] as int - 32)
  {
    seq(|s|, i requires 0 <= i < |s| => UpperChar(s[i]))
  }

  /** `lower()`, for the ASCII letters: same length, no upper-case letter left. */
  function Lower(s: string): (r: string)
    ensures |r| == |s|
    ensures forall i :: 0 <= i < |r| ==> !('A' <= r[i] <= 'Z')
    ensures forall i {:trigger r[i]} :: 0 <= i < |s| ==> r[i] == s[i] || ('A' <= s[i] <= 'Z' && r[i] as int == s[i] as int + 32)
  {
    seq(|s|, i requires 0 <= i < |s| => LowerChar(s[i]))
  }

  predicate StartsWith(s: string, prefix: string) {
    |prefix| <= |s| && s[..|prefix|] == prefix
  }

  predicate EndsWith(s: string, suffix: string) {
    |suffix| <= |s| && s[|s| - |suffix|..] == suffix
  }

  /** `needle` occurs in `hay` starting at index `i`. */
  predicate OccursAt(hay: string, needle: string, i: int) {
    0 <= i <= |hay| - |needle| && hay[i..i + |needle|] == needle
  }

  /** `needle in hay`: `needle` occurs somewhere in `hay`. */
  function Contains(hay: string, needle: string): (b: bool)
    ensures b <==> exists i :: OccursAt(hay, needle, i)
  {
    if StartsWith(hay, needle) then
      assert OccursAt(hay, needle, 0);
      true
    else if hay == [] then
      assert forall i :: !OccursAt(hay, needle, i);
      false
    else
      var b := Contains(hay[1..], needle);
      assert forall i :: OccursAt(hay[1..], needle, i) <==> OccursAt(hay, needle, i + 1) by {
        forall i ensures OccursAt(hay[1..], needle, i) <==> OccursAt(hay, needle, i + 1) {
          if 0 <= i <= |hay| - 1 - |needle| {
            assert hay[1..][i..i + |needle|] == hay[i + 1..i + 1 + |needle|];
          }
        }
      }
      assert !OccursAt(hay, needle, 0);
      assert (exists i :: OccursAt(hay, needle, i)) ==> exists i :: OccursAt(hay[1..], needle, i) by {
        if exists i :: OccursAt(hay, needle, i) {
          var i :| OccursAt(hay, needle, i);
          assert OccursAt(hay[1..], needle, i - 1);
        }
      }
      b
  }

  /** `sep.join(parts)`. */
  function Join(parts: seq<string>, sep: char): string {
    if |parts| == 0 then []
    else if |parts| == 1 then parts[0]
    else parts[0] + [sep] + Join(parts[1..], sep)
  }

  /**
   * `s.split(sep)` with a one-character separator: at least one part, none of
   * them holds the separator, and joining them back gives `s`.
   */
  function Split(s: string, sep: char): (parts: seq<string>)
    ensures |parts| >= 1
    ensures forall p :: p in parts ==> sep !in p
    ensures Join(parts, sep) == s
  {
    if s == [] then [[]]
    else
      var rest := Split(s[1..], sep);
      if s[0] == sep then
        assert Join([[]] + rest, sep) == [sep] + Join(rest, sep);
        [[]] + rest
      else
        var parts := [[s[0]] + rest[0]] + rest[1..];
        assert parts[1..] == rest[1..];
        assert Join(parts, sep) == [s[0]] + Join(rest, sep);
        parts
  }

  lemma {:induction false} SplitWithoutSeparator(a: string, sep: char)
    requires sep !in a
    ensures Split(a, sep) == [a]
  {
    if a != [] {
      SplitWithoutSeparator(a[1..], sep);
    }
  }

  lemma {:induction false} SplitAfterPart(a: string, rest: string, sep: char)
    requires sep !in a
    ensures Split(a + [sep] + rest, sep) == [a] + Split(rest, sep)
  {
    var s := a + [sep] + rest;
    if a == [] {
      assert s[1..] == rest;
    } else {
      assert s[1..] == a[1..] + [sep] + rest;
      SplitAfterPart(a[1..], rest, sep);
      assert [a[0]] + a[1..] == a;
    }
  }

  /** Splitting undoes joining, when no part holds the separator. */
  lemma {:induction false} SplitJoin(parts: seq<string>, sep: char)
    requires |parts| >= 1
    requires forall p :: p in parts ==> sep !in p
    ensures Split(Join(parts, sep), sep) == parts
  {
    if |parts| == 1 {
      SplitWithoutSeparator(parts[0], sep);
    } else {
      SplitJoin(parts[1..], sep);
      SplitAfterPart(parts[0], Join(parts[1..], sep), sep);
      assert [parts[0]] + parts[1..] == parts;
    }
  }

  /** `s.replace(pat, rep)`: every non-overlapping occurrence, scanning left to right. */
  function ReplaceAll(s: string, pat: string, rep: string): string
    requires pat != []
  {
    if StartsWith(s, pat) then rep + ReplaceAll(s[|pat|..], pat, rep)
    else if s == [] then []
    else [s[0]] + ReplaceAll(s[1..], pat, rep)
  }

  /** Where `pat` does not occur, `replace` returns its input unchanged. */
  lemma {:induction false} ReplaceWithout(s: string, pat: string, rep: string)
    requires pat != [] && !Contains(s, pat)
    ensures ReplaceAll(s, pat, rep) == s
  {
    if s != [] {
      ReplaceWithout(s[1..], pat, rep);
    }
  }

  /** Dropping the first character shifts every occurrence one place to the left. */
  lemma OccursShift(s: string, pat: string, j: nat)
    requires s != []
    ensures OccursAt(s[1..], pat, j) <==> OccursAt(s, pat, j + 1)
  {
    if j <= |s| - 1 - |pat| {
      assert s[1..][j..j + |pat|] == s[j + 1..j + 1 + |pat|];
    }
  }

  /** Where `pat` does not start `s`, `replace` keeps the first character and goes on. */
  lemma ReplaceStep(s: string, pat: string, rep: string)
    requires pat != [] && s != [] && !OccursAt(s, pat, 0)
    ensures ReplaceAll(s, pat, rep) == [s[0]] + ReplaceAll(s[1..], pat, rep)
  {
  }

  /** Where `pat` starts `s`, `replace` puts `rep` in its place and goes on after it. */
  lemma ReplaceAtStart(s: string, pat: string, rep: string)
    requires pat != [] && OccursAt(s, pat, 0)
    ensures ReplaceAll(s, pat, rep) == rep + ReplaceAll(s[|pat|..], pat, rep)
  {
  }

  lemma ConsAppend(c: char, a: string, b: string, r: string, t: string)
    requires r == a + b && t == [c] + r
    ensures t == ([c] + a) + b
  {
  }

  /**
   * Where `pat` first occurs at `i`, `replace` keeps what comes before it,
   * puts `rep` in its place and goes on after it; with `ReplaceWithout`
   * for text without `pat`, this fixes the result everywhere.
   */
  lemma {:induction false} ReplaceAtFirst(s: string, pat: string, rep: string, i: nat)
    requires pat != [] && OccursAt(s, pat, i)
    requires forall j :: 0 <= j < i ==> !OccursAt(s, pat, j)
    ensures ReplaceAll(s, pat, rep) == s[..i] + (rep + ReplaceAll(s[i + |pat|..], pat, rep))
  {
    var after := ReplaceAll(s[i + |pat|..], pat, rep);
    if i == 0 {
      ReplaceAtStart(s, pat, rep);
      assert s[..0] == [];
    } else {
      var t := s[1..];
      ReplaceStep(s, pat, rep);
      OccursShift(s, pat, i - 1);
      forall j | 0 <= j < i - 1
        ensures !OccursAt(t, pat, j)
      {
        OccursShift(s, pat, j);
      }
      ReplaceAtFirst(t, pat, rep, i - 1);
      assert t[i - 1 + |pat|..] == s[i + |pat|..];
      assert ReplaceAll(t[i - 1 + |pat|..], pat, rep) == after;
      assert ReplaceAll(t, pat, rep) == t[..i - 1] + (rep + after);
      assert ReplaceAll(s, pat, rep) == [s[0]] + ReplaceAll(t, pat, rep);
      ConsAppend(s[0], t[..i - 1], rep + after, ReplaceAll(t, pat, rep), ReplaceAll(s, pat, rep));
      assert [s[0]] + t[..i - 1] == s[..i];
    }
  }
}
