/** The string operations the engine uses: `includes`, `replace` with a
    string pattern (first occurrence only), `split(".")[0]`, ASCII
    `toUpperCase` of one character, and decimal rendering of a count. */
module Strs {
  import opened Opt

  /** `pat` occurs in `s` starting at index `i`. */
  predicate OccursAt(s: string, pat: string, i: int) {
    0 <= i && i + |pat| <= |s| && s[i..i + |pat|] == pat
  }

  /** `pat` matches `s` from index `i` on, compared character by character. */
  predicate MatchesAt(s: string, pat: string, i: nat)
    decreases |pat|
  {
    pat == [] || (i < |s| && s[i] == pat[0] && MatchesAt(s, pat[1..], i + 1))
  }

  /** The character-by-character comparison is the slice comparison. */
  lemma {:induction false} MatchesAtIff(s: string, pat: string, i: nat)
    requires i <= |s|
    ensures MatchesAt(s, pat, i) <==> OccursAt(s, pat, i)
    decreases |pat|
  {
    if pat != [] && i < |s| {
      MatchesAtIff(s, pat[1..], i + 1);
      if OccursAt(s, pat, i) {
        assert s[i..i + |pat|][0] == s[i];
        assert s[i + 1..i + 1 + |pat[1..]|] == s[i..i + |pat|][1..];
      }
      if s[i] == pat[0] && OccursAt(s, pat[1..], i + 1) {
        assert s[i..i + |pat|] == [s[i]] + s[i + 1..i + 1 + |pat[1..]|];
        assert pat == [pat[0]] + pat[1..];
      }
    }
  }

  /** The first index from `i` on at which `pat` occurs in `s`. */
  function IndexFrom(s: string, pat: string, i: nat): (r: Option<nat>)
    ensures r.Some? ==> i <= r.value && r.value + |pat| <= |s|
    decreases |s| - i
  {
    if i + |pat| > |s| then None
    else if MatchesAt(s, pat, i) then Some(i)
    else IndexFrom(s, pat, i + 1)
  }

  /** The scan finds the first occurrence at or after `i`, and None exactly
      when there is none. */
  lemma {:induction false} IndexFromSpec(s: string, pat: string, i: nat)
    ensures var r := IndexFrom(s, pat, i);
            (r.Some? ==> i <= r.value && OccursAt(s, pat, r.value)
                         && forall j :: i <= j < r.value ==> !OccursAt(s, pat, j))
            && (r.None? ==> forall j :: i <= j ==> !OccursAt(s, pat, j))
    decreases |s| - i
  {
    if i + |pat| <= |s| {
      MatchesAtIff(s, pat, i);
      if !MatchesAt(s, pat, i) {
        IndexFromSpec(s, pat, i + 1);
      }
    }
  }

  /** The first index at which `pat` occurs in `s` (`indexOf`). */
  function IndexOf(s: string, pat: string): (r: Option<nat>)
    ensures r.Some? ==> r.value + |pat| <= |s|
  {
    IndexFrom(s, pat, 0)
  }

  /** `indexOf` gives the first occurrence, and None exactly when `pat`
      does not occur at all. */
  lemma {:induction false} IndexOfSpec(s: string, pat: string)
    ensures IndexOf(s, pat).Some? ==> OccursAt(s, pat, IndexOf(s, pat).value)
    ensures IndexOf(s, pat).Some? ==> forall j :: 0 <= j < IndexOf(s, pat).value ==> !OccursAt(s, pat, j)
    ensures IndexOf(s, pat).None? <==> forall j :: !OccursAt(s, pat, j)
  {
    IndexFromSpec(s, pat, 0);
  }

  /** `s.includes(pat)`. */
  predicate Contains(s: string, pat: string) {
    IndexOf(s, pat).Some?
  }

  lemma {:induction false} ContainsIff(s: string, pat: string)
    ensures Contains(s, pat) <==> exists i :: OccursAt(s, pat, i)
  {
    IndexOfSpec(s, pat);
  }

  /** `s.replace(pat, rep)` with a string pattern: only the FIRST occurrence
      is replaced, wherever it is. */
  function ReplaceFirst(s: string, pat: string, rep: string): string {
    match IndexOf(s, pat)
    case None => s
    case Some(i) => s[..i] + rep + s[i + |pat|..]
  }

  /** A string without the pattern is unchanged; otherwise exactly the
      first occurrence is cut out and `rep` put in its place. */
  lemma {:induction false} ReplaceFirstSpec(s: string, pat: string, rep: string)
    ensures (forall j :: !OccursAt(s, pat, j)) ==> ReplaceFirst(s, pat, rep) == s
    ensures forall i :: OccursAt(s, pat, i) && (forall j :: 0 <= j < i ==> !OccursAt(s, pat, j))
                        ==> ReplaceFirst(s, pat, rep) == s[..i] + rep + s[i + |pat|..]
  {
    IndexOfSpec(s, pat);
    match IndexOf(s, pat)
    case None =>
    case Some(i) =>
      assert forall k :: OccursAt(s, pat, k) && (forall j :: 0 <= j < k ==> !OccursAt(s, pat, j)) ==> k == i;
  }

  /** `s.split(".")[0]`: everything before the first dot, or all of `s`. */
  function FirstLabel(s: string): string {
    if s == [] || s[0] == '.' then [] else [s[0]] + FirstLabel(s[1..])
  }

  /** The first label is a dot-free prefix, followed in `s` by a dot unless
      it is all of `s`. */
  lemma {:induction false} FirstLabelSpec(s: string)
    ensures FirstLabel(s) <= s
    ensures '.' !in FirstLabel(s)
    ensures FirstLabel(s) == s || s[|FirstLabel(s)|] == '.'
  {
    if s != [] && s[0] != '.' {
      var rest := FirstLabel(s[1..]);
      FirstLabelSpec(s[1..]);
      assert FirstLabel(s) == [s[0]] + rest;
      assert s == [s[0]] + s[1..];
      if rest != s[1..] {
        assert s[|FirstLabel(s)|] == s[1..][|rest|];
      }
    }
  }

  /** ASCII `toUpperCase` of one character. */
  function UpperAscii(c: char): char {
    if 'a' <= c <= 'z' then (c as int - 32) as char else c
  }

  /** Lower-case ASCII letters map to the upper-case letter at the same
      alphabet position; every other character is unchanged. */
  lemma {:induction false} UpperAsciiSpec(c: char)
    ensures 'a' <= c <= 'z' ==> 'A' <= UpperAscii(c) <= 'Z' && UpperAscii(c) as int - 'A' as int == c as int - 'a' as int
    ensures !('a' <= c <= 'z') ==> UpperAscii(c) == c
  {
  }

  /** `s.charAt(0).toUpperCase() + s.slice(1)`. */
  function Capitalize(s: string): string {
    if s == [] then [] else [UpperAscii(s[0])] + s[1..]
  }

  /** Capitalizing keeps the length and every character after the first.
      A first character in 'a'..'z' becomes the letter at the same alphabet
      position in 'A'..'Z'; any other first character is kept. */
  lemma {:induction false} CapitalizeSpec(s: string)
    ensures |Capitalize(s)| == |s|
    ensures forall k :: 1 <= k < |s| ==> Capitalize(s)[k] == s[k]
    ensures s != [] && 'a' <= s[0] <= 'z' ==>
              'A' <= Capitalize(s)[0] <= 'Z' && Capitalize(s)[0] as int - 'A' as int == s[0] as int - 'a' as int
    ensures s != [] && !('a' <= s[0] <= 'z') ==> Capitalize(s)[0] == s[0]
  {
    if s != [] {
      UpperAsciiSpec(s[0]);
      assert Capitalize(s)[1..] == s[1..];
    }
  }

  predicate IsDigit(c: char) {
    '0' <= c <= '9'
  }

  /** The value of a string of decimal digits (the reading side of the
      decimal rendering, used to state that rendering loses nothing). */
  function DecimalValue(s: string): nat
    requires forall k :: 0 <= k < |s| ==> IsDigit(s[k])
  {
    if s == [] then 0
    else
      assert IsDigit(s[|s| - 1]);
      DecimalValue(s[..|s| - 1]) * 10 + (s[|s| - 1] as int - '0' as int)
  }

  /** The decimal rendering of `n` used by template literals. */
  function NatToString(n: nat): (r: string)
    ensures |r| >= 1
    ensures forall k :: 0 <= k < |r| ==> IsDigit(r[k])
    ensures |r| > 1 ==> r[0] != '0'
    ensures DecimalValue(r) == n
  {
    var d := ['0' + (n % 10) as char];
    if n < 10 then d
    else
      var prefix := NatToString(n / 10);
      var r := prefix + d;
      assert r[..|r| - 1] == prefix;
      r
  }
}
