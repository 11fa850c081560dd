/** The string operations the widgets rely on: ASCII case mapping, `trim`,
    `includes`, string `<`, and the regular-expression replacements behind
    the key formatters. */
module Text {

  function LowerChar(c: char): char {
    if 'A' <= c <= 'Z' then (c as int + 32) as char else c
  }

  function UpperChar(c: char): char {
    if 'a' <= c <= 'z' then (c as int - 32) as char else c
  }

  /** `s.toLowerCase()` on ASCII letters. */
  function Lower(s: string): string {
    seq(|s|, i requires 0 <= i < |s| => LowerChar(s[i]))
  }

  /** `s.toUpperCase()` on ASCII letters. */
  function Upper(s: string): string {
    seq(|s|, i requires 0 <= i < |s| => UpperChar(s[i]))
  }

  /** The characters `String.prototype.trim` removes: the WhiteSpace and
      LineTerminator code points of ECMAScript. */
  predicate IsSpace(c: char) {
    || c == '\t' || c == '\n' || c == '\U{000B}' || c == '\U{000C}' || c == '\r'
    || c == ' ' || c == '\U{00A0}' || c == '\U{1680}' || '\U{2000}' <= c <= '\U{200A}'
    || c == '\U{2028}' || c == '\U{2029}' || c == '\U{202F}' || c == '\U{205F}'
    || c == '\U{3000}' || c == '\U{FEFF}'
  }

  predicate IsBlank(s: string) {
    forall i :: 0 <= i < |s| ==> IsSpace(s[i])
  }

  /** A single `*` with nothing but white space around it. */
  predicate IsPaddedStar(s: string) {
    exists k :: 0 <= k < |s| && s[k] == '*' && IsBlank(s[..k]) && IsBlank(s[k + 1..])
  }

  function LeadingSpaces(s: string): (n: nat)
    ensures n <= |s| && IsBlank(s[..n]) && (n < |s| ==> !IsSpace(s[n]))
    ensures IsBlank(s) ==> n == |s|
  {
    if s != [] && IsSpace(s[0]) then
      var n := 1 + LeadingSpaces(s[1..]);
      assert forall i :: 1 <= i < n ==> s[..n][i] == s[1..][..n - 1][i - 1];
      assert IsBlank(s) ==> IsBlank(s[1..]);
      n
    else 0
  }

  function TrailingSpaces(s: string): (n: nat)
    ensures n <= |s| && IsBlank(s[|s| - n..]) && (n < |s| ==> !IsSpace(s[|s| - n - 1]))
  {
    if s != [] && IsSpace(s[|s| - 1]) then
      var m := TrailingSpaces(s[..|s| - 1]);
      TrailingSpacesStep(s, m);
      m + 1
    else 0
  }

  lemma TrailingSpacesStep(s: string, m: nat)
    requires s != [] && IsSpace(s[|s| - 1])
    requires var init := s[..|s| - 1];
      m <= |init| && IsBlank(init[|init| - m..]) && (m < |init| ==> !IsSpace(init[|init| - m - 1]))
    ensures m + 1 <= |s| && IsBlank(s[|s| - (m + 1)..]) && (m + 1 < |s| ==> !IsSpace(s[|s| - (m + 1) - 1]))
  {
    var init := s[..|s| - 1];
    assert s[|s| - (m + 1)..] == init[|init| - m..] + [s[|s| - 1]];
  }

  /** `s.trim()` */
  function Trim(s: string): string {
    var t := s[LeadingSpaces(s)..];
    t[..|t| - TrailingSpaces(t)]
  }

  /** `s.trim() === ""` exactly when `s` is all white space. */
  lemma TrimEmptyIffBlank(s: string)
    ensures Trim(s) == "" <==> IsBlank(s)
  {
    if Trim(s) == "" {
      TrimEmptyIsBlank(s);
    }
  }

  lemma TrimEmptyIsBlank(s: string)
    requires Trim(s) == ""
    ensures IsBlank(s)
  {
    var n := LeadingSpaces(s);
    var t := s[n..];
    var m := TrailingSpaces(t);
    assert |t[..|t| - m]| == 0;
    assert t[|t| - m..] == t;
    assert s == s[..n] + t;
    BlankAppend(s[..n], t);
  }

  lemma BlankAppend(a: string, b: string)
    requires IsBlank(a) && IsBlank(b)
    ensures IsBlank(a + b)
  {
    assert forall i :: |a| <= i < |a + b| ==> (a + b)[i] == b[i - |a|];
  }

  /** The leading white space ends at the first character that is not white space. */
  lemma {:induction false} LeadingSpacesAt(s: string, k: nat)
    requires k < |s| && IsBlank(s[..k]) && !IsSpace(s[k])
    ensures LeadingSpaces(s) == k
  {
    if k > 0 {
      assert IsSpace(s[..k][0]);
      assert s[1..][..k - 1] == s[1..k];
      LeadingSpacesAt(s[1..], k - 1);
    }
  }

  /** The trailing white space starts after the last character that is not white space. */
  lemma {:induction false} TrailingSpacesAt(s: string, m: nat)
    requires m < |s| && IsBlank(s[|s| - m..]) && !IsSpace(s[|s| - m - 1])
    ensures TrailingSpaces(s) == m
  {
    if m > 0 {
      var init := s[..|s| - 1];
      assert IsSpace(s[|s| - m..][m - 1]);
      assert init[|init| - (m - 1)..] == s[|s| - m..|s| - 1];
      TrailingSpacesAt(init, m - 1);
    }
  }

  /** `s.trim() === "*"` exactly when `s` is one `*` padded with white space. */
  lemma TrimStarIffPaddedStar(s: string)
    ensures Trim(s) == "*" <==> IsPaddedStar(s)
  {
    if Trim(s) == "*" {
      TrimStarIsPadded(s);
    }
    if IsPaddedStar(s) {
      var k :| 0 <= k < |s| && s[k] == '*' && IsBlank(s[..k]) && IsBlank(s[k + 1..]);
      PaddedStarTrims(s, k);
    }
  }

  lemma TrimStarIsPadded(s: string)
    requires Trim(s) == "*"
    ensures IsPaddedStar(s)
  {
    var n := LeadingSpaces(s);
    var t := s[n..];
    var m := TrailingSpaces(t);
    assert t[..|t| - m] == "*";
    assert s[n] == t[0] == '*';
    assert s[n + 1..] == t[|t| - m..];
    assert IsBlank(s[..n]) && IsBlank(s[n + 1..]);
  }

  lemma PaddedStarTrims(s: string, k: nat)
    requires k < |s| && s[k] == '*' && IsBlank(s[..k]) && IsBlank(s[k + 1..])
    ensures Trim(s) == "*"
  {
    LeadingSpacesAt(s, k);
    var t := s[k..];
    assert t[0] == '*' && t[1..] == s[k + 1..];
    TrailingSpacesAt(t, |t| - 1);
    assert t[..1] == [t[0]];
  }

  /** Case mapping never turns white space into something else, nor `*`. */
  lemma LowerKeepsSpaceAndStar(c: char)
    ensures IsSpace(LowerChar(c)) == IsSpace(c)
    ensures (LowerChar(c) == '*') == (c == '*')
  {
  }

  /** Two strings of the same length with white space and `*` at the same places. */
  predicate SameShape(f: string, g: string) {
    |f| == |g| &&
    forall i :: 0 <= i < |f| ==> IsSpace(f[i]) == IsSpace(g[i]) && (f[i] == '*') == (g[i] == '*')
  }

  /** A padded `*` keeps its shape in a string of the same shape. */
  lemma PaddedStarSameShape(f: string, g: string, k: nat)
    requires SameShape(f, g)
    requires k < |f| && f[k] == '*' && IsBlank(f[..k]) && IsBlank(f[k + 1..])
    ensures IsPaddedStar(g)
  {
    assert g[k] == '*';
    forall i | 0 <= i < k ensures IsSpace(g[..k][i]) {
      assert f[..k][i] == f[i] && g[..k][i] == g[i];
    }
    var fTail, gTail := f[k + 1..], g[k + 1..];
    forall i | 0 <= i < |gTail| ensures IsSpace(gTail[i]) {
      assert fTail[i] == f[k + 1 + i] && gTail[i] == g[k + 1 + i];
    }
  }

  /** Two strings that lower-case alike are blank alike and padded stars alike. */
  lemma SameLowerSameShape(f: string, g: string)
    requires Lower(f) == Lower(g)
    ensures IsBlank(f) == IsBlank(g)
    ensures IsPaddedStar(f) == IsPaddedStar(g)
  {
    assert |f| == |Lower(f)| == |g|;
    forall i | 0 <= i < |f|
      ensures IsSpace(f[i]) == IsSpace(g[i]) && (f[i] == '*') == (g[i] == '*')
    {
      assert Lower(f)[i] == Lower(g)[i];
      LowerKeepsSpaceAndStar(f[i]);
      LowerKeepsSpaceAndStar(g[i]);
    }
    assert SameShape(f, g) && SameShape(g, f);
    if IsPaddedStar(f) {
      var k :| 0 <= k < |f| && f[k] == '*' && IsBlank(f[..k]) && IsBlank(f[k + 1..]);
      PaddedStarSameShape(f, g, k);
    }
    if IsPaddedStar(g) {
      var k :| 0 <= k < |g| && g[k] == '*' && IsBlank(g[..k]) && IsBlank(g[k + 1..]);
      PaddedStarSameShape(g, f, k);
    }
  }

  /** `t` occurs in `s` starting at offset `k`. */
  predicate OccursAt(s: string, t: string, k: nat) {
    k + |t| <= |s| && s[k..k + |t|] == t
  }

  /** `s.includes(t)` */
  predicate Contains(s: string, t: string)
    decreases |s|
  {
    if t <= s then true
    else if s == [] then false
    else Contains(s[1..], t)
  }

  /** `includes` finds `t` exactly when `t` occurs at some offset of `s`. */
  lemma {:induction false} ContainsIffOccurs(s: string, t: string)
    ensures Contains(s, t) <==> exists k: nat :: OccursAt(s, t, k)
    decreases |s|
  {
    if t <= s {
      assert OccursAt(s, t, 0);
    } else if s == [] {
      assert forall k: nat :: !OccursAt(s, t, k);
    } else {
      ContainsIffOccurs(s[1..], t);
      forall k: nat | OccursAt(s[1..], t, k) ensures OccursAt(s, t, k + 1) {
        assert s[k + 1..k + 1 + |t|] == s[1..][k..k + |t|];
      }
      assert !OccursAt(s, t, 0);
      forall k: nat | k > 0 && OccursAt(s, t, k) ensures OccursAt(s[1..], t, k - 1) {
        assert s[k..k + |t|] == s[1..][k - 1..k - 1 + |t|];
      }
    }
  }

  /** JS `<` on two strings: by character code, a proper prefix first. */
  predicate StrLess(s: string, t: string) {
    if s == [] then t != []
    else if t == [] then false
    else s[0] < t[0] || (s[0] == t[0] && StrLess(s[1..], t[1..]))
  }

  lemma {:induction false} StrLessIrreflexive(s: string)
    ensures !StrLess(s, s)
  {
    if s != [] { StrLessIrreflexive(s[1..]); }
  }

  lemma {:induction false} StrLessTransitive(a: string, b: string, c: string)
    requires StrLess(a, b) && StrLess(b, c)
    ensures StrLess(a, c)
  {
    if a != [] && b != [] && c != [] && a[0] == b[0] == c[0] {
      StrLessTransitive(a[1..], b[1..], c[1..]);
    }
  }

  lemma {:induction false} StrLessTotal(a: string, b: string)
    requires a != b
    ensures StrLess(a, b) || StrLess(b, a)
  {
    if a != [] && b != [] && a[0] == b[0] {
      assert a == [a[0]] + a[1..] && b == [b[0]] + b[1..];
      StrLessTotal(a[1..], b[1..]);
    }
  }

  /** A character matched by the regular-expression class `\w`. */
  predicate IsWordChar(c: char) {
    'a' <= c <= 'z' || 'A' <= c <= 'Z' || '0' <= c <= '9' || c == '_'
  }

  /** `s.replace(/_/g, " ")` */
  function UnderscoresToSpaces(s: string): string {
    seq(|s|, i requires 0 <= i < |s| => if s[i] == '_' then ' ' else s[i])
  }

  /** `s.replace(/\b\w/g, c => c.toUpperCase())`, scanning left to right;
      `afterWord` says whether the character before `s` was a word character. */
  function CapitalizeWords(s: string, afterWord: bool): (r: string)
    ensures |r| == |s|
  {
    if s == [] then []
    else
      var c := if IsWordChar(s[0]) && !afterWord then UpperChar(s[0]) else s[0];
      [c] + CapitalizeWords(s[1..], IsWordChar(s[0]))
  }

  /** `\b\w` matches at `i`: a word character with no word character before it. */
  predicate WordStart(s: string, i: int)
    requires 0 <= i < |s|
  {
    IsWordChar(s[i]) && (i == 0 || !IsWordChar(s[i - 1]))
  }

  /** The scan upper-cases exactly the characters at word starts. */
  lemma {:induction false} CapitalizeWordsAt(s: string, afterWord: bool, i: int)
    requires 0 <= i < |s|
    ensures CapitalizeWords(s, afterWord)[i] ==
      if IsWordChar(s[i]) && (if i == 0 then !afterWord else !IsWordChar(s[i - 1]))
      then UpperChar(s[i]) else s[i]
    ensures !afterWord ==> CapitalizeWords(s, afterWord)[i] == if WordStart(s, i) then UpperChar(s[i]) else s[i]
  {
    if i > 0 {
      CapitalizeWordsAt(s[1..], IsWordChar(s[0]), i - 1);
    }
  }
}
