/**
 * String helpers shared by the model: whitespace trimming as Python's str.strip()
 * and JavaScript's String.prototype.trim() do it (ASCII only), the byte-wise order
 * SQLite uses to compare TEXT values, ASCII case folding, substring search and
 * replacement.
 */
module Strings {

  /**
   * Characters for which Python's str.isspace() holds, restricted to ASCII: the
   * space, tab, line feed, vertical tab, form feed, carriage return and the four
   * separators U+001C to U+001F.
   */
  const PyWhitespace: set<char> := set c: char | c == ' ' || '\t' <= c <= '\r' || '\U{1C}' <= c <= '\U{1F}'

  /** ASCII characters removed by JavaScript's trim(): the space and tab to carriage return. */
  const JsWhitespace: set<char> := set c: char | c == ' ' || '\t' <= c <= '\r'

  /** Every character of s is in ws (the empty string included). */
  predicate AllIn(s: string, ws: set<char>)
  {
    forall i :: 0 <= i < |s| ==> s[i] in ws
  }

  /** Number of leading characters of s that belong to ws. */
  function LeadingCount(s: string, ws: set<char>): (n: nat)
    ensures n <= |s|
    ensures AllIn(s[..n], ws)
    ensures n < |s| ==> s[n] !in ws
  {
    if |s| > 0 && s[0] in ws then
      var k := LeadingCount(s[1..], ws);
      assert s[..k + 1] == [s[0]] + s[1..][..k];
      1 + k
    else 0
  }

  /** Number of trailing characters of s that belong to ws. */
  function TrailingCount(s: string, ws: set<char>): (n: nat)
    ensures n <= |s|
    ensures AllIn(s[|s| - n..], ws)
    ensures n < |s| ==> s[|s| - 1 - n] !in ws
  {
    if |s| > 0 && s[|s| - 1] in ws then
      var k := TrailingCount(s[..|s| - 1], ws);
      TrailingStep(s, ws, k);
      1 + k
    else 0
  }

  /** One more trailing character of ws extends the trailing run by one. */
  lemma TrailingStep(s: string, ws: set<char>, k: nat)
    requires |s| > 0 && s[|s| - 1] in ws && k <= |s| - 1
    requires AllIn(s[..|s| - 1][|s| - 1 - k..], ws)
    ensures AllIn(s[|s| - (k + 1)..], ws)
  {
    var t := s[..|s| - 1];
    var u := s[|s| - (k + 1)..];
    var v := t[|t| - k..];
    forall i | 0 <= i < |u| ensures u[i] in ws {
      if i < k {
        assert u[i] == v[i];
      }
    }
  }

  /** s with every leading and trailing character of ws removed (Python's s.strip(chars)). */
  function StripSet(s: string, ws: set<char>): (r: string)
    ensures LeadingCount(s, ws) + |r| <= |s|
    ensures r == s[LeadingCount(s, ws)..LeadingCount(s, ws) + |r|]
    ensures r == [] <==> AllIn(s, ws)
    ensures r != [] ==> r[0] !in ws && r[|r| - 1] !in ws
    ensures AllIn(s[LeadingCount(s, ws) + |r|..], ws)
  {
    var a := LeadingCount(s, ws);
    var t := s[a..];
    var b := TrailingCount(t, ws);
    StripSetFacts(s, ws, a, t, b);
    t[..|t| - b]
  }

  lemma StripSetFacts(s: string, ws: set<char>, a: nat, t: string, b: nat)
    requires a == LeadingCount(s, ws) && t == s[a..] && b == TrailingCount(t, ws)
    ensures t[..|t| - b] == s[a..a + (|t| - b)]
    ensures t[..|t| - b] == [] <==> AllIn(s, ws)
    ensures t[..|t| - b] != [] ==> t[0] !in ws && t[|t| - 1 - b] !in ws
    ensures AllIn(s[a + (|t| - b)..], ws)
  {
    assert s[a + (|t| - b)..] == t[|t| - b..];
    var r := t[..|t| - b];
    assert r == [] ==> b == |t|;
    assert a < |s| ==> |t| > 0 && t[0] == s[a] && s[a] !in ws && t[0] !in ws;
    assert |t| > 0 && t[0] !in ws ==> b < |t|;
    assert r == [] ==> a == |s| && s[..a] == s;
    assert AllIn(s, ws) ==> a == |s|;
  }

  /** Python's str.strip() with no argument. */
  function Strip(s: string): string
  {
    StripSet(s, PyWhitespace)
  }

  /** What a caller of Strip needs: no whitespace at either end, and empty exactly for blank text. */
  lemma StripShape(s: string)
    ensures Stripped(Strip(s)) && (Strip(s) == [] <==> AllIn(s, PyWhitespace))
  {
  }

  /** JavaScript's String.prototype.trim(). */
  function Trim(s: string): string
  {
    StripSet(s, JsWhitespace)
  }

  /** s has no Python whitespace at either end: Strip leaves it as it is. */
  predicate Stripped(s: string)
  {
    s == [] || (s[0] !in PyWhitespace && s[|s| - 1] !in PyWhitespace)
  }

  /** Python's truthiness test `not s.strip()`, stated without computing the strip. */
  predicate IsBlank(s: string)
  {
    AllIn(s, PyWhitespace)
  }

  /** Stripping is idempotent: a stripped string has no strippable character at either end. */
  lemma {:induction false} StripSetIdempotent(s: string, ws: set<char>)
    ensures StripSet(StripSet(s, ws), ws) == StripSet(s, ws)
  {
    var r := StripSet(s, ws);
    if r != [] {
      assert LeadingCount(r, ws) == 0;
      assert r[0..] == r;
      assert TrailingCount(r, ws) == 0;
      assert r[..|r| - 0] == r;
    }
  }

  /**
   * Stripping is determined by its three parts: whatever s is made of a run of
   * ws characters, a middle that neither starts nor ends with one, and another
   * run of ws characters, the strip is that middle.
   */
  lemma {:induction false} StripSetOf(s: string, ws: set<char>, a: string, m: string, c: string)
    requires s == a + m + c && AllIn(a, ws) && AllIn(c, ws)
    requires m == [] || (m[0] !in ws && m[|m| - 1] !in ws)
    ensures StripSet(s, ws) == m
  {
    var r := StripSet(s, ws);
    var n := LeadingCount(s, ws);
    if m == [] {
      assert forall i :: 0 <= i < |s| ==> s[i] in ws by {
        forall i | 0 <= i < |s| ensures s[i] in ws {
          if i < |a| { assert s[i] == a[i]; } else { assert s[i] == c[i - |a|]; }
        }
      }
    } else {
      assert s[|a|] == m[0];
      assert s[|a| + |m| - 1] == m[|m| - 1];
      assert n == |a|;
      assert |r| == |m|;
      assert r == s[|a|..|a| + |m|] == m;
    }
  }

  /** s is its strip with a run of ws characters on either side. */
  lemma StripSetSplit(s: string, ws: set<char>)
    ensures var n := LeadingCount(s, ws);
      s == s[..n] + StripSet(s, ws) + s[n + |StripSet(s, ws)|..]
  {
    var n := LeadingCount(s, ws);
    var r := StripSet(s, ws);
    SplitThree(s, n, n + |r|);
  }

  lemma SplitThree(s: string, i: nat, j: nat)
    requires i <= j <= |s|
    ensures s == s[..i] + s[i..j] + s[j..]
  {
  }

  // ---------------------------------------------------------------------------
  // SQLite's BINARY collation: TEXT values compare character by character, and
  // a proper prefix sorts first.
  // ---------------------------------------------------------------------------

  /** a sorts no later than b under SQLite's BINARY collation. */
  predicate LexLe(a: string, b: string)
  {
    if a == [] then true
    else if b == [] then false
    else if a[0] != b[0] then a[0] < b[0]
    else LexLe(a[1..], b[1..])
  }

  lemma {:induction false} LexLeReflexive(a: string)
    ensures LexLe(a, a)
  {
    if a != [] { LexLeReflexive(a[1..]); }
  }

  lemma {:induction false} LexLeTotal(a: string, b: string)
    ensures LexLe(a, b) || LexLe(b, a)
  {
    if a != [] && b != [] && a[0] == b[0] { LexLeTotal(a[1..], b[1..]); }
  }

  lemma {:induction false} LexLeTransitive(a: string, b: string, c: string)
    requires LexLe(a, b) && LexLe(b, c)
    ensures LexLe(a, c)
  {
    if a != [] && b != [] && c != [] && a[0] == b[0] && b[0] == c[0] {
      LexLeTransitive(a[1..], b[1..], c[1..]);
    }
  }

  lemma {:induction false} LexLeAntisymmetric(a: string, b: string)
    requires LexLe(a, b) && LexLe(b, a)
    ensures a == b
  {
    if a != [] && b != [] {
      LexLeAntisymmetric(a[1..], b[1..]);
      assert a == [a[0]] + a[1..] && b == [b[0]] + b[1..];
    }
  }

  // ---------------------------------------------------------------------------
  // Case folding and substring search
  // ---------------------------------------------------------------------------

  /** ASCII lower-casing of one character (SQLite's LIKE folds only ASCII letters). */
  function LowerChar(c: char): (d: char)
    ensures 'A' <= c <= 'Z' ==> 'a' <= d <= 'z'
    ensures !('A' <= c <= 'Z') ==> d == c
    ensures !('A' <= d <= 'Z')
  {
    if 'A' <= c <= 'Z' then (c as int + 32) as char else c
  }

  function LowerAscii(s: string): (r: string)
    ensures |r| == |s|
    ensures forall i :: 0 <= i < |s| ==> r[i] == LowerChar(s[i])
  {
    if s == [] then [] else [LowerChar(s[0])] + LowerAscii(s[1..])
  }

  /** pat occurs in s at position i. */
  predicate OccursAt(s: string, pat: string, i: int)
  {
    0 <= i && i + |pat| <= |s| && s[i..i + |pat|] == pat
  }

  /** Python's `pat in s` on two strings. */
  predicate Contains(s: string, pat: string)
  {
    exists i :: 0 <= i <= |s| - |pat| && OccursAt(s, pat, i)
  }

  /** SQLite's `x LIKE '%q%'` for a query q without % or _: ASCII-case-insensitive containment. */
  predicate LikeContains(x: string, q: string)
  {
    Contains(LowerAscii(x), LowerAscii(q))
  }

  // ---------------------------------------------------------------------------
  // Replacement
  // ---------------------------------------------------------------------------

  /** Python's s.replace(c, rep) for a one-character pattern: every occurrence is replaced. */
  function ReplaceAll(s: string, c: char, rep: string): (r: string)
    ensures c !in rep ==> c !in r
    ensures c !in s ==> r == s
    ensures forall d :: d in r ==> d in s || d in rep
  {
    if s == [] then []
    else (if s[0] == c then rep else [s[0]]) + ReplaceAll(s[1..], c, rep)
  }

  /** Replacement works piecewise over a concatenation. */
  lemma {:induction false} ReplaceAllAppend(a: string, b: string, c: char, rep: string)
    ensures ReplaceAll(a + b, c, rep) == ReplaceAll(a, c, rep) + ReplaceAll(b, c, rep)
  {
    if a == [] {
      assert a + b == b;
    } else {
      var ab := a + b;
      var h := if a[0] == c then rep else [a[0]];
      assert ab != [] && ab[0] == a[0];
      assert ab[1..] == a[1..] + b;
      var y := ReplaceAll(a[1..], c, rep);
      var z := ReplaceAll(b, c, rep);
      calc {
        ReplaceAll(ab, c, rep);
        h + ReplaceAll(ab[1..], c, rep);
        h + ReplaceAll(a[1..] + b, c, rep);
        { ReplaceAllAppend(a[1..], b, c, rep); }
        h + (y + z);
        (h + y) + z;
        ReplaceAll(a, c, rep) + z;
      }
    }
  }

  /** JavaScript's s.replace(pat, rep) for a string pattern: only the first occurrence is replaced. */
  function ReplaceFirst(s: string, pat: string, rep: string): (r: string)
    requires pat != []
    ensures !Contains(s, pat) ==> r == s
    ensures |s| >= |pat| && s[..|pat|] == pat ==> r == rep + s[|pat|..]
    decreases |s|
  {
    if |s| < |pat| then s
    else if s[..|pat|] == pat then assert OccursAt(s, pat, 0); rep + s[|pat|..]
    else
      NotContainsTail(s, pat);
      assert [s[0]] + s[1..] == s;
      [s[0]] + ReplaceFirst(s[1..], pat, rep)
  }

  /** If s does not contain pat, neither does its tail. */
  lemma NotContainsTail(s: string, pat: string)
    requires s != []
    ensures !Contains(s, pat) ==> !Contains(s[1..], pat)
  {
    forall i | OccursAt(s[1..], pat, i) ensures OccursAt(s, pat, i + 1) {
      assert s[i + 1..i + 1 + |pat|] == s[1..][i..i + |pat|];
    }
  }
}
