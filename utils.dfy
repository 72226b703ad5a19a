/**
 * The string helpers of app_modules/utils.py: required-field validation, slugs,
 * HTML sanitising and the JSON reply payload.
 */
module Utils {
  import opened Wrappers
  import opened Strings
  import Seqs
  import Json

  // ---------------------------------------------------------------------------
  // validate_required
  // ---------------------------------------------------------------------------

  /** validate_required(*fields): every field is a string with a non-whitespace character. */
  function ValidateRequired(fields: seq<Json.Value>): (ok: bool)
    ensures ok <==> forall i :: 0 <= i < |fields| ==> fields[i].Str? && !IsBlank(fields[i].s)
  {
    if fields == [] then true
    else
      var f := fields[0];
      if !Json.Truthy(f) || !f.Str? || Strip(f.s) == "" then false
      else
        var rest := ValidateRequired(fields[1..]);
        assert forall i :: 1 <= i < |fields| ==> fields[i] == fields[1..][i - 1];
        rest
  }

  // ---------------------------------------------------------------------------
  // slugify
  // ---------------------------------------------------------------------------

  /** The ASCII part of the regular-expression class \w. */
  predicate IsWordChar(c: char)
  {
    'a' <= c <= 'z' || 'A' <= c <= 'Z' || '0' <= c <= '9' || c == '_'
  }

  /** The characters of the class [\s_-], whose runs slugify turns into one hyphen. */
  const Separators: set<char> := PyWhitespace + {'_', '-'}

  /** A lower-case ASCII letter or a digit: what a slug keeps of its text. */
  predicate IsLowerAlnum(c: char)
  {
    'a' <= c <= 'z' || '0' <= c <= '9'
  }

  /** A character that can appear in a slug of ASCII text. */
  predicate IsSlugChar(c: char)
  {
    IsLowerAlnum(c) || c == '-'
  }

  /** re.sub(r"[\s_-]+", "-", s): each maximal run of separators becomes a single hyphen. */
  function CollapseSeparators(s: string): string
    decreases |s|
  {
    if s == [] then []
    else if s[0] in Separators then "-" + CollapseSeparators(s[LeadingCount(s, Separators)..])
    else [s[0]] + CollapseSeparators(s[1..])
  }

  /**
   * After collapsing, no whitespace or underscore is left, hyphens never touch, a
   * leading hyphen comes from a leading separator, and every other character was in s.
   */
  lemma CollapseShape(s: string)
    ensures var r := CollapseSeparators(s);
      && (forall i :: 0 <= i < |r| ==> r[i] !in PyWhitespace && r[i] != '_')
      && (forall i :: 0 <= i < |r| - 1 ==> !(r[i] == '-' && r[i + 1] == '-'))
      && (r != [] && r[0] == '-' ==> s != [] && s[0] in Separators)
      && (forall c :: c in r ==> c == '-' || (c in s && c !in Separators))
  {
    var r := CollapseSeparators(s);
    CollapseChars(s);
    CollapseHyphens(s);
    forall i | 0 <= i < |r| ensures r[i] !in PyWhitespace && r[i] != '_' {
      assert r[i] in r;
    }
  }

  /** Every character of the collapsed string is a hyphen or a non-separator of s. */
  lemma {:induction false} CollapseChars(s: string)
    ensures forall c :: c in CollapseSeparators(s) ==> c == '-' || (c in s && c !in Separators)
    decreases |s|
  {
    if s != [] {
      var n := if s[0] in Separators then LeadingCount(s, Separators) else 1;
      var rest := s[n..];
      CollapseChars(rest);
      assert forall c :: c in rest ==> c in s;
      if s[0] in Separators {
        assert CollapseSeparators(s) == ['-'] + CollapseSeparators(rest);
      } else {
        assert CollapseSeparators(s) == [s[0]] + CollapseSeparators(rest);
      }
    }
  }

  /** Hyphens in the collapsed string never touch, and a leading one comes from a leading separator. */
  lemma {:induction false} CollapseHyphens(s: string)
    ensures var r := CollapseSeparators(s);
      && (forall i :: 0 <= i < |r| - 1 ==> !(r[i] == '-' && r[i + 1] == '-'))
      && (r != [] && r[0] == '-' ==> s != [] && s[0] in Separators)
    decreases |s|
  {
    if s != [] {
      var r := CollapseSeparators(s);
      var n := if s[0] in Separators then LeadingCount(s, Separators) else 1;
      var rest := s[n..];
      var q := CollapseSeparators(rest);
      CollapseHyphens(rest);
      assert |rest| < |s|;
      assert forall j :: 0 <= j < |CollapseSeparators(rest)| - 1 ==>
        !(CollapseSeparators(rest)[j] == '-' && CollapseSeparators(rest)[j + 1] == '-');
      assert forall j :: 0 <= j < |q| - 1 ==> !(q[j] == '-' && q[j + 1] == '-');
      if s[0] in Separators {
        assert r == ['-'] + q;
        assert rest != [] ==> rest[0] !in Separators;
        assert q != [] ==> q[0] != '-';
      } else {
        assert r == [s[0]] + q;
        assert s[0] != '-';
      }
      assert |r| == |q| + 1;
      forall i | 0 <= i < |r| - 1 ensures !(r[i] == '-' && r[i + 1] == '-') {
        assert r[i + 1] == q[i];
        if i > 0 {
          var m := i - 1;
          assert 0 <= m < |q| - 1;
          assert r[i] == q[m];
          assert r[i + 1] == q[m + 1];
          assert !(q[m] == '-' && q[m + 1] == '-');
        } else if r[0] == '-' {
          assert s[0] in Separators && q[0] != '-';
        }
      }
    }
  }

  /** slugify(text) for ASCII text; None models Python's None. */
  function Slugify(text: Option<string>): (r: string)
    ensures text == None || text == Some("") ==> r == ""
    ensures forall i :: 0 <= i < |r| ==> IsSlugChar(r[i])
    ensures forall i :: 0 <= i < |r| ==> r[i] !in PyWhitespace && r[i] != '_'
    ensures r != [] ==> r[0] != '-' && r[|r| - 1] != '-'
    ensures forall i :: 0 <= i < |r| - 1 ==> !(r[i] == '-' && r[i + 1] == '-')
    ensures text.Some? ==> Seqs.Filter(r, IsLowerAlnum) == Seqs.Filter(LowerAscii(text.value), IsLowerAlnum)
  {
    if text == None || text == Some("") then ""
    else
      var lowered := Strip(LowerAscii(text.value));
      var kept := Seqs.Filter(lowered, KeptBySlugify);
      var collapsed := CollapseSeparators(kept);
      CollapseShape(kept);
      SlugChars(text.value, lowered, kept, collapsed);
      HyphensStripped(collapsed);
      SlugKeepsLetters(text.value, lowered, kept, collapsed);
      StripSet(collapsed, {'-'})
  }

  /** No step of slugify drops or reorders a letter or digit of the lower-cased text. */
  lemma SlugKeepsLetters(s: string, lowered: string, kept: string, collapsed: string)
    requires lowered == Strip(LowerAscii(s))
    requires kept == Seqs.Filter(lowered, KeptBySlugify)
    requires collapsed == CollapseSeparators(kept)
    ensures Seqs.Filter(StripSet(collapsed, {'-'}), IsLowerAlnum) == Seqs.Filter(LowerAscii(s), IsLowerAlnum)
  {
    var low := LowerAscii(s);
    HyphenNotLetter();
    FilterStripSet(collapsed, {'-'}, IsLowerAlnum);
    CollapseKeepsLetters(kept);
    LettersKeptBySlugify();
    Seqs.FilterFilter(lowered, KeptBySlugify, IsLowerAlnum);
    WhitespaceNotLetter();
    FilterStripSet(low, PyWhitespace, IsLowerAlnum);
  }

  /** The hyphen is not a letter or a digit. */
  lemma HyphenNotLetter()
    ensures forall c :: c in {'-'} ==> !IsLowerAlnum(c)
  {
  }

  /** No Python whitespace character is a letter or a digit. */
  lemma WhitespaceNotLetter()
    ensures forall c :: c in PyWhitespace ==> !IsLowerAlnum(c)
  {
  }

  /** slugify's character filter keeps every letter and digit. */
  lemma LettersKeptBySlugify()
    ensures forall c :: IsLowerAlnum(c) ==> KeptBySlugify(c)
  {
  }

  /** Stripping characters that the test rejects does not change what the test selects. */
  lemma FilterStripSet(s: string, ws: set<char>, keep: char -> bool)
    requires forall c :: c in ws ==> !keep(c)
    ensures Seqs.Filter(StripSet(s, ws), keep) == Seqs.Filter(s, keep)
  {
    var n := LeadingCount(s, ws);
    var m := StripSet(s, ws);
    var a, c := s[..n], s[n + |m|..];
    StripSetSplit(s, ws);
    assert forall i :: 0 <= i < |a| ==> a[i] in ws;
    assert forall i :: 0 <= i < |c| ==> c[i] in ws;
    Seqs.FilterAround(a, m, c, keep);
  }

  /** Collapsing separators keeps every letter and digit, in order. */
  lemma {:induction false} CollapseKeepsLetters(s: string)
    ensures Seqs.Filter(CollapseSeparators(s), IsLowerAlnum) == Seqs.Filter(s, IsLowerAlnum)
    decreases |s|
  {
    if s != [] {
      var n := if s[0] in Separators then LeadingCount(s, Separators) else 1;
      CollapseKeepsLetters(s[n..]);
      CollapseRunLetters(s, n);
    }
  }

  /** One step of the collapse: the leading run, or the leading character, adds the same letters to both sides. */
  lemma CollapseRunLetters(s: string, n: nat)
    requires s != [] && n == if s[0] in Separators then LeadingCount(s, Separators) else 1
    ensures Seqs.Filter(CollapseSeparators(s), IsLowerAlnum)
      == Seqs.Filter(s[..n], IsLowerAlnum) + Seqs.Filter(CollapseSeparators(s[n..]), IsLowerAlnum)
    ensures Seqs.Filter(s, IsLowerAlnum) == Seqs.Filter(s[..n], IsLowerAlnum) + Seqs.Filter(s[n..], IsLowerAlnum)
  {
    FilterSplit(s, n);
    if s[0] in Separators {
      SeparatorRunLetters(s, n);
    } else {
      CollapseKeepsHead(s);
      Seqs.FilterAppend(s[..1], CollapseSeparators(s[1..]), IsLowerAlnum);
    }
  }

  /** Filtering a string is filtering its two halves. */
  lemma FilterSplit(s: string, n: nat)
    requires n <= |s|
    ensures Seqs.Filter(s, IsLowerAlnum) == Seqs.Filter(s[..n], IsLowerAlnum) + Seqs.Filter(s[n..], IsLowerAlnum)
  {
    assert s == s[..n] + s[n..];
    Seqs.FilterAppend(s[..n], s[n..], IsLowerAlnum);
  }

  /** A leading character that is not a separator is kept as it is. */
  lemma CollapseKeepsHead(s: string)
    requires s != [] && s[0] !in Separators
    ensures CollapseSeparators(s) == s[..1] + CollapseSeparators(s[1..])
  {
    assert s[..1] == [s[0]];
  }

  /** A leading run of separators becomes a hyphen, and neither holds a letter or digit. */
  lemma SeparatorRunLetters(s: string, n: nat)
    requires s != [] && s[0] in Separators && n == LeadingCount(s, Separators)
    ensures Seqs.Filter(CollapseSeparators(s), IsLowerAlnum)
      == Seqs.Filter(s[..n], IsLowerAlnum) + Seqs.Filter(CollapseSeparators(s[n..]), IsLowerAlnum)
  {
    assert CollapseSeparators(s) == "-" + CollapseSeparators(s[n..]);
    Seqs.FilterAppend("-", CollapseSeparators(s[n..]), IsLowerAlnum);
    Seqs.FilterDropsAll("-", IsLowerAlnum);
    SeparatorsNotLetters();
    Seqs.FilterDropsAll(s[..n], IsLowerAlnum);
  }

  /** No separator is a letter or a digit. */
  lemma SeparatorsNotLetters()
    ensures forall c :: c in Separators ==> !IsLowerAlnum(c)
  {
  }

  /** re.sub(r"[^\w\s-]", "", ...) keeps exactly these characters. */
  predicate KeptBySlugify(c: char)
  {
    IsWordChar(c) || c in PyWhitespace || c == '-'
  }

  /** Stripping hyphens from a collapsed string keeps its character-level guarantees. */
  lemma HyphensStripped(collapsed: string)
    requires forall i :: 0 <= i < |collapsed| ==> IsSlugChar(collapsed[i])
    requires forall i :: 0 <= i < |collapsed| ==> collapsed[i] !in PyWhitespace && collapsed[i] != '_'
    requires forall i :: 0 <= i < |collapsed| - 1 ==> !(collapsed[i] == '-' && collapsed[i + 1] == '-')
    ensures var r := StripSet(collapsed, {'-'});
      && (forall i :: 0 <= i < |r| ==> IsSlugChar(r[i]) && r[i] !in PyWhitespace && r[i] != '_')
      && (forall i :: 0 <= i < |r| - 1 ==> !(r[i] == '-' && r[i + 1] == '-'))
  {
    var r := StripSet(collapsed, {'-'});
    var k := LeadingCount(collapsed, {'-'});
    assert forall i :: 0 <= i < |r| ==> r[i] == collapsed[k + i];
  }

  /** Every character left after collapsing is a lower-case letter, a digit or a hyphen. */
  lemma SlugChars(s: string, lowered: string, kept: string, collapsed: string)
    requires lowered == Strip(LowerAscii(s))
    requires kept == Seqs.Filter(lowered, KeptBySlugify)
    requires collapsed == CollapseSeparators(kept)
    ensures forall i :: 0 <= i < |collapsed| ==> IsSlugChar(collapsed[i])
  {
    CollapseShape(kept);
    NoUpperAfterLowering(s);
    assert forall c :: c in kept ==> c in lowered && KeptBySlugify(c);
    forall i | 0 <= i < |collapsed| ensures IsSlugChar(collapsed[i]) {
      var c := collapsed[i];
      assert c in collapsed;
      assert c == '-' || (c in kept && c !in Separators);
    }
  }

  /** Lower-casing and stripping leaves no upper-case ASCII letter. */
  lemma NoUpperAfterLowering(s: string)
    ensures forall c :: c in Strip(LowerAscii(s)) ==> !('A' <= c <= 'Z')
  {
    NoUpperAfterStrip(LowerAscii(s), PyWhitespace);
  }

  /** Stripping only removes characters, so it adds no upper-case letter. */
  lemma NoUpperAfterStrip(low: string, ws: set<char>)
    requires forall i :: 0 <= i < |low| ==> !('A' <= low[i] <= 'Z')
    ensures forall c :: c in StripSet(low, ws) ==> !('A' <= c <= 'Z')
  {
    var r := StripSet(low, ws);
    var k := LeadingCount(low, ws);
    forall c | c in r ensures !('A' <= c <= 'Z') {
      var i :| 0 <= i < |r| && r[i] == c;
      assert r[i] == low[k + i];
    }
  }

  /** The example in slugify's documentation. */
  lemma SlugifyExample()
    ensures Slugify(Some("My New Category")) == "my-new-category"
  {
    SlugifyExampleSteps("My New Category", "my new category", "my-new-category");
  }

  /** The example computed step by step; the strings are parameters so that each step is unfolded once. */
  lemma SlugifyExampleSteps(text: string, lowered: string, slug: string)
    requires text == "My New Category" && lowered == "my new category" && slug == "my-new-category"
    ensures Slugify(Some(text)) == slug
  {
    ExampleLowered(text, lowered);
    ExampleKept(lowered);
    ExampleCollapsed(lowered, slug);
    ExampleHyphens(slug);
    SlugifyVia(text, lowered, slug);
  }

  /** Slugify in terms of its intermediate strings, for text whose every character is kept. */
  lemma SlugifyVia(text: string, lowered: string, slug: string)
    requires text != [] && Strip(LowerAscii(text)) == lowered
    requires Seqs.Filter(lowered, KeptBySlugify) == lowered
    requires CollapseSeparators(lowered) == slug && StripSet(slug, {'-'}) == slug
    ensures Slugify(Some(text)) == slug
  {
  }

  lemma ExampleKept(lowered: string)
    requires lowered == "my new category"
    ensures Seqs.Filter(lowered, KeptBySlugify) == lowered
  {
    forall i | 0 <= i < |lowered| ensures KeptBySlugify(lowered[i]) {
      assert lowered[i] == ' ' || IsWordChar(lowered[i]);
    }
    Seqs.FilterKeepsAll(lowered, KeptBySlugify);
  }

  lemma ExampleLowered(text: string, lowered: string)
    requires text == "My New Category" && lowered == "my new category"
    ensures Strip(LowerAscii(text)) == lowered
  {
    ExampleLowerCase(text, lowered);
    ExampleStripped(lowered);
  }

  lemma ExampleLowerCase(text: string, lowered: string)
    requires text == "My New Category" && lowered == "my new category"
    ensures LowerAscii(text) == lowered
  {
    var low := LowerAscii(text);
    assert |low| == |lowered| == 15;
    forall i | 0 <= i < 15 ensures low[i] == lowered[i] {
      assert low[i] == LowerChar(text[i]);
    }
    assert low == lowered;
  }

  lemma ExampleStripped(lowered: string)
    requires lowered == "my new category"
    ensures Strip(lowered) == lowered
  {
    assert LeadingCount(lowered, PyWhitespace) == 0;
    assert TrailingCount(lowered, PyWhitespace) == 0;
  }

  lemma ExampleHyphens(slug: string)
    requires slug == "my-new-category"
    ensures StripSet(slug, {'-'}) == slug
  {
    assert LeadingCount(slug, {'-'}) == 0;
    assert TrailingCount(slug, {'-'}) == 0;
  }

  lemma ExampleCollapsed(lowered: string, slug: string)
    requires lowered == "my new category" && slug == "my-new-category"
    ensures CollapseSeparators(lowered) == slug
  {
    ExampleSplit(lowered, slug, "my", "new", "category");
    ExampleWords("my", "new", "category");
  }

  lemma ExampleSplit(lowered: string, slug: string, w1: string, w2: string, w3: string)
    requires lowered == "my new category" && slug == "my-new-category"
    requires w1 == "my" && w2 == "new" && w3 == "category"
    ensures lowered == w1 + (" " + (w2 + (" " + w3)))
    ensures slug == w1 + ("-" + (w2 + ("-" + w3)))
  {
  }

  lemma ExampleWords(w1: string, w2: string, w3: string)
    requires w1 == "my" && w2 == "new" && w3 == "category"
    ensures CollapseSeparators(w1 + (" " + (w2 + (" " + w3)))) == w1 + ("-" + (w2 + ("-" + w3)))
  {
    WordThenSpace(w1, w2 + (" " + w3));
    WordThenSpace(w2, w3);
    ExampleLastWord(w3);
  }

  lemma ExampleLastWord(w3: string)
    requires w3 == "category"
    ensures CollapseSeparators(w3) == w3
  {
    CollapseWord(w3, []);
    assert w3 + [] == w3;
  }

  /** A word followed by one space and more text: the space becomes a hyphen. */
  lemma WordThenSpace(w: string, rest: string)
    requires forall i :: 0 <= i < |w| ==> w[i] !in Separators
    requires rest != [] && rest[0] !in Separators
    ensures CollapseSeparators(w + (" " + rest)) == w + ("-" + CollapseSeparators(rest))
  {
    CollapseWord(w, " " + rest);
    CollapseRun(" " + rest, rest);
  }

  /** A word without separators passes through CollapseSeparators unchanged. */
  lemma {:induction false} CollapseWord(w: string, rest: string)
    requires forall i :: 0 <= i < |w| ==> w[i] !in Separators
    ensures CollapseSeparators(w + rest) == w + CollapseSeparators(rest)
  {
    if w != [] {
      var s := w + rest;
      assert s != [] && s[0] == w[0] && s[0] !in Separators;
      assert s[1..] == w[1..] + rest;
      calc {
        CollapseSeparators(s);
        [w[0]] + CollapseSeparators(s[1..]);
        [w[0]] + CollapseSeparators(w[1..] + rest);
        { CollapseWord(w[1..], rest); }
        [w[0]] + (w[1..] + CollapseSeparators(rest));
        ([w[0]] + w[1..]) + CollapseSeparators(rest);
        { assert [w[0]] + w[1..] == w; }
        w + CollapseSeparators(rest);
      }
    } else {
      assert w + rest == rest;
    }
  }

  /** A single space before a word becomes one hyphen. */
  lemma CollapseRun(s: string, t: string)
    requires s == [' '] + t && t != [] && t[0] !in Separators
    ensures CollapseSeparators(s) == "-" + CollapseSeparators(t)
  {
    assert LeadingCount(s, Separators) == 1 + LeadingCount(t, Separators);
    assert s[1..] == t;
  }

  // ---------------------------------------------------------------------------
  // sanitize_text
  // ---------------------------------------------------------------------------

  /** html.escape(c, quote=True) for one character. */
  function EscapeChar(c: char): string
  {
    match c
    case '&' => "&amp;"
    case '<' => "&lt;"
    case '>' => "&gt;"
    case '"' => "&quot;"
    case '\'' => "&#x27;"
    case _ => [c]
  }

  /** html.escape(s, quote=True). */
  function HtmlEscape(s: string): (r: string)
    ensures forall i :: 0 <= i < |r| ==> r[i] !in {'<', '>', '"', '\''}
    ensures AllIn(s, PyWhitespace) ==> r == s
  {
    if s == [] then [] else EscapeChar(s[0]) + HtmlEscape(s[1..])
  }

  /** The inverse of HtmlEscape on its five entities. */
  function HtmlUnescape(s: string): string
    decreases |s|
  {
    if s == [] then []
    else if s[0] != '&' then [s[0]] + HtmlUnescape(s[1..])
    else if |s| >= 5 && s[..5] == "&amp;" then "&" + HtmlUnescape(s[5..])
    else if |s| >= 4 && s[..4] == "&lt;" then "<" + HtmlUnescape(s[4..])
    else if |s| >= 4 && s[..4] == "&gt;" then ">" + HtmlUnescape(s[4..])
    else if |s| >= 6 && s[..6] == "&quot;" then "\"" + HtmlUnescape(s[6..])
    else if |s| >= 6 && s[..6] == "&#x27;" then "'" + HtmlUnescape(s[6..])
    else [s[0]] + HtmlUnescape(s[1..])
  }

  lemma UnescapeEscapeChar(c: char, t: string)
    ensures HtmlUnescape(EscapeChar(c) + t) == [c] + HtmlUnescape(t)
  {
    var e := EscapeChar(c) + t;
    if c == '&' {
      assert e[..5] == "&amp;" && e[5..] == t;
    } else if c == '<' {
      assert e[1] == 'l' && e[..4] == "&lt;" && e[4..] == t;
    } else if c == '>' {
      assert e[1] == 'g' && e[..4] == "&gt;" && e[4..] == t;
    } else if c == '"' {
      assert e[1] == 'q' && e[..6] == "&quot;" && e[6..] == t;
    } else if c == '\'' {
      assert e[1] == '#' && e[..6] == "&#x27;" && e[6..] == t;
    } else {
      assert e[0] == c && e[1..] == t;
    }
  }

  /** Escaping loses nothing: unescaping the escaped text gives the text back. */
  lemma {:induction false} UnescapeEscape(s: string)
    ensures HtmlUnescape(HtmlEscape(s)) == s
  {
    if s != [] {
      UnescapeEscapeChar(s[0], HtmlEscape(s[1..]));
      UnescapeEscape(s[1..]);
      assert s == [s[0]] + s[1..];
    }
  }

  /** Escaping distributes over concatenation. */
  lemma {:induction false} HtmlEscapeAppend(a: string, b: string)
    ensures HtmlEscape(a + b) == HtmlEscape(a) + HtmlEscape(b)
  {
    if a != [] {
      assert (a + b)[1..] == a[1..] + b;
      HtmlEscapeAppend(a[1..], b);
    } else {
      assert a + b == b;
    }
  }

  /**
   * Every entity starts with '&' and ends with ';', so escaping a string that
   * neither starts nor ends with whitespace gives one that does not either.
   */
  lemma HtmlEscapeEnds(m: string)
    requires m != [] && m[0] !in PyWhitespace && m[|m| - 1] !in PyWhitespace
    ensures var e := HtmlEscape(m); e != [] && e[0] !in PyWhitespace && e[|e| - 1] !in PyWhitespace
  {
    EscapeCharEnds(m[0]);
    EscapeCharEnds(m[|m| - 1]);
    HtmlEscapeFirstLast(m);
  }

  /** The escape of a non-empty string starts as its first character's escape and ends as its last one's. */
  lemma HtmlEscapeFirstLast(m: string)
    requires m != []
    ensures var e := HtmlEscape(m); var f := EscapeChar(m[0]); var l := EscapeChar(m[|m| - 1]);
      f != [] && l != [] && e != [] && e[0] == f[0] && e[|e| - 1] == l[|l| - 1]
  {
    EscapeCharNonEmpty(m[0]);
    EscapeCharNonEmpty(m[|m| - 1]);
    var p := m[..|m| - 1];
    assert m == p + [m[|m| - 1]];
    EscapeSnoc(p, m[|m| - 1]);
  }

  lemma EscapeCharNonEmpty(c: char)
    ensures EscapeChar(c) != []
  {
  }

  /** Escaping a string with one more character at the end appends that character's escape. */
  lemma EscapeSnoc(p: string, c: char)
    ensures HtmlEscape(p + [c]) == HtmlEscape(p) + EscapeChar(c)
  {
    HtmlEscapeAppend(p, [c]);
    assert HtmlEscape([c]) == EscapeChar(c) + HtmlEscape([]);
  }

  /** The escaped form of a character that is not whitespace neither starts nor ends with whitespace. */
  lemma EscapeCharEnds(c: char)
    requires c !in PyWhitespace
    ensures var e := EscapeChar(c); e != [] && e[0] !in PyWhitespace && e[|e| - 1] !in PyWhitespace
  {
    var e := EscapeChar(c);
    if c in {'&', '<', '>', '"', '\''} {
      assert e[0] == '&' && e[|e| - 1] == ';';
      assert '&' !in PyWhitespace && ';' !in PyWhitespace;
    } else {
      assert e == [c];
    }
  }

  /** Stripping before or after escaping gives the same text. */
  lemma StripEscape(s: string)
    ensures Strip(HtmlEscape(s)) == HtmlEscape(Strip(s))
  {
    var n := LeadingCount(s, PyWhitespace);
    var m := Strip(s);
    StripSetSplit(s, PyWhitespace);
    EscapeAround(s[..n], m, s[n + |m|..]);
    var e := HtmlEscape(m);
    if m != [] {
      HtmlEscapeEnds(m);
    }
    StripSetOf(HtmlEscape(s), PyWhitespace, s[..n], e, s[n + |m|..]);
  }

  /** Escaping leaves the whitespace around a text as it is. */
  lemma EscapeAround(a: string, m: string, c: string)
    requires AllIn(a, PyWhitespace) && AllIn(c, PyWhitespace)
    ensures HtmlEscape(a + m + c) == a + HtmlEscape(m) + c
  {
    HtmlEscapeAppend(a + m, c);
    HtmlEscapeAppend(a, m);
  }

  /** sanitize_text(text); None models Python's None. */
  function SanitizeText(text: Option<string>): (r: string)
    ensures text == None || text == Some("") ==> r == ""
    ensures forall i :: 0 <= i < |r| ==> r[i] !in {'<', '>', '"', '\''}
    ensures r != [] ==> r[0] !in PyWhitespace && r[|r| - 1] !in PyWhitespace
    ensures text.Some? && IsBlank(text.value) ==> r == ""
    ensures text.Some? ==> r == HtmlEscape(Strip(text.value))
    ensures text.Some? ==> HtmlUnescape(r) == Strip(text.value)
  {
    if text == None || text == Some("") then ""
    else
      var e := HtmlEscape(text.value);
      StripKeepsChars(e);
      StripEscape(text.value);
      UnescapeEscape(Strip(text.value));
      Strip(e)
  }

  /** Every character of Strip(s) is a character of s. */
  lemma StripKeepsChars(s: string)
    ensures forall i :: 0 <= i < |Strip(s)| ==> Strip(s)[i] in s
  {
    var r := Strip(s);
    var k := LeadingCount(s, PyWhitespace);
    forall i | 0 <= i < |r| ensures r[i] in s {
      assert r[i] == s[k + i];
    }
  }

  // ---------------------------------------------------------------------------
  // json_response
  // ---------------------------------------------------------------------------

  /**
   * json_response(status, **kwargs). Python binds a `status=` keyword to the
   * parameter, so kwargs never holds the key "status".
   */
  function JsonResponse(status: Json.Value, kwargs: map<string, Json.Value>): (payload: map<string, Json.Value>)
    requires "status" !in kwargs
    ensures payload.Keys == kwargs.Keys + {"status"}
    ensures payload["status"] == status
    ensures forall k :: k in kwargs ==> payload[k] == kwargs[k]
  {
    map["status" := status] + kwargs
  }
}
