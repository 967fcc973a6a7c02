/**
 * The string helpers of the algorithm generation agent: the slug of a title,
 * the file extension of a language, and the three fallback files written
 * when generation fails.
 */
module AlgorithmGeneration {

  /** ASCII lower-casing; other characters are left as they are. */
  function LowerChar(c: char): (r: char)
    ensures !('A' <= r <= 'Z')
    ensures !('A' <= c <= 'Z') ==> r == c
  {
    if 'A' <= c <= 'Z' then (c as int - 'A' as int + 'a' as int) as char else c
  }

  function Lower(s: string): (r: string)
    ensures |r| == |s| && forall i :: 0 <= i < |s| ==> r[i] == LowerChar(s[i])
    ensures forall x :: x in r ==> !('A' <= x <= 'Z')
  {
    if |s| == 0 then [] else [LowerChar(s[0])] + Lower(s[1..])
  }

  /** Lower-casing twice is lower-casing once. */
  lemma LowerIdempotent(s: string)
    ensures Lower(Lower(s)) == Lower(s)
  {
  }

  /** The regular-expression class \w. */
  predicate IsWord(c: char)
  {
    'a' <= c <= 'z' || 'A' <= c <= 'Z' || '0' <= c <= '9' || c == '_'
  }

  /** The regular-expression class \s: the JavaScript white space and line terminators. */
  predicate IsSpace(c: char)
  {
    var n := c as int;
    n == 0x09 || n == 0x0A || n == 0x0B || n == 0x0C || n == 0x0D || n == 0x20 || n == 0xA0 || n == 0x1680
    || (0x2000 <= n <= 0x200A) || n == 0x2028 || n == 0x2029 || n == 0x202F || n == 0x205F || n == 0x3000 || n == 0xFEFF
  }

  /** The class [\s_-] whose runs become one underscore. */
  predicate IsSeparator(c: char)
  {
    IsSpace(c) || c == '_' || c == '-'
  }

  /** `.replace(/[^\w\s-]/g, '')`: drop every character outside [\w\s-]. */
  function Strip(s: string): (r: string)
    ensures forall x :: x in r ==> (IsWord(x) || IsSpace(x) || x == '-') && x in s
    ensures |r| <= |s|
  {
    if |s| == 0 then []
    else if IsWord(s[0]) || IsSpace(s[0]) || s[0] == '-' then [s[0]] + Strip(s[1..])
    else Strip(s[1..])
  }

  /** The suffix after a leading run of separators. */
  function DropSeparators(s: string): (r: string)
    ensures |r| <= |s| && (|r| > 0 ==> !IsSeparator(r[0]))
    ensures forall i :: 0 <= i < |r| ==> r[i] == s[|s| - |r| + i]
  {
    if |s| > 0 && IsSeparator(s[0]) then
      var t := s[1..];
      var r := DropSeparators(t);
      assert forall i :: 0 <= i < |r| ==> r[i] == s[|s| - |r| + i];
      r
    else s
  }

  /** `.replace(/[\s_-]+/g, '_')`: each maximal run of separators becomes one underscore. */
  function Collapse(s: string): (r: string)
    ensures |r| <= |s|
    decreases |s|
  {
    if |s| == 0 then []
    else if IsSeparator(s[0]) then ['_'] + Collapse(DropSeparators(s[1..]))
    else [s[0]] + Collapse(s[1..])
  }

  /** The output of Collapse: underscores and the non-separators of the input, never two underscores in a row. */
  lemma {:induction false} CollapseShape(s: string)
    ensures var r := Collapse(s);
      && (|s| > 0 ==> |r| > 0 && r[0] == (if IsSeparator(s[0]) then '_' else s[0]))
      && (forall i :: 0 <= i < |r| ==> r[i] == '_' || (r[i] in s && !IsSeparator(r[i])))
      && (forall i :: 0 <= i < |r| - 1 ==> !(r[i] == '_' && r[i + 1] == '_'))
    decreases |s|
  {
    if |s| > 0 {
      var t := if IsSeparator(s[0]) then DropSeparators(s[1..]) else s[1..];
      CollapseShape(t);
      var c := Collapse(t);
      var r := Collapse(s);
      SuffixIn(s, t);
      if IsSeparator(s[0]) {
        assert r == ['_'] + c;
        assert |t| > 0 ==> c[0] == t[0] && !IsSeparator(t[0]);
      } else {
        assert r == [s[0]] + c;
      }
      assert forall i :: 1 <= i < |r| ==> r[i] == c[i - 1];
      assert forall i :: 1 <= i < |r| ==> r[i] == '_' || (r[i] in s && !IsSeparator(r[i]));
      assert forall i :: 1 <= i < |r| - 1 ==> !(r[i] == '_' && r[i + 1] == '_');
    }
  }

  /** A shorter suffix of s, as DropSeparators and s[1..] give, holds only characters of s. */
  lemma SuffixIn(s: string, t: string)
    requires |s| > 0 && |t| <= |s| - 1 && forall i :: 0 <= i < |t| ==> t[i] == s[|s| - |t| + i]
    ensures forall x :: x in t ==> x in s
  {
    forall x | x in t
      ensures x in s
    {
      var i :| 0 <= i < |t| && t[i] == x;
      assert s[|s| - |t| + i] == x;
    }
  }

  /** `.replace(/^-+|-+$/g, '')`: drop the leading and the trailing dashes. */
  function TrimDashes(s: string): (r: string)
    ensures forall x :: x in r ==> x in s
  {
    var a := DropLeadingDashes(s);
    DropTrailingDashes(a)
  }

  function DropLeadingDashes(s: string): (r: string)
    ensures forall x :: x in r ==> x in s
    ensures (forall i :: 0 <= i < |s| ==> s[i] != '-') ==> r == s
  {
    if |s| > 0 && s[0] == '-' then DropLeadingDashes(s[1..]) else s
  }

  function DropTrailingDashes(s: string): (r: string)
    ensures forall x :: x in r ==> x in s
    ensures (forall i :: 0 <= i < |s| ==> s[i] != '-') ==> r == s
  {
    if |s| > 0 && s[|s| - 1] == '-' then DropTrailingDashes(s[..|s| - 1]) else s
  }

  /** A slug: lower-case letters, digits and single underscores. */
  predicate IsSlug(s: string)
  {
    && (forall i :: 0 <= i < |s| ==> 'a' <= s[i] <= 'z' || '0' <= s[i] <= '9' || s[i] == '_')
    && (forall i :: 0 <= i < |s| - 1 ==> !(s[i] == '_' && s[i + 1] == '_'))
  }

  /** slugify: lower-case, strip, collapse separator runs, trim dashes. */
  function Slugify(text: string): (r: string)
    ensures IsSlug(r)
  {
    SlugShape(text);
    TrimDashes(Collapse(Strip(Lower(text))))
  }

  /** The steps of slugify leave lower-case letters, digits and single underscores. */
  lemma SlugShape(text: string)
    ensures IsSlug(TrimDashes(Collapse(Strip(Lower(text)))))
  {
    var l := Lower(text);
    var c := Collapse(Strip(l));
    CollapseShape(Strip(l));
    assert forall i :: 0 <= i < |c| ==> c[i] != '-';
    assert forall i :: 0 <= i < |c| ==> c[i] == '_' || (IsWord(c[i]) && c[i] != '_' && c[i] in l);
    NoDashTrim(c);
  }

  /** Trimming dashes from a string without dashes changes nothing. */
  lemma NoDashTrim(s: string)
    requires forall i :: 0 <= i < |s| ==> s[i] != '-'
    ensures TrimDashes(s) == s
  {
  }

  /** A slug is a fixed point of each step. */
  lemma {:induction false} CollapseSlug(s: string)
    requires IsSlug(s)
    ensures Collapse(s) == s
    decreases |s|
  {
    if |s| > 0 {
      var t := s[1..];
      assert IsSlug(t);
      CollapseSlug(t);
      CollapseSlugHead(s);
      HeadTail(s);
    }
  }

  /** On a slug Collapse keeps the first character and goes on with the rest. */
  lemma CollapseSlugHead(s: string)
    requires IsSlug(s) && |s| > 0
    ensures Collapse(s) == [s[0]] + Collapse(s[1..])
  {
    var t := s[1..];
    if s[0] == '_' {
      if |t| > 0 {
        assert t[0] == s[1] && s[1] != '_';
        SlugCharNotSeparator(t[0]);
      }
      NothingToDrop(t);
    } else {
      SlugCharNotSeparator(s[0]);
    }
  }

  lemma SlugCharNotSeparator(c: char)
    requires 'a' <= c <= 'z' || '0' <= c <= '9'
    ensures !IsSeparator(c)
  {
  }

  lemma NothingToDrop(t: string)
    requires |t| == 0 || !IsSeparator(t[0])
    ensures DropSeparators(t) == t
  {
  }

  lemma HeadTail(s: string)
    requires |s| > 0
    ensures s == [s[0]] + s[1..]
  {
  }

  lemma {:induction false} StripSlug(s: string)
    requires IsSlug(s)
    ensures Strip(s) == s
  {
    if |s| > 0 {
      assert IsSlug(s[1..]);
      StripSlug(s[1..]);
    }
  }

  /** slugify is idempotent: a slug is its own slug. */
  lemma SlugifyIdempotent(text: string)
    ensures Slugify(Slugify(text)) == Slugify(text)
  {
    var s := Slugify(text);
    assert Lower(s) == s;
    StripSlug(s);
    CollapseSlug(s);
    NoDashTrim(s);
  }

  /** Strip keeps a string made only of [\w\s-]. */
  lemma {:induction false} StripKept(s: string)
    requires forall i :: 0 <= i < |s| ==> IsWord(s[i]) || IsSpace(s[i]) || s[i] == '-'
    ensures Strip(s) == s
    decreases |s|
  {
    if |s| > 0 {
      StripKept(s[1..]);
      assert s == [s[0]] + s[1..];
    }
  }

  /** Collapse passes a prefix without separators through unchanged. */
  lemma {:induction false} CollapsePlain(u: string, v: string)
    requires forall i :: 0 <= i < |u| ==> !IsSeparator(u[i])
    ensures Collapse(u + v) == u + Collapse(v)
    decreases |u|
  {
    if |u| > 0 {
      assert (u + v)[0] == u[0] && (u + v)[1..] == u[1..] + v;
      CollapsePlain(u[1..], v);
      assert u + Collapse(v) == [u[0]] + (u[1..] + Collapse(v));
    } else {
      assert u + v == v && u + Collapse(v) == Collapse(v);
    }
  }

  /** A space before a word without separators collapses to an underscore. */
  lemma CollapseSpaceWord(b: string)
    requires forall i :: 0 <= i < |b| ==> !IsSeparator(b[i])
    requires |b| > 0
    ensures Collapse([' '] + b) == ['_'] + b
  {
    var t := [' '] + b;
    assert IsSeparator(t[0]) && t[1..] == b;
    assert !IsSeparator(b[0]);
    assert DropSeparators(b) == b;
    CollapsePlain(b, []);
    assert b + [] == b;
  }

  /** Two words without separators around one space collapse to the words around an underscore. */
  lemma CollapseTwoWords(a: string, b: string)
    requires forall i :: 0 <= i < |a| ==> !IsSeparator(a[i])
    requires forall i :: 0 <= i < |b| ==> !IsSeparator(b[i])
    requires |b| > 0
    ensures Collapse(a + [' '] + b) == a + ['_'] + b
  {
    CollapseSpaceWord(b);
    CollapsePlain(a, [' '] + b);
    assert a + [' '] + b == a + ([' '] + b);
    assert a + ['_'] + b == a + (['_'] + b);
  }

  /** An ASCII letter. */
  predicate IsLetter(c: char)
  {
    'a' <= c <= 'z' || 'A' <= c <= 'Z'
  }

  /** Lower-casing letters gives lower-case letters. */
  lemma LowerLetters(a: string)
    requires forall i :: 0 <= i < |a| ==> IsLetter(a[i])
    ensures forall i :: 0 <= i < |Lower(a)| ==> 'a' <= Lower(a)[i] <= 'z'
  {
  }

  /** The first two steps of slugify on two words of letters: lower-cased, nothing stripped. */
  lemma StripLowerWords(a: string, b: string)
    requires forall i :: 0 <= i < |a| ==> IsLetter(a[i])
    requires forall i :: 0 <= i < |b| ==> IsLetter(b[i])
    ensures Strip(Lower(a + [' '] + b)) == Lower(a) + [' '] + Lower(b)
  {
    var t := a + [' '] + b;
    var u := Lower(a) + [' '] + Lower(b);
    LowerLetters(a);
    LowerLetters(b);
    assert Lower(t) == u by {
      assert forall i :: 0 <= i < |t| ==> Lower(t)[i] == u[i];
    }
    forall i | 0 <= i < |u|
      ensures IsWord(u[i]) || IsSpace(u[i]) || u[i] == '-'
    {
      if i < |Lower(a)| {
        assert u[i] == Lower(a)[i];
      } else if i > |Lower(a)| {
        assert u[i] == Lower(b)[i - |Lower(a)| - 1];
      }
    }
    StripKept(u);
  }

  /** The collapse and trim steps on two lower-cased words of letters. */
  lemma CollapseLowerWords(a: string, b: string)
    requires forall i :: 0 <= i < |a| ==> IsLetter(a[i])
    requires forall i :: 0 <= i < |b| ==> IsLetter(b[i])
    requires |b| > 0
    ensures Collapse(Lower(a) + [' '] + Lower(b)) == Lower(a) + ['_'] + Lower(b)
    ensures TrimDashes(Lower(a) + ['_'] + Lower(b)) == Lower(a) + ['_'] + Lower(b)
  {
    var la, lb := Lower(a), Lower(b);
    LowerLetters(a);
    LowerLetters(b);
    assert forall i :: 0 <= i < |la| ==> !IsSeparator(la[i]);
    assert forall i :: 0 <= i < |lb| ==> !IsSeparator(lb[i]);
    CollapseTwoWords(la, lb);
    NoDashTrim(la + ['_'] + lb);
  }

  /** Slugify from the results of its steps. */
  lemma SlugOfSteps(text: string, u: string, c: string)
    requires Strip(Lower(text)) == u && Collapse(u) == c && TrimDashes(c) == c
    ensures Slugify(text) == c
  {
  }

  /** A title of two words of letters: its slug is the lower-cased words around an underscore. */
  lemma SlugifyTwoWords(a: string, b: string)
    requires forall i :: 0 <= i < |a| ==> IsLetter(a[i])
    requires forall i :: 0 <= i < |b| ==> IsLetter(b[i])
    requires |b| > 0
    ensures Slugify(a + [' '] + b) == Lower(a) + ['_'] + Lower(b)
  {
    var u, c := Lower(a) + [' '] + Lower(b), Lower(a) + ['_'] + Lower(b);
    StripLowerWords(a, b);
    CollapseLowerWords(a, b);
    SlugOfSteps(a + [' '] + b, u, c);
  }

  /** Upper and lower case give the same slug. */
  lemma SlugifyIgnoresCase(text: string)
    ensures Slugify(Lower(text)) == Slugify(text)
  {
    LowerIdempotent(text);
  }

  /** getFileExtension: the extension of a known language, compared case-insensitively, else 'txt'. */
  function FileExtension(language: string): (r: string)
    ensures r in {"js", "ts", "py", "java", "cpp", "c", "cs", "rb", "php", "go", "rs", "swift", "kt", "dart", "txt"}
    ensures r == "txt" <==> Lower(language) !in KnownLanguages
  {
    Extension(Lower(language))
  }

  /** The language map of getFileExtension, on a lower-cased name. */
  function Extension(key: string): (r: string)
    ensures r in {"js", "ts", "py", "java", "cpp", "c", "cs", "rb", "php", "go", "rs", "swift", "kt", "dart", "txt"}
    ensures r == "txt" <==> key !in KnownLanguages
  {
    match key
    case "javascript" => "js"
    case "typescript" => "ts"
    case "python" => "py"
    case "java" => "java"
    case "c++" => "cpp"
    case "cpp" => "cpp"
    case "c" => "c"
    case "c#" => "cs"
    case "csharp" => "cs"
    case "ruby" => "rb"
    case "php" => "php"
    case "go" => "go"
    case "rust" => "rs"
    case "swift" => "swift"
    case "kotlin" => "kt"
    case "dart" => "dart"
    case _ => "txt"
  }

  const KnownLanguages: set<string> :=
    {"javascript", "typescript", "python", "java", "c++", "cpp", "c", "c#", "csharp", "ruby", "php", "go", "rust", "swift", "kotlin", "dart"}

  /** The extension does not depend on case, and aliases agree. */
  lemma FileExtensionIgnoresCase(language: string)
    ensures FileExtension(Lower(language)) == FileExtension(language)
  {
    LowerIdempotent(language);
  }

  /** The aliases of C++ and C# give the same extension. */
  lemma AliasesAgree()
    ensures FileExtension("C++") == FileExtension("cpp") == "cpp"
    ensures FileExtension("C#") == FileExtension("csharp") == "cs"
  {
    LowerLiteral("C++", "c++");
    LowerLiteral("C#", "c#");
    LowerLiteral("cpp", "cpp");
    LowerLiteral("csharp", "csharp");
  }

  /** Lower-casing a literal, character by character. */
  lemma LowerLiteral(s: string, t: string)
    requires |s| == |t| && forall i :: 0 <= i < |s| ==> LowerChar(s[i]) == t[i]
    ensures Lower(s) == t
  {
  }

  datatype AlgorithmFile = AlgorithmFile(name: string, content: string, language: string, isTemplate: bool, isSolution: bool, isTest: bool)

  /** The role one file plays: exactly one of template, solution and test. */
  predicate OneRole(f: AlgorithmFile)
  {
    (if f.isTemplate then 1 else 0) + (if f.isSolution then 1 else 0) + (if f.isTest then 1 else 0) == 1
  }

  /**
   * createFallbackFiles: a template, a solution and a placeholder test, each
   * named after the title's slug with its own suffix and the language's
   * extension.
   */
  function FallbackFiles(title: string, templateStructure: string, solutionStructure: string, language: string): (r: seq<AlgorithmFile>)
    ensures |r| == 3 && forall i :: 0 <= i < 3 ==> OneRole(r[i]) && r[i].language == Lower(language)
    ensures r[0].isTemplate && r[1].isSolution && r[2].isTest
    ensures r[0].name == Slugify(title) + "_template." + FileExtension(language) && r[0].content == templateStructure
    ensures r[1].name == Slugify(title) + "_solution." + FileExtension(language) && r[1].content == solutionStructure
    ensures r[2].name == Slugify(title) + "_test." + FileExtension(language) && r[2].content == "// Basic test for " + title
  {
    var ext := FileExtension(language);
    var slug := Slugify(title);
    var lang := Lower(language);
    [AlgorithmFile(slug + "_template." + ext, templateStructure, lang, true, false, false),
     AlgorithmFile(slug + "_solution." + ext, solutionStructure, lang, false, true, false),
     AlgorithmFile(slug + "_test." + ext, "// Basic test for " + title, lang, false, false, true)]
  }

  /** The character at an offset into the middle part of a concatenation. */
  lemma CharAt(a: string, b: string, c: string, k: nat)
    requires k < |b|
    ensures (a + b + c)[|a| + k] == b[k]
  {
  }

  /** The three fallback names differ, so no file overwrites another. */
  lemma FallbackNamesDistinct(title: string, t: string, s: string, language: string)
    ensures var fs := FallbackFiles(title, t, s, language);
      fs[0].name != fs[1].name && fs[1].name != fs[2].name && fs[0].name != fs[2].name
  {
    var slug, ext := Slugify(title), FileExtension(language);
    CharAt(slug, "_template.", ext, 1);
    CharAt(slug, "_solution.", ext, 1);
    CharAt(slug, "_test.", ext, 1);
    CharAt(slug, "_template.", ext, 3);
    CharAt(slug, "_test.", ext, 3);
  }
}
