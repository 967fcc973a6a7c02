/**
 * The seed loader of the algorithm catalogue: each algorithm directory holds
 * an index.json, a languages directory of code files and a lessons
 * directory of markdown files. The file system is given as values.
 */
module AlgorithmLoader {
  import opened Wrappers
  import opened Json
  import AlgorithmGeneration

  datatype FileType = Exercise | Solution | Test

  datatype CodeLanguage = TypeScript | JavaScript | Python | Go | Java | Cpp

  /** `s.includes(sub)`. */
  predicate Contains(s: string, sub: string)
  {
    exists i :: 0 <= i <= |s| && OccursAt(s, sub, i)
  }

  /** sub occurs in s at index i. */
  predicate OccursAt(s: string, sub: string, i: nat)
  {
    i + |sub| <= |s| && s[i..i + |sub|] == sub
  }

  /** The type of a code file by its name: 'exercise' first, then 'solution', then 'test', else an exercise. */
  function Classify(fileName: string): (r: FileType)
    ensures r == Solution <==> !Contains(fileName, "exercise") && Contains(fileName, "solution")
    ensures r == Test <==> !Contains(fileName, "exercise") && !Contains(fileName, "solution") && Contains(fileName, "test")
    ensures Contains(fileName, "exercise") ==> r == Exercise
  {
    if Contains(fileName, "exercise") then Exercise
    else if Contains(fileName, "solution") then Solution
    else if Contains(fileName, "test") then Test
    else Exercise
  }

  /** A name that mentions both a solution and a test is a solution; one that mentions neither is an exercise. */
  lemma ClassifyOrder()
    ensures Classify("solution_test") == Solution
    ensures Classify("main") == Exercise
  {
    var name := "solution_test";
    assert OccursAt(name, "solution", 0);
    forall i | 0 <= i <= |name|
      ensures !OccursAt(name, "exercise", i)
    {
      if i + 8 <= |name| {
        assert name[i..i + 8][0] == name[i] != 'e';
      }
    }
    forall i | 0 <= i <= 4
      ensures !OccursAt("main", "test", i)
    {
      if i == 0 {
        assert "main"[0..4][0] == 'm';
      }
    }
  }

  /** The folder name of a language, compared case-insensitively; None for an unsupported folder. */
  function LanguageOf(dir: string): (r: Option<CodeLanguage>)
    ensures r.None? <==> AlgorithmGeneration.Lower(dir) !in {"typescript", "javascript", "python", "go", "java", "cpp"}
  {
    match AlgorithmGeneration.Lower(dir)
    case "typescript" => Some(TypeScript)
    case "javascript" => Some(JavaScript)
    case "python" => Some(Python)
    case "go" => Some(Go)
    case "java" => Some(Java)
    case "cpp" => Some(Cpp)
    case _ => None
  }

  /** Folder names that differ only in case give the same language. */
  lemma LanguageIgnoresCase(dir: string)
    ensures LanguageOf(AlgorithmGeneration.Lower(dir)) == LanguageOf(dir)
  {
    AlgorithmGeneration.LowerIdempotent(dir);
  }

  /** The index of the last dot, if any. */
  function LastDot(s: string): (r: Option<nat>)
    ensures r.Some? ==> r.value < |s| && s[r.value] == '.' && forall i :: r.value < i < |s| ==> s[i] != '.'
    ensures r.None? ==> forall i :: 0 <= i < |s| ==> s[i] != '.'
  {
    if |s| == 0 then None
    else if s[|s| - 1] == '.' then Some(|s| - 1)
    else LastDot(s[..|s| - 1])
  }

  /** `path.parse(file)`: the name and the extension without its dot; a leading dot and '..' start no extension. */
  function ParseFile(file: string): (r: (string, string))
    ensures r.1 == "" || r.0 + "." + r.1 == file
    ensures forall i :: 0 <= i < |r.1| ==> r.1[i] != '.'
  {
    var k := LastDot(file);
    if file == ".." || k.None? || k.value == 0 then (file, "")
    else
      assert file == file[..k.value] + "." + file[k.value + 1..];
      (file[..k.value], file[k.value + 1..])
  }

  /** An entry of a language folder. */
  datatype Entry = Entry(file: string, isFile: bool, content: string)

  /** A folder under languages/. */
  datatype LanguageDir = LanguageDir(dir: string, isDirectory: bool, entries: seq<Entry>)

  datatype AlgorithmFile = AlgorithmFile(name: string, fileType: FileType, content: string, language: CodeLanguage,
                                         extension: string, readOnly: bool, hidden: bool)

  /** The file loaded from one entry: solutions are read-only and hidden. */
  function FileOf(e: Entry, language: CodeLanguage): (f: AlgorithmFile)
    ensures f.readOnly == f.hidden == (f.fileType == Solution)
    ensures f.fileType == Classify(ParseFile(e.file).0) && f.name == ParseFile(e.file).0
  {
    var parsed := ParseFile(e.file);
    var t := Classify(parsed.0);
    AlgorithmFile(parsed.0, t, e.content, language, parsed.1, t == Solution, t == Solution)
  }

  /** The files loaded from the entries of one language folder. */
  function EntryFiles(es: seq<Entry>, language: CodeLanguage): (r: seq<AlgorithmFile>)
    ensures |r| <= |es|
    ensures forall f :: f in r <==> exists e :: e in es && e.isFile && f == FileOf(e, language)
  {
    if |es| == 0 then []
    else
      var init, e := es[..|es| - 1], es[|es| - 1];
      assert es == init + [e];
      assert forall x :: x in es <==> x in init || x == e;
      EntryFiles(init, language) + (if e.isFile then [FileOf(e, language)] else [])
  }

  /** The files loaded from the language folders: directories of a supported language only. */
  function DirFiles(ds: seq<LanguageDir>): (r: seq<AlgorithmFile>)
    ensures forall f :: f in r <==> exists d :: d in ds && Supported(d) && f in EntryFiles(d.entries, LanguageOf(d.dir).value)
  {
    if |ds| == 0 then []
    else
      var init, d := ds[..|ds| - 1], ds[|ds| - 1];
      var l := LanguageOf(d.dir);
      assert ds == init + [d];
      assert forall x :: x in ds <==> x in init || x == d;
      DirFiles(init) + (if d.isDirectory && l.Some? then EntryFiles(d.entries, l.value) else [])
  }

  /** A folder whose files are loaded: a directory named after a supported language. */
  predicate Supported(d: LanguageDir)
  {
    d.isDirectory && LanguageOf(d.dir).Some?
  }

  /**
   * loadAlgorithmFiles: the forEach over language folders and, within a
   * supported one, over its regular files, pushing one file each. A missing
   * languages directory gives no files.
   */
  method LoadAlgorithmFiles(languages: Option<seq<LanguageDir>>) returns (files: seq<AlgorithmFile>)
    ensures languages.None? ==> files == []
    ensures languages.Some? ==> files == DirFiles(languages.value)
  {
    files := [];
    if languages.None? {
      return;
    }
    var ds := languages.value;
    var i := 0;
    while i < |ds|
      invariant 0 <= i <= |ds| && files == DirFiles(ds[..i])
    {
      assert ds[..i + 1][..i] == ds[..i];
      var d := ds[i];
      var language := LanguageOf(d.dir);
      if d.isDirectory && language.Some? {
        var fs := LoadLanguage(d.entries, language.value);
        files := files + fs;
      }
      i := i + 1;
    }
    assert ds[..|ds|] == ds;
  }

  /** The inner forEach of loadAlgorithmFiles: one file per regular entry of a language folder, in order. */
  method LoadLanguage(entries: seq<Entry>, language: CodeLanguage) returns (files: seq<AlgorithmFile>)
    ensures files == EntryFiles(entries, language)
  {
    files := [];
    var j := 0;
    while j < |entries|
      invariant 0 <= j <= |entries| && files == EntryFiles(entries[..j], language)
    {
      assert entries[..j + 1][..j] == entries[..j];
      var e := entries[j];
      if e.isFile {
        files := files + [FileOf(e, language)];
      }
      j := j + 1;
    }
    assert entries[..|entries|] == entries;
  }

  /** Every loaded file is a regular file of a supported language folder, read-only and hidden exactly when a solution. */
  lemma {:induction false} LoadedFilesShape(ds: seq<LanguageDir>)
    ensures forall f :: f in DirFiles(ds) ==> f.readOnly == f.hidden == (f.fileType == Solution)
    ensures forall f :: f in DirFiles(ds) ==> exists i :: 0 <= i < |ds| && ds[i].isDirectory && LanguageOf(ds[i].dir) == Some(f.language)
  {
    if |ds| > 0 {
      var init := ds[..|ds| - 1];
      LoadedFilesShape(init);
      var d := ds[|ds| - 1];
      var l := LanguageOf(d.dir);
      if d.isDirectory && l.Some? {
        EntryFilesLanguage(d.entries, l.value);
      }
      forall f | f in DirFiles(ds)
        ensures exists i :: 0 <= i < |ds| && ds[i].isDirectory && LanguageOf(ds[i].dir) == Some(f.language)
      {
        if f in DirFiles(init) {
          var i :| 0 <= i < |init| && init[i].isDirectory && LanguageOf(init[i].dir) == Some(f.language);
          assert ds[i] == init[i];
        } else {
          assert ds[|ds| - 1].isDirectory && LanguageOf(ds[|ds| - 1].dir) == Some(f.language);
        }
      }
    }
  }

  lemma {:induction false} EntryFilesLanguage(es: seq<Entry>, language: CodeLanguage)
    ensures forall f :: f in EntryFiles(es, language) ==> f.language == language && f.readOnly == f.hidden == (f.fileType == Solution)
  {
    if |es| > 0 {
      EntryFilesLanguage(es[..|es| - 1], language);
    }
  }

  // ---------------------------------------------------------------------
  // Lessons
  // ---------------------------------------------------------------------

  /** The longest prefix of decimal digits. */
  function LeadingDigits(s: string): (r: string)
    ensures |r| <= |s| && r == s[..|r|] && forall i :: 0 <= i < |r| ==> '0' <= r[i] <= '9'
    ensures |r| < |s| ==> !('0' <= s[|r|] <= '9')
  {
    if |s| > 0 && '0' <= s[0] <= '9' then [s[0]] + LeadingDigits(s[1..]) else []
  }

  /** The file name starts with `\d+_`. */
  predicate HasNumber(name: string)
  {
    var d := LeadingDigits(name);
    |d| > 0 && |d| < |name| && name[|d|] == '_'
  }

  /** The number the lessons are sorted by: the `N_` prefix read in base 10, 0 when there is none. */
  function LessonNumber(name: string): (r: nat)
    ensures !HasNumber(name) ==> r == 0
  {
    if HasNumber(name) then DigitValue(LeadingDigits(name)) else 0
  }

  /** The value of a string of digits. */
  function DigitValue(s: string): nat
    requires forall i :: 0 <= i < |s| ==> '0' <= s[i] <= '9'
  {
    if |s| == 0 then 0 else 10 * DigitValue(s[..|s| - 1]) + (s[|s| - 1] as int - '0' as int)
  }

  /** The prefix is read as its number: a digit prefix that is a number's decimal form gives that number. */
  lemma LessonNumberReadsPrefix(n: nat, rest: string)
    ensures LessonNumber(Digits(n) + "_" + rest) == n
  {
    var name := Digits(n) + "_" + rest;
    DigitsAreLeading(Digits(n), "_" + rest);
    assert name == Digits(n) + ("_" + rest);
    DigitValueOfDigits(n);
  }

  lemma {:induction false} DigitsAreLeading(d: string, rest: string)
    requires forall i :: 0 <= i < |d| ==> '0' <= d[i] <= '9'
    requires |rest| > 0 && rest[0] == '_'
    ensures LeadingDigits(d + rest) == d
  {
    if |d| > 0 {
      assert (d + rest)[1..] == d[1..] + rest;
      DigitsAreLeading(d[1..], rest);
    }
  }

  lemma {:induction false} DigitValueOfDigits(n: nat)
    ensures DigitValue(Digits(n)) == n
  {
    if n >= 10 {
      DigitValueOfDigits(n / 10);
      var d := Digits(n);
      assert d[..|d| - 1] == Digits(n / 10);
    }
  }

  /** A lesson file of the lessons directory, with the title of its front matter if it has one. */
  datatype LessonFile = LessonFile(file: string, isFile: bool, frontTitle: Option<string>, content: string)

  /** The sort key of a lesson file: its prefix number. */
  function Number(l: LessonFile): nat
  {
    LessonNumber(l.file)
  }

  predicate SortedBy(key: LessonFile -> nat, ls: seq<LessonFile>)
  {
    forall i, j :: 0 <= i < j < |ls| ==> key(ls[i]) <= key(ls[j])
  }

  predicate SortedByNumber(ls: seq<LessonFile>)
  {
    SortedBy(Number, ls)
  }

  /** Insert after every lesson whose key is not larger. */
  function InsertBy(key: LessonFile -> nat, l: LessonFile, ls: seq<LessonFile>): (r: seq<LessonFile>)
    ensures |r| == |ls| + 1 && (r[0] == l || (|ls| > 0 && r[0] == ls[0]))
  {
    if |ls| == 0 then [l]
    else if key(l) < key(ls[0]) then [l] + ls
    else [ls[0]] + InsertBy(key, l, ls[1..])
  }

  /** Inserting into sorted lessons keeps them sorted and adds just the one lesson. */
  lemma InsertByKeeps(key: LessonFile -> nat, l: LessonFile, ls: seq<LessonFile>)
    requires SortedBy(key, ls)
    ensures SortedBy(key, InsertBy(key, l, ls)) && multiset(InsertBy(key, l, ls)) == multiset(ls) + multiset{l}
  {
    InsertBySorted(key, l, ls);
    InsertByMultiset(key, l, ls);
  }

  lemma {:induction false} InsertBySorted(key: LessonFile -> nat, l: LessonFile, ls: seq<LessonFile>)
    requires SortedBy(key, ls)
    ensures SortedBy(key, InsertBy(key, l, ls))
  {
    if |ls| > 0 && key(l) >= key(ls[0]) {
      var t := InsertBy(key, l, ls[1..]);
      InsertBySorted(key, l, ls[1..]);
      assert key(ls[0]) <= key(t[0]);
      var r := [ls[0]] + t;
      forall i, j | 0 <= i < j < |r|
        ensures key(r[i]) <= key(r[j])
      {
        if i > 0 {
          assert r[i] == t[i - 1] && r[j] == t[j - 1];
        } else {
          assert r[j] == t[j - 1];
        }
      }
    }
  }

  lemma {:induction false} InsertByMultiset(key: LessonFile -> nat, l: LessonFile, ls: seq<LessonFile>)
    ensures multiset(InsertBy(key, l, ls)) == multiset(ls) + multiset{l}
  {
    if |ls| > 0 && key(l) >= key(ls[0]) {
      InsertByMultiset(key, l, ls[1..]);
      assert ls == [ls[0]] + ls[1..];
    }
  }

  /** Insertion by prefix number. */
  function InsertLesson(l: LessonFile, ls: seq<LessonFile>): seq<LessonFile>
  {
    InsertBy(Number, l, ls)
  }

  lemma InsertLessonKeeps(l: LessonFile, ls: seq<LessonFile>)
    requires SortedByNumber(ls)
    ensures SortedByNumber(InsertLesson(l, ls)) && multiset(InsertLesson(l, ls)) == multiset(ls) + multiset{l}
  {
    InsertByKeeps(Number, l, ls);
  }

  /** The sort of loadLessons: ascending by prefix number, the same files. */
  function SortLessons(ls: seq<LessonFile>): (r: seq<LessonFile>)
    ensures SortedByNumber(r) && multiset(r) == multiset(ls)
  {
    if |ls| == 0 then []
    else
      assert ls == ls[..|ls| - 1] + [ls[|ls| - 1]];
      InsertLessonKeeps(ls[|ls| - 1], SortLessons(ls[..|ls| - 1]));
      InsertLesson(ls[|ls| - 1], SortLessons(ls[..|ls| - 1]))
  }

  /** The lessons with prefix number k, in their order. */
  function WithNumber(ls: seq<LessonFile>, k: nat): seq<LessonFile>
  {
    if |ls| == 0 then []
    else (if Number(ls[0]) == k then [ls[0]] else []) + WithNumber(ls[1..], k)
  }

  lemma {:induction false} WithNumberAppend(a: seq<LessonFile>, b: seq<LessonFile>, k: nat)
    ensures WithNumber(a + b, k) == WithNumber(a, k) + WithNumber(b, k)
  {
    if |a| > 0 {
      assert (a + b)[0] == a[0] && (a + b)[1..] == a[1..] + b;
      WithNumberAppend(a[1..], b, k);
    } else {
      assert a + b == b;
    }
  }

  lemma {:induction false} WithNumberNone(ls: seq<LessonFile>, k: nat)
    requires forall i :: 0 <= i < |ls| ==> Number(ls[i]) > k
    ensures WithNumber(ls, k) == []
  {
    if |ls| > 0 {
      WithNumberNone(ls[1..], k);
    }
  }

  /** Inserting into sorted lessons puts the new lesson after every lesson with its number. */
  lemma {:induction false} InsertLessonStable(l: LessonFile, ls: seq<LessonFile>, k: nat)
    requires SortedByNumber(ls)
    ensures WithNumber(InsertLesson(l, ls), k) == WithNumber(ls, k) + (if Number(l) == k then [l] else [])
  {
    if |ls| > 0 {
      if Number(l) < Number(ls[0]) {
        assert ([l] + ls)[1..] == ls;
        if Number(l) == k {
          WithNumberNone(ls, k);
        }
      } else {
        var t := InsertLesson(l, ls[1..]);
        assert ([ls[0]] + t)[1..] == t;
        InsertLessonStable(l, ls[1..], k);
      }
    }
  }

  /** The sort is stable: lessons with the same prefix number keep their order. */
  lemma {:induction false} SortLessonsStable(ls: seq<LessonFile>, k: nat)
    ensures WithNumber(SortLessons(ls), k) == WithNumber(ls, k)
  {
    if |ls| > 0 {
      var p, x := ls[..|ls| - 1], ls[|ls| - 1];
      assert ls == p + [x];
      assert SortLessons(ls) == InsertLesson(x, SortLessons(p));
      SortLessonsStable(p, k);
      InsertLessonStable(x, SortLessons(p), k);
      WithNumberAppend(p, [x], k);
      assert [x][1..] == [];
    }
  }

  /** A lesson without a prefix sorts with the lessons numbered 0, before every lesson numbered 1 or more. */
  lemma UnnumberedFirst(ls: seq<LessonFile>, i: nat, j: nat)
    requires i < |SortLessons(ls)| && j < |SortLessons(ls)|
    requires !HasNumber(SortLessons(ls)[j].file) && LessonNumber(SortLessons(ls)[i].file) > 0
    ensures j < i
  {
  }

  // title derivation

  /** `.replace(/^\d+_/, '')`. */
  function DropNumber(name: string): (r: string)
    ensures HasNumber(name) ==> |r| < |name| && name == name[..|name| - |r|] + r
    ensures !HasNumber(name) ==> r == name
  {
    if HasNumber(name) then name[|LeadingDigits(name)| + 1..] else name
  }

  /** `.replace(/\.md$/, '')`. */
  function DropMd(s: string): (r: string)
    ensures |s| >= 3 && s[|s| - 3..] == ".md" ==> r + ".md" == s
    ensures !(|s| >= 3 && s[|s| - 3..] == ".md") ==> r == s
  {
    if |s| >= 3 && s[|s| - 3..] == ".md" then s[..|s| - 3] else s
  }

  /** `.replace(/_/g, ' ')`. */
  function Spaces(s: string): (r: string)
    ensures |r| == |s| && forall i :: 0 <= i < |s| ==> r[i] == (if s[i] == '_' then ' ' else s[i])
  {
    if |s| == 0 then [] else [if s[0] == '_' then ' ' else s[0]] + Spaces(s[1..])
  }

  /** ASCII upper-casing of one character. */
  function UpperChar(c: char): char
  {
    if 'a' <= c <= 'z' then (c as int - 'a' as int + 'A' as int) as char else c
  }

  /** The index of the first space, if any. */
  function FirstSpace(s: string): (r: Option<nat>)
    ensures r.Some? ==> r.value < |s| && s[r.value] == ' ' && forall i :: 0 <= i < r.value ==> s[i] != ' '
    ensures r.None? ==> forall i :: 0 <= i < |s| ==> s[i] != ' '
  {
    if |s| == 0 then None
    else if s[0] == ' ' then Some(0)
    else var k := FirstSpace(s[1..]); if k.Some? then Some(k.value + 1) else None
  }

  /** `.split(' ')`. */
  function Split(s: string): (r: seq<string>)
    ensures |r| >= 1
    decreases |s|
  {
    var k := FirstSpace(s);
    if k.None? then [s] else [s[..k.value]] + Split(s[k.value + 1..])
  }

  /** `word.charAt(0).toUpperCase() + word.slice(1)`. */
  function Capitalize(w: string): string
  {
    if |w| == 0 then w else [UpperChar(w[0])] + w[1..]
  }

  /** `.map(capitalize).join(' ')`. */
  function JoinCapitalized(ws: seq<string>): string
  {
    if |ws| == 0 then ""
    else if |ws| == 1 then Capitalize(ws[0])
    else Capitalize(ws[0]) + " " + JoinCapitalized(ws[1..])
  }

  /**
   * The title derived from a lesson file name: the name without its number
   * prefix and '.md', underscores turned into spaces, each word capitalised.
   */
  function DerivedTitle(file: string): (r: string)
    ensures r == TitleCase(Spaces(DropMd(DropNumber(file))), true)
    ensures forall i :: 0 <= i < |r| ==> r[i] != '_'
  {
    var t := Spaces(DropMd(DropNumber(file)));
    SplitJoinIsTitleCase(t);
    TitleCaseNoUnderscore(t, true);
    JoinCapitalized(Split(t))
  }

  /** The title of a lesson: the front matter's when it is a non-empty string, else derived from the file name. */
  function LessonTitle(l: LessonFile): (r: string)
    ensures l.frontTitle.Some? && l.frontTitle.value != "" ==> r == l.frontTitle.value
    ensures l.frontTitle.None? || l.frontTitle.value == "" ==>
      r == TitleCase(Spaces(DropMd(DropNumber(l.file))), true) && forall i :: 0 <= i < |r| ==> r[i] != '_'
  {
    if l.frontTitle.Some? && l.frontTitle.value != "" then l.frontTitle.value else DerivedTitle(l.file)
  }

  /** Capitalize the first character and each character after a space. */
  function TitleCase(s: string, atStart: bool): (r: string)
    ensures |r| == |s|
  {
    if |s| == 0 then ""
    else [if atStart then UpperChar(s[0]) else s[0]] + TitleCase(s[1..], s[0] == ' ')
  }

  /** Within a word the title case keeps every character but the first. */
  lemma TitleCaseWord(w: string, t: string)
    requires forall i :: 0 <= i < |w| ==> w[i] != ' '
    ensures |w| > 0 ==> TitleCase(w + t, false) == w + TitleCase(t, false)
    ensures TitleCase(w + t, true) == Capitalize(w) + TitleCase(t, |w| == 0)
  {
    TitleCaseInWord(w, t);
    if |w| > 0 {
      assert (w + t)[1..] == w[1..] + t;
      TitleCaseInWord(w[1..], t);
      assert TitleCase(w + t, true) == [UpperChar(w[0])] + TitleCase(w[1..] + t, false);
      assert [UpperChar(w[0])] + (w[1..] + TitleCase(t, false)) == Capitalize(w) + TitleCase(t, false);
    } else {
      assert w + t == t;
    }
  }

  /** Past the start of a word the title case copies the word's characters. */
  lemma {:induction false} TitleCaseInWord(w: string, t: string)
    requires forall i :: 0 <= i < |w| ==> w[i] != ' '
    ensures TitleCase(w + t, false) == w + TitleCase(t, false)
  {
    if |w| > 0 {
      TitleCaseInWord(w[1..], t);
      assert (w + t)[1..] == w[1..] + t && (w + t)[0] == w[0];
      assert TitleCase(w + t, false) == [w[0]] + TitleCase(w[1..] + t, false);
      assert w == [w[0]] + w[1..];
    } else {
      assert w + t == t;
    }
  }

  /** Splitting on spaces, capitalizing and joining is title case: each word starts with a capital. */
  lemma {:induction false} SplitJoinIsTitleCase(s: string)
    ensures JoinCapitalized(Split(s)) == TitleCase(s, true)
    decreases |s|
  {
    var k := FirstSpace(s);
    if k.None? {
      OneWord(s);
    } else {
      var w, rest := s[..k.value], s[k.value + 1..];
      assert s == w + (" " + rest);
      SplitAtSpace(s, k.value);
      SplitJoinIsTitleCase(rest);
      SplitJoinStep(w, rest);
    }
  }

  /** A word, a space and a title-cased rest: capitalizing and joining the words is title case. */
  lemma SplitJoinStep(w: string, rest: string)
    requires forall i :: 0 <= i < |w| ==> w[i] != ' '
    requires JoinCapitalized(Split(rest)) == TitleCase(rest, true)
    ensures JoinCapitalized([w] + Split(rest)) == TitleCase(w + (" " + rest), true)
  {
    JoinCons(w, Split(rest));
    TitleCaseAtSpace(w, rest);
    Associative(Capitalize(w), " ", TitleCase(rest, true));
  }

  lemma Associative(a: string, b: string, c: string)
    ensures a + b + c == a + (b + c)
  {
  }

  lemma OneWord(s: string)
    requires FirstSpace(s).None?
    ensures JoinCapitalized(Split(s)) == TitleCase(s, true)
  {
    TitleCaseWord(s, "");
    assert s + "" == s;
  }

  lemma SplitAtSpace(s: string, k: nat)
    requires FirstSpace(s) == Some(k)
    ensures Split(s) == [s[..k]] + Split(s[k + 1..])
  {
  }

  lemma TitleCaseAtSpace(w: string, rest: string)
    requires forall i :: 0 <= i < |w| ==> w[i] != ' '
    ensures TitleCase(w + (" " + rest), true) == Capitalize(w) + (" " + TitleCase(rest, true))
  {
    TitleCaseWord(w, " " + rest);
    TitleCaseAfterSpace(rest, |w| == 0);
  }

  lemma JoinCons(w: string, ws: seq<string>)
    requires |ws| >= 1
    ensures JoinCapitalized([w] + ws) == Capitalize(w) + " " + JoinCapitalized(ws)
  {
    assert ([w] + ws)[0] == w && ([w] + ws)[1..] == ws;
  }

  lemma TitleCaseAfterSpace(rest: string, atStart: bool)
    ensures TitleCase(" " + rest, atStart) == " " + TitleCase(rest, true)
  {
    assert (" " + rest)[1..] == rest && (" " + rest)[0] == ' ';
  }

  lemma {:induction false} TitleCaseNoUnderscore(s: string, atStart: bool)
    requires forall i :: 0 <= i < |s| ==> s[i] != '_'
    ensures forall i :: 0 <= i < |s| ==> TitleCase(s, atStart)[i] != '_'
  {
    if |s| > 0 {
      TitleCaseNoUnderscore(s[1..], s[0] == ' ');
      assert forall i :: 1 <= i < |s| ==> TitleCase(s, atStart)[i] == TitleCase(s[1..], s[0] == ' ')[i - 1];
    }
  }

  datatype Lesson = Lesson(title: string, content: string)

  /** The entries of a lessons directory that are regular files, in their order; directories are skipped. */
  function RegularFiles(ls: seq<LessonFile>): (r: seq<LessonFile>)
    ensures forall f :: f in r <==> f in ls && f.isFile
    ensures |r| <= |ls|
    ensures (forall i :: 0 <= i < |ls| ==> ls[i].isFile) ==> r == ls
  {
    if |ls| == 0 then [] else (if ls[0].isFile then [ls[0]] else []) + RegularFiles(ls[1..])
  }

  /** The lessons in sorted order: one per regular file, titled by LessonTitle, with the file's content. */
  function LessonsOf(sorted: seq<LessonFile>): (r: seq<Lesson>)
    ensures var fs := RegularFiles(sorted);
      |r| == |fs| && forall i :: 0 <= i < |r| ==> r[i] == Lesson(LessonTitle(fs[i]), fs[i].content)
  {
    if |sorted| == 0 then []
    else
      var rest := LessonsOf(sorted[1..]);
      (if sorted[0].isFile then [Lesson(LessonTitle(sorted[0]), sorted[0].content)] else []) + rest
  }

  /**
   * loadLessons: the lesson files sorted by number, then one lesson per
   * regular file in that order; no directory, no lessons.
   */
  function LoadLessons(lessons: Option<seq<LessonFile>>): (r: seq<Lesson>)
    ensures lessons.None? ==> r == []
    ensures lessons.Some? ==> var fs := RegularFiles(SortLessons(lessons.value));
      |r| == |fs| <= |lessons.value| && forall i :: 0 <= i < |r| ==> r[i] == Lesson(LessonTitle(fs[i]), fs[i].content)
  {
    if lessons.None? then []
    else
      var sorted := SortLessons(lessons.value);
      assert |sorted| == |multiset(sorted)| == |multiset(lessons.value)| == |lessons.value|;
      LessonsOf(sorted)
  }

  // ---------------------------------------------------------------------
  // Templates
  // ---------------------------------------------------------------------

  datatype IndexFile = NoIndex | Malformed | Parsed(meta: Json)

  /** An entry of the algorithms directory. */
  datatype AlgorithmDir = AlgorithmDir(isDirectory: bool, index: IndexFile, languages: Option<seq<LanguageDir>>, lessons: Option<seq<LessonFile>>)

  datatype Template = Template(meta: Json, categories: Json, tags: Json, files: seq<AlgorithmFile>, lessons: seq<Lesson>, createdAt: Json, updatedAt: Json)

  /** The metadata carries a truthy id, title and difficulty. */
  predicate HasRequired(meta: Json)
  {
    Truthy(Get(meta, "id")) && Truthy(Get(meta, "title")) && Truthy(Get(meta, "difficulty"))
  }

  /** A field, or a default when it is falsy. */
  function Or(v: Option<Json>, default: Json): Json
  {
    if Truthy(v) then v.value else default
  }

  /** The template an algorithm directory yields, None for the ones skipped. */
  function TemplateOf(d: AlgorithmDir, now: Json): (r: Option<Template>)
    ensures r.Some? <==> d.isDirectory && d.index.Parsed? && HasRequired(d.index.meta)
  {
    if !d.isDirectory || !d.index.Parsed? || !HasRequired(d.index.meta) then None
    else
      var meta := d.index.meta;
      var files := DirFiles(if d.languages.Some? then d.languages.value else []);
      Some(Template(meta, Or(Get(meta, "categories"), JArray([])), Or(Get(meta, "tags"), JArray([])),
                    files, LoadLessons(d.lessons), Or(Get(meta, "createdAt"), now), Or(Get(meta, "updatedAt"), now)))
  }

  /** loadAlgorithmTemplates: the templates of the directories that are not skipped, in order. */
  function LoadTemplates(ds: seq<AlgorithmDir>, now: Json): (r: seq<Template>)
    ensures |r| <= |ds|
    ensures forall t :: t in r ==> HasRequired(t.meta)
  {
    if |ds| == 0 then []
    else
      var t := TemplateOf(ds[0], now);
      (if t.Some? then [t.value] else []) + LoadTemplates(ds[1..], now)
  }

  /** The templates are exactly those of the directories that are not skipped. */
  lemma {:induction false} TemplatesAreTheValidOnes(ds: seq<AlgorithmDir>, now: Json, t: Template)
    ensures t in LoadTemplates(ds, now) <==> exists i :: 0 <= i < |ds| && TemplateOf(ds[i], now) == Some(t)
  {
    if |ds| > 0 {
      TemplatesAreTheValidOnes(ds[1..], now, t);
      if t in LoadTemplates(ds[1..], now) {
        var i :| 0 <= i < |ds[1..]| && TemplateOf(ds[1..][i], now) == Some(t);
        assert TemplateOf(ds[i + 1], now) == Some(t);
      }
      if exists i :: 0 <= i < |ds| && TemplateOf(ds[i], now) == Some(t) {
        var i :| 0 <= i < |ds| && TemplateOf(ds[i], now) == Some(t);
        if i > 0 {
          assert TemplateOf(ds[1..][i - 1], now) == Some(t);
        }
      }
    }
  }
}
