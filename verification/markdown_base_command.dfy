/**
 * The per-extension tables shared by all commands: which comment markers a
 * file type uses (for commenting out replaced code) and which language tag
 * a fence gets when a directory is packed into markdown.
 */
module Languages {
  import opened PyStr
  import opened PosixPath

  /** Line-comment (or block-comment opening) marker per extension. */
  const CommentStart: map<string, string> := map[
    "py" := "#", "cpp" := "//", "c" := "//", "js" := "//", "java" := "//",
    "html" := "<!--", "xml" := "<!--", "css" := "/*"]

  /** Closing marker for the extensions whose comments are delimited. */
  const CommentEnd: map<string, string> := map["html" := "-->", "xml" := "-->", "css" := "*/"]

  /** Fence language tag per (lower-cased) extension. */
  const LanguageOf: map<string, string> := map[
    "py" := "python", "js" := "javascript", "cpp" := "c++", "hpp" := "c++",
    "h" := "c++", "c" := "c", "cs" := "csharp", "java" := "java",
    "html" := "html", "css" := "css", "sql" := "sql", "md" := "markdown",
    "txt" := "text"]

  /** `os.path.splitext(p)[1][1:]`: the extension without its dot. */
  function ExtNoDot(p: string): (r: string)
    ensures '.' !in r && '/' !in r
    ensures SplitExt(p).ext == "" || SplitExt(p).ext == "." + r
  {
    var e := SplitExt(p).ext;
    if e == "" then "" else e[1..]
  }

  /** The extension of `p == dir + stem + "." + ext` in the common case. */
  lemma ExtNoDotIs(p: string, dir: string, stem: string, ext: string)
    requires p == dir + stem + "." + ext
    requires stem != "" && stem[0] != '.'
    requires '.' !in stem && '/' !in stem && '.' !in ext && '/' !in ext
    ensures ExtNoDot(p) == ext
  {
    SplitExtOf(dir, stem, ext);
    assert ("." + ext)[1..] == ext;
  }

  datatype Syntax = Syntax(start: string, end: string)

  /** `get_comment_syntax`: the lookup is case-sensitive and falls back to
      `#` with no closing marker. */
  function GetCommentSyntax(filePath: string): (r: Syntax)
    ensures ExtNoDot(filePath) !in CommentStart ==> r == Syntax("#", "")
    ensures r.start in {"#", "//", "<!--", "/*"}
    ensures r.end != "" <==> ExtNoDot(filePath) in {"html", "xml", "css"}
    ensures r.end != "" ==> r in {Syntax("<!--", "-->"), Syntax("/*", "*/")}
    ensures r.start == "#" ==> r.end == ""
  {
    SyntaxFor(ExtNoDot(filePath))
  }

  /** The markers for one extension. */
  function SyntaxFor(ext: string): (r: Syntax)
    ensures ext !in CommentStart ==> r == Syntax("#", "")
    ensures r.start in {"#", "//", "<!--", "/*"}
    ensures r.end != "" <==> ext in {"html", "xml", "css"}
    ensures r.end != "" ==> r in {Syntax("<!--", "-->"), Syntax("/*", "*/")}
    ensures r.start == "#" ==> r.end == ""
  {
    Syntax(if ext in CommentStart then CommentStart[ext] else "#",
           if ext in CommentEnd then CommentEnd[ext] else "")
  }

  /** Neither marker table ever yields a marker containing a line break, so
      commented lines stay single lines. */
  lemma SyntaxHasNoNewline(filePath: string)
    ensures '\n' !in GetCommentSyntax(filePath).start
    ensures '\n' !in GetCommentSyntax(filePath).end
    ensures GetCommentSyntax(filePath).start != "" && !IsSpace(GetCommentSyntax(filePath).start[0])
  {
    MarkersAreSingleLine(GetCommentSyntax(filePath));
  }

  lemma MarkersAreSingleLine(r: Syntax)
    requires r.start in {"#", "//", "<!--", "/*"}
    requires r.end != "" ==> r in {Syntax("<!--", "-->"), Syntax("/*", "*/")}
    ensures '\n' !in r.start && '\n' !in r.end
    ensures r.start != "" && !IsSpace(r.start[0])
  {
  }

  /** Upper-case extensions are not recognised: `APP.JS` is commented with `#`. */
  lemma UpperCaseExtensionFallsBack()
    ensures GetCommentSyntax("APP.JS") == Syntax("#", "")
  {
    ExtNoDotIs("APP.JS", "", "APP", "JS");
    assert "JS" !in CommentStart;
  }

  lemma LowerCaseExtensionRecognised()
    ensures GetCommentSyntax("app.js") == Syntax("//", "")
  {
    ExtNoDotIs("app.js", "", "app", "js");
  }

  /** A dot-file has no extension, so it gets the default. */
  lemma DotFileGetsDefault()
    ensures GetCommentSyntax("/home/u/.bashrc") == Syntax("#", "")
  {
    var p := "/home/u/.bashrc";
    assert p[8] == '.' && p[7] == '/';
    forall j | 8 < j < |p| ensures p[j] != '.' && p[j] != '/' { }
    assert RFind(p, '.') == 8;
    assert RFind(p, '/') == 7;
    assert AllDots(p[8..8]);
    assert ExtIndex(p) == |p|;
  }

  /** Every language tag in the table is a non-empty lower-case word. */
  predicate IsTag(v: string) {
    '.' !in v && forall i :: 0 <= i < |v| ==> !('A' <= v[i] <= 'Z')
  }

  lemma LanguageTags()
    ensures forall k :: k in LanguageOf ==> LanguageOf[k] != "" && IsTag(LanguageOf[k])
  {
  }

  /** `get_file_language`: known extensions map to their language name,
      anything else is returned lower-cased as is. */
  function GetFileLanguage(filename: string): (r: string)
    ensures IsTag(r)
    ensures Lower(ExtNoDot(filename)) !in LanguageOf ==> r == Lower(ExtNoDot(filename))
    ensures r == "" <==> ExtNoDot(filename) == ""
  {
    LowerKeepsDotsOut(ExtNoDot(filename));
    LanguageFor(Lower(ExtNoDot(filename)))
  }

  /** The language of a lower-cased extension: its table entry, or the
      extension itself. */
  function LanguageFor(ext: string): (r: string)
    requires IsTag(ext)
    ensures IsTag(r)
    ensures ext !in LanguageOf ==> r == ext
    ensures ext in LanguageOf ==> r == LanguageOf[ext] && r != ""
  {
    LanguageTags();
    if ext in LanguageOf then LanguageOf[ext] else ext
  }

  lemma LowerKeepsDotsOut(s: string)
    requires '.' !in s
    ensures IsTag(Lower(s))
  {
    forall i | 0 <= i < |s| ensures Lower(s)[i] != '.' {
      assert Lower(s)[i] == LowerChar(s[i]);
    }
    forall i | 0 <= i < |Lower(s)| ensures !('A' <= Lower(s)[i] <= 'Z') {
      LowerHasNoUpper(s, i);
    }
  }

  lemma LowerPy()
    ensures Lower("PY") == "py" && Lower("RS") == "rs"
  {
  }

  lemma PythonTag()
    ensures "py" in LanguageOf && LanguageOf["py"] == "python"
  {
  }

  /** The language tag ignores the case of the extension. */
  lemma LanguageIgnoresCase()
    ensures GetFileLanguage("src/Main.PY") == "python"
  {
    ExtNoDotIs("src/Main.PY", "src/", "Main", "PY");
    LowerPy();
    PythonTag();
  }

  /** Unknown extensions pass through lower-cased. */
  lemma UnknownExtensionPassesThrough()
    ensures GetFileLanguage("lib.RS") == "rs"
  {
    ExtNoDotIs("lib.RS", "", "lib", "RS");
    LowerPy();
    assert "rs" !in LanguageOf;
  }

  /** A name without extension gets an empty tag. */
  lemma NoExtensionEmptyTag()
    ensures GetFileLanguage("Makefile") == ""
  {
    SplitExtNoDot("Makefile");
  }
}
