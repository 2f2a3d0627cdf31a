/**
 * The unpack direction, block by block: which file a fenced block names
 * (`get_filename_from_block`), which blocks are dropped
 * (`should_ignore_block`), how an existing file is commented
 * (`_comment_lines`), where a block is injected into an existing file
 * (`_find_python_injection_points`, `_find_general_injection_points`), the
 * spliced and prepended contents (`inject_code_block`,
 * `handle_file_conflict`), and the decision `extract_code_blocks` takes for
 * every block the fence scanner finds.
 */
module CodeBlocks {
  import opened PyStr
  import opened PosixPath
  import opened Config
  import opened FenceScanner
  import opened Paths
  import Languages
  import MarkdownGen

  predicate StartsWith(s: string, p: string) {
    |p| <= |s| && s[..|p|] == p
  }

  // ---------------------------------------------------------------------------
  // get_filename_from_block

  /** The path matcher of `extract_path_from_text` is a regular expression
      this model does not spell out: `extract` stands for it, and the source
      never calls it on empty text.  A match counts only when it is a
      non-empty string. */
  function Found(extract: string -> Option<string>, text: string): (r: Option<string>)
    ensures r.Some? ==> r.value != ""
    ensures r.Some? <==> text != "" && extract(text).Some? && extract(text).value != ""
  {
    if text == "" then None
    else match extract(text)
         case Some(x) => if x != "" then Some(x) else None
         case None => None
  }

  /** The comment leaders tried on the first line of the body, in order. */
  const CommentLeaders: seq<string> := ["#", "//", "<!--", "/*", ";"]

  /** A leader that starts the line and whose remainder, stripped, holds a
      path. */
  predicate Fires(line: string, leader: string, extract: string -> Option<string>) {
    StartsWith(line, leader) && Found(extract, Strip(line[|leader|..])).Some?
  }

  /** The loop over the comment leaders from the `k`-th on: the path after
      the first leader that fires. */
  function FromLeaders(line: string, leaders: seq<string>, k: nat, extract: string -> Option<string>): (r: Option<string>)
    ensures r.Some? ==> r.value != ""
    decreases |leaders| - k
  {
    if k >= |leaders| then None
    else if Fires(line, leaders[k], extract) then Found(extract, Strip(line[|leaders[k]|..]))
    else FromLeaders(line, leaders, k + 1, extract)
  }

  /** Some leader from the `k`-th on fires exactly when the loop finds a
      path. */
  lemma {:induction false} FromLeadersFinds(line: string, leaders: seq<string>, k: nat, extract: string -> Option<string>)
    ensures FromLeaders(line, leaders, k, extract).Some? <==> exists j :: k <= j < |leaders| && Fires(line, leaders[j], extract)
    decreases |leaders| - k
  {
    if k < |leaders| && !Fires(line, leaders[k], extract) {
      FromLeadersFinds(line, leaders, k + 1, extract);
      assert forall j :: k <= j < |leaders| && Fires(line, leaders[j], extract) ==> k + 1 <= j;
    }
  }

  /** The path the loop finds is the one after the first leader that
      fires. */
  lemma {:induction false} FromLeadersFirst(line: string, leaders: seq<string>, k: nat, extract: string -> Option<string>)
    requires FromLeaders(line, leaders, k, extract).Some?
    ensures exists j :: k <= j < |leaders| && Fires(line, leaders[j], extract)
                        && FromLeaders(line, leaders, k, extract) == Found(extract, Strip(line[|leaders[j]|..]))
                        && forall i :: k <= i < j ==> !Fires(line, leaders[i], extract)
    decreases |leaders| - k
  {
    if !Fires(line, leaders[k], extract) {
      FromLeadersFirst(line, leaders, k + 1, extract);
      var j :| k + 1 <= j < |leaders| && Fires(line, leaders[j], extract)
               && FromLeaders(line, leaders, k + 1, extract) == Found(extract, Strip(line[|leaders[j]|..]))
               && forall i :: k + 1 <= i < j ==> !Fires(line, leaders[i], extract);
      assert forall i :: k <= i < j ==> !Fires(line, leaders[i], extract);
    }
  }

  /** The path named on the first line of the body, after a comment leader. */
  function FirstLineName(code: string, extract: string -> Option<string>): Option<string> {
    if code == "" then None
    else FromLeaders(Strip(SplitLines(code)[0]), CommentLeaders, 0, extract)
  }

  /** The path named on the line before the fence. */
  function PrecedingName(preceding: Option<string>, extract: string -> Option<string>): Option<string> {
    match preceding
    case None => None
    case Some(line) => Found(extract, line)
  }

  /** `get_filename_from_block`.  The naming convention of the settings plays
      no part: an identifier holding a dot wins, as it stands; then a path on
      the preceding line; then a path on the first body line after a comment
      leader.  The winner is normalised. */
  function FilenameFromBlock(ident: string, code: string, preceding: Option<string>,
                             extract: string -> Option<string>): (r: Option<string>)
    ensures r.Some? <==> '.' in ident || PrecedingName(preceding, extract).Some? || FirstLineName(code, extract).Some?
    ensures '.' in ident ==> r == Some(NormalizePath(ident))
    ensures '.' !in ident && PrecedingName(preceding, extract).Some? ==>
              r == Some(NormalizePath(PrecedingName(preceding, extract).value))
    ensures '.' !in ident && PrecedingName(preceding, extract).None? && FirstLineName(code, extract).Some? ==>
              r == Some(NormalizePath(FirstLineName(code, extract).value))
    ensures r.Some? ==> r.value != "" && '\\' !in r.value && IsNormalPath(r.value)
  {
    var chosen :=
      if '.' in ident then Some(ident)
      else if PrecedingName(preceding, extract).Some? then PrecedingName(preceding, extract)
      else FirstLineName(code, extract);
    match chosen
    case None => None
    case Some(f) => if f != "" then Some(NormalizePath(f)) else None
  }

  /** The first line of an `after_fence` block, `// path`, names the file
      when neither the identifier nor the line above does. */
  lemma AfterFenceNameFound(ident: string, path: string, rest: string, preceding: Option<string>,
                            extract: string -> Option<string>)
    requires '.' !in ident && PrecedingName(preceding, extract).None?
    requires path != "" && !IsSpace(path[0]) && !IsSpace(path[|path| - 1])
    requires forall i :: 0 <= i < |path| ==> !IsLineBreak(path[i])
    requires extract(path) == Some(path)
    ensures FilenameFromBlock(ident, "// " + path + "\n" + rest, preceding, extract) == Some(NormalizePath(path))
  {
    AfterFenceFirstLine(path, rest, extract);
  }

  lemma AfterFenceFirstLine(path: string, rest: string, extract: string -> Option<string>)
    requires path != "" && !IsSpace(path[0]) && !IsSpace(path[|path| - 1])
    requires forall i :: 0 <= i < |path| ==> !IsLineBreak(path[i])
    requires extract(path) == Some(path)
    ensures FirstLineName("// " + path + "\n" + rest, extract) == Some(path)
  {
    var line := "// " + path;
    assert forall i :: 0 <= i < |line| ==> !IsLineBreak(line[i]) by {
      assert forall i :: 3 <= i < |line| ==> line[i] == path[i - 3];
    }
    FirstSplitLine(line, rest);
    StrippedLine(path);
    SlashesFire(path, extract);
  }

  lemma SlashesFire(path: string, extract: string -> Option<string>)
    requires path != "" && !IsSpace(path[0]) && !IsSpace(path[|path| - 1])
    requires extract(path) == Some(path)
    ensures FromLeaders("// " + path, CommentLeaders, 0, extract) == Some(path)
  {
    var line := "// " + path;
    SlashesLeader(path, extract);
    assert !Fires(line, CommentLeaders[0], extract);
    assert FromLeaders(line, CommentLeaders, 1, extract) == Some(path);
  }

  lemma SlashesLeader(path: string, extract: string -> Option<string>)
    requires path != "" && !IsSpace(path[0]) && !IsSpace(path[|path| - 1])
    requires extract(path) == Some(path)
    ensures var line := "// " + path;
            && !StartsWith(line, "#")
            && StartsWith(line, "//") && Found(extract, Strip(line[2..])) == Some(path)
  {
    var line := "// " + path;
    assert line[..1] != "#" by { assert line[..1][0] == '/'; }
    assert line[..2] == "//";
    assert line[2..] == " " + path;
    StripLeadingSpace(path);
  }

  /** The first line of `line + "\n" + rest` is `line` when `line` has no
      line break. */
  lemma FirstSplitLine(line: string, rest: string)
    requires forall i :: 0 <= i < |line| ==> !IsLineBreak(line[i])
    ensures SplitLines(line + "\n" + rest)[0] == line
  {
    var s := line + "\n" + rest;
    assert s[|line|] == '\n';
    NoBreakBefore(s, line);
  }

  lemma NoBreakBefore(s: string, line: string)
    requires |line| < |s| && s[..|line|] == line && IsLineBreak(s[|line|])
    requires forall i :: 0 <= i < |line| ==> !IsLineBreak(line[i])
    ensures FirstBreak(s, 0) == Some(|line|)
  {
    assert forall j :: 0 <= j < |line| ==> s[j] == line[j];
    FirstBreakIs(s, 0, |line|);
  }

  lemma {:induction false} FirstBreakIs(s: string, from: nat, k: nat)
    requires from <= k < |s| && IsLineBreak(s[k])
    requires forall j :: from <= j < k ==> !IsLineBreak(s[j])
    ensures FirstBreak(s, from) == Some(k)
    decreases k - from
  {
    if from < k {
      FirstBreakIs(s, from + 1, k);
    }
  }

  /** A string with no space at either end is its own strip. */
  lemma StrippedLine(t: string)
    requires t != [] && !IsSpace(t[0]) && !IsSpace(t[|t| - 1])
    ensures Strip("// " + t) == "// " + t && Strip(t) == t
  {
    var u := "// " + t;
    assert u[|u| - 1] == t[|t| - 1];
  }

  lemma StripLeadingSpace(t: string)
    requires t != [] && !IsSpace(t[0]) && !IsSpace(t[|t| - 1])
    ensures Strip(" " + t) == t
  {
    var u := " " + t;
    assert u[|u| - 1] == t[|t| - 1];
    assert RStrip(u) == u;
    assert u[1..] == t;
    assert LStrip(u) == LStrip(t) == t;
  }

  // ---------------------------------------------------------------------------
  // should_ignore_block

  /** `'readme' in code.lower()`, `'README' in code.lower()` and the same
      for properties. */
  predicate MentionsWord(code: string, lower: string, upper: string) {
    Contains(Lower(code), lower) || Contains(Lower(code), upper)
  }

  /** The rules of `should_ignore_block`, each one only when its name is
      listed in `blocks_ignored`; a blank body is dropped whatever is
      listed. */
  predicate IgnoreRule(rules: seq<string>, code: string, filename: Option<string>) {
    || ("nameless" in rules && (filename.None? || filename.value == ""))
    || ("lessthan_3" in rules && |SplitLines(Strip(code))| < 3)
    || ("readme" in rules && MentionsWord(code, "readme", "README"))
    || ("properties" in rules && MentionsWord(code, "properties", "PROPERTIES"))
    || ("without_ext" in rules && filename.Some? && filename.value != "" && SplitExt(filename.value).ext == "")
  }

  /** `should_ignore_block`: true exactly when an enabled rule fires or the
      body is blank. */
  function ShouldIgnoreBlock(rules: seq<string>, code: string, filename: Option<string>): (r: bool)
    ensures r <==> IgnoreRule(rules, code, filename) || IsBlank(code)
  {
    BlankIffStripEmpty(code);
    if "nameless" in rules && (filename.None? || filename.value == "") then true
    else if "lessthan_3" in rules && |SplitLines(Strip(code))| < 3 then true
    else if "readme" in rules && MentionsWord(code, "readme", "README") then true
    else if "properties" in rules && MentionsWord(code, "properties", "PROPERTIES") then true
    else if "without_ext" in rules && filename.Some? && filename.value != "" && SplitExt(filename.value).ext == "" then true
    else Strip(code) == ""
  }

  /** With nothing listed, only blank bodies are dropped. */
  lemma NoRulesOnlyBlank(code: string, filename: Option<string>)
    ensures ShouldIgnoreBlock([], code, filename) <==> IsBlank(code)
  {
  }

  /** The upper-case spelling is looked for in the lower-cased body, where
      it can never occur. */
  lemma UpperSpellingNeverMatches(code: string, upper: string)
    requires upper != [] && 'A' <= upper[0] <= 'Z'
    ensures !Contains(Lower(code), upper)
  {
    ContainsIff(Lower(code), upper);
    if exists j :: OccursAt(Lower(code), upper, j) {
      var j :| OccursAt(Lower(code), upper, j);
      assert Lower(code)[j..j + |upper|][0] == upper[0];
      LowerHasNoUpper(code, j);
    }
  }

  /** The readme rule is case-insensitive: "ReadMe" anywhere in the body
      drops it. */
  lemma ReadmeAnyCase(code: string, j: nat, rules: seq<string>, filename: Option<string>)
    requires "readme" in rules
    requires j + 6 <= |code| && Lower(code[j..j + 6]) == "readme"
    ensures ShouldIgnoreBlock(rules, code, filename)
  {
    assert Lower(code)[j..j + 6] == Lower(code[j..j + 6]);
    ContainsWitness(Lower(code), "readme", j);
  }

  // ---------------------------------------------------------------------------
  // _comment_lines

  /** One line as `_comment_lines` writes it. */
  function CommentLine(line: string, syntax: Languages.Syntax): string {
    if Strip(line) == "" then line
    else if syntax.end != "" then syntax.start + " " + line + " " + syntax.end
    else syntax.start + " " + line
  }

  /** `_comment_lines`: one output line per input line. */
  function CommentLines(lines: seq<string>, syntax: Languages.Syntax): (r: seq<string>)
    ensures |r| == |lines|
    ensures forall i :: 0 <= i < |lines| ==> r[i] == CommentLine(lines[i], syntax)
    decreases |lines|
  {
    if lines == [] then [] else [CommentLine(lines[0], syntax)] + CommentLines(lines[1..], syntax)
  }

  /** The inverse of one commented line: a blank line stays, any other line
      loses the opening marker and its space, and the closing marker with
      its space when there is one. */
  function UncommentLine(line: string, syntax: Languages.Syntax): string {
    if IsBlank(line) then line
    else
      var tail := if syntax.end != "" then |syntax.end| + 1 else 0;
      if |syntax.start| + 1 + tail <= |line| then line[|syntax.start| + 1..|line| - tail] else line
  }

  function UncommentLines(lines: seq<string>, syntax: Languages.Syntax): (r: seq<string>)
    ensures |r| == |lines|
    ensures forall i :: 0 <= i < |lines| ==> r[i] == UncommentLine(lines[i], syntax)
    decreases |lines|
  {
    if lines == [] then [] else [UncommentLine(lines[0], syntax)] + UncommentLines(lines[1..], syntax)
  }

  /** Blank lines are kept as they are; every other line is wrapped in the
      markers, so commenting loses nothing when the opening marker does not
      start with a space. */
  lemma CommentLineShape(line: string, syntax: Languages.Syntax)
    ensures IsBlank(line) ==> CommentLine(line, syntax) == line
    ensures !IsBlank(line) ==>
              CommentLine(line, syntax) == syntax.start + " " + line + (if syntax.end != "" then " " + syntax.end else "")
  {
    BlankIffStripEmpty(line);
  }

  lemma UncommentComment(line: string, syntax: Languages.Syntax)
    requires syntax.start != "" && !IsSpace(syntax.start[0])
    ensures UncommentLine(CommentLine(line, syntax), syntax) == line
  {
    CommentLineShape(line, syntax);
    if !IsBlank(line) {
      var c := CommentLine(line, syntax);
      assert c[0] == syntax.start[0];
      var tail := if syntax.end != "" then |syntax.end| + 1 else 0;
      assert c[|syntax.start| + 1..|c| - tail] == line;
    }
  }

  lemma UncommentCommentLines(lines: seq<string>, syntax: Languages.Syntax)
    requires syntax.start != "" && !IsSpace(syntax.start[0])
    ensures UncommentLines(CommentLines(lines, syntax), syntax) == lines
  {
    forall i | 0 <= i < |lines| ensures UncommentLines(CommentLines(lines, syntax), syntax)[i] == lines[i] {
      UncommentComment(lines[i], syntax);
    }
  }

  /** Commented lines stay single lines. */
  lemma CommentKeepsOutNewline(lines: seq<string>, syntax: Languages.Syntax)
    requires '\n' !in syntax.start && '\n' !in syntax.end
    requires forall i :: 0 <= i < |lines| ==> '\n' !in lines[i]
    ensures forall i :: 0 <= i < |lines| ==> '\n' !in CommentLines(lines, syntax)[i]
  {
    forall i | 0 <= i < |lines| ensures '\n' !in CommentLines(lines, syntax)[i] {
      CommentLineShape(lines[i], syntax);
    }
  }

  // ---------------------------------------------------------------------------
  // _find_python_injection_points

  /** `get_definition_name`: the second word of a stripped `def ` or
      `class ` line, cut at its first parenthesis. */
  function DefinitionName(line: string): (r: Option<string>)
    ensures r.Some? ==> '(' !in r.value
    ensures r.Some? ==> StartsWith(Strip(line), "def ") || StartsWith(Strip(line), "class ")
  {
    var t := Strip(line);
    if StartsWith(t, "def ") || StartsWith(t, "class ") then
      var parts := Words(t);
      if |parts| >= 2 then Some(Split(parts[1], '(')[0]) else None
    else None
  }

  /** A definition line, however indented and whatever follows the
      parenthesis, defines the name between the keyword and the
      parenthesis. */
  lemma DefinitionNameOf(indent: string, keyword: string, name: string, rest: string)
    requires IsBlank(indent) && keyword in {"def", "class"}
    requires name != [] && '(' !in name && Solid(name)
    requires rest != [] && !IsSpace(rest[|rest| - 1])
    ensures DefinitionName(indent + keyword + " " + name + "(" + rest) == Some(name)
  {
    var t := keyword + " " + name + "(" + rest;
    assert indent + keyword + " " + name + "(" + rest == indent + t;
    assert t[0] == keyword[0];
    StripIndented(indent, t);
    DefinitionNameOfStripped(keyword, name, rest);
  }

  lemma DefinitionNameOfStripped(keyword: string, name: string, rest: string)
    requires keyword in {"def", "class"}
    requires name != [] && '(' !in name && Solid(name)
    requires rest != [] && !IsSpace(rest[|rest| - 1])
    ensures DefinitionName(keyword + " " + name + "(" + rest) == Some(name)
  {
    var u := name + "(" + rest;
    var t := keyword + " " + u;
    assert keyword + " " + name + "(" + rest == t;
    assert Solid(keyword);
    assert u[|u| - 1] == rest[|rest| - 1];
    assert t[|t| - 1] == u[|u| - 1];
    StripIndented([], t);
    assert [] + t == t;
    WordsOfDefinition(keyword, name, rest);
    assert t[..|keyword| + 1] == keyword + " ";
    DefinitionNameFromWords(t, keyword, name);
  }

  lemma DefinitionNameFromWords(t: string, keyword: string, name: string)
    requires keyword in {"def", "class"} && Strip(t) == t
    requires |keyword| + 1 <= |t| && t[..|keyword| + 1] == keyword + " "
    requires |Words(t)| >= 2 && Split(Words(t)[1], '(')[0] == name
    ensures DefinitionName(t) == Some(name)
  {
    if keyword == "def" {
      assert keyword + " " == "def ";
      assert StartsWith(t, "def ");
    } else {
      assert keyword + " " == "class ";
      assert StartsWith(t, "class ");
    }
  }

  /** Leading blanks go, and a line that ends in a non-space keeps its end. */
  lemma StripIndented(indent: string, t: string)
    requires IsBlank(indent) && t != [] && !IsSpace(t[0]) && !IsSpace(t[|t| - 1])
    ensures Strip(indent + t) == t
  {
    var line := indent + t;
    assert line[|line| - 1] == t[|t| - 1];
    assert RStrip(line) == line;
    LStripBlankPrefix(indent, t);
  }

  lemma {:induction false} LStripBlankPrefix(indent: string, t: string)
    requires IsBlank(indent) && t != [] && !IsSpace(t[0])
    ensures LStrip(indent + t) == t
    decreases |indent|
  {
    if indent == [] {
      assert indent + t == t;
    } else {
      assert (indent + t)[1..] == indent[1..] + t;
      LStripBlankPrefix(indent[1..], t);
    }
  }

  /** A run of non-space characters is a word of its own. */
  predicate Solid(w: string) {
    forall i :: 0 <= i < |w| ==> !IsSpace(w[i])
  }

  /** The second word of a definition line, cut at the parenthesis. */
  lemma WordsOfDefinition(keyword: string, name: string, rest: string)
    requires keyword != [] && Solid(keyword)
    requires name != [] && '(' !in name && Solid(name)
    ensures var parts := Words(keyword + " " + name + "(" + rest);
            |parts| >= 2 && Split(parts[1], '(')[0] == name
  {
    var u := name + "(" + rest;
    assert keyword + " " + name + "(" + rest == keyword + " " + u;
    FirstWord(keyword, u);
    var k := SecondWord(name, rest);
    assert Words(" " + u)[0] == u[..k];
    CutAtParen(name, u[|name| + 1..k]);
    assert u[..k] == name + "(" + u[|name| + 1..k];
  }

  lemma FirstWord(w: string, v: string)
    requires w != [] && Solid(w)
    ensures Words(w + " " + v) == [w] + Words(" " + v)
  {
    var t := w + " " + v;
    assert t[|w|] == ' ';
    assert forall j :: 0 <= j < |w| ==> t[j] == w[j];
    FirstSpaceAt(t, 1, |w|);
    assert t[..|w|] == w;
    assert t[|w|..] == " " + v;
  }

  lemma {:induction false} FirstSpaceAt(s: string, from: nat, k: nat)
    requires from <= k < |s| && IsSpace(s[k])
    requires forall j :: from <= j < k ==> !IsSpace(s[j])
    ensures FirstSpace(s, from) == k
    decreases k - from
  {
    if from < k {
      FirstSpaceAt(s, from + 1, k);
    }
  }

  lemma SecondWord(name: string, rest: string) returns (k: nat)
    requires name != [] && Solid(name)
    ensures var u := name + "(" + rest;
            |name| < k <= |u| && Words(" " + u) != [] && Words(" " + u)[0] == u[..k]
  {
    var u := name + "(" + rest;
    assert (" " + u)[1..] == u;
    assert u[0] == name[0];
    assert LStrip(" " + u) == u;
    k := FirstSpace(u, 1);
    assert forall j :: 0 <= j < |name| ==> u[j] == name[j];
    assert u[|name|] == '(';
  }

  lemma CutAtParen(name: string, x: string)
    requires '(' !in name
    ensures Split(name + "(" + x, '(')[0] == name
  {
    SplitAppend(name, x, '(');
    SplitOfFree(name, '(');
  }

  /** A name Python treats as true: present and not empty. */
  predicate Named(o: Option<string>) {
    o.Some? && o.value != ""
  }

  /** What the Python finder looks at on one line: the name it defines,
      whether it is blank once stripped, and its indentation. */
  datatype LineInfo = LineInfo(def: Option<string>, blank: bool, indent: nat)

  function Info(line: string): LineInfo {
    LineInfo(DefinitionName(line), Strip(line) == "", IndentWidth(line))
  }

  function Infos(lines: seq<string>): (r: seq<LineInfo>)
    ensures |r| == |lines|
    ensures forall i :: 0 <= i < |lines| ==> r[i] == Info(lines[i])
  {
    seq(|lines|, i requires 0 <= i < |lines| => Info(lines[i]))
  }

  /** A line is blank to the finder exactly when it is whitespace. */
  lemma InfoBlank(line: string)
    ensures Info(line).blank <==> IsBlank(line)
  {
    BlankIffStripEmpty(line);
  }

  /** The loop over the block's lines from the `k`-th on: the first name a
      line defines. */
  function FirstNamed(infos: seq<LineInfo>, k: nat): (r: Option<string>)
    ensures r.None? <==> forall i :: k <= i < |infos| ==> !Named(infos[i].def)
    ensures r.Some? ==> exists i :: k <= i < |infos| && infos[i].def == r && r.value != ""
                          && forall j :: k <= j < i ==> !Named(infos[j].def)
    decreases |infos| - k
  {
    if k >= |infos| then None
    else if Named(infos[k].def) then infos[k].def
    else FirstNamed(infos, k + 1)
  }

  /** The name of the first definition in the block. */
  function CodeDefName(codeLines: seq<string>): (r: Option<string>)
    ensures r.Some? ==> r.value != ""
  {
    FirstNamed(Infos(codeLines), 0)
  }

  /** The block defines no name exactly when no line of it does; otherwise
      the name is the one on the first line that defines one. */
  lemma CodeDefNameFirst(codeLines: seq<string>)
    ensures CodeDefName(codeLines).None? <==> forall i :: 0 <= i < |codeLines| ==> !Named(DefinitionName(codeLines[i]))
    ensures CodeDefName(codeLines).Some? ==>
              exists i :: 0 <= i < |codeLines| && DefinitionName(codeLines[i]) == CodeDefName(codeLines)
                          && forall j :: 0 <= j < i ==> !Named(DefinitionName(codeLines[j]))
  {
    var infos := Infos(codeLines);
    var r := FirstNamed(infos, 0);
    if r.Some? {
      var i :| 0 <= i < |infos| && infos[i].def == r && r.value != ""
               && forall j :: 0 <= j < i ==> !Named(infos[j].def);
      assert DefinitionName(codeLines[i]) == r;
    } else {
      forall i | 0 <= i < |codeLines| ensures !Named(DefinitionName(codeLines[i])) {
        assert infos[i].def == DefinitionName(codeLines[i]);
      }
    }
  }

  /** The region an injection replaces: lines `start` to `end`, both
      included. */
  datatype Region = Region(start: nat, end: nat)

  /** Line `j` still belongs to the definition on line `s`: it is no
      redefinition of the name and it is blank or indented deeper. */
  predicate Continues(infos: seq<LineInfo>, s: nat, j: nat, name: string)
    requires s < |infos| && j < |infos|
  {
    infos[j].def != Some(name) && (infos[j].blank || infos[j].indent > infos[s].indent)
  }

  /** Line `j` ends the definition on line `s`. */
  predicate Stops(infos: seq<LineInfo>, s: nat, j: nat, name: string)
    requires s < |infos| && j < |infos|
  {
    infos[j].def != Some(name) && !infos[j].blank && infos[j].indent <= infos[s].indent
  }

  /** The loop over the file's lines from line `i` on, with `cur` the line of
      the definition found so far: a later definition of the same name
      restarts the region, and the first non-blank line indented no deeper
      than the definition ends it. */
  function PythonScan(infos: seq<LineInfo>, name: string, i: nat, cur: Option<nat>): (r: Option<Region>)
    requires i <= |infos|
    requires cur.Some? ==> cur.value < i && infos[cur.value].def == Some(name)
                           && forall j :: cur.value < j < i ==> Continues(infos, cur.value, j, name)
    requires cur.None? ==> forall j :: 0 <= j < i ==> infos[j].def != Some(name)
    ensures r.None? <==> forall j :: 0 <= j < |infos| ==> infos[j].def != Some(name)
    ensures r.Some? ==> var g := r.value;
              && g.start <= g.end < |infos|
              && infos[g.start].def == Some(name)
              && (forall j :: g.start < j <= g.end ==> Continues(infos, g.start, j, name))
              && (g.end + 1 < |infos| ==> Stops(infos, g.start, g.end + 1, name))
    decreases |infos| - i
  {
    if i == |infos| then
      if cur.None? then None else Some(Region(cur.value, |infos| - 1))
    else if infos[i].def == Some(name) then PythonScan(infos, name, i + 1, Some(i))
    else if cur.Some? && !infos[i].blank && infos[i].indent <= infos[cur.value].indent then
      Some(Region(cur.value, i - 1))
    else PythonScan(infos, name, i + 1, cur)
  }

  /** `_find_python_injection_points`: the region of the file holding the
      definition of the first name the block defines.  It starts on a line
      defining that name, every later line of it is blank or indented deeper,
      and the line after it, if any, is not. */
  function FindPythonInjectionPoints(fileLines: seq<string>, codeLines: seq<string>): (r: Option<Region>)
    ensures var infos := Infos(fileLines);
            r.None? <==> CodeDefName(codeLines).None?
                         || forall j :: 0 <= j < |infos| ==> infos[j].def != CodeDefName(codeLines)
    ensures r.Some? ==> var g := r.value;
              var name := CodeDefName(codeLines).value;
              var infos := Infos(fileLines);
              && CodeDefName(codeLines).Some?
              && g.start <= g.end < |fileLines|
              && infos[g.start].def == Some(name)
              && (forall j :: g.start < j <= g.end ==> Continues(infos, g.start, j, name))
              && (g.end + 1 < |fileLines| ==> Stops(infos, g.start, g.end + 1, name))
  {
    match CodeDefName(codeLines)
    case None => None
    case Some(name) => PythonScan(Infos(fileLines), name, 0, None)
  }

  // ---------------------------------------------------------------------------
  // _find_general_injection_points

  /** The first line from `from` on whose stripped text is `t`. */
  function FirstStripped(lines: seq<string>, t: string, from: nat): (r: Option<nat>)
    ensures r.Some? ==> from <= r.value < |lines| && Strip(lines[r.value]) == t
                        && forall j :: from <= j < r.value ==> Strip(lines[j]) != t
    ensures r.None? ==> forall j :: from <= j < |lines| ==> Strip(lines[j]) != t
    decreases |lines| - from
  {
    if from >= |lines| then None
    else if Strip(lines[from]) == t then Some(from)
    else FirstStripped(lines, t, from + 1)
  }

  /** Opening minus closing braces on one line. */
  function Net(line: string): int {
    CountChar(line, '{') - CountChar(line, '}')
  }

  /** Opening minus closing braces over several lines. */
  function Balance(lines: seq<string>): int
    decreases |lines|
  {
    if lines == [] then 0 else Balance(lines[..|lines| - 1]) + Net(lines[|lines| - 1])
  }

  /** The count over the lines after `s` up to line `j`, both included. */
  function Running(lines: seq<string>, s: nat, j: nat): int
    requires s < j < |lines|
  {
    Balance(lines[s + 1..j + 1])
  }

  /** The brace-counting loop from line `i` on, `acc` being the count over
      the lines after `s` seen so far: the first line where the count over
      the lines after `s` reaches `target`. */
  function BalanceScan(lines: seq<string>, s: nat, target: int, i: nat, acc: int): (r: Option<nat>)
    requires s < i <= |lines| && acc == Balance(lines[s + 1..i])
    ensures r.Some? ==> i <= r.value < |lines| && Running(lines, s, r.value) == target
                        && forall j :: i <= j < r.value ==> Running(lines, s, j) != target
    ensures r.None? ==> forall j :: i <= j < |lines| ==> Running(lines, s, j) != target
    decreases |lines| - i
  {
    if i == |lines| then None
    else
      assert lines[s + 1..i + 1][..i - s - 1] == lines[s + 1..i];
      var acc' := acc + Net(lines[i]);
      if acc' == target then Some(i) else BalanceScan(lines, s, target, i + 1, acc')
  }

  /** `_find_general_injection_points`: the region starts at the first line
      equal to the block's first line, once both are stripped; it ends at the
      next line equal to the block's last line unless that line is a lone
      closing brace, and otherwise where the braces after the start balance
      as they do in the block after its first line. */
  function FindGeneralInjectionPoints(fileLines: seq<string>, codeLines: seq<string>): (r: Option<Region>)
    ensures r.Some? ==> codeLines != [] && r.value.start < r.value.end < |fileLines|
                        && FirstStripped(fileLines, Strip(codeLines[0]), 0) == Some(r.value.start)
    ensures r.Some? ==> var g := r.value;
              var last := Strip(codeLines[|codeLines| - 1]);
              if last != "}" && FirstStripped(fileLines, last, g.start + 1).Some? then
                FirstStripped(fileLines, last, g.start + 1) == Some(g.end)
              else
                && Running(fileLines, g.start, g.end) == Balance(codeLines[1..])
                && forall j :: g.start < j < g.end ==> Running(fileLines, g.start, j) != Balance(codeLines[1..])
    ensures r.None? <==>
              || codeLines == []
              || FirstStripped(fileLines, Strip(codeLines[0]), 0).None?
              || (var s := FirstStripped(fileLines, Strip(codeLines[0]), 0).value;
                  var last := Strip(codeLines[|codeLines| - 1]);
                  && (last == "}" || FirstStripped(fileLines, last, s + 1).None?)
                  && forall j :: s < j < |fileLines| ==> Running(fileLines, s, j) != Balance(codeLines[1..]))
  {
    if codeLines == [] then None
    else
      var first := Strip(codeLines[0]);
      var last := Strip(codeLines[|codeLines| - 1]);
      match FirstStripped(fileLines, first, 0)
      case None => None
      case Some(s) =>
        var byLast := if last != "}" then FirstStripped(fileLines, last, s + 1) else None;
        if byLast.Some? then Some(Region(s, byLast.value))
        else
          match BalanceScan(fileLines, s, Balance(codeLines[1..]), s + 1, 0)
          case None => None
          case Some(e) => Some(Region(s, e))
  }

  /** `find_code_injection_point`: Python files by definition, the rest by
      lines and braces; both sides are split into lines, the block after
      stripping. */
  function FindCodeInjectionPoint(content: string, codeBlock: string, ext: string): (r: Option<Region>)
    ensures r.Some? ==> r.value.start <= r.value.end < |Split(content, '\n')|
  {
    if ext == "py" then FindPythonInjectionPoints(Split(content, '\n'), Split(Strip(codeBlock), '\n'))
    else FindGeneralInjectionPoints(Split(content, '\n'), Split(Strip(codeBlock), '\n'))
  }

  // ---------------------------------------------------------------------------
  // inject_code_block: the splice

  /** The new content `inject_code_block` writes: the lines before the
      region, the block, the region commented out, the lines after it. */
  function Splice(lines: seq<string>, g: Region, codeBlock: string, syntax: Languages.Syntax): string
    requires g.start <= g.end < |lines|
  {
    Join(lines[..g.start], '\n') + "\n" + codeBlock + "\n"
      + Join(CommentLines(lines[g.start..g.end + 1], syntax), '\n') + "\n"
      + Join(lines[g.end + 1..], '\n')
  }

  /** What the spliced content keeps: away from the file's ends it splits
      into exactly the lines before the region, the block's lines, the
      commented region and the lines after it; the commented region comes
      back by uncommenting; at the file's ends an extra empty line appears. */
  predicate SpliceShape(r: string, lines: seq<string>, g: Region, codeBlock: string, syntax: Languages.Syntax)
    requires g.start <= g.end < |lines|
  {
    && (0 < g.start && g.end + 1 < |lines| ==>
          Split(r, '\n') == lines[..g.start] + Split(codeBlock, '\n')
                            + CommentLines(lines[g.start..g.end + 1], syntax) + lines[g.end + 1..])
    && UncommentLines(CommentLines(lines[g.start..g.end + 1], syntax), syntax) == lines[g.start..g.end + 1]
    && (g.start == 0 ==> r != "" && r[0] == '\n')
    && (g.end + 1 == |lines| ==> r != "" && r[|r| - 1] == '\n')
  }

  /** `inject_code_block` on the text of the existing file: the spliced
      content when an injection point is found, `None` otherwise.  The
      extension and the comment markers both come from the file's path. */
  function InjectCodeBlock(filePath: string, existing: string, codeBlock: string): (r: Option<string>)
    ensures var found := FindCodeInjectionPoint(existing, codeBlock, Languages.ExtNoDot(filePath));
            && (r.None? <==> found.None?)
            && (r.Some? ==> found.value.start <= found.value.end < |Split(existing, '\n')|
                            && SpliceShape(r.value, Split(existing, '\n'), found.value, codeBlock,
                                           Languages.GetCommentSyntax(filePath)))
  {
    var found := FindCodeInjectionPoint(existing, codeBlock, Languages.ExtNoDot(filePath));
    if found.None? then None
    else
      var lines := Split(existing, '\n');
      var syntax := Languages.GetCommentSyntax(filePath);
      Languages.SyntaxHasNoNewline(filePath);
      SpliceFacts(syntax, lines, found.value, codeBlock);
      Some(Splice(lines, found.value, codeBlock, syntax))
  }

  lemma SpliceFacts(syntax: Languages.Syntax, lines: seq<string>, g: Region, codeBlock: string)
    requires syntax.start != "" && !IsSpace(syntax.start[0])
    requires '\n' !in syntax.start && '\n' !in syntax.end
    requires g.start <= g.end < |lines|
    requires forall i :: 0 <= i < |lines| ==> '\n' !in lines[i]
    ensures SpliceShape(Splice(lines, g, codeBlock, syntax), lines, g, codeBlock, syntax)
  {
    UncommentCommentLines(lines[g.start..g.end + 1], syntax);
    if 0 < g.start && g.end + 1 < |lines| {
      SpliceLines(lines, g, codeBlock, syntax);
    }
  }

  /** Away from the file's ends, the spliced content splits into exactly
      the lines before the region, the block's lines, the commented region
      and the lines after it. */
  lemma SpliceLines(lines: seq<string>, g: Region, codeBlock: string, syntax: Languages.Syntax)
    requires 0 < g.start <= g.end && g.end + 1 < |lines|
    requires forall i :: 0 <= i < |lines| ==> '\n' !in lines[i]
    requires '\n' !in syntax.start && '\n' !in syntax.end
    ensures Split(Splice(lines, g, codeBlock, syntax), '\n')
            == lines[..g.start] + Split(codeBlock, '\n') + CommentLines(lines[g.start..g.end + 1], syntax) + lines[g.end + 1..]
  {
    var m := CommentLines(lines[g.start..g.end + 1], syntax);
    CommentKeepsOutNewline(lines[g.start..g.end + 1], syntax);
    JoinSplit(codeBlock, '\n');
    SplitFour(lines[..g.start], Split(codeBlock, '\n'), m, lines[g.end + 1..], codeBlock);
  }

  /** Four non-empty runs of single lines, joined around a text that is
      itself the join of the second run, split back into the runs. */
  lemma SplitFour(a: seq<string>, c: seq<string>, m: seq<string>, b: seq<string>, text: string)
    requires a != [] && c != [] && m != [] && b != []
    requires Join(c, '\n') == text
    requires forall i :: 0 <= i < |a| ==> '\n' !in a[i]
    requires forall i :: 0 <= i < |c| ==> '\n' !in c[i]
    requires forall i :: 0 <= i < |m| ==> '\n' !in m[i]
    requires forall i :: 0 <= i < |b| ==> '\n' !in b[i]
    ensures Split(Join(a, '\n') + "\n" + text + "\n" + Join(m, '\n') + "\n" + Join(b, '\n'), '\n') == a + c + m + b
  {
    JoinFour(a, c, m, b);
    NoNewlineParts(a, c, m, b);
    SplitJoin(a + c + m + b, '\n');
  }

  /** Joining four non-empty runs of lines one after the other. */
  lemma JoinFour(a: seq<string>, c: seq<string>, m: seq<string>, b: seq<string>)
    requires a != [] && c != [] && m != [] && b != []
    ensures Join(a + c + m + b, '\n')
            == Join(a, '\n') + "\n" + Join(c, '\n') + "\n" + Join(m, '\n') + "\n" + Join(b, '\n')
  {
    JoinAppend(a, c, '\n');
    JoinAppend(a + c, m, '\n');
    JoinAppend(a + c + m, b, '\n');
  }

  lemma NoNewlineParts(a: seq<string>, c: seq<string>, m: seq<string>, b: seq<string>)
    requires forall i :: 0 <= i < |a| ==> '\n' !in a[i]
    requires forall i :: 0 <= i < |c| ==> '\n' !in c[i]
    requires forall i :: 0 <= i < |m| ==> '\n' !in m[i]
    requires forall i :: 0 <= i < |b| ==> '\n' !in b[i]
    ensures forall i :: 0 <= i < |a + c + m + b| ==> '\n' !in (a + c + m + b)[i]
  {
  }

  // ---------------------------------------------------------------------------
  // handle_file_conflict

  const PrependAndComment := "prepend_and_comment"

  /** The `prepend_and_comment` content: the new code, an empty line, then
      the old content commented out line by line. */
  function Prepend(code: string, existing: string, syntax: Languages.Syntax): string {
    code + "\n\n" + Join(CommentLines(Split(existing, '\n'), syntax), '\n')
  }

  /** The prepended content splits into the code's lines, one empty line and
      the commented old lines, from which the old content comes back. */
  lemma PrependLines(code: string, existing: string, syntax: Languages.Syntax)
    requires '\n' !in syntax.start && '\n' !in syntax.end
    requires syntax.start != "" && !IsSpace(syntax.start[0])
    ensures var prev := Split(existing, '\n');
            var r := Split(Prepend(code, existing, syntax), '\n');
            && r == Split(code, '\n') + [""] + CommentLines(prev, syntax)
            && Join(UncommentLines(r[|Split(code, '\n')| + 1..], syntax), '\n') == existing
  {
    var prev := Split(existing, '\n');
    var m := CommentLines(prev, syntax);
    CommentKeepsOutNewline(prev, syntax);
    JoinSplit(code, '\n');
    SplitAround(Split(code, '\n'), m, code);
    UncommentCommentLines(prev, syntax);
    JoinSplit(existing, '\n');
  }

  /** A text, an empty line and a run of single lines split back into the
      text's lines, the empty line and the run. */
  lemma SplitAround(c: seq<string>, m: seq<string>, text: string)
    requires c != [] && m != [] && Join(c, '\n') == text
    requires forall i :: 0 <= i < |c| ==> '\n' !in c[i]
    requires forall i :: 0 <= i < |m| ==> '\n' !in m[i]
    ensures var r := Split(text + "\n\n" + Join(m, '\n'), '\n');
            r == c + [""] + m && r[|c| + 1..] == m
  {
    var parts := c + [""] + m;
    JoinAroundEmpty(c, m);
    NoNewlineAround(c, m);
    SplitJoin(parts, '\n');
    assert Split(text + "\n\n" + Join(m, '\n'), '\n') == parts;
    assert parts[|c| + 1..] == m;
  }

  lemma NoNewlineAround(c: seq<string>, m: seq<string>)
    requires forall i :: 0 <= i < |c| ==> '\n' !in c[i]
    requires forall i :: 0 <= i < |m| ==> '\n' !in m[i]
    ensures forall i :: 0 <= i < |c + [""] + m| ==> '\n' !in (c + [""] + m)[i]
  {
    var parts := c + [""] + m;
    assert forall i :: |c| < i < |parts| ==> parts[i] == m[i - |c| - 1];
  }

  lemma JoinAroundEmpty(c: seq<string>, m: seq<string>)
    requires c != [] && m != []
    ensures Join(c + [""] + m, '\n') == Join(c, '\n') + "\n\n" + Join(m, '\n')
  {
    JoinAppend(c + [""], m, '\n');
    JoinAppend(c, [""], '\n');
  }

  /** `handle_file_conflict` for an existing `filePath`: the disk after the
      policy is applied, or `None` where the source raises (the file cannot
      be read, is not there to be moved, or the move raises).  An unknown
      policy does nothing. */
  function HandleFileConflict(d: Disk, filePath: string, code: string, policy: string): (r: Option<Disk>)
    requires ValidDisk(d)
    ensures policy == PrependAndComment ==>
              (r.Some? <==> Read(d, filePath).Some?)
              && (r.Some? ==> Read(r.value, filePath)
                                == Some(Prepend(code, Read(d, filePath).value, Languages.GetCommentSyntax(filePath))))
    ensures policy == AppendN ==>
              var q := HandleAppendN(d, filePath);
              && r.Some? && !Exists(d, q) && Read(r.value, q) == Some(code)
              && (Exists(d, filePath) ==> Read(r.value, filePath) == Read(d, filePath))
    ensures policy == MoveToBackup ==>
              (r.Some? <==> Exists(d, filePath) && !BackupRaises(d, filePath))
              && (r.Some? ==> Read(r.value, filePath) == Some(code)
                              && Read(r.value, BackupTarget(d, filePath)) == Read(d, filePath))
    ensures policy !in {PrependAndComment, AppendN, MoveToBackup} ==> r == Some(d)
  {
    if policy == PrependAndComment then
      match Read(d, filePath)
      case None => None
      case Some(prev) => Some(Write(d, filePath, Prepend(code, prev, Languages.GetCommentSyntax(filePath))))
    else if policy == AppendN then
      var q := HandleAppendN(d, filePath);
      Some(Write(d, q, code))
    else if policy == MoveToBackup then
      if Exists(d, filePath) && !BackupRaises(d, filePath) then
        var (p, d') := HandleBackupDir(d, filePath);
        Some(Write(d', filePath, code))
      else None
    else Some(d)
  }

  // ---------------------------------------------------------------------------
  // extract_code_blocks, one block at a time

  /** What happened to one block: skipped before a path was resolved,
      injected into or written to the resolved path, or abandoned there when
      the write failed. */
  datatype Outcome = Skipped | Injected(path: string) | Written(path: string) | Failed(path: string)

  /** `safe_write_file` succeeds: the path and its backup name are each
      absent or a readable file. */
  predicate CanSafeWrite(d: Disk, path: string) {
    && (Exists(d, path) ==> Read(d, path).Some?)
    && (Exists(d, path + ".bak") ==> Read(d, path + ".bak").Some?)
  }

  /** `safe_write_file`: an existing file is copied to `<path>.bak`, the new
      content is written, and the copy is deleted.  Opening an entry that is
      not a readable file fails: with an existing path nothing changes; with
      a new path the content is written, but deleting a `<path>.bak`
      directory raises, and so does renaming it back, so it stays. */
  function SafeWriteFile(d: Disk, path: string, content: string): (r: (bool, Disk))
    requires ValidDisk(d)
    ensures ValidDisk(r.1) && r.1.cwd == d.cwd
    ensures var bak := path + ".bak";
            && (r.0 <==> CanSafeWrite(d, path))
            && (r.0 ==> Read(r.1, path) == Some(content) && !Exists(r.1, bak))
            && (!r.0 && Exists(d, path) ==> r.1 == d)
            && (!r.0 && !Exists(d, path) ==>
                  Read(r.1, path) == Some(content) && Read(r.1, bak) == Read(d, bak) && Exists(r.1, bak))
    ensures forall q :: Key(d, q) != Key(d, path) && Key(d, q) != Key(d, path + ".bak") ==>
              Read(r.1, q) == Read(d, q) && (Exists(r.1, q) <==> Exists(d, q))
  {
    var bak := path + ".bak";
    KeyOfBak(d, path);
    if Exists(d, path) then
      match Read(d, path)
      case None => (false, d)
      case Some(existing) =>
        if Exists(d, bak) && Read(d, bak).None? then (false, d)
        else
          var copied := Write(d, bak, existing);
          var written := Write(copied, path, content);
          (true, Remove(written, bak))
    else
      var written := Write(d, path, content);
      if !Exists(written, bak) then (true, written)
      else if Read(written, bak).None? then (false, written)
      else (true, Remove(written, bak))
  }

  /** Creating the parent directory of the output path when it is missing
      (`os.makedirs`, so with its ancestors). */
  function EnsureParent(d: Disk, path: string): (r: Disk)
    ensures ValidDisk(d) ==> ValidDisk(r)
    ensures r.cwd == d.cwd && r.files == d.files
    ensures DirName(path) != "" ==> Exists(r, DirName(path))
    ensures forall q :: Exists(d, q) ==> Exists(r, q)
    ensures forall q :: Exists(r, q) && !Exists(d, q) ==> Key(d, q) <= Key(d, DirName(path))
  {
    if DirName(path) != "" && !Exists(d, DirName(path)) then MakeDirs(d, DirName(path)) else d
  }

  /** The body of the loop of `extract_code_blocks` for one block: resolve
      the file name, drop ignored blocks, resolve the output path (which may
      rename or move an existing file), create its parent directory, inject
      into an existing file when injection is on and a point is found, and
      otherwise write the stripped body through `safe_write_file`.  A
      skipped block changes no file and removes no entry; it only adds the
      backup directory when the move raised.  After the resolution only the
      output path and its backup name change, and the only entries created
      are the output path and its parent directories. */
  function ProcessBlock(d: Disk, outputDir: string, ident: string, code: string, preceding: Option<string>,
                        s: Settings, extract: string -> Option<string>): (r: (Outcome, Disk))
    requires ValidDisk(d)
    ensures ValidDisk(r.1)
    ensures var filename := FilenameFromBlock(ident, code, preceding, extract);
            r.0.Skipped? <==>
              || filename.None?
              || ShouldIgnoreBlock(s.blocksIgnored, code, filename)
              || ResolveOutputPath(d, outputDir, filename.value, s.conflictPolicy).path.None?
    ensures r.0.Skipped? ==> r.1.cwd == d.cwd && r.1.files == d.files && d.entries <= r.1.entries
    ensures var filename := FilenameFromBlock(ident, code, preceding, extract);
            r.0.Skipped? && r.1 != d ==>
              && filename.Some? && s.conflictPolicy == MoveToBackup
              && var out := PJoin(NormPath(outputDir), NormPath(filename.value));
                 Exists(d, out) && BackupRaises(d, out) && r.1 == WithBackupDir(d, out)
    ensures !r.0.Skipped? ==>
              var res := ResolveOutputPath(d, outputDir, FilenameFromBlock(ident, code, preceding, extract).value, s.conflictPolicy);
              var out := r.0.path;
              var prev := Read(res.disk, out);
              && res.path == Some(out)
              && IsWithinDirectory(d.cwd, NormPath(outputDir), out)
              && (r.0.Injected? <==>
                    !UnderFile(res.disk, out) && s.attemptInjection && prev.Some?
                    && InjectCodeBlock(out, prev.value, Strip(code)).Some?)
              && (r.0.Written? <==> !r.0.Injected? && WriteSucceeds(res.disk, out))
              && (r.0.Injected? ==> Read(r.1, out) == InjectCodeBlock(out, prev.value, Strip(code)))
              && (r.0.Written? ==> Read(r.1, out) == Some(Strip(code)) && !Exists(r.1, out + ".bak"))
              && (r.0.Failed? && Exists(res.disk, out) ==> Read(r.1, out) == Read(res.disk, out))
              && (!r.0.Written? ==> Read(r.1, out + ".bak") == Read(res.disk, out + ".bak")
                                    && (Exists(r.1, out + ".bak") <==> Exists(res.disk, out + ".bak")))
              && WriteFrame(res.disk, r.1, out)
              && (!UnderFile(res.disk, out) && DirName(out) != "" ==> Exists(r.1, DirName(out)))
    ensures !s.attemptInjection ==> !r.0.Injected?
  {
    var filename := FilenameFromBlock(ident, code, preceding, extract);
    if filename.None? then (Skipped, d)
    else if ShouldIgnoreBlock(s.blocksIgnored, code, filename) then (Skipped, d)
    else
      var res := ResolveOutputPath(d, outputDir, filename.value, s.conflictPolicy);
      match res.path
      case None => (Skipped, res.disk)
      case Some(out) => WriteBlock(res.disk, out, code, s.attemptInjection)
  }

  /** Writing the stripped body to `out` succeeds: no file above it, and
      `safe_write_file` can open the path and its backup name once the
      parent exists. */
  ghost predicate WriteSucceeds(d: Disk, out: string) {
    !UnderFile(d, out) && CanSafeWrite(EnsureParent(d, out), out)
  }

  /** What a write step at `out` may change from `d` to `r`: only the texts
      at `out` and at its backup name; no entry but the backup name is
      removed; the only new entries are `out` and the directories at or
      above its parent. */
  ghost predicate WriteFrame(d: Disk, r: Disk, out: string) {
    && r.cwd == d.cwd
    && (forall q :: Key(d, q) != Key(d, out) && Key(d, q) != Key(d, out + ".bak") ==> Read(r, q) == Read(d, q))
    && (forall q :: Exists(d, q) && Key(d, q) != Key(d, out + ".bak") ==> Exists(r, q))
    && (forall q :: Exists(r, q) && !Exists(d, q) ==> Key(d, q) == Key(d, out) || Key(d, q) <= Key(d, DirName(out)))
  }

  /** The write step for a resolved output path: nothing happens under a
      file; otherwise create the parent, inject into the existing file when
      asked and possible, and otherwise write the stripped body through
      `safe_write_file`.  The backup name only changes when the write
      succeeds, and then it is gone. */
  function WriteBlock(d: Disk, out: string, code: string, attempt: bool): (r: (Outcome, Disk))
    requires ValidDisk(d)
    ensures ValidDisk(r.1) && !r.0.Skipped? && r.0.path == out
    ensures UnderFile(d, out) ==> r == (Failed(out), d)
    ensures !UnderFile(d, out) ==>
              var d1 := EnsureParent(d, out);
              var prev := Read(d, out);
              && (r.0.Injected? <==> attempt && prev.Some? && InjectCodeBlock(out, prev.value, Strip(code)).Some?)
              && (r.0.Written? <==> !r.0.Injected? && CanSafeWrite(d1, out))
              && (r.0.Injected? ==> Read(r.1, out) == InjectCodeBlock(out, prev.value, Strip(code)))
              && (r.0.Written? ==> Read(r.1, out) == Some(Strip(code)) && !Exists(r.1, out + ".bak"))
              && (r.0.Failed? && Exists(d1, out) ==> r.1 == d1)
              && (r.0.Failed? && !Exists(d1, out) ==> Read(r.1, out) == Some(Strip(code)))
              && (DirName(out) != "" ==> Exists(r.1, DirName(out)))
    ensures !r.0.Written? ==>
              Read(r.1, out + ".bak") == Read(d, out + ".bak") && (Exists(r.1, out + ".bak") <==> Exists(d, out + ".bak"))
    ensures r.0.Failed? && Exists(d, out) ==> Read(r.1, out) == Read(d, out)
    ensures WriteFrame(d, r.1, out)
  {
    if UnderFile(d, out) then (Failed(out), d)
    else
      var d1 := EnsureParent(d, out);
      ParentFrame(d, out);
      var injected :=
        if Exists(d1, out) && attempt then
          match Read(d1, out)
          case None => None
          case Some(prev) => InjectCodeBlock(out, prev, Strip(code))
        else None;
      match injected
      case Some(text) =>
        FrameAfterWrite(d, d1, out, text);
        (Injected(out), Write(d1, out, text))
      case None =>
        var w := SafeWriteFile(d1, out, Strip(code));
        FrameAfterSafeWrite(d, d1, out, Strip(code));
        (if w.0 then Written(out) else Failed(out), w.1)
  }

  /** Creating the parent keeps the frame and leaves the backup name alone. */
  lemma ParentFrame(d: Disk, out: string)
    requires ValidDisk(d)
    ensures var d1 := EnsureParent(d, out);
            && WriteFrame(d, d1, out)
            && Read(d1, out) == Read(d, out)
            && Read(d1, out + ".bak") == Read(d, out + ".bak")
            && (Exists(d1, out + ".bak") <==> Exists(d, out + ".bak"))
  {
    KeyOfBak(d, out);
  }

  lemma FrameAfterWrite(d: Disk, d1: Disk, out: string, text: string)
    requires ValidDisk(d1) && WriteFrame(d, d1, out)
    ensures WriteFrame(d, Write(d1, out, text), out)
    ensures Read(Write(d1, out, text), out + ".bak") == Read(d1, out + ".bak")
    ensures Exists(Write(d1, out, text), out + ".bak") <==> Exists(d1, out + ".bak")
    ensures Exists(d1, DirName(out)) ==> Exists(Write(d1, out, text), DirName(out))
  {
    KeyOfBak(d, out);
  }

  lemma FrameAfterSafeWrite(d: Disk, d1: Disk, out: string, content: string)
    requires ValidDisk(d1) && WriteFrame(d, d1, out)
    ensures WriteFrame(d, SafeWriteFile(d1, out, content).1, out)
    ensures Exists(d1, DirName(out)) ==> Exists(SafeWriteFile(d1, out, content).1, DirName(out))
  {
    KeyOfBak(d1, out);
  }

  /** A block never changes the text of a file outside the output
      directory, nor removes an entry there, nor touches the output
      directory itself, provided the output directory exists as a directory
      (as `extract_code_blocks` makes sure before the loop): a path strictly
      inside keeps its backup name inside, and a path naming the directory
      itself cannot be written. */
  lemma ProcessBlockStaysInside(d: Disk, outputDir: string, ident: string, code: string, preceding: Option<string>,
                                s: Settings, extract: string -> Option<string>, q: string)
    requires ValidDisk(d) && Exists(d, NormPath(outputDir)) && Read(d, NormPath(outputDir)).None?
    requires !StrictlyWithin(d.cwd, NormPath(outputDir), q)
    ensures var r := ProcessBlock(d, outputDir, ident, code, preceding, s, extract);
            Read(r.1, q) == Read(d, q) && (Exists(d, q) ==> Exists(r.1, q))
  {
    var base := NormPath(outputDir);
    var r := ProcessBlock(d, outputDir, ident, code, preceding, s, extract);
    if !r.0.Skipped? {
      var out := r.0.path;
      var res := ResolveOutputPath(d, outputDir, FilenameFromBlock(ident, code, preceding, extract).value, s.conflictPolicy);
      assert !StrictlyWithin(d.cwd, base, base);
      assert r == WriteBlock(res.disk, out, code, s.attemptInjection);
      WriteStaysInside(res.disk, base, out, code, s.attemptInjection, q);
    }
  }

  /** The write step at a path inside an existing directory leaves every
      path not strictly inside it alone. */
  lemma WriteStaysInside(d: Disk, base: string, out: string, code: string, attempt: bool, q: string)
    requires ValidDisk(d) && Exists(d, base) && Read(d, base).None?
    requires IsWithinDirectory(d.cwd, base, out) && !StrictlyWithin(d.cwd, base, q)
    ensures var r := WriteBlock(d, out, code, attempt);
            Read(r.1, q) == Read(d, q) && (Exists(d, q) ==> Exists(r.1, q))
  {
    var r := WriteBlock(d, out, code, attempt);
    if StrictlyWithin(d.cwd, base, out) {
      BakStrictlyWithin(d.cwd, base, out);
      NotStrictlyDiffers(d, base, q, out);
      NotStrictlyDiffers(d, base, q, out + ".bak");
      WriteFrameKeeps(d, r.1, out, q);
    } else {
      assert Key(d, out) == Key(d, base);
      WriteOverDirectory(d, out, code, attempt);
    }
  }

  /** Writing over an existing directory fails and only adds directories. */
  lemma WriteOverDirectory(d: Disk, out: string, code: string, attempt: bool)
    requires ValidDisk(d) && Exists(d, out) && Read(d, out).None?
    ensures var r := WriteBlock(d, out, code, attempt);
            r.0 == Failed(out) && r.1.cwd == d.cwd && r.1.files == d.files && d.entries <= r.1.entries
  {
  }

  /** A write frame keeps the text and the entry of any path other than the
      written one and its backup name. */
  lemma WriteFrameKeeps(d: Disk, r: Disk, out: string, q: string)
    requires WriteFrame(d, r, out) && Key(d, q) != Key(d, out) && Key(d, q) != Key(d, out + ".bak")
    ensures Read(r, q) == Read(d, q) && (Exists(d, q) ==> Exists(r, q))
  {
  }

  /** A path not strictly inside a directory names something else than any
      path strictly inside it. */
  lemma NotStrictlyDiffers(d: Disk, directory: string, q: string, p: string)
    requires IsAbs(d.cwd) && !StrictlyWithin(d.cwd, directory, q) && StrictlyWithin(d.cwd, directory, p)
    ensures Key(d, q) != Key(d, p)
  {
    IsWithinIff(d.cwd, directory, q);
    IsWithinIff(d.cwd, directory, p);
  }

  /** Whatever `handle_file_conflicts` says, a block that is not injected
      replaces the file at the resolved path with its stripped body whenever
      the write succeeds: with the default `prepend_and_comment` the old
      content is not kept.  Otherwise the block fails at that path. */
  lemma ConflictPolicyNotApplied(d: Disk, outputDir: string, ident: string, code: string, preceding: Option<string>,
                                 s: Settings, extract: string -> Option<string>)
    requires ValidDisk(d) && s.conflictPolicy == PrependAndComment && !s.attemptInjection
    requires var filename := FilenameFromBlock(ident, code, preceding, extract);
             filename.Some? && !ShouldIgnoreBlock(s.blocksIgnored, code, filename)
             && IsWithinDirectory(d.cwd, NormPath(outputDir), PJoin(NormPath(outputDir), NormPath(filename.value)))
    ensures var out := PJoin(NormPath(outputDir), NormPath(FilenameFromBlock(ident, code, preceding, extract).value));
            var r := ProcessBlock(d, outputDir, ident, code, preceding, s, extract);
            && (r.0 == Written(out) <==> WriteSucceeds(d, out))
            && (!WriteSucceeds(d, out) ==> r.0 == Failed(out))
            && (r.0 == Written(out) ==> Read(r.1, out) == Some(Strip(code)))
  {
    var filename := FilenameFromBlock(ident, code, preceding, extract).value;
    var out := PJoin(NormPath(outputDir), NormPath(filename));
    var res := ResolveOutputPath(d, outputDir, filename, s.conflictPolicy);
    assert res.path == Some(out);
    var r := ProcessBlock(d, outputDir, ident, code, preceding, s, extract);
    assert !r.0.Skipped? && !r.0.Injected?;
  }

  /** One pass of the loop in `extract_code_blocks`: block `i` processed,
      with the line above its fence, on disk `dd`.  The loop only takes it
      on a valid disk with `i` naming a block of the document; anywhere else
      it changes nothing. */
  function Step(content: string, blocks: seq<Block>, outputDir: string, s: Settings,
                extract: string -> Option<string>): (r: (Disk, nat) -> (Outcome, Disk))
    ensures forall dd: Disk, i: nat :: ValidDisk(dd) ==> ValidDisk(r(dd, i).1)
  {
    (dd: Disk, i: nat) =>
      if ValidDisk(dd) && i < |blocks| && blocks[i].start <= |content| then
        var b := blocks[i];
        ProcessBlock(dd, outputDir, b.ident, b.body, PrecedingLine(content, b.start), s, extract)
      else (Skipped, dd)
  }

  /** The loop from pass `k` up to `n`, each pass on the disk the one
      before it left. */
  function RunFrom(f: (Disk, nat) -> (Outcome, Disk), d: Disk, k: nat, n: nat): (r: (seq<Outcome>, Disk))
    requires k <= n
    ensures |r.0| == n - k
    decreases n - k
  {
    if k == n then ([], d)
    else
      var (o, d1) := f(d, k);
      var (os, d2) := RunFrom(f, d1, k + 1, n);
      ([o] + os, d2)
  }

  /** The disk after the first `n` passes, read from the front: pass
      `n - 1` runs on the disk the passes before it left. */
  function After(f: (Disk, nat) -> (Outcome, Disk), d: Disk, n: nat): Disk
    decreases n
  {
    if n == 0 then d else f(After(f, d, n - 1), n - 1).1
  }

  /** The loop from pass `k` on, started on the disk the first `k` passes
      left, yields pass `k + j`'s outcome on the disk before it at position
      `j`, and ends on the disk all passes leave. */
  lemma {:induction false} RunFromFold(f: (Disk, nat) -> (Outcome, Disk), d: Disk, k: nat, n: nat)
    requires k <= n
    ensures var r := RunFrom(f, After(f, d, k), k, n);
            && r.1 == After(f, d, n)
            && forall j :: 0 <= j < n - k ==> r.0[j] == f(After(f, d, k + j), k + j).0
    decreases n - k
  {
    if k < n {
      var dk := After(f, d, k);
      var p := f(dk, k);
      assert p.1 == After(f, d, k + 1);
      RunFromFold(f, d, k + 1, n);
      var rest := RunFrom(f, p.1, k + 1, n);
      var r := RunFrom(f, dk, k, n);
      assert r == ([p.0] + rest.0, rest.1);
      forall j | 0 <= j < n - k
        ensures r.0[j] == f(After(f, d, k + j), k + j).0
      {
        if j > 0 {
          assert r.0[j] == rest.0[j - 1];
          assert k + 1 + (j - 1) == k + j;
        }
      }
    }
  }

  /** A pass that keeps disks valid keeps them valid over the whole loop. */
  lemma {:induction false} RunKeepsValid(f: (Disk, nat) -> (Outcome, Disk), d: Disk, k: nat, n: nat)
    requires k <= n && ValidDisk(d)
    requires forall dd: Disk, i: nat :: ValidDisk(dd) ==> ValidDisk(f(dd, i).1)
    ensures ValidDisk(RunFrom(f, d, k, n).1)
    decreases n - k
  {
    if k < n {
      RunKeepsValid(f, f(d, k).1, k + 1, n);
    }
  }

  /** The same for the disk after the first `n` passes. */
  lemma {:induction false} AfterKeepsValid(f: (Disk, nat) -> (Outcome, Disk), d: Disk, n: nat)
    requires ValidDisk(d)
    requires forall dd: Disk, i: nat :: ValidDisk(dd) ==> ValidDisk(f(dd, i).1)
    ensures ValidDisk(After(f, d, n))
    decreases n
  {
    if n > 0 {
      AfterKeepsValid(f, d, n - 1);
    }
  }

  /** The start of `extract_code_blocks`: a missing output directory is
      created with its ancestors; `None` where `os.makedirs` raises (an empty
      name, or a file above the directory), which ends the run.  An existing
      output directory is used as it is. */
  function PrepareOutputDir(d: Disk, outputDir: string): (r: Option<Disk>)
    requires ValidDisk(d)
    ensures r.None? <==> outputDir == "" || (!Exists(d, outputDir) && UnderFile(d, outputDir))
    ensures r.Some? ==>
              && ValidDisk(r.value) && r.value.cwd == d.cwd && r.value.files == d.files
              && Exists(r.value, outputDir)
              && forall e :: e in r.value.entries <==> e in d.entries || (!Exists(d, outputDir) && e <= Key(d, outputDir))
  {
    if outputDir == "" then None
    else if Exists(d, outputDir) then Some(d)
    else if UnderFile(d, outputDir) then None
    else Some(MakeDirs(d, outputDir))
  }

  /** `extract_code_blocks`: the output directory is created when missing
      (`None`, the source's `False`, where that raises), then every block the
      scanner finds is processed in document order, each on the disk the one
      before it left, with one outcome per block.  A document without blocks
      only creates the output directory. */
  function ExtractCodeBlocks(d: Disk, content: string, outputDir: string, s: Settings,
                             extract: string -> Option<string>): (r: Option<(seq<Outcome>, Disk)>)
    requires ValidDisk(d)
    ensures r.None? <==> outputDir == "" || (!Exists(d, outputDir) && UnderFile(d, outputDir))
    ensures r.Some? ==> |r.value.0| == |Blocks(content)| && ValidDisk(r.value.1)
    ensures r.Some? && Blocks(content) == [] ==>
              && r.value.1.files == d.files && Exists(r.value.1, outputDir)
              && forall e :: e in r.value.1.entries <==> e in d.entries || (!Exists(d, outputDir) && e <= Key(d, outputDir))
  {
    match PrepareOutputDir(d, outputDir)
    case None => None
    case Some(d0) =>
      var blocks := Blocks(content);
      var f := Step(content, blocks, outputDir, s, extract);
      RunKeepsValid(f, d0, 0, |blocks|);
      Some(RunFrom(f, d0, 0, |blocks|))
  }

  lemma BlocksInside(content: string)
    ensures forall i :: 0 <= i < |Blocks(content)| ==> Blocks(content)[i].start <= |content|
  {
  }

  /** The disk after the first `n` blocks, each processed on the disk the
      ones before it left. */
  function DiskAfter(d: Disk, content: string, blocks: seq<Block>, n: nat, outputDir: string,
                     s: Settings, extract: string -> Option<string>): (r: Disk)
    requires ValidDisk(d)
    ensures ValidDisk(r)
  {
    var f := Step(content, blocks, outputDir, s, extract);
    AfterKeepsValid(f, d, n);
    After(f, d, n)
  }

  /** What happens to block `i`: it is processed, with the line above its
      fence, on the disk the blocks before it left. */
  function OutcomeAt(d: Disk, content: string, blocks: seq<Block>, i: nat, outputDir: string,
                     s: Settings, extract: string -> Option<string>): Outcome
    requires ValidDisk(d) && i < |blocks| && blocks[i].start <= |content|
  {
    var b := blocks[i];
    ProcessBlock(DiskAfter(d, content, blocks, i, outputDir, s, extract), outputDir,
                 b.ident, b.body, PrecedingLine(content, b.start), s, extract).0
  }

  /** `extract_code_blocks` block by block: it runs exactly when the output
      directory can be prepared, and then outcome `i` is that of the `i`-th
      block the scanner finds, with the line above its fence, processed on
      the disk the output directory and the blocks before it left; the final
      disk is the one all blocks leave. */
  lemma ExtractEachBlock(d: Disk, content: string, outputDir: string, s: Settings, extract: string -> Option<string>)
    requires ValidDisk(d)
    ensures forall i :: 0 <= i < |Blocks(content)| ==> Blocks(content)[i].start <= |content|
    ensures var bs := Blocks(content);
            var d0 := PrepareOutputDir(d, outputDir);
            var r := ExtractCodeBlocks(d, content, outputDir, s, extract);
            && (r.Some? <==> d0.Some?)
            && (r.Some? ==>
                  && |r.value.0| == |bs|
                  && (forall i :: 0 <= i < |bs| ==> r.value.0[i] == OutcomeAt(d0.value, content, bs, i, outputDir, s, extract))
                  && r.value.1 == DiskAfter(d0.value, content, bs, |bs|, outputDir, s, extract))
  {
    BlocksInside(content);
    var d0 := PrepareOutputDir(d, outputDir);
    if d0.Some? {
      RunEachBlock(d0.value, content, Blocks(content), outputDir, s, extract);
    }
  }

  /** The loop over any list of blocks of the document, block by block. */
  lemma RunEachBlock(d: Disk, content: string, blocks: seq<Block>, outputDir: string, s: Settings,
                     extract: string -> Option<string>)
    requires ValidDisk(d)
    requires forall i :: 0 <= i < |blocks| ==> blocks[i].start <= |content|
    ensures var r := RunFrom(Step(content, blocks, outputDir, s, extract), d, 0, |blocks|);
            && (forall i :: 0 <= i < |blocks| ==> r.0[i] == OutcomeAt(d, content, blocks, i, outputDir, s, extract))
            && r.1 == DiskAfter(d, content, blocks, |blocks|, outputDir, s, extract)
  {
    var f := Step(content, blocks, outputDir, s, extract);
    assert After(f, d, 0) == d;
    RunFromFold(f, d, 0, |blocks|);
    forall i | 0 <= i < |blocks|
      ensures f(After(f, d, i), i).0 == OutcomeAt(d, content, blocks, i, outputDir, s, extract)
    {
      AfterKeepsValid(f, d, i);
    }
  }

  /** The whole of `extract_code_blocks` on an output directory that is not
      a file: creating it and processing every block never changes the text
      of a file outside it, nor removes an entry there, and the output
      directory is there at the end. */
  lemma ExtractCodeBlocksStaysInside(d: Disk, content: string, outputDir: string, s: Settings,
                                     extract: string -> Option<string>, q: string)
    requires ValidDisk(d) && Read(d, outputDir).None? && !StrictlyWithin(d.cwd, NormPath(outputDir), q)
    ensures var r := ExtractCodeBlocks(d, content, outputDir, s, extract);
            r.Some? ==> Read(r.value.1, q) == Read(d, q) && (Exists(d, q) ==> Exists(r.value.1, q))
                        && Exists(r.value.1, outputDir)
  {
    var r := ExtractCodeBlocks(d, content, outputDir, s, extract);
    if r.Some? {
      var d0 := PrepareOutputDir(d, outputDir).value;
      ResolveNormPath(d.cwd, outputDir);
      assert Key(d0, NormPath(outputDir)) == Key(d0, outputDir);
      ExtractEachBlock(d, content, outputDir, s, extract);
      ExtractStaysInside(d0, content, Blocks(content), |Blocks(content)|, outputDir, s, extract, q);
    }
  }

  /** The loop over the first `n` blocks, started with the output directory
      in place, never changes the text of a file outside it, nor removes an
      entry there, and keeps the output directory a directory. */
  lemma ExtractStaysInside(d: Disk, content: string, blocks: seq<Block>, n: nat, outputDir: string,
                           s: Settings, extract: string -> Option<string>, q: string)
    requires ValidDisk(d) && Exists(d, NormPath(outputDir)) && Read(d, NormPath(outputDir)).None?
    requires !StrictlyWithin(d.cwd, NormPath(outputDir), q)
    ensures var r := DiskAfter(d, content, blocks, n, outputDir, s, extract);
            && r.cwd == d.cwd && Read(r, q) == Read(d, q) && (Exists(d, q) ==> Exists(r, q))
            && Exists(r, NormPath(outputDir)) && Read(r, NormPath(outputDir)).None?
  {
    var base := NormPath(outputDir);
    var f := Step(content, blocks, outputDir, s, extract);
    assert !StrictlyWithin(d.cwd, base, base);
    forall dd: Disk, i: nat | ValidDisk(dd) && KeepsPath(d, dd, base)
      ensures KeepsPath(dd, f(dd, i).1, q) && KeepsPath(dd, f(dd, i).1, base)
    {
      StepStaysInside(dd, content, blocks, i, outputDir, s, extract, q);
      StepStaysInside(dd, content, blocks, i, outputDir, s, extract, base);
    }
    AfterKeepsPath(f, d, n, q, base);
  }

  /** `b` has the working directory of `a`, the same text at `q`, and still
      has `q` when `a` did. */
  predicate KeepsPath(a: Disk, b: Disk, q: string) {
    b.cwd == a.cwd && Read(b, q) == Read(a, q) && (Exists(a, q) ==> Exists(b, q))
  }

  /** A pass that keeps the paths `q` and `base` on every valid disk that
      still has `base` as it was keeps them both over the first `n`
      passes. */
  lemma {:induction false} AfterKeepsPath(f: (Disk, nat) -> (Outcome, Disk), d: Disk, n: nat, q: string, base: string)
    requires ValidDisk(d)
    requires forall dd: Disk, i: nat :: ValidDisk(dd) ==> ValidDisk(f(dd, i).1)
    requires forall dd: Disk, i: nat :: ValidDisk(dd) && KeepsPath(d, dd, base) ==>
               KeepsPath(dd, f(dd, i).1, q) && KeepsPath(dd, f(dd, i).1, base)
    ensures KeepsPath(d, After(f, d, n), q) && KeepsPath(d, After(f, d, n), base)
    decreases n
  {
    if n > 0 {
      AfterKeepsPath(f, d, n - 1, q, base);
      AfterKeepsValid(f, d, n - 1);
    }
  }

  /** One pass, with the output directory in place, keeps the working
      directory, every file outside the output directory, and every entry
      there. */
  lemma StepStaysInside(d: Disk, content: string, blocks: seq<Block>, i: nat, outputDir: string,
                        s: Settings, extract: string -> Option<string>, q: string)
    requires ValidDisk(d) && Exists(d, NormPath(outputDir)) && Read(d, NormPath(outputDir)).None?
    requires !StrictlyWithin(d.cwd, NormPath(outputDir), q)
    ensures var r := Step(content, blocks, outputDir, s, extract)(d, i).1;
            r.cwd == d.cwd && Read(r, q) == Read(d, q) && (Exists(d, q) ==> Exists(r, q))
  {
    if i < |blocks| && blocks[i].start <= |content| {
      var b := blocks[i];
      ProcessBlockStaysInside(d, outputDir, b.ident, b.body, PrecedingLine(content, b.start), s, extract, q);
      ProcessBlockKeepsCwd(d, outputDir, b.ident, b.body, PrecedingLine(content, b.start), s, extract);
    }
  }

  lemma ProcessBlockKeepsCwd(d: Disk, outputDir: string, ident: string, code: string, preceding: Option<string>,
                             s: Settings, extract: string -> Option<string>)
    requires ValidDisk(d)
    ensures ProcessBlock(d, outputDir, ident, code, preceding, s, extract).1.cwd == d.cwd
  {
  }

  /** A document with a single block is processed as that block alone, on
      the disk with the output directory in place. */
  lemma ExtractSingle(d: Disk, content: string, outputDir: string, s: Settings, extract: string -> Option<string>)
    requires ValidDisk(d) && |Blocks(content)| == 1
    ensures Blocks(content)[0].start <= |content|
    ensures var b := Blocks(content)[0];
            var d0 := PrepareOutputDir(d, outputDir);
            var r := ExtractCodeBlocks(d, content, outputDir, s, extract);
            && (r.Some? <==> d0.Some?)
            && (d0.Some? ==>
                  var p := ProcessBlock(d0.value, outputDir, b.ident, b.body, PrecedingLine(content, b.start), s, extract);
                  r == Some(([p.0], p.1)))
  {
    BlocksInside(content);
    var blocks := Blocks(content);
    var b := blocks[0];
    var d0 := PrepareOutputDir(d, outputDir);
    if d0.Some? {
      var p := ProcessBlock(d0.value, outputDir, b.ident, b.body, PrecedingLine(content, b.start), s, extract);
      var f := Step(content, blocks, outputDir, s, extract);
      assert RunFrom(f, p.1, 1, 1) == ([], p.1);
      assert [p.0] + [] == [p.0];
    }
  }

  /** A block whose identifier holds a dot, that is kept and whose path
      resolves, overwrites the resolved path with its stripped body when
      injection is off and the write succeeds, and fails there otherwise. */
  lemma WrittenByIdent(d: Disk, outputDir: string, ident: string, code: string, preceding: Option<string>,
                       s: Settings, extract: string -> Option<string>)
    requires ValidDisk(d) && '.' in ident && !s.attemptInjection
    requires !ShouldIgnoreBlock(s.blocksIgnored, code, Some(NormalizePath(ident)))
    requires ResolveOutputPath(d, outputDir, NormalizePath(ident), s.conflictPolicy).path.Some?
    ensures var res := ResolveOutputPath(d, outputDir, NormalizePath(ident), s.conflictPolicy);
            var out := res.path.value;
            var r := ProcessBlock(d, outputDir, ident, code, preceding, s, extract);
            && (r.0 == Written(out) <==> WriteSucceeds(res.disk, out))
            && (!WriteSucceeds(res.disk, out) ==> r.0 == Failed(out))
            && (r.0 == Written(out) ==> Read(r.1, out) == Some(Strip(code)))
  {
    var filename := FilenameFromBlock(ident, code, preceding, extract);
    assert filename == Some(NormalizePath(ident));
    var r := ProcessBlock(d, outputDir, ident, code, preceding, s, extract);
    assert !r.0.Skipped? && !r.0.Injected?;
  }

  /** The scanner finds exactly one block in an `on_fence` block: the path
      and the content with its trailing whitespace replaced by a newline. */
  lemma OnFenceBlock(path: string, content: string)
    requires MarkdownGen.Packable(path, content)
    ensures var bs := Blocks(MarkdownGen.FormatMarkdownBlock(path, content, "on_fence"));
            |bs| == 1 && bs[0].ident == path && bs[0].body == RStrip(content) + "\n"
  {
    var bs := Blocks(MarkdownGen.FormatMarkdownBlock(path, content, "on_fence"));
    MarkdownGen.FormatRoundTrip(path, content, "on_fence");
    assert Project(bs)[0] == (bs[0].ident, bs[0].body);
  }

  /** Pack one file with `on_fence` and unpack the result: the run goes
      ahead exactly when the output directory can be prepared; the only
      block names the file, and unless it is dropped, escapes, is injected or
      cannot be written, the file ends up holding the packed content
      stripped. */
  lemma PackThenUnpack(d: Disk, path: string, content: string, outputDir: string, s: Settings,
                       extract: string -> Option<string>)
    requires ValidDisk(d) && MarkdownGen.Packable(path, content) && '.' in path
    requires !s.attemptInjection
    requires !ShouldIgnoreBlock(s.blocksIgnored, RStrip(content) + "\n", Some(NormalizePath(path)))
    ensures var doc := MarkdownGen.FormatMarkdownBlock(path, content, "on_fence");
            var d0 := PrepareOutputDir(d, outputDir);
            var r := ExtractCodeBlocks(d, doc, outputDir, s, extract);
            && (r.Some? <==> d0.Some?)
            && (d0.Some? && ResolveOutputPath(d0.value, outputDir, NormalizePath(path), s.conflictPolicy).path.Some? ==>
                  var res := ResolveOutputPath(d0.value, outputDir, NormalizePath(path), s.conflictPolicy);
                  var out := res.path.value;
                  && (r.value.0 == [Written(out)] <==> WriteSucceeds(res.disk, out))
                  && (r.value.0 == [Written(out)] ==> Read(r.value.1, out) == Some(Strip(content))))
  {
    var doc := MarkdownGen.FormatMarkdownBlock(path, content, "on_fence");
    OnFenceBlock(path, content);
    ExtractSingle(d, doc, outputDir, s, extract);
    var d0 := PrepareOutputDir(d, outputDir);
    if d0.Some? && ResolveOutputPath(d0.value, outputDir, NormalizePath(path), s.conflictPolicy).path.Some? {
      var b := Blocks(doc)[0];
      WrittenByIdent(d0.value, outputDir, b.ident, b.body, PrecedingLine(doc, b.start), s, extract);
      MarkdownGen.PackedBodyStrips(content);
    }
  }
}
