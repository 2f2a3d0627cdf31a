/**
 * The pure helpers of the per-project settings handler: the settings file
 * name derived from a directory, indenting and unindenting a code block,
 * and picking the settings fence out of a markdown document.
 */
module ProjectSettings {
  import opened PyStr
  import opened PosixPath
  import opened FenceScanner

  const SettingsSuffix := ".sublime-settings"

  /** `get_settings_filename`: the directory's last name (trailing slashes
      ignored) followed by ".sublime-settings". */
  function SettingsFilename(directory: string): (r: string)
    ensures |r| >= |SettingsSuffix| && r[|r| - |SettingsSuffix|..] == SettingsSuffix
    ensures var name := r[..|r| - |SettingsSuffix|];
            '/' !in name && var d := RStripChar(directory, '/');
            |name| <= |d| && name == d[|d| - |name|..]
            && (|name| == |d| || d[|d| - |name| - 1] == '/')
  {
    var name := BaseName(RStripChar(directory, '/'));
    assert (name + SettingsSuffix)[..|name|] == name;
    name + SettingsSuffix
  }

  /** Trailing separators do not change the settings name, and a directory
      `parent/name` gives `name.sublime-settings`. */
  lemma SettingsFilenameOf(parent: string, name: string, trailing: nat)
    requires '/' !in name && name != ""
    ensures SettingsFilename(parent + "/" + name + Slashes(trailing)) == name + SettingsSuffix
  {
    var d := parent + "/" + name;
    RStripSlashes(d, trailing);
    RFindLastName(parent, name);
  }

  lemma {:induction false} RStripSlashes(d: string, k: nat)
    requires d != [] && d[|d| - 1] != '/'
    ensures RStripChar(d + Slashes(k), '/') == d
    decreases k
  {
    if k == 0 {
      assert d + Slashes(0) == d;
    } else {
      assert d + Slashes(k) == (d + Slashes(k - 1)) + "/";
      assert (d + Slashes(k))[..|d + Slashes(k)| - 1] == d + Slashes(k - 1);
      RStripSlashes(d, k - 1);
    }
  }

  lemma RFindLastName(parent: string, name: string)
    requires '/' !in name
    ensures BaseName(parent + "/" + name) == name
  {
    var p := parent + "/" + name;
    var k := RFind(p, '/');
    assert p[|parent|] == '/';
    assert forall j :: |parent| < j < |p| ==> p[j] == name[j - |parent| - 1];
    assert k == |parent|;
    assert p[k + 1..] == name;
  }

  // ---------------------------------------------------------------------------
  // indent / unindent

  function Spaces(n: nat): (r: string)
    ensures |r| == n && IsBlank(r) && '\n' !in r
    ensures forall i :: 0 <= i < n ==> r[i] == ' '
  {
    seq(n, _ => ' ')
  }

  /** `' ' * spaces`: a negative count gives the empty string. */
  function Pad(spaces: int): string {
    Spaces(if spaces < 0 then 0 else spaces)
  }

  function PrefixAll(pad: string, lines: seq<string>): (r: seq<string>)
    ensures |r| == |lines|
    ensures forall i :: 0 <= i < |lines| ==> r[i] == pad + lines[i]
  {
    seq(|lines|, i requires 0 <= i < |lines| => pad + lines[i])
  }

  /** `indent_code_block`: every line, empty ones included, gets the same
      number of leading spaces; the lines themselves are kept. */
  function IndentCodeBlock(content: string, spaces: int): (r: string)
    ensures var lines := Split(content, '\n');
            |Split(r, '\n')| == |lines|
            && forall i :: 0 <= i < |lines| ==> Split(r, '\n')[i] == Pad(spaces) + lines[i]
  {
    var lines := Split(content, '\n');
    var out := PrefixAll(Pad(spaces), lines);
    assert forall i :: 0 <= i < |out| ==> '\n' !in out[i] by {
      forall i | 0 <= i < |out| ensures '\n' !in out[i] {
        assert out[i] == Pad(spaces) + lines[i];
      }
    }
    SplitJoin(out, '\n');
    Join(out, '\n')
  }

  /** The least indentation over the non-blank lines, or `None` when every
      line is blank (the source's `float('inf')`). */
  function MinIndent(lines: seq<string>): (r: Option<nat>)
    ensures r.None? <==> forall i :: 0 <= i < |lines| ==> IsBlank(lines[i])
    ensures r.Some? ==> forall i :: 0 <= i < |lines| && !IsBlank(lines[i]) ==> r.value <= IndentWidth(lines[i])
    decreases |lines|
  {
    if lines == [] then None
    else
      var rest := MinIndent(lines[1..]);
      assert forall i :: 1 <= i < |lines| ==> lines[i] == lines[1..][i - 1];
      if IsBlank(lines[0]) then rest
      else
        var w := IndentWidth(lines[0]);
        if rest.None? || w <= rest.value then Some(w) else rest
  }

  /** The least indentation is the indentation of some non-blank line. */
  lemma {:induction false} MinIndentAttained(lines: seq<string>)
    requires MinIndent(lines).Some?
    ensures exists i :: 0 <= i < |lines| && !IsBlank(lines[i]) && IndentWidth(lines[i]) == MinIndent(lines).value
    decreases |lines|
  {
    var m := MinIndent(lines).value;
    var rest := MinIndent(lines[1..]);
    if !IsBlank(lines[0]) && m == IndentWidth(lines[0]) {
      assert 0 < |lines|;
    } else {
      assert rest == MinIndent(lines);
      MinIndentAttained(lines[1..]);
      var j :| 0 <= j < |lines[1..]| && !IsBlank(lines[1..][j]) && IndentWidth(lines[1..][j]) == m;
      assert lines[j + 1] == lines[1..][j];
    }
  }

  /** Drops `m` leading characters from every non-blank line. */
  function DropIndent(lines: seq<string>, m: nat): (r: seq<string>)
    requires forall i :: 0 <= i < |lines| && !IsBlank(lines[i]) ==> m <= |lines[i]|
    ensures |r| == |lines|
    ensures forall i :: 0 <= i < |lines| && IsBlank(lines[i]) ==> r[i] == lines[i]
    ensures forall i :: 0 <= i < |lines| && !IsBlank(lines[i]) ==> r[i] == lines[i][m..]
  {
    seq(|lines|, i requires 0 <= i < |lines| => if IsBlank(lines[i]) then lines[i] else lines[i][m..])
  }

  /** `unindent_code_block`.  Content whose lines are all blank comes back
      unchanged; otherwise the line count is kept and blank lines are left
      alone (`UnindentLosesMinimum` says what happens to the others). */
  function UnindentCodeBlock(content: string): (r: string)
    ensures var lines := Split(content, '\n');
            (forall i :: 0 <= i < |lines| ==> IsBlank(lines[i])) ==> r == content
    ensures var lines := Split(content, '\n');
            var out := Split(r, '\n');
            && |out| == |lines|
            && (forall i :: 0 <= i < |lines| && IsBlank(lines[i]) ==> out[i] == lines[i])
  {
    var lines := Split(content, '\n');
    match MinIndent(lines)
    case None =>
      JoinSplit(content, '\n');
      content
    case Some(m) =>
      var out := DropIndent(lines, m);
      SplitJoin(out, '\n');
      Join(out, '\n')
  }

  /** Every non-blank line loses exactly the least indentation, which is
      whitespace, and some non-blank line ends up with none. */
  lemma UnindentLosesMinimum(content: string)
    requires exists i :: 0 <= i < |Split(content, '\n')| && !IsBlank(Split(content, '\n')[i])
    ensures var lines := Split(content, '\n');
            var out := Split(UnindentCodeBlock(content), '\n');
            && MinIndent(lines).Some?
            && (forall i :: 0 <= i < |lines| && !IsBlank(lines[i]) ==>
                  var m := MinIndent(lines).value;
                  m <= |lines[i]| && IsBlank(lines[i][..m]) && out[i] == lines[i][m..])
            && exists j :: 0 <= j < |out| && !IsBlank(out[j]) && IndentWidth(out[j]) == 0
  {
    var lines := Split(content, '\n');
    var m := MinIndent(lines).value;
    UnindentLines(content);
    MinIndentAttained(lines);
    var j :| 0 <= j < |lines| && !IsBlank(lines[j]) && IndentWidth(lines[j]) == m;
    DropMinimum(lines, m, j);
  }

  /** Dropping the least indentation `m`, reached at line `j`. */
  lemma DropMinimum(lines: seq<string>, m: nat, j: nat)
    requires forall i :: 0 <= i < |lines| && !IsBlank(lines[i]) ==> m <= IndentWidth(lines[i]) && m <= |lines[i]|
    requires j < |lines| && !IsBlank(lines[j]) && IndentWidth(lines[j]) == m
    ensures var out := DropIndent(lines, m);
            && (forall i :: 0 <= i < |lines| && !IsBlank(lines[i]) ==>
                  m <= |lines[i]| && IsBlank(lines[i][..m]) && out[i] == lines[i][m..])
            && exists j :: 0 <= j < |out| && !IsBlank(out[j]) && IndentWidth(out[j]) == 0
  {
    var out := DropIndent(lines, m);
    forall i | 0 <= i < |lines| && !IsBlank(lines[i])
      ensures IsBlank(lines[i][..m])
    {
      IndentPrefixBlank(lines[i], m);
    }
    assert out[j] == lines[j][m..];
    DropWholeIndent(lines[j]);
  }

  lemma UnindentLines(content: string)
    requires MinIndent(Split(content, '\n')).Some?
    ensures var lines := Split(content, '\n');
            Split(UnindentCodeBlock(content), '\n') == DropIndent(lines, MinIndent(lines).value)
  {
    var lines := Split(content, '\n');
    SplitJoin(DropIndent(lines, MinIndent(lines).value), '\n');
  }

  lemma IndentPrefixBlank(line: string, m: nat)
    requires m <= IndentWidth(line)
    ensures IsBlank(line[..m])
  {
    IndentWidthShape(line);
    assert line[..m] == line[..IndentWidth(line)][..m];
  }

  /** Removing exactly the indentation of a non-blank line leaves a line
      that is still non-blank and starts with a non-space. */
  lemma DropWholeIndent(line: string)
    requires !IsBlank(line)
    ensures var rest := line[IndentWidth(line)..];
            !IsBlank(rest) && IndentWidth(rest) == 0
  {
    var rest := line[IndentWidth(line)..];
    IndentWidthShape(line);
  }

  /** A blank prefix adds its width to a non-blank line's indentation. */
  lemma {:induction false} IndentWidthOfPadded(pad: string, line: string)
    requires IsBlank(pad) && !IsBlank(line)
    ensures !IsBlank(pad + line)
    ensures IndentWidth(pad + line) == |pad| + IndentWidth(line)
    decreases |pad|
  {
    if pad == [] {
      assert pad + line == line;
    } else {
      assert (pad + line)[1..] == pad[1..] + line;
      IndentWidthOfPadded(pad[1..], line);
    }
  }

  lemma PaddedBlank(pad: string, line: string)
    requires IsBlank(pad)
    ensures IsBlank(pad + line) <==> IsBlank(line)
  {
    if IsBlank(pad + line) {
      assert forall i :: 0 <= i < |line| ==> line[i] == (pad + line)[|pad| + i];
    }
  }

  /** What padding does to one line: blankness is kept and a non-blank
      line's indentation grows by the padding's width. */
  lemma PaddedLine(pad: string, line: string)
    requires IsBlank(pad)
    ensures IsBlank(pad + line) <==> IsBlank(line)
    ensures !IsBlank(line) ==> IndentWidth(pad + line) == |pad| + IndentWidth(line)
    ensures (pad + line)[|pad|..] == line
  {
    PaddedBlank(pad, line);
    if !IsBlank(line) {
      IndentWidthOfPadded(pad, line);
    }
  }

  /** The least indentation of padded lines is the padding's width when
      some original non-blank line had none. */
  lemma MinIndentOfPadded(lines: seq<string>, mid: seq<string>, n: nat, j: nat)
    requires |mid| == |lines| && j < |lines|
    requires forall i :: 0 <= i < |lines| ==> (IsBlank(mid[i]) <==> IsBlank(lines[i]))
    requires forall i :: 0 <= i < |lines| && !IsBlank(lines[i]) ==> IndentWidth(mid[i]) == n + IndentWidth(lines[i])
    requires !IsBlank(lines[j]) && IndentWidth(lines[j]) == 0
    ensures MinIndent(mid) == Some(n)
  {
    var m := MinIndent(mid);
    assert !IsBlank(mid[j]) && IndentWidth(mid[j]) == n;
    assert m.Some?;
    assert m.value <= n;
    assert forall i :: 0 <= i < |mid| && !IsBlank(mid[i]) ==> n <= IndentWidth(mid[i]) by {
      forall i | 0 <= i < |mid| && !IsBlank(mid[i]) ensures n <= IndentWidth(mid[i]) {
        assert !IsBlank(lines[i]);
      }
    }
    MinIndentAtLeast(mid, n);
    SomeOfValue(m, n);
  }

  lemma SomeOfValue(m: Option<nat>, n: nat)
    requires m.Some? && m.value == n
    ensures m == Some(n)
  {
  }

  /** A bound every non-blank line's indentation meets is met by the least. */
  lemma MinIndentAtLeast(lines: seq<string>, n: nat)
    requires MinIndent(lines).Some?
    requires forall i :: 0 <= i < |lines| && !IsBlank(lines[i]) ==> n <= IndentWidth(lines[i])
    ensures n <= MinIndent(lines).value
  {
    MinIndentAttained(lines);
  }

  /** Unindenting an indented block restores every non-blank line when one
      of them had no indentation; blank lines keep the added spaces. */
  lemma IndentUnindent(content: string, n: nat)
    requires exists j :: 0 <= j < |Split(content, '\n')| && !IsBlank(Split(content, '\n')[j])
                         && IndentWidth(Split(content, '\n')[j]) == 0
    ensures var lines := Split(content, '\n');
            var out := Split(UnindentCodeBlock(IndentCodeBlock(content, n)), '\n');
            |out| == |lines|
            && forall i :: 0 <= i < |lines| ==> out[i] == (if IsBlank(lines[i]) then Spaces(n) + lines[i] else lines[i])
  {
    var lines := Split(content, '\n');
    var ind := IndentCodeBlock(content, n);
    var mid := Split(ind, '\n');
    PaddedLines(content, n);
    var j :| 0 <= j < |lines| && !IsBlank(lines[j]) && IndentWidth(lines[j]) == 0;
    MinIndentOfPadded(lines, mid, n, j);
    UnindentLosesMinimum(ind);
    UnindentPadded(lines, mid, Split(UnindentCodeBlock(ind), '\n'), n);
  }

  /** The lines of an indented block, one by one. */
  lemma PaddedLines(content: string, n: nat)
    ensures var lines := Split(content, '\n');
            var mid := Split(IndentCodeBlock(content, n), '\n');
            && |mid| == |lines|
            && forall i :: 0 <= i < |lines| ==>
                 && mid[i] == Spaces(n) + lines[i]
                 && (IsBlank(mid[i]) <==> IsBlank(lines[i]))
                 && (!IsBlank(lines[i]) ==> IndentWidth(mid[i]) == n + IndentWidth(lines[i]))
                 && mid[i][n..] == lines[i]
  {
    var lines := Split(content, '\n');
    var mid := Split(IndentCodeBlock(content, n), '\n');
    forall i | 0 <= i < |lines|
      ensures IsBlank(mid[i]) <==> IsBlank(lines[i])
      ensures !IsBlank(lines[i]) ==> IndentWidth(mid[i]) == n + IndentWidth(lines[i])
      ensures mid[i][n..] == lines[i]
    {
      PaddedLine(Spaces(n), lines[i]);
    }
  }

  /** Unindenting padded lines by the padding's width. */
  lemma UnindentPadded(lines: seq<string>, mid: seq<string>, out: seq<string>, n: nat)
    requires |mid| == |lines| && |out| == |mid|
    requires forall i :: 0 <= i < |lines| ==>
               && mid[i] == Spaces(n) + lines[i]
               && (IsBlank(mid[i]) <==> IsBlank(lines[i]))
               && mid[i][n..] == lines[i]
    requires forall i :: 0 <= i < |mid| && IsBlank(mid[i]) ==> out[i] == mid[i]
    requires forall i :: 0 <= i < |mid| && !IsBlank(mid[i]) && n <= |mid[i]| ==> out[i] == mid[i][n..]
    ensures forall i :: 0 <= i < |lines| ==> out[i] == (if IsBlank(lines[i]) then Spaces(n) + lines[i] else lines[i])
  {
  }

  // ---------------------------------------------------------------------------
  // settings fence

  /** Whether block `b` is the settings block: its stripped identifier
      contains the settings file name and its stripped body parses. */
  predicate Qualifies<J>(b: Block, name: string, parse: string -> Option<J>) {
    Contains(Strip(b.ident), name) && parse(Strip(b.body)).Some?
  }

  /** The index of the first element of `xs` at or after `from` that
      satisfies `ok`. */
  function FirstWhere<T>(xs: seq<T>, ok: T -> bool, from: nat): (r: Option<nat>)
    requires from <= |xs|
    ensures r.Some? ==> from <= r.value < |xs| && ok(xs[r.value])
    ensures r.Some? ==> forall k :: from <= k < r.value ==> !ok(xs[k])
    ensures r.None? ==> forall k :: from <= k < |xs| ==> !ok(xs[k])
    decreases |xs| - from
  {
    if from == |xs| then None
    else if ok(xs[from]) then Some(from)
    else FirstWhere(xs, ok, from + 1)
  }

  /** The settings value chosen among `blocks`: the parse of the first
      block, in order, whose stripped identifier contains `name` and whose
      stripped body parses; blocks that do not parse are passed over. */
  function SettingsFromBlocks<J(==)>(blocks: seq<Block>, name: string, parse: string -> Option<J>): (r: Option<J>)
    ensures r.None? ==> forall i :: 0 <= i < |blocks| ==> !Qualifies(blocks[i], name, parse)
    ensures r.Some? ==> exists i :: 0 <= i < |blocks| && Qualifies(blocks[i], name, parse)
                          && (forall k :: 0 <= k < i ==> !Qualifies(blocks[k], name, parse))
                          && r == parse(Strip(blocks[i].body))
  {
    match FirstWhere(blocks, b => Qualifies(b, name, parse), 0)
    case None => None
    case Some(i) => parse(Strip(blocks[i].body))
  }

  /** `extract_settings_from_markdown`: the settings chosen among the
      document's fences for the directory's settings file name.  `parse`
      stands for `json.loads`, `None` for a decode error. */
  function ExtractSettingsFromMarkdown<J(==)>(content: string, directory: string, parse: string -> Option<J>): (r: Option<J>)
    ensures var bs := Blocks(content);
            r.None? <==> forall i :: 0 <= i < |bs| ==> !Qualifies(bs[i], SettingsFilename(directory), parse)
    ensures var bs := Blocks(content);
            r.Some? ==> exists i :: 0 <= i < |bs| && Qualifies(bs[i], SettingsFilename(directory), parse)
                          && (forall k :: 0 <= k < i ==> !Qualifies(bs[k], SettingsFilename(directory), parse))
                          && r == parse(Strip(bs[i].body))
  {
    SettingsFromBlocks(Blocks(content), SettingsFilename(directory), parse)
  }

  /** A later fence is chosen only when every earlier one fails to qualify,
      whatever their order in the document. */
  lemma SettingsFromBlocksSkips<J>(before: seq<Block>, b: Block, name: string, parse: string -> Option<J>)
    requires forall i :: 0 <= i < |before| ==> !Qualifies(before[i], name, parse)
    requires Qualifies(b, name, parse)
    ensures SettingsFromBlocks(before + [b], name, parse) == parse(Strip(b.body))
  {
    var xs := before + [b];
    var ok := c => Qualifies(c, name, parse);
    assert forall i :: 0 <= i < |before| ==> xs[i] == before[i] && !ok(xs[i]);
    assert xs[|before|] == b && ok(b);
    var w := FirstWhere(xs, ok, 0);
    assert w == Some(|before|);
  }
}
