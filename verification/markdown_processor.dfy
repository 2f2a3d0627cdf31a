/**
 * The pack direction: how one file becomes a fenced block
 * (`format_markdown_block`), how a directory becomes one markdown document
 * (`generate_markdown_content`), the tree-line format
 * (`format_tree_line`), and what the unpack scanner finds again in such a
 * document.
 */
module MarkdownGen {
  import opened PyStr
  import opened PosixPath
  import opened Config
  import opened FenceScanner
  import Languages

  const BeforeFence := "before_fence"
  const AfterFence := "after_fence"

  // ---------------------------------------------------------------------------
  // format_markdown_block

  /** The lines `format_markdown_block` joins with newlines: the naming lines
      of the convention (every value other than "before_fence" and
      "after_fence" is read as "on_fence"), the content without its trailing
      whitespace, the closing fence and an empty line. */
  function BlockLines(filePath: string, content: string, convention: string): (r: seq<string>)
    ensures |r| == if convention == BeforeFence || convention == AfterFence then 5 else 4
    ensures r[|r| - 3] == RStrip(content) && r[|r| - 2] == Fence && r[|r| - 1] == ""
  {
    NamingLines(filePath, convention) + [RStrip(content), Fence, ""]
  }

  /** The lines before the content: the path and the opening fence, in the
      order the convention says. */
  function NamingLines(filePath: string, convention: string): (r: seq<string>)
    ensures |r| == if convention == BeforeFence || convention == AfterFence then 2 else 1
  {
    if convention == BeforeFence then [filePath, Fence + Languages.GetFileLanguage(filePath)]
    else if convention == AfterFence then [Fence + Languages.GetFileLanguage(filePath), "// " + filePath]
    else [Fence + filePath]
  }

  /** The same block as plain text and fenced pieces: before_fence puts the
      path on its own line above a fence tagged with the language,
      after_fence makes "// path" the first body line under that fence, and
      on_fence writes the path on the fence itself.  The body is always the
      right-stripped content plus the newline before the closing fence. */
  function BlockSegments(filePath: string, content: string, convention: string): seq<Segment> {
    var body := RStrip(content) + "\n";
    var lang := Languages.GetFileLanguage(filePath);
    if convention == BeforeFence then [Text(filePath + "\n"), Fenced(lang, body), Text("\n")]
    else if convention == AfterFence then [Fenced(lang, "// " + filePath + "\n" + body), Text("\n")]
    else [Fenced(filePath, body), Text("\n")]
  }

  /** `format_markdown_block`; `FormatIsRender` states what it writes. */
  function FormatMarkdownBlock(filePath: string, content: string, convention: string): string {
    Join(BlockLines(filePath, content, convention), '\n')
  }

  lemma FormatIsRender(filePath: string, content: string, convention: string)
    ensures FormatMarkdownBlock(filePath, content, convention) == Render(BlockSegments(filePath, content, convention))
  {
    var rc := RStrip(content);
    var lang := Languages.GetFileLanguage(filePath);
    if convention == BeforeFence {
      BeforeFenceText(filePath, lang, rc);
    } else if convention == AfterFence {
      AfterFenceText(filePath, lang, rc);
    } else {
      OnFenceText(filePath, rc);
    }
  }

  lemma OnFenceText(filePath: string, rc: string)
    ensures Join([Fence + filePath] + [rc, Fence, ""], '\n') == Render([Fenced(filePath, rc + "\n"), Text("\n")])
  {
    Join3(rc, Fence, "");
    JoinCons(Fence + filePath, [rc, Fence, ""]);
    Render2(Fenced(filePath, rc + "\n"), Text("\n"));
    OnFenceAssoc(Fence, filePath, rc);
  }

  lemma OnFenceAssoc(f: string, p: string, rc: string)
    ensures f + p + "\n" + (rc + "\n" + f + "\n" + "") == f + p + "\n" + (rc + "\n") + f + "\n"
  {
  }

  lemma BeforeFenceText(filePath: string, lang: string, rc: string)
    ensures Join([filePath, Fence + lang] + [rc, Fence, ""], '\n')
            == Render([Text(filePath + "\n"), Fenced(lang, rc + "\n"), Text("\n")])
  {
    Join3(rc, Fence, "");
    Join2Plus(filePath, Fence + lang, [rc, Fence, ""]);
    Render3(Text(filePath + "\n"), Fenced(lang, rc + "\n"), Text("\n"));
    BeforeFenceAssoc(filePath, Fence, lang, rc);
  }

  lemma BeforeFenceAssoc(p: string, f: string, lang: string, rc: string)
    ensures p + "\n" + (f + lang) + "\n" + (rc + "\n" + f + "\n" + "")
            == (p + "\n") + (f + lang + "\n" + (rc + "\n") + f) + "\n"
  {
  }

  lemma AfterFenceText(filePath: string, lang: string, rc: string)
    ensures Join([Fence + lang, "// " + filePath] + [rc, Fence, ""], '\n')
            == Render([Fenced(lang, "// " + filePath + "\n" + (rc + "\n")), Text("\n")])
  {
    Join3(rc, Fence, "");
    Join2Plus(Fence + lang, "// " + filePath, [rc, Fence, ""]);
    Render2(Fenced(lang, "// " + filePath + "\n" + (rc + "\n")), Text("\n"));
    AfterFenceAssoc(Fence, lang, "// " + filePath, rc);
  }

  lemma AfterFenceAssoc(f: string, lang: string, q: string, rc: string)
    ensures f + lang + "\n" + q + "\n" + (rc + "\n" + f + "\n" + "")
            == f + lang + "\n" + (q + "\n" + (rc + "\n")) + f + "\n"
  {
  }

  lemma JoinCons(x: string, rest: seq<string>)
    requires rest != []
    ensures Join([x] + rest, '\n') == x + "\n" + Join(rest, '\n')
  {
    assert ([x] + rest)[1..] == rest;
  }

  lemma Join3(a: string, b: string, c: string)
    ensures Join([a, b, c], '\n') == a + "\n" + b + "\n" + c
  {
    JoinCons(a, [b, c]);
    JoinCons(b, [c]);
  }

  lemma Join2Plus(a: string, b: string, rest: seq<string>)
    requires rest != []
    ensures Join([a, b] + rest, '\n') == a + "\n" + b + "\n" + Join(rest, '\n')
  {
    assert [a, b] + rest == [a] + ([b] + rest);
    JoinCons(a, [b] + rest);
    JoinCons(b, rest);
  }

  lemma Render2(g: Segment, h: Segment)
    ensures Render([g, h]) == SegmentText(g) + SegmentText(h)
  {
    assert [g, h][1..] == [h];
    assert [h][1..] == [];
    assert Render([h]) == SegmentText(h) + "" == SegmentText(h);
  }

  lemma Concat3<T>(a: seq<T>, b: seq<T>, c: seq<T>)
    ensures a + (b + c) == a + b + c
  {
  }

  lemma Render3(g: Segment, h: Segment, k: Segment)
    ensures Render([g, h, k]) == SegmentText(g) + SegmentText(h) + SegmentText(k)
  {
    assert [g, h, k][1..] == [h, k];
    assert Render([g, h, k]) == SegmentText(g) + Render([h, k]);
    Render2(h, k);
    Concat3(SegmentText(g), SegmentText(h), SegmentText(k));
  }

  /** What the unpack scanner reads back from one formatted block: its
      identifier and its body. */
  function PackedFence(filePath: string, content: string, convention: string): (string, string) {
    var body := RStrip(content) + "\n";
    if convention == BeforeFence then (Languages.GetFileLanguage(filePath), body)
    else if convention == AfterFence then (Languages.GetFileLanguage(filePath), "// " + filePath + "\n" + body)
    else (filePath, body)
  }

  /** A path and a content that survive a round trip through one block: the
      path holds no newline and neither holds a fence. */
  predicate Packable(filePath: string, content: string) {
    '\n' !in filePath && !Contains(filePath, Fence) && !Contains(content, Fence)
  }

  predicate GroupsWellFormed(groups: seq<seq<Segment>>) {
    forall k :: 0 <= k < |groups| ==> AllWellFormed(groups[k])
  }

  /** The pieces of a formatted block are well formed whenever path and
      content are packable, and its only fenced piece is what the scanner
      reads back. */
  lemma BlockSegmentsWellFormed(filePath: string, content: string, convention: string)
    requires Packable(filePath, content)
    ensures var segs := BlockSegments(filePath, content, convention);
            AllWellFormed(segs) && Fences(segs) == [PackedFence(filePath, content, convention)]
  {
    var rc := RStrip(content);
    var lang := Languages.GetFileLanguage(filePath);
    RStripNoFence(content);
    LanguageHasNoNewline(filePath);
    if convention == BeforeFence {
      BeforeFencePieces(filePath, lang, rc);
    } else if convention == AfterFence {
      AfterFencePieces(filePath, lang, rc);
    } else {
      OnFencePieces(filePath, rc);
    }
  }

  /** The only fenced piece of a formatted block is the one the scanner
      reads back, whatever the path and content. */
  lemma BlockFences(filePath: string, content: string, convention: string)
    ensures Fences(BlockSegments(filePath, content, convention)) == [PackedFence(filePath, content, convention)]
  {
    var segs := BlockSegments(filePath, content, convention);
    if convention == BeforeFence {
      assert segs[1..] == [segs[1], segs[2]];
      FencesTwo(segs[1], segs[2]);
      assert [segs[1]][1..] == [];
    } else {
      FencesTwo(segs[0], segs[1]);
      assert [segs[0]][1..] == [];
    }
  }

  lemma RStripNoFence(content: string)
    requires !Contains(content, Fence)
    ensures !Contains(RStrip(content), Fence)
  {
    RStripShape(content);
    NoFenceInPrefix(content, |RStrip(content)|);
  }

  lemma OnFencePieces(filePath: string, rc: string)
    requires '\n' !in filePath && !Contains(rc, Fence)
    ensures var segs := [Fenced(filePath, rc + "\n"), Text("\n")];
            AllWellFormed(segs) && Fences(segs) == [(filePath, rc + "\n")]
  {
    var segs := [Fenced(filePath, rc + "\n"), Text("\n")];
    CleanLine(rc);
    CleanText("\n");
    assert WellFormed(segs[0]) && WellFormed(segs[1]);
    FencesTwo(segs[0], segs[1]);
    assert [segs[0]][1..] == [];
  }

  lemma FencesTwo(g: Segment, h: Segment)
    requires h.Text?
    ensures Fences([g, h]) == Fences([g])
  {
    assert [g, h][1..] == [h];
    assert [h][1..] == [];
    assert [g][1..] == [];
  }

  lemma BeforeFencePieces(filePath: string, lang: string, rc: string)
    requires '\n' !in lang && !Contains(filePath, Fence) && !Contains(rc, Fence)
    ensures var segs := [Text(filePath + "\n"), Fenced(lang, rc + "\n"), Text("\n")];
            AllWellFormed(segs) && Fences(segs) == [(lang, rc + "\n")]
  {
    var segs := [Text(filePath + "\n"), Fenced(lang, rc + "\n"), Text("\n")];
    CleanLine(filePath);
    CleanLine(rc);
    CleanText("\n");
    assert WellFormed(segs[0]) && WellFormed(segs[1]) && WellFormed(segs[2]);
    assert segs[1..] == [segs[1], segs[2]];
    FencesTwo(segs[1], segs[2]);
    assert [segs[1]][1..] == [];
  }

  lemma AfterFencePieces(filePath: string, lang: string, rc: string)
    requires '\n' !in lang && !Contains(filePath, Fence) && !Contains(rc, Fence)
    ensures var segs := [Fenced(lang, "// " + filePath + "\n" + (rc + "\n")), Text("\n")];
            AllWellFormed(segs) && Fences(segs) == [(lang, "// " + filePath + "\n" + (rc + "\n"))]
  {
    var segs := [Fenced(lang, "// " + filePath + "\n" + (rc + "\n")), Text("\n")];
    CleanLine(filePath);
    CleanLine(rc);
    CleanText("// ");
    CleanText("\n");
    CleanAppend("// ", filePath + "\n");
    CleanAppend("// " + (filePath + "\n"), rc + "\n");
    assert "// " + (filePath + "\n") + (rc + "\n") == "// " + filePath + "\n" + (rc + "\n");
    assert WellFormed(segs[0]) && WellFormed(segs[1]);
    FencesTwo(segs[0], segs[1]);
    assert [segs[0]][1..] == [];
  }

  /** Pack then unpack, one block: the scanner finds exactly one block, and
      it carries the identifier and body `PackedFence` names; with on_fence
      these are the path and the right-stripped content. */
  lemma FormatRoundTrip(filePath: string, content: string, convention: string)
    requires Packable(filePath, content)
    ensures Project(Blocks(FormatMarkdownBlock(filePath, content, convention))) == [PackedFence(filePath, content, convention)]
  {
    BlockSegmentsWellFormed(filePath, content, convention);
    FormatIsRender(filePath, content, convention);
    BlocksOfRender(BlockSegments(filePath, content, convention));
  }

  /** What the unpack direction writes for a block, `code.strip()`, is the
      stripped original content. */
  lemma PackedBodyStrips(content: string)
    ensures Strip(PackedFence("", content, "on_fence").1) == Strip(content)
  {
    RStripOfBlankSuffix(RStrip(content), "\n");
    StripOfRStrip(content);
  }

  /** With before_fence, the line just above the block's fence is the path,
      which is where the unpack direction looks for a file name. */
  lemma BeforeFencePrecedingLine(filePath: string, content: string)
    requires Packable(filePath, content)
    ensures var r := FormatMarkdownBlock(filePath, content, BeforeFence);
            |Blocks(r)| == 1 && Blocks(r)[0].start == |filePath| + 1
            && PrecedingLine(r, Blocks(r)[0].start) == Some(filePath)
  {
    var r := FormatMarkdownBlock(filePath, content, BeforeFence);
    var lang := Languages.GetFileLanguage(filePath);
    var body := RStrip(content) + "\n";
    FormatRoundTrip(filePath, content, BeforeFence);
    FormatIsRender(filePath, content, BeforeFence);
    RStripNoFence(content);
    CleanLine(RStrip(content));
    LanguageHasNoNewline(filePath);
    BeforeFenceSlices(filePath, lang, body);
    PathLineAboveBlock(r, filePath, lang, body);
  }

  /** A fenced segment right after a first line holding a path: the first
      block is that segment's, and its preceding line is the path. */
  lemma PathLineAboveBlock(r: string, filePath: string, lang: string, body: string)
    requires '\n' !in filePath && !Contains(filePath, Fence) && '\n' !in lang && Clean(body)
    requires var f := SegmentText(Fenced(lang, body));
             var k := |filePath| + 1;
             k + |f| <= |r| && r[..k] == filePath + "\n" && r[k..k + |f|] == f
    ensures Blocks(r) != [] && Blocks(r)[0].start == |filePath| + 1
    ensures PrecedingLine(r, |filePath| + 1) == Some(filePath)
  {
    var k := |filePath| + 1;
    LineHasNoFence(filePath, r);
    FencedIsMatchAt(r, k, lang, body);
    var b := Block(k, lang, body, k + Width(Fenced(lang, body)));
    FirstBlockAt(r, b);
    PrecedingAfterFirstLine(r, filePath);
  }

  /** Where the pieces of a before_fence block land. */
  lemma BeforeFenceSlices(filePath: string, lang: string, body: string)
    ensures var r := Render([Text(filePath + "\n"), Fenced(lang, body), Text("\n")]);
            var f := SegmentText(Fenced(lang, body));
            var k := |filePath| + 1;
            && k + |f| <= |r| && r[..k] == filePath + "\n" && r[k..k + |f|] == f
  {
    var line := filePath + "\n";
    var f := SegmentText(Fenced(lang, body));
    Render3(Text(line), Fenced(lang, body), Text("\n"));
    Middle(line, f, "\n");
  }

  lemma LineHasNoFence(line: string, r: string)
    requires !Contains(line, Fence)
    requires |line| + 1 <= |r| && r[..|line| + 1] == line + "\n"
    ensures forall j :: 0 <= j < |line| + 1 ==> !FenceAt(r, j)
  {
    CleanLine(line);
    assert r[0..0 + |line + "\n"|] == line + "\n";
    CleanHasNoFence(r, 0, line + "\n");
  }

  /** No match starts in the path line, so the first block is the one at
      the fence. */
  lemma FirstBlockAt(s: string, b: Block)
    requires IsMatch(s, b) && b.start <= |s|
    requires forall j :: 0 <= j < b.start ==> !FenceAt(s, j)
    ensures Blocks(s) != [] && Blocks(s)[0] == b
  {
    ScanSkipsFenceFree(s, 0, b.start);
    ScanAtMatch(s, b);
  }

  lemma PrecedingAfterFirstLine(s: string, line: string)
    requires '\n' !in line && |line| + 1 <= |s| && s[..|line| + 1] == line + "\n"
    ensures PrecedingLine(s, |line| + 1) == Some(line)
  {
    var pre := s[..|line| + 1];
    assert pre == line + ['\n'] + "";
    SplitAppend(line, "", '\n');
    SplitOfFree(line, '\n');
    assert Split(pre, '\n') == [line, ""];
    SplitLength(pre, '\n');
    assert CountChar(pre, '\n') == 1;
  }

  // ---------------------------------------------------------------------------
  // text free of fences

  /** A line without a fence, followed by its newline, is clean. */
  lemma CleanLine(x: string)
    requires !Contains(x, Fence)
    ensures Clean(x + "\n")
  {
    var t := x + "\n";
    forall p | 0 <= p < |t| ensures !FenceAt(t, p) {
      if p + 3 <= |x| {
        assert t[p..p + 3] == x[p..p + 3];
        FenceAtIsOccurrence(x, p);
        if FenceAt(x, p) {
          ContainsWitness(x, Fence, p);
        }
      }
    }
  }

  /** Text without backticks is clean. */
  lemma CleanText(t: string)
    requires '`' !in t
    ensures Clean(t)
  {
    assert forall i :: 0 <= i < |t| ==> t[i] in t;
  }

  /** Clean text stays clean when more clean text follows it. */
  lemma CleanAppend(a: string, b: string)
    requires Clean(a) && Clean(b)
    ensures Clean(a + b)
  {
    var t := a + b;
    forall p | 0 <= p < |t| ensures !FenceAt(t, p) {
      if p >= |a| {
        assert FenceAt(t, p) ==> FenceAt(b, p - |a|);
      } else if p + 3 <= |a| {
        assert FenceAt(t, p) ==> FenceAt(a, p);
      } else {
        assert t[|a| - 1] == a[|a| - 1];
      }
    }
  }

  /** A prefix of fence-free text is fence-free. */
  lemma NoFenceInPrefix(x: string, k: nat)
    requires k <= |x| && !Contains(x, Fence)
    ensures !Contains(x[..k], Fence)
  {
    ContainsIff(x[..k], Fence);
    forall j | OccursAt(x[..k], Fence, j) ensures false {
      assert x[..k][j..j + 3] == x[j..j + 3];
      ContainsWitness(x, Fence, j);
    }
  }

  /** The language tag of a path without newlines holds none either. */
  lemma LanguageHasNoNewline(filePath: string)
    requires '\n' !in filePath
    ensures '\n' !in Languages.GetFileLanguage(filePath)
  {
    var e := Languages.ExtNoDot(filePath);
    ExtHasNoNewline(filePath);
    LowerHasNoNewline(e);
    TableHasNoNewline();
  }

  lemma LowerHasNoNewline(e: string)
    requires '\n' !in e
    ensures '\n' !in Lower(e)
  {
    assert forall k :: 0 <= k < |Lower(e)| ==> Lower(e)[k] == LowerChar(e[k]);
  }

  lemma ExtHasNoNewline(filePath: string)
    requires '\n' !in filePath
    ensures '\n' !in Languages.ExtNoDot(filePath)
  {
    var sp := SplitExt(filePath);
    assert forall k :: 0 <= k < |sp.ext| ==> sp.ext[k] == filePath[|sp.root| + k];
  }

  lemma TableHasNoNewline()
    ensures forall k :: k in Languages.LanguageOf ==> '\n' !in Languages.LanguageOf[k]
  {
  }

  // ---------------------------------------------------------------------------
  // format_tree_line

  const LastConnector := "└── "
  const MidConnector := "├── "

  /** `format_tree_line`. */
  function FormatTreeLine(name: string, prefix: string, isLast: bool): (r: string)
    ensures |r| == |prefix| + 4 + |name|
    ensures r[..|prefix|] == prefix && r[|prefix| + 4..] == name
    ensures r[|prefix|..|prefix| + 4] == if isLast then LastConnector else MidConnector
  {
    var c := if isLast then LastConnector else MidConnector;
    var r := prefix + c + name;
    assert r[..|prefix|] == prefix && r[|prefix|..|prefix| + 4] == c && r[|prefix| + 4..] == name;
    r
  }

  /** A tree line determines its name and whether it closes its directory,
      given the width of its prefix. */
  lemma TreeLineInjective(n1: string, p1: string, l1: bool, n2: string, p2: string, l2: bool)
    requires |p1| == |p2| && FormatTreeLine(n1, p1, l1) == FormatTreeLine(n2, p2, l2)
    ensures n1 == n2 && p1 == p2 && l1 == l2
  {
    var c1 := if l1 then LastConnector else MidConnector;
    var c2 := if l2 then LastConnector else MidConnector;
    assert c1 == c2;
    assert LastConnector[0] != MidConnector[0];
  }

  // ---------------------------------------------------------------------------
  // generate_markdown_content

  const Title := "# Generated Markdown File\n"
  const StructureHeading := "# Directory Structure\n"
  const ContentsHeading := "# File Contents\n"

  /** The title line and, when the tree is wanted, its section. */
  function Header(withTree: bool, tree: string): seq<string> {
    [Title] + if withTree then [StructureHeading, Fence, tree, Fence + "\n", ContentsHeading] else []
  }

  /** The blocks of the files that could be read, in the order of `files`;
      a file that cannot be read (`read` gives `None`) is skipped. */
  function ReadAll(directory: string, files: seq<string>, read: string -> Option<string>, convention: string): (r: seq<string>)
    ensures |r| <= |files|
    decreases |files|
  {
    if files == [] then []
    else FileBlock(directory, files[0], read, convention) + ReadAll(directory, files[1..], read, convention)
  }

  /** The block of one listed file, or nothing when it cannot be read. */
  function FileBlock(directory: string, file: string, read: string -> Option<string>, convention: string): seq<string> {
    match read(PJoin(directory, file))
    case None => []
    case Some(c) => [FormatMarkdownBlock(file, c, convention)]
  }

  /** One more file adds its block at the end when it can be read, and
      nothing otherwise. */
  lemma {:induction false} ReadAllAppend(directory: string, files: seq<string>, f: string,
                                         read: string -> Option<string>, convention: string)
    ensures ReadAll(directory, files + [f], read, convention)
            == ReadAll(directory, files, read, convention) + FileBlock(directory, f, read, convention)
    decreases |files|
  {
    var last := FileBlock(directory, f, read, convention);
    if files != [] {
      var head := FileBlock(directory, files[0], read, convention);
      assert (files + [f])[1..] == files[1..] + [f] && (files + [f])[0] == files[0];
      ReadAllAppend(directory, files[1..], f, read, convention);
      assert ReadAll(directory, files + [f], read, convention)
             == head + (ReadAll(directory, files[1..], read, convention) + last);
      Concat3(head, ReadAll(directory, files[1..], read, convention), last);
    } else {
      assert [f][1..] == [];
      assert ReadAll(directory, [f], read, convention) == last + [];
    }
  }

  /** When every file can be read, there is one block per file, in order. */
  lemma {:induction false} ReadAllReadable(directory: string, files: seq<string>,
                                           read: string -> Option<string>, convention: string)
    requires forall i :: 0 <= i < |files| ==> read(PJoin(directory, files[i])).Some?
    ensures var r := ReadAll(directory, files, read, convention);
            |r| == |files|
            && forall i :: 0 <= i < |files| ==>
                 r[i] == FormatMarkdownBlock(files[i], read(PJoin(directory, files[i])).value, convention)
    decreases |files|
  {
    if files != [] {
      ReadAllReadable(directory, files[1..], read, convention);
      var r := ReadAll(directory, files, read, convention);
      var rest := ReadAll(directory, files[1..], read, convention);
      var c := read(PJoin(directory, files[0])).value;
      assert r == [FormatMarkdownBlock(files[0], c, convention)] + rest;
      forall i | 1 <= i < |files|
        ensures r[i] == FormatMarkdownBlock(files[i], read(PJoin(directory, files[i])).value, convention)
      {
        assert r[i] == rest[i - 1];
        assert files[1..][i - 1] == files[i];
      }
    }
  }

  /** `generate_markdown_content`: the header, then one block per readable
      file, joined by newlines.  `tree` stands for what
      `generate_directory_tree` produced; `read` reads a file. */
  function GenerateMarkdownContent(directory: string, files: seq<string>, s: Settings, tree: string,
                                   read: string -> Option<string>): (r: string)
    ensures |Title| <= |r| && r[..|Title|] == Title
  {
    var lines := Header(s.outputDirectoryTree, tree) + ReadAll(directory, files, read, s.namingConvention);
    JoinStartsWithFirst(lines);
    Join(lines, '\n')
  }

  lemma JoinStartsWithFirst(lines: seq<string>)
    requires lines != []
    ensures |lines[0]| <= |Join(lines, '\n')| && Join(lines, '\n')[..|lines[0]|] == lines[0]
  {
    if |lines| > 1 {
      assert lines == [lines[0]] + lines[1..];
      JoinCons(lines[0], lines[1..]);
    }
  }

  /** The identifiers and bodies the scanner reads back from the readable
      files' blocks, in order. */
  function Packed(directory: string, files: seq<string>, read: string -> Option<string>, convention: string): seq<(string, string)>
    decreases |files|
  {
    if files == [] then []
    else
      (match read(PJoin(directory, files[0]))
       case None => []
       case Some(c) => [PackedFence(files[0], c, convention)])
      + Packed(directory, files[1..], read, convention)
  }

  /** Every file name is packable with the content it reads as. */
  /** One listed file survives the round trip: its path and, when it is
      readable, its content. */
  predicate FilePackable(directory: string, file: string, read: string -> Option<string>) {
    Packable(file, match read(PJoin(directory, file)) case None => "" case Some(c) => c)
  }

  predicate AllPackable(directory: string, files: seq<string>, read: string -> Option<string>) {
    forall i :: 0 <= i < |files| ==> FilePackable(directory, files[i], read)
  }

  /** Pack then unpack, whole document: the scanner finds the tree as a
      nameless block exactly when the tree is output, then one block per
      readable file, in the order of `files`. */
  lemma GeneratedBlocks(directory: string, files: seq<string>, s: Settings, tree: string,
                        read: string -> Option<string>)
    requires AllPackable(directory, files, read)
    requires s.outputDirectoryTree ==> !Contains(tree, Fence)
    ensures Project(Blocks(GenerateMarkdownContent(directory, files, s, tree, read)))
            == (if s.outputDirectoryTree then [("", tree + "\n")] else [])
               + Packed(directory, files, read, s.namingConvention)
  {
    var segs := DocSegments(directory, files, s, tree, read);
    DocIsRender(directory, files, s, tree, read);
    DocWellFormed(directory, files, s, tree, read);
    DocFences(directory, files, s, tree, read);
    BlocksOfRender(segs);
  }

  // ---------------------------------------------------------------------------
  // the document as pieces

  function HeaderSegments(withTree: bool, tree: string): seq<Segment> {
    if withTree then [Text(Title + "\n" + StructureHeading + "\n"), Fenced("", tree + "\n"), Text("\n\n" + ContentsHeading)]
    else [Text(Title)]
  }

  /** The pieces of one listed file: one group when it is readable, none
      otherwise. */
  function ReadGroup(directory: string, file: string, read: string -> Option<string>, convention: string): seq<seq<Segment>> {
    match read(PJoin(directory, file))
    case None => []
    case Some(c) => [BlockSegments(file, c, convention)]
  }

  /** The file blocks' pieces, one group per readable file. */
  function FileGroups(directory: string, files: seq<string>, read: string -> Option<string>, convention: string): (r: seq<seq<Segment>>)
    decreases |files|
  {
    if files == [] then []
    else ReadGroup(directory, files[0], read, convention) + FileGroups(directory, files[1..], read, convention)
  }

  /** Groups joined the way `"\n".join` joins their texts. */
  function JoinSegs(groups: seq<seq<Segment>>): seq<Segment>
    decreases |groups|
  {
    if groups == [] then []
    else if |groups| == 1 then groups[0]
    else groups[0] + [Text("\n")] + JoinSegs(groups[1..])
  }

  function RenderAll(groups: seq<seq<Segment>>): (r: seq<string>)
    ensures |r| == |groups|
    ensures forall i :: 0 <= i < |groups| ==> r[i] == Render(groups[i])
    decreases |groups|
  {
    if groups == [] then [] else [Render(groups[0])] + RenderAll(groups[1..])
  }

  /** The header's pieces followed by the groups, as the document joins
      them. */
  function Assemble(hs: seq<Segment>, groups: seq<seq<Segment>>): seq<Segment> {
    hs + if groups == [] then [] else [Text("\n")] + JoinSegs(groups)
  }

  function DocSegments(directory: string, files: seq<string>, s: Settings, tree: string,
                       read: string -> Option<string>): seq<Segment>
  {
    Assemble(HeaderSegments(s.outputDirectoryTree, tree), FileGroups(directory, files, read, s.namingConvention))
  }

  lemma {:induction false} RenderAppend(a: seq<Segment>, b: seq<Segment>)
    ensures Render(a + b) == Render(a) + Render(b)
    decreases |a|
  {
    if a == [] {
      assert a + b == b;
    } else {
      assert (a + b)[1..] == a[1..] + b;
      RenderAppend(a[1..], b);
    }
  }

  lemma {:induction false} FencesAppend(a: seq<Segment>, b: seq<Segment>)
    ensures Fences(a + b) == Fences(a) + Fences(b)
    decreases |a|
  {
    if a == [] {
      assert a + b == b;
    } else {
      assert (a + b)[1..] == a[1..] + b;
      FencesAppend(a[1..], b);
    }
  }

  lemma NewlineNoFence()
    ensures Fences([Text("\n")]) == []
  {
    assert [Text("\n")][1..] == [];
  }

  lemma NewlinePiece()
    ensures Render([Text("\n")]) == "\n" && Fences([Text("\n")]) == [] && AllWellFormed([Text("\n")])
  {
    assert [Text("\n")][1..] == [];
    CleanText("\n");
  }

  lemma {:induction false} ReadAllIsRender(directory: string, files: seq<string>,
                                           read: string -> Option<string>, convention: string)
    ensures ReadAll(directory, files, read, convention) == RenderAll(FileGroups(directory, files, read, convention))
    decreases |files|
  {
    if files != [] {
      ReadAllIsRender(directory, files[1..], read, convention);
      var g := FileGroups(directory, files, read, convention);
      var rest := FileGroups(directory, files[1..], read, convention);
      match read(PJoin(directory, files[0]))
      case None =>
        assert g == rest;
      case Some(c) =>
        FormatIsRender(files[0], c, convention);
        assert g == [BlockSegments(files[0], c, convention)] + rest;
        assert g[1..] == rest;
    }
  }

  lemma {:induction false} JoinSegsRender(groups: seq<seq<Segment>>)
    ensures Render(JoinSegs(groups)) == Join(RenderAll(groups), '\n')
    decreases |groups|
  {
    if |groups| >= 2 {
      JoinSegsRender(groups[1..]);
      RenderAppend(groups[0] + [Text("\n")], JoinSegs(groups[1..]));
      RenderAppend(groups[0], [Text("\n")]);
      NewlinePiece();
      assert RenderAll(groups) == [Render(groups[0])] + RenderAll(groups[1..]);
      JoinCons(Render(groups[0]), RenderAll(groups[1..]));
    } else if |groups| == 1 {
      assert RenderAll(groups) == [Render(groups[0])];
    }
  }

  /** The header with its tree section, for any title, headings and tree. */
  lemma TreeHeaderRender(title: string, structure: string, tree: string, contents: string)
    ensures Join([title, structure] + [Fence, tree, Fence + "\n", contents], '\n')
            == Render([Text(title + "\n" + structure + "\n"), Fenced("", tree + "\n"), Text("\n\n" + contents)])
  {
    var rest := [Fence, tree, Fence + "\n", contents];
    Join2Plus(title, structure, rest);
    assert rest == [Fence, tree] + [Fence + "\n", contents];
    Join2Plus(Fence, tree, [Fence + "\n", contents]);
    JoinCons(Fence + "\n", [contents]);
    Render3(Text(title + "\n" + structure + "\n"), Fenced("", tree + "\n"), Text("\n\n" + contents));
    TreeHeaderAssoc(title + "\n" + structure + "\n", Fence, tree, contents);
  }

  lemma TreeHeaderAssoc(head: string, f: string, tree: string, contents: string)
    ensures head + (f + "\n" + tree + "\n" + (f + "\n" + "\n" + contents))
            == head + (f + "" + "\n" + (tree + "\n") + f) + ("\n\n" + contents)
  {
  }

  lemma HeaderIsRender(withTree: bool, tree: string)
    ensures Join(Header(withTree, tree), '\n') == Render(HeaderSegments(withTree, tree))
  {
    var h := Header(withTree, tree);
    var g := HeaderSegments(withTree, tree);
    if withTree {
      assert h == [Title, StructureHeading] + [Fence, tree, Fence + "\n", ContentsHeading];
      TreeHeaderRender(Title, StructureHeading, tree, ContentsHeading);
    } else {
      assert h == [Title];
      assert g[1..] == [];
    }
  }

  /** Joining the header lines and the blocks is rendering the assembled
      pieces. */
  lemma AssembleRender(h: seq<string>, hs: seq<Segment>, groups: seq<seq<Segment>>)
    requires h != [] && Join(h, '\n') == Render(hs)
    ensures Join(h + RenderAll(groups), '\n') == Render(Assemble(hs, groups))
  {
    var blocks := RenderAll(groups);
    if groups == [] {
      assert h + blocks == h;
      assert Assemble(hs, groups) == hs;
    } else {
      JoinAppend(h, blocks, '\n');
      JoinSegsRender(groups);
      RenderAppend(hs, [Text("\n")] + JoinSegs(groups));
      RenderAppend([Text("\n")], JoinSegs(groups));
      NewlinePiece();
    }
  }

  lemma DocIsRender(directory: string, files: seq<string>, s: Settings, tree: string,
                    read: string -> Option<string>)
    ensures GenerateMarkdownContent(directory, files, s, tree, read) == Render(DocSegments(directory, files, s, tree, read))
  {
    ReadAllIsRender(directory, files, read, s.namingConvention);
    HeaderIsRender(s.outputDirectoryTree, tree);
    AssembleRender(Header(s.outputDirectoryTree, tree), HeaderSegments(s.outputDirectoryTree, tree),
                   FileGroups(directory, files, read, s.namingConvention));
  }

  lemma ReadGroupWellFormed(directory: string, file: string, read: string -> Option<string>, convention: string)
    requires FilePackable(directory, file, read)
    ensures GroupsWellFormed(ReadGroup(directory, file, read, convention))
  {
    match read(PJoin(directory, file))
    case None =>
    case Some(c) =>
      BlockSegmentsWellFormed(file, c, convention);
  }

  lemma {:induction false} FileGroupsWellFormed(directory: string, files: seq<string>,
                                                read: string -> Option<string>, convention: string)
    requires AllPackable(directory, files, read)
    ensures GroupsWellFormed(FileGroups(directory, files, read, convention))
    decreases |files|
  {
    if files != [] {
      assert forall i :: 0 <= i < |files| - 1 ==> files[1..][i] == files[i + 1];
      FileGroupsWellFormed(directory, files[1..], read, convention);
      assert FilePackable(directory, files[0], read);
      ReadGroupWellFormed(directory, files[0], read, convention);
      GroupsAppendWellFormed(ReadGroup(directory, files[0], read, convention), FileGroups(directory, files[1..], read, convention));
    }
  }

  lemma GroupsAppendWellFormed(a: seq<seq<Segment>>, b: seq<seq<Segment>>)
    requires GroupsWellFormed(a) && GroupsWellFormed(b)
    ensures GroupsWellFormed(a + b)
  {
    assert forall k :: |a| <= k < |a + b| ==> (a + b)[k] == b[k - |a|];
  }

  lemma {:induction false} JoinSegsWellFormed(groups: seq<seq<Segment>>)
    requires GroupsWellFormed(groups)
    ensures AllWellFormed(JoinSegs(groups))
    decreases |groups|
  {
    if |groups| >= 2 {
      assert forall k :: 0 <= k < |groups| - 1 ==> groups[1..][k] == groups[k + 1];
      JoinSegsWellFormed(groups[1..]);
      NewlinePiece();
      WellFormedAppend(groups[0], [Text("\n")]);
      WellFormedAppend(groups[0] + [Text("\n")], JoinSegs(groups[1..]));
    }
  }

  lemma WellFormedAppend(a: seq<Segment>, b: seq<Segment>)
    requires AllWellFormed(a) && AllWellFormed(b)
    ensures AllWellFormed(a + b)
  {
    assert forall i :: |a| <= i < |a + b| ==> (a + b)[i] == b[i - |a|];
  }

  lemma HeaderWellFormed(withTree: bool, tree: string)
    requires withTree ==> !Contains(tree, Fence)
    ensures AllWellFormed(HeaderSegments(withTree, tree))
  {
    if withTree {
      CleanText(Title + "\n" + StructureHeading + "\n");
      CleanText("\n\n" + ContentsHeading);
      CleanLine(tree);
    } else {
      CleanText(Title);
    }
  }

  lemma AssembleWellFormed(hs: seq<Segment>, groups: seq<seq<Segment>>)
    requires AllWellFormed(hs)
    requires GroupsWellFormed(groups)
    ensures AllWellFormed(Assemble(hs, groups))
  {
    if groups != [] {
      JoinSegsWellFormed(groups);
      NewlinePiece();
      WellFormedAppend([Text("\n")], JoinSegs(groups));
      WellFormedAppend(hs, [Text("\n")] + JoinSegs(groups));
    } else {
      assert Assemble(hs, groups) == hs;
    }
  }

  lemma DocWellFormed(directory: string, files: seq<string>, s: Settings, tree: string,
                      read: string -> Option<string>)
    requires AllPackable(directory, files, read)
    requires s.outputDirectoryTree ==> !Contains(tree, Fence)
    ensures AllWellFormed(DocSegments(directory, files, s, tree, read))
  {
    HeaderWellFormed(s.outputDirectoryTree, tree);
    FileGroupsWellFormed(directory, files, read, s.namingConvention);
    AssembleWellFormed(HeaderSegments(s.outputDirectoryTree, tree), FileGroups(directory, files, read, s.namingConvention));
  }

  /** The fences of the groups, in order. */
  function FencesAll(groups: seq<seq<Segment>>): seq<(string, string)>
    decreases |groups|
  {
    if groups == [] then [] else Fences(groups[0]) + FencesAll(groups[1..])
  }

  lemma {:induction false} JoinSegsFences(groups: seq<seq<Segment>>)
    ensures Fences(JoinSegs(groups)) == FencesAll(groups)
    decreases |groups|
  {
    if |groups| >= 2 {
      JoinSegsFences(groups[1..]);
      FencesAppend(groups[0] + [Text("\n")], JoinSegs(groups[1..]));
      FencesAppend(groups[0], [Text("\n")]);
      NewlinePiece();
    } else if |groups| == 1 {
      assert groups[1..] == [];
    }
  }

  lemma {:induction false} FileGroupsFences(directory: string, files: seq<string>,
                                            read: string -> Option<string>, convention: string)
    ensures FencesAll(FileGroups(directory, files, read, convention)) == Packed(directory, files, read, convention)
    decreases |files|
  {
    if files != [] {
      FileGroupsFences(directory, files[1..], read, convention);
      var g := FileGroups(directory, files, read, convention);
      var rest := FileGroups(directory, files[1..], read, convention);
      match read(PJoin(directory, files[0]))
      case None =>
        assert g == rest;
      case Some(c) =>
        BlockFences(files[0], c, convention);
        assert g == [BlockSegments(files[0], c, convention)] + rest;
        assert g[1..] == rest;
    }
  }

  lemma HeaderFences(withTree: bool, tree: string)
    ensures Fences(HeaderSegments(withTree, tree)) == if withTree then [("", tree + "\n")] else []
  {
    var hs := HeaderSegments(withTree, tree);
    if withTree {
      assert hs[1..] == [hs[1], hs[2]];
      FencesTwo(hs[1], hs[2]);
      assert [hs[1]][1..] == [];
    } else {
      assert hs[1..] == [];
    }
  }

  lemma AssembleFences(hs: seq<Segment>, groups: seq<seq<Segment>>)
    ensures Fences(Assemble(hs, groups)) == Fences(hs) + FencesAll(groups)
  {
    if groups != [] {
      var j := JoinSegs(groups);
      assert Assemble(hs, groups) == hs + ([Text("\n")] + j);
      JoinSegsFences(groups);
      FencesAppend(hs, [Text("\n")] + j);
      FencesAppend([Text("\n")], j);
      NewlineNoFence();
    } else {
      assert Assemble(hs, groups) == hs;
    }
  }

  lemma DocFences(directory: string, files: seq<string>, s: Settings, tree: string,
                  read: string -> Option<string>)
    ensures Fences(DocSegments(directory, files, s, tree, read))
            == (if s.outputDirectoryTree then [("", tree + "\n")] else [])
               + Packed(directory, files, read, s.namingConvention)
  {
    HeaderFences(s.outputDirectoryTree, tree);
    FileGroupsFences(directory, files, read, s.namingConvention);
    AssembleFences(HeaderSegments(s.outputDirectoryTree, tree), FileGroups(directory, files, read, s.namingConvention));
  }
}
