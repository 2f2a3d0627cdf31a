/**
 * The fence scanner of the unpack direction: a leftmost-first scan that
 * finds exactly the matches `re.finditer` reports for the pattern
 * "```([^\n]*)\n([\s\S]*?)```", plus the "preceding line" lookup made for
 * every match.  The fence need not start a line.
 */
module FenceScanner {
  import opened PyStr

  const Fence := "```"

  /** One match: `start` is the offset of the opening fence, `ident` the rest
      of its line (group 1, untrimmed), `body` the text up to the closing
      fence (group 2), `end` the offset just after the closing fence. */
  datatype Block = Block(start: nat, ident: string, body: string, end: nat)

  /** Three backticks start at offset `j`. */
  predicate FenceAt(s: string, j: int) {
    0 <= j && j + 3 <= |s| && s[j] == '`' && s[j + 1] == '`' && s[j + 2] == '`'
  }

  lemma FenceAtIsOccurrence(s: string, j: int)
    ensures FenceAt(s, j) <==> OccursAt(s, Fence, j)
  {
    if 0 <= j && j + 3 <= |s| {
      assert |s[j..j + 3]| == 3;
      if FenceAt(s, j) {
        assert s[j..j + 3] == Fence;
      }
      if OccursAt(s, Fence, j) {
        assert s[j..j + 3][0] == s[j] && s[j..j + 3][1] == s[j + 1] && s[j..j + 3][2] == s[j + 2];
      }
    }
  }

  /** The first fence at or after `from`. */
  function NextFence(s: string, from: nat): (r: Option<nat>)
    ensures r.Some? ==> from <= r.value && FenceAt(s, r.value)
    decreases |s| - from
  {
    if from + 3 > |s| then None
    else if FenceAt(s, from) then Some(from)
    else NextFence(s, from + 1)
  }

  /** `NextFence` finds the first fence: none lies before it, and when it
      finds none there is none at all. */
  lemma {:induction false} NextFenceFirst(s: string, from: nat)
    ensures NextFence(s, from).Some? ==> FenceFree(s, from, NextFence(s, from).value)
    ensures NextFence(s, from).None? ==> FenceFree(s, from, |s|)
    decreases |s| - from
  {
    if from + 3 <= |s| && !FenceAt(s, from) {
      NextFenceFirst(s, from + 1);
    }
  }

  /** Offset of the newline that ends the opener of `b`. */
  function OpenerEnd(b: Block): nat {
    b.start + 3 + |b.ident|
  }

  /** Offset of the closing fence of `b`. */
  function CloserStart(b: Block): nat {
    OpenerEnd(b) + 1 + |b.body|
  }

  /** `b` is a match of the pattern in `s`: "```", a line without newline,
      a newline, then the shortest text up to the next "```". */
  predicate IsMatch(s: string, b: Block) {
    var q := OpenerEnd(b);
    var c := CloserStart(b);
    && FenceAt(s, b.start)
    && q < |s| && s[q] == '\n'
    && s[b.start + 3..q] == b.ident
    && (forall j :: 0 <= j < |b.ident| ==> b.ident[j] != '\n')
    && c + 3 <= |s| && s[q + 1..c] == b.body
    && FenceAt(s, c)
    && FenceFree(s, q + 1, c)
    && b.end == c + 3
  }

  /** The first newline at or after `from`. */
  function NextNewline(s: string, from: nat): (r: Option<nat>)
    ensures r.Some? ==> from <= r.value < |s| && s[r.value] == '\n'
    decreases |s| - from
  {
    if from >= |s| then None
    else if s[from] == '\n' then Some(from)
    else NextNewline(s, from + 1)
  }

  /** No newline lies between `from` and `to`. */
  predicate NewlineFree(s: string, from: nat, to: nat) {
    forall j :: from <= j < to && j < |s| ==> s[j] != '\n'
  }

  /** `NextNewline` finds the first newline: none lies before it, and when
      it finds none there is none at all. */
  lemma {:induction false} NextNewlineFirst(s: string, from: nat)
    ensures NextNewline(s, from).Some? ==> NewlineFree(s, from, NextNewline(s, from).value)
    ensures NextNewline(s, from).None? ==> NewlineFree(s, from, |s|)
    decreases |s| - from
  {
    if from < |s| && s[from] != '\n' {
      NextNewlineFirst(s, from + 1);
    }
  }

  /** The attempt of the pattern at offset `p`.  There is a match exactly when
      a fence starts at `p` and some later newline is followed by a fence. */
  function MatchAt(s: string, p: nat): (r: Option<Block>)
  {
    if !FenceAt(s, p) then None
    else
      match NextNewline(s, p + 3)
      case None => None
      case Some(q) =>
        match NextFence(s, q + 1)
        case None => None
        case Some(c) => Some(Block(p, s[p + 3..q], s[q + 1..c], c + 3))
  }

  /** What `MatchAt` finds is a match at the offset it was asked about. */
  lemma MatchAtSound(s: string, p: nat)
    ensures MatchAt(s, p).Some? ==> IsMatch(s, MatchAt(s, p).value) && MatchAt(s, p).value.start == p
  {
    if MatchAt(s, p).Some? {
      var q := NextNewline(s, p + 3).value;
      var c := NextFence(s, q + 1).value;
      var b := Block(p, s[p + 3..q], s[q + 1..c], c + 3);
      NextNewlineFirst(s, p + 3);
      NextFenceFirst(s, q + 1);
      assert MatchAt(s, p) == Some(b);
      assert OpenerEnd(b) == q && CloserStart(b) == c;
      assert forall j :: 0 <= j < |b.ident| ==> b.ident[j] == s[p + 3 + j];
    }
  }

  lemma {:induction false} NextNewlineIs(s: string, from: nat, q: nat)
    requires from <= q < |s| && s[q] == '\n'
    requires NewlineFree(s, from, q)
    ensures NextNewline(s, from) == Some(q)
    decreases q - from
  {
    if from < q {
      NextNewlineIs(s, from + 1, q);
    }
  }

  lemma {:induction false} FindFenceIs(s: string, from: nat, c: nat)
    requires from <= c && FenceAt(s, c)
    requires FenceFree(s, from, c)
    ensures NextFence(s, from) == Some(c)
    decreases c - from
  {
    if from < c {
      FindFenceIs(s, from + 1, c);
    }
  }

  /** The pattern has at most one match at each offset, and `MatchAt` finds it. */
  lemma MatchUnique(s: string, b: Block)
    requires IsMatch(s, b)
    ensures MatchAt(s, b.start) == Some(b)
  {
    var p := b.start;
    var q := OpenerEnd(b);
    var c := CloserStart(b);
    IdentHasNoNewline(s, b);
    NextNewlineIs(s, p + 3, q);
    FindFenceIs(s, q + 1, c);
    MatchAtIs(s, p, q, c);
  }

  lemma IdentHasNoNewline(s: string, b: Block)
    requires IsMatch(s, b)
    ensures NewlineFree(s, b.start + 3, OpenerEnd(b))
  {
    forall j | b.start + 3 <= j < OpenerEnd(b) ensures s[j] != '\n' {
      assert s[j] == b.ident[j - b.start - 3];
    }
  }

  lemma MatchAtIs(s: string, p: nat, q: nat, c: nat)
    requires FenceAt(s, p)
    requires p + 3 <= q < c
    requires NextNewline(s, p + 3) == Some(q) && NextFence(s, q + 1) == Some(c)
    ensures MatchAt(s, p) == Some(Block(p, s[p + 3..q], s[q + 1..c], c + 3))
  {
  }

  /** No match starts anywhere in `[a, b)`. */
  predicate NoMatchIn(s: string, a: nat, b: nat) {
    forall p :: a <= p < b ==> MatchAt(s, p).None?
  }

  /** `re.finditer` from offset `from`: the leftmost match, then the scan
      resumes after its closing fence.  What it returns is stated by
      `ScanIsShaped`. */
  function Scan(s: string, from: nat): (r: seq<Block>)
    decreases |s| - from
  {
    if from >= |s| then []
    else
      match MatchAt(s, from)
      case Some(b) => [b] + Scan(s, b.end)
      case None => Scan(s, from + 1)
  }

  /** A scan returns matches at or after `from`, in order and disjoint,
      with no match starting before the first, between two neighbours, or
      after the last. */
  lemma {:induction false} ScanIsShaped(s: string, from: nat)
    ensures ScanShape(s, from, Scan(s, from))
    decreases |s| - from
  {
    if from < |s| {
      match MatchAt(s, from)
      case Some(b) =>
        ScanIsShaped(s, b.end);
        ScanCons(s, from, b, Scan(s, b.end));
      case None =>
        ScanIsShaped(s, from + 1);
        ScanSkip(s, from, Scan(s, from + 1));
    }
  }

  /** What a scan from `from` returns: matches at or after `from`, in order
      and disjoint, with no match starting before the first, between two
      neighbours, or after the last. */
  predicate ScanShape(s: string, from: nat, r: seq<Block>) {
    && MatchesFrom(s, from, r)
    && Chained(r)
    && NoMatchIn(s, from, if r == [] then |s| else r[0].start)
    && GapsClear(s, r)
    && (r != [] ==> NoMatchIn(s, r[|r| - 1].end, |s|))
  }

  predicate MatchesFrom(s: string, from: nat, r: seq<Block>) {
    forall i :: 0 <= i < |r| ==> IsMatch(s, r[i]) && from <= r[i].start
  }

  predicate Chained(r: seq<Block>) {
    forall i :: 0 <= i < |r| - 1 ==> r[i].end <= r[i + 1].start
  }

  predicate GapsClear(s: string, r: seq<Block>) {
    forall i :: 0 <= i < |r| - 1 ==> NoMatchIn(s, r[i].end, r[i + 1].start)
  }

  lemma ScanCons(s: string, from: nat, b: Block, rest: seq<Block>)
    requires MatchAt(s, from) == Some(b)
    requires ScanShape(s, b.end, rest)
    ensures ScanShape(s, from, [b] + rest)
  {
    MatchAtSound(s, from);
    assert b.start < b.end;
    ConsMatches(s, from, b, rest);
    ConsChained(b, rest);
    ConsGaps(s, b, rest);
    var r := [b] + rest;
    assert r[0] == b && r[|r| - 1].end == (if rest == [] then b else rest[|rest| - 1]).end;
  }

  lemma ConsMatches(s: string, from: nat, b: Block, rest: seq<Block>)
    requires IsMatch(s, b) && from <= b.start < b.end
    requires MatchesFrom(s, b.end, rest)
    ensures MatchesFrom(s, from, [b] + rest)
  {
    var r := [b] + rest;
    forall i | 0 <= i < |r| ensures IsMatch(s, r[i]) && from <= r[i].start {
      if i > 0 {
        assert r[i] == rest[i - 1];
      }
    }
  }

  lemma ConsChained(b: Block, rest: seq<Block>)
    requires Chained(rest)
    requires rest != [] ==> b.end <= rest[0].start
    ensures Chained([b] + rest)
  {
    var r := [b] + rest;
    forall i | 0 <= i < |r| - 1 ensures r[i].end <= r[i + 1].start {
      assert r[i + 1] == rest[i];
      if i > 0 {
        assert r[i] == rest[i - 1];
      }
    }
  }

  lemma ConsGaps(s: string, b: Block, rest: seq<Block>)
    requires GapsClear(s, rest)
    requires rest != [] ==> NoMatchIn(s, b.end, rest[0].start)
    ensures GapsClear(s, [b] + rest)
  {
    var r := [b] + rest;
    forall i | 0 <= i < |r| - 1 ensures NoMatchIn(s, r[i].end, r[i + 1].start) {
      assert r[i + 1] == rest[i];
      if i > 0 {
        assert r[i] == rest[i - 1];
      }
    }
  }

  lemma ScanSkip(s: string, from: nat, rest: seq<Block>)
    requires MatchAt(s, from).None?
    requires ScanShape(s, from + 1, rest)
    ensures ScanShape(s, from, rest)
  {
  }

  /** The blocks of a document. */
  function Blocks(s: string): (r: seq<Block>)
    ensures forall i :: 0 <= i < |r| ==> IsMatch(s, r[i])
  {
    ScanIsShaped(s, 0);
    Scan(s, 0)
  }

  /** A block never overlaps the next one and the blocks come in document
      order; the fence text itself never occurs inside a body. */
  lemma BlocksOrdered(s: string, i: nat, j: nat)
    requires i < j < |Blocks(s)|
    ensures Blocks(s)[i].end <= Blocks(s)[j].start
    ensures !Contains(Blocks(s)[i].body, Fence)
    decreases j - i
  {
    var r := Blocks(s);
    ScanIsShaped(s, 0);
    if j > i + 1 {
      BlocksOrdered(s, i, j - 1);
      BlocksOrdered(s, j - 1, j);
      assert r[j - 1].start < r[j - 1].end;
    } else {
      BodyHasNoFence(s, r[i]);
    }
  }

  lemma BodyHasNoFence(s: string, b: Block)
    requires IsMatch(s, b)
    ensures !Contains(b.body, Fence)
  {
    var q := OpenerEnd(b);
    ContainsIff(b.body, Fence);
    forall k ensures !OccursAt(b.body, Fence, k) {
      FenceAtIsOccurrence(b.body, k);
      if 0 <= k && k + 3 <= |b.body| {
        assert s[q + 1 + k] == b.body[k] && s[q + 2 + k] == b.body[k + 1] && s[q + 3 + k] == b.body[k + 2];
        assert FenceAt(b.body, k) ==> FenceAt(s, q + 1 + k);
      }
    }
  }

  /** There is a match at `p` exactly when a fence starts at `p` and some
      later newline is followed by a fence; so a fence with no newline after
      it, or with no fence after its line, opens no block. */
  lemma MatchAtIff(s: string, p: nat)
    ensures MatchAt(s, p).Some? <==>
            FenceAt(s, p) && exists q, j :: p + 3 <= q < j && q < |s| && s[q] == '\n' && FenceAt(s, j)
  {
    var r := MatchAt(s, p);
    MatchAtSound(s, p);
    if r.Some? {
      var b := r.value;
      assert p + 3 <= OpenerEnd(b) < CloserStart(b) && FenceAt(s, CloserStart(b));
    } else if FenceAt(s, p) {
      NextNewlineFirst(s, p + 3);
      var nl := NextNewline(s, p + 3);
      if nl.Some? {
        NextFenceFirst(s, nl.value + 1);
      }
      forall q, j | p + 3 <= q < j && q < |s| && s[q] == '\n' ensures !FenceAt(s, j) {
        assert nl.Some? && nl.value <= q;
      }
    }
  }

  // ---------------------------------------------------------------------------
  // the preceding line

  /** `lines[content[:start].count("\n") - 1] if start > 0 else None` with
      `lines = content.split("\n")`.  For a fence below the first line this is
      the line just before the fence's line; for a fence on the first line
      (but not at offset 0) the index is -1, which Python reads as the last
      line of the whole content. */
  function PrecedingLine(s: string, start: nat): (r: Option<string>)
    requires start <= |s|
    ensures start == 0 <==> r.None?
    ensures var k := CountChar(s[..start], '\n');
            start > 0 && k > 0 ==> k < |Split(s[..start], '\n')| && r == Some(Split(s[..start], '\n')[k - 1])
    ensures var lines := Split(s, '\n');
            start > 0 && CountChar(s[..start], '\n') == 0 ==> r == Some(lines[|lines| - 1])
  {
    if start == 0 then None
    else
      var lines := Split(s, '\n');
      var k := CountChar(s[..start], '\n');
      assert s == s[..start] + s[start..];
      CountCharAppend(s[..start], s[start..], '\n');
      SplitLength(s, '\n');
      SplitLength(s[..start], '\n');
      if k == 0 then Some(lines[|lines| - 1])
      else
        SplitPrefixStable(s[..start], s[start..], '\n', k - 1);
        Some(lines[k - 1])
  }

  /** The line just before the fence's line is the text between the last two
      newlines before the fence. */
  lemma PrecedingLineBetweenNewlines(s: string, a: nat, line: string, rest: string)
    requires a + 1 + |line| + 1 + |rest| <= |s|
    requires s[a] == '\n' && s[a + 1..a + 1 + |line|] == line && s[a + 1 + |line|] == '\n'
    requires '\n' !in line && '\n' !in rest
    requires s[a + 1 + |line| + 1..a + 1 + |line| + 1 + |rest|] == rest
    ensures PrecedingLine(s, a + 1 + |line| + 1 + |rest|) == Some(line)
  {
    var start := a + 1 + |line| + 1 + |rest|;
    var pre := s[..start];
    var head := s[..a];
    assert pre == head + ['\n'] + (line + ['\n'] + rest);
    SplitAppend(head, line + ['\n'] + rest, '\n');
    SplitAppend(line, rest, '\n');
    SplitOfFree(line, '\n');
    SplitOfFree(rest, '\n');
    var sp := Split(pre, '\n');
    assert sp == Split(head, '\n') + [line, rest];
    SplitLength(pre, '\n');
    assert sp[|sp| - 2] == line;
  }

  // ---------------------------------------------------------------------------
  // documents built from plain text and fenced blocks

  /** A piece of a document: plain text, or a fenced block written as
      "```" + ident + "\n" + body + "```". */
  datatype Segment = Text(text: string) | Fenced(ident: string, body: string)

  function SegmentText(g: Segment): string {
    match g
    case Text(t) => t
    case Fenced(ident, body) => Fence + ident + "\n" + body + Fence
  }

  function Render(segs: seq<Segment>): string
    decreases |segs|
  {
    if segs == [] then "" else SegmentText(segs[0]) + Render(segs[1..])
  }

  /** Text in which no fence starts, and which cannot complete a fence with
      what follows it. */
  predicate Clean(t: string) {
    (forall p :: 0 <= p < |t| ==> !FenceAt(t, p)) && (t == [] || t[|t| - 1] != '`')
  }

  predicate WellFormed(g: Segment) {
    match g
    case Text(t) => Clean(t)
    case Fenced(ident, body) => '\n' !in ident && Clean(body)
  }

  /** The identifier and body of every fenced segment, in order. */
  function Fences(segs: seq<Segment>): seq<(string, string)>
    decreases |segs|
  {
    if segs == [] then [] else FenceOf(segs[0]) + Fences(segs[1..])
  }

  /** The identifier and body of a fenced segment; nothing for text. */
  function FenceOf(g: Segment): seq<(string, string)> {
    match g
    case Text(_) => []
    case Fenced(ident, body) => [(ident, body)]
  }

  /** The identifier and body of every block. */
  function Project(bs: seq<Block>): (r: seq<(string, string)>)
    ensures |r| == |bs|
    ensures forall i :: 0 <= i < |bs| ==> r[i] == (bs[i].ident, bs[i].body)
  {
    seq(|bs|, i requires 0 <= i < |bs| => (bs[i].ident, bs[i].body))
  }

  /** No fence starts inside a clean stretch of `s`. */
  lemma CleanHasNoFence(s: string, x: nat, t: string)
    requires x + |t| <= |s| && s[x..x + |t|] == t && Clean(t)
    ensures FenceFree(s, x, x + |t|)
  {
    forall j | x <= j < x + |t| ensures !FenceAt(s, j) {
      if j + 3 <= x + |t| {
        assert s[j] == t[j - x] && s[j + 1] == t[j - x + 1] && s[j + 2] == t[j - x + 2];
        assert !FenceAt(t, j - x);
      } else {
        assert s[x + |t| - 1] == t[|t| - 1];
      }
    }
  }

  /** A scan passes over positions where no fence starts. */
  lemma {:induction false} ScanSkipsFenceFree(s: string, from: nat, to: nat)
    requires from <= to <= |s|
    requires FenceFree(s, from, to)
    ensures Scan(s, from) == Scan(s, to)
    decreases |s| - from
  {
    if from < to {
      ScanStepNoMatch(s, from);
      ScanSkipsFenceFree(s, from + 1, to);
    }
  }

  lemma ScanStepNoMatch(s: string, from: nat)
    requires from < |s| && !FenceAt(s, from)
    ensures Scan(s, from) == Scan(s, from + 1)
  {
    assert MatchAt(s, from).None?;
  }

  /** Where the pattern matches, the scan reports that match and resumes
      after it. */
  lemma ScanAtMatch(s: string, b: Block)
    requires IsMatch(s, b)
    ensures Scan(s, b.start) == [b] + Scan(s, b.end)
  {
    MatchUnique(s, b);
  }

  /** Where the parts of a fenced segment lie in its text. */
  lemma FencedTextLayout(ident: string, body: string)
    ensures var f := SegmentText(Fenced(ident, body));
            var q := 3 + |ident|;
            var c := q + 1 + |body|;
            && |f| == c + 3 && FenceAt(f, 0) && f[q] == '\n' && FenceAt(f, c)
            && f[3..q] == ident && f[q + 1..c] == body
  {
    var f := SegmentText(Fenced(ident, body));
    assert f == Fence + ident + ("\n" + body + Fence);
    Middle(Fence, ident, "\n" + body + Fence);
    assert f == (Fence + ident + "\n") + body + Fence;
    Middle(Fence + ident + "\n", body, Fence);
  }

  /** A window of `s` that equals `f` agrees with `f` on every slice. */
  lemma WindowSlice(s: string, k: nat, f: string, i: nat, j: nat)
    requires k + |f| <= |s| && s[k..k + |f|] == f && i <= j <= |f|
    ensures s[k + i..k + j] == f[i..j]
  {
    SliceOfSlice(s, k, k + |f|, i, j);
  }

  lemma WindowFence(s: string, k: nat, f: string, i: nat)
    requires k + |f| <= |s| && s[k..k + |f|] == f && FenceAt(f, i)
    ensures FenceAt(s, k + i)
  {
    assert s[k + i] == f[i] && s[k + i + 1] == f[i + 1] && s[k + i + 2] == f[i + 2];
  }

  lemma Middle(a: string, b: string, c: string)
    ensures |a| + |b| <= |a + b + c|
    ensures (a + b + c)[|a|..|a| + |b|] == b
    ensures forall j :: 0 <= j < |b| ==> (a + b + c)[|a| + j] == b[j]
  {
  }

  lemma SliceOfSlice(s: string, i: nat, j: nat, k: nat, l: nat)
    requires i <= j <= |s| && k <= l <= j - i
    ensures s[i..j][k..l] == s[i + k..i + l]
  {
    assert forall t :: 0 <= t < l - k ==> s[i..j][k..l][t] == s[i + k + t];
  }

  /** A well-formed fenced segment is a match wherever it sits. */
  lemma FencedIsMatchAt(s: string, k: nat, ident: string, body: string)
    requires k + |SegmentText(Fenced(ident, body))| <= |s|
    requires s[k..k + |SegmentText(Fenced(ident, body))|] == SegmentText(Fenced(ident, body))
    requires '\n' !in ident && Clean(body)
    ensures IsMatch(s, Block(k, ident, body, k + |SegmentText(Fenced(ident, body))|))
  {
    FencedTextLayout(ident, body);
    WindowMatch(s, k, SegmentText(Fenced(ident, body)), ident, body);
  }

  lemma WindowMatch(s: string, k: nat, f: string, ident: string, body: string)
    requires k + |f| <= |s| && s[k..k + |f|] == f
    requires '\n' !in ident && Clean(body)
    requires var q := 3 + |ident|;
             var c := q + 1 + |body|;
             && |f| == c + 3 && FenceAt(f, 0) && f[q] == '\n' && FenceAt(f, c)
             && f[3..q] == ident && f[q + 1..c] == body
    ensures IsMatch(s, Block(k, ident, body, k + |f|))
  {
    var q := 3 + |ident|;
    var c := q + 1 + |body|;
    WindowSlice(s, k, f, 3, q);
    WindowSlice(s, k, f, q + 1, c);
    WindowFence(s, k, f, 0);
    WindowFence(s, k, f, c);
    assert s[k + q] == f[q];
    CleanHasNoFence(s, k + q + 1, body);
  }

  lemma ProjectCons(b: Block, bs: seq<Block>)
    ensures Project([b] + bs) == [(b.ident, b.body)] + Project(bs)
  {
    assert forall i :: 0 < i < |bs| + 1 ==> ([b] + bs)[i] == bs[i - 1];
  }

  /** How many characters a segment takes. */
  function Width(g: Segment): (r: nat)
    ensures r == |SegmentText(g)|
  {
    match g
    case Text(t) => |t|
    case Fenced(ident, body) => 3 + |ident| + 1 + |body| + 3
  }

  /** No fence starts at any offset from `from` up to `to`. */
  predicate FenceFree(s: string, from: nat, to: nat) {
    forall j :: from <= j < to ==> !FenceAt(s, j)
  }

  predicate AllWellFormed(segs: seq<Segment>) {
    forall i :: 0 <= i < |segs| ==> WellFormed(segs[i])
  }

  lemma AllWellFormedTail(segs: seq<Segment>)
    requires segs != [] && AllWellFormed(segs)
    ensures WellFormed(segs[0]) && AllWellFormed(segs[1..])
  {
    assert forall i :: 0 <= i < |segs[1..]| ==> segs[1..][i] == segs[i + 1];
  }

  lemma RenderSplits(s: string, k: nat, segs: seq<Segment>)
    requires segs != [] && k <= |s| && s[k..] == Render(segs)
    ensures k + |SegmentText(segs[0])| <= |s|
    ensures s[k..k + |SegmentText(segs[0])|] == SegmentText(segs[0])
    ensures s[k + |SegmentText(segs[0])|..] == Render(segs[1..])
  {
    var t := SegmentText(segs[0]);
    assert s[k..] == t + Render(segs[1..]);
    assert s[k..k + |t|] == s[k..][..|t|];
    assert s[k + |t|..] == s[k..][|t|..];
  }

  /** Scanning a rendered document from any segment boundary finds exactly
      the fenced segments from there on. */
  lemma {:induction false} ScanRender(s: string, k: nat, segs: seq<Segment>)
    requires k <= |s| && s[k..] == Render(segs)
    requires AllWellFormed(segs)
    ensures Project(Scan(s, k)) == Fences(segs)
    decreases |segs|
  {
    if segs == [] {
      assert |s[k..]| == 0;
    } else {
      ScanRenderHead(s, k, segs);
      ScanRender(s, k + Width(segs[0]), segs[1..]);
    }
  }

  /** The first segment of a rendered document contributes its own fence,
      and the rest of the document is the rendering of the rest. */
  lemma ScanRenderHead(s: string, k: nat, segs: seq<Segment>)
    requires segs != [] && k <= |s| && s[k..] == Render(segs)
    requires AllWellFormed(segs)
    ensures k + Width(segs[0]) <= |s| && s[k + Width(segs[0])..] == Render(segs[1..])
    ensures AllWellFormed(segs[1..])
    ensures Project(Scan(s, k)) == FenceOf(segs[0]) + Project(Scan(s, k + Width(segs[0])))
  {
    RenderSplits(s, k, segs);
    AllWellFormedTail(segs);
    ScanOverSegment(s, k, segs[0]);
  }

  /** Scanning over one laid segment adds its block, if it is fenced. */
  /** Scanning over one well-formed segment adds its block, if it is
      fenced. */
  lemma ScanOverSegment(s: string, k: nat, g: Segment)
    requires k + |SegmentText(g)| <= |s| && s[k..k + |SegmentText(g)|] == SegmentText(g)
    requires WellFormed(g)
    ensures Project(Scan(s, k)) == FenceOf(g) + Project(Scan(s, k + Width(g)))
  {
    if g.Text? {
      ScanOverTextSegment(s, k, g);
    } else {
      ScanOverFencedSegment(s, k, g);
    }
  }

  lemma ScanOverTextSegment(s: string, k: nat, g: Segment)
    requires g.Text? && WellFormed(g)
    requires k + |SegmentText(g)| <= |s| && s[k..k + |SegmentText(g)|] == SegmentText(g)
    ensures Project(Scan(s, k)) == FenceOf(g) + Project(Scan(s, k + Width(g)))
  {
    CleanHasNoFence(s, k, g.text);
    ScanOverText(s, k, g);
  }

  lemma ScanOverFencedSegment(s: string, k: nat, g: Segment)
    requires g.Fenced? && WellFormed(g)
    requires k + |SegmentText(g)| <= |s| && s[k..k + |SegmentText(g)|] == SegmentText(g)
    ensures Project(Scan(s, k)) == FenceOf(g) + Project(Scan(s, k + Width(g)))
  {
    FencedIsMatchAt(s, k, g.ident, g.body);
    ScanOverFenced(s, Block(k, g.ident, g.body, k + Width(g)));
  }

  lemma ScanOverText(s: string, k: nat, g: Segment)
    requires g.Text? && k + |g.text| <= |s| && FenceFree(s, k, k + |g.text|)
    ensures Project(Scan(s, k)) == FenceOf(g) + Project(Scan(s, k + Width(g)))
  {
    ScanSkipsFenceFree(s, k, k + |g.text|);
    assert FenceOf(g) == [];
  }

  lemma ScanOverFenced(s: string, b: Block)
    requires IsMatch(s, b)
    ensures Project(Scan(s, b.start)) == [(b.ident, b.body)] + Project(Scan(s, b.end))
  {
    ScanAtMatch(s, b);
    ProjectCons(b, Scan(s, b.end));
  }

  /** The blocks of a document made of clean text and well-formed fenced
      segments are exactly its fenced segments, in order. */
  lemma BlocksOfRender(segs: seq<Segment>)
    requires AllWellFormed(segs)
    ensures Project(Blocks(Render(segs))) == Fences(segs)
  {
    ScanRender(Render(segs), 0, segs);
  }
}
