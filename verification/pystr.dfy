/**
 * The slice of Python's `str` semantics the plugin relies on: whitespace as
 * `str.isspace` sees it, `strip`/`lstrip`/`rstrip`, `split` on one separator
 * character and `join`, `splitlines`, `split()` on whitespace runs, substring
 * search, ASCII `lower`, and `str(n)` for natural numbers.
 */
module PyStr {

  datatype Option<+T> = None | Some(value: T)

  /** Python's `str.isspace()` for one character. */
  predicate IsSpace(c: char) {
    || c == ' '
    || ('\t' <= c <= '\r')
    || ('\U{1c}' <= c <= '\U{1f}')
    || c == '\U{85}' || c == '\U{a0}' || c == '\U{1680}'
    || ('\U{2000}' <= c <= '\U{200a}')
    || c == '\U{2028}' || c == '\U{2029}' || c == '\U{202f}'
    || c == '\U{205f}' || c == '\U{3000}'
  }

  /** True when `s.strip()` is empty, i.e. the string is falsy after stripping. */
  predicate IsBlank(s: string) {
    forall i :: 0 <= i < |s| ==> IsSpace(s[i])
  }

  /** `s.lstrip()`.  Its shape is stated by `LStripShape`, kept out of the
      contract so that strings built from it stay cheap to reason about. */
  function LStrip(s: string): (r: string)
    ensures |r| <= |s|
    decreases |s|
  {
    if |s| > 0 && IsSpace(s[0]) then LStrip(s[1..]) else s
  }

  /** `s.rstrip()`; see `RStripShape`. */
  function RStrip(s: string): (r: string)
    ensures |r| <= |s|
    decreases |s|
  {
    if |s| > 0 && IsSpace(s[|s| - 1]) then RStrip(s[..|s| - 1]) else s
  }

  /** `s.strip()`. */
  function Strip(s: string): string {
    LStrip(RStrip(s))
  }

  /** `lstrip` removes a whitespace prefix and nothing else, and stops at
      the first non-space. */
  lemma {:induction false} LStripShape(s: string)
    ensures var r := LStrip(s);
            && r == s[|s| - |r|..]
            && IsBlank(s[..|s| - |r|])
            && (r == [] || !IsSpace(r[0]))
    decreases |s|
  {
    if |s| > 0 && IsSpace(s[0]) {
      LStripShape(s[1..]);
      var r := LStrip(s);
      assert s[1..][..|s| - 1 - |r|] == s[1..|s| - |r|];
      assert forall i :: 1 <= i < |s| - |r| ==> s[i] == s[1..|s| - |r|][i - 1];
    }
  }

  /** `rstrip` removes a whitespace suffix and nothing else, and stops at
      the last non-space. */
  lemma {:induction false} RStripShape(s: string)
    ensures var r := RStrip(s);
            && r == s[..|r|]
            && IsBlank(s[|r|..])
            && (r == [] || !IsSpace(r[|r| - 1]))
    decreases |s|
  {
    if |s| > 0 && IsSpace(s[|s| - 1]) {
      var t := s[..|s| - 1];
      RStripShape(t);
      var r := RStrip(s);
      assert t[..|r|] == s[..|r|];
      assert forall i :: |r| <= i < |s| - 1 ==> s[i] == t[|r|..][i - |r|];
    }
  }

  /** `len(line) - len(line.lstrip())`: the width of the leading whitespace. */
  function IndentWidth(s: string): (r: nat)
    ensures r <= |s|
  {
    |s| - |LStrip(s)|
  }

  /** The indentation is whitespace, and what follows it is `lstrip`'s
      result. */
  lemma IndentWidthShape(s: string)
    ensures IsBlank(s[..IndentWidth(s)]) && LStrip(s) == s[IndentWidth(s)..]
    ensures IndentWidth(s) < |s| ==> !IsSpace(s[IndentWidth(s)])
  {
    LStripShape(s);
    var r := LStrip(s);
    var w := IndentWidth(s);
    assert w == |s| - |r|;
    assert s[..w] == s[..|s| - |r|] && s[w..] == s[|s| - |r|..];
    if w < |s| {
      assert s[w] == r[0];
    }
  }

  lemma {:induction false} RStripOfBlankSuffix(s: string, w: string)
    requires IsBlank(w)
    ensures RStrip(s + w) == RStrip(s)
    decreases |w|
  {
    if |w| > 0 {
      assert (s + w)[..|s + w| - 1] == s + w[..|w| - 1];
      RStripOfBlankSuffix(s, w[..|w| - 1]);
    } else {
      assert s + w == s;
    }
  }

  lemma RStripIdempotent(s: string)
    ensures RStrip(RStrip(s)) == RStrip(s)
  {
    RStripShape(s);
  }

  lemma StripOfRStrip(s: string)
    ensures Strip(RStrip(s)) == Strip(s)
  {
    RStripIdempotent(s);
  }

  lemma {:induction false} LStripOfBlank(s: string)
    requires IsBlank(s)
    ensures LStrip(s) == []
    decreases |s|
  {
    if |s| > 0 {
      LStripOfBlank(s[1..]);
    }
  }

  /** A string is blank exactly when stripping it leaves nothing. */
  lemma BlankIffStripEmpty(s: string)
    ensures IsBlank(s) <==> Strip(s) == []
  {
    var r := RStrip(s);
    RStripShape(s);
    LStripShape(r);
    if Strip(s) == [] {
      assert IsBlank(r[..|r| - |LStrip(r)|]);
      assert r == [];
      assert s == s[|r|..];
    }
    if IsBlank(s) {
      assert IsBlank(r);
      LStripOfBlank(r);
    }
  }

  // ---------------------------------------------------------------------------
  // split / join on a single separator character

  /** `s.split(c)`: never empty; `"".split(c) == [""]`. */
  function Split(s: string, c: char): (r: seq<string>)
    ensures |r| >= 1
    ensures forall i :: 0 <= i < |r| ==> c !in r[i]
    decreases |s|
  {
    if |s| == 0 then [""]
    else
      var rest := Split(s[1..], c);
      if s[0] == c then [""] + rest
      else [[s[0]] + rest[0]] + rest[1..]
  }

  /** `c.join(parts)`. */
  function Join(parts: seq<string>, c: char): string
    decreases |parts|
  {
    if |parts| == 0 then ""
    else if |parts| == 1 then parts[0]
    else parts[0] + [c] + Join(parts[1..], c)
  }

  lemma {:induction false} JoinSplit(s: string, c: char)
    ensures Join(Split(s, c), c) == s
    decreases |s|
  {
    if |s| > 0 {
      var rest := Split(s[1..], c);
      JoinSplit(s[1..], c);
      if s[0] == c {
        assert Split(s, c) == [""] + rest;
        assert ([""] + rest)[1..] == rest;
      } else {
        if |rest| == 1 {
          assert Split(s, c) == [[s[0]] + rest[0]];
        } else {
          var r := Split(s, c);
          assert r == [[s[0]] + rest[0]] + rest[1..];
          assert r[1..] == rest[1..];
          assert Join(rest, c) == rest[0] + [c] + Join(rest[1..], c);
        }
      }
    }
  }

  /** Splitting `a + c + b` splits `a` and `b` independently. */
  lemma {:induction false} SplitAppend(a: string, b: string, c: char)
    ensures Split(a + [c] + b, c) == Split(a, c) + Split(b, c)
    decreases |a|
  {
    var s := a + [c] + b;
    if |a| == 0 {
      assert s[1..] == b;
    } else {
      SplitAppend(a[1..], b, c);
      TailOfAppend(a, b, c);
      SplitCons(a, c);
      SplitCons(s, c);
      ConsPieces(a[0], c, Split(a[1..], c), Split(b, c));
    }
  }

  lemma TailOfAppend(a: string, b: string, c: char)
    requires a != []
    ensures (a + [c] + b)[1..] == a[1..] + [c] + b && (a + [c] + b)[0] == a[0]
  {
  }

  /** The piece list `Split` builds from a first character and the pieces of
      the rest. */
  function ConsPiece(x: char, c: char, rest: seq<string>): seq<string>
    requires rest != []
  {
    if x == c then [""] + rest else [[x] + rest[0]] + rest[1..]
  }

  /** One step of `Split`. */
  lemma SplitCons(s: string, c: char)
    requires s != []
    ensures Split(s, c) == ConsPiece(s[0], c, Split(s[1..], c))
  {
  }

  lemma ConsPieces(x: char, c: char, ra: seq<string>, rb: seq<string>)
    requires ra != []
    ensures ConsPiece(x, c, ra + rb) == ConsPiece(x, c, ra) + rb
  {
    if x != c {
      assert (ra + rb)[0] == ra[0] && (ra + rb)[1..] == ra[1..] + rb;
    }
  }

  lemma {:induction false} SplitOfFree(a: string, c: char)
    requires c !in a
    ensures Split(a, c) == [a]
    decreases |a|
  {
    if |a| > 0 {
      SplitOfFree(a[1..], c);
      assert [a[0]] + a[1..] == a;
    }
  }

  /** `split` undoes `join` when no part contains the separator. */
  lemma {:induction false} SplitJoin(parts: seq<string>, c: char)
    requires forall i :: 0 <= i < |parts| ==> c !in parts[i]
    ensures Split(Join(parts, c), c) == (if parts == [] then [""] else parts)
    decreases |parts|
  {
    if |parts| == 1 {
      SplitOfFree(parts[0], c);
    } else if |parts| > 1 {
      SplitJoin(parts[1..], c);
      SplitAppend(parts[0], Join(parts[1..], c), c);
      SplitOfFree(parts[0], c);
      assert [parts[0]] + parts[1..] == parts;
    }
  }

  /** A character absent from `s` is absent from every piece of its split. */
  lemma {:induction false} SplitKeepsOut(s: string, c: char, x: char)
    requires x !in s
    ensures forall i :: 0 <= i < |Split(s, c)| ==> x !in Split(s, c)[i]
    decreases |s|
  {
    if |s| > 0 {
      SplitKeepsOut(s[1..], c, x);
      assert s[0] != x;
    }
  }

  /** Joining pieces that lack `x` with a separator other than `x` gives a
      string that lacks `x`. */
  lemma {:induction false} JoinKeepsOut(parts: seq<string>, c: char, x: char)
    requires x != c
    requires forall i :: 0 <= i < |parts| ==> x !in parts[i]
    ensures x !in Join(parts, c)
    decreases |parts|
  {
    if |parts| > 1 {
      JoinKeepsOut(parts[1..], c, x);
      assert Join(parts, c) == parts[0] + [c] + Join(parts[1..], c);
    }
  }

  /** Appending text without a separator only extends the last piece. */
  lemma {:induction false} SplitAppendFree(a: string, b: string, c: char)
    requires c !in b
    ensures var sa := Split(a, c);
            Split(a + b, c) == sa[..|sa| - 1] + [sa[|sa| - 1] + b]
    decreases |a|
  {
    if |a| == 0 {
      assert a + b == b;
      SplitOfFree(b, c);
    } else {
      var s := a + b;
      assert s[0] == a[0] && s[1..] == a[1..] + b;
      SplitAppendFree(a[1..], b, c);
      var ra := Split(a[1..], c);
      var rs := Split(s[1..], c);
      if a[0] == c {
        ConsLast([""], ra, b);
      } else {
        ExtendFirstLast([a[0]], ra, b);
      }
    }
  }

  lemma ConsLast(h: seq<string>, ra: seq<string>, b: string)
    requires |ra| >= 1
    ensures var sa := h + ra;
            h + (ra[..|ra| - 1] + [ra[|ra| - 1] + b]) == sa[..|sa| - 1] + [sa[|sa| - 1] + b]
  {
    var sa := h + ra;
    assert sa[..|sa| - 1] == h + ra[..|ra| - 1];
  }

  lemma ExtendFirstLast(x: string, ra: seq<string>, b: string)
    requires |ra| >= 1
    ensures var sa := [x + ra[0]] + ra[1..];
            var rs := ra[..|ra| - 1] + [ra[|ra| - 1] + b];
            [x + rs[0]] + rs[1..] == sa[..|sa| - 1] + [sa[|sa| - 1] + b]
  {
    var sa := [x + ra[0]] + ra[1..];
    var rs := ra[..|ra| - 1] + [ra[|ra| - 1] + b];
    if |ra| == 1 {
      assert rs == [ra[0] + b];
      assert x + (ra[0] + b) == (x + ra[0]) + b;
    } else {
      assert rs[0] == ra[0];
      assert rs[1..] == ra[1..|ra| - 1] + [ra[|ra| - 1] + b];
      assert sa[..|sa| - 1] == [x + ra[0]] + ra[1..|ra| - 1];
    }
  }

  lemma JoinAppend(a: seq<string>, b: seq<string>, c: char)
    requires |a| > 0 && |b| > 0
    ensures Join(a + b, c) == Join(a, c) + [c] + Join(b, c)
    decreases |a|
  {
    var ab := a + b;
    assert |ab| >= 2 && ab[0] == a[0];
    if |a| == 1 {
      assert ab[1..] == b;
      assert Join(ab, c) == a[0] + [c] + Join(b, c);
    } else {
      assert ab[1..] == a[1..] + b;
      JoinAppend(a[1..], b, c);
      var x := Join(a[1..], c);
      var y := Join(b, c);
      assert Join(ab, c) == a[0] + [c] + (x + [c] + y);
      assert Join(a, c) == a[0] + [c] + x;
      assert a[0] + [c] + (x + [c] + y) == (a[0] + [c] + x) + [c] + y;
    }
  }

  /** The first `k - 1` pieces of a split only depend on the text up to the
      `k`-th separator: appending text after a prefix does not change them. */
  lemma {:induction false} SplitPrefixStable(a: string, b: string, c: char, i: nat)
    requires i + 1 < |Split(a, c)|
    ensures i < |Split(a + b, c)|
    ensures Split(a + b, c)[i] == Split(a, c)[i]
    decreases |a|
  {
    assert |a| > 0;
    assert (a + b)[1..] == a[1..] + b;
    var ra := Split(a[1..], c);
    if a[0] == c {
      if i > 0 {
        SplitPrefixStable(a[1..], b, c, i - 1);
      }
    } else {
      SplitPrefixStable(a[1..], b, c, i);
    }
  }

  function CountChar(s: string, c: char): nat
    decreases |s|
  {
    if |s| == 0 then 0 else (if s[0] == c then 1 else 0) + CountChar(s[1..], c)
  }

  lemma {:induction false} SplitLength(s: string, c: char)
    ensures |Split(s, c)| == CountChar(s, c) + 1
    decreases |s|
  {
    if |s| > 0 {
      SplitLength(s[1..], c);
    }
  }

  lemma {:induction false} CountCharAppend(a: string, b: string, c: char)
    ensures CountChar(a + b, c) == CountChar(a, c) + CountChar(b, c)
    decreases |a|
  {
    if |a| > 0 {
      assert (a + b)[1..] == a[1..] + b;
      CountCharAppend(a[1..], b, c);
    } else {
      assert a + b == b;
    }
  }

  // ---------------------------------------------------------------------------
  // substring search

  predicate OccursAt(s: string, pat: string, j: int) {
    0 <= j && j + |pat| <= |s| && s[j..j + |pat|] == pat
  }

  /** `s.find(pat, from)`, with `None` for Python's -1. */
  function FindFrom(s: string, pat: string, from: nat): (r: Option<nat>)
    ensures r.Some? ==> from <= r.value && OccursAt(s, pat, r.value)
    ensures r.Some? ==> forall j :: from <= j < r.value ==> !OccursAt(s, pat, j)
    ensures r.None? ==> forall j :: from <= j ==> !OccursAt(s, pat, j)
    decreases |s| - from
  {
    if from + |pat| > |s| then None
    else if s[from..from + |pat|] == pat then Some(from)
    else FindFrom(s, pat, from + 1)
  }

  /** `pat in s` for strings. */
  predicate Contains(s: string, pat: string) {
    FindFrom(s, pat, 0).Some?
  }

  lemma ContainsIff(s: string, pat: string)
    ensures Contains(s, pat) <==> exists j :: OccursAt(s, pat, j)
  {
  }

  lemma ContainsWitness(s: string, pat: string, j: int)
    requires OccursAt(s, pat, j)
    ensures Contains(s, pat)
  {
  }

  // ---------------------------------------------------------------------------
  // lower-case (ASCII letters)

  function LowerChar(c: char): char {
    if 'A' <= c <= 'Z' then (c as int + 32) as char else c
  }

  function Lower(s: string): (r: string)
    ensures |r| == |s|
    ensures forall i :: 0 <= i < |s| ==> r[i] == LowerChar(s[i])
    decreases |s|
  {
    if |s| == 0 then [] else [LowerChar(s[0])] + Lower(s[1..])
  }

  lemma LowerHasNoUpper(s: string, i: int)
    requires 0 <= i < |s|
    ensures !('A' <= Lower(s)[i] <= 'Z')
  {
  }

  // ---------------------------------------------------------------------------
  // splitlines

  /** The line boundaries of Python's `str.splitlines()`. */
  predicate IsLineBreak(c: char) {
    || c == '\n' || c == '\r' || c == '\U{b}' || c == '\U{c}'
    || ('\U{1c}' <= c <= '\U{1e}')
    || c == '\U{85}' || c == '\U{2028}' || c == '\U{2029}'
  }

  function FirstBreak(s: string, from: nat): (r: Option<nat>)
    ensures r.Some? ==> from <= r.value < |s| && IsLineBreak(s[r.value])
    ensures r.Some? ==> forall j :: from <= j < r.value ==> !IsLineBreak(s[j])
    ensures r.None? ==> forall j :: from <= j < |s| ==> !IsLineBreak(s[j])
    decreases |s| - from
  {
    if from >= |s| then None
    else if IsLineBreak(s[from]) then Some(from)
    else FirstBreak(s, from + 1)
  }

  /** `s.splitlines()`: `\r\n` is one boundary, and a final boundary does not
      open an empty last line. */
  function SplitLines(s: string): (r: seq<string>)
    ensures (|r| == 0) <==> (|s| == 0)
    ensures forall i, j :: 0 <= i < |r| && 0 <= j < |r[i]| ==> !IsLineBreak(r[i][j])
    decreases |s|
  {
    if |s| == 0 then []
    else
      match FirstBreak(s, 0)
      case None => [s]
      case Some(i) =>
        var next := if s[i] == '\r' && i + 1 < |s| && s[i + 1] == '\n' then i + 2 else i + 1;
        [s[..i]] + SplitLines(s[next..])
  }

  // ---------------------------------------------------------------------------
  // split() on whitespace runs

  function FirstSpace(s: string, from: nat): (r: nat)
    requires from <= |s|
    ensures from <= r <= |s|
    ensures forall j :: from <= j < r ==> !IsSpace(s[j])
    ensures r < |s| ==> IsSpace(s[r])
    decreases |s| - from
  {
    if from == |s| || IsSpace(s[from]) then from else FirstSpace(s, from + 1)
  }

  /** `s.split()` with no argument: the maximal runs of non-space characters. */
  function Words(s: string): seq<string>
    decreases |s|
  {
    var t := LStrip(s);
    if t == [] then []
    else
      var k := FirstSpace(t, 1);
      [t[..k]] + Words(t[k..])
  }

  // ---------------------------------------------------------------------------
  // str(n)

  function DigitChar(d: nat): char
    requires d < 10
  {
    ('0' as int + d) as char
  }

  /** `str(n)` for a natural number. */
  function NatToString(n: nat): (r: string)
    ensures |r| >= 1
    ensures forall i :: 0 <= i < |r| ==> '0' <= r[i] <= '9'
    decreases n
  {
    if n < 10 then [DigitChar(n)] else NatToString(n / 10) + [DigitChar(n % 10)]
  }

  function ParseDigits(s: string): nat
    requires forall i :: 0 <= i < |s| ==> '0' <= s[i] <= '9'
    decreases |s|
  {
    if |s| == 0 then 0 else ParseDigits(s[..|s| - 1]) * 10 + (s[|s| - 1] as int - '0' as int)
  }

  lemma {:induction false} ParseNatToString(n: nat)
    ensures ParseDigits(NatToString(n)) == n
    decreases n
  {
    if n >= 10 {
      var s := NatToString(n);
      assert s[..|s| - 1] == NatToString(n / 10);
      ParseNatToString(n / 10);
    }
  }

  lemma NatToStringInjective(m: nat, n: nat)
    requires NatToString(m) == NatToString(n)
    ensures m == n
  {
    ParseNatToString(m);
    ParseNatToString(n);
  }
}
