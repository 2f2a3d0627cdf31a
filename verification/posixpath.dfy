/**
 * The POSIX flavour of Python's `os.path` as pure functions: `normpath`,
 * `join` (two arguments), `abspath` with the working directory passed in,
 * `relpath`, `splitext`, `basename` and `dirname`.  The separator is '/'.
 */
module PosixPath {
  import opened PyStr

  predicate IsAbs(p: string) {
    "/" <= p
  }

  function Slashes(n: nat): (r: string)
    ensures |r| == n && forall i :: 0 <= i < n ==> r[i] == '/'
  {
    seq(n, _ => '/')
  }

  /** How many leading slashes `normpath` keeps: POSIX lets exactly two
      leading slashes mean something implementation-defined, so "//" is kept
      while three or more collapse to one. */
  function LeadingSlashes(p: string): nat {
    if "/" <= p then (if "//" <= p && !("///" <= p) then 2 else 1) else 0
  }

  /** One step of the component loop of `normpath`: "" and "." are dropped,
      ".." cancels the previous component, and a leading ".." is kept only
      in a relative path. */
  function Step(abs: bool, acc: seq<string>, c: string): seq<string> {
    if c == "" || c == "." then acc
    else if c != ".." || (!abs && acc == []) || (acc != [] && acc[|acc| - 1] == "..") then acc + [c]
    else if acc != [] then acc[..|acc| - 1]
    else acc
  }

  /** The component loop of `normpath`. */
  function FoldComps(abs: bool, comps: seq<string>, acc: seq<string>): seq<string>
    decreases |comps|
  {
    if comps == [] then acc
    else FoldComps(abs, comps[1..], Step(abs, acc, comps[0]))
  }

  /** `os.path.normpath` (posixpath). */
  function NormPath(p: string): (r: string)
    ensures r != ""
  {
    if p == "" then "."
    else
      var n := LeadingSlashes(p);
      var r := Slashes(n) + Join(FoldComps(n > 0, Split(p, '/'), []), '/');
      if r == "" then "." else r
  }

  /** The components a normalised path may hold: none empty, none ".", no
      ".." in an absolute path, and in a relative one all ".." come first. */
  predicate NormalComps(abs: bool, cs: seq<string>) {
    && (forall i :: 0 <= i < |cs| ==> cs[i] != "" && cs[i] != "." && '/' !in cs[i])
    && (abs ==> forall i :: 0 <= i < |cs| ==> cs[i] != "..")
    && (forall i, j :: 0 <= i < j < |cs| && cs[j] == ".." ==> cs[i] == "..")
  }

  /** A path `normpath` can produce: "." or one or two leading slashes
      followed by normal components. */
  predicate IsNormalPath(r: string) {
    && r != ""
    && (r == "." || (var n := LeadingSlashes(r);
                    n <= |r| && (r[n..] == "" || NormalComps(n > 0, Split(r[n..], '/')))))
  }

  lemma {:induction false} FoldNormal(abs: bool, comps: seq<string>, acc: seq<string>)
    requires NormalComps(abs, acc)
    requires forall i :: 0 <= i < |comps| ==> '/' !in comps[i]
    ensures NormalComps(abs, FoldComps(abs, comps, acc))
    decreases |comps|
  {
    if comps != [] {
      var c := comps[0];
      var acc' := Step(abs, acc, c);
      if !(c == "" || c == ".") && (c != ".." || (!abs && acc == []) || (acc != [] && acc[|acc| - 1] == "..")) {
        if c == ".." && acc != [] {
          assert acc[|acc| - 1] == "..";
          assert !abs;
          forall i | 0 <= i < |acc| ensures acc[i] == ".." {
            if i < |acc| - 1 { assert acc[i] == acc'[i]; }
          }
        }
        assert NormalComps(abs, acc');
      }
      FoldNormal(abs, comps[1..], acc');
    }
  }

  /** A list that is already normal is left unchanged by the loop. */
  lemma {:induction false} FoldIdentity(abs: bool, xs: seq<string>, acc: seq<string>)
    requires NormalComps(abs, acc + xs)
    ensures FoldComps(abs, xs, acc) == acc + xs
    decreases |xs|
  {
    if xs != [] {
      var c := xs[0];
      assert c == (acc + xs)[|acc|];
      if c == ".." && acc != [] {
        assert (acc + xs)[|acc| - 1] == "..";
      }
      assert acc + [c] + xs[1..] == acc + xs;
      FoldIdentity(abs, xs[1..], acc + [c]);
    }
  }

  lemma JoinHead(cs: seq<string>, c: char)
    requires cs != [] && cs[0] != ""
    ensures Join(cs, c) != [] && Join(cs, c)[0] == cs[0][0]
  {
  }

  lemma SplitOfRendered(cs: seq<string>)
    requires NormalComps(false, cs) || NormalComps(true, cs)
    ensures Split(Join(cs, '/'), '/') == (if cs == [] then [""] else cs)
  {
    SplitJoin(cs, '/');
  }

  lemma SplitAfterSlash(j: string)
    ensures Split("/" + j, '/') == [""] + Split(j, '/')
  {
    assert "/" + j == [] + ['/'] + j;
    SplitAppend([], j, '/');
  }

  lemma FoldSkipsEmpty(abs: bool, xs: seq<string>)
    ensures FoldComps(abs, [""] + xs, []) == FoldComps(abs, xs, [])
  {
    assert ([""] + xs)[1..] == xs;
  }

  lemma RenderReparse1(cs: seq<string>)
    requires NormalComps(true, cs)
    ensures LeadingSlashes("/" + Join(cs, '/')) == 1
    ensures FoldComps(true, Split("/" + Join(cs, '/'), '/'), []) == cs
  {
    var j := Join(cs, '/');
    SplitOfRendered(cs);
    if cs != [] {
      JoinHead(cs, '/');
    }
    FoldIdentity(true, cs, []);
    SplitAfterSlash(j);
    FoldSkipsEmpty(true, Split(j, '/'));
    FoldSkipsEmpty(true, []);
  }

  lemma RenderReparse2(cs: seq<string>)
    requires NormalComps(true, cs)
    ensures LeadingSlashes("//" + Join(cs, '/')) == 2
    ensures FoldComps(true, Split("//" + Join(cs, '/'), '/'), []) == cs
  {
    var j := Join(cs, '/');
    RenderReparse1(cs);
    assert "//" + j == "/" + ("/" + j);
    SplitAfterSlash("/" + j);
    FoldSkipsEmpty(true, Split("/" + j, '/'));
    if cs != [] {
      JoinHead(cs, '/');
      assert ("//" + j)[2] == j[0] != '/';
    }
  }

  lemma RenderReparse0(cs: seq<string>)
    requires NormalComps(false, cs)
    requires cs != []
    ensures LeadingSlashes(Join(cs, '/')) == 0
    ensures FoldComps(false, Split(Join(cs, '/'), '/'), []) == cs
  {
    SplitOfRendered(cs);
    JoinHead(cs, '/');
    FoldIdentity(false, cs, []);
  }

  /** Rendering normal components and normalising again gives them back. */
  lemma RenderReparse(n: nat, cs: seq<string>)
    requires n <= 2
    requires NormalComps(n > 0, cs)
    requires Slashes(n) + Join(cs, '/') != ""
    ensures LeadingSlashes(Slashes(n) + Join(cs, '/')) == n
    ensures FoldComps(n > 0, Split(Slashes(n) + Join(cs, '/'), '/'), []) == cs
  {
    var j := Join(cs, '/');
    if n == 0 {
      assert Slashes(n) + j == j;
      RenderReparse0(cs);
    } else if n == 1 {
      assert Slashes(n) + j == "/" + j;
      RenderReparse1(cs);
    } else {
      assert Slashes(n) + j == "//" + j;
      RenderReparse2(cs);
    }
  }

  lemma NormPathOfDot()
    ensures NormPath(".") == "."
  {
    assert Split(".", '/') == ["."] by {
      SplitOfFree(".", '/');
    }
    assert FoldComps(false, ["."], []) == [];
  }

  /** `normpath` only produces normal paths. */
  lemma NormPathNormal(p: string)
    ensures IsNormalPath(NormPath(p))
  {
    if p != "" {
      var n := LeadingSlashes(p);
      var cs := FoldComps(n > 0, Split(p, '/'), []);
      FoldNormal(n > 0, Split(p, '/'), []);
      var r := Slashes(n) + Join(cs, '/');
      if r != "" {
        RenderReparse(n, cs);
        assert r[n..] == Join(cs, '/');
        if Join(cs, '/') != "" {
          SplitJoin(cs, '/');
        }
      }
    }
  }

  /** `normpath` is idempotent. */
  lemma NormPathIdempotent(p: string)
    ensures NormPath(NormPath(p)) == NormPath(p)
  {
    if p == "" {
      NormPathOfDot();
    } else {
      var n := LeadingSlashes(p);
      var cs := FoldComps(n > 0, Split(p, '/'), []);
      FoldNormal(n > 0, Split(p, '/'), []);
      var r := Slashes(n) + Join(cs, '/');
      if r == "" {
        NormPathOfDot();
      } else {
        RenderReparse(n, cs);
      }
    }
  }

  lemma NormPathKeepsAbs(p: string)
    requires IsAbs(p)
    ensures IsAbs(NormPath(p))
  {
  }

  // ---------------------------------------------------------------------------
  // join / abspath

  /** `os.path.join(a, b)`. */
  function PJoin(a: string, b: string): string {
    if IsAbs(b) then b
    else if a == "" || a[|a| - 1] == '/' then a + b
    else a + "/" + b
  }

  /** `os.path.abspath(p)` with the working directory passed in. */
  function AbsPath(cwd: string, p: string): string {
    NormPath(if IsAbs(p) then p else PJoin(cwd, p))
  }

  lemma AbsPathIsAbs(cwd: string, p: string)
    requires IsAbs(cwd)
    ensures IsAbs(AbsPath(cwd, p))
  {
    var q := if IsAbs(p) then p else PJoin(cwd, p);
    assert IsAbs(q);
    NormPathKeepsAbs(q);
  }

  lemma AbsPathIdempotent(cwd: string, p: string)
    requires IsAbs(cwd)
    ensures AbsPath(cwd, AbsPath(cwd, p)) == AbsPath(cwd, p)
  {
    AbsPathIsAbs(cwd, p);
    NormPathIdempotent(if IsAbs(p) then p else PJoin(cwd, p));
  }

  // ---------------------------------------------------------------------------
  // resolved components: what an absolute path names once normalised

  lemma {:induction false} FoldAppend(abs: bool, xs: seq<string>, ys: seq<string>, acc: seq<string>)
    ensures FoldComps(abs, xs + ys, acc) == FoldComps(abs, ys, FoldComps(abs, xs, acc))
    decreases |xs|
  {
    if xs == [] {
      assert xs + ys == ys;
    } else {
      assert (xs + ys)[1..] == xs[1..] + ys;
      FoldAppend(abs, xs[1..], ys, Step(abs, acc, xs[0]));
    }
  }

  lemma {:induction false} NonEmptyAppend(xs: seq<string>, ys: seq<string>)
    ensures NonEmpty(xs + ys) == NonEmpty(xs) + NonEmpty(ys)
    decreases |xs|
  {
    if xs == [] {
      assert xs + ys == ys;
    } else {
      var zs := xs + ys;
      assert zs[0] == xs[0] && zs[1..] == xs[1..] + ys;
      NonEmptyAppend(xs[1..], ys);
      if xs[0] == "" {
        assert NonEmpty(zs) == NonEmpty(zs[1..]);
        assert NonEmpty(xs) == NonEmpty(xs[1..]);
      } else {
        assert NonEmpty(zs) == [xs[0]] + NonEmpty(zs[1..]);
        assert NonEmpty(xs) == [xs[0]] + NonEmpty(xs[1..]);
      }
    }
  }

  lemma {:induction false} NonEmptyOfFull(xs: seq<string>)
    requires forall i :: 0 <= i < |xs| ==> xs[i] != ""
    ensures NonEmpty(xs) == xs
    decreases |xs|
  {
    if xs != [] {
      NonEmptyOfFull(xs[1..]);
      assert [xs[0]] + xs[1..] == xs;
    }
  }

  lemma CompsAfterSlash(j: string)
    ensures Comps("/" + j) == Comps(j)
  {
    SplitAfterSlash(j);
    NonEmptyAppend([""], Split(j, '/'));
    assert NonEmpty([""]) == [];
  }

  lemma CompsOfJoin(F: seq<string>)
    requires NormalComps(true, F)
    ensures Comps(Join(F, '/')) == F
  {
    SplitOfRendered(F);
    NonEmptyOfFull(F);
    assert NonEmpty([""]) == [];
  }

  lemma NormPathOfAbs(p: string)
    requires IsAbs(p)
    ensures 1 <= LeadingSlashes(p) <= 2
    ensures NormPath(p) == Slashes(LeadingSlashes(p)) + Join(FoldComps(true, Split(p, '/'), []), '/')
  {
  }

  /** The components of a normalised absolute path are exactly what the
      component loop computed. */
  lemma CompsOfNormPath(p: string)
    requires IsAbs(p)
    ensures Comps(NormPath(p)) == FoldComps(true, Split(p, '/'), [])
  {
    NormPathOfAbs(p);
    var F := FoldComps(true, Split(p, '/'), []);
    FoldNormal(true, Split(p, '/'), []);
    CompsOfJoin(F);
    CompsOfSlashed(LeadingSlashes(p), Join(F, '/'));
  }

  /** One or two leading slashes add no component. */
  lemma CompsOfSlashed(n: nat, j: string)
    requires 1 <= n <= 2
    ensures Comps(Slashes(n) + j) == Comps(j)
  {
    CompsAfterSlash(j);
    if n == 1 {
      assert Slashes(n) == "/";
    } else {
      assert Slashes(n) + j == "/" + ("/" + j);
      CompsAfterSlash("/" + j);
    }
  }

  lemma PJoinKeepsAbs(a: string, b: string)
    requires !IsAbs(b)
    ensures IsAbs(PJoin(a, b)) <==> IsAbs(a)
  {
    if a != "" {
      assert PJoin(a, b)[0] == a[0];
    }
  }

  /** Joining a relative `b` onto `a` continues the component loop of `a`
      with the components of `b`. */
  lemma FoldOfPJoin(abs: bool, a: string, b: string, acc: seq<string>)
    requires !IsAbs(b)
    ensures FoldComps(abs, Split(PJoin(a, b), '/'), acc)
         == FoldComps(abs, Split(b, '/'), FoldComps(abs, Split(a, '/'), acc))
  {
    if a == "" {
      assert PJoin(a, b) == b;
      assert Split(a, '/') == [""];
    } else if a[|a| - 1] == '/' {
      var a' := a[..|a| - 1];
      assert a == a' + ['/'] + "";
      assert PJoin(a, b) == a' + ['/'] + b;
      SplitAppend(a', b, '/');
      SplitAppend(a', "", '/');
      assert Split("", '/') == [""];
      FoldAppend(abs, Split(a', '/'), Split(b, '/'), acc);
      FoldAppend(abs, Split(a', '/'), [""], acc);
    } else {
      assert PJoin(a, b) == a + ['/'] + b;
      SplitAppend(a, b, '/');
      FoldAppend(abs, Split(a, '/'), Split(b, '/'), acc);
    }
  }

  /** The resolved components of an absolute path. */
  lemma ResolveAbs(cwd: string, p: string)
    requires IsAbs(p)
    ensures Comps(AbsPath(cwd, p)) == FoldComps(true, Split(p, '/'), [])
  {
    CompsOfNormPath(p);
  }

  /** Resolving `join(a, b)` for a relative `b` continues from the resolved
      components of `a`. */
  lemma ResolveJoin(cwd: string, a: string, b: string)
    requires IsAbs(cwd) && !IsAbs(b)
    ensures Comps(AbsPath(cwd, PJoin(a, b))) == FoldComps(true, Split(b, '/'), Comps(AbsPath(cwd, a)))
  {
    PJoinKeepsAbs(a, b);
    if IsAbs(a) {
      CompsOfNormPath(a);
      CompsOfNormPath(PJoin(a, b));
      FoldOfPJoin(true, a, b, []);
    } else {
      PJoinKeepsAbs(cwd, a);
      PJoinKeepsAbs(cwd, PJoin(a, b));
      CompsOfNormPath(PJoin(cwd, a));
      CompsOfNormPath(PJoin(cwd, PJoin(a, b)));
      FoldOfPJoin(true, cwd, PJoin(a, b), []);
      FoldOfPJoin(true, a, b, FoldComps(true, Split(cwd, '/'), []));
      FoldOfPJoin(true, cwd, a, []);
    }
  }

  /** Resolved components are normal: no "", ".", ".." and no separator. */
  lemma ResolvedNormal(cwd: string, p: string)
    requires IsAbs(cwd)
    ensures NormalComps(true, Comps(AbsPath(cwd, p)))
  {
    var q := if IsAbs(p) then p else PJoin(cwd, p);
    if !IsAbs(p) { PJoinKeepsAbs(cwd, p); }
    CompsOfNormPath(q);
    FoldNormal(true, Split(q, '/'), []);
  }

  /** Folding components onto an absolute resolution gives what folding
      their relative normal form gives: the relative loop cancels a ".."
      only against a name it kept, which the absolute loop cancels too. */
  lemma {:induction false} FoldThroughRelative(xs: seq<string>, R: seq<string>, acc: seq<string>)
    requires NormalComps(true, acc) && NormalComps(false, R)
    requires forall i :: 0 <= i < |xs| ==> '/' !in xs[i]
    ensures FoldComps(true, xs, FoldComps(true, R, acc)) == FoldComps(true, FoldComps(false, xs, R), acc)
    decreases |xs|
  {
    if xs != [] {
      var c := xs[0];
      var R' := Step(false, R, c);
      StepThroughRelative(R, acc, c);
      FoldNormal(false, [c], R);
      FoldThroughRelative(xs[1..], R', acc);
    }
  }

  /** One step of `FoldThroughRelative`. */
  lemma StepThroughRelative(R: seq<string>, acc: seq<string>, c: string)
    requires NormalComps(true, acc) && NormalComps(false, R)
    ensures Step(true, FoldComps(true, R, acc), c) == FoldComps(true, Step(false, R, c), acc)
  {
    FoldNormal(true, R, acc);
    FoldAppend(true, R, [c], acc);
    if c == ".." && R != [] && R[|R| - 1] != ".." {
      var P := R[..|R| - 1];
      assert R == P + [R[|R| - 1]];
      FoldAppend(true, P, [R[|R| - 1]], acc);
    }
  }

  /** `normpath` does not change what a path resolves to. */
  lemma ResolveNormPath(cwd: string, p: string)
    requires IsAbs(cwd)
    ensures Comps(AbsPath(cwd, NormPath(p))) == Comps(AbsPath(cwd, p))
  {
    if IsAbs(p) {
      NormPathKeepsAbs(p);
      NormPathIdempotent(p);
    } else {
      var C0 := Comps(AbsPath(cwd, ""));
      RelativeNormPath(p, C0);
      ResolveRelative(cwd, p);
      ResolveRelative(cwd, NormPath(p));
      ResolvedNormal(cwd, "");
      FoldThroughRelative(Split(p, '/'), [], C0);
    }
  }

  /** A relative path resolves by folding its components onto the working
      directory. */
  lemma ResolveRelative(cwd: string, p: string)
    requires IsAbs(cwd) && !IsAbs(p)
    ensures Comps(AbsPath(cwd, p)) == FoldComps(true, Split(p, '/'), Comps(AbsPath(cwd, "")))
  {
    assert PJoin("", p) == p;
    ResolveJoin(cwd, "", p);
  }

  /** The normal form of a relative path is relative and folds like the
      relative normal form of its components. */
  lemma RelativeNormPath(p: string, C0: seq<string>)
    requires !IsAbs(p)
    ensures !IsAbs(NormPath(p))
    ensures FoldComps(true, Split(NormPath(p), '/'), C0) == FoldComps(true, FoldComps(false, Split(p, '/'), []), C0)
  {
    var F := FoldComps(false, Split(p, '/'), []);
    FoldNormal(false, Split(p, '/'), []);
    if p == "" || F == [] {
      assert NormPath(p) == ".";
      SplitOfFree(".", '/');
      assert FoldComps(true, ["."], C0) == C0;
      if p == "" {
        assert Split(p, '/') == [""];
        assert FoldComps(false, [""], []) == FoldComps(false, [], []);
      }
    } else {
      JoinHead(F, '/');
      assert LeadingSlashes(p) == 0;
      assert Slashes(0) + Join(F, '/') == Join(F, '/');
      assert NormPath(p) == Join(F, '/');
      SplitOfRendered(F);
    }
  }

  /** A component that is a plain name is appended. */
  lemma StepName(acc: seq<string>, c: string)
    requires c != "" && c != "." && c != ".."
    ensures Step(true, acc, c) == acc + [c]
  {
  }

  /** ".." drops the last component (and is ignored at the root). */
  lemma StepParent(acc: seq<string>)
    requires NormalComps(true, acc)
    ensures Step(true, acc, "..") == if acc == [] then [] else acc[..|acc| - 1]
  {
  }

  lemma {:induction false} FoldKeepsOut(abs: bool, comps: seq<string>, acc: seq<string>, x: char)
    requires forall i :: 0 <= i < |comps| ==> x !in comps[i]
    requires forall i :: 0 <= i < |acc| ==> x !in acc[i]
    ensures forall i :: 0 <= i < |FoldComps(abs, comps, acc)| ==> x !in FoldComps(abs, comps, acc)[i]
    decreases |comps|
  {
    if comps != [] {
      var acc' := Step(abs, acc, comps[0]);
      assert forall i :: 0 <= i < |acc'| ==> x !in acc'[i];
      FoldKeepsOut(abs, comps[1..], acc', x);
    }
  }

  /** `normpath` introduces no character other than '/' and '.'. */
  lemma NormPathKeepsOut(p: string, x: char)
    requires x !in p && x != '/' && x != '.'
    ensures x !in NormPath(p)
  {
    if p != "" {
      var n := LeadingSlashes(p);
      SplitKeepsOut(p, '/', x);
      FoldKeepsOut(n > 0, Split(p, '/'), [], x);
      JoinKeepsOut(FoldComps(n > 0, Split(p, '/'), []), '/', x);
    }
  }

  /** The head of `p` up to and including its last separator. */
  function Head(p: string): string {
    p[..RFind(p, '/') + 1]
  }

  lemma HeadAndBase(p: string)
    ensures Head(p) + BaseName(p) == p
    ensures Head(p) == "" || Head(p)[|Head(p)| - 1] == '/'
  {
  }

  /** A path whose final component is a plain name resolves to its head's
      components followed by that name. */
  lemma ResolveLast(cwd: string, p: string)
    requires IsAbs(cwd)
    requires BaseName(p) != "" && BaseName(p) != "." && BaseName(p) != ".."
    ensures Comps(AbsPath(cwd, p)) == Comps(AbsPath(cwd, Head(p))) + [BaseName(p)]
  {
    ResolveLastStep(cwd, p);
  }

  /** Any path resolves to its head's components followed by one step of
      the component loop for its final component. */
  lemma ResolveLastStep(cwd: string, p: string)
    requires IsAbs(cwd)
    ensures Comps(AbsPath(cwd, p)) == Step(true, Comps(AbsPath(cwd, Head(p))), BaseName(p))
  {
    var h := Head(p);
    var name := BaseName(p);
    HeadAndBase(p);
    assert !IsAbs(name) by {
      if name != "" {
        assert name[0] != '/';
      }
    }
    assert PJoin(h, name) == p by {
      if h != "" {
        assert h[|h| - 1] == '/';
      }
    }
    ResolveJoin(cwd, h, name);
    SplitOfFree(name, '/');
    var X := Comps(AbsPath(cwd, h));
    assert FoldComps(true, [name], X) == FoldComps(true, [], Step(true, X, name));
  }

  /** A trailing separator adds no component. */
  lemma ResolveSlash(cwd: string, t: string)
    requires IsAbs(cwd) && t != ""
    ensures Comps(AbsPath(cwd, t + "/")) == Comps(AbsPath(cwd, t))
  {
    var q := if IsAbs(t) then t else PJoin(cwd, t);
    assert IsAbs(t + "/") == IsAbs(t) by {
      assert (t + "/")[0] == t[0];
    }
    if !IsAbs(t) {
      PJoinKeepsAbs(cwd, t);
      assert !IsAbs(t + "/");
      assert PJoin(cwd, t + "/") == q + "/";
    }
    assert IsAbs(q + "/") by {
      assert (q + "/")[0] == q[0];
    }
    CompsOfNormPath(q);
    CompsOfNormPath(q + "/");
    assert q + "/" == q + ['/'] + "";
    SplitAppend(q, "", '/');
    assert Split("", '/') == [""];
    FoldAppend(true, Split(q, '/'), [""], []);
  }

  lemma {:induction false} ResolveSlashes(cwd: string, t: string, k: nat)
    requires IsAbs(cwd) && t != ""
    ensures Comps(AbsPath(cwd, t + Slashes(k))) == Comps(AbsPath(cwd, t))
    decreases k
  {
    if k == 0 {
      assert t + Slashes(k) == t;
    } else {
      ResolveSlashes(cwd, t, k - 1);
      assert t + Slashes(k) == (t + Slashes(k - 1)) + "/";
      ResolveSlash(cwd, t + Slashes(k - 1));
    }
  }

  /** `dirname` names the same directory as the head it strips. */
  lemma ResolveDirName(cwd: string, p: string)
    requires IsAbs(cwd)
    ensures Comps(AbsPath(cwd, DirName(p))) == Comps(AbsPath(cwd, Head(p)))
  {
    var head := Head(p);
    if head != "" && head != Slashes(|head|) {
      var s := RStripChar(head, '/');
      assert head == s + Slashes(|head| - |s|);
      ResolveSlashes(cwd, s, |head| - |s|);
    }
  }

  // ---------------------------------------------------------------------------
  // relpath

  function NonEmpty(xs: seq<string>): (r: seq<string>)
    ensures forall i :: 0 <= i < |r| ==> r[i] != "" && r[i] in xs
    decreases |xs|
  {
    if xs == [] then []
    else if xs[0] == "" then NonEmpty(xs[1..])
    else [xs[0]] + NonEmpty(xs[1..])
  }

  /** `[x for x in p.split('/') if x]`: the non-empty components of a path. */
  function Comps(p: string): (r: seq<string>)
    ensures forall i :: 0 <= i < |r| ==> r[i] != "" && '/' !in r[i]
  {
    NonEmpty(Split(p, '/'))
  }

  function CommonPrefixLen(a: seq<string>, b: seq<string>): (r: nat)
    ensures r <= |a| && r <= |b| && a[..r] == b[..r]
    ensures r < |a| && r < |b| ==> a[r] != b[r]
    decreases |a|
  {
    if a == [] || b == [] || a[0] != b[0] then 0
    else 1 + CommonPrefixLen(a[1..], b[1..])
  }

  function Repeat(x: string, n: nat): (r: seq<string>)
    ensures |r| == n && forall i :: 0 <= i < n ==> r[i] == x
  {
    seq(n, _ => x)
  }

  /** `os.path.relpath(path, start)`; `None` stands for the `ValueError`
      raised on an empty `path`. */
  function RelPath(cwd: string, path: string, start: string): (r: Option<string>)
    ensures r.None? <==> path == ""
  {
    if path == "" then None
    else
      var sl := Comps(AbsPath(cwd, start));
      var pl := Comps(AbsPath(cwd, path));
      var i := CommonPrefixLen(sl, pl);
      var rel := Repeat("..", |sl| - i) + pl[i..];
      Some(if rel == [] then "." else Join(rel, '/'))
  }

  lemma CommonPrefixOfPrefix(a: seq<string>, b: seq<string>)
    ensures (CommonPrefixLen(a, b) == |a|) <==> a <= b
  {
  }

  lemma JoinStartsDotDot(xs: seq<string>)
    requires xs != [] && xs[0] != "" && '/' !in xs[0]
    ensures ".." <= Join(xs, '/') <==> ".." <= xs[0]
  {
    if |xs| > 1 {
      var j := Join(xs, '/');
      assert j == xs[0] + ['/'] + Join(xs[1..], '/');
      if |xs[0]| == 1 {
        assert j[1] == '/';
      } else {
        assert j[..2] == xs[0][..2];
      }
    }
  }

  /** Relative to a directory whose components are a prefix of the target's,
      `relpath` is the join of the remaining components. */
  lemma RelPathOfDescendant(cwd: string, path: string, start: string)
    requires path != ""
    requires Comps(AbsPath(cwd, start)) <= Comps(AbsPath(cwd, path))
    ensures var D := Comps(AbsPath(cwd, start));
            var T := Comps(AbsPath(cwd, path));
            RelPath(cwd, path, start) == Some(if |T| == |D| then "." else Join(T[|D|..], '/'))
  {
    var D := Comps(AbsPath(cwd, start));
    var T := Comps(AbsPath(cwd, path));
    CommonPrefixOfPrefix(D, T);
    assert Repeat("..", 0) + T[|D|..] == T[|D|..];
  }

  // ---------------------------------------------------------------------------
  // basename, dirname, splitext

  /** `p.rfind(c)`, -1 when absent. */
  function RFind(p: string, c: char): (r: int)
    ensures -1 <= r < |p|
    ensures r >= 0 ==> p[r] == c
    ensures forall j :: r < j < |p| ==> p[j] != c
    decreases |p|
  {
    if p == [] then -1
    else if p[|p| - 1] == c then |p| - 1
    else RFind(p[..|p| - 1], c)
  }

  function BaseName(p: string): (r: string)
    ensures |r| <= |p| && r == p[|p| - |r|..]
    ensures '/' !in r
    ensures |r| == |p| || p[|p| - |r| - 1] == '/'
  {
    p[RFind(p, '/') + 1..]
  }

  function RStripChar(s: string, c: char): (r: string)
    ensures |r| <= |s| && r == s[..|r|]
    ensures r == [] || r[|r| - 1] != c
    ensures forall j :: |r| <= j < |s| ==> s[j] == c
    decreases |s|
  {
    if s != [] && s[|s| - 1] == c then RStripChar(s[..|s| - 1], c) else s
  }

  function DirName(p: string): string {
    var head := p[..RFind(p, '/') + 1];
    if head != "" && head != Slashes(|head|) then RStripChar(head, '/') else head
  }

  predicate AllDots(s: string) {
    forall i :: 0 <= i < |s| ==> s[i] == '.'
  }

  datatype Split2 = Split2(root: string, ext: string)

  /** Where `os.path.splitext` cuts `p`: the last dot of the final component,
      provided some character before that dot (in the component) is not a
      dot; `|p|` when there is no extension. */
  function ExtIndex(p: string): (r: nat)
    ensures r <= |p|
    ensures r < |p| ==> p[r] == '.'
    ensures forall k :: r < k < |p| ==> p[k] != '.' && p[k] != '/'
  {
    var sepI := RFind(p, '/');
    var dotI := RFind(p, '.');
    if dotI > sepI && !AllDots(p[sepI + 1..dotI]) then dotI else |p|
  }

  /** `os.path.splitext`. */
  function SplitExt(p: string): (r: Split2)
    ensures r.root + r.ext == p
    ensures r.ext == "" || r.ext[0] == '.'
    ensures forall k :: 1 <= k < |r.ext| ==> r.ext[k] != '.' && r.ext[k] != '/'
  {
    var i := ExtIndex(p);
    ExtTail(p, i);
    Split2(p[..i], p[i..])
  }

  lemma ExtTail(p: string, i: nat)
    requires i <= |p| && (i < |p| ==> p[i] == '.')
    requires forall k :: i < k < |p| ==> p[k] != '.' && p[k] != '/'
    ensures p[..i] + p[i..] == p
    ensures var ext := p[i..];
            && (ext == "" || ext[0] == '.')
            && forall k :: 1 <= k < |ext| ==> ext[k] != '.' && ext[k] != '/'
  {
    var ext := p[i..];
    forall k | 1 <= k < |ext| ensures ext[k] != '.' && ext[k] != '/' {
      assert ext[k] == p[i + k];
    }
  }

  /** The common case spelled out: a path `dir + stem + "." + ext` whose
      stem starts with a non-dot and whose stem and extension hold no dot or
      separator splits right before the dot. */
  lemma SplitExtOf(dir: string, stem: string, ext: string)
    requires stem != "" && stem[0] != '.'
    requires '.' !in stem && '/' !in stem && '.' !in ext && '/' !in ext
    ensures SplitExt(dir + stem + "." + ext) == Split2(dir + stem, "." + ext)
  {
    var A := dir + stem;
    var B := "." + ext;
    var p := A + B;
    assert dir + stem + "." + ext == p;
    var dotI := |A|;
    forall j | dotI < j < |p| ensures p[j] != '.' && p[j] != '/' {
      assert p[j] == ext[j - dotI - 1];
    }
    forall j | |dir| <= j < dotI ensures p[j] != '/' {
      assert p[j] == stem[j - |dir|];
    }
    assert p[dotI] == '.';
    var sepI := RFind(p, '/');
    assert sepI < |dir|;
    assert RFind(p, '.') == dotI;
    assert p[sepI + 1..dotI][|dir| - sepI - 1] == p[|dir|] == stem[0];
    assert ExtIndex(p) == dotI;
    assert p[..dotI] == A;
    assert p[dotI..] == B;
  }

  /** A path without any dot has no extension. */
  lemma SplitExtNoDot(p: string)
    requires '.' !in p
    ensures SplitExt(p) == Split2(p, "")
  {
    assert RFind(p, '.') == -1;
  }

  predicate HasInnerDot(name: string) {
    exists i, j :: 0 <= i < j < |name| && name[i] != '.' && name[j] == '.'
  }

  /** The extension is non-empty exactly when the final component has a dot
      that some non-dot character precedes; so ".bashrc" has none. */
  lemma SplitExtNonEmptyIff(p: string)
    ensures SplitExt(p).ext != "" <==> HasInnerDot(BaseName(p))
  {
    var sepI := RFind(p, '/');
    var dotI := RFind(p, '.');
    ExtTaken(p);
    assert BaseName(p) == p[sepI + 1..];
    TakenIffInnerDot(p, sepI, dotI);
  }

  /** The extension is non-empty exactly when `ExtIndex` takes the last dot. */
  lemma ExtTaken(p: string)
    ensures var sepI := RFind(p, '/');
            var dotI := RFind(p, '.');
            SplitExt(p).ext != "" <==> dotI > sepI && !AllDots(p[sepI + 1..dotI])
  {
    assert SplitExt(p).ext == p[ExtIndex(p)..];
  }

  lemma TakenIffInnerDot(p: string, sepI: int, dotI: int)
    requires -1 <= sepI < |p| && -1 <= dotI < |p|
    requires dotI >= 0 ==> p[dotI] == '.'
    requires forall q :: dotI < q < |p| ==> p[q] != '.'
    ensures dotI > sepI && !AllDots(p[sepI + 1..dotI]) <==> HasInnerDot(p[sepI + 1..])
  {
    var name := p[sepI + 1..];
    if HasInnerDot(name) {
      var i, j :| 0 <= i < j < |name| && name[i] != '.' && name[j] == '.';
      assert p[sepI + 1 + i] == name[i] && p[sepI + 1 + j] == name[j];
      InnerDotTaken(p, sepI, dotI, i, j);
    }
    if dotI > sepI && !AllDots(p[sepI + 1..dotI]) {
      DotAfterNonDot(p, sepI, dotI);
    }
  }

  lemma DotAfterNonDot(p: string, sepI: int, dotI: int)
    requires -1 <= sepI < dotI < |p| && p[dotI] == '.'
    requires !AllDots(p[sepI + 1..dotI])
    ensures HasInnerDot(p[sepI + 1..])
  {
    var mid := p[sepI + 1..dotI];
    var name := p[sepI + 1..];
    var k :| 0 <= k < |mid| && mid[k] != '.';
    assert name[k] == mid[k];
    assert name[dotI - sepI - 1] == p[dotI];
  }

  lemma InnerDotTaken(p: string, sepI: int, dotI: int, i: int, j: int)
    requires -1 <= sepI < |p| && -1 <= dotI < |p|
    requires forall q :: dotI < q < |p| ==> p[q] != '.'
    requires 0 <= i < j < |p| - sepI - 1
    requires p[sepI + 1 + i] != '.' && p[sepI + 1 + j] == '.'
    ensures dotI > sepI && !AllDots(p[sepI + 1..dotI])
  {
    assert dotI >= sepI + 1 + j;
    assert p[sepI + 1..dotI][i] == p[sepI + 1 + i];
  }
}
