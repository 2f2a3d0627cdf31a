/**
 * Where the file of a fenced block ends up: `normalize_path`, the
 * containment test `is_within_directory`, the two renaming policies for an
 * existing target (`_handle_append_n`, `_handle_backup_dir`),
 * `resolve_output_path` and `get_all_parent_directories`.  The file system
 * is a value (`Disk`) that the renaming policies transform.
 */
module Paths {
  import opened PyStr
  import opened PosixPath

  // ---------------------------------------------------------------------------
  // the file system

  /** The existing entries (files and directories) and the text of the
      readable files, both keyed by the resolved components of their absolute
      path; `cwd` is the directory relative paths are resolved against. */
  datatype Disk = Disk(cwd: string, entries: set<seq<string>>, files: map<seq<string>, string>)

  /** The working directory is absolute and every readable file exists. */
  predicate ValidDisk(d: Disk) {
    IsAbs(d.cwd) && d.files.Keys <= d.entries
  }

  /** What a path names on this disk. */
  function Key(d: Disk, p: string): seq<string> {
    Comps(AbsPath(d.cwd, p))
  }

  /** `os.path.exists`. */
  predicate Exists(d: Disk, p: string) {
    Key(d, p) in d.entries
  }

  /** Reading a file; `None` when it is missing or cannot be read. */
  function Read(d: Disk, p: string): (r: Option<string>)
    ensures ValidDisk(d) && r.Some? ==> Exists(d, p)
  {
    if Key(d, p) in d.files then Some(d.files[Key(d, p)]) else None
  }

  /** Writing a file creates it or replaces its text; nothing else changes. */
  function Write(d: Disk, p: string, text: string): (r: Disk)
    ensures ValidDisk(d) ==> ValidDisk(r)
    ensures r.cwd == d.cwd
    ensures Read(r, p) == Some(text)
    ensures forall q :: Key(d, q) != Key(d, p) ==> Read(r, q) == Read(d, q) && (Exists(r, q) <==> Exists(d, q))
  {
    d.(entries := d.entries + {Key(d, p)}, files := d.files[Key(d, p) := text])
  }

  /** `os.remove`: the entry is gone; nothing else changes. */
  function Remove(d: Disk, p: string): (r: Disk)
    ensures ValidDisk(d) ==> ValidDisk(r)
    ensures r.cwd == d.cwd && !Exists(r, p)
    ensures forall q :: Key(d, q) != Key(d, p) ==> Read(r, q) == Read(d, q) && (Exists(r, q) <==> Exists(d, q))
  {
    d.(entries := d.entries - {Key(d, p)}, files := d.files - {Key(d, p)})
  }

  /** Some proper ancestor of the path is a readable file, so nothing can be
      created at the path (`os.makedirs` and `open` raise). */
  predicate UnderFile(d: Disk, p: string) {
    exists i :: 0 <= i < |Key(d, p)| && Key(d, p)[..i] in d.files
  }

  /** A key and all its ancestors, the root included. */
  function Ancestors(k: seq<string>): (r: set<seq<string>>)
    ensures forall e :: e in r <==> e <= k
  {
    var r := set i | 0 <= i <= |k| :: k[..i];
    assert forall e :: e <= k ==> e == k[..|e|];
    r
  }

  /** `os.makedirs`: the directory and every missing ancestor are created;
      no file changes. */
  function MakeDirs(d: Disk, p: string): (r: Disk)
    ensures ValidDisk(d) ==> ValidDisk(r)
    ensures r.cwd == d.cwd && r.files == d.files
    ensures forall e :: e in r.entries <==> e in d.entries || e <= Key(d, p)
  {
    d.(entries := d.entries + Ancestors(Key(d, p)))
  }

  /** Where an entry at or below `kf` lands when `kf` is renamed to `kt`. */
  function Moved(kf: seq<string>, kt: seq<string>, e: seq<string>): seq<string>
    requires kf <= e
  {
    kt + e[|kf|..]
  }

  lemma MovedInjective(kf: seq<string>, kt: seq<string>)
    ensures forall a, b :: kf <= a && kf <= b && Moved(kf, kt, a) == Moved(kf, kt, b) ==> a == b
  {
    forall a, b | kf <= a && kf <= b && Moved(kf, kt, a) == Moved(kf, kt, b)
      ensures a == b
    {
      assert a[|kf|..] == Moved(kf, kt, a)[|kt|..] == b[|kf|..];
      assert a == kf + a[|kf|..] && b == kf + b[|kf|..];
    }
  }

  /** The texts of the files at or below `kf`, keyed by where they land. */
  function MoveFiles(files: map<seq<string>, string>, kf: seq<string>, kt: seq<string>): (m: map<seq<string>, string>)
    ensures forall e :: e in files && kf <= e ==> Moved(kf, kt, e) in m && m[Moved(kf, kt, e)] == files[e]
    ensures forall k :: k in m ==> exists e :: e in files && kf <= e && k == Moved(kf, kt, e)
  {
    MovedInjective(kf, kt);
    map e | e in files && kf <= e :: Moved(kf, kt, e) := files[e]
  }

  /** The entries at or below `kf`, where they land. */
  function MoveEntries(entries: set<seq<string>>, kf: seq<string>, kt: seq<string>): (m: set<seq<string>>)
    ensures forall e :: e in entries && kf <= e ==> Moved(kf, kt, e) in m
    ensures forall k :: k in m ==> exists e :: e in entries && kf <= e && k == Moved(kf, kt, e)
  {
    set e | e in entries && kf <= e :: Moved(kf, kt, e)
  }

  /** `os.rename`: the entry and everything below it move to the new name,
      keeping their text; entries elsewhere are untouched. */
  function Rename(d: Disk, from: string, to: string): (r: Disk)
    ensures ValidDisk(d) ==> ValidDisk(r)
    ensures r.cwd == d.cwd
    ensures var kf := Key(d, from);
            var kt := Key(d, to);
            && (forall e :: e in d.entries && kf <= e ==> Moved(kf, kt, e) in r.entries)
            && (forall e :: e in d.files && kf <= e ==> Moved(kf, kt, e) in r.files && r.files[Moved(kf, kt, e)] == d.files[e])
            && (!(kf <= kt) && !(kt <= kf) ==> forall e :: kf <= e ==> e !in r.entries)
            && (forall e :: !(kf <= e) && !(kt <= e) ==>
                  (e in r.entries <==> e in d.entries) && (e in r.files <==> e in d.files)
                  && (e in r.files ==> r.files[e] == d.files[e]))
            && (forall k :: k in r.files ==> k in d.files || exists e :: e in d.files && kf <= e && k == Moved(kf, kt, e))
  {
    var kf := Key(d, from);
    var kt := Key(d, to);
    var stay := map e | e in d.files && !(kf <= e) :: d.files[e];
    var moved := MoveFiles(d.files, kf, kt);
    var entries := (set e | e in d.entries && !(kf <= e)) + MoveEntries(d.entries, kf, kt);
    var r := d.(entries := entries, files := stay + moved);
    RenameFacts(d, kf, kt, stay, moved, entries, r);
    r
  }

  lemma RenameFacts(d: Disk, kf: seq<string>, kt: seq<string>, stay: map<seq<string>, string>,
                    moved: map<seq<string>, string>, entries: set<seq<string>>, r: Disk)
    requires stay == map e | e in d.files && !(kf <= e) :: d.files[e]
    requires moved == MoveFiles(d.files, kf, kt)
    requires entries == (set e | e in d.entries && !(kf <= e)) + MoveEntries(d.entries, kf, kt)
    requires r == d.(entries := entries, files := stay + moved)
    ensures ValidDisk(d) ==> ValidDisk(r)
    ensures !(kf <= kt) && !(kt <= kf) ==> forall e :: kf <= e ==> e !in r.entries
    ensures forall e :: !(kf <= e) && !(kt <= e) ==>
              (e in r.entries <==> e in d.entries) && (e in r.files <==> e in d.files)
              && (e in r.files ==> r.files[e] == d.files[e])
  {
    if !(kf <= kt) && !(kt <= kf) {
      forall e | kf <= e
        ensures e !in r.entries
      {
        if e in MoveEntries(d.entries, kf, kt) {
          var e' :| e' in d.entries && kf <= e' && e == Moved(kf, kt, e');
          assert kt <= e;
          PrefixesComparable(kf, kt, e);
        }
      }
    }
    if ValidDisk(d) {
      forall k | k in r.files
        ensures k in r.entries
      {
        if k in moved {
          var e' :| e' in d.files && kf <= e' && k == Moved(kf, kt, e');
        }
      }
    }
  }

  /** Two prefixes of one sequence are prefixes of one another. */
  lemma PrefixesComparable(a: seq<string>, b: seq<string>, e: seq<string>)
    requires a <= e && b <= e
    ensures a <= b || b <= a
  {
    if |a| <= |b| {
      assert a == e[..|a|] == b[..|a|];
    } else {
      assert b == e[..|b|] == a[..|b|];
    }
  }

  /** At the level of paths: a rename of an existing entry to a free name
      leaves the entry there with its text. */
  lemma RenameArrives(d: Disk, from: string, to: string)
    requires ValidDisk(d) && Exists(d, from) && !Exists(d, to)
    ensures Exists(Rename(d, from, to), to) && Read(Rename(d, from, to), to) == Read(d, from)
  {
    var kf := Key(d, from);
    var kt := Key(d, to);
    var r := Rename(d, from, to);
    assert Moved(kf, kt, kf) == kt;
    if kf !in d.files && kt in r.files {
      var e :| e in d.files && kf <= e && kt == Moved(kf, kt, e);
      MovedInjective(kf, kt);
      assert false;
    }
  }

  // ---------------------------------------------------------------------------
  // normalize_path

  function ReplaceChar(s: string, a: char, b: char): (r: string)
    ensures |r| == |s|
    ensures forall i :: 0 <= i < |s| ==> r[i] == (if s[i] == a then b else s[i])
  {
    seq(|s|, i requires 0 <= i < |s| => if s[i] == a then b else s[i])
  }

  /** `normalize_path`: backslashes become separators, then `normpath`; the
      empty path is returned unchanged. */
  function NormalizePath(p: string): (r: string)
    ensures r == "" <==> p == ""
    ensures '\\' !in r
    ensures p != "" ==> IsNormalPath(r)
  {
    if p == "" then ""
    else
      var q := ReplaceChar(p, '\\', '/');
      NormPathKeepsOut(q, '\\');
      NormPathNormal(q);
      NormPath(q)
  }

  /** Normalising twice is normalising once. */
  lemma NormalizePathIdempotent(p: string)
    ensures NormalizePath(NormalizePath(p)) == NormalizePath(p)
  {
    if p != "" {
      var r := NormalizePath(p);
      assert ReplaceChar(r, '\\', '/') == r;
      NormPathIdempotent(ReplaceChar(p, '\\', '/'));
    }
  }

  /** A backslash and a slash mean the same thing. */
  lemma BackslashIsSeparator(p: string)
    ensures NormalizePath(ReplaceChar(p, '\\', '/')) == NormalizePath(p)
  {
    var q := ReplaceChar(p, '\\', '/');
    assert ReplaceChar(q, '\\', '/') == q;
  }

  // ---------------------------------------------------------------------------
  // is_within_directory

  /** `is_within_directory`: the path of `target` relative to `directory`
      (both made absolute) does not start with "..". */
  function IsWithinDirectory(cwd: string, directory: string, target: string): bool {
    var rel := RelPath(cwd, AbsPath(cwd, target), AbsPath(cwd, directory));
    !(".." <= rel.value)
  }

  /** The test holds exactly when the directory's components are a prefix of
      the target's and the first component below it does not itself start
      with ".." (so a child named "..cfg" counts as outside). */
  lemma IsWithinIff(cwd: string, directory: string, target: string)
    requires IsAbs(cwd)
    ensures var D := Comps(AbsPath(cwd, directory));
            var T := Comps(AbsPath(cwd, target));
            IsWithinDirectory(cwd, directory, target) <==> D <= T && (|T| == |D| || !(".." <= T[|D|]))
  {
    var D := Comps(AbsPath(cwd, directory));
    var T := Comps(AbsPath(cwd, target));
    AbsPathIdempotent(cwd, directory);
    AbsPathIdempotent(cwd, target);
    var i := CommonPrefixLen(D, T);
    CommonPrefixOfPrefix(D, T);
    var rel := Repeat("..", |D| - i) + T[i..];
    assert RelPath(cwd, AbsPath(cwd, target), AbsPath(cwd, directory))
        == Some(if rel == [] then "." else Join(rel, '/'));
    if i < |D| {
      assert rel[0] == "..";
      JoinStartsDotDot(rel);
    } else if |T| > |D| {
      assert rel == T[|D|..] && rel[0] == T[|D|];
      JoinStartsDotDot(rel);
    }
  }

  /** Every directory contains itself. */
  lemma WithinSelf(cwd: string, directory: string)
    requires IsAbs(cwd)
    ensures IsWithinDirectory(cwd, directory, directory)
  {
    IsWithinIff(cwd, directory, directory);
  }

  predicate IsPlainName(name: string) {
    name != "" && name != "." && name != ".." && '/' !in name
  }

  /** A child named by a plain name is inside exactly when the name does not
      start with "..". */
  lemma ChildWithinIff(cwd: string, directory: string, name: string)
    requires IsAbs(cwd) && IsPlainName(name)
    ensures IsWithinDirectory(cwd, directory, PJoin(directory, name)) <==> !(".." <= name)
  {
    var D := Comps(AbsPath(cwd, directory));
    assert !IsAbs(name) by {
      assert name[0] != '/';
    }
    ResolveJoin(cwd, directory, name);
    SplitOfFree(name, '/');
    assert FoldComps(true, [name], D) == FoldComps(true, [], Step(true, D, name));
    var T := D + [name];
    assert D <= T && T[|D|] == name;
    IsWithinIff(cwd, directory, PJoin(directory, name));
  }

  /** The parent of a directory other than the root is outside it. */
  lemma ParentNotWithin(cwd: string, directory: string)
    requires IsAbs(cwd) && Comps(AbsPath(cwd, directory)) != []
    ensures !IsWithinDirectory(cwd, directory, PJoin(directory, ".."))
  {
    var D := Comps(AbsPath(cwd, directory));
    ResolvedNormal(cwd, directory);
    ResolveJoin(cwd, directory, "..");
    SplitOfFree("..", '/');
    assert FoldComps(true, [".."], D) == FoldComps(true, [], Step(true, D, ".."));
    StepParent(D);
    IsWithinIff(cwd, directory, PJoin(directory, ".."));
  }

  /** A sibling whose name merely extends the directory's name as a string
      ("base2" next to "base") is outside. */
  lemma SiblingWithSharedPrefixOutside(cwd: string, directory: string, target: string, more: string)
    requires IsAbs(cwd) && more != ""
    requires var D := Comps(AbsPath(cwd, directory));
             D != [] && Comps(AbsPath(cwd, target)) == D[..|D| - 1] + [D[|D| - 1] + more]
    ensures !IsWithinDirectory(cwd, directory, target)
  {
    var D := Comps(AbsPath(cwd, directory));
    var T := Comps(AbsPath(cwd, target));
    IsWithinIff(cwd, directory, target);
    assert |T[|D| - 1]| > |D[|D| - 1]|;
  }

  /** An absolute file name replaces the base in the join. */
  lemma AbsoluteNameReplacesBase(base: string, filename: string)
    requires IsAbs(filename)
    ensures PJoin(base, NormPath(filename)) == NormPath(filename)
  {
    NormPathKeepsAbs(filename);
  }

  /** The name ".." is rejected for every base directory other than the root. */
  lemma ParentNameRejected(d: Disk, baseDir: string, policy: string)
    requires ValidDisk(d) && Comps(AbsPath(d.cwd, NormPath(baseDir))) != []
    ensures ResolveOutputPath(d, baseDir, "..", policy).path.None?
  {
    SplitOfFree("..", '/');
    assert LeadingSlashes("..") == 0;
    assert FoldComps(false, [".."], []) == [".."];
    assert NormPath("..") == "..";
    ParentNotWithin(d.cwd, NormPath(baseDir));
  }

  // ---------------------------------------------------------------------------
  // _handle_append_n

  /** `"{}_{}{}".format(base, n, ext)`. */
  function Numbered(root: string, n: nat, ext: string): string {
    root + "_" + NatToString(n) + ext
  }

  lemma RFindAppendFree(a: string, s: string, c: char)
    requires c !in s
    ensures RFind(a + s, c) == RFind(a, c)
  {
    var r := RFind(a, c);
    forall j | r < j < |a + s| ensures (a + s)[j] != c {
      if j >= |a| {
        assert (a + s)[j] == s[j - |a|];
      }
    }
    if r >= 0 {
      assert (a + s)[r] == c;
    }
  }

  /** Appending text without a separator extends the final component only. */
  lemma AppendToBase(p: string, suffix: string)
    requires '/' !in suffix
    ensures Head(p + suffix) == Head(p)
    ensures BaseName(p + suffix) == BaseName(p) + suffix
  {
    RFindAppendFree(p, suffix, '/');
  }

  lemma NumberSuffixFree(n: nat, ext: string)
    requires '/' !in ext
    ensures '/' !in "_" + NatToString(n) + ext
  {
    var suffix := "_" + NatToString(n) + ext;
    forall i | 0 <= i < |suffix| ensures suffix[i] != '/' {
      if 1 <= i < 1 + |NatToString(n)| {
        assert suffix[i] == NatToString(n)[i - 1];
      } else if i >= 1 + |NatToString(n)| {
        assert suffix[i] == ext[i - 1 - |NatToString(n)|];
      }
    }
  }

  /** A numbered name resolves next to the original: same directory, final
      component with "_n" inserted before the extension. */
  lemma NumberedKey(d: Disk, root: string, n: nat, ext: string)
    requires IsAbs(d.cwd) && '/' !in ext
    ensures Key(d, Numbered(root, n, ext)) == Key(d, Head(root)) + [BaseName(root) + "_" + NatToString(n) + ext]
  {
    var suffix := "_" + NatToString(n) + ext;
    NumberedIsSuffixed(root, BaseName(root), n, ext);
    NumberSuffixFree(n, ext);
    KeyOfSuffixed(d, root, suffix);
  }

  lemma NumberedIsSuffixed(root: string, base: string, n: nat, ext: string)
    ensures Numbered(root, n, ext) == root + ("_" + NatToString(n) + ext)
    ensures base + "_" + NatToString(n) + ext == base + ("_" + NatToString(n) + ext)
  {
  }

  lemma KeyOfSuffixed(d: Disk, p: string, suffix: string)
    requires IsAbs(d.cwd) && '/' !in suffix && suffix != "" && suffix[0] == '_'
    ensures Key(d, p + suffix) == Key(d, Head(p)) + [BaseName(p) + suffix]
  {
    AppendToBase(p, suffix);
    PlainNumberedName(BaseName(p), suffix);
    KeyOfLast(d, p + suffix);
  }

  lemma PlainNumberedName(b: string, suffix: string)
    requires suffix != "" && suffix[0] == '_'
    ensures b + suffix != "" && b + suffix != "." && b + suffix != ".."
  {
    assert (b + suffix)[|b|] == '_';
  }

  lemma KeyOfLast(d: Disk, p: string)
    requires IsAbs(d.cwd)
    requires BaseName(p) != "" && BaseName(p) != "." && BaseName(p) != ".."
    ensures Key(d, p) == Key(d, Head(p)) + [BaseName(p)]
  {
    ResolveLast(d.cwd, p);
  }

  /** `<p>.bak` names a sibling of `p`: the head's key followed by the final
      component with ".bak" added.  It is neither `p` itself nor at or above
      the directory `dirname(p)`. */
  lemma KeyOfBak(d: Disk, p: string)
    requires IsAbs(d.cwd)
    ensures Key(d, p + ".bak") == Key(d, Head(p)) + [BaseName(p) + ".bak"]
    ensures Key(d, p + ".bak") != Key(d, p)
    ensures !(Key(d, p + ".bak") <= Key(d, DirName(p)))
  {
    AppendToBase(p, ".bak");
    BakIsPlain(BaseName(p));
    KeyOfLast(d, p + ".bak");
    ResolveLastStep(d.cwd, p);
    ResolveDirName(d.cwd, p);
    BakDiffers(Key(d, Head(p)), BaseName(p));
  }

  lemma BakIsPlain(b: string)
    ensures b + ".bak" != "" && b + ".bak" != "." && b + ".bak" != ".."
  {
    assert |b + ".bak"| >= 4;
  }

  lemma BakDiffers(H: seq<string>, b: string)
    ensures H + [b + ".bak"] != Step(true, H, b) && !(H + [b + ".bak"] <= H)
  {
    StepShape(H, b);
    if Step(true, H, b) == H + [b] {
      assert (H + [b])[|H|] != (H + [b + ".bak"])[|H|];
    }
  }

  /** One step of the component loop appends the component or keeps a
      prefix of what it had. */
  lemma StepShape(acc: seq<string>, c: string)
    ensures Step(true, acc, c) == acc + [c] || Step(true, acc, c) <= acc
  {
  }

  lemma NumberedNameInjective(x: string, m: nat, n: nat, ext: string)
    requires x + "_" + NatToString(m) + ext == x + "_" + NatToString(n) + ext
    ensures m == n
  {
    var a := x + "_" + NatToString(m) + ext;
    var k := |x| + 1;
    assert |NatToString(m)| == |NatToString(n)|;
    assert a[k..k + |NatToString(m)|] == NatToString(m);
    assert (x + "_" + NatToString(n) + ext)[k..k + |NatToString(n)|] == NatToString(n);
    NatToStringInjective(m, n);
  }

  lemma NumberedKeysDistinct(d: Disk, root: string, ext: string, m: nat, n: nat)
    requires IsAbs(d.cwd) && '/' !in ext && m != n
    ensures Key(d, Numbered(root, m, ext)) != Key(d, Numbered(root, n, ext))
  {
    NumberedKey(d, root, m, ext);
    NumberedKey(d, root, n, ext);
    var km := Key(d, Numbered(root, m, ext));
    var kn := Key(d, Numbered(root, n, ext));
    if km == kn {
      assert km[|km| - 1] == kn[|kn| - 1];
      NumberedNameInjective(BaseName(root), m, n, ext);
    }
  }

  function NumberedKeys(d: Disk, root: string, ext: string, k: nat): set<seq<string>> {
    set m | 1 <= m < k :: Key(d, Numbered(root, m, ext))
  }

  lemma {:induction false} NumberedKeysCount(d: Disk, root: string, ext: string, k: nat)
    requires IsAbs(d.cwd) && '/' !in ext && k >= 1
    ensures |NumberedKeys(d, root, ext, k)| == k - 1
    decreases k
  {
    if k > 1 {
      NumberedKeysCount(d, root, ext, k - 1);
      var prev := NumberedKeys(d, root, ext, k - 1);
      var last := Key(d, Numbered(root, k - 1, ext));
      assert NumberedKeys(d, root, ext, k) == prev + {last};
      if last in prev {
        var m :| 1 <= m < k - 1 && Key(d, Numbered(root, m, ext)) == last;
        NumberedKeysDistinct(d, root, ext, m, k - 1);
      }
    } else {
      assert NumberedKeys(d, root, ext, k) == {};
    }
  }

  /** If the first `k - 1` numbered names all exist, the disk has at least
      `k - 1` entries: the search for a free number ends. */
  lemma CountNumbered(d: Disk, root: string, ext: string, k: nat)
    requires IsAbs(d.cwd) && '/' !in ext && k >= 1
    requires forall m :: 1 <= m < k ==> Exists(d, Numbered(root, m, ext))
    ensures k - 1 <= |d.entries|
  {
    NumberedKeysCount(d, root, ext, k);
    assert NumberedKeys(d, root, ext, k) <= d.entries;
    SubsetCard(NumberedKeys(d, root, ext, k), d.entries);
  }

  lemma SubsetCard<T>(a: set<T>, b: set<T>)
    requires a <= b
    ensures |a| <= |b|
  {
    assert b == a + (b - a);
  }

  /** The loop of `_handle_append_n` from counter `k` on. */
  function FirstFreeFrom(d: Disk, root: string, ext: string, k: nat): (r: nat)
    requires IsAbs(d.cwd) && '/' !in ext && k >= 1
    requires forall m :: 1 <= m < k ==> Exists(d, Numbered(root, m, ext))
    ensures r >= k && !Exists(d, Numbered(root, r, ext))
    ensures forall m :: 1 <= m < r ==> Exists(d, Numbered(root, m, ext))
    decreases |d.entries| + 1 - k
  {
    CountNumbered(d, root, ext, k);
    if Exists(d, Numbered(root, k, ext)) then
      CountNumbered(d, root, ext, k + 1);
      FirstFreeFrom(d, root, ext, k + 1)
    else k
  }

  /** `_handle_append_n`: the first free name `root_n.ext`, counting from 1. */
  function HandleAppendN(d: Disk, path: string): (r: string)
    requires ValidDisk(d)
    ensures !Exists(d, r)
    ensures var se := SplitExt(path);
            exists n: nat :: n >= 1 && r == Numbered(se.root, n, se.ext)
              && forall m :: 1 <= m < n ==> Exists(d, Numbered(se.root, m, se.ext))
  {
    var se := SplitExt(path);
    var n := FirstFreeFrom(d, se.root, se.ext, 1);
    Numbered(se.root, n, se.ext)
  }

  // ---------------------------------------------------------------------------
  // _handle_backup_dir

  /** `os.path.join(os.path.dirname(path), 'backup')`. */
  function BackupDir(path: string): string {
    PJoin(DirName(path), "backup")
  }

  /** The disk once the backup directory exists (`os.makedirs` when it is
      missing): entries are only added, and no file changes. */
  function WithBackupDir(d: Disk, path: string): (r: Disk)
    ensures ValidDisk(d) ==> ValidDisk(r)
    ensures r.cwd == d.cwd && r.files == d.files && d.entries <= r.entries
    ensures Exists(r, BackupDir(path))
  {
    if Exists(d, BackupDir(path)) then d else MakeDirs(d, BackupDir(path))
  }

  /** Where the existing file goes: `backup/<name>`, numbered when taken. */
  function BackupTarget(d: Disk, path: string): (r: string)
    requires ValidDisk(d)
    ensures !Exists(WithBackupDir(d, path), r)
    ensures var d1 := WithBackupDir(d, path);
            var bp := PJoin(BackupDir(path), BaseName(path));
            var se := SplitExt(bp);
            && (!Exists(d1, bp) ==> r == bp)
            && (Exists(d1, bp) ==> exists n: nat :: n >= 1 && r == Numbered(se.root, n, se.ext)
                                     && forall m :: 1 <= m < n ==> Exists(d1, Numbered(se.root, m, se.ext)))
  {
    var d1 := WithBackupDir(d, path);
    var bp := PJoin(BackupDir(path), BaseName(path));
    if Exists(d1, bp) then HandleAppendN(d1, bp) else bp
  }

  /** `_handle_backup_dir`: the existing entry, with everything below it, is
      moved to a free name in the `backup` directory next to it, so the
      original name can be written; the returned path is the original one.
      Only entries at or below the two names change, and the only entries
      created besides the moved ones are the backup directory and its
      ancestors. */
  function HandleBackupDir(d: Disk, path: string): (r: (string, Disk))
    requires ValidDisk(d)
    ensures r.0 == path
    ensures ValidDisk(r.1) && r.1.cwd == d.cwd
    ensures var d1 := WithBackupDir(d, path);
            var bp := BackupTarget(d, path);
            var kp := Key(d, path);
            var kb := Key(d, bp);
            && !Exists(d1, bp)
            && (Exists(d, path) ==>
                  && Exists(r.1, bp) && Read(r.1, bp) == Read(d, path)
                  && (forall e :: e in d.files && kp <= e ==>
                        Moved(kp, kb, e) in r.1.files && r.1.files[Moved(kp, kb, e)] == d.files[e])
                  && (!(kp <= kb) && !(kb <= kp) ==> !Exists(r.1, path)))
            && (!Exists(d1, path) ==> r.1 == d1)
            && (forall q :: !(kp <= Key(d, q)) && !(kb <= Key(d, q)) ==>
                  && Read(r.1, q) == Read(d, q)
                  && (Exists(d, q) ==> Exists(r.1, q))
                  && (Exists(r.1, q) ==> Exists(d, q) || Key(d, q) <= Key(d, BackupDir(path))))
  {
    var d1 := WithBackupDir(d, path);
    var bp := BackupTarget(d, path);
    if Exists(d1, path) then
      var r := Rename(d1, path, bp);
      BackupMoves(d, path, bp, d1, r);
      (path, r)
    else (path, d1)
  }

  lemma BackupMoves(d: Disk, path: string, bp: string, d1: Disk, r: Disk)
    requires ValidDisk(d) && d1 == WithBackupDir(d, path) && !Exists(d1, bp) && Exists(d1, path)
    requires r == Rename(d1, path, bp)
    ensures ValidDisk(r) && r.cwd == d.cwd
    ensures Exists(d, path) ==> Exists(r, bp) && Read(r, bp) == Read(d, path)
    ensures var kp := Key(d, path);
            var kb := Key(d, bp);
            && (!(kp <= kb) && !(kb <= kp) ==> !Exists(r, path))
            && (forall q :: !(kp <= Key(d, q)) && !(kb <= Key(d, q)) ==>
                  && Read(r, q) == Read(d, q)
                  && (Exists(d, q) ==> Exists(r, q))
                  && (Exists(r, q) ==> Exists(d, q) || Key(d, q) <= Key(d, BackupDir(path))))
  {
    assert d1.cwd == d.cwd && d1.files == d.files;
    RenameArrives(d1, path, bp);
    forall q | !(Key(d, path) <= Key(d, q)) && !(Key(d, bp) <= Key(d, q))
      ensures Read(r, q) == Read(d, q)
      ensures Exists(d, q) ==> Exists(r, q)
      ensures Exists(r, q) ==> Exists(d, q) || Key(d, q) <= Key(d, BackupDir(path))
    {
      BackupFrameAt(d, path, bp, d1, r, Key(d, q));
    }
  }

  lemma BackupFrameAt(d: Disk, path: string, bp: string, d1: Disk, r: Disk, k: seq<string>)
    requires ValidDisk(d) && d1 == WithBackupDir(d, path)
    requires r == Rename(d1, path, bp)
    requires !(Key(d, path) <= k) && !(Key(d, bp) <= k)
    ensures (k in r.files <==> k in d.files) && (k in r.files ==> r.files[k] == d.files[k])
    ensures k in d.entries ==> k in r.entries
    ensures k in r.entries ==> k in d.entries || k <= Key(d, BackupDir(path))
  {
    assert d1.cwd == d.cwd && d1.files == d.files;
  }

  /** Where `_handle_backup_dir` raises instead of moving: the backup
      directory's name is taken by a file (`os.rename` fails with "not a
      directory"), or one of the two names lies below the other (`os.rename`
      refuses to move an entry into its own subtree). */
  predicate BackupRaises(d: Disk, path: string)
    requires ValidDisk(d)
  {
    var bp := BackupTarget(d, path);
    Read(d, BackupDir(path)).Some? || Key(d, path) <= Key(d, bp) || Key(d, bp) <= Key(d, path)
  }

  // ---------------------------------------------------------------------------
  // resolve_output_path

  /** The resolved output path (`None` when the name escapes the base
      directory) and the disk after any renaming. */
  datatype Resolution = Resolution(path: Option<string>, disk: Disk)

  const AppendN := "append_n_to_filename"
  const MoveToBackup := "move_to_backup_dir"

  /** `resolve_output_path` as the source has it: containment is checked
      before the conflict policy renames anything, and not after.  Where the
      move raises, the exception ends the block (`None`); the backup
      directory `os.makedirs` created before `os.rename` raised stays. */
  function ResolveOutputPathAsWritten(d: Disk, baseDir: string, filename: string, policy: string): (r: Resolution)
    requires ValidDisk(d)
    ensures var base := NormPath(baseDir);
            var out := PJoin(base, NormPath(filename));
            && (r.path.None? <==> !IsWithinDirectory(d.cwd, base, out)
                                  || (Exists(d, out) && policy == MoveToBackup && BackupRaises(d, out)))
            && (r.path.None? && !IsWithinDirectory(d.cwd, base, out) ==> r.disk == d)
            && (r.path.None? && IsWithinDirectory(d.cwd, base, out) ==>
                  r.disk == WithBackupDir(d, out))
            && (r.path.Some? && (!Exists(d, out) || (policy != AppendN && policy != MoveToBackup)) ==>
                  r.path.value == out && r.disk == d)
            && (r.path.Some? && Exists(d, out) && policy == AppendN ==>
                  r.path.value == HandleAppendN(d, out) && !Exists(d, r.path.value) && r.disk == d)
            && (r.path.Some? && Exists(d, out) && policy == MoveToBackup ==>
                  r.path.value == out && r.disk == HandleBackupDir(d, out).1
                  && Read(r.disk, BackupTarget(d, out)) == Read(d, out))
  {
    var base := NormPath(baseDir);
    var out := PJoin(base, NormPath(filename));
    if !IsWithinDirectory(d.cwd, base, out) then Resolution(None, d)
    else if Exists(d, out) && policy == AppendN then Resolution(Some(HandleAppendN(d, out)), d)
    else if Exists(d, out) && policy == MoveToBackup then
      if BackupRaises(d, out) then Resolution(None, WithBackupDir(d, out))
      else
        var (p, d') := HandleBackupDir(d, out);
        Resolution(Some(p), d')
    else Resolution(Some(out), d)
  }

  /** Inside the directory and not the directory itself. */
  predicate StrictlyWithin(cwd: string, directory: string, target: string) {
    IsWithinDirectory(cwd, directory, target) && Comps(AbsPath(cwd, target)) != Comps(AbsPath(cwd, directory))
  }

  /** Whatever lies below an entry strictly inside a directory is strictly
      inside it too. */
  lemma BelowStrictlyWithin(cwd: string, directory: string, a: string, b: string)
    requires IsAbs(cwd) && StrictlyWithin(cwd, directory, a)
    requires Comps(AbsPath(cwd, a)) <= Comps(AbsPath(cwd, b))
    ensures StrictlyWithin(cwd, directory, b)
  {
    IsWithinIff(cwd, directory, a);
    IsWithinIff(cwd, directory, b);
    var D := Comps(AbsPath(cwd, directory));
    var A := Comps(AbsPath(cwd, a));
    var B := Comps(AbsPath(cwd, b));
    assert |A| > |D| && B[|D|] == A[|D|];
  }

  /** The backup name of an entry strictly inside a directory is strictly
      inside it too. */
  lemma BakStrictlyWithin(cwd: string, directory: string, p: string)
    requires IsAbs(cwd) && StrictlyWithin(cwd, directory, p)
    ensures StrictlyWithin(cwd, directory, p + ".bak")
  {
    var dk := Disk(cwd, {}, map[]);
    IsWithinIff(cwd, directory, p);
    IsWithinIff(cwd, directory, p + ".bak");
    KeyOfBak(dk, p);
    ResolveLastStep(cwd, p);
    BakInside(Comps(AbsPath(cwd, directory)), Key(dk, Head(p)), BaseName(p));
  }

  lemma BakInside(D: seq<string>, H: seq<string>, b: string)
    requires var T := Step(true, H, b); D <= T && |D| < |T| && !(".." <= T[|D|])
    ensures var B := H + [b + ".bak"]; D <= B && |D| < |B| && !(".." <= B[|D|])
  {
    var T := Step(true, H, b);
    var B := H + [b + ".bak"];
    StepShape(H, b);
    if T == H + [b] {
      assert D <= H;
      if |D| == |H| {
        assert T[|D|] == b && B[|D|] == b + ".bak";
        if |b| >= 2 {
          assert (b + ".bak")[..2] == b[..2];
        } else {
          assert (b + ".bak")[0] == b[0] && ".."[0] == '.';
        }
      } else {
        assert B[|D|] == H[|D|] == T[|D|];
      }
    } else {
      assert D <= H && |D| < |H|;
      assert B[|D|] == H[|D|] == T[|D|];
    }
  }

  /** A move the corrected resolution allows: the entry moved, the backup
      directory and the backup target all lie strictly inside the base, and
      the move does not raise. */
  predicate SafeBackup(d: Disk, base: string, out: string)
    requires ValidDisk(d)
  {
    var bp := BackupTarget(d, out);
    && StrictlyWithin(d.cwd, base, out)
    && StrictlyWithin(d.cwd, base, BackupDir(out))
    && StrictlyWithin(d.cwd, base, bp)
    && !BackupRaises(d, out)
  }

  /** `resolve_output_path` with containment kept: the path it returns,
      the numbered name included, must lie inside the base, and a move is
      refused unless the entry moved, the backup directory and the backup
      name all lie strictly inside the base (the base itself is never moved
      away).  Where the move raises, it behaves as the source does.  Every
      path it returns lies inside the base directory, and nothing outside it
      (nor the base itself) loses an entry or changes its text. */
  function ResolveOutputPath(d: Disk, baseDir: string, filename: string, policy: string): (r: Resolution)
    requires ValidDisk(d)
    ensures ValidDisk(r.disk) && r.disk.cwd == d.cwd
    ensures r.path.Some? ==> IsWithinDirectory(d.cwd, NormPath(baseDir), r.path.value)
    ensures var base := NormPath(baseDir);
            var out := PJoin(base, NormPath(filename));
            var inside := IsWithinDirectory(d.cwd, base, out);
            && (!inside ==> r == Resolution(None, d))
            && (inside && (!Exists(d, out) || (policy != AppendN && policy != MoveToBackup)) ==>
                  r == Resolution(Some(out), d))
            && (inside && Exists(d, out) && policy == AppendN ==>
                  && r.disk == d
                  && (r.path.Some? <==> IsWithinDirectory(d.cwd, base, HandleAppendN(d, out)))
                  && (r.path.Some? ==> r.path.value == HandleAppendN(d, out) && !Exists(d, r.path.value)))
            && (inside && Exists(d, out) && policy == MoveToBackup ==>
                  && (r.path.Some? <==> SafeBackup(d, base, out))
                  && (r.path.None? ==> r.disk == (if BackupRaises(d, out) then WithBackupDir(d, out) else d))
                  && (r.path.Some? ==> r.path.value == out && r.disk == HandleBackupDir(d, out).1
                                       && Read(r.disk, BackupTarget(d, out)) == Read(d, out)
                                       && !Exists(r.disk, out)))
    ensures forall q :: !StrictlyWithin(d.cwd, NormPath(baseDir), q) ==>
              Read(r.disk, q) == Read(d, q) && (Exists(d, q) ==> Exists(r.disk, q))
  {
    var base := NormPath(baseDir);
    var out := PJoin(base, NormPath(filename));
    if !IsWithinDirectory(d.cwd, base, out) then Resolution(None, d)
    else if Exists(d, out) && policy == AppendN then
      var renamed := HandleAppendN(d, out);
      if IsWithinDirectory(d.cwd, base, renamed) then Resolution(Some(renamed), d) else Resolution(None, d)
    else if Exists(d, out) && policy == MoveToBackup then
      if BackupRaises(d, out) then
        BackupDirKeeps(d, out);
        Resolution(None, WithBackupDir(d, out))
      else if SafeBackup(d, base, out) then
        var (p, d') := HandleBackupDir(d, out);
        SafeBackupFrame(d, base, out);
        Resolution(Some(p), d')
      else Resolution(None, d)
    else Resolution(Some(out), d)
  }

  /** Creating the backup directory keeps every text and every entry. */
  lemma BackupDirKeeps(d: Disk, out: string)
    requires ValidDisk(d)
    ensures var r := WithBackupDir(d, out);
            forall q :: Read(r, q) == Read(d, q) && (Exists(d, q) ==> Exists(r, q))
  {
  }

  /** An allowed move leaves everything outside the base, and the base
      itself, as it was. */
  lemma SafeBackupFrame(d: Disk, base: string, out: string)
    requires ValidDisk(d) && Exists(d, out) && SafeBackup(d, base, out)
    ensures var r := HandleBackupDir(d, out).1;
            && !Exists(r, out)
            && forall q :: !StrictlyWithin(d.cwd, base, q) ==> Read(r, q) == Read(d, q) && (Exists(d, q) ==> Exists(r, q))
  {
    var r := HandleBackupDir(d, out).1;
    SafeBackupKeys(d, base, out);
    forall q | !StrictlyWithin(d.cwd, base, q)
      ensures Read(r, q) == Read(d, q) && (Exists(d, q) ==> Exists(r, q))
    {
      BackupKeepsOther(d, out, q);
    }
  }

  /** A path under neither the moved name nor its backup target keeps its
      text and its entry. */
  lemma BackupKeepsOther(d: Disk, out: string, q: string)
    requires ValidDisk(d)
    requires !(Key(d, out) <= Key(d, q)) && !(Key(d, BackupTarget(d, out)) <= Key(d, q))
    ensures var r := HandleBackupDir(d, out).1;
            Read(r, q) == Read(d, q) && (Exists(d, q) ==> Exists(r, q))
  {
  }

  /** Under a safe move neither name lies below the other, and neither lies
      below a path outside the base. */
  lemma SafeBackupKeys(d: Disk, base: string, out: string)
    requires ValidDisk(d) && SafeBackup(d, base, out)
    ensures var kp := Key(d, out);
            var kb := Key(d, BackupTarget(d, out));
            && !(kp <= kb) && !(kb <= kp)
            && forall q :: !StrictlyWithin(d.cwd, base, q) ==> !(kp <= Key(d, q)) && !(kb <= Key(d, q))
  {
    var bp := BackupTarget(d, out);
    forall q | !StrictlyWithin(d.cwd, base, q)
      ensures !(Key(d, out) <= Key(d, q)) && !(Key(d, bp) <= Key(d, q))
    {
      OutsideNotBelow(d, base, out, q);
      OutsideNotBelow(d, base, bp, q);
    }
  }

  lemma OutsideNotBelow(d: Disk, base: string, p: string, q: string)
    requires IsAbs(d.cwd) && StrictlyWithin(d.cwd, base, p) && !StrictlyWithin(d.cwd, base, q)
    ensures !(Key(d, p) <= Key(d, q))
  {
    if Key(d, p) <= Key(d, q) {
      BelowStrictlyWithin(d.cwd, base, p, q);
    }
  }

  /** The correction agrees with the source wherever the source returns
      no path, and wherever it returns a path inside the base without moving
      an entry that is not strictly inside it. */
  lemma ResolveAgreesInside(d: Disk, baseDir: string, filename: string, policy: string)
    requires ValidDisk(d)
    ensures var base := NormPath(baseDir);
            var out := PJoin(base, NormPath(filename));
            var w := ResolveOutputPathAsWritten(d, baseDir, filename, policy);
            w.path.None? || (IsWithinDirectory(d.cwd, base, w.path.value)
                             && (policy != MoveToBackup || !Exists(d, out) || SafeBackup(d, base, out))) ==>
              ResolveOutputPath(d, baseDir, filename, policy) == w
  {
  }

  // ---------------------------------------------------------------------------
  // the append-n escape
  //
  // Let the base directory exist and end in the component `stem.ext`, and
  // let a block name its file "../stem.ext".  The joined path
  // "base/../stem.ext" resolves to the base itself, so it is inside and it
  // exists; numbering it gives "base/../stem_1.ext", which resolves to a
  // sibling of the base, outside it.

  /** A file name with one inner dot: `stem.ext`. */
  predicate StemExt(stem: string, ext: string) {
    stem != "" && stem[0] != '.' && '.' !in stem && '/' !in stem && '.' !in ext && '/' !in ext
  }

  lemma PJoinAppend(a: string, b: string, rest: string)
    requires b != "" && !IsAbs(b)
    ensures PJoin(a, b + rest) == PJoin(a, b) + rest
  {
    assert (b + rest)[0] == b[0];
  }

  lemma SplitUp(name: string)
    requires '/' !in name
    ensures Split("../" + name, '/') == ["..", name]
  {
    SplitAppend("..", name, '/');
    SplitOfFree("..", '/');
    SplitOfFree(name, '/');
    assert "../" + name == ".." + ['/'] + name;
  }

  lemma FoldUp(name: string)
    requires IsPlainName(name)
    ensures FoldComps(false, ["..", name], []) == ["..", name]
  {
    assert ["..", name][1..] == [name];
    assert Step(false, [], "..") == [".."];
    assert Step(false, [".."], name) == ["..", name];
    assert FoldComps(false, [name], [".."]) == FoldComps(false, [], ["..", name]);
  }

  lemma JoinUp(name: string)
    ensures Join(["..", name], '/') == "../" + name
  {
    assert ["..", name][1..] == [name];
  }

  lemma NormPathUp(name: string)
    requires IsPlainName(name)
    ensures NormPath("../" + name) == "../" + name
  {
    var p := "../" + name;
    SplitUp(name);
    assert LeadingSlashes(p) == 0 by {
      assert p[0] == '.';
    }
    FoldUp(name);
    JoinUp(name);
    assert Slashes(0) == "";
  }

  lemma HeadAfterDir(dir: string, stem: string)
    requires dir != "" && dir[|dir| - 1] == '/' && '/' !in stem
    ensures Head(dir + stem) == dir && BaseName(dir + stem) == stem
  {
    AppendToBase(dir, stem);
    assert RFind(dir, '/') == |dir| - 1;
  }

  /** The extension of "base/../stem.ext" is ".ext". */
  lemma EscapeSplitExt(base: string, stem: string, ext: string)
    requires StemExt(stem, ext)
    ensures SplitExt(PJoin(base, "../" + stem + "." + ext)) == Split2(PJoin(base, "../") + stem, "." + ext)
  {
    var up := PJoin(base, "../");
    assert !IsAbs("../") by {
      assert "../"[0] == '.';
    }
    PJoinAppend(base, "../", stem + "." + ext);
    assert "../" + stem + "." + ext == "../" + (stem + "." + ext);
    assert up + (stem + "." + ext) == up + stem + "." + ext;
    SplitExtOf(up, stem, ext);
  }

  /** Numbering "base/../stem" + ".ext" names "stem_1.ext" next to "base/..". */
  lemma EscapeNumbered(d: Disk, base: string, stem: string, ext: string)
    requires IsAbs(d.cwd) && StemExt(stem, ext)
    ensures var up := PJoin(base, "../");
            Key(d, Numbered(up + stem, 1, "." + ext)) == Key(d, up) + [stem + "_1." + ext]
  {
    var up := PJoin(base, "../");
    assert up != "" && up[|up| - 1] == '/';
    HeadAfterDir(up, stem);
    NumberedKey(d, up + stem, 1, "." + ext);
    OneSuffix(stem, ext);
  }

  lemma OneSuffix(stem: string, ext: string)
    ensures stem + "_" + NatToString(1) + ("." + ext) == stem + "_1." + ext
  {
    assert NatToString(1) == "1";
  }

  /** ".." then a plain name equal to the last component gives back the
      same components. */
  lemma FoldUpSame(K: seq<string>, name: string)
    requires NormalComps(true, K) && K != [] && K[|K| - 1] == name && IsPlainName(name)
    ensures FoldComps(true, ["..", name], K) == K
  {
    StepParent(K);
    StepName(K[..|K| - 1], name);
    assert K[..|K| - 1] + [name] == K;
    assert ["..", name][1..] == [name];
    assert FoldComps(true, [name], K[..|K| - 1]) == FoldComps(true, [], K);
  }

  /** "../" drops the last component. */
  lemma FoldUpEmpty(K: seq<string>)
    requires NormalComps(true, K) && K != []
    ensures FoldComps(true, ["..", ""], K) == K[..|K| - 1]
  {
    StepParent(K);
    assert ["..", ""][1..] == [""];
    assert FoldComps(true, [""], K[..|K| - 1]) == FoldComps(true, [], K[..|K| - 1]);
  }

  /** Joining "../name" to a path whose last component is `name` resolves
      to the same place. */
  lemma KeyUpSame(d: Disk, base: string, name: string)
    requires IsAbs(d.cwd) && IsPlainName(name)
    requires Key(d, base) != [] && Key(d, base)[|Key(d, base)| - 1] == name
    ensures Key(d, PJoin(base, "../" + name)) == Key(d, base)
  {
    ResolvedNormal(d.cwd, base);
    SplitUp(name);
    ResolveJoin(d.cwd, base, "../" + name);
    FoldUpSame(Key(d, base), name);
  }

  /** Joining "../" resolves to the parent. */
  lemma KeyUp(d: Disk, base: string)
    requires IsAbs(d.cwd) && Key(d, base) != []
    ensures Key(d, PJoin(base, "../")) == Key(d, base)[..|Key(d, base)| - 1]
  {
    ResolvedNormal(d.cwd, base);
    SplitUp("");
    assert "../" + "" == "../";
    ResolveJoin(d.cwd, base, "../");
    FoldUpEmpty(Key(d, base));
  }

  /** What the joined and the numbered path resolve to. */
  lemma EscapeKeys(d: Disk, base: string, stem: string, ext: string)
    requires IsAbs(d.cwd) && StemExt(stem, ext)
    requires Key(d, base) != [] && Key(d, base)[|Key(d, base)| - 1] == stem + "." + ext
    ensures var K := Key(d, base);
            && Key(d, PJoin(base, "../" + stem + "." + ext)) == K
            && Key(d, PJoin(base, "../")) == K[..|K| - 1]
  {
    var name := stem + "." + ext;
    StemExtPlain(stem, ext);
    assert "../" + name == "../" + stem + "." + ext;
    KeyUpSame(d, base, name);
    KeyUp(d, base);
  }

  lemma StemExtPlain(stem: string, ext: string)
    requires StemExt(stem, ext)
    ensures IsPlainName(stem + "." + ext)
    ensures stem + "." + ext != stem + "_1." + ext
  {
    var name := stem + "." + ext;
    assert name[|stem|] == '.' && name[0] == stem[0];
    assert (stem + "_1." + ext)[|stem|] == '_';
  }

  /** Under the escape's conditions the source returns the numbered name. */
  lemma EscapeResult(d: Disk, base: string, stem: string, ext: string)
    requires ValidDisk(d) && StemExt(stem, ext) && NormPath(base) == base
    requires Exists(d, base)
    requires Key(d, base) != [] && Key(d, base)[|Key(d, base)| - 1] == stem + "." + ext
    requires Key(d, base)[..|Key(d, base)| - 1] + [stem + "_1." + ext] !in d.entries
    ensures var renamed := Numbered(PJoin(base, "../") + stem, 1, "." + ext);
            && Key(d, renamed) == Key(d, base)[..|Key(d, base)| - 1] + [stem + "_1." + ext]
            && IsWithinDirectory(d.cwd, base, PJoin(base, "../" + stem + "." + ext))
            && ResolveOutputPathAsWritten(d, base, "../" + stem + "." + ext, AppendN).path == Some(renamed)
  {
    var name := stem + "." + ext;
    StemExtPlain(stem, ext);
    assert "../" + name == "../" + stem + "." + ext;
    NormPathUp(name);
    EscapeRenamed(d, base, stem, ext);
    EscapeJoinedInside(d, base, stem, ext);
  }

  /** Numbering the joined path gives `stem_1.ext` next to the base. */
  lemma EscapeRenamed(d: Disk, base: string, stem: string, ext: string)
    requires ValidDisk(d) && StemExt(stem, ext)
    requires Key(d, base) != [] && Key(d, base)[|Key(d, base)| - 1] == stem + "." + ext
    requires Key(d, base)[..|Key(d, base)| - 1] + [stem + "_1." + ext] !in d.entries
    ensures var renamed := Numbered(PJoin(base, "../") + stem, 1, "." + ext);
            && HandleAppendN(d, PJoin(base, "../" + stem + "." + ext)) == renamed
            && Key(d, renamed) == Key(d, base)[..|Key(d, base)| - 1] + [stem + "_1." + ext]
  {
    var up := PJoin(base, "../");
    var renamed := Numbered(up + stem, 1, "." + ext);
    EscapeKeys(d, base, stem, ext);
    EscapeSplitExt(base, stem, ext);
    EscapeNumbered(d, base, stem, ext);
    assert !Exists(d, renamed);
    assert FirstFreeFrom(d, up + stem, "." + ext, 1) == 1;
  }

  /** The joined path is the base itself: inside it, and existing. */
  lemma EscapeJoinedInside(d: Disk, base: string, stem: string, ext: string)
    requires IsAbs(d.cwd) && StemExt(stem, ext) && Exists(d, base)
    requires Key(d, base) != [] && Key(d, base)[|Key(d, base)| - 1] == stem + "." + ext
    ensures IsWithinDirectory(d.cwd, base, PJoin(base, "../" + stem + "." + ext))
    ensures Exists(d, PJoin(base, "../" + stem + "." + ext))
  {
    EscapeKeys(d, base, stem, ext);
    IsWithinIff(d.cwd, base, PJoin(base, "../" + stem + "." + ext));
  }

  /** The source's `resolve_output_path` returns a path outside the base
      directory: any existing base whose last component is `stem.ext`, a
      block named "../stem.ext", the append-n policy, and a free sibling
      `stem_1.ext`.  The corrected version refuses the same input, since the
      joined path is the base itself. */
  lemma AppendNEscapesBase(d: Disk, base: string, stem: string, ext: string)
    requires ValidDisk(d) && StemExt(stem, ext) && NormPath(base) == base
    requires Exists(d, base)
    requires Key(d, base) != [] && Key(d, base)[|Key(d, base)| - 1] == stem + "." + ext
    requires Key(d, base)[..|Key(d, base)| - 1] + [stem + "_1." + ext] !in d.entries
    ensures var r := ResolveOutputPathAsWritten(d, base, "../" + stem + "." + ext, AppendN);
            r.path.Some? && !IsWithinDirectory(d.cwd, base, r.path.value)
    ensures ResolveOutputPath(d, base, "../" + stem + "." + ext, AppendN) == Resolution(None, d)
  {
    var K := Key(d, base);
    var renamed := Numbered(PJoin(base, "../") + stem, 1, "." + ext);
    EscapeResult(d, base, stem, ext);
    EscapeKeys(d, base, stem, ext);
    assert !StrictlyWithin(d.cwd, base, PJoin(base, "../" + stem + "." + ext));
    StemExtPlain(stem, ext);
    IsWithinIff(d.cwd, base, renamed);
    assert Key(d, renamed)[|K| - 1] != K[|K| - 1];
  }

  /** One concrete instance: the working directory and the base are "/" and
      "/s.v1" (an existing directory), the block is named "../s.v1". */
  const EscapeDisk := Disk("/", {["s.v1"]}, map[])

  lemma SplitEscapeBase()
    ensures Split("/s.v1", '/') == ["", "s.v1"]
  {
    SplitAppend("", "s.v1", '/');
    SplitOfFree("s.v1", '/');
    assert "/s.v1" == "" + ['/'] + "s.v1";
  }

  lemma EscapeBaseFacts()
    ensures NormPath("/s.v1") == "/s.v1"
    ensures Key(EscapeDisk, "/s.v1") == ["s.v1"]
  {
    SplitEscapeBase();
    FoldEscapeBase();
    NormPathOfAbs("/s.v1");
    assert LeadingSlashes("/s.v1") == 1 by {
      assert "/s.v1"[1] == 's';
    }
    assert Slashes(1) + Join(["s.v1"], '/') == "/s.v1";
    ResolveAbs("/", "/s.v1");
  }

  lemma FoldEscapeBase()
    ensures FoldComps(true, ["", "s.v1"], []) == ["s.v1"]
  {
    assert ["", "s.v1"][1..] == ["s.v1"];
    assert Step(true, [], "") == [];
    assert Step(true, [], "s.v1") == ["s.v1"];
    assert FoldComps(true, ["s.v1"], []) == FoldComps(true, [], ["s.v1"]);
  }

  lemma AppendNEscapeExample()
    ensures ResolveOutputPathAsWritten(EscapeDisk, "/s.v1", "../s.v1", AppendN).path.Some?
    ensures !IsWithinDirectory("/", "/s.v1", ResolveOutputPathAsWritten(EscapeDisk, "/s.v1", "../s.v1", AppendN).path.value)
    ensures ResolveOutputPath(EscapeDisk, "/s.v1", "../s.v1", AppendN) == Resolution(None, EscapeDisk)
  {
    EscapeBaseFacts();
    EscapeExampleNames();
    AppendNEscapesBase(EscapeDisk, "/s.v1", "s", "v1");
  }

  // ---------------------------------------------------------------------------
  // the move-to-backup escape
  //
  // On the same kind of input with the move policy, the joined path is the
  // base directory itself, so `_handle_backup_dir` moves the base directory
  // into "backup" next to it, outside the base.

  /** The base's shape in the family: a path not ending in a separator,
      that names something, whose last component is `name`. */
  predicate NamedBase(d: Disk, base: string, name: string) {
    && IsPlainName(name) && name != "backup"
    && base != "" && base[|base| - 1] != '/'
    && Key(d, base) != [] && Key(d, base)[|Key(d, base)| - 1] == name
  }

  /** The joined path is `base/../name`; its directory part is `base/..`. */
  lemma MoveOutParts(base: string, name: string)
    requires base != "" && base[|base| - 1] != '/' && IsPlainName(name)
    ensures var out := PJoin(base, "../" + name);
            && out == PJoin(base, "../") + name
            && BaseName(out) == name
            && DirName(out) == PJoin(base, "..")
  {
    var up := PJoin(base, "../");
    assert !IsAbs("../") by {
      assert "../"[0] == '.';
    }
    assert !IsAbs("..") by {
      assert ".."[0] == '.';
    }
    PJoinAppend(base, "../", name);
    assert up == base + "/" + "../";
    HeadAfterDir(up, name);
    assert up != Slashes(|up|) by {
      assert up[|up| - 2] == '.';
    }
    assert up[..|up| - 1] == PJoin(base, "..");
    assert RStripChar(up, '/') == RStripChar(PJoin(base, ".."), '/');
  }

  /** The keys of the backup directory and of the backup name. */
  lemma MoveBackupKeys(d: Disk, base: string, name: string)
    requires IsAbs(d.cwd) && NamedBase(d, base, name)
    ensures var K := Key(d, base);
            var bd := PJoin(PJoin(base, ".."), "backup");
            && Key(d, bd) == K[..|K| - 1] + ["backup"]
            && Key(d, PJoin(bd, name)) == K[..|K| - 1] + ["backup", name]
  {
    var K := Key(d, base);
    var P := K[..|K| - 1];
    var dd := PJoin(base, "..");
    var bd := PJoin(dd, "backup");
    ResolvedNormal(d.cwd, base);
    StepParent(K);
    KeyStep(d, base, "..", K);
    assert Key(d, dd) == P;
    BackupIsPlain();
    KeyChild(d, dd, "backup", P);
    KeyChild(d, bd, name, P + ["backup"]);
    assert P + ["backup"] + [name] == P + ["backup", name];
  }

  /** Joining a plain name appends it to the key. */
  lemma KeyChild(d: Disk, a: string, name: string, K: seq<string>)
    requires IsAbs(d.cwd) && IsPlainName(name) && Key(d, a) == K
    ensures Key(d, PJoin(a, name)) == K + [name]
  {
    KeyStep(d, a, name, K);
  }

  lemma BackupIsPlain()
    ensures IsPlainName("backup")
  {
    assert "backup"[0] == 'b';
  }

  lemma KeyStep(d: Disk, a: string, name: string, K: seq<string>)
    requires IsAbs(d.cwd) && name != "" && '/' !in name && Key(d, a) == K
    ensures Key(d, PJoin(a, name)) == Step(true, K, name)
  {
    assert !IsAbs(name) by {
      assert name[0] != '/';
    }
    ResolveJoin(d.cwd, a, name);
    SplitOfFree(name, '/');
    assert FoldComps(true, [name], K) == FoldComps(true, [], Step(true, K, name));
  }

  /** The backup name of `base/../name` is `backup/name` next to the base,
      and it is free. */
  lemma MoveBackupTarget(d: Disk, base: string, name: string)
    requires ValidDisk(d) && NamedBase(d, base, name)
    requires var K := Key(d, base); K[..|K| - 1] + ["backup", name] !in d.entries
    ensures var K := Key(d, base);
            Key(d, BackupTarget(d, PJoin(base, "../" + name))) == K[..|K| - 1] + ["backup", name]
  {
    var out := PJoin(base, "../" + name);
    MoveOutParts(base, name);
    MoveBackupKeys(d, base, name);
    var K := Key(d, base);
    var d1 := WithBackupDir(d, out);
    assert !(K[..|K| - 1] + ["backup", name] <= K[..|K| - 1] + ["backup"]);
    assert K[..|K| - 1] + ["backup", name] !in d1.entries;
  }

  /** The source's `resolve_output_path` with the move policy moves the base
      directory itself away: any existing base ending in a component `name`
      (other than "backup"), a block named "../name", a free `backup/name`
      next to the base and no file named `backup` there.  The corrected version refuses the
      same input and changes nothing. */
  lemma MoveEscapesBase(d: Disk, base: string, name: string)
    requires ValidDisk(d) && NamedBase(d, base, name) && NormPath(base) == base && Exists(d, base)
    requires var K := Key(d, base); K[..|K| - 1] + ["backup", name] !in d.entries
    requires var K := Key(d, base); K[..|K| - 1] + ["backup"] !in d.files
    ensures var K := Key(d, base);
            var r := ResolveOutputPathAsWritten(d, base, "../" + name, MoveToBackup);
            && r.path.Some? && !Exists(r.disk, base)
            && K[..|K| - 1] + ["backup", name] in r.disk.entries
    ensures ResolveOutputPath(d, base, "../" + name, MoveToBackup) == Resolution(None, d)
  {
    var K := Key(d, base);
    var out := PJoin(base, "../" + name);
    NormPathUp(name);
    KeyUpSame(d, base, name);
    IsWithinIff(d.cwd, base, out);
    MoveDoesNotRaise(d, base, name, out);
    MoveMovesBase(d, base, name, out);
    MoveOfBaseRefused(d, base, "../" + name);
  }

  /** The corrected resolution refuses to move the base itself. */
  lemma MoveOfBaseRefused(d: Disk, baseDir: string, filename: string)
    requires ValidDisk(d)
    requires var base := NormPath(baseDir);
             var out := PJoin(base, NormPath(filename));
             && IsWithinDirectory(d.cwd, base, out) && Exists(d, out)
             && Key(d, out) == Key(d, base) && !BackupRaises(d, out)
    ensures ResolveOutputPath(d, baseDir, filename, MoveToBackup) == Resolution(None, d)
  {
  }

  lemma MoveDoesNotRaise(d: Disk, base: string, name: string, out: string)
    requires ValidDisk(d) && NamedBase(d, base, name)
    requires var K := Key(d, base); K[..|K| - 1] + ["backup", name] !in d.entries
    requires var K := Key(d, base); K[..|K| - 1] + ["backup"] !in d.files
    requires out == PJoin(base, "../" + name) && Key(d, out) == Key(d, base)
    ensures !BackupRaises(d, out)
  {
    var K := Key(d, base);
    MoveOutParts(base, name);
    MoveBackupKeys(d, base, name);
    MoveBackupTarget(d, base, name);
    LastNotBackup(K, name);
    assert Key(d, BackupDir(out)) == K[..|K| - 1] + ["backup"];
  }

  lemma MoveMovesBase(d: Disk, base: string, name: string, out: string)
    requires ValidDisk(d) && NamedBase(d, base, name) && Exists(d, base)
    requires var K := Key(d, base); K[..|K| - 1] + ["backup", name] !in d.entries
    requires out == PJoin(base, "../" + name) && Key(d, out) == Key(d, base)
    ensures var K := Key(d, base);
            var r := HandleBackupDir(d, out).1;
            !Exists(r, base) && K[..|K| - 1] + ["backup", name] in r.entries
  {
    var K := Key(d, base);
    MoveBackupTarget(d, base, name);
    LastNotBackup(K, name);
  }

  lemma LastNotBackup(K: seq<string>, name: string)
    requires K != [] && K[|K| - 1] == name && name != "backup"
    ensures !(K <= K[..|K| - 1] + ["backup", name])
  {
    var kb := K[..|K| - 1] + ["backup", name];
    assert kb[|K| - 1] == "backup";
  }

  /** One concrete instance: the same disk and block as the append-n
      escape; "/s.v1" ends up at "/backup/s.v1". */
  lemma MoveEscapeExample()
    ensures var r := ResolveOutputPathAsWritten(EscapeDisk, "/s.v1", "../s.v1", MoveToBackup);
            r.path.Some? && !Exists(r.disk, "/s.v1") && ["backup", "s.v1"] in r.disk.entries
    ensures ResolveOutputPath(EscapeDisk, "/s.v1", "../s.v1", MoveToBackup) == Resolution(None, EscapeDisk)
  {
    EscapeNamedBase();
    MoveEscapesBase(EscapeDisk, "/s.v1", "s.v1");
  }

  lemma EscapeNamedBase()
    ensures ValidDisk(EscapeDisk) && NormPath("/s.v1") == "/s.v1" && Exists(EscapeDisk, "/s.v1")
    ensures NamedBase(EscapeDisk, "/s.v1", "s.v1")
    ensures var K := Key(EscapeDisk, "/s.v1"); K[..|K| - 1] + ["backup", "s.v1"] == ["backup", "s.v1"]
    ensures ["backup", "s.v1"] !in EscapeDisk.entries
    ensures "../" + "s.v1" == "../s.v1"
  {
    EscapeBaseFacts();
    EscapeExampleNames();
    StemExtPlain("s", "v1");
    assert "s.v1" != "backup" by {
      assert "s.v1"[0] != "backup"[0];
    }
    assert "/s.v1"[4] == '1';
  }

  lemma EscapeExampleNames()
    ensures StemExt("s", "v1")
    ensures "s" + "." + "v1" == "s.v1" && "../" + "s" + "." + "v1" == "../s.v1"
    ensures ["s.v1"][..0] + ["s" + "_1." + "v1"] !in EscapeDisk.entries
  {
    assert "s" + "_1." + "v1" == "s_1.v1";
    assert ["s_1.v1"] != ["s.v1"];
  }

  // ---------------------------------------------------------------------------
  // get_all_parent_directories

  /** `get_all_parent_directories`: the components of the relative path
      except the last; `[]` where `relpath` raises. */
  function GetAllParentDirectories(cwd: string, filepath: string, baseDir: string): (r: seq<string>)
    ensures forall i :: 0 <= i < |r| ==> '/' !in r[i]
  {
    match RelPath(cwd, filepath, baseDir)
    case None => []
    case Some(rel) =>
      var parts := Split(rel, '/');
      parts[..|parts| - 1]
  }

  /** For any file and base directory sharing their first `c` resolved
      components: one ".." for each base component below the shared part,
      then the file's own components below it, its name excluded. */
  lemma ParentsOfAny(cwd: string, filepath: string, baseDir: string, c: nat)
    requires filepath != ""
    requires var D := Comps(AbsPath(cwd, baseDir));
             var T := Comps(AbsPath(cwd, filepath));
             c <= |D| && c <= |T| && D[..c] == T[..c] && (c < |D| && c < |T| ==> D[c] != T[c])
    ensures var D := Comps(AbsPath(cwd, baseDir));
            var T := Comps(AbsPath(cwd, filepath));
            GetAllParentDirectories(cwd, filepath, baseDir)
              == if c < |T| then Repeat("..", |D| - c) + T[c..|T| - 1]
                 else Repeat("..", if c < |D| then |D| - c - 1 else 0)
  {
    var D := Comps(AbsPath(cwd, baseDir));
    var T := Comps(AbsPath(cwd, filepath));
    var G := GetAllParentDirectories(cwd, filepath, baseDir);
    ParentsAt(cwd, filepath, baseDir, D, T, c);
    assert G == if c < |T| then Repeat("..", |D| - c) + T[c..|T| - 1]
                else Repeat("..", if c < |D| then |D| - c - 1 else 0);
  }

  lemma ParentsAt(cwd: string, filepath: string, baseDir: string, D: seq<string>, T: seq<string>, c: nat)
    requires filepath != "" && D == Comps(AbsPath(cwd, baseDir)) && T == Comps(AbsPath(cwd, filepath))
    requires c <= |D| && c <= |T| && D[..c] == T[..c] && (c < |D| && c < |T| ==> D[c] != T[c])
    ensures GetAllParentDirectories(cwd, filepath, baseDir)
              == if c < |T| then Repeat("..", |D| - c) + T[c..|T| - 1]
                 else Repeat("..", if c < |D| then |D| - c - 1 else 0)
  {
    CommonPrefixUnique(D, T, c);
    ParentsIs(cwd, filepath, baseDir, D, T, c);
  }

  lemma ParentsIs(cwd: string, filepath: string, baseDir: string, D: seq<string>, T: seq<string>, c: nat)
    requires filepath != "" && D == Comps(AbsPath(cwd, baseDir)) && T == Comps(AbsPath(cwd, filepath))
    requires CommonPrefixLen(D, T) == c
    ensures GetAllParentDirectories(cwd, filepath, baseDir)
              == if c < |T| then Repeat("..", |D| - c) + T[c..|T| - 1]
                 else Repeat("..", if c < |D| then |D| - c - 1 else 0)
  {
    ParentsUnfold(cwd, filepath, baseDir, D, T, c);
    RelParents(D, T, c);
  }

  lemma ParentsUnfold(cwd: string, filepath: string, baseDir: string, D: seq<string>, T: seq<string>, c: nat)
    requires filepath != "" && D == Comps(AbsPath(cwd, baseDir)) && T == Comps(AbsPath(cwd, filepath))
    requires CommonPrefixLen(D, T) == c
    ensures var rel := Repeat("..", |D| - c) + T[c..];
            var parts := Split(if rel == [] then "." else Join(rel, '/'), '/');
            GetAllParentDirectories(cwd, filepath, baseDir) == parts[..|parts| - 1]
  {
  }

  /** The same over component lists: the parts of the relative path but the
      last. */
  lemma RelParents(D: seq<string>, T: seq<string>, c: nat)
    requires c <= |D| && c <= |T| && forall i :: 0 <= i < |T| ==> '/' !in T[i]
    ensures var rel := Repeat("..", |D| - c) + T[c..];
            var parts := Split(if rel == [] then "." else Join(rel, '/'), '/');
            parts[..|parts| - 1]
              == if c < |T| then Repeat("..", |D| - c) + T[c..|T| - 1]
                 else Repeat("..", if c < |D| then |D| - c - 1 else 0)
  {
    var rel := Repeat("..", |D| - c) + T[c..];
    if rel == [] {
      SplitOfFree(".", '/');
    } else {
      assert forall i :: 0 <= i < |rel| ==> '/' !in rel[i];
      SplitJoin(rel, '/');
      if c < |T| {
        assert rel[..|rel| - 1] == Repeat("..", |D| - c) + T[c..|T| - 1];
      } else {
        assert rel[..|rel| - 1] == Repeat("..", |D| - c - 1);
      }
    }
  }

  /** The shared leading part of two component lists is determined by where
      they first differ. */
  lemma CommonPrefixUnique(a: seq<string>, b: seq<string>, c: nat)
    requires c <= |a| && c <= |b| && a[..c] == b[..c] && (c < |a| && c < |b| ==> a[c] != b[c])
    ensures CommonPrefixLen(a, b) == c
  {
  }

  /** For a file below the base directory these are exactly the components
      between the base and the file's name. */
  lemma ParentsOfDescendant(cwd: string, filepath: string, baseDir: string)
    requires filepath != ""
    requires Comps(AbsPath(cwd, baseDir)) <= Comps(AbsPath(cwd, filepath))
    ensures var D := Comps(AbsPath(cwd, baseDir));
            var T := Comps(AbsPath(cwd, filepath));
            GetAllParentDirectories(cwd, filepath, baseDir) == if |T| == |D| then [] else T[|D|..|T| - 1]
  {
    var D := Comps(AbsPath(cwd, baseDir));
    var T := Comps(AbsPath(cwd, filepath));
    ParentsOfAny(cwd, filepath, baseDir, |D|);
    if |D| < |T| {
      assert Repeat("..", 0) + T[|D|..|T| - 1] == T[|D|..|T| - 1];
    }
  }

  /** A file outside the base directory, in a sibling directory: one ".."
      and then the sibling's name. */
  lemma ParentsOfSibling(cwd: string, filepath: string, baseDir: string)
    requires filepath != ""
    requires var D := Comps(AbsPath(cwd, baseDir));
             var T := Comps(AbsPath(cwd, filepath));
             |D| >= 1 && |T| == |D| + 1 && D[..|D| - 1] == T[..|D| - 1] && D[|D| - 1] != T[|D| - 1]
    ensures var T := Comps(AbsPath(cwd, filepath));
            GetAllParentDirectories(cwd, filepath, baseDir) == ["..", T[|T| - 2]]
  {
    var D := Comps(AbsPath(cwd, baseDir));
    var T := Comps(AbsPath(cwd, filepath));
    ParentsOfAny(cwd, filepath, baseDir, |D| - 1);
    assert T[|D| - 1..|T| - 1] == [T[|T| - 2]];
  }

  /** An empty file path yields no parents rather than an error. */
  lemma ParentsOfEmpty(cwd: string, baseDir: string)
    ensures GetAllParentDirectories(cwd, "", baseDir) == []
  {
  }
}
