/**
 * The include/exclude filter of the pack direction: which paths of a
 * directory end up in the generated markdown (`should_process_path` and
 * `_is_in_ignored_directory`), which files count as markdown, and the
 * byte-level test for binary content.
 */
module FileFilter {
  import opened PyStr
  import opened PosixPath
  import opened Config
  import Languages

  // ---------------------------------------------------------------------------
  // binary content

  newtype byte = b: int | 0 <= b < 256

  /** The bytes `is_binary_file` treats as text: BEL, BS, TAB, LF, FF, CR,
      ESC and everything from 0x20 to 0xFF except DEL. */
  predicate IsTextByte(b: byte) {
    b in {7, 8, 9, 10, 12, 13, 27} || (0x20 <= b && b != 0x7F)
  }

  /** `chunk.translate(None, text_characters)`: the non-text bytes. */
  function NonText(chunk: seq<byte>): (r: seq<byte>)
    ensures |r| <= |chunk|
    ensures forall i :: 0 <= i < |r| ==> !IsTextByte(r[i]) && r[i] in chunk
    ensures forall i :: 0 <= i < |chunk| && !IsTextByte(chunk[i]) ==> chunk[i] in r
    decreases |chunk|
  {
    if chunk == [] then []
    else (if IsTextByte(chunk[0]) then [] else [chunk[0]]) + NonText(chunk[1..])
  }

  /** The decision of `is_binary_file` on the chunk it read: a NUL byte, or
      any byte left after deleting the text bytes. */
  function IsBinaryChunk(chunk: seq<byte>): (r: bool)
    ensures r <==> exists i :: 0 <= i < |chunk| && !IsTextByte(chunk[i])
  {
    if 0 in chunk then
      assert !IsTextByte(0);
      true
    else
      var rest := NonText(chunk);
      if rest != [] then
        assert rest[0] in chunk;
        var i :| 0 <= i < |chunk| && chunk[i] == rest[0];
        true
      else
        false
  }

  /** A chunk holding NUL is binary; the empty chunk is not. */
  lemma NulIsBinary(chunk: seq<byte>)
    ensures 0 in chunk ==> IsBinaryChunk(chunk)
    ensures !IsBinaryChunk([])
  {
  }

  /** Printable text is never binary, whatever else it holds. */
  lemma TextIsNotBinary(chunk: seq<byte>)
    requires forall i :: 0 <= i < |chunk| ==> 0x20 <= chunk[i] < 0x7F || chunk[i] in {9, 10, 13}
    ensures !IsBinaryChunk(chunk)
  {
  }

  /** `is_binary_file`: the first 1024 bytes of a readable file are tested;
      an unreadable file (`None`) is taken as not binary. */
  function IsBinaryFile(content: Option<seq<byte>>): (r: bool)
    ensures content.None? ==> !r
    ensures content.Some? && |content.value| <= 1024 ==> (r <==> IsBinaryChunk(content.value))
    ensures content.Some? ==> (r <==> exists i :: 0 <= i < |content.value| && i < 1024 && !IsTextByte(content.value[i]))
  {
    match content
    case None => false
    case Some(bytes) =>
      var chunk := if |bytes| <= 1024 then bytes else bytes[..1024];
      assert forall i :: 0 <= i < |chunk| ==> chunk[i] == bytes[i];
      IsBinaryChunk(chunk)
  }

  // ---------------------------------------------------------------------------
  // markdown files

  const MarkdownSuffixes: seq<string> := [".md", ".markdown", ".mdown", ".mkd", ".mkdn", ".txt"]

  predicate EndsWith(s: string, suffix: string) {
    |suffix| <= |s| && s[|s| - |suffix|..] == suffix
  }

  /** `is_markdown_file`: the lower-cased name ends with one of the markdown
      (or text) suffixes; the empty name is not markdown. */
  function IsMarkdownFile(filePath: string): (r: bool)
    ensures r <==> filePath != "" && exists k :: 0 <= k < |MarkdownSuffixes| && EndsWith(Lower(filePath), MarkdownSuffixes[k])
  {
    filePath != "" && AnySuffix(Lower(filePath), MarkdownSuffixes)
  }

  function AnySuffix(s: string, suffixes: seq<string>): (r: bool)
    ensures r <==> exists k :: 0 <= k < |suffixes| && EndsWith(s, suffixes[k])
    decreases |suffixes|
  {
    if suffixes == [] then false
    else if EndsWith(s, suffixes[0]) then true
    else
      var r := AnySuffix(s, suffixes[1..]);
      assert forall k :: 1 <= k < |suffixes| ==> suffixes[k] == suffixes[1..][k - 1];
      r
  }

  lemma UpperCaseMarkdown()
    ensures IsMarkdownFile("NOTES.MD")
  {
    assert Lower("NOTES.MD") == "notes.md";
    assert EndsWith("notes.md", MarkdownSuffixes[0]);
  }

  /** `set_current_markdown`: the normalised path, or nothing for an empty
      one. */
  function SetCurrentMarkdown(filePath: string): (r: Option<string>)
    ensures r.None? <==> filePath == ""
    ensures r.Some? ==> r.value == NormPath(filePath) && IsNormalPath(r.value)
  {
    if filePath == "" then None
    else
      NormPathNormal(filePath);
      Some(NormPath(filePath))
  }

  // ---------------------------------------------------------------------------
  // should_process_path

  /** `_is_in_ignored_directory`: some entry of `directories_2_ignore` is one
      of the path's components (the final name included). */
  function IsInIgnoredDirectory(s: Settings, path: string): (r: bool)
    ensures r <==> exists i :: 0 <= i < |s.directoriesIgnore| && s.directoriesIgnore[i] in Split(path, '/')
  {
    AnyIn(s.directoriesIgnore, Split(path, '/'))
  }

  function AnyIn(xs: seq<string>, parts: seq<string>): (r: bool)
    ensures r <==> exists i :: 0 <= i < |xs| && xs[i] in parts
    decreases |xs|
  {
    if xs == [] then false
    else if xs[0] in parts then true
    else
      var r := AnyIn(xs[1..], parts);
      assert forall i :: 1 <= i < |xs| ==> xs[i] == xs[1..][i - 1];
      r
  }

  /** `any(partial in name for partial in partials)`. */
  function AnyPartIn(partials: seq<string>, name: string): (r: bool)
    ensures r <==> exists i :: 0 <= i < |partials| && Contains(name, partials[i])
    decreases |partials|
  {
    if partials == [] then false
    else if Contains(name, partials[0]) then true
    else
      var r := AnyPartIn(partials[1..], name);
      assert forall i :: 1 <= i < |partials| ==> partials[i] == partials[1..][i - 1];
      r
  }

  /** The extension the filter compares: lower-cased, without its dot. */
  function FilterExt(name: string): string {
    Lower(Languages.ExtNoDot(name))
  }

  /** The rules shared by files and directories. */
  predicate PassesCommon(s: Settings, current: Option<string>, p: string) {
    && !(current.Some? && p == current.value)
    && ".git" !in Split(p, '/')
    && (forall i :: 0 <= i < |s.directoriesIgnore| ==> s.directoriesIgnore[i] !in Split(p, '/'))
  }

  /** The directory rules. */
  predicate DirAccepted(s: Settings, name: string) {
    && (s.includeSystemFolders || !("." <= name))
    && (s.directoriesInclude == [] || name in s.directoriesInclude)
  }

  /** The file rules: names, partial names, extensions, then content. */
  predicate FileAccepted(s: Settings, name: string, content: Option<seq<byte>>) {
    && (s.filesInclude == [] || name in s.filesInclude)
    && name !in s.filesIgnore
    && (s.partialNamesInclude == [] || exists i :: 0 <= i < |s.partialNamesInclude| && Contains(name, s.partialNamesInclude[i]))
    && (forall i :: 0 <= i < |s.partialNamesIgnore| ==> !Contains(name, s.partialNamesIgnore[i]))
    && (s.extensionsInclude == [] || FilterExt(name) in s.extensionsInclude)
    && FilterExt(name) !in s.extensionsIgnore
    && !IsBinaryFile(content)
  }

  /** `should_process_path`.  The path is normalised first; `current` is the
      markdown file being written; `content` is the file's bytes when it is a
      readable regular file and `None` otherwise.  The result is the
      conjunction of all the rules; the source checks them one by one and
      returns at the first that fails. */
  function ShouldProcessPath(s: Settings, current: Option<string>, path: string, isDir: bool,
                             content: Option<seq<byte>>): (r: bool)
    ensures var p := NormPath(path);
            r <==> PassesCommon(s, current, p)
                   && (if isDir then DirAccepted(s, BaseName(p)) else FileAccepted(s, BaseName(p), content))
  {
    var p := NormPath(path);
    var name := BaseName(p);
    if !CommonChecks(s, current, p) then false
    else if isDir then DirChecks(s, name)
    else FileChecks(s, name, content)
  }

  /** The first three tests: the current markdown, `.git`, ignored
      directories. */
  function CommonChecks(s: Settings, current: Option<string>, p: string): (r: bool)
    ensures r <==> PassesCommon(s, current, p)
  {
    if current.Some? && p == current.value then false
    else if ".git" in Split(p, '/') then false
    else !IsInIgnoredDirectory(s, p)
  }

  /** The directory tests: hidden folders, then `directories_2_include`. */
  function DirChecks(s: Settings, name: string): (r: bool)
    ensures r <==> DirAccepted(s, name)
  {
    if !s.includeSystemFolders && "." <= name then false
    else if s.directoriesInclude != [] && name !in s.directoriesInclude then false
    else true
  }

  /** The file tests, in the source's order. */
  function FileChecks(s: Settings, name: string, content: Option<seq<byte>>): (r: bool)
    ensures r <==> FileAccepted(s, name, content)
  {
    if s.filesInclude != [] && name !in s.filesInclude then false
    else if name in s.filesIgnore then false
    else if s.partialNamesInclude != [] && !AnyPartIn(s.partialNamesInclude, name) then false
    else if AnyPartIn(s.partialNamesIgnore, name) then false
    else
      var ext := FilterExt(name);
      if s.extensionsInclude != [] && ext !in s.extensionsInclude then false
      else if ext in s.extensionsIgnore then false
      else if IsBinaryFile(content) then false
      else true
  }

  /** The markdown file being written is never packed into itself, however
      its path is spelled. */
  lemma CurrentMarkdownRejected(s: Settings, md: string, path: string, isDir: bool, content: Option<seq<byte>>)
    requires md != "" && NormPath(path) == NormPath(md)
    ensures !ShouldProcessPath(s, SetCurrentMarkdown(md), path, isDir, content)
  {
  }

  /** An ignored directory name anywhere in the path, the final name
      included, rejects it before files and directories are told apart. */
  lemma IgnoredComponentRejected(s: Settings, current: Option<string>, path: string, isDir: bool,
                                 content: Option<seq<byte>>, i: nat)
    requires i < |Split(NormPath(path), '/')|
    requires Split(NormPath(path), '/')[i] == ".git" || Split(NormPath(path), '/')[i] in s.directoriesIgnore
    ensures !ShouldProcessPath(s, current, path, isDir, content)
  {
    var parts := Split(NormPath(path), '/');
    if parts[i] != ".git" {
      var k :| 0 <= k < |s.directoriesIgnore| && s.directoriesIgnore[k] == parts[i];
    }
  }

  /** Listing a file in `files_2_include` does not exempt it from the
      extension rules. */
  lemma ExtensionRulesStillApply(s: Settings, current: Option<string>, path: string, content: Option<seq<byte>>)
    requires BaseName(NormPath(path)) in s.filesInclude
    requires s.extensionsInclude != [] && FilterExt(BaseName(NormPath(path))) !in s.extensionsInclude
    ensures !ShouldProcessPath(s, current, path, false, content)
  {
  }

  /** With the default settings, a hidden directory is skipped. */
  lemma DefaultsSkipHiddenDirectories(current: Option<string>, path: string)
    requires "." <= BaseName(NormPath(path))
    ensures !ShouldProcessPath(DefaultSettings, current, path, true, None)
  {
  }
}
