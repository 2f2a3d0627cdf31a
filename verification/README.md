# Markdown2Dir and Dir2Md: a Dafny model of the sync logic

Markdown2Dir_and_Dir2Md is a Sublime Text plugin that keeps one markdown
document and one directory tree in sync, in both directions:

- **unpack** (markdown to directory): every fenced code block of the
  document that names a file is written to that file. The block may
  instead be injected into an existing file, replacing the matching
  definition and commenting out the old one.
- **pack** (directory to markdown): every file that passes the
  include/exclude filter becomes one fenced block of a generated document.

This project models the decisions behind both directions as pure Dafny
functions and proves what they promise:

- `pystr.dfy` (`PyStr`): the Python `str` operations the plugin relies on.
  These are `strip`, `split`, `join`, `splitlines`, ASCII `lower`, `find`
  and decimal formatting.
- `posixpath.dfy` (`PosixPath`): `os.path` with POSIX semantics.
  It covers `normpath`, `join`, `abspath` (the working directory is a
  parameter), `relpath`, `basename`, `dirname` and `splitext`.
- `fence_scanner.dfy` (`FenceScanner`): the block pattern
  "```([^\n]*)\n([\s\S]*?)```" as an explicit leftmost-first scanner with
  the same matches as `re.finditer`. It also has the "preceding line"
  lookup of each match.
- `code_block_processor.dfy` (`CodeBlocks`): the unpack side. It covers
  - the file name of a block and the ignore rules;
  - comment wrapping;
  - the Python and brace-counting injection finders, and the splice;
  - the conflict policies;
  - the per-block pipeline.
- `path_processor.dfy` (`Paths`): the output path of a block.
  - The filesystem is a `Disk`: a set of existing entries plus the text of
    the readable files.
  - Covered operations: containment, `_N` renaming, moves to `backup/`, and
    parent directories.
- `file_processor.dfy` (`FileFilter`): `should_process_path`, the markdown
  suffix test and the binary-content test.
- `markdown_processor.dfy` (`MarkdownGen`): the pack side. It covers
  `format_markdown_block`, `format_tree_line` and
  `generate_markdown_content`, and what the unpack scanner reads back from
  a generated document.
- `project_settings_handler.dfy` (`ProjectSettings`): the settings file
  name, indenting and unindenting, and the choice of the settings fence.
- `markdown_base_command.dfy` (`Languages`): the comment-syntax and
  language tables.
- `utils.dfy` (`Config`): the typed settings record, its defaults and
  `validate_config`.

Some things the plugin gets from its environment are parameters of the
model:

- The file reader (`read: string -> Option<string>`).
- The path regular expression of `extract_path_from_text`
  (`extract: string -> Option<string>`).
- `json.loads` (`parse: string -> Option<J>`).
- The current working directory.
- The text of the directory tree.

Where the code and its documentation disagree, the model follows the code:

- A fence does not have to start a line.
- Bare `md`/`markdown` fences are not excluded.
- The identifier on a fence is used untrimmed.
- The `file_naming_convention` setting plays no part in unpacking.
- On the unpack path an existing file is overwritten whatever
  `handle_file_conflicts` says, because `handle_file_conflict` is never
  called there.

## Model

| member | source | states |
|---|---|---|
| FenceScanner.MatchAtIff | code_block_processor.py:56 | the pattern matches at an offset exactly when a fence starts there and some later newline is followed somewhere by another fence |
| FenceScanner.MatchUnique | code_block_processor.py:56 | a match at a given offset is unique: identifier, body and end are determined by the start |
| FenceScanner.IdentHasNoNewline | code_block_processor.py:56 | a block's identifier (group 1) never holds a newline |
| FenceScanner.BodyHasNoFence | code_block_processor.py:56 | the lazy body (group 2) never holds "```": it stops at the first closing fence |
| FenceScanner.ScanIsShaped | code_block_processor.py:56-58 | the scan returns only real matches, at or after its start, disjoint and in document order, with no match missed before the first, between neighbours or after the last |
| FenceScanner.BlocksOrdered | code_block_processor.py:56-61 | any two blocks the plugin iterates over are in document order and do not overlap |
| FenceScanner.NextFenceFirst | code_block_processor.py:56 | the closing fence found is the first one after the opener's line; no earlier fence is skipped |
| FenceScanner.PrecedingLine | code_block_processor.py:68-69 | no preceding line for a block at offset 0; otherwise the line before the fence's line, and for a fence on the first line but not at offset 0 the last line of the document, as Python's index -1 gives |
| FenceScanner.PrecedingLineBetweenNewlines | code_block_processor.py:69 | a block whose fence follows a complete line gets exactly that line as its preceding line |
| FenceScanner.ScanRender | code_block_processor.py:56-58 | scanning text assembled from clean prose and fenced pieces yields exactly the identifiers and bodies of the fenced pieces, in order |
| FenceScanner.BlocksOfRender | code_block_processor.py:56-58 | the same for a whole document: the blocks found are exactly its fenced pieces |
| CodeBlocks.Found | code_block_processor.py:140-148 | a path is extracted only from non-empty text and is itself non-empty |
| CodeBlocks.FromLeadersFinds | code_block_processor.py:168-177 | the first-body-line search finds a path exactly when some comment leader the line starts with is followed by an extractable path |
| CodeBlocks.FromLeadersFirst | code_block_processor.py:169-177 | the path found is the one after the first such leader in the order '#', '//', '<!--', '/*', ';'; no earlier leader fires |
| CodeBlocks.FilenameFromBlock | code_block_processor.py:150-181 | there is a file name exactly when one of the three sources gives one, taken in the fixed order fence identifier with a dot (untrimmed), preceding line, first body line, whatever the naming convention; the winner is normalised, non-empty and free of backslashes |
| CodeBlocks.AfterFenceNameFound | code_block_processor.py:166-181 | a body starting with "// path" names that path when neither the identifier nor the preceding line does |
| CodeBlocks.ShouldIgnoreBlock | code_block_processor.py:183-218 | a block is ignored exactly when an enabled rule fires (nameless, fewer than 3 lines, readme, properties, no extension) or its body is blank |
| CodeBlocks.NoRulesOnlyBlank | code_block_processor.py:213-218 | with no rules enabled, exactly the blank bodies are ignored |
| CodeBlocks.UpperSpellingNeverMatches | code_block_processor.py:199-205 | the upper-case spellings 'README' and 'PROPERTIES' are compared with lower-cased text and so never match |
| CodeBlocks.ReadmeAnyCase | code_block_processor.py:199-201 | with the readme rule on, "readme" in any mix of case anywhere in the body gets the block ignored |
| CodeBlocks.CommentLines | code_block_processor.py:255-266 | commenting keeps the number of lines and treats each line on its own |
| CodeBlocks.CommentLineShape | code_block_processor.py:258-265 | a blank line is unchanged; any other line becomes start + ' ' + line, followed by ' ' + end when end is non-empty |
| CodeBlocks.UncommentCommentLines | code_block_processor.py:255-266 | commenting loses nothing: stripping the markers again gives back the original lines |
| CodeBlocks.CommentKeepsOutNewline | code_block_processor.py:255-266 | commented lines stay single lines when the markers and the lines hold no newline |
| CodeBlocks.DefinitionName | code_block_processor.py:281-288 | a name is found only on a stripped line starting with "def " or "class ", and it holds no '(' |
| CodeBlocks.DefinitionNameOf | code_block_processor.py:281-288 | an indented "def name(..." or "class name(..." line yields exactly name |
| CodeBlocks.CodeDefNameFirst | code_block_processor.py:290-299 | the block's definition name is that of its first line defining a non-empty name, and there is none exactly when no line defines one |
| CodeBlocks.PythonScan | code_block_processor.py:301-320 | the region found starts at a line defining the name and runs over the following lines that are blank or deeper indented; it stops just before the first non-blank line at the same or lower indent |
| CodeBlocks.FindPythonInjectionPoints | code_block_processor.py:277-322 | there is a region exactly when the block defines a name and the file has a line defining it; then start <= end < number of file lines, and the region is as PythonScan states |
| CodeBlocks.FirstStripped | code_block_processor.py:334-337 | the first line at or after a position whose stripped text equals the target, and none when there is no such line |
| CodeBlocks.BalanceScan | code_block_processor.py:354-359 | the first line where the running '{' minus '}' count reaches the target, and none when it never does |
| CodeBlocks.FindGeneralInjectionPoints | code_block_processor.py:324-361 | start is the first file line equal, once stripped, to the block's first line, and end > start. End is the first later line equal to the block's last line when that line is not '}' and exists; otherwise it is the first line where the brace balance equals the block's. There is no region exactly when none of these succeed |
| CodeBlocks.FindCodeInjectionPoint | code_block_processor.py:268-275 | any region found lies within the file's lines |
| CodeBlocks.InjectCodeBlock | code_block_processor.py:220-249 | injection succeeds exactly when a region is found. The new text keeps the lines before the region, then the block, then the region commented out (recoverable by uncommenting), then the lines after it |
| CodeBlocks.SpliceLines | code_block_processor.py:232-242 | for a region strictly inside the file, the new content splits into lines before ++ block lines ++ commented region ++ lines after |
| CodeBlocks.PrependLines | code_block_processor.py:372-373 | prepend_and_comment produces the new code's lines, one empty line, then the old lines commented; the old content comes back from that tail |
| CodeBlocks.HandleFileConflict | code_block_processor.py:363-400 | prepend_and_comment rewrites the file as the prepended text exactly when it can be read. append_n writes the code to the first unused numbered name and leaves the original alone. move_to_backup_dir succeeds exactly when the file exists and the move does not raise; the old content is then at the backup target and the code in its place. Any other policy changes nothing |
| CodeBlocks.ProcessBlock | code_block_processor.py:61-115 | a block is skipped exactly when it has no file name, is ignored, or its output path is rejected (a move that raises included). A skipped block changes no text and removes no entry; the disk differs only when the move raised, and then by the backup directory os.makedirs created. Otherwise the path is the resolved one, inside the output directory. The block is injected exactly when no ancestor of the path is a file, attempt_injection is set, the target is readable and a region is found, and the file then holds the injected text. It is written exactly when it is not injected and the write can succeed (no ancestor is a file; the target and its .bak are each absent or readable files), and the file then holds the stripped body and no .bak is left. A failed block keeps the old text of an existing target, and a block not written keeps the .bak as it was. Compared with the disk the resolution leaves, only the path and its .bak change their text, only the .bak may disappear, and the only new entries are the path and its parent directories. The resolution is the corrected one (see Findings) |
| CodeBlocks.EnsureParent | code_block_processor.py:88-93 | a missing non-empty parent directory is created together with its ancestors; no file changes, and no other entry is created |
| CodeBlocks.WriteBlock | code_block_processor.py:88-109 | under a file nothing changes and the block fails. Otherwise, after the parent is created: injected exactly when asked, the target is readable and a region is found; written exactly when not injected and the write can succeed, leaving the stripped body and no .bak; on failure the disk is the one with the parent created when the target existed, and otherwise holds the body at the target with the .bak left as it was. The .bak only changes on success. Only the target and its .bak change their text, only the .bak may disappear, and new entries are the target and its parent directories |
| CodeBlocks.SafeWriteFile | code_block_processor.py:403-425 | succeeds exactly when the path and its .bak are each absent or readable files, and then the path holds the content and no .bak is left. When it fails on an existing path nothing changes; when it fails on a new path the content is written and the .bak, a directory, stays. No other path changes its text or its existence |
| CodeBlocks.ProcessBlockStaysInside | code_block_processor.py:82-115 | with the output directory present as a directory, a block never changes the text of a path that is not strictly inside it, nor removes one; this covers the output directory itself |
| CodeBlocks.WriteStaysInside | code_block_processor.py:88-109 | the write step at a path inside an existing directory leaves every path not strictly inside it alone: a path strictly inside keeps its .bak strictly inside, and the directory itself cannot be written |
| CodeBlocks.WriteOverDirectory | code_block_processor.py:102-109 | writing a block over an existing directory fails; no file changes and no entry disappears |
| CodeBlocks.ConflictPolicyNotApplied | code_block_processor.py:102-109 | under the default prepend_and_comment policy without injection, an existing target is overwritten with the stripped body exactly when the write can succeed, and the block fails otherwise |
| CodeBlocks.WrittenByIdent | code_block_processor.py:71-109 | a block whose fence identifier holds a dot is written, when not ignored and not rejected, to the path resolved from that identifier exactly when the write can succeed, holding the stripped body, and fails there otherwise |
| CodeBlocks.Step | code_block_processor.py:61-109 | one pass of the loop keeps the disk well formed |
| CodeBlocks.RunFrom | code_block_processor.py:61-115 | the loop from pass k to n yields one outcome per pass |
| CodeBlocks.RunFromFold | code_block_processor.py:61-115 | the loop started on the disk the first k passes leave yields, at position j, pass k+j's outcome on the disk the passes before it left, and ends on the disk all passes leave |
| CodeBlocks.ExtractCodeBlocks | code_block_processor.py:44-117 | the run fails (False) exactly when the output directory is missing and os.makedirs raises (an empty name, or a file above it). Otherwise there is one outcome per block found in the document and the disk stays well formed. A document without blocks changes no file and adds only the output directory and its missing ancestors |
| CodeBlocks.PrepareOutputDir | code_block_processor.py:44-49 | an existing output directory is used as it is; a missing one is created with its ancestors and no file changes; os.makedirs fails exactly on an empty name or a file above the directory |
| CodeBlocks.ExtractEachBlock | code_block_processor.py:44-115 | the run goes ahead exactly when the output directory can be prepared; then outcome i is that of the i-th block found, with the line above its fence, processed on the disk the output directory and the blocks before it left; the final disk is the one all blocks leave |
| CodeBlocks.RunEachBlock | code_block_processor.py:61-115 | the same for any list of blocks lying inside the document |
| CodeBlocks.ExtractStaysInside | code_block_processor.py:61-115 | started with the output directory present as a directory, over any number of blocks no path outside it changes its text or disappears, the output directory stays a directory, and the working directory is kept |
| CodeBlocks.ExtractCodeBlocksStaysInside | code_block_processor.py:44-117 | for an output directory that is not a file, the whole run (creating it, then every block) never changes the text of a path that is not strictly inside it, nor removes one, and the output directory exists at the end |
| CodeBlocks.ExtractSingle | code_block_processor.py:44-115 | a document with one block processes exactly that block with its own preceding line, on the disk with the output directory in place, whenever the directory can be prepared |
| CodeBlocks.OnFenceBlock | code_block_processor.py:56-64 | an on_fence block made by the pack side is found again as one block with identifier = path and body = right-stripped content plus newline |
| CodeBlocks.PackThenUnpack | code_block_processor.py:44-109 | packing one file on_fence and unpacking the result runs exactly when the output directory can be prepared; it then writes exactly one file, at the path resolved from the file's name, exactly when the write can succeed there, and the file holds the stripped content |
| Paths.NormalizePath | path_processor.py:138-142 | empty in, empty out; otherwise the result is a normal path with no backslash: no empty or '.' components, and any '..' only at the start of a relative path |
| Paths.NormalizePathIdempotent | path_processor.py:138-142 | normalising twice equals normalising once |
| Paths.BackslashIsSeparator | path_processor.py:142 | a backslash and a slash name the same separator |
| Paths.IsWithinIff | path_processor.py:86-91 | the target is reported inside exactly when the directory's components are a prefix of the target's and the first component below it does not start with ".." |
| Paths.WithinSelf | path_processor.py:86-91 | a directory is within itself |
| Paths.ChildWithinIff | path_processor.py:90-91 | a direct child is reported inside exactly when its name does not start with "..", so "..cfg" counts as outside |
| Paths.ParentNotWithin | path_processor.py:86-91 | directory/.. is outside the directory |
| Paths.SiblingWithSharedPrefixOutside | path_processor.py:86-91 | a sibling whose name extends the directory's name (base vs base2) is outside: the test is by components, not by string prefix |
| Paths.AbsoluteNameReplacesBase | path_processor.py:64-66 | joining an absolute file name discards the base directory |
| Paths.ParentNameRejected | path_processor.py:62-73 | a block named ".." is rejected under any policy |
| Paths.NumberedKeysDistinct | path_processor.py:97-99 | the candidate names base_1ext, base_2ext, ... name pairwise different entries |
| Paths.NumberedKeysCount | path_processor.py:96-98 | below k there are k - 1 distinct candidates, so the counter search ends before it exceeds the number of existing entries |
| Paths.FirstFreeFrom | path_processor.py:96-98 | the counter found is unused and every smaller counter from 1 is taken |
| Paths.HandleAppendN | path_processor.py:93-99 | the result is base_N+ext for the least N >= 1 that does not exist, and it does not exist |
| Paths.BackupTarget | path_processor.py:103-113 | the old file goes to backup/name when that is free, and otherwise to the least unused backup/name_N+ext; the target never exists beforehand |
| Paths.MakeDirs | path_processor.py:104-105 | afterwards the entries are the old ones plus the directory and all its ancestors; no file changes |
| Paths.Rename | path_processor.py:115-116 | the entry and everything below it move to the new name with their text; when neither name lies below the other nothing is left under the old name; entries under neither name are untouched, and no other file appears |
| Paths.Remove | code_block_processor.py:419-420 | the removed path no longer exists, and every other path keeps its text and its existence |
| Paths.KeyOfBak | code_block_processor.py:405 | the .bak of a path is the sibling named after its last component plus ".bak": a different entry, and not the path's parent or any ancestor of it |
| Paths.BakStrictlyWithin | code_block_processor.py:405 | the .bak of a path strictly inside a directory is strictly inside it too |
| Paths.HandleBackupDir | path_processor.py:101-117 | the original path is returned, and the backup target is free once the backup directory exists. An existing entry moves with everything below it to the backup target, keeping its text, and is gone from its old place when neither name lies below the other. A missing entry only gets the backup directory created. Paths under neither name keep their text and entries, and the only new ones lie on the backup directory's path |
| Paths.ResolveOutputPathAsWritten | path_processor.py:62-117 | None exactly when the joined path is outside the base, or it exists under move_to_backup_dir and the move raises (the backup directory's name is a file, or one name lies below the other). Outside the base nothing changes; a raising move leaves the backup directory that os.makedirs created before os.rename raised. The joined path unchanged when the target is missing or the policy is neither append_n nor move_to_backup_dir. Under append_n the numbered name of HandleAppendN, which is unused. Under move_to_backup_dir the joined path, on the disk HandleBackupDir leaves, with the old text at the backup target |
| Paths.ResolveOutputPath | path_processor.py:62-117 | as above, but the path returned, the append_n name included, must lie inside the base, and a move happens exactly when the entry, the backup directory and the backup target lie strictly inside the base and the move does not raise; the moved entry is then gone. A raising move behaves as in the source. Every path returned is inside the base, and nothing outside the base, nor the base itself, changes its text or disappears |
| Paths.SafeBackupFrame | path_processor.py:101-116 | a move allowed by the corrected resolution removes the moved entry and keeps every path outside the base, and the base itself |
| Paths.ResolveAgreesInside | path_processor.py:62-117 | the corrected resolution equals the code's whenever the code returns no path, and whenever it returns a path inside the base without moving an entry (or into a backup name) that is not strictly inside it |
| Paths.MoveOfBaseRefused | path_processor.py:75-82 | when the joined path is the base itself and the move would not raise, the corrected resolution refuses the move and changes nothing |
| Paths.BackupDirKeeps | path_processor.py:103-105 | creating the backup directory keeps every text and every existing entry |
| Paths.AppendNEscapesBase | path_processor.py:69-80 | for a base d/s.e that exists and a block named "../s.e", the code returns d/s_1.e, outside the base; the corrected version rejects it |
| Paths.AppendNEscapeExample | path_processor.py:69-80 | the concrete instance: base "/s.v1" existing, block "../s.v1", append_n gives "/s_1.v1" outside the base |
| Paths.MoveEscapesBase | path_processor.py:75-117 | for an existing base d/name, a block named "../name" and a free d/backup/name, the code under move_to_backup_dir returns a path, the base directory no longer exists and d/backup/name does; the corrected version rejects the block and changes nothing |
| Paths.MoveEscapeExample | path_processor.py:75-117 | the concrete instance: base "/s.v1", block "../s.v1": the base is moved to "/backup/s.v1", outside itself |
| Paths.MoveDoesNotRaise | path_processor.py:101-116 | for the base moved by a block named "../name", with no file d/backup and no entry d/backup/name, the rename does not raise |
| Paths.GetAllParentDirectories | path_processor.py:119-128 | the parent names hold no separator |
| Paths.ParentsOfDescendant | path_processor.py:119-125 | for a file below the base, the parent directories are exactly the components between the base and the file's own name |
| Paths.ParentsOfAny | path_processor.py:119-125 | for any file and base sharing their first c resolved components: one ".." per base component below the shared part, then the file's components below it without its name (only ".."s when the file is an ancestor of the base) |
| Paths.ParentsOfSibling | path_processor.py:119-125 | a file in a sibling directory of the base gives "..", then the sibling's name |
| Paths.ParentsOfEmpty | path_processor.py:121-128 | an empty path, on which relpath raises, gives no parents |
| FileFilter.NonText | file_processor.py:71-72 | the bytes left by deleting the text bytes are exactly the chunk's non-text bytes |
| FileFilter.IsBinaryChunk | file_processor.py:69-72 | a chunk is binary exactly when some byte lies outside {7,8,9,10,12,13,27} and 0x20..0xFF without 0x7F |
| FileFilter.NulIsBinary | file_processor.py:69-70 | a chunk holding NUL is binary; the empty chunk is not |
| FileFilter.TextIsNotBinary | file_processor.py:71-72 | printable ASCII with tabs and line ends is never binary |
| FileFilter.IsBinaryFile | file_processor.py:64-75 | only the first 1024 bytes decide, and an unreadable file is not binary |
| FileFilter.IsMarkdownFile | file_processor.py:82-84 | markdown exactly when the name is non-empty and, lower-cased, ends with .md, .markdown, .mdown, .mkd, .mkdn or .txt |
| FileFilter.UpperCaseMarkdown | file_processor.py:84 | the suffix test ignores case ("NOTES.MD" is markdown) |
| FileFilter.SetCurrentMarkdown | file_processor.py:77-80 | no current file for an empty path; otherwise its normalised form |
| FileFilter.IsInIgnoredDirectory | file_processor.py:86-102 | true exactly when some ignored directory name is one of the path's components, the final name included |
| FileFilter.ShouldProcessPath | file_processor.py:104-192 | accepted exactly when the normalised path passes the common rules and then the directory rules or the file rules, according to its kind |
| FileFilter.CommonChecks | file_processor.py:116-130 | rejects the current markdown file, any path with a ".git" component and any path with an ignored component |
| FileFilter.DirChecks | file_processor.py:133-145 | a directory is rejected when hidden and system folders are excluded, or when an include list exists and lacks its name |
| FileFilter.FileChecks | file_processor.py:147-192 | a file needs its name in a non-empty include list and not in the ignore list. It needs a partial-name match when partials are listed and none of the ignored partials. Its lower-cased extension must pass both extension lists, and its content must not be binary |
| FileFilter.CurrentMarkdownRejected | file_processor.py:116-119 | the markdown file being written is rejected however its path is spelled, if it normalises the same |
| FileFilter.IgnoredComponentRejected | file_processor.py:121-130 | any '.git' or ignored component, the final name included, rejects files and directories alike |
| FileFilter.ExtensionRulesStillApply | file_processor.py:150-184 | a file named in files_2_include is still rejected by extensions_2_include |
| FileFilter.DefaultsSkipHiddenDirectories | file_processor.py:133-137 | with the default settings a hidden directory is rejected |
| MarkdownGen.BlockLines | markdown_processor.py:93-110 | five lines for before_fence and after_fence and four otherwise, ending with the right-stripped content, the closing fence and an empty line |
| MarkdownGen.NamingLines | markdown_processor.py:95-105 | two naming lines for before_fence and after_fence, one (the fence with the path) for any other convention |
| MarkdownGen.FormatIsRender | markdown_processor.py:93-110 | the formatted block is the text of its pieces: the path line above a language fence (before_fence), "// path" as first body line (after_fence), or the path on the fence (on_fence) |
| MarkdownGen.FormatRoundTrip | markdown_processor.py:93-110 | scanning a formatted block finds exactly one block, whose identifier and body are the path or language and the right-stripped content plus newline |
| MarkdownGen.PackedBodyStrips | markdown_processor.py:107 | the body read back, stripped, equals the original content stripped: trailing whitespace is not preserved |
| MarkdownGen.BeforeFencePrecedingLine | markdown_processor.py:98-100 | for before_fence, the unpack side sees the path as the line preceding the block |
| MarkdownGen.LanguageHasNoNewline | markdown_processor.py:100-102 | the language tag on a fence never breaks the fence line |
| MarkdownGen.FormatTreeLine | markdown_processor.py:129-135 | the line is the prefix, then "└── " for the last entry or "├── " otherwise, then the name |
| MarkdownGen.TreeLineInjective | markdown_processor.py:129-135 | given the prefix width, a tree line determines its name, prefix and whether it is last |
| MarkdownGen.ReadAll | markdown_processor.py:77-89 | at most one block per listed file |
| MarkdownGen.ReadAllAppend | markdown_processor.py:78-89 | one more file appends its block when it can be read, and nothing otherwise |
| MarkdownGen.ReadAllReadable | markdown_processor.py:78-89 | when every file can be read, the i-th block is the i-th file formatted with its content |
| MarkdownGen.GenerateMarkdownContent | markdown_processor.py:60-91 | the document starts with the title line |
| MarkdownGen.GeneratedBlocks | markdown_processor.py:60-91 | scanning the document finds the tree block exactly when output_directory_tree is set, then one block per readable file in the order of files |
| MarkdownGen.DocFences | markdown_processor.py:60-91 | the fenced pieces of the document are the tree (when output) followed by the readable files' blocks |
| ProjectSettings.SettingsFilename | project_settings_handler.py:11-14 | the name ends with ".sublime-settings", and what precedes it is the directory's whole last component once trailing separators are removed: a slash-free tail that starts at the beginning or right after a separator |
| ProjectSettings.SettingsFilenameOf | project_settings_handler.py:11-14 | for parent/name with any number of trailing slashes, the name is name.sublime-settings |
| ProjectSettings.IndentCodeBlock | project_settings_handler.py:130-133 | the line count is kept and every line, empty ones included, gets exactly the padding prepended |
| ProjectSettings.MinIndent | project_settings_handler.py:138-145 | none exactly when all lines are blank; otherwise a lower bound of every non-blank line's indentation |
| ProjectSettings.MinIndentAttained | project_settings_handler.py:138-143 | the minimum is the indentation of some non-blank line |
| ProjectSettings.DropIndent | project_settings_handler.py:148-149 | blank lines are kept; every other line loses its first m characters |
| ProjectSettings.UnindentCodeBlock | project_settings_handler.py:135-149 | all-blank content comes back unchanged; otherwise the line count is kept and blank lines are untouched |
| ProjectSettings.UnindentLosesMinimum | project_settings_handler.py:135-149 | each non-blank line loses exactly the minimum indentation, which is whitespace, so some non-blank line ends with no indentation |
| ProjectSettings.IndentUnindent | project_settings_handler.py:130-149 | unindenting an indented block restores every non-blank line when some non-blank line had no indentation; blank lines come back padded |
| ProjectSettings.FirstWhere | project_settings_handler.py:24-35 | the first position at or after the start whose element satisfies the test, or none when no element does |
| ProjectSettings.SettingsFromBlocks | project_settings_handler.py:24-37 | the parse of the first block whose stripped identifier contains the settings name and whose stripped body parses; none exactly when no block qualifies |
| ProjectSettings.ExtractSettingsFromMarkdown | project_settings_handler.py:16-37 | the same over the document's blocks in scan order, for the directory's settings file name |
| ProjectSettings.SettingsFromBlocksSkips | project_settings_handler.py:28-35 | unparseable or unrelated fences before a qualifying one are passed over |
| Languages.ExtNoDot | markdown_base_command.py:115 | the extension without its dot, holding no dot or separator |
| Languages.ExtNoDotIs | markdown_base_command.py:115 | for dir/stem.ext the extension is ext |
| Languages.SyntaxFor | markdown_base_command.py:28-43 | an extension outside the table gets ("#", ""); the end marker is non-empty exactly for html, xml and css |
| Languages.GetCommentSyntax | markdown_base_command.py:113-119 | the same on the file's extension, taken as it is spelled |
| Languages.SyntaxHasNoNewline | markdown_base_command.py:28-43 | every marker is one line and starts with a non-space |
| Languages.UpperCaseExtensionFallsBack | markdown_base_command.py:115-116 | the lookup is case-sensitive: "APP.JS" gets the default "#" |
| Languages.LowerCaseExtensionRecognised | markdown_base_command.py:113-119 | "app.js" gets "//" |
| Languages.DotFileGetsDefault | markdown_base_command.py:115 | a dot-file such as ".bashrc" has no extension and gets the default |
| Languages.LanguageTags | markdown_base_command.py:129-143 | every mapped language name is non-empty, lower-case and dot-free |
| Languages.LanguageFor | markdown_base_command.py:129-144 | known extensions map to their language name and any other extension to itself |
| Languages.GetFileLanguage | markdown_base_command.py:126-144 | the tag is lower-case and dot-free; an unknown extension is returned lower-cased; the tag is empty exactly when there is no extension |
| Languages.LanguageIgnoresCase | markdown_base_command.py:128 | "src/Main.PY" is python: the language lookup lower-cases |
| Languages.UnknownExtensionPassesThrough | markdown_base_command.py:144 | "lib.RS" gives "rs" |
| Languages.NoExtensionEmptyTag | markdown_base_command.py:128-144 | "Makefile" gives the empty tag |
| Config.ValidateField | utils.py:87-91 | the field is present with the right type afterwards, kept when it already had that type, reset to the type's empty value otherwise; other keys are untouched |
| Config.ValidateConfig | utils.py:80-93 | the keys afterwards are the old ones plus the four required ones, file_naming_convention is a string and the three others are lists |
| Config.ValidateConfigPreserves | utils.py:87-93 | keys that are not required and correctly typed required keys keep their values; a missing or mistyped one becomes '' or [] |
| Config.ValidateConfigIdempotent | utils.py:80-93 | validating twice equals validating once |
| PosixPath.BaseName | path_processor.py:106 | the longest separator-free tail of the path |
| PosixPath.ResolveDirName | code_block_processor.py:89 | the directory name of a path resolves to the same components as the path with its last component cut off |
| PosixPath.ResolveNormPath | path_processor.py:64-66 | normalising a path with normpath first does not change the absolute components it resolves to |
| PosixPath.NormPathIdempotent | path_processor.py:64-65 | normpath is idempotent, which the containment test and the resolution rely on |
| PosixPath.RelPathOfDescendant | path_processor.py:90 | relpath of a descendant is its components below the start, or "." for the start itself |
| PosixPath.SplitExtOf | path_processor.py:95 | splitext cuts dir/stem.ext into dir/stem and .ext |
| PosixPath.SplitExtNonEmptyIff | code_block_processor.py:209 | a name has an extension exactly when its last component holds a dot after some non-dot character |
| PyStr.JoinSplit | code_block_processor.py:232-242 | joining the lines split on '\n' gives back the text |
| PyStr.SplitJoin | code_block_processor.py:232-242 | splitting lines without newlines after joining them gives back those lines |
| PyStr.BlankIffStripEmpty | code_block_processor.py:214 | a text strips to nothing exactly when it is all whitespace |
| PyStr.NatToStringInjective | path_processor.py:97-99 | different counters give different decimal strings, so different candidate names |

## Left out

- Sublime Text glue is not modelled: `Markdown2Dir.py`, `__init__.py`, the command classes, view editing, dialogs and settings loading and caching (markdown_base_command.py:45-111).
- Logging is not modelled (`debug_print`, `log_message`, `show_error_message`, `plugin_loaded`, the mock `sublime` shim in utils.py), because it has no effect on results.
- Filesystem effects are not modelled in full.
  - `os.makedirs` is modelled by `MakeDirs`. For the output directory (code_block_processor.py:44-49) it runs in `PrepareOutputDir`, which fails on an empty name or a file above the directory. For the parent of an output path (code_block_processor.py:88-95) it runs in `EnsureParent`, and a file above the path makes the block fail (`UnderFile`). For the backup directory (path_processor.py:104-105) it runs in `WithBackupDir`. The permission checks (code_block_processor.py:51-53, 97-100) are assumed to pass.
  - `ensure_directory_exists` is not modelled.
  - `safe_write_file` (code_block_processor.py:403-425) is modelled by `SafeWriteFile`: opening an entry that is not a readable file is its only failure. A failing `os.makedirs` is modelled by its cause, an ancestor that is a file (`UnderFile`).
- Symbolic links, case-insensitive filesystems and Windows paths are not modelled. The disk compares normalised absolute components only, and `os.sep` is '/'.
- `get_files_recursive`, `generate_directory_tree` and `build_tree` walk the real directory with `os.walk`. They are not modelled; the list of files and the tree text are parameters.
- `insert_code_blocks`, `ensure_project_settings_exist`, `save_project_settings`, `get_or_create_settings_block`, `format_settings_for_markdown` and `should_include_settings_in_markdown` are not modelled: they read and write files and dump JSON.
- `extract_code_blocks_from_markdown` (markdown_processor.py:46-58) is not modelled. It runs the pattern over the file name rather than the file's contents, so there is no coherent behaviour to state.
- The path regular expression of `extract_path_from_text` (code_block_processor.py:144) is not modelled. It is the parameter `extract`, and a match counts only when non-empty.
- `json.loads` is not modelled. It is the parameter `parse`, with `None` for a decode error.
- ProjectSettings.ExtractSettingsFromMarkdown: when the first qualifying block's body is the JSON literal `null`, the source returns None (project_settings_handler.py:30-32). The model returns what `parse` gives, because the JSON value type is a parameter.
- `str.lower` is modelled on ASCII letters only.
- Unicode text is modelled as plain characters, with no encoding or decoding.
- The exceptions caught per block (code_block_processor.py:113-115) are modelled by their outcomes. A move that `os.rename` refuses makes the resolution give None, so the block is skipped; the backup directory `os.makedirs` created before it stays. A failed `os.makedirs` or `open` gives `Failed`, on the disk the failure leaves. Exceptions raised by the Sublime API and by logging are not modelled.
- The disk is not required to be a tree: an entry may exist without its parent directory. Every statement holds for such disks too.
- MarkdownGen.FormatMarkdownBlock: has no contract of its own. FormatIsRender, FormatRoundTrip and BeforeFencePrecedingLine state what it writes.
- MarkdownGen.FormatRoundTrip: the round trip is proved only for a path without newline and for a path and content without "```" (`Packable`). Other inputs do not survive the scan.
- CodeBlocks.FindCodeInjectionPoint: states only that the region lies within the file. The finder-specific properties are stated by FindPythonInjectionPoints and FindGeneralInjectionPoints.
- CodeBlocks.FindPythonInjectionPoints: when a later line defines the name again, the region restarts there. The contract states that the start defines the name, not that it is the first such line.
- Paths.GetAllParentDirectories: its own contract states only that parent names hold no separator. What it returns is stated by ParentsOfAny, ParentsOfDescendant and ParentsOfSibling.
- Paths.HandleBackupDir: where `os.rename` raises (`BackupRaises`: the backup directory's name is a file, or one name lies below the other), the model still computes a move and does not promise the old name is gone. Both resolutions and `HandleFileConflict` test `BackupRaises` first and fail instead.
- CodeBlocks.SafeWriteFile: a file that is not valid UTF-8 is treated like a directory, since the disk keeps text only. Where the source leaves an empty `.bak` after failing to read such a file, the model leaves the disk unchanged. Where the source overwrites or deletes such a `.bak`, the model's write fails.
- CodeBlocks.WriteBlock: the write-permission test (code_block_processor.py:97-100) is assumed to pass.
- Paths.Rename: renaming onto an existing entry, which `os.rename` refuses for a non-empty directory, is not distinguished; the resolution only renames onto a free name.
- CodeBlocks.ProcessBlock: it uses the corrected `Paths.ResolveOutputPath`, not the source's `resolve_output_path` (code_block_processor.py:82). The correction checks the numbered name as well and refuses to move an entry that is not strictly inside the output directory, so the two escapes listed under Findings are refused instead of carried out. Paths.ResolveAgreesInside shows that the two agree wherever the source returns no path, and wherever it returns a path inside the base without such a move.
- Paths.Key: `..` is folded lexically, as `normpath` does. This agrees with the operating system only when every entry before a `..` is an existing directory, which holds below an existing output directory. `MakeDirs` of "a/../b" likewise creates "b" but not "a".
- CodeBlocks.ExtractCodeBlocksStaysInside: stated for an output directory that is not an existing file; ProcessBlockStaysInside and ExtractStaysInside likewise start from an output directory present as a directory. When `output_dir` is a file, every path below it fails in the source (it is not a directory), while the lexical `Key` lets a block named "." name the file itself, so the model would write it and its `.bak` next to it.

## Findings

| source | as written | input that shows it | evidently intended | confidence | as-written member | corrected member |
|---|---|---|---|---|---|---|
| path_processor.py:75-117 | under move_to_backup_dir the joined path is moved to backup/ next to it even when it is the base directory itself, so the move leaves the base | working directory "/", existing base directory "/s.v1", block named "../s.v1", policy move_to_backup_dir: the joined path is the base itself, so it is inside and exists, and the whole base is renamed to "/backup/s.v1", outside where it was | a move never touches anything but an entry strictly inside the base | not executed | Paths.ResolveOutputPathAsWritten (shown by Paths.MoveEscapesBase and Paths.MoveEscapeExample) | Paths.ResolveOutputPath (refuses the move unless Paths.SafeBackup holds; Paths.SafeBackupFrame proves nothing outside the base, nor the base, changes) |
| path_processor.py:69-80 | containment is checked on the joined path before the append_n rename, and never again afterwards | working directory "/", existing base directory "/s.v1", block named "../s.v1", policy append_n_to_filename: the joined path "/s.v1/../s.v1" is the base itself, so it is inside and exists, and it is renamed to "/s_1.v1", outside the base | a resolved output path never lies outside the base directory | not executed | Paths.ResolveOutputPathAsWritten (shown by Paths.AppendNEscapesBase and Paths.AppendNEscapeExample) | Paths.ResolveOutputPath (used by CodeBlocks.ProcessBlock; Paths.ResolveAgreesInside shows it differs only when the rename escapes) |
