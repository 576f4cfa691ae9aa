# repo2txt: the filtering and traversal engine, in Dafny

repo2txt turns a repository into one text file. The file has two parts:

- a box-drawing tree of the directory hierarchy;
- the contents of every file, in the same depth-first, name-sorted order.

Each file's contents are framed by `[File Begins] <path>` and `[File Ends] <path>` markers. One predicate, `should_ignore`, decides which entries appear in either part. It checks, in this order:

- the output file itself;
- excluded directory names;
- an include-directory prefix;
- ignored file names and extensions;
- settings-file extensions;
- `.gitignore` patterns.

This project models that engine, all of it in `src/repo2txt/repo2txt.py`:

- `should_ignore`, including the `os.path.splitext` extension;
- `load_gitignore_patterns`;
- `write_tree`;
- `write_file_content` and `write_file_contents_in_order`.

Everything is written as pure functions over an immutable in-memory repository. The files are:

| file | module | what it holds |
|---|---|---|
| `wrappers.dfy` | `Wrappers` | `Option` |
| `strings.dfy` | `Strings` | the Python string operations the engine uses: `strip`, `split`, `join`, `startswith`, `rfind`, `lower`, `<=` |
| `fs.dfy` | `FileSystem` | the repository as a tree of `Node`s; children are sorted by name with a verified insertion sort, and sorting commutes with filtering |
| `paths.dfy` | `Paths` | paths as sequences of entry names; `relpath`, `abspath`, `basename`, `splitext` |
| `ignore.dfy` | `Ignore` | `should_ignore` as six named rules and the first one that fires |
| `gitignore.dfy` | `Gitignore` | `load_gitignore_patterns` |
| `tree.dfy` | `Tree` | `write_tree` as a line-by-line string renderer (`TreeBody`); the same walk as structured rows (`Rows`) |
| `dump.dfy` | `Dump` | `write_file_content` and `write_file_contents_in_order`, and the proof that the content section is one block per file row of the tree, in order |
| `scenarios.dfy` | `Scenarios` | worked examples: a two-file repository, and the same with a subdirectory |

A repository is a `Node`: `File(name, read)` or `Dir(name, children)`.

- `read` is what reading the file gives: its lines, each with its own terminator, or an error message.
- An entry's location is the list of names from the root. Its relative path is those names joined by `/`. Its absolute path prefixes the root's absolute segments and a leading `/`.
- The root `Dir`'s name is what `os.path.basename` gives for the repository path as typed on the command line (`repo2txt.py:202`). That is `""` for a path ending in `/`, so the root line is then just `/`, and `.` for the path `.`. It is independent of `Config.repoRoot`, the root's absolute location.

The engine has two quirks. The model states both as written:

- **The gitignore rule.** Each pattern is split on `/`. The entry is ignored when its relative path *string* starts with any of the pieces. So `build` also hides `buildx.txt`. A pattern with a leading, trailing or doubled slash, such as `node_modules/`, has an empty piece and hides every entry. See `Ignore.EmptyPieceHidesEverything` and `Ignore.PatternIsStringPrefix`.
- **The tree glyph.** Whether an entry is drawn `└── ` or `├── ` depends on its index in the *unfiltered* sorted listing. If the last entry is ignored, no line at that level gets the corner, and the last visible entry is drawn `├── `. See `Tree.CornerDrawnIffLastEntryKept` and `Scenarios.TrailingIgnoredSiblingDrawsTee`.

Child lines in the tree never carry a trailing slash, even for directories (`repo2txt.py:219`); only the root line does.

## Model

| member | source | states |
|---|---|---|
| Ignore.FirstMatch | src/repo2txt/repo2txt.py:122-152 | the rules are tried in `should_ignore`'s order. The reported rule fires and no earlier rule does. There is no rule exactly when none of the six fires |
| Ignore.ShouldIgnore | src/repo2txt/repo2txt.py:108-152 | an entry is ignored iff at least one rule fires. The order decides only which rule is reported, not the verdict |
| Ignore.StartsWithAny | src/repo2txt/repo2txt.py:147-149 | `startswith` on a tuple: true iff the string starts with at least one of the pieces |
| Ignore.PatternsHide | src/repo2txt/repo2txt.py:146-150 | the gitignore loop: true iff the relative path starts with some `/`-piece of some pattern |
| Ignore.OutputFileAlwaysIgnored | src/repo2txt/repo2txt.py:126-127 | an entry whose absolute path is the output file is ignored by the first rule, whatever the other settings |
| Ignore.OutsideIncludeDirIgnored | src/repo2txt/repo2txt.py:132-135 | with an include directory set, an entry whose absolute path does not start with it is ignored |
| Ignore.ExcludeDirsOnlyAffectDirs | src/repo2txt/repo2txt.py:129-130 | changing the excluded directory names never changes the verdict on a file |
| Ignore.FileRulesOnlyAffectFiles | src/repo2txt/repo2txt.py:137-140 | changing the ignored file names and extensions never changes the verdict on a directory |
| Ignore.SettingsRuleIgnoresDirsToo | src/repo2txt/repo2txt.py:142-143 | with the settings flag set, an entry whose lower-cased extension is a settings extension is ignored, a directory as well as a file, since this rule has no file test |
| Ignore.SettingsListInertWhenOff | src/repo2txt/repo2txt.py:142-143 | with the settings flag clear, changing the settings extensions never changes a verdict |
| Ignore.IgnoredTypeUsesLowerExt | src/repo2txt/repo2txt.py:122-140 | a file whose lower-cased `splitext` extension is listed is ignored. A name without an extension is caught only if the empty string is listed |
| Ignore.GitignoreDecides | src/repo2txt/repo2txt.py:145-150 | with the flag set and no earlier rule firing, the entry is ignored iff its relative path starts with some piece of some pattern (both directions) |
| Ignore.EmptyPieceHidesEverything | src/repo2txt/repo2txt.py:145-150 | a pattern with an empty `/`-piece ignores every entry |
| Ignore.SlashEdgedPatternHidesEverything | src/repo2txt/repo2txt.py:147-149 | a pattern starting or ending with `/` ignores every entry |
| Ignore.PatternIsStringPrefix | src/repo2txt/repo2txt.py:147-149 | a pattern without `/` hides every entry whose relative path string starts with it, whole name or not |
| Ignore.BuildHidesBuildx | src/repo2txt/repo2txt.py:147-149 | the pattern `build` hides the root file `buildx.txt` |
| Ignore.ShouldIgnoreMonotone | src/repo2txt/repo2txt.py:108-152 | longer ignore lists, more flags and more patterns never bring an ignored entry back |
| Paths.Ext | src/repo2txt/repo2txt.py:123 | `splitext`: empty, or a suffix that starts with the last dot, holds no other dot and has a non-dot character before it. It is empty only when every dot in the name is preceded only by dots |
| Paths.ExtFromLastDot | src/repo2txt/repo2txt.py:123 | conversely, when a non-dot character precedes the last dot, the extension is the suffix from that dot |
| Paths.NoExtensionCases | src/repo2txt/repo2txt.py:123 | a name without a dot, or whose only dot is leading (`.env`), has no extension |
| Paths.FileExtIgnoresCase | src/repo2txt/repo2txt.py:123 | names that differ only in ASCII case have the same lower-cased extension |
| Paths.RelPathChild | src/repo2txt/repo2txt.py:274-276 | one level down, the relative path is the parent's, a `/`, and the child's name |
| Paths.AbsPathJoinsRelPath | src/repo2txt/repo2txt.py:126-135 | the absolute path of an entry is the root's absolute path, a `/`, and its relative path; directly below `/` there is no second slash |
| Paths.RelPathSplits | src/repo2txt/repo2txt.py:146-149 | for names without `/`, splitting the relative path on `/` gives the location back, and the base name is the last piece |
| Strings.Lower | src/repo2txt/repo2txt.py:123 | keeps the length and lower-cases each character in place |
| Strings.LowerIdempotent | src/repo2txt/repo2txt.py:123 | lower-casing twice is lower-casing once, and no upper-case letter remains |
| Strings.LowerFixesLowercase | src/repo2txt/repo2txt.py:123 | text without upper-case letters is unchanged by lower-casing |
| Strings.JoinAppend | src/repo2txt/repo2txt.py:274-276 | joining two non-empty lists puts exactly one separator between their joins |
| Strings.Split | src/repo2txt/repo2txt.py:148 | `pattern.split("/")`: one more piece than separators, no piece holds a separator, and joining the pieces gives the pattern back |
| Strings.SplitJoin | src/repo2txt/repo2txt.py:148 | splitting a join of separator-free pieces gives the pieces back |
| Strings.SplitNoSeparator | src/repo2txt/repo2txt.py:148 | a string without the separator splits into itself alone |
| Strings.EdgeSeparatorGivesEmptyPiece | src/repo2txt/repo2txt.py:148 | a separator at either end yields an empty piece |
| Strings.LastPieceIsTail | src/repo2txt/repo2txt.py:148 | the last piece is empty exactly when the string ends with the separator |
| Strings.TrimStartSpec | src/repo2txt/repo2txt.py:171 | the leading-whitespace strip leaves the suffix from the first non-space character |
| Strings.TrimEndSpec | src/repo2txt/repo2txt.py:171 | the trailing-whitespace strip leaves the prefix up to the last non-space character |
| Strings.Trim | src/repo2txt/repo2txt.py:171 | `strip()` never lengthens, and its result has no whitespace at either end |
| Strings.TrimIsInfix | src/repo2txt/repo2txt.py:171 | `strip()` keeps an infix with only whitespace around it |
| Strings.TrimFixesTrimmed | src/repo2txt/repo2txt.py:171 | `strip()` is the identity exactly on strings with no whitespace at either end |
| Strings.TrimIdempotent | src/repo2txt/repo2txt.py:171 | stripping twice is stripping once |
| Strings.LexLeTotal | src/repo2txt/repo2txt.py:206 | the name order is total |
| Strings.LexLeTransitive | src/repo2txt/repo2txt.py:206 | the name order is transitive |
| Strings.LexLeAntisymmetric | src/repo2txt/repo2txt.py:206 | the name order is antisymmetric |
| Strings.LastIndexOf | src/repo2txt/repo2txt.py:123 | the last position of a character: absent iff the character does not occur, otherwise a match with no match after it |
| Gitignore.LoadPatterns | src/repo2txt/repo2txt.py:165-176 | a missing file gives no patterns. Every loaded pattern is non-empty, equals its own strip and does not start with `#` |
| Gitignore.KeepPatternsAreClean | src/repo2txt/repo2txt.py:170-174 | each kept entry is a non-empty, stripped, non-comment line |
| Gitignore.KeepPatternsMembers | src/repo2txt/repo2txt.py:170-174 | a string is loaded iff it is non-empty, does not start with `#`, and some line strips to it (both directions) |
| Gitignore.KeepPatternsAppend | src/repo2txt/repo2txt.py:170-174 | the loader works line by line in file order: the patterns of a concatenation are the concatenated patterns |
| Gitignore.KeepPatternsIdempotent | src/repo2txt/repo2txt.py:170-174 | loading the loaded patterns again changes nothing |
| FileSystem.SortByName | src/repo2txt/repo2txt.py:205-206 | the sorted listing is ordered by name and is a permutation of the directory's children |
| FileSystem.InsertPermutes | src/repo2txt/repo2txt.py:206 | an insertion step adds exactly the inserted entry |
| FileSystem.InsertSorted | src/repo2txt/repo2txt.py:206 | an insertion step keeps the listing sorted |
| FileSystem.FilterMembers | src/repo2txt/repo2txt.py:266-272 | an entry survives the filter iff it was listed and passes the predicate |
| FileSystem.FilterSubMultiset | src/repo2txt/repo2txt.py:266-272 | filtering only removes entries |
| FileSystem.FilterPreservesSorted | src/repo2txt/repo2txt.py:266-272 | filtering a sorted listing leaves it sorted |
| FileSystem.FilterSortCommute | src/repo2txt/repo2txt.py:266-272 | filtering the sorted listing equals sorting the filtered listing. This is why the tree's sort-then-skip and the dump's filter-then-sort visit the same entries |
| Tree.WriteTree | src/repo2txt/repo2txt.py:179-231 | the tree section is the root's name and `/`, then one rendered line per row of the root's listing, in which every kept directory is followed at once by its own rows (`Tree.RowsOpenDirectories`), and every deeper row lies inside such a block, so no subtree is written twice or out of place (`Tree.RowsInsideBlocks`) |
| Tree.TreeItemsRenderRows | src/repo2txt/repo2txt.py:209-231 | the loop over a directory's sorted entries, from any index on, writes exactly the rendered rows of those entries and of the kept directories below them |
| Tree.TreeBodyRendersRows | src/repo2txt/repo2txt.py:209-231 | the string renderer writes exactly the rendered rows, in order, once the prefix is built from the guides |
| Tree.Indent | src/repo2txt/repo2txt.py:216-222 | the prefix for `d` levels is exactly `4*d` characters |
| Tree.IndentPieces | src/repo2txt/repo2txt.py:216-222 | the prefix is the guides' four-column pieces in order: `"    "` for a guide that is set and `"│   "` for one that is not |
| Tree.IndentAt | src/repo2txt/repo2txt.py:217-222 | column `4*k` of the prefix is a blank where guide `k` is set and `│` where it is not; `GuidesRecordAncestorLast` ties guide `k` to the level-`k` ancestor being drawn last |
| Tree.RowsPlaced | src/repo2txt/repo2txt.py:209-231 | every row sits below its directory, one guide per level. It is named after its entry, the filter keeps it, and the filter keeps every directory between it and the root, since ignored directories are not descended into |
| Tree.RowsOpenDirectories | src/repo2txt/repo2txt.py:209-231 | every kept directory is opened at once: its row is followed immediately by the rows of its own listing, at its location, whose new guide is whether the directory was drawn with the corner |
| Tree.RowsInsideBlocks | src/repo2txt/repo2txt.py:209-231 | each deeper row of a listing lies in the block opened by an earlier directory row of the listing's own level, since the only lines written below a directory come from its own recursive call |
| Tree.GuidesRecordAncestorLast | src/repo2txt/repo2txt.py:215-231 | each row below a directory row starts its guides with that row's guides and then whether that row was drawn last, so a level's column shows a blank under a corner and `│` under a tee |
| Tree.ListsShownChildren | src/repo2txt/repo2txt.py:209-219 | a directory's own lines list exactly its children that pass the filter, once each, in sorted order |
| Tree.CornerFollowsUnfilteredLast | src/repo2txt/repo2txt.py:209-216 | only the last entry of the unfiltered sorted listing can get the corner. It gets it iff it passes the filter |
| Tree.RowItemsCorner | src/repo2txt/repo2txt.py:209-219 | from any index of the sorted listing on, every corner at this level is for the last unfiltered entry, and a corner is drawn iff that entry is still ahead and is kept |
| Tree.RowColumn | src/repo2txt/repo2txt.py:215-219 | a line shows `└` in the glyph column of level `k` iff it belongs to that level and is drawn last |
| Tree.CornerDrawnIffLastEntryKept | src/repo2txt/repo2txt.py:209-219 | every line is longer than its prefix. Some line of a directory shows `└` in that directory's glyph column iff the last unfiltered entry is kept |
| Dump.SpacesAreBlank | src/repo2txt/repo2txt.py:243 | the indentation for depth `d` is `2*d` blanks |
| Dump.IndentLines | src/repo2txt/repo2txt.py:246-248 | the written text is the file's text plus the indentation once per line; with no indentation it is the text verbatim |
| Dump.IndentLinesOne | src/repo2txt/repo2txt.py:246-248 | a single line is written as the indentation followed by the line |
| Dump.IndentLinesAppend | src/repo2txt/repo2txt.py:246-248 | lines are written one after the other: indenting two runs of lines gives the two indented runs, concatenated |
| Dump.WriteFileContent | src/repo2txt/repo2txt.py:243-250 | a readable file adds `2*depth` characters per line and is verbatim at depth 0. An unreadable one gives exactly one line: the indentation, `Error reading file: `, the error's text, and `\n` |
| Dump.WriteFileContentByLine | src/repo2txt/repo2txt.py:243-248 | an empty file writes nothing, a one-line file writes the indentation and the line, and the lines of a file are written in order, each indented |
| Dump.FileBlock | src/repo2txt/repo2txt.py:283-285 | a file's block is the indented `[File Begins] <path>` line, then the file content, then a newline, the indented `[File Ends] <path>` line and a blank line |
| Dump.DumpFollowsRows | src/repo2txt/repo2txt.py:266-285 | dumping a directory writes the blocks of the file rows of its tree listing, in order, each at the row's depth |
| Dump.WriteFileContentsInOrder | src/repo2txt/repo2txt.py:253-285 | the content section is one `[File Begins]`/`[File Ends]` block per file row of the tree, in the tree's order, each at its row's depth and under its row's relative path |
| Dump.DumpItemsFollowRows | src/repo2txt/repo2txt.py:266-285 | the dump of the kept entries from any index of the sorted listing on is the blocks of the file rows the tree draws for those entries: filtering then sorting visits what sorting then skipping visits |
| Dump.FileBlocksAppend | src/repo2txt/repo2txt.py:274-285 | the blocks of concatenated rows are the concatenated blocks |
| Scenarios.ImageIsIgnored | src/repo2txt/repo2txt.py:137-140 | `b.png` is ignored when `.png` is an ignored extension |
| Scenarios.TextFileIsKept | src/repo2txt/repo2txt.py:108-152 | `a.txt` passes every rule |
| Scenarios.TrailingIgnoredSiblingDrawsTee | src/repo2txt/repo2txt.py:209-219 | with `a.txt` and an ignored `b.png`, the tree is `repo/` then `├── a.txt`, with no corner |
| Scenarios.DumpHoldsTextFileOnly | src/repo2txt/repo2txt.py:274-285 | the content section of the same repository is the single block for `a.txt` |
| Scenarios.NestedRows | src/repo2txt/repo2txt.py:205-231 | with `sub/c.txt` added, the listing is `a.txt` with a tee, `sub` with the corner, then `sub`'s own row for `c.txt` under a blank guide |
| Scenarios.NestedTree | src/repo2txt/repo2txt.py:201-231 | the tree is `repo/`, `├── a.txt`, `└── sub`, `    └── c.txt` |
| Scenarios.NestedDump | src/repo2txt/repo2txt.py:266-285 | the content section is the block for `a.txt` at depth 0, then the block for `sub/c.txt` at depth 1 |
| Scenarios.DeepBlockShape | src/repo2txt/repo2txt.py:243-248 | that depth-1 block indents both markers and its content line by two blanks |

## Left out

- `load_config` and the JSON globals (`repo2txt.py:8-31`): configuration loading. The extension lists, including the settings extensions, are fields of `Ignore.Config`.
- `parse_args` (`repo2txt.py:34-105`): command-line parsing.
- `main` (`repo2txt.py:288-351`) is left out as glue:
  - the fixed header and the section banners;
  - the check that the root is a directory;
  - opening the output file;
  - the `"none"` sentinel handling, which replaces any user-given ignored types with the built-in union.
  
  `Config` holds the lists as they are after that step.
- Real filesystem calls are replaced by the `Node` tree:
  - `os.listdir`, `isdir` and `isfile`;
  - path normalisation;
  - symbolic links.
  
  An entry is a file or a directory. The `elif os.path.isfile` branch of `write_file_contents_in_order` skips entries that are neither; the model has no such entries.
- Character decoding is left out: UTF-8 with `errors="ignore"`. A file's read result is given as lines or as an error message, the text of Python's exception.
- `load_gitignore_patterns` opening `.gitignore` strictly as UTF-8 (`repo2txt.py:169`) is left out. A byte that is not UTF-8 raises `UnicodeDecodeError` and aborts the run. So does a `.gitignore` that exists but is a directory or cannot be read. The model's file is either absent (`None`) or a list of lines.
- `os.listdir` failing on an unreadable directory (`repo2txt.py:205`, `:268`) is left out. It raises and aborts the run after part of the tree, or part of the content section, has been written. The model's directories always list their children.
- A read that fails after some lines were already written is left out. The model's read succeeds completely or fails before writing anything.
- Output is left out as side effects on a stream. The tree is a sequence of lines without their `\n`; the content section is one string.
- The `is_last` parameter of `write_tree` (`repo2txt.py:185`, `:229`) is never read, so the model has no counterpart.
- Python's `list.sort` and `sorted` are modelled by a verified insertion sort on the same code-point order.
- Strings.Lower: lower-cases ASCII letters only, not the full Unicode case mapping of `str.lower()`.
- Paths.AbsPath: takes the root's absolute location as given and does not model `os.path.abspath` normalising `.`, `..` or repeated slashes. Entry names from a listing never contain them.
