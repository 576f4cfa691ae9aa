/**
 * `should_ignore`: the predicate deciding whether a directory entry is left
 * out of both the tree and the content dump. `should_ignore` checks six rules in
 * a fixed order and answers "ignore" at the first one that fires; here the
 * rules are named by `Rule`, `FirstMatch` is that chain, and
 * `ShouldIgnore` is whether any rule fired.
 */
module Ignore {

  import opened Wrappers
  import opened Strings
  import opened Paths

  /**
   * One run's settings, resolved before the traversal starts. Paths are
   * already absolute and normalised; the extension category lists the
   * tool reads from its JSON configuration are plain fields.
   */
  datatype Config = Config(
    repoRoot: seq<string>,           // absolute location of the repository root, as segments
    outputFile: string,              // absolute path of the output file
    ignoreFiles: seq<string>,        // file names to ignore
    ignoreTypes: seq<string>,        // extensions to ignore, compared after lower-casing the entry's
    excludeDirs: seq<string>,        // directory names to exclude
    includeDir: Option<string>,      // absolute path every entry must start with, if set
    ignoreSettings: bool,
    settingsExtensions: seq<string>,
    useGitignore: bool)

  /** The rules of `should_ignore`, in the order `should_ignore` checks them. */
  datatype Rule =
    | OutputFile
    | ExcludedDir
    | OutsideIncludeDir
    | IgnoredFileOrType
    | SettingsFile
    | GitignoreMatch

  function Rank(q: Rule): nat
  {
    match q
    case OutputFile => 0
    case ExcludedDir => 1
    case OutsideIncludeDir => 2
    case IgnoredFileOrType => 3
    case SettingsFile => 4
    case GitignoreMatch => 5
  }

  /** `s.startswith(tuple(pieces))`: `s` starts with at least one of the pieces. */
  function StartsWithAny(s: string, pieces: seq<string>): (r: bool)
    ensures r <==> exists j :: 0 <= j < |pieces| && StartsWith(s, pieces[j])
  {
    if pieces == [] then false
    else StartsWith(s, pieces[0]) || StartsWithAny(s, pieces[1..])
  }

  /**
   * The gitignore loop: the relative path string starts with some
   * `/`-separated piece of some pattern. Pieces are plain string prefixes,
   * not path segments, and an empty piece matches every path.
   */
  function PatternsHide(patterns: seq<string>, relPath: string): (r: bool)
    ensures r <==> exists i :: 0 <= i < |patterns| && StartsWithAny(relPath, Split(patterns[i], '/'))
  {
    if patterns == [] then false
    else StartsWithAny(relPath, Split(patterns[0], '/')) || PatternsHide(patterns[1..], relPath)
  }

  /** Whether rule `q` fires for the entry at `rel` (relative to the root), a directory when `isDir`. */
  predicate Fires(cfg: Config, patterns: seq<string>, rel: seq<string>, isDir: bool, q: Rule)
    requires rel != []
  {
    var name := Basename(rel);
    var abs := AbsPath(cfg.repoRoot + rel);
    match q
    case OutputFile => abs == cfg.outputFile
    case ExcludedDir => isDir && name in cfg.excludeDirs
    case OutsideIncludeDir => cfg.includeDir.Some? && !StartsWith(abs, cfg.includeDir.value)
    case IgnoredFileOrType => !isDir && (name in cfg.ignoreFiles || FileExt(name) in cfg.ignoreTypes)
    case SettingsFile => cfg.ignoreSettings && FileExt(name) in cfg.settingsExtensions
    case GitignoreMatch => cfg.useGitignore && PatternsHide(patterns, RelPath(rel))
  }

  /** The first rule, in the order `should_ignore` checks them, that fires; `None` when the entry is kept. */
  function FirstMatch(cfg: Config, patterns: seq<string>, rel: seq<string>, isDir: bool): (r: Option<Rule>)
    requires rel != []
    ensures r.Some? ==> Fires(cfg, patterns, rel, isDir, r.value)
    ensures r.Some? ==> forall q :: Rank(q) < Rank(r.value) ==> !Fires(cfg, patterns, rel, isDir, q)
    ensures r.None? <==> forall q :: !Fires(cfg, patterns, rel, isDir, q)
  {
    if Fires(cfg, patterns, rel, isDir, OutputFile) then Some(OutputFile)
    else if Fires(cfg, patterns, rel, isDir, ExcludedDir) then Some(ExcludedDir)
    else if Fires(cfg, patterns, rel, isDir, OutsideIncludeDir) then Some(OutsideIncludeDir)
    else if Fires(cfg, patterns, rel, isDir, IgnoredFileOrType) then Some(IgnoredFileOrType)
    else if Fires(cfg, patterns, rel, isDir, SettingsFile) then Some(SettingsFile)
    else if Fires(cfg, patterns, rel, isDir, GitignoreMatch) then Some(GitignoreMatch)
    else None
  }

  /** `should_ignore(item, ...)`: some rule fires, whatever their order. */
  function ShouldIgnore(cfg: Config, patterns: seq<string>, rel: seq<string>, isDir: bool): (r: bool)
    requires rel != []
    ensures r <==> exists q :: Fires(cfg, patterns, rel, isDir, q)
  {
    FirstMatch(cfg, patterns, rel, isDir).Some?
  }

  /** The output file is never included, whatever the other settings. */
  lemma OutputFileAlwaysIgnored(cfg: Config, patterns: seq<string>, rel: seq<string>, isDir: bool)
    requires rel != [] && AbsPath(cfg.repoRoot + rel) == cfg.outputFile
    ensures FirstMatch(cfg, patterns, rel, isDir) == Some(OutputFile)
  {
  }

  /** With an include directory set, every entry whose absolute path does not start with it is ignored. */
  lemma OutsideIncludeDirIgnored(cfg: Config, patterns: seq<string>, rel: seq<string>, isDir: bool)
    requires rel != [] && cfg.includeDir.Some?
    requires !StartsWith(AbsPath(cfg.repoRoot + rel), cfg.includeDir.value)
    ensures ShouldIgnore(cfg, patterns, rel, isDir)
  {
    assert Fires(cfg, patterns, rel, isDir, OutsideIncludeDir);
  }

  /** The excluded-directory names never affect a file. */
  lemma ExcludeDirsOnlyAffectDirs(cfg: Config, patterns: seq<string>, rel: seq<string>, dirs: seq<string>)
    requires rel != []
    ensures ShouldIgnore(cfg, patterns, rel, false)
            == ShouldIgnore(cfg.(excludeDirs := dirs), patterns, rel, false)
  {
    var cfg' := cfg.(excludeDirs := dirs);
    forall q | true
      ensures Fires(cfg, patterns, rel, false, q) == Fires(cfg', patterns, rel, false, q)
    {
    }
  }

  /** The ignored file names and ignored extensions never affect a directory. */
  lemma FileRulesOnlyAffectFiles(cfg: Config, patterns: seq<string>, rel: seq<string>,
                                 files: seq<string>, types: seq<string>)
    requires rel != []
    ensures ShouldIgnore(cfg, patterns, rel, true)
            == ShouldIgnore(cfg.(ignoreFiles := files, ignoreTypes := types), patterns, rel, true)
  {
    var cfg' := cfg.(ignoreFiles := files, ignoreTypes := types);
    forall q | true
      ensures Fires(cfg, patterns, rel, true, q) == Fires(cfg', patterns, rel, true, q)
    {
    }
  }

  /**
   * A file is ignored for its extension exactly as `splitext` finds it,
   * lower-cased: a name with no extension (no dot, or only a leading dot)
   * is never caught by a non-empty ignored extension.
   */
  lemma IgnoredTypeUsesLowerExt(cfg: Config, patterns: seq<string>, rel: seq<string>)
    requires rel != []
    requires FileExt(Basename(rel)) in cfg.ignoreTypes
    ensures ShouldIgnore(cfg, patterns, rel, false)
    ensures Ext(Basename(rel)) != [] || "" in cfg.ignoreTypes
  {
    assert Fires(cfg, patterns, rel, false, IgnoredFileOrType);
  }

  /**
   * The settings rule has no file test: with the flag set, a directory
   * whose name ends in a settings extension is ignored as well as a file.
   */
  lemma SettingsRuleIgnoresDirsToo(cfg: Config, patterns: seq<string>, rel: seq<string>, isDir: bool)
    requires rel != [] && cfg.ignoreSettings
    requires FileExt(Basename(rel)) in cfg.settingsExtensions
    ensures ShouldIgnore(cfg, patterns, rel, isDir)
  {
    assert Fires(cfg, patterns, rel, isDir, SettingsFile);
  }

  /** With the settings flag clear, the settings extensions never change a verdict. */
  lemma SettingsListInertWhenOff(cfg: Config, patterns: seq<string>, rel: seq<string>, isDir: bool, exts: seq<string>)
    requires rel != [] && !cfg.ignoreSettings
    ensures ShouldIgnore(cfg, patterns, rel, isDir)
            == ShouldIgnore(cfg.(settingsExtensions := exts), patterns, rel, isDir)
  {
    var cfg' := cfg.(settingsExtensions := exts);
    forall q | true
      ensures Fires(cfg, patterns, rel, isDir, q) == Fires(cfg', patterns, rel, isDir, q)
    {
    }
  }

  /**
   * When the earlier rules let the entry through, the gitignore flag decides:
   * the entry is ignored iff its relative path string starts with a
   * `/`-separated piece of one of the patterns.
   */
  lemma GitignoreDecides(cfg: Config, patterns: seq<string>, rel: seq<string>, isDir: bool)
    requires rel != [] && cfg.useGitignore
    requires forall q :: Rank(q) < Rank(GitignoreMatch) ==> !Fires(cfg, patterns, rel, isDir, q)
    ensures ShouldIgnore(cfg, patterns, rel, isDir)
            <==> exists i, j :: 0 <= i < |patterns| && 0 <= j < |Split(patterns[i], '/')|
                                && StartsWith(RelPath(rel), Split(patterns[i], '/')[j])
  {
    assert !Fires(cfg, patterns, rel, isDir, OutputFile) && Rank(OutputFile) < 5;
    assert !Fires(cfg, patterns, rel, isDir, ExcludedDir) && Rank(ExcludedDir) < 5;
    assert !Fires(cfg, patterns, rel, isDir, OutsideIncludeDir) && Rank(OutsideIncludeDir) < 5;
    assert !Fires(cfg, patterns, rel, isDir, IgnoredFileOrType) && Rank(IgnoredFileOrType) < 5;
    assert !Fires(cfg, patterns, rel, isDir, SettingsFile) && Rank(SettingsFile) < 5;
    var s := RelPath(rel);
    if ShouldIgnore(cfg, patterns, rel, isDir) {
      assert Fires(cfg, patterns, rel, isDir, GitignoreMatch);
      var i :| 0 <= i < |patterns| && StartsWithAny(s, Split(patterns[i], '/'));
      var j :| 0 <= j < |Split(patterns[i], '/')| && StartsWith(s, Split(patterns[i], '/')[j]);
      assert exists i, j :: 0 <= i < |patterns| && 0 <= j < |Split(patterns[i], '/')|
                            && StartsWith(s, Split(patterns[i], '/')[j]);
    }
    if exists i, j :: 0 <= i < |patterns| && 0 <= j < |Split(patterns[i], '/')|
                      && StartsWith(s, Split(patterns[i], '/')[j]) {
      var i, j :| 0 <= i < |patterns| && 0 <= j < |Split(patterns[i], '/')|
                  && StartsWith(s, Split(patterns[i], '/')[j]);
      assert StartsWithAny(s, Split(patterns[i], '/'));
      assert Fires(cfg, patterns, rel, isDir, GitignoreMatch);
    }
  }

  /** A pattern with an empty `/`-piece (a leading, trailing or doubled `/`) hides every entry. */
  lemma EmptyPieceHidesEverything(cfg: Config, patterns: seq<string>, rel: seq<string>, isDir: bool, i: nat)
    requires rel != [] && cfg.useGitignore
    requires i < |patterns| && "" in Split(patterns[i], '/')
    ensures ShouldIgnore(cfg, patterns, rel, isDir)
  {
    var pieces := Split(patterns[i], '/');
    var j :| 0 <= j < |pieces| && pieces[j] == "";
    assert StartsWith(RelPath(rel), pieces[j]);
    assert Fires(cfg, patterns, rel, isDir, GitignoreMatch);
  }

  /** So a directory pattern written `name/` (or `/name`) hides the whole repository. */
  lemma SlashEdgedPatternHidesEverything(cfg: Config, patterns: seq<string>, rel: seq<string>, isDir: bool, i: nat)
    requires rel != [] && cfg.useGitignore
    requires i < |patterns| && patterns[i] != []
    requires patterns[i][0] == '/' || patterns[i][|patterns[i]| - 1] == '/'
    ensures ShouldIgnore(cfg, patterns, rel, isDir)
  {
    EdgeSeparatorGivesEmptyPiece(patterns[i], '/');
    EmptyPieceHidesEverything(cfg, patterns, rel, isDir, i);
  }

  /**
   * A slash-free pattern is a plain string prefix of the relative path, not
   * a segment: `build` hides `buildx.txt` and `build.gradle` as well as `build/`.
   */
  lemma PatternIsStringPrefix(cfg: Config, patterns: seq<string>, rel: seq<string>, isDir: bool, i: nat)
    requires rel != [] && cfg.useGitignore
    requires i < |patterns| && '/' !in patterns[i]
    requires StartsWith(RelPath(rel), patterns[i])
    ensures ShouldIgnore(cfg, patterns, rel, isDir)
  {
    SplitNoSeparator(patterns[i], '/');
    assert StartsWithAny(RelPath(rel), Split(patterns[i], '/'));
    assert Fires(cfg, patterns, rel, isDir, GitignoreMatch);
  }

  /** The pattern `build` hides the file `buildx.txt` at the root. */
  lemma BuildHidesBuildx(cfg: Config)
    requires cfg.useGitignore
    ensures ShouldIgnore(cfg, ["build"], ["buildx.txt"], false)
  {
    assert RelPath(["buildx.txt"]) == "buildx.txt";
    assert "buildx.txt"[..5] == "build";
    PatternIsStringPrefix(cfg, ["build"], ["buildx.txt"], false, 0);
  }

  /** `cfg'` ignores at least what `cfg` does: same locations, larger lists, more flags set. */
  predicate Stricter(cfg: Config, cfg': Config)
  {
    && cfg'.repoRoot == cfg.repoRoot
    && cfg'.outputFile == cfg.outputFile
    && cfg'.includeDir == cfg.includeDir
    && (forall x :: x in cfg.ignoreFiles ==> x in cfg'.ignoreFiles)
    && (forall x :: x in cfg.ignoreTypes ==> x in cfg'.ignoreTypes)
    && (forall x :: x in cfg.excludeDirs ==> x in cfg'.excludeDirs)
    && (cfg.ignoreSettings ==> cfg'.ignoreSettings)
    && (forall x :: x in cfg.settingsExtensions ==> x in cfg'.settingsExtensions)
    && (cfg.useGitignore ==> cfg'.useGitignore)
  }

  /**
   * Ignoring is monotone: a stricter configuration and more patterns never
   * bring back an entry. (Adding `.png` to the ignored types can only hide
   * entries, and removing it can only reveal them.)
   */
  lemma ShouldIgnoreMonotone(cfg: Config, cfg': Config, patterns: seq<string>, patterns': seq<string>,
                             rel: seq<string>, isDir: bool)
    requires rel != [] && Stricter(cfg, cfg')
    requires forall p :: p in patterns ==> p in patterns'
    ensures ShouldIgnore(cfg, patterns, rel, isDir) ==> ShouldIgnore(cfg', patterns', rel, isDir)
  {
    if ShouldIgnore(cfg, patterns, rel, isDir) {
      var q :| Fires(cfg, patterns, rel, isDir, q);
      if q == GitignoreMatch {
        var i :| 0 <= i < |patterns| && StartsWithAny(RelPath(rel), Split(patterns[i], '/'));
        assert patterns[i] in patterns';
        var k :| 0 <= k < |patterns'| && patterns'[k] == patterns[i];
        assert PatternsHide(patterns', RelPath(rel));
      }
      assert Fires(cfg', patterns', rel, isDir, q);
    }
  }
}
