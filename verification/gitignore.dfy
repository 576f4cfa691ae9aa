/**
 * `load_gitignore_patterns`: the lines of `<repo>/.gitignore`, stripped,
 * without blank lines and `#` comments, in file order. The file is given
 * as its lines (`None` when it does not exist); reading it is left out.
 */
module Gitignore {

  import opened Wrappers
  import opened Strings

  /** A line the loader keeps: non-empty after stripping and not a comment. */
  predicate IsPattern(p: string)
  {
    p != [] && IsTrimmed(p) && p[0] != '#'
  }

  /** The pattern one line contributes: its stripped text when that is kept, nothing otherwise. */
  function LinePattern(line: string): (r: seq<string>)
    ensures |r| <= 1
  {
    var p := Trim(line);
    if p != [] && p[0] != '#' then [p] else []
  }

  /** What `f` makes of each line, one after the other. */
  function FlatMap(f: string -> seq<string>, lines: seq<string>): seq<string>
  {
    if lines == [] then [] else f(lines[0]) + FlatMap(f, lines[1..])
  }

  lemma {:induction false} FlatMapAppend(f: string -> seq<string>, a: seq<string>, b: seq<string>)
    ensures FlatMap(f, a + b) == FlatMap(f, a) + FlatMap(f, b)
  {
    if a == [] {
      assert a + b == b;
    } else {
      assert (a + b)[0] == a[0] && (a + b)[1..] == a[1..] + b;
      FlatMapAppend(f, a[1..], b);
    }
  }

  /** The kept lines of `lines`, stripped, in their order. */
  function KeepPatterns(lines: seq<string>): seq<string>
  {
    FlatMap(LinePattern, lines)
  }

  /** `load_gitignore_patterns(repo_path)`, given the file's lines or `None` when it is absent. */
  function LoadPatterns(file: Option<seq<string>>): (r: seq<string>)
    ensures file.None? ==> r == []
    ensures forall i :: 0 <= i < |r| ==> r[i] != [] && Trim(r[i]) == r[i] && r[i][0] != '#'
  {
    match file
    case None => []
    case Some(lines) =>
      var r := KeepPatterns(lines);
      forall i | 0 <= i < |r|
        ensures r[i] != [] && Trim(r[i]) == r[i] && r[i][0] != '#'
      {
        KeepPatternsAreClean(lines, i);
        TrimFixesTrimmed(r[i]);
      }
      r
  }

  /** Every kept line is non-empty, stripped and not a comment. */
  lemma {:induction false} KeepPatternsAreClean(lines: seq<string>, i: nat)
    requires i < |KeepPatterns(lines)|
    ensures IsPattern(KeepPatterns(lines)[i])
  {
    var p := Trim(lines[0]);
    var rest := KeepPatterns(lines[1..]);
    if p != [] && p[0] != '#' {
      assert KeepPatterns(lines) == [p] + rest;
      if i > 0 { KeepPatternsAreClean(lines[1..], i - 1); }
    } else {
      assert KeepPatterns(lines) == rest;
      KeepPatternsAreClean(lines[1..], i);
    }
  }

  /** The loader works line by line: the patterns of a concatenation are the concatenated patterns. */
  lemma KeepPatternsAppend(a: seq<string>, b: seq<string>)
    ensures KeepPatterns(a + b) == KeepPatterns(a) + KeepPatterns(b)
  {
    FlatMapAppend(LinePattern, a, b);
  }

  /** A string is a loaded pattern iff some line strips to it and it is neither empty nor a comment. */
  lemma {:induction false} KeepPatternsMembers(lines: seq<string>, p: string)
    ensures p in KeepPatterns(lines)
            <==> p != [] && p[0] != '#' && exists k :: 0 <= k < |lines| && Trim(lines[k]) == p
  {
    if lines != [] {
      KeepPatternsMembers(lines[1..], p);
      if exists k :: 0 <= k < |lines[1..]| && Trim(lines[1..][k]) == p {
        var k :| 0 <= k < |lines[1..]| && Trim(lines[1..][k]) == p;
        assert Trim(lines[k + 1]) == p;
      }
      if exists k :: 0 <= k < |lines| && Trim(lines[k]) == p {
        var k :| 0 <= k < |lines| && Trim(lines[k]) == p;
        if k > 0 {
          assert Trim(lines[1..][k - 1]) == p;
        }
      }
    }
  }

  /** Loading a file that holds only loaded patterns gives it back unchanged. */
  lemma {:induction false} KeepPatternsIdempotent(lines: seq<string>)
    ensures KeepPatterns(KeepPatterns(lines)) == KeepPatterns(lines)
  {
    if lines != [] {
      var p := Trim(lines[0]);
      var rest := KeepPatterns(lines[1..]);
      KeepPatternsIdempotent(lines[1..]);
      if p != [] && p[0] != '#' {
        TrimIdempotent(lines[0]);
        assert KeepPatterns(lines) == [p] + rest;
        assert ([p] + rest)[0] == p && ([p] + rest)[1..] == rest;
        assert KeepPatterns([p] + rest) == [p] + KeepPatterns(rest);
      } else {
        assert KeepPatterns(lines) == rest;
      }
    }
  }
}
