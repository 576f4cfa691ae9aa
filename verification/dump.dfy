/**
 * `write_file_contents_in_order` and `write_file_content`: every kept file,
 * depth first in name order, framed by begin and end markers that carry its
 * path relative to the root, with each content line indented two spaces per
 * directory level. The result is the text written to the output file.
 *
 * The second half of the module shows that this pass agrees with
 * `write_tree`. The tree sorts and then skips ignored entries; the dump drops
 * ignored entries and then sorts; both use the same filter. So the content
 * section is exactly one block per file row of the tree, in the tree's
 * depth-first order.
 */
module Dump {

  import opened Strings
  import opened FileSystem
  import opened Paths
  import opened Ignore
  import opened Tree

  /** `"  " * depth`. */
  function Spaces(depth: nat): (r: string)
    ensures |r| == 2 * depth
  {
    if depth == 0 then "" else "  " + Spaces(depth - 1)
  }

  /** The indentation is blanks only. */
  lemma {:induction false} SpacesAreBlank(depth: nat)
    ensures forall i :: 0 <= i < |Spaces(depth)| ==> Spaces(depth)[i] == ' '
  {
    if depth > 0 {
      SpacesAreBlank(depth - 1);
      var r := Spaces(depth);
      forall i | 0 <= i < |r|
        ensures r[i] == ' '
      {
        if i >= 2 { assert r[i] == Spaces(depth - 1)[i - 2]; }
      }
    }
  }

  /** The file's text: its lines, each keeping its own terminator, one after the other. */
  function Concat(lines: seq<string>): string
  {
    if lines == [] then "" else lines[0] + Concat(lines[1..])
  }

  /** Each line of the file prefixed by `indent`. */
  function IndentLines(indent: string, lines: seq<string>): (r: string)
    ensures |r| == |Concat(lines)| + |indent| * |lines|
    ensures indent == "" ==> r == Concat(lines)
  {
    if lines == [] then ""
    else indent + lines[0] + IndentLines(indent, lines[1..])
  }

  /** A single line comes out as the indentation followed by the line. */
  lemma IndentLinesOne(indent: string, line: string)
    ensures IndentLines(indent, [line]) == indent + line
  {
    assert [line][1..] == [];
  }

  /** The lines are written one after the other: indenting a concatenation concatenates the indented parts. */
  lemma {:induction false} IndentLinesAppend(indent: string, a: seq<string>, b: seq<string>)
    ensures IndentLines(indent, a + b) == IndentLines(indent, a) + IndentLines(indent, b)
  {
    if a == [] {
      assert a + b == b;
    } else {
      assert (a + b)[0] == a[0] && (a + b)[1..] == a[1..] + b;
      IndentLinesAppend(indent, a[1..], b);
      AppendAssoc(indent + a[0], IndentLines(indent, a[1..]), IndentLines(indent, b));
    }
  }

  lemma AppendAssoc(x: string, y: string, z: string)
    ensures x + (y + z) == (x + y) + z
  {
  }

  const ErrorPrefix := "Error reading file: "

  /**
   * `write_file_content(file_path, output_file, depth)`: the content lines
   * with the indentation in front, or a single indented error line when the
   * file cannot be read. At depth 0 the content is the file's text verbatim.
   */
  function WriteFileContent(depth: nat, read: ReadResult): (r: string)
    ensures read.Ok? ==> |r| == |Concat(read.lines)| + 2 * depth * |read.lines|
    ensures read.Ok? && depth == 0 ==> r == Concat(read.lines)
    ensures read.Err? ==>
              && StartsWith(r, Spaces(depth) + ErrorPrefix)
              && |r| == 2 * depth + |ErrorPrefix| + |read.message| + 1
              && r[2 * depth + |ErrorPrefix|..|r| - 1] == read.message
              && r[|r| - 1] == '\n'
  {
    match read
    case Ok(lines) => IndentLines(Spaces(depth), lines)
    case Err(message) =>
      var r := Spaces(depth) + ErrorPrefix + message + "\n";
      assert r[2 * depth + |ErrorPrefix|..|r| - 1] == message;
      r
  }

  /**
   * A readable file is written line by line: each line gets the indentation
   * in front of it, and the lines follow each other in file order.
   */
  lemma WriteFileContentByLine(depth: nat, a: seq<string>, b: seq<string>, line: string)
    ensures WriteFileContent(depth, Ok([])) == ""
    ensures WriteFileContent(depth, Ok([line])) == Spaces(depth) + line
    ensures WriteFileContent(depth, Ok(a + b)) == WriteFileContent(depth, Ok(a)) + WriteFileContent(depth, Ok(b))
  {
    IndentLinesOne(Spaces(depth), line);
    IndentLinesAppend(Spaces(depth), a, b);
  }

  /** The text written for one kept file at `depth` whose path relative to the root is `relPath`. */
  function FileBlock(depth: nat, relPath: string, read: ReadResult): (r: string)
    ensures var begin := Spaces(depth) + "[File Begins] " + relPath + "\n";
            var end := "\n" + Spaces(depth) + "[File Ends] " + relPath + "\n\n";
            && |r| == |begin| + |WriteFileContent(depth, read)| + |end|
            && r[..|begin|] == begin
            && r[|begin|..|r| - |end|] == WriteFileContent(depth, read)
            && r[|r| - |end|..] == end
  {
    var begin := Spaces(depth) + "[File Begins] " + relPath + "\n";
    var end := "\n" + Spaces(depth) + "[File Ends] " + relPath + "\n\n";
    var content := WriteFileContent(depth, read);
    ThreeParts(begin, content, end);
    begin + content + end
  }

  /** The three parts of `a + b + c` can be read back off by position. */
  lemma ThreeParts(a: string, b: string, c: string)
    ensures var r := a + b + c;
            && r[..|a|] == a && r[|a|..|r| - |c|] == b && r[|r| - |c|..] == c
  {
  }

  /**
   * `write_file_contents_in_order(dir_path, ..., depth)`: the kept children
   * (filtered first, then sorted), a directory adding its own dump one level
   * deeper and writing nothing for itself, a file adding its block.
   */
  function DumpDir(cfg: Config, patterns: seq<string>, rel: seq<string>, depth: nat, d: Node): string
    requires d.Dir?
    decreases d, 1
  {
    var kept := FilterNodes(Shown(cfg, patterns, rel), d.children);
    FilterSubMultiset(Shown(cfg, patterns, rel), d.children);
    DumpItems(cfg, patterns, rel, depth, d, SortByName(kept))
  }

  function DumpItems(cfg: Config, patterns: seq<string>, rel: seq<string>, depth: nat,
                     d: Node, items: seq<Node>): string
    requires d.Dir? && multiset(items) <= multiset(d.children)
    decreases d, 0, |items|
  {
    if items == [] then ""
    else
      var item := items[0];
      assert item in multiset(items) && item in multiset(d.children);
      var path := rel + [item.name];
      var part := match item
        case Dir(_, _) => DumpDir(cfg, patterns, path, depth + 1, item)
        case File(_, read) => FileBlock(depth, RelPath(path), read);
      assert items == [items[0]] + items[1..];
      part + DumpItems(cfg, patterns, rel, depth, d, items[1..])
  }

  /**
   * The content section for the repository whose root directory is `root`:
   * one block per file row of the tree, in the tree's order, each at its
   * row's depth and under its row's relative path.
   */
  function WriteFileContentsInOrder(cfg: Config, patterns: seq<string>, root: Node): (r: string)
    requires root.Dir?
    ensures r == FileBlocks(Rows(cfg, patterns, [], [], root))
  {
    DumpFollowsRows(cfg, patterns, [], [], root);
    DumpDir(cfg, patterns, [], 0, root)
  }

  /** The block a row contributes: a file's block at the row's depth, nothing for a directory. */
  function RowBlock(r: Row): string
  {
    match r.node
    case File(_, read) => FileBlock(|r.guides|, RelPath(r.rel), read)
    case Dir(_, _) => ""
  }

  /** The blocks of the file rows, in row order. */
  function FileBlocks(rows: seq<Row>): string
  {
    if rows == [] then "" else RowBlock(rows[0]) + FileBlocks(rows[1..])
  }

  lemma {:induction false} FileBlocksAppend(a: seq<Row>, b: seq<Row>)
    ensures FileBlocks(a + b) == FileBlocks(a) + FileBlocks(b)
  {
    if a == [] {
      assert a + b == b;
    } else {
      var ab := a + b;
      assert ab[0] == a[0] && ab[1..] == a[1..] + b;
      FileBlocksAppend(a[1..], b);
      AppendAssoc(RowBlock(a[0]), FileBlocks(a[1..]), FileBlocks(b));
    }
  }

  /** Dumping a directory at depth `|guides|` writes the blocks of the file rows of its listing. */
  lemma {:induction false} DumpFollowsRows(cfg: Config, patterns: seq<string>, rel: seq<string>,
                                           guides: seq<bool>, d: Node)
    requires d.Dir?
    ensures DumpDir(cfg, patterns, rel, |guides|, d) == FileBlocks(Rows(cfg, patterns, rel, guides, d))
    decreases d, 1
  {
    var keep := Shown(cfg, patterns, rel);
    var items := SortByName(d.children);
    FilterSortCommute(keep, d.children);
    assert items[0..] == items;
    DumpItemsFollowRows(cfg, patterns, rel, guides, d, items, 0);
  }

  /** Any suffix of a listing is part of it, as a multiset. */
  lemma SuffixMultiset(items: seq<Node>, index: nat)
    requires index <= |items|
    ensures multiset(items[index..]) <= multiset(items)
  {
    assert items == items[..index] + items[index..];
  }

  lemma {:induction false} DumpItemsFollowRows(cfg: Config, patterns: seq<string>, rel: seq<string>,
                                               guides: seq<bool>, d: Node, items: seq<Node>, index: nat)
    requires d.Dir? && index <= |items| && multiset(items) == multiset(d.children)
    ensures multiset(FilterNodes(Shown(cfg, patterns, rel), items[index..])) <= multiset(d.children)
    ensures DumpItems(cfg, patterns, rel, |guides|, d, FilterNodes(Shown(cfg, patterns, rel), items[index..]))
            == FileBlocks(RowItems(cfg, patterns, rel, guides, d, items, index))
    decreases d, 0, |items| - index
  {
    var keep := Shown(cfg, patterns, rel);
    SuffixMultiset(items, index);
    FilterSubMultiset(keep, items[index..]);
    if index == |items| {
      assert items[index..] == [];
      assert FilterNodes(keep, []) == [];
      assert RowItems(cfg, patterns, rel, guides, d, items, index) == [];
    } else {
      DumpItemsFollowRows(cfg, patterns, rel, guides, d, items, index + 1);
      FilterShownStep(cfg, patterns, rel, items, index);
      var dumpTail := DumpItems(cfg, patterns, rel, |guides|, d, FilterNodes(keep, items[index + 1..]));
      var blocksTail := FileBlocks(RowItems(cfg, patterns, rel, guides, d, items, index + 1));
      assert dumpTail == blocksTail;
      if Hidden(cfg, patterns, rel, items[index]) {
        RowItemsIgnored(cfg, patterns, rel, guides, d, items, index);
        assert FilterNodes(keep, items[index..]) == FilterNodes(keep, items[index + 1..]);
      } else {
        KeptEntryDump(cfg, patterns, rel, |guides|, d, items, index);
        KeptEntryBlocks(cfg, patterns, rel, guides, d, items, index);
        var part := EntryPart(cfg, patterns, rel, |guides|, items[index]);
        assert DumpItems(cfg, patterns, rel, |guides|, d, FilterNodes(keep, items[index..])) == part + dumpTail;
        assert FileBlocks(RowItems(cfg, patterns, rel, guides, d, items, index)) == part + blocksTail;
      }
    }
  }

  /** Dumping a non-empty listing: the first entry's part, then the rest. */
  lemma DumpItemsStep(cfg: Config, patterns: seq<string>, rel: seq<string>, depth: nat, d: Node,
                      kept: seq<Node>)
    requires d.Dir? && kept != [] && multiset(kept) <= multiset(d.children)
    ensures multiset(kept[1..]) <= multiset(d.children)
    ensures kept[0].Dir? ==>
              DumpItems(cfg, patterns, rel, depth, d, kept)
              == DumpDir(cfg, patterns, rel + [kept[0].name], depth + 1, kept[0])
                 + DumpItems(cfg, patterns, rel, depth, d, kept[1..])
    ensures kept[0].File? ==>
              DumpItems(cfg, patterns, rel, depth, d, kept)
              == FileBlock(depth, RelPath(rel + [kept[0].name]), kept[0].read)
                 + DumpItems(cfg, patterns, rel, depth, d, kept[1..])
  {
    assert kept == [kept[0]] + kept[1..];
  }

  /** The rows of a kept entry: its own row, the rows below it, then the rows of its later siblings. */
  lemma RowItemsStep(cfg: Config, patterns: seq<string>, rel: seq<string>, guides: seq<bool>,
                     d: Node, items: seq<Node>, index: nat)
    requires d.Dir? && index < |items| && multiset(items) == multiset(d.children)
    requires !Hidden(cfg, patterns, rel, items[index])
    ensures var item := items[index];
            var path := rel + [item.name];
            var isLast := index == |items| - 1;
            FileBlocks(RowItems(cfg, patterns, rel, guides, d, items, index))
            == (if item.Dir? then FileBlocks(Rows(cfg, patterns, path, guides + [isLast], item))
                else FileBlock(|guides|, RelPath(path), item.read))
               + FileBlocks(RowItems(cfg, patterns, rel, guides, d, items, index + 1))
  {
    var item := items[index];
    var path := rel + [item.name];
    var isLast := index == |items| - 1;
    var row := Row(path, item, guides, isLast);
    var sub := if item.Dir? then Rows(cfg, patterns, path, guides + [isLast], item) else [];
    var rest := RowItems(cfg, patterns, rel, guides, d, items, index + 1);
    RowItemsKept(cfg, patterns, rel, guides, d, items, index);
    FileBlocksAppend([row] + sub, rest);
    FileBlocksAppend([row], sub);
    FileBlocksSingle(row);
    if item.Dir? {
      assert FileBlocks([row]) + FileBlocks(sub) == FileBlocks(sub);
    } else {
      assert sub == [];
      assert FileBlocks([row]) + FileBlocks(sub) == FileBlock(|guides|, RelPath(path), item.read);
    }
  }

  lemma FileBlocksSingle(row: Row)
    ensures FileBlocks([row]) == if row.node.File? then FileBlock(|row.guides|, RelPath(row.rel), row.node.read) else ""
  {
    assert [row][0] == row && [row][1..] == [];
  }

  /** What a kept entry contributes to the dump: a directory's own dump one level deeper, or a file's block. */
  function EntryPart(cfg: Config, patterns: seq<string>, rel: seq<string>, depth: nat, item: Node): string
  {
    match item
    case Dir(_, _) => DumpDir(cfg, patterns, rel + [item.name], depth + 1, item)
    case File(_, read) => FileBlock(depth, RelPath(rel + [item.name]), read)
  }

  /** The dump of the kept entries from `index` on: the entry at `index`, then the kept entries after it. */
  lemma KeptEntryDump(cfg: Config, patterns: seq<string>, rel: seq<string>, depth: nat,
                      d: Node, items: seq<Node>, index: nat)
    requires d.Dir? && index < |items| && multiset(items) == multiset(d.children)
    requires !Hidden(cfg, patterns, rel, items[index])
    requires multiset(FilterNodes(Shown(cfg, patterns, rel), items[index..])) <= multiset(d.children)
    requires multiset(FilterNodes(Shown(cfg, patterns, rel), items[index + 1..])) <= multiset(d.children)
    ensures DumpItems(cfg, patterns, rel, depth, d, FilterNodes(Shown(cfg, patterns, rel), items[index..]))
            == EntryPart(cfg, patterns, rel, depth, items[index])
               + DumpItems(cfg, patterns, rel, depth, d, FilterNodes(Shown(cfg, patterns, rel), items[index + 1..]))
  {
    var kept := FilterNodes(Shown(cfg, patterns, rel), items[index..]);
    FilterShownStep(cfg, patterns, rel, items, index);
    DumpItemsStep(cfg, patterns, rel, depth, d, kept);
  }

  /** The blocks of the rows from `index` on: the entry at `index`'s part, then the rows of the later entries. */
  lemma KeptEntryBlocks(cfg: Config, patterns: seq<string>, rel: seq<string>, guides: seq<bool>,
                        d: Node, items: seq<Node>, index: nat)
    requires d.Dir? && index < |items| && multiset(items) == multiset(d.children)
    requires !Hidden(cfg, patterns, rel, items[index])
    ensures FileBlocks(RowItems(cfg, patterns, rel, guides, d, items, index))
            == EntryPart(cfg, patterns, rel, |guides|, items[index])
               + FileBlocks(RowItems(cfg, patterns, rel, guides, d, items, index + 1))
    decreases d, 0, |items| - index, 0
  {
    var item := items[index];
    assert item in multiset(d.children);
    RowItemsStep(cfg, patterns, rel, guides, d, items, index);
    if item.Dir? {
      var isLast := index == |items| - 1;
      DumpFollowsRows(cfg, patterns, rel + [item.name], guides + [isLast], item);
      assert |guides + [isLast]| == |guides| + 1;
    }
  }
}
