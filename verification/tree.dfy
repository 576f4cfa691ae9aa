/**
 * `write_tree`: the box-drawing listing of the repository. `WriteTree`
 * and `TreeBody` follow `write_tree` line by line (string prefixes, the
 * unfiltered index deciding the glyph); `Rows` is the same walk producing
 * one structured `Row` per line, which the lemmas below use to state what
 * the lines are.
 */
module Tree {

  import opened Strings
  import opened FileSystem
  import opened Paths
  import opened Ignore

  const Tee := "├── "
  const Corner := "└── "
  const Bar := "│   "
  const Blank := "    "

  /** Whether the child `x` of the directory at `rel` is left out. */
  predicate Hidden(cfg: Config, patterns: seq<string>, rel: seq<string>, x: Node)
  {
    ShouldIgnore(cfg, patterns, rel + [x.name], x.Dir?)
  }

  /** The filter on the children of the directory at `rel`. */
  function Shown(cfg: Config, patterns: seq<string>, rel: seq<string>): Node -> bool
  {
    (x: Node) => !Hidden(cfg, patterns, rel, x)
  }

  /**
   * `write_tree(dir_path, ..., prefix, is_root=True)`: the root's name and a
   * slash, then the lines for its contents, which are exactly the rendered
   * rows of the root's listing. (`write_tree`'s `is_last` parameter is never
   * read, so it has no counterpart here.)
   */
  function WriteTree(cfg: Config, patterns: seq<string>, root: Node): (r: seq<string>)
    requires root.Dir?
    ensures r == [root.name + "/"] + RenderRows(Rows(cfg, patterns, [], [], root))
  {
    TreeBodyRendersRows(cfg, patterns, [], [], root);
    [root.name + "/"] + TreeBody(cfg, patterns, [], Indent([]), root)
  }

  /** The lines `write_tree` writes for the contents of directory `d`, at `rel`, with `prefix`. */
  function TreeBody(cfg: Config, patterns: seq<string>, rel: seq<string>, prefix: string, d: Node): seq<string>
    requires d.Dir?
    decreases d, 1
  {
    TreeItems(cfg, patterns, rel, prefix, d, SortByName(d.children), 0)
  }

  /** The loop of `write_tree` over the sorted listing, from position `index` on. */
  function TreeItems(cfg: Config, patterns: seq<string>, rel: seq<string>, prefix: string,
                     d: Node, items: seq<Node>, index: nat): seq<string>
    requires d.Dir? && index <= |items| && multiset(items) == multiset(d.children)
    decreases d, 0, |items| - index
  {
    if index == |items| then []
    else
      var item := items[index];
      assert item in multiset(d.children);
      var path := rel + [item.name];
      if Hidden(cfg, patterns, rel, item) then
        TreeItems(cfg, patterns, rel, prefix, d, items, index + 1)
      else
        var isLast := index == |items| - 1;
        var line := prefix + (if isLast then Corner else Tee) + item.name;
        var sub := if item.Dir? then TreeBody(cfg, patterns, path, prefix + (if isLast then Blank else Bar), item)
                   else [];
        [line] + sub + TreeItems(cfg, patterns, rel, prefix, d, items, index + 1)
  }

  /**
   * One line of the listing: the entry at `rel`, its node, one guide per
   * enclosing level below the root (true where that ancestor was drawn as
   * the last of its siblings) and whether it is drawn with the corner glyph.
   */
  datatype Row = Row(rel: seq<string>, node: Node, guides: seq<bool>, last: bool)

  /** The prefix built from the guides: four columns per level. */
  function Indent(guides: seq<bool>): (r: string)
    ensures |r| == 4 * |guides|
  {
    if guides == [] then ""
    else Indent(guides[..|guides| - 1]) + (if guides[|guides| - 1] then Blank else Bar)
  }

  function RenderRow(r: Row): string
  {
    Indent(r.guides) + (if r.last then Corner else Tee) + r.node.name
  }

  function RenderRows(rows: seq<Row>): (r: seq<string>)
    ensures |r| == |rows|
    ensures forall k :: 0 <= k < |rows| ==> r[k] == RenderRow(rows[k])
  {
    if rows == [] then [] else [RenderRow(rows[0])] + RenderRows(rows[1..])
  }

  /** The rows for the contents of directory `d` at `rel`, whose own lines carry `guides`. */
  function Rows(cfg: Config, patterns: seq<string>, rel: seq<string>, guides: seq<bool>, d: Node): seq<Row>
    requires d.Dir?
    decreases d, 1
  {
    RowItems(cfg, patterns, rel, guides, d, SortByName(d.children), 0)
  }

  function RowItems(cfg: Config, patterns: seq<string>, rel: seq<string>, guides: seq<bool>,
                    d: Node, items: seq<Node>, index: nat): seq<Row>
    requires d.Dir? && index <= |items| && multiset(items) == multiset(d.children)
    decreases d, 0, |items| - index
  {
    if index == |items| then []
    else
      var item := items[index];
      assert item in multiset(d.children);
      var path := rel + [item.name];
      if Hidden(cfg, patterns, rel, item) then
        RowItems(cfg, patterns, rel, guides, d, items, index + 1)
      else
        var isLast := index == |items| - 1;
        var sub := if item.Dir? then Rows(cfg, patterns, path, guides + [isLast], item) else [];
        [Row(path, item, guides, isLast)] + sub + RowItems(cfg, patterns, rel, guides, d, items, index + 1)
  }

  /** A kept entry's row comes first, then the rows below it, then those of its later siblings. */
  lemma RowItemsKept(cfg: Config, patterns: seq<string>, rel: seq<string>, guides: seq<bool>,
                     d: Node, items: seq<Node>, index: nat)
    requires d.Dir? && index < |items| && multiset(items) == multiset(d.children)
    requires !Hidden(cfg, patterns, rel, items[index])
    ensures var item := items[index];
            var path := rel + [item.name];
            var isLast := index == |items| - 1;
            RowItems(cfg, patterns, rel, guides, d, items, index)
            == [Row(path, item, guides, isLast)]
               + (if item.Dir? then Rows(cfg, patterns, path, guides + [isLast], item) else [])
               + RowItems(cfg, patterns, rel, guides, d, items, index + 1)
  {
    assert items[index] in multiset(d.children);
  }

  /** An ignored entry draws no rows. */
  lemma RowItemsIgnored(cfg: Config, patterns: seq<string>, rel: seq<string>, guides: seq<bool>,
                        d: Node, items: seq<Node>, index: nat)
    requires d.Dir? && index < |items| && multiset(items) == multiset(d.children)
    requires Hidden(cfg, patterns, rel, items[index])
    ensures RowItems(cfg, patterns, rel, guides, d, items, index)
            == RowItems(cfg, patterns, rel, guides, d, items, index + 1)
  {
    assert items[index] in multiset(d.children);
  }

  lemma {:induction false} RenderRowsAppend(a: seq<Row>, b: seq<Row>)
    ensures RenderRows(a + b) == RenderRows(a) + RenderRows(b)
  {
    if a == [] {
      assert a + b == b;
    } else {
      assert (a + b)[0] == a[0] && (a + b)[1..] == a[1..] + b;
      RenderRowsAppend(a[1..], b);
    }
  }

  /**
   * The string renderer and the rows agree: with the prefix built from the
   * guides, `write_tree` writes exactly the rendered rows, in order.
   */
  lemma {:induction false} TreeBodyRendersRows(cfg: Config, patterns: seq<string>, rel: seq<string>,
                                               guides: seq<bool>, d: Node)
    requires d.Dir?
    ensures TreeBody(cfg, patterns, rel, Indent(guides), d) == RenderRows(Rows(cfg, patterns, rel, guides, d))
    decreases d, 1
  {
    TreeItemsRenderRows(cfg, patterns, rel, guides, d, SortByName(d.children), 0);
  }

  lemma {:induction false} TreeItemsRenderRows(cfg: Config, patterns: seq<string>, rel: seq<string>,
                                               guides: seq<bool>, d: Node, items: seq<Node>, index: nat)
    requires d.Dir? && index <= |items| && multiset(items) == multiset(d.children)
    ensures TreeItems(cfg, patterns, rel, Indent(guides), d, items, index)
            == RenderRows(RowItems(cfg, patterns, rel, guides, d, items, index))
    decreases d, 0, |items| - index
  {
    if index < |items| {
      var item := items[index];
      assert item in multiset(d.children);
      var path := rel + [item.name];
      TreeItemsRenderRows(cfg, patterns, rel, guides, d, items, index + 1);
      if !Hidden(cfg, patterns, rel, item) {
        var isLast := index == |items| - 1;
        var row := Row(path, item, guides, isLast);
        var sub := if item.Dir? then Rows(cfg, patterns, path, guides + [isLast], item) else [];
        var rest := RowItems(cfg, patterns, rel, guides, d, items, index + 1);
        assert RowItems(cfg, patterns, rel, guides, d, items, index) == [row] + sub + rest;
        RenderRowsAppend([row] + sub, rest);
        RenderRowsAppend([row], sub);
        if item.Dir? {
          assert (guides + [isLast])[..|guides|] == guides;
          assert Indent(guides + [isLast]) == Indent(guides) + (if isLast then Blank else Bar);
          TreeBodyRendersRows(cfg, patterns, path, guides + [isLast], item);
        }
      }
    }
  }

  /**
   * Row `r` belongs below the directory at `rel` whose own rows carry
   * `guides`: it extends both, one guide per level below that directory; it
   * is named after its node; the filter keeps it; and the filter keeps every
   * directory between it and `rel` (an ignored directory hides its subtree).
   */
  predicate Placed(cfg: Config, patterns: seq<string>, rel: seq<string>, guides: seq<bool>, r: Row)
  {
    && |guides| <= |r.guides| && r.guides[..|guides|] == guides
    && |r.rel| == |rel| + 1 + (|r.guides| - |guides|) && r.rel[..|rel|] == rel
    && Basename(r.rel) == r.node.name
    && !ShouldIgnore(cfg, patterns, r.rel, r.node.Dir?)
    && forall m :: |rel| < m < |r.rel| ==> !ShouldIgnore(cfg, patterns, r.rel[..m], true)
  }

  /** Every row of a directory's listing is placed below it. */
  lemma {:induction false} RowsPlaced(cfg: Config, patterns: seq<string>, rel: seq<string>,
                                      guides: seq<bool>, d: Node)
    requires d.Dir?
    ensures forall r :: r in Rows(cfg, patterns, rel, guides, d) ==> Placed(cfg, patterns, rel, guides, r)
    decreases d, 1
  {
    RowItemsPlaced(cfg, patterns, rel, guides, d, SortByName(d.children), 0);
  }

  lemma {:induction false} RowItemsPlaced(cfg: Config, patterns: seq<string>, rel: seq<string>,
                                          guides: seq<bool>, d: Node, items: seq<Node>, index: nat)
    requires d.Dir? && index <= |items| && multiset(items) == multiset(d.children)
    ensures forall r :: r in RowItems(cfg, patterns, rel, guides, d, items, index)
                        ==> Placed(cfg, patterns, rel, guides, r)
    decreases d, 0, |items| - index
  {
    if index < |items| {
      var item := items[index];
      assert item in multiset(d.children);
      var path := rel + [item.name];
      RowItemsPlaced(cfg, patterns, rel, guides, d, items, index + 1);
      if Hidden(cfg, patterns, rel, item) {
        RowItemsIgnored(cfg, patterns, rel, guides, d, items, index);
      } else {
        RowItemsKept(cfg, patterns, rel, guides, d, items, index);
        var isLast := index == |items| - 1;
        var row := Row(path, item, guides, isLast);
        var sub := if item.Dir? then Rows(cfg, patterns, path, guides + [isLast], item) else [];
        var rest := RowItems(cfg, patterns, rel, guides, d, items, index + 1);
        assert Placed(cfg, patterns, rel, guides, row) by {
          assert row.guides[..|guides|] == guides && row.rel[..|rel|] == rel;
        }
        assert forall r :: r in sub ==> Placed(cfg, patterns, rel, guides, r) by {
          if item.Dir? {
            RowsPlaced(cfg, patterns, path, guides + [isLast], item);
            forall r | r in sub
              ensures Placed(cfg, patterns, rel, guides, r)
            {
              SubRowPlaced(cfg, patterns, rel, guides, item, isLast, r);
            }
          }
        }
        assert RowItems(cfg, patterns, rel, guides, d, items, index) == [row] + sub + rest;
      }
    }
  }

  /** A row placed below a kept child directory is placed below its parent too. */
  lemma SubRowPlaced(cfg: Config, patterns: seq<string>, rel: seq<string>, guides: seq<bool>,
                     item: Node, isLast: bool, r: Row)
    requires item.Dir? && !ShouldIgnore(cfg, patterns, rel + [item.name], true)
    requires Placed(cfg, patterns, rel + [item.name], guides + [isLast], r)
    ensures Placed(cfg, patterns, rel, guides, r)
  {
    var path := rel + [item.name];
    var g' := guides + [isLast];
    assert r.guides[..|guides|] == r.guides[..|g'|][..|guides|] == g'[..|guides|] == guides;
    assert r.rel[..|rel|] == r.rel[..|path|][..|rel|] == path[..|rel|] == rel;
    assert r.rel[..|path|] == path;
    forall m | |rel| < m < |r.rel|
      ensures !ShouldIgnore(cfg, patterns, r.rel[..m], true)
    {
      if m == |path| {
        assert r.rel[..m] == path;
      }
    }
  }

  /**
   * The rows a directory row opens: the listing of its node at its location,
   * one level deeper, the new guide recording whether the row was drawn last
   * (so its children are indented with a blank under a corner and with a bar
   * under a tee).
   */
  function SubRows(cfg: Config, patterns: seq<string>, r: Row): seq<Row>
    requires r.node.Dir?
  {
    Rows(cfg, patterns, r.rel, r.guides + [r.last], r.node)
  }

  /** The directory row at `k` is followed at once by the rows it opens. */
  predicate OpensAt(cfg: Config, patterns: seq<string>, rows: seq<Row>, k: int)
    requires 0 <= k < |rows| && rows[k].node.Dir?
  {
    var sub := SubRows(cfg, patterns, rows[k]);
    k + 1 + |sub| <= |rows| && rows[k + 1..k + 1 + |sub|] == sub
  }

  /** Every directory row is followed at once by the rows it opens. */
  predicate OpensDirs(cfg: Config, patterns: seq<string>, rows: seq<Row>)
  {
    forall k :: 0 <= k < |rows| && rows[k].node.Dir? ==> OpensAt(cfg, patterns, rows, k)
  }

  /**
   * `write_tree` recurses into every kept directory right after writing its
   * line: in any listing, a directory's row is followed by the rows of its
   * own listing, with the directory's glyph choice as their new guide.
   */
  lemma {:induction false} RowsOpenDirectories(cfg: Config, patterns: seq<string>, rel: seq<string>,
                                               guides: seq<bool>, d: Node)
    requires d.Dir?
    ensures OpensDirs(cfg, patterns, Rows(cfg, patterns, rel, guides, d))
    decreases d, 1
  {
    RowItemsOpenDirectories(cfg, patterns, rel, guides, d, SortByName(d.children), 0);
  }

  lemma {:induction false} RowItemsOpenDirectories(cfg: Config, patterns: seq<string>, rel: seq<string>,
                                                   guides: seq<bool>, d: Node, items: seq<Node>, index: nat)
    requires d.Dir? && index <= |items| && multiset(items) == multiset(d.children)
    ensures OpensDirs(cfg, patterns, RowItems(cfg, patterns, rel, guides, d, items, index))
    decreases d, 0, |items| - index
  {
    if index < |items| {
      var item := items[index];
      assert item in multiset(d.children);
      RowItemsOpenDirectories(cfg, patterns, rel, guides, d, items, index + 1);
      if Hidden(cfg, patterns, rel, item) {
        RowItemsIgnored(cfg, patterns, rel, guides, d, items, index);
      } else {
        RowItemsKept(cfg, patterns, rel, guides, d, items, index);
        var row := Row(rel + [item.name], item, guides, index == |items| - 1);
        var sub := if item.Dir? then SubRows(cfg, patterns, row) else [];
        if item.Dir? {
          RowsOpenDirectories(cfg, patterns, row.rel, row.guides + [row.last], item);
        }
        OpensDirsCons(cfg, patterns, row, sub);
        OpensDirsAppend(cfg, patterns, [row] + sub, RowItems(cfg, patterns, rel, guides, d, items, index + 1));
      }
    }
  }

  /** A row followed by what it opens (nothing, for a file) opens its directories. */
  lemma OpensDirsCons(cfg: Config, patterns: seq<string>, row: Row, sub: seq<Row>)
    requires row.node.Dir? ==> sub == SubRows(cfg, patterns, row)
    requires row.node.File? ==> sub == []
    requires OpensDirs(cfg, patterns, sub)
    ensures OpensDirs(cfg, patterns, [row] + sub)
  {
    var rs := [row] + sub;
    forall k | 0 <= k < |rs| && rs[k].node.Dir?
      ensures OpensAt(cfg, patterns, rs, k)
    {
      if k == 0 {
        OpensAtHead(cfg, patterns, row, sub);
      } else {
        OpensAtShifted(cfg, patterns, [row], sub, k - 1);
      }
    }
  }

  lemma OpensAtHead(cfg: Config, patterns: seq<string>, row: Row, sub: seq<Row>)
    requires row.node.Dir? && sub == SubRows(cfg, patterns, row)
    ensures ([row] + sub)[0] == row && OpensAt(cfg, patterns, [row] + sub, 0)
  {
    SliceRight([row], sub, 1, 1 + |sub|);
  }

  /** Listings that open their directories can be put one after the other. */
  lemma OpensDirsAppend(cfg: Config, patterns: seq<string>, a: seq<Row>, b: seq<Row>)
    requires OpensDirs(cfg, patterns, a) && OpensDirs(cfg, patterns, b)
    ensures OpensDirs(cfg, patterns, a + b)
  {
    var ab := a + b;
    forall k | 0 <= k < |ab| && ab[k].node.Dir?
      ensures OpensAt(cfg, patterns, ab, k)
    {
      if k < |a| {
        assert ab[k] == a[k];
        OpensAtExtended(cfg, patterns, a, b, k);
      } else {
        assert ab[k] == b[k - |a|];
        OpensAtShifted(cfg, patterns, a, b, k - |a|);
      }
    }
  }

  lemma OpensAtExtended(cfg: Config, patterns: seq<string>, a: seq<Row>, b: seq<Row>, k: nat)
    requires k < |a| && a[k].node.Dir? && OpensDirs(cfg, patterns, a)
    ensures (a + b)[k] == a[k] && OpensAt(cfg, patterns, a + b, k)
  {
    assert OpensAt(cfg, patterns, a, k);
    var n := |SubRows(cfg, patterns, a[k])|;
    SliceLeft(a, b, k + 1, k + 1 + n);
  }

  lemma OpensAtShifted(cfg: Config, patterns: seq<string>, a: seq<Row>, b: seq<Row>, j: nat)
    requires j < |b| && b[j].node.Dir? && OpensDirs(cfg, patterns, b)
    ensures (a + b)[|a| + j] == b[j] && OpensAt(cfg, patterns, a + b, |a| + j)
  {
    assert OpensAt(cfg, patterns, b, j);
    var n := |SubRows(cfg, patterns, b[j])|;
    SliceRight(a, b, |a| + j + 1, |a| + j + 1 + n);
  }

  lemma SliceLeft(a: seq<Row>, b: seq<Row>, i: nat, j: nat)
    requires i <= j <= |a|
    ensures (a + b)[i..j] == a[i..j]
  {
  }

  lemma SliceRight(a: seq<Row>, b: seq<Row>, i: nat, j: nat)
    requires |a| <= i <= j <= |a| + |b|
    ensures (a + b)[i..j] == b[i - |a|..j - |a|]
  {
  }

  /**
   * The guides record the glyphs of the ancestors: every row opened by the
   * directory row at `k` starts its guides with that row's guides followed
   * by whether that row was drawn last.
   */
  lemma GuidesRecordAncestorLast(cfg: Config, patterns: seq<string>, rel: seq<string>,
                                 guides: seq<bool>, d: Node, k: nat, j: nat)
    requires d.Dir?
    requires k < |Rows(cfg, patterns, rel, guides, d)|
    requires Rows(cfg, patterns, rel, guides, d)[k].node.Dir?
    requires k < j <= k + |SubRows(cfg, patterns, Rows(cfg, patterns, rel, guides, d)[k])|
    ensures var rows := Rows(cfg, patterns, rel, guides, d);
            && j < |rows|
            && |rows[j].guides| > |rows[k].guides|
            && rows[j].guides[..|rows[k].guides| + 1] == rows[k].guides + [rows[k].last]
  {
    var rows := Rows(cfg, patterns, rel, guides, d);
    var r := rows[k];
    var sub := SubRows(cfg, patterns, r);
    RowsOpenDirectories(cfg, patterns, rel, guides, d);
    assert OpensAt(cfg, patterns, rows, k);
    assert rows[j] == sub[j - k - 1];
    RowsPlaced(cfg, patterns, r.rel, r.guides + [r.last], r.node);
    assert Placed(cfg, patterns, r.rel, r.guides + [r.last], sub[j - k - 1]);
  }

  /**
   * Every row deeper than the level of `guides` lies in the block opened by
   * an earlier directory row of that level: nothing is written below a
   * directory beyond its own listing, and no subtree is written twice.
   */
  predicate InsideBlocks(cfg: Config, patterns: seq<string>, rows: seq<Row>, guides: seq<bool>)
  {
    forall j :: 0 <= j < |rows| && rows[j].guides != guides ==>
      exists k :: 0 <= k < j && rows[k].guides == guides && rows[k].node.Dir?
                  && j <= k + |SubRows(cfg, patterns, rows[k])|
  }

  /**
   * `write_tree` writes below a kept directory only what its recursive call
   * writes: every deeper row of a listing is inside some own-level
   * directory's block.
   */
  lemma {:induction false} RowsInsideBlocks(cfg: Config, patterns: seq<string>, rel: seq<string>,
                                            guides: seq<bool>, d: Node)
    requires d.Dir?
    ensures InsideBlocks(cfg, patterns, Rows(cfg, patterns, rel, guides, d), guides)
  {
    RowItemsInsideBlocks(cfg, patterns, rel, guides, d, SortByName(d.children), 0);
  }

  lemma {:induction false} RowItemsInsideBlocks(cfg: Config, patterns: seq<string>, rel: seq<string>,
                                                guides: seq<bool>, d: Node, items: seq<Node>, index: nat)
    requires d.Dir? && index <= |items| && multiset(items) == multiset(d.children)
    ensures InsideBlocks(cfg, patterns, RowItems(cfg, patterns, rel, guides, d, items, index), guides)
    decreases |items| - index
  {
    if index < |items| {
      var item := items[index];
      RowItemsInsideBlocks(cfg, patterns, rel, guides, d, items, index + 1);
      if Hidden(cfg, patterns, rel, item) {
        RowItemsIgnored(cfg, patterns, rel, guides, d, items, index);
      } else {
        RowItemsKept(cfg, patterns, rel, guides, d, items, index);
        var row := Row(rel + [item.name], item, guides, index == |items| - 1);
        var sub := if item.Dir? then SubRows(cfg, patterns, row) else [];
        InsideBlocksCons(cfg, patterns, row, sub);
        InsideBlocksAppend(cfg, patterns, [row] + sub, RowItems(cfg, patterns, rel, guides, d, items, index + 1), guides);
      }
    }
  }

  /** A row of the level followed by what it opens (nothing, for a file). */
  lemma InsideBlocksCons(cfg: Config, patterns: seq<string>, row: Row, sub: seq<Row>)
    requires row.node.Dir? ==> sub == SubRows(cfg, patterns, row)
    requires row.node.File? ==> sub == []
    ensures InsideBlocks(cfg, patterns, [row] + sub, row.guides)
  {
    var rs := [row] + sub;
    forall j | 0 <= j < |rs| && rs[j].guides != row.guides
      ensures exists k :: 0 <= k < j && rs[k].guides == row.guides && rs[k].node.Dir?
                          && j <= k + |SubRows(cfg, patterns, rs[k])|
    {
      assert rs[0] == row;
    }
  }

  lemma InsideBlocksAppend(cfg: Config, patterns: seq<string>, a: seq<Row>, b: seq<Row>, guides: seq<bool>)
    requires InsideBlocks(cfg, patterns, a, guides) && InsideBlocks(cfg, patterns, b, guides)
    ensures InsideBlocks(cfg, patterns, a + b, guides)
  {
    var ab := a + b;
    forall j | 0 <= j < |ab| && ab[j].guides != guides
      ensures exists k :: 0 <= k < j && ab[k].guides == guides && ab[k].node.Dir?
                          && j <= k + |SubRows(cfg, patterns, ab[k])|
    {
      if j < |a| {
        assert ab[j] == a[j];
        var k :| 0 <= k < j && a[k].guides == guides && a[k].node.Dir?
                 && j <= k + |SubRows(cfg, patterns, a[k])|;
        assert ab[k] == a[k];
      } else {
        assert ab[j] == b[j - |a|];
        var k :| 0 <= k < j - |a| && b[k].guides == guides && b[k].node.Dir?
                 && j - |a| <= k + |SubRows(cfg, patterns, b[k])|;
        assert ab[|a| + k] == b[k];
      }
    }
  }

  /** The nodes of the rows drawn at the level of `guides`, i.e. a directory's own lines. */
  function TopNodes(rows: seq<Row>, guides: seq<bool>): seq<Node>
  {
    if rows == [] then []
    else (if rows[0].guides == guides then [rows[0].node] else []) + TopNodes(rows[1..], guides)
  }

  lemma {:induction false} TopNodesAppend(a: seq<Row>, b: seq<Row>, guides: seq<bool>)
    ensures TopNodes(a + b, guides) == TopNodes(a, guides) + TopNodes(b, guides)
  {
    if a == [] {
      assert a + b == b;
    } else {
      assert (a + b)[0] == a[0] && (a + b)[1..] == a[1..] + b;
      TopNodesAppend(a[1..], b, guides);
      if a[0].guides == guides {
        assert TopNodes(a + b, guides) == [a[0].node] + TopNodes(a[1..] + b, guides);
      } else {
        assert TopNodes(a + b, guides) == TopNodes(a[1..] + b, guides);
      }
    }
  }

  lemma {:induction false} TopNodesOfDeeperRows(rows: seq<Row>, guides: seq<bool>)
    requires forall r :: r in rows ==> |r.guides| > |guides|
    ensures TopNodes(rows, guides) == []
  {
    if rows != [] {
      assert rows[0] in rows;
      TopNodesOfDeeperRows(rows[1..], guides);
    }
  }

  /** The rows below a kept child directory all sit deeper than its parent's own rows. */
  lemma SubRowsDeeper(cfg: Config, patterns: seq<string>, path: seq<string>, guides: seq<bool>,
                      isLast: bool, item: Node)
    requires item.Dir?
    ensures forall r :: r in Rows(cfg, patterns, path, guides + [isLast], item) ==> |r.guides| > |guides|
  {
    RowsPlaced(cfg, patterns, path, guides + [isLast], item);
  }

  /**
   * A directory's own lines list exactly its children that pass the filter,
   * once each, in sorted order; ignored children draw nothing.
   */
  lemma ListsShownChildren(cfg: Config, patterns: seq<string>, rel: seq<string>, guides: seq<bool>, d: Node)
    requires d.Dir?
    ensures TopNodes(Rows(cfg, patterns, rel, guides, d), guides)
            == FilterNodes(Shown(cfg, patterns, rel), SortByName(d.children))
  {
    var items := SortByName(d.children);
    RowItemsListShown(cfg, patterns, rel, guides, d, items, 0);
    assert items[0..] == items;
  }

  lemma {:induction false} RowItemsListShown(cfg: Config, patterns: seq<string>, rel: seq<string>,
                                             guides: seq<bool>, d: Node, items: seq<Node>, index: nat)
    requires d.Dir? && index <= |items| && multiset(items) == multiset(d.children)
    ensures TopNodes(RowItems(cfg, patterns, rel, guides, d, items, index), guides)
            == FilterNodes(Shown(cfg, patterns, rel), items[index..])
    decreases |items| - index
  {
    if index == |items| {
      assert items[index..] == [];
      assert FilterNodes(Shown(cfg, patterns, rel), []) == [];
      assert RowItems(cfg, patterns, rel, guides, d, items, index) == [];
    } else {
      RowItemsListShown(cfg, patterns, rel, guides, d, items, index + 1);
      FilterShownStep(cfg, patterns, rel, items, index);
      if Hidden(cfg, patterns, rel, items[index]) {
        RowItemsIgnored(cfg, patterns, rel, guides, d, items, index);
      } else {
        KeptTopNode(cfg, patterns, rel, guides, d, items, index);
      }
    }
  }

  /** Filtering the listing from `index` on: the entry at `index` unless it is hidden, then the filtered rest. */
  lemma FilterShownStep(cfg: Config, patterns: seq<string>, rel: seq<string>, items: seq<Node>, index: nat)
    requires index < |items|
    ensures FilterNodes(Shown(cfg, patterns, rel), items[index..])
            == (if Hidden(cfg, patterns, rel, items[index]) then [] else [items[index]])
               + FilterNodes(Shown(cfg, patterns, rel), items[index + 1..])
  {
    assert items[index..] == [items[index]] + items[index + 1..];
    FilterCons(Shown(cfg, patterns, rel), items[index], items[index + 1..]);
  }

  /** A kept entry adds exactly its own node to the directory's own lines. */
  lemma KeptTopNode(cfg: Config, patterns: seq<string>, rel: seq<string>,
                    guides: seq<bool>, d: Node, items: seq<Node>, index: nat)
    requires d.Dir? && index < |items| && multiset(items) == multiset(d.children)
    requires !Hidden(cfg, patterns, rel, items[index])
    ensures TopNodes(RowItems(cfg, patterns, rel, guides, d, items, index), guides)
            == [items[index]] + TopNodes(RowItems(cfg, patterns, rel, guides, d, items, index + 1), guides)
  {
    var item := items[index];
    var path := rel + [item.name];
    RowItemsKept(cfg, patterns, rel, guides, d, items, index);
    var isLast := index == |items| - 1;
    var row := Row(path, item, guides, isLast);
    var sub := if item.Dir? then Rows(cfg, patterns, path, guides + [isLast], item) else [];
    var rest := RowItems(cfg, patterns, rel, guides, d, items, index + 1);
    assert TopNodes(sub, guides) == [] by {
      if item.Dir? { SubRowsDeeper(cfg, patterns, path, guides, isLast, item); }
      TopNodesOfDeeperRows(sub, guides);
    }
    TopNodesAppend([row] + sub, rest, guides);
    TopNodesAppend([row], sub, guides);
    assert TopNodes([row], guides) == [item];
  }

  /** Some row at the level of `guides` is drawn with the corner glyph. */
  predicate HasCorner(rows: seq<Row>, guides: seq<bool>)
  {
    exists k :: 0 <= k < |rows| && rows[k].guides == guides && rows[k].last
  }

  /** Every row at the level of `guides` drawn with the corner glyph is for node `x`. */
  predicate CornersAreFor(rows: seq<Row>, guides: seq<bool>, x: Node)
  {
    forall k :: 0 <= k < |rows| && rows[k].guides == guides && rows[k].last ==> rows[k].node == x
  }

  lemma HasCornerAppend(a: seq<Row>, b: seq<Row>, guides: seq<bool>)
    ensures HasCorner(a + b, guides) <==> HasCorner(a, guides) || HasCorner(b, guides)
  {
    if HasCorner(a + b, guides) {
      var k :| 0 <= k < |a + b| && (a + b)[k].guides == guides && (a + b)[k].last;
      if k >= |a| { assert b[k - |a|] == (a + b)[k]; } else { assert a[k] == (a + b)[k]; }
    }
    if HasCorner(a, guides) {
      var k :| 0 <= k < |a| && a[k].guides == guides && a[k].last;
      assert (a + b)[k] == a[k];
    }
    if HasCorner(b, guides) {
      var k :| 0 <= k < |b| && b[k].guides == guides && b[k].last;
      assert (a + b)[k + |a|] == b[k];
    }
  }

  lemma CornersAreForAppend(a: seq<Row>, b: seq<Row>, guides: seq<bool>, x: Node)
    ensures CornersAreFor(a + b, guides, x) <==> CornersAreFor(a, guides, x) && CornersAreFor(b, guides, x)
  {
    if CornersAreFor(a, guides, x) && CornersAreFor(b, guides, x) {
      forall k | 0 <= k < |a + b| && (a + b)[k].guides == guides && (a + b)[k].last
        ensures (a + b)[k].node == x
      {
        if k >= |a| { assert b[k - |a|] == (a + b)[k]; } else { assert a[k] == (a + b)[k]; }
      }
    }
    if CornersAreFor(a + b, guides, x) {
      forall k | 0 <= k < |a| && a[k].guides == guides && a[k].last
        ensures a[k].node == x
      {
        assert (a + b)[k] == a[k];
      }
      forall k | 0 <= k < |b| && b[k].guides == guides && b[k].last
        ensures b[k].node == x
      {
        assert (a + b)[k + |a|] == b[k];
      }
    }
  }

  lemma NoCornerInDeeperRows(rows: seq<Row>, guides: seq<bool>, x: Node)
    requires forall r :: r in rows ==> |r.guides| > |guides|
    ensures !HasCorner(rows, guides) && CornersAreFor(rows, guides, x)
  {
    forall k | 0 <= k < |rows|
      ensures rows[k].guides != guides
    {
      assert rows[k] in rows;
    }
  }

  /**
   * Whether a directory's rows end in a corner is decided by the UNFILTERED
   * sorted listing: the only row that can carry the corner is the one for the
   * last entry, and there is one exactly when that entry passes the filter.
   * An ignored last entry therefore leaves every kept sibling drawn with a tee.
   */
  lemma CornerFollowsUnfilteredLast(cfg: Config, patterns: seq<string>, rel: seq<string>,
                                    guides: seq<bool>, d: Node)
    requires d.Dir?
    ensures var items := SortByName(d.children);
            var rows := Rows(cfg, patterns, rel, guides, d);
            && (items != [] ==> CornersAreFor(rows, guides, items[|items| - 1]))
            && (HasCorner(rows, guides) <==> items != [] && Shown(cfg, patterns, rel)(items[|items| - 1]))
  {
    var items := SortByName(d.children);
    var rows := Rows(cfg, patterns, rel, guides, d);
    assert rows == RowItems(cfg, patterns, rel, guides, d, items, 0);
    if items == [] {
      assert rows == [];
      assert !HasCorner(rows, guides);
    } else {
      RowItemsCorner(cfg, patterns, rel, guides, d, items, 0);
    }
  }

  /**
   * The corner facts for the rows of the listing from `index` on: every
   * corner at this level is for the last unfiltered entry, and there is one
   * iff that entry is still ahead and passes the filter.
   */
  predicate CornerFacts(cfg: Config, patterns: seq<string>, rel: seq<string>, guides: seq<bool>,
                        d: Node, items: seq<Node>, index: nat)
    requires d.Dir? && index <= |items| && multiset(items) == multiset(d.children) && items != []
  {
    var rows := RowItems(cfg, patterns, rel, guides, d, items, index);
    && CornersAreFor(rows, guides, items[|items| - 1])
    && (HasCorner(rows, guides) <==> index < |items| && !Hidden(cfg, patterns, rel, items[|items| - 1]))
  }

  lemma {:induction false} RowItemsCorner(cfg: Config, patterns: seq<string>, rel: seq<string>,
                                          guides: seq<bool>, d: Node, items: seq<Node>, index: nat)
    requires d.Dir? && index <= |items| && multiset(items) == multiset(d.children) && items != []
    ensures CornerFacts(cfg, patterns, rel, guides, d, items, index)
    decreases |items| - index, 1
  {
    if index == |items| {
      assert RowItems(cfg, patterns, rel, guides, d, items, index) == [];
    } else if Hidden(cfg, patterns, rel, items[index]) {
      HiddenCornerStep(cfg, patterns, rel, guides, d, items, index);
    } else {
      KeptCornerStep(cfg, patterns, rel, guides, d, items, index);
    }
  }

  /** A hidden entry has the corner facts of its later siblings. */
  lemma HiddenCornerStep(cfg: Config, patterns: seq<string>, rel: seq<string>,
                         guides: seq<bool>, d: Node, items: seq<Node>, index: nat)
    requires d.Dir? && index < |items| && multiset(items) == multiset(d.children)
    requires Hidden(cfg, patterns, rel, items[index])
    ensures CornerFacts(cfg, patterns, rel, guides, d, items, index)
    decreases |items| - index, 0
  {
    var x := items[|items| - 1];
    var rest := RowItems(cfg, patterns, rel, guides, d, items, index + 1);
    assert CornersAreFor(rest, guides, x)
           && (HasCorner(rest, guides) <==> index + 1 < |items| && !Hidden(cfg, patterns, rel, x)) by {
      RowItemsCorner(cfg, patterns, rel, guides, d, items, index + 1);
    }
    assert RowItems(cfg, patterns, rel, guides, d, items, index) == rest by {
      RowItemsIgnored(cfg, patterns, rel, guides, d, items, index);
    }
    assert index + 1 == |items| ==> Hidden(cfg, patterns, rel, x);
  }

  /** A kept entry's rows carry the corner exactly when it is the last entry; its later siblings' rows decide otherwise. */
  lemma KeptCornerStep(cfg: Config, patterns: seq<string>, rel: seq<string>,
                       guides: seq<bool>, d: Node, items: seq<Node>, index: nat)
    requires d.Dir? && index < |items| && multiset(items) == multiset(d.children)
    requires !Hidden(cfg, patterns, rel, items[index])
    ensures CornerFacts(cfg, patterns, rel, guides, d, items, index)
    decreases |items| - index, 0
  {
    var x := items[|items| - 1];
    var rows := RowItems(cfg, patterns, rel, guides, d, items, index);
    var rest := RowItems(cfg, patterns, rel, guides, d, items, index + 1);
    assert CornersAreFor(rest, guides, x)
           && (HasCorner(rest, guides) <==> index + 1 < |items| && !Hidden(cfg, patterns, rel, x)) by {
      RowItemsCorner(cfg, patterns, rel, guides, d, items, index + 1);
    }
    assert && (CornersAreFor(rest, guides, x) ==> CornersAreFor(rows, guides, x))
           && (HasCorner(rows, guides) <==> index == |items| - 1 || HasCorner(rest, guides)) by {
      KeptCorner(cfg, patterns, rel, guides, d, items, index);
    }
    assert index + 1 == |items| ==> !Hidden(cfg, patterns, rel, x);
  }

  /** The corner facts for the rows from a kept entry on, given those for its later siblings. */
  lemma KeptCorner(cfg: Config, patterns: seq<string>, rel: seq<string>,
                   guides: seq<bool>, d: Node, items: seq<Node>, index: nat)
    requires d.Dir? && index < |items| && multiset(items) == multiset(d.children)
    requires !Hidden(cfg, patterns, rel, items[index])
    ensures var x := items[|items| - 1];
            var rows := RowItems(cfg, patterns, rel, guides, d, items, index);
            var rest := RowItems(cfg, patterns, rel, guides, d, items, index + 1);
            && (CornersAreFor(rest, guides, x) ==> CornersAreFor(rows, guides, x))
            && (HasCorner(rows, guides) <==> index == |items| - 1 || HasCorner(rest, guides))
  {
    var x := items[|items| - 1];
    var item := items[index];
    var path := rel + [item.name];
    var isLast := index == |items| - 1;
    RowItemsKept(cfg, patterns, rel, guides, d, items, index);
    var row := Row(path, item, guides, isLast);
    var sub := if item.Dir? then Rows(cfg, patterns, path, guides + [isLast], item) else [];
    var rest := RowItems(cfg, patterns, rel, guides, d, items, index + 1);
    assert !HasCorner(sub, guides) && CornersAreFor(sub, guides, x) by {
      if item.Dir? { SubRowsDeeper(cfg, patterns, path, guides, isLast, item); }
      NoCornerInDeeperRows(sub, guides, x);
    }
    assert isLast ==> rest == [];
    RowCorner(row, sub, rest, guides, x, isLast);
  }

  /** The corner facts for one kept entry's rows followed by its later siblings' rows. */
  lemma RowCorner(row: Row, sub: seq<Row>, rest: seq<Row>, guides: seq<bool>, x: Node, isLast: bool)
    requires row.guides == guides && row.last == isLast && (isLast ==> row.node == x)
    requires !HasCorner(sub, guides) && CornersAreFor(sub, guides, x)
    requires isLast ==> rest == []
    ensures CornersAreFor(rest, guides, x) ==> CornersAreFor([row] + sub + rest, guides, x)
    ensures HasCorner([row] + sub + rest, guides) <==> isLast || HasCorner(rest, guides)
  {
    HasCornerAppend([row] + sub, rest, guides);
    HasCornerAppend([row], sub, guides);
    CornersAreForAppend([row] + sub, rest, guides, x);
    CornersAreForAppend([row], sub, guides, x);
    assert [row][0] == row;
    assert HasCorner([row], guides) <==> isLast;
  }

  /** Column `4 * k` of the prefix shows the guide of level `k`: blank after a last ancestor, a bar otherwise. */
  lemma {:induction false} IndentAt(gs: seq<bool>, k: nat)
    requires k < |gs|
    ensures Indent(gs)[4 * k] == if gs[k] then ' ' else '│'
  {
    var n := |gs|;
    if k < n - 1 {
      IndentAt(gs[..n - 1], k);
      assert gs[..n - 1][k] == gs[k];
    }
  }

  /** The prefix is the guides' four-column pieces one after another: a blank piece after a last ancestor, a bar piece otherwise. */
  lemma {:induction false} IndentPieces(gs: seq<bool>)
    ensures forall k :: 0 <= k < |gs| ==> Indent(gs)[4 * k..4 * k + 4] == if gs[k] then Blank else Bar
  {
    if gs != [] {
      var n := |gs|;
      var init := gs[..n - 1];
      IndentPieces(init);
      forall k | 0 <= k < n
        ensures Indent(gs)[4 * k..4 * k + 4] == if gs[k] then Blank else Bar
      {
        if k < n - 1 {
          assert init[k] == gs[k];
          assert Indent(gs)[4 * k..4 * k + 4] == Indent(init)[4 * k..4 * k + 4];
        }
      }
    }
  }

  /**
   * A row's line has the glyph right after `4 * |guides|` columns of prefix:
   * at the column of a shallower level it shows the corner exactly when the
   * row belongs to that level and is drawn last.
   */
  lemma RowColumn(r: Row, guides: seq<bool>)
    requires |guides| <= |r.guides| && r.guides[..|guides|] == guides
    ensures |RenderRow(r)| >= 4 * |r.guides| + 4 > 4 * |guides|
    ensures RenderRow(r)[4 * |guides|] == '└' <==> r.guides == guides && r.last
  {
    var line := RenderRow(r);
    var glyph := if r.last then Corner else Tee;
    assert line == Indent(r.guides) + glyph + r.node.name;
    if r.guides == guides {
      assert line[4 * |guides|] == glyph[0];
    } else {
      assert |r.guides| > |guides|;
      IndentAt(r.guides, |guides|);
      assert line[4 * |guides|] == Indent(r.guides)[4 * |guides|];
    }
  }

  /**
   * The tree quirk in terms of the written lines: among the lines for the
   * contents of `d`, one shows the corner `└` in the glyph column of `d`'s
   * children exactly when the last entry of the UNFILTERED sorted listing is
   * kept. If that entry is ignored, the last visible child is drawn `├── `.
   */
  lemma CornerDrawnIffLastEntryKept(cfg: Config, patterns: seq<string>, rel: seq<string>,
                                    guides: seq<bool>, d: Node)
    requires d.Dir?
    ensures var lines := TreeBody(cfg, patterns, rel, Indent(guides), d);
            var items := SortByName(d.children);
            && (forall k :: 0 <= k < |lines| ==> |lines[k]| > 4 * |guides|)
            && ((exists k :: 0 <= k < |lines| && lines[k][4 * |guides|] == '└')
                <==> items != [] && Shown(cfg, patterns, rel)(items[|items| - 1]))
  {
    var rows := Rows(cfg, patterns, rel, guides, d);
    var lines := TreeBody(cfg, patterns, rel, Indent(guides), d);
    TreeBodyRendersRows(cfg, patterns, rel, guides, d);
    RowsPlaced(cfg, patterns, rel, guides, d);
    CornerFollowsUnfilteredLast(cfg, patterns, rel, guides, d);
    forall k | 0 <= k < |rows|
      ensures |lines[k]| > 4 * |guides|
      ensures lines[k][4 * |guides|] == '└' <==> rows[k].guides == guides && rows[k].last
    {
      assert rows[k] in rows;
      RowColumn(rows[k], guides);
    }
    if HasCorner(rows, guides) {
      var k :| 0 <= k < |rows| && rows[k].guides == guides && rows[k].last;
      assert lines[k][4 * |guides|] == '└';
    }
  }
}
