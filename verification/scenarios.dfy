/**
 * Worked examples on a small repository: `repo/` holding `a.txt` and
 * `b.png`, with `.png` on the ignored extensions. The image sorts last and
 * is ignored, so the text file, although it is the last line drawn, gets
 * the tee glyph; the content section holds the text file alone. A second
 * repository adds the directory `sub/` holding `c.txt`, which sorts last:
 * it is drawn with the corner, opened at once, and its file is indented
 * with a blank and dumped one level deeper.
 */
module Scenarios {

  import opened Wrappers
  import opened Strings
  import opened FileSystem
  import opened Paths
  import opened Ignore
  import opened Tree
  import opened Dump

  const TextFile := File("a.txt", Ok(["hi\n"]))
  const Image := File("b.png", Ok([]))
  const Repo := Dir("repo", [Image, TextFile])

  const Settings := Config(["home", "u", "repo"], "/home/u/out.txt", [], [".png"], [], None, false, [], false)

  lemma SortsTextFileFirst()
    ensures SortByName(Repo.children) == [TextFile, Image]
  {
    assert LexLe("a.txt", "b.png");
    assert Insert(TextFile, [Image]) == [TextFile, Image];
    assert SortByName([TextFile]) == [TextFile];
    assert Repo.children == [Image] + [TextFile];
    assert Repo.children[1..] == [TextFile];
    assert SortByName(Repo.children) == Insert(Image, [TextFile]);
    assert !LexLe("b.png", "a.txt");
    assert Insert(Image, [TextFile]) == [TextFile] + Insert(Image, []);
  }

  lemma ExtensionOf(name: string, ext: string)
    requires |name| == 5 && name[0] != '.' && name[1] == '.' && name[2..] == ext
    requires forall c :: c in ext ==> c != '.' && !('A' <= c <= 'Z')
    ensures FileExt(name) == "." + ext
  {
    ExtFromLastDot(name, 1);
    assert name[1..] == "." + ext;
    LowerFixesLowercase("." + ext);
  }

  lemma ImageIsIgnored()
    ensures ShouldIgnore(Settings, [], ["b.png"], false)
  {
    ExtensionOf("b.png", "png");
    assert "." + "png" == ".png";
    assert Basename(["b.png"]) == "b.png";
    assert FileExt("b.png") in Settings.ignoreTypes;
    assert Fires(Settings, [], ["b.png"], false, IgnoredFileOrType);
  }

  lemma RootLength()
    ensures |AbsPath(Settings.repoRoot)| == 12
  {
    assert Join(["repo"], '/') == "repo";
    assert Join(["u", "repo"], '/') == "u/repo";
    assert Join(["home", "u", "repo"], '/') == "home/u/repo";
  }

  /** Under these settings an entry is kept unless its absolute path has the output file's length or it is a `.png` file. */
  lemma KeptBySettings(rel: seq<string>, isDir: bool)
    requires rel != [] && |RelPath(rel)| != 2
    requires isDir || FileExt(Basename(rel)) != ".png"
    ensures !ShouldIgnore(Settings, [], rel, isDir)
  {
    AbsPathJoinsRelPath(Settings.repoRoot, rel);
    RootLength();
    assert |AbsPath(Settings.repoRoot + rel)| != |Settings.outputFile|;
    forall q
      ensures !Fires(Settings, [], rel, isDir, q)
    {
    }
  }

  lemma TextFileIsKept()
    ensures !ShouldIgnore(Settings, [], ["a.txt"], false)
  {
    ExtensionOf("a.txt", "txt");
    assert RelPath(["a.txt"]) == "a.txt";
    assert Basename(["a.txt"]) == "a.txt";
    assert "." + "txt" != ".png";
    KeptBySettings(["a.txt"], false);
  }

  /** The listing below the root: one row, for the text file, at the top level, not drawn last. */
  lemma RootRows()
    ensures Rows(Settings, [], [], [], Repo) == [Row(["a.txt"], TextFile, [], false)]
  {
    SortsTextFileFirst();
    ImageIsIgnored();
    TextFileIsKept();
    var items := [TextFile, Image];
    assert multiset(items) == multiset(Repo.children);
    assert [] + ["a.txt"] == ["a.txt"] && [] + ["b.png"] == ["b.png"];
    RowItemsKept(Settings, [], [], [], Repo, items, 0);
    RowItemsIgnored(Settings, [], [], [], Repo, items, 1);
  }

  /** The ignored image, sorting last, leaves the visible text file drawn with a tee. */
  lemma TrailingIgnoredSiblingDrawsTee()
    ensures WriteTree(Settings, [], Repo) == ["repo/", "├── a.txt"]
  {
    var row := Row(["a.txt"], TextFile, [], false);
    assert WriteTree(Settings, [], Repo) == [Repo.name + "/"] + RenderRows([row]) by {
      RootRows();
    }
    assert RenderRows([row]) == [RenderRow(row)];
    assert RenderRow(row) == "├── a.txt" by {
      assert Indent([]) == "";
    }
    assert Repo.name + "/" == "repo/";
    assert [Repo.name + "/"] + [RenderRow(row)] == ["repo/", "├── a.txt"];
  }

  /** A block at depth 0 carries no indentation. */
  lemma TopFileBlock(relPath: string, text: string, read: ReadResult)
    requires WriteFileContent(0, read) == text
    ensures FileBlock(0, relPath, read)
            == ("[File Begins] " + relPath + "\n") + text + ("\n" + "[File Ends] " + relPath + "\n\n")
  {
    assert Spaces(0) == "";
    assert Spaces(0) + "[File Begins] " + relPath + "\n" == "[File Begins] " + relPath + "\n";
    assert "\n" + Spaces(0) + "[File Ends] " + relPath + "\n\n" == "\n" + "[File Ends] " + relPath + "\n\n";
  }

  lemma BlockText()
    ensures ("[File Begins] " + "a.txt" + "\n") + "hi\n" + ("\n" + "[File Ends] " + "a.txt" + "\n\n")
            == "[File Begins] a.txt\nhi\n\n[File Ends] a.txt\n\n"
  {
  }

  /** The content section: one block for the text file, at depth 0, its text verbatim. */
  lemma DumpHoldsTextFileOnly()
    ensures WriteFileContentsInOrder(Settings, [], Repo)
            == "[File Begins] a.txt\nhi\n\n[File Ends] a.txt\n\n"
  {
    var row := Row(["a.txt"], TextFile, [], false);
    assert WriteFileContentsInOrder(Settings, [], Repo) == FileBlocks([row]) by {
      RootRows();
    }
    FileBlocksSingle(row);
    assert RelPath(["a.txt"]) == "a.txt";
    assert WriteFileContent(0, TextFile.read) == "hi\n" by {
      assert Concat(["hi\n"]) == "hi\n" + Concat([]);
    }
    TopFileBlock("a.txt", "hi\n", TextFile.read);
    BlockText();
  }

  const Inner := File("c.txt", Ok(["yo\n"]))
  const Sub := Dir("sub", [Inner])
  const Nested := Dir("repo", [Image, TextFile, Sub])

  lemma SortsSubLast()
    ensures SortByName(Nested.children) == [TextFile, Image, Sub]
  {
    assert Nested.children[1..] == [TextFile, Sub];
    assert Nested.children[1..][1..] == [Sub];
    assert SortByName([Sub]) == [Sub];
    assert LexLe("a.txt", "sub") && LexLe("b.png", "sub") && !LexLe("b.png", "a.txt");
    assert Insert(TextFile, [Sub]) == [TextFile, Sub];
    assert Insert(Image, [Sub]) == [Image, Sub];
    assert Insert(Image, [TextFile, Sub]) == [TextFile] + Insert(Image, [Sub]);
  }

  lemma SubIsKept()
    ensures !ShouldIgnore(Settings, [], ["sub"], true)
  {
    assert RelPath(["sub"]) == "sub";
    KeptBySettings(["sub"], true);
  }

  lemma InnerIsKept()
    ensures !ShouldIgnore(Settings, [], ["sub", "c.txt"], false)
  {
    RelPathChild(["sub"], "c.txt");
    assert RelPath(["sub"]) == "sub";
    ExtensionOf("c.txt", "txt");
    assert Basename(["sub", "c.txt"]) == "c.txt";
    assert "." + "txt" != ".png";
    KeptBySettings(["sub", "c.txt"], false);
  }

  /** The directory's listing: its one file, one level down, under a blank guide, drawn last. */
  lemma SubRowsOfSub()
    ensures Rows(Settings, [], ["sub"], [true], Sub) == [Row(["sub", "c.txt"], Inner, [true], true)]
  {
    assert SortByName(Sub.children) == [Inner];
    assert ["sub"] + ["c.txt"] == ["sub", "c.txt"];
    InnerIsKept();
    RowItemsKept(Settings, [], ["sub"], [true], Sub, [Inner], 0);
  }

  /**
   * A directory whose sorted listing is a kept file, an ignored entry and a
   * kept directory: the file's row with a tee, then the directory's row with
   * the corner, then the directory's own rows under a blank guide.
   */
  lemma KeptIgnoredKeptRows(cfg: Config, patterns: seq<string>, d: Node, items: seq<Node>)
    requires d.Dir? && |items| == 3 && multiset(items) == multiset(d.children)
    requires items[0].File? && items[2].Dir?
    requires !Hidden(cfg, patterns, [], items[0]) && Hidden(cfg, patterns, [], items[1])
    requires !Hidden(cfg, patterns, [], items[2])
    ensures RowItems(cfg, patterns, [], [], d, items, 0)
            == [Row([items[0].name], items[0], [], false), Row([items[2].name], items[2], [], true)]
               + Rows(cfg, patterns, [items[2].name], [true], items[2])
  {
    FirstKeptFile(cfg, patterns, d, items);
    RowItemsIgnored(cfg, patterns, [], [], d, items, 1);
    LastKeptDir(cfg, patterns, d, items);
    RegroupRows(Row([items[0].name], items[0], [], false), Row([items[2].name], items[2], [], true),
                Rows(cfg, patterns, [items[2].name], [true], items[2]));
  }

  lemma FirstKeptFile(cfg: Config, patterns: seq<string>, d: Node, items: seq<Node>)
    requires d.Dir? && |items| == 3 && multiset(items) == multiset(d.children)
    requires items[0].File? && !Hidden(cfg, patterns, [], items[0])
    ensures RowItems(cfg, patterns, [], [], d, items, 0)
            == [Row([items[0].name], items[0], [], false)] + RowItems(cfg, patterns, [], [], d, items, 1)
  {
    assert [] + [items[0].name] == [items[0].name];
    RowItemsKept(cfg, patterns, [], [], d, items, 0);
  }

  lemma LastKeptDir(cfg: Config, patterns: seq<string>, d: Node, items: seq<Node>)
    requires d.Dir? && |items| == 3 && multiset(items) == multiset(d.children)
    requires items[2].Dir? && !Hidden(cfg, patterns, [], items[2])
    ensures RowItems(cfg, patterns, [], [], d, items, 2)
            == [Row([items[2].name], items[2], [], true)] + Rows(cfg, patterns, [items[2].name], [true], items[2]) + []
  {
    assert [] + [items[2].name] == [items[2].name] && [] + [true] == [true];
    RowItemsKept(cfg, patterns, [], [], d, items, 2);
    assert RowItems(cfg, patterns, [], [], d, items, 3) == [];
  }

  lemma RegroupRows(x: Row, y: Row, rest: seq<Row>)
    ensures [x] + ([y] + rest + []) == [x, y] + rest
  {
  }

  const NestedOrder := [TextFile, Image, Sub]

  lemma NestedVerdicts()
    ensures !Hidden(Settings, [], [], TextFile) && Hidden(Settings, [], [], Image) && !Hidden(Settings, [], [], Sub)
  {
    ImageIsIgnored();
    TextFileIsKept();
    SubIsKept();
    assert [] + ["a.txt"] == ["a.txt"] && [] + ["b.png"] == ["b.png"] && [] + ["sub"] == ["sub"];
  }

  lemma NestedOrderRows()
    requires multiset(NestedOrder) == multiset(Nested.children)
    ensures RowItems(Settings, [], [], [], Nested, NestedOrder, 0)
            == [Row(["a.txt"], TextFile, [], false), Row(["sub"], Sub, [], true),
                Row(["sub", "c.txt"], Inner, [true], true)]
  {
    NestedVerdicts();
    KeptIgnoredKeptRows(Settings, [], Nested, NestedOrder);
    SubRowsOfSub();
  }

  /** The nested repository's listing: `a.txt`, then `sub` drawn last, then `sub`'s own row right after it. */
  lemma NestedRows()
    ensures Rows(Settings, [], [], [], Nested)
            == [Row(["a.txt"], TextFile, [], false), Row(["sub"], Sub, [], true),
                Row(["sub", "c.txt"], Inner, [true], true)]
  {
    SortsSubLast();
    NestedOrderRows();
  }

  lemma NestedRendered()
    ensures RenderRows([Row(["a.txt"], TextFile, [], false), Row(["sub"], Sub, [], true),
                        Row(["sub", "c.txt"], Inner, [true], true)])
            == ["├── a.txt", "└── sub", "    └── c.txt"]
  {
    var rows := [Row(["a.txt"], TextFile, [], false), Row(["sub"], Sub, [], true),
                 Row(["sub", "c.txt"], Inner, [true], true)];
    assert Indent([]) == "";
    assert RenderRow(rows[0]) == "├── a.txt" by {
      assert RenderRow(rows[0]) == "" + Tee + "a.txt";
    }
    assert RenderRow(rows[1]) == "└── sub" by {
      assert RenderRow(rows[1]) == "" + Corner + "sub";
    }
    assert RenderRow(rows[2]) == "    └── c.txt" by {
      assert Indent([true]) == Blank by {
        assert [true][..0] == [];
      }
      assert RenderRow(rows[2]) == Blank + Corner + "c.txt";
    }
    var r := RenderRows(rows);
    assert |r| == 3 && r[0] == RenderRow(rows[0]) && r[1] == RenderRow(rows[1]) && r[2] == RenderRow(rows[2]);
  }

  /** The directory is drawn with the corner and its file sits under a blank column, also with the corner. */
  lemma NestedTree()
    ensures WriteTree(Settings, [], Nested) == ["repo/", "├── a.txt", "└── sub", "    └── c.txt"]
  {
    var rows := [Row(["a.txt"], TextFile, [], false), Row(["sub"], Sub, [], true),
                 Row(["sub", "c.txt"], Inner, [true], true)];
    assert WriteTree(Settings, [], Nested) == [Nested.name + "/"] + RenderRows(rows) by {
      NestedRows();
    }
    NestedRendered();
    assert Nested.name + "/" == "repo/";
  }

  lemma TopBlockOfTextFile()
    ensures FileBlocks([Row(["a.txt"], TextFile, [], false)]) == "[File Begins] a.txt\nhi\n\n[File Ends] a.txt\n\n"
  {
    FileBlocksSingle(Row(["a.txt"], TextFile, [], false));
    assert RelPath(["a.txt"]) == "a.txt";
    assert WriteFileContent(0, TextFile.read) == "hi\n" by {
      assert Concat(["hi\n"]) == "hi\n" + Concat([]);
    }
    TopFileBlock("a.txt", "hi\n", TextFile.read);
    BlockText();
  }

  lemma InnerRelPath()
    ensures RelPath(["sub", "c.txt"]) == "sub/c.txt"
  {
    RelPathChild(["sub"], "c.txt");
    assert ["sub"] + ["c.txt"] == ["sub", "c.txt"];
    assert RelPath(["sub"]) == "sub";
  }

  lemma DeepBlockOfInner()
    ensures FileBlocks([Row(["sub", "c.txt"], Inner, [true], true)]) == FileBlock(1, "sub/c.txt", Inner.read)
  {
    FileBlocksSingle(Row(["sub", "c.txt"], Inner, [true], true));
    InnerRelPath();
  }

  lemma NestedBlocks(ra: Row, rs: Row, rc: Row)
    requires rs.node.Dir?
    ensures FileBlocks([ra, rs, rc]) == FileBlocks([ra]) + FileBlocks([rc])
  {
    assert [ra, rs, rc] == [ra] + [rs] + [rc];
    FileBlocksAppend([ra] + [rs], [rc]);
    FileBlocksAppend([ra], [rs]);
    FileBlocksSingle(rs);
  }

  /** The file inside `sub/` is dumped after `a.txt`, one level deeper, under its relative path `sub/c.txt`. */
  lemma NestedDump()
    ensures WriteFileContentsInOrder(Settings, [], Nested)
            == "[File Begins] a.txt\nhi\n\n[File Ends] a.txt\n\n" + FileBlock(1, "sub/c.txt", Inner.read)
  {
    var ra := Row(["a.txt"], TextFile, [], false);
    var rs := Row(["sub"], Sub, [], true);
    var rc := Row(["sub", "c.txt"], Inner, [true], true);
    NestedRows();
    NestedBlocks(ra, rs, rc);
    TopBlockOfTextFile();
    DeepBlockOfInner();
  }

  /** Its block: the markers and the one content line all indented by two blanks. */
  lemma DeepBlockShape()
    ensures FileBlock(1, "sub/c.txt", Inner.read)
            == ("  " + "[File Begins] " + "sub/c.txt" + "\n") + ("  " + "yo\n")
               + ("\n" + "  " + "[File Ends] " + "sub/c.txt" + "\n\n")
  {
    assert Spaces(1) == "  ";
    WriteFileContentByLine(1, [], [], "yo\n");
  }
}
