/**
 * The in-memory filesystem both traversals walk, standing in for
 * `os.listdir`, `os.path.isdir`/`isfile` and reading a file as text, and
 * the name ordering both traversals list a directory in (`list.sort()` /
 * `sorted()` on the entry names).
 */
module FileSystem {

  import opened Strings

  /**
   * Outcome of opening and reading a file as text: the lines Python's file
   * iteration yields (each keeps its own line terminator), or the message of
   * the exception raised.
   */
  datatype ReadResult = Ok(lines: seq<string>) | Err(message: string)

  /** A directory entry: a regular file with its read outcome, or a directory with its listing. */
  datatype Node =
    | File(name: string, read: ReadResult)
    | Dir(name: string, children: seq<Node>)

  /** Entries listed in non-decreasing name order. */
  predicate SortedByName(s: seq<Node>)
  {
    forall i, j :: 0 <= i < j < |s| ==> LexLe(s[i].name, s[j].name)
  }

  /** Inserts `x` before the first entry whose name is not smaller than its own. */
  function Insert(x: Node, s: seq<Node>): (r: seq<Node>)
  {
    if s == [] then [x]
    else if LexLe(x.name, s[0].name) then [x] + s
    else [s[0]] + Insert(x, s[1..])
  }

  /** Insertion adds exactly the one entry. */
  lemma {:induction false} InsertPermutes(x: Node, s: seq<Node>)
    ensures multiset(Insert(x, s)) == multiset(s) + multiset{x}
  {
    if s != [] && !LexLe(x.name, s[0].name) {
      InsertPermutes(x, s[1..]);
      assert s == [s[0]] + s[1..];
    }
  }

  /** A sorted listing stays sorted with an entry in front that is no larger than any of it. */
  lemma SortedCons(y: Node, t: seq<Node>)
    requires SortedByName(t)
    requires forall j :: 0 <= j < |t| ==> LexLe(y.name, t[j].name)
    ensures SortedByName([y] + t)
  {
    var s := [y] + t;
    forall i, j | 0 <= i < j < |s|
      ensures LexLe(s[i].name, s[j].name)
    {
      assert s[j] == t[j - 1];
      if i > 0 { assert s[i] == t[i - 1]; }
    }
  }

  /** Insertion into a sorted listing keeps it sorted. */
  lemma {:induction false} InsertSorted(x: Node, s: seq<Node>)
    requires SortedByName(s)
    ensures SortedByName(Insert(x, s))
  {
    if s == [] {
    } else if LexLe(x.name, s[0].name) {
      forall j | 0 <= j < |s|
        ensures LexLe(x.name, s[j].name)
      {
        if j > 0 { LexLeTransitive(x.name, s[0].name, s[j].name); }
      }
      SortedCons(x, s);
    } else {
      var y := s[0];
      var tail := s[1..];
      var rest := Insert(x, tail);
      assert SortedByName(tail);
      InsertSorted(x, tail);
      assert forall j :: 0 <= j < |rest| ==> LexLe(y.name, rest[j].name) by {
        InsertPermutes(x, tail);
        LexLeTotal(x.name, y.name);
        forall j | 0 <= j < |rest|
          ensures LexLe(y.name, rest[j].name)
        {
          assert rest[j] in multiset(rest);
          assert rest[j] == x || rest[j] in tail;
        }
      }
      SortedCons(y, rest);
      assert Insert(x, s) == [y] + rest;
    }
  }

  /** The listing sorted by name, as `sorted()` orders directory entries: a sorted permutation. */
  function SortByName(s: seq<Node>): (r: seq<Node>)
    ensures SortedByName(r)
    ensures multiset(r) == multiset(s)
  {
    if s == [] then []
    else
      assert s == [s[0]] + s[1..];
      InsertSorted(s[0], SortByName(s[1..]));
      InsertPermutes(s[0], SortByName(s[1..]));
      Insert(s[0], SortByName(s[1..]))
  }

  /** The entries of `s` that `keep` accepts, in their original order. */
  function FilterNodes(keep: Node -> bool, s: seq<Node>): (r: seq<Node>)
    ensures |r| <= |s|
  {
    if s == [] then []
    else (if keep(s[0]) then [s[0]] else []) + FilterNodes(keep, s[1..])
  }

  /** The filtered listing holds exactly the accepted entries of the original. */
  lemma {:induction false} FilterMembers(keep: Node -> bool, s: seq<Node>)
    ensures forall x :: x in FilterNodes(keep, s) <==> x in s && keep(x)
  {
    if s != [] {
      FilterMembers(keep, s[1..]);
      assert s == [s[0]] + s[1..];
    }
  }

  /** Filtering only drops entries. */
  lemma {:induction false} FilterSubMultiset(keep: Node -> bool, s: seq<Node>)
    ensures multiset(FilterNodes(keep, s)) <= multiset(s)
  {
    if s != [] {
      FilterSubMultiset(keep, s[1..]);
      assert s == [s[0]] + s[1..];
    }
  }

  lemma {:induction false} FilterPreservesSorted(keep: Node -> bool, s: seq<Node>)
    requires SortedByName(s)
    ensures SortedByName(FilterNodes(keep, s))
  {
    if s != [] {
      FilterPreservesSorted(keep, s[1..]);
      var t := FilterNodes(keep, s[1..]);
      FilterMembers(keep, s[1..]);
      forall j | 0 <= j < |t|
        ensures LexLe(s[0].name, t[j].name)
      {
        assert t[j] in s[1..];
      }
      assert s == [s[0]] + s[1..];
    }
  }

  /** Filtering a listing that starts with `y` keeps `y` exactly when `keep` accepts it. */
  lemma FilterCons(keep: Node -> bool, y: Node, s: seq<Node>)
    ensures FilterNodes(keep, [y] + s) == (if keep(y) then [y] else []) + FilterNodes(keep, s)
  {
    assert ([y] + s)[1..] == s;
  }

  /** Inserting an entry no larger than the head of a sorted listing puts it in front. */
  lemma InsertFront(x: Node, s: seq<Node>)
    requires s == [] || LexLe(x.name, s[0].name)
    ensures Insert(x, s) == [x] + s
  {
  }

  /** `x` sorts first in the filtered listing when it sorts no later than the head of `s`. */
  lemma InsertFrontFiltered(keep: Node -> bool, x: Node, s: seq<Node>)
    requires SortedByName(s) && s != [] && LexLe(x.name, s[0].name)
    ensures SortedByName(FilterNodes(keep, s))
    ensures Insert(x, FilterNodes(keep, s)) == [x] + FilterNodes(keep, s)
  {
    FilterPreservesSorted(keep, s);
    var t := FilterNodes(keep, s);
    if t != [] {
      FilterMembers(keep, s);
      assert t[0] in s;
      var k :| 0 <= k < |s| && s[k] == t[0];
      if k > 0 { LexLeTransitive(x.name, s[0].name, s[k].name); }
    }
    InsertFront(x, t);
  }

  lemma {:induction false} FilterInsert(keep: Node -> bool, x: Node, s: seq<Node>)
    requires SortedByName(s)
    ensures SortedByName(FilterNodes(keep, s))
    ensures FilterNodes(keep, Insert(x, s))
            == if keep(x) then Insert(x, FilterNodes(keep, s)) else FilterNodes(keep, s)
    decreases |s|, 1
  {
    FilterPreservesSorted(keep, s);
    if s == [] {
    } else if LexLe(x.name, s[0].name) {
      InsertFront(x, s);
      FilterCons(keep, x, s);
      InsertFrontFiltered(keep, x, s);
    } else {
      FilterInsertBehind(keep, x, s);
    }
  }

  lemma {:induction false} FilterInsertBehind(keep: Node -> bool, x: Node, s: seq<Node>)
    requires SortedByName(s) && s != [] && !LexLe(x.name, s[0].name)
    ensures SortedByName(FilterNodes(keep, s))
    ensures FilterNodes(keep, Insert(x, s))
            == if keep(x) then Insert(x, FilterNodes(keep, s)) else FilterNodes(keep, s)
    decreases |s|, 0
  {
    FilterPreservesSorted(keep, s);
    var y := s[0];
    var tail := s[1..];
    assert s == [y] + tail;
    var ins := Insert(x, tail);
    assert Insert(x, s) == [y] + ins;
    FilterInsert(keep, x, tail);
    FilterCons(keep, y, ins);
    FilterCons(keep, y, tail);
    var ft := FilterNodes(keep, tail);
    var fins := FilterNodes(keep, ins);
    var lhs := FilterNodes(keep, Insert(x, s));
    var fs := FilterNodes(keep, s);
    assert lhs == (if keep(y) then [y] else []) + fins;
    assert fs == (if keep(y) then [y] else []) + ft;
    if keep(x) {
      assert fins == Insert(x, ft);
      if keep(y) {
        assert fs[0] == y && fs[1..] == ft;
        assert Insert(x, fs) == [y] + Insert(x, ft);
        assert lhs == Insert(x, fs);
      } else {
        assert fs == ft && lhs == fins;
      }
    } else {
      assert fins == ft;
      assert lhs == fs by {
        if keep(y) { assert lhs == [y] + ft; } else { assert lhs == ft; }
      }
    }
  }

  /**
   * Filtering a sorted listing gives the same sequence as sorting the
   * filtered listing: the order `write_tree` visits (sort, then skip ignored
   * entries) and the order the content dump visits (drop ignored entries,
   * then sort) agree.
   */
  lemma {:induction false} FilterSortCommute(keep: Node -> bool, s: seq<Node>)
    ensures FilterNodes(keep, SortByName(s)) == SortByName(FilterNodes(keep, s))
  {
    if s != [] {
      var x := s[0];
      var tail := s[1..];
      assert s == [x] + tail;
      var st := SortByName(tail);
      var ft := FilterNodes(keep, tail);
      assert SortByName(s) == Insert(x, st);
      FilterSortCommute(keep, tail);
      FilterInsert(keep, x, st);
      FilterCons(keep, x, tail);
      if keep(x) {
        assert FilterNodes(keep, s) == [x] + ft;
        assert ([x] + ft)[0] == x && ([x] + ft)[1..] == ft;
        assert SortByName([x] + ft) == Insert(x, SortByName(ft));
      } else {
        assert FilterNodes(keep, s) == ft;
      }
    }
  }
}
