/** `build_lines` and the rest of `format_tree`: the root line, then one
    line per dictionary entry in pre-order, each drawn with its prefix, a
    connector, the key and a `/` suffix for directories and `"..."` markers. */
module TreeRender {
  import opened Text
  import opened TreeModel
  import opened TreeSort
  import opened TreeBuilder

  const LastConnector: string := "└── "
  const MidConnector: string := "├── "
  const LastIndent: string := "    "
  const MidIndent: string := "│   "

  /** One output line before it is drawn: the prefix inherited from the
      parents, whether the entry is the last of its siblings, and the entry. */
  datatype Row = Row(prefix: string, isLast: bool, key: string, value: Node)

  /** `next_prefix`'s extension for the children of an entry. */
  function ChildIndent(isLast: bool): (r: string)
    ensures |r| == 4
  {
    if isLast then LastIndent else MidIndent
  }

  /** `f"{prefix}{connector}{key}{suffix}"`. */
  function Draw(r: Row): (line: string)
    ensures StartsWith(line, r.prefix) && |line| >= |r.prefix| + 4
    ensures line[|r.prefix|..|r.prefix| + 4] == (if r.isLast then LastConnector else MidConnector)
    ensures line[|r.prefix| + 4..] == r.key + (if IsDirectory(r.value) || r.value.Trunc? then "/" else "")
  {
    var suffix := if IsDirectory(r.value) || r.value.Trunc? then "/" else "";
    var connector := if r.isLast then LastConnector else MidConnector;
    assert |connector| == 4;
    var line := r.prefix + connector + r.key + suffix;
    assert line[|r.prefix|..|r.prefix| + 4] == connector;
    assert line[|r.prefix| + 4..] == r.key + suffix;
    line
  }

  /** `build_lines(d, prefix)`: the sorted entries, each followed by its
      children's rows when it is a non-empty dictionary. */
  function Rows(es: seq<Entry>, prefix: string): seq<Row>
    decreases Size(es), 1
  {
    SortMeasures(es);
    RowsSorted(SortEntries(es), prefix)
  }

  /** The loop of `build_lines` over the remaining sorted entries `s`;
      an entry is the last when it is the final one of `s`. */
  function RowsSorted(s: seq<Entry>, prefix: string): seq<Row>
    decreases Size(s), 0
  {
    if s == [] then []
    else
      var isLast := |s| == 1;
      [Row(prefix, isLast, s[0].key, s[0].value)] + Subrows(s[0], prefix, isLast) + RowsSorted(s[1..], prefix)
  }

  /** The rows under one entry: its children's, for a non-empty dictionary. */
  function Subrows(e: Entry, prefix: string, isLast: bool): seq<Row>
    decreases if e.value.Dir? then Size(e.value.entries) else 0, 2
  {
    if IsDirectory(e.value) then Rows(e.value.entries, prefix + ChildIndent(isLast)) else []
  }

  /** The rows' text, in order. */
  function Texts(rows: seq<Row>): (lines: seq<string>)
    ensures |lines| == |rows|
  {
    seq(|rows|, k requires 0 <= k < |rows| => Draw(rows[k]))
  }

  lemma TextsAppend(a: seq<Row>, b: seq<Row>)
    ensures Texts(a + b) == Texts(a) + Texts(b)
  {
  }

  /** One row per entry, at every level. */
  lemma {:induction false} RowCount(es: seq<Entry>, prefix: string)
    ensures |Rows(es, prefix)| == Size(es)
    decreases Size(es), 1
  {
    SortMeasures(es);
    RowCountSorted(SortEntries(es), prefix);
  }

  lemma {:induction false} RowCountSorted(s: seq<Entry>, prefix: string)
    ensures |RowsSorted(s, prefix)| == Size(s)
    decreases Size(s), 0
  {
    if s != [] {
      if IsDirectory(s[0].value) {
        RowCount(s[0].value.entries, prefix + ChildIndent(|s| == 1));
      }
      RowCountSorted(s[1..], prefix);
    }
  }

  /** A sequence of four-character blocks, each `"    "` or `"│   "`. */
  predicate Indent(s: string)
    decreases |s|
  {
    s == [] || (|s| >= 4 && (s[..4] == LastIndent || s[..4] == MidIndent) && Indent(s[4..]))
  }

  lemma IndentLength(s: string)
    ensures Indent(s) ==> |s| % 4 == 0
    decreases |s|
  {
    if s != [] && |s| >= 4 {
      IndentLength(s[4..]);
    }
  }

  /** The prefix a row is drawn with: the caller's prefix followed by one
      indentation block per level below the top, fewer than the tree's height. */
  predicate PrefixFits(r: Row, prefix: string, height: nat)
  {
    StartsWith(r.prefix, prefix) && Indent(r.prefix[|prefix|..]) && |r.prefix| - |prefix| <= 4 * (height - 1)
  }

  lemma PrefixDeeper(r: Row, prefix: string, block: string, height: nat)
    requires block == LastIndent || block == MidIndent
    requires PrefixFits(r, prefix + block, height)
    ensures PrefixFits(r, prefix, height + 1)
  {
    var rest := r.prefix[|prefix + block|..];
    assert r.prefix == prefix + block + rest;
    assert r.prefix[|prefix|..] == block + rest;
    assert (block + rest)[..4] == block;
    assert (block + rest)[4..] == rest;
  }

  lemma {:induction false} RowPrefixes(es: seq<Entry>, prefix: string)
    ensures forall r :: r in Rows(es, prefix) ==> PrefixFits(r, prefix, Height(es))
    decreases Size(es), 1
  {
    SortMeasures(es);
    RowPrefixesSorted(SortEntries(es), prefix);
  }

  lemma {:induction false} RowPrefixesSorted(s: seq<Entry>, prefix: string)
    ensures forall r :: r in RowsSorted(s, prefix) ==> PrefixFits(r, prefix, Height(s))
    decreases Size(s), 0
  {
    if s != [] {
      var isLast := |s| == 1;
      var head := Row(prefix, isLast, s[0].key, s[0].value);
      assert prefix[|prefix|..] == [];
      assert PrefixFits(head, prefix, Height(s));
      var children := Subrows(s[0], prefix, isLast);
      if IsDirectory(s[0].value) {
        var c := s[0].value.entries;
        RowPrefixes(c, prefix + ChildIndent(isLast));
        forall r | r in children ensures PrefixFits(r, prefix, Height(s)) {
          PrefixDeeper(r, prefix, ChildIndent(isLast), Height(c));
        }
      }
      RowPrefixesSorted(s[1..], prefix);
      assert RowsSorted(s, prefix) == [head] + children + RowsSorted(s[1..], prefix);
    }
  }

  /** The rows drawn for the sorted entries themselves, one per entry,
      only the final one marked last. */
  function Heads(s: seq<Entry>, prefix: string): (rows: seq<Row>)
    ensures |rows| == |s|
    ensures forall i :: 0 <= i < |s| ==> rows[i] == Row(prefix, i == |s| - 1, s[i].key, s[i].value)
  {
    if s == [] then [] else [Row(prefix, |s| == 1, s[0].key, s[0].value)] + Heads(s[1..], prefix)
  }

  /** The rows whose prefix has a given length. */
  function AtIndent(rows: seq<Row>, n: nat): seq<Row>
  {
    if rows == [] then []
    else (if |rows[0].prefix| == n then [rows[0]] else []) + AtIndent(rows[1..], n)
  }

  lemma {:induction false} AtIndentAppend(a: seq<Row>, b: seq<Row>, n: nat)
    ensures AtIndent(a + b, n) == AtIndent(a, n) + AtIndent(b, n)
  {
    if a != [] {
      AtIndentAppend(a[1..], b, n);
      assert (a + b)[1..] == a[1..] + b;
    } else {
      assert a + b == b;
    }
  }

  lemma {:induction false} AtIndentNone(rows: seq<Row>, n: nat)
    requires forall r :: r in rows ==> |r.prefix| != n
    ensures AtIndent(rows, n) == []
  {
    if rows != [] {
      assert rows[0] in rows;
      assert forall r :: r in rows[1..] ==> r in rows;
      AtIndentNone(rows[1..], n);
    }
  }

  /** Rows under an entry are indented further than the entry's own. */
  lemma SubrowsDeeper(e: Entry, prefix: string, isLast: bool)
    ensures forall r :: r in Subrows(e, prefix, isLast) ==> |r.prefix| >= |prefix| + 4
  {
    if IsDirectory(e.value) {
      RowPrefixes(e.value.entries, prefix + ChildIndent(isLast));
    }
  }

  /** The top-level rows are the sorted entries, in sorted order, with
      `└── ` on the last one and `├── ` on the others. */
  lemma {:induction false} TopLevelRows(s: seq<Entry>, prefix: string)
    ensures AtIndent(RowsSorted(s, prefix), |prefix|) == Heads(s, prefix)
    decreases s
  {
    if s != [] {
      var isLast := |s| == 1;
      var head := Row(prefix, isLast, s[0].key, s[0].value);
      var children := Subrows(s[0], prefix, isLast);
      var rest := RowsSorted(s[1..], prefix);
      SubrowsDeeper(s[0], prefix, isLast);
      AtIndentNone(children, |prefix|);
      TopLevelRows(s[1..], prefix);
      assert RowsSorted(s, prefix) == [head] + (children + rest);
      AtIndentAppend([head], children + rest, |prefix|);
      AtIndentAppend(children, rest, |prefix|);
      assert AtIndent([head], |prefix|) == [head];
      assert AtIndent(children + rest, |prefix|) == Heads(s[1..], prefix);
      assert Heads(s, prefix) == [head] + Heads(s[1..], prefix);
    }
  }

  /** Every non-empty directory's row is followed by its first child's,
      whose prefix is the directory's own extended by `"    "` when the
      directory is the last of its siblings and by `"│   "` otherwise. */
  predicate ChildrenFollow(rows: seq<Row>)
  {
    forall j :: 0 <= j < |rows| && IsDirectory(rows[j].value) ==>
      j + 1 < |rows| && rows[j + 1].prefix == rows[j].prefix + (if rows[j].isLast then LastIndent else MidIndent)
  }

  lemma ChildrenFollowAppend(a: seq<Row>, b: seq<Row>)
    requires ChildrenFollow(a) && ChildrenFollow(b)
    ensures ChildrenFollow(a + b)
  {
    forall j | 0 <= j < |a + b| && IsDirectory((a + b)[j].value)
      ensures j + 1 < |a + b| && (a + b)[j + 1].prefix == (a + b)[j].prefix + (if (a + b)[j].isLast then LastIndent else MidIndent)
    {
      if j < |a| {
        assert (a + b)[j] == a[j] && (a + b)[j + 1] == a[j + 1];
      } else {
        assert (a + b)[j] == b[j - |a|] && (a + b)[j + 1] == b[j + 1 - |a|];
      }
    }
  }

  lemma ChildrenFollowCons(head: Row, children: seq<Row>)
    requires ChildrenFollow(children)
    requires IsDirectory(head.value) ==> children != [] && children[0].prefix == head.prefix + (if head.isLast then LastIndent else MidIndent)
    ensures ChildrenFollow([head] + children)
  {
    var rows := [head] + children;
    forall j | 0 < j < |rows| && IsDirectory(rows[j].value)
      ensures j + 1 < |rows| && rows[j + 1].prefix == rows[j].prefix + (if rows[j].isLast then LastIndent else MidIndent)
    {
      assert rows[j] == children[j - 1] && (j + 1 < |rows| ==> rows[j + 1] == children[j]);
    }
  }

  /** The first row of a non-empty dictionary is drawn with the given prefix. */
  lemma RowsFirst(es: seq<Entry>, prefix: string)
    requires es != []
    ensures Rows(es, prefix) != [] && Rows(es, prefix)[0].prefix == prefix
  {
    SortMeasures(es);
    assert Size(es) >= 1;
    var s := SortEntries(es);
    assert s != [];
    assert RowsSorted(s, prefix)[0] == Row(prefix, |s| == 1, s[0].key, s[0].value);
  }

  /** The children of an entry come right after it, one block deeper. */
  lemma {:induction false} RowsChildrenFollow(es: seq<Entry>, prefix: string)
    ensures ChildrenFollow(Rows(es, prefix))
    decreases Size(es), 1
  {
    SortMeasures(es);
    RowsSortedChildrenFollow(SortEntries(es), prefix);
  }

  lemma {:induction false} RowsSortedChildrenFollow(s: seq<Entry>, prefix: string)
    ensures ChildrenFollow(RowsSorted(s, prefix))
    decreases Size(s), 0
  {
    if s != [] {
      var isLast := |s| == 1;
      var head := Row(prefix, isLast, s[0].key, s[0].value);
      var children := Subrows(s[0], prefix, isLast);
      if IsDirectory(s[0].value) {
        var c := s[0].value.entries;
        RowsChildrenFollow(c, prefix + ChildIndent(isLast));
        RowsFirst(c, prefix + ChildIndent(isLast));
      }
      ChildrenFollowCons(head, children);
      RowsSortedChildrenFollow(s[1..], prefix);
      ChildrenFollowAppend([head] + children, RowsSorted(s[1..], prefix));
      assert RowsSorted(s, prefix) == [head] + children + RowsSorted(s[1..], prefix);
    }
  }

  /** One turn of `build_lines`' loop: the line of entry `i`, then the
      lines under it, then those of the entries after it. */
  lemma RowsStep(sorted: seq<Entry>, i: int, prefix: string)
    requires 0 <= i < |sorted|
    ensures Texts(RowsSorted(sorted[i..], prefix)) ==
      [Draw(Row(prefix, i == |sorted| - 1, sorted[i].key, sorted[i].value))]
      + Texts(Subrows(sorted[i], prefix, i == |sorted| - 1))
      + Texts(RowsSorted(sorted[i + 1..], prefix))
  {
    var s := sorted[i..];
    var row := Row(prefix, i == |sorted| - 1, sorted[i].key, sorted[i].value);
    var children := Subrows(sorted[i], prefix, i == |sorted| - 1);
    assert s[1..] == sorted[i + 1..];
    assert RowsSorted(s, prefix) == [row] + children + RowsSorted(sorted[i + 1..], prefix);
    TextsAppend([row] + children, RowsSorted(sorted[i + 1..], prefix));
    TextsAppend([row], children);
    assert Texts([row]) == [Draw(row)];
  }

  /** The loop invariant of `build_lines` carried across one entry. */
  lemma BuildStep(sorted: seq<Entry>, i: int, prefix: string, before: seq<string>, out: seq<string>)
    requires 0 <= i < |sorted|
    requires out == before + [Draw(Row(prefix, i == |sorted| - 1, sorted[i].key, sorted[i].value))]
      + Texts(Subrows(sorted[i], prefix, i == |sorted| - 1))
    ensures out + Texts(RowsSorted(sorted[i + 1..], prefix)) == before + Texts(RowsSorted(sorted[i..], prefix))
  {
    RowsStep(sorted, i, prefix);
    Regroup(before, [Draw(Row(prefix, i == |sorted| - 1, sorted[i].key, sorted[i].value))],
      Texts(Subrows(sorted[i], prefix, i == |sorted| - 1)), Texts(RowsSorted(sorted[i + 1..], prefix)));
  }

  lemma Regroup(w: seq<string>, x: seq<string>, y: seq<string>, z: seq<string>)
    ensures w + x + y + z == w + (x + y + z)
  {
  }

  /** `build_lines(d, prefix)` appending to the shared `lines` list: the
      entries are sorted, then each one's line is appended and a non-empty
      dictionary is descended into. */
  method BuildLines(d: seq<Entry>, prefix: string, lines: seq<string>) returns (out: seq<string>)
    ensures out == lines + Texts(Rows(d, prefix))
    decreases Size(d), 1
  {
    SortMeasures(d);
    var sorted := SortEntries(d);
    out := lines;
    for i := 0 to |sorted|
      invariant out + Texts(RowsSorted(sorted[i..], prefix)) == lines + Texts(Rows(d, prefix))
    {
      var e := sorted[i];
      var isLast := i == |sorted| - 1;
      var line := Draw(Row(prefix, isLast, e.key, e.value));
      ghost var before := out;
      out := out + [line];
      if IsDirectory(e.value) {
        SubtreeSmaller(sorted, i);
        out := BuildLines(e.value.entries, prefix + ChildIndent(isLast), out);
      }
      BuildStep(sorted, i, prefix, before, out);
    }
    assert sorted[|sorted|..] == [];
  }

  /** An entry's children are fewer than the entries they are listed among. */
  lemma {:induction false} SubtreeSmaller(s: seq<Entry>, i: int)
    requires 0 <= i < |s| && s[i].value.Dir?
    ensures Size(s[i].value.entries) < Size(s)
  {
    if i > 0 {
      SubtreeSmaller(s[1..], i - 1);
    }
  }

  /** The root line `📦 owner/name/tree/branch[/subpath]`. */
  function RootLine(owner: string, name: string, branch: string, subpath: string): string
  {
    "\U{1F4E6} " + owner + "/" + name + "/tree/" + branch + (if subpath != "" then "/" + subpath else "")
  }

  /** What `format_tree` returns. */
  function TreeLines(owner: string, name: string, branch: string, subpath: string, paths: seq<string>, m: int): seq<string>
  {
    [RootLine(owner, name, branch, subpath)] + Texts(Rows(BuildTree(paths, m), ""))
  }

  /** `format_tree`: build the dictionary, append the root line, then the entries' lines. */
  method FormatTree(owner: string, name: string, branch: string, subpath: string, paths: seq<string>, m: int)
    returns (lines: seq<string>)
    ensures lines == TreeLines(owner, name, branch, subpath, paths, m)
  {
    var tree := BuildTreeDict(paths, m);
    lines := [RootLine(owner, name, branch, subpath)];
    lines := BuildLines(tree, "", lines);
  }

  /** The output has the root line and one line per dictionary entry. */
  lemma TreeLineCount(owner: string, name: string, branch: string, subpath: string, paths: seq<string>, m: int)
    ensures |TreeLines(owner, name, branch, subpath, paths, m)| == 1 + Size(BuildTree(paths, m))
  {
    RowCount(BuildTree(paths, m), "");
  }

  /** Every entry line is indented by four characters per level, and by
      at most four times the depth limit (or not at all for a limit below one). */
  lemma TreeIndentBound(paths: seq<string>, m: int, r: Row)
    requires r in Rows(BuildTree(paths, m), "")
    ensures Indent(r.prefix) && |r.prefix| % 4 == 0
    ensures |r.prefix| <= 4 * (if m > 0 then m else 0)
  {
    RowPrefixes(BuildTree(paths, m), "");
    BuildHeight(paths, m);
    assert r.prefix[0..] == r.prefix;
    IndentLength(r.prefix);
  }

  /** The top-level entry lines are the top-level entries in sorted order. */
  lemma TreeTopLevel(paths: seq<string>, m: int)
    ensures AtIndent(Rows(BuildTree(paths, m), ""), 0) == Heads(SortEntries(BuildTree(paths, m)), "")
  {
    TopLevelRows(SortEntries(BuildTree(paths, m)), "");
  }
}
