/** The path gate and the subpath filter of `github_tree`: which entries of
    the recursive tree listing become paths, the empty and too-large checks
    on that list, and the restriction to a subpath. */
module PathGate {
  import opened Text
  import opened Wrappers

  /** The most paths the command will render. */
  const MaxPathLimit: nat := 5000

  /** One entry of the listing: its `path` and its `type`. */
  datatype TreeItem = TreeItem(path: string, kind: string)

  predicate IsListed(item: TreeItem)
  {
    item.kind == "blob" || item.kind == "tree"
  }

  /** The paths of the `blob` and `tree` entries, in listing order. */
  function ListedPaths(items: seq<TreeItem>): (paths: seq<string>)
    ensures |paths| <= |items|
    ensures forall p :: p in paths <==> exists i :: 0 <= i < |items| && IsListed(items[i]) && items[i].path == p
    ensures (forall i :: 0 <= i < |items| ==> IsListed(items[i])) ==>
      |paths| == |items| && forall i :: 0 <= i < |items| ==> paths[i] == items[i].path
  {
    if items == [] then []
    else (if IsListed(items[0]) then [items[0].path] else []) + ListedPaths(items[1..])
  }

  /** The comprehension keeps listing order: the paths of a concatenation
      are the paths of its parts in turn, and one item contributes its own
      path exactly when it is a `blob` or a `tree`. */
  lemma {:induction false} ListedAppend(a: seq<TreeItem>, b: seq<TreeItem>)
    ensures ListedPaths(a + b) == ListedPaths(a) + ListedPaths(b)
    ensures |a| == 1 ==> ListedPaths(a) == (if IsListed(a[0]) then [a[0].path] else [])
  {
    if a == [] {
      assert a + b == b;
    } else {
      ListedAppend(a[1..], b);
      var head := if IsListed(a[0]) then [a[0].path] else [];
      ConcatTail(a, b);
      assert ListedPaths(a + b) == head + ListedPaths(a[1..] + b);
      assert ListedPaths(a) == head + ListedPaths(a[1..]);
      ConcatAssoc(head, ListedPaths(a[1..]), ListedPaths(b));
      if |a| == 1 {
        assert a[1..] == [];
      }
    }
  }

  /** A listing with nothing but submodules and other kinds lists no path. */
  lemma {:induction false} NoneListed(items: seq<TreeItem>)
    requires forall i :: 0 <= i < |items| ==> !IsListed(items[i])
    ensures ListedPaths(items) == []
  {
    if items != [] {
      NoneListed(items[1..]);
    }
  }

  /** The two answers of the gate. */
  datatype GateError = EmptyListing | TooLarge(count: nat)

  /** The gate: an empty list and a list over `MaxPathLimit` are refused;
      both are judged on the unfiltered list. */
  function GatePaths(items: seq<TreeItem>): (r: Result<seq<string>, GateError>)
    ensures r == Err(EmptyListing) <==> ListedPaths(items) == []
    ensures (r.Err? && r.error.TooLarge?) <==> |ListedPaths(items)| > MaxPathLimit
    ensures r.Err? && r.error.TooLarge? ==> r.error.count == |ListedPaths(items)|
    ensures r.Ok? ==> r.value == ListedPaths(items) && 1 <= |r.value| <= MaxPathLimit
  {
    var paths := ListedPaths(items);
    if paths == [] then Err(EmptyListing)
    else if |paths| > MaxPathLimit then Err(TooLarge(|paths|))
    else Ok(paths)
  }

  /** `p.startswith(subpath + "/")`. */
  predicate IsBelow(p: string, subpath: string)
  {
    StartsWith(p, subpath + "/")
  }

  /** The paths equal to the subpath or below it, in order. */
  function Matching(paths: seq<string>, subpath: string): (r: seq<string>)
    ensures forall p :: p in r <==> p in paths && (p == subpath || IsBelow(p, subpath))
  {
    if paths == [] then []
    else (if paths[0] == subpath || IsBelow(paths[0], subpath) then [paths[0]] else []) + Matching(paths[1..], subpath)
  }

  /** The paths below the subpath with `subpath + "/"` cut off, in order. */
  function Relative(paths: seq<string>, subpath: string): seq<string>
  {
    if paths == [] then []
    else (if IsBelow(paths[0], subpath) then [paths[0][|subpath| + 1..]] else []) + Relative(paths[1..], subpath)
  }

  /** Whether some path lies below the subpath. */
  predicate AnyBelow(paths: seq<string>, subpath: string)
  {
    exists i :: 0 <= i < |paths| && IsBelow(paths[i], subpath)
  }

  datatype SubpathError = SubpathNotFound

  /** The subpath filter: no subpath keeps every path; otherwise the paths
      below it, relative to it, or the subpath alone when it is a single
      file; an error when nothing matches. */
  function FilterSubpath(all: seq<string>, subpath: string): (r: Result<seq<string>, SubpathError>)
    ensures subpath == "" ==> r == Ok(all)
    ensures r.Err? <==> subpath != "" && forall p :: p in all ==> p != subpath && !IsBelow(p, subpath)
    ensures r.Ok? && all != [] ==> r.value != []
  {
    if subpath == "" then Ok(all)
    else
      var filtered := Matching(all, subpath);
      if filtered == [] then Err(SubpathNotFound)
      else if AnyBelow(filtered, subpath) then
        RelativeNonEmpty(filtered, subpath);
        Ok(Relative(filtered, subpath))
      else
        assert filtered[0] in filtered;
        Ok([subpath])
  }

  lemma {:induction false} RelativeNonEmpty(paths: seq<string>, subpath: string)
    requires AnyBelow(paths, subpath)
    ensures Relative(paths, subpath) != []
  {
    if !IsBelow(paths[0], subpath) {
      var i :| 0 <= i < |paths| && IsBelow(paths[i], subpath);
      assert paths[1..][i - 1] == paths[i];
      RelativeNonEmpty(paths[1..], subpath);
    }
  }

  /** Filtering for matches first does not change the paths below the subpath. */
  lemma {:induction false} RelativeOfMatching(paths: seq<string>, subpath: string)
    ensures Relative(Matching(paths, subpath), subpath) == Relative(paths, subpath)
  {
    if paths != [] {
      RelativeOfMatching(paths[1..], subpath);
      var head := if paths[0] == subpath || IsBelow(paths[0], subpath) then [paths[0]] else [];
      assert Matching(paths, subpath) == head + Matching(paths[1..], subpath);
      RelativeAppend(head, Matching(paths[1..], subpath), subpath);
    }
  }

  /** Some match is below the subpath exactly when some path is. */
  lemma AnyBelowMatching(paths: seq<string>, subpath: string)
    ensures AnyBelow(Matching(paths, subpath), subpath) <==> AnyBelow(paths, subpath)
  {
    var m := Matching(paths, subpath);
    if AnyBelow(paths, subpath) {
      var i :| 0 <= i < |paths| && IsBelow(paths[i], subpath);
      assert paths[i] in m;
      var j :| 0 <= j < |m| && m[j] == paths[i];
    }
    if AnyBelow(m, subpath) {
      var i :| 0 <= i < |m| && IsBelow(m[i], subpath);
      assert m[i] in paths;
      var k :| 0 <= k < |paths| && paths[k] == m[i];
    }
  }

  lemma {:induction false} RelativeAppend(a: seq<string>, b: seq<string>, subpath: string)
    ensures Relative(a + b, subpath) == Relative(a, subpath) + Relative(b, subpath)
  {
    if a != [] {
      RelativeAppend(a[1..], b, subpath);
      assert (a + b)[1..] == a[1..] + b;
    } else {
      assert a + b == b;
    }
  }

  /** With paths below the subpath, the result is exactly those paths with
      `subpath + "/"` removed, in their original order. */
  lemma FilterKeepsBelow(all: seq<string>, subpath: string)
    requires subpath != "" && AnyBelow(all, subpath)
    ensures FilterSubpath(all, subpath) == Ok(Relative(all, subpath))
  {
    RelativeOfMatching(all, subpath);
    AnyBelowMatching(all, subpath);
    var i :| 0 <= i < |all| && IsBelow(all[i], subpath);
    assert all[i] in Matching(all, subpath);
  }

  /** Without paths below it, an existing subpath is kept as a single file. */
  lemma FilterSingleFile(all: seq<string>, subpath: string)
    requires subpath != "" && subpath in all && !AnyBelow(all, subpath)
    ensures FilterSubpath(all, subpath) == Ok([subpath])
  {
    AnyBelowMatching(all, subpath);
    assert subpath in Matching(all, subpath);
  }

  /** A relative path is listed exactly when the subpath, a slash and it are. */
  lemma {:induction false} RelativeMembers(paths: seq<string>, subpath: string, q: string)
    ensures q in Relative(paths, subpath) <==> subpath + "/" + q in paths
  {
    if paths != [] {
      RelativeMembers(paths[1..], subpath, q);
      var p := paths[0];
      var full := subpath + "/" + q;
      if IsBelow(p, subpath) {
        assert p == p[..|subpath| + 1] + p[|subpath| + 1..];
        assert p[|subpath| + 1..] == q <==> p == full;
      } else {
        assert p != full by { assert full[..|subpath + "/"|] == subpath + "/"; }
      }
      assert paths == [p] + paths[1..];
    }
  }
}
