/** The nested dictionary `format_tree` builds from the listed paths.

    A Python dict keeps insertion order and the renderer's sort is stable,
    so the order of insertion is observable: a directory is an association
    list with distinct keys, updated in place (same position) and extended
    at the end, as a dict is. A file and an empty directory are both the
    empty dict `Dir([])`; the `"..."` depth marker is `Trunc`. */
module TreeModel {
  import opened Text
  import opened Wrappers

  datatype Node = Dir(entries: seq<Entry>) | Trunc
  datatype Entry = Entry(key: string, value: Node)

  /** `d.get(k)`: the value stored under the first entry with that key. */
  function Lookup(es: seq<Entry>, k: string): Option<Node>
  {
    if es == [] then None
    else if es[0].key == k then Some(es[0].value)
    else Lookup(es[1..], k)
  }

  /** A lookup succeeds exactly when some entry has the key, and then
      returns that entry's value. */
  lemma {:induction false} LookupFound(es: seq<Entry>, k: string)
    ensures Lookup(es, k).Some? <==> exists i :: 0 <= i < |es| && es[i].key == k
    ensures Lookup(es, k).Some? ==> Entry(k, Lookup(es, k).value) in es
  {
    if es != [] && es[0].key != k {
      LookupFound(es[1..], k);
      if exists i :: 0 <= i < |es| && es[i].key == k {
        var i :| 0 <= i < |es| && es[i].key == k;
        assert es[1..][i - 1] == es[i];
      }
    }
  }

  /** `d[k] = v`: an existing key keeps its position, a new key goes last. */
  function Put(es: seq<Entry>, k: string, v: Node): (r: seq<Entry>)
    ensures Lookup(es, k).Some? ==> |r| == |es| && forall i :: 0 <= i < |es| ==> r[i].key == es[i].key
    ensures Lookup(es, k).None? ==> r == es + [Entry(k, v)]
  {
    if es == [] then [Entry(k, v)]
    else if es[0].key == k then [Entry(k, v)] + es[1..]
    else [es[0]] + Put(es[1..], k, v)
  }

  /** After `d[k] = v`, `k` maps to `v` and every other key to what it did. */
  lemma {:induction false} PutLookup(es: seq<Entry>, k: string, v: Node, k': string)
    ensures Lookup(Put(es, k, v), k') == if k' == k then Some(v) else Lookup(es, k')
  {
    if es != [] && es[0].key != k {
      PutLookup(es[1..], k, v, k');
    }
  }

  /** `d[k] = v` brings in no entry but the new one. */
  lemma {:induction false} PutEntries(es: seq<Entry>, k: string, v: Node)
    ensures forall e :: e in Put(es, k, v) ==> e in es || e == Entry(k, v)
  {
    if es != [] && es[0].key != k {
      PutEntries(es[1..], k, v);
    }
  }

  /** Storing the value a key already has changes nothing. */
  lemma {:induction false} PutSame(es: seq<Entry>, k: string, v: Node)
    requires Lookup(es, k) == Some(v)
    ensures Put(es, k, v) == es
  {
    if es[0].key != k {
      PutSame(es[1..], k, v);
    }
  }

  predicate DistinctKeys(es: seq<Entry>)
  {
    forall i, j :: 0 <= i < j < |es| ==> es[i].key != es[j].key
  }

  /** The shape of a tree built with depth limit `m`, seen from nesting
      level `level`: distinct keys at every level, dictionaries above the
      limit and only `"..."` markers at it. */
  predicate Shaped(es: seq<Entry>, level: nat, m: int)
    decreases es
  {
    DistinctKeys(es) &&
    forall e :: e in es ==>
      if level < m then e.value.Dir? && Shaped(e.value.entries, level + 1, m) else e.value == Trunc
  }

  /** What a value stored at nesting level `level` looks like in a shaped tree. */
  predicate Fits(v: Node, level: nat, m: int)
  {
    if level < m then v.Dir? && Shaped(v.entries, level + 1, m) else v == Trunc
  }

  lemma PutShaped(es: seq<Entry>, k: string, v: Node, level: nat, m: int)
    requires Shaped(es, level, m) && Fits(v, level, m)
    ensures Shaped(Put(es, k, v), level, m)
  {
    var r := Put(es, k, v);
    PutEntries(es, k, v);
    if Lookup(es, k).None? {
      LookupFound(es, k);
      forall i, j | 0 <= i < j < |r| ensures r[i].key != r[j].key {
        if j == |es| {
          assert r[i] == es[i];
        }
      }
    }
  }

  /** The index up to which a path is inserted when insertion starts at
      segment `i`: one segment past the depth limit, or the whole path. */
  function Reach(n: nat, i: nat, m: int): nat
  {
    if m <= i then Min(n, i + 1) else Min(n, m + 1)
  }

  function Min(a: nat, b: nat): nat
  {
    if a <= b then a else b
  }

  /** The dictionary `current` descends into for a segment below the
      limit: an empty dict is added under the segment when it is missing. */
  function WithChild(es: seq<Entry>, part: string): (r: seq<Entry>)
    ensures Lookup(r, part).Some?
  {
    if Lookup(es, part).None? then
      PutLookup(es, part, Dir([]), part);
      Put(es, part, Dir([]))
    else es
  }

  /** A segment at the limit: stored as `"..."` only when missing. */
  function Mark(es: seq<Entry>, part: string): seq<Entry>
  {
    if Lookup(es, part).None? then Put(es, part, Trunc) else es
  }

  /** One pass of the inner loop of `format_tree`, from segment `i` on,
      into the dictionary `es` that `current` points at. Below the limit a
      missing segment becomes an empty dict and insertion descends into it
      (staying put when the value there is `"..."`); at the limit a missing
      segment becomes `"..."` and insertion stops. */
  function InsertParts(es: seq<Entry>, parts: seq<string>, i: nat, m: int): seq<Entry>
    requires i < |parts|
    decreases |parts| - i
  {
    if i >= m then Mark(es, parts[i])
    else
      var es1 := WithChild(es, parts[i]);
      var child := Lookup(es1, parts[i]).value;
      if i == |parts| - 1 then es1
      else if child.Trunc? then InsertParts(es1, parts, i + 1, m)
      else Put(es1, parts[i], Dir(InsertParts(child.entries, parts, i + 1, m)))
  }

  /** The whole of `format_tree`'s insertion: each path, split on `/`,
      inserted in listing order into an initially empty dict. */
  function BuildTree(paths: seq<string>, m: int): seq<Entry>
    decreases |paths|
  {
    if paths == [] then []
    else InsertParts(BuildTree(paths[..|paths| - 1], m), Split(paths[|paths| - 1], '/'), 0, m)
  }

  /** Whether following the keys `ks` from the top reaches an entry. */
  predicate HasPath(es: seq<Entry>, ks: seq<string>)
    decreases |ks|
  {
    |ks| > 0 && Lookup(es, ks[0]).Some? &&
    (|ks| == 1 || (Lookup(es, ks[0]).value.Dir? && HasPath(Lookup(es, ks[0]).value.entries, ks[1..])))
  }

  /** The child insertion descends into below the limit fits its level. */
  lemma WithChildFits(es: seq<Entry>, part: string, i: nat, m: int)
    requires Shaped(es, i, m) && i < m
    ensures Shaped(WithChild(es, part), i, m)
    ensures Lookup(WithChild(es, part), part).Some?
    ensures Fits(Lookup(WithChild(es, part), part).value, i, m)
  {
    WithChildLookup(es, part, part);
    if Lookup(es, part).None? {
      PutShaped(es, part, Dir([]), i, m);
    } else {
      LookupFound(es, part);
    }
  }

  /** Insertion keeps the shape. */
  lemma {:induction false} InsertShaped(es: seq<Entry>, parts: seq<string>, i: nat, m: int)
    requires i < |parts| && Shaped(es, i, m)
    ensures Shaped(InsertParts(es, parts, i, m), i, m)
    decreases |parts| - i
  {
    if i >= m {
      if Lookup(es, parts[i]).None? {
        PutShaped(es, parts[i], Trunc, i, m);
      }
    } else {
      WithChildFits(es, parts[i], i, m);
      var es1 := WithChild(es, parts[i]);
      var child := Lookup(es1, parts[i]).value;
      if i < |parts| - 1 {
        InsertShaped(child.entries, parts, i + 1, m);
        PutShaped(es1, parts[i], Dir(InsertParts(child.entries, parts, i + 1, m)), i, m);
      }
    }
  }

  /** A lookup that agrees on the first key decides every path through it. */
  lemma HasPathSameHead(a: seq<Entry>, b: seq<Entry>, ks: seq<string>)
    requires |ks| > 0 && Lookup(a, ks[0]) == Lookup(b, ks[0])
    ensures HasPath(a, ks) <==> HasPath(b, ks)
  {
  }

  /** `WithChild` leaves a present key alone and gives a missing one an empty dict. */
  lemma WithChildLookup(es: seq<Entry>, part: string, k: string)
    ensures Lookup(WithChild(es, part), k) ==
      if k == part && Lookup(es, part).None? then Some(Dir([])) else Lookup(es, k)
  {
    if Lookup(es, part).None? {
      PutLookup(es, part, Dir([]), k);
    }
  }

  /** The paths present after an insertion: the old ones and the prefixes
      of the inserted path up to the depth limit (one segment past it). */
  lemma {:induction false} InsertPaths(es: seq<Entry>, parts: seq<string>, i: nat, m: int, ks: seq<string>)
    requires i < |parts| && Shaped(es, i, m)
    ensures HasPath(InsertParts(es, parts, i, m), ks) <==>
      HasPath(es, ks) || (0 < |ks| && i + |ks| <= Reach(|parts|, i, m) && ks == parts[i..i + |ks|])
    decreases |parts| - i
  {
    if |ks| == 0 {
    } else if ks[0] != parts[i] {
      InsertPathsElsewhere(es, parts, i, m, ks);
      if i + |ks| <= Reach(|parts|, i, m) {
        assert Min(|parts|, i + |ks|) == i + |ks|;
      }
    } else if i >= m {
      InsertPathsAtLimit(es, parts, i, m, ks);
    } else if i == |parts| - 1 {
      InsertPathsLast(es, parts, i, m, ks);
    } else if |ks| == 1 {
      InsertPathsSingle(es, parts, i, m, ks);
    } else {
      WithChildFits(es, parts[i], i, m);
      var c := Lookup(WithChild(es, parts[i]), parts[i]).value.entries;
      InsertPathsBelow(es, parts, i, m, ks);
      InsertPaths(c, parts, i + 1, m, ks[1..]);
      if i + |ks| <= |parts| {
        SliceCons(ks, parts, i);
      }
    }
  }

  /** A path through another key is untouched. */
  lemma InsertPathsElsewhere(es: seq<Entry>, parts: seq<string>, i: nat, m: int, ks: seq<string>)
    requires i < |parts| && Shaped(es, i, m) && 0 < |ks| && ks[0] != parts[i]
    ensures HasPath(InsertParts(es, parts, i, m), ks) <==> HasPath(es, ks)
    ensures ks != parts[i..Min(|parts|, i + |ks|)]
  {
    assert parts[i..Min(|parts|, i + |ks|)][0] == parts[i];
    var r := InsertParts(es, parts, i, m);
    if i >= m {
      if Lookup(es, parts[i]).None? {
        PutLookup(es, parts[i], Trunc, ks[0]);
      }
    } else {
      WithChildFits(es, parts[i], i, m);
      WithChildLookup(es, parts[i], ks[0]);
      var es1 := WithChild(es, parts[i]);
      HasPathSameHead(es1, es, ks);
      if i < |parts| - 1 {
        var child := Lookup(es1, parts[i]).value;
        PutLookup(es1, parts[i], Dir(InsertParts(child.entries, parts, i + 1, m)), ks[0]);
        HasPathSameHead(r, es1, ks);
      }
    }
  }

  /** At the depth limit only the segment itself is added. */
  lemma InsertPathsAtLimit(es: seq<Entry>, parts: seq<string>, i: nat, m: int, ks: seq<string>)
    requires i < |parts| && Shaped(es, i, m) && i >= m && 0 < |ks| && ks[0] == parts[i]
    ensures HasPath(InsertParts(es, parts, i, m), ks) <==>
      HasPath(es, ks) || (i + |ks| <= Reach(|parts|, i, m) && ks == parts[i..i + |ks|])
  {
    var r := InsertParts(es, parts, i, m);
    assert Reach(|parts|, i, m) == i + 1;
    if Lookup(es, parts[i]).None? {
      PutLookup(es, parts[i], Trunc, parts[i]);
      assert Lookup(r, ks[0]) == Some(Trunc);
      assert !HasPath(es, ks);
      if |ks| == 1 {
        SliceOne(parts, i);
        assert HasPath(r, ks);
      } else {
        assert !HasPath(r, ks);
      }
    } else {
      assert r == es;
      if |ks| == 1 {
        SliceOne(parts, i);
        assert HasPath(es, ks);
      }
    }
  }

  /** Below the limit, insertion of the last segment adds that key only. */
  lemma InsertPathsLast(es: seq<Entry>, parts: seq<string>, i: nat, m: int, ks: seq<string>)
    requires i == |parts| - 1 && Shaped(es, i, m) && i < m && 0 < |ks| && ks[0] == parts[i]
    ensures HasPath(InsertParts(es, parts, i, m), ks) <==>
      HasPath(es, ks) || (i + |ks| <= Reach(|parts|, i, m) && ks == parts[i..i + |ks|])
  {
    var es1 := WithChild(es, parts[i]);
    assert InsertParts(es, parts, i, m) == es1;
    assert Reach(|parts|, i, m) == i + 1;
    if |ks| == 1 {
      SliceOne(parts, i);
    } else if Lookup(es, parts[i]).None? {
      PutLookup(es, parts[i], Dir([]), parts[i]);
      assert !HasPath(es1, ks);
    }
  }

  /** Below the limit, the segment itself is present after insertion. */
  lemma InsertPathsSingle(es: seq<Entry>, parts: seq<string>, i: nat, m: int, ks: seq<string>)
    requires i < |parts| - 1 && Shaped(es, i, m) && i < m && ks == [parts[i]]
    ensures HasPath(InsertParts(es, parts, i, m), ks)
    ensures i + |ks| <= Reach(|parts|, i, m) && ks == parts[i..i + |ks|]
  {
    WithChildFits(es, parts[i], i, m);
    var es1 := WithChild(es, parts[i]);
    var child := Lookup(es1, parts[i]).value;
    assert child.Dir?;
    var r := Put(es1, parts[i], Dir(InsertParts(child.entries, parts, i + 1, m)));
    assert InsertParts(es, parts, i, m) == r;
    PutLookup(es1, parts[i], Dir(InsertParts(child.entries, parts, i + 1, m)), parts[i]);
    SliceOne(parts, i);
  }

  /** Below the limit and before the last segment, a path through the
      segment continues in the child insertion descends into. */
  lemma InsertPathsBelow(es: seq<Entry>, parts: seq<string>, i: nat, m: int, ks: seq<string>)
    requires i < |parts| - 1 && Shaped(es, i, m) && i < m && 1 < |ks| && ks[0] == parts[i]
    ensures Lookup(WithChild(es, parts[i]), parts[i]).value.Dir?
    ensures var c := Lookup(WithChild(es, parts[i]), parts[i]).value.entries;
      && Shaped(c, i + 1, m)
      && (HasPath(InsertParts(es, parts, i, m), ks) <==> HasPath(InsertParts(c, parts, i + 1, m), ks[1..]))
      && (HasPath(es, ks) <==> HasPath(c, ks[1..]))
      && Reach(|parts|, i + 1, m) == Reach(|parts|, i, m)
  {
    var part := parts[i];
    WithChildFits(es, part, i, m);
    WithChildLookup(es, part, part);
    var es1 := WithChild(es, part);
    var child := Lookup(es1, part).value;
    PutLookup(es1, part, Dir(InsertParts(child.entries, parts, i + 1, m)), part);
    if Lookup(es, part).None? {
      assert !HasPath(child.entries, ks[1..]);
    }
  }

  /** A one-element slice is the element alone. */
  lemma SliceOne(parts: seq<string>, i: nat)
    requires i < |parts|
    ensures parts[i..i + 1] == [parts[i]]
  {
  }

  /** A key sequence is a slice exactly when its head matches and its tail is the next slice. */
  lemma SliceCons(ks: seq<string>, parts: seq<string>, i: nat)
    requires 0 < |ks| && i + |ks| <= |parts| && ks[0] == parts[i]
    ensures ks == parts[i..i + |ks|] <==> ks[1..] == parts[i + 1..i + |ks|]
  {
    if ks[1..] == parts[i + 1..i + |ks|] {
      assert ks == [ks[0]] + ks[1..];
      assert parts[i..i + |ks|] == [parts[i]] + parts[i + 1..i + |ks|];
    }
  }

  /** Inserting a path whose cut-off prefix is already present changes nothing. */
  lemma {:induction false} InsertPresent(es: seq<Entry>, parts: seq<string>, i: nat, m: int)
    requires i < |parts| && Shaped(es, i, m)
    requires HasPath(es, parts[i..Reach(|parts|, i, m)])
    ensures InsertParts(es, parts, i, m) == es
    decreases |parts| - i
  {
    var ks := parts[i..Reach(|parts|, i, m)];
    assert ks[0] == parts[i];
    if i < m {
      LookupFound(es, parts[i]);
      var child := Lookup(es, parts[i]).value;
      assert WithChild(es, parts[i]) == es;
      if i < |parts| - 1 {
        assert ks[1..] == parts[i + 1..Reach(|parts|, i + 1, m)];
        InsertPresent(child.entries, parts, i + 1, m);
        PutSame(es, parts[i], child);
      }
    }
  }

  /** Inserting the same path twice is inserting it once. */
  lemma InsertIdempotent(es: seq<Entry>, parts: seq<string>, i: nat, m: int)
    requires i < |parts| && Shaped(es, i, m)
    ensures InsertParts(InsertParts(es, parts, i, m), parts, i, m) == InsertParts(es, parts, i, m)
  {
    var ks := parts[i..Reach(|parts|, i, m)];
    InsertShaped(es, parts, i, m);
    InsertPaths(es, parts, i, m, ks);
    InsertPresent(InsertParts(es, parts, i, m), parts, i, m);
  }

  /** The prefixes of a split path that the builder stores: from one
      segment up to one past the depth limit. */
  predicate StoredPrefix(ks: seq<string>, parts: seq<string>, m: int)
  {
    0 < |ks| <= Reach(|parts|, 0, m) && ks == parts[..|ks|]
  }

  /** A built tree has the shape the depth limit prescribes. */
  lemma {:induction false} BuildShaped(paths: seq<string>, m: int)
    ensures Shaped(BuildTree(paths, m), 0, m)
    decreases |paths|
  {
    if paths != [] {
      BuildShaped(paths[..|paths| - 1], m);
      InsertShaped(BuildTree(paths[..|paths| - 1], m), Split(paths[|paths| - 1], '/'), 0, m);
    }
  }

  /** `ks` is a stored prefix of one of the listed paths. */
  predicate Listed(ks: seq<string>, paths: seq<string>, m: int)
  {
    exists j :: 0 <= j < |paths| && StoredPrefix(ks, Split(paths[j], '/'), m)
  }

  lemma ListedSnoc(ks: seq<string>, paths: seq<string>, m: int)
    requires paths != []
    ensures Listed(ks, paths, m) <==>
      Listed(ks, paths[..|paths| - 1], m) || StoredPrefix(ks, Split(paths[|paths| - 1], '/'), m)
  {
    var init := paths[..|paths| - 1];
    if Listed(ks, paths, m) {
      var j :| 0 <= j < |paths| && StoredPrefix(ks, Split(paths[j], '/'), m);
      if j < |init| {
        assert paths[j] == init[j];
      }
    }
    if Listed(ks, init, m) {
      var j :| 0 <= j < |init| && StoredPrefix(ks, Split(init[j], '/'), m);
      assert paths[j] == init[j];
    }
  }

  /** The key paths of a built tree are exactly the stored prefixes of
      the listed paths, split on `/`. */
  lemma {:induction false} BuildPaths(paths: seq<string>, m: int, ks: seq<string>)
    ensures HasPath(BuildTree(paths, m), ks) <==> Listed(ks, paths, m)
    decreases |paths|
  {
    if paths != [] {
      var init := paths[..|paths| - 1];
      var parts := Split(paths[|paths| - 1], '/');
      BuildPaths(init, m, ks);
      BuildShaped(init, m);
      InsertPaths(BuildTree(init, m), parts, 0, m, ks);
      assert 0 < |ks| <= |parts| ==> parts[0..|ks|] == parts[..|ks|];
      ListedSnoc(ks, paths, m);
    }
  }

  /** Listing a path again leaves the built tree unchanged. */
  lemma BuildRepeat(paths: seq<string>, p: string, m: int)
    requires p in paths
    ensures BuildTree(paths + [p], m) == BuildTree(paths, m)
  {
    var parts := Split(p, '/');
    var j :| 0 <= j < |paths| && paths[j] == p;
    BuildPaths(paths, m, parts[..Reach(|parts|, 0, m)]);
    BuildShaped(paths, m);
    assert (paths + [p])[..|paths|] == paths;
    InsertPresent(BuildTree(paths, m), parts, 0, m);
  }

  /** The number of entries at all levels. */
  function Size(es: seq<Entry>): nat
    decreases es
  {
    if es == [] then 0
    else 1 + (if es[0].value.Dir? then Size(es[0].value.entries) else 0) + Size(es[1..])
  }

  /** The number of nesting levels holding entries. */
  function Height(es: seq<Entry>): nat
    decreases es
  {
    if es == [] then 0
    else
      var below := if es[0].value.Dir? then Height(es[0].value.entries) else 0;
      var rest := Height(es[1..]);
      if below + 1 >= rest then below + 1 else rest
  }

  lemma ShapedTail(es: seq<Entry>, level: nat, m: int)
    requires es != [] && Shaped(es, level, m)
    ensures Shaped(es[1..], level, m)
  {
    assert forall e :: e in es[1..] ==> e in es;
    forall i, j | 0 <= i < j < |es[1..]| ensures es[1..][i].key != es[1..][j].key {
      assert es[1..][i] == es[i + 1] && es[1..][j] == es[j + 1];
    }
  }

  /** A shaped tree seen from `level` has at most one level below the limit's. */
  lemma {:induction false} ShapedHeight(es: seq<Entry>, level: nat, m: int)
    requires Shaped(es, level, m)
    ensures Height(es) <= (if level < m then m - level else 0) + 1
    decreases es
  {
    if es != [] {
      assert es[0] in es;
      ShapedTail(es, level, m);
      ShapedHeight(es[1..], level, m);
      if level < m {
        ShapedHeight(es[0].value.entries, level + 1, m);
      }
    }
  }

  /** A built tree is at most one level deeper than the depth limit. */
  lemma BuildHeight(paths: seq<string>, m: int)
    ensures Height(BuildTree(paths, m)) <= (if m > 0 then m else 0) + 1
  {
    BuildShaped(paths, m);
    ShapedHeight(BuildTree(paths, m), 0, m);
  }
}
