/** `format_tree`'s insertion loop as it is written: a moving `current`
    reference into the nested dictionary, updated in place. The reference
    is a key path from the top (`cursor`); an assignment through it
    rebuilds the tree along that path, which is what the in-place update
    amounts to since every dictionary is held by exactly one parent. */
module TreeBuilder {
  import opened Text
  import opened Wrappers
  import opened TreeModel

  /** Whether following `cur` from the top passes only through dictionaries. */
  predicate ValidCursor(es: seq<Entry>, cur: seq<string>)
    decreases |cur|
  {
    cur == [] ||
    (Lookup(es, cur[0]).Some? && Lookup(es, cur[0]).value.Dir? &&
     ValidCursor(Lookup(es, cur[0]).value.entries, cur[1..]))
  }

  /** The dictionary `current` refers to. */
  function At(es: seq<Entry>, cur: seq<string>): seq<Entry>
    requires ValidCursor(es, cur)
    decreases |cur|
  {
    if cur == [] then es else At(Lookup(es, cur[0]).value.entries, cur[1..])
  }

  /** The tree after the dictionary `current` refers to becomes `x`:
      `current` still refers to a dictionary, and it holds `x`. */
  function Plug(es: seq<Entry>, cur: seq<string>, x: seq<Entry>): (r: seq<Entry>)
    requires ValidCursor(es, cur)
    ensures ValidCursor(r, cur) && At(r, cur) == x
    decreases |cur|
  {
    if cur == [] then x
    else
      var inner := Plug(Lookup(es, cur[0]).value.entries, cur[1..], x);
      PutLookup(es, cur[0], Dir(inner), cur[0]);
      Put(es, cur[0], Dir(inner))
  }

  /** Overwriting a key twice keeps the second value. */
  lemma {:induction false} PutPut(es: seq<Entry>, k: string, v: Node, w: Node)
    ensures Put(Put(es, k, v), k, w) == Put(es, k, w)
  {
    if es != [] && es[0].key != k {
      PutPut(es[1..], k, v, w);
    }
  }

  /** A second update through the same `current` overrides the first. */
  lemma {:induction false} PlugPlug(es: seq<Entry>, cur: seq<string>, x: seq<Entry>, y: seq<Entry>)
    requires ValidCursor(es, cur)
    ensures Plug(Plug(es, cur, x), cur, y) == Plug(es, cur, y)
    decreases |cur|
  {
    if cur != [] {
      var c := Lookup(es, cur[0]).value.entries;
      PutLookup(es, cur[0], Dir(Plug(c, cur[1..], x)), cur[0]);
      PlugPlug(c, cur[1..], x, y);
      PutPut(es, cur[0], Dir(Plug(c, cur[1..], x)), Dir(Plug(Plug(c, cur[1..], x), cur[1..], y)));
    }
  }

  /** Writing back what `current` refers to changes nothing. */
  lemma {:induction false} PlugSelf(es: seq<Entry>, cur: seq<string>)
    requires ValidCursor(es, cur)
    ensures Plug(es, cur, At(es, cur)) == es
    decreases |cur|
  {
    if cur != [] {
      var c := Lookup(es, cur[0]).value.entries;
      PlugSelf(c, cur[1..]);
      PutSame(es, cur[0], Dir(c));
    }
  }

  /** `current = current[k]` for a dictionary value: updating through the
      new `current` is updating its parent's entry for `k`. */
  lemma {:induction false} CursorExtend(es: seq<Entry>, cur: seq<string>, k: string, y: seq<Entry>)
    requires ValidCursor(es, cur)
    requires Lookup(At(es, cur), k).Some? && Lookup(At(es, cur), k).value.Dir?
    ensures ValidCursor(es, cur + [k])
    ensures At(es, cur + [k]) == Lookup(At(es, cur), k).value.entries
    ensures Plug(es, cur + [k], y) == Plug(es, cur, Put(At(es, cur), k, Dir(y)))
    decreases |cur|
  {
    if cur == [] {
      assert [] + [k] == [k];
      assert [k][1..] == [];
    } else {
      var c := Lookup(es, cur[0]).value.entries;
      assert (cur + [k])[0] == cur[0];
      assert (cur + [k])[1..] == cur[1..] + [k];
      CursorExtend(c, cur[1..], k, y);
    }
  }

  /** One path inserted by the loop of `format_tree`: `current` starts at
      the top; below the limit a missing segment gets an empty dict and
      `current` moves into it unless it holds `"..."`; at the limit a
      missing segment gets `"..."` and the loop stops. */
  method InsertPath(tree0: seq<Entry>, parts: seq<string>, m: int) returns (tree: seq<Entry>)
    requires |parts| > 0
    ensures tree == InsertParts(tree0, parts, 0, m)
  {
    ghost var goal := InsertParts(tree0, parts, 0, m);
    tree := tree0;
    var cur: seq<string> := [];
    PlugSelf(tree, cur);
    for i := 0 to |parts|
      invariant ValidCursor(tree, cur)
      invariant i < |parts| ==> Plug(tree, cur, InsertParts(At(tree, cur), parts, i, m)) == goal
      invariant i == |parts| ==> tree == goal
    {
      var part := parts[i];
      var d := At(tree, cur);
      if i >= m {
        if Lookup(d, part).None? {
          tree := Plug(tree, cur, Put(d, part, Trunc));
        } else {
          PlugSelf(tree, cur);
        }
        break;
      }
      if Lookup(d, part).None? {
        PlugPlug(tree, cur, Put(d, part, Dir([])), InsertParts(d, parts, i, m));
        tree := Plug(tree, cur, Put(d, part, Dir([])));
      }
      var d1 := At(tree, cur);
      assert d1 == WithChild(d, part);
      var child := Lookup(d1, part).value;
      if i < |parts| - 1 {
        PlugPlug(tree, cur, d1, InsertParts(d, parts, i, m));
        PlugSelf(tree, cur);
        if child.Trunc? {
          PlugPlug(tree, cur, d1, InsertParts(d1, parts, i + 1, m));
        } else {
          CursorExtend(tree, cur, part, InsertParts(child.entries, parts, i + 1, m));
          cur := cur + [part];
        }
      } else {
        PlugSelf(tree, cur);
        if child.Dir? {
          CursorExtend(tree, cur, part, []);
          cur := cur + [part];
        }
      }
    }
  }

  /** The dictionary `format_tree` builds: every listed path, split on `/`,
      inserted in order into an empty dict. */
  method BuildTreeDict(paths: seq<string>, m: int) returns (tree: seq<Entry>)
    ensures tree == BuildTree(paths, m)
  {
    tree := [];
    for k := 0 to |paths|
      invariant tree == BuildTree(paths[..k], m)
    {
      assert paths[..k + 1][..k] == paths[..k];
      tree := InsertPath(tree, Split(paths[k], '/'), m);
    }
    assert paths[..|paths|] == paths;
  }
}
