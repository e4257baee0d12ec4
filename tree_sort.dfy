/** The order `build_lines` puts the entries of one dictionary in:
    `sorted(d.items(), key=lambda kv: (not is_dir, kv[0].lower()))`, where
    `is_dir` holds for a non-empty dictionary. Python's sort is stable, so
    entries whose keys compare equal keep their insertion order. */
module TreeSort {
  import opened Text
  import opened TreeModel

  /** A non-empty dictionary: what the renderer treats as a directory. */
  predicate IsDirectory(v: Node)
  {
    v.Dir? && v.entries != []
  }

  /** The sort key `(not is_dir, key.lower())`. */
  datatype SortKey = SortKey(notDir: bool, lowered: string)

  function KeyOf(e: Entry): SortKey
  {
    SortKey(!IsDirectory(e.value), Lower(e.key))
  }

  /** Tuple order: `False < True` first, then the lower-cased keys. */
  predicate KeyLe(a: SortKey, b: SortKey)
  {
    (!a.notDir && b.notDir) || (a.notDir == b.notDir && LexLe(a.lowered, b.lowered))
  }

  lemma KeyLeTotal(a: SortKey, b: SortKey)
    ensures KeyLe(a, b) || KeyLe(b, a)
  {
    LexLeTotal(a.lowered, b.lowered);
  }

  lemma KeyLeTransitive(a: SortKey, b: SortKey, c: SortKey)
    requires KeyLe(a, b) && KeyLe(b, c)
    ensures KeyLe(a, c)
  {
    if a.notDir == b.notDir && b.notDir == c.notDir {
      LexLeTransitive(a.lowered, b.lowered, c.lowered);
    }
  }

  lemma KeyLeReflexive(a: SortKey)
    ensures KeyLe(a, a)
  {
    LexLeTotal(a.lowered, a.lowered);
  }

  predicate Sorted(s: seq<Entry>)
  {
    forall i, j :: 0 <= i < j < |s| ==> KeyLe(KeyOf(s[i]), KeyOf(s[j]))
  }

  /** Puts `e` in front of the first entry whose key is not below its own. */
  function Insert(e: Entry, s: seq<Entry>): seq<Entry>
  {
    if s == [] || KeyLe(KeyOf(e), KeyOf(s[0])) then [e] + s
    else [s[0]] + Insert(e, s[1..])
  }

  /** `sorted(...)` on the entries of one dictionary. */
  function SortEntries(es: seq<Entry>): seq<Entry>
  {
    if es == [] then [] else Insert(es[0], SortEntries(es[1..]))
  }

  /** The entries with a given sort key, in order. */
  function WithKey(s: seq<Entry>, k: SortKey): seq<Entry>
  {
    if s == [] then []
    else (if KeyOf(s[0]) == k then [s[0]] else []) + WithKey(s[1..], k)
  }

  /** Every entry of `s` has a key at or above `k`. */
  predicate Bounded(k: SortKey, s: seq<Entry>)
  {
    forall j :: 0 <= j < |s| ==> KeyLe(k, KeyOf(s[j]))
  }

  lemma SortedTail(s: seq<Entry>)
    requires s != [] && Sorted(s)
    ensures Sorted(s[1..]) && Bounded(KeyOf(s[0]), s[1..])
  {
    forall i, j | 0 <= i < j < |s[1..]| ensures KeyLe(KeyOf(s[1..][i]), KeyOf(s[1..][j])) {
      assert s[1..][i] == s[i + 1] && s[1..][j] == s[j + 1];
    }
    forall j | 0 <= j < |s[1..]| ensures KeyLe(KeyOf(s[0]), KeyOf(s[1..][j])) {
      assert s[1..][j] == s[j + 1];
    }
  }

  lemma SortedCons(x: Entry, t: seq<Entry>)
    requires Sorted(t) && Bounded(KeyOf(x), t)
    ensures Sorted([x] + t)
  {
    var r := [x] + t;
    forall i, j | 0 <= i < j < |r| ensures KeyLe(KeyOf(r[i]), KeyOf(r[j])) {
      assert r[j] == t[j - 1];
      if i > 0 {
        assert r[i] == t[i - 1];
      }
    }
  }

  /** Inserting an entry at or above a bound keeps the bound. */
  lemma {:induction false} InsertBounded(k: SortKey, e: Entry, s: seq<Entry>)
    requires Bounded(k, s) && KeyLe(k, KeyOf(e))
    ensures Bounded(k, Insert(e, s))
  {
    if s != [] && !KeyLe(KeyOf(e), KeyOf(s[0])) {
      assert Bounded(k, s[1..]) by {
        forall j | 0 <= j < |s[1..]| ensures KeyLe(k, KeyOf(s[1..][j])) {
          assert s[1..][j] == s[j + 1];
        }
      }
      InsertBounded(k, e, s[1..]);
      var r := Insert(e, s);
      forall j | 0 <= j < |r| ensures KeyLe(k, KeyOf(r[j])) {
        if j > 0 {
          assert r[j] == Insert(e, s[1..])[j - 1];
        }
      }
    }
  }

  lemma {:induction false} InsertMultiset(e: Entry, s: seq<Entry>)
    ensures multiset(Insert(e, s)) == multiset{e} + multiset(s)
  {
    if s != [] && !KeyLe(KeyOf(e), KeyOf(s[0])) {
      InsertMultiset(e, s[1..]);
      assert s == [s[0]] + s[1..];
    }
  }

  /** Inserting into a sorted sequence keeps it sorted and adds exactly the entry. */
  lemma {:induction false} InsertSorted(e: Entry, s: seq<Entry>)
    requires Sorted(s)
    ensures Sorted(Insert(e, s))
    ensures multiset(Insert(e, s)) == multiset{e} + multiset(s)
  {
    InsertMultiset(e, s);
    if s == [] {
    } else if KeyLe(KeyOf(e), KeyOf(s[0])) {
      SortedTail(s);
      forall j | 0 <= j < |s| ensures KeyLe(KeyOf(e), KeyOf(s[j])) {
        if j > 0 {
          assert s[j] == s[1..][j - 1];
          KeyLeTransitive(KeyOf(e), KeyOf(s[0]), KeyOf(s[j]));
        }
      }
      SortedCons(e, s);
    } else {
      KeyLeTotal(KeyOf(e), KeyOf(s[0]));
      SortedTail(s);
      InsertSorted(e, s[1..]);
      InsertBounded(KeyOf(s[0]), e, s[1..]);
      SortedCons(s[0], Insert(e, s[1..]));
    }
  }

  /** The sort orders the entries and keeps each of them. */
  lemma {:induction false} SortSorted(es: seq<Entry>)
    ensures Sorted(SortEntries(es))
    ensures multiset(SortEntries(es)) == multiset(es)
  {
    if es != [] {
      SortSorted(es[1..]);
      InsertSorted(es[0], SortEntries(es[1..]));
      assert es == [es[0]] + es[1..];
    }
  }

  lemma {:induction false} InsertWithKey(e: Entry, s: seq<Entry>, k: SortKey)
    ensures WithKey(Insert(e, s), k) == (if KeyOf(e) == k then [e] else []) + WithKey(s, k)
  {
    if s != [] && !KeyLe(KeyOf(e), KeyOf(s[0])) {
      InsertWithKey(e, s[1..], k);
      KeyLeReflexive(KeyOf(e));
      assert KeyOf(s[0]) != KeyOf(e);
    }
  }

  /** Stability: the entries sharing a sort key keep their relative order. */
  lemma {:induction false} SortStable(es: seq<Entry>, k: SortKey)
    ensures WithKey(SortEntries(es), k) == WithKey(es, k)
  {
    if es != [] {
      SortStable(es[1..], k);
      InsertWithKey(es[0], SortEntries(es[1..]), k);
    }
  }

  /** Non-empty directories come before every other kind of entry. */
  lemma DirectoriesFirst(es: seq<Entry>, i: int, j: int)
    requires 0 <= i < j < |SortEntries(es)|
    requires !IsDirectory(SortEntries(es)[i].value)
    ensures !IsDirectory(SortEntries(es)[j].value)
  {
    SortSorted(es);
  }

  /** Among entries of the same kind, the lower-cased keys ascend. */
  lemma KeysAscend(es: seq<Entry>, i: int, j: int)
    requires 0 <= i < j < |SortEntries(es)|
    requires IsDirectory(SortEntries(es)[i].value) == IsDirectory(SortEntries(es)[j].value)
    ensures LexLe(Lower(SortEntries(es)[i].key), Lower(SortEntries(es)[j].key))
  {
    SortSorted(es);
  }

  /** The number of entries an entry stands for, itself included. */
  function EntrySize(e: Entry): nat
  {
    1 + (if e.value.Dir? then Size(e.value.entries) else 0)
  }

  /** The nesting levels an entry stands for, its own included. */
  function EntryHeight(e: Entry): nat
  {
    1 + (if e.value.Dir? then Height(e.value.entries) else 0)
  }

  lemma {:induction false} InsertMeasures(e: Entry, s: seq<Entry>)
    ensures Size(Insert(e, s)) == EntrySize(e) + Size(s)
    ensures Height(Insert(e, s)) == if EntryHeight(e) >= Height(s) then EntryHeight(e) else Height(s)
  {
    if s != [] && !KeyLe(KeyOf(e), KeyOf(s[0])) {
      InsertMeasures(e, s[1..]);
    }
  }

  /** Sorting keeps the number of entries and the height. */
  lemma {:induction false} SortMeasures(es: seq<Entry>)
    ensures Size(SortEntries(es)) == Size(es)
    ensures Height(SortEntries(es)) == Height(es)
  {
    if es != [] {
      SortMeasures(es[1..]);
      InsertMeasures(es[0], SortEntries(es[1..]));
    }
  }
}
