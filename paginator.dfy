/** Splitting the tree lines into embed-sized chunks: each line is clipped
    to `MaxContentChars`, lines are packed greedily so that a chunk's
    newline-join stays within the limit, at most `MaxEmbeds` chunks are
    kept with a notice on the last, and a file is sent instead when some
    chunk would not fit an embed field. */
module Paginator {
  import opened Text

  /** Discord's embed field limit, less a safety margin of 15. */
  const MaxFieldValue: nat := 1024 - 15
  const MaxContentChars: nat := if 750 <= MaxFieldValue then 750 else MaxFieldValue
  const MaxEmbeds: nat := 4
  const TruncMsg: string := "\n\n… (Output truncated by embed limit)"

  /** `line[:MAX_CONTENT_CHARS - 3] + "..."` for a line over the limit. */
  function ClipLine(line: string): (r: string)
    ensures |r| <= MaxContentChars
    ensures |line| <= MaxContentChars ==> r == line
    ensures |line| > MaxContentChars ==> r == line[..MaxContentChars - 3] + "..." && |r| == MaxContentChars
  {
    if |line| > MaxContentChars then line[..MaxContentChars - 3] + "..." else line
  }

  function ClipAll(lines: seq<string>): (r: seq<string>)
    ensures |r| == |lines| && forall i :: 0 <= i < |lines| ==> r[i] == ClipLine(lines[i])
  {
    seq(|lines|, i requires 0 <= i < |lines| => ClipLine(lines[i]))
  }

  /** The running `current_len` of a chunk: one per line for its newline. */
  function GroupLen(g: seq<string>): nat
  {
    if g == [] then 0 else |g[0]| + 1 + GroupLen(g[1..])
  }

  lemma {:induction false} GroupLenAppend(g: seq<string>, line: string)
    ensures GroupLen(g + [line]) == GroupLen(g) + |line| + 1
  {
    if g != [] {
      GroupLenAppend(g[1..], line);
      assert (g + [line])[1..] == g[1..] + [line];
    } else {
      assert [line][1..] == [];
    }
  }

  /** A chunk's text is one character shorter than its running length. */
  lemma {:induction false} JoinLength(g: seq<string>)
    requires g != []
    ensures |Join("\n", g)| == GroupLen(g) - 1
  {
    if |g| > 1 {
      JoinLength(g[1..]);
    }
  }

  /** The chunking loop from the current chunk `group`, of running length
      `curLen`, over the remaining clipped lines: a chunk is closed before
      a line that would take it over the limit. */
  function PackFrom(ls: seq<string>, group: seq<string>, curLen: nat): seq<seq<string>>
    decreases |ls|
  {
    if ls == [] then (if group != [] then [group] else [])
    else if curLen + |ls[0]| + 1 > MaxContentChars then [group] + PackFrom(ls[1..], [ls[0]], |ls[0]| + 1)
    else PackFrom(ls[1..], group + [ls[0]], curLen + |ls[0]| + 1)
  }

  /** The chunks' lines, as the loop leaves them. */
  function Pack(lines: seq<string>): seq<seq<string>>
  {
    PackFrom(ClipAll(lines), [], 0)
  }

  function JoinEach(gs: seq<seq<string>>): (r: seq<string>)
    ensures |r| == |gs| && forall i :: 0 <= i < |gs| ==> r[i] == Join("\n", gs[i])
  {
    seq(|gs|, i requires 0 <= i < |gs| => Join("\n", gs[i]))
  }

  /** The chunk texts. */
  function Chunks(lines: seq<string>): seq<string>
  {
    JoinEach(Pack(lines))
  }

  function Flatten(gs: seq<seq<string>>): seq<string>
  {
    if gs == [] then [] else gs[0] + Flatten(gs[1..])
  }

  /** Packing neither drops, duplicates nor reorders a line. */
  lemma {:induction false} PackFromFlatten(ls: seq<string>, group: seq<string>, curLen: nat)
    ensures Flatten(PackFrom(ls, group, curLen)) == group + ls
    decreases |ls|
  {
    if ls == [] {
      assert group + ls == group;
      if group != [] {
        assert Flatten([group]) == group + Flatten([]);
      }
    } else if curLen + |ls[0]| + 1 > MaxContentChars {
      PackFromFlatten(ls[1..], [ls[0]], |ls[0]| + 1);
      assert ls == [ls[0]] + ls[1..];
      assert ([group] + PackFrom(ls[1..], [ls[0]], |ls[0]| + 1))[1..] == PackFrom(ls[1..], [ls[0]], |ls[0]| + 1);
    } else {
      PackFromFlatten(ls[1..], group + [ls[0]], curLen + |ls[0]| + 1);
      assert ls == [ls[0]] + ls[1..];
    }
  }

  /** The chunks' lines, concatenated, are the clipped lines in order. */
  lemma PackFlatten(lines: seq<string>)
    ensures Flatten(Pack(lines)) == ClipAll(lines)
  {
    PackFromFlatten(ClipAll(lines), [], 0);
  }

  /** Every chunk built from lines within the limit joins within the limit. */
  lemma {:induction false} PackFromBound(ls: seq<string>, group: seq<string>, curLen: nat)
    requires curLen == GroupLen(group)
    requires group == [] || GroupLen(group) <= MaxContentChars + 1
    requires forall i :: 0 <= i < |ls| ==> |ls[i]| <= MaxContentChars
    ensures forall g :: g in PackFrom(ls, group, curLen) ==> g == [] || GroupLen(g) <= MaxContentChars + 1
    decreases |ls|
  {
    if ls != [] {
      var line := ls[0];
      assert GroupLen([line]) == |line| + 1;
      if curLen + |line| + 1 <= MaxContentChars {
        GroupLenAppend(group, line);
      }
      PackFromBound(ls[1..], if curLen + |line| + 1 > MaxContentChars then [line] else group + [line],
        if curLen + |line| + 1 > MaxContentChars then |line| + 1 else curLen + |line| + 1);
    }
  }

  /** No chunk's text is longer than `MaxContentChars`. */
  lemma ChunkBound(lines: seq<string>)
    ensures forall c :: c in Chunks(lines) ==> |c| <= MaxContentChars
  {
    var gs := Pack(lines);
    PackFromBound(ClipAll(lines), [], 0);
    forall c | c in Chunks(lines) ensures |c| <= MaxContentChars {
      var i :| 0 <= i < |gs| && Chunks(lines)[i] == c;
      assert gs[i] in gs;
      if gs[i] != [] {
        JoinLength(gs[i]);
      }
    }
  }

  /** From a non-empty current chunk every chunk is non-empty, and the
      first one starts with the current chunk's first line. */
  lemma {:induction false} PackFromNonEmpty(ls: seq<string>, group: seq<string>, curLen: nat)
    requires group != []
    ensures var r := PackFrom(ls, group, curLen);
      r != [] && (forall i :: 0 <= i < |r| ==> r[i] != []) && r[0][0] == group[0]
    decreases |ls|
  {
    if ls != [] {
      var line := ls[0];
      if curLen + |line| + 1 > MaxContentChars {
        PackFromNonEmpty(ls[1..], [line], |line| + 1);
      } else {
        PackFromNonEmpty(ls[1..], group + [line], curLen + |line| + 1);
      }
    }
  }

  /** Only the first chunk can be empty, and it is exactly when the first
      clipped line is `MaxContentChars` long. */
  lemma OnlyFirstChunkEmpty(lines: seq<string>)
    ensures forall i :: 0 < i < |Pack(lines)| ==> Pack(lines)[i] != []
    ensures (|Pack(lines)| > 0 && Pack(lines)[0] == []) <==> (lines != [] && |ClipLine(lines[0])| == MaxContentChars)
  {
    var ls := ClipAll(lines);
    if ls != [] {
      var line := ls[0];
      assert [] + [line] == [line];
      PackFromNonEmpty(ls[1..], [line], |line| + 1);
      var rest := PackFrom(ls[1..], [line], |line| + 1);
      if |line| + 1 > MaxContentChars {
        assert Pack(lines) == [[]] + rest;
        forall i | 0 < i < |Pack(lines)| ensures Pack(lines)[i] != [] {
          assert Pack(lines)[i] == rest[i - 1];
        }
      } else {
        assert Pack(lines) == rest;
      }
    }
  }

  /** Chunk `a` was closed before `b` because `b`'s first line would not fit. */
  predicate ClosedBefore(a: seq<string>, b: seq<string>)
  {
    b != [] && GroupLen(a) + |b[0]| + 1 > MaxContentChars
  }

  /** Every chunk but the last was closed for the line that starts the next. */
  predicate Greedy(r: seq<seq<string>>)
  {
    forall j :: 0 < j < |r| ==> ClosedBefore(r[j - 1], r[j])
  }

  lemma {:induction false} PackFromGreedy(ls: seq<string>, group: seq<string>, curLen: nat)
    requires curLen == GroupLen(group)
    ensures Greedy(PackFrom(ls, group, curLen))
    decreases |ls|
  {
    if ls != [] {
      var line := ls[0];
      assert GroupLen([line]) == |line| + 1;
      if curLen + |line| + 1 > MaxContentChars {
        var rest := PackFrom(ls[1..], [line], |line| + 1);
        PackFromGreedy(ls[1..], [line], |line| + 1);
        PackFromNonEmpty(ls[1..], [line], |line| + 1);
        var r := [group] + rest;
        forall j | 0 < j < |r| ensures ClosedBefore(r[j - 1], r[j]) {
          assert r[j] == rest[j - 1];
          if j > 1 {
            assert r[j - 1] == rest[j - 2];
          }
        }
      } else {
        GroupLenAppend(group, line);
        PackFromGreedy(ls[1..], group + [line], curLen + |line| + 1);
      }
    }
  }

  /** A chunk is closed only when the next line would take it over the limit. */
  lemma PackGreedy(lines: seq<string>)
    ensures Greedy(Pack(lines))
  {
    PackFromGreedy(ClipAll(lines), [], 0);
  }

  /** Every line joined to a chunk after its first fitted: a chunk of two or
      more lines stays within the limit. */
  lemma {:induction false} PackFromFits(ls: seq<string>, group: seq<string>, curLen: nat)
    requires curLen == GroupLen(group)
    requires |group| >= 2 ==> curLen <= MaxContentChars
    ensures forall g :: g in PackFrom(ls, group, curLen) && |g| >= 2 ==> GroupLen(g) <= MaxContentChars
    decreases |ls|
  {
    if ls != [] {
      var line := ls[0];
      assert GroupLen([line]) == |line| + 1;
      if curLen + |line| + 1 > MaxContentChars {
        PackFromFits(ls[1..], [line], |line| + 1);
      } else {
        GroupLenAppend(group, line);
        PackFromFits(ls[1..], group + [line], curLen + |line| + 1);
      }
    }
  }

  /** A line that would take the running length over the limit always starts
      a new chunk: no chunk of two or more lines has a running length over
      `MaxContentChars`, so its text is shorter than that. With `PackGreedy`
      and `PackFlatten` this pins the packing. */
  lemma PackFits(lines: seq<string>)
    ensures forall g :: g in Pack(lines) && |g| >= 2 ==> GroupLen(g) <= MaxContentChars
    ensures forall i :: 0 <= i < |Pack(lines)| && |Pack(lines)[i]| >= 2 ==> |Chunks(lines)[i]| < MaxContentChars
  {
    PackFromFits(ClipAll(lines), [], 0);
    forall i | 0 <= i < |Pack(lines)| && |Pack(lines)[i]| >= 2 ensures |Chunks(lines)[i]| < MaxContentChars {
      assert Pack(lines)[i] in Pack(lines);
      JoinLength(Pack(lines)[i]);
    }
  }

  /** Two lines of 374 and 375 characters would join to exactly 750, but the
      running length 751 closes the first chunk before the second line. */
  lemma SplitsAtRunningLength(a: string, b: string)
    requires |a| == 374 && |b| == 375
    ensures Pack([a, b]) == [[a], [b]]
  {
    assert MaxContentChars == 750;
    var ls := ClipAll([a, b]);
    assert ls == [a, b];
    assert ls[1..] == [b] && [b][1..] == [];
    assert [] + [a] == [a];
    assert PackFrom(ls, [], 0) == PackFrom([b], [a], |a| + 1);
    assert PackFrom([b], [a], |a| + 1) == [[a]] + PackFrom([], [b], |b| + 1);
  }

  lemma JoinEachAppend(a: seq<seq<string>>, b: seq<seq<string>>)
    ensures JoinEach(a + b) == JoinEach(a) + JoinEach(b)
  {
    assert forall i :: 0 <= i < |a + b| ==> JoinEach(a + b)[i] == (JoinEach(a) + JoinEach(b))[i];
  }

  /** The chunking loop's variables: the chunks closed so far (as lines),
      `current_chunk` and `current_len`. */
  datatype PackState = PackState(closed: seq<seq<string>>, group: seq<string>, curLen: nat)

  /** One turn of the chunking loop on a clipped line. */
  function Step(st: PackState, line: string): PackState
  {
    if st.curLen + |line| + 1 > MaxContentChars then PackState(st.closed + [st.group], [line], |line| + 1)
    else PackState(st.closed, st.group + [line], st.curLen + |line| + 1)
  }

  /** The loop's variables after the first `k` clipped lines. */
  function StateAfter(ls: seq<string>, k: nat): PackState
    requires k <= |ls|
  {
    if k == 0 then PackState([], [], 0) else Step(StateAfter(ls, k - 1), ls[k - 1])
  }

  /** At every turn, the closed chunks followed by the packing of what is
      left from the open chunk are the whole packing. */
  lemma {:induction false} StateInvariant(ls: seq<string>, k: nat)
    requires k <= |ls|
    ensures var st := StateAfter(ls, k);
      st.closed + PackFrom(ls[k..], st.group, st.curLen) == PackFrom(ls, [], 0)
  {
    if k > 0 {
      StateInvariant(ls, k - 1);
      var st := StateAfter(ls, k - 1);
      assert ls[k - 1..] == [ls[k - 1]] + ls[k..];
      StepKeeps(st, ls[k - 1], ls[k..]);
    } else {
      assert ls[0..] == ls;
    }
  }

  /** One step of the loop moves one line from the input into the state. */
  lemma StepKeeps(st: PackState, line: string, rest: seq<string>)
    ensures var next := Step(st, line);
      next.closed + PackFrom(rest, next.group, next.curLen) == st.closed + PackFrom([line] + rest, st.group, st.curLen)
  {
    assert ([line] + rest)[0] == line && ([line] + rest)[1..] == rest;
    if st.curLen + |line| + 1 > MaxContentChars {
      var tail := PackFrom(rest, [line], |line| + 1);
      assert (st.closed + [st.group]) + tail == st.closed + ([st.group] + tail);
    }
  }

  /** After the loop the open chunk, if any, is the last one. */
  lemma ChunkEnd(closed: seq<seq<string>>, group: seq<string>, curLen: nat, goal: seq<seq<string>>)
    requires closed + PackFrom([], group, curLen) == goal
    ensures JoinEach(goal) == JoinEach(closed) + (if group != [] then [Join("\n", group)] else [])
  {
    if group != [] {
      JoinEachAppend(closed, [group]);
    } else {
      assert closed + [] == closed;
    }
  }

  /** The chunking loop of the command. */
  method ChunkLines(treeLines: seq<string>) returns (chunks: seq<string>)
    ensures chunks == Chunks(treeLines)
  {
    ghost var ls := ClipAll(treeLines);
    ghost var closed: seq<seq<string>> := [];
    chunks := [];
    var currentChunk: seq<string> := [];
    var currentLen: nat := 0;
    for k := 0 to |treeLines|
      invariant PackState(closed, currentChunk, currentLen) == StateAfter(ls, k)
      invariant chunks == JoinEach(closed)
    {
      var line := treeLines[k];
      if |line| > MaxContentChars {
        line := line[..MaxContentChars - 3] + "...";
      }
      assert line == ls[k];
      if currentLen + |line| + 1 > MaxContentChars {
        // the chunk is closed and the line starts the next one
        JoinEachAppend(closed, [currentChunk]);
        chunks := chunks + [Join("\n", currentChunk)];
        closed := closed + [currentChunk];
        currentChunk := [line];
        currentLen := |line| + 1;
      } else {
        currentChunk := currentChunk + [line];
        currentLen := currentLen + |line| + 1;
      }
    }
    StateInvariant(ls, |ls|);
    assert ls[|ls|..] == [];
    ChunkEnd(closed, currentChunk, currentLen, Pack(treeLines));
    if currentChunk != [] {
      chunks := chunks + [Join("\n", currentChunk)];
    }
  }

  /** The cap on the number of chunks: the first `MaxEmbeds` are kept and
      the notice is appended to the last, cutting it short when needed. */
  function Capped(chunks: seq<string>): (r: seq<string>)
    ensures |r| == if |chunks| <= MaxEmbeds then |chunks| else MaxEmbeds
    ensures forall i :: 0 <= i < |r| && i != MaxEmbeds - 1 ==> r[i] == chunks[i]
  {
    if |chunks| <= MaxEmbeds then chunks
    else
      var kept := chunks[..MaxEmbeds];
      var last := kept[MaxEmbeds - 1];
      kept[MaxEmbeds - 1 := CapLast(last)]
  }

  /** The rewrite of the last kept chunk. */
  function CapLast(last: string): (r: string)
    ensures |r| <= MaxContentChars
    ensures |r| >= |TruncMsg| && r[|r| - |TruncMsg|..] == TruncMsg
    ensures |last| + |TruncMsg| <= MaxContentChars ==> r == last + TruncMsg
    ensures |last| + |TruncMsg| > MaxContentChars ==>
      r == last[..MaxContentChars - |TruncMsg| - 3] + "..." + TruncMsg
  {
    assert |TruncMsg| == 37;
    if |last| + |TruncMsg| > MaxContentChars then
      var available := if MaxContentChars >= |TruncMsg| + 3 then MaxContentChars - |TruncMsg| - 3 else 0;
      var cut := if available <= |last| then last[..available] else last;
      cut + "..." + TruncMsg
    else last + TruncMsg
  }

  /** The cap keeps short output and otherwise exactly `MaxEmbeds` chunks,
      the first ones untouched and the last one ending with the notice. */
  lemma CappedShape(chunks: seq<string>)
    ensures |chunks| <= MaxEmbeds ==> Capped(chunks) == chunks
    ensures |chunks| > MaxEmbeds ==>
      |Capped(chunks)| == MaxEmbeds
      && Capped(chunks)[..MaxEmbeds - 1] == chunks[..MaxEmbeds - 1]
      && Capped(chunks)[MaxEmbeds - 1] == CapLast(chunks[MaxEmbeds - 1])
    ensures (forall c :: c in chunks ==> |c| <= MaxContentChars) ==>
      forall c :: c in Capped(chunks) ==> |c| <= MaxContentChars
  {
    if |chunks| > MaxEmbeds {
      var r := Capped(chunks);
      forall c | c in r ensures (forall c :: c in chunks ==> |c| <= MaxContentChars) ==> |c| <= MaxContentChars {
        var i :| 0 <= i < |r| && r[i] == c;
        if i < MaxEmbeds - 1 {
          assert r[i] == chunks[i];
        }
      }
    }
  }

  /** The cap as the command writes it: slice, then overwrite the last chunk. */
  method CapChunks(chunks: seq<string>) returns (capped: seq<string>)
    ensures capped == Capped(chunks)
  {
    capped := chunks;
    if |capped| > MaxEmbeds {
      capped := capped[..MaxEmbeds];
      var last := capped[|capped| - 1];
      if |last| + |TruncMsg| > MaxContentChars {
        var available := if MaxContentChars >= |TruncMsg| + 3 then MaxContentChars - |TruncMsg| - 3 else 0;
        var cut := if available <= |last| then last[..available] else last;
        capped := capped[|capped| - 1 := cut + "..." + TruncMsg];
      } else {
        capped := capped[|capped| - 1 := last + TruncMsg];
      }
    }
  }

  /** `any(len(c) + 10 > MAX_FIELD_VALUE for c in chunks)`. */
  predicate NeedsFileFallback(chunks: seq<string>)
  {
    exists i :: 0 <= i < |chunks| && |chunks[i]| + 10 > MaxFieldValue
  }

  /** The capped chunks of any output fit an embed field, so the file
      fallback is never taken. */
  lemma NoFileFallback(lines: seq<string>)
    ensures !NeedsFileFallback(Capped(Chunks(lines)))
  {
    ChunkBound(lines);
    CappedShape(Chunks(lines));
    var r := Capped(Chunks(lines));
    forall i | 0 <= i < |r| ensures |r[i]| + 10 <= MaxFieldValue {
      assert r[i] in r;
    }
  }
}
