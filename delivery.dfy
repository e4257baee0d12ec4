/** Sending the chunks: one embed per chunk, in order. When the first send
    fails the whole, unclipped tree goes out as a file instead; when a
    later one fails, the chunks from the failed one on go out as a file,
    separated by part breaks, and nothing more is sent. */
module Delivery {
  import opened Text
  import opened Wrappers

  /** What reaches the channel: a text reply, an embed carrying chunk
      `part` of `total`, or a text with an attached file. */
  datatype Message =
    | Say(text: string)
    | Embed(part: nat, total: nat, chunk: string)
    | Upload(text: string, fileName: string, content: string)

  const PartBreak: string := "\n\n--- Part Break ---\n\n"
  const FullFileNotice: string := "\U{1F4C1} Unable to send embeds reliably; sending full tree as a file."
  const RemainingNotice: string :=
    "\U{1F4C1} Part of the output couldn't be sent as embeds \U{2014} sending remaining parts as a single .txt file."

  /** `s.replace(a, b)` for single characters. */
  function ReplaceChar(s: string, a: char, b: char): (r: string)
    ensures |r| == |s|
    ensures forall i :: 0 <= i < |s| ==> r[i] == (if s[i] == a then b else s[i])
  {
    seq(|s|, i requires 0 <= i < |s| => if s[i] == a then b else s[i])
  }

  /** The name of the file holding the whole tree. */
  function FullFileName(owner: string, name: string, branch: string, subpath: string): string
  {
    owner + "-" + name + "-tree-" + branch + (if subpath != "" then "-" + ReplaceChar(subpath, '/', '_') else "") + ".txt"
  }

  /** The name of the file holding the chunks that were not sent. */
  function RemainingFileName(owner: string, name: string, branch: string): string
  {
    owner + "-" + name + "-tree-" + branch + "-remaining.txt"
  }

  function RemainingHeader(owner: string, name: string, branch: string, subpath: string): string
  {
    "Repository tree for " + owner + "/" + name + " (branch: " + branch + ")\nPath: /" + subpath + "\n\n"
  }

  function NoContentText(owner: string, name: string): string
  {
    "\U{274C} No content to display for `" + owner + "/" + name + "`."
  }

  /** The first send from `from` on, below `n`, that fails. */
  function FirstFailure(sendOk: nat -> bool, from: nat, n: nat): (r: Option<nat>)
    ensures r.Some? ==> from <= r.value < n && !sendOk(r.value) && forall i :: from <= i < r.value ==> sendOk(i)
    ensures r.None? ==> forall i :: from <= i < n ==> sendOk(i)
    decreases n - from
  {
    if from >= n then None
    else if !sendOk(from) then Some(from)
    else FirstFailure(sendOk, from + 1, n)
  }

  /** The embeds for the first `k` chunks, numbered from 1. */
  function EmbedsOf(chunks: seq<string>, k: nat): (r: seq<Message>)
    requires k <= |chunks|
    ensures |r| == k && forall i :: 0 <= i < k ==> r[i] == Embed(i + 1, |chunks|, chunks[i])
  {
    seq(k, i requires 0 <= i < k => Embed(i + 1, |chunks|, chunks[i]))
  }

  /** The messages delivered for the chunks, given which sends succeed. */
  function Delivered(chunks: seq<string>, treeLines: seq<string>, owner: string, name: string,
                     branch: string, subpath: string, sendOk: nat -> bool): seq<Message>
  {
    if chunks == [] then [Say(NoContentText(owner, name))]
    else match FirstFailure(sendOk, 0, |chunks|)
      case None => EmbedsOf(chunks, |chunks|)
      case Some(k) =>
        if k == 0 then [Upload(FullFileNotice, FullFileName(owner, name, branch, subpath), Join("\n", treeLines))]
        else EmbedsOf(chunks, k) + [Upload(RemainingNotice, RemainingFileName(owner, name, branch),
                                          RemainingHeader(owner, name, branch, subpath) + Join(PartBreak, chunks[k..]))]
  }

  /** The chunks that went out as embeds, in order. */
  function InlineChunks(msgs: seq<Message>): seq<string>
  {
    if msgs == [] then []
    else (if msgs[0].Embed? then [msgs[0].chunk] else []) + InlineChunks(msgs[1..])
  }

  lemma {:induction false} InlineChunksOfEmbeds(chunks: seq<string>, k: nat)
    requires k <= |chunks|
    ensures InlineChunks(EmbedsOf(chunks, k)) == chunks[..k]
  {
    if k > 0 {
      var e := EmbedsOf(chunks, k);
      InlineChunksOfEmbeds(chunks, k - 1);
      assert e == EmbedsOf(chunks, k - 1) + [e[k - 1]];
      InlineChunksAppend(EmbedsOf(chunks, k - 1), [e[k - 1]]);
      assert chunks[..k] == chunks[..k - 1] + [chunks[k - 1]];
    }
  }

  lemma {:induction false} InlineChunksAppend(a: seq<Message>, b: seq<Message>)
    ensures InlineChunks(a + b) == InlineChunks(a) + InlineChunks(b)
  {
    if a != [] {
      InlineChunksAppend(a[1..], b);
      assert (a + b)[1..] == a[1..] + b;
    } else {
      assert a + b == b;
    }
  }

  /** Every chunk is delivered exactly once and in order: all as embeds,
      or those before the failed send as embeds and the rest in the
      file, or (when the very first send fails) the whole tree as a file. */
  lemma DeliveryCovers(chunks: seq<string>, treeLines: seq<string>, owner: string, name: string,
                       branch: string, subpath: string, sendOk: nat -> bool)
    requires chunks != []
    ensures var sent := Delivered(chunks, treeLines, owner, name, branch, subpath, sendOk);
      match FirstFailure(sendOk, 0, |chunks|)
      case None => InlineChunks(sent) == chunks
      case Some(k) =>
        if k == 0 then InlineChunks(sent) == [] && |sent| == 1 && sent[0].content == Join("\n", treeLines)
        else
          InlineChunks(sent) == chunks[..k] && InlineChunks(sent) + chunks[k..] == chunks
          && sent[|sent| - 1].content == RemainingHeader(owner, name, branch, subpath) + Join(PartBreak, chunks[k..])
  {
    var sent := Delivered(chunks, treeLines, owner, name, branch, subpath, sendOk);
    match FirstFailure(sendOk, 0, |chunks|)
    case None =>
      InlineChunksOfEmbeds(chunks, |chunks|);
      assert chunks[..|chunks|] == chunks;
    case Some(k) =>
      if k > 0 {
        var up := Upload(RemainingNotice, RemainingFileName(owner, name, branch),
                         RemainingHeader(owner, name, branch, subpath) + Join(PartBreak, chunks[k..]));
        InlineChunksOfEmbeds(chunks, k);
        InlineChunksAppend(EmbedsOf(chunks, k), [up]);
        assert chunks[..k] + chunks[k..] == chunks;
      }
  }

  /** The full-tree file splits back into the tree lines when no line holds a
      newline; a repository path with a newline in it breaks that. */
  lemma FullFileLines(treeLines: seq<string>)
    requires treeLines != []
    requires forall i :: 0 <= i < |treeLines| ==> '\n' !in treeLines[i]
    ensures Split(Join("\n", treeLines), '\n') == treeLines
  {
    SplitJoin(treeLines, '\n');
  }

  lemma FirstFailureSkip(sendOk: nat -> bool, from: nat, n: nat)
    requires from < n && sendOk(from)
    ensures FirstFailure(sendOk, from, n) == FirstFailure(sendOk, from + 1, n)
  {
  }

  /** The send loop: the first embed, then the others until one fails. */
  method Deliver(chunks: seq<string>, treeLines: seq<string>, owner: string, name: string,
                 branch: string, subpath: string, sendOk: nat -> bool) returns (sent: seq<Message>)
    ensures sent == Delivered(chunks, treeLines, owner, name, branch, subpath, sendOk)
  {
    if chunks == [] {
      return [Say(NoContentText(owner, name))];
    }
    if !sendOk(0) {
      return [Upload(FullFileNotice, FullFileName(owner, name, branch, subpath), Join("\n", treeLines))];
    }
    FirstFailureSkip(sendOk, 0, |chunks|);
    sent := [Embed(1, |chunks|, chunks[0])];
    for i := 1 to |chunks|
      invariant sent == EmbedsOf(chunks, i)
      invariant FirstFailure(sendOk, 0, |chunks|) == FirstFailure(sendOk, i, |chunks|)
    {
      if !sendOk(i) {
        var content := RemainingHeader(owner, name, branch, subpath) + Join(PartBreak, chunks[i..]);
        sent := sent + [Upload(RemainingNotice, RemainingFileName(owner, name, branch), content)];
        return;
      }
      FirstFailureSkip(sendOk, i, |chunks|);
      sent := sent + [Embed(i + 1, |chunks|, chunks[i])];
    }
  }
}
