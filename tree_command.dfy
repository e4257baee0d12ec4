/** The `/github_tree` command from input to reply: resolve the reference,
    fetch the repository and its recursive tree, gate and filter the
    paths, render them, chunk the lines and deliver them. The network is a
    pair of parameters mapping each API URL to the outcome of the request;
    which embed sends succeed is the parameter `sendOk`. */
module TreeCommand {
  import opened Text
  import opened Wrappers
  import opened GithubUtils
  import opened RepoRef
  import opened PathGate
  import opened TreeRender
  import opened Paginator
  import opened Delivery

  /** The repository JSON: an object, with or without `default_branch`, or something else. */
  datatype RepoJson = RepoObject(defaultBranch: Option<string>) | OtherRepoJson

  /** The tree JSON: an object, with or without a `tree` list, or something else. */
  datatype TreeJson = TreeObject(tree: Option<seq<TreeItem>>) | OtherTreeJson

  const InvalidUrlText: string := "\U{274C} Invalid GitHub URL."
  const InvalidFormatText: string := "\U{274C} Invalid repository format. Use `owner/repo` or a GitHub URL."
  const RepoNotFoundText: string := "\U{274C} Repository not found."
  const RepoRateLimitedText: string := "\U{274C} GitHub API rate limit exceeded. Try again later or use a token."
  const UnexpectedRepoText: string := "\U{274C} Unexpected response from GitHub API."
  const TreeRateLimitedText: string := "\U{274C} GitHub API rate limit exceeded while fetching the tree."
  const UnexpectedTreeText: string := "\U{274C} Failed to fetch repository tree (unexpected API response)."

  function TreeNotFoundText(branch: string): string
  {
    "\U{274C} Branch `" + branch + "` or repository tree not found."
  }

  function EmptyRepositoryText(owner: string, name: string, branch: string): string
  {
    "\U{274C} The repository `" + owner + "/" + name + "` appears empty on branch `" + branch + "`."
  }

  function TooLargeText(owner: string, name: string, count: nat, branch: string): string
  {
    "\U{26A0}\U{FE0F} **Repository Too Large:** `" + owner + "/" + name + "` has **" + NatToString(count)
    + "** files/directories, exceeding the limit of **" + NatToString(MaxPathLimit) + "** items.\n"
    + "Try specifying a smaller subpath, e.g. `" + owner + "/" + name + "/tree/" + branch + "/src`."
  }

  function SubpathNotFoundText(subpath: string): string
  {
    "\U{274C} Subpath `" + subpath + "` not found or is a dead end."
  }

  function NoPathsText(owner: string, name: string, subpath: string): string
  {
    "\U{274C} No files or directories found in `" + owner + "/" + name + "/" + subpath + "`."
  }

  function LargeTreeNotice(fileName: string): string
  {
    "\U{1F4C1} Repository tree is large \U{2014} sending as a file: `" + fileName + "`"
  }

  /** Decimal digits of a count, as an f-string prints it. */
  function NatToString(n: nat): (s: string)
    ensures |s| >= 1 && forall i :: 0 <= i < |s| ==> '0' <= s[i] <= '9'
  {
    if n < 10 then [Digit(n)] else NatToString(n / 10) + [Digit(n % 10)]
  }

  function Digit(d: nat): (c: char)
    requires d < 10
    ensures '0' <= c <= '9'
  {
    ('0' as int + d) as char
  }

  /** The number a string of decimal digits denotes. */
  function DigitsValue(s: string): nat
    requires forall i :: 0 <= i < |s| ==> '0' <= s[i] <= '9'
  {
    if s == [] then 0 else DigitsValue(s[..|s| - 1]) * 10 + (s[|s| - 1] as int - '0' as int)
  }

  /** The printed count reads back as the count. */
  lemma {:induction false} NatToStringValue(n: nat)
    ensures DigitsValue(NatToString(n)) == n
  {
    if n >= 10 {
      NatToStringValue(n / 10);
      var s := NatToString(n);
      assert s[..|s| - 1] == NatToString(n / 10);
    }
  }

  function RepoApiUrl(owner: string, name: string): string
  {
    "https://api.github.com/repos/" + owner + "/" + name
  }

  function TreeApiUrl(owner: string, name: string, branch: string): string
  {
    "https://api.github.com/repos/" + owner + "/" + name + "/git/trees/" + branch + "?recursive=1"
  }

  /** `branch or repo_data.get("default_branch", "main")`: an empty branch
      from the link counts as none. */
  function EffectiveBranch(fromLink: Option<string>, defaultBranch: Option<string>): (b: string)
    ensures fromLink.Some? && fromLink.value != "" ==> b == fromLink.value
    ensures (fromLink.None? || fromLink.value == "") ==> b == defaultBranch.GetOr("main")
  {
    if fromLink.Some? && fromLink.value != "" then fromLink.value else defaultBranch.GetOr("main")
  }

  /** The reply once the listing is in hand. */
  function ListingReply(owner: string, name: string, branch: string, subpath: string,
                        items: seq<TreeItem>, m: int, sendOk: nat -> bool): seq<Message>
  {
    match GatePaths(items)
    case Err(EmptyListing) => [Say(EmptyRepositoryText(owner, name, branch))]
    case Err(TooLarge(n)) => [Say(TooLargeText(owner, name, n, branch))]
    case Ok(all) =>
      match FilterSubpath(all, subpath)
      case Err(_) => [Say(SubpathNotFoundText(subpath))]
      case Ok(paths) =>
        if paths == [] then [Say(NoPathsText(owner, name, subpath))]
        else
          var lines := TreeLines(owner, name, branch, subpath, paths, m);
          var chunks := Capped(Chunks(lines));
          if NeedsFileFallback(chunks) then
            var fileName := FullFileName(owner, name, branch, subpath);
            [Upload(LargeTreeNotice(fileName), fileName, Join("\n", lines))]
          else Delivered(chunks, lines, owner, name, branch, subpath, sendOk)
  }

  /** The reply to `/github_tree repo max_depth`. */
  function TreeReply(repo: string, m: int, sessionOpen: bool,
                     repoFetch: string -> HttpOutcome<RepoJson>, treeFetch: string -> HttpOutcome<TreeJson>,
                     sendOk: nat -> bool): seq<Message>
  {
    match ParseReference(repo)
    case Err(InvalidUrl) => [Say(InvalidUrlText)]
    case Err(InvalidFormat) => [Say(InvalidFormatText)]
    case Ok(ref) =>
      var repoData: ApiResult<RepoJson> := GithubRequest(sessionOpen, repoFetch(RepoApiUrl(ref.owner, ref.name)));
      match repoData
      case NotFound => [Say(RepoNotFoundText)]
      case RateLimited => [Say(RepoRateLimitedText)]
      case NoResult => [Say(UnexpectedRepoText)]
      case Json(OtherRepoJson) => [Say(UnexpectedRepoText)]
      case Json(RepoObject(defaultBranch)) =>
        var branch := EffectiveBranch(ref.branch, defaultBranch);
        var treeData: ApiResult<TreeJson> := GithubRequest(sessionOpen, treeFetch(TreeApiUrl(ref.owner, ref.name, branch)));
        match treeData
        case NotFound => [Say(TreeNotFoundText(branch))]
        case RateLimited => [Say(TreeRateLimitedText)]
        case NoResult => [Say(UnexpectedTreeText)]
        case Json(OtherTreeJson) => [Say(UnexpectedTreeText)]
        case Json(TreeObject(None)) => [Say(UnexpectedTreeText)]
        case Json(TreeObject(Some(items))) =>
          ListingReply(ref.owner, ref.name, branch, ref.subpath, items, m, sendOk)
  }

  /** The command body, step by step, with an early reply at each failure. */
  method GithubTree(repo: string, m: int, sessionOpen: bool,
                    repoFetch: string -> HttpOutcome<RepoJson>, treeFetch: string -> HttpOutcome<TreeJson>,
                    sendOk: nat -> bool) returns (reply: seq<Message>)
    ensures reply == TreeReply(repo, m, sessionOpen, repoFetch, treeFetch, sendOk)
  {
    var parsed := ParseReference(repo);
    if parsed.Err? {
      return if parsed.error == InvalidUrl then [Say(InvalidUrlText)] else [Say(InvalidFormatText)];
    }
    var owner, name := parsed.value.owner, parsed.value.name;
    var repoData := GithubRequest(sessionOpen, repoFetch(RepoApiUrl(owner, name)));
    if repoData.NotFound? {
      return [Say(RepoNotFoundText)];
    }
    if repoData.RateLimited? {
      return [Say(RepoRateLimitedText)];
    }
    if !(repoData.Json? && repoData.body.RepoObject?) {
      return [Say(UnexpectedRepoText)];
    }
    var branch := EffectiveBranch(parsed.value.branch, repoData.body.defaultBranch);
    var treeData := GithubRequest(sessionOpen, treeFetch(TreeApiUrl(owner, name, branch)));
    if treeData.NotFound? {
      return [Say(TreeNotFoundText(branch))];
    }
    if treeData.RateLimited? {
      return [Say(TreeRateLimitedText)];
    }
    if !(treeData.Json? && treeData.body.TreeObject? && treeData.body.tree.Some?) {
      return [Say(UnexpectedTreeText)];
    }
    reply := ReplyToListing(owner, name, branch, parsed.value.subpath, treeData.body.tree.value, m, sendOk);
  }

  /** The second half of the command body: gate, filter, render, chunk and deliver. */
  method ReplyToListing(owner: string, name: string, branch: string, subpath: string,
                        items: seq<TreeItem>, m: int, sendOk: nat -> bool) returns (reply: seq<Message>)
    ensures reply == ListingReply(owner, name, branch, subpath, items, m, sendOk)
  {
    var gate := GatePaths(items);
    if gate.Err? {
      return if gate.error == EmptyListing then [Say(EmptyRepositoryText(owner, name, branch))]
             else [Say(TooLargeText(owner, name, gate.error.count, branch))];
    }
    var filtered := FilterSubpath(gate.value, subpath);
    if filtered.Err? {
      return [Say(SubpathNotFoundText(subpath))];
    }
    var paths := filtered.value;
    if paths == [] {
      return [Say(NoPathsText(owner, name, subpath))];
    }
    var treeLines := FormatTree(owner, name, branch, subpath, paths, m);
    var chunks := ChunkLines(treeLines);
    chunks := CapChunks(chunks);
    if exists i :: 0 <= i < |chunks| && |chunks[i]| + 10 > MaxFieldValue {
      var fileName := FullFileName(owner, name, branch, subpath);
      return [Upload(LargeTreeNotice(fileName), fileName, Join("\n", treeLines))];
    }
    reply := Deliver(chunks, treeLines, owner, name, branch, subpath, sendOk);
  }

  /** Some line comes out of every non-empty output, so there is always a chunk. */
  lemma ChunksNonEmpty(lines: seq<string>)
    requires lines != []
    ensures Chunks(lines) != [] && Capped(Chunks(lines)) != []
  {
    PackFlatten(lines);
    CappedShape(Chunks(lines));
  }

  /** Delivery always sends something. */
  lemma DeliveredNonEmpty(chunks: seq<string>, treeLines: seq<string>, owner: string, name: string,
                          branch: string, subpath: string, sendOk: nat -> bool)
    ensures |Delivered(chunks, treeLines, owner, name, branch, subpath, sendOk)| >= 1
  {
    if chunks != [] {
      var f := FirstFailure(sendOk, 0, |chunks|);
      if f.None? {
        assert |EmbedsOf(chunks, |chunks|)| == |chunks|;
      }
    }
  }

  lemma ListingReplyNonEmpty(owner: string, name: string, branch: string, subpath: string,
                             items: seq<TreeItem>, m: int, sendOk: nat -> bool)
    ensures |ListingReply(owner, name, branch, subpath, items, m, sendOk)| >= 1
  {
    var g := GatePaths(items);
    if g.Ok? {
      var f := FilterSubpath(g.value, subpath);
      if f.Ok? && f.value != [] {
        var lines := TreeLines(owner, name, branch, subpath, f.value, m);
        DeliveredNonEmpty(Capped(Chunks(lines)), lines, owner, name, branch, subpath, sendOk);
      }
    }
  }

  /** Every invocation answers with at least one message. */
  lemma ReplyNonEmpty(repo: string, m: int, sessionOpen: bool,
                      repoFetch: string -> HttpOutcome<RepoJson>, treeFetch: string -> HttpOutcome<TreeJson>,
                      sendOk: nat -> bool)
    ensures |TreeReply(repo, m, sessionOpen, repoFetch, treeFetch, sendOk)| >= 1
  {
    var parsed := ParseReference(repo);
    if parsed.Ok? {
      var ref := parsed.value;
      var repoData: ApiResult<RepoJson> := GithubRequest(sessionOpen, repoFetch(RepoApiUrl(ref.owner, ref.name)));
      if repoData.Json? && repoData.body.RepoObject? {
        var branch := EffectiveBranch(ref.branch, repoData.body.defaultBranch);
        var treeData: ApiResult<TreeJson> := GithubRequest(sessionOpen, treeFetch(TreeApiUrl(ref.owner, ref.name, branch)));
        if treeData.Json? && treeData.body.TreeObject? && treeData.body.tree.Some? {
          ListingReplyNonEmpty(ref.owner, ref.name, branch, ref.subpath, treeData.body.tree.value, m, sendOk);
        }
      }
    }
  }

  /** With paths to show and every send succeeding, the reply is one
      embed per chunk: between one and `MaxEmbeds` of them, none longer
      than `MaxContentChars`. The "no paths" and "no embeds" replies and
      the file fallback never happen. */
  lemma ListingReplyEmbeds(owner: string, name: string, branch: string, subpath: string,
                           items: seq<TreeItem>, m: int, sendOk: nat -> bool)
    requires GatePaths(items).Ok? && FilterSubpath(GatePaths(items).value, subpath).Ok?
    requires forall i :: 0 <= i < MaxEmbeds ==> sendOk(i)
    ensures var paths := FilterSubpath(GatePaths(items).value, subpath).value;
      var chunks := Capped(Chunks(TreeLines(owner, name, branch, subpath, paths, m)));
      && 1 <= |chunks| <= MaxEmbeds
      && (forall i :: 0 <= i < |chunks| ==> |chunks[i]| <= MaxContentChars)
      && ListingReply(owner, name, branch, subpath, items, m, sendOk) == EmbedsOf(chunks, |chunks|)
  {
    var paths := FilterSubpath(GatePaths(items).value, subpath).value;
    var lines := TreeLines(owner, name, branch, subpath, paths, m);
    var chunks := Capped(Chunks(lines));
    ChunksNonEmpty(lines);
    ChunkBound(lines);
    CappedShape(Chunks(lines));
    NoFileFallback(lines);
    forall i | 0 <= i < |chunks| ensures |chunks[i]| <= MaxContentChars {
      assert chunks[i] in chunks;
    }
    assert FirstFailure(sendOk, 0, |chunks|) == None;
  }

  /** The size gate runs on the whole listing before the subpath filter
      and the depth limit: a listing over `MaxPathLimit` paths gets the same
      reply whatever the subpath, the depth and the sends. */
  lemma TooLargeBeforeFilter(owner: string, name: string, branch: string, subpath1: string, subpath2: string,
                             items: seq<TreeItem>, m1: int, m2: int, sendOk1: nat -> bool, sendOk2: nat -> bool)
    requires |ListedPaths(items)| > MaxPathLimit
    ensures ListingReply(owner, name, branch, subpath1, items, m1, sendOk1)
         == ListingReply(owner, name, branch, subpath2, items, m2, sendOk2)
         == [Say(TooLargeText(owner, name, |ListedPaths(items)|, branch))]
  {
    assert GatePaths(items) == Err(TooLarge(|ListedPaths(items)|));
  }

  /** A listing with no `blob` or `tree` entry is reported empty, whatever the subpath. */
  lemma EmptyBeforeFilter(owner: string, name: string, branch: string, subpath: string,
                          items: seq<TreeItem>, m: int, sendOk: nat -> bool)
    requires forall i :: 0 <= i < |items| ==> !IsListed(items[i])
    ensures ListingReply(owner, name, branch, subpath, items, m, sendOk) == [Say(EmptyRepositoryText(owner, name, branch))]
  {
    NoneListed(items);
    assert GatePaths(items) == Err(EmptyListing);
  }
}
