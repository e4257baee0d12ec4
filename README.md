# dodo-bot `/github_tree`, modelled in Dafny

dodo-bot is a Discord bot. Its `/github_tree repo max_depth` command takes an
`owner/repo` reference or a GitHub link, which may name a branch and a subpath
(`https://github.com/owner/repo/tree/branch/sub/path`). The command then works in
these steps:

- It fetches the repository and its recursive git tree from the GitHub REST API.
- It keeps the `blob` and `tree` paths. It refuses an empty listing and a
  listing of more than 5000 paths.
- It narrows the listing to the subpath.
- It builds a nested dictionary of the paths, cut at `max_depth` levels. A cut
  entry is marked `"..."`.
- It renders that dictionary as a box-drawing tree: directories first, then
  names by lower-cased key.
- It packs the lines greedily into chunks of at most 750 characters, keeping
  at most 4 chunks. The last one gets a truncation notice.
- It sends the chunks as numbered embeds. When a send fails it falls back to a
  `.txt` upload.

The command exists twice in the repository: in the cog `src/cogs/github_cog.py`
and in the monolithic `bot.py`. Up to the generic error handler the two
copies are the same statement for statement, except that the default of
`max_depth` differs (3 and 5); here `max_depth` is always an explicit
parameter. The error handlers differ: the cog guards both the read of the
user's display name and the error reply (`src/cogs/github_cog.py:447-460`),
while `bot.py` guards neither (`bot.py:723-729`). Neither handler is modelled
(see "## Left out"). The helpers `extract_github_username`,
`extract_github_repo` and `github_request` are likewise duplicated in
`src/utils/github_utils.py` and `bot.py`.

Modules, in dependency order:

| file | module | what it holds |
|---|---|---|
| `wrappers.dfy` | `Wrappers` | `Option`, `Result` |
| `text.dfy` | `Text` | the Python string operations used: `split`, `join`, `strip`, `startswith`, ASCII `lower`, string `<=` |
| `github_utils.dfy` | `GithubUtils` | the path of a URL, the two `extract_*` helpers, the status branching of `github_request` |
| `repo_ref.dfy` | `RepoRef` | resolving the `repo` argument into owner, name, branch and subpath |
| `path_gate.dfy` | `PathGate` | the `blob`/`tree` filter, the emptiness and 5000-path gates, the subpath filter |
| `tree_model.dfy` | `TreeModel` | the nested dictionary as an insertion-ordered association list, and the recursive meaning of the insertion loop |
| `tree_builder.dfy` | `TreeBuilder` | the imperative insertion loop of `format_tree`, with the `current` reference as a key-path cursor |
| `tree_sort.dfy` | `TreeSort` | the sort key of `build_lines`, and `sorted` as a stable sort |
| `tree_render.dfy` | `TreeRender` | `build_lines`, the root line, `format_tree` |
| `paginator.dfy` | `Paginator` | line clipping, greedy chunking, the 4-embed cap, the file-size check |
| `delivery.dfy` | `Delivery` | sending the embeds, then the full-file and remaining-parts fallbacks |
| `tree_command.dfy` | `TreeCommand` | the whole command from argument to reply |

The network is a parameter of the model. `repoFetch` and `treeFetch` map an API URL
to the HTTP outcome of the request: status, the `X-RateLimit-Remaining` header and
the decoded JSON. `sessionOpen` says whether the HTTP session is usable. The Discord
side is the parameter `sendOk`, which says which embed sends (numbered from 0)
succeed. The reply is a sequence of `Message` values: a plain text, a numbered embed
holding a chunk, or an upload with a notice, a file name and the file's text.

Where the behaviour of the code differs from its own description, the model follows the code:

- `max_depth` is any integer. Zero or a negative value cuts every path at its first segment.
- The branch comes from a link only when it has at least four segments and the third is `tree`. `owner/repo/tree/x` without the `https://github.com/` prefix is read as owner `owner` and name `repo`, with no branch.
- The "no files or directories found" reply after the subpath filter cannot be reached: the filter never returns an empty list from a non-empty listing (`PathGate.FilterSubpath`).
- The "too large for embeds, sending as a file" reply cannot be reached. Every chunk is at most 750 characters, and 750 + 10 is below 1009 (`Paginator.NoFileFallback`).
- The size check adds 10 characters to each chunk, while the embed field really wraps it in 11 (the `fix` code fence). With 750-character chunks this makes no difference.
- The "no content to display" reply in delivery cannot be reached either: a non-empty line list always gives at least one chunk (`TreeCommand.ChunksNonEmpty`).

## Model

| member | source | states |
|---|---|---|
| Text.Split | src/cogs/github_cog.py:277 | `str.split` on a one-character separator: at least one part, none holding the separator |
| Text.JoinSplit | src/cogs/github_cog.py:205 | joining the parts of a split with the separator gives the string back |
| Text.SplitJoin | src/cogs/github_cog.py:354 | splitting a join of separator-free parts gives the parts back |
| Text.StripLeft | src/cogs/github_cog.py:200 | `lstrip`: the result is a suffix, everything removed is a stripped character, and the result does not start with one |
| Text.StripRight | src/cogs/github_cog.py:200 | `rstrip`: the result is a prefix, everything removed is a stripped character, and the result does not end with one |
| Text.StripUntouched | src/utils/github_utils.py:12 | a string that neither starts nor ends with a stripped character is left unchanged |
| Text.TakeUntil | src/cogs/github_cog.py:200 | the longest prefix free of the stop characters; the next character, if any, is a stop |
| Text.Lower | src/cogs/github_cog.py:300 | lower-casing keeps the length |
| Text.LexLeTotal | src/cogs/github_cog.py:302 | string `<=` is total |
| Text.LexLeTransitive | src/cogs/github_cog.py:302 | string `<=` is transitive |
| Text.LexLeAntisymmetric | src/cogs/github_cog.py:302 | string `<=` is antisymmetric |
| GithubUtils.UrlPath | src/cogs/github_cog.py:200 | the `path` of `urlparse`: after the scheme and a `//` netloc, cut at the query or fragment, so it holds neither `?` nor `#`; `GithubUtils.UrlPathOf` gives its value on a printed link |
| GithubUtils.UrlPathOf | src/cogs/github_cog.py:200 | the path `urlparse` gives for `scheme://host/path` is `/path` |
| GithubUtils.LinkSegments | src/cogs/github_cog.py:200 | the stripped and split path of a link is the split of the path written in it |
| GithubUtils.ExtractGithubUsername | src/utils/github_utils.py:8-12 | a link gives the first path segment, or the whole text when its path is empty; anything else is stripped of whitespace |
| GithubUtils.UsernameOfProfileLink | bot.py:210-215 | `https://github.com/user` resolves to `user` |
| GithubUtils.UsernameOfBareName | src/utils/github_utils.py:8-12 | a bare name without surrounding whitespace is returned unchanged |
| GithubUtils.ExtractGithubRepo | src/utils/github_utils.py:15-25 | a link yields its first two segments exactly when it has two; a non-link yields the first two `/`-parts exactly when it holds a `/`; neither result holds a `/` |
| GithubUtils.RepoOfRepositoryLink | bot.py:217-228 | `https://github.com/owner/name` resolves to `(owner, name)` |
| GithubUtils.RepoOfBareReference | bot.py:217-228 | `owner/name`, with or without more `/`-segments, resolves to `(owner, name)` |
| GithubUtils.GithubRequest | src/utils/github_utils.py:54-91 | the four outcomes of a request: JSON exactly on 200 with a body; `not_found` exactly on 404; `rate_limited` exactly on 403 with no remaining quota; `None` for a closed session, a transport failure and every other status |
| RepoRef.ReferenceOfSegments | src/cogs/github_cog.py:200-208 | on the link's path segments: an error exactly below two segments; owner and name are the first two; a branch exactly with four or more segments whose third is `tree`, the subpath being the segments after the branch joined by `/` |
| RepoRef.ParseReference | src/cogs/github_cog.py:199-213 | "invalid URL" exactly for a link with under two path segments; "invalid format" exactly for a non-link without `/`; for any link, owner and name are its first two segments, a branch is taken exactly when it has four or more segments and the third is `tree`, and then the branch is the fourth and the subpath the rest joined by `/`; a bare reference keeps its first two `/`-tokens with no branch and no subpath |
| RepoRef.ParseAgreesWithExtract | bot.py:462-483 | the command accepts exactly the references `extract_github_repo` accepts, and finds the same owner and name |
| RepoRef.ReferencePathSplit | bot.py:468-475 | the path of a reference splits into owner, name, optionally `tree` and the branch, then the subpath's segments |
| RepoRef.ParseLinkRoundTrip | src/cogs/github_cog.py:199-205 | writing a reference as a link and parsing it gives the reference back |
| RepoRef.SegmentsRoundTrip | src/cogs/github_cog.py:201-205 | reading a reference's own path segments gives the reference back |
| RepoRef.ParseBareRoundTrip | src/cogs/github_cog.py:209-210 | `owner/name...` parses to that owner and name with no branch |
| RepoRef.ResolvesBareExample | bot.py:479-480 | `octocat/Hello-World` resolves to that owner and name on the default branch |
| RepoRef.BlobSegmentsHaveNoBranch | src/cogs/github_cog.py:203-205 | a `blob/main/README.md` link names no branch and no subpath, so the default branch is used |
| PathGate.ListedPaths | src/cogs/github_cog.py:242 | a path is kept exactly when some item of type `blob` or `tree` has it; with only such items, every path is kept in order |
| PathGate.ListedAppend | src/cogs/github_cog.py:242 | the comprehension keeps listing order: the paths of a concatenation are those of its parts in turn, and one item gives its path exactly when it is a `blob` or a `tree` |
| PathGate.NoneListed | bot.py:513 | a listing without `blob` or `tree` items keeps no path |
| PathGate.GatePaths | src/cogs/github_cog.py:244-253 | "empty" exactly when no path is kept; "too large", with the count, exactly when over 5000 are kept; otherwise 1 to 5000 paths |
| PathGate.Matching | src/cogs/github_cog.py:257 | the filter keeps exactly the paths equal to the subpath or below it |
| PathGate.FilterSubpath | src/cogs/github_cog.py:255-268 | no subpath keeps everything; "not found" exactly when a subpath matches no path; a non-empty listing never filters to nothing |
| PathGate.FilterKeepsBelow | bot.py:533-535 | with paths below the subpath, the result is those paths made relative |
| PathGate.FilterSingleFile | bot.py:536-538 | a subpath that is a path with nothing below it gives just that path |
| PathGate.RelativeMembers | src/cogs/github_cog.py:263-264 | `q` is a relative path exactly when `subpath/q` was listed |
| PathGate.RelativeOfMatching | src/cogs/github_cog.py:257-264 | cutting the matches is cutting the whole listing: the non-matching paths contribute nothing |
| PathGate.AnyBelowMatching | src/cogs/github_cog.py:262 | some match is below the subpath exactly when some listed path is |
| PathGate.RelativeAppend | src/cogs/github_cog.py:264 | the relative paths of a concatenation are the concatenated relative paths |
| TreeModel.LookupFound | src/cogs/github_cog.py:285 | a key is found exactly when some entry has it, and the found value is that entry's |
| TreeModel.Put | src/cogs/github_cog.py:282-286 | assigning an existing key keeps the keys' positions; a new key is appended, as dict insertion order does |
| TreeModel.PutLookup | src/cogs/github_cog.py:286 | after an assignment the key maps to the new value and every other key is unchanged |
| TreeModel.PutSame | bot.py:558-559 | assigning a key its current value changes nothing |
| TreeModel.PutShaped | bot.py:555-559 | assignment keeps a well-shaped level well shaped |
| TreeModel.InsertShaped | src/cogs/github_cog.py:279-292 | inserting a path keeps the tree well shaped: distinct keys, directories above the depth limit, `"..."` only at it |
| TreeModel.InsertParts | src/cogs/github_cog.py:279-292 | the inner loop of `format_tree` as a function of the dictionary `current` points at and the segment index; what it does to the key paths is stated by `TreeModel.InsertPaths` |
| TreeModel.InsertPaths | src/cogs/github_cog.py:279-292 | after inserting a path, the key paths in the tree are the old ones plus every non-empty prefix of the path up to one segment past the depth limit |
| TreeModel.InsertPresent | bot.py:552-565 | inserting a path that is already there changes nothing |
| TreeModel.InsertIdempotent | src/cogs/github_cog.py:279-292 | inserting the same path twice is inserting it once |
| TreeModel.BuildShaped | src/cogs/github_cog.py:275-292 | the dictionary built from any paths is well shaped |
| TreeModel.BuildTree | src/cogs/github_cog.py:275-292 | the outer loop of `format_tree`: each path inserted in turn into the dictionary; its key paths are stated by `TreeModel.BuildPaths` |
| TreeModel.BuildPaths | src/cogs/github_cog.py:275-292 | a key path is in the built dictionary exactly when it is a stored prefix of one of the input paths |
| TreeModel.BuildRepeat | bot.py:548-565 | a repeated input path does not change the dictionary |
| TreeModel.ShapedHeight | src/cogs/github_cog.py:280-283 | a well-shaped level is at most one level deeper than the remaining depth allows |
| TreeModel.BuildHeight | src/cogs/github_cog.py:280-283 | the built dictionary nests at most `max(0, max_depth) + 1` levels |
| TreeBuilder.Plug | src/cogs/github_cog.py:278-289 | writing through the cursor leaves the cursor valid and puts the new level there |
| TreeBuilder.PlugPlug | src/cogs/github_cog.py:286 | two writes through the same cursor are the last one |
| TreeBuilder.PlugSelf | src/cogs/github_cog.py:288-289 | writing back what is under the cursor changes nothing |
| TreeBuilder.CursorExtend | src/cogs/github_cog.py:288-289 | descending into a directory extends the cursor, and writing below it is writing the updated directory one level up |
| TreeBuilder.InsertPath | src/cogs/github_cog.py:277-292 | the loop over the parts of one path, with its `current` reference, computes the recursive insertion |
| TreeBuilder.BuildTreeDict | bot.py:547-565 | the loop over all paths computes the built dictionary |
| TreeSort.KeyLeTotal | src/cogs/github_cog.py:297-300 | the sort key is totally ordered |
| TreeSort.KeyLeTransitive | src/cogs/github_cog.py:297-300 | the sort key order is transitive |
| TreeSort.SortEntries | src/cogs/github_cog.py:297-302 | `sorted(d.items(), key=sort_key)`; `TreeSort.SortSorted` and `TreeSort.SortStable` state that it is ordered, a permutation, and stable |
| TreeSort.InsertSorted | src/cogs/github_cog.py:302 | placing an entry into an ordered list keeps it ordered and adds exactly that entry |
| TreeSort.SortSorted | src/cogs/github_cog.py:302 | `sorted` gives an ordered permutation of the entries |
| TreeSort.SortStable | src/cogs/github_cog.py:302 | entries with equal keys keep their insertion order |
| TreeSort.DirectoriesFirst | bot.py:570-575 | after sorting, no directory follows a non-directory |
| TreeSort.KeysAscend | bot.py:570-575 | among directories, and among non-directories, lower-cased names ascend |
| TreeSort.SortMeasures | src/cogs/github_cog.py:302 | sorting keeps the number of entries in the tree and its height |
| TreeRender.ChildIndent | src/cogs/github_cog.py:309 | the next prefix adds four characters; which block is added is stated by `TreeRender.RowsChildrenFollow` |
| TreeRender.Draw | src/cogs/github_cog.py:306-312 | a line is the prefix, the last-or-middle connector, the key, and `/` exactly for a non-empty directory or a cut entry |
| TreeRender.Rows | src/cogs/github_cog.py:296-315 | `build_lines(d, prefix)`: the rows of the sorted entries; `TreeRender.RowCount`, `TreeRender.RowPrefixes` and `TreeRender.TopLevelRows` state what they are |
| TreeRender.RowsSorted | src/cogs/github_cog.py:303-315 | the loop of `build_lines` over the sorted entries: each entry's row, then its children's rows for a non-empty dictionary |
| TreeRender.RowCount | src/cogs/github_cog.py:296-315 | one line per entry of the tree, at every depth |
| TreeRender.RowPrefixes | src/cogs/github_cog.py:309-315 | every row's prefix extends the parent's by whole four-character blocks, at most as many as the tree is high |
| TreeRender.TopLevelRows | bot.py:575-588 | the rows at the outer indent are exactly the sorted entries, with only the last marked last |
| TreeRender.RowsChildrenFollow | src/cogs/github_cog.py:306-315 | the row of every non-empty directory is followed by its first child's, whose prefix is the directory's extended by four spaces when it is the last of its siblings and by `"│   "` otherwise |
| TreeRender.RowsFirst | src/cogs/github_cog.py:302-312 | the first row of a non-empty dictionary is drawn with the prefix it is given |
| TreeRender.BuildLines | src/cogs/github_cog.py:296-315 | the recursive appending loop appends exactly the rendered rows of the dictionary |
| TreeRender.TreeLines | src/cogs/github_cog.py:274-320 | `format_tree`: the root line, then the rows of the dictionary built from the paths; `TreeRender.TreeLineCount`, `TreeRender.TreeIndentBound` and `TreeRender.TreeTopLevel` state its shape |
| TreeRender.FormatTree | src/cogs/github_cog.py:274-322 | the lines are the root line followed by the rendered dictionary of the paths |
| TreeRender.TreeLineCount | bot.py:547-593 | `format_tree` gives one line per dictionary entry plus the root line |
| TreeRender.TreeIndentBound | src/cogs/github_cog.py:280-283 | every rendered prefix is whole indent blocks, at most `4 * max(0, max_depth)` characters |
| TreeRender.TreeTopLevel | src/cogs/github_cog.py:317-319 | the unindented rows are the sorted top-level entries |
| Paginator.ClipLine | src/cogs/github_cog.py:329-330 | a line over 750 characters becomes its first 747 and `...`; shorter lines are unchanged |
| Paginator.ClipAll | bot.py:602-604 | every line is clipped, in order |
| Paginator.PackFrom | src/cogs/github_cog.py:328-341 | the greedy packing from an open chunk and its length; `Paginator.PackFlatten`, `Paginator.ChunkBound`, `Paginator.PackGreedy` and `Paginator.PackFits` state that it keeps every line, bounds each chunk, closes a chunk only when the next line does not fit, and always closes it when the next line does not fit |
| Paginator.PackFlatten | src/cogs/github_cog.py:328-341 | the chunks, read back line by line, are the clipped lines in order: nothing is lost or duplicated |
| Paginator.ChunkBound | src/cogs/github_cog.py:332-341 | every chunk is at most 750 characters |
| Paginator.OnlyFirstChunkEmpty | src/cogs/github_cog.py:332-335 | only the first chunk can be empty, and it is exactly when the first line clips to 750 characters |
| Paginator.PackGreedy | src/cogs/github_cog.py:332-338 | a chunk is closed only when the next line would not fit in it |
| Paginator.PackFromFits | src/cogs/github_cog.py:332-338 | from an open chunk that fits, every chunk of two or more lines has a running length of at most 750: a line that would overflow is never appended |
| Paginator.PackFits | src/cogs/github_cog.py:332-338 | a line that would take the running length over 750 always starts a new chunk, so a chunk of two or more lines joins to fewer than 750 characters |
| Paginator.SplitsAtRunningLength | src/cogs/github_cog.py:332-338 | lines of 374 and 375 characters go into two chunks, although their join would be exactly 750 characters |
| Paginator.StateInvariant | src/cogs/github_cog.py:328-338 | after any number of lines, the chunks closed so far followed by the greedy packing of the remaining lines from the open chunk make up the whole packing |
| Paginator.ChunkLines | bot.py:598-615 | the chunking loop computes the greedy chunks |
| Paginator.Capped | src/cogs/github_cog.py:343-350 | at most four chunks are kept; every kept chunk but the fourth is unchanged |
| Paginator.CapLast | src/cogs/github_cog.py:345-350 | the capped last chunk is at most 750 characters, ends with the truncation notice, and keeps the chunk whole when it fits |
| Paginator.CappedShape | src/cogs/github_cog.py:343-350 | at most 4 chunks pass unchanged; more are cut to 4, the first three unchanged and the fourth capped; the 750 bound is kept |
| Paginator.CapChunks | bot.py:618-625 | the cap step computes the capped chunks |
| Paginator.NoFileFallback | src/cogs/github_cog.py:352 | the capped chunks never need the large-file fallback |
| Delivery.ReplaceChar | src/cogs/github_cog.py:357 | `replace('/', '_')` changes exactly the slashes |
| Delivery.FirstFailure | src/cogs/github_cog.py:403-443 | the first failing send, with every earlier send succeeding; otherwise all sends succeed |
| Delivery.EmbedsOf | src/cogs/github_cog.py:368-394 | embed `i` carries chunk `i`, numbered `i + 1` of the total |
| Delivery.InlineChunksOfEmbeds | bot.py:639-669 | the embeds sent for the first `k` chunks carry exactly those chunks |
| Delivery.Delivered | src/cogs/github_cog.py:396-445 | the messages the sending steps produce for the capped chunks and the send outcomes; `Delivery.DeliveryCovers` states what they carry |
| Delivery.DeliveryCovers | src/cogs/github_cog.py:400-445 | all sends succeed: the embeds carry all chunks; the first fails: one full-file upload; a later one fails: the embeds sent and the remaining file together hold every chunk, in order |
| Delivery.FullFileLines | src/cogs/github_cog.py:408 | the full-file text splits back into the tree lines |
| Delivery.Deliver | bot.py:675-721 | the sending loop with its early return produces the modelled deliveries |
| TreeCommand.NatToString | src/cogs/github_cog.py:250 | a count prints as at least one decimal digit |
| TreeCommand.NatToStringValue | src/cogs/github_cog.py:250 | the printed count reads back as the count |
| TreeCommand.EffectiveBranch | src/cogs/github_cog.py:227 | a non-empty branch from the link wins; otherwise `default_branch`, or `main` without one |
| TreeCommand.TreeReply | src/cogs/github_cog.py:182-445 | the reply to the command as a function of the input, the fetch outcomes and the send outcomes, in the source's order of checks; `TreeCommand.ReplyNonEmpty` states that it is never empty |
| TreeCommand.ListingReply | src/cogs/github_cog.py:242-445 | the reply once the tree items are fetched; `TreeCommand.ListingReplyEmbeds`, `TreeCommand.TooLargeBeforeFilter` and `TreeCommand.EmptyBeforeFilter` state its cases |
| TreeCommand.GithubTree | src/cogs/github_cog.py:182-445 | the command, step by step with its early replies, produces the modelled reply |
| TreeCommand.ReplyToListing | src/cogs/github_cog.py:242-445 | from the fetched tree items on, the gate, the subpath filter, rendering, chunking, capping, the file fallback check and delivery produce the modelled reply |
| TreeCommand.ChunksNonEmpty | bot.py:614-615 | non-empty output always gives at least one chunk |
| TreeCommand.ReplyNonEmpty | bot.py:448-721 | every invocation answers with at least one message |
| TreeCommand.ListingReplyEmbeds | src/cogs/github_cog.py:322-445 | with paths to show and all sends succeeding, the reply is one embed per chunk: 1 to 4 of them, each at most 750 characters |
| TreeCommand.TooLargeBeforeFilter | src/cogs/github_cog.py:248-256 | the 5000-path gate runs on the whole listing: its reply does not depend on the subpath, the depth or the sends |
| TreeCommand.EmptyBeforeFilter | bot.py:513-517 | a listing with no `blob` or `tree` item is reported empty, whatever the subpath |

## Left out

- Discord I/O: deferring the interaction and building each embed. The title, description, colour, author, footer, field name and timestamp are not modelled. An embed is just its part number, the total and its chunk.
- Uploads are modelled as a notice, a file name and the file's text. UTF-8 encoding and the `BytesIO` handle are not modelled.
- Failures of the plain-text sends and of the file uploads are not modelled. Only embed sends can fail (`sendOk`).
- The network, the session and the timing are parameters. The pause between API calls (`api_call_delay`) and the logging are not modelled.
- The `X-RateLimit-Reset` header is read only for a log line, so it is not modelled.
- The tree response is modelled as an object with an optional `tree` list of items, each with a string `path` and `type`. The "unexpected API response" reply is given only for a response that is not an object or has no `tree` key (`src/cogs/github_cog.py:238-240`), and the model gives it for exactly those. These other shapes raise inside the `try` block and reach the generic error handler, which is not modelled: `{"tree": null}`, where iterating `None` fails; a `tree` that is a string or an object, where `item.get` fails on its elements; a `tree` list holding items that are not objects; a `blob` or `tree` item without `path` (`KeyError`, `src/cogs/github_cog.py:242`); and a listed item whose `path` is not a string, where `p.startswith` (`src/cogs/github_cog.py:257`) or `p.split` in `format_tree` fails. An item without `type` is skipped, which the model covers as a kind that is not listed. A `default_branch` that is present but `null` or not a string is formatted into the tree URL as Python prints it (`src/cogs/github_cog.py:227-229`); the model's `default_branch` is a string or absent.
- The generic `except Exception` handler and its "unexpected internal error" reply are not modelled. The model has no exceptions. In the `bot.py` copy, the internal-error send is not itself guarded.
- GithubUtils.UrlPath: models `urlparse` as scheme, `//` netloc, and path up to `?` or `#`. Outside the model: `urlsplit` first removes every tab, CR and LF anywhere in the URL; it raises `ValueError` on an unbalanced `[` or `]` in the netloc, which in the command would reach the generic error handler; path parameters after `;`, percent-encoding, and schemes that do not start with a letter.
- Text.Lower: lower-cases ASCII letters only, whereas Python's `str.lower` is full Unicode.
- Text.Split, Text.Join and the other `Text` functions count code points as Python does. Strings are sequences of characters with no normalisation.
- TreeSort.SortEntries: `sorted` (Timsort) is modelled as a stable insertion sort. Any stable sort by the same key gives the same sequence, so the result is the same; the steps are not.
- `format_number` and `format_date` in the utilities are used by other commands, not by this one. Like the other commands, the admin cog, the core utilities and the web server, they are not part of this model.
- Delivery.FullFileLines: the full-file upload is the tree lines joined by newlines. The lemma that it splits back into those lines requires newline-free lines. Lines hold repository paths, and a git path may contain a newline; such a path makes the upload split into more lines than the tree has.
- The remaining-parts fallback catches an exception when slicing `chunks[i:]`. Slicing cannot fail, so the "(Could not reconstruct chunk text)" text is not modelled.
