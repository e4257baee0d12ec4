/** The repository reference resolver at the top of `github_tree`: a bare
    `owner/name`, or a link whose path may carry `/tree/<branch>/<subpath...>`. */
module RepoRef {
  import opened Text
  import opened Wrappers
  import opened GithubUtils

  /** The parsed reference; `branch` is `None` unless the link names one. */
  datatype Reference = Reference(owner: string, name: string, branch: Option<string>, subpath: string)

  /** The two messages the resolver can answer with. */
  datatype ReferenceError = InvalidUrl | InvalidFormat

  /** The link branch of the resolver, on the segments of the URL path:
      owner and name are the first two segments, and a branch is taken
      exactly when there are four or more and the third is `tree`. */
  function ReferenceOfSegments(parts: seq<string>): (r: Result<Reference, ReferenceError>)
    ensures r.Ok? <==> |parts| >= 2
    ensures r.Err? ==> r.error == InvalidUrl
    ensures r.Ok? ==> r.value.owner == parts[0] && r.value.name == parts[1]
    ensures r.Ok? ==> (r.value.branch.Some? <==> |parts| >= 4 && parts[2] == "tree")
    ensures r.Ok? && r.value.branch.Some? ==>
      r.value.branch.value == parts[3] && r.value.subpath == (if |parts| > 4 then Join("/", parts[4..]) else "")
    ensures r.Ok? && r.value.branch.None? ==> r.value.subpath == ""
  {
    if |parts| >= 2 then
      if |parts| >= 4 && parts[2] == "tree" then
        Ok(Reference(parts[0], parts[1], Some(parts[3]), if |parts| > 4 then Join("/", parts[4..]) else ""))
      else
        Ok(Reference(parts[0], parts[1], None, ""))
    else
      Err(InvalidUrl)
  }

  /** The parse of `repo`. A link (any text starting with `http`) needs two
      path segments; a bare reference needs a `/` and keeps its first two
      tokens, never a branch or a subpath. */
  function ParseReference(repo: string): (r: Result<Reference, ReferenceError>)
    ensures r == Err(InvalidUrl) <==> StartsWith(repo, "http") && |UrlSegments(repo)| < 2
    ensures r == Err(InvalidFormat) <==> !StartsWith(repo, "http") && '/' !in repo
    ensures r.Ok? ==> '/' !in r.value.owner && '/' !in r.value.name
    ensures r.Ok? && r.value.branch.Some? ==> '/' !in r.value.branch.value
    ensures r.Ok? && (r.value.branch.None? || !StartsWith(repo, "http")) ==> r.value.subpath == ""
    ensures r.Ok? && !StartsWith(repo, "http") ==> r.value.branch.None?
    ensures r.Ok? && !StartsWith(repo, "http") ==>
      |Split(repo, '/')| >= 2 && r.value.owner == Split(repo, '/')[0] && r.value.name == Split(repo, '/')[1]
    ensures StartsWith(repo, "http") && r.Ok? ==>
      var p := UrlSegments(repo);
      && |p| >= 2 && r.value.owner == p[0] && r.value.name == p[1]
      && (r.value.branch.Some? <==> |p| >= 4 && p[2] == "tree")
      && (r.value.branch.Some? ==>
            r.value.branch.value == p[3] && r.value.subpath == (if |p| > 4 then Join("/", p[4..]) else ""))
  {
    if StartsWith(repo, "http") then
      ReferenceOfSegments(UrlSegments(repo))
    else if '/' in repo then
      SplitHasSep(repo, '/');
      var parts := Split(repo, '/');
      Ok(Reference(parts[0], parts[1], None, ""))
    else
      Err(InvalidFormat)
  }

  /** The resolver and `extract_github_repo` accept the same texts and agree
      on owner and name. */
  lemma ParseAgreesWithExtract(text: string)
    ensures ParseReference(text).Ok? <==> ExtractGithubRepo(text).Some?
    ensures ParseReference(text).Ok? ==>
      ExtractGithubRepo(text).value == (ParseReference(text).value.owner, ParseReference(text).value.name)
  {
    if !StartsWith(text, "http") && '/' in text {
      SplitHasSep(text, '/');
    }
  }

  /** The path of the page a reference names, as the bot links it:
      `owner/name`, then `/tree/<branch>` and `/<subpath>` when present. */
  function ReferencePath(ref: Reference): string
  {
    ref.owner + "/" + ref.name
      + if ref.branch.Some? then "/tree/" + ref.branch.value + (if ref.subpath != "" then "/" + ref.subpath else "") else ""
  }

  /** A single path segment: non-empty, without slash, query or fragment mark. */
  predicate IsSegment(s: string)
  {
    s != [] && forall i :: 0 <= i < |s| ==> s[i] !in {'/', '?', '#'}
  }

  /** A reference that its own link can express. */
  predicate IsLinkable(ref: Reference)
  {
    && IsSegment(ref.owner) && IsSegment(ref.name)
    && (ref.branch.Some? ==> IsSegment(ref.branch.value))
    && (ref.branch.None? ==> ref.subpath == "")
    && (forall i :: 0 <= i < |ref.subpath| ==> ref.subpath[i] !in {'?', '#'})
    && (ref.subpath == "" || (ref.subpath[0] != '/' && ref.subpath[|ref.subpath| - 1] != '/'))
  }

  /** `owner/name` splits into its two segments. */
  lemma SplitOwnerName(o: string, n: string)
    requires '/' !in o && '/' !in n
    ensures Split(o + "/" + n, '/') == [o, n]
  {
    assert o + "/" + n == o + ['/'] + n;
    SplitCons(o, n, '/');
    SplitNoSep(n, '/');
  }

  /** `owner/name/tree/rest` splits into owner, name, `tree` and the parts of `rest`. */
  lemma SplitTreePath(o: string, n: string, rest: string)
    requires '/' !in o && '/' !in n
    ensures Split(o + "/" + n + "/tree/" + rest, '/') == [o, n, "tree"] + Split(rest, '/')
  {
    assert o + "/" + n + "/tree/" + rest == o + ['/'] + (n + ['/'] + ("tree" + ['/'] + rest));
    assert '/' !in "tree";
    SplitThree(o, n, "tree", rest);
  }

  /** Three separator-free tokens ahead of `rest`. */
  lemma SplitThree(a: string, b: string, c: string, rest: string)
    requires '/' !in a && '/' !in b && '/' !in c
    ensures Split(a + ['/'] + (b + ['/'] + (c + ['/'] + rest)), '/') == [a, b, c] + Split(rest, '/')
  {
    SplitCons(a, b + ['/'] + (c + ['/'] + rest), '/');
    SplitCons(b, c + ['/'] + rest, '/');
    SplitCons(c, rest, '/');
  }

  /** Splitting `ReferencePath` recovers owner, name, `tree`, branch and the
      subpath's own segments. */
  lemma ReferencePathSplit(ref: Reference)
    requires IsLinkable(ref)
    ensures ref.branch.None? ==> Split(ReferencePath(ref), '/') == [ref.owner, ref.name]
    ensures ref.branch.Some? && ref.subpath == "" ==>
      Split(ReferencePath(ref), '/') == [ref.owner, ref.name, "tree", ref.branch.value]
    ensures ref.branch.Some? && ref.subpath != "" ==>
      Split(ReferencePath(ref), '/') == [ref.owner, ref.name, "tree", ref.branch.value] + Split(ref.subpath, '/')
  {
    var o, n := ref.owner, ref.name;
    if ref.branch.None? {
      assert ReferencePath(ref) == o + "/" + n;
      SplitOwnerName(o, n);
    } else {
      var b := ref.branch.value;
      var tail := if ref.subpath != "" then "/" + ref.subpath else "";
      assert ReferencePath(ref) == o + "/" + n + "/tree/" + (b + tail);
      SplitTreePath(o, n, b + tail);
      if ref.subpath == "" {
        assert b + tail == b;
        SplitNoSep(b, '/');
      } else {
        assert b + tail == b + ['/'] + ref.subpath;
        SplitCons(b, ref.subpath, '/');
      }
    }
  }

  /** The shape of `ReferencePath` needed to strip it: non-empty, no slash at
      either end, no query or fragment mark. */
  lemma ReferencePathShape(ref: Reference)
    requires IsLinkable(ref)
    ensures var p := ReferencePath(ref);
      p != [] && p[0] != '/' && p[|p| - 1] != '/'
      && forall i :: 0 <= i < |p| ==> p[i] !in {'?', '#'}
  {
    var p := ReferencePath(ref);
    var o, n := ref.owner, ref.name;
    var tail := if ref.branch.Some? then "/tree/" + ref.branch.value + (if ref.subpath != "" then "/" + ref.subpath else "") else "";
    assert p == o + "/" + n + tail;
    assert p[0] == o[0];
    forall i | 0 <= i < |p| ensures p[i] !in {'?', '#'} {
      if i < |o| { assert p[i] == o[i]; }
      else if i == |o| { assert p[i] == '/'; }
      else if i < |o| + 1 + |n| { assert p[i] == n[i - |o| - 1]; }
      else {
        assert p[i] == tail[i - |o| - 1 - |n|];
        if ref.branch.Some? {
          var b := ref.branch.value;
          var sub := if ref.subpath != "" then "/" + ref.subpath else "";
          var j := i - |o| - 1 - |n|;
          assert tail == "/tree/" + b + sub;
          if j >= 6 + |b| { assert tail[j] == sub[j - 6 - |b|]; if j > 6 + |b| { assert sub[j - 6 - |b|] == ref.subpath[j - 7 - |b|]; } }
          else if j >= 6 { assert tail[j] == b[j - 6]; }
        }
      }
    }
    if ref.branch.None? {
      assert p[|p| - 1] == n[|n| - 1];
    } else if ref.subpath == "" {
      assert p[|p| - 1] == ref.branch.value[|ref.branch.value| - 1];
    } else {
      assert p[|p| - 1] == ref.subpath[|ref.subpath| - 1];
    }
  }

  /** Parsing the link of a reference gives the reference back: the bot's
      own `https://github.com/{owner}/{name}/tree/{branch}/{subpath}` form is
      read back exactly, for any `http` scheme and host. */
  lemma {:induction false} ParseLinkRoundTrip(scheme: string, host: string, ref: Reference)
    requires IsLinkScheme(scheme) && IsHost(host)
    requires IsLinkable(ref)
    ensures ParseReference(Link(scheme, host, ReferencePath(ref))) == Ok(ref)
  {
    var url := Link(scheme, host, ReferencePath(ref));
    ReferencePathShape(ref);
    LinkStartsWithHttp(scheme, host, ReferencePath(ref));
    LinkSegments(scheme, host, ReferencePath(ref));
    SegmentsRoundTrip(ref);
  }

  /** The link branch reads the split reference path back as the reference. */
  lemma SegmentsRoundTrip(ref: Reference)
    requires IsLinkable(ref)
    ensures ReferenceOfSegments(Split(ReferencePath(ref), '/')) == Ok(ref)
  {
    ReferencePathSplit(ref);
    var parts := Split(ReferencePath(ref), '/');
    if ref.branch.Some? && ref.subpath != "" {
      assert parts[4..] == Split(ref.subpath, '/');
      JoinSplit(ref.subpath, '/');
    }
  }

  /** `owner/name` (with any further `/`-tokens) resolves to that owner and
      name, without branch or subpath. */
  lemma ParseBareRoundTrip(owner: string, name: string, more: string)
    requires !StartsWith(owner + "/" + name + more, "http")
    requires '/' !in owner && '/' !in name
    requires more == [] || more[0] == '/'
    ensures ParseReference(owner + "/" + name + more) == Ok(Reference(owner, name, None, ""))
  {
    RepoOfBareReference(owner, name, more);
    ParseAgreesWithExtract(owner + "/" + name + more);
  }

  /** A `blob` link names no branch: its owner and name are kept, and the
      default branch is used later. */
  lemma BlobSegmentsHaveNoBranch()
    ensures ReferenceOfSegments(["octocat", "Hello-World", "blob", "main", "README.md"])
      == Ok(Reference("octocat", "Hello-World", None, ""))
  {
    assert "blob" != "tree" by { assert "blob"[0] != "tree"[0]; }
  }

  /** The bare reference `octocat/Hello-World`. */
  lemma ResolvesBareExample()
    ensures ParseReference("octocat/Hello-World") == Ok(Reference("octocat", "Hello-World", None, ""))
  {
    assert "octocat/Hello-World" == "octocat" + "/" + "Hello-World" + "";
    assert "octocat/Hello-World"[..4] == "octo";
    ParseBareRoundTrip("octocat", "Hello-World", "");
  }
}
