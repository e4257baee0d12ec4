/** The helpers of `src/utils/github_utils.py` (copied in `bot.py`): the URL
    path of a link, the user and repository names taken from a link or a bare
    `owner/repo`, and the way `github_request` classifies a response. */
module GithubUtils {
  import opened Text
  import opened Wrappers

  predicate IsAsciiLetter(c: char)
  {
    'a' <= c <= 'z' || 'A' <= c <= 'Z'
  }

  /** Characters allowed in a URL scheme. */
  predicate IsSchemeChar(c: char)
  {
    IsAsciiLetter(c) || '0' <= c <= '9' || c == '+' || c == '-' || c == '.'
  }

  /** What follows `scheme:` when the text before the first colon is a valid
      scheme, and the whole text otherwise. */
  function AfterScheme(url: string): string
  {
    var scheme := TakeUntil(url, {':'});
    if 0 < |scheme| < |url| && IsAsciiLetter(scheme[0])
       && (forall i :: 0 <= i < |scheme| ==> IsSchemeChar(scheme[i]))
    then url[|scheme| + 1..]
    else url
  }

  /** The `path` component of `urlparse(url)`: after the scheme and a
      `//netloc` part, up to the query or the fragment. */
  function UrlPath(url: string): (path: string)
    ensures '?' !in path && '#' !in path
  {
    var rest := AfterScheme(url);
    var afterNetloc := if StartsWith(rest, "//") then DropUntil(rest[2..], {'/', '?', '#'}) else rest;
    TakeUntil(afterNetloc, {'?', '#'})
  }

  /** A valid scheme followed by a colon is skipped. */
  lemma AfterSchemeOf(scheme: string, tail: string)
    requires |scheme| > 0 && IsAsciiLetter(scheme[0])
    requires forall i :: 0 <= i < |scheme| ==> IsSchemeChar(scheme[i])
    ensures AfterScheme(scheme + [':'] + tail) == tail
  {
    TakeUntilStops(scheme, ':', tail, {':'});
    var url := scheme + [':'] + tail;
    assert url[|scheme| + 1..] == tail;
  }

  /** The network location ends at the first slash of the path. */
  lemma DropNetlocOf(host: string, path: string)
    requires forall i :: 0 <= i < |host| ==> host[i] !in {'/', '?', '#'}
    requires path == [] || path[0] == '/'
    ensures DropUntil(host + path, {'/', '?', '#'}) == path
  {
    if path == [] {
      assert host + path == host;
      TakeUntilAll(host, {'/', '?', '#'});
    } else {
      assert host + path == host + [path[0]] + path[1..];
      TakeUntilStops(host, '/', path[1..], {'/', '?', '#'});
      assert [path[0]] + path[1..] == path;
    }
  }

  /** Once the scheme is gone, a `//` introduces the network location. */
  lemma UrlPathAfterNetloc(url: string, hostPath: string)
    requires AfterScheme(url) == "//" + hostPath
    ensures UrlPath(url) == TakeUntil(DropUntil(hostPath, {'/', '?', '#'}), {'?', '#'})
  {
    var rest := "//" + hostPath;
    assert StartsWith(rest, "//");
    assert rest[2..] == hostPath;
  }

  /** For a URL written out as scheme, `://` and the rest, the path is
      looked for in that rest. */
  lemma UrlPathOfRest(scheme: string, hostPath: string)
    requires |scheme| > 0 && IsAsciiLetter(scheme[0])
    requires forall i :: 0 <= i < |scheme| ==> IsSchemeChar(scheme[i])
    ensures UrlPath(scheme + "://" + hostPath) == TakeUntil(DropUntil(hostPath, {'/', '?', '#'}), {'?', '#'})
  {
    var url := scheme + "://" + hostPath;
    var tail := "//" + hostPath;
    assert url == scheme + [':'] + tail;
    AfterSchemeOf(scheme, tail);
    UrlPathAfterNetloc(url, hostPath);
  }

  /** The rest of a URL is host then path: the path is what is left. */
  lemma PathOfHostPath(host: string, path: string)
    requires forall i :: 0 <= i < |host| ==> host[i] !in {'/', '?', '#'}
    requires path == [] || path[0] == '/'
    requires forall i :: 0 <= i < |path| ==> path[i] !in {'?', '#'}
    ensures TakeUntil(DropUntil(host + path, {'/', '?', '#'}), {'?', '#'}) == path
  {
    DropNetlocOf(host, path);
    TakeUntilAll(path, {'?', '#'});
  }

  /** For a URL written out as scheme, `://`, host and path, the URL path is that path. */
  lemma UrlPathOf(scheme: string, host: string, path: string)
    requires |scheme| > 0 && IsAsciiLetter(scheme[0])
    requires forall i :: 0 <= i < |scheme| ==> IsSchemeChar(scheme[i])
    requires forall i :: 0 <= i < |host| ==> host[i] !in {'/', '?', '#'}
    requires path == [] || path[0] == '/'
    requires forall i :: 0 <= i < |path| ==> path[i] !in {'?', '#'}
    ensures UrlPath(scheme + "://" + host + path) == path
  {
    assert scheme + "://" + host + path == scheme + "://" + (host + path);
    UrlPathOfRest(scheme, host + path);
    PathOfHostPath(host, path);
  }

  /** The `/`-separated segments of the URL path with its outer slashes stripped,
      as in `urlparse(text).path.strip("/").split("/")`. */
  function UrlSegments(url: string): seq<string>
  {
    Split(Strip(UrlPath(url), {'/'}), '/')
  }

  /** Stripping slashes from `"/" + x` gives `x` when `x` has no slash at either end. */
  lemma StripLeadingSlash(x: string)
    requires x != [] && x[0] != '/' && x[|x| - 1] != '/'
    ensures Strip("/" + x, {'/'}) == x
  {
    assert ("/" + x)[1..] == x;
  }

  /** A link scheme: starts with `http` (so the link takes the URL branch)
      and is a valid URL scheme. */
  predicate IsLinkScheme(scheme: string)
  {
    StartsWith(scheme, "http") && (forall i :: 0 <= i < |scheme| ==> IsSchemeChar(scheme[i]))
  }

  /** A host name: no slash, query or fragment mark. */
  predicate IsHost(host: string)
  {
    forall i :: 0 <= i < |host| ==> host[i] !in {'/', '?', '#'}
  }

  /** The text of a link `scheme://host/path`. */
  function Link(scheme: string, host: string, path: string): string
  {
    scheme + "://" + host + "/" + path
  }

  lemma LinkStartsWithHttp(scheme: string, host: string, path: string)
    requires StartsWith(scheme, "http")
    ensures StartsWith(Link(scheme, host, path), "http")
  {
    assert Link(scheme, host, path)[..4] == scheme[..4];
  }

  /** The URL path of `scheme://host/path` is `/path` when the path has no
      query or fragment mark. */
  lemma LinkPath(scheme: string, host: string, path: string)
    requires IsLinkScheme(scheme) && IsHost(host)
    requires forall i :: 0 <= i < |path| ==> path[i] !in {'?', '#'}
    ensures UrlPath(Link(scheme, host, path)) == "/" + path
  {
    var p := "/" + path;
    forall i | 0 <= i < |p| ensures p[i] !in {'?', '#'} {
      if i > 0 { assert p[i] == path[i - 1]; }
    }
    assert scheme[0] == 'h';
    UrlPathOf(scheme, host, p);
    assert Link(scheme, host, path) == scheme + "://" + host + p;
  }

  /** The segments of `scheme://host/path`, for a path without query,
      fragment or slash at either end, are that path split on `/`. */
  lemma LinkSegments(scheme: string, host: string, path: string)
    requires IsLinkScheme(scheme) && IsHost(host)
    requires path != [] && path[0] != '/' && path[|path| - 1] != '/'
    requires forall i :: 0 <= i < |path| ==> path[i] !in {'?', '#'}
    ensures UrlSegments(Link(scheme, host, path)) == Split(path, '/')
  {
    LinkPath(scheme, host, path);
    StripLeadingSlash(path);
  }

  /** `extract_github_username`: the first URL-path segment of a link (the
      whole text when the path is empty), or the text without surrounding
      whitespace. */
  function ExtractGithubUsername(text: string): (r: string)
    ensures !StartsWith(text, "http") ==> r == Strip(text, Whitespace)
    ensures StartsWith(text, "http") && Strip(UrlPath(text), {'/'}) == "" ==> r == text
    ensures StartsWith(text, "http") && Strip(UrlPath(text), {'/'}) != "" ==> r == UrlSegments(text)[0] && '/' !in r
  {
    if StartsWith(text, "http") then
      var path := Strip(UrlPath(text), {'/'});
      if path != "" then Split(path, '/')[0] else text
    else
      Strip(text, Whitespace)
  }

  /** A profile link gives back the user name it was built from. */
  lemma UsernameOfProfileLink(scheme: string, host: string, user: string)
    requires IsLinkScheme(scheme) && IsHost(host)
    requires user != []
    requires forall i :: 0 <= i < |user| ==> user[i] !in {'/', '?', '#'}
    ensures ExtractGithubUsername(Link(scheme, host, user)) == user
  {
    LinkStartsWithHttp(scheme, host, user);
    LinkSegments(scheme, host, user);
    SplitNoSep(user, '/');
  }

  /** A bare name loses only its surrounding whitespace. */
  lemma UsernameOfBareName(name: string)
    requires !StartsWith(name, "http")
    requires name == [] || (name[0] !in Whitespace && name[|name| - 1] !in Whitespace)
    ensures ExtractGithubUsername(name) == name
  {
    StripUntouched(name, Whitespace);
  }

  /** `extract_github_repo`: the first two URL-path segments of a link, or the
      first two `/`-tokens of other text containing `/`; `None` otherwise. A
      link with fewer than two segments is `None` even if it contains `/`. */
  function ExtractGithubRepo(text: string): (r: Option<(string, string)>)
    ensures StartsWith(text, "http") ==>
      (r.Some? <==> |UrlSegments(text)| >= 2)
      && (r.Some? ==> r.value == (UrlSegments(text)[0], UrlSegments(text)[1]))
    ensures !StartsWith(text, "http") ==>
      (r.Some? <==> '/' in text)
      && (r.Some? ==> |Split(text, '/')| >= 2 && r.value == (Split(text, '/')[0], Split(text, '/')[1]))
    ensures r.Some? ==> '/' !in r.value.0 && '/' !in r.value.1
  {
    if StartsWith(text, "http") then
      var parts := UrlSegments(text);
      if |parts| >= 2 then Some((parts[0], parts[1])) else None
    else if '/' in text then
      var parts := Split(text, '/');
      SplitHasSep(text, '/');
      if |parts| >= 2 then Some((parts[0], parts[1])) else None
    else
      None
  }

  /** A repository link gives back the owner and name it was built from. */
  lemma RepoOfRepositoryLink(scheme: string, host: string, owner: string, name: string)
    requires IsLinkScheme(scheme) && IsHost(host)
    requires owner != [] && name != []
    requires forall i :: 0 <= i < |owner| ==> owner[i] !in {'/', '?', '#'}
    requires forall i :: 0 <= i < |name| ==> name[i] !in {'/', '?', '#'}
    ensures ExtractGithubRepo(Link(scheme, host, owner + "/" + name)) == Some((owner, name))
  {
    var path := owner + "/" + name;
    LinkStartsWithHttp(scheme, host, path);
    forall i | 0 <= i < |path| ensures path[i] !in {'?', '#'} {
      if i < |owner| { assert path[i] == owner[i]; }
      else if i > |owner| { assert path[i] == name[i - |owner| - 1]; }
    }
    assert path[0] == owner[0] && path[|path| - 1] == name[|name| - 1];
    LinkSegments(scheme, host, path);
    SplitCons(owner, name, '/');
    SplitNoSep(name, '/');
  }

  /** `owner/name`, possibly followed by more `/`-tokens, gives back owner and name. */
  lemma RepoOfBareReference(owner: string, name: string, more: string)
    requires !StartsWith(owner + "/" + name + more, "http")
    requires '/' !in owner && '/' !in name
    requires more == [] || more[0] == '/'
    ensures ExtractGithubRepo(owner + "/" + name + more) == Some((owner, name))
  {
    var text := owner + "/" + name + more;
    assert text[|owner|] == '/';
    BareSplit(owner, name, more);
    var parts := Split(text, '/');
    assert |parts| >= 2 && parts[0] == owner && parts[1] == name;
  }

  /** The first two `/`-tokens of `owner/name` followed by more tokens. */
  lemma BareSplit(owner: string, name: string, more: string)
    requires '/' !in owner && '/' !in name
    requires more == [] || more[0] == '/'
    ensures var parts := Split(owner + "/" + name + more, '/');
      |parts| >= 2 && parts[0] == owner && parts[1] == name
  {
    assert owner + "/" + name + more == owner + ['/'] + (name + more);
    SplitCons(owner, name + more, '/');
    FirstToken(name, more);
  }

  /** A separator-free `name` followed by nothing or a separator is the first token. */
  lemma FirstToken(name: string, more: string)
    requires '/' !in name
    requires more == [] || more[0] == '/'
    ensures Split(name + more, '/')[0] == name
  {
    if more == [] {
      assert name + more == name;
      SplitNoSep(name, '/');
    } else {
      assert more == ['/'] + more[1..];
      assert name + more == name + ['/'] + more[1..];
      SplitCons(name, more[1..], '/');
    }
  }

  /** The transport-level result of one GET request: a status line with the
      `X-RateLimit-Remaining` header (if sent) and the JSON body (if it
      parsed), or an exception (timeout, connection failure). */
  datatype HttpOutcome<T> =
    | Received(status: int, rateLimitRemaining: Option<string>, body: Option<T>)
    | TransportError

  /** What `github_request` returns: the JSON body, `"not_found"`,
      `"rate_limited"`, or `None`. */
  datatype ApiResult<T> = Json(body: T) | NotFound | RateLimited | NoResult

  /** True exactly for a 403 whose remaining-quota header is `"0"` or absent. */
  predicate IsRateLimited<T>(outcome: HttpOutcome<T>)
  {
    outcome.Received? && outcome.status == 403 && outcome.rateLimitRemaining.GetOr("0") == "0"
  }

  /** The status classification of `github_request`; `sessionOpen` stands
      for the check that the shared HTTP session exists and is not closed. */
  function GithubRequest<T>(sessionOpen: bool, outcome: HttpOutcome<T>): (r: ApiResult<T>)
    ensures r.RateLimited? <==> sessionOpen && IsRateLimited(outcome)
    ensures r.Json? <==> sessionOpen && outcome.Received? && outcome.status == 200 && outcome.body.Some?
    ensures r.Json? ==> r.body == outcome.body.value
    ensures r.NotFound? <==> sessionOpen && outcome.Received? && outcome.status == 404
    ensures r.NoResult? <==> (!sessionOpen || outcome.TransportError?
      || (outcome.status == 200 && outcome.body.None?)
      || (outcome.status !in {200, 404} && !IsRateLimited(outcome)))
  {
    if !sessionOpen then NoResult
    else match outcome
      case TransportError => NoResult
      case Received(status, remaining, body) =>
        if status == 403 && remaining.GetOr("0") == "0" then RateLimited
        else if status == 200 then (if body.Some? then Json(body.value) else NoResult)
        else if status == 404 then NotFound
        else NoResult
  }
}
