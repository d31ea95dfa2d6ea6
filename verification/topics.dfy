/** `collect_topics.py`: discovery of BBC Persian topic pages. The
    `TOPIC_RE` matcher and the resolution of a matched path against `BASE`
    are modelled exactly; fetching, anchor extraction, `urljoin` of
    relative links and `urlparse` are parameters. */
module Topics {
  import opened Wrappers
  import opened Text
  import opened Ordering

  const Base: string := "https://www.bbc.com/persian"
  const Origin: string := "https://www.bbc.com"
  const TopicsPrefix: string := "/persian/topics/"
  const MaxFollow: int := 50

  // ---------------------------------------------------------------------
  // TOPIC_RE = re.compile(r"^/persian/topics/[a-z0-9_]+", re.IGNORECASE)
  // ---------------------------------------------------------------------

  /** The single-character lower-case mapping the regular-expression engine
      applies under IGNORECASE, restricted to the characters that lower to
      ASCII: A-Z, U+0130 (capital I with dot above) and U+212A (Kelvin
      sign). Every other character is returned unchanged, which is exact
      for the comparisons below because none of them lowers to ASCII. */
  function Lower(c: char): (l: char)
    ensures 'a' <= l <= 'z' ==> 'a' <= c <= 'z' || 'A' <= c <= 'Z' || c == '\U{0130}' || c == '\U{212A}'
    ensures !('A' <= c <= 'Z') && c != '\U{0130}' && c != '\U{212A}' ==> l == c
    ensures 'A' <= c <= 'Z' ==> l as int == c as int + 32
    ensures c == '\U{0130}' ==> l == 'i'
    ensures c == '\U{212A}' ==> l == 'k'
  {
    if 'A' <= c <= 'Z' then (c as int + 32) as char
    else if c == '\U{0130}' then 'i'
    else if c == '\U{212A}' then 'k'
    else c
  }

  /** Whether `c` matches the lower-case pattern character `lo` under
      IGNORECASE: equal after lowering, or one of the engine's extra
      equivalences, dotless i (U+0131) for `i` and long s (U+017F) for `s`. */
  predicate FoldsTo(c: char, lo: char) {
    Lower(c) == lo || (lo == 'i' && c == '\U{0131}') || (lo == 's' && c == '\U{017F}')
  }

  /** `[a-z0-9_]` under IGNORECASE. */
  predicate IsTopicWordChar(c: char) {
    var l := Lower(c);
    ('a' <= l <= 'z') || ('0' <= l <= '9') || l == '_' || c == '\U{0131}' || c == '\U{017F}'
  }

  /** `TOPIC_RE.match(path)`: anchored at the start, and satisfied by the
      first word character, since `+` needs only one. */
  predicate TopicMatch(path: string) {
    && |path| > |TopicsPrefix|
    && (forall i :: 0 <= i < |TopicsPrefix| ==> FoldsTo(path[i], TopicsPrefix[i]))
    && IsTopicWordChar(path[|TopicsPrefix|])
  }

  /** A path that spells the prefix exactly and continues with a word
      character matches. */
  lemma ExactPrefixMatches(path: string)
    requires StartsWith(path, TopicsPrefix) && |path| > |TopicsPrefix|
    requires IsTopicWordChar(path[|TopicsPrefix|])
    ensures TopicMatch(path)
  {
    forall i | 0 <= i < |TopicsPrefix| ensures FoldsTo(path[i], TopicsPrefix[i]) {
      assert path[i] == path[..|TopicsPrefix|][i];
    }
  }

  /** Only the first seventeen characters are looked at: the match is a
      prefix match, and anything may follow. */
  lemma {:induction false} TopicMatchIsPrefixMatch(path: string, rest: string)
    ensures TopicMatch(path) ==> TopicMatch(path + rest)
    ensures |path| > |TopicsPrefix| ==> (TopicMatch(path + rest) <==> TopicMatch(path[..|TopicsPrefix| + 1]))
  {
    var n := |TopicsPrefix|;
    if |path| > n {
      assert forall i :: 0 <= i <= n ==> (path + rest)[i] == path[i] == path[..n + 1][i];
    }
  }

  /** Every matching path begins with `/`, so resolving it against the base
      is an absolute-path reference. */
  lemma MatchedPathIsAbsolute(path: string)
    requires TopicMatch(path)
    ensures StartsWith(path, "/")
  {
    assert FoldsTo(path[0], '/');
  }

  lemma AcceptedTopicPaths(p1: string, p2: string, p3: string)
    requires p1 == "/persian/topics/afghanistan"
    requires p2 == "/persian/topics/AfghaN_1"
    requires p3 == "/persian/topics/abc-def/x"
    ensures TopicMatch(p1) && TopicMatch(p2) && TopicMatch(p3)
  {
    assert p1[..16] == TopicsPrefix && p1[16] == 'a';
    ExactPrefixMatches(p1);
    assert p2[..16] == TopicsPrefix && p2[16] == 'A';
    ExactPrefixMatches(p2);
    assert p3[..16] == TopicsPrefix && p3[16] == 'a';
    ExactPrefixMatches(p3);
  }

  /** Case is ignored in the fixed part too, including the Unicode
      equivalences of `i` and `s`. */
  lemma CaseInsensitiveTopicPath(p: string)
    requires p == "/PER\U{017F}\U{0130}AN/Topics/\U{212A}abul"
    ensures TopicMatch(p)
  {
    assert |p| == 21 && p[16] == '\U{212A}';
    assert forall i :: 0 <= i < |TopicsPrefix| ==> FoldsTo(p[i], TopicsPrefix[i]);
  }

  lemma RejectedTopicPaths(p1: string, p2: string, p3: string)
    requires p1 == "/persian/topic/afghanistan"
    requires p2 == "/persian/topics/"
    requires p3 == "/persian/topics/-news"
    ensures !TopicMatch(p1) && !TopicMatch(p2) && !TopicMatch(p3)
  {
    assert p1[14] == '/' && TopicsPrefix[14] == 's';
    assert p3[16] == '-';
  }

  // ---------------------------------------------------------------------
  // urljoin(BASE, path) for an absolute path
  // ---------------------------------------------------------------------

  predicate IsDotSegment(seg: string) {
    seg == "." || seg == ".."
  }

  /** The dot-segment removal of section 5.2.4 of RFC 3986 as `urljoin`
      performs it on the `/`-separated segments: `..` drops the last kept
      segment (if any), `.` is dropped, anything else is kept. */
  function RemoveDotSegments(segs: seq<string>, kept: seq<string>): (r: seq<string>)
    ensures |r| <= |kept| + |segs|
    decreases |segs|
  {
    if |segs| == 0 then kept
    else if segs[0] == ".." then RemoveDotSegments(segs[1..], if |kept| > 0 then kept[..|kept| - 1] else kept)
    else if segs[0] == "." then RemoveDotSegments(segs[1..], kept)
    else RemoveDotSegments(segs[1..], kept + [segs[0]])
  }

  /** `urljoin(BASE, path)` for a `path` that starts with `/`: the host of
      `BASE` with the path's dot segments removed (a trailing `.` or `..`
      leaves a trailing `/`). */
  function ResolveAbsolutePath(path: string): (url: string)
    requires StartsWith(path, "/")
    ensures StartsWith(url, Origin + "/")
  {
    var segs := Split(path, '/');
    var kept := RemoveDotSegments(segs, []);
    var resolved := if IsDotSegment(segs[|segs| - 1]) then kept + [""] else kept;
    var joined := Join("/", resolved);
    var p := if joined == "" then "/" else joined;
    var q := if StartsWith(p, "/") then p else "/" + p;
    assert (Origin + q)[..|Origin| + 1] == Origin + q[..1];
    Origin + q
  }

  /** Without dot segments nothing is removed. */
  lemma {:induction false} RemoveNoDotSegments(segs: seq<string>, kept: seq<string>)
    requires forall i :: 0 <= i < |segs| ==> !IsDotSegment(segs[i])
    ensures RemoveDotSegments(segs, kept) == kept + segs
    decreases |segs|
  {
    if |segs| > 0 {
      RemoveNoDotSegments(segs[1..], kept + [segs[0]]);
      assert kept + [segs[0]] + segs[1..] == kept + segs;
    }
  }

  /** A topic path without `.` or `..` segments resolves to the BBC origin
      followed by the path itself: host, query and fragment of the link are
      gone, the path is kept. */
  lemma PlainPathResolvesToOriginPlusPath(path: string)
    requires StartsWith(path, "/")
    requires forall i :: 0 <= i < |Split(path, '/')| ==> !IsDotSegment(Split(path, '/')[i])
    ensures ResolveAbsolutePath(path) == Origin + path
  {
    var segs := Split(path, '/');
    RemoveNoDotSegments(segs, []);
    assert [] + segs == segs;
    JoinSplit(path, '/');
  }

  /** With a dot segment the resolved URL is not the origin plus the path:
      a link whose path ends in `/..` names the parent topic. */
  lemma DotSegmentsAreRemoved(path: string)
    requires path == "/persian/topics/a/.."
    ensures ResolveAbsolutePath(path) == Origin + "/persian/topics/"
    ensures ResolveAbsolutePath(path) != Origin + path
  {
    var segs := Split(path, '/');
    SplitOfParentPath(path);
    var kept := RemoveDotSegments(segs, []);
    assert kept == ["", "persian", "topics"] by {
      RemoveParentSegment(segs);
    }
    JoinOfParentTopic(kept + [""]);
    assert |Origin + "/persian/topics/"| != |Origin + path|;
  }

  lemma SplitOfParentPath(path: string)
    requires path == "/persian/topics/a/.."
    ensures Split(path, '/') == ["", "persian", "topics", "a", ".."]
  {
    var parts := ["", "persian", "topics", "a", ".."];
    JoinOfParentPathSegments(path, parts);
    assert forall i :: 0 <= i < |parts| ==> '/' !in parts[i];
    SplitJoin(parts, '/');
  }

  lemma JoinOfParentPathSegments(path: string, parts: seq<string>)
    requires path == "/persian/topics/a/.."
    requires parts == ["", "persian", "topics", "a", ".."]
    ensures Join("/", parts) == path
  {
    JoinFive("/", "", "persian", "topics", "a", "..");
  }

  lemma JoinFive(sep: string, a: string, b: string, c: string, d: string, e: string)
    ensures Join(sep, [a, b, c, d, e]) == a + sep + b + sep + c + sep + d + sep + e
  {
    var p4 := [e];
    var p3 := [d] + p4;
    var p2 := [c] + p3;
    var p1 := [b] + p2;
    assert [a, b, c, d, e] == [a] + p1;
    JoinCons(sep, d, p4);
    JoinCons(sep, c, p3);
    JoinCons(sep, b, p2);
    JoinCons(sep, a, p1);
  }

  /** The dot-segment pass over `a + b` is the pass over `b` continuing
      from the pass over `a`. */
  lemma {:induction false} RemoveDotSegmentsAppend(a: seq<string>, b: seq<string>, kept: seq<string>)
    ensures RemoveDotSegments(a + b, kept) == RemoveDotSegments(b, RemoveDotSegments(a, kept))
    decreases |a|
  {
    if |a| == 0 {
      assert a + b == b;
    } else {
      assert (a + b)[0] == a[0] && (a + b)[1..] == a[1..] + b;
      var next := if a[0] == ".." then (if |kept| > 0 then kept[..|kept| - 1] else kept)
                  else if a[0] == "." then kept else kept + [a[0]];
      RemoveDotSegmentsAppend(a[1..], b, next);
    }
  }

  lemma RemoveParentSegment(segs: seq<string>)
    requires segs == ["", "persian", "topics", "a", ".."]
    ensures RemoveDotSegments(segs, []) == ["", "persian", "topics"]
  {
    var kept := ["", "persian", "topics", "a"];
    assert segs == kept + [".."];
    RemoveNoDotSegments(kept, []);
    assert [] + kept == kept;
    RemoveDotSegmentsAppend(kept, [".."], []);
    assert kept[..3] == ["", "persian", "topics"];
  }

  lemma JoinOfParentTopic(parts: seq<string>)
    requires parts == ["", "persian", "topics", ""]
    ensures Join("/", parts) == "/persian/topics/"
  {
    JoinCons("/", "", parts[1..]);
    JoinCons("/", "persian", parts[2..]);
    JoinCons("/", "topics", parts[3..]);
    assert parts[1..] == ["persian"] + parts[2..];
    assert parts[2..] == ["topics"] + parts[3..];
    assert parts[3..] == [""];
  }

  /** Splitting at a separator whose left part holds none. */
  lemma SplitAt(s: string, k: int, c: char)
    requires 0 <= k < |s| && s[k] == c
    requires forall j :: 0 <= j < k ==> s[j] != c
    ensures Split(s, c) == [s[..k]] + Split(s[k + 1..], c)
  {
    IndexOfAt(s, c, k);
  }

  // ---------------------------------------------------------------------
  // Links and topics of one page
  // ---------------------------------------------------------------------

  /** What `urlparse` yields that the script reads. */
  datatype UrlParts = UrlParts(netloc: string, path: string)

  /** The collaborators: `fetch` indexed by the number of the call (the
      script fetches `BASE` twice and the network may answer differently),
      the `href` values of a page's anchors, `urljoin`, and `urlparse`. */
  datatype World = World(
    fetch: (nat, string) -> Option<string>,
    hrefs: string -> seq<string>,
    join: (string, string) -> string,
    parse: string -> UrlParts)

  /** One `href` of `extract_links`: stripped, kept as it is when it
      starts with `http` and resolved against the page URL otherwise. */
  function Resolve(href: string, baseUrl: string, join: (string, string) -> string): (r: string)
    ensures StartsWith(Strip(href), "http") ==> r == Strip(href)
    ensures !StartsWith(Strip(href), "http") ==> r == join(baseUrl, Strip(href))
  {
    var h := Strip(href);
    if StartsWith(h, "http") then h else join(baseUrl, h)
  }

  /** `extract_links(html, base_url)` before the set is built: one link per
      href, in document order. */
  function ExtractLinks(hrefs: seq<string>, baseUrl: string, join: (string, string) -> string): (r: seq<string>)
    ensures |r| == |hrefs|
    ensures forall i :: 0 <= i < |hrefs| ==> r[i] == Resolve(hrefs[i], baseUrl, join)
  {
    if |hrefs| == 0 then []
    else
      var rest := ExtractLinks(hrefs[1..], baseUrl, join);
      var r := [Resolve(hrefs[0], baseUrl, join)] + rest;
      assert forall i :: 1 <= i < |hrefs| ==> r[i] == rest[i - 1];
      assert forall i :: 1 <= i < |hrefs| ==> hrefs[1..][i - 1] == hrefs[i];
      r
  }

  /** Absolute hrefs do not depend on the page they were found on. */
  lemma {:induction false} AbsoluteHrefsIgnoreBase(hrefs: seq<string>, b1: string, b2: string, join: (string, string) -> string)
    requires forall i :: 0 <= i < |hrefs| ==> StartsWith(Strip(hrefs[i]), "http")
    ensures ExtractLinks(hrefs, b1, join) == ExtractLinks(hrefs, b2, join)
    ensures forall i :: 0 <= i < |hrefs| ==> ExtractLinks(hrefs, b1, join)[i] == Strip(hrefs[i])
    decreases |hrefs|
  {
    if |hrefs| > 0 {
      assert forall i :: 0 <= i < |hrefs| - 1 ==> hrefs[1..][i] == hrefs[i + 1];
      AbsoluteHrefsIgnoreBase(hrefs[1..], b1, b2, join);
    }
  }

  /** The topic URLs among a page's links: every link whose path matches,
      resolved against `BASE`. */
  function TopicUrls(links: seq<string>, parse: string -> UrlParts): (r: seq<string>)
    ensures forall u :: u in r ==> StartsWith(u, Origin + "/")
  {
    if |links| == 0 then []
    else
      var rest := TopicUrls(links[1..], parse);
      var path := parse(links[0]).path;
      if TopicMatch(path) then [ResolveAbsoluteTopic(path)] + rest else rest
  }

  /** A URL is collected exactly when some link's path matches, and it is
      that path resolved against `BASE`. */
  lemma TopicUrlsAreMatches(links: seq<string>, parse: string -> UrlParts, u: string)
    ensures u in TopicUrls(links, parse) <==>
      exists i :: 0 <= i < |links| && TopicMatch(parse(links[i]).path) && u == ResolveAbsoluteTopic(parse(links[i]).path)
  {
    if u in TopicUrls(links, parse) {
      var i := TopicUrlSource(links, parse, u);
    }
    if exists i :: 0 <= i < |links| && TopicMatch(parse(links[i]).path) && u == ResolveAbsoluteTopic(parse(links[i]).path) {
      var i :| 0 <= i < |links| && TopicMatch(parse(links[i]).path) && u == ResolveAbsoluteTopic(parse(links[i]).path);
      MatchedLinkCollected(links, parse, i);
    }
  }

  lemma {:induction false} TopicUrlSource(links: seq<string>, parse: string -> UrlParts, u: string) returns (i: nat)
    requires u in TopicUrls(links, parse)
    ensures i < |links| && TopicMatch(parse(links[i]).path) && u == ResolveAbsoluteTopic(parse(links[i]).path)
    decreases |links|
  {
    var rest := TopicUrls(links[1..], parse);
    var path := parse(links[0]).path;
    if TopicMatch(path) && u == ResolveAbsoluteTopic(path) {
      i := 0;
    } else {
      assert u in rest;
      var j := TopicUrlSource(links[1..], parse, u);
      assert links[1..][j] == links[j + 1];
      i := j + 1;
    }
  }

  lemma {:induction false} MatchedLinkCollected(links: seq<string>, parse: string -> UrlParts, i: nat)
    requires i < |links| && TopicMatch(parse(links[i]).path)
    ensures ResolveAbsoluteTopic(parse(links[i]).path) in TopicUrls(links, parse)
    decreases i
  {
    if i > 0 {
      assert links[1..][i - 1] == links[i];
      MatchedLinkCollected(links[1..], parse, i - 1);
    }
  }

  function ResolveAbsoluteTopic(path: string): (url: string)
    requires TopicMatch(path)
    ensures StartsWith(url, Origin + "/")
  {
    MatchedPathIsAbsolute(path);
    ResolveAbsolutePath(path)
  }

  /** What `collect_topics_from_url` returns: a bare empty set when the
      fetch fails, a pair of (topic URLs, links) otherwise. */
  datatype Collected = Bare | Pair(topics: seq<string>, links: seq<string>)

  /** `collect_topics_from_url(url)`, given the page the fetch returned. The
      links are the set `extract_links` builds, listed in ascending order. */
  function CollectTopicsFromUrl(w: World, page: Option<string>, url: string): (r: Collected)
    ensures r.Bare? <==> Falsy(page)
    ensures r.Pair? ==> Ascending(r.links) && forall u :: u in r.topics ==> StartsWith(u, Origin + "/")
    ensures r.Pair? ==> Elems(r.links) == Elems(ExtractLinks(w.hrefs(page.value), url, w.join))
    ensures r.Pair? ==> r.topics == TopicUrls(r.links, w.parse)
  {
    if Falsy(page) then Bare
    else
      var links := SortUnique(ExtractLinks(w.hrefs(page.value), url, w.join));
      Pair(TopicUrls(links, w.parse), links)
  }

  /** `topics, links = collect_topics_from_url(...)`: unpacking the bare set
      raises. */
  function Unpack(c: Collected): (r: Try<(seq<string>, seq<string>)>)
    ensures r.Raised? <==> c.Bare?
  {
    match c
    case Bare => Raised("ValueError: not enough values to unpack (expected 2, got 0)")
    case Pair(topics, links) => Ok((topics, links))
  }

  // ---------------------------------------------------------------------
  // Discovery (main)
  // ---------------------------------------------------------------------

  /** The internal-link filter: host ends in `bbc.com` and the path
      contains `/persian/`. */
  predicate IsInternal(parse: string -> UrlParts, link: string) {
    EndsWith(parse(link).netloc, "bbc.com") && Contains(parse(link).path, "/persian/")
  }

  function InternalLinks(parse: string -> UrlParts, links: seq<string>): (r: seq<string>)
    ensures |r| <= |links|
    ensures forall u :: u in r <==> u in links && IsInternal(parse, u)
  {
    if |links| == 0 then []
    else
      var rest := InternalLinks(parse, links[1..]);
      if IsInternal(parse, links[0]) then [links[0]] + rest else rest
  }

  /** The links followed from the homepage: the first fifty internal ones. */
  function FollowedLinks(parse: string -> UrlParts, homepageLinks: seq<string>): (r: seq<string>)
    ensures |r| <= MaxFollow
    ensures forall u :: u in r ==> u in homepageLinks && IsInternal(parse, u)
    ensures |InternalLinks(parse, homepageLinks)| <= MaxFollow ==> r == InternalLinks(parse, homepageLinks)
    ensures var internal := InternalLinks(parse, homepageLinks);
      && |r| == (if |internal| < MaxFollow then |internal| else MaxFollow)
      && r == internal[..|r|]
  {
    var internal := InternalLinks(parse, homepageLinks);
    var r := SlicePrefix(internal, Some(MaxFollow));
    assert r == internal[..|r|];
    assert forall u :: u in r ==> u in internal;
    r
  }

  /** `collect_topics_from_url` as the script calls it: the `n`-th fetch
      of `url`, then the page's links and topics. */
  function Collector(w: World): (collect: (nat, string) -> Collected)
    ensures forall n: nat, url :: collect(n, url).Bare? <==> Falsy(w.fetch(n, url))
    ensures forall n: nat, url, u :: collect(n, url).Pair? && u in collect(n, url).topics ==> StartsWith(u, Origin + "/")
    ensures forall n: nat, url :: collect(n, url).Pair? ==>
      && w.fetch(n, url).Some?
      && Elems(collect(n, url).links) == Elems(ExtractLinks(w.hrefs(w.fetch(n, url).value), url, w.join))
      && collect(n, url).topics == TopicUrls(collect(n, url).links, w.parse)
  {
    (n: nat, url: string) => CollectTopicsFromUrl(w, w.fetch(n, url), url)
  }

  /** The topics of the page collected by call `n`, none if the fetch
      failed. */
  function PageTopics(collect: (nat, string) -> Collected, n: nat, url: string): seq<string> {
    match collect(n, url)
    case Bare => []
    case Pair(topics, _) => topics
  }

  /** The depth-1 loop as written: call `n` collects `links[0]`, and a
      failed fetch raises out of `main`. */
  function Follow(collect: (nat, string) -> Collected, links: seq<string>, n: nat): (r: Try<seq<string>>)
    decreases |links|
  {
    if |links| == 0 then Ok([])
    else match Unpack(collect(n, links[0]))
      case Raised(e) => Raised(e)
      case Ok(pair) =>
        match Follow(collect, links[1..], n + 1)
        case Raised(e) => Raised(e)
        case Ok(more) => Ok(pair.0 + more)
  }

  /** The as-written loop raises exactly when one of the followed pages
      cannot be fetched. */
  lemma {:induction false} FollowRaisesIffAFetchFails(collect: (nat, string) -> Collected, links: seq<string>, n: nat)
    ensures Follow(collect, links, n).Raised? <==> exists k :: 0 <= k < |links| && collect(n + k, links[k]).Bare?
  {
    if Follow(collect, links, n).Raised? {
      var k := FailedFetchOfRaise(collect, links, n);
    }
    if exists k :: 0 <= k < |links| && collect(n + k, links[k]).Bare? {
      var k :| 0 <= k < |links| && collect(n + k, links[k]).Bare?;
      FailedFetchRaises(collect, links, n, k);
    }
  }

  /** A raising loop met a page it could not fetch. */
  lemma {:induction false} FailedFetchOfRaise(collect: (nat, string) -> Collected, links: seq<string>, n: nat)
    returns (k: nat)
    requires Follow(collect, links, n).Raised?
    ensures k < |links| && collect(n + k, links[k]).Bare?
    decreases |links|
  {
    if collect(n, links[0]).Bare? {
      k := 0;
    } else {
      var tail := links[1..];
      var j := FailedFetchOfRaise(collect, tail, n + 1);
      assert tail[j] == links[j + 1] && n + 1 + j == n + (j + 1);
      k := j + 1;
    }
  }

  /** A page that cannot be fetched makes the loop raise. */
  lemma {:induction false} FailedFetchRaises(collect: (nat, string) -> Collected, links: seq<string>, n: nat, k: nat)
    requires k < |links| && collect(n + k, links[k]).Bare?
    ensures Follow(collect, links, n).Raised?
    decreases k
  {
    if k > 0 && collect(n, links[0]).Pair? {
      var tail := links[1..];
      assert tail[k - 1] == links[k] && n + k == n + 1 + (k - 1);
      FailedFetchRaises(collect, tail, n + 1, k - 1);
    }
  }

  /** The depth-1 loop with a failed page contributing no topics, as the
      script evidently intends. */
  function FollowTolerant(collect: (nat, string) -> Collected, links: seq<string>, n: nat): seq<string>
    decreases |links|
  {
    if |links| == 0 then []
    else PageTopics(collect, n, links[0]) + FollowTolerant(collect, links[1..], n + 1)
  }

  /** The tolerant loop collects exactly the topics of the pages it
      fetched. */
  lemma {:induction false} FollowTolerantIsUnion(collect: (nat, string) -> Collected, links: seq<string>, n: nat, u: string)
    ensures u in FollowTolerant(collect, links, n) <==>
            exists k :: 0 <= k < |links| && u in PageTopics(collect, n + k, links[k])
  {
    if u in FollowTolerant(collect, links, n) {
      var k := FollowedTopicSource(collect, links, n, u);
    }
    if exists k :: 0 <= k < |links| && u in PageTopics(collect, n + k, links[k]) {
      var k :| 0 <= k < |links| && u in PageTopics(collect, n + k, links[k]);
      FollowedTopicKept(collect, links, n, k, u);
    }
  }

  /** Every topic the tolerant loop collects comes from one followed page. */
  lemma {:induction false} FollowedTopicSource(collect: (nat, string) -> Collected, links: seq<string>, n: nat, u: string)
    returns (k: nat)
    requires u in FollowTolerant(collect, links, n)
    ensures k < |links| && u in PageTopics(collect, n + k, links[k])
    decreases |links|
  {
    var tail := links[1..];
    assert FollowTolerant(collect, links, n) == PageTopics(collect, n, links[0]) + FollowTolerant(collect, tail, n + 1);
    if u in PageTopics(collect, n, links[0]) {
      k := 0;
    } else {
      var j := FollowedTopicSource(collect, tail, n + 1, u);
      assert tail[j] == links[j + 1] && n + 1 + j == n + (j + 1);
      k := j + 1;
    }
  }

  /** Every topic of a followed page is collected by the tolerant loop. */
  lemma {:induction false} FollowedTopicKept(collect: (nat, string) -> Collected, links: seq<string>, n: nat, k: nat, u: string)
    requires k < |links| && u in PageTopics(collect, n + k, links[k])
    ensures u in FollowTolerant(collect, links, n)
    decreases k
  {
    var tail := links[1..];
    assert FollowTolerant(collect, links, n) == PageTopics(collect, n, links[0]) + FollowTolerant(collect, tail, n + 1);
    if k > 0 {
      assert tail[k - 1] == links[k] && n + k == n + 1 + (k - 1);
      FollowedTopicKept(collect, tail, n + 1, k - 1, u);
    }
  }

  /** When the as-written loop does not raise it agrees with the tolerant
      one. */
  lemma {:induction false} FollowAgreesWhenNothingFails(collect: (nat, string) -> Collected, links: seq<string>, n: nat)
    requires Follow(collect, links, n).Ok?
    ensures Follow(collect, links, n).value == FollowTolerant(collect, links, n)
    decreases |links|
  {
    if |links| > 0 {
      FollowAgreesWhenNothingFails(collect, links[1..], n + 1);
    }
  }

  /** How a run of `main` ends. */
  datatype Discovery = Aborted | Crashed(error: string) | Finished(topics: seq<string>)

  /** `main` up to the sorted list, for any page-collecting step: give up
      if the first fetch of `BASE` failed; collect from `BASE` again
      (call 1); follow the internal links (calls 2, 3, ...); sort the
      union. */
  function DiscoverFrom(first: Option<string>, collect: (nat, string) -> Collected, parse: string -> UrlParts): (r: Discovery)
    ensures r.Aborted? <==> Falsy(first)
    ensures r.Finished? ==> Ascending(r.topics)
  {
    if Falsy(first) then Aborted
    else match Unpack(collect(1, Base))
      case Raised(e) => Crashed(e)
      case Ok(home) =>
        match Follow(collect, FollowedLinks(parse, home.1), 2)
        case Raised(e) => Crashed(e)
        case Ok(more) => Finished(SortUnique(home.0 + more))
  }

  /** `main` up to the sorted list. */
  function Discover(w: World): (r: Discovery)
    ensures r.Aborted? <==> Falsy(w.fetch(0, Base))
    ensures r.Finished? ==> Ascending(r.topics)
  {
    DiscoverFrom(w.fetch(0, Base), Collector(w), w.parse)
  }

  /** The second fetch of `BASE` failing crashes `main` even though the
      first one succeeded. */
  lemma SecondHomepageFetchFailureCrashes(w: World)
    requires !Falsy(w.fetch(0, Base)) && Falsy(w.fetch(1, Base))
    ensures Discover(w).Crashed?
  {
    assert Collector(w)(1, Base).Bare?;
  }

  /** The links `main` follows, given the second collection of `BASE`. */
  function Followed(collect: (nat, string) -> Collected, parse: string -> UrlParts): seq<string> {
    FollowedLinks(parse, if collect(1, Base).Pair? then collect(1, Base).links else [])
  }

  /** Once the homepage was collected, discovery crashes exactly when one of
      the followed pages cannot be fetched. */
  lemma FollowedFailureDecidesCrash(first: Option<string>, collect: (nat, string) -> Collected, parse: string -> UrlParts)
    requires !Falsy(first) && collect(1, Base).Pair?
    ensures DiscoverFrom(first, collect, parse).Crashed? <==>
      exists k :: 0 <= k < |Followed(collect, parse)| && collect(2 + k, Followed(collect, parse)[k]).Bare?
  {
    FollowRaisesIffAFetchFails(collect, Followed(collect, parse), 2);
  }

  /** One followed page that cannot be fetched ends the whole discovery
      with an exception: nothing is saved, although the loop's own
      `if topics2:` shows an empty result was expected instead. */
  lemma FollowFailureCrashes(w: World, k: int)
    requires !Falsy(w.fetch(0, Base)) && !Falsy(w.fetch(1, Base))
    requires 0 <= k < |Followed(Collector(w), w.parse)|
    requires Falsy(w.fetch(2 + k, Followed(Collector(w), w.parse)[k]))
    ensures Discover(w).Crashed?
  {
    var collect := Collector(w);
    assert collect(1, Base).Pair?;
    assert collect(2 + k, Followed(collect, w.parse)[k]).Bare?;
    FollowedFailureDecidesCrash(w.fetch(0, Base), collect, w.parse);
  }

  /** `main` up to the sorted list, with a failed fetch read as an empty
      result, for any page-collecting step: it never crashes. */
  function DiscoverTolerantFrom(first: Option<string>, collect: (nat, string) -> Collected, parse: string -> UrlParts): (r: Discovery)
    ensures !r.Crashed?
    ensures r.Aborted? <==> Falsy(first)
    ensures r.Finished? ==> Ascending(r.topics)
  {
    if Falsy(first) then Aborted
    else Finished(SortUnique(PageTopics(collect, 1, Base) + FollowTolerant(collect, Followed(collect, parse), 2)))
  }

  /** The discovery the script evidently intends. */
  function DiscoverTolerant(w: World): (r: Discovery)
    ensures !r.Crashed?
    ensures r.Aborted? <==> Falsy(w.fetch(0, Base))
  {
    DiscoverTolerantFrom(w.fetch(0, Base), Collector(w), w.parse)
  }

  /** The tolerant discovery saves the sorted, duplicate-free union of the
      topics of the homepage and of every followed page that could be
      fetched. */
  lemma TolerantDiscoveryIsSortedUnion(first: Option<string>, collect: (nat, string) -> Collected, parse: string -> UrlParts, u: string)
    requires !Falsy(first)
    ensures var followed := Followed(collect, parse);
            u in DiscoverTolerantFrom(first, collect, parse).topics <==>
              u in PageTopics(collect, 1, Base) || exists k :: 0 <= k < |followed| && u in PageTopics(collect, 2 + k, followed[k])
  {
    var followed := Followed(collect, parse);
    var all := PageTopics(collect, 1, Base) + FollowTolerant(collect, followed, 2);
    FollowTolerantIsUnion(collect, followed, 2, u);
    var sorted := SortUnique(all);
    assert DiscoverTolerantFrom(first, collect, parse) == Finished(sorted);
    assert u in sorted <==> u in Elems(sorted);
    assert u in all <==> u in Elems(all);
  }

  /** When every fetch succeeds the script as written and the tolerant
      reading save the same list. */
  lemma DiscoverAgreesWhenNothingFails(first: Option<string>, collect: (nat, string) -> Collected, parse: string -> UrlParts)
    requires DiscoverFrom(first, collect, parse).Finished?
    ensures DiscoverTolerantFrom(first, collect, parse) == DiscoverFrom(first, collect, parse)
  {
    FollowAgreesWhenNothingFails(collect, Followed(collect, parse), 2);
  }

  /** Every URL the tolerant discovery saves is an `https://www.bbc.com/`
      URL. */
  lemma TolerantTopicsAreBbcUrls(w: World, u: string)
    requires DiscoverTolerant(w).Finished? && u in DiscoverTolerant(w).topics
    ensures StartsWith(u, Origin + "/")
  {
    var collect := Collector(w);
    var followed := Followed(collect, w.parse);
    TolerantDiscoveryIsSortedUnion(w.fetch(0, Base), collect, w.parse, u);
    if u !in PageTopics(collect, 1, Base) {
      var k :| 0 <= k < |followed| && u in PageTopics(collect, 2 + k, followed[k]);
      assert collect(2 + k, followed[k]).Pair?;
    } else {
      assert collect(1, Base).Pair?;
    }
  }

  /** Every URL the script saves is an `https://www.bbc.com/` URL. */
  lemma DiscoveredTopicsAreBbcUrls(w: World, u: string)
    requires Discover(w).Finished? && u in Discover(w).topics
    ensures StartsWith(u, Origin + "/")
  {
    DiscoverAgreesWhenNothingFails(w.fetch(0, Base), Collector(w), w.parse);
    TolerantTopicsAreBbcUrls(w, u);
  }

  /** The contents of `topics_list.txt`: each URL followed by a newline. */
  function TopicsFile(sorted: seq<string>): string {
    Terminated(sorted)
  }

  /** Read back line by line, the file gives the saved list. */
  lemma TopicsFileHasOneUrlPerLine(sorted: seq<string>)
    requires forall i :: 0 <= i < |sorted| ==> '\n' !in sorted[i]
    ensures Lines(TopicsFile(sorted)) == sorted
  {
    LinesOfTerminated(sorted);
  }
}
