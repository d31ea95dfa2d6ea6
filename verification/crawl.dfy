/** The crawl driver of `main.py`: configuration defaults, category URL
    normalisation, the article-link filter and the crawl loop over sources
    and categories, as a fold whose collaborators (fetching, HTML parsing,
    URL resolution, language identification) are parameters. */
module Crawl {
  import opened Wrappers
  import opened Text
  import opened Ordering
  import opened Articles
  import opened Cleaner
  import opened Parser
  import Detector
  import Saver

  // ---------------------------------------------------------------------
  // Configuration
  // ---------------------------------------------------------------------

  /** The keys `main.py` reads from its configuration; `None` is an absent
      key. A key that may be present with the value `null` is an
      `Option<Option<_>>`. */
  datatype Settings = Settings(
    maxArticlesPerCategory: Option<Option<int>>,
    userAgents: Option<Option<seq<string>>>,
    delaySeconds: Option<int>,
    retries: Option<int>,
    targetLangs: Option<Option<seq<string>>>,
    minChars: Option<int>,
    directory: Option<string>,
    baseFilename: Option<string>)

  const NoSettings: Settings := Settings(None, None, None, None, None, None, None, None)

  /** The arguments `Fetcher` is built with (the fetcher itself is not
      modelled). */
  datatype FetcherConfig = FetcherConfig(userAgents: Option<seq<string>>, delaySeconds: int, retries: int)

  /** Everything the crawl is configured with: the per-category cap (`None`
      is no cap, as `xs[:None]`), and the three collaborators' settings. */
  datatype Runtime = Runtime(
    cap: Option<int>,
    fetcher: FetcherConfig,
    detector: Detector.Config,
    saver: Saver.Config)

  const DefaultCap: int := 50
  const DefaultDelay: int := 2
  const DefaultRetries: int := 3

  /** The `.get(key, default)` calls that build the collaborators. */
  function Configure(s: Settings): (r: Runtime)
    ensures s.maxArticlesPerCategory.None? ==> r.cap == Some(DefaultCap)
    ensures s.maxArticlesPerCategory.Some? ==> r.cap == s.maxArticlesPerCategory.value
    ensures s.minChars.None? ==> r.detector.minChars == Detector.DefaultMinChars
    ensures s.minChars.Some? ==> r.detector.minChars == s.minChars.value
    ensures |r.detector.targetLangs| > 0
    ensures s.targetLangs.Some? && s.targetLangs.value.Some? && |s.targetLangs.value.value| > 0
            ==> r.detector.targetLangs == s.targetLangs.value.value
    ensures s.targetLangs.None? ==> r.detector.targetLangs == Detector.DefaultTargetLangs
    ensures s.targetLangs.Some? && (s.targetLangs.value.None? || |s.targetLangs.value.value| == 0)
            ==> r.detector.targetLangs == Detector.DefaultTargetLangs
    ensures s.userAgents.None? ==> r.fetcher.userAgents.None?
    ensures s.userAgents.Some? ==> r.fetcher.userAgents == s.userAgents.value
    ensures s.delaySeconds.None? ==> r.fetcher.delaySeconds == DefaultDelay
    ensures s.delaySeconds.Some? ==> r.fetcher.delaySeconds == s.delaySeconds.value
    ensures s.retries.None? ==> r.fetcher.retries == DefaultRetries
    ensures s.retries.Some? ==> r.fetcher.retries == s.retries.value
    ensures s.directory.None? ==> r.saver.outputDir == "data"
    ensures s.directory.Some? ==> r.saver.outputDir == s.directory.value
    ensures s.baseFilename.None? ==> r.saver.baseFilename == "dari_dataset"
    ensures s.baseFilename.Some? ==> r.saver.baseFilename == s.baseFilename.value
  {
    Runtime(
      s.maxArticlesPerCategory.GetOr(Some(DefaultCap)),
      FetcherConfig(s.userAgents.GetOr(None), s.delaySeconds.GetOr(DefaultDelay), s.retries.GetOr(DefaultRetries)),
      Detector.NewDetector(s.targetLangs.GetOr(Some(Detector.DefaultTargetLangs)), s.minChars.GetOr(Detector.DefaultMinChars)),
      Saver.Config(s.directory.GetOr(Saver.DefaultConfig.outputDir), s.baseFilename.GetOr(Saver.DefaultConfig.baseFilename)))
  }

  /** An empty configuration gives the documented defaults: 50 articles per
      category, a 2-second delay, 3 retries, Persian only, 50 characters,
      and `data/dari_dataset_*` files. */
  lemma EmptySettingsGiveDefaults()
    ensures Configure(NoSettings) ==
      Runtime(Some(50), FetcherConfig(None, 2, 3), Detector.Config(["fa"], 50), Saver.Config("data", "dari_dataset"))
  {
  }

  // ---------------------------------------------------------------------
  // Category URLs
  // ---------------------------------------------------------------------

  predicate IsAbsoluteUrl(s: string) {
    StartsWith(s, "http://") || StartsWith(s, "https://")
  }

  /** `normalize_category_url(base_url, category)`. `join` is
      `urllib.parse.urljoin`; a missing `base_url` makes `base_url + "/"`
      raise `TypeError`, but only when the category needs joining. */
  function NormalizeCategoryUrl(base: Option<string>, category: Option<string>, join: (string, string) -> string)
    : (r: Try<Option<string>>)
    ensures r == Ok(None) <==> Falsy(category)
    ensures r.Raised? <==> !Falsy(category) && !IsAbsoluteUrl(Strip(category.value)) && base.None?
    ensures !Falsy(category) && IsAbsoluteUrl(Strip(category.value)) ==> r == Ok(Some(Strip(category.value)))
    ensures !Falsy(category) && !IsAbsoluteUrl(Strip(category.value)) && base.Some?
            ==> r == Ok(Some(join(base.value + "/", Strip(category.value))))
  {
    if Falsy(category) then Ok(None)
    else
      var c := Strip(category.value);
      if IsAbsoluteUrl(c) then Ok(Some(c))
      else if base.None? then Raised("TypeError: unsupported operand type(s) for +: 'NoneType' and 'str'")
      else Ok(Some(join(base.value + "/", c)))
  }

  /** A full category URL is a fixed point: normalising the result again,
      against any base, gives it back. */
  lemma AbsoluteCategoryUrlIsFixed(base: Option<string>, base2: Option<string>, category: string,
                                   join: (string, string) -> string)
    requires NormalizeCategoryUrl(base, Some(category), join) == Ok(Some(category))
    requires IsAbsoluteUrl(Strip(category))
    ensures NormalizeCategoryUrl(base2, Some(category), join) == Ok(Some(category))
  {
  }

  // ---------------------------------------------------------------------
  // Article links
  // ---------------------------------------------------------------------

  /** One anchor of a category page after `urljoin(base_url, href.strip())`
      and `urlparse`: the joined URL and its network location and path. */
  datatype Link = Link(full: string, netloc: string, path: string)

  const PersianPrefix: string := "/persian/"
  const TopicsMarker: string := "/persian/topics/"

  /** The filter of `extract_article_links_from_category`: not external, not
      a topic page, and strictly below `/persian/`. */
  predicate IsArticleLink(l: Link) {
    && !(l.netloc != "" && !Contains(l.netloc, "bbc.com"))
    && !Contains(l.path, TopicsMarker)
    && StartsWith(l.path, PersianPrefix) && |l.path| > |PersianPrefix|
  }

  /** The URLs of the anchors the filter keeps, in page order (the source
      collects them in a set; only their sorted order is ever used). */
  function CandidateUrls(links: seq<Link>): (r: seq<string>)
    ensures forall u :: u in r <==> exists i :: 0 <= i < |links| && links[i].full == u && IsArticleLink(links[i])
  {
    if |links| == 0 then []
    else
      var rest := CandidateUrls(links[1..]);
      assert forall i :: 0 <= i < |links| - 1 ==> links[1..][i] == links[i + 1];
      if IsArticleLink(links[0]) then [links[0].full] + rest else rest
  }

  /** A kept link's path starts with `/persian/` and has more after it. */
  lemma KeptLinkShape(l: Link)
    requires IsArticleLink(l)
    ensures |l.path| > 9 && l.path[..9] == "/persian/"
    ensures l.netloc == "" || Contains(l.netloc, "bbc.com")
  {
  }

  /** Conversely, a BBC or relative link that is not a topic page and lies
      strictly below `/persian/` is kept. */
  lemma BelowPersianLinkIsKept(l: Link)
    requires l.netloc == "" || Contains(l.netloc, "bbc.com")
    requires !Contains(l.path, TopicsMarker)
    requires |l.path| > 9 && l.path[..9] == "/persian/"
    ensures IsArticleLink(l)
  {
  }

  /** The section index pages themselves are not articles. */
  lemma IndexPagesAreNotArticles(full: string, netloc: string, p1: string, p2: string)
    requires p1 == "/persian/" && p2 == "/persian"
    ensures !IsArticleLink(Link(full, netloc, p1)) && !IsArticleLink(Link(full, netloc, p2))
  {
  }

  /** A BBC article path is kept. */
  lemma ArticlePathIsKept(full: string, netloc: string, path: string)
    requires path == "/persian/articles-123"
    requires netloc == "" || netloc == "www.bbc.com"
    ensures IsArticleLink(Link(full, netloc, path))
  {
    ArticlePathShape(path);
    if netloc != "" {
      ContainsAt(netloc, "bbc.com", 4);
    }
  }

  lemma ArticlePathShape(path: string)
    requires path == "/persian/articles-123"
    ensures StartsWith(path, PersianPrefix) && |path| > |PersianPrefix|
    ensures !Contains(path, TopicsMarker)
  {
    assert path[..9] == PersianPrefix;
    assert TopicsMarker[10] == 'o';
    assert 'o' !in path;
    MissingCharNotContained(path, TopicsMarker, 10);
  }

  /** Topic pages and off-site links are dropped whatever else holds. */
  lemma TopicAndForeignLinksAreDropped(l: Link)
    ensures Contains(l.path, TopicsMarker) ==> !IsArticleLink(l)
    ensures l.netloc != "" && !Contains(l.netloc, "bbc.com") ==> !IsArticleLink(l)
  {
  }

  // ---------------------------------------------------------------------
  // The crawl
  // ---------------------------------------------------------------------

  /** The collaborators of the crawl: `Fetcher.get` (`None` when every retry
      failed), the anchors of a category page resolved against `base_url`,
      the element sequence of an article page, `datetime.fromisoformat`,
      `langdetect.detect`, and `urljoin`. */
  datatype World = World(
    fetch: string -> Option<string>,
    anchors: (string, Option<string>) -> seq<Link>,
    elements: string -> seq<Element>,
    iso: string -> Option<string>,
    detect: string -> Detector.Detection,
    join: (string, string) -> string)

  /** What the language gate is shown: `content`, else `summary`, else `""`. */
  function EvaluationText(a: Article): (t: string)
    ensures a.content != "" ==> t == a.content
    ensures a.content == "" && a.summary.Some? ==> t == a.summary.value
    ensures a.content == "" && a.summary.None? ==> t == ""
  {
    if a.content != "" then a.content
    else if a.summary.Some? && a.summary.value != "" then a.summary.value
    else ""
  }

  /** The article passed the language gate. */
  predicate Accepted(d: Detector.Config, w: World, a: Article) {
    Detector.IsValidLanguage(d, EvaluationText(a), w.detect) == Ok(true)
  }

  /** One iteration of the inner loop: `Ok(None)` skips the URL,
      `Ok(Some(a))` appends `a`, `Raised` leaves the category. */
  function ProcessArticle(d: Detector.Config, w: World, categoryUrl: string, url: string): (r: Try<Option<Article>>)
    ensures Falsy(w.fetch(url)) ==> r == Ok(None)
    ensures r.Ok? && r.value.Some? ==>
      && r.value.value.url == url
      && r.value.value.category == Some(categoryUrl)
      && Accepted(d, w, r.value.value)
      && r.value.value == CleanArticle(ParseArticle(w.elements(w.fetch(url).value), url, Some(categoryUrl), w.iso))
    ensures r.Raised? ==> !Falsy(w.fetch(url))
    ensures !Falsy(w.fetch(url)) ==>
      var art := CleanArticle(ParseArticle(w.elements(w.fetch(url).value), url, Some(categoryUrl), w.iso));
      && (r == Ok(Some(art)) <==> Accepted(d, w, art))
      && (r.Raised? <==> Detector.IsValidLanguage(d, EvaluationText(art), w.detect).Raised?)
  {
    var html := w.fetch(url);
    if Falsy(html) then Ok(None)
    else
      var article := CleanArticle(ParseArticle(w.elements(html.value), url, Some(categoryUrl), w.iso));
      match Detector.IsValidLanguage(d, EvaluationText(article), w.detect)
      case Ok(keep) => if keep then Ok(Some(article)) else Ok(None)
      case Raised(e) => Raised(e)
  }

  /** What a category contributes: the articles appended, and the
      exception that ended it, if any. */
  datatype Outcome = Outcome(added: seq<Article>, error: Option<string>)

  function Urls(articles: seq<Article>): (r: seq<string>)
    ensures |r| == |articles|
  {
    seq(|articles|, i requires 0 <= i < |articles| => articles[i].url)
  }

  /** An article step that keeps the URL it was given. */
  ghost predicate KeepsUrl(step: string -> Try<Option<Article>>) {
    forall u :: step(u).Ok? && step(u).value.Some? ==> step(u).value.value.url == u
  }

  /** The inner `for` loop over the capped, sorted links, for any per-URL
      step (the crawl uses `ProcessArticle`). */
  function ProcessArticles(step: string -> Try<Option<Article>>, urls: seq<string>): (r: Outcome)
    ensures |r.added| <= |urls|
  {
    if |urls| == 0 then Outcome([], None)
    else match step(urls[0])
      case Raised(e) => Outcome([], Some(e))
      case Ok(kept) =>
        var rest := ProcessArticles(step, urls[1..]);
        Outcome((if kept.Some? then [kept.value] else []) + rest.added, rest.error)
  }

  /** Every appended article is what the step produced for one of the
      visited URLs. */
  lemma {:induction false} AddedComeFromSteps(step: string -> Try<Option<Article>>, urls: seq<string>)
    ensures forall i :: 0 <= i < |ProcessArticles(step, urls).added| ==>
      exists j :: 0 <= j < |urls| && step(urls[j]) == Ok(Some(ProcessArticles(step, urls).added[i]))
    decreases |urls|
  {
    if |urls| > 0 && step(urls[0]).Ok? {
      var r := ProcessArticles(step, urls);
      var rest := ProcessArticles(step, urls[1..]);
      AddedComeFromSteps(step, urls[1..]);
      var off := if step(urls[0]).value.Some? then 1 else 0;
      assert r.added == (if off == 1 then [step(urls[0]).value.value] else []) + rest.added;
      forall i | 0 <= i < |r.added|
        ensures exists j :: 0 <= j < |urls| && step(urls[j]) == Ok(Some(r.added[i]))
      {
        if i < off {
          assert step(urls[0]) == Ok(Some(r.added[i]));
        } else {
          assert r.added[i] == rest.added[i - off];
          var k :| 0 <= k < |urls[1..]| && step(urls[1..][k]) == Ok(Some(rest.added[i - off]));
          assert urls[1..][k] == urls[k + 1];
        }
      }
    } else {
      assert ProcessArticles(step, urls).added == [];
    }
  }

  /** Articles are appended in the order their URLs are visited, so an
      ascending URL list yields articles with ascending URLs. */
  lemma {:induction false} ProcessedInOrder(step: string -> Try<Option<Article>>, urls: seq<string>)
    requires KeepsUrl(step)
    requires Ascending(urls)
    ensures Ascending(Urls(ProcessArticles(step, urls).added))
    decreases |urls|
  {
    if |urls| > 0 {
      var tail := urls[1..];
      AscendingTail(urls);
      ProcessedInOrder(step, tail);
      var r := ProcessArticles(step, urls);
      var rest := ProcessArticles(step, tail);
      match step(urls[0])
      case Raised(e) =>
      case Ok(kept) =>
        if kept.Some? {
          var rs := Urls(rest.added);
          assert r.added == [kept.value] + rest.added;
          assert Urls(r.added) == [urls[0]] + rs;
          assert forall k :: 0 <= k < |tail| ==> Less(urls[0], tail[k]) by {
            forall k | 0 <= k < |tail| ensures Less(urls[0], tail[k]) {
              assert tail[k] == urls[k + 1];
            }
          }
          LaterUrlsFollow(step, urls[0], tail);
          AscendingCons(urls[0], rs);
        } else {
          assert r.added == rest.added;
        }
    }
  }

  /** Articles appended while visiting URLs that all follow `first` have
      URLs that follow `first`. */
  lemma LaterUrlsFollow(step: string -> Try<Option<Article>>, first: string, urls: seq<string>)
    requires KeepsUrl(step)
    requires forall k :: 0 <= k < |urls| ==> Less(first, urls[k])
    ensures forall i :: 0 <= i < |Urls(ProcessArticles(step, urls).added)| ==>
      Less(first, Urls(ProcessArticles(step, urls).added)[i])
  {
    var added := ProcessArticles(step, urls).added;
    var rs := Urls(added);
    AddedComeFromSteps(step, urls);
    forall i | 0 <= i < |rs| ensures Less(first, rs[i]) {
      var k :| 0 <= k < |urls| && step(urls[k]) == Ok(Some(added[i]));
      assert rs[i] == urls[k];
    }
  }

  /** Running the loop over `a + b`: the articles of `a`, and, unless `a`
      raised, those of `b` after them. */
  lemma {:induction false} ProcessArticlesAppend(step: string -> Try<Option<Article>>, a: seq<string>, b: seq<string>)
    ensures var ra := ProcessArticles(step, a);
            ProcessArticles(step, a + b) ==
              if ra.error.Some? then ra
              else var rb := ProcessArticles(step, b); Outcome(ra.added + rb.added, rb.error)
    decreases |a|
  {
    if |a| == 0 {
      assert a + b == b;
    } else {
      assert (a + b)[0] == a[0] && (a + b)[1..] == a[1..] + b;
      ProcessArticlesAppend(step, a[1..], b);
    }
  }

  /** An exception while processing the article at `k` ends the category
      but keeps every article appended before it. */
  lemma ExceptionKeepsEarlierArticles(step: string -> Try<Option<Article>>, urls: seq<string>, k: int)
    requires 0 <= k < |urls|
    requires ProcessArticles(step, urls[..k]).error.None?
    requires step(urls[k]).Raised?
    ensures ProcessArticles(step, urls).added == ProcessArticles(step, urls[..k]).added
    ensures ProcessArticles(step, urls).error == Some(step(urls[k]).exception)
  {
    assert urls == urls[..k] + urls[k..];
    ProcessArticlesAppend(step, urls[..k], urls[k..]);
    assert urls[k..][0] == urls[k];
  }

  /** `ProcessArticle` for one category, as the loop's step. */
  function ArticleStep(d: Detector.Config, w: World, categoryUrl: string): (step: string -> Try<Option<Article>>)
    ensures KeepsUrl(step)
  {
    u => ProcessArticle(d, w, categoryUrl, u)
  }

  /** The article URLs a category page leads to: filtered, deduplicated,
      sorted and capped. */
  function ArticleUrls(cap: Option<int>, links: seq<Link>): (r: seq<string>)
    ensures Ascending(r)
    ensures forall u :: u in r ==> u in CandidateUrls(links)
    ensures cap.Some? && cap.value >= 0 ==> |r| <= cap.value
    ensures cap.None? ==> Elems(r) == Elems(CandidateUrls(links))
    ensures var all := SortUnique(CandidateUrls(links));
      && |r| <= |all| && r == all[..|r|]
      && (cap.None? ==> r == all)
      && (cap.Some? && cap.value >= 0 ==> |r| == if cap.value < |all| then cap.value else |all|)
      && (cap.Some? && cap.value < 0 ==> |r| == if |all| + cap.value > 0 then |all| + cap.value else 0)
  {
    var sorted := SortUnique(CandidateUrls(links));
    var r := SlicePrefix(sorted, cap);
    assert |r| <= |sorted| && r == sorted[..|r|];
    assert forall u :: u in r ==> u in Elems(sorted);
    r
  }

  /** One iteration of the outer `for raw_cat in categories` loop, inside
      its `try`. */
  function Category(rt: Runtime, w: World, base: Option<string>, raw: Option<string>): (r: Outcome)
    ensures forall i :: 0 <= i < |r.added| ==> Accepted(rt.detector, w, r.added[i])
    ensures rt.cap.Some? && rt.cap.value >= 0 ==> |r.added| <= rt.cap.value
  {
    match NormalizeCategoryUrl(base, raw, w.join)
    case Raised(e) => Outcome([], Some(e))
    case Ok(categoryUrl) =>
      if Falsy(categoryUrl) then Outcome([], None)
      else
        var page := w.fetch(categoryUrl.value);
        if Falsy(page) then Outcome([], None)
        else
          var urls := ArticleUrls(rt.cap, w.anchors(page.value, base));
          if |urls| == 0 then Outcome([], None)
          else
            var r := ProcessArticles(ArticleStep(rt.detector, w, categoryUrl.value), urls);
            AddedComeFromSteps(ArticleStep(rt.detector, w, categoryUrl.value), urls);
            StepResultsAccepted(rt.detector, w, categoryUrl.value, urls, r.added);
            r
  }

  lemma StepResultsAccepted(d: Detector.Config, w: World, categoryUrl: string, urls: seq<string>, added: seq<Article>)
    requires forall i :: 0 <= i < |added| ==>
      exists j :: 0 <= j < |urls| && ArticleStep(d, w, categoryUrl)(urls[j]) == Ok(Some(added[i]))
    ensures forall i :: 0 <= i < |added| ==> Accepted(d, w, added[i]) && added[i].url in urls
  {
    forall i | 0 <= i < |added| ensures Accepted(d, w, added[i]) && added[i].url in urls {
      var j :| 0 <= j < |urls| && ArticleStep(d, w, categoryUrl)(urls[j]) == Ok(Some(added[i]));
      assert ProcessArticle(d, w, categoryUrl, urls[j]) == Ok(Some(added[i]));
    }
  }

  /** A category whose page cannot be fetched contributes nothing. */
  lemma UnfetchedCategoryContributesNothing(rt: Runtime, w: World, base: Option<string>, raw: Option<string>, categoryUrl: string)
    requires NormalizeCategoryUrl(base, raw, w.join) == Ok(Some(categoryUrl))
    requires Falsy(w.fetch(categoryUrl))
    ensures Category(rt, w, base, raw) == Outcome([], None)
  {
  }

  /** A category page without article links contributes nothing. */
  lemma LinklessCategoryContributesNothing(rt: Runtime, w: World, base: Option<string>, raw: Option<string>, categoryUrl: string)
    requires NormalizeCategoryUrl(base, raw, w.join) == Ok(Some(categoryUrl)) && categoryUrl != ""
    requires !Falsy(w.fetch(categoryUrl))
    requires CandidateUrls(w.anchors(w.fetch(categoryUrl).value, base)) == []
    ensures Category(rt, w, base, raw) == Outcome([], None)
  {
    ElemsEmpty(SortUnique(CandidateUrls(w.anchors(w.fetch(categoryUrl).value, base))));
  }

  /** Within a category, articles come in ascending URL order and each comes
      from a link the filter kept on that category's page. */
  lemma CategoryArticlesAreSortedLinks(rt: Runtime, w: World, base: Option<string>, raw: Option<string>, categoryUrl: string)
    requires NormalizeCategoryUrl(base, raw, w.join) == Ok(Some(categoryUrl)) && categoryUrl != ""
    requires !Falsy(w.fetch(categoryUrl))
    ensures Ascending(Urls(Category(rt, w, base, raw).added))
    ensures forall i :: 0 <= i < |Category(rt, w, base, raw).added| ==>
      Category(rt, w, base, raw).added[i].url in CandidateUrls(w.anchors(w.fetch(categoryUrl).value, base))
  {
    var urls := ArticleUrls(rt.cap, w.anchors(w.fetch(categoryUrl).value, base));
    if |urls| > 0 {
      var r := ProcessArticles(ArticleStep(rt.detector, w, categoryUrl), urls);
      ProcessedInOrder(ArticleStep(rt.detector, w, categoryUrl), urls);
      AddedComeFromSteps(ArticleStep(rt.detector, w, categoryUrl), urls);
      StepResultsAccepted(rt.detector, w, categoryUrl, urls, r.added);
    }
  }

  /** Once the category page is fetched, the category is the inner loop
      over the capped, sorted article links of that page. */
  lemma CategoryRunsTheLoop(rt: Runtime, w: World, base: Option<string>, raw: Option<string>, categoryUrl: string)
    requires NormalizeCategoryUrl(base, raw, w.join) == Ok(Some(categoryUrl)) && categoryUrl != ""
    requires !Falsy(w.fetch(categoryUrl))
    ensures Category(rt, w, base, raw) ==
      ProcessArticles(ArticleStep(rt.detector, w, categoryUrl), ArticleUrls(rt.cap, w.anchors(w.fetch(categoryUrl).value, base)))
  {
  }

  /** The loop appends what the step keeps for the URL at `k` unless an
      earlier URL raised. */
  lemma KeptStepIsAdded(step: string -> Try<Option<Article>>, urls: seq<string>, k: int)
    requires 0 <= k < |urls| && ProcessArticles(step, urls[..k]).error.None?
    requires step(urls[k]).Ok? && step(urls[k]).value.Some?
    ensures step(urls[k]).value.value in ProcessArticles(step, urls).added
  {
    var before, after := urls[..k], urls[k..];
    assert urls == before + after;
    ProcessArticlesAppend(step, before, after);
    assert after[0] == urls[k];
    var tail := ProcessArticles(step, after);
    assert step(urls[k]).value.value == tail.added[0];
  }

  /** Completeness of the language gate: an article of a visited URL that
      passes the gate is appended to the category's articles, unless a URL
      visited before it raised. */
  lemma AcceptedArticleIsKept(rt: Runtime, w: World, base: Option<string>, raw: Option<string>, categoryUrl: string, k: int)
    requires NormalizeCategoryUrl(base, raw, w.join) == Ok(Some(categoryUrl)) && categoryUrl != ""
    requires !Falsy(w.fetch(categoryUrl))
    requires var urls := ArticleUrls(rt.cap, w.anchors(w.fetch(categoryUrl).value, base));
      && 0 <= k < |urls| && !Falsy(w.fetch(urls[k]))
      && ProcessArticles(ArticleStep(rt.detector, w, categoryUrl), urls[..k]).error.None?
      && Accepted(rt.detector, w, CleanArticle(ParseArticle(w.elements(w.fetch(urls[k]).value), urls[k], Some(categoryUrl), w.iso)))
    ensures var urls := ArticleUrls(rt.cap, w.anchors(w.fetch(categoryUrl).value, base));
      CleanArticle(ParseArticle(w.elements(w.fetch(urls[k]).value), urls[k], Some(categoryUrl), w.iso))
        in Category(rt, w, base, raw).added
  {
    var urls := ArticleUrls(rt.cap, w.anchors(w.fetch(categoryUrl).value, base));
    var step := ArticleStep(rt.detector, w, categoryUrl);
    assert step(urls[k]) == ProcessArticle(rt.detector, w, categoryUrl, urls[k]);
    KeptStepIsAdded(step, urls, k);
    CategoryRunsTheLoop(rt, w, base, raw, categoryUrl);
  }

  /** A source of `config["sources"]`: its `base_url` and its category list
      (an absent list is empty). */
  datatype Source = Source(name: string, baseUrl: Option<string>, categories: seq<Option<string>>)

  /** The inner loop over one source's categories: an exception in a
      category is reported and the next category still runs. */
  function CrawlCategories(rt: Runtime, w: World, base: Option<string>, categories: seq<Option<string>>): seq<Article> {
    Gather(CategoryArticles(rt, w, base), categories)
  }

  /** What one category contributes to `all_articles`. */
  function CategoryArticles(rt: Runtime, w: World, base: Option<string>): Option<string> -> seq<Article> {
    raw => Category(rt, w, base, raw).added
  }

  /** The articles of a list of categories, for any per-category outcome:
      each category's articles in turn. */
  function Gather(category: Option<string> -> seq<Article>, categories: seq<Option<string>>): seq<Article> {
    if |categories| == 0 then []
    else category(categories[0]) + Gather(category, categories[1..])
  }

  lemma {:induction false} GatherAppend(category: Option<string> -> seq<Article>, a: seq<Option<string>>, b: seq<Option<string>>)
    ensures Gather(category, a + b) == Gather(category, a) + Gather(category, b)
    decreases |a|
  {
    if |a| == 0 {
      assert a + b == b;
    } else {
      assert (a + b)[0] == a[0] && (a + b)[1..] == a[1..] + b;
      GatherAppend(category, a[1..], b);
    }
  }

  /** Every article the categories of one source contribute passed the
      language gate. */
  lemma {:induction false} CrawlCategoriesAccepted(rt: Runtime, w: World, base: Option<string>, categories: seq<Option<string>>)
    ensures forall a :: a in CrawlCategories(rt, w, base, categories) ==> Accepted(rt.detector, w, a)
    decreases |categories|
  {
    if |categories| > 0 {
      var first := Category(rt, w, base, categories[0]).added;
      var rest := CrawlCategories(rt, w, base, categories[1..]);
      CrawlCategoriesAccepted(rt, w, base, categories[1..]);
      forall a | a in first ensures Accepted(rt.detector, w, a) {
        var i :| 0 <= i < |first| && first[i] == a;
      }
      assert CrawlCategories(rt, w, base, categories) == first + rest;
    }
  }

  /** The outer loop over sources, accumulating `all_articles`. */
  function CrawlSources(rt: Runtime, w: World, sources: seq<Source>): seq<Article> {
    if |sources| == 0 then []
    else CrawlCategories(rt, w, sources[0].baseUrl, sources[0].categories) + CrawlSources(rt, w, sources[1..])
  }

  /** Every article in `all_articles` passed the language gate. */
  lemma {:induction false} CrawlSourcesAccepted(rt: Runtime, w: World, sources: seq<Source>)
    ensures forall a :: a in CrawlSources(rt, w, sources) ==> Accepted(rt.detector, w, a)
    decreases |sources|
  {
    if |sources| > 0 {
      CrawlCategoriesAccepted(rt, w, sources[0].baseUrl, sources[0].categories);
      CrawlSourcesAccepted(rt, w, sources[1..]);
      assert CrawlSources(rt, w, sources) ==
        CrawlCategories(rt, w, sources[0].baseUrl, sources[0].categories) + CrawlSources(rt, w, sources[1..]);
    }
  }

  /** Fault isolation: splitting a category list anywhere splits the
      result, so what one category does (including raising) never changes
      what the others contribute. */
  lemma {:induction false} CrawlCategoriesAppend(rt: Runtime, w: World, base: Option<string>, a: seq<Option<string>>, b: seq<Option<string>>)
    ensures CrawlCategories(rt, w, base, a + b) == CrawlCategories(rt, w, base, a) + CrawlCategories(rt, w, base, b)
  {
    GatherAppend(CategoryArticles(rt, w, base), a, b);
  }

  /** Each category contributes exactly its own outcome's articles, whatever
      the categories around it do: one that raised keeps what it appended
      before the exception, and the ones after it still run. */
  lemma {:induction false} CategoryIsIsolated(rt: Runtime, w: World, base: Option<string>,
                                              before: seq<Option<string>>, raw: Option<string>, after: seq<Option<string>>)
    ensures CrawlCategories(rt, w, base, before + [raw] + after) ==
      CrawlCategories(rt, w, base, before) + Category(rt, w, base, raw).added + CrawlCategories(rt, w, base, after)
  {
    var f := CategoryArticles(rt, w, base);
    GatherIsolated(f, before, raw, after);
    assert f(raw) == Category(rt, w, base, raw).added;
  }

  lemma GatherIsolated(category: Option<string> -> seq<Article>, before: seq<Option<string>>, raw: Option<string>, after: seq<Option<string>>)
    ensures Gather(category, before + [raw] + after) == Gather(category, before) + category(raw) + Gather(category, after)
  {
    GatherAppend(category, before + [raw], after);
    GatherAppend(category, before, [raw]);
    assert [raw][1..] == [];
    assert Gather(category, [raw]) == category(raw) + Gather(category, []);
  }

  /** The files written at the end: both savers run on a non-empty
      accumulator and neither runs on an empty one. Each saver reads the
      clock itself, so the two files carry their own timestamps. */
  datatype Saved = Saved(csv: Option<Saver.Written<Saver.Table>>, jsonl: Option<Saver.Written<string>>)

  function Finish(rt: Runtime, all: seq<Article>, csvStamp: string, jsonlStamp: string, serialize: Article -> string): (r: Saved)
    ensures r.csv.Some? <==> |all| > 0
    ensures r.jsonl.Some? <==> |all| > 0
    ensures r.csv.Some? ==> |r.csv.value.body.rows| == |all|
    ensures r.csv.Some? ==> r.csv.value.path == Saver.TimestampedFilename(rt.saver, "csv", csvStamp)
    ensures r.jsonl.Some? ==> r.jsonl.value.path == Saver.TimestampedFilename(rt.saver, "jsonl", jsonlStamp)
    ensures |all| > 0 ==>
      r == Saved(Saver.SaveCsv(rt.saver, all, csvStamp), Saver.SaveJsonl(rt.saver, all, jsonlStamp, serialize))
  {
    if |all| > 0 then
      Saved(Saver.SaveCsv(rt.saver, all, csvStamp), Saver.SaveJsonl(rt.saver, all, jsonlStamp, serialize))
    else Saved(None, None)
  }

  /** Read back, the saved files give every accumulated article in order:
      the CSV row by row, and the JSONL line by line when no serialised
      article holds a newline. */
  lemma SavedFilesHoldEveryArticle(rt: Runtime, all: seq<Article>, csvStamp: string, jsonlStamp: string, serialize: Article -> string)
    requires |all| > 0
    requires forall i :: 0 <= i < |all| ==> '\n' !in serialize(all[i])
    ensures var r := Finish(rt, all, csvStamp, jsonlStamp, serialize);
      && r.csv.Some? && r.jsonl.Some?
      && (forall i :: 0 <= i < |all| ==> r.csv.value.body.rows[i] == Saver.Row(all[i]))
      && Lines(r.jsonl.value.body) == Saver.Serialized(all, serialize)
  {
  }

  /** The whole script after the configuration has been read; the two
      stamps are the clock readings of `save_csv` and `save_jsonl`. */
  function Run(s: Settings, w: World, sources: seq<Source>, csvStamp: string, jsonlStamp: string, serialize: Article -> string): (r: Saved)
    ensures r.csv.Some? <==> |CrawlSources(Configure(s), w, sources)| > 0
    ensures r.jsonl.Some? <==> |CrawlSources(Configure(s), w, sources)| > 0
  {
    var rt := Configure(s);
    var all := CrawlSources(rt, w, sources);
    Finish(rt, all, csvStamp, jsonlStamp, serialize)
  }
}
