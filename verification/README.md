# BBC Dari/Persian crawler — a Dafny model

This project models the core of a small Python crawler that builds a Dari/Persian
text dataset from BBC Persian. The crawler reads category pages, keeps links
that look like articles, and fetches each article. It extracts the article's
fields, normalises the text and keeps only articles a language detector
classifies as Persian. It then writes the collection as CSV and JSONL. A
companion script (`collect_topics.py`) discovers topic pages and writes them
into the configuration.

The model is functional. Strings are `seq<char>` over Unicode scalar values.
Articles, parsed links and YAML documents are immutable datatypes. The two
loops (the crawl over sources and categories, and the topic discovery with its
depth-1 follow) are recursive folds. Fetching, HTML parsing, `urljoin` and
`urlparse` of general URLs, `langdetect.detect` and `datetime.fromisoformat`
are function parameters.

Modules, one per source file plus shared helpers:

- `Wrappers`: `Option` and `Try`, where `Raised` is a Python exception.
- `Text`: the `str` operations used by the crawler.
  - `isspace`, `strip`, `startswith`, `endswith`, `in`, `split('/')`, `join`.
  - Slicing with Python's rules.
  - Newline-terminated line files.
- `Ordering`: code-point string order and `sorted(set(...))`.
- `Articles`: the seven-key article record.
- `Cleaner`: `cleaner.py`.
- `Detector`: `detector.py`.
- `Parser`: `parser.py`, over a flattened element sequence.
- `Saver`: `saver.py`.
- `Crawl`: `main.py`.
- `Topics`: `collect_topics.py`, the matcher and discovery.
- `TopicsConfig`: `collect_topics.py`, the configuration rewrite.

Where the code and its docstrings and comments (the documented intent)
disagree, the model follows the code:

- `normalize_text` is not idempotent. A zero-width non-joiner between two
  spaces survives the whitespace pass and is then deleted, leaving a double
  space. `Cleaner.NotIdempotent` exhibits this. Idempotence is proved only
  for text without U+200C/U+200D.
- `is_valid_language` catches only `LangDetectException`. Any other exception
  from the detector escapes to the crawl loop's per-category `try`. The model
  therefore gives the detector three outcomes: a language, "no features" (the
  caught exception), or a crash.
- A collected topic URL is `urljoin(BASE, path)`. That is the origin
  `https://www.bbc.com` followed by the path with its dot segments removed,
  not a path rooted at the topics directory.
- `parse_article` never returns a false value. The `if not article` skip in
  the crawl loop cannot fire, so the model has no such branch.
- In `collect_topics.py` a failed first fetch of the homepage ends the run
  cleanly with a message. Any failed fetch after it ends the run with an
  exception. The crawler isolates failures; this script does not. See
  "Findings".

## Model

| member | source | states |
|---|---|---|
| Cleaner.Replace | cleaner.py:21 | `replace` of one character: same length, each occurrence of the old character becomes the new one, every other position is unchanged |
| Cleaner.ReplaceAll | cleaner.py:20-21 | the loop of `replace` calls keeps the length, and each position holds its own character pushed through the entries in order |
| Cleaner.ApplyCharMap | cleaner.py:7-10 | first pass: each character is translated on its own, and no Arabic Yeh or Kaf remains |
| Cleaner.CharMapIsPerCharacter | cleaner.py:20-21 | the two sequential `replace` calls equal one per-character translation |
| Cleaner.NoArabicUnchanged | cleaner.py:20-21 | text without Arabic Yeh/Kaf is left unchanged by the first pass |
| Cleaner.Squeeze | cleaner.py:24 | second pass: the whitespace runs collapsed and then stripped; apart from whitespace and zero-width characters it spells exactly its input; the only whitespace left is U+0020, never two in a row and none at either end |
| Cleaner.SqueezeAfterWord | cleaner.py:24 | two words separated by a whitespace run become the two words joined by one space |
| Cleaner.Collapse | cleaner.py:24 | substituting whitespace runs never lengthens the text |
| Cleaner.CollapseAfterWord | cleaner.py:24 | a run of whitespace after a word becomes exactly one space at that place, and the rest is collapsed in turn |
| Cleaner.CollapseShape | cleaner.py:24 | collapsing whitespace runs keeps every non-space character, emits only U+0020 and leaves no double space |
| Cleaner.RemoveZeroWidth | cleaner.py:27 | the third pass never lengthens the text and leaves no U+200C or U+200D |
| Cleaner.RemoveZeroWidthKeeps | cleaner.py:27 | third pass keeps every character other than U+200C/U+200D and is the identity on text without them |
| Cleaner.NormalizeText | cleaner.py:12-29 | empty input gives ""; output is no longer than input; it has no Arabic Yeh/Kaf, no U+200C/U+200D, and no whitespace but U+0020 |
| Cleaner.NormalizeInPasses | cleaner.py:16-27 | a non-empty text is normalised by the character map, then the whitespace pass, then the zero-width pass, in that order |
| Cleaner.NormalizeTwoWords | cleaner.py:12-29 | two words separated by a whitespace run normalise to the two mapped words, zero-width characters removed, joined by one space |
| Cleaner.RemoveZeroWidthConcat | cleaner.py:27 | removing zero-width characters works piecewise over a concatenation |
| Cleaner.ReferenceExample | cleaner.py:12-29 | `"كتاب  يار‌"` normalises to `"کتاب یار"` |
| Cleaner.NotIdempotent | cleaner.py:24-27 | `"a ‌ b"` gives `"a  b"`, which normalises again to `"a b"` |
| Cleaner.NormalizeIdempotentWithoutZeroWidth | cleaner.py:24-27 | for input without U+200C/U+200D, normalising twice equals normalising once |
| Cleaner.NormalizeWithoutZeroWidthIsCanonical | cleaner.py:20-27 | on input without zero-width characters the output is canonical: no Arabic letters, no zero-width, single plain spaces, trimmed |
| Cleaner.FixedPointsAreCanonical | cleaner.py:12-29 | a text is a fixed point of the normaliser iff it is canonical |
| Cleaner.CanonicalIsFixed | cleaner.py:12-29 | a canonical text is left unchanged |
| Cleaner.SecondPassIsStable | cleaner.py:12-29 | normalising a third time changes nothing after two passes |
| Cleaner.NormalizeKeepsVisible | cleaner.py:20-27 | apart from whitespace and zero-width characters, the output spells exactly the first pass's output |
| Cleaner.CleanArticle | cleaner.py:31-38 | `date`, `category`, `url` unchanged; each of `title`, `author`, `summary`, `content` is present iff it was, and when present it is the normalised original |
| Cleaner.CleanField | cleaner.py:35-37 | a field is present after cleaning iff it was; a non-empty value is normalised; an empty one is left as it was |
| Cleaner.CleanArticleIdempotentWithoutZeroWidth | cleaner.py:31-38 | cleaning twice equals cleaning once when no text field holds a zero-width character |
| Detector.NewDetector | detector.py:9-12 | a missing or empty language list becomes `["fa"]`; a non-empty one is kept; `min_chars` is kept |
| Detector.IsValidLanguage | detector.py:14-25 | accepted iff non-empty, at least `min_chars` long, and detected as a target language; raises iff long enough and the detector crashes; short text is `False` |
| Detector.ShortTextRejectedByAnyDetector | detector.py:18-19 | text shorter than `min_chars` gets the same `False` under any two detectors |
| Detector.NoFeaturesIsRejection | detector.py:24-25 | a `LangDetectException` is a rejection, not an error |
| Detector.TenCharactersRejected | detector.py:18-19 | with the defaults a ten-character text is rejected even if detected as `fa` |
| Parser.Find | parser.py:16 | `None` iff no element matches; otherwise a matching element of the document |
| Parser.ParagraphTexts | parser.py:34-35 | the pieces are non-empty and no more than the elements; every non-empty `p` text is one of them; every piece is the text of a `p` |
| Parser.ParagraphTextsConcat | parser.py:34-35 | paragraph pieces of a concatenated document are the concatenation, so document order is kept |
| Parser.ParseArticle | parser.py:41-49 | `url` and `category` pass through; `content` is the newline join of the paragraph pieces |
| Parser.TitleRule | parser.py:16-17 | the title is the text of the first `h1` |
| Parser.NoTitleRule | parser.py:16-17 | the title is missing iff there is no `h1` |
| Parser.AuthorRule | parser.py:30-31 | the author is the text of the first `span` carrying class `byline__name` |
| Parser.AuthorAbsentRule | parser.py:30-31 | the author is missing iff no `span` carries class `byline__name` |
| Parser.BylineClassIsOneToken | parser.py:30 | for class lists of single tokens, a `span` is a byline iff `byline__name` is one of its classes |
| Parser.SummaryRule | parser.py:37-39 | the summary is the text of the first `p` carrying the summary class |
| Parser.NoSummaryRule | parser.py:37-39 | the summary is missing iff no `p` carries the summary class |
| Parser.SummaryClassIsWholeAttribute | parser.py:38 | the summary filter names two tokens, so only a `p` whose whole class attribute reads `bbc-1qew3k6 e1cc2ql70`, in that order, matches |
| Parser.DateOf | parser.py:20-27 | a date exists iff the `time` element exists and has a `datetime` attribute; it is the ISO form when that parses, else the element's text |
| Parser.DateRule | parser.py:20-27 | the first `time` element decides: no `datetime` attribute gives no date; otherwise the ISO form if it parses, else the element's text |
| Parser.NoTimeNoDate | parser.py:20-27 | without a `time` element there is no date |
| Parser.SummaryIsInContent | parser.py:34-39 | a non-empty summary is one of the paragraph pieces and occurs in `content` |
| Parser.FirstIsUnique | parser.py:16-31 | the "first matching element" is one position |
| Saver.PathJoin | saver.py:15 | `os.path.join`: ends with the file name; an absolute name replaces the directory; otherwise it is the directory, a `/` if needed, then the name |
| Saver.TimestampedFilename | saver.py:13-15 | the path ends in `<base>_<timestamp>.<ext>` and, for a relative base name, starts with the output directory |
| Saver.SaveCsv | saver.py:17-26 | nothing for an empty list; otherwise the `.csv` path, the seven-field header and one row per article in order |
| Saver.Row | saver.py:22-24 | each cell is the article's value for the header field above it |
| Saver.SaveJsonl | saver.py:28-40 | nothing for an empty list; otherwise the `.jsonl` path and a body that is each serialised article followed by a newline, in order; read back by lines, that body gives the serialised articles when none contains a newline |
| Saver.JsonlOneLinePerArticle | saver.py:33-36 | reading the JSONL body line by line gives one serialised article per line, in order |
| Crawl.Configure | main.py:25-44 | each setting takes the configured value, and its default when absent: cap 50, no user agents, delay 2, retries 3, `["fa"]`, 50 characters, `data`, `dari_dataset`; a `null` or empty language list also gives `["fa"]` |
| Crawl.EmptySettingsGiveDefaults | main.py:25-44 | an empty configuration yields exactly the documented defaults |
| Crawl.NormalizeCategoryUrl | main.py:52-63 | `None` iff the category is false; a stripped `http(s)://` value is returned as is; otherwise it is joined onto `base_url + "/"`, which raises when `base_url` is missing |
| Crawl.AbsoluteCategoryUrlIsFixed | main.py:59-61 | a full URL normalises to itself against any base |
| Crawl.KeptLinkShape | main.py:78-86 | a kept link is on a BBC host or relative, and its path is `/persian/` followed by at least one more character |
| Crawl.BelowPersianLinkIsKept | main.py:78-86 | a BBC or relative link that is not a topic page and lies strictly below `/persian/` is kept, the converse of `KeptLinkShape` with `TopicAndForeignLinksAreDropped` |
| Crawl.TopicAndForeignLinksAreDropped | main.py:78-82 | topic paths and off-site hosts are never kept |
| Crawl.IndexPagesAreNotArticles | main.py:84-86 | `/persian/` and `/persian` are not article links |
| Crawl.ArticlePathIsKept | main.py:84-86 | `/persian/articles-123` on a BBC or empty host is an article link |
| Crawl.CandidateUrls | main.py:70-87 | a URL is a candidate iff some anchor with that URL passes the filter |
| Crawl.ArticleUrls | main.py:116-117 | the visited URLs are a prefix of the ascending, duplicate-free candidates: exactly `min(cap, n)` of them for a cap `>= 0`, `n + cap` (at least 0) for a negative cap, all of them with no cap |
| Crawl.EvaluationText | main.py:131 | the gate sees `content`, else `summary`, else `""` |
| Crawl.ProcessArticle | main.py:122-136 | a failed fetch skips; for a fetched page the cleaned parse is kept iff it passes the language gate, and the step raises iff the detector crashes on it; a kept article has the visited URL and category |
| Crawl.ArticleStep | main.py:120-133 | the per-URL step keeps only articles whose URL is the one visited |
| Crawl.ProcessArticles | main.py:120-136 | the loop appends at most one article per URL |
| Crawl.AddedComeFromSteps | main.py:120-133 | every appended article is what processing one of the visited URLs produced |
| Crawl.ProcessedInOrder | main.py:116-120 | articles are appended in visiting order, so their URLs ascend |
| Crawl.ProcessArticlesAppend | main.py:120-139 | running the loop over two lists is running it over the first and, unless that raised, the second |
| Crawl.ExceptionKeepsEarlierArticles | main.py:133-139 | an exception at one URL keeps every article appended before it and ends the category |
| Crawl.CategoryRunsTheLoop | main.py:97-133 | a fetched category page runs the article loop over exactly the capped, sorted links of that page |
| Crawl.KeptStepIsAdded | main.py:120-133 | an article the step keeps for a URL is appended unless an earlier URL raised |
| Crawl.AcceptedArticleIsKept | main.py:116-133 | an article of a visited, fetched URL that passes the language gate is among the category's articles unless an earlier URL raised |
| Crawl.Category | main.py:97-139 | every article a category contributes passed the language gate, and there are at most the cap of them |
| Crawl.StepResultsAccepted | main.py:130-133 | articles produced by the per-URL step passed the gate and come from the visited URLs |
| Crawl.UnfetchedCategoryContributesNothing | main.py:104-107 | a category page that cannot be fetched contributes nothing and raises nothing |
| Crawl.LinklessCategoryContributesNothing | main.py:110-113 | a category page with no article links contributes nothing |
| Crawl.CategoryArticlesAreSortedLinks | main.py:110-133 | a category's articles come in ascending URL order, each from a link kept on its page |
| Crawl.CrawlCategoriesAccepted | main.py:97-139 | every article accumulated over the categories of a source passed the language gate |
| Crawl.CrawlSourcesAccepted | main.py:92-139 | every article accumulated over all sources passed the language gate |
| Crawl.CrawlCategoriesAppend | main.py:97-139 | the result over `a + b` is the result over `a` followed by that over `b` |
| Crawl.CategoryIsIsolated | main.py:98-139 | a category contributes exactly its own articles, even when it raised, and the categories after it still run |
| Crawl.Finish | main.py:144-148 | the CSV and JSONL are written iff the accumulator is non-empty; each file is what its saver produces for all accumulated articles at that saver's own clock reading, so the two stems may differ |
| Crawl.SavedFilesHoldEveryArticle | main.py:144-146 | read back, the saved CSV has one row per accumulated article in order, and the JSONL lines are the serialised articles in order when none holds a newline |
| Crawl.Run | main.py:92-148 | the output files exist iff the crawl accumulated at least one article |
| Topics.Lower | collect_topics.py:34 | IGNORECASE lowering: A-Z become a-z, U+0130 becomes `i`, U+212A becomes `k`, every other character is fixed, and only those map to an ASCII letter |
| Topics.ExactPrefixMatches | collect_topics.py:34 | `/persian/topics/` followed by a word character matches |
| Topics.TopicMatchIsPrefixMatch | collect_topics.py:34 | matching depends only on the first 17 characters, so any suffix may follow |
| Topics.MatchedPathIsAbsolute | collect_topics.py:34 | a matching path starts with `/` |
| Topics.AcceptedTopicPaths | collect_topics.py:34 | `/persian/topics/afghanistan`, `/persian/topics/AfghaN_1` and `/persian/topics/abc-def/x` match |
| Topics.CaseInsensitiveTopicPath | collect_topics.py:34 | case is ignored in the fixed part too, including long s, dotted capital I and the Kelvin sign |
| Topics.RejectedTopicPaths | collect_topics.py:34 | `/persian/topic/afghanistan`, `/persian/topics/` and `/persian/topics/-news` do not match |
| Topics.ResolveAbsolutePath | collect_topics.py:70 | `urljoin(BASE, path)` is always an `https://www.bbc.com/` URL |
| Topics.PlainPathResolvesToOriginPlusPath | collect_topics.py:66-70 | for a path without `.`/`..` segments the topic URL is `https://www.bbc.com` + path |
| Topics.DotSegmentsAreRemoved | collect_topics.py:70 | `/persian/topics/a/..` resolves to `https://www.bbc.com/persian/topics/`, not origin + path |
| Topics.RemoveNoDotSegments | collect_topics.py:70 | dot-segment removal is the identity on segments without `.`/`..` |
| Topics.RemoveDotSegmentsAppend | collect_topics.py:70 | dot-segment removal runs left to right over the segments |
| Topics.Resolve | collect_topics.py:51-55 | a stripped href starting with `http` is kept verbatim; any other is joined onto the page URL |
| Topics.ExtractLinks | collect_topics.py:47-57 | one link per anchor, in document order, each the resolution of that anchor's href |
| Topics.AbsoluteHrefsIgnoreBase | collect_topics.py:52-53 | absolute hrefs give the same links whatever page they are on |
| Topics.TopicUrls | collect_topics.py:64-70 | every collected topic URL starts with `https://www.bbc.com/` |
| Topics.TopicUrlsAreMatches | collect_topics.py:64-70 | a URL is collected iff some link's path matches, and it is that path resolved against `BASE` |
| Topics.CollectTopicsFromUrl | collect_topics.py:59-71 | bare result iff the fetch failed; otherwise the links are the page's extracted links, ascending and without duplicates, and the topics are exactly the topic URLs of those links |
| Topics.Unpack | collect_topics.py:82 | unpacking raises exactly on the bare result |
| Topics.InternalLinks | collect_topics.py:88 | a link is internal iff its host ends in `bbc.com` and its path contains `/persian/` |
| Topics.FollowedLinks | collect_topics.py:88-92 | the followed links are the first `min(50, n)` of the `n` internal homepage links |
| Topics.Collector | collect_topics.py:59-71 | a page gives the bare result iff its fetch failed; otherwise its links are that page's extracted links and its topics are the topic URLs of those links |
| Topics.FollowRaisesIffAFetchFails | collect_topics.py:92-96 | the follow loop raises iff some followed page cannot be fetched |
| Topics.DiscoverFrom | collect_topics.py:73-99 | aborted iff the first fetch of `BASE` failed; a finished run's list is strictly ascending |
| Topics.Discover | collect_topics.py:73-99 | the same for the script's own fetches |
| Topics.SecondHomepageFetchFailureCrashes | collect_topics.py:75-82 | a failure of the second fetch of `BASE` crashes the run although the first succeeded |
| Topics.FollowedFailureDecidesCrash | collect_topics.py:82-96 | once the homepage is collected, the run crashes iff a followed page cannot be fetched |
| Topics.FollowFailureCrashes | collect_topics.py:61-62 | one unfetchable followed page crashes the whole discovery |
| Topics.DiscoveredTopicsAreBbcUrls | collect_topics.py:66-70 | every saved URL starts with `https://www.bbc.com/` |
| Topics.DiscoverAgreesWhenNothingFails | collect_topics.py:73-99 | when every fetch succeeds, the corrected discovery returns what the code as written returns |
| Topics.DiscoverTolerantFrom | collect_topics.py:73-99 | the corrected discovery never crashes, is aborted iff the first fetch of `BASE` failed, and a finished list ascends |
| Topics.DiscoverTolerant | collect_topics.py:73-99 | the same for the script's own fetches |
| Topics.TopicsFileHasOneUrlPerLine | collect_topics.py:100-102 | the topics file read back line by line is the saved list |
| TopicsConfig.Lookup | collect_topics.py:109 | a key is found iff it is one of the mapping's keys |
| TopicsConfig.Store | collect_topics.py:111 | assignment keeps the key order and appends a new key last |
| TopicsConfig.StoreThenLookup | collect_topics.py:111 | after assignment the key reads the new value and every other key reads its old value |
| TopicsConfig.In | collect_topics.py:109 | `in` raises exactly on `None` and scalars; on a mapping it is key membership |
| TopicsConfig.GetItem | collect_topics.py:109-111 | indexing by a string succeeds exactly on a mapping holding the key |
| TopicsConfig.SetItem | collect_topics.py:111 | item assignment by a string succeeds exactly on a mapping |
| TopicsConfig.UpdateCategories | collect_topics.py:105-120 | the step reports "not found" exactly when there is no file |
| TopicsConfig.UpdateReplacesOnlyCategories | collect_topics.py:109-111 | the update happens iff the document has a `sources.bbc` mapping; then only `sources.bbc.categories` changes, to the saved list, and key order is kept |
| TopicsConfig.UpdateNested | collect_topics.py:106-118 | the three-level update reports "not found" exactly when there is no file |
| TopicsConfig.UpdateNestedReplacesOnlyField | collect_topics.py:109-111 | for any three keys, the nested assignment happens iff the outer two levels are mappings, and changes only the one field |
| TopicsConfig.MissingKeysSkip | collect_topics.py:109-116 | a mapping without `sources`, or whose `sources` has no `bbc`, is skipped |
| TopicsConfig.EmptyFileFails | collect_topics.py:107-120 | an empty file (`None`) fails with a caught exception |
| TopicsConfig.ListBbcFails | collect_topics.py:109-120 | a list-valued `bbc` passes both tests and then fails on the assignment |
| TopicsConfig.RunCollector | collect_topics.py:73-120 | the topics file and the configuration step happen iff discovery finished, and use its list |
| Text.Strip | cleaner.py:24 | `strip()` removes exactly the leading and trailing whitespace |
| Text.SlicePrefix | main.py:117 | `xs[:n]` is a prefix of length `min(n, len)` for `n >= 0`, counts from the end for negative `n`, and is everything for `None` |
| Text.JoinSplit | collect_topics.py:70 | joining the `/`-split pieces gives the path back |
| Text.SplitJoin | collect_topics.py:70 | splitting a join of separator-free pieces gives the pieces back |
| Text.LinesOfTerminated | saver.py:35-36 | lines written with a trailing newline each read back as written |
| Ordering.SortUnique | main.py:116 | `sorted(set(xs))` is strictly ascending with the same elements |
| Ordering.AscendingUnique | main.py:116 | two strictly ascending lists with the same elements are equal, so the sorted order is unique |

## Left out

- Fetching (`fetcher.py`, and `fetch` in `collect_topics.py`) is a parameter. That covers the HTTP session, retries with backoff, random user agents, sleeps and timeouts. Its behaviour belongs to libraries and the network.
- The crawl fetches a URL as a pure function of the URL. Topic discovery instead numbers its fetches, because it fetches `BASE` twice and the two answers may differ.
- BeautifulSoup is not modelled. Parsing, `get_text(strip=True)` and anchor discovery become element or href sequences, and anchors are given already joined and parsed. Class matching is modelled by `Parser.HasClass`, over the class list BeautifulSoup splits from the attribute.
- General `urljoin` and `urlparse` are parameters. Only the absolute-path case used for topic URLs is modelled exactly.
- `urljoin` and `urlparse` are assumed not to raise. CPython's `urlsplit` raises `ValueError` when a network location has an unbalanced `[` (an href such as `//[x`). In `collect_topics.py` (lines 55, 66 and 88) that error is not caught and would end discovery. In `main.py` (lines 74-75) the per-category `try` would catch it at line 138, and that category would contribute nothing. Neither path is modelled.
- Topics.FollowRaisesIffAFetchFails: the "only if" direction holds because `urljoin` and `urlparse` never raise here; a malformed href on a followed page would also crash the run.
- Topics.FollowedFailureDecidesCrash: likewise holds only with `urljoin` and `urlparse` that never raise.
- Crawl.Category: processes the links of every fetched category page; a page with an href that makes `urlparse` raise would instead contribute nothing.
- `langdetect` internals and its seeding are not modelled. `detect` is a deterministic parameter.
- `datetime.fromisoformat`, `datetime.now`, `json.dumps` escaping, the pandas CSV encoding (byte-order mark, quoting), `os.makedirs`, file writes, YAML parsing and dumping, and `print` logging are not modelled. They are I/O or library formatting. Each of `save_csv` and `save_jsonl` reads the clock once; the two readings are separate parameters of `Crawl.Finish` and `Crawl.Run`, and the serialiser is a parameter.
- Loading the configuration at import time is not modelled; `main.py` reads an explicit `Settings` value instead.
- `is_bbc_url` is not modelled because nothing calls it.
- Python sets have no specified iteration order. The model lists every set it iterates in ascending order. This matters only for which 50 homepage links are followed. The bounds and membership facts hold for any order.
- `normalize_text(None)` and other non-string field values are not modelled. Articles hold strings, and `None` stands for a missing field.
- Category entries that are not strings, `null` settings other than `max_articles_per_category`, `user_agents` and `target_langs`, and a `null` category list are not modelled. A `null` category list would crash outside the per-category `try`.
- YAML mappings with non-string or duplicate keys, and YAML aliases shared between nodes, are not modelled.
- Crawl.Run: states only when files are written. `Crawl.Finish` states that the files are what the saver produces, and `Saver.SaveCsv` and `Saver.SaveJsonl` state what that is.
- TopicsConfig.UpdateCategories: its own contract covers only the missing-file case. The other outcomes are stated by `UpdateReplacesOnlyCategories`, `MissingKeysSkip`, `EmptyFileFails` and `ListBbcFails`.
- Topics.Lower: returns every character whose lower-case form is not ASCII unchanged (a non-ASCII capital is not lowered), because the pattern compares only against ASCII letters, digits and `_`.

## Findings

| source | as written | input that shows it | evidently intended | confidence | as-written member | corrected member |
|---|---|---|---|---|---|---|
| collect_topics.py:61-62 | `collect_topics_from_url` returns a bare `set()` when the fetch fails, but both callers unpack two values (lines 82 and 94), so `main` dies with `ValueError` and saves nothing | the homepage is fetched, and one of the followed internal links answers 404 | a failed page contributes no topics: `if topics2:` at line 95 shows an empty result was expected, and discovery finishes with the sorted union of the pages that were fetched | high (not executed) | Topics.FollowFailureCrashes | Topics.TolerantDiscoveryIsSortedUnion |
