/** `Parser.parse_article` over a flattened document. BeautifulSoup's tree is
    not modelled: the page is the sequence of its elements in document order,
    each with its tag name, its class list, its `datetime` attribute if it
    has one, and its text as `get_text(strip=True)` returns it. */
module Parser {
  import opened Wrappers
  import opened Text
  import opened Articles

  datatype Element = Element(tag: string, classes: seq<string>, datetime: Option<string>, text: string)

  const BylineClass: string := "byline__name"
  const SummaryClass: string := "bbc-1qew3k6 e1cc2ql70"

  /** BeautifulSoup's class filter: one of the classes equals the wanted
      string, or the whole space-joined attribute does. */
  predicate HasClass(e: Element, want: string) {
    want in e.classes || Join(" ", e.classes) == want
  }

  /** `byline__name` is one class token: with a class list of tokens (no
      spaces inside a token, as BeautifulSoup splits the attribute), a span
      matches exactly when that token is among its classes. */
  lemma BylineClassIsOneToken(e: Element)
    requires forall k :: 0 <= k < |e.classes| ==> ' ' !in e.classes[k]
    ensures HasClass(e, BylineClass) <==> BylineClass in e.classes
  {
    assert forall k :: 0 <= k < |BylineClass| ==> BylineClass[k] != ' ';
    if |e.classes| >= 2 {
      var j := Join(" ", e.classes);
      assert j == e.classes[0] + " " + Join(" ", e.classes[1..]);
      assert j[|e.classes[0]|] == ' ';
      assert j != BylineClass;
    }
  }

  /** The summary filter names two tokens, so no single class can equal
      it: only an element whose whole class attribute reads exactly
      `bbc-1qew3k6 e1cc2ql70`, in that order, matches. */
  lemma SummaryClassIsWholeAttribute(e: Element)
    requires forall k :: 0 <= k < |e.classes| ==> ' ' !in e.classes[k]
    ensures HasClass(e, SummaryClass) <==> Join(" ", e.classes) == SummaryClass
  {
    assert SummaryClass[11] == ' ';
  }

  predicate IsTitle(e: Element) { e.tag == "h1" }
  predicate IsTime(e: Element) { e.tag == "time" }
  predicate IsByline(e: Element) { e.tag == "span" && HasClass(e, BylineClass) }
  predicate IsParagraph(e: Element) { e.tag == "p" }
  predicate IsSummary(e: Element) { e.tag == "p" && HasClass(e, SummaryClass) }

  /** `soup.find(...)`: the first element in document order that matches. */
  function Find(elems: seq<Element>, matches: Element -> bool): (r: Option<Element>)
    ensures r.None? <==> forall i :: 0 <= i < |elems| ==> !matches(elems[i])
    ensures r.Some? ==> exists i :: 0 <= i < |elems| && elems[i] == r.value && matches(r.value)
                          && forall j :: 0 <= j < i ==> !matches(elems[j])
  {
    if |elems| == 0 then None
    else if matches(elems[0]) then Some(elems[0])
    else
      var r := Find(elems[1..], matches);
      assert r.Some? ==> exists i :: 0 <= i < |elems[1..]| && elems[1..][i] == r.value && matches(r.value)
                          && forall j :: 0 <= j < i ==> !matches(elems[1..][j]);
      if r.Some? then
        var i :| 0 <= i < |elems[1..]| && elems[1..][i] == r.value && matches(r.value)
                  && forall j :: 0 <= j < i ==> !matches(elems[1..][j]);
        assert elems[i + 1] == r.value;
        r
      else r
  }

  /** The non-empty texts of all `p` elements, in document order. */
  function ParagraphTexts(elems: seq<Element>): (r: seq<string>)
    ensures |r| <= |elems|
    ensures forall k :: 0 <= k < |r| ==> r[k] != ""
    ensures forall i :: 0 <= i < |elems| && IsParagraph(elems[i]) && elems[i].text != "" ==> elems[i].text in r
    ensures forall k :: 0 <= k < |r| ==> exists i :: 0 <= i < |elems| && IsParagraph(elems[i]) && elems[i].text == r[k]
  {
    if |elems| == 0 then []
    else
      var rest := ParagraphTexts(elems[1..]);
      assert forall i :: 1 <= i < |elems| ==> elems[i] == elems[1..][i - 1];
      if IsParagraph(elems[0]) && elems[0].text != "" then [elems[0].text] + rest else rest
  }

  /** The date rule: the `datetime` attribute of the first `time` element,
      in ISO form when `fromisoformat` accepts it and as the element's text
      otherwise. `iso` stands for `datetime.fromisoformat(v).isoformat()`. */
  function DateOf(time: Option<Element>, iso: string -> Option<string>): (r: Option<string>)
    ensures r.Some? <==> time.Some? && time.value.datetime.Some?
    ensures r.Some? && iso(time.value.datetime.value).Some? ==> r == iso(time.value.datetime.value)
    ensures r.Some? && iso(time.value.datetime.value).None? ==> r == Some(time.value.text)
  {
    match time
    case None => None
    case Some(e) =>
      match e.datetime
      case None => None
      case Some(v) => Some(iso(v).GetOr(e.text))
  }

  function TextOf(e: Option<Element>): Option<string> {
    match e
    case None => None
    case Some(x) => Some(x.text)
  }

  /** `Parser.parse_article(html, url, category)` on the flattened page. */
  function ParseArticle(elems: seq<Element>, url: string, category: Option<string>, iso: string -> Option<string>): (a: Article)
    ensures a.url == url && a.category == category
    ensures a.content == Join("\n", ParagraphTexts(elems))
  {
    Article(
      title := TextOf(Find(elems, IsTitle)),
      date := DateOf(Find(elems, IsTime), iso),
      author := TextOf(Find(elems, IsByline)),
      category := category,
      summary := TextOf(Find(elems, IsSummary)),
      content := Join("\n", ParagraphTexts(elems)),
      url := url)
  }

  /** `i` is the position of the first element `matches` accepts. */
  ghost predicate FirstAt(elems: seq<Element>, matches: Element -> bool, i: int) {
    0 <= i < |elems| && matches(elems[i]) && forall j :: 0 <= j < i ==> !matches(elems[j])
  }

  lemma FirstIsUnique(elems: seq<Element>, matches: Element -> bool, i: int, k: int)
    requires FirstAt(elems, matches, i) && FirstAt(elems, matches, k)
    ensures i == k
  {
  }

  /** `title` is the text of the first `h1`, and absent without one. */
  lemma TitleRule(elems: seq<Element>, url: string, category: Option<string>, iso: string -> Option<string>, i: int)
    requires FirstAt(elems, IsTitle, i)
    ensures ParseArticle(elems, url, category, iso).title == Some(elems[i].text)
  {
    var r := Find(elems, IsTitle);
    var k :| 0 <= k < |elems| && elems[k] == r.value && IsTitle(r.value) && forall j :: 0 <= j < k ==> !IsTitle(elems[j]);
    FirstIsUnique(elems, IsTitle, i, k);
  }

  lemma NoTitleRule(elems: seq<Element>, url: string, category: Option<string>, iso: string -> Option<string>)
    ensures ParseArticle(elems, url, category, iso).title.None? <==> forall i :: 0 <= i < |elems| ==> elems[i].tag != "h1"
  {
  }

  /** `author` is the text of the first `span` with class `byline__name`. */
  lemma AuthorRule(elems: seq<Element>, url: string, category: Option<string>, iso: string -> Option<string>, i: int)
    requires FirstAt(elems, IsByline, i)
    ensures ParseArticle(elems, url, category, iso).author == Some(elems[i].text)
  {
    var r := Find(elems, IsByline);
    var k :| 0 <= k < |elems| && elems[k] == r.value && IsByline(r.value) && forall j :: 0 <= j < k ==> !IsByline(elems[j]);
    FirstIsUnique(elems, IsByline, i, k);
  }

  lemma AuthorAbsentRule(elems: seq<Element>, url: string, category: Option<string>, iso: string -> Option<string>)
    ensures ParseArticle(elems, url, category, iso).author.None? <==> forall i :: 0 <= i < |elems| ==> !IsByline(elems[i])
  {
  }

  /** `summary` is the text of the first `p` with class
      `bbc-1qew3k6 e1cc2ql70`, and absent without one. */
  lemma SummaryRule(elems: seq<Element>, url: string, category: Option<string>, iso: string -> Option<string>, i: int)
    requires FirstAt(elems, IsSummary, i)
    ensures ParseArticle(elems, url, category, iso).summary == Some(elems[i].text)
  {
    var r := Find(elems, IsSummary);
    var k :| 0 <= k < |elems| && elems[k] == r.value && IsSummary(r.value) && forall j :: 0 <= j < k ==> !IsSummary(elems[j]);
    FirstIsUnique(elems, IsSummary, i, k);
  }

  lemma NoSummaryRule(elems: seq<Element>, url: string, category: Option<string>, iso: string -> Option<string>)
    ensures ParseArticle(elems, url, category, iso).summary.None? <==> forall i :: 0 <= i < |elems| ==> !IsSummary(elems[i])
  {
  }

  /** `date` comes from the first `time` element only: absent when that
      element has no `datetime` attribute (whatever its text), the ISO form
      of the attribute when it parses, the element's text when it does not. */
  lemma DateRule(elems: seq<Element>, url: string, category: Option<string>, iso: string -> Option<string>, i: int)
    requires FirstAt(elems, IsTime, i)
    ensures var d := ParseArticle(elems, url, category, iso).date;
      && (elems[i].datetime.None? ==> d.None?)
      && (elems[i].datetime.Some? && iso(elems[i].datetime.value).Some? ==> d == iso(elems[i].datetime.value))
      && (elems[i].datetime.Some? && iso(elems[i].datetime.value).None? ==> d == Some(elems[i].text))
  {
    var r := Find(elems, IsTime);
    var k :| 0 <= k < |elems| && elems[k] == r.value && IsTime(r.value) && forall j :: 0 <= j < k ==> !IsTime(elems[j]);
    FirstIsUnique(elems, IsTime, i, k);
  }

  lemma NoTimeNoDate(elems: seq<Element>, url: string, category: Option<string>, iso: string -> Option<string>)
    requires forall i :: 0 <= i < |elems| ==> elems[i].tag != "time"
    ensures ParseArticle(elems, url, category, iso).date.None?
  {
  }

  /** Paragraph collection follows document order: the pieces of a
      concatenated page are the pieces of each part, in turn. */
  lemma {:induction false} ParagraphTextsConcat(a: seq<Element>, b: seq<Element>)
    ensures ParagraphTexts(a + b) == ParagraphTexts(a) + ParagraphTexts(b)
    decreases |a|
  {
    if |a| > 0 {
      var h := if IsParagraph(a[0]) && a[0].text != "" then [a[0].text] else [];
      assert (a + b)[0] == a[0] && (a + b)[1..] == a[1..] + b;
      assert ParagraphTexts(a + b) == h + ParagraphTexts(a[1..] + b);
      assert ParagraphTexts(a) == h + ParagraphTexts(a[1..]);
      ParagraphTextsConcat(a[1..], b);
    } else {
      assert a + b == b;
    }
  }

  /** The summary element is itself a paragraph, so a non-empty summary is
      one of the pieces of `content` and occurs in it. */
  lemma SummaryIsInContent(elems: seq<Element>, url: string, category: Option<string>, iso: string -> Option<string>)
    requires var a := ParseArticle(elems, url, category, iso); a.summary.Some? && a.summary.value != ""
    ensures var a := ParseArticle(elems, url, category, iso);
      a.summary.value in ParagraphTexts(elems) && Contains(a.content, a.summary.value)
  {
    var a := ParseArticle(elems, url, category, iso);
    var r := Find(elems, IsSummary);
    var k :| 0 <= k < |elems| && elems[k] == r.value && IsSummary(r.value);
    var pieces := ParagraphTexts(elems);
    assert a.summary.value in pieces;
    var m :| 0 <= m < |pieces| && pieces[m] == a.summary.value;
    JoinContainsPiece("\n", pieces, m);
  }

  lemma {:induction false} JoinContainsPiece(sep: string, parts: seq<string>, m: int)
    requires 0 <= m < |parts|
    ensures Contains(Join(sep, parts), parts[m])
    decreases |parts|
  {
    if |parts| == 1 {
      ContainsAt(parts[0], parts[0], 0);
    } else if m == 0 {
      ContainsAt(Join(sep, parts), parts[0], 0);
    } else {
      JoinContainsPiece(sep, parts[1..], m - 1);
      var pre := parts[0] + sep;
      ContainsAfter(pre, Join(sep, parts[1..]), parts[m]);
      assert Join(sep, parts) == pre + Join(sep, parts[1..]);
    }
  }
}
