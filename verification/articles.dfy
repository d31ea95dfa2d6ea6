/** The article record the parser builds and the rest of the pipeline
    reads: the seven keys of the dictionary `Parser.parse_article` returns. */
module Articles {
  import opened Wrappers

  datatype Article = Article(
    title: Option<string>,
    date: Option<string>,
    author: Option<string>,
    category: Option<string>,
    summary: Option<string>,
    content: string,
    url: string)

  /** The keys in the order the parser inserts them, which is also the
      column order of the CSV export. */
  const FieldNames: seq<string> := ["title", "date", "author", "category", "summary", "content", "url"]

  /** The value stored under `key` in the article's dictionary (`None` both
      for a key whose value is `None` and for an unknown key). */
  function Field(a: Article, key: string): Option<string> {
    match key
    case "title" => a.title
    case "date" => a.date
    case "author" => a.author
    case "category" => a.category
    case "summary" => a.summary
    case "content" => Some(a.content)
    case "url" => Some(a.url)
    case _ => None
  }
}
