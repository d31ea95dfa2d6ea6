/** `Saver`: the dataset writers. Only what decides whether a file is
    written, where, and with how many records is modelled; CSV quoting, the
    byte-order mark and JSON escaping are not (`serialize` stands for
    `json.dumps(article, ensure_ascii=False)`). */
module Saver {
  import opened Wrappers
  import opened Text
  import opened Articles

  datatype Config = Config(outputDir: string, baseFilename: string)

  const DefaultConfig: Config := Config("data", "dari_dataset")

  /** A file the saver would write: its path and its contents. */
  datatype Written<T> = Written(path: string, body: T)

  /** The CSV as a table of values: a header row and one row per article;
      `None` is an empty cell. */
  datatype Table = Table(header: seq<string>, rows: seq<seq<Option<string>>>)

  /** `os.path.join(a, b)` for two POSIX components. */
  function PathJoin(a: string, b: string): (r: string)
    ensures EndsWith(r, b)
    ensures !StartsWith(b, "/") ==> StartsWith(r, a)
    ensures !StartsWith(b, "/") && a != "" && !EndsWith(a, "/") ==> r == a + "/" + b
  {
    if StartsWith(b, "/") then b
    else if a == "" || EndsWith(a, "/") then a + b
    else a + "/" + b
  }

  /** `Saver._timestamped_filename(ext)`, with the `%Y%m%d_%H%M%S` stamp of
      `datetime.now()` passed in. */
  function TimestampedFilename(c: Config, ext: string, timestamp: string): (path: string)
    ensures EndsWith(path, c.baseFilename + "_" + timestamp + "." + ext)
    ensures !StartsWith(c.baseFilename, "/") ==> StartsWith(path, c.outputDir)
  {
    var name := c.baseFilename + "_" + timestamp + "." + ext;
    assert !StartsWith(c.baseFilename, "/") ==> !StartsWith(name, "/") by {
      if |c.baseFilename| > 0 { assert name[..1] == c.baseFilename[..1]; }
      else { assert name[..1] == "_"; }
    }
    PathJoin(c.outputDir, name)
  }

  /** The cells of one article, in header order. */
  function Row(a: Article): (row: seq<Option<string>>)
    ensures |row| == |FieldNames|
    ensures forall k :: 0 <= k < |row| ==> row[k] == Field(a, FieldNames[k])
  {
    [a.title, a.date, a.author, a.category, a.summary, Some(a.content), Some(a.url)]
  }

  /** `Saver.save_csv`: nothing for an empty list, otherwise one row per
      article under the seven-column header. */
  function SaveCsv(c: Config, articles: seq<Article>, timestamp: string): (r: Option<Written<Table>>)
    ensures r.None? <==> |articles| == 0
    ensures r.Some? ==> r.value.path == TimestampedFilename(c, "csv", timestamp)
    ensures r.Some? ==> r.value.body.header == FieldNames && |r.value.body.rows| == |articles|
    ensures r.Some? ==> forall i :: 0 <= i < |articles| ==> r.value.body.rows[i] == Row(articles[i])
  {
    if |articles| == 0 then None
    else Some(Written(TimestampedFilename(c, "csv", timestamp),
                      Table(FieldNames, seq(|articles|, i requires 0 <= i < |articles| => Row(articles[i])))))
  }

  /** The JSONL text: each serialised article followed by a newline. */
  function JsonlBody(articles: seq<Article>, serialize: Article -> string): string {
    Terminated(Serialized(articles, serialize))
  }

  /** `Saver.save_jsonl` */
  function SaveJsonl(c: Config, articles: seq<Article>, timestamp: string, serialize: Article -> string): (r: Option<Written<string>>)
    ensures r.None? <==> |articles| == 0
    ensures r.Some? ==> r.value.path == TimestampedFilename(c, "jsonl", timestamp)
    ensures r.Some? ==> r.value.body == Terminated(Serialized(articles, serialize))
    ensures r.Some? && (forall i :: 0 <= i < |articles| ==> '\n' !in serialize(articles[i]))
            ==> Lines(r.value.body) == Serialized(articles, serialize)
  {
    if |articles| == 0 then None
    else
      JsonlOneLinePerArticle(articles, serialize);
      Some(Written(TimestampedFilename(c, "jsonl", timestamp), JsonlBody(articles, serialize)))
  }

  function Serialized(articles: seq<Article>, serialize: Article -> string): (r: seq<string>)
    ensures |r| == |articles|
    ensures forall i :: 0 <= i < |articles| ==> r[i] == serialize(articles[i])
  {
    seq(|articles|, i requires 0 <= i < |articles| => serialize(articles[i]))
  }

  /** Reading the JSONL body back line by line gives exactly the serialised
      articles, in order, provided no serialised article spans two lines
      (`json.dumps` escapes newlines inside strings). */
  lemma JsonlOneLinePerArticle(articles: seq<Article>, serialize: Article -> string)
    ensures (forall i :: 0 <= i < |articles| ==> '\n' !in serialize(articles[i]))
            ==> Lines(JsonlBody(articles, serialize)) == Serialized(articles, serialize)
  {
    var lines := Serialized(articles, serialize);
    if forall i :: 0 <= i < |articles| ==> '\n' !in serialize(articles[i]) {
      assert forall i :: 0 <= i < |lines| ==> '\n' !in lines[i];
      LinesOfTerminated(lines);
    }
  }
}
