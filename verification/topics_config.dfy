/** The last step of `collect_topics.py`: replacing
    `sources.bbc.categories` in the loaded configuration with the saved
    topic list. The loaded YAML document is a value; loading and dumping
    it are not modelled. */
module TopicsConfig {
  import opened Wrappers
  import opened Text
  import Topics

  /** A YAML document as `yaml.safe_load` returns it: `None`, a number or
      boolean (kept as its type name and text), a string, a list, or a
      mapping with string keys in document order. */
  datatype Yaml =
    | Null
    | Scalar(typeName: string, text: string)
    | Str(value: string)
    | List(items: seq<Yaml>)
    | Dict(entries: seq<(string, Yaml)>)

  function Keys(entries: seq<(string, Yaml)>): (r: seq<string>)
    ensures |r| == |entries|
    ensures forall i :: 0 <= i < |entries| ==> r[i] == entries[i].0
  {
    seq(|entries|, i requires 0 <= i < |entries| => entries[i].0)
  }

  /** `d[key]` on a mapping, `None` for a missing key. */
  function Lookup(entries: seq<(string, Yaml)>, key: string): (r: Option<Yaml>)
    ensures r.Some? <==> key in Keys(entries)
  {
    if |entries| == 0 then None
    else if entries[0].0 == key then Some(entries[0].1)
    else
      assert Keys(entries) == [entries[0].0] + Keys(entries[1..]);
      Lookup(entries[1..], key)
  }

  /** `d[key] = value` on a mapping: an existing key keeps its place, a new
      one goes last. */
  function Store(entries: seq<(string, Yaml)>, key: string, value: Yaml): (r: seq<(string, Yaml)>)
    ensures Keys(r) == if key in Keys(entries) then Keys(entries) else Keys(entries) + [key]
  {
    if |entries| == 0 then [(key, value)]
    else
      KeysOfFirst(entries);
      if entries[0].0 == key then
        KeysCons((key, value), entries[1..]);
        [(key, value)] + entries[1..]
      else
        var rest := Store(entries[1..], key, value);
        KeysCons(entries[0], rest);
        [entries[0]] + rest
  }

  lemma KeysCons(e: (string, Yaml), rest: seq<(string, Yaml)>)
    ensures Keys([e] + rest) == [e.0] + Keys(rest)
  {
  }

  lemma KeysOfFirst(entries: seq<(string, Yaml)>)
    requires |entries| > 0
    ensures Keys(entries) == [entries[0].0] + Keys(entries[1..])
  {
  }

  /** After storing, the key reads back the stored value and every other key
      reads what it read before. */
  lemma {:induction false} StoreThenLookup(entries: seq<(string, Yaml)>, key: string, value: Yaml, k: string)
    ensures Lookup(Store(entries, key, value), k) == if k == key then Some(value) else Lookup(entries, k)
    decreases |entries|
  {
    if |entries| > 0 && entries[0].0 != key {
      StoreThenLookup(entries[1..], key, value, k);
      var r := Store(entries, key, value);
      assert r[0] == entries[0] && r[1..] == Store(entries[1..], key, value);
    } else if |entries| > 0 {
      var r := Store(entries, key, value);
      assert r[1..] == entries[1..];
    }
  }

  /** The type name Python reports for a value. */
  function TypeName(v: Yaml): string {
    match v
    case Null => "NoneType"
    case Scalar(t, _) => t
    case Str(_) => "str"
    case List(_) => "list"
    case Dict(_) => "dict"
  }

  /** `key in container`. */
  function In(key: string, container: Yaml): (r: Try<bool>)
    ensures r.Raised? <==> container.Null? || container.Scalar?
    ensures container.Dict? ==> r == Ok(key in Keys(container.entries))
  {
    match container
    case Dict(entries) => Ok(Lookup(entries, key).Some?)
    case List(items) => Ok(Str(key) in items)
    case Str(s) => Ok(Contains(s, key))
    case _ => Raised("TypeError: argument of type '" + TypeName(container) + "' is not iterable")
  }

  /** `container[key]`. */
  function GetItem(container: Yaml, key: string): (r: Try<Yaml>)
    ensures r.Ok? <==> container.Dict? && key in Keys(container.entries)
    ensures r.Ok? ==> Lookup(container.entries, key) == Some(r.value)
  {
    match container
    case Dict(entries) =>
      (match Lookup(entries, key)
       case Some(v) => Ok(v)
       case None => Raised("KeyError: '" + key + "'"))
    case List(_) => Raised("TypeError: list indices must be integers or slices, not str")
    case Str(_) => Raised("TypeError: string indices must be integers")
    case _ => Raised("TypeError: '" + TypeName(container) + "' object is not subscriptable")
  }

  /** `container[key] = value`. */
  function SetItem(container: Yaml, key: string, value: Yaml): (r: Try<Yaml>)
    ensures r.Ok? <==> container.Dict?
    ensures r.Ok? ==> r.value == Dict(Store(container.entries, key, value))
  {
    match container
    case Dict(entries) => Ok(Dict(Store(entries, key, value)))
    case List(_) => Raised("TypeError: list indices must be integers or slices, not str")
    case _ => Raised("TypeError: '" + TypeName(container) + "' object does not support item assignment")
  }

  function Strings(xs: seq<string>): (r: Yaml)
    ensures r.List? && |r.items| == |xs|
    ensures forall i :: 0 <= i < |xs| ==> r.items[i] == Str(xs[i])
  {
    List(seq(|xs|, i requires 0 <= i < |xs| => Str(xs[i])))
  }

  /** How the configuration step ends: no file, the expected structure is
      missing, an exception (reported as a warning), or the new document
      written back. */
  datatype Update = NotFound | Skipped | Failed(error: string) | Updated(config: Yaml)

  /** The `try` block at the end of `main`; `file` is the loaded
      configuration, `None` when the file does not exist. */
  function UpdateCategories(file: Option<Yaml>, sorted: seq<string>): (r: Update)
    ensures r == NotFound <==> file.None?
  {
    UpdateNested(file, "sources", "bbc", "categories", Strings(sorted))
  }

  /** The same block for any three keys: test for `outer`, read it, test it
      for `inner`, read that, and assign `field` in it. */
  function UpdateNested(file: Option<Yaml>, outer: string, inner: string, field: string, value: Yaml): (r: Update)
    ensures r == NotFound <==> file.None?
  {
    match file
    case None => NotFound
    case Some(cfg) =>
      match In(outer, cfg)
      case Raised(e) => Failed(e)
      case Ok(hasOuter) =>
        if !hasOuter then Skipped
        else match GetItem(cfg, outer)
          case Raised(e) => Failed(e)
          case Ok(sources) =>
            match In(inner, sources)
            case Raised(e) => Failed(e)
            case Ok(hasInner) =>
              if !hasInner then Skipped
              else match GetItem(sources, inner)
                case Raised(e) => Failed(e)
                case Ok(bbc) =>
                  match SetItem(bbc, field, value)
                  case Raised(e) => Failed(e)
                  case Ok(newBbc) =>
                    Updated(Dict(Store(cfg.entries, outer, Dict(Store(sources.entries, inner, newBbc)))))
  }

  /** A mapping with a `sources` mapping holding a `bbc` mapping. */
  predicate HasBbcSource(cfg: Yaml) {
    HasNested(cfg, "sources", "bbc")
  }

  /** A mapping whose `outer` entry is a mapping whose `inner` entry is a
      mapping. */
  predicate HasNested(cfg: Yaml, outer: string, inner: string) {
    && cfg.Dict? && Lookup(cfg.entries, outer).Some?
    && var sources := Lookup(cfg.entries, outer).value;
    && sources.Dict? && Lookup(sources.entries, inner).Some?
    && Lookup(sources.entries, inner).value.Dict?
  }

  /** The update happens exactly for documents with the expected structure,
      and then replaces `sources.bbc.categories` with the saved list and
      changes nothing else: every other key at every level keeps its value
      and the key order is unchanged (a missing `categories` key is added
      last). */
  lemma UpdateReplacesOnlyCategories(cfg: Yaml, sorted: seq<string>)
    ensures UpdateCategories(Some(cfg), sorted).Updated? <==> HasBbcSource(cfg)
    ensures HasBbcSource(cfg) ==>
      var out := UpdateCategories(Some(cfg), sorted).config;
      var sources := Lookup(cfg.entries, "sources").value;
      var bbc := Lookup(sources.entries, "bbc").value;
      && out.Dict? && Keys(out.entries) == Keys(cfg.entries)
      && (forall k :: k != "sources" ==> Lookup(out.entries, k) == Lookup(cfg.entries, k))
      && var newSources := Lookup(out.entries, "sources").value;
      && newSources.Dict? && Keys(newSources.entries) == Keys(sources.entries)
      && (forall k :: k != "bbc" ==> Lookup(newSources.entries, k) == Lookup(sources.entries, k))
      && var newBbc := Lookup(newSources.entries, "bbc").value;
      && newBbc.Dict?
      && Lookup(newBbc.entries, "categories") == Some(Strings(sorted))
      && (forall k :: k != "categories" ==> Lookup(newBbc.entries, k) == Lookup(bbc.entries, k))
  {
    UpdateNestedReplacesOnlyField(cfg, "sources", "bbc", "categories", Strings(sorted));
  }

  lemma UpdateNestedReplacesOnlyField(cfg: Yaml, outer: string, inner: string, field: string, value: Yaml)
    ensures UpdateNested(Some(cfg), outer, inner, field, value).Updated? <==> HasNested(cfg, outer, inner)
    ensures HasNested(cfg, outer, inner) ==>
      var out := UpdateNested(Some(cfg), outer, inner, field, value).config;
      var sources := Lookup(cfg.entries, outer).value;
      var bbc := Lookup(sources.entries, inner).value;
      && out.Dict? && Keys(out.entries) == Keys(cfg.entries)
      && (forall k :: k != outer ==> Lookup(out.entries, k) == Lookup(cfg.entries, k))
      && var newSources := Lookup(out.entries, outer).value;
      && newSources.Dict? && Keys(newSources.entries) == Keys(sources.entries)
      && (forall k :: k != inner ==> Lookup(newSources.entries, k) == Lookup(sources.entries, k))
      && var newBbc := Lookup(newSources.entries, inner).value;
      && newBbc.Dict?
      && Lookup(newBbc.entries, field) == Some(value)
      && (forall k :: k != field ==> Lookup(newBbc.entries, k) == Lookup(bbc.entries, k))
  {
    if HasNested(cfg, outer, inner) {
      var sources := Lookup(cfg.entries, outer).value;
      var bbc := Lookup(sources.entries, inner).value;
      var newBbcEntries := Store(bbc.entries, field, value);
      var newSources := Store(sources.entries, inner, Dict(newBbcEntries));
      var out := Store(cfg.entries, outer, Dict(newSources));
      forall k ensures Lookup(out, k) == if k == outer then Some(Dict(newSources)) else Lookup(cfg.entries, k) {
        StoreThenLookup(cfg.entries, outer, Dict(newSources), k);
      }
      forall k ensures Lookup(newSources, k) == if k == inner then Some(Dict(newBbcEntries)) else Lookup(sources.entries, k) {
        StoreThenLookup(sources.entries, inner, Dict(newBbcEntries), k);
      }
      forall k ensures Lookup(newBbcEntries, k) == if k == field then Some(value) else Lookup(bbc.entries, k) {
        StoreThenLookup(bbc.entries, field, value, k);
      }
    }
  }

  /** A mapping without `sources`, or whose `sources` mapping has no `bbc`,
      is left alone. */
  lemma MissingKeysSkip(cfg: Yaml, sorted: seq<string>)
    requires cfg.Dict?
    requires Lookup(cfg.entries, "sources").None? ||
             (Lookup(cfg.entries, "sources").value.Dict? && Lookup(Lookup(cfg.entries, "sources").value.entries, "bbc").None?)
    ensures UpdateCategories(Some(cfg), sorted) == Skipped
  {
  }

  /** An empty configuration file loads as `None`; testing it for
      `sources` raises, which the script reports as a warning. */
  lemma EmptyFileFails(sorted: seq<string>)
    ensures UpdateCategories(Some(Null), sorted).Failed?
  {
  }

  /** A `bbc` entry that is a list passes both membership tests and fails
      on the assignment. */
  lemma ListBbcFails(cfg: Yaml, sorted: seq<string>)
    requires cfg.Dict? && Lookup(cfg.entries, "sources").Some?
    requires Lookup(cfg.entries, "sources").value.Dict?
    requires var sources := Lookup(cfg.entries, "sources").value;
             Lookup(sources.entries, "bbc").Some? && Lookup(sources.entries, "bbc").value.List?
    ensures UpdateCategories(Some(cfg), sorted).Failed?
  {
  }

  /** What one run of the script leaves behind: how discovery ended, the
      topics file if one was written, and the configuration step if it
      ran. */
  datatype Run = Run(discovery: Topics.Discovery, topicsFile: Option<string>, config: Option<Update>)

  /** `main`: the topics file and the configuration update both follow a
      finished discovery, and neither follows an aborted or crashed one. */
  function RunCollector(w: Topics.World, file: Option<Yaml>): (r: Run)
    ensures r.discovery == Topics.Discover(w)
    ensures r.topicsFile.Some? <==> r.discovery.Finished?
    ensures r.config.Some? <==> r.discovery.Finished?
    ensures r.discovery.Finished? ==>
      r.topicsFile == Some(Topics.TopicsFile(r.discovery.topics))
      && r.config == Some(UpdateCategories(file, r.discovery.topics))
  {
    match Topics.Discover(w)
    case Finished(sorted) =>
      Run(Topics.Finished(sorted), Some(Topics.TopicsFile(sorted)), Some(UpdateCategories(file, sorted)))
    case other => Run(other, None, None)
  }
}
