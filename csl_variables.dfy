/** The CSL variable table of `csl_variable_parse`: every variable name has a kind, and the
    kind picks the handler that turns the variable's value into text for matching. */
module CslVariables {
  import opened Wrappers

  /** A value as `json.loads` builds it from the converter's output (numbers are integers
      here). */
  datatype Json =
    | JNull
    | JBool(b: bool)
    | JNumber(n: int)
    | JString(s: string)
    | JArray(items: seq<Json>)
    | JObject(fields: map<string, Json>)

  /** A bibliography entry: a CSL-formatted record, field name to value. */
  type Entry = map<string, Json>

  /** The four handlers a variable can be dispatched to. */
  datatype Kind = Plain | Number | Date | Name

  /** The static name-to-handler table; `None` is the KeyError of a name not in it. Being a
      function, it gives each name exactly one kind. */
  function KindOf(name: string): Option<Kind>
  {
    match name
      case "abstract"                       => Some(Plain)
      case "annote"                         => Some(Plain)
      case "archive"                        => Some(Plain)
      case "archive_location"               => Some(Plain)
      case "archive-place"                  => Some(Plain)
      case "authority"                      => Some(Plain)
      case "call-number"                    => Some(Plain)
      case "citation-label"                 => Some(Plain)
      case "citation-number"                => Some(Plain)
      case "collection-title"               => Some(Plain)
      case "container-title"                => Some(Plain)
      case "container-title-short"          => Some(Plain)
      case "dimensions"                     => Some(Plain)
      case "doi"                            => Some(Plain)
      case "event"                          => Some(Plain)
      case "event-place"                    => Some(Plain)
      case "first-reference-note-number"    => Some(Plain)
      case "genre"                          => Some(Plain)
      case "isbn"                           => Some(Plain)
      case "issn"                           => Some(Plain)
      case "jurisdiction"                   => Some(Plain)
      case "keyword"                        => Some(Plain)
      case "locator"                        => Some(Plain)
      case "medium"                         => Some(Plain)
      case "note"                           => Some(Plain)
      case "original-publisher"             => Some(Plain)
      case "original-publisher-place"       => Some(Plain)
      case "original-title"                 => Some(Plain)
      case "page"                           => Some(Plain)
      case "page-first"                     => Some(Plain)
      case "pmcid"                          => Some(Plain)
      case "pmid"                           => Some(Plain)
      case "publisher"                      => Some(Plain)
      case "publisher-place"                => Some(Plain)
      case "references"                     => Some(Plain)
      case "reviewed-title"                 => Some(Plain)
      case "scale"                          => Some(Plain)
      case "section"                        => Some(Plain)
      case "source"                         => Some(Plain)
      case "status"                         => Some(Plain)
      case "title"                          => Some(Plain)
      case "title-short"                    => Some(Plain)
      case "url"                            => Some(Plain)
      case "version"                        => Some(Plain)
      case "year-suffix"                    => Some(Plain)

      case "chapter-number"                 => Some(Number)
      case "collection-number"              => Some(Number)
      case "edition"                        => Some(Number)
      case "issue"                          => Some(Number)
      case "number"                         => Some(Number)
      case "number-of-pages"                => Some(Number)
      case "number-of-volumes"              => Some(Number)
      case "volume"                         => Some(Number)

      case "accessed"                       => Some(Date)
      case "container"                      => Some(Date)
      case "event-date"                     => Some(Date)
      case "issued"                         => Some(Date)
      case "original-date"                  => Some(Date)
      case "submitted"                      => Some(Date)

      case "author"                         => Some(Name)
      case "collection-editor"              => Some(Name)
      case "composer"                       => Some(Name)
      case "container-author"               => Some(Name)
      case "director"                       => Some(Name)
      case "editor"                         => Some(Name)
      case "editorial-director"             => Some(Name)
      case "illustrator"                    => Some(Name)
      case "interviewer"                    => Some(Name)
      case "original-author"                => Some(Name)
      case "recipient"                      => Some(Name)
      case "reviewed-author"                => Some(Name)
      case "translator"                     => Some(Name)

      case _ => None
  }

  /** Python truthiness of a value: `not v` holds exactly for the falsy ones. */
  predicate Truthy(v: Json)
  {
    match v
    case JNull => false
    case JBool(b) => b
    case JNumber(n) => n != 0
    case JString(s) => s != ""
    case JArray(items) => items != []
    case JObject(fields) => fields != map[]
  }

  /** `entry.get(name, False)`. */
  function Get(entry: Entry, name: string): (r: Json)
    ensures name in entry ==> r == entry[name]
    ensures name !in entry ==> r == JBool(false) && !Truthy(r)
  {
    if name in entry then entry[name] else JBool(false)
  }

  /** `plain`: a placeholder that hands the contents back unchanged. */
  function PlainHandler(contents: Json): (r: Json)
    ensures r == contents
  {
    contents
  }

  /** `number`: defers to `plain`. */
  function NumberHandler(contents: Json): (r: Json)
    ensures r == contents
  {
    PlainHandler(contents)
  }

  /** `name`: the empty list for falsy contents; otherwise it falls off its end, which is
      Python's `None`. */
  function NameHandler(contents: Json): (r: Json)
    ensures r == JNull || r == JArray([])
    ensures r == JNull <==> Truthy(contents)
  {
    if !Truthy(contents) then JArray([]) else JNull
  }

  /** `date`: its body is the bare expression `False`, so it always gives `None`. */
  function DateHandler(contents: Json): (r: Json)
    ensures r == JNull
  {
    JNull
  }

  function Handle(kind: Kind, contents: Json): Json
  {
    match kind
    case Plain => PlainHandler(contents)
    case Number => NumberHandler(contents)
    case Date => DateHandler(contents)
    case Name => NameHandler(contents)
  }

  /** The KeyError raised by `variable_type[variable_name]`. */
  datatype ParseError = UnknownVariable(name: string)

  /** `csl_variable_parse(entry, variable_name)`. */
  function Parse(entry: Entry, name: string): (r: Result<Json, ParseError>)
    ensures r.Err? <==> KindOf(name).None?
    ensures r.Err? ==> r.error == UnknownVariable(name)
  {
    match KindOf(name)
    case None => Err(UnknownVariable(name))
    case Some(kind) => Ok(Handle(kind, Get(entry, name)))
  }

  lemma KindOfExamples()
    ensures KindOf("title") == Some(Plain) && KindOf("doi") == Some(Plain)
    ensures KindOf("volume") == Some(Number) && KindOf("edition") == Some(Number)
    ensures KindOf("issued") == Some(Date) && KindOf("accessed") == Some(Date)
    ensures KindOf("author") == Some(Name) && KindOf("translator") == Some(Name)
    ensures KindOf("id") == None && KindOf("Title") == None && KindOf("") == None
  {
  }

  /** A plain or number variable comes back unchanged, and an absent one as `False`. */
  lemma PlainAndNumberAreIdentity(entry: Entry, name: string)
    requires KindOf(name) == Some(Plain) || KindOf(name) == Some(Number)
    ensures name in entry ==> Parse(entry, name) == Ok(entry[name])
    ensures name !in entry ==> Parse(entry, name) == Ok(JBool(false))
  {
  }

  /** `number` behaves as `plain` on every value. */
  lemma NumberIsPlain(contents: Json)
    ensures Handle(Number, contents) == Handle(Plain, contents)
  {
  }

  /** A name variable that is absent or falsy (the empty list, say) gives the empty list;
      any other contents give `None`. */
  lemma NameVariable(entry: Entry, name: string)
    requires KindOf(name) == Some(Name)
    ensures name !in entry ==> Parse(entry, name) == Ok(JArray([]))
    ensures name in entry && !Truthy(entry[name]) ==> Parse(entry, name) == Ok(JArray([]))
    ensures name in entry && Truthy(entry[name]) ==> Parse(entry, name) == Ok(JNull)
  {
  }

  /** A date variable always gives `None`, present or not. */
  lemma DateVariable(entry: Entry, name: string)
    requires KindOf(name) == Some(Date)
    ensures Parse(entry, name) == Ok(JNull)
  {
  }

  /** A name outside the table fails whatever the entry holds, even when the entry has it. */
  lemma UnknownVariableFails(entry: Entry, name: string)
    requires KindOf(name).None?
    ensures Parse(entry, name) == Err(UnknownVariable(name))
  {
  }

  /** The result depends on the named field only. */
  lemma ParseReadsOneField(entry: Entry, name: string, other: string, v: Json)
    requires other != name
    ensures Parse(entry[other := v], name) == Parse(entry, name)
  {
  }
}
