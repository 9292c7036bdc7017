/** The POST search handler of the server: its two guards, the request
    options it sends to the search backend, the mapping of every backend
    record to the canonical result record, and the classification of a
    failed backend call into a user-facing message. The backend itself is a
    parameter: a function from the query and the options to either the
    stream of records (already collected into a sequence) or the message of
    the error it raised. */
module SearchRoute {
  import opened Js

  // ---------------------------------------------------------------------
  // Request options
  // ---------------------------------------------------------------------

  /** The `top` member of the request body: missing, or whatever `parseInt`
      makes of it (an integer, or NaN for anything it cannot read, `null`
      included). */
  datatype TopInput = Absent | Num(n: int) | NaN

  datatype SemanticFields = SemanticFields(titleField: string, contentFields: seq<string>, keywordFields: seq<string>)

  /** The options object handed to the backend's `search`. Members that the
      handler only sets in semantic mode are `None` when not set. */
  datatype SearchOptions = SearchOptions(
    top: int,
    highlightFields: string,
    select: seq<string>,
    queryType: Option<string>,
    semanticConfiguration: Option<string>,
    queryRewrite: Option<bool>,
    semanticFields: Option<SemanticFields>)

  const MaxTop: int := 300
  const DefaultTop: int := 100
  const HighlightFields: string := "chunk,title,text"
  const SelectFields: seq<string> := ["chunk_id", "title", "chunk", "text", "layoutText", "metadata_storage_path", "keyPhrases", "persons", "locations", "organizations"]
  const SemanticFieldMapping: SemanticFields := SemanticFields("title", ["chunk"], ["keyPhrases"])

  /** `parseInt(top)` after the destructuring default `top = 100`:
      `None` stands for NaN. */
  function ParsedTop(top: TopInput): Option<int>
  {
    match top
    case Absent => Some(DefaultTop)
    case Num(n) => Some(n)
    case NaN => None
  }

  /** `Math.min(parseInt(top) || 300, 300)`: NaN and 0 are falsy and give
      300; there is no lower bound, so a negative count goes through. */
  function ResolveTop(top: TopInput): (r: int)
    ensures r <= MaxTop
    ensures top.Absent? ==> r == DefaultTop
    ensures top.NaN? ==> r == MaxTop
    ensures top == Num(0) ==> r == MaxTop
    ensures top.Num? && top.n != 0 ==> r == Min(top.n, MaxTop)
  {
    var parsed := ParsedTop(top);
    var n := if parsed.None? || parsed.value == 0 then MaxTop else parsed.value;
    Min(n, MaxTop)
  }

  /** All four semantic members are set, or none is. */
  predicate SemanticAllOrNothing(o: SearchOptions)
  {
    (o.queryType.Some? && o.semanticConfiguration.Some? && o.queryRewrite.Some? && o.semanticFields.Some?)
    || (o.queryType.None? && o.semanticConfiguration.None? && o.queryRewrite.None? && o.semanticFields.None?)
  }

  /** The options the handler sends, as a value. */
  function OptionsFor(top: TopInput, semanticConfig: Option<string>): (o: SearchOptions)
    ensures o.top <= MaxTop && o.top == ResolveTop(top)
    ensures o.highlightFields == HighlightFields && o.select == SelectFields
    ensures SemanticAllOrNothing(o)
    ensures o.queryType.Some? <==> Truthy(semanticConfig)
    ensures Truthy(semanticConfig) ==>
      o.queryType == Some("semantic") && o.semanticConfiguration == semanticConfig
      && o.queryRewrite == Some(true) && o.semanticFields == Some(SemanticFieldMapping)
  {
    var plain := SearchOptions(ResolveTop(top), HighlightFields, SelectFields, None, None, None, None);
    if Truthy(semanticConfig) then
      plain.(queryType := Some("semantic"), semanticConfiguration := semanticConfig,
             queryRewrite := Some(true), semanticFields := Some(SemanticFieldMapping))
    else plain
  }

  /** Builds the options object and then adds the semantic members one by
      one when a semantic configuration name is set. */
  method BuildSearchOptions(top: TopInput, semanticConfig: Option<string>) returns (o: SearchOptions)
    ensures o == OptionsFor(top, semanticConfig)
  {
    o := SearchOptions(ResolveTop(top), HighlightFields, SelectFields, None, None, None, None);
    if Truthy(semanticConfig) {
      o := o.(queryType := Some("semantic"));
      o := o.(semanticConfiguration := semanticConfig);
      o := o.(queryRewrite := Some(true));
      o := o.(semanticFields := Some(SemanticFieldMapping));
    }
  }

  // ---------------------------------------------------------------------
  // Backend records and their canonical form
  // ---------------------------------------------------------------------

  datatype Caption = Caption(text: Option<string>)

  /** An opaque semantic answer object; it is only passed through. */
  datatype SemanticAnswer = SemanticAnswer(text: string)

  /** One entry of a record's `highlights` object, in key order. */
  datatype HighlightEntry = HighlightEntry(field: string, value: MaybeArray)

  /** The `document` of a backend record. */
  datatype RawDocument = RawDocument(
    chunkId: Option<string>,
    title: Option<string>,
    chunk: Option<string>,
    text: MaybeArray,
    layoutText: MaybeArray,
    storagePath: Option<string>,
    keyPhrases: Option<seq<string>>,
    persons: Option<seq<string>>,
    locations: Option<seq<string>>,
    organizations: Option<seq<string>>)

  /** A backend record; scores are numbers, falsy exactly when zero. */
  datatype RawResult = RawResult(
    document: RawDocument,
    score: real,
    rerankerScore: Option<real>,
    highlights: Option<seq<HighlightEntry>>,
    captions: Option<seq<Caption>>,
    semanticAnswer: Option<SemanticAnswer>)

  /** The record the handler returns for each backend record. A line of
      `text` or `layoutText` is `None` where the backend value was missing. */
  datatype CanonicalResult = CanonicalResult(
    id: Option<string>,
    title: string,
    content: string,
    text: seq<Option<string>>,
    layoutText: seq<Option<string>>,
    url: string,
    keyPhrases: seq<string>,
    persons: seq<string>,
    locations: seq<string>,
    organizations: seq<string>,
    score: real,
    rerankerScore: Option<real>,
    highlights: Option<seq<HighlightEntry>>,
    captions: Option<seq<Caption>>,
    semanticAnswer: Option<SemanticAnswer>)

  /** `Array.isArray(v) ? v.join(' ') : v`, with a missing value as `None`. */
  function TextAsString(v: MaybeArray): Option<string>
  {
    match v
    case Absent => None
    case Scalar(s) => Some(s)
    case Arr(items) => Some(Join(items, " "))
  }

  /** `doc.chunk || (Array.isArray(doc.text) ? doc.text.join(' ') : doc.text) || ''`. */
  function Content(chunk: Option<string>, text: MaybeArray): (r: string)
    ensures Truthy(chunk) ==> r == chunk.value
    ensures !Truthy(chunk) && text.Arr? ==> r == Join(text.items, " ")
    ensures !Truthy(chunk) && text.Scalar? ==> r == text.s
    ensures !Truthy(chunk) && text.Absent? ==> r == ""
  {
    OrDefault(Some(OrDefault(chunk, OrDefault(TextAsString(text), ""))), "")
  }

  /** `Array.isArray(v) ? v : [v]`. */
  function Lines(v: MaybeArray): (r: seq<Option<string>>)
    ensures v.Arr? ==> |r| == |v.items| && forall i :: 0 <= i < |r| ==> r[i] == Some(v.items[i])
    ensures v.Scalar? ==> r == [Some(v.s)]
    ensures v.Absent? ==> r == [None]
  {
    match v
    case Arr(items) => seq(|items|, i requires 0 <= i < |items| => Some(items[i]))
    case Scalar(s) => [Some(s)]
    case Absent => [None]
  }

  /** `x || null` for a score: zero becomes null. */
  function TruthyScore(x: Option<real>): (r: Option<real>)
    ensures r.Some? <==> x.Some? && x.value != 0.0
    ensures r.Some? ==> r == x
  {
    if x.Some? && x.value != 0.0 then x else None
  }

  /** The per-record mapping of the handler's result loop. */
  function Normalize(raw: RawResult): (r: CanonicalResult)
    ensures r.title != "" && r.url != ""
    ensures Truthy(raw.document.title) ==> r.title == raw.document.title.value
    ensures !Truthy(raw.document.title) ==> r.title == "Untitled"
    ensures Truthy(raw.document.storagePath) ==> r.url == raw.document.storagePath.value
    ensures !Truthy(raw.document.storagePath) ==> r.url == "#"
    ensures r.content == Content(raw.document.chunk, raw.document.text)
    ensures r.text == Lines(raw.document.text) && r.layoutText == Lines(raw.document.layoutText)
    ensures raw.document.keyPhrases.None? ==> r.keyPhrases == []
    ensures raw.document.persons.None? ==> r.persons == []
    ensures raw.document.locations.None? ==> r.locations == []
    ensures raw.document.organizations.None? ==> r.organizations == []
    ensures raw.document.keyPhrases.Some? ==> r.keyPhrases == raw.document.keyPhrases.value
    ensures raw.document.persons.Some? ==> r.persons == raw.document.persons.value
    ensures raw.document.locations.Some? ==> r.locations == raw.document.locations.value
    ensures raw.document.organizations.Some? ==> r.organizations == raw.document.organizations.value
    ensures r.rerankerScore.Some? ==> r.rerankerScore == raw.rerankerScore
    ensures r.rerankerScore.Some? <==> raw.rerankerScore.Some? && raw.rerankerScore.value != 0.0
    ensures r.id == raw.document.chunkId && r.score == raw.score
    ensures r.highlights == raw.highlights && r.captions == raw.captions && r.semanticAnswer == raw.semanticAnswer
  {
    var doc := raw.document;
    CanonicalResult(
      doc.chunkId,
      OrDefault(doc.title, "Untitled"),
      Content(doc.chunk, doc.text),
      Lines(doc.text),
      Lines(doc.layoutText),
      OrDefault(doc.storagePath, "#"),
      OrEmpty(doc.keyPhrases),
      OrEmpty(doc.persons),
      OrEmpty(doc.locations),
      OrEmpty(doc.organizations),
      raw.score,
      TruthyScore(raw.rerankerScore),
      raw.highlights,
      raw.captions,
      raw.semanticAnswer)
  }

  /** When a record has no content to show: a truthy chunk always gives
      content; without one, the content is empty exactly when the text is
      missing, the empty string, the empty array or an array of one empty
      line (two or more lines are joined with a space, which is never
      empty). */
  lemma ContentPriority(chunk: Option<string>, text: MaybeArray)
    ensures Truthy(chunk) ==> Content(chunk, text) != ""
    ensures !Truthy(chunk) ==>
      (Content(chunk, text) == "" <==>
        text.Absent? || text == Scalar("") || (text.Arr? && (text.items == [] || text.items == [""])))
  {
    if text.Arr? {
      JoinEmpty(text.items, " ");
    }
  }

  /** The result loop: one canonical record per backend record, in the
      backend's order. */
  method CollectResults(raws: seq<RawResult>) returns (results: seq<CanonicalResult>)
    ensures |results| == |raws|
    ensures forall i :: 0 <= i < |raws| ==> results[i] == Normalize(raws[i])
  {
    results := [];
    var k := 0;
    while k < |raws|
      invariant 0 <= k <= |raws|
      invariant |results| == k
      invariant forall i :: 0 <= i < k ==> results[i] == Normalize(raws[i])
    {
      results := results + [Normalize(raws[k])];
      k := k + 1;
    }
  }

  // ---------------------------------------------------------------------
  // Error classification
  // ---------------------------------------------------------------------

  datatype ErrorCategory = Forbidden | NotFound | Unauthorized | Timeout | Unclassified

  /** The user-facing message of each category. */
  function CategoryMessage(c: ErrorCategory): string
  {
    match c
    case Forbidden => "Access forbidden. Your IP address may not be allowed. Check Azure AI Search network rules."
    case NotFound => "Index not found. Please verify your AZURE_SEARCH_INDEX_NAME."
    case Unauthorized => "Unauthorized. Please check your AZURE_SEARCH_API_KEY."
    case Timeout => "Connection timeout. Check network connectivity to Azure AI Search."
    case Unclassified => "Search failed. Please check your Azure AI Search configuration."
  }

  predicate Mentions(m: string, a: string, b: string)
  {
    Contains(m, a) || Contains(m, b)
  }

  /** The if/else chain over the failure message. */
  function Classify(m: string): (c: ErrorCategory)
    ensures c == Forbidden <==> Mentions(m, "403", "Forbidden")
    ensures c == NotFound <==> !Mentions(m, "403", "Forbidden") && Mentions(m, "404", "Not Found")
    ensures c == Unauthorized <==>
      !Mentions(m, "403", "Forbidden") && !Mentions(m, "404", "Not Found") && Mentions(m, "401", "Unauthorized")
    ensures c == Timeout <==>
      !Mentions(m, "403", "Forbidden") && !Mentions(m, "404", "Not Found") && !Mentions(m, "401", "Unauthorized")
      && Mentions(m, "timeout", "ETIMEDOUT")
  {
    if Mentions(m, "403", "Forbidden") then Forbidden
    else if Mentions(m, "404", "Not Found") then NotFound
    else if Mentions(m, "401", "Unauthorized") then Unauthorized
    else if Mentions(m, "timeout", "ETIMEDOUT") then Timeout
    else Unclassified
  }

  /** A row of a lookup table: any of the markers selects the category. */
  datatype Rule = Rule(markers: seq<string>, category: ErrorCategory)

  /** The classification written as a table, in priority order. */
  const Rules: seq<Rule> := [
    Rule(["403", "Forbidden"], Forbidden),
    Rule(["404", "Not Found"], NotFound),
    Rule(["401", "Unauthorized"], Unauthorized),
    Rule(["timeout", "ETIMEDOUT"], Timeout)
  ]

  predicate AnyMarker(m: string, markers: seq<string>)
  {
    exists k :: 0 <= k < |markers| && Contains(m, markers[k])
  }

  /** The category of the first rule that has a marker in `m`. */
  function FirstMatch(rules: seq<Rule>, m: string): (c: ErrorCategory)
    ensures c != Unclassified ==>
      exists k :: 0 <= k < |rules| && rules[k].category == c && AnyMarker(m, rules[k].markers)
        && forall j :: 0 <= j < k ==> !AnyMarker(m, rules[j].markers)
    ensures c == Unclassified && (forall k :: 0 <= k < |rules| ==> rules[k].category != Unclassified)
      ==> forall k :: 0 <= k < |rules| ==> !AnyMarker(m, rules[k].markers)
  {
    if rules == [] then Unclassified
    else if AnyMarker(m, rules[0].markers) then rules[0].category
    else FirstMatch(rules[1..], m)
  }

  lemma AnyOfTwo(m: string, a: string, b: string)
    ensures AnyMarker(m, [a, b]) <==> Mentions(m, a, b)
  {
    var ms := [a, b];
    if Contains(m, a) {
      assert Contains(m, ms[0]);
    }
    if Contains(m, b) {
      assert Contains(m, ms[1]);
    }
  }

  /** The if/else chain is the first-match lookup over the table. */
  lemma ClassifyIsTableLookup(m: string)
    ensures Classify(m) == FirstMatch(Rules, m)
    ensures Classify(m) == Unclassified <==> forall k :: 0 <= k < |Rules| ==> !AnyMarker(m, Rules[k].markers)
  {
    AnyOfTwo(m, "403", "Forbidden");
    AnyOfTwo(m, "404", "Not Found");
    AnyOfTwo(m, "401", "Unauthorized");
    AnyOfTwo(m, "timeout", "ETIMEDOUT");
    var r1, r2, r3 := Rules[1..], Rules[2..], Rules[3..];
    assert r1[1..] == r2 && r2[1..] == r3 && r3[1..] == [];
    assert FirstMatch(r3, m) == if Mentions(m, "timeout", "ETIMEDOUT") then Timeout else Unclassified;
    assert FirstMatch(r2, m) == if Mentions(m, "401", "Unauthorized") then Unauthorized else FirstMatch(r3, m);
    assert FirstMatch(r1, m) == if Mentions(m, "404", "Not Found") then NotFound else FirstMatch(r2, m);
  }

  // ---------------------------------------------------------------------
  // The handler
  // ---------------------------------------------------------------------

  datatype RequestBody = RequestBody(query: Option<string>, top: TopInput)

  datatype BackendOutcome = Records(records: seq<RawResult>) | Failed(message: string)

  datatype Response =
    | Ok(results: seq<CanonicalResult>, count: nat, totalResults: nat)
    | BadRequest(error: string)
    | ServerError(error: string, details: Option<string>)

  function Status(r: Response): int
  {
    match r
    case Ok(_, _, _) => 200
    case BadRequest(_) => 400
    case ServerError(_, _) => 500
  }

  const QueryRequired: string := "Search query is required"
  const NotConfigured: string := "Azure AI Search is not configured. Please check your environment variables."

  /** The POST handler. `configured` is whether the backend client exists;
      `semanticConfig` is the optional semantic configuration name. */
  method HandleSearch(body: RequestBody, configured: bool, semanticConfig: Option<string>,
                      backend: (string, SearchOptions) -> BackendOutcome)
    returns (resp: Response)
    ensures !Truthy(body.query) ==> resp == BadRequest(QueryRequired) && Status(resp) == 400
    ensures Truthy(body.query) && !configured ==> resp == ServerError(NotConfigured, None) && Status(resp) == 500
    ensures Truthy(body.query) && configured ==>
      match backend(body.query.value, OptionsFor(body.top, semanticConfig))
      case Failed(m) =>
        resp == ServerError(CategoryMessage(Classify(m)), Some(m)) && Status(resp) == 500
      case Records(raws) =>
        resp.Ok? && resp.count == resp.totalResults == |resp.results| == |raws|
        && forall i :: 0 <= i < |raws| ==> resp.results[i] == Normalize(raws[i])
  {
    if !Truthy(body.query) {
      return BadRequest(QueryRequired);
    }
    if !configured {
      return ServerError(NotConfigured, None);
    }
    var options := BuildSearchOptions(body.top, semanticConfig);
    var outcome := backend(body.query.value, options);
    match outcome {
      case Failed(m) =>
        var errorMessage := CategoryMessage(Classify(m));
        resp := ServerError(errorMessage, Some(m));
      case Records(raws) =>
        var results := CollectResults(raws);
        resp := Ok(results, |results|, |results|);
    }
  }
}
