/** The search page's front controller: the result list of the last search
    with results, the current page over it (fifty results a page), the query
    used for highlighting, and what the page shows: the current page's
    rendered results, the "showing from-to of N" numbers, and the page
    navigation. The DOM is not modelled; every rendering step returns a
    structured description of what it would put on the page. */
module SearchAppClient {
  import opened Js
  import opened SearchRoute
  import opened TextRender

  const ResultsPerPage: nat := 50
  const ContentLength: nat := 300
  const MaxKeyPhrases: nat := 5
  const MaxPersons: nat := 3
  const MaxLocations: nat := 3
  const MaxOrganizations: nat := 2

  // ---------------------------------------------------------------------
  // Pages
  // ---------------------------------------------------------------------

  /** `Math.ceil(n / 50)`. */
  function TotalPages(n: nat): (r: nat)
    ensures r * ResultsPerPage >= n
    ensures r > 0 ==> (r - 1) * ResultsPerPage < n
    ensures r == 0 <==> n == 0
  {
    (n + ResultsPerPage - 1) / ResultsPerPage
  }

  /** `(page - 1) * 50`, the index of the page's first result. */
  function PageStart(page: nat): nat
    requires page >= 1
  {
    (page - 1) * ResultsPerPage
  }

  /** `results.slice(startIndex, startIndex + 50)`. */
  function PageSlice<T>(results: seq<T>, page: nat): seq<T>
    requires page >= 1
  {
    Slice(results, PageStart(page), PageStart(page) + ResultsPerPage)
  }

  /** `startIndex + 1`. */
  function ShowingFrom(page: nat): int
    requires page >= 1
  {
    PageStart(page) + 1
  }

  /** `Math.min(endIndex, totalResults)`. */
  function ShowingTo(page: nat, total: nat): int
    requires page >= 1
  {
    Min(PageStart(page) + ResultsPerPage, total)
  }

  /** A page that exists holds between one and fifty results: the results
      numbered `ShowingFrom` to `ShowingTo`, in order. */
  lemma PageSliceShape<T>(results: seq<T>, page: nat)
    requires 1 <= page <= TotalPages(|results|)
    ensures var s := PageSlice(results, page);
      && 1 <= |s| <= ResultsPerPage
      && |s| == Min(ResultsPerPage, |results| - PageStart(page))
      && |s| == ShowingTo(page, |results|) - ShowingFrom(page) + 1
      && forall k :: 0 <= k < |s| ==> s[k] == results[ShowingFrom(page) - 1 + k]
  {
  }

  /** The slices of pages `page` to `last`, one after the other. */
  function PagesFrom<T>(results: seq<T>, page: nat, last: nat): seq<T>
    requires page >= 1
    decreases last + 1 - page
  {
    if page > last then [] else PageSlice(results, page) + PagesFrom(results, page + 1, last)
  }

  /** The pages from `page` on cover the rest of the results exactly. */
  lemma {:induction false} PagesFromCoverRest<T>(results: seq<T>, page: nat)
    requires 1 <= page <= TotalPages(|results|) + 1
    ensures PagesFrom(results, page, TotalPages(|results|)) == results[Min(PageStart(page), |results|)..]
    decreases TotalPages(|results|) + 1 - page
  {
    var last := TotalPages(|results|);
    if page <= last {
      PagesFromCoverRest(results, page + 1);
      assert PageStart(page + 1) == PageStart(page) + ResultsPerPage;
      var start := PageStart(page);
      var next := Min(PageStart(page + 1), |results|);
      assert PageSlice(results, page) == results[start..next];
      assert results[start..] == results[start..next] + results[next..];
    }
  }

  /** Every result is on exactly one page: the pages, in order, are the
      whole result list. */
  lemma PagesPartitionResults<T>(results: seq<T>)
    ensures PagesFrom(results, 1, TotalPages(|results|)) == results
  {
    PagesFromCoverRest(results, 1);
  }

  // ---------------------------------------------------------------------
  // Navigation controls
  // ---------------------------------------------------------------------

  datatype PageButton = PageButton(page: int, active: bool)

  datatype NavControls = NavControls(previousDisabled: bool, buttons: seq<PageButton>, nextDisabled: bool)

  function CountActive(bs: seq<PageButton>): nat
  {
    if bs == [] then 0 else (if bs[0].active then 1 else 0) + CountActive(bs[1..])
  }

  /** Buttons numbered from `first` on, active exactly where the number is
      `current`: one is active if `current` is among them, none otherwise. */
  lemma {:induction false} CountActiveNumbered(bs: seq<PageButton>, first: int, current: int)
    requires forall i :: 0 <= i < |bs| ==> bs[i].page == first + i && (bs[i].active <==> first + i == current)
    ensures CountActive(bs) == if first <= current < first + |bs| then 1 else 0
  {
    if bs != [] {
      CountActiveNumbered(bs[1..], first + 1, current);
    }
  }

  /** The button list of the navigation. */
  function PageButtons(total: nat, current: int): (bs: seq<PageButton>)
    ensures |bs| == total
    ensures forall i :: 0 <= i < total ==> bs[i].page == i + 1 && (bs[i].active <==> i + 1 == current)
  {
    seq(total, i requires 0 <= i < total => PageButton(i + 1, i + 1 == current))
  }

  /** With the current page among the buttons, exactly one is active. */
  lemma ExactlyOneActive(total: nat, current: int)
    requires 1 <= current <= total
    ensures CountActive(PageButtons(total, current)) == 1
  {
    CountActiveNumbered(PageButtons(total, current), 1, current);
  }

  /** The navigation `createPagination` builds: nothing for a single page,
      otherwise Previous, the page buttons in order, and Next. */
  function Navigation(total: nat, current: int): (nav: Option<NavControls>)
    ensures nav.None? <==> total <= 1
    ensures nav.Some? ==>
      && nav.value.buttons == PageButtons(total, current)
      && (nav.value.previousDisabled <==> current == 1)
      && (nav.value.nextDisabled <==> current == total)
  {
    if total <= 1 then None
    else Some(NavControls(current == 1, PageButtons(total, current), current == total))
  }

  // ---------------------------------------------------------------------
  // One rendered result
  // ---------------------------------------------------------------------

  datatype EntityKind = Persons | Locations | Organizations

  datatype EntityBadge = EntityBadge(kind: EntityKind, names: seq<string>)

  /** What `createResultHTML` puts on the page for one result, without the
      markup around it. `keyPhrases` empty means no key-phrase row;
      `relevance` and `aiScore` are `None` where the page shows "N/A" or no
      AI score. */
  datatype RenderedResult = RenderedResult(
    href: string,
    documentName: string,
    semanticBadge: bool,
    content: string,
    aiSnippet: bool,
    keyPhrases: seq<string>,
    entities: seq<EntityBadge>,
    relevance: Option<real>,
    aiScore: Option<real>)

  /** `result.captions && result.captions.length > 0 ? result.captions[0].text : null`. */
  function SemanticCaption(r: CanonicalResult): Option<string>
  {
    if r.captions.Some? && |r.captions.value| > 0 then r.captions.value[0].text else None
  }

  /** The escaped, truncated content the field-highlight pass starts from. */
  function ShortContent(r: CanonicalResult): string
  {
    Truncate(EscapeHtml(r.content), ContentLength)
  }

  /** The displayed text: the caption when there is one, through the
      query-term pass only; otherwise the short content through the
      field-highlight pass and then the query-term pass. */
  function DisplayContent(r: CanonicalResult, query: Option<string>): string
  {
    var caption := SemanticCaption(r);
    if Truthy(caption) then TermPass(EscapeHtml(caption.value), query)
    else TermPass(FieldPass(ShortContent(r), r.highlights), query)
  }

  /** The badge of one entity list: its first `cap` names, if there are any. */
  function Badge(kind: EntityKind, names: seq<string>, cap: nat): seq<EntityBadge>
  {
    if |names| > 0 then [EntityBadge(kind, Take(names, cap))] else []
  }

  function EntityBadges(r: CanonicalResult): (bs: seq<EntityBadge>)
    ensures |bs| <= 3
    ensures forall k :: 0 <= k < |bs| ==> |bs[k].names| >= 1
  {
    Badge(Persons, r.persons, MaxPersons)
    + Badge(Locations, r.locations, MaxLocations)
    + Badge(Organizations, r.organizations, MaxOrganizations)
  }

  /** The names a badge of the given kind shows, if there is one. */
  function ShownNames(r: CanonicalResult, kind: EntityKind): seq<string>
  {
    match kind
    case Persons => Take(r.persons, MaxPersons)
    case Locations => Take(r.locations, MaxLocations)
    case Organizations => Take(r.organizations, MaxOrganizations)
  }

  function ListOf(r: CanonicalResult, kind: EntityKind): seq<string>
  {
    match kind
    case Persons => r.persons
    case Locations => r.locations
    case Organizations => r.organizations
  }

  /** Every badge shows the first names of its own list (three persons,
      three locations, two organizations). */
  lemma EntityBadgesShowFirstNames(r: CanonicalResult)
    ensures forall k :: 0 <= k < |EntityBadges(r)| ==>
      EntityBadges(r)[k].names == ShownNames(r, EntityBadges(r)[k].kind)
  {
    var p := Badge(Persons, r.persons, MaxPersons);
    var l := Badge(Locations, r.locations, MaxLocations);
    var o := Badge(Organizations, r.organizations, MaxOrganizations);
    assert forall k :: 0 <= k < |p + l + o| ==> (p + l + o)[k] in p || (p + l + o)[k] in l || (p + l + o)[k] in o;
  }

  /** The rank of the badge at index `k`: the persons badge comes first,
      then the locations badge, then the organizations badge. */
  lemma BadgeRanks(r: CanonicalResult)
    ensures forall k :: 0 <= k < |EntityBadges(r)| ==>
      KindRank(EntityBadges(r)[k].kind)
        == (if k < |Badge(Persons, r.persons, MaxPersons)| then 0
            else if k < |Badge(Persons, r.persons, MaxPersons)| + |Badge(Locations, r.locations, MaxLocations)| then 1
            else 2)
  {
    var p := Badge(Persons, r.persons, MaxPersons);
    var l := Badge(Locations, r.locations, MaxLocations);
    var o := Badge(Organizations, r.organizations, MaxOrganizations);
    var bs := p + l + o;
    assert EntityBadges(r) == bs;
    forall k | 0 <= k < |bs|
      ensures KindRank(bs[k].kind) == (if k < |p| then 0 else if k < |p| + |l| then 1 else 2)
    {
      if k < |p| {
        assert bs[k] == p[k];
      } else if k < |p| + |l| {
        assert bs[k] == l[k - |p|];
      } else {
        assert bs[k] == o[k - |p| - |l|];
      }
    }
  }

  /** A kind has a badge exactly when its list is not empty. */
  lemma EntityBadgesPresent(r: CanonicalResult, kind: EntityKind)
    ensures (exists k :: 0 <= k < |EntityBadges(r)| && EntityBadges(r)[k].kind == kind) <==> |ListOf(r, kind)| > 0
  {
    BadgeRanks(r);
    var bs := EntityBadges(r);
    var np := |Badge(Persons, r.persons, MaxPersons)|;
    var nl := |Badge(Locations, r.locations, MaxLocations)|;
    assert |bs| == np + nl + |Badge(Organizations, r.organizations, MaxOrganizations)|;
    if |ListOf(r, kind)| > 0 {
      var k := match kind case Persons => 0 case Locations => np case Organizations => np + nl;
      assert KindRank(bs[k].kind) == KindRank(kind);
      assert bs[k].kind == kind;
    }
  }

  /** The badges come in the order persons, locations, organizations, each
      kind at most once. */
  lemma EntityBadgesInOrder(r: CanonicalResult)
    ensures forall j, k :: 0 <= j < k < |EntityBadges(r)| ==>
      KindRank(EntityBadges(r)[j].kind) < KindRank(EntityBadges(r)[k].kind)
  {
    BadgeRanks(r);
  }

  /** Badges appear in the order persons, locations, organizations. */
  function KindRank(k: EntityKind): nat
  {
    match k
    case Persons => 0
    case Locations => 1
    case Organizations => 2
  }

  /** The first five key phrases, each escaped. */
  function KeyPhraseBadges(r: CanonicalResult): (ps: seq<string>)
    ensures |ps| == Min(MaxKeyPhrases, |r.keyPhrases|)
    ensures forall k :: 0 <= k < |ps| ==> ps[k] == EscapeHtml(r.keyPhrases[k])
  {
    var shown := Take(r.keyPhrases, MaxKeyPhrases);
    seq(|shown|, k requires 0 <= k < |shown| => EscapeHtml(shown[k]))
  }

  /** `score ? score.toFixed(2) : 'N/A'`: only a non-zero number is shown. */
  function ShownScore(x: real): (r: Option<real>)
    ensures r.Some? <==> x != 0.0
  {
    if x != 0.0 then Some(x) else None
  }

  /** `createResultHTML` as a value. */
  function RenderResult(r: CanonicalResult, query: Option<string>): RenderedResult
  {
    var href := OrDefault(Some(r.url), "#");
    var aiScore := TruthyScore(r.rerankerScore);
    RenderedResult(href, DocumentName(href), aiScore.Some?, DisplayContent(r, query),
                   Truthy(SemanticCaption(r)), KeyPhraseBadges(r), EntityBadges(r),
                   ShownScore(r.score), aiScore)
  }

  /** What one rendered result shows: the chosen text, the AI snippet mark
      exactly with a caption, the semantic badge and AI score exactly with a
      non-zero reranker score, a relevance exactly with a non-zero score, a
      link that is never empty, a document name that is never empty, at
      most five escaped key phrases, and the entity badges. */
  lemma RenderResultShape(r: CanonicalResult, query: Option<string>)
    ensures var item := RenderResult(r, query);
      && item.content == DisplayContent(r, query)
      && (item.aiSnippet <==> Truthy(SemanticCaption(r)))
      && (item.semanticBadge <==> item.aiScore.Some?)
      && (item.aiScore.Some? <==> r.rerankerScore.Some? && r.rerankerScore.value != 0.0)
      && (item.relevance.Some? <==> r.score != 0.0)
      && item.href != "" && (r.url != "" ==> item.href == r.url)
      && item.documentName == DocumentName(item.href) && item.documentName != ""
      && item.keyPhrases == KeyPhraseBadges(r) && |item.keyPhrases| <= MaxKeyPhrases
      && item.entities == EntityBadges(r)
  {
  }

  /** With a caption, the backend's highlights play no part in the text. */
  lemma CaptionIgnoresHighlights(r: CanonicalResult, h: Option<seq<HighlightEntry>>, query: Option<string>)
    requires Truthy(SemanticCaption(r))
    ensures DisplayContent(r.(highlights := h), query) == DisplayContent(r, query)
    ensures DisplayContent(r, query) == TermPass(EscapeHtml(SemanticCaption(r).value), query)
  {
  }

  /** Without a caption, highlights or query, the shown text is the escaped
      content cut to 300 characters: no tag of the content survives, and
      long content ends in the ellipsis after exactly 300 characters. */
  lemma PlainContentIsEscapedAndTruncated(r: CanonicalResult, query: Option<string>)
    requires !Truthy(SemanticCaption(r)) && r.highlights.None? && !Truthy(query)
    ensures DisplayContent(r, query) == Truncate(EscapeHtml(r.content), ContentLength)
    ensures forall i :: 0 <= i < |DisplayContent(r, query)| ==> DisplayContent(r, query)[i] != '<'
    ensures |EscapeHtml(r.content)| > ContentLength ==> |DisplayContent(r, query)| == ContentLength + 3
  {
    var e := EscapeHtml(r.content);
    var d := DisplayContent(r, query);
    if |e| > ContentLength {
      assert d == e[..ContentLength] + Ellipsis;
      forall i | 0 <= i < |d|
        ensures d[i] != '<'
      {
        if i < ContentLength {
          assert d[i] == e[i];
        }
      }
    }
  }

  // ---------------------------------------------------------------------
  // The page's state
  // ---------------------------------------------------------------------

  /** `createResultHTML` as a function value, for one query. */
  function Renderer(query: Option<string>): CanonicalResult -> RenderedResult
  {
    r => RenderResult(r, query)
  }

  /** The rendered results, one per result and in order. */
  function RenderAll(rs: seq<CanonicalResult>, query: Option<string>): (items: seq<RenderedResult>)
    ensures |items| == |rs|
    ensures forall k :: 0 <= k < |items| ==> items[k] == RenderResult(rs[k], query)
  {
    MapSeq(Renderer(query), rs)
  }

  /** The rendered results of one page, in order. */
  function RenderPage(results: seq<CanonicalResult>, page: nat, query: Option<string>): (items: seq<RenderedResult>)
    requires page >= 1
    ensures |items| == |PageSlice(results, page)|
    ensures forall k :: 0 <= k < |items| ==> items[k] == RenderResult(PageSlice(results, page)[k], query)
  {
    RenderAll(PageSlice(results, page), query)
  }

  datatype PageView = PageView(
    items: seq<RenderedResult>,
    showingFrom: int,
    showingTo: int,
    totalResults: nat,
    page: int,
    pageCount: nat)

  /** What a page change re-renders: the page and the navigation. */
  datatype Rendering = Rendering(view: PageView, nav: Option<NavControls>)

  /** What `displayResults` shows: the no-results message, or the results. */
  datatype Screen = NoResults(query: string) | ResultsShown(query: string, rendering: Rendering)

  class SearchApp {
    var allResults: seq<CanonicalResult>
    var currentPage: int
    var currentSearchQuery: Option<string>

    /** The current page is always one that exists (page 1 of an empty list
        before the first search with results). */
    ghost predicate Valid()
      reads this
    {
      1 <= currentPage <= Max(TotalPages(|allResults|), 1)
    }

    constructor ()
      ensures Valid()
      ensures allResults == [] && currentPage == 1 && currentSearchQuery == None
    {
      allResults := [];
      currentPage := 1;
      currentSearchQuery := None;
    }

    /** The page `displayCurrentPage` renders. */
    function View(): (v: PageView)
      reads this
      requires Valid()
      ensures |v.items| <= ResultsPerPage && v.page == currentPage
      ensures v.totalResults == |allResults| && v.pageCount == TotalPages(|allResults|)
      ensures v.showingFrom == (currentPage - 1) * ResultsPerPage + 1
      ensures v.showingTo == Min(currentPage * ResultsPerPage, |allResults|)
      ensures allResults != [] ==> |v.items| == v.showingTo - v.showingFrom + 1 >= 1
      ensures v.showingFrom - 1 + |v.items| <= |allResults|
      ensures forall k :: 0 <= k < |v.items| ==>
        v.items[k] == RenderResult(allResults[v.showingFrom - 1 + k], currentSearchQuery)
    {
      var v := PageView(RenderPage(allResults, currentPage, currentSearchQuery),
                        ShowingFrom(currentPage), ShowingTo(currentPage, |allResults|),
                        |allResults|, currentPage, TotalPages(|allResults|));
      if allResults != [] then PageSliceShape(allResults, currentPage); v else v
    }

    /** The navigation `createPagination` renders for the current state. */
    function Controls(): (nav: Option<NavControls>)
      reads this
      requires Valid()
      ensures nav == Navigation(TotalPages(|allResults|), currentPage)
      ensures nav.Some? ==> CountActive(nav.value.buttons) == 1
    {
      var nav := Navigation(TotalPages(|allResults|), currentPage);
      if nav.Some? then ExactlyOneActive(TotalPages(|allResults|), currentPage); nav else nav
    }

    /** The synchronous start of `handleSearch`: a blank input is ignored;
        otherwise the trimmed query is kept for highlighting. The request,
        its answer and the loading indicator are not modelled. */
    method BeginSearch(input: string) returns (query: Option<string>)
      modifies this
      ensures Trim(input) == "" ==> query == None && currentSearchQuery == old(currentSearchQuery)
      ensures Trim(input) != "" ==> query == Some(Trim(input)) && currentSearchQuery == query
      ensures allResults == old(allResults) && currentPage == old(currentPage)
    {
      var q := Trim(input);
      if q == "" {
        return None;
      }
      currentSearchQuery := Some(q);
      query := Some(q);
    }

    /** `displayResults`: a list with results replaces the stored one and
        goes back to page 1; a missing or empty list shows the no-results
        message and keeps the state as it was. */
    method DisplayResults(results: Option<seq<CanonicalResult>>, query: string) returns (screen: Screen)
      requires Valid()
      modifies this
      ensures Valid()
      ensures currentSearchQuery == old(currentSearchQuery)
      ensures results.None? || results.value == [] ==>
        allResults == old(allResults) && currentPage == old(currentPage) && screen == NoResults(query)
      ensures results.Some? && results.value != [] ==>
        allResults == results.value && currentPage == 1
        && screen == ResultsShown(query, Rendering(View(), Controls()))
    {
      if results.None? || results.value == [] {
        return NoResults(query);
      }
      allResults := results.value;
      currentPage := 1;
      var view := DisplayCurrentPage();
      var nav := CreatePagination();
      screen := ResultsShown(query, Rendering(view, nav));
    }

    /** `displayCurrentPage`: renders every result of the current page. */
    method DisplayCurrentPage() returns (v: PageView)
      requires Valid()
      ensures v == View()
    {
      var startIndex: nat := (currentPage - 1) * ResultsPerPage;
      var endIndex := startIndex + ResultsPerPage;
      var currentResults := Slice(allResults, startIndex, endIndex);
      var query := currentSearchQuery;
      var items: seq<RenderedResult> := [];
      var k := 0;
      while k < |currentResults|
        invariant 0 <= k <= |currentResults|
        invariant items == RenderAll(currentResults[..k], query)
      {
        var item := CreateResultHTML(currentResults[k]);
        MapSeqSnoc(Renderer(query), currentResults, k);
        items := items + [item];
        k := k + 1;
      }
      assert currentResults[..k] == currentResults == PageSlice(allResults, currentPage);
      var totalResults := |allResults|;
      v := PageView(items, startIndex + 1, Min(endIndex, totalResults), totalResults, currentPage, TotalPages(totalResults));
    }

    /** `createPagination`: no controls for a single page; otherwise
        Previous, one button per page in order, and Next. */
    method CreatePagination() returns (nav: Option<NavControls>)
      requires Valid()
      ensures nav == Controls()
    {
      var totalPages := TotalPages(|allResults|);
      if totalPages <= 1 {
        return None;
      }
      var previousDisabled := currentPage == 1;
      var buttons: seq<PageButton> := [];
      var page := 1;
      while page <= totalPages
        invariant 1 <= page <= totalPages + 1
        invariant |buttons| == page - 1
        invariant forall i :: 0 <= i < |buttons| ==> buttons[i] == PageButton(i + 1, i + 1 == currentPage)
      {
        buttons := buttons + [PageButton(page, page == currentPage)];
        page := page + 1;
      }
      assert buttons == PageButtons(totalPages, currentPage);
      nav := Some(NavControls(previousDisabled, buttons, currentPage == totalPages));
    }

    /** The Previous button: moves back one page unless on the first. */
    method Previous() returns (shown: Option<Rendering>)
      requires Valid()
      modifies this
      ensures Valid()
      ensures allResults == old(allResults) && currentSearchQuery == old(currentSearchQuery)
      ensures old(currentPage) > 1 ==> currentPage == old(currentPage) - 1 && shown == Some(Rendering(View(), Controls()))
      ensures old(currentPage) <= 1 ==> currentPage == old(currentPage) && shown == None
    {
      if currentPage > 1 {
        currentPage := currentPage - 1;
        var view := DisplayCurrentPage();
        var nav := CreatePagination();
        return Some(Rendering(view, nav));
      }
      return None;
    }

    /** The Next button: moves on one page unless on the last. */
    method Next() returns (shown: Option<Rendering>)
      requires Valid()
      modifies this
      ensures Valid()
      ensures allResults == old(allResults) && currentSearchQuery == old(currentSearchQuery)
      ensures old(currentPage) < TotalPages(|allResults|) ==>
        currentPage == old(currentPage) + 1 && shown == Some(Rendering(View(), Controls()))
      ensures old(currentPage) >= TotalPages(|allResults|) ==> currentPage == old(currentPage) && shown == None
    {
      var totalPages := TotalPages(|allResults|);
      if currentPage < totalPages {
        currentPage := currentPage + 1;
        var view := DisplayCurrentPage();
        var nav := CreatePagination();
        return Some(Rendering(view, nav));
      }
      return None;
    }

    /** A page button: only the pages 1 to `totalPages` have one. */
    method SelectPage(page: int) returns (shown: Rendering)
      requires Valid()
      requires 1 <= page <= TotalPages(|allResults|)
      modifies this
      ensures Valid()
      ensures allResults == old(allResults) && currentSearchQuery == old(currentSearchQuery)
      ensures currentPage == page && shown == Rendering(View(), Controls())
    {
      currentPage := page;
      var view := DisplayCurrentPage();
      var nav := CreatePagination();
      shown := Rendering(view, nav);
    }

    /** `createResultHTML`. */
    method CreateResultHTML(result: CanonicalResult) returns (item: RenderedResult)
      ensures item == RenderResult(result, currentSearchQuery)
    {
      var content := Truncate(EscapeHtml(result.content), ContentLength);
      var url := OrDefault(Some(result.url), "#");
      var relevance := ShownScore(result.score);
      var aiScore := TruthyScore(result.rerankerScore);
      var documentName := DocumentName(url);
      var semanticCaption := SemanticCaption(result);
      var entities := EntityBadges(result);
      var keyPhrases := KeyPhraseBadges(result);
      var displayContent;
      if Truthy(semanticCaption) {
        displayContent := HighlightSearchTerms(EscapeHtml(semanticCaption.value));
      } else {
        var highlighted := HighlightText(content, result.highlights);
        displayContent := HighlightSearchTerms(highlighted);
      }
      item := RenderedResult(url, documentName, aiScore.Some?, displayContent, Truthy(semanticCaption),
                             keyPhrases, entities, relevance, aiScore);
    }

    /** `highlightText`: for every array among the highlight values, and
        every string in it, wraps its occurrences, ignoring case. */
    method HighlightText(text: string, highlights: Option<seq<HighlightEntry>>) returns (highlighted: string)
      ensures highlighted == FieldPass(text, highlights)
    {
      if highlights.None? {
        return text;
      }
      var entries := highlights.value;
      highlighted := text;
      var e := 0;
      while e < |entries|
        invariant 0 <= e <= |entries|
        invariant highlighted == ApplyAll(text, HighlightValues(entries[..e]), false, HighlightOpen, HighlightClose)
      {
        var value := entries[e].value;
        assert entries[..e + 1] == entries[..e] + [entries[e]];
        HighlightValuesConcat(entries[..e], [entries[e]]);
        ApplyAllConcat(text, HighlightValues(entries[..e]), HighlightValues([entries[e]]), false, HighlightOpen, HighlightClose);
        if value.Arr? {
          highlighted := WrapEach(highlighted, value.items, false, HighlightOpen, HighlightClose);
        }
        e := e + 1;
      }
      assert entries[..e] == entries;
    }

    /** The `forEach` of both highlight passes: one case-insensitive global
        replacement per string, each string escaped into a regular
        expression that matches it literally. */
    method WrapEach(text: string, patterns: seq<string>, wholeWord: bool, open: string, close: string) returns (wrapped: string)
      ensures wrapped == ApplyAll(text, patterns, wholeWord, open, close)
    {
      wrapped := text;
      var k := 0;
      while k < |patterns|
        invariant 0 <= k <= |patterns|
        invariant ApplyAll(wrapped, patterns[k..], wholeWord, open, close) == ApplyAll(text, patterns, wholeWord, open, close)
      {
        assert patterns[k..][1..] == patterns[k + 1..];
        var regex := RegexLiteral(EscapeRegex(patterns[k]));
        RegexLiteralOfEscape(patterns[k]);
        wrapped := ReplaceAll(wrapped, regex.value, wholeWord, open, close);
        k := k + 1;
      }
    }

    /** `highlightSearchTerms`: nothing without a query; otherwise wraps the
        whole-word occurrences of every term, ignoring case. */
    method HighlightSearchTerms(text: string) returns (highlighted: string)
      ensures highlighted == TermPass(text, currentSearchQuery)
    {
      if !Truthy(currentSearchQuery) {
        return text;
      }
      var searchTerms := SearchTerms(currentSearchQuery.value);
      highlighted := WrapEach(text, searchTerms, true, TermOpen, TermClose);
    }
  }
}
