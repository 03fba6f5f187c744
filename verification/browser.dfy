/** The browser's state machine: the page counter and the active match list
    held at module scope, and the handlers that change them. Each handler
    returns the new state together with the list it hands to the renderer. */
module Browser {
  import opened Optional
  import opened Sequences
  import opened Catalog
  import opened Filters

  /** `page` and `matches`, the two module-level variables. */
  datatype State = State(page: int, matches: seq<Book>)

  /** Everything a user can see change: the pagination state, the books last
      rendered, whether the "no results" message shows, and the book whose
      detail overlay is open (`None` while the overlay is closed). */
  datatype App = App(state: State, shown: seq<Book>, noResults: bool, detail: Option<Book>)

  /** Result of the search handler. */
  datatype Searched = Searched(state: State, shown: seq<Book>, noResults: bool)

  /** Result of the load-more handler: either it renders a longer list, or it
      throws because it read a book past the end of the match list. The first
      `page++` has already happened when it throws, so that increment stays. */
  datatype Loaded = Loaded(state: State, shown: seq<Book>) | Threw(state: State)

  /** A user action the handlers respond to. `ClickList` carries the id of the
      preview that was clicked, or `None` for a click beside every preview.
      `CloseDetail` is the close button of the detail overlay. */
  datatype Event = Search(query: Query) | LoadMore | ClickList(preview: Option<string>) | CloseDetail

  /** Start-up: page 1, every catalog book a match, the first page rendered. */
  function Start(catalog: seq<Book>, perPage: nat): (a: App)
    ensures a.state.page == 1 && a.state.matches == catalog
    ensures a.shown <= catalog && |a.shown| == Min(|catalog|, perPage)
    ensures a.detail == None
  {
    App(State(1, catalog), SliceTo(catalog, perPage), false, None)
  }

  /** The search handler: back to page 1, the filtered catalog as the new
      match list, the message shown exactly when nothing matched, and the first
      page rendered. */
  function HandleSearch(catalog: seq<Book>, perPage: nat, q: Query): (r: Searched)
    ensures r.state.page == 1
    ensures forall b :: b in r.state.matches <==> b in catalog && Matches(q, b)
    ensures r.state.matches == Filter(catalog, q)
    ensures r.noResults <==> |r.state.matches| == 0
    ensures r.shown <= r.state.matches && |r.shown| == Min(|r.state.matches|, perPage)
  {
    var matches := Filter(catalog, q);
    Searched(State(1, matches), SliceTo(matches, perPage), |matches| < 1)
  }

  /** Position of the book load-more reads: the last one of page `page`. */
  function LastLoadedIndex(page: int, perPage: nat): int
  {
    page * perPage - 1
  }

  /** Load-more can read its book: the position lies inside the match list. */
  predicate CanLoadMore(st: State, perPage: nat)
  {
    0 <= LastLoadedIndex(st.page, perPage) < |st.matches|
  }

  /** `b` has the author of `last`, or one of its genres is a genre of `last`. */
  predicate Similar(last: Book, b: Book)
  {
    b.author == last.author || exists i :: 0 <= i < |b.genres| && b.genres[i] in last.genres
  }

  /** Every catalog book similar to `last`, in catalog order. */
  function Supplement(catalog: seq<Book>, last: Book): (r: seq<Book>)
    ensures forall b :: b in r <==> b in catalog && Similar(last, b)
  {
    Select(catalog, b => Similar(last, b))
  }

  /** The load-more handler. When the book at the last position of the current
      page exists, every catalog book similar to it is appended (duplicates
      included), the page counter moves up by two, and the first `page`
      pages of the longer list are rendered. When that position is empty the
      handler throws after its first increment, unless the catalog is empty:
      then the similarity test is never evaluated and nothing is appended. */
  function LoadMoreBooks(catalog: seq<Book>, perPage: nat, st: State): (r: Loaded)
    ensures r.Threw? <==> !CanLoadMore(st, perPage) && |catalog| > 0
    ensures r.Threw? ==> r.state.page == st.page + 1 && r.state.matches == st.matches
    ensures r.Loaded? ==> r.state.page == st.page + 2
    ensures r.Loaded? ==> st.matches <= r.state.matches
    ensures r.Loaded? && CanLoadMore(st, perPage) ==>
      var last := st.matches[LastLoadedIndex(st.page, perPage)];
      && r.state.matches == st.matches + Supplement(catalog, last)
      && forall b :: b in r.state.matches[|st.matches|..] <==> b in catalog && Similar(last, b)
    ensures r.Loaded? && !CanLoadMore(st, perPage) ==> r.state.matches == st.matches
    ensures r.Loaded? ==> r.shown == SliceTo(r.state.matches, r.state.page * perPage)
    ensures r.Loaded? && st.page >= 0 ==>
      r.shown <= r.state.matches && |r.shown| == Min(|r.state.matches|, r.state.page * perPage)
  {
    var page := st.page + 1;
    var at := (page - 1) * perPage - 1;
    if 0 <= at < |st.matches| then
      var last := st.matches[at];
      var matches := st.matches + Supplement(catalog, last);
      assert matches[|st.matches|..] == Supplement(catalog, last);
      Loaded(State(page + 1, matches), SliceTo(matches, (page + 1) * perPage))
    else if |catalog| == 0 then
      Loaded(State(page + 1, st.matches), SliceTo(st.matches, (page + 1) * perPage))
    else
      Threw(State(page, st.matches))
  }

  /** The supplement is exactly the catalog subsequence of books similar to
      the last loaded one. */
  lemma SupplementExact(catalog: seq<Book>, last: Book) returns (idx: seq<int>)
    ensures ListsAt(Supplement(catalog, last), catalog, idx) && StrictlyIncreasing(idx)
    ensures forall i :: 0 <= i < |catalog| ==> (Similar(last, catalog[i]) <==> i in idx)
  {
    idx := SelectPicksExactly(catalog, b => Similar(last, b));
  }

  /** Every match is a catalog book. */
  ghost predicate FromCatalog(catalog: seq<Book>, books: seq<Book>)
  {
    forall i :: 0 <= i < |books| ==> books[i] in catalog
  }

  /** When the match list comes from the catalog, a successful load-more
      appends at least the last loaded book itself, so the list grows; that
      book is not deduplicated and now occurs at least twice. */
  lemma LoadMoreGrows(catalog: seq<Book>, perPage: nat, st: State)
    requires FromCatalog(catalog, st.matches)
    requires CanLoadMore(st, perPage)
    ensures
      var r := LoadMoreBooks(catalog, perPage, st);
      var last := st.matches[LastLoadedIndex(st.page, perPage)];
      && |r.state.matches| > |st.matches|
      && multiset(r.state.matches)[last] >= 2
  {
    var r := LoadMoreBooks(catalog, perPage, st);
    var at := LastLoadedIndex(st.page, perPage);
    var last := st.matches[at];
    var extra := Supplement(catalog, last);
    assert last in extra;
    assert multiset(r.state.matches) == multiset(st.matches) + multiset(extra);
  }

  /** Load-more keeps every match a catalog book. */
  lemma LoadMoreKeepsCatalog(catalog: seq<Book>, perPage: nat, st: State)
    requires FromCatalog(catalog, st.matches)
    ensures FromCatalog(catalog, LoadMoreBooks(catalog, perPage, st).state.matches)
  {
    var r := LoadMoreBooks(catalog, perPage, st);
    if r.Loaded? && CanLoadMore(st, perPage) {
      var extra := Supplement(catalog, st.matches[LastLoadedIndex(st.page, perPage)]);
      assert r.state.matches == st.matches + extra;
      forall i | 0 <= i < |r.state.matches|
        ensures r.state.matches[i] in catalog
      {
        if i >= |st.matches| {
          assert r.state.matches[i] == extra[i - |st.matches|];
        }
      }
    }
  }

  /** The click handler on the list: a click on a preview opens the overlay
      for the first catalog book with that id; a click beside the previews, or
      on an id the catalog lacks, leaves the overlay as it was. */
  function HandleBookSelection(catalog: seq<Book>, detail: Option<Book>, preview: Option<string>): (r: Option<Book>)
    ensures preview.None? ==> r == detail
    ensures preview.Some? && (forall i :: 0 <= i < |catalog| ==> catalog[i].id != preview.value) ==> r == detail
    ensures preview.Some? && (exists i :: 0 <= i < |catalog| && catalog[i].id == preview.value) ==>
      r.Some? && exists i :: FirstWithId(catalog, preview.value, i) && catalog[i] == r.value
  {
    if preview.None? then detail
    else
      var found := Find(catalog, preview.value);
      if found.None? then detail else found
  }

  /** One user action applied to the app: the action's handler runs, and
      whatever that handler does not touch stays as it was. */
  function Step(catalog: seq<Book>, perPage: nat, a: App, e: Event): (a': App)
    ensures e.Search? ==>
      && a'.state.page == 1
      && a'.state.matches == Filter(catalog, e.query)
      && (a'.noResults <==> |a'.state.matches| == 0)
      && a'.shown == SliceTo(a'.state.matches, perPage)
      && a'.detail == a.detail
    ensures e.LoadMore? ==>
      var r := LoadMoreBooks(catalog, perPage, a.state);
      && a'.state == r.state
      && (r.Threw? ==> a'.shown == a.shown)
      && (r.Loaded? ==> a'.shown == r.shown)
      && a'.noResults == a.noResults && a'.detail == a.detail
    ensures e.LoadMore? ==> a'.state.page > a.state.page && a.state.matches <= a'.state.matches
    ensures e.ClickList? ==>
      && a'.detail == HandleBookSelection(catalog, a.detail, e.preview)
      && a'.state == a.state && a'.shown == a.shown && a'.noResults == a.noResults
    ensures e.CloseDetail? ==>
      a' == a.(detail := None)
  {
    match e
    case Search(q) =>
      var r := HandleSearch(catalog, perPage, q);
      App(r.state, r.shown, r.noResults, a.detail)
    case LoadMore =>
      var r := LoadMoreBooks(catalog, perPage, a.state);
      if r.Threw? then a.(state := r.state) else a.(state := r.state, shown := r.shown)
    case ClickList(preview) =>
      a.(detail := HandleBookSelection(catalog, a.detail, preview))
    case CloseDetail =>
      a.(detail := None)
  }

  /** A sequence of user actions applied in order. A handler that throws
      leaves its partial update and the page keeps responding. */
  function Run(catalog: seq<Book>, perPage: nat, a: App, events: seq<Event>): App
    decreases |events|
  {
    if |events| == 0 then a else Run(catalog, perPage, Step(catalog, perPage, a, events[0]), events[1..])
  }

  /** What stays true of the app whatever the user does: the page counter is
      positive, every match and every open detail is a catalog book, and the
      rendered list is a prefix of the matches. */
  ghost predicate Consistent(catalog: seq<Book>, a: App)
  {
    && a.state.page >= 1
    && FromCatalog(catalog, a.state.matches)
    && a.shown <= a.state.matches
    && (a.detail.Some? ==> a.detail.value in catalog)
  }

  lemma StartConsistent(catalog: seq<Book>, perPage: nat)
    ensures Consistent(catalog, Start(catalog, perPage))
  {
  }

  lemma StepConsistent(catalog: seq<Book>, perPage: nat, a: App, e: Event)
    requires Consistent(catalog, a)
    ensures Consistent(catalog, Step(catalog, perPage, a, e))
  {
    match e
    case Search(q) =>
    case LoadMore =>
      LoadMoreKeepsCatalog(catalog, perPage, a.state);
    case ClickList(preview) =>
    case CloseDetail =>
  }

  /** Every reachable app state is consistent. */
  lemma {:induction false} RunConsistent(catalog: seq<Book>, perPage: nat, a: App, events: seq<Event>)
    requires Consistent(catalog, a)
    ensures Consistent(catalog, Run(catalog, perPage, a, events))
    decreases |events|
  {
    if |events| > 0 {
      StepConsistent(catalog, perPage, a, events[0]);
      RunConsistent(catalog, perPage, Step(catalog, perPage, a, events[0]), events[1..]);
    }
  }

  /** Load-more on a fresh search result with fewer matches than a page
      throws when the catalog has a book: it reads position `perPage - 1`,
      which is past the end. */
  lemma LoadMoreAfterShortSearchThrows(catalog: seq<Book>, perPage: nat, q: Query)
    requires |catalog| > 0 && |Filter(catalog, q)| < perPage
    ensures LoadMoreBooks(catalog, perPage, HandleSearch(catalog, perPage, q).state).Threw?
  {
  }
}
