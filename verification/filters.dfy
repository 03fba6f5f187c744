/** The search filter: a query from the search form and the three conjoined
    tests a book must pass to be a match. */
module Filters {
  import opened Text
  import opened Sequences
  import opened Catalog

  /** The value the author and genre drop-downs submit for "all". */
  const Any: string := "any"

  /** The submitted search form. */
  datatype Query = Query(title: string, author: string, genre: string)

  /** Skipped when the title field is blank after trimming; otherwise the
      lower-cased title must contain the lower-cased, untrimmed field. */
  predicate TitlePasses(q: Query, b: Book)
  {
    Trim(q.title) == [] || Contains(ToLower(b.title), ToLower(q.title))
  }

  /** Skipped for "any"; otherwise the author ids must be equal. */
  predicate AuthorPasses(q: Query, b: Book)
  {
    q.author == Any || b.author == q.author
  }

  /** Skipped for "any"; otherwise the genre id must be one of the book's. */
  predicate GenrePasses(q: Query, b: Book)
  {
    q.genre == Any || q.genre in b.genres
  }

  predicate Matches(q: Query, b: Book)
  {
    TitlePasses(q, b) && AuthorPasses(q, b) && GenrePasses(q, b)
  }

  /** The books of the catalog that match the query, in catalog order. */
  function Filter(catalog: seq<Book>, q: Query): (r: seq<Book>)
    ensures forall b :: b in r <==> b in catalog && TitlePasses(q, b) && AuthorPasses(q, b) && GenrePasses(q, b)
  {
    Select(catalog, b => Matches(q, b))
  }

  /** The match list is exactly the catalog subsequence of matching books:
      catalog order is kept, every matching position is present once and no
      other position is. */
  lemma FilterExact(catalog: seq<Book>, q: Query) returns (idx: seq<int>)
    ensures ListsAt(Filter(catalog, q), catalog, idx) && StrictlyIncreasing(idx)
    ensures forall i :: 0 <= i < |catalog| ==> (Matches(q, catalog[i]) <==> i in idx)
  {
    idx := SelectPicksExactly(catalog, b => Matches(q, b));
  }

  /** A matching book appears in the result as often as in the catalog. */
  lemma FilterKeepsCopies(catalog: seq<Book>, q: Query, b: Book)
    ensures multiset(Filter(catalog, q))[b] == if Matches(q, b) then multiset(catalog)[b] else 0
  {
    SelectCounts(catalog, b => Matches(q, b), b);
  }

  /** A title field that is blank after trimming filters nothing out. */
  lemma BlankTitleSkipsTitleTest(q: Query, b: Book)
    requires AllSpace(q.title)
    ensures TitlePasses(q, b)
  {
    TrimEmptyIffBlank(q.title);
  }

  /** A title field with any other character demands that the lower-cased
      field, spaces included, occur in the lower-cased title. */
  lemma NonBlankTitleIsSubstringTest(q: Query, b: Book)
    requires !AllSpace(q.title)
    ensures TitlePasses(q, b) <==> exists i :: OccursAt(ToLower(b.title), ToLower(q.title), i)
  {
    TrimEmptyIffBlank(q.title);
  }

  /** A blank title with "any" author and "any" genre returns the whole
      catalog, in its order. */
  lemma UnconstrainedQueryKeepsAll(catalog: seq<Book>, q: Query)
    requires AllSpace(q.title) && q.author == Any && q.genre == Any
    ensures Filter(catalog, q) == catalog
  {
    forall i | 0 <= i < |catalog|
      ensures Matches(q, catalog[i])
    {
      BlankTitleSkipsTitleTest(q, catalog[i]);
    }
    SelectAllPass(catalog, b => Matches(q, b));
  }

  /** Case is ignored: "great" finds "The Great Escape". */
  lemma TitleIgnoresCase()
    ensures TitlePasses(Query("great", Any, Any), Book("1", "The Great Escape", "A", ["fantasy"], "", "", ""))
  {
    var h := ToLower("The Great Escape");
    assert h[4..9] == "great";
    assert OccursAt(h, ToLower("great"), 4);
    assert !AllSpace("great") by {
      assert !IsSpace("great"[0]);
    }
    NonBlankTitleIsSubstringTest(Query("great", Any, Any), Book("1", "The Great Escape", "A", ["fantasy"], "", "", ""));
  }

  /** Only the blank test trims: a padded field must match with its spaces,
      so " great" does not find a title that starts with "Great". */
  lemma TitleFieldIsNotTrimmed()
    ensures !TitlePasses(Query(" great", Any, Any), Book("1", "Great", "A", ["fantasy"], "", "", ""))
  {
    var q := Query(" great", Any, Any);
    var b := Book("1", "Great", "A", ["fantasy"], "", "", "");
    assert !IsSpace(q.title[1]);
    NonBlankTitleIsSubstringTest(q, b);
    assert |ToLower(q.title)| > |ToLower(b.title)|;
  }

  /** Genre is tested by id membership: of a fantasy book and a science
      fiction book, only the first passes a "fantasy" query. */
  lemma GenreScenario()
    ensures
      var b1 := Book("1", "", "A", ["fantasy"], "", "", "");
      var b2 := Book("2", "", "B", ["scifi"], "", "", "");
      Filter([b1, b2], Query("", Any, "fantasy")) == [b1]
  {
    var b1 := Book("1", "", "A", ["fantasy"], "", "", "");
    var b2 := Book("2", "", "B", ["scifi"], "", "", "");
    var q := Query("", Any, "fantasy");
    BlankTitleSkipsTitleTest(q, b1);
    assert "fantasy" != "scifi";
    assert !Matches(q, b2);
    assert [b1, b2][1..] == [b2];
  }
}
