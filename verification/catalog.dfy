/** The catalog: the book records the browser is started with, and the lookup
    of one record by id used when a preview is clicked. */
module Catalog {
  import opened Optional

  /** One book record. `author` and the entries of `genres` are ids into the
      author and genre directories; `published` is kept as the raw date text. */
  datatype Book = Book(
    id: string,
    title: string,
    author: string,
    genres: seq<string>,
    image: string,
    description: string,
    published: string)

  /** Position `i` holds the first book of `books` whose id is `id`. */
  ghost predicate FirstWithId(books: seq<Book>, id: string, i: int)
  {
    && 0 <= i < |books|
    && books[i].id == id
    && forall j :: 0 <= j < i ==> books[j].id != id
  }

  /** `books.find(b => b.id === id)`: the first book carrying `id`, or `None`
      (JavaScript's `undefined`) when no book does. */
  function Find(books: seq<Book>, id: string): (r: Option<Book>)
    ensures r.None? <==> forall i :: 0 <= i < |books| ==> books[i].id != id
    ensures r.Some? ==> exists i :: FirstWithId(books, id, i) && books[i] == r.value
    decreases |books|
  {
    if |books| == 0 then None
    else if books[0].id == id then assert FirstWithId(books, id, 0); Some(books[0])
    else
      var r := Find(books[1..], id);
      assert r.Some? ==> exists i :: FirstWithId(books, id, i) && books[i] == r.value by {
        if r.Some? {
          var i :| FirstWithId(books[1..], id, i) && books[1..][i] == r.value;
          assert FirstWithId(books, id, i + 1);
        }
      }
      r
  }

  /** No two records share an id. */
  ghost predicate UniqueIds(books: seq<Book>)
  {
    forall i, j :: 0 <= i < |books| && 0 <= j < |books| && books[i].id == books[j].id ==> i == j
  }

  /** With unique ids, the lookup finds exactly the catalog record that
      carries the id. */
  lemma FindUnique(books: seq<Book>, b: Book)
    requires UniqueIds(books)
    ensures Find(books, b.id) == Some(b) <==> b in books
  {
    var r := Find(books, b.id);
    if b in books {
      var k :| 0 <= k < |books| && books[k] == b;
      var i :| FirstWithId(books, b.id, i) && books[i] == r.value;
      assert i == k;
    }
  }
}
