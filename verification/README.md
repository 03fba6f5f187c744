# Book catalog browser: search and pagination

This project models the core of a client-side book catalog browser (`scripts.js`).
The browser shows a paginated list of book records taken from a static in-memory
catalog. It has a search form that filters the catalog by title, author and genre,
a "Load more" button, and a detail overlay that opens when a book preview is
clicked. With the DOM calls removed, what is left is sequence logic over the
catalog. That logic is modelled here as pure Dafny functions:

- `Sequences`: `Array.prototype.filter` (`Select`) and `Array.prototype.slice(0, end)` (`SliceTo`).
- `Text`: `trim`, `toLowerCase` and `includes`.
- `Catalog`: the `Book` record and `books.find` by id (`Find`).
- `Filters`: the search query and the three conjoined match tests.
- `Browser`: the two module-level variables `page` and `matches` (`State`), the
  start-up code and the three handlers (search, load-more, preview click). It also has the
  event loop that applies user actions in order (`Step`, `Run`), and the invariant
  every reachable state keeps (`Consistent`).

The catalog and `BOOKS_PER_PAGE` come from `data.js`, which is not part of this
model. They are parameters: `catalog: seq<Book>` and `perPage: nat`. Each handler
returns the list it passes to the renderer (`shown`) and does not draw it.

Behaviour of the code that the model keeps:

- Load-more first does `page++`. It then reads the book at position `oldPage * perPage - 1`.
  When that position is outside the match list, the book is `undefined`. Reading
  `.author` of it throws, but only if the catalog has at least one book, because
  with an empty catalog the filter callback never runs. A throw does not undo the
  first increment, so the page counter ends one higher and nothing is rendered.
  The page keeps responding after an exception in a handler, so `Run` continues
  from that state.
- A successful load-more adds 2 to `page`. It renders `page * perPage` books, so
  the rendered list grows by two pages per click and not by one. A one-page step
  may have been what the two increments were meant to achieve, but the code
  cannot tell us that, so the model keeps the two-page step as written.
- Load-more appends supplements drawn from the whole catalog, not just from the
  current matches. Duplicates are never removed. The last book that was loaded
  is always one of its own supplements. So when the matches come from the
  catalog, the list strictly grows, and that book occurs at least twice.
- The title test trims the field only to decide whether it is blank. The
  substring test uses the untrimmed field, so `" great"` does not find `"Great"`.
- `slice(0, end)` is modelled for negative `end` too. Such an `end` counts back
  from the length.

## Model

| member | source | states |
|---|---|---|
| `Sequences.Select` | scripts.js:110-114 | `filter` keeps only the elements that pass, each taken from the input. Every passing element of the input is kept. |
| `Sequences.SelectPicksExactly` | scripts.js:110-114 | The result of `filter` lists the input at strictly increasing positions, and those positions are exactly the positions whose element passes. So the result is an order-preserving, exact subsequence. |
| `Sequences.SelectCounts` | scripts.js:110-114 | `filter` keeps every copy of a passing element and no copy of a failing one (multiset count). |
| `Sequences.SelectAllPass` | scripts.js:110-114 | When every element passes, `filter` returns the whole input unchanged. |
| `Sequences.SliceTo` | scripts.js:117 | `slice(0, end)` is a prefix of its input. Its length is `min(end, length)` for a non-negative `end`, and `max(0, length + end)` for a negative one. |
| `Text.LeadingSpaces` | scripts.js:111 | The count covers white space only, and it stops at the first character that is not white space. |
| `Text.TrailingSpaces` | scripts.js:111 | The count covers white space only, and it stops at the last character that is not white space. |
| `Text.Trim` | scripts.js:111 | `trim` returns something no longer than its input that neither starts nor ends with white space. |
| `Text.TrimLocates` | scripts.js:111 | The trimmed string is a contiguous piece of the input with only white space before and after it. |
| `Text.TrimEmptyIffBlank` | scripts.js:111 | `trim()` gives `""` exactly when every character is ECMAScript white space or a line terminator. |
| `Text.ToLower` | scripts.js:111 | `toLowerCase` keeps the length and leaves no upper-case ASCII letter. Other characters are unchanged, and each upper-case letter becomes its lower-case partner. |
| `Text.OccursAtTail` | scripts.js:111 | An occurrence in the string without its first character is an occurrence one position later in the whole string, and the other way round. |
| `Text.Contains` | scripts.js:111 | `includes` is true exactly when the needle occurs at some position of the haystack. |
| `Catalog.Find` | scripts.js:143 | `find` by id returns nothing exactly when no book has the id. Otherwise it returns the book at the first position that has the id. |
| `Catalog.FindUnique` | scripts.js:143 | When ids are unique, looking up a book's id returns that book exactly when the book is in the catalog. |
| `Filters.Filter` | scripts.js:110-114 | A book is a match exactly when it is in the catalog and passes the title, author and genre tests together. |
| `Filters.FilterExact` | scripts.js:110-114 | The matches are the catalog subsequence at the strictly increasing positions of matching books, and at no other position. |
| `Filters.FilterKeepsCopies` | scripts.js:110-114 | A matching book occurs in the matches as often as in the catalog. A non-matching book does not occur at all. |
| `Filters.BlankTitleSkipsTitleTest` | scripts.js:111 | A title field that is blank after trimming lets every book pass the title test. |
| `Filters.NonBlankTitleIsSubstringTest` | scripts.js:111 | With any non-blank title field, a book passes exactly when the lower-cased, untrimmed field occurs in its lower-cased title. |
| `Filters.UnconstrainedQueryKeepsAll` | scripts.js:110-114 | A blank title, author `"any"` and genre `"any"` give back the whole catalog, in catalog order. |
| `Filters.TitleIgnoresCase` | scripts.js:111 | The field `"great"` finds the title `"The Great Escape"`. |
| `Filters.TitleFieldIsNotTrimmed` | scripts.js:111 | The field `" great"` does not find the title `"Great"`: only the blank check trims. |
| `Filters.GenreScenario` | scripts.js:113 | A genre query matches by id membership. Of a fantasy book and a sci-fi book, only the fantasy book matches `"fantasy"`. |
| `Browser.Start` | scripts.js:3-14 | At start-up `page` is 1, `matches` is the whole catalog, and the first `min(size, perPage)` books are rendered. |
| `Browser.HandleSearch` | scripts.js:106-119 | A search sets `page` to 1 and replaces `matches` with the filtered catalog. The no-results flag is set exactly when nothing matched. The rendered list is the first `min(matches, perPage)` matches. |
| `Browser.Supplement` | scripts.js:127-130 | A supplement book is a catalog book that shares the last book's author or at least one of its genres. |
| `Browser.LoadMoreBooks` | scripts.js:124-135 | Load-more throws exactly when the position `page * perPage - 1` is outside the matches and the catalog is not empty. A throw leaves `page + 1` and the matches unchanged. Otherwise `page` rises by exactly 2 and the old matches stay as a prefix. When the position is in range, the supplement is appended without deduplication. The rendered list is the first `min(matches, page * perPage)` books. |
| `Browser.SupplementExact` | scripts.js:127-130 | The supplement is the catalog subsequence of exactly the books similar to the last loaded one, in catalog order. |
| `Browser.LoadMoreGrows` | scripts.js:126-132 | When the matches are catalog books and load-more succeeds, the matches strictly grow, and the last loaded book now occurs at least twice. |
| `Browser.LoadMoreKeepsCatalog` | scripts.js:127-132 | Load-more keeps every match a catalog book. |
| `Browser.LoadMoreAfterShortSearchThrows` | scripts.js:124-128 | Load-more throws right after a search that found fewer books than one page, provided the catalog is not empty. |
| `Browser.HandleBookSelection` | scripts.js:140-144 | A click beside the previews, or on an id the catalog lacks, leaves the overlay as it was. A click on a known id opens the overlay on the first catalog book with that id. |
| `Browser.Step` | scripts.js:82-89 | A search installs the filtered catalog on page 1, sets the flag exactly when nothing matched, renders the first page and leaves the overlay alone. Load-more takes the handler's new state. It keeps the rendered list when the handler throws and takes the handler's list otherwise, and it leaves the flag and the overlay alone. A list click changes only the overlay, as the selection handler decides. Closing the overlay clears it and changes nothing else. |
| `Browser.StartConsistent` | scripts.js:3-14 | The start-up state satisfies the invariant. |
| `Browser.StepConsistent` | scripts.js:106-144 | Every handler preserves the invariant, a throwing load-more included. The invariant is: page at least 1, every match and the open detail book a catalog book, and the rendered list a prefix of the matches. |
| `Browser.RunConsistent` | scripts.js:3-4 | The invariant holds after any sequence of user actions. |

## Left out

- DOM rendering and HTML templating (scripts.js:24-44): the model stops at the list handed to the renderer.
- Drop-down population (scripts.js:49-59): DOM construction that depends on `Object.entries` ordering.
- Theme detection and the CSS variables (scripts.js:64-73, 96-101): these rely on `matchMedia` and style side effects.
- Event wiring, the search and settings dialogs, and `location.reload` (scripts.js:6-8, 78-81, 83-85, 88, 92-94): browser plumbing. The wiring is only reflected in `Browser.Step`, which picks the handler. Of the dialogs, only the detail overlay is modelled, as opened by a preview click and closed by its close button (scripts.js:82).
- Filling the detail overlay, including `new Date(...).getFullYear()` and the author name (scripts.js:146-151): DOM output with date handling. Only which book is opened is modelled.
- `data.js` is not part of this model. The catalog, the author and genre directories and `BOOKS_PER_PAGE` are inputs, and the directories are not needed by the modelled logic.
- Text.ToLower: it only lowers the ASCII letters `A`-`Z`. JavaScript's `toLowerCase` applies full Unicode case mapping, including mappings that change the length.
- Text.Trim: it works on code points. A JavaScript string is a sequence of UTF-16 code units, but every white-space character involved lies in the Basic Multilingual Plane, so only the representation differs.
- Browser.Start: the initial state of the "no results" message comes from the page markup, which is not part of this model. The model starts with the message hidden.
- A book record without a `genres` array, or an undefined `lastLoadedBook.genres`, would make load-more throw as well. The model assumes every record has `genres`.
- `Filters.Query` assumes the search form always submits `title`, `author` and `genre`. If `title` were missing, scripts.js:111 would throw after scripts.js:107 had already set `page` to 1. The model does not include that partial update.
