# BookRecommendation routes, modelled in Dafny

This project models the logic inside the Flask route handlers of the
BookRecommendation web application (`app/routes.py`):

- **The search query** of the recommend page. The title, author and genre
  fields are read with a default of `''` and stripped. Each non-empty one
  becomes `intitle:…`, `author:…` or `subject:…`, always in that order,
  and the parts are joined with single spaces (module `SearchQuery`).
- **The result mapping** of the recommend page. The Open Library answer is
  a list of documents. Every document without a truthy `cover_i` is
  skipped. Every other document becomes a book record: its id is the last
  `/` segment of `key`, its title defaults to `Başlık yok`, its authors are
  the `', '`-join of `author_name` (default `['Bilinmeyen']`), and its
  thumbnail is the medium cover URL for the cover id (module
  `SearchResults`).
- **The favorites and users tables**, as sequences of rows in table order,
  in a `Database` class (module `Store`). `add_favorite` needs a title,
  authors and a thumbnail, and refuses a book the user already has.
  `remove_favorite` deletes the first matching row or reports "not found".
  `favorites` lists the user's rows. `register` refuses an e-mail that is
  already in use.

The Python string operations the routes use (`strip`, `join`,
`split('/')[-1]`, `str(int)`) are modelled in module `Text`, each with an
independent partner: a uniqueness lemma for `strip`, `split('/')` for the
last segment, and a parser that reads decimal text back.

The routes contain no scoring, candidate-generation or diversity-ranking
code: the recommend page shows the hits of one Open Library search in
catalog order.

Each table-changing handler is a method of `Store.Database` with
`modifies this`. Its `ensures` ties the new table to a pure function of
the old one (`AfterAdd`, `AfterRemove`, `AfterRegister`). The lemmas about
those functions state the rules: the table invariant is kept, a user holds
a book at most once, nothing else changes.

Stated against `FavoritesValid`, the table invariant is:
- favorite ids are unique;
- a user holds a book at most once;
- every stored favorite has a non-empty title, authors and thumbnail.

`add_favorite` is the only writer of that table, so this holds.

## Model

| member | source | states |
|---|---|---|
| `Text.Strip` | app/routes.py:24-26 | `strip()` keeps a contiguous piece of the input with only whitespace cut from both ends; the result has non-space ends and is empty exactly when the input is all whitespace |
| `Text.StripUnique` | app/routes.py:24-26 | any split of a string into leading whitespace, a core with non-space ends and trailing whitespace has `strip()` equal to that core |
| `Text.StripIdempotent` | app/routes.py:24-26 | stripping a stripped value changes nothing |
| `Text.StripPadded` | app/routes.py:24-26 | whitespace added around a string does not change what `strip()` keeps |
| `SearchQuery.FieldValueIgnoresPadding` | app/routes.py:24-26 | a form value padded with whitespace reads the same as the unpadded value |
| `SearchQuery.BuildQuery` | app/routes.py:24-36 | the three fields are read with default `''` and stripped, and the query is the space-join of the parts of the non-empty ones |
| `SearchQuery.QueryEmptyIff` | app/routes.py:28-36 | the query is empty if and only if all three stripped values are empty |
| `SearchQuery.QueryPartPresence` | app/routes.py:28-34 | a field contributes a part if and only if its stripped value is non-empty, and that part is the prefix followed by the value |
| `SearchQuery.QueryPartsOrdered` | app/routes.py:28-34 | the parts always come in the order `intitle:`, `author:`, `subject:` |
| `SearchQuery.QueryContainsValues` | app/routes.py:29-36 | each non-empty value occurs in the query behind its prefix |
| `Text.JoinEmptyIff` | app/routes.py:36 | a space-join of non-empty parts is empty if and only if there are no parts |
| `Text.JoinContains` | app/routes.py:36 | every part occurs in the joined string |
| `Text.JoinLength` | app/routes.py:36 | a join is as long as its parts plus one separator between each neighbouring pair |
| `SearchResults.MapDocs` | app/routes.py:43-53 | the loop with `continue` yields exactly the book records of the documents that have a cover, in document order |
| `SearchResults.Recommend` | app/routes.py:17-57 | GET shows an empty page; POST shows the stripped fields and the built query, and lists books only when the search answered 200, with the error flag set otherwise |
| `SearchResults.KeptIndicesExact` | app/routes.py:43-46 | the kept documents are exactly those with a truthy cover id, taken in increasing position |
| `SearchResults.KeptBooksAt` | app/routes.py:43-53 | the k-th book record is the record of the k-th kept document, which has a cover |
| `SearchResults.KeptBooksBound` | app/routes.py:43-53 | there are never more book records than documents |
| `SearchResults.BookFields` | app/routes.py:48-53 | each record's id is the last `/` segment of the key, title and authors fall back to `Başlık yok` and `Bilinmeyen`, and the thumbnail is the cover URL of a non-zero cover id |
| `SearchResults.CoverUrlRoundTrip` | app/routes.py:52 | the cover id can be read back from the thumbnail URL |
| `Text.LastSegment` | app/routes.py:49 | the id is a slash-free suffix of the key that is either the whole key or follows its last `/` |
| `Text.LastSegmentUnique` | app/routes.py:49 | only one suffix of a key has that shape |
| `Text.LastSegmentIsLastSplit` | app/routes.py:49 | the id equals the final element of `key.split('/')` |
| `Text.DecimalRoundTrip` | app/routes.py:52 | the decimal digits of a non-negative cover id read back as that number |
| `Text.IntDecimalRoundTrip` | app/routes.py:52 | `str(cover_id)` parses back to the cover id, sign included |
| `Text.IntToDecimalInjective` | app/routes.py:52 | different cover ids give different thumbnail texts |
| `Store.FirstMatch` | app/routes.py:71 | `filter_by(user_id, book_id).first()` finds the first row for that user and book, or reports that none exists |
| `Store.Database.FindFavorite` | app/routes.py:86 | the scan of the favorites table returns the first matching row's position |
| `Store.FirstWithEmail` | app/routes.py:110 | `filter_by(email).first()` finds the first user with that e-mail, or reports that none exists |
| `Store.Database.FindUserByEmail` | app/routes.py:110 | the scan of the users table returns the first position with that e-mail |
| `Store.MaxFavoriteId` | app/models.py:16 | the id given to a new favorite is larger than every id in use |
| `Store.MaxFavoriteIdInUse` | app/models.py:16 | in a non-empty table the largest id is the id of a stored row |
| `Store.MaxUserIdInUse` | app/models.py:7 | in a non-empty users table the largest id is the id of a stored user |
| `Store.UserFavoritesMembers` | app/routes.py:99 | the favorites page lists exactly the rows of the logged-in user, never more than the table holds |
| `Store.Database.FavoritesOf` | app/routes.py:96-100 | the favorites page is the user's rows in table order |
| `Store.Database.AddFavorite` | app/routes.py:60-80 | keeps the table invariant; the decision and the new table are those of `AddOutcome` and `AfterAdd`; the users table is untouched |
| `Store.AddOutcomeMeaning` | app/routes.py:67-78 | a missing or empty title, authors or thumbnail changes nothing; an existing (user, book) row changes nothing; otherwise exactly one row with the given fields and a fresh id is appended |
| `Store.AddKeepsValid` | app/routes.py:71-78 | adding keeps ids unique, one row per (user, book), and complete rows |
| `Store.ValidAtMostOne` | app/routes.py:71-74 | under the invariant a (user, book) pair has at most one row, and none exactly when the lookup finds nothing |
| `Store.AddLeavesExactlyOne` | app/routes.py:71-78 | after adding with a complete form the user holds the book exactly once, whether it was new or already there |
| `Store.UserFavoritesAfterAdd` | app/routes.py:76-78 | after adding, the user's favorites page gains the new row at its end and every other user's page is unchanged |
| `Store.Database.RemoveFavorite` | app/routes.py:83-93 | keeps the table invariant; the decision and the new table are those of `RemoveOutcome` and `AfterRemove`; the users table is untouched |
| `Store.RemoveMeaning` | app/routes.py:86-92 | "not found" is reported exactly when no row matches, and then nothing changes; otherwise the first matching row goes, the rows before and after it keep their order, every other row stays, and under the invariant no matching row is left |
| `Store.RemoveKeepsValid` | app/routes.py:86-89 | removing keeps the table invariant |
| `Store.UserFavoritesAfterRemove` | app/routes.py:88-89 | after removing, the user's favorites page is the old page with exactly the removed row cut out, the other rows in their order, and every other user's page is unchanged |
| `Store.Database.Register` | app/routes.py:103-122 | keeps the users table constraints; the decision and the new table are those of `RegisterOutcome` and `AfterRegister`; the favorites table is untouched |
| `Store.RegisterMeaning` | app/routes.py:105-118 | a missing field aborts; an e-mail in use is refused; a free e-mail with a username in use fails at commit; a complete form with a free e-mail and a free username is registered, and that user carries the given username and e-mail and the hash of the password and is appended alone |
| `Store.RegisterKeepsValid` | app/routes.py:110-118 | registering keeps user ids, e-mails and usernames unique |

## Left out

- The HTTP request to Open Library (app/routes.py:38-42) is network I/O. `Recommend` takes it as a parameter `fetch`, a function from URL to response. The percent-encoding that the HTTP library applies to the query in the URL is not modelled.
- JSON decoding is left out. A document is modelled with fields that are either absent or of the expected type: a string `key`, an optional string `title`, an optional list of strings `author_name`, and an optional integer `cover_i`. A JSON `null` title is read like an absent one; in the source it would reach the page as `None`. A missing `key` would crash at app/routes.py:49, so `key` is always present.
- Flask plumbing is left out: templates, `flash` messages, redirects, the blueprint, `login_required`, `login_user`, `logout_user`. The logged-in user's id is a parameter of each table method. The flash message of a failed search is the `fetchFailed` flag of the page.
- Password hashing (app/routes.py:115) is a foreign library. `Register` takes it as a function parameter `hash`.
- The `home`, `login` and `logout` handlers only render pages or handle sessions and are not modelled. app/forms.py and app/__init__.py are not part of this model.
- There is no scoring, candidate generation or diversity ranking in the routes, so none is modelled.
- `first()` has no `ORDER BY` in the source. It is modelled as the first row in table order, which is what SQLite returns for these queries.
- Store.MaxFavoriteId: new ids follow SQLite's rowid rule (one more than the largest id in use). The database may pick other unused ids; only their uniqueness is relied on.
- Store.Database.Register: a username that is already in use is not checked by the handler. The commit then breaks the unique column (app/models.py:8) and raises. This is modelled as the outcome `CommitRejected` with nothing stored; the unhandled error page and the session rollback are not modelled.
- Transactions and concurrent requests are not modelled. Each handler runs alone and its commit succeeds unless a unique column is broken.
- `Text.IsSpace` lists the characters for which Python's `str.isspace()` is true; Unicode normalisation is not modelled.
