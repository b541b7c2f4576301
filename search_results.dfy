/**
 * The recommend page: the catalog answer to the built query is turned into
 * book records, keeping only the documents that have a cover image.
 */
module SearchResults {
  import opened Wrappers
  import opened Text
  import opened SearchQuery

  /** One entry of the catalog's `docs` list, reduced to the fields the page reads (`key` is always there). */
  datatype Doc = Doc(key: string, title: Option<string>, authorName: Option<seq<string>>, coverI: Option<int>)

  /** The book record the page shows and offers to add as a favorite. */
  datatype Book = Book(id: string, title: string, authors: string, thumbnail: string)

  /** The catalog's HTTP answer: its status code and, in the JSON body, the optional `docs` list. */
  datatype Response = Response(status: int, docs: Option<seq<Doc>>)

  /** What the recommend page is rendered with. */
  datatype Page = Page(books: seq<Book>, genre: string, author: string, title: string, query: string, fetchFailed: bool)

  const NoTitle: string := "Başlık yok"
  const UnknownAuthor: string := "Bilinmeyen"
  const CoverUrlPrefix: string := "http://covers.openlibrary.org/b/id/"
  const CoverUrlSuffix: string := "-M.jpg"

  /** The search request for a query: at most 40 documents. */
  function SearchUrl(query: string): string
  {
    "https://openlibrary.org/search.json?q=" + query + "&limit=40"
  }

  /** Python truthiness of `doc.get('cover_i')`: a missing, null or zero cover id is false. */
  predicate HasCover(d: Doc) {
    d.coverI.Some? && d.coverI.value != 0
  }

  /** The medium-size cover image URL for a cover id. */
  function CoverUrl(coverId: int): string
  {
    CoverUrlPrefix + IntToDecimal(coverId) + CoverUrlSuffix
  }

  /** The cover id a cover image URL was built from, if it has that shape. */
  function CoverIdOfUrl(url: string): Option<int>
  {
    var n, m := |CoverUrlPrefix|, |CoverUrlSuffix|;
    if |url| >= n + m && url[..n] == CoverUrlPrefix && url[|url| - m..] == CoverUrlSuffix
    then ParseInt(url[n..|url| - m])
    else None
  }

  /** The book record for a document that has a cover. */
  function ToBook(d: Doc): Book
    requires HasCover(d)
  {
    Book(LastSegment(d.key),
         d.title.GetOr(NoTitle),
         Join(d.authorName.GetOr([UnknownAuthor]), ", "),
         CoverUrl(d.coverI.value))
  }

  /** The positions of the documents that have a cover, in order. */
  function KeptIndices(docs: seq<Doc>): seq<nat>
  {
    if docs == [] then []
    else KeptIndices(docs[..|docs| - 1]) + (if HasCover(docs[|docs| - 1]) then [|docs| - 1] else [])
  }

  /** The book records the page shows for a list of documents. */
  function KeptBooks(docs: seq<Doc>): seq<Book>
  {
    if docs == [] then []
    else
      var last := docs[|docs| - 1];
      KeptBooks(docs[..|docs| - 1]) + (if HasCover(last) then [ToBook(last)] else [])
  }

  /**
   * The loop over `docs`: a document without a cover is skipped, every
   * other one is appended as a book record.
   */
  method MapDocs(docs: seq<Doc>) returns (books: seq<Book>)
    ensures books == KeptBooks(docs)
  {
    books := [];
    for i := 0 to |docs|
      invariant books == KeptBooks(docs[..i])
    {
      assert docs[..i + 1][..i] == docs[..i];
      var doc := docs[i];
      if !HasCover(doc) {
        continue;
      }
      books := books + [ToBook(doc)];
    }
    assert docs[..|docs|] == docs;
  }

  /**
   * The recommend handler. On GET the page is empty. On POST the query is
   * built from the form, the search URL is fetched (`fetch` stands for the
   * HTTP request), and a 200 answer is mapped to book records; any other
   * status shows no books and an error message.
   */
  method Recommend(isPost: bool, form: SearchForm, fetch: string -> Response) returns (page: Page)
    ensures !isPost ==> page == Page([], "", "", "", "", false)
    ensures isPost ==>
      && page.title == FieldValue(form.title)
      && page.author == FieldValue(form.author)
      && page.genre == FieldValue(form.genre)
      && page.query == Query(page.title, page.author, page.genre)
    ensures isPost ==>
      var response := fetch(SearchUrl(page.query));
      && page.fetchFailed == (response.status != 200)
      && page.books == (if response.status == 200 then KeptBooks(response.docs.GetOr([])) else [])
  {
    page := Page([], "", "", "", "", false);
    if isPost {
      var title, author, genre, query := BuildQuery(form);
      var response := fetch(SearchUrl(query));
      var books: seq<Book> := [];
      if response.status == 200 {
        books := MapDocs(response.docs.GetOr([]));
      }
      page := Page(books, genre, author, title, query, response.status != 200);
    }
  }

  /**
   * The kept positions are increasing, in range, and are exactly the
   * positions of the documents that have a cover.
   */
  lemma {:induction false} KeptIndicesExact(docs: seq<Doc>)
    ensures var ix := KeptIndices(docs);
      && (forall a, b :: 0 <= a < b < |ix| ==> ix[a] < ix[b])
      && (forall k :: 0 <= k < |ix| ==> ix[k] < |docs| && HasCover(docs[ix[k]]))
      && (forall j :: 0 <= j < |docs| ==> (HasCover(docs[j]) <==> j in ix))
  {
    if docs != [] {
      var init := docs[..|docs| - 1];
      KeptIndicesExact(init);
      var ix := KeptIndices(docs);
      var ix' := KeptIndices(init);
      forall k | 0 <= k < |ix'| ensures ix[k] == ix'[k] && ix[k] < |docs| - 1 && HasCover(docs[ix[k]]) {
        assert docs[ix'[k]] == init[ix'[k]];
      }
      forall j | 0 <= j < |docs| - 1 ensures HasCover(docs[j]) <==> j in ix {
        assert docs[j] == init[j];
        assert j != |docs| - 1;
      }
    }
  }

  /** The k-th book record is the record of the k-th kept document. */
  lemma {:induction false} KeptBooksAt(docs: seq<Doc>)
    ensures |KeptBooks(docs)| == |KeptIndices(docs)|
    ensures forall k :: 0 <= k < |KeptBooks(docs)| ==>
      var ix := KeptIndices(docs);
      ix[k] < |docs| && HasCover(docs[ix[k]]) && KeptBooks(docs)[k] == ToBook(docs[ix[k]])
  {
    if docs != [] {
      var init, last := docs[..|docs| - 1], docs[|docs| - 1];
      KeptBooksAt(init);
      var ix, ix' := KeptIndices(docs), KeptIndices(init);
      var bs, bs' := KeptBooks(docs), KeptBooks(init);
      assert ix == ix' + (if HasCover(last) then [|docs| - 1] else []);
      assert bs == bs' + (if HasCover(last) then [ToBook(last)] else []);
      forall k | 0 <= k < |bs| ensures ix[k] < |docs| && HasCover(docs[ix[k]]) && bs[k] == ToBook(docs[ix[k]]) {
        if k < |bs'| {
          assert ix[k] == ix'[k] && bs[k] == bs'[k];
          assert docs[ix'[k]] == init[ix'[k]];
        } else {
          assert ix[k] == |docs| - 1 && bs[k] == ToBook(last);
        }
      }
    }
  }

  /** There are never more book records than documents. */
  lemma KeptBooksBound(docs: seq<Doc>)
    ensures |KeptBooks(docs)| <= |docs|
  {
    KeptBooksAt(docs);
    KeptIndicesExact(docs);
    IncreasingBelowBound(KeptIndices(docs), |docs|);
  }

  /** A strictly increasing sequence of naturals below `n` has at most `n` elements. */
  lemma {:induction false} IncreasingBelowBound(ix: seq<nat>, n: nat)
    requires forall a, b :: 0 <= a < b < |ix| ==> ix[a] < ix[b]
    requires forall k :: 0 <= k < |ix| ==> ix[k] < n
    ensures |ix| <= n
  {
    if ix != [] {
      var init := ix[..|ix| - 1];
      assert forall k :: 0 <= k < |init| ==> init[k] < ix[|ix| - 1];
      IncreasingBelowBound(init, ix[|ix| - 1]);
    }
  }

  /**
   * The fields of every book record: its id is the last `/` segment of
   * the key, its thumbnail is built from a non-zero cover id, and the
   * title and authors fall back to their defaults.
   */
  lemma BookFields(docs: seq<Doc>)
    ensures forall k :: 0 <= k < |KeptBooks(docs)| ==>
      && k < |KeptIndices(docs)| && KeptIndices(docs)[k] < |docs|
      && var b, d := KeptBooks(docs)[k], docs[KeptIndices(docs)[k]];
      && b.id == LastSegment(d.key)
      && d.coverI.Some? && d.coverI.value != 0
      && b.thumbnail == CoverUrlPrefix + IntToDecimal(d.coverI.value) + CoverUrlSuffix
      && b.title == (if d.title.Some? then d.title.value else NoTitle)
      && b.authors == (if d.authorName.Some? then Join(d.authorName.value, ", ") else UnknownAuthor)
  {
    KeptBooksAt(docs);
  }

  /** A book's thumbnail gives back the cover id it was built from. */
  lemma CoverUrlRoundTrip(coverId: int)
    ensures CoverIdOfUrl(CoverUrl(coverId)) == Some(coverId)
  {
    var u := CoverUrl(coverId);
    var n, m := |CoverUrlPrefix|, |CoverUrlSuffix|;
    var d := IntToDecimal(coverId);
    assert u[..n] == CoverUrlPrefix;
    assert u[|u| - m..] == CoverUrlSuffix;
    assert u[n..|u| - m] == d;
    IntDecimalRoundTrip(coverId);
  }
}
