/**
 * The catalog query the recommend page builds from the three optional
 * fields of its form: title, author and genre.
 */
module SearchQuery {
  import opened Wrappers
  import opened Text

  /** The recommend form as `request.form.get(name)` sees it: each field may be missing. */
  datatype SearchForm = SearchForm(title: Option<string>, author: Option<string>, genre: Option<string>)

  const TitlePrefix: string := "intitle:"
  const AuthorPrefix: string := "author:"
  const SubjectPrefix: string := "subject:"

  /** `request.form.get(name, '').strip()`: a missing field reads as the empty string. */
  function FieldValue(v: Option<string>): string
  {
    Strip(v.GetOr(""))
  }

  /** The part a field contributes: none when its value is empty. */
  function Part(prefix: string, value: string): seq<string>
  {
    if value != "" then [prefix + value] else []
  }

  /** One part per non-empty value, always in the order title, author, subject. */
  function QueryParts(title: string, author: string, genre: string): seq<string>
  {
    Part(TitlePrefix, title) + Part(AuthorPrefix, author) + Part(SubjectPrefix, genre)
  }

  /** The parts joined by single spaces. */
  function Query(title: string, author: string, genre: string): string
  {
    Join(QueryParts(title, author, genre), " ")
  }

  /**
   * The form handling of the recommend page: strip the three fields,
   * collect a part for each non-empty one and join the parts.
   */
  method BuildQuery(form: SearchForm) returns (title: string, author: string, genre: string, query: string)
    ensures title == FieldValue(form.title)
    ensures author == FieldValue(form.author)
    ensures genre == FieldValue(form.genre)
    ensures query == Query(title, author, genre)
  {
    genre := FieldValue(form.genre);
    author := FieldValue(form.author);
    title := FieldValue(form.title);

    var parts: seq<string> := [];
    if title != "" {
      parts := parts + [TitlePrefix + title];
    }
    assert parts == Part(TitlePrefix, title);
    if author != "" {
      parts := parts + [AuthorPrefix + author];
    }
    assert parts == Part(TitlePrefix, title) + Part(AuthorPrefix, author);
    if genre != "" {
      parts := parts + [SubjectPrefix + genre];
    }
    assert parts == QueryParts(title, author, genre);
    query := if parts != [] then Join(parts, " ") else "";
  }

  /** Which field a part was built from: 0 for title, 1 for author, 2 for subject. */
  function PartRank(p: string): nat
  {
    if IsPrefix(TitlePrefix, p) then 0
    else if IsPrefix(AuthorPrefix, p) then 1
    else 2
  }

  /** The query is empty exactly when all three stripped values are empty. */
  lemma QueryEmptyIff(title: string, author: string, genre: string)
    ensures Query(title, author, genre) == "" <==> title == "" && author == "" && genre == ""
  {
  }

  /** A value contributes a part exactly when it is non-empty, and the part carries the value. */
  lemma QueryPartPresence(title: string, author: string, genre: string)
    ensures var parts := QueryParts(title, author, genre);
      && ((exists p :: p in parts && IsPrefix(TitlePrefix, p)) <==> title != "")
      && ((exists p :: p in parts && IsPrefix(AuthorPrefix, p)) <==> author != "")
      && ((exists p :: p in parts && IsPrefix(SubjectPrefix, p)) <==> genre != "")
      && (title != "" ==> TitlePrefix + title in parts)
      && (author != "" ==> AuthorPrefix + author in parts)
      && (genre != "" ==> SubjectPrefix + genre in parts)
  {
    var parts := QueryParts(title, author, genre);
    var t, a, g := TitlePrefix + title, AuthorPrefix + author, SubjectPrefix + genre;
    assert t[0] == 'i' && a[0] == 'a' && g[0] == 's';
    assert IsPrefix(TitlePrefix, t) && !IsPrefix(AuthorPrefix, t) && !IsPrefix(SubjectPrefix, t);
    assert IsPrefix(AuthorPrefix, a) && !IsPrefix(TitlePrefix, a) && !IsPrefix(SubjectPrefix, a);
    assert IsPrefix(SubjectPrefix, g) && !IsPrefix(TitlePrefix, g) && !IsPrefix(AuthorPrefix, g);
    forall p | p in parts
      ensures (p == t && title != "") || (p == a && author != "") || (p == g && genre != "")
    {
    }
  }

  /** The parts stand in the fixed order title, author, subject, one of each at most. */
  lemma QueryPartsOrdered(title: string, author: string, genre: string)
    ensures var parts := QueryParts(title, author, genre);
      forall i, j :: 0 <= i < j < |parts| ==> PartRank(parts[i]) < PartRank(parts[j])
  {
    var t := TitlePrefix + title;
    var a := AuthorPrefix + author;
    var g := SubjectPrefix + genre;
    assert PartRank(t) == 0 by { assert IsPrefix(TitlePrefix, t); }
    assert PartRank(a) == 1 by { assert IsPrefix(AuthorPrefix, a); assert a[0] != TitlePrefix[0]; }
    assert PartRank(g) == 2 by { assert g[0] != TitlePrefix[0] && g[0] != AuthorPrefix[0]; }
  }

  /** Each non-empty value occurs in the query, behind its prefix. */
  lemma QueryContainsValues(title: string, author: string, genre: string)
    ensures title != "" ==> IsInfix(TitlePrefix + title, Query(title, author, genre))
    ensures author != "" ==> IsInfix(AuthorPrefix + author, Query(title, author, genre))
    ensures genre != "" ==> IsInfix(SubjectPrefix + genre, Query(title, author, genre))
  {
    var parts := QueryParts(title, author, genre);
    forall p | p in parts ensures IsInfix(p, Join(parts, " ")) {
      var k :| 0 <= k < |parts| && parts[k] == p;
      JoinContains(parts, " ", k);
    }
    QueryPartPresence(title, author, genre);
  }

  /** Whitespace around a field does not change the query. */
  lemma FieldValueIgnoresPadding(v: string, pad: string, pad': string)
    requires AllSpace(pad) && AllSpace(pad')
    ensures FieldValue(Some(pad + v + pad')) == FieldValue(Some(v))
  {
    var r := Strip(v);
    var k := StripOffset(v);
    var lead, trail := v[..k], v[k + |r|..];
    assert v == lead + r + trail by {
      assert v == v[..k] + v[k..k + |r|] + v[k + |r|..];
    }
    StripPadded(v, lead, r, trail, pad, pad');
  }
}
