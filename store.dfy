/**
 * The favorites and users tables behind the favorite and register pages,
 * as sequences of records in table order, and the rules the handlers
 * apply to them.
 */
module Store {
  import opened Wrappers

  /** A row of the favorites table. */
  datatype Favorite = Favorite(id: nat, userId: int, bookId: string, title: string, authors: string, thumbnail: string)

  /** A row of the users table; `password` holds the hash, never the password. */
  datatype User = User(id: nat, username: string, email: string, password: string)

  datatype AddResult = MissingFields | AlreadyFavorite | Added(record: Favorite)
  datatype RemoveResult = Removed(record: Favorite) | NotFound

  /**
   * BadRequest: a form field is missing (`request.form[name]` aborts);
   * CommitRejected: the new row breaks the unique username column, so the
   * commit raises and nothing is stored.
   */
  datatype RegisterResult = BadRequest | EmailTaken | CommitRejected | Registered(user: User)

  /** Python truthiness of a `request.form.get(name)` value: present and not empty. */
  predicate Present(v: Option<string>) {
    v.Some? && v.value != ""
  }

  predicate Matches(f: Favorite, userId: int, bookId: string) {
    f.userId == userId && f.bookId == bookId
  }

  /** `Favorite.query.filter_by(user_id=…, book_id=…).first()`, as a position in the table. */
  function FirstMatch(table: seq<Favorite>, userId: int, bookId: string): (r: Option<nat>)
    ensures r.Some? ==> r.value < |table| && Matches(table[r.value], userId, bookId)
    ensures r.Some? ==> forall j :: 0 <= j < r.value ==> !Matches(table[j], userId, bookId)
    ensures r.None? ==> forall j :: 0 <= j < |table| ==> !Matches(table[j], userId, bookId)
  {
    if table == [] then None
    else if Matches(table[0], userId, bookId) then Some(0)
    else match FirstMatch(table[1..], userId, bookId)
      case None => None
      case Some(i) => Some(i + 1)
  }

  /** `User.query.filter_by(email=…).first()`, as a position in the table. */
  function FirstWithEmail(users: seq<User>, email: string): (r: Option<nat>)
    ensures r.Some? ==> r.value < |users| && users[r.value].email == email
    ensures r.Some? ==> forall j :: 0 <= j < r.value ==> users[j].email != email
    ensures r.None? ==> forall j :: 0 <= j < |users| ==> users[j].email != email
  {
    if users == [] then None
    else if users[0].email == email then Some(0)
    else match FirstWithEmail(users[1..], email)
      case None => None
      case Some(i) => Some(i + 1)
  }

  /** The largest favorite id in use, 0 for an empty table. */
  function MaxFavoriteId(table: seq<Favorite>): (m: nat)
    ensures forall f :: f in table ==> f.id <= m
  {
    if table == [] then 0
    else var rest := MaxFavoriteId(table[1..]);
      if table[0].id > rest then table[0].id else rest
  }

  /** The largest user id in use, 0 for an empty table. */
  function MaxUserId(users: seq<User>): (m: nat)
    ensures forall u :: u in users ==> u.id <= m
  {
    if users == [] then 0
    else var rest := MaxUserId(users[1..]);
      if users[0].id > rest then users[0].id else rest
  }

  /** The rows of one user's favorites, in table order. */
  function UserFavorites(table: seq<Favorite>, userId: int): seq<Favorite>
  {
    if table == [] then []
    else (if table[0].userId == userId then [table[0]] else []) + UserFavorites(table[1..], userId)
  }

  /** The largest favorite id is the id of a row in the table. */
  lemma {:induction false} MaxFavoriteIdInUse(table: seq<Favorite>)
    requires table != []
    ensures exists f :: f in table && f.id == MaxFavoriteId(table)
  {
    if |table| == 1 || table[0].id > MaxFavoriteId(table[1..]) {
      assert table[0] in table && table[0].id == MaxFavoriteId(table);
    } else {
      MaxFavoriteIdInUse(table[1..]);
      var f :| f in table[1..] && f.id == MaxFavoriteId(table[1..]);
      assert f in table && f.id == MaxFavoriteId(table);
    }
  }

  /** The largest user id is the id of a user in the table. */
  lemma {:induction false} MaxUserIdInUse(users: seq<User>)
    requires users != []
    ensures exists u :: u in users && u.id == MaxUserId(users)
  {
    if |users| == 1 || users[0].id > MaxUserId(users[1..]) {
      assert users[0] in users && users[0].id == MaxUserId(users);
    } else {
      MaxUserIdInUse(users[1..]);
      var u :| u in users[1..] && u.id == MaxUserId(users[1..]);
      assert u in users && u.id == MaxUserId(users);
    }
  }

  /** How many rows hold `bookId` for `userId`. */
  function CountMatches(table: seq<Favorite>, userId: int, bookId: string): nat
  {
    if table == [] then 0
    else (if Matches(table[0], userId, bookId) then 1 else 0) + CountMatches(table[1..], userId, bookId)
  }

  /**
   * The invariant the favorite handlers keep: ids are unique, a user has a
   * book at most once, and every row has a title, authors and a thumbnail.
   */
  ghost predicate FavoritesValid(table: seq<Favorite>) {
    && (forall i, j :: 0 <= i < j < |table| ==> table[i].id != table[j].id)
    && (forall i, j :: 0 <= i < j < |table| ==>
          !Matches(table[j], table[i].userId, table[i].bookId))
    && (forall i :: 0 <= i < |table| ==>
          table[i].title != "" && table[i].authors != "" && table[i].thumbnail != "")
  }

  /** The users table constraints: unique ids, unique e-mails, unique usernames. */
  ghost predicate UsersValid(users: seq<User>) {
    forall i, j :: 0 <= i < j < |users| ==>
      users[i].id != users[j].id && users[i].email != users[j].email && users[i].username != users[j].username
  }

  /** The decision `add_favorite` takes. The new row gets the next id after the largest in use. */
  function AddOutcome(table: seq<Favorite>, userId: int, bookId: string,
                      title: Option<string>, authors: Option<string>, thumbnail: Option<string>): AddResult
  {
    if !(Present(title) && Present(authors) && Present(thumbnail)) then MissingFields
    else if FirstMatch(table, userId, bookId).Some? then AlreadyFavorite
    else Added(Favorite(MaxFavoriteId(table) + 1, userId, bookId, title.value, authors.value, thumbnail.value))
  }

  /** The favorites table after `add_favorite` took decision `result`. */
  function AfterAdd(table: seq<Favorite>, result: AddResult): seq<Favorite>
  {
    if result.Added? then table + [result.record] else table
  }

  /** The decision `remove_favorite` takes. */
  function RemoveOutcome(table: seq<Favorite>, userId: int, bookId: string): RemoveResult
  {
    match FirstMatch(table, userId, bookId)
    case Some(i) => Removed(table[i])
    case None => NotFound
  }

  /** The favorites table after `remove_favorite`: the first matching row is gone. */
  function AfterRemove(table: seq<Favorite>, userId: int, bookId: string): seq<Favorite>
  {
    match FirstMatch(table, userId, bookId)
    case Some(i) => table[..i] + table[i + 1..]
    case None => table
  }

  /** The decision `register` takes; `hash` stands for `generate_password_hash`. */
  function RegisterOutcome(users: seq<User>, username: Option<string>, email: Option<string>,
                           password: Option<string>, hash: string -> string): RegisterResult
  {
    if username.None? || email.None? || password.None? then BadRequest
    else if FirstWithEmail(users, email.value).Some? then EmailTaken
    else if exists u :: u in users && u.username == username.value then CommitRejected
    else Registered(User(MaxUserId(users) + 1, username.value, email.value, hash(password.value)))
  }

  function AfterRegister(users: seq<User>, result: RegisterResult): seq<User>
  {
    if result.Registered? then users + [result.user] else users
  }

  /**
   * The database: the two tables and the handlers that read and change them.
   */
  class Database {
    var favorites: seq<Favorite>
    var users: seq<User>

    ghost predicate Valid()
      reads this
    {
      FavoritesValid(favorites) && UsersValid(users)
    }

    constructor ()
      ensures Valid() && favorites == [] && users == []
    {
      favorites := [];
      users := [];
    }

    /** The lookup `filter_by(user_id=…, book_id=…).first()`, scanning the table in order. */
    method FindFavorite(userId: int, bookId: string) returns (index: Option<nat>)
      ensures index == FirstMatch(favorites, userId, bookId)
    {
      var i := 0;
      while i < |favorites|
        invariant 0 <= i <= |favorites|
        invariant forall j :: 0 <= j < i ==> !Matches(favorites[j], userId, bookId)
      {
        if Matches(favorites[i], userId, bookId) {
          return Some(i);
        }
        i := i + 1;
      }
      return None;
    }

    /** The lookup `User.query.filter_by(email=…).first()`. */
    method FindUserByEmail(email: string) returns (index: Option<nat>)
      ensures index == FirstWithEmail(users, email)
    {
      var i := 0;
      while i < |users|
        invariant 0 <= i <= |users|
        invariant forall j :: 0 <= j < i ==> users[j].email != email
      {
        if users[i].email == email {
          return Some(i);
        }
        i := i + 1;
      }
      return None;
    }

    /** The `favorites` page: `Favorite.query.filter_by(user_id=…).all()`. */
    method FavoritesOf(userId: int) returns (favs: seq<Favorite>)
      ensures favs == UserFavorites(favorites, userId)
    {
      favs := [];
      var i := |favorites|;
      while i > 0
        invariant 0 <= i <= |favorites|
        invariant favs == UserFavorites(favorites[i..], userId)
      {
        i := i - 1;
        assert favorites[i..][1..] == favorites[i + 1..];
        if favorites[i].userId == userId {
          favs := [favorites[i]] + favs;
        }
      }
    }

    /**
     * `add_favorite`: reject a missing or empty title, authors or thumbnail,
     * reject a book the user already has, else append one row.
     */
    method AddFavorite(userId: int, bookId: string,
                       title: Option<string>, authors: Option<string>, thumbnail: Option<string>)
      returns (result: AddResult)
      requires Valid()
      modifies this
      ensures Valid()
      ensures result == AddOutcome(old(favorites), userId, bookId, title, authors, thumbnail)
      ensures favorites == AfterAdd(old(favorites), result)
      ensures users == old(users)
    {
      if !(Present(title) && Present(authors) && Present(thumbnail)) {
        return MissingFields;
      }
      var existing := FindFavorite(userId, bookId);
      if existing.Some? {
        return AlreadyFavorite;
      }
      var record := Favorite(MaxFavoriteId(favorites) + 1, userId, bookId,
                             title.value, authors.value, thumbnail.value);
      assert AddOutcome(favorites, userId, bookId, title, authors, thumbnail) == Added(record);
      AddKeepsValid(favorites, userId, bookId, title, authors, thumbnail);
      favorites := favorites + [record];
      result := Added(record);
    }

    /** `remove_favorite`: delete the first row for the user and book, if there is one. */
    method RemoveFavorite(userId: int, bookId: string) returns (result: RemoveResult)
      requires Valid()
      modifies this
      ensures Valid()
      ensures result == RemoveOutcome(old(favorites), userId, bookId)
      ensures favorites == AfterRemove(old(favorites), userId, bookId)
      ensures users == old(users)
    {
      var found := FindFavorite(userId, bookId);
      RemoveKeepsValid(favorites, userId, bookId);
      match found {
        case Some(i) =>
          result := Removed(favorites[i]);
          favorites := favorites[..i] + favorites[i + 1..];
        case None =>
          result := NotFound;
      }
    }

    /**
     * `register` on POST: a missing field aborts the request, an e-mail in
     * use is refused, and otherwise a user with the hashed password is
     * committed, which fails when the username is in use.
     */
    method Register(username: Option<string>, email: Option<string>, password: Option<string>,
                    hash: string -> string)
      returns (result: RegisterResult)
      requires Valid()
      modifies this
      ensures Valid()
      ensures result == RegisterOutcome(old(users), username, email, password, hash)
      ensures users == AfterRegister(old(users), result)
      ensures favorites == old(favorites)
    {
      if username.None? || email.None? || password.None? {
        return BadRequest;
      }
      var existing := FindUserByEmail(email.value);
      if existing.Some? {
        return EmailTaken;
      }
      var user := User(MaxUserId(users) + 1, username.value, email.value, hash(password.value));
      var taken := false;
      for i := 0 to |users|
        invariant taken <==> exists j :: 0 <= j < i && users[j].username == username.value
      {
        if users[i].username == username.value {
          taken := true;
        }
      }
      if taken {
        return CommitRejected;
      }
      RegisterKeepsValid(users, username, email, password, hash);
      users := users + [user];
      result := Registered(user);
    }
  }

  /** `add_favorite` keeps the table invariant. */
  lemma AddKeepsValid(table: seq<Favorite>, userId: int, bookId: string,
                      title: Option<string>, authors: Option<string>, thumbnail: Option<string>)
    requires FavoritesValid(table)
    ensures FavoritesValid(AfterAdd(table, AddOutcome(table, userId, bookId, title, authors, thumbnail)))
  {
    var result := AddOutcome(table, userId, bookId, title, authors, thumbnail);
    if result.Added? {
      var rec := result.record;
      var t := table + [rec];
      assert t[|table|] == rec;
      forall i | 0 <= i < |table| ensures t[i] == table[i] && table[i].id < rec.id && !Matches(table[i], userId, bookId) {
        assert table[i] in table;
      }
    }
  }

  /** What `add_favorite` decides, stated without the lookup it uses. */
  lemma AddOutcomeMeaning(table: seq<Favorite>, userId: int, bookId: string,
                          title: Option<string>, authors: Option<string>, thumbnail: Option<string>)
    ensures var result := AddOutcome(table, userId, bookId, title, authors, thumbnail);
      var complete := Present(title) && Present(authors) && Present(thumbnail);
      var held := exists f :: f in table && Matches(f, userId, bookId);
      && (result == MissingFields <==> !complete)
      && (result == AlreadyFavorite <==> complete && held)
      && (result.Added? <==> complete && !held)
      && (result.Added? ==> && AfterAdd(table, result) == table + [result.record]
                            && result.record.userId == userId && result.record.bookId == bookId
                            && result.record.title == title.value && result.record.authors == authors.value
                            && result.record.thumbnail == thumbnail.value
                            && forall f :: f in table ==> f.id < result.record.id)
      && (!result.Added? ==> AfterAdd(table, result) == table)
  {
  }

  /** Under the invariant, a user has any book at most once. */
  lemma {:induction false} ValidAtMostOne(table: seq<Favorite>, userId: int, bookId: string)
    requires FavoritesValid(table)
    ensures CountMatches(table, userId, bookId) <= 1
    ensures CountMatches(table, userId, bookId) == 0 <==> FirstMatch(table, userId, bookId).None?
  {
    if table != [] {
      var rest := table[1..];
      assert FavoritesValid(rest) by {
        forall i | 0 <= i < |rest| ensures rest[i] == table[i + 1] { }
      }
      ValidAtMostOne(rest, userId, bookId);
      if Matches(table[0], userId, bookId) {
        NoMatchesCountZero(rest, userId, bookId);
      }
    }
  }

  lemma {:induction false} NoMatchesCountZero(table: seq<Favorite>, userId: int, bookId: string)
    requires forall j :: 0 <= j < |table| ==> !Matches(table[j], userId, bookId)
    ensures CountMatches(table, userId, bookId) == 0
  {
    if table != [] {
      NoMatchesCountZero(table[1..], userId, bookId);
    }
  }

  lemma {:induction false} CountMatchesAppend(a: seq<Favorite>, b: seq<Favorite>, userId: int, bookId: string)
    ensures CountMatches(a + b, userId, bookId) == CountMatches(a, userId, bookId) + CountMatches(b, userId, bookId)
  {
    if a == [] {
      assert a + b == b;
    } else {
      assert (a + b)[1..] == a[1..] + b;
      CountMatchesAppend(a[1..], b, userId, bookId);
    }
  }

  /**
   * After `add_favorite` with a complete form, the user holds the book
   * exactly once, whether it was added now or already there.
   */
  lemma AddLeavesExactlyOne(table: seq<Favorite>, userId: int, bookId: string,
                            title: Option<string>, authors: Option<string>, thumbnail: Option<string>)
    requires FavoritesValid(table)
    requires Present(title) && Present(authors) && Present(thumbnail)
    ensures CountMatches(AfterAdd(table, AddOutcome(table, userId, bookId, title, authors, thumbnail)),
                         userId, bookId) == 1
  {
    var result := AddOutcome(table, userId, bookId, title, authors, thumbnail);
    ValidAtMostOne(table, userId, bookId);
    if result.Added? {
      CountMatchesAppend(table, [result.record], userId, bookId);
      assert CountMatches([result.record], userId, bookId) == 1;
    }
  }

  /** `remove_favorite` keeps the table invariant. */
  lemma RemoveKeepsValid(table: seq<Favorite>, userId: int, bookId: string)
    requires FavoritesValid(table)
    ensures FavoritesValid(AfterRemove(table, userId, bookId))
  {
    match FirstMatch(table, userId, bookId) {
      case None =>
      case Some(k) =>
        var t := table[..k] + table[k + 1..];
        RemoveAtIndex(table, k);
        forall i, j | 0 <= i < j < |t|
          ensures t[i].id != t[j].id && !Matches(t[j], t[i].userId, t[i].bookId)
        {
          var i', j' := if i < k then i else i + 1, if j < k then j else j + 1;
          assert t[i] == table[i'] && t[j] == table[j'] && i' < j';
        }
        forall i | 0 <= i < |t| ensures t[i].title != "" && t[i].authors != "" && t[i].thumbnail != "" {
          assert t[i] == table[if i < k then i else i + 1];
        }
    }
  }

  /** Cutting the row at `k` out of a table shifts the rows after it down by one. */
  lemma RemoveAtIndex(table: seq<Favorite>, k: nat)
    requires k < |table|
    ensures var t := table[..k] + table[k + 1..];
      && |t| == |table| - 1
      && (forall i :: 0 <= i < k ==> t[i] == table[i])
      && (forall i :: k <= i < |t| ==> t[i] == table[i + 1])
  {
  }

  /**
   * What `remove_favorite` does: with a matching row, that row goes, every
   * other row stays in order, and under the invariant none is left; with
   * none, the table is unchanged and "not found" is reported.
   */
  lemma RemoveMeaning(table: seq<Favorite>, userId: int, bookId: string)
    ensures var result := RemoveOutcome(table, userId, bookId);
      var t := AfterRemove(table, userId, bookId);
      && (result == NotFound <==> forall f :: f in table ==> !Matches(f, userId, bookId))
      && (result == NotFound ==> t == table)
      && (result.Removed? ==> && Matches(result.record, userId, bookId)
                              && |t| == |table| - 1
                              && multiset(t) + multiset{result.record} == multiset(table)
                              && exists k :: && 0 <= k < |table| && table[k] == result.record
                                             && (forall j :: 0 <= j < k ==> !Matches(table[j], userId, bookId))
                                             && t == table[..k] + table[k + 1..])
      && (FavoritesValid(table) ==> forall f :: f in t ==> !Matches(f, userId, bookId))
      && (forall f :: f in table && !Matches(f, userId, bookId) ==> f in t)
  {
    match FirstMatch(table, userId, bookId) {
      case None =>
        forall f | f in table ensures !Matches(f, userId, bookId) {
          var j :| 0 <= j < |table| && table[j] == f;
        }
      case Some(k) =>
        var t := table[..k] + table[k + 1..];
        RemoveAtIndex(table, k);
        assert table == table[..k] + [table[k]] + table[k + 1..];
        MultisetAround(table[..k], table[k], table[k + 1..]);
        forall f | f in table && !Matches(f, userId, bookId) ensures f in t {
          var j :| 0 <= j < |table| && table[j] == f;
          if j < k { assert t[j] == f; } else { assert j > k; assert t[j - 1] == f; }
        }
        if FavoritesValid(table) {
          forall f | f in t ensures !Matches(f, userId, bookId) {
            var j :| 0 <= j < |t| && t[j] == f;
            if j < k { assert t[j] == table[j]; } else { assert t[j] == table[j + 1]; }
          }
        }
    }
  }

  /** `register` keeps the users table constraints. */
  lemma RegisterKeepsValid(users: seq<User>, username: Option<string>, email: Option<string>,
                           password: Option<string>, hash: string -> string)
    requires UsersValid(users)
    ensures UsersValid(AfterRegister(users, RegisterOutcome(users, username, email, password, hash)))
  {
  }

  /**
   * What `register` decides: a missing field aborts, an e-mail in use is
   * refused, a username in use fails at commit, and otherwise exactly one
   * user with the hashed password is appended.
   */
  lemma RegisterMeaning(users: seq<User>, username: Option<string>, email: Option<string>,
                        password: Option<string>, hash: string -> string)
    ensures var result := RegisterOutcome(users, username, email, password, hash);
      var complete := username.Some? && email.Some? && password.Some?;
      && (result == BadRequest <==> !complete)
      && (result == EmailTaken <==> complete && exists u :: u in users && u.email == email.value)
      && (result == CommitRejected <==>
            && complete
            && (forall u :: u in users ==> u.email != email.value)
            && exists u :: u in users && u.username == username.value)
      && (result.Registered? <==>
            complete && forall u :: u in users ==> u.email != email.value && u.username != username.value)
      && (result.Registered? ==> && AfterRegister(users, result) == users + [result.user]
                                 && result.user.username == username.value
                                 && result.user.email == email.value
                                 && result.user.password == hash(password.value)
                                 && forall u :: u in users ==> u.email != email.value && u.username != username.value)
      && (!result.Registered? ==> AfterRegister(users, result) == users)
  {
  }

  /** The favorites page lists exactly the user's rows, never more than the table holds. */
  lemma {:induction false} UserFavoritesMembers(table: seq<Favorite>, userId: int)
    ensures |UserFavorites(table, userId)| <= |table|
    ensures forall f :: f in UserFavorites(table, userId) <==> f in table && f.userId == userId
  {
    if table != [] {
      UserFavoritesMembers(table[1..], userId);
      assert table == [table[0]] + table[1..];
    }
  }

  lemma {:induction false} UserFavoritesAppend(a: seq<Favorite>, b: seq<Favorite>, userId: int)
    ensures UserFavorites(a + b, userId) == UserFavorites(a, userId) + UserFavorites(b, userId)
  {
    if a == [] {
      assert a + b == b;
    } else {
      var head := if a[0].userId == userId then [a[0]] else [];
      assert (a + b)[0] == a[0];
      assert (a + b)[1..] == a[1..] + b;
      assert UserFavorites(a + b, userId) == head + UserFavorites(a[1..] + b, userId);
      UserFavoritesAppend(a[1..], b, userId);
      assert UserFavorites(a, userId) == head + UserFavorites(a[1..], userId);
      assert head + (UserFavorites(a[1..], userId) + UserFavorites(b, userId))
          == head + UserFavorites(a[1..], userId) + UserFavorites(b, userId);
    }
  }

  /**
   * The favorites page after `add_favorite`: the user's list gains the new
   * row at its end, and every other user's list is unchanged.
   */
  lemma UserFavoritesAfterAdd(table: seq<Favorite>, userId: int, bookId: string,
                              title: Option<string>, authors: Option<string>, thumbnail: Option<string>,
                              viewer: int)
    ensures var result := AddOutcome(table, userId, bookId, title, authors, thumbnail);
      UserFavorites(AfterAdd(table, result), viewer)
        == UserFavorites(table, viewer) + (if result.Added? && viewer == userId then [result.record] else [])
  {
    var result := AddOutcome(table, userId, bookId, title, authors, thumbnail);
    if result.Added? {
      UserFavoritesAppend(table, [result.record], viewer);
    }
  }

  /** The list of a table cut around one row. */
  lemma UserFavoritesAround(pre: seq<Favorite>, rec: Favorite, post: seq<Favorite>, viewer: int)
    ensures UserFavorites(pre + ([rec] + post), viewer)
      == UserFavorites(pre, viewer) + (if rec.userId == viewer then [rec] else []) + UserFavorites(post, viewer)
    ensures UserFavorites(pre + post, viewer) == UserFavorites(pre, viewer) + UserFavorites(post, viewer)
  {
    var own := if rec.userId == viewer then [rec] else [];
    var A, B := UserFavorites(pre, viewer), UserFavorites(post, viewer);
    UserFavoritesAppend(pre, [rec] + post, viewer);
    assert ([rec] + post)[0] == rec && ([rec] + post)[1..] == post;
    assert UserFavorites([rec] + post, viewer) == own + B;
    assert A + (own + B) == A + own + B;
    UserFavoritesAppend(pre, post, viewer);
  }

  /**
   * Dropping one row drops it from the list of its owner only; the rows
   * before and after it keep their order.
   */
  lemma UserFavoritesDrop(pre: seq<Favorite>, rec: Favorite, post: seq<Favorite>, viewer: int)
    ensures var before := UserFavorites(pre + ([rec] + post), viewer);
      var after := UserFavorites(pre + post, viewer);
      && after == UserFavorites(pre, viewer) + UserFavorites(post, viewer)
      && (rec.userId != viewer ==> after == before)
      && (rec.userId == viewer ==> multiset(after) + multiset{rec} == multiset(before))
  {
    UserFavoritesAround(pre, rec, post, viewer);
    var A, B := UserFavorites(pre, viewer), UserFavorites(post, viewer);
    if rec.userId == viewer {
      MultisetAround(A, rec, B);
    } else {
      assert A + [] + B == A + B;
    }
  }

  /** Cutting one row out of a sequence removes exactly that row from its multiset. */
  lemma MultisetAround(a: seq<Favorite>, rec: Favorite, b: seq<Favorite>)
    ensures multiset(a + b) + multiset{rec} == multiset(a + [rec] + b)
  {
    assert multiset(a + [rec] + b) == multiset(a + [rec]) + multiset(b);
    assert multiset(a + [rec]) == multiset(a) + multiset{rec};
    assert multiset(a + b) == multiset(a) + multiset(b);
  }

  /**
   * The favorites page after `remove_favorite`: the user's list loses the
   * removed row, and every other user's list is unchanged.
   */
  lemma UserFavoritesAfterRemove(table: seq<Favorite>, userId: int, bookId: string, viewer: int)
    ensures var result := RemoveOutcome(table, userId, bookId);
      var before := UserFavorites(table, viewer);
      var after := UserFavorites(AfterRemove(table, userId, bookId), viewer);
      && (viewer != userId || result == NotFound ==> after == before)
      && (viewer == userId && result.Removed? ==> multiset(after) + multiset{result.record} == multiset(before))
      && (result.Removed? ==>
            var k := FirstMatch(table, userId, bookId).value;
            && k < |table| && table[k] == result.record
            && after == UserFavorites(table[..k], viewer) + UserFavorites(table[k + 1..], viewer)
            && before == UserFavorites(table[..k], viewer) + (if viewer == userId then [result.record] else [])
                           + UserFavorites(table[k + 1..], viewer))
  {
    match FirstMatch(table, userId, bookId) {
      case None =>
      case Some(k) =>
        var pre, rec, post := table[..k], table[k], table[k + 1..];
        assert table == pre + ([rec] + post);
        UserFavoritesAround(pre, rec, post, viewer);
        UserFavoritesDrop(pre, rec, post, viewer);
    }
  }
}
