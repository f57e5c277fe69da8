/** Who the export is for: `fetch_user_id` turns a vanity username or profile URL
    into the numeric Goodreads user id, and `fetch_user_and_shelves` loads the user
    and their shelves, from the database when the stored copy is complete. */
module Users {
  import opened Base
  import opened PyStr
  import opened Store

  // -------------------------------------------------------------- user id

  /** What a profile request answers: the URL the redirects ended at, and on an
      author page the `href` of the "Bookshelves" alternate link, if there is one. */
  datatype ProfilePage = ProfilePage(finalUrl: string, bookshelvesHref: Option<string>)

  /** The URL requested for a username: a full URL as given, anything else under the site. */
  function RequestUrl(username: string): (url: string)
    ensures StartsWith(username, "http") ==> url == username
    ensures !StartsWith(username, "http") ==> url == BaseUrl + username
  {
    if StartsWith(username, "http") then username else BaseUrl + username
  }

  /** The candidate id in a profile URL: with slashes stripped from both ends, the last
      path segment up to its first "-". */
  function IdSegment(url: string): (s: string)
    ensures '/' !in s && '-' !in s
  {
    var last := AfterLast(Strip(url, {'/'}), '/');
    var s := BeforeFirst(last, '-');
    assert forall i :: 0 <= i < |s| ==> s[i] == last[i];
    s
  }

  /** The user id in a profile URL, when that segment is all digits. */
  function UserIdFromUrl(url: string): (r: Option<string>)
    ensures r.Some? <==> IsDigits(IdSegment(url))
    ensures r.Some? ==> r.value == IdSegment(url)
  {
    var id := IdSegment(url);
    if IsDigits(id) then Some(id) else None
  }

  /** A profile URL `<prefix>/<id>-<name>`, with or without trailing slashes, yields `<id>`. */
  lemma UserIdOfProfileUrl(prefix: string, id: string, name: string, slashes: string)
    requires prefix != [] && prefix[0] != '/'
    requires IsDigits(id) && '/' !in name
    requires AllIn(slashes, {'/'})
    ensures UserIdFromUrl(prefix + "/" + id + "-" + name + slashes) == Some(id)
  {
    var segment := id + "-" + name;
    var core := prefix + "/" + id + "-" + name;
    assert core == prefix + "/" + segment by { JoinSegment(prefix + "/", id, name); }
    assert '-' !in id by {
      forall i | 0 <= i < |id| ensures id[i] != '-' { assert IsDigit(id[i]); }
    }
    assert Strip(core + slashes, {'/'}) == core by {
      assert core[0] == prefix[0];
      assert core[|core| - 1] == segment[|segment| - 1];
      StripTrailing(core, slashes, {'/'});
    }
    assert AfterLast(core, '/') == segment by {
      AfterLastExact(prefix, '/', segment);
    }
    assert BeforeFirst(segment, '-') == id by {
      assert segment == id + ['-'] + name;
      BeforeFirstExact(id, '-', name);
    }
    assert IdSegment(core + slashes) == id;
  }

  /** Re-brackets `<head><id>-<name>` around its last segment. */
  lemma JoinSegment(head: string, id: string, name: string)
    ensures head + id + "-" + name == head + (id + "-" + name)
  {
    var seg := id + "-" + name;
    assert |head + id + "-" + name| == |head + seg|;
    forall i | 0 <= i < |head + seg|
      ensures (head + id + "-" + name)[i] == (head + seg)[i]
    {
      if i >= |head| { assert (head + seg)[i] == seg[i - |head|]; }
    }
  }

  /** A bare numeric id is its own user id. */
  lemma UserIdOfNumber(id: string)
    requires IsDigits(id)
    ensures UserIdFromUrl(id) == Some(id)
  {
    assert '/' !in id && '-' !in id by {
      forall i | 0 <= i < |id| ensures id[i] != '/' && id[i] != '-' { assert IsDigit(id[i]); }
    }
    assert Strip(id, {'/'}) == id by {
      assert id[0] != '/' && id[|id| - 1] != '/';
      assert id == [] + id + [];
      StripExact([], id, [], {'/'});
    }
    assert AfterLast(id, '/') == id by { AfterLastNone(id, '/'); }
    assert BeforeFirst(id, '-') == id by { BeforeFirstNone(id, '-'); }
    assert IdSegment(id) == id;
  }

  /** The network half of `fetch_user_id`: request the profile, take the redirect target
      (or, for an author page, the Bookshelves link) and read the id off it. */
  function FetchUserIdOnline(username: string, get: string -> Response<ProfilePage>): (r: Result<string>)
    ensures r.Ok? ==> IsDigits(r.value)
    ensures get(RequestUrl(username)).HttpFailure? ==> r == Err(HttpStatus(get(RequestUrl(username)).status))
    ensures r.Ok? && !Contains(username, "/author/") ==> UserIdFromUrl(get(RequestUrl(username)).page.finalUrl) == Some(r.value)
    ensures r.Ok? && Contains(username, "/author/") ==>
      get(RequestUrl(username)).page.bookshelvesHref.Some?
      && UserIdFromUrl(get(RequestUrl(username)).page.bookshelvesHref.value) == Some(r.value)
    ensures get(RequestUrl(username)).Served? && !Contains(username, "/author/") ==>
      var page := get(RequestUrl(username)).page;
      (r.Ok? <==> UserIdFromUrl(page.finalUrl).Some?) && (r.Err? ==> r.error == NoUserId(page.finalUrl))
    ensures get(RequestUrl(username)).Served? && Contains(username, "/author/") ==>
      var page := get(RequestUrl(username)).page;
      && (page.bookshelvesHref.None? ==> r == Err(AlternateLinkMissing))
      && (page.bookshelvesHref.Some? ==>
            (r.Ok? <==> UserIdFromUrl(page.bookshelvesHref.value).Some?) && (r.Err? ==> r.error == NoUserId(page.finalUrl)))
  {
    match get(RequestUrl(username))
    case HttpFailure(status) => Err(HttpStatus(status))
    case Served(page) =>
      var url :-
        if !Contains(username, "/author/") then Ok(page.finalUrl)
        else if page.bookshelvesHref.Some? then Ok(page.bookshelvesHref.value)
        else Err(AlternateLinkMissing);
      match UserIdFromUrl(url)
      case Some(id) => Ok(id)
      case None => Err(NoUserId(page.finalUrl))
  }

  /** A profile request that is redirected to `<prefix>/<id>-<name>` answers with `<id>`. */
  lemma FetchUserIdOfRedirect(username: string, get: string -> Response<ProfilePage>,
                              prefix: string, id: string, name: string)
    requires !Contains(username, "/author/")
    requires get(RequestUrl(username)).Served?
    requires get(RequestUrl(username)).page.finalUrl == prefix + "/" + id + "-" + name
    requires prefix != [] && prefix[0] != '/' && IsDigits(id) && '/' !in name
    ensures FetchUserIdOnline(username, get) == Ok(id)
  {
    UserIdOfProfileUrl(prefix, id, name, "");
    assert prefix + "/" + id + "-" + name + "" == prefix + "/" + id + "-" + name;
  }

  /** A stored user with this username. */
  predicate KnownUsername(users: map<string, UserRow>, username: string, id: string) {
    id in users && users[id].username == Some(username)
  }

  /** `fetch_user_id`: a user already stored under this username answers from the
      database; otherwise, or when forced, the profile page is asked. */
  method FetchUserId(username: string, forceOnline: bool, db: Database?, get: string -> Response<ProfilePage>)
    returns (r: Result<string>)
    ensures !forceOnline && db != null && (exists id :: KnownUsername(db.users, username, id)) ==>
      r.Ok? && exists id :: KnownUsername(db.users, username, id) && db.users[id].id == r.value
    ensures forceOnline || db == null || (forall id :: !KnownUsername(db.users, username, id)) ==>
      r == FetchUserIdOnline(username, get)
  {
    if !forceOnline && db != null {
      if exists id | id in db.users :: KnownUsername(db.users, username, id) {
        var id :| id in db.users && KnownUsername(db.users, username, id);
        return Ok(db.users[id].id);
      }
    }
    r := FetchUserIdOnline(username, get);
  }

  // ------------------------------------------------------ user and shelves

  datatype RawUserShelf = RawUserShelf(id: string, name: Option<string>)

  /** The `<user>` element of the user XML; `shelves` is None when `<user_shelves>` is missing. */
  datatype RawUser = RawUser(id: string, name: Option<string>, userName: Option<string>, shelves: Option<seq<RawUserShelf>>)

  /** What the database answers for a fresh user: the user row and its shelf rows. */
  datatype CachedUser = CachedUser(user: UserRow, shelves: set<ShelfRow>)

  function UserShowUrl(userId: string): string {
    BaseUrl + "user/show/" + userId + ".xml"
  }

  /** The user record built from the XML; a missing or empty shelf list means the
      profile is private, which is fatal. */
  function UserFromData(raw: RawUser): (r: Result<UserRecord>)
    ensures r.Err? <==> raw.shelves.None? || raw.shelves.value == []
    ensures r.Err? ==> r.error == PrivateShelves
    ensures r.Ok? ==> r.value.id == raw.id && r.value.name == raw.name && r.value.username == raw.userName
    ensures r.Ok? ==> |r.value.shelves| == |raw.shelves.value| > 0
    ensures r.Ok? ==> forall i :: 0 <= i < |r.value.shelves| ==>
      r.value.shelves[i] == ShelfRecord(raw.shelves.value[i].id, raw.shelves.value[i].name)
  {
    if raw.shelves.None? || raw.shelves.value == [] then Err(PrivateShelves)
    else
      var shelves := raw.shelves.value;
      Ok(UserRecord(raw.id, raw.name, raw.userName,
                    seq(|shelves|, i requires 0 <= i < |shelves| => ShelfRecord(shelves[i].id, shelves[i].name))))
  }

  /** `all(user.values())`: every column of the row holds a non-empty value. */
  predicate Complete(u: UserRow) {
    u.id != "" && Truthy(u.name) && Truthy(u.username)
  }

  /** The shelf rows stored for a user. */
  function ShelvesOf(t: Tables, userId: string): (r: set<ShelfRow>)
    ensures forall s :: s in r <==> s.userId == userId && exists id :: id in t.shelves && t.shelves[id] == s
  {
    set id | id in t.shelves && t.shelves[id].userId == userId :: t.shelves[id]
  }

  /** The freshness test as written: `rows_where` returns a generator, which is always
      truthy, so the shelves take no part and only the user row is looked at. */
  function CachedAsWritten(t: Tables, userId: string): (r: Option<CachedUser>)
    ensures r.Some? <==> userId in t.users && Complete(t.users[userId])
    ensures r.Some? ==> r.value.user == t.users[userId] && r.value.shelves == ShelvesOf(t, userId)
  {
    if userId in t.users && Complete(t.users[userId]) then Some(CachedUser(t.users[userId], ShelvesOf(t, userId)))
    else None
  }

  /** The freshness test as intended: a complete user row and at least one stored shelf. */
  function Cached(t: Tables, userId: string): (r: Option<CachedUser>)
    ensures r.Some? <==> userId in t.users && Complete(t.users[userId]) && ShelvesOf(t, userId) != {}
    ensures r.Some? ==> r.value.user == t.users[userId] && r.value.shelves == ShelvesOf(t, userId)
  {
    if userId in t.users && Complete(t.users[userId]) && ShelvesOf(t, userId) != {} then
      Some(CachedUser(t.users[userId], ShelvesOf(t, userId)))
    else None
  }

  /** A complete user with no stored shelves: the test as written answers from the
      database with no shelves at all, where the intended test fetches again. */
  lemma CachedAsWrittenIgnoresShelves()
    ensures var t := NoTables.(users := map["1" := UserRow("1", Some("Ann"), Some("ann"))]);
      && CachedAsWritten(t, "1") == Some(CachedUser(UserRow("1", Some("Ann"), Some("ann")), {}))
      && Cached(t, "1").None?
  {
    var t := NoTables.(users := map["1" := UserRow("1", Some("Ann"), Some("ann"))]);
    assert ShelvesOf(t, "1") == {};
  }

  /** The network half of `fetch_user_and_shelves`. */
  function FetchUserRecord(userId: string, get: string -> Response<RawUser>): (r: Result<UserRecord>)
    ensures get(UserShowUrl(userId)).HttpFailure? ==> r == Err(HttpStatus(get(UserShowUrl(userId)).status))
    ensures get(UserShowUrl(userId)).Served? ==> r == UserFromData(get(UserShowUrl(userId)).page)
  {
    match get(UserShowUrl(userId))
    case HttpFailure(status) => Err(HttpStatus(status))
    case Served(raw) => UserFromData(raw)
  }

  /** The fetching half of `fetch_user_and_shelves`: the user is fetched and saved with
      its shelves, and nothing is answered; a failed fetch writes nothing. */
  method FetchAndSaveUser(db: Database, userId: string, get: string -> Response<RawUser>)
    returns (r: Result<Option<CachedUser>>)
    modifies db
    ensures FetchUserRecord(userId, get).Err? ==>
      r == Err(FetchUserRecord(userId, get).error) && db.Snapshot() == old(db.Snapshot())
    ensures FetchUserRecord(userId, get).Ok? ==>
      r == Ok(None) && db.Snapshot() == SaveUserTo(old(db.Snapshot()), FetchUserRecord(userId, get).value)
  {
    var user := FetchUserRecord(userId, get);
    if user.Err? {
      return Err(user.error);
    }
    db.SaveUser(user.value);
    return Ok(None);
  }

  /** `fetch_user_and_shelves` as written: a complete stored user row is answered from
      the database, whatever shelves are stored, and nothing is written; otherwise the
      user is fetched and saved, and nothing is answered. */
  method FetchUserAndShelves(db: Database, userId: string, get: string -> Response<RawUser>)
    returns (r: Result<Option<CachedUser>>)
    modifies db
    ensures CachedAsWritten(old(db.Snapshot()), userId).Some? ==>
      r == Ok(CachedAsWritten(old(db.Snapshot()), userId)) && db.Snapshot() == old(db.Snapshot())
    ensures CachedAsWritten(old(db.Snapshot()), userId).None? && FetchUserRecord(userId, get).Err? ==>
      r == Err(FetchUserRecord(userId, get).error) && db.Snapshot() == old(db.Snapshot())
    ensures CachedAsWritten(old(db.Snapshot()), userId).None? && FetchUserRecord(userId, get).Ok? ==>
      r == Ok(None) && db.Snapshot() == SaveUserTo(old(db.Snapshot()), FetchUserRecord(userId, get).value)
  {
    var cached := CachedAsWritten(db.Snapshot(), userId);
    if cached.Some? {
      return Ok(cached);
    }
    r := FetchAndSaveUser(db, userId, get);
  }

  /** `fetch_user_and_shelves` with the freshness test it intends: the database answers
      only for a complete user row with at least one stored shelf. */
  method FetchFreshUserAndShelves(db: Database, userId: string, get: string -> Response<RawUser>)
    returns (r: Result<Option<CachedUser>>)
    modifies db
    ensures Cached(old(db.Snapshot()), userId).Some? ==>
      r == Ok(Cached(old(db.Snapshot()), userId)) && db.Snapshot() == old(db.Snapshot())
    ensures Cached(old(db.Snapshot()), userId).None? && FetchUserRecord(userId, get).Err? ==>
      r == Err(FetchUserRecord(userId, get).error) && db.Snapshot() == old(db.Snapshot())
    ensures Cached(old(db.Snapshot()), userId).None? && FetchUserRecord(userId, get).Ok? ==>
      r == Ok(None) && db.Snapshot() == SaveUserTo(old(db.Snapshot()), FetchUserRecord(userId, get).value)
  {
    var cached := Cached(db.Snapshot(), userId);
    if cached.Some? {
      return Ok(cached);
    }
    r := FetchAndSaveUser(db, userId, get);
  }

  /** After a successful fetch the stored user is fresh, so the next run answers from
      the database, exactly when the fetched user had a non-empty id, name and username. */
  lemma SavedUserIsFresh(t: Tables, raw: RawUser)
    requires UserFromData(raw).Ok?
    ensures var user := UserFromData(raw).value;
      Cached(SaveUserTo(t, user), user.id).Some? <==> Complete(UserRow(raw.id, raw.name, raw.userName))
  {
    var user := UserFromData(raw).value;
    var t1 := t.(users := t.users[user.id := UserRow(user.id, user.name, user.username)]);
    var t2 := SaveUserTo(t, user);
    assert t2.users == t1.users by {
      SaveShelvesOnlyShelves(t1, user.shelves, user.id);
    }
    assert ShelvesOf(t2, user.id) != {} by {
      SaveShelvesTables(t1, user.shelves, user.id);
      var s0 := user.shelves[0];
      assert s0.id in t2.shelves && t2.shelves[s0.id].userId == user.id;
      assert t2.shelves[s0.id] in ShelvesOf(t2, user.id);
    }
  }
}
