/**
 * Looking users up by email or id and adding a user from the profile held in
 * the session.
 */
module Users {
  import opened Wrappers
  import opened Models
  import opened Tables
  import opened Http

  predicate StrictlyIncreasing(s: seq<int>)
  {
    forall i, j :: 0 <= i < j < |s| ==> s[i] < s[j]
  }

  /** The ids among `ks` of the users whose email is `email`, in the order of `ks`. */
  function EmailMatches(users: map<int, User>, ks: seq<int>, email: string): (ms: seq<int>)
    requires forall i :: 0 <= i < |ks| ==> ks[i] in users
    ensures forall k :: k in ms <==> k in ks && users[k].email == email
    ensures StrictlyIncreasing(ks) ==> StrictlyIncreasing(ms)
  {
    if ks == [] then []
    else
      var rest := EmailMatches(users, ks[1..], email);
      assert forall k :: k in ks <==> k == ks[0] || k in ks[1..];
      assert forall i :: 0 <= i < |rest| ==> rest[i] in ks[1..];
      if users[ks[0]].email == email then [ks[0]] + rest else rest
  }

  /** `id` is the one and only user whose email is `email`. */
  ghost predicate SoleOwner(users: map<int, User>, email: string, id: int)
  {
    id in users && users[id].email == email
    && forall k :: k in users && users[k].email == email ==> k == id
  }

  /**
   * `get_user_id`: the id of the single user with that email. `.one()` raises
   * when no row or several rows match, and the exception is turned into None.
   */
  function GetUserId(users: map<int, User>, bound: int, email: string): (r: Option<int>)
    requires forall k :: k in users ==> 0 <= k < bound
    ensures r.Some? ==> SoleOwner(users, email, r.value)
    ensures r.None? ==> forall id :: !SoleOwner(users, email, id)
  {
    var ms := EmailMatches(users, KeysBelow(users, bound), email);
    MatchesDecide(users, email, ms);
    if |ms| == 1 then Some(ms[0]) else None
  }

  /** Exactly one match is the sole owner; none or several leave no sole owner. */
  lemma MatchesDecide(users: map<int, User>, email: string, ms: seq<int>)
    requires forall k :: k in ms <==> k in users && users[k].email == email
    requires StrictlyIncreasing(ms)
    ensures |ms| == 1 ==> SoleOwner(users, email, ms[0])
    ensures |ms| != 1 ==> forall id :: !SoleOwner(users, email, id)
  {
    if |ms| == 1 {
      assert forall k :: k in ms ==> k == ms[0];
    } else if |ms| > 1 {
      assert ms[0] < ms[1] && ms[0] in ms && ms[1] in ms;
    }
  }

  /** `get_user_info`: the user with that id; `.one()` fails when there is none. */
  function GetUserInfo(users: map<int, User>, id: int): (r: Option<User>)
    requires forall k :: k in users ==> users[k].id == k
    ensures r.Some? <==> id in users
    ensures r.Some? ==> r.value.id == id && r.value == users[id]
  {
    if id in users then Some(users[id]) else None
  }

  /** Looking up the id found for an email gives back the user with that email. */
  lemma InfoOfResolvedId(users: map<int, User>, bound: int, email: string)
    requires forall k :: k in users ==> 0 <= k < bound && users[k].id == k
    requires GetUserId(users, bound, email).Some?
    ensures GetUserInfo(users, GetUserId(users, bound, email).value).Some?
    ensures GetUserInfo(users, GetUserId(users, bound, email).value).value.email == email
  {
  }

  /**
   * After a user is added under a fresh id, its email resolves to it exactly
   * when no earlier user had that email; otherwise the lookup finds several.
   */
  lemma {:induction false} GetUserIdAfterInsert(users: map<int, User>, u: User)
    requires 0 <= u.id && forall k :: k in users ==> 0 <= k < u.id
    ensures GetUserId(users[u.id := u], u.id + 1, u.email).Some? <==>
              forall k :: k in users ==> users[k].email != u.email
    ensures GetUserId(users[u.id := u], u.id + 1, u.email).Some? ==>
              GetUserId(users[u.id := u], u.id + 1, u.email).value == u.id
  {
    var users' := users[u.id := u];
    if forall k :: k in users ==> users[k].email != u.email {
      assert SoleOwner(users', u.email, u.id);
    } else {
      var k :| k in users && users[k].email == u.email;
      assert k in users' && users'[k].email == u.email && k != u.id;
    }
  }

  /** The session holds the profile `create_user` reads: `username`, `email` and `picture` as strings. */
  predicate HasProfile(session: map<string, SessionValue>)
  {
    && "username" in session && session["username"].SStr?
    && "email" in session && session["email"].SStr?
    && "picture" in session && session["picture"].SStr?
  }

  /** The row `create_user` inserts for the session's profile under id `id`. */
  function ProfileUser(session: map<string, SessionValue>, id: int): (u: User)
    requires HasProfile(session)
    ensures u.id == id
    ensures SStr(u.name) == session["username"] && SStr(u.email) == session["email"]
    ensures u.picture.Some? && SStr(u.picture.value) == session["picture"]
  {
    User(id, session["username"].s, session["email"].s, Some(session["picture"].s))
  }

  /**
   * `create_user`: inserts one user built from the session's profile and
   * commits, then reads the id back with `.one()` on the email, which fails
   * when the email was already taken. A name or email longer than the column
   * makes the insert itself fail; the id counter is consumed either way.
   */
  method CreateUser(db: Database, session: Session) returns (r: Result<int>)
    requires db.Valid()
    requires HasProfile(session.entries)
    modifies db
    ensures db.Valid()
    ensures db.categories == old(db.categories) && db.nextCategoryId == old(db.nextCategoryId)
    ensures db.items == old(db.items) && db.nextItemId == old(db.nextItemId)
    ensures db.nextUserId == old(db.nextUserId) + 1
    ensures var u := ProfileUser(session.entries, old(db.nextUserId));
      if UserFits(u) then
        && db.users == old(db.users)[u.id := u]
        && (r.Ok? <==> forall k :: k in old(db.users) ==> old(db.users)[k].email != u.email)
        && (r.Ok? ==> r.value == u.id)
      else
        r.Err? && db.users == old(db.users)
  {
    var u := ProfileUser(session.entries, db.nextUserId);
    if !UserFits(u) {
      db.nextUserId := db.nextUserId + 1;
      return Err("DataError: value too long for column");
    }
    var users := db.users[u.id := u];
    GetUserIdAfterInsert(db.users, u);
    var found := GetUserId(users, u.id + 1, u.email);
    InsertKeepsTables(db.users, db.nextUserId, u, db.items, db.nextItemId, db.categories.Keys);
    db.users, db.nextUserId := users, u.id + 1;
    if found.Some? {
      r := Ok(found.value);
    } else {
      r := Err("MultipleResultsFound");
    }
  }

  /** Adding a user that fits under the next id keeps the users table and the items' foreign keys valid. */
  lemma InsertKeepsTables(users: map<int, User>, next: int, u: User, items: map<int, Item>, nextItem: int, categoryIds: set<int>)
    requires UsersOk(users, next) && ItemsOk(items, nextItem, categoryIds, users.Keys)
    requires u.id == next && UserFits(u)
    ensures UsersOk(users[u.id := u], next + 1)
    ensures ItemsOk(items, nextItem, categoryIds, users[u.id := u].Keys)
  {
  }

  /**
   * Resolve-or-create: the id of the user with the session's email, adding
   * one when the lookup finds none (or several). On success the email then
   * resolves to the returned id, so a second call returns it again without
   * adding anyone.
   */
  method ResolveUserId(db: Database, session: Session) returns (r: Result<int>)
    requires db.Valid()
    requires HasProfile(session.entries)
    modifies db
    ensures db.Valid()
    ensures db.categories == old(db.categories) && db.items == old(db.items)
    ensures forall k :: k in old(db.users) ==> k in db.users && db.users[k] == old(db.users)[k]
    ensures db.users.Keys <= old(db.users).Keys + {old(db.nextUserId)}
    ensures db.nextCategoryId == old(db.nextCategoryId) && db.nextItemId == old(db.nextItemId)
    ensures var email := session.entries["email"].s;
      && (old(GetUserId(db.users, db.nextUserId, email)).Some? ==>
            r == Ok(old(GetUserId(db.users, db.nextUserId, email)).value) && unchanged(db))
      && (r.Ok? ==> GetUserId(db.users, db.nextUserId, email) == Some(r.value))
    ensures var email := session.entries["email"].s;
      old(GetUserId(db.users, db.nextUserId, email)).None? ==>
        var u := ProfileUser(session.entries, old(db.nextUserId));
        && db.nextUserId == old(db.nextUserId) + 1
        && db.users == (if UserFits(u) then old(db.users)[u.id := u] else old(db.users))
        && (r.Ok? <==> (forall k :: k in old(db.users) ==> old(db.users)[k].email != email) && UserFits(u))
        && (r.Ok? ==> r.value == u.id && HasUser(db.users, u))
  {
    var email := session.entries["email"].s;
    var found := GetUserId(db.users, db.nextUserId, email);
    assert found.Some? ==> found.value != 0 by {
      assert UsersOk(db.users, db.nextUserId);
    }
    if found.None? || found.value == 0 {
      ghost var users0, next0 := db.users, db.nextUserId;
      ghost var u := ProfileUser(session.entries, next0);
      assert UsersOk(users0, next0);
      r := CreateUser(db, session);
      AfterCreate(users0, next0, u, db.users, db.nextUserId, r);
    } else {
      r := Ok(found.value);
    }
  }

  /** What `ResolveUserId` learns from one `CreateUser` call, stated on the tables alone. */
  lemma AfterCreate(users0: map<int, User>, next0: int, u: User, users1: map<int, User>, next1: int, r: Result<int>)
    requires UsersOk(users0, next0) && u.id == next0 && next1 == next0 + 1
    requires if UserFits(u) then
               && users1 == users0[u.id := u]
               && (r.Ok? <==> forall k :: k in users0 ==> users0[k].email != u.email)
               && (r.Ok? ==> r.value == u.id)
             else r.Err? && users1 == users0
    ensures forall k :: k in users0 ==> k in users1 && users1[k] == users0[k]
    ensures users1.Keys <= users0.Keys + {next0}
    ensures r.Ok? ==> GetUserId(users1, next1, u.email) == Some(r.value)
    ensures r.Ok? <==> (forall k :: k in users0 ==> users0[k].email != u.email) && UserFits(u)
    ensures r.Ok? ==> r.value == u.id && HasUser(users1, u)
  {
    if r.Ok? {
      GetUserIdAfterInsert(users0, u);
    }
  }

  /** Signing in twice with the same profile yields the same id and adds at most one user in all. */
  method ResolveTwice(db: Database, session: Session) returns (first: Result<int>, second: Result<int>)
    requires db.Valid()
    requires HasProfile(session.entries)
    modifies db
    ensures db.Valid()
    ensures first.Ok? ==> second == first
    ensures first.Ok? ==> db.users.Keys <= old(db.users).Keys + {old(db.nextUserId)}
  {
    first := ResolveUserId(db, session);
    second := ResolveUserId(db, session);
  }
}
