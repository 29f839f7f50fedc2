/**
 * The catalog's pages: browsing, the item create/edit/delete handlers that
 * change the store, the profile page, and how uploaded images are named and
 * addressed. The clock, the random UUID and werkzeug's `secure_filename` are
 * inputs of a request.
 */
module Api {
  import opened Wrappers
  import opened Strings
  import opened Models
  import opened Tables
  import opened Ordering
  import opened Http
  import opened Forms
  import opened Auth

  /** `LATEST_ITEMS_TO_SHOW`. */
  const LatestItemsToShow: nat := 10

  const PlaceholderImage: string := "https://placehold.it/300x300.png?text=No+image"

  // ---------------------------------------------------------------------------
  // Upload names

  predicate HasNonDot(s: string)
  {
    exists k :: 0 <= k < |s| && s[k] != '.'
  }

  /** Empty, or a dot followed by characters that are neither dots nor slashes. */
  predicate ExtensionForm(e: string)
  {
    e == [] || (e[0] == '.' && forall i :: 1 <= i < |e| ==> e[i] != '.' && e[i] != '/')
  }

  /** Nothing after the last occurrence of `c` is `c`. */
  lemma {:induction false} NothingAfterLast(p: string, c: char)
    requires LastIndexOf(p, c).Some?
    ensures forall j :: LastIndexOf(p, c).value < j < |p| ==> p[j] != c
  {
    var r := LastIndexOf(p, c).value;
    forall j | r < j < |p| ensures p[j] != c {
      assert p[j] == p[r + 1..][j - r - 1];
    }
  }

  /** From the last dot on, when that dot comes after the last slash, the text has the form of an extension. */
  lemma {:induction false} TailAfterLastDot(p: string, d: nat)
    requires LastIndexOf(p, '.') == Some(d)
    requires LastIndexOf(p, '/').Some? ==> LastIndexOf(p, '/').value < d
    ensures ExtensionForm(p[d..])
  {
    NothingAfterLast(p, '.');
    if LastIndexOf(p, '/').Some? {
      NothingAfterLast(p, '/');
    }
    var e := p[d..];
    forall i | 1 <= i < |e| ensures e[i] != '.' && e[i] != '/' {
      assert e[i] == p[d + i];
    }
  }

  /**
   * `os.path.splitext(p)[1]`: from the last `.` on, provided that dot comes
   * after the last `/` and the name before it is not only dots (so a dotfile
   * such as `.bashrc` has no extension); otherwise empty.
   */
  function SplitExtension(p: string): (ext: string)
    ensures |ext| <= |p| && ext == p[|p| - |ext|..]
    ensures ExtensionForm(ext)
  {
    match LastIndexOf(p, '.')
    case None => []
    case Some(d) =>
      var start := if LastIndexOf(p, '/').Some? then LastIndexOf(p, '/').value + 1 else 0;
      if start <= d && HasNonDot(p[start..d]) then
        TailAfterLastDot(p, d);
        p[d..]
      else []
  }

  /** A plain name `stem.e` whose stem holds something other than dots has the extension `.e`. */
  lemma {:induction false} SplitExtensionOfName(stem: string, e: string)
    requires '/' !in stem && HasNonDot(stem)
    requires forall i :: 0 <= i < |e| ==> e[i] != '.' && e[i] != '/'
    ensures SplitExtension(stem + "." + e) == "." + e
  {
    var p := stem + "." + e;
    DotBeforeLastPart(stem, e);
    assert p[0..|stem|] == stem;
    SplitAtLastDot(p, |stem|);
    assert p[|stem|..] == "." + e;
  }

  /** In `stem.e` with no dot or slash in `e` and no slash in `stem`, the dot before `e` is the last one and there is no slash. */
  lemma {:induction false} DotBeforeLastPart(stem: string, e: string)
    requires '/' !in stem
    requires forall i :: 0 <= i < |e| ==> e[i] != '.' && e[i] != '/'
    ensures LastIndexOf(stem + "." + e, '.') == Some(|stem|)
    ensures '/' !in stem + "." + e
  {
    var p := stem + "." + e;
    assert p[|stem|] == '.';
    assert p[|stem| + 1..] == e;
    LastIndexUnique(p, '.', |stem|);
    forall i | 0 <= i < |p| ensures p[i] != '/' {
      if i < |stem| {
        assert p[i] == stem[i];
      } else if i > |stem| {
        assert p[i] == e[i - |stem| - 1];
      }
    }
  }

  /** Without a slash, a last dot with something other than dots before it starts the extension. */
  lemma SplitAtLastDot(p: string, d: nat)
    requires LastIndexOf(p, '.') == Some(d) && '/' !in p && HasNonDot(p[0..d])
    ensures SplitExtension(p) == p[d..]
  {
    assert LastIndexOf(p, '/') == None;
  }

  /** A name without a dot has no extension. */
  lemma NoDotNoExtension(p: string)
    requires '.' !in p
    ensures SplitExtension(p) == []
  {
  }

  /** A last dot before the last slash belongs to a directory name: no extension. */
  lemma {:induction false} DotInDirectoryNoExtension(p: string)
    requires LastIndexOf(p, '.').Some? && LastIndexOf(p, '/').Some?
    requires LastIndexOf(p, '.').value < LastIndexOf(p, '/').value
    ensures SplitExtension(p) == []
  {
  }

  /** Only dots before the last dot: no extension. */
  lemma {:induction false} DotFileHasNoExtension(dots: string, e: string)
    requires forall k :: 0 <= k < |dots| ==> dots[k] == '.'
    requires '.' !in e && '/' !in e
    ensures SplitExtension(dots + "." + e) == []
  {
    var p := dots + "." + e;
    assert p[|dots|] == '.';
    assert p[|dots| + 1..] == e;
    LastIndexUnique(p, '.', |dots|);
    assert '/' !in p;
    assert p[0..|dots|] == dots;
  }

  /** `os.path.splitext(name)[1].strip().lower()`. */
  function Extension(original: string): string
  {
    Lower(Strip(SplitExtension(original)))
  }

  /** What an extension looks like: the form above, no upper case and no trailing blank. */
  predicate ExtensionShaped(e: string)
  {
    && ExtensionForm(e)
    && (e == [] || !IsSpace(e[|e| - 1]))
    && forall i :: 0 <= i < |e| ==> !IsUpper(e[i])
  }

  lemma {:induction false} ExtensionIsShaped(original: string)
    ensures ExtensionShaped(Extension(original))
  {
    var x := SplitExtension(original);
    assert TrimStart(x) == x by {
      assert x == [] || !IsSpace(x[0]);
    }
    var s := TrimEnd(x);
    assert ExtensionForm(s) by {
      assert forall i :: 0 <= i < |s| ==> s[i] == x[i];
    }
    LowerKeepsShape(s);
  }

  /** Lower-casing keeps dots, slashes and whitespace where they are and removes every upper-case letter. */
  lemma {:induction false} LowerKeepsShape(s: string)
    requires ExtensionForm(s) && (s == [] || !IsSpace(s[|s| - 1]))
    ensures ExtensionShaped(Lower(s))
  {
  }

  /** An extension-shaped string is left as it is by `strip().lower()`. */
  lemma {:induction false} ShapedIsNormal(e: string)
    requires ExtensionShaped(e)
    ensures Lower(Strip(e)) == e
  {
    StripOfTrimmed(e);
  }

  /** `"_".join([dateTime, uuidHex, ext])`. */
  function JoinName(dateTime: string, uuidHex: string, ext: string): (name: string)
    ensures |name| == |dateTime| + |uuidHex| + 2 + |ext|
    ensures name[..|dateTime|] == dateTime && name[|dateTime|] == '_'
    ensures name[|dateTime| + 1..|dateTime| + 1 + |uuidHex|] == uuidHex
    ensures name[|dateTime| + 1 + |uuidHex|] == '_'
    ensures name[|dateTime| + |uuidHex| + 2..] == ext
  {
    dateTime + "_" + uuidHex + "_" + ext
  }

  /**
   * `generate_unique_filename`: the timestamp, an underscore, the UUID's hex
   * digits, an underscore, then the original's extension, lower-cased and
   * stripped (nothing at all when the original has none, so the name ends
   * with the underscore).
   */
  function GenerateUniqueFilename(original: string, dateTime: string, uuidHex: string): (name: string)
    ensures |name| >= |dateTime| + |uuidHex| + 2
    ensures name[..|dateTime|] == dateTime && name[|dateTime|] == '_'
    ensures name[|dateTime| + 1..|dateTime| + 1 + |uuidHex|] == uuidHex
    ensures name[|dateTime| + 1 + |uuidHex|] == '_'
    ensures name[|dateTime| + |uuidHex| + 2..] == Extension(original)
    ensures Extension(original) == [] ==> name[|name| - 1] == '_'
  {
    JoinName(dateTime, uuidHex, Extension(original))
  }

  /**
   * The generated name has the same extension as the original (after
   * normalising), provided the timestamp and UUID hold no dot or slash, as
   * `%Y%m%d_%H%M%S_%f` and a hex digest never do.
   */
  lemma {:induction false} GeneratedKeepsExtension(original: string, dateTime: string, uuidHex: string)
    requires '.' !in dateTime && '/' !in dateTime && '.' !in uuidHex && '/' !in uuidHex
    ensures Extension(GenerateUniqueFilename(original, dateTime, uuidHex)) == Extension(original)
  {
    var e := Extension(original);
    ExtensionIsShaped(original);
    JoinedNameExtension(dateTime, uuidHex, e);
    ShapedIsNormal(e);
  }

  /** A joined name's extension is its last part, when the stamps hold no dot or slash. */
  lemma {:induction false} JoinedNameExtension(dateTime: string, uuidHex: string, e: string)
    requires '.' !in dateTime && '/' !in dateTime && '.' !in uuidHex && '/' !in uuidHex
    requires ExtensionShaped(e)
    ensures SplitExtension(JoinName(dateTime, uuidHex, e)) == e
  {
    var stem := dateTime + "_" + uuidHex + "_";
    assert JoinName(dateTime, uuidHex, e) == stem + e;
    if e == [] {
      assert stem + e == stem;
      assert '.' !in stem;
    } else {
      assert stem[|dateTime|] == '_';
      assert stem + e == stem + "." + e[1..];
      assert forall i :: 0 <= i < |e[1..]| ==> e[1..][i] == e[i + 1];
      SplitExtensionOfName(stem, e[1..]);
    }
  }

  /**
   * Names drawn at different instants or with different UUIDs never clash,
   * given the fixed widths of the timestamp and of the hex digest.
   */
  lemma {:induction false} GeneratedNamesDistinct(o1: string, o2: string, d1: string, d2: string, u1: string, u2: string)
    requires |d1| == |d2| && |u1| == |u2|
    requires d1 != d2 || u1 != u2
    ensures GenerateUniqueFilename(o1, d1, u1) != GenerateUniqueFilename(o2, d2, u2)
  {
    var n1 := GenerateUniqueFilename(o1, d1, u1);
    var n2 := GenerateUniqueFilename(o2, d2, u2);
    if d1 == d2 {
      assert n1[|d1| + 1..|d1| + 1 + |u1|] != n2[|d2| + 1..|d2| + 1 + |u2|];
    } else {
      assert n1[..|d1|] != n2[..|d2|];
    }
  }

  /** The extension of "Photo.JPG" is ".jpg". */
  lemma PhotoExtension()
    ensures Extension("Photo.JPG") == ".jpg"
  {
    PhotoSplit();
    UpperJpgNormalised();
  }

  lemma PhotoSplit()
    ensures SplitExtension("Photo.JPG") == ".JPG"
  {
    assert "Photo.JPG" == "Photo" + "." + "JPG";
    assert "Photo"[0] == 'P';
    SplitExtensionOfName("Photo", "JPG");
  }

  lemma UpperJpgNormalised()
    ensures Lower(Strip(".JPG")) == ".jpg"
  {
    UpperJpgStripped();
    UpperJpgLowered();
  }

  lemma UpperJpgStripped()
    ensures Strip(".JPG") == ".JPG"
  {
    var x := ".JPG";
    assert x[0] == '.' && x[3] == 'G';
    StripOfTrimmed(x);
  }

  lemma UpperJpgLowered()
    ensures Lower(".JPG") == ".jpg"
  {
    var l := Lower(".JPG");
    assert l[0] == '.' && l[1] == 'j' && l[2] == 'p' && l[3] == 'g';
  }

  /** A file named "Photo.JPG" is stored under a name ending in ".jpg". */
  lemma UploadNameExample(dateTime: string, uuidHex: string)
    ensures GenerateUniqueFilename("Photo.JPG", dateTime, uuidHex) == dateTime + "_" + uuidHex + "_" + ".jpg"
  {
    PhotoExtension();
  }

  /** `get_image_url`: the image route for a stored file name, the placeholder when there is none. */
  function GetImageUrl(filename: Option<string>): (u: Url)
    ensures u == Literal(PlaceholderImage) <==> filename.None? || filename.value == ""
    ensures filename.Some? && filename.value != "" ==> u == ImageUrl(filename.value)
  {
    if filename.Some? && filename.value != "" then ImageUrl(filename.value) else Literal(PlaceholderImage)
  }

  /** An uploaded image is always addressed through the image route, never the placeholder. */
  lemma UploadedImageIsServed(original: string, dateTime: string, uuidHex: string)
    ensures GetImageUrl(Some(GenerateUniqueFilename(original, dateTime, uuidHex)))
            == ImageUrl(GenerateUniqueFilename(original, dateTime, uuidHex))
  {
  }

  // ---------------------------------------------------------------------------
  // Read handlers

  /** `view_catalog`: every category, every item by name, and the ten most recently updated items. */
  function ViewCatalog(db: Database): (r: Response)
    reads db
    requires db.Valid()
    ensures r.Render? && r.page.CatalogPage?
    ensures forall c :: c in r.page.categories <==> HasCategory(db.categories, c)
    ensures forall i, j :: 0 <= i < j < |r.page.categories| ==> r.page.categories[i] != r.page.categories[j]
    ensures Sorted(r.page.items, ByName) && multiset(r.page.items) == multiset(db.ItemRows())
    ensures forall it :: it in r.page.items <==> HasItem(db.items, it)
    ensures |r.page.latest| == if |db.ItemRows()| < LatestItemsToShow then |db.ItemRows()| else LatestItemsToShow
    ensures Sorted(r.page.latest, ByUpdatedDesc)
    ensures multiset(r.page.latest) <= multiset(db.ItemRows())
    ensures forall i, j :: 0 <= i < j < |r.page.latest| ==> r.page.latest[i] != r.page.latest[j]
    ensures forall it :: it in r.page.latest ==> HasItem(db.items, it)
    ensures forall x, y :: HasItem(db.items, x) && x !in r.page.latest && y in r.page.latest ==> x.updated <= y.updated
  {
    var rows := db.ItemRows();
    var items := SortItems(rows, ByName);
    var latest := Latest(rows, LatestItemsToShow);
    assert forall it :: it in items <==> it in multiset(rows);
    assert forall it :: it in latest ==> it in multiset(rows);
    NoRepeatsDrawn(rows, latest);
    Render(CatalogPage(db.CategoryRows(), items, latest))
  }

  /** `view_category`: 404 for an unknown id, else the category and its items (by id, as the query has no order). */
  function ViewCategory(db: Database, categoryId: int): (r: Response)
    reads db
    requires db.Valid()
    ensures r == NotFound <==> categoryId !in db.categories
    ensures categoryId in db.categories ==>
      r.Render? && r.page.CategoryPage? && r.page.category == db.categories[categoryId]
      && (forall it :: it in r.page.categoryItems <==> HasItem(db.items, it) && it.categoryId == categoryId)
      && (forall i, j :: 0 <= i < j < |r.page.categoryItems| ==> r.page.categoryItems[i].id < r.page.categoryItems[j].id)
  {
    if categoryId !in db.categories then NotFound
    else Render(CategoryPage(db.categories[categoryId], ItemsWhere(db.ItemRows(), (it: Item) => it.categoryId == categoryId)))
  }

  /** `view_item`: 404 for an unknown id, else that item's page. */
  function ViewItem(db: Database, itemId: int): (r: Response)
    reads db
    requires db.Valid()
    ensures r == NotFound <==> itemId !in db.items
    ensures itemId in db.items ==> r == Render(ItemPage(db.items[itemId])) && r.page.item.id == itemId
  {
    if itemId !in db.items then NotFound else Render(ItemPage(db.items[itemId]))
  }

  /** The integer `session['user_id']`, when there is one. */
  function SessionUserId(session: map<string, SessionValue>): (uid: Option<int>)
    ensures uid.Some? <==> "user_id" in session && session["user_id"].SInt?
    ensures uid.Some? ==> session["user_id"] == SInt(uid.value)
  {
    if "user_id" in session && session["user_id"].SInt? then Some(session["user_id"].i) else None
  }

  /** The filter `filter_by(user_id=uid)`. */
  function OfUser(uid: int): Item -> bool
  {
    (it: Item) => it.userId == uid
  }

  /** The profile's query `filter_by(user_id=uid).order_by(Item.name).all()`: the user's items, each once, by name. */
  function OwnedItems(db: Database, uid: int): (owned: seq<Item>)
    reads db
    requires db.Valid()
    ensures Sorted(owned, ByName)
    ensures multiset(owned) == multiset(ItemsWhere(db.ItemRows(), OfUser(uid)))
    ensures forall i, j :: 0 <= i < j < |owned| ==> owned[i] != owned[j]
    ensures forall it :: it in owned <==> HasItem(db.items, it) && it.userId == uid
  {
    var rows := ItemsWhere(db.ItemRows(), OfUser(uid));
    var owned := SortItems(rows, ByName);
    PermutationKeepsOnce(rows, owned);
    owned
  }

  /**
   * `user_profile` behind `login_required`: the session user and exactly
   * their items, by name. A missing `user_id` or an id with no user raises,
   * answered with the 500 page.
   */
  function UserProfile(db: Database, session: map<string, SessionValue>, requestUrl: string): (r: Response)
    reads db
    requires db.Valid()
    ensures !SignedIn(session) ==> r == Redirect(LoginUrl(requestUrl))
    ensures SignedIn(session) && (SessionUserId(session).None? || SessionUserId(session).value !in db.users) ==>
      r == ServerError
    ensures SignedIn(session) && SessionUserId(session).Some? && SessionUserId(session).value in db.users ==>
      var uid := SessionUserId(session).value;
      && r.Render? && r.page.ProfilePage? && r.page.user == db.users[uid] && r.page.user.id == uid
      && Sorted(r.page.owned, ByName)
      && multiset(r.page.owned) == multiset(ItemsWhere(db.ItemRows(), OfUser(uid)))
      && (forall i, j :: 0 <= i < j < |r.page.owned| ==> r.page.owned[i] != r.page.owned[j])
      && (forall it :: it in r.page.owned <==> HasItem(db.items, it) && it.userId == uid)
  {
    var handler :=
      if SessionUserId(session).None? || SessionUserId(session).value !in db.users then ServerError
      else
        var uid := SessionUserId(session).value;
        Render(ProfilePage(db.users[uid], OwnedItems(db, uid)));
    LoginRequired(session, requestUrl, handler)
  }

  // ---------------------------------------------------------------------------
  // Handlers that change the store

  datatype HttpMethod = Get | Post

  /** A request to one of the item forms: HTTP method, URL (for the login redirect), bound form data and CSRF verdict. */
  datatype ItemRequest = ItemRequest(verb: HttpMethod, url: string, form: ItemFormData, csrfValid: bool)

  /** What the request reads from outside: the clock, the timestamp text, a fresh UUID and `secure_filename`. */
  datatype UploadEnv = UploadEnv(now: int, stamp: string, uuidHex: string, secure: string -> string)

  /** The form was posted and validates against the current category ids. */
  predicate Submitted(req: ItemRequest, categoryIds: set<int>)
  {
    req.verb == Post && ItemFormValid(req.form, categoryIds, req.csrfValid)
  }

  /** The stored name of the uploaded image, or None when no file was chosen. */
  function StoredImage(form: ItemFormData, env: UploadEnv): (image: Option<string>)
    ensures image.None? <==> form.upload == ""
    ensures image.Some? ==> image.value == GenerateUniqueFilename(env.secure(form.upload), env.stamp, env.uuidHex)
    ensures image.Some? ==> image.value != ""
  {
    if form.upload == "" then None else Some(GenerateUniqueFilename(env.secure(form.upload), env.stamp, env.uuidHex))
  }

  /** The session user owns the item: `item.user_id != session['user_id']` is false. */
  predicate OwnedBy(session: map<string, SessionValue>, it: Item)
    requires "user_id" in session
  {
    session["user_id"] == SInt(it.userId)
  }

  /**
   * `new_item`. Nothing changes unless the signed-in user posts a valid form.
   * Then one item is inserted under the next id, owned by the session user,
   * created and updated now. A missing `user_id` raises before the insert;
   * an id with no user fails the foreign key after the id was drawn.
   */
  method NewItem(db: Database, session: map<string, SessionValue>, req: ItemRequest, env: UploadEnv) returns (r: Response)
    requires db.Valid()
    modifies db
    ensures db.Valid()
    ensures db.users == old(db.users) && db.categories == old(db.categories)
    ensures db.nextUserId == old(db.nextUserId) && db.nextCategoryId == old(db.nextCategoryId)
    ensures !SignedIn(session) ==> r == Redirect(LoginUrl(req.url)) && unchanged(db)
    ensures SignedIn(session) && !Submitted(req, old(db.categories.Keys)) ==> r == Render(NewItemForm) && unchanged(db)
    ensures SignedIn(session) && Submitted(req, old(db.categories.Keys)) && SessionUserId(session).None? ==>
      r == ServerError && unchanged(db)
    ensures SignedIn(session) && Submitted(req, old(db.categories.Keys)) && SessionUserId(session).Some?
            && SessionUserId(session).value !in old(db.users) ==>
      r == ServerError && db.items == old(db.items) && db.nextItemId == old(db.nextItemId) + 1
    ensures SignedIn(session) && Submitted(req, old(db.categories.Keys)) && SessionUserId(session).Some?
            && SessionUserId(session).value in old(db.users) ==>
      var id := old(db.nextItemId);
      && r == Redirect(ViewItemUrl(id))
      && db.nextItemId == id + 1
      && id !in old(db.items)
      && db.items == old(db.items)[id := Item(id, req.form.name, Some(req.form.description), StoredImage(req.form, env),
                                               req.form.categoryId.value, env.now, env.now, SessionUserId(session).value)]
  {
    if !SignedIn(session) {
      return Redirect(LoginUrl(req.url));
    }
    if !Submitted(req, db.categories.Keys) {
      return Render(NewItemForm);
    }
    ValidFormFitsItemRow(req.form, db.categories.Keys, req.csrfValid);
    var image := StoredImage(req.form, env);
    var uid := SessionUserId(session);
    if uid.None? {
      return ServerError;
    }
    assert ItemsOk(db.items, db.nextItemId, db.categories.Keys, db.users.Keys);
    var id := db.nextItemId;
    if uid.value !in db.users {
      db.nextItemId := id + 1;
      return ServerError;
    }
    var row := Item(id, req.form.name, Some(req.form.description), image, req.form.categoryId.value, env.now, env.now, uid.value);
    var items := db.items[id := row];
    assert ItemsOk(items, id + 1, db.categories.Keys, db.users.Keys);
    db.items, db.nextItemId := items, id + 1;
    r := Redirect(ViewItemUrl(id));
  }

  /**
   * The row after a successful edit: name, description and category from the
   * form, the image replaced only by a new upload, owner, id and creation
   * time kept. `updated` becomes now when some column actually changed
   * (otherwise no UPDATE is issued and the `onupdate` default does not fire).
   */
  function Edited(it: Item, form: ItemFormData, image: Option<string>, now: int): (e: Item)
    requires form.categoryId.Some?
    ensures e.id == it.id && e.created == it.created && e.userId == it.userId
    ensures e.name == form.name && e.description == Some(form.description) && e.categoryId == form.categoryId.value
    ensures image.Some? ==> e.image == image
    ensures image.None? ==> e.image == it.image
    ensures e.updated == if e.(updated := it.updated) == it then it.updated else now
  {
    var changed := it.(name := form.name, description := Some(form.description), categoryId := form.categoryId.value,
                       image := if image.Some? then image else it.image);
    if changed != it then changed.(updated := now) else changed
  }

  /** Resubmitting the item's own values without an upload leaves the row exactly as it was. */
  lemma {:induction false} EditWithSameValuesIsNoOp(it: Item, form: ItemFormData, now: int)
    requires it.description.Some?
    requires form.name == it.name && form.description == it.description.value && form.categoryId == Some(it.categoryId)
    ensures Edited(it, form, None, now) == it
  {
    assert Edited(it, form, None, now).(updated := it.updated) == it;
  }

  /**
   * `edit_item`. A missing item is a 404; a session whose `user_id` is not
   * the owner's sees the item page; in both cases, and for a GET or an
   * invalid form, the store is untouched. A valid post replaces the row by
   * `Edited`.
   */
  method EditItem(db: Database, session: map<string, SessionValue>, itemId: int, req: ItemRequest, env: UploadEnv)
    returns (r: Response)
    requires db.Valid()
    modifies db
    ensures db.Valid()
    ensures db.users == old(db.users) && db.categories == old(db.categories)
    ensures db.nextUserId == old(db.nextUserId) && db.nextCategoryId == old(db.nextCategoryId)
    ensures db.nextItemId == old(db.nextItemId)
    ensures !SignedIn(session) ==> r == Redirect(LoginUrl(req.url)) && unchanged(db)
    ensures SignedIn(session) && itemId !in old(db.items) ==> r == NotFound && unchanged(db)
    ensures SignedIn(session) && itemId in old(db.items) && "user_id" !in session ==> r == ServerError && unchanged(db)
    ensures SignedIn(session) && itemId in old(db.items) && "user_id" in session && !OwnedBy(session, old(db.items[itemId])) ==>
      r == Render(ItemPage(old(db.items[itemId]))) && unchanged(db)
    ensures SignedIn(session) && itemId in old(db.items) && "user_id" in session && OwnedBy(session, old(db.items[itemId]))
            && !Submitted(req, old(db.categories.Keys)) ==>
      r == Render(EditItemForm(old(db.items[itemId]))) && unchanged(db)
    ensures SignedIn(session) && itemId in old(db.items) && "user_id" in session && OwnedBy(session, old(db.items[itemId]))
            && Submitted(req, old(db.categories.Keys)) ==>
      && r == Redirect(ViewItemUrl(itemId))
      && db.items == old(db.items)[itemId := Edited(old(db.items[itemId]), req.form, StoredImage(req.form, env), env.now)]
    ensures r.Redirect? && r.to.ViewItemUrl? ==> old(db.items).Keys == db.items.Keys
  {
    if !SignedIn(session) {
      return Redirect(LoginUrl(req.url));
    }
    if itemId !in db.items {
      return NotFound;
    }
    var it := db.items[itemId];
    if "user_id" !in session {
      return ServerError;
    }
    if !OwnedBy(session, it) {
      return Render(ItemPage(it));
    }
    if !Submitted(req, db.categories.Keys) {
      return Render(EditItemForm(it));
    }
    ValidFormFitsItemRow(req.form, db.categories.Keys, req.csrfValid);
    assert ItemsOk(db.items, db.nextItemId, db.categories.Keys, db.users.Keys);
    var e := Edited(it, req.form, StoredImage(req.form, env), env.now);
    var items := db.items[itemId := e];
    assert ItemsOk(items, db.nextItemId, db.categories.Keys, db.users.Keys);
    db.items := items;
    r := Redirect(ViewItemUrl(itemId));
  }

  /**
   * `delete_item`. Guarded like `edit_item`; the item is removed, and
   * nothing else, only when the owner posts with a valid CSRF token.
   */
  method DeleteItem(db: Database, session: map<string, SessionValue>, itemId: int, verb: HttpMethod,
                    requestUrl: string, csrfValid: bool) returns (r: Response)
    requires db.Valid()
    modifies db
    ensures db.Valid()
    ensures db.users == old(db.users) && db.categories == old(db.categories)
    ensures db.nextUserId == old(db.nextUserId) && db.nextCategoryId == old(db.nextCategoryId)
    ensures db.nextItemId == old(db.nextItemId)
    ensures !SignedIn(session) ==> r == Redirect(LoginUrl(requestUrl)) && unchanged(db)
    ensures SignedIn(session) && itemId !in old(db.items) ==> r == NotFound && unchanged(db)
    ensures SignedIn(session) && itemId in old(db.items) && "user_id" !in session ==> r == ServerError && unchanged(db)
    ensures SignedIn(session) && itemId in old(db.items) && "user_id" in session && !OwnedBy(session, old(db.items[itemId])) ==>
      r == Render(ItemPage(old(db.items[itemId]))) && unchanged(db)
    ensures SignedIn(session) && itemId in old(db.items) && "user_id" in session && OwnedBy(session, old(db.items[itemId]))
            && !(verb == Post && csrfValid) ==>
      r == Render(DeleteItemForm(old(db.items[itemId]))) && unchanged(db)
    ensures SignedIn(session) && itemId in old(db.items) && "user_id" in session && OwnedBy(session, old(db.items[itemId]))
            && verb == Post && csrfValid ==>
      r == Redirect(CatalogHome) && db.items == old(db.items) - {itemId}
    ensures db.items != old(db.items) ==> verb == Post && csrfValid && db.items == old(db.items) - {itemId}
  {
    if !SignedIn(session) {
      return Redirect(LoginUrl(requestUrl));
    }
    if itemId !in db.items {
      return NotFound;
    }
    var it := db.items[itemId];
    if "user_id" !in session {
      return ServerError;
    }
    if !OwnedBy(session, it) {
      return Render(ItemPage(it));
    }
    if !(verb == Post && csrfValid) {
      return Render(DeleteItemForm(it));
    }
    assert ItemsOk(db.items, db.nextItemId, db.categories.Keys, db.users.Keys);
    var items := db.items - {itemId};
    assert ItemsOk(items, db.nextItemId, db.categories.Keys, db.users.Keys);
    db.items := items;
    r := Redirect(CatalogHome);
  }
}
