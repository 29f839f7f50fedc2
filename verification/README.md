# Item Catalog, modelled in Dafny

The Item Catalog is a Flask web application backed by a PostgreSQL database
through SQLAlchemy. Users sign in with Google. Every visitor can browse
categories and items. A signed-in user can create items and can edit or
delete only the items they own. An item may carry an uploaded image. The
catalog is also published as JSON endpoints and as an Atom feed of the most
recently updated items.

The project models this core:

- `models.dfy`: the three tables' rows, their column limits, and the flat
  dictionaries their `serialize` properties return. Each dictionary reads back
  to its row.
- `tables.dfy`: the store as a `Database` class. It holds three maps from
  primary key to row and the SERIAL counters. `Valid()` states the table
  invariants, including the foreign keys. A query without `order_by` lists rows
  by ascending id.
- `ordering.dfy`: the two `order_by` clauses used on items, by name and by
  `updated` descending, and the `limit(n)` taken after the latter.
- `forms.dfy`: `ImageFileValidator` and the field rules of `ItemForm`.
- `users.dfy`: `get_user_id`, `create_user` and `get_user_info`, and the
  resolve-or-create step of Google sign-in.
- `auth.dfy`: the login page, the `login_required` guard, `google_connect` and
  `google_disconnect`.
- `api.dfy`: the browse pages, the create/edit/delete item handlers, the
  profile page, and the naming and addressing of uploaded images.
- `data.dfy`: the JSON endpoints and the Atom feed.
- `strings.dfy`, `http.dfy` and `wrappers.dfy` hold the Python string
  operations used, the response/page/session vocabulary, and Option/Result.

Handlers that only read are functions of the `Database`. Handlers that change
the store are methods with `modifies db`, and each states the whole new state
for every branch. `google_connect` also writes Flask's `session`, modelled as a
`Session` object whose `entries` map is updated one key at a time.

These inputs are parameters of the model:

- the clock and the timestamp text;
- the UUID digits;
- werkzeug's `secure_filename`;
- the replies of Google's endpoints;
- the CSRF verdict.

## Model

| member | source | states |
|---|---|---|
| `Models.UserJson` | catalog/catalog/models.py:42-50 | `User.serialize` is a flat dictionary with exactly the keys id, name, email, picture |
| `Models.CategoryJson` | catalog/catalog/models.py:69-75 | `Category.serialize` is a flat dictionary with exactly the keys id, name |
| `Models.ItemJson` | catalog/catalog/models.py:120-130 | `Item.serialize` is flat; the category and owner are plain ids and the timestamps are absent |
| `Models.UserJsonRoundTrip` | catalog/catalog/models.py:37-50 | reading a user's dictionary back gives the same row |
| `Models.CategoryJsonRoundTrip` | catalog/catalog/models.py:64-75 | reading a category's dictionary back gives the same row |
| `Models.ItemJsonRoundTrip` | catalog/catalog/models.py:106-130 | reading an item's dictionary back, with its two timestamps supplied, gives the same row |
| `Strings.LastIndexOf` | vagrant/catalog/catalog/forms/__init__.py:53 | `rsplit('.', 1)` splits at an occurrence with none after it; None exactly when the character is absent |
| `Strings.LastIndexUnique` | vagrant/catalog/catalog/forms/__init__.py:53 | an occurrence with none after it is the one `rsplit` uses |
| `Strings.TrimStart` | vagrant/catalog/catalog/views/api.py:240 | `lstrip` removes a whitespace prefix and leaves a string starting with non-whitespace |
| `Strings.TrimEnd` | vagrant/catalog/catalog/views/api.py:240 | `rstrip` removes a whitespace suffix and leaves a string ending with non-whitespace |
| `Strings.StripOfTrimmed` | vagrant/catalog/catalog/views/api.py:240 | a string neither starting nor ending with whitespace is unchanged by `strip()` |
| `Strings.StripEmptyIffBlank` | vagrant/catalog/catalog/forms/item.py:9-11 | `strip()` empties a string exactly when it is all whitespace, which is what `Required()` rejects |
| `Strings.LowerChar` | vagrant/catalog/catalog/views/api.py:240 | `lower()` maps each of A-Z to its own lower-case letter (code point + 32) and leaves every other character alone |
| `Strings.Lower` | vagrant/catalog/catalog/views/api.py:240 | `lower()` keeps the length and lowers character by character |
| `Strings.StrLeTotal` | vagrant/catalog/catalog/views/api.py:46 | any two names are ordered one way or the other |
| `Strings.StrLeTransitive` | vagrant/catalog/catalog/views/api.py:46 | the name order is transitive |
| `Tables.KeysBelow` | vagrant/catalog/catalog/views/data.py:28-29 | an unordered `.all()` lists every key below the counter once, ascending |
| `Tables.RowsAtKeys` | vagrant/catalog/catalog/views/data.py:28-29 | listing by key gives each key's row in place, and every row under a key below the counter |
| `Tables.Database.UserRows` | vagrant/catalog/catalog/views/data.py:62 | `query(User).all()` lists exactly the stored users, each once, ids ascending |
| `Tables.Database.CategoryRows` | vagrant/catalog/catalog/views/data.py:28 | `query(Category).all()` lists exactly the stored categories, each once, ids ascending |
| `Tables.Database.ItemRows` | vagrant/catalog/catalog/views/data.py:29 | `query(Item).all()` lists exactly the stored items, ids ascending |
| `Tables.ItemsWhere` | vagrant/catalog/catalog/views/data.py:40 | `filter_by` keeps exactly the rows passing the test, in their order |
| `Ordering.BeforeTotal` | vagrant/catalog/catalog/views/api.py:46-47 | both `order_by` keys compare any two items |
| `Ordering.BeforeTransitive` | vagrant/catalog/catalog/views/api.py:46-47 | both `order_by` keys are transitive |
| `Ordering.Insert` | vagrant/catalog/catalog/views/api.py:46 | inserting into a sorted list keeps it sorted and adds exactly that row |
| `Ordering.HeadStaysFirst` | vagrant/catalog/catalog/views/api.py:46 | a row that may precede `x` and every row of `t` may precede every row of a permutation of `t` plus `x` |
| `Ordering.SortItems` | vagrant/catalog/catalog/views/api.py:46 | `order_by` returns a sorted permutation of the rows |
| `Ordering.Latest` | vagrant/catalog/catalog/views/api.py:47-48 | `order_by(updated desc).limit(n)`: min(n, count) rows drawn from the input, newest first, and no row left out is newer than a row kept |
| `Ordering.PrefixIsNewest` | vagrant/catalog/catalog/views/api.py:47-48 | cutting a newest-first list leaves out only rows no newer than those kept |
| `Ordering.AtMostOnce` | vagrant/catalog/catalog/views/api.py:47-48 | a query result without repeats holds each row at most once |
| `Ordering.PermutationKeepsOnce` | vagrant/catalog/catalog/views/api.py:203 | reordering rows with distinct ids keeps the same rows, each once |
| `Ordering.NoRepeatsDrawn` | vagrant/catalog/catalog/views/api.py:47-48 | rows a `limit` draws from a result without repeats (a sub-multiset of it) have no repeats |
| `Forms.AfterLastDot` | vagrant/catalog/catalog/forms/__init__.py:53 | `rsplit('.', 1)[1]` holds no dot and follows the last dot |
| `Forms.AllowedFileMeansLastDotExtension` | vagrant/catalog/catalog/forms/__init__.py:50-53 | `allowed_file` holds iff some dot has no dot after it and the text after it is an allowed extension |
| `Forms.OnlyLastExtensionCounts` | vagrant/catalog/catalog/forms/__init__.py:50-53 | `stem.ext` is allowed iff `ext` is, whatever the stem holds |
| `Forms.NoDotRejected` | vagrant/catalog/catalog/forms/__init__.py:52 | a name without a dot is never allowed |
| `Forms.DoubleExtensionExample` | vagrant/catalog/catalog/forms/__init__.py:50-53 | `a.exe.png` passes the default set on its last part |
| `Forms.DisallowedExtensionExample` | catalog/catalog/__init__.py:30 | `photo.exe` fails the configured set |
| `Forms.UpperCaseExtensionExample` | catalog/catalog/__init__.py:30 | `photo.JPG` fails: the check is case-sensitive |
| `Forms.NewImageFileValidator` | vagrant/catalog/catalog/forms/__init__.py:39-43 | a missing or empty message becomes the default "Invalid file extension."; a given non-empty one is kept |
| `Forms.CheckImage` | vagrant/catalog/catalog/forms/__init__.py:45-48 | the validator raises its message iff a file was chosen and its name is not allowed |
| `Forms.ItemImageValidator` | vagrant/catalog/catalog/forms/item.py:15 | the image field uses the configured extensions and the default message |
| `Forms.ItemFormErrors` | vagrant/catalog/catalog/forms/item.py:6-15 | a field is reported iff its validators reject it; the CSRF token counts as a field |
| `Forms.ItemFormValid` | vagrant/catalog/catalog/forms/item.py:13 | a valid form names one of the offered category ids |
| `Forms.ValidFormFitsItemRow` | vagrant/catalog/catalog/forms/item.py:9-15 | a valid form has a 5-120 character name, a description of at least 10 characters, an offered category, a valid CSRF token and an allowed or absent image |
| `Forms.BlankNameRejected` | vagrant/catalog/catalog/forms/item.py:9 | a name of only whitespace is rejected whatever its length |
| `Forms.ItemFormExamples` | vagrant/catalog/catalog/forms/item.py:9-15 | "Kale" is too short; an absent image never fails; `photo.exe` does |
| `Users.EmailMatches` | catalog/catalog/users.py:23 | `filter_by(email=...)` keeps exactly the ids whose user has that email, ascending |
| `Users.GetUserId` | catalog/catalog/users.py:21-26 | Some(id) iff `id` is the one user with that email; None when there is none or several |
| `Users.MatchesDecide` | catalog/catalog/users.py:23-26 | `.one()` succeeds exactly on one match, and that match is then the sole owner |
| `Users.GetUserInfo` | catalog/catalog/users.py:28-30 | the user stored under the id, and nothing when there is none |
| `Users.InfoOfResolvedId` | catalog/catalog/users.py:21-30 | looking up the id found for an email gives a user with that email |
| `Users.GetUserIdAfterInsert` | catalog/catalog/users.py:16-18 | after inserting a user under a fresh id, its email resolves, to that id, iff no earlier user had it |
| `Users.ProfileUser` | catalog/catalog/users.py:12-15 | the new row takes exactly the session's `username`, `email` and `picture` as name, email and picture |
| `Users.CreateUser` | catalog/catalog/users.py:11-19 | one row added under the next id; the id is returned iff the email was new; an over-long name or email adds nothing; the counter advances either way (an assumption, see below) |
| `Users.InsertKeepsTables` | catalog/catalog/users.py:16-17 | the insert keeps the users table and the items' foreign keys valid |
| `Users.ResolveUserId` | vagrant/catalog/catalog/views/auth.py:152-159 | an email that already resolves gives that id with the store unchanged; on a miss the user is created, and the call succeeds iff no user had the email and the profile fits its columns, returning the new id whose row is stored. On a miss the counter advances by one and the users table gains exactly the profile's row iff it fits, and is otherwise unchanged. Categories, items and their counters never change; on success the email resolves to the id returned |
| `Users.AfterCreate` | vagrant/catalog/catalog/views/auth.py:155-157 | what one `create_user` call leaves: old rows kept, at most the new key added; success iff the email was new and the row fits, and then the new row is stored and resolves |
| `Users.ResolveTwice` | vagrant/catalog/catalog/views/auth.py:152-159 | signing in twice with one profile returns the same id and adds at most one user in all |
| `Auth.Login` | vagrant/catalog/catalog/views/auth.py:25-38 | the login page carries `?next=` when given, else the catalog home |
| `Auth.LoginRequired` | vagrant/catalog/catalog/views/auth.py:54-65 | without `username` the client is redirected to login with the requested URL; otherwise the handler's response |
| `Auth.GuardReturnsToRequestedUrl` | vagrant/catalog/catalog/views/auth.py:34-38 | following the guard's redirect shows a login page that returns to the URL first requested |
| `Auth.ConnectChecks` | vagrant/catalog/catalog/views/auth.py:90-132 | sign-in goes ahead only when the exchange succeeded, the token has no error, its user and audience match, and the account is not already connected; once the four checks pass, the answer is 200 "already connected" iff the stored credentials and Google id match, and otherwise sign-in goes ahead |
| `Auth.FirstFailureWins` | vagrant/catalog/catalog/views/auth.py:90-124 | the first failing check decides the response whatever the later inputs are |
| `Auth.ProfileWrites` | vagrant/catalog/catalog/views/auth.py:137-150 | the six writes store the access token, the Google id, provider "google", and the profile's name, picture and email under their keys, add no other key and leave every other key as it was |
| `Auth.GoogleConnect` | vagrant/catalog/catalog/views/auth.py:82-166 | a check that stops the request changes nothing. Otherwise the profile is written. The welcome page is answered iff the email was already known, or it was new and the profile fits its columns, in which case the new user's id is stored in the session. Categories and items never change. An unknown email advances the user counter and adds exactly the profile's row iff it fits; a known one leaves the store unchanged. Success adds a `user_id` the email resolves to; a known user is not re-created; a failed resolve keeps the written profile |
| `Auth.GoogleDisconnect` | vagrant/catalog/catalog/views/auth.py:169-193 | 401 with the session untouched when no credentials are stored; when the revoke request raises, the 500 page with the session kept; otherwise, whatever status it answers, the whole session is cleared and the client goes home |
| `Api.NothingAfterLast` | vagrant/catalog/catalog/views/api.py:240 | no character after the last occurrence is that character |
| `Api.TailAfterLastDot` | vagrant/catalog/catalog/views/api.py:240 | from a last dot lying after the last slash, the text has the form of an extension |
| `Api.SplitExtension` | vagrant/catalog/catalog/views/api.py:240 | `splitext(p)[1]` is a suffix of `p`, empty or a dot followed by no further dot or slash |
| `Api.SplitExtensionOfName` | vagrant/catalog/catalog/views/api.py:240 | a plain `stem.e` whose stem is not only dots has extension `.e` |
| `Api.DotBeforeLastPart` | vagrant/catalog/catalog/views/api.py:240 | in `stem.e` the dot before `e` is the last one and there is no slash |
| `Api.SplitAtLastDot` | vagrant/catalog/catalog/views/api.py:240 | without a slash, a last dot preceded by some non-dot starts the extension |
| `Api.DotFileHasNoExtension` | vagrant/catalog/catalog/views/api.py:240 | a name that is only dots before its last dot, such as `.bashrc`, has no extension |
| `Api.NoDotNoExtension` | vagrant/catalog/catalog/views/api.py:240 | a name without a dot has no extension |
| `Api.DotInDirectoryNoExtension` | vagrant/catalog/catalog/views/api.py:240 | a last dot before the last slash gives no extension |
| `Api.ExtensionIsShaped` | vagrant/catalog/catalog/views/api.py:240 | the normalised extension is empty or a dot followed by no dot, slash or upper-case letter, and has no trailing blank |
| `Api.LowerKeepsShape` | vagrant/catalog/catalog/views/api.py:240 | lower-casing keeps that shape |
| `Api.ShapedIsNormal` | vagrant/catalog/catalog/views/api.py:240 | normalising an already normalised extension changes nothing |
| `Api.JoinName` | vagrant/catalog/catalog/views/api.py:248 | `"_".join` places the three parts at their offsets, separated by underscores |
| `Api.GenerateUniqueFilename` | vagrant/catalog/catalog/views/api.py:225-249 | timestamp, `_`, UUID digits, `_`, then the normalised extension; the name ends in `_` when there is none |
| `Api.GeneratedKeepsExtension` | vagrant/catalog/catalog/views/api.py:236-240 | the generated name has the original's normalised extension |
| `Api.JoinedNameExtension` | vagrant/catalog/catalog/views/api.py:248 | the joined name's extension is its last part |
| `Api.GeneratedNamesDistinct` | vagrant/catalog/catalog/views/api.py:228-246 | different timestamps or UUIDs of fixed width give different names |
| `Api.PhotoExtension` | vagrant/catalog/catalog/views/api.py:240 | "Photo.JPG" has extension ".jpg" |
| `Api.PhotoSplit` | vagrant/catalog/catalog/views/api.py:240 | `splitext("Photo.JPG")[1]` is ".JPG" |
| `Api.UpperJpgNormalised` | vagrant/catalog/catalog/views/api.py:240 | ".JPG" strips and lowers to ".jpg" |
| `Api.UpperJpgStripped` | vagrant/catalog/catalog/views/api.py:240 | ".JPG" is unchanged by `strip()` |
| `Api.UpperJpgLowered` | vagrant/catalog/catalog/views/api.py:240 | ".JPG" lowers to ".jpg" |
| `Api.UploadNameExample` | vagrant/catalog/catalog/views/api.py:225-249 | "Photo.JPG" is stored as `<stamp>_<uuid>_.jpg` |
| `Api.GetImageUrl` | vagrant/catalog/catalog/views/api.py:257-267 | the placeholder iff there is no file name or it is empty; else the image route |
| `Api.UploadedImageIsServed` | vagrant/catalog/catalog/views/api.py:93-100 | a stored upload is always addressed through the image route |
| `Api.ViewCatalog` | vagrant/catalog/catalog/views/api.py:41-52 | every category, each once; every item, sorted by name as a permutation; exactly min(10, item count) latest items, drawn from the stored rows (a sub-multiset) with no item twice, newest first, none left out newer than one shown |
| `Api.ViewCategory` | vagrant/catalog/catalog/views/api.py:55-63 | 404 iff the category is unknown; else exactly its items, each once, by ascending id |
| `Api.ViewItem` | vagrant/catalog/catalog/views/api.py:66-73 | 404 iff the item is unknown; else that item's page |
| `Api.SessionUserId` | vagrant/catalog/catalog/views/api.py:200 | the session's integer `user_id`, if any |
| `Api.OwnedItems` | vagrant/catalog/catalog/views/api.py:203 | the user's items sorted by name: a permutation of the filtered rows, each once, exactly the stored items they own |
| `Api.UserProfile` | vagrant/catalog/catalog/views/api.py:196-204 | behind the guard: the session user and exactly the items they own, each once (a permutation of the filtered rows), sorted by name; 500 when `user_id` is missing or unknown |
| `Api.StoredImage` | vagrant/catalog/catalog/views/api.py:93-100 | no image iff no file was chosen; otherwise the generated name of the secured file name, never empty |
| `Api.NewItem` | vagrant/catalog/catalog/views/api.py:80-114 | the store changes only for a signed-in, valid post. Then exactly one item is added under the next id, with the form's fields, the session user as owner and created = updated = now. A missing `user_id` changes nothing; an unknown one consumes the id only. Invariants kept |
| `Api.Edited` | vagrant/catalog/catalog/views/api.py:148-156 | name, description and category come from the form; the image changes only on a new upload; id, owner and creation are kept; `updated` is the old value when no column changed and now otherwise |
| `Api.EditWithSameValuesIsNoOp` | catalog/catalog/models.py:115 | resubmitting an item's own values without an upload leaves the row, `updated` included, unchanged |
| `Api.EditItem` | vagrant/catalog/catalog/views/api.py:116-160 | 404, 500 or the item page for a non-owner, all leaving the store as it was; only the owner's valid post replaces the row with `Edited`, and the keys stay the same |
| `Api.DeleteItem` | vagrant/catalog/catalog/views/api.py:162-189 | same guards; only the owner's post with a valid CSRF token removes exactly that item |
| `Data.SerializeAll` | vagrant/catalog/catalog/views/data.py:30-31 | the list comprehension serializes each row in place |
| `Data.CategoryListed` | vagrant/catalog/catalog/views/data.py:30 | a category's dictionary is listed iff the category is one of the rows |
| `Data.ItemListed` | vagrant/catalog/catalog/views/data.py:31 | an item's dictionary is listed iff some row serializes to it |
| `Data.StoredItemJsonInjective` | catalog/catalog/models.py:121-130 | two stored items with the same dictionary are the same row |
| `Data.UserListed` | vagrant/catalog/catalog/views/data.py:63 | a user's dictionary is listed iff the user is one of the rows |
| `Data.SelectionSerialized` | vagrant/catalog/catalog/views/data.py:40-42 | serializing the stored items a filter keeps gives exactly their dictionaries, each once |
| `Data.CategoriesSerializedOnce` | vagrant/catalog/catalog/views/data.py:30 | categories with distinct ids serialize to distinct dictionaries |
| `Data.ItemsSerializedOnce` | vagrant/catalog/catalog/views/data.py:31 | items with distinct ids serialize to distinct dictionaries |
| `Data.UsersSerializedOnce` | vagrant/catalog/catalog/views/data.py:63 | users with distinct ids serialize to distinct dictionaries |
| `Data.CatalogJson` | vagrant/catalog/catalog/views/data.py:25-31 | the categories list holds exactly the stored categories' dictionaries, each once, and nothing else; the items list likewise for items |
| `Data.CategoryJsonResponse` | vagrant/catalog/catalog/views/data.py:33-42 | 404 iff the category is unknown; else it and exactly the dictionaries of the stored items of that category, each once, nothing else |
| `Data.ItemJsonResponse` | vagrant/catalog/catalog/views/data.py:44-51 | 404 iff the item is unknown; else exactly the item's flat dictionary under `item`, which reads back as the row |
| `Data.UsersJson` | vagrant/catalog/catalog/views/data.py:53-63 | behind the guard, exactly the stored users' dictionaries, each once, and nothing else |
| `Data.FeedItems` | vagrant/catalog/catalog/views/data.py:97 | the feed's selection holds stored items only, drawn from the rows as a sub-multiset |
| `Data.FeedItemsAreLatest` | vagrant/catalog/catalog/views/data.py:86-97 | exactly min(5, item count) items, newest first, no two with the same id; no stored item left out is newer than one selected |
| `Data.StoredItemHasOwnerAndCategory` | catalog/catalog/models.py:111-117 | a stored item's category and owner exist, so `item.category` and `item.user` resolve |
| `Data.AddEntries` | vagrant/catalog/catalog/views/data.py:98-106 | one entry per selected item, in order, with title, content, author, link and times; no feed iff some description is missing |
| `Data.RecentAtomFeed` | vagrant/catalog/catalog/views/data.py:92-107 | 500 iff a selected item has no description; else its entries, exactly min(5, item count) of them, newest first, no two linking to the same item |
| `Data.EntriesNewestFirst` | vagrant/catalog/catalog/views/data.py:97-106 | entries made from a newest-first selection are newest first |
| `Data.LeftOutIsOlder` | vagrant/catalog/catalog/views/data.py:97-106 | an item that no entry links to is no newer than any entry |

## Left out

- Templates, flash messages, `url_for` and response headers are left out. A page is the data handed to its template. A URL names its route.
- The logout route is left out. It only redirects to `google_disconnect`.
- WTForms form processing is left out. The form's data is taken as already bound, including the item's values that pre-fill the edit form on a GET. A `category_id` that does not coerce to an integer is None.
- The CSRF token mechanics are left out. The token's verdict is a boolean.
- Saving the upload to disk and `view_image` (`send_from_directory`) are left out. The file system is not modelled.
- `secure_filename` is an opaque function parameter. `datetime.now`, `strftime` and `uuid4` are parameters too.
- `strip()` and `lower()` act on ASCII only: no Unicode whitespace, no Unicode case mapping.
- Names sort by code point. The database's collation is not modelled.
- A query without `order_by` lists rows by ascending id. The database promises no order.
- Concurrency is left out: requests are sequential. The module-level SQLAlchemy session is left out too, including the rollback it would need after a failed commit.
- `Auth.GoogleConnect`: the OAuth exchange, the tokeninfo and userinfo HTTP calls and their JSON decoding are parameters. A userinfo reply missing `name`, `picture` or `email` is not modelled. `generate_random_string` is left out; nothing in the core calls it.
- `Auth.GoogleDisconnect`: the revoke request is a parameter, None when it raises. Its status code only decides the `print`, which is left out.
- `Data.RecentAtomFeed`: the XML rendering of the feed, `make_external`/`urljoin` and `request.url` are left out. An entry keeps the route of the item's page.
- `Api.NewItem`, `Api.EditItem`: the 400 raised when the request has no `image` file part is left out. No file means an empty file name.
- `Api.NewItem`, `Api.UserProfile`: a session `user_id` that is missing or not an integer is answered with the 500 page.
- `Api.EditItem`, `Api.DeleteItem`: the owner test compares the session's `user_id` value to the item's owner. A missing `user_id` is the 500 page.
- `populate_database.py` is not part of this model.
- `Users.CreateUser`: assumes that PostgreSQL draws the SERIAL id before it checks the column lengths, so a failed insert still advances the counter. The code does not settle this.
- `google_connect` does not roll back the session when `create_user` fails after the profile was written. The application is meant to leave no state half-changed after a failed request. The model follows the code: `Auth.GoogleConnect` states that the written profile stays.
- `Api.Edited`: SQLAlchemy's `onupdate` fires only when an UPDATE is issued. The model therefore refreshes `updated` only when some column value changed, not on every commit.
