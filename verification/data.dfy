/**
 * The catalog as data: the JSON endpoints and the Atom feed of recently
 * updated items. The feed's XML and the external form of its links are not
 * modelled; an entry is the record handed to `feed.add`.
 */
module Data {
  import opened Wrappers
  import opened Models
  import opened Tables
  import opened Ordering
  import opened Http
  import opened Auth

  /** `ATOM_FEED_SIZE`. */
  const AtomFeedSize: nat := 5

  /** A list comprehension `[x.serialize for x in rows]`. */
  function SerializeAll<T>(rows: seq<T>, serialize: T -> Json): (js: seq<Json>)
    ensures |js| == |rows|
    ensures forall i :: 0 <= i < |rows| ==> js[i] == serialize(rows[i])
  {
    seq(|rows|, i requires 0 <= i < |rows| => serialize(rows[i]))
  }

  /** A serialized category is in the list exactly when the category is one of the rows. */
  lemma {:induction false} CategoryListed(rows: seq<Category>, c: Category)
    ensures CategoryJson(c) in SerializeAll(rows, CategoryJson) <==> c in rows
  {
    var js := SerializeAll(rows, CategoryJson);
    if CategoryJson(c) in js {
      var i :| 0 <= i < |js| && js[i] == CategoryJson(c);
      CategoryJsonRoundTrip(c);
      CategoryJsonRoundTrip(rows[i]);
    }
    if c in rows {
      var i :| 0 <= i < |rows| && rows[i] == c;
      assert js[i] == CategoryJson(c);
    }
  }

  lemma {:induction false} ItemListed(rows: seq<Item>, it: Item)
    ensures ItemJson(it) in SerializeAll(rows, ItemJson) <==> exists r :: r in rows && ItemJson(r) == ItemJson(it)
  {
    var js := SerializeAll(rows, ItemJson);
    if ItemJson(it) in js {
      var i :| 0 <= i < |js| && js[i] == ItemJson(it);
      assert rows[i] in rows && ItemJson(rows[i]) == ItemJson(it);
    }
    if exists r :: r in rows && ItemJson(r) == ItemJson(it) {
      var r :| r in rows && ItemJson(r) == ItemJson(it);
      var i :| 0 <= i < |rows| && rows[i] == r;
      assert js[i] == ItemJson(it);
    }
  }

  /** Two stored items with the same dictionary are the same row: the dictionary carries the id, and ids are keys. */
  lemma {:induction false} StoredItemJsonInjective(items: map<int, Item>, a: Item, b: Item)
    requires HasItem(items, a) && HasItem(items, b)
    requires ItemJson(a) == ItemJson(b)
    ensures a == b
  {
    assert ItemJson(a).fields["id"] == JInt(a.id);
    assert ItemJson(b).fields["id"] == JInt(b.id);
  }

  lemma {:induction false} UserListed(rows: seq<User>, u: User)
    ensures UserJson(u) in SerializeAll(rows, UserJson) <==> u in rows
  {
    var js := SerializeAll(rows, UserJson);
    if UserJson(u) in js {
      var i :| 0 <= i < |js| && js[i] == UserJson(u);
      UserJsonRoundTrip(u);
      UserJsonRoundTrip(rows[i]);
    }
    if u in rows {
      var i :| 0 <= i < |rows| && rows[i] == u;
      assert js[i] == UserJson(u);
    }
  }

  /** Categories listed by distinct ids serialize to distinct dictionaries: the dictionary reads back as the row. */
  lemma {:induction false} CategoriesSerializedOnce(rows: seq<Category>)
    requires forall i, j :: 0 <= i < j < |rows| ==> rows[i].id < rows[j].id
    ensures forall i, j :: 0 <= i < j < |rows| ==>
      SerializeAll(rows, CategoryJson)[i] != SerializeAll(rows, CategoryJson)[j]
  {
    forall i, j | 0 <= i < j < |rows|
      ensures SerializeAll(rows, CategoryJson)[i] != SerializeAll(rows, CategoryJson)[j]
    {
      CategoryJsonRoundTrip(rows[i]);
      CategoryJsonRoundTrip(rows[j]);
    }
  }

  /** Items listed by distinct ids serialize to distinct dictionaries: the dictionary carries the id. */
  lemma {:induction false} ItemsSerializedOnce(rows: seq<Item>)
    requires forall i, j :: 0 <= i < j < |rows| ==> rows[i].id < rows[j].id
    ensures forall i, j :: 0 <= i < j < |rows| ==> SerializeAll(rows, ItemJson)[i] != SerializeAll(rows, ItemJson)[j]
  {
    forall i, j | 0 <= i < j < |rows| ensures SerializeAll(rows, ItemJson)[i] != SerializeAll(rows, ItemJson)[j] {
      assert ItemJson(rows[i]).fields["id"] == JInt(rows[i].id);
      assert ItemJson(rows[j]).fields["id"] == JInt(rows[j].id);
    }
  }

  /** Users listed by distinct ids serialize to distinct dictionaries: the dictionary reads back as the row. */
  lemma {:induction false} UsersSerializedOnce(rows: seq<User>)
    requires forall i, j :: 0 <= i < j < |rows| ==> rows[i].id < rows[j].id
    ensures forall i, j :: 0 <= i < j < |rows| ==> SerializeAll(rows, UserJson)[i] != SerializeAll(rows, UserJson)[j]
  {
    forall i, j | 0 <= i < j < |rows| ensures SerializeAll(rows, UserJson)[i] != SerializeAll(rows, UserJson)[j] {
      UserJsonRoundTrip(rows[i]);
      UserJsonRoundTrip(rows[j]);
    }
  }

  /** `view_catalog_json`: every category and every item, serialized, each once. */
  function CatalogJson(db: Database): (r: Response)
    reads db
    requires db.Valid()
    ensures r.JsonResponse? && r.status == 200 && r.body.JObj?
    ensures r.body.fields.Keys == {"categories", "items"}
    ensures r.body.fields["categories"].JArr? && r.body.fields["items"].JArr?
    ensures forall c :: CategoryJson(c) in r.body.fields["categories"].elems <==> HasCategory(db.categories, c)
    ensures forall j :: j in r.body.fields["categories"].elems ==> exists c :: HasCategory(db.categories, c) && j == CategoryJson(c)
    ensures var cs := r.body.fields["categories"].elems; forall i, j :: 0 <= i < j < |cs| ==> cs[i] != cs[j]
    ensures forall it :: HasItem(db.items, it) ==> ItemJson(it) in r.body.fields["items"].elems
    ensures forall j :: j in r.body.fields["items"].elems ==> exists it :: HasItem(db.items, it) && j == ItemJson(it)
    ensures var js := r.body.fields["items"].elems; forall i, j :: 0 <= i < j < |js| ==> js[i] != js[j]
  {
    var cs := db.CategoryRows();
    var rows := db.ItemRows();
    CategoriesSerializedOnce(cs);
    ItemsSerializedOnce(rows);
    forall c ensures CategoryJson(c) in SerializeAll(cs, CategoryJson) <==> HasCategory(db.categories, c) {
      CategoryListed(cs, c);
    }
    forall it | HasItem(db.items, it) ensures ItemJson(it) in SerializeAll(rows, ItemJson) {
      ItemListed(rows, it);
    }
    JsonResponse(200, JObj(map["categories" := JArr(SerializeAll(cs, CategoryJson)),
                               "items" := JArr(SerializeAll(rows, ItemJson))]))
  }

  /** The filter `filter_by(category_id=categoryId)`. */
  function InCategory(categoryId: int): Item -> bool
  {
    (it: Item) => it.categoryId == categoryId
  }

  /**
   * Serializing the stored items that pass a filter, listed by ascending id,
   * gives exactly their dictionaries, each once.
   */
  lemma SelectionSerialized(items: map<int, Item>, rows: seq<Item>, keep: Item -> bool)
    requires forall it :: it in rows <==> HasItem(items, it) && keep(it)
    requires forall i, j :: 0 <= i < j < |rows| ==> rows[i].id < rows[j].id
    ensures var js := SerializeAll(rows, ItemJson);
      && (forall it :: HasItem(items, it) ==> (ItemJson(it) in js <==> keep(it)))
      && (forall j :: j in js ==> exists it :: HasItem(items, it) && keep(it) && j == ItemJson(it))
      && (forall i, j :: 0 <= i < j < |js| ==> js[i] != js[j])
  {
    var js := SerializeAll(rows, ItemJson);
    ItemsSerializedOnce(rows);
    forall it | HasItem(items, it) ensures ItemJson(it) in js <==> keep(it) {
      ItemListed(rows, it);
      if ItemJson(it) in js {
        var x :| x in rows && ItemJson(x) == ItemJson(it);
        StoredItemJsonInjective(items, x, it);
      }
    }
    forall j | j in js ensures exists it :: HasItem(items, it) && keep(it) && j == ItemJson(it) {
      var k :| 0 <= k < |js| && js[k] == j;
      assert rows[k] in rows;
    }
  }

  /** `view_category_json`: 404 for an unknown id; otherwise the category and exactly its items. */
  function CategoryJsonResponse(db: Database, categoryId: int): (r: Response)
    reads db
    requires db.Valid()
    ensures r == NotFound <==> categoryId !in db.categories
    ensures categoryId in db.categories ==>
      && r.JsonResponse? && r.status == 200 && r.body.JObj?
      && r.body.fields.Keys == {"category", "items"}
      && r.body.fields["category"] == CategoryJson(db.categories[categoryId])
      && r.body.fields["items"].JArr?
      && (forall it :: HasItem(db.items, it) ==>
            (ItemJson(it) in r.body.fields["items"].elems <==> it.categoryId == categoryId))
      && (forall j :: j in r.body.fields["items"].elems ==>
            exists it :: HasItem(db.items, it) && it.categoryId == categoryId && j == ItemJson(it))
      && (var js := r.body.fields["items"].elems; forall i, j :: 0 <= i < j < |js| ==> js[i] != js[j])
  {
    if categoryId !in db.categories then NotFound
    else
      var rows := ItemsWhere(db.ItemRows(), InCategory(categoryId));
      SelectionSerialized(db.items, rows, InCategory(categoryId));
      JsonResponse(200, JObj(map["category" := CategoryJson(db.categories[categoryId]),
                                 "items" := JArr(SerializeAll(rows, ItemJson))]))
  }

  /** `view_item_json`: 404 for an unknown id; otherwise the item's dictionary, which reads back as the row. */
  function ItemJsonResponse(db: Database, itemId: int): (r: Response)
    reads db
    requires db.Valid()
    ensures r == NotFound <==> itemId !in db.items
    ensures itemId in db.items ==>
      && r.JsonResponse? && r.status == 200 && r.body.JObj? && r.body.fields.Keys == {"item"}
      && r.body.fields["item"] == ItemJson(db.items[itemId])
      && ItemFromJson(r.body.fields["item"], db.items[itemId].created, db.items[itemId].updated) == Some(db.items[itemId])
  {
    if itemId !in db.items then NotFound
    else
      ItemJsonRoundTrip(db.items[itemId]);
      JsonResponse(200, JObj(map["item" := ItemJson(db.items[itemId])]))
  }

  /** `users_json` behind `login_required`: never served without a signed-in session; otherwise every user. */
  function UsersJson(db: Database, session: map<string, SessionValue>, requestUrl: string): (r: Response)
    reads db
    requires db.Valid()
    ensures !SignedIn(session) ==> r == Redirect(LoginUrl(requestUrl))
    ensures SignedIn(session) ==>
      && r.JsonResponse? && r.status == 200 && r.body.JObj? && r.body.fields.Keys == {"users"}
      && r.body.fields["users"].JArr?
      && (forall u :: UserJson(u) in r.body.fields["users"].elems <==> HasUser(db.users, u))
      && (forall j :: j in r.body.fields["users"].elems ==> exists u :: HasUser(db.users, u) && j == UserJson(u))
      && (var js := r.body.fields["users"].elems; forall i, j :: 0 <= i < j < |js| ==> js[i] != js[j])
  {
    var us := db.UserRows();
    UsersSerializedOnce(us);
    forall u ensures UserJson(u) in SerializeAll(us, UserJson) <==> HasUser(db.users, u) {
      UserListed(us, u);
    }
    LoginRequired(session, requestUrl, JsonResponse(200, JObj(map["users" := JArr(SerializeAll(us, UserJson))])))
  }

  /** The feed's selection: `order_by(Item.updated.desc()).limit(ATOM_FEED_SIZE)`, stored items only. */
  function FeedItems(db: Database): (sel: seq<Item>)
    reads db
    requires db.Valid()
    ensures forall k :: 0 <= k < |sel| ==> HasItem(db.items, sel[k])
    ensures multiset(sel) <= multiset(db.ItemRows())
  {
    var rows := db.ItemRows();
    var sel := Latest(rows, AtomFeedSize);
    forall k | 0 <= k < |sel| ensures HasItem(db.items, sel[k]) {
      assert sel[k] in multiset(rows);
    }
    sel
  }

  /**
   * The feed shows at most `ATOM_FEED_SIZE` items, newest first, each at
   * most once, and every stored item left out was updated no later than
   * every item shown.
   */
  lemma FeedItemsAreLatest(db: Database)
    requires db.Valid()
    ensures |FeedItems(db)| == if |db.ItemRows()| < AtomFeedSize then |db.ItemRows()| else AtomFeedSize
    ensures Sorted(FeedItems(db), ByUpdatedDesc)
    ensures forall i, j :: 0 <= i < j < |FeedItems(db)| ==> FeedItems(db)[i].id != FeedItems(db)[j].id
    ensures forall x, y :: HasItem(db.items, x) && x !in FeedItems(db) && y in FeedItems(db) ==> x.updated <= y.updated
  {
    var sel := FeedItems(db);
    assert sel == Latest(db.ItemRows(), AtomFeedSize);
    NoRepeatsDrawn(db.ItemRows(), sel);
    forall i, j | 0 <= i < j < |sel| ensures sel[i].id != sel[j].id {
      assert HasItem(db.items, sel[i]) && HasItem(db.items, sel[j]);
    }
  }

  /** The `feed.add` arguments for one item: its name, "name (category): description", owner, page, times. */
  ghost predicate EntryFor(db: Database, it: Item, e: AtomEntry)
    reads db
    requires it.categoryId in db.categories && it.userId in db.users && it.description.Some?
  {
    && e.title == it.name
    && e.content == it.name + " (" + db.categories[it.categoryId].name + "): " + it.description.value
    && e.author == db.users[it.userId].name
    && e.link == ViewItemUrl(it.id)
    && e.updated == it.updated
    && e.published == it.created
  }

  /** Every stored item names an existing category and owner. */
  lemma StoredItemHasOwnerAndCategory(db: Database, it: Item)
    requires db.Valid() && HasItem(db.items, it)
    ensures it.categoryId in db.categories && it.userId in db.users
  {
    assert ItemsOk(db.items, db.nextItemId, db.categories.Keys, db.users.Keys);
  }

  /** Each entry is the `feed.add` record of the selected item at the same position. */
  ghost predicate EntriesFor(db: Database, sel: seq<Item>, entries: seq<AtomEntry>)
    reads db
  {
    && |entries| == |sel|
    && forall i :: 0 <= i < |sel| ==>
         && sel[i].categoryId in db.categories && sel[i].userId in db.users && sel[i].description.Some?
         && EntryFor(db, sel[i], entries[i])
  }

  /**
   * The loop of `recent_atom_feed`: one `feed.add` per selected item, in
   * order. Concatenating a missing (NULL) description raises, which ends the
   * loop with no feed.
   */
  method AddEntries(db: Database, sel: seq<Item>) returns (entries: Option<seq<AtomEntry>>)
    requires db.Valid()
    requires forall k :: 0 <= k < |sel| ==> HasItem(db.items, sel[k])
    ensures entries.None? <==> exists k :: 0 <= k < |sel| && sel[k].description.None?
    ensures entries.Some? ==> EntriesFor(db, sel, entries.value)
  {
    var acc: seq<AtomEntry> := [];
    var i := 0;
    while i < |sel|
      invariant 0 <= i <= |sel|
      invariant forall k :: 0 <= k < i ==> sel[k].description.Some?
      invariant EntriesFor(db, sel[..i], acc)
    {
      var it := sel[i];
      StoredItemHasOwnerAndCategory(db, it);
      if it.description.None? {
        return None;
      }
      var content := it.name + " (" + db.categories[it.categoryId].name + "): " + it.description.value;
      acc := acc + [AtomEntry(it.name, content, db.users[it.userId].name, ViewItemUrl(it.id), it.updated, it.created)];
      assert sel[..i + 1] == sel[..i] + [it];
      i := i + 1;
    }
    assert sel[..i] == sel;
    entries := Some(acc);
  }

  /**
   * `recent_atom_feed`: the entries for `FeedItems`, at most
   * `ATOM_FEED_SIZE` of them, newest first; the 500 page when a selected
   * item has no description.
   */
  method RecentAtomFeed(db: Database) returns (r: Response)
    requires db.Valid()
    ensures r == ServerError <==> exists i :: 0 <= i < |FeedItems(db)| && FeedItems(db)[i].description.None?
    ensures r != ServerError ==> r.Feed? && EntriesFor(db, FeedItems(db), r.entries)
    ensures r.Feed? ==> |r.entries| == if |db.ItemRows()| < AtomFeedSize then |db.ItemRows()| else AtomFeedSize
    ensures r.Feed? ==> forall i, j :: 0 <= i < j < |r.entries| ==> r.entries[i].updated >= r.entries[j].updated
    ensures r.Feed? ==> forall i, j :: 0 <= i < j < |r.entries| ==> r.entries[i].link != r.entries[j].link
  {
    var sel := FeedItems(db);
    var entries := AddEntries(db, sel);
    assert sel == FeedItems(db);
    if entries.None? {
      return ServerError;
    }
    FeedItemsAreLatest(db);
    EntriesNewestFirst(db, sel, entries.value);
    assert forall k :: 0 <= k < |sel| ==> entries.value[k].link == ViewItemUrl(sel[k].id);
    r := Feed(entries.value);
  }

  /** Entries made from a selection sorted newest first are themselves newest first. */
  lemma EntriesNewestFirst(db: Database, sel: seq<Item>, entries: seq<AtomEntry>)
    requires EntriesFor(db, sel, entries) && Sorted(sel, ByUpdatedDesc)
    ensures forall i, j :: 0 <= i < j < |entries| ==> entries[i].updated >= entries[j].updated
  {
    assert forall k :: 0 <= k < |sel| ==> entries[k].updated == sel[k].updated;
  }

  /**
   * An item left out of the feed was updated no later than every item in it:
   * an item whose page no entry links to is not in the selection.
   */
  lemma LeftOutIsOlder(db: Database, entries: seq<AtomEntry>, x: Item)
    requires db.Valid() && EntriesFor(db, FeedItems(db), entries)
    requires HasItem(db.items, x) && forall k :: 0 <= k < |entries| ==> entries[k].link != ViewItemUrl(x.id)
    ensures forall k :: 0 <= k < |entries| ==> x.updated <= entries[k].updated
  {
    var sel := FeedItems(db);
    assert x !in sel by {
      forall k | 0 <= k < |sel| ensures sel[k] != x {
        assert entries[k].link == ViewItemUrl(sel[k].id);
      }
    }
    forall k | 0 <= k < |entries| ensures x.updated <= entries[k].updated {
      assert sel[k] in sel;
    }
  }
}
