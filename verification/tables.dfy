/**
 * The relational store behind the catalog: the `users`, `categories` and
 * `items` tables, each a map from primary key to row, with the SERIAL counter
 * that hands out the next key.
 */
module Tables {
  import opened Models

  /** The keys of `m` below `n` in ascending order: how rows are listed when a query has no `order_by`. */
  function KeysBelow<V>(m: map<int, V>, n: int): (ks: seq<int>)
    ensures forall i, j :: 0 <= i < j < |ks| ==> ks[i] < ks[j]
    ensures forall k :: k in ks <==> k in m && 0 <= k < n
    decreases n
  {
    if n <= 0 then []
    else
      var lower := KeysBelow(m, n - 1);
      assert forall i :: 0 <= i < |lower| ==> lower[i] in lower;
      lower + (if n - 1 in m then [n - 1] else [])
  }

  /** The rows stored under the keys `ks`, in that order. */
  function RowsAt<V>(m: map<int, V>, ks: seq<int>): (rs: seq<V>)
    requires forall i :: 0 <= i < |ks| ==> ks[i] in m
  {
    seq(|ks|, i requires 0 <= i < |ks| => m[ks[i]])
  }

  /** Counter starts at 1; keys are positive, below the counter and equal to the row's id; rows fit their columns. */
  ghost predicate UsersOk(users: map<int, User>, next: int)
  {
    0 < next && forall k :: k in users ==> 0 < k < next && users[k].id == k && UserFits(users[k])
  }

  ghost predicate CategoriesOk(categories: map<int, Category>, next: int)
  {
    0 < next && forall k :: k in categories ==> 0 < k < next && categories[k].id == k && CategoryFits(categories[k])
  }

  /** As for users, and every item's foreign keys name existing categories and users. */
  ghost predicate ItemsOk(items: map<int, Item>, next: int, categoryIds: set<int>, userIds: set<int>)
  {
    0 < next && forall k :: k in items ==>
      && 0 < k < next && items[k].id == k && ItemFits(items[k])
      && items[k].categoryId in categoryIds && items[k].userId in userIds
  }

  /** The table holds `u` under its own id. */
  predicate HasUser(users: map<int, User>, u: User)
  {
    u.id in users && users[u.id] == u
  }

  predicate HasCategory(categories: map<int, Category>, c: Category)
  {
    c.id in categories && categories[c.id] == c
  }

  predicate HasItem(items: map<int, Item>, it: Item)
  {
    it.id in items && items[it.id] == it
  }

  class Database {
    var users: map<int, User>
    var categories: map<int, Category>
    var items: map<int, Item>
    var nextUserId: int
    var nextCategoryId: int
    var nextItemId: int

    /** The table invariants of `UsersOk`, `CategoriesOk` and `ItemsOk` hold of the current state. */
    ghost predicate Valid()
      reads this
    {
      && UsersOk(users, nextUserId)
      && CategoriesOk(categories, nextCategoryId)
      && ItemsOk(items, nextItemId, categories.Keys, users.Keys)
    }

    /** An empty database whose counters start at 1. */
    constructor ()
      ensures Valid()
      ensures users == map[] && categories == map[] && items == map[]
      ensures nextUserId == 1 && nextCategoryId == 1 && nextItemId == 1
    {
      users, categories, items := map[], map[], map[];
      nextUserId, nextCategoryId, nextItemId := 1, 1, 1;
    }

    /** `db.query(User).all()`. */
    function UserRows(): (rs: seq<User>)
      reads this
      requires Valid()
      ensures forall u :: u in rs <==> HasUser(users, u)
      ensures forall i, j :: 0 <= i < j < |rs| ==> rs[i].id < rs[j].id
    {
      var ks := KeysBelow(users, nextUserId);
      RowsAtKeys(users, nextUserId);
      RowsAt(users, ks)
    }

    /** `db.query(Category).all()`. */
    function CategoryRows(): (rs: seq<Category>)
      reads this
      requires Valid()
      ensures forall c :: c in rs <==> HasCategory(categories, c)
      ensures forall i, j :: 0 <= i < j < |rs| ==> rs[i].id < rs[j].id
    {
      var ks := KeysBelow(categories, nextCategoryId);
      RowsAtKeys(categories, nextCategoryId);
      RowsAt(categories, ks)
    }

    /** `db.query(Item).all()`: every item exactly once, by ascending id. */
    function ItemRows(): (rs: seq<Item>)
      reads this
      requires Valid()
      ensures forall it :: it in rs <==> HasItem(items, it)
      ensures forall i, j :: 0 <= i < j < |rs| ==> rs[i].id < rs[j].id
    {
      var ks := KeysBelow(items, nextItemId);
      RowsAtKeys(items, nextItemId);
      RowsAt(items, ks)
    }
  }

  /** Listing the rows under the keys below `n` gives, position by position, the row of each key, and every such row. */
  lemma RowsAtKeys<V>(m: map<int, V>, n: int)
    ensures var ks := KeysBelow(m, n);
      && (forall i :: 0 <= i < |ks| ==> ks[i] in m && RowsAt(m, ks)[i] == m[ks[i]])
      && (forall k :: k in m && 0 <= k < n ==> m[k] in RowsAt(m, ks))
  {
    var ks := KeysBelow(m, n);
    forall k | k in m && 0 <= k < n ensures m[k] in RowsAt(m, ks) {
      assert RowsAt(m, ks)[IndexOf(ks, k)] == m[k];
    }
  }

  /** Position of `k` in a sequence that holds it. */
  function IndexOf(ks: seq<int>, k: int): (i: nat)
    requires k in ks
    ensures i < |ks| && ks[i] == k
  {
    if ks[0] == k then 0 else 1 + IndexOf(ks[1..], k)
  }

  /** `filter_by(...)` on a listing: the rows that pass, in the order they came. */
  function ItemsWhere(rows: seq<Item>, keep: Item -> bool): (r: seq<Item>)
    ensures forall it :: it in r <==> it in rows && keep(it)
    ensures |r| <= |rows|
    ensures (forall i, j :: 0 <= i < j < |rows| ==> rows[i].id < rows[j].id) ==>
              forall i, j :: 0 <= i < j < |r| ==> r[i].id < r[j].id
  {
    if rows == [] then []
    else
      var rest := ItemsWhere(rows[1..], keep);
      assert forall it :: it in rows <==> it == rows[0] || it in rows[1..];
      assert forall i :: 0 <= i < |rest| ==> rest[i] in rows[1..];
      if keep(rows[0]) then [rows[0]] + rest else rest
  }
}
