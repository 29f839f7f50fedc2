/**
 * The three tables of the catalog (users, categories, items), their column
 * constraints, and the flat dictionaries their `serialize` properties return.
 */
module Models {
  import opened Wrappers

  /** A JSON value as `jsonify` and `json.dumps` produce it. */
  datatype Json =
    | JNull
    | JInt(n: int)
    | JStr(s: string)
    | JArr(elems: seq<Json>)
    | JObj(fields: map<string, Json>)

  /** A value that holds no nested array or object. */
  predicate Scalar(j: Json)
  {
    j.JNull? || j.JInt? || j.JStr?
  }

  /** A dictionary whose every value is a scalar: a flat record. */
  predicate Flat(j: Json)
  {
    j.JObj? && forall k :: k in j.fields ==> Scalar(j.fields[k])
  }

  function OptStr(s: Option<string>): Json
  {
    if s.Some? then JStr(s.value) else JNull
  }

  /** Reads back a JSON string or null as an optional string. */
  function StrOpt(j: Json): Option<Option<string>>
  {
    match j
    case JNull => Some(None)
    case JStr(s) => Some(Some(s))
    case _ => None
  }

  /** A row of `users`. Instants and ids are integers; `picture` is the nullable column. */
  datatype User = User(id: int, name: string, email: string, picture: Option<string>)

  /** A row of `categories`. */
  datatype Category = Category(id: int, name: string)

  /**
   * A row of `items`. `description` and `image` are nullable columns;
   * `created` and `updated` are clock instants supplied by the caller.
   */
  datatype Item = Item(
    id: int,
    name: string,
    description: Option<string>,
    image: Option<string>,
    categoryId: int,
    created: int,
    updated: int,
    userId: int)

  /** `users.name` and `users.email` are VARCHAR(256) NOT NULL; `picture` is unbounded and nullable. */
  predicate UserFits(u: User)
  {
    |u.name| <= 256 && |u.email| <= 256
  }

  /** `categories.name` is VARCHAR(120) NOT NULL. */
  predicate CategoryFits(c: Category)
  {
    |c.name| <= 120
  }

  /** `items.name` is VARCHAR(120) NOT NULL; the foreign keys are NOT NULL integers. */
  predicate ItemFits(it: Item)
  {
    |it.name| <= 120
  }

  /** `User.serialize`. */
  function UserJson(u: User): (j: Json)
    ensures Flat(j)
    ensures j.fields.Keys == {"id", "name", "email", "picture"}
  {
    JObj(map["id" := JInt(u.id), "name" := JStr(u.name), "email" := JStr(u.email), "picture" := OptStr(u.picture)])
  }

  /** `Category.serialize`. */
  function CategoryJson(c: Category): (j: Json)
    ensures Flat(j)
    ensures j.fields.Keys == {"id", "name"}
  {
    JObj(map["id" := JInt(c.id), "name" := JStr(c.name)])
  }

  /**
   * `Item.serialize`: the foreign keys appear as plain ids, never as nested
   * category or user objects, and the two timestamps are not included.
   */
  function ItemJson(it: Item): (j: Json)
    ensures Flat(j)
    ensures j.fields.Keys == {"id", "name", "description", "image", "category_id", "user_id"}
  {
    JObj(map[
      "id" := JInt(it.id),
      "name" := JStr(it.name),
      "description" := OptStr(it.description),
      "image" := OptStr(it.image),
      "category_id" := JInt(it.categoryId),
      "user_id" := JInt(it.userId)])
  }

  /** What a client of the JSON API reads back from a serialized user. */
  function UserFromJson(j: Json): Option<User>
  {
    if j.JObj? && "id" in j.fields && "name" in j.fields && "email" in j.fields && "picture" in j.fields
       && j.fields["id"].JInt? && j.fields["name"].JStr? && j.fields["email"].JStr?
       && StrOpt(j.fields["picture"]).Some?
    then Some(User(j.fields["id"].n, j.fields["name"].s, j.fields["email"].s, StrOpt(j.fields["picture"]).value))
    else None
  }

  function CategoryFromJson(j: Json): Option<Category>
  {
    if j.JObj? && "id" in j.fields && "name" in j.fields && j.fields["id"].JInt? && j.fields["name"].JStr?
    then Some(Category(j.fields["id"].n, j.fields["name"].s))
    else None
  }

  /** Reads back a serialized item; the timestamps are not in the dictionary and are supplied. */
  function ItemFromJson(j: Json, created: int, updated: int): Option<Item>
  {
    if j.JObj? && "id" in j.fields && "name" in j.fields && "description" in j.fields && "image" in j.fields
       && "category_id" in j.fields && "user_id" in j.fields
       && j.fields["id"].JInt? && j.fields["name"].JStr? && StrOpt(j.fields["description"]).Some?
       && StrOpt(j.fields["image"]).Some? && j.fields["category_id"].JInt? && j.fields["user_id"].JInt?
    then Some(Item(j.fields["id"].n, j.fields["name"].s, StrOpt(j.fields["description"]).value,
                   StrOpt(j.fields["image"]).value, j.fields["category_id"].n,
                   created, updated, j.fields["user_id"].n))
    else None
  }

  /** Every column of a user is copied into its dictionary. */
  lemma UserJsonRoundTrip(u: User)
    ensures UserFromJson(UserJson(u)) == Some(u)
  {
  }

  lemma CategoryJsonRoundTrip(c: Category)
    ensures CategoryFromJson(CategoryJson(c)) == Some(c)
  {
  }

  /** Every column of an item except the two timestamps is copied into its dictionary. */
  lemma ItemJsonRoundTrip(it: Item)
    ensures ItemFromJson(ItemJson(it), it.created, it.updated) == Some(it)
  {
  }
}
