/**
 * What a request handler hands back, and the server-side session it reads.
 * Templates, flash messages and URL building are not modelled: a page is the
 * data passed to its template and a URL names the route it points to.
 */
module Http {
  import opened Models

  datatype Url =
    | CatalogHome                 // api.view_catalog
    | ViewItemUrl(itemId: int)    // api.view_item
    | ImageUrl(filename: string)  // api.view_image
    | LoginUrl(next: string)      // auth.login with ?next=
    | Literal(text: string)       // a URL given as text

  datatype Page =
    | CatalogPage(categories: seq<Category>, items: seq<Item>, latest: seq<Item>)
    | CategoryPage(category: Category, categoryItems: seq<Item>)
    | ItemPage(item: Item)
    | NewItemForm
    | EditItemForm(editing: Item)
    | DeleteItemForm(deleting: Item)
    | ProfilePage(user: User, owned: seq<Item>)
    | LoginPage(next: Url)

  /** One entry of the Atom feed (`feed.add`); the link is the external URL of the item's page. */
  datatype AtomEntry = AtomEntry(
    title: string,
    content: string,
    author: string,
    link: Url,
    updated: int,
    published: int)

  datatype Response =
    | Render(page: Page)
    | Redirect(to: Url)
    | NotFound                               // abort(404)
    | ServerError                            // an uncaught exception, answered with the 500 page
    | JsonResponse(status: int, body: Json)
    | Html(status: int, text: string)
    | Feed(entries: seq<AtomEntry>)

  /** Session values: the catalog stores strings and the integer user id. */
  datatype SessionValue = SStr(s: string) | SInt(i: int)

  /** Flask's `session`, a dictionary that handlers update key by key. */
  class Session {
    var entries: map<string, SessionValue>

    constructor ()
      ensures entries == map[]
    {
      entries := map[];
    }
  }
}
