/**
 * The item routes of the Flask application (app.py) over an in-memory
 * store: each handler is a method that answers with the JSON envelope it
 * sends and its HTTP status, and changes the item table as the handler's
 * database statements would.
 */
module App {
  import opened Wrappers
  import opened Models
  import opened Tables
  import opened Pagination

  /** The JSON body of a create or patch request; absent and null are `None`. */
  datatype ItemBody = ItemBody(
    title: Option<string>, brand: Option<string>,
    category: Option<int>, comment: Option<string>)
  {
    /** All four columns are present. */
    predicate Complete()
    {
      title.Some? && brand.Some? && category.Some? && comment.Some?
    }
  }

  /** The item a complete body describes. */
  function ItemOf(body: ItemBody): (x: Item)
    requires body.Complete()
    ensures x.title == body.title.value && x.brand == body.brand.value
    ensures x.category == body.category.value && x.comment == body.comment.value
  {
    Item(body.title.value, body.brand.value, body.category.value, body.comment.value)
  }

  /**
   * What the `requires_auth` decorator decided before the handler runs:
   * the request may go on, or it raised an `AuthError` with this status code
   * and error.
   */
  datatype Auth = Granted | Denied(statusCode: int, error: string)

  /** The JSON envelopes the routes send. */
  datatype Response =
    | CategoryList(categories: map<int, string>)
    | ItemPage(categories: map<int, string>, items: seq<Row<Item>>, totalItems: nat)
    | Created(items: seq<Row<Item>>, totalItems: nat)
    /** `item` is the envelope's `items` key, which holds the one updated row. */
    | Updated(updated: int, item: Row<Item>, totalItems: nat)
    | Deleted(deleted: int, items: seq<Row<Item>>, totalItems: nat)
    | Failure(status: int, error: int, message: string)
    /**
     * An exception no `try` catches: no 500 handler is registered, so Flask
     * sends its default error page, which is not a JSON envelope.
     */
    | InternalServerError
  {
    /** The HTTP status the response goes out with. */
    function Status(): int
    {
      if Failure? then status else if InternalServerError? then 500 else 200
    }

    /** The response is an envelope whose `success` field is true. */
    predicate Success()
    {
      !Failure? && !InternalServerError?
    }
  }

  /** The 404 handler's envelope. */
  function NotFound(): Response
  {
    Failure(404, 404, "resource not found")
  }

  /** The 422 handler's envelope. */
  function Unprocessable(): Response
  {
    Failure(422, 422, "unprocessable")
  }

  /** The 400 handler's envelope. */
  function BadRequest(): Response
  {
    Failure(400, 400, "bad request")
  }

  /** The `AuthError` handler: HTTP 401, whatever code the error carries. */
  function HandleAuthError(statusCode: int, error: string): (r: Response)
    ensures r.Status() == 401 && !r.Success()
    ensures r.error == statusCode && r.message == error
  {
    Failure(401, statusCode, error)
  }

  /** An error envelope: `success` is false and `error` repeats the status. */
  predicate IsErrorEnvelope(r: Response)
  {
    r.Failure? && r.error == r.Status()
  }

  /** The 404, 422 and 400 envelopes and their messages. */
  lemma ErrorEnvelopes()
    ensures IsErrorEnvelope(NotFound()) && NotFound().Status() == 404
    ensures NotFound().message == "resource not found"
    ensures IsErrorEnvelope(Unprocessable()) && Unprocessable().Status() == 422
    ensures Unprocessable().message == "unprocessable"
    ensures IsErrorEnvelope(BadRequest()) && BadRequest().Status() == 400
    ensures BadRequest().message == "bad request"
  {
  }

  /** The `{category.id: category.type}` map of the category table. */
  function CategoryTypes(categories: map<int, Category>): (m: map<int, string>)
    ensures m.Keys == categories.Keys
    ensures forall id :: id in categories ==> m[id] == categories[id].typeName
  {
    map id | id in categories :: categories[id].typeName
  }

  /** The `categories` and `items` tables. */
  class Store {
    var categories: map<int, Category>
    var items: map<int, Item>
    /** The next key the items' primary-key sequence hands out. */
    var nextItemId: int

    function ItemTable(): Table<Item>
      reads this
    {
      Table(items, nextItemId)
    }

    ghost predicate Valid()
      reads this
    {
      ItemTable().Valid()
    }

    constructor(categories: map<int, Category>, items: map<int, Item>, nextItemId: int)
      requires Table(items, nextItemId).Valid()
      ensures Valid()
      ensures this.categories == categories && this.items == items && this.nextItemId == nextItemId
    {
      this.categories := categories;
      this.items := items;
      this.nextItemId := nextItemId;
    }

    /** `GET /categories`: 404 exactly when there is no category. */
    method GetCategories() returns (r: Response)
      ensures r.Status() == 404 <==> categories == map[]
      ensures categories == map[] ==> r == NotFound()
      ensures categories != map[] ==> r == CategoryList(CategoryTypes(categories))
    {
      if |categories| == 0 {
        return NotFound();
      }
      return CategoryList(CategoryTypes(categories));
    }

    /**
     * `GET /items?page=p`: the page query raises, outside any `try`, when
     * its offset is refused; otherwise 404 exactly when page p of the items
     * is empty, and else that page, the categories and the count of all items.
     */
    method GetItems(arg: PageArg) returns (r: Response)
      requires Valid()
      ensures r.Status() == 500 <==> !OffsetAccepted(PageNumber(arg), ItemsPerPage)
      ensures r.Status() == 404 <==>
        OffsetAccepted(PageNumber(arg), ItemsPerPage) && (PageNumber(arg) - 1) * ItemsPerPage >= |items|
      ensures !OffsetAccepted(PageNumber(arg), ItemsPerPage) ==> r == InternalServerError
      ensures r.Status() == 404 ==> r == NotFound()
      ensures OffsetAccepted(PageNumber(arg), ItemsPerPage) && (PageNumber(arg) - 1) * ItemsPerPage < |items| ==>
        r == ItemPage(CategoryTypes(categories), PaginateItems(ItemTable(), arg).value, |items|)
    {
      var page := PaginateItems(ItemTable(), arg);
      if page.None? {
        return InternalServerError;
      }
      if |page.value| == 0 {
        return NotFound();
      }
      return ItemPage(CategoryTypes(categories), page.value, |items|);
    }

    /**
     * `POST /items`: a body lacking any of the four columns gets 422 and
     * nothing changes, and so does one the database refuses to store;
     * otherwise one row is inserted under the next key and committed. The
     * response then carries the requested page and the new count, or is 422
     * when the page query raises, with the row already committed.
     */
    method CreateItem(auth: Auth, body: ItemBody, arg: PageArg) returns (r: Response)
      requires Valid()
      modifies this
      ensures Valid() && categories == old(categories)
      ensures auth.Denied? ==>
        r == HandleAuthError(auth.statusCode, auth.error) && ItemTable() == old(ItemTable())
      ensures auth.Granted? && !body.Complete() ==>
        r == Unprocessable() && ItemTable() == old(ItemTable())
      ensures auth.Granted? && body.Complete() && !Storable(ItemOf(body)) ==>
        r == Unprocessable() && ItemTable() == old(ItemTable())
      ensures auth.Granted? && body.Complete() && Storable(ItemOf(body)) ==>
        ItemTable() == Insert(old(ItemTable()), ItemOf(body))
      ensures auth.Granted? && body.Complete() && Storable(ItemOf(body)) ==>
        r == (if OffsetAccepted(PageNumber(arg), ItemsPerPage)
              then Created(PaginateItems(ItemTable(), arg).value, |items|)
              else Unprocessable())
    {
      if auth.Denied? {
        return HandleAuthError(auth.statusCode, auth.error);
      }
      if !body.Complete() || !Storable(ItemOf(body)) {
        return Unprocessable();
      }
      var t := Insert(ItemTable(), ItemOf(body));
      items, nextItemId := t.rows, t.nextId;
      var page := PaginateItems(t, arg);
      if page.None? {
        return Unprocessable();
      }
      r := Created(page.value, |items|);
    }

    /**
     * `PATCH /items/<id>`: 422 when a column is missing from the body, when
     * no item has that id, and when the database refuses the new values;
     * otherwise the four columns of that one row are overwritten.
     */
    method ModifyItem(auth: Auth, id: int, body: ItemBody) returns (r: Response)
      requires Valid()
      modifies this
      ensures Valid() && categories == old(categories)
      ensures auth.Denied? ==>
        r == HandleAuthError(auth.statusCode, auth.error) && ItemTable() == old(ItemTable())
      ensures auth.Granted? && (!body.Complete() || id !in old(items)) ==>
        r == Unprocessable() && ItemTable() == old(ItemTable())
      ensures auth.Granted? && body.Complete() && !Storable(ItemOf(body)) ==>
        r == Unprocessable() && ItemTable() == old(ItemTable())
      ensures auth.Granted? && body.Complete() && id in old(items) && Storable(ItemOf(body)) ==>
        ItemTable() == Update(old(ItemTable()), id, ItemOf(body)) &&
        r == Updated(id, Row(id, ItemOf(body)), |items|)
    {
      if auth.Denied? {
        return HandleAuthError(auth.statusCode, auth.error);
      }
      if !body.Complete() || id !in items || !Storable(ItemOf(body)) {
        return Unprocessable();
      }
      var t := Update(ItemTable(), id, ItemOf(body));
      items := t.rows;
      r := Updated(id, Row(id, items[id]), |items|);
    }

    /**
     * `DELETE /items/<id>`: 404 when no item has that id; otherwise exactly
     * that row is deleted and committed, and the response carries the
     * requested page and the new count, or is 422 when the page query
     * raises, with the row already gone.
     */
    method DeleteItem(auth: Auth, id: int, arg: PageArg) returns (r: Response)
      requires Valid()
      modifies this
      ensures Valid() && categories == old(categories)
      ensures auth.Denied? ==>
        r == HandleAuthError(auth.statusCode, auth.error) && ItemTable() == old(ItemTable())
      ensures auth.Granted? && id !in old(items) ==>
        r == NotFound() && ItemTable() == old(ItemTable())
      ensures auth.Granted? && id in old(items) ==>
        ItemTable() == Remove(old(ItemTable()), id)
      ensures auth.Granted? && id in old(items) ==>
        r == (if OffsetAccepted(PageNumber(arg), ItemsPerPage)
              then Deleted(id, PaginateItems(ItemTable(), arg).value, |items|)
              else Unprocessable())
    {
      if auth.Denied? {
        return HandleAuthError(auth.statusCode, auth.error);
      }
      if id !in items {
        return NotFound();
      }
      var t := Remove(ItemTable(), id);
      items := t.rows;
      var page := PaginateItems(t, arg);
      if page.None? {
        return Unprocessable();
      }
      r := Deleted(id, page.value, |items|);
    }
  }

  /** Deleting the same item twice: the second request finds nothing. */
  method DeleteTwice(s: Store, id: int, arg: PageArg) returns (first: Response, second: Response)
    requires s.Valid()
    modifies s
    ensures first.Deleted? <==> id in old(s.items) && OffsetAccepted(PageNumber(arg), ItemsPerPage)
    ensures first.Deleted? ==> first.totalItems == |old(s.items)| - 1
    ensures second == NotFound()
    ensures s.items == old(s.items) - {id}
  {
    first := s.DeleteItem(Granted, id, arg);
    second := s.DeleteItem(Granted, id, arg);
  }

  /**
   * Creating an item and deleting it again leaves the same rows, whether or
   * not the page query raises; only the key sequence has moved on.
   */
  method CreateThenDelete(s: Store, body: ItemBody, arg: PageArg) returns (created: Response, deleted: Response)
    requires s.Valid() && body.Complete() && Storable(ItemOf(body))
    modifies s
    ensures created.Created? <==> OffsetAccepted(PageNumber(arg), ItemsPerPage)
    ensures created.Created? ==> created.totalItems == |old(s.items)| + 1
    ensures deleted == (if OffsetAccepted(PageNumber(arg), ItemsPerPage)
                        then Deleted(old(s.nextItemId), PaginateItems(old(s.ItemTable()), arg).value, |old(s.items)|)
                        else Unprocessable())
    ensures s.items == old(s.items) && s.nextItemId == old(s.nextItemId) + 1
  {
    var before := s.ItemTable();
    created := s.CreateItem(Granted, body, arg);
    deleted := s.DeleteItem(Granted, before.nextId, arg);
    assert s.items == before.rows;
    SortedRowsOnlyRows(s.ItemTable(), before);
  }

  /** A create request without `comment` is refused with 422 and adds nothing. */
  method CreateWithoutComment(s: Store, title: string, brand: string, category: int, arg: PageArg)
    returns (r: Response)
    requires s.Valid()
    modifies s
    ensures r == Unprocessable() && r.Status() == 422
    ensures s.items == old(s.items)
  {
    r := s.CreateItem(Granted, ItemBody(Some(title), Some(brand), Some(category), None), arg);
  }

  /** A category id outside the 32-bit column range is refused with 422 and adds nothing. */
  method CreateCategoryOutOfRange(s: Store, title: string, brand: string, comment: string, arg: PageArg)
    returns (r: Response)
    requires s.Valid()
    modifies s
    ensures r == Unprocessable() && r.Status() == 422
    ensures s.items == old(s.items)
  {
    r := s.CreateItem(Granted, ItemBody(Some(title), Some(brand), Some(IntegerMax + 1), Some(comment)), arg);
  }

  /** A page whose offset passes the `bigint` maximum. */
  const HugePage := Given(1_000_000_000_000_000_000)

  /** Listing a page that far out raises outside any `try`: 500, no envelope. */
  method GetHugePage(s: Store) returns (r: Response)
    requires s.Valid()
    ensures r == InternalServerError && r.Status() == 500
  {
    r := s.GetItems(HugePage);
  }

  /**
   * Deleting with a page that far out answers 422, yet the row is gone: the
   * delete is committed before the page query raises.
   */
  method DeleteWithHugePage(s: Store, id: int) returns (r: Response)
    requires s.Valid() && id in s.items
    modifies s
    ensures r == Unprocessable() && r.Status() == 422
    ensures s.items == old(s.items) - {id} && |s.items| == |old(s.items)| - 1
  {
    r := s.DeleteItem(Granted, id, HugePage);
  }
}
