# FSND-Capstone snack catalogue: item routes, pagination and signup form in Dafny

This project models the core of a small Flask catalogue backend, where
categories hold snack items that users comment on. The model covers three parts.

- **Item store and routes** (`app.dfy`, module `App`). The `categories` and
  `items` tables are fields of a `Store` class. The handlers `get_categories`,
  `get_items`, `create_item`, `modify_item` and `delete_item` are methods.
  Each method returns the JSON envelope and HTTP status the handler sends.
  A method that changes the item table states the new table. The error
  handlers (`not_found`, `unprocessable`, `bad_request`, `handle_auth_error`)
  are functions that build their envelopes.
- **Tables** (`tables.dfy`, module `Tables`). A table maps primary keys to
  rows, paired with the next key of its auto-increment sequence.
  `SortedRows` lists it in `order_by(id)` order. `Insert`, `Update` and
  `Remove` are the three changes the item handlers make.
- **Pagination** (`pagination.dfy`, module `Pagination`). This is the
  offset/limit query of `paginate_items`, `paginate_temp_comments` and
  `paginate_comments`. Page sizes are 10, 5 and 5. The page number comes
  from the `page` query argument.
- **Signup form** (`forms.dfy`, module `Forms`). It covers
  `password_validator` and the validator list of each `UserForm` field.
  Validators run in order: `DataRequired`/`InputRequired` replace the
  field's errors and stop the chain, and any other failing validator adds
  its message and the chain goes on.

`models.dfy` holds the record types and `wrappers.dfy` holds `Option`.

Pagination and form validation are functions, so they cannot change any table
or form; only the `Store` methods change state.

The model follows the code as written. Five behaviours are easy to
mistake:

- `create_item` answers 422 unless all four columns `title`, `brand`,
  `category` and `comment` are present (app.py:72-73). `comment` is not
  optional. test_fsnd.py:79-92 posts an item without `comment` and expects
  200; `App.CreateWithoutComment` shows that this body is refused.
- `modify_item` is not a partial update either. A body lacking any of the
  four columns gets 422 (app.py:108-109). test_fsnd.py:105-116 also sends
  such a body and expects 200. For an id that names no item, the default
  arguments `one_or_none().format()` at app.py:112-115 are evaluated before
  `update` and raise on `None`. The `except` at app.py:128-129 turns that
  into 422, not 404. The `current_item is None` test at app.py:99 can never
  hold, because a query object is never `None`, so it is not a branch of
  the model.
- A `page` argument that is not an integer is read as page 1, since
  `args.get("page", 1, type=int)` falls back to the default. It is not an
  error.
- `GET /items` answers 404 whenever the requested page is empty, including
  when the table is non-empty but the page lies past its end.
- The page query's `OFFSET` is `(page - 1) * size`. The database refuses an
  offset that is negative (page 0 or less) or larger than the `bigint`
  maximum 2^63 - 1 (for items, any page above 922337203685477581), and the
  query raises. `get_items` calls it outside any `try` (app.py:47), and no
  500 handler is registered, so Flask answers with its default 500 page.
  `create_item` and `delete_item` commit the insert or delete first
  (app.py:77-79, app.py:142) and run the page query inside the `try`, so
  they answer 422 although the table has changed.

## Model

| member | source | states |
|---|---|---|
| Pagination.PageNumber | pagination.py:8 | the page is the given integer, and 1 when the argument is absent or not an integer |
| Pagination.OffsetIsProduct | pagination.py:9-11 | the rows skipped before page p are (p - 1) * size |
| Pagination.Paginate | pagination.py:10-12 | the query the database runs once it accepts the offset: a page has at most `size` rows, it is empty exactly when the offset reaches the row count, and every row is a row of the table with its own columns |
| Pagination.PageIsSlice | pagination.py:9-12 | page p is exactly the key-ordered rows from position (p - 1) * size to (p - 1) * size + size, clipped to the table length |
| Pagination.PageAscending | pagination.py:10 | the rows of a page have strictly ascending ids |
| Pagination.PageRowAt | pagination.py:10-11 | row i of page p is row (p - 1) * size + i of the key-ordered table |
| Pagination.PagesDisjoint | pagination.py:9-12 | two different pages share no id |
| Pagination.PagesCover | pagination.py:9-12 | pages 1 to k concatenated are the first k * size rows in key order, or the whole table when k * size exceeds it |
| Pagination.PaginateItems | pagination.py:7-12 | the query raises exactly when (page - 1) * 10 is negative or above the `bigint` maximum; otherwise at most 10 items, empty exactly when (page - 1) * 10 reaches the item count, and only rows of the table |
| Pagination.PaginateTempComments | pagination.py:14-19 | the query raises exactly when (page - 1) * 5 is negative or above the `bigint` maximum; otherwise at most 5 temp comments, empty exactly when (page - 1) * 5 reaches their count, and only rows of the table |
| Pagination.PaginateComments | pagination.py:21-26 | the query raises exactly when (page - 1) * 5 is negative or above the `bigint` maximum; otherwise at most 5 comments, empty exactly when (page - 1) * 5 reaches their count, and only rows of the table |
| Tables.SortedRows | pagination.py:10 | the key-ordered listing has one entry per row, each with its own columns |
| Tables.SortedRowsAscending | pagination.py:10 | the listing is in strictly ascending id order |
| Tables.SortedRowsComplete | pagination.py:10 | every row of the table appears in the listing |
| Tables.SortedRowsOnlyRows | pagination.py:10 | the listing depends only on the rows, not on the state of the key sequence |
| Tables.Insert | models.py:59-61 | the new row gets a key larger than every existing key, the table grows by exactly one, and the other rows are unchanged |
| Tables.InsertListedLast | models.py:59-61 | an inserted row is listed after all rows that were already there |
| Tables.Update | app.py:111-116 | only the row with that id changes, to the given columns; the keys and the row count are unchanged |
| Tables.Remove | models.py:66-68 | exactly the row with that id goes, so the count drops by one when it was there |
| App.ItemOf | models.py:53-57 | the item carries the four submitted values |
| App.CategoryTypes | app.py:41 | one id to type entry per category row |
| App.HandleAuthError | app.py:180-186 | HTTP 401, `success` false, `error` is the auth error's code and `message` is its error |
| App.ErrorEnvelopes | app.py:157-177 | the 404, 422 and 400 envelopes have `success` false, `error` equal to the status, and the messages "resource not found", "unprocessable" and "bad request" |
| App.Store.constructor | models.py:29-51 | a store over the given category and item tables |
| App.Store.GetCategories | app.py:31-43 | 404 exactly when there is no category; otherwise the id to type map of all categories |
| App.Store.GetItems | app.py:45-60 | 500 exactly when the page query raises; otherwise 404 exactly when the requested page is empty, and else that page, the category map, and `total_items` equal to the count of all items |
| App.Store.CreateItem | app.py:62-90 | an auth error, a body missing a column, or values the database refuses (a `category` outside the 32-bit `integer` range, a NUL character in a text column) leave the table unchanged (401 or 422); otherwise exactly one row with the submitted values is inserted, and the response carries the page and the new count, or is 422 when the page query raises |
| App.Store.ModifyItem | app.py:93-129 | 422 and no change when a column is missing, the id names no item, or the database refuses the values; otherwise only that row's four columns are overwritten, and the response carries the row and the unchanged count |
| App.Store.DeleteItem | app.py:132-155 | 404 and no change for a missing id; otherwise exactly that row is removed, and the response carries the page and the new count, or is 422 when the page query raises |
| App.DeleteTwice | test_fsnd.py:130-146 | the first delete succeeds exactly when the item exists and the page query is accepted, and it lowers the count by one; the second always answers 404 |
| App.CreateThenDelete | app.py:132-152 | creating and then deleting the new item restores the rows, whatever the page; with an accepted page the delete lists the same page as before the create |
| App.CreateWithoutComment | test_fsnd.py:79-92 | a create body without `comment` gets 422 and adds nothing |
| App.CreateCategoryOutOfRange | app.py:75-90 | a create whose `category` does not fit the 32-bit column gets 422 and adds nothing |
| App.GetHugePage | app.py:45-50 | a page whose offset passes the `bigint` maximum gets Flask's default 500 |
| App.DeleteWithHugePage | app.py:132-155 | a delete with such a page answers 422, and the row is gone all the same |
| Forms.Any | forms.py:9 | the scan is true exactly when some character satisfies the test |
| Forms.PasswordValidator | forms.py:7-16 | a password passes exactly when it has a digit, an uppercase and a lowercase letter; the number message exactly when there is no digit, then the uppercase message, then the lowercase message |
| Forms.Validate | forms.py:18-42 | the form validates exactly when no field has an error |
| Forms.RequiredFieldErrors | forms.py:20-42 | username, email and connection report the required message exactly when empty or only whitespace |
| Forms.PhoneNumberErrors | forms.py:36-38 | phone_number never reports an error |
| Forms.PasswordErrors | forms.py:28-30 | an empty password reports only the required message; otherwise "Too short" below 8 characters, followed by the password rule's message |
| Forms.ConfirmErrors | forms.py:32-34 | an empty confirm reports only the required message; otherwise "Password mismatch" when it differs from the password, followed by the password rule's message |
| Forms.PasswordAccepted | forms.py:28-30 | the password field is clean exactly when it has at least 8 characters, a digit, an uppercase and a lowercase letter |
| Forms.ConfirmAccepted | forms.py:32-34 | the confirm field is clean exactly when it is non-empty, equals the password and passes the password rule |
| Forms.ValidateIff | forms.py:18-42 | the form validates exactly when username, email and connection hold more than whitespace, the password is at least 8 characters with a digit, an uppercase and a lowercase letter, and confirm equals it |
| Forms.PhoneNumberIrrelevant | forms.py:36-38 | the verdict does not depend on phone_number |
| Forms.NumberReportedFirst | forms.py:9-16 | a non-empty password without a digit gets the number message and never the uppercase or lowercase one |

## Left out

- Authentication (`requires_auth`, `AuthError`) lives in an `auth` module that is not part of this model. It does JWT and key-set checks over the network. Only its outcome is modelled: an `Auth` value given to each mutating handler, where `Denied` becomes the `handle_auth_error` envelope and nothing changes.
- user.py (`auth0_create_user`) is a call to a foreign identity service and is not part of this model.
- config.py, `setup_db` and `commit_session` (database URLs, ORM sessions and commits) are replaced by the in-memory `Store`.
- App.Store.CreateItem, App.Store.ModifyItem, App.Store.DeleteItem: the database's refusals are modelled as the `integer` range of `category` and the NUL character in text. Other database failures, such as a lost connection or a failed commit, are not modelled. In the source they answer 422 through the `except` branches, and a delete whose commit fails (app.py:141-155) keeps the row, while `DeleteItem` always removes it.
- Flask routing, JSON parsing and serialisation, and the CORS headers of `after_request` (app.py:23-29) are not modelled. So `request.get_json()` failures and columns of the wrong JSON type are out, as are the 422 answers the `except Exception` branches would give for them.
- App.Store.ModifyItem, App.Store.DeleteItem: they take any integer id. The `<int:item_id>` converter (app.py:93, app.py:132) matches only non-negative ids, so in the source a negative id gets the 404 envelope from routing before `requires_auth` runs. The model answers a negative id as it answers any id with no row (422 and 404), or 401 when authentication is denied.
- Temp comments and comments appear only as paginated tables. Their routes are not in app.py. Their `rating` is a float and is left out of `Models.Comment`. pagination.py imports `Temp_comment` and `Comment`, but models.py does not define them, so both are modelled by one record type.
- Flask's default 500 page is HTML. `App.Response.InternalServerError` stands for it without modelling its content.
- `get_categories` and `get_items` build the id to type dict in the by-`type` order of the query (app.py:33, app.py:41, app.py:48, app.py:56), but `jsonify` sorts the keys when it serialises. JSON serialisation is out, so the model keeps only the id to type map and no key order.
- Character classes are ASCII. Python's Unicode-aware `isdigit`, `isupper` and `islower` are not modelled.
- Forms.RequiredFieldErrors, Forms.ValidateIff: `DataRequired` strips Unicode whitespace. The model treats only the ASCII characters `str.strip()` removes as whitespace. A required field holding only non-ASCII whitespace, such as U+00A0, counts as present in the model.
- Forms.Validate, Forms.ValidateIff: the CSRF token field that `flask_wtf.Form` adds is not modelled. `validate()` fails without a valid token, so their verdict holds for a submission that carries one.
- Concurrent requests and their interleavings are left to the web server and the database.
- The test harness (test_fsnd.py:13-31) is not modelled. Neither are routes the tests call that app.py does not define, such as `/api/v1/categories/<id>` and the comment routes.
