# Product catalog: upload validator and request handlers

This project models the core of a small Flask product catalog (`app.py`) and proves properties of it.
The app lists, views, creates, updates and deletes `Product` rows. Each row has an uploaded image.

- `upload.dfy`, module `Upload`: the upload filename validator `allowed_file` and its allow-list `ALLOWED_EXTENSIONS`. A name is accepted iff it contains a `.` and the text after the last `.`, lower-cased, is `png`, `jpg`, `jpeg` or `gif`. `str.rsplit('.', 1)` is modelled by `RSplitDot` and `str.lower` by the ASCII-only `Lower`. `EndsWithAllowedExtension` is an independent reference reading: "the lower-cased name ends in a dot and an allowed extension". The validator is proved equal to it.
- `catalog.dfy`, module `Catalog`: the `product` table becomes a `map<int, Product>`. The handlers `create`, `update`, `delete`, `product` (view) and `products` (list) become pure functions. Each takes a store and a request and returns the next store and an outcome: `Redirect(target)`, `Render(page)` or `NotFound`.
- `session.dfy`, module `Session`: facts that relate several requests. These cover what a later view sees after a create, update or delete, that a delete undoes a create, and how many records a listing shows after any sequence of requests.
- `wrappers.dfy`: the `Option` datatype.

Parameters stand in for code this model cannot see:
- `sanitize: string -> string` stands for werkzeug's `secure_filename`. It is left uninterpreted, and every handler contract holds for every sanitiser.
- `now: Stamp` stands for the database clock behind `func.now()`.
- The new primary key comes from `FreshId`. It returns the least positive integer not yet in use. Every contract relies only on the key being fresh.

Behaviour of the code that a reader may not expect:
- A create or update POST whose filename fails the validator re-renders the form (app.py:84, app.py:113). It does not redirect back.
- An update writes all five fields only when a valid file comes with it. There is no update path that keeps the old image.
- `instock` is the Python truthiness of the raw form text (app.py:79, app.py:108). Any non-empty string, `"false"` included, gives `true`.

## Model

| member | source | states |
|---|---|---|
| Upload.Lower | app.py:20 | Lower-casing keeps the length and maps each character to its ASCII lower-case form. |
| Upload.AllowedFile | app.py:18-20 | An accepted name contains a dot, and its extension after the last dot is three or four characters long. |
| Upload.RSplitDot | app.py:20 | `rsplit('.', 1)` gives one part exactly when the name has no dot. Otherwise it gives two parts that rejoin with a dot to the original name, and the second part holds no dot. |
| Upload.AllowedFileIffSuffix | app.py:12-20 | On every filename, the validator accepts exactly the names whose lower-cased form ends in `.png`, `.jpg`, `.jpeg` or `.gif`. Both directions are proved. |
| Upload.DotSuffixDecides | app.py:18-20 | For any prefix `p` and dot-free `e`, `p + "." + e` is accepted iff `e` lower-cases to an allowed extension. Only the text after the last dot matters. |
| Upload.NoDotRejected | app.py:19 | A filename without a `.` is refused. |
| Upload.TrailingDotRejected | app.py:20 | A name ending in `.` has an empty extension and is refused (`"a."`). |
| Upload.AllowedExtensionAccepted | app.py:12-20 | Any prefix, a dot and an allowed extension is accepted, even an empty prefix (`".png"`). |
| Upload.DoubleExtensionRejected | app.py:20 | `p + "." + e + ".exe"` is refused whatever `e` is (`"x.png.exe"`). |
| Upload.CaseInsensitive | app.py:20 | Two names that lower-case alike are accepted or refused together (`"x.exe.PNG"` behaves like `"x.exe.png"`). |
| Catalog.Truthy | app.py:79 | `bool(...)` of the `instock` text is true exactly for non-empty text, so `"false"` is true too. |
| Catalog.Accepts | app.py:74 | The guard `file and allowed_file(file.filename)` on a POST with a file part holds exactly when the allow-list accepts the filename. The file's truthiness adds nothing. |
| Catalog.FreshId | app.py:30 | The key given to a new row is positive and not already in the table. |
| Catalog.Insert | app.py:78-81 | Adding a row from the form grows the table by exactly one fresh key and leaves every existing row unchanged. The new row carries the form's name, price and description, the sanitised image name and the truthiness of `instock`. It is stamped `created = now` with no `modified`. |
| Catalog.List | app.py:50-53 | The list page shows every stored record. In a well-formed table, everything shown is the record stored under its own id. |
| Catalog.View | app.py:56-59 | The outcome is `NotFound` exactly when the id is absent. Otherwise it shows that record. |
| Catalog.Create | app.py:62-84 | Non-POST requests get the empty form. A POST with no file part or an empty filename redirects to its own URL. A refused filename re-renders the form. The store changes exactly when the upload is accepted. Then it gains one fresh record built from the form, the other rows are untouched, and the response redirects to the list. |
| Catalog.Update | app.py:87-113 | An absent id gives `NotFound` whatever the request. For a present id, the missing-file and refused-filename cases behave as in create and change nothing. An accepted upload overwrites only name, price, image, description and instock of that one row and stamps `modified`. It keeps the row's id and `created`, leaves the other rows alone, and redirects to that product's page. |
| Catalog.Delete | app.py:116-121 | An absent id gives `NotFound` and changes nothing. A present id removes exactly that key, so the count drops by one, keeps the other rows, and redirects to the list. |
| Session.Handle | app.py:50-121 | Dispatching a request to its route preserves "every row is filed under its own id". Read-only routes leave the store unchanged. |
| Session.HandleSize | app.py:62-121 | Each request changes the record count by exactly what its response announces: +1 for a create that redirected to the list, -1 for a delete that did, 0 otherwise. |
| Session.ReplaySize | app.py:62-121 | Over any sequence of requests, the final count is the initial count plus successful creates minus successful deletes, and the table stays well-formed. |
| Session.ListCount | app.py:50-53 | The list page of a well-formed table shows exactly as many records as are stored. |
| Session.ListingAfterReplay | app.py:50-121 | Starting from an empty table, a listing after any request sequence shows N - M records, where N is successful creates and M is successful deletes. |
| Session.ViewAfterCreate | app.py:56-84 | After a successful create, viewing the new id shows a record carrying the submitted fields. |
| Session.DeleteUndoesCreate | app.py:74-82 | Deleting the record a successful create added restores the table exactly and redirects to the list. |
| Session.ViewAfterUpdate | app.py:56-113 | After a successful update, the response redirects to that id's page. Viewing it shows the submitted fields with the original id and creation stamp. |
| Session.ViewAfterDelete | app.py:56-121 | After deleting an id, viewing it gives `NotFound`. |

## Left out

- Flask routing, `render_template`, the not-found page and the `home` page (app.py:40-47). Each response is reduced to an outcome tag and a page tag.
- Catalog.View: `NotFound` stands for the abort raised by `get_or_404` (app.py:58, app.py:89, app.py:118). The registered handler (app.py:40-42) renders its page without a status, so the client receives that page with HTTP status 200, not 404.
- SQLAlchemy and SQLite (sessions, commits, column types; app.py:23-24). The table is an abstract map, and `FreshId` only promises a key not in use, not SQLite's row-id policy.
- `secure_filename` (app.py:7): an unseen library function, modelled as the parameter `sanitize`.
- `file.save` and `os.path.join` (app.py:76, app.py:102): filesystem I/O, including silent overwrite of a same-named image.
- `func.now()` (app.py:36-37): the clock is the parameter `now`. An accepted update always stamps `modified`, although SQLAlchemy would skip an UPDATE with no net change.
- `price`: the `Float` column is fed the raw form text (app.py:33). The model keeps the text as an opaque string, because the ORM's coercion and floating point are not modelled.
- Column length limits on `name` and `desc` (app.py:31-32): storage-level.
- A form without `name`, `price`, `desc` or `instock` raises a bad-request error in Flask. `Form` always carries all four, so that error path is not modelled.
- `print` diagnostics, the upload folder setting and the secret key (app.py:11, app.py:13-15): side effects and configuration.
- Upload.Lower: only ASCII letters are lower-cased, not Python's full Unicode `str.lower`.
- The uploaded file's bytes: a file part is just its client-supplied name. Its truthiness (`file and ...`) is the truthiness of that name.
- Concurrent requests: each handler is one atomic step of the map.
