/**
 The product catalog of app.py as a pure state machine. The relational table
 becomes a map from id to `Product`, and each route handler becomes a function
 from a store and a request to the next store and the response outcome
 (a redirect, a rendered page or `NotFound`).

 The sanitiser `secure_filename` is a parameter `sanitize`, and the database
 clock behind `func.now()` is a parameter `now`: the handlers' contracts hold
 for every sanitiser and every clock reading.
 */
module Catalog {
  import opened Wrappers
  import Upload

  /** A reading of the database clock; its value is never inspected. */
  type Stamp = nat

  /** A row of the `product` table, fields in column order. `price` is kept as the submitted text. */
  datatype Product = Product(
    id: int,
    name: string,
    desc: string,
    price: string,
    image: Option<string>,
    instock: bool,
    created: Stamp,
    modified: Option<Stamp>)

  /** The `product` table, keyed by primary key. */
  type Store = map<int, Product>

  /** Every row is filed under its own id. */
  ghost predicate WellFormed(store: Store)
  {
    forall k :: k in store ==> store[k].id == k
  }

  /** The HTTP method of a request the route admits; HEAD behaves like GET. */
  datatype Verb = Get | Post

  /** An uploaded file part; only its client-supplied name matters here. */
  datatype FilePart = FilePart(filename: string)

  /** The text fields of the product form. */
  datatype Form = Form(name: string, price: string, desc: string, instock: string)

  datatype Request = Request(verb: Verb, url: string, file: Option<FilePart>, form: Form)

  /** Where a redirect points. */
  datatype Target =
    | Back(url: string)      // the request's own URL
    | ProductList            // the `products` endpoint
    | ProductPage(id: int)   // the `product` endpoint of one id

  /** The template a handler renders, with the record it is given. */
  datatype Page =
    | ListPage(products: set<Product>)
    | DetailPage(product: Product)
    | AddPage
    | UpdatePage(product: Product)

  datatype Outcome = Redirect(target: Target) | Render(page: Page) | NotFound

  /** The store after a request, and what the client sees. */
  datatype Response = Response(store: Store, outcome: Outcome)

  /** Python truthiness of a string: any non-empty text, `"false"` included, is true. */
  predicate Truthy(s: string)
    ensures Truthy(s) <==> |s| > 0
  {
    s != ""
  }

  /** The request carries a file part with a non-empty name. */
  predicate HasSelectedFile(req: Request)
  {
    req.file.Some? && req.file.value.filename != ""
  }

  /** A POST whose upload the handlers store: `file and allowed_file(file.filename)`. */
  predicate Accepts(req: Request)
    // the emptiness and truthiness guards add nothing: the allow-list alone decides a POST with a file part
    ensures Accepts(req) <==> req.verb == Post && req.file.Some? && Upload.AllowedFile(req.file.value.filename)
  {
    && req.verb == Post
    && HasSelectedFile(req)
    && Truthy(req.file.value.filename)
    && Upload.AllowedFile(req.file.value.filename)
  }

  /** `p` holds the five fields a successful create or update writes from the form. */
  predicate Carries(p: Product, form: Form, image: string)
  {
    && p.name == form.name
    && p.price == form.price
    && p.desc == form.desc
    && p.image == Some(image)
    && p.instock == Truthy(form.instock)
  }

  /** The least id at or above `from` that is not in `ids`. */
  function FreshFrom(ids: set<int>, from: int): (r: int)
    ensures r !in ids && r >= from
    decreases |ids|
  {
    if from in ids then FreshFrom(ids - {from}, from + 1) else from
  }

  /** A positive primary key not yet in use. */
  function FreshId(store: Store): (r: int)
    ensures r !in store && r >= 1
  {
    FreshFrom(store.Keys, 1)
  }

  /**
   `db.session.add` of a new row: the record built from the form is stored
   under a fresh id, stamped with the creation time and no modification time.
   */
  function Insert(store: Store, form: Form, image: string, now: Stamp): (r: Store)
    ensures |r| == |store| + 1
    ensures forall k :: k in store ==> k in r && r[k] == store[k]
    ensures exists id :: id !in store && r.Keys == store.Keys + {id}
    ensures forall id :: id in r && id !in store ==>
      && r[id].id == id
      && Carries(r[id], form, image)
      && r[id].created == now
      && r[id].modified == None
    ensures WellFormed(store) ==> WellFormed(r)
  {
    var id := FreshId(store);
    var r := store[id := Product(id, form.name, form.desc, form.price, Some(image), Truthy(form.instock), now, None)];
    assert r.Keys == store.Keys + {id};
    r
  }

  /** `products`: render every stored record, in no particular order. */
  function List(store: Store): (o: Outcome)
    ensures o.Render? && o.page.ListPage?
    ensures forall k :: k in store ==> store[k] in o.page.products
    ensures WellFormed(store) ==> forall p :: p in o.page.products ==> p.id in store && store[p.id] == p
  {
    Render(ListPage(set k | k in store :: store[k]))
  }

  /** `product`: the detail page of one id, or `NotFound`. */
  function View(store: Store, id: int): (o: Outcome)
    ensures o == NotFound <==> id !in store
    ensures o != NotFound ==> o == Render(DetailPage(store[id]))
  {
    if id in store then Render(DetailPage(store[id])) else NotFound
  }

  /** `create`: the add form on GET, a new record on a POST with an accepted upload. */
  function Create(store: Store, req: Request, now: Stamp, sanitize: string -> string): (r: Response)
    // anything but a POST shows the empty form
    ensures req.verb != Post ==> r == Response(store, Render(AddPage))
    // no file part, or an empty filename: back to the form's own URL, nothing stored
    ensures req.verb == Post && !HasSelectedFile(req) ==> r == Response(store, Redirect(Back(req.url)))
    // a refused filename re-renders the form; it does not redirect
    ensures req.verb == Post && HasSelectedFile(req) && !Accepts(req) ==> r == Response(store, Render(AddPage))
    // the store changes exactly when the upload is accepted
    ensures r.store == store <==> !Accepts(req)
    // an accepted upload adds one record under a fresh id and leaves the others alone
    ensures Accepts(req) ==>
      && r.outcome == Redirect(ProductList)
      && |r.store| == |store| + 1
      && (forall k :: k in store ==> k in r.store && r.store[k] == store[k])
      && exists id :: id !in store && r.store.Keys == store.Keys + {id}
    ensures Accepts(req) ==> forall id :: id in r.store && id !in store ==>
      && r.store[id].id == id
      && Carries(r.store[id], req.form, sanitize(req.file.value.filename))
      && r.store[id].created == now
      && r.store[id].modified == None
    ensures WellFormed(store) ==> WellFormed(r.store)
  {
    if req.verb != Post then
      Response(store, Render(AddPage))
    else if req.file.None? then
      Response(store, Redirect(Back(req.url)))
    else if req.file.value.filename == "" then
      Response(store, Redirect(Back(req.url)))
    else if Truthy(req.file.value.filename) && Upload.AllowedFile(req.file.value.filename) then
      Response(Insert(store, req.form, sanitize(req.file.value.filename), now), Redirect(ProductList))
    else
      Response(store, Render(AddPage))
  }

  /** `update`: `NotFound` for an unknown id, else the edit form, or an overwrite on an accepted upload. */
  function Update(store: Store, id: int, req: Request, now: Stamp, sanitize: string -> string): (r: Response)
    // the lookup comes first: an unknown id is `NotFound` whatever the request
    ensures id !in store ==> r == Response(store, NotFound)
    ensures id in store && req.verb != Post ==> r == Response(store, Render(UpdatePage(store[id])))
    ensures id in store && req.verb == Post && !HasSelectedFile(req) ==>
      r == Response(store, Redirect(Back(req.url)))
    // a refused filename re-renders the form with the unchanged record
    ensures id in store && req.verb == Post && HasSelectedFile(req) && !Accepts(req) ==>
      r == Response(store, Render(UpdatePage(store[id])))
    ensures r.store != store ==> id in store && Accepts(req)
    // an accepted upload overwrites five fields of that one record and stamps it
    ensures id in store && Accepts(req) ==>
      && r.store.Keys == store.Keys
      && (forall k :: k in store && k != id ==> r.store[k] == store[k])
      && Carries(r.store[id], req.form, sanitize(req.file.value.filename))
      && r.store[id].id == store[id].id
      && r.store[id].created == store[id].created
      && r.store[id].modified == Some(now)
      && r.outcome == Redirect(ProductPage(store[id].id))
    ensures WellFormed(store) ==> WellFormed(r.store)
  {
    if id !in store then
      Response(store, NotFound)
    else
      var product := store[id];
      if req.verb != Post then
        Response(store, Render(UpdatePage(product)))
      else if req.file.None? then
        Response(store, Redirect(Back(req.url)))
      else if req.file.value.filename == "" then
        Response(store, Redirect(Back(req.url)))
      else if Truthy(req.file.value.filename) && Upload.AllowedFile(req.file.value.filename) then
        var image := sanitize(req.file.value.filename);
        var updated := product.(name := req.form.name, price := req.form.price, image := Some(image),
                                desc := req.form.desc, instock := Truthy(req.form.instock),
                                modified := Some(now));
        Response(store[id := updated], Redirect(ProductPage(product.id)))
      else
        Response(store, Render(UpdatePage(product)))
  }

  /** `delete`: `NotFound` for an unknown id, else remove the record and go to the list. */
  function Delete(store: Store, id: int): (r: Response)
    ensures id !in store ==> r == Response(store, NotFound)
    ensures id in store ==>
      && r.store.Keys == store.Keys - {id}
      && |r.store| == |store| - 1
      && (forall k :: k in r.store ==> r.store[k] == store[k])
      && r.outcome == Redirect(ProductList)
    ensures WellFormed(store) ==> WellFormed(r.store)
  {
    if id !in store then
      Response(store, NotFound)
    else
      Response(store - {id}, Redirect(ProductList))
  }
}
