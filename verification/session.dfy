/**
 Facts that relate several requests: what a later view or listing sees after
 a create, update or delete, and how many records a listing shows after a
 whole sequence of requests.
 */
module Session {
  import opened Catalog

  /** One request to one of the routes, with the clock reading it is served at. */
  datatype Action =
    | AddProduct(req: Request, now: Stamp)
    | EditProduct(id: int, req: Request, now: Stamp)
    | RemoveProduct(id: int)
    | ShowProduct(id: int)
    | ListProducts

  /** Dispatch one action to its handler; the read-only routes leave the store alone. */
  function Handle(store: Store, a: Action, sanitize: string -> string): (r: Response)
    ensures a.ShowProduct? || a.ListProducts? ==> r.store == store
    ensures WellFormed(store) ==> WellFormed(r.store)
  {
    match a
    case AddProduct(req, now) => Create(store, req, now, sanitize)
    case EditProduct(id, req, now) => Update(store, id, req, now, sanitize)
    case RemoveProduct(id) => Delete(store, id)
    case ShowProduct(id) => Response(store, View(store, id))
    case ListProducts => Response(store, List(store))
  }

  /** The change in record count a response announces: a create or delete that redirected to the list. */
  function Announced(a: Action, o: Outcome): int
  {
    if a.AddProduct? && o == Redirect(ProductList) then 1
    else if a.RemoveProduct? && o == Redirect(ProductList) then -1
    else 0
  }

  /** The store after serving `actions` in order. */
  function Replay(store: Store, actions: seq<Action>, sanitize: string -> string): Store
    decreases |actions|
  {
    if |actions| == 0 then store
    else Replay(Handle(store, actions[0], sanitize).store, actions[1..], sanitize)
  }

  /** Successful creates minus successful deletes while serving `actions`, read off the responses. */
  function NetCreated(store: Store, actions: seq<Action>, sanitize: string -> string): int
    decreases |actions|
  {
    if |actions| == 0 then 0
    else
      var r := Handle(store, actions[0], sanitize);
      Announced(actions[0], r.outcome) + NetCreated(r.store, actions[1..], sanitize)
  }

  /** Each handled request changes the record count by exactly what its response announces. */
  lemma HandleSize(store: Store, a: Action, sanitize: string -> string)
    ensures |Handle(store, a, sanitize).store| == |store| + Announced(a, Handle(store, a, sanitize).outcome)
  {
  }

  /** Serving a sequence of requests keeps every record under its own id and changes the count by the announced amount. */
  lemma {:induction false} ReplaySize(store: Store, actions: seq<Action>, sanitize: string -> string)
    requires WellFormed(store)
    ensures WellFormed(Replay(store, actions, sanitize))
    ensures |Replay(store, actions, sanitize)| == |store| + NetCreated(store, actions, sanitize)
    decreases |actions|
  {
    if |actions| > 0 {
      var r := Handle(store, actions[0], sanitize);
      HandleSize(store, actions[0], sanitize);
      ReplaySize(r.store, actions[1..], sanitize);
    }
  }

  /** A listing shows one entry per stored record. */
  lemma {:induction false} ListCount(store: Store)
    requires WellFormed(store)
    ensures |List(store).page.products| == |store|
    decreases |store|
  {
    var shown := List(store).page.products;
    if |store| == 0 {
      assert store == map[];
      assert shown == {};
    } else {
      var k :| k in store;
      var rest := store - {k};
      assert |rest| == |store| - 1;
      ListCount(rest);
      var restShown := List(rest).page.products;
      assert store[k] !in restShown;
      forall p | p in shown
        ensures p in restShown + {store[k]}
      {
        assert p.id in store && store[p.id] == p;
        if p.id != k {
          assert p.id in rest && rest[p.id] == p;
        }
      }
      forall p | p in restShown + {store[k]}
        ensures p in shown
      {
        if p != store[k] {
          assert p.id in rest && rest[p.id] == p;
        }
      }
      assert shown == restShown + {store[k]};
    }
  }

  /** Starting from an empty table, a listing shows successful creates minus successful deletes. */
  lemma {:induction false} ListingAfterReplay(actions: seq<Action>, sanitize: string -> string)
    ensures |List(Replay(map[], actions, sanitize)).page.products| == NetCreated(map[], actions, sanitize)
  {
    ReplaySize(map[], actions, sanitize);
    ListCount(Replay(map[], actions, sanitize));
  }

  /** A view after a successful create shows the new record as submitted. */
  lemma ViewAfterCreate(store: Store, req: Request, now: Stamp, sanitize: string -> string, id: int)
    requires Accepts(req)
    requires id !in store && id in Create(store, req, now, sanitize).store
    ensures View(Create(store, req, now, sanitize).store, id).Render?
    ensures Carries(View(Create(store, req, now, sanitize).store, id).page.product,
                    req.form, sanitize(req.file.value.filename))
  {
  }

  /** Deleting the record a successful create added gives back the store as it was. */
  lemma {:induction false} DeleteUndoesCreate(store: Store, req: Request, now: Stamp, sanitize: string -> string, id: int)
    requires Accepts(req)
    requires id !in store && id in Create(store, req, now, sanitize).store
    ensures Delete(Create(store, req, now, sanitize).store, id) == Response(store, Redirect(ProductList))
  {
    var added := Create(store, req, now, sanitize).store;
    assert added.Keys == store.Keys + {id};
    assert (added - {id}).Keys == store.Keys;
  }

  /** A view after a successful update shows the submitted fields with the original id and creation time. */
  lemma ViewAfterUpdate(store: Store, id: int, req: Request, now: Stamp, sanitize: string -> string)
    requires WellFormed(store) && id in store && Accepts(req)
    ensures Update(store, id, req, now, sanitize).outcome == Redirect(ProductPage(id))
    ensures View(Update(store, id, req, now, sanitize).store, id).Render?
    ensures var p := View(Update(store, id, req, now, sanitize).store, id).page.product;
      && Carries(p, req.form, sanitize(req.file.value.filename))
      && p.id == id
      && p.created == store[id].created
  {
  }

  /** A view after a successful delete of an id is `NotFound`. */
  lemma ViewAfterDelete(store: Store, id: int)
    ensures View(Delete(store, id).store, id) == NotFound
  {
  }
}
