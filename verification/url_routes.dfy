/**
 * The handlers of backend/routes/urls.js acting on the `urls` and `checks`
 * collections. Each database call may throw; `Fault` says which one does in
 * a given request, and the handler's catch block answers 500.
 */
module UrlRoutes {
  import opened Options
  import opened JsValues
  import opened Probe
  import opened Collections

  /** Which database call of the request throws: `connectToDatabase`, the
      handler's first collection call, or its second. */
  datatype Fault = NoFault | ConnectFails | FirstCallFails | SecondCallFails

  /** The response: its status code and JSON body. */
  datatype Reply =
    | Listed(urls: seq<UrlDoc>)   // 200, the documents of `urls`
    | Created(id: Id)             // 201, `{ id }`
    | Done                        // 200, a message
    | Failed(status: int)         // 400, 404 or 500, `{ error }`

  function Status(r: Reply): int
  {
    match r
    case Listed(_) => 200
    case Created(_) => 201
    case Done => 200
    case Failed(s) => s
  }

  /** `GET /` (lines 8-18): every URL document, or 500. */
  method List(db: Database, fault: Fault) returns (reply: Reply)
    ensures Status(reply) in {200, 500}
    ensures fault == ConnectFails || fault == FirstCallFails ==> reply == Failed(500)
    ensures fault == NoFault || fault == SecondCallFails ==> reply == Listed(db.urls)
  {
    if fault == ConnectFails || fault == FirstCallFails {
      return Failed(500);
    }
    reply := Listed(db.urls);
  }

  /** `POST /` (lines 20-50): a falsy `url` is refused with 400 before any
      database call. Otherwise a new active URL document is inserted, probed
      at once with `runCheck`, and the probe's record is appended to `checks`.
      When the check insert throws, the URL document stays (no rollback). */
  method Post(db: Database, url: Json, probe: Outcome, createdAt: int, checkedAt: int, fault: Fault)
    returns (reply: Reply)
    requires db.Valid()
    modifies db
    ensures db.Valid()
    ensures Status(reply) in {201, 400, 500}
    ensures !Truthy(url) ==> reply == Failed(400)
    ensures !Truthy(url) || fault == ConnectFails || fault == FirstCallFails ==>
      db.urls == old(db.urls) && db.checks == old(db.checks) && db.nextId == old(db.nextId)
    ensures Truthy(url) && (fault == ConnectFails || fault == FirstCallFails) ==> reply == Failed(500)
    ensures Truthy(url) && (fault == NoFault || fault == SecondCallFails) ==>
      var id := old(db.nextId);
      && !HasUrl(old(db.urls), id)
      && db.urls == old(db.urls) + [UrlDoc(id, url, true, createdAt)]
      && db.checks == old(db.checks) + (if fault == NoFault then [Attach(id, RunCheck(probe, checkedAt))] else [])
      && reply == (if fault == NoFault then Created(id) else Failed(500))
  {
    if !Truthy(url) {
      return Failed(400);
    }
    if fault == ConnectFails || fault == FirstCallFails {
      return Failed(500);
    }
    var id := db.nextId;
    var doc := UrlDoc(id, url, true, createdAt);
    var result := RunCheck(probe, checkedAt);
    InsertKeepsConsistency(db.urls, db.checks, id, doc, []);
    InsertKeepsConsistency(db.urls, db.checks, id, doc, [Attach(id, result)]);
    assert db.checks + [] == db.checks;
    db.urls := db.urls + [doc];
    db.nextId := id + 1;
    if fault == SecondCallFails {
      return Failed(500);
    }
    db.checks := db.checks + [Attach(id, result)];
    reply := Created(id);
  }

  /** `DELETE /:id` (lines 52-75). `id` is `None` when the parameter is not a
      valid ObjectId (the constructor throws). The checks of the URL are
      deleted first, then the URL; when no URL has that id the answer is 404,
      and the checks are gone all the same. */
  method Delete(db: Database, id: Option<Id>, fault: Fault) returns (reply: Reply)
    requires db.Valid()
    modifies db
    ensures db.Valid()
    ensures Status(reply) in {200, 404, 500}
    ensures db.urls != old(db.urls) || db.checks != old(db.checks) ==> id.Some?
    ensures fault == ConnectFails || id.None? || fault == FirstCallFails ==>
      reply == Failed(500) && db.urls == old(db.urls) && db.checks == old(db.checks)
    ensures fault != ConnectFails && id.Some? && fault != FirstCallFails ==>
      db.checks == WithoutChecksOf(old(db.checks), id.value)
    ensures fault == SecondCallFails && id.Some? ==> reply == Failed(500) && db.urls == old(db.urls)
    ensures fault == NoFault && id.Some? ==>
      && reply == (if HasUrl(old(db.urls), id.value) then Done else Failed(404))
      && db.urls == WithoutUrl(old(db.urls), id.value)
    ensures db.nextId == old(db.nextId)
  {
    if fault == ConnectFails || id.None? || fault == FirstCallFails {
      return Failed(500);
    }
    var urlId := id.value;
    db.checks := WithoutChecksOf(db.checks, urlId);
    if fault == SecondCallFails {
      ChecksOfOthersStayAttached(db.urls, old(db.checks), urlId);
      return Failed(500);
    }
    var found := HasUrl(db.urls, urlId);
    CascadeKeepsChecksAttached(db.urls, old(db.checks), urlId);
    WithoutUrlKeepsIds(db.urls, urlId, db.nextId);
    if !found {
      NoMatchRemovesNothing(db.urls, urlId);
      return Failed(404);
    }
    db.urls := WithoutUrl(db.urls, urlId);
    reply := Done;
  }

  /** `PUT /:id` (lines 77-102): after connecting, a falsy `url` is refused
      with 400; an unmatched id gives 404. Otherwise only the `url` field of
      that one document changes. */
  method Put(db: Database, id: Option<Id>, url: Json, fault: Fault) returns (reply: Reply)
    requires db.Valid()
    modifies db
    ensures db.Valid()
    ensures Status(reply) in {200, 400, 404, 500}
    ensures db.checks == old(db.checks) && db.nextId == old(db.nextId)
    ensures fault == ConnectFails ==> reply == Failed(500)
    ensures fault != ConnectFails && !Truthy(url) ==> reply == Failed(400)
    ensures fault != ConnectFails && Truthy(url) && (id.None? || fault == FirstCallFails) ==> reply == Failed(500)
    ensures reply != Done ==> db.urls == old(db.urls)
    ensures fault != ConnectFails && Truthy(url) && id.Some? && fault != FirstCallFails ==>
      && reply == (if HasUrl(old(db.urls), id.value) then Done else Failed(404))
      && db.urls == SetUrl(old(db.urls), id.value, url)
  {
    if fault == ConnectFails {
      return Failed(500);
    }
    if !Truthy(url) {
      return Failed(400);
    }
    if id.None? || fault == FirstCallFails {
      return Failed(500);
    }
    var urlId := id.value;
    SetUrlKeepsChecksAttached(db.urls, db.checks, urlId, url);
    if !HasUrl(db.urls, urlId) {
      NoMatchUpdatesNothing(db.urls, urlId, url);
      return Failed(404);
    }
    db.urls := SetUrl(db.urls, urlId, url);
    reply := Done;
  }
}
