/**
 * The `tracked_sites` collection of the root application and the handlers
 * of routes/trackedRoutes.js acting on it: add a URL unless it is already
 * there, list, and delete by URL. URLs are stored and compared trimmed.
 * Whether the database handle exists is a field; the failure of each
 * collection call is an input.
 */
module TrackedRoutes {
  import opened Options
  import opened JsValues

  /** A document of `tracked_sites`. */
  datatype Site = Site(id: nat, url: string, createdAt: int)

  /** The response: its status code and JSON body. */
  datatype Reply =
    | Created(site: Site)         // 201, the new document
    | Listed(sites: seq<Site>)    // 200, every document
    | Removed(url: string)        // 200, a message and the URL
    | Conflict(url: string)       // 409, an error and the URL
    | Failed(status: int)         // 400, 404, 500 or 503, `{ error }`

  function Status(r: Reply): int
  {
    match r
    case Created(_) => 201
    case Listed(_) => 200
    case Removed(_) => 200
    case Conflict(_) => 409
    case Failed(s) => s
  }

  /** No two documents share a URL. */
  predicate UniqueUrls(sites: seq<Site>)
  {
    forall i, j :: 0 <= i < j < |sites| ==> sites[i].url != sites[j].url
  }

  /** A non-empty string with no white space at either end: what `trim`
      leaves of a string that is not blank. */
  predicate IsClean(url: string)
  {
    url != "" && !IsJsSpace(url[0]) && !IsJsSpace(url[|url| - 1])
  }

  /** Clean strings are exactly the non-empty fixed points of `trim`. */
  lemma CleanIffTrimmed(url: string)
    ensures IsClean(url) <==> url != "" && Trim(url) == url
  {
    TrimIsMaximalStrip(url);
    if IsClean(url) {
      assert TrimStart(url) == url;
      assert TrimEnd(url) == url;
    }
  }

  /** Every document's URL is clean. */
  predicate CleanUrls(sites: seq<Site>)
  {
    forall i :: 0 <= i < |sites| ==> IsClean(sites[i].url)
  }

  /** Document ids are distinct and below the next fresh id. */
  predicate FreshIds(sites: seq<Site>, next: nat)
  {
    (forall i :: 0 <= i < |sites| ==> sites[i].id < next)
    && (forall i, j :: 0 <= i < j < |sites| ==> sites[i].id != sites[j].id)
  }

  predicate HasSite(sites: seq<Site>, url: string)
  {
    exists i :: 0 <= i < |sites| && sites[i].url == url
  }

  /** The position of the first document with that URL (`findOne` and
      `deleteOne` take the first match in natural order). */
  function IndexOf(sites: seq<Site>, url: string): (r: Option<nat>)
    ensures r.None? <==> !HasSite(sites, url)
    ensures r.Some? ==> r.value < |sites| && sites[r.value].url == url
    ensures r.Some? ==> forall j :: 0 <= j < r.value ==> sites[j].url != url
  {
    if sites == [] then None
    else if sites[0].url == url then Some(0)
    else
      match IndexOf(sites[1..], url)
      case None =>
        assert !HasSite(sites, url) by {
          forall i | 0 <= i < |sites| ensures sites[i].url != url {
            if i > 0 {
              assert sites[i] == sites[1..][i - 1];
            }
          }
        }
        None
      case Some(k) =>
        assert sites[k + 1] == sites[1..][k];
        Some(k + 1)
  }

  /** The collection with the document at `i` deleted. */
  function RemoveAt(sites: seq<Site>, i: nat): (r: seq<Site>)
    requires i < |sites|
    ensures |r| == |sites| - 1
    ensures multiset(r) + multiset{sites[i]} == multiset(sites)
  {
    assert sites == sites[..i] + [sites[i]] + sites[i + 1..];
    sites[..i] + sites[i + 1..]
  }

  /** After the deletion, the documents after position `i` move down by one. */
  lemma RemoveAtShifts(sites: seq<Site>, i: nat)
    requires i < |sites|
    ensures forall k :: 0 <= k < |RemoveAt(sites, i)| ==>
      RemoveAt(sites, i)[k] == sites[if k < i then k else k + 1]
  {
  }

  /** Deleting a document keeps the collection's invariants. */
  lemma RemoveKeepsInvariants(sites: seq<Site>, i: nat, next: nat)
    requires i < |sites|
    ensures UniqueUrls(sites) ==> UniqueUrls(RemoveAt(sites, i))
    ensures CleanUrls(sites) ==> CleanUrls(RemoveAt(sites, i))
    ensures FreshIds(sites, next) ==> FreshIds(RemoveAt(sites, i), next)
  {
    RemoveAtShifts(sites, i);
  }

  /** Deleting the document of a URL from a collection with unique URLs
      leaves no document with that URL and keeps every other document. */
  lemma RemoveUniqueUrl(sites: seq<Site>, i: nat)
    requires i < |sites| && UniqueUrls(sites)
    ensures !HasSite(RemoveAt(sites, i), sites[i].url)
    ensures forall s :: s in RemoveAt(sites, i) <==> s in sites && s.url != sites[i].url
  {
    var r := RemoveAt(sites, i);
    RemoveAtShifts(sites, i);
    forall s | s in sites && s.url != sites[i].url ensures s in r {
      var k :| 0 <= k < |sites| && sites[k] == s;
      assert r[if k < i then k else k - 1] == s;
    }
  }

  /** Appending a document whose URL is clean and new, with a fresh id,
      keeps the collection's invariants. */
  lemma AppendKeepsInvariants(sites: seq<Site>, next: nat, site: Site)
    requires UniqueUrls(sites) && CleanUrls(sites) && FreshIds(sites, next)
    requires !HasSite(sites, site.url) && site.id == next
    requires IsClean(site.url)
    ensures UniqueUrls(sites + [site]) && CleanUrls(sites + [site]) && FreshIds(sites + [site], next + 1)
  {
    var r := sites + [site];
    assert forall k :: 0 <= k < |sites| ==> r[k] == sites[k];
  }

  /** The database of the root application. */
  class TrackedSites {
    /** `req.app.locals.db` is set. */
    var dbReady: bool
    var sites: seq<Site>
    var nextId: nat

    ghost predicate Valid()
      reads this
    {
      UniqueUrls(sites) && CleanUrls(sites) && FreshIds(sites, nextId)
    }

    constructor (dbReady: bool)
      ensures Valid() && this.dbReady == dbReady && sites == [] && nextId == 0
    {
      this.dbReady := dbReady;
      sites, nextId := [], 0;
    }

    /** `POST /tracked` (lines 9-35): 503 without a database, 400 for a
        missing, non-string or blank `url`; otherwise the trimmed URL is
        added as `Add` describes. */
    method Post(body: Json, now: int, findFails: bool, insertFails: bool) returns (reply: Reply)
      requires Valid()
      modifies this
      ensures Valid() && dbReady == old(dbReady)
      ensures Status(reply) in {201, 400, 409, 500, 503}
      ensures !dbReady ==> reply == Failed(503)
      ensures dbReady && TrimmedUrl(body).None? ==> reply == Failed(400)
      ensures dbReady && TrimmedUrl(body).Some? ==>
        var url := TrimmedUrl(body).value;
        reply == (if findFails then Failed(500)
                  else if HasSite(old(sites), url) then Conflict(url)
                  else if insertFails then Failed(500)
                  else Created(Site(old(nextId), url, now)))
      ensures reply.Created? ==> sites == old(sites) + [reply.site] && nextId == old(nextId) + 1
      ensures !reply.Created? ==> sites == old(sites) && nextId == old(nextId)
    {
      if !dbReady {
        return Failed(503);
      }
      var clean := TrimmedUrl(body);
      if clean.None? {
        return Failed(400);
      }
      TrimmedUrlEdges(body);
      reply := Add(clean.value, now, findFails, insertFails);
    }

    /** Lines 20-34 for a clean URL: 500 when `findOne` throws, 409 when the
        URL is already there, 500 when `insertOne` throws; otherwise one
        document `{ url, createdAt }` is appended and echoed with 201. Only
        a 201 changes the collection. */
    method Add(url: string, now: int, findFails: bool, insertFails: bool) returns (reply: Reply)
      requires Valid() && IsClean(url)
      modifies this
      ensures Valid() && dbReady == old(dbReady)
      ensures Status(reply) in {201, 409, 500}
      ensures reply == (if findFails then Failed(500)
                        else if HasSite(old(sites), url) then Conflict(url)
                        else if insertFails then Failed(500)
                        else Created(Site(old(nextId), url, now)))
      ensures reply.Created? ==> sites == old(sites) + [reply.site] && nextId == old(nextId) + 1
      ensures !reply.Created? ==> sites == old(sites) && nextId == old(nextId)
    {
      if findFails {
        return Failed(500);
      }
      if IndexOf(sites, url).Some? {
        return Conflict(url);
      }
      if insertFails {
        return Failed(500);
      }
      var site := Site(nextId, url, now);
      AppendKeepsInvariants(sites, nextId, site);
      sites := sites + [site];
      nextId := nextId + 1;
      reply := Created(site);
    }

    /** `GET /tracked` (lines 40-50): 503 without a database, 500 when the
        query throws, otherwise every document in natural order. */
    method List(findFails: bool) returns (reply: Reply)
      ensures Status(reply) in {200, 500, 503}
      ensures !dbReady ==> reply == Failed(503)
      ensures dbReady && findFails ==> reply == Failed(500)
      ensures dbReady && !findFails ==> reply == Listed(sites)
    {
      if !dbReady {
        return Failed(503);
      }
      if findFails {
        return Failed(500);
      }
      reply := Listed(sites);
    }

    /** `DELETE /tracked?url=...` (lines 55-79): 503 without a database,
        400 for a missing, non-string or blank query `url`; otherwise the
        trimmed URL is removed as `Remove` describes. */
    method Delete(query: Json, deleteFails: bool) returns (reply: Reply)
      requires Valid()
      modifies this
      ensures Valid() && dbReady == old(dbReady) && nextId == old(nextId)
      ensures Status(reply) in {200, 400, 404, 500, 503}
      ensures !dbReady ==> reply == Failed(503)
      ensures dbReady && TrimmedUrl(query).None? ==> reply == Failed(400)
      ensures dbReady && TrimmedUrl(query).Some? ==>
        var url := TrimmedUrl(query).value;
        && reply == (if deleteFails then Failed(500)
                     else if HasSite(old(sites), url) then Removed(url)
                     else Failed(404))
        && (reply.Removed? ==>
              && sites == RemoveAt(old(sites), IndexOf(old(sites), url).value)
              && !HasSite(sites, url)
              && forall s :: s in sites <==> s in old(sites) && s.url != url)
      ensures !reply.Removed? ==> sites == old(sites)
    {
      if !dbReady {
        return Failed(503);
      }
      var clean := TrimmedUrl(query);
      if clean.None? {
        return Failed(400);
      }
      reply := Remove(clean.value, deleteFails);
    }

    /** Lines 66-78 for a trimmed URL: 500 when `deleteOne` throws, 404 when
        no document has the URL; otherwise that one document is deleted and
        the URL echoed. */
    method Remove(url: string, deleteFails: bool) returns (reply: Reply)
      requires Valid()
      modifies this
      ensures Valid() && dbReady == old(dbReady) && nextId == old(nextId)
      ensures Status(reply) in {200, 404, 500}
      ensures reply == (if deleteFails then Failed(500)
                        else if HasSite(old(sites), url) then Removed(url)
                        else Failed(404))
      ensures reply.Removed? ==>
        && sites == RemoveAt(old(sites), IndexOf(old(sites), url).value)
        && !HasSite(sites, url)
        && forall s :: s in sites <==> s in old(sites) && s.url != url
      ensures !reply.Removed? ==> sites == old(sites)
    {
      if deleteFails {
        return Failed(500);
      }
      var found := IndexOf(sites, url);
      if found.None? {
        return Failed(404);
      }
      RemoveUniqueUrl(sites, found.value);
      RemoveKeepsInvariants(sites, found.value, nextId);
      sites := RemoveAt(sites, found.value);
      reply := Removed(url);
    }
  }

  /** Once a URL is tracked, adding it again, with or without white space
      around it, is a conflict: POST cannot create a duplicate. */
  lemma PaddedDuplicateConflicts(sites: seq<Site>, pre: string, url: string, post: string)
    requires AllSpace(pre) && AllSpace(post)
    requires CleanUrls(sites) && HasSite(sites, Trim(url))
    ensures TrimmedUrl(Str(pre + url + post)) == Some(Trim(url))
    ensures HasSite(sites, TrimmedUrl(Str(pre + url + post)).value)
  {
    var i :| 0 <= i < |sites| && sites[i].url == Trim(url);
    TrimIgnoresPadding(pre, url, post);
    TrimEmptyIffAllSpace(url);
    TrimEmptyIffAllSpace(pre + url + post);
  }
}
