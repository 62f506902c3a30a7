/**
 * The two MongoDB collections shared by the backend routes
 * (backend/routes/urls.js) and the worker (worker/worker.js): `urls`, the
 * monitored targets, and `checks`, the append-only history of probe results.
 * Documents are kept in natural (insertion) order.
 */
module Collections {
  import opened JsValues
  import opened Probe

  /** A document id (`ObjectId`). */
  type Id = nat

  /** A document of `urls`. `url` is whatever truthy value the client sent. */
  datatype UrlDoc = UrlDoc(id: Id, url: Json, isActive: bool, createdAt: int)

  /** A document of `checks`: a probe result tagged with the URL it belongs to. */
  datatype CheckDoc = CheckDoc(urlId: Id, statusCode: int, htmlSize: nat, linkCount: nat, checkedAt: int)

  /** `{ urlId, ...result }`. */
  function Attach(urlId: Id, r: CheckResult): (d: CheckDoc)
    ensures d.urlId == urlId && Detach(d) == r
  {
    CheckDoc(urlId, r.statusCode, r.htmlSize, r.linkCount, r.checkedAt)
  }

  /** A check document with its `urlId` field dropped. */
  function Detach(d: CheckDoc): CheckResult
  {
    CheckResult(d.statusCode, d.htmlSize, d.linkCount, d.checkedAt)
  }

  /** `_id` is the primary key of `urls`. */
  predicate DistinctIds(urls: seq<UrlDoc>)
  {
    forall i, j :: 0 <= i < j < |urls| ==> urls[i].id != urls[j].id
  }

  predicate HasUrl(urls: seq<UrlDoc>, id: Id)
  {
    exists i :: 0 <= i < |urls| && urls[i].id == id
  }

  /** Every check belongs to a URL that exists. */
  predicate ChecksReferToUrls(urls: seq<UrlDoc>, checks: seq<CheckDoc>)
  {
    forall k :: 0 <= k < |checks| ==> HasUrl(urls, checks[k].urlId)
  }

  /** Every id handed out so far is below `next`. */
  predicate IdsBelow(urls: seq<UrlDoc>, next: Id)
  {
    forall i :: 0 <= i < |urls| ==> urls[i].id < next
  }

  /** `urls.find({ isActive: true })`, in natural order. */
  function ActiveUrls(urls: seq<UrlDoc>): (r: seq<UrlDoc>)
    ensures forall u :: u in r <==> u in urls && u.isActive
  {
    if urls == [] then []
    else
      var rest := ActiveUrls(urls[1..]);
      if urls[0].isActive then [urls[0]] + rest else rest
  }

  /** The active URLs of a collection with distinct ids have distinct ids. */
  lemma {:induction false} ActiveUrlsKeepIds(urls: seq<UrlDoc>)
    requires DistinctIds(urls)
    ensures DistinctIds(ActiveUrls(urls))
    decreases |urls|
  {
    if urls != [] {
      var tail := urls[1..];
      assert forall n :: 0 <= n < |tail| ==> tail[n] == urls[n + 1];
      ActiveUrlsKeepIds(tail);
      var rest := ActiveUrls(tail);
      if urls[0].isActive {
        forall m | 0 <= m < |rest| ensures rest[m].id != urls[0].id {
          assert rest[m] in tail;
          var n :| 0 <= n < |tail| && tail[n] == rest[m];
        }
        var r := [urls[0]] + rest;
        assert forall a :: 0 < a < |r| ==> r[a] == rest[a - 1];
      }
    }
  }

  /** `checks.deleteMany({ urlId: id })`: every check of `id` goes, every other
      check stays, as often as it was there. */
  function WithoutChecksOf(checks: seq<CheckDoc>, id: Id): (r: seq<CheckDoc>)
    ensures forall c :: multiset(r)[c] == if c.urlId == id then 0 else multiset(checks)[c]
  {
    if checks == [] then []
    else
      assert checks == [checks[0]] + checks[1..];
      (if checks[0].urlId == id then [] else [checks[0]]) + WithoutChecksOf(checks[1..], id)
  }

  /** `urls.deleteOne({ _id: id })`: the document with that id goes, every other
      document stays. (Ids are distinct, so at most one document matches.) */
  function WithoutUrl(urls: seq<UrlDoc>, id: Id): (r: seq<UrlDoc>)
    ensures forall u :: u in r <==> u in urls && u.id != id
  {
    if urls == [] then []
    else
      assert urls == [urls[0]] + urls[1..];
      (if urls[0].id == id then [] else [urls[0]]) + WithoutUrl(urls[1..], id)
  }

  /** `urls.updateOne({ _id: id }, { $set: { url: v } })`. */
  function SetUrl(urls: seq<UrlDoc>, id: Id, v: Json): (r: seq<UrlDoc>)
    ensures |r| == |urls|
    ensures forall i :: 0 <= i < |urls| && urls[i].id != id ==> r[i] == urls[i]
    ensures forall i :: 0 <= i < |urls| && urls[i].id == id ==>
      r[i].url == v && r[i].id == id && r[i].isActive == urls[i].isActive && r[i].createdAt == urls[i].createdAt
  {
    seq(|urls|, i requires 0 <= i < |urls| => if urls[i].id == id then urls[i].(url := v) else urls[i])
  }

  /** Deleting a URL together with its checks keeps every remaining check
      attached to a remaining URL. */
  lemma CascadeKeepsChecksAttached(urls: seq<UrlDoc>, checks: seq<CheckDoc>, id: Id)
    requires ChecksReferToUrls(urls, checks)
    ensures ChecksReferToUrls(WithoutUrl(urls, id), WithoutChecksOf(checks, id))
  {
    var us := WithoutUrl(urls, id);
    var cs := WithoutChecksOf(checks, id);
    forall k | 0 <= k < |cs| ensures HasUrl(us, cs[k].urlId) {
      var c := cs[k];
      assert multiset(cs)[c] > 0;
      assert c.urlId != id && c in checks;
      var n :| 0 <= n < |checks| && checks[n] == c;
      var i :| 0 <= i < |urls| && urls[i].id == c.urlId;
      assert urls[i] in us;
      var j :| 0 <= j < |us| && us[j] == urls[i];
    }
  }

  /** Changing a URL's address keeps ids, so checks stay attached. */
  lemma SetUrlKeepsChecksAttached(urls: seq<UrlDoc>, checks: seq<CheckDoc>, id: Id, v: Json)
    requires ChecksReferToUrls(urls, checks)
    ensures ChecksReferToUrls(SetUrl(urls, id, v), checks)
    ensures DistinctIds(urls) ==> DistinctIds(SetUrl(urls, id, v))
  {
    var r := SetUrl(urls, id, v);
    forall k | 0 <= k < |checks| ensures HasUrl(r, checks[k].urlId) {
      var i :| 0 <= i < |urls| && urls[i].id == checks[k].urlId;
      assert r[i].id == urls[i].id;
    }
  }

  /** Deleting a URL without its checks (the order of the two deletions
      reversed and the second one lost) would leave orphan checks: the
      cascade is needed. */
  lemma RemovingUrlAloneOrphansItsChecks(urls: seq<UrlDoc>, checks: seq<CheckDoc>, id: Id)
    requires exists k :: 0 <= k < |checks| && checks[k].urlId == id
    ensures !ChecksReferToUrls(WithoutUrl(urls, id), checks)
  {
    var us := WithoutUrl(urls, id);
    var k :| 0 <= k < |checks| && checks[k].urlId == id;
    forall i | 0 <= i < |us| ensures us[i].id != id {
      assert us[i] in us;
    }
  }

  /** Deleting the checks of one URL keeps the other checks attached. */
  lemma ChecksOfOthersStayAttached(urls: seq<UrlDoc>, checks: seq<CheckDoc>, id: Id)
    requires ChecksReferToUrls(urls, checks)
    ensures ChecksReferToUrls(urls, WithoutChecksOf(checks, id))
  {
    var cs := WithoutChecksOf(checks, id);
    forall k | 0 <= k < |cs| ensures HasUrl(urls, cs[k].urlId) {
      assert multiset(cs)[cs[k]] > 0;
      var n :| 0 <= n < |checks| && checks[n] == cs[k];
    }
  }

  /** Putting a document with a new id below `next` in front keeps the ids
      distinct and below `next`. */
  lemma PrependKeepsIds(u: UrlDoc, rest: seq<UrlDoc>, next: Id)
    requires DistinctIds(rest) && IdsBelow(rest, next) && u.id < next
    requires forall m :: 0 <= m < |rest| ==> rest[m].id != u.id
    ensures DistinctIds([u] + rest) && IdsBelow([u] + rest, next)
  {
    var r := [u] + rest;
    assert forall a :: 0 < a < |r| ==> r[a] == rest[a - 1];
  }

  /** Deleting a URL keeps the ids of the others distinct and below the next fresh id. */
  lemma {:induction false} WithoutUrlKeepsIds(urls: seq<UrlDoc>, id: Id, next: Id)
    requires DistinctIds(urls) && IdsBelow(urls, next)
    ensures DistinctIds(WithoutUrl(urls, id)) && IdsBelow(WithoutUrl(urls, id), next)
    decreases |urls|
  {
    if urls != [] {
      var tail := urls[1..];
      assert forall n :: 0 <= n < |tail| ==> tail[n] == urls[n + 1];
      WithoutUrlKeepsIds(tail, id, next);
      var rest := WithoutUrl(tail, id);
      if urls[0].id != id {
        assert WithoutUrl(urls, id) == [urls[0]] + rest;
        forall m | 0 <= m < |rest| ensures rest[m].id != urls[0].id {
          assert rest[m] in tail;
          var n :| 0 <= n < |tail| && tail[n] == rest[m];
        }
        PrependKeepsIds(urls[0], rest, next);
      } else {
        assert WithoutUrl(urls, id) == [] + rest;
      }
    }
  }

  /** Deleting an id no document has changes nothing. */
  lemma NoMatchRemovesNothing(urls: seq<UrlDoc>, id: Id)
    requires !HasUrl(urls, id)
    ensures WithoutUrl(urls, id) == urls
    decreases |urls|
  {
    if urls != [] {
      assert !HasUrl(urls[1..], id) by {
        forall n | 0 <= n < |urls[1..]| ensures urls[1..][n].id != id {
          assert urls[1..][n] == urls[n + 1];
        }
      }
      NoMatchRemovesNothing(urls[1..], id);
      assert urls == [urls[0]] + urls[1..];
    }
  }

  /** Updating an id no document has changes nothing. */
  lemma NoMatchUpdatesNothing(urls: seq<UrlDoc>, id: Id, v: Json)
    requires !HasUrl(urls, id)
    ensures SetUrl(urls, id, v) == urls
  {
  }

  /** Appending a document with a fresh id, and checks of it, keeps the
      database consistent. */
  lemma InsertKeepsConsistency(urls: seq<UrlDoc>, checks: seq<CheckDoc>, next: Id, doc: UrlDoc, added: seq<CheckDoc>)
    requires DistinctIds(urls) && IdsBelow(urls, next) && ChecksReferToUrls(urls, checks)
    requires doc.id == next
    requires forall n :: 0 <= n < |added| ==> added[n].urlId == next
    ensures !HasUrl(urls, next)
    ensures DistinctIds(urls + [doc]) && IdsBelow(urls + [doc], next + 1)
    ensures ChecksReferToUrls(urls + [doc], checks + added)
  {
    var us := urls + [doc];
    forall k | 0 <= k < |checks + added| ensures HasUrl(us, (checks + added)[k].urlId) {
      if k < |checks| {
        var i :| 0 <= i < |urls| && urls[i].id == checks[k].urlId;
        assert us[i] == urls[i];
      } else {
        assert us[|urls|] == doc;
      }
    }
  }

  /** The backend's database: the `urls` and `checks` collections and the
      source of fresh document ids. */
  class Database {
    var urls: seq<UrlDoc>
    var checks: seq<CheckDoc>
    var nextId: Id

    ghost predicate Valid()
      reads this
    {
      DistinctIds(urls) && IdsBelow(urls, nextId) && ChecksReferToUrls(urls, checks)
    }

    constructor ()
      ensures Valid() && urls == [] && checks == [] && nextId == 0
    {
      urls, checks, nextId := [], [], 0;
    }
  }
}
