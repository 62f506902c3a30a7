/**
 * The check cycle of worker/worker.js (`runChecks`): visit every active URL
 * in natural order, skip it when its latest check is younger than
 * `CHECK_INTERVAL`, otherwise probe it and append exactly one check record.
 *
 * The world outside is an input: for the i-th URL visited, `env(i)` says
 * whether the lookup of its latest check throws, what `Date.now()` reads,
 * how the probe ends, what `new Date()` reads when the record is built, and
 * whether the inserts throw.
 */
module Worker {
  import opened Options
  import opened JsValues
  import opened Probe
  import opened Collections

  const DefaultCheckInterval := 60000

  /** `Number(process.env.CHECK_INTERVAL) || 60000`, where `configured` is the
      number the variable converts to, `None` when that is NaN (variable
      missing or not numeric). Zero and NaN are falsy and fall back. */
  function CheckInterval(configured: Option<int>): (interval: int)
    ensures interval != 0
    ensures configured.Some? && configured.value != 0 ==> interval == configured.value
    ensures configured.None? || configured.value == 0 ==> interval == DefaultCheckInterval
  {
    if configured.Some? && configured.value != 0 then configured.value else DefaultCheckInterval
  }

  /** Lines 23-29: a URL without a previous check is due; otherwise it is
      skipped while `now - lastCheckedAt < interval`. */
  predicate IsDue(lastCheckedAt: Option<int>, now: int, interval: int)
  {
    !(lastCheckedAt.Some? && now - lastCheckedAt.value < interval)
  }

  /** The due rule is inclusive at the boundary: exactly one interval after
      the last check the URL is probed again, one millisecond earlier it is not. */
  lemma DueBoundaryInclusive(t: int, interval: int)
    ensures IsDue(None, t, interval)
    ensures IsDue(Some(t), t + interval, interval)
    ensures !IsDue(Some(t), t + interval - 1, interval)
  {
  }

  /** `checkedAt` of `checks.findOne({ urlId: id }, { sort: { checkedAt: -1 } })`,
      found by scanning the checks from the newest insert backwards. */
  function LatestCheckedAt(checks: seq<CheckDoc>, id: Id): Option<int>
  {
    if checks == [] then None
    else
      var last := checks[|checks| - 1];
      var before := LatestCheckedAt(checks[..|checks| - 1], id);
      if last.urlId != id then before
      else if before.Some? && before.value >= last.checkedAt then before
      else Some(last.checkedAt)
  }

  /** The latest check of a URL is absent exactly when it has no check;
      otherwise it is the greatest `checkedAt` among its checks, whatever
      their outcome. */
  lemma {:induction false} LatestIsMaximum(checks: seq<CheckDoc>, id: Id)
    ensures var r := LatestCheckedAt(checks, id);
      && (r.None? <==> forall k :: 0 <= k < |checks| ==> checks[k].urlId != id)
      && (r.Some? ==> exists k :: 0 <= k < |checks| && checks[k].urlId == id && checks[k].checkedAt == r.value)
      && (r.Some? ==> forall k :: 0 <= k < |checks| && checks[k].urlId == id ==> checks[k].checkedAt <= r.value)
    decreases |checks|
  {
    if checks != [] {
      var init := checks[..|checks| - 1];
      LatestIsMaximum(init, id);
      assert forall k :: 0 <= k < |init| ==> init[k] == checks[k];
    }
  }

  /** Records of other URLs do not change a URL's latest check. */
  lemma LatestIgnoresOtherUrls(checks: seq<CheckDoc>, d: CheckDoc, id: Id)
    requires d.urlId != id
    ensures LatestCheckedAt(checks + [d], id) == LatestCheckedAt(checks, id)
  {
    assert (checks + [d])[..|checks|] == checks;
  }

  /** Lines 39-45: the record of a successful probe. */
  function SuccessRecord(id: Id, status: int, html: string, stamp: int): CheckDoc
  {
    CheckDoc(id, status, Utf16Length(html), CountAnchors(html), stamp)
  }

  /** Lines 51-57: the record written by the catch block. */
  function FailureRecord(id: Id, responseStatus: Option<int>, stamp: int): CheckDoc
  {
    CheckDoc(id, FailureStatus(responseStatus), 0, 0, stamp)
  }

  /** The record the worker writes for a probe whose inserts succeed. */
  function ProbeRecord(id: Id, o: Outcome, stamp: int): CheckDoc
  {
    if ProbeSucceeds(o) then SuccessRecord(id, o.status, o.data.html, stamp)
    else FailureRecord(id, CaughtResponseStatus(o), stamp)
  }

  /** The worker's record is `runCheck`'s result plus `urlId`: the two copies
      of the probe reduction agree. */
  lemma ProbeRecordIsRunCheck(id: Id, o: Outcome, stamp: int)
    ensures ProbeRecord(id, o, stamp) == Attach(id, RunCheck(o, stamp))
    ensures Detach(ProbeRecord(id, o, stamp)) == RunCheck(o, stamp)
  {
    if ProbeSucceeds(o) {
      CountAnchorsIsOccurrences(o.data.html);
    }
  }

  /** What the world does while the worker handles one URL. `insertFails`
      is about the first insert tried (line 39 after a successful probe,
      line 51 after a failed one); `fallbackInsertFails` about the line-51
      insert made after the line-39 insert threw. */
  datatype Attempt = Attempt(
    lookupFails: bool,
    now: int,
    outcome: Outcome,
    stamp: int,
    insertFails: bool,
    fallbackInsertFails: bool)

  /** No database call throws while this URL is handled. */
  predicate FaultFree(a: Attempt)
  {
    !a.lookupFails && !a.insertFails
  }

  datatype StepResult = Skip | Append(record: CheckDoc) | Abort

  /** One iteration of the loop at lines 16-59. A throw from `findOne`, or from
      the insert in the catch block, leaves the loop for the outer catch. */
  function Step(checks: seq<CheckDoc>, u: UrlDoc, a: Attempt, interval: int): StepResult
  {
    if a.lookupFails then Abort
    else if !IsDue(LatestCheckedAt(checks, u.id), a.now, interval) then Skip
    else if !a.insertFails then Append(ProbeRecord(u.id, a.outcome, a.stamp))
    else if ProbeSucceeds(a.outcome) then
      // the line-39 insert threw; its error has no `response`
      if a.fallbackInsertFails then Abort else Append(FailureRecord(u.id, None, a.stamp))
    else Abort
  }

  /** The checks collection after handling `todo`, the URLs from position `k`
      of the visit on. */
  function CycleFrom(checks: seq<CheckDoc>, todo: seq<UrlDoc>, env: nat -> Attempt, k: nat, interval: int)
    : seq<CheckDoc>
    decreases |todo|
  {
    if todo == [] then checks
    else
      match Step(checks, todo[0], env(k), interval)
      case Abort => checks
      case Skip => CycleFrom(checks, todo[1..], env, k + 1, interval)
      case Append(d) => CycleFrom(checks + [d], todo[1..], env, k + 1, interval)
  }

  /** The loop only appends: the old checks stay, as a prefix, and at most
      one record per URL visited is added. */
  lemma {:induction false} CycleFromExtends(checks: seq<CheckDoc>, todo: seq<UrlDoc>, env: nat -> Attempt, k: nat, interval: int)
    ensures var r := CycleFrom(checks, todo, env, k, interval);
      |checks| <= |r| <= |checks| + |todo| && r[..|checks|] == checks
    decreases |todo|
  {
    if todo != [] {
      match Step(checks, todo[0], env(k), interval)
      case Abort =>
      case Skip =>
        CycleFromExtends(checks, todo[1..], env, k + 1, interval);
      case Append(d) =>
        CycleFromExtends(checks + [d], todo[1..], env, k + 1, interval);
        var r := CycleFrom(checks + [d], todo[1..], env, k + 1, interval);
        assert r[..|checks|] == r[..|checks| + 1][..|checks|];
    }
  }

  /** Every record from position `from` on belongs to one of `urls`. */
  predicate RecordsFor(records: seq<CheckDoc>, from: nat, urls: seq<UrlDoc>)
  {
    forall n :: from <= n < |records| ==> HasUrl(urls, records[n].urlId)
  }

  /** Every record a cycle appends belongs to one of the URLs it visits. */
  lemma {:induction false} CycleFromAppendsForVisited(checks: seq<CheckDoc>, todo: seq<UrlDoc>, env: nat -> Attempt, k: nat, interval: int)
    ensures RecordsFor(CycleFrom(checks, todo, env, k, interval), |checks|, todo)
    decreases |todo|
  {
    if todo != [] {
      var r := CycleFrom(checks, todo, env, k, interval);
      match Step(checks, todo[0], env(k), interval)
      case Abort =>
      case Skip =>
        CycleFromAppendsForVisited(checks, todo[1..], env, k + 1, interval);
        forall n | |checks| <= n < |r| ensures HasUrl(todo, r[n].urlId) {
          assert HasUrl(todo[1..], r[n].urlId);
          var j :| 0 <= j < |todo[1..]| && todo[1..][j].id == r[n].urlId;
          assert todo[j + 1].id == r[n].urlId;
        }
      case Append(d) =>
        CycleFromAppendsForVisited(checks + [d], todo[1..], env, k + 1, interval);
        CycleFromExtends(checks + [d], todo[1..], env, k + 1, interval);
        assert d.urlId == todo[0].id;
        forall n | |checks| <= n < |r| ensures HasUrl(todo, r[n].urlId) {
          if n == |checks| {
            assert r[n] == r[..|checks| + 1][n] == d;
          } else {
            assert HasUrl(todo[1..], r[n].urlId);
            var j :| 0 <= j < |todo[1..]| && todo[1..][j].id == r[n].urlId;
            assert todo[j + 1].id == r[n].urlId;
          }
        }
    }
  }

  /** The checks collection after one run of `runChecks` (lines 6-65). When
      listing the active URLs throws, nothing is probed. */
  function Cycle(urls: seq<UrlDoc>, checks: seq<CheckDoc>, listFails: bool, env: nat -> Attempt, interval: int)
    : seq<CheckDoc>
  {
    if listFails then checks else CycleFrom(checks, ActiveUrls(urls), env, 0, interval)
  }

  /** `runChecks`, step by step. */
  method RunChecks(db: Database, listFails: bool, env: nat -> Attempt, configured: Option<int>)
    requires db.Valid()
    modifies db
    ensures db.Valid()
    ensures db.urls == old(db.urls) && db.nextId == old(db.nextId)
    ensures db.checks == Cycle(old(db.urls), old(db.checks), listFails, env, CheckInterval(configured))
  {
    var interval := CheckInterval(configured);
    if listFails {
      return;
    }
    var urls := ActiveUrls(db.urls);
    var i := 0;
    while i < |urls|
      invariant 0 <= i <= |urls|
      invariant db.urls == old(db.urls) && db.nextId == old(db.nextId)
      invariant CycleFrom(db.checks, urls[i..], env, i, interval) == CycleFrom(old(db.checks), urls, env, 0, interval)
    {
      var u, a := urls[i], env(i);
      assert urls[i..][0] == u && urls[i..][1..] == urls[i + 1..];
      if a.lookupFails {
        break;
      }
      var last := LatestCheckedAt(db.checks, u.id);
      if last.Some? && a.now - last.value < interval {
        i := i + 1;
        continue;
      }
      if ProbeSucceeds(a.outcome) {
        if a.insertFails {
          if a.fallbackInsertFails {
            break;
          }
          db.checks := db.checks + [FailureRecord(u.id, None, a.stamp)];
        } else {
          db.checks := db.checks + [SuccessRecord(u.id, a.outcome.status, a.outcome.data.html, a.stamp)];
        }
      } else {
        if a.insertFails {
          break;
        }
        db.checks := db.checks + [FailureRecord(u.id, CaughtResponseStatus(a.outcome), a.stamp)];
      }
      i := i + 1;
    }
    CycleKeepsChecksAttached(db.urls, old(db.checks), listFails, env, interval);
  }

  /** Every check the cycle appends belongs to an active URL, so the cycle
      keeps every check attached to an existing URL. */
  lemma CycleKeepsChecksAttached(urls: seq<UrlDoc>, checks: seq<CheckDoc>, listFails: bool, env: nat -> Attempt, interval: int)
    requires ChecksReferToUrls(urls, checks)
    ensures ChecksReferToUrls(urls, Cycle(urls, checks, listFails, env, interval))
  {
    var r := Cycle(urls, checks, listFails, env, interval);
    if !listFails {
      var active := ActiveUrls(urls);
      CycleFromAppendsForVisited(checks, active, env, 0, interval);
      CycleFromExtends(checks, active, env, 0, interval);
      forall n | 0 <= n < |r| ensures HasUrl(urls, r[n].urlId) {
        if n < |checks| {
          assert r[n] == r[..|checks|][n] == checks[n];
        } else {
          assert HasUrl(active, r[n].urlId);
          var j :| 0 <= j < |active| && active[j].id == r[n].urlId;
          assert active[j] in urls;
        }
      }
    }
  }

  /** A URL whose document is not active never receives a new check. */
  lemma InactiveNeverProbed(urls: seq<UrlDoc>, checks: seq<CheckDoc>, listFails: bool, env: nat -> Attempt, interval: int, u: UrlDoc)
    requires DistinctIds(urls) && u in urls && !u.isActive
    ensures var r := Cycle(urls, checks, listFails, env, interval);
      forall n :: |checks| <= n < |r| ==> r[n].urlId != u.id
  {
    var r := Cycle(urls, checks, listFails, env, interval);
    if !listFails {
      var active := ActiveUrls(urls);
      CycleFromAppendsForVisited(checks, active, env, 0, interval);
      forall n | |checks| <= n < |r| ensures r[n].urlId != u.id {
        assert HasUrl(active, r[n].urlId);
        var j :| 0 <= j < |active| && active[j].id == r[n].urlId;
        var v := active[j];
        assert v in urls && v.isActive;
      }
    }
  }

  /** A later probe of the same URL made less than an interval after a
      recorded check is skipped, whether that check recorded a success or a
      failure: every outcome resets the timer. */
  lemma RecentlyCheckedIsSkipped(checks: seq<CheckDoc>, u: UrlDoc, a: Attempt, interval: int, d: CheckDoc, later: Attempt)
    requires Step(checks, u, a, interval) == Append(d)
    requires !later.lookupFails && later.now - d.checkedAt < interval
    ensures Step(checks + [d], u, later, interval) == Skip
  {
    var last := LatestCheckedAt(checks + [d], u.id);
    LatestIsMaximum(checks + [d], u.id);
    assert (checks + [d])[|checks|] == d;
    assert last.Some? && d.checkedAt <= last.value;
  }

  // ---------------------------------------------------------------------------
  // A cycle in which no database call throws

  /** The checks a cycle without database faults appends for `todo` (from
      visit position `k` on): one probe record for each due URL, in order,
      with dueness judged against `checks`. */
  function DueRecords(checks: seq<CheckDoc>, todo: seq<UrlDoc>, env: nat -> Attempt, k: nat, interval: int)
    : (r: seq<CheckDoc>)
    ensures |r| <= |todo|
    decreases |todo|
  {
    if todo == [] then []
    else
      var a := env(k);
      var head := if IsDue(LatestCheckedAt(checks, todo[0].id), a.now, interval)
        then [ProbeRecord(todo[0].id, a.outcome, a.stamp)] else [];
      head + DueRecords(checks, todo[1..], env, k + 1, interval)
  }

  /** Every due record belongs to one of the URLs visited. */
  lemma {:induction false} DueRecordsForVisited(checks: seq<CheckDoc>, todo: seq<UrlDoc>, env: nat -> Attempt, k: nat, interval: int)
    ensures RecordsFor(DueRecords(checks, todo, env, k, interval), 0, todo)
    decreases |todo|
  {
    if todo != [] {
      var a := env(k);
      var head := if IsDue(LatestCheckedAt(checks, todo[0].id), a.now, interval)
        then [ProbeRecord(todo[0].id, a.outcome, a.stamp)] else [];
      var tail := DueRecords(checks, todo[1..], env, k + 1, interval);
      var r := head + tail;
      DueRecordsForVisited(checks, todo[1..], env, k + 1, interval);
      forall n | 0 <= n < |r| ensures HasUrl(todo, r[n].urlId) {
        if n < |head| {
          assert r[n].urlId == todo[0].id;
        } else {
          assert r[n] == tail[n - |head|];
          assert HasUrl(todo[1..], r[n].urlId);
          var j :| 0 <= j < |todo[1..]| && todo[1..][j].id == r[n].urlId;
          assert todo[j + 1].id == r[n].urlId;
        }
      }
    }
  }

  /** Records of a URL outside `todo` do not change which URLs of `todo` are due. */
  lemma {:induction false} DueRecordsIgnoreOtherUrls(checks: seq<CheckDoc>, d: CheckDoc, todo: seq<UrlDoc>, env: nat -> Attempt, k: nat, interval: int)
    requires !HasUrl(todo, d.urlId)
    ensures DueRecords(checks + [d], todo, env, k, interval) == DueRecords(checks, todo, env, k, interval)
    decreases |todo|
  {
    if todo != [] {
      LatestIgnoresOtherUrls(checks, d, todo[0].id);
      assert !HasUrl(todo[1..], d.urlId) by {
        forall m | 0 <= m < |todo[1..]| ensures todo[1..][m].id != d.urlId {
          assert todo[1..][m] == todo[m + 1];
        }
      }
      DueRecordsIgnoreOtherUrls(checks, d, todo[1..], env, k + 1, interval);
    }
  }

  /** The checks after handling `todo` when no database call throws: each
      URL whose latest check, in the log as it stands when the URL is
      reached, is old enough gets its probe record. */
  function FaultFreeFrom(checks: seq<CheckDoc>, todo: seq<UrlDoc>, env: nat -> Attempt, k: nat, interval: int)
    : seq<CheckDoc>
    decreases |todo|
  {
    if todo == [] then checks
    else
      var a := env(k);
      var next := if IsDue(LatestCheckedAt(checks, todo[0].id), a.now, interval)
        then checks + [ProbeRecord(todo[0].id, a.outcome, a.stamp)] else checks;
      FaultFreeFrom(next, todo[1..], env, k + 1, interval)
  }

  /** Failure isolation: as long as no database call throws, each URL is
      handled as planned, whatever its probe outcome, and the cycle goes on
      to the next. After the URLs of `front` the collection is as
      `FaultFreeFrom` says, and the cycle proceeds from there with `back`. */
  lemma {:induction false} FaultFreePrefix(checks: seq<CheckDoc>, front: seq<UrlDoc>, back: seq<UrlDoc>, env: nat -> Attempt, k: nat, interval: int)
    requires forall i :: k <= i < k + |front| ==> FaultFree(env(i))
    ensures CycleFrom(checks, front + back, env, k, interval)
         == CycleFrom(FaultFreeFrom(checks, front, env, k, interval), back, env, k + |front|, interval)
    decreases |front|
  {
    if front == [] {
      assert front + back == back;
    } else {
      var a := env(k);
      var todo := front + back;
      assert todo[0] == front[0] && todo[1..] == front[1..] + back;
      var next := if IsDue(LatestCheckedAt(checks, front[0].id), a.now, interval)
        then checks + [ProbeRecord(front[0].id, a.outcome, a.stamp)] else checks;
      assert CycleFrom(checks, todo, env, k, interval) == CycleFrom(next, front[1..] + back, env, k + 1, interval);
      FaultFreePrefix(next, front[1..], back, env, k + 1, interval);
      assert k + 1 + |front[1..]| == k + |front|;
    }
  }

  /** With distinct ids a record appended for one URL never changes whether
      a later URL is due, so the fault-free cycle appends exactly the records
      planned against the log as it was before the cycle. */
  lemma {:induction false} FaultFreeFromIsDueRecords(checks: seq<CheckDoc>, todo: seq<UrlDoc>, env: nat -> Attempt, k: nat, interval: int)
    requires DistinctIds(todo)
    ensures FaultFreeFrom(checks, todo, env, k, interval) == checks + DueRecords(checks, todo, env, k, interval)
    decreases |todo|
  {
    if todo == [] {
      assert checks + [] == checks;
    } else {
      HeadIdNotInRest(todo);
      var a := env(k);
      if IsDue(LatestCheckedAt(checks, todo[0].id), a.now, interval) {
        var d := ProbeRecord(todo[0].id, a.outcome, a.stamp);
        FaultFreeFromIsDueRecords(checks + [d], todo[1..], env, k + 1, interval);
        DueRecordsIgnoreOtherUrls(checks, d, todo[1..], env, k + 1, interval);
        DueHeadJoins(checks, todo, env, k, interval);
      } else {
        FaultFreeFromIsDueRecords(checks, todo[1..], env, k + 1, interval);
        SkippedHeadJoins(checks, todo, env, k, interval);
      }
    }
  }

  /** The step of the induction above for a due first URL: its record,
      followed by the records planned for the rest against the log before
      it, is what was planned for the whole. */
  lemma DueHeadJoins(checks: seq<CheckDoc>, todo: seq<UrlDoc>, env: nat -> Attempt, k: nat, interval: int)
    requires todo != [] && IsDue(LatestCheckedAt(checks, todo[0].id), env(k).now, interval)
    requires var d := ProbeRecord(todo[0].id, env(k).outcome, env(k).stamp);
      && FaultFreeFrom(checks + [d], todo[1..], env, k + 1, interval)
         == checks + [d] + DueRecords(checks + [d], todo[1..], env, k + 1, interval)
      && DueRecords(checks + [d], todo[1..], env, k + 1, interval)
         == DueRecords(checks, todo[1..], env, k + 1, interval)
    ensures FaultFreeFrom(checks, todo, env, k, interval) == checks + DueRecords(checks, todo, env, k, interval)
  {
    var d := ProbeRecord(todo[0].id, env(k).outcome, env(k).stamp);
    var tail := DueRecords(checks, todo[1..], env, k + 1, interval);
    assert DueRecords(checks, todo, env, k, interval) == [d] + tail;
    assert checks + [d] + tail == checks + ([d] + tail);
  }

  /** The step of the induction above for a first URL that is not due. */
  lemma SkippedHeadJoins(checks: seq<CheckDoc>, todo: seq<UrlDoc>, env: nat -> Attempt, k: nat, interval: int)
    requires todo != [] && !IsDue(LatestCheckedAt(checks, todo[0].id), env(k).now, interval)
    requires FaultFreeFrom(checks, todo[1..], env, k + 1, interval)
         == checks + DueRecords(checks, todo[1..], env, k + 1, interval)
    ensures FaultFreeFrom(checks, todo, env, k, interval) == checks + DueRecords(checks, todo, env, k, interval)
  {
    var tail := DueRecords(checks, todo[1..], env, k + 1, interval);
    assert DueRecords(checks, todo, env, k, interval) == [] + tail;
  }

  /** With distinct ids, the first URL's id is not among the next ones, and
      the next ones still have distinct ids. */
  lemma HeadIdNotInRest(todo: seq<UrlDoc>)
    requires todo != [] && DistinctIds(todo)
    ensures DistinctIds(todo[1..])
    ensures !HasUrl(todo[1..], todo[0].id)
  {
    assert forall m :: 0 <= m < |todo[1..]| ==> todo[1..][m] == todo[m + 1];
  }

  /** A cycle in which no database call throws appends exactly the due
      records, in visit order: probe failures never cut a cycle short. */
  lemma FaultFreeCycle(urls: seq<UrlDoc>, checks: seq<CheckDoc>, env: nat -> Attempt, interval: int)
    requires DistinctIds(urls)
    requires forall i :: 0 <= i < |ActiveUrls(urls)| ==> FaultFree(env(i))
    ensures Cycle(urls, checks, false, env, interval)
         == checks + DueRecords(checks, ActiveUrls(urls), env, 0, interval)
  {
    var active := ActiveUrls(urls);
    assert active + [] == active;
    ActiveUrlsKeepIds(urls);
    FaultFreePrefix(checks, active, [], env, 0, interval);
    FaultFreeFromIsDueRecords(checks, active, env, 0, interval);
  }

  /** When a URL's handling throws out of the loop (line 62): the lookup at
      lines 18-21 throws, or the URL is due and the insert of its record
      throws with no fallback left, the failure record's own insert at line
      51 included. Otherwise the URL is skipped or gets exactly one record. */
  lemma StepAbortIff(checks: seq<CheckDoc>, u: UrlDoc, a: Attempt, interval: int)
    ensures Step(checks, u, a, interval) == Abort <==>
      a.lookupFails
      || (IsDue(LatestCheckedAt(checks, u.id), a.now, interval)
          && a.insertFails && (!ProbeSucceeds(a.outcome) || a.fallbackInsertFails))
    ensures Step(checks, u, a, interval).Append? ==> Step(checks, u, a, interval).record.urlId == u.id
  {
  }

  /** Where isolation breaks: after fault-free URLs, a due URL whose
      catch-block insert throws (after a failed probe, or after a successful
      probe whose own insert threw) ends the cycle. The log keeps what the
      earlier URLs produced, and the URLs after it get nothing. */
  lemma FailureInsertStopsCycle(checks: seq<CheckDoc>, front: seq<UrlDoc>, back: seq<UrlDoc>, env: nat -> Attempt, interval: int)
    requires back != []
    requires forall i :: 0 <= i < |front| ==> FaultFree(env(i))
    requires var a := env(|front|); !a.lookupFails && a.insertFails && (!ProbeSucceeds(a.outcome) || a.fallbackInsertFails)
    requires IsDue(LatestCheckedAt(FaultFreeFrom(checks, front, env, 0, interval), back[0].id), env(|front|).now, interval)
    ensures CycleFrom(checks, front + back, env, 0, interval) == FaultFreeFrom(checks, front, env, 0, interval)
  {
    FaultFreePrefix(checks, front, back, env, 0, interval);
    var pre := FaultFreeFrom(checks, front, env, 0, interval);
    StepAbortIff(pre, back[0], env(|front|), interval);
    AbortStopsCycle(pre, back, env, |front|, interval);
  }

  /** After fault-free URLs, a lookup of the latest check that throws ends
      the cycle in the same way, due or not. */
  lemma LookupFailureStopsCycle(checks: seq<CheckDoc>, front: seq<UrlDoc>, back: seq<UrlDoc>, env: nat -> Attempt, interval: int)
    requires back != []
    requires forall i :: 0 <= i < |front| ==> FaultFree(env(i))
    requires env(|front|).lookupFails
    ensures CycleFrom(checks, front + back, env, 0, interval) == FaultFreeFrom(checks, front, env, 0, interval)
  {
    FaultFreePrefix(checks, front, back, env, 0, interval);
    var pre := FaultFreeFrom(checks, front, env, 0, interval);
    StepAbortIff(pre, back[0], env(|front|), interval);
    AbortStopsCycle(pre, back, env, |front|, interval);
  }

  /** A URL whose handling throws out of the loop ends the cycle: nothing
      more is appended. */
  lemma AbortStopsCycle(checks: seq<CheckDoc>, todo: seq<UrlDoc>, env: nat -> Attempt, k: nat, interval: int)
    requires todo != [] && Step(checks, todo[0], env(k), interval) == Abort
    ensures CycleFrom(checks, todo, env, k, interval) == checks
  {
  }

  /** Isolation survives one database fault: when the probe succeeded but
      its insert threw, and the catch block's insert succeeds, the URL gets
      a failure record with the sentinel status (the insert's error has no
      `response`) and the cycle goes on with the next URL. */
  lemma FallbackRecordContinues(checks: seq<CheckDoc>, todo: seq<UrlDoc>, env: nat -> Attempt, k: nat, interval: int)
    requires todo != []
    requires var a := env(k);
      !a.lookupFails && ProbeSucceeds(a.outcome) && a.insertFails && !a.fallbackInsertFails
    requires IsDue(LatestCheckedAt(checks, todo[0].id), env(k).now, interval)
    ensures var d := FailureRecord(todo[0].id, None, env(k).stamp);
      && d.statusCode == SentinelStatus && d.htmlSize == 0 && d.linkCount == 0
      && CycleFrom(checks, todo, env, k, interval) == CycleFrom(checks + [d], todo[1..], env, k + 1, interval)
  {
  }

  /** Number of records of URL `id`. */
  function CountFor(records: seq<CheckDoc>, id: Id): nat
  {
    if records == [] then 0
    else (if records[0].urlId == id then 1 else 0) + CountFor(records[1..], id)
  }

  lemma {:induction false} CountForAppend(a: seq<CheckDoc>, b: seq<CheckDoc>, id: Id)
    ensures CountFor(a + b, id) == CountFor(a, id) + CountFor(b, id)
    decreases |a|
  {
    if a == [] {
      assert a + b == b;
    } else {
      assert (a + b)[1..] == a[1..] + b;
      CountForAppend(a[1..], b, id);
    }
  }

  lemma {:induction false} CountForAbsent(records: seq<CheckDoc>, id: Id)
    requires forall n :: 0 <= n < |records| ==> records[n].urlId != id
    ensures CountFor(records, id) == 0
    decreases |records|
  {
    if records != [] {
      CountForAbsent(records[1..], id);
    }
  }

  /** Each due URL gets exactly one record, every other URL none. */
  lemma {:induction false} DueRecordsExactlyOnce(checks: seq<CheckDoc>, todo: seq<UrlDoc>, env: nat -> Attempt, k: nat, interval: int, i: nat)
    requires i < |todo| && DistinctIds(todo)
    ensures CountFor(DueRecords(checks, todo, env, k, interval), todo[i].id)
         == if IsDue(LatestCheckedAt(checks, todo[i].id), env(k + i).now, interval) then 1 else 0
    decreases |todo|
  {
    var a := env(k);
    var rest := todo[1..];
    var head := if IsDue(LatestCheckedAt(checks, todo[0].id), a.now, interval)
      then [ProbeRecord(todo[0].id, a.outcome, a.stamp)] else [];
    var tail := DueRecords(checks, rest, env, k + 1, interval);
    assert DueRecords(checks, todo, env, k, interval) == head + tail;
    CountForAppend(head, tail, todo[i].id);
    assert CountFor(head, todo[i].id) == if head != [] && i == 0 then 1 else 0 by {
      if head != [] {
        assert head[1..] == [];
        assert i != 0 ==> todo[0].id != todo[i].id;
      }
    }
    if i == 0 {
      LaterRecordsSkipHead(checks, todo, env, k, interval);
    } else {
      assert DistinctIds(rest);
      assert rest[i - 1] == todo[i];
      DueRecordsExactlyOnce(checks, rest, env, k + 1, interval, i - 1);
    }
  }

  /** With distinct ids, none of the records planned for the URLs after the
      first belongs to the first. */
  lemma LaterRecordsSkipHead(checks: seq<CheckDoc>, todo: seq<UrlDoc>, env: nat -> Attempt, k: nat, interval: int)
    requires todo != [] && DistinctIds(todo)
    ensures CountFor(DueRecords(checks, todo[1..], env, k + 1, interval), todo[0].id) == 0
  {
    var rest := todo[1..];
    var tail := DueRecords(checks, rest, env, k + 1, interval);
    DueRecordsForVisited(checks, rest, env, k + 1, interval);
    forall n | 0 <= n < |tail| ensures tail[n].urlId != todo[0].id {
      assert HasUrl(rest, tail[n].urlId);
      var m :| 0 <= m < |rest| && rest[m].id == tail[n].urlId;
      assert todo[m + 1].id == tail[n].urlId;
    }
    CountForAbsent(tail, todo[0].id);
  }

  /** In a cycle without database faults, a URL with no previous check gets
      exactly one record: afterwards it has exactly one check. */
  lemma NeverCheckedIsProbedOnce(urls: seq<UrlDoc>, checks: seq<CheckDoc>, env: nat -> Attempt, interval: int, i: nat)
    requires DistinctIds(urls)
    requires forall n :: 0 <= n < |ActiveUrls(urls)| ==> FaultFree(env(n))
    requires i < |ActiveUrls(urls)|
    requires forall n :: 0 <= n < |checks| ==> checks[n].urlId != ActiveUrls(urls)[i].id
    ensures CountFor(Cycle(urls, checks, false, env, interval), ActiveUrls(urls)[i].id) == 1
  {
    var active := ActiveUrls(urls);
    var id := active[i].id;
    FaultFreeCycle(urls, checks, env, interval);
    ActiveUrlsKeepIds(urls);
    DueRecordsExactlyOnce(checks, active, env, 0, interval, i);
    LatestIsMaximum(checks, id);
    CountForAppend(checks, DueRecords(checks, active, env, 0, interval), id);
    CountForAbsent(checks, id);
  }
}
