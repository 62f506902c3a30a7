/**
 * One probe of a monitored URL, as `runCheck` in backend/utils/runCheck.js
 * does it: an axios GET whose outcome is reduced to a fixed record, with
 * every error caught.
 *
 * The HTTP request itself is not modelled: its outcome is an input.
 */
module Probe {
  import opened Options
  import opened JsValues

  /** What `response.data` holds: the body as text, or the value axios parsed
      it into when it was JSON other than a string (object, array, number,
      boolean, null). */
  datatype Data = Text(html: string) | Parsed

  /** The outcome of `axios.get(url, { timeout: 10000 })`: a response (axios
      resolves only for 2xx by default), or a rejection carrying the status of
      the failed response when there was one (a timeout or DNS failure has none). */
  datatype Outcome =
    | Responded(status: int, data: Data)
    | Rejected(responseStatus: Option<int>, message: string)

  /** The record `runCheck` returns. */
  datatype CheckResult = CheckResult(statusCode: int, htmlSize: nat, linkCount: nat, checkedAt: int)

  /** The sentinel status used when no real status is available. */
  const SentinelStatus := 500

  /** `err.response?.status || 500`: the failed response's status when there is
      one and it is truthy (non-zero), else the sentinel. */
  function FailureStatus(responseStatus: Option<int>): (s: int)
    ensures s != 0
    ensures responseStatus.Some? && responseStatus.value != 0 ==> s == responseStatus.value
    ensures responseStatus.None? || responseStatus.value == 0 ==> s == SentinelStatus
  {
    if responseStatus.Some? && responseStatus.value != 0 then responseStatus.value else SentinelStatus
  }

  /** Whether the success path of the probe completes: a response whose data
      is a string. For any other data `html.match` throws a TypeError, which
      carries no `response`. */
  predicate ProbeSucceeds(o: Outcome)
  {
    o.Responded? && o.data.Text?
  }

  /** `err.response?.status` of the error the catch block sees. */
  function CaughtResponseStatus(o: Outcome): Option<int>
  {
    if o.Rejected? then o.responseStatus else None
  }

  // ---------------------------------------------------------------------------
  // Link counting: `(html.match(/<a /g) || []).length`

  /** An occurrence of the three characters `<a ` at position `i`. */
  predicate AnchorAt(s: string, i: int)
  {
    0 <= i && i + 3 <= |s| && s[i] == '<' && s[i + 1] == 'a' && s[i + 2] == ' '
  }

  /** The global regular-expression match: scan from the left, and after a
      match resume right behind it. */
  function CountAnchors(s: string): (n: nat)
    ensures 3 * n <= |s|
    decreases |s|
  {
    if |s| < 3 then 0
    else if AnchorAt(s, 0) then 1 + CountAnchors(s[3..])
    else CountAnchors(s[1..])
  }

  /** Reference count: every position where `<a ` starts, overlapping or not. */
  function Occurrences(s: string): nat
    decreases |s|
  {
    if |s| < 3 then 0
    else (if AnchorAt(s, 0) then 1 else 0) + Occurrences(s[1..])
  }

  /** `<a ` cannot overlap itself, so the left-to-right scan finds every
      occurrence. */
  lemma {:induction false} CountAnchorsIsOccurrences(s: string)
    ensures CountAnchors(s) == Occurrences(s)
    decreases |s|
  {
    if |s| >= 3 {
      if AnchorAt(s, 0) {
        // the next two positions hold 'a' and ' ', so no match starts there
        OccurrencesSkip(s[1..], 2);
        assert s[1..][2..] == s[3..];
        CountAnchorsIsOccurrences(s[3..]);
      } else {
        CountAnchorsIsOccurrences(s[1..]);
      }
    }
  }

  /** The reference count is zero exactly when `<a ` occurs nowhere. */
  lemma {:induction false} OccurrencesZeroIffAbsent(s: string)
    ensures Occurrences(s) == 0 <==> forall i :: !AnchorAt(s, i)
    decreases |s|
  {
    if |s| >= 3 {
      OccurrencesZeroIffAbsent(s[1..]);
      forall i | AnchorAt(s[1..], i) ensures AnchorAt(s, i + 1) {}
      forall i | 1 <= i && AnchorAt(s, i) ensures AnchorAt(s[1..], i - 1) {}
    }
  }

  /** The link count is zero exactly when the body has no `<a `. */
  lemma NoAnchorsIffZero(s: string)
    ensures CountAnchors(s) == 0 <==> forall i :: !AnchorAt(s, i)
  {
    CountAnchorsIsOccurrences(s);
    OccurrencesZeroIffAbsent(s);
  }

  /** A body that starts with `<a ` has one link more than the rest of it. */
  lemma AnchorPrefix(t: string)
    ensures CountAnchors("<a " + t) == 1 + CountAnchors(t)
  {
    assert AnchorAt("<a " + t, 0);
    assert ("<a " + t)[3..] == t;
  }

  /** Text without `<` in front of the body adds no links. */
  lemma {:induction false} PlainTextPrefix(u: string, t: string)
    requires forall i :: 0 <= i < |u| ==> u[i] != '<'
    ensures CountAnchors(u + t) == CountAnchors(t)
    decreases |u|
  {
    if u != [] {
      var s := u + t;
      assert s[0] == u[0];
      assert s[1..] == u[1..] + t;
      PlainTextPrefix(u[1..], t);
      if |s| >= 3 {
        assert !AnchorAt(s, 0);
        assert CountAnchors(s) == CountAnchors(s[1..]);
      } else {
        assert CountAnchors(s) == 0 == CountAnchors(s[1..]);
      }
    } else {
      assert u + t == t;
    }
  }

  /** An anchor followed by text without `<` is one link more than what
      comes after the text. */
  lemma AnchoredText(u: string, t: string)
    requires forall i :: 0 <= i < |u| ==> u[i] != '<'
    ensures CountAnchors("<a " + u + t) == 1 + CountAnchors(t)
  {
    assert "<a " + u + t == "<a " + (u + t);
    AnchorPrefix(u + t);
    PlainTextPrefix(u, t);
  }

  /** Two anchors, each followed by text without `<`, are two links
      (`<a href=1><a href=2>` is an instance). */
  lemma TwoAnchors(u: string, v: string)
    requires forall i :: 0 <= i < |u| ==> u[i] != '<'
    requires forall i :: 0 <= i < |v| ==> v[i] != '<'
    ensures CountAnchors("<a " + u + "<a " + v) == 2
  {
    AnchoredText(v, "");
    assert "<a " + v + "" == "<a " + v;
    AnchoredText(u, "<a " + v);
    assert "<a " + u + "<a " + v == "<a " + u + ("<a " + v);
  }

  /** Matching is case-sensitive and needs the space: `<A href=1>` and `<a>`
      have no links. */
  lemma NoLinkExamples()
    ensures CountAnchors("<A href=1>") == 0
    ensures CountAnchors("<a>") == 0
  {
    var s := "<A href=1>";
    assert !AnchorAt(s, 0);
    assert s[1..] == "A href=1>" + "";
    PlainTextPrefix("A href=1>", "");
    assert !AnchorAt("<a>", 0);
  }

  /** Dropping a prefix without occurrences does not change the reference count. */
  lemma {:induction false} OccurrencesSkip(s: string, k: nat)
    requires k <= |s|
    requires forall i :: 0 <= i < k ==> !AnchorAt(s, i)
    ensures Occurrences(s) == Occurrences(s[k..])
    decreases k
  {
    if k > 0 {
      assert !AnchorAt(s, 0);
      forall i | 0 <= i < k - 1 ensures !AnchorAt(s[1..], i) {
        assert !AnchorAt(s, i + 1);
      }
      OccurrencesSkip(s[1..], k - 1);
      assert s[1..][k - 1..] == s[k..];
    }
  }

  // ---------------------------------------------------------------------------
  // runCheck

  /** `runCheck(url)` given the probe's outcome and the clock reading of
      `new Date()`: total, whatever the outcome. */
  function RunCheck(o: Outcome, now: int): (r: CheckResult)
    ensures r.checkedAt == now
    ensures 3 * r.linkCount <= r.htmlSize
    ensures ProbeSucceeds(o) ==>
      r.statusCode == o.status && r.htmlSize == Utf16Length(o.data.html)
      && r.linkCount == Occurrences(o.data.html)
    // a failed probe never reports status 0 (see `FailureStatus`)
    ensures !ProbeSucceeds(o) ==>
      r.htmlSize == 0 && r.linkCount == 0 && r.statusCode == FailureStatus(CaughtResponseStatus(o))
  {
    match o
    case Responded(status, Text(html)) =>
      CountAnchorsIsOccurrences(html);
      CheckResult(status, Utf16Length(html), CountAnchors(html), now)
    case _ =>
      CheckResult(FailureStatus(CaughtResponseStatus(o)), 0, 0, now)
  }
}
