/**
  v1/get-recent-webhook-events.php: the feed of recent webhook activity.
  The `limit` query parameter is clamped into [1, 50] (20 when absent); the
  matching activity-log rows and the stored webhook rows are concatenated,
  sorted newest first with `usort`, and cut to the limit.

  The two queries are abstracted to the row sequences they return, and
  timestamps to the integers `strtotime` makes of them.
*/
module RecentEvents {
  import opened Wrappers

  const DefaultLimit: int := 20
  const MaxLimit: int := 50

  datatype EventRow = EventRow(timestamp: int, level: string, message: string, details: string, instanceId: string)

  /** `min(50, max(1, $limit ?? 20))`. */
  function ClampLimit(requested: Option<int>): (limit: int)
    ensures 1 <= limit <= MaxLimit
    ensures requested.None? ==> limit == DefaultLimit
    ensures requested.Some? && 1 <= requested.value <= MaxLimit ==> limit == requested.value
    ensures requested.Some? && requested.value < 1 ==> limit == 1
    ensures requested.Some? && requested.value > MaxLimit ==> limit == MaxLimit
  {
    var n := if requested.Some? then requested.value else DefaultLimit;
    if n < 1 then 1 else if n > MaxLimit then MaxLimit else n
  }

  /** Timestamps never increase along the sequence. */
  predicate NewestFirst(s: seq<EventRow>)
  {
    forall p, q :: 0 <= p < q < |s| ==> s[p].timestamp >= s[q].timestamp
  }

  /** The `usort` with comparator `strtotime($b) - strtotime($a)`: an
      insertion sort that moves each row left past every strictly older
      one, so rows with equal timestamps keep their order. */
  method SortNewestFirst(a: array<EventRow>)
    modifies a
    ensures NewestFirst(a[..])
    ensures multiset(a[..]) == multiset(old(a[..]))
  {
    for i := 0 to a.Length
      invariant NewestFirst(a[..i])
      invariant multiset(a[..]) == multiset(old(a[..]))
    {
      InsertNewest(a, i);
    }
    assert a[..a.Length] == a[..];
  }

  /** One insertion step: with the first i rows newest first, move row i
      left past every strictly older row. */
  method InsertNewest(a: array<EventRow>, i: int)
    requires 0 <= i < a.Length
    requires NewestFirst(a[..i])
    modifies a
    ensures NewestFirst(a[..i + 1])
    ensures multiset(a[..]) == multiset(old(a[..]))
    ensures a[i + 1..] == old(a[i + 1..])
  {
    var j := i;
    while j > 0 && a[j - 1].timestamp < a[j].timestamp
      invariant 0 <= j <= i
      invariant forall p, q :: 0 <= p < q <= i && p != j && q != j ==> a[p].timestamp >= a[q].timestamp
      invariant forall q :: j < q <= i ==> a[j].timestamp > a[q].timestamp
      invariant multiset(a[..]) == multiset(old(a[..]))
      invariant a[i + 1..] == old(a[i + 1..])
      decreases j
    {
      a[j - 1], a[j] := a[j], a[j - 1];
      j := j - 1;
    }
  }

  /** Cutting a sequence after k rows splits its multiset in two. */
  lemma CutSplitsRows(all: seq<EventRow>, s: seq<EventRow>, k: nat)
    requires multiset(s) == multiset(all) && k <= |s|
    ensures multiset(s[..k]) <= multiset(all)
    ensures multiset(all) - multiset(s[..k]) == multiset(s[k..])
  {
    assert s == s[..k] + s[k..];
  }

  /** In a newest-first sequence no row after the cut is newer than a row
      before it. */
  lemma CutOrdersRows(s: seq<EventRow>, k: nat)
    requires NewestFirst(s) && k <= |s|
    ensures forall e, x :: e in s[..k] && x in s[k..] ==> e.timestamp >= x.timestamp
  {
    forall e, x | e in s[..k] && x in s[k..]
      ensures e.timestamp >= x.timestamp
    {
      var p :| 0 <= p < k && s[..k][p] == e;
      var q :| 0 <= q < |s| - k && s[k..][q] == x;
      assert s[p] == e && s[k + q] == x;
    }
  }

  /** A newest-first arrangement of some rows, cut after k rows, keeps k of
      those rows, and every row left out is no newer than any row kept. */
  lemma CutKeepsNewest(all: seq<EventRow>, s: seq<EventRow>, k: nat)
    requires NewestFirst(s) && multiset(s) == multiset(all) && k <= |s|
    ensures NewestFirst(s[..k])
    ensures multiset(s[..k]) <= multiset(all)
    ensures forall e, x :: e in s[..k] && x in multiset(all) - multiset(s[..k]) ==> e.timestamp >= x.timestamp
  {
    CutSplitsRows(all, s, k);
    CutOrdersRows(s, k);
    forall e, x | e in s[..k] && x in multiset(all) - multiset(s[..k])
      ensures e.timestamp >= x.timestamp
    {
      assert x in multiset(s[k..]);
    }
  }

  /** The endpoint: clamp, merge, sort, slice.  The result holds the `limit`
      newest rows of both sources (fewer when there are fewer), newest first. */
  method GetRecentWebhookEvents(requestedLimit: Option<int>, activityRows: seq<EventRow>, webhookRows: seq<EventRow>)
    returns (events: seq<EventRow>, count: nat)
    ensures count == |events|
    ensures |events| == if |activityRows| + |webhookRows| < ClampLimit(requestedLimit)
                        then |activityRows| + |webhookRows| else ClampLimit(requestedLimit)
    ensures NewestFirst(events)
    ensures multiset(events) <= multiset(activityRows + webhookRows)
    ensures forall e, x :: e in events && x in multiset(activityRows + webhookRows) - multiset(events) ==>
              e.timestamp >= x.timestamp
  {
    var limit := ClampLimit(requestedLimit);
    var allEvents := activityRows + webhookRows;
    var sorted := new EventRow[|allEvents|](i requires 0 <= i < |allEvents| => allEvents[i]);
    assert sorted[..] == allEvents;
    SortNewestFirst(sorted);
    var k := if sorted.Length < limit then sorted.Length else limit;
    events := sorted[..k];
    CutKeepsNewest(allEvents, sorted[..], k);
    assert sorted[..][..k] == events;
    count := |events|;
  }
}
