// RemoteAwareQpsBucket (polaris/quota/quota_bucket_qps.cpp): one token bucket per window length, all
// of which must grant a request.
module QpsBucket {
  import opened Common
  import opened TokenBucket

  datatype Response = Response(granted: bool, leftQuota: int, allQuota: int, duration: nat, degraded: bool)

  // A report: when it was made and what each bucket had granted.
  datatype Report = Report(time: nat, usage: map<nat, Usage>)

  // A reply: when the server made it, what it leaves in each window, and the report it answers, if any.
  datatype Reply = Reply(time: nat, left: map<nat, int>, report: Option<Report>)

  // A reply from an earlier window says nothing about the current one.
  function RemoteValue(globalMax: int, reply: Reply, d: nat, now: nat): int
    requires d > 0 && d in reply.left
  {
    if reply.time / d != now / d then globalMax else reply.left[d]
  }

  // The part of the acknowledged report that belongs to the current window.
  function Acknowledged(reply: Reply, d: nat, now: nat): int
    requires d > 0
  {
    if reply.report.None? || reply.report.value.time / d != now / d || d !in reply.report.value.usage
    then 0 else reply.report.value.usage[d].granted
  }

  // What a reply makes of the bucket of window length d, if the last sync was at `sync`.
  ghost function RefreshedBy(b: Bucket, reply: Reply, d: nat, now: nat, sync: nat): Bucket
    requires d > 0
  {
    if d !in reply.left then b
    else Refreshed(b, RemoteValue(b.globalMax, reply, d, now), Acknowledged(reply, d, now),
                   now / d, now >= sync + d, now % d)
  }

  // A reply seen from the fields: a number from the present window is taken as it is, one from an earlier
  // window stands for the whole quota.  If the quota had expired that is what is left; otherwise the
  // grants since the last reply that the acknowledged report does not carry are taken off.
  ghost predicate ShowsReply(before: Bucket, after: Bucket, reply: Reply, d: nat, now: nat, sync: nat)
    requires d > 0 && d in reply.left
  {
    var acked := if reply.report.Some? && reply.report.value.time / d == now / d && d in reply.report.value.usage
                 then reply.report.value.usage[d].granted else 0;
    && after.time == now / d
    && after.total == (if reply.time / d == now / d then reply.left[d] else before.globalMax)
    && (now >= sync + d ==> after.left == after.total)
    && (now < sync + d ==>
          after.total - after.left == if before.total - before.left > acked then before.total - before.left - acked else 0)
    && after.stat == (if before.time == now / d then before.stat else 0)
    && after.needSync == (if before.time == now / d then before.needSync else 0)
  }

  lemma RefreshedByShows(b: Bucket, reply: Reply, d: nat, now: nat, sync: nat)
    requires d > 0 && d in reply.left
    ensures ShowsReply(b, RefreshedBy(b, reply, d, now, sync), reply, d, now, sync)
  {
    RefreshShows(b, RemoteValue(b.globalMax, reply, d, now), Acknowledged(reply, d, now),
                 now / d, now >= sync + d, now % d);
  }

  // How long the next report may wait for one bucket, if the reply names it.  A reply below zero is
  // followed by a report in the next window, half the time before the last window's quota was used up.
  function Wait(before: Bucket, after: Bucket, reply: Reply, d: nat, now: nat, sync: nat): nat
    requires d > 0
  {
    if d !in reply.left then MAX_TIME
    else
      var remote := RemoteValue(before.globalMax, reply, d, now);
      var byBucket :=
        if now >= sync + d then MAX_TIME
        else NextReport(after.globalMax, before.lastUseUp, remote, after.left, now % d);
      if remote < 0 then Min(byBucket, d - now % d + after.lastUseUp / 2) else byBucket
  }

  // A time n is within that exactly if at the rate so far at most half of the rest is used before it, if
  // it is at most half way to the time at which the last window's quota was used up, and, after a number
  // below zero, if it is at most half that time into the next window.
  lemma WaitExactly(b: Bucket, after: Bucket, reply: Reply, d: nat, now: nat, sync: nat, n: nat)
    requires d > 0 && d in reply.left && 1 <= n <= MAX_TIME && after.globalMax == b.globalMax
    ensures n <= Wait(b, after, reply, d, now, sync) <==>
      var remote := if reply.time / d == now / d then reply.left[d] else b.globalMax;
      && (now < sync + d && remote > 0 && 0 < after.left < after.globalMax ==>
            2 * (after.globalMax - after.left) * (n - 1) <= after.left * (now % d + 1))
      && (now < sync + d && remote > 0 && now % d < b.lastUseUp != MAX_TIME ==> 2 * (n - 1) <= b.lastUseUp - now % d)
      && (remote < 0 ==> 2 * (now % d + n - d) <= after.lastUseUp)
  {
    ReportExactly(after.globalMax, b.lastUseUp, RemoteValue(b.globalMax, reply, d, now), after.left, now % d, n);
  }

  // What a report takes from a bucket.
  ghost predicate Reports(before: Bucket, after: Bucket, time: nat, usage: Usage) {
    && usage == PreparedUsage(before, time) && after == Prepared(before, time)
    && usage.granted + after.needSync == before.needSync && usage.refused + after.limited == before.limited
    && (before.time == time ==> after.needSync == 0 && after.limited == 0)
  }

  // If a refreshed, unexpired bucket has quota left and has used some, then at the rate so far at most
  // half of what is left is used in the next - 1 milliseconds.
  ghost predicate HalfUnspent(after: Bucket, reply: Reply, d: nat, now: nat, sync: nat, next: nat)
    requires d > 0
  {
    d in reply.left && now < sync + d && RemoteValue(after.globalMax, reply, d, now) > 0 && 0 < after.left < after.globalMax ==>
      2 * (after.globalMax - after.left) * (next - 1) <= after.left * (now % d + 1)
  }

  lemma WaitHalf(b: Bucket, reply: Reply, d: nat, now: nat, sync: nat, next: nat)
    requires d > 0 && next >= 1
    requires next <= Wait(b, RefreshedBy(b, reply, d, now, sync), reply, d, now, sync)
    ensures HalfUnspent(RefreshedBy(b, reply, d, now, sync), reply, d, now, sync, next)
  {
    var after := RefreshedBy(b, reply, d, now, sync);
    if d in reply.left && now < sync + d && RemoteValue(after.globalMax, reply, d, now) > 0 && 0 < after.left < after.globalMax {
      ReportBeforeHalfSpent(after.globalMax, b.lastUseUp, RemoteValue(after.globalMax, reply, d, now),
                            after.left, now % d, next);
    }
  }

  // Whether the bucket at place i has room, and what a call that takes from it makes of it.
  ghost predicate FitsAt(before: seq<Bucket>, durations: seq<nat>, amount: nat, now: nat, remote: bool, i: nat)
    requires i < |before| == |durations| && durations[i] > 0
  {
    Fits(Rolled(before[i], now / durations[i]), amount, remote)
  }

  ghost function TakenAt(before: seq<Bucket>, durations: seq<nat>, amount: nat, now: nat, remote: bool, i: nat): Bucket
    requires i < |before| == |durations| && durations[i] > 0
  {
    Taken(before[i], amount, now / durations[i], remote)
  }

  // Buckets before `limit` pass, the one at `limit`, if any, does not.
  ghost predicate FirstViolation(before: seq<Bucket>, durations: seq<nat>, amount: nat, now: nat, remote: bool, limit: nat)
    requires |before| == |durations| && forall i :: 0 <= i < |durations| ==> durations[i] > 0
  {
    && limit <= |before|
    && (forall i :: 0 <= i < limit ==> FitsAt(before, durations, amount, now, remote, i))
    && (limit < |before| ==> !FitsAt(before, durations, amount, now, remote, limit))
  }

  // The bucket at place i after an allocation that bucket `limit` was the first to refuse, or that
  // none of the `n` buckets refused.
  ghost function Charged(b: Bucket, amount: nat, time: nat, remote: bool, i: nat, limit: nat, n: nat): Bucket {
    if limit == n then Taken(b, amount, time, remote)
    else if i <= limit then RolledBack(b, amount, time, remote)
    else b
  }

  // Whether there is room for the amount at place i, from the fields, and whether its window is new.
  ghost predicate RoomAt(before: seq<Bucket>, durations: seq<nat>, amount: nat, now: nat, remote: bool, i: nat)
    requires i < |before| == |durations| && durations[i] > 0
  {
    amount <= Room(before[i], now / durations[i], remote)
  }

  ghost predicate NewAt(before: seq<Bucket>, durations: seq<nat>, now: nat, i: nat)
    requires i < |before| == |durations| && durations[i] > 0
  {
    before[i].time != now / durations[i]
  }

  ghost predicate Positive(durations: seq<nat>) {
    forall i :: 0 <= i < |durations| ==> durations[i] > 0
  }

  // All buckets have room for the amount.  When all windows are new, the quotas alone decide that.
  ghost predicate AllHaveRoom(before: seq<Bucket>, durations: seq<nat>, amount: nat, now: nat, remote: bool)
    requires |before| == |durations| && Positive(durations)
  {
    forall i :: 0 <= i < |before| ==> RoomAt(before, durations, amount, now, remote, i)
  }

  ghost predicate AllNew(before: seq<Bucket>, durations: seq<nat>, now: nat)
    requires |before| == |durations| && Positive(durations)
  {
    forall i :: 0 <= i < |before| ==> NewAt(before, durations, now, i)
  }

  lemma GrantedIfRoom(before: seq<Bucket>, durations: seq<nat>, amount: nat, now: nat, remote: bool, limit: nat)
    requires |before| == |durations| && Positive(durations)
    requires FirstViolation(before, durations, amount, now, remote, limit)
    ensures limit == |before| <==> AllHaveRoom(before, durations, amount, now, remote)
    ensures limit < |before| ==> !RoomAt(before, durations, amount, now, remote, limit)
    ensures forall i :: 0 <= i < limit ==> RoomAt(before, durations, amount, now, remote, i)
  {
    forall i | 0 <= i < |before|
      ensures FitsAt(before, durations, amount, now, remote, i) <==> RoomAt(before, durations, amount, now, remote, i)
    {
      FitsRoom(before[i], amount, now / durations[i], remote);
    }
  }

  lemma NewWindowsRoom(before: seq<Bucket>, durations: seq<nat>, amount: nat, now: nat, remote: bool)
    requires |before| == |durations| && Positive(durations) && AllNew(before, durations, now)
    ensures AllHaveRoom(before, durations, amount, now, remote) <==>
      forall i :: 0 <= i < |before| ==> amount <= before[i].localMax
  {
    forall i | 0 <= i < |before|
      ensures RoomAt(before, durations, amount, now, remote, i) <==> amount <= before[i].localMax
    {
      assert NewAt(before, durations, now, i);
    }
  }

  // At place i the allocation has taken this much from the room.
  ghost predicate TookAt(before: seq<Bucket>, after: seq<Bucket>, durations: seq<nat>,
                         now: nat, remote: bool, taken: nat, i: nat)
    requires i < |before| == |after| == |durations| && durations[i] > 0
  {
    var time := now / durations[i];
    && Room(after[i], time, remote) == Room(before[i], time, remote) - taken
    && Room(after[i], time, false) == Room(before[i], time, false) - taken
  }

  // What an allocation takes: the amount from the room of every bucket if it is granted, nothing from any
  // if it is limited.
  lemma ChargedRoom(b: Bucket, amount: nat, time: nat, remote: bool, i: nat, limit: nat, n: nat)
    ensures var after := Charged(b, amount, time, remote, i, limit, n);
      var taken := if limit == n then amount else 0;
      && Room(after, time, remote) == Room(b, time, remote) - taken
      && Room(after, time, false) == Room(b, time, false) - taken
      && after.globalMax == b.globalMax && after.localMax == b.localMax
  {
    TakesRoom(b, amount, time, remote);
    RolledBackRoom(b, amount, time, remote, remote);
    RolledBackRoom(b, amount, time, remote, false);
  }

  ghost predicate Took(before: seq<Bucket>, after: seq<Bucket>, durations: seq<nat>, now: nat, remote: bool, taken: nat)
    requires |before| == |after| == |durations| && Positive(durations)
  {
    forall i {:trigger TookAt(before, after, durations, now, remote, taken, i)} :: 0 <= i < |before| ==>
      TookAt(before, after, durations, now, remote, taken, i)
  }

  // The buckets after an allocation that the bucket at `limit`, if there is one, was the first to refuse.
  ghost predicate Allocated(before: seq<Bucket>, after: seq<Bucket>, durations: seq<nat>, amount: nat,
                            now: nat, remote: bool, limit: nat)
    requires |before| == |after| == |durations| && Positive(durations)
  {
    && FirstViolation(before, durations, amount, now, remote, limit)
    && forall i :: 0 <= i < |before| ==>
         after[i] == Charged(before[i], amount, now / durations[i], remote, i, limit, |before|)
  }

  // An allocation is granted exactly if every bucket has room for it; then it takes the amount from all of
  // them, otherwise from none.  In new windows the quotas alone decide.
  ghost predicate AllOrNothing(before: seq<Bucket>, after: seq<Bucket>, durations: seq<nat>, amount: nat,
                               now: nat, remote: bool, granted: bool)
    requires |before| == |after| == |durations| && Positive(durations)
  {
    && (granted <==> AllHaveRoom(before, durations, amount, now, remote))
    && (AllNew(before, durations, now) ==> (granted <==> forall i :: 0 <= i < |before| ==> amount <= before[i].localMax))
    && Took(before, after, durations, now, remote, if granted then amount else 0)
  }

  lemma AllocatedTook(before: seq<Bucket>, after: seq<Bucket>, durations: seq<nat>, amount: nat,
                      now: nat, remote: bool, limit: nat, i: nat)
    requires i < |before| == |after| == |durations| && durations[i] > 0
    requires after[i] == Charged(before[i], amount, now / durations[i], remote, i, limit, |before|)
    ensures TookAt(before, after, durations, now, remote, if limit == |before| then amount else 0, i)
  {
    ChargedRoom(before[i], amount, now / durations[i], remote, i, limit, |before|);
  }

  lemma AllocatedAllOrNothing(before: seq<Bucket>, after: seq<Bucket>, durations: seq<nat>, amount: nat,
                              now: nat, remote: bool, limit: nat)
    requires |before| == |after| == |durations| && Positive(durations)
    requires Allocated(before, after, durations, amount, now, remote, limit)
    ensures AllOrNothing(before, after, durations, amount, now, remote, limit == |before|)
  {
    GrantedIfRoom(before, durations, amount, now, remote, limit);
    if AllNew(before, durations, now) {
      NewWindowsRoom(before, durations, amount, now, remote);
    }
    var taken := if limit == |before| then amount else 0;
    assert Took(before, after, durations, now, remote, taken) by {
      forall i | 0 <= i < |before| ensures TookAt(before, after, durations, now, remote, taken, i) {
        AllocatedTook(before, after, durations, amount, now, remote, limit, i);
      }
    }
  }

  // The unreported grants of a bucket grow by at least the granted amount, and by no more in the last,
  // longest window: nothing is taken back from it that was counted there.
  lemma SyncCounted(before: seq<Bucket>, durations: seq<nat>, amount: nat, now: nat, remote: bool, limit: nat, i: nat)
    requires |before| == |durations| && forall j :: 0 <= j < |durations| ==> durations[j] > 0
    requires FirstViolation(before, durations, amount, now, remote, limit) && i < |before|
    ensures var time := now / durations[i];
      var after := Charged(before[i], amount, time, remote, i, limit, |before|);
      var was := if i <= limit then Rolled(before[i], time) else before[i];
      var granted := if remote && limit == |before| then amount else 0;
      && after.needSync >= was.needSync + granted
      && (i == |before| - 1 ==> after.needSync == was.needSync + granted)
      && (limit < |before| ==> after.stat == was.stat && after.left == was.left)
  {
    assert limit == |before| || i < limit ==> FitsAt(before, durations, amount, now, remote, i);
  }

  // A rule's window lengths and quotas, in any order.
  type Amounts = seq<(nat, int)>

  ghost predicate Mentions(amounts: Amounts, d: nat) {
    exists i :: 0 <= i < |amounts| && amounts[i].0 == d
  }

  // The quota that the rule gives last for the window length.
  ghost function LastQuota(amounts: Amounts, d: nat): int {
    if amounts == [] then 0
    else if amounts[|amounts| - 1].0 == d then amounts[|amounts| - 1].1
    else LastQuota(amounts[..|amounts| - 1], d)
  }

  ghost predicate Ascending(sorted: Amounts) {
    forall i, j :: 0 <= i < j < |sorted| ==> sorted[i].0 < sorted[j].0
  }

  ghost predicate EntryOf(amounts: Amounts, entry: (nat, int)) {
    Mentions(amounts, entry.0) && entry.1 == LastQuota(amounts, entry.0)
  }

  // One entry for each window length of the rule, with the quota given last.
  ghost predicate Collects(sorted: Amounts, amounts: Amounts) {
    && Ascending(sorted)
    && (forall i :: 0 <= i < |sorted| ==> EntryOf(amounts, sorted[i]))
    && (forall d {:trigger Mentions(amounts, d)} :: Mentions(amounts, d) ==> Mentions(sorted, d))
  }

  lemma OneMore(amounts: Amounts, e: (nat, int), d: nat)
    ensures Mentions(amounts + [e], d) <==> Mentions(amounts, d) || d == e.0
    ensures LastQuota(amounts + [e], d) == if d == e.0 then e.1 else LastQuota(amounts, d)
  {
    assert (amounts + [e])[..|amounts|] == amounts;
    if Mentions(amounts, d) {
      var i :| 0 <= i < |amounts| && amounts[i].0 == d;
      assert (amounts + [e])[i].0 == d;
    }
    assert (amounts + [e])[|amounts|] == e;
  }

  // The place of a key in the ordered map.
  ghost predicate PlaceOf(sorted: Amounts, d: nat, at: nat) {
    && at <= |sorted|
    && (forall i :: 0 <= i < at ==> sorted[i].0 < d)
    && (at < |sorted| ==> d <= sorted[at].0)
  }

  function Put(sorted: Amounts, e: (nat, int), at: nat): Amounts
    requires at <= |sorted|
  {
    if at < |sorted| && sorted[at].0 == e.0 then sorted[at := e] else sorted[..at] + [e] + sorted[at..]
  }

  // Where the entry at place i was before, if it is not the new one.
  function Earlier(sorted: Amounts, e: (nat, int), at: nat, i: nat): nat
    requires at <= |sorted|
  {
    if i <= at || (at < |sorted| && sorted[at].0 == e.0) then i else i - 1
  }

  lemma PutAt(sorted: Amounts, e: (nat, int), at: nat, i: nat)
    requires at <= |sorted| && i < |Put(sorted, e, at)|
    ensures i == at ==> Put(sorted, e, at)[i] == e
    ensures i != at ==>
      Earlier(sorted, e, at, i) < |sorted| && Put(sorted, e, at)[i] == sorted[Earlier(sorted, e, at, i)]
  {
  }

  lemma PutAscending(sorted: Amounts, e: (nat, int), at: nat)
    requires Ascending(sorted) && PlaceOf(sorted, e.0, at)
    ensures Ascending(Put(sorted, e, at))
  {
    var after := Put(sorted, e, at);
    forall i, j | 0 <= i < j < |after| ensures after[i].0 < after[j].0 {
      PutAt(sorted, e, at, i);
      PutAt(sorted, e, at, j);
    }
  }

  lemma PutOthers(sorted: Amounts, e: (nat, int), at: nat, i: nat)
    requires Ascending(sorted) && PlaceOf(sorted, e.0, at) && i < |sorted| && sorted[i].0 != e.0
    ensures Mentions(Put(sorted, e, at), sorted[i].0)
  {
    var now := if i < at || (at < |sorted| && sorted[at].0 == e.0) then i else i + 1;
    PutAt(sorted, e, at, now);
  }

  lemma PutCollects(sorted: Amounts, amounts: Amounts, e: (nat, int), at: nat)
    requires Collects(sorted, amounts) && PlaceOf(sorted, e.0, at)
    ensures Collects(Put(sorted, e, at), amounts + [e])
  {
    var after := Put(sorted, e, at);
    PutAscending(sorted, e, at);
    PutAt(sorted, e, at, at);
    forall i | 0 <= i < |after| ensures EntryOf(amounts + [e], after[i]) {
      PutAt(sorted, e, at, i);
      OneMore(amounts, e, after[i].0);
      assert i != at ==> after[i].0 != e.0;
    }
    forall d | Mentions(amounts + [e], d) ensures Mentions(after, d) {
      OneMore(amounts, e, d);
      if d != e.0 {
        var i :| 0 <= i < |sorted| && sorted[i].0 == d;
        PutOthers(sorted, e, at, i);
      }
    }
  }

  // The map by window length, filled in the order of the rule.
  method Collect(amounts: Amounts) returns (sorted: Amounts)
    ensures Collects(sorted, amounts)
  {
    sorted := [];
    var k := 0;
    while k < |amounts|
      invariant k <= |amounts| && Collects(sorted, amounts[..k])
    {
      var at := 0;
      while at < |sorted| && sorted[at].0 < amounts[k].0
        invariant at <= |sorted| && forall i :: 0 <= i < at ==> sorted[i].0 < amounts[k].0
      {
        at := at + 1;
      }
      PutCollects(sorted, amounts[..k], amounts[k], at);
      assert amounts[..k] + [amounts[k]] == amounts[..k + 1];
      sorted := Put(sorted, amounts[k], at);
      k := k + 1;
    }
    assert amounts[..k] == amounts;
  }

  method MakeBuckets(amounts: Amounts, now: nat) returns (lengths: seq<nat>, made: seq<TokenBucket>)
    requires forall i :: 0 <= i < |amounts| ==> amounts[i].0 > 0
    ensures |made| == |lengths| == |amounts| && fresh(made)
    ensures forall i, j :: 0 <= i < j < |made| ==> made[i] != made[j]
    ensures forall i :: 0 <= i < |amounts| ==>
      && lengths[i] == amounts[i].0
      && made[i].View() == Fresh(amounts[i].1, amounts[i].1, now / amounts[i].0)
  {
    made, lengths := [], [];
    var k := 0;
    while k < |amounts|
      invariant k == |made| == |lengths| <= |amounts| && fresh(made)
      invariant forall i, j :: 0 <= i < j < |made| ==> made[i] != made[j]
      invariant forall i :: 0 <= i < k ==>
        && lengths[i] == amounts[i].0
        && made[i].View() == Fresh(amounts[i].1, amounts[i].1, now / amounts[i].0)
    {
      var bucket := new TokenBucket(amounts[k].1, amounts[k].1, now / amounts[k].0);
      made := made + [bucket];
      lengths := lengths + [amounts[k].0];
      k := k + 1;
    }
  }

  lemma CollectedLengths(sorted: Amounts, amounts: Amounts)
    requires Collects(sorted, amounts) && amounts != [] && forall i :: 0 <= i < |amounts| ==> amounts[i].0 > 0
    ensures sorted != [] && forall i :: 0 <= i < |sorted| ==> sorted[i].0 > 0
    ensures forall d: nat :: Mentions(sorted, d) <==> Mentions(amounts, d)
  {
    assert Mentions(amounts, amounts[0].0);
    forall i | 0 <= i < |sorted| ensures sorted[i].0 > 0 && Mentions(amounts, sorted[i].0) {
      assert EntryOf(amounts, sorted[i]);
    }
  }

  class RemoteAwareQpsBucket {
    const durations: seq<nat>     // the keys of token_buckets_, ascending
    const buckets: seq<TokenBucket>
    const global: bool            // rate_limit_type_ == GLOBAL
    const failoverPass: bool      // failover_type_ == FAILOVER_PASS
    const remoteTimeout: nat      // the shortest window
    var lastSync: nat             // last_remote_sync_time_

    ghost predicate Valid()
      reads this
    {
      && |buckets| == |durations| > 0
      && Positive(durations)
      && (forall i, j :: 0 <= i < j < |durations| ==> durations[i] < durations[j])
      && (forall i, j :: 0 <= i < j < |buckets| ==> buckets[i] != buckets[j])
      && remoteTimeout == durations[0]
    }

    ghost function Views(): (views: seq<Bucket>)
      reads buckets
      ensures |views| == |buckets|
    {
      seq(|buckets|, i requires 0 <= i < |buckets| reads buckets => buckets[i].View())
    }

    // One bucket for each window length of the rule, which must give some, with the quota given last.
    constructor (amounts: Amounts, global: bool, failoverPass: bool, now: nat)
      requires amounts != [] && (forall i :: 0 <= i < |amounts| ==> amounts[i].0 > 0)
      ensures Valid() && lastSync == now && fresh(buckets) && this.global == global && this.failoverPass == failoverPass
      ensures forall d :: d in durations <==> Mentions(amounts, d)
      ensures forall i :: 0 <= i < |durations| ==>
        && durations[i] > 0
        && var quota := LastQuota(amounts, durations[i]); buckets[i].View() == Fresh(quota, quota, now / durations[i])
    {
      var sorted := Collect(amounts);
      CollectedLengths(sorted, amounts);
      var lengths, made := MakeBuckets(sorted, now);
      buckets, durations := made, lengths;
      this.global, this.failoverPass := global, failoverPass;
      remoteTimeout, lastSync := sorted[0].0, now;
    }

    // Remote quota is used in global mode while the last sync is recent.
    predicate UsesRemote(now: nat)
      reads this
    {
      global && now < lastSync + remoteTimeout
    }

    method TakeOne(k: nat, amount: nat, now: nat, remote: bool) returns (ok: bool, leftQuota: int)
      requires Valid() && k < |buckets|
      modifies buckets[k]
      ensures Views() == old(Views())[k := Taken(old(Views())[k], amount, now / durations[k], remote)]
      ensures ok <==> FitsAt(old(Views()), durations, amount, now, remote, k)
      ensures leftQuota == LeftQuota(Views()[k], remote)
    {
      ok, leftQuota := buckets[k].GetToken(amount, now / durations[k], remote);
    }

    // The first loop of Allocate: take from each bucket until one refuses.
    method TakeAll(amount: nat, now: nat, remote: bool) returns (limit: nat, leftQuota: int)
      requires Valid()
      modifies buckets
      ensures FirstViolation(old(Views()), durations, amount, now, remote, limit)
      ensures forall i :: 0 <= i < |buckets| ==>
        Views()[i] == if i <= limit then TakenAt(old(Views()), durations, amount, now, remote, i) else old(Views())[i]
      ensures limit == |buckets| ==> leftQuota == LeftQuota(Views()[limit - 1], remote)
    {
      ghost var before := Views();
      ghost var views := before;
      leftQuota := 0;
      limit := 0;
      var ok := true;
      while ok && limit < |buckets|
        invariant limit <= |buckets| == |views| && Views() == views
        invariant ok && limit > 0 ==> leftQuota == LeftQuota(views[limit - 1], remote)
        invariant forall i :: 0 <= i < limit ==> FitsAt(before, durations, amount, now, remote, i)
        invariant !ok ==> limit < |buckets| && !FitsAt(before, durations, amount, now, remote, limit)
        invariant forall i :: 0 <= i < |buckets| ==>
          views[i] ==
            if i < limit || (!ok && i == limit) then TakenAt(before, durations, amount, now, remote, i) else before[i]
        decreases |buckets| - limit, ok
      {
        ok, leftQuota := TakeOne(limit, amount, now, remote);
        views := views[limit := TakenAt(before, durations, amount, now, remote, limit)];
        if ok {
          limit := limit + 1;
        }
      }
    }

    method ReturnOne(k: nat, amount: nat, remote: bool)
      requires Valid() && k < |buckets|
      modifies buckets[k]
      ensures Views() == old(Views())[k := Returned(old(Views())[k], amount, remote)]
    {
      buckets[k].ReturnToken(amount, remote);
    }

    // The second loop: return to every bucket up to the one that refused.
    method ReturnAll(amount: nat, remote: bool, limit: nat)
      requires Valid() && limit < |buckets|
      modifies buckets
      ensures forall i :: 0 <= i < |buckets| ==>
        Views()[i] == if i <= limit then Returned(old(Views())[i], amount, remote) else old(Views())[i]
    {
      var k := 0;
      while k <= limit
        invariant k <= limit + 1
        invariant forall i :: 0 <= i < |buckets| ==>
          Views()[i] == if i < k then Returned(old(Views())[i], amount, remote) else old(Views())[i]
      {
        ReturnOne(k, amount, remote);
        k := k + 1;
      }
    }

    // All or nothing: if every bucket has room, every bucket is charged; otherwise the buckets up to
    // the first without room are as if only their windows had been rolled, except for the sync
    // counters, and the others are untouched.
    method Allocate(amount: nat, now: nat) returns (r: Response, ghost limit: nat)
      requires Valid()
      modifies buckets
      ensures Allocated(old(Views()), Views(), durations, amount, now, UsesRemote(now), limit)
      ensures AllOrNothing(old(Views()), Views(), durations, amount, now, UsesRemote(now), limit == |buckets|)
      ensures r.granted <==> limit == |buckets| || (!UsesRemote(now) && failoverPass)
      ensures r.leftQuota == if limit < |buckets| then 0 else LeftQuota(Views()[limit - 1], UsesRemote(now))
      ensures UsesRemote(now) <==> global && now < lastSync + remoteTimeout
      ensures r.degraded <==> now >= lastSync + remoteTimeout
      ensures var at := if limit == |buckets| then limit - 1 else limit;
        r.duration == durations[at] && r.allQuota == Views()[at].globalMax
    {
      r, limit := Charge(amount, now);
      AllocatedAllOrNothing(old(Views()), Views(), durations, amount, now, UsesRemote(now), limit);
    }

    // Both loops and the response.
    method Charge(amount: nat, now: nat) returns (r: Response, ghost limit: nat)
      requires Valid()
      modifies buckets
      ensures Allocated(old(Views()), Views(), durations, amount, now, UsesRemote(now), limit)
      ensures r.granted <==> limit == |buckets| || (!UsesRemote(now) && failoverPass)
      ensures r.leftQuota == if limit < |buckets| then 0 else LeftQuota(Views()[limit - 1], UsesRemote(now))
      ensures r.degraded <==> now >= lastSync + remoteTimeout
      ensures var at := if limit == |buckets| then limit - 1 else limit;
        r.duration == durations[at] && r.allQuota == Views()[at].globalMax
    {
      var notTimeout := now < lastSync + remoteTimeout;
      var remote := global && notTimeout;
      var at, leftQuota := TakeAll(amount, now, remote);
      limit := at;
      if at == |buckets| {
        r := Response(true, leftQuota, buckets[at - 1].globalMax, durations[at - 1], !notTimeout);
        return;
      }
      r := Response(!remote && failoverPass, 0, buckets[at].globalMax, durations[at], !notTimeout);
      ReturnAll(amount, remote, at);
      forall i | 0 <= i <= at
        ensures Views()[i] == RolledBack(old(Views())[i], amount, now / durations[i], remote)
      {
        ReturnUndoesTake(old(Views())[i], amount, now / durations[i], remote);
      }
    }

    // The bucket at place i after a refresh.
    ghost function RefreshedAt(before: seq<Bucket>, reply: Reply, now: nat, sync: nat, i: nat): Bucket
      requires i < |before| == |durations| && durations[i] > 0
    {
      RefreshedBy(before[i], reply, durations[i], now, sync)
    }

    ghost function WaitAt(before: seq<Bucket>, after: seq<Bucket>, reply: Reply, now: nat, sync: nat, i: nat): nat
      requires i < |before| == |after| == |durations| && durations[i] > 0
    {
      Wait(before[i], after[i], reply, durations[i], now, sync)
    }

    method RefreshOne(i: nat, reply: Reply, now: nat) returns (next: nat)
      requires Valid() && i < |buckets|
      modifies buckets[i]
      ensures Views() == old(Views())[i := RefreshedAt(old(Views()), reply, now, lastSync, i)]
      ensures next == WaitAt(old(Views()), Views(), reply, now, lastSync, i) && next >= 1
    {
      var d := durations[i];
      next := MAX_TIME;
      if d in reply.left {
        var remoteQuota := RemoteValue(buckets[i].globalMax, reply, d, now);
        next := buckets[i].RefreshToken(remoteQuota, Acknowledged(reply, d, now), now / d, now >= lastSync + d, now % d);
        if remoteQuota < 0 {
          var beforeUseUp := d - now % d + buckets[i].lastUseUp / 2;
          if beforeUseUp < next {
            next := beforeUseUp;
          }
        }
      }
    }

    // The loop of SetRemoteQuota, which visits the windows named in the reply that are also here.
    method RefreshAll(reply: Reply, now: nat) returns (next: nat)
      requires Valid()
      modifies buckets
      ensures 1 <= next <= MAX_TIME
      ensures forall i :: 0 <= i < |buckets| ==>
        && Views()[i] == RefreshedAt(old(Views()), reply, now, lastSync, i)
        && next <= WaitAt(old(Views()), Views(), reply, now, lastSync, i)
      ensures next == MAX_TIME ||
        exists i :: 0 <= i < |buckets| && next == WaitAt(old(Views()), Views(), reply, now, lastSync, i)
    {
      ghost var before := Views();
      ghost var views := before;
      next := MAX_TIME;
      var k := 0;
      while k < |buckets|
        invariant k <= |buckets| == |views| && Views() == views && 1 <= next <= MAX_TIME
        invariant forall i :: k <= i < |buckets| ==> views[i] == before[i]
        invariant forall i :: 0 <= i < k ==>
          && views[i] == RefreshedAt(before, reply, now, lastSync, i)
          && next <= WaitAt(before, views, reply, now, lastSync, i)
        invariant next == MAX_TIME || exists i :: 0 <= i < k && next == WaitAt(before, views, reply, now, lastSync, i)
      {
        var one := RefreshOne(k, reply, now);
        ghost var was := views;
        views := views[k := RefreshedAt(before, reply, now, lastSync, k)];
        assert one == WaitAt(before, views, reply, now, lastSync, k);
        assert forall i :: 0 <= i < k ==>
          WaitAt(before, views, reply, now, lastSync, i) == WaitAt(before, was, reply, now, lastSync, i);
        next := if one < next then one else next;
        k := k + 1;
      }
    }

    // Every bucket named in the reply is refreshed; the result is the shortest of the times that they let
    // the next report wait, so at the rate seen so far at most half of what is left is used by then.
    method SetRemoteQuota(reply: Reply, now: nat) returns (next: nat)
      requires Valid()
      modifies this`lastSync, buckets
      ensures lastSync == now && 1 <= next <= MAX_TIME
      ensures forall i :: 0 <= i < |buckets| ==> Views()[i] == RefreshedAt(old(Views()), reply, now, old(lastSync), i)
      ensures forall i :: 0 <= i < |buckets| && durations[i] in reply.left ==>
        ShowsReply(old(Views())[i], Views()[i], reply, durations[i], now, old(lastSync))
      ensures forall i :: 0 <= i < |buckets| && durations[i] !in reply.left ==> Views()[i] == old(Views())[i]
      ensures forall i :: 0 <= i < |buckets| ==> next <= WaitAt(old(Views()), Views(), reply, now, old(lastSync), i)
      ensures next == MAX_TIME ||
        exists i :: 0 <= i < |buckets| && next == WaitAt(old(Views()), Views(), reply, now, old(lastSync), i)
      ensures forall i :: 0 <= i < |buckets| ==> HalfUnspent(Views()[i], reply, durations[i], now, old(lastSync), next)
    {
      next := RefreshAll(reply, now);
      ghost var before, after := old(Views()), Views();
      forall i | 0 <= i < |buckets|
        ensures HalfUnspent(after[i], reply, durations[i], now, lastSync, next)
        ensures durations[i] in reply.left ==> ShowsReply(before[i], after[i], reply, durations[i], now, lastSync)
      {
        assert next <= WaitAt(before, after, reply, now, lastSync, i);
        WaitHalf(before[i], reply, durations[i], now, lastSync, next);
        if durations[i] in reply.left {
          RefreshedByShows(before[i], reply, durations[i], now, lastSync);
        }
      }
      lastSync := now;
    }

    method PrepareOne(k: nat, now: nat) returns (usage: Usage)
      requires Valid() && k < |buckets|
      modifies buckets[k]
      ensures Views() == old(Views())[k := Prepared(old(Views())[k], now / durations[k])]
      ensures usage == PreparedUsage(old(Views())[k], now / durations[k])
    {
      usage := buckets[k].PreparePendingQuota(now / durations[k]);
    }

    // A report takes every bucket's unreported grants and refusals.
    method GetQuotaUsage(now: nat) returns (report: Report)
      requires Valid()
      modifies buckets
      ensures report.time == now
      ensures forall i :: 0 <= i < |buckets| ==>
        durations[i] in report.usage && Reports(old(Views())[i], Views()[i], now / durations[i], report.usage[durations[i]])
    {
      ghost var before := Views();
      ghost var views := before;
      var usage: map<nat, Usage> := map[];
      var k := 0;
      while k < |buckets|
        invariant k <= |buckets| == |views| && Views() == views
        invariant forall i :: k <= i < |buckets| ==> views[i] == before[i]
        invariant forall i :: 0 <= i < k ==>
          durations[i] in usage && Reports(before[i], views[i], now / durations[i], usage[durations[i]])
      {
        var one := PrepareOne(k, now);
        views := views[k := Prepared(before[k], now / durations[k])];
        usage := usage[durations[k] := one];
        k := k + 1;
      }
      report := Report(now, usage);
    }
  }
}
