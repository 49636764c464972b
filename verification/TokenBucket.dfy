// TokenBucket (polaris/quota/quota_bucket_qps.h, polaris/quota/quota_bucket_qps.cpp): the quota of one
// window length.  Counters are unbounded integers; amounts are not negative.
module TokenBucket {
  import opened Common

  // A snapshot of the fields.  `total` and `left` are remote_token_total_ and remote_token_left_,
  // `needSync` is quota_need_sync_, `limited` is limit_request_.
  datatype Bucket = Bucket(
    globalMax: int,
    localMax: int,
    time: nat,
    stat: int,
    pendingTime: nat,
    pendingStat: int,
    total: int,
    left: int,
    needSync: int,
    limited: int,
    lastUseUp: nat,
    currentUseUp: nat)

  datatype Usage = Usage(granted: int, refused: int)

  function Fresh(globalMax: int, localMax: int, time: nat): Bucket {
    Bucket(globalMax, localMax, time, 0, time, 0, localMax, localMax, 0, 0, MAX_TIME, MAX_TIME)
  }

  // The start of a new window, as GetToken does it.
  function Rolled(b: Bucket, time: nat): Bucket {
    if time == b.time then b
    else b.(time := time, stat := 0, pendingTime := b.time, pendingStat := 0,
            total := b.localMax, left := b.localMax, needSync := 0)
  }

  // Whether the amount can be taken from a bucket that is in its window.
  predicate Fits(b: Bucket, amount: nat, remote: bool) {
    if remote then amount <= b.left else b.stat + amount <= b.localMax
  }

  // What a bucket can still grant, or minus what it is short of.
  function LeftQuota(b: Bucket, remote: bool): int {
    if remote then b.left else b.localMax - b.stat
  }

  // GetToken: the counters are changed first and judged afterwards.
  function Taken(b: Bucket, amount: nat, time: nat, remote: bool): Bucket {
    var r := Rolled(b, time);
    var s := r.(stat := r.stat + amount);
    if !remote then s
    else if Fits(r, amount, remote) then s.(left := s.left - amount, needSync := s.needSync + amount)
    else s.(left := s.left - amount, limited := s.limited + amount)
  }

  function Returned(b: Bucket, amount: nat, remote: bool): Bucket {
    b.(stat := b.stat - amount, left := if remote then b.left + amount else b.left)
  }

  // What is left of a bucket that was visited by a call that was limited.
  function RolledBack(b: Bucket, amount: nat, time: nat, remote: bool): Bucket {
    var r := Rolled(b, time);
    if !remote then r
    else if Fits(r, amount, remote) then r.(needSync := r.needSync + amount)
    else r.(limited := r.limited + amount)
  }

  // Taking and returning undoes everything but the window roll and the sync counters.
  lemma ReturnUndoesTake(b: Bucket, amount: nat, time: nat, remote: bool)
    ensures Returned(Taken(b, amount, time, remote), amount, remote) == RolledBack(b, amount, time, remote)
  {
  }

  // ---------------------------------------------------------------------------------------------
  // What a request finds and what it takes, from the fields
  // ---------------------------------------------------------------------------------------------

  // What can still be granted in window `time`: in a window that the bucket has not entered yet all of
  // the local quota, in either mode.
  function Room(b: Bucket, time: nat, remote: bool): int {
    if b.time != time then b.localMax
    else if remote then b.left
    else b.localMax - b.stat
  }

  lemma FitsRoom(b: Bucket, amount: nat, time: nat, remote: bool)
    ensures Fits(Rolled(b, time), amount, remote) <==> amount <= Room(b, time, remote)
  {
  }

  // A request takes its amount from the room of its mode, and always from the local room; in remote mode
  // it counts as to be reported if it is granted and as refused if not.  The first request of a window
  // finds nothing used, nothing to be reported and the local quota as the remote one.
  lemma TakesRoom(b: Bucket, amount: nat, time: nat, remote: bool)
    ensures var t := Taken(b, amount, time, remote);
      var granted := amount <= Room(b, time, remote);
      && t.time == time && LeftQuota(t, remote) == Room(t, time, remote)
      && Room(t, time, remote) == Room(b, time, remote) - amount
      && Room(t, time, false) == Room(b, time, false) - amount
      && t.stat == (if b.time == time then b.stat else 0) + amount
      && t.total == (if b.time == time then b.total else b.localMax)
      && t.left == (if b.time == time then b.left else b.localMax) - (if remote then amount else 0)
      && t.needSync == (if b.time == time then b.needSync else 0) + (if remote && granted then amount else 0)
      && t.limited == b.limited + (if remote && !granted then amount else 0)
      && t.globalMax == b.globalMax && t.localMax == b.localMax
  {
  }

  lemma RolledBackRoom(b: Bucket, amount: nat, time: nat, remote: bool, either: bool)
    ensures Room(RolledBack(b, amount, time, remote), time, either) == Room(b, time, either)
  {
  }

  // The quota taken while the report was under way, which the new total does not know of.
  function TakenMeanwhile(b: Bucket, ack: int): int {
    Max(0, b.total - b.left - ack)
  }

  // The first half of RefreshToken: the window and the remote quota.
  function Reconciled(b: Bucket, remoteLeft: int, ack: int, time: nat, expired: bool, timeIn: nat): Bucket {
    var r := if b.time == time then b else b.(time := time, stat := 0, needSync := 0);
    var q := r.(total := remoteLeft, left := if expired then remoteLeft else remoteLeft - TakenMeanwhile(b, ack));
    if !expired && remoteLeft <= 0 && q.currentUseUp == MAX_TIME then q.(currentUseUp := timeIn) else q
  }

  // The second half: what was waiting for acknowledgement.
  function Confirmed(b: Bucket, ack: int, time: nat): Bucket {
    if b.pendingTime == time then
      b.(pendingStat := if b.pendingStat >= ack then b.pendingStat - ack else b.pendingStat)
    else
      b.(pendingStat := 0, pendingTime := time, lastUseUp := b.currentUseUp, currentUseUp := MAX_TIME)
  }

  function Refreshed(b: Bucket, remoteLeft: int, ack: int, time: nat, expired: bool, timeIn: nat): Bucket {
    Confirmed(Reconciled(b, remoteLeft, ack, time, expired, timeIn), ack, time)
  }

  // What a reply leaves: its number is the new total.  From what is left, the grants that it does not
  // know of are taken off; nothing is taken off if the remote quota had expired.
  lemma RefreshShows(b: Bucket, remoteLeft: int, ack: int, time: nat, expired: bool, timeIn: nat)
    ensures var t := Refreshed(b, remoteLeft, ack, time, expired, timeIn);
      && t.time == time && t.total == remoteLeft
      && (expired ==> t.left == t.total)
      && (!expired ==> t.total - t.left == if b.total - b.left > ack then b.total - b.left - ack else 0)
      && t.stat == (if b.time == time then b.stat else 0)
      && t.needSync == (if b.time == time then b.needSync else 0)
      && t.limited == b.limited && t.localMax == b.localMax && t.globalMax == b.globalMax
  {
  }

  // When the quota of a window was used up: the first reply that says so sets the time, and it becomes the
  // time of the last window when the next one is confirmed.
  lemma UseUpShows(b: Bucket, remoteLeft: int, ack: int, time: nat, expired: bool, timeIn: nat)
    ensures var t := Refreshed(b, remoteLeft, ack, time, expired, timeIn);
      var usedUp := if b.currentUseUp == MAX_TIME && remoteLeft <= 0 && !expired then timeIn else b.currentUseUp;
      if b.pendingTime == time then t.currentUseUp == usedUp && t.lastUseUp == b.lastUseUp
      else t.currentUseUp == MAX_TIME && t.lastUseUp == usedUp
  {
  }

  // Half the time in which the rest is used up if it is used at the rate seen so far, rounded.
  function HalfLife(left: nat, timeIn: nat, used: nat): (r: nat)
    requires used > 0
    ensures r >= 1
  {
    left * (timeIn + 1) / used / 2 + 1
  }

  // When to report next, judged by the bucket's own use (`left` after the refresh) and by the time
  // the previous window's quota lasted.
  function NextReport(globalMax: int, lastUseUp: nat, remoteLeft: int, left: int, timeIn: nat): (r: nat)
    ensures r >= 1
  {
    if remoteLeft <= 0 then MAX_TIME
    else
      var used := globalMax - left;
      var byRate := if used > 0 && left > 0 then HalfLife(left, timeIn, used) else MAX_TIME;
      if lastUseUp != MAX_TIME && lastUseUp > timeIn then Min(byRate, (lastUseUp - timeIn) / 2 + 1) else byRate
  }

  // At the observed rate, at most half of what is left is used before a report that comes no later
  // than NextReport.
  lemma ReportBeforeHalfSpent(globalMax: int, lastUseUp: nat, remoteLeft: int, left: int, timeIn: nat, next: nat)
    requires remoteLeft > 0 && left > 0 && globalMax - left > 0
    requires 1 <= next <= NextReport(globalMax, lastUseUp, remoteLeft, left, timeIn)
    ensures 2 * (globalMax - left) * (next - 1) <= left * (timeIn + 1)
  {
    HalfQuotient(left * (timeIn + 1), globalMax - left, next - 1);
  }

  // It is exactly the last time of which this is true, of the rate so far and of the time the last
  // window's quota lasted.
  lemma ReportExactly(globalMax: int, lastUseUp: nat, remoteLeft: int, left: int, timeIn: nat, n: nat)
    requires n >= 1
    ensures n <= NextReport(globalMax, lastUseUp, remoteLeft, left, timeIn) <==>
      var byRate := remoteLeft > 0 && 0 < left < globalMax;
      var byUseUp := remoteLeft > 0 && timeIn < lastUseUp && lastUseUp != MAX_TIME;
      && (byRate ==> 2 * (globalMax - left) * (n - 1) <= left * (timeIn + 1))
      && (byUseUp ==> 2 * (n - 1) <= lastUseUp - timeIn)
      && (!byRate ==> n <= MAX_TIME)
  {
    if remoteLeft > 0 && 0 < left < globalMax {
      HalfExactly(left * (timeIn + 1), globalMax - left, n - 1);
    }
  }

  lemma HalfExactly(x: nat, used: nat, n: nat)
    requires used > 0
    ensures n <= x / used / 2 <==> 2 * used * n <= x
  {
    var q := x / used;
    if n <= q / 2 {
      HalfQuotient(x, used, n);
    } else {
      assert x < used * (q + 1);
      Monotone(used, q + 1, 2 * n);
      assert 2 * used * n == used * (2 * n);
    }
  }

  lemma HalfQuotient(x: nat, used: nat, n: nat)
    requires used > 0 && n <= x / used / 2
    ensures 2 * used * n <= x
  {
    var q := x / used;
    assert 2 * n <= q;
    Monotone(used, 2 * n, q);
    assert used * q <= x;
    assert 2 * used * n == used * (2 * n);
  }

  lemma Monotone(a: nat, x: nat, y: nat)
    requires x <= y
    ensures a * x <= a * y
  {
  }

  function Prepared(b: Bucket, time: nat): Bucket {
    var sent := if b.time == time then b.needSync else 0;
    var r := if b.time == time then b.(needSync := 0, limited := 0) else b;
    if b.pendingTime == time then r.(pendingStat := r.pendingStat + sent)
    else r.(pendingStat := sent, pendingTime := time)
  }

  function PreparedUsage(b: Bucket, time: nat): Usage {
    if b.time == time then Usage(b.needSync, b.limited) else Usage(0, 0)
  }

  // What is reported is what leaves the counters, and nothing else changes but what waits for
  // acknowledgement.
  lemma PreparedShows(b: Bucket, time: nat)
    ensures var t, usage := Prepared(b, time), PreparedUsage(b, time);
      && t.needSync + usage.granted == b.needSync && t.limited + usage.refused == b.limited
      && (b.time == time ==> t.needSync == 0 && t.limited == 0)
      && (b.time != time ==> usage == Usage(0, 0))
      && t == b.(needSync := t.needSync, limited := t.limited, pendingTime := time, pendingStat := t.pendingStat)
      && t.pendingStat == (if b.pendingTime == time then b.pendingStat else 0) + usage.granted
  {
  }

  class TokenBucket {
    var globalMax: int
    var localMax: int
    var bucketTime: nat
    var bucketStat: int
    var pendingTime: nat
    var pendingStat: int
    var remoteTotal: int
    var remoteLeft: int
    var needSync: int
    var limitRequest: int
    var lastUseUp: nat
    var currentUseUp: nat

    ghost function View(): Bucket
      reads this
    {
      Bucket(globalMax, localMax, bucketTime, bucketStat, pendingTime, pendingStat,
             remoteTotal, remoteLeft, needSync, limitRequest, lastUseUp, currentUseUp)
    }

    constructor (globalMax: int, localMax: int, time: nat)
      ensures View() == Fresh(globalMax, localMax, time)
      ensures this.globalMax == globalMax && this.localMax == remoteTotal == remoteLeft == localMax
      ensures bucketTime == pendingTime == time && bucketStat == pendingStat == needSync == limitRequest == 0
      ensures lastUseUp == currentUseUp == MAX_TIME
    {
      this.globalMax, this.localMax := globalMax, localMax;
      bucketTime, bucketStat, pendingTime, pendingStat := time, 0, time, 0;
      remoteTotal, remoteLeft, needSync, limitRequest := localMax, localMax, 0, 0;
      lastUseUp, currentUseUp := MAX_TIME, MAX_TIME;
    }

    method GetToken(amount: nat, expectTime: nat, useRemote: bool) returns (ok: bool, leftQuota: int)
      modifies this
      ensures View() == Taken(old(View()), amount, expectTime, useRemote)
      ensures ok <==> Fits(Rolled(old(View()), expectTime), amount, useRemote)
      ensures ok <==> leftQuota >= 0
      ensures leftQuota == LeftQuota(View(), useRemote)
      ensures leftQuota == old(Room(View(), expectTime, useRemote)) - amount
      ensures expectTime != old(bucketTime) ==>
        && (ok <==> amount <= localMax) && bucketStat == amount && remoteTotal == localMax
        && remoteLeft == if useRemote then localMax - amount else localMax
    {
      var current := bucketTime;
      if expectTime != current {
        bucketTime := expectTime;
        bucketStat := 0;
        pendingTime := current;
        pendingStat := 0;
        remoteTotal := localMax;
        remoteLeft := localMax;
        needSync := 0;
      }
      bucketStat := bucketStat + amount;
      var used := bucketStat;
      if useRemote {
        remoteLeft := remoteLeft - amount;
        leftQuota := remoteLeft;
        if leftQuota < 0 {
          limitRequest := limitRequest + amount;
          return false, leftQuota;
        }
        needSync := needSync + amount;
      } else {
        leftQuota := localMax - used;
        if leftQuota < 0 {
          return false, leftQuota;
        }
      }
      return true, leftQuota;
    }

    method ReturnToken(amount: nat, useRemote: bool)
      modifies this
      ensures View() == Returned(old(View()), amount, useRemote)
      ensures bucketStat == old(bucketStat) - amount
      ensures remoteLeft == if useRemote then old(remoteLeft) + amount else old(remoteLeft)
    {
      bucketStat := bucketStat - amount;
      if useRemote {
        remoteLeft := remoteLeft + amount;
      }
    }

    // The part of RefreshToken that decides when to report next.
    method ReportTime(newLeft: int, timeIn: nat) returns (next: nat)
      ensures next == NextReport(globalMax, lastUseUp, newLeft, remoteLeft, timeIn)
    {
      next := MAX_TIME;
      if newLeft > 0 {
        var used := globalMax - remoteLeft;
        if used > 0 && remoteLeft > 0 {
          next := HalfLife(remoteLeft, timeIn, used);
        }
        if lastUseUp != MAX_TIME && lastUseUp > timeIn {
          var byUseUp := (lastUseUp - timeIn) / 2 + 1;
          if byUseUp < next {
            next := byUseUp;
          }
        }
      }
    }

    method Reconcile(newLeft: int, ack: int, time: nat, expired: bool, timeIn: nat) returns (next: nat)
      modifies this
      ensures View() == Reconciled(old(View()), newLeft, ack, time, expired, timeIn)
      ensures next == if expired then MAX_TIME else NextReport(globalMax, lastUseUp, newLeft, remoteLeft, timeIn)
    {
      if bucketTime != time {
        bucketTime := time;
        bucketStat := 0;
        needSync := 0;
      }
      var lastTotal := remoteTotal;
      remoteTotal := newLeft;
      next := MAX_TIME;
      if expired {
        remoteLeft := remoteTotal;
      } else {
        var usedMeanwhile := lastTotal - remoteLeft - ack;
        remoteLeft := remoteTotal - (if usedMeanwhile > 0 then usedMeanwhile else 0);
        next := ReportTime(newLeft, timeIn);
        if newLeft <= 0 && currentUseUp == MAX_TIME {
          currentUseUp := timeIn;
        }
      }
    }

    method Confirm(ack: int, time: nat)
      modifies this
      ensures View() == Confirmed(old(View()), ack, time)
    {
      if pendingTime == time {
        if pendingStat >= ack {
          pendingStat := pendingStat - ack;
        }
      } else {
        pendingStat := 0;
        pendingTime := time;
        lastUseUp := currentUseUp;
        currentUseUp := MAX_TIME;
      }
    }

    method RefreshToken(newLeft: int, ack: int, time: nat, expired: bool, timeIn: nat) returns (next: nat)
      modifies this
      ensures View() == Refreshed(old(View()), newLeft, ack, time, expired, timeIn)
      ensures next == if expired then MAX_TIME else NextReport(globalMax, old(lastUseUp), newLeft, remoteLeft, timeIn)
      ensures bucketTime == time && remoteTotal == newLeft && (expired ==> remoteLeft == newLeft)
    {
      next := Reconcile(newLeft, ack, time, expired, timeIn);
      Confirm(ack, time);
    }

    method PreparePendingQuota(time: nat) returns (usage: Usage)
      modifies this
      ensures View() == Prepared(old(View()), time) && usage == PreparedUsage(old(View()), time)
      ensures usage.granted + needSync == old(needSync) && usage.refused + limitRequest == old(limitRequest)
    {
      usage := Usage(0, 0);
      if bucketTime == time {
        usage := Usage(needSync, limitRequest);
        needSync := 0;
        limitRequest := 0;
      }
      if pendingTime == time {
        pendingStat := pendingStat + usage.granted;
      } else {
        pendingStat := usage.granted;
        pendingTime := time;
      }
    }
  }
}
