// The ledger between one client's longest window and the quota server, over whole runs
// (polaris/quota/quota_bucket_qps.cpp).  Only the longest window is followed: it is the last one an
// allocation visits, so it never counts a grant that a later bucket takes back.
module QuotaLedger {
  import QpsBucket
  import opened TokenBucket

  // A report on its way to the server: the window it was made in and the grants it carries.
  datatype InFlight = InFlight(window: nat, amount: int)

  // `now` is the latest window seen, `grants` the remote grants made in each window, `acked` those of
  // the bucket's window the server has acknowledged, `exact` says that the bucket's window was not
  // opened by a refresh, and `refused` and `told` are all remote refusals so far and those reported.
  datatype Ledger = Ledger(
    bucket: Bucket,
    now: nat,
    reports: seq<InFlight>,
    grants: map<nat, int>,
    acked: int,
    exact: bool,
    refused: int,
    told: int)

  datatype Step =
    | Visit(amount: nat, window: nat, remote: bool)           // Allocate reaches the bucket
    | Report(window: nat)                                     // GetQuotaUsage
    | Refresh(window: nat, remoteLeft: int, answer: bool, timeIn: nat)
      // SetRemoteQuota before the quota expires; `answer` is false for the reply to the initial request

  function Start(max: int, window: nat): Ledger {
    Ledger(Fresh(max, max, window), window, [], map[], 0, true, 0, 0)
  }

  function Granted(l: Ledger, window: nat): int {
    if window in l.grants then l.grants[window] else 0
  }

  // The grants made in a window that are in reports under way.
  function Unacknowledged(reports: seq<InFlight>, window: nat): int {
    if reports == [] then 0
    else (if reports[0].window == window then reports[0].amount else 0) + Unacknowledged(reports[1..], window)
  }

  predicate Enabled(l: Ledger, step: Step) {
    step.window >= l.now && (step.Refresh? && step.answer ==> l.reports != [])
  }

  function Ack(l: Ledger, step: Step): int
    requires Enabled(l, step) && step.Refresh?
  {
    if step.answer && l.reports[0].window == step.window then l.reports[0].amount else 0
  }

  function Apply(l: Ledger, step: Step): Ledger
    requires Enabled(l, step)
  {
    var rolls := l.bucket.time != step.window;
    match step
    case Visit(amount, window, remote) =>
      var fits := Fits(Rolled(l.bucket, window), amount, remote);
      var taken := Taken(l.bucket, amount, window, remote);
      Ledger(
        if fits then taken else Returned(taken, amount, remote),
        window,
        l.reports,
        if fits && remote then l.grants[window := Granted(l, window) + amount] else l.grants,
        if rolls then 0 else l.acked,
        rolls || l.exact,
        if remote && amount > Room(l.bucket, window, remote) then l.refused + amount else l.refused,
        l.told)
    case Report(window) =>
      l.(bucket := Prepared(l.bucket, window),
         now := window,
         reports := l.reports + [InFlight(window, PreparedUsage(l.bucket, window).granted)],
         told := l.told + PreparedUsage(l.bucket, window).refused)
    case Refresh(window, remoteLeft, answer, timeIn) =>
      Ledger(
        Refreshed(l.bucket, remoteLeft, Ack(l, step), window, false, timeIn),
        window,
        if answer then l.reports[1..] else l.reports,
        l.grants,
        (if rolls then 0 else l.acked) + Ack(l, step),
        !rolls && l.exact,
        l.refused,
        l.told)
  }

  // An allocation that reaches the last of the buckets does to it what Visit does, and is granted
  // exactly if the last bucket has room.
  lemma VisitIsAllocate(before: seq<Bucket>, durations: seq<nat>, amount: nat, now: nat, remote: bool, limit: nat, l: Ledger)
    requires |before| == |durations| > 0 && forall i :: 0 <= i < |durations| ==> durations[i] > 0
    requires QpsBucket.FirstViolation(before, durations, amount, now, remote, limit) && limit >= |before| - 1
    requires l.bucket == before[|before| - 1] && now / durations[|before| - 1] >= l.now
    ensures var last := |before| - 1;
      var step := Visit(amount, now / durations[last], remote);
      && Apply(l, step).bucket == QpsBucket.Charged(before[last], amount, step.window, remote, last, limit, |before|)
      && (limit == |before| <==> Fits(Rolled(l.bucket, step.window), amount, remote))
  {
    var last := |before| - 1;
    assert QpsBucket.FitsAt(before, durations, amount, now, remote, last) <==> limit == |before|;
    ReturnUndoesTake(before[last], amount, now / durations[last], remote);
  }

  // The report under way is what the class has sent for the window length d.
  ghost predicate Carries(r: InFlight, report: QpsBucket.Report, d: nat)
    requires d > 0
  {
    d in report.usage && r == InFlight(report.time / d, report.usage[d].granted)
  }

  // What GetQuotaUsage does to the bucket is what Report does, and it sends what Report puts under way.
  lemma ReportIsUsage(l: Ledger, after: Bucket, d: nat, report: QpsBucket.Report)
    requires d > 0 && d in report.usage && report.time / d >= l.now
    requires QpsBucket.Reports(l.bucket, after, report.time / d, report.usage[d])
    ensures var t := Apply(l, Report(report.time / d));
      && t.bucket == after
      && |t.reports| == |l.reports| + 1 && t.reports[..|l.reports|] == l.reports
      && Carries(t.reports[|l.reports|], report, d)
  {
  }

  // The reply answers the oldest report under way, if it answers one; the server made it after that.
  ghost predicate Replies(l: Ledger, reply: QpsBucket.Reply, d: nat, now: nat)
    requires d > 0
  {
    && d in reply.left && reply.time <= now && now / d >= l.now
    && (reply.report.Some? ==>
          && reply.report.value.time <= reply.time
          && l.reports != [] && Carries(l.reports[0], reply.report.value, d))
  }

  // The step for a reply; a reply from an earlier window counts as the whole quota.
  ghost function RefreshOf(l: Ledger, reply: QpsBucket.Reply, d: nat, now: nat): (step: Step)
    requires d > 0 && Replies(l, reply, d, now)
    ensures Enabled(l, step)
  {
    Refresh(now / d, QpsBucket.RemoteValue(l.bucket.globalMax, reply, d, now), reply.report.Some?, now % d)
  }

  // What SetRemoteQuota does to the bucket before it expires is what Refresh does.
  lemma RefreshIsSetRemoteQuota(l: Ledger, reply: QpsBucket.Reply, d: nat, now: nat, sync: nat)
    requires d > 0 && Replies(l, reply, d, now) && now < sync + d
    ensures Apply(l, RefreshOf(l, reply, d, now)).bucket == QpsBucket.RefreshedBy(l.bucket, reply, d, now, sync)
    ensures Ack(l, RefreshOf(l, reply, d, now)) == QpsBucket.Acknowledged(reply, d, now)
  {
  }

  // What the bucket has handed out on top of what the server knew at the last refresh.
  function Spent(l: Ledger): int {
    l.bucket.total - l.bucket.left
  }

  function Unreported(l: Ledger): int {
    l.bucket.needSync + Unacknowledged(l.reports, l.bucket.time)
  }

  // A report made before the bucket entered the window carries nothing.
  ghost predicate ReportsInv(reports: seq<InFlight>, now: nat, time: nat) {
    forall i :: 0 <= i < |reports| ==>
      && 0 <= reports[i].amount
      && reports[i].window <= now
      && (reports[i].window > time ==> reports[i].amount == 0)
  }

  // What the bucket keeps as waiting for acknowledgement is what is under way from its window.
  ghost predicate PendingInv(l: Ledger) {
    var b, waiting := l.bucket, Unacknowledged(l.reports, l.bucket.time);
    && b.pendingTime <= l.now
    && (b.pendingTime == b.time ==> b.pendingStat == waiting)
    && (b.pendingTime < b.time ==> waiting == 0)
    && (b.pendingTime > b.time ==> b.pendingStat == 0)
  }

  ghost predicate Inv(l: Ledger) {
    && l.bucket.time <= l.now
    && l.bucket.needSync >= 0
    && ReportsInv(l.reports, l.now, l.bucket.time)
    && (forall w :: w in l.grants ==> w <= l.bucket.time)
    && Spent(l) >= Unreported(l)
    && (l.exact ==> Spent(l) == Unreported(l))
    && Granted(l, l.bucket.time) == l.acked + Unreported(l)
    && l.told + l.bucket.limited == l.refused
    && PendingInv(l)
  }

  lemma {:induction false} UnacknowledgedAppend(reports: seq<InFlight>, r: InFlight, window: nat)
    ensures Unacknowledged(reports + [r], window)
         == Unacknowledged(reports, window) + if r.window == window then r.amount else 0
  {
    if reports == [] {
      assert reports + [r] == [r];
    } else {
      assert (reports + [r])[1..] == reports[1..] + [r];
      UnacknowledgedAppend(reports[1..], r, window);
    }
  }

  lemma {:induction false} UnacknowledgedBounds(reports: seq<InFlight>, window: nat)
    requires forall i :: 0 <= i < |reports| ==> 0 <= reports[i].amount
    ensures Unacknowledged(reports, window) >= 0
    ensures (forall i :: 0 <= i < |reports| && reports[i].window == window ==> reports[i].amount == 0) ==>
              Unacknowledged(reports, window) == 0
  {
    if reports != [] {
      assert forall i :: 0 <= i < |reports[1..]| ==> reports[1..][i] == reports[i + 1];
      UnacknowledgedBounds(reports[1..], window);
    }
  }

  lemma ReportsStay(reports: seq<InFlight>, now: nat, time: nat, now': nat, time': nat)
    requires ReportsInv(reports, now, time) && time <= now <= now' && time <= time'
    ensures ReportsInv(reports, now', time')
    ensures ReportsInv(reports[if reports == [] then 0 else 1..], now', time')
    ensures Unacknowledged(reports, time) >= 0
    ensures time < time' ==> Unacknowledged(reports, time') == 0
  {
    UnacknowledgedBounds(reports, time);
    UnacknowledgedBounds(reports, time');
  }

  lemma VisitKeeps(l: Ledger, step: Step)
    requires Inv(l) && Enabled(l, step) && step.Visit?
    ensures Inv(Apply(l, step))
  {
    ReportsStay(l.reports, l.now, l.bucket.time, step.window, step.window);
  }

  lemma ReportKeeps(l: Ledger, step: Step)
    requires Inv(l) && Enabled(l, step) && step.Report?
    ensures Inv(Apply(l, step))
  {
    var r := InFlight(step.window, PreparedUsage(l.bucket, step.window).granted);
    UnacknowledgedAppend(l.reports, r, l.bucket.time);
  }

  lemma RefreshKeeps(l: Ledger, step: Step)
    requires Inv(l) && Enabled(l, step) && step.Refresh?
    ensures Inv(Apply(l, step))
  {
    ReportsStay(l.reports, l.now, l.bucket.time, step.window, step.window);
    var after := Apply(l, step);
    ReportsStay(after.reports, step.window, step.window, step.window, step.window);
    assert Unacknowledged(after.reports, step.window) == Unacknowledged(l.reports, step.window) - Ack(l, step);
  }

  // What each step keeps: the bucket's own account of what it spent is at least what the server has
  // not been told or has not confirmed, and exactly that unless a refresh opened the window.
  lemma StepKeeps(l: Ledger, step: Step)
    requires Inv(l) && Enabled(l, step)
    ensures Inv(Apply(l, step))
  {
    match step
    case Visit(_, _, _) => VisitKeeps(l, step);
    case Report(_) => ReportKeeps(l, step);
    case Refresh(_, _, _, _) => RefreshKeeps(l, step);
  }

  // A run: every step is possible where it is taken.
  ghost predicate Runs(l: Ledger, steps: seq<Step>)
    decreases |steps|
  {
    steps == [] || (Enabled(l, steps[0]) && Runs(Apply(l, steps[0]), steps[1..]))
  }

  ghost function After(l: Ledger, steps: seq<Step>): Ledger
    requires Runs(l, steps)
    decreases |steps|
  {
    if steps == [] then l else After(Apply(l, steps[0]), steps[1..])
  }

  lemma {:induction false} RunKeeps(l: Ledger, steps: seq<Step>)
    requires Inv(l) && Runs(l, steps)
    ensures Inv(After(l, steps))
    decreases |steps|
  {
    if steps != [] {
      StepKeeps(l, steps[0]);
      RunKeeps(Apply(l, steps[0]), steps[1..]);
    }
  }

  lemma LedgerBalances(max: int, window: nat, steps: seq<Step>)
    requires Runs(Start(max, window), steps)
    ensures var l := After(Start(max, window), steps);
      && Spent(l) >= Unreported(l)
      && (l.exact ==> Spent(l) == Unreported(l))
      && Granted(l, l.bucket.time) == l.acked + Unreported(l)
      && l.told + l.bucket.limited == l.refused
      && (l.bucket.pendingTime == l.bucket.time ==> l.bucket.pendingStat == Unacknowledged(l.reports, l.bucket.time))
  {
    RunKeeps(Start(max, window), steps);
  }

  // The server's reply is at most the quota minus what it has acknowledged to this client in the
  // window, this report included; it is less if other clients have used the quota too.
  ghost predicate Honest(max: int, l: Ledger, step: Step)
    requires Enabled(l, step)
  {
    step.Refresh? ==> step.remoteLeft <= max - Apply(l, step).acked
  }

  lemma EarlierWindow(a: nat, b: nat, d: nat)
    requires d > 0 && a <= b
    ensures a / d <= b / d
  {
    var q, r := a / d, b / d;
    assert d * q <= a && b < d * (r + 1);
    Cancel(d, q, r + 1);
  }

  lemma Cancel(d: nat, q: nat, r: nat)
    requires d * q < d * r
    ensures q < r
  {
    if r <= q {
      Monotone(d, r, q);
    }
  }

  // Taking a reply from an earlier window for the whole quota is honest if and only if the server has
  // acknowledged nothing in the bucket's window yet, if that is the present one.
  lemma StaleReplyHonest(l: Ledger, reply: QpsBucket.Reply, d: nat, now: nat)
    requires d > 0 && Replies(l, reply, d, now) && reply.time / d != now / d
    ensures Honest(l.bucket.globalMax, l, RefreshOf(l, reply, d, now)) <==> (l.bucket.time == now / d ==> l.acked <= 0)
  {
    var step := RefreshOf(l, reply, d, now);
    EarlierWindow(reply.time, now, d);
    if reply.report.Some? {
      EarlierWindow(reply.report.value.time, reply.time, d);
    }
    assert Ack(l, step) == 0;
  }

  ghost predicate HonestRun(max: int, l: Ledger, steps: seq<Step>)
    requires Runs(l, steps)
    decreases |steps|
  {
    steps == [] || (Honest(max, l, steps[0]) && HonestRun(max, Apply(l, steps[0]), steps[1..]))
  }

  ghost predicate WithinQuota(max: int, l: Ledger) {
    && l.bucket.localMax == max
    && l.bucket.total <= max - l.acked
    && (forall w :: w in l.grants ==> l.grants[w] <= max)
  }

  lemma StepWithinQuota(max: nat, l: Ledger, step: Step)
    requires Inv(l) && WithinQuota(max, l) && Enabled(l, step) && Honest(max, l, step)
    ensures WithinQuota(max, Apply(l, step))
  {
    if step.Visit? {
      var after := Apply(l, step);
      StepKeeps(l, step);
      assert step.window in after.grants ==> after.grants[step.window] == Granted(after, after.bucket.time);
    }
  }

  lemma {:induction false} RunWithinQuota(max: nat, l: Ledger, steps: seq<Step>)
    requires Inv(l) && WithinQuota(max, l) && Runs(l, steps) && HonestRun(max, l, steps)
    ensures WithinQuota(max, After(l, steps))
    decreases |steps|
  {
    if steps != [] {
      StepKeeps(l, steps[0]);
      StepWithinQuota(max, l, steps[0]);
      RunWithinQuota(max, Apply(l, steps[0]), steps[1..]);
    }
  }

  // Against an honest server, whatever the timing of reports and replies, the remote grants of one
  // client never exceed the quota in any window.
  lemma NeverOverQuota(max: nat, window: nat, steps: seq<Step>, w: nat)
    requires Runs(Start(max, window), steps) && HonestRun(max, Start(max, window), steps)
    ensures Granted(After(Start(max, window), steps), w) <= max
  {
    RunWithinQuota(max, Start(max, window), steps);
  }
}
