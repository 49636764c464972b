// A call of QuotaConcurrency that nobody interrupts does what RemoteAwareQpsBucket::Allocate does as a
// whole (polaris/quota/quota_bucket_qps.cpp): the interleaved steps are those of the sequential model.
module QuotaSolo {
  import opened QuotaConcurrency
  import opened TokenBucket
  import QpsBucket

  function CountersOf(b: Bucket): Counters {
    Counters(b.stat, b.left, b.needSync, b.limited)
  }

  // The counters are those of the buckets.
  ghost predicate Shows(s: State, buckets: seq<Bucket>) {
    && Shape(s)
    && |buckets| == |s.buckets|
    && forall i :: 0 <= i < |buckets| ==> s.buckets[i] == CountersOf(buckets[i]) && s.localMax[i] == buckets[i].localMax
  }

  // Call c has moved to `place` and left the buckets so.
  function Moved(s: State, c: nat, place: Place, buckets: seq<Counters>): State
    requires c < |s.calls|
  {
    s.(calls := s.calls[c := s.calls[c].(place := place)], buckets := buckets)
  }

  lemma MovedTwice(s: State, c: nat, p: Place, b: seq<Counters>, p': Place, b': seq<Counters>)
    requires c < |s.calls|
    ensures Moved(Moved(s, c, p, b), c, p', b') == Moved(s, c, p', b')
  {
    assert s.calls[c := s.calls[c].(place := p)][c := s.calls[c].(place := p')] == s.calls[c := s.calls[c].(place := p')];
  }

  // s becomes t by steps of call c alone.
  ghost predicate Alone(s: State, c: nat, t: State, n: nat)
    decreases n
  {
    if n == 0 then s == t
    else Shape(s) && Enabled(s, Advance(c)) && Alone(Apply(s, Advance(c)), c, t, n - 1)
  }

  lemma {:induction false} AloneThen(s: State, c: nat, t: State, m: nat, u: State, n: nat)
    requires Alone(s, c, t, m) && Alone(t, c, u, n)
    ensures Alone(s, c, u, m + n)
    decreases m
  {
    if m > 0 {
      AloneThen(Apply(s, Advance(c)), c, t, m - 1, u, n);
    }
  }

  lemma OneStep(s: State, c: nat)
    requires Shape(s) && Enabled(s, Advance(c))
    ensures Alone(s, c, Apply(s, Advance(c)), 1)
  {
    assert Alone(Apply(s, Advance(c)), c, Apply(s, Advance(c)), 0);
  }

  lemma {:induction false} AloneRuns(s: State, c: nat, t: State, n: nat) returns (steps: seq<Step>)
    requires Alone(s, c, t, n)
    ensures |steps| == n && (forall i :: 0 <= i < n ==> steps[i] == Advance(c))
    ensures Runs(s, steps) && After(s, steps) == t
    decreases n
  {
    if n == 0 {
      steps := [];
    } else {
      var rest := AloneRuns(Apply(s, Advance(c)), c, t, n - 1);
      steps := [Advance(c)] + rest;
      assert steps[1..] == rest;
    }
  }

  // One bucket with room.
  lemma Pass(s: State, c: nat, k: nat, b: Bucket) returns (n: nat)
    requires Shape(s) && c < |s.calls| && s.calls[c].place == Add(k) && k < |s.buckets|
    requires s.buckets[k] == CountersOf(b) && s.localMax[k] == b.localMax && Fits(b, s.calls[c].amount, s.calls[c].remote)
    ensures var call := s.calls[c];
      Alone(s, c, Moved(s, c, Next(k, |s.buckets|), s.buckets[k := CountersOf(Taken(b, call.amount, b.time, call.remote))]), n)
  {
    var call := s.calls[c];
    var end := Moved(s, c, Next(k, |s.buckets|), s.buckets[k := CountersOf(Taken(b, call.amount, b.time, call.remote))]);
    var s1 := Apply(s, Advance(c));
    OneStep(s, c);
    if !call.remote {
      n := 1;
      assert s1 == end;
    } else {
      var s2 := Apply(s1, Advance(c));
      OneStep(s1, c);
      var s3 := Apply(s2, Advance(c));
      OneStep(s2, c);
      assert s3 == end;
      AloneThen(s, c, s1, 1, s2, 1);
      AloneThen(s, c, s2, 2, s3, 1);
      n := 3;
    }
  }

  // The bucket without room: the call turns back at it.
  lemma Refuse(s: State, c: nat, k: nat, b: Bucket) returns (n: nat)
    requires Shape(s) && c < |s.calls| && s.calls[c].place == Add(k) && k < |s.buckets|
    requires s.buckets[k] == CountersOf(b) && s.localMax[k] == b.localMax && !Fits(b, s.calls[c].amount, s.calls[c].remote)
    ensures var call := s.calls[c];
      Alone(s, c, Moved(s, c, ReturnStat(0, k), s.buckets[k := CountersOf(Taken(b, call.amount, b.time, call.remote))]), n)
  {
    var call := s.calls[c];
    var end := Moved(s, c, ReturnStat(0, k), s.buckets[k := CountersOf(Taken(b, call.amount, b.time, call.remote))]);
    var s1 := Apply(s, Advance(c));
    OneStep(s, c);
    if !call.remote {
      n := 1;
      assert s1 == end;
    } else {
      var s2 := Apply(s1, Advance(c));
      OneStep(s1, c);
      var s3 := Apply(s2, Advance(c));
      OneStep(s2, c);
      assert s3 == end;
      AloneThen(s, c, s1, 1, s2, 1);
      AloneThen(s, c, s2, 2, s3, 1);
      n := 3;
    }
  }

  // One bucket gets its tokens back.
  lemma GiveBack(s: State, c: nat, k: nat, v: nat, b: Bucket) returns (n: nat)
    requires Shape(s) && c < |s.calls| && s.calls[c].place == ReturnStat(k, v) && k <= v < |s.buckets|
    requires s.buckets[k] == CountersOf(b)
    ensures var call := s.calls[c];
      Alone(s, c, Moved(s, c, NextReturn(k, v), s.buckets[k := CountersOf(Returned(b, call.amount, call.remote))]), n)
  {
    var call := s.calls[c];
    var end := Moved(s, c, NextReturn(k, v), s.buckets[k := CountersOf(Returned(b, call.amount, call.remote))]);
    var s1 := Apply(s, Advance(c));
    OneStep(s, c);
    if !call.remote {
      n := 1;
      assert s1 == end;
    } else {
      var s2 := Apply(s1, Advance(c));
      OneStep(s1, c);
      assert s2 == end;
      AloneThen(s, c, s1, 1, s2, 1);
      n := 2;
    }
  }

  // The buckets from k to limit after the call has taken from them.
  ghost function TakenFrom(b: seq<Bucket>, k: nat, limit: nat, amount: nat, remote: bool): seq<Counters> {
    seq(|b|, i requires 0 <= i < |b| =>
      CountersOf(if k <= i <= limit then Taken(b[i], amount, b[i].time, remote) else b[i]))
  }

  ghost function ReturnedFrom(b: seq<Bucket>, k: nat, limit: nat, amount: nat, remote: bool): seq<Counters> {
    seq(|b|, i requires 0 <= i < |b| => CountersOf(if k <= i <= limit then Returned(b[i], amount, remote) else b[i]))
  }

  // Buckets from k on have room up to `limit`, which has none or is the end.
  ghost predicate RoomUpTo(b: seq<Bucket>, k: nat, limit: nat, amount: nat, remote: bool) {
    && k < |b| && k <= limit <= |b|
    && (forall i :: k <= i < limit ==> Fits(b[i], amount, remote))
    && (limit < |b| ==> !Fits(b[limit], amount, remote))
  }

  lemma {:induction false} TakeFrom(s: State, c: nat, k: nat, limit: nat, b: seq<Bucket>) returns (n: nat)
    requires Shows(s, b) && c < |s.calls| && s.calls[c].place == Add(k)
    requires RoomUpTo(b, k, limit, s.calls[c].amount, s.calls[c].remote)
    ensures var call := s.calls[c];
      Alone(s, c, Moved(s, c, if limit == |b| then Granted else ReturnStat(0, limit),
                        TakenFrom(b, k, limit, call.amount, call.remote)), n)
    decreases |b| - k
  {
    var call := s.calls[c];
    var taken := Taken(b[k], call.amount, b[k].time, call.remote);
    if k == limit {
      n := Refuse(s, c, k, b[k]);
      assert s.buckets[k := CountersOf(taken)] == TakenFrom(b, k, limit, call.amount, call.remote);
    } else {
      var m := Pass(s, c, k, b[k]);
      var next := Moved(s, c, Next(k, |b|), s.buckets[k := CountersOf(taken)]);
      if k + 1 == |b| {
        n := m;
        assert next.buckets == TakenFrom(b, k, limit, call.amount, call.remote);
      } else {
        var b' := b[k := taken];
        var rest := TakeFrom(next, c, k + 1, limit, b');
        assert TakenFrom(b', k + 1, limit, call.amount, call.remote) == TakenFrom(b, k, limit, call.amount, call.remote);
        var end := Moved(s, c, if limit == |b| then Granted else ReturnStat(0, limit),
                         TakenFrom(b, k, limit, call.amount, call.remote));
        MovedTwice(s, c, Next(k, |b|), next.buckets, end.calls[c].place, end.buckets);
        AloneThen(s, c, next, m, end, rest);
        n := m + rest;
      }
    }
  }

  lemma {:induction false} ReturnFrom(s: State, c: nat, k: nat, limit: nat, b: seq<Bucket>) returns (n: nat)
    requires Shows(s, b) && c < |s.calls| && s.calls[c].place == ReturnStat(k, limit) && k <= limit < |b|
    ensures var call := s.calls[c];
      Alone(s, c, Moved(s, c, Limited(limit), ReturnedFrom(b, k, limit, call.amount, call.remote)), n)
    decreases limit - k
  {
    var call := s.calls[c];
    var back := Returned(b[k], call.amount, call.remote);
    var m := GiveBack(s, c, k, limit, b[k]);
    var next := Moved(s, c, NextReturn(k, limit), s.buckets[k := CountersOf(back)]);
    if k == limit {
      n := m;
      assert next.buckets == ReturnedFrom(b, k, limit, call.amount, call.remote);
    } else {
      var b' := b[k := back];
      var rest := ReturnFrom(next, c, k + 1, limit, b');
      assert ReturnedFrom(b', k + 1, limit, call.amount, call.remote) == ReturnedFrom(b, k, limit, call.amount, call.remote);
      var end := Moved(s, c, Limited(limit), ReturnedFrom(b, k, limit, call.amount, call.remote));
      MovedTwice(s, c, NextReturn(k, limit), next.buckets, Limited(limit), end.buckets);
      AloneThen(s, c, next, m, end, rest);
      n := m + rest;
    }
  }

  ghost predicate InWindow(before: seq<Bucket>, durations: seq<nat>, now: nat) {
    && |before| == |durations|
    && (forall i :: 0 <= i < |durations| ==> durations[i] > 0)
    && (forall i :: 0 <= i < |before| ==> before[i].time == now / durations[i])
  }

  ghost function ChargedAll(b: seq<Bucket>, limit: nat, amount: nat, remote: bool): seq<Counters> {
    seq(|b|, i requires 0 <= i < |b| =>
      CountersOf(QpsBucket.Charged(b[i], amount, b[i].time, remote, i, limit, |b|)))
  }

  lemma RolledBackAll(b: seq<Bucket>, taken: seq<Bucket>, limit: nat, amount: nat, remote: bool)
    requires |taken| == |b| && limit < |b|
    requires forall i :: 0 <= i < |b| ==> taken[i] == if i <= limit then Taken(b[i], amount, b[i].time, remote) else b[i]
    ensures ReturnedFrom(taken, 0, limit, amount, remote) == ChargedAll(b, limit, amount, remote)
  {
    forall i | 0 <= i < |b|
      ensures ReturnedFrom(taken, 0, limit, amount, remote)[i] == ChargedAll(b, limit, amount, remote)[i]
    {
      ReturnUndoesTake(b[i], amount, b[i].time, remote);
    }
  }

  lemma TurnBack(s: State, c: nat, b: seq<Bucket>, limit: nat) returns (n: nat)
    requires Shows(s, b) && c < |s.calls| && limit < |b| && s.calls[c].place == Add(0)
    ensures var call := s.calls[c];
      Alone(Moved(s, c, ReturnStat(0, limit), TakenFrom(b, 0, limit, call.amount, call.remote)), c,
            Moved(s, c, Limited(limit), ChargedAll(b, limit, call.amount, call.remote)), n)
  {
    var call := s.calls[c];
    var before := TakenFrom(b, 0, limit, call.amount, call.remote);
    var middle := Moved(s, c, ReturnStat(0, limit), before);
    var taken := seq(|b|, i requires 0 <= i < |b| =>
      if i <= limit then Taken(b[i], call.amount, b[i].time, call.remote) else b[i]);
    n := ReturnFrom(middle, c, 0, limit, taken);
    RolledBackAll(b, taken, limit, call.amount, call.remote);
    MovedTwice(s, c, ReturnStat(0, limit), before, Limited(limit), ChargedAll(b, limit, call.amount, call.remote));
  }

  lemma WholeCall(s: State, c: nat, b: seq<Bucket>, limit: nat) returns (n: nat)
    requires Shows(s, b) && c < |s.calls| && s.calls[c].place == Add(0)
    requires RoomUpTo(b, 0, limit, s.calls[c].amount, s.calls[c].remote)
    ensures var call := s.calls[c];
      Alone(s, c, Moved(s, c, if limit == |b| then Granted else Limited(limit),
                        ChargedAll(b, limit, call.amount, call.remote)), n)
  {
    var call := s.calls[c];
    var m := TakeFrom(s, c, 0, limit, b);
    var taken := TakenFrom(b, 0, limit, call.amount, call.remote);
    if limit == |b| {
      assert taken == ChargedAll(b, limit, call.amount, call.remote);
      n := m;
    } else {
      var back := TurnBack(s, c, b, limit);
      AloneThen(s, c, Moved(s, c, ReturnStat(0, limit), taken), m,
                Moved(s, c, Limited(limit), ChargedAll(b, limit, call.amount, call.remote)), back);
      n := m + back;
    }
  }

  lemma RoomInWindow(before: seq<Bucket>, durations: seq<nat>, now: nat, limit: nat, amount: nat, remote: bool)
    requires InWindow(before, durations, now) && before != []
    requires QpsBucket.FirstViolation(before, durations, amount, now, remote, limit)
    ensures RoomUpTo(before, 0, limit, amount, remote)
  {
    forall i | 0 <= i < |before|
      ensures QpsBucket.FitsAt(before, durations, amount, now, remote, i) <==> Fits(before[i], amount, remote)
    {
    }
  }

  // What Allocate makes of the counters and of the call.
  ghost function Allocated(s: State, c: nat, before: seq<Bucket>, durations: seq<nat>, now: nat, limit: nat): State
    requires c < |s.calls| && InWindow(before, durations, now)
  {
    var call := s.calls[c];
    Moved(s, c, if limit == |before| then Granted else Limited(limit),
          seq(|before|, i requires 0 <= i < |before| =>
            CountersOf(QpsBucket.Charged(before[i], call.amount, now / durations[i], call.remote, i, limit, |before|))))
  }

  // In the buckets' windows, a call that runs alone is granted exactly if no bucket refuses, and leaves
  // every bucket as Allocate does.
  lemma AloneIsAllocate(s: State, c: nat, before: seq<Bucket>, durations: seq<nat>, now: nat, limit: nat)
    requires Shows(s, before) && c < |s.calls| && s.calls[c].place == Add(0)
    requires InWindow(before, durations, now)
    requires QpsBucket.FirstViolation(before, durations, s.calls[c].amount, now, s.calls[c].remote, limit)
    ensures exists n: nat :: Alone(s, c, Allocated(s, c, before, durations, now, limit), n)
  {
    var call := s.calls[c];
    RoomInWindow(before, durations, now, limit, call.amount, call.remote);
    var n := WholeCall(s, c, before, limit);
    assert ChargedAll(before, limit, call.amount, call.remote) == Allocated(s, c, before, durations, now, limit).buckets;
    assert Alone(s, c, Allocated(s, c, before, durations, now, limit), n);
  }
}
