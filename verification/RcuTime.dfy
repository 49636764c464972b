// ThreadTimeMgr (polaris/cache/rcu_time.cpp), run by one thread at a time, the bound ClearCache derives
// from it (polaris/context/context_impl.cpp), and how it carries out the time steps of RcuProtocol.
module RcuTime {
  import opened Common
  import P = RcuProtocol

  type Tid = P.Tid

  type Times = map<Tid, nat>    // thread_time_set_: the published time of every registered thread

  function Entered(times: Times, t: Tid, now: nat): Times {
    times[t := now]
  }

  // A thread that never entered is not registered by leaving.
  function Left(times: Times, t: Tid): Times {
    if t in times then times[t := MAX_TIME] else times
  }

  function Exited(times: Times, t: Tid): Times {
    times - {t}
  }

  // The smallest of the clock and the published times.
  ghost predicate IsMinimum(times: Times, now: nat, min: nat) {
    && min <= now && (forall t :: t in times ==> min <= times[t])
    && (min == now || exists t :: t in times && times[t] == min)
  }

  class ThreadTimeMgr {
    var times: Times

    constructor ()
      ensures times == map[]
    {
      times := map[];
    }

    method RcuEnter(t: Tid, now: nat)
      modifies this
      ensures times == Entered(old(times), t, now)
    {
      times := times[t := now];
    }

    method RcuExit(t: Tid)
      modifies this
      ensures times == Left(old(times), t)
    {
      if t in times {
        times := times[t := MAX_TIME];
      }
    }

    method OnThreadExit(t: Tid)
      modifies this
      ensures times == Exited(old(times), t)
    {
      times := times - {t};
    }

    method MinTime(now: nat) returns (min: nat)
      ensures IsMinimum(times, now, min)
    {
      min := now;
      var todo := times.Keys;
      while todo != {}
        invariant todo <= times.Keys && min <= now
        invariant forall t :: t in times && t !in todo ==> min <= times[t]
        invariant min == now || exists t :: t in times && times[t] == min
        decreases |todo|
      {
        var t :| t in todo;
        if times[t] < min {
          min := times[t];
        }
        todo := todo - {t};
      }
    }

    // What ClearCache passes on: MinTime minus the slack, in 64 bits.  It is below every time a thread
    // has published by at least the slack if and only if the subtraction does not wrap.
    method ClearBound(now: nat, slack: nat) returns (bound: nat)
      requires now <= MAX_TIME && slack <= MAX_TIME
      ensures bound <= MAX_TIME
      ensures exists min: nat ::
        && IsMinimum(times, now, min)
        && bound + slack == if slack <= min then min else min + MAX_TIME + 1
      ensures bound + slack <= now && (forall t :: t in times ==> bound + slack <= times[t]) <==>
        slack <= now && forall t :: t in times ==> slack <= times[t]
    {
      var min := MinTime(now);
      bound := (min + (MAX_TIME + 1) - slack) % (MAX_TIME + 1);
      assert slack <= min ==> bound == min - slack;
      assert slack > min ==> bound == min + (MAX_TIME + 1) - slack;
    }
  }

  // ---------------------------------------------------------------------------------------------
  // What entering and leaving do to MinTime
  // ---------------------------------------------------------------------------------------------

  // There is one smallest time.
  lemma MinimumUnique(times: Times, now: nat, a: nat, b: nat)
    requires IsMinimum(times, now, a) && IsMinimum(times, now, b)
    ensures a == b
  {
  }

  // A thread in a section holds MinTime back to the time it entered, or less.
  lemma EnteredHoldsBack(times: Times, t: Tid, entry: nat, now: nat, min: nat)
    requires IsMinimum(times - {t}, now, min)
    ensures IsMinimum(Entered(times, t, entry), now, Min(min, entry))
  {
    var after := Entered(times, t, entry);
    assert after[t] == entry;
    assert forall x :: x in times - {t} ==> x in after && after[x] == (times - {t})[x];
    assert forall x :: x in after && x != t ==> x in times - {t} && (times - {t})[x] == after[x];
  }

  // A thread that has left its section, or exited, does not hold it back.
  lemma LeftHoldsNothingBack(times: Times, t: Tid, now: nat, min: nat)
    requires now <= MAX_TIME
    ensures IsMinimum(Left(times, t), now, min) <==> IsMinimum(times - {t}, now, min)
    ensures IsMinimum(Exited(times, t), now, min) <==> IsMinimum(times - {t}, now, min)
  {
    var after, others := Left(times, t), times - {t};
    assert forall x :: x in others ==> x in after && after[x] == others[x];
    assert forall x :: x in after && x != t ==> x in others && others[x] == after[x];
    assert t in after ==> after[t] == MAX_TIME;
  }

  // ---------------------------------------------------------------------------------------------
  // The class and the protocol
  // ---------------------------------------------------------------------------------------------

  // The stored number of a thread in no section is MAX_TIME.
  ghost predicate ShowsAt(s: P.State, times: Times, t: Tid) {
    && (t in times <==> t in s.published)
    && (t in times ==> times[t] == if s.published[t].Some? then s.published[t].value else MAX_TIME)
  }

  ghost predicate Shows(s: P.State, times: Times) {
    forall t {:trigger ShowsAt(s, times, t)} :: ShowsAt(s, times, t)
  }

  // What the class does when the machine takes a step.
  function Carried(times: Times, s: P.State, step: P.Step): Times
    requires P.Enabled(s, step)
  {
    match step
    case Publish(t) => Entered(times, t, s.threads[t].section.time)
    case Leave(t) => Left(times, t)
    case ExitThread(t) => Exited(times, t)
    case _ => times
  }

  // RcuEnter, RcuExit and OnThreadExit carry out the Publish, Leave and ExitThread steps, and no other
  // step of the protocol concerns the published times.
  lemma StepShows(s: P.State, step: P.Step, times: Times)
    requires P.MachineInv(s) && P.Enabled(s, step) && Shows(s, times)
    ensures Shows(P.Apply(s, step), Carried(times, s, step))
  {
    var u := P.Apply(s, step);
    if step.Leave? {
      assert P.ThreadInv(s, step.t);
    } else if !step.Publish? && !step.ExitThread? {
      PublishedOnlyBy(s, step);
    }
    forall t ensures ShowsAt(u, Carried(times, s, step), t) { assert ShowsAt(s, times, t); }
  }

  lemma PublishedOnlyBy(s: P.State, step: P.Step)
    requires P.Enabled(s, step) && !step.Publish? && !step.Leave? && !step.ExitThread?
    ensures P.Apply(s, step).published == s.published
  {
  }

  ghost function CarriedAll(times: Times, s: P.State, steps: seq<P.Step>): Times
    requires P.Runs(s, steps)
    decreases |steps|
  {
    if steps == [] then times
    else CarriedAll(Carried(times, s, steps[0]), P.Apply(s, steps[0]), steps[1..])
  }

  // In every run, the class that follows it stores exactly the published times of the protocol.
  lemma {:induction false} RunShows(s: P.State, steps: seq<P.Step>, times: Times)
    requires P.MachineInv(s) && P.Runs(s, steps) && Shows(s, times)
    ensures Shows(P.After(s, steps), CarriedAll(times, s, steps))
    decreases |steps|
  {
    if steps != [] {
      StepShows(s, steps[0], times);
      P.StepKeeps(s, steps[0]);
      RunShows(P.Apply(s, steps[0]), steps[1..], Carried(times, s, steps[0]));
    }
  }

  // The reads of MinTime, thread by thread in the given order.
  function Reads(order: seq<Tid>): seq<P.Step> {
    if order == [] then [P.ScanDone] else [P.ScanThread(order[0])] + Reads(order[1..])
  }

  predicate NoneTwice(order: seq<Tid>) {
    forall i, j :: 0 <= i < j < |order| ==> order[i] != order[j]
  }

  ghost predicate MinimumAfter(s: P.State, times: Times, min: nat) {
    && s.scan.Scanning? && min <= s.scan.min
    && (forall t :: t in s.scan.todo ==> t in times && min <= times[t])
    && (min == s.scan.min || exists t :: t in s.scan.todo && times[t] == min)
  }

  lemma {:induction false} ReadsFindMinimum(s: P.State, times: Times, order: seq<Tid>, min: nat)
    requires Shows(s, times) && MinimumAfter(s, times, min) && s.scan.min <= MAX_TIME
    requires NoneTwice(order) && s.scan.todo == set t | t in order
    ensures P.Runs(s, Reads(order))
    ensures P.After(s, Reads(order)) == s.(scan := P.NoScan, mins := s.mins + {min})
    decreases |order|
  {
    var steps := Reads(order);
    if order == [] {
      assert steps[1..] == [];
    } else {
      var t := order[0];
      assert ShowsAt(s, times, t);
      var u := P.Apply(s, steps[0]);
      assert steps[1..] == Reads(order[1..]);
      forall x ensures ShowsAt(u, times, x) { assert ShowsAt(s, times, x); }
      assert u.scan.todo == set x | x in order[1..];
      ReadsFindMinimum(u, times, order[1..], min);
    }
  }

  // MinTime carries out a whole scan: whatever the order in which it reads the thread times, its result
  // is what the scan adds to the results.
  lemma MinTimeIsScan(s: P.State, times: Times, order: seq<Tid>, min: nat)
    requires Shows(s, times) && s.scan.NoScan? && s.clock <= MAX_TIME && IsMinimum(times, s.clock, min)
    requires NoneTwice(order) && times.Keys == set t | t in order
    ensures var steps := [P.ScanClock] + ([P.ScanLock] + Reads(order));
      P.Runs(s, steps) && P.After(s, steps) == s.(mins := s.mins + {min})
  {
    var steps := [P.ScanClock] + ([P.ScanLock] + Reads(order));
    assert steps[1..] == [P.ScanLock] + Reads(order) && steps[1..][1..] == Reads(order);
    var u := P.Apply(P.Apply(s, P.ScanClock), P.ScanLock);
    forall t ensures ShowsAt(u, times, t) { assert ShowsAt(s, times, t); }
    forall t ensures t in u.scan.todo <==> t in times.Keys { assert ShowsAt(s, times, t); }
    ReadsFindMinimum(u, times, order, min);
  }
}
