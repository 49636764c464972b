// Concurrent lookups in an RcuUnorderedMap (polaris/cache/rcu_unordered_map.h), split where other
// threads can come in between, and ContextImpl::GetServiceContext on top of them
// (polaris/context/context_impl.cpp).
module RcuUnorderedProtocol {
  import opened RcuUnorderedMap

  // A lookup, or, if `creating`, a GetServiceContext.  `moments` are the values the map has held for
  // the key since the call began.  `blind` marks an answer given because the flag was down.
  datatype Call =
    | Loaded(key: Key, creating: bool, seen: InnerMap, moments: set<Pointer>)
    | Creating(key: Key, moments: set<Pointer>)
    | Done(key: Key, creating: bool, result: Pointer, blind: bool, moments: set<Pointer>)

  // made: the keys for which a GetServiceContext has created a context.
  datatype State = State(core: Core, calls: seq<Call>, made: seq<Key>)

  datatype Step =
    | Enter(key: Key, creating: bool)     // load read_map_
    | Hit(call: nat)                      // the key is there: load the cell
    | Lock(call: nat)                     // it is not: look in the dirty map under the lock
    | Create(call: nat, candidate: Pointer)    // CreateOrGet at the end of GetServiceContext
    | Store(key: Key, value: Pointer)     // Update
    | Make(key: Key, candidate: Pointer)       // CreateOrGet by anyone else
    | Erase(keys: set<Key>)               // Delete

  predicate Enabled(s: State, step: Step) {
    match step
    case Hit(c) => c < |s.calls| && s.calls[c].Loaded? && s.calls[c].key in s.calls[c].seen
    case Lock(c) => c < |s.calls| && s.calls[c].Loaded? && s.calls[c].key !in s.calls[c].seen
    case Create(c, _) => c < |s.calls| && s.calls[c].Creating?
    case _ => true
  }

  function Ensured(c: Core, key: Key, p: Pointer): Core {
    if key in c.dirtyMap || p == Null then c else Inserted(c, key, p)
  }

  ghost function Next(c: Core, calls: seq<Call>, step: Step): Core
    requires Inv(c)
  {
    match step
    case Lock(call) =>
      if call < |calls| && c.dirtyFlag && calls[call].key in c.dirtyMap then Missed(c) else c
    case Create(call, candidate) => if call < |calls| then Ensured(c, calls[call].key, candidate) else c
    case Store(key, value) =>
      assert CellOf(c, c.dirtyMap, key);
      if key in c.dirtyMap then Replaced(c, key, value) else Inserted(c, key, value)
    case Make(key, candidate) => Ensured(c, key, candidate)
    case Erase(keys) => Erased(c, keys)
    case _ => c
  }

  lemma EnsuredKeeps(c: Core, key: Key, p: Pointer)
    requires Inv(c)
    ensures Inv(Ensured(c, key, p))
    ensures Contents(Ensured(c, key, p)) == if key in c.dirtyMap || p == Null then Contents(c) else Contents(c)[key := p]
  {
    if key !in c.dirtyMap {
      InsertedKeeps(c, key, p);
    }
  }

  lemma NextKeeps(c: Core, calls: seq<Call>, step: Step)
    requires Inv(c)
    ensures Inv(Next(c, calls, step))
  {
    match step
    case Lock(_) => MissedKeeps(c);
    case Create(call, candidate) => if call < |calls| { EnsuredKeeps(c, calls[call].key, candidate); }
    case Store(key, value) =>
      assert CellOf(c, c.dirtyMap, key);
      if key in c.dirtyMap { ReplacedKeeps(c, key, value); } else { InsertedKeeps(c, key, value); }
    case Make(key, candidate) => EnsuredKeeps(c, key, candidate);
    case Erase(keys) => ErasedKeeps(c, keys);
    case _ =>
  }

  // A call sees one more moment, unless it has returned.
  ghost function Observed(call: Call, c: Core): Call
    requires Inv(c)
  {
    match call
    case Loaded(key, creating, seen, moments) => Loaded(key, creating, seen, moments + {Lookup(c, key)})
    case Creating(key, moments) => Creating(key, moments + {Lookup(c, key)})
    case Done(_, _, _, _, _) => call
  }

  // A lookup has its answer: a null answer sends GetServiceContext on to CreateOrGet.
  function Answered(call: Call, p: Pointer, blind: bool): Call
    requires call.Loaded?
  {
    if call.creating && p == Null then Creating(call.key, call.moments)
    else Done(call.key, call.creating, p, blind, call.moments)
  }

  // What the lock step answers.
  function LockAnswer(c: Core, key: Key): Pointer {
    if c.dirtyFlag && key in c.dirtyMap && c.dirtyMap[key] < |c.cells| then c.cells[c.dirtyMap[key]] else Null
  }

  ghost function Moved(s: State, step: Step, after: Core): seq<Call>
    requires Enabled(s, step) && Inv(after)
  {
    match step
    case Enter(key, creating) => s.calls + [Loaded(key, creating, s.core.readMap, {})]
    case Hit(c) =>
      var call := s.calls[c];
      var cell := call.seen[call.key];
      s.calls[c := Answered(call, if cell < |s.core.cells| then s.core.cells[cell] else Null, false)]
    case Lock(c) =>
      var call := s.calls[c];
      s.calls[c := Answered(call, LockAnswer(s.core, call.key), !s.core.dirtyFlag)]
    case Create(c, _) =>
      var call := s.calls[c];
      var p := Lookup(after, call.key);
      s.calls[c := Done(call.key, true, p, false, call.moments + {p})]
    case _ => s.calls
  }

  ghost function Apply(s: State, step: Step): State
    requires Inv(s.core) && Enabled(s, step)
  {
    NextKeeps(s.core, s.calls, step);
    var after := Next(s.core, s.calls, step);
    var moved := Moved(s, step, after);
    State(after,
          seq(|moved|, i requires 0 <= i < |moved| => Observed(moved[i], after)),
          if step.Create? && s.calls[step.call].key !in s.core.dirtyMap && step.candidate != Null
          then s.made + [s.calls[step.call].key] else s.made)
  }

  ghost predicate CallInv(c: Core, call: Call)
    requires Inv(c)
  {
    match call
    case Loaded(key, _, seen, moments) =>
      && Lookup(c, key) in moments
      && CellOf(c, seen, key)
      && (key in seen ==> c.cells[seen[key]] in moments)
    case Creating(key, moments) => Lookup(c, key) in moments
    case Done(_, creating, result, blind, moments) =>
      (blind ==> result == Null && !creating) && (!blind ==> result in moments)
  }

  ghost predicate MachineInv(s: State) {
    Inv(s.core) && forall i :: 0 <= i < |s.calls| ==> CallInv(s.core, s.calls[i])
  }

  // What a step does to a cell: it stays, or it is the cell of its key and holds the key's new value.
  lemma CellSteps(c: Core, calls: seq<Call>, step: Step, cell: CellId)
    requires Inv(c) && cell < |c.cells|
    ensures Inv(Next(c, calls, step))
    ensures var d := Next(c, calls, step);
      && |d.cells| >= |c.cells| && d.owner[cell] == c.owner[cell]
      && (d.cells[cell] == c.cells[cell] || d.cells[cell] == Lookup(d, c.owner[cell]))
  {
    NextKeeps(c, calls, step);
    if step.Store? {
      assert CellOf(c, c.dirtyMap, step.key);
    }
  }

  // A call that a step leaves alone, seen after the step.
  lemma BystanderKeeps(s: State, step: Step, call: Call)
    requires Inv(s.core) && Enabled(s, step) && CallInv(s.core, call)
    ensures Inv(Next(s.core, s.calls, step))
    ensures CallInv(Next(s.core, s.calls, step), Observed(call, Next(s.core, s.calls, step)))
  {
    NextKeeps(s.core, s.calls, step);
    if call.Loaded? && call.key in call.seen {
      CellSteps(s.core, s.calls, step, call.seen[call.key]);
    }
  }

  lemma EnteredKeeps(s: State, key: Key, creating: bool)
    requires Inv(s.core)
    ensures CallInv(s.core, Observed(Loaded(key, creating, s.core.readMap, {}), s.core))
  {
    assert CellOf(s.core, s.core.dirtyMap, key);
  }

  lemma AnsweredKeeps(s: State, step: Step)
    requires MachineInv(s) && Enabled(s, step) && (step.Hit? || step.Lock?)
    ensures Inv(Next(s.core, s.calls, step))
    ensures var after := Next(s.core, s.calls, step);
      CallInv(after, Observed(Moved(s, step, after)[step.call], after))
  {
    NextKeeps(s.core, s.calls, step);
    var call := s.calls[step.call];
    assert CallInv(s.core, call);
    assert CellOf(s.core, s.core.dirtyMap, call.key);
  }

  lemma StepKeeps(s: State, step: Step)
    requires MachineInv(s) && Enabled(s, step)
    ensures MachineInv(Apply(s, step))
  {
    NextKeeps(s.core, s.calls, step);
    var after := Next(s.core, s.calls, step);
    var moved := Moved(s, step, after);
    forall i | 0 <= i < |moved|
      ensures CallInv(after, Observed(moved[i], after))
    {
      if step.Enter? && i == |s.calls| {
        EnteredKeeps(s, step.key, step.creating);
      } else if (step.Hit? || step.Lock?) && i == step.call {
        AnsweredKeeps(s, step);
      } else if !(step.Create? && i == step.call) {
        BystanderKeeps(s, step, s.calls[i]);
      }
    }
  }

  // Runs.
  ghost predicate Runs(s: State, steps: seq<Step>)
    decreases |steps|
  {
    steps == [] || (Inv(s.core) && Enabled(s, steps[0]) && Runs(Apply(s, steps[0]), steps[1..]))
  }

  ghost function After(s: State, steps: seq<Step>): State
    requires Runs(s, steps)
    decreases |steps|
  {
    if steps == [] then s else After(Apply(s, steps[0]), steps[1..])
  }

  const Start: State := State(Empty, [], [])

  lemma {:induction false} RunKeeps(s: State, steps: seq<Step>)
    requires MachineInv(s) && Runs(s, steps)
    ensures MachineInv(After(s, steps))
    decreases |steps|
  {
    if steps != [] {
      StepKeeps(s, steps[0]);
      RunKeeps(Apply(s, steps[0]), steps[1..]);
    }
  }

  // What the map holds for the key in each of the states of a run.
  ghost function Moments(s: State, steps: seq<Step>, key: Key): set<Pointer>
    requires Inv(s.core) && Runs(s, steps)
    decreases |steps|
  {
    {Lookup(s.core, key)} +
    if steps == [] then {}
    else
      NextKeeps(s.core, s.calls, steps[0]);
      Moments(Apply(s, steps[0]), steps[1..], key)
  }

  ghost predicate Pending(s: State, c: nat) {
    c < |s.calls| && !s.calls[c].Done?
  }

  // One step of anyone while call c is under way.
  lemma StepSeen(s: State, step: Step, c: nat)
    requires Inv(s.core) && Enabled(s, step) && Pending(s, c)
    ensures var t := Apply(s, step);
      && Inv(t.core) && c < |t.calls| && t.calls[c].key == s.calls[c].key
      && t.calls[c].moments <= s.calls[c].moments + {Lookup(t.core, s.calls[c].key)}
  {
    NextKeeps(s.core, s.calls, step);
  }

  lemma {:induction false} DoneStays(s: State, steps: seq<Step>, c: nat)
    requires Runs(s, steps) && c < |s.calls| && s.calls[c].Done?
    ensures c < |After(s, steps).calls| && After(s, steps).calls[c] == s.calls[c]
    decreases |steps|
  {
    if steps != [] {
      NextKeeps(s.core, s.calls, steps[0]);
      DoneStays(Apply(s, steps[0]), steps[1..], c);
    }
  }

  // The moments a call has recorded are those of the states it went through.
  lemma {:induction false} SeenWithinMoments(s: State, steps: seq<Step>, c: nat)
    requires Inv(s.core) && Runs(s, steps) && Pending(s, c) && Pending(After(s, steps), c)
    ensures var call, t := s.calls[c], After(s, steps);
      t.calls[c].key == call.key && t.calls[c].moments <= call.moments + Moments(s, steps, call.key)
    decreases |steps|
  {
    if steps != [] {
      StepSeen(s, steps[0], c);
      var t := Apply(s, steps[0]);
      if t.calls[c].Done? {
        DoneStays(t, steps[1..], c);
      } else {
        SeenWithinMoments(t, steps[1..], c);
      }
    }
  }

  // A reachable state, the one after a call has begun in it, and the one after others have stepped.
  ghost function Reached(before: seq<Step>): (s: State)
    requires Runs(Start, before)
    ensures MachineInv(s)
  {
    RunKeeps(Start, before);
    After(Start, before)
  }

  ghost function Begun(before: seq<Step>, key: Key, creating: bool): (s: State)
    requires Runs(Start, before)
    ensures MachineInv(s) && |s.calls| == |Reached(before).calls| + 1
  {
    StepKeeps(Reached(before), Enter(key, creating));
    Apply(Reached(before), Enter(key, creating))
  }

  ghost function Waited(before: seq<Step>, key: Key, creating: bool, waiting: seq<Step>): (s: State)
    requires Runs(Start, before) && Runs(Begun(before, key, creating), waiting)
    ensures MachineInv(s)
  {
    RunKeeps(Begun(before, key, creating), waiting);
    After(Begun(before, key, creating), waiting)
  }

  // A whole call: it begins after `before`, waits while others step, and is answered by `last`.
  ghost predicate WholeCall(before: seq<Step>, key: Key, creating: bool, waiting: seq<Step>, last: Step) {
    && Runs(Start, before) && Runs(Begun(before, key, creating), waiting)
    && var c, t := |Reached(before).calls|, Waited(before, key, creating, waiting);
       && Pending(t, c) && Enabled(t, last)
       && c < |Apply(t, last).calls| && Apply(t, last).calls[c].Done?
  }

  ghost function AnswerOf(before: seq<Step>, key: Key, creating: bool, waiting: seq<Step>, last: Step): Call
    requires WholeCall(before, key, creating, waiting, last)
  {
    Apply(Waited(before, key, creating, waiting), last).calls[|Reached(before).calls|]
  }

  // The values of the key in all states of the call.
  ghost function CallMoments(before: seq<Step>, key: Key, creating: bool, waiting: seq<Step>, last: Step): set<Pointer>
    requires WholeCall(before, key, creating, waiting, last)
  {
    MomentsLast(Begun(before, key, creating), waiting, last, key);
    Moments(Begun(before, key, creating), waiting + [last], key)
  }

  lemma {:induction false} MomentsLast(s: State, steps: seq<Step>, last: Step, key: Key)
    requires Inv(s.core) && Runs(s, steps) && Inv(After(s, steps).core) && Enabled(After(s, steps), last)
    ensures Runs(s, steps + [last]) && After(s, steps + [last]) == Apply(After(s, steps), last)
    ensures Inv(Apply(After(s, steps), last).core)
    ensures Moments(s, steps + [last], key) == Moments(s, steps, key) + {Lookup(Apply(After(s, steps), last).core, key)}
    decreases |steps|
  {
    var t := After(s, steps);
    NextKeeps(t.core, t.calls, last);
    if steps == [] {
      assert steps + [last] == [last] && [last][1..] == [];
    } else {
      NextKeeps(s.core, s.calls, steps[0]);
      MomentsLast(Apply(s, steps[0]), steps[1..], last, key);
      assert (steps + [last])[1..] == steps[1..] + [last];
    }
  }

  // Every answer, except a null given because the flag was down, is what the map held for the key in
  // one of the states of the call; a GetServiceContext never ends with the exception.
  lemma AnswersAreCurrent(before: seq<Step>, key: Key, creating: bool, waiting: seq<Step>, last: Step)
    requires WholeCall(before, key, creating, waiting, last)
    ensures var answer := AnswerOf(before, key, creating, waiting, last);
      && (answer.creating ==> !answer.blind)
      && (answer.blind ==> answer.result == Null)
      && (!answer.blind ==> answer.result in CallMoments(before, key, creating, waiting, last))
  {
    var begun, t, c := Begun(before, key, creating), Waited(before, key, creating, waiting), |Reached(before).calls|;
    StepKeeps(t, last);
    MomentsLast(begun, waiting, last, key);
    SeenWithinMoments(begun, waiting, c);
    StepSeen(t, last, c);
    assert CallInv(Apply(t, last).core, Apply(t, last).calls[c]);
    StartSeen(begun, waiting, key);
  }

  lemma StartSeen(s: State, steps: seq<Step>, key: Key)
    requires Inv(s.core) && Runs(s, steps)
    ensures Lookup(s.core, key) in Moments(s, steps, key)
  {
  }

  // A step that takes the key's value away.
  predicate TakesAway(step: Step, key: Key) {
    (step.Erase? && key in step.keys) || step == Store(key, Null)
  }

  lemma LookupStep(s: State, step: Step, key: Key)
    requires Inv(s.core) && Enabled(s, step) && Lookup(s.core, key) != Null
    ensures Inv(Apply(s, step).core) && (Lookup(Apply(s, step).core, key) == Null <==> TakesAway(step, key))
  {
    var c := s.core;
    NextKeeps(c, s.calls, step);
    assert CellOf(c, c.dirtyMap, key);
    match step
    case Lock(_) => MissedKeeps(c);
    case Create(call, candidate) => EnsuredKeeps(c, s.calls[call].key, candidate);
    case Store(k, value) =>
      assert CellOf(c, c.dirtyMap, k);
      if k in c.dirtyMap { ReplacedKeeps(c, k, value); } else { InsertedKeeps(c, k, value); }
    case Make(k, candidate) => EnsuredKeeps(c, k, candidate);
    case Erase(keys) => ErasedKeeps(c, keys);
    case _ =>
  }

  ghost predicate NeverTaken(steps: seq<Step>, key: Key) {
    forall i :: 0 <= i < |steps| ==> !TakesAway(steps[i], key)
  }

  // The key has a value in all states exactly if it has one at first and no step takes it away.
  lemma {:induction false} AlwaysPresent(s: State, steps: seq<Step>, key: Key)
    requires Inv(s.core) && Runs(s, steps)
    ensures Null !in Moments(s, steps, key) <==> Lookup(s.core, key) != Null && NeverTaken(steps, key)
    decreases |steps|
  {
    if steps != [] && Lookup(s.core, key) != Null {
      LookupStep(s, steps[0], key);
      var t := Apply(s, steps[0]);
      AlwaysPresent(t, steps[1..], key);
      assert NeverTaken(steps, key) <==> !TakesAway(steps[0], key) && NeverTaken(steps[1..], key) by {
        assert forall i :: 0 < i < |steps| ==> steps[i] == steps[1..][i - 1];
        assert forall i :: 0 <= i < |steps[1..]| ==> steps[1..][i] == steps[i + 1];
      }
      StartSeen(t, steps[1..], key);
    }
  }

  // When a lookup is wrong, exactly: its answer is what the map held in none of the states of the call
  // if and only if the dirty map had the key with a value when the call began and the read map it
  // loaded had not, nothing took the value away before the lock, and the flag is down at the lock.
  lemma WrongExactlyIf(before: seq<Step>, key: Key, waiting: seq<Step>, last: Step)
    requires WholeCall(before, key, false, waiting, last)
    ensures AnswerOf(before, key, false, waiting, last).result !in CallMoments(before, key, false, waiting, last) <==>
      && Lookup(Reached(before).core, key) != Null && key !in Reached(before).core.readMap
      && NeverTaken(waiting, key)
      && !Waited(before, key, false, waiting).core.dirtyFlag
  {
    var begun, t, c := Begun(before, key, false), Waited(before, key, false, waiting), |Reached(before).calls|;
    AnswersAreCurrent(before, key, false, waiting, last);
    MomentsLast(begun, waiting, last, key);
    KeepsWaiting(begun, waiting, c);
    assert last == Hit(c) || last == Lock(c);
    MissedKeeps(t.core);
    assert Lookup(Apply(t, last).core, key) == Lookup(t.core, key);
    EndSeen(begun, waiting, key);
    AlwaysPresent(begun, waiting, key);
  }

  lemma {:induction false} EndSeen(s: State, steps: seq<Step>, key: Key)
    requires Inv(s.core) && Runs(s, steps)
    ensures Inv(After(s, steps).core) && Lookup(After(s, steps).core, key) in Moments(s, steps, key)
    decreases |steps|
  {
    if steps != [] {
      NextKeeps(s.core, s.calls, steps[0]);
      EndSeen(Apply(s, steps[0]), steps[1..], key);
    }
  }

  // Until it is answered, a call keeps its key and the map it has loaded; only a GetServiceContext gets
  // to the point of creating, and does not go back.
  lemma {:induction false} KeepsWaiting(s: State, steps: seq<Step>, c: nat)
    requires Inv(s.core) && Runs(s, steps) && Pending(s, c) && Pending(After(s, steps), c)
    ensures var was, call := s.calls[c], After(s, steps).calls[c];
      && call.key == was.key
      && (call.Loaded? ==> was.Loaded? && call.seen == was.seen && call.creating == was.creating)
      && (was.Loaded? && !was.creating ==> call.Loaded?)
    decreases |steps|
  {
    if steps != [] {
      NextKeeps(s.core, s.calls, steps[0]);
      var t := Apply(s, steps[0]);
      if t.calls[c].Done? {
        DoneStays(t, steps[1..], c);
      } else {
        KeepsWaiting(t, steps[1..], c);
      }
    }
  }

  // ---------------------------------------------------------------------------------------------
  // What each step answers and does to the map
  // ---------------------------------------------------------------------------------------------

  // The map after a step, as a plain map: only Store, Delete and a creation under an absent key change
  // it.
  lemma StepContents(s: State, step: Step)
    requires Inv(s.core) && Enabled(s, step)
    ensures Inv(Apply(s, step).core)
    ensures var m := Contents(s.core);
      Contents(Apply(s, step).core) ==
        match step
        case Store(key, value) => m[key := value]
        case Erase(keys) => m - keys
        case Make(key, candidate) => if key in m || candidate == Null then m else m[key := candidate]
        case Create(c, candidate) =>
          if s.calls[c].key in m || candidate == Null then m else m[s.calls[c].key := candidate]
        case _ => m
  {
    var c := s.core;
    NextKeeps(c, s.calls, step);
    match step
    case Lock(_) => MissedKeeps(c);
    case Create(call, candidate) => EnsuredKeeps(c, s.calls[call].key, candidate);
    case Store(k, value) =>
      assert CellOf(c, c.dirtyMap, k);
      if k in c.dirtyMap { ReplacedKeeps(c, k, value); } else { InsertedKeeps(c, k, value); }
    case Make(k, candidate) => EnsuredKeeps(c, k, candidate);
    case Erase(keys) => ErasedKeeps(c, keys);
    case _ =>
  }

  // What a whole GetServiceContext that comes to creating returns: the context that was there, otherwise
  // the one it has created, and in any case the one that is in the map now.  It returns none only if the
  // creation failed or a null was stored under the key.
  lemma CreatorGetsItsContext(before: seq<Step>, key: Key, creating: bool, waiting: seq<Step>, last: Step)
    requires WholeCall(before, key, creating, waiting, last) && last.Create? && last.call == |Reached(before).calls|
    ensures var was := Contents(Waited(before, key, creating, waiting).core);
      var now := Apply(Waited(before, key, creating, waiting), last).core;
      var result := AnswerOf(before, key, creating, waiting, last).result;
      && Inv(now)
      && result == (if key in was then was[key] else last.candidate)
      && result == Lookup(now, key)
      && (result != Null ==> key in Contents(now) && Contents(now)[key] == result)
  {
    var begun, t, c := Begun(before, key, creating), Waited(before, key, creating, waiting), |Reached(before).calls|;
    KeepsWaiting(begun, waiting, c);
    StepContents(t, last);
  }

  // What the other two ways to an answer return: the value in the cell that the read map of the start has
  // for the key, or, under the lock, what the map holds if the flag is up.
  lemma LookupAnswer(before: seq<Step>, key: Key, creating: bool, waiting: seq<Step>, last: Step)
    requires WholeCall(before, key, creating, waiting, last) && !last.Create?
    ensures var start, t := Reached(before).core, Waited(before, key, creating, waiting).core;
      var result := AnswerOf(before, key, creating, waiting, last).result;
      if key in start.readMap then
        last == Hit(|Reached(before).calls|) && start.readMap[key] < |t.cells| && result == t.cells[start.readMap[key]]
      else
        last == Lock(|Reached(before).calls|) && result == if t.dirtyFlag then Lookup(t, key) else Null
  {
    var begun, t, c := Begun(before, key, creating), Waited(before, key, creating, waiting), |Reached(before).calls|;
    KeepsWaiting(begun, waiting, c);
    assert CallInv(t.core, t.calls[c]);
    assert CellOf(t.core, t.core.dirtyMap, key);
  }

  ghost function OneKey(key: Key, v: Value, swapped: bool): Core {
    var full: InnerMap := map[key := 0];
    Core([key], [To(v)], if swapped then full else map[], full, !swapped, 0)
  }

  lemma OneKeyHeld(key: Key, v: Value, swapped: bool)
    ensures Inv(OneKey(key, v, swapped)) && Lookup(OneKey(key, v, swapped), key) == To(v)
  {
    assert CellOf(OneKey(key, v, swapped), map[key := 0], key);
  }

  ghost function Waiting(key: Key, v: Value): Call {
    Loaded(key, false, map[], {To(v)})
  }

  lemma KeyStored(key: Key, v: Value)
    ensures Inv(Empty) && Apply(Start, Store(key, To(v))) == State(OneKey(key, v, false), [], [])
  {
  }

  // A lookup that begins before the new key reaches the read map.
  lemma LookupBegins(key: Key, v: Value, s: State)
    requires s.core == OneKey(key, v, false) && forall i :: 0 <= i < |s.calls| ==> s.calls[i] == Waiting(key, v)
    ensures Inv(s.core) && Apply(s, Enter(key, false)) == s.(calls := s.calls + [Waiting(key, v)])
  {
    OneKeyHeld(key, v, false);
    var none: set<Pointer> := {};
    assert none + {To(v)} == {To(v)} + {To(v)} == {To(v)};
  }

  // The second of two such lookups is answered and swaps.
  lemma SecondSwaps(key: Key, v: Value)
    ensures Inv(OneKey(key, v, false))
    ensures Apply(State(OneKey(key, v, false), [Waiting(key, v), Waiting(key, v)], []), Lock(1))
         == State(OneKey(key, v, true), [Waiting(key, v), Done(key, false, To(v), false, {To(v)})], [])
  {
    OneKeyHeld(key, v, false);
    OneKeyHeld(key, v, true);
    assert {To(v)} + {To(v)} == {To(v)};
  }

  lemma FirstMisses(key: Key, v: Value, answered: Call)
    requires answered.Done?
    ensures Inv(OneKey(key, v, true))
    ensures Apply(State(OneKey(key, v, true), [Waiting(key, v), answered], []), Lock(0))
         == State(OneKey(key, v, true), [Done(key, false, Null, true, {To(v)}), answered], [])
  {
    OneKeyHeld(key, v, true);
  }

  lemma Chain(s: State, step: Step, next: State, steps: seq<Step>)
    requires Inv(s.core) && Enabled(s, step) && next == Apply(s, step) && Runs(next, steps)
    ensures Runs(s, [step] + steps) && After(s, [step] + steps) == After(next, steps)
  {
    assert ([step] + steps)[1..] == steps;
  }

  ghost function BothWait(key: Key, v: Value): State {
    State(OneKey(key, v, false), [Waiting(key, v), Waiting(key, v)], [])
  }

  ghost function OneMissed(key: Key, v: Value): State {
    State(OneKey(key, v, true), [Done(key, false, Null, true, {To(v)}), Done(key, false, To(v), false, {To(v)})], [])
  }

  lemma BothBegin(key: Key, v: Value, rest: seq<Step>)
    requires Runs(BothWait(key, v), rest)
    ensures var steps := [Store(key, To(v))] + ([Enter(key, false)] + ([Enter(key, false)] + rest));
      Runs(Start, steps) && After(Start, steps) == After(BothWait(key, v), rest)
  {
    var s1 := State(OneKey(key, v, false), [], []);
    var s2 := s1.(calls := [Waiting(key, v)]);
    KeyStored(key, v);
    LookupBegins(key, v, s1);
    LookupBegins(key, v, s2);
    Chain(s2, Enter(key, false), BothWait(key, v), rest);
    Chain(s1, Enter(key, false), s2, [Enter(key, false)] + rest);
    Chain(Start, Store(key, To(v)), s1, [Enter(key, false)] + ([Enter(key, false)] + rest));
  }

  lemma BothLock(key: Key, v: Value)
    ensures Runs(BothWait(key, v), [Lock(1), Lock(0)]) && After(BothWait(key, v), [Lock(1), Lock(0)]) == OneMissed(key, v)
  {
    var answered := Done(key, false, To(v), false, {To(v)});
    var s4 := State(OneKey(key, v, true), [Waiting(key, v), answered], []);
    SecondSwaps(key, v);
    FirstMisses(key, v, answered);
    Chain(s4, Lock(0), OneMissed(key, v), []);
    Chain(BothWait(key, v), Lock(1), s4, [Lock(0)]);
  }

  // It does go wrong: a key that is in the map all along is reported absent when another lookup swaps
  // the maps between the miss and the lock.
  lemma PresentKeyMissed(key: Key, v: Value)
    ensures var steps := [Store(key, To(v)), Enter(key, false), Enter(key, false), Lock(1), Lock(0)];
      && Runs(Start, steps)
      && |After(Start, steps).calls| == 2
      && After(Start, steps).calls[0] == Done(key, false, Null, true, {To(v)})
  {
    var rest := [Lock(1), Lock(0)];
    BothLock(key, v);
    BothBegin(key, v, rest);
    assert [Store(key, To(v)), Enter(key, false), Enter(key, false), Lock(1), Lock(0)]
        == [Store(key, To(v))] + ([Enter(key, false)] + ([Enter(key, false)] + rest));
  }

  // ---------------------------------------------------------------------------------------------
  // One context per service
  // ---------------------------------------------------------------------------------------------

  // A step that overwrites or deletes this key.  Expired services are deleted one by one.
  predicate Touches(step: Step, key: Key) {
    (step.Store? && step.key == key) || (step.Erase? && key in step.keys)
  }

  predicate Untouched(steps: seq<Step>, key: Key) {
    forall i :: 0 <= i < |steps| ==> !Touches(steps[i], key)
  }

  // What a call on a key that nobody overwrites or deletes has loaded or returned is what the map has.
  ghost predicate CallAgrees(c: Core, call: Call)
    requires Inv(c)
  {
    match call
    case Loaded(key, _, seen, _) => key in seen ==> key in c.dirtyMap && c.dirtyMap[key] == seen[key]
    case Creating(_, _) => true
    case Done(key, _, result, _, _) => result != Null ==> result == Lookup(c, key)
  }

  ghost predicate AgreesAt(s: State, key: Key, i: nat)
    requires Inv(s.core)
  {
    i < |s.calls| && s.calls[i].key == key ==> CallAgrees(s.core, s.calls[i])
  }

  // Since state `from`: the calls begun agree with the map about the key, what was there is still there,
  // and a context was made at most once, and only if there was none.
  ghost predicate OneSince(from: State, s: State, key: Key) {
    && Inv(from.core) && MachineInv(s)
    && |from.calls| <= |s.calls| && |from.made| <= |s.made|
    && (forall i: nat {:trigger AgreesAt(s, key, i)} :: |from.calls| <= i ==> AgreesAt(s, key, i))
    && (key in from.core.dirtyMap ==> key in s.core.dirtyMap && Lookup(s.core, key) == Lookup(from.core, key))
    && (forall i :: |from.made| <= i < |s.made| && s.made[i] == key ==>
          key !in from.core.dirtyMap && key in s.core.dirtyMap)
    && (forall i, j :: |from.made| <= i < j < |s.made| && s.made[i] == key ==> s.made[j] != key)
  }

  lemma UntouchedStays(c: Core, calls: seq<Call>, step: Step, key: Key)
    requires Inv(c) && !Touches(step, key) && key in c.dirtyMap
    ensures Inv(Next(c, calls, step))
    ensures var d := Next(c, calls, step);
      key in d.dirtyMap && d.dirtyMap[key] == c.dirtyMap[key] && Lookup(d, key) == Lookup(c, key)
  {
    NextKeeps(c, calls, step);
    assert CellOf(c, c.dirtyMap, key) && CellOf(Next(c, calls, step), Next(c, calls, step).dirtyMap, key);
    if step.Store? {
      assert CellOf(c, c.dirtyMap, step.key);
    }
  }

  // A call on the key after a step that leaves the key alone.
  lemma UntouchedCall(s: State, step: Step, key: Key, i: nat)
    requires Inv(s.core) && Enabled(s, step) && !Touches(step, key)
    requires AgreesAt(s, key, i)
    ensures Inv(Apply(s, step).core) && AgreesAt(Apply(s, step), key, i)
  {
    NextKeeps(s.core, s.calls, step);
    assert CellOf(s.core, s.core.dirtyMap, key);
    if key in s.core.dirtyMap {
      UntouchedStays(s.core, s.calls, step, key);
    }
  }

  lemma UntouchedStep(from: State, s: State, step: Step, key: Key)
    requires OneSince(from, s, key) && Enabled(s, step) && !Touches(step, key)
    ensures OneSince(from, Apply(s, step), key)
  {
    StepKeeps(s, step);
    var t := Apply(s, step);
    if key in s.core.dirtyMap {
      UntouchedStays(s.core, s.calls, step, key);
    }
    forall i: nat | |from.calls| <= i
      ensures AgreesAt(t, key, i)
    {
      assert AgreesAt(s, key, i);
      UntouchedCall(s, step, key, i);
    }
  }

  lemma {:induction false} UntouchedRun(from: State, s: State, steps: seq<Step>, key: Key)
    requires OneSince(from, s, key) && Runs(s, steps) && Untouched(steps, key)
    ensures OneSince(from, After(s, steps), key)
    decreases |steps|
  {
    if steps != [] {
      UntouchedStep(from, s, steps[0], key);
      assert forall i :: 0 <= i < |steps[1..]| ==> steps[1..][i] == steps[i + 1];
      UntouchedRun(from, Apply(s, steps[0]), steps[1..], key);
    }
  }

  // Call i has returned a context for the key.
  ghost predicate Returned(s: State, i: nat, key: Key) {
    i < |s.calls| && s.calls[i].key == key && s.calls[i].Done? && s.calls[i].result != Null
  }

  // From any reachable state, as long as no step overwrites or deletes the key, whatever happens to the
  // others: all contexts returned for the key by the calls begun since are one and the same, the one in
  // the map; one that was there stays, otherwise at most one is created.
  lemma ContextsAreUnique(before: seq<Step>, during: seq<Step>, key: Key, a: nat, b: nat)
    requires Runs(Start, before) && Runs(Reached(before), during) && Untouched(during, key)
    ensures var from, s := Reached(before), After(Reached(before), during);
      && Inv(s.core) && |from.calls| <= |s.calls| && |from.made| <= |s.made|
      && (a >= |from.calls| && Returned(s, a, key) ==> s.calls[a].result == Lookup(s.core, key))
      && (a >= |from.calls| && b >= |from.calls| && Returned(s, a, key) && Returned(s, b, key) ==>
            s.calls[a].result == s.calls[b].result)
      && (key in from.core.dirtyMap ==> Lookup(s.core, key) == Lookup(from.core, key))
      && (key in from.core.dirtyMap ==> key !in s.made[|from.made|..])
      && (|from.made| <= a < b < |s.made| ==> !(s.made[a] == s.made[b] == key))
  {
    var from := Reached(before);
    UntouchedRun(from, from, during, key);
    var s := After(from, during);
    assert a >= |from.calls| ==> AgreesAt(s, key, a);
    assert b >= |from.calls| ==> AgreesAt(s, key, b);
  }

  // In a whole run that never overwrites or deletes the key, all calls return the same context for it,
  // and it is created at most once.
  lemma OneContextPerRun(steps: seq<Step>, key: Key, a: nat, b: nat)
    requires Runs(Start, steps) && Untouched(steps, key)
    ensures var s := After(Start, steps);
      && Inv(s.core) && (Returned(s, a, key) ==> s.calls[a].result == Lookup(s.core, key))
      && (Returned(s, a, key) && Returned(s, b, key) ==> s.calls[a].result == s.calls[b].result)
      && (a < b < |s.made| ==> !(s.made[a] == s.made[b] == key))
  {
    ContextsAreUnique([], steps, key, a, b);
  }

  // The step creates a context for the key.
  ghost predicate Creates(s: State, step: Step, key: Key) {
    && Inv(s.core) && Enabled(s, step)
    && step.Create? && s.calls[step.call].key == key
    && Apply(s, step).made == s.made + [key]
  }

  lemma CreatesIfAbsent(s: State, step: Step, key: Key)
    requires Creates(s, step, key)
    ensures key !in s.core.dirtyMap && key in Apply(s, step).core.dirtyMap
  {
    assert |s.made + [key]| == |s.made| + 1;
  }

  predicate Deletes(steps: seq<Step>, key: Key) {
    exists i :: 0 <= i < |steps| && steps[i].Erase? && key in steps[i].keys
  }

  lemma {:induction false} StaysUnlessDeleted(s: State, steps: seq<Step>, key: Key)
    requires Inv(s.core) && Runs(s, steps) && key in s.core.dirtyMap && !Deletes(steps, key)
    ensures key in After(s, steps).core.dirtyMap
    decreases |steps|
  {
    if steps != [] {
      NextKeeps(s.core, s.calls, steps[0]);
      assert forall i :: 0 <= i < |steps[1..]| ==> steps[1..][i] == steps[i + 1];
      StaysUnlessDeleted(Apply(s, steps[0]), steps[1..], key);
    }
  }

  // Between two creations of a key's context the key is deleted.
  lemma DeletedBetweenCreations(before: seq<Step>, first: Step, between: seq<Step>, second: Step, key: Key)
    requires Runs(Start, before) && Creates(Reached(before), first, key)
    requires Runs(Apply(Reached(before), first), between)
    requires Creates(After(Apply(Reached(before), first), between), second, key)
    ensures Deletes(between, key)
  {
    var s := Reached(before);
    StepKeeps(s, first);
    CreatesIfAbsent(s, first, key);
    CreatesIfAbsent(After(Apply(s, first), between), second, key);
    if !Deletes(between, key) {
      StaysUnlessDeleted(Apply(s, first), between, key);
    }
  }
}
