// LruQueue (polaris/cache/lru_queue.h): a lock-free queue with many producers and one consumer.
// The machine's steps are the single atomic accesses of Enqueue and Dequeue, so a producer may stop
// between exchanging the head and linking its node.  `nodes` holds the allocated nodes only:
// touching a freed node is touching an id outside its domain.
module LruQueueProtocol {
  import opened Common

  type NodeId = nat
  type Datum = nat
  type Pid = nat

  datatype Node = Node(time: nat, data: Option<Datum>, next: Option<NodeId>)

  // Exchanged: the head now is `node`, and `prev` is not linked to it yet.  `pos` is the place of
  // `node` in the exchange order.
  datatype Producer = Idle | Created(node: NodeId) | Exchanged(node: NodeId, prev: NodeId, pos: nat)

  datatype Consumer =
    | Resting
    | GotTail(last: NodeId, min: nat)
    | GotNext(last: NodeId, next: NodeId, min: nat)
    | DataFreed(last: NodeId, next: NodeId)
    | TailStored(last: NodeId)

  // One freed datum: what was freed, the stamp of its node and the min_time of that Dequeue.
  datatype Freed = Freed(data: Datum, time: nat, min: nat)

  // What a node was created with, and by which producer.
  datatype Made = Made(data: Datum, time: nat, maker: Pid)

  // History: `order` lists all nodes in the order of the head exchanges, the initial node first, and
  // `posOf` gives each node's place in it; `tailPos` is the place of the tail; `linker[i]` is the
  // producer that still has to link the node at place i; `freed` is the log.
  datatype State = State(
    nodes: map<NodeId, Node>,
    nextId: NodeId,
    head: NodeId,
    tail: NodeId,
    producers: map<Pid, Producer>,
    consumer: Consumer,
    order: seq<NodeId>,
    posOf: map<NodeId, nat>,
    tailPos: nat,
    made: map<NodeId, Made>,
    linker: map<nat, Pid>,
    freed: seq<Freed>)

  ghost predicate Init(s: State) {
    && (exists time :: s.nodes == map[0 := Node(time, None, None)])
    && s.nextId == 1 && s.head == 0 && s.tail == 0
    && (forall p :: p in s.producers ==> s.producers[p].Idle?)
    && s.consumer == Resting
    && s.order == [0] && s.posOf == map[0 := 0] && s.tailPos == 0 && s.made == map[] && s.linker == map[] && s.freed == []
  }

  datatype Step =
    | NewNode(p: Pid, data: Datum, time: nat)
    | ExchangeHead(p: Pid)
    | LinkNode(p: Pid)
    | LoadTail(min: nat)
    | LoadNext
    | FreeData
    | StoreTail
    | FreeTail

  // Allocated is the only condition on the nodes a step touches; that it always holds is proved.
  predicate Enabled(s: State, step: Step) {
    match step
    case NewNode(p, _, _) => p in s.producers && s.producers[p].Idle?
    case ExchangeHead(p) => p in s.producers && s.producers[p].Created?
    case LinkNode(p) => p in s.producers && s.producers[p].Exchanged? && s.producers[p].prev in s.nodes
    case LoadTail(_) => s.consumer.Resting?
    case LoadNext => s.consumer.GotTail? && s.consumer.last in s.nodes
    case FreeData => s.consumer.GotNext? && s.consumer.next in s.nodes
    case StoreTail => s.consumer.DataFreed?
    case FreeTail => s.consumer.TailStored? && s.consumer.last in s.nodes
  }

  function DoFreeData(s: State): State
    requires Enabled(s, FreeData)
  {
    var c := s.consumer;
    var node := s.nodes[c.next];
    if node.time < c.min then
      s.(nodes := s.nodes[c.next := node.(data := None)],
         consumer := DataFreed(c.last, c.next),
         freed := if node.data.Some? then s.freed + [Freed(node.data.value, node.time, c.min)] else s.freed)
    else
      s.(consumer := Resting)
  }

  function Apply(s: State, step: Step): State
    requires Enabled(s, step)
  {
    match step
    case NewNode(p, data, time) =>
      s.(nodes := s.nodes[s.nextId := Node(time, Some(data), None)],
         nextId := s.nextId + 1,
         producers := s.producers[p := Created(s.nextId)],
         made := s.made[s.nextId := Made(data, time, p)])
    case ExchangeHead(p) =>
      var node := s.producers[p].node;
      s.(head := node,
         producers := s.producers[p := Exchanged(node, s.head, |s.order|)],
         order := s.order + [node],
         posOf := s.posOf[node := |s.order|],
         linker := s.linker[|s.order| := p])
    case LinkNode(p) =>
      var pr := s.producers[p];
      s.(nodes := s.nodes[pr.prev := s.nodes[pr.prev].(next := Some(pr.node))],
         producers := s.producers[p := Idle],
         linker := s.linker - {pr.pos})
    case LoadTail(min) => s.(consumer := GotTail(s.tail, min))
    case LoadNext =>
      var next := s.nodes[s.consumer.last].next;
      s.(consumer := if next.None? then Resting else GotNext(s.consumer.last, next.value, s.consumer.min))
    case FreeData => DoFreeData(s)
    case StoreTail => s.(tail := s.consumer.next, tailPos := s.tailPos + 1, consumer := TailStored(s.consumer.last))
    case FreeTail => s.(nodes := s.nodes - {s.consumer.last}, consumer := Resting)
  }

  // ---------------------------------------------------------------------------------------------
  // The invariant
  // ---------------------------------------------------------------------------------------------

  // The place of the oldest allocated node of the exchange order.
  function First(s: State): int {
    if s.consumer.TailStored? then s.tailPos - 1 else s.tailPos
  }

  // The place up to which data has been freed.
  function FreedTo(s: State): nat {
    if s.consumer.DataFreed? then s.tailPos + 1 else s.tailPos
  }

  ghost predicate OrderInv(s: State) {
    && FreedTo(s) < |s.order| && 0 <= First(s)
    && s.head == s.order[|s.order| - 1] && s.tail == s.order[s.tailPos]
    && (forall n :: n in s.posOf ==> n < s.nextId)
    && (forall i :: 0 <= i < |s.order| ==>
          && s.order[i] < s.nextId
          && s.order[i] in s.posOf && s.posOf[s.order[i]] == i
          && (0 < i ==> s.order[i] in s.made))
  }

  // An allocated node points to the next in the order, unless a producer still has to link that
  // one; it keeps its stamp, and keeps its datum until the consumer frees it.
  ghost predicate NodeAt(s: State, i: int)
    requires OrderInv(s) && First(s) <= i < |s.order|
  {
    var n := s.order[i];
    && n in s.nodes
    && s.nodes[n].next == (if i + 1 == |s.order| || i + 1 in s.linker then None else Some(s.order[i + 1]))
    && (0 < i ==> s.nodes[n].time == s.made[n].time)
    && (FreedTo(s) < i ==> s.nodes[n].data == Some(s.made[n].data))
  }

  ghost predicate NodesInv(s: State)
    requires OrderInv(s)
  {
    forall i {:trigger NodeAt(s, i)} :: First(s) <= i < |s.order| ==> NodeAt(s, i)
  }

  ghost predicate LinkerInv(s: State) {
    && (forall i :: i in s.linker ==>
          && s.tailPos < i < |s.order|
          && s.linker[i] in s.producers
          && s.producers[s.linker[i]] == Exchanged(s.order[i], s.order[i - 1], i))
    && (forall p :: p in s.producers && s.producers[p].Exchanged? ==>
          s.producers[p].pos in s.linker && s.linker[s.producers[p].pos] == p)
  }

  ghost predicate CreatedInv(s: State) {
    forall p :: p in s.producers && s.producers[p].Created? ==>
      var n := s.producers[p].node;
      && n in s.nodes && n < s.nextId && n !in s.posOf
      && n in s.made && s.made[n].maker == p
      && s.nodes[n] == Node(s.made[n].time, Some(s.made[n].data), None)
  }

  ghost predicate ConsumerInv(s: State)
    requires OrderInv(s)
  {
    match s.consumer
    case Resting => true
    case GotTail(last, _) => last == s.tail
    case GotNext(last, next, _) => last == s.tail && s.tailPos + 1 < |s.order| && next == s.order[s.tailPos + 1]
                                   && s.tailPos + 1 !in s.linker
    case DataFreed(last, next) => last == s.tail && next == s.order[s.tailPos + 1] && s.tailPos + 1 !in s.linker
    case TailStored(last) => last == s.order[s.tailPos - 1]
  }

  // The log names, in exchange order, the datum of every node up to FreedTo.
  ghost predicate LogInv(s: State)
    requires OrderInv(s)
  {
    && |s.freed| == FreedTo(s)
    && (forall i :: 0 <= i < |s.freed| ==>
          && s.freed[i].data == s.made[s.order[i + 1]].data
          && s.freed[i].time == s.made[s.order[i + 1]].time
          && s.freed[i].time < s.freed[i].min)
  }

  // An allocated node has a place from First on, or was just created.
  ghost predicate Accounted(s: State, n: NodeId) {
    && n < s.nextId
    && (if n in s.posOf then First(s) <= s.posOf[n] < |s.order| && s.order[s.posOf[n]] == n
        else n in s.made && s.made[n].maker in s.producers && s.producers[s.made[n].maker] == Created(n))
  }

  // Nothing else is allocated: no node leaks.
  ghost predicate NoLeak(s: State) {
    forall n {:trigger Accounted(s, n)} :: n in s.nodes ==> Accounted(s, n)
  }

  ghost predicate Inv(s: State) {
    OrderInv(s) && NodesInv(s) && LinkerInv(s) && CreatedInv(s) && ConsumerInv(s) && LogInv(s) && NoLeak(s)
  }

  lemma InitKeeps(s: State)
    requires Init(s)
    ensures Inv(s)
  {
  }

  lemma NewNodeNodes(s: State, p: Pid, data: Datum, time: nat)
    requires OrderInv(s) && NodesInv(s) && Enabled(s, NewNode(p, data, time))
    ensures var t := Apply(s, NewNode(p, data, time)); OrderInv(t) && NodesInv(t)
  {
    var t := Apply(s, NewNode(p, data, time));
    assert OrderInv(t);
    forall i | First(t) <= i < |t.order| ensures NodeAt(t, i) {
      assert NodeAt(s, i);
    }
  }

  lemma NewNodeKeeps(s: State, p: Pid, data: Datum, time: nat)
    requires Inv(s) && Enabled(s, NewNode(p, data, time))
    ensures Inv(Apply(s, NewNode(p, data, time)))
  {
    NewNodeNodes(s, p, data, time);
    var t := Apply(s, NewNode(p, data, time));
    forall n | n in t.nodes ensures Accounted(t, n) {
      assert n in s.nodes ==> Accounted(s, n);
    }
  }

  lemma ExchangeHeadNodes(s: State, p: Pid)
    requires OrderInv(s) && NodesInv(s) && CreatedInv(s) && LinkerInv(s) && Enabled(s, ExchangeHead(p))
    ensures var t := Apply(s, ExchangeHead(p)); OrderInv(t) && NodesInv(t)
  {
    var t := Apply(s, ExchangeHead(p));
    assert OrderInv(t);
    forall i | First(t) <= i < |t.order| ensures NodeAt(t, i) {
      assert i < |s.order| ==> NodeAt(s, i);
    }
  }

  lemma ExchangeHeadLinkers(s: State, p: Pid)
    requires OrderInv(s) && CreatedInv(s) && LinkerInv(s) && Enabled(s, ExchangeHead(p))
    ensures LinkerInv(Apply(s, ExchangeHead(p))) && CreatedInv(Apply(s, ExchangeHead(p)))
  {
  }

  lemma ExchangeHeadKeeps(s: State, p: Pid)
    requires Inv(s) && Enabled(s, ExchangeHead(p))
    ensures Inv(Apply(s, ExchangeHead(p)))
  {
    ExchangeHeadNodes(s, p);
    ExchangeHeadLinkers(s, p);
    var t := Apply(s, ExchangeHead(p));
    forall n | n in t.nodes ensures Accounted(t, n) {
      assert n in s.nodes ==> Accounted(s, n);
    }
  }

  // The producer touches a node that the consumer has not freed.
  lemma PrevAllocated(s: State, p: Pid)
    requires Inv(s) && p in s.producers && s.producers[p].Exchanged?
    ensures s.tailPos < s.producers[p].pos < |s.order|
    ensures s.producers[p].prev == s.order[s.producers[p].pos - 1] && s.producers[p].prev in s.nodes
  {
    assert NodeAt(s, s.producers[p].pos - 1);
  }

  lemma LinkNodeNodes(s: State, p: Pid)
    requires Inv(s) && Enabled(s, LinkNode(p))
    ensures var t := Apply(s, LinkNode(p)); OrderInv(t) && NodesInv(t)
  {
    var t := Apply(s, LinkNode(p));
    PrevAllocated(s, p);
    assert OrderInv(t);
    forall i | First(t) <= i < |t.order| ensures NodeAt(t, i) {
      assert i < |s.order| ==> NodeAt(s, i);
    }
  }

  lemma LinkNodeKeeps(s: State, p: Pid)
    requires Inv(s) && Enabled(s, LinkNode(p))
    ensures Inv(Apply(s, LinkNode(p)))
  {
    PrevAllocated(s, p);
    LinkNodeNodes(s, p);
    var t := Apply(s, LinkNode(p));
    forall n | n in t.nodes ensures Accounted(t, n) {
      assert n in s.nodes ==> Accounted(s, n);
    }
  }

  // The nodes the consumer touches are allocated.
  lemma ConsumerNodesAllocated(s: State)
    requires Inv(s)
    ensures s.consumer.GotTail? || s.consumer.GotNext? || s.consumer.DataFreed? || s.consumer.TailStored? ==>
              s.consumer.last in s.nodes
    ensures s.consumer.GotNext? || s.consumer.DataFreed? ==> s.consumer.next in s.nodes
  {
    assert NodeAt(s, First(s));
    assert s.tailPos + 1 < |s.order| ==> NodeAt(s, s.tailPos + 1);
  }

  lemma LoadNextKeeps(s: State)
    requires Inv(s) && Enabled(s, LoadNext)
    ensures Inv(Apply(s, LoadNext))
  {
    var t := Apply(s, LoadNext);
    OrderStays(s, t);
    assert NodeAt(s, s.tailPos);
    forall i | First(t) <= i < |t.order| ensures NodeAt(t, i) {
      assert NodeAt(s, i);
    }
    forall n | n in t.nodes ensures Accounted(t, n) {
      assert n in s.nodes ==> Accounted(s, n);
    }
  }

  // Steps of the consumer leave the order of exchange as it is.
  lemma OrderStays(s: State, t: State)
    requires OrderInv(s) && FreedTo(t) < |s.order| && 0 <= First(t)
    requires t.order == s.order && t.posOf == s.posOf && t.made == s.made && t.nextId == s.nextId
    requires t.head == s.head && t.tail == s.tail && t.tailPos == s.tailPos
    ensures OrderInv(t)
  {
  }

  lemma FreeDataNode(s: State, t: State, i: nat)
    requires OrderInv(s) && OrderInv(t) && First(s) == First(t) == s.tailPos <= i < |s.order| == |t.order|
    requires NodeAt(s, i) && t.order == s.order && t.linker == s.linker && t.made == s.made && t.tailPos == s.tailPos
    requires s.tailPos + 1 < |s.order| && s.order[s.tailPos + 1] in s.nodes && t.consumer.DataFreed?
    requires t.nodes == s.nodes[s.order[s.tailPos + 1] := s.nodes[s.order[s.tailPos + 1]].(data := None)]
    ensures NodeAt(t, i)
  {
  }

  lemma FreeDataNodes(s: State)
    requires OrderInv(s) && NodesInv(s) && ConsumerInv(s) && Enabled(s, FreeData)
    ensures var t := Apply(s, FreeData); OrderInv(t) && NodesInv(t)
  {
    var t := Apply(s, FreeData);
    OrderStays(s, t);
    forall i | First(t) <= i < |t.order| ensures NodeAt(t, i) {
      assert NodeAt(s, i);
      if t.consumer.DataFreed? {
        FreeDataNode(s, t, i);
      }
    }
  }

  lemma FreeDataLog(s: State)
    requires OrderInv(s) && NodesInv(s) && ConsumerInv(s) && LogInv(s) && Enabled(s, FreeData)
    ensures var t := Apply(s, FreeData); OrderInv(t) && LogInv(t)
  {
    assert NodeAt(s, s.tailPos + 1);
  }

  lemma FreeDataKeeps(s: State)
    requires Inv(s) && Enabled(s, FreeData)
    ensures Inv(Apply(s, FreeData))
  {
    assert NodeAt(s, s.tailPos + 1);
    FreeDataNodes(s);
    FreeDataLog(s);
    var t := Apply(s, FreeData);
    forall n | n in t.nodes ensures Accounted(t, n) {
      assert n in s.nodes ==> Accounted(s, n);
    }
  }

  lemma StoreTailKeeps(s: State)
    requires Inv(s) && Enabled(s, StoreTail)
    ensures Inv(Apply(s, StoreTail))
  {
    var t := Apply(s, StoreTail);
    assert OrderInv(t);
    forall i | First(t) <= i < |t.order| ensures NodeAt(t, i) {
      assert NodeAt(s, i);
    }
    forall n | n in t.nodes ensures Accounted(t, n) {
      assert n in s.nodes ==> Accounted(s, n);
    }
  }

  lemma FreeTailKeeps(s: State)
    requires Inv(s) && Enabled(s, FreeTail)
    ensures Inv(Apply(s, FreeTail))
  {
    var t := Apply(s, FreeTail);
    assert OrderInv(t);
    forall i | First(t) <= i < |t.order| ensures NodeAt(t, i) {
      assert NodeAt(s, i);
    }
    forall n | n in t.nodes ensures Accounted(t, n) {
      assert n in s.nodes ==> Accounted(s, n);
    }
  }

  lemma LoadTailKeeps(s: State, min: nat)
    requires Inv(s) && Enabled(s, LoadTail(min))
    ensures Inv(Apply(s, LoadTail(min)))
  {
    var t := Apply(s, LoadTail(min));
    OrderStays(s, t);
    forall i | First(t) <= i < |t.order| ensures NodeAt(t, i) {
      assert NodeAt(s, i);
    }
    forall n | n in t.nodes ensures Accounted(t, n) {
      assert n in s.nodes ==> Accounted(s, n);
    }
  }

  lemma StepKeeps(s: State, step: Step)
    requires Inv(s) && Enabled(s, step)
    ensures Inv(Apply(s, step))
  {
    match step {
      case NewNode(p, data, time) => NewNodeKeeps(s, p, data, time);
      case ExchangeHead(p) => ExchangeHeadKeeps(s, p);
      case LinkNode(p) => LinkNodeKeeps(s, p);
      case LoadTail(min) => LoadTailKeeps(s, min);
      case LoadNext => LoadNextKeeps(s);
      case FreeData => FreeDataKeeps(s);
      case StoreTail => StoreTailKeeps(s);
      case FreeTail => FreeTailKeeps(s);
    }
  }

  // ---------------------------------------------------------------------------------------------
  // Theorems over every run
  // ---------------------------------------------------------------------------------------------

  ghost predicate Runs(s: State, steps: seq<Step>)
    decreases |steps|
  {
    steps == [] || (Enabled(s, steps[0]) && Runs(Apply(s, steps[0]), steps[1..]))
  }

  ghost function After(s: State, steps: seq<Step>): State
    requires Runs(s, steps)
    decreases |steps|
  {
    if steps == [] then s else After(Apply(s, steps[0]), steps[1..])
  }

  lemma {:induction false} RunKeeps(s: State, steps: seq<Step>)
    requires Inv(s) && Runs(s, steps)
    ensures Inv(After(s, steps))
    decreases |steps|
  {
    if steps != [] {
      StepKeeps(s, steps[0]);
      RunKeeps(Apply(s, steps[0]), steps[1..]);
    }
  }

  // No producer and no consumer is ever about to touch a freed node, however the producers stop.
  lemma NoFreedNodeTouched(init: State, steps: seq<Step>, p: Pid)
    requires Init(init) && Runs(init, steps) && p in After(init, steps).producers
    ensures var s := After(init, steps);
      && (s.producers[p].Exchanged? ==> s.producers[p].prev in s.nodes && s.nodes[s.producers[p].prev].next == None)
      && (!s.consumer.Resting? ==> s.consumer.last in s.nodes)
      && (s.consumer.GotNext? || s.consumer.DataFreed? ==> s.consumer.next in s.nodes)
  {
    var s := After(init, steps);
    InitKeeps(init);
    RunKeeps(init, steps);
    ConsumerNodesAllocated(s);
    if s.producers[p].Exchanged? {
      PrevAllocated(s, p);
      assert NodeAt(s, s.producers[p].pos - 1);
    }
  }

  // The data freed so far are the data of the first exchanged nodes, in exchange order, each node
  // once, and each under a min_time above its stamp.
  lemma FreedInExchangeOrder(init: State, steps: seq<Step>)
    requires Init(init) && Runs(init, steps)
    ensures var s := After(init, steps);
      && |s.freed| < |s.order|
      && (forall i, j :: 0 <= i < j < |s.order| ==> s.order[i] != s.order[j])
      && (forall i :: 0 <= i < |s.freed| ==>
            && s.order[i + 1] in s.made
            && s.freed[i].data == s.made[s.order[i + 1]].data
            && s.freed[i].time == s.made[s.order[i + 1]].time < s.freed[i].min)
      && (forall i :: |s.freed| < i < |s.order| ==>
            s.order[i] in s.made && s.order[i] in s.nodes && s.nodes[s.order[i]].data == Some(s.made[s.order[i]].data))
  {
    var s := After(init, steps);
    InitKeeps(init);
    RunKeeps(init, steps);
    forall i | |s.freed| < i < |s.order|
      ensures s.order[i] in s.nodes && s.nodes[s.order[i]].data == Some(s.made[s.order[i]].data)
    {
      assert NodeAt(s, i);
    }
  }

  ghost predicate AtRest(s: State) {
    s.consumer.Resting? && forall p :: p in s.producers ==> s.producers[p].Idle?
  }

  // The nodes from the tail on.
  ghost function Remaining(s: State): set<NodeId> {
    set i | |s.freed| <= i < |s.order| :: s.order[i]
  }

  ghost predicate LinkedInOrder(s: State, i: nat)
    requires i < |s.order|
  {
    && s.order[i] in s.nodes
    && s.nodes[s.order[i]].next == if i + 1 == |s.order| then None else Some(s.order[i + 1])
  }

  lemma RestTail(s: State)
    requires OrderInv(s) && LogInv(s) && s.consumer.Resting?
    ensures s.tailPos == |s.freed| < |s.order|
  {
  }

  lemma RestNodes(s: State)
    requires Inv(s) && AtRest(s)
    ensures s.nodes.Keys == Remaining(s)
  {
    RestTail(s);
    forall n | n in s.nodes ensures n in Remaining(s) {
      assert Accounted(s, n);
      assert s.order[s.posOf[n]] == n;
    }
    forall i | |s.freed| <= i < |s.order| ensures s.order[i] in s.nodes {
      assert NodeAt(s, i);
    }
  }

  lemma RestLinks(s: State, i: nat)
    requires Inv(s) && AtRest(s) && |s.freed| <= i < |s.order|
    ensures LinkedInOrder(s, i)
  {
    RestTail(s);
    assert NodeAt(s, i);
    assert i + 1 !in s.linker;
  }

  // When every Enqueue has returned, the allocated nodes are the tail and the nodes whose data is
  // still queued, linked in exchange order.
  lemma QueueAtRest(init: State, steps: seq<Step>)
    requires Init(init) && Runs(init, steps) && AtRest(After(init, steps))
    ensures var s := After(init, steps);
      && |s.freed| < |s.order|
      && s.nodes.Keys == Remaining(s)
      && (forall i {:trigger LinkedInOrder(s, i)} :: |s.freed| <= i < |s.order| ==> LinkedInOrder(s, i))
  {
    var s := After(init, steps);
    assert Inv(s) by {
      InitKeeps(init);
      RunKeeps(init, steps);
    }
    RestTail(s);
    RestNodes(s);
    forall i | |s.freed| <= i < |s.order| ensures LinkedInOrder(s, i) {
      RestLinks(s, i);
    }
  }
}

// The queue as one thread sees it: Enqueue, Dequeue and the destructor.
module LruQueue {
  import opened Common
  import opened LruQueueProtocol

  ghost predicate LinkedAt(nodes: map<NodeId, Node>, chain: seq<NodeId>, i: nat)
    requires i < |chain| && chain[i] in nodes
  {
    nodes[chain[i]].next == if i + 1 < |chain| then Some(chain[i + 1]) else None
  }

  ghost predicate HoldsAt(nodes: map<NodeId, Node>, chain: seq<NodeId>, queued: seq<(Datum, nat)>, i: nat)
    requires i < |queued| && i + 1 < |chain| && chain[i + 1] in nodes
  {
    nodes[chain[i + 1]].data == Some(queued[i].0) && nodes[chain[i + 1]].time == queued[i].1
  }

  ghost predicate OnChain(chain: seq<NodeId>, n: NodeId) {
    n in chain
  }

  // The nodes from the tail to the head, and what they hold beyond the tail.
  ghost predicate Chained(nodes: map<NodeId, Node>, chain: seq<NodeId>, queued: seq<(Datum, nat)>) {
    && |chain| == |queued| + 1
    && (forall i, j :: 0 <= i < j < |chain| ==> chain[i] != chain[j])
    && (forall i :: 0 <= i < |chain| ==> chain[i] in nodes)
    && (forall n {:trigger OnChain(chain, n)} :: n in nodes ==> OnChain(chain, n))
    && (forall i {:trigger LinkedAt(nodes, chain, i)} :: 0 <= i < |chain| ==> LinkedAt(nodes, chain, i))
    && (forall i {:trigger HoldsAt(nodes, chain, queued, i)} :: 0 <= i < |queued| ==> HoldsAt(nodes, chain, queued, i))
  }

  function DataOf(queued: seq<(Datum, nat)>): (r: seq<Datum>)
    ensures |r| == |queued| && forall i :: 0 <= i < |r| ==> r[i] == queued[i].0
  {
    if queued == [] then [] else [queued[0].0] + DataOf(queued[1..])
  }

  lemma ChainGrows(nodes: map<NodeId, Node>, chain: seq<NodeId>, queued: seq<(Datum, nat)>, node: NodeId, data: Datum, now: nat)
    requires Chained(nodes, chain, queued) && node !in nodes
    ensures var prev := chain[|chain| - 1];
      Chained(nodes[node := Node(now, Some(data), None)][prev := nodes[prev].(next := Some(node))],
              chain + [node], queued + [(data, now)])
  {
    var prev := chain[|chain| - 1];
    var m := nodes[node := Node(now, Some(data), None)][prev := nodes[prev].(next := Some(node))];
    var c, q := chain + [node], queued + [(data, now)];
    assert forall i :: 0 <= i < |chain| ==> c[i] == chain[i];
    assert c[|chain|] == node;
    forall n | n in m ensures OnChain(c, n) {
      assert n in nodes ==> OnChain(chain, n);
    }
    forall i | 0 <= i < |c| ensures LinkedAt(m, c, i) {
      assert i < |chain| ==> LinkedAt(nodes, chain, i);
    }
    forall i | 0 <= i < |q| ensures HoldsAt(m, c, q, i) {
      assert i < |queued| ==> HoldsAt(nodes, chain, queued, i);
    }
  }

  lemma FrontOf(nodes: map<NodeId, Node>, chain: seq<NodeId>, queued: seq<(Datum, nat)>)
    requires Chained(nodes, chain, queued)
    ensures chain[0] in nodes
    ensures nodes[chain[0]].next == if queued == [] then None else Some(chain[1])
    ensures queued != [] ==>
      && chain[1] in nodes && chain[1] != chain[0]
      && nodes[chain[1]].data == Some(queued[0].0) && nodes[chain[1]].time == queued[0].1
  {
    assert LinkedAt(nodes, chain, 0);
    assert queued != [] ==> HoldsAt(nodes, chain, queued, 0);
  }

  lemma ChainShrinks(nodes: map<NodeId, Node>, chain: seq<NodeId>, queued: seq<(Datum, nat)>, next: Node)
    requires Chained(nodes, chain, queued) && queued != [] && next == nodes[chain[1]].(data := None)
    ensures Chained(nodes[chain[1] := next] - {chain[0]}, chain[1..], queued[1..])
  {
    var m := nodes[chain[1] := next] - {chain[0]};
    var c, q := chain[1..], queued[1..];
    assert forall i :: 0 <= i < |c| ==> c[i] == chain[i + 1];
    forall n | n in m ensures OnChain(c, n) {
      assert OnChain(chain, n);
    }
    forall i | 0 <= i < |c| ensures LinkedAt(m, c, i) {
      assert LinkedAt(nodes, chain, i + 1);
    }
    forall i | 0 <= i < |q| ensures HoldsAt(m, c, q, i) {
      assert HoldsAt(nodes, chain, queued, i + 1);
    }
  }

  // The nodes of the chain before place n, but for the tail.
  ghost function Passed(chain: seq<NodeId>, n: nat): set<NodeId>
    requires n <= |chain|
  {
    set i | 1 <= i < n :: chain[i]
  }

  lemma PlaceAt(nodes: map<NodeId, Node>, chain: seq<NodeId>, queued: seq<(Datum, nat)>, n: nat)
    requires Chained(nodes, chain, queued) && 1 <= n < |chain|
    ensures chain[n] in nodes && chain[n] !in Passed(chain, n) && Passed(chain, n + 1) == Passed(chain, n) + {chain[n]}
    ensures nodes[chain[n]].data == Some(queued[n - 1].0)
    ensures nodes[chain[n]].next == if n + 1 < |chain| then Some(chain[n + 1]) else None
  {
    assert HoldsAt(nodes, chain, queued, n - 1) && LinkedAt(nodes, chain, n);
  }

  lemma AllPassed(nodes: map<NodeId, Node>, chain: seq<NodeId>, queued: seq<(Datum, nat)>)
    requires Chained(nodes, chain, queued)
    ensures nodes - Passed(chain, |chain|) - {chain[0]} == map[]
  {
    forall n | n in nodes ensures n in Passed(chain, |chain|) + {chain[0]} {
      assert OnChain(chain, n);
    }
  }

  // ---------------------------------------------------------------------------------------------
  // The operations on values, and the steps of the machine that carry them out
  // ---------------------------------------------------------------------------------------------

  datatype Queue = Queue(nodes: map<NodeId, Node>, nextId: NodeId, head: NodeId, tail: NodeId, freed: seq<Datum>)

  function Enqueued(q: Queue, data: Datum, now: nat): Queue {
    var nodes := q.nodes[q.nextId := Node(now, Some(data), None)];
    Queue(if q.head in nodes then nodes[q.head := nodes[q.head].(next := Some(q.nextId))] else nodes,
          q.nextId + 1, q.nextId, q.tail, q.freed)
  }

  // The node after the tail, if it is linked.
  function Front(q: Queue): Option<NodeId> {
    if q.tail in q.nodes && q.nodes[q.tail].next.Some? && q.nodes[q.tail].next.value in q.nodes
    then q.nodes[q.tail].next else None
  }

  function Dequeued(q: Queue, min: nat): Queue {
    var front := Front(q);
    if front.None? || q.nodes[front.value].time >= min then q
    else
      var node := q.nodes[front.value];
      q.(nodes := q.nodes[front.value := node.(data := None)] - {q.tail},
         tail := front.value,
         freed := q.freed + if node.data.Some? then [node.data.value] else [])
  }

  function FreedData(log: seq<Freed>): seq<Datum> {
    seq(|log|, i requires 0 <= i < |log| => log[i].data)
  }

  function Shown(s: State): Queue {
    Queue(s.nodes, s.nextId, s.head, s.tail, FreedData(s.freed))
  }

  lemma Before(s: State, step: Step, rest: seq<Step>)
    requires Enabled(s, step) && Runs(Apply(s, step), rest)
    ensures Runs(s, [step] + rest) && After(s, [step] + rest) == After(Apply(s, step), rest)
  {
    assert ([step] + rest)[1..] == rest;
  }

  lemma Last(s: State, step: Step)
    requires Enabled(s, step)
    ensures Runs(s, [step]) && After(s, [step]) == Apply(s, step)
  {
    Before(s, step, []);
    assert [step] + [] == [step];
  }

  // An Enqueue that nobody interrupts, from any state that can be reached.
  lemma EnqueueIsSteps(s: State, p: Pid, data: Datum, now: nat)
    requires Inv(s) && p in s.producers && s.producers[p].Idle?
    ensures var steps := [NewNode(p, data, now)] + ([ExchangeHead(p)] + [LinkNode(p)]);
      && Runs(s, steps)
      && Shown(After(s, steps)) == Enqueued(Shown(s), data, now)
      && After(s, steps).producers == s.producers
  {
    assert NodeAt(s, |s.order| - 1);
    var a := Apply(s, NewNode(p, data, now));
    var b := Apply(a, ExchangeHead(p));
    Last(b, LinkNode(p));
    Before(a, ExchangeHead(p), [LinkNode(p)]);
    Before(s, NewNode(p, data, now), [ExchangeHead(p)] + [LinkNode(p)]);
  }

  // The steps of a Dequeue, as far as it goes.
  function FreeSteps(q: Queue, min: nat): seq<Step> {
    var front := Front(q);
    if front.None? then []
    else if q.nodes[front.value].time >= min then [FreeData]
    else [FreeData] + ([StoreTail] + [FreeTail])
  }

  lemma FreesFront(s: State, t: State, min: nat)
    requires Inv(s) && s.consumer.Resting? && Front(Shown(s)).Some?
    requires t == s.(consumer := GotNext(s.tail, Front(Shown(s)).value, min))
    ensures var steps := FreeSteps(Shown(s), min);
      && Runs(t, steps)
      && Shown(After(t, steps)) == Dequeued(Shown(s), min) && After(t, steps).consumer.Resting?
  {
    assert NodeAt(s, s.tailPos);
    var next := Front(Shown(s)).value;
    assert next == s.order[s.tailPos + 1] && NodeAt(s, s.tailPos + 1);
    var a := Apply(t, FreeData);
    if s.nodes[next].time >= min {
      Last(t, FreeData);
    } else {
      assert s.order[s.tailPos] != next;
      assert FreedData(a.freed) == FreedData(s.freed) + [s.nodes[next].data.value];
      var b := Apply(a, StoreTail);
      Last(b, FreeTail);
      Before(a, StoreTail, [FreeTail]);
      Before(t, FreeData, [StoreTail] + [FreeTail]);
    }
  }

  // A Dequeue that nobody interrupts, from any state that can be reached.
  lemma DequeueIsSteps(s: State, min: nat)
    requires Inv(s) && s.consumer.Resting?
    ensures var steps := [LoadTail(min)] + ([LoadNext] + FreeSteps(Shown(s), min));
      && Runs(s, steps)
      && Shown(After(s, steps)) == Dequeued(Shown(s), min) && After(s, steps).consumer.Resting?
  {
    assert NodeAt(s, s.tailPos);
    assert s.tailPos + 1 < |s.order| ==> NodeAt(s, s.tailPos + 1);
    var a := Apply(s, LoadTail(min));
    var b := Apply(a, LoadNext);
    if Front(Shown(s)).Some? {
      FreesFront(s, b, min);
    } else {
      assert b == s;
    }
    Before(a, LoadNext, FreeSteps(Shown(s), min));
    Before(s, LoadTail(min), [LoadNext] + FreeSteps(Shown(s), min));
  }

  class LruQueue {
    var nodes: map<NodeId, Node>
    var nextId: NodeId
    var head: NodeId
    var tail: NodeId
    var freed: seq<Datum>
    ghost var chain: seq<NodeId>
    ghost var queued: seq<(Datum, nat)>  // the queued data with their stamps, oldest first

    ghost function View(): Queue
      reads this
    {
      Queue(nodes, nextId, head, tail, freed)
    }

    ghost predicate Valid()
      reads this
    {
      && Chained(nodes, chain, queued)
      && chain[0] == tail && chain[|chain| - 1] == head
      && (forall n :: n in nodes ==> n < nextId)
    }

    constructor (now: nat)
      ensures Valid() && queued == [] && freed == []
    {
      nodes, nextId, head, tail, freed := map[0 := Node(now, None, None)], 1, 0, 0, [];
      chain, queued := [0], [];
    }

    method Enqueue(data: Datum, now: nat)
      requires Valid()
      modifies this
      ensures Valid() && freed == old(freed)
      ensures queued == old(queued) + [(data, now)]
      ensures View() == Enqueued(old(View()), data, now)
    {
      var node := nextId;
      ChainGrows(nodes, chain, queued, node, data, now);
      nextId := nextId + 1;
      nodes := nodes[node := Node(now, Some(data), None)];
      var prev := head;
      head := node;
      nodes := nodes[prev := nodes[prev].(next := Some(node))];
      chain, queued := chain + [node], queued + [(data, now)];
    }

    method FreeFront(last: NodeId, next: NodeId, node: Node)
      requires node.data.Some? && |chain| > 1 && queued != [] && last == chain[0] && next == chain[1]
      modifies this
      ensures nodes == old(nodes)[next := node.(data := None)] - {last}
      ensures tail == next && freed == old(freed) + [node.data.value]
      ensures chain == old(chain)[1..] && queued == old(queued)[1..] && head == old(head) && nextId == old(nextId)
    {
      freed := freed + [node.data.value];
      nodes := nodes[next := node.(data := None)];
      tail := next;
      nodes := nodes - {last};
      chain, queued := chain[1..], queued[1..];
    }

    // Frees the oldest datum if its stamp is below the bound.
    method Dequeue(min: nat) returns (done: bool)
      requires Valid()
      modifies this
      ensures Valid()
      ensures done <==> old(queued) != [] && old(queued)[0].1 < min
      ensures done ==> queued == old(queued)[1..] && freed == old(freed) + [old(queued)[0].0]
      ensures !done ==> queued == old(queued) && freed == old(freed)
      ensures View() == Dequeued(old(View()), min)
    {
      FrontOf(nodes, chain, queued);
      var last := tail;
      var next := nodes[last].next;
      if next.None? || nodes[next.value].time >= min {
        return false;
      }
      var node := nodes[next.value];
      ChainShrinks(nodes, chain, queued, node.(data := None));
      FreeFront(last, next.value, node);
      return true;
    }

    method FreeNode(id: NodeId) returns (next: Option<NodeId>)
      requires id in nodes && nodes[id].data.Some?
      modifies this`nodes, this`freed
      ensures nodes == old(nodes) - {id} && freed == old(freed) + [old(nodes)[id].data.value]
      ensures next == old(nodes)[id].next
    {
      next := nodes[id].next;
      freed := freed + [nodes[id].data.value];
      nodes := nodes - {id};
    }

    // The destructor frees every queued datum once, in order, and every node.
    method Destroy()
      requires Valid()
      modifies this
      ensures nodes == map[] && freed == old(freed) + DataOf(old(queued))
    {
      FrontOf(nodes, chain, queued);
      ghost var all := nodes;
      ghost var n := 1;
      var next := nodes[tail].next;
      while next.Some?
        invariant 1 <= n <= |chain| && next == (if n < |chain| then Some(chain[n]) else None)
        invariant tail == chain[0] && chain == old(chain) && queued == old(queued)
        invariant nodes == all - Passed(chain, n)
        invariant freed == old(freed) + DataOf(queued)[..n - 1]
        decreases |chain| - n
      {
        PlaceAt(all, chain, queued, n);
        next := FreeNode(next.value);
        n := n + 1;
      }
      AllPassed(all, chain, queued);
      nodes := nodes - {tail};
    }
  }
}
