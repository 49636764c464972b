// LruHashMap (polaris/cache/lru_map.h): hash chains and a circular list in order of use over the same
// nodes, used by one caller at a time.
module LruHashMap {
  import opened Common

  type Key(==, 0, !new)
  type Value(==, 0, !new)

  // Sequences with one element taken out.
  ghost function Without<T>(s: seq<T>, k: nat): seq<T>
    requires k < |s|
  {
    s[..k] + s[k + 1..]
  }

  class MapNode {
    const hash: nat
    const key: Key
    var value: Value
    var probeNext: MapNode?
    var lruPre: MapNode?
    var lruNext: MapNode?

    constructor (hash: nat, key: Key, value: Value, probeNext: MapNode?)
      ensures this.hash == hash && this.key == key && this.value == value && this.probeNext == probeNext
      ensures lruPre == null && lruNext == null
    {
      this.hash, this.key, this.value, this.probeNext := hash, key, value, probeNext;
      lruPre, lruNext := null, null;
    }
  }

  ghost function Elements(s: seq<MapNode>): set<MapNode> {
    set n | n in s
  }

  // Each node of a row points to the next and back.
  ghost predicate Linked(row: seq<MapNode>)
    reads row`lruPre, row`lruNext
  {
    forall i, j {:trigger row[i], row[j]} :: 0 <= i < |row| && j == i + 1 < |row| ==>
      row[i].lruNext == row[j] && row[j].lruPre == row[i]
  }

  // Nodes at places i and i + 1 of a row point to each other.
  ghost predicate LinkedAt(row: seq<MapNode>, i: nat)
    reads row`lruPre, row`lruNext
  {
    i + 1 < |row| ==> row[i].lruNext == row[i + 1] && row[i + 1].lruPre == row[i]
  }

  // A row stays linked without the node at k if its neighbours are linked and no others are changed.
  lemma WithoutLinked(row: seq<MapNode>, k: nat)
    requires 0 < k < |row| - 1
    requires row[k - 1].lruNext == row[k + 1] && row[k + 1].lruPre == row[k - 1]
    requires forall i: nat {:trigger LinkedAt(row, i)} :: i != k - 1 && i != k ==> LinkedAt(row, i)
    ensures Linked(Without(row, k))
  {
    var rest := Without(row, k);
    forall i, j | 0 <= i < |rest| && j == i + 1 < |rest|
      ensures rest[i].lruNext == rest[j] && rest[j].lruPre == rest[i]
    {
      if i != k - 1 {
        assert LinkedAt(row, if i < k then i else i + 1);
      }
    }
  }

  ghost predicate Distinct<T>(s: seq<T>) {
    forall i, j :: 0 <= i < j < |s| ==> s[i] != s[j]
  }

  lemma WithoutDistinct<T>(s: seq<T>, k: nat)
    requires Distinct(s) && k < |s|
    ensures Distinct(Without(s, k)) && s[k] !in Without(s, k) && forall x :: x in Without(s, k) ==> x in s
  {
    var rest := Without(s, k);
    assert forall i :: 0 <= i < |rest| ==> rest[i] == s[if i < k then i else i + 1];
  }

  // No node occurs twice, except that the first may be the last.
  ghost predicate Circle(row: seq<MapNode>) {
    |row| > 0 && Distinct(row[1..]) && Distinct(row[..|row| - 1])
  }

  lemma CircleApart(row: seq<MapNode>, i: nat, j: nat)
    requires Circle(row) && i < j < |row| - 1
    ensures row[i] != row[j] && row[i + 1] != row[j + 1]
  {
    assert row[1..][i] == row[i + 1] && row[1..][j] == row[j + 1];
  }

  // The four stores that take a node out: its neighbours in the row are linked to each other.
  method SpliceOut(ghost row: seq<MapNode>, ghost k: nat, node: MapNode)
    requires 0 < k < |row| - 1 && row[k] == node && Linked(row) && Circle(row)
    modifies row`lruPre, row`lruNext
    ensures node.lruPre == null && node.lruNext == null && Linked(Without(row, k))
  {
    CircleApart(row, k - 1, k);
    assert row[k - 1] == node.lruPre && row[k + 1] == node.lruNext;
    node.lruPre.lruNext := node.lruNext;
    node.lruNext.lruPre := node.lruPre;
    node.lruPre := null;
    node.lruNext := null;
    forall i: nat | i != k - 1 && i != k
      ensures LinkedAt(row, i)
    {
      if i + 1 < |row| {
        CircleApart(row, if i < k then i else k, if i < k then k else i);
        CircleApart(row, if i < k - 1 then i else k - 1, if i < k - 1 then k - 1 else i);
      }
    }
    WithoutLinked(row, k);
  }

  // LruList: the oldest node comes first; the sentinel closes the circle.
  class LruList {
    const sentinel: MapNode
    ghost var nodes: seq<MapNode>

    ghost function Row(): seq<MapNode>
      reads this
    {
      [sentinel] + nodes + [sentinel]
    }

    ghost predicate Valid()
      reads this, sentinel`lruPre, sentinel`lruNext, nodes`lruPre, nodes`lruNext
    {
      sentinel !in nodes && Distinct(nodes) && Linked(Row())
    }

    constructor (sentinel: MapNode)
      modifies sentinel
      ensures Valid() && nodes == [] && this.sentinel == sentinel
      ensures sentinel.value == old(sentinel.value) && sentinel.probeNext == old(sentinel.probeNext)
    {
      this.sentinel := sentinel;
      nodes := [];
      new;
      sentinel.lruPre := sentinel;
      sentinel.lruNext := sentinel;
    }

    lemma RowIsCircle()
      requires Valid()
      ensures Circle(Row())
    {
      assert Row()[1..] == nodes + [sentinel] && Row()[..|nodes| + 1] == [sentinel] + nodes;
    }

    method Unlink(node: MapNode, ghost k: nat)
      requires Valid() && k < |nodes| && nodes[k] == node
      modifies this`nodes, sentinel`lruPre, sentinel`lruNext, nodes`lruPre, nodes`lruNext
      ensures Valid() && nodes == Without(old(nodes), k)
      ensures node.lruPre == null && node.lruNext == null
    {
      ghost var row := Row();
      RowIsCircle();
      SpliceOut(row, k + 1, node);
      WithoutDistinct(nodes, k);
      assert Without(row, k + 1) == [sentinel] + Without(nodes, k) + [sentinel];
      nodes := Without(nodes, k);
    }

    method AddToEnd(node: MapNode)
      requires Valid() && node != sentinel && node !in nodes
      modifies this`nodes, sentinel`lruPre, sentinel`lruNext, nodes`lruPre, nodes`lruNext, node`lruPre, node`lruNext
      ensures Valid() && nodes == old(nodes) + [node]
    {
      var tail := sentinel;
      ghost var row := Row();
      ghost var n := |nodes|;
      assert row[n + 1] == tail;
      assert row[n] == tail.lruPre;
      node.lruNext := tail;
      node.lruPre := tail.lruPre;
      tail.lruPre.lruNext := node;
      tail.lruPre := node;
      nodes := nodes + [node];
      ghost var now := Row();
      assert now == row[..n + 1] + [node, tail];
      forall i, j | 0 <= i < |now| && j == i + 1 < |now|
        ensures now[i].lruNext == now[j] && now[j].lruPre == now[i]
      {
        assert i <= n ==> now[i] == row[i];
        assert j <= n ==> now[j] == row[j];
      }
    }

    // Does nothing to a node that RemoveHead has taken out before.
    method RemoveNode(node: MapNode, ghost k: nat)
      requires Valid() && (if k < |nodes| then nodes[k] == node else node !in nodes && node.lruPre == null)
      modifies this`nodes, sentinel`lruPre, sentinel`lruNext, nodes`lruPre, nodes`lruNext
      ensures Valid() && nodes == if k < |old(nodes)| then Without(old(nodes), k) else old(nodes)
    {
      assert k < |nodes| ==> Row()[k + 1] == node && Row()[k] == node.lruPre && Row()[k + 2] == node.lruNext;
      if node.lruPre == null || node.lruNext == null {
        return;
      }
      Unlink(node, k);
    }

    method MoveToEnd(node: MapNode, ghost k: nat)
      requires Valid() && k < |nodes| && nodes[k] == node
      modifies this`nodes, sentinel`lruPre, sentinel`lruNext, nodes`lruPre, nodes`lruNext
      ensures Valid() && nodes == Without(old(nodes), k) + [node]
    {
      Unlink(node, k);
      AddToEnd(node);
    }

    method RemoveHead() returns (node: MapNode)
      requires Valid() && nodes != []
      modifies this`nodes, sentinel`lruPre, sentinel`lruNext, nodes`lruPre, nodes`lruNext
      ensures Valid() && node == old(nodes)[0] && nodes == old(nodes)[1..] && node.lruPre == null
    {
      assert Row()[0] == sentinel && Row()[1] == nodes[0];
      node := sentinel.lruNext;
      Unlink(node, 0);
    }
  }

  ghost predicate UniqueKeys(nodes: set<MapNode>) {
    forall m, n :: m in nodes && n in nodes && m.key == n.key ==> m == n
  }

  // A chain of nodes from a head to null.
  ghost predicate Chained(head: MapNode?, chain: seq<MapNode>)
    reads chain`probeNext
  {
    && head == (if chain == [] then null else chain[0])
    && (forall i, j {:trigger chain[i], chain[j]} :: 0 <= i < |chain| && j == i + 1 < |chain| ==> chain[i].probeNext == chain[j])
    && (chain != [] ==> chain[|chain| - 1].probeNext == null)
  }

  // The table of chains; a node is in the chain of its hash.
  class ProbeTable {
    const capacity: nat
    const hashFunc: Key -> nat
    const heads: array<MapNode?>
    ghost var chains: seq<seq<MapNode>>
    ghost var nodes: set<MapNode>

    ghost predicate ChainInv(h: nat)
      requires heads.Length == |chains| && h < |chains|
      reads this, heads, nodes`probeNext
    {
      && (forall n :: n in chains[h] ==> n in nodes && n.hash == h)
      && Distinct(chains[h])
      && Chained(heads[h], chains[h])
    }

    ghost predicate InItsChain(n: MapNode)
      reads this
    {
      n.hash < |chains| && capacity > 0 && n.hash == hashFunc(n.key) % capacity && n in chains[n.hash]
    }

    ghost predicate Valid()
      reads this, heads, nodes`probeNext
    {
      && capacity == heads.Length == |chains| > 0
      && (forall h {:trigger ChainInv(h)} :: 0 <= h < capacity ==> ChainInv(h))
      && (forall n {:trigger InItsChain(n)} :: n in nodes ==> InItsChain(n))
      && UniqueKeys(nodes)
    }

    constructor (capacity: nat, hashFunc: Key -> nat)
      requires capacity > 0
      ensures Valid() && nodes == {} && this.capacity == capacity && this.hashFunc == hashFunc && fresh(heads)
    {
      this.capacity, this.hashFunc := capacity, hashFunc;
      heads := new MapNode?[capacity](_ => null);
      nodes := {};
      chains := seq(capacity, _ => []);
    }

    method Find(key: Key) returns (node: MapNode?)
      requires Valid()
      ensures node == null ==> forall n :: n in nodes ==> n.key != key
      ensures node != null ==> node in nodes && node.key == key
    {
      var hash := hashFunc(key) % capacity;
      assert ChainInv(hash) && forall n :: n in nodes ==> InItsChain(n);
      node := heads[hash];
      ghost var chain := chains[hash];
      ghost var at := 0;
      while node != null && !(node.hash == hash && node.key == key)
        invariant at <= |chain| && node == (if at < |chain| then chain[at] else null)
        invariant forall i :: 0 <= i < at ==> chain[i].key != key
        decreases |chain| - at
      {
        node := node.probeNext;
        at := at + 1;
      }
    }

    method Insert(node: MapNode)
      requires Valid() && node.hash == hashFunc(node.key) % capacity
      requires forall n :: n in nodes ==> n.key != node.key
      modifies this`chains, this`nodes, heads, node`probeNext
      ensures Valid() && nodes == old(nodes) + {node}
    {
      assert hashFunc(node.key) % capacity < |chains|;
      var hash := node.hash;
      ghost var was := chains[hash];
      assert ChainInv(hash);
      node.probeNext := heads[hash];
      heads[hash] := node;
      nodes := nodes + {node};
      chains := chains[hash := [node] + was];
      assert ChainInv(hash) by { assert forall i :: 0 <= i < |was| ==> chains[hash][i + 1] == was[i]; }
      forall h | 0 <= h < capacity && h != hash
        ensures ChainInv(h)
      {
        assert old(ChainInv(h));
      }
      forall n | n in nodes
        ensures InItsChain(n)
      {
        assert n != node ==> old(InItsChain(n));
        assert n == node ==> chains[hash][0] == n;
        assert n != node && n.hash == hash ==> n in was;
      }
    }

    // The chain without the node at place `at`, once the node before it, or the head, points past it.
    method SkipNode(hash: nat, pre: MapNode?, node: MapNode, ghost at: nat)
      requires Valid() && hash < capacity && at < |chains[hash]| && node == chains[hash][at]
      requires pre == if at == 0 then null else chains[hash][at - 1]
      modifies heads, chains[hash]`probeNext
      ensures forall h :: 0 <= h < capacity && h != hash ==> heads[h] == old(heads[h])
      ensures Chained(heads[hash], Without(chains[hash], at))
    {
      assert ChainInv(hash);
      ghost var chain := chains[hash];
      assert node.probeNext == if at + 1 < |chain| then chain[at + 1] else null;
      if pre == null {
        heads[hash] := node.probeNext;
      } else {
        pre.probeNext := node.probeNext;
      }
      ghost var rest := Without(chain, at);
      forall i, j | 0 <= i < |rest| && j == i + 1 < |rest|
        ensures rest[i].probeNext == rest[j]
      {
        assert rest[i] == chain[if i < at then i else i + 1] && rest[j] == chain[if j < at then j else j + 1];
      }
    }

    method UnlinkAt(hash: nat, pre: MapNode?, node: MapNode, ghost at: nat)
      requires Valid() && hash < capacity && at < |chains[hash]| && node == chains[hash][at]
      requires pre == if at == 0 then null else chains[hash][at - 1]
      modifies this`chains, this`nodes, heads, nodes`probeNext
      ensures Valid() && nodes == old(nodes) - {node}
    {
      assert ChainInv(hash);
      ghost var was := chains[hash];
      SkipNode(hash, pre, node, at);
      nodes := nodes - {node};
      chains := chains[hash := Without(was, at)];
      assert ChainInv(hash);
      forall h | 0 <= h < capacity && h != hash
        ensures ChainInv(h)
      {
        assert old(ChainInv(h));
        assert forall n :: n in chains[h] ==> n !in was && n.probeNext == old(n.probeNext);
      }
      forall n | n in nodes
        ensures InItsChain(n)
      {
        assert old(InItsChain(n));
      }
    }

    // Takes the key's node out of its chain.
    method Unlink(key: Key) returns (node: MapNode?)
      requires Valid()
      modifies this`chains, this`nodes, heads, nodes`probeNext
      ensures Valid() && (node == null ==> nodes == old(nodes) && forall n :: n in nodes ==> n.key != key)
      ensures node != null ==> node in old(nodes) && node.key == key && nodes == old(nodes) - {node}
    {
      var hash := hashFunc(key) % capacity;
      assert ChainInv(hash) && forall n :: n in nodes ==> InItsChain(n);
      var pre: MapNode? := null;
      node := heads[hash];
      ghost var chain := chains[hash];
      ghost var at := 0;
      while node != null && !(node.hash == hash && node.key == key)
        invariant at <= |chain| && node == (if at < |chain| then chain[at] else null)
        invariant pre == if at == 0 then null else chain[at - 1]
        invariant forall i :: 0 <= i < at ==> chain[i].key != key
        decreases |chain| - at
      {
        pre := node;
        node := node.probeNext;
        at := at + 1;
      }
      if node != null {
        UnlinkAt(hash, pre, node, at);
      }
    }
  }

  // The cache as a value: entries from the least to the most recently used, the number of direct
  // deletions, and the values handed to the deallocator.
  datatype Cache = Cache(entries: seq<(Key, Value)>, deletes: nat, freed: seq<Value>)

  // Where the key is, or the length.
  ghost function Place(entries: seq<(Key, Value)>, key: Key): (r: nat)
    ensures r <= |entries| && (r < |entries| ==> entries[r].0 == key)
    ensures forall i :: 0 <= i < r ==> entries[i].0 != key
  {
    if entries == [] || entries[0].0 == key then 0 else 1 + Place(entries[1..], key)
  }

  ghost predicate Has(c: Cache, key: Key) {
    Place(c.entries, key) < |c.entries|
  }

  ghost function ValueOf(c: Cache, key: Key): Value
    requires Has(c, key)
  {
    c.entries[Place(c.entries, key)].1
  }

  // The key becomes the most recently used.
  ghost function Touched(c: Cache, key: Key, value: Value): Cache
    requires Has(c, key)
  {
    c.(entries := Without(c.entries, Place(c.entries, key)) + [(key, value)])
  }

  ghost function AfterGet(c: Cache, key: Key): Cache {
    if Has(c, key) then Touched(c, key, ValueOf(c, key)) else c
  }

  ghost function AfterUpdate(lruSize: nat, c: Cache, key: Key, value: Value): Cache {
    if Has(c, key) then Touched(c, key, value).(freed := c.freed + [ValueOf(c, key)])
    else
      var more := c.entries + [(key, value)];
      if |more| + c.deletes <= lruSize then c.(entries := more)
      else c.(entries := more[1..], freed := c.freed + [more[0].1])
  }

  ghost function AfterDelete(c: Cache, key: Key): Cache {
    if Has(c, key) then
      Cache(Without(c.entries, Place(c.entries, key)), c.deletes + 1, c.freed + [ValueOf(c, key)])
    else c
  }

  datatype Op = GetOp(key: Key) | UpdateOp(key: Key, value: Value) | DeleteOp(key: Key)

  ghost function Do(lruSize: nat, c: Cache, op: Op): Cache {
    match op
    case GetOp(key) => AfterGet(c, key)
    case UpdateOp(key, value) => AfterUpdate(lruSize, c, key, value)
    case DeleteOp(key) => AfterDelete(c, key)
  }

  ghost function Run(lruSize: nat, ops: seq<Op>): Cache {
    if ops == [] then Cache([], 0, []) else Do(lruSize, Run(lruSize, ops[..|ops| - 1]), ops[|ops| - 1])
  }

  ghost predicate UniqueEntries(entries: seq<(Key, Value)>) {
    forall i, j :: 0 <= i < j < |entries| ==> entries[i].0 != entries[j].0
  }

  ghost function Values(entries: seq<(Key, Value)>): seq<Value> {
    seq(|entries|, i requires 0 <= i < |entries| => entries[i].1)
  }

  lemma ValuesWithout(entries: seq<(Key, Value)>, k: nat)
    requires k < |entries|
    ensures multiset(Values(entries)) == multiset(Values(Without(entries, k))) + multiset{entries[k].1}
  {
    var v := Values(entries);
    assert v == v[..k] + [v[k]] + v[k + 1..];
    assert Values(Without(entries, k)) == v[..k] + v[k + 1..];
  }

  lemma ValuesAppend(entries: seq<(Key, Value)>, entry: (Key, Value))
    ensures multiset(Values(entries + [entry])) == multiset(Values(entries)) + multiset{entry.1}
  {
    assert Values(entries + [entry]) == Values(entries) + [entry.1];
  }

  ghost function Stored(ops: seq<Op>): multiset<Value> {
    if ops == [] then multiset{}
    else
      var last := ops[|ops| - 1];
      Stored(ops[..|ops| - 1]) + if last.UpdateOp? then multiset{last.value} else multiset{}
  }

  ghost predicate CacheInv(lruSize: nat, c: Cache) {
    UniqueEntries(c.entries) && |c.entries| + c.deletes <= lruSize
  }

  // Every value that was stored is held or has been given to the deallocator, once.
  ghost predicate Balanced(c: Cache, stored: multiset<Value>) {
    multiset(Values(c.entries)) + multiset(c.freed) == stored
  }

  lemma TouchedBalance(c: Cache, key: Key, value: Value)
    requires Has(c, key)
    ensures var rest := multiset(Values(Without(c.entries, Place(c.entries, key))));
      && multiset(Values(Touched(c, key, value).entries)) == rest + multiset{value}
      && multiset(Values(c.entries)) == rest + multiset{ValueOf(c, key)}
  {
    var k := Place(c.entries, key);
    ValuesWithout(c.entries, k);
    ValuesAppend(Without(c.entries, k), (key, value));
  }

  lemma GetBalance(c: Cache, key: Key, stored: multiset<Value>)
    requires Balanced(c, stored)
    ensures Balanced(AfterGet(c, key), stored)
  {
    if Has(c, key) {
      TouchedBalance(c, key, ValueOf(c, key));
    }
  }

  // Taking x out of what is held and freeing it, after storing v.
  lemma Exchange(held: multiset<Value>, freed: multiset<Value>, v: Value, x: Value, held': multiset<Value>, freed': multiset<Value>)
    requires held + multiset{v} == held' + multiset{x} && freed' == freed + multiset{x}
    ensures held' + freed' == held + freed + multiset{v}
  {
    assert held' + freed' == (held' + multiset{x}) + freed;
    assert (held + multiset{v}) + freed == held + freed + multiset{v};
  }

  lemma UpdateBalance(lruSize: nat, c: Cache, key: Key, value: Value, stored: multiset<Value>)
    requires Balanced(c, stored)
    ensures Balanced(AfterUpdate(lruSize, c, key, value), stored + multiset{value})
  {
    var held, freed := multiset(Values(c.entries)), multiset(c.freed);
    if Has(c, key) {
      TouchedBalance(c, key, value);
      var x := ValueOf(c, key);
      Exchange(held, freed, value, x, multiset(Values(Touched(c, key, value).entries)), multiset(c.freed + [x]));
    } else {
      var more := c.entries + [(key, value)];
      ValuesAppend(c.entries, (key, value));
      ValuesWithout(more, 0);
      assert Without(more, 0) == more[1..];
      Exchange(held, freed, value, more[0].1, multiset(Values(more[1..])), multiset(c.freed + [more[0].1]));
    }
  }

  lemma DeleteBalance(c: Cache, key: Key, stored: multiset<Value>)
    requires Balanced(c, stored)
    ensures Balanced(AfterDelete(c, key), stored)
  {
    if Has(c, key) {
      ValuesWithout(c.entries, Place(c.entries, key));
    }
  }

  ghost function Newest<T>(all: seq<T>, n: nat): seq<T> {
    all[if |all| <= n then 0 else |all| - n..]
  }

  ghost function Used(all: seq<(Key, Value)>, key: Key, value: Value): seq<(Key, Value)> {
    var k := Place(all, key);
    (if k < |all| then Without(all, k) else all) + [(key, value)]
  }

  lemma UniqueWithout(entries: seq<(Key, Value)>, k: nat)
    requires UniqueEntries(entries) && k < |entries|
    ensures UniqueEntries(Without(entries, k))
    ensures forall e :: e in Without(entries, k) ==> e.0 != entries[k].0
  {
    var rest := Without(entries, k);
    assert forall i :: 0 <= i < |rest| ==> rest[i] == entries[if i < k then i else i + 1];
  }

  lemma UniqueAppend(entries: seq<(Key, Value)>, key: Key, value: Value)
    requires UniqueEntries(entries) && forall e :: e in entries ==> e.0 != key
    ensures UniqueEntries(entries + [(key, value)])
  {
  }

  lemma UsedUnique(all: seq<(Key, Value)>, key: Key, value: Value)
    requires UniqueEntries(all)
    ensures UniqueEntries(Used(all, key, value))
  {
    var k := Place(all, key);
    if k < |all| {
      UniqueWithout(all, k);
      UniqueAppend(Without(all, k), key, value);
    } else {
      UniqueAppend(all, key, value);
    }
  }

  lemma DoKeeps(lruSize: nat, c: Cache, op: Op)
    requires CacheInv(lruSize, c)
    ensures CacheInv(lruSize, Do(lruSize, c, op))
  {
    var k := Place(c.entries, op.key);
    match op
    case GetOp(key) =>
      if Has(c, key) {
        UsedUnique(c.entries, key, ValueOf(c, key));
      }
    case UpdateOp(key, value) =>
      UsedUnique(c.entries, key, value);
    case DeleteOp(key) =>
      if Has(c, key) {
        UniqueWithout(c.entries, k);
      }
  }

  // Over any run: distinct keys, at most lruSize minus the direct deletions of them, and no value lost
  // or given back twice.
  lemma {:induction false} RunKeeps(lruSize: nat, ops: seq<Op>)
    ensures CacheInv(lruSize, Run(lruSize, ops)) && Balanced(Run(lruSize, ops), Stored(ops))
  {
    if ops != [] {
      var before, last := ops[..|ops| - 1], ops[|ops| - 1];
      RunKeeps(lruSize, before);
      var c := Run(lruSize, before);
      DoKeeps(lruSize, c, last);
      match last
      case GetOp(key) => GetBalance(c, key, Stored(before));
      case UpdateOp(key, value) => UpdateBalance(lruSize, c, key, value, Stored(before));
      case DeleteOp(key) => DeleteBalance(c, key, Stored(before));
    }
  }

  // The reference: a list of everything stored and not deleted, the last used at the end, and the number
  // of deletions that found their key.  Only the newest entries can be found, and each such deletion
  // takes one of the lruSize places away.
  datatype Reference = Reference(all: seq<(Key, Value)>, deletes: nat)

  ghost function Room(lruSize: nat, r: Reference): nat {
    if r.deletes <= lruSize then lruSize - r.deletes else 0
  }

  ghost predicate FoundAt(lruSize: nat, r: Reference, key: Key) {
    |r.all| - Room(lruSize, r) <= Place(r.all, key) < |r.all|
  }

  ghost function AfterUse(lruSize: nat, r: Reference, op: Op): Reference {
    var k := Place(r.all, op.key);
    match op
    case GetOp(key) => if FoundAt(lruSize, r, key) then r.(all := Used(r.all, key, r.all[k].1)) else r
    case UpdateOp(key, value) => r.(all := Used(r.all, key, value))
    case DeleteOp(key) => if FoundAt(lruSize, r, key) then Reference(Without(r.all, k), r.deletes + 1) else r
  }

  ghost function Recency(lruSize: nat, ops: seq<Op>): Reference {
    if ops == [] then Reference([], 0) else AfterUse(lruSize, Recency(lruSize, ops[..|ops| - 1]), ops[|ops| - 1])
  }

  lemma PlaceInNewest(all: seq<(Key, Value)>, n: nat, key: Key)
    requires UniqueEntries(all)
    ensures var from := |all| - |Newest(all, n)|;
      Place(Newest(all, n), key) == if from <= Place(all, key) then Place(all, key) - from else |Newest(all, n)|
  {
    var newest := Newest(all, n);
    var from := |all| - |newest|;
    var k, p := Place(all, key), Place(newest, key);
    assert p < |newest| ==> all[from + p].0 == key;
    assert from <= k < |all| ==> newest[k - from].0 == key;
  }

  lemma NewestMoved<T>(all: seq<T>, n: nat, k: nat, e: T)
    requires |all| - |Newest(all, n)| <= k < |all|
    ensures Newest(Without(all, k) + [e], n) == Without(Newest(all, n), k - (|all| - |Newest(all, n)|)) + [e]
  {
  }

  lemma NewestRevived<T>(all: seq<T>, n: nat, k: nat, e: T)
    requires 0 < n && k < |all| - |Newest(all, n)|
    ensures Newest(Without(all, k) + [e], n) == Newest(all, n)[1..] + [e]
  {
  }

  // Using an entry that can be found.
  lemma NewestAfterHit(all: seq<(Key, Value)>, n: nat, key: Key, value: Value)
    requires UniqueEntries(all) && Place(Newest(all, n), key) < |Newest(all, n)|
    ensures Newest(Used(all, key, value), n) == Without(Newest(all, n), Place(Newest(all, n), key)) + [(key, value)]
  {
    PlaceInNewest(all, n, key);
    NewestMoved(all, n, Place(all, key), (key, value));
  }

  // Using an entry that is new or has been pushed out.
  lemma NewestAfterMiss(all: seq<(Key, Value)>, n: nat, key: Key, value: Value)
    requires UniqueEntries(all) && Place(Newest(all, n), key) == |Newest(all, n)|
    ensures var more := Newest(all, n) + [(key, value)];
      Newest(Used(all, key, value), n) == if |more| <= n then more else more[1..]
  {
    PlaceInNewest(all, n, key);
    if n > 0 && Place(all, key) < |all| {
      NewestRevived(all, n, Place(all, key), (key, value));
    }
  }

  // Deleting an entry that can be found, and its place with it.
  lemma NewestAfterDelete<T>(all: seq<T>, n: nat, k: nat)
    requires |all| - |Newest(all, n)| <= k < |all| && n > 0
    ensures Newest(Without(all, k), n - 1) == Without(Newest(all, n), k - (|all| - |Newest(all, n)|))
  {
  }

  ghost predicate IsNewest(lruSize: nat, c: Cache, r: Reference) {
    && UniqueEntries(r.all)
    && c.deletes == r.deletes <= lruSize
    && c.entries == Newest(r.all, lruSize - r.deletes)
  }

  // An entry is found in the cache exactly if it is found in the reference.
  lemma FoundInBoth(lruSize: nat, c: Cache, r: Reference, key: Key)
    requires IsNewest(lruSize, c, r)
    ensures Has(c, key) <==> FoundAt(lruSize, r, key)
    ensures Has(c, key) ==>
      && Place(c.entries, key) == Place(r.all, key) - (|r.all| - |c.entries|)
      && ValueOf(c, key) == r.all[Place(r.all, key)].1
  {
    PlaceInNewest(r.all, lruSize - r.deletes, key);
  }

  lemma GetIsLru(lruSize: nat, c: Cache, r: Reference, key: Key)
    requires IsNewest(lruSize, c, r)
    ensures IsNewest(lruSize, AfterGet(c, key), AfterUse(lruSize, r, GetOp(key)))
  {
    FoundInBoth(lruSize, c, r, key);
    if Has(c, key) {
      UsedUnique(r.all, key, ValueOf(c, key));
      NewestAfterHit(r.all, lruSize - r.deletes, key, ValueOf(c, key));
    }
  }

  lemma UpdateIsLru(lruSize: nat, c: Cache, r: Reference, key: Key, value: Value)
    requires IsNewest(lruSize, c, r)
    ensures IsNewest(lruSize, AfterUpdate(lruSize, c, key, value), AfterUse(lruSize, r, UpdateOp(key, value)))
  {
    UsedUnique(r.all, key, value);
    if Has(c, key) {
      NewestAfterHit(r.all, lruSize - r.deletes, key, value);
    } else {
      NewestAfterMiss(r.all, lruSize - r.deletes, key, value);
    }
  }

  lemma DeletedIsNewest(lruSize: nat, c: Cache, r: Reference, i: nat, k: nat)
    requires IsNewest(lruSize, c, r) && i < |c.entries| && i + |r.all| == k + |c.entries|
    ensures UniqueEntries(Without(r.all, k)) && r.deletes < lruSize
    ensures Without(c.entries, i) == Newest(Without(r.all, k), lruSize - (r.deletes + 1))
  {
    UniqueWithout(r.all, k);
    NewestAfterDelete(r.all, lruSize - r.deletes, k);
  }

  lemma DeleteIsLru(lruSize: nat, c: Cache, r: Reference, key: Key)
    requires IsNewest(lruSize, c, r)
    ensures IsNewest(lruSize, AfterDelete(c, key), AfterUse(lruSize, r, DeleteOp(key)))
  {
    FoundInBoth(lruSize, c, r, key);
    if Has(c, key) {
      DeletedIsNewest(lruSize, c, r, Place(c.entries, key), Place(r.all, key));
    }
  }

  // One operation on the cache and on the reference.
  lemma StepIsLru(lruSize: nat, c: Cache, r: Reference, op: Op)
    requires IsNewest(lruSize, c, r)
    ensures IsNewest(lruSize, Do(lruSize, c, op), AfterUse(lruSize, r, op))
  {
    match op
    case GetOp(key) => GetIsLru(lruSize, c, r, key);
    case UpdateOp(key, value) => UpdateIsLru(lruSize, c, r, key, value);
    case DeleteOp(key) => DeleteIsLru(lruSize, c, r, key);
  }

  // Over any run the cache is exactly the most recently used entries, in order, as many as the size less
  // the deletions that found their key.
  lemma {:induction false} IsLruCache(lruSize: nat, ops: seq<Op>)
    ensures var c, r := Run(lruSize, ops), Recency(lruSize, ops);
      && UniqueEntries(r.all) && c.deletes == r.deletes <= lruSize
      && c.entries == Newest(r.all, lruSize - r.deletes)
  {
    if ops != [] {
      var before, last := ops[..|ops| - 1], ops[|ops| - 1];
      IsLruCache(lruSize, before);
      StepIsLru(lruSize, Run(lruSize, before), Recency(lruSize, before), last);
    }
  }

  // The entries are those of the nodes, in the same order.
  ghost predicate Mirrors(entries: seq<(Key, Value)>, nodes: seq<MapNode>)
    reads nodes`value
  {
    |entries| == |nodes| && forall i :: 0 <= i < |nodes| ==> entries[i] == (nodes[i].key, nodes[i].value)
  }

  lemma MirrorsWithout(entries: seq<(Key, Value)>, nodes: seq<MapNode>, k: nat)
    requires Mirrors(entries, nodes) && k < |nodes|
    ensures Mirrors(Without(entries, k), Without(nodes, k))
  {
    var rest := Without(nodes, k);
    forall i | 0 <= i < |rest|
      ensures Without(entries, k)[i] == (rest[i].key, rest[i].value)
    {
      assert rest[i] == nodes[if i < k then i else i + 1];
    }
  }

  lemma MirrorsAppend(entries: seq<(Key, Value)>, nodes: seq<MapNode>, node: MapNode)
    requires Mirrors(entries, nodes)
    ensures Mirrors(entries + [(node.key, node.value)], nodes + [node])
    ensures Elements(nodes + [node]) == Elements(nodes) + {node}
  {
  }

  lemma OldestGone(entries: seq<(Key, Value)>, nodes: seq<MapNode>)
    requires Mirrors(entries, nodes) && nodes != [] && Distinct(nodes)
    ensures Mirrors(entries[1..], Without(nodes, 0))
    ensures Elements(Without(nodes, 0)) == Elements(nodes) - {nodes[0]} && |Without(nodes, 0)| == |nodes| - 1
  {
    ElementsWithout(nodes, 0);
    MirrorsWithout(entries, nodes, 0);
    assert Without(entries, 0) == entries[1..];
  }

  lemma ElementsWithout(nodes: seq<MapNode>, k: nat)
    requires k < |nodes| && Distinct(nodes)
    ensures Elements(Without(nodes, k)) == Elements(nodes) - {nodes[k]} && |Without(nodes, k)| == |nodes| - 1
  {
    var rest := Without(nodes, k);
    forall n | n in nodes && n != nodes[k]
      ensures n in rest
    {
      var i :| 0 <= i < |nodes| && nodes[i] == n;
      assert rest[if i < k then i else i - 1] == n;
    }
  }

  lemma MirrorsPlace(entries: seq<(Key, Value)>, nodes: seq<MapNode>, k: nat)
    requires Mirrors(entries, nodes) && k < |nodes| && UniqueKeys(Elements(nodes)) && Distinct(nodes)
    ensures Place(entries, nodes[k].key) == k
  {
    var p := Place(entries, nodes[k].key);
    assert entries[k].0 == nodes[k].key;
    assert entries[p].0 == nodes[p].key;
  }

  lemma MirrorsAbsent(entries: seq<(Key, Value)>, nodes: seq<MapNode>, key: Key)
    requires Mirrors(entries, nodes) && forall n :: n in nodes ==> n.key != key
    ensures Place(entries, key) == |entries|
  {
    var p := Place(entries, key);
    if p < |entries| {
      assert false;
    }
  }

  lemma DeletedAt(c: Cache, nodes: seq<MapNode>, k: nat, key: Key)
    requires Mirrors(c.entries, nodes) && Distinct(nodes) && k < |nodes| && k == Place(c.entries, key)
    ensures var after := AfterDelete(c, key);
      && Mirrors(after.entries, Without(nodes, k)) && after.deletes == c.deletes + 1
      && after.freed == c.freed + [nodes[k].value]
    ensures Elements(Without(nodes, k)) == Elements(nodes) - {nodes[k]} && |Without(nodes, k)| == |nodes| - 1
  {
    ElementsWithout(nodes, k);
    MirrorsWithout(c.entries, nodes, k);
  }

  class LruHashMap {
    const lruSize: nat
    const table: ProbeTable
    const lru: LruList
    var size: nat
    var freed: seq<Value>
    var taken: seq<Value>    // the references taken for callers, by allocator_
    ghost var cache: Cache

    // Chains and list hold the same nodes; no two have the same key.
    ghost predicate Consistent()
      reads this, table, table.heads, table.nodes`probeNext
      reads lru, lru.sentinel`lruPre, lru.sentinel`lruNext, lru.nodes`lruPre, lru.nodes`lruNext, lru.nodes`value
    {
      && table.Valid() && lru.Valid() && lru.sentinel !in table.nodes
      && table.nodes == Elements(lru.nodes)
      && Mirrors(cache.entries, lru.nodes)
      && freed == cache.freed
      && size == |lru.nodes| + cache.deletes
    }

    ghost predicate Valid()
      reads this, table, table.heads, table.nodes`probeNext
      reads lru, lru.sentinel`lruPre, lru.sentinel`lruNext, lru.nodes`lruPre, lru.nodes`lruNext, lru.nodes`value
    {
      Consistent() && size <= lruSize
    }

    // A size of 0 would make the source divide by 0.
    constructor (lruSize: nat, hashFunc: Key -> nat)
      requires lruSize > 0
      ensures Valid() && cache == Cache([], 0, []) && taken == [] && this.lruSize == lruSize
      ensures fresh(table) && fresh(table.heads) && fresh(lru) && fresh(lru.sentinel)
    {
      var key: Key := *;
      var value: Value := *;
      var sentinel := new MapNode(0, key, value, null);
      this.lruSize, size, freed, taken, cache := lruSize, 0, [], [], Cache([], 0, []);
      table := new ProbeTable(lruSize + lruSize / 4, hashFunc);
      lru := new LruList(sentinel);
    }

    ghost predicate Found(node: MapNode?, key: Key, k: nat)
      reads this, lru
    {
      if node == null then k == |lru.nodes| && forall n :: n in lru.nodes ==> n.key != key
      else k < |lru.nodes| && lru.nodes[k] == node && node.key == key
    }

    lemma Locate(key: Key) returns (k: nat)
      requires Consistent()
      ensures k == Place(cache.entries, key) && k <= |lru.nodes|
      ensures Found(if k < |lru.nodes| then lru.nodes[k] else null, key, k)
    {
      if n :| n in lru.nodes && n.key == key {
        k :| 0 <= k < |lru.nodes| && lru.nodes[k] == n;
        MirrorsPlace(cache.entries, lru.nodes, k);
      } else {
        k := |lru.nodes|;
        MirrorsAbsent(cache.entries, lru.nodes, key);
      }
    }

    method Find(key: Key) returns (node: MapNode?, ghost k: nat)
      requires Valid()
      ensures Found(node, key, k) && k == Place(cache.entries, key)
    {
      node := table.Find(key);
      k := Locate(key);
    }

    method Touch(node: MapNode, ghost k: nat)
      requires Valid() && Found(node, node.key, k)
      modifies this`cache, lru`nodes, lru.sentinel`lruPre, lru.sentinel`lruNext, lru.nodes`lruPre, lru.nodes`lruNext
      ensures Valid()
      ensures cache == old(cache).(entries := Without(old(cache).entries, k) + [old(cache).entries[k]])
    {
      ghost var rest := Without(lru.nodes, k);
      ElementsWithout(lru.nodes, k);
      MirrorsWithout(cache.entries, lru.nodes, k);
      MirrorsAppend(Without(cache.entries, k), rest, node);
      lru.MoveToEnd(node, k);
      assert table.Valid();
      assert lru.nodes == rest + [node];
      cache := cache.(entries := Without(cache.entries, k) + [cache.entries[k]]);
    }

    method Get(key: Key) returns (r: Option<Value>)
      requires Valid()
      modifies this`cache, this`taken
      modifies lru`nodes, lru.sentinel`lruPre, lru.sentinel`lruNext, lru.nodes`lruPre, lru.nodes`lruNext
      ensures Valid() && cache == AfterGet(old(cache), key)
      ensures r == if Has(old(cache), key) then Some(ValueOf(old(cache), key)) else None
      ensures taken == old(taken) + if r.Some? then [r.value] else []
    {
      var node, k := Find(key);
      if node == null {
        return None;
      }
      Touch(node, k);
      taken := taken + [node.value];
      r := Some(node.value);
    }

    // Update where the key is present.
    method Replace(node: MapNode, value: Value, ghost k: nat)
      requires Valid() && Found(node, node.key, k)
      modifies this`cache, this`freed, node`value
      modifies lru`nodes, lru.sentinel`lruPre, lru.sentinel`lruNext, lru.nodes`lruPre, lru.nodes`lruNext
      ensures Valid()
      ensures cache == Cache(Without(old(cache).entries, k) + [(node.key, value)], old(cache).deletes,
                             old(cache).freed + [old(cache).entries[k].1])
    {
      freed := freed + [node.value];
      node.value := value;
      cache := cache.(entries := cache.entries[k := (node.key, value)], freed := freed);
      assert Without(cache.entries, k) == Without(old(cache).entries, k);
      assert table.Valid() && lru.Valid();
      Touch(node, k);
    }

    method LinkNew(key: Key, value: Value) returns (node: MapNode)
      requires table.Valid() && lru.Valid() && forall n :: n in table.nodes ==> n.key != key
      modifies table`chains, table`nodes, table.heads
      modifies lru`nodes, lru.sentinel`lruPre, lru.sentinel`lruNext, lru.nodes`lruPre, lru.nodes`lruNext
      ensures table.Valid() && lru.Valid() && fresh(node) && node.key == key && node.value == value
      ensures table.nodes == old(table.nodes) + {node} && lru.nodes == old(lru.nodes) + [node]
    {
      var hash := table.hashFunc(key) % table.capacity;
      node := new MapNode(hash, key, value, table.heads[hash]);
      table.Insert(node);
      assert lru.Valid();
      lru.AddToEnd(node);
      assert table.Valid();
    }

    // Update where the key is absent, before anything is evicted.
    method InsertNew(key: Key, value: Value)
      requires Consistent() && forall n :: n in table.nodes ==> n.key != key
      modifies this`cache, this`size, table`chains, table`nodes, table.heads
      modifies lru`nodes, lru.sentinel`lruPre, lru.sentinel`lruNext, lru.nodes`lruPre, lru.nodes`lruNext
      ensures Consistent() && cache == old(cache).(entries := old(cache).entries + [(key, value)])
      ensures fresh(table.nodes - old(table.nodes))
    {
      var node := LinkNew(key, value);
      MirrorsAppend(cache.entries, old(lru.nodes), node);
      cache := cache.(entries := cache.entries + [(key, value)]);
      size := size + 1;
    }

    // The body of Delete.  Evict calls it for a node that RemoveHead has taken out of the list before.
    method RemoveKey(key: Key, ghost node: MapNode?, ghost k: nat) returns (ok: bool)
      requires table.Valid() && lru.Valid() && lru.sentinel !in table.nodes
      requires if node == null then forall n :: n in table.nodes ==> n.key != key
               else node in table.nodes && node.key == key
      requires node != null ==>
               if k < |lru.nodes| then lru.nodes[k] == node else node !in lru.nodes && node.lruPre == null
      modifies this`freed, table`chains, table`nodes, table.heads, table.nodes`probeNext
      modifies lru`nodes, lru.sentinel`lruPre, lru.sentinel`lruNext, lru.nodes`lruPre, lru.nodes`lruNext
      ensures table.Valid() && lru.Valid() && ok == (node != null)
      ensures ok ==>
        && table.nodes == old(table.nodes) - {node}
        && lru.nodes == (if k < |old(lru.nodes)| then Without(old(lru.nodes), k) else old(lru.nodes))
        && freed == old(freed) + [node.value]
      ensures !ok ==> table.nodes == old(table.nodes) && lru.nodes == old(lru.nodes) && freed == old(freed)
    {
      var found := table.Unlink(key);
      assert lru.Valid();
      if found == null {
        return false;
      }
      lru.RemoveNode(found, k);
      assert table.Valid();
      freed := freed + [found.value];
      return true;
    }

    method RemoveOldest()
      requires Consistent() && lru.nodes != []
      modifies this`size, this`freed, table`chains, table`nodes, table.heads, table.nodes`probeNext
      modifies lru`nodes, lru.sentinel`lruPre, lru.sentinel`lruNext, lru.nodes`lruPre, lru.nodes`lruNext
      ensures table.Valid() && lru.Valid() && size == old(size) - 1
      ensures lru.nodes == Without(old(lru.nodes), 0) && table.nodes == old(table.nodes) - {old(lru.nodes)[0]}
      ensures freed == old(freed) + [old(lru.nodes)[0].value]
    {
      var oldest := lru.RemoveHead();
      assert table.Valid();
      var ok := RemoveKey(oldest.key, oldest, |lru.nodes|);
      if ok {
        size := size - 1;
      }
    }

    method Evict()
      requires Consistent() && lru.nodes != []
      modifies this`cache, this`size, this`freed, table`chains, table`nodes, table.heads, table.nodes`probeNext
      modifies lru`nodes, lru.sentinel`lruPre, lru.sentinel`lruNext, lru.nodes`lruPre, lru.nodes`lruNext
      ensures Consistent() && table.nodes <= old(table.nodes)
      ensures cache == old(cache).(entries := old(cache).entries[1..], freed := old(cache).freed + [old(cache).entries[0].1])
    {
      OldestGone(cache.entries, lru.nodes);
      RemoveOldest();
      cache := cache.(entries := cache.entries[1..], freed := freed);
    }

    // One eviction is always enough when calls do not overlap, so the second check never fires.
    method Update(key: Key, value: Value)
      requires Valid()
      modifies this`cache, this`size, this`freed, table`chains, table`nodes, table.heads, table.nodes`probeNext
      modifies lru`nodes, lru.sentinel`lruPre, lru.sentinel`lruNext, lru.nodes`lruPre, lru.nodes`lruNext, lru.nodes`value
      ensures Valid() && cache == AfterUpdate(lruSize, old(cache), key, value)
      ensures fresh(table.nodes - old(table.nodes))
    {
      var node, k := Find(key);
      if node != null {
        Replace(node, value, k);
        return;
      }
      InsertNew(key, value);
      if size > lruSize {
        Evict();
      }
      if size > lruSize {
        assert false;
      }
    }

    // A direct deletion leaves size_ as it is.
    method Delete(key: Key) returns (ok: bool)
      requires Valid()
      modifies this`cache, this`freed, table`chains, table`nodes, table.heads, table.nodes`probeNext
      modifies lru`nodes, lru.sentinel`lruPre, lru.sentinel`lruNext, lru.nodes`lruPre, lru.nodes`lruNext
      ensures Valid() && cache == AfterDelete(old(cache), key) && ok == Has(old(cache), key)
      ensures table.nodes <= old(table.nodes)
    {
      ghost var k := Locate(key);
      ghost var found: MapNode? := if k < |lru.nodes| then lru.nodes[k] else null;
      ghost var after := AfterDelete(cache, key);
      if found != null {
        DeletedAt(cache, lru.nodes, k, key);
      }
      ok := RemoveKey(key, found, k);
      assert lru.sentinel !in table.nodes && table.nodes == Elements(lru.nodes);
      assert Mirrors(after.entries, lru.nodes) && freed == after.freed;
      cache := after;
    }
  }
}
