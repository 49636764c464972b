// Slice and Buffer (polaris/network/buffer.h, polaris/network/buffer.cpp): a deque of byte blocks
// with drain offsets and a reserve/commit protocol, which must behave like one byte sequence.
module Buffer {
  import opened Common

  newtype byte = x: int | 0 <= x < 256

  const SLICE_OVERHEAD: nat := 32   // sizeof(Slice)
  const PAGE_SIZE: nat := 4096
  const MAX_READ_SLICES: nat := 2
  const MAX_WRITE_SLICES: nat := 16

  // ---------------------------------------------------------------------------------------------
  // Concatenation of parts
  // ---------------------------------------------------------------------------------------------

  function Flat(parts: seq<seq<byte>>): seq<byte> {
    if parts == [] then [] else parts[0] + Flat(parts[1..])
  }

  lemma {:induction false} FlatConcat(a: seq<seq<byte>>, b: seq<seq<byte>>)
    ensures Flat(a + b) == Flat(a) + Flat(b)
  {
    if a == [] {
      assert a + b == b;
    } else {
      assert (a + b)[1..] == a[1..] + b;
      FlatConcat(a[1..], b);
    }
  }

  lemma FlatSingle(x: seq<byte>)
    ensures Flat([x]) == x
  {
    assert [x][1..] == [];
  }

  lemma {:induction false} FlatEmpty(parts: seq<seq<byte>>)
    requires forall i :: 0 <= i < |parts| ==> parts[i] == []
    ensures Flat(parts) == []
  {
    if parts != [] {
      FlatEmpty(parts[1..]);
    }
  }

  lemma TakeAll(parts: seq<seq<byte>>)
    ensures parts[..|parts|] == parts
  {
  }

  lemma AppendAssociates(a: seq<byte>, b: seq<byte>, c: seq<byte>)
    ensures (a + b) + c == a + (b + c)
  {
  }

  lemma FlatPrefix(parts: seq<seq<byte>>, k: nat)
    requires k < |parts|
    ensures Flat(parts[..k + 1]) == Flat(parts[..k]) + parts[k]
  {
    assert parts[..k + 1] == parts[..k] + [parts[k]];
    FlatConcat(parts[..k], [parts[k]]);
    FlatSingle(parts[k]);
  }

  lemma ChunkOn(was: seq<byte>, chunks: seq<seq<byte>>, k: nat)
    requires k < |chunks|
    ensures (was + Flat(chunks[..k])) + chunks[k] == was + Flat(chunks[..k + 1])
  {
    FlatPrefix(chunks, k);
    AppendAssociates(was, Flat(chunks[..k]), chunks[k]);
  }

  function NonEmpty(parts: seq<seq<byte>>): nat {
    if parts == [] then 0
    else NonEmpty(parts[..|parts| - 1]) + (if parts[|parts| - 1] == [] then 0 else 1)
  }

  lemma NonEmptyPrefix(parts: seq<seq<byte>>, i: nat)
    requires i < |parts|
    ensures NonEmpty(parts[..i + 1]) == NonEmpty(parts[..i]) + (if parts[i] == [] then 0 else 1)
  {
    assert parts[..i + 1][..i] == parts[..i];
  }

  lemma FlatSnoc(parts: seq<seq<byte>>, x: seq<byte>)
    ensures Flat(parts + [x]) == Flat(parts) + x
  {
    FlatConcat(parts, [x]);
    FlatSingle(x);
  }

  // Changing one part changes the content at that place only.
  lemma FlatUpdate(parts: seq<seq<byte>>, i: nat, x: seq<byte>)
    requires i < |parts|
    ensures Flat(parts[i := x]) == Flat(parts[..i]) + x + Flat(parts[i + 1..])
    ensures Flat(parts) == Flat(parts[..i]) + parts[i] + Flat(parts[i + 1..])
  {
    FlatSplit(parts, i);
    FlatSplit(parts[i := x], i);
    assert parts[i := x][..i] == parts[..i] && parts[i := x][i + 1..] == parts[i + 1..];
  }

  lemma FlatSplit(parts: seq<seq<byte>>, i: nat)
    requires i < |parts|
    ensures Flat(parts) == Flat(parts[..i]) + parts[i] + Flat(parts[i + 1..])
  {
    var head, tail := parts[..i], parts[i..];
    assert parts == head + tail;
    FlatConcat(head, tail);
    assert tail[0] == parts[i] && tail[1..] == parts[i + 1..];
  }

  lemma FlatFront(parts: seq<seq<byte>>, n: nat)
    requires parts != [] && n <= |parts[0]|
    ensures n <= |Flat(parts)| && Flat(parts)[..n] == parts[0][..n]
  {
  }

  // Appending to the last non-empty part appends to the content.
  lemma FlatAppend(parts: seq<seq<byte>>, i: nat, x: seq<byte>)
    requires i < |parts| && (forall j :: i < j < |parts| ==> parts[j] == [])
    ensures Flat(parts[i := parts[i] + x]) == Flat(parts) + x
  {
    FlatUpdate(parts, i, parts[i] + x);
    FlatEmpty(parts[i + 1..]);
  }

  // ---------------------------------------------------------------------------------------------
  // Slice
  // ---------------------------------------------------------------------------------------------

  // A piece of memory: `offset` and `len` inside the block `base`, or the null piece.
  datatype RawSlice = Null | Raw(base: array<byte>, offset: nat, len: nat)

  function LengthOf(r: RawSlice): nat {
    if r.Null? then 0 else r.len
  }

  // The capacity allocated for n bytes: whole pages, less the header.
  function SliceSize(n: nat): (r: nat)
    ensures r >= n && r > 0
    ensures (r + SLICE_OVERHEAD) % PAGE_SIZE == 0
    ensures r < n + PAGE_SIZE
  {
    var pages := (SLICE_OVERHEAD + n + PAGE_SIZE - 1) / PAGE_SIZE;
    pages * PAGE_SIZE - SLICE_OVERHEAD
  }

  function Total(raws: seq<RawSlice>): nat {
    if raws == [] then 0 else LengthOf(raws[0]) + Total(raws[1..])
  }

  lemma {:induction false} TotalAppend(raws: seq<RawSlice>, r: RawSlice)
    ensures Total(raws + [r]) == Total(raws) + LengthOf(r)
  {
    if raws == [] {
      assert [r][1..] == [];
    } else {
      assert (raws + [r])[1..] == raws[1..] + [r];
      TotalAppend(raws[1..], r);
    }
  }

  // How readv spreads `data` over the pieces: each is filled before the next.
  function Chunks(raws: seq<RawSlice>, data: seq<byte>): (r: seq<seq<byte>>)
    ensures |r| == |raws|
  {
    if raws == [] then []
    else
      var n := Min(LengthOf(raws[0]), |data|);
      [data[..n]] + Chunks(raws[1..], data[n..])
  }

  lemma {:induction false} ChunksCover(raws: seq<RawSlice>, data: seq<byte>)
    requires |data| <= Total(raws)
    ensures Flat(Chunks(raws, data)) == data
  {
    if raws != [] {
      var n := Min(LengthOf(raws[0]), |data|);
      ChunksCover(raws[1..], data[n..]);
      assert Chunks(raws, data)[1..] == Chunks(raws[1..], data[n..]);
      assert data == data[..n] + data[n..];
    }
  }

  // The pieces cut down to the first n bytes.
  function Shortened(raws: seq<RawSlice>, n: nat): (r: seq<RawSlice>)
    ensures |r| == |raws|
  {
    if raws == [] then []
    else
      var r := raws[0];
      var m := Min(LengthOf(r), n);
      [if r.Null? then r else r.(len := m)] + Shortened(raws[1..], n - m)
  }

  // A piece is cut down to exactly the chunk that readv puts there.
  lemma {:induction false} ShortenedAt(raws: seq<RawSlice>, data: seq<byte>, j: nat)
    requires j < |raws|
    ensures |Chunks(raws, data)[j]| <= LengthOf(raws[j])
    ensures Shortened(raws, |data|)[j] == if raws[j].Null? then Null else raws[j].(len := |Chunks(raws, data)[j]|)
  {
    if j > 0 {
      var n := Min(LengthOf(raws[0]), |data|);
      ShortenedAt(raws[1..], data[n..], j - 1);
      assert raws[1..][j - 1] == raws[j];
      assert Chunks(raws, data)[j] == Chunks(raws[1..], data[n..])[j - 1];
      assert Shortened(raws, |data|)[j] == Shortened(raws[1..], |data[n..]|)[j - 1];
    }
  }

  // The loop of Read that shortens the pieces to the bytes received.
  method Shorten(raws: seq<RawSlice>, bytes: nat) returns (cut: seq<RawSlice>)
    ensures cut == Shortened(raws, bytes)
  {
    cut := [];
    var left := bytes;
    var i := 0;
    while i < |raws|
      invariant i <= |raws|
      invariant cut + Shortened(raws[i..], left) == Shortened(raws, bytes)
    {
      var n := Min(LengthOf(raws[i]), left);
      assert raws[i..][0] == raws[i] && raws[i..][1..] == raws[i + 1..];
      cut := cut + [if raws[i].Null? then raws[i] else raws[i].(len := n)];
      left := left - n;
      i := i + 1;
    }
    assert raws[i..] == [];
  }

  ghost function Memory(raws: seq<RawSlice>): set<array<byte>> {
    set r | r in raws && r.Raw? :: r.base
  }

  method FillOne(r: RawSlice, chunk: seq<byte>)
    requires r.Raw? && r.offset + |chunk| <= r.base.Length
    modifies r.base
    ensures r.base[r.offset..r.offset + |chunk|] == chunk
    ensures r.base[..r.offset] == old(r.base[..r.offset])
  {
    var i := 0;
    while i < |chunk|
      invariant i <= |chunk|
      invariant forall k :: 0 <= k < i ==> r.base[r.offset + k] == chunk[k]
      invariant forall k :: 0 <= k < r.offset ==> r.base[k] == old(r.base[k])
    {
      r.base[r.offset + i] := chunk[i];
      i := i + 1;
    }
  }

  // The effect of readv on memory.
  method Fill(raws: seq<RawSlice>, chunks: seq<seq<byte>>)
    requires |chunks| == |raws|
    requires forall j :: 0 <= j < |raws| ==> raws[j].Raw? && raws[j].offset + |chunks[j]| <= raws[j].base.Length
    requires forall i, j :: 0 <= i < j < |raws| ==> raws[i].base != raws[j].base
    modifies Memory(raws)
    ensures forall j :: 0 <= j < |raws| ==>
              && raws[j].base[raws[j].offset..raws[j].offset + |chunks[j]|] == chunks[j]
              && raws[j].base[..raws[j].offset] == old(raws[j].base[..raws[j].offset])
  {
    var k := 0;
    while k < |raws|
      invariant k <= |raws|
      invariant forall j :: 0 <= j < k ==> raws[j].base[raws[j].offset..raws[j].offset + |chunks[j]|] == chunks[j]
      invariant forall j :: 0 <= j < |raws| ==> raws[j].base[..raws[j].offset] == old(raws[j].base[..raws[j].offset])
    {
      FillOne(raws[k], chunks[k]);
      k := k + 1;
    }
  }

  lemma SplitAt(base: array<byte>, i: nat, j: nat, k: nat)
    requires i <= j <= k <= base.Length
    ensures base[i..k] == base[i..j] + base[j..k]
  {
  }

  class Slice {
    var data: nat
    var reservable: nat
    const capacity: nat
    const base: array<byte>

    ghost predicate Valid()
      reads this
    {
      && data <= reservable <= capacity == base.Length
      && capacity > 0
      && (data == reservable ==> data == 0)
    }

    ghost function Content(): seq<byte>
      reads this, base
      requires Valid()
    {
      base[data..reservable]
    }

    lemma Front(n: nat)
      requires Valid() && data + n <= reservable
      ensures base[data..data + n] == Content()[..n]
    {
    }

    function DataSize(): nat
      reads this
      requires data <= reservable
    {
      reservable - data
    }

    function ReservableSize(): nat
      reads this
      requires reservable <= capacity
    {
      capacity - reservable
    }

    constructor (size: nat)
      ensures Valid() && fresh(base) && capacity == SliceSize(size)
      ensures data == 0 && reservable == 0
    {
      capacity := SliceSize(size);
      base := new byte[SliceSize(size)];
      data, reservable := 0, 0;
    }

    // Drop bytes from the front; an emptied slice starts over so that it can be reused.
    method Drain(size: nat)
      requires Valid() && data + size <= reservable
      modifies this
      ensures Valid() && Content() == old(Content())[size..]
      ensures reservable == if Content() == [] then 0 else old(reservable)
    {
      data := data + size;
      if data == reservable {
        data := 0;
        reservable := 0;
      }
    }

    method Reserve(size: nat) returns (r: RawSlice)
      requires Valid()
      ensures size == 0 || ReservableSize() == 0 ==> r == Null
      ensures size > 0 && ReservableSize() > 0 ==> r == Raw(base, reservable, Min(size, ReservableSize()))
    {
      if size == 0 {
        return Null;
      }
      assert DataSize() > 0 || data == 0;
      var available := capacity - reservable;
      if available == 0 {
        return Null;
      }
      return Raw(base, reservable, Min(size, available));
    }

    // Accepts a piece only if it is this slice's next reservable memory.
    method Commit(r: RawSlice) returns (ok: bool)
      requires Valid()
      modifies this`reservable
      ensures Valid()
      ensures ok <==> r.Raw? && r.base == base && r.offset == old(reservable)
                      && r.offset + r.len <= capacity && r.offset < capacity
      ensures ok ==> Content() == old(Content()) + base[r.offset..r.offset + r.len]
      ensures reservable == if ok then old(reservable) + r.len else old(reservable)
    {
      if r.Null? || r.base != base || r.offset != reservable || reservable + r.len > capacity || reservable >= capacity {
        return false;
      }
      reservable := reservable + r.len;
      return true;
    }

    // Copy as much as fits, byte by byte.
    method Append(src: seq<byte>) returns (n: nat)
      requires Valid()
      modifies this, base
      ensures Valid() && n == Min(|src|, old(ReservableSize()))
      ensures Content() == old(Content()) + src[..n]
      ensures data == old(data) && reservable == old(reservable) + n
    {
      n := Min(|src|, ReservableSize());
      var start := reservable;
      var i := 0;
      while i < n
        modifies base
        invariant i <= n
        invariant forall k :: 0 <= k < start ==> base[k] == old(base[k])
        invariant forall k :: 0 <= k < i ==> base[start + k] == src[k]
      {
        base[start + i] := src[i];
        i := i + 1;
      }
      reservable := reservable + n;
      assert base[data..start] == old(base[data..reservable]);
      assert base[start..reservable] == src[..n];
      SplitAt(base, data, start, reservable);
    }
  }

  // ---------------------------------------------------------------------------------------------
  // Buffer
  // ---------------------------------------------------------------------------------------------

  // The piece begins with the chunk.
  ghost predicate Stores(r: RawSlice, chunk: seq<byte>)
    reads if r.Raw? then {r.base} else {}
  {
    r.Raw? && r.offset + |chunk| <= r.base.Length && r.base[r.offset..r.offset + |chunk|] == chunk
  }

  ghost predicate Apart(s: Slice, t: Slice) {
    s != t && s.base != t.base
  }

  ghost predicate Filled(s: Slice, part: seq<byte>)
    reads s, s.base
  {
    s.Valid() && part == s.Content()
  }

  // The slices and their memory.
  ghost function BlocksOf(slices: seq<Slice>): set<object> {
    (set s: Slice | s in slices :: s as object) + (set s: Slice | s in slices :: s.base as object)
  }

  lemma InBlocks(slices: seq<Slice>, i: nat)
    requires i < |slices|
    ensures slices[i] as object in BlocksOf(slices) && slices[i].base as object in BlocksOf(slices)
  {
    assert slices[i] in slices;
  }

  // Taking `moved` more bytes from what is left of b.
  lemma MoveOn(a: seq<byte>, b: seq<byte>, done: nat, moved: nat)
    requires done + moved <= |b|
    ensures (a + b[..done]) + b[done..][..moved] == a + b[..done + moved]
    ensures b[done..][moved..] == b[done + moved..]
  {
  }

  lemma BlocksAppend(slices: seq<Slice>, slice: Slice)
    ensures BlocksOf(slices + [slice]) == BlocksOf(slices) + {slice, slice.base}
  {
    assert forall s: Slice :: s in slices + [slice] <==> s in slices || s == slice;
    forall o: object ensures o in BlocksOf(slices + [slice]) <==> o in BlocksOf(slices) + {slice, slice.base} {
      if o == slice { assert slice in slices + [slice]; }
      if o == slice.base { assert slice in slices + [slice]; }
    }
  }

  lemma BlocksTail(slices: seq<Slice>)
    requires slices != []
    requires forall i :: 0 < i < |slices| ==> slices[i] != slices[0] && slices[i].base != slices[0].base
    ensures BlocksOf(slices[1..]) == BlocksOf(slices) - {slices[0], slices[0].base}
  {
    assert forall s: Slice :: s in slices <==> s in slices[1..] || s == slices[0];
  }

  class Buffer {
    var slices: seq<Slice>
    var length: nat
    ghost var parts: seq<seq<byte>>  // what each slice contributes

    ghost function Blocks(): set<object>
      reads this
    {
      BlocksOf(slices)
    }

    // The slices and their memory are pairwise distinct.
    ghost predicate Separate()
      reads this
    {
      forall i, j {:trigger Apart(slices[i], slices[j])} :: 0 <= i < j < |slices| ==> Apart(slices[i], slices[j])
    }

    lemma ApartAt(i: nat, k: nat)
      requires Separate() && i < |slices| && k < |slices|
      ensures i != k ==> Apart(slices[i], slices[k])
    {
      if i < k {
        assert Apart(slices[i], slices[k]);
      } else if k < i {
        assert Apart(slices[k], slices[i]);
      }
    }

    // All but the length and the content.
    ghost predicate Filling()
      reads this, Blocks()
    {
      && |parts| == |slices| && Separate()
      && (forall i {:trigger Filled(slices[i], parts[i])} :: 0 <= i < |slices| ==>
            (InBlocks(slices, i); Filled(slices[i], parts[i])))
    }

    ghost predicate Valid()
      reads this, Blocks()
    {
      Filling() && length == |Flat(parts)|
    }

    // The byte sequence the buffer stands for.
    ghost function Content(): seq<byte>
      reads this
    {
      Flat(parts)
    }

    constructor ()
      ensures Valid() && Content() == [] && Blocks() == {}
    {
      slices, length, parts := [], 0, [];
    }

    method PushNew(size: nat) returns (slice: Slice)
      requires Valid()
      modifies this
      ensures Valid() && fresh(slice) && fresh(slice.base)
      ensures slices == old(slices) + [slice] && parts == old(parts) + [[]] && length == old(length)
      ensures slice.reservable == 0 && slice.data == 0 && slice.capacity == SliceSize(size)
      ensures Content() == old(Content())
    {
      slice := new Slice(size);
      FlatConcat(parts, [[]]);
      FlatSingle([]);
      ghost var before, was := slices, parts;
      assert forall i :: 0 <= i < |before| ==> Filled(before[i], was[i]);
      slices := slices + [slice];
      parts := parts + [[]];
      forall i | 0 <= i < |slices| ensures Filled(slices[i], parts[i]) {
        assert i < |before| ==> Filled(before[i], was[i]);
      }
      forall i, j | 0 <= i < j < |slices| ensures Apart(slices[i], slices[j]) {
        assert j < |before| ==> Apart(before[i], before[j]);
      }
    }

    method FillLast(src: seq<byte>) returns (n: nat)
      requires Filling() && slices != []
      modifies this`parts, slices[|slices| - 1], slices[|slices| - 1].base
      ensures Filling() && n <= |src|
      ensures n == Min(|src|, old(RoomOf(slices[|slices| - 1])))
      ensures parts == old(parts)[|slices| - 1 := old(parts)[|slices| - 1] + src[..n]]
    {
      var last := slices[|slices| - 1];
      assert Filled(last, parts[|slices| - 1]);
      n := last.Append(src);
      parts := parts[|slices| - 1 := parts[|slices| - 1] + src[..n]];
      assert Filled(last, parts[|slices| - 1]);
      forall i | 0 <= i < |slices| - 1 ensures Filled(slices[i], parts[i]) {
        assert Apart(slices[i], last);
        assert old(Filled(slices[i], parts[i]));
      }
    }

    method AppendToLast(src: seq<byte>) returns (n: nat)
      requires Valid() && slices != []
      modifies this`length, this`parts, slices[|slices| - 1], slices[|slices| - 1].base
      ensures Valid() && n <= |src|
      ensures n == Min(|src|, old(RoomOf(slices[|slices| - 1])))
      ensures Content() == old(Content()) + src[..n]
    {
      n := FillLast(src);
      FlatAppend(old(parts), |old(parts)| - 1, src[..n]);
      length := length + n;
    }

    // One round of the loop below: fill the last slice, or a new one large enough for the rest.
    method AddSome(rest: seq<byte>, newSliceNeeded: bool) returns (n: nat)
      requires Valid() && (newSliceNeeded || slices != [])
      modifies this, Blocks()
      ensures Valid() && fresh(Blocks() - old(Blocks())) && slices != []
      ensures n <= |rest| && Content() == old(Content()) + rest[..n]
      ensures newSliceNeeded ==> n == |rest| && |slices| == |old(slices)| + 1
      ensures !newSliceNeeded ==> slices == old(slices) && n == Min(|rest|, old(RoomOf(slices[|slices| - 1])))
    {
      if newSliceNeeded {
        var slice := PushNew(|rest|);
        BlocksAppend(old(slices), slice);
      }
      InBlocks(slices, |slices| - 1);
      n := AppendToLast(rest);
    }

    // The bytes fit into the last slice.
    ghost predicate LastTakes(n: nat)
      reads this, slices
    {
      n == 0 || (slices != [] && n <= RoomOf(slices[|slices| - 1]))
    }

    // The last slice is filled first; what does not fit goes into one new slice.
    method Add(src: seq<byte>)
      requires Valid()
      modifies this, Blocks()
      ensures Valid() && Content() == old(Content()) + src
      ensures fresh(Blocks() - old(Blocks()))
      ensures |slices| == |old(slices)| + if old(LastTakes(|src|)) then 0 else 1
    {
      var rest := src;
      var newSliceNeeded := slices == [];
      while rest != []
        invariant Valid() && fresh(Blocks() - old(Blocks()))
        invariant Content() + rest == old(Content()) + src
        invariant !newSliceNeeded ==> slices != [] && slices == old(slices) && rest == src
        invariant !newSliceNeeded ==> old(slices) != [] && RoomOf(slices[|slices| - 1]) == old(RoomOf(slices[|slices| - 1]))
        invariant newSliceNeeded && rest != [] ==> !old(LastTakes(|src|))
        invariant |slices| == |old(slices)| + if rest == [] && !old(LastTakes(|src|)) then 1 else 0
        decreases |rest|, !newSliceNeeded
      {
        var n := AddSome(rest, newSliceNeeded);
        rest := rest[n..];
        newSliceNeeded := true;
      }
    }

    method PopFront() returns (slice: Slice)
      requires Valid() && slices != []
      modifies this
      ensures Valid() && slices == old(slices)[1..] && parts == old(parts)[1..]
      ensures slice == old(slices)[0] && Blocks() == old(Blocks()) - {slice, slice.base}
      ensures old(Content()) == old(parts)[0] + Content()
    {
      slice := slices[0];
      ghost var before, was := slices, parts;
      assert Filled(slice, was[0]);
      assert forall i :: 0 < i < |before| ==> Apart(before[0], before[i]);
      BlocksTail(slices);
      length := length - slice.DataSize();
      slices := slices[1..];
      parts := parts[1..];
      forall i | 0 <= i < |slices| ensures Filled(slices[i], parts[i]) {
        assert Filled(before[i + 1], was[i + 1]);
      }
      forall i, j | 0 <= i < j < |slices| ensures Apart(slices[i], slices[j]) {
        assert Apart(before[i + 1], before[j + 1]);
      }
    }

    method PushBack(slice: Slice)
      requires Valid() && slice.Valid() && slice !in Blocks() && slice.base !in Blocks()
      modifies this
      ensures Valid() && Blocks() == old(Blocks()) + {slice, slice.base}
      ensures Content() == old(Content()) + slice.Content()
    {
      BlocksAppend(slices, slice);
      FlatConcat(parts, [slice.Content()]);
      FlatSingle(slice.Content());
      ghost var before, was := slices, parts;
      length := length + slice.DataSize();
      parts := parts + [slice.Content()];
      slices := slices + [slice];
      forall i | 0 <= i < |slices| ensures Filled(slices[i], parts[i]) {
        assert i < |before| ==> Filled(before[i], was[i]);
      }
      forall i, j | 0 <= i < j < |slices| ensures Apart(slices[i], slices[j]) {
        InBlocks(before, i);
        assert j < |before| ==> Apart(before[i], before[j]);
      }
    }

    method DrainFront(n: nat)
      requires Valid() && slices != [] && n < |parts[0]|
      modifies this`length, this`parts, slices[0]
      ensures Valid() && Content() == old(Content())[n..]
    {
      assert Filled(slices[0], parts[0]);
      FlatUpdate(parts, 0, parts[0][n..]);
      slices[0].Drain(n);
      parts := parts[0 := parts[0][n..]];
      length := length - n;
      forall i | 0 <= i < |slices| ensures Filled(slices[i], parts[i]) {
        assert i > 0 ==> Apart(slices[0], slices[i]) && old(Filled(slices[i], parts[i]));
      }
    }

    // One round of the loop below: release the front slice or drain a part of it.
    method DrainSome(left: nat) returns (n: nat)
      requires Valid() && slices != [] && left > 0
      modifies this, Blocks()
      ensures Valid() && Blocks() <= old(Blocks())
      ensures n <= left && n <= |old(Content())| && Content() == old(Content())[n..]
      ensures n == left || |slices| < |old(slices)|
    {
      assert Filled(slices[0], parts[0]);
      n := slices[0].DataSize();
      if n <= left {
        var released := PopFront();
      } else {
        InBlocks(slices, 0);
        DrainFront(left);
        n := left;
      }
    }

    // Drops the first min(size, length) bytes.
    method Drain(size: nat)
      requires Valid()
      modifies this, Blocks()
      ensures Valid() && Blocks() <= old(Blocks())
      ensures Content() == old(Content())[Min(size, |old(Content())|)..]
    {
      var left: nat := size;
      ghost var was := Content();
      ghost var done: nat := 0;
      while left != 0 && slices != []
        invariant Valid() && Blocks() <= old(Blocks())
        invariant done + left == size && done <= |was| && Content() == was[done..]
        decreases left != 0, |slices|
      {
        var n := DrainSome(left);
        MoveOn([], was, done, n);
        left, done := left - n, done + n;
      }
      assert slices == [] ==> Content() == [];
    }

    // The whole of `other` moves to the end of this buffer, slice by slice.
    method Move(other: Buffer)
      requires this != other && Valid() && other.Valid() && Blocks() !! other.Blocks()
      modifies this, other
      ensures Valid() && other.Valid() && Blocks() == old(Blocks() + other.Blocks()) && other.Blocks() == {}
      ensures Content() == old(Content()) + old(other.Content()) && other.Content() == []
    {
      while other.slices != []
        invariant Valid() && other.Valid() && Blocks() !! other.Blocks()
        invariant Blocks() + other.Blocks() == old(Blocks() + other.Blocks())
        invariant Content() + other.Content() == old(Content()) + old(other.Content())
        decreases |other.slices|
      {
        MoveFront(other);
      }
    }

    method MoveFront(other: Buffer)
      requires this != other && Valid() && other.Valid() && Blocks() !! other.Blocks() && other.slices != []
      modifies this, other
      ensures Valid() && other.Valid() && Blocks() !! other.Blocks()
      ensures Blocks() + other.Blocks() == old(Blocks() + other.Blocks())
      ensures other.slices == old(other.slices)[1..]
      ensures Content() == old(Content()) + old(other.parts)[0]
      ensures old(other.Content()) == old(other.parts)[0] + other.Content()
    {
      InBlocks(other.slices, 0);
      assert Filled(other.slices[0], other.parts[0]);
      var slice := other.PopFront();
      PushBack(slice);
    }

    // The first bytes of the front slice are copied and drained.
    method CopyPiece(other: Buffer, n: nat)
      requires this != other && Valid() && other.Valid() && Blocks() !! other.Blocks()
      requires other.slices != [] && 0 < n < |other.parts[0]|
      modifies this, other, Blocks(), other.Blocks()
      ensures Valid() && other.Valid() && Blocks() !! other.Blocks()
      ensures fresh(Blocks() - old(Blocks())) && other.slices == old(other.slices)
      ensures n <= |old(other.Content())| && Content() == old(Content()) + old(other.Content())[..n]
      ensures other.Content() == old(other.Content())[n..]
    {
      var front := other.slices[0];
      assert Filled(front, other.parts[0]);
      InBlocks(other.slices, 0);
      var piece := front.base[front.data..front.data + n];
      front.Front(n);
      FlatFront(other.parts, n);
      Add(piece);
      other.DrainFront(n);
    }

    // One round of the loop below: release an empty front slice, copy a piece of the front slice, or
    // take the front slice over.
    method MoveSome(other: Buffer, left: nat) returns (moved: nat)
      requires this != other && Valid() && other.Valid() && Blocks() !! other.Blocks()
      requires left != 0 && other.slices != []
      modifies this, other, Blocks(), other.Blocks()
      ensures Valid() && other.Valid() && Blocks() !! other.Blocks()
      ensures fresh(Blocks() + other.Blocks() - old(Blocks() + other.Blocks()))
      ensures moved <= left && moved <= |old(other.Content())|
      ensures Content() == old(Content()) + old(other.Content())[..moved]
      ensures other.Content() == old(other.Content())[moved..]
      ensures |other.slices| < |old(other.slices)| || (|other.slices| == |old(other.slices)| && moved == left)
    {
      var front := other.slices[0];
      assert Filled(front, other.parts[0]);
      var sliceSize := front.DataSize();
      moved := Min(sliceSize, left);
      if moved == 0 {
        var released := other.PopFront();
      } else if moved < sliceSize {
        CopyPiece(other, moved);
      } else {
        MoveFront(other);
      }
    }

    // The first min(size, other.length) bytes of `other` move to the end of this buffer.
    method MovePrefix(other: Buffer, size: nat)
      requires this != other && Valid() && other.Valid() && Blocks() !! other.Blocks()
      modifies this, other, Blocks(), other.Blocks()
      ensures Valid() && other.Valid() && Blocks() !! other.Blocks()
      ensures fresh(Blocks() + other.Blocks() - old(Blocks() + other.Blocks()))
      ensures var n := Min(size, |old(other.Content())|);
        Content() == old(Content()) + old(other.Content())[..n] && other.Content() == old(other.Content())[n..]
    {
      var left: nat := size;
      ghost var mine, theirs := Content(), other.Content();
      ghost var done: nat := 0;
      while left != 0 && other.slices != []
        invariant Valid() && other.Valid() && Blocks() !! other.Blocks()
        invariant fresh(Blocks() + other.Blocks() - old(Blocks() + other.Blocks()))
        invariant done + left == size && done <= |theirs|
        invariant Content() == mine + theirs[..done] && other.Content() == theirs[done..]
        decreases |other.slices|, left
      {
        var moved := MoveSome(other, left);
        MoveOn(mine, theirs, done, moved);
        left, done := left - moved, done + moved;
      }
      assert other.slices == [] ==> other.Content() == [];
    }

    // The pieces are the next reservable memory of the slices at the places `at`, in order, and no
    // slice after the first of these places holds data.
    ghost predicate Reserved(raws: seq<RawSlice>, at: seq<nat>)
      reads this, slices
    {
      && |raws| == |at| && |parts| == |slices|
      && (forall j :: 0 <= j < |at| ==> at[j] < |slices|)
      && (forall j {:trigger Offers(slices[at[j]], raws[j])} :: 0 <= j < |at| ==> Offers(slices[at[j]], raws[j]))
      && (forall i, j :: 0 <= i < j < |at| ==> at[i] < at[j])
      && (at != [] ==> forall i :: at[0] < i < |slices| ==> parts[i] == [])
    }

    static ghost predicate Offers(slice: Slice, r: RawSlice)
      reads slice
    {
      r.Raw? && r.base == slice.base && r.offset == slice.reservable
      && r.offset + r.len <= slice.capacity && r.offset < slice.capacity
    }

    static ghost predicate HasRoom(slice: Slice)
      reads slice
    {
      slice.reservable < slice.capacity
    }

    static ghost function RoomOf(slice: Slice): nat
      reads slice
    {
      if slice.reservable <= slice.capacity then slice.capacity - slice.reservable else 0
    }

    // The slices from which memory can be reserved begin at `first`: empty ones at the end, and a slice with
    // data in front of them, as far as they have room.
    static ghost predicate TailFrom(slices: seq<Slice>, parts: seq<seq<byte>>, first: nat)
      reads slices
    {
      && first <= |slices| == |parts|
      && (forall i :: first <= i < |slices| ==> HasRoom(slices[i]))
      && (forall i :: first < i < |slices| ==> parts[i] == [])
      && (first > 0 ==> !HasRoom(slices[first - 1]) || (first < |slices| && parts[first] != []))
    }

    // The pieces lie in slices in a row from `first` on, and each takes all the room there is unless it is
    // the last of all.  Something is left over only when all these slices are used, or when there is one
    // entry left and the next slice has less room than is still wanted.
    static ghost predicate Frugal(slices: seq<Slice>, raws: seq<RawSlice>, at: seq<nat>, first: nat, maxSlices: nat, left: nat)
      reads slices
    {
      && first + |at| <= |slices| && |raws| == |at|
      && (forall j {:trigger TakesAll(slices, raws, at, first, left, j)} :: 0 <= j < |at| ==>
            TakesAll(slices, raws, at, first, left, j))
      && (left != 0 && first + |at| < |slices| ==> |raws| + 1 == maxSlices && RoomOf(slices[first + |at|]) < left)
    }

    static ghost predicate TakesAll(slices: seq<Slice>, raws: seq<RawSlice>, at: seq<nat>, first: nat, left: nat, j: nat)
      requires j < |at| == |raws| && first + j < |slices|
      reads slices
    {
      && at[j] == first + j
      && (left != 0 || j + 1 < |raws| ==> LengthOf(raws[j]) == RoomOf(slices[first + j]))
    }

    // Of n slices that were there, those at the end are used first; then comes at most one new slice.
    ghost predicate Prudent(raws: seq<RawSlice>, at: seq<nat>, n: nat, maxSlices: nat)
      reads this, slices
    {
      && |raws| == |at| && n <= |slices| <= n + 1 && |parts| == |slices|
      && exists first: nat {:trigger TailFrom(slices[..n], parts[..n], first)} ::
           && TailFrom(slices[..n], parts[..n], first)
           && if |slices| == n then Frugal(slices[..n], raws, at, first, maxSlices, 0)
              else
                var last := |raws| - 1;
                && raws != [] && at[last] == n
                && Frugal(slices[..n], raws[..last], at[..last], first, maxSlices, LengthOf(raws[last]))
    }

    // The trailing slices from which memory can be reserved.
    method FirstReservable() returns (first: nat)
      requires Valid()
      ensures TailFrom(slices, parts, first)
    {
      first := |slices|;
      while first > 0
        invariant first <= |slices|
        invariant forall i :: first <= i < |slices| ==> HasRoom(slices[i]) && parts[i] == []
      {
        assert Filled(slices[first - 1], parts[first - 1]);
        if slices[first - 1].ReservableSize() == 0 {
          break;
        }
        first := first - 1;
        if slices[first].DataSize() != 0 {
          break;
        }
      }
    }

    // Reserve from the slices from `first` on, leaving one entry for a new slice if they cannot
    // complete the request.
    method ReserveExisting(size: nat, maxSlices: nat, first: nat)
      returns (raws: seq<RawSlice>, left: nat, ghost at: seq<nat>)
      requires Valid() && size > 0 && maxSlices > 0 && first <= |slices|
      requires forall i :: first <= i < |slices| ==> HasRoom(slices[i])
      requires forall i :: first < i < |slices| ==> parts[i] == []
      ensures Reserved(raws, at) && Total(raws) + left == size
      ensures |raws| <= maxSlices && (left != 0 ==> |raws| < maxSlices)
      ensures Frugal(slices, raws, at, first, maxSlices, left)
    {
      raws, at, left := [], [], size;
      var index := first;
      while index < |slices| && left != 0 && |raws| < maxSlices
        invariant first <= index <= |slices| && |raws| == |at| && index == first + |raws|
        invariant forall j :: 0 <= j < |at| ==> at[j] == first + j && Offers(slices[at[j]], raws[j])
        invariant Total(raws) + left == size
        invariant |raws| <= maxSlices && (left != 0 ==> |raws| < maxSlices)
        invariant forall j {:trigger TakesAll(slices, raws, at, first, left, j)} :: 0 <= j < |at| ==>
          TakesAll(slices, raws, at, first, left, j)
      {
        assert Filled(slices[index], parts[index]) && HasRoom(slices[index]);
        var reservation := Min(slices[index].ReservableSize(), left);
        if |raws| + 1 == maxSlices && reservation < left {
          break;
        }
        var raw := slices[index].Reserve(reservation);
        TotalAppend(raws, raw);
        ghost var raws', at', left' := raws, at, left;
        raws := raws + [raw];
        at := at + [index];
        left := left - LengthOf(raw);
        forall j | 0 <= j < |at| ensures TakesAll(slices, raws, at, first, left, j) {
          assert j < |at'| ==> TakesAll(slices, raws', at', first, left', j);
        }
        index := index + 1;
      }
    }

    // A new slice at the end, reserved for `left` bytes.
    method PushReserved(left: nat) returns (raw: RawSlice)
      requires Valid() && left > 0
      modifies this
      ensures Valid() && Content() == old(Content()) && fresh(Blocks() - old(Blocks())) && old(Blocks()) <= Blocks()
      ensures |slices| == |old(slices)| + 1 && slices[..|old(slices)|] == old(slices) && parts == old(parts) + [[]]
      ensures Offers(slices[|slices| - 1], raw) && LengthOf(raw) == left
    {
      var slice := PushNew(left);
      BlocksAppend(old(slices), slice);
      assert Filled(slice, parts[|slices| - 1]);
      raw := slice.Reserve(left);
    }

    // It provides the rest of a reservation.
    method ReserveNew(raws: seq<RawSlice>, left: nat, ghost at: seq<nat>)
      returns (more: seq<RawSlice>, ghost moreAt: seq<nat>)
      requires Valid() && left > 0 && Reserved(raws, at)
      modifies this
      ensures Valid() && Content() == old(Content()) && fresh(Blocks() - old(Blocks())) && old(Blocks()) <= Blocks()
      ensures |more| == |raws| + 1 && Total(more) == Total(raws) + left && Reserved(more, moreAt)
      ensures slices != [] && slices[..|slices| - 1] == old(slices) && parts == old(parts) + [[]]
      ensures more[..|raws|] == raws && LengthOf(more[|raws|]) == left && moreAt == at + [|old(slices)|]
    {
      ghost var before := slices;
      var raw := PushReserved(left);
      TotalAppend(raws, raw);
      more, moreAt := raws + [raw], at + [|slices| - 1];
      forall j | 0 <= j < |at| ensures Offers(slices[at[j]], raws[j]) {
        assert old(Offers(slices[at[j]], raws[j]));
        assert slices[..|before|][at[j]] == before[at[j]];
      }
      ReservedMore(raws, at, raw);
    }

    // A reservation goes on with a slice that comes after all the others.
    lemma ReservedMore(raws: seq<RawSlice>, at: seq<nat>, raw: RawSlice)
      requires slices != [] && |raws| == |at| && |parts| == |slices|
      requires (forall j :: 0 <= j < |at| ==> at[j] < |slices| - 1)
      requires forall j {:trigger Offers(slices[at[j]], raws[j])} :: 0 <= j < |at| ==> Offers(slices[at[j]], raws[j])
      requires forall i, j :: 0 <= i < j < |at| ==> at[i] < at[j]
      requires at != [] ==> forall i :: at[0] < i < |slices| ==> parts[i] == []
      requires Offers(slices[|slices| - 1], raw)
      ensures Reserved(raws + [raw], at + [|slices| - 1])
    {
      var more, moreAt := raws + [raw], at + [|slices| - 1];
      forall j | 0 <= j < |moreAt| ensures Offers(slices[moreAt[j]], more[j]) {
        assert j < |at| ==> Offers(slices[at[j]], raws[j]);
      }
    }

    // Pieces of memory for exactly `size` bytes, at most `maxSlices` of them.
    method Reserve(size: nat, maxSlices: nat) returns (raws: seq<RawSlice>, ghost at: seq<nat>)
      requires Valid()
      modifies this
      ensures Valid() && Content() == old(Content()) && fresh(Blocks() - old(Blocks())) && old(Blocks()) <= Blocks()
      ensures |raws| <= maxSlices && Reserved(raws, at)
      ensures Total(raws) == if maxSlices == 0 then 0 else size
      ensures |slices| >= |old(slices)| && slices[..|old(slices)|] == old(slices)
      ensures size > 0 && maxSlices > 0 ==> Prudent(raws, at, |old(slices)|, maxSlices)
    {
      if maxSlices == 0 || size == 0 {
        assert slices[..|slices|] == slices;
        return [], [];
      }
      var first := FirstReservable();
      var left;
      raws, left, at := ReserveExisting(size, maxSlices, first);
      if left != 0 {
        raws, at := ReserveRest(raws, left, at, first, maxSlices);
      } else {
        assert slices[..|slices|] == slices && parts[..|slices|] == parts;
        assert TailFrom(slices[..|slices|], parts[..|slices|], first);
      }
    }

    // A reservation from the slices before, and the rest from a new one.
    lemma PrudentNew(raws: seq<RawSlice>, at: seq<nat>, more: seq<RawSlice>, moreAt: seq<nat>,
                     before: seq<Slice>, partsBefore: seq<seq<byte>>, first: nat, maxSlices: nat)
      requires |more| == |raws| + 1 && more[..|raws|] == raws && moreAt == at + [|before|]
      requires |slices| == |before| + 1 == |parts| && slices[..|before|] == before && parts == partsBefore + [[]]
      requires TailFrom(before, partsBefore, first)
      requires Frugal(before, raws, at, first, maxSlices, LengthOf(more[|raws|]))
      ensures Prudent(more, moreAt, |before|, maxSlices)
    {
      assert parts[..|before|] == partsBefore && moreAt[..|at|] == at;
      assert TailFrom(slices[..|before|], parts[..|before|], first);
    }

    method ReserveRest(raws: seq<RawSlice>, left: nat, ghost at: seq<nat>, ghost first: nat, ghost maxSlices: nat)
      returns (more: seq<RawSlice>, ghost moreAt: seq<nat>)
      requires Valid() && left > 0 && Reserved(raws, at)
      requires TailFrom(slices, parts, first) && Frugal(slices, raws, at, first, maxSlices, left)
      modifies this
      ensures Valid() && Content() == old(Content()) && fresh(Blocks() - old(Blocks())) && old(Blocks()) <= Blocks()
      ensures |more| == |raws| + 1 && Total(more) == Total(raws) + left && Reserved(more, moreAt)
      ensures |slices| == |old(slices)| + 1 && slices[..|old(slices)|] == old(slices)
      ensures Prudent(more, moreAt, |old(slices)|, maxSlices)
    {
      more, moreAt := ReserveNew(raws, left, at);
      PrudentNew(raws, at, more, moreAt, old(slices), old(parts), first, maxSlices);
    }

    // The last slice that holds data, or the first slice if none does.
    method LastWithData() returns (index: nat)
      requires Valid() && slices != []
      ensures index < |slices| && (forall i :: index < i < |slices| ==> parts[i] == [])
      ensures index == 0 || parts[index] != []
    {
      var i: int := |slices| - 1;
      assert forall j :: 0 <= j < |slices| ==> Filled(slices[j], parts[j]);
      while i >= 0 && slices[i].DataSize() == 0
        invariant -1 <= i < |slices|
        invariant forall j :: i < j < |slices| ==> parts[j] == []
      {
        assert Filled(slices[i], parts[i]);
        i := i - 1;
      }
      index := if i < 0 then 0 else i;
      assert Filled(slices[index], parts[index]);
    }

    // The slice at `index` takes the piece if it offered it.
    method TryCommit(index: nat, r: RawSlice, ghost chunk: seq<byte>) returns (ok: bool)
      requires Valid() && index < |slices| && Stores(r, chunk) && r.len == |chunk|
      requires forall i :: index < i < |slices| && r.base == slices[index].base ==> parts[i] == []
      modifies this`length, this`parts, slices[index]
      ensures Valid()
      ensures ok <==> old(Offers(slices[index], r))
      ensures parts == if ok then old(parts)[index := old(parts)[index] + chunk] else old(parts)
      ensures Content() == if ok then old(Content()) + chunk else old(Content())
      ensures !ok ==> slices[index].reservable == old(slices[index].reservable)
    {
      assert Filled(slices[index], parts[index]);
      ok := slices[index].Commit(r);
      if ok {
        length := length + r.len;
        FlatAppend(parts, index, chunk);
        parts := parts[index := parts[index] + chunk];
      }
      forall i | 0 <= i < |slices| ensures Filled(slices[i], parts[i]) {
        assert i < index ==> Apart(slices[i], slices[index]);
        assert i > index ==> Apart(slices[index], slices[i]);
        assert old(Filled(slices[i], parts[i]));
      }
    }

    // One round of the loop below: the slice at `index` is the one that offered piece k, or none.
    method CommitAt(index: nat, k: nat, raws: seq<RawSlice>, ghost at: seq<nat>, ghost chunk: seq<byte>)
      returns (ok: bool)
      requires Valid() && k < |raws| == |at| && index <= at[k] < |slices| && index < |slices|
      requires forall i, j :: 0 <= i < j < |at| ==> at[i] < at[j]
      requires forall j :: k <= j < |raws| ==> at[j] < |slices|
      requires forall j {:trigger Offers(slices[at[j]], raws[j])} :: k <= j < |raws| ==> Offers(slices[at[j]], raws[j])
      requires forall i :: at[k] < i < |slices| ==> parts[i] == []
      requires Stores(raws[k], chunk) && raws[k].len == |chunk|
      modifies this`length, this`parts, slices[index]
      ensures Valid() && (ok <==> index == at[k])
      ensures Content() == if ok then old(Content()) + chunk else old(Content())
      ensures forall i :: at[k] < i < |slices| ==> parts[i] == []
      ensures forall j {:trigger Offers(slices[at[j]], raws[j])} :: (if ok then k + 1 else k) <= j < |raws| ==>
        Offers(slices[at[j]], raws[j])
    {
      assert Offers(slices[at[k]], raws[k]);
      assert forall j :: k < j < |raws| ==> Apart(slices[index], slices[at[j]]);
      assert index < at[k] ==> Apart(slices[index], slices[at[k]]);
      ok := TryCommit(index, raws[k], chunk);
      forall j | (if ok then k + 1 else k) <= j < |raws| ensures Offers(slices[at[j]], raws[j]) {
        assert old(Offers(slices[at[j]], raws[j]));
        assert k < j ==> Apart(slices[index], slices[at[j]]);
      }
    }

    // Commits the pieces of a reservation, possibly shortened: their bytes are appended in order.
    method Commit(raws: seq<RawSlice>, ghost at: seq<nat>, ghost chunks: seq<seq<byte>>)
      requires Valid() && Reserved(raws, at) && |chunks| == |raws|
      requires forall j {:trigger Stores(raws[j], chunks[j])} :: 0 <= j < |raws| ==>
        Stores(raws[j], chunks[j]) && LengthOf(raws[j]) == |chunks[j]|
      modifies this`length, this`parts, slices
      ensures Valid() && Content() == old(Content()) + Flat(chunks)
    {
      if raws == [] {
        return;
      }
      ghost var was := Content();
      assert at[0] < |slices|;
      var index := LastWithData();
      var k := 0;
      while k < |raws| && index < |slices|
        invariant k <= |raws| && index <= |slices| && Valid()
        invariant k < |raws| ==> index <= at[k]
        invariant k < |raws| ==> forall i :: at[k] < i < |slices| ==> parts[i] == []
        invariant forall j {:trigger Offers(slices[at[j]], raws[j])} :: k <= j < |raws| ==> Offers(slices[at[j]], raws[j])
        invariant Content() == was + Flat(chunks[..k])
        decreases |slices| - index
      {
        assert Stores(raws[k], chunks[k]);
        var ok := CommitAt(index, k, raws, at, chunks[k]);
        if ok {
          ChunkOn(was, chunks, k);
          k := k + 1;
        }
        index := index + 1;
      }
      TakeAll(chunks);
    }

    // Distinct pieces of a reservation lie in distinct blocks of this buffer.
    lemma ReservedMemory(raws: seq<RawSlice>, at: seq<nat>)
      requires Separate() && Reserved(raws, at)
      ensures forall j :: 0 <= j < |raws| ==> raws[j].Raw?
      ensures forall i, j :: 0 <= i < j < |raws| ==> raws[i].base != raws[j].base
      ensures forall a: array<byte> :: a in Memory(raws) ==> a as object in Blocks()
    {
      forall j | 0 <= j < |raws| ensures raws[j].Raw? && raws[j].base as object in Blocks() {
        InBlocks(slices, at[j]);
        assert Offers(slices[at[j]], raws[j]);
      }
      forall i, j | 0 <= i < j < |raws| ensures raws[i].base != raws[j].base {
        assert Offers(slices[at[i]], raws[i]) && Offers(slices[at[j]], raws[j]);
        assert Apart(slices[at[i]], slices[at[j]]);
      }
    }

    // Storing into reserved memory does not touch the content.
    method FillReserved(raws: seq<RawSlice>, ghost at: seq<nat>, chunks: seq<seq<byte>>)
      requires Valid() && Reserved(raws, at) && |chunks| == |raws|
      requires forall j :: 0 <= j < |raws| ==> |chunks[j]| <= LengthOf(raws[j])
      modifies Memory(raws)
      ensures Valid()
      ensures forall j :: 0 <= j < |raws| ==> Stores(raws[j], chunks[j])
    {
      ReservedMemory(raws, at);
      forall j | 0 <= j < |raws| ensures raws[j].offset + |chunks[j]| <= raws[j].base.Length {
        assert Offers(slices[at[j]], raws[j]) && Filled(slices[at[j]], parts[at[j]]);
      }
      Fill(raws, chunks);
      forall i | 0 <= i < |slices| ensures Filled(slices[i], parts[i]) {
        assert old(Filled(slices[i], parts[i]));
        if slices[i].base in Memory(raws) {
          var r :| r in raws && r.Raw? && r.base == slices[i].base;
          var j :| 0 <= j < |raws| && raws[j] == r;
          assert Offers(slices[at[j]], raws[j]);
          ApartAt(at[j], i);
          assert slices[i].base[..slices[i].reservable] == old(slices[i].base[..slices[i].reservable]);
          assert slices[i].Content() == slices[i].base[..slices[i].reservable][slices[i].data..];
        }
      }
    }

    // readv: an error, or some of the bytes the socket has, up to the reserved space, are stored
    // into the pieces.  `available` and `fails` are the environment's choice.
    method SocketReadv(raws: seq<RawSlice>, ghost at: seq<nat>, available: seq<byte>, fails: bool)
      returns (result: int, ghost data: seq<byte>)
      requires Valid() && Reserved(raws, at)
      modifies Memory(raws)
      ensures Valid()
      ensures result == if fails then -1 else Min(|available|, Total(raws))
      ensures data == if result > 0 then available[..result] else []
      ensures forall j :: 0 <= j < |raws| ==> Stores(raws[j], Chunks(raws, data)[j])
    {
      result := if fails then -1 else Min(|available|, Total(raws));
      var received := if result > 0 then available[..result] else [];
      forall j | 0 <= j < |raws| ensures |Chunks(raws, received)[j]| <= LengthOf(raws[j]) {
        ShortenedAt(raws, received, j);
      }
      FillReserved(raws, at, Chunks(raws, received));
      data := received;
    }

    // Commit the pieces shortened to the bytes received.
    method CommitReceived(raws: seq<RawSlice>, ghost at: seq<nat>, received: nat, ghost data: seq<byte>)
      requires Valid() && Reserved(raws, at) && |data| == received <= Total(raws)
      requires forall j :: 0 <= j < |raws| ==> Stores(raws[j], Chunks(raws, data)[j])
      modifies this`length, this`parts, slices
      ensures Valid() && Content() == old(Content()) + data
    {
      var cut := Shorten(raws, received);
      ChunksCover(raws, data);
      forall j | 0 <= j < |cut| ensures Offers(slices[at[j]], cut[j]) {
        assert Offers(slices[at[j]], raws[j]);
        ShortenedAt(raws, data, j);
      }
      forall j | 0 <= j < |cut|
        ensures Stores(cut[j], Chunks(raws, data)[j]) && LengthOf(cut[j]) == |Chunks(raws, data)[j]|
      {
        assert Stores(raws[j], Chunks(raws, data)[j]);
        ShortenedAt(raws, data, j);
      }
      Commit(cut, at, Chunks(raws, data));
    }

    // Read after the reservation.
    method ReadInto(raws: seq<RawSlice>, ghost at: seq<nat>, available: seq<byte>, fails: bool) returns (result: int)
      requires Valid() && Reserved(raws, at)
      modifies this`length, this`parts, Blocks()
      ensures Valid()
      ensures result == if fails then -1 else Min(|available|, Total(raws))
      ensures Content() == old(Content()) + (if result > 0 then available[..result] else [])
    {
      ReservedMemory(raws, at);
      forall i | 0 <= i < |slices| ensures slices[i] as object in Blocks() {
        InBlocks(slices, i);
      }
      ghost var data;
      result, data := SocketReadv(raws, at, available, fails);
      CommitReceived(raws, at, if result > 0 then result else 0, data);
    }

    // Reads at most `size` bytes: exactly the bytes received are appended.
    method Read(size: nat, available: seq<byte>, fails: bool) returns (result: int)
      requires Valid()
      modifies this, Blocks()
      ensures Valid() && fresh(Blocks() - old(Blocks()))
      ensures result == if size == 0 then 0 else if fails then -1 else Min(|available|, size)
      ensures Content() == old(Content()) + (if result > 0 then available[..result] else [])
    {
      if size == 0 {
        return 0;
      }
      var raws, at := Reserve(size, MAX_READ_SLICES);
      result := ReadInto(raws, at, available, fails);
    }

    // The filled part of each non-empty slice, at most outSize of them, and how many there are.
    method GetRawSlices(outSize: nat) returns (out: seq<RawSlice>, num: nat, ghost chunks: seq<seq<byte>>)
      requires Valid()
      ensures num == NonEmpty(parts) && |out| == |chunks| == Min(num, outSize)
      ensures Holds(out, chunks)
      ensures Flat(chunks) <= Content() && (num <= outSize ==> Flat(chunks) == Content())
    {
      out, num, chunks := [], 0, [];
      var i := 0;
      while i < |slices|
        invariant i <= |slices| && num == NonEmpty(parts[..i]) && |out| == |chunks| == Min(num, outSize)
        invariant Holds(out, chunks)
        invariant Flat(chunks) <= Flat(parts[..i]) && (num <= outSize ==> Flat(chunks) == Flat(parts[..i]))
      {
        var slice := slices[i];
        assert Filled(slice, parts[i]);
        FlatPrefix(parts, i);
        NonEmptyPrefix(parts, i);
        if slice.DataSize() != 0 {
          if num < outSize {
            FlatSnoc(chunks, parts[i]);
            HoldsAppend(out, chunks, Raw(slice.base, slice.data, slice.DataSize()), parts[i]);
            out := out + [Raw(slice.base, slice.data, slice.DataSize())];
            chunks := chunks + [parts[i]];
          }
          num := num + 1;
        }
        i := i + 1;
      }
      TakeAll(parts);
    }

    // What writev is given.
    method Offered() returns (bytes: seq<byte>)
      requires Valid()
      ensures bytes <= Content() && (bytes == [] <==> Content() == [])
      ensures NonEmpty(parts) <= MAX_WRITE_SLICES ==> bytes == Content()
    {
      var out, num, chunks := GetRawSlices(MAX_WRITE_SLICES);
      NonEmptyFlat(parts);
      bytes := Gather(out, chunks);
    }

    // The whole content, as seen through GetRawSlices.
    method Bytes() returns (bytes: seq<byte>)
      requires Valid()
      ensures bytes == Content()
    {
      var out, num, chunks := GetRawSlices(|slices|);
      NonEmptyBound(parts);
      bytes := Gather(out, chunks);
    }

    // Sends some of the content: a prefix, and exactly that prefix is dropped.  `wanted` is what the
    // socket would take, or an error if negative.
    method Write(wanted: int) returns (result: int, sent: seq<byte>)
      requires Valid()
      modifies this, Blocks()
      ensures Valid() && Blocks() <= old(Blocks())
      ensures old(Content()) == sent + Content()
      ensures |sent| == if result > 0 then result else 0
      ensures old(Content()) == [] ==> result == -1
      ensures old(Content()) != [] ==> result <= wanted && (wanted > 0 ==> result > 0)
      ensures NonEmpty(old(parts)) <= MAX_WRITE_SLICES && 0 < wanted <= |old(Content())| ==> result == wanted
    {
      var bytes := Offered();
      if bytes == [] {
        return -1, [];
      }
      result := if wanted > |bytes| then |bytes| else wanted;
      sent := [];
      if result > 0 {
        sent := bytes[..result];
        assert sent == Content()[..result];
        Drain(result);
      }
    }
  }

  // Piece j holds chunk j, and no chunk is empty.
  ghost predicate Holds(raws: seq<RawSlice>, chunks: seq<seq<byte>>)
    reads Memory(raws)
  {
    && |raws| == |chunks|
    && forall j {:trigger Stores(raws[j], chunks[j])} :: 0 <= j < |raws| ==>
         && raws[j] in raws && Stores(raws[j], chunks[j])
         && LengthOf(raws[j]) == |chunks[j]| > 0
  }

  lemma HoldsAppend(raws: seq<RawSlice>, chunks: seq<seq<byte>>, r: RawSlice, chunk: seq<byte>)
    requires Holds(raws, chunks) && Stores(r, chunk) && LengthOf(r) == |chunk| > 0
    ensures Holds(raws + [r], chunks + [chunk])
  {
    forall j | 0 <= j < |raws + [r]|
      ensures (raws + [r])[j] in raws + [r] && Stores((raws + [r])[j], (chunks + [chunk])[j])
      ensures LengthOf((raws + [r])[j]) == |(chunks + [chunk])[j]| > 0
    {
      assert j < |raws| ==> Stores(raws[j], chunks[j]);
    }
  }

  lemma {:induction false} NonEmptyFlat(parts: seq<seq<byte>>)
    ensures NonEmpty(parts) == 0 <==> Flat(parts) == []
  {
    if parts != [] {
      var n := |parts| - 1;
      NonEmptyFlat(parts[..n]);
      FlatPrefix(parts, n);
      assert parts[..n + 1] == parts;
    }
  }

  lemma {:induction false} NonEmptyBound(parts: seq<seq<byte>>)
    ensures NonEmpty(parts) <= |parts|
  {
    if parts != [] {
      NonEmptyBound(parts[..|parts| - 1]);
    }
  }

  // The bytes writev sees, in order.
  method Gather(raws: seq<RawSlice>, ghost chunks: seq<seq<byte>>) returns (bytes: seq<byte>)
    requires Holds(raws, chunks)
    ensures bytes == Flat(chunks) && (raws == [] <==> bytes == [])
  {
    bytes := [];
    var i := 0;
    while i < |raws|
      invariant i <= |raws| && bytes == Flat(chunks[..i]) && (i > 0 ==> bytes != [])
    {
      FlatPrefix(chunks, i);
      assert Stores(raws[i], chunks[i]);
      bytes := bytes + raws[i].base[raws[i].offset..raws[i].offset + raws[i].len];
      i := i + 1;
    }
    assert chunks[..i] == chunks;
  }
}
