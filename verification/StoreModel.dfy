/** The object store as values: the object table, the logical contents of the blocks and the set of
    used blocks. The store represents a map from object ids to named byte strings. */
module StoreModel {
  import opened Blocks
  import opened KeyTable
  import opened Unfolding

  datatype Store = Store(blocks: seq<BlockView>, used: set<int>, objs: seq<Object>)

  /** A place that holds a block number: one of an object's four indirect pointers, or an entry of an
      indirect block. */
  datatype Slot = Ind(x: int, c: int) | Data(x: int, c: int, e: int)

  /** The byte position in its object of the data block behind entry e of indirect block c. */
  function Position(c: int, e: int): int {
    c * 4194304 + e * 4096
  }

  predicate InRange(s: Store, sl: Slot) {
    && 0 <= sl.x < |s.objs| && |s.objs[sl.x].ptrs| == 4 && 0 <= sl.c < 4
    && (sl.Data? ==> 0 <= sl.e < POINTERS)
  }

  /** The data block behind entry e of indirect block c starts before the end of an object of this size. */
  predicate StartsBefore(size: int, c: int, e: int) {
    Position(c, e) < size
  }

  ghost predicate IsExtent(size: int, c: int, n: int) {
    0 <= n <= POINTERS && forall e | 0 <= e < POINTERS :: StartsBefore(size, c, e) <==> e < n
  }

  lemma ExtentExists(size: int, c: int)
    ensures exists n :: IsExtent(size, c, n)
  {
    var rest := size - Position(c, 0);
    var n := if rest <= 0 then 0 else if rest >= 4194304 then 1024 else (rest + 4095) / 4096;
    assert IsExtent(size, c, n);
  }

  /** How many entries of indirect block c an object of the given size uses. */
  ghost function Extent(size: int, c: int): (n: int)
    ensures 0 <= n <= POINTERS
  {
    ExtentExists(size, c);
    var n :| IsExtent(size, c, n);
    n
  }

  /** Whether an object of the given size has a block at this place. */
  ghost predicate Spans(size: int, sl: Slot) {
    (if sl.Ind? then 0 else sl.e) < Extent(size, sl.c)
  }

  lemma SpansMeaning(size: int, sl: Slot)
    requires sl.Data? ==> 0 <= sl.e < POINTERS
    ensures Spans(size, sl) <==> if sl.Ind? then StartsBefore(size, sl.c, 0) else StartsBefore(size, sl.c, sl.e)
  {
  }

  lemma EmptySpansNothing(sl: Slot)
    requires sl.c >= 0 && (sl.Data? ==> 0 <= sl.e < POINTERS)
    ensures !Spans(0, sl)
  {
    SpansMeaning(0, sl);
  }

  ghost predicate InUse(s: Store, sl: Slot) {
    InRange(s, sl) && Live(s.objs, sl.x) && Spans(s.objs[sl.x].size, sl)
  }

  /** Entry e of indirect block p. */
  function Entry(s: Store, p: int, e: int): int
    requires 0 <= e < POINTERS
  {
    if 0 <= p < |s.blocks| then s.blocks[p].entries[e] else -1
  }

  /** The block number stored in a slot. */
  function At(s: Store, sl: Slot): int
    requires InRange(s, sl)
  {
    var p := s.objs[sl.x].ptrs[sl.c];
    if sl.Ind? then p else Entry(s, p, sl.e)
  }

  // ----- the invariant of every reachable store -----

  /** The blocks of live objects are allocated, and no block is in two places. */
  ghost predicate Owned(s: Store) {
    && (forall sl | InUse(s, sl) :: At(s, sl) in s.used)
    && (forall sl, sl' | InUse(s, sl) && InUse(s, sl') && At(s, sl) == At(s, sl') :: sl == sl')
  }

  ghost predicate Owns(s: Store, x: int, b: int) {
    exists sl :: InUse(s, sl) && sl.x == x && At(s, sl) == b
  }

  /** Pointers form a dense prefix: beyond the object's size there is only -1. */
  ghost predicate DenseObject(s: Store, x: int) {
    && (forall c | InRange(s, Ind(x, c)) && !InUse(s, Ind(x, c)) :: At(s, Ind(x, c)) == -1)
    && (forall c, e | InRange(s, Data(x, c, e)) && InUse(s, Ind(x, c)) && !InUse(s, Data(x, c, e)) ::
          At(s, Data(x, c, e)) == -1)
  }

  ghost predicate Inv(s: Store) {
    && IsTable(s.objs) && DistinctKeys(s.objs)
    && (forall b | b in s.used :: DATA_BLOCKS_START <= b < |s.blocks|)
    && (forall x | Live(s.objs, x) :: 0 <= s.objs[x].size <= MAX_OBJECT && DenseObject(s, x))
    && Owned(s)
  }

  /** Every used block belongs to a live object. */
  ghost predicate NoLeak(s: Store) {
    forall b | b in s.used :: exists sl :: InUse(s, sl) && At(s, sl) == b
  }

  // ----- what a store represents -----

  datatype File = File(key: Key, bytes: seq<Byte>)
  type Files = map<int, File>

  /** Byte i of the data block behind entry e of indirect block c. */
  datatype Place = Place(c: int, e: int, i: int)

  predicate IsPlaceOf(p: Place, k: int) {
    0 <= p.c < 4 && 0 <= p.e < POINTERS && 0 <= p.i < BLOCK_SIZE && k == Position(p.c, p.e) + p.i
  }

  lemma PlaceExists(k: int)
    requires 0 <= k < MAX_OBJECT
    ensures exists p :: IsPlaceOf(p, k)
  {
    assert IsPlaceOf(Place(k / 4194304, k % 4194304 / 4096, k % 4096), k);
  }

  lemma PlaceUnique(p: Place, p': Place, k: int)
    requires IsPlaceOf(p, k) && IsPlaceOf(p', k)
    ensures p == p'
  {
  }

  ghost function PlaceOf(k: int): (p: Place)
    requires 0 <= k < MAX_OBJECT
    ensures IsPlaceOf(p, k)
  {
    PlaceExists(k);
    var p :| IsPlaceOf(p, k);
    p
  }

  predicate Readable(s: Store, x: int) {
    0 <= x < |s.objs| && |s.objs[x].ptrs| == 4 && 0 <= s.objs[x].size <= MAX_OBJECT
  }

  function ContentsOf(s: Store, sl: Slot): seq<Byte>
    requires InRange(s, sl)
  {
    if 0 <= At(s, sl) < |s.blocks| then s.blocks[At(s, sl)].raw else []
  }

  ghost function ByteAt(s: Store, x: int, k: int): Byte
    requires Readable(s, x) && 0 <= k < s.objs[x].size
  {
    var p := PlaceOf(k);
    var b := ContentsOf(s, Data(x, p.c, p.e));
    if p.i < |b| then b[p.i] else 0
  }

  ghost function Bytes(s: Store, x: int): (r: seq<Byte>)
    requires Readable(s, x)
    ensures |r| == s.objs[x].size
  {
    seq(s.objs[x].size, k requires 0 <= k < s.objs[x].size => ByteAt(s, x, k))
  }

  predicate LiveId(objs: seq<Object>, id: int) {
    Live(objs, id - 2)
  }

  ghost predicate AllReadable(s: Store) {
    forall x | Live(s.objs, x) :: Readable(s, x)
  }

  ghost function Abs(s: Store): (r: Files)
    requires AllReadable(s)
  {
    map id | 2 <= id < |s.objs| + 2 && LiveId(s.objs, id) ::
      File(s.objs[id - 2].key, Bytes(s, id - 2))
  }

  lemma EmptyStore(s: Store)
    requires IsTable(s.objs) && (forall x | 0 <= x < |s.objs| :: s.objs[x].id == 0) && s.used == {}
    ensures Inv(s) && NoLeak(s) && Abs(s) == map[]
  {
    assert forall x :: !Live(s.objs, x);
  }

  /** Object x of s and object x' of s' have the same data blocks contents. */
  ghost predicate SameData(s: Store, x: int, s': Store, x': int) {
    && Readable(s, x) && Readable(s', x') && s'.objs[x'].size == s.objs[x].size
    && forall c, e | InRange(s, Data(x, c, e)) && Spans(s.objs[x].size, Data(x, c, e)) ::
         ContentsOf(s', Data(x', c, e)) == ContentsOf(s, Data(x, c, e))
  }

  lemma SameByte(s: Store, x: int, s': Store, x': int, k: int)
    requires SameData(s, x, s', x') && 0 <= k < s.objs[x].size
    ensures ByteAt(s', x', k) == ByteAt(s, x, k)
  {
    var p := PlaceOf(k);
    SpansMeaning(s.objs[x].size, Data(x, p.c, p.e));
    assert ContentsOf(s', Data(x', p.c, p.e)) == ContentsOf(s, Data(x, p.c, p.e));
  }

  lemma SameBytes(s: Store, x: int, s': Store, x': int)
    requires SameData(s, x, s', x')
    ensures Bytes(s', x') == Bytes(s, x)
  {
    forall k | 0 <= k < s.objs[x].size
      ensures Bytes(s', x')[k] == Bytes(s, x)[k]
    {
      SameByte(s, x, s', x', k);
    }
  }

  lemma AbsAt(s: Store, id: int)
    requires AllReadable(s)
    ensures id in Abs(s) <==> LiveId(s.objs, id)
    ensures id in Abs(s) ==> Abs(s)[id] == File(s.objs[id - 2].key, Bytes(s, id - 2))
  {
  }

  /** Stores that differ in one live object only. */
  lemma AbsAfterUpdate(s: Store, s': Store, x: int)
    requires AllReadable(s) && AllReadable(s') && Live(s'.objs, x)
    requires forall y | y != x :: Live(s'.objs, y) <==> Live(s.objs, y)
    requires forall y | Live(s.objs, y) && y != x :: s'.objs[y].key == s.objs[y].key && Bytes(s', y) == Bytes(s, y)
    ensures Abs(s') == Abs(s)[x + 2 := File(s'.objs[x].key, Bytes(s', x))]
  {
    var f := Abs(s)[x + 2 := File(s'.objs[x].key, Bytes(s', x))];
    forall id
      ensures id in Abs(s') <==> id in f
      ensures id in Abs(s') && id in f ==> Abs(s')[id] == f[id]
    {
      AbsAt(s, id);
      AbsAt(s', id);
    }
  }

  /** Stores that differ in the absence of one object only. */
  lemma AbsAfterRemoval(s: Store, s': Store, x: int)
    requires AllReadable(s) && AllReadable(s')
    requires forall y :: Live(s'.objs, y) <==> Live(s.objs, y) && y != x
    requires forall y | Live(s'.objs, y) :: s'.objs[y].key == s.objs[y].key && Bytes(s', y) == Bytes(s, y)
    ensures Abs(s') == Abs(s) - {x + 2}
  {
    forall id
      ensures id in Abs(s') <==> id in Abs(s) - {x + 2}
      ensures id in Abs(s') ==> Abs(s')[id] == Abs(s)[id]
    {
      AbsAt(s, id);
      AbsAt(s', id);
    }
  }

  // ----- write -----

  function Clipped(want: nat, offset: nat): int {
    if want > MAX_OBJECT - offset then MAX_OBJECT - offset else want
  }

  /** The part of buf from position k on that fills one block, padded with zeros. */
  function BlockFrom(buf: seq<Byte>, k: nat): Block {
    seq(BLOCK_SIZE, i requires 0 <= i < BLOCK_SIZE => if k + i < |buf| then buf[k + i] else 0)
  }

  lemma BlockFromAt(buf: seq<Byte>, k: nat, i: nat)
    requires i < BLOCK_SIZE && k + i < |buf|
    ensures BlockFrom(buf, k)[i] == buf[k + i]
  {
  }

  /** Only the size and pointers of object x differ. */
  ghost predicate Resized(s: Store, x: int, size: int, s': Store) {
    && |s'.blocks| == |s.blocks| && IsTable(s'.objs) && 0 <= x < |s.objs| == |s'.objs|
    && s'.objs == s.objs[x := s.objs[x].(size := size, ptrs := s'.objs[x].ptrs)]
  }

  /** Object x keeps the blocks it had and otherwise gets blocks that were free. */
  ghost predicate SlotsKept(s: Store, x: int, s': Store) {
    forall sl | InUse(s', sl) && sl.x == x ::
      if InUse(s, sl) then At(s', sl) == At(s, sl) else At(s', sl) in s'.used - s.used
  }

  /** Block b is an indirect block of object x, or one of its data blocks at or after offset. */
  ghost predicate RewrittenIn(x: int, offset: nat, s': Store, b: int) {
    exists sl :: InUse(s', sl) && sl.x == x && At(s', sl) == b && (sl.Data? ==> Position(sl.c, sl.e) >= offset)
  }

  ghost predicate Untouched(s: Store, x: int, offset: nat, s': Store) {
    && |s'.blocks| == |s.blocks|
    && forall b | b in s.used && 0 <= b < |s.blocks| ::
         s'.blocks[b] == s.blocks[b] || RewrittenIn(x, offset, s', b)
  }

  ghost predicate DataWritten(x: int, data: seq<Byte>, offset: nat, s': Store) {
    forall c, e | InUse(s', Data(x, c, e)) && Position(c, e) >= offset ::
      ContentsOf(s', Data(x, c, e)) == BlockFrom(data, Position(c, e) - offset)
  }

  /** Two slots that object x did not have before do not share a block. */
  ghost predicate NewSlotsDiffer(s: Store, x: int, s': Store, sl: Slot, sl': Slot) {
    InUse(s', sl) && InUse(s', sl') && sl.x == sl'.x == x && At(s', sl) == At(s', sl') ==>
      InUse(s, sl) || InUse(s, sl') || sl == sl'
  }

  /** New blocks belong to object x, each to one slot. */
  ghost predicate NewBlocks(s: Store, x: int, s': Store) {
    && s.used <= s'.used
    && (forall b | b in s'.used && b !in s.used :: DATA_BLOCKS_START <= b < |s.blocks| && Owns(s', x, b))
    && (forall sl, sl' :: NewSlotsDiffer(s, x, s', sl, sl'))
  }

  /** What writing data at offset has done to the blocks and pointers of object x once the object
      reaches up to size: objstore_write gets there one indirect block at a time. */
  ghost predicate WrittenUpTo(s: Store, x: int, data: seq<Byte>, offset: nat, size: int, s': Store) {
    && Resized(s, x, size, s') && DenseObject(s', x)
    && SlotsKept(s, x, s') && NewBlocks(s, x, s')
    && DataWritten(x, data, offset, s') && Untouched(s, x, offset, s')
  }

  ghost predicate WrittenOut(s: Store, x: int, data: seq<Byte>, offset: nat, s': Store) {
    WrittenUpTo(s, x, data, offset, offset + |data|, s')
  }

  ghost predicate IsWritten(b: bool, s: Store, x: int, data: seq<Byte>, offset: nat, s': Store) {
    forall k {:trigger Unfold(InWrite, k)} :: Unfold(InWrite, k) ==> (b <==> WrittenOut(s, x, data, offset, s'))
  }

  /** Data has been written to object x at offset: WrittenOut, kept closed. */
  ghost predicate Written(s: Store, x: int, data: seq<Byte>, offset: nat, s': Store) {
    assert IsWritten(WrittenOut(s, x, data, offset, s'), s, x, data, offset, s');
    var b: bool :| IsWritten(b, s, x, data, offset, s');
    b
  }

  lemma OpenWritten(s: Store, x: int, data: seq<Byte>, offset: nat, s': Store)
    requires Written(s, x, data, offset, s')
    ensures WrittenOut(s, x, data, offset, s')
  {
    assert Unfold(InWrite, 0);
  }

  lemma CloseWritten(s: Store, x: int, data: seq<Byte>, offset: nat, s': Store)
    requires WrittenOut(s, x, data, offset, s')
    ensures Written(s, x, data, offset, s')
  {
    assert Unfold(InWrite, 0);
  }

  lemma WrittenTable(s: Store, x: int, data: seq<Byte>, offset: nat, s': Store)
    requires Written(s, x, data, offset, s') && Live(s.objs, x)
    ensures Live(s'.objs, x) && s'.objs[x].size == offset + |data| && s'.objs[x].key == s.objs[x].key
    ensures forall y :: Live(s'.objs, y) <==> Live(s.objs, y)
  {
    OpenWritten(s, x, data, offset, s');
  }

  lemma NotRewritten(s: Store, x: int, offset: nat, s': Store, sl: Slot)
    requires Owned(s) && SlotsKept(s, x, s') && Untouched(s, x, offset, s')
    requires InUse(s, sl) && 0 <= At(s, sl) < |s.blocks|
    requires sl.x == x ==> InUse(s', sl) && sl.Data? && Position(sl.c, sl.e) < offset
    ensures s'.blocks[At(s, sl)] == s.blocks[At(s, sl)]
  {
    forall sl' | InUse(s', sl') && sl'.x == x && sl' != sl
      ensures At(s', sl') != At(s, sl)
    {
      assert InUse(s, sl') ==> At(s', sl') == At(s, sl');
    }
  }

  /** A write leaves every block of every other object where it was and as it was. */
  lemma WriteSparesOthers(s: Store, x: int, data: seq<Byte>, offset: nat, s': Store, sl: Slot)
    requires Inv(s) && Live(s.objs, x) && WrittenOut(s, x, data, offset, s')
    requires InRange(s, sl) && sl.x != x && (InUse(s, sl) || InUse(s, Ind(sl.x, sl.c)))
    ensures At(s', sl) == At(s, sl) && (InUse(s', sl) <==> InUse(s, sl))
    ensures InUse(s, sl) ==> s'.blocks[At(s, sl)] == s.blocks[At(s, sl)]
  {
    assert InUse(s, Ind(sl.x, sl.c));
    NotRewritten(s, x, offset, s', Ind(sl.x, sl.c));
    assert s'.objs[sl.x] == s.objs[sl.x];
    if InUse(s, sl) {
      NotRewritten(s, x, offset, s', sl);
    }
  }

  lemma WriteKeepsInv(s: Store, x: int, data: seq<Byte>, offset: nat, s': Store)
    requires Inv(s) && Live(s.objs, x) && Written(s, x, data, offset, s') && offset + |data| <= MAX_OBJECT
    ensures Inv(s')
  {
    OpenWritten(s, x, data, offset, s');
    forall sl | InUse(s', sl) && sl.x != x
      ensures InUse(s, sl) && At(s', sl) == At(s, sl)
    {
      assert InUse(s, sl);
      WriteSparesOthers(s, x, data, offset, s', sl);
    }
    forall y | Live(s'.objs, y) && y != x
      ensures DenseObject(s', y)
    {
      assert DenseObject(s, y);
      forall c, e | InRange(s', Data(y, c, e)) && InUse(s', Ind(y, c)) && !InUse(s', Data(y, c, e))
        ensures At(s', Data(y, c, e)) == -1
      {
        WriteSparesOthers(s, x, data, offset, s', Data(y, c, e));
      }
    }
    forall sl, sl' | InUse(s', sl) && InUse(s', sl') && At(s', sl) == At(s', sl')
      ensures sl == sl'
    {
      assert NewSlotsDiffer(s, x, s', sl, sl');
    }
  }

  lemma WriteSparesObject(s: Store, x: int, data: seq<Byte>, offset: nat, s': Store, y: int)
    requires Inv(s) && Live(s.objs, x) && WrittenOut(s, x, data, offset, s')
    requires Live(s.objs, y) && y != x
    ensures SameData(s, y, s', y)
  {
    forall c, e | InUse(s, Data(y, c, e))
      ensures ContentsOf(s', Data(y, c, e)) == ContentsOf(s, Data(y, c, e))
    {
      WriteSparesOthers(s, x, data, offset, s', Data(y, c, e));
    }
  }

  /** What object x looks like afterwards, block by block. */
  lemma WrittenBlock(s: Store, x: int, data: seq<Byte>, offset: nat, s': Store, sl: Slot)
    requires Owned(s) && SlotsKept(s, x, s') && Untouched(s, x, offset, s') && DataWritten(x, data, offset, s')
    requires InUse(s', sl) && sl.x == x && sl.Data?
    requires Position(sl.c, sl.e) < offset ==> InUse(s, sl) && 0 <= At(s, sl) < |s.blocks|
    requires InRange(s, sl)
    ensures BlockWritten(s, data, offset, s', sl)
  {
    if Position(sl.c, sl.e) < offset {
      NotRewritten(s, x, offset, s', sl);
    } else {
      assert InUse(s', Data(x, sl.c, sl.e));
    }
  }

  /** A block lies on one side of an aligned offset. */
  ghost predicate Splits(offset: int, k: int)
    requires 0 <= k < MAX_OBJECT
  {
    k < offset <==> Position(PlaceOf(k).c, PlaceOf(k).e) < offset
  }

  lemma AlignedSplits(offset: int, k: int)
    requires offset % 4096 == 0 && 0 <= k < MAX_OBJECT
    ensures Splits(offset, k)
  {
    var p := PlaceOf(k);
    assert offset == offset / 4096 * 4096 && Position(p.c, p.e) == (p.c * 1024 + p.e) * 4096;
    WholeBlocksBefore(p.c * 1024 + p.e, p.i, offset / 4096);
  }

  lemma WholeBlocksBefore(q: int, i: int, blocks: int)
    requires 0 <= i < 4096
    ensures q * 4096 + i < blocks * 4096 <==> q < blocks
  {
  }

  ghost predicate BlockWritten(s: Store, data: seq<Byte>, offset: nat, s': Store, sl: Slot) {
    && InRange(s, sl) && InRange(s', sl) && sl.Data?
    && ContentsOf(s', sl) ==
         if Position(sl.c, sl.e) < offset then ContentsOf(s, sl) else BlockFrom(data, Position(sl.c, sl.e) - offset)
  }

  ghost predicate AllWritten(s: Store, x: int, data: seq<Byte>, offset: nat, s': Store) {
    && Readable(s, x) && Readable(s', x) && offset <= s.objs[x].size && s'.objs[x].size == offset + |data|
    && forall c, e | InRange(s', Data(x, c, e)) && Position(c, e) < offset + |data| ::
         BlockWritten(s, data, offset, s', Data(x, c, e))
  }

  lemma WrittenByte(s: Store, x: int, data: seq<Byte>, offset: nat, s': Store, k: int)
    requires Readable(s, x) && Readable(s', x) && offset <= s.objs[x].size && s'.objs[x].size == offset + |data|
    requires 0 <= k < offset + |data| && Splits(offset, k)
    requires BlockWritten(s, data, offset, s', Data(x, PlaceOf(k).c, PlaceOf(k).e))
    ensures ByteAt(s', x, k) == if k < offset then ByteAt(s, x, k) else data[k - offset]
  {
    var p := PlaceOf(k);
    if k >= offset {
      BlockFromAt(data, Position(p.c, p.e) - offset, p.i);
    }
  }

  lemma WrittenBytes(s: Store, x: int, data: seq<Byte>, offset: nat, s': Store)
    requires AllWritten(s, x, data, offset, s') && offset % 4096 == 0
    ensures Bytes(s', x) == Bytes(s, x)[..offset] + data
  {
    forall k | 0 <= k < offset + |data|
      ensures ByteAt(s', x, k) == (Bytes(s, x)[..offset] + data)[k]
    {
      WrittenByteOf(s, x, data, offset, s', k);
    }
    BytesAre(s', x, Bytes(s, x)[..offset] + data);
  }

  lemma BytesAre(s: Store, x: int, r: seq<Byte>)
    requires Readable(s, x) && |r| == s.objs[x].size && forall k | 0 <= k < |r| :: ByteAt(s, x, k) == r[k]
    ensures Bytes(s, x) == r
  {
  }

  lemma WrittenByteOf(s: Store, x: int, data: seq<Byte>, offset: nat, s': Store, k: int)
    requires AllWritten(s, x, data, offset, s') && offset % 4096 == 0 && 0 <= k < offset + |data|
    ensures ByteAt(s', x, k) == if k < offset then ByteAt(s, x, k) else data[k - offset]
  {
    AlignedSplits(offset, k);
    assert BlockWritten(s, data, offset, s', Data(x, PlaceOf(k).c, PlaceOf(k).e));
    WrittenByte(s, x, data, offset, s', k);
  }

  lemma WriteReachesAll(s: Store, x: int, data: seq<Byte>, offset: nat, s': Store)
    requires Inv(s) && Live(s.objs, x) && WrittenOut(s, x, data, offset, s')
    requires offset <= s.objs[x].size && offset + |data| <= MAX_OBJECT
    ensures AllWritten(s, x, data, offset, s')
  {
    forall c, e | InRange(s', Data(x, c, e)) && Position(c, e) < offset + |data|
      ensures BlockWritten(s, data, offset, s', Data(x, c, e))
    {
      SpansMeaning(offset + |data|, Data(x, c, e));
      SpansMeaning(s.objs[x].size, Data(x, c, e));
      WrittenBlock(s, x, data, offset, s', Data(x, c, e));
    }
  }

  lemma WriteSparesBytes(s: Store, x: int, data: seq<Byte>, offset: nat, s': Store, y: int)
    requires Inv(s) && Live(s.objs, x) && WrittenOut(s, x, data, offset, s')
    requires Live(s.objs, y) && y != x
    ensures Live(s'.objs, y) && s'.objs[y].key == s.objs[y].key && Readable(s', y) && Bytes(s', y) == Bytes(s, y)
  {
    WriteSparesObject(s, x, data, offset, s', y);
    SameBytes(s, y, s', y);
  }

  /** objstore_write on the map: the object keeps its bytes before offset and ends with the new data. */
  lemma WriteRefines(s: Store, x: int, data: seq<Byte>, offset: nat, s': Store)
    requires Inv(s) && Live(s.objs, x) && Written(s, x, data, offset, s')
    requires offset <= s.objs[x].size && offset + |data| <= MAX_OBJECT && offset % 4096 == 0
    ensures Inv(s')
    ensures Abs(s') == Abs(s)[x + 2 := File(s.objs[x].key, Bytes(s, x)[..offset] + data)]
  {
    OpenWritten(s, x, data, offset, s');
    WriteKeepsInv(s, x, data, offset, s');
    forall y | Live(s.objs, y) && y != x
      ensures s'.objs[y].key == s.objs[y].key && Bytes(s', y) == Bytes(s, y)
    {
      WriteSparesBytes(s, x, data, offset, s', y);
    }
    WriteReachesAll(s, x, data, offset, s');
    WrittenBytes(s, x, data, offset, s');
    AbsAfterUpdate(s, s', x);
  }

  function BlocksFor(size: int): int {
    (size + 4095) / 4096
  }

  /** Which slots an object has depends on its number of blocks only. */
  lemma SpansByBlocks(size: int, sl: Slot)
    requires 0 <= sl.c && (sl.Data? ==> 0 <= sl.e < POINTERS)
    ensures Spans(size, sl) <==> (if sl.Ind? then sl.c * 1024 else sl.c * 1024 + sl.e) < BlocksFor(size)
  {
    SpansMeaning(size, sl);
  }

  /** Some place has a block in an object of the first size but not in one of the second. */
  ghost predicate LosesBlock(size: int, size': int) {
    exists c, e :: 0 <= c < 4 && 0 <= e < POINTERS && Spans(size, Data(0, c, e)) && !Spans(size', Data(0, c, e))
  }

  lemma LosesBlockIff(size: int, size': int)
    requires 0 <= size' && size <= MAX_OBJECT
    ensures LosesBlock(size, size') <==> BlocksFor(size') < BlocksFor(size)
  {
    if BlocksFor(size') < BlocksFor(size) {
      var c, e := BlocksFor(size') / 1024, BlocksFor(size') % 1024;
      SpansByBlocks(size, Data(0, c, e));
      SpansByBlocks(size', Data(0, c, e));
    } else {
      forall c, e | 0 <= c < 4 && 0 <= e < POINTERS && Spans(size, Data(0, c, e))
        ensures Spans(size', Data(0, c, e))
      {
        SpansByBlocks(size, Data(0, c, e));
        SpansByBlocks(size', Data(0, c, e));
      }
    }
  }

  lemma KeepsOwnSlot(s: Store, x: int, size: int, s': Store, sl: Slot)
    requires Resized(s, x, size, s') && InUse(s, sl) && sl.x == x && !LosesBlock(s.objs[x].size, size)
    ensures InUse(s', sl)
  {
    var e := if sl.Ind? then 0 else sl.e;
    assert Spans(s.objs[x].size, Data(0, sl.c, e));
    assert Spans(size, Data(0, sl.c, e));
  }

  lemma LostSlot(s: Store, x: int, size: int, s': Store) returns (sl: Slot)
    requires Resized(s, x, size, s') && IsTable(s.objs) && Live(s.objs, x) && LosesBlock(s.objs[x].size, size)
    ensures InUse(s, sl) && sl.x == x && !InUse(s', sl)
  {
    var c, e :| 0 <= c < 4 && 0 <= e < POINTERS && Spans(s.objs[x].size, Data(0, c, e)) &&
                !Spans(size, Data(0, c, e));
    sl := Data(x, c, e);
  }

  lemma WriteKeepsSlot(s: Store, x: int, data: seq<Byte>, offset: nat, s': Store, sl: Slot)
    requires Inv(s) && Live(s.objs, x) && WrittenOut(s, x, data, offset, s') && InUse(s, sl)
    requires !LosesBlock(s.objs[x].size, offset + |data|)
    ensures InUse(s', sl) && At(s', sl) == At(s, sl)
  {
    if sl.x != x {
      WriteSparesOthers(s, x, data, offset, s', sl);
    } else {
      KeepsOwnSlot(s, x, offset + |data|, s', sl);
    }
  }

  lemma GrowingWriteKeepsNoLeak(s: Store, x: int, data: seq<Byte>, offset: nat, s': Store)
    requires Inv(s) && Live(s.objs, x) && WrittenOut(s, x, data, offset, s') && NoLeak(s)
    requires !LosesBlock(s.objs[x].size, offset + |data|)
    ensures NoLeak(s')
  {
    forall b | b in s'.used
      ensures exists sl :: InUse(s', sl) && At(s', sl) == b
    {
      if b in s.used {
        var sl :| InUse(s, sl) && At(s, sl) == b;
        WriteKeepsSlot(s, x, data, offset, s', sl);
      } else {
        assert Owns(s', x, b);
      }
    }
  }

  lemma ShrinkingWriteLeaks(s: Store, x: int, data: seq<Byte>, offset: nat, s': Store, sl: Slot)
    requires Inv(s) && Live(s.objs, x) && WrittenOut(s, x, data, offset, s')
    requires InUse(s, sl) && sl.x == x && !InUse(s', sl)
    ensures !NoLeak(s')
  {
    forall sl' | InUse(s', sl')
      ensures At(s', sl') != At(s, sl)
    {
      WriteSlotOrigin(s, x, data, offset, s', sl');
    }
    assert At(s, sl) in s'.used;
  }

  /** Blocks dropped by a shorter write are never freed: a write keeps "used means reachable" exactly
      when the object does not lose a block. */
  lemma WriteLeaksIff(s: Store, x: int, data: seq<Byte>, offset: nat, s': Store)
    requires Inv(s) && Live(s.objs, x) && Written(s, x, data, offset, s') && NoLeak(s)
    ensures NoLeak(s') <==> BlocksFor(offset + |data|) >= BlocksFor(s.objs[x].size)
  {
    OpenWritten(s, x, data, offset, s');
    LosesBlockIff(s.objs[x].size, offset + |data|);
    if LosesBlock(s.objs[x].size, offset + |data|) {
      var sl := LostSlot(s, x, offset + |data|, s');
      ShrinkingWriteLeaks(s, x, data, offset, s', sl);
    } else {
      GrowingWriteKeepsNoLeak(s, x, data, offset, s');
    }
  }

  lemma WriteSlotOrigin(s: Store, x: int, data: seq<Byte>, offset: nat, s': Store, sl: Slot)
    requires Inv(s) && Live(s.objs, x) && WrittenOut(s, x, data, offset, s') && InUse(s', sl)
    ensures if InUse(s, sl) then At(s', sl) == At(s, sl) else At(s', sl) !in s.used
  {
    if sl.x != x {
      assert InUse(s, sl);
      WriteSparesOthers(s, x, data, offset, s', sl);
    }
  }

  // ----- create, destroy, rename -----

  /** Two stores with the same blocks whose objects x and x' coincide up to name and id. */
  lemma SameSlots(s: Store, s': Store, x: int, x': int)
    requires InRange(s, Ind(x, 0)) && InRange(s', Ind(x', 0)) && Readable(s, x)
    requires s'.objs[x'].ptrs == s.objs[x].ptrs && s'.objs[x'].size == s.objs[x].size && s'.blocks == s.blocks
    ensures Readable(s', x') && Bytes(s', x') == Bytes(s, x)
  {
    SameBytes(s, x, s', x');
  }

  function Moved(sl: Slot, y: int): Slot {
    if sl.Ind? then Ind(y, sl.c) else Data(y, sl.c, sl.e)
  }

  lemma SameSlot(s: Store, s': Store, x: int, x': int, sl: Slot)
    requires InRange(s, sl) && InRange(s', Moved(sl, x')) && sl.x == x && Live(s.objs, x) && Live(s'.objs, x')
    requires s'.objs[x'].ptrs == s.objs[x].ptrs && s'.objs[x'].size == s.objs[x].size && s'.blocks == s.blocks
    ensures At(s', Moved(sl, x')) == At(s, sl) && (InUse(s', Moved(sl, x')) <==> InUse(s, sl))
  {
  }

  lemma SameDense(s: Store, s': Store, x: int, x': int)
    requires InRange(s, Ind(x, 0)) && InRange(s', Ind(x', 0)) && Live(s.objs, x) && Live(s'.objs, x')
    requires s'.objs[x'].ptrs == s.objs[x].ptrs && s'.objs[x'].size == s.objs[x].size && s'.blocks == s.blocks
    requires DenseObject(s, x)
    ensures DenseObject(s', x')
  {
    forall c | InRange(s', Ind(x', c)) && !InUse(s', Ind(x', c))
      ensures At(s', Ind(x', c)) == -1
    {
      SameSlot(s, s', x, x', Ind(x, c));
    }
    forall c, e | InRange(s', Data(x', c, e)) && InUse(s', Ind(x', c)) && !InUse(s', Data(x', c, e))
      ensures At(s', Data(x', c, e)) == -1
    {
      SameSlot(s, s', x, x', Ind(x, c));
      SameSlot(s, s', x, x', Data(x, c, e));
    }
  }

  lemma CreateKeepsOwned(s: Store, key: Key, objs': seq<Object>, x: int)
    requires Inv(s) && 0 <= x < TABLE_SIZE && !Live(s.objs, x) && objs' == s.objs[x := FreshObject(x, key)]
    ensures var s' := s.(objs := objs'); Owned(s') && (NoLeak(s) ==> NoLeak(s'))
  {
    var s' := s.(objs := objs');
    forall sl
      ensures InUse(s', sl) <==> InUse(s, sl)
    {
      if InRange(s', sl) && sl.x == x {
        EmptySpansNothing(sl);
      }
    }
    assert forall sl | InUse(s, sl) :: At(s', sl) == At(s, sl);
  }

  lemma CreateKeepsInv(s: Store, key: Key, objs': seq<Object>, id: int)
    requires Inv(s) && !Present(s.objs, key) && Created(s.objs, key, objs', id)
    ensures var s' := s.(objs := objs'); Inv(s') && (NoLeak(s) ==> NoLeak(s'))
  {
    CreateAbsent(s.objs, key, objs', id);
    var s' := s.(objs := objs');
    CreateKeepsOwned(s, key, objs', id - 2);
    forall y | Live(s.objs, y)
      ensures DenseObject(s', y)
    {
      SameDense(s, s', y, y);
    }
  }

  /** create_object on the map. */
  lemma CreateRefines(s: Store, key: Key, objs': seq<Object>, id: int)
    requires Inv(s) && !Present(s.objs, key) && Created(s.objs, key, objs', id)
    ensures var s' := s.(objs := objs');
      && Inv(s') && id !in Abs(s) && Abs(s') == Abs(s)[id := File(key, [])] && (NoLeak(s) ==> NoLeak(s'))
  {
    CreateKeepsInv(s, key, objs', id);
    CreateAbsent(s.objs, key, objs', id);
    CreatedOnMap(s, key, id - 2);
  }

  lemma CreatedOnMap(s: Store, key: Key, x: int)
    requires Inv(s) && 0 <= x < TABLE_SIZE && !Live(s.objs, x)
    ensures var s' := s.(objs := s.objs[x := FreshObject(x, key)]);
      AllReadable(s') && x + 2 !in Abs(s) && Abs(s') == Abs(s)[x + 2 := File(key, [])]
  {
    var s' := s.(objs := s.objs[x := FreshObject(x, key)]);
    forall y | Live(s.objs, y)
      ensures Bytes(s', y) == Bytes(s, y)
    {
      SameSlots(s, s', y, y);
    }
    AbsAfterUpdate(s, s', x);
  }

  /** What destroy_object does: exactly the blocks of object x are freed. */
  ghost predicate Destroyed(s: Store, x: int, s': Store) {
    && 0 <= x < |s.objs| && s'.objs == Removed(s.objs, x) && |s'.blocks| == |s.blocks|
    && (forall b :: b in s'.used <==> b in s.used && !Owns(s, x, b))
    && (forall b | b in s'.used && 0 <= b < |s.blocks| :: s'.blocks[b] == s.blocks[b])
  }

  /** Object x is gone, and nothing has changed but that some blocks may have been freed. */
  ghost predicate TakenOut(s: Store, x: int, s': Store) {
    && 0 <= x < |s.objs| && s'.objs == Removed(s.objs, x) && |s'.blocks| == |s.blocks|
    && (forall b | b in s'.used :: b in s.used)
    && (forall b | b in s'.used && 0 <= b < |s.blocks| :: s'.blocks[b] == s.blocks[b])
  }

  /** All blocks of the other objects are still in use. */
  ghost predicate OthersKept(s: Store, x: int, used: set<int>) {
    forall sl | InUse(s, sl) && sl.x != x :: At(s, sl) in used
  }

  lemma OthersUnmoved(s: Store, x: int, s': Store, sl: Slot)
    requires Inv(s) && TakenOut(s, x, s')
    requires InRange(s, sl) && sl.x != x && (sl.Ind? || InUse(s, Ind(sl.x, sl.c)))
    requires sl.Data? ==> At(s, Ind(sl.x, sl.c)) in s'.used
    ensures At(s', sl) == At(s, sl) && (InUse(s', sl) <==> InUse(s, sl))
    ensures InUse(s, sl) && At(s, sl) in s'.used ==> s'.blocks[At(s, sl)] == s.blocks[At(s, sl)]
  {
  }

  lemma KeepingOthersIsRight(s: Store, x: int, s': Store)
    requires Inv(s) && Live(s.objs, x) && TakenOut(s, x, s') && OthersKept(s, x, s'.used)
    ensures Inv(s')
  {
    forall sl | InUse(s', sl)
      ensures InUse(s, sl) && sl.x != x && At(s', sl) == At(s, sl) && At(s, sl) in s'.used
    {
      assert InUse(s, sl) && sl.x != x && InUse(s, Ind(sl.x, sl.c));
      OthersUnmoved(s, x, s', sl);
    }
    forall y | Live(s'.objs, y)
      ensures DenseObject(s', y)
    {
      assert DenseObject(s, y);
      forall c, e | InRange(s', Data(y, c, e)) && InUse(s', Ind(y, c)) && !InUse(s', Data(y, c, e))
        ensures At(s', Data(y, c, e)) == -1
      {
        assert InUse(s, Ind(y, c));
        OthersUnmoved(s, x, s', Data(y, c, e));
      }
    }
  }

  lemma LosingABlockIsWrong(s: Store, x: int, s': Store, sl: Slot)
    requires Inv(s) && TakenOut(s, x, s') && InUse(s, sl) && sl.x != x && At(s, sl) !in s'.used
    ensures !Inv(s')
  {
    var ind := Ind(sl.x, sl.c);
    assert InUse(s, ind);
    OthersUnmoved(s, x, s', ind);
    if At(s, ind) in s'.used {
      OthersUnmoved(s, x, s', sl);
    }
  }

  /** Taking an object out keeps the store well formed exactly when no block of another object is freed. */
  lemma TakenOutRightIff(s: Store, x: int, s': Store)
    requires Inv(s) && Live(s.objs, x) && TakenOut(s, x, s')
    ensures Inv(s') <==> OthersKept(s, x, s'.used)
  {
    if OthersKept(s, x, s'.used) {
      KeepingOthersIsRight(s, x, s');
    } else {
      var sl :| InUse(s, sl) && sl.x != x && At(s, sl) !in s'.used;
      LosingABlockIsWrong(s, x, s', sl);
    }
  }

  lemma DestroySparesOthers(s: Store, x: int, s': Store, sl: Slot)
    requires Inv(s) && Live(s.objs, x) && Destroyed(s, x, s')
    requires InRange(s, sl) && sl.x != x && (InUse(s, sl) || InUse(s, Ind(sl.x, sl.c)))
    ensures At(s', sl) == At(s, sl) && (InUse(s', sl) <==> InUse(s, sl))
    ensures InUse(s, sl) ==> At(s, sl) in s'.used && s'.blocks[At(s, sl)] == s.blocks[At(s, sl)]
  {
    assert InUse(s, Ind(sl.x, sl.c));
    assert !Owns(s, x, At(s, Ind(sl.x, sl.c)));
    assert InUse(s, sl) ==> !Owns(s, x, At(s, sl));
    OthersUnmoved(s, x, s', sl);
  }

  lemma DestroyKeepsInv(s: Store, x: int, s': Store)
    requires Inv(s) && Live(s.objs, x) && Destroyed(s, x, s')
    ensures Inv(s')
  {
    forall sl | InUse(s, sl) && sl.x != x
      ensures At(s, sl) in s'.used
    {
      assert !Owns(s, x, At(s, sl));
    }
    TakenOutRightIff(s, x, s');
  }

  lemma DestroySparesObject(s: Store, x: int, s': Store, y: int)
    requires Inv(s) && Live(s.objs, x) && Destroyed(s, x, s') && Live(s'.objs, y)
    ensures Live(s.objs, y) && y != x && SameData(s, y, s', y)
  {
    forall c, e | InUse(s, Data(y, c, e))
      ensures ContentsOf(s', Data(y, c, e)) == ContentsOf(s, Data(y, c, e))
    {
      DestroySparesOthers(s, x, s', Data(y, c, e));
    }
  }

  lemma DestroyKeepsNoLeak(s: Store, x: int, s': Store)
    requires Inv(s) && Live(s.objs, x) && Destroyed(s, x, s') && NoLeak(s)
    ensures NoLeak(s')
  {
    forall b | b in s'.used
      ensures exists sl :: InUse(s', sl) && At(s', sl) == b
    {
      var sl :| InUse(s, sl) && At(s, sl) == b;
      assert sl.x != x;
      DestroySparesOthers(s, x, s', sl);
    }
  }

  /** destroy_object on the map. */
  lemma DestroyRefines(s: Store, x: int, s': Store)
    requires Inv(s) && Live(s.objs, x) && Destroyed(s, x, s')
    ensures Inv(s') && Abs(s') == Abs(s) - {x + 2}
    ensures NoLeak(s) ==> NoLeak(s')
  {
    DestroyKeepsInv(s, x, s');
    forall y | Live(s'.objs, y)
      ensures Bytes(s', y) == Bytes(s, y)
    {
      DestroySparesObject(s, x, s', y);
      SameBytes(s, y, s', y);
    }
    AbsAfterRemoval(s, s', x);
    if NoLeak(s) {
      DestroyKeepsNoLeak(s, x, s');
    }
  }

  /** What rename_object does when it finds a hole y for the new name of object x. */
  function Renamed(s: Store, x: int, newName: Key, y: int): Store
    requires 0 <= x < |s.objs| && 0 <= y < |s.objs|
  {
    s.(objs := Removed(s.objs[y := Object(y + 2, s.objs[x].size, newName, s.objs[x].ptrs)], x))
  }

  /** The table after the contents of slot x have moved to slot y. */
  function TakenOver(objs: seq<Object>, x: int, y: int): seq<Object>
    requires 0 <= x < |objs| && 0 <= y < |objs|
  {
    objs[y := objs[y].(size := objs[x].size, ptrs := objs[x].ptrs)][x := objs[x].(id := 0)]
  }

  lemma RenamedByMove(s: Store, x: int, newName: Key, y: int, s': Store)
    requires 0 <= x < |s.objs| && 0 <= y < |s.objs| && x != y
    requires s' == s.(objs := TakenOver(s.objs[y := FreshObject(y, newName)], x, y))
    ensures s' == Renamed(s, x, newName, y)
  {
  }

  /** The object named key in s has become object id, named newName, in s'. */
  ghost predicate Moves(s: Store, key: Key, newName: Key, s': Store, id: int) {
    && 2 <= id < |s.objs| + 2 && !Live(s.objs, id - 2)
    && exists x :: Holds(s.objs, x, key) && s' == Renamed(s, x, newName, id - 2)
  }

  lemma MovedAway(s: Store, key: Key, newName: Key, s': Store, id: int, x: int)
    requires Inv(s) && Holds(s.objs, x, key) && Moves(s, key, newName, s', id)
    ensures |s'.objs| == |s.objs| && !Live(s'.objs, x) && Holds(s'.objs, id - 2, newName)
    ensures forall y | Live(s.objs, y) && y != x :: Holds(s'.objs, y, s.objs[y].key)
  {
    var z :| Holds(s.objs, z, key) && s' == Renamed(s, z, newName, id - 2);
    assert z == x;
  }

  lemma RenameMovesSlots(s: Store, x: int, newName: Key, y: int, sl: Slot)
    requires Inv(s) && Live(s.objs, x) && 0 <= y < TABLE_SIZE && !Live(s.objs, y)
    ensures var s' := Renamed(s, x, newName, y);
      && (InUse(s', sl) <==> if sl.x == y then InUse(s, Moved(sl, x)) else InUse(s, sl) && sl.x != x)
      && (InUse(s', sl) ==> At(s', sl) == At(s, if sl.x == y then Moved(sl, x) else sl))
  {
  }

  lemma RenameKeepsOwned(s: Store, x: int, newName: Key, y: int)
    requires Inv(s) && Live(s.objs, x) && 0 <= y < TABLE_SIZE && !Live(s.objs, y)
    ensures Owned(Renamed(s, x, newName, y))
  {
    var s' := Renamed(s, x, newName, y);
    forall sl
      ensures InUse(s', sl) <==> if sl.x == y then InUse(s, Moved(sl, x)) else InUse(s, sl) && sl.x != x
      ensures InUse(s', sl) ==> At(s', sl) == At(s, if sl.x == y then Moved(sl, x) else sl)
    {
      RenameMovesSlots(s, x, newName, y, sl);
    }
  }

  lemma RenameKeepsNoLeak(s: Store, x: int, newName: Key, y: int)
    requires Inv(s) && Live(s.objs, x) && 0 <= y < TABLE_SIZE && !Live(s.objs, y) && NoLeak(s)
    ensures NoLeak(Renamed(s, x, newName, y))
  {
    var s' := Renamed(s, x, newName, y);
    forall b | b in s'.used
      ensures exists sl :: InUse(s', sl) && At(s', sl) == b
    {
      var sl :| InUse(s, sl) && At(s, sl) == b;
      var sl' := if sl.x == x then Moved(sl, y) else sl;
      RenameMovesSlots(s, x, newName, y, sl');
    }
  }

  lemma RenameKeepsInv(s: Store, x: int, newName: Key, y: int)
    requires Inv(s) && Live(s.objs, x) && 0 <= y < TABLE_SIZE && !Live(s.objs, y)
    requires newName == s.objs[x].key || !Present(s.objs, newName)
    ensures Inv(Renamed(s, x, newName, y))
  {
    var s' := Renamed(s, x, newName, y);
    RenameKeepsOwned(s, x, newName, y);
    assert forall z | Live(s.objs, z) :: Holds(s.objs, z, s.objs[z].key);
    assert DistinctKeys(s'.objs);
    forall z | Live(s'.objs, z)
      ensures DenseObject(s', z)
    {
      SameDense(s, s', if z == y then x else z, z);
    }
  }

  /** A rename that goes through keeps the store well formed exactly when the new name was not that of another
      object. */
  lemma RenameRightIff(s: Store, x: int, newName: Key, y: int)
    requires Inv(s) && Live(s.objs, x) && 0 <= y < TABLE_SIZE && !Live(s.objs, y)
    ensures Inv(Renamed(s, x, newName, y)) <==> newName == s.objs[x].key || !Present(s.objs, newName)
  {
    if newName == s.objs[x].key || !Present(s.objs, newName) {
      RenameKeepsInv(s, x, newName, y);
    } else {
      var z :| Holds(s.objs, z, newName);
      var objs' := Renamed(s, x, newName, y).objs;
      assert Live(objs', y) && Live(objs', z) && objs'[y].key == objs'[z].key;
    }
  }

  /** rename_object on the map: the bytes move to a new id under the new name. */
  lemma RenameRefines(s: Store, x: int, newName: Key, y: int)
    requires Inv(s) && Live(s.objs, x) && 0 <= y < TABLE_SIZE && !Live(s.objs, y)
    requires newName == s.objs[x].key || !Present(s.objs, newName)
    ensures var s' := Renamed(s, x, newName, y);
      && Inv(s') && Abs(s') == (Abs(s) - {x + 2})[y + 2 := File(newName, Bytes(s, x))]
      && (NoLeak(s) ==> NoLeak(s'))
  {
    var s' := Renamed(s, x, newName, y);
    RenameKeepsInv(s, x, newName, y);
    SameSlots(s, s', x, y);
    forall z | Live(s.objs, z) && z != x
      ensures Bytes(s', z) == Bytes(s, z)
    {
      SameSlots(s, s', z, z);
    }
    var mid := s.(objs := Removed(s.objs, x));
    forall z | Live(mid.objs, z)
      ensures Bytes(mid, z) == Bytes(s, z)
    {
      SameSlots(s, mid, z, z);
    }
    AbsAfterRemoval(s, mid, x);
    AbsAfterUpdate(mid, s', y);
    if NoLeak(s) {
      RenameKeepsNoLeak(s, x, newName, y);
    }
  }
}
