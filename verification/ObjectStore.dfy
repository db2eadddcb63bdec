/** The object store of objstore.c as an object: the object table and the block device, updated in place. */
module ObjectStores {
  import opened Blocks
  import opened KeyTable
  import opened StoreModel
  import opened StoreWrite
  import opened StoreDestroy
  import opened BlockDevices
  import opened Unfolding
  import C = BlockCache
  import R = StoreRuns
  import Sets

  ghost function FreeBlocks(used: set<int>, blocks: int): set<int> {
    set b | DATA_BLOCKS_START <= b < blocks && b !in used
  }

  lemma TakeFree(used: set<int>, blocks: int, b: int)
    requires b in FreeBlocks(used, blocks)
    ensures |FreeBlocks(used + {b}, blocks)| == |FreeBlocks(used, blocks)| - 1
  {
    assert FreeBlocks(used + {b}, blocks) == FreeBlocks(used, blocks) - {b};
  }

  /** The blocks that buf, from offset on, provides for the entries from bo on. */
  ghost function BlocksOf(buf: seq<Byte>, offset: nat, bo: nat): (r: seq<seq<Byte>>)
    ensures |r| == 1024 && forall e | bo <= e < 1024 :: r[e] == BlockFrom(buf, offset + (e - bo) * 4096)
  {
    seq(1024, e requires 0 <= e < 1024 => BlockFrom(buf, if e < bo then 0 else offset + (e - bo) * 4096))
  }

  /** The parts of the data that objstore_write pairs with the entries of indirect block i. */
  ghost function Parts(data: seq<Byte>, offset: nat, i: int): (r: seq<seq<Byte>>)
    requires offset / 4194304 <= i
    ensures |r| == 1024
    ensures forall e | FirstEntry(offset, i) <= e < 1024 :: r[e] == BlockFrom(data, BufferPosition(offset, i, e))
  {
    seq(1024, e requires 0 <= e < 1024 =>
      if e < FirstEntry(offset, i) then [] else BlockFrom(data, BufferPosition(offset, i, e)))
  }

  lemma PartsOfBuffer(s: Store, r: int, data: seq<Byte>, offset: nat, i: int, hi: int, blocks: nat)
    requires offset / 4194304 <= i && 0 <= FirstEntry(offset, i) && |data| <= blocks * 4096
    requires ChunkData(s, r, FirstEntry(offset, i), hi,
                       BlocksOf(Padded(data, blocks), (i - offset / 4194304) * 4194304, FirstEntry(offset, i)))
    ensures ChunkData(s, r, FirstEntry(offset, i), hi, Parts(data, offset, i))
  {
    PaddedNews(data, blocks, (i - offset / 4194304) * 4194304, FirstEntry(offset, i));
  }

  lemma PaddedNews(data: seq<Byte>, blocks: nat, offset: nat, bo: nat)
    requires |data| <= blocks * 4096
    ensures forall e | bo <= e < 1024 ::
      BlocksOf(Padded(data, blocks), offset, bo)[e] == BlockFrom(data, offset + (e - bo) * 4096)
  {
    forall e | bo <= e < 1024
      ensures BlocksOf(Padded(data, blocks), offset, bo)[e] == BlockFrom(data, offset + (e - bo) * 4096)
    {
      PaddedBlocks(data, blocks, offset + (e - bo) * 4096);
    }
  }

  lemma ChunkParts(data: seq<Byte>, offset: nat, i: int)
    requires offset % 4096 == 0 && offset / 4194304 <= i < 4
    ensures forall e | FirstEntry(offset, i) <= e < 1024 ::
      Position(i, e) >= offset && Parts(data, offset, i)[e] == BlockFrom(Kept(data, offset), Position(i, e) - offset)
  {
    forall e | FirstEntry(offset, i) <= e < 1024
      ensures Position(i, e) >= offset
      ensures Parts(data, offset, i)[e] == BlockFrom(Kept(data, offset), Position(i, e) - offset)
    {
      KeptBlock(data, offset, i, e);
    }
  }

  lemma LoopReached(s0: Store, x: int, data: seq<Byte>, offset: nat, i: int, s: Store)
    requires offset % 4096 == 0 && data != [] && offset + |data| <= MAX_OBJECT
    requires offset / 4194304 <= i && More(offset, |data|, i)
    requires LoopState(s0, x, Kept(data, offset), offset, i, SizeAt(offset, |Kept(data, offset)|, i), s)
    ensures Reached(s0, x, Kept(data, offset), offset, i, s)
  {
    LoopAimKept(data, offset, i);
    OpenLoop(s0, x, Kept(data, offset), offset, i, i * 4194304, s);
  }

  /** Writing one more indirect block, in terms of what write_indirect_block promises. */
  lemma ChunkAdvances(s0: Store, x: int, data: seq<Byte>, offset: nat, i: int, s: Store, s1: Store, r: int)
    requires offset % 4096 == 0 && data != [] && offset + |data| <= MAX_OBJECT
    requires offset / 4194304 <= i && More(offset, |data|, i)
    requires Reached(s0, x, Kept(data, offset), offset, i, s)
    requires var bo, hi := FirstEntry(offset, i), Extent(offset + |Kept(data, offset)|, i);
      && ChunkWritten(s, s1, s0.objs[x].ptrs[i], r, bo, Extent(s0.objs[x].size, i), hi)
      && ChunkData(s1, r, bo, hi, Parts(data, offset, i))
    ensures LoopState(s0, x, Kept(data, offset), offset, i + 1, SizeAt(offset, |Kept(data, offset)|, i + 1),
                      WithPointer(s1, x, i, r))
  {
    LoopAimKept(data, offset, i);
    ChunkParts(data, offset, i);
    LoopAdvance(s0, x, Kept(data, offset), offset, i, s, s1, r, FirstEntry(offset, i),
                EndIn(offset, |Kept(data, offset)|, i), Parts(data, offset, i));
  }

  lemma SliceIsBlock(buf: seq<Byte>, k: nat)
    requires k + 4096 <= |buf|
    ensures buf[k..k + 4096] == BlockFrom(buf, k)
  {
  }

  /** The super object as it lies in the first blocks of the disk. */
  datatype SuperImage = SuperImage(bitmap: seq<nat>, objs: seq<Object>)

  class ObjectStore {
    const dev: BlockDevice
    const obj: array<Object>
    var image: SuperImage

    ghost predicate Shape()
      reads obj, dev.Repr()
    {
      dev.Valid() && dev.disk.Length < 0x8000_0000 && obj as object !in dev.Repr()
    }

    ghost function Free(): int
      reads dev.Repr()
    {
      |FreeBlocks(dev.used, dev.disk.Length)|
    }

    ghost function State(): Store
      requires dev.Valid()
      reads obj, dev.Repr()
    {
      Store(Views(dev.contents), dev.used, obj[..])
    }

    ghost predicate Valid()
      reads obj, dev.Repr()
    {
      Shape() && Inv(State())
    }

    /** An empty store on a blank disk. */
    constructor (cached: bool, blocks: nat, bits: nat)
      requires DATA_BLOCKS_START <= blocks <= bits && blocks < 0x8000_0000
      ensures Valid() && NoLeak(State()) && Abs(State()) == map[] && (forall x :: !Live(obj[..], x))
      ensures fresh(dev.Repr()) && fresh(obj) && dev.cached == cached && dev.disk.Length == blocks && dev.used == {}
    {
      dev := new BlockDevice(cached, blocks, bits);
      obj := new Object[TABLE_SIZE](_ => Object(0, 0, [], [-1, -1, -1, -1]));
      image := SuperImage([], []);
      new;
      EmptyStore(State());
    }

    // ----- write -----

    /** get_new_datablock followed by set_block_bitmap, when a block is free. */
    method Allocate() returns (r: nat)
      requires Shape() && Free() > 0
      modifies dev.bitmap, dev`used
      ensures Shape()
      ensures r !in old(dev.used) && DATA_BLOCKS_START <= r < dev.disk.Length && dev.bitmap[r] == 1
      ensures dev.used == old(dev.used) + {r} && Free() == old(Free()) - 1
    {
      ghost var free := FreeBlocks(dev.used, dev.disk.Length);
      ghost var b :| b in free;
      var k := dev.GetNewDatablock();
      assert b !in old(dev.used);
      r := k;
      label Reserved:
      dev.bitmap[r] := 1;
      assert dev.State() == old@Reserved(dev.State());
      TakeFree(old(dev.used), dev.disk.Length, r);
    }

    /** Block r is as initialize_block leaves it, and so it is on the disk. */
    ghost predicate NewList(r: int)
      reads dev`contents, dev.disk
    {
      dev.Settled(r) && dev.contents[r] == Encode(NoPointers())
    }

    /** The start of write_indirect_block: the pointer array of the indirect block, which is created if missing. */
    method OpenIndirect(bn: int) returns (r: nat, block: Pointers)
      requires Shape() && (bn >= 0 ==> DATA_BLOCKS_START <= bn < dev.disk.Length && bn in dev.used)
      requires bn < 0 ==> Free() > 0
      modifies dev.Repr()
      ensures Shape()
      ensures Opened(old(dev.contents), old(dev.used), bn, r, dev.contents, dev.used, block)
      ensures bn < 0 ==> block == NoPointers() && NewList(r)
      ensures Free() == old(Free()) - if bn < 0 then 1 else 0
    {
      if bn < 0 {
        r := Allocate();
        dev.InitializeBlock(r);
        DecodeEncode(NoPointers());
      } else {
        r := bn;
      }
      var buf := dev.Fetch(r);
      block := DecodeBlock(buf);
    }

    /** One turn of the copy loop: allocate the data block if there is none, then write it. */
    method WriteEntry(q: Int32, buf: Block) returns (r: Int32)
      requires Shape() && (q == -1 || DATA_BLOCKS_START <= q < dev.disk.Length) && (q == -1 ==> Free() > 0)
      modifies dev.Repr()
      ensures Shape() && DATA_BLOCKS_START <= r < dev.disk.Length && dev.contents == old(dev.contents)[r := buf]
      ensures if q == -1 then r !in old(dev.used) && dev.used == old(dev.used) + {r}
              else r == q && dev.used == old(dev.used)
      ensures Free() == old(Free()) - if q == -1 then 1 else 0
      ensures forall k | old(NewList(k)) && k != r :: NewList(k)
    {
      r := q;
      if q == -1 {
        r := Allocate();
      }
      dev.Put(r, buf);
    }

    /** The copy loop's invariant: entries up to i - 1 have been written since c1 and u1. */
    ghost predicate Copied(p: Pointers, bo: nat, i: nat, block: Pointers, m: nat,
                           c1: seq<Block>, u1: set<int>, news: seq<seq<Byte>>)
      reads obj, dev.Repr()
    {
      && Shape()
      && Allocating(u1, p, m, i, block, dev.used, dev.disk.Length)
      && Copying(c1, u1, bo, i, block, news, dev.contents)
    }

    ghost predicate IsCopyState(b: bool, p: Pointers, bo: nat, i: nat, block: Pointers, m: nat,
                                c1: seq<Block>, u1: set<int>, news: seq<seq<Byte>>)
      reads obj, dev.Repr()
    {
      forall k {:trigger Unfold(InLoops, k)} :: Unfold(InLoops, k) ==> (b <==> Copied(p, bo, i, block, m, c1, u1, news))
    }

    /** Copied, kept closed. */
    ghost predicate CopyState(p: Pointers, bo: nat, i: nat, block: Pointers, m: nat,
                              c1: seq<Block>, u1: set<int>, news: seq<seq<Byte>>)
      reads obj, dev.Repr()
    {
      assert IsCopyState(Copied(p, bo, i, block, m, c1, u1, news), p, bo, i, block, m, c1, u1, news);
      var b: bool :| IsCopyState(b, p, bo, i, block, m, c1, u1, news);
      b
    }

    /** One turn of the copy loop. */
    method CopyEntry(p: Pointers, bo: nat, buf: seq<Byte>, offset: nat, i: nat, block: Pointers,
                     ghost r: nat, ghost m: nat, ghost c1: seq<Block>, ghost u1: set<int>, ghost news: seq<seq<Byte>>)
      returns (block': Pointers)
      requires CopyState(p, bo, i, block, m, c1, u1, news) && GoodPointers(c1, u1, r, p, m)
      requires bo <= i < 1024 && offset + (i - bo) * 4096 + 4096 <= |buf| && news == BlocksOf(buf, offset, bo)
      requires i >= m ==> Free() > 0
      requires r in u1
      modifies dev.Repr()
      ensures CopyState(p, bo, i + 1, block', m, c1, u1, news)
      ensures old(NewList(r)) ==> NewList(r)
      ensures Free() == old(Free()) - if i >= m then 1 else 0
    {
      assert Unfold(InLoops, 0);
      ghost var c, u := dev.contents, dev.used;
      var at := offset + (i - bo) * 4096;
      SliceIsBlock(buf, at);
      var data: Block := buf[at..at + 4096];
      var q := WriteEntry(block[i], data);
      AllocatingStep(u1, p, m, i, block, u, dev.disk.Length, q, dev.used);
      CopyingStep(c1, u1, bo, i, block, news, c, q, data);
      block' := block[i := q];
    }

    /** The copy loop of write_indirect_block. */
    method CopyEntries(p: Pointers, bo: nat, buf: seq<Byte>, offset: nat, ghost r: nat, ghost m: nat, ghost end: nat,
                       ghost c1: seq<Block>, ghost u1: set<int>, ghost news: seq<seq<Byte>>)
      returns (block: Pointers, hi: nat)
      requires CopyState(p, bo, bo, p, m, c1, u1, news) && GoodPointers(c1, u1, r, p, m)
      requires bo <= end <= 1024 && offset + (end - bo) * 4096 <= |buf| && news == BlocksOf(buf, offset, bo)
      requires end < 1024 ==> |buf| == offset + (end - bo) * 4096
      requires bo <= m && Free() >= end - m && r in u1
      modifies dev.Repr()
      ensures hi == end && CopyState(p, bo, hi, block, m, c1, u1, news)
      ensures old(NewList(r)) ==> NewList(r)
      ensures Free() == old(Free()) - if hi > m then hi - m else 0
    {
      block, hi := p, bo;
      while hi < 1024 && offset + (hi - bo) * 4096 < |buf|
        invariant bo <= hi <= end && CopyState(p, bo, hi, block, m, c1, u1, news)
        invariant Free() == old(Free()) - if hi > m then hi - m else 0
        invariant old(NewList(r)) ==> NewList(r)
      {
        assert hi < end;
        block := CopyEntry(p, bo, buf, offset, hi, block, r, m, c1, u1, news);
        hi := hi + 1;
      }
    }

    /** In the cached build, block r has a cache page; if it is new, the disk does not know yet what it leads to. */
    ghost predicate StillCached(r: int, isNew: bool)
      reads dev.disk, dev.bitmap
    {
      dev.cached ==>
        && 0 <= r < dev.disk.Length && r < dev.bitmap.Length && dev.bitmap[r] > 1
        && (isNew ==> dev.disk[r] == Encode(NoPointers()))
    }

    /** write_indirect_block: write buf from offset on through the entries from bo on of indirect block bn. */
    method WriteIndirectBlock(bn: int, bo: nat, buf: seq<Byte>, offset: nat, ghost m: nat, ghost k: nat)
      returns (r: nat, ghost hi: nat)
      requires Shape() && (bn >= 0 ==> DATA_BLOCKS_START <= bn < dev.disk.Length && bn in dev.used)
      requires bo <= m <= 1024 && (bn < 0 ==> m == 0)
      requires bn >= 0 ==> GoodPointers(dev.contents, dev.used, bn, Decode(dev.contents[bn]), m)
      requires |buf| == offset + k * 4096
      requires var hi := if bo + k > 1024 then 1024 else bo + k;
        Free() >= (if bn < 0 then 1 else 0) + (if hi > m then hi - m else 0)
      modifies dev.Repr()
      ensures Shape() && hi == if bo + k > 1024 then 1024 else bo + k
      ensures ChunkWritten(old(State()), State(), bn, r, bo, m, hi)
      ensures ChunkData(State(), r, bo, hi, BlocksOf(buf, offset, bo))
      ensures Free() == old(Free()) - (if bn < 0 then 1 else 0) - (if hi > m then hi - m else 0)
      ensures StillCached(r, bn < 0)
    {
      ghost var c0, u0 := dev.contents, dev.used;
      var p;
      r, p := OpenIndirect(bn);
      ghost var c1, u1 := dev.contents, dev.used;
      assert Unfold(InLoops, 0);
      var block, i := CopyEntries(p, bo, buf, offset, r, m, if bo + k > 1024 then 1024 else bo + k,
                                  c1, u1, BlocksOf(buf, offset, bo));
      hi := i;
      ghost var written := block;
      while i < 1024
        invariant hi <= i <= 1024
        invariant forall e | 0 <= e < 1024 :: block[e] == if hi <= e < i then -1 else written[e]
      {
        block := block[i := -1];
        i := i + 1;
      }
      ChunkFinished(c0, u0, obj[..], bn, r, c1, u1, p, m, bo, hi, written, BlocksOf(buf, offset, bo),
                    dev.contents, dev.used, block);
      dev.Put(r, Encode(block));
      var _ := dev.Fetch(r);
    }

    /** write_indirect_block on pointer i of the object being written: every entry it visits gets the part of the data
        that the loops pair with it. */
    method WriteThrough(x: nat, i: nat, bo: nat, aux: seq<Byte>, my: nat,
                        ghost s0: Store, ghost data: seq<Byte>, ghost offset: nat, ghost k: nat)
      returns (r: nat, ghost hi: nat)
      requires Shape() && Reached(s0, x, Kept(data, offset), offset, i, State())
      requires offset / 4194304 <= i && bo == FirstEntry(offset, i) <= Extent(s0.objs[x].size, i)
      requires my == (i - offset / 4194304) * 4194304 && k == BlocksFor(|data|) - (i - offset / 4194304) * 1024
      requires aux == Padded(data, BlocksFor(|data|))
      requires Extent(offset + |Kept(data, offset)|, i) == if bo + k > 1024 then 1024 else bo + k
      requires k > 0 && bo < 1024 && Free() >= Need(s0.objs[x].size, offset + |Kept(data, offset)|, i)
      modifies dev.Repr()
      ensures Shape() && hi == Extent(offset + |Kept(data, offset)|, i)
      ensures ChunkWritten(old(State()), State(), s0.objs[x].ptrs[i], r, bo, Extent(s0.objs[x].size, i), hi)
      ensures ChunkData(State(), r, bo, hi, Parts(data, offset, i))
      ensures Free() == old(Free()) - Need(s0.objs[x].size, offset + |Kept(data, offset)|, i)
      ensures StillCached(r, s0.objs[x].ptrs[i] < 0)
    {
      ChunkEntry(s0, x, Kept(data, offset), offset, i, State());
      if obj[x].ptrs[i] >= 0 {
        GoodEntriesDecoded(dev.contents, dev.used, obj[..], obj[x].ptrs[i], Extent(s0.objs[x].size, i));
      }
      r, hi := WriteIndirectBlock(obj[x].ptrs[i], bo, aux, my, Extent(s0.objs[x].size, i), k);
      PartsOfBuffer(State(), r, data, offset, i, hi, BlocksFor(|data|));
    }

    /** The loop of objstore_write has come to indirect block i; after the blocks for the rest, spare ones are left. */
    ghost predicate Writing(s0: Store, x: nat, data: seq<Byte>, offset: nat, i: int, spare: nat)
      requires dev.Valid()
      reads obj, dev.Repr()
    {
      && Live(s0.objs, x) && Live(obj[..], x) && |obj[x].ptrs| == 4
      && Aligned(s0.objs[x].size, offset, |data|) && (i == offset / 4194304 ==> State() == s0)
      && LoopState(s0, x, Kept(data, offset), offset, i, SizeAt(offset, |Kept(data, offset)|, i), State())
      && Free() == NeedFrom(s0.objs[x].size, offset + |Kept(data, offset)|, i) + spare
    }

    ghost predicate IsAtChunk(b: bool, s0: Store, x: nat, data: seq<Byte>, offset: nat, i: int, spare: nat)
      reads obj, dev.Repr()
    {
      forall k {:trigger Unfold(InStore, k)} :: Unfold(InStore, k) ==>
        (b <==> Shape() && Writing(s0, x, data, offset, i, spare))
    }

    /** Writing, kept closed. */
    ghost predicate AtChunk(s0: Store, x: nat, data: seq<Byte>, offset: nat, i: int, spare: nat)
      reads obj, dev.Repr()
    {
      assert IsAtChunk(Shape() && Writing(s0, x, data, offset, i, spare), s0, x, data, offset, i, spare);
      var b: bool :| IsAtChunk(b, s0, x, data, offset, i, spare);
      b
    }

    /** write_indirect_block on pointer i, in terms of the loop it is called in. */
    method WritePointer(x: nat, i: nat, aux: seq<Byte>, offset: nat, ghost s0: Store, ghost data: seq<Byte>)
      returns (r: nat)
      requires Shape() && offset / 4194304 <= i && More(offset, |data|, i) && data != []
      requires Reached(s0, x, Kept(data, offset), offset, i, State()) && Aligned(s0.objs[x].size, offset, |data|)
      requires aux == Padded(data, BlocksFor(|data|))
      requires Free() >= Need(s0.objs[x].size, offset + |Kept(data, offset)|, i)
      modifies dev.Repr()
      ensures Shape() && Free() == old(Free()) - Need(s0.objs[x].size, offset + |Kept(data, offset)|, i)
      ensures LoopState(s0, x, Kept(data, offset), offset, i + 1, SizeAt(offset, |Kept(data, offset)|, i + 1),
                        WithPointer(State(), x, i, r))
      ensures StillCached(r, s0.objs[x].ptrs[i] < 0)
    {
      ghost var s := State();
      var bo := FirstEntry(offset, i);
      var my := (i - offset / 4194304) * 4194304;
      LoopAimKept(data, offset, i);
      if bo > 0 {
        EntriesBefore(s0.objs[x].size, offset, i, bo);
      }
      ghost var hi;
      r, hi := WriteThrough(x, i, bo, aux, my, s0, data, offset, BlocksFor(|data|) - (i - offset / 4194304) * 1024);
      ChunkAdvances(s0, x, data, offset, i, s, State(), r);
    }

    /** Pointer c of object x has been written through, starting from s0, and its block is still in the cache. */
    ghost predicate LeftInCache(x: nat, c: int, s0: Store)
      reads obj, dev.disk, dev.bitmap
    {
      && 0 <= c < 4 && x < obj.Length && |obj[x].ptrs| == 4 && x < |s0.objs| && |s0.objs[x].ptrs| == 4
      && StillCached(obj[x].ptrs[c], s0.objs[x].ptrs[c] < 0)
    }

    ghost predicate SomeLeftInCache(x: nat, s0: Store)
      reads obj, dev.disk, dev.bitmap
    {
      exists c :: LeftInCache(x, c, s0)
    }

    /** One turn of the loop of objstore_write: indirect block i takes its share of the data. */
    method WriteChunk(x: nat, i: nat, aux: seq<Byte>, offset: nat,
                      ghost s0: Store, ghost data: seq<Byte>, ghost spare: nat)
      requires AtChunk(s0, x, data, offset, i, spare) && offset / 4194304 <= i && More(offset, |data|, i) && data != []
      requires aux == Padded(data, BlocksFor(|data|))
      modifies obj, dev.Repr()
      ensures AtChunk(s0, x, data, offset, i + 1, spare) && LeftInCache(x, i, s0)
    {
      assert Unfold(InStore, 0);
      LoopReached(s0, x, data, offset, i, State());
      var r := WritePointer(x, i, aux, offset, s0, data);
      SetPointer(x, i, r);
    }

    method SetPointer(x: nat, i: nat, r: int)
      requires Shape() && x < obj.Length && |obj[x].ptrs| == 4 && i < 4
      modifies obj
      ensures Shape() && State() == WithPointer(old(State()), x, i, r) && Free() == old(Free())
      ensures Live(old(obj[..]), x) ==> Live(obj[..], x)
      ensures |obj[x].ptrs| == 4 && obj[x].ptrs[i] == r
    {
      obj[x] := obj[x].(ptrs := obj[x].ptrs[i := r]);
    }

    lemma BeginWrite(x: nat, data: seq<Byte>, offset: nat)
      requires Valid() && Live(obj[..], x) && Aligned(obj[x].size, offset, |data|)
      requires Free() >= Blocks(x, data, offset)
      ensures AtChunk(State(), x, data, offset, offset / 4194304, Free() - Blocks(x, data, offset))
    {
      LoopStart(State(), x, Kept(data, offset), offset);
      assert Unfold(InStore, 0);
    }

    /** The block loop of objstore_write. */
    method WriteChunks(x: nat, offset: nat, data: seq<Byte>, aux: seq<Byte>, ghost s0: Store, ghost spare: nat)
      returns (i: nat)
      requires AtChunk(s0, x, data, offset, offset / 4194304, spare) && offset + |data| <= MAX_OBJECT
      requires aux == Padded(data, BlocksFor(|data|))
      modifies obj, dev.Repr()
      ensures AtChunk(s0, x, data, offset, i, spare) && offset / 4194304 <= i <= 4
      ensures !More(offset, |data|, i) && (i > offset / 4194304 ==> More(offset, |data|, i - 1))
      ensures i > offset / 4194304 ==> LeftInCache(x, i - 1, s0)
    {
      i := offset / 4194304;
      while More(offset, |data|, i)
        invariant offset / 4194304 <= i <= 4 && (i > offset / 4194304 ==> More(offset, |data|, i - 1))
        invariant AtChunk(s0, x, data, offset, i, spare)
        invariant i > offset / 4194304 ==> LeftInCache(x, i - 1, s0)
        decreases 4 - i
      {
        WriteChunk(x, i, aux, offset, s0, data, spare);
        i := i + 1;
      }
    }

    /** The loop of objstore_write is over: everything that is kept has been written. */
    ghost predicate AllWritten(s0: Store, x: nat, data: seq<Byte>, offset: nat, i: nat, spare: nat)
      reads obj, dev.Repr()
    {
      && Shape() && Free() == spare && i <= 4 && x < obj.Length && |obj[x].ptrs| == 4
      && (if data == [] then i == offset / 4194304 && State() == s0
          else LoopState(s0, x, Kept(data, offset), offset, i, offset + |Kept(data, offset)|, State()))
    }

    method WriteAll(x: nat, offset: nat, data: seq<Byte>, aux: seq<Byte>, ghost s0: Store, ghost spare: nat)
      returns (i: nat)
      requires Shape() && AtChunk(s0, x, data, offset, offset / 4194304, spare) && State() == s0
      requires 0 <= x < |s0.objs| && Aligned(s0.objs[x].size, offset, |data|) && aux == Padded(data, BlocksFor(|data|))
      modifies obj, dev.Repr()
      ensures AllWritten(s0, x, data, offset, i, spare) && (data != [] ==> LeftInCache(x, i - 1, s0))
    {
      i := WriteChunks(x, offset, data, aux, s0, spare);
      assert Unfold(InStore, 0);
      if data == [] {
        EmptyWriteDone(s0, x, data, offset);
      } else {
        AllKept(s0.objs[x].size, data, offset, i);
      }
    }

    /** The end of objstore_write: drop the pointers from i on and set the size. */
    method FinishObject(x: nat, i0: nat, size: int)
      requires Shape() && x < obj.Length && |obj[x].ptrs| == 4 && i0 <= 4
      modifies obj
      ensures Shape() && State() == CutAt(old(State()), x, i0, size)
      ensures |obj[x].ptrs| == 4 && forall c | 0 <= c < i0 :: obj[x].ptrs[c] == old(obj[x].ptrs[c])
    {
      var i := i0;
      while i < 4
        invariant i0 <= i <= 4 && Shape() && State().blocks == old(State().blocks) && State().used == old(State().used)
        invariant obj[..] == old(obj[..])[x := old(obj[x]).(ptrs := obj[x].ptrs)] && |obj[x].ptrs| == 4
        invariant forall c | 0 <= c < 4 :: obj[x].ptrs[c] == if i0 <= c < i then -1 else old(obj[x]).ptrs[c]
      {
        obj[x] := obj[x].(ptrs := obj[x].ptrs[i := -1]);
        i := i + 1;
      }
      obj[x] := obj[x].(size := size);
      CutIsFinal(old(State()), x, i0, size, obj[x]);
    }

    /** The buffer of objstore_write: the data in whole blocks. */
    method PaddedBuffer(data: seq<Byte>) returns (aux: seq<Byte>)
      ensures |data| <= BlocksFor(|data|) * 4096 && aux == Padded(data, BlocksFor(|data|))
    {
      var blocks := if |data| % 4096 != 0 then |data| / 4096 + 1 else |data| / 4096;
      aux := Padded(data, blocks);
    }

    /** objstore_write on an object, with a range that is not clipped. */
    method WriteObject(x: nat, data: seq<Byte>, offset: nat)
      requires Valid() && Live(obj[..], x) && Aligned(obj[x].size, offset, |data|)
      requires Free() >= Blocks(x, data, offset)
      modifies obj, dev.Repr()
      ensures Shape() && WriteResult(old(State()), x, data, offset, State())
      ensures Free() == old(Free() - Blocks(x, data, offset))
      ensures data != [] ==> SomeLeftInCache(x, old(State()))
    {
      var aux := PaddedBuffer(data);
      ghost var s0, spare := State(), Free() - Blocks(x, data, offset);
      BeginWrite(x, data, offset);
      var i := WriteAll(x, offset, data, aux, s0, spare);
      ghost var s := State();
      FinishObject(x, i, offset + |data|);
      if data == [] {
        EmptyWriteDone(s0, x, data, offset);
      } else {
        WriteDone(s0, x, data, offset, i, s);
        assert LeftInCache(x, i - 1, s0);
      }
    }

    /** How many blocks writing data at offset takes. */
    ghost function Blocks(x: nat, data: seq<Byte>, offset: nat): int
      requires x < obj.Length
      reads obj
    {
      NeedFrom(obj[x].size, offset + |Kept(data, offset)|, offset / 4194304)
    }

    /** objstore_write. The store stays well formed exactly when the range fits, and then the data is in the object. */
    method Write(id: int, buf: seq<Byte>, offset: nat) returns (n: int)
      requires Valid() && id < TABLE_SIZE + 2
      requires LiveId(obj[..], id) ==>
        && Aligned(obj[id - 2].size, offset, Clipped(|buf|, offset))
        && Free() >= Blocks(id - 2, buf[..Clipped(|buf|, offset)], offset)
      modifies obj, dev.Repr()
      ensures Shape()
      ensures !LiveId(old(obj[..]), id) ==> n == -1 && State() == old(State())
      ensures LiveId(old(obj[..]), id) ==>
        && n == Clipped(|buf|, offset) && 0 <= n <= |buf|
        && offset + n <= 16777216 && (n == |buf| || offset + n == 16777216)
        && WriteResult(old(State()), id - 2, buf[..n], offset, State())
        && (Valid() <==> WriteFits(old(obj[..])[id - 2].size, offset, n))
        && (Valid() ==> Written(old(State()), id - 2, buf[..n], offset, State()))
        && Free() == old(Free()) - old(Blocks(id - 2, buf[..n], offset))
        && (n > 0 ==> SomeLeftInCache(id - 2, old(State())))
    {
      if id < 2 {
        return -1;
      }
      var x := id - 2;
      if obj[x].id == 0 {
        return -1;
      }
      n := |buf|;
      if n > MAX_OBJECT - offset {
        n := MAX_OBJECT - offset;
      }
      WriteObject(x, buf[..n], offset);
      WriteRightIff(old(State()), x, buf[..n], offset, State());
    }

    // ----- names -----

    method Find(key: Key) returns (id: int)
      requires Valid()
      ensures id == -1 <==> !Present(obj[..], key)
      ensures id != -1 ==> 2 <= id < TABLE_SIZE + 2 && Holds(obj[..], id - 2, key)
    {
      id := FindObjectId(obj, key);
    }

    /** create_object. */
    method Create(key: Key) returns (id: int)
      requires Shape() && IsTable(obj[..]) && |key| < 32 && (HasHole(obj[..]) || Present(obj[..], key))
      modifies obj
      ensures Shape() && Created(old(obj[..]), key, obj[..], id) && State() == old(State()).(objs := obj[..])
    {
      var index := FindStop(obj, key);
      if obj[index].id != 0 {
        return -1;
      }
      obj[index] := FreshObject(index, key);
      id := index + 2;
    }

    /** rename_object; a new name of 32 bytes would lose its terminator. */
    method Rename(key: Key, newName: Key) returns (id: int)
      requires Valid() && |newName| != 32
      requires |newName| < 32 && Present(obj[..], key) ==> HasHole(obj[..]) || Present(obj[..], newName)
      modifies obj
      ensures Shape()
      ensures id == -1 ==> State() == old(State())
      ensures id == -1 <==> |newName| > 32 || !Present(old(obj[..]), key) || Refused(old(obj[..]), newName)
      ensures id != -1 ==> Moves(old(State()), key, newName, State(), id)
      ensures Valid() <==> id == -1 || newName == key || !Present(old(obj[..]), newName)
    {
      ghost var s := State();
      if |newName| > 32 {
        return -1;
      }
      var oldId := FindObjectId(obj, key);
      if oldId == -1 {
        return -1;
      }
      id := Create(newName);
      RefusedIff(s.objs, newName, obj[..], id);
      CreatedWhere(s.objs, newName, obj[..], id);
      if id == -1 {
        return;
      }
      assert Holds(s.objs, oldId - 2, key);
      TakeOver(oldId - 2, id - 2, key, newName, s);
    }

    /** The second half of rename_object: object y, just created, takes over the contents of object x. */
    method TakeOver(x: nat, y: nat, ghost key: Key, ghost newName: Key, ghost s: Store)
      requires Shape() && Inv(s) && Holds(s.objs, x, key) && y < |s.objs| && !Live(s.objs, y)
      requires State() == s.(objs := s.objs[y := FreshObject(y, newName)])
      modifies obj
      ensures Shape() && Moves(s, key, newName, State(), y + 2)
      ensures Inv(State()) <==> newName == key || !Present(s.objs, newName)
    {
      assert |obj[..]| == |s.objs|;
      MoveObject(x, y);
      RenamedByMove(s, x, newName, y, State());
      RenameRightIff(s, x, newName, y);
    }

    /** The new slot takes over the contents of the old one, which becomes free. */
    method MoveObject(x: nat, y: nat)
      requires Shape() && x < obj.Length && y < obj.Length && x != y
      modifies obj
      ensures Shape() && State() == old(State()).(objs := TakenOver(old(obj[..]), x, y))
    {
      obj[y] := obj[y].(size := obj[x].size, ptrs := obj[x].ptrs);
      obj[x] := obj[x].(id := 0);
    }

    // ----- destroy -----

    lemma StoreOfDevice()
      requires dev.Valid()
      ensures C.Inv(dev.State()) && dev.Indexable() && State() == StoreOf(dev.State(), obj[..])
    {
      dev.Open();
    }

    /** What has become of a store s on device d, whose object x was destroyed. */
    ghost predicate DestroyResult(d: C.Device, s: Store, x: int)
      reads obj, dev.Repr()
    {
      && DestroyedOnDevice(d, s, x, dev.State(), obj[..])
      && (C.Inv(dev.State()) ==> Shape() && State() == StoreOf(dev.State(), obj[..]))
      && (Valid() <==> C.AllFreedSafely(d, IndirectBlocks(s.objs, x)) && ClearsNoOther(d, s, x))
      && (NamesNone(d, IndirectBlocks(s.objs, x)) ==> (Valid() <==> Uncached(d, IndirectBlocks(s.objs, x))))
    }

    /** The loop of destroy_object. */
    method FreeBlocksOf(x: nat, ghost d: C.Device, ghost s: Store)
      requires Valid() && Live(obj[..], x) && d == dev.State() && s == State()
      requires C.Inv(d) && C.CanFree(d, IndirectBlocks(obj[..], x)) && dev.Indexable()
      modifies dev.Repr()
      ensures dev.State() == C.FreeAll(d, IndirectBlocks(obj[..], x))
      ensures C.Inv(dev.State()) ==> Shape() && State() == StoreOf(dev.State(), obj[..])
    {
      dev.FreeIndirectBlocks(obj[x].ptrs);
      if C.Inv(dev.State()) {
        StoreOfDevice();
      }
    }

    lemma BeforeDestroy(x: nat)
      requires Valid() && Live(obj[..], x) && StaleInBitmap(dev.State(), IndirectBlocks(obj[..], x))
      ensures C.Inv(dev.State()) && dev.Indexable() && C.CanFree(dev.State(), IndirectBlocks(obj[..], x))
      ensures DestroyedOnDevice(dev.State(), State(), x, C.FreeAll(dev.State(), IndirectBlocks(obj[..], x)),
                                Removed(obj[..], x))
    {
      StoreOfDevice();
      DestroyOutcome(dev.State(), State(), x);
    }

    /** The end of destroy_object: the slot becomes free. */
    method ClearSlot(x: nat)
      requires x < obj.Length && obj as object !in dev.Repr() && (C.Inv(dev.State()) ==> Shape())
      modifies obj
      ensures obj[..] == Removed(old(obj[..]), x) && dev.State() == old(dev.State())
      ensures C.Inv(dev.State()) ==> Shape() && State() == old(State()).(objs := obj[..])
    {
      obj[x] := obj[x].(id := 0);
    }

    /** destroy_object on an object that was found. */
    method DestroyObject(x: nat)
      requires Valid() && Live(obj[..], x) && StaleInBitmap(dev.State(), IndirectBlocks(obj[..], x))
      modifies obj, dev.Repr()
      ensures DestroyResult(old(dev.State()), old(State()), x)
    {
      BeforeDestroy(x);
      ghost var d, s := dev.State(), State();
      FreeBlocksOf(x, d, s);
      ClearSlot(x);
      if dev.Valid() {
        dev.Open();
      }
    }

    /** Before destroy_object on a disk that is up to date. */
    lemma SettledBeforeDestroy(x: nat)
      requires Valid() && Live(obj[..], x) && forall k | 0 <= k < dev.disk.Length :: dev.Settled(k)
      ensures StaleInBitmap(dev.State(), IndirectBlocks(obj[..], x))
      ensures NamesNone(dev.State(), IndirectBlocks(obj[..], x))
    {
      StoreOfDevice();
      dev.Open();
      IndirectBlocksOnDisk(dev.State(), State(), x);
      forall c | 0 <= c < |IndirectBlocks(obj[..], x)|
        ensures C.Settled(dev.State(), IndirectBlocks(obj[..], x)[c])
      {
        assert dev.Settled(IndirectBlocks(obj[..], x)[c]);
      }
      SettledNamesNone(dev.State(), State(), x);
    }

    /** Before destroy_object on an object that was empty in s0 and has been written to since. */
    lemma FirstWriteBeforeDestroy(x: nat, s0: Store)
      requires Valid() && dev.cached && Live(obj[..], x) && 0 < obj[x].size <= 4194304
      requires Inv(s0) && Live(s0.objs, x) && s0.objs[x].size == 0 && SomeLeftInCache(x, s0)
      ensures var list := IndirectBlocks(obj[..], x);
        && StaleInBitmap(dev.State(), list) && NamesNone(dev.State(), list) && !Uncached(dev.State(), list)
        && C.UsedBlocks(C.FreeAll(dev.State(), list)) != {}
    {
      StoreOfDevice();
      var c :| LeftInCache(x, c, s0);
      PointerInUse(State(), x, c);
      EndsInIff(obj[x].size, 0);
      PointerInUse(s0, x, 0);
      EmptySpansNothing(Ind(x, 0));
      NewInCacheIsUnsafe(dev.State(), State(), x);
    }

    /** destroy_object. The store stays well formed exactly when no indirect block of the object has a cache page when
        its turn comes and nothing that is cleared belongs to another object. With none of them cached, the object and
        its blocks are gone, and nothing else; with none of them named in a list on the disk, the store stays well
        formed only then. */
    method Destroy(key: Key) returns (r: int)
      requires Valid()
      requires forall x | Holds(obj[..], x, key) :: StaleInBitmap(dev.State(), IndirectBlocks(obj[..], x))
      modifies obj, dev.Repr()
      ensures r == (if Present(old(obj[..]), key) then 0 else -1)
      ensures r == -1 ==> Valid() && State() == old(State())
      ensures r == 0 ==> exists x :: Holds(old(obj[..]), x, key) && DestroyResult(old(dev.State()), old(State()), x)
    {
      var id := FindObjectId(obj, key);
      if id == -1 {
        return -1;
      }
      assert Holds(obj[..], id - 2, key);
      DestroyObject(id - 2);
      r := 0;
    }

    // ----- read and stat -----

    /** read_indirect_block, on indirect block number i of an object; off and the buffer are counted in blocks. */
    method ReadIndirectBlock(bn: int, bo: nat, aux0: seq<Block>, off: nat, ghost offset: nat, ghost i: int,
                             ghost m: nat)
      returns (aux: seq<Block>)
      requires Shape() && (bn >= 0 ==> GoodEntries(State(), bn, m))
      requires bo == FirstEntry(offset, i) && off == (i - offset / 4194304) * 1024
      modifies dev.Repr()
      ensures Shape() && State() == old(State())
      ensures bn < 0 ==> aux == aux0
      ensures bn >= 0 ==> Filled(State(), bn, offset, i, m, aux0, aux)
    {
      if bn < 0 {
        return aux0;
      }
      var buf := dev.Fetch(bn);
      var block := DecodeBlock(buf);
      ghost var s := State();
      assert forall e | 0 <= e < 1024 :: block[e] == Entry(s, bn, e);
      aux := aux0;
      var e := bo;
      while e < 1024 && off + (e - bo) < |aux| && block[e] != -1
        invariant bo <= e && (e <= m || e == bo) && Shape() && State() == old(State()) && |aux| == |aux0|
        invariant forall q | 0 <= q < |aux| ::
          var e' := EntryFor(offset, i, q);
          if bo <= e' < e then aux[q] == s.blocks[Entry(s, bn, e')].raw else aux[q] == aux0[q]
      {
        var data := dev.Fetch(block[e]);
        aux := aux[off + (e - bo) := data];
        e := e + 1;
      }
    }

    /** One turn of the block loop of objstore_read. */
    method ReadChunk(x: nat, offset: nat, n: nat, i: nat, bo: nat, aux0: seq<Block>) returns (aux: seq<Block>)
      requires Valid() && Live(obj[..], x) && offset % 4096 == 0 && 0 < n && offset + n <= obj[x].size
      requires offset / 4194304 <= i && More(offset, n, i) && bo == FirstEntry(offset, i) && |aux0| == BlocksFor(n)
      requires BufferHolds(State(), x, offset, aux0, FilledBefore(offset, BlocksFor(n), i))
      modifies dev.Repr()
      ensures Shape() && State() == old(State()) && |aux| == BlocksFor(n)
      ensures BufferHolds(State(), x, offset, aux, FilledBefore(offset, BlocksFor(n), i + 1))
    {
      ghost var s := State();
      ReadAim(s.objs[x].size, offset, n, i);
      ObjectEntries(s, x, i);
      aux := ReadIndirectBlock(obj[x].ptrs[i], bo, aux0, (i - offset / 4194304) * 1024,
                               offset, i, Extent(s.objs[x].size, i));
      ChunkFills(s, x, offset, n, i, aux0, aux);
    }

    /** The block loop of objstore_read. */
    method ReadChunks(x: nat, offset: nat, n: nat, blocks: nat) returns (aux: seq<Block>)
      requires Valid() && Live(obj[..], x) && offset % 4096 == 0 && 0 < n && offset + n <= obj[x].size
      requires blocks == BlocksFor(n)
      modifies dev.Repr()
      ensures Shape() && State() == old(State()) && |aux| == blocks && BufferHolds(State(), x, offset, aux, blocks)
    {
      ghost var s := State();
      var bo := offset % 4194304 / 4096;
      aux := seq(blocks, _ => Blank());
      var i := offset / 4194304;
      while i < 4 && (i - offset / 4194304) * 4194304 < n
        invariant offset / 4194304 <= i <= 4 && bo == FirstEntry(offset, i)
        invariant Shape() && State() == s && |aux| == blocks
        invariant BufferHolds(s, x, offset, aux, FilledBefore(offset, blocks, i))
      {
        aux := ReadChunk(x, offset, n, i, bo, aux);
        bo := 0;
        i := i + 1;
      }
      ReadEnd(offset, n, i);
    }

    /** objstore_read: what the loops fetch from offset on, clipped to the object's size. */
    method Read(id: int, want: nat, offset: nat) returns (n: int, buf: seq<Byte>)
      requires Valid() && id < TABLE_SIZE + 2
      requires LiveId(obj[..], id) && want > 0 && offset < obj[id - 2].size ==> offset % 4096 == 0
      modifies dev.Repr()
      ensures Valid() && State() == old(State())
      ensures !LiveId(obj[..], id) ==> n == -1 && buf == []
      ensures LiveId(obj[..], id) ==>
        && (offset <= obj[id - 2].size ==>
              && n <= want && offset + n <= obj[id - 2].size && (n == want || offset + n == obj[id - 2].size))
        && (offset > obj[id - 2].size ==> n == obj[id - 2].size - offset)
        && buf == if n <= 0 then [] else ReadBytes(Bytes(State(), id - 2), offset, n)
    {
      if id < 2 {
        return -1, [];
      }
      var x := id - 2;
      if obj[x].id == 0 {
        return -1, [];
      }
      n := want;
      if n > obj[x].size - offset {
        n := obj[x].size - offset;
      }
      if n <= 0 {
        return n, [];
      }
      var aux := ReadChunks(x, offset, n, if n % 4096 != 0 then n / 4096 + 1 else n / 4096);
      BufferIsBytes(State(), x, offset, aux, n);
      buf := Flatten(aux, n);
    }

    /** cal_number_blocks. */
    method CountEntries(bn: int, ghost m: nat) returns (n: nat)
      requires Shape() && (bn >= 0 ==> GoodEntries(State(), bn, m))
      modifies dev.Repr()
      ensures Shape() && State() == old(State()) && n == if bn < 0 then 0 else m
      ensures (forall k | old(dev.Settled(k)) :: dev.Settled(k)) && (bn >= 0 ==> StillCached(bn, false))
    {
      if bn < 0 {
        return 0;
      }
      var buf := dev.Fetch(bn);
      var block := DecodeBlock(buf);
      ghost var s := State();
      assert forall e | 0 <= e < 1024 :: block[e] == Entry(s, bn, e);
      n := 0;
      while n < 1024 && block[n] >= 0
        invariant 0 <= n <= m
      {
        n := n + 1;
      }
    }

    /** fillup_size_details: st_size and st_blocks. */
    method Stat(id: int) returns (r: int, size: int, blocks: nat)
      requires Valid() && id < TABLE_SIZE + 2
      modifies dev.Repr()
      ensures Valid() && State() == old(State())
      ensures r == if id >= 2 && Live(obj[..], id - 2) then 0 else -1
      ensures r == 0 ==> size == |Bytes(State(), id - 2)| && blocks == BlocksFor(size)
      ensures r == 0 ==> blocks * 4096 - 4096 < size <= blocks * 4096
      ensures forall k | old(dev.Settled(k)) :: dev.Settled(k)
      ensures dev.cached && r == 0 && size > 0 ==> !Uncached(dev.State(), IndirectBlocks(obj[..], id - 2))
    {
      if id < 2 {
        return -1, 0, 0;
      }
      var x := id - 2;
      if obj[x].id == 0 {
        return -1, 0, 0;
      }
      r, size, blocks := 0, obj[x].size, 0;
      var c := 0;
      while c < 4 && obj[x].ptrs[c] >= 0
        invariant 0 <= c <= 4 && Shape() && State() == old(State())
        invariant blocks == if BlocksFor(size) < c * 1024 then BlocksFor(size) else c * 1024
        invariant forall k | old(dev.Settled(k)) :: dev.Settled(k)
        invariant c > 0 ==> obj[x].ptrs[c - 1] >= 0 && StillCached(obj[x].ptrs[c - 1], false)
      {
        ObjectEntries(State(), x, c);
        ExtentByBlocks(size, c);
        var n := CountEntries(obj[x].ptrs[c], Extent(size, c));
        blocks := blocks + n;
        c := c + 1;
      }
      if c < 4 {
        ObjectEntries(State(), x, c);
        ExtentByBlocks(size, c);
      }
      if dev.cached && size > 0 {
        CachedPointer(dev.State(), State(), x, c - 1);
      }
    }

    // ----- unmount and mount -----

    /** objstore_destroy: write back the cache, then the super object. */
    method Unmount()
      requires Valid()
      modifies this, dev.disk, dev.slots, dev.dirty, dev.bitmap
      ensures dev.disk[..] == old(dev.contents)
      ensures |image.bitmap| == dev.bitmap.Length && image.objs == obj[..]
      ensures forall b | 0 <= b < |image.bitmap| :: image.bitmap[b] == if b in dev.used then 1 else 0
    {
      dev.CacheSync();
      image := SuperImage(dev.bitmap[..], obj[..]);
    }

    /** objstore_init: read the super object back and start with an empty cache. Nothing in memory is relied on. */
    method Mount()
      requires dev.Allocated() && dev.disk.Length < 0x8000_0000 && obj as object !in dev.Repr()
      requires |image.bitmap| == dev.bitmap.Length && |image.objs| == obj.Length
      requires forall b | 0 <= b < |image.bitmap| :: image.bitmap[b] <= 1
      modifies obj, dev, dev.bitmap, dev.slots, dev.dirty
      ensures Shape() && obj[..] == image.objs && dev.contents == dev.disk[..] && dev.bitmap[..] == image.bitmap
      ensures dev.used == set b | 0 <= b < |image.bitmap| && image.bitmap[b] != 0
    {
      forall x | 0 <= x < obj.Length {
        obj[x] := image.objs[x];
      }
      dev.Reset(image.bitmap);
    }

    /** Unmounting and mounting again loses nothing and leaves every block on disk, uncached. */
    method Remount()
      requires Valid()
      modifies this, obj, dev.Repr()
      ensures Valid() && State() == old(State())
      ensures dev.disk[..] == old(dev.contents) && forall b | 0 <= b < dev.bitmap.Length :: dev.bitmap[b] <= 1
      ensures forall k | 0 <= k < dev.disk.Length :: dev.Settled(k)
    {
      dev.Open();
      Unmount();
      ghost var bits := image.bitmap;
      Mount();
      assert dev.used == old(dev.used) by {
        assert forall b | b in old(dev.used) :: 0 <= b < |bits|;
      }
    }

    // ----- the store as a whole -----

    /** The blocks a write takes are there, and what a destroy frees is not cached. */
    ghost predicate Affordable(op: R.Op)
      requires Valid()
      reads obj, dev.Repr()
    {
      && (op.Write? && LiveId(obj[..], op.id) ==>
            Free() >= NeedFrom(obj[op.id - 2].size, op.offset + Clipped(|op.buf|, op.offset), op.offset / 4194304))
      && (op.Destroy? ==> forall x | Holds(obj[..], x, op.key) :: Uncached(dev.State(), IndirectBlocks(obj[..], x)))
    }

    /** Looking up and creating. */
    method PerformFindOrCreate(op: R.Op) returns (a: R.Answer)
      requires Valid() && R.Demands(State(), op) && (op.Find? || op.Create?)
      modifies obj
      ensures Valid() && R.Steps(old(State()), op, a, State())
    {
      a := R.Answer(0, [], 0);
      if op.Find? {
        var n := Find(op.key);
        a := a.(n := n);
      } else {
        var n := Create(op.key);
        a := a.(n := n);
        R.NameStep(old(State()), op, a, State());
      }
    }

    /** Destroying and renaming. */
    method PerformDestroyOrRename(op: R.Op) returns (a: R.Answer)
      requires Valid() && R.Demands(State(), op) && Affordable(op) && (op.Destroy? || op.Rename?)
      modifies obj, dev.Repr()
      ensures Valid() && R.Steps(old(State()), op, a, State())
    {
      a := R.Answer(0, [], 0);
      if op.Destroy? {
        var n := Destroy(op.key);
        a := a.(n := n);
      } else {
        var n := Rename(op.key, op.newName);
        a := a.(n := n);
      }
    }

    /** Reading and asking for the size. */
    method PerformReadOrStat(op: R.Op) returns (a: R.Answer)
      requires Valid() && R.Demands(State(), op) && (op.Read? || op.Stat?)
      modifies dev.Repr()
      ensures Valid() && R.Steps(old(State()), op, a, State())
    {
      a := R.Answer(0, [], 0);
      if op.Read? {
        var n, bytes := Read(op.id, op.want, op.offset);
        a := a.(n := n, bytes := bytes);
        if LiveId(obj[..], op.id) {
          R.ReadAnswers(Bytes(State(), op.id - 2), op.want, op.offset, a);
        }
      } else {
        var r, size, blocks := Stat(op.id);
        a := a.(n := if r == 0 then size else -1, blocks := blocks);
      }
    }

    method PerformWrite(op: R.Op) returns (a: R.Answer)
      requires Valid() && R.Demands(State(), op) && Affordable(op) && op.Write?
      modifies obj, dev.Repr()
      ensures Valid() && R.Steps(old(State()), op, a, State())
    {
      if LiveId(obj[..], op.id) {
        OpenKept(op.buf[..Clipped(|op.buf|, op.offset)], op.offset);
      }
      var n := Write(op.id, op.buf, op.offset);
      a := R.Answer(n, [], 0);
    }

    /** Any operation, in either build: the step relation whose every run refines a map of files. */
    method Perform(op: R.Op) returns (a: R.Answer)
      requires Valid() && R.Demands(State(), op) && Affordable(op)
      modifies this, obj, dev.Repr()
      ensures Valid() && R.Steps(old(State()), op, a, State())
    {
      if op.Remount? {
        Remount();
        a := R.Answer(0, [], 0);
      } else if op.Find? || op.Create? {
        a := PerformFindOrCreate(op);
      } else if op.Destroy? || op.Rename? {
        a := PerformDestroyOrRename(op);
      } else if op.Write? {
        a := PerformWrite(op);
      } else {
        a := PerformReadOrStat(op);
      }
    }
  }

  // ----- writes that go wrong -----

  lemma BlankDiskIsFree(blocks: nat)
    requires DATA_BLOCKS_START <= blocks
    ensures |FreeBlocks({}, blocks)| == blocks - DATA_BLOCKS_START
  {
    Sets.RangeSize(DATA_BLOCKS_START, blocks - DATA_BLOCKS_START);
    Sets.SameSet(FreeBlocks({}, blocks), Sets.Range(DATA_BLOCKS_START, blocks - DATA_BLOCKS_START));
  }

  /** A store with one empty object, named a, and ten thousand free blocks. */
  method StoreWithObject(cached: bool) returns (st: ObjectStore, id: int)
    ensures fresh(st) && fresh(st.obj) && fresh(st.dev.Repr()) && st.Valid() && NoLeak(st.State())
    ensures id < TABLE_SIZE + 2 && LiveId(st.obj[..], id) && st.obj[id - 2].size == 0 && st.Free() == 10000
    ensures st.dev.cached == cached && st.obj[id - 2].key == [97] && forall x | Live(st.obj[..], x) :: x == id - 2
  {
    st := new ObjectStore(cached, DATA_BLOCKS_START + 10000, DATA_BLOCKS_START + 10000);
    BlankDiskIsFree(DATA_BLOCKS_START + 10000);
    ghost var s := st.State();
    assert !Live(st.obj[..], 0);
    id := st.Create([97]);
    CreateRefines(s, [97], st.obj[..], id);
    CreateAbsent(s.objs, [97], st.obj[..], id);
  }

  /** Writing at the beginning of an object. */
  method WriteAtStart(st: ObjectStore, id: int, data: seq<Byte>)
    requires st.Valid() && id < TABLE_SIZE + 2 && LiveId(st.obj[..], id) && |data| <= MAX_OBJECT && st.Free() >= 4100
    modifies st.obj, st.dev.Repr()
    ensures st.Valid() && Written(old(st.State()), id - 2, data, 0, st.State()) && st.Free() >= old(st.Free()) - 4100
    ensures data != [] ==> st.SomeLeftInCache(id - 2, old(st.State()))
  {
    assert data[..|data|] == data;
    NeedAtMost(st.obj[id - 2].size, |Kept(data, 0)|, 0);
    var _ := st.Write(id, data, 0);
  }

  /** Writing some blocks at the beginning of that object. */
  method StoreWithBlocks(n: nat) returns (st: ObjectStore, id: int)
    requires n <= 4194304
    ensures fresh(st) && fresh(st.obj) && fresh(st.dev.Repr()) && st.Valid() && NoLeak(st.State())
    ensures id < TABLE_SIZE + 2 && LiveId(st.obj[..], id) && st.obj[id - 2].size == n && st.Free() >= 5000
  {
    st, id := StoreWithObject(false);
    ghost var s := st.State();
    var data := seq(n, _ => 0);
    WriteAtStart(st, id, data);
    WrittenTable(s, id - 2, data, 0, st.State());
    WriteLeaksIff(s, id - 2, data, 0, st.State());
  }

  /** Writing one byte to an object of two blocks leaves the second block in use and unreachable. */
  method ShorterWriteLeaks() returns (st: ObjectStore)
    ensures st.Valid() && !NoLeak(st.State())
  {
    var id;
    st, id := StoreWithBlocks(8192);
    ghost var s := st.State();
    WriteAtStart(st, id, [7]);
    WriteLeaksIff(s, id - 2, [7], 0, st.State());
  }

  /** Writing data that does not fit. */
  method UnfitWriteBreaks(st: ObjectStore, id: int, data: seq<Byte>, offset: nat)
    requires st.Valid() && id < TABLE_SIZE + 2 && LiveId(st.obj[..], id) && st.Free() >= 4100
    requires var size := st.obj[id - 2].size;
      Aligned(size, offset, |data|) && !WriteFits(size, offset, |data|)
    modifies st.obj, st.dev.Repr()
    ensures st.Shape() && !st.Valid()
  {
    assert data[..|data|] == data;
    NeedAtMost(st.obj[id - 2].size, offset + |Kept(data, offset)|, offset / 4194304);
    var _ := st.Write(id, data, offset);
  }

  /** Writing 4 MiB to an object of one block, right behind that block, leaves a size without blocks. */
  method CrossingWriteBreaks() returns (st: ObjectStore)
    ensures st.Shape() && !st.Valid()
  {
    var id;
    st, id := StoreWithBlocks(4096);
    UnfitWriteBreaks(st, id, seq(4194304, _ => 0), 4096);
  }

  /** Writing nothing to an object of two blocks, behind the first one, takes both away and leaves the size at one. */
  method EmptyWriteBreaks() returns (st: ObjectStore)
    ensures st.Shape() && !st.Valid()
  {
    var id;
    st, id := StoreWithBlocks(8192);
    UnfitWriteBreaks(st, id, [], 4096);
  }

  // ----- destroys that go wrong -----

  /** Whenever an indirect block of an object is cached and none is named in a list on the disk, destroying the object
      leaves the device inconsistent. */
  method DestroyCachedBreaks(st: ObjectStore, x: nat, key: Key)
    requires st.Valid() && Holds(st.obj[..], x, key)
    requires var d, list := st.dev.State(), IndirectBlocks(st.obj[..], x);
      StaleInBitmap(d, list) && NamesNone(d, list) && !Uncached(d, list)
    modifies st.obj, st.dev.Repr()
    ensures !C.Inv(st.dev.State()) && !st.Valid()
    ensures FreedOnDevice(old(st.dev.State()), old(st.obj[..]), x, st.dev.State(), st.obj[..])
  {
    var _ := st.Destroy(key);
  }

  /** In the cached build, every object of every store that has something in it: if the store has just been mounted and
      somebody asks for the object's size, destroying it leaves the device inconsistent. */
  method DestroyAfterStatBreaks(st: ObjectStore, id: int)
    requires st.Valid() && st.dev.cached && id < TABLE_SIZE + 2 && LiveId(st.obj[..], id) && st.obj[id - 2].size > 0
    modifies st, st.obj, st.dev.Repr()
    ensures !C.Inv(st.dev.State()) && !st.Valid()
  {
    st.Remount();
    var _, _, _ := st.Stat(id);
    st.SettledBeforeDestroy(id - 2);
    DestroyCachedBreaks(st, id - 2, st.obj[id - 2].key);
  }

  /** In the cached build, a store with one object, which has just been written to for the first time. */
  method StoreAfterFirstWrite(data: seq<Byte>) returns (st: ObjectStore, x: nat)
    requires 0 < |data| <= 4194304
    ensures fresh(st.obj) && fresh(st.dev.Repr()) && st.Valid() && Holds(st.obj[..], x, [97])
    ensures forall y | Live(st.obj[..], y) :: y == x
    ensures var list := IndirectBlocks(st.obj[..], x);
      && StaleInBitmap(st.dev.State(), list) && NamesNone(st.dev.State(), list) && !Uncached(st.dev.State(), list)
      && C.UsedBlocks(C.FreeAll(st.dev.State(), list)) != {}
  {
    var id;
    st, id := StoreWithObject(true);
    x := id - 2;
    ghost var s0 := st.State();
    WriteAtStart(st, id, data);
    WrittenTable(s0, x, data, 0, st.State());
    st.FirstWriteBeforeDestroy(x, s0);
  }

  /** In the cached build, an object is destroyed right after it was first written to, without a mount in between: the
      device is inconsistent, and blocks are in use although there is no object. */
  method DestroyAfterFirstWriteBreaks(data: seq<Byte>) returns (st: ObjectStore)
    requires 0 < |data| <= 4194304
    ensures !C.Inv(st.dev.State()) && !st.Valid()
    ensures (forall y :: !Live(st.obj[..], y)) && C.UsedBlocks(st.dev.State()) != {}
  {
    var x;
    st, x := StoreAfterFirstWrite(data);
    DestroyCachedBreaks(st, x, [97]);
  }

  // ----- a rename that goes wrong -----

  /** A store with two objects whose names, aB and b!, have the same hash. */
  method StoreWithColliding() returns (st: ObjectStore, h: nat)
    ensures fresh(st) && fresh(st.obj) && fresh(st.dev.Repr()) && st.Valid() && h + 1 < TABLE_SIZE
    ensures Hash([98, 33]) == h && Holds(st.obj[..], h, [97, 66]) && Holds(st.obj[..], h + 1, [98, 33])
    ensures forall x | Live(st.obj[..], x) :: x == h || x == h + 1
  {
    CollidingKeys();
    h := 863176;
    st := new ObjectStore(true, DATA_BLOCKS_START, DATA_BLOCKS_START);
    ghost var s := st.State();
    NotRefusedAtHole(s.objs, [97, 66]);
    AddObject(st, [97, 66], h);
    ghost var s1 := st.State();
    StopsBehind(s1.objs, [98, 33]);
    AddObject(st, [98, 33], h + 1);
  }

  /** Creating an object where it is known which slot it gets. */
  method AddObject(st: ObjectStore, key: Key, ghost x: nat)
    requires st.Valid() && |key| < 32 && !Present(st.obj[..], key)
    requires FirstStop(st.obj[..], key, x) && !Live(st.obj[..], x)
    modifies st.obj
    ensures st.Valid() && st.obj[..] == old(st.obj[..])[x := FreshObject(x, key)]
  {
    ghost var s := st.State();
    var id := st.Create(key);
    CreatedAt(s.objs, key, st.obj[..], id, x);
    CreateRefines(s, key, st.obj[..], id);
  }

  /** Rename the first of them away and back to the name of the second: nothing notices, and two objects have it. */
  method UndetectedRenameBreaks() returns (st: ObjectStore)
    ensures st.Shape() && !st.Valid()
  {
    var h;
    st, h := StoreWithColliding();
    ghost var s := st.State();
    assert !Live(st.obj[..], 0);
    AbsentIsNotRefused(s.objs, [99]);
    var id := st.Rename([97, 66], [99]);
    MovedAway(s, [97, 66], [99], st.State(), id, h);
    NotRefusedAtHole(st.obj[..], [98, 33]);
    id := st.Rename([99], [98, 33]);
  }
}
