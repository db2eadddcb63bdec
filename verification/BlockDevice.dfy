/** The block device as objstore.c drives it: in-place arrays, both builds (with and without CACHE). */
module BlockDevices {
  import opened Blocks
  import opened Unfolding
  import C = BlockCache

  class BlockDevice {
    const cached: bool  // whether the program was compiled with CACHE
    const disk: array<Block>
    const bitmap: array<nat>
    const cache: array<Block>
    const slots: array<nat>
    const dirty: array<bool>
    var last: nat

    // What the device means to its users: the contents of every block, cached or not, and the used blocks.
    ghost var contents: seq<Block>
    ghost var used: set<int>

    ghost function Repr(): set<object> {
      {this, disk, bitmap, cache, slots, dirty}
    }

    /** The arrays as a value. */
    ghost function State(): C.Device
      reads Repr()
    {
      C.Device(disk[..], bitmap[..], cache[..], slots[..], dirty[..], last)
    }

    /** The arrays are as the constructor made them. */
    ghost predicate Allocated() {
      && disk != cache && bitmap != slots && DATA_BLOCKS_START <= disk.Length <= bitmap.Length
      && cache.Length == slots.Length == dirty.Length == C.CACHE_PAGES
    }

    ghost predicate Consistent()
      reads Repr()
    {
      && Allocated()
      && C.Inv(State())
      && (!cached ==> forall b | 0 <= b < bitmap.Length :: bitmap[b] <= 1)
    }

    ghost predicate Represents()
      reads Repr()
    {
      Consistent() && contents == C.LogicalDisk(State()) && used == C.UsedBlocks(State())
    }

    /** Represents, behind a trigger: users of the device carry it along without unfolding it. */
    ghost predicate Valid()
      reads Repr()
    {
      && Allocated() && |contents| == disk.Length
      && forall k {:trigger Unfold(InDevice, k)} :: Unfold(InDevice, k) ==> Represents()
    }

    lemma Open()
      requires Valid()
      ensures Represents()
    {
      assert Unfold(InDevice, 0);
    }

    constructor (cached: bool, blocks: nat, bits: nat)
      requires DATA_BLOCKS_START <= blocks <= bits
      ensures Valid() && fresh(Repr()) && this.cached == cached
      ensures disk.Length == blocks && bitmap.Length == bits && used == {}
    {
      this.cached := cached;
      disk := new Block[blocks](_ => seq(BLOCK_SIZE, _ => 0));
      bitmap := new nat[bits](_ => 0);
      cache := new Block[C.CACHE_PAGES](_ => seq(BLOCK_SIZE, _ => 0));
      slots := new nat[C.CACHE_PAGES](_ => 0);
      dirty := new bool[C.CACHE_PAGES](_ => false);
      last := 1;
      new;
      C.MountedIsPlain(State(), disk[..]);
      contents := disk[..];
      used := {};
      assert forall b | 0 <= b < bits :: State().bitmap[b] == 0;
    }

    // ----- the cache -----

    method Flush(i: nat)
      requires Consistent() && cached && i < C.CACHE_PAGES && slots[i] != 0
      modifies disk, slots, bitmap
      ensures State() == C.Flush(old(State()), i)
    {
      var b := slots[i];
      if dirty[i] {
        disk[b] := cache[i];
      }
      slots[i] := 0;
      bitmap[b] := 1;
    }

    method GetFreeCachePage() returns (i: nat)
      requires Consistent() && cached
      modifies this`last, disk, slots, bitmap
      ensures State() == C.Evict(old(State())) && i == last
      ensures i == if old(last) < 32767 then old(last) + 1 else 2
    {
      i := (last + 1) % C.CACHE_PAGES;
      if i < 2 {
        i := 2;
      }
      last := i;
      if slots[i] != 0 {
        Flush(i);
      }
    }

    /** read_cached on a block that has no cache page yet. */
    method Load(b: nat) returns (buf: Block)
      requires Consistent() && cached && 1 <= b < disk.Length && bitmap[b] == 1
      modifies this`last, disk, slots, bitmap, dirty, cache
      ensures State() == C.Read(old(State()), b) && buf == disk[b]
      ensures bitmap[b] == last < slots.Length && slots[last] == b && !dirty[last] && cache[last] == buf
    {
      C.EvictIsInvisible(State());
      var i := GetFreeCachePage();
      slots[i] := b;
      bitmap[b] := i;
      dirty[i] := false;
      buf := disk[b];
      cache[i] := buf;
    }

    /** read_cached; !ok stands for the return value -1. */
    method ReadCached(b: nat) returns (ok: bool, buf: Block)
      requires Consistent() && 1 <= b < disk.Length
      modifies this`last, disk, slots, bitmap, dirty, cache
      ensures ok <==> cached && old(bitmap[b]) != 0
      ensures State() == if ok then C.Read(old(State()), b) else old(State())
      ensures ok ==> bitmap[b] < cache.Length && buf == cache[bitmap[b]]
    {
      buf := cache[0];
      ok := cached && bitmap[b] != 0;
      if ok {
        if bitmap[b] == 1 {
          buf := Load(b);
        } else {
          buf := cache[bitmap[b]];
        }
      }
    }

    /** write_cached; !ok stands for the return value -1. */
    method WriteCached(b: nat, buf: Block) returns (ok: bool)
      requires Consistent() && 1 <= b < disk.Length
      modifies this`last, disk, slots, bitmap, dirty, cache
      ensures ok <==> cached && old(bitmap[b]) != 0
      ensures State() == if ok then C.Write(old(State()), b, buf) else old(State())
    {
      ok := cached && bitmap[b] != 0;
      if ok {
        var i;
        if bitmap[b] > 1 {
          i := bitmap[b];
        } else {
          C.EvictIsInvisible(State());
          i := GetFreeCachePage();
          bitmap[b] := i;
          slots[i] := b;
        }
        cache[i] := buf;
        dirty[i] := true;
      }
    }

    /** The disk holds what block k holds. */
    ghost predicate Settled(k: int)
      reads this`contents, disk
    {
      0 <= k < disk.Length && |contents| == disk.Length && disk[k] == contents[k]
    }

    /** The idiom "if read_cached(...) == -1 then read_block(...)": the block's logical contents. In the cached build a
        used block then has a page. */
    method Fetch(b: nat) returns (buf: Block)
      requires Valid() && 1 <= b < disk.Length
      modifies Repr()
      ensures Valid() && contents == old(contents) && used == old(used) && buf == contents[b]
      ensures forall k | old(Settled(k)) :: Settled(k)
      ensures cached && b in used ==> bitmap[b] > 1
      ensures old(bitmap[b]) > 1 ==> State() == old(State())
    {
      Open();
      ghost var d := State();
      if cached && bitmap[b] != 0 {
        C.ReadIsInvisible(d, b);
      }
      var ok;
      ok, buf := ReadCached(b);
      if !ok {
        buf := disk[b];
      } else {
        forall k | old(Settled(k))
          ensures Settled(k)
        {
          C.ReadKeepsSettled(d, b, k);
        }
      }
    }

    /** The idiom "if write_cached(...) == -1 then write_block(...)". In the cached build, what is written to a used
        block stays in its page. */
    method Put(b: nat, buf: Block)
      requires Valid() && 1 <= b < disk.Length
      modifies Repr()
      ensures Valid() && contents == old(contents)[b := buf] && used == old(used)
      ensures forall k | old(Settled(k)) && k != b :: Settled(k)
      ensures cached && b in used ==> bitmap[b] > 1 && disk[b] == old(disk[b])
    {
      Open();
      ghost var d := State();
      if cached && bitmap[b] != 0 {
        C.WriteUpdates(d, b, buf);
        C.WriteStaysInCache(d, b, buf);
      }
      var ok := WriteCached(b, buf);
      contents := contents[b := buf];
      if !ok {
        C.RawWriteUpdates(State(), b, buf);
        disk[b] := buf;
        assert State() == d.(disk := d.disk[b := buf]);
      } else {
        forall k | old(Settled(k)) && k != b
          ensures Settled(k)
        {
          C.WriteKeepsSettled(d, b, buf, k);
        }
      }
    }

    /** read_block: what is on the disk, which is what the block holds if it is not cached. */
    method ReadBlock(b: nat) returns (buf: Block)
      requires b < disk.Length
      ensures buf == disk[b] && (Valid() && bitmap[b] <= 1 ==> buf == contents[b])
    {
      buf := disk[b];
      if Valid() {
        Open();
      }
    }

    // ----- allocation -----

    /** get_new_datablock: first fit. */
    method GetNewDatablock() returns (r: int)
      requires Valid()
      modifies bitmap, this`used
      ensures Valid()
      ensures r == -1 ==> used == old(used) && forall b | DATA_BLOCKS_START <= b < disk.Length :: b in used
      ensures r != -1 ==>
        && DATA_BLOCKS_START <= r < disk.Length && bitmap[r] == 1
        && r !in old(used) && (forall b | DATA_BLOCKS_START <= b < r :: b in old(used))
        && used == old(used) + {r}
    {
      Open();
      for i := DATA_BLOCKS_START to disk.Length
        invariant State() == old(State()) && Represents() && used == old(used)
        invariant forall b | DATA_BLOCKS_START <= b < i :: bitmap[b] != 0
      {
        if bitmap[i] == 0 {
          C.ReserveUpdates(State(), i);
          bitmap[i] := 1;
          used := used + {i};
          assert State() == old(State()).(bitmap := old(State()).bitmap[i := 1]);
          return i;
        }
      }
      return -1;
    }

    /** initialize_block: writes past the cache. */
    method InitializeBlock(b: nat)
      requires Allocated() && 1 <= b < disk.Length
      modifies disk, this`contents
      ensures State() == old(State()).(disk := old(disk[..])[b := Encode(NoPointers())])
      ensures old(Valid()) && bitmap[b] <= 1 ==>
        Valid() && contents == old(contents)[b := Encode(NoPointers())]
    {
      ghost var wasValid := Valid() && bitmap[b] <= 1;
      var buf: Block := Encode(NoPointers());
      if wasValid {
        Open();
        C.RawWriteUpdates(State(), b, buf);
        contents := contents[b := buf];
      }
      disk[b] := buf;
      assert State() == old(State()).(disk := old(disk[..])[b := buf]);
    }

    /** What the freeing code needs to stay within its arrays. */
    ghost predicate Indexable()
      reads Repr()
    {
      Allocated() && C.Shape(State()) && C.PagesFound(State())
    }

    /** clear_block_bitmap. */
    method ClearBlockBitmap(b: nat)
      requires Allocated() && b < bitmap.Length
      modifies bitmap, this`used
      ensures State() == C.Release(old(State()), b)
      ensures old(Valid() && bitmap[b] <= 1) ==> Valid() && used == old(used) - {b}
    {
      ghost var wasValid := Valid() && bitmap[b] <= 1;
      if wasValid {
        Open();
        C.ReleaseSafeIffUncached(State(), b);
        used := used - {b};
      }
      bitmap[b] := 0;
    }

    /** The loop body of free_data_block: forget the block's cache page and free the block. */
    method DiscardBlock(b: nat)
      requires Indexable() && b < bitmap.Length
      modifies slots, dirty, bitmap, this`contents, this`used
      ensures Indexable() && State() == C.Discard(old(State()), b)
      ensures bitmap[b] == 0 && (old(bitmap[b]) > 1 ==> slots[old(bitmap[b])] == 0 && !dirty[old(bitmap[b])])
      ensures old(Valid()) ==> Valid() && used == old(used) - {b}
      ensures old(Valid()) ==> forall k | 0 <= k < disk.Length && k != b :: contents[k] == old(contents[k])
    {
      ghost var wasValid := Valid();
      C.DiscardKeepsShape(State(), b);
      if wasValid {
        Open();
        C.DiscardUpdates(State(), b);
        contents := C.LogicalDisk(C.Discard(State(), b));
        used := used - {b};
      }
      var i := bitmap[b];
      if i > 1 {
        slots[i] := 0;
        dirty[i] := false;
      }
      bitmap[b] := 0;
      assert State() == C.Discard(old(State()), b);
    }

    /** The loop of free_data_block: discard the blocks listed before the first -1. */
    method DiscardListed(block: Pointers, ghost list: seq<int>)
      requires Indexable() && C.InBitmap(State(), list) && list == C.List(block)
      modifies Repr()
      ensures Indexable() && State() == C.DiscardAll(old(State()), list) && (old(Valid()) ==> Valid())
    {
      ghost var d, wasValid := State(), Valid();
      C.DiscardAllKeepsShape(d, list);
      var i := 0;
      while i < 1024 && block[i] != -1
        invariant 0 <= i <= |list| && Indexable() && State() == C.DiscardAll(d, list[..i])
        invariant wasValid ==> Valid()
      {
        C.DiscardOneMore(d, list, i);
        DiscardBlock(block[i]);
        i := i + 1;
      }
      assert list[..i] == list;
    }

    /** free_data_block: free the blocks that the indirect block p lists on the disk, and the block itself. It is safe
        exactly when p has no cache page, unless p lists itself. */
    method FreeDataBlock(p: nat)
      requires Indexable() && p < disk.Length && C.InBitmap(State(), C.Listed(State(), p))
      modifies Repr()
      ensures Indexable() && State() == C.FreeBlock(old(State()), p)
      ensures old(C.Inv(State())) ==>
        (C.Inv(State()) <==> old(bitmap[p]) <= 1 || p in C.Listed(old(State()), p))
      ensures old(Valid()) && C.Inv(State()) ==> Valid()
    {
      ghost var d, list := State(), C.Listed(State(), p);
      if C.Inv(d) {
        C.FreeBlockSafeIff(d, p);
        C.DiscardAllBitmap(d, list, p);
      }
      if old(Valid()) {
        Open();
      }
      var buf := ReadBlock(p);
      var block := DecodeBlock(buf);
      DiscardListed(block, list);
      ClearBlockBitmap(p);
    }

    /** destroy_object, from d on, has freed the first c of the listed indirect blocks. */
    ghost predicate Freed(d: C.Device, list: seq<int>, c: nat, wasValid: bool)
      requires C.CanFree(d, list) && c <= |list|
      reads Repr()
    {
      && Indexable() && State() == C.FreeAll(d, list[..c])
      && (wasValid ==> C.Inv(d) && (C.Inv(State()) ==> Valid()))
    }

    ghost predicate Freeing(d: C.Device, list: seq<int>, c: nat, wasValid: bool)
      reads Repr()
    {
      && C.CanFree(d, list) && c <= |list|
      && forall k {:trigger Unfold(InDevice, k)} :: Unfold(InDevice, k) ==> Freed(d, list, c, wasValid)
    }

    /** One turn of the loop of destroy_object, which is at indirect block c. */
    method FreeNext(ptrs: seq<int>, c: nat, ghost d: C.Device, ghost list: seq<int>, ghost wasValid: bool)
      requires Freeing(d, list, c, wasValid) && list <= ptrs && c < |list|
      modifies Repr()
      ensures Freeing(d, list, c + 1, wasValid)
    {
      assert Unfold(InDevice, 0);
      C.FreeOneMore(d, list, c);
      C.NextIndexed(d, list, c);
      if C.Inv(d) {
        C.BrokenStays(d, list, c);
      }
      FreeDataBlock(ptrs[c]);
    }

    /** The loop of destroy_object: free the object's indirect blocks and what they list. */
    method FreeIndirectBlocks(ptrs: seq<int>)
      requires Indexable() && C.CanFree(State(), C.List(ptrs))
      modifies Repr()
      ensures Indexable() && State() == C.FreeAll(old(State()), C.List(ptrs))
      ensures old(Valid()) && C.Inv(State()) ==> Valid()
    {
      ghost var d, list, wasValid := State(), C.List(ptrs), Valid();
      if wasValid {
        Open();
      }
      var c := 0;
      while c < |ptrs| && ptrs[c] != -1
        invariant c <= |list| && Freeing(d, list, c, wasValid)
      {
        FreeNext(ptrs, c, d, list, wasValid);
        c := c + 1;
      }
      assert Unfold(InDevice, 0);
      assert list[..c] == list;
    }

    // ----- unmount and mount -----

    /** cache_sync, started on device d, has dealt with the pages before i. */
    ghost predicate Synced(d: C.Device, i: nat)
      requires C.Shape(d) && Allocated() && |d.disk| == disk.Length && |d.bitmap| == bitmap.Length && i <= C.CACHE_PAGES
      reads disk, slots, dirty, bitmap, cache
    {
      && cache[..] == d.cache
      && (forall k | i <= k < C.CACHE_PAGES :: slots[k] == d.slots[k] && dirty[k] == d.dirty[k])
      && (forall b | 0 <= b < bitmap.Length :: bitmap[b] == if 1 < d.bitmap[b] < i then 1 else d.bitmap[b])
      && (forall b | 0 <= b < disk.Length :: disk[b] == if 1 < d.bitmap[b] < i then d.cache[d.bitmap[b]] else d.disk[b])
    }

    /** One turn of the loop of cache_sync. */
    method SyncPage(i: nat, ghost d: C.Device)
      requires C.Shape(d) && Allocated() && |d.disk| == disk.Length && |d.bitmap| == bitmap.Length
      requires i < C.CACHE_PAGES && C.PageOk(d, i) && Synced(d, i)
      modifies disk, slots, dirty, bitmap
      ensures Synced(d, i + 1)
    {
      if slots[i] == 0 {
        return;
      }
      var b := slots[i];
      if !dirty[i] {
        bitmap[b] := 1;
        return;
      }
      disk[b] := cache[i];
      slots[i] := 0;
      dirty[i] := false;
      bitmap[b] := 1;
    }

    /** cache_sync. Clean pages keep their slots entry, so the device is only usable again after Reset. */
    method CacheSync()
      requires Valid()
      modifies disk, slots, dirty, bitmap
      ensures disk[..] == contents
      ensures forall b | 0 <= b < bitmap.Length :: bitmap[b] == if b in used then 1 else 0
    {
      Open();
      if !cached {
        return;
      }
      ghost var d := State();
      for i := 0 to C.CACHE_PAGES
        invariant Synced(d, i)
      {
        C.PagesOk(d, i);
        SyncPage(i, d);
      }
    }

    /** The loops of objstore_init: load the saved bitmap and empty the cache. */
    method Reset(saved: seq<nat>)
      requires Allocated()
      requires |saved| == bitmap.Length && forall b | 0 <= b < |saved| :: saved[b] <= 1
      modifies this, bitmap, slots, dirty
      ensures Valid() && contents == disk[..] && bitmap[..] == saved && last == 1
      ensures forall i | 0 <= i < C.CACHE_PAGES :: slots[i] == 0 && !dirty[i]
      ensures used == set b | 0 <= b < |saved| && saved[b] != 0
    {
      forall b | 0 <= b < bitmap.Length {
        bitmap[b] := saved[b];
      }
      last := 1;
      for i := 0 to C.CACHE_PAGES
        invariant forall k | 0 <= k < i :: slots[k] == 0 && !dirty[k]
        invariant last == 1 && bitmap[..] == saved
      {
        slots[i] := 0;
        dirty[i] := false;
      }
      C.MountedIsPlain(State(), disk[..]);
      contents := disk[..];
      used := C.UsedBlocks(State());
    }
  }
}
