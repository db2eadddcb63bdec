/** The write-back block cache of objstore.c, and the proof that it is invisible: in every run of cached reads and
    writes, reservations and discards, reads answer exactly as on a plain disk. */
module BlockCache {
  import opened Blocks

  const CACHE_PAGES: nat := 32768  // pages 0 and 1 are never used

  /** The block device together with the cache bookkeeping of the super object.
      bitmap[b] is 0 for a free block, 1 for a used one, and otherwise the cache page that holds block b;
      slots[i] is 0 for an empty cache page and otherwise the block it holds. */
  datatype Device = Device(
    disk: seq<Block>, bitmap: seq<nat>,
    cache: seq<Block>, slots: seq<nat>, dirty: seq<bool>, last: nat)

  predicate Shape(d: Device) {
    && |d.disk| <= |d.bitmap|
    && |d.cache| == |d.slots| == |d.dirty| == CACHE_PAGES
    && 1 <= d.last < CACHE_PAGES
  }

  /** The page that a block is said to be in holds it. */
  predicate PagesFound(d: Device)
    requires Shape(d)
  {
    forall b | 0 <= b < |d.bitmap| && d.bitmap[b] > 1 ::
      1 <= b < |d.disk| && d.bitmap[b] < CACHE_PAGES && d.slots[d.bitmap[b]] == b
  }

  /** bitmap and slots are inverse to each other on pages 2 .. CACHE_PAGES - 1. */
  predicate Inverse(d: Device)
    requires Shape(d)
  {
    && PagesFound(d)
    && (forall i | 0 <= i < CACHE_PAGES && d.slots[i] != 0 ::
          2 <= i && d.slots[i] < |d.disk| && d.bitmap[d.slots[i]] == i)
  }

  predicate CleanIsOnDisk(d: Device)
    requires Shape(d) && Inverse(d)
  {
    forall i | 0 <= i < CACHE_PAGES && d.slots[i] != 0 && !d.dirty[i] :: d.cache[i] == d.disk[d.slots[i]]
  }

  predicate Inv(d: Device) {
    Shape(d) && Inverse(d) && CleanIsOnDisk(d)
  }

  /** What the invariant says about one page. */
  predicate PageOk(d: Device, i: nat)
    requires Shape(d) && i < CACHE_PAGES
  {
    && (forall b | 0 <= b < |d.bitmap| && d.bitmap[b] == i && i > 1 :: d.slots[i] == b && b != 0)
    && (d.slots[i] != 0 ==>
          && 2 <= i && d.slots[i] < |d.disk| && d.bitmap[d.slots[i]] == i
          && (!d.dirty[i] ==> d.cache[i] == d.disk[d.slots[i]]))
  }

  lemma PagesOk(d: Device, i: nat)
    requires Inv(d) && i < CACHE_PAGES
    ensures PageOk(d, i)
  {
  }

  /** What a block holds for a reader who does not know about the cache. */
  function Logical(d: Device, b: int): Block
    requires Inv(d) && 0 <= b < |d.disk|
  {
    if d.bitmap[b] > 1 then d.cache[d.bitmap[b]] else d.disk[b]
  }

  function LogicalDisk(d: Device): (r: seq<Block>)
    requires Inv(d)
    ensures |r| == |d.disk|
  {
    seq(|d.disk|, b requires 0 <= b < |d.disk| => Logical(d, b))
  }

  function UsedBlocks(d: Device): set<int> {
    set b | 0 <= b < |d.bitmap| && d.bitmap[b] != 0
  }

  predicate SameAllocation(d: Device, d': Device)
    ensures SameAllocation(d, d') ==> UsedBlocks(d) == UsedBlocks(d')
  {
    && |d.bitmap| == |d'.bitmap|
    && forall b | 0 <= b < |d.bitmap| :: d.bitmap[b] == 0 <==> d'.bitmap[b] == 0
  }

  // ----- the operations -----

  /** flush_cache: write the page back if dirty, then detach it from its block. */
  function Flush(d: Device, i: int): Device
    requires Inv(d) && 0 <= i < CACHE_PAGES && d.slots[i] != 0
  {
    var b := d.slots[i];
    d.(disk := if d.dirty[i] then d.disk[b := d.cache[i]] else d.disk,
       slots := d.slots[i := 0],
       bitmap := d.bitmap[b := 1])
  }

  function NextPage(last: nat): nat {
    var i := (last + 1) % CACHE_PAGES;
    if i < 2 then 2 else i
  }

  /** get_free_cache_page: round robin over the pages, evicting whatever the chosen page holds. */
  function Evict(d: Device): Device
    requires Inv(d)
  {
    var d1 := d.(last := NextPage(d.last));
    if d1.slots[d1.last] != 0 then Flush(d1, d1.last) else d1
  }

  function Read(d: Device, b: int): Device
    requires Inv(d) && 1 <= b < |d.disk| && d.bitmap[b] != 0
  {
    if d.bitmap[b] > 1 then d else
      var d1 := Evict(d);
      var i := d1.last;
      d1.(slots := d1.slots[i := b], bitmap := d1.bitmap[b := i], dirty := d1.dirty[i := false],
          cache := d1.cache[i := d1.disk[b]])
  }

  function Write(d: Device, b: int, buf: Block): Device
    requires Inv(d) && 1 <= b < |d.disk| && d.bitmap[b] != 0
  {
    var d1 := if d.bitmap[b] > 1 then d else Evict(d);
    var i := if d.bitmap[b] > 1 then d.bitmap[b] else d1.last;
    d1.(slots := d1.slots[i := b], bitmap := d1.bitmap[b := i], dirty := d1.dirty[i := true],
        cache := d1.cache[i := buf])
  }

  // ----- each operation keeps the invariant and its effect on the logical disk -----

  lemma FlushIsInvisible(d: Device, i: int)
    requires Inv(d) && 0 <= i < CACHE_PAGES && d.slots[i] != 0
    ensures Inv(Flush(d, i))
    ensures LogicalDisk(Flush(d, i)) == LogicalDisk(d)
    ensures SameAllocation(d, Flush(d, i)) && Flush(d, i).slots[i] == 0
    ensures forall b | 0 <= b < |d.bitmap| && d.bitmap[b] <= 1 :: Flush(d, i).bitmap[b] == d.bitmap[b]
  {
  }

  lemma EvictIsInvisible(d: Device)
    requires Inv(d)
    ensures Inv(Evict(d)) && 2 <= Evict(d).last && Evict(d).slots[Evict(d).last] == 0
    ensures LogicalDisk(Evict(d)) == LogicalDisk(d)
    ensures SameAllocation(d, Evict(d))
    ensures forall b | 0 <= b < |d.bitmap| && d.bitmap[b] <= 1 :: Evict(d).bitmap[b] == d.bitmap[b]
  {
    var d1 := d.(last := NextPage(d.last));
    assert LogicalDisk(d1) == LogicalDisk(d);
    if d1.slots[d1.last] != 0 {
      FlushIsInvisible(d1, d1.last);
    }
  }

  /** Attaching block b to an empty page whose contents become buf. */
  lemma AttachUpdates(d: Device, i: int, b: int, buf: Block, dirty: bool)
    requires Inv(d) && 2 <= i < CACHE_PAGES && d.slots[i] == 0
    requires 1 <= b < |d.disk| && d.bitmap[b] == 1 && (dirty || buf == d.disk[b])
    ensures var d' := d.(slots := d.slots[i := b], bitmap := d.bitmap[b := i], dirty := d.dirty[i := dirty],
                         cache := d.cache[i := buf]);
      Inv(d') && LogicalDisk(d') == LogicalDisk(d)[b := buf] && SameAllocation(d, d')
  {
  }

  lemma ReadIsInvisible(d: Device, b: int)
    requires Inv(d) && 1 <= b < |d.disk| && d.bitmap[b] != 0
    ensures Inv(Read(d, b)) && LogicalDisk(Read(d, b)) == LogicalDisk(d) && SameAllocation(d, Read(d, b))
    ensures Read(d, b).bitmap[b] > 1 && Read(d, b).cache[Read(d, b).bitmap[b]] == LogicalDisk(d)[b]
  {
    if d.bitmap[b] == 1 {
      EvictIsInvisible(d);
      var d1 := Evict(d);
      assert LogicalDisk(d1)[b] == d1.disk[b];
      AttachUpdates(d1, d1.last, b, d1.disk[b], false);
    }
  }

  lemma WriteUpdates(d: Device, b: int, buf: Block)
    requires Inv(d) && 1 <= b < |d.disk| && d.bitmap[b] != 0
    ensures Inv(Write(d, b, buf)) && SameAllocation(d, Write(d, b, buf))
    ensures LogicalDisk(Write(d, b, buf)) == LogicalDisk(d)[b := buf]
  {
    if d.bitmap[b] == 1 {
      EvictIsInvisible(d);
      var d1 := Evict(d);
      AttachUpdates(d1, d1.last, b, buf, true);
    }
  }

  /** write_block on a block that is not cached. */
  lemma RawWriteUpdates(d: Device, b: int, buf: Block)
    requires Inv(d) && 0 <= b < |d.disk| && d.bitmap[b] <= 1
    ensures var d' := d.(disk := d.disk[b := buf]);
      Inv(d') && LogicalDisk(d') == LogicalDisk(d)[b := buf]
  {
  }

  lemma ReserveUpdates(d: Device, b: int)
    requires Inv(d) && 1 <= b < |d.disk| && d.bitmap[b] == 0
    ensures var d' := d.(bitmap := d.bitmap[b := 1]);
      Inv(d') && LogicalDisk(d') == LogicalDisk(d) && UsedBlocks(d') == UsedBlocks(d) + {b}
  {
  }

  /** An all-clean start from a disk that was written back and a bitmap of zeros and ones. */
  lemma MountedIsPlain(d: Device, disk: seq<Block>)
    requires Shape(d) && d.disk == disk
    requires forall b | 0 <= b < |d.bitmap| :: d.bitmap[b] <= 1
    requires forall i | 0 <= i < CACHE_PAGES :: d.slots[i] == 0
    ensures Inv(d) && LogicalDisk(d) == disk
  {
  }

  // ----- freeing -----

  /** clear_block_bitmap. */
  function Release(d: Device, b: int): Device {
    if 0 <= b < |d.bitmap| then d.(bitmap := d.bitmap[b := 0]) else d
  }

  /** clear_block_bitmap is safe exactly on blocks that have no cache page: otherwise the page keeps
      naming a block that no longer points back to it. */
  lemma ReleaseSafeIffUncached(d: Device, b: int)
    requires Inv(d) && 0 <= b < |d.bitmap|
    ensures var d' := Release(d, b);
      && (Inv(d') <==> d.bitmap[b] <= 1)
      && UsedBlocks(d') == UsedBlocks(d) - {b}
      && (d.bitmap[b] <= 1 ==> LogicalDisk(d') == LogicalDisk(d))
  {
    if d.bitmap[b] > 1 {
      assert d.slots[d.bitmap[b]] == b;
    }
  }

  /** One step of free_data_block's loop: drop the page of block b, if any, and free the block. */
  function Discard(d: Device, b: int): Device {
    var i := if 0 <= b < |d.bitmap| then d.bitmap[b] else 0;
    var d1 :=
      if 1 < i < |d.slots| && i < |d.dirty| then d.(slots := d.slots[i := 0], dirty := d.dirty[i := false]) else d;
    Release(d1, b)
  }

  lemma DiscardUpdates(d: Device, b: int)
    requires Inv(d) && 0 <= b < |d.bitmap|
    ensures Inv(Discard(d, b)) && UsedBlocks(Discard(d, b)) == UsedBlocks(d) - {b}
    ensures forall k | 0 <= k < |d.disk| && k != b :: Logical(Discard(d, b), k) == Logical(d, k)
    ensures forall k | 0 <= k < |d.bitmap| && k != b :: Discard(d, b).bitmap[k] == d.bitmap[k]
  {
    DiscardIs(d, b);
    DiscardKeepsInv(d, b);
  }

  /** The case distinctions of Discard come down to one where the bitmap can be trusted. */
  lemma DiscardIs(d: Device, b: int)
    requires Shape(d) && PagesFound(d) && 0 <= b < |d.bitmap|
    ensures var i := d.bitmap[b];
      Discard(d, b) ==
      if i > 1 then d.(slots := d.slots[i := 0], dirty := d.dirty[i := false], bitmap := d.bitmap[b := 0])
      else d.(bitmap := d.bitmap[b := 0])
  {
  }

  lemma DiscardKeepsInv(d: Device, b: int)
    requires Inv(d) && 0 <= b < |d.bitmap|
    ensures Inv(Discard(d, b))
  {
    DiscardIs(d, b);
  }

  /** Where a list of block numbers ends: at the first -1. */
  function ListLength(p: seq<int>, from: nat): (n: nat)
    requires from <= |p|
    ensures from <= n <= |p| && (forall e | from <= e < n :: p[e] != -1) && (n < |p| ==> p[n] == -1)
    decreases |p| - from
  {
    if from < |p| && p[from] != -1 then ListLength(p, from + 1) else from
  }

  lemma {:induction false} ListLengthIs(p: seq<int>, from: nat, n: nat)
    requires from <= n <= |p| && (forall e | from <= e < n :: p[e] != -1) && (n < |p| ==> p[n] == -1)
    ensures ListLength(p, from) == n
    decreases n - from
  {
    if from < n {
      ListLengthIs(p, from + 1, n);
    }
  }

  /** The block numbers before the first -1. */
  function List(p: seq<int>): seq<int> {
    p[..ListLength(p, 0)]
  }

  /** The blocks that free_data_block finds listed in block p: it looks on the disk, not in the cache. */
  ghost function Listed(d: Device, p: int): seq<int> {
    if 0 <= p < |d.disk| then List(Decode(d.disk[p])) else []
  }

  ghost predicate InBitmap(d: Device, blocks: seq<int>) {
    forall k | 0 <= k < |blocks| :: 0 <= blocks[k] < |d.bitmap|
  }

  /** The device keeps its shape, its disk and what its bitmap says about pages. */
  predicate SameShape(d: Device, d': Device) {
    && Shape(d') && PagesFound(d') && d'.disk == d.disk && d'.cache == d.cache && |d'.bitmap| == |d.bitmap|
    && d'.last == d.last
  }

  lemma DiscardKeepsShape(d: Device, b: int)
    requires Shape(d) && PagesFound(d) && 0 <= b < |d.bitmap|
    ensures SameShape(d, Discard(d, b))
  {
  }

  /** The loop of free_data_block. */
  ghost function DiscardAll(d: Device, blocks: seq<int>): Device
    decreases |blocks|
  {
    if blocks == [] then d else Discard(DiscardAll(d, blocks[..|blocks| - 1]), blocks[|blocks| - 1])
  }

  lemma {:induction false} DiscardAllKeepsShape(d: Device, blocks: seq<int>)
    requires Shape(d) && PagesFound(d) && InBitmap(d, blocks)
    ensures SameShape(d, DiscardAll(d, blocks))
    decreases |blocks|
  {
    if blocks != [] {
      var n := |blocks| - 1;
      DiscardAllKeepsShape(d, blocks[..n]);
      DiscardKeepsShape(DiscardAll(d, blocks[..n]), blocks[n]);
    }
  }

  lemma DiscardOneMore(d: Device, blocks: seq<int>, n: nat)
    requires n < |blocks|
    ensures DiscardAll(d, blocks[..n + 1]) == Discard(DiscardAll(d, blocks[..n]), blocks[n])
  {
    assert blocks[..n + 1][..n] == blocks[..n];
  }

  /** free_data_block. */
  ghost function FreeBlock(d: Device, p: int): Device {
    Release(DiscardAll(d, Listed(d, p)), p)
  }

  /** What free_data_block needs to stay within its arrays. */
  ghost predicate Indexed(d: Device, p: int) {
    Shape(d) && PagesFound(d) && 0 <= p < |d.disk| && InBitmap(d, Listed(d, p))
  }

  lemma FreeBlockKeepsShape(d: Device, p: int)
    requires Indexed(d, p)
    ensures SameShape(d, FreeBlock(d, p))
  {
    DiscardAllKeepsShape(d, Listed(d, p));
  }

  /** What the loop leaves in the bitmap. */
  lemma {:induction false} DiscardAllBitmap(d: Device, blocks: seq<int>, b: int)
    requires Shape(d) && PagesFound(d) && InBitmap(d, blocks) && 0 <= b < |d.bitmap|
    ensures SameShape(d, DiscardAll(d, blocks))
    ensures DiscardAll(d, blocks).bitmap[b] == if b in blocks then 0 else d.bitmap[b]
    decreases |blocks|
  {
    DiscardAllKeepsShape(d, blocks);
    if blocks != [] {
      var n := |blocks| - 1;
      assert blocks == blocks[..n] + [blocks[n]];
      DiscardAllBitmap(d, blocks[..n], b);
      DiscardAllKeepsShape(d, blocks[..n]);
    }
  }

  lemma {:induction false} DiscardAllKeepsInv(d: Device, blocks: seq<int>)
    requires Inv(d) && InBitmap(d, blocks)
    ensures Inv(DiscardAll(d, blocks))
    decreases |blocks|
  {
    if blocks != [] {
      var n := |blocks| - 1;
      DiscardAllKeepsInv(d, blocks[..n]);
      DiscardAllKeepsShape(d, blocks[..n]);
      DiscardUpdates(DiscardAll(d, blocks[..n]), blocks[n]);
    }
  }

  /** Page i holds a block that the bitmap calls free. */
  predicate Dangling(d: Device, i: int) {
    0 <= i < |d.slots| && 0 < d.slots[i] < |d.bitmap| && d.bitmap[d.slots[i]] == 0
  }

  lemma DanglingBreaks(d: Device, i: int)
    requires Dangling(d, i)
    ensures !Inv(d)
  {
  }

  /** A dangling page is never noticed again by free_data_block. */
  lemma {:induction false} DanglingStays(d: Device, blocks: seq<int>, i: int)
    requires Shape(d) && PagesFound(d) && InBitmap(d, blocks) && Dangling(d, i)
    ensures Dangling(DiscardAll(d, blocks), i)
    decreases |blocks|
  {
    if blocks != [] {
      DanglingStays(d, blocks[..|blocks| - 1], i);
      DiscardAllKeepsShape(d, blocks[..|blocks| - 1]);
    }
  }

  /** free_data_block is safe exactly when the indirect block has no cache page, unless it lists itself. */
  lemma FreeBlockSafeIff(d: Device, p: int)
    requires Inv(d) && 0 <= p < |d.disk| && InBitmap(d, Listed(d, p))
    ensures Inv(FreeBlock(d, p)) <==> d.bitmap[p] <= 1 || p in Listed(d, p)
    ensures !Inv(FreeBlock(d, p)) ==> Dangling(FreeBlock(d, p), d.bitmap[p])
  {
    var d1 := DiscardAll(d, Listed(d, p));
    DiscardAllKeepsInv(d, Listed(d, p));
    DiscardAllKeepsShape(d, Listed(d, p));
    DiscardAllBitmap(d, Listed(d, p), p);
    ReleaseSafeIffUncached(d1, p);
  }

  // ----- destroying an object -----

  ghost predicate OnDisk(d: Device, ptrs: seq<int>) {
    forall c | 0 <= c < |ptrs| :: 0 <= ptrs[c] < |d.disk|
  }

  /** What destroy_object may be called on: block numbers and lists within the bitmap. */
  ghost predicate CanFree(d: Device, ptrs: seq<int>) {
    && Shape(d) && PagesFound(d) && OnDisk(d, ptrs)
    && forall c | 0 <= c < |ptrs| :: InBitmap(d, Listed(d, ptrs[c]))
  }

  /** The loop of destroy_object over the indirect pointers before the first -1. */
  ghost function FreeAll(d: Device, ptrs: seq<int>): Device
    decreases |ptrs|
  {
    if ptrs == [] then d else FreeBlock(FreeAll(d, ptrs[..|ptrs| - 1]), ptrs[|ptrs| - 1])
  }

  lemma {:induction false} FreeAllKeepsShape(d: Device, ptrs: seq<int>)
    requires CanFree(d, ptrs)
    ensures SameShape(d, FreeAll(d, ptrs))
    decreases |ptrs|
  {
    if ptrs != [] {
      var n := |ptrs| - 1;
      FreeAllKeepsShape(d, ptrs[..n]);
      SameListed(d, FreeAll(d, ptrs[..n]), ptrs[n]);
      FreeBlockKeepsShape(FreeAll(d, ptrs[..n]), ptrs[n]);
    }
  }

  /** Block b is one of the indirect blocks, or one of them lists it. */
  ghost predicate ClearedBy(d: Device, ptrs: seq<int>, b: int)
    requires OnDisk(d, ptrs)
  {
    exists c :: 0 <= c < |ptrs| && (b == ptrs[c] || b in Listed(d, ptrs[c]))
  }

  lemma ClearedByOneMore(d: Device, ptrs: seq<int>, b: int)
    requires OnDisk(d, ptrs) && ptrs != []
    ensures var n := |ptrs| - 1;
      ClearedBy(d, ptrs, b) <==> ClearedBy(d, ptrs[..n], b) || b == ptrs[n] || b in Listed(d, ptrs[n])
  {
    var n := |ptrs| - 1;
    if ClearedBy(d, ptrs[..n], b) {
      var c :| 0 <= c < n && (b == ptrs[..n][c] || b in Listed(d, ptrs[..n][c]));
      assert b == ptrs[c] || b in Listed(d, ptrs[c]);
    }
    if ClearedBy(d, ptrs, b) {
      var c :| 0 <= c < |ptrs| && (b == ptrs[c] || b in Listed(d, ptrs[c]));
      assert c < n ==> b == ptrs[..n][c] || b in Listed(d, ptrs[..n][c]);
    }
  }

  lemma FreeBlockBitmap(d: Device, p: int, b: int)
    requires Shape(d) && PagesFound(d) && 0 <= p < |d.disk| && InBitmap(d, Listed(d, p)) && 0 <= b < |d.bitmap|
    ensures SameShape(d, FreeBlock(d, p))
    ensures FreeBlock(d, p).bitmap[b] == if b == p || b in Listed(d, p) then 0 else d.bitmap[b]
  {
    DiscardAllBitmap(d, Listed(d, p), b);
    DiscardAllKeepsShape(d, Listed(d, p));
  }

  lemma SameListed(d: Device, d': Device, p: int)
    requires d'.disk == d.disk && 0 <= p < |d.disk|
    ensures Listed(d', p) == Listed(d, p)
  {
  }

  /** What destroy_object leaves in the bitmap. */
  lemma {:induction false} FreeAllBitmap(d: Device, ptrs: seq<int>, b: int)
    requires CanFree(d, ptrs) && 0 <= b < |d.bitmap|
    ensures SameShape(d, FreeAll(d, ptrs))
    ensures FreeAll(d, ptrs).bitmap[b] == if ClearedBy(d, ptrs, b) then 0 else d.bitmap[b]
    decreases |ptrs|
  {
    FreeAllKeepsShape(d, ptrs);
    if ptrs != [] {
      var n := |ptrs| - 1;
      FreeAllBitmap(d, ptrs[..n], b);
      FreeAllKeepsShape(d, ptrs[..n]);
      SameListed(d, FreeAll(d, ptrs[..n]), ptrs[n]);
      FreeBlockBitmap(FreeAll(d, ptrs[..n]), ptrs[n], b);
      ClearedByOneMore(d, ptrs, b);
    }
  }

  /** The indirect block ptrs[c] has no cache page when destroy_object gives it back. */
  ghost predicate FreedSafely(d: Device, ptrs: seq<int>, c: int)
    requires 0 <= c < |ptrs| && OnDisk(d, ptrs)
  {
    0 <= ptrs[c] < |d.bitmap| &&
    (d.bitmap[ptrs[c]] <= 1 || ptrs[c] in Listed(d, ptrs[c]) || ClearedBy(d, ptrs[..c], ptrs[c]))
  }

  ghost predicate AllFreedSafely(d: Device, ptrs: seq<int>)
    requires OnDisk(d, ptrs)
  {
    forall c | 0 <= c < |ptrs| :: FreedSafely(d, ptrs, c)
  }

  lemma OneMoreFreedSafely(d: Device, ptrs: seq<int>)
    requires OnDisk(d, ptrs) && ptrs != []
    ensures AllFreedSafely(d, ptrs) <==>
      AllFreedSafely(d, ptrs[..|ptrs| - 1]) && FreedSafely(d, ptrs, |ptrs| - 1)
  {
    var n := |ptrs| - 1;
    forall c | 0 <= c < n
      ensures FreedSafely(d, ptrs[..n], c) <==> FreedSafely(d, ptrs, c)
    {
      assert ptrs[..n][..c] == ptrs[..c];
    }
  }

  lemma LastFreedSafely(d: Device, ptrs: seq<int>)
    requires CanFree(d, ptrs) && ptrs != [] && Inv(FreeAll(d, ptrs[..|ptrs| - 1]))
    ensures Inv(FreeAll(d, ptrs)) <==> FreedSafely(d, ptrs, |ptrs| - 1)
    ensures !Inv(FreeAll(d, ptrs)) ==> exists i :: Dangling(FreeAll(d, ptrs), i)
  {
    var n := |ptrs| - 1;
    FreeAllBitmap(d, ptrs[..n], ptrs[n]);
    FreeAllKeepsShape(d, ptrs[..n]);
    SameListed(d, FreeAll(d, ptrs[..n]), ptrs[n]);
    FreeBlockSafeIff(FreeAll(d, ptrs[..n]), ptrs[n]);
  }

  lemma StaysBroken(d: Device, ptrs: seq<int>, i: int)
    requires CanFree(d, ptrs) && ptrs != [] && Dangling(FreeAll(d, ptrs[..|ptrs| - 1]), i)
    ensures Dangling(FreeAll(d, ptrs), i) && !Inv(FreeAll(d, ptrs))
  {
    var n := |ptrs| - 1;
    var d1 := FreeAll(d, ptrs[..n]);
    FreeAllKeepsShape(d, ptrs[..n]);
    SameListed(d, d1, ptrs[n]);
    DanglingStays(d1, Listed(d1, ptrs[n]), i);
    DiscardAllKeepsShape(d1, Listed(d1, ptrs[n]));
    DanglingBreaks(FreeAll(d, ptrs), i);
  }

  /** destroy_object is safe exactly when none of the object's indirect blocks has a cache page when its turn comes. */
  lemma {:induction false} DestroySafeIff(d: Device, ptrs: seq<int>)
    requires Inv(d) && CanFree(d, ptrs)
    ensures Inv(FreeAll(d, ptrs)) <==> AllFreedSafely(d, ptrs)
    ensures !Inv(FreeAll(d, ptrs)) ==> exists i :: Dangling(FreeAll(d, ptrs), i)
    decreases |ptrs|
  {
    if ptrs != [] {
      var n := |ptrs| - 1;
      DestroySafeIff(d, ptrs[..n]);
      OneMoreFreedSafely(d, ptrs);
      if Inv(FreeAll(d, ptrs[..n])) {
        LastFreedSafely(d, ptrs);
      } else {
        var i :| Dangling(FreeAll(d, ptrs[..n]), i);
        StaysBroken(d, ptrs, i);
      }
    }
  }

  lemma FewerCanFree(d: Device, ptrs: seq<int>, n: nat)
    requires CanFree(d, ptrs) && n <= |ptrs|
    ensures CanFree(d, ptrs[..n])
  {
  }

  /** One turn of the loop of destroy_object. */
  lemma FreeOneMore(d: Device, ptrs: seq<int>, n: nat)
    requires n < |ptrs|
    ensures FreeAll(d, ptrs[..n + 1]) == FreeBlock(FreeAll(d, ptrs[..n]), ptrs[n])
  {
    assert ptrs[..n + 1][..n] == ptrs[..n];
  }

  lemma NextIndexed(d: Device, ptrs: seq<int>, n: nat)
    requires CanFree(d, ptrs) && n < |ptrs|
    ensures Indexed(FreeAll(d, ptrs[..n]), ptrs[n])
  {
    FewerCanFree(d, ptrs, n);
    FreeAllKeepsShape(d, ptrs[..n]);
    SameListed(d, FreeAll(d, ptrs[..n]), ptrs[n]);
  }

  /** What a turn of that loop breaks stays broken. */
  lemma BrokenStays(d: Device, ptrs: seq<int>, n: nat)
    requires n < |ptrs| && Inv(d) && CanFree(d, ptrs)
    ensures Inv(FreeAll(d, ptrs[..n + 1])) ==> Inv(FreeAll(d, ptrs[..n]))
  {
    assert ptrs[..n + 1][..n] == ptrs[..n];
    FewerCanFree(d, ptrs, n);
    FewerCanFree(d, ptrs, n + 1);
    if !Inv(FreeAll(d, ptrs[..n])) {
      DestroySafeIff(d, ptrs[..n]);
      var i :| Dangling(FreeAll(d, ptrs[..n]), i);
      StaysBroken(d, ptrs[..n + 1], i);
    }
  }

  /** Of a block whose cached contents differ from the disk, free_data_block reads another list than the one in use. */
  lemma StaleIffDiffers(d: Device, p: int)
    requires Inv(d) && 0 <= p < |d.disk|
    ensures Decode(d.disk[p]) == Decode(Logical(d, p)) <==> d.disk[p] == Logical(d, p)
    ensures d.disk[p] != Logical(d, p) ==> d.bitmap[p] > 1 && d.dirty[d.bitmap[p]]
  {
    EncodeDecode(d.disk[p]);
    EncodeDecode(Logical(d, p));
    if d.bitmap[p] > 1 {
      assert d.slots[d.bitmap[p]] == p;
    }
  }

  /** Any read of an allocated block makes giving it back unsafe. */
  lemma ReleaseAfterReadBreaks(d: Device, b: int)
    requires Inv(d) && 1 <= b < |d.disk| && d.bitmap[b] != 0
    ensures Inv(Read(d, b)) && !Inv(Release(Read(d, b), b))
  {
    ReadIsInvisible(d, b);
    ReleaseSafeIffUncached(Read(d, b), b);
  }

  /** The block is as initialize_block leaves it on the disk. */
  predicate Initialized(d: Device, p: int) {
    0 <= p < |d.disk| && d.disk[p] == Encode(NoPointers())
  }

  lemma InitializedListsNothing(d: Device, p: int)
    requires Initialized(d, p)
    ensures Listed(d, p) == []
  {
    DecodeEncode(NoPointers());
  }

  lemma EvictSpares(d: Device, b: int)
    requires Inv(d) && 0 <= b < |d.disk| && d.bitmap[b] <= 1
    ensures Evict(d).disk[b] == d.disk[b]
  {
  }

  /** Entries written to a new indirect block p stay in the cache, whether or not p had a page before. If p is then
      freed, free_data_block finds nothing listed on the disk: the data block q stays in use with nobody to free it,
      and the cache page of p holds a block that is free. */
  lemma FreeAfterFirstWrite(d: Device, p: int, entries: Pointers, q: int)
    requires Inv(d) && 1 <= p < |d.disk| && d.bitmap[p] != 0 && Initialized(d, p)
    requires entries[0] == q && 0 <= q < |d.disk| && q != p && d.bitmap[q] != 0
    ensures var d1 := Write(d, p, Encode(entries));
      && Inv(d1) && Decode(Logical(d1, p)) == entries && Listed(d1, p) == []
      && !Inv(FreeBlock(d1, p)) && q in UsedBlocks(FreeBlock(d1, p))
  {
    var d1 := Write(d, p, Encode(entries));
    WriteUpdates(d, p, Encode(entries));
    assert LogicalDisk(d1)[p] == Encode(entries);
    DecodeEncode(entries);
    WriteStaysInCache(d, p, Encode(entries));
    InitializedListsNothing(d1, p);
    FreeBlockSafeIff(d1, p);
  }

  // ----- what reads and writes leave on the disk -----

  /** The disk holds what the block holds. */
  predicate Settled(d: Device, k: int)
    requires Inv(d)
  {
    0 <= k < |d.disk| && d.disk[k] == Logical(d, k)
  }

  lemma EvictKeepsSettled(d: Device, k: int)
    requires Inv(d) && Inv(Evict(d)) && LogicalDisk(Evict(d)) == LogicalDisk(d) && Settled(d, k)
    ensures Settled(Evict(d), k)
  {
    assert LogicalDisk(Evict(d))[k] == LogicalDisk(d)[k];
  }

  /** A read takes no block further from the disk. */
  lemma ReadKeepsSettled(d: Device, b: int, k: int)
    requires Inv(d) && 1 <= b < |d.disk| && d.bitmap[b] != 0 && Inv(Read(d, b)) && Settled(d, k)
    ensures Settled(Read(d, b), k)
  {
    if d.bitmap[b] == 1 {
      EvictIsInvisible(d);
      EvictKeepsSettled(d, k);
    }
  }

  /** Nor does a write, but for its own block. */
  lemma WriteKeepsSettled(d: Device, b: int, buf: Block, k: int)
    requires Inv(d) && 1 <= b < |d.disk| && d.bitmap[b] != 0 && Inv(Write(d, b, buf)) && Settled(d, k) && k != b
    ensures Settled(Write(d, b, buf), k)
  {
    if d.bitmap[b] == 1 {
      EvictIsInvisible(d);
      EvictKeepsSettled(d, k);
    }
  }

  /** That one stays on the disk as it was, and in the cache. */
  lemma WriteStaysInCache(d: Device, b: int, buf: Block)
    requires Inv(d) && 1 <= b < |d.disk| && d.bitmap[b] != 0
    ensures Write(d, b, buf).disk[b] == d.disk[b] && Write(d, b, buf).bitmap[b] > 1
  {
    if d.bitmap[b] == 1 {
      EvictIsInvisible(d);
      EvictSpares(d, b);
    }
  }

  ghost predicate NothingDirty(d: Device)
    requires Shape(d)
  {
    forall i | 0 <= i < CACHE_PAGES && d.slots[i] != 0 :: !d.dirty[i]
  }

  /** A page is loaded clean: as long as nothing is written, reads only read the disk. */
  lemma ReadWritesNothing(d: Device, b: int)
    requires Inv(d) && NothingDirty(d) && 1 <= b < |d.disk| && d.bitmap[b] != 0
    ensures Read(d, b).disk == d.disk && NothingDirty(Read(d, b))
  {
  }

  // ----- every run -----

  datatype Op =
    | ReadOp(block: int)
    | WriteOp(block: int, buf: Block)
    | ReserveOp(block: int)  // get_new_datablock has found this block free
    | DiscardOp(block: int)  // a turn of the loop of free_data_block

  predicate Allowed(d: Device, op: Op) {
    1 <= op.block < |d.disk| <= |d.bitmap| &&
      (if op.ReserveOp? then d.bitmap[op.block] == 0 else d.bitmap[op.block] != 0)
  }

  function Step(d: Device, op: Op): Device
    requires Inv(d) && Allowed(d, op)
  {
    match op
    case ReadOp(b) => Read(d, b)
    case WriteOp(b, buf) => Write(d, b, buf)
    case ReserveOp(b) => d.(bitmap := d.bitmap[b := 1])
    case DiscardOp(b) => Discard(d, b)
  }

  /** What read_cached copies out. */
  function ReadAnswer(d: Device, b: int): Block
    requires Inv(d) && Allowed(d, ReadOp(b))
  {
    ReadIsInvisible(d, b);
    Read(d, b).cache[Read(d, b).bitmap[b]]
  }

  /** A plain disk: the contents of the blocks that have been written since they were reserved. */
  type Plain = map<int, Block>

  function PlainStep(p: Plain, op: Op): Plain {
    match op
    case ReadOp(b) => p
    case WriteOp(b, buf) => p[b := buf]
    case ReserveOp(b) => p - {b}
    case DiscardOp(b) => p - {b}
  }

  /** Every block of the plain disk is allocated and holds, logically, what the plain disk holds. */
  ghost predicate Agrees(d: Device, p: Plain) {
    Inv(d) && forall b | b in p :: 1 <= b < |d.disk| && d.bitmap[b] != 0 && LogicalDisk(d)[b] == p[b]
  }

  lemma StepAgrees(d: Device, op: Op, p: Plain)
    requires Agrees(d, p) && Allowed(d, op)
    ensures Agrees(Step(d, op), PlainStep(p, op))
    ensures op.ReadOp? && op.block in p ==> ReadAnswer(d, op.block) == p[op.block]
  {
    match op
    case ReadOp(b) => ReadIsInvisible(d, b);
    case WriteOp(b, buf) => WriteUpdates(d, b, buf);
    case ReserveOp(b) => ReserveUpdates(d, b);
    case DiscardOp(b) => DiscardUpdates(d, b);
  }

  /** states[i] leads to states[i + 1] by ops[i]; the answer to a read is answers[i]. */
  ghost predicate IsRun(states: seq<Device>, ops: seq<Op>, answers: seq<Block>) {
    && |states| == |ops| + 1 && |answers| == |ops| && Inv(states[0])
    && forall i | 0 <= i < |ops| :: StepAt(states, ops, answers, i)
  }

  ghost predicate StepAt(states: seq<Device>, ops: seq<Op>, answers: seq<Block>, i: nat)
    requires i < |ops| && |states| == |ops| + 1 && |answers| == |ops|
  {
    && Inv(states[i]) && Allowed(states[i], ops[i]) && states[i + 1] == Step(states[i], ops[i])
    && (ops[i].ReadOp? ==> answers[i] == ReadAnswer(states[i], ops[i].block))
  }

  function PlainAfter(p: Plain, ops: seq<Op>, n: nat): Plain
    requires n <= |ops|
  {
    if n == 0 then p else PlainStep(PlainAfter(p, ops, n - 1), ops[n - 1])
  }

  lemma {:induction false} RunAgrees(states: seq<Device>, ops: seq<Op>, answers: seq<Block>, p: Plain, n: nat)
    requires IsRun(states, ops, answers) && Agrees(states[0], p) && n <= |ops|
    ensures Agrees(states[n], PlainAfter(p, ops, n))
  {
    if n > 0 {
      RunAgrees(states, ops, answers, p, n - 1);
      assert StepAt(states, ops, answers, n - 1);
      StepAgrees(states[n - 1], ops[n - 1], PlainAfter(p, ops, n - 1));
    }
  }

  // ----- how long a block stays cached -----

  /** The page that the round robin is at after k turns. */
  function Turn(last: nat, k: nat): nat {
    if k == 0 then last else NextPage(Turn(last, k - 1))
  }

  lemma NextInTurn(page: nat)
    requires 2 <= page < 32768
    ensures NextPage(page) == if page < 32767 then page + 1 else 2
  {
  }

  lemma NextRemainder(m: nat)
    ensures (m + 1) % 32766 == if m % 32766 < 32765 then m % 32766 + 1 else 0
  {
  }

  /** The round robin takes the pages from 2 on in turn, and starts again after the last. */
  lemma {:induction false} TurnIs(last: nat, k: nat)
    requires 2 <= last < 32768
    ensures Turn(last, k) == 2 + (last - 2 + k) % 32766
  {
    if k > 0 {
      TurnIs(last, k - 1);
      NextInTurn(Turn(last, k - 1));
      NextRemainder(last - 3 + k);
    }
  }

  lemma NotYetAgain(last: nat, k: nat)
    requires 2 <= last < 32768 && k < 32765
    ensures NextPage(Turn(last, k)) != last
  {
    TurnIs(last, k + 1);
  }

  /** Nothing but the round robin takes a block out of its page, unless the block is discarded. */
  lemma StepKeepsPage(d: Device, op: Op, b: int)
    requires Inv(d) && Allowed(d, op) && !op.DiscardOp? && 0 <= b < |d.disk|
    requires d.bitmap[b] > 1 && d.bitmap[b] != NextPage(d.last)
    ensures |Step(d, op).disk| == |d.disk| && |Step(d, op).bitmap| == |d.bitmap|
    ensures Step(d, op).bitmap[b] == d.bitmap[b]
    ensures Step(d, op).last == d.last || Step(d, op).last == NextPage(d.last)
  {
    assert d.slots[d.bitmap[b]] == b;
  }

  lemma RunKeepsPage(states: seq<Device>, ops: seq<Op>, answers: seq<Block>, b: int, i: nat)
    requires IsRun(states, ops, answers) && i < |ops| && !ops[i].DiscardOp?
    requires 0 <= b < |states[i].disk| && b < |states[i].bitmap|
    requires states[i].bitmap[b] > 1 && states[i].bitmap[b] != NextPage(states[i].last)
    ensures |states[i + 1].disk| == |states[i].disk| && |states[i + 1].bitmap| == |states[i].bitmap|
    ensures states[i + 1].bitmap[b] == states[i].bitmap[b]
    ensures states[i + 1].last == states[i].last || states[i + 1].last == NextPage(states[i].last)
  {
    assert StepAt(states, ops, answers, i);
    StepKeepsPage(states[i], ops[i], b);
  }

  /** A block that has just been loaded keeps its page for the next 32765 reads, writes and reservations. */
  lemma {:induction false} LoadedStays(states: seq<Device>, ops: seq<Op>, answers: seq<Block>, b: int, n: nat)
    returns (k: nat)
    requires IsRun(states, ops, answers) && n <= |ops| && n < 32766 && forall i | 0 <= i < n :: !ops[i].DiscardOp?
    requires 0 <= b < |states[0].disk| && states[0].bitmap[b] == states[0].last > 1
    ensures |states[n].disk| == |states[0].disk| && k <= n && states[n].last == Turn(states[0].last, k)
    ensures b < |states[n].bitmap| && states[n].bitmap[b] == states[0].last
  {
    k := 0;
    if n > 0 {
      k := LoadedStays(states, ops, answers, b, n - 1);
      NotYetAgain(states[0].last, k);
      RunKeepsPage(states, ops, answers, b, n - 1);
      if states[n].last != states[n - 1].last {
        k := k + 1;
      }
    }
  }

  /** In every run, every read answers what the plain disk holds, and the bookkeeping stays consistent. */
  lemma CacheRefinesDisk(states: seq<Device>, ops: seq<Op>, answers: seq<Block>, p: Plain, n: nat)
    requires IsRun(states, ops, answers) && Agrees(states[0], p) && n < |ops|
    ensures Inv(states[n + 1])
    ensures ops[n].ReadOp? && ops[n].block in PlainAfter(p, ops, n) ==>
      answers[n] == PlainAfter(p, ops, n)[ops[n].block]
  {
    RunAgrees(states, ops, answers, p, n);
    assert StepAt(states, ops, answers, n);
    StepAgrees(states[n], ops[n], PlainAfter(p, ops, n));
  }
}
