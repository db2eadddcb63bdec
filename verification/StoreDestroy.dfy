/** What destroy_object, working on the block device, does to the store. */
module StoreDestroy {
  import opened Blocks
  import opened KeyTable
  import opened StoreModel
  import opened StoreWrite
  import C = BlockCache

  /** The store that a device and an object table hold. */
  ghost function StoreOf(d: C.Device, objs: seq<Object>): Store
    requires C.Inv(d)
  {
    Store(Views(C.LogicalDisk(d)), C.UsedBlocks(d), objs)
  }

  /** The indirect blocks of an object, as destroy_object finds them. */
  function IndirectBlocks(objs: seq<Object>, x: int): seq<int>
    requires 0 <= x < |objs|
  {
    C.List(objs[x].ptrs)
  }

  ghost predicate Uncached(d: C.Device, blocks: seq<int>) {
    forall c | 0 <= c < |blocks| :: 0 <= blocks[c] < |d.bitmap| && d.bitmap[blocks[c]] <= 1
  }

  /** The disk holds what these blocks hold; it does so for all that are not cached. */
  ghost predicate AllSettled(d: C.Device, blocks: seq<int>)
    requires C.Inv(d)
  {
    forall c | 0 <= c < |blocks| :: C.Settled(d, blocks[c])
  }

  lemma ExtentMonotone(size: int, c: int, c': int)
    requires c <= c' && Extent(size, c) == 0
    ensures Extent(size, c') == 0
  {
    assert !StartsBefore(size, c, 0);
    assert !StartsBefore(size, c', 0);
  }

  lemma PointerInUse(s: Store, x: int, c: int)
    requires Inv(s) && Live(s.objs, x) && 0 <= c < 4
    ensures if Extent(s.objs[x].size, c) == 0 then s.objs[x].ptrs[c] == -1
            else InUse(s, Ind(x, c)) && DATA_BLOCKS_START <= s.objs[x].ptrs[c] < |s.blocks|
  {
    assert DenseObject(s, x) && InRange(s, Ind(x, c));
    assert InUse(s, Ind(x, c)) ==> At(s, Ind(x, c)) in s.used;
  }

  /** destroy_object finds exactly the indirect blocks in use. */
  lemma IndirectBlocksInUse(s: Store, x: int, c: int)
    requires Inv(s) && Live(s.objs, x) && 0 <= c < 4
    ensures c < |IndirectBlocks(s.objs, x)| <==> Extent(s.objs[x].size, c) > 0
  {
    var ptrs := s.objs[x].ptrs;
    var n := C.ListLength(ptrs, 0);
    PointerInUse(s, x, c);
    if c >= n {
      PointerInUse(s, x, n);
      ExtentMonotone(s.objs[x].size, n, c);
    }
  }

  lemma CachedPointer(d: C.Device, s: Store, x: int, c: int)
    requires Inv(s) && Live(s.objs, x) && 0 <= c < 4
    requires 0 <= s.objs[x].ptrs[c] < |d.bitmap| && d.bitmap[s.objs[x].ptrs[c]] > 1
    ensures c < |IndirectBlocks(s.objs, x)| && !Uncached(d, IndirectBlocks(s.objs, x))
  {
    IndirectBlocksInUse(s, x, c);
    PointerInUse(s, x, c);
  }

  lemma IndirectBlocksOnDisk(d: C.Device, s: Store, x: int)
    requires C.Inv(d) && s == StoreOf(d, s.objs) && Inv(s) && Live(s.objs, x)
    ensures C.OnDisk(d, IndirectBlocks(s.objs, x)) && |IndirectBlocks(s.objs, x)| <= 4
  {
    forall c | 0 <= c < |IndirectBlocks(s.objs, x)|
      ensures 0 <= IndirectBlocks(s.objs, x)[c] < |d.disk|
    {
      IndirectBlocksInUse(s, x, c);
      PointerInUse(s, x, c);
    }
  }

  lemma ListEndsAt(p: Pointers, m: int)
    requires 0 <= m <= POINTERS && (forall e | 0 <= e < m :: p[e] != -1) && (forall e | m <= e < POINTERS :: p[e] == -1)
    ensures C.List(p) == p[..m]
  {
    C.ListLengthIs(p, 0, m);
  }

  /** An indirect block that is on the disk as it is lists there exactly the blocks behind it. */
  lemma ListedAreEntries(d: C.Device, s: Store, bn: int, m: int)
    requires C.Inv(d) && s == StoreOf(d, s.objs) && GoodEntries(s, bn, m) && C.Settled(d, bn)
    ensures C.InBitmap(d, C.Listed(d, bn))
    ensures forall b :: b in C.Listed(d, bn) <==> IsEntry(s, bn, 0, m, b)
  {
    var p := Decode(d.disk[bn]);
    assert C.LogicalDisk(d)[bn] == d.disk[bn];
    assert forall e | 0 <= e < POINTERS :: p[e] == Entry(s, bn, e);
    ListEndsAt(p, m);
    forall b
      ensures b in p[..m] <==> IsEntry(s, bn, 0, m, b)
    {
      if IsEntry(s, bn, 0, m, b) {
        var e :| 0 <= e < m && Entry(s, bn, e) == b;
        assert p[..m][e] == b;
      }
    }
  }

  /** What the object owns behind indirect block c. */
  ghost predicate OwnsAt(s: Store, x: int, c: int, b: int)
    requires Readable(s, x) && 0 <= c < 4
  {
    Extent(s.objs[x].size, c) > 0 &&
    (b == s.objs[x].ptrs[c] || IsEntry(s, s.objs[x].ptrs[c], 0, Extent(s.objs[x].size, c), b))
  }

  lemma OwnsSomewhere(s: Store, x: int, b: int)
    requires Inv(s) && Live(s.objs, x)
    ensures Owns(s, x, b) <==> exists c :: 0 <= c < 4 && OwnsAt(s, x, c, b)
  {
    if Owns(s, x, b) {
      var sl :| InUse(s, sl) && sl.x == x && At(s, sl) == b;
      assert sl.Data? ==> Entry(s, s.objs[x].ptrs[sl.c], sl.e) == b;
      assert OwnsAt(s, x, sl.c, b);
    }
    if c :| 0 <= c < 4 && OwnsAt(s, x, c, b) {
      if b == s.objs[x].ptrs[c] {
        assert InUse(s, Ind(x, c)) && At(s, Ind(x, c)) == b;
      } else {
        var e :| 0 <= e < Extent(s.objs[x].size, c) && Entry(s, s.objs[x].ptrs[c], e) == b;
        assert InUse(s, Data(x, c, e)) && At(s, Data(x, c, e)) == b;
      }
    }
  }

  /** Behind an indirect block that is on the disk as it is, destroy_object clears what the object owns there. */
  lemma ClearedAtIsOwned(d: C.Device, s: Store, x: int, c: int, b: int)
    requires C.Inv(d) && s == StoreOf(d, s.objs) && Inv(s) && Live(s.objs, x)
    requires 0 <= c < |IndirectBlocks(s.objs, x)| <= 4
    requires C.Settled(d, IndirectBlocks(s.objs, x)[c])
    ensures var p := IndirectBlocks(s.objs, x)[c];
      C.InBitmap(d, C.Listed(d, p)) && (OwnsAt(s, x, c, b) <==> b == p || b in C.Listed(d, p))
  {
    IndirectBlocksInUse(s, x, c);
    ObjectEntries(s, x, c);
    ListedAreEntries(d, s, s.objs[x].ptrs[c], Extent(s.objs[x].size, c));
  }

  /** With the indirect blocks on the disk as they are, destroy_object clears exactly the blocks of the object. */
  lemma ClearedAreOwned(d: C.Device, s: Store, x: int, b: int)
    requires C.Inv(d) && s == StoreOf(d, s.objs) && Inv(s) && Live(s.objs, x)
    requires AllSettled(d, IndirectBlocks(s.objs, x))
    ensures C.OnDisk(d, IndirectBlocks(s.objs, x))
    ensures C.ClearedBy(d, IndirectBlocks(s.objs, x), b) <==> Owns(s, x, b)
  {
    var list := IndirectBlocks(s.objs, x);
    IndirectBlocksOnDisk(d, s, x);
    OwnsSomewhere(s, x, b);
    forall c | 0 <= c < |list|
      ensures OwnsAt(s, x, c, b) <==> b == list[c] || b in C.Listed(d, list[c])
    {
      ClearedAtIsOwned(d, s, x, c, b);
    }
    forall c | |list| <= c < 4
      ensures !OwnsAt(s, x, c, b)
    {
      IndirectBlocksInUse(s, x, c);
    }
  }

  /** What is left of a cached indirect block's list on the disk lies within the bitmap. */
  ghost predicate StaleInBitmap(d: C.Device, blocks: seq<int>) {
    forall c | 0 <= c < |blocks| && 0 <= blocks[c] < |d.disk| && blocks[c] < |d.bitmap| && d.bitmap[blocks[c]] > 1 ::
      C.InBitmap(d, C.Listed(d, blocks[c]))
  }

  lemma CanFreeObject(d: C.Device, s: Store, x: int)
    requires C.Inv(d) && s == StoreOf(d, s.objs) && Inv(s) && Live(s.objs, x)
    requires StaleInBitmap(d, IndirectBlocks(s.objs, x))
    ensures C.CanFree(d, IndirectBlocks(s.objs, x))
  {
    IndirectBlocksOnDisk(d, s, x);
    forall c | 0 <= c < |IndirectBlocks(s.objs, x)|
      ensures C.InBitmap(d, C.Listed(d, IndirectBlocks(s.objs, x)[c]))
    {
      if d.bitmap[IndirectBlocks(s.objs, x)[c]] <= 1 {
        ClearedAtIsOwned(d, s, x, c, 0);
      }
    }
  }

  lemma KeptLogically(d: C.Device, ptrs: seq<int>, b: int)
    requires C.Inv(d) && C.CanFree(d, ptrs) && C.Inv(C.FreeAll(d, ptrs)) && 0 <= b < |d.disk|
    requires !C.ClearedBy(d, ptrs, b)
    ensures C.SameShape(d, C.FreeAll(d, ptrs)) && C.LogicalDisk(C.FreeAll(d, ptrs))[b] == C.LogicalDisk(d)[b]
  {
    C.FreeAllBitmap(d, ptrs, b);
  }

  lemma UncachedIsSafe(d: C.Device, ptrs: seq<int>)
    requires C.OnDisk(d, ptrs) && Uncached(d, ptrs)
    ensures C.AllFreedSafely(d, ptrs)
  {
  }

  // ----- when nothing is left in the cache -----

  /** None of these blocks is named in a list that one of them has on the disk. */
  ghost predicate NamesNone(d: C.Device, blocks: seq<int>) {
    forall c, c' | 0 <= c < |blocks| && 0 <= c' < |blocks| :: blocks[c] !in C.Listed(d, blocks[c'])
  }

  lemma IndirectBlocksDiffer(s: Store, x: int, c: int, c': int)
    requires Inv(s) && Live(s.objs, x) && 0 <= c < c' < |IndirectBlocks(s.objs, x)| <= 4
    ensures IndirectBlocks(s.objs, x)[c] != IndirectBlocks(s.objs, x)[c']
  {
    IndirectBlocksInUse(s, x, c);
    IndirectBlocksInUse(s, x, c');
    assert InUse(s, Ind(x, c)) && InUse(s, Ind(x, c'));
    assert At(s, Ind(x, c)) != At(s, Ind(x, c'));
  }

  /** As long as no list names an indirect block, one that is cached is never given back safely. */
  lemma SafeIffUncached(d: C.Device, s: Store, x: int)
    requires C.Inv(d) && s == StoreOf(d, s.objs) && Inv(s) && Live(s.objs, x)
    requires NamesNone(d, IndirectBlocks(s.objs, x))
    ensures C.OnDisk(d, IndirectBlocks(s.objs, x))
    ensures C.AllFreedSafely(d, IndirectBlocks(s.objs, x)) <==> Uncached(d, IndirectBlocks(s.objs, x))
  {
    var list := IndirectBlocks(s.objs, x);
    IndirectBlocksOnDisk(d, s, x);
    forall c | 0 <= c < |list|
      ensures C.FreedSafely(d, list, c) <==> d.bitmap[list[c]] <= 1
    {
      forall c' | 0 <= c' < c
        ensures list[c] != list[..c][c'] && list[c] !in C.Listed(d, list[..c][c'])
      {
        IndirectBlocksDiffer(s, x, c', c);
      }
    }
  }

  lemma SettledNamesNone(d: C.Device, s: Store, x: int)
    requires C.Inv(d) && s == StoreOf(d, s.objs) && Inv(s) && Live(s.objs, x)
    requires AllSettled(d, IndirectBlocks(s.objs, x))
    ensures NamesNone(d, IndirectBlocks(s.objs, x)) && StaleInBitmap(d, IndirectBlocks(s.objs, x))
  {
    var list := IndirectBlocks(s.objs, x);
    IndirectBlocksOnDisk(d, s, x);
    forall c' | 0 <= c' < |list|
      ensures C.InBitmap(d, C.Listed(d, list[c']))
      ensures forall c | 0 <= c < |list| :: list[c] !in C.Listed(d, list[c'])
    {
      IndirectBlocksInUse(s, x, c');
      ObjectEntries(s, x, c');
      ListedAreEntries(d, s, list[c'], Extent(s.objs[x].size, c'));
      forall c | 0 <= c < |list|
        ensures list[c] !in C.Listed(d, list[c'])
      {
        IndirectIsNoEntry(s, x, c, c');
      }
    }
  }

  lemma IndirectIsNoEntry(s: Store, x: int, c: int, c': int)
    requires Inv(s) && Live(s.objs, x) && |IndirectBlocks(s.objs, x)| <= 4
    requires 0 <= c < |IndirectBlocks(s.objs, x)| && 0 <= c' < |IndirectBlocks(s.objs, x)|
    ensures !IsEntry(s, IndirectBlocks(s.objs, x)[c'], 0, Extent(s.objs[x].size, c'), IndirectBlocks(s.objs, x)[c])
  {
    IndirectBlocksInUse(s, x, c);
    IndirectBlocksInUse(s, x, c');
    assert InUse(s, Ind(x, c));
    forall e | 0 <= e < Extent(s.objs[x].size, c')
      ensures Entry(s, s.objs[x].ptrs[c'], e) != s.objs[x].ptrs[c]
    {
      assert InUse(s, Data(x, c', e));
      assert At(s, Data(x, c', e)) != At(s, Ind(x, c));
    }
  }

  // ----- what becomes of the store -----

  /** What destroy_object does on finding object x: the device frees what its indirect blocks list on the disk. */
  ghost predicate FreedOnDevice(d: C.Device, objs: seq<Object>, x: int, d': C.Device, objs': seq<Object>) {
    && 0 <= x < |objs| && objs' == Removed(objs, x)
    && C.CanFree(d, IndirectBlocks(objs, x)) && d' == C.FreeAll(d, IndirectBlocks(objs, x))
  }

  /** Nothing that destroy_object clears belongs to another object. */
  ghost predicate ClearsNoOther(d: C.Device, s: Store, x: int)
    requires 0 <= x < |s.objs| && C.OnDisk(d, IndirectBlocks(s.objs, x))
  {
    forall sl | InUse(s, sl) && sl.x != x :: !C.ClearedBy(d, IndirectBlocks(s.objs, x), At(s, sl))
  }

  /** Of the used blocks, destroy_object clears exactly those of the object. */
  ghost predicate ClearsOwn(d: C.Device, s: Store, x: int)
    requires 0 <= x < |s.objs| && C.OnDisk(d, IndirectBlocks(s.objs, x))
  {
    forall b | b in s.used :: C.ClearedBy(d, IndirectBlocks(s.objs, x), b) <==> Owns(s, x, b)
  }

  /** Where the device stays consistent, the object is out of the store, and the blocks that are free are those that
      were cleared. */
  lemma ClearedAreFree(d: C.Device, s: Store, x: int)
    requires C.Inv(d) && s == StoreOf(d, s.objs) && Live(s.objs, x) && C.CanFree(d, IndirectBlocks(s.objs, x))
    requires C.Inv(C.FreeAll(d, IndirectBlocks(s.objs, x)))
    ensures var s' := StoreOf(C.FreeAll(d, IndirectBlocks(s.objs, x)), Removed(s.objs, x));
      && TakenOut(s, x, s')
      && forall b :: b in s'.used <==> b in s.used && !C.ClearedBy(d, IndirectBlocks(s.objs, x), b)
  {
    var list := IndirectBlocks(s.objs, x);
    C.FreeAllKeepsShape(d, list);
    var s' := StoreOf(C.FreeAll(d, list), Removed(s.objs, x));
    forall b
      ensures b in s'.used <==> b in s.used && !C.ClearedBy(d, list, b)
    {
      if 0 <= b < |d.bitmap| {
        C.FreeAllBitmap(d, list, b);
      }
    }
    forall b | b in s'.used && 0 <= b < |s.blocks|
      ensures s'.blocks[b] == s.blocks[b]
    {
      KeptLogically(d, list, b);
    }
  }

  /** Where the device stays consistent, the store is well formed exactly when no other object's block was cleared, and
      exactly the object and its blocks are gone exactly when those were cleared. */
  lemma FreedStoreIff(d: C.Device, s: Store, x: int)
    requires C.Inv(d) && s == StoreOf(d, s.objs) && Inv(s) && Live(s.objs, x) && C.CanFree(d, IndirectBlocks(s.objs, x))
    requires C.Inv(C.FreeAll(d, IndirectBlocks(s.objs, x)))
    ensures var s' := StoreOf(C.FreeAll(d, IndirectBlocks(s.objs, x)), Removed(s.objs, x));
      && (Inv(s') <==> ClearsNoOther(d, s, x))
      && (Destroyed(s, x, s') <==> ClearsOwn(d, s, x))
  {
    ClearedAreFree(d, s, x);
    var s' := StoreOf(C.FreeAll(d, IndirectBlocks(s.objs, x)), Removed(s.objs, x));
    TakenOutRightIff(s, x, s');
    assert OthersKept(s, x, s'.used) <==> ClearsNoOther(d, s, x);
  }

  /** What destroy_object has done, exactly: the device stays consistent if and only if no indirect block of the object
      has a cache page when its turn comes; then the store is well formed if and only if nothing of another object was
      cleared, and the object and its blocks are gone, and nothing else, if and only if just those were cleared. With
      no indirect block named in a list on the disk, all of that comes down to none of them being cached. */
  ghost predicate DestroyedOnDevice(d: C.Device, s: Store, x: int, d': C.Device, objs': seq<Object>) {
    && FreedOnDevice(d, s.objs, x, d', objs')
    && (C.Inv(d') <==> C.AllFreedSafely(d, IndirectBlocks(s.objs, x)))
    && (C.Inv(d') ==>
          && (Inv(StoreOf(d', objs')) <==> ClearsNoOther(d, s, x))
          && (Destroyed(s, x, StoreOf(d', objs')) <==> ClearsOwn(d, s, x)))
    && (Uncached(d, IndirectBlocks(s.objs, x)) ==>
          C.Inv(d') && Destroyed(s, x, StoreOf(d', objs')) && Inv(StoreOf(d', objs')))
    && (NamesNone(d, IndirectBlocks(s.objs, x)) ==> (C.Inv(d') <==> Uncached(d, IndirectBlocks(s.objs, x))))
  }

  lemma UncachedIsSettled(d: C.Device, s: Store, x: int)
    requires C.Inv(d) && s == StoreOf(d, s.objs) && Inv(s) && Live(s.objs, x) && Uncached(d, IndirectBlocks(s.objs, x))
    ensures AllSettled(d, IndirectBlocks(s.objs, x))
  {
    IndirectBlocksOnDisk(d, s, x);
  }

  /** With none of the object's indirect blocks in the cache, destroy_object takes the object, and its blocks, out of
      the store, and nothing else. */
  lemma DestroyedByFreeing(d: C.Device, s: Store, x: int)
    requires C.Inv(d) && s == StoreOf(d, s.objs) && Inv(s) && Live(s.objs, x) && Uncached(d, IndirectBlocks(s.objs, x))
    ensures C.CanFree(d, IndirectBlocks(s.objs, x)) && C.Inv(C.FreeAll(d, IndirectBlocks(s.objs, x)))
    ensures var s' := StoreOf(C.FreeAll(d, IndirectBlocks(s.objs, x)), Removed(s.objs, x));
      Destroyed(s, x, s') && Inv(s')
  {
    var list := IndirectBlocks(s.objs, x);
    IndirectBlocksOnDisk(d, s, x);
    CanFreeObject(d, s, x);
    UncachedIsSafe(d, list);
    C.DestroySafeIff(d, list);
    UncachedIsSettled(d, s, x);
    forall b
      ensures C.ClearedBy(d, list, b) <==> Owns(s, x, b)
    {
      ClearedAreOwned(d, s, x, b);
    }
    FreedStoreIff(d, s, x);
    DestroyKeepsInv(s, x, StoreOf(C.FreeAll(d, list), Removed(s.objs, x)));
  }

  /** destroy_object on object x of the store that device d holds. */
  lemma DestroyOutcome(d: C.Device, s: Store, x: int)
    requires C.Inv(d) && s == StoreOf(d, s.objs) && Inv(s) && Live(s.objs, x)
    requires StaleInBitmap(d, IndirectBlocks(s.objs, x))
    ensures C.CanFree(d, IndirectBlocks(s.objs, x))
    ensures DestroyedOnDevice(d, s, x, C.FreeAll(d, IndirectBlocks(s.objs, x)), Removed(s.objs, x))
  {
    CanFreeObject(d, s, x);
    C.DestroySafeIff(d, IndirectBlocks(s.objs, x));
    if C.Inv(C.FreeAll(d, IndirectBlocks(s.objs, x))) {
      FreedStoreIff(d, s, x);
    }
    if Uncached(d, IndirectBlocks(s.objs, x)) {
      DestroyedByFreeing(d, s, x);
    }
    if NamesNone(d, IndirectBlocks(s.objs, x)) {
      SafeIffUncached(d, s, x);
    }
  }

  /** On a disk that has the indirect blocks as they are, destroying the object is safe exactly when none is cached. */
  lemma SettledDestroyIff(d: C.Device, s: Store, x: int)
    requires C.Inv(d) && s == StoreOf(d, s.objs) && Inv(s) && Live(s.objs, x)
    requires AllSettled(d, IndirectBlocks(s.objs, x))
    ensures StaleInBitmap(d, IndirectBlocks(s.objs, x)) && C.CanFree(d, IndirectBlocks(s.objs, x))
    ensures C.Inv(C.FreeAll(d, IndirectBlocks(s.objs, x))) <==> Uncached(d, IndirectBlocks(s.objs, x))
  {
    SettledNamesNone(d, s, x);
    DestroyOutcome(d, s, x);
  }

  // ----- after the first write -----

  /** Only the first indirect block of the object is in use; it has a cache page, and the disk has it as new. */
  ghost predicate NewInCache(d: C.Device, s: Store, x: int) {
    && Readable(s, x) && 0 < s.objs[x].size <= 4194304
    && 0 <= s.objs[x].ptrs[0] < |d.bitmap| && d.bitmap[s.objs[x].ptrs[0]] > 1 && C.Initialized(d, s.objs[x].ptrs[0])
  }

  lemma OneIndirectBlock(s: Store, x: int)
    requires Inv(s) && Live(s.objs, x) && 0 < s.objs[x].size <= 4194304
    ensures IndirectBlocks(s.objs, x) == [s.objs[x].ptrs[0]]
  {
    EndsInIff(s.objs[x].size, 0);
    IndirectBlocksInUse(s, x, 0);
    IndirectBlocksInUse(s, x, 1);
  }

  /** Destroying such an object is not safe, and the object's first data block stays in use. */
  lemma NewInCacheIsUnsafe(d: C.Device, s: Store, x: int)
    requires C.Inv(d) && s == StoreOf(d, s.objs) && Inv(s) && Live(s.objs, x) && NewInCache(d, s, x)
    ensures var list := IndirectBlocks(s.objs, x);
      && StaleInBitmap(d, list) && NamesNone(d, list) && !Uncached(d, list)
      && C.UsedBlocks(C.FreeAll(d, list)) != {}
  {
    var p, q := s.objs[x].ptrs[0], At(s, Data(x, 0, 0));
    OneIndirectBlock(s, x);
    C.InitializedListsNothing(d, p);
    CanFreeObject(d, s, x);
    EndsInIff(s.objs[x].size, 0);
    assert InUse(s, Ind(x, 0)) && InUse(s, Data(x, 0, 0)) && At(s, Ind(x, 0)) == p;
    C.FreeAllBitmap(d, [p], q);
    assert q in C.UsedBlocks(C.FreeAll(d, [p]));
  }
}
