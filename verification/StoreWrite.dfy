/** How objstore_write gets from one store to the next: one indirect block at a time. */
module StoreWrite {
  import opened Blocks
  import opened KeyTable
  import opened StoreModel
  import opened Unfolding

  function FirstPointers(ptrs: seq<int>, i: int): (r: seq<int>)
    requires |ptrs| == 4
    ensures |r| == 4 && forall c | 0 <= c < 4 :: r[c] == if c < i then ptrs[c] else -1
  {
    seq(4, c requires 0 <= c < 4 => if c < i then ptrs[c] else -1)
  }

  /** The store as it would be if object x ended with indirect block i - 1. */
  function CutAt(s: Store, x: int, i: int, size: int): Store
    requires 0 <= x < |s.objs| && |s.objs[x].ptrs| == 4 && 0 <= i <= 4
  {
    s.(objs := s.objs[x := s.objs[x].(size := size, ptrs := FirstPointers(s.objs[x].ptrs, i))])
  }

  predicate Differ(p: Pointers, e: int, e': int)
    requires 0 <= e < POINTERS && 0 <= e' < POINTERS
  {
    p[e] != p[e']
  }

  predicate EntriesDiffer(s: Store, r: int, e: int, e': int)
    requires 0 <= e < POINTERS && 0 <= e' < POINTERS
  {
    Entry(s, r, e) != Entry(s, r, e')
  }

  ghost predicate IsEntry(s: Store, r: int, lo: int, hi: int, b: int)
    requires 0 <= lo && hi <= POINTERS
  {
    exists e :: lo <= e < hi && Entry(s, r, e) == b
  }

  /** What write_indirect_block does to the allocation. The indirect block is bn, or a new one if bn < 0;
      its first m entries were in use; afterwards its first hi are, and the data blocks behind
      entries bo .. hi - 1 have been overwritten. */
  ghost predicate ChunkWritten(s: Store, s': Store, bn: int, r: int, bo: int, m: int, hi: int)
  {
    && 0 <= bo <= m <= 1024 && bo <= hi <= 1024
    && |s'.blocks| == |s.blocks| && s'.objs == s.objs && s.used <= s'.used
    && DATA_BLOCKS_START <= r < |s.blocks| && r in s'.used && (if bn >= 0 then r == bn else r !in s.used)
    && EntriesAfter(s, s', bn, r, m, hi)
    && (forall b | b in s'.used && b !in s.used :: b == r || (IsEntry(s', r, 0, hi, b) && DATA_BLOCKS_START <= b))
    && (forall b | b in s.used && 0 <= b < |s.blocks| ::
          s'.blocks[b] == s.blocks[b] || b == r || IsEntry(s', r, bo, hi, b))
  }

  /** Entries bo .. hi - 1 of indirect block r lead to the given new blocks. */
  ghost predicate ChunkData(s: Store, r: int, bo: int, hi: int, news: seq<seq<Byte>>) {
    && 0 <= bo <= hi <= 1024 == |news|
    && forall e | bo <= e < hi :: 0 <= Entry(s, r, e) < |s.blocks| && s.blocks[Entry(s, r, e)].raw == news[e]
  }

  ghost predicate EntriesAfter(s: Store, s': Store, bn: int, r: int, m: int, hi: int)
    requires 0 <= m <= 1024 && 0 <= hi <= 1024
  {
    && (forall e | 0 <= e < hi && e < m :: Entry(s', r, e) == Entry(s, bn, e))
    && (forall e | m <= e < hi ::
          && Entry(s', r, e) in s'.used && Entry(s', r, e) !in s.used
          && Entry(s', r, e) != r && 0 <= Entry(s', r, e) < |s.blocks|)
    && (forall e, e' | m <= e < e' < hi :: EntriesDiffer(s', r, e, e'))
    && (forall e | hi <= e < 1024 :: Entry(s', r, e) == -1)
  }

  // ----- before the first indirect block -----

  lemma SpansWholeChunks(i: int, sl: Slot)
    requires 0 <= sl.c && (sl.Data? ==> 0 <= sl.e < POINTERS)
    ensures Spans(i * 4194304, sl) <==> sl.c < i
  {
    SpansMeaning(i * 4194304, sl);
    if sl.c < i {
      assert (sl.c + 1) * 4194304 <= i * 4194304;
    } else {
      assert i * 4194304 <= sl.c * 4194304;
    }
  }

  lemma WholeChunksInside(i: int, size: int, sl: Slot)
    requires 0 <= sl.c < i && i * 4194304 <= size && (sl.Data? ==> 0 <= sl.e < POINTERS)
    ensures Spans(size, sl)
  {
    SpansWholeChunks(i, sl);
    SpansMeaning(i * 4194304, sl);
    SpansMeaning(size, sl);
  }

  lemma CutSlots(s: Store, x: int, i: int, sl: Slot)
    requires Inv(s) && Live(s.objs, x) && 0 <= i <= 4 && i * 4194304 <= s.objs[x].size && sl.x == x && InRange(s, sl)
    ensures var v := CutAt(s, x, i, i * 4194304);
      && (InUse(v, sl) <==> sl.c < i) && (sl.c < i ==> InUse(s, sl) && At(v, sl) == At(s, sl))
      && (sl.Ind? && sl.c >= i ==> At(v, sl) == -1)
  {
    SpansWholeChunks(i, sl);
    if sl.c < i {
      WholeChunksInside(i, s.objs[x].size, sl);
    }
  }

  lemma CutIsWritten(s: Store, x: int, data: seq<Byte>, offset: nat, i: int)
    requires Inv(s) && Live(s.objs, x) && 0 <= i <= 4 && i * 4194304 <= offset <= s.objs[x].size
    ensures WrittenUpTo(s, x, data, offset, i * 4194304, CutAt(s, x, i, i * 4194304))
  {
    var v := CutAt(s, x, i, i * 4194304);
    forall sl | InRange(v, sl) && sl.x == x
      ensures (InUse(v, sl) <==> sl.c < i) && (sl.c < i ==> InUse(s, sl) && At(v, sl) == At(s, sl))
      ensures sl.Ind? && sl.c >= i ==> At(v, sl) == -1
      ensures InUse(v, sl) && sl.Data? ==> Position(sl.c, sl.e) < offset
    {
      CutSlots(s, x, i, sl);
    }
    assert DenseObject(v, x);
  }

  // ----- one more indirect block -----

  /** The part of object x that has not been reached yet is as it was. */
  lemma LaterUnchanged(s0: Store, x: int, data: seq<Byte>, offset: nat, i: int, s: Store, sl: Slot)
    requires Inv(s0) && Live(s0.objs, x) && 0 <= i < 4 && IsTable(s.objs)
    requires WrittenUpTo(s0, x, data, offset, i * 4194304, CutAt(s, x, i, i * 4194304))
    requires InUse(s0, sl) && sl.x == x && sl.c >= i
    ensures |s.blocks| == |s0.blocks| && s.blocks[At(s0, sl)] == s0.blocks[At(s0, sl)] && At(s0, sl) in s.used
  {
    var v := CutAt(s, x, i, i * 4194304);
    forall sl' | InUse(v, sl') && sl'.x == x
      ensures At(v, sl') != At(s0, sl)
    {
      assert InUse(s0, sl') ==> At(v, sl') == At(s0, sl') && sl' != sl;
    }
  }

  function WithPointer(s: Store, x: int, i: int, r: int): Store
    requires 0 <= x < |s.objs| && |s.objs[x].ptrs| == 4 && 0 <= i < 4
  {
    s.(objs := s.objs[x := s.objs[x].(ptrs := s.objs[x].ptrs[i := r])])
  }

  /** The loop of objstore_write, started from s0, has handled the indirect blocks before i. */
  ghost predicate Reached(s0: Store, x: int, data: seq<Byte>, offset: nat, i: int, s: Store) {
    && Inv(s0) && Live(s0.objs, x) && 0 <= i < 4 && IsTable(s.objs)
    && WrittenUpTo(s0, x, data, offset, i * 4194304, CutAt(s, x, i, i * 4194304))
    && forall c | i <= c < 4 :: s.objs[x].ptrs[c] == s0.objs[x].ptrs[c]
  }

  /** It now handles indirect block i, which makes the object reach up to size. */
  ghost predicate Advances(s0: Store, x: int, data: seq<Byte>, offset: nat, i: int, s: Store,
                           s1: Store, r: int, bo: int, size: int)
  {
    && Reached(s0, x, data, offset, i, s)
    && ChunkWritten(s, s1, s0.objs[x].ptrs[i], r, bo, Extent(s0.objs[x].size, i), Extent(size, i))
  }

  ghost function Next(x: int, i: int, s1: Store, r: int, size: int): Store
    requires 0 <= x < |s1.objs| && |s1.objs[x].ptrs| == 4 && 0 <= i < 4
  {
    CutAt(WithPointer(s1, x, i, r), x, i + 1, size)
  }

  /** Entries of the indirect block being written come from the object as it was, or are new. */
  lemma EntryOrigin(s0: Store, x: int, data: seq<Byte>, offset: nat, i: int, s: Store,
                    s1: Store, r: int, bo: int, size: int, e: int)
    requires Advances(s0, x, data, offset, i, s, s1, r, bo, size) && 0 <= e < Extent(size, i)
    ensures InUse(s0, Data(x, i, e)) <==> e < Extent(s0.objs[x].size, i)
    ensures e < Extent(s0.objs[x].size, i) ==> Entry(s1, r, e) == At(s0, Data(x, i, e))
    ensures e >= Extent(s0.objs[x].size, i) ==> Entry(s1, r, e) in s1.used - s.used
  {
    if e < Extent(s0.objs[x].size, i) {
      assert InUse(s0, Ind(x, i)) && InUse(s0, Data(x, i, e));
      LaterUnchanged(s0, x, data, offset, i, s, Ind(x, i));
    }
  }

  lemma EarlierIsUsed(s0: Store, x: int, data: seq<Byte>, offset: nat, i: int, s: Store, sl: Slot)
    requires Reached(s0, x, data, offset, i, s) && InUse(CutAt(s, x, i, i * 4194304), sl) && sl.x == x
    ensures sl.c < i
    ensures var b := At(CutAt(s, x, i, i * 4194304), sl);
      && b in s.used && 0 <= b < |s.blocks|
      && (b in s0.used ==> InUse(s0, sl) && At(s0, sl) == b)
  {
    var v := CutAt(s, x, i, i * 4194304);
    assert SlotsKept(s0, x, v) && NewBlocks(s0, x, v);
    if InUse(s0, sl) {
      assert At(v, sl) == At(s0, sl);
    }
  }

  /** Blocks of the part already written differ from everything indirect block i leads to. */
  lemma EarlierApart(s0: Store, x: int, data: seq<Byte>, offset: nat, i: int, s: Store,
                     s1: Store, r: int, bo: int, size: int, sl: Slot)
    requires Advances(s0, x, data, offset, i, s, s1, r, bo, size)
    requires InUse(CutAt(s, x, i, i * 4194304), sl) && sl.x == x
    ensures var b := At(CutAt(s, x, i, i * 4194304), sl);
      b in s.used && 0 <= b < |s.blocks| && b != r && !IsEntry(s1, r, 0, Extent(size, i), b)
  {
    var b := At(CutAt(s, x, i, i * 4194304), sl);
    EarlierIsUsed(s0, x, data, offset, i, s, sl);
    if s0.objs[x].ptrs[i] >= 0 {
      assert DenseObject(s0, x) && InRange(s0, Ind(x, i));
      assert InUse(s0, Ind(x, i)) && At(s0, Ind(x, i)) == r;
      assert b != r;
    }
    forall e | 0 <= e < Extent(size, i)
      ensures Entry(s1, r, e) != b
    {
      EntryOrigin(s0, x, data, offset, i, s, s1, r, bo, size, e);
    }
  }

  /** An object of this size ends inside indirect block i. */
  ghost predicate EndsIn(size: int, i: int) {
    && (forall c | 0 <= c < i :: Extent(size, c) == POINTERS)
    && Extent(size, i) > 0
    && (forall c | i < c < 4 :: Extent(size, c) == 0)
  }

  lemma EndsInIff(size: int, i: int)
    requires i * 4194304 < size <= (i + 1) * 4194304 && 0 <= i < 4
    ensures EndsIn(size, i)
  {
    forall c | 0 <= c < 4
      ensures c < i ==> Extent(size, c) == POINTERS
      ensures c == i ==> Extent(size, c) > 0
      ensures c > i ==> Extent(size, c) == 0
    {
      SpansMeaning(size, Data(0, c, 0));
      SpansMeaning(size, Data(0, c, 1023));
    }
  }

  /** The blocks of the finished part stay as they are while indirect block i is written. */
  lemma EarlierKept(s0: Store, x: int, data: seq<Byte>, offset: nat, i: int, s: Store,
                    s1: Store, r: int, bo: int, size: int, sl: Slot)
    requires Advances(s0, x, data, offset, i, s, s1, r, bo, size)
    requires InUse(CutAt(s, x, i, i * 4194304), sl) && sl.x == x
    ensures var b := At(CutAt(s, x, i, i * 4194304), sl);
      0 <= b < |s.blocks| && s1.blocks[b] == s.blocks[b]
  {
    EarlierApart(s0, x, data, offset, i, s, s1, r, bo, size, sl);
    var b := At(CutAt(s, x, i, i * 4194304), sl);
  }

  /** The slots of object x after indirect block i has been written. */
  lemma NextSlots(s0: Store, x: int, data: seq<Byte>, offset: nat, i: int, s: Store,
                  s1: Store, r: int, bo: int, size: int, sl: Slot)
    requires Advances(s0, x, data, offset, i, s, s1, r, bo, size) && EndsIn(size, i)
    requires InUse(Next(x, i, s1, r, size), sl) && sl.x == x
    ensures sl.c <= i
    ensures sl.c == i ==> At(Next(x, i, s1, r, size), sl) == if sl.Ind? then r else Entry(s1, r, sl.e)
    ensures sl.c == i && sl.Data? ==> sl.e < Extent(size, i)
    ensures sl.c < i ==>
      var v, v' := CutAt(s, x, i, i * 4194304), Next(x, i, s1, r, size);
      InUse(v, sl) && At(v', sl) == At(v, sl) && ContentsOf(v', sl) == ContentsOf(v, sl)
  {
    var v, v' := CutAt(s, x, i, i * 4194304), Next(x, i, s1, r, size);
    if sl.c < i {
      SpansWholeChunks(i, sl);
      SpansWholeChunks(i, Ind(x, sl.c));
      assert InUse(v, sl) && InUse(v, Ind(x, sl.c));
      EarlierKept(s0, x, data, offset, i, s, s1, r, bo, size, Ind(x, sl.c));
      EarlierKept(s0, x, data, offset, i, s, s1, r, bo, size, sl);
    }
  }

  /** Slots of the finished part are still there. */
  lemma EarlierStays(s0: Store, x: int, data: seq<Byte>, offset: nat, i: int, s: Store,
                     s1: Store, r: int, bo: int, size: int, sl: Slot)
    requires Advances(s0, x, data, offset, i, s, s1, r, bo, size) && EndsIn(size, i)
    requires InUse(CutAt(s, x, i, i * 4194304), sl) && sl.x == x
    ensures InUse(Next(x, i, s1, r, size), sl)
    ensures At(Next(x, i, s1, r, size), sl) == At(CutAt(s, x, i, i * 4194304), sl)
  {
    EarlierIsUsed(s0, x, data, offset, i, s, sl);
    assert InUse(Next(x, i, s1, r, size), sl);
    NextSlots(s0, x, data, offset, i, s, s1, r, bo, size, sl);
  }

  lemma NextTable(x: int, i: int, s1: Store, r: int, size: int)
    requires IsTable(s1.objs) && 0 <= x < TABLE_SIZE && 0 <= i < 4
    ensures var v' := Next(x, i, s1, r, size);
      && IsTable(v'.objs) && |v'.objs| == |s1.objs| && v'.blocks == s1.blocks && v'.used == s1.used
      && v'.objs == s1.objs[x := s1.objs[x].(size := size, ptrs := v'.objs[x].ptrs)]
      && (forall c | 0 <= c < 4 :: v'.objs[x].ptrs[c] == if c < i then s1.objs[x].ptrs[c] else if c == i then r else -1)
  {
  }

  lemma NextDense(x: int, i: int, s1: Store, r: int, size: int)
    requires IsTable(s1.objs) && Live(s1.objs, x) && 0 <= i < 4 && EndsIn(size, i)
    requires forall e | Extent(size, i) <= e < 1024 :: Entry(s1, r, e) == -1
    ensures DenseObject(Next(x, i, s1, r, size), x)
  {
    var v' := Next(x, i, s1, r, size);
    NextTable(x, i, s1, r, size);
    forall c | InRange(v', Ind(x, c)) && !InUse(v', Ind(x, c))
      ensures At(v', Ind(x, c)) == -1
    {
      assert !Spans(size, Ind(x, c));
    }
    forall c, e | InRange(v', Data(x, c, e)) && InUse(v', Ind(x, c)) && !InUse(v', Data(x, c, e))
      ensures At(v', Data(x, c, e)) == -1
    {
      assert Spans(size, Ind(x, c)) && !Spans(size, Data(x, c, e));
      assert c == i && Entry(s1, r, e) == -1;
    }
  }

  lemma NextResized(s0: Store, x: int, data: seq<Byte>, offset: nat, i: int, s: Store,
                    s1: Store, r: int, bo: int, size: int)
    requires Advances(s0, x, data, offset, i, s, s1, r, bo, size)
    ensures Resized(s0, x, size, Next(x, i, s1, r, size))
  {
    NextTable(x, i, s1, r, size);
    assert Resized(s0, x, i * 4194304, CutAt(s, x, i, i * 4194304));
    var v := CutAt(s, x, i, i * 4194304);
    forall y | 0 <= y < TABLE_SIZE && y != x
      ensures s1.objs[y] == s0.objs[y]
    {
      assert v.objs[y] == s0.objs[y] && v.objs[y] == s.objs[y];
    }
  }

  lemma NextSlotsKept(s0: Store, x: int, data: seq<Byte>, offset: nat, i: int, s: Store,
                      s1: Store, r: int, bo: int, size: int, sl: Slot)
    requires Advances(s0, x, data, offset, i, s, s1, r, bo, size) && EndsIn(size, i)
    requires InUse(Next(x, i, s1, r, size), sl) && sl.x == x
    ensures var v' := Next(x, i, s1, r, size);
      if InUse(s0, sl) then At(v', sl) == At(s0, sl) else At(v', sl) in v'.used - s0.used
  {
    NextSlots(s0, x, data, offset, i, s, s1, r, bo, size, sl);
    if sl.c == i {
      if sl.Ind? {
        assert DenseObject(s0, x) && InRange(s0, sl);
      } else {
        EntryOrigin(s0, x, data, offset, i, s, s1, r, bo, size, sl.e);
      }
    }
  }

  /** New blocks sit in one slot each. */
  lemma NextDistinct(s0: Store, x: int, data: seq<Byte>, offset: nat, i: int, s: Store,
                     s1: Store, r: int, bo: int, size: int, sl: Slot, sl': Slot)
    requires Advances(s0, x, data, offset, i, s, s1, r, bo, size) && EndsIn(size, i)
    requires InUse(Next(x, i, s1, r, size), sl) && InUse(Next(x, i, s1, r, size), sl') && sl.x == sl'.x == x
    requires !InUse(s0, sl) && !InUse(s0, sl') && sl != sl' && sl.c <= sl'.c
    ensures At(Next(x, i, s1, r, size), sl) != At(Next(x, i, s1, r, size), sl')
  {
    NextSlots(s0, x, data, offset, i, s, s1, r, bo, size, sl);
    NextSlots(s0, x, data, offset, i, s, s1, r, bo, size, sl');
    if sl'.c < i {
      assert NewSlotsDiffer(s0, x, CutAt(s, x, i, i * 4194304), sl, sl');
    } else if sl.c < i {
      EarlierApart(s0, x, data, offset, i, s, s1, r, bo, size, sl);
    } else if sl.c == i {
      if sl.Data? {
        EntryOrigin(s0, x, data, offset, i, s, s1, r, bo, size, sl.e);
      }
      if sl'.Data? {
        EntryOrigin(s0, x, data, offset, i, s, s1, r, bo, size, sl'.e);
      }
      if sl.Data? && sl'.Data? {
        assert if sl.e < sl'.e then EntriesDiffer(s1, r, sl.e, sl'.e) else EntriesDiffer(s1, r, sl'.e, sl.e);
      }
    }
  }

  lemma NextNewBlocks(s0: Store, x: int, data: seq<Byte>, offset: nat, i: int, s: Store,
                      s1: Store, r: int, bo: int, size: int)
    requires Advances(s0, x, data, offset, i, s, s1, r, bo, size) && EndsIn(size, i)
    ensures NewBlocks(s0, x, Next(x, i, s1, r, size))
  {
    var v, v' := CutAt(s, x, i, i * 4194304), Next(x, i, s1, r, size);
    NextTable(x, i, s1, r, size);
    assert s0.used <= s.used <= v'.used;
    forall b | b in v'.used && b !in s0.used
      ensures DATA_BLOCKS_START <= b < |s0.blocks| && Owns(v', x, b)
    {
      if b in s.used {
        assert b in v.used && Owns(v, x, b);
        var sl :| InUse(v, sl) && sl.x == x && At(v, sl) == b;
        EarlierStays(s0, x, data, offset, i, s, s1, r, bo, size, sl);
      } else if b == r {
        assert InUse(v', Ind(x, i)) && At(v', Ind(x, i)) == r;
      } else {
        assert IsEntry(s1, r, 0, Extent(size, i), b);
        var e :| 0 <= e < Extent(size, i) && Entry(s1, r, e) == b;
        EntryOrigin(s0, x, data, offset, i, s, s1, r, bo, size, e);
        assert InUse(v', Data(x, i, e)) && At(v', Data(x, i, e)) == b;
      }
    }
    forall sl, sl'
      ensures NewSlotsDiffer(s0, x, v', sl, sl')
    {
      if InUse(v', sl) && InUse(v', sl') && sl.x == sl'.x == x && !InUse(s0, sl) && !InUse(s0, sl') && sl != sl' {
        if sl.c <= sl'.c {
          NextDistinct(s0, x, data, offset, i, s, s1, r, bo, size, sl, sl');
        } else {
          NextDistinct(s0, x, data, offset, i, s, s1, r, bo, size, sl', sl);
        }
      }
    }
  }

  lemma NextDataWritten(s0: Store, x: int, data: seq<Byte>, offset: nat, i: int, s: Store,
                        s1: Store, r: int, bo: int, size: int, news: seq<seq<Byte>>)
    requires Advances(s0, x, data, offset, i, s, s1, r, bo, size) && EndsIn(size, i)
    requires ChunkData(s1, r, bo, Extent(size, i), news)
    requires forall e | 0 <= e < POINTERS :: Position(i, e) >= offset <==> bo <= e
    requires forall e | bo <= e < POINTERS :: news[e] == BlockFrom(data, Position(i, e) - offset)
    ensures DataWritten(x, data, offset, Next(x, i, s1, r, size))
  {
    var v, v' := CutAt(s, x, i, i * 4194304), Next(x, i, s1, r, size);
    assert DataWritten(x, data, offset, v);
    forall c, e | InUse(v', Data(x, c, e)) && Position(c, e) >= offset
      ensures ContentsOf(v', Data(x, c, e)) == BlockFrom(data, Position(c, e) - offset)
    {
      NextSlots(s0, x, data, offset, i, s, s1, r, bo, size, Data(x, c, e));
    }
  }

  lemma NextUntouched(s0: Store, x: int, data: seq<Byte>, offset: nat, i: int, s: Store,
                      s1: Store, r: int, bo: int, size: int)
    requires Advances(s0, x, data, offset, i, s, s1, r, bo, size) && EndsIn(size, i)
    requires forall e | bo <= e < POINTERS :: Position(i, e) >= offset
    ensures Untouched(s0, x, offset, Next(x, i, s1, r, size))
  {
    var v, v' := CutAt(s, x, i, i * 4194304), Next(x, i, s1, r, size);
    NextTable(x, i, s1, r, size);
    forall b | b in s0.used && 0 <= b < |s0.blocks|
      ensures v'.blocks[b] == s0.blocks[b] || RewrittenIn(x, offset, v', b)
    {
      assert b in s.used;
      if s1.blocks[b] == s.blocks[b] {
        if RewrittenIn(x, offset, v, b) {
          var sl :| InUse(v, sl) && sl.x == x && At(v, sl) == b && (sl.Data? ==> Position(sl.c, sl.e) >= offset);
          EarlierStays(s0, x, data, offset, i, s, s1, r, bo, size, sl);
        }
      } else if b == r {
        assert InUse(v', Ind(x, i)) && At(v', Ind(x, i)) == b;
      } else {
        var e :| bo <= e < Extent(size, i) && Entry(s1, r, e) == b;
        assert InUse(v', Data(x, i, e)) && At(v', Data(x, i, e)) == b;
      }
    }
  }

  /** Writing one more indirect block keeps the loop's promise. */
  lemma Advance(s0: Store, x: int, data: seq<Byte>, offset: nat, i: int, s: Store,
                s1: Store, r: int, bo: int, size: int, news: seq<seq<Byte>>)
    requires Advances(s0, x, data, offset, i, s, s1, r, bo, size) && EndsIn(size, i)
    requires ChunkData(s1, r, bo, Extent(size, i), news)
    requires forall e | 0 <= e < POINTERS :: Position(i, e) >= offset <==> bo <= e
    requires forall e | bo <= e < POINTERS :: news[e] == BlockFrom(data, Position(i, e) - offset)
    ensures WrittenUpTo(s0, x, data, offset, size, Next(x, i, s1, r, size))
  {
    NextResized(s0, x, data, offset, i, s, s1, r, bo, size);
    NextDense(x, i, s1, r, size);
    forall sl | InUse(Next(x, i, s1, r, size), sl) && sl.x == x
      ensures var v' := Next(x, i, s1, r, size);
        if InUse(s0, sl) then At(v', sl) == At(s0, sl) else At(v', sl) in v'.used - s0.used
    {
      NextSlotsKept(s0, x, data, offset, i, s, s1, r, bo, size, sl);
    }
    NextNewBlocks(s0, x, data, offset, i, s, s1, r, bo, size);
    NextDataWritten(s0, x, data, offset, i, s, s1, r, bo, size, news);
    NextUntouched(s0, x, data, offset, i, s, s1, r, bo, size);
  }

  // ----- inside write_indirect_block -----

  ghost predicate GoodPointers(c: seq<Block>, u: set<int>, bn: int, p: Pointers, m: int) {
    && 0 <= m <= 1024
    && (forall e | 0 <= e < m :: p[e] in u && DATA_BLOCKS_START <= p[e] < |c| && p[e] != bn)
    && (forall e, e' | 0 <= e < e' < m :: Differ(p, e, e'))
    && (forall e | m <= e < 1024 :: p[e] == -1)
  }

  /** The copy loop has handled entries up to i - 1. The pointer array was p and is now block; the used blocks
      were u1 and are now u. */
  ghost predicate Allocating(u1: set<int>, p: Pointers, m: int, i: int, block: Pointers, u: set<int>, blocks: int) {
    && 0 <= m <= 1024 && 0 <= i <= 1024 && u1 <= u
    && (forall e | 0 <= e < 1024 && (e < m || e >= i) :: block[e] == p[e])
    && (forall e | m <= e < i :: block[e] in u && block[e] !in u1 && DATA_BLOCKS_START <= block[e] < blocks)
    && (forall e, e' | m <= e < e' < i :: Differ(block, e, e'))
    && (forall b | b in u && b !in u1 :: IsIn(block, m, i, b))
  }

  ghost predicate IsIn(block: Pointers, lo: int, hi: int, b: int)
    requires 0 <= lo && hi <= 1024
  {
    exists e :: lo <= e < hi && block[e] == b
  }

  /** Entry e has received block news[e], for bo <= e < i; nothing else has changed since c1. */
  ghost predicate Copying(c1: seq<Block>, u1: set<int>, bo: int, i: int, block: Pointers, news: seq<seq<Byte>>,
                          c: seq<Block>) {
    && |c| == |c1| && 0 <= bo <= i <= 1024 && |news| == 1024
    && (forall e | bo <= e < i :: 0 <= block[e] < |c| && c[block[e]] == news[e])
    && (forall b | b in u1 && 0 <= b < |c| :: c[b] == c1[b] || IsIn(block, bo, i, b))
  }

  lemma AllocatingStep(u1: set<int>, p: Pointers, m: int, i: int, block: Pointers, u: set<int>, blocks: int,
                       q: Int32, u': set<int>)
    requires Allocating(u1, p, m, i, block, u, blocks) && i < 1024
    requires (forall e | 0 <= e < m :: p[e] in u1) && (forall e, e' | 0 <= e < e' < m :: Differ(p, e, e'))
    requires if i >= m then q !in u && DATA_BLOCKS_START <= q < blocks && u' == u + {q} else q == block[i] && u' == u
    ensures Allocating(u1, p, m, i + 1, block[i := q], u', blocks)
    ensures forall e | 0 <= e < i :: block[e] != q
  {
    var block' := block[i := q];
    forall e | 0 <= e < i
      ensures block[e] != q
    {
      if i < m {
        assert Differ(p, e, i);
      }
    }
    forall e, e' | m <= e < e' < i + 1
      ensures Differ(block', e, e')
    {
      assert e' < i ==> Differ(block, e, e');
    }
    forall b | b in u' && b !in u1
      ensures IsIn(block', m, i + 1, b)
    {
      if i >= m && b == q {
        assert block'[i] == b;
      } else {
        assert IsIn(block, m, i, b);
        var e :| m <= e < i && block[e] == b;
        assert block'[e] == b;
      }
    }
  }

  lemma CopyingStep(c1: seq<Block>, u1: set<int>, bo: int, i: int, block: Pointers, news: seq<seq<Byte>>, c: seq<Block>,
                    q: Int32, data: Block)
    requires Copying(c1, u1, bo, i, block, news, c) && i < 1024 && 0 <= q < |c| && data == news[i]
    requires forall e | bo <= e < i :: block[e] != q
    ensures Copying(c1, u1, bo, i + 1, block[i := q], news, c[q := data])
  {
    var block', c' := block[i := q], c[q := data];
    forall b | b in u1 && 0 <= b < |c|
      ensures c'[b] == c1[b] || IsIn(block', bo, i + 1, b)
    {
      if b == q {
        assert block'[i] == b;
      } else if c[b] != c1[b] {
        var e :| bo <= e < i && block[e] == b;
        assert block'[e] == b;
      }
    }
  }

  ghost function Views(c: seq<Block>): (r: seq<BlockView>)
    ensures |r| == |c| && forall b | 0 <= b < |c| :: r[b] == View(c[b])
  {
    seq(|c|, b requires 0 <= b < |c| => View(c[b]))
  }

  /** The indirect block r that is about to be filled: bn itself, or a new one if bn < 0. */
  ghost predicate Opened(c0: seq<Block>, u0: set<int>, bn: int, r: int, c1: seq<Block>, u1: set<int>, p: Pointers) {
    && |c1| == |c0| && DATA_BLOCKS_START <= r < |c0| && r in u1
    && (if bn >= 0 then r == bn && c1 == c0 && u1 == u0 && p == Decode(c0[r])
        else r !in u0 && u1 == u0 + {r} && forall b | 0 <= b < |c0| && b != r :: c1[b] == c0[b])
  }

  /** After the copy loop: entries from hi on are cleared and the pointer array is written back. */
  lemma ChunkFinished(c0: seq<Block>, u0: set<int>, objs: seq<Object>, bn: int, r: int, c1: seq<Block>, u1: set<int>,
                      p: Pointers, m: int, bo: int, hi: int, block: Pointers, news: seq<seq<Byte>>,
                      c: seq<Block>, u: set<int>, fin: Pointers)
    requires Opened(c0, u0, bn, r, c1, u1, p) && GoodPointers(c1, u1, r, p, m) && bo <= m && (bn < 0 ==> m == 0)
    requires Allocating(u1, p, m, hi, block, u, |c0|) && Copying(c1, u1, bo, hi, block, news, c)
    requires forall e | 0 <= e < 1024 :: fin[e] == if e < hi then block[e] else -1
    ensures var s, s' := Store(Views(c0), u0, objs), Store(Views(c[r := Encode(fin)]), u, objs);
      ChunkWritten(s, s', bn, r, bo, m, hi) && ChunkData(s', r, bo, hi, news)
  {
    DecodeEncode(fin);
    var s, s' := Store(Views(c0), u0, objs), Store(Views(c[r := Encode(fin)]), u, objs);
    assert forall e | 0 <= e < 1024 :: Entry(s', r, e) == fin[e];
    assert forall e | 0 <= e < m :: bn >= 0 && Entry(s, bn, e) == p[e];
    forall e, e' | m <= e < e' < hi
      ensures EntriesDiffer(s', r, e, e')
    {
      assert Differ(block, e, e');
    }
    assert EntriesAfter(s, s', bn, r, m, hi);
    forall b | b in u && b !in u0
      ensures b == r || (IsEntry(s', r, 0, hi, b) && DATA_BLOCKS_START <= b)
    {
      if b != r {
        assert IsIn(block, m, hi, b);
        var e :| m <= e < hi && block[e] == b;
        assert Entry(s', r, e) == b;
      }
    }
    forall b | b in u0 && 0 <= b < |c0|
      ensures s'.blocks[b] == s.blocks[b] || b == r || IsEntry(s', r, bo, hi, b)
    {
      if b != r && c[b] != c1[b] {
        assert IsIn(block, bo, hi, b);
        var e :| bo <= e < hi && block[e] == b;
        assert Entry(s', r, e) == b;
      }
    }
  }

  // ----- the index arithmetic of objstore_write -----

  /** Indirect block i receives the data from position my on, starting at entry bo. */
  ghost predicate Aimed(offset: int, n: int, i: int, bo: int, my: int) {
    0 <= i < 4 && 0 <= bo < 1024 && 0 <= my < n && offset + my == i * 4194304 + bo * 4096
  }

  function EndIn(offset: int, n: int, i: int): int {
    if offset + n < (i + 1) * 4194304 then offset + n else (i + 1) * 4194304
  }

  lemma EntryAimed(offset: int, n: int, i: int, bo: int, my: int, e: int)
    requires Aimed(offset, n, i, bo, my) && 0 <= e < 1024
    ensures Position(i, e) == offset + my + (e - bo) * 4096
    ensures StartsBefore(EndIn(offset, n, i), i, e) <==> e < bo || my + (e - bo) * 4096 < n
    ensures StartsBefore(offset + n, i, e) <==> StartsBefore(EndIn(offset, n, i), i, e)
  {
  }

  /** The number of entries the copy loop fills is the number the object needs. */
  lemma ChunkGeometry(offset: int, n: int, i: int, bo: int, my: int, k: int)
    requires Aimed(offset, n, i, bo, my) && my + k * 4096 - 4096 < n <= my + k * 4096
    ensures Extent(EndIn(offset, n, i), i) == if bo + k > 1024 then 1024 else bo + k
    ensures Extent(offset + n, i) == Extent(EndIn(offset, n, i), i) && EndsIn(EndIn(offset, n, i), i)
  {
    var size := EndIn(offset, n, i);
    var hi := if bo + k > 1024 then 1024 else bo + k;
    forall e | 0 <= e < 1024
      ensures StartsBefore(size, i, e) <==> e < hi
      ensures StartsBefore(offset + n, i, e) <==> e < hi
    {
      EntryAimed(offset, n, i, bo, my, e);
    }
    ExtentIs(size, i, hi);
    ExtentIs(offset + n, i, hi);
    EndsInIff(size, i);
  }

  lemma ExtentIs(size: int, c: int, n: int)
    requires 0 <= n <= 1024 && forall e | 0 <= e < 1024 :: StartsBefore(size, c, e) <==> e < n
    ensures Extent(size, c) == n
  {
    var m := Extent(size, c);
    assert IsExtent(size, c, m);
    assert m < 1024 ==> !StartsBefore(size, c, m);
    assert n < 1024 ==> !StartsBefore(size, c, n);
  }

  /** An object that reaches offset has the entries before it. */
  lemma EntriesBefore(size: int, offset: int, i: int, bo: int)
    requires 0 <= bo < 1024 && i * 4194304 + bo * 4096 <= size
    ensures bo <= Extent(size, i)
  {
    if bo > 0 {
      assert StartsBefore(size, i, bo - 1);
    }
  }

  /** The buffer of objstore_write: the data, padded to whole blocks. */
  function Padded(data: seq<Byte>, k: nat): (r: seq<Byte>)
    requires |data| <= k * 4096
    ensures |r| == k * 4096
  {
    data + seq(k * 4096 - |data|, _ => 0)
  }

  lemma PaddedBlocks(data: seq<Byte>, k: nat, at: nat)
    requires |data| <= k * 4096
    ensures BlockFrom(Padded(data, k), at) == BlockFrom(data, at)
  {
    assert forall i | 0 <= i < 4096 :: BlockFrom(Padded(data, k), at)[i] == BlockFrom(data, at)[i];
  }

  // ----- how many blocks a write takes from the free list -----

  ghost function Need(size: int, size': int, c: int): (r: int)
    ensures r >= 0
  {
    (if Extent(size, c) == 0 && Extent(size', c) > 0 then 1 else 0) +
    (if Extent(size', c) > Extent(size, c) then Extent(size', c) - Extent(size, c) else 0)
  }

  ghost function NeedFrom(size: int, size': int, c: int): (r: int)
    ensures r >= 0
    decreases 4 - c
  {
    if c >= 4 then 0 else Need(size, size', c) + NeedFrom(size, size', c + 1)
  }

  /** Nothing more is needed where the object has its blocks already. */
  lemma {:induction false} NeedNothing(size: int, size': int, i: int)
    requires forall c | i <= c < 4 :: Extent(size', c) <= Extent(size, c)
    ensures NeedFrom(size, size', i) == 0
    decreases 4 - i
  {
    if i < 4 {
      NeedNothing(size, size', i + 1);
    }
  }

  lemma {:induction false} NeedAtMost(size: int, size': int, i: int)
    requires 0 <= i <= 4
    ensures NeedFrom(size, size', i) <= (4 - i) * 1025
    decreases 4 - i
  {
    if i < 4 {
      NeedAtMost(size, size', i + 1);
    }
  }

  lemma ExtentGrows(size: int, size': int, c: int)
    requires size <= size'
    ensures Extent(size, c) <= Extent(size', c)
  {
    var n := Extent(size, c);
    if n > 0 {
      assert StartsBefore(size, c, n - 1) && StartsBefore(size', c, n - 1);
    }
  }

  // ----- entering an indirect block -----

  ghost predicate GoodEntries(s: Store, bn: int, m: int) {
    && 0 <= m <= 1024
    && bn in s.used && DATA_BLOCKS_START <= bn < |s.blocks|
    && (forall e | 0 <= e < m ::
          Entry(s, bn, e) in s.used && DATA_BLOCKS_START <= Entry(s, bn, e) < |s.blocks| && Entry(s, bn, e) != bn)
    && (forall e, e' | 0 <= e < e' < m :: EntriesDiffer(s, bn, e, e'))
    && (forall e | m <= e < 1024 :: Entry(s, bn, e) == -1)
  }

  lemma GoodEntriesDecoded(c: seq<Block>, u: set<int>, objs: seq<Object>, bn: int, m: int)
    requires GoodEntries(Store(Views(c), u, objs), bn, m)
    ensures GoodPointers(c, u, bn, Decode(c[bn]), m)
  {
    var s := Store(Views(c), u, objs);
    assert forall e | 0 <= e < 1024 :: Decode(c[bn])[e] == Entry(s, bn, e);
    forall e, e' | 0 <= e < e' < m
      ensures Differ(Decode(c[bn]), e, e')
    {
      assert EntriesDiffer(s, bn, e, e');
    }
  }

  /** What write_indirect_block finds when it is called on pointer i of the original object. */
  lemma ChunkEntry(s0: Store, x: int, data: seq<Byte>, offset: nat, i: int, s: Store)
    requires Reached(s0, x, data, offset, i, s)
    ensures var bn, m := s0.objs[x].ptrs[i], Extent(s0.objs[x].size, i);
      (bn < 0 <==> m == 0) && (bn >= 0 ==> GoodEntries(s, bn, m))
  {
    var bn, m := s0.objs[x].ptrs[i], Extent(s0.objs[x].size, i);
    assert DenseObject(s0, x) && InRange(s0, Ind(x, i));
    if m > 0 {
      assert InUse(s0, Ind(x, i)) && At(s0, Ind(x, i)) == bn;
      LaterUnchanged(s0, x, data, offset, i, s, Ind(x, i));
      forall e | 0 <= e < 1024
        ensures Entry(s, bn, e) == At(s0, Data(x, i, e))
        ensures e < m ==> InUse(s0, Data(x, i, e)) && At(s0, Data(x, i, e)) in s.used
        ensures e >= m ==> At(s0, Data(x, i, e)) == -1
      {
        assert InRange(s0, Data(x, i, e));
        if e < m {
          assert InUse(s0, Data(x, i, e));
          LaterUnchanged(s0, x, data, offset, i, s, Data(x, i, e));
        }
      }
    }
  }

  // ----- the loop of objstore_write as a whole -----

  /** The loop of objstore_write, from s0, has come to indirect block i; the object reaches up to size. */
  ghost predicate InLoop(s0: Store, x: int, data: seq<Byte>, offset: nat, i: int, size: int, s: Store) {
    && Inv(s0) && Live(s0.objs, x) && 0 <= i <= 4 && IsTable(s.objs)
    && WrittenUpTo(s0, x, data, offset, size, CutAt(s, x, i, size))
    && forall c | i <= c < 4 :: s.objs[x].ptrs[c] == s0.objs[x].ptrs[c]
  }

  ghost predicate IsLoopState(b: bool, s0: Store, x: int, data: seq<Byte>, offset: nat, i: int, size: int, s: Store) {
    && (forall k {:trigger Unfold(InLoops, k)} :: Unfold(InLoops, k) ==>
          (b <==> InLoop(s0, x, data, offset, i, size, s)))
    && (forall k {:trigger Unfold(AfterLoops, k)} :: Unfold(AfterLoops, k) && b ==>
          && 0 <= x < |s.objs| && |s.objs[x].ptrs| == 4 && 0 <= i <= 4
          && WrittenUpTo(s0, x, data, offset, size, CutAt(s, x, i, size)))
  }

  /** InLoop, kept closed: OpenLoop and CloseLoop open and close it, LoopDone opens the part that matters after the
      loop. */
  ghost predicate LoopState(s0: Store, x: int, data: seq<Byte>, offset: nat, i: int, size: int, s: Store) {
    assert IsLoopState(InLoop(s0, x, data, offset, i, size, s), s0, x, data, offset, i, size, s);
    var b: bool :| IsLoopState(b, s0, x, data, offset, i, size, s);
    b
  }

  lemma OpenLoop(s0: Store, x: int, data: seq<Byte>, offset: nat, i: int, size: int, s: Store)
    requires LoopState(s0, x, data, offset, i, size, s)
    ensures InLoop(s0, x, data, offset, i, size, s)
  {
    assert Unfold(InLoops, 0);
  }

  lemma LaterPointers(s0: Store, x: int, data: seq<Byte>, offset: nat, i: int, s: Store,
                      s1: Store, r: int, bo: int, size: int)
    requires Advances(s0, x, data, offset, i, s, s1, r, bo, size)
    ensures var s' := WithPointer(s1, x, i, r);
      IsTable(s'.objs) && forall c | i < c < 4 :: s'.objs[x].ptrs[c] == s0.objs[x].ptrs[c]
  {
  }

  lemma LoopAdvance(s0: Store, x: int, data: seq<Byte>, offset: nat, i: int, s: Store,
                    s1: Store, r: int, bo: int, size: int, news: seq<seq<Byte>>)
    requires Advances(s0, x, data, offset, i, s, s1, r, bo, size) && EndsIn(size, i)
    requires ChunkData(s1, r, bo, Extent(size, i), news)
    requires forall e | 0 <= e < POINTERS :: Position(i, e) >= offset <==> bo <= e
    requires forall e | bo <= e < POINTERS :: news[e] == BlockFrom(data, Position(i, e) - offset)
    ensures LoopState(s0, x, data, offset, i + 1, size, WithPointer(s1, x, i, r))
  {
    Advance(s0, x, data, offset, i, s, s1, r, bo, size, news);
    LaterPointers(s0, x, data, offset, i, s, s1, r, bo, size);
    CloseLoop(s0, x, data, offset, i + 1, size, WithPointer(s1, x, i, r));
  }

  lemma CloseLoop(s0: Store, x: int, data: seq<Byte>, offset: nat, i: int, size: int, s: Store)
    requires InLoop(s0, x, data, offset, i, size, s)
    ensures LoopState(s0, x, data, offset, i, size, s)
  {
    assert Unfold(InLoops, 0);
  }

  lemma LoopStart(s0: Store, x: int, data: seq<Byte>, offset: nat)
    requires Inv(s0) && Live(s0.objs, x) && offset <= s0.objs[x].size
    ensures var i := offset / 4194304; LoopState(s0, x, data, offset, i, i * 4194304, s0)
  {
    CutIsWritten(s0, x, data, offset, offset / 4194304);
    CloseLoop(s0, x, data, offset, offset / 4194304, offset / 4194304 * 4194304, s0);
  }

  /** Taking the pointers from i on away ends the loop. */
  lemma LoopDone(s0: Store, x: int, data: seq<Byte>, offset: nat, i: int, s: Store)
    requires LoopState(s0, x, data, offset, i, offset + |data|, s)
    ensures 0 <= x < |s.objs| && |s.objs[x].ptrs| == 4 && 0 <= i <= 4
    ensures Written(s0, x, data, offset, CutAt(s, x, i, offset + |data|))
  {
    assert Unfold(AfterLoops, 0);
    CloseWritten(s0, x, data, offset, CutAt(s, x, i, offset + |data|));
  }

  // ----- which part of the data goes where -----

  /** A range of n bytes at offset that is aligned and starts inside an object of this size. */
  predicate Aligned(size: int, offset: nat, n: int) {
    offset <= size && offset % 4096 == 0 && 0 <= n && offset + n <= MAX_OBJECT
  }

  /** A range that starts at the beginning of an indirect block or stays inside one. */
  predicate StaysInside(offset: nat, n: int) {
    offset % 4194304 == 0 || n <= 4194304 - offset % 4194304
  }

  /** What objstore_write needs to do its work: an aligned offset inside the object, a range that starts at the
      beginning of an indirect block or stays inside one, and, off such a beginning, something to write. */
  predicate WriteFits(size: int, offset: nat, n: int) {
    offset <= size && offset % 4096 == 0 && StaysInside(offset, n) && (n == 0 ==> offset % 4194304 == 0)
  }

  function FirstEntry(offset: nat, i: int): int {
    if i == offset / 4194304 then offset % 4194304 / 4096 else 0
  }

  /** The condition under which the loops of objstore_write and objstore_read go on to indirect block i. */
  predicate More(offset: nat, n: int, i: int) {
    i < 4 && (i - offset / 4194304) * 4194304 < n
  }

  /** The nested loops of objstore_write and objstore_read reach entry e of indirect block i. */
  predicate Visits(offset: nat, n: int, i: int, e: int) {
    && offset / 4194304 <= i && More(offset, n, i) && FirstEntry(offset, i) <= e < 1024
    && BufferPosition(offset, i, e) < n
  }

  /** The position in the caller's buffer that the loops pair with that entry. */
  function BufferPosition(offset: nat, i: int, e: int): int {
    (i - offset / 4194304) * 4194304 + (e - FirstEntry(offset, i)) * 4096
  }

  /** Entry e of indirect block i is visited if its block is in the range, and then gets the part of the data that
      belongs there. */
  predicate GetsItsPart(offset: nat, data: seq<Byte>, i: int, e: int) {
    && (Visits(offset, |data|, i, e) <==> offset <= Position(i, e) < offset + |data|)
    && (Visits(offset, |data|, i, e) ==>
          BlockFrom(data, BufferPosition(offset, i, e)) == BlockFrom(data, Position(i, e) - offset))
  }

  ghost predicate AllGetTheirParts(offset: nat, data: seq<Byte>) {
    forall i, e | 0 <= i < 4 && 0 <= e < 1024 :: GetsItsPart(offset, data, i, e)
  }

  /** The loops bring exactly the blocks of the range together with their parts of the data if and only if the range
      starts at an indirect block or stays inside one: my_offset forgets the entries skipped in the first one. */
  lemma LoopsRightIff(offset: nat, data: seq<Byte>)
    requires offset % 4096 == 0 && offset + |data| <= MAX_OBJECT
    ensures AllGetTheirParts(offset, data) <==> StaysInside(offset, |data|)
  {
    if StaysInside(offset, |data|) {
      forall i, e | 0 <= i < 4 && 0 <= e < 1024
        ensures GetsItsPart(offset, data, i, e)
      {
        assert offset == offset / 4194304 * 4194304 + offset % 4194304 / 4096 * 4096;
      }
    } else {
      var i, e := MissedEntry(offset, |data|);
      assert !GetsItsPart(offset, data, i, e);
    }
  }

  /** The last block of a range that leaves its first indirect block is not visited. */
  lemma MissedEntry(offset: nat, n: int) returns (i: int, e: int)
    requires offset % 4096 == 0 && offset + n <= MAX_OBJECT && !StaysInside(offset, n)
    ensures 0 <= i < 4 && 0 <= e < 1024 && offset <= Position(i, e) < offset + n && !Visits(offset, n, i, e)
  {
    var last := (offset + n - 1) / 4096;
    i, e := last / 1024, last % 1024;
    assert Position(i, e) == last * 4096;
    assert offset == offset / 4194304 * 4194304 + offset % 4194304;
    assert i > offset / 4194304;
  }

  /** The loops at work on a range that leaves its first indirect block in the middle: 4 MiB from 4096 on. */
  lemma LoopsGoWrong(data: seq<Byte>)
    requires |data| == 4194304
    ensures !Visits(4096, |data|, 1, 0) && Position(1, 0) < 4096 + |data| && !AllGetTheirParts(4096, data)
  {
    assert !GetsItsPart(4096, data, 1, 0);
  }

  // ----- what a write comes to -----

  /** The part of the data that the loops of objstore_write put into blocks, wherever the range lies. */
  function KeptPart(data: seq<Byte>, offset: nat): (r: seq<Byte>)
    ensures |r| == KeptLength(offset, |data|)
  {
    var rest := 4194304 - offset % 4194304;
    if StaysInside(offset, |data|) then data
    else if |data| <= 4194304 then data[..rest]
    else data[..rest] + data[4194304..]
  }

  function KeptLength(offset: nat, n: int): int {
    if StaysInside(offset, n) then n
    else if n <= 4194304 then 4194304 - offset % 4194304
    else n - offset % 4194304
  }

  ghost predicate IsKept(data: seq<Byte>, offset: nat, r: seq<Byte>) {
    forall k {:trigger Unfold(InData, k)} :: Unfold(InData, k) ==> r == KeptPart(data, offset)
  }

  /** KeptPart, kept closed until OpenKept is called. */
  ghost function Kept(data: seq<Byte>, offset: nat): (r: seq<Byte>)
    ensures IsKept(data, offset, r)
  {
    assert IsKept(data, offset, KeptPart(data, offset));
    var r :| IsKept(data, offset, r);
    r
  }

  lemma OpenKept(data: seq<Byte>, offset: nat)
    ensures Kept(data, offset) == KeptPart(data, offset)
  {
    assert Unfold(InData, 0);
  }

  predicate SameByteAt(data: seq<Byte>, k: nat, data': seq<Byte>, k': nat, j: nat) {
    (k + j < |data| <==> k' + j < |data'|) && (k + j < |data| ==> data[k + j] == data'[k' + j])
  }

  lemma SameBlock(data: seq<Byte>, k: nat, data': seq<Byte>, k': nat)
    requires forall j | 0 <= j < 4096 :: SameByteAt(data, k, data', k', j)
    ensures BlockFrom(data, k) == BlockFrom(data', k')
  {
    assert forall j | 0 <= j < 4096 :: SameByteAt(data, k, data', k', j) ==>
      BlockFrom(data, k)[j] == BlockFrom(data', k')[j];
  }

  /** What the loops take from the data for an entry is the part of what is kept that belongs there. */
  lemma KeptBlock(data: seq<Byte>, offset: nat, i: int, e: int)
    requires offset % 4096 == 0 && offset / 4194304 <= i < 4 && FirstEntry(offset, i) <= e < 1024
    ensures Position(i, e) >= offset && BufferPosition(offset, i, e) >= 0
    ensures BlockFrom(data, BufferPosition(offset, i, e)) == BlockFrom(Kept(data, offset), Position(i, e) - offset)
  {
    OpenKept(data, offset);
    var first, r := offset / 4194304, offset % 4194304;
    var at, k := Position(i, e) - offset, BufferPosition(offset, i, e);
    assert offset == first * 4194304 + r / 4096 * 4096;
    if i == first {
      assert k == at && k + 4096 <= 4194304 - r;
    } else {
      assert k == at + r && k >= 4194304;
    }
    SameBlock(data, k, Kept(data, offset), at);
  }

  /** How far the object reaches when the loop of objstore_write comes to pointer i, keeping n bytes. */
  function SizeAt(offset: nat, n: int, i: int): int {
    if i <= offset / 4194304 then i * 4194304 else EndIn(offset, n, i - 1)
  }

  /** The loop goes on as long as there is something left to keep. */
  lemma MoreToKeep(offset: nat, n: int, i: int)
    requires offset % 4096 == 0 && 0 < n && offset + n <= MAX_OBJECT && offset / 4194304 <= i < 4
    ensures More(offset, n, i) <==> i * 4194304 < offset + KeptLength(offset, n)
  {
    assert offset == offset / 4194304 * 4194304 + offset % 4194304;
  }

  /** Indirect block i takes its share of what is kept, and no more. */
  lemma LoopAim(offset: nat, n: int, i: int)
    requires offset % 4096 == 0 && 0 < n && offset + n <= MAX_OBJECT && offset / 4194304 <= i && More(offset, n, i)
    ensures var m, bo, k := KeptLength(offset, n), FirstEntry(offset, i), BlocksFor(n) - (i - offset / 4194304) * 1024;
      && k > 0 && 0 <= bo < 1024
      && Extent(offset + m, i) == (if bo + k > 1024 then 1024 else bo + k)
      && Extent(EndIn(offset, m, i), i) == Extent(offset + m, i) && EndsIn(EndIn(offset, m, i), i)
    ensures SizeAt(offset, KeptLength(offset, n), i) == i * 4194304
    ensures forall e | 0 <= e < 1024 :: Position(i, e) >= offset <==> FirstEntry(offset, i) <= e
  {
    MoreToKeep(offset, n, i);
    var first, r := offset / 4194304, offset % 4194304;
    var m, bo, k := KeptLength(offset, n), FirstEntry(offset, i), BlocksFor(n) - (i - first) * 1024;
    assert offset == first * 4194304 + r / 4096 * 4096;
    var my := Position(i, bo) - offset;
    assert Aimed(offset, m, i, bo, my);
    var k' := BlocksFor(m - my);
    ChunkGeometry(offset, m, i, bo, my, k');
    assert i > first ==> k' == k;
    assert i == first && m == n ==> k' == k;
    assert i == first && m != n ==> bo + k' >= 1024 && bo + k >= 1024;
  }

  lemma LoopAimKept(data: seq<Byte>, offset: nat, i: int)
    requires offset % 4096 == 0 && data != [] && offset + |data| <= MAX_OBJECT
    requires offset / 4194304 <= i && More(offset, |data|, i)
    ensures var m, bo := |Kept(data, offset)|, FirstEntry(offset, i);
      var k := BlocksFor(|data|) - (i - offset / 4194304) * 1024;
      && k > 0 && 0 <= bo < 1024
      && Extent(offset + m, i) == (if bo + k > 1024 then 1024 else bo + k)
      && Extent(EndIn(offset, m, i), i) == Extent(offset + m, i) && EndsIn(EndIn(offset, m, i), i)
      && SizeAt(offset, m, i) == i * 4194304 && SizeAt(offset, m, i + 1) == EndIn(offset, m, i)
    ensures forall e | 0 <= e < 1024 :: Position(i, e) >= offset <==> FirstEntry(offset, i) <= e
  {
    OpenKept(data, offset);
    LoopAim(offset, |data|, i);
  }

  lemma LoopEnd(offset: nat, n: int, i: int)
    requires offset % 4096 == 0 && 0 < n && offset + n <= MAX_OBJECT
    requires offset / 4194304 <= i <= 4 && !More(offset, n, i) && (i > offset / 4194304 ==> More(offset, n, i - 1))
    ensures i > offset / 4194304 && SizeAt(offset, KeptLength(offset, n), i) == offset + KeptLength(offset, n)
    ensures offset + KeptLength(offset, n) <= i * 4194304
  {
    if i < 4 {
      MoreToKeep(offset, n, i);
    }
  }

  lemma NeedDone(size: int, size': int, i: int)
    requires 0 <= i && size' <= i * 4194304
    ensures NeedFrom(size, size', i) == 0
  {
    forall c | i <= c < 4
      ensures Extent(size', c) == 0
    {
      SpansWholeChunks(i, Ind(0, c));
      ExtentGrows(size', i * 4194304, c);
    }
    NeedNothing(size, size', i);
  }

  lemma NeedNoneToCut(size: int, offset: nat)
    requires offset <= size
    ensures NeedFrom(size, offset, offset / 4194304) == 0
  {
    forall c | 0 <= c < 4
      ensures Extent(offset, c) <= Extent(size, c)
    {
      ExtentGrows(offset, size, c);
    }
    NeedNothing(size, offset, offset / 4194304);
  }

  function WithSize(s: Store, x: int, size: int): Store
    requires 0 <= x < |s.objs|
  {
    s.(objs := s.objs[x := s.objs[x].(size := size)])
  }

  /** What objstore_write does to object x on any aligned range: it writes what is kept of the data, but sets the
      size as if all of it were; with nothing to write, it cuts the object off where the range begins. */
  ghost predicate WriteOutcome(s: Store, x: int, data: seq<Byte>, offset: nat, s': Store) {
    && 0 <= x < |s.objs| && |s.objs[x].ptrs| == 4 && offset + |data| <= MAX_OBJECT && x < |s'.objs|
    && if data == [] then s' == CutAt(s, x, offset / 4194304, offset)
       else
         && s'.objs[x].size == offset + |data|
         && Written(s, x, Kept(data, offset), offset, WithSize(s', x, offset + |Kept(data, offset)|))
  }

  ghost predicate IsWriteResult(b: bool, s: Store, x: int, data: seq<Byte>, offset: nat, s': Store) {
    forall k {:trigger Unfold(InResult, k)} :: Unfold(InResult, k) ==> (b <==> WriteOutcome(s, x, data, offset, s'))
  }

  /** WriteOutcome, kept closed. */
  ghost predicate WriteResult(s: Store, x: int, data: seq<Byte>, offset: nat, s': Store) {
    assert IsWriteResult(WriteOutcome(s, x, data, offset, s'), s, x, data, offset, s');
    var b: bool :| IsWriteResult(b, s, x, data, offset, s');
    b
  }

  lemma OpenResult(s: Store, x: int, data: seq<Byte>, offset: nat, s': Store)
    requires WriteResult(s, x, data, offset, s')
    ensures WriteOutcome(s, x, data, offset, s')
  {
    assert Unfold(InResult, 0);
  }

  lemma CutThenSize(s: Store, x: int, i: int, size: int, size': int)
    requires 0 <= x < |s.objs| && |s.objs[x].ptrs| == 4 && 0 <= i <= 4
    ensures WithSize(CutAt(s, x, i, size), x, size') == CutAt(s, x, i, size')
  {
  }

  lemma WrittenButSize(s0: Store, x: int, data: seq<Byte>, offset: nat, i: int, s: Store, size: int)
    requires LoopState(s0, x, data, offset, i, offset + |data|, s)
    ensures 0 <= x < |s.objs| && |s.objs[x].ptrs| == 4 && 0 <= i <= 4
    ensures Written(s0, x, data, offset, WithSize(CutAt(s, x, i, size), x, offset + |data|))
  {
    LoopDone(s0, x, data, offset, i, s);
    CutThenSize(s, x, i, size, offset + |data|);
  }

  /** The end of objstore_write, after its loop. */
  lemma WriteDone(s0: Store, x: int, data: seq<Byte>, offset: nat, i: int, s: Store)
    requires 0 <= x < |s0.objs| && |s0.objs[x].ptrs| == 4 && data != [] && offset + |data| <= MAX_OBJECT
    requires LoopState(s0, x, Kept(data, offset), offset, i, offset + |Kept(data, offset)|, s)
    requires 0 <= x < |s.objs| && |s.objs[x].ptrs| == 4 && 0 <= i <= 4
    ensures WriteResult(s0, x, data, offset, CutAt(s, x, i, offset + |data|))
  {
    WrittenButSize(s0, x, Kept(data, offset), offset, i, s, offset + |data|);
    assert Unfold(InResult, 0);
  }

  lemma AllKept(size: int, data: seq<Byte>, offset: nat, i: int)
    requires offset % 4096 == 0 && offset + |data| <= MAX_OBJECT && data != []
    requires offset / 4194304 <= i <= 4 && !More(offset, |data|, i)
    requires i > offset / 4194304 ==> More(offset, |data|, i - 1)
    ensures SizeAt(offset, |Kept(data, offset)|, i) == offset + |Kept(data, offset)|
    ensures NeedFrom(size, offset + |Kept(data, offset)|, i) == 0
  {
    OpenKept(data, offset);
    LoopEnd(offset, |data|, i);
    NeedDone(size, offset + |Kept(data, offset)|, i);
  }

  lemma EmptyWriteDone(s: Store, x: int, data: seq<Byte>, offset: nat)
    requires 0 <= x < |s.objs| && |s.objs[x].ptrs| == 4 && Aligned(s.objs[x].size, offset, |data|) && data == []
    ensures WriteResult(s, x, data, offset, CutAt(s, x, offset / 4194304, offset))
    ensures NeedFrom(s.objs[x].size, offset + |Kept(data, offset)|, offset / 4194304) == 0
  {
    OpenKept(data, offset);
    NeedNoneToCut(s.objs[x].size, offset);
    assert Unfold(InResult, 0);
  }

  lemma MinusOneIsNoBlock(s: Store, sl: Slot)
    requires InUse(s, sl) && At(s, sl) == -1
    ensures !Inv(s)
  {
  }

  lemma EmptyWriteAtStart(s: Store, x: int, i: int, offset: nat)
    requires Inv(s) && Live(s.objs, x) && 0 <= i <= 4 && offset == i * 4194304 <= s.objs[x].size
    ensures Written(s, x, [], offset, CutAt(s, x, i, offset)) && Inv(CutAt(s, x, i, offset))
  {
    CutIsWritten(s, x, [], offset, i);
    CloseWritten(s, x, [], offset, CutAt(s, x, i, offset));
    WriteKeepsInv(s, x, [], offset, CutAt(s, x, i, offset));
  }

  lemma EmptyWriteInside(s: Store, x: int, i: int, offset: nat)
    requires IsTable(s.objs) && Live(s.objs, x) && 0 <= i < 4 && i * 4194304 < offset
    ensures !Inv(CutAt(s, x, i, offset))
  {
    SpansMeaning(offset, Ind(x, i));
    MinusOneIsNoBlock(CutAt(s, x, i, offset), Ind(x, i));
  }

  /** A write of nothing keeps the store well formed exactly at the beginning of an indirect block: elsewhere the
      object loses the indirect block that holds its bytes before offset. */
  lemma EmptyWriteRightIff(s: Store, x: int, offset: nat)
    requires Inv(s) && Live(s.objs, x) && offset % 4096 == 0 && offset <= s.objs[x].size
    ensures Inv(CutAt(s, x, offset / 4194304, offset)) <==> offset % 4194304 == 0
    ensures offset % 4194304 == 0 ==> Written(s, x, [], offset, CutAt(s, x, offset / 4194304, offset))
  {
    var i := offset / 4194304;
    if offset % 4194304 == 0 {
      EmptyWriteAtStart(s, x, i, offset);
    } else {
      EmptyWriteInside(s, x, i, offset);
    }
  }

  lemma KeptIsShort(offset: nat, n: int)
    requires offset % 4096 == 0 && !StaysInside(offset, n)
    ensures BlocksFor(offset + KeptLength(offset, n)) < BlocksFor(offset + n)
  {
    var m := offset + KeptLength(offset, n);
    if n <= 4194304 {
      assert m == (offset / 4194304 + 1) * 4194304;
      MoreBlocks((offset / 4194304 + 1) * 1024, offset + n);
    } else {
      assert offset % 4194304 == offset % 4194304 / 4096 * 4096;
      FewerBlocks(m, offset + n);
    }
  }

  lemma MoreBlocks(blocks: int, size: int)
    requires blocks * 4096 < size
    ensures BlocksFor(blocks * 4096) == blocks < BlocksFor(size)
  {
  }

  lemma FewerBlocks(size: int, size': int)
    requires size + 4096 <= size'
    ensures BlocksFor(size) < BlocksFor(size')
  {
  }

  /** A size that takes more blocks than the object has breaks the store. */
  lemma SizeNeedsBlocks(s: Store, x: int, size: int)
    requires IsTable(s.objs) && Live(s.objs, x) && DenseObject(s, x) && 0 <= s.objs[x].size && size <= MAX_OBJECT
    requires BlocksFor(s.objs[x].size) < BlocksFor(size)
    ensures !Inv(WithSize(s, x, size))
  {
    var s' := WithSize(s, x, size);
    LosesBlockIff(size, s.objs[x].size);
    var c, e :| 0 <= c < 4 && 0 <= e < POINTERS && Spans(size, Data(0, c, e)) &&
                !Spans(s.objs[x].size, Data(0, c, e));
    assert InUse(s', Data(x, c, e)) && InUse(s', Ind(x, c)) && !InUse(s, Data(x, c, e));
    assert InRange(s, Ind(x, c)) && InRange(s, Data(x, c, e));
    if InUse(s, Ind(x, c)) {
      MinusOneIsNoBlock(s', Data(x, c, e));
    } else {
      MinusOneIsNoBlock(s', Ind(x, c));
    }
  }

  lemma SizeTwice(s: Store, x: int, size: int)
    requires 0 <= x < |s.objs|
    ensures WithSize(WithSize(s, x, size), x, s.objs[x].size) == s
  {
  }

  lemma SizeTooBig(s: Store, x: int, size: int, s': Store)
    requires 0 <= x < |s'.objs| && Live(s.objs, x) && 0 <= size && s'.objs[x].size <= MAX_OBJECT
    requires Resized(s, x, size, WithSize(s', x, size)) && DenseObject(WithSize(s', x, size), x)
    requires BlocksFor(size) < BlocksFor(s'.objs[x].size)
    ensures !Inv(s')
  {
    SizeNeedsBlocks(WithSize(s', x, size), x, s'.objs[x].size);
    SizeTwice(s', x, size);
  }

  lemma SameSize(s: Store, x: int)
    requires 0 <= x < |s.objs|
    ensures WithSize(s, x, s.objs[x].size) == s
  {
  }

  lemma InsideWriteRight(s: Store, x: int, data: seq<Byte>, offset: nat, s': Store)
    requires Inv(s) && Live(s.objs, x) && StaysInside(offset, |data|) && data != []
    requires WriteOutcome(s, x, data, offset, s')
    ensures Inv(s') && Written(s, x, data, offset, s')
  {
    OpenKept(data, offset);
    SameSize(s', x);
    WriteKeepsInv(s, x, data, offset, s');
  }

  /** On any aligned range, objstore_write leaves a well-formed store exactly when the range fits, and then it has
      written all of the data. */
  lemma WriteRightIff(s: Store, x: int, data: seq<Byte>, offset: nat, s': Store)
    requires Inv(s) && Live(s.objs, x) && Aligned(s.objs[x].size, offset, |data|) && WriteResult(s, x, data, offset, s')
    ensures Inv(s') <==> WriteFits(s.objs[x].size, offset, |data|)
    ensures Inv(s') ==> Written(s, x, data, offset, s')
  {
    OpenResult(s, x, data, offset, s');
    if data == [] {
      EmptyWriteRightIff(s, x, offset);
    } else if StaysInside(offset, |data|) {
      InsideWriteRight(s, x, data, offset, s');
    } else {
      OpenKept(data, offset);
      KeptIsShort(offset, |data|);
      OpenWritten(s, x, Kept(data, offset), offset, WithSize(s', x, offset + |Kept(data, offset)|));
      SizeTooBig(s, x, offset + |Kept(data, offset)|, s');
    }
  }

  /** Dropping the pointers after the last written one and setting the size completes the write. */
  lemma CutIsFinal(s: Store, x: int, i: int, size: int, o: Object)
    requires 0 <= x < |s.objs| && |s.objs[x].ptrs| == 4 && 0 <= i <= 4 && |o.ptrs| == 4
    requires o.id == s.objs[x].id && o.key == s.objs[x].key && o.size == size
    requires forall c | 0 <= c < 4 :: o.ptrs[c] == if c < i then s.objs[x].ptrs[c] else -1
    ensures s.(objs := s.objs[x := o]) == CutAt(s, x, i, size)
  {
    assert o.ptrs == FirstPointers(s.objs[x].ptrs, i);
  }

  // ----- reading -----

  /** Which byte of the object lands at position k of the buffer of objstore_read; -1 if none does. */
  function Source(offset: nat, k: int): int {
    if offset % 4194304 == 0 || k < 4194304 - offset % 4194304 then offset + k
    else if k < 4194304 then -1
    else offset + k - offset % 4194304
  }

  /** What objstore_read hands back on any aligned range. */
  function ReadBytes(bytes: seq<Byte>, offset: nat, n: nat): (r: seq<Byte>)
    requires offset + n <= |bytes|
    ensures |r| == n
  {
    seq(n, k requires 0 <= k < n => if Source(offset, k) < 0 then 0 else bytes[Source(offset, k)])
  }

  lemma ReadIsSlice(bytes: seq<Byte>, offset: nat, n: nat)
    requires offset + n <= |bytes| && StaysInside(offset, n)
    ensures ReadBytes(bytes, offset, n) == bytes[offset..offset + n]
  {
  }

  /** On any aligned range, objstore_read hands back the bytes that were asked for, whatever they are, exactly when
      the range starts at an indirect block or stays inside one. */
  lemma ReadRightIff(size: nat, offset: nat, n: nat)
    requires offset % 4096 == 0 && offset + n <= size
    ensures (forall bytes | |bytes| == size :: ReadBytes(bytes, offset, n) == bytes[offset..offset + n]) <==>
      StaysInside(offset, n)
  {
    if StaysInside(offset, n) {
      forall bytes | |bytes| == size
        ensures ReadBytes(bytes, offset, n) == bytes[offset..offset + n]
      {
        ReadIsSlice(bytes, offset, n);
      }
    } else {
      var k := 4194304 - offset % 4194304;
      var bytes: seq<Byte> := seq(size, _ => 1);
      assert ReadBytes(bytes, offset, n)[k] == 0 && bytes[offset..offset + n][k] == 1;
    }
  }

  /** The data block that starts at this position of object x. */
  ghost function BlockAt(s: Store, x: int, position: int): seq<Byte>
    requires Readable(s, x) && 0 <= position < MAX_OBJECT
  {
    ContentsOf(s, Data(x, PlaceOf(position).c, PlaceOf(position).e))
  }

  lemma BlockAtEntry(s: Store, x: int, c: int, e: int)
    requires Readable(s, x) && 0 <= c < 4 && 0 <= e < 1024
    ensures 0 <= Position(c, e) < MAX_OBJECT && BlockAt(s, x, Position(c, e)) == ContentsOf(s, Data(x, c, e))
  {
    PlaceUnique(Place(c, e, 0), PlaceOf(Position(c, e)), Position(c, e));
  }

  /** A block of the buffer as it comes from the system. */
  function Blank(): Block {
    seq(BLOCK_SIZE, _ => 0)
  }

  /** Block q of the buffer holds the block of object x that belongs there, if there is one. */
  ghost predicate HoldsBlock(s: Store, x: int, offset: nat, aux: seq<Block>, q: int)
    requires Readable(s, x) && 0 <= q < |aux|
  {
    var position := Source(offset, q * 4096);
    position < MAX_OBJECT && aux[q] == if position < 0 then Blank() else BlockAt(s, x, position)
  }

  /** The first count blocks of the buffer have been filled, the others not. */
  ghost predicate BufferHolds(s: Store, x: int, offset: nat, aux: seq<Block>, count: int)
    requires Readable(s, x)
  {
    && 0 <= count <= |aux|
    && (forall q | 0 <= q < count :: HoldsBlock(s, x, offset, aux, q))
    && (forall q | count <= q < |aux| :: aux[q] == Blank())
  }

  function FlatByte(aux: seq<Block>, k: nat): Byte
    requires k < |aux| * 4096
  {
    aux[k / 4096][k % 4096]
  }

  /** The copy loop at the end of objstore_read. */
  function Flatten(aux: seq<Block>, n: nat): (r: seq<Byte>)
    requires n <= |aux| * 4096
    ensures |r| == n
  {
    seq(n, k requires 0 <= k < n => FlatByte(aux, k))
  }

  lemma PlaceInBlock(start: nat, j: nat)
    requires start % 4096 == 0 && j < 4096 && start + j < MAX_OBJECT
    ensures PlaceOf(start + j) == PlaceOf(start).(i := j)
  {
    var p := PlaceOf(start + j);
    assert start == start / 4096 * 4096;
    assert Position(p.c, p.e) == start && p.i == j;
    PlaceUnique(Place(p.c, p.e, 0), PlaceOf(start), start);
  }

  lemma SourceAt(offset: nat, r: int, q: int, j: int)
    requires offset % 4194304 == r * 4096 && 0 <= j < 4096 && 0 <= q
    ensures var start := Source(offset, q * 4096);
      && (start == -1 || start == offset + q * 4096 || start == offset + q * 4096 - r * 4096)
      && Source(offset, q * 4096 + j) == if start < 0 then start else start + j
  {
  }

  lemma SourceInBlock(offset: nat, k: nat)
    requires offset % 4096 == 0
    ensures var start := Source(offset, k / 4096 * 4096);
      if start < 0 then Source(offset, k) < 0 else start % 4096 == 0 && Source(offset, k) == start + k % 4096
  {
    var r := offset % 4194304 / 4096;
    assert offset % 4194304 == r * 4096;
    SourceAt(offset, r, k / 4096, k % 4096);
    AlignedSum(offset / 4096, k / 4096, r);
  }

  lemma AlignedSum(a: int, b: int, c: int)
    ensures (a * 4096 + b * 4096) % 4096 == 0 && (a * 4096 + b * 4096 - c * 4096) % 4096 == 0
  {
    assert a * 4096 + b * 4096 == (a + b) * 4096 && a * 4096 + b * 4096 - c * 4096 == (a + b - c) * 4096;
  }

  lemma BufferByte(s: Store, x: int, offset: nat, aux: seq<Block>, k: nat)
    requires Readable(s, x) && offset % 4096 == 0 && offset + k < s.objs[x].size && k < |aux| * 4096
    requires HoldsBlock(s, x, offset, aux, k / 4096)
    ensures FlatByte(aux, k) == if Source(offset, k) < 0 then 0 else Bytes(s, x)[Source(offset, k)]
  {
    SourceInBlock(offset, k);
    var start := Source(offset, k / 4096 * 4096);
    if start >= 0 {
      PlaceInBlock(start, k % 4096);
    }
  }

  lemma FlattenIs(aux: seq<Block>, n: nat, r: seq<Byte>)
    requires n <= |aux| * 4096 && n == |r| && forall k | 0 <= k < n :: FlatByte(aux, k) == r[k]
    ensures Flatten(aux, n) == r
  {
  }

  /** A buffer filled block by block, copied out. */
  lemma BufferIsBytes(s: Store, x: int, offset: nat, aux: seq<Block>, n: nat)
    requires Readable(s, x) && offset % 4096 == 0 && offset + n <= s.objs[x].size && n <= |aux| * 4096
    requires BufferHolds(s, x, offset, aux, |aux|)
    ensures Flatten(aux, n) == ReadBytes(Bytes(s, x), offset, n)
  {
    forall k | 0 <= k < n
      ensures FlatByte(aux, k) == ReadBytes(Bytes(s, x), offset, n)[k]
    {
      BufferByte(s, x, offset, aux, k);
    }
    FlattenIs(aux, n, ReadBytes(Bytes(s, x), offset, n));
  }

  /** The entry of indirect block i that the loops pair with block q of the buffer. */
  function EntryFor(offset: nat, i: int, q: int): (e: int)
    ensures BufferPosition(offset, i, e) == q * 4096
  {
    FirstEntry(offset, i) + (q - (i - offset / 4194304) * 1024)
  }

  /** read_indirect_block has filled its part of the buffer through indirect block bn, which is number i of its object
      and has m entries in use. */
  ghost predicate Filled(s: Store, bn: int, offset: nat, i: int, m: int, aux0: seq<Block>, aux: seq<Block>) {
    && |aux| == |aux0| && 0 <= m <= 1024 && 0 <= FirstEntry(offset, i)
    && forall q | 0 <= q < |aux| ::
         var e := EntryFor(offset, i, q);
         if FirstEntry(offset, i) <= e < m
         then var b := Entry(s, bn, e); 0 <= b < |s.blocks| && aux[q] == s.blocks[b].raw
         else aux[q] == aux0[q]
  }

  /** How many blocks of the buffer have been dealt with when the loop of objstore_read comes to i. */
  function FilledBefore(offset: nat, blocks: int, i: int): int {
    var k := (i - offset / 4194304) * 1024;
    if k > blocks then blocks else k
  }

  lemma EntryFills(size: int, offset: nat, n: int, i: int, q: int)
    requires offset % 4096 == 0 && offset + n <= size <= MAX_OBJECT && offset / 4194304 <= i < 4
    requires 0 <= q * 4096 < n && (i - offset / 4194304) * 1024 <= q < (i - offset / 4194304) * 1024 + 1024
    ensures var e := EntryFor(offset, i, q);
      if e < 1024 then FirstEntry(offset, i) <= e < Extent(size, i) && Position(i, e) == Source(offset, q * 4096)
      else Source(offset, q * 4096) < 0
  {
    var e := EntryFor(offset, i, q);
    assert offset == offset / 4194304 * 4194304 + offset % 4194304 / 4096 * 4096;
    if e < 1024 {
      assert StartsBefore(size, i, e);
    }
  }

  /** One turn of the loop of objstore_read. */
  lemma ChunkFills(s: Store, x: int, offset: nat, n: int, i: int, aux0: seq<Block>, aux: seq<Block>)
    requires Inv(s) && Live(s.objs, x) && offset % 4096 == 0 && offset + n <= s.objs[x].size
    requires offset / 4194304 <= i < 4 && |aux| == BlocksFor(n)
    requires BufferHolds(s, x, offset, aux0, FilledBefore(offset, |aux|, i))
    requires Filled(s, s.objs[x].ptrs[i], offset, i, Extent(s.objs[x].size, i), aux0, aux)
    ensures BufferHolds(s, x, offset, aux, FilledBefore(offset, |aux|, i + 1))
  {
    var off := (i - offset / 4194304) * 1024;
    forall q | 0 <= q < FilledBefore(offset, |aux|, i + 1)
      ensures HoldsBlock(s, x, offset, aux, q)
    {
      if q < off {
        assert HoldsBlock(s, x, offset, aux0, q) && aux[q] == aux0[q];
      } else {
        EntryFills(s.objs[x].size, offset, n, i, q);
        if EntryFor(offset, i, q) < 1024 {
          BlockAtEntry(s, x, i, EntryFor(offset, i, q));
        }
      }
    }
  }

  /** Where the loop of objstore_read goes there is an indirect block. */
  lemma ReadAim(size: int, offset: nat, n: int, i: int)
    requires offset % 4096 == 0 && 0 < n && offset + n <= size <= MAX_OBJECT
    requires offset / 4194304 <= i && More(offset, n, i)
    ensures Extent(size, i) > 0 && 0 <= FirstEntry(offset, i) < 1024
  {
    assert StartsBefore(size, i, 0);
  }

  lemma ReadEnd(offset: nat, n: int, i: int)
    requires offset % 4096 == 0 && 0 < n && offset + n <= MAX_OBJECT && offset / 4194304 <= i <= 4
    requires !More(offset, n, i)
    ensures FilledBefore(offset, BlocksFor(n), i) == BlocksFor(n)
  {
  }

  /** In a store that satisfies the invariant, every indirect block in use is well formed. */
  lemma ObjectEntries(s: Store, x: int, c: int)
    requires Inv(s) && Live(s.objs, x) && 0 <= c < 4
    ensures var bn, m := s.objs[x].ptrs[c], Extent(s.objs[x].size, c);
      (bn < 0 <==> m == 0) && (m > 0 ==> GoodEntries(s, bn, m))
  {
    var bn, m := s.objs[x].ptrs[c], Extent(s.objs[x].size, c);
    assert DenseObject(s, x) && InRange(s, Ind(x, c));
    if m > 0 {
      assert InUse(s, Ind(x, c)) && At(s, Ind(x, c)) == bn;
      forall e | 0 <= e < 1024
        ensures Entry(s, bn, e) == At(s, Data(x, c, e))
        ensures e < m ==> InUse(s, Data(x, c, e))
        ensures e >= m ==> At(s, Data(x, c, e)) == -1
      {
        assert InRange(s, Data(x, c, e));
        assert e < m ==> InUse(s, Data(x, c, e));
      }
    }
  }

  // ----- counting -----

  lemma ExtentByBlocks(size: int, c: int)
    requires c >= 0
    ensures var rest := BlocksFor(size) - c * 1024;
      Extent(size, c) == if rest <= 0 then 0 else if rest >= 1024 then 1024 else rest
  {
    var rest := BlocksFor(size) - c * 1024;
    var n := if rest <= 0 then 0 else if rest >= 1024 then 1024 else rest;
    forall e | 0 <= e < 1024
      ensures StartsBefore(size, c, e) <==> e < n
    {
      assert Position(c, e) == (c * 1024 + e) * 4096;
    }
    ExtentIs(size, c, n);
  }
}
