/** The page-table code of entry.c and context_mm.c, writing table entries through word pointers. */
module Mmus {
  import opened PageTables
  import Sets

  /** The MM_WR bit of a segment's access flags. */
  predicate MayWrite(flags: nat) {
    flags / 2 % 2 == 1
  }

  /** A new entry is present, for programs to use, and writable or not. */
  predicate Grants(w: int, writable: bool) {
    Present(w) && ForUser(w) && Writable(w) == writable
  }

  /** Table or page n has been added under root, unless it was there; nothing else has moved. */
  ghost predicate NodeAdded(m: Memory, t: set<int>, m': Memory, t': set<int>, root: int, n: seq<int>, writable: bool) {
    && IsPath(n) && n != [] && IsTree(m', root, t') && Reaches(m', root, n)
    && (if Reaches(m, root, n) then m' == m && t' == t
        else
          && Walk(m', root, n) !in t && t' == t + {Walk(m', root, n)}
          && WordOf(m', root, n) == MakeEntry(Walk(m', root, n), writable) && Grants(WordOf(m', root, n), writable))
    && (forall q | IsPath(q) && q != n ::
          Walk(m', root, q) == Walk(m, root, q) && (q != [] ==> WordOf(m', root, q) == WordOf(m, root, q)))
    && (forall base | Accounts(m, root, t, base) :: Accounts(m', root, t', base))
    && (PlainEntries(m, root) ==> PlainEntries(m', root))
  }

  lemma AddIsNodeAdded(m: Memory, m': Memory, root: int, t: set<int>, p: seq<int>, i: int, g: int, writable: bool)
    requires IsTree(m, root, t) && IsPath(p + [i]) && Reaches(m, root, p) && !Reaches(m, root, p + [i])
    requires g !in t && InRegion(g, if |p| < 3 then OsPt else User)
    requires Grown(m, m', Walk(m, root, p), i, MakeEntry(g, writable), g, |p| < 3)
    ensures NodeAdded(m, t, m', t + {g}, root, p + [i], writable)
  {
    forall q | IsPath(q)
      ensures Walk(m', root, q) == if q == p + [i] then g else Walk(m, root, q)
      ensures q != [] && q != p + [i] ==> WordOf(m', root, q) == WordOf(m, root, q)
      ensures q == p + [i] ==> WordOf(m', root, q) == MakeEntry(g, writable)
    {
      WalkAfterAdd(m, m', root, t, p, i, g, writable, q);
    }
    EntryRoundTrip(g, writable);
    TreeAfterAdd(m, m', root, t, {}, p, i, g, writable);
    forall base | Accounts(m, root, t, base)
      ensures Accounts(m', root, t + {g}, base)
    {
      TreeAfterAdd(m, m', root, t, base, p, i, g, writable);
    }
  }

  /** The page at the end of path has been unmapped and its frame freed; nothing else has moved. */
  ghost predicate Unmapped(m: Memory, t: set<int>, m': Memory, t': set<int>, root: int, path: seq<int>)
    requires |path| == 4 && IsPath(path)
  {
    && IsTree(m', root, t') && t' == t - {Walk(m, root, path)} && Walk(m', root, path) == -1
    && (forall q | IsPath(q) && q != path ::
          Walk(m', root, q) == Walk(m, root, q) && (q != [] ==> WordOf(m', root, q) == WordOf(m, root, q)))
    && (forall base | Accounts(m, root, t, base) :: Accounts(m', root, t', base))
    && (PlainEntries(m, root) ==> PlainEntries(m', root))
  }

  lemma ClearIsUnmapped(m: Memory, m': Memory, root: int, t: set<int>, path: seq<int>)
    requires |path| == 4 && IsPath(path) && IsTree(m, root, t)
    requires Reaches(m, root, path[..3]) && Reaches(m, root, path) && Cleared(m, m', Walk(m, root, path[..3]), path[3])
    ensures Unmapped(m, t, m', t - {Walk(m, root, path)}, root, path)
  {
    assert path == path[..3] + [path[3]];
    forall q | IsPath(q)
      ensures Walk(m', root, q) == if q == path then -1 else Walk(m, root, q)
      ensures q != path && q != [] ==> WordOf(m', root, q) == WordOf(m, root, q)
    {
      WalkAfterClear(m, m', root, t, path[..3], path[3], q);
    }
    TreeAfterClear(m, m', root, t, {}, path[..3], path[3]);
    forall base | Accounts(m, root, t, base)
      ensures Accounts(m', root, t - {Walk(m, root, path)}, base)
    {
      TreeAfterClear(m, m', root, t, base, path[..3], path[3]);
    }
  }

  /** One step of a walk looks at one entry of the table found so far. */
  lemma WalkStep(m: Memory, root: int, t: set<int>, path: seq<int>, k: int)
    requires |path| == 4 && IsPath(path) && 0 <= k < 4 && IsTree(m, root, t) && Reaches(m, root, path[..k])
    ensures var f := Walk(m, root, path[..k]);
      && 0 <= f < FRAMES && WordOf(m, root, path[..k + 1]) == m[f * 512 + path[k]]
      && (Reaches(m, root, path[..k + 1]) <==> Present(m[f * 512 + path[k]]))
  {
    assert path[..k + 1][..k] == path[..k] && path[..k + 1][k] == path[k];
    assert InRegion(Walk(m, root, path[..k]), OsPt);
  }

  lemma {:induction false} LostForGood(m: Memory, root: int, path: seq<int>, k: int)
    requires |path| == 4 && IsPath(path) && 0 <= k <= 4 && !Reaches(m, root, path[..k])
    ensures !Reaches(m, root, path)
    decreases 4 - k
  {
    if k < 4 {
      assert path[..k + 1][..k] == path[..k] && Walk(m, root, path[..k]) == -1;
      assert WordOf(m, root, path[..k + 1]) == 0;
      LostForGood(m, root, path, k + 1);
    } else {
      assert path[..4] == path;
    }
  }

  predicate IsPrefix(q: seq<int>, path: seq<int>, k: int)
    requires k <= |path|
  {
    1 <= |q| <= k && q == path[..|q|]
  }

  /** The nodes of a path up to length k have been added where they were missing; nothing else has moved. */
  ghost predicate Extends(m: Memory, t: set<int>, m': Memory, t': set<int>, root: int, path: seq<int>, k: int,
                          writable: bool)
    requires |path| == 4 && IsPath(path) && 0 <= k <= 4
  {
    && IsTree(m', root, t') && t <= t'
    && (forall j | 0 <= j <= k :: Reaches(m', root, path[..j]))
    && (forall q | IsPath(q) :: Follows(m, t, m', root, path, k, writable, q))
    && (forall base | Accounts(m, root, t, base) :: Accounts(m', root, t', base))
    && (PlainEntries(m, root) ==> PlainEntries(m', root))
  }

  /** What has become of one path q. */
  ghost predicate Follows(m: Memory, t: set<int>, m': Memory, root: int, path: seq<int>, k: int, writable: bool,
                          q: seq<int>)
    requires |path| == 4 && 0 <= k <= 4 && IsPath(q)
  {
    if Reaches(m, root, q) || !IsPrefix(q, path, k) then
      Walk(m', root, q) == Walk(m, root, q) && (q != [] ==> WordOf(m', root, q) == WordOf(m, root, q))
    else
      && Reaches(m', root, q) && Walk(m', root, q) !in t
      && WordOf(m', root, q) == MakeEntry(Walk(m', root, q), writable) && Grants(WordOf(m', root, q), writable)
  }

  /** What the processor finds on its walk to a page that has been mapped: the entries that were there, as they were,
      and where there was none an entry that is present, for programs to use, and writable or not. */
  ghost predicate Filled(m: Memory, m': Memory, root: int, path: seq<int>, writable: bool)
    requires |path| == 4 && IsPath(path)
  {
    forall k | 1 <= k <= 4 ::
      var old', new' := WordOf(m, root, path[..k]), WordOf(m', root, path[..k]);
      if Present(old') then new' == old' else Present(new') && ForUser(new') && Writable(new') == writable
  }

  lemma ExtendsFills(m: Memory, t: set<int>, m': Memory, t': set<int>, root: int, path: seq<int>, writable: bool)
    requires |path| == 4 && IsPath(path) && IsTree(m, root, t) && Extends(m, t, m', t', root, path, 4, writable)
    ensures Filled(m, m', root, path, writable)
  {
    forall k | 1 <= k <= 4
      ensures var old', new' := WordOf(m, root, path[..k]), WordOf(m', root, path[..k]);
        if Present(old') then new' == old' else Present(new') && ForUser(new') && Writable(new') == writable
    {
      assert Follows(m, t, m', root, path, 4, writable, path[..k]);
      PresentIff(m, root, t, path[..k]);
    }
  }

  lemma PresentIff(m: Memory, root: int, t: set<int>, q: seq<int>)
    requires IsTree(m, root, t) && IsPath(q) && q != []
    ensures Reaches(m, root, q) <==> Present(WordOf(m, root, q))
  {
  }

  lemma ExtendsNothing(m: Memory, t: set<int>, root: int, path: seq<int>, writable: bool)
    requires |path| == 4 && IsPath(path) && IsTree(m, root, t) && Reaches(m, root, [])
    ensures Extends(m, t, m, t, root, path, 0, writable)
  {
    assert path[..0] == [];
  }

  lemma ExtendsStep(m0: Memory, t0: set<int>, m: Memory, t: set<int>, m': Memory, t': set<int>, root: int,
                    path: seq<int>, k: int, writable: bool)
    requires |path| == 4 && IsPath(path) && 0 <= k < 4
    requires Extends(m0, t0, m, t, root, path, k, writable) && NodeAdded(m, t, m', t', root, path[..k + 1], writable)
    ensures Extends(m0, t0, m', t', root, path, k + 1, writable)
  {
    var n := path[..k + 1];
    forall j | 0 <= j <= k + 1
      ensures Reaches(m', root, path[..j])
    {
      assert j <= k ==> path[..j] != n;
    }
    forall q | IsPath(q)
      ensures Follows(m0, t0, m', root, path, k + 1, writable, q)
    {
      assert Follows(m0, t0, m, root, path, k, writable, q);
      assert IsPrefix(q, path, k + 1) <==> IsPrefix(q, path, k) || q == n;
      assert !IsPrefix(n, path, k);
    }
  }

  ghost function FreeIn(r: Region, taken: set<int>): set<int> {
    set f | 0 <= f < FRAMES && InRegion(f, r) && f !in taken
  }

  lemma TakeOne(r: Region, taken: set<int>, f: int)
    requires 0 <= f < FRAMES && f !in taken
    ensures |FreeIn(r, taken + {f})| == |FreeIn(r, taken)| - if InRegion(f, r) then 1 else 0
  {
    assert FreeIn(r, taken + {f}) == FreeIn(r, taken) - {f};
  }

  /** How many of the tables on a path, from length j on, are missing. */
  ghost function Missing(m: Memory, root: int, path: seq<int>, j: int): (n: int)
    requires |path| == 4 && IsPath(path) && 1 <= j <= 4
    ensures n >= 0
    decreases 4 - j
  {
    if j == 4 then 0 else (if Reaches(m, root, path[..j]) then 0 else 1) + Missing(m, root, path, j + 1)
  }

  lemma {:induction false} MissingLater(m: Memory, t: set<int>, m': Memory, t': set<int>, root: int, path: seq<int>,
                                        k: int, writable: bool, j: int)
    requires |path| == 4 && IsPath(path) && 1 <= k < j <= 4 && NodeAdded(m, t, m', t', root, path[..k], writable)
    ensures Missing(m', root, path, j) == Missing(m, root, path, j)
    decreases 4 - j
  {
    if j < 4 {
      assert path[..j] != path[..k];
      MissingLater(m, t, m', t', root, path, k, writable, j + 1);
    }
  }

  lemma FreeExists(r: Region, taken: set<int>)
    requires |FreeIn(r, taken)| > 0
    ensures exists f :: 0 <= f < FRAMES && InRegion(f, r) && f !in taken
  {
    var f := Sets.Pick(FreeIn(r, taken));
  }

  /** A table that is added takes one frame, and one frame less is missing. */
  lemma TableCounts(m: Memory, t: set<int>, m': Memory, t': set<int>, root: int, path: seq<int>, k: int, writable: bool)
    requires |path| == 4 && IsPath(path) && 0 <= k < 3 && NodeAdded(m, t, m', t', root, path[..k + 1], writable)
    requires |FreeIn(OsPt, t)| >= Missing(m, root, path, k + 1)
    ensures |FreeIn(OsPt, t')| >= Missing(m', root, path, k + 2) && |FreeIn(OsPt, t')| >= |FreeIn(OsPt, t)| - 1
    ensures FreeIn(User, t') == FreeIn(User, t)
  {
    MissingLater(m, t, m', t', root, path, k + 1, writable, k + 2);
    if !Reaches(m, root, path[..k + 1]) {
      var f := Walk(m', root, path[..k + 1]);
      assert Reaches(m', root, path[..k + 1]) && InRegion(f, OsPt);
      TakeOne(OsPt, t, f);
      assert FreeIn(User, t + {f}) == FreeIn(User, t);
    }
  }

  class Mmu {
    const mem: array<int>
    var taken: set<int>  // the frames os_pfn_alloc has handed out

    constructor ()
      ensures mem.Length == 512 * FRAMES && taken == {} && fresh(mem)
    {
      mem := new int[512 * FRAMES](_ => 0);
      taken := {};
    }

    ghost predicate Ok() {
      mem.Length == 512 * FRAMES
    }

    ghost function M(): Memory
      requires Ok()
      reads mem
    {
      mem[..]
    }

    ghost predicate HasFree(r: Region)
      reads this
    {
      exists f :: 0 <= f < FRAMES && InRegion(f, r) && f !in taken
    }

    method PfnAlloc(r: Region) returns (f: int)
      requires HasFree(r)
      modifies this`taken
      ensures InRegion(f, r) && f !in old(taken) && taken == old(taken) + {f}
    {
      f :| 0 <= f < FRAMES && InRegion(f, r) && f !in taken;
      taken := taken + {f};
    }

    method PfnFree(r: Region, f: int)
      modifies this`taken
      ensures taken == old(taken) - {f}
    {
      taken := taken - {f};
    }

    method InitializePage(page: nat)
      requires page + 512 <= mem.Length
      modifies mem
      ensures forall a | 0 <= a < mem.Length :: mem[a] == if page <= a < page + 512 then 0 else old(mem[a])
    {
      for i := 0 to 512
        invariant forall a | 0 <= a < mem.Length :: mem[a] == if page <= a < page + i then 0 else old(mem[a])
      {
        mem[page + i] := 0;
      }
    }

    /** assign_page_table_page: follow the entry at word ptr, creating the table if it is missing. */
    method AssignPageTablePage(ptr: nat, flags: nat, ghost root: int, ghost p: seq<int>, ghost i: int)
      returns (page: nat)
      requires Ok() && IsTree(M(), root, taken) && IsPath(p + [i]) && |p| < 3 && Reaches(M(), root, p)
      requires ptr == Walk(M(), root, p) * 512 + i && (Reaches(M(), root, p + [i]) || HasFree(OsPt))
      requires PlainEntries(M(), root)
      modifies mem, this`taken
      ensures NodeAdded(old(M()), old(taken), M(), taken, root, p + [i], MayWrite(flags))
      ensures page == Walk(M(), root, p + [i]) * 512
    {
      assert (p + [i])[..|p|] == p && (p + [i])[|p|] == i;
      assert InRegion(Walk(M(), root, p), OsPt);
      assert WordOf(M(), root, p + [i]) == mem[ptr];
      if mem[ptr] % 2 == 1 {
        assert Reaches(M(), root, p + [i]);
        return mem[ptr] / 4096 * 512;
      }
      var f := PfnAlloc(OsPt);
      mem[ptr] := MakeEntry(f, MayWrite(flags));
      InitializePage(f * 512);
      page := f * 512;
      assert Grown(old(M()), M(), Walk(old(M()), root, p), i, MakeEntry(f, MayWrite(flags)), f, true);
      AddIsNodeAdded(old(M()), M(), root, old(taken), p, i, f, MayWrite(flags));
    }

    /** assign_data_page: map a page on the frame handed over, or on a new one if there is none. */
    method AssignDataPage(ptr: nat, flags: nat, pfn: nat, ghost root: int, ghost p: seq<int>, ghost i: int)
      requires Ok() && IsPath(p + [i]) && |p| == 3 && Reaches(M(), root, p) && ptr == Walk(M(), root, p) * 512 + i
      requires pfn == 0 ==> IsTree(M(), root, taken) && (Reaches(M(), root, p + [i]) || HasFree(User))
      requires pfn != 0 ==> IsTree(M(), root, taken - {pfn}) && pfn in taken && InRegion(pfn, User)
      modifies mem, this`taken
      ensures Reaches(old(M()), root, p + [i]) ==> M() == old(M()) && taken == old(taken)
      ensures pfn == 0 ==> NodeAdded(old(M()), old(taken), M(), taken, root, p + [i], MayWrite(flags))
      ensures pfn != 0 ==> taken == old(taken)
      ensures pfn != 0 && !Reaches(old(M()), root, p + [i]) ==>
        NodeAdded(old(M()), taken - {pfn}, M(), taken, root, p + [i], MayWrite(flags)) &&
          Walk(M(), root, p + [i]) == pfn
      ensures FreeIn(OsPt, taken) == old(FreeIn(OsPt, taken))
      ensures |FreeIn(User, taken)| >= old(|FreeIn(User, taken)|) - 1
    {
      assert (p + [i])[..|p|] == p && (p + [i])[|p|] == i;
      assert InRegion(Walk(M(), root, p), OsPt);
      assert WordOf(M(), root, p + [i]) == mem[ptr];
      if mem[ptr] % 2 == 1 {
        assert Reaches(M(), root, p + [i]);
        return;
      }
      var f := pfn;
      if pfn == 0 {
        f := PfnAlloc(User);
        TakeOne(User, old(taken), f);
      }
      mem[ptr] := MakeEntry(f, MayWrite(flags));
      assert Grown(old(M()), M(), Walk(old(M()), root, p), i, MakeEntry(f, MayWrite(flags)), f, false);
      ghost var t := if pfn == 0 then old(taken) else taken - {pfn};
      AddIsNodeAdded(old(M()), M(), root, t, p, i, f, MayWrite(flags));
      assert t + {f} == taken;
    }

    /** One level of assign_page_table_pages: from the table at path[..k] to the table at path[..k + 1]. */
    method Descend(page: nat, index: nat, flags: nat, ghost root: int, ghost path: seq<int>, ghost k: nat,
                   ghost m0: Memory, ghost t0: set<int>)
      returns (next: nat)
      requires Ok() && |path| == 4 && IsPath(path) && k < 3 && index == path[k] && PlainEntries(M(), root)
      requires Extends(m0, t0, M(), taken, root, path, k, MayWrite(flags)) && page == Walk(M(), root, path[..k]) * 512
      requires |FreeIn(OsPt, taken)| >= Missing(M(), root, path, k + 1)
      modifies mem, this`taken
      ensures Extends(m0, t0, M(), taken, root, path, k + 1, MayWrite(flags))
      ensures next == Walk(M(), root, path[..k + 1]) * 512 && PlainEntries(M(), root)
      ensures |FreeIn(OsPt, taken)| >= Missing(M(), root, path, k + 2)
      ensures |FreeIn(OsPt, taken)| >= old(|FreeIn(OsPt, taken)|) - 1
      ensures FreeIn(User, taken) == old(FreeIn(User, taken))
    {
      ghost var m, t := M(), taken;
      assert path[..k] + [path[k]] == path[..k + 1];
      if !Reaches(m, root, path[..k + 1]) {
        FreeExists(OsPt, taken);
      }
      next := AssignPageTablePage(page + index, flags, root, path[..k], path[k]);
      ExtendsStep(m0, t0, m, t, M(), taken, root, path, k, MayWrite(flags));
      TableCounts(m, t, M(), taken, root, path, k, MayWrite(flags));
    }

    /** assign_page_table_pages: the three tables above the page of an address; the word that maps the page. */
    method AssignPageTablePages(root: nat, va: int, flags: nat) returns (ptr: nat)
      requires Ok() && IsTree(M(), root, taken) && PlainEntries(M(), root)
      requires |FreeIn(OsPt, taken)| >= Missing(M(), root, Path(va), 1)
      modifies mem, this`taken
      ensures Extends(old(M()), old(taken), M(), taken, root, Path(va), 3, MayWrite(flags)) && PlainEntries(M(), root)
      ensures ptr == Walk(M(), root, Path(va)[..3]) * 512 + Path(va)[3]
      ensures |FreeIn(OsPt, taken)| >= old(|FreeIn(OsPt, taken)|) - 3
      ensures FreeIn(User, taken) == old(FreeIn(User, taken))
    {
      ghost var m0, t0, path := M(), taken, Path(va);
      ExtendsNothing(m0, t0, root, path, MayWrite(flags));
      assert path[..0] == [] && forall k | 0 <= k < 4 :: path[k] == Index(va, k);
      var l3 := Descend(root * 512, Index(va, 0), flags, root, path, 0, m0, t0);
      var l2 := Descend(l3, Index(va, 1), flags, root, path, 1, m0, t0);
      var l1 := Descend(l2, Index(va, 2), flags, root, path, 2, m0, t0);
      ptr := l1 + Index(va, 3);
    }

    /** handle_mm_seg_..._page_fault: map the page of an address, with the write bit of the segment's flags. */
    method MapPage(root: nat, va: int, flags: nat)
      requires Ok() && IsTree(M(), root, taken) && PlainEntries(M(), root)
      requires |FreeIn(OsPt, taken)| >= Missing(M(), root, Path(va), 1)
      requires Reaches(M(), root, Path(va)) || FreeIn(User, taken) != {}
      modifies mem, this`taken
      ensures Extends(old(M()), old(taken), M(), taken, root, Path(va), 4, MayWrite(flags)) && PlainEntries(M(), root)
      ensures Filled(old(M()), M(), root, Path(va), flags / 2 % 2 == 1)
      ensures |FreeIn(OsPt, taken)| >= old(|FreeIn(OsPt, taken)|) - 3
      ensures |FreeIn(User, taken)| >= old(|FreeIn(User, taken)|) - 1
    {
      ghost var m0, t0, path := M(), taken, Path(va);
      var ptr := AssignPageTablePages(root, va, flags);
      ghost var m, t := M(), taken;
      assert path[..3] + [path[3]] == path == path[..4];
      assert Follows(m0, t0, m, root, path, 3, MayWrite(flags), path);
      if FreeIn(User, taken) != {} {
        ghost var f :| f in FreeIn(User, taken);
      }
      AssignDataPage(ptr, flags, 0, root, path[..3], path[3]);
      ExtendsStep(m0, t0, m, t, M(), taken, root, path, 3, MayWrite(flags));
      ExtendsFills(m0, t0, M(), taken, root, path, MayWrite(flags));
    }

    /** The walk that is_valid_virtual_addr and free_data_page begin with: the word that maps the page. */
    method FindWord(va: int, root: nat) returns (found: bool, ptr: nat)
      requires Ok() && IsTree(M(), root, taken) && Reaches(M(), root, [])
      ensures !found ==> !Reaches(M(), root, Path(va))
      ensures found ==> Reaches(M(), root, Path(va)[..3]) && ptr == Walk(M(), root, Path(va)[..3]) * 512 + Path(va)[3]
      ensures found ==> ptr < mem.Length && WordOf(M(), root, Path(va)) == mem[ptr]
    {
      ghost var m, path := M(), Path(va);
      assert path[..0] == [] && path[..4] == path;
      WalkStep(m, root, taken, path, 0);
      ptr := root * 512 + Index(va, 0);
      if mem[ptr] % 2 != 1 {
        LostForGood(m, root, path, 1);
        return false, 0;
      }
      WalkStep(m, root, taken, path, 1);
      ptr := Target(mem[ptr]) * 512 + Index(va, 1);
      if mem[ptr] % 2 != 1 {
        LostForGood(m, root, path, 2);
        return false, 0;
      }
      WalkStep(m, root, taken, path, 2);
      ptr := Target(mem[ptr]) * 512 + Index(va, 2);
      if mem[ptr] % 2 != 1 {
        LostForGood(m, root, path, 3);
        return false, 0;
      }
      WalkStep(m, root, taken, path, 3);
      ptr := Target(mem[ptr]) * 512 + Index(va, 3);
      found := true;
    }

    /** is_valid_virtual_addr. */
    method IsValidVirtualAddr(va: int, root: nat) returns (valid: bool)
      requires Ok() && IsTree(M(), root, taken) && Reaches(M(), root, [])
      ensures valid <==> Reaches(M(), root, Path(va))
    {
      var found, ptr := FindWord(va, root);
      valid := found && mem[ptr] % 2 == 1;
    }

    /** free_data_page: unmap the page of an address and free its frame, if it is mapped. */
    method FreeDataPage(va: int, root: nat)
      requires Ok() && IsTree(M(), root, taken) && Reaches(M(), root, [])
      modifies mem, this`taken
      ensures !Reaches(old(M()), root, Path(va)) ==> M() == old(M()) && taken == old(taken)
      ensures Reaches(old(M()), root, Path(va)) ==> Unmapped(old(M()), old(taken), M(), taken, root, Path(va))
    {
      var found, ptr := FindWord(va, root);
      if !found || mem[ptr] % 2 != 1 {
        return;
      }
      PfnFree(User, Target(mem[ptr]));
      mem[ptr] := 0;
      ghost var path := Path(va);
      assert InRegion(Walk(old(M()), root, path[..3]), OsPt);
      assert Cleared(old(M()), M(), Walk(old(M()), root, path[..3]), path[3]);
      ClearIsUnmapped(old(M()), M(), root, old(taken), path);
    }
  }
}
