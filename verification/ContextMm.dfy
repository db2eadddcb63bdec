/** Building and tearing down the page tables of a process, as context_mm.c does. */
module ContextMm {
  import opened PageTables
  import opened Unfolding
  import opened Mmus
  import P = ProcessMemory
  import Sets

  type PagePath = p: seq<int> | |p| == 4 && IsPath(p) witness [0, 0, 0, 0]

  /** A page to be mapped and whether its segment is writable. */
  datatype Mapping = Mapping(path: PagePath, writable: bool)

  // ----- what mapping pages one after the other builds -----

  /** One of the pages lies at or below the node q. */
  ghost predicate Has(pages: seq<Mapping>, q: seq<int>) {
    |pages| > 0 && (IsPrefix(q, pages[|pages| - 1].path, 4) || Has(pages[..|pages| - 1], q))
  }

  /** Whether the first page at or below q is writable. */
  ghost predicate FirstWrites(pages: seq<Mapping>, q: seq<int>) {
    |pages| > 0 &&
    if Has(pages[..|pages| - 1], q) then FirstWrites(pages[..|pages| - 1], q) else pages[|pages| - 1].writable
  }

  /** A node other than the root exists exactly when a page needs it, is for programs to use, and carries the write
      flag of the first page that needed it. */
  ghost predicate NodeOk(m: Memory, root: int, pages: seq<Mapping>, q: seq<int>)
    requires IsPath(q) && q != []
  {
    && (Reaches(m, root, q) <==> Has(pages, q))
    && (Reaches(m, root, q) ==> Grants(WordOf(m, root, q), FirstWrites(pages, q)))
  }

  /** The tables under root hold these pages and nothing else, and account for all frames but base. */
  ghost predicate Built(m: Memory, root: int, t: set<int>, base: set<int>, pages: seq<Mapping>) {
    && 0 <= root && IsTree(m, root, t) && PlainEntries(m, root) && Accounts(m, root, t, base)
    && forall q | IsPath(q) && q != [] :: NodeOk(m, root, pages, q)
  }

  ghost predicate IsPreparedTree(b: bool, m: Memory, root: int, t: set<int>, base: set<int>, pages: seq<Mapping>) {
    forall k {:trigger Unfold(InTree, k)} :: Unfold(InTree, k) ==> (b <==> Built(m, root, t, base, pages))
  }

  /** Built, kept closed. */
  ghost predicate Prepared(m: Memory, root: int, t: set<int>, base: set<int>, pages: seq<Mapping>) {
    assert IsPreparedTree(Built(m, root, t, base, pages), m, root, t, base, pages);
    var b: bool :| IsPreparedTree(b, m, root, t, base, pages);
    b
  }

  lemma OpenPrepared(m: Memory, root: int, t: set<int>, base: set<int>, pages: seq<Mapping>)
    requires Prepared(m, root, t, base, pages)
    ensures Built(m, root, t, base, pages)
  {
    assert Unfold(InTree, 0);
  }

  lemma ClosePrepared(m: Memory, root: int, t: set<int>, base: set<int>, pages: seq<Mapping>)
    requires Built(m, root, t, base, pages)
    ensures Prepared(m, root, t, base, pages)
  {
    assert Unfold(InTree, 0);
  }

  lemma {:induction false} BareWalk(m: Memory, root: int, q: seq<int>)
    requires 0 <= root < FRAMES && IsPath(q) && q != [] && forall j | 0 <= j < 512 :: ZeroWord(m, root, j)
    ensures Walk(m, root, q) == -1
    decreases |q|
  {
    var q0, j := q[..|q| - 1], q[|q| - 1];
    assert q == q0 + [j];
    if q0 == [] {
      assert ZeroWord(m, root, j);
    } else {
      BareWalk(m, root, q0);
    }
    WalkSnoc(m, root, q0, j);
  }

  /** A zeroed table on a fresh frame is a tree without pages. */
  lemma PreparedNothing(m: Memory, root: int, base: set<int>)
    requires InRegion(root, OsPt) && root !in base && forall j | 0 <= j < 512 :: ZeroWord(m, root, j)
    ensures Prepared(m, root, base + {root}, base, [])
  {
    forall q | IsPath(q) && q != []
      ensures Walk(m, root, q) == -1
    {
      BareWalk(m, root, q);
    }
    assert Reaches(m, root, []) && Walk(m, root, []) == root;
    forall f
      ensures IsFrameOf(m, root, f) <==> f == root
    {
    }
    ClosePrepared(m, root, base + {root}, base, []);
  }

  lemma HasSnoc(pages: seq<Mapping>, page: Mapping, q: seq<int>)
    ensures Has(pages + [page], q) <==> Has(pages, q) || IsPrefix(q, page.path, 4)
    ensures FirstWrites(pages + [page], q) == if Has(pages, q) then FirstWrites(pages, q) else page.writable
  {
    assert (pages + [page])[..|pages|] == pages;
  }

  /** Mapping one more page. */
  lemma PreparedStep(m: Memory, m': Memory, root: int, t: set<int>, t': set<int>, base: set<int>,
                     pages: seq<Mapping>, page: Mapping)
    requires Prepared(m, root, t, base, pages) && Extends(m, t, m', t', root, page.path, 4, page.writable)
    ensures Prepared(m', root, t', base, pages + [page])
  {
    OpenPrepared(m, root, t, base, pages);
    forall q | IsPath(q) && q != []
      ensures NodeOk(m', root, pages + [page], q)
    {
      HasSnoc(pages, page, q);
      assert NodeOk(m, root, pages, q);
      assert Follows(m, t, m', root, page.path, 4, page.writable, q);
    }
    ClosePrepared(m', root, t', base, pages + [page]);
  }

  /** Mapping a page on the frame handed over: its tables first, then the page itself. */
  lemma PreparedHanded(m: Memory, m1: Memory, m': Memory, root: int, t: set<int>, t': set<int>, base: set<int>,
                       pages: seq<Mapping>, page: Mapping, arg: int)
    requires Prepared(m, root, t, base, pages) && Extends(m, t, m1, t', root, page.path, 3, page.writable)
    requires arg in base && !Reaches(m1, root, page.path)
    requires NodeAdded(m1, t' - {arg}, m', t', root, page.path, page.writable)
    ensures Prepared(m', root, t', base - {arg}, pages + [page])
  {
    OpenPrepared(m, root, t, base, pages);
    assert Accounts(m1, root, t', base);
    assert Accounts(m1, root, t' - {arg}, base - {arg});
    forall q | IsPath(q) && q != []
      ensures NodeOk(m', root, pages + [page], q)
    {
      HasSnoc(pages, page, q);
      assert NodeOk(m, root, pages, q);
      assert Follows(m, t, m1, root, page.path, 3, page.writable, q);
      assert IsPrefix(q, page.path, 4) <==> IsPrefix(q, page.path, 3) || q == page.path by {
        assert page.path[..4] == page.path;
      }
    }
    ClosePrepared(m', root, t', base - {arg}, pages + [page]);
  }

  /** The frame handed over is not part of the tree. */
  lemma HandedApart(m: Memory, root: int, t: set<int>, base: set<int>, arg: int)
    requires IsTree(m, root, t) && Accounts(m, root, t, base) && arg in base
    ensures IsTree(m, root, t - {arg})
  {
    forall p | Reaches(m, root, p)
      ensures Walk(m, root, p) in t - {arg}
    {
      assert IsFrameOf(m, root, Walk(m, root, p));
    }
  }

  // ----- who may use and write -----

  /** The processor lets a program use a page when every entry of the walk is present and has its user bit set. */
  ghost predicate MayUseThrough(m: Memory, root: int, path: PagePath) {
    forall k | 1 <= k <= 4 :: Present(WordOf(m, root, path[..k])) && ForUser(WordOf(m, root, path[..k]))
  }

  /** The processor lets a program write to a page when every entry of the walk has its write bit set. */
  ghost predicate MayWriteThrough(m: Memory, root: int, path: PagePath) {
    forall k | 1 <= k <= 4 :: Writable(WordOf(m, root, path[..k]))
  }

  /** Every entry of the walk has this write bit. */
  ghost predicate AllMarked(m: Memory, root: int, path: PagePath, writable: bool) {
    forall k | 1 <= k <= 4 :: Writable(WordOf(m, root, path[..k])) == writable
  }

  /** The page is writable exactly when its segment is. */
  ghost predicate Respected(m: Memory, root: int, page: Mapping) {
    MayWriteThrough(m, root, page.path) <==> page.writable
  }

  lemma FirstOfThree(s: Mapping, c: Mapping, d: Mapping, q: seq<int>)
    ensures FirstWrites([s, c, d], q) ==
      if IsPrefix(q, s.path, 4) then s.writable else if IsPrefix(q, c.path, 4) then c.writable else d.writable
    ensures Has([s, c, d], q) <==> IsPrefix(q, s.path, 4) || IsPrefix(q, c.path, 4) || IsPrefix(q, d.path, 4)
  {
    HasOneMore([], s, [s], q);
    HasOneMore([s], c, [s, c], q);
    HasOneMore([s, c], d, [s, c, d], q);
  }

  lemma HasOneMore(pages: seq<Mapping>, page: Mapping, all: seq<Mapping>, q: seq<int>)
    requires all == pages + [page]
    ensures Has(all, q) <==> Has(pages, q) || IsPrefix(q, page.path, 4)
    ensures FirstWrites(all, q) == if Has(pages, q) then FirstWrites(pages, q) else page.writable
  {
    HasSnoc(pages, page, q);
  }

  /** The write flag at level k of the walk to a page: that of the first segment that shares the entry. */
  predicate Bit(s: Mapping, c: Mapping, d: Mapping, path: PagePath, k: int)
    requires 1 <= k <= 4
  {
    if path[..k] == s.path[..k] then s.writable else if path[..k] == c.path[..k] then c.writable else d.writable
  }

  /** The entries on the walk to one of the pages. */
  lemma EntriesOf(m: Memory, root: int, t: set<int>, base: set<int>, s: Mapping, c: Mapping, d: Mapping, path: PagePath)
    requires Prepared(m, root, t, base, [s, c, d]) && path in [s.path, c.path, d.path]
    ensures forall k | 1 <= k <= 4 :: Grants(WordOf(m, root, path[..k]), Bit(s, c, d, path, k))
  {
    OpenPrepared(m, root, t, base, [s, c, d]);
    forall k | 1 <= k <= 4
      ensures Grants(WordOf(m, root, path[..k]), Bit(s, c, d, path, k))
    {
      FirstOfThree(s, c, d, path[..k]);
      assert NodeOk(m, root, [s, c, d], path[..k]);
    }
  }

  lemma WriteBits(m: Memory, root: int, t: set<int>, base: set<int>, s: Mapping, c: Mapping, d: Mapping, path: PagePath)
    requires Prepared(m, root, t, base, [s, c, d]) && path in [s.path, c.path, d.path]
    ensures MayWriteThrough(m, root, path) <==> forall k | 1 <= k <= 4 :: Bit(s, c, d, path, k)
  {
    EntriesOf(m, root, t, base, s, c, d, path);
  }

  /** What three pages mapped one after the other come to: programs may use them and no others, the entries of the
      first have its write flag, and so has the last entry of each. */
  lemma PreparedPages(m: Memory, root: int, t: set<int>, base: set<int>, s: Mapping, c: Mapping, d: Mapping)
    requires Prepared(m, root, t, base, [s, c, d])
    ensures MayUseThrough(m, root, s.path) && MayUseThrough(m, root, c.path) && MayUseThrough(m, root, d.path)
    ensures forall q | |q| == 4 && Reaches(m, root, q) :: q == s.path || q == c.path || q == d.path
    ensures AllMarked(m, root, s.path, s.writable)
    ensures c.path != s.path ==> Writable(WordOf(m, root, c.path)) == c.writable
    ensures d.path != s.path && d.path != c.path ==> Writable(WordOf(m, root, d.path)) == d.writable
  {
    OpenPrepared(m, root, t, base, [s, c, d]);
    EntriesOf(m, root, t, base, s, c, d, s.path);
    EntriesOf(m, root, t, base, s, c, d, c.path);
    EntriesOf(m, root, t, base, s, c, d, d.path);
    assert s.path[..4] == s.path && c.path[..4] == c.path && d.path[..4] == d.path;
    forall q | |q| == 4 && Reaches(m, root, q)
      ensures q == s.path || q == c.path || q == d.path
    {
      FirstOfThree(s, c, d, q);
      assert NodeOk(m, root, [s, c, d], q);
    }
  }

  lemma SharesFirst(p: PagePath, q: PagePath, k: int)
    requires 1 <= k <= 4 && p[..k] == q[..k]
    ensures p[..1] == q[..1]
  {
    assert p[..k][..1] == p[..1] && q[..k][..1] == q[..1];
  }

  lemma BitsOfCode(s: Mapping, c: Mapping, d: Mapping)
    requires s.path != c.path
    ensures (forall k | 1 <= k <= 4 :: Bit(s, c, d, c.path, k)) <==>
      c.writable && (c.path[..1] == s.path[..1] ==> s.writable)
  {
    assert Bit(s, c, d, c.path, 4) == c.writable by {
      assert s.path[..4] == s.path && c.path[..4] == c.path;
    }
    assert c.path[..1] == s.path[..1] ==> Bit(s, c, d, c.path, 1) == s.writable;
    forall k | 1 <= k <= 4 && c.path[..k] == s.path[..k]
      ensures c.path[..1] == s.path[..1]
    {
      SharesFirst(c.path, s.path, k);
    }
  }

  lemma BitsOfData(s: Mapping, c: Mapping, d: Mapping)
    requires s.path != d.path && c.path != d.path
    ensures (forall k | 1 <= k <= 4 :: Bit(s, c, d, d.path, k)) <==>
      && d.writable && (d.path[..1] == s.path[..1] ==> s.writable)
      && (forall k | 1 <= k <= 3 && d.path[..k] == c.path[..k] && d.path[..k] != s.path[..k] :: c.writable)
  {
    assert Bit(s, c, d, d.path, 4) == d.writable && d.path[..4] != c.path[..4] by {
      assert s.path[..4] == s.path && c.path[..4] == c.path && d.path[..4] == d.path;
    }
    assert d.path[..1] == s.path[..1] ==> Bit(s, c, d, d.path, 1) == s.writable;
    forall k | 1 <= k <= 4 && d.path[..k] == s.path[..k]
      ensures d.path[..1] == s.path[..1]
    {
      SharesFirst(d.path, s.path, k);
    }
    assert forall k | 1 <= k <= 3 && d.path[..k] == c.path[..k] && d.path[..k] != s.path[..k] ::
        Bit(s, c, d, d.path, k) == c.writable;
  }

  /** Exactly when the pages of three segments, mapped one after the other, get the rights of their segments. */
  lemma RightsIff(m: Memory, root: int, t: set<int>, base: set<int>, s: Mapping, c: Mapping, d: Mapping)
    requires Prepared(m, root, t, base, [s, c, d]) && s.path != c.path && s.path != d.path && c.path != d.path
    ensures Respected(m, root, s)
    ensures Respected(m, root, c) <==> (c.writable && c.path[..1] == s.path[..1] ==> s.writable)
    ensures Respected(m, root, d) <==>
      (d.writable ==>
        && (d.path[..1] == s.path[..1] ==> s.writable)
        && (forall k | 1 <= k <= 3 && d.path[..k] == c.path[..k] && d.path[..k] != s.path[..k] :: c.writable))
  {
    WriteBits(m, root, t, base, s, c, d, s.path);
    assert Bit(s, c, d, s.path, 1) == s.writable;
    WriteBits(m, root, t, base, s, c, d, c.path);
    BitsOfCode(s, c, d);
    WriteBits(m, root, t, base, s, c, d, d.path);
    BitsOfData(s, c, d);
  }

  /** Addresses in different 1 GiB regions below 512 GiB share the first entry and nothing else. */
  lemma DifferentRegions(va: int, vb: int)
    requires 0 <= va < 0x80_0000_0000 && 0 <= vb < 0x80_0000_0000 && va / 0x4000_0000 != vb / 0x4000_0000
    ensures Path(va) != Path(vb) && forall k | 2 <= k <= 4 :: Path(va)[..k] != Path(vb)[..k]
  {
    assert Path(va)[1] != Path(vb)[1];
    forall k | 2 <= k <= 4
      ensures Path(va)[..k] != Path(vb)[..k]
    {
      assert Path(va)[..k][1] == Path(va)[1] && Path(vb)[..k][1] == Path(vb)[1];
    }
  }

  /** With a writable stack and the segments in different 1 GiB regions below 512 GiB, every page has the rights of
      its segment. */
  lemma RightsRespected(m: Memory, root: int, t: set<int>, base: set<int>, vs: int, vc: int, vd: int, code: bool,
                        data: bool)
    requires Prepared(m, root, t, base, [Mapping(Path(vs), true), Mapping(Path(vc), code), Mapping(Path(vd), data)])
    requires 0 <= vs < 0x80_0000_0000 && 0 <= vc < 0x80_0000_0000 && 0 <= vd < 0x80_0000_0000
    requires vs / 0x4000_0000 != vc / 0x4000_0000 && vs / 0x4000_0000 != vd / 0x4000_0000
    requires vc / 0x4000_0000 != vd / 0x4000_0000
    ensures Respected(m, root, Mapping(Path(vs), true))
    ensures Respected(m, root, Mapping(Path(vc), code)) && Respected(m, root, Mapping(Path(vd), data))
  {
    DifferentRegions(vs, vc);
    DifferentRegions(vs, vd);
    DifferentRegions(vc, vd);
    FirstIndexZero(vs);
    FirstIndexZero(vd);
    RightsIff(m, root, t, base, Mapping(Path(vs), true), Mapping(Path(vc), code), Mapping(Path(vd), data));
  }

  lemma FirstIndexZero(va: int)
    requires 0 <= va < 0x80_0000_0000
    ensures Path(va)[..1] == [0]
  {
  }

  // ----- the list of frames to free -----

  function AddNew(list: seq<int>, f: int): seq<int> {
    if f in list then list else list + [f]
  }

  ghost predicate NoDup(list: seq<int>) {
    forall i, j | 0 <= i < j < |list| :: list[i] != list[j]
  }

  /** The three tables above a page, added to the list. */
  ghost function AddTables(m: Memory, root: int, list: seq<int>, path: PagePath): seq<int> {
    AddNew(AddNew(AddNew(list, Walk(m, root, path[..1])), Walk(m, root, path[..2])), Walk(m, root, path[..3]))
  }

  lemma AddNewKeeps(list: seq<int>, f: int)
    ensures NoDup(list) ==> NoDup(AddNew(list, f))
    ensures |list| <= |AddNew(list, f)| <= |list| + 1
    ensures forall g :: g in AddNew(list, f) <==> g in list || g == f
  {
  }

  lemma AddTablesKeeps(m: Memory, root: int, list: seq<int>, path: PagePath)
    ensures NoDup(list) ==> NoDup(AddTables(m, root, list, path))
    ensures |AddTables(m, root, list, path)| <= |list| + 3
    ensures forall g :: g in AddTables(m, root, list, path) <==>
      g in list || g == Walk(m, root, path[..1]) || g == Walk(m, root, path[..2]) || g == Walk(m, root, path[..3])
  {
    var a, b, c := Walk(m, root, path[..1]), Walk(m, root, path[..2]), Walk(m, root, path[..3]);
    AddNewKeeps(list, a);
    AddNewKeeps(AddNew(list, a), b);
    AddNewKeeps(AddNew(AddNew(list, a), b), c);
  }

  /** The tables that cleanup_context_mm frees. */
  ghost function Tables(m: Memory, root: int, s: PagePath, c: PagePath, d: PagePath): seq<int> {
    AddTables(m, root, AddTables(m, root, AddTables(m, root, [root], s), c), d)
  }

  /** All the frames that cleanup_context_mm frees, in its order. */
  ghost function Freed(m: Memory, root: int, s: PagePath, c: PagePath, d: PagePath): seq<int> {
    Tables(m, root, s, c, d) + [Walk(m, root, s), Walk(m, root, c), Walk(m, root, d)]
  }

  ghost predicate IsTable(m: Memory, root: int, p: PagePath, f: int) {
    f == Walk(m, root, p[..1]) || f == Walk(m, root, p[..2]) || f == Walk(m, root, p[..3])
  }

  lemma TablesAre(m: Memory, root: int, s: PagePath, c: PagePath, d: PagePath)
    ensures NoDup(Tables(m, root, s, c, d)) && |Tables(m, root, s, c, d)| <= 10
    ensures forall f :: f in Tables(m, root, s, c, d) <==>
      f == root || IsTable(m, root, s, f) || IsTable(m, root, c, f) || IsTable(m, root, d, f)
  {
    var l1 := AddTables(m, root, [root], s);
    var l2 := AddTables(m, root, l1, c);
    AddTablesKeeps(m, root, [root], s);
    AddTablesKeeps(m, root, l1, c);
    AddTablesKeeps(m, root, l2, d);
  }

  lemma PageReached(m: Memory, root: int, t: set<int>, base: set<int>, s: Mapping, c: Mapping, d: Mapping,
                    path: PagePath, k: int)
    requires Prepared(m, root, t, base, [s, c, d]) && path in [s.path, c.path, d.path] && 0 <= k <= 4
    ensures Reaches(m, root, path[..k]) && InRegion(Walk(m, root, path[..k]), if k < 4 then OsPt else User)
  {
    OpenPrepared(m, root, t, base, [s, c, d]);
    if k > 0 {
      FirstOfThree(s, c, d, path[..k]);
      assert NodeOk(m, root, [s, c, d], path[..k]);
    } else {
      assert path[..0] == [];
    }
  }

  lemma WholePathReached(m: Memory, root: int, t: set<int>, base: set<int>, s: Mapping, c: Mapping, d: Mapping,
                         path: PagePath)
    requires Prepared(m, root, t, base, [s, c, d]) && path in [s.path, c.path, d.path]
    ensures Reaches(m, root, path)
  {
    assert path[..4] == path;
    PageReached(m, root, t, base, s, c, d, path, 4);
  }

  lemma RootReached(m: Memory, root: int, t: set<int>, base: set<int>, pages: seq<Mapping>)
    requires Prepared(m, root, t, base, pages)
    ensures Reaches(m, root, []) && Walk(m, root, []) == root && InRegion(root, OsPt)
  {
    OpenPrepared(m, root, t, base, pages);
    assert Reaches(m, root, []) && Walk(m, root, []) == root;
  }

  ghost predicate OnPath(m: Memory, root: int, path: PagePath, f: int) {
    IsTable(m, root, path, f) || f == Walk(m, root, path)
  }

  lemma FreedAre(m: Memory, root: int, s: PagePath, c: PagePath, d: PagePath, f: int)
    ensures f in Freed(m, root, s, c, d) <==>
      f == root || OnPath(m, root, s, f) || OnPath(m, root, c, f) || OnPath(m, root, d, f)
  {
    TablesAre(m, root, s, c, d);
    var pages := [Walk(m, root, s), Walk(m, root, c), Walk(m, root, d)];
    assert f in pages <==> f == pages[0] || f == pages[1] || f == pages[2];
  }

  /** A node of the tree is a table or the page of its path. */
  lemma NodeOfPath(m: Memory, root: int, path: PagePath, q: seq<int>)
    requires IsPrefix(q, path, 4)
    ensures IsPath(q) && OnPath(m, root, path, Walk(m, root, q))
  {
    assert path[..4] == path;
    assert q == path[..1] || q == path[..2] || q == path[..3] || q == path[..4];
  }

  lemma OnPathIsFrame(m: Memory, root: int, t: set<int>, base: set<int>, s: Mapping, c: Mapping, d: Mapping,
                      path: PagePath, f: int)
    requires Prepared(m, root, t, base, [s, c, d]) && path in [s.path, c.path, d.path] && OnPath(m, root, path, f)
    ensures IsFrameOf(m, root, f) && (IsTable(m, root, path, f) ==> InRegion(f, OsPt))
  {
    assert path[..4] == path;
    PageReached(m, root, t, base, s, c, d, path, 1);
    PageReached(m, root, t, base, s, c, d, path, 2);
    PageReached(m, root, t, base, s, c, d, path, 3);
    PageReached(m, root, t, base, s, c, d, path, 4);
  }

  lemma FrameIsOnPath(m: Memory, root: int, t: set<int>, base: set<int>, s: Mapping, c: Mapping, d: Mapping, f: int)
    requires Prepared(m, root, t, base, [s, c, d]) && IsFrameOf(m, root, f)
    ensures f == root || OnPath(m, root, s.path, f) || OnPath(m, root, c.path, f) || OnPath(m, root, d.path, f)
  {
    OpenPrepared(m, root, t, base, [s, c, d]);
    var q :| Reaches(m, root, q) && Walk(m, root, q) == f;
    if q != [] {
      assert NodeOk(m, root, [s, c, d], q);
      FirstOfThree(s, c, d, q);
      if IsPrefix(q, s.path, 4) {
        NodeOfPath(m, root, s.path, q);
      } else if IsPrefix(q, c.path, 4) {
        NodeOfPath(m, root, c.path, q);
      } else {
        NodeOfPath(m, root, d.path, q);
      }
    }
  }

  /** cleanup_context_mm frees exactly the frames of the tree. */
  lemma FreedAreFrames(m: Memory, root: int, t: set<int>, base: set<int>, s: Mapping, c: Mapping, d: Mapping, f: int)
    requires Prepared(m, root, t, base, [s, c, d])
    ensures f in Freed(m, root, s.path, c.path, d.path) <==> IsFrameOf(m, root, f)
  {
    FreedAre(m, root, s.path, c.path, d.path, f);
    RootReached(m, root, t, base, [s, c, d]);
    if IsFrameOf(m, root, f) {
      FrameIsOnPath(m, root, t, base, s, c, d, f);
    } else if OnPath(m, root, s.path, f) {
      OnPathIsFrame(m, root, t, base, s, c, d, s.path, f);
    } else if OnPath(m, root, c.path, f) {
      OnPathIsFrame(m, root, t, base, s, c, d, c.path, f);
    } else if OnPath(m, root, d.path, f) {
      OnPathIsFrame(m, root, t, base, s, c, d, d.path, f);
    }
  }

  lemma TablesInRegion(m: Memory, root: int, t: set<int>, base: set<int>, s: Mapping, c: Mapping, d: Mapping, f: int)
    requires Prepared(m, root, t, base, [s, c, d]) && f in Tables(m, root, s.path, c.path, d.path)
    ensures InRegion(f, OsPt)
  {
    TablesAre(m, root, s.path, c.path, d.path);
    if IsTable(m, root, s.path, f) {
      OnPathIsFrame(m, root, t, base, s, c, d, s.path, f);
    } else if IsTable(m, root, c.path, f) {
      OnPathIsFrame(m, root, t, base, s, c, d, c.path, f);
    } else if IsTable(m, root, d.path, f) {
      OnPathIsFrame(m, root, t, base, s, c, d, d.path, f);
    } else {
      RootReached(m, root, t, base, [s, c, d]);
    }
  }

  lemma TablesGood(m: Memory, root: int, t: set<int>, base: set<int>, s: Mapping, c: Mapping, d: Mapping,
                   tables: seq<int>)
    requires Prepared(m, root, t, base, [s, c, d]) && tables == Tables(m, root, s.path, c.path, d.path)
    ensures NoDup(tables) && forall f | f in tables :: InRegion(f, OsPt)
  {
    TablesAre(m, root, s.path, c.path, d.path);
    forall f | f in tables
      ensures InRegion(f, OsPt)
    {
      TablesInRegion(m, root, t, base, s, c, d, f);
    }
  }

  lemma NoDupPlusThree(list: seq<int>, x: int, y: int, z: int)
    requires NoDup(list) && x !in list && y !in list && z !in list
    ensures NoDup(list + [x, y, z]) <==> x != y && x != z && y != z
  {
    var all := list + [x, y, z];
    assert all[|list|] == x && all[|list| + 1] == y && all[|list| + 2] == z;
    if x != y && x != z && y != z {
      forall i, j | 0 <= i < j < |all|
        ensures all[i] != all[j]
      {
        assert i < |list| ==> all[i] == list[i];
        assert j < |list| ==> all[j] == list[j];
      }
    }
  }

  lemma PagesOnceIff(m: Memory, root: int, t: set<int>, tables: seq<int>, s: PagePath, c: PagePath, d: PagePath)
    requires IsTree(m, root, t) && Reaches(m, root, s) && Reaches(m, root, c) && Reaches(m, root, d)
    requires NoDup(tables) && forall f | f in tables :: InRegion(f, OsPt)
    ensures NoDup(tables + [Walk(m, root, s), Walk(m, root, c), Walk(m, root, d)]) <==> s != c && s != d && c != d
  {
    NoDupPlusThree(tables, Walk(m, root, s), Walk(m, root, c), Walk(m, root, d));
    assert s == c || Separate(m, root, s, c);
    assert s == d || Separate(m, root, s, d);
    assert c == d || Separate(m, root, c, d);
  }

  /** No frame is freed twice exactly when the three pages are different. */
  lemma FreedOnceIff(m: Memory, root: int, t: set<int>, base: set<int>, s: Mapping, c: Mapping, d: Mapping)
    requires Prepared(m, root, t, base, [s, c, d])
    ensures NoDup(Freed(m, root, s.path, c.path, d.path)) <==> s.path != c.path && s.path != d.path && c.path != d.path
  {
    OpenPrepared(m, root, t, base, [s, c, d]);
    var tables := Tables(m, root, s.path, c.path, d.path);
    TablesGood(m, root, t, base, s, c, d, tables);
    WholePathReached(m, root, t, base, s, c, d, s.path);
    WholePathReached(m, root, t, base, s, c, d, c.path);
    WholePathReached(m, root, t, base, s, c, d, d.path);
    PagesOnceIff(m, root, t, tables, s.path, c.path, d.path);
  }

  lemma FramesLeaveBase(m: Memory, root: int, t: set<int>, base: set<int>, list: seq<int>)
    requires Accounts(m, root, t, base) && forall f :: f in list <==> IsFrameOf(m, root, f)
    ensures t - (set f | f in list) == base
  {
    Sets.SameSet(t - (set f | f in list), base);
  }

  /** Taking what is freed from what is taken leaves what was taken by others. */
  lemma FreedLeavesBase(m: Memory, root: int, t: set<int>, base: set<int>, s: Mapping, c: Mapping, d: Mapping)
    requires Prepared(m, root, t, base, [s, c, d])
    ensures t - (set f | f in Freed(m, root, s.path, c.path, d.path)) == base
  {
    OpenPrepared(m, root, t, base, [s, c, d]);
    var list := Freed(m, root, s.path, c.path, d.path);
    forall f
      ensures f in list <==> IsFrameOf(m, root, f)
    {
      FreedAreFrames(m, root, t, base, s, c, d, f);
    }
    FramesLeaveBase(m, root, t, base, list);
  }

  /** The list holds exactly the frames of the tree, each once if and only if the pages are different, and without
      them exactly base is left. */
  ghost predicate Complete(m: Memory, root: int, t: set<int>, base: set<int>, freed: seq<int>, different: bool) {
    && t - (set f | f in freed) == base
    && (forall f :: f in freed <==> IsFrameOf(m, root, f))
    && (NoDup(freed) <==> different)
  }

  lemma FreedIsComplete(m: Memory, root: int, t: set<int>, base: set<int>, s: Mapping, c: Mapping, d: Mapping,
                        freed: seq<int>)
    requires Prepared(m, root, t, base, [s, c, d]) && freed == Freed(m, root, s.path, c.path, d.path)
    ensures Complete(m, root, t, base, freed, s.path != c.path && s.path != d.path && c.path != d.path)
  {
    FreedLeavesBase(m, root, t, base, s, c, d);
    FreedOnceIff(m, root, t, base, s, c, d);
    forall f
      ensures f in freed <==> IsFrameOf(m, root, f)
    {
      FreedAreFrames(m, root, t, base, s, c, d, f);
    }
  }

  lemma MinusThree(t: set<int>, list: seq<int>, x: int, y: int, z: int)
    ensures t - (set f | f in list) - {x} - {y} - {z} == t - set f | f in list + [x, y, z]
  {
    assert forall f :: f in list + [x, y, z] <==> f in list || f == x || f == y || f == z;
  }

  // ----- prepare_context_mm and cleanup_context_mm -----

  lemma {:induction false} MissingAtMost(m: Memory, root: int, path: PagePath, j: int)
    requires 1 <= j <= 4
    ensures Missing(m, root, path, j) <= 4 - j
    decreases 4 - j
  {
    if j < 4 {
      MissingAtMost(m, root, path, j + 1);
    }
  }

  lemma HasPage(s: Mapping, c: Mapping, path: PagePath)
    ensures Has([s, c], path) <==> path == s.path || path == c.path
  {
    HasOneMore([], s, [s], path);
    HasOneMore([s], c, [s, c], path);
    assert s.path[..4] == s.path && c.path[..4] == c.path;
  }

  class Context {
    const mmu: Mmu
    var pgd: nat
    const stack: P.Segment
    const code: P.Segment
    const data: P.Segment
    const argPfn: nat

    constructor (mmu: Mmu, stack: P.Segment, code: P.Segment, data: P.Segment, argPfn: nat)
      ensures this.mmu == mmu && this.stack == stack && this.code == code && this.data == data && this.argPfn == argPfn
    {
      this.mmu, this.stack, this.code, this.data, this.argPfn := mmu, stack, code, data, argPfn;
      pgd := 0;
    }

    /** The pages that are mapped: the top page of the stack, the first of the code, the first of the data. */
    ghost function StackPage(): Mapping {
      Mapping(Path(stack.end - 0x1000), MayWrite(stack.flags))
    }

    ghost function CodePage(): Mapping {
      Mapping(Path(code.start), MayWrite(code.flags))
    }

    ghost function DataPage(): Mapping {
      Mapping(Path(data.start), MayWrite(data.flags))
    }

    /** The three pages are different. */
    ghost predicate Different() {
      StackPage().path != CodePage().path && StackPage().path != DataPage().path && CodePage().path != DataPage().path
    }

    ghost predicate HandsOver() {
      argPfn != 0 && DataPage().path != StackPage().path && DataPage().path != CodePage().path
    }

    ghost predicate IsPrepared(base: set<int>)
      requires mmu.Ok()
      reads this, mmu, mmu.mem
    {
      Prepared(mmu.M(), pgd, mmu.taken, base, [StackPage(), CodePage(), DataPage()])
    }

    method MapNext(va: int, flags: nat, ghost base: set<int>, ghost pages: seq<Mapping>)
      requires mmu.Ok() && Prepared(mmu.M(), pgd, mmu.taken, base, pages)
      requires |FreeIn(OsPt, mmu.taken)| >= 3 && |FreeIn(User, mmu.taken)| >= 1
      modifies mmu, mmu.mem
      ensures Prepared(mmu.M(), pgd, mmu.taken, base, pages + [Mapping(Path(va), MayWrite(flags))])
      ensures |FreeIn(OsPt, mmu.taken)| >= old(|FreeIn(OsPt, mmu.taken)|) - 3
      ensures |FreeIn(User, mmu.taken)| >= old(|FreeIn(User, mmu.taken)|) - 1
    {
      ghost var m, t := mmu.M(), mmu.taken;
      OpenPrepared(m, pgd, t, base, pages);
      MissingAtMost(m, pgd, Path(va), 1);
      mmu.MapPage(pgd, va, flags);
      PreparedStep(m, mmu.M(), pgd, t, mmu.taken, base, pages, Mapping(Path(va), MayWrite(flags)));
    }

    method NewRoot()
      requires mmu.Ok() && |FreeIn(OsPt, mmu.taken)| >= 1
      modifies this`pgd, mmu, mmu.mem
      ensures Prepared(mmu.M(), pgd, mmu.taken, old(mmu.taken), [])
      ensures |FreeIn(OsPt, mmu.taken)| >= old(|FreeIn(OsPt, mmu.taken)|) - 1
      ensures FreeIn(User, mmu.taken) == old(FreeIn(User, mmu.taken))
    {
      ghost var some := Sets.Pick(FreeIn(OsPt, mmu.taken));
      pgd := mmu.PfnAlloc(OsPt);
      TakeOne(OsPt, old(mmu.taken), pgd);
      mmu.InitializePage(pgd * 512);
      assert forall j | 0 <= j < 512 :: ZeroWord(mmu.M(), pgd, j);
      PreparedNothing(mmu.M(), pgd, old(mmu.taken));
    }

    /** Map the first data page on the frame that holds the program's arguments. */
    method MapHanded(va: int, flags: nat, ghost base: set<int>, ghost pages: seq<Mapping>)
      requires mmu.Ok() && Prepared(mmu.M(), pgd, mmu.taken, base, pages) && |FreeIn(OsPt, mmu.taken)| >= 3
      requires argPfn != 0 && argPfn in base && InRegion(argPfn, User)
      modifies mmu, mmu.mem
      ensures var page := Mapping(Path(va), MayWrite(flags));
        if Has(pages, page.path) then Prepared(mmu.M(), pgd, mmu.taken, base, pages + [page])
        else
          && Prepared(mmu.M(), pgd, mmu.taken, base - {argPfn}, pages + [page])
          && Walk(mmu.M(), pgd, page.path) == argPfn
    {
      ghost var m, t, page := mmu.M(), mmu.taken, Mapping(Path(va), MayWrite(flags));
      ghost var path := page.path;
      OpenPrepared(m, pgd, t, base, pages);
      MissingAtMost(m, pgd, path, 1);
      assert NodeOk(m, pgd, pages, path);
      var ptr := mmu.AssignPageTablePages(pgd, va, flags);
      ghost var m1, t1 := mmu.M(), mmu.taken;
      assert path[..3] + [path[3]] == path == path[..4];
      assert Follows(m, t, m1, pgd, path, 3, page.writable, path);
      HandedApart(m1, pgd, t1, base, argPfn);
      mmu.AssignDataPage(ptr, flags, argPfn, pgd, path[..3], path[3]);
      if Reaches(m, pgd, path) {
        ExtendsStep(m, t, m1, t1, m1, t1, pgd, path, 3, page.writable);
        PreparedStep(m, m1, pgd, t, t1, base, pages, page);
      } else {
        PreparedHanded(m, m1, mmu.M(), pgd, t, t1, base, pages, page, argPfn);
      }
    }

    /** prepare_context_mm. */
    method Prepare()
      requires mmu.Ok() && |FreeIn(OsPt, mmu.taken)| >= 10 && |FreeIn(User, mmu.taken)| >= 3
      requires argPfn != 0 ==> argPfn in mmu.taken && InRegion(argPfn, User)
      modifies this`pgd, mmu, mmu.mem
      ensures IsPrepared(if HandsOver() then old(mmu.taken) - {argPfn} else old(mmu.taken))
      ensures HandsOver() ==> Walk(mmu.M(), pgd, DataPage().path) == argPfn
      ensures MayUseThrough(mmu.M(), pgd, Path(stack.end - 0x1000))
      ensures MayUseThrough(mmu.M(), pgd, Path(code.start)) && MayUseThrough(mmu.M(), pgd, Path(data.start))
      ensures forall q | |q| == 4 && Reaches(mmu.M(), pgd, q) ::
        q == Path(stack.end - 0x1000) || q == Path(code.start) || q == Path(data.start)
      ensures AllMarked(mmu.M(), pgd, Path(stack.end - 0x1000), stack.flags / 2 % 2 == 1)
      ensures Different() ==>
        && Writable(WordOf(mmu.M(), pgd, Path(code.start))) == (code.flags / 2 % 2 == 1)
        && Writable(WordOf(mmu.M(), pgd, Path(data.start))) == (data.flags / 2 % 2 == 1)
    {
      ghost var base, s, c, d := mmu.taken, StackPage(), CodePage(), DataPage();
      NewRoot();
      MapNext(stack.end - 0x1000, stack.flags, base, []);
      assert [] + [s] == [s];
      MapNext(code.start, code.flags, base, [s]);
      assert [s] + [c] == [s, c] && [s, c] + [d] == [s, c, d];
      if argPfn == 0 {
        MapNext(data.start, data.flags, base, [s, c]);
      } else {
        HasPage(s, c, d.path);
        MapHanded(data.start, data.flags, base, [s, c]);
      }
      PreparedPages(mmu.M(), pgd, mmu.taken, if HandsOver() then base - {argPfn} else base, s, c, d);
    }

    /** exist_in_array. */
    method ExistInArray(pfns: array<int>, index: nat, pfn: int) returns (found: bool)
      requires index <= pfns.Length
      ensures found <==> pfn in pfns[..index]
    {
      for i := 0 to index
        invariant pfn !in pfns[..i]
      {
        if pfns[i] == pfn {
          return true;
        }
      }
      return false;
    }

    method Append(pfns: array<int>, index: nat, pfn: int) returns (next: nat)
      requires index < pfns.Length
      modifies pfns
      ensures next <= index + 1 && next <= pfns.Length && pfns[..next] == AddNew(old(pfns[..index]), pfn)
    {
      next := index;
      var found := ExistInArray(pfns, index, pfn);
      if !found {
        pfns[index] := pfn;
        next := index + 1;
      }
    }

    /** One step of the walk in add_pages_to_array: the frame that path[..k + 1] leads to. */
    method Step(frame: nat, index: nat, ghost path: PagePath, ghost k: nat) returns (next: nat)
      requires mmu.Ok() && IsTree(mmu.M(), pgd, mmu.taken) && PlainEntries(mmu.M(), pgd)
      requires k < 4 && Reaches(mmu.M(), pgd, path[..k]) && Reaches(mmu.M(), pgd, path[..k + 1])
      requires frame == Walk(mmu.M(), pgd, path[..k]) && index == path[k]
      ensures next == Walk(mmu.M(), pgd, path[..k + 1])
    {
      WalkStep(mmu.M(), pgd, mmu.taken, path, k);
      assert InRegion(Walk(mmu.M(), pgd, path[..k + 1]), if k < 3 then OsPt else User);
      next := mmu.mem[frame * 512 + index] / 4096;
    }

    /** add_pages_to_array: the tables above the page of an address go into the list; its frame is returned. */
    method AddPagesToArray(va: int, pfns: array<int>, index: nat) returns (next: nat, page: nat)
      requires mmu.Ok() && IsTree(mmu.M(), pgd, mmu.taken) && PlainEntries(mmu.M(), pgd) && pfns != mmu.mem
      requires index + 3 <= pfns.Length && forall k | 0 <= k <= 4 :: Reaches(mmu.M(), pgd, Path(va)[..k])
      modifies pfns
      ensures next <= index + 3 && pfns[..next] == AddTables(mmu.M(), pgd, old(pfns[..index]), Path(va))
      ensures page == Walk(mmu.M(), pgd, Path(va))
    {
      ghost var path := Path(va);
      assert path[..0] == [] && path[..4] == path;
      var l3 := Step(pgd, Index(va, 0), path, 0);
      var l2 := Step(l3, Index(va, 1), path, 1);
      var l1 := Step(l2, Index(va, 2), path, 2);
      page := Step(l1, Index(va, 3), path, 3);
      next := Append(pfns, index, l3);
      next := Append(pfns, next, l2);
      next := Append(pfns, next, l1);
    }

    method FreeAll(pfns: array<int>, index: nat)
      requires index <= pfns.Length
      modifies mmu`taken
      ensures mmu.taken == old(mmu.taken) - set f | f in pfns[..index]
    {
      for i := 0 to index
        invariant mmu.taken == old(mmu.taken) - set f | f in pfns[..i]
      {
        mmu.PfnFree(OsPt, pfns[i]);
        assert pfns[..i + 1] == pfns[..i] + [pfns[i]];
      }
    }

    method FreeBoth(pfns: array<int>, index: nat, stackPage: nat, codePage: nat, dataPage: nat)
      requires index <= pfns.Length
      modifies mmu`taken
      ensures mmu.taken == old(mmu.taken) - set f | f in pfns[..index] + [stackPage, codePage, dataPage]
    {
      FreeAll(pfns, index);
      mmu.PfnFree(User, stackPage);
      mmu.PfnFree(User, codePage);
      mmu.PfnFree(User, dataPage);
      MinusThree(old(mmu.taken), pfns[..index], stackPage, codePage, dataPage);
    }

    /** The first half of cleanup_context_mm: the list of tables, and the frames of the three pages. */
    method Collect(pfns: array<int>, ghost base: set<int>)
      returns (index: nat, stackPage: nat, codePage: nat, dataPage: nat)
      requires mmu.Ok() && IsPrepared(base) && pfns != mmu.mem && pfns.Length == 16
      modifies pfns
      ensures index <= 10
      ensures pfns[..index] == Tables(mmu.M(), pgd, StackPage().path, CodePage().path, DataPage().path)
      ensures stackPage == Walk(mmu.M(), pgd, StackPage().path) && codePage == Walk(mmu.M(), pgd, CodePage().path)
      ensures dataPage == Walk(mmu.M(), pgd, DataPage().path)
      ensures Complete(mmu.M(), pgd, mmu.taken, base, pfns[..index] + [stackPage, codePage, dataPage], Different())
    {
      ghost var m, t, s, c, d := mmu.M(), mmu.taken, StackPage(), CodePage(), DataPage();
      OpenPrepared(m, pgd, t, base, [s, c, d]);
      forall path, k | path in [s.path, c.path, d.path] && 0 <= k <= 4
        ensures Reaches(m, pgd, path[..k])
      {
        PageReached(m, pgd, t, base, s, c, d, path, k);
      }
      pfns[0] := pgd;
      assert pfns[..1] == [pgd];
      index, stackPage := AddPagesToArray(stack.end - 0x1000, pfns, 1);
      index, codePage := AddPagesToArray(code.start, pfns, index);
      index, dataPage := AddPagesToArray(data.start, pfns, index);
      FreedIsComplete(m, pgd, t, base, s, c, d, pfns[..index] + [stackPage, codePage, dataPage]);
    }

    /** cleanup_context_mm: what is left in use is what others use, and nothing is freed twice if the three pages
        differ. */
    method Cleanup(ghost base: set<int>) returns (ghost freed: seq<int>)
      requires mmu.Ok() && IsPrepared(base)
      modifies mmu`taken
      ensures mmu.taken == base && |freed| <= 13
      ensures forall f :: f in freed <==> IsFrameOf(mmu.M(), pgd, f)
      ensures NoDup(freed) <==> Different()
    {
      var pfns := new int[16];
      var index, stackPage, codePage, dataPage := Collect(pfns, base);
      freed := pfns[..index] + [stackPage, codePage, dataPage];
      FreeBoth(pfns, index, stackPage, codePage, dataPage);
    }
  }

  lemma FreeAtFirst(r: Region)
    ensures |FreeIn(r, {})| >= 10
  {
    var first := if r.OsPt? then PT_START else USER_START;
    Sets.RangeSize(first, 10);
    Sets.SmallerSet(Sets.Range(first, 10), FreeIn(r, {}));
  }

  /** Two pages of one 1 GiB region share the first two entries of their walks, and the stack is elsewhere. */
  ghost predicate InOneRegion(vs: int, vc: int, vd: int) {
    && 0 <= vs < 0x80_0000_0000 && 0 <= vc < 0x80_0000_0000 && 0 <= vd < 0x80_0000_0000
    && vc / 0x4000_0000 == vd / 0x4000_0000 != vs / 0x4000_0000 && vc / 0x1000 != vd / 0x1000
  }

  lemma SharedRegion(vs: int, vc: int, vd: int)
    requires InOneRegion(vs, vc, vd)
    ensures Path(vs) != Path(vc) && Path(vs) != Path(vd) && Path(vc) != Path(vd)
    ensures Path(vc)[..2] == Path(vd)[..2] != Path(vs)[..2]
  {
    DifferentRegions(vs, vc);
    DifferentRegions(vs, vd);
    FirstIndexZero(vc);
    FirstIndexZero(vd);
    assert Path(vc)[..1] == Path(vd)[..1] && Path(vc)[1] == Path(vd)[1];
    SamePathIffSamePage(vc, vd);
  }

  /** The rights of a segment are not always those of its page: with a writable stack, and a read-only code page and a
      writable data page in one 1 GiB region, prepare_context_mm leaves the data page read-only. */
  method PrepareReadOnlyData(stack: P.Segment, code: P.Segment, data: P.Segment) returns (c: Context)
    requires MayWrite(stack.flags) && !MayWrite(code.flags) && MayWrite(data.flags)
    requires InOneRegion(stack.end - 0x1000, code.start, data.start)
    ensures c.mmu.Ok() && c.IsPrepared({}) && c.Different() && c.stack == stack && c.code == code && c.data == data
    ensures !Respected(c.mmu.M(), c.pgd, c.DataPage())
  {
    var mmu := new Mmu();
    c := new Context(mmu, stack, code, data, 0);
    FreeAtFirst(OsPt);
    FreeAtFirst(User);
    c.Prepare();
    SharedRegion(stack.end - 0x1000, code.start, data.start);
    RightsIff(mmu.M(), c.pgd, mmu.taken, {}, c.StackPage(), c.CodePage(), c.DataPage());
  }

  /** Such a program: a page of code at 4 GiB, and data right behind it. */
  method PrepareAdjacentSegments() returns (c: Context)
    ensures c.mmu.Ok() && c.IsPrepared({}) && c.Different()
    ensures MayWrite(c.stack.flags) && MayWrite(c.data.flags) && !Respected(c.mmu.M(), c.pgd, c.DataPage())
  {
    var stack := P.Segment(0x4_0000_0000, 0x8_0000_0000, 0x7_ffff_f000, 3);
    var code := P.Segment(0x1_0000_0000, 0x1_0000_1000, 0x1_0000_1000, 5);
    var data := P.Segment(0x1_0000_1000, 0x1_4000_0000, 0x1_0000_2000, 3);
    c := PrepareReadOnlyData(stack, code, data);
  }
}
