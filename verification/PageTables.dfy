/** Four-level x86-64 page tables held in physical memory, as entry.c and context_mm.c build them
    (4-level paging, section 4.5 of the Intel SDM, Volume 3A). */
module PageTables {

  const FRAMES: int := 131072       // ENDMEM / PAGE_SIZE
  const PT_START: int := 8192       // REGION_OS_PT_START / PAGE_SIZE
  const USER_START: int := 25600    // REGION_USER_START / PAGE_SIZE

  datatype Region = OsPt | User

  predicate InRegion(f: int, r: Region) {
    if r.OsPt? then PT_START <= f < USER_START else USER_START <= f < FRAMES
  }

  /** Physical memory: 512 words per frame. */
  type Memory = m: seq<int> | |m| == 512 * FRAMES witness seq(512 * FRAMES, _ => 0)

  // ----- table entries -----

  /** The shifts and additions of assign_page_table_page and assign_data_page: frame number, user bit,
      the segment's write flag, present bit. */
  function MakeEntry(f: int, writable: bool): int {
    var shifted := f * 512;
    var withUser := shifted * 2 + 1;
    var withWrite := withUser * 2 + (if writable then 1 else 0);
    withWrite * 2 + 1
  }

  predicate Present(w: int) {
    w % 2 == 1
  }

  predicate Writable(w: int) {
    w / 2 % 2 == 1
  }

  /** Programs may use what the entry leads to. */
  predicate ForUser(w: int) {
    w / 4 % 2 == 1
  }

  /** extract_addr_from_page_entry: bits 12 to 51. */
  function Target(w: int): int {
    w / 4096 % 0x100_0000_0000
  }

  /** Packing a frame number into an entry and unpacking it again is the identity, and the three low bits are those
      for present, write and user. */
  lemma EntryRoundTrip(f: int, writable: bool)
    requires 0 <= f < 0x1_0000_0000
    ensures Present(MakeEntry(f, writable)) && Target(MakeEntry(f, writable)) == f
    ensures Writable(MakeEntry(f, writable)) == writable && ForUser(MakeEntry(f, writable))
    ensures MakeEntry(f, writable) == f * 4096 + if writable then 7 else 5
    ensures MakeEntry(f, writable) / 4096 == f  // the unmasked shift used when the table exists
  {
    var w := MakeEntry(f, writable);
    assert w == f * 4096 + (if writable then 7 else 5);
    assert w / 4 == f * 1024 + 1;
  }

  // ----- virtual addresses -----

  /** The 9-bit index of an address into the table of a level, from the top. */
  function Index(va: int, level: int): (i: int)
    ensures 0 <= i < 512
  {
    if level == 0 then va / 0x80_0000_0000 % 512
    else if level == 1 then va / 0x4000_0000 % 512
    else if level == 2 then va / 0x20_0000 % 512
    else va / 4096 % 512
  }

  /** The four table indices of an address. */
  function Path(va: int): (p: seq<int>)
    ensures |p| == 4 && IsPath(p)
  {
    seq(4, k requires 0 <= k < 4 => Index(va, k))
  }

  /** The page number of a 48-bit address. */
  function PageOf(va: int): int {
    va / 4096 % 0x10_0000_0000
  }

  /** The indices determine the page and the page determines the indices. */
  lemma PathIsPage(va: int)
    ensures var p := Path(va); PageOf(va) == ((p[0] * 512 + p[1]) * 512 + p[2]) * 512 + p[3]
  {
    var v := va / 4096;
    NextIndex(va, 0x1000, 0x20_0000);
    NextIndex(va, 0x20_0000, 0x4000_0000);
    NextIndex(va, 0x4000_0000, 0x80_0000_0000);
    FourDigits(v);
  }

  lemma NextIndex(va: int, size: int, bigger: int)
    requires (size, bigger) in {(0x1000, 0x20_0000), (0x20_0000, 0x4000_0000), (0x4000_0000, 0x80_0000_0000)}
    ensures va / bigger == va / size / 512
  {
  }

  lemma FourDigits(v: int)
    ensures v % 0x10_0000_0000 ==
      ((v / 512 / 512 / 512 % 512 * 512 + v / 512 / 512 % 512) * 512 + v / 512 % 512) * 512 + v % 512
  {
    var a := v / 512;
    var b := a / 512;
    var c := b / 512;
    Remainder(v, c / 512, ((c % 512 * 512 + b % 512) * 512 + a % 512) * 512 + v % 512);
  }

  lemma Remainder(v: int, d: int, r: int)
    requires v == d * 0x10_0000_0000 + r && 0 <= r < 0x10_0000_0000
    ensures v % 0x10_0000_0000 == r
  {
  }

  lemma DigitUnique(x: int, a: int, y: int, b: int)
    requires x * 512 + a == y * 512 + b && 0 <= a < 512 && 0 <= b < 512
    ensures x == y && a == b
  {
  }

  lemma SamePathIffSamePage(va: int, vb: int)
    ensures Path(va) == Path(vb) <==> PageOf(va) == PageOf(vb)
  {
    PathIsPage(va);
    PathIsPage(vb);
    var p, q := Path(va), Path(vb);
    if PageOf(va) == PageOf(vb) {
      DigitUnique((p[0] * 512 + p[1]) * 512 + p[2], p[3], (q[0] * 512 + q[1]) * 512 + q[2], q[3]);
      DigitUnique(p[0] * 512 + p[1], p[2], q[0] * 512 + q[1], q[2]);
      DigitUnique(p[0], p[1], q[0], q[1]);
      assert p == q;
    }
  }

  // ----- the walk -----

  /** A path of up to four table indices names a table (shorter) or a page (length four). */
  predicate IsPath(p: seq<int>) {
    |p| <= 4 && forall k | 0 <= k < |p| :: 0 <= p[k] < 512
  }

  /** The frame at the end of a path, or -1 where the walk meets an entry that is not present. */
  function Walk(mem: Memory, root: int, p: seq<int>): int
    requires IsPath(p)
    decreases |p|, 1
  {
    if p == [] then root
    else if Present(WordOf(mem, root, p)) then Target(WordOf(mem, root, p)) else -1
  }

  /** The entry that leads to the end of a nonempty path; 0 where there is no table to hold it. */
  function WordOf(mem: Memory, root: int, p: seq<int>): int
    requires IsPath(p) && p != []
    decreases |p|, 0
  {
    var f := Walk(mem, root, p[..|p| - 1]);
    if 0 <= f < FRAMES then mem[f * 512 + p[|p| - 1]] else 0
  }

  predicate Reaches(mem: Memory, root: int, p: seq<int>) {
    IsPath(p) && Walk(mem, root, p) != -1
  }

  /** The tables form a tree: every table and page has its own allocated frame, tables and pages lie in their
      regions. */
  ghost predicate IsTree(mem: Memory, root: int, taken: set<int>) {
    && (forall p | Reaches(mem, root, p) ::
          Walk(mem, root, p) in taken && InRegion(Walk(mem, root, p), if |p| < 4 then OsPt else User))
    && (forall p, q {:trigger Separate(mem, root, p, q)} |
          Reaches(mem, root, p) && Reaches(mem, root, q) && p != q :: Separate(mem, root, p, q))
  }

  /** Two paths lead to different frames. */
  predicate Separate(mem: Memory, root: int, p: seq<int>, q: seq<int>)
    requires IsPath(p) && IsPath(q)
  {
    Walk(mem, root, p) != Walk(mem, root, q)
  }

  /** Entries have no bits above the frame number, so a plain shift extracts it too. */
  ghost predicate PlainEntries(mem: Memory, root: int) {
    forall p | Reaches(mem, root, p) && p != [] :: WordOf(mem, root, p) / 4096 == Walk(mem, root, p)
  }

  // ----- adding and removing one node -----

  /** mem' is mem with entry i of frame f set to w and, when g is a table, the words of g set to 0. */
  ghost predicate Grown(mem: Memory, mem': Memory, f: int, i: int, w: int, g: int, table: bool) {
    && 0 <= f < FRAMES && 0 <= i < 512 && 0 <= g < FRAMES && f != g
    && mem'[f * 512 + i] == w
    && (table ==> forall j | 0 <= j < 512 :: ZeroWord(mem', g, j))
    && (forall h, j | 0 <= h < FRAMES && 0 <= j < 512 && (h != f || j != i) && h != g :: SameWord(mem, mem', h, j))
  }

  predicate ZeroWord(mem: Memory, h: int, j: int)
    requires 0 <= h < FRAMES && 0 <= j < 512
  {
    mem[h * 512 + j] == 0
  }

  predicate SameWord(mem: Memory, mem': Memory, h: int, j: int)
    requires 0 <= h < FRAMES && 0 <= j < 512
  {
    mem'[h * 512 + j] == mem[h * 512 + j]
  }

  lemma SnocInjective(q0: seq<int>, j: int, p: seq<int>, i: int)
    ensures q0 + [j] == p + [i] <==> q0 == p && j == i
  {
    if q0 + [j] == p + [i] {
      assert (q0 + [j])[..|q0|] == q0 && (p + [i])[..|p|] == p;
      assert (q0 + [j])[|q0|] == j && (p + [i])[|p|] == i;
    }
  }

  lemma WalkSnoc(mem: Memory, root: int, q0: seq<int>, j: int)
    requires IsPath(q0 + [j]) && IsPath(q0)
    ensures var f := Walk(mem, root, q0);
      && WordOf(mem, root, q0 + [j]) == (if 0 <= f < FRAMES && 0 <= j < 512 then mem[f * 512 + j] else 0)
      && Walk(mem, root, q0 + [j]) == var w := WordOf(mem, root, q0 + [j]); if Present(w) then Target(w) else -1
  {
    assert (q0 + [j])[..|q0|] == q0 && (q0 + [j])[|q0|] == j;
  }

  lemma GrownElsewhere(mem: Memory, mem': Memory, f: int, i: int, w: int, g: int, table: bool, h: int, j: int)
    requires Grown(mem, mem', f, i, w, g, table) && 0 <= h < FRAMES && 0 <= j < 512 && h != g && (h != f || j != i)
    ensures mem'[h * 512 + j] == mem[h * 512 + j]
  {
    assert SameWord(mem, mem', h, j);
  }

  lemma ReachedApart(mem: Memory, root: int, taken: set<int>, p: seq<int>, q: seq<int>)
    requires IsTree(mem, root, taken) && Reaches(mem, root, p) && Reaches(mem, root, q)
    ensures 0 <= Walk(mem, root, q) < FRAMES && Walk(mem, root, q) in taken
    ensures q == p || Walk(mem, root, q) != Walk(mem, root, p)
  {
    assert q == p || Separate(mem, root, q, p);
    assert InRegion(Walk(mem, root, q), if |q| < 4 then OsPt else User);
  }

  /** An entry other than the new one, in a table that was there before. */
  lemma AddElsewhere(mem: Memory, mem': Memory, root: int, taken: set<int>, p: seq<int>, i: int, g: int, w: int,
                     q: seq<int>, j: int)
    requires IsTree(mem, root, taken) && IsPath(p + [i]) && Reaches(mem, root, p) && g !in taken
    requires Grown(mem, mem', Walk(mem, root, p), i, w, g, |p| < 3)
    requires IsPath(q) && IsPath(q + [j]) && Walk(mem', root, q) == Walk(mem, root, q) && (q != p || j != i)
    ensures WordOf(mem', root, q + [j]) == WordOf(mem, root, q + [j])
  {
    var h := Walk(mem, root, q);
    WalkSnoc(mem, root, q, j);
    WalkSnoc(mem', root, q, j);
    if h != -1 {
      ReachedApart(mem, root, taken, p, q);
      assert 0 <= (q + [j])[|q|] < 512;
      GrownElsewhere(mem, mem', Walk(mem, root, p), i, w, g, |p| < 3, h, j);
    }
  }

  /** An entry of the new table. */
  lemma AddBelow(mem: Memory, mem': Memory, root: int, f: int, i: int, w: int, g: int, q: seq<int>, j: int)
    requires IsPath(q) && IsPath(q + [j]) && Grown(mem, mem', f, i, w, g, true)
    requires Walk(mem', root, q) == g && Walk(mem, root, q) == -1
    ensures WordOf(mem', root, q + [j]) == 0 == WordOf(mem, root, q + [j])
  {
    WalkSnoc(mem, root, q, j);
    WalkSnoc(mem', root, q, j);
    assert (q + [j])[|q|] == j;
    assert ZeroWord(mem', g, j);
  }

  /** The new entry. */
  lemma AddHere(mem: Memory, mem': Memory, root: int, i: int, g: int, writable: bool, table: bool, p: seq<int>)
    requires IsPath(p) && IsPath(p + [i]) && Walk(mem', root, p) == Walk(mem, root, p)
    requires Grown(mem, mem', Walk(mem, root, p), i, MakeEntry(g, writable), g, table)
    ensures WordOf(mem', root, p + [i]) == MakeEntry(g, writable) && Walk(mem', root, p + [i]) == g
  {
    WalkSnoc(mem', root, p, i);
    EntryRoundTrip(g, writable);
  }

  /** Hanging a fresh frame under table p at index i changes the walk of that one path only. */
  lemma {:induction false} WalkAfterAdd(mem: Memory, mem': Memory, root: int, taken: set<int>, p: seq<int>, i: int,
                                        g: int, writable: bool, q: seq<int>)
    requires IsTree(mem, root, taken) && IsPath(p + [i]) && Reaches(mem, root, p) && !Reaches(mem, root, p + [i])
    requires g !in taken && 0 <= g < FRAMES
    requires Grown(mem, mem', Walk(mem, root, p), i, MakeEntry(g, writable), g, |p| < 3)
    requires IsPath(q)
    ensures Walk(mem', root, q) == if q == p + [i] then g else Walk(mem, root, q)
    ensures q != [] && q != p + [i] ==> WordOf(mem', root, q) == WordOf(mem, root, q)
    ensures q == p + [i] ==> WordOf(mem', root, q) == MakeEntry(g, writable)
    decreases |q|
  {
    if q != [] {
      var q0, j := q[..|q| - 1], q[|q| - 1];
      assert q == q0 + [j];
      SnocInjective(q0, j, p, i);
      WalkAfterAdd(mem, mem', root, taken, p, i, g, writable, q0);
      if q0 == p + [i] {
        AddBelow(mem, mem', root, Walk(mem, root, p), i, MakeEntry(g, writable), g, q0, j);
      } else if q == p + [i] {
        AddHere(mem, mem', root, i, g, writable, |p| < 3, p);
      } else {
        AddElsewhere(mem, mem', root, taken, p, i, g, MakeEntry(g, writable), q0, j);
      }
    }
  }

  ghost predicate IsFrameOf(mem: Memory, root: int, f: int) {
    exists p :: Reaches(mem, root, p) && Walk(mem, root, p) == f
  }

  /** The taken frames are those of the tree and those of others (base), with nothing in common. */
  ghost predicate Accounts(mem: Memory, root: int, taken: set<int>, base: set<int>) {
    && (forall f :: f in taken <==> f in base || IsFrameOf(mem, root, f))
    && (forall f | f in base :: !IsFrameOf(mem, root, f))
  }

  /** Adding a node with a fresh frame keeps the tree a tree and accounts for the frame. */
  lemma TreeAfterAdd(mem: Memory, mem': Memory, root: int, taken: set<int>, base: set<int>, p: seq<int>, i: int,
                     g: int, writable: bool)
    requires IsTree(mem, root, taken) && IsPath(p + [i]) && Reaches(mem, root, p) && !Reaches(mem, root, p + [i])
    requires g !in taken && InRegion(g, if |p| < 3 then OsPt else User)
    requires Grown(mem, mem', Walk(mem, root, p), i, MakeEntry(g, writable), g, |p| < 3)
    ensures IsTree(mem', root, taken + {g}) && (PlainEntries(mem, root) ==> PlainEntries(mem', root))
    ensures Accounts(mem, root, taken, base) ==> Accounts(mem', root, taken + {g}, base)
  {
    EntryRoundTrip(g, writable);
    forall q | IsPath(q)
      ensures Walk(mem', root, q) == if q == p + [i] then g else Walk(mem, root, q)
      ensures q != [] ==> WordOf(mem', root, q) == if q == p + [i] then MakeEntry(g, writable) else WordOf(mem, root, q)
    {
      WalkAfterAdd(mem, mem', root, taken, p, i, g, writable, q);
    }
    forall q, r | Reaches(mem', root, q) && Reaches(mem', root, r) && q != r
      ensures Separate(mem', root, q, r)
    {
      if q != p + [i] && r != p + [i] {
        assert Separate(mem, root, q, r);
      }
    }
    forall f
      ensures IsFrameOf(mem', root, f) <==> f == g || IsFrameOf(mem, root, f)
    {
      if IsFrameOf(mem, root, f) {
        var q :| Reaches(mem, root, q) && Walk(mem, root, q) == f;
        assert Reaches(mem', root, q);
      }
      if f == g {
        assert Reaches(mem', root, p + [i]) && Walk(mem', root, p + [i]) == f;
      }
      if IsFrameOf(mem', root, f) {
        var q :| Reaches(mem', root, q) && Walk(mem', root, q) == f;
        assert q != p + [i] ==> Reaches(mem, root, q);
      }
    }
  }

  /** mem' is mem with entry i of frame f cleared. */
  ghost predicate Cleared(mem: Memory, mem': Memory, f: int, i: int) {
    && 0 <= f < FRAMES && 0 <= i < 512 && mem'[f * 512 + i] == 0
    && forall h, j | 0 <= h < FRAMES && 0 <= j < 512 && (h != f || j != i) :: SameWord(mem, mem', h, j)
  }

  lemma StepAfterClear(mem: Memory, mem': Memory, root: int, taken: set<int>, t: seq<int>, i: int, q: seq<int>, j: int)
    requires IsTree(mem, root, taken) && IsPath(t + [i]) && Reaches(mem, root, t) && IsPath(q) && IsPath(q + [j])
    requires Cleared(mem, mem', Walk(mem, root, t), i) && Walk(mem', root, q) == Walk(mem, root, q)
    ensures q == t && j == i ==> Walk(mem', root, q + [j]) == -1
    ensures q != t || j != i ==> WordOf(mem', root, q + [j]) == WordOf(mem, root, q + [j])
  {
    var h := Walk(mem, root, q);
    WalkSnoc(mem, root, q, j);
    WalkSnoc(mem', root, q, j);
    if h != -1 && (q != t || j != i) {
      assert Reaches(mem, root, q) && InRegion(h, if |q| < 4 then OsPt else User);
      assert q == t || Separate(mem, root, q, t);
      assert SameWord(mem, mem', h, j);
    }
  }

  /** Clearing the entry of a page changes the walk to that page only. */
  lemma {:induction false} WalkAfterClear(mem: Memory, mem': Memory, root: int, taken: set<int>, t: seq<int>, i: int,
                                          q: seq<int>)
    requires IsTree(mem, root, taken) && |t| == 3 && IsPath(t + [i]) && Reaches(mem, root, t) && IsPath(q)
    requires Cleared(mem, mem', Walk(mem, root, t), i)
    ensures Walk(mem', root, q) == if q == t + [i] then -1 else Walk(mem, root, q)
    ensures q != t + [i] && q != [] ==> WordOf(mem', root, q) == WordOf(mem, root, q)
    decreases |q|
  {
    if q != [] {
      var q0, j := q[..|q| - 1], q[|q| - 1];
      assert q == q0 + [j];
      SnocInjective(q0, j, t, i);
      WalkAfterClear(mem, mem', root, taken, t, i, q0);
      StepAfterClear(mem, mem', root, taken, t, i, q0, j);
    }
  }

  lemma TreeAfterClear(mem: Memory, mem': Memory, root: int, taken: set<int>, base: set<int>, t: seq<int>, i: int)
    requires IsTree(mem, root, taken) && |t| == 3 && IsPath(t + [i]) && Reaches(mem, root, t)
    requires Reaches(mem, root, t + [i])
    requires Cleared(mem, mem', Walk(mem, root, t), i)
    ensures IsTree(mem', root, taken - {Walk(mem, root, t + [i])})
    ensures PlainEntries(mem, root) ==> PlainEntries(mem', root)
    ensures Accounts(mem, root, taken, base) ==> Accounts(mem', root, taken - {Walk(mem, root, t + [i])}, base)
  {
    var p := t + [i];
    var g := Walk(mem, root, p);
    forall q | IsPath(q)
      ensures Walk(mem', root, q) == if q == p then -1 else Walk(mem, root, q)
      ensures q != p && q != [] ==> WordOf(mem', root, q) == WordOf(mem, root, q)
    {
      WalkAfterClear(mem, mem', root, taken, t, i, q);
    }
    assert forall q | Reaches(mem', root, q) :: Reaches(mem, root, q) && q != p;
    forall q, r | Reaches(mem', root, q) && Reaches(mem', root, r) && q != r
      ensures Separate(mem', root, q, r)
    {
      assert Separate(mem, root, q, r);
    }
    forall q | Reaches(mem', root, q)
      ensures Walk(mem', root, q) != g
    {
      assert Separate(mem, root, q, p);
    }
    forall f
      ensures IsFrameOf(mem', root, f) <==> f != g && IsFrameOf(mem, root, f)
    {
      if f != g && IsFrameOf(mem, root, f) {
        var q :| Reaches(mem, root, q) && Walk(mem, root, q) == f;
        assert Reaches(mem', root, q);
      }
      if IsFrameOf(mem', root, f) {
        var q :| Reaches(mem', root, q) && Walk(mem', root, q) == f;
        assert Reaches(mem, root, q);
      }
    }
  }
}
