/** The system calls and the page-fault handler of entry.c, on page tables in memory. */
module ProcessCalls {
  import opened PageTables
  import opened Mmus
  import P = ProcessMemory

  // ----- what the tables mean for a process -----

  ghost function Users(t: set<int>): set<int> {
    set f | f in t && InRegion(f, User)
  }

  /** f is where every address of page v leads. */
  ghost predicate LeadsTo(m: Memory, root: int, v: int, f: int) {
    forall va {:trigger Path(va)} | 0 <= va < 0x1_0000_0000_0000 && va / 4096 == v :: Walk(m, root, Path(va)) == f
  }

  /** All addresses of a page lead to the same frame. */
  lemma PageHasFrame(m: Memory, root: int, v: int)
    ensures exists f :: LeadsTo(m, root, v, f)
  {
    forall va {:trigger Path(va)} | 0 <= va < 0x1_0000_0000_0000 && va / 4096 == v
      ensures Path(va) == Path(v * 4096)
    {
      SamePathIffSamePage(va, v * 4096);
    }
    assert LeadsTo(m, root, v, Walk(m, root, Path(v * 4096)));
  }

  /** The frame of a page, or -1 if it is not mapped. */
  ghost function FrameOf(m: Memory, root: int, v: int): int {
    PageHasFrame(m, root, v);
    var f :| LeadsTo(m, root, v, f); f
  }

  /** The pages of a process and their frames. */
  ghost function Pages(m: Memory, root: int): map<int, int> {
    map v | 0 <= v < 0x10_0000_0000 && FrameOf(m, root, v) != -1 :: FrameOf(m, root, v)
  }

  lemma FrameIs(m: Memory, root: int, va: int)
    requires 0 <= va < 0x1_0000_0000_0000
    ensures FrameOf(m, root, va / 4096) == Walk(m, root, Path(va))
    ensures Reaches(m, root, Path(va)) <==> va / 4096 in Pages(m, root)
  {
    assert LeadsTo(m, root, va / 4096, FrameOf(m, root, va / 4096));
  }

  lemma FramesOf(m: Memory, root: int, t: set<int>)
    requires IsTree(m, root, t)
    ensures Accounts(m, root, t, set f | f in t && !IsFrameOf(m, root, f))
  {
  }

  /** A user frame that is new is that of the page. */
  lemma NewUserFrame(m: Memory, t: set<int>, m': Memory, t': set<int>, root: int, path: seq<int>, writable: bool,
                     f: int)
    requires |path| == 4 && IsPath(path) && IsTree(m, root, t) && Extends(m, t, m', t', root, path, 4, writable)
    requires f in t' && InRegion(f, User) && f !in t
    ensures !Reaches(m, root, path) && f == Walk(m', root, path)
  {
    FramesOf(m, root, t);
    var base := set g | g in t && !IsFrameOf(m, root, g);
    assert path[..4] == path && Accounts(m', root, t', base) && IsFrameOf(m', root, f);
    var q :| Reaches(m', root, q) && Walk(m', root, q) == f;
    assert |q| == 4 && Follows(m, t, m', root, path, 4, writable, q);
    assert !Reaches(m, root, q);
  }

  /** The user frames after mapping a page: at most the page's own frame is new. */
  lemma UsersAfterMap(m: Memory, t: set<int>, m': Memory, t': set<int>, root: int, path: seq<int>, writable: bool)
    requires |path| == 4 && IsPath(path) && IsTree(m, root, t) && Extends(m, t, m', t', root, path, 4, writable)
    ensures Users(t') == if Reaches(m, root, path) then Users(t) else Users(t) + {Walk(m', root, path)}
  {
    assert path[..4] == path && Reaches(m', root, path);
    forall f | f in Users(t') && f !in t
      ensures !Reaches(m, root, path) && f == Walk(m', root, path)
    {
      NewUserFrame(m, t, m', t', root, path, writable, f);
    }
    assert Walk(m', root, path) in t' && InRegion(Walk(m', root, path), User);
  }

  lemma WalkAfterMap(m: Memory, t: set<int>, m': Memory, t': set<int>, root: int, path: seq<int>, writable: bool,
                     q: seq<int>)
    requires |path| == 4 && IsPath(path) && |q| == 4 && IsPath(q) && Extends(m, t, m', t', root, path, 4, writable)
    ensures q != path || Walk(m, root, q) != -1 ==> Walk(m', root, q) == Walk(m, root, q)
    ensures q == path ==> Walk(m', root, q) != -1 && (Walk(m, root, q) == -1 ==> Walk(m', root, q) !in t)
  {
    assert path[..4] == path && Reaches(m', root, path);
    assert Follows(m, t, m', root, path, 4, writable, q);
  }

  lemma WalkAfterUnmap(m: Memory, t: set<int>, m': Memory, t': set<int>, root: int, path: seq<int>, q: seq<int>)
    requires |path| == 4 && IsPath(path) && |q| == 4 && IsPath(q) && Unmapped(m, t, m', t', root, path)
    ensures Walk(m', root, q) == if q == path then -1 else Walk(m, root, q)
  {
  }

  lemma SamePage(va: int, w: int)
    requires 0 <= va < 0x1_0000_0000_0000 && 0 <= w < 0x10_0000_0000
    ensures Path(va) == Path(w * 4096) <==> va / 4096 == w
  {
    PageInRange(va);
    PageInRange(w * 4096);
    SamePathIffSamePage(va, w * 4096);
  }

  lemma PageInRange(va: int)
    requires 0 <= va < 0x1_0000_0000_0000
    ensures PageOf(va) == va / 4096
  {
  }

  /** Mapping the page of an address gives that page a frame, if it had none, and moves no other page. */
  lemma FrameAfterMap(m: Memory, t: set<int>, m': Memory, t': set<int>, root: int, va: int, writable: bool, w: int)
    requires 0 <= va < 0x1_0000_0000_0000 && Extends(m, t, m', t', root, Path(va), 4, writable)
    requires 0 <= w < 0x10_0000_0000
    ensures w != va / 4096 || FrameOf(m, root, w) != -1 ==> FrameOf(m', root, w) == FrameOf(m, root, w)
    ensures w == va / 4096 ==> FrameOf(m', root, w) != -1
    ensures w == va / 4096 && FrameOf(m, root, w) == -1 ==> FrameOf(m', root, w) !in t
  {
    SamePage(va, w);
    FrameIs(m, root, w * 4096);
    FrameIs(m', root, w * 4096);
    WalkAfterMap(m, t, m', t', root, Path(va), writable, Path(w * 4096));
  }

  lemma PagesAfterMap(m: Memory, t: set<int>, m': Memory, t': set<int>, root: int, va: int, writable: bool)
    requires 0 <= va < 0x1_0000_0000_0000 && Extends(m, t, m', t', root, Path(va), 4, writable)
    ensures var v := va / 4096;
      if v in Pages(m, root) then Pages(m', root) == Pages(m, root)
      else
        && v in Pages(m', root) && Pages(m', root)[v] !in t
        && Pages(m', root) == Pages(m, root)[v := Pages(m', root)[v]]
  {
    forall w | 0 <= w < 0x10_0000_0000
      ensures w != va / 4096 || FrameOf(m, root, w) != -1 ==> FrameOf(m', root, w) == FrameOf(m, root, w)
      ensures w == va / 4096 ==> FrameOf(m', root, w) != -1
      ensures w == va / 4096 && FrameOf(m, root, w) == -1 ==> FrameOf(m', root, w) !in t
    {
      FrameAfterMap(m, t, m', t', root, va, writable, w);
    }
  }

  lemma FrameAfterUnmap(m: Memory, t: set<int>, m': Memory, t': set<int>, root: int, va: int, w: int)
    requires 0 <= va < 0x1_0000_0000_0000 && Unmapped(m, t, m', t', root, Path(va)) && 0 <= w < 0x10_0000_0000
    ensures FrameOf(m', root, w) == if w == va / 4096 then -1 else FrameOf(m, root, w)
  {
    SamePage(va, w);
    FrameIs(m, root, w * 4096);
    FrameIs(m', root, w * 4096);
    WalkAfterUnmap(m, t, m', t', root, Path(va), Path(w * 4096));
  }

  /** Freeing the page of an address unmaps that page and moves no other. */
  lemma PagesAfterUnmap(m: Memory, t: set<int>, m': Memory, t': set<int>, root: int, va: int)
    requires 0 <= va < 0x1_0000_0000_0000 && Unmapped(m, t, m', t', root, Path(va)) && Reaches(m, root, Path(va))
    ensures var v := va / 4096; v in Pages(m, root) && Pages(m', root) == Pages(m, root) - {v}
    ensures Users(t') == Users(t) - {Pages(m, root)[va / 4096]}
  {
    FrameIs(m, root, va);
    forall w | 0 <= w < 0x10_0000_0000
      ensures FrameOf(m', root, w) == if w == va / 4096 then -1 else FrameOf(m, root, w)
    {
      FrameAfterUnmap(m, t, m', t', root, va, w);
    }
  }

  // ----- the calls -----

  lemma MapIsMapped(m: Memory, t: set<int>, m': Memory, t': set<int>, root: int, va: int, writable: bool,
                    p: P.Process, p': P.Process)
    requires 0 <= va < 0x1_0000_0000_0000 && IsTree(m, root, t) && Extends(m, t, m', t', root, Path(va), 4, writable)
    requires p.pages == Pages(m, root) && p.taken == Users(t)
    requires p' == p.(pages := Pages(m', root), taken := Users(t'))
    ensures P.Mapped(p, P.PageOf(va), p')
  {
    var v := va / 4096;
    PagesAfterMap(m, t, m', t', root, va, writable);
    UsersAfterMap(m, t, m', t', root, Path(va), writable);
    FrameIs(m, root, va);
    FrameIs(m', root, va);
    if v !in p.pages {
      var f := p'.pages[v];
      assert f !in p.taken && p' == p.(pages := p.pages[v := f], taken := p.taken + {f});
    }
  }

  class Context {
    const mmu: Mmu
    const pgd: nat
    var data: P.Segment
    var rodata: P.Segment
    var stack: P.Segment

    constructor (mmu: Mmu, pgd: nat, data: P.Segment, rodata: P.Segment, stack: P.Segment)
      ensures this.mmu == mmu && this.pgd == pgd && this.data == data && this.rodata == rodata && this.stack == stack
    {
      this.mmu, this.pgd, this.data, this.rodata, this.stack := mmu, pgd, data, rodata, stack;
    }

    ghost function View(): P.Process
      requires mmu.Ok()
      reads this, mmu, mmu.mem
    {
      P.Process(Pages(mmu.M(), pgd), Users(mmu.taken), data, rodata, stack)
    }

    ghost predicate Valid(others: set<int>)
      reads this, mmu, mmu.mem
    {
      mmu.Ok() && IsTree(mmu.M(), pgd, mmu.taken) && PlainEntries(mmu.M(), pgd) && P.Inv(View(), others)
    }

    /** There are frames for the tables and the page that an address may need. */
    ghost predicate Affords(va: int)
      requires mmu.Ok()
      reads mmu, mmu.mem
    {
      && |FreeIn(OsPt, mmu.taken)| >= Missing(mmu.M(), pgd, Path(va), 1)
      && (Reaches(mmu.M(), pgd, Path(va)) || FreeIn(User, mmu.taken) != {})
    }

    method SetNext(write: bool, next: int)
      modifies `data, `rodata
      ensures data == (if write then old(data).(next := next) else old(data))
      ensures rodata == (if write then old(rodata) else old(rodata).(next := next))
    {
      if write {
        data := data.(next := next);
      } else {
        rodata := rodata.(next := next);
      }
    }

    /** SYSCALL_EXPAND. */
    method Expand(write: bool, size: P.Size, ghost others: set<int>) returns (res: int)
      requires Valid(others)
      modifies `data, `rodata
      ensures P.Steps(old(View()), P.Expand(write, size), P.Returns(res), View()) && Valid(others)
    {
      var segment := if write then data else rodata;
      ghost var p := View();
      res := segment.next;
      var next := P.Wrap64(segment.next + P.Wrap32(size * 4096));
      if next > segment.end {
        res := 0;
      } else {
        SetNext(write, next);
      }
      P.StepKeepsInv(p, P.Expand(write, size), P.Returns(res), View(), others);
    }

    /** handle_page_fault: map the page of the address, with the rights of the segment it belongs to; outside the
        segments, and on a protection fault in the data segment, the process exits. */
    method PageFault(va: nat, present: bool, ghost others: set<int>) returns (outcome: P.Outcome)
      requires Valid(others) && (P.Handled(View(), va, present) ==> Affords(va))
      modifies mmu, mmu.mem
      ensures P.Steps(old(View()), P.Fault(va, present), outcome, View()) && Valid(others)
      ensures data.start <= va < data.next && !present ==>
        Filled(old(mmu.M()), mmu.M(), pgd, Path(va), data.flags / 2 % 2 == 1)
      ensures rodata.start <= va < rodata.next ==>
        Filled(old(mmu.M()), mmu.M(), pgd, Path(va), rodata.flags / 2 % 2 == 1)
      ensures stack.start <= va < stack.end ==>
        Filled(old(mmu.M()), mmu.M(), pgd, Path(va), stack.flags / 2 % 2 == 1)
      ensures outcome == P.Exits <==>
        && !(data.start <= va < data.next && !present) && !(rodata.start <= va < rodata.next)
        && !(stack.start <= va < stack.end)
      ensures outcome == P.Exits ==> mmu.M() == old(mmu.M()) && mmu.taken == old(mmu.taken)
    {
      ghost var p, m, t := View(), mmu.M(), mmu.taken;
      outcome := P.Returns(0);
      var flags;
      if data.start <= va < data.next && !present {
        flags := data.flags;
      } else if rodata.start <= va < rodata.next {
        flags := rodata.flags;
      } else if stack.start <= va < stack.end {
        flags := stack.flags;
      } else {
        return P.Exits;
      }
      mmu.MapPage(pgd, va, flags);
      MapIsMapped(m, t, mmu.M(), mmu.taken, pgd, va, MayWrite(flags), p, View());
      P.StepKeepsInv(p, P.Fault(va, present), outcome, View(), others);
    }

    /** One round of the loop of SYSCALL_SHRINK. */
    method ShrinkPage(write: bool, next: nat)
      requires mmu.Ok() && IsTree(mmu.M(), pgd, mmu.taken) && PlainEntries(mmu.M(), pgd) && next < 0x1_0000_0000_0000
      modifies `data, `rodata, mmu, mmu.mem
      ensures IsTree(mmu.M(), pgd, mmu.taken) && PlainEntries(mmu.M(), pgd)
      ensures View() == P.PageDropped(old(View()), write, next)
    {
      ghost var m, t := mmu.M(), mmu.taken;
      SetNext(write, next);
      mmu.FreeDataPage(next, pgd);
      FrameIs(m, pgd, next);
      if Reaches(m, pgd, Path(next)) {
        PagesAfterUnmap(m, t, mmu.M(), mmu.taken, pgd, next);
      }
    }

    /** The loop of SYSCALL_SHRINK. */
    method ShrinkPages(write: bool, size: P.Size) returns (next: int)
      requires mmu.Ok() && IsTree(mmu.M(), pgd, mmu.taken) && PlainEntries(mmu.M(), pgd)
      requires var s := if write then data else rodata; P.SegmentOk(s) && size * 4096 <= s.next - s.start
      modifies `data, `rodata, mmu, mmu.mem
      ensures IsTree(mmu.M(), pgd, mmu.taken) && PlainEntries(mmu.M(), pgd)
      ensures next == old(if write then data else rodata).next - size * 4096
      ensures View() == P.Shrunk(old(View()), write, next)
    {
      ghost var p := View();
      var left := size;
      next := (if write then data else rodata).next;
      ghost var top := next;
      P.ShrunkNothing(p, write);
      while left > 0
        invariant 0 <= left <= size && next == top - (size - left) * 4096 && next % 4096 == 0
        invariant IsTree(mmu.M(), pgd, mmu.taken) && PlainEntries(mmu.M(), pgd)
        invariant View() == P.Shrunk(p, write, next)
      {
        P.ShrunkOneMore(p, write, next);
        P.WrapBelow(next - 4096);
        next := P.Wrap64(next - 4096);
        ShrinkPage(write, next);
        left := left - 1;
      }
    }

    /** SYSCALL_SHRINK. */
    method Shrink(write: bool, size: P.Size, ghost others: set<int>) returns (res: int)
      requires Valid(others) && P.Safe(View(), P.Shrink(write, size))
      modifies `data, `rodata, mmu, mmu.mem
      ensures P.Steps(old(View()), P.Shrink(write, size), P.Returns(res), View()) && Valid(others)
    {
      var segment := if write then data else rodata;
      ghost var p := View();
      if P.Wrap64(segment.next - P.Wrap32(size * 4096)) < segment.start {
        return 0;
      }
      P.WrapBelow(segment.next - size * 4096);
      res := ShrinkPages(write, size);
      P.StepKeepsInv(p, P.Shrink(write, size), P.Returns(res), View(), others);
    }
  }
}
