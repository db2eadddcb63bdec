/** Segments, page faults and the expand and shrink system calls of entry.c: a process as a map from its
    virtual pages to frames, and what every run of it keeps. */
module ProcessMemory {
  import Sets

  datatype Segment = Segment(start: int, end: int, next: int, flags: nat)

  /** The pages mapped to frames, and the user frames in use by anyone. */
  datatype Process = Process(pages: map<int, int>, taken: set<int>, data: Segment, rodata: Segment, stack: Segment)

  /** Sizes are 32-bit numbers of pages. */
  type Size = n: int | 0 <= n < 0x1_0000_0000

  datatype Call = Expand(write: bool, size: Size) | Shrink(write: bool, size: Size) | Fault(va: int, present: bool)

  function Wrap32(x: int): int {
    x % 0x1_0000_0000
  }

  function Wrap64(x: int): int {
    x % 0x1_0000_0000_0000_0000
  }

  function SegmentOf(p: Process, write: bool): Segment {
    if write then p.data else p.rodata
  }

  function WithSegment(p: Process, write: bool, s: Segment): Process {
    if write then p.(data := s) else p.(rodata := s)
  }

  // ----- the system calls -----

  /** SYSCALL_EXPAND; the shifted size wraps at 32 bits. */
  function Expanded(s: Segment, size: Size): (Segment, int) {
    var next := Wrap64(s.next + Wrap32(size * 4096));
    if next > s.end then (s, 0) else (s.(next := next), s.next)
  }

  /** Whether SYSCALL_SHRINK refuses: the comparison is made on the wrapped size. */
  predicate ShrinkRefused(s: Segment, size: Size) {
    Wrap64(s.next - Wrap32(size * 4096)) < s.start
  }

  /** next_free after the loop of SYSCALL_SHRINK, which goes round size times. */
  function ShrunkNext(s: Segment, size: Size): int {
    if ShrinkRefused(s, size) then s.next else Wrap64(s.next - size * 4096)
  }

  /** Of the number of pages, the shift by 12 in 32 bits leaves the low 20 bits. */
  lemma WrapShifted(size: Size)
    ensures 0 <= Wrap32(size * 4096) < 0x1_0000_0000
    ensures Wrap32(size * 4096) == size % 0x10_0000 * 4096
  {
    assert size == size / 0x10_0000 * 0x10_0000 + size % 0x10_0000;
  }

  lemma WrapBelow(x: int)
    requires -0x1000_0000_0000 <= x < 0x1_0000_0000_0000
    ensures Wrap64(x) == if x >= 0 then x else x + 0x1_0000_0000_0000_0000
  {
  }

  lemma AlignedBelow(x: int, n: int)
    requires x % 4096 == 0
    ensures (x - n * 4096) % 4096 == 0
  {
  }

  // ----- what a process keeps -----

  ghost predicate SegmentOk(s: Segment) {
    && 0x1_0000_0000 <= s.start <= s.next <= s.end < 0x1_0000_0000_0000
    && s.start % 4096 == 0 && s.end % 4096 == 0 && s.next % 4096 == 0
  }

  /** The stack segment is used by its bounds alone. */
  ghost predicate StackOk(s: Segment) {
    0 <= s.start <= s.end < 0x1_0000_0000_0000 && s.start % 4096 == 0 && s.end % 4096 == 0
  }

  predicate Contains(s: Segment, page: int) {
    s.start <= page * 4096 < s.end
  }

  ghost predicate Apart(s: Segment, s': Segment) {
    s.end <= s'.start || s'.end <= s.start
  }

  /** No page of the segment is mapped at or above next_free. */
  ghost predicate Below(pages: map<int, int>, s: Segment) {
    forall v | v in pages && Contains(s, v) :: v * 4096 < s.next
  }

  function Frames(pages: map<int, int>): set<int> {
    set v | v in pages :: pages[v]
  }

  ghost predicate Injective(pages: map<int, int>) {
    forall v, w | v in pages && w in pages && pages[v] == pages[w] :: v == w
  }

  ghost predicate Inv(p: Process, others: set<int>) {
    && SegmentOk(p.data) && SegmentOk(p.rodata) && StackOk(p.stack)
    && Apart(p.data, p.rodata) && Apart(p.data, p.stack) && Apart(p.rodata, p.stack)
    && Below(p.pages, p.data) && Below(p.pages, p.rodata)
    // no frame is mapped twice, and the frames in use are those of the mapped pages and those of others
    && Injective(p.pages) && p.taken == others + Frames(p.pages) && others !! Frames(p.pages)
  }

  // ----- steps -----

  function PageOf(va: int): int {
    va / 4096
  }

  /** handle_page_fault dispatches to the data, rodata or stack segment; otherwise the process exits. */
  predicate Handled(p: Process, va: int, present: bool) {
    || (p.data.start <= va < p.data.next && !present)
    || p.rodata.start <= va < p.rodata.next
    || p.stack.start <= va < p.stack.end
  }

  /** The page is mapped, on the frame it has or on one that nobody used. */
  ghost predicate Mapped(p: Process, page: int, p': Process) {
    if page in p.pages then p' == p
    else exists f :: f !in p.taken && p' == p.(pages := p.pages[page := f], taken := p.taken + {f})
  }

  /** The pages from address lo up to address hi are unmapped and their frames freed. */
  function Unmap(p: Process, lo: int, hi: int): Process {
    var gone := set v | v in p.pages && lo <= v * 4096 < hi;
    p.(pages := p.pages - gone, taken := p.taken - (set v | v in gone :: p.pages[v]))
  }

  /** next_free is down at next and the pages from there on are unmapped. */
  function Shrunk(p: Process, write: bool, next: int): Process {
    var s := SegmentOf(p, write);
    WithSegment(Unmap(p, next, s.next), write, s.(next := next))
  }

  /** next_free is down at next and the page there is unmapped. */
  function PageDropped(p: Process, write: bool, next: int): Process {
    var v := PageOf(next);
    var q := if v in p.pages then p.(pages := p.pages - {v}, taken := p.taken - {p.pages[v]}) else p;
    WithSegment(q, write, SegmentOf(p, write).(next := next))
  }

  lemma ShrunkNothing(p: Process, write: bool)
    ensures Shrunk(p, write, SegmentOf(p, write).next) == p
  {
    var lo := SegmentOf(p, write).next;
    assert p.pages - {} == p.pages;
    assert (set v | v in p.pages && lo <= v * 4096 < lo) == {};
  }

  /** Dropping pages one by one from the top is unmapping the range. */
  lemma ShrunkOneMore(p: Process, write: bool, next: int)
    requires next % 4096 == 0 && next <= SegmentOf(p, write).next
    ensures PageDropped(Shrunk(p, write, next), write, next - 4096) == Shrunk(p, write, next - 4096)
  {
    var hi, v := SegmentOf(p, write).next, PageOf(next - 4096);
    var q := Unmap(p, next, hi);
    var gone := set w | w in p.pages && next <= w * 4096 < hi;
    var gone' := set w | w in p.pages && next - 4096 <= w * 4096 < hi;
    assert v * 4096 == next - 4096;
    assert v in q.pages <==> v in p.pages;
    assert gone' == if v in p.pages then gone + {v} else gone;
  }

  datatype Outcome = Returns(value: int) | Exits

  ghost predicate Steps(p: Process, call: Call, o: Outcome, p': Process) {
    match call
    case Expand(write, size) =>
      var (s, r) := Expanded(SegmentOf(p, write), size);
      p' == WithSegment(p, write, s) && o == Returns(r)
    case Shrink(write, size) =>
      var s := SegmentOf(p, write);
      var next := ShrunkNext(s, size);
      if ShrinkRefused(s, size) then p' == p && o == Returns(0)
      else p' == Shrunk(p, write, next) && o == Returns(next)
    case Fault(va, present) =>
      if Handled(p, va, present) then Mapped(p, PageOf(va), p') && o == Returns(0)
      else p' == p && o == Exits
  }

  // ----- what the calls keep -----

  /** Expanding never breaks a segment, whatever the size: it moves next_free up by as many pages as the low 20 bits
      of the size say and returns where it was, or fails if they do not fit. */
  lemma ExpandKeeps(s: Segment, size: Size)
    requires SegmentOk(s)
    ensures var (s', r) := Expanded(s, size);
      && SegmentOk(s') && s'.start == s.start && s'.end == s.end && s'.flags == s.flags
      && if s.next + size % 0x10_0000 * 4096 > s.end then s' == s && r == 0
         else s'.next == s.next + size % 0x10_0000 * 4096 && r == s.next
  {
    WrapShifted(size);
    AlignedBelow(s.next, -(size % 0x10_0000));
  }

  /** Shrinking keeps next_free inside the segment exactly when it refuses or the real, unwrapped size fits;
      from 2^20 pages on, the check and the loop disagree about the size. */
  lemma ShrinkKeepsIff(s: Segment, size: Size)
    requires SegmentOk(s)
    ensures SegmentOk(s.(next := ShrunkNext(s, size))) <==> ShrinkRefused(s, size) || size * 4096 <= s.next - s.start
    ensures SegmentOk(s.(next := ShrunkNext(s, size))) ==> ShrunkNext(s, size) <= s.next
    ensures size < 0x10_0000 ==> SegmentOk(s.(next := ShrunkNext(s, size)))
    ensures ShrinkRefused(s, size) <==> s.next - size % 0x10_0000 * 4096 < s.start
    ensures ShrinkRefused(s, size) ==> ShrunkNext(s, size) == s.next
    ensures !ShrinkRefused(s, size) && size * 4096 <= s.next ==> ShrunkNext(s, size) == s.next - size * 4096
  {
    WrapShifted(size);
    WrapBelow(s.next - Wrap32(size * 4096));
    WrapBelow(s.next - size * 4096);
    AlignedBelow(s.next, size);
  }

  /** The expand call moves next_free of its segment and nothing else: up by the low 20 bits of the size, if there is
      room for so many pages, and it returns where they begin; otherwise it returns 0. */
  lemma ExpandIs(p: Process, write: bool, size: Size, o: Outcome, p': Process)
    requires SegmentOk(if write then p.data else p.rodata) && Steps(p, Expand(write, size), o, p')
    ensures var s := if write then p.data else p.rodata;
      var next := s.next + size % 0x10_0000 * 4096;
      if next > s.end then o == Returns(0) && p' == p
      else o == Returns(s.next) && p' == if write then p.(data := s.(next := next)) else p.(rodata := s.(next := next))
  {
    ExpandKeeps(if write then p.data else p.rodata, size);
  }

  /** The shrink call fails if so many pages as the low 20 bits of the size say would go below the start; otherwise
      next_free of its segment goes down by the whole size, exactly the pages in between are unmapped, and their frames
      are free again. */
  lemma ShrinkIs(p: Process, write: bool, size: Size, o: Outcome, p': Process)
    requires SegmentOk(if write then p.data else p.rodata) && Steps(p, Shrink(write, size), o, p')
    requires var s := if write then p.data else p.rodata;
      s.next - size % 0x10_0000 * 4096 < s.start || size * 4096 <= s.next
    ensures var s := if write then p.data else p.rodata;
      var next := s.next - size * 4096;
      if s.next - size % 0x10_0000 * 4096 < s.start then o == Returns(0) && p' == p
      else
        && o == Returns(next)
        && (if write then p'.data == s.(next := next) && p'.rodata == p.rodata
            else p'.rodata == s.(next := next) && p'.data == p.data)
        && (forall v :: v in p'.pages <==> v in p.pages && !(next <= v * 4096 < s.next))
        && (forall v | v in p'.pages :: v in p.pages && p'.pages[v] == p.pages[v])
        && (forall f :: f in p'.taken <==>
              f in p.taken && !exists v :: v in p.pages && p.pages[v] == f && next <= v * 4096 < s.next)
        && p'.stack == p.stack
  {
    ShrinkKeepsIff(if write then p.data else p.rodata, size);
  }

  /** A size for which the shrink call runs below the start of its segment. */
  lemma ShrinkCanUnderrun()
    ensures exists s, size: Size :: SegmentOk(s) && !SegmentOk(s.(next := ShrunkNext(s, size)))
  {
    var s := Segment(0x1_8000_0000, 0x1_8001_0000, 0x1_8000_0000, 3);
    ShrinkKeepsIff(s, 0x10_0000);
  }

  /** What a call must not do for the segments to stay in bounds. */
  predicate Safe(p: Process, call: Call) {
    match call
    case Expand(write, size) => true
    case Shrink(write, size) =>
      var s := SegmentOf(p, write);
      ShrinkRefused(s, size) || size * 4096 <= s.next - s.start
    case Fault(va, present) => true
  }

  lemma ValuesAfterMap(pages: map<int, int>, v: int, f: int)
    requires v !in pages
    ensures Frames(pages[v := f]) == Frames(pages) + {f}
  {
    var pages' := pages[v := f];
    assert f in Frames(pages') by {
      assert pages'[v] == f;
    }
    forall g | g in Frames(pages)
      ensures g in Frames(pages')
    {
      var w :| w in pages && pages[w] == g;
      assert pages'[w] == g;
    }
  }

  lemma MapKeepsInv(p: Process, va: int, present: bool, p': Process, others: set<int>)
    requires Inv(p, others) && Handled(p, va, present) && Mapped(p, PageOf(va), p')
    ensures Inv(p', others)
  {
    var v := PageOf(va);
    if v !in p.pages {
      var f :| f !in p.taken && p' == p.(pages := p.pages[v := f], taken := p.taken + {f});
      ValuesAfterMap(p.pages, v, f);
      assert v * 4096 <= va < v * 4096 + 4096;
      assert Below(p'.pages, p.data) && Below(p'.pages, p.rodata);
      assert Injective(p'.pages);
    }
  }

  lemma UnmapValues(p: Process, lo: int, hi: int, others: set<int>)
    requires Injective(p.pages) && p.taken == others + Frames(p.pages) && others !! Frames(p.pages)
    ensures var p' := Unmap(p, lo, hi);
      p'.taken == others + Frames(p'.pages) && Frames(p'.pages) <= Frames(p.pages)
  {
    var gone := set v | v in p.pages && lo <= v * 4096 < hi;
    var p' := Unmap(p, lo, hi);
    forall f
      ensures f in p'.taken <==> f in others || f in Frames(p'.pages)
      ensures f in Frames(p'.pages) ==> f in Frames(p.pages)
    {
      if f in p'.taken && f !in others {
        var v :| v in p.pages && p.pages[v] == f;
        assert v !in gone;
        assert v in p'.pages && p'.pages[v] == f;
      }
      if f in Frames(p'.pages) {
        var v :| v in p'.pages && p'.pages[v] == f;
        assert v in p.pages && p.pages[v] == f;
      }
    }
  }

  lemma ShrinkKeepsInv(p: Process, write: bool, next: int, others: set<int>)
    requires Inv(p, others)
    requires var s := SegmentOf(p, write); SegmentOk(s.(next := next)) && next <= s.next
    ensures Inv(Shrunk(p, write, next), others)
  {
    var s := SegmentOf(p, write);
    UnmapValues(p, next, s.next, others);
  }

  lemma ExpandKeepsInv(p: Process, write: bool, size: Size, others: set<int>)
    requires Inv(p, others)
    ensures Inv(WithSegment(p, write, Expanded(SegmentOf(p, write), size).0), others)
  {
    ExpandKeeps(SegmentOf(p, write), size);
    assert Below(p.pages, Expanded(SegmentOf(p, write), size).0);
  }

  /** Each call keeps the invariant. */
  lemma StepKeepsInv(p: Process, call: Call, o: Outcome, p': Process, others: set<int>)
    requires Inv(p, others) && Safe(p, call) && Steps(p, call, o, p')
    ensures Inv(p', others)
  {
    match call
    case Expand(write, size) =>
      ExpandKeepsInv(p, write, size, others);
    case Shrink(write, size) =>
      var s := SegmentOf(p, write);
      ShrinkKeepsIff(s, size);
      if !ShrinkRefused(s, size) {
        ShrinkKeepsInv(p, write, ShrunkNext(s, size), others);
      }
    case Fault(va, present) =>
      if p' != p {
        MapKeepsInv(p, va, present, p', others);
      }
  }

  // ----- whole runs -----

  /** A run: the states before, between and after its calls. */
  ghost predicate IsRun(states: seq<Process>, calls: seq<Call>, outcomes: seq<Outcome>) {
    && |states| == |calls| + 1 && |outcomes| == |calls|
    && forall i | 0 <= i < |calls| ::
         Safe(states[i], calls[i]) && Steps(states[i], calls[i], outcomes[i], states[i + 1])
  }

  lemma {:induction false} FrameCount(pages: map<int, int>, some: set<int>)
    requires Injective(pages) && forall v | v in some :: v in pages
    ensures |set v | v in some :: pages[v]| == |some|
  {
    if some != {} {
      var v := Sets.Pick(some);
      var rest := some - {v};
      FrameCount(pages, rest);
      assert (set w | w in some :: pages[w]) == (set w | w in rest :: pages[w]) + {pages[v]};
    }
  }

  lemma {:induction false} RunKeepsInvAt(states: seq<Process>, calls: seq<Call>, outcomes: seq<Outcome>,
                                         others: set<int>, i: nat)
    requires IsRun(states, calls, outcomes) && Inv(states[0], others) && i < |states|
    ensures Inv(states[i], others)
  {
    if i > 0 {
      RunKeepsInvAt(states, calls, outcomes, others, i - 1);
      StepKeepsInv(states[i - 1], calls[i - 1], outcomes[i - 1], states[i], others);
    }
  }

  lemma TakenCount(p: Process, others: set<int>)
    requires Inv(p, others)
    ensures |p.taken| == |others| + |p.pages|
  {
    FrameCount(p.pages, p.pages.Keys);
    assert Frames(p.pages) == set v | v in p.pages.Keys :: p.pages[v];
  }

  /** Every run keeps the invariant, and the frames it has allocated and not freed are as many as the pages it has
      added. */
  lemma RunKeepsInv(states: seq<Process>, calls: seq<Call>, outcomes: seq<Outcome>, others: set<int>, i: nat)
    requires IsRun(states, calls, outcomes) && Inv(states[0], others) && i < |states|
    ensures Inv(states[i], others)
    ensures |states[i].taken| - |states[0].taken| == |states[i].pages| - |states[0].pages|
  {
    RunKeepsInvAt(states, calls, outcomes, others, i);
    TakenCount(states[0], others);
    TakenCount(states[i], others);
  }
}
