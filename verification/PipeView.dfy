/** The reorder queue of the pipeline viewer: instructions arrive out of order and are printed by sequence number. */
module PipeView {

  datatype Inst = Inst(sn: int, fetch: int, retire: int, text: string)

  datatype Bounds = Bounds(snStart: int, snStop: int, tickStart: int, tickStop: int, onlyCommitted: bool)

  /** The thresholds of the queue. */
  datatype Limits = Limits(min: nat, max: nat)

  // ----- sorting by sequence number -----

  ghost predicate Sorted(s: seq<Inst>) {
    forall i, j | 0 <= i < j < |s| :: InOrder(s, i, j)
  }

  predicate InOrder(s: seq<Inst>, i: nat, j: nat)
    requires i < |s| && j < |s|
  {
    s[i].sn <= s[j].sn
  }

  lemma SortedPart(s: seq<Inst>, lo: nat, hi: nat)
    requires Sorted(s) && lo <= hi <= |s|
    ensures Sorted(s[lo..hi])
  {
    forall i, j | 0 <= i < j < hi - lo
      ensures InOrder(s[lo..hi], i, j)
    {
      assert InOrder(s, lo + i, lo + j);
    }
  }

  lemma SortedSnoc(s: seq<Inst>, x: Inst)
    requires Sorted(s) && forall i | 0 <= i < |s| :: s[i].sn <= x.sn
    ensures Sorted(s + [x])
  {
    forall i, j | 0 <= i < j < |s| + 1
      ensures InOrder(s + [x], i, j)
    {
      if j < |s| {
        assert InOrder(s, i, j);
      }
    }
  }

  /** x goes after everything that is not larger. */
  function Insert(s: seq<Inst>, x: Inst): seq<Inst> {
    if s == [] || s[|s| - 1].sn <= x.sn then s + [x] else Insert(s[..|s| - 1], x) + [s[|s| - 1]]
  }

  /** The stable sort by sequence number. */
  function Sort(s: seq<Inst>): seq<Inst> {
    if s == [] then [] else Insert(Sort(s[..|s| - 1]), s[|s| - 1])
  }

  function Larger(s: seq<Inst>, sn: int): nat {
    if s == [] then 0 else Larger(s[..|s| - 1], sn) + if s[|s| - 1].sn > sn then 1 else 0
  }

  function Only(s: seq<Inst>, sn: int): seq<Inst> {
    if s == [] then [] else Only(s[..|s| - 1], sn) + if s[|s| - 1].sn == sn then [s[|s| - 1]] else []
  }

  lemma OnlySnoc(s: seq<Inst>, x: Inst, sn: int)
    ensures Only(s + [x], sn) == Only(s, sn) + (if x.sn == sn then [x] else [])
  {
    assert (s + [x])[..|s|] == s;
  }

  lemma LargerSnoc(s: seq<Inst>, x: Inst, sn: int)
    ensures Larger(s + [x], sn) == Larger(s, sn) + (if x.sn > sn then 1 else 0)
  {
    assert (s + [x])[..|s|] == s;
  }

  lemma {:induction false} InsertKeeps(s: seq<Inst>, x: Inst)
    ensures multiset(Insert(s, x)) == multiset(s) + multiset{x} && |Insert(s, x)| == |s| + 1
  {
    if s != [] {
      var s0, y := s[..|s| - 1], s[|s| - 1];
      assert s == s0 + [y];
      InsertKeeps(s0, x);
    }
  }

  lemma {:induction false} InsertSorted(s: seq<Inst>, x: Inst)
    requires Sorted(s)
    ensures Sorted(Insert(s, x))
  {
    if s == [] || s[|s| - 1].sn <= x.sn {
      forall i | 0 <= i < |s|
        ensures s[i].sn <= x.sn
      {
        assert i == |s| - 1 || InOrder(s, i, |s| - 1);
      }
      SortedSnoc(s, x);
    } else {
      var s0, y := s[..|s| - 1], s[|s| - 1];
      SortedPart(s, 0, |s| - 1);
      InsertSorted(s0, x);
      InsertKeeps(s0, x);
      forall i | 0 <= i < |Insert(s0, x)|
        ensures Insert(s0, x)[i].sn <= y.sn
      {
        var z := Insert(s0, x)[i];
        assert z in multiset(Insert(s0, x));
        if z != x {
          var k :| 0 <= k < |s0| && s0[k] == z;
          assert InOrder(s, k, |s| - 1);
        }
      }
      SortedSnoc(Insert(s0, x), y);
    }
  }

  lemma {:induction false} InsertOnly(s: seq<Inst>, x: Inst, sn: int)
    ensures Only(Insert(s, x), sn) == Only(s + [x], sn)
  {
    if s != [] && s[|s| - 1].sn > x.sn {
      var s0, y := s[..|s| - 1], s[|s| - 1];
      assert s == s0 + [y];
      InsertOnly(s0, x, sn);
      OnlySnoc(Insert(s0, x), y, sn);
      OnlySnoc(s0, x, sn);
      OnlySnoc(s0, y, sn);
      OnlySnoc(s, x, sn);
    }
  }

  lemma {:induction false} InsertLarger(s: seq<Inst>, x: Inst, sn: int)
    ensures Larger(Insert(s, x), sn) == Larger(s, sn) + if x.sn > sn then 1 else 0
  {
    LargerSnoc(s, x, sn);
    if s != [] && s[|s| - 1].sn > x.sn {
      var s0, y := s[..|s| - 1], s[|s| - 1];
      InsertLarger(s0, x, sn);
      LargerSnoc(Insert(s0, x), y, sn);
    }
  }

  lemma {:induction false} SortKeeps(s: seq<Inst>)
    ensures Sorted(Sort(s)) && multiset(Sort(s)) == multiset(s) && |Sort(s)| == |s|
  {
    if s != [] {
      var s0, x := s[..|s| - 1], s[|s| - 1];
      SortKeeps(s0);
      InsertKeeps(Sort(s0), x);
      InsertSorted(Sort(s0), x);
      assert multiset(s) == multiset(s0) + multiset{x} by {
        assert s == s0 + [x];
      }
    }
  }

  lemma {:induction false} SortOnly(s: seq<Inst>, sn: int)
    ensures Only(Sort(s), sn) == Only(s, sn)
  {
    if s != [] {
      var s0, x := s[..|s| - 1], s[|s| - 1];
      SortOnly(s0, sn);
      InsertOnly(Sort(s0), x, sn);
      OnlySnoc(Sort(s0), x, sn);
    }
  }

  lemma {:induction false} SortLarger(s: seq<Inst>, sn: int)
    ensures Larger(Sort(s), sn) == Larger(s, sn)
  {
    if s != [] {
      SortLarger(s[..|s| - 1], sn);
      InsertLarger(Sort(s[..|s| - 1]), s[|s| - 1], sn);
    }
  }

  /** Sorting orders the elements, keeps them all, and keeps the order of those with the same number. */
  lemma SortIs(s: seq<Inst>, sn: int)
    ensures Sorted(Sort(s)) && multiset(Sort(s)) == multiset(s) && |Sort(s)| == |s|
    ensures Only(Sort(s), sn) == Only(s, sn)
  {
    SortKeeps(s);
    SortOnly(s, sn);
  }

  lemma SortSnoc(s: seq<Inst>, x: Inst)
    ensures Sort(s + [x]) == Insert(Sort(s), x)
  {
    assert (s + [x])[..|s|] == s;
  }

  lemma {:induction false} SortSorted(s: seq<Inst>)
    requires Sorted(s)
    ensures Sort(s) == s
  {
    if s != [] {
      var s0, x := s[..|s| - 1], s[|s| - 1];
      SortedPart(s, 0, |s| - 1);
      SortSorted(s0);
      assert s == s0 + [x];
      assert s0 == [] || s0[|s0| - 1].sn <= x.sn by {
        assert s0 == [] || InOrder(s, |s| - 2, |s| - 1);
      }
    }
  }

  /** Sorting a part first changes nothing. */
  lemma {:induction false} SortPart(q: seq<Inst>, rest: seq<Inst>)
    ensures Sort(Sort(q) + rest) == Sort(q + rest)
  {
    if rest == [] {
      SortKeeps(q);
      SortSorted(Sort(q));
      assert Sort(q) + rest == Sort(q) && q + rest == q;
    } else {
      var r0, x := rest[..|rest| - 1], rest[|rest| - 1];
      assert rest == r0 + [x];
      SortPart(q, r0);
      SortSnoc(Sort(q) + r0, x);
      SortSnoc(q + r0, x);
      Assoc(Sort(q), r0, [x]);
      Assoc(q, r0, [x]);
    }
  }

  lemma {:induction false} InsertBehind(h: Inst, s: seq<Inst>, x: Inst)
    requires h.sn <= x.sn
    ensures Insert([h] + s, x) == [h] + Insert(s, x)
  {
    if s == [] {
      assert [h] + s == [h];
    } else {
      var s0, y := s[..|s| - 1], s[|s| - 1];
      assert ([h] + s)[..|[h] + s| - 1] == [h] + s0;
      if y.sn > x.sn {
        InsertBehind(h, s0, x);
        assert [h] + Insert(s0, x) + [y] == [h] + (Insert(s0, x) + [y]);
      } else {
        assert [h] + s + [x] == [h] + (s + [x]);
      }
    }
  }

  /** A first element that is not larger than any other stays first. */
  lemma {:induction false} SortHead(h: Inst, s: seq<Inst>)
    requires forall x | x in s :: h.sn <= x.sn
    ensures Sort([h] + s) == [h] + Sort(s)
  {
    if s == [] {
      assert [h] + s == [h] && Sort([h][..0]) == [];
    } else {
      var s0, x := s[..|s| - 1], s[|s| - 1];
      assert [h] + s == [h] + s0 + [x] && s == s0 + [x];
      SortHead(h, s0);
      SortSnoc([h] + s0, x);
      InsertBehind(h, Sort(s0), x);
    }
  }

  ghost predicate NoneBelow(sn: int, rest: seq<Inst>) {
    forall x | x in rest :: sn <= x.sn
  }

  lemma HeadIsLeast(q: seq<Inst>, rest: seq<Inst>)
    requires Sorted(q) && q != [] && NoneBelow(q[0].sn, rest)
    ensures Sorted(q[1..]) && forall x | x in q[1..] + rest :: q[0].sn <= x.sn
  {
    SortedPart(q, 1, |q|);
    assert q[1..] == q[1..|q|];
    forall x | x in q[1..]
      ensures q[0].sn <= x.sn
    {
      var j :| 1 <= j < |q| && q[j] == x;
      assert InOrder(q, 0, j);
    }
  }

  /** Taking the first k of a sorted queue, when nothing that is still to come belongs before them. */
  lemma {:induction false} TakeFirst(q: seq<Inst>, rest: seq<Inst>, k: nat)
    requires Sorted(q) && k <= |q| && (k > 0 ==> NoneBelow(q[k - 1].sn, rest))
    ensures Sort(q + rest) == q[..k] + Sort(q[k..] + rest)
    decreases k
  {
    if k == 0 {
      assert q[..0] == [] && q[0..] == q;
    } else {
      assert k == 1 || InOrder(q, 0, k - 1);
      TakeOne(q, rest);
      TakeFirst(q[1..], rest, k - 1);
      Regroup(q, k, Sort(q[k..] + rest));
    }
  }

  lemma TakeOne(q: seq<Inst>, rest: seq<Inst>)
    requires Sorted(q) && q != [] && NoneBelow(q[0].sn, rest)
    ensures Sort(q + rest) == [q[0]] + Sort(q[1..] + rest) && Sorted(q[1..])
  {
    HeadIsLeast(q, rest);
    var h, tail := q[0], q[1..] + rest;
    SplitHead(q, rest);
    SortHead(h, tail);
  }

  lemma SplitHead(q: seq<Inst>, rest: seq<Inst>)
    requires q != []
    ensures q + rest == [q[0]] + (q[1..] + rest)
  {
  }

  lemma Regroup(q: seq<Inst>, k: nat, z: seq<Inst>)
    requires 1 <= k <= |q|
    ensures [q[0]] + (q[1..][..k - 1] + z) == q[..k] + z && q[1..][k - 1..] == q[k..]
  {
  }

  lemma Assoc(a: seq<Inst>, b: seq<Inst>, c: seq<Inst>)
    ensures a + (b + c) == (a + b) + c
  {
  }

  // ----- the queue -----

  /** The instructions waiting and those taken out so far, in order. */
  datatype State = State(queue: seq<Inst>, taken: seq<Inst>)

  /** print_insts: sort, then take out until no more than threshold are left. */
  function Flushed(st: State, threshold: nat): State {
    var q := Sort(st.queue);
    var k := if |q| > threshold then |q| - threshold else 0;
    State(q[k..], st.taken + q[..k])
  }

  /** queue_inst. */
  function Queued(st: State, x: Inst, limits: Limits): State {
    var st' := st.(queue := st.queue + [x]);
    if |st'.queue| > limits.max then Flushed(st', limits.min) else st'
  }

  /** The state after a number of arrivals. */
  function After(input: seq<Inst>, limits: Limits): State {
    if input == [] then State([], []) else Queued(After(input[..|input| - 1], limits), input[|input| - 1], limits)
  }

  /** What is taken out in all, with the flush at the end of the trace. */
  function Output(input: seq<Inst>, limits: Limits): seq<Inst> {
    Flushed(After(input, limits), 0).taken
  }

  /** Nothing is lost or duplicated, and counts of larger numbers add up. */
  ghost predicate Conserves(st: State, input: seq<Inst>) {
    && multiset(st.taken) + multiset(st.queue) == multiset(input)
    && forall sn :: CountsAdd(st, input, sn)
  }

  ghost predicate CountsAdd(st: State, input: seq<Inst>, sn: int) {
    Larger(st.taken, sn) + Larger(st.queue, sn) == Larger(input, sn)
  }

  lemma {:induction false} LargerConcat(a: seq<Inst>, b: seq<Inst>, sn: int)
    ensures Larger(a + b, sn) == Larger(a, sn) + Larger(b, sn)
  {
    if b == [] {
      assert a + b == a;
    } else {
      assert (a + b)[..|a + b| - 1] == a + b[..|b| - 1];
      LargerConcat(a, b[..|b| - 1], sn);
    }
  }

  lemma LargerSplit(q: seq<Inst>, k: nat, sn: int)
    requires k <= |q|
    ensures Larger(q, sn) == Larger(q[..k], sn) + Larger(q[k..], sn)
  {
    assert q == q[..k] + q[k..];
    LargerConcat(q[..k], q[k..], sn);
  }

  lemma SplitCounts(s: seq<Inst>, n: nat)
    requires n <= |s|
    ensures multiset(s) == multiset(s[..n]) + multiset(s[n..])
  {
    assert s == s[..n] + s[n..];
  }

  lemma FlushedConserves(st: State, threshold: nat, input: seq<Inst>)
    requires Conserves(st, input)
    ensures Conserves(Flushed(st, threshold), input)
  {
    var q := Sort(st.queue);
    var k := if |q| > threshold then |q| - threshold else 0;
    SortKeeps(st.queue);
    SplitCounts(q, k);
    assert multiset(st.taken + q[..k]) == multiset(st.taken) + multiset(q[..k]);
    forall sn
      ensures CountsAdd(Flushed(st, threshold), input, sn)
    {
      assert CountsAdd(st, input, sn);
      SortLarger(st.queue, sn);
      LargerSplit(q, k, sn);
      LargerConcat(st.taken, q[..k], sn);
    }
  }

  lemma AppendConserves(st: State, input: seq<Inst>, x: Inst)
    requires Conserves(st, input)
    ensures Conserves(st.(queue := st.queue + [x]), input + [x])
  {
    assert multiset(st.queue + [x]) == multiset(st.queue) + multiset{x};
    assert multiset(input + [x]) == multiset(input) + multiset{x};
    forall sn
      ensures CountsAdd(st.(queue := st.queue + [x]), input + [x], sn)
    {
      assert CountsAdd(st, input, sn);
      LargerSnoc(st.queue, x, sn);
      LargerSnoc(input, x, sn);
    }
  }

  /** How long the queue is after n arrivals, whatever they are. */
  function QueueLength(n: nat, limits: Limits): nat {
    if n == 0 then 0
    else if QueueLength(n - 1, limits) + 1 > limits.max then limits.min
    else QueueLength(n - 1, limits) + 1
  }

  /** Arrival number n makes the queue overflow, so that all but min instructions are taken out. */
  predicate FlushesAt(n: nat, limits: Limits) {
    n > 0 && QueueLength(n - 1, limits) + 1 > limits.max
  }

  /** Whatever the order of arrival, nothing is lost or duplicated and the queue stays within its limit. */
  lemma {:induction false} AfterConserves(input: seq<Inst>, limits: Limits)
    requires limits.min <= limits.max
    ensures Conserves(After(input, limits), input)
    ensures |After(input, limits).queue| == QueueLength(|input|, limits) <= limits.max
  {
    if input != [] {
      var input0, x := input[..|input| - 1], input[|input| - 1];
      assert input == input0 + [x];
      AfterConserves(input0, limits);
      var st := After(input0, limits);
      AppendConserves(st, input0, x);
      var st' := st.(queue := st.queue + [x]);
      FlushedConserves(st', limits.min, input);
      SortKeeps(st'.queue);
    }
  }

  /** At most min of the first n instructions have larger numbers than instruction i. */
  ghost predicate InTime(input: seq<Inst>, n: nat, i: nat, min: nat)
    requires n <= i < |input|
  {
    Larger(input[..n], input[i].sn) <= min
  }

  ghost predicate AllInTime(input: seq<Inst>, n: nat, min: nat)
    requires n <= |input|
  {
    forall i | n <= i < |input| :: InTime(input, n, i, min)
  }

  /** Whenever the queue overflows, everything still to come is in time. */
  ghost predicate OnTime(input: seq<Inst>, limits: Limits) {
    forall n | 0 <= n <= |input| && FlushesAt(n, limits) :: AllInTime(input, n, limits.min)
  }

  /** Every instruction has at most min larger-numbered ones before it. */
  ghost predicate NearlySorted(input: seq<Inst>, min: nat) {
    forall i | 0 <= i < |input| :: InTime(input, i, i, min)
  }

  lemma {:induction false} AllLarger(s: seq<Inst>, sn: int)
    requires forall x | x in s :: x.sn > sn
    ensures Larger(s, sn) == |s|
  {
    if s != [] {
      AllLarger(s[..|s| - 1], sn);
    }
  }

  lemma {:induction false} LargerPrefix(input: seq<Inst>, n: nat, i: nat, sn: int)
    requires n <= i <= |input|
    ensures Larger(input[..n], sn) <= Larger(input[..i], sn)
  {
    assert input[..i] == input[..n] + input[n..i];
    LargerConcat(input[..n], input[n..i], sn);
  }

  lemma TailLarger(q: seq<Inst>, k: nat, sn: int)
    requires Sorted(q) && k < |q| && q[k].sn > sn
    ensures Larger(q, sn) >= |q| - k
  {
    forall x | x in q[k..]
      ensures x.sn > sn
    {
      var j :| k <= j < |q| && q[j] == x;
      assert j == k || InOrder(q, k, j);
    }
    AllLarger(q[k..], sn);
    LargerSplit(q, k, sn);
  }

  /** When the queue is sorted, the instruction with min others behind it comes before everything still to arrive. */
  lemma NothingEarlier(input: seq<Inst>, n: nat, st: State, k: nat, min: nat, i: nat)
    requires n <= i < |input| && InTime(input, n, i, min) && Conserves(st, input[..n])
    requires Sorted(st.queue) && k + min < |st.queue|
    ensures st.queue[k].sn <= input[i].sn
  {
    var sn := input[i].sn;
    if st.queue[k].sn > sn {
      assert CountsAdd(st, input[..n], sn);
      TailLarger(st.queue, k, sn);
    }
  }

  lemma SortedConserves(st: State, input: seq<Inst>)
    requires Conserves(st, input)
    ensures Conserves(st.(queue := Sort(st.queue)), input)
  {
    SortKeeps(st.queue);
    forall sn
      ensures CountsAdd(st.(queue := Sort(st.queue)), input, sn)
    {
      assert CountsAdd(st, input, sn);
      SortLarger(st.queue, sn);
    }
  }

  lemma NothingEarlierAtAll(input: seq<Inst>, n: nat, st: State, k: nat, min: nat)
    requires n <= |input| && AllInTime(input, n, min) && Conserves(st, input[..n])
    requires Sorted(st.queue) && k + min < |st.queue|
    ensures NoneBelow(st.queue[k].sn, input[n..])
  {
    var rest := input[n..];
    forall x | x in rest
      ensures st.queue[k].sn <= x.sn
    {
      var j :| 0 <= j < |rest| && rest[j] == x;
      assert InTime(input, n, n + j, min);
      NothingEarlier(input, n, st, k, min, n + j);
    }
  }

  /** What has been taken out, followed by everything else in order. */
  function InAll(st: State, rest: seq<Inst>): seq<Inst> {
    st.taken + Sort(st.queue + rest)
  }

  lemma FlushSplits(st: State, min: nat, rest: seq<Inst>, k: nat)
    requires k == (if |Sort(st.queue)| > min then |Sort(st.queue)| - min else 0)
    requires k > 0 ==> NoneBelow(Sort(st.queue)[k - 1].sn, rest)
    ensures InAll(st, rest) == InAll(Flushed(st, min), rest)
  {
    var q := Sort(st.queue);
    SortKeeps(st.queue);
    TakeFirst(q, rest, k);
    SortPart(st.queue, rest);
    Assoc(st.taken, q[..k], Sort(q[k..] + rest));
  }

  lemma FlushSafe(input: seq<Inst>, n: nat, st: State, q: seq<Inst>, min: nat)
    requires n <= |input| && AllInTime(input, n, min) && Conserves(st, input[..n])
    requires q == Sort(st.queue) && |q| > min
    ensures NoneBelow(q[|q| - min - 1].sn, input[n..])
  {
    SortKeeps(st.queue);
    SortedConserves(st, input[..n]);
    NothingEarlierAtAll(input, n, st.(queue := q), |q| - min - 1, min);
  }

  lemma FlushKeepsOrder(input: seq<Inst>, n: nat, st: State, q: seq<Inst>, min: nat)
    requires n <= |input| && AllInTime(input, n, min) && Conserves(st, input[..n]) && q == Sort(st.queue)
    ensures InAll(st, input[n..]) == InAll(Flushed(st, min), input[n..])
  {
    if |q| > min {
      FlushSafe(input, n, st, q, min);
      FlushSplits(st, min, input[n..], |q| - min);
    } else {
      FlushSplits(st, min, input[n..], 0);
    }
  }

  /** At every moment, what has been taken out followed by everything else in order is the sorted input. */
  lemma {:induction false} AfterInOrder(input: seq<Inst>, limits: Limits, n: nat)
    requires limits.min <= limits.max && OnTime(input, limits) && n <= |input|
    ensures InAll(After(input[..n], limits), input[n..]) == Sort(input)
  {
    if n == 0 {
      assert input[..0] == [] && [] + input[0..] == input;
    } else {
      AfterInOrder(input, limits, n - 1);
      var st, x := After(input[..n - 1], limits), input[n - 1];
      var st' := st.(queue := st.queue + [x]);
      AfterNext(input, limits, n);
      Arrives(st.queue, input, n);
      AfterConserves(input[..n - 1], limits);
      AppendConserves(st, input[..n - 1], x);
      if FlushesAt(n, limits) {
        FlushKeepsOrder(input, n, st', Sort(st'.queue), limits.min);
      }
    }
  }

  lemma AfterNext(input: seq<Inst>, limits: Limits, n: nat)
    requires 1 <= n <= |input|
    ensures After(input[..n], limits) == Queued(After(input[..n - 1], limits), input[n - 1], limits)
  {
    assert input[..n][..n - 1] == input[..n - 1];
  }

  lemma Arrives(queue: seq<Inst>, input: seq<Inst>, n: nat)
    requires 1 <= n <= |input|
    ensures queue + input[n - 1..] == (queue + [input[n - 1]]) + input[n..]
    ensures input[..n - 1] + [input[n - 1]] == input[..n]
  {
  }

  /** In any case the output is the input, in some order. */
  lemma OutputConserves(input: seq<Inst>, limits: Limits)
    requires limits.min <= limits.max
    ensures multiset(Output(input, limits)) == multiset(input)
  {
    AfterConserves(input, limits);
    FlushedConserves(After(input, limits), 0, input);
    SortKeeps(After(input, limits).queue);
    assert Flushed(After(input, limits), 0).queue == [];
  }

  lemma {:induction false} LargerAtMost(s: seq<Inst>, sn: int)
    ensures Larger(s, sn) <= |s|
    ensures Larger(s, sn) > 0 ==> exists k :: 0 <= k < |s| && s[k].sn > sn
  {
    if s != [] {
      LargerAtMost(s[..|s| - 1], sn);
      if Larger(s[..|s| - 1], sn) > 0 {
        var k :| 0 <= k < |s| - 1 && s[..|s| - 1][k].sn > sn;
        assert s[k].sn > sn;
      }
    }
  }

  /** What has been taken out is never taken back. */
  lemma {:induction false} TakenStays(input: seq<Inst>, limits: Limits, n: nat)
    requires n <= |input|
    ensures After(input[..n], limits).taken <= Output(input, limits)
    decreases |input| - n
  {
    if n < |input| {
      AfterNext(input, limits, n + 1);
      TakenStays(input, limits, n + 1);
    } else {
      assert input[..n] == input;
    }
  }

  lemma RestHolds(taken: multiset<Inst>, rest: multiset<Inst>, queue: multiset<Inst>,
                  before: multiset<Inst>, after: multiset<Inst>, y: Inst)
    requires taken + rest == before + after && taken + queue == before && y in after
    ensures y in rest
  {
    assert (taken + rest)[y] == (taken + queue + after)[y];
  }

  /** Every instruction that arrives later is put out later. */
  lemma LaterIsAfter(input: seq<Inst>, limits: Limits, n: nat, i: nat) returns (j: nat)
    requires limits.min <= limits.max && n <= i < |input|
    ensures |After(input[..n], limits).taken| <= j < |Output(input, limits)| && Output(input, limits)[j] == input[i]
  {
    var taken, out, y := After(input[..n], limits).taken, Output(input, limits), input[i];
    TakenStays(input, limits, n);
    OutputConserves(input, limits);
    AfterConserves(input[..n], limits);
    var rest := out[|taken|..];
    assert input[n..][i - n] == y;
    SplitCounts(out, |taken|);
    SplitCounts(input, n);
    assert out[..|taken|] == taken;
    RestHolds(multiset(taken), multiset(rest), multiset(After(input[..n], limits).queue),
              multiset(input[..n]), multiset(input[n..]), y);
    var k :| 0 <= k < |rest| && rest[k] == y;
    j := |taken| + k;
  }

  /** An instruction that comes too late appears out of order. */
  lemma LateIsOutOfOrder(input: seq<Inst>, limits: Limits, n: nat, i: nat)
    requires limits.min <= limits.max && FlushesAt(n, limits) && n <= i < |input| && !InTime(input, n, i, limits.min)
    ensures !Sorted(Output(input, limits))
  {
    var st, sn := After(input[..n], limits), input[i].sn;
    AfterConserves(input[..n], limits);
    assert CountsAdd(st, input[..n], sn);
    LargerAtMost(st.queue, sn);
    LargerAtMost(st.taken, sn);
    var k :| 0 <= k < |st.taken| && st.taken[k].sn > sn;
    TakenStays(input, limits, n);
    var j := LaterIsAfter(input, limits, n, i);
    assert !InOrder(Output(input, limits), k, j);
  }

  /** The output is the input in order if and only if, whenever the queue overflows, at most min of the instructions
      so far have larger numbers than any that is still to come. */
  lemma OutputInOrderIff(input: seq<Inst>, limits: Limits)
    requires limits.min <= limits.max
    ensures Output(input, limits) == Sort(input) <==> OnTime(input, limits)
  {
    if OnTime(input, limits) {
      var st := After(input, limits);
      AfterInOrder(input, limits, |input|);
      assert input[..|input|] == input && st.queue + input[|input|..] == st.queue;
      assert Sort(st.queue)[..|Sort(st.queue)|] == Sort(st.queue);
    } else {
      var n :| 0 <= n <= |input| && FlushesAt(n, limits) && !AllInTime(input, n, limits.min);
      var i :| n <= i < |input| && !InTime(input, n, i, limits.min);
      LateIsOutOfOrder(input, limits, n, i);
      SortKeeps(input);
    }
  }

  /** In particular, if no instruction has more than min larger-numbered ones before it, the output is in order. */
  lemma OutputInOrder(input: seq<Inst>, limits: Limits)
    requires limits.min <= limits.max && NearlySorted(input, limits.min)
    ensures Output(input, limits) == Sort(input)
  {
    forall n, i | 0 <= n <= i < |input|
      ensures InTime(input, n, i, limits.min)
    {
      assert InTime(input, i, i, limits.min);
      LargerPrefix(input, n, i, input[i].sn);
    }
    OutputInOrderIff(input, limits);
  }

  // ----- printing -----

  /** The filter of print_insts. */
  predicate Shown(b: Bounds, x: Inst) {
    && !(b.snStart > 0 && x.sn < b.snStart)
    && !(b.snStop > 0 && x.sn > b.snStop)
    && !(b.tickStart > 0 && x.fetch < b.tickStart)
    && !(b.tickStop > 0 && x.fetch > b.tickStop)
    && !(b.onlyCommitted && x.retire == 0)
  }

  function Filtered(b: Bounds, s: seq<Inst>): seq<Inst> {
    if s == [] then [] else Filtered(b, s[..|s| - 1]) + if Shown(b, s[|s| - 1]) then [s[|s| - 1]] else []
  }

  lemma FilteredSnoc(b: Bounds, s: seq<Inst>, x: Inst)
    ensures Filtered(b, s + [x]) == if Shown(b, x) then Filtered(b, s) + [x] else Filtered(b, s)
  {
    assert (s + [x])[..|s|] == s;
  }

  /** out has an instruction as often as s if its numbers are within the bounds that are set and, where only committed
      ones are wanted, it was retired; otherwise never. */
  ghost predicate PassesThrough(b: Bounds, s: seq<Inst>, out: seq<Inst>, x: Inst) {
    multiset(out)[x] ==
      if
        && (b.snStart > 0 ==> b.snStart <= x.sn) && (b.snStop > 0 ==> x.sn <= b.snStop)
        && (b.tickStart > 0 ==> b.tickStart <= x.fetch) && (b.tickStop > 0 ==> x.fetch <= b.tickStop)
        && (b.onlyCommitted ==> x.retire != 0)
      then multiset(s)[x] else 0
  }

  lemma {:induction false} FilteredAre(b: Bounds, s: seq<Inst>, x: Inst)
    ensures PassesThrough(b, s, Filtered(b, s), x)
  {
    if s != [] {
      var s0, y := s[..|s| - 1], s[|s| - 1];
      assert s == s0 + [y];
      FilteredAre(b, s0, x);
    }
  }

  lemma FilteredIn(b: Bounds, s: seq<Inst>, i: nat) returns (k: nat)
    requires i < |Filtered(b, s)|
    ensures k < |s| && s[k] == Filtered(b, s)[i]
  {
    var x := Filtered(b, s)[i];
    assert x in multiset(Filtered(b, s));
    FilteredAre(b, s, x);
    assert x in multiset(s);
    k :| k < |s| && s[k] == x;
  }

  lemma {:induction false} FilteredSorted(b: Bounds, s: seq<Inst>)
    requires Sorted(s)
    ensures Sorted(Filtered(b, s))
  {
    if s != [] {
      var s0, y := s[..|s| - 1], s[|s| - 1];
      assert s == s0 + [y];
      SortedPart(s, 0, |s| - 1);
      FilteredSorted(b, s0);
      FilteredSnoc(b, s0, y);
      forall i | 0 <= i < |Filtered(b, s0)|
        ensures Filtered(b, s0)[i].sn <= y.sn
      {
        var k := FilteredIn(b, s0, i);
        assert InOrder(s, k, |s| - 1);
      }
      SortedSnoc(Filtered(b, s0), y);
    }
  }

  /** What is printed, whatever the order of arrival, and its order for a trace that is on time. */
  lemma PrintedIs(b: Bounds, input: seq<Inst>, limits: Limits)
    requires limits.min <= limits.max
    ensures forall x :: PassesThrough(b, input, Filtered(b, Output(input, limits)), x)
    ensures OnTime(input, limits) ==>
      Output(input, limits) == Sort(input) && Sorted(Filtered(b, Output(input, limits)))
  {
    OutputConserves(input, limits);
    forall x
      ensures PassesThrough(b, input, Filtered(b, Output(input, limits)), x)
    {
      FilteredAre(b, Output(input, limits), x);
    }
    if OnTime(input, limits) {
      OutputInOrderIff(input, limits);
      SortKeeps(input);
      FilteredSorted(b, Sort(input));
    }
  }

  lemma TakeNext(q: seq<Inst>, t: seq<Inst>, k: nat)
    requires k < |q|
    ensures q[k..][0] == q[k] && q[k..][1..] == q[k + 1..] && t + q[..k] + [q[k]] == t + q[..k + 1]
  {
  }

  class Viewer {
    const limits: Limits
    const bounds: Bounds
    var queue: seq<Inst>
    var printed: seq<Inst>
    ghost var taken: seq<Inst>

    constructor (limits: Limits, bounds: Bounds)
      ensures this.limits == limits && this.bounds == bounds && View() == State([], []) && Valid()
    {
      this.limits, this.bounds := limits, bounds;
      queue, printed, taken := [], [], [];
    }

    ghost function View(): State
      reads this
    {
      State(queue, taken)
    }

    ghost predicate Valid()
      reads this
    {
      printed == Filtered(bounds, taken)
    }

    /** What the loop of print_insts keeps after k turns. */
    ghost predicate Popped(q: seq<Inst>, t: seq<Inst>, k: nat)
      reads this
    {
      Valid() && k <= |q| && queue == q[k..] && taken == t + q[..k]
    }

    /** One turn of the loop of print_insts. */
    method PrintNext(ghost q: seq<Inst>, ghost t: seq<Inst>, ghost k: nat)
      requires Popped(q, t, k) && queue != []
      modifies this
      ensures Popped(q, t, k + 1)
    {
      var item := queue[0];
      FilteredSnoc(bounds, taken, item);
      TakeNext(q, t, k);
      queue := queue[1..];
      taken := taken + [item];
      if Shown(bounds, item) {
        printed := printed + [item];
      }
    }

    /** The loop of print_insts. */
    method PrintFirst(threshold: nat)
      requires Valid()
      modifies this
      ensures Valid()
      ensures var k := if old(|queue|) > threshold then old(|queue|) - threshold else 0;
        queue == old(queue)[k..] && taken == old(taken) + old(queue)[..k]
    {
      ghost var q, t, k := queue, taken, 0;
      while |queue| > threshold
        invariant Popped(q, t, k) && (k > 0 ==> |q| - k >= threshold)
      {
        PrintNext(q, t, k);
        k := k + 1;
      }
    }

    method PrintInsts(threshold: nat)
      requires Valid()
      modifies this
      ensures Valid() && View() == Flushed(old(View()), threshold)
    {
      queue := Sort(queue);
      PrintFirst(threshold);
    }

    method QueueInst(inst: Inst)
      requires Valid()
      modifies this
      ensures Valid() && View() == Queued(old(View()), inst, limits)
      ensures old(|queue|) < limits.max ==> queue == old(queue) + [inst] && printed == old(printed)
      ensures old(|queue|) >= limits.max >= limits.min ==> |queue| == limits.min
    {
      SortKeeps(queue + [inst]);
      queue := queue + [inst];
      if |queue| > limits.max {
        PrintInsts(limits.min);
      }
    }

    /** The whole trace, up to its end. */
    method ProcessTrace(input: seq<Inst>)
      requires Valid() && View() == State([], []) && limits.min <= limits.max
      modifies this
      ensures printed == Filtered(bounds, Output(input, limits))
      ensures OnTime(input, limits) ==> printed == Filtered(bounds, Sort(input)) && Sorted(printed)
      ensures forall x :: PassesThrough(bounds, input, printed, x)
    {
      for i := 0 to |input|
        invariant Valid() && View() == After(input[..i], limits) && |queue| <= limits.max
      {
        QueueInst(input[i]);
        assert input[..i + 1][..i] == input[..i];
        AfterConserves(input[..i + 1], limits);
      }
      assert input[..|input|] == input;
      PrintInsts(0);
      PrintedIs(bounds, input, limits);
    }
  }
}
