/** The process scheduler of schedule.c: timer ticks, sleeping, cloning, exiting and alarms. */
module Scheduler {

  datatype Status = Unused | New | Ready | Running | Waiting | Exiting

  /** What the scheduler uses of an exec_context; its pid is its place in the table. */
  datatype Context = Context(status: Status, sleep: nat, config: nat, alarm: nat)

  type Table = t: seq<Context> | |t| == 16 witness seq(16, _ => Context(Unused, 0, 0, 0))

  type Pid = p: nat | p < 16

  /** up is false once do_cleanup has shut the machine down. */
  datatype Machine = Machine(table: Table, current: Pid, up: bool)

  datatype Event = Tick | Sleep(ticks: nat) | Clone(slot: Pid) | Exit | Alarm(ticks: nat)

  // ----- what each event does -----

  /** Every context but the current one sleeps one tick less. */
  function Slept(s: Machine, i: Pid): Context {
    var c := s.table[i];
    if i != s.current && c.sleep > 0 then c.(sleep := c.sleep - 1) else c
  }

  function Accounted(s: Machine): Machine {
    s.(table := seq(16, i requires 0 <= i < 16 => Slept(s, i)))
  }

  /** Whether a tick raises SIGALRM for the current context. */
  predicate Rings(s: Machine) {
    s.table[s.current].alarm == 0 && s.table[s.current].config != 0
  }

  function Rung(s: Machine): Machine {
    var c := s.table[s.current];
    if c.alarm > 0 then s.(table := s.table[s.current := c.(alarm := c.alarm - 1)])
    else if Rings(s) then s.(table := s.table[s.current := c.(alarm := c.config)])
    else s
  }

  predicate Expired(c: Context) {
    c.status == Waiting && c.sleep == 0
  }

  predicate Wanted(c: Context, ready: bool) {
    if ready then c.status == Ready else Expired(c)
  }

  /** The lowest-numbered context, from a number on, that is ready or has slept enough; 16 if there is none. */
  function First(table: Table, from: nat, ready: bool): (p: nat)
    requires from <= 16
    ensures from <= p <= 16 && (p < 16 ==> Wanted(table[p], ready))
    ensures forall q | from <= q < p :: !Wanted(table[q], ready)
    decreases 16 - from
  {
    if from == 16 then 16 else if Wanted(table[from], ready) then from else First(table, from + 1, ready)
  }

  function WithStatus(s: Machine, p: Pid, status: Status): Machine {
    s.(table := s.table[p := s.table[p].(status := status)])
  }

  function Switched(s: Machine, p: Pid): Machine {
    WithStatus(s, p, Running).(current := p)
  }

  /** handle_timer_tick. */
  function Ticked(s: Machine): Machine {
    var a := Rung(Accounted(s));
    var p := First(a.table, 0, false);
    if p < 16 then Switched(WithStatus(a, a.current, Ready), p) else a
  }

  /** do_sleep: wait, and let the swapper run. */
  function Asleep(s: Machine, ticks: nat): Machine {
    Switched(s.(table := s.table[s.current := s.table[s.current].(sleep := ticks, status := Waiting)]), 0)
  }

  predicate AnyLive(table: Table) {
    exists i :: 1 <= i < 16 && table[i].status != Unused
  }

  /** do_exit: run the next ready context above, if any; shut down if only the swapper is left. */
  function Exited(s: Machine): Machine {
    var a := WithStatus(s, s.current, Unused);
    var p := First(a.table, a.current + 1, true);
    if !AnyLive(a.table) then a.(up := false) else if p < 16 then Switched(a, p) else a
  }

  function Next(s: Machine, e: Event): Machine {
    match e
    case Tick => Ticked(s)
    case Sleep(ticks) => Asleep(s, ticks)
    case Clone(slot) => s.(table := s.table[slot := Context(Ready, 0, 0, 0)])
    case Exit => Exited(s)
    case Alarm(ticks) => s.(table := s.table[s.current := s.table[s.current].(alarm := ticks, config := ticks)])
  }

  /** get_new_ctx hands out an unused slot. */
  predicate Enabled(s: Machine, e: Event) {
    s.up && (e.Clone? ==> s.table[e.slot].status == Unused)
  }

  /** On a tick this context will have slept enough: it waits, and its last tick is over or is this one. */
  predicate Due(s: Machine, p: Pid) {
    var c := s.table[p];
    c.status == Waiting && (c.sleep == 0 || (c.sleep == 1 && p != s.current))
  }

  /** p is the first context that is due; 16 if none is. */
  ghost predicate FirstDue(s: Machine, p: nat) {
    p <= 16 && (p < 16 ==> Due(s, p)) && forall q | 0 <= q < p && q < 16 :: !Due(s, q)
  }

  lemma AccountedAt(s: Machine, q: Pid)
    ensures var a := Rung(Accounted(s)); a.current == s.current && a.up == s.up && (Expired(a.table[q]) <==> Due(s, q))
    ensures var a, c := Rung(Accounted(s)), s.table[q];
      && a.table[q].sleep == (if q != s.current && c.sleep > 0 then c.sleep - 1 else c.sleep)
      && a.table[q].alarm == (if q != s.current then c.alarm else if c.alarm > 0 then c.alarm - 1 else c.config)
      && a.table[q].config == c.config && a.table[q].status == c.status
  {
  }

  lemma FirstDueIs(s: Machine, p: nat)
    requires FirstDue(s, p)
    ensures First(Rung(Accounted(s)).table, 0, false) == p
  {
    forall q: Pid
      ensures Wanted(Rung(Accounted(s)).table[q], false) <==> Due(s, q)
    {
      AccountedAt(s, q);
    }
  }

  /** A tick, context by context: the first that is due runs instead of the current one, which is then ready; every
      other sleeper has a tick less to sleep, and the current context a tick less to its alarm, or a new period. */
  lemma TickIs(s: Machine, p: nat, q: Pid)
    requires FirstDue(s, p)
    ensures var t := Next(s, Tick); t.up == s.up && t.current == if p < 16 then p else s.current
    ensures var c, d := s.table[q], Next(s, Tick).table[q];
      && d.sleep == (if q != s.current && c.sleep > 0 then c.sleep - 1 else c.sleep)
      && d.alarm == (if q != s.current then c.alarm else if c.alarm > 0 then c.alarm - 1 else c.config)
      && d.config == c.config
      && d.status ==
         (if q == p then Running else if p < 16 && q == s.current then Ready else c.status)
  {
    AccountedAt(s, q);
    FirstDueIs(s, p);
  }

  /** p is the first ready context above another; 16 if there is none. */
  ghost predicate FirstReady(table: Table, above: Pid, p: nat) {
    && above < p <= 16 && (p < 16 ==> table[p].status == Ready)
    && forall q | above < q < p && q < 16 :: table[q].status != Ready
  }

  /** An exit, context by context: the first ready one above runs, if there is one; the machine goes down exactly when
      no context but the swapper is left. */
  lemma ExitIs(s: Machine, p: nat, q: Pid)
    requires FirstReady(s.table, s.current, p)
    ensures var t := Next(s, Exit); t.current == if p < 16 then p else s.current
    ensures Next(s, Exit).up <==> s.up && exists i :: 1 <= i < 16 && i != s.current && s.table[i].status != Unused
    ensures Next(s, Exit).table[q] ==
      if q == s.current then s.table[q].(status := Unused)
      else if q == p then s.table[q].(status := Running)
      else s.table[q]
  {
    var a := WithStatus(s, s.current, Unused);
    var f := First(a.table, a.current + 1, true);
    assert f == p by {
      assert f < 16 ==> a.table[f] == s.table[f];
      assert p < 16 ==> a.table[p] == s.table[p];
    }
    assert AnyLive(a.table) <==> exists i :: 1 <= i < 16 && i != s.current && s.table[i].status != Unused by {
      if i :| 1 <= i < 16 && i != s.current && s.table[i].status != Unused {
        assert a.table[i].status != Unused;
      }
      if i :| 1 <= i < 16 && a.table[i].status != Unused {
        assert i != s.current;
      }
    }
    if p < 16 {
      assert a.table[p].status != Unused;
    }
  }

  /** The same for the whole table. */
  lemma ExitedIs(s: Machine)
    ensures var t := Next(s, Exit);
      && (forall p: nat | FirstReady(s.table, s.current, p) ::
            t.current == (if p < 16 then p else s.current) && (p < 16 ==> t.table[p].status == Running))
      && (t.up <==> s.up && exists i :: 1 <= i < 16 && i != s.current && s.table[i].status != Unused)
      && t.table[s.current] == s.table[s.current].(status := Unused)
      && forall i: Pid | i != s.current && i != t.current :: t.table[i] == s.table[i]
  {
    var first := First(s.table, s.current + 1, true);
    forall p: nat | FirstReady(s.table, s.current, p)
      ensures p == first
    {
    }
    forall q: Pid
      ensures q != s.current && q != Next(s, Exit).current ==> Next(s, Exit).table[q] == s.table[q]
    {
      ExitIs(s, first, q);
    }
    ExitIs(s, first, s.current);
    if first < 16 {
      ExitIs(s, first, first);
    }
  }

  ghost predicate IsRun(states: seq<Machine>, events: seq<Event>) {
    |states| == |events| + 1 && forall i | 0 <= i < |events| :: StepAt(states, events, i)
  }

  predicate StepAt(states: seq<Machine>, events: seq<Event>, i: nat)
    requires i < |events| && |states| == |events| + 1
  {
    Enabled(states[i], events[i]) && states[i + 1] == Next(states[i], events[i])
  }

  // ----- only the current context runs -----

  ghost predicate OnlyCurrentRuns(s: Machine) {
    forall i | 0 <= i < 16 && i != s.current :: s.table[i].status != Running
  }

  lemma NextOnlyCurrentRuns(s: Machine, e: Event)
    requires OnlyCurrentRuns(s)
    ensures OnlyCurrentRuns(Next(s, e))
  {
    if e == Tick {
      var a := Rung(Accounted(s));
      assert OnlyCurrentRuns(a);
      var p := First(a.table, 0, false);
      if p < 16 {
        var b := WithStatus(a, a.current, Ready);
        assert forall i | 0 <= i < 16 :: b.table[i].status != Running;
      }
    }
  }

  /** In every run, no context but the current one is ever running. */
  lemma {:induction false} RunOnlyCurrentRuns(states: seq<Machine>, events: seq<Event>, n: nat)
    requires IsRun(states, events) && n < |states| && OnlyCurrentRuns(states[0])
    ensures OnlyCurrentRuns(states[n])
  {
    if n > 0 {
      RunOnlyCurrentRuns(states, events, n - 1);
      NextOnlyCurrentRuns(states[n - 1], events[n - 1]);
      assert states[n] == Next(states[n - 1], events[n - 1]) by {
        assert StepAt(states, events, n - 1);
      }
    }
  }

  // ----- sleeping -----

  /** On the next tick p has slept enough and no lower-numbered context has. */
  ghost predicate Wakes(s: Machine, p: Pid) {
    Expired(Slept(s, p)) && forall q | 0 <= q < p :: !Expired(Slept(s, q))
  }

  lemma TickStart(s: Machine, q: Pid)
    ensures var a := Rung(Accounted(s));
      && a.current == s.current && a.up == s.up
      && a.table[q].status == s.table[q].status && a.table[q].sleep == Slept(s, q).sleep
  {
  }

  /** A tick makes a waiting context current exactly when it wakes; otherwise the context waits on, with one tick
      less. */
  lemma TickWakesIff(s: Machine, p: Pid)
    requires p != s.current && s.table[p].status == Waiting
    ensures Wakes(s, p) <==> Ticked(s).current == p
    ensures Wakes(s, p) ==> Ticked(s).table[p].status == Running
    ensures !Wakes(s, p) ==> Ticked(s).table[p].status == Waiting && Ticked(s).table[p].sleep == Slept(s, p).sleep
  {
    var a := Rung(Accounted(s));
    forall q | 0 <= q < 16
      ensures Wanted(a.table[q], false) <==> Expired(Slept(s, q))
    {
      TickStart(s, q);
    }
    TickStart(s, p);
    var f := First(a.table, 0, false);
    assert Wakes(s, p) <==> f == p;
  }

  /** How many of the events from one to another are ticks. */
  function Ticks(events: seq<Event>, lo: nat, hi: nat): nat
    requires lo <= hi <= |events|
    decreases hi
  {
    if lo == hi then 0 else Ticks(events, lo, hi - 1) + if events[hi - 1].Tick? then 1 else 0
  }

  function Left(t: nat, k: nat): nat {
    if t > k then t - k else 0
  }

  predicate Asleeps(s: Machine, p: Pid, sleep: nat) {
    s.current != p && s.table[p].status == Waiting && s.table[p].sleep == sleep
  }

  /** No event but a waking tick ends a sleep, and only ticks count. */
  lemma SleepStep(s: Machine, e: Event, p: Pid, sleep: nat)
    requires p != 0 && Asleeps(s, p, sleep) && Enabled(s, e) && (e.Tick? ==> !Wakes(s, p))
    ensures Asleeps(Next(s, e), p, if e.Tick? then Left(sleep, 1) else sleep)
  {
    if e.Tick? {
      TickWakesIff(s, p);
    }
  }

  /** p went to sleep for t ticks at the first event and has not been woken up to event n. */
  ghost predicate Sleeping(states: seq<Machine>, events: seq<Event>, p: Pid, t: nat, n: nat) {
    && IsRun(states, events) && p != 0 && 1 <= n <= |events| && events[0] == Sleep(t) && states[0].current == p
    && forall i | 1 <= i < n && events[i].Tick? :: !Wakes(states[i], p)
  }

  /** Until it wakes, a sleeper waits with max(t - k, 0) ticks left after k ticks, in every interleaving. */
  lemma {:induction false} SleeperCounts(states: seq<Machine>, events: seq<Event>, p: Pid, t: nat, n: nat)
    requires Sleeping(states, events, p, t, n)
    ensures Asleeps(states[n], p, Left(t, Ticks(events, 1, n)))
    decreases n
  {
    assert StepAt(states, events, n - 1);
    if n > 1 {
      SleeperCounts(states, events, p, t, n - 1);
      SleepStep(states[n - 1], events[n - 1], p, Left(t, Ticks(events, 1, n - 1)));
    }
  }

  /** It resumes on the first tick on which it wakes, and that is at least tick max(t, 1). */
  lemma SleeperResumes(states: seq<Machine>, events: seq<Event>, p: Pid, t: nat, n: nat)
    requires Sleeping(states, events, p, t, n) && n < |events| && events[n] == Tick && Wakes(states[n], p)
    ensures states[n + 1].current == p && states[n + 1].table[p].status == Running
    ensures Ticks(events, 1, n + 1) >= if t > 1 then t else 1
  {
    SleeperCounts(states, events, p, t, n);
    TickWakesIff(states[n], p);
    assert StepAt(states, events, n);
  }

  /** It waits until at least tick max(t, 1). */
  lemma {:induction false} SleeperWaits(states: seq<Machine>, events: seq<Event>, p: Pid, t: nat, n: nat)
    requires IsRun(states, events) && p != 0 && 1 <= n <= |events| && events[0] == Sleep(t) && states[0].current == p
    requires Ticks(events, 1, n) < if t > 1 then t else 1
    ensures Sleeping(states, events, p, t, n) && states[n].table[p].status == Waiting
    decreases n
  {
    if n > 1 {
      SleeperWaits(states, events, p, t, n - 1);
      SleeperCounts(states, events, p, t, n - 1);
    }
    SleeperCounts(states, events, p, t, n);
  }

  /** An exited context that is still current, because nothing above it was ready, is made ready again by a tick
      exactly when some sleeper has slept enough. */
  lemma ExitedRevivesIff(s: Machine)
    requires s.table[s.current].status == Unused
    ensures Ticked(s).table[s.current].status == Ready <==> exists q: Pid :: Expired(Slept(s, q))
  {
    var a := Rung(Accounted(s));
    forall q | 0 <= q < 16
      ensures Wanted(a.table[q], false) <==> Expired(Slept(s, q))
    {
      TickStart(s, q);
    }
    TickStart(s, s.current);
    var f := First(a.table, 0, false);
    assert f < 16 ==> Expired(Slept(s, f));
  }

  /** Nothing above the current context is ready, and context q is about to wake up. */
  predicate Stranded(s: Machine, q: Pid) {
    && s.up && 1 <= q && q != s.current && s.table[q].status == Waiting && s.table[q].sleep <= 1
    && forall i | s.current < i < 16 :: s.table[i].status != Ready
  }

  lemma StrandedExit(s: Machine, q: Pid)
    requires Stranded(s, q)
    ensures Exited(s) == WithStatus(s, s.current, Unused)
  {
    var a := WithStatus(s, s.current, Unused);
    assert a.table[q].status != Unused && AnyLive(a.table);
    assert First(a.table, a.current + 1, true) == 16;
  }

  /** A process that exits like that is ready again after the next tick. */
  lemma StrandedRevives(s: Machine, q: Pid)
    requires Stranded(s, q)
    ensures IsRun([s, Exited(s), Ticked(Exited(s))], [Exit, Tick])
    ensures Exited(s).table[s.current].status == Unused && Ticked(Exited(s)).table[s.current].status == Ready
  {
    StrandedExit(s, q);
    var s1 := WithStatus(s, s.current, Unused);
    assert Expired(Slept(s1, q));
    ExitedRevivesIff(s1);
    var states, events := [s, s1, Ticked(s1)], [Exit, Tick];
    assert StepAt(states, events, 0) && StepAt(states, events, 1);
    TwoSteps(states, events);
  }

  lemma TwoSteps(states: seq<Machine>, events: seq<Event>)
    requires |states| == 3 && |events| == 2 && StepAt(states, events, 0) && StepAt(states, events, 1)
    ensures IsRun(states, events)
  {
    forall i | 0 <= i < 2
      ensures StepAt(states, events, i)
    {
      if i != 0 {
        assert i == 1;
      }
    }
  }

  /** It happens when process 1 exits while process 2 is asleep. */
  lemma ExitedCanRevive()
    ensures exists s: Machine :: OnlyCurrentRuns(s) && s.current == 1 && s.table[1].status == Running && Stranded(s, 2)
  {
    var table: Table := seq(16, i =>
      Context(if i == 0 then Ready else if i == 1 then Running else if i == 2 then Waiting else Unused,
              if i == 2 then 1 else 0, 0, 0));
    var s := Machine(table, 1, true);
    assert Stranded(s, 2);
  }

  // ----- alarms -----

  /** How many of the events from 1 to n are ticks on which p is current, and how many of those raise SIGALRM. */
  function OwnTicks(states: seq<Machine>, events: seq<Event>, p: Pid, n: nat): nat
    requires 1 <= n <= |events| <= |states|
  {
    if n == 1 then 0
    else OwnTicks(states, events, p, n - 1) + if events[n - 1].Tick? && states[n - 1].current == p then 1 else 0
  }

  function Raised(states: seq<Machine>, events: seq<Event>, p: Pid, n: nat): nat
    requires 1 <= n <= |events| <= |states|
  {
    if n == 1 then 0
    else
      var rings := events[n - 1].Tick? && states[n - 1].current == p && Rings(states[n - 1]);
      Raised(states, events, p, n - 1) + if rings then 1 else 0
  }

  /** Other events leave the alarm of p alone. */
  predicate Spares(s: Machine, e: Event, p: Pid) {
    (e.Alarm? ==> s.current != p) && (e.Clone? ==> e.slot != p)
  }

  lemma TickAlarm(s: Machine, p: Pid)
    ensures var c, c' := s.table[p], Ticked(s).table[p];
      && c'.config == c.config
      && c'.alarm == if s.current != p then c.alarm else if c.alarm > 0 then c.alarm - 1 else c.config
  {
    AccountAlarm(s, p);
    RingAlarm(Accounted(s), p);
    SwitchAlarm(Rung(Accounted(s)), p);
  }

  lemma AccountAlarm(s: Machine, p: Pid)
    ensures Accounted(s).table[p].config == s.table[p].config && Accounted(s).table[p].alarm == s.table[p].alarm
  {
  }

  lemma RingAlarm(s: Machine, p: Pid)
    ensures var c, c' := s.table[p], Rung(s).table[p];
      && c'.config == c.config
      && c'.alarm == if s.current != p then c.alarm else if c.alarm > 0 then c.alarm - 1 else c.config
  {
  }

  lemma SwitchAlarm(a: Machine, p: Pid)
    ensures var q := First(a.table, 0, false);
      q < 16 ==>
        var b := Switched(WithStatus(a, a.current, Ready), q);
        b.table[p].config == a.table[p].config && b.table[p].alarm == a.table[p].alarm
  {
  }

  lemma ExitAlarm(s: Machine, p: Pid)
    ensures Exited(s).table[p].config == s.table[p].config && Exited(s).table[p].alarm == s.table[p].alarm
  {
  }

  lemma AlarmStep(s: Machine, e: Event, p: Pid)
    requires Spares(s, e, p)
    ensures var c, c' := s.table[p], Next(s, e).table[p];
      && c'.config == c.config
      && c'.alarm == if !e.Tick? || s.current != p then c.alarm else if c.alarm > 0 then c.alarm - 1 else c.config
  {
    match e
    case Tick => TickAlarm(s, p);
    case Exit => ExitAlarm(s, p);
    case Sleep(ticks) =>
    case Clone(slot) =>
    case Alarm(ticks) =>
  }

  lemma AlarmStepAt(states: seq<Machine>, events: seq<Event>, p: Pid, i: nat)
    requires IsRun(states, events) && i < |events| && Spares(states[i], events[i], p)
    ensures var c, c' := states[i].table[p], states[i + 1].table[p];
      && c'.config == c.config
      && c'.alarm == if !events[i].Tick? || states[i].current != p then c.alarm
                     else if c.alarm > 0 then c.alarm - 1 else c.config
  {
    assert StepAt(states, events, i);
    AlarmStep(states[i], events[i], p);
  }

  lemma {:induction false} AlarmCounts(states: seq<Machine>, events: seq<Event>, p: Pid, t: nat, n: nat)
    requires IsRun(states, events) && 1 <= n <= |events| && t > 0 && events[0] == Alarm(t) && states[0].current == p
    requires forall i | 1 <= i < n :: Spares(states[i], events[i], p)
    ensures states[n].table[p].config == t && states[n].table[p].alarm <= t
    ensures OwnTicks(states, events, p, n) == Raised(states, events, p, n) * (t + 1) + (t - states[n].table[p].alarm)
    decreases n
  {
    if n == 1 {
      assert StepAt(states, events, 0);
    } else {
      var s, e := states[n - 1], events[n - 1];
      AlarmCounts(states, events, p, t, n - 1);
      AlarmStepAt(states, events, p, n - 1);
      CountStep(OwnTicks(states, events, p, n - 1), Raised(states, events, p, n - 1), t, s.table[p].alarm,
                e.Tick? && s.current == p);
    }
  }

  /** One tick of its own takes one from the alarm, or raises the signal and starts over. */
  lemma CountStep(own: nat, raised: nat, t: nat, alarm: nat, ticks: bool)
    requires alarm <= t && own == raised * (t + 1) + (t - alarm)
    ensures ticks && alarm > 0 ==> own + 1 == raised * (t + 1) + (t - (alarm - 1))
    ensures ticks && alarm == 0 ==> own + 1 == (raised + 1) * (t + 1) + (t - t)
  {
  }

  lemma AtLeastOnce(k: int, d: nat)
    requires k >= 1
    ensures k * d >= d
  {
  }

  lemma Quotient(n: nat, q: nat, d: nat, r: nat)
    requires n == q * d + r && r < d
    ensures n / d == q
  {
    var k := n / d - q;
    assert k * d == r - n % d;
    if k >= 1 {
      AtLeastOnce(k, d);
    } else if k <= -1 {
      AtLeastOnce(-k, d);
    }
  }

  /** After an alarm call for t ticks, n ticks of its own raise SIGALRM exactly n / (t + 1) times. */
  lemma AlarmRate(states: seq<Machine>, events: seq<Event>, p: Pid, t: nat, n: nat)
    requires IsRun(states, events) && 1 <= n <= |events| && t > 0 && events[0] == Alarm(t) && states[0].current == p
    requires forall i | 1 <= i < n :: Spares(states[i], events[i], p)
    ensures Raised(states, events, p, n) == OwnTicks(states, events, p, n) / (t + 1)
  {
    AlarmCounts(states, events, p, t, n);
    Quotient(OwnTicks(states, events, p, n), Raised(states, events, p, n), t + 1, t - states[n].table[p].alarm);
  }
}
