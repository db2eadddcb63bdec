/** The handlers of schedule.c on the context table. */
module Kernels {
  import opened Scheduler

  class Kernel {
    const contexts: array<Context>
    var current: Pid
    var up: bool

    /** Only the swapper is there, and it runs. */
    constructor ()
      ensures contexts.Length == 16 && fresh(contexts) && current == 0 && up
      ensures forall i | 0 <= i < 16 :: contexts[i] == Context(if i == 0 then Running else Unused, 0, 0, 0)
      ensures OnlyCurrentRuns(View())
    {
      contexts := new Context[16](i => Context(if i == 0 then Running else Unused, 0, 0, 0));
      current, up := 0, true;
    }

    ghost predicate Ok() {
      contexts.Length == 16
    }

    ghost function View(): Machine
      requires Ok()
      reads this, contexts
    {
      Machine(contexts[..], current, up)
    }

    /** do_sleep_and_alarm_account. */
    method SleepAndAlarmAccount()
      requires Ok()
      modifies contexts
      ensures View() == Accounted(old(View()))
      ensures forall i | 0 <= i < 16 ::
        && contexts[i] == old(contexts[i]).(sleep := contexts[i].sleep)
        && contexts[i].sleep == var t := old(contexts[i]).sleep; if i == current || t == 0 then t else t - 1
    {
      for i := 0 to 16
        invariant forall j: int | 0 <= j < 16 ::
          contexts[j] == if j < i then Slept(old(View()), j) else old(contexts[j])
      {
        if i != current && contexts[i].sleep > 0 {
          contexts[i] := contexts[i].(sleep := contexts[i].sleep - 1);
        }
      }
      assert View().table == Accounted(old(View())).table;
    }

    /** The alarm of the current context; raised says whether SIGALRM is delivered. */
    method Ring() returns (raised: bool)
      requires Ok()
      modifies contexts
      ensures View() == Rung(old(View()))
      ensures var c := old(contexts[current]);
        && raised == (c.alarm == 0 && c.config > 0)
        && contexts[current] == c.(alarm := if c.alarm == 0 then c.config else c.alarm - 1)
    {
      var c := contexts[current];
      raised := false;
      if c.alarm > 0 {
        contexts[current] := c.(alarm := c.alarm - 1);
      } else if c.config != 0 {
        raised := true;
        contexts[current] := c.(alarm := c.config);
      }
    }

    /** The scanning loops of handle_timer_tick and pick_next_context. */
    method Scan(from: nat, ready: bool) returns (p: nat)
      requires Ok() && from <= 16
      ensures p == First(View().table, from, ready)
      ensures p < 16 && ready ==> contexts[p].status == Ready
      ensures p < 16 && !ready ==> contexts[p].status == Waiting && contexts[p].sleep == 0
      ensures forall q | from <= q < p ::
        && (ready ==> contexts[q].status != Ready)
        && (!ready ==> contexts[q].status != Waiting || contexts[q].sleep > 0)
    {
      p := from;
      while p < 16
        invariant from <= p <= 16 && First(View().table, from, ready) == First(View().table, p, ready)
      {
        if (if ready then contexts[p].status == Ready else contexts[p].status == Waiting && contexts[p].sleep == 0) {
          return;
        }
        p := p + 1;
      }
    }

    /** schedule_context, without the registers. */
    method ScheduleContext(next: Pid)
      requires Ok()
      modifies this`current, contexts
      ensures View() == Switched(old(View()), next)
      ensures current == next && contexts[next] == old(contexts[next]).(status := Running)
      ensures forall i | 0 <= i < 16 && i != next :: contexts[i] == old(contexts[i])
    {
      contexts[next] := contexts[next].(status := Running);
      current := next;
    }

    method HandleTimerTick() returns (raised: bool)
      requires Ok() && up
      modifies this`current, contexts
      ensures View() == Next(old(View()), Tick)
      ensures raised == (old(contexts[current]).alarm == 0 && old(contexts[current]).config > 0)
    {
      ghost var s := View();
      SleepAndAlarmAccount();
      assert contexts[current] == s.table[current];
      raised := Ring();
      var p := Scan(0, false);
      if p < 16 {
        contexts[current] := contexts[current].(status := Ready);
        ScheduleContext(p);
      }
    }

    /** do_exit. */
    method DoExit()
      requires Ok() && up
      modifies this, contexts
      ensures View() == Next(old(View()), Exit)
      ensures forall p: nat | FirstReady(old(contexts[..]), old(current), p) ::
        && current == (if p < 16 then p else old(current)) && (p < 16 ==> contexts[p].status == Running)
      ensures up <==> exists i :: 1 <= i < 16 && i != old(current) && old(contexts[i]).status != Unused
      ensures contexts[old(current)] == old(contexts[current]).(status := Unused)
      ensures forall i | 0 <= i < 16 && i != old(current) && i != current :: contexts[i] == old(contexts[i])
    {
      ghost var s := View();
      contexts[current] := contexts[current].(status := Unused);
      var live := false;
      for i := 1 to 16
        invariant live <==> exists j :: 1 <= j < i && contexts[j].status != Unused
      {
        if contexts[i].status != Unused {
          live := true;
        }
      }
      if live {
        var p := Scan(current + 1, true);
        if p < 16 {
          ScheduleContext(p);
        }
      } else {
        up := false;
      }
      ExitedIs(s);
    }

    method DoSleep(ticks: nat)
      requires Ok() && up
      modifies this`current, contexts
      ensures View() == Next(old(View()), Sleep(ticks))
      ensures current == 0 && contexts[0].status == Running
      ensures old(current) != 0 ==>
        && contexts[old(current)] == old(contexts[current]).(status := Waiting, sleep := ticks)
        && contexts[0].sleep == old(contexts[0].sleep)
      ensures forall i | 0 < i < 16 && i != old(current) :: contexts[i] == old(contexts[i])
    {
      contexts[current] := contexts[current].(sleep := ticks, status := Waiting);
      ScheduleContext(0);
    }

    /** do_clone on the slot that get_new_ctx hands out. */
    method DoClone(slot: Pid)
      requires Ok() && Enabled(View(), Clone(slot))
      modifies contexts
      ensures View() == Next(old(View()), Clone(slot))
      ensures contexts[slot].status == Ready && contexts[slot].sleep == 0
      ensures contexts[slot].alarm == 0 && contexts[slot].config == 0
      ensures forall i | 0 <= i < 16 && i != slot :: contexts[i] == old(contexts[i])
    {
      contexts[slot] := Context(Ready, 0, 0, 0);
    }

    method DoAlarm(ticks: nat)
      requires Ok() && up
      modifies contexts
      ensures View() == Next(old(View()), Alarm(ticks))
      ensures contexts[current].alarm == ticks && contexts[current].config == ticks
      ensures contexts[current].status == old(contexts[current].status)
      ensures contexts[current].sleep == old(contexts[current].sleep)
      ensures forall i | 0 <= i < 16 && i != current :: contexts[i] == old(contexts[i])
    {
      contexts[current] := contexts[current].(alarm := ticks, config := ticks);
    }
  }
}
