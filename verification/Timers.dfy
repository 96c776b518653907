/**
 * The timer queue of CWTimer.h: an array of relative timeouts counted from a
 * moving base timestamp. Time is counted in ticks of 10 ms and does not end;
 * every operation takes one reading `now` of it, of which the source sees the
 * low 32 bits. Callbacks do not re-enter the queue; each is recorded in the
 * order the queue calls it.
 */
module Timers {

  const WORD := 0x1_0000_0000
  const MANY_TENS_OF_MSECS := WORD - 1

  /** current_time: ticks in an unsigned int, "ignore overflow". */
  function Clock(now: nat): nat {
    now % WORD
  }

  function Plus32(a: nat, b: nat): nat {
    (a + b) % WORD
  }

  function Minus32(a: nat, b: nat): nat {
    (a - b) % WORD
  }

  /**
   * What is read off the clock is the number of ticks passed modulo 2^32: their
   * number exactly when it is below 2^32, whether the clock has wrapped or not.
   */
  lemma ElapsedTime(base: nat, now: nat)
    requires base <= now
    ensures Minus32(Clock(now), Clock(base)) == (now - base) % WORD
    ensures Minus32(Clock(now), Clock(base)) == now - base <==> now < base + WORD
  {
    var q, r := now / WORD, base / WORD;
    assert now - base == (Clock(now) - Clock(base)) + (q - r) * WORD;
  }

  /** The time an operation takes it to be, from the same reading of the clock. */
  lemma SameReading(base: nat, now: nat)
    requires base <= now
    ensures Clock(base + (now - base) % WORD) == Clock(now)
    ensures base + (now - base) % WORD <= now
  {
    var d := now - base;
    assert now == base + d % WORD + d / WORD * WORD;
  }

  /** struct timer: `event` says whether the event pointer is set. */
  datatype Timer = Timer(timeout: nat, event: bool, arg: nat) {
    /** timer_inuse */
    predicate InUse() {
      timeout != 0 || event
    }
  }

  const FREE := Timer(0, false, 0)

  /** A call of a timer's routine: which slot, with which argument. */
  datatype Firing = Firing(id: nat, arg: nat)

  datatype SetResult = Immediate | Set(id: nat) | OutOfTimers

  // ---------- the queue as a map of deadlines ----------

  /** A pending timer seen from outside: when it is due and what it will call. */
  datatype Pending = Pending(deadline: nat, arg: nat)

  /** What the array and the base timestamp stand for. */
  function Deadlines(q: seq<Timer>, stamp: nat): map<nat, Pending> {
    map id: nat | id < |q| && q[id].timeout > 0 :: Pending(stamp + q[id].timeout, q[id].arg)
  }

  /** The calls due at or before `now` among the timers of m in the first n slots, in slot order. */
  function Due(m: map<nat, Pending>, now: nat, n: nat): seq<Firing> {
    if n == 0 then []
    else
      var call := if n - 1 in m && m[n - 1].deadline <= now then [Firing(n - 1, m[n - 1].arg)] else [];
      Due(m, now, n - 1) + call
  }

  /** The timers of m still pending after `now`. */
  function After(m: map<nat, Pending>, now: nat): map<nat, Pending> {
    map id | id in m && m[id].deadline > now :: m[id]
  }

  /** One timer after `time` ticks have been taken from it. */
  function Advanced(t: Timer, time: nat): Timer {
    if t.timeout == 0 then t
    else if time < t.timeout then t.(timeout := t.timeout - time)
    else t.(timeout := 0, event := false)
  }

  /** Taking the elapsed ticks from every timer leaves the deadlines beyond `now` where they were. */
  lemma AdvanceKeepsDeadlines(q: seq<Timer>, q': seq<Timer>, stamp: nat, now: nat)
    requires stamp <= now && |q'| == |q|
    requires forall k :: 0 <= k < |q| ==> q'[k] == Advanced(q[k], now - stamp)
    ensures Deadlines(q', now) == After(Deadlines(q, stamp), now)
  {
  }

  /**
   * What happens to the queue, as its callers see it. A Set updates the others
   * when its timer is taken to be due before the one waited for, a Cancel
   * when it hits the timer waited for (`flush`); a Tick is the alarm. Every
   * method of the queue performs one of these steps on the deadlines.
   */
  datatype Event =
    | SetEvent(now: nat, id: nat, timeout: nat, arg: nat, flush: bool)
    | CancelEvent(now: nat, id: nat, flush: bool)
    | TickEvent(now: nat)
  {
    /** The event updates all timers. */
    predicate Updates() {
      TickEvent? || flush
    }
  }

  function Step(m: map<nat, Pending>, e: Event): map<nat, Pending> {
    match e
    case SetEvent(now, id, timeout, arg, flush) =>
      (if flush then After(m, now) else m)[id := Pending(now + timeout, arg)]
    case CancelEvent(now, id, flush) => if flush then After(m - {id}, now) else m - {id}
    case TickEvent(now) => After(m, now)
  }

  function Calls(m: map<nat, Pending>, e: Event, slots: nat): seq<Firing> {
    match e
    case SetEvent(now, _, _, _, flush) => if flush then Due(m, now, slots) else []
    case CancelEvent(now, id, flush) => if flush then Due(m - {id}, now, slots) else []
    case TickEvent(now) => Due(m, now, slots)
  }

  /** The timers an event finds when it updates: a slot it cancels is no longer among them. */
  function Exposed(m: map<nat, Pending>, e: Event): map<nat, Pending> {
    if e.CancelEvent? then m - {e.id} else m
  }

  /** The timers pending after the first n events of a run that starts with none. */
  function StateAfter(run: seq<Event>, n: nat): map<nat, Pending>
    requires n <= |run|
  {
    if n == 0 then map[] else Step(StateAfter(run, n - 1), run[n - 1])
  }

  /** All calls of a run, in order. */
  function AllCalls(run: seq<Event>, slots: nat): seq<Firing> {
    if run == [] then []
    else
      var n := |run| - 1;
      AllCalls(run[..n], slots) + Calls(StateAfter(run, n), run[n], slots)
  }

  /** A timer is only ever set in a slot without a pending one. */
  ghost predicate Legal(run: seq<Event>, slots: nat) {
    forall k :: 0 <= k < |run| && run[k].SetEvent? ==>
      run[k].id < slots && run[k].timeout > 0 && run[k].id !in StateAfter(run, k)
  }

  /** A queue in state m that made these calls has been through this run. */
  ghost predicate Explains(run: seq<Event>, slots: nat, m: map<nat, Pending>, calls: seq<Firing>) {
    Legal(run, slots) && m == StateAfter(run, |run|) && calls == AllCalls(run, slots)
  }

  lemma {:induction false} PrefixState(run: seq<Event>, e: Event, n: nat)
    requires n <= |run|
    ensures StateAfter(run + [e], n) == StateAfter(run, n)
  {
    if n > 0 {
      PrefixState(run, e, n - 1);
    }
  }

  /** One more event. */
  lemma ExplainsStep(run: seq<Event>, slots: nat, m: map<nat, Pending>, calls: seq<Firing>, e: Event)
    requires Explains(run, slots, m, calls)
    requires e.SetEvent? ==> e.id < slots && e.timeout > 0 && e.id !in m
    ensures Explains(run + [e], slots, Step(m, e), calls + Calls(m, e, slots))
  {
    hide Step, Calls;
    var after := run + [e];
    PrefixState(run, e, |run|);
    assert after[..|run|] == run;
    forall k | 0 <= k < |after| && after[k].SetEvent?
      ensures after[k].id < slots && after[k].timeout > 0 && after[k].id !in StateAfter(after, k)
    {
      PrefixState(run, e, k);
    }
  }

  /** Putting a timer into an unused slot adds its deadline. */
  lemma PutAddsDeadline(q: seq<Timer>, stamp: nat, id: nat, t: Timer)
    requires id < |q| && t.timeout > 0
    ensures Deadlines(q[id := t], stamp) == Deadlines(q, stamp)[id := Pending(stamp + t.timeout, t.arg)]
  {
  }

  class TimerQueue {
    const timerq: array<Timer>
    var next_timer: int            // index of the timer waited for, or -1
    var timer_set_timestamp: nat
    var fired: seq<Firing>         // the calls of timer routines so far
    ghost var base: nat            // the time behind timer_set_timestamp
    ghost var history: seq<Event>  // what has happened so far

    /** Every pending timer is in use, and every other slot is free. */
    ghost predicate Sound()
      reads this, timerq
    {
      && timer_set_timestamp == Clock(base)
      && forall k :: 0 <= k < timerq.Length ==>
           (timerq[k].event <==> timerq[k].timeout > 0) && timerq[k].timeout < MANY_TENS_OF_MSECS
    }

    /** t is -1 when nothing is pending, and else a pending timer. */
    ghost predicate Waits(t: int)
      reads timerq
    {
      && -1 <= t < timerq.Length
      && (t == -1 ==> forall k :: 0 <= k < timerq.Length ==> timerq[k].timeout == 0)
      && (t >= 0 ==> timerq[t].timeout > 0)
    }

    /** t is -1 when nothing is pending, and else a pending timer with the least timeout. */
    ghost predicate Least(t: int)
      reads timerq
    {
      && Waits(t)
      && (t >= 0 ==>
            forall k :: 0 <= k < timerq.Length && timerq[k].timeout > 0 ==> timerq[t].timeout <= timerq[k].timeout)
    }

    ghost predicate Valid()
      reads this, timerq
    {
      Sound() && Waits(next_timer) && Explains(history, timerq.Length, Pendings(), fired)
    }

    ghost function Pendings(): map<nat, Pending>
      reads this, timerq
    {
      Deadlines(timerq[..], base)
    }

    /** Nothing is pending, or less than 2^32 ticks have passed since the last update. */
    ghost predicate InTime(now: nat)
      reads this`base, this`next_timer
    {
      next_timer != -1 ==> now < base + WORD
    }

    /** What the queue takes the time to be: whole turns of the clock pass it by while a timer is pending. */
    ghost function Seen(now: nat): nat
      requires base <= now
      reads this`base, this`next_timer
    {
      if next_timer == -1 then now else base + (now - base) % WORD
    }

    /** That is the time exactly when the queue is called in time; the clock reads the same either way. */
    lemma SeenExactly(now: nat)
      requires base <= now
      ensures Seen(now) == now <==> InTime(now)
      ensures Clock(Seen(now)) == Clock(now) && base <= Seen(now) <= now && InTime(Seen(now))
    {
      SameReading(base, now);
    }

    /** _clkini */
    constructor (slots: nat)
      ensures Valid() && Least(next_timer) && fresh(timerq) && timerq.Length == slots
      ensures Pendings() == map[] && fired == [] && history == [] && base == 0
    {
      timerq := new Timer[slots](_ => FREE);
      next_timer := -1;
      timer_set_timestamp := 0;
      fired := [];
      base, history := 0, [];
      new;
      assert Deadlines(timerq[..], 0) == map[];
    }

    /** The body of the loop of update_all_timers_by. */
    method UpdateTimer(id: nat, time: nat)
      requires id < timerq.Length
      modifies timerq, this`fired
      ensures timerq[..] == old(timerq[..])[id := Advanced(old(timerq[id]), time)]
      ensures fired == old(fired + Ran(timerq[id], id, time))
    {
      var t := timerq[id];
      if t.timeout != 0 {
        if time < t.timeout {
          timerq[id] := t.(timeout := t.timeout - time);
        } else {
          timerq[id] := t.(timeout := 0);
          fired := fired + [Firing(id, t.arg)];
          timerq[id] := timerq[id].(event := false);
        }
      }
    }

    /** update_all_timers_by */
    method UpdateAllTimersBy(time: nat)
      modifies timerq, this`fired
      ensures forall k :: 0 <= k < timerq.Length ==> timerq[k] == Advanced(old(timerq[k]), time)
      ensures fired == old(fired) + old(Due(Pendings(), base + time, timerq.Length))
    {
      hide Deadlines, Due, Advanced, Ran;
      ghost var q := timerq[..];
      ghost var m := Pendings();
      NothingDueYet(m, base + time);
      for id := 0 to timerq.Length
        invariant forall k :: 0 <= k < id ==> timerq[k] == Advanced(q[k], time)
        invariant forall k :: id <= k < timerq.Length ==> timerq[k] == q[k]
        invariant fired == old(fired) + Due(m, base + time, id)
      {
        DueStep(q, base, time, id);
        UpdateTimer(id, time);
      }
    }

    /** shortest_timer: the first pending timer with the least timeout. */
    method ShortestTimer() returns (s: int)
      requires forall k :: 0 <= k < timerq.Length ==> timerq[k].timeout < MANY_TENS_OF_MSECS
      ensures Least(s)
    {
      var old_timer := MANY_TENS_OF_MSECS;
      s := -1;
      for t := 0 to timerq.Length
        invariant -1 <= s < t
        invariant s == -1 ==> old_timer == MANY_TENS_OF_MSECS && forall k :: 0 <= k < t ==> timerq[k].timeout == 0
        invariant s >= 0 ==> 0 < timerq[s].timeout == old_timer
        invariant forall k :: 0 <= k < t && timerq[k].timeout > 0 ==> old_timer <= timerq[k].timeout
      {
        if timerq[t].timeout > 0 && timerq[t].timeout < old_timer {
          old_timer := timerq[t].timeout;
          s := t;
        }
      }
    }

    /** start_timer */
    method StartTimer(t: int, clock: nat, ghost now: nat)
      requires clock == Clock(now)
      modifies this`next_timer, this`timer_set_timestamp, this`base
      ensures next_timer == t
      ensures t == -1 ==> timer_set_timestamp == old(timer_set_timestamp) && base == old(base)
      ensures t != -1 ==> timer_set_timestamp == Clock(now) && base == now
    {
      next_timer := t;
      if t == -1 {
        return;
      }
      timer_set_timestamp := clock;
      base := now;
    }

    /** cancel_itimer; without a pending timer the elapsed time, whatever it wraps to, is taken from nobody. */
    method CancelItimer(clock: nat, ghost now: nat)
      requires Sound() && base <= now && clock == Clock(now)
      requires now < base + WORD || forall k :: 0 <= k < timerq.Length ==> timerq[k].timeout == 0
      modifies timerq, this`fired
      ensures forall k :: 0 <= k < timerq.Length ==> timerq[k] == Advanced(old(timerq[k]), now - base)
      ensures fired == old(fired) + old(Due(Pendings(), now, timerq.Length))
      ensures Deadlines(timerq[..], now) == old(After(Pendings(), now))
    {
      var time := Minus32(clock, timer_set_timestamp);
      ElapsedTime(base, now);
      if now >= base + WORD {
        NobodyDue(Pendings(), now, timerq.Length);
        NobodyDue(Pendings(), base + time, timerq.Length);
      }
      UpdateAllTimersBy(time);
      AdvanceKeepsDeadlines(old(timerq[..]), timerq[..], base, now);
    }

    /** Update every timer, then wait for the shortest of those left. */
    method Restart(clock: nat, ghost now: nat)
      requires Sound() && base <= now && clock == Clock(now)
      requires now < base + WORD || forall k :: 0 <= k < timerq.Length ==> timerq[k].timeout == 0
      modifies timerq, this`fired, this`next_timer, this`timer_set_timestamp, this`base
      ensures Sound() && Least(next_timer) && base <= now
      ensures Pendings() == old(After(Pendings(), now))
      ensures fired == old(fired) + old(Due(Pendings(), now, timerq.Length))
    {
      hide Due, After, Deadlines;
      CancelItimer(clock, now);
      var s := ShortestTimer();
      StartTimer(s, clock, now);
      if s == -1 {
        NothingPending(timerq[..], base);
        NothingPending(timerq[..], now);
      }
    }

    /** clk_isr: the alarm signal. */
    method ClockInterrupt(now: nat)
      requires Valid() && base <= now
      modifies timerq, this`fired, this`next_timer, this`timer_set_timestamp, this`base, this`history
      ensures Valid() && Least(next_timer) && base <= now
      ensures var e := TickEvent(old(Seen(now)));
        && history == old(history) + [e]
        && Pendings() == Step(old(Pendings()), e)
        && fired == old(fired) + Calls(old(Pendings()), e, timerq.Length)
    {
      hide Explains, Due, After, Deadlines;
      ghost var seen := Seen(now);
      SeenExactly(now);
      ExplainsStep(history, timerq.Length, Pendings(), fired, TickEvent(seen));
      if next_timer == -1 {
        NothingHappens(Clock(now), seen);
        history := history + [TickEvent(seen)];
        return;
      }
      Restart(Clock(now), seen);
      history := history + [TickEvent(seen)];
    }

    /** An alarm with nothing pending. */
    method NothingHappens(clock: nat, ghost now: nat)
      requires Sound() && base <= now && clock == Clock(now)
      requires forall k :: 0 <= k < timerq.Length ==> timerq[k].timeout == 0
      modifies timerq, this`fired
      ensures Sound() && forall k :: 0 <= k < timerq.Length ==> timerq[k].timeout == 0
      ensures Pendings() == old(After(Pendings(), now))
      ensures fired == old(fired) + old(Due(Pendings(), now, timerq.Length))
    {
      hide Due, After, Deadlines;
      CancelItimer(clock, now);
      NothingPending(timerq[..], base);
      NothingPending(timerq[..], now);
    }

    /** _cantim: cancelling the timer waited for also updates the others. */
    method CancelTimer(id: nat, now: nat)
      requires Valid() && base <= now && id < timerq.Length
      modifies timerq, this`fired, this`next_timer, this`timer_set_timestamp, this`base, this`history
      ensures Valid() && base <= now && (old(Least(next_timer)) ==> Least(next_timer))
      ensures id !in Pendings()
      ensures var e := CancelEvent(old(Seen(now)), id, id == old(next_timer));
        && history == old(history) + [e]
        && Pendings() == Step(old(Pendings()), e)
        && fired == old(fired) + Calls(old(Pendings()), e, timerq.Length)
    {
      hide Explains, Due, After;
      ghost var seen := Seen(now);
      SeenExactly(now);
      ghost var e := CancelEvent(seen, id, id == next_timer);
      ExplainsStep(history, timerq.Length, Pendings(), fired, e);
      CancelRemoves(Pendings(), e, timerq.Length);
      timerq[id] := FREE;
      assert Pendings() == old(Pendings() - {id});
      if id == next_timer {
        Restart(Clock(now), seen);
      }
      assert !e.flush ==> fired + Calls(old(Pendings()), e, timerq.Length) == fired;
      history := history + [e];
    }

    /** The search of _setimr for an unused slot. */
    method FindFree() returns (id: nat)
      requires Sound()
      ensures id <= timerq.Length
      ensures id < timerq.Length ==> timerq[id].timeout == 0
      ensures forall k :: 0 <= k < id ==> timerq[k].timeout > 0
    {
      id := 0;
      while id < timerq.Length
        invariant id <= timerq.Length
        invariant forall k :: 0 <= k < id ==> timerq[k].timeout > 0
      {
        if !timerq[id].InUse() {
          return;
        }
        id := id + 1;
      }
    }

    /** The new timer's deadline and that of the timer waited for fall between the same two wraps of the clock. */
    ghost predicate SameTurn(timeout: nat, now: nat)
      requires next_timer >= 0 ==> next_timer < timerq.Length
      reads this, timerq
    {
      next_timer >= 0 ==> (now + timeout) / WORD == (base + timerq[next_timer].timeout) / WORD
    }

    /**
     * _setimr. The deadline is kept, and no other moved, in all branches. The
     * queue goes on waiting for a timer with the least timeout, and calls
     * nobody, if it did before and the two deadlines it compares are in one
     * turn of the clock (see ComparisonExactly).
     */
    method SetTimer(timeout: nat, arg: nat, now: nat) returns (r: SetResult, ghost flush: bool)
      requires Valid() && base <= now
      requires (if next_timer == -1 then 0 else Seen(now) - base) + timeout < MANY_TENS_OF_MSECS
      modifies timerq, this`fired, this`next_timer, this`timer_set_timestamp, this`base, this`history
      ensures Valid() && base <= now
      ensures r == Immediate <==> timeout == 0
      ensures r == OutOfTimers <==> timeout > 0 && forall k :: 0 <= k < timerq.Length ==> k in old(Pendings())
      ensures !r.Set? ==> Pendings() == old(Pendings()) && fired == old(fired) && history == old(history)
      ensures r.Set? ==>
        && r.id < timerq.Length && r.id !in old(Pendings())
        && (forall k :: 0 <= k < r.id ==> k in old(Pendings()))
        && var e := SetEvent(old(Seen(now)), r.id, timeout, arg, flush);
           && history == old(history) + [e]
           && Pendings() == Step(old(Pendings()), e)
           && fired == old(fired) + Calls(old(Pendings()), e, timerq.Length)
      ensures old(Least(next_timer) && SameTurn(timeout, Seen(now))) ==> Least(next_timer) && fired == old(fired)
    {
      hide Explains, Due, After, Least, SameTurn, Step, Calls;
      ghost var seen := Seen(now);
      SeenExactly(now);
      flush := false;
      if timeout == 0 {
        return Immediate, false;
      }
      var id := FindFree();
      if id == timerq.Length {
        return OutOfTimers, false;
      }
      assert id !in Pendings();
      ghost var m, calls := Pendings(), fired;
      flush := Install(id, timeout, arg, Clock(now), seen);
      ghost var e := SetEvent(seen, id, timeout, arg, flush);
      ExplainsStep(history, timerq.Length, m, calls, e);
      history := history + [e];
      r := Set(id);
    }

    /** Puts the timer into the free slot it found, in one of three ways. */
    method Install(id: nat, timeout: nat, arg: nat, clock: nat, ghost now: nat) returns (ghost flush: bool)
      requires Sound() && Waits(next_timer) && base <= now && InTime(now) && clock == Clock(now)
      requires id < timerq.Length && timerq[id].timeout == 0 && timeout > 0
      requires (if next_timer == -1 then 0 else now - base) + timeout < MANY_TENS_OF_MSECS
      modifies timerq, this`fired, this`next_timer, this`timer_set_timestamp, this`base
      ensures Sound() && Waits(next_timer) && base <= now
      ensures var e := SetEvent(now, id, timeout, arg, flush);
        && Pendings() == Step(old(Pendings()), e)
        && fired == old(fired) + Calls(old(Pendings()), e, timerq.Length)
      ensures old(Least(next_timer) && SameTurn(timeout, now)) ==> Least(next_timer) && fired == old(fired)
    {
      hide Due, After, Deadlines, Least, Step;
      flush := false;
      if next_timer == -1 {
        InstallFirst(id, timeout, arg, clock, now);
      } else {
        ghost var a, b := now + timeout, base + timerq[next_timer].timeout;
        ComparisonExactly(base, a, b);
        ClockSums(timeout, now, timerq[next_timer].timeout, base);
        if Plus32(timeout, clock) < Plus32(timerq[next_timer].timeout, timer_set_timestamp) {
          flush := true;
          InstallShorter(id, timeout, arg, clock, now);
        } else {
          InstallLonger(id, timeout, arg, clock, now);
        }
      }
      assert fired + [] == fired;
    }

    /** The two sums compared are the low 32 bits of the two deadlines. */
    lemma ClockSums(timeout: nat, now: nat, next: nat, base: nat)
      ensures Plus32(timeout, Clock(now)) == Clock(now + timeout)
      ensures Plus32(next, Clock(base)) == Clock(base + next)
    {
    }

    /** The branch of _setimr for a queue in which nothing is pending. */
    method InstallFirst(id: nat, timeout: nat, arg: nat, clock: nat, ghost now: nat)
      requires Sound() && Waits(next_timer) && base <= now && clock == Clock(now) && timeout < MANY_TENS_OF_MSECS
      requires id < timerq.Length && timeout > 0 && next_timer == -1
      modifies timerq, this`next_timer, this`timer_set_timestamp, this`base
      ensures Sound() && Waits(next_timer) && Least(next_timer) && base == now && next_timer == id
      ensures Pendings() == Step(old(Pendings()), SetEvent(now, id, timeout, arg, false))
    {
      hide Deadlines;
      PutAddsDeadline(timerq[..], now, id, Timer(timeout, true, arg));
      NothingPending(timerq[..], base);
      NothingPending(timerq[..], now);
      timerq[id] := Timer(timeout, true, arg);
      assert timerq[..] == old(timerq[..])[id := Timer(timeout, true, arg)];
      StartTimer(id, clock, now);
    }

    /**
     * The branch for a timer taken to be due before the one waited for. If it
     * is, and the one waited for is the least, the update fires nobody.
     */
    method InstallShorter(id: nat, timeout: nat, arg: nat, clock: nat, ghost now: nat)
      requires Sound() && Waits(next_timer) && base <= now < base + WORD && clock == Clock(now)
      requires id < timerq.Length && timerq[id].timeout == 0 && 0 < timeout < MANY_TENS_OF_MSECS
      requires next_timer >= 0
      modifies timerq, this`fired, this`next_timer, this`timer_set_timestamp, this`base
      ensures Sound() && Waits(next_timer) && base == now && next_timer == id
      ensures Pendings() == Step(old(Pendings()), SetEvent(now, id, timeout, arg, true))
      ensures fired == old(fired) + Calls(old(Pendings()), SetEvent(now, id, timeout, arg, true), timerq.Length)
      ensures old(Least(next_timer)) && now + timeout < old(base + timerq[next_timer].timeout) ==>
        Least(next_timer) && fired == old(fired)
    {
      hide Due, Deadlines, After;
      NobodyBefore(now, timeout);
      CancelItimer(clock, now);
      ghost var q := timerq[..];
      timerq[id] := Timer(timeout, true, arg);
      assert timerq[..] == q[id := Timer(timeout, true, arg)];
      PutAddsDeadline(q, now, id, Timer(timeout, true, arg));
      StartTimer(id, clock, now);
    }

    /** Before the least deadline nobody is due. */
    lemma NobodyBefore(now: nat, timeout: nat)
      ensures Least(next_timer) && next_timer >= 0 && now + timeout < base + timerq[next_timer].timeout ==>
        Due(Pendings(), now, timerq.Length) == []
    {
      if Least(next_timer) && next_timer >= 0 && now + timeout < base + timerq[next_timer].timeout {
        NobodyDue(Pendings(), now, timerq.Length);
      }
    }

    /** The branch for a timer taken to be due no earlier than the one waited for. */
    method InstallLonger(id: nat, timeout: nat, arg: nat, clock: nat, ghost now: nat)
      requires Sound() && Waits(next_timer) && base <= now && clock == Clock(now)
      requires now - base + timeout < MANY_TENS_OF_MSECS
      requires id < timerq.Length && timerq[id].timeout == 0 && timeout > 0
      requires next_timer >= 0
      modifies timerq
      ensures Sound() && Waits(next_timer)
      ensures Pendings() == Step(old(Pendings()), SetEvent(now, id, timeout, arg, false))
      ensures old(Least(next_timer)) && now + timeout >= old(base + timerq[next_timer].timeout) ==> Least(next_timer)
    {
      hide Deadlines;
      ElapsedTime(base, now);
      var t := Timer(Plus32(timeout, Minus32(clock, timer_set_timestamp)), true, arg);
      PutAddsDeadline(timerq[..], base, id, t);
      timerq[id] := t;
      assert timerq[..] == old(timerq[..])[id := t];
    }
  }

  /**
   * The comparison of _setimr. Two times in the 2^32 ticks from `base` on are
   * compared rightly by their low 32 bits exactly when the clock does not wrap
   * between them.
   */
  lemma ComparisonExactly(base: nat, a: nat, b: nat)
    requires base <= a < base + WORD && base <= b < base + WORD
    ensures (Clock(a) < Clock(b) <==> a < b) <==> a / WORD == b / WORD
  {
  }

  /**
   * An alarm 50 ticks away, shortly before the wrap, and a timer of 200 ticks:
   * the later deadline passes for the earlier one, and the queue would wait for it.
   */
  lemma ComparisonErrs()
    ensures var base, now := WORD - 100, WORD - 90;
      && Plus32(200, Clock(now)) < Plus32(50, Clock(base))
      && now + 200 > base + 50
  {
  }

  lemma NothingPending(q: seq<Timer>, stamp: nat)
    requires forall k :: 0 <= k < |q| ==> q[k].timeout == 0
    ensures Deadlines(q, stamp) == map[]
  {
  }

  lemma NothingDueYet(m: map<nat, Pending>, now: nat)
    ensures Due(m, now, 0) == []
  {
  }

  /** The call a timer makes when it runs out in `time` ticks. */
  function Ran(t: Timer, id: nat, time: nat): seq<Firing> {
    if t.timeout > 0 && t.timeout <= time then [Firing(id, t.arg)] else []
  }

  lemma DueStep(q: seq<Timer>, stamp: nat, time: nat, id: nat)
    requires id < |q|
    ensures Due(Deadlines(q, stamp), stamp + time, id + 1)
         == Due(Deadlines(q, stamp), stamp + time, id) + Ran(q[id], id, time)
  {
  }

  lemma {:induction false} NobodyDue(m: map<nat, Pending>, now: nat, n: nat)
    requires forall id :: id in m ==> m[id].deadline > now
    ensures Due(m, now, n) == []
  {
    if n > 0 {
      NobodyDue(m, now, n - 1);
    }
  }

  // ---------- whole runs ----------

  /** How often slot id is called in cs. */
  function CallCount(cs: seq<Firing>, id: nat): nat {
    if cs == [] then 0
    else CallCount(cs[..|cs| - 1], id) + (if cs[|cs| - 1].id == id then 1 else 0)
  }

  /** A due list calls each slot once if its timer is due, and not at all otherwise. */
  lemma {:induction false} DueCallsOnce(m: map<nat, Pending>, now: nat, n: nat, id: nat)
    ensures CallCount(Due(m, now, n), id) == if id < n && id in m && m[id].deadline <= now then 1 else 0
    ensures forall k :: 0 <= k < |Due(m, now, n)| ==>
      var c := Due(m, now, n)[k]; c.id in m && c.arg == m[c.id].arg && m[c.id].deadline <= now
  {
    hide Due;
    DueUnfolds(m, now, n);
    if n > 0 {
      DueCallsOnce(m, now, n - 1, id);
      if n - 1 in m && m[n - 1].deadline <= now {
        CountAdded(Due(m, now, n - 1), Firing(n - 1, m[n - 1].arg), id);
      }
    }
  }

  lemma DueUnfolds(m: map<nat, Pending>, now: nat, n: nat)
    ensures n == 0 ==> Due(m, now, n) == []
    ensures n > 0 && n - 1 in m && m[n - 1].deadline <= now ==>
      Due(m, now, n) == Due(m, now, n - 1) + [Firing(n - 1, m[n - 1].arg)]
    ensures n > 0 && !(n - 1 in m && m[n - 1].deadline <= now) ==> Due(m, now, n) == Due(m, now, n - 1)
  {
  }

  lemma CountAdded(cs: seq<Firing>, c: Firing, id: nat)
    ensures CallCount(cs + [c], id) == CallCount(cs, id) + if c.id == id then 1 else 0
  {
    assert (cs + [c])[..|cs|] == cs;
  }

  /** Slot id is neither cancelled nor due at an update in the events from i on, before n. */
  ghost predicate Undisturbed(run: seq<Event>, i: nat, n: nat, id: nat, deadline: nat)
    requires n <= |run|
  {
    forall k :: i <= k < n ==>
      !(run[k].CancelEvent? && run[k].id == id) && !(run[k].Updates() && run[k].now >= deadline)
  }

  /** Slot id is not called by the events from i on, before n. */
  ghost predicate NotCalled(run: seq<Event>, slots: nat, i: nat, n: nat, id: nat)
    requires n <= |run|
  {
    forall k :: i <= k < n ==> CallCount(Calls(StateAfter(run, k), run[k], slots), id) == 0
  }

  lemma StateStep(run: seq<Event>, n: nat)
    requires n < |run|
    ensures StateAfter(run, n + 1) == Step(StateAfter(run, n), run[n])
  {
  }

  /**
   * The deadline of a timer set at event i is fixed: until it is cancelled or
   * an update comes at or after its deadline it stays pending with the same
   * deadline and argument, and is not called.
   */
  lemma {:induction false} DeadlineFixed(run: seq<Event>, slots: nat, i: nat, n: nat)
    requires Legal(run, slots) && i < n <= |run| && run[i].SetEvent?
    requires Undisturbed(run, i + 1, n, run[i].id, run[i].now + run[i].timeout)
    ensures run[i].id in StateAfter(run, n)
    ensures StateAfter(run, n)[run[i].id] == Pending(run[i].now + run[i].timeout, run[i].arg)
    ensures NotCalled(run, slots, i + 1, n, run[i].id)
  {
    hide Undisturbed, NotCalled, Step, Calls, StateAfter;
    var id := run[i].id;
    StateStep(run, n - 1);
    if n == i + 1 {
      SetStarts(run, slots, i);
    } else {
      UndisturbedPrefix(run, i + 1, n, id, run[i].now + run[i].timeout);
      DeadlineFixed(run, slots, i, n - 1);
      StepSpares(StateAfter(run, n - 1), run[n - 1], slots, id);
      NotCalledExtend(run, slots, i + 1, n, id);
    }
  }

  /**
   * So for the queue itself: whatever its methods have been through, a timer
   * set at event i and neither cancelled nor due at an update since is
   * pending in it with the deadline and argument it was set with.
   */
  lemma QueueKeepsDeadline(queue: TimerQueue, i: nat)
    requires queue.Valid() && i < |queue.history| && queue.history[i].SetEvent?
    requires var e := queue.history[i];
      Undisturbed(queue.history, i + 1, |queue.history|, e.id, e.now + e.timeout)
    ensures var e := queue.history[i];
      e.id in queue.Pendings() && queue.Pendings()[e.id] == Pending(e.now + e.timeout, e.arg)
  {
    hide Undisturbed, StateAfter, NotCalled;
    DeadlineFixed(queue.history, queue.timerq.Length, i, |queue.history|);
  }

  lemma SetStarts(run: seq<Event>, slots: nat, i: nat)
    requires i < |run| && run[i].SetEvent?
    ensures run[i].id in StateAfter(run, i + 1)
    ensures StateAfter(run, i + 1)[run[i].id] == Pending(run[i].now + run[i].timeout, run[i].arg)
    ensures NotCalled(run, slots, i + 1, i + 1, run[i].id)
  {
  }

  lemma NotCalledExtend(run: seq<Event>, slots: nat, i: nat, n: nat, id: nat)
    requires i < n <= |run| && NotCalled(run, slots, i, n - 1, id)
    requires CallCount(Calls(StateAfter(run, n - 1), run[n - 1], slots), id) == 0
    ensures NotCalled(run, slots, i, n, id)
  {
    hide StateAfter, Calls, CallCount;
  }

  lemma UndisturbedPrefix(run: seq<Event>, i: nat, n: nat, id: nat, deadline: nat)
    requires i < n <= |run| && Undisturbed(run, i, n, id, deadline)
    ensures Undisturbed(run, i, n - 1, id, deadline)
    ensures !(run[n - 1].CancelEvent? && run[n - 1].id == id)
    ensures !(run[n - 1].Updates() && run[n - 1].now >= deadline)
  {
  }

  /** An event that neither sets, cancels nor finds it due leaves a pending timer as it is. */
  lemma StepSpares(m: map<nat, Pending>, e: Event, slots: nat, id: nat)
    requires id in m && !(e.CancelEvent? && e.id == id) && !(e.SetEvent? && e.id == id)
    requires !(e.Updates() && e.now >= m[id].deadline)
    ensures id in Step(m, e) && Step(m, e)[id] == m[id]
    ensures CallCount(Calls(m, e, slots), id) == 0
  {
    match e {
      case SetEvent(now, _, _, _, _) => DueCallsOnce(m, now, slots, id);
      case CancelEvent(now, cancelled, flush) => DueCallsOnce(m - {cancelled}, now, slots, id);
      case TickEvent(now) => DueCallsOnce(m, now, slots, id);
    }
  }

  /**
   * The life of a timer. Set at event i and not cancelled before, it is
   * called exactly once, with its argument, at the first update whose clock
   * reading is at or after its deadline, and is gone from then on.
   */
  lemma FiresOnceAtFirstUpdate(run: seq<Event>, slots: nat, i: nat, n: nat)
    requires Legal(run, slots) && i < n < |run| && run[i].SetEvent?
    requires Undisturbed(run, i + 1, n, run[i].id, run[i].now + run[i].timeout)
    requires run[n].Updates() && run[n].now >= run[i].now + run[i].timeout
    requires !(run[n].CancelEvent? && run[n].id == run[i].id)
    ensures NotCalled(run, slots, i + 1, n, run[i].id)
    ensures CallCount(Calls(StateAfter(run, n), run[n], slots), run[i].id) == 1
    ensures Firing(run[i].id, run[i].arg) in Calls(StateAfter(run, n), run[n], slots)
    ensures run[i].id !in StateAfter(run, n + 1)
  {
    var id, m, e := run[i].id, StateAfter(run, n), run[n];
    DeadlineFixed(run, slots, i, n);
    var rest := Exposed(m, e);
    DueCallsOnce(rest, e.now, slots, id);
    var k := CalledAt(Due(rest, e.now, slots), id);
  }

  lemma {:induction false} CalledAt(cs: seq<Firing>, id: nat) returns (k: nat)
    requires CallCount(cs, id) > 0
    ensures k < |cs| && cs[k].id == id
  {
    var n := |cs| - 1;
    if cs[n].id == id {
      k := n;
    } else {
      k := CalledAt(cs[..n], id);
    }
  }

  // ---------- exactly what is pending, and what is called ----------

  /** The timer set in slot id at event i is still undisturbed at time n. */
  ghost predicate Lives(run: seq<Event>, i: nat, n: nat, id: nat)
    requires n <= |run|
  {
    && i < n && run[i].SetEvent? && run[i].id == id
    && Undisturbed(run, i + 1, n, id, run[i].now + run[i].timeout)
  }

  /** What a slot holds after an event that does not set it, it held before, and the event spared it. */
  lemma StepAddsNothing(m: map<nat, Pending>, e: Event, id: nat)
    requires id in Step(m, e) && !(e.SetEvent? && e.id == id)
    ensures id in m && m[id] == Step(m, e)[id]
    ensures !(e.CancelEvent? && e.id == id) && !(e.Updates() && e.now >= m[id].deadline)
  {
  }

  lemma UndisturbedOn(run: seq<Event>, i: nat, n: nat, id: nat, deadline: nat)
    requires i <= n < |run| && Undisturbed(run, i, n, id, deadline)
    requires !(run[n].CancelEvent? && run[n].id == id) && !(run[n].Updates() && run[n].now >= deadline)
    ensures Undisturbed(run, i, n + 1, id, deadline)
  {
  }

  /** What is pending was set and not disturbed since. */
  lemma {:induction false} PendingWasSet(run: seq<Event>, n: nat, id: nat) returns (i: nat)
    requires n <= |run| && id in StateAfter(run, n)
    ensures Lives(run, i, n, id)
    ensures StateAfter(run, n)[id] == Pending(run[i].now + run[i].timeout, run[i].arg)
  {
    hide Step, Undisturbed;
    var e := run[n - 1];
    if e.SetEvent? && e.id == id {
      i := n - 1;
      SetStarts(run, 0, i);
      NothingBetween(run, n, id, e.now + e.timeout);
    } else {
      StepAddsNothing(StateAfter(run, n - 1), e, id);
      i := PendingWasSet(run, n - 1, id);
      UndisturbedOn(run, i + 1, n - 1, id, run[i].now + run[i].timeout);
    }
  }

  lemma NothingBetween(run: seq<Event>, n: nat, id: nat, deadline: nat)
    requires n <= |run|
    ensures Undisturbed(run, n, n, id, deadline)
  {
  }

  /**
   * What is pending, after any run: a slot holds exactly the timer that was
   * set there and since then neither cancelled nor due at an update, with the
   * deadline and argument it was set with.
   */
  lemma PendingExactly(run: seq<Event>, slots: nat, n: nat, id: nat, p: Pending)
    requires Legal(run, slots) && n <= |run|
    ensures id in StateAfter(run, n) && StateAfter(run, n)[id] == p
      <==> exists i: nat :: Lives(run, i, n, id) && p == Pending(run[i].now + run[i].timeout, run[i].arg)
  {
    hide Step, StateAfter, Undisturbed, Legal;
    if id in StateAfter(run, n) {
      var i := PendingWasSet(run, n, id);
    }
    forall i: nat | Lives(run, i, n, id)
      ensures id in StateAfter(run, n)
      ensures StateAfter(run, n)[id] == Pending(run[i].now + run[i].timeout, run[i].arg)
    {
      DeadlineFixed(run, slots, i, n);
    }
  }

  /**
   * What is called, at any event of any run: exactly the timers that live, in
   * slots the event does not cancel, if it updates at or after their
   * deadlines; each with its argument, once.
   */
  lemma CalledExactly(run: seq<Event>, slots: nat, n: nat, c: Firing)
    requires Legal(run, slots) && n < |run|
    ensures c in Calls(StateAfter(run, n), run[n], slots)
      <==>
      && run[n].Updates() && !(run[n].CancelEvent? && run[n].id == c.id)
      && exists i: nat ::
           Lives(run, i, n, c.id) && run[i].arg == c.arg && run[i].now + run[i].timeout <= run[n].now
    ensures CallCount(Calls(StateAfter(run, n), run[n], slots), c.id) <= 1
  {
    hide Step, StateAfter, Undisturbed, Due;
    var m, e := StateAfter(run, n), run[n];
    var rest := Exposed(m, e);
    DueCallsOnce(rest, e.now, slots, c.id);
    DueExactly(rest, e.now, slots, c);
    if c.id in m {
      var i := PendingWasSet(run, n, c.id);
    }
    forall i: nat | Lives(run, i, n, c.id)
      ensures c.id in m && c.id < slots && m[c.id] == Pending(run[i].now + run[i].timeout, run[i].arg)
    {
      DeadlineFixed(run, slots, i, n);
    }
  }

  lemma {:induction false} DueExactly(m: map<nat, Pending>, now: nat, n: nat, c: Firing)
    ensures c in Due(m, now, n) <==> c.id < n && c.id in m && c.arg == m[c.id].arg && m[c.id].deadline <= now
  {
    hide Due;
    DueUnfolds(m, now, n);
    if n > 0 {
      DueExactly(m, now, n - 1, c);
    }
  }

  /** Calls are made in the order of the slots. */
  lemma {:induction false} DueInOrder(m: map<nat, Pending>, now: nat, n: nat)
    ensures forall j, k :: 0 <= j < k < |Due(m, now, n)| ==> Due(m, now, n)[j].id < Due(m, now, n)[k].id
    ensures forall k :: 0 <= k < |Due(m, now, n)| ==> Due(m, now, n)[k].id < n
  {
    hide Due;
    DueUnfolds(m, now, n);
    if n > 0 {
      DueInOrder(m, now, n - 1);
    }
  }

  /** Slot id is not set in the events from i on, before n. */
  ghost predicate NotSet(run: seq<Event>, i: nat, n: nat, id: nat)
    requires n <= |run|
  {
    forall k :: i <= k < n ==> !(run[k].SetEvent? && run[k].id == id)
  }

  /**
   * A cancelled timer is gone. After a cancel of a slot at event i, whether
   * or not it was the one waited for, nothing is pending in the slot and it is
   * not called, at this event or a later one, until it is set again.
   */
  lemma {:induction false} CancelledIsGone(run: seq<Event>, slots: nat, i: nat, n: nat)
    requires i < n <= |run| && run[i].CancelEvent? && NotSet(run, i + 1, n, run[i].id)
    ensures run[i].id !in StateAfter(run, n)
    ensures NotCalled(run, slots, i, n, run[i].id)
  {
    hide Step, Calls, StateAfter, NotCalled, NotSet;
    var id := run[i].id;
    StateStep(run, n - 1);
    if n == i + 1 {
      CancelRemoves(StateAfter(run, i), run[i], slots);
      NothingCalled(run, slots, i, id);
    } else {
      NotSetPrefix(run, i + 1, n, id);
      CancelledIsGone(run, slots, i, n - 1);
      AbsentStays(StateAfter(run, n - 1), run[n - 1], slots, id);
    }
    NotCalledExtend(run, slots, i, n, id);
  }

  lemma CancelRemoves(m: map<nat, Pending>, e: Event, slots: nat)
    requires e.CancelEvent?
    ensures e.id !in Step(m, e) && CallCount(Calls(m, e, slots), e.id) == 0
  {
    DueCallsOnce(m - {e.id}, e.now, slots, e.id);
  }

  lemma AbsentStays(m: map<nat, Pending>, e: Event, slots: nat, id: nat)
    requires id !in m && !(e.SetEvent? && e.id == id)
    ensures id !in Step(m, e) && CallCount(Calls(m, e, slots), id) == 0
  {
    DueCallsOnce(Exposed(m, e), e.now, slots, id);
  }

  lemma NothingCalled(run: seq<Event>, slots: nat, i: nat, id: nat)
    requires i <= |run|
    ensures NotCalled(run, slots, i, i, id)
  {
  }

  lemma NotSetPrefix(run: seq<Event>, i: nat, n: nat, id: nat)
    requires i < n <= |run| && NotSet(run, i, n, id)
    ensures NotSet(run, i, n - 1, id) && !(run[n - 1].SetEvent? && run[n - 1].id == id)
  {
  }

  /**
   * What an event does to a timer it neither sets nor cancels: it is called,
   * once and with its argument, and is gone, if the event updates at or after
   * its deadline, and otherwise keeps deadline and argument and is not called.
   */
  lemma OthersKeptOrDue(m: map<nat, Pending>, e: Event, slots: nat, id: nat)
    requires id in m && id < slots && (e.TickEvent? || e.id != id)
    ensures if e.Updates() && m[id].deadline <= e.now then
        id !in Step(m, e) && Firing(id, m[id].arg) in Calls(m, e, slots) && CallCount(Calls(m, e, slots), id) == 1
      else
        id in Step(m, e) && Step(m, e)[id] == m[id] && CallCount(Calls(m, e, slots), id) == 0
  {
    var rest := Exposed(m, e);
    DueCallsOnce(rest, e.now, slots, id);
    DueExactly(rest, e.now, slots, Firing(id, m[id].arg));
  }

  /** The same of the queue itself: what it holds, over everything its methods have been through. */
  lemma QueueHoldsExactly(queue: TimerQueue, id: nat, p: Pending)
    requires queue.Valid()
    ensures id in queue.Pendings() && queue.Pendings()[id] == p
      <==> exists i: nat ::
             && Lives(queue.history, i, |queue.history|, id)
             && p == Pending(queue.history[i].now + queue.history[i].timeout, queue.history[i].arg)
  {
    hide StateAfter, Lives;
    PendingExactly(queue.history, queue.timerq.Length, |queue.history|, id, p);
  }

  /** A slot cancelled and not set since is empty in the queue, and has not been called since. */
  lemma QueueForgetsCancelled(queue: TimerQueue, i: nat)
    requires queue.Valid() && i < |queue.history| && queue.history[i].CancelEvent?
    requires NotSet(queue.history, i + 1, |queue.history|, queue.history[i].id)
    ensures queue.history[i].id !in queue.Pendings()
    ensures CallCount(queue.fired, queue.history[i].id)
         == CallCount(AllCalls(queue.history[..i], queue.timerq.Length), queue.history[i].id)
  {
    hide StateAfter, NotCalled, NotSet, AllCalls, CallCount;
    var run := queue.history;
    CancelledIsGone(run, queue.timerq.Length, i, |run|);
    QuietCalls(run, queue.timerq.Length, i, |run|, run[i].id);
    assert run[..|run|] == run;
  }

  /** Events that do not call a slot leave the number of its calls. */
  lemma {:induction false} QuietCalls(run: seq<Event>, slots: nat, i: nat, n: nat, id: nat)
    requires i <= n <= |run| && NotCalled(run, slots, i, n, id)
    ensures CallCount(AllCalls(run[..n], slots), id) == CallCount(AllCalls(run[..i], slots), id)
  {
    hide Calls, CallCount, StateAfter;
    if i < n {
      var upTo := run[..n];
      assert upTo[..n - 1] == run[..n - 1];
      QuietCalls(run, slots, i, n - 1, id);
      SamePrefix(run, n, n - 1);
      CountJoined(AllCalls(run[..n - 1], slots), Calls(StateAfter(run, n - 1), run[n - 1], slots), id);
    }
  }

  lemma {:induction false} SamePrefix(run: seq<Event>, n: nat, k: nat)
    requires k <= n <= |run|
    ensures StateAfter(run[..n], k) == StateAfter(run, k)
  {
    if k > 0 {
      SamePrefix(run, n, k - 1);
    }
  }

  lemma {:induction false} CountJoined(cs: seq<Firing>, more: seq<Firing>, id: nat)
    ensures CallCount(cs + more, id) == CallCount(cs, id) + CallCount(more, id)
  {
    hide CallCount;
    if more == [] {
      assert cs + more == cs;
      CountNothing(id);
    } else {
      var n := |more| - 1;
      CountJoined(cs, more[..n], id);
      CountAdded(cs + more[..n], more[n], id);
      CountAdded(more[..n], more[n], id);
      assert cs + more == cs + more[..n] + [more[n]] && more == more[..n] + [more[n]];
    }
  }

  lemma CountNothing(id: nat)
    ensures CallCount([], id) == 0
  {
  }

  /** No call comes before the deadline of the pending timer it belongs to. */
  lemma NeverEarly(run: seq<Event>, slots: nat, n: nat, k: nat)
    requires n < |run| && k < |Calls(StateAfter(run, n), run[n], slots)|
    ensures var c := Calls(StateAfter(run, n), run[n], slots)[k];
      c.id in StateAfter(run, n) && StateAfter(run, n)[c.id].deadline <= run[n].now
      && StateAfter(run, n)[c.id].arg == c.arg
  {
    var m, e := StateAfter(run, n), run[n];
    DueCallsOnce(Exposed(m, e), e.now, slots, 0);
  }
}
