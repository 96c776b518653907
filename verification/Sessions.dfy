/**
 * The session table of the AC (ACMainLoop.c): the main thread hands a slot
 * to a session thread per WTP, and each session is counted, globally and per
 * interface, between its start and its end. Mutex sections and the writes
 * between them are the atomic steps; any interleaving is a run.
 */
module Sessions {
  import opened Wire

  // ---------- the shared globals ----------

  /** The members of CWWTPManager that matter here. */
  datatype Slot = Slot(isNotFree: bool, interfaceIndex: nat)

  /** gWTPs, gInterfaces[].WTPCount and gActiveWTPs. */
  datatype Shared = Shared(slots: seq<Slot>, counts: seq<int>, active: int)

  /** The first free slot, or |slots|. */
  function FirstFree(slots: seq<Slot>): (i: nat)
    ensures i <= |slots|
    ensures i < |slots| ==> !slots[i].isNotFree
    ensures forall k :: 0 <= k < i ==> slots[k].isNotFree
  {
    if slots == [] then 0
    else if !slots[0].isNotFree then 0
    else 1 + FirstFree(slots[1..])
  }

  function Claimed(g: Shared): Shared
    requires FirstFree(g.slots) < |g.slots|
  {
    var i := FirstFree(g.slots);
    g.(slots := g.slots[i := g.slots[i].(isNotFree := true)])
  }

  function Freed(g: Shared, i: nat): Shared
    requires i < |g.slots|
  {
    g.(slots := g.slots[i := g.slots[i].(isNotFree := false)])
  }

  function Counted(g: Shared, iface: nat): Shared
    requires iface < |g.counts|
  {
    g.(active := g.active + 1, counts := g.counts[iface := g.counts[iface] + 1])
  }

  function Bound(g: Shared, i: nat, iface: nat): Shared
    requires i < |g.slots|
  {
    g.(slots := g.slots[i := g.slots[i].(interfaceIndex := iface)])
  }

  function Uncounted(g: Shared, i: nat): Shared
    requires i < |g.slots| && g.slots[i].interfaceIndex < |g.counts|
  {
    var iface := g.slots[i].interfaceIndex;
    g.(active := g.active - 1, counts := g.counts[iface := g.counts[iface] - 1])
  }

  /** The globals as they are in memory, with the sections that change them. */
  class Globals {
    const gWTPs: array<Slot>
    const gInterfaces: array<int>
    var gActiveWTPs: int

    ghost function View(): Shared
      reads this, gWTPs, gInterfaces
    {
      Shared(gWTPs[..], gInterfaces[..], gActiveWTPs)
    }

    /** CWACInit: every slot free, every count zero. */
    constructor (maxWtp: nat, interfaces: nat)
      ensures fresh(gWTPs) && fresh(gInterfaces)
      ensures View() == Initial(maxWtp, interfaces).shared
    {
      gWTPs := new Slot[maxWtp](_ => Slot(false, 0));
      gInterfaces := new int[interfaces](_ => 0);
      gActiveWTPs := 0;
      new;
      assert gWTPs[..] == seq(maxWtp, _ => Slot(false, 0));
      assert gInterfaces[..] == seq(interfaces, _ => 0);
    }

    /**
     * CWACManageIncomingPacket, under gWTPsMutex: take the first free slot.
     * None says that there is none, which the source does not check for.
     */
    method ClaimSlot() returns (r: Option<nat>)
      modifies gWTPs
      ensures r == None <==> forall k :: 0 <= k < gWTPs.Length ==> old(gWTPs[k].isNotFree)
      ensures r == None ==> View() == old(View())
      ensures r.Some? ==> r.value == FirstFree(old(View()).slots) < gWTPs.Length && View() == Claimed(old(View()))
    {
      var i := 0;
      while i < gWTPs.Length && gWTPs[i].isNotFree
        invariant i <= gWTPs.Length
        invariant forall k :: 0 <= k < i ==> gWTPs[k].isNotFree
      {
        i := i + 1;
      }
      if i == gWTPs.Length {
        return None;
      }
      assert FirstFree(gWTPs[..]) == i;
      gWTPs[i] := gWTPs[i].(isNotFree := true);
      r := Some(i);
    }

    /** Giving the slot back: a failed start in the main thread, or the end of _CWCloseThread. */
    method FreeSlot(i: nat)
      requires i < gWTPs.Length
      modifies gWTPs
      ensures View() == Freed(old(View()), i)
    {
      gWTPs[i] := gWTPs[i].(isNotFree := false);
    }

    /** CWManageWTP, under gActiveWTPsMutex. */
    method CountSession(interfaceIndex: nat)
      requires interfaceIndex < gInterfaces.Length
      modifies this`gActiveWTPs, gInterfaces
      ensures View() == Counted(old(View()), interfaceIndex)
    {
      gActiveWTPs := gActiveWTPs + 1;
      gInterfaces[interfaceIndex] := gInterfaces[interfaceIndex] + 1;
    }

    /** CWManageWTP, after the section: the slot remembers its interface. */
    method BindInterface(i: nat, interfaceIndex: nat)
      requires i < gWTPs.Length
      modifies gWTPs
      ensures View() == Bound(old(View()), i, interfaceIndex)
    {
      gWTPs[i] := gWTPs[i].(interfaceIndex := interfaceIndex);
    }

    /** _CWCloseThread, under gActiveWTPsMutex: the interface is the one the slot remembers. */
    method UncountSession(i: nat)
      requires i < gWTPs.Length && gWTPs[i].interfaceIndex < gInterfaces.Length
      modifies this`gActiveWTPs, gInterfaces
      ensures View() == Uncounted(old(View()), i)
    {
      var iface := gWTPs[i].interfaceIndex;
      gInterfaces[iface] := gInterfaces[iface] - 1;
      gActiveWTPs := gActiveWTPs - 1;
    }
  }

  // ---------- threads and interleavings ----------

  /** Where a session thread is. */
  datatype Pc =
    | Created    // before CWThreadSetSpecific
    | Started    // about to be counted
    | CountedPc  // counted, the slot does not name the interface yet
    | Running    // anywhere in the session
    | Aborted    // CWThreadSetSpecific failed: closing without having been counted
    | Closed     // uncounted, the slot not yet given back
    | Done

  /** slot and iface are the thread's arguments; hit is the interface its close decremented. */
  datatype Thread = Thread(slot: nat, iface: nat, pc: Pc, aborted: bool, hit: nat)

  datatype MainPc = Waiting | Starting(slot: nat, iface: nat)

  datatype System = System(shared: Shared, main: MainPc, threads: seq<Thread>)

  datatype Step =
    | NewWtp(incomingInterfaceIndex: int)  // the main thread claims a slot for an unknown WTP
    | StartFails                           // its packet list or thread cannot be created
    | ThreadCreated
    | SpecificSet(t: nat)
    | SpecificFails(t: nat)
    | Count(t: nat)
    | Bind(t: nat)
    | Uncount(t: nat)                      // a close: requested, by timer, or by error
    | Release(t: nat)

  function Initial(maxWtp: nat, interfaces: nat): System {
    System(Shared(seq(maxWtp, _ => Slot(false, 0)), seq(interfaces, _ => 0), 0), Waiting, [])
  }

  /** A negative interface index, for a packet sent to a broadcast address, becomes 0. */
  function Interface(incomingInterfaceIndex: int): nat {
    if incomingInterfaceIndex < 0 then 0 else incomingInterfaceIndex
  }

  predicate At(s: System, t: nat, pc: Pc) {
    t < |s.threads| && s.threads[t].pc == pc
  }

  predicate Enabled(s: System, step: Step) {
    match step
    case NewWtp(incoming) =>
      s.main.Waiting? && FirstFree(s.shared.slots) < |s.shared.slots| && Interface(incoming) < |s.shared.counts|
    case StartFails => s.main.Starting?
    case ThreadCreated => s.main.Starting?
    case SpecificSet(t) => At(s, t, Created)
    case SpecificFails(t) => At(s, t, Created)
    case Count(t) => At(s, t, Started)
    case Bind(t) => At(s, t, CountedPc)
    case Uncount(t) => At(s, t, Running) || At(s, t, Aborted)
    case Release(t) => At(s, t, Closed)
  }

  function Moved(s: System, t: nat, pc: Pc): System
    requires t < |s.threads|
  {
    s.(threads := s.threads[t := s.threads[t].(pc := pc)])
  }

  function Next(s: System, step: Step): System
    requires Enabled(s, step) && InRange(s)
  {
    match step
    case NewWtp(incoming) =>
      s.(shared := Claimed(s.shared), main := Starting(FirstFree(s.shared.slots), Interface(incoming)))
    case StartFails => s.(shared := Freed(s.shared, s.main.slot), main := Waiting)
    case ThreadCreated =>
      s.(main := Waiting, threads := s.threads + [Thread(s.main.slot, s.main.iface, Created, false, 0)])
    case SpecificSet(t) => Moved(s, t, Started)
    case SpecificFails(t) => s.(threads := s.threads[t := s.threads[t].(pc := Aborted, aborted := true)])
    case Count(t) => Moved(s, t, CountedPc).(shared := Counted(s.shared, s.threads[t].iface))
    case Bind(t) => Moved(s, t, Running).(shared := Bound(s.shared, s.threads[t].slot, s.threads[t].iface))
    case Uncount(t) =>
      var i := s.threads[t].slot;
      var hit := s.shared.slots[i].interfaceIndex;
      s.(shared := Uncounted(s.shared, i), threads := s.threads[t := s.threads[t].(pc := Closed, hit := hit)])
    case Release(t) => Moved(s, t, Done).(shared := Freed(s.shared, s.threads[t].slot))
  }

  /** Every index in the system refers to something. */
  ghost predicate InRange(s: System) {
    && (forall k :: 0 <= k < |s.shared.slots| ==> s.shared.slots[k].interfaceIndex < |s.shared.counts|)
    && (forall t :: 0 <= t < |s.threads| ==>
          s.threads[t].slot < |s.shared.slots| && s.threads[t].iface < |s.shared.counts|)
    && (s.main.Starting? ==> s.main.slot < |s.shared.slots| && s.main.iface < |s.shared.counts|)
  }

  // ---------- counting threads ----------

  /** The thread is between its increment and its decrement. */
  predicate Active(t: Thread) {
    t.pc == CountedPc || t.pc == Running
  }

  /** The thread decremented without having incremented. */
  predicate Unmatched(t: Thread) {
    t.aborted && (t.pc == Closed || t.pc == Done)
  }

  /** What a thread should contribute to the count of interface f. */
  function Share(t: Thread, f: nat): int {
    (if Active(t) && t.iface == f then 1 else 0) - (if Unmatched(t) && t.hit == f then 1 else 0)
  }

  function Shares(ts: seq<Thread>, f: nat): int {
    if ts == [] then 0 else Shares(ts[..|ts| - 1], f) + Share(ts[|ts| - 1], f)
  }

  function ActiveCount(ts: seq<Thread>): nat {
    if ts == [] then 0 else ActiveCount(ts[..|ts| - 1]) + (if Active(ts[|ts| - 1]) then 1 else 0)
  }

  function UnmatchedCount(ts: seq<Thread>): nat {
    if ts == [] then 0 else UnmatchedCount(ts[..|ts| - 1]) + (if Unmatched(ts[|ts| - 1]) then 1 else 0)
  }

  /** Sessions on interface f between their increment and their decrement. */
  function ActiveOn(ts: seq<Thread>, f: nat): nat {
    if ts == [] then 0
    else ActiveOn(ts[..|ts| - 1], f) + (if Active(ts[|ts| - 1]) && ts[|ts| - 1].iface == f then 1 else 0)
  }

  function Sum(counts: seq<int>): int {
    if counts == [] then 0 else Sum(counts[..|counts| - 1]) + counts[|counts| - 1]
  }

  lemma {:induction false} CountsAfterChange(ts: seq<Thread>, t: nat, new_: Thread, f: nat)
    requires t < |ts|
    ensures Shares(ts[t := new_], f) == Shares(ts, f) - Share(ts[t], f) + Share(new_, f)
    ensures ActiveCount(ts[t := new_])
         == ActiveCount(ts) - (if Active(ts[t]) then 1 else 0) + (if Active(new_) then 1 else 0)
    ensures UnmatchedCount(ts[t := new_])
         == UnmatchedCount(ts) - (if Unmatched(ts[t]) then 1 else 0) + (if Unmatched(new_) then 1 else 0)
  {
    var n := |ts| - 1;
    var us := ts[t := new_];
    if t == n {
      assert us[..n] == ts[..n];
    } else {
      assert us[..n] == ts[..n][t := new_];
      CountsAfterChange(ts[..n], t, new_, f);
    }
  }

  lemma {:induction false} SumAfterChange(counts: seq<int>, f: nat, v: int)
    requires f < |counts|
    ensures Sum(counts[f := v]) == Sum(counts) - counts[f] + v
  {
    var n := |counts| - 1;
    if f == n {
      assert counts[f := v][..n] == counts[..n];
    } else {
      assert counts[f := v][..n] == counts[..n][f := v];
      SumAfterChange(counts[..n], f, v);
    }
  }

  // ---------- the invariant ----------

  /** A thread holds its slot until it has given it back. */
  predicate Holds(t: Thread, i: nat) {
    t.pc != Done && t.slot == i
  }

  ghost predicate MainHolds(s: System, i: nat) {
    s.main.Starting? && s.main.slot == i
  }

  /** No slot has two owners, and a slot is marked exactly while it has one. */
  ghost predicate Owned(s: System) {
    && (forall t, u :: 0 <= t < u < |s.threads| && s.threads[t].pc != Done && s.threads[u].pc != Done ==>
          s.threads[t].slot != s.threads[u].slot)
    && (forall t :: 0 <= t < |s.threads| && s.threads[t].pc != Done ==> !MainHolds(s, s.threads[t].slot))
    && (forall i :: 0 <= i < |s.shared.slots| ==> (s.shared.slots[i].isNotFree <==> HasOwner(s, i)))
  }

  ghost predicate HasOwner(s: System, i: nat) {
    MainHolds(s, i) || exists t :: 0 <= t < |s.threads| && Holds(s.threads[t], i)
  }

  /** A running session's slot names the interface that was incremented for it. */
  ghost predicate Remembered(s: System)
    requires InRange(s)
  {
    forall t :: 0 <= t < |s.threads| ==>
      var th := s.threads[t];
      && (th.pc == Running ==> s.shared.slots[th.slot].interfaceIndex == th.iface)
      && ((th.pc == Closed || th.pc == Done) && !th.aborted ==> th.hit == th.iface)
      && (th.pc == Aborted ==> th.aborted)
      && (th.pc in {Created, Started, CountedPc, Running} ==> !th.aborted)
  }

  /** The counters agree with the threads. */
  ghost predicate Conserved(s: System) {
    && (forall f :: 0 <= f < |s.shared.counts| ==> s.shared.counts[f] == Shares(s.threads, f))
    && s.shared.active == ActiveCount(s.threads) - UnmatchedCount(s.threads)
    && Sum(s.shared.counts) == s.shared.active
  }

  ghost predicate Invariant(s: System) {
    InRange(s) && Owned(s) && Remembered(s) && Conserved(s)
  }

  lemma {:induction false} SumOfZeros(n: nat)
    ensures Sum(seq(n, _ => 0)) == 0
  {
    if n > 0 {
      assert seq(n, _ => 0)[..n - 1] == seq(n - 1, _ => 0);
      SumOfZeros(n - 1);
    }
  }

  lemma InitialInvariant(maxWtp: nat, interfaces: nat)
    requires interfaces > 0
    ensures Invariant(Initial(maxWtp, interfaces))
  {
    SumOfZeros(interfaces);
  }

  lemma KeepsRange(s: System, step: Step)
    requires InRange(s) && Enabled(s, step)
    ensures InRange(Next(s, step))
  {
  }

  lemma KeepsRemembered(s: System, step: Step)
    requires InRange(s) && Owned(s) && Remembered(s) && Enabled(s, step)
    ensures InRange(Next(s, step)) && Remembered(Next(s, step))
  {
    KeepsRange(s, step);
  }

  /** A thread changes while keeping, or giving back, its slot. */
  lemma OwnedAfterMove(s: System, t: nat, th: Thread)
    requires Owned(s) && t < |s.threads| && s.threads[t].pc != Done && th.slot == s.threads[t].slot
    requires th.slot < |s.shared.slots|
    ensures var moved := s.(threads := s.threads[t := th]);
      if th.pc != Done then Owned(moved) else Owned(moved.(shared := Freed(s.shared, th.slot)))
  {
    var shared := if th.pc != Done then s.shared else Freed(s.shared, th.slot);
    var after := s.(threads := s.threads[t := th], shared := shared);
    forall i | 0 <= i < |s.shared.slots|
      ensures shared.slots[i].isNotFree <==> HasOwner(after, i)
    {
      if i != th.slot || th.pc != Done {
        SameOwner(s, after, t, i);
      } else {
        assert forall u :: 0 <= u < |s.threads| && u != t ==> !Holds(s.threads[u], i);
      }
    }
  }

  lemma SameOwner(s: System, after: System, t: nat, i: nat)
    requires t < |s.threads| && |after.threads| == |s.threads| && after.main == s.main
    requires forall u :: 0 <= u < |s.threads| && u != t ==> after.threads[u] == s.threads[u]
    requires Holds(s.threads[t], i) <==> Holds(after.threads[t], i)
    ensures HasOwner(s, i) <==> HasOwner(after, i)
  {
    forall u | 0 <= u < |s.threads| ensures Holds(s.threads[u], i) <==> Holds(after.threads[u], i) {}
    if HasOwner(s, i) && !MainHolds(s, i) {
      var u :| 0 <= u < |s.threads| && Holds(s.threads[u], i);
      assert Holds(after.threads[u], i);
    }
    if HasOwner(after, i) && !MainHolds(s, i) {
      var u :| 0 <= u < |s.threads| && Holds(after.threads[u], i);
      assert Holds(s.threads[u], i);
    }
  }

  /** The main thread takes a free slot, or gives the one it took back. */
  lemma OwnedAfterMain(s: System, step: Step)
    requires InRange(s) && Owned(s) && Enabled(s, step) && (step.NewWtp? || step.StartFails?)
    ensures Owned(Next(s, step))
  {
    var after := Next(s, step);
    var mine := if step.NewWtp? then FirstFree(s.shared.slots) else s.main.slot;
    assert !HasOwner(s, mine) || step.StartFails?;
    forall i | 0 <= i < |s.shared.slots|
      ensures after.shared.slots[i].isNotFree <==> HasOwner(after, i)
    {
      if i != mine {
        assert HasOwner(s, i) <==> HasOwner(after, i);
      }
    }
  }

  /** The main thread hands its slot to the thread it created. */
  lemma OwnedAfterCreate(s: System)
    requires InRange(s) && Owned(s) && s.main.Starting?
    ensures Owned(Next(s, ThreadCreated))
  {
    var after := Next(s, ThreadCreated);
    var n := |s.threads|;
    forall i | 0 <= i < |s.shared.slots|
      ensures after.shared.slots[i].isNotFree <==> HasOwner(after, i)
    {
      if MainHolds(s, i) {
        assert Holds(after.threads[n], i);
      } else if HasOwner(s, i) {
        var u :| 0 <= u < n && Holds(s.threads[u], i);
        assert Holds(after.threads[u], i);
      } else {
        assert forall u :: 0 <= u < n ==> after.threads[u] == s.threads[u];
      }
    }
  }

  lemma KeepsOwned(s: System, step: Step)
    requires InRange(s) && Owned(s) && Enabled(s, step)
    ensures Owned(Next(s, step))
  {
    var after := Next(s, step);
    match step {
      case NewWtp(_) => OwnedAfterMain(s, step);
      case StartFails => OwnedAfterMain(s, step);
      case ThreadCreated => OwnedAfterCreate(s);
      case SpecificSet(t) => OwnedAfterMove(s, t, after.threads[t]);
      case SpecificFails(t) => OwnedAfterMove(s, t, after.threads[t]);
      case Count(t) =>
        OwnedAfterMove(s, t, after.threads[t]);
        SameSlots(s.(threads := after.threads), after);
      case Bind(t) =>
        OwnedAfterMove(s, t, after.threads[t]);
        SameSlots(s.(threads := after.threads), after);
      case Uncount(t) =>
        OwnedAfterMove(s, t, after.threads[t]);
        SameSlots(s.(threads := after.threads), after);
      case Release(t) => OwnedAfterMove(s, t, after.threads[t]);
    }
  }

  /** Ownership does not depend on counters or interface indices. */
  lemma SameSlots(s: System, after: System)
    requires Owned(s) && after.threads == s.threads && after.main == s.main
    requires |after.shared.slots| == |s.shared.slots|
    requires forall i :: 0 <= i < |s.shared.slots| ==>
      after.shared.slots[i].isNotFree == s.shared.slots[i].isNotFree
    ensures Owned(after)
  {
    forall i | 0 <= i < |s.shared.slots| ensures HasOwner(s, i) <==> HasOwner(after, i) {
      assert MainHolds(s, i) <==> MainHolds(after, i);
    }
  }

  /** A thread moves and the counters move with it. */
  lemma ConservedAfterMove(s: System, after: System, t: nat)
    requires Conserved(s) && t < |s.threads| && |after.threads| == |s.threads|
    requires after.threads == s.threads[t := after.threads[t]]
    requires |after.shared.counts| == |s.shared.counts|
    requires forall f :: 0 <= f < |s.shared.counts| ==>
      after.shared.counts[f] - s.shared.counts[f] == Share(after.threads[t], f) - Share(s.threads[t], f)
    requires after.shared.active - s.shared.active
          == (if Active(after.threads[t]) then 1 else 0) - (if Unmatched(after.threads[t]) then 1 else 0)
           - (if Active(s.threads[t]) then 1 else 0) + (if Unmatched(s.threads[t]) then 1 else 0)
    requires Sum(after.shared.counts) - Sum(s.shared.counts) == after.shared.active - s.shared.active
    ensures Conserved(after)
  {
    forall f | 0 <= f < |s.shared.counts|
      ensures after.shared.counts[f] == Shares(after.threads, f)
    {
      CountsAfterChange(s.threads, t, after.threads[t], f);
    }
    CountsAfterChange(s.threads, t, after.threads[t], 0);
  }

  lemma {:induction false} CreatedAddsNothing(ts: seq<Thread>, t: Thread, f: nat)
    requires t.pc == Created && !t.aborted
    ensures Shares(ts + [t], f) == Shares(ts, f)
    ensures ActiveCount(ts + [t]) == ActiveCount(ts) && UnmatchedCount(ts + [t]) == UnmatchedCount(ts)
  {
    assert (ts + [t])[..|ts|] == ts;
  }

  lemma ConservedAfterCount(s: System, t: nat)
    requires InRange(s) && Remembered(s) && Conserved(s) && Enabled(s, Count(t))
    ensures Conserved(Next(s, Count(t)))
  {
    hide Shares, ActiveCount, UnmatchedCount, Sum;
    var f := s.threads[t].iface;
    SumAfterChange(s.shared.counts, f, s.shared.counts[f] + 1);
    ConservedAfterMove(s, Next(s, Count(t)), t);
  }

  lemma ConservedAfterUncount(s: System, t: nat)
    requires InRange(s) && Remembered(s) && Conserved(s) && Enabled(s, Uncount(t))
    ensures Conserved(Next(s, Uncount(t)))
  {
    hide Shares, ActiveCount, UnmatchedCount, Sum;
    var hit := s.shared.slots[s.threads[t].slot].interfaceIndex;
    SumAfterChange(s.shared.counts, hit, s.shared.counts[hit] - 1);
    ConservedAfterMove(s, Next(s, Uncount(t)), t);
  }

  lemma KeepsConserved(s: System, step: Step)
    requires InRange(s) && Remembered(s) && Conserved(s) && Enabled(s, step)
    ensures Conserved(Next(s, step))
  {
    hide Shares, ActiveCount, UnmatchedCount, Sum, FirstFree;
    var after := Next(s, step);
    match step {
      case NewWtp(_) =>
      case StartFails =>
      case ThreadCreated =>
        forall f | 0 <= f < |s.shared.counts| ensures Shares(after.threads, f) == Shares(s.threads, f) {
          CreatedAddsNothing(s.threads, after.threads[|s.threads|], f);
        }
        CreatedAddsNothing(s.threads, after.threads[|s.threads|], 0);
      case SpecificSet(t) => ConservedAfterMove(s, after, t);
      case SpecificFails(t) => ConservedAfterMove(s, after, t);
      case Count(t) => ConservedAfterCount(s, t);
      case Bind(t) => ConservedAfterMove(s, after, t);
      case Uncount(t) => ConservedAfterUncount(s, t);
      case Release(t) => ConservedAfterMove(s, after, t);
    }
  }

  // ---------- whole runs ----------

  /** The run is one the system can make from s. */
  predicate Possible(s: System, run: seq<Step>)
    requires Invariant(s)
    decreases |run|
  {
    run == []
    || (Enabled(s, run[0]) && (StepKeepsInvariant(s, run[0]); Possible(Next(s, run[0]), run[1..])))
  }

  function Outcome(s: System, run: seq<Step>): System
    requires Invariant(s) && Possible(s, run)
    decreases |run|
  {
    if run == [] then s
    else
      StepKeepsInvariant(s, run[0]);
      Outcome(Next(s, run[0]), run[1..])
  }

  lemma StepKeepsInvariant(s: System, step: Step)
    requires Invariant(s) && Enabled(s, step)
    ensures Invariant(Next(s, step))
  {
    KeepsRange(s, step);
    KeepsOwned(s, step);
    KeepsRemembered(s, step);
    KeepsConserved(s, step);
  }

  lemma {:induction false} RunKeepsInvariant(s: System, run: seq<Step>)
    requires Invariant(s) && Possible(s, run)
    ensures Invariant(Outcome(s, run))
    decreases |run|
  {
    if run != [] {
      StepKeepsInvariant(s, run[0]);
      RunKeepsInvariant(Next(s, run[0]), run[1..]);
    }
  }

  /** Without an unmatched decrement on it, an interface counts its active sessions. */
  lemma {:induction false} SharesWithoutUnmatched(ts: seq<Thread>, f: nat)
    ensures Shares(ts, f) <= ActiveOn(ts, f)
    ensures UnmatchedCount(ts) == 0 ==> Shares(ts, f) == ActiveOn(ts, f)
  {
    if ts != [] {
      SharesWithoutUnmatched(ts[..|ts| - 1], f);
    }
  }

  // ---------- read off the run ----------

  /** The last step of a run. */
  lemma {:induction false} LastStep(s: System, run: seq<Step>)
    requires Invariant(s) && Possible(s, run) && run != []
    ensures var n := |run| - 1;
      && Possible(s, run[..n])
      && Invariant(Outcome(s, run[..n]))
      && Enabled(Outcome(s, run[..n]), run[n])
      && Outcome(s, run) == Next(Outcome(s, run[..n]), run[n])
    decreases |run|
  {
    hide Next, Enabled, Invariant, InRange;
    var n := |run| - 1;
    StepKeepsInvariant(s, run[0]);
    InvariantInRange(s);
    if n == 0 {
      assert run[1..] == [] && run[..0] == [];
    } else {
      LastStep(Next(s, run[0]), run[1..]);
      assert run[1..][..n - 1] == run[..n][1..] && run[..n][0] == run[0];
    }
  }

  lemma InvariantInRange(s: System)
    requires Invariant(s)
    ensures InRange(s)
  {
  }

  /** The interface index of the packet the main thread is working on. */
  function Incoming(run: seq<Step>): int {
    if run == [] then 0
    else if run[|run| - 1].NewWtp? then run[|run| - 1].incomingInterfaceIndex
    else Incoming(run[..|run| - 1])
  }

  /** For each thread the run creates, in order, the interface index of the packet it was created for. */
  function Arrivals(run: seq<Step>): seq<int> {
    if run == [] then []
    else
      var before := Arrivals(run[..|run| - 1]);
      if run[|run| - 1].ThreadCreated? then before + [Incoming(run[..|run| - 1])] else before
  }

  /** A packet for interface f, where 0 also stands for packets sent to a broadcast address. */
  predicate CameInOn(arrival: int, f: nat) {
    arrival == f || (arrival < 0 && f == 0)
  }

  /** For each thread the run creates, in order, the slot claimed for it. */
  ghost function Claims(s: System, run: seq<Step>): seq<nat>
    requires Invariant(s) && Possible(s, run)
    decreases |run|
  {
    if run == [] then []
    else
      LastStep(s, run);
      var before := Claims(s, run[..|run| - 1]);
      if run[|run| - 1].ThreadCreated? then before + [LatestClaim(s, run[..|run| - 1])] else before
  }

  /** The slot that was the first free one at the latest claim. */
  ghost function LatestClaim(s: System, run: seq<Step>): nat
    requires Invariant(s) && Possible(s, run)
    decreases |run|
  {
    if run == [] then 0
    else
      LastStep(s, run);
      var init := run[..|run| - 1];
      if run[|run| - 1].NewWtp? then FirstFree(Outcome(s, init).shared.slots) else LatestClaim(s, init)
  }

  /**
   * Every thread serves the WTP it was created for: its interface is that of
   * the packet, 0 for a broadcast, and its slot is the one claimed then.
   */
  ghost predicate FromPackets(s: System, threads: seq<Thread>, run: seq<Step>)
    requires Invariant(s) && Possible(s, run)
  {
    && |Arrivals(run)| == |Claims(s, run)| == |threads|
    && forall t :: 0 <= t < |threads| ==>
         CameInOn(Arrivals(run)[t], threads[t].iface) && threads[t].slot == Claims(s, run)[t]
  }

  lemma {:induction false} ThreadsFromPackets(s: System, run: seq<Step>)
    requires Invariant(s) && s.main.Waiting? && s.threads == [] && Possible(s, run)
    ensures var after := Outcome(s, run);
      && FromPackets(s, after.threads, run)
      && (after.main.Starting? ==>
            CameInOn(Incoming(run), after.main.iface) && after.main.slot == LatestClaim(s, run))
    decreases |run|
  {
    hide Invariant, InRange, Possible, Outcome, FirstFree, Next, Enabled;
    if run == [] {
      NoSteps(s, run);
    } else {
      var init, step := run[..|run| - 1], run[|run| - 1];
      LastStep(s, run);
      ThreadsFromPackets(s, init);
      InvariantInRange(Outcome(s, init));
      StepKeepsArguments(Outcome(s, init), step);
      forall t | 0 <= t < |Outcome(s, run).threads|
        ensures CameInOn(Arrivals(run)[t], Outcome(s, run).threads[t].iface)
        ensures Outcome(s, run).threads[t].slot == Claims(s, run)[t]
      {
        if t < |Outcome(s, init).threads| {
          assert Arrivals(run)[t] == Arrivals(init)[t] && Claims(s, run)[t] == Claims(s, init)[t];
        }
      }
    }
  }

  /** What a step does to the arguments of the threads and to what the main thread is working on. */
  lemma StepKeepsArguments(s: System, step: Step)
    requires Enabled(s, step) && InRange(s)
    ensures var after := Next(s, step);
      && |after.threads| == |s.threads| + (if step.ThreadCreated? then 1 else 0)
      && (forall t :: 0 <= t < |s.threads| ==>
            after.threads[t].iface == s.threads[t].iface && after.threads[t].slot == s.threads[t].slot)
      && (step.ThreadCreated? ==>
            && s.main.Starting?
            && after.threads[|s.threads|].iface == s.main.iface && after.threads[|s.threads|].slot == s.main.slot)
      && (step.NewWtp? ==>
            && after.main.Starting? && after.main.slot == FirstFree(s.shared.slots)
            && CameInOn(step.incomingInterfaceIndex, after.main.iface))
      && (!step.NewWtp? && after.main.Starting? ==> after.main == s.main)
  {
    hide FirstFree;
  }

  lemma NoSteps(s: System, run: seq<Step>)
    requires Invariant(s) && run == []
    ensures Possible(s, run) && Outcome(s, run) == s
  {
  }

  /** The steps a thread has taken tell where it is. */
  ghost predicate Tells(th: Thread, t: nat, run: seq<Step>) {
    var closed := th.pc == Closed || th.pc == Done;
    && (SpecificSet(t) in run <==> !th.aborted && th.pc != Created)
    && (SpecificFails(t) in run <==> th.aborted)
    && (Count(t) in run <==> !th.aborted && th.pc != Created && th.pc != Started)
    && (Bind(t) in run <==> !th.aborted && (th.pc == Running || closed))
    && (Uncount(t) in run <==> closed)
    && (Release(t) in run <==> th.pc == Done)
    && (th.pc == Aborted ==> th.aborted)
    && (th.aborted ==> th.pc == Aborted || closed)
  }

  /** The thread that takes a step, or None for the main thread. */
  function Actor(step: Step): Option<nat> {
    match step
    case NewWtp(_) => None
    case StartFails => None
    case ThreadCreated => None
    case SpecificSet(t) => Some(t)
    case SpecificFails(t) => Some(t)
    case Count(t) => Some(t)
    case Bind(t) => Some(t)
    case Uncount(t) => Some(t)
    case Release(t) => Some(t)
  }

  /** No step of a thread that does not exist. */
  predicate NoStepOf(step: Step, n: nat) {
    Actor(step).Some? ==> Actor(step).value < n
  }

  lemma {:induction false} StepsTell(s: System, run: seq<Step>)
    requires Invariant(s) && s.main.Waiting? && s.threads == [] && Possible(s, run)
    ensures var threads := Outcome(s, run).threads;
      && (forall t :: 0 <= t < |threads| ==> Tells(threads[t], t, run))
      && (forall step :: step in run ==> NoStepOf(step, |threads|))
    decreases |run|
  {
    hide Invariant, InRange, Possible, Outcome, Next, Enabled, Tells, NoStepOf;
    if run == [] {
      NoSteps(s, run);
    } else {
      var init, step := run[..|run| - 1], run[|run| - 1];
      LastStep(s, run);
      var before := Outcome(s, init);
      StepsTell(s, init);
      InvariantInRange(before);
      assert run == init + [step];
      forall t | 0 <= t < |Outcome(s, run).threads| ensures Tells(Outcome(s, run).threads[t], t, run) {
        StepTells(before, init, step, t);
      }
      forall other | other in run ensures NoStepOf(other, |Outcome(s, run).threads|) {
        StepOfThread(before, step, other);
      }
    }
  }

  lemma StepOfThread(s: System, step: Step, other: Step)
    requires Enabled(s, step) && InRange(s)
    requires other == step || NoStepOf(other, |s.threads|)
    ensures NoStepOf(other, |Next(s, step).threads|)
  {
    hide FirstFree, InRange;
  }

  lemma StepTells(s: System, run: seq<Step>, step: Step, t: nat)
    requires Enabled(s, step) && InRange(s)
    requires forall u :: 0 <= u < |s.threads| ==> Tells(s.threads[u], u, run)
    requires forall other :: other in run ==> NoStepOf(other, |s.threads|)
    requires t < |Next(s, step).threads|
    ensures Tells(Next(s, step).threads[t], t, run + [step])
  {
    hide FirstFree, InRange, Next, Enabled, Tells, NoStepOf;
    OthersStay(s, step, t);
    if t == |s.threads| {
      NewTells(Next(s, step).threads[t], t, run, step);
    } else if Actor(step) == Some(t) {
      OwnStepTells(s, run, step, t);
    } else {
      SameTells(s.threads[t], t, run, step);
    }
  }

  lemma OthersStay(s: System, step: Step, t: nat)
    requires Enabled(s, step) && InRange(s) && t < |Next(s, step).threads|
    ensures t <= |s.threads| && (t == |s.threads| ==> step.ThreadCreated?)
    ensures t < |s.threads| && Actor(step) != Some(t) ==> Next(s, step).threads[t] == s.threads[t]
    ensures t == |s.threads| ==>
      Next(s, step).threads[t].pc == Created && !Next(s, step).threads[t].aborted
  {
    hide FirstFree, InRange;
  }

  lemma NewTells(th: Thread, t: nat, run: seq<Step>, step: Step)
    requires th.pc == Created && !th.aborted && step.ThreadCreated?
    requires forall other :: other in run ==> NoStepOf(other, t)
    ensures Tells(th, t, run + [step])
  {
    assert forall other :: other in run + [step] ==> Actor(other) != Some(t);
  }

  lemma SameTells(th: Thread, t: nat, run: seq<Step>, step: Step)
    requires Tells(th, t, run) && Actor(step) != Some(t)
    ensures Tells(th, t, run + [step])
  {
    assert forall other :: Actor(other) == Some(t) ==> (other in run + [step] <==> other in run);
  }

  lemma OwnStepTells(s: System, run: seq<Step>, step: Step, t: nat)
    requires Enabled(s, step) && InRange(s) && Actor(step) == Some(t) && t < |s.threads|
    requires Tells(s.threads[t], t, run) && t < |Next(s, step).threads|
    ensures Tells(Next(s, step).threads[t], t, run + [step])
  {
    hide FirstFree, InRange;
    assert forall other :: other in run + [step] <==> other in run || other == step;
  }

  /**
   * Which steps a thread can take next, read off the run: those of its code,
   * in their order, each once; a close follows the start or its failure.
   */
  lemma StepsInOrder(maxWtp: nat, interfaces: nat, run: seq<Step>, t: nat)
    requires interfaces > 0 && (InitialInvariant(maxWtp, interfaces); Possible(Initial(maxWtp, interfaces), run))
    requires t < |Outcome(Initial(maxWtp, interfaces), run).threads|
    ensures var s := Outcome(Initial(maxWtp, interfaces), run);
      && (Enabled(s, SpecificSet(t)) <==> SpecificSet(t) !in run && SpecificFails(t) !in run)
      && (Enabled(s, SpecificFails(t)) <==> SpecificSet(t) !in run && SpecificFails(t) !in run)
      && (Enabled(s, Count(t)) <==> SpecificSet(t) in run && Count(t) !in run)
      && (Enabled(s, Bind(t)) <==> Count(t) in run && Bind(t) !in run)
      && (Enabled(s, Uncount(t)) <==> (Bind(t) in run || SpecificFails(t) in run) && Uncount(t) !in run)
      && (Enabled(s, Release(t)) <==> Uncount(t) in run && Release(t) !in run)
  {
    hide Possible, Outcome, FirstFree, Invariant;
    InitialInvariant(maxWtp, interfaces);
    StepsTell(Initial(maxWtp, interfaces), run);
    assert Tells(Outcome(Initial(maxWtp, interfaces), run).threads[t], t, run);
  }

  /** Thread t has been counted and not uncounted, says the run, and its packet came in on interface f. */
  predicate SessionOn(run: seq<Step>, t: nat, f: nat) {
    t < |Arrivals(run)| && CameInOn(Arrivals(run)[t], f) && Count(t) in run && Uncount(t) !in run
  }

  /** How many of the first n threads are sessions on interface f. */
  function SessionsOn(run: seq<Step>, f: nat, n: nat): nat {
    if n == 0 then 0 else SessionsOn(run, f, n - 1) + (if SessionOn(run, n - 1, f) then 1 else 0)
  }

  /** How many of the first n threads are sessions. */
  function Sessions(run: seq<Step>, n: nat): nat {
    if n == 0 then 0 else Sessions(run, n - 1) + (if Count(n - 1) in run && Uncount(n - 1) !in run then 1 else 0)
  }

  /** How many of the first n threads closed after CWThreadSetSpecific failed. */
  function Lost(run: seq<Step>, n: nat): nat {
    if n == 0 then 0 else Lost(run, n - 1) + (if SpecificFails(n - 1) in run && Uncount(n - 1) in run then 1 else 0)
  }

  lemma {:induction false} CountsFromRun(ts: seq<Thread>, run: seq<Step>, f: nat, n: nat)
    requires n <= |ts| == |Arrivals(run)|
    requires forall t :: 0 <= t < |ts| ==> Tells(ts[t], t, run) && CameInOn(Arrivals(run)[t], ts[t].iface)
    ensures ActiveOn(ts[..n], f) == SessionsOn(run, f, n)
    ensures ActiveCount(ts[..n]) == Sessions(run, n)
    ensures UnmatchedCount(ts[..n]) == Lost(run, n)
  {
    if n > 0 {
      CountsFromRun(ts, run, f, n - 1);
      assert ts[..n][..n - 1] == ts[..n - 1];
    }
  }

  /**
   * Conservation under every interleaving, read off the run. Whatever the main
   * thread and the session threads have done so far:
   * every thread has the interface of the packet it was created for and the
   * slot claimed for it;
   * the interface counts add up to gActiveWTPs;
   * gActiveWTPs falls short of the sessions between their increment and
   * their decrement by one for every thread that closed because
   * CWThreadSetSpecific failed, so the two agree exactly when none has, and
   * then every interface counts exactly the sessions whose packets came in on it;
   * every other close hits the interface that was incremented;
   * and no slot is owned by two threads, nor free while owned.
   */
  lemma Conservation(maxWtp: nat, interfaces: nat, run: seq<Step>)
    requires interfaces > 0 && (InitialInvariant(maxWtp, interfaces); Possible(Initial(maxWtp, interfaces), run))
    ensures var initial := Initial(maxWtp, interfaces);
      var s := Outcome(initial, run);
      var n := |s.threads|;
      && FromPackets(initial, s.threads, run)
      && Sum(s.shared.counts) == s.shared.active
      && s.shared.active == Sessions(run, n) - Lost(run, n)
      && |s.shared.counts| == interfaces
      && (Lost(run, n) == 0 ==>
            forall f :: 0 <= f < interfaces ==> s.shared.counts[f] == SessionsOn(run, f, n))
      && (forall t :: 0 <= t < n && Uncount(t) in run && SpecificFails(t) !in run ==>
            s.threads[t].hit == s.threads[t].iface)
      && Owned(s)
  {
    hide Owned, Enabled, Next, FirstFree, Possible, Outcome, FromPackets, SessionOn, Sum;
    var initial := Initial(maxWtp, interfaces);
    InitialInvariant(maxWtp, interfaces);
    RunKeepsInvariant(initial, run);
    InterfacesStay(initial, run);
    ThreadsFromPackets(initial, run);
    StepsTell(initial, run);
    var s := Outcome(initial, run);
    assert s.threads[..|s.threads|] == s.threads;
    Packets(initial, s.threads, run);
    CountsFromRun(s.threads, run, 0, |s.threads|);
    forall f | 0 <= f < interfaces
      ensures Lost(run, |s.threads|) == 0 ==> s.shared.counts[f] == SessionsOn(run, f, |s.threads|)
    {
      SharesWithoutUnmatched(s.threads, f);
      CountsFromRun(s.threads, run, f, |s.threads|);
    }
  }

  lemma Packets(s: System, threads: seq<Thread>, run: seq<Step>)
    requires Invariant(s) && Possible(s, run) && FromPackets(s, threads, run)
    ensures |Arrivals(run)| == |threads|
    ensures forall t :: 0 <= t < |threads| ==> CameInOn(Arrivals(run)[t], threads[t].iface)
  {
  }

  lemma {:induction false} InterfacesStay(s: System, run: seq<Step>)
    requires Invariant(s) && Possible(s, run)
    ensures |Outcome(s, run).shared.counts| == |s.shared.counts|
    decreases |run|
  {
    hide Owned, Conserved, Remembered, FirstFree;
    if run != [] {
      StepKeepsInvariant(s, run[0]);
      InterfacesStay(Next(s, run[0]), run[1..]);
    }
  }

  /** Nothing is unmatched in a run in which CWThreadSetSpecific never fails. */
  lemma {:induction false} NoFailureNoUnmatched(s: System, run: seq<Step>)
    requires Invariant(s) && Possible(s, run)
    requires forall t :: 0 <= t < |s.threads| ==> !s.threads[t].aborted
    requires forall k :: 0 <= k < |run| ==> !run[k].SpecificFails?
    ensures UnmatchedCount(Outcome(s, run).threads) == 0
    decreases |run|
  {
    if run == [] {
      NoneUnmatched(s.threads);
    } else {
      StepKeepsInvariant(s, run[0]);
      NoFailureNoUnmatched(Next(s, run[0]), run[1..]);
    }
  }

  lemma {:induction false} NoneUnmatched(ts: seq<Thread>)
    requires forall t :: 0 <= t < |ts| ==> !ts[t].aborted
    ensures UnmatchedCount(ts) == 0
  {
    if ts != [] {
      NoneUnmatched(ts[..|ts| - 1]);
    }
  }

  /** One step in front of a run. */
  lemma Prefixed(s: System, step: Step, rest: seq<Step>)
    requires Invariant(s) && Enabled(s, step)
    requires Invariant(Next(s, step)) && Possible(Next(s, step), rest)
    ensures Possible(s, [step] + rest) && Outcome(s, [step] + rest) == Outcome(Next(s, step), rest)
  {
    assert ([step] + rest)[1..] == rest;
  }

  /** From a state with one session thread just created, on a table of one slot and one interface. */
  lemma FailedStartRun(s: System)
    requires Invariant(s)
    requires s == System(Shared([Slot(true, 0)], [0], 0), Waiting, [Thread(0, 0, Created, false, 0)])
    ensures Possible(s, [SpecificFails(0), Uncount(0)])
    ensures Outcome(s, [SpecificFails(0), Uncount(0)])
         == System(Shared([Slot(true, 0)], [-1], -1), Waiting, [Thread(0, 0, Closed, true, 0)])
  {
    hide Owned, Remembered, Conserved;
    StepKeepsInvariant(s, SpecificFails(0));
    var s' := Next(s, SpecificFails(0));
    StepKeepsInvariant(s', Uncount(0));
    var s'' := Next(s', Uncount(0));
    assert Outcome(s'', []) == s'';
    Prefixed(s', Uncount(0), []);
    Prefixed(s, SpecificFails(0), [Uncount(0)]);
    assert [Uncount(0)] + [] == [Uncount(0)];
    assert [SpecificFails(0)] + [Uncount(0)] == [SpecificFails(0), Uncount(0)];
  }

  /** One failed start is enough to lose a count: an AC with no session counts -1. */
  lemma FailedStartLosesCount()
    ensures var s := Initial(1, 1);
      var run := [NewWtp(0), ThreadCreated, SpecificFails(0), Uncount(0)];
      && Invariant(s) && Possible(s, run)
      && ActiveCount(Outcome(s, run).threads) == 0 && Outcome(s, run).shared.active == -1
  {
    hide Owned, Remembered, Conserved;
    var s := Initial(1, 1);
    InitialInvariant(1, 1);
    assert s.shared.slots == [Slot(false, 0)] && s.shared.counts == [0];
    assert FirstFree(s.shared.slots) == 0;
    StepKeepsInvariant(s, NewWtp(0));
    var s' := Next(s, NewWtp(0));
    StepKeepsInvariant(s', ThreadCreated);
    var s'' := Next(s', ThreadCreated);
    var rest := [SpecificFails(0), Uncount(0)];
    FailedStartRun(s'');
    Prefixed(s', ThreadCreated, rest);
    Prefixed(s, NewWtp(0), [ThreadCreated] + rest);
    assert [NewWtp(0)] + ([ThreadCreated] + rest) == [NewWtp(0), ThreadCreated, SpecificFails(0), Uncount(0)];
    var ts := [Thread(0, 0, Closed, true, 0)];
    assert ts[..0] == [] && ActiveCount(ts) == 0;
  }
}
