/**
 * What a returned message is made of, whatever arrives: over arbitrary
 * traces, from senders of any kind, with wire IDs used in any way.
 */
module Provenance {
  import opened Wire
  import opened TransportHeader
  import opened Reassembly
  import opened Integrity

  // ---------- the first fragment at each place ----------

  /** The fragment a datagram carries, or None if it is no fragment. */
  function Carried(d: seq<byte>): Option<Fragment>
    requires HasHeader(d)
  {
    match ParseHeader(d)
    case None => None
    case Some(h) => if h.isFragment == 0 then None else Some(FragmentOf(d, h))
  }

  predicate Held(fs: seq<Fragment>, f: Fragment) {
    exists i :: 0 <= i < |fs| && SamePlace(f, fs[i])
  }

  /** Of what arrived, the first fragment at each place, the latest in front. */
  function Firsts(w: seq<Option<Fragment>>): seq<Fragment> {
    if w == [] then []
    else
      var before, c := Firsts(w[..|w| - 1]), w[|w| - 1];
      if c.Some? && !Held(before, c.value) then [c.value] + before else before
  }

  predicate ArrivedAt(w: seq<Option<Fragment>>, f: Fragment, j: nat) {
    j < |w| && w[j].Some? && SamePlace(f, w[j].value)
  }

  /** Something arrived at the place of f. */
  ghost predicate Arrived(w: seq<Option<Fragment>>, f: Fragment) {
    exists j: nat :: ArrivedAt(w, f, j)
  }

  ghost predicate FirstAt(w: seq<Option<Fragment>>, f: Fragment, j: nat) {
    j < |w| && w[j] == Some(f) && forall m: nat :: m < j ==> !ArrivedAt(w, f, m)
  }

  /** f arrived, and nothing at its place before it. */
  ghost predicate FirstIn(w: seq<Option<Fragment>>, f: Fragment) {
    exists j: nat :: FirstAt(w, f, j)
  }

  /** What is held is what arrived first at its place, and every place at which something arrived is taken. */
  lemma {:induction false} FirstsExactly(w: seq<Option<Fragment>>, f: Fragment)
    ensures f in Firsts(w) <==> FirstIn(w, f)
    ensures Held(Firsts(w), f) <==> Arrived(w, f)
  {
    hide Held, Arrived, FirstIn, SamePlace, Firsts;
    if w == [] {
      NothingHeld(w, f);
    } else {
      var init, c := w[..|w| - 1], w[|w| - 1];
      assert w == init + [c];
      FirstsExactly(init, f);
      ArrivedStep(init, c, f);
      FirstStep(init, c, f);
      FirstsNext(init, c);
      if c.Some? {
        HeldStep(Firsts(init), c.value, f);
        InFront(Firsts(init), c.value, f);
      }
    }
  }

  lemma InFront(before: seq<Fragment>, g: Fragment, f: Fragment)
    ensures f in [g] + before <==> f == g || f in before
  {
  }

  lemma NothingHeld(w: seq<Option<Fragment>>, f: Fragment)
    requires w == []
    ensures Firsts(w) == [] && !Held(Firsts(w), f) && !Arrived(w, f) && !FirstIn(w, f)
  {
  }

  lemma HeldStep(before: seq<Fragment>, g: Fragment, f: Fragment)
    ensures Held([g] + before, f) <==> SamePlace(f, g) || Held(before, f)
    ensures SamePlace(f, g) ==> (Held(before, f) <==> Held(before, g))
    ensures SamePlace(f, f)
  {
    var all := [g] + before;
    assert all[0] == g && forall i :: 0 <= i < |before| ==> all[i + 1] == before[i];
  }

  lemma ArrivedStep(w: seq<Option<Fragment>>, c: Option<Fragment>, f: Fragment)
    ensures Arrived(w + [c], f) <==> Arrived(w, f) || (c.Some? && SamePlace(f, c.value))
  {
    hide SamePlace;
    forall j: nat ensures ArrivedAt(w, f, j) ==> ArrivedAt(w + [c], f, j) {}
    forall j: nat ensures ArrivedAt(w + [c], f, j) ==> j == |w| || ArrivedAt(w, f, j) {}
    assert ArrivedAt(w + [c], f, |w|) <==> c.Some? && SamePlace(f, c.value);
  }

  lemma FirstStep(w: seq<Option<Fragment>>, c: Option<Fragment>, f: Fragment)
    ensures FirstIn(w + [c], f) <==> FirstIn(w, f) || (c == Some(f) && !Arrived(w, f))
  {
    hide SamePlace;
    forall j: nat | j < |w| ensures ArrivedAt(w + [c], f, j) <==> ArrivedAt(w, f, j) {}
    forall j: nat ensures FirstAt(w, f, j) ==> FirstAt(w + [c], f, j) {}
    forall j: nat ensures FirstAt(w + [c], f, j) ==> j == |w| || FirstAt(w, f, j) {}
    assert FirstAt(w + [c], f, |w|) <==> c == Some(f) && !Arrived(w, f);
  }

  lemma FirstsNext(w: seq<Option<Fragment>>, c: Option<Fragment>)
    ensures Firsts(w + [c]) == if c.Some? && !Held(Firsts(w), c.value) then [c.value] + Firsts(w) else Firsts(w)
  {
    hide Held;
    assert (w + [c])[..|w|] == w;
  }

  /** All fragments have one ID. */
  ghost predicate OfId(w: seq<Option<Fragment>>, id: nat) {
    forall j :: 0 <= j < |w| && w[j].Some? ==> w[j].value.id == id
  }

  /** The first fragments at distinct places of one ID have distinct offsets. */
  lemma {:induction false} FirstsApart(w: seq<Option<Fragment>>, id: nat)
    requires OfId(w, id)
    ensures DistinctOffsets(Firsts(w)) && forall i :: 0 <= i < |Firsts(w)| ==> Firsts(w)[i].id == id
  {
    if w != [] {
      var n := |w| - 1;
      var before := Firsts(w[..n]);
      FirstsApart(w[..n], id);
      if w[n].Some? && !Held(before, w[n].value) {
        forall i | 0 <= i < |before| ensures before[i].offset != w[n].value.offset {
          assert !SamePlace(w[n].value, before[i]);
        }
      }
    }
  }

  // ---------- what the walk puts together ----------

  /** Each part starts where the one before it ends, in groups of 8 bytes, and only the last has the L bit. */
  ghost predicate Chained(parts: seq<Fragment>, offset: nat)
    decreases |parts|
  {
    && parts != [] && parts[0].offset == offset
    && if parts[0].last then |parts| == 1
       else |parts[0].data| >= 8 && Chained(parts[1..], offset + |parts[0].data| / 8)
  }

  function Joined(parts: seq<Fragment>): seq<byte> {
    if parts == [] then [] else parts[0].data + Joined(parts[1..])
  }

  /** A walk that ends with a message has gone along a chain of fragments held. */
  lemma {:induction false} WalkParts(fs: seq<Fragment>, offset: nat) returns (parts: seq<Fragment>)
    requires Walk(fs, offset).Complete?
    ensures Chained(parts, offset) && Joined(parts) == Walk(fs, offset).bytes
    ensures forall p :: p in parts ==> p in fs
    decreases MaxOffset(fs) + 1 - offset
  {
    var f := fs[Find(fs, offset)];
    if f.last {
      parts := [f];
      assert parts[1..] == [];
    } else {
      var rest := WalkParts(fs, offset + |f.data| / 8);
      parts := [f] + rest;
      assert parts[1..] == rest;
    }
  }

  /** There is no other chain. */
  lemma {:induction false} PartsWalk(fs: seq<Fragment>, parts: seq<Fragment>, offset: nat)
    requires DistinctOffsets(fs) && Chained(parts, offset) && forall p :: p in parts ==> p in fs
    ensures Walk(fs, offset) == WalkResult.Complete(Joined(parts))
    decreases |parts|
  {
    var f := parts[0];
    assert f in parts && fs[Find(fs, offset)] == f;
    if f.last {
      assert parts[1..] == [];
    } else {
      PartsWalk(fs, parts[1..], offset + |f.data| / 8);
    }
  }

  /** A chain of fragments that were each the first to arrive at their place. */
  ghost predicate Composes(w: seq<Option<Fragment>>, parts: seq<Fragment>, bytes: seq<byte>) {
    Chained(parts, 0) && Joined(parts) == bytes && forall p :: p in parts ==> FirstIn(w, p)
  }

  ghost predicate PutTogether(w: seq<Option<Fragment>>, bytes: seq<byte>) {
    PassesSizeTest(Firsts(w)) && exists parts :: Composes(w, parts, bytes)
  }

  lemma SettleExactly(w: seq<Option<Fragment>>, id: nat, given: DataKind, bytes: seq<byte>, kind: DataKind)
    requires OfId(w, id)
    ensures Settle(Firsts(w), given).1 == Reassembled(bytes, kind) <==> kind == given && PutTogether(w, bytes)
    ensures Settle(Firsts(w), given).0 == [] || Settle(Firsts(w), given).0 == Firsts(w)
  {
    hide Walk, Firsts, Chained, Joined, FirstIn, PassesSizeTest;
    var fs := Firsts(w);
    FirstsApart(w, id);
    forall f ensures f in fs <==> FirstIn(w, f) {
      FirstsExactly(w, f);
    }
    if Walk(fs, 0) == WalkResult.Complete(bytes) {
      var parts := WalkParts(fs, 0);
      assert Composes(w, parts, bytes);
    }
    forall parts | Composes(w, parts, bytes) ensures Walk(fs, 0) == WalkResult.Complete(bytes) {
      PartsWalk(fs, parts, 0);
    }
  }

  // ---------- the window a list was collected in ----------

  ghost predicate AllHeaders(trace: seq<seq<byte>>) {
    forall k :: 0 <= k < |trace| ==> HasHeader(trace[k])
  }

  /** The list before call k. */
  ghost function ListAt(trace: seq<seq<byte>>, k: nat): seq<Fragment>
    requires AllHeaders(trace) && k <= |trace|
  {
    Run([], trace[..k]).0
  }

  /** Call k finds nothing held, or brings a fragment of another ID than those held. */
  ghost predicate Begins(trace: seq<seq<byte>>, k: nat)
    requires AllHeaders(trace) && k < |trace|
  {
    var fs, c := ListAt(trace, k), Carried(trace[k]);
    fs == [] || (c.Some? && c.value.id != fs[0].id)
  }

  /** The latest of the first k calls at which a list was begun. */
  ghost function Since(trace: seq<seq<byte>>, k: nat): (start: nat)
    requires AllHeaders(trace) && k <= |trace|
    ensures start <= k
    ensures k > 0 ==> start < k
  {
    if k <= 1 then 0 else if Begins(trace, k - 1) then k - 1 else Since(trace, k - 1)
  }

  /** The fragments that calls `from` to `to` brought. */
  ghost function Window(trace: seq<seq<byte>>, from: nat, to: nat): (w: seq<Option<Fragment>>)
    requires AllHeaders(trace) && from <= to <= |trace|
    ensures |w| == to - from
    ensures forall j :: 0 <= j < |w| ==> w[j] == Carried(trace[from + j])
  {
    seq(to - from, j requires 0 <= j < to - from => Carried(trace[from + j]))
  }

  /** From call `start` up to call k the receiver collected one ID, and did not before. */
  ghost predicate Collecting(trace: seq<seq<byte>>, start: nat, k: nat, id: nat)
    requires AllHeaders(trace) && k <= |trace|
  {
    && start <= k
    && (ListAt(trace, start) == [] || ListAt(trace, start)[0].id != id)
    && forall j :: start < j <= k ==> HoldsId(ListAt(trace, j), id)
  }

  predicate HoldsId(fs: seq<Fragment>, id: nat) {
    fs != [] && fs[0].id == id
  }

  /** A list is what arrived first at each place in its window. */
  ghost predicate Explained(fs: seq<Fragment>, w: seq<Option<Fragment>>) {
    fs != [] ==> fs == Firsts(w) && OfId(w, fs[0].id)
  }

  /** A fragment arrives at a list that was collected in w. */
  lemma FragmentExplained(fs: seq<Fragment>, w: seq<Option<Fragment>>, f: Fragment)
    requires Explained(fs, w)
    ensures var before := Continued(fs, w, Some(f));
      && (IsCopy(fs, f) <==> Arrived(before, f))
      && OfId(before + [Some(f)], f.id)
      && Firsts(before + [Some(f)]) == if IsCopy(fs, f) then fs else Insert(fs, f)
  {
    hide Arrived, Firsts, SamePlace;
    var before := Continued(fs, w, Some(f));
    FirstsNext(before, Some(f));
    FirstsExactly(before, f);
    NothingHeld([], f);
  }

  /** The window goes on, unless the list is begun anew. */
  ghost function Continued(fs: seq<Fragment>, w: seq<Option<Fragment>>, c: Option<Fragment>): seq<Option<Fragment>> {
    if fs == [] || (c.Some? && c.value.id != fs[0].id) then [] else w
  }

  /**
   * What a call returns, if `before` arrived in its window before it: the
   * payload of a datagram that is no fragment; or, if the fragment is the
   * first at its place, what is put together of the window.
   */
  ghost predicate Returns(before: seq<Option<Fragment>>, d: seq<byte>, bytes: seq<byte>, kind: DataKind)
    requires HasHeader(d)
  {
    match ParseHeader(d)
    case None => false
    case Some(h) =>
      && kind == h.kind
      && if h.isFragment == 0 then bytes == d[HeaderLength(d)..]
         else !Arrived(before, FragmentOf(d, h)) && PutTogether(before + [Some(FragmentOf(d, h))], bytes)
  }

  /** One call, on a list that was collected in w. */
  lemma CallExplained(fs: seq<Fragment>, w: seq<Option<Fragment>>, d: seq<byte>, bytes: seq<byte>, kind: DataKind)
    requires HasHeader(d) && Explained(fs, w)
    ensures var before := Continued(fs, w, Carried(d));
      && Explained(Receive(fs, d).0, before + [Carried(d)])
      && (Receive(fs, d).1 == Reassembled(bytes, kind) <==> Returns(before, d, bytes, kind))
  {
    hide HeaderLength, HasHeader, Settle, Insert, IsCopy, FragmentOf, PutTogether, Firsts, Arrived, ParseHeader;
    var c := Carried(d);
    var before := Continued(fs, w, c);
    if c.Some? {
      var h := ParseHeader(d).value;
      FragmentExplained(fs, w, c.value);
      SettleExactly(before + [c], c.value.id, h.kind, bytes, kind);
      InsertedId(fs, c.value);
    } else {
      FirstsNext(w, c);
    }
  }

  lemma InsertedId(fs: seq<Fragment>, f: Fragment)
    ensures IsCopy(fs, f) ==> fs != [] && fs[0].id == f.id
    ensures !IsCopy(fs, f) ==> Insert(fs, f) != [] && Insert(fs, f)[0].id == f.id
  {
  }

  lemma CallAt(trace: seq<seq<byte>>, k: nat)
    requires AllHeaders(trace) && k < |trace|
    ensures ListAt(trace, k + 1) == Receive(ListAt(trace, k), trace[k]).0
    ensures Run([], trace).1[k] == Receive(ListAt(trace, k), trace[k]).1
  {
    hide Run, Receive, HasHeader;
    var upTo := trace[..k + 1];
    assert upTo[..k] == trace[..k];
    RunLast([], upTo);
    OutcomeStays(trace, k + 1, k);
  }

  /** Later calls do not change the outcome of earlier ones. */
  lemma {:induction false} OutcomeStays(trace: seq<seq<byte>>, n: nat, k: nat)
    requires AllHeaders(trace) && k < n <= |trace|
    ensures Run([], trace).1[k] == Run([], trace[..n]).1[k]
    decreases |trace|
  {
    hide Run, Receive, HasHeader;
    if n == |trace| {
      assert trace[..n] == trace;
    } else {
      var m := |trace| - 1;
      RunLast([], trace);
      OutcomeStays(trace[..m], n, k);
      assert trace[..m][..n] == trace[..n];
    }
  }

  lemma WindowNext(trace: seq<seq<byte>>, k: nat)
    requires AllHeaders(trace) && k < |trace|
    ensures Window(trace, Since(trace, k + 1), k + 1)
         == Continued(ListAt(trace, k), Window(trace, Since(trace, k), k), Carried(trace[k])) + [Carried(trace[k])]
  {
    hide Run, Carried, HasHeader;
    NothingAtFirst(trace);
  }

  lemma NothingAtFirst(trace: seq<seq<byte>>)
    requires AllHeaders(trace)
    ensures ListAt(trace, 0) == []
  {
    hide HasHeader;
    assert trace[..0] == [];
  }

  /** The receiver before call k: its list is explained by its window, in which it collected one ID. */
  lemma {:induction false} ListExplained(trace: seq<seq<byte>>, k: nat)
    requires AllHeaders(trace) && k <= |trace|
    ensures Explained(ListAt(trace, k), Window(trace, Since(trace, k), k))
    ensures var fs := ListAt(trace, k); fs != [] ==> Collecting(trace, Since(trace, k), k, fs[0].id)
    decreases k
  {
    hide ListAt, Explained, Receive, Carried, HasHeader, Firsts, Window, Since, Collecting;
    NothingAtFirst(trace);
    if k == 0 {
      EmptyExplained(Window(trace, Since(trace, k), k));
    } else {
      var n := k - 1;
      ListExplained(trace, n);
      CallAt(trace, n);
      WindowNext(trace, n);
      CallExplained(ListAt(trace, n), Window(trace, Since(trace, n), n), trace[n], [], Unset);
      CollectingNext(trace, n);
    }
  }

  lemma EmptyExplained(w: seq<Option<Fragment>>)
    ensures Explained([], w)
  {
  }

  /** What is held after a call has the ID of its fragment, or of what was held before. */
  lemma IdAfter(fs: seq<Fragment>, d: seq<byte>)
    requires HasHeader(d)
    ensures var (after, c) := (Receive(fs, d).0, Carried(d));
      after != [] ==> if c.Some? then after[0].id == c.value.id else after == fs
  {
    hide HeaderLength, HasHeader, ParseHeader, Settle, Insert, IsCopy, FragmentOf;
    if Carried(d).Some? {
      var f := Carried(d).value;
      InsertedId(fs, f);
      SettledList(Insert(fs, f), ParseHeader(d).value.kind);
    }
  }

  lemma SettledList(fs: seq<Fragment>, kind: DataKind)
    ensures Settle(fs, kind).0 == [] || Settle(fs, kind).0 == fs
  {
  }

  lemma CollectingNext(trace: seq<seq<byte>>, n: nat)
    requires AllHeaders(trace) && n < |trace|
    requires var fs := ListAt(trace, n); fs != [] ==> Collecting(trace, Since(trace, n), n, fs[0].id)
    ensures var fs := ListAt(trace, n + 1); fs != [] ==> Collecting(trace, Since(trace, n + 1), n + 1, fs[0].id)
  {
    hide ListAt, Carried, HasHeader, Receive, Run;
    CallAt(trace, n);
    NothingAtFirst(trace);
    IdAfter(ListAt(trace, n), trace[n]);
  }

  /**
   * Provenance. Whatever datagrams arrive, a call returns a message exactly
   * in two cases. Either its datagram is no fragment, and the message is its
   * payload. Or the message is put together of the call's window, the calls
   * since the list was last begun: its parts form a chain from offset 0 to
   * the L bit, each part is the first fragment that arrived at its place in
   * the window, as is the one just received, and the sizes agree.
   */
  lemma ReturnedExactly(trace: seq<seq<byte>>, k: nat, bytes: seq<byte>, kind: DataKind)
    requires AllHeaders(trace) && k < |trace|
    ensures var start := Since(trace, k + 1);
      Run([], trace).1[k] == Reassembled(bytes, kind)
      <==> Returns(Window(trace, start, k), trace[k], bytes, kind)
  {
    hide ListAt, Explained, Receive, Carried, HasHeader, Firsts, Since, Collecting, Returns, Run;
    ListExplained(trace, k);
    CallAt(trace, k);
    WindowNext(trace, k);
    CallExplained(ListAt(trace, k), Window(trace, Since(trace, k), k), trace[k], bytes, kind);
    WindowBefore(trace, k);
  }

  /**
   * The window of a fragment: from its first call on the receiver held
   * fragments with the ID of this one and no other, and before it held
   * nothing or another ID; and all fragments in it have this ID.
   */
  lemma WindowOfOneId(trace: seq<seq<byte>>, k: nat)
    requires AllHeaders(trace) && k < |trace| && Carried(trace[k]).Some?
    ensures var (start, id) := (Since(trace, k + 1), Carried(trace[k]).value.id);
      Collecting(trace, start, k, id) && OfId(Window(trace, start, k + 1), id)
  {
    hide ListAt, Receive, Carried, HasHeader, Firsts, Window;
    ListExplained(trace, k);
    WindowNext(trace, k);
    NothingAtFirst(trace);
  }

  // ---------- the other outcomes ----------

  /** The walk along what was put in comes to stand on a short fragment. */
  ghost predicate Stalls(fs: seq<Fragment>) {
    exists n: nat :: MeetsShort(fs, 0, n)
  }

  /** The first fragments of the window do not form a chain. */
  ghost predicate NoChain(w: seq<Option<Fragment>>) {
    forall parts :: !Composes(w, parts, Joined(parts))
  }

  /**
   * What a call answers and what it leaves in the list, if `before` arrived in
   * its window before it and `fs` was held.
   */
  ghost predicate Answers(
    before: seq<Option<Fragment>>, fs: seq<Fragment>, d: seq<byte>, after: seq<Fragment>, o: Outcome)
    requires HasHeader(d)
  {
    match Carried(d)
    case None => after == fs && (o == InvalidFormat <==> ParseHeader(d) == None) && o != NeedResource && o != Stalled
    case Some(f) =>
      if Arrived(before, f) then o == NeedResource && after == fs
      else
        var w := before + [Some(f)];
        if !PassesSizeTest(Firsts(w)) then o == NeedResource && after == Firsts(w)
        else if Stalls(Firsts(w)) then o == Stalled && after == Firsts(w)
        else after == [] && (o.Reassembled? || o == InvalidFormat)
             && (o == InvalidFormat <==> NoChain(w))
  }

  lemma SettleAnswers(w: seq<Option<Fragment>>, id: nat, kind: DataKind)
    requires OfId(w, id)
    ensures var (fs, (after, o)) := (Firsts(w), Settle(Firsts(w), kind));
      if !PassesSizeTest(fs) then o == NeedResource && after == fs
      else if Stalls(fs) then o == Stalled && after == fs
      else after == [] && (o.Reassembled? || o == InvalidFormat)
           && (o == InvalidFormat <==> NoChain(w))
  {
    hide Walk, Firsts, Chained, Joined, FirstIn, PassesSizeTest;
    var fs := Firsts(w);
    FirstsApart(w, id);
    StallsExactly(fs, 0);
    forall f ensures f in fs <==> FirstIn(w, f) {
      FirstsExactly(w, f);
    }
    if Walk(fs, 0).Complete? {
      var parts := WalkParts(fs, 0);
      assert Composes(w, parts, Joined(parts));
    }
    forall parts | Composes(w, parts, Joined(parts)) ensures Walk(fs, 0).Complete? {
      PartsWalk(fs, parts, 0);
    }
  }

  lemma CallAnswers(fs: seq<Fragment>, w: seq<Option<Fragment>>, d: seq<byte>)
    requires HasHeader(d) && Explained(fs, w)
    ensures Answers(Continued(fs, w, Carried(d)), fs, d, Receive(fs, d).0, Receive(fs, d).1)
  {
    hide HeaderLength, HasHeader, Settle, Insert, IsCopy, FragmentOf, Firsts, Arrived, ParseHeader, NoChain, Stalls,
      PassesSizeTest;
    var c := Carried(d);
    if c.Some? {
      FragmentExplained(fs, w, c.value);
      SettleAnswers(Continued(fs, w, c) + [c], c.value.id, ParseHeader(d).value.kind);
    }
  }

  /**
   * Every outcome, over arbitrary traces. A datagram that is no fragment leaves
   * the list as it is, and is refused exactly if its header is; a fragment
   * waits if something arrived at its place before it or the sizes do not
   * agree; and if they do, the call never returns if the walk stalls, and else
   * empties the list and refuses exactly if there is no chain.
   */
  lemma OutcomeExactly(trace: seq<seq<byte>>, k: nat)
    requires AllHeaders(trace) && k < |trace|
    ensures Answers(
      Window(trace, Since(trace, k + 1), k), ListAt(trace, k), trace[k], ListAt(trace, k + 1), Run([], trace).1[k])
  {
    hide ListAt, Explained, Receive, Carried, HasHeader, Firsts, Since, Collecting, Answers, Run;
    ListExplained(trace, k);
    CallAt(trace, k);
    CallAnswers(ListAt(trace, k), Window(trace, Since(trace, k), k), trace[k]);
    WindowBefore(trace, k);
  }

  /** What arrived before call k in the window call k belongs to. */
  lemma WindowBefore(trace: seq<seq<byte>>, k: nat)
    requires AllHeaders(trace) && k < |trace|
    ensures Window(trace, Since(trace, k + 1), k)
         == Continued(ListAt(trace, k), Window(trace, Since(trace, k), k), Carried(trace[k]))
  {
    hide ListAt, Carried, HasHeader, Since;
    WindowNext(trace, k);
    var start := Since(trace, k + 1);
    var before := Continued(ListAt(trace, k), Window(trace, Since(trace, k), k), Carried(trace[k]));
    assert Window(trace, start, k + 1)[..k - start] == Window(trace, start, k);
    assert (before + [Carried(trace[k])])[..|before|] == before;
  }
}
