/**
 * The doubly linked packet deque of CWSafeList.c, through which the AC's
 * main thread hands datagrams to the session threads. Each operation is one
 * step, as when its caller holds the slot's mutex.
 */
module SafeList {
  import opened Wire

  /** The bytes a data pointer leads to. */
  type Packet = seq<byte>

  datatype Entry = Entry(data: Packet, size: int)

  // ---------- the deque as a value, over every sequence of operations ----------

  datatype Op = PutHead(entry: Entry) | PutTail(entry: Entry) | TakeHead | TakeTail

  function Perform(c: seq<Entry>, op: Op): seq<Entry> {
    match op
    case PutHead(e) => [e] + c
    case PutTail(e) => c + [e]
    case TakeHead => if c == [] then c else c[1..]
    case TakeTail => if c == [] then c else c[..|c| - 1]
  }

  /** What one operation hands out. */
  function Out(c: seq<Entry>, op: Op): seq<Entry> {
    match op
    case TakeHead => if c == [] then [] else [c[0]]
    case TakeTail => if c == [] then [] else [c[|c| - 1]]
    case _ => []
  }

  function In(op: Op): seq<Entry> {
    if op.PutHead? || op.PutTail? then [op.entry] else []
  }

  /** What the deque holds after a sequence of operations. */
  function Final(ops: seq<Op>): seq<Entry> {
    if ops == [] then [] else Perform(Final(ops[..|ops| - 1]), ops[|ops| - 1])
  }

  /** What a sequence of operations hands out, in order. */
  function Taken(ops: seq<Op>): seq<Entry> {
    if ops == [] then [] else Taken(ops[..|ops| - 1]) + Out(Final(ops[..|ops| - 1]), ops[|ops| - 1])
  }

  /** What it puts in. */
  function Put(ops: seq<Op>): seq<Entry> {
    if ops == [] then [] else Put(ops[..|ops| - 1]) + In(ops[|ops| - 1])
  }

  /** Added to at the tail only, and taken from at the head only. */
  ghost predicate AsQueue(ops: seq<Op>) {
    forall op :: op in ops ==> op.PutTail? || op.TakeHead?
  }

  /** Adding at the tail and removing at the head is first in, first out. */
  lemma {:induction false} Fifo(ops: seq<Op>)
    requires AsQueue(ops)
    ensures Taken(ops) + Final(ops) == Put(ops)
  {
    hide Perform, Out, In;
    if ops != [] {
      var n := |ops| - 1;
      var before, op := Final(ops[..n]), ops[n];
      Fifo(ops[..n]);
      assert op in ops;
      QueueStep(before, op);
      Regroup(Taken(ops[..n]), Out(before, op), Perform(before, op));
      Regroup(Taken(ops[..n]), before, In(op));
    }
  }

  lemma QueueStep(c: seq<Entry>, op: Op)
    requires op.PutTail? || op.TakeHead?
    ensures Out(c, op) + Perform(c, op) == c + In(op)
  {
    if op.TakeHead? && c != [] {
      assert c == [c[0]] + c[1..];
    }
  }

  lemma Regroup<T>(a: seq<T>, b: seq<T>, c: seq<T>)
    ensures (a + b) + c == a + (b + c)
  {
  }

  /** Whatever the operations, every packet put in is taken out or still there, once. */
  lemma {:induction false} NothingLost(ops: seq<Op>)
    ensures multiset(Taken(ops)) + multiset(Final(ops)) == multiset(Put(ops))
  {
    hide Perform, Out, In;
    if ops != [] {
      var n := |ops| - 1;
      var before, op := Final(ops[..n]), ops[n];
      NothingLost(ops[..n]);
      OneStep(before, op);
      Union(Taken(ops[..n]), Out(before, op));
      Union(Put(ops[..n]), In(op));
      Exchange(
        multiset(Out(before, op)), multiset(Perform(before, op)), multiset(Taken(ops[..n])),
        multiset(before), multiset(In(op)), multiset(Put(ops[..n])));
    }
  }

  lemma Union(a: seq<Entry>, b: seq<Entry>)
    ensures multiset(a + b) == multiset(a) + multiset(b)
  {
  }

  lemma Exchange<T>(
    out: multiset<T>, after: multiset<T>, taken: multiset<T>, before: multiset<T>, added: multiset<T>, put: multiset<T>)
    requires out + after == before + added && taken + before == put
    ensures taken + out + after == put + added
  {
    assert taken + out + after == taken + (out + after) == taken + before + added;
  }

  lemma OneStep(c: seq<Entry>, op: Op)
    ensures multiset(Out(c, op)) + multiset(Perform(c, op)) == multiset(c) + multiset(In(op))
  {
    match op {
      case PutHead(e) =>
        Union([e], c);
      case PutTail(e) =>
        Union(c, [e]);
      case TakeHead =>
        if c != [] {
          assert c == [c[0]] + c[1..];
          Union([c[0]], c[1..]);
        }
      case TakeTail =>
        if c != [] {
          var n := |c| - 1;
          assert c == c[..n] + [c[n]];
          Union(c[..n], [c[n]]);
        }
    }
  }

  /** A sequence of operations that leaves `contents` and has handed out `taken`. */
  ghost predicate Tells(ops: seq<Op>, taken: seq<Entry>, contents: seq<Entry>) {
    contents == Final(ops) && taken == Taken(ops)
  }

  lemma TellsOn(
    ops: seq<Op>, taken: seq<Entry>, contents: seq<Entry>, op: Op, takenAfter: seq<Entry>, after: seq<Entry>)
    requires Tells(ops, taken, contents) && takenAfter == taken + Out(contents, op) && after == Perform(contents, op)
    ensures Tells(ops + [op], takenAfter, after)
  {
    hide Perform, Out;
    assert (ops + [op])[..|ops|] == ops;
  }

  /** Operations continued by removals at the head only. */
  ghost predicate Drained(before: seq<Op>, after: seq<Op>) {
    before <= after && forall k :: |before| <= k < |after| ==> after[k] == TakeHead
  }

  lemma DrainedNothing(ops: seq<Op>)
    ensures Drained(ops, ops)
  {
  }

  lemma DrainedOn(before: seq<Op>, after: seq<Op>)
    requires Drained(before, after)
    ensures Drained(before, after + [TakeHead])
  {
  }

  /** Handing out the head leaves what was handed out and what is held, together, as it was. */
  lemma HeadMoves(taken: seq<Entry>, contents: seq<Entry>)
    requires contents != []
    ensures (taken + [contents[0]]) + contents[1..] == taken + contents
  {
  }

  // ---------- the deque ----------

  /** CWPrivateSafeElement; None is a null data pointer. `place` numbers the nodes from head to tail. */
  class SafeElement {
    const data: Option<Packet>
    const size: int
    ghost const place: int
    var prev: SafeElement?
    var next: SafeElement?

    constructor (data: Option<Packet>, size: int, prev: SafeElement?, next: SafeElement?, ghost place: int)
      ensures this.data == data && this.size == size && this.prev == prev && this.next == next
      ensures this.place == place
    {
      this.data, this.size, this.prev, this.next, this.place := data, size, prev, next, place;
    }
  }

  /** Node k carries number base + k, so no node occurs twice. */
  ghost predicate Numbered(spine: seq<SafeElement>, base: int) {
    forall k :: 0 <= k < |spine| ==> spine[k].place == base + k
  }

  /** The nodes hold the entries, none of them null. */
  ghost predicate Filled(spine: seq<SafeElement>, contents: seq<Entry>) {
    && |contents| == |spine|
    && forall k :: 0 <= k < |spine| ==> spine[k].data == Some(contents[k].data) && spine[k].size == contents[k].size
  }

  lemma Prepended(spine: seq<SafeElement>, contents: seq<Entry>, base: int, x: SafeElement, e: Entry)
    requires Numbered(spine, base) && Filled(spine, contents)
    requires x.place == base - 1 && x.data == Some(e.data) && x.size == e.size
    ensures Numbered([x] + spine, base - 1) && Filled([x] + spine, [e] + contents)
  {
  }

  lemma Appended(spine: seq<SafeElement>, contents: seq<Entry>, base: int, x: SafeElement, e: Entry)
    requires Numbered(spine, base) && Filled(spine, contents)
    requires x.place == base + |spine| && x.data == Some(e.data) && x.size == e.size
    ensures Numbered(spine + [x], base) && Filled(spine + [x], contents + [e])
  {
  }

  lemma Distinct(spine: seq<SafeElement>, base: int)
    requires Numbered(spine, base)
    ensures forall i, j :: 0 <= i < j < |spine| ==> spine[i] != spine[j]
  {
  }

  lemma NumberedParts(spine: seq<SafeElement>, base: int)
    requires spine != [] && Numbered(spine, base)
    ensures Numbered(spine[1..], base + 1) && Numbered(spine[..|spine| - 1], base)
  {
  }

  lemma FilledParts(spine: seq<SafeElement>, contents: seq<Entry>)
    requires spine != [] && Filled(spine, contents)
    ensures |contents| == |spine|
    ensures Filled(spine[1..], contents[1..]) && Filled(spine[..|spine| - 1], contents[..|contents| - 1])
    ensures spine[0].data == Some(contents[0].data) && spine[0].size == contents[0].size
    ensures var n := |spine| - 1; spine[n].data == Some(contents[n].data) && spine[n].size == contents[n].size
  {
  }

  class SafeList {
    var count: nat
    var first: SafeElement?
    var last: SafeElement?
    ghost var spine: seq<SafeElement>
    ghost var contents: seq<Entry>
    ghost var base: int
    /** The operations performed so far, and what they handed out. */
    ghost var history: seq<Op>
    ghost var taken: seq<Entry>

    /** Links mirror each other, no stored data is null, and the history explains the contents. */
    ghost predicate Valid()
      reads this, spine
    {
      Chain() && |contents| == |spine| && Filled(spine, contents) && Tells(history, taken, contents)
    }

    /** The nodes of the spine, linked in both directions from end to end. */
    ghost predicate Chain()
      reads this`count, this`first, this`last, this`spine, this`base, spine
    {
      |spine| == count && Numbered(spine, base) && Ends() && Linked()
    }

    ghost predicate Ends()
      reads this`first, this`last, this`spine
    {
      first == NodeAt(0) && last == NodeAt(|spine| - 1)
    }

    ghost predicate Linked()
      reads this`spine, spine
    {
      forall k :: 0 <= k < |spine| ==> LinkedAt(k)
    }

    ghost predicate LinkedAt(k: nat)
      requires k < |spine|
      reads this`spine, spine
    {
      spine[k].next == NodeAt(k + 1) && spine[k].prev == NodeAt(k - 1)
    }

    /** The k-th node, or null outside the list. */
    ghost function NodeAt(k: int): SafeElement?
      reads this`spine
    {
      if 0 <= k < |spine| then spine[k] else null
    }

    /** CWCreateSafeList */
    constructor ()
      ensures Valid() && contents == [] && spine == [] && history == [] && taken == []
    {
      count, first, last := 0, null, null;
      spine, contents, history, taken := [], [], [], [];
    }

    /** CWGetCountElementFromSafeList */
    method GetCount() returns (n: nat)
      requires Valid()
      ensures n == |contents|
    {
      n := count;
    }

    /** Linking a node before the first one leaves the chain linked. */
    twostate lemma LinkedAtHead(new added: SafeElement)
      requires old(Linked()) && spine == [added] + old(spine)
      requires added.next == old(NodeAt(0)) && added.prev == null
      requires forall k :: 0 <= k < |old(spine)| ==> old(spine)[k].next == old(spine[k].next)
      requires forall k :: 0 < k < |old(spine)| ==> old(spine)[k].prev == old(spine[k].prev)
      requires old(spine) != [] ==> old(spine)[0].prev == added
      ensures Linked()
    {
      assert LinkedAt(0);
      forall k: nat | 0 < k < |spine| ensures LinkedAt(k) {
        assert spine[k] == old(spine)[k - 1] && old(LinkedAt(k - 1));
      }
    }

    /** Linking a node behind the last one leaves the chain linked. */
    twostate lemma LinkedAtTail(new added: SafeElement)
      requires old(Linked()) && spine == old(spine) + [added]
      requires added.prev == old(NodeAt(|spine| - 1)) && added.next == null
      requires forall k :: 0 <= k < |old(spine)| ==> old(spine)[k].prev == old(spine[k].prev)
      requires forall k :: 0 <= k < |old(spine)| - 1 ==> old(spine)[k].next == old(spine[k].next)
      requires old(spine) != [] ==> old(spine)[|old(spine)| - 1].next == added
      ensures Linked()
    {
      assert LinkedAt(|spine| - 1);
      forall k: nat | k < |spine| - 1 ensures LinkedAt(k) {
        assert old(LinkedAt(k));
      }
    }

    /** Unlinking the first node leaves the chain linked. */
    twostate lemma LinkedWithoutHead()
      requires old(Linked()) && Numbered(old(spine), old(base)) && old(spine) != [] && spine == old(spine)[1..]
      requires forall n: SafeElement ::
        n in old(spine) ==> n.next == old(n.next) && (n == first || n.prev == old(n.prev))
      requires first == NodeAt(0) && (first != null ==> first.prev == null)
      ensures Linked()
    {
      Distinct(old(spine), old(base));
      forall k: nat | k < |spine| ensures LinkedAt(k) {
        assert spine[k] == old(spine)[k + 1] && spine[k] in old(spine) && old(LinkedAt(k + 1));
      }
    }

    /** Unlinking the last node leaves the chain linked. */
    twostate lemma LinkedWithoutTail()
      requires old(Linked()) && Numbered(old(spine), old(base))
      requires old(spine) != [] && spine == old(spine)[..|old(spine)| - 1]
      requires forall n: SafeElement ::
        n in old(spine) ==> n.prev == old(n.prev) && (n == last || n.next == old(n.next))
      requires last == NodeAt(|spine| - 1) && (last != null ==> last.next == null)
      ensures Linked()
    {
      Distinct(old(spine), old(base));
      forall k: nat | k < |spine| ensures LinkedAt(k) {
        assert spine[k] == old(spine)[k] && spine[k] in old(spine) && old(LinkedAt(k));
      }
    }

    lemma EndLinks()
      requires Linked() && spine != []
      ensures spine[0].next == NodeAt(1) && spine[|spine| - 1].prev == NodeAt(|spine| - 2)
    {
      assert LinkedAt(0) && LinkedAt(|spine| - 1);
    }

    /** CWAddElementToSafeListHead */
    method AddHead(data: Option<Packet>, size: int) returns (ok: bool)
      requires Valid()
      modifies this, spine
      ensures Valid() && ok == data.Some?
      ensures ok ==> |spine| == |old(spine)| + 1 && fresh(spine[0]) && spine[1..] == old(spine)
      ensures !ok ==> spine == old(spine)
      ensures contents == if ok then [Entry(data.value, size)] + old(contents) else old(contents)
      ensures history == if ok then old(history) + [PutHead(Entry(data.value, size))] else old(history)
      ensures taken == old(taken)
    {
      hide LinkedAt, Linked, Numbered, Filled, Tells;
      if data == None {
        return false;
      }
      Distinct(spine, base);
      var added := new SafeElement(data, size, null, first, base - 1);
      Prepended(spine, contents, base, added, Entry(data.value, size));
      if first != null {
        first.prev := added;
      }
      first, count := added, count + 1;
      if last == null {
        last := added;
      }
      spine, contents, base := [added] + spine, [Entry(data.value, size)] + contents, base - 1;
      history := history + [PutHead(Entry(data.value, size))];
      TellsOn(old(history), taken, old(contents), PutHead(Entry(data.value, size)), taken, contents);
      LinkedAtHead(added);
      ok := true;
    }

    /** CWAddElementToSafeListTail */
    method AddTail(data: Option<Packet>, size: int) returns (ok: bool)
      requires Valid()
      modifies this, spine
      ensures Valid() && ok == data.Some?
      ensures ok ==> |spine| == |old(spine)| + 1 && fresh(spine[|spine| - 1]) && spine[..|spine| - 1] == old(spine)
      ensures !ok ==> spine == old(spine)
      ensures contents == if ok then old(contents) + [Entry(data.value, size)] else old(contents)
      ensures history == if ok then old(history) + [PutTail(Entry(data.value, size))] else old(history)
      ensures taken == old(taken)
    {
      hide LinkedAt, Linked, Numbered, Filled, Tells;
      if data == None {
        return false;
      }
      Distinct(spine, base);
      var added := new SafeElement(data, size, last, null, base + |spine|);
      Appended(spine, contents, base, added, Entry(data.value, size));
      if last != null {
        last.next := added;
      }
      last, count := added, count + 1;
      if first == null {
        first := added;
      }
      spine, contents := spine + [added], contents + [Entry(data.value, size)];
      history := history + [PutTail(Entry(data.value, size))];
      TellsOn(old(history), taken, old(contents), PutTail(Entry(data.value, size)), taken, contents);
      LinkedAtTail(added);
      ok := true;
    }

    /** CWGetHeadElementFromSafeList */
    method GetHead() returns (data: Option<Packet>, size: int)
      requires Valid()
      ensures data.Some? <==> contents != []
      ensures data.Some? ==> Entry(data.value, size) == contents[0]
    {
      if first == null {
        return None, 0;
      }
      data, size := first.data, first.size;
    }

    /** The pointers of a removal at the head. */
    method UnlinkHead()
      requires Chain() && spine != []
      modifies this`count, this`first, this`last, this`spine, this`base, spine
      ensures Chain() && spine == old(spine)[1..] && base == old(base) + 1
    {
      hide LinkedAt, Linked, Numbered;
      EndLinks();
      ghost var rest := spine[1..];
      NumberedParts(spine, base);
      first := first.next;
      if first == null {
        last := null;
      } else {
        first.prev := null;
      }
      count := count - 1;
      spine, base := rest, base + 1;
      LinkedWithoutHead();
    }

    /** CWRemoveHeadElementFromSafeList */
    method RemoveHead() returns (data: Option<Packet>, size: int)
      requires Valid()
      modifies this, spine
      ensures Valid() && |old(spine)| == |old(contents)|
      ensures data.Some? <==> old(contents) != []
      ensures spine == if data.Some? then old(spine)[1..] else old(spine)
      ensures data.Some? ==> Entry(data.value, size) == old(contents)[0] && contents == old(contents)[1..]
      ensures data.None? ==> contents == []
      ensures history == old(history) + [TakeHead]
      ensures taken == old(taken) + if data.Some? then [Entry(data.value, size)] else []
    {
      hide LinkedAt, Linked, Numbered, Filled, Tells;
      if first == null {
        history := history + [TakeHead];
        TellsOn(old(history), taken, contents, TakeHead, taken, contents);
        return None, 0;
      }
      FilledParts(spine, contents);
      ghost var left, e := contents[1..], contents[0];
      TellsOn(history, taken, contents, TakeHead, taken + [e], left);
      data, size := first.data, first.size;
      UnlinkHead();
      contents, history, taken := left, history + [TakeHead], taken + [e];
    }

    /** The pointers of a removal at the tail. */
    method UnlinkTail()
      requires Chain() && spine != []
      modifies this`count, this`first, this`last, this`spine, spine
      ensures Chain() && spine == old(spine)[..|old(spine)| - 1]
    {
      hide LinkedAt, Linked, Numbered;
      EndLinks();
      ghost var rest := spine[..|spine| - 1];
      NumberedParts(spine, base);
      last := last.prev;
      if last == null {
        first := null;
      } else {
        last.next := null;
      }
      count := count - 1;
      spine := rest;
      LinkedWithoutTail();
    }

    /** CWRemoveTailElementFromSafeList */
    method RemoveTail() returns (data: Option<Packet>, size: int)
      requires Valid()
      modifies this, spine
      ensures Valid() && |old(spine)| == |old(contents)|
      ensures data.Some? <==> old(contents) != []
      ensures spine == if data.Some? then old(spine)[..|old(spine)| - 1] else old(spine)
      ensures data.Some? ==>
        && Entry(data.value, size) == old(contents)[|old(contents)| - 1]
        && contents == old(contents)[..|old(contents)| - 1]
      ensures data.None? ==> contents == []
      ensures history == old(history) + [TakeTail]
      ensures taken == old(taken) + if data.Some? then [Entry(data.value, size)] else []
    {
      hide LinkedAt, Linked, Numbered, Filled, Tells;
      if last == null {
        history := history + [TakeTail];
        TellsOn(old(history), taken, contents, TakeTail, taken, contents);
        return None, 0;
      }
      FilledParts(spine, contents);
      ghost var left, e := contents[..|contents| - 1], contents[|contents| - 1];
      TellsOn(history, taken, contents, TakeTail, taken + [e], left);
      data, size := last.data, last.size;
      UnlinkTail();
      contents, history, taken := left, history + [TakeTail], taken + [e];
    }

    /**
     * CWCleanSafeList; `deleted` records the calls of deleteFunc. The loop
     * stops at the first null, so it empties the list only because no null
     * is ever stored.
     */
    method Clean() returns (deleted: seq<Packet>)
      requires Valid()
      modifies this, spine
      ensures Valid() && contents == []
      ensures |deleted| == |old(contents)|
      ensures forall i :: 0 <= i < |deleted| ==> deleted[i] == old(contents)[i].data
      ensures Drained(old(history), history) && taken == old(taken + contents)
    {
      hide Ends, Linked, Numbered, Filled, Tells, Drained;
      DrainedNothing(history);
      deleted := [];
      while true
        invariant Valid() && |contents| == |spine| && |old(contents)| == |old(spine)|
        invariant |deleted| <= |old(spine)| && spine == old(spine)[|deleted|..]
        invariant contents == old(contents)[|deleted|..]
        invariant forall i :: 0 <= i < |deleted| ==> deleted[i] == old(contents)[i].data
        invariant Drained(old(history), history) && taken + contents == old(taken + contents)
        decreases |contents|
      {
        assert forall n :: n in spine ==> n in old(spine);
        DrainedOn(old(history), history);
        if contents != [] {
          HeadMoves(taken, contents);
        }
        var data, _ := RemoveHead();
        if data == None {
          break;
        }
        deleted := deleted + [data.value];
      }
    }

    /** A deque used as a queue has handed out what was put in, in order, up to what it still holds. */
    lemma FirstInFirstOut()
      requires Valid() && AsQueue(history)
      ensures taken + contents == Put(history)
    {
      Fifo(history);
    }

    /** However it was used, every packet put into it was handed out or is still there, once. */
    lemma LosesNothing()
      requires Valid()
      ensures multiset(taken) + multiset(contents) == multiset(Put(history))
    {
      NothingLost(history);
    }
  }
}
