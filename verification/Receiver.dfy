/**
 * CWProtocolParseFragment (CWProtocol.c) on its buffer and linked list. The
 * function is kept in its parts: adding the fragment, the two loops of the
 * completeness test, and the offset walk; together they compute
 * Reassembly.Receive.
 */
module Receiver {
  import opened Wire
  import opened TransportHeader
  import opened CWList
  import opened Reassembly

  /** The returned CWBool with the error code raised beside it, unless the call never returns. */
  datatype Status = Returned | RaisedNeedResource | RaisedInvalidFormat | NeverReturns

  /** A search with CWCompareFragment succeeds exactly when a copy is held. */
  lemma {:induction false} SearchFindsCopy(fs: seq<Fragment>, f: Fragment)
    ensures First(f, SamePlace, fs).Some? <==> exists k :: 0 <= k < |fs| && SamePlace(f, fs[k])
  {
    if fs != [] {
      SearchFindsCopy(fs[1..], f);
      if exists k :: 0 <= k < |fs| && SamePlace(f, fs[k]) {
        var k :| 0 <= k < |fs| && SamePlace(f, fs[k]);
        if k > 0 {
          assert SamePlace(f, fs[1..][k - 1]);
        }
      }
      if exists k :: 0 <= k < |fs[1..]| && SamePlace(f, fs[1..][k]) {
        var k :| 0 <= k < |fs[1..]| && SamePlace(f, fs[1..][k]);
        assert SamePlace(f, fs[k + 1]);
      }
    }
  }

  /** Puts the fragment into the list unless a copy of it is there. */
  method AddFragment(list: List<Fragment>, frag: Fragment) returns (copy: bool)
    requires list.Valid()
    modifies list
    ensures list.Valid()
    ensures copy == IsCopy(old(list.contents), frag)
    ensures list.contents == if copy then old(list.contents) else Insert(old(list.contents), frag)
  {
    SearchFindsCopy(list.contents, frag);
    if list.head == null || list.head.data.id == frag.id {
      var aux := list.Search(frag, SamePlace);
      if aux.Some? {
        return true;
      }
      list.AddElement(frag);
    } else {
      var _ := list.DeleteAll();
      list.AddElement(frag);
    }
    copy := false;
  }

  /** The first loop of the completeness test. */
  method ComputeTotalSize(list: List<Fragment>) returns (totalSize: nat)
    requires list.Valid()
    ensures totalSize == TotalSize(list.contents)
  {
    totalSize := 0;
    var el := list.head;
    ghost var i := 0;
    ghost var fs := list.contents;
    while el != null
      invariant 0 <= i <= |fs| && el == list.NodeAt(i)
      invariant totalSize == TotalSize(fs[..i])
      decreases |fs| - i
    {
      if el.data.last {
        totalSize := el.data.offset * 8;
        totalSize := totalSize + |el.data.data|;
      }
      assert fs[..i + 1][..i] == fs[..i];
      el := el.next;
      i := i + 1;
    }
    assert fs[..i] == fs;
  }

  /** The second loop of the completeness test. */
  method ComputeCurrentSize(list: List<Fragment>) returns (currentSize: nat)
    requires list.Valid()
    ensures currentSize == CurrentSize(list.contents)
  {
    currentSize := 0;
    var el := list.head;
    ghost var i := 0;
    ghost var fs := list.contents;
    while el != null
      invariant 0 <= i <= |fs| && el == list.NodeAt(i)
      invariant currentSize == CurrentSize(fs[..i])
      decreases |fs| - i
    {
      currentSize := currentSize + |el.data.data|;
      assert fs[..i + 1][..i] == fs[..i];
      el := el.next;
      i := i + 1;
    }
    assert fs[..i] == fs;
  }

  /** The inner loop of the walk: the first fragment at the current offset. */
  method FindFragment(list: List<Fragment>, currentOffset: nat) returns (el: ListElement?<Fragment>)
    requires list.Valid()
    ensures el == list.NodeAt(Find(list.contents, currentOffset))
  {
    el := list.head;
    ghost var i := 0;
    while el != null
      invariant 0 <= i <= |list.spine| && el == list.NodeAt(i)
      invariant i <= Find(list.contents, currentOffset)
      decreases |list.spine| - i
    {
      if el.data.offset == currentOffset {
        return;
      }
      el := el.next;
      i := i + 1;
    }
  }

  /** What one round of the walk comes to. */
  datatype Round = Missing | CopiedLast | GoesOn(next: nat) | StandsStill

  /** The rest of the walk after a round, with what is copied by then. */
  ghost function After(fs: seq<Fragment>, r: Round, copied: seq<byte>): WalkResult {
    match r
    case Missing => Hole
    case CopiedLast => WalkResult.Complete(copied)
    case GoesOn(next) => Walk(fs, next).Prepend(copied)
    case StandsStill => Endless
  }

  /** A round that finds the fragment at index i and leaves `copied`. */
  predicate IsRound(fs: seq<Fragment>, offset: nat, i: nat, pre: seq<byte>, r: Round, copied: seq<byte>) {
    match r
    case Missing => i == |fs| && copied == pre
    case StandsStill => i < |fs| && Short(fs[i]) && copied == pre
    case CopiedLast => i < |fs| && fs[i].last && copied == pre + fs[i].data
    case GoesOn(next) =>
      && i < |fs| && !fs[i].last && !Short(fs[i])
      && next == offset + |fs[i].data| / 8 && copied == pre + fs[i].data
  }

  /** One round of the walk, with `pre` copied already. */
  lemma WalkRound(fs: seq<Fragment>, offset: nat, i: nat, pre: seq<byte>, r: Round, copied: seq<byte>)
    requires i == Find(fs, offset) && IsRound(fs, offset, i, pre, r, copied)
    ensures Walk(fs, offset).Prepend(pre) == After(fs, r, copied)
  {
    hide Find, MaxOffset;
    if r.GoesOn? {
      PrependTwice(Walk(fs, r.next), pre, fs[i].data);
    }
  }

  lemma PrependTwice(r: WalkResult, pre: seq<byte>, data: seq<byte>)
    ensures r.Prepend(data).Prepend(pre) == r.Prepend(pre + data)
  {
    match r {
      case Complete(bytes) => assert pre + (data + bytes) == (pre + data) + bytes;
      case _ =>
    }
  }

  /**
   * One round of the walk: find the fragment at the current offset and append
   * its bytes. What the list holds from there on fits in what is left of the
   * message. On a short fragment the source repeats the round forever.
   */
  method CopyAt(list: List<Fragment>, msg: ProtocolMessage, currentOffset: nat) returns (r: Round)
    requires list.Valid() && msg.Valid()
    requires msg.offset + SizeFrom(list.contents, currentOffset) <= msg.msg.Length
    modifies msg`offset, msg.msg
    ensures msg.Valid() && msg.msg == old(msg.msg)
    ensures r.GoesOn? ==>
      && currentOffset < r.next && currentOffset <= MaxOffset(list.contents)
      && msg.offset + SizeFrom(list.contents, r.next) <= msg.msg.Length
    ensures Walk(list.contents, currentOffset).Prepend(old(msg.Stored())) == After(list.contents, r, msg.Stored())
  {
    hide Walk, SizeFrom, MaxOffset, Find, WalkResult.Prepend, After;
    ghost var fs, pre := list.contents, msg.Stored();
    ghost var i := Find(fs, currentOffset);
    var el := FindFragment(list, currentOffset);
    if el == null {
      WalkRound(fs, currentOffset, i, pre, Missing, pre);
      return Missing;
    }
    var f := el.data;
    assert f == fs[i];
    if Short(f) {
      WalkRound(fs, currentOffset, i, pre, StandsStill, pre);
      return StandsStill;
    }
    var next := currentOffset + |f.data| / 8;
    SizeFromSplits(fs, currentOffset, if f.last then currentOffset + 1 else next, i);
    msg.StoreRawBytes(f.data);
    r := if f.last then CopiedLast else GoesOn(next);
    WalkRound(fs, currentOffset, i, pre, r, msg.Stored());
  }

  /**
   * The offset walk, copying into a message with totalSize bytes of room. It
   * ends unless it comes to stand on a short fragment, and until then every
   * copy stays within the room allocated.
   */
  method CopyFragments(list: List<Fragment>, msg: ProtocolMessage) returns (end: Round)
    requires list.Valid() && msg.Valid() && msg.offset == 0
    requires msg.msg.Length == CurrentSize(list.contents)
    modifies msg`offset, msg.msg
    ensures msg.Valid() && msg.msg == old(msg.msg) && !end.GoesOn?
    ensures Walk(list.contents, 0) == After(list.contents, end, msg.Stored())
  {
    hide Walk, SizeFrom, CurrentSize, MaxOffset, WalkResult.Prepend;
    ghost var fs := list.contents;
    var currentOffset := 0;
    SizeFromZero(fs);
    PrependNothing(Walk(fs, 0));
    while true
      invariant msg.Valid() && msg.msg == old(msg.msg)
      invariant Walk(fs, 0) == Walk(fs, currentOffset).Prepend(msg.Stored())
      invariant msg.offset + SizeFrom(fs, currentOffset) <= msg.msg.Length
      decreases MaxOffset(fs) + 1 - currentOffset
    {
      end := CopyAt(list, msg, currentOffset);
      if !end.GoesOn? {
        return;
      }
      currentOffset := end.next;
    }
  }

  lemma PrependNothing(r: WalkResult)
    ensures r.Prepend([]) == r
  {
  }

  /** The branch of CWProtocolParseFragment for a fragment. */
  method ReceiveFragment(list: List<Fragment>, frag: Fragment, ghost kind: DataKind)
    returns (status: Status, msg: ProtocolMessage?)
    requires list.Valid()
    modifies list
    ensures list.Valid()
    ensures status == Returned <==> msg != null
    ensures msg != null ==> fresh(msg) && fresh(msg.msg) && msg.Valid()
    ensures (list.contents, OutcomeOf(status, msg, kind))
         == var fs := old(list.contents);
            if IsCopy(fs, frag) then (fs, NeedResource) else Settle(Insert(fs, frag), kind)
  {
    hide Walk, TotalSize, CurrentSize, Insert, IsCopy;
    var copy := AddFragment(list, frag);
    if copy {
      return RaisedNeedResource, null;
    }
    var totalSize := ComputeTotalSize(list);
    if totalSize == 0 {
      return RaisedNeedResource, null;
    }
    var currentSize := ComputeCurrentSize(list);
    if currentSize != totalSize {
      return RaisedNeedResource, null;
    }
    var reassembled := new ProtocolMessage(totalSize);
    var end := CopyFragments(list, reassembled);
    if end == StandsStill {
      return NeverReturns, null;
    }
    var _ := list.DeleteAll();
    if end == Missing {
      return RaisedInvalidFormat, null;
    }
    return Returned, reassembled;
  }

  /** The outcome a status and a returned message stand for. */
  ghost function OutcomeOf(status: Status, msg: ProtocolMessage?, kind: DataKind): Outcome
    requires status == Returned ==> msg != null && msg.Valid()
    reads msg, if msg != null then {msg.msg} else {}
  {
    match status
    case Returned => Reassembled(msg.Stored(), kind)
    case RaisedNeedResource => NeedResource
    case RaisedInvalidFormat => InvalidFormat
    case NeverReturns => Stalled
  }

  /** CWProtocolParseFragment on the first readBytes bytes of buf. */
  method ParseFragment(buf: array<byte>, readBytes: nat, list: List<Fragment>)
    returns (status: Status, msg: ProtocolMessage?, kind: DataKind, dataFlag: bool)
    requires readBytes <= buf.Length && HasHeader(buf[..readBytes])
    requires list.Valid()
    modifies list
    ensures list.Valid()
    ensures status == Returned <==> msg != null
    ensures msg != null ==> fresh(msg) && fresh(msg.msg) && msg.Valid()
    ensures (list.contents, OutcomeOf(status, msg, kind)) == Receive(old(list.contents), buf[..readBytes])
    ensures dataFlag == (RightVersion(buf[..readBytes]) && AnnouncesBinding(buf[..readBytes]))
  {
    hide ParseHeader, HasHeader, AnnouncesBinding, RightVersion, Settle, Insert, IsCopy;
    ghost var d := buf[..readBytes];
    ParseReadsHeaderOnly(buf[..], readBytes);
    assert buf[..][..readBytes] == d;
    msg, kind := null, Unset;
    var m := new ProtocolMessage.Over(buf);
    var values;
    values, dataFlag := ParseTransportHeader(m);
    if values.None? {
      return RaisedInvalidFormat, null, Unset, dataFlag;
    }
    var h := values.value;
    var data := buf[m.offset..readBytes];
    assert data == d[HeaderLength(d)..];
    kind := h.kind;
    if h.isFragment == 0 {
      msg := new ProtocolMessage(|data|);
      msg.StoreRawBytes(data);
      assert msg.Stored() == data;
      status := Returned;
    } else {
      var frag := Fragment(h.fragmentID, h.fragmentOffset, h.last == 1, data);
      assert frag == FragmentOf(d, h);
      status, msg := ReceiveFragment(list, frag, h.kind);
    }
  }
}
