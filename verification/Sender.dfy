/**
 * The two senders: CWAssembleMessage (CWProtocol.c) for control packets and
 * CWAssembleDataMessage (CWBinding.c) for data frames, with the identifier
 * generators of AC.c. Both produce the datagrams of Fragmentation.
 */
module Sender {
  import opened Wire
  import opened TransportHeader
  import opened Fragmentation
  import opened BitFields

  const IANA_ENTERPRISE_NUMBER := 13277
  const IANA_TIMES_256 := IANA_ENTERPRISE_NUMBER * 256
  const CONTROL_HEADER_OFFSET_FOR_MSG_ELEMS := 3
  const MAX_FRAGMENT_ID := 65535

  // ---------- identifier generators ----------

  /** The static counter behind CWGetSeqNum or CWGetFragmentID (AC.c), wrapping after `max`. */
  class IdGenerator {
    const max: nat
    var next: nat
    ghost var issued: seq<nat>

    /** What was issued is 0, 1, ..., max, 0, 1, ... up to now. */
    ghost predicate Valid()
      reads this
    {
      next <= max && next == |issued| % (max + 1) && forall k :: 0 <= k < |issued| ==> issued[k] == k % (max + 1)
    }

    constructor (max: nat)
      ensures Valid() && this.max == max && issued == []
    {
      this.max := max;
      next := 0;
      issued := [];
    }

    method Get() returns (r: nat)
      requires Valid()
      modifies this
      ensures Valid() && issued == old(issued) + [r]
    {
      r := next;
      WrapStep(|issued|, max);
      if next == max {
        next := 0;
      } else {
        next := next + 1;
      }
      issued := issued + [r];
    }
  }

  lemma WrapStep(k: nat, max: nat)
    ensures (k + 1) % (max + 1) == if k % (max + 1) == max then 0 else k % (max + 1) + 1
  {
    var m := max + 1;
    var q, r := k / m, k % m;
    if r == max {
      Successor(q, m);
      DivModUnique(k + 1, m, q + 1, 0);
    } else {
      DivModUnique(k + 1, m, q, r + 1);
    }
  }

  lemma Successor(q: int, m: int)
    ensures (q + 1) * m == q * m + m
  {
  }

  /**
   * The identifiers of any max + 1 consecutive calls are pairwise distinct:
   * with 65536 fragment IDs, messages in flight keep distinct wire IDs.
   */
  lemma WindowDistinct(max: nat, j: nat, k: nat)
    requires j < k < j + max + 1
    ensures j % (max + 1) != k % (max + 1)
  {
    var m := max + 1;
    if j % m == k % m {
      var d := k / m - j / m;
      assert k - j == d * m by {
        Distribute(k / m, j / m, m);
      }
      MultipleOutside(d, m);
    }
  }

  lemma Distribute(a: int, b: int, m: int)
    ensures (a - b) * m == a * m - b * m
  {
  }

  // ---------- message elements and the control header ----------

  /** What CWAssembleMsgElem makes of a body. */
  function ElementBytes(elemType: int, body: seq<byte>): seq<byte> {
    Bytes16(elemType) + Bytes16(|body|) + body
  }

  /** CWAssembleMsgElem: replaces the message by the element holding it. */
  method AssembleMsgElem(m: ProtocolMessage, elemType: int)
    requires m.Valid()
    modifies m
    ensures m.Valid() && fresh(m.msg)
    ensures m.Stored() == ElementBytes(elemType, old(m.Stored()))
  {
    var completeMsg := new ProtocolMessage(6 + m.offset);
    completeMsg.Store16(elemType);
    completeMsg.Store16(m.offset);
    completeMsg.StoreMessage(m);
    m.msg := completeMsg.msg;
    m.offset := completeMsg.offset;
  }

  function ControlHeaderBytes(msgType: int, seqNum: int, msgElemsLen: int): (s: seq<byte>)
    ensures |s| == 8
  {
    Bytes32(IANA_TIMES_256 + msgType) + [seqNum % 0x100]
    + Bytes16(CONTROL_HEADER_OFFSET_FOR_MSG_ELEMS + msgElemsLen) + [0]
  }

  /** CWAssembleControlHeader */
  method AssembleControlHeader(msgType: int, seqNum: int, msgElemsLen: int) returns (hdr: ProtocolMessage)
    ensures fresh(hdr) && fresh(hdr.msg) && hdr.Valid()
    ensures hdr.Stored() == ControlHeaderBytes(msgType, seqNum, msgElemsLen)
  {
    hdr := new ProtocolMessage(8);
    hdr.Store32(IANA_TIMES_256 + msgType);
    hdr.Store8(seqNum);
    hdr.Store16(CONTROL_HEADER_OFFSET_FOR_MSG_ELEMS + msgElemsLen);
    hdr.Store8(0);
  }

  // ---------- the fragment loop ----------

  /** A message per datagram, each fresh and holding exactly it. */
  ghost predicate Holds(ms: seq<ProtocolMessage>, ds: seq<seq<byte>>)
    reads ms, set m | m in ms :: m.msg
  {
    |ms| == |ds| && forall i :: 0 <= i < |ms| ==> ms[i].Valid() && ms[i].Stored() == ds[i]
  }

  /** One datagram: the transport header followed by a piece of the message. */
  method AssembleDatagram(values: HeaderValues, data: seq<byte>) returns (m: ProtocolMessage)
    ensures fresh(m) && fresh(m.msg) && m.Valid()
    ensures m.Stored() == HeaderBytes(values) + data
  {
    var transportHdr := AssembleTransportHeader(values);
    m := new ProtocolMessage(transportHdr.offset + |data|);
    m.StoreMessage(transportHdr);
    m.StoreRawBytes(data);
  }

  /**
   * The loop over the fragments, and the single datagram when there is one.
   * The offset into the message is advanced fragment by fragment, and
   * returned.
   */
  method AssembleFragments(t: Transmission, fragmentsNum: nat) returns (completeMsg: seq<ProtocolMessage>, offset: nat)
    requires t.room % 8 == 0 && fragmentsNum == FragmentsNum(|t.payload|, t.room)
    ensures Holds(completeMsg, t.Datagrams())
    ensures forall i :: 0 <= i < |completeMsg| ==> fresh(completeMsg[i]) && fresh(completeMsg[i].msg)
    ensures offset == |t.payload|
  {
    hide Pieces, Start, HeaderBytes, FragmentsNum;
    CountIsPieces(|t.payload|, t.room);
    completeMsg := [];
    if fragmentsNum == 1 {
      ChunkBounds(t, 0);
      var m := AssembleDatagram(HeaderValues(t.payloadType, 0, 0, 0, 0, t.binding), t.payload);
      assert t.Chunk(0) == t.payload;
      return [m], |t.payload|;
    }
    offset := 0;
    StartIsProduct(t.room, 0);
    if fragmentsNum == 0 {
      NoPieces(t);
    }
    var i := 0;
    while i < fragmentsNum
      invariant i <= fragmentsNum && |completeMsg| == i
      invariant offset == if i == fragmentsNum then |t.payload| else t.Begin(i)
      invariant forall k :: 0 <= k < i ==> fresh(completeMsg[k]) && fresh(completeMsg[k].msg)
      invariant forall k :: 0 <= k < i ==> completeMsg[k].Valid() && completeMsg[k].Stored() == t.Datagram(k)
    {
      ChunkBounds(t, i);
      var fragSize, last;
      if i < fragmentsNum - 1 {
        fragSize, last := t.room, 0;
      } else {
        StartIsProduct(t.room, fragmentsNum - 1);
        fragSize, last := |t.payload| - (fragmentsNum - 1) * t.room, 1;
      }
      var values := HeaderValues(t.payloadType, 1, last, t.fragmentID, offset / 8, t.binding);
      var m := AssembleDatagram(values, t.payload[offset..offset + fragSize]);
      completeMsg := completeMsg + [m];
      offset := offset + fragSize;
      i := i + 1;
    }
  }

  lemma NoPieces(t: Transmission)
    requires t.Num() == 0
    ensures t.payload == []
  {
  }

  // ---------- control packets ----------

  /** The bytes held by each message. */
  ghost function ContentsOf(ms: seq<ProtocolMessage>): (cs: seq<seq<byte>>)
    requires forall k :: 0 <= k < |ms| ==> ms[k].Valid()
    reads ms, set m | m in ms :: m.msg
    ensures |cs| == |ms|
    ensures forall k :: 0 <= k < |ms| ==> cs[k] == ms[k].Stored()
  {
    if ms == [] then [] else ContentsOf(ms[..|ms| - 1]) + [ms[|ms| - 1].Stored()]
  }

  /** A control message before fragmentation. */
  function ControlBytes(msgType: int, seqNum: int, body: seq<byte>): seq<byte> {
    ControlHeaderBytes(msgType, seqNum, |body|) + body
  }

  /** The loop adding up element sizes. */
  method TotalLength(ms: seq<ProtocolMessage>) returns (len: nat)
    requires forall k :: 0 <= k < |ms| ==> ms[k].Valid()
    ensures len == |Concat(ContentsOf(ms))|
  {
    hide Concat;
    ghost var cs := ContentsOf(ms);
    ConcatEnds(cs);
    len := 0;
    for i := 0 to |ms|
      invariant len == |Concat(cs[..i])|
    {
      ConcatStep(cs, i);
      len := len + ms[i].offset;
    }
  }

  /** The loop storing the elements one after the other. */
  method StoreAll(msg: ProtocolMessage, ms: seq<ProtocolMessage>)
    requires msg.Valid() && forall k :: 0 <= k < |ms| ==> ms[k].Valid() && ms[k] != msg && ms[k].msg != msg.msg
    requires msg.offset + |Concat(ContentsOf(ms))| <= msg.msg.Length
    modifies msg`offset, msg.msg
    ensures msg.Valid() && msg.msg == old(msg.msg)
    ensures forall k :: 0 <= k < |ms| ==> ms[k].Valid() && ms[k].Stored() == old(ms[k].Stored())
    ensures msg.Stored() == old(msg.Stored()) + old(Concat(ContentsOf(ms)))
  {
    hide Concat, ContentsOf;
    ghost var all := ContentsOf(ms);
    ghost var start := msg.Stored();
    ConcatEnds(all);
    for i := 0 to |ms|
      invariant msg.Valid() && msg.msg == old(msg.msg)
      invariant forall k :: 0 <= k < |ms| ==> ms[k].Valid() && ms[k].Stored() == all[k]
      invariant msg.Stored() == start + Concat(all[..i])
    {
      ConcatStep(all, i);
      msg.StoreMessage(ms[i]);
    }
  }

  lemma ConcatEnds(ss: seq<seq<byte>>)
    ensures Concat(ss[..0]) == [] && ss[..|ss|] == ss
  {
  }

  lemma ConcatStep(ss: seq<seq<byte>>, i: nat)
    requires i < |ss|
    ensures Concat(ss[..i + 1]) == Concat(ss[..i]) + ss[i]
    ensures |Concat(ss[..i + 1])| <= |Concat(ss)|
  {
    assert ss[..i + 1][..i] == ss[..i];
    PrefixShorter(ss, i + 1);
  }

  lemma {:induction false} PrefixShorter(ss: seq<seq<byte>>, n: nat)
    requires n <= |ss|
    ensures |Concat(ss[..n])| <= |Concat(ss)|
  {
    if n < |ss| {
      assert ss[..|ss| - 1][..n] == ss[..n];
      PrefixShorter(ss[..|ss| - 1], n);
    } else {
      assert ss[..n] == ss;
    }
  }

  /** The two loops storing the core elements and then those of the binding. */
  method StoreElements(msg: ProtocolMessage, msgElems: seq<ProtocolMessage>, msgElemsBinding: seq<ProtocolMessage>)
    requires msg.Valid()
    requires forall k :: 0 <= k < |msgElems| ==>
      msgElems[k].Valid() && msgElems[k] != msg && msgElems[k].msg != msg.msg
    requires forall k :: 0 <= k < |msgElemsBinding| ==>
      msgElemsBinding[k].Valid() && msgElemsBinding[k] != msg && msgElemsBinding[k].msg != msg.msg
    requires msg.offset + |Concat(ContentsOf(msgElems))| + |Concat(ContentsOf(msgElemsBinding))| <= msg.msg.Length
    modifies msg`offset, msg.msg
    ensures msg.Valid() && msg.msg == old(msg.msg)
    ensures msg.Stored()
         == old(msg.Stored() + (Concat(ContentsOf(msgElems)) + Concat(ContentsOf(msgElemsBinding))))
  {
    hide Concat, ContentsOf;
    ghost var start := msg.Stored();
    ghost var elems, bindingElems := Concat(ContentsOf(msgElems)), Concat(ContentsOf(msgElemsBinding));
    StoreAll(msg, msgElems);
    StoreAll(msg, msgElemsBinding);
    assert start + elems + bindingElems == start + (elems + bindingElems);
  }

  /** The first half of CWAssembleMessage: all the data put consecutively. */
  method BuildControlMessage(
    seqNum: int, msgType: int, msgElems: seq<ProtocolMessage>, msgElemsBinding: seq<ProtocolMessage>)
    returns (msg: ProtocolMessage)
    requires forall k :: 0 <= k < |msgElems| ==> msgElems[k].Valid()
    requires forall k :: 0 <= k < |msgElemsBinding| ==> msgElemsBinding[k].Valid()
    ensures fresh(msg) && fresh(msg.msg) && msg.Valid() && msg.offset > 0
    ensures msg.Stored()
         == ControlBytes(msgType, seqNum, Concat(ContentsOf(msgElems)) + Concat(ContentsOf(msgElemsBinding)))
  {
    hide Concat, ContentsOf, ControlHeaderBytes;
    var len := TotalLength(msgElems);
    var bindingLen := TotalLength(msgElemsBinding);
    var msgElemsLen := len + bindingLen;
    var controlHdr := AssembleControlHeader(msgType, seqNum, msgElemsLen);
    msg := new ProtocolMessage(controlHdr.offset + msgElemsLen);
    msg.StoreMessage(controlHdr);
    StoreElements(msg, msgElems, msgElemsBinding);
  }

  /** CWAssembleMessage */
  method AssembleMessage(
    ids: IdGenerator, pmtu: int, seqNum: int, msgType: int,
    msgElems: seq<ProtocolMessage>, msgElemsBinding: seq<ProtocolMessage>, isCrypted: int)
    returns (completeMsg: seq<ProtocolMessage>, ghost t: Transmission)
    requires ids.Valid()
    requires forall k :: 0 <= k < |msgElems| ==> msgElems[k].Valid()
    requires forall k :: 0 <= k < |msgElemsBinding| ==> msgElemsBinding[k].Valid()
    modifies ids
    ensures ids.Valid()
    ensures t.payload
         == ControlBytes(msgType, seqNum, Concat(ContentsOf(msgElems)) + Concat(ContentsOf(msgElemsBinding)))
    ensures t.room == Room(pmtu, MAX_DTLS_HEADER_SIZE + MAX_CAPWAP_HEADER_SIZE)
    ensures t.payloadType == isCrypted && t.binding == None
    ensures t.Fragmented() ==> ids.issued == old(ids.issued) + [t.fragmentID]
    ensures !t.Fragmented() ==> ids.issued == old(ids.issued)
    ensures Holds(completeMsg, t.Datagrams())
    ensures forall i :: 0 <= i < |completeMsg| ==> fresh(completeMsg[i]) && fresh(completeMsg[i].msg)
  {
    hide Concat, ContentsOf, ControlBytes, Pieces;
    var msg := BuildControlMessage(seqNum, msgType, msgElems, msgElemsBinding);
    var room := Room(pmtu, MAX_DTLS_HEADER_SIZE + MAX_CAPWAP_HEADER_SIZE);
    var fragmentsNum := FragmentsNum(msg.offset, room);
    CountIsPieces(msg.offset, room);
    PiecesPositive(msg.offset, room);
    var payload := msg.msg[..msg.offset];
    var fragID := 0;
    if fragmentsNum != 1 {
      fragID := ids.Get();
    }
    var sent := Transmission(payload, room, fragID, isCrypted, None);
    t := sent;
    var offset;
    completeMsg, offset := AssembleFragments(sent, fragmentsNum);
  }

  lemma PiecesPositive(size: nat, room: nat)
    requires size > 0
    ensures Pieces(size, room) >= 1
  {
  }

  // ---------- data frames ----------

  /**
   * CWAssembleDataMessage. When the frame is cut, the payload type in the
   * headers is whatever the uninitialised variable held: `leftover`.
   */
  method AssembleDataMessage(
    ids: IdGenerator, pmtu: int, frame: ProtocolMessage, binding: BindingValues, isCrypted: int, leftover: int)
    returns (completeMsg: seq<ProtocolMessage>, ghost t: Transmission)
    requires ids.Valid() && frame.Valid()
    modifies ids, frame`offset
    ensures ids.Valid() && frame.Valid() && frame.offset == old(frame.offset) && frame.Stored() == old(frame.Stored())
    ensures t.payload == frame.Stored()
    ensures t.room == Room(pmtu, HEADER_SIZE_BINDING)
    ensures t.payloadType == (if t.Num() == 1 then isCrypted else leftover) && t.binding == Some(binding)
    ensures t.Num() == 1 ==> ids.issued == old(ids.issued)
    ensures t.Num() != 1 ==> ids.issued == old(ids.issued) + [t.fragmentID]
    ensures Holds(completeMsg, t.Datagrams())
    ensures forall i :: 0 <= i < |completeMsg| ==> fresh(completeMsg[i]) && fresh(completeMsg[i].msg)
  {
    var room := Room(pmtu, HEADER_SIZE_BINDING);
    var fragmentsNum := FragmentsNum(frame.offset, room);
    CountIsPieces(frame.offset, room);
    var payload := frame.msg[..frame.offset];
    var offset;
    if fragmentsNum == 1 {
      var sent := Transmission(payload, room, 0, isCrypted, Some(binding));
      t := sent;
      completeMsg, offset := AssembleFragments(sent, fragmentsNum);
    } else {
      var fragID := ids.Get();
      var sent := Transmission(payload, room, fragID, leftover, Some(binding));
      t := sent;
      completeMsg, offset := AssembleFragments(sent, fragmentsNum);
    }
    frame.offset := offset;
  }

  /** An empty frame goes out as no datagram at all once the PMTU allows fragments. */
  lemma EmptyFrameIsNotSent(t: Transmission)
    requires t.payload == []
    ensures t.Datagrams() == [] <==> t.room > 0
  {
  }
}
