/**
 * The receiving side of control messages: CWParseControlHeader and
 * CWParseFormatMsgElem (CWProtocol.c), the walk over message elements every
 * message parser performs, and the round trip from a list of elements
 * through fragmentation and back.
 */
module ControlMessage {
  import opened Wire
  import opened TransportHeader
  import opened Fragmentation
  import opened Reassembly
  import opened Integrity
  import opened Sender

  // ---------- the control header ----------

  /** CWControlHeaderValues */
  datatype ControlHeaderValues = ControlHeaderValues(messageTypeValue: nat, seqNum: nat, msgElemsLen: nat)

  const CONTROL_HEADER_SIZE := 8

  /** What CWParseControlHeader reads at position `at`; the type is a 32-bit unsigned difference. */
  function ControlHeaderAt(s: seq<byte>, at: nat): ControlHeaderValues
    requires at + CONTROL_HEADER_SIZE <= |s|
  {
    ControlHeaderValues((Word32(s, at) - IANA_TIMES_256) % 0x1_0000_0000, s[at + 4], Word16(s, at + 5))
  }

  /** CWParseControlHeader */
  method ParseControlHeader(msg: ProtocolMessage) returns (val: ControlHeaderValues)
    requires msg.offset + CONTROL_HEADER_SIZE <= msg.msg.Length
    modifies msg`offset
    ensures msg.offset == old(msg.offset) + CONTROL_HEADER_SIZE
    ensures val == ControlHeaderAt(msg.msg[..], old(msg.offset))
  {
    var word := msg.Retrieve32();
    var seqNum := msg.Retrieve8();
    var msgElemsLen := msg.Retrieve16();
    var flags := msg.Retrieve8();
    val := ControlHeaderValues((word - IANA_TIMES_256) % 0x1_0000_0000, seqNum, msgElemsLen);
  }

  /**
   * The length of the elements: what is left of the length field after the
   * parsers take off the 3 bytes it also counts, in the 16 bits of the member.
   */
  function ElementsLen(h: ControlHeaderValues): nat {
    (h.msgElemsLen - CONTROL_HEADER_OFFSET_FOR_MSG_ELEMS) % 0x1_0000
  }

  /** Where the loops over the elements end. */
  function ElementsEnd(h: ControlHeaderValues): nat {
    CONTROL_HEADER_SIZE + ElementsLen(h)
  }

  // ---------- the walk over message elements ----------

  /** An element found in a buffer: its type and where its body lies. */
  datatype Elem = Elem(elemType: nat, at: nat, len: nat) {
    function Next(): nat {
      at + len
    }
  }

  const ELEM_HEADER_SIZE := 4
  const RESULT_CODE := 33

  /** CWParseFormatMsgElem at a position. */
  function ElemAt(s: seq<byte>, at: nat): (e: Elem)
    requires at + ELEM_HEADER_SIZE <= |s|
    ensures e.at == at + ELEM_HEADER_SIZE && e.len <= 0xFFFF
  {
    Elem(Word16(s, at), at + ELEM_HEADER_SIZE, Word16(s, at + 2))
  }

  /**
   * The elements a loop `while (offset < end)` visits when it steps over each
   * body, until it is done or a header lies outside the buffer.
   */
  function Scan(s: seq<byte>, at: nat, end: nat): seq<Elem>
    decreases end - at
  {
    if at >= end || at + ELEM_HEADER_SIZE > |s| then []
    else [ElemAt(s, at)] + Scan(s, ElemAt(s, at).Next(), end)
  }

  /** The offset at which that loop is done, or None if it runs out of the buffer. */
  function ScanEnd(s: seq<byte>, at: nat, end: nat): (stop: Option<nat>)
    ensures stop.Some? ==> end <= stop.value && at <= stop.value
    decreases end - at
  {
    if at >= end then Some(at)
    else if at + ELEM_HEADER_SIZE > |s| then None
    else ScanEnd(s, ElemAt(s, at).Next(), end)
  }

  method ParseFormatMsgElem(msg: ProtocolMessage) returns (elemType: nat, len: nat)
    requires msg.offset + ELEM_HEADER_SIZE <= msg.msg.Length
    modifies msg`offset
    ensures msg.offset == old(msg.offset) + ELEM_HEADER_SIZE
    ensures Elem(elemType, msg.offset, len) == ElemAt(msg.msg[..], old(msg.offset))
  {
    elemType := msg.Retrieve16();
    len := msg.Retrieve16();
  }

  // ---------- elements as values ----------

  datatype Element = Element(elemType: nat, body: seq<byte>) {
    predicate Encodable() {
      elemType < 0x1_0000 && |body| < 0x1_0000
    }

    function Bytes(): seq<byte> {
      ElementBytes(elemType, body)
    }
  }

  function Body(es: seq<Element>): seq<byte> {
    if es == [] then [] else es[0].Bytes() + Body(es[1..])
  }

  /** An element with its body read out, if the body lies in the buffer. */
  function ElementOf(s: seq<byte>, e: Elem): Element {
    Element(e.elemType, if e.Next() <= |s| then s[e.at..e.Next()] else [])
  }

  /** The elements a scan found, with their bodies read out. */
  function Decode(s: seq<byte>, found: seq<Elem>): seq<Element> {
    if found == [] then []
    else
      [ElementOf(s, found[0])] + Decode(s, found[1..])
  }

  /** The header of an encoded element announces it. */
  lemma ElemHeader(s: seq<byte>, at: nat, e: Element)
    requires e.Encodable() && at + |e.Bytes()| <= |s| && s[at..at + |e.Bytes()|] == e.Bytes()
    ensures ElemAt(s, at) == Elem(e.elemType, at + ELEM_HEADER_SIZE, |e.body|)
    ensures s[at + ELEM_HEADER_SIZE..ElemAt(s, at).Next()] == e.body
  {
    hide ElementBytes;
    var b := e.Bytes();
    HeaderOfElement(e);
    SubSlice(s, at, b, 0, 2);
    SubSlice(s, at, b, 2, 4);
    SubSlice(s, at, b, 4, |b|);
    Word16OfBytes16(s, at, e.elemType);
    Word16OfBytes16(s, at + 2, |e.body|);
  }

  lemma HeaderOfElement(e: Element)
    ensures var b := e.Bytes();
      |b| == 4 + |e.body| && b[0..2] == Bytes16(e.elemType) && b[2..4] == Bytes16(|e.body|) && b[4..|b|] == e.body
  {
  }

  /** All elements lie between two offsets. */
  ghost predicate Within(found: seq<Elem>, at: nat, end: nat) {
    forall k :: 0 <= k < |found| ==> at <= found[k].at && found[k].Next() <= end
  }

  /** A walk that is done has visited nothing beyond the place where it stops. */
  lemma {:induction false} VisitedWithin(s: seq<byte>, at: nat, end: nat)
    requires ScanEnd(s, at, end).Some?
    ensures Within(Scan(s, at, end), at, ScanEnd(s, at, end).value)
    decreases end - at
  {
    if at < end {
      VisitedWithin(s, ElemAt(s, at).Next(), end);
    }
  }

  /**
   * Walking an encoded list of elements finds exactly those elements, in
   * order, and stops exactly at its end, whatever lies behind it, also
   * nothing; every element visited lies within the list.
   */
  lemma {:induction false} ScanRecovers(s: seq<byte>, at: nat, es: seq<Element>)
    requires forall k :: 0 <= k < |es| ==> es[k].Encodable()
    requires at + |Body(es)| <= |s| && s[at..at + |Body(es)|] == Body(es)
    ensures var end := at + |Body(es)|;
      && Decode(s, Scan(s, at, end)) == es
      && ScanEnd(s, at, end) == Some(end)
      && Within(Scan(s, at, end), at, end)
    decreases |es|
  {
    hide ElementBytes, Scan, ScanEnd, Decode, Within, Word16;
    var end := at + |Body(es)|;
    if es == [] {
      ScanNothing(s, at);
    } else {
      var e, rest := es[0], es[1..];
      var n := |e.Bytes()|;
      HeaderOfElement(e);
      SubSlice(s, at, Body(es), 0, n);
      SubSlice(s, at, Body(es), n, |Body(es)|);
      ElemHeader(s, at, e);
      ScanRecovers(s, at + n, rest);
      ScanStep(s, at, end);
      assert ElementOf(s, ElemAt(s, at)) == e;
      DecodeStep(s, ElemAt(s, at), Scan(s, at + n, end));
      assert es == [e] + rest;
    }
    VisitedWithin(s, at, end);
  }

  lemma ScanNothing(s: seq<byte>, at: nat)
    ensures Decode(s, Scan(s, at, at)) == [] && ScanEnd(s, at, at) == Some(at)
  {
  }

  lemma ScanStep(s: seq<byte>, at: nat, end: nat)
    requires at < end && at + ELEM_HEADER_SIZE <= |s|
    ensures var next := ElemAt(s, at).Next();
      Scan(s, at, end) == [ElemAt(s, at)] + Scan(s, next, end) && ScanEnd(s, at, end) == ScanEnd(s, next, end)
  {
  }

  lemma DecodeStep(s: seq<byte>, e: Elem, rest: seq<Elem>)
    ensures Decode(s, [e] + rest) == [ElementOf(s, e)] + Decode(s, rest)
  {
    assert ([e] + rest)[1..] == rest;
  }

  // ---------- the round trip ----------

  /** Storing the encoded elements one after the other gives Body. */
  lemma {:induction false} ConcatIsBody(es: seq<Element>)
    ensures Concat(seq(|es|, k requires 0 <= k < |es| => es[k].Bytes())) == Body(es)
  {
    var bs := seq(|es|, k requires 0 <= k < |es| => es[k].Bytes());
    if es != [] {
      var rest := seq(|es| - 1, k requires 0 <= k < |es| - 1 => es[1..][k].Bytes());
      ConcatIsBody(es[1..]);
      assert bs == [bs[0]] + rest;
      ConcatCons(bs[0], rest);
    }
  }

  lemma {:induction false} ConcatCons(b: seq<byte>, bs: seq<seq<byte>>)
    ensures Concat([b] + bs) == b + Concat(bs)
  {
    if bs == [] {
      assert ([b] + bs)[..0] == [];
    } else {
      var n := |bs| - 1;
      assert ([b] + bs)[..n + 1] == [b] + bs[..n];
      ConcatCons(b, bs[..n]);
    }
  }

  /** The elements of two lists stored one after the other are those of the joined list. */
  lemma {:induction false} BodyOfJoined(es: seq<Element>, more: seq<Element>)
    ensures Body(es + more) == Body(es) + Body(more)
  {
    hide ElementBytes;
    if es == [] {
      assert es + more == more;
    } else {
      BodyOfJoined(es[1..], more);
      assert (es + more)[0] == es[0] && (es + more)[1..] == es[1..] + more;
      Regroup(es[0].Bytes(), Body(es[1..]), Body(more));
    }
  }

  lemma Regroup(a: seq<byte>, b: seq<byte>, c: seq<byte>)
    ensures (a + b) + c == a + (b + c)
  {
  }

  /** What the messages of the elements hold, put one after the other. */
  lemma StoredIsBody(contents: seq<seq<byte>>, es: seq<Element>)
    requires |contents| == |es| && forall k :: 0 <= k < |es| ==> contents[k] == es[k].Bytes()
    ensures Concat(contents) == Body(es)
  {
    hide Body, Concat, ElementBytes;
    ConcatIsBody(es);
    assert contents == seq(|es|, k requires 0 <= k < |es| => es[k].Bytes());
  }

  /** An element in a message of its own: its body is stored, and then its type and length are put in front. */
  method AssembleElement(e: Element) returns (m: ProtocolMessage)
    ensures fresh(m) && fresh(m.msg) && m.Valid() && m.Stored() == e.Bytes()
  {
    hide ElementBytes;
    m := new ProtocolMessage(|e.body|);
    m.StoreRawBytes(e.body);
    assert m.Stored() == e.body;
    AssembleMsgElem(m, e.elemType);
  }

  method AssembleElements(es: seq<Element>) returns (ms: seq<ProtocolMessage>)
    ensures |ms| == |es|
    ensures forall k :: 0 <= k < |ms| ==> fresh(ms[k]) && fresh(ms[k].msg) && ms[k].Valid()
    ensures Concat(ContentsOf(ms)) == Body(es)
  {
    hide Body, Concat, ElementBytes, ContentsOf, Bytes16;
    ms := [];
    for i := 0 to |es|
      invariant |ms| == i
      invariant forall k :: 0 <= k < i ==> fresh(ms[k]) && fresh(ms[k].msg)
      invariant forall k :: 0 <= k < i ==> ms[k].Valid() && ms[k].Stored() == es[k].Bytes()
    {
      var m := AssembleElement(es[i]);
      ms := ms + [m];
    }
    StoredIsBody(ContentsOf(ms), es);
  }

  /**
   * A control message from its elements, as the CWAssemble functions of the
   * messages make it: each element is assembled, and then the core elements
   * and those of the binding go to CWAssembleMessage.
   */
  method AssembleFromElements(
    ids: IdGenerator, pmtu: int, seqNum: nat, msgType: nat,
    es: seq<Element>, bindingEs: seq<Element>, isCrypted: int)
    returns (completeMsg: seq<ProtocolMessage>, ghost t: Transmission)
    requires ids.Valid()
    modifies ids
    ensures ids.Valid()
    ensures t.payload == ControlBytes(msgType, seqNum, Body(es + bindingEs))
    ensures t.room == Room(pmtu, MAX_DTLS_HEADER_SIZE + MAX_CAPWAP_HEADER_SIZE)
    ensures t.payloadType == isCrypted && t.binding == None
    ensures t.Fragmented() ==> ids.issued == old(ids.issued) + [t.fragmentID]
    ensures !t.Fragmented() ==> ids.issued == old(ids.issued)
    ensures Holds(completeMsg, t.Datagrams())
    ensures forall i :: 0 <= i < |completeMsg| ==> fresh(completeMsg[i]) && fresh(completeMsg[i].msg)
  {
    hide Body, Concat, ContentsOf, ControlBytes, Pieces;
    BodyOfJoined(es, bindingEs);
    var msgElems := AssembleElements(es);
    var msgElemsBinding := AssembleElements(bindingEs);
    completeMsg, t := AssembleMessage(ids, pmtu, seqNum, msgType, msgElems, msgElemsBinding, isCrypted);
  }

  /** The control header of an assembled message parses back to what was put in. */
  lemma ControlHeaderRoundTrip(s: seq<byte>, msgType: nat, seqNum: nat, body: seq<byte>)
    requires seqNum < 0x100 && |body| + CONTROL_HEADER_OFFSET_FOR_MSG_ELEMS < 0x1_0000
    requires ControlBytes(msgType, seqNum, body) <= s
    ensures ControlHeaderAt(s, 0)
         == ControlHeaderValues(msgType % 0x1_0000_0000, seqNum, |body| + CONTROL_HEADER_OFFSET_FOR_MSG_ELEMS)
  {
    hide Bytes16, Bytes32, Word16, Word32;
    var h := ControlHeaderBytes(msgType, seqNum, |body|);
    SubSlice(s, 0, h, 0, 4);
    SubSlice(s, 0, h, 4, 5);
    SubSlice(s, 0, h, 5, 7);
    ControlHeaderLayout(msgType, seqNum, |body|);
    assert s[4] == s[4..5][0];
    Word32OfBytes32(s, 0, IANA_TIMES_256 + msgType);
    Word16OfBytes16(s, 5, CONTROL_HEADER_OFFSET_FOR_MSG_ELEMS + |body|);
    AddThenSubtract(msgType);
  }

  /** Where the parts of a control header lie. */
  lemma ControlHeaderLayout(msgType: nat, seqNum: nat, msgElemsLen: nat)
    ensures var h := ControlHeaderBytes(msgType, seqNum, msgElemsLen);
      && h[0..4] == Bytes32(IANA_TIMES_256 + msgType) && h[4..5] == [seqNum % 0x100]
      && h[5..7] == Bytes16(CONTROL_HEADER_OFFSET_FOR_MSG_ELEMS + msgElemsLen) && h[7] == 0
  {
    hide Bytes16, Bytes32;
  }

  lemma AddThenSubtract(v: nat)
    ensures ((IANA_TIMES_256 + v) % 0x1_0000_0000 - IANA_TIMES_256) % 0x1_0000_0000 == v % 0x1_0000_0000
  {
  }

  /** Every fragment is delivered, and the last delivery is the first of its kind. */
  ghost predicate CompletesAtLast(t: Transmission, order: seq<nat>) {
    && (forall k :: 0 <= k < |order| ==> order[k] < t.Num())
    && (forall i :: 0 <= i < t.Num() ==> i in order)
    && order != [] && order[|order| - 1] !in order[..|order| - 1]
    && (!t.Fragmented() ==> order == [0])
  }

  /**
   * End to end. Assemble a control message from any type, sequence number
   * and list of elements that fit the 16-bit length fields, and cut it for any
   * PMTU, as AssembleFromElements does; deliver the fragments in any order
   * with repetitions until the last one arrives. The last call returns the message. In any buffer that starts
   * with it, the one of exactly its size that the receiver allocates included,
   * the control header reads back the type, the sequence number and the
   * length, and the walk over the elements finds exactly the original list,
   * consumes exactly that length and visits nothing beyond it.
   */
  lemma ControlRoundTrip(
    msgType: nat, seqNum: nat, es: seq<Element>, t: Transmission, pmtu: int,
    fs: seq<Fragment>, order: seq<nat>, s: seq<byte>)
    requires seqNum < 0x100 && (forall k :: 0 <= k < |es| ==> es[k].Encodable())
    requires |Body(es)| + CONTROL_HEADER_OFFSET_FOR_MSG_ELEMS < 0x1_0000
    requires t.payload == ControlBytes(msgType, seqNum, Body(es))
    requires t.room == Room(pmtu, MAX_DTLS_HEADER_SIZE + MAX_CAPWAP_HEADER_SIZE)
    requires t.Fragmented() ==> t.Begin(t.Num() - 1) < 0x1_0000
    requires CompletesAtLast(t, order) && Unrelated(t, fs)
    requires t.payload <= s
    ensures forall k :: 0 <= k < |order| ==> HasHeader(Deliveries(t, order)[k])
    ensures Run(fs, Deliveries(t, order)).1[|order| - 1] == Reassembled(t.payload, KindOf(t))
    ensures forall k :: 0 <= k < |order| - 1 ==> Run(fs, Deliveries(t, order)).1[k] == NeedResource
    ensures |t.payload| == CONTROL_HEADER_SIZE + |Body(es)|
    ensures var h := ControlHeaderAt(s, 0);
      var end := ElementsEnd(h);
      && h.messageTypeValue == msgType % 0x1_0000_0000
      && h.seqNum == seqNum
      && end == |t.payload|
      && Decode(s, Scan(s, CONTROL_HEADER_SIZE, end)) == es
      && ScanEnd(s, CONTROL_HEADER_SIZE, end) == Some(end)
      && Within(Scan(s, CONTROL_HEADER_SIZE, end), CONTROL_HEADER_SIZE, end)
  {
    hide Within, Scan, ScanEnd, Decode, Body, Run, Unrelated, CompletesAtLast, Start, Pieces, Deliveries;
    DeliverControl(t, fs, order);
    ParseBack(msgType, seqNum, es, s);
  }

  /** The part of the round trip after reassembly. */
  lemma ParseBack(msgType: nat, seqNum: nat, es: seq<Element>, s: seq<byte>)
    requires seqNum < 0x100 && (forall k :: 0 <= k < |es| ==> es[k].Encodable())
    requires |Body(es)| + CONTROL_HEADER_OFFSET_FOR_MSG_ELEMS < 0x1_0000
    requires ControlBytes(msgType, seqNum, Body(es)) <= s
    ensures ControlHeaderAt(s, 0)
         == ControlHeaderValues(
              msgType % 0x1_0000_0000, seqNum, |Body(es)| + CONTROL_HEADER_OFFSET_FOR_MSG_ELEMS)
    ensures var end := CONTROL_HEADER_SIZE + |Body(es)|;
      && Decode(s, Scan(s, CONTROL_HEADER_SIZE, end)) == es
      && ScanEnd(s, CONTROL_HEADER_SIZE, end) == Some(end)
      && Within(Scan(s, CONTROL_HEADER_SIZE, end), CONTROL_HEADER_SIZE, end)
  {
    hide ControlHeaderBytes, ControlHeaderAt, Body, Scan, ScanEnd, Decode, Within;
    ControlHeaderRoundTrip(s, msgType, seqNum, Body(es));
    var b := ControlBytes(msgType, seqNum, Body(es));
    SubSlice(s, 0, b, 8, |b|);
    ScanRecovers(s, CONTROL_HEADER_SIZE, es);
  }

  lemma DeliverControl(t: Transmission, fs: seq<Fragment>, order: seq<nat>)
    requires Sendable(t) && CompletesAtLast(t, order) && Unrelated(t, fs)
    ensures forall k :: 0 <= k < |order| ==> HasHeader(Deliveries(t, order)[k])
    ensures Run(fs, Deliveries(t, order)).1[|order| - 1] == Reassembled(t.payload, KindOf(t))
    ensures forall k :: 0 <= k < |order| - 1 ==> Run(fs, Deliveries(t, order)).1[k] == NeedResource
  {
    DeliveryHeaders(t, order);
    CutIsExact(t);
    if t.Fragmented() {
      Completeness(t, fs, order);
    } else {
      ReceiveDatagram(fs, t, 0);
      var trace := Deliveries(t, order);
      assert trace[..0] == [];
      RunLast(fs, trace);
    }
  }

  // ---------- where distinct wire IDs come from ----------

  /**
   * Messages that took their IDs from one counter within a window of 65536
   * draws have pairwise distinct wire IDs, which is what Integrity needs; the
   * counter may wrap (AC) or be cut to 16 bits by the header (WTP).
   */
  lemma CountedIdsDistinct(ts: seq<Transmission>, draw: seq<nat>, first: nat)
    requires |draw| == |ts|
    requires forall m :: 0 <= m < |ts| ==> first <= draw[m] < first + MAX_FRAGMENT_ID + 1
    requires forall m, n :: 0 <= m < n < |ts| && ts[m].Fragmented() && ts[n].Fragmented() ==> draw[m] < draw[n]
    requires forall m :: 0 <= m < |ts| && ts[m].Fragmented() ==> WireId(ts[m]) == draw[m] % (MAX_FRAGMENT_ID + 1)
    ensures DistinctIds(ts)
  {
    forall m, n | 0 <= m < n < |ts| && ts[m].Fragmented() && ts[n].Fragmented()
      ensures WireId(ts[m]) != WireId(ts[n])
    {
      WindowDistinct(MAX_FRAGMENT_ID, draw[m], draw[n]);
    }
  }
}
