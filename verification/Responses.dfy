/**
 * How the AC matches responses to its requests: the outstanding-request
 * fields of a session slot (ACRetransmission.c), the check every control
 * message passes in the Run state and the response cases of ACEnterRun
 * (ACRunState.c), and what starting and closing a session does to the slot
 * (ACMainLoop.c). A slot is reused by one session after another.
 */
module Responses {
  import opened Wire
  import opened Sender
  import opened ControlMessage
  import Firmware

  const UNUSED_MSG_TYPE := 0
  const VENDOR_SPEC_PAYLOAD := 37
  const RESULT_CODE_WITH_PAYLOAD := 49
  const CONFIGURE_UPDATE_RESPONSE := 8
  const CLEAR_CONFIGURATION_RESPONSE := 24
  const STATION_CONFIGURATION_RESPONSE := 26

  predicate IsResponse(msgType: nat) {
    || msgType == CONFIGURE_UPDATE_RESPONSE
    || msgType == CLEAR_CONFIGURATION_RESPONSE
    || msgType == STATION_CONFIGURATION_RESPONSE
  }

  /** isRetransmitting, responseType and responseSeqNum of a slot. */
  datatype Outstanding = Outstanding(isRetransmitting: bool, responseType: nat, responseSeqNum: nat)

  const IDLE := Outstanding(false, UNUSED_MSG_TYPE, 0)

  /**
   * What can happen to a slot. `sent` says whether the fragments of a
   * request could be sent and its timer started, `elements` what the parser
   * of the response makes of its elements.
   */
  datatype Event =
    | Started
    | Requested(msgType: nat, seqNum: nat, sent: bool)
    | Received(msgType: nat, seqNum: nat, elements: Reading<()>)
    | Closed

  /** What ACEnterRun does with a control message. */
  datatype Reaction =
    | Refused      // unexpected response: INVALID_FORMAT, logged and dropped
    | AsRequest    // an odd type: handled as a request of the WTP
    | BadElements  // the expected response, but its elements are malformed
    | Overread     // the expected response, but its parser leaves the buffer
    | Processed    // the expected response
    | Unexpected   // past the check, but no response the AC knows: answered with a failure

  /** The test of CWACParseGenericRunMessage. */
  predicate Passes(o: Outstanding, msgType: nat, seqNum: nat) {
    msgType % 2 == 1 || (o.responseSeqNum == seqNum && o.responseType == msgType)
  }

  function React(o: Outstanding, msgType: nat, seqNum: nat, elements: Reading<()>): Reaction {
    if !Passes(o, msgType, seqNum) then Refused
    else if msgType % 2 == 1 then AsRequest
    else if !IsResponse(msgType) then Unexpected
    else
      match elements
      case Read(_) => Processed
      case Malformed => BadElements
      case Outside => Overread
  }

  function Stopped(o: Outstanding): Outstanding {
    if o.isRetransmitting then IDLE else o
  }

  function Step(o: Outstanding, e: Event): Outstanding {
    match e
    case Started => o.(isRetransmitting := false)
    case Requested(msgType, seqNum, sent) => if sent then Outstanding(true, msgType, seqNum) else IDLE
    case Received(msgType, seqNum, elements) =>
      if React(o, msgType, seqNum, elements) == Processed then Stopped(o) else o
    case Closed => Stopped(o)
  }

  // ---------- the elements of a response ----------

  /**
   * What the three response parsers make of one element: the offset they go
   * on at. A result code is 4 bytes whatever length it announces.
   */
  function VisitElement(msgType: nat, s: seq<byte>, e: Elem): (r: Reading<nat>)
    ensures r.Read? ==> e.at + 4 <= r.value <= |s|
  {
    if e.elemType == RESULT_CODE then (if e.at + 4 <= |s| then Read(e.at + 4) else Outside)
    else if msgType == CONFIGURE_UPDATE_RESPONSE && e.elemType == RESULT_CODE_WITH_PAYLOAD then VisitPayload(s, e.at)
    else Malformed
  }

  /** A result code, the type of a vendor payload, the kind of payload, its size and itself. */
  function VisitPayload(s: seq<byte>, at: nat): (r: Reading<nat>)
    ensures r.Read? ==> at + 4 <= r.value <= |s|
  {
    if at + 6 > |s| then Outside
    else if Word16(s, at + 4) != VENDOR_SPEC_PAYLOAD then Malformed
    else if at + 8 > |s| then Outside
    else
      var kind := Word16(s, at + 6);
      if kind != Firmware.VENDOR_SPEC_PAYLOAD_UCI && kind != Firmware.VENDOR_SPEC_PAYLOAD_WUM then Malformed
      else if at + 12 > |s| then Outside
      else
        var size := Word32(s, at + 8);
        if kind == Firmware.VENDOR_SPEC_PAYLOAD_WUM && (size == 0 || size >= 0x8000_0000) then Malformed
        else if at + 12 + size > |s| || size >= 0x8000_0000 then Outside
        else Read(at + 12 + size)
  }

  function WalkElements(msgType: nat, s: seq<byte>, at: nat, end: nat): Reading<nat>
    decreases end - at
  {
    if at >= end then Read(at)
    else if at + ELEM_HEADER_SIZE > |s| then Outside
    else
      match VisitElement(msgType, s, ElemAt(s, at))
      case Read(next) => WalkElements(msgType, s, next, end)
      case Malformed => Malformed
      case Outside => Outside
  }

  /** The elements up to `end` must stop there exactly. */
  function ReadElements(msgType: nat, s: seq<byte>, at: nat, end: nat): Reading<()> {
    match WalkElements(msgType, s, at, end)
    case Read(stop) => if stop == end then Read(()) else Malformed
    case Malformed => Malformed
    case Outside => Outside
  }

  /** The body of one element, in the parser of a configuration update response. */
  method ParsePayload(msg: ProtocolMessage) returns (r: Reading<()>)
    modifies msg`offset
    ensures match VisitPayload(msg.msg[..], old(msg.offset))
            case Read(next) => r == Read(()) && msg.offset == next
            case Malformed => r == Malformed
            case Outside => r == Outside
  {
    hide Word16, Word32;
    if msg.offset + 6 > msg.msg.Length {
      return Outside;
    }
    var resultCode := msg.Retrieve32();
    var payload := msg.Retrieve16();
    if payload != VENDOR_SPEC_PAYLOAD {
      return Malformed;
    }
    if msg.offset + 2 > msg.msg.Length {
      return Outside;
    }
    var kind := msg.Retrieve16();
    if kind != Firmware.VENDOR_SPEC_PAYLOAD_UCI && kind != Firmware.VENDOR_SPEC_PAYLOAD_WUM {
      return Malformed;
    }
    if msg.offset + 4 > msg.msg.Length {
      return Outside;
    }
    var size := msg.Retrieve32();
    if kind == Firmware.VENDOR_SPEC_PAYLOAD_WUM && (size == 0 || size >= 0x8000_0000) {
      return Malformed;
    }
    if msg.offset + size > msg.msg.Length || size >= 0x8000_0000 {
      return Outside;
    }
    var bytes := msg.RetrieveRawBytes(size);
    r := Read(());
  }

  /**
   * CWParseConfigurationUpdateResponseMessage, CWParseClearConfigurationResponseMessage
   * and CWParseStationConfigurationResponseMessage, which differ in the element types they know.
   */
  method ParseResponse(msg: ProtocolMessage, msgType: nat, len: nat) returns (r: Reading<()>)
    modifies msg`offset
    ensures r == ReadElements(msgType, msg.msg[..], old(msg.offset), old(msg.offset) + len)
  {
    hide VisitPayload, Word16;
    ghost var s := msg.msg[..];
    var end := msg.offset + len;
    while msg.offset < end
      invariant msg.msg[..] == s
      invariant WalkElements(msgType, s, old(msg.offset), end) == WalkElements(msgType, s, msg.offset, end)
      decreases end - msg.offset
    {
      if msg.offset + ELEM_HEADER_SIZE > msg.msg.Length {
        return Outside;
      }
      var elemType, elemLen := ParseFormatMsgElem(msg);
      if elemType == RESULT_CODE {
        if msg.offset + 4 > msg.msg.Length {
          return Outside;
        }
        var resultCode := msg.Retrieve32();
      } else if msgType == CONFIGURE_UPDATE_RESPONSE && elemType == RESULT_CODE_WITH_PAYLOAD {
        r := ParsePayload(msg);
        if !r.Read? {
          return;
        }
      } else {
        return Malformed;
      }
    }
    r := if msg.offset == end then Read(()) else Malformed;
  }

  /**
   * A clear or station configuration response inside its buffer is accepted
   * exactly when it is made of groups of 8 bytes that start with the type of
   * a result code; the length each announces is not consulted.
   */
  lemma {:induction false} ResultCodesExactly(msgType: nat, s: seq<byte>, at: nat, end: nat)
    requires msgType == CLEAR_CONFIGURATION_RESPONSE || msgType == STATION_CONFIGURATION_RESPONSE
    requires at <= end <= |s|
    ensures ReadElements(msgType, s, at, end).Read? <==> ResultCodes(s, at, end)
    decreases end - at
  {
    if at + 8 <= end {
      ResultCodesExactly(msgType, s, at + 8, end);
      ResultCodesStep(s, at, end);
    } else {
      assert WalkElements(msgType, s, at + 8, end) == Read(at + 8);
    }
  }

  /** A result code starts at every eighth byte. */
  ghost predicate ResultCodes(s: seq<byte>, at: nat, end: nat) {
    (end - at) % 8 == 0 && forall p: nat :: at <= p < end && (p - at) % 8 == 0 ==> CodeAt(s, p)
  }

  predicate CodeAt(s: seq<byte>, at: nat) {
    at + 2 <= |s| && Word16(s, at) == RESULT_CODE
  }

  lemma ResultCodesStep(s: seq<byte>, at: nat, end: nat)
    requires at + 8 <= end
    ensures ResultCodes(s, at, end) <==> CodeAt(s, at) && ResultCodes(s, at + 8, end)
  {
    hide CodeAt;
    if ResultCodes(s, at, end) {
      assert CodeAt(s, at);
    }
  }

  /**
   * An element of a response as it is sent: a result code, or a result code
   * with a vendor payload. The announced length may be any; nobody reads it.
   */
  datatype Item =
    | Code(announced: nat, code: nat)
    | WithPayload(announced: nat, code: nat, kind: nat, payload: seq<byte>)
  {
    function Bytes(): seq<byte> {
      match this
      case Code(announced, code) => Bytes16(RESULT_CODE) + Bytes16(announced) + Bytes32(code)
      case WithPayload(announced, code, kind, payload) =>
        Bytes16(RESULT_CODE_WITH_PAYLOAD) + Bytes16(announced) + Bytes32(code)
        + Bytes16(VENDOR_SPEC_PAYLOAD) + Bytes16(kind) + Bytes32(|payload|) + payload
    }

    /** The members fit their fields, and the payload is one the AC knows; a WUM payload is not empty. */
    predicate Sendable() {
      && announced < 0x1_0000 && code < 0x1_0000_0000
      && (WithPayload? ==>
            && |payload| < 0x8000_0000
            && (kind == Firmware.VENDOR_SPEC_PAYLOAD_UCI
                || (kind == Firmware.VENDOR_SPEC_PAYLOAD_WUM && payload != [])))
    }
  }

  /** Payloads are known in configuration update responses only. */
  predicate Allowed(msgType: nat, i: Item) {
    i.Sendable() && (i.WithPayload? ==> msgType == CONFIGURE_UPDATE_RESPONSE)
  }

  function ItemsBytes(items: seq<Item>): seq<byte> {
    if items == [] then [] else items[0].Bytes() + ItemsBytes(items[1..])
  }

  /** The bytes between two offsets are those of items the parser allows. */
  ghost predicate MadeOf(msgType: nat, s: seq<byte>, at: nat, end: nat, items: seq<Item>)
    requires at <= end <= |s|
  {
    (forall k :: 0 <= k < |items| ==> Allowed(msgType, items[k])) && s[at..end] == ItemsBytes(items)
  }

  lemma CodeVisited(msgType: nat, s: seq<byte>, at: nat, i: Item)
    requires i.Code? && Allowed(msgType, i)
    requires at + |i.Bytes()| <= |s| && s[at..at + |i.Bytes()|] == i.Bytes()
    ensures VisitElement(msgType, s, ElemAt(s, at)) == Read(at + |i.Bytes()|)
  {
    hide Bytes16, Bytes32, Word16;
    assert i.Bytes()[0..2] == Bytes16(RESULT_CODE);
    SubSlice(s, at, i.Bytes(), 0, 2);
    Word16OfBytes16(s, at, RESULT_CODE);
  }

  lemma PayloadLayout(i: Item)
    requires i.WithPayload?
    ensures var b := i.Bytes();
      && |b| == 16 + |i.payload| && b[0..2] == Bytes16(RESULT_CODE_WITH_PAYLOAD)
      && b[8..10] == Bytes16(VENDOR_SPEC_PAYLOAD) && b[10..12] == Bytes16(i.kind)
      && b[12..16] == Bytes32(|i.payload|) && b[16..|b|] == i.payload
  {
    hide Bytes16, Bytes32;
    var head := Bytes16(RESULT_CODE_WITH_PAYLOAD) + Bytes16(i.announced) + Bytes32(i.code);
    var tail := Bytes16(VENDOR_SPEC_PAYLOAD) + Bytes16(i.kind) + Bytes32(|i.payload|);
    assert i.Bytes() == head + tail + i.payload;
  }

  lemma PayloadVisited(msgType: nat, s: seq<byte>, at: nat, i: Item)
    requires i.WithPayload? && Allowed(msgType, i)
    requires at + |i.Bytes()| <= |s| && s[at..at + |i.Bytes()|] == i.Bytes()
    ensures VisitElement(msgType, s, ElemAt(s, at)) == Read(at + |i.Bytes()|)
  {
    hide Bytes16, Bytes32, Word16, Word32, Item.Bytes;
    PayloadLayout(i);
    SubSlice(s, at, i.Bytes(), 0, 2);
    SubSlice(s, at, i.Bytes(), 8, 10);
    SubSlice(s, at, i.Bytes(), 10, 12);
    SubSlice(s, at, i.Bytes(), 12, 16);
    Word16OfBytes16(s, at, RESULT_CODE_WITH_PAYLOAD);
    Word16OfBytes16(s, at + 8, VENDOR_SPEC_PAYLOAD);
    Word16OfBytes16(s, at + 10, i.kind);
    Word32OfBytes32(s, at + 12, |i.payload|);
  }

  /** The item a visited element is. */
  ghost function ItemAt(s: seq<byte>, at: nat, next: nat): Item
    requires at + 8 <= next <= |s| && (Word16(s, at) != RESULT_CODE ==> at + 16 <= next)
  {
    if Word16(s, at) == RESULT_CODE then Code(Word16(s, at + 2), Word32(s, at + 4))
    else WithPayload(Word16(s, at + 2), Word32(s, at + 4), Word16(s, at + 10), s[at + 16..next])
  }

  lemma VisitedIsItem(msgType: nat, s: seq<byte>, at: nat, next: nat)
    requires at + ELEM_HEADER_SIZE <= |s| && VisitElement(msgType, s, ElemAt(s, at)) == Read(next)
    ensures at + 8 <= next <= |s| && (Word16(s, at) != RESULT_CODE ==> at + 16 <= next)
    ensures Allowed(msgType, ItemAt(s, at, next)) && ItemAt(s, at, next).Bytes() == s[at..next]
  {
    hide Bytes16, Bytes32, Word16, Word32;
    BytesOfWord16(s, at);
    BytesOfWord16(s, at + 2);
    BytesOfWord32(s, at + 4);
    Join(s, at, at + 2, at + 4);
    Join(s, at, at + 4, at + 8);
    if Word16(s, at) != RESULT_CODE {
      BytesOfWord16(s, at + 8);
      BytesOfWord16(s, at + 10);
      BytesOfWord32(s, at + 12);
      Join(s, at, at + 8, at + 10);
      Join(s, at, at + 10, at + 12);
      Join(s, at, at + 12, at + 16);
      Join(s, at, at + 16, next);
    }
  }

  lemma {:induction false} WalkMadeOf(msgType: nat, s: seq<byte>, at: nat, end: nat) returns (items: seq<Item>)
    requires at <= end <= |s| && WalkElements(msgType, s, at, end) == Read(end)
    ensures MadeOf(msgType, s, at, end, items)
    decreases end - at
  {
    hide VisitElement, Allowed, Item.Bytes, ItemAt;
    if at == end {
      items := [];
    } else {
      var next := VisitElement(msgType, s, ElemAt(s, at)).value;
      VisitedIsItem(msgType, s, at, next);
      WalkGoesOn(msgType, s, next, end);
      var rest := WalkMadeOf(msgType, s, next, end);
      items := [ItemAt(s, at, next)] + rest;
      assert items[1..] == rest;
      Join(s, at, next, end);
    }
  }

  /** A walk never goes back. */
  lemma WalkGoesOn(msgType: nat, s: seq<byte>, at: nat, end: nat)
    requires WalkElements(msgType, s, at, end) == Read(end)
    ensures at <= end
  {
  }

  lemma {:induction false} MadeOfWalks(msgType: nat, s: seq<byte>, at: nat, end: nat, items: seq<Item>)
    requires at <= end <= |s| && MadeOf(msgType, s, at, end, items)
    ensures WalkElements(msgType, s, at, end) == Read(end)
    decreases |items|
  {
    hide VisitElement, Item.Bytes, Allowed, Word16;
    if items != [] {
      assert Allowed(msgType, items[0]);
      var i, rest := items[0], items[1..];
      var n := |i.Bytes()|;
      SubSlice(s, at, ItemsBytes(items), 0, n);
      SubSlice(s, at, ItemsBytes(items), n, end - at);
      if i.Code? {
        CodeVisited(msgType, s, at, i);
      } else {
        PayloadVisited(msgType, s, at, i);
      }
      ItemSize(i);
      MadeOfWalks(msgType, s, at + n, end, rest);
    }
  }

  lemma ItemSize(i: Item)
    ensures |i.Bytes()| >= 8
  {
    hide Bytes16, Bytes32;
  }

  /**
   * What a response may consist of. Elements inside the buffer are accepted
   * exactly when their bytes are those of a list of result codes and, in a
   * configuration update response, of result codes with a UCI payload or a
   * nonempty WUM payload, up to the end exactly.
   */
  lemma ResponseExactly(msgType: nat, s: seq<byte>, at: nat, end: nat)
    requires at <= end <= |s|
    ensures ReadElements(msgType, s, at, end) == Read(()) <==> exists items :: MadeOf(msgType, s, at, end, items)
  {
    hide WalkElements, MadeOf;
    if WalkElements(msgType, s, at, end) == Read(end) {
      var items := WalkMadeOf(msgType, s, at, end);
    }
    forall items | MadeOf(msgType, s, at, end, items) ensures WalkElements(msgType, s, at, end) == Read(end) {
      MadeOfWalks(msgType, s, at, end, items);
    }
  }

  /** A response of any of the three kinds that carries a result code is well formed, in a buffer of its size. */
  lemma ResponseAccepted(msgType: nat, seqNum: nat, resultCode: nat)
    requires IsResponse(msgType) && seqNum < 0x100
    ensures var s := ControlBytes(msgType, seqNum, ElementBytes(RESULT_CODE, Bytes32(resultCode)));
      var h := ControlHeaderAt(s, 0);
      && h.messageTypeValue == msgType && h.seqNum == seqNum
      && ReadElements(msgType, s, CONTROL_HEADER_SIZE, ElementsEnd(h)) == Read(())
  {
    hide ControlHeaderBytes, ControlHeaderAt, Bytes32;
    var body := ElementBytes(RESULT_CODE, Bytes32(resultCode));
    var s := ControlBytes(msgType, seqNum, body);
    ControlHeaderRoundTrip(s, msgType, seqNum, body);
    assert s[8..10] == body[0..2] == Bytes16(RESULT_CODE);
    Word16OfBytes16(s, 8, RESULT_CODE);
    assert ElemAt(s, 8).elemType == RESULT_CODE && ElementsEnd(ControlHeaderAt(s, 0)) == 16 == |s|;
    assert VisitElement(msgType, s, ElemAt(s, 8)) == Read(16);
    assert WalkElements(msgType, s, 16, 16) == Read(16);
  }

  // ---------- the code ----------

  class Session {
    var isRetransmitting: bool
    var responseType: nat
    var responseSeqNum: nat
    var retransmissionCount: nat

    ghost function View(): Outstanding
      reads this
    {
      Outstanding(isRetransmitting, responseType, responseSeqNum)
    }

    /** A slot of the zeroed global table. */
    constructor ()
      ensures View() == IDLE
    {
      isRetransmitting, responseType, responseSeqNum, retransmissionCount := false, 0, 0, 0;
    }

    /** CWACSendAcknowledgedPacket */
    method SendAcknowledgedPacket(msgType: nat, seqNum: nat, sent: bool) returns (ok: bool)
      modifies this
      ensures ok == sent && View() == Outstanding(true, msgType, seqNum) && retransmissionCount == 0
    {
      retransmissionCount := 0;
      isRetransmitting := true;
      responseType := msgType;
      responseSeqNum := seqNum;
      ok := sent;
    }

    /** CWACStopRetransmission */
    method StopRetransmission()
      modifies this`isRetransmitting, this`responseType, this`responseSeqNum
      ensures View() == Stopped(old(View()))
    {
      if isRetransmitting {
        isRetransmitting := false;
        responseType := UNUSED_MSG_TYPE;
        responseSeqNum := 0;
      }
    }

    /** What every caller does with an assembled request. */
    method SendRequest(msgType: nat, seqNum: nat, sent: bool)
      modifies this
      ensures View() == Step(old(View()), Requested(msgType, seqNum, sent))
    {
      var ok := SendAcknowledgedPacket(msgType, seqNum, sent);
      if !ok {
        StopRetransmission();
      }
    }

    /** The slot's fields as CWManageWTP resets them; type and number are left as they are. */
    method Start()
      modifies this
      ensures View() == Step(old(View()), Started)
    {
      isRetransmitting := false;
      retransmissionCount := 0;
    }

    /** _CWCloseThread */
    method Close()
      modifies this
      ensures View() == Step(old(View()), Closed)
    {
      StopRetransmission();
    }

    /** CWACParseGenericRunMessage; the second result is the length of the elements. */
    method ParseGenericRunMessage(msg: ProtocolMessage)
      returns (val: ControlHeaderValues, msgElemsLen: nat, ok: bool)
      requires msg.offset + CONTROL_HEADER_SIZE <= msg.msg.Length
      modifies msg`offset
      ensures msg.offset == old(msg.offset) + CONTROL_HEADER_SIZE
      ensures val == ControlHeaderAt(msg.msg[..], old(msg.offset))
      ensures msgElemsLen == ElementsLen(val)
      ensures ok == Passes(View(), val.messageTypeValue, val.seqNum)
    {
      val := ParseControlHeader(msg);
      msgElemsLen := (val.msgElemsLen - CONTROL_HEADER_OFFSET_FOR_MSG_ELEMS) % 0x1_0000;
      if val.messageTypeValue % 2 == 1 {
        return val, msgElemsLen, true;
      }
      if responseSeqNum != val.seqNum || responseType != val.messageTypeValue {
        return val, msgElemsLen, false;
      }
      ok := true;
    }

    /** The control-message part of ACEnterRun, as far as it concerns responses. */
    method EnterRun(msg: ProtocolMessage) returns (reaction: Reaction)
      modifies this, msg`offset
      ensures |msg.msg[..]| < CONTROL_HEADER_SIZE ==> reaction == Overread && View() == old(View())
      ensures |msg.msg[..]| >= CONTROL_HEADER_SIZE ==>
        var e := ReceivedAs(msg.msg[..]);
        && reaction == React(old(View()), e.msgType, e.seqNum, e.elements)
        && View() == Step(old(View()), e)
    {
      hide ReadElements, ControlHeaderAt;
      msg.offset := 0;
      if msg.msg.Length < CONTROL_HEADER_SIZE {
        return Overread;
      }
      var val, msgElemsLen, ok := ParseGenericRunMessage(msg);
      if !ok {
        return Refused;
      }
      if IsResponse(val.messageTypeValue) {
        var elements := ParseResponse(msg, val.messageTypeValue, msgElemsLen);
        if !elements.Read? {
          return if elements == Malformed then BadElements else Overread;
        }
        StopRetransmission();
        return Processed;
      }
      reaction := if val.messageTypeValue % 2 == 1 then AsRequest else Unexpected;
    }
  }

  /** The event a control message is for the slot. */
  function ReceivedAs(s: seq<byte>): (e: Event)
    requires |s| >= CONTROL_HEADER_SIZE
    ensures e.Received?
  {
    var h := ControlHeaderAt(s, 0);
    Received(h.messageTypeValue, h.seqNum,
             ReadElements(h.messageTypeValue, s, CONTROL_HEADER_SIZE, ElementsEnd(h)))
  }

  // ---------- over every run ----------

  /** The fields after a run, from the zeroed table. */
  function After(run: seq<Event>): Outstanding {
    if run == [] then IDLE else Step(After(run[..|run| - 1]), run[|run| - 1])
  }

  /** A session holds the slot. */
  predicate Held(run: seq<Event>) {
    run != [] && match run[|run| - 1]
                 case Started => true
                 case Closed => false
                 case _ => Held(run[..|run| - 1])
  }

  /** Sessions follow one another in the slot; the AC asks only for responses it knows. */
  ghost predicate Legal(run: seq<Event>) {
    run != [] ==>
      var n := |run| - 1;
      && Legal(run[..n])
      && (run[n].Started? <==> !Held(run[..n]))
      && (run[n].Requested? ==> IsResponse(run[n].msgType))
  }

  /** Event e is a well-formed response to request r. */
  predicate Fits(r: Event, e: Event)
    requires r.Requested?
  {
    e.Received? && e.msgType == r.msgType && e.seqNum == r.seqNum && e.elements.Read?
  }

  /**
   * The k-th event is the latest request at time n and still unanswered: it
   * was sent, and since then no other request was made, the session was not
   * closed and no well-formed response with its type and number came in.
   */
  ghost predicate Unanswered(run: seq<Event>, k: nat, n: nat)
    requires n <= |run|
  {
    && k < n && run[k].Requested? && run[k].sent
    && forall j :: k < j < n ==> Leaves(run[k], run[j])
  }

  predicate Leaves(r: Event, e: Event)
    requires r.Requested?
  {
    e.Received? && !Fits(r, e)
  }

  /** The latest unanswered request, computed along the run. */
  function Waiting(run: seq<Event>): (w: Option<nat>)
    ensures w.Some? ==> w.value < |run| && run[w.value].Requested?
  {
    if run == [] then None
    else
      var n := |run| - 1;
      var w := Waiting(run[..n]);
      match run[n]
      case Started => None
      case Closed => None
      case Requested(_, _, sent) => if sent then Some(n) else None
      case Received(_, _, _) => if w.Some? && Fits(run[w.value], run[n]) then None else w
  }

  /** Waiting finds the unanswered request if there is one. */
  lemma {:induction false} WaitingExactly(run: seq<Event>, k: nat)
    ensures Waiting(run) == Some(k) <==> Unanswered(run, k, |run|)
  {
    if run != [] {
      var n := |run| - 1;
      WaitingExactly(run[..n], k);
      assert forall j :: 0 <= j < n ==> run[..n][j] == run[j];
      if k < n {
        UnansweredStep(run, k, n);
      }
    }
  }

  lemma UnansweredStep(run: seq<Event>, k: nat, n: nat)
    requires k < n < |run|
    ensures Unanswered(run, k, n + 1) <==> Unanswered(run, k, n) && Leaves(run[k], run[n])
    ensures Unanswered(run, k, n) <==> Unanswered(run[..n], k, n)
  {
    assert forall j :: 0 <= j < n ==> run[..n][j] == run[j];
  }

  /** The state a waiting request leaves in the slot. */
  function Expecting(run: seq<Event>): Outstanding {
    match Waiting(run)
    case None => IDLE
    case Some(k) => Outstanding(true, run[k].msgType, run[k].seqNum)
  }

  /**
   * The slot's fields say exactly which request is waiting, whoever used the
   * slot before: in particular, without isRetransmitting the expected type is
   * UNUSED_MSG_TYPE.
   */
  lemma {:induction false} FieldsTellTheRequest(run: seq<Event>)
    requires Legal(run)
    ensures After(run) == Expecting(run)
    ensures !Held(run) ==> Waiting(run) == None
    ensures Waiting(run).Some? ==> IsResponse(run[Waiting(run).value].msgType)
    ensures !After(run).isRetransmitting ==> After(run).responseType == UNUSED_MSG_TYPE
  {
    if run != [] {
      FieldsTellTheRequest(run[..|run| - 1]);
    }
  }

  /** What happens to the n-th event, a received message. */
  function ReactionAt(run: seq<Event>, n: nat): Reaction
    requires n < |run| && run[n].Received?
  {
    React(After(run[..n]), run[n].msgType, run[n].seqNum, run[n].elements)
  }

  lemma {:induction false} LegalPrefix(run: seq<Event>, n: nat)
    requires Legal(run) && n <= |run|
    ensures Legal(run[..n])
    decreases |run|
  {
    if n < |run| {
      LegalPrefix(run[..|run| - 1], n);
      assert run[..|run| - 1][..n] == run[..n];
    } else {
      assert run[..n] == run;
    }
  }

  ghost predicate Answers(run: seq<Event>, k: nat, n: nat)
    requires n < |run|
  {
    Unanswered(run, k, n) && Fits(run[k], run[n])
  }

  /**
   * A message is processed as a response exactly when it is a well-formed
   * response to the latest unanswered request of the session.
   */
  lemma ProcessedExactly(run: seq<Event>, n: nat)
    requires Legal(run) && n < |run| && run[n].Received?
    ensures ReactionAt(run, n) == Processed <==> exists k :: Answers(run, k, n)
  {
    LegalPrefix(run, n);
    FieldsTellTheRequest(run[..n]);
    var w := Waiting(run[..n]);
    if w.Some? {
      WaitingExactly(run[..n], w.value);
      UnansweredStep(run, w.value, n);
      if Fits(run[w.value], run[n]) {
        assert Answers(run, w.value, n);
      }
    }
    forall k: nat | Answers(run, k, n) ensures w == Some(k) {
      WaitingExactly(run[..n], k);
      UnansweredStep(run, k, n);
    }
  }

  /** The latest request made, sent or not. */
  function LatestRequest(run: seq<Event>): Option<nat> {
    if run == [] then None
    else if run[|run| - 1].Requested? then Some(|run| - 1)
    else LatestRequest(run[..|run| - 1])
  }

  /** What is unanswered is the latest request. */
  lemma {:induction false} UnansweredIsLatest(run: seq<Event>, k: nat, n: nat)
    requires n <= |run| && Unanswered(run, k, n)
    ensures LatestRequest(run[..n]) == Some(k)
  {
    assert run[..n][..n - 1] == run[..n - 1];
    if k < n - 1 {
      UnansweredStep(run, k, n - 1);
      UnansweredIsLatest(run, k, n - 1);
    }
  }

  /** Two messages processed as responses while the same request was the latest are the same message. */
  lemma AnsweredOnce(run: seq<Event>, m: nat, n: nat)
    requires Legal(run) && m < |run| && n < |run| && run[m].Received? && run[n].Received?
    requires ReactionAt(run, m) == Processed && ReactionAt(run, n) == Processed
    requires LatestRequest(run[..m]) == LatestRequest(run[..n])
    ensures m == n
  {
    ProcessedExactly(run, m);
    ProcessedExactly(run, n);
    var k: nat :| Answers(run, k, m);
    var l: nat :| Answers(run, l, n);
    UnansweredIsLatest(run, k, m);
    UnansweredIsLatest(run, l, n);
  }

  /**
   * A request that is waiting is answered by what the WTP sends back: the
   * bytes of a response with its type, its number and any result code.
   */
  lemma AnswerGetsThrough(run: seq<Event>, k: nat, resultCode: nat)
    requires Legal(run) && Unanswered(run, k, |run|) && run[k].seqNum < 0x100
    ensures var s := ControlBytes(run[k].msgType, run[k].seqNum, ElementBytes(RESULT_CODE, Bytes32(resultCode)));
      var e := ReceivedAs(s);
      && React(After(run), e.msgType, e.seqNum, e.elements) == Processed
      && Step(After(run), e) == IDLE
  {
    hide ReadElements, ControlHeaderAt, ControlBytes, ElementBytes, Bytes32;
    WaitingExactly(run, k);
    FieldsTellTheRequest(run);
    ResponseAccepted(run[k].msgType, run[k].seqNum, resultCode);
  }

  function SentCount(run: seq<Event>): nat {
    if run == [] then 0
    else
      var n := |run| - 1;
      SentCount(run[..n]) + if run[n].Requested? && run[n].sent then 1 else 0
  }

  function ProcessedCount(run: seq<Event>): nat {
    if run == [] then 0
    else
      var n := |run| - 1;
      ProcessedCount(run[..n])
      + if run[n].Received? && React(After(run[..n]), run[n].msgType, run[n].seqNum, run[n].elements) == Processed
        then 1 else 0
  }

  /** Processed responses never outnumber the requests sent, counting the one still awaited. */
  lemma {:induction false} NoMoreResponsesThanRequests(run: seq<Event>)
    requires Legal(run)
    ensures ProcessedCount(run) + (if Waiting(run).Some? then 1 else 0) <= SentCount(run)
  {
    if run != [] {
      NoMoreResponsesThanRequests(run[..|run| - 1]);
      FieldsTellTheRequest(run[..|run| - 1]);
    }
  }

  /** Message e has the type and number of request r. */
  predicate Numbered(r: Event, e: Event)
    requires r.Requested? && e.Received?
  {
    e.msgType == r.msgType && e.seqNum == r.seqNum
  }

  /** A request is unanswered at time n and event n has its type and number. */
  ghost predicate Expected(run: seq<Event>, n: nat)
    requires n < |run| && run[n].Received?
  {
    exists k: nat :: Unanswered(run, k, n) && Numbered(run[k], run[n])
  }

  /** Nothing is unanswered at time n, and event n has type 0 and number 0, what an idle slot holds. */
  ghost predicate Slips(run: seq<Event>, n: nat)
    requires n < |run| && run[n].Received?
  {
    (forall k: nat :: !Unanswered(run, k, n)) && run[n].msgType == UNUSED_MSG_TYPE && run[n].seqNum == 0
  }

  /**
   * What the AC does with a message in the Run state, over every run and
   * whatever is outstanding. A message of odd type is handled as a request. A
   * message with the type and number of the unanswered request is processed,
   * or dropped as malformed, or leads its parser out of the buffer, as its
   * elements are. Type 0 with number 0 slips through an idle slot. Any other
   * message is refused. Only a processed response changes the slot.
   */
  lemma ReactionExactly(run: seq<Event>, n: nat)
    requires Legal(run) && n < |run| && run[n].Received?
    ensures var (r, e) := (ReactionAt(run, n), run[n]);
      && (r == AsRequest <==> e.msgType % 2 == 1)
      && (r == Processed <==> Expected(run, n) && e.elements.Read?)
      && (r == BadElements <==> Expected(run, n) && e.elements == Malformed)
      && (r == Overread <==> Expected(run, n) && e.elements == Outside)
      && (r == Unexpected <==> Slips(run, n))
      && (r == Refused <==> e.msgType % 2 == 0 && !Expected(run, n) && !Slips(run, n))
    ensures After(run[..n + 1]) == if ReactionAt(run, n) == Processed then IDLE else After(run[..n])
  {
    hide Unanswered, Legal, Fits;
    LegalPrefix(run, n);
    FieldsTellTheRequest(run[..n]);
    assert run[..n + 1][..n] == run[..n];
    var w := Waiting(run[..n]);
    if w.Some? {
      WaitingExactly(run[..n], w.value);
      UnansweredStep(run, w.value, n);
    }
    forall k: nat | Unanswered(run, k, n) ensures w == Some(k) {
      UnansweredBefore(run, k, n);
      WaitingExactly(run[..n], k);
      UnansweredStep(run, k, n);
    }
  }

  lemma UnansweredBefore(run: seq<Event>, k: nat, n: nat)
    requires n <= |run| && Unanswered(run, k, n)
    ensures k < n
  {
  }

  /**
   * So at the bytes: a request of the WTP, a message of any odd type and any
   * number and body, is handled as one and leaves the slot as it is.
   */
  lemma RequestGetsThrough(run: seq<Event>, msgType: nat, seqNum: nat, body: seq<byte>)
    requires Legal(run) && msgType % 2 == 1 && msgType < 0x1_0000_0000 && seqNum < 0x100
    requires |body| + CONTROL_HEADER_OFFSET_FOR_MSG_ELEMS < 0x1_0000
    ensures var e := ReceivedAs(ControlBytes(msgType, seqNum, body));
      && e.msgType == msgType && e.seqNum == seqNum
      && React(After(run), e.msgType, e.seqNum, e.elements) == AsRequest
      && Step(After(run), e) == After(run)
  {
    hide ControlBytes, ControlHeaderAt, ReadElements;
    ControlHeaderRoundTrip(ControlBytes(msgType, seqNum, body), msgType, seqNum, body);
  }

  /**
   * With nothing outstanding, no response is processed; but the check is not
   * closed: an even type passes it exactly when it is 0 with number 0, and is
   * then answered like an unexpected request.
   */
  lemma IdleRefusesExactly(run: seq<Event>, msgType: nat, seqNum: nat, elements: Reading<()>)
    requires Legal(run) && msgType % 2 == 0 && forall k :: !Unanswered(run, k, |run|)
    ensures var r := React(After(run), msgType, seqNum, elements);
      r == if msgType == UNUSED_MSG_TYPE && seqNum == 0 then Unexpected else Refused
  {
    FieldsTellTheRequest(run);
    if Waiting(run).Some? {
      WaitingExactly(run, Waiting(run).value);
    }
  }
}
