/**
 * What the two-pass parsers accept and what their arrays hold, named by
 * element types and shapes: the configure response (WTPConfigureState.c,
 * WTPBinding.c), the change state event request (ACDataCheckState.c) and the
 * WTP event request (ACRunState.c), against what their senders put in them.
 */
module MessageContents {
  import opened Wire
  import opened Sender
  import opened ControlMessage
  import opened TwoPass

  // ---------- by type ----------

  /** The bodies of the elements of type t, in the order of the message. */
  function BodiesOf(t: nat, es: seq<Element>): seq<seq<byte>> {
    if es == [] then [] else (if es[0].elemType == t then [es[0].body] else []) + BodiesOf(t, es[1..])
  }

  /** The body of the last element of each of these types. */
  function LatestBodies(types: set<nat>, es: seq<Element>): map<nat, seq<byte>> {
    if es == [] then map[]
    else (if es[0].elemType in types then map[es[0].elemType := es[0].body] else map[]) + LatestBodies(types, es[1..])
  }

  /** The elements of an event request that are kept once. */
  const EVENT_SINGLES: set<nat> :=
    {DECRYPT_ER_REPORT, DUPLICATE_IPV4_ADDRESS, DUPLICATE_IPV6_ADDRESS, WTP_REBOOT_STATISTICS}

  /** The elements of a configure response that are kept once. */
  const CONFIGURE_SINGLES: set<nat> := {AC_IPV4_LIST, AC_IPV6_LIST, CW_TIMERS, IDLE_TIMEOUT, WTP_FALLBACK}

  /** The shape of the body an element of its type has. */
  predicate Shaped(e: Element) {
    var b := e.body;
    if e.elemType == AC_IPV4_LIST then b != [] && |b| % 4 == 0
    else if e.elemType == AC_IPV6_LIST then b != [] && |b| % 16 == 0
    else if e.elemType == CW_TIMERS then |b| == 2
    else if e.elemType == DECRYPT_ER_REPORT then |b| >= 3 && |b| == 3 + 6 * b[1] as int
    else if e.elemType == DECRYPT_ER_REPORT_PERIOD then |b| == 3
    else if e.elemType == DUPLICATE_IPV4_ADDRESS then |b| >= 6 && |b| == 6 + b[5] as int
    else if e.elemType == DUPLICATE_IPV6_ADDRESS then |b| >= 18 && |b| == 18 + b[17] as int
    else if e.elemType == IDLE_TIMEOUT then |b| == 4
    else if e.elemType == RADIO_OPERAT_STATE then |b| == 3
    else if e.elemType == RESULT_CODE then |b| == 4
    else if e.elemType == WTP_FALLBACK then |b| == 1
    else if e.elemType == WTP_OPERAT_STATISTICS then |b| == 4
    else if e.elemType == WTP_RADIO_STATISTICS then |b| == 20
    else if e.elemType == WTP_REBOOT_STATISTICS then |b| == 15
    else if e.elemType == WTP_QOS then |b| == 34
    else false
  }

  predicate InChangeState(e: Element) {
    e.elemType in {RADIO_OPERAT_STATE, RESULT_CODE} && Shaped(e)
  }

  predicate InEventRequest(e: Element) {
    && e.elemType in {
         DECRYPT_ER_REPORT, DUPLICATE_IPV4_ADDRESS, DUPLICATE_IPV6_ADDRESS, WTP_OPERAT_STATISTICS,
         WTP_RADIO_STATISTICS, WTP_REBOOT_STATISTICS}
    && Shaped(e)
  }

  predicate InConfigureResponse(e: Element) {
    && e.elemType in {
         AC_IPV4_LIST, AC_IPV6_LIST, CW_TIMERS, RADIO_OPERAT_STATE, DECRYPT_ER_REPORT_PERIOD, IDLE_TIMEOUT,
         WTP_FALLBACK, WTP_QOS}
    && Shaped(e)
  }

  /** What a parser accepts are the elements of its message, rightly shaped. */
  lemma InChangeStateExactly(e: Element)
    ensures Acceptable(ChangeState, e) <==> InChangeState(e)
  {
  }

  lemma InEventRequestExactly(e: Element)
    ensures Acceptable(EventRequest, e) <==> InEventRequest(e)
  {
  }

  lemma InConfigureExactly(e: Element)
    ensures Acceptable(ConfigureCore, e) && Acceptable(ConfigureBinding, e) <==> InConfigureResponse(e)
  {
    hide WellFormed, Shaped;
    if e.elemType in {
      AC_IPV4_LIST, AC_IPV6_LIST, CW_TIMERS, RADIO_OPERAT_STATE, DECRYPT_ER_REPORT_PERIOD, IDLE_TIMEOUT, WTP_FALLBACK,
      WTP_QOS}
    {
      ConfigureShaped(e);
    }
  }

  lemma ConfigureShaped(e: Element)
    requires e.elemType in {
      AC_IPV4_LIST, AC_IPV6_LIST, CW_TIMERS, RADIO_OPERAT_STATE, DECRYPT_ER_REPORT_PERIOD, IDLE_TIMEOUT, WTP_FALLBACK,
      WTP_QOS}
    ensures WellFormed(e) <==> Shaped(e)
  {
    assert HeadSize(e.elemType) == 0;
  }

  /** The arrays are those of the elements of one type each. */
  lemma EntriesByType(es: seq<Element>)
    ensures Entries(ChangeState, 0, es) == BodiesOf(RADIO_OPERAT_STATE, es)
    ensures Entries(ChangeState, 1, es) == []
    ensures Entries(EventRequest, 0, es) == BodiesOf(WTP_OPERAT_STATISTICS, es)
    ensures Entries(EventRequest, 1, es) == BodiesOf(WTP_RADIO_STATISTICS, es)
    ensures Entries(ConfigureCore, 0, es) == BodiesOf(RADIO_OPERAT_STATE, es)
    ensures Entries(ConfigureCore, 1, es) == BodiesOf(DECRYPT_ER_REPORT_PERIOD, es)
    ensures Entries(ConfigureBinding, 0, es) == BodiesOf(WTP_QOS, es)
  {
    hide Entries, BodiesOf;
    EntriesOfType(ChangeState, 0, RADIO_OPERAT_STATE, es);
    NoEntries(ChangeState, 1, es);
    EntriesOfType(EventRequest, 0, WTP_OPERAT_STATISTICS, es);
    EntriesOfType(EventRequest, 1, WTP_RADIO_STATISTICS, es);
    EntriesOfType(ConfigureCore, 0, RADIO_OPERAT_STATE, es);
    EntriesOfType(ConfigureCore, 1, DECRYPT_ER_REPORT_PERIOD, es);
    EntriesOfType(ConfigureBinding, 0, WTP_QOS, es);
  }

  /** The elements read directly are those of these types. */
  lemma DirectsByType(es: seq<Element>)
    ensures Directs(ChangeState, es) == LatestBodies({RESULT_CODE}, es)
    ensures Directs(EventRequest, es) == LatestBodies(EVENT_SINGLES, es)
    ensures Directs(ConfigureCore, es) == LatestBodies(CONFIGURE_SINGLES, es)
  {
    hide Directs, LatestBodies;
    DirectsOfTypes(ChangeState, {RESULT_CODE}, es);
    DirectsOfTypes(EventRequest, EVENT_SINGLES, es);
    DirectsOfTypes(ConfigureCore, CONFIGURE_SINGLES, es);
  }

  lemma {:induction false} DirectsOfTypes(p: Parser, types: set<nat>, es: seq<Element>)
    requires forall u: nat :: Treat(p, u) == Direct <==> u in types
    ensures Directs(p, es) == LatestBodies(types, es)
  {
    hide Treat;
    if es != [] {
      DirectsOfTypes(p, types, es[1..]);
    }
  }

  /** A slot that counts one type only. */
  lemma {:induction false} EntriesOfType(p: Parser, slot: nat, t: nat, es: seq<Element>)
    requires forall u: nat :: Treat(p, u) == Counted(slot) <==> u == t
    ensures Entries(p, slot, es) == BodiesOf(t, es)
  {
    hide Treat;
    if es != [] {
      EntriesOfType(p, slot, t, es[1..]);
    }
  }

  lemma {:induction false} NoEntries(p: Parser, slot: nat, es: seq<Element>)
    requires forall u: nat :: Treat(p, u) != Counted(slot)
    ensures Entries(p, slot, es) == []
  {
    hide Treat;
    if es != [] {
      NoEntries(p, slot, es[1..]);
    }
  }

  // ---------- exactly what is accepted ----------

  /** The control header, if the bytes hold one. */
  predicate Headed(s: seq<byte>, msgType: nat) {
    |s| >= CONTROL_HEADER_SIZE && ControlHeaderAt(s, 0).messageTypeValue == msgType
  }

  /** The elements the length field announces end with the buffer. */
  predicate EndsWithBuffer(s: seq<byte>)
    requires |s| >= CONTROL_HEADER_SIZE
  {
    ScanEnd(s, CONTROL_HEADER_SIZE, ElementsEnd(ControlHeaderAt(s, 0))) == Some(|s|)
  }

  /** The elements of a message. */
  function MessageElements(s: seq<byte>): seq<Element>
    requires |s| >= CONTROL_HEADER_SIZE
  {
    Elements(s, CONTROL_HEADER_SIZE, ElementsEnd(ControlHeaderAt(s, 0)))
  }

  lemma AllExactly(es: seq<Element>)
    ensures AllAcceptable(ChangeState, es) <==> forall e :: e in es ==> InChangeState(e)
    ensures AllAcceptable(EventRequest, es) <==> forall e :: e in es ==> InEventRequest(e)
    ensures AllAcceptable(ConfigureCore, es) && AllAcceptable(ConfigureBinding, es)
      <==> forall e :: e in es ==> InConfigureResponse(e)
  {
    hide Acceptable, InChangeState, InEventRequest, InConfigureResponse;
    forall e
      ensures Acceptable(ChangeState, e) <==> InChangeState(e)
      ensures Acceptable(EventRequest, e) <==> InEventRequest(e)
      ensures Acceptable(ConfigureCore, e) && Acceptable(ConfigureBinding, e) <==> InConfigureResponse(e)
    {
      InChangeStateExactly(e);
      InEventRequestExactly(e);
      InConfigureExactly(e);
    }
  }

  /**
   * A change state event request is accepted exactly if it is one by its type,
   * its elements end where it ends, and each is a radio state or a result code
   * of the right size; and then the array holds the radio states, in order, and
   * the last result code is kept.
   */
  lemma ChangeStateExactly(s: seq<byte>)
    ensures ChangeStateEventRequest(s).Read?
      <==> Headed(s, CHANGE_STATE_EVENT_REQUEST) && EndsWithBuffer(s)
           && forall e :: e in MessageElements(s) ==> InChangeState(e)
    ensures |s| >= CONTROL_HEADER_SIZE && !Headed(s, CHANGE_STATE_EVENT_REQUEST) ==>
      ChangeStateEventRequest(s) == Malformed
    ensures ChangeStateEventRequest(s).Read? ==>
      ChangeStateEventRequest(s).value
      == Collected(
           BodiesOf(RADIO_OPERAT_STATE, MessageElements(s)), [], LatestBodies({RESULT_CODE}, MessageElements(s)))
  {
    hide Walk, Scan, ScanEnd, Elements, Entries, BodiesOf, Directs, LatestBodies, AllAcceptable, InChangeState,
      ControlHeaderAt;
    if Headed(s, CHANGE_STATE_EVENT_REQUEST) {
      var end := ElementsEnd(ControlHeaderAt(s, 0));
      AcceptedExactly(ChangeState, s, CONTROL_HEADER_SIZE, end, |s|);
      AllExactly(Elements(s, CONTROL_HEADER_SIZE, end));
      EntriesByType(Elements(s, CONTROL_HEADER_SIZE, end));
      DirectsByType(Elements(s, CONTROL_HEADER_SIZE, end));
    }
  }

  /** The same for the elements of a WTP event request, which must end where the header says. */
  lemma EventRequestExactly(s: seq<byte>, at: nat, end: nat)
    requires end <= |s|
    ensures var (r, es) := (Parsed(EventRequest, s, at, end, end), Elements(s, at, end));
      && (r.Read? <==> ScanEnd(s, at, end) == Some(end) && forall e :: e in es ==> InEventRequest(e))
      && (r.Read? ==>
            r.value == Collected(
                         BodiesOf(WTP_OPERAT_STATISTICS, es), BodiesOf(WTP_RADIO_STATISTICS, es),
                         LatestBodies(EVENT_SINGLES, es)))
  {
    hide Walk, Scan, ScanEnd, Elements, Entries, BodiesOf, Directs, LatestBodies, AllAcceptable, InEventRequest;
    AcceptedExactly(EventRequest, s, at, end, end);
    AllExactly(Elements(s, at, end));
    EntriesByType(Elements(s, at, end));
    DirectsByType(Elements(s, at, end));
  }

  /** What an accepted configure response yields. */
  function ConfigureValuesOf(es: seq<Element>): ConfigureValues {
    ConfigureValues(
      BodiesOf(RADIO_OPERAT_STATE, es), BodiesOf(DECRYPT_ER_REPORT_PERIOD, es), LatestBodies(CONFIGURE_SINGLES, es),
      if BodiesOf(WTP_QOS, es) == [] then None else Some(BodiesOf(WTP_QOS, es)))
  }

  /**
   * A configure response is accepted exactly if it is one by its type, has the
   * number of the request, its elements end where it ends, and each is one of
   * the eight it may carry, of the right size; and then its arrays hold the
   * radio states, the decrypt error report periods and the QoS elements, in
   * order, the QoS array if there are any; and of each other type the last
   * element is kept.
   */
  lemma ConfigureExactly(s: seq<byte>, seqNum: nat)
    ensures ConfigureResponse(s, seqNum).Read?
      <==> Headed(s, CONFIGURE_RESPONSE) && ControlHeaderAt(s, 0).seqNum == seqNum && EndsWithBuffer(s)
           && forall e :: e in MessageElements(s) ==> InConfigureResponse(e)
    ensures |s| >= CONTROL_HEADER_SIZE && !(Headed(s, CONFIGURE_RESPONSE) && ControlHeaderAt(s, 0).seqNum == seqNum) ==>
      ConfigureResponse(s, seqNum) == Malformed
    ensures ConfigureResponse(s, seqNum).Read? ==>
      ConfigureResponse(s, seqNum).value == ConfigureValuesOf(MessageElements(s))
  {
    hide Walk, Scan, ScanEnd, Elements, Entries, BodiesOf, Directs, LatestBodies, AllAcceptable, InConfigureResponse,
      ControlHeaderAt, HasPassed;
    if Headed(s, CONFIGURE_RESPONSE) {
      var end := ElementsEnd(ControlHeaderAt(s, 0));
      var es := Elements(s, CONTROL_HEADER_SIZE, end);
      AcceptedExactly(ConfigureCore, s, CONTROL_HEADER_SIZE, end, |s|);
      if EndsWithBuffer(s) {
        SameElements(s, CONTROL_HEADER_SIZE, end, |s|);
      }
      AcceptedExactly(ConfigureBinding, s, CONTROL_HEADER_SIZE, |s|, |s|);
      AllExactly(es);
      EntriesByType(es);
      DirectsByType(es);
      if AllAcceptable(ConfigureCore, es) {
        QosFound(es);
      }
    }
  }

  /** A core parser that accepts has stepped over the elements meant for the binding. */
  lemma {:induction false} QosFound(es: seq<Element>)
    requires AllAcceptable(ConfigureCore, es)
    ensures !HasPassed(ConfigureCore, es) ==> AllAcceptable(ConfigureBinding, es) && BodiesOf(WTP_QOS, es) == []
    ensures HasPassed(ConfigureCore, es) && AllAcceptable(ConfigureBinding, es) ==> BodiesOf(WTP_QOS, es) != []
  {
    hide WellFormed;
    if es != [] {
      assert Acceptable(ConfigureCore, es[0]);
      QosFound(es[1..]);
    }
  }

  // ---------- what is sent ----------

  /** The bodies of a list of elements. */
  function AllBodies(es: seq<Element>): seq<seq<byte>> {
    seq(|es|, k requires 0 <= k < |es| => es[k].body)
  }

  lemma {:induction false} BodiesJoined(t: nat, es: seq<Element>, more: seq<Element>)
    ensures BodiesOf(t, es + more) == BodiesOf(t, es) + BodiesOf(t, more)
  {
    hide BodiesOf;
    if es == [] {
      NoBodies(t);
      assert es + more == more;
    } else {
      BodiesJoined(t, es[1..], more);
      BodiesStep(t, es[0], es[1..]);
      BodiesStep(t, es[0], es[1..] + more);
      assert es == [es[0]] + es[1..] && es + more == [es[0]] + (es[1..] + more);
      Regroup(if es[0].elemType == t then [es[0].body] else [], BodiesOf(t, es[1..]), BodiesOf(t, more));
    }
  }

  lemma NoBodies(t: nat)
    ensures BodiesOf(t, []) == []
  {
  }

  lemma BodiesStep(t: nat, e: Element, rest: seq<Element>)
    ensures BodiesOf(t, [e] + rest) == (if e.elemType == t then [e.body] else []) + BodiesOf(t, rest)
  {
    assert ([e] + rest)[1..] == rest;
  }

  lemma Regroup<T>(a: seq<T>, b: seq<T>, c: seq<T>)
    ensures a + (b + c) == (a + b) + c
  {
  }

  lemma {:induction false} BodiesOfOneType(t: nat, u: nat, es: seq<Element>)
    requires forall k :: 0 <= k < |es| ==> es[k].elemType == u
    ensures BodiesOf(t, es) == if t == u then AllBodies(es) else []
  {
    if es != [] {
      BodiesOfOneType(t, u, es[1..]);
    }
  }

  /** CWAssembleMsgElemDecryptErrorReportPeriod, for one radio. */
  datatype ErrorPeriod = ErrorPeriod(id: byte, interval: nat) {
    function Sent(): Element {
      Element(DECRYPT_ER_REPORT_PERIOD, [id] + Bytes16(interval))
    }
  }

  /** WTPQosValues */
  datatype AccessClass = AccessClass(queueDepth: byte, cwMin: nat, cwMax: nat, aifs: byte, dot1p: byte, dscp: byte) {
    function Bytes(): (b: seq<byte>)
      ensures |b| == 8
    {
      [queueDepth] + Bytes16(cwMin) + Bytes16(cwMax) + [aifs, dot1p, dscp]
    }
  }

  /** CWAssembleWTPQoS: the four profiles of a radio. */
  datatype Qos = Qos(
    id: byte, tagPackets: byte, voice: AccessClass, video: AccessClass, bestEffort: AccessClass,
    background: AccessClass)
  {
    function Sent(): Element {
      Element(WTP_QOS, [id, tagPackets] + voice.Bytes() + video.Bytes() + bestEffort.Bytes() + background.Bytes())
    }
  }

  function RadioElements(radios: seq<Radio>): seq<Element> {
    seq(|radios|, k requires 0 <= k < |radios| => radios[k].Sent())
  }

  function PeriodElements(periods: seq<ErrorPeriod>): seq<Element> {
    seq(|periods|, k requires 0 <= k < |periods| => periods[k].Sent())
  }

  function QosElements(qos: seq<Qos>): seq<Element> {
    seq(|qos|, k requires 0 <= k < |qos| => qos[k].Sent())
  }

  /** The addresses one after another. */
  function Addresses(parts: seq<seq<byte>>): seq<byte> {
    if parts == [] then [] else parts[0] + Addresses(parts[1..])
  }

  lemma {:induction false} AddressesSize(parts: seq<seq<byte>>, size: nat)
    requires forall k :: 0 <= k < |parts| ==> |parts[k]| == size
    ensures |Addresses(parts)| == size * |parts|
  {
    if parts != [] {
      AddressesSize(parts[1..], size);
    }
  }

  /**
   * What the AC puts into a configure response. The source sends the direct
   * elements and a period for each radio, and in the binding part QoS values
   * for each radio; the parser also knows radio states.
   */
  datatype Configuration = Configuration(
    acIPv4: seq<nat>, acIPv6: seq<seq<byte>>, discoveryTimer: byte, echoTimer: byte,
    radios: seq<Radio>, periods: seq<ErrorPeriod>, idleTimeout: nat, fallback: byte, qos: seq<Qos>)
  {
    /** IPv6 addresses have 16 bytes, and the lists fit the length field of an element. */
    ghost predicate Valid() {
      && (forall k :: 0 <= k < |acIPv6| ==> |acIPv6[k]| == 16)
      && 4 * |acIPv4| < 0x1_0000 && 16 * |acIPv6| < 0x1_0000
    }

    function IPv4List(): Element {
      Element(AC_IPV4_LIST, Addresses(seq(|acIPv4|, k requires 0 <= k < |acIPv4| => Bytes32(acIPv4[k]))))
    }

    function IPv6List(): Element {
      Element(AC_IPV6_LIST, Addresses(acIPv6))
    }

    function Before(): seq<Element> {
      [IPv4List(), IPv6List(), Element(CW_TIMERS, [discoveryTimer, echoTimer])]
    }

    function Behind(): seq<Element> {
      [Element(IDLE_TIMEOUT, Bytes32(idleTimeout)), Element(WTP_FALLBACK, [fallback])]
    }

    /** The core elements, in the order of CWAssembleConfigureResponse. */
    function Core(): seq<Element> {
      Before() + RadioElements(radios) + PeriodElements(periods) + Behind()
    }

    /** All elements: the core ones and those of CWBindingAssembleConfigureResponse. */
    function Sent(): seq<Element> {
      Core() + QosElements(qos)
    }

    /** What the WTP reads of it. */
    function Read(): ConfigureValues {
      ConfigureValues(
        AllBodies(RadioElements(radios)), AllBodies(PeriodElements(periods)),
        map[AC_IPV4_LIST := IPv4List().body, AC_IPV6_LIST := IPv6List().body,
            CW_TIMERS := [discoveryTimer, echoTimer], IDLE_TIMEOUT := Bytes32(idleTimeout),
            WTP_FALLBACK := [fallback]],
        if qos == [] then None else Some(AllBodies(QosElements(qos))))
    }
  }

  lemma ListsShaped(c: Configuration)
    requires c.Valid()
    ensures |c.IPv4List().body| == 4 * |c.acIPv4| && |c.IPv6List().body| == 16 * |c.acIPv6|
  {
    AddressesSize(seq(|c.acIPv4|, k requires 0 <= k < |c.acIPv4| => Bytes32(c.acIPv4[k])), 4);
    AddressesSize(c.acIPv6, 16);
  }

  /** Elements that fit their length fields and that a configure response may carry. */
  ghost predicate Carried(es: seq<Element>) {
    forall e :: e in es ==> e.Encodable() && InConfigureResponse(e)
  }

  lemma ListsCarried(c: Configuration)
    requires c.Valid()
    ensures c.IPv4List().Encodable() && c.IPv6List().Encodable()
    ensures InConfigureResponse(c.IPv4List()) <==> c.acIPv4 != []
    ensures InConfigureResponse(c.IPv6List()) <==> c.acIPv6 != []
  {
    hide Addresses;
    ListsShaped(c);
  }

  lemma PartsCarried(c: Configuration)
    ensures Carried([c.Before()[2]]) && Carried(c.Behind())
    ensures Carried(RadioElements(c.radios)) && Carried(PeriodElements(c.periods)) && Carried(QosElements(c.qos))
  {
    hide Addresses, Bytes16, Bytes32, AccessClass.Bytes;
  }

  lemma ConfigurationCarried(c: Configuration)
    requires c.Valid()
    ensures forall k :: 0 <= k < |c.Sent()| ==> c.Sent()[k].Encodable()
    ensures (forall e :: e in c.Sent() ==> InConfigureResponse(e)) <==> c.acIPv4 != [] && c.acIPv6 != []
  {
    hide InConfigureResponse, RadioElements, PeriodElements, QosElements, Element.Encodable, Configuration.IPv4List,
      Configuration.IPv6List, Configuration.Behind;
    ListsCarried(c);
    PartsCarried(c);
    var es := c.Sent();
    var timers := c.Before()[2];
    assert timers in [timers];
    forall e ensures e in es <==>
      e == c.IPv4List() || e == c.IPv6List() || e == timers || e in RadioElements(c.radios)
      || e in PeriodElements(c.periods) || e in c.Behind() || e in QosElements(c.qos)
    {
      InParts(e, c.Before(), RadioElements(c.radios), PeriodElements(c.periods), c.Behind(), QosElements(c.qos));
    }
    forall k | 0 <= k < |es| ensures es[k].Encodable() {
      assert es[k] in es;
    }
  }

  lemma InParts(
    e: Element, before: seq<Element>, radios: seq<Element>, periods: seq<Element>, behind: seq<Element>,
    qos: seq<Element>)
    ensures e in before + radios + periods + behind + qos
      <==> e in before || e in radios || e in periods || e in behind || e in qos
  {
  }

  lemma BodiesInParts(
    t: nat, before: seq<Element>, radios: seq<Element>, periods: seq<Element>, behind: seq<Element>,
    qos: seq<Element>)
    ensures BodiesOf(t, before + radios + periods + behind + qos)
         == BodiesOf(t, before) + BodiesOf(t, radios) + BodiesOf(t, periods) + BodiesOf(t, behind) + BodiesOf(t, qos)
  {
    hide BodiesOf;
    BodiesJoined(t, before + radios + periods + behind, qos);
    BodiesJoined(t, before + radios + periods, behind);
    BodiesJoined(t, before + radios, periods);
    BodiesJoined(t, before, radios);
  }

  /** The elements of one of the three arrays are those of one part. */
  lemma ConfigurationBodies(c: Configuration, t: nat)
    requires t in {RADIO_OPERAT_STATE, DECRYPT_ER_REPORT_PERIOD, WTP_QOS}
    ensures BodiesOf(t, c.Sent())
      == if t == RADIO_OPERAT_STATE then AllBodies(RadioElements(c.radios))
         else if t == DECRYPT_ER_REPORT_PERIOD then AllBodies(PeriodElements(c.periods))
         else AllBodies(QosElements(c.qos))
  {
    hide AllBodies, BodiesOf, Addresses;
    BodiesInParts(
      t, c.Before(), RadioElements(c.radios), PeriodElements(c.periods), c.Behind(), QosElements(c.qos));
    BodiesOfOneType(t, RADIO_OPERAT_STATE, RadioElements(c.radios));
    BodiesOfOneType(t, DECRYPT_ER_REPORT_PERIOD, PeriodElements(c.periods));
    BodiesOfOneType(t, WTP_QOS, QosElements(c.qos));
    NoneOfType(t, c.Before());
    NoneOfType(t, c.Behind());
  }

  lemma {:induction false} NoneOfType(t: nat, es: seq<Element>)
    requires forall k :: 0 <= k < |es| ==> es[k].elemType != t
    ensures BodiesOf(t, es) == []
  {
    if es != [] {
      NoneOfType(t, es[1..]);
    }
  }

  lemma LatestStep(types: set<nat>, e: Element, rest: seq<Element>)
    ensures LatestBodies(types, [e] + rest)
         == (if e.elemType in types then map[e.elemType := e.body] else map[]) + LatestBodies(types, rest)
    ensures LatestBodies(types, []) == map[]
  {
    assert ([e] + rest)[1..] == rest;
  }

  lemma {:induction false} LatestJoined(types: set<nat>, es: seq<Element>, more: seq<Element>)
    ensures LatestBodies(types, es + more) == LatestBodies(types, es) + LatestBodies(types, more)
  {
    hide LatestBodies;
    if es == [] {
      LatestStep(types, Element(0, []), []);
      assert es + more == more;
    } else {
      var e, rest := es[0], es[1..];
      LatestJoined(types, rest, more);
      LatestStep(types, e, rest);
      LatestStep(types, e, rest + more);
      assert es == [e] + rest && es + more == [e] + (rest + more);
      MergeThree(
        if e.elemType in types then map[e.elemType := e.body] else map[], LatestBodies(types, rest),
        LatestBodies(types, more));
    }
  }

  lemma MergeThree(a: map<nat, seq<byte>>, b: map<nat, seq<byte>>, c: map<nat, seq<byte>>)
    ensures a + (b + c) == (a + b) + c
  {
  }

  lemma {:induction false} NoLatest(types: set<nat>, es: seq<Element>)
    requires forall k :: 0 <= k < |es| ==> es[k].elemType !in types
    ensures LatestBodies(types, es) == map[]
  {
    if es != [] {
      NoLatest(types, es[1..]);
    }
  }

  lemma LatestBefore(c: Configuration)
    ensures LatestBodies(CONFIGURE_SINGLES, c.Before())
         == map[AC_IPV4_LIST := c.IPv4List().body, AC_IPV6_LIST := c.IPv6List().body,
                CW_TIMERS := [c.discoveryTimer, c.echoTimer]]
  {
    hide Addresses, LatestBodies;
    var es := c.Before();
    LatestStep(CONFIGURE_SINGLES, es[2], []);
    LatestStep(CONFIGURE_SINGLES, es[1], [es[2]]);
    LatestStep(CONFIGURE_SINGLES, es[0], [es[1], es[2]]);
    assert [es[2]] + [] == [es[2]] && [es[1]] + [es[2]] == [es[1], es[2]] && [es[0]] + [es[1], es[2]] == es;
  }

  lemma LatestBehind(c: Configuration)
    ensures LatestBodies(CONFIGURE_SINGLES, c.Behind())
         == map[IDLE_TIMEOUT := Bytes32(c.idleTimeout), WTP_FALLBACK := [c.fallback]]
  {
    hide Bytes32, LatestBodies;
    var es := c.Behind();
    LatestStep(CONFIGURE_SINGLES, es[1], []);
    LatestStep(CONFIGURE_SINGLES, es[0], [es[1]]);
    assert [es[1]] + [] == [es[1]] && [es[0]] + [es[1]] == es;
  }

  lemma LatestInParts(
    types: set<nat>, before: seq<Element>, radios: seq<Element>, periods: seq<Element>, behind: seq<Element>,
    qos: seq<Element>)
    requires LatestBodies(types, radios) == LatestBodies(types, periods) == LatestBodies(types, qos) == map[]
    ensures LatestBodies(types, before + radios + periods + behind + qos)
         == LatestBodies(types, before) + LatestBodies(types, behind)
  {
    hide LatestBodies;
    LatestJoined(types, before + radios + periods + behind, qos);
    LatestJoined(types, before + radios + periods, behind);
    LatestJoined(types, before + radios, periods);
    LatestJoined(types, before, radios);
  }

  lemma ConfigurationLatest(c: Configuration)
    ensures LatestBodies(CONFIGURE_SINGLES, c.Sent()) == c.Read().direct
  {
    hide LatestBodies, Configuration.IPv4List, Configuration.IPv6List, Configuration.Before, Configuration.Behind,
      RadioElements, PeriodElements, QosElements, AllBodies, Bytes32;
    ArraysNotKept(c);
    LatestInParts(
      CONFIGURE_SINGLES, c.Before(), RadioElements(c.radios), PeriodElements(c.periods), c.Behind(),
      QosElements(c.qos));
    LatestBefore(c);
    LatestBehind(c);
  }

  lemma ArraysNotKept(c: Configuration)
    ensures LatestBodies(CONFIGURE_SINGLES, RadioElements(c.radios)) == map[]
    ensures LatestBodies(CONFIGURE_SINGLES, PeriodElements(c.periods)) == map[]
    ensures LatestBodies(CONFIGURE_SINGLES, QosElements(c.qos)) == map[]
  {
    NoLatest(CONFIGURE_SINGLES, RadioElements(c.radios));
    NoLatest(CONFIGURE_SINGLES, PeriodElements(c.periods));
    NoLatest(CONFIGURE_SINGLES, QosElements(c.qos));
  }

  lemma ConfigurationRead(c: Configuration)
    ensures ConfigureValuesOf(c.Sent()) == c.Read()
  {
    hide BodiesOf, LatestBodies, RadioElements, PeriodElements, Configuration.Sent;
    ConfigurationLatest(c);
    ConfigurationBodies(c, RADIO_OPERAT_STATE);
    ConfigurationBodies(c, DECRYPT_ER_REPORT_PERIOD);
    ConfigurationBodies(c, WTP_QOS);
  }

  /**
   * The configure response round trip. A configuration the AC sends is
   * accepted exactly by a WTP that waits for its number, and if neither list
   * of AC addresses is empty; and the WTP reads exactly the radio states,
   * periods and QoS values it holds, in order, and every other value.
   */
  lemma ConfigureRoundTrip(c: Configuration, seqNum: nat, expected: nat)
    requires c.Valid() && seqNum < 0x100 && |Body(c.Sent())| + CONTROL_HEADER_OFFSET_FOR_MSG_ELEMS < 0x1_0000
    ensures var s := ControlBytes(CONFIGURE_RESPONSE, seqNum, Body(c.Sent()));
      && (ConfigureResponse(s, expected).Read? <==> expected == seqNum && c.acIPv4 != [] && c.acIPv6 != [])
      && (ConfigureResponse(s, expected).Read? ==> ConfigureResponse(s, expected).value == c.Read())
  {
    hide Body, Scan, ScanEnd, Decode, Within, ConfigureResponse, InConfigureResponse, ControlBytes, ControlHeaderAt,
      Configuration.Sent, Configuration.Read, ConfigureValuesOf;
    var es := c.Sent();
    var s := ControlBytes(CONFIGURE_RESPONSE, seqNum, Body(es));
    ConfigurationCarried(c);
    ConfigurationRead(c);
    ParseBack(CONFIGURE_RESPONSE, seqNum, es, s);
    WholeMessage(CONFIGURE_RESPONSE, seqNum, Body(es));
    ConfigureExactly(s, expected);
  }

  lemma WholeMessage(msgType: nat, seqNum: nat, body: seq<byte>)
    ensures |ControlBytes(msgType, seqNum, body)| == CONTROL_HEADER_SIZE + |body|
  {
  }

  // ---------- the WTP event request ----------

  /** What a WTP can put into an event request; addresses have 6 bytes each, and the counters 16 bits. */
  datatype Item =
    | DecryptErrors(radio: byte, entries: byte, addresses: seq<byte>)
    | DuplicateIPv4(ip: nat, status: byte, mac: seq<byte>)
    | DuplicateIPv6(ip6: seq<byte>, status: byte, mac: seq<byte>)
    | OperationalStatistics(radio: byte, level: byte, frames: nat)
    | RadioStatistics(radio: byte, failure: byte, counters: seq<nat>)
    | RebootStatistics(counters: seq<nat>, failure: byte)
  {
    ghost predicate Valid() {
      match this
      case DecryptErrors(_, entries, addresses) => |addresses| == 6 * entries as int
      case DuplicateIPv4(_, _, mac) => |mac| == 6
      case DuplicateIPv6(ip6, _, mac) => |ip6| == 16 && |mac| == 6
      case OperationalStatistics(_, _, _) => true
      case RadioStatistics(_, _, counters) => |counters| == 9
      case RebootStatistics(counters, _) => |counters| == 7
    }

    /** The CWAssembleMsgElem functions of WTPProtocol.c. */
    function Sent(): Element {
      match this
      case DecryptErrors(radio, entries, addresses) =>
        Element(DECRYPT_ER_REPORT, [radio, entries, 6 * entries as int % 0x100] + addresses)
      case DuplicateIPv4(ip, status, mac) => Element(DUPLICATE_IPV4_ADDRESS, Bytes32(ip) + [status, 6] + mac)
      case DuplicateIPv6(ip6, status, mac) => Element(DUPLICATE_IPV6_ADDRESS, ip6 + [status, 6] + mac)
      case OperationalStatistics(radio, level, frames) =>
        Element(WTP_OPERAT_STATISTICS, [radio, level] + Bytes16(frames))
      case RadioStatistics(radio, failure, counters) =>
        Element(WTP_RADIO_STATISTICS, [radio, failure] + Counters(counters))
      case RebootStatistics(counters, failure) => Element(WTP_REBOOT_STATISTICS, Counters(counters) + [failure])
    }
  }

  function Counters(counters: seq<nat>): (b: seq<byte>)
    ensures |b| == 2 * |counters|
  {
    if counters == [] then [] else Bytes16(counters[0]) + Counters(counters[1..])
  }

  function ItemElements(items: seq<Item>): seq<Element> {
    if items == [] then [] else [items[0].Sent()] + ItemElements(items[1..])
  }

  lemma ItemCarried(i: Item)
    requires i.Valid()
    ensures i.Sent().Encodable() && InEventRequest(i.Sent())
  {
    hide Counters, Bytes16, Bytes32;
  }

  lemma {:induction false} ItemsCarried(items: seq<Item>)
    requires forall k :: 0 <= k < |items| ==> items[k].Valid()
    ensures forall k :: 0 <= k < |ItemElements(items)| ==> ItemElements(items)[k].Encodable()
    ensures forall e :: e in ItemElements(items) ==> InEventRequest(e)
  {
    hide InEventRequest, Item.Valid, Item.Sent, Element.Encodable;
    if items != [] {
      ItemCarried(items[0]);
      ItemsCarried(items[1..]);
    }
  }

  /** The elements of one kind of statistics, in order. */
  function Statistics(items: seq<Item>, operational: bool): seq<seq<byte>> {
    if items == [] then []
    else
      (if (if operational then items[0].OperationalStatistics? else items[0].RadioStatistics?)
       then [items[0].Sent().body] else [])
      + Statistics(items[1..], operational)
  }

  lemma {:induction false} StatisticsByType(items: seq<Item>)
    ensures BodiesOf(WTP_OPERAT_STATISTICS, ItemElements(items)) == Statistics(items, true)
    ensures BodiesOf(WTP_RADIO_STATISTICS, ItemElements(items)) == Statistics(items, false)
  {
    if items != [] {
      StatisticsByType(items[1..]);
    }
  }

  /**
   * The WTP event request round trip. Whatever elements a WTP puts into it, in
   * whatever order, they are accepted, in a buffer of their size or a larger
   * one, and the arrays hold the operational and the radio statistics, in
   * order, and of each other kind the last is kept.
   */
  lemma EventRequestRoundTrip(items: seq<Item>, s: seq<byte>, at: nat)
    requires forall k :: 0 <= k < |items| ==> items[k].Valid()
    requires var b := Body(ItemElements(items)); at + |b| <= |s| && s[at..at + |b|] == b
    ensures var end := at + |Body(ItemElements(items))|;
      Parsed(EventRequest, s, at, end, end)
      == Read(Collected(
                Statistics(items, true), Statistics(items, false), LatestBodies(EVENT_SINGLES, ItemElements(items))))
  {
    hide Body, Scan, ScanEnd, Decode, Within, InEventRequest, ItemElements, Statistics, Walk, BodiesOf, LatestBodies;
    var es := ItemElements(items);
    ItemsCarried(items);
    StatisticsByType(items);
    ScanRecovers(s, at, es);
    EventRequestExactly(s, at, at + |Body(es)|);
  }
}
