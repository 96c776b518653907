/**
 * The parsers that go over the message elements twice: a first pass counts
 * the elements of some types and parses or refuses the others, an array is
 * allocated for each counted type, and a second pass fills it. The loops of
 * CWParseChangeStateEventRequestMessage (ACDataCheckState.c) and its twin in
 * the Run state, CWParseWTPEventRequestMessage (ACRunState.c),
 * CWParseConfigureResponseMessage (WTPConfigureState.c) and
 * CWBindingParseConfigureResponse (WTPBinding.c) differ only in how they
 * treat each type, which is a table here. An array entry is the body of its
 * element.
 */
module TwoPass {
  import opened Wire
  import opened ControlMessage
  import opened Sender

  const AC_IPV4_LIST := 2
  const AC_IPV6_LIST := 3
  const CW_TIMERS := 12
  const DECRYPT_ER_REPORT := 15
  const DECRYPT_ER_REPORT_PERIOD := 16
  const DUPLICATE_IPV4_ADDRESS := 21
  const DUPLICATE_IPV6_ADDRESS := 22
  const IDLE_TIMEOUT := 23
  const RADIO_OPERAT_STATE := 32
  const WTP_FALLBACK := 40
  const WTP_OPERAT_STATISTICS := 45
  const WTP_RADIO_STATISTICS := 46
  const WTP_REBOOT_STATISTICS := 47
  const BINDING_MIN_ELEM_TYPE := 1024
  const BINDING_MAX_ELEM_TYPE := 2047
  const WTP_QOS := 1045

  // ---------- how each parser treats each type ----------

  datatype Parser = ChangeState | EventRequest | ConfigureCore | ConfigureBinding

  /** Counted in the first pass and read in the second, read in the first, stepped over in both, or refused. */
  datatype Treatment = Counted(slot: nat) | Direct | Passed | Unknown

  /** CWBindingCheckType */
  predicate BindingCheckType(t: nat) {
    BINDING_MIN_ELEM_TYPE <= t <= BINDING_MAX_ELEM_TYPE
  }

  function Treat(p: Parser, t: nat): Treatment {
    match p
    case ChangeState =>
      if t == RADIO_OPERAT_STATE then Counted(0)
      else if t == RESULT_CODE then Direct
      else Unknown
    case EventRequest =>
      if t == WTP_OPERAT_STATISTICS then Counted(0)
      else if t == WTP_RADIO_STATISTICS then Counted(1)
      else if t in {DECRYPT_ER_REPORT, DUPLICATE_IPV4_ADDRESS, DUPLICATE_IPV6_ADDRESS, WTP_REBOOT_STATISTICS}
      then Direct
      else Unknown
    case ConfigureCore =>
      if BindingCheckType(t) then Passed
      else if t == RADIO_OPERAT_STATE then Counted(0)
      else if t == DECRYPT_ER_REPORT_PERIOD then Counted(1)
      else if t in {AC_IPV4_LIST, AC_IPV6_LIST, CW_TIMERS, IDLE_TIMEOUT, WTP_FALLBACK} then Direct
      else Unknown
    case ConfigureBinding =>
      if t == WTP_QOS then Counted(0)
      else if BindingCheckType(t) then Unknown
      else Passed
  }

  // ---------- the parsers of single elements ----------

  /** The lists refuse a length that is no multiple of an address. */
  predicate RightLength(t: nat, len: nat) {
    && (t == AC_IPV4_LIST ==> len != 0 && len % 4 == 0)
    && (t == AC_IPV6_LIST ==> len != 0 && len % 16 == 0)
  }

  /** The bytes of an element that are read before its size is known. */
  function HeadSize(t: nat): nat {
    if t == DECRYPT_ER_REPORT then 3
    else if t == DUPLICATE_IPV4_ADDRESS then 6
    else if t == DUPLICATE_IPV6_ADDRESS then 18
    else 0
  }

  /** How many bytes the parser of an element of this type reads from position `at`. */
  function Consumes(t: nat, len: nat, s: seq<byte>, at: nat): (n: nat)
    requires at + HeadSize(t) <= |s|
    ensures n >= HeadSize(t)
  {
    if t == AC_IPV4_LIST || t == AC_IPV6_LIST then len
    else if t == WTP_FALLBACK then 1
    else if t == CW_TIMERS then 2
    else if t == RADIO_OPERAT_STATE || t == DECRYPT_ER_REPORT_PERIOD then 3
    else if t == RESULT_CODE || t == IDLE_TIMEOUT || t == WTP_OPERAT_STATISTICS then 4
    else if t == WTP_REBOOT_STATISTICS then 15
    else if t == WTP_RADIO_STATISTICS then 20
    else if t == WTP_QOS then 34
    else if t == DECRYPT_ER_REPORT then 3 + 6 * s[at + 1] as int
    else if t == DUPLICATE_IPV4_ADDRESS then 6 + s[at + 5] as int
    else if t == DUPLICATE_IPV6_ADDRESS then 18 + s[at + 17] as int
    else 0
  }

  /** What the parser of element e makes of buffer s: the body, if it reads exactly its length. */
  function ReadElement(s: seq<byte>, e: Elem): (r: Reading<seq<byte>>)
    ensures r.Read? ==> e.Next() <= |s| && r.value == s[e.at..e.Next()]
  {
    if !RightLength(e.elemType, e.len) then Malformed
    else if e.at + HeadSize(e.elemType) > |s| then Outside
    else
      var size := Consumes(e.elemType, e.len, s, e.at);
      if e.at + size > |s| then Outside
      else if size != e.len then Malformed
      else Read(s[e.at..e.at + size])
  }

  /** An element as a value is well formed when its parser reads it to its end, exactly. */
  predicate WellFormed(e: Element) {
    ReadElement(e.body, Elem(e.elemType, 0, |e.body|)).Read?
  }

  /** Whether a parser accepts an element lying in the buffer depends on that element alone. */
  lemma ReadsItself(s: seq<byte>, e: Elem)
    requires e.Next() <= |s|
    ensures ReadElement(s, e).Read? <==> WellFormed(ElementOf(s, e))
  {
    var body := s[e.at..e.Next()];
    assert forall k :: 0 <= k < e.len ==> body[k] == s[e.at + k];
  }

  /**
   * The parser of one element, up to the names of the members it fills in.
   * The tests for the end of the buffer stand for reads the source does not guard.
   */
  method ParseElement(msg: ProtocolMessage, t: nat, len: nat) returns (r: Reading<seq<byte>>)
    modifies msg`offset
    ensures r == ReadElement(msg.msg[..], Elem(t, old(msg.offset), len))
    ensures r.Read? ==> msg.offset == old(msg.offset) + len
    ensures r.Read? ==> r.value == ElementOf(msg.msg[..], Elem(t, old(msg.offset), len)).body
  {
    if !RightLength(t, len) {
      return Malformed;
    }
    if msg.offset + HeadSize(t) > msg.msg.Length {
      return Outside;
    }
    var size := Consumes(t, len, msg.msg[..], msg.offset);
    if msg.offset + size > msg.msg.Length {
      return Outside;
    }
    var body := msg.RetrieveRawBytes(size);
    r := if size == len then Read(body) else Malformed;
  }

  // ---------- what the passes compute ----------

  datatype Pass = First | Second

  /** What a pass makes of one element: the offset of the next one, or why it fails. */
  function Visit(p: Parser, pass: Pass, s: seq<byte>, e: Elem): Reading<nat> {
    match Treat(p, e.elemType)
    case Unknown => if pass == First then Malformed else Read(e.Next())
    case Passed => Read(e.Next())
    case Direct => if pass == First then Through(s, e) else Read(e.Next())
    case Counted(_) => if pass == First then Read(e.Next()) else Through(s, e)
  }

  function Through(s: seq<byte>, e: Elem): Reading<nat> {
    match ReadElement(s, e)
    case Read(_) => Read(e.Next())
    case Malformed => Malformed
    case Outside => Outside
  }

  /** What a pass makes of the elements up to `end`: the offset it stops at, or the first failure it meets. */
  function Walk(p: Parser, pass: Pass, s: seq<byte>, at: nat, end: nat): Reading<nat>
    decreases end - at
  {
    if at >= end then Read(at)
    else if at + ELEM_HEADER_SIZE > |s| then Outside
    else
      match Visit(p, pass, s, ElemAt(s, at))
      case Read(next) => if next > at then Walk(p, pass, s, next, end) else Outside
      case Malformed => Malformed
      case Outside => Outside
  }

  ghost predicate AllVisited(p: Parser, pass: Pass, s: seq<byte>, found: seq<Elem>) {
    forall k :: 0 <= k < |found| ==> Visit(p, pass, s, found[k]).Read?
  }

  /**
   * A pass succeeds exactly when the walk stays in the buffer and every
   * element on it is one the pass accepts; and then it stops where the walk
   * does, so both passes see the same elements.
   */
  lemma {:induction false} WalkExactly(p: Parser, pass: Pass, s: seq<byte>, at: nat, end: nat)
    ensures Walk(p, pass, s, at, end).Read?
       <==> ScanEnd(s, at, end).Some? && AllVisited(p, pass, s, Scan(s, at, end))
    ensures Walk(p, pass, s, at, end).Read? ==> ScanEnd(s, at, end) == Some(Walk(p, pass, s, at, end).value)
    decreases end - at
  {
    hide Visit;
    if at < end && at + ELEM_HEADER_SIZE <= |s| {
      var e := ElemAt(s, at);
      VisitGoesOn(p, pass, s, e);
      WalkExactly(p, pass, s, e.Next(), end);
      ScanStep(s, at, end);
      assert Scan(s, at, end)[0] == e && Scan(s, at, end)[1..] == Scan(s, e.Next(), end);
      AllSplit(p, pass, s, e, Scan(s, e.Next(), end));
    }
  }

  lemma AllSplit(p: Parser, pass: Pass, s: seq<byte>, e: Elem, rest: seq<Elem>)
    ensures AllVisited(p, pass, s, [e] + rest) <==> Visit(p, pass, s, e).Read? && AllVisited(p, pass, s, rest)
  {
    hide Visit;
    var all := [e] + rest;
    if AllVisited(p, pass, s, all) {
      assert Visit(p, pass, s, all[0]).Read?;
      forall k | 0 <= k < |rest| ensures Visit(p, pass, s, rest[k]).Read? {
        assert all[k + 1] == rest[k];
      }
    }
  }

  lemma VisitGoesOn(p: Parser, pass: Pass, s: seq<byte>, e: Elem)
    ensures Visit(p, pass, s, e).Read? ==> Visit(p, pass, s, e).value == e.Next()
  {
  }

  /** The elements a pass goes over, as values. */
  function Elements(s: seq<byte>, at: nat, end: nat): seq<Element> {
    Decode(s, Scan(s, at, end))
  }

  /** Walking one element on: the offset moves by at least an element header. */
  lemma ElementsStep(s: seq<byte>, at: nat, end: nat)
    requires at < end && at + ELEM_HEADER_SIZE <= |s|
    ensures var e := ElemAt(s, at);
      && e.Next() >= at + ELEM_HEADER_SIZE
      && Elements(s, at, end) == [ElementOf(s, e)] + Elements(s, e.Next(), end)
      && ScanEnd(s, at, end) == ScanEnd(s, e.Next(), end)
  {
    hide Decode, Scan, ScanEnd;
    ScanStep(s, at, end);
    DecodeStep(s, ElemAt(s, at), Scan(s, ElemAt(s, at).Next(), end));
  }

  lemma ElementsDone(s: seq<byte>, at: nat, end: nat)
    requires at >= end
    ensures Elements(s, at, end) == [] && ScanEnd(s, at, end) == Some(at)
  {
  }

  /** The bodies of the elements counted for one array, in the order of the message. */
  function Entries(p: Parser, slot: nat, es: seq<Element>): seq<seq<byte>> {
    if es == [] then []
    else (if Treat(p, es[0].elemType) == Counted(slot) then [es[0].body] else []) + Entries(p, slot, es[1..])
  }

  /** The bodies of the elements read directly, by type; a later element of a type replaces an earlier one. */
  function Directs(p: Parser, es: seq<Element>): map<nat, seq<byte>> {
    if es == [] then map[]
    else (if Treat(p, es[0].elemType) == Direct then map[es[0].elemType := es[0].body] else map[]) + Directs(p, es[1..])
  }

  predicate HasPassed(p: Parser, es: seq<Element>) {
    exists e :: e in es && Treat(p, e.elemType) == Passed
  }

  lemma Split(p: Parser, e: Element, es: seq<Element>)
    ensures HasPassed(p, [e] + es) <==> Treat(p, e.elemType) == Passed || HasPassed(p, es)
    ensures Entries(p, 0, [e] + es)
         == (if Treat(p, e.elemType) == Counted(0) then [e.body] else []) + Entries(p, 0, es)
    ensures Entries(p, 1, [e] + es)
         == (if Treat(p, e.elemType) == Counted(1) then [e.body] else []) + Entries(p, 1, es)
    ensures Directs(p, [e] + es)
         == (if Treat(p, e.elemType) == Direct then map[e.elemType := e.body] else map[]) + Directs(p, es)
  {
    hide Treat;
    var all := [e] + es;
    assert all[0] == e && all[1..] == es;
    assert forall x :: x in all <==> x == e || x in es;
  }

  lemma Nothing(p: Parser)
    ensures !HasPassed(p, []) && Entries(p, 0, []) == [] && Entries(p, 1, []) == [] && Directs(p, []) == map[]
  {
  }

  // ---------- the passes ----------

  /** CWParseFormatMsgElem at the head of a loop, with what it leaves to the rest of the loop. */
  method NextElement(msg: ProtocolMessage, p: Parser, pass: Pass, end: nat) returns (e: Elem)
    requires msg.offset < end && msg.offset + ELEM_HEADER_SIZE <= msg.msg.Length
    modifies msg`offset
    ensures msg.offset == old(msg.offset) + ELEM_HEADER_SIZE == e.at
    ensures var s := msg.msg[..];
      var es, rest := Elements(s, old(msg.offset), end), Elements(s, e.Next(), end);
      var body := ElementOf(s, e).body;
      && Walk(p, pass, s, old(msg.offset), end)
         == (match Visit(p, pass, s, e)
             case Read(_) => Walk(p, pass, s, e.Next(), end)
             case Malformed => Malformed
             case Outside => Outside)
      && HasPassed(p, es) == (Treat(p, e.elemType) == Passed || HasPassed(p, rest))
      && Entries(p, 0, es) == (if Treat(p, e.elemType) == Counted(0) then [body] else []) + Entries(p, 0, rest)
      && Entries(p, 1, es) == (if Treat(p, e.elemType) == Counted(1) then [body] else []) + Entries(p, 1, rest)
      && Directs(p, es)
         == (if Treat(p, e.elemType) == Direct then map[e.elemType := body] else map[]) + Directs(p, rest)
  {
    hide Elements, ScanEnd, Visit, HasPassed, Entries, Directs, Treat, ElemAt, Word16;
    ghost var s := msg.msg[..];
    ElementsStep(s, msg.offset, end);
    VisitGoesOn(p, pass, s, ElemAt(s, msg.offset));
    Split(p, ElementOf(s, ElemAt(s, msg.offset)), Elements(s, ElemAt(s, msg.offset).Next(), end));
    var t, len := ParseFormatMsgElem(msg);
    e := Elem(t, msg.offset, len);
  }

  /**
   * What the first loop has when it is done: its counts, the elements it read,
   * and whether it stepped over an element for another parser.
   */
  datatype Counts = Counts(count0: nat, count1: nat, direct: map<nat, seq<byte>>, passed: bool)

  /** The first loop. */
  method CountPass(msg: ProtocolMessage, p: Parser, end: nat) returns (r: Reading<Counts>)
    modifies msg`offset
    ensures var es := Elements(msg.msg[..], old(msg.offset), end);
      match Walk(p, First, msg.msg[..], old(msg.offset), end)
      case Read(stop) =>
        && msg.offset == stop
        && r == Read(Counts(|Entries(p, 0, es)|, |Entries(p, 1, es)|, Directs(p, es), HasPassed(p, es)))
      case Malformed => r == Malformed
      case Outside => r == Outside
  {
    hide Elements, HasPassed, Entries, Directs, ReadElement, Treat, Walk, ElementOf;
    ghost var s, at := msg.msg[..], msg.offset;
    ghost var es := Elements(s, at, end);
    var count0, count1, passed := 0, 0, false;
    var direct: map<nat, seq<byte>> := map[];
    while msg.offset < end
      invariant msg.msg[..] == s
      invariant Walk(p, First, s, at, end) == Walk(p, First, s, msg.offset, end)
      invariant var rest := Elements(s, msg.offset, end);
        && count0 + |Entries(p, 0, rest)| == |Entries(p, 0, es)|
        && count1 + |Entries(p, 1, rest)| == |Entries(p, 1, es)|
        && (passed || HasPassed(p, rest)) == HasPassed(p, es)
        && direct + Directs(p, rest) == Directs(p, es)
      decreases end - msg.offset
    {
      if msg.offset + ELEM_HEADER_SIZE > msg.msg.Length {
        WalkRunsOut(p, First, s, msg.offset, end);
        return Outside;
      }
      var e := NextElement(msg, p, First, end);
      ghost var rest := Directs(p, Elements(s, e.Next(), end));
      MergeNothing(direct, rest);
      match Treat(p, e.elemType) {
        case Unknown =>
          return Malformed;
        case Direct =>
          var body := ParseElement(msg, e.elemType, e.len);
          if !body.Read? {
            return if body == Malformed then Malformed else Outside;
          }
          MergeOne(direct, e.elemType, body.value, rest);
          direct := direct[e.elemType := body.value];
        case Counted(slot) =>
          if slot == 0 {
            count0 := count0 + 1;
          } else if slot == 1 {
            count1 := count1 + 1;
          }
          msg.offset := msg.offset + e.len;
        case Passed =>
          passed := true;
          msg.offset := msg.offset + e.len;
      }
    }
    ElementsDone(s, msg.offset, end);
    WalkDone(p, First, s, msg.offset, end);
    Nothing(p);
    MergeNothing(direct, map[]);
    r := Read(Counts(count0, count1, direct, passed));
  }

  lemma MergeOne(m: map<nat, seq<byte>>, t: nat, body: seq<byte>, rest: map<nat, seq<byte>>)
    ensures m[t := body] + rest == m + (map[t := body] + rest)
  {
  }

  lemma MergeNothing(m: map<nat, seq<byte>>, rest: map<nat, seq<byte>>)
    ensures m + (map[] + rest) == m + rest && m + map[] == m && map[] + rest == rest
  {
  }

  lemma WalkRunsOut(p: Parser, pass: Pass, s: seq<byte>, at: nat, end: nat)
    requires at < end && at + ELEM_HEADER_SIZE > |s|
    ensures Walk(p, pass, s, at, end) == Outside
  {
  }

  lemma WalkDone(p: Parser, pass: Pass, s: seq<byte>, at: nat, end: nat)
    requires at >= end
    ensures Walk(p, pass, s, at, end) == Read(at)
  {
  }

  /** Fills the next entry; `left` is what the pass will still add to it. */
  method PutAt(a: array<seq<byte>>, i: nat, body: seq<byte>, ghost left: seq<seq<byte>>, ghost all: seq<seq<byte>>)
    requires i <= a.Length == |all| && a[..i] + ([body] + left) == all
    modifies a
    ensures i < a.Length && a[..i + 1] + left == all
  {
    assert |a[..i]| + 1 + |left| == |all|;
    a[i] := body;
  }

  /** The second loop, over arrays allocated with the counts of the first. */
  method FillPass(msg: ProtocolMessage, p: Parser, end: nat, a0: array<seq<byte>>, a1: array<seq<byte>>)
    returns (r: Reading<nat>)
    requires a0 != a1
    requires a0.Length == |Entries(p, 0, Elements(msg.msg[..], msg.offset, end))|
    requires a1.Length == |Entries(p, 1, Elements(msg.msg[..], msg.offset, end))|
    modifies msg`offset, a0, a1
    ensures r == Walk(p, Second, msg.msg[..], old(msg.offset), end)
    ensures var es := Elements(msg.msg[..], old(msg.offset), end);
      r.Read? ==> a0[..] == Entries(p, 0, es) && a1[..] == Entries(p, 1, es)
  {
    hide Elements, HasPassed, Entries, Directs, ReadElement, Treat, Walk, ElementOf;
    ghost var s, at := msg.msg[..], msg.offset;
    ghost var es := Elements(s, at, end);
    ghost var all0, all1 := Entries(p, 0, es), Entries(p, 1, es);
    ghost var left0, left1 := all0, all1;
    var i, k := 0, 0;
    while msg.offset < end
      invariant msg.msg[..] == s && i <= a0.Length && k <= a1.Length
      invariant Walk(p, Second, s, at, end) == Walk(p, Second, s, msg.offset, end)
      invariant left0 == Entries(p, 0, Elements(s, msg.offset, end))
      invariant left1 == Entries(p, 1, Elements(s, msg.offset, end))
      invariant a0[..i] + left0 == all0 && a1[..k] + left1 == all1
      decreases end - msg.offset
    {
      if msg.offset + ELEM_HEADER_SIZE > msg.msg.Length {
        WalkRunsOut(p, Second, s, msg.offset, end);
        return Outside;
      }
      var e := NextElement(msg, p, Second, end);
      ghost var rest := Elements(s, e.Next(), end);
      left0, left1 := Entries(p, 0, rest), Entries(p, 1, rest);
      match Treat(p, e.elemType) {
        case Counted(slot) =>
          var body := ParseElement(msg, e.elemType, e.len);
          if !body.Read? {
            return if body == Malformed then Malformed else Outside;
          }
          if slot == 0 {
            PutAt(a0, i, body.value, left0, all0);
            i := i + 1;
          } else if slot == 1 {
            PutAt(a1, k, body.value, left1, all1);
            k := k + 1;
          }
        case _ =>
          msg.offset := msg.offset + e.len;
      }
    }
    ElementsDone(s, msg.offset, end);
    WalkDone(p, Second, s, msg.offset, end);
    Nothing(p);
    r := Read(msg.offset);
  }

  // ---------- both passes ----------

  /** What is parsed of a message: the two arrays, and the elements read directly. */
  datatype Collected = Collected(array0: seq<seq<byte>>, array1: seq<seq<byte>>, direct: map<nat, seq<byte>>)

  function CollectedOf(p: Parser, es: seq<Element>): Collected {
    Collected(Entries(p, 0, es), Entries(p, 1, es), Directs(p, es))
  }

  /** Both passes over the elements up to `end`, the first of which must stop at `stop` exactly. */
  ghost function Parsed(p: Parser, s: seq<byte>, at: nat, end: nat, stop: nat): Reading<Collected> {
    match Walk(p, First, s, at, end)
    case Malformed => Malformed
    case Outside => Outside
    case Read(reached) =>
      if reached != stop then Malformed
      else
        match Walk(p, Second, s, at, end)
        case Malformed => Malformed
        case Outside => Outside
        case Read(_) => Read(CollectedOf(p, Elements(s, at, end)))
  }

  /** The two loops, with the allocation between them. */
  method ParseElements(msg: ProtocolMessage, p: Parser, end: nat, stop: nat)
    returns (r: Reading<Collected>, passed: bool)
    modifies msg`offset
    ensures r == Parsed(p, msg.msg[..], old(msg.offset), end, stop)
    ensures r.Read? ==> passed == HasPassed(p, Elements(msg.msg[..], old(msg.offset), end))
  {
    hide Elements, ScanEnd, Walk, HasPassed, Entries, Directs;
    var offsetTillMessages := msg.offset;
    passed := false;
    var counted := CountPass(msg, p, end);
    if !counted.Read? {
      return if counted == Malformed then Malformed else Outside, false;
    }
    passed := counted.value.passed;
    if msg.offset != stop {
      return Malformed, passed;
    }
    var a0 := new seq<byte>[counted.value.count0](_ => []);
    var a1 := new seq<byte>[counted.value.count1](_ => []);
    msg.offset := offsetTillMessages;
    var filled := FillPass(msg, p, end, a0, a1);
    r := match filled
         case Read(_) => Read(Collected(a0[..], a1[..], counted.value.direct))
         case Malformed => Malformed
         case Outside => Outside;
  }

  /** An element parser p accepts: known, and well formed if p reads it in either pass. */
  predicate Acceptable(p: Parser, e: Element) {
    match Treat(p, e.elemType)
    case Unknown => false
    case Passed => true
    case _ => WellFormed(e)
  }

  ghost predicate AllAcceptable(p: Parser, es: seq<Element>) {
    forall e :: e in es ==> Acceptable(p, e)
  }

  /**
   * The two loops agree. For a message inside its buffer, parsing succeeds
   * exactly when the elements end where they must and each is known and well
   * formed; and then no element was visited, and nothing read, beyond the end.
   */
  lemma AcceptedExactly(p: Parser, s: seq<byte>, at: nat, end: nat, stop: nat)
    requires stop <= |s|
    ensures Parsed(p, s, at, end, stop).Read?
       <==> ScanEnd(s, at, end) == Some(stop) && AllAcceptable(p, Elements(s, at, end))
    ensures Parsed(p, s, at, end, stop).Read? ==> Within(Scan(s, at, end), at, stop)
  {
    hide Walk, Scan, ScanEnd, Entries, Visit, Acceptable;
    WalkExactly(p, First, s, at, end);
    WalkExactly(p, Second, s, at, end);
    if ScanEnd(s, at, end) == Some(stop) {
      VisitedWithin(s, at, end);
      VisitsAccept(p, s, Scan(s, at, end), at, stop);
    }
  }

  /** Inside the buffer, both passes go through a list of elements exactly when all are acceptable. */
  lemma {:induction false} VisitsAccept(p: Parser, s: seq<byte>, found: seq<Elem>, at: nat, stop: nat)
    requires stop <= |s| && Within(found, at, stop)
    ensures AllVisited(p, First, s, found) && AllVisited(p, Second, s, found) <==> AllAcceptable(p, Decode(s, found))
  {
    hide Visit, Acceptable;
    if found != [] {
      var e, rest := found[0], found[1..];
      assert found == [e] + rest;
      assert e.Next() <= stop;
      assert Within(rest, at, stop) by {
        assert forall k :: 0 <= k < |rest| ==> rest[k] == found[k + 1];
      }
      VisitsAccept(p, s, rest, at, stop);
      AllSplit(p, First, s, e, rest);
      AllSplit(p, Second, s, e, rest);
      DecodeStep(s, e, rest);
      VisitAccepts(p, s, e);
      AcceptableSplit(p, ElementOf(s, e), Decode(s, rest));
    }
  }

  lemma AcceptableSplit(p: Parser, e: Element, es: seq<Element>)
    ensures AllAcceptable(p, [e] + es) <==> Acceptable(p, e) && AllAcceptable(p, es)
  {
    hide Acceptable;
    assert forall x :: x in [e] + es <==> x == e || x in es;
  }

  lemma VisitAccepts(p: Parser, s: seq<byte>, e: Elem)
    requires e.Next() <= |s|
    ensures Visit(p, First, s, e).Read? && Visit(p, Second, s, e).Read? <==> Acceptable(p, ElementOf(s, e))
  {
    hide ReadElement, WellFormed;
    ReadsItself(s, e);
  }

  // ---------- the change state event request ----------

  const CHANGE_STATE_EVENT_REQUEST := 11

  /** CWParseChangeStateEventRequestMessage; seqNum is the sequence number of a message it reads. */
  method ParseChangeStateEventRequest(msg: ProtocolMessage) returns (r: Reading<Collected>, seqNum: nat)
    requires msg.offset == 0
    modifies msg`offset
    ensures r == ChangeStateEventRequest(msg.msg[..])
    ensures r.Read? ==> seqNum == ControlHeaderAt(msg.msg[..], 0).seqNum
  {
    hide Parsed;
    if msg.msg.Length < CONTROL_HEADER_SIZE {
      return Outside, 0;
    }
    var h := ParseControlHeader(msg);
    if h.messageTypeValue != CHANGE_STATE_EVENT_REQUEST {
      return Malformed, 0;
    }
    var passed;
    r, passed := ParseElements(msg, ChangeState, ElementsEnd(h), msg.msg.Length);
    seqNum := h.seqNum;
  }

  ghost function ChangeStateEventRequest(s: seq<byte>): Reading<Collected> {
    if |s| < CONTROL_HEADER_SIZE then Outside
    else
      var h := ControlHeaderAt(s, 0);
      if h.messageTypeValue != CHANGE_STATE_EVENT_REQUEST then Malformed
      else Parsed(ChangeState, s, CONTROL_HEADER_SIZE, ElementsEnd(h), |s|)
  }

  // ---------- the length field ----------

  /**
   * The length left for the elements is what the length field announces
   * exactly when the field is at least 3; below, the subtraction wraps and the
   * loops look for more than 65532 bytes of elements.
   */
  lemma LengthUnderflows(h: ControlHeaderValues)
    requires h.msgElemsLen < 0x1_0000
    ensures ElementsLen(h) + CONTROL_HEADER_OFFSET_FOR_MSG_ELEMS == h.msgElemsLen
       <==> h.msgElemsLen >= CONTROL_HEADER_OFFSET_FOR_MSG_ELEMS
    ensures h.msgElemsLen < CONTROL_HEADER_OFFSET_FOR_MSG_ELEMS ==> ElementsLen(h) == h.msgElemsLen + 0xFFFD
  {
  }

  /**
   * So no parser accepts such a message, unless it is longer than any elements
   * it could announce: not those that must stop at the end of the buffer, and
   * not their twins in the Run state, which must stop where the header says.
   */
  lemma UnderflowRefused(p: Parser, s: seq<byte>)
    requires CONTROL_HEADER_SIZE <= |s| < CONTROL_HEADER_SIZE + 0xFFFD
    requires ControlHeaderAt(s, 0).msgElemsLen < CONTROL_HEADER_OFFSET_FOR_MSG_ELEMS
    ensures var end := ElementsEnd(ControlHeaderAt(s, 0));
      && !Parsed(p, s, CONTROL_HEADER_SIZE, end, |s|).Read?
      && (p == ChangeState || p == EventRequest ==> !Parsed(p, s, CONTROL_HEADER_SIZE, end, end).Read?)
  {
    hide Walk, Elements, Entries;
    var end := ElementsEnd(ControlHeaderAt(s, 0));
    WalkExactly(p, First, s, CONTROL_HEADER_SIZE, end);
    if (p == ChangeState || p == EventRequest) && Parsed(p, s, CONTROL_HEADER_SIZE, end, end).Read? {
      WalksInside(p, s, CONTROL_HEADER_SIZE, end);
    }
  }

  /** Parsers that step over no element in both passes have read all they went over. */
  lemma {:induction false} WalksInside(p: Parser, s: seq<byte>, at: nat, end: nat)
    requires p == ChangeState || p == EventRequest
    requires at <= |s| && Walk(p, First, s, at, end).Read? && Walk(p, Second, s, at, end).Read?
    ensures Walk(p, First, s, at, end).value <= |s|
    decreases end - at
  {
    hide ReadElement, ElemAt;
    if at < end {
      VisitedInside(p, s, ElemAt(s, at));
      WalksInside(p, s, ElemAt(s, at).Next(), end);
    }
  }

  lemma VisitedInside(p: Parser, s: seq<byte>, e: Elem)
    requires p == ChangeState || p == EventRequest
    requires Visit(p, First, s, e).Read? && Visit(p, Second, s, e).Read?
    ensures e.Next() <= |s| && Visit(p, First, s, e).value == Visit(p, Second, s, e).value == e.Next()
  {
    hide ReadElement;
  }

  /** A message without elements is accepted exactly when its length field is 3; any other length leaves the buffer. */
  lemma BareMessageExactly(p: Parser, s: seq<byte>)
    requires |s| == CONTROL_HEADER_SIZE
    ensures var h := ControlHeaderAt(s, 0);
      var r := Parsed(p, s, CONTROL_HEADER_SIZE, ElementsEnd(h), |s|);
      && (r.Read? <==> h.msgElemsLen == CONTROL_HEADER_OFFSET_FOR_MSG_ELEMS)
      && (r.Read? ==> r.value == Collected([], [], map[]))
      && (!r.Read? ==> r == Outside)
  {
    var h := ControlHeaderAt(s, 0);
    LengthUnderflows(h);
    if h.msgElemsLen == CONTROL_HEADER_OFFSET_FOR_MSG_ELEMS {
      assert ElementsEnd(h) == |s|;
      ElementsDone(s, |s|, |s|);
      Nothing(p);
    } else {
      WalkRunsOut(p, First, s, |s|, ElementsEnd(h));
    }
  }

  /** Eight bytes that announce a length of 0: a change state event request whose parser leaves its buffer. */
  lemma UnderflowExample()
    ensures var s := ControlBytes(CHANGE_STATE_EVENT_REQUEST, 0, [])[5 := 0][6 := 0];
      |s| == CONTROL_HEADER_SIZE && ControlHeaderAt(s, 0).msgElemsLen == 0 && ChangeStateEventRequest(s) == Outside
  {
    hide Parsed, Word32, Bytes32;
    var b := ControlBytes(CHANGE_STATE_EVENT_REQUEST, 0, []);
    var s := b[5 := 0][6 := 0];
    assert s[0..4] == b[0..4] == Bytes32(IANA_TIMES_256 + CHANGE_STATE_EVENT_REQUEST);
    Word32OfBytes32(s, 0, IANA_TIMES_256 + CHANGE_STATE_EVENT_REQUEST);
    BareMessageExactly(ChangeState, s);
  }

  // ---------- the configure response and its two parsers ----------

  const CONFIGURE_RESPONSE := 6

  /** `direct` holds the other elements, by type; `qos` is None when no binding element was found. */
  datatype ConfigureValues = ConfigureValues(
    radios: seq<seq<byte>>, decryptErrorPeriods: seq<seq<byte>>, direct: map<nat, seq<byte>>,
    qos: Option<seq<seq<byte>>>)

  function ConfigureValuesFrom(core: Collected, qos: Option<seq<seq<byte>>>): ConfigureValues {
    ConfigureValues(core.array0, core.array1, core.direct, qos)
  }

  /** CWParseConfigureResponseMessage, with CWBindingParseConfigureResponse at its end. */
  method ParseConfigureResponse(msg: ProtocolMessage, seqNum: nat) returns (r: Reading<ConfigureValues>)
    requires msg.offset == 0
    modifies msg`offset
    ensures r == ConfigureResponse(msg.msg[..], seqNum)
  {
    hide Parsed, Elements, HasPassed;
    var len := msg.msg.Length;
    if len < CONTROL_HEADER_SIZE {
      return Outside;
    }
    var h := ParseControlHeader(msg);
    if h.messageTypeValue != CONFIGURE_RESPONSE {
      return Malformed;
    }
    if h.seqNum != seqNum {
      return Malformed;
    }
    var offsetTillMessages := msg.offset;
    var core, bindingMsgElemFound := ParseElements(msg, ConfigureCore, ElementsEnd(h), len);
    if !core.Read? {
      return if core == Malformed then Malformed else Outside;
    }
    if !bindingMsgElemFound {
      return Read(ConfigureValuesFrom(core.value, None));
    }
    msg.offset := offsetTillMessages;
    var binding, _ := ParseElements(msg, ConfigureBinding, len, len);
    r := match binding
         case Read(v) => Read(ConfigureValuesFrom(core.value, Some(v.array0)))
         case Malformed => Malformed
         case Outside => Outside;
  }

  ghost function ConfigureResponse(s: seq<byte>, seqNum: nat): Reading<ConfigureValues> {
    if |s| < CONTROL_HEADER_SIZE then Outside
    else
      var h := ControlHeaderAt(s, 0);
      if h.messageTypeValue != CONFIGURE_RESPONSE || h.seqNum != seqNum then Malformed
      else
        match Parsed(ConfigureCore, s, CONTROL_HEADER_SIZE, ElementsEnd(h), |s|)
        case Malformed => Malformed
        case Outside => Outside
        case Read(core) =>
          if !HasPassed(ConfigureCore, Elements(s, CONTROL_HEADER_SIZE, ElementsEnd(h)))
          then Read(ConfigureValuesFrom(core, None))
          else
            match Parsed(ConfigureBinding, s, CONTROL_HEADER_SIZE, |s|, |s|)
            case Malformed => Malformed
            case Outside => Outside
            case Read(binding) => Read(ConfigureValuesFrom(core, Some(binding.array0)))
  }

  /** Stopping at a boundary, a walk bounded by the stop sees the same elements as one bounded before it. */
  lemma {:induction false} SameElements(s: seq<byte>, at: nat, end: nat, stop: nat)
    requires end <= stop && ScanEnd(s, at, end) == Some(stop)
    ensures Elements(s, at, stop) == Elements(s, at, end) && ScanEnd(s, at, stop) == Some(stop)
    decreases end - at
  {
    hide Elements, ScanEnd;
    if at < end {
      if at + ELEM_HEADER_SIZE <= |s| {
        ElementsStep(s, at, end);
        ElementsStep(s, at, stop);
        SameElements(s, ElemAt(s, at).Next(), end, stop);
      } else {
        OutOfBuffer(s, at, end);
      }
    } else {
      ElementsDone(s, at, end);
      ElementsDone(s, at, stop);
    }
  }

  lemma OutOfBuffer(s: seq<byte>, at: nat, end: nat)
    requires at < end && at + ELEM_HEADER_SIZE > |s|
    ensures ScanEnd(s, at, end) == None
  {
  }

  /** The elements meant for the binding, or the others. */
  function Meant(binding: bool, es: seq<Element>): seq<Element> {
    if es == [] then []
    else (if BindingCheckType(es[0].elemType) == binding then [es[0]] else []) + Meant(binding, es[1..])
  }

  /**
   * Neither parser depends on the other's elements: what each accepts and
   * what it collects are the same with the other's elements taken out.
   */
  lemma {:induction false} PartsIndependent(es: seq<Element>)
    ensures AllAcceptable(ConfigureCore, es) <==> AllAcceptable(ConfigureCore, Meant(false, es))
    ensures AllAcceptable(ConfigureBinding, es) <==> AllAcceptable(ConfigureBinding, Meant(true, es))
    ensures Entries(ConfigureCore, 0, es) == Entries(ConfigureCore, 0, Meant(false, es))
    ensures Entries(ConfigureCore, 1, es) == Entries(ConfigureCore, 1, Meant(false, es))
    ensures Entries(ConfigureBinding, 0, es) == Entries(ConfigureBinding, 0, Meant(true, es))
    ensures Directs(ConfigureCore, es) == Directs(ConfigureCore, Meant(false, es))
    ensures |es| == |Meant(false, es)| + |Meant(true, es)|
  {
    hide AllAcceptable, Entries, Directs, HasPassed, WellFormed;
    if es != [] {
      var e, rest := es[0], es[1..];
      assert es == [e] + rest;
      PartsIndependent(rest);
      SplitFor(ConfigureCore, e, rest);
      SplitFor(ConfigureCore, e, Meant(false, rest));
      SplitFor(ConfigureBinding, e, rest);
      SplitFor(ConfigureBinding, e, Meant(true, rest));
      if BindingCheckType(e.elemType) {
        assert Meant(false, es) == Meant(false, rest) && Meant(true, es) == [e] + Meant(true, rest);
      } else {
        assert Meant(false, es) == [e] + Meant(false, rest) && Meant(true, es) == Meant(true, rest);
      }
    }
  }

  lemma SplitFor(p: Parser, e: Element, es: seq<Element>)
    ensures AllAcceptable(p, [e] + es) <==> Acceptable(p, e) && AllAcceptable(p, es)
    ensures Entries(p, 0, [e] + es)
         == (if Treat(p, e.elemType) == Counted(0) then [e.body] else []) + Entries(p, 0, es)
    ensures Entries(p, 1, [e] + es)
         == (if Treat(p, e.elemType) == Counted(1) then [e.body] else []) + Entries(p, 1, es)
    ensures Directs(p, [e] + es)
         == (if Treat(p, e.elemType) == Direct then map[e.elemType := e.body] else map[]) + Directs(p, es)
  {
    AcceptableSplit(p, e, es);
    Split(p, e, es);
  }

  function DirectCount(p: Parser, es: seq<Element>): nat {
    if es == [] then 0 else (if Treat(p, es[0].elemType) == Direct then 1 else 0) + DirectCount(p, es[1..])
  }

  /** Between them, the two parsers read every element exactly once. */
  lemma {:induction false} EveryElementOnce(es: seq<Element>)
    requires AllAcceptable(ConfigureCore, es) && AllAcceptable(ConfigureBinding, es)
    ensures |es| == |Entries(ConfigureCore, 0, es)| + |Entries(ConfigureCore, 1, es)| + DirectCount(ConfigureCore, es)
                    + |Entries(ConfigureBinding, 0, es)|
    ensures DirectCount(ConfigureBinding, es) == 0 && Entries(ConfigureBinding, 1, es) == []
  {
    hide WellFormed;
    if es != [] {
      EveryElementOnce(es[1..]);
      assert Acceptable(ConfigureCore, es[0]) && Acceptable(ConfigureBinding, es[0]);
    }
  }

  lemma {:induction false} NoBindingElements(es: seq<Element>)
    requires AllAcceptable(ConfigureCore, es) && !HasPassed(ConfigureCore, es)
    ensures AllAcceptable(ConfigureBinding, es) && Entries(ConfigureBinding, 0, es) == []
  {
    hide WellFormed;
    if es != [] {
      assert es[0] in es;
      NoBindingElements(es[1..]);
    }
  }

  /**
   * An accepted configure response: both parsers saw the same elements, and
   * each of them was read by exactly one parser.
   */
  lemma ConfigurePartition(s: seq<byte>, seqNum: nat)
    requires ConfigureResponse(s, seqNum).Read?
    ensures |s| >= CONTROL_HEADER_SIZE
    ensures var end := ElementsEnd(ControlHeaderAt(s, 0));
      var es := Elements(s, CONTROL_HEADER_SIZE, end);
      var v := ConfigureResponse(s, seqNum).value;
      && ScanEnd(s, CONTROL_HEADER_SIZE, end) == Some(|s|)
      && Elements(s, CONTROL_HEADER_SIZE, |s|) == es
      && (v.qos.Some? <==> exists e :: e in es && BindingCheckType(e.elemType))
      && |es| == |v.radios| + |v.decryptErrorPeriods| + DirectCount(ConfigureCore, es)
                 + (if v.qos.Some? then |v.qos.value| else 0)
  {
    hide Elements, Entries, ScanEnd, Walk, Acceptable;
    var end := ElementsEnd(ControlHeaderAt(s, 0));
    var es := Elements(s, CONTROL_HEADER_SIZE, end);
    AcceptedExactly(ConfigureCore, s, CONTROL_HEADER_SIZE, end, |s|);
    SameElements(s, CONTROL_HEADER_SIZE, end, |s|);
    AcceptedExactly(ConfigureBinding, s, CONTROL_HEADER_SIZE, |s|, |s|);
    if !HasPassed(ConfigureCore, es) {
      NoBindingElements(es);
    }
    EveryElementOnce(es);
  }

  // ---------- progress and the round trip ----------

  /** Each iteration reads an element header of its own, so a pass is bounded by the buffer it walks. */
  lemma {:induction false} PassBound(s: seq<byte>, at: nat, end: nat)
    ensures var n := |Scan(s, at, end)|;
      && (n > 0 ==> at + ELEM_HEADER_SIZE * n <= |s|)
      && (ScanEnd(s, at, end).Some? ==> at + ELEM_HEADER_SIZE * n <= ScanEnd(s, at, end).value)
    decreases end - at
  {
    hide Scan, ScanEnd;
    if at < end && at + ELEM_HEADER_SIZE <= |s| {
      ScanStep(s, at, end);
      PassBound(s, ElemAt(s, at).Next(), end);
    } else {
      NothingVisited(s, at, end);
    }
  }

  lemma NothingVisited(s: seq<byte>, at: nat, end: nat)
    requires at >= end || at + ELEM_HEADER_SIZE > |s|
    ensures Scan(s, at, end) == [] && ScanEnd(s, at, end) == if at >= end then Some(at) else None
  {
  }

  /**
   * Whatever known, well-formed elements are put into a message, the parser
   * accepts it and its arrays hold exactly their bodies, whatever lies behind
   * the message in its buffer, also nothing.
   */
  lemma ElementsRoundTrip(p: Parser, s: seq<byte>, at: nat, es: seq<Element>)
    requires forall k :: 0 <= k < |es| ==> es[k].Encodable()
    requires AllAcceptable(p, es)
    requires at + |Body(es)| <= |s| && s[at..at + |Body(es)|] == Body(es)
    ensures var end := at + |Body(es)|; Parsed(p, s, at, end, end) == Read(CollectedOf(p, es))
  {
    hide Decode, Scan, ScanEnd, AllAcceptable, Entries, Body, Walk;
    ScanRecovers(s, at, es);
    AcceptedExactly(p, s, at, at + |Body(es)|, at + |Body(es)|);
  }

  /** CWRadioOperationalInfoValues as it is sent; each member takes one byte. */
  datatype Radio = Radio(id: byte, state: byte, cause: byte) {
    function Sent(): Element {
      Element(RADIO_OPERAT_STATE, [id, state, cause])
    }
  }

  /** The elements of a change state event request. */
  function RequestElements(radios: seq<Radio>, resultCode: nat): seq<Element> {
    if radios == [] then [Element(RESULT_CODE, Bytes32(resultCode))]
    else [radios[0].Sent()] + RequestElements(radios[1..], resultCode)
  }

  function Bodies(radios: seq<Radio>): seq<seq<byte>> {
    if radios == [] then [] else [radios[0].Sent().body] + Bodies(radios[1..])
  }

  lemma {:induction false} RequestAccepted(radios: seq<Radio>, resultCode: nat)
    ensures var es := RequestElements(radios, resultCode);
      && (forall k :: 0 <= k < |es| ==> es[k].Encodable())
      && AllAcceptable(ChangeState, es)
      && CollectedOf(ChangeState, es) == Collected(Bodies(radios), [], map[RESULT_CODE := Bytes32(resultCode)])
  {
    hide AllAcceptable, Entries, Directs;
    if radios == [] {
      var e := Element(RESULT_CODE, Bytes32(resultCode));
      SplitFor(ChangeState, e, []);
      Nothing(ChangeState);
      NothingAcceptable(ChangeState);
      assert [e] + [] == [e];
    } else {
      RequestAccepted(radios[1..], resultCode);
      SplitFor(ChangeState, radios[0].Sent(), RequestElements(radios[1..], resultCode));
    }
  }

  lemma NothingAcceptable(p: Parser)
    ensures AllAcceptable(p, [])
  {
  }

  /**
   * The message CWAssembleMessage makes of a change state event request,
   * in a buffer of exactly its size, is parsed back to its radios, in order.
   */
  lemma ChangeStateRoundTrip(radios: seq<Radio>, resultCode: nat, seqNum: nat)
    requires seqNum < 0x100
    requires |Body(RequestElements(radios, resultCode))| + CONTROL_HEADER_OFFSET_FOR_MSG_ELEMS < 0x1_0000
    ensures var s := ControlBytes(CHANGE_STATE_EVENT_REQUEST, seqNum, Body(RequestElements(radios, resultCode)));
      && ChangeStateEventRequest(s) == Read(Collected(Bodies(radios), [], map[RESULT_CODE := Bytes32(resultCode)]))
      && ControlHeaderAt(s, 0).seqNum == seqNum
  {
    hide Parsed, Body, RequestElements, AllAcceptable, ControlHeaderBytes, ControlHeaderAt;
    var es := RequestElements(radios, resultCode);
    var b := Body(es);
    var s := ControlBytes(CHANGE_STATE_EVENT_REQUEST, seqNum, b);
    ControlHeaderRoundTrip(s, CHANGE_STATE_EVENT_REQUEST, seqNum, b);
    RequestAccepted(radios, resultCode);
    assert s[CONTROL_HEADER_SIZE..CONTROL_HEADER_SIZE + |b|] == b;
    ElementsRoundTrip(ChangeState, s, CONTROL_HEADER_SIZE, es);
  }
}
