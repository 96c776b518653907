/**
 * The vendor entries nested in the AC descriptor, the WTP descriptor and the
 * WTP board data (ACProtocol.c, WTPProtocol.c): how the assemblers write
 * them, and how the parsers count them, go back and read them.
 */
module VendorInfo {
  import opened Wire
  import opened Sender

  const AC_DESCRIPTOR := 1
  const WTP_BOARD_DATA := 38
  const WTP_DESCRIPTOR := 39

  // ---------- values ----------

  /** A value of length 4 is a number, swapped to network order and back; any other is copied. */
  datatype Value = Number(n: nat) | Raw(bytes: seq<byte>) {
    function Length(): nat {
      if Number? then 4 else |bytes|
    }

    function Sent(): (b: seq<byte>)
      ensures |b| == Length()
    {
      if Number? then Bytes32(n) else bytes
    }
  }

  /** CWACVendorInfoValues and CWWTPVendorInfoValues; the length is that of the value. */
  datatype Info = Info(vendorIdentifier: nat, infoType: nat, value: Value) {
    /** The members fit their C types, and the length its field. */
    predicate Encodable() {
      && vendorIdentifier < 0x1_0000_0000
      && value.Length() < 0x1_0000
      && match value
         case Number(n) => n < 0x1_0000_0000
         case Raw(bytes) => |bytes| != 4
    }

    /** What the type field leaves of the type. */
    function Narrowed(): Info {
      this.(infoType := infoType % 0x1_0000)
    }
  }

  ghost predicate AllEncodable(infos: seq<Info>) {
    forall k :: 0 <= k < |infos| ==> infos[k].Encodable()
  }

  /** In the descriptors every entry carries its vendor; in the board data they share one. */
  datatype Layout = OwnVendor | SharedVendor(vendorIdentifier: nat)

  function HeadSize(y: Layout): nat {
    if y.OwnVendor? then 8 else 4
  }

  function InfoHead(y: Layout, i: Info): (b: seq<byte>)
    ensures |b| == HeadSize(y)
  {
    (if y.OwnVendor? then Bytes32(i.vendorIdentifier) else [])
    + Bytes16(i.infoType) + Bytes16(i.value.Length())
  }

  function InfoBytes(y: Layout, i: Info): (b: seq<byte>)
    ensures |b| == HeadSize(y) + i.value.Length()
  {
    InfoHead(y, i) + i.value.Sent()
  }

  function InfosBytes(y: Layout, infos: seq<Info>): seq<byte> {
    if infos == [] then [] else InfoBytes(y, infos[0]) + InfosBytes(y, infos[1..])
  }

  // ---------- assembling ----------

  /** The sizes added up before the buffer is allocated. */
  method TotalSize(y: Layout, infos: seq<Info>) returns (size: nat)
    ensures size == |InfosBytes(y, infos)|
  {
    size := 0;
    var i := 0;
    while i < |infos|
      invariant i <= |infos| && size + |InfosBytes(y, infos[i..])| == |InfosBytes(y, infos)|
    {
      assert infos[i..][1..] == infos[i + 1..];
      size := size + HeadSize(y) + infos[i].value.Length();
      i := i + 1;
    }
  }

  method StoreInfo(msg: ProtocolMessage, y: Layout, i: Info)
    requires msg.Valid() && msg.offset + |InfoBytes(y, i)| <= msg.msg.Length
    modifies msg`offset, msg.msg
    ensures msg.Valid() && msg.msg == old(msg.msg) && msg.offset == old(msg.offset) + |InfoBytes(y, i)|
    ensures msg.Stored() == old(msg.Stored()) + InfoBytes(y, i)
  {
    StoreInfoHead(msg, y, i);
    if i.value.Number? {
      msg.Store32(i.value.n);
    } else {
      msg.StoreRawBytes(i.value.bytes);
    }
  }

  method StoreInfoHead(msg: ProtocolMessage, y: Layout, i: Info)
    requires msg.Valid() && msg.offset + HeadSize(y) <= msg.msg.Length
    modifies msg`offset, msg.msg
    ensures msg.Valid() && msg.msg == old(msg.msg) && msg.offset == old(msg.offset) + HeadSize(y)
    ensures msg.Stored() == old(msg.Stored()) + InfoHead(y, i)
  {
    hide Bytes16, Bytes32;
    if y.OwnVendor? {
      msg.Store32(i.vendorIdentifier);
    }
    msg.Store16(i.infoType);
    msg.Store16(i.value.Length());
  }

  method StoreInfos(msg: ProtocolMessage, y: Layout, infos: seq<Info>)
    requires msg.Valid() && msg.offset + |InfosBytes(y, infos)| <= msg.msg.Length
    modifies msg`offset, msg.msg
    ensures msg.Valid() && msg.msg == old(msg.msg) && msg.offset == old(msg.offset) + |InfosBytes(y, infos)|
    ensures msg.Stored() == old(msg.Stored()) + InfosBytes(y, infos)
  {
    hide InfoBytes;
    ghost var before := msg.Stored();
    var i := 0;
    while i < |infos|
      invariant i <= |infos| && msg.Valid() && msg.msg == old(msg.msg)
      invariant msg.offset + |InfosBytes(y, infos[i..])| == old(msg.offset) + |InfosBytes(y, infos)|
      invariant msg.Stored() + InfosBytes(y, infos[i..]) == before + InfosBytes(y, infos)
    {
      ghost var stored := msg.Stored();
      assert infos[i..][1..] == infos[i + 1..];
      Regroup(stored, InfoBytes(y, infos[i]), InfosBytes(y, infos[i + 1..]));
      StoreInfo(msg, y, infos[i]);
      i := i + 1;
    }
    assert msg.Stored() + [] == msg.Stored();
  }

  lemma Regroup(a: seq<byte>, b: seq<byte>, c: seq<byte>)
    ensures a + (b + c) == a + b + c
  {
  }

  /** CWACInfoValues, as far as the descriptor carries it. */
  datatype ACInfo = ACInfo(
    stations: nat, limit: nat, activeWTPs: nat, maxWTPs: nat, security: nat, RMACField: nat, DTLSPolicy: nat)

  function ACHead(v: ACInfo): (b: seq<byte>)
    ensures |b| == 12
  {
    Bytes16(v.stations) + Bytes16(v.limit) + Bytes16(v.activeWTPs) + Bytes16(v.maxWTPs)
    + [v.security % 0x100, v.RMACField % 0x100, 0, v.DTLSPolicy % 0x100]
  }

  method StoreACHead(msg: ProtocolMessage, v: ACInfo)
    requires msg.Valid() && msg.offset == 0 && msg.msg.Length >= 12
    modifies msg`offset, msg.msg
    ensures msg.Valid() && msg.msg == old(msg.msg) && msg.offset == 12 && msg.Stored() == ACHead(v)
  {
    hide Bytes16;
    StoreACCounts(msg, v);
    msg.Store8(v.security);
    msg.Store8(v.RMACField);
    msg.Store8(0);
    msg.Store8(v.DTLSPolicy);
  }

  method StoreACCounts(msg: ProtocolMessage, v: ACInfo)
    requires msg.Valid() && msg.offset == 0 && msg.msg.Length >= 8
    modifies msg`offset, msg.msg
    ensures msg.Valid() && msg.msg == old(msg.msg) && msg.offset == 8
    ensures msg.Stored() == Bytes16(v.stations) + Bytes16(v.limit) + Bytes16(v.activeWTPs) + Bytes16(v.maxWTPs)
  {
    hide Bytes16;
    msg.Store16(v.stations);
    msg.Store16(v.limit);
    msg.Store16(v.activeWTPs);
    msg.Store16(v.maxWTPs);
  }

  /** CWAssembleMsgElemACDescriptor */
  method AssembleACDescriptor(v: ACInfo, infos: seq<Info>) returns (msg: ProtocolMessage)
    ensures fresh(msg) && fresh(msg.msg) && msg.Valid()
    ensures msg.Stored() == ElementBytes(AC_DESCRIPTOR, ACHead(v) + InfosBytes(OwnVendor, infos))
  {
    hide ElementBytes, ACHead, InfosBytes;
    var size := TotalSize(OwnVendor, infos);
    msg := new ProtocolMessage(size + 12);
    StoreACHead(msg, v);
    StoreInfos(msg, OwnVendor, infos);
    AssembleMsgElem(msg, AC_DESCRIPTOR);
  }

  /** CWWTPDescriptor without its vendor entries. */
  datatype WTPInfo = WTPInfo(maxRadios: nat, radiosInUse: nat, encCapabilities: nat)

  function WTPHead(v: WTPInfo): (b: seq<byte>)
    ensures |b| == 4
  {
    [v.maxRadios % 0x100, v.radiosInUse % 0x100] + Bytes16(v.encCapabilities)
  }

  /** CWAssembleMsgElemWTPDescriptor */
  method AssembleWTPDescriptor(v: WTPInfo, infos: seq<Info>) returns (msg: ProtocolMessage)
    ensures fresh(msg) && fresh(msg.msg) && msg.Valid()
    ensures msg.Stored() == ElementBytes(WTP_DESCRIPTOR, WTPHead(v) + InfosBytes(OwnVendor, infos))
  {
    hide ElementBytes, InfosBytes;
    var size := TotalSize(OwnVendor, infos);
    msg := new ProtocolMessage(size + 4);
    msg.Store8(v.maxRadios);
    msg.Store8(v.radiosInUse);
    msg.Store16(v.encCapabilities);
    assert msg.Stored() == WTPHead(v);
    StoreInfos(msg, OwnVendor, infos);
    AssembleMsgElem(msg, WTP_DESCRIPTOR);
  }

  /** The layout of board data: the first entry's vendor stands for all. */
  function BoardLayout(infos: seq<Info>): Layout
    requires infos != []
  {
    SharedVendor(infos[0].vendorIdentifier)
  }

  function BoardBytes(infos: seq<Info>): seq<byte>
    requires infos != []
  {
    Bytes32(infos[0].vendorIdentifier) + InfosBytes(BoardLayout(infos), infos)
  }

  /** CWAssembleMsgElemWTPBoardData; Outside is its reading of the first entry of an empty list. */
  method AssembleWTPBoardData(infos: seq<Info>) returns (r: Reading<ProtocolMessage>)
    ensures r == Outside <==> infos == []
    ensures infos != [] ==>
      && r.Read? && fresh(r.value) && fresh(r.value.msg) && r.value.Valid()
      && r.value.Stored() == ElementBytes(WTP_BOARD_DATA, BoardBytes(infos))
  {
    hide ElementBytes, InfosBytes, Bytes32;
    if infos == [] {
      return Outside;
    }
    var y := BoardLayout(infos);
    var size := TotalSize(y, infos);
    var msg := new ProtocolMessage(4 + size);
    msg.Store32(infos[0].vendorIdentifier);
    assert msg.Stored() == Bytes32(infos[0].vendorIdentifier);
    StoreInfos(msg, y, infos);
    AssembleMsgElem(msg, WTP_BOARD_DATA);
    r := Read(msg);
  }

  // ---------- the two scans ----------

  /** The length an entry announces. */
  function LengthAt(y: Layout, s: seq<byte>, at: nat): nat
    requires at + HeadSize(y) <= |s|
  {
    Word16(s, at + HeadSize(y) - 2)
  }

  function NextAt(y: Layout, s: seq<byte>, at: nat): (next: nat)
    requires at + HeadSize(y) <= |s|
    ensures at + HeadSize(y) <= next
  {
    at + HeadSize(y) + LengthAt(y, s, at)
  }

  /** How many entries the counting loop meets, until it is done or the head of one lies outside the buffer. */
  function CountFrom(y: Layout, s: seq<byte>, at: nat, end: nat): nat
    decreases end - at
  {
    if at >= end || at + HeadSize(y) > |s| then 0 else 1 + CountFrom(y, s, NextAt(y, s, at), end)
  }

  /** Where the counting loop is done, or None if it runs out of the buffer. */
  function CountEnd(y: Layout, s: seq<byte>, at: nat, end: nat): (stop: Option<nat>)
    ensures stop.Some? ==> at <= stop.value && end <= stop.value
    decreases end - at
  {
    if at >= end then Some(at)
    else if at + HeadSize(y) > |s| then None
    else CountEnd(y, s, NextAt(y, s, at), end)
  }

  function ValueAt(s: seq<byte>, at: nat, len: nat): Value
    requires at + len <= |s|
  {
    if len == 4 then Number(Word32(s, at)) else Raw(s[at..at + len])
  }

  function InfoAt(y: Layout, s: seq<byte>, at: nat): Info
    requires at + HeadSize(y) <= |s| && NextAt(y, s, at) <= |s|
  {
    var head := at + HeadSize(y);
    Info(if y.OwnVendor? then Word32(s, at) else y.vendorIdentifier, Word16(s, head - 4),
         ValueAt(s, head, LengthAt(y, s, at)))
  }

  /** The entries up to `end`, one after another, or None if one does not lie in the buffer. */
  function InfosFrom(y: Layout, s: seq<byte>, at: nat, end: nat): Option<seq<Info>>
    decreases end - at
  {
    if at >= end then Some([])
    else if at + HeadSize(y) > |s| || NextAt(y, s, at) > |s| then None
    else
      match InfosFrom(y, s, NextAt(y, s, at), end)
      case None => None
      case Some(rest) => Some([InfoAt(y, s, at)] + rest)
  }

  /**
   * The two scans agree: the entries can be read exactly when the counting
   * loop is done inside the buffer, and there are as many as it counted.
   */
  lemma {:induction false} ScansAgree(y: Layout, s: seq<byte>, at: nat, end: nat)
    requires at <= |s|
    ensures InfosFrom(y, s, at, end).Some?
       <==> CountEnd(y, s, at, end).Some? && CountEnd(y, s, at, end).value <= |s|
    ensures InfosFrom(y, s, at, end).Some? ==> |InfosFrom(y, s, at, end).value| == CountFrom(y, s, at, end)
    decreases end - at
  {
    hide InfoAt;
    if at < end && at + HeadSize(y) <= |s| {
      var next := NextAt(y, s, at);
      if next <= |s| {
        ScansAgree(y, s, next, end);
      }
    }
  }

  /** The counting loop. */
  method CountInfos(msg: ProtocolMessage, y: Layout, end: nat) returns (count: Option<nat>)
    modifies msg`offset
    ensures match CountEnd(y, msg.msg[..], old(msg.offset), end)
            case None => count == None
            case Some(stop) => msg.offset == stop && count == Some(CountFrom(y, msg.msg[..], old(msg.offset), end))
  {
    hide Word16, Word32;
    ghost var s, at := msg.msg[..], msg.offset;
    var n := 0;
    while msg.offset < end
      invariant msg.msg[..] == s
      invariant n + CountFrom(y, s, msg.offset, end) == CountFrom(y, s, at, end)
      invariant CountEnd(y, s, msg.offset, end) == CountEnd(y, s, at, end)
      decreases end - msg.offset
    {
      if msg.offset + HeadSize(y) > msg.msg.Length {
        return None;
      }
      if y.OwnVendor? {
        var id := msg.Retrieve32();
      }
      var infoType := msg.Retrieve16();
      var len := msg.Retrieve16();
      msg.offset := msg.offset + len;
      n := n + 1;
    }
    count := Some(n);
  }

  method ReadInfo(msg: ProtocolMessage, y: Layout) returns (i: Info)
    requires msg.offset + HeadSize(y) <= msg.msg.Length && NextAt(y, msg.msg[..], msg.offset) <= msg.msg.Length
    modifies msg`offset
    ensures i == InfoAt(y, msg.msg[..], old(msg.offset))
    ensures msg.offset == NextAt(y, msg.msg[..], old(msg.offset))
  {
    hide Word16, Word32;
    var id: nat;
    if y.OwnVendor? {
      id := msg.Retrieve32();
    } else {
      id := y.vendorIdentifier;
    }
    var infoType := msg.Retrieve16();
    var len := msg.Retrieve16();
    ghost var start := msg.offset;
    var bytes := msg.RetrieveRawBytes(len);
    assert bytes == msg.msg[..][start..start + len];
    i := Info(id, infoType, ValueAt(bytes, 0, len));
    SameValue(msg.msg[..], start, len);
  }

  lemma SameValue(s: seq<byte>, at: nat, len: nat)
    requires at + len <= |s|
    ensures ValueAt(s[at..at + len], 0, len) == ValueAt(s, at, len)
  {
  }

  /** The next step of the reading scan. */
  lemma ScansStep(y: Layout, s: seq<byte>, at: nat, end: nat)
    requires InfosFrom(y, s, at, end).Some? && InfosFrom(y, s, at, end).value != []
    ensures at < end && at + HeadSize(y) <= |s| && NextAt(y, s, at) <= |s|
    ensures var rest := InfosFrom(y, s, NextAt(y, s, at), end);
      rest.Some? && InfosFrom(y, s, at, end).value == [InfoAt(y, s, at)] + rest.value
    ensures CountEnd(y, s, at, end) == CountEnd(y, s, NextAt(y, s, at), end)
  {
  }

  lemma ScansEnd(y: Layout, s: seq<byte>, at: nat, end: nat)
    requires InfosFrom(y, s, at, end) == Some([])
    ensures CountEnd(y, s, at, end) == Some(at)
  {
  }

  /**
   * Counting, going back and reading: the array has an entry for each step
   * of the counting loop, the reading loop fills it exactly and stops where
   * the counting loop did. The test between them stands for the reads of the
   * second loop, which the source does not guard.
   */
  method ParseInfos(msg: ProtocolMessage, y: Layout, end: nat) returns (infos: Option<seq<Info>>)
    requires msg.offset <= msg.msg.Length
    modifies msg`offset
    ensures infos == InfosFrom(y, msg.msg[..], old(msg.offset), end)
    ensures infos.Some? ==> Some(msg.offset) == CountEnd(y, msg.msg[..], old(msg.offset), end)
  {
    hide InfoAt, NextAt, CountFrom, CountEnd, InfosFrom;
    ghost var s := msg.msg[..];
    var theOffset := msg.offset;
    ScansAgree(y, s, theOffset, end);
    var count := CountInfos(msg, y, end);
    if count == None || msg.offset > msg.msg.Length {
      return None;
    }
    msg.offset := theOffset;
    var read := ReadInfos(msg, y, count.value, end);
    infos := Some(read);
  }

  /** The reading loop, over an array of the size counted. */
  method ReadInfos(msg: ProtocolMessage, y: Layout, count: nat, ghost end: nat) returns (infos: seq<Info>)
    requires InfosFrom(y, msg.msg[..], msg.offset, end).Some?
    requires count == |InfosFrom(y, msg.msg[..], msg.offset, end).value|
    modifies msg`offset
    ensures Some(infos) == InfosFrom(y, msg.msg[..], old(msg.offset), end)
    ensures Some(msg.offset) == CountEnd(y, msg.msg[..], old(msg.offset), end)
  {
    hide InfoAt, NextAt, CountEnd, InfosFrom;
    ghost var s, theOffset := msg.msg[..], msg.offset;
    var a := new Info[count](_ => Info(0, 0, Raw([])));
    ghost var all := InfosFrom(y, s, theOffset, end).value;
    var i := 0;
    while i < count
      invariant i <= count == a.Length && msg.msg[..] == s
      invariant InfosFrom(y, s, msg.offset, end).Some?
      invariant a[..i] + InfosFrom(y, s, msg.offset, end).value == all
      invariant CountEnd(y, s, msg.offset, end) == CountEnd(y, s, theOffset, end)
    {
      ScansStep(y, s, msg.offset, end);
      a[i] := ReadInfo(msg, y);
      assert a[..i + 1] == a[..i] + [a[i]];
      i := i + 1;
    }
    ScansEnd(y, s, msg.offset, end);
    infos := a[..];
    assert infos + [] == infos;
  }

  // ---------- the three parsers ----------

  /** The entries from `at` on must end exactly at `end`. */
  function EntriesAt(y: Layout, s: seq<byte>, at: nat, end: nat): Reading<seq<Info>> {
    match InfosFrom(y, s, at, end)
    case None => Outside
    case Some(infos) => if CountEnd(y, s, at, end) == Some(end) then Read(infos) else Malformed
  }

  /** The loops of a parser and the test at its end, len bytes after oldOffset. */
  method ParseEntries(msg: ProtocolMessage, y: Layout, oldOffset: nat, len: nat) returns (r: Reading<seq<Info>>)
    requires msg.offset <= msg.msg.Length
    modifies msg`offset
    ensures r == EntriesAt(y, msg.msg[..], old(msg.offset), oldOffset + len)
    ensures r.Read? ==> msg.offset == oldOffset + len
  {
    hide CountEnd, InfosFrom;
    var infos := ParseInfos(msg, y, oldOffset + len);
    r := if infos == None then Outside
         else if msg.offset - oldOffset == len then Read(infos.value)
         else Malformed;
  }

  /** CWParseACDescriptor */
  method ParseACDescriptor(msg: ProtocolMessage, len: nat) returns (r: Reading<(ACInfo, seq<Info>)>)
    modifies msg`offset
    ensures r == ACDescriptorAt(msg.msg[..], old(msg.offset), len)
    ensures r.Read? ==> msg.offset == old(msg.offset) + len
  {
    hide EntriesAt, Word16;
    var oldOffset := msg.offset;
    if oldOffset + 12 > msg.msg.Length {
      return Outside;
    }
    var stations := msg.Retrieve16();
    var limit := msg.Retrieve16();
    var activeWTPs := msg.Retrieve16();
    var maxWTPs := msg.Retrieve16();
    var security := msg.Retrieve8();
    var rmacField := msg.Retrieve8();
    var reserved := msg.Retrieve8();
    var dtlsPolicy := msg.Retrieve8();
    var infos := ParseEntries(msg, OwnVendor, oldOffset, len);
    r := match infos
         case Read(v) => Read((ACInfo(stations, limit, activeWTPs, maxWTPs, security, rmacField, dtlsPolicy), v))
         case Malformed => Malformed
         case Outside => Outside;
  }

  function ACInfoAt(s: seq<byte>, at: nat): ACInfo
    requires at + 12 <= |s|
  {
    ACInfo(Word16(s, at), Word16(s, at + 2), Word16(s, at + 4), Word16(s, at + 6), s[at + 8], s[at + 9], s[at + 11])
  }

  function ACDescriptorAt(s: seq<byte>, at: nat, len: nat): Reading<(ACInfo, seq<Info>)> {
    if at + 12 > |s| then Outside
    else
      match EntriesAt(OwnVendor, s, at + 12, at + len)
      case Read(infos) => Read((ACInfoAt(s, at), infos))
      case Malformed => Malformed
      case Outside => Outside
  }

  /** CWParseWTPDescriptor */
  method ParseWTPDescriptor(msg: ProtocolMessage, len: nat) returns (r: Reading<(WTPInfo, seq<Info>)>)
    modifies msg`offset
    ensures r == WTPDescriptorAt(msg.msg[..], old(msg.offset), len)
    ensures r.Read? ==> msg.offset == old(msg.offset) + len
  {
    hide EntriesAt, Word16;
    var oldOffset := msg.offset;
    if oldOffset + 4 > msg.msg.Length {
      return Outside;
    }
    var maxRadios := msg.Retrieve8();
    var radiosInUse := msg.Retrieve8();
    var encCapabilities := msg.Retrieve16();
    var infos := ParseEntries(msg, OwnVendor, oldOffset, len);
    r := match infos
         case Read(v) => Read((WTPInfo(maxRadios, radiosInUse, encCapabilities), v))
         case Malformed => Malformed
         case Outside => Outside;
  }

  function WTPDescriptorAt(s: seq<byte>, at: nat, len: nat): Reading<(WTPInfo, seq<Info>)> {
    if at + 4 > |s| then Outside
    else
      match EntriesAt(OwnVendor, s, at + 4, at + len)
      case Read(infos) => Read((WTPInfo(s[at], s[at + 1], Word16(s, at + 2)), infos))
      case Malformed => Malformed
      case Outside => Outside
  }

  /** CWParseWTPBoardData */
  method ParseWTPBoardData(msg: ProtocolMessage, len: nat) returns (r: Reading<seq<Info>>)
    modifies msg`offset
    ensures r == BoardDataAt(msg.msg[..], old(msg.offset), len)
    ensures r.Read? ==> msg.offset == old(msg.offset) + len
  {
    hide EntriesAt, Word32;
    var oldOffset := msg.offset;
    if oldOffset + 4 > msg.msg.Length {
      return Outside;
    }
    var vendorID := msg.Retrieve32();
    r := ParseEntries(msg, SharedVendor(vendorID), oldOffset, len);
  }

  function BoardDataAt(s: seq<byte>, at: nat, len: nat): Reading<seq<Info>> {
    if at + 4 > |s| then Outside else EntriesAt(SharedVendor(Word32(s, at)), s, at + 4, at + len)
  }

  // ---------- parsing inverts assembling ----------

  /** An entry as the parser of its element sees it. */
  function Seen(y: Layout, i: Info): Info {
    if y.OwnVendor? then i.Narrowed() else i.Narrowed().(vendorIdentifier := y.vendorIdentifier)
  }

  function SeenAll(y: Layout, infos: seq<Info>): (r: seq<Info>)
    ensures |r| == |infos|
    ensures forall k :: 0 <= k < |r| ==> r[k] == Seen(y, infos[k])
  {
    if infos == [] then [] else [Seen(y, infos[0])] + SeenAll(y, infos[1..])
  }

  lemma SeenStep(y: Layout, infos: seq<Info>)
    ensures SeenAll(y, infos) == if infos == [] then [] else [Seen(y, infos[0])] + SeenAll(y, infos[1..])
  {
  }

  /** Where the parts of an encoded entry lie. */
  lemma InfoLayout(y: Layout, i: Info)
    ensures var b, h := InfoBytes(y, i), HeadSize(y);
      && (y.OwnVendor? ==> b[0..4] == Bytes32(i.vendorIdentifier))
      && b[h - 4..h - 2] == Bytes16(i.infoType) && b[h - 2..h] == Bytes16(i.value.Length())
      && b[h..|b|] == i.value.Sent()
  {
    hide Bytes16, Bytes32;
  }

  lemma HeadRoundTrip(y: Layout, s: seq<byte>, at: nat, i: Info)
    requires i.Encodable() && at + |InfoBytes(y, i)| <= |s| && s[at..at + |InfoBytes(y, i)|] == InfoBytes(y, i)
    ensures y.OwnVendor? ==> Word32(s, at) == i.vendorIdentifier
    ensures Word16(s, at + HeadSize(y) - 4) == i.infoType % 0x1_0000
    ensures LengthAt(y, s, at) == i.value.Length()
    ensures s[at + HeadSize(y)..at + |InfoBytes(y, i)|] == i.value.Sent()
  {
    hide Bytes16, Bytes32, InfoBytes, Word16, Word32;
    var b, h := InfoBytes(y, i), HeadSize(y);
    InfoLayout(y, i);
    if y.OwnVendor? {
      SubSlice(s, at, b, 0, 4);
      Word32OfBytes32(s, at, i.vendorIdentifier);
    }
    SubSlice(s, at, b, h - 4, h - 2);
    SubSlice(s, at, b, h - 2, h);
    SubSlice(s, at, b, h, |b|);
    Word16OfBytes16(s, at + h - 4, i.infoType);
    Word16OfBytes16(s, at + h - 2, i.value.Length());
  }

  lemma InfoRoundTrip(y: Layout, s: seq<byte>, at: nat, i: Info)
    requires i.Encodable() && at + |InfoBytes(y, i)| <= |s| && s[at..at + |InfoBytes(y, i)|] == InfoBytes(y, i)
    ensures NextAt(y, s, at) == at + |InfoBytes(y, i)| && InfoAt(y, s, at) == Seen(y, i)
  {
    hide Bytes32, InfoBytes, Word16, Word32;
    HeadRoundTrip(y, s, at, i);
    if i.value.Number? {
      Word32OfBytes32(s, at + HeadSize(y), i.value.n);
    }
  }

  /** Both scans step over exactly the entries that were assembled, and the second reads them back. */
  lemma {:induction false} InfosRoundTrip(y: Layout, s: seq<byte>, at: nat, infos: seq<Info>)
    requires AllEncodable(infos)
    requires at + |InfosBytes(y, infos)| <= |s| && s[at..at + |InfosBytes(y, infos)|] == InfosBytes(y, infos)
    ensures var end := at + |InfosBytes(y, infos)|;
      && CountFrom(y, s, at, end) == |infos|
      && EntriesAt(y, s, at, end) == Read(SeenAll(y, infos))
    decreases |infos|
  {
    hide InfoBytes, InfoAt, NextAt, Seen, SeenAll;
    SeenStep(y, infos);
    if infos != [] {
      var b, n := InfosBytes(y, infos), |InfoBytes(y, infos[0])|;
      SubSlice(s, at, b, 0, n);
      SubSlice(s, at, b, n, |b|);
      InfoRoundTrip(y, s, at, infos[0]);
      InfosRoundTrip(y, s, at + n, infos[1..]);
    }
  }

  function ReceivedAC(v: ACInfo): ACInfo {
    ACInfo(
      v.stations % 0x1_0000, v.limit % 0x1_0000, v.activeWTPs % 0x1_0000, v.maxWTPs % 0x1_0000,
      v.security % 0x100, v.RMACField % 0x100, v.DTLSPolicy % 0x100)
  }

  lemma ACHeadRoundTrip(s: seq<byte>, at: nat, v: ACInfo)
    requires at + 12 <= |s| && s[at..at + 12] == ACHead(v)
    ensures ACInfoAt(s, at) == ReceivedAC(v)
  {
    hide Bytes16, Word16;
    var b := ACHead(v);
    SubSlice(s, at, b, 0, 2);
    SubSlice(s, at, b, 2, 4);
    SubSlice(s, at, b, 4, 6);
    SubSlice(s, at, b, 6, 8);
    Word16OfBytes16(s, at, v.stations);
    Word16OfBytes16(s, at + 2, v.limit);
    Word16OfBytes16(s, at + 4, v.activeWTPs);
    Word16OfBytes16(s, at + 6, v.maxWTPs);
    SubSlice(s, at, b, 8, 12);
    var tail := s[at + 8..at + 12];
    assert s[at + 8] == tail[0] && s[at + 9] == tail[1] && s[at + 11] == tail[3];
  }

  /** Parsing an assembled AC descriptor gives it back and consumes exactly its length. */
  lemma ACDescriptorRoundTrip(s: seq<byte>, at: nat, v: ACInfo, infos: seq<Info>)
    requires AllEncodable(infos)
    requires var b := ACHead(v) + InfosBytes(OwnVendor, infos); at + |b| <= |s| && s[at..at + |b|] == b
    ensures ACDescriptorAt(s, at, 12 + |InfosBytes(OwnVendor, infos)|)
         == Read((ReceivedAC(v), SeenAll(OwnVendor, infos)))
  {
    hide ACHead, InfosBytes, EntriesAt, SeenAll, ACInfoAt;
    var b := ACHead(v) + InfosBytes(OwnVendor, infos);
    SubSlice(s, at, b, 0, 12);
    SubSlice(s, at, b, 12, |b|);
    ACHeadRoundTrip(s, at, v);
    InfosRoundTrip(OwnVendor, s, at + 12, infos);
  }

  /** The same for the WTP descriptor. */
  lemma WTPDescriptorRoundTrip(s: seq<byte>, at: nat, v: WTPInfo, infos: seq<Info>)
    requires AllEncodable(infos)
    requires var b := WTPHead(v) + InfosBytes(OwnVendor, infos); at + |b| <= |s| && s[at..at + |b|] == b
    ensures WTPDescriptorAt(s, at, 4 + |InfosBytes(OwnVendor, infos)|)
         == Read((WTPInfo(v.maxRadios % 0x100, v.radiosInUse % 0x100, v.encCapabilities % 0x1_0000),
                  SeenAll(OwnVendor, infos)))
  {
    hide InfosBytes, EntriesAt, SeenAll, Bytes16, Word16;
    var b := WTPHead(v) + InfosBytes(OwnVendor, infos);
    SubSlice(s, at, b, 0, 2);
    SubSlice(s, at, b, 2, 4);
    SubSlice(s, at, b, 4, |b|);
    assert b[0..2] == [v.maxRadios % 0x100, v.radiosInUse % 0x100] && b[2..4] == Bytes16(v.encCapabilities);
    assert s[at] == s[at..at + 2][0] && s[at + 1] == s[at..at + 2][1];
    Word16OfBytes16(s, at + 2, v.encCapabilities);
    InfosRoundTrip(OwnVendor, s, at + 4, infos);
  }

  /**
   * Board data come back with the first entry's vendor in every entry: the
   * round trip is faithful exactly when the entries share one vendor.
   */
  lemma BoardDataRoundTrip(s: seq<byte>, at: nat, infos: seq<Info>)
    requires infos != [] && AllEncodable(infos)
    requires var b := BoardBytes(infos); at + |b| <= |s| && s[at..at + |b|] == b
    ensures BoardDataAt(s, at, |BoardBytes(infos)|) == Read(SeenAll(BoardLayout(infos), infos))
    ensures BoardDataAt(s, at, |BoardBytes(infos)|) == Read(SeenAll(OwnVendor, infos))
      <==> forall k :: 0 <= k < |infos| ==> infos[k].vendorIdentifier == infos[0].vendorIdentifier
  {
    hide InfosBytes, EntriesAt, SeenAll, Bytes32, Word32;
    var b, y := BoardBytes(infos), BoardLayout(infos);
    SubSlice(s, at, b, 0, 4);
    SubSlice(s, at, b, 4, |b|);
    assert b[0..4] == Bytes32(infos[0].vendorIdentifier) && b[4..|b|] == InfosBytes(y, infos);
    assert infos[0].Encodable();
    Word32OfBytes32(s, at, infos[0].vendorIdentifier);
    InfosRoundTrip(y, s, at + 4, infos);
    OneVendor(infos, infos[0].vendorIdentifier);
  }

  lemma OneVendor(infos: seq<Info>, vendor: nat)
    ensures SeenAll(SharedVendor(vendor), infos) == SeenAll(OwnVendor, infos)
      <==> forall k :: 0 <= k < |infos| ==> infos[k].vendorIdentifier == vendor
  {
    hide SeenAll;
    var shared, own := SeenAll(SharedVendor(vendor), infos), SeenAll(OwnVendor, infos);
    if shared == own {
      forall k | 0 <= k < |infos| ensures infos[k].vendorIdentifier == vendor {
        assert shared[k] == Seen(SharedVendor(vendor), infos[k]) && own[k] == Seen(OwnVendor, infos[k]);
      }
    }
  }

  // ---------- assembling inverts parsing ----------

  lemma HeadBytesOfRead(y: Layout, s: seq<byte>, at: nat)
    requires at + HeadSize(y) <= |s| && NextAt(y, s, at) <= |s|
    ensures InfoHead(y, InfoAt(y, s, at)) == s[at..at + HeadSize(y)]
  {
    hide Bytes16, Bytes32, Word16, Word32;
    var h := HeadSize(y);
    BytesOfWord16(s, at + h - 4);
    BytesOfWord16(s, at + h - 2);
    Join(s, at + h - 4, at + h - 2, at + h);
    if y.OwnVendor? {
      BytesOfWord32(s, at);
      Join(s, at, at + 4, at + 6);
      Join(s, at, at + 6, at + 8);
    } else {
      assert [] + s[at..at + 2] == s[at..at + 2];
    }
  }

  /** What was read as an entry is written as the bytes it was read from. */
  lemma InfoBytesOfRead(y: Layout, s: seq<byte>, at: nat)
    requires at + HeadSize(y) <= |s| && NextAt(y, s, at) <= |s|
    ensures InfoBytes(y, InfoAt(y, s, at)) == s[at..NextAt(y, s, at)]
  {
    hide Bytes16, Bytes32, Word16, Word32, InfoHead;
    var h, len := HeadSize(y), LengthAt(y, s, at);
    HeadBytesOfRead(y, s, at);
    if len == 4 {
      BytesOfWord32(s, at + h);
    }
    Join(s, at, at + h, at + h + len);
  }

  /** Assembling the entries that were read reproduces the bytes scanned: nothing is skipped or read twice. */
  lemma {:induction false} InfosBytesOfRead(y: Layout, s: seq<byte>, at: nat, end: nat)
    requires InfosFrom(y, s, at, end).Some? && at <= |s|
    ensures var stop := CountEnd(y, s, at, end);
      stop.Some? && at <= stop.value <= |s| && InfosBytes(y, InfosFrom(y, s, at, end).value) == s[at..stop.value]
    decreases end - at
  {
    hide InfoBytes, InfoAt, NextAt;
    if at < end {
      var next := NextAt(y, s, at);
      InfoBytesOfRead(y, s, at);
      InfosBytesOfRead(y, s, next, end);
      var rest := InfosFrom(y, s, next, end).value;
      assert InfosFrom(y, s, at, end).value == [InfoAt(y, s, at)] + rest;
      assert ([InfoAt(y, s, at)] + rest)[1..] == rest;
      var stop := CountEnd(y, s, at, end).value;
      assert s[at..stop] == s[at..next] + s[next..stop];
    }
  }

  // ---------- exactly what is accepted ----------

  /** An entry as it can be read: its members fit their fields, and it has the vendor of its layout. */
  predicate Readable(y: Layout, i: Info) {
    i.Encodable() && i.infoType < 0x1_0000 && (y.SharedVendor? ==> i.vendorIdentifier == y.vendorIdentifier)
  }

  ghost predicate AllReadable(y: Layout, infos: seq<Info>) {
    forall k :: 0 <= k < |infos| ==> Readable(y, infos[k])
  }

  lemma ReadIsReadable(y: Layout, s: seq<byte>, at: nat)
    requires at + HeadSize(y) <= |s| && NextAt(y, s, at) <= |s|
    ensures Readable(y, InfoAt(y, s, at)) || (y.SharedVendor? && y.vendorIdentifier >= 0x1_0000_0000)
  {
    hide Word16, Word32;
  }

  lemma {:induction false} AllReadAreReadable(y: Layout, s: seq<byte>, at: nat, end: nat)
    requires InfosFrom(y, s, at, end).Some? && (y.SharedVendor? ==> y.vendorIdentifier < 0x1_0000_0000)
    ensures AllReadable(y, InfosFrom(y, s, at, end).value)
    decreases end - at
  {
    hide InfoAt, NextAt, Readable;
    if at < end {
      ReadIsReadable(y, s, at);
      AllReadAreReadable(y, s, NextAt(y, s, at), end);
    }
  }

  lemma {:induction false} ReadableAreSeen(y: Layout, infos: seq<Info>)
    requires AllReadable(y, infos)
    ensures SeenAll(y, infos) == infos && AllEncodable(infos)
  {
    if infos != [] {
      assert Readable(y, infos[0]);
      ReadableAreSeen(y, infos[1..]);
      assert infos == [infos[0]] + infos[1..];
    }
  }

  /**
   * Entries are read from a stretch of the buffer exactly if its bytes are
   * theirs; any other length or content is refused or leads out of the buffer.
   */
  lemma EntriesExactly(y: Layout, s: seq<byte>, at: nat, end: nat, infos: seq<Info>)
    requires at <= end <= |s| && (y.SharedVendor? ==> y.vendorIdentifier < 0x1_0000_0000)
    ensures EntriesAt(y, s, at, end) == Read(infos)
      <==> AllReadable(y, infos) && s[at..end] == InfosBytes(y, infos)
  {
    hide InfosFrom, CountEnd, InfosBytes, Readable, Info.Encodable, SeenAll, CountFrom;
    if EntriesAt(y, s, at, end) == Read(infos) {
      AllReadAreReadable(y, s, at, end);
      InfosBytesOfRead(y, s, at, end);
    }
    if AllReadable(y, infos) && s[at..end] == InfosBytes(y, infos) {
      ReadableAreSeen(y, infos);
      InfosRoundTrip(y, s, at, infos);
    }
  }

  /** The 12 bytes are those of the fixed members, but for the reserved one. */
  predicate IsACHead(b: seq<byte>, v: ACInfo)
    requires |b| == 12
  {
    && v.stations < 0x1_0000 && v.limit < 0x1_0000 && v.activeWTPs < 0x1_0000 && v.maxWTPs < 0x1_0000
    && v.security < 0x100 && v.RMACField < 0x100 && v.DTLSPolicy < 0x100
    && b[..10] == ACHead(v)[..10] && b[11] == ACHead(v)[11]
  }

  lemma ACHeadExactly(s: seq<byte>, at: nat, v: ACInfo)
    requires at + 12 <= |s|
    ensures ACInfoAt(s, at) == v <==> IsACHead(s[at..at + 12], v)
  {
    hide Bytes16, Word16;
    var b := s[at..at + 12];
    if ACInfoAt(s, at) == v {
      BytesOfWord16(s, at);
      BytesOfWord16(s, at + 2);
      BytesOfWord16(s, at + 4);
      BytesOfWord16(s, at + 6);
      assert b[..10]
          == s[at..at + 2] + s[at + 2..at + 4] + s[at + 4..at + 6] + s[at + 6..at + 8] + [s[at + 8], s[at + 9]];
    }
    if IsACHead(b, v) {
      ACHeadParts(v);
      var head := ACHead(v)[..10];
      assert s[at..at + 10] == head;
      SubSlice(s, at, head, 0, 2);
      SubSlice(s, at, head, 2, 4);
      SubSlice(s, at, head, 4, 6);
      SubSlice(s, at, head, 6, 8);
      Word16OfBytes16(s, at, v.stations);
      Word16OfBytes16(s, at + 2, v.limit);
      Word16OfBytes16(s, at + 4, v.activeWTPs);
      Word16OfBytes16(s, at + 6, v.maxWTPs);
      assert s[at + 8] == b[..10][8] && s[at + 9] == b[..10][9] && s[at + 11] == b[11];
    }
  }

  lemma ACHeadParts(v: ACInfo)
    ensures var head := ACHead(v)[..10];
      && head[0..2] == Bytes16(v.stations) && head[2..4] == Bytes16(v.limit)
      && head[4..6] == Bytes16(v.activeWTPs) && head[6..8] == Bytes16(v.maxWTPs)
      && head[8] as int == v.security % 0x100 && head[9] as int == v.RMACField % 0x100
      && ACHead(v)[11] as int == v.DTLSPolicy % 0x100
  {
    hide Bytes16;
    var a, b := Bytes16(v.stations) + Bytes16(v.limit), Bytes16(v.activeWTPs) + Bytes16(v.maxWTPs);
    var tail: seq<byte> := [v.security % 0x100, v.RMACField % 0x100];
    assert ACHead(v)[..10] == a + (b + tail);
    Halves(Bytes16(v.stations), Bytes16(v.limit), b + tail);
    Halves(Bytes16(v.activeWTPs), Bytes16(v.maxWTPs), tail);
    SubSlice(a + (b + tail), 4, b + tail, 0, 2);
    SubSlice(a + (b + tail), 4, b + tail, 2, 4);
  }

  lemma Halves(a: seq<byte>, b: seq<byte>, rest: seq<byte>)
    requires |a| == |b| == 2
    ensures ((a + b) + rest)[0..2] == a && ((a + b) + rest)[2..4] == b
  {
  }

  /** An AC descriptor inside the buffer is accepted exactly if its bytes are those of one, and gives just that one. */
  lemma ACDescriptorExactly(s: seq<byte>, at: nat, len: nat, v: ACInfo, infos: seq<Info>)
    requires at + len <= |s|
    ensures ACDescriptorAt(s, at, len) == Read((v, infos))
      <==> len >= 12 && IsACHead(s[at..at + 12], v) && AllReadable(OwnVendor, infos)
           && s[at + 12..at + len] == InfosBytes(OwnVendor, infos)
  {
    hide EntriesAt, ACInfoAt, IsACHead, InfosBytes, AllReadable;
    if len >= 12 {
      ACHeadExactly(s, at, v);
      EntriesExactly(OwnVendor, s, at + 12, at + len, infos);
    } else {
      TooShort(OwnVendor, s, at + 12, at + len);
    }
  }

  lemma TooShort(y: Layout, s: seq<byte>, at: nat, end: nat)
    requires at > end
    ensures EntriesAt(y, s, at, end) == Malformed
  {
  }

  /** The same for the WTP descriptor. */
  lemma WTPDescriptorExactly(s: seq<byte>, at: nat, len: nat, v: WTPInfo, infos: seq<Info>)
    requires at + len <= |s|
    ensures WTPDescriptorAt(s, at, len) == Read((v, infos))
      <==> len >= 4 && v.maxRadios < 0x100 && v.radiosInUse < 0x100 && v.encCapabilities < 0x1_0000
           && s[at..at + 4] == WTPHead(v) && AllReadable(OwnVendor, infos)
           && s[at + 4..at + len] == InfosBytes(OwnVendor, infos)
  {
    hide EntriesAt, InfosBytes, AllReadable, Bytes16, Word16;
    if len >= 4 {
      WTPHeadExactly(s, at, v);
      EntriesExactly(OwnVendor, s, at + 4, at + len, infos);
    } else {
      TooShort(OwnVendor, s, at + 4, at + len);
    }
  }

  lemma WTPHeadExactly(s: seq<byte>, at: nat, v: WTPInfo)
    requires at + 4 <= |s|
    ensures v == WTPInfo(s[at], s[at + 1], Word16(s, at + 2))
      <==> v.maxRadios < 0x100 && v.radiosInUse < 0x100 && v.encCapabilities < 0x1_0000 && s[at..at + 4] == WTPHead(v)
  {
    hide Bytes16, Word16;
    BytesOfWord16(s, at + 2);
    assert s[at..at + 4] == [s[at], s[at + 1]] + s[at + 2..at + 4];
    if s[at..at + 4] == WTPHead(v) {
      SubSlice(s, at, WTPHead(v), 2, 4);
      assert WTPHead(v)[2..4] == Bytes16(v.encCapabilities);
      Word16OfBytes16(s, at + 2, v.encCapabilities);
      assert s[at] == WTPHead(v)[0] && s[at + 1] == WTPHead(v)[1];
    }
  }

  /** The same for board data, whose entries all have the vendor in front of them. */
  lemma BoardDataExactly(s: seq<byte>, at: nat, len: nat, infos: seq<Info>)
    requires at + len <= |s|
    ensures BoardDataAt(s, at, len) == Read(infos)
      <==> len >= 4 && at + 4 <= |s| && AllReadable(SharedVendor(Word32(s, at)), infos)
           && s[at + 4..at + len] == InfosBytes(SharedVendor(Word32(s, at)), infos)
  {
    hide EntriesAt, InfosBytes, AllReadable, Word32;
    if len >= 4 {
      EntriesExactly(SharedVendor(Word32(s, at)), s, at + 4, at + len, infos);
    } else if at + 4 <= |s| {
      TooShort(SharedVendor(Word32(s, at)), s, at + 4, at + len);
    }
  }
}
