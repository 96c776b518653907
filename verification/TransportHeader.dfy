/**
 * The CAPWAP transport header: CWAssembleTransportHeader and
 * CWParseTransportHeader of CWProtocol.c and their wireless-binding parts in
 * CWBinding.c. The methods build and take apart header words field by field
 * with the macros of BitFields; HeaderBytes says where every field ends up.
 */
module TransportHeader {
  import opened Wire
  import opened BitFields

  // ---------- CWProtocol.h and CWBinding.h: field positions ----------

  const VERSION_START := 0
  const VERSION_LEN := 4
  const TYPE_START := 4
  const TYPE_LEN := 4
  const HLEN_START := 8
  const HLEN_LEN := 5
  const RID_START := 13
  const RID_LEN := 5
  const WBID_START := 18
  const WBID_LEN := 5
  const T_START := 23
  const T_LEN := 1
  const F_START := 24
  const F_LEN := 1
  const L_START := 25
  const L_LEN := 1
  const W_START := 26
  const W_LEN := 1
  const M_START := 27
  const M_LEN := 1
  const K_START := 28
  const K_LEN := 1
  const FLAGS_START := 29
  const FLAGS_LEN := 3

  const FRAGMENT_ID_START := 0
  const FRAGMENT_ID_LEN := 16
  const FRAGMENT_OFFSET_START := 16
  const FRAGMENT_OFFSET_LEN := 13
  const RESERVED_START := 29
  const RESERVED_LEN := 3

  const LENGTH_START := 0
  const LENGTH_LEN := 8
  const RSSI_START := 8
  const RSSI_LEN := 8
  const SNR_START := 16
  const SNR_LEN := 8
  const DATARATE_1_START := 24
  const DATARATE_1_LEN := 8
  const DATARATE_2_START := 0
  const DATARATE_2_LEN := 8
  const PADDING_START := 8
  const PADDING_LEN := 24

  const PROTOCOL_VERSION := 0
  const PACKET_PLAIN := 0
  const BINDING_HLEN := 4
  const BINDING_DATALENGTH := 6
  const HEADER_SIZE := 8
  const HEADER_SIZE_BINDING := 16

  // ---------- header values ----------

  /** CWBindingTransportHeaderValues. */
  datatype BindingValues = BindingValues(rssi: int, snr: int, dataRate: int)

  /** The members of CWProtocolTransportHeaderValues the assembler reads. */
  datatype HeaderValues = HeaderValues(
    payloadType: int, isFragment: int, last: int, fragmentID: int, fragmentOffset: int,
    binding: Option<BindingValues>)

  /** data_msgType; Unset when the parser assigns nothing to it. */
  datatype DataKind = Unset | Frame | Stats | FreqStats

  /** What the parser fills in. */
  datatype ParsedHeader = ParsedHeader(
    payloadType: nat, tType: nat, isFragment: nat, last: nat, keepAlive: nat,
    fragmentID: nat, fragmentOffset: nat, binding: Option<BindingValues>, kind: DataKind)

  // ---------- where the fields end up ----------

  function FirstWord(h: HeaderValues): nat {
    (if h.payloadType == PACKET_PLAIN then 0 else 0x100_0000)
    + (if h.binding.Some? then 0x20_0000 else 0x10_0000)
    + 0x200 + 0x100
    + h.isFragment % 2 * 0x80
    + h.last % 2 * 0x40
    + (if h.binding.Some? then 0x20 else 0)
  }

  function SecondWord(h: HeaderValues): nat {
    h.fragmentID % 0x1_0000 * 0x1_0000 + h.fragmentOffset % 0x2000 * 8
  }

  function BindingFirstWord(b: BindingValues): nat {
    0x600_0000 + b.rssi % 0x100 * 0x1_0000 + b.snr % 0x100 * 0x100 + b.dataRate / 0x100 % 0x100
  }

  function BindingSecondWord(b: BindingValues): nat {
    b.dataRate % 0x100 * 0x100_0000
  }

  function HeaderBytes(h: HeaderValues): (s: seq<byte>)
    ensures |s| == if h.binding.Some? then HEADER_SIZE_BINDING else HEADER_SIZE
  {
    Bytes32(FirstWord(h)) + Bytes32(SecondWord(h))
    + match h.binding
      case None => []
      case Some(b) => Bytes32(BindingFirstWord(b)) + Bytes32(BindingSecondWord(b))
  }

  /** The powers of two that place and mask the header fields. */
  lemma FieldPowers()
    ensures Pow2(0) == 1 && Pow2(1) == 2 && Pow2(3) == 8 && Pow2(4) == 0x10 && Pow2(5) == 0x20
    ensures Pow2(6) == 0x40 && Pow2(7) == 0x80 && Pow2(8) == 0x100 && Pow2(9) == 0x200
    ensures Pow2(13) == 0x2000 && Pow2(14) == 0x4000 && Pow2(16) == 0x1_0000
    ensures Pow2(19) == 0x8_0000 && Pow2(24) == 0x100_0000 && Pow2(28) == 0x1000_0000
    ensures Pow2(32) == 0x1_0000_0000
  {
  }

  // ---------- assembling ----------

  /**
   * One use of the CWSetField32 macro on a word filled from its first bit on;
   * size and weight name the powers of two the macro's masks and shifts stand for.
   */
  method SetField(src: nat, start: nat, len: nat, val: int, ghost size: nat, ghost weight: nat) returns (r: nat)
    requires start + len <= 32 && ZeroFrom(src, start)
    requires size == Pow2(len) && weight == Pow2(32 - start - len)
    ensures r == src + val % size * weight
    ensures ZeroFrom(r, start + len)
  {
    SetAppends(src, start, len, val);
    r := SetField32(src, start, len, val);
  }

  lemma StartsZero()
    ensures ZeroFrom(0, 0)
  {
  }

  /** The fields up to the flags. */
  method AssembleLayout(values: HeaderValues) returns (val: nat)
    ensures val == (if values.payloadType == PACKET_PLAIN then 0 else 0x100_0000)
                   + (if values.binding.Some? then 0x20_0000 else 0x10_0000) + 0x200
    ensures ZeroFrom(val, T_START)
  {
    hide Pow2, ZeroFrom;
    FieldPowers();
    StartsZero();
    val := 0;
    val := SetField(val, VERSION_START, VERSION_LEN, PROTOCOL_VERSION, 0x10, 0x1000_0000);
    val := SetField(val, TYPE_START, TYPE_LEN, if values.payloadType == PACKET_PLAIN then 0 else 1, 0x10, 0x100_0000);
    if values.binding.Some? {
      val := SetField(val, HLEN_START, HLEN_LEN, BINDING_HLEN, 0x20, 0x8_0000);
    } else {
      val := SetField(val, HLEN_START, HLEN_LEN, 2, 0x20, 0x8_0000);
    }
    val := SetField(val, RID_START, RID_LEN, 0, 0x20, 0x4000);
    val := SetField(val, WBID_START, WBID_LEN, 1, 0x20, 0x200);
  }

  method AssembleFirstWord(values: HeaderValues) returns (val: nat)
    ensures val == FirstWord(values)
  {
    hide Pow2, ZeroFrom;
    FieldPowers();
    val := AssembleLayout(values);
    val := SetField(val, T_START, T_LEN, 1, 2, 0x100);
    val := SetField(val, F_START, F_LEN, values.isFragment, 2, 0x80);
    val := SetField(val, L_START, L_LEN, values.last, 2, 0x40);
    if values.binding.Some? {
      val := SetField(val, W_START, W_LEN, 1, 2, 0x20);
    } else {
      val := SetField(val, W_START, W_LEN, 0, 2, 0x20);
    }
    val := SetField(val, M_START, M_LEN, 0, 2, 0x10);
    val := SetField(val, K_START, K_LEN, 0, 2, 8);
    val := SetField(val, FLAGS_START, FLAGS_LEN, 0, 8, 1);
  }

  method AssembleSecondWord(values: HeaderValues) returns (val: nat)
    ensures val == SecondWord(values)
  {
    FieldPowers();
    val := 0;
    val := SetField(val, FRAGMENT_ID_START, FRAGMENT_ID_LEN, values.fragmentID, 0x1_0000, 0x1_0000);
    val := SetField(val, FRAGMENT_OFFSET_START, FRAGMENT_OFFSET_LEN, values.fragmentOffset, 0x2000, 8);
    val := SetField(val, RESERVED_START, RESERVED_LEN, 0, 8, 1);
  }

  method AssembleBindingWords(values: BindingValues) returns (first: nat, second: nat)
    ensures first == BindingFirstWord(values) && second == BindingSecondWord(values)
  {
    FieldPowers();
    var val := 0;
    val := SetField(val, LENGTH_START, LENGTH_LEN, BINDING_DATALENGTH, 0x100, 0x100_0000);
    val := SetField(val, RSSI_START, RSSI_LEN, values.rssi, 0x100, 0x1_0000);
    val := SetField(val, SNR_START, SNR_LEN, values.snr, 0x100, 0x100);
    val := SetField(val, DATARATE_1_START, DATARATE_1_LEN, values.dataRate / 0x100, 0x100, 1);
    first := val;
    val := 0;
    val := SetField(val, DATARATE_2_START, DATARATE_2_LEN, values.dataRate % 0x100, 0x100, 0x100_0000);
    val := SetField(val, PADDING_START, PADDING_LEN, 0, 0x100_0000, 1);
    second := val;
  }

  /** CWAssembleTransportHeaderBinding */
  method AssembleTransportHeaderBinding(hdr: ProtocolMessage, values: BindingValues)
    requires hdr.Valid() && hdr.offset + 8 <= hdr.msg.Length
    modifies hdr`offset, hdr.msg
    ensures hdr.Valid() && hdr.msg == old(hdr.msg)
    ensures hdr.Stored()
         == old(hdr.Stored()) + Bytes32(BindingFirstWord(values)) + Bytes32(BindingSecondWord(values))
  {
    var first, second := AssembleBindingWords(values);
    hdr.Store32(first);
    hdr.Store32(second);
  }

  /** CWAssembleTransportHeader */
  method AssembleTransportHeader(values: HeaderValues) returns (hdr: ProtocolMessage)
    ensures fresh(hdr) && fresh(hdr.msg) && hdr.Valid()
    ensures hdr.Stored() == HeaderBytes(values)
  {
    if values.binding.Some? {
      hdr := new ProtocolMessage(HEADER_SIZE_BINDING);
    } else {
      hdr := new ProtocolMessage(HEADER_SIZE);
    }
    var first := AssembleFirstWord(values);
    hdr.Store32(first);
    var second := AssembleSecondWord(values);
    hdr.Store32(second);
    if values.binding.Some? {
      AssembleTransportHeaderBinding(hdr, values.binding.value);
    }
  }

  // ---------- parsing ----------

  /** The first header word announces the 8-byte wireless binding part. */
  predicate WithBinding(first: nat) {
    GetField32(first, HLEN_START, HLEN_LEN) == BINDING_HLEN && GetField32(first, W_START, W_LEN) == 1
  }

  predicate AnnouncesBinding(s: seq<byte>)
    requires |s| >= HEADER_SIZE
  {
    WithBinding(Word32(s, 0))
  }

  predicate RightVersion(s: seq<byte>)
    requires |s| >= HEADER_SIZE
  {
    GetField32(Word32(s, 0), VERSION_START, VERSION_LEN) == PROTOCOL_VERSION
  }

  /** s is long enough to hold the header it announces. */
  predicate HasHeader(s: seq<byte>) {
    |s| >= HEADER_SIZE && (AnnouncesBinding(s) ==> |s| >= HEADER_SIZE_BINDING)
  }

  function HeaderLength(s: seq<byte>): (n: nat)
    requires HasHeader(s)
    ensures n <= |s|
  {
    if AnnouncesBinding(s) then HEADER_SIZE_BINDING else HEADER_SIZE
  }

  function Kind(rateTag: nat, snr: nat): DataKind {
    if rateTag == 255 then (if snr == 1 then FreqStats else Stats)
    else if rateTag == 0 then Frame
    else Unset
  }

  /** CWParseTransportHeaderBinding on its two words; None is INVALID_FORMAT. */
  function BindingOfWords(first: nat, second: nat): Option<(BindingValues, DataKind)> {
    if GetField32(first, LENGTH_START, LENGTH_LEN) != BINDING_DATALENGTH then None
    else
      var rssi := GetField32(first, RSSI_START, RSSI_LEN);
      var snr := GetField32(first, SNR_START, SNR_LEN);
      var rateTag := GetField32(first, DATARATE_1_START, DATARATE_1_LEN);
      // the low byte is read from the position of the high one
      var rate := rateTag * 0x100 + GetField32(second, DATARATE_1_START, DATARATE_1_LEN);
      Some((BindingValues(rssi, snr, rate), Kind(rateTag, snr)))
  }

  /** CWParseTransportHeader on its two words and, if announced, the parsed binding. */
  function HeaderOfWords(first: nat, second: nat, b: Option<(BindingValues, DataKind)>): Option<ParsedHeader> {
    var fixed := ParsedHeader(
      GetField32(first, TYPE_START, TYPE_LEN),
      GetField32(first, T_START, T_LEN),
      GetField32(first, F_START, F_LEN),
      GetField32(first, L_START, L_LEN),
      GetField32(first, K_START, K_LEN),
      GetField32(second, FRAGMENT_ID_START, FRAGMENT_ID_LEN),
      GetField32(second, FRAGMENT_OFFSET_START, FRAGMENT_OFFSET_LEN),
      None, Unset);
    if GetField32(first, VERSION_START, VERSION_LEN) != PROTOCOL_VERSION then None
    else if WithBinding(first) then
      if b.None? then None else Some(fixed.(binding := Some(b.value.0), kind := b.value.1))
    else if GetField32(first, HLEN_START, HLEN_LEN) == 2 then Some(fixed)
    else None
  }

  /** CWParseTransportHeader; None is INVALID_FORMAT. */
  function ParseHeader(s: seq<byte>): Option<ParsedHeader>
    requires HasHeader(s)
  {
    HeaderOfWords(
      Word32(s, 0), Word32(s, 4),
      if AnnouncesBinding(s) then BindingOfWords(Word32(s, 8), Word32(s, 12)) else None)
  }

  /** CWParseTransportHeaderBinding; the DataKind is what it stores in data_msgType. */
  method ParseTransportHeaderBinding(msg: ProtocolMessage) returns (r: Option<(BindingValues, DataKind)>)
    requires msg.offset + 8 <= msg.msg.Length
    modifies msg`offset
    ensures r == BindingOfWords(Word32(msg.msg[..], old(msg.offset)), Word32(msg.msg[..], old(msg.offset) + 4))
    ensures r.Some? ==> msg.offset == old(msg.offset) + 8
  {
    hide Word32, GetField32;
    var val := msg.Retrieve32();
    if GetField32(val, LENGTH_START, LENGTH_LEN) != BINDING_DATALENGTH {
      return None;
    }
    var rssi := GetField32(val, RSSI_START, RSSI_LEN);
    var snr := GetField32(val, SNR_START, SNR_LEN);
    var rate := GetField32(val, DATARATE_1_START, DATARATE_1_LEN);
    val := msg.Retrieve32();
    var kind := Unset;
    if rate == 255 {
      if snr == 1 {
        kind := FreqStats;
      } else {
        kind := Stats;
      }
    } else if rate == 0 {
      kind := Frame;
    }
    rate := rate * 0x100 + GetField32(val, DATARATE_1_START, DATARATE_1_LEN);
    r := Some((BindingValues(rssi, snr, rate), kind));
  }

  /** CWParseTransportHeader on a message whose offset is at its start. */
  method ParseTransportHeader(msg: ProtocolMessage) returns (r: Option<ParsedHeader>, dataFlag: bool)
    requires msg.offset == 0 && HasHeader(msg.msg[..])
    modifies msg`offset
    ensures r == ParseHeader(msg.msg[..])
    ensures r.Some? ==> msg.offset == HeaderLength(msg.msg[..])
    ensures dataFlag == (RightVersion(msg.msg[..]) && AnnouncesBinding(msg.msg[..]))
  {
    hide Word32, GetField32, BindingOfWords;
    dataFlag := false;
    var val := msg.Retrieve32();
    if GetField32(val, VERSION_START, VERSION_LEN) != PROTOCOL_VERSION {
      return None, false;
    }
    var payloadType := GetField32(val, TYPE_START, TYPE_LEN);
    var hlen := GetField32(val, HLEN_START, HLEN_LEN);
    var tType := GetField32(val, T_START, T_LEN);
    var isFragment := GetField32(val, F_START, F_LEN);
    var last := GetField32(val, L_START, L_LEN);
    var optionalWireless := GetField32(val, W_START, W_LEN);
    var keepAlive := GetField32(val, K_START, K_LEN);
    val := msg.Retrieve32();
    var id := GetField32(val, FRAGMENT_ID_START, FRAGMENT_ID_LEN);
    var offset := GetField32(val, FRAGMENT_OFFSET_START, FRAGMENT_OFFSET_LEN);
    var values := ParsedHeader(payloadType, tType, isFragment, last, keepAlive, id, offset, None, Unset);
    if hlen == BINDING_HLEN && optionalWireless == 1 {
      dataFlag := true;
      var b := ParseTransportHeaderBinding(msg);
      if b.None? {
        return None, true;
      }
      values := values.(binding := Some(b.value.0), kind := b.value.1);
    }
    r := if hlen == 2 || (hlen == BINDING_HLEN && optionalWireless == 1) then Some(values) else None;
  }

  // ---------- the two are inverse ----------

  /** What parsing makes of the binding values that were assembled. */
  function Narrowed(b: BindingValues): BindingValues {
    BindingValues(b.rssi % 0x100, b.snr % 0x100, b.dataRate / 0x100 % 0x100 * 0x100)
  }

  /** What parsing makes of a header that was assembled. */
  function Received(h: HeaderValues): ParsedHeader {
    ParsedHeader(
      if h.payloadType == PACKET_PLAIN then 0 else 1, 1, h.isFragment % 2, h.last % 2, 0,
      h.fragmentID % 0x1_0000, h.fragmentOffset % 0x2000,
      match h.binding case None => None case Some(b) => Some(Narrowed(b)),
      match h.binding case None => Unset case Some(b) => Kind(b.dataRate / 0x100 % 0x100, b.snr % 0x100))
  }

  lemma ReadFirstWordLayout(h: HeaderValues)
    ensures var w := FirstWord(h);
      && w < 0x1_0000_0000
      && GetField32(w, VERSION_START, VERSION_LEN) == PROTOCOL_VERSION
      && GetField32(w, TYPE_START, TYPE_LEN) == (if h.payloadType == PACKET_PLAIN then 0 else 1)
      && GetField32(w, HLEN_START, HLEN_LEN) == (if h.binding.Some? then BINDING_HLEN else 2)
  {
    hide Pow2;
    FieldPowers();
  }

  lemma ReadFirstWordFlags(h: HeaderValues)
    ensures var w := FirstWord(h);
      && GetField32(w, T_START, T_LEN) == 1
      && GetField32(w, F_START, F_LEN) == h.isFragment % 2
      && GetField32(w, L_START, L_LEN) == h.last % 2
      && GetField32(w, W_START, W_LEN) == (if h.binding.Some? then 1 else 0)
      && GetField32(w, K_START, K_LEN) == 0
  {
    hide Pow2;
    FieldPowers();
  }

  lemma ReadSecondWord(h: HeaderValues)
    ensures var w := SecondWord(h);
      && w < 0x1_0000_0000
      && GetField32(w, FRAGMENT_ID_START, FRAGMENT_ID_LEN) == h.fragmentID % 0x1_0000
      && GetField32(w, FRAGMENT_OFFSET_START, FRAGMENT_OFFSET_LEN) == h.fragmentOffset % 0x2000
  {
    FieldPowers();
  }

  lemma ReadByteFields(b0: byte, b1: byte, b2: byte, b3: byte)
    ensures var w: nat := ((b0 as int * 0x100 + b1 as int) * 0x100 + b2 as int) * 0x100 + b3 as int;
      && GetField32(w, 0, 8) == b0 as int && GetField32(w, 8, 8) == b1 as int
      && GetField32(w, 16, 8) == b2 as int && GetField32(w, 24, 8) == b3 as int
  {
    hide Pow2;
    FieldPowers();
    ByteQuotients(b0, b1, b2, b3);
  }

  lemma ByteQuotients(b0: int, b1: int, b2: int, b3: int)
    requires 0 <= b0 < 0x100 && 0 <= b1 < 0x100 && 0 <= b2 < 0x100 && 0 <= b3 < 0x100
    ensures var w := ((b0 * 0x100 + b1) * 0x100 + b2) * 0x100 + b3;
      && w / 0x100_0000 % 0x100 == b0 && w / 0x1_0000 % 0x100 == b1
      && w / 0x100 % 0x100 == b2 && w / 1 % 0x100 == b3
  {
    var c1 := b0 * 0x100 + b1;
    var c2 := c1 * 0x100 + b2;
    var w := c2 * 0x100 + b3;
    LastByte(b0, b1);
    LastByte(c1, b2);
    LastByte(c2, b3);
    QuotientTwice(w, 0x100, 0x100);
    QuotientTwice(w, 0x1_0000, 0x100);
  }

  lemma LastByte(c: nat, b: nat)
    requires b < 0x100
    ensures (c * 0x100 + b) / 0x100 == c && (c * 0x100 + b) % 0x100 == b
  {
  }

  lemma QuotientTwice(w: nat, m: nat, n: nat)
    requires m > 0 && n > 0
    ensures m * n > 0 && w / (m * n) == w / m / n
  {
    var q, r := w / m / n, w / m % n;
    MultipleOutside(m, n);
    Regroup(q, n, m, r);
    FieldFits(r, n, m);
    DivModUnique(w, m * n, q, r * m + w % m);
  }

  lemma ReadBindingWords(b: BindingValues)
    ensures var w := BindingFirstWord(b);
      && w < 0x1_0000_0000
      && GetField32(w, LENGTH_START, LENGTH_LEN) == BINDING_DATALENGTH
      && GetField32(w, RSSI_START, RSSI_LEN) == b.rssi % 0x100
      && GetField32(w, SNR_START, SNR_LEN) == b.snr % 0x100
      && GetField32(w, DATARATE_1_START, DATARATE_1_LEN) == b.dataRate / 0x100 % 0x100
    ensures BindingSecondWord(b) < 0x1_0000_0000
    ensures GetField32(BindingSecondWord(b), DATARATE_1_START, DATARATE_1_LEN) == 0
  {
    ReadByteFields(6, b.rssi % 0x100, b.snr % 0x100, b.dataRate / 0x100 % 0x100);
    ReadByteFields(b.dataRate % 0x100, 0, 0, 0);
  }

  /** Two stored words are read back from where they were stored. */
  lemma TwoWords(s: seq<byte>, at: nat, v: nat, w: nat)
    requires at + 8 <= |s| && s[at..at + 8] == Bytes32(v) + Bytes32(w)
    requires v < 0x1_0000_0000 && w < 0x1_0000_0000
    ensures Word32(s, at) == v && Word32(s, at + 4) == w
  {
    hide Bytes32, Word32;
    SubSlice(s, at, Bytes32(v) + Bytes32(w), 0, 4);
    SubSlice(s, at, Bytes32(v) + Bytes32(w), 4, 8);
    Word32OfBytes32(s, at, v);
    Word32OfBytes32(s, at + 4, w);
  }

  /** The words of an assembled header sit where the parser reads them. */
  lemma HeaderWords(h: HeaderValues, payload: seq<byte>)
    ensures var s := HeaderBytes(h) + payload;
      && |s| >= HEADER_SIZE && Word32(s, 0) == FirstWord(h) && Word32(s, 4) == SecondWord(h)
      && (h.binding.Some? ==>
            |s| >= HEADER_SIZE_BINDING
            && Word32(s, 8) == BindingFirstWord(h.binding.value)
            && Word32(s, 12) == BindingSecondWord(h.binding.value))
  {
    var s := HeaderBytes(h) + payload;
    WordsBelow(h);
    TwoWords(s, 0, FirstWord(h), SecondWord(h));
    if h.binding.Some? {
      TwoWords(s, 8, BindingFirstWord(h.binding.value), BindingSecondWord(h.binding.value));
    }
  }

  lemma WordsBelow(h: HeaderValues)
    ensures FirstWord(h) < 0x1_0000_0000 && SecondWord(h) < 0x1_0000_0000
    ensures h.binding.Some? ==>
      BindingFirstWord(h.binding.value) < 0x1_0000_0000 && BindingSecondWord(h.binding.value) < 0x1_0000_0000
  {
  }

  lemma ParseOfWords(s: seq<byte>, h: HeaderValues, first: nat, second: nat)
    requires |s| >= HEADER_SIZE && Word32(s, 0) == first && Word32(s, 4) == second
    requires h.binding.Some? ==> |s| >= HEADER_SIZE_BINDING
    requires GetField32(first, VERSION_START, VERSION_LEN) == PROTOCOL_VERSION
    requires GetField32(first, TYPE_START, TYPE_LEN) == (if h.payloadType == PACKET_PLAIN then 0 else 1)
    requires GetField32(first, HLEN_START, HLEN_LEN) == (if h.binding.Some? then BINDING_HLEN else 2)
    requires GetField32(first, T_START, T_LEN) == 1
    requires GetField32(first, F_START, F_LEN) == h.isFragment % 2
    requires GetField32(first, L_START, L_LEN) == h.last % 2
    requires GetField32(first, W_START, W_LEN) == (if h.binding.Some? then 1 else 0)
    requires GetField32(first, K_START, K_LEN) == 0
    requires GetField32(second, FRAGMENT_ID_START, FRAGMENT_ID_LEN) == h.fragmentID % 0x1_0000
    requires GetField32(second, FRAGMENT_OFFSET_START, FRAGMENT_OFFSET_LEN) == h.fragmentOffset % 0x2000
    requires h.binding.Some? ==>
      BindingOfWords(Word32(s, 8), Word32(s, 12)) == Some((Narrowed(h.binding.value), Received(h).kind))
    ensures HasHeader(s) && ParseHeader(s) == Some(Received(h))
    ensures RightVersion(s) && (AnnouncesBinding(s) <==> h.binding.Some?)
  {
  }

  lemma ParseOfBindingWords(b: BindingValues)
    ensures BindingOfWords(BindingFirstWord(b), BindingSecondWord(b))
         == Some((Narrowed(b), Kind(b.dataRate / 0x100 % 0x100, b.snr % 0x100)))
  {
    ReadBindingWords(b);
  }

  /**
   * Parsing an assembled header, whatever follows it, returns every field
   * modulo its width, and sets the data flag exactly when there is a binding.
   */
  lemma ParseInvertsAssemble(h: HeaderValues, payload: seq<byte>)
    ensures var s := HeaderBytes(h) + payload;
      && HasHeader(s)
      && ParseHeader(s) == Some(Received(h))
      && HeaderLength(s) == |HeaderBytes(h)|
      && s[HeaderLength(s)..] == payload
      && RightVersion(s)
      && (AnnouncesBinding(s) <==> h.binding.Some?)
  {
    var s := HeaderBytes(h) + payload;
    HeaderWords(h, payload);
    ReadFirstWordLayout(h);
    ReadFirstWordFlags(h);
    ReadSecondWord(h);
    if h.binding.Some? {
      ParseOfBindingWords(h.binding.value);
    }
    ParseOfWords(s, h, FirstWord(h), SecondWord(h));
  }

  /** The value a byte has in a member of type char, whose sign the platform decides. */
  function AsChar(b: nat, signed: bool): int {
    if signed && b >= 0x80 then b - 0x100 else b
  }

  predicate IsChar(v: int, signed: bool) {
    if signed then -0x80 <= v < 0x80 else 0 <= v < 0x100
  }

  /**
   * The parsed RSSI and SNR are the bytes received; in the char members they
   * are assigned to they have the values that were sent, signed or not.
   */
  lemma SignalSurvives(b: BindingValues, signed: bool)
    requires IsChar(b.rssi, signed) && IsChar(b.snr, signed)
    ensures AsChar(Narrowed(b).rssi, signed) == b.rssi && AsChar(Narrowed(b).snr, signed) == b.snr
  {
  }

  /**
   * The parser re-reads the position of the high data-rate byte for the low
   * one, so a 16-bit data rate survives exactly when its low byte is zero.
   */
  lemma DataRateSurvivesExactly(b: BindingValues)
    requires 0 <= b.dataRate < 0x1_0000
    ensures Narrowed(b).dataRate == b.dataRate <==> b.dataRate % 0x100 == 0
  {
  }

  /**
   * The tags the senders put in the data rate stay apart: -1 with SNR 1 marks
   * frequency statistics, -1 with another SNR statistics, 0..255 a frame.
   */
  lemma KindsDistinguished(h: HeaderValues, payload: seq<byte>)
    requires h.binding.Some? && (h.binding.value.dataRate == -1 || 0 <= h.binding.value.dataRate < 0x100)
    ensures var s := HeaderBytes(h) + payload;
      && HasHeader(s) && ParseHeader(s).Some?
      && ParseHeader(s).value.kind ==
           if h.binding.value.dataRate >= 0 then Frame
           else if h.binding.value.snr % 0x100 == 1 then FreqStats
           else Stats
  {
    ParseInvertsAssemble(h, payload);
    TagOfRate(h.binding.value.dataRate);
  }

  lemma TagOfRate(rate: int)
    requires rate == -1 || 0 <= rate < 0x100
    ensures rate / 0x100 % 0x100 == if rate == -1 then 255 else 0
  {
  }

  /**
   * The kind of every frame with a binding. The receiver goes by the high byte
   * of the data rate alone, so a frame is told from statistics exactly below a
   * rate of 256; from there on no kind is set at all, until the high byte is
   * that of the statistics tag.
   */
  lemma KindExactly(h: HeaderValues, payload: seq<byte>)
    requires h.binding.Some? && -1 <= h.binding.value.dataRate < 0x1_0000
    ensures var s := HeaderBytes(h) + payload;
      HasHeader(s) && ParseHeader(s).Some?
    ensures var (kind, rate, snr) :=
        (ParseHeader(HeaderBytes(h) + payload).value.kind, h.binding.value.dataRate, h.binding.value.snr);
      && (kind == Frame <==> 0 <= rate < 0x100)
      && (kind == Unset <==> 0x100 <= rate < 0xFF00)
      && (kind == FreqStats <==> (rate == -1 || rate >= 0xFF00) && snr % 0x100 == 1)
      && (kind == Stats <==> (rate == -1 || rate >= 0xFF00) && snr % 0x100 != 1)
  {
    hide HeaderBytes, ParseHeader, HasHeader, HeaderLength, AnnouncesBinding, RightVersion;
    ParseInvertsAssemble(h, payload);
    HighByte(h.binding.value.dataRate);
  }

  lemma HighByte(rate: int)
    requires -1 <= rate < 0x1_0000
    ensures var tag := rate / 0x100 % 0x100;
      (tag == 0 <==> 0 <= rate < 0x100) && (tag == 255 <==> rate == -1 || rate >= 0xFF00)
  {
  }

  /** A frame received at 54 Mbit/s is sent with rate 540, and no kind is set for it. */
  lemma FastFrameUnset(h: HeaderValues, payload: seq<byte>)
    requires h.binding.Some? && h.binding.value.dataRate == 540
    ensures var s := HeaderBytes(h) + payload;
      HasHeader(s) && ParseHeader(s).Some? && ParseHeader(s).value.kind == Unset
  {
    hide HeaderBytes, ParseHeader, HasHeader;
    KindExactly(h, payload);
  }

  // ---------- the header in bytes ----------

  /** The four bytes of a word. */
  lemma BytesOfParts(b0: byte, b1: byte, b2: byte, b3: byte)
    ensures Bytes32(((b0 as int * 0x100 + b1 as int) * 0x100 + b2 as int) * 0x100 + b3 as int) == [b0, b1, b2, b3]
  {
    var high, low := b0 as int * 0x100 + b1 as int, b2 as int * 0x100 + b3 as int;
    var w := high * 0x1_0000 + low;
    assert w == (high * 0x100 + b2 as int) * 0x100 + b3 as int;
    assert w / 0x1_0000 == high;
    LowHalf(w, high, low);
    BytesOfNumber(b0, b1);
    BytesOfNumber(b2, b3);
  }

  /** The first four bytes, as the fields make them. */
  function FirstBytes(h: HeaderValues): (b: seq<byte>)
    ensures |b| == 4
  {
    [if h.payloadType == PACKET_PLAIN then 0 else 1,
     if h.binding.Some? then 4 * 8 else 2 * 8,
     1 * 2 + 1,
     h.isFragment % 2 * 0x80 + h.last % 2 * 0x40 + (if h.binding.Some? then 0x20 else 0)]
  }

  /**
   * The header of section 4.3 of RFC 5415, byte by byte: version 0 and the
   * type; a header length of 2 or 4 words, and radio 0; binding 1 and the T
   * bit; the F, L and W bits, with M, K and the reserved bits clear; the
   * fragment ID; the offset in the upper 13 bits; and behind them the length,
   * RSSI, SNR and data rate of the binding, and padding.
   */
  lemma HeaderLayout(h: HeaderValues)
    ensures HeaderBytes(h)[0..4] == FirstBytes(h)
    ensures HeaderBytes(h)[4..8] == Bytes16(h.fragmentID) + Bytes16(h.fragmentOffset % 0x2000 * 8)
    ensures h.binding.Some? ==>
      var b := h.binding.value;
      && HeaderBytes(h)[8..12] == [6, b.rssi % 0x100, b.snr % 0x100, b.dataRate / 0x100 % 0x100]
      && HeaderBytes(h)[12..16] == [b.dataRate % 0x100, 0, 0, 0]
  {
    hide Bytes16, Bytes32;
    var f := FirstBytes(h);
    BytesOfParts(f[0], f[1], f[2], f[3]);
    SecondBytes(h.fragmentID, h.fragmentOffset % 0x2000 * 8);
    if h.binding.Some? {
      var b := h.binding.value;
      BytesOfParts(6, b.rssi % 0x100, b.snr % 0x100, b.dataRate / 0x100 % 0x100);
      BytesOfParts(b.dataRate % 0x100, 0, 0, 0);
    }
  }

  lemma SecondBytes(id: int, offset: nat)
    requires offset < 0x1_0000
    ensures Bytes32(id % 0x1_0000 * 0x1_0000 + offset) == Bytes16(id) + Bytes16(offset)
  {
    hide Bytes16;
    var low := id % 0x1_0000;
    assert (low * 0x1_0000 + offset) / 0x1_0000 == low;
    LowHalf(low * 0x1_0000 + offset, low, offset);
    LowHalf(id, id / 0x1_0000, low);
  }

  lemma RadioRead(h: HeaderValues)
    ensures GetField32(FirstWord(h), RID_START, RID_LEN) == 0
  {
    hide Pow2;
    FieldPowers();
  }

  lemma BindingIdRead(h: HeaderValues)
    ensures GetField32(FirstWord(h), WBID_START, WBID_LEN) == 1
  {
    hide Pow2;
    FieldPowers();
  }

  lemma LastFlagsRead(h: HeaderValues)
    ensures GetField32(FirstWord(h), M_START, M_LEN) == 0
    ensures GetField32(FirstWord(h), FLAGS_START, FLAGS_LEN) == 0
  {
    hide Pow2;
    FieldPowers();
  }

  lemma ReservedOffsetBits(h: HeaderValues)
    ensures GetField32(SecondWord(h), RESERVED_START, RESERVED_LEN) == 0
  {
    hide Pow2;
    FieldPowers();
  }

  /** Reading back an assembled header finds radio 0, binding 1, and every reserved bit clear. */
  lemma ReservedRead(h: HeaderValues)
    ensures var (v, w) := (FirstWord(h), SecondWord(h));
      && GetField32(v, RID_START, RID_LEN) == 0 && GetField32(v, WBID_START, WBID_LEN) == 1
      && GetField32(v, M_START, M_LEN) == 0 && GetField32(v, FLAGS_START, FLAGS_LEN) == 0
      && GetField32(w, RESERVED_START, RESERVED_LEN) == 0
  {
    hide GetField32, FirstWord, SecondWord;
    RadioRead(h);
    BindingIdRead(h);
    LastFlagsRead(h);
    ReservedOffsetBits(h);
  }

  /** A word put together from its bytes. */
  function WordOf(b0: byte, b1: byte, b2: byte, b3: byte): nat {
    ((b0 as int * 0x100 + b1 as int) * 0x100 + b2 as int) * 0x100 + b3 as int
  }

  lemma WordShifts(b0: byte, b1: byte, b2: byte, b3: byte)
    ensures var w := WordOf(b0, b1, b2, b3);
      && w / 0x100_0000 == b0 as int && w / 0x1_0000 == b0 as int * 0x100 + b1 as int
      && w / 0x100 == (b0 as int * 0x100 + b1 as int) * 0x100 + b2 as int
      && w / 0x1000_0000 == b0 as int / 0x10 && w / 0x8_0000 == (b0 as int * 0x100 + b1 as int) / 8
  {
    var c1 := b0 as int * 0x100 + b1 as int;
    var c2 := c1 * 0x100 + b2 as int;
    var w := c2 * 0x100 + b3 as int;
    LastByte(b0 as int, b1 as int);
    LastByte(c1, b2 as int);
    LastByte(c2, b3 as int);
    QuotientTwice(w, 0x100, 0x100);
    QuotientTwice(w, 0x1_0000, 0x100);
    QuotientTwice(w, 0x100_0000, 0x10);
    QuotientTwice(w, 0x1_0000, 8);
  }

  lemma LayoutOfBytes(b0: byte, b1: byte, b2: byte, b3: byte)
    ensures var w := WordOf(b0, b1, b2, b3);
      && GetField32(w, VERSION_START, VERSION_LEN) == b0 as int / 0x10
      && GetField32(w, TYPE_START, TYPE_LEN) == b0 as int % 0x10
      && GetField32(w, HLEN_START, HLEN_LEN) == b1 as int / 8
      && GetField32(w, T_START, T_LEN) == b2 as int % 2
  {
    hide Pow2, WordOf;
    FieldPowers();
    WordShifts(b0, b1, b2, b3);
  }

  /** A bit of the last byte of a word; c is what stands before that byte. */
  lemma BitOfLastByte(c: nat, b: byte, weight: nat, above: nat)
    requires weight > 0 && weight * above * 2 == 0x100
    ensures (c * 0x100 + b as int) / weight % 2 == b as int / weight % 2
  {
    var q, r := b as int / weight, b as int % weight;
    ShiftedUp(c, weight, above);
    Distributed(2 * (c * above), q, weight);
    DivModUnique(c * 0x100 + b as int, weight, 2 * (c * above) + q, r);
    EvenPlus(c * above, q);
  }

  lemma ShiftedUp(c: nat, weight: nat, above: nat)
    requires weight * above * 2 == 0x100
    ensures c * 0x100 == 2 * (c * above) * weight
  {
  }

  lemma Distributed(a: nat, b: nat, m: nat)
    ensures (a + b) * m == a * m + b * m
  {
  }

  lemma EvenPlus(a: nat, b: nat)
    ensures (2 * a + b) % 2 == b % 2
  {
  }

  lemma FlagsOfBytes(b0: byte, b1: byte, b2: byte, b3: byte)
    ensures var w := WordOf(b0, b1, b2, b3);
      && GetField32(w, F_START, F_LEN) == b3 as int / 0x80
      && GetField32(w, L_START, L_LEN) == b3 as int / 0x40 % 2
      && GetField32(w, W_START, W_LEN) == b3 as int / 0x20 % 2
      && GetField32(w, K_START, K_LEN) == b3 as int / 8 % 2
  {
    hide Pow2;
    FieldPowers();
    var c := (b0 as int * 0x100 + b1 as int) * 0x100 + b2 as int;
    BitOfLastByte(c, b3, 0x80, 1);
    BitOfLastByte(c, b3, 0x40, 2);
    BitOfLastByte(c, b3, 0x20, 4);
    BitOfLastByte(c, b3, 8, 16);
  }

  lemma PositionOfBytes(b0: byte, b1: byte, b2: byte, b3: byte)
    ensures var w := WordOf(b0, b1, b2, b3);
      && GetField32(w, FRAGMENT_ID_START, FRAGMENT_ID_LEN) == b0 as int * 0x100 + b1 as int
      && GetField32(w, FRAGMENT_OFFSET_START, FRAGMENT_OFFSET_LEN) == (b2 as int * 0x100 + b3 as int) / 8
  {
    hide Pow2, WordOf;
    FieldPowers();
    WordShifts(b0, b1, b2, b3);
    OffsetOfBytes(b0, b1, b2, b3);
  }

  lemma OffsetOfBytes(b0: byte, b1: byte, b2: byte, b3: byte)
    ensures WordOf(b0, b1, b2, b3) / 8 % 0x2000 == (b2 as int * 0x100 + b3 as int) / 8
  {
    var high, low := b0 as int * 0x100 + b1 as int, b2 as int * 0x100 + b3 as int;
    DivModUnique(high * 0x1_0000 + low, 8, high * 0x2000 + low / 8, low % 8);
    DivModUnique(high * 0x2000 + low / 8, 0x2000, high, low / 8);
  }

  lemma WordOfBytes(s: seq<byte>, at: nat)
    requires at + 4 <= |s|
    ensures Word32(s, at) == WordOf(s[at], s[at + 1], s[at + 2], s[at + 3])
  {
  }

  /** The bytes announce a wireless binding. */
  predicate BytesAnnounce(s: seq<byte>)
    requires |s| >= HEADER_SIZE
  {
    s[1] / 8 == 4 && s[3] / 0x20 % 2 == 1
  }

  /**
   * Parsing, byte by byte, of any datagram that holds the header it announces.
   * It is accepted exactly with version 0 and a header length of 2 words, or of
   * 4 with the W bit and a binding of 6 bytes; and every field is read from the
   * bits section 4.3 of RFC 5415 gives it, but the low byte of the data rate,
   * which is read from the last byte of the padding.
   */
  lemma ParsedFromBytes(s: seq<byte>)
    requires HasHeader(s)
    ensures (AnnouncesBinding(s) <==> BytesAnnounce(s)) && (RightVersion(s) <==> s[0] < 0x10)
    ensures ParseHeader(s).Some?
      <==> s[0] < 0x10 && (s[1] / 8 == 2 || (BytesAnnounce(s) && |s| >= HEADER_SIZE_BINDING && s[8] == 6))
    ensures ParseHeader(s).Some? ==>
      var h := ParseHeader(s).value;
      && h.payloadType == s[0] as int % 0x10 && h.tType == s[2] as int % 2
      && h.isFragment == s[3] as int / 0x80 && h.last == s[3] as int / 0x40 % 2 && h.keepAlive == s[3] as int / 8 % 2
      && h.fragmentID == s[4] as int * 0x100 + s[5] as int
      && h.fragmentOffset == (s[6] as int * 0x100 + s[7] as int) / 8
    ensures ParseHeader(s).Some? ==>
      if BytesAnnounce(s) then
        && |s| >= HEADER_SIZE_BINDING
        && ParseHeader(s).value.binding
           == Some(BindingValues(s[9] as int, s[10] as int, s[11] as int * 0x100 + s[15] as int))
        && ParseHeader(s).value.kind
           == (if s[11] == 0 then Frame else if s[11] < 255 then Unset else if s[10] == 1 then FreqStats else Stats)
      else ParseHeader(s).value.binding == None && ParseHeader(s).value.kind == Unset
  {
    hide GetField32, Word32;
    WordOfBytes(s, 0);
    WordOfBytes(s, 4);
    LayoutOfBytes(s[0], s[1], s[2], s[3]);
    FlagsOfBytes(s[0], s[1], s[2], s[3]);
    PositionOfBytes(s[4], s[5], s[6], s[7]);
    if AnnouncesBinding(s) {
      WordOfBytes(s, 8);
      WordOfBytes(s, 12);
      ReadByteFields(s[8], s[9], s[10], s[11]);
      ReadByteFields(s[12], s[13], s[14], s[15]);
    }
  }

  /** Parsing reads the header only: what follows a datagram in its buffer is irrelevant. */
  lemma ParseReadsHeaderOnly(s: seq<byte>, n: nat)
    requires n <= |s| && HasHeader(s[..n])
    ensures HasHeader(s) && ParseHeader(s) == ParseHeader(s[..n]) && HeaderLength(s) == HeaderLength(s[..n])
    ensures RightVersion(s) == RightVersion(s[..n]) && AnnouncesBinding(s) == AnnouncesBinding(s[..n])
  {
    PrefixWord(s, n, 0);
    PrefixWord(s, n, 4);
    if AnnouncesBinding(s[..n]) {
      PrefixWord(s, n, 8);
      PrefixWord(s, n, 12);
    }
  }

  lemma PrefixWord(s: seq<byte>, n: nat, at: nat)
    requires at + 4 <= n <= |s|
    ensures Word32(s, at) == Word32(s[..n], at)
  {
  }
}
