/**
 * The firmware update receiver of the WTP (CWVendorPayloadsWTP.c) and the
 * encoding of update messages by the AC (CWVendorPayloadsAC.c).
 */
module Firmware {
  import opened Wire

  const WTP_VERSION_REQUEST := 1
  const WTP_UPDATE_REQUEST := 3
  const WTP_CUP_FRAGMENT := 5
  const WTP_COMMIT_UPDATE := 7
  const WTP_CANCEL_UPDATE_REQUEST := 9

  const WTP_VERSION_MAJOR := 0
  const WTP_VERSION_MINOR := 93
  const WTP_VERSION_REVISION := 2

  const CUP_FRAGMENT_SIZE := 4000
  const VENDOR_SPEC_PAYLOAD_UCI := 1
  const VENDOR_SPEC_PAYLOAD_WUM := 2

  // ---------- messages ----------

  /** CWVendorWumValues; numbers are the unsigned 32-bit members of the struct. */
  datatype WumMessage =
    | VersionRequest
    | UpdateRequest(major: nat, minor: nat, revision: nat, packSize: nat)
    | CupFragment(seqNum: nat, cup: seq<byte>)
    | CommitUpdate
    | CancelUpdateRequest
    | OtherMessage(code: nat)

  function TypeOf(m: WumMessage): nat {
    match m
    case VersionRequest => WTP_VERSION_REQUEST
    case UpdateRequest(_, _, _, _) => WTP_UPDATE_REQUEST
    case CupFragment(_, _) => WTP_CUP_FRAGMENT
    case CommitUpdate => WTP_COMMIT_UPDATE
    case CancelUpdateRequest => WTP_CANCEL_UPDATE_REQUEST
    case OtherMessage(code) => code
  }

  /** The message types the AC can assemble. */
  const KNOWN_TYPES :=
    {WTP_VERSION_REQUEST, WTP_UPDATE_REQUEST, WTP_CUP_FRAGMENT, WTP_COMMIT_UPDATE, WTP_CANCEL_UPDATE_REQUEST}

  /** The members fit their fields, and a type without members is not one that has some. */
  ghost predicate Encodable(m: WumMessage) {
    match m
    case UpdateRequest(major, minor, revision, packSize) =>
      major < 0x100 && minor < 0x100 && revision < 0x100 && packSize < 0x1_0000_0000
    case CupFragment(seqNum, cup) => seqNum < 0x1_0000_0000 && |cup| < 0x8000_0000
    case OtherMessage(code) => code !in KNOWN_TYPES
    case _ => true
  }

  /** The payload type and the message type. */
  function WumHeader(m: WumMessage): (s: seq<byte>)
    ensures |s| == 3
  {
    Bytes16(VENDOR_SPEC_PAYLOAD_WUM) + [TypeOf(m) % 0x100]
  }

  /** CWAssembleWTPVendorPayloadWUM, up to the element header. */
  function WumBytes(m: WumMessage): seq<byte> {
    WumHeader(m)
    + match m
      case UpdateRequest(major, minor, revision, packSize) =>
        [major % 0x100, minor % 0x100, revision % 0x100] + Bytes32(packSize)
      case CupFragment(seqNum, cup) => Bytes32(seqNum) + Bytes32(|cup|) + cup
      case _ => []
  }

  /** CWAssembleWTPVendorPayloadWUM, up to the element header; None is an unknown message type. */
  method AssembleWum(m: WumMessage) returns (msg: Option<ProtocolMessage>)
    requires Encodable(m)
    ensures msg == None <==> m.OtherMessage?
    ensures msg.Some? ==>
      && fresh(msg.value) && fresh(msg.value.msg) && msg.value.Valid()
      && msg.value.Stored() == WumBytes(m) && msg.value.offset == msg.value.msg.Length
  {
    hide WumBytes;
    match m {
      case UpdateRequest(_, _, _, _) =>
        var v := AssembleUpdateRequest(m);
        msg := Some(v);
      case CupFragment(_, _) =>
        var v := AssembleCupFragment(m);
        msg := Some(v);
      case OtherMessage(_) =>
        msg := None;
      case _ =>
        var v := AssembleBare(m);
        msg := Some(v);
    }
  }

  method AssembleUpdateRequest(m: WumMessage) returns (msg: ProtocolMessage)
    requires m.UpdateRequest? && Encodable(m)
    ensures fresh(msg) && fresh(msg.msg) && msg.Valid()
    ensures msg.Stored() == WumBytes(m) && msg.offset == msg.msg.Length
  {
    msg := new ProtocolMessage(2 + 4 + 4);
    StoreType(msg, m);
    msg.Store8(m.major);
    msg.Store8(m.minor);
    msg.Store8(m.revision);
    msg.Store32(m.packSize);
  }

  method AssembleCupFragment(m: WumMessage) returns (msg: ProtocolMessage)
    requires m.CupFragment? && Encodable(m)
    ensures fresh(msg) && fresh(msg.msg) && msg.Valid()
    ensures msg.Stored() == WumBytes(m) && msg.offset == msg.msg.Length
  {
    hide Bytes32, WumHeader;
    msg := new ProtocolMessage(2 + 1 + 2 * 4 + |m.cup|);
    StoreType(msg, m);
    msg.Store32(m.seqNum);
    msg.Store32(|m.cup|);
    msg.StoreRawBytes(m.cup);
    assert WumBytes(m) == WumHeader(m) + Bytes32(m.seqNum) + Bytes32(|m.cup|) + m.cup;
  }

  method AssembleBare(m: WumMessage) returns (msg: ProtocolMessage)
    requires m.VersionRequest? || m.CommitUpdate? || m.CancelUpdateRequest?
    ensures fresh(msg) && fresh(msg.msg) && msg.Valid()
    ensures msg.Stored() == WumBytes(m) && msg.offset == msg.msg.Length
  {
    msg := new ProtocolMessage(2 + 1);
    StoreType(msg, m);
  }

  method StoreType(msg: ProtocolMessage, m: WumMessage)
    requires msg.Valid() && msg.offset == 0 && msg.msg.Length >= 3
    modifies msg`offset, msg.msg
    ensures msg.Valid() && msg.msg == old(msg.msg)
    ensures msg.Stored() == WumHeader(m)
  {
    msg.Store16(VENDOR_SPEC_PAYLOAD_WUM);
    msg.Store8(TypeOf(m));
  }

  /** CWVendorUciValues; a command without arguments has none. */
  datatype UciMessage = UciMessage(command: nat, args: seq<byte>)

  /** CWAssembleWTPVendorPayloadUCI, up to the element header; the arguments are a C string. */
  function UciBytes(u: UciMessage): seq<byte> {
    Bytes16(VENDOR_SPEC_PAYLOAD_UCI) + [u.command % 0x100] + Bytes32(|u.args|) + u.args
  }

  method AssembleUci(u: UciMessage) returns (msg: ProtocolMessage)
    ensures fresh(msg) && fresh(msg.msg) && msg.Valid()
    ensures msg.Stored() == UciBytes(u) && msg.offset == msg.msg.Length
  {
    hide Bytes16, Bytes32;
    msg := new ProtocolMessage(2 + 1 + 4 + |u.args|);
    msg.Store16(VENDOR_SPEC_PAYLOAD_UCI);
    msg.Store8(u.command);
    msg.Store32(|u.args|);
    if u.args != [] {
      msg.StoreRawBytes(u.args);
    }
    assert u.args == [] ==> msg.Stored() + [] == msg.Stored();
  }

  /** What CWParseWUMPayload reads at position `at`. */
  function WumAt(s: seq<byte>, at: nat): Reading<WumMessage> {
    if at + 1 > |s| then Outside
    else
      var code := s[at];
      if code == WTP_UPDATE_REQUEST then
        if at + 8 > |s| then Outside
        else Read(UpdateRequest(s[at + 1], s[at + 2], s[at + 3], Word32(s, at + 4)))
      else if code == WTP_CUP_FRAGMENT then
        if at + 9 > |s| || !Fits(s, at + 9, Word32(s, at + 5)) then Outside
        else Read(CupFragment(Word32(s, at + 1), s[at + 9..at + 9 + Word32(s, at + 5)]))
      else if code == WTP_VERSION_REQUEST then Read(VersionRequest)
      else if code == WTP_COMMIT_UPDATE then Read(CommitUpdate)
      else if code == WTP_CANCEL_UPDATE_REQUEST then Read(CancelUpdateRequest)
      else Read(OtherMessage(code))
  }

  /** A copy of `size` bytes stays in the buffer; a size of 2^31 or more is a negative int. */
  predicate Fits(s: seq<byte>, at: nat, size: nat) {
    size < 0x8000_0000 && at + size <= |s|
  }

  /** What CWParseUCIPayload reads. */
  function UciAt(s: seq<byte>, at: nat): Reading<UciMessage> {
    if at + 5 > |s| || !Fits(s, at + 5, Word32(s, at + 1)) then Outside
    else Read(UciMessage(s[at], s[at + 5..at + 5 + Word32(s, at + 1)]))
  }

  datatype Payload = Uci(u: UciMessage) | WumPayload(m: WumMessage)

  /** What CWParseVendorPayload reads; Malformed is a payload type it does not know. */
  function PayloadAt(s: seq<byte>, at: nat): Reading<Payload> {
    if at + 2 > |s| then Outside
    else if Word16(s, at) == VENDOR_SPEC_PAYLOAD_UCI then
      match UciAt(s, at + 2)
      case Read(u) => Read(Uci(u))
      case Malformed => Malformed
      case Outside => Outside
    else if Word16(s, at) == VENDOR_SPEC_PAYLOAD_WUM then
      match WumAt(s, at + 2)
      case Read(m) => Read(WumPayload(m))
      case Malformed => Malformed
      case Outside => Outside
    else Malformed
  }

  /** CWParseUCIPayload */
  method ParseUci(msg: ProtocolMessage) returns (r: Reading<UciMessage>)
    modifies msg`offset
    ensures r == UciAt(msg.msg[..], old(msg.offset))
  {
    hide Word32;
    if msg.offset + 5 > msg.msg.Length {
      return Outside;
    }
    var command := msg.Retrieve8();
    var argsLen := msg.Retrieve32();
    if !Fits(msg.msg[..], msg.offset, argsLen) {
      return Outside;
    }
    if argsLen == 0 {
      assert msg.msg[..][msg.offset..msg.offset] == [];
      return Read(UciMessage(command, []));
    }
    var args := msg.RetrieveRawBytes(argsLen);
    r := Read(UciMessage(command, args));
  }

  /** CWParseWUMPayload */
  method ParseWum(msg: ProtocolMessage) returns (r: Reading<WumMessage>)
    modifies msg`offset
    ensures r == WumAt(msg.msg[..], old(msg.offset))
  {
    hide Word32;
    if msg.offset + 1 > msg.msg.Length {
      return Outside;
    }
    var code := msg.Retrieve8();
    if code == WTP_UPDATE_REQUEST {
      if msg.offset + 7 > msg.msg.Length {
        return Outside;
      }
      var major := msg.Retrieve8();
      var minor := msg.Retrieve8();
      var revision := msg.Retrieve8();
      var packSize := msg.Retrieve32();
      return Read(UpdateRequest(major, minor, revision, packSize));
    }
    if code == WTP_CUP_FRAGMENT {
      if msg.offset + 8 > msg.msg.Length {
        return Outside;
      }
      var seqNum := msg.Retrieve32();
      var size := msg.Retrieve32();
      if !Fits(msg.msg[..], msg.offset, size) {
        return Outside;
      }
      var cup := msg.RetrieveRawBytes(size);
      return Read(CupFragment(seqNum, cup));
    }
    r := Read(
      if code == WTP_VERSION_REQUEST then VersionRequest
      else if code == WTP_COMMIT_UPDATE then CommitUpdate
      else if code == WTP_CANCEL_UPDATE_REQUEST then CancelUpdateRequest
      else OtherMessage(code));
  }

  /** CWParseVendorPayload */
  method ParseVendorPayload(msg: ProtocolMessage) returns (r: Reading<Payload>)
    modifies msg`offset
    ensures r == PayloadAt(msg.msg[..], old(msg.offset))
  {
    hide WumAt, UciAt, Word16;
    if msg.offset + 2 > msg.msg.Length {
      return Outside;
    }
    var payloadType := msg.Retrieve16();
    if payloadType == VENDOR_SPEC_PAYLOAD_UCI {
      var uci := ParseUci(msg);
      return match uci case Read(u) => Read(Uci(u)) case Malformed => Malformed case Outside => Outside;
    }
    if payloadType == VENDOR_SPEC_PAYLOAD_WUM {
      var wum := ParseWum(msg);
      return match wum case Read(m) => Read(WumPayload(m)) case Malformed => Malformed case Outside => Outside;
    }
    r := Malformed;
  }

  /** Parsing inverts assembling, wherever the payload lies. */
  lemma WumRoundTrip(s: seq<byte>, at: nat, m: WumMessage)
    requires Encodable(m) && !m.OtherMessage?
    requires at + |WumBytes(m)| <= |s| && s[at..at + |WumBytes(m)|] == WumBytes(m)
    ensures PayloadAt(s, at) == Read(WumPayload(m))
  {
    hide Word32, Bytes32;
    var b := WumBytes(m);
    SubSlice(s, at, b, 0, 2);
    SubSlice(s, at, b, 2, 3);
    assert b[0..2] == Bytes16(VENDOR_SPEC_PAYLOAD_WUM) && b[2..3] == [TypeOf(m) % 0x100];
    Word16OfBytes16(s, at, VENDOR_SPEC_PAYLOAD_WUM);
    assert s[at + 2] == s[at + 2..at + 3][0] == TypeOf(m);
    match m {
      case UpdateRequest(_, _, _, _) => UpdateRoundTrip(s, at, m);
      case CupFragment(_, _) => FragmentRoundTrip(s, at, m);
      case _ =>
    }
  }

  lemma UpdateRoundTrip(s: seq<byte>, at: nat, m: WumMessage)
    requires m.UpdateRequest? && Encodable(m)
    requires at + |WumBytes(m)| <= |s| && s[at..at + |WumBytes(m)|] == WumBytes(m)
    requires s[at + 2] == WTP_UPDATE_REQUEST
    ensures WumAt(s, at + 2) == Read(m)
  {
    hide Bytes32, Word32, WumHeader;
    var b := WumBytes(m);
    SubSlice(s, at, b, 3, 6);
    SubSlice(s, at, b, 6, 10);
    assert b[3..6] == [m.major % 0x100, m.minor % 0x100, m.revision % 0x100] && b[6..10] == Bytes32(m.packSize);
    Word32OfBytes32(s, at + 6, m.packSize);
    var v := s[at + 3..at + 6];
    assert s[at + 3] == v[0] && s[at + 4] == v[1] && s[at + 5] == v[2];
  }

  /** Where the parts of an encoded chunk lie. */
  lemma FragmentLayout(m: WumMessage)
    requires m.CupFragment?
    ensures var b := WumBytes(m);
      && |b| == 11 + |m.cup|
      && b[3..7] == Bytes32(m.seqNum) && b[7..11] == Bytes32(|m.cup|) && b[11..|b|] == m.cup
  {
    hide Bytes32, WumHeader;
    var head, sizes := WumHeader(m), Bytes32(m.seqNum) + Bytes32(|m.cup|);
    assert WumBytes(m) == head + (sizes + m.cup);
    assert sizes[0..4] == Bytes32(m.seqNum) && sizes[4..8] == Bytes32(|m.cup|);
  }

  lemma FragmentRoundTrip(s: seq<byte>, at: nat, m: WumMessage)
    requires m.CupFragment? && Encodable(m)
    requires at + |WumBytes(m)| <= |s| && s[at..at + |WumBytes(m)|] == WumBytes(m)
    requires s[at + 2] == WTP_CUP_FRAGMENT
    ensures WumAt(s, at + 2) == Read(m)
  {
    hide WumBytes, Bytes32, Word32;
    var b := WumBytes(m);
    FragmentLayout(m);
    SubSlice(s, at, b, 3, 7);
    SubSlice(s, at, b, 7, 11);
    SubSlice(s, at, b, 11, |b|);
    Word32OfBytes32(s, at + 3, m.seqNum);
    Word32OfBytes32(s, at + 7, |m.cup|);
  }

  /** The same for UCI commands. */
  lemma UciRoundTrip(s: seq<byte>, at: nat, u: UciMessage)
    requires u.command < 0x100 && |u.args| < 0x8000_0000
    requires at + |UciBytes(u)| <= |s| && s[at..at + |UciBytes(u)|] == UciBytes(u)
    ensures PayloadAt(s, at) == Read(Uci(u))
  {
    hide Bytes16, Bytes32, Word16, Word32;
    var b := UciBytes(u);
    SubSlice(s, at, b, 0, 2);
    SubSlice(s, at, b, 2, 3);
    SubSlice(s, at, b, 3, 7);
    SubSlice(s, at, b, 7, |b|);
    assert b[0..2] == Bytes16(VENDOR_SPEC_PAYLOAD_UCI) && b[2..3] == [u.command % 0x100];
    assert b[3..7] == Bytes32(|u.args|) && b[7..|b|] == u.args;
    Word16OfBytes16(s, at, VENDOR_SPEC_PAYLOAD_UCI);
    Word32OfBytes32(s, at + 3, |u.args|);
    assert s[at + 2] == s[at + 2..at + 3][0];
  }

  /** The buffer holds these bytes at this place. */
  predicate HoldsAt(s: seq<byte>, at: nat, b: seq<byte>) {
    at + |b| <= |s| && s[at..at + |b|] == b
  }

  /**
   * Exactly what is read as an update message: its encoding, at that place in
   * the buffer; the type of a message without members may also be unknown.
   */
  lemma WumExactly(s: seq<byte>, at: nat, m: WumMessage)
    ensures PayloadAt(s, at) == Read(WumPayload(m))
      <==> Encodable(m) && TypeOf(m) < 0x100 && HoldsAt(s, at, WumBytes(m))
  {
    hide Word32, Bytes32, WumBytes, Encodable;
    if Encodable(m) && TypeOf(m) < 0x100 && HoldsAt(s, at, WumBytes(m)) {
      if m.OtherMessage? {
        OtherRead(s, at, m);
      } else {
        WumRoundTrip(s, at, m);
      }
    }
    if PayloadAt(s, at) == Read(WumPayload(m)) {
      WumOfRead(s, at, m);
    }
  }

  lemma OtherRead(s: seq<byte>, at: nat, m: WumMessage)
    requires m.OtherMessage? && Encodable(m) && m.code < 0x100 && HoldsAt(s, at, WumBytes(m))
    ensures PayloadAt(s, at) == Read(WumPayload(m))
  {
    hide Bytes16, Word16;
    var b := WumBytes(m);
    assert b == WumHeader(m) && b[0..2] == Bytes16(VENDOR_SPEC_PAYLOAD_WUM) && b[2..3] == [m.code];
    SubSlice(s, at, b, 0, 2);
    SubSlice(s, at, b, 2, 3);
    Word16OfBytes16(s, at, VENDOR_SPEC_PAYLOAD_WUM);
    assert s[at + 2] == s[at + 2..at + 3][0];
  }

  lemma WumOfRead(s: seq<byte>, at: nat, m: WumMessage)
    requires PayloadAt(s, at) == Read(WumPayload(m))
    ensures Encodable(m) && TypeOf(m) < 0x100 && HoldsAt(s, at, WumBytes(m))
  {
    hide Bytes16, Bytes32, Word16, Word32, WumHeader, WumBytes;
    HeaderOfRead(s, at, m);
    match m {
      case UpdateRequest(_, _, _, _) => UpdateOfRead(s, at, m);
      case CupFragment(_, _) => FragmentOfRead(s, at, m);
      case _ => BareBytes(m);
    }
  }

  lemma BareBytes(m: WumMessage)
    requires !m.UpdateRequest? && !m.CupFragment?
    ensures WumBytes(m) == WumHeader(m)
  {
    hide WumHeader;
  }

  lemma HeaderOfRead(s: seq<byte>, at: nat, m: WumMessage)
    requires PayloadAt(s, at) == Read(WumPayload(m))
    ensures at + 3 <= |s| && WumHeader(m) == s[at..at + 3]
  {
    hide Bytes16, Word16, Word32;
    BytesOfWord16(s, at);
    assert s[at + 2..at + 3] == [s[at + 2]];
    Join(s, at, at + 2, at + 3);
  }

  lemma UpdateOfRead(s: seq<byte>, at: nat, m: WumMessage)
    requires m.UpdateRequest? && at + 3 <= |s| && WumAt(s, at + 2) == Read(m) && WumHeader(m) == s[at..at + 3]
    ensures HoldsAt(s, at, WumBytes(m))
  {
    hide Bytes32, Word32, WumHeader;
    BytesOfWord32(s, at + 6);
    assert s[at + 3..at + 6] == [s[at + 3], s[at + 4], s[at + 5]];
    Join(s, at + 3, at + 6, at + 10);
    Join(s, at, at + 3, at + 10);
  }

  lemma FragmentOfRead(s: seq<byte>, at: nat, m: WumMessage)
    requires m.CupFragment? && at + 3 <= |s| && WumAt(s, at + 2) == Read(m) && WumHeader(m) == s[at..at + 3]
    ensures HoldsAt(s, at, WumBytes(m))
  {
    hide Bytes32, Word32, WumHeader;
    var end := at + 11 + |m.cup|;
    BytesOfWord32(s, at + 3);
    BytesOfWord32(s, at + 7);
    Join(s, at + 3, at + 7, at + 11);
    Join(s, at + 3, at + 11, end);
    Join(s, at, at + 3, end);
  }

  /** The same for UCI commands. */
  lemma UciExactly(s: seq<byte>, at: nat, u: UciMessage)
    ensures PayloadAt(s, at) == Read(Uci(u))
      <==> u.command < 0x100 && |u.args| < 0x8000_0000 && HoldsAt(s, at, UciBytes(u))
  {
    hide Bytes16, Bytes32, Word16, Word32;
    if u.command < 0x100 && |u.args| < 0x8000_0000 && HoldsAt(s, at, UciBytes(u)) {
      UciRoundTrip(s, at, u);
    }
    if PayloadAt(s, at) == Read(Uci(u)) {
      BytesOfWord16(s, at);
      BytesOfWord32(s, at + 3);
      assert s[at + 2..at + 3] == [s[at + 2]];
      Join(s, at, at + 2, at + 3);
      Join(s, at, at + 3, at + 7);
      Join(s, at, at + 7, at + 7 + |u.args|);
    }
  }

  /** A payload is refused exactly if its type is neither. */
  lemma RefusedExactly(s: seq<byte>, at: nat)
    ensures PayloadAt(s, at) == Malformed
      <==> at + 2 <= |s| && Word16(s, at) != VENDOR_SPEC_PAYLOAD_UCI && Word16(s, at) != VENDOR_SPEC_PAYLOAD_WUM
  {
    hide Word16, Word32;
  }

  // ---------- the temporary file ----------

  /** fseek and fwrite: a write beyond the end leaves zeros in between. */
  function FileWrite(content: seq<byte>, offset: nat, data: seq<byte>): (r: seq<byte>)
    ensures |r| == if data == [] || offset + |data| <= |content| then |content| else offset + |data|
    ensures forall p :: 0 <= p < |r| ==>
      r[p] == if offset <= p < offset + |data| then data[p - offset] else if p < |content| then content[p] else 0
  {
    if data == [] then content
    else
      seq(if offset + |data| <= |content| then |content| else offset + |data|,
          p requires 0 <= p =>
            if offset <= p < offset + |data| then data[p - offset] else if p < |content| then content[p] else 0)
  }

  // ---------- the state machine ----------

  datatype UpdateState = WAIT | BUSY | READY

  /** struct WUMState; `open` is cupTmp != NULL and `file` the content of the temporary file. */
  datatype Wum = Wum(
    state: UpdateState, open: bool, file: seq<byte>, cupSize: int, totalFragments: int, receivedFragments: int)

  const START := Wum(WAIT, false, [], 0, 0, 0)

  /** What the environment decides: room on the disk, whether file calls succeed, and how much is written. */
  datatype Environment = Environment(freeSpace: bool, opens: bool, seeks: bool, written: nat)

  /** An unsigned 32-bit number assigned to an int. */
  function ToSigned(v: nat): int {
    var w := v % 0x1_0000_0000;
    if w < 0x8000_0000 then w else w - 0x1_0000_0000
  }

  /** The number of chunks of a package: C division truncates toward zero. */
  function TotalFragments(size: int): int {
    if size >= 0 then size / CUP_FRAGMENT_SIZE + (if size % CUP_FRAGMENT_SIZE > 0 then 1 else 0)
    else -(-size / CUP_FRAGMENT_SIZE)
  }

  /** CWWTPCheckVersion */
  predicate NewerVersion(major: nat, minor: nat, revision: nat) {
    major > WTP_VERSION_MAJOR
    || (major == WTP_VERSION_MAJOR
        && (minor > WTP_VERSION_MINOR || (minor == WTP_VERSION_MINOR && revision > WTP_VERSION_REVISION)))
  }

  /** _seq_num_ > total_fragments compares as unsigned numbers. */
  predicate BeyondLast(seqNum: nat, totalFragments: int) {
    seqNum > totalFragments % 0x1_0000_0000
  }

  /** The state and result after one message; true is CW_PROTOCOL_SUCCESS. */
  function Handle(w: Wum, m: WumMessage, env: Environment): (Wum, bool) {
    match m
    case UpdateRequest(major, minor, revision, packSize) =>
      var size := ToSigned(packSize);
      if !NewerVersion(major, minor, revision) || !env.freeSpace || w.state != WAIT || !env.opens then (w, false)
      else (Wum(BUSY, true, [], size, TotalFragments(size), 0), true)
    case CupFragment(seqNum, cup) =>
      var (stored, ok) := Store(w, seqNum, cup, env);
      (if stored.state == BUSY && stored.totalFragments <= stored.receivedFragments
       then stored.(state := READY, open := false) else stored, ok)
    case CommitUpdate => (w, w.state == READY)
    case CancelUpdateRequest =>
      (w.(state := WAIT, open := w.open && w.state != BUSY, file := if w.state == WAIT then w.file else []), true)
    case _ => (w, true)
  }

  /** WUMStoreFragment */
  function Store(w: Wum, seqNum: nat, cup: seq<byte>, env: Environment): (Wum, bool) {
    if w.state != BUSY || BeyondLast(seqNum, w.totalFragments) then (w, false)
    else
      var offset := ToSigned(seqNum * CUP_FRAGMENT_SIZE);
      if !env.seeks || offset < 0 then (w, false)
      else if env.written < |cup| then (w.(file := FileWrite(w.file, offset, cup[..env.written])), false)
      else (w.(file := FileWrite(w.file, offset, cup), receivedFragments := w.receivedFragments + 1), true)
  }

  /** The receiver itself: wumState and the temporary file. */
  class WumReceiver {
    var state: UpdateState
    var open: bool
    var file: seq<byte>
    var cupSize: int
    var totalFragments: int
    var receivedFragments: int

    ghost function View(): Wum
      reads this
    {
      Wum(state, open, file, cupSize, totalFragments, receivedFragments)
    }

    constructor ()
      ensures View() == START
    {
      state, open, file := WAIT, false, [];
      cupSize, totalFragments, receivedFragments := 0, 0, 0;
    }

    /** WUMPrepareForUpdate */
    method PrepareForUpdate(size: int, env: Environment) returns (ok: bool)
      modifies this
      ensures ok == (old(state) == WAIT && env.opens)
      ensures View() == if ok then Wum(BUSY, true, [], size, TotalFragments(size), 0) else old(View())
    {
      if state != WAIT {
        return false;
      }
      if !env.opens {
        return false;
      }
      open, file := true, [];
      cupSize := size;
      totalFragments := TotalFragments(size);
      receivedFragments := 0;
      state := BUSY;
      ok := true;
    }

    /** WUMStoreFragment */
    method StoreFragment(seqNum: nat, cup: seq<byte>, env: Environment) returns (ok: bool)
      modifies this`file, this`receivedFragments
      ensures (View(), ok) == Store(old(View()), seqNum, cup, env)
    {
      if state != BUSY {
        return false;
      }
      if BeyondLast(seqNum, totalFragments) {
        return false;
      }
      var offset := ToSigned(seqNum * CUP_FRAGMENT_SIZE);
      if !env.seeks || offset < 0 {
        return false;
      }
      if env.written < |cup| {
        file := FileWrite(file, offset, cup[..env.written]);
        return false;
      }
      file := FileWrite(file, offset, cup);
      receivedFragments := receivedFragments + 1;
      ok := true;
    }

    /** WUMIsComplete */
    method IsComplete() returns (complete: bool)
      ensures complete == (state == BUSY && totalFragments <= receivedFragments)
    {
      if state != BUSY {
        return false;
      }
      if totalFragments > receivedFragments {
        return false;
      }
      complete := true;
    }

    /** WUMCloseFile */
    method CloseFile()
      modifies this`open, this`state
      ensures !open && state == READY
    {
      open := false;
      state := READY;
    }

    /** CWWTPSaveWUMValues, up to the type of the answer; true is CW_PROTOCOL_SUCCESS. */
    method SaveWumValues(m: WumMessage, env: Environment) returns (ok: bool)
      modifies this
      ensures (View(), ok) == Handle(old(View()), m, env)
    {
      ok := true;
      match m {
        case UpdateRequest(major, minor, revision, packSize) =>
          if !NewerVersion(major, minor, revision) {
            ok := false;
          } else if !env.freeSpace {
            ok := false;
          } else {
            ok := PrepareForUpdate(ToSigned(packSize), env);
          }
        case CupFragment(seqNum, cup) =>
          ok := StoreFragment(seqNum, cup, env);
          var complete := IsComplete();
          if complete {
            CloseFile();
          }
        case CommitUpdate =>
          if state != READY {
            ok := false;
          }
        case CancelUpdateRequest =>
          if state == BUSY {
            CloseFile();
            file := [];
          } else if state == READY {
            file := [];
          }
          state := WAIT;
        case _ =>
      }
    }
  }

  // ---------- over all message sequences ----------

  /** The state after handling messages in order, each in its own environment. */
  function After(w: Wum, ms: seq<WumMessage>, envs: seq<Environment>): Wum
    requires |envs| == |ms|
  {
    if ms == [] then w
    else
      var n := |ms| - 1;
      Handle(After(w, ms[..n], envs[..n]), ms[n], envs[n]).0
  }

  /**
   * The file is open exactly in BUSY; while BUSY, fewer chunks have arrived
   * than are expected exactly when the announced size is positive.
   */
  ghost predicate Consistent(w: Wum) {
    && (w.open <==> w.state == BUSY)
    && (w.state == BUSY ==>
          && w.receivedFragments >= 0 && w.totalFragments == TotalFragments(w.cupSize)
          && (w.receivedFragments < w.totalFragments <==> w.cupSize > 0))
  }

  lemma TotalPositiveExactly(size: int)
    ensures TotalFragments(size) > 0 <==> size > 0
  {
  }

  /** The number of chunks is the least that holds the size, also if that is negative. */
  lemma TotalExactly(size: int)
    ensures (TotalFragments(size) - 1) * CUP_FRAGMENT_SIZE < size <= TotalFragments(size) * CUP_FRAGMENT_SIZE
  {
  }

  /** The version in the request is the newer one exactly if it is the greater when read as one number. */
  lemma NewerExactly(major: byte, minor: byte, revision: byte)
    ensures NewerVersion(major, minor, revision)
      <==> (major as int * 0x100 + minor as int) * 0x100 + revision as int
             > (WTP_VERSION_MAJOR * 0x100 + WTP_VERSION_MINOR) * 0x100 + WTP_VERSION_REVISION
  {
  }

  /** Whatever messages arrive, in whatever environment. */
  lemma {:induction false} AlwaysConsistent(w: Wum, ms: seq<WumMessage>, envs: seq<Environment>)
    requires |envs| == |ms| && Consistent(w)
    ensures Consistent(After(w, ms, envs))
  {
    if ms != [] {
      var n := |ms| - 1;
      AlwaysConsistent(w, ms[..n], envs[..n]);
      HandleKeepsConsistent(After(w, ms[..n], envs[..n]), ms[n], envs[n]);
    }
  }

  lemma HandleKeepsConsistent(w: Wum, m: WumMessage, env: Environment)
    requires Consistent(w)
    ensures Consistent(Handle(w, m, env).0)
  {
    if m.UpdateRequest? {
      TotalPositiveExactly(ToSigned(m.packSize));
    }
  }

  /** An announced size of 0 is accepted, and leaves the receiver BUSY with nothing to wait for. */
  lemma EmptyPackageStaysBusy(w: Wum, env: Environment)
    requires w.state == WAIT && env.freeSpace && env.opens
    ensures var (after, ok) := Handle(w, UpdateRequest(1, 0, 0, 0), env);
      ok && after.state == BUSY && after.receivedFragments == after.totalFragments == 0
  {
  }

  /** READY is left only by a cancel, and until then the file stays as it is. */
  lemma ReadyIsStable(w: Wum, m: WumMessage, env: Environment)
    requires w.state == READY && m != CancelUpdateRequest
    ensures Handle(w, m, env).0 == w
  {
  }

  /** A cancel is always accepted; it closes the file and removes it, and the receiver waits again. */
  lemma CancelStops(w: Wum, env: Environment)
    requires Consistent(w)
    ensures var (after, ok) := Handle(w, CancelUpdateRequest, env);
      && ok && after.state == WAIT && !after.open
      && after.file == (if w.state == WAIT then w.file else [])
  {
  }

  /** A commit succeeds exactly in READY; a version request always; neither changes anything. */
  lemma CommitExactly(w: Wum, env: Environment)
    ensures Handle(w, CommitUpdate, env).1 <==> w.state == READY
    ensures Handle(w, VersionRequest, env).1
    ensures Handle(w, CommitUpdate, env).0 == Handle(w, VersionRequest, env).0 == w
  {
  }

  /** The announcement of a newer package for which there is room and a file. */
  predicate Announces(m: WumMessage, env: Environment) {
    m.UpdateRequest? && NewerVersion(m.major, m.minor, m.revision) && env.freeSpace && env.opens
  }

  /** It succeeds exactly in WAIT, and then the receiver expects its chunks in an empty file; else nothing changes. */
  lemma UpdateExactly(w: Wum, m: WumMessage, env: Environment)
    requires m.UpdateRequest?
    ensures var (after, ok) := Handle(w, m, env);
      && (ok <==> w.state == WAIT && Announces(m, env))
      && (!ok ==> after == w)
      && (ok ==>
            && after.state == BUSY && after.open && after.file == [] && after.receivedFragments == 0
            && after.cupSize == ToSigned(m.packSize) && after.totalFragments == TotalFragments(after.cupSize))
  {
  }

  /**
   * A fragment succeeds exactly in BUSY, if its number is at most that of the
   * chunks (a negative one counts as unsigned), its offset can be sought and
   * all its bytes are written. Then they
   * are in the file and it is counted; a fragment that fails is not counted,
   * and leaves in the file what was written of it, if it got that far.
   */
  lemma FragmentExactly(w: Wum, seqNum: nat, cup: seq<byte>, env: Environment)
    requires -0x8000_0000 <= w.totalFragments < 0x8000_0000
    ensures var (after, ok) := Handle(w, CupFragment(seqNum, cup), env);
      var offset := ToSigned(seqNum * CUP_FRAGMENT_SIZE);
      var last := if w.totalFragments >= 0 then w.totalFragments else w.totalFragments + 0x1_0000_0000;
      var sought := w.state == BUSY && seqNum <= last && env.seeks && offset >= 0;
      && (ok <==> sought && env.written >= |cup|)
      && after.receivedFragments == w.receivedFragments + (if ok then 1 else 0)
      && after.file == (if !sought then w.file
                        else FileWrite(w.file, offset, if ok then cup else cup[..env.written]))
      && after.cupSize == w.cupSize && after.totalFragments == w.totalFragments
      && after.state == if w.state == BUSY && after.receivedFragments >= w.totalFragments then READY else w.state
  {
    hide FileWrite;
  }

  /** With nothing to wait for, any fragment makes the receiver READY, also one that is refused. */
  lemma NothingToWaitFor(w: Wum, seqNum: nat, cup: seq<byte>, env: Environment)
    requires w.state == BUSY && w.totalFragments <= 0 && w.receivedFragments >= 0
    ensures Handle(w, CupFragment(seqNum, cup), env).0.state == READY
  {
    hide FileWrite;
  }

  // ---------- the state, read off the messages ----------

  /** Message i announces a package and no cancel has come since. */
  ghost predicate Open(ms: seq<WumMessage>, envs: seq<Environment>, i: nat)
    requires |envs| == |ms|
  {
    && i < |ms| && Announces(ms[i], envs[i])
    && forall j :: i < j < |ms| ==> !ms[j].CancelUpdateRequest?
  }

  /** The first such announcement: the one the receiver works on. */
  ghost predicate Current(ms: seq<WumMessage>, envs: seq<Environment>, i: nat)
    requires |envs| == |ms|
  {
    Open(ms, envs, i) && forall h: nat :: h < i ==> !Open(ms, envs, h)
  }

  /** A fragment that a receiver expecting `total` chunks stores. */
  predicate Stores(total: int, m: WumMessage, env: Environment) {
    && m.CupFragment? && !BeyondLast(m.seqNum, total)
    && env.seeks && ToSigned(m.seqNum * CUP_FRAGMENT_SIZE) >= 0 && env.written >= |m.cup|
  }

  /** How many fragments behind message i can be stored. */
  function StoredSince(total: int, ms: seq<WumMessage>, envs: seq<Environment>, i: nat): nat
    requires |envs| == |ms|
  {
    if |ms| <= i + 1 then 0
    else
      var n := |ms| - 1;
      StoredSince(total, ms[..n], envs[..n], i) + (if Stores(total, ms[n], envs[n]) then 1 else 0)
  }

  /** What the messages say of the receiver. */
  ghost predicate Told(w: Wum, ms: seq<WumMessage>, envs: seq<Environment>)
    requires |envs| == |ms|
  {
    && (w.state == WAIT <==> forall i: nat :: !Open(ms, envs, i))
    && (w.state == WAIT ==> w.file == [])
    && forall i: nat :: Current(ms, envs, i) ==> Working(w, ms, envs, i)
  }

  ghost predicate Working(w: Wum, ms: seq<WumMessage>, envs: seq<Environment>, i: nat)
    requires |envs| == |ms| && Open(ms, envs, i)
  {
    && w.cupSize == ToSigned(ms[i].packSize) && w.totalFragments == TotalFragments(w.cupSize)
    && (w.cupSize > 0 ==>
          var stored := StoredSince(w.totalFragments, ms, envs, i);
          && w.receivedFragments == (if stored < w.totalFragments then stored else w.totalFragments)
          && w.state == (if stored < w.totalFragments then BUSY else READY))
  }

  /**
   * Over every sequence of messages, in whatever environment, the receiver is
   * where the messages put it: waiting, with no file, exactly if no
   * announcement of a newer package has come since the last cancel; and else
   * at work on the first one, whose size it has, READY exactly if as many
   * fragments as it has chunks could be stored since, if that is positive.
   */
  lemma {:induction false} StateExactly(ms: seq<WumMessage>, envs: seq<Environment>)
    requires |envs| == |ms|
    ensures Told(After(START, ms, envs), ms, envs)
  {
    hide Handle, Told;
    if ms == [] {
      NothingTold(ms, envs);
    } else {
      var n := |ms| - 1;
      StateExactly(ms[..n], envs[..n]);
      AlwaysConsistent(START, ms[..n], envs[..n]);
      ToldStep(After(START, ms[..n], envs[..n]), ms, envs);
    }
  }

  lemma NothingTold(ms: seq<WumMessage>, envs: seq<Environment>)
    requires |envs| == |ms| == 0
    ensures Told(START, ms, envs)
  {
  }

  lemma ToldStep(w: Wum, ms: seq<WumMessage>, envs: seq<Environment>)
    requires |envs| == |ms| > 0 && Consistent(w)
    requires Told(w, ms[..|ms| - 1], envs[..|ms| - 1])
    ensures Told(Handle(w, ms[|ms| - 1], envs[|ms| - 1]).0, ms, envs)
  {
    hide Handle, Announces, TotalFragments, Working, Consistent, StoredSince, Open;
    var n := |ms| - 1;
    var after := Handle(w, ms[n], envs[n]).0;
    StateStep(w, ms[n], envs[n]);
    forall i: nat
      ensures Open(ms[..n], envs[..n], i) ==> i < n
      ensures Open(ms, envs, i) <==>
        if i == n then Announces(ms[n], envs[n]) else Open(ms[..n], envs[..n], i) && !ms[n].CancelUpdateRequest?
    {
      OpenStep(ms, envs, i);
    }
    OpenStep(ms, envs, n);
    assert after.state == WAIT <==> forall i: nat :: !Open(ms, envs, i) by {
      if forall i: nat :: !Open(ms, envs, i) {
        assert !Open(ms, envs, n);
      }
    }
    forall i: nat | Current(ms, envs, i) ensures Working(after, ms, envs, i) {
      if i == n {
        WorkBegins(w, ms, envs);
      } else {
        assert Current(ms[..n], envs[..n], i);
        WorkingStep(w, ms, envs, i);
      }
    }
  }

  /** When a message takes the receiver out of WAIT, and when back. */
  lemma StateStep(w: Wum, m: WumMessage, env: Environment)
    requires Consistent(w)
    ensures var after := Handle(w, m, env).0;
      && (after.state == WAIT <==> m.CancelUpdateRequest? || (w.state == WAIT && !Announces(m, env)))
      && (after.state == WAIT && w.state == WAIT ==> after.file == w.file)
      && (after.state == WAIT && w.state != WAIT ==> after.file == [])
  {
    hide FileWrite;
  }

  /** An announcement that is the first since a cancel. */
  lemma WorkBegins(w: Wum, ms: seq<WumMessage>, envs: seq<Environment>)
    requires |envs| == |ms| > 0 && Current(ms, envs, |ms| - 1)
    requires Told(w, ms[..|ms| - 1], envs[..|ms| - 1])
    ensures Working(Handle(w, ms[|ms| - 1], envs[|ms| - 1]).0, ms, envs, |ms| - 1)
  {
    hide Handle, Announces, Working, Told, Open, TotalFragments;
    var n := |ms| - 1;
    OpenStep(ms, envs, n);
    forall i: nat ensures !Open(ms[..n], envs[..n], i) {
      OpenStep(ms, envs, i);
    }
    WaitsUnlessOpen(w, ms[..n], envs[..n]);
    UpdateExactly(w, ms[n], envs[n]);
    BeginWorking(Handle(w, ms[n], envs[n]).0, ms, envs);
  }

  lemma OpenBelow(ms: seq<WumMessage>, envs: seq<Environment>, i: nat)
    requires |envs| == |ms|
    ensures Open(ms, envs, i) ==> i < |ms| && ms[i].UpdateRequest?
  {
  }

  lemma WaitsUnlessOpen(w: Wum, ms: seq<WumMessage>, envs: seq<Environment>)
    requires |envs| == |ms| && Told(w, ms, envs) && forall i: nat :: !Open(ms, envs, i)
    ensures w.state == WAIT
  {
    hide Open, Working;
  }

  lemma BeginWorking(after: Wum, ms: seq<WumMessage>, envs: seq<Environment>)
    requires |envs| == |ms| > 0 && Open(ms, envs, |ms| - 1)
    requires after.state == BUSY && after.receivedFragments == 0
    requires after.cupSize == ToSigned(ms[|ms| - 1].packSize) && after.totalFragments == TotalFragments(after.cupSize)
    ensures Working(after, ms, envs, |ms| - 1)
  {
    hide Announces, Open;
    TotalPositiveExactly(after.cupSize);
  }

  /** One message of a receiver at work. */
  lemma WorkingStep(w: Wum, ms: seq<WumMessage>, envs: seq<Environment>, i: nat)
    requires |envs| == |ms| > 0 && Open(ms, envs, i) && Open(ms[..|ms| - 1], envs[..|ms| - 1], i)
    requires Working(w, ms[..|ms| - 1], envs[..|ms| - 1], i) && w.state != WAIT && !ms[|ms| - 1].CancelUpdateRequest?
    ensures Working(Handle(w, ms[|ms| - 1], envs[|ms| - 1]).0, ms, envs, i)
  {
    hide Announces, Open, TotalFragments, FileWrite, BeyondLast, ToSigned;
    TotalPositiveExactly(w.cupSize);
    OpenBelow(ms[..|ms| - 1], envs[..|ms| - 1], i);
  }

  lemma OpenStep(ms: seq<WumMessage>, envs: seq<Environment>, i: nat)
    requires |envs| == |ms| > 0
    ensures var n := |ms| - 1;
      && (Announces(ms[n], envs[n]) ==> ms[n].UpdateRequest?)
      && (Open(ms[..n], envs[..n], i) ==> i < n)
      && (Open(ms, envs, i) <==>
            if i == n then Announces(ms[n], envs[n])
            else Open(ms[..n], envs[..n], i) && !ms[n].CancelUpdateRequest?)
  {
    var n := |ms| - 1;
    assert forall j :: 0 <= j < n ==> ms[..n][j] == ms[j];
  }

  // ---------- the package comes together ----------

  function ChunkCount(p: seq<byte>): nat {
    (|p| + CUP_FRAGMENT_SIZE - 1) / CUP_FRAGMENT_SIZE
  }

  /** Chunk k of package p. */
  function Chunk(p: seq<byte>, k: nat): (c: seq<byte>)
    requires k < ChunkCount(p)
    ensures 0 < |c| <= CUP_FRAGMENT_SIZE
  {
    var lo := k * CUP_FRAGMENT_SIZE;
    var hi := if lo + CUP_FRAGMENT_SIZE <= |p| then lo + CUP_FRAGMENT_SIZE else |p|;
    p[lo..hi]
  }

  /** Where chunk k ends in the package; there is nothing behind the last one. */
  function ChunkEnd(p: seq<byte>, k: nat): (end: nat)
    ensures end <= |p|
  {
    var hi := (k + 1) * CUP_FRAGMENT_SIZE;
    if k >= ChunkCount(p) then 0 else if hi <= |p| then hi else |p|
  }

  /** The end of the farthest chunk stored. */
  function Reached(p: seq<byte>, stored: seq<nat>): (end: nat)
    ensures end <= |p|
    ensures forall k :: k in stored ==> ChunkEnd(p, k) <= end
    ensures end > 0 ==> exists k :: k in stored && ChunkEnd(p, k) == end
  {
    if stored == [] then 0
    else
      var n := |stored| - 1;
      var before, last := Reached(p, stored[..n]), ChunkEnd(p, stored[n]);
      assert stored == stored[..n] + [stored[n]];
      if last > before then last else before
  }

  /** The file reaches to the farthest chunk stored; the bytes of stored chunks are in place and all others zero. */
  ghost predicate FileHolds(file: seq<byte>, p: seq<byte>, stored: seq<nat>) {
    && |file| == Reached(p, stored)
    && forall pos: nat :: pos < |file| ==> file[pos] == ByteHeld(p, stored, pos)
  }

  function ByteHeld(p: seq<byte>, stored: seq<nat>, pos: nat): byte
    requires pos < |p|
  {
    if pos / CUP_FRAGMENT_SIZE in stored then p[pos] else 0
  }

  lemma WriteChunk(file: seq<byte>, p: seq<byte>, stored: seq<nat>, k: nat)
    requires FileHolds(file, p, stored) && k < ChunkCount(p)
    ensures FileHolds(FileWrite(file, k * CUP_FRAGMENT_SIZE, Chunk(p, k)), p, stored + [k])
  {
    hide ByteHeld, Reached, ChunkEnd;
    var after := FileWrite(file, k * CUP_FRAGMENT_SIZE, Chunk(p, k));
    WriteReaches(file, p, stored, k);
    forall pos: nat | pos < |after| ensures after[pos] == ByteHeld(p, stored + [k], pos) {
      WriteByte(file, p, stored, k, pos);
    }
  }

  lemma WriteReaches(file: seq<byte>, p: seq<byte>, stored: seq<nat>, k: nat)
    requires |file| == Reached(p, stored) && k < ChunkCount(p)
    ensures |FileWrite(file, k * CUP_FRAGMENT_SIZE, Chunk(p, k))| == Reached(p, stored + [k])
    ensures k * CUP_FRAGMENT_SIZE + |Chunk(p, k)| == ChunkEnd(p, k)
  {
    assert (stored + [k])[..|stored|] == stored;
  }

  lemma WriteByte(file: seq<byte>, p: seq<byte>, stored: seq<nat>, k: nat, pos: nat)
    requires FileHolds(file, p, stored) && k < ChunkCount(p)
    requires pos < |FileWrite(file, k * CUP_FRAGMENT_SIZE, Chunk(p, k))| <= |p|
    ensures FileWrite(file, k * CUP_FRAGMENT_SIZE, Chunk(p, k))[pos] == ByteHeld(p, stored + [k], pos)
  {
    hide FileWrite, Reached;
    var q := pos / CUP_FRAGMENT_SIZE;
    if q == k {
      assert Chunk(p, k)[pos - k * CUP_FRAGMENT_SIZE] == p[pos];
      assert q in stored + [k];
    } else {
      assert q in stored + [k] <==> q in stored;
    }
  }

  /** Nothing written behind the last chunk changes nothing. */
  lemma WriteNothing(file: seq<byte>, p: seq<byte>, stored: seq<nat>)
    requires FileHolds(file, p, stored)
    ensures FileHolds(file, p, stored + [ChunkCount(p)])
  {
    hide FileWrite;
    var more := stored + [ChunkCount(p)];
    assert more[..|stored|] == stored;
    forall pos: nat | pos < |file| ensures file[pos] == ByteHeld(p, more, pos) {
      assert pos / CUP_FRAGMENT_SIZE in more <==> pos / CUP_FRAGMENT_SIZE in stored;
    }
  }

  /** Every byte of chunk k is zero. */
  ghost predicate ZeroChunk(p: seq<byte>, k: nat) {
    forall pos: nat :: pos < |p| && pos / CUP_FRAGMENT_SIZE == k ==> p[pos] == 0
  }

  /** A file holding some chunks is the package exactly when the last one is among them and the missing are zero. */
  lemma WholeFileExactly(file: seq<byte>, p: seq<byte>, stored: seq<nat>)
    requires FileHolds(file, p, stored) && p != []
    ensures file == p <==> ChunkCount(p) - 1 in stored && GapsAreZero(p, stored)
  {
    hide Reached;
    var last := ChunkCount(p) - 1;
    assert ChunkEnd(p, last) == |p|;
    if file == p {
      var k :| k in stored && ChunkEnd(p, k) == |p|;
      assert k == last;
      forall k: nat, pos: nat | k < ChunkCount(p) && k !in stored && pos < |p| && pos / CUP_FRAGMENT_SIZE == k
        ensures p[pos] == 0
      {
        assert file[pos] == ByteHeld(p, stored, pos);
      }
    }
    if last in stored && GapsAreZero(p, stored) {
      forall pos: nat | pos < |p| ensures file[pos] == p[pos] {
        var k := pos / CUP_FRAGMENT_SIZE;
        assert k < ChunkCount(p);
        if k !in stored {
          assert ZeroChunk(p, k);
        }
      }
    }
  }

  ghost predicate GapsAreZero(p: seq<byte>, stored: seq<nat>) {
    forall k: nat :: k < ChunkCount(p) && k !in stored ==> ZeroChunk(p, k)
  }

  // ---------- arrivals ----------

  /**
   * A message the AC can send but a cancel; a fragment carries chunk k of p if
   * its number is that of a chunk, and any bytes otherwise.
   */
  ghost predicate Plausible(p: seq<byte>, m: WumMessage) {
    && Encodable(m) && !m.OtherMessage? && !m.CancelUpdateRequest?
    && (m.CupFragment? && m.seqNum < ChunkCount(p) ==> m.cup == Chunk(p, m.seqNum))
  }

  ghost predicate AllPlausible(p: seq<byte>, ms: seq<WumMessage>) {
    forall j :: 0 <= j < |ms| ==> Plausible(p, ms[j])
  }

  /**
   * The numbers a receiver of p counts: those of the chunks, and the one after
   * the last, which the range test lets through, unless its offset is negative.
   */
  predicate InRange(p: seq<byte>, m: WumMessage) {
    m.CupFragment? && m.seqNum <= ChunkCount(p) && m.seqNum * CUP_FRAGMENT_SIZE < 0x8000_0000
  }

  /** The arrivals in range, up to as many as p has chunks. */
  function Counted(p: seq<byte>, ms: seq<WumMessage>): (r: seq<WumMessage>)
    ensures |r| <= ChunkCount(p)
  {
    if ms == [] then []
    else
      var n := |ms| - 1;
      var before := Counted(p, ms[..n]);
      if |before| < ChunkCount(p) && InRange(p, ms[n]) then before + [ms[n]] else before
  }

  /** The numbers of fragments. */
  function Numbers(ms: seq<WumMessage>): (r: seq<nat>)
    ensures |r| == |ms|
  {
    seq(|ms|, j requires 0 <= j < |ms| => if ms[j].CupFragment? then ms[j].seqNum else 0)
  }

  /** Bytes stored behind the last chunk. */
  predicate LiesBehind(p: seq<byte>, m: WumMessage) {
    m.CupFragment? && m.seqNum >= ChunkCount(p) && m.cup != []
  }

  predicate NoneBehind(p: seq<byte>, ms: seq<WumMessage>) {
    forall j :: 0 <= j < |ms| ==> !LiesBehind(p, ms[j])
  }

  /** The file after the arrivals counted: their chunks, or longer than the package. */
  ghost predicate FileAfter(file: seq<byte>, p: seq<byte>, counted: seq<WumMessage>) {
    if NoneBehind(p, counted) then FileHolds(file, p, Numbers(counted)) else |file| > |p|
  }

  lemma StoreStep(file: seq<byte>, p: seq<byte>, counted: seq<WumMessage>, m: WumMessage)
    requires FileAfter(file, p, counted) && Plausible(p, m) && m.CupFragment? && m.seqNum <= ChunkCount(p)
    ensures FileAfter(FileWrite(file, m.seqNum * CUP_FRAGMENT_SIZE, m.cup), p, counted + [m])
  {
    hide FileHolds, Chunk;
    var all := counted + [m];
    assert Numbers(all) == Numbers(counted) + [m.seqNum];
    assert NoneBehind(p, all) <==> NoneBehind(p, counted) && !LiesBehind(p, m) by {
      assert all[|counted|] == m;
      assert forall j :: 0 <= j < |counted| ==> all[j] == counted[j];
    }
    if NoneBehind(p, counted) {
      if m.seqNum < ChunkCount(p) {
        WriteChunk(file, p, Numbers(counted), m.seqNum);
      } else if m.cup == [] {
        WriteNothing(file, p, Numbers(counted));
      }
    }
  }

  /** A file that is the package: exactly when nothing lies behind, the last chunk is there and the gaps are zero. */
  lemma WholeAfterExactly(file: seq<byte>, p: seq<byte>, counted: seq<WumMessage>)
    requires FileAfter(file, p, counted) && p != []
    ensures file == p <==>
      && NoneBehind(p, counted)
      && ChunkCount(p) - 1 in Numbers(counted) && GapsAreZero(p, Numbers(counted))
  {
    hide FileHolds, GapsAreZero;
    if NoneBehind(p, counted) {
      WholeFileExactly(file, p, Numbers(counted));
    }
  }

  /** File calls succeed for the message. */
  predicate Serves(env: Environment, m: WumMessage) {
    env.seeks && (m.CupFragment? ==> env.written >= |m.cup|)
  }

  ghost predicate AllServed(envs: seq<Environment>, ms: seq<WumMessage>) {
    |envs| == |ms| && forall j :: 0 <= j < |ms| ==> Serves(envs[j], ms[j])
  }

  /** The receiver of p once `counted` have been counted. */
  ghost predicate Gathered(w: Wum, p: seq<byte>, counted: seq<WumMessage>) {
    && FileAfter(w.file, p, counted)
    && w.cupSize == |p| && w.totalFragments == ChunkCount(p) && w.receivedFragments == |counted|
    && w.state == (if |counted| == ChunkCount(p) then READY else BUSY)
    && w.open == (w.state == BUSY)
  }

  /** One arrival. */
  lemma ArrivalHandled(w: Wum, p: seq<byte>, counted: seq<WumMessage>, m: WumMessage, env: Environment)
    requires 0 < |p| < 0x8000_0000 && |counted| <= ChunkCount(p)
    requires Gathered(w, p, counted) && Plausible(p, m) && Serves(env, m)
    ensures Gathered(
      Handle(w, m, env).0, p, if |counted| < ChunkCount(p) && InRange(p, m) then counted + [m] else counted)
  {
    hide FileWrite, FileAfter, Chunk;
    if |counted| < ChunkCount(p) && InRange(p, m) {
      StoreStep(w.file, p, counted, m);
    }
  }

  /** The receiver of p after any arrivals: waiting for more, or READY once as many were counted as p has chunks. */
  lemma {:induction false} ChunksGather(w: Wum, p: seq<byte>, ms: seq<WumMessage>, envs: seq<Environment>)
    requires 0 < |p| < 0x8000_0000 && AllPlausible(p, ms) && AllServed(envs, ms)
    requires w == Wum(BUSY, true, [], |p|, ChunkCount(p), 0)
    ensures Gathered(After(w, ms, envs), p, Counted(p, ms))
  {
    hide Handle, Chunk, Plausible, InRange;
    if ms != [] {
      var n := |ms| - 1;
      ChunksGather(w, p, ms[..n], envs[..n]);
      ArrivalHandled(After(w, ms[..n], envs[..n]), p, Counted(p, ms[..n]), ms[n], envs[n]);
    }
  }

  lemma Announced(w: Wum, p: seq<byte>, major: nat, minor: nat, revision: nat, env: Environment)
    requires 0 < |p| < 0x8000_0000 && w.state == WAIT && NewerVersion(major, minor, revision)
    requires env.freeSpace && env.opens
    ensures Handle(w, UpdateRequest(major, minor, revision, |p|), env)
         == (Wum(BUSY, true, [], |p|, ChunkCount(p), 0), true)
  {
  }

  // ---------- what READY means ----------

  /** The numbers below n. */
  ghost function Below(n: nat): (r: set<nat>)
    ensures forall k: nat :: k in r <==> k < n
    ensures |r| == n
  {
    if n == 0 then {} else Below(n - 1) + {n - 1}
  }

  ghost predicate NoRepeat(order: seq<nat>) {
    forall j, k :: 0 <= j < k < |order| ==> order[j] != order[k]
  }

  /** Each of n chunk numbers occurs exactly once. */
  ghost predicate EachOnce(order: seq<nat>, n: nat) {
    |order| == n && (forall j :: 0 <= j < n ==> order[j] < n) && NoRepeat(order)
  }

  /** The bytes the AC sends. */
  function Wires(ms: seq<WumMessage>): (ws: seq<seq<byte>>)
    ensures |ws| == |ms|
  {
    seq(|ms|, j requires 0 <= j < |ms| => WumBytes(ms[j]))
  }

  /** What the receiver parses from what was sent. */
  function Parsed(ws: seq<seq<byte>>): (ms: seq<WumMessage>)
    requires forall j :: 0 <= j < |ws| ==> CarriesWum(ws[j])
    ensures |ms| == |ws|
  {
    seq(|ws|, j requires 0 <= j < |ws| && CarriesWum(ws[j]) => PayloadAt(ws[j], 0).value.m)
  }

  /** The receiver finds an update message in the bytes. */
  predicate CarriesWum(w: seq<byte>) {
    PayloadAt(w, 0).Read? && PayloadAt(w, 0).value.WumPayload?
  }

  /** The messages survive encoding and decoding. */
  lemma MessagesArrive(p: seq<byte>, ms: seq<WumMessage>)
    requires AllPlausible(p, ms)
    ensures forall j :: 0 <= j < |ms| ==> CarriesWum(Wires(ms)[j])
    ensures Parsed(Wires(ms)) == ms
  {
    hide WumBytes, PayloadAt, Chunk;
    var ws := Wires(ms);
    forall j | 0 <= j < |ms| ensures CarriesWum(ws[j]) && PayloadAt(ws[j], 0).value.m == ms[j] {
      assert Plausible(p, ms[j]);
      assert ws[j][0..|ws[j]|] == ws[j];
      WumRoundTrip(ws[j], 0, ms[j]);
    }
  }

  /**
   * What READY means. Announce any package of n > 0 bytes to a waiting
   * receiver and let any messages but a cancel arrive, each encoded by the AC
   * and decoded, while file calls succeed: chunks in any order and any number
   * of times, any bytes under other numbers, and whatever else. The receiver is READY exactly when n
   * arrivals in range were counted, and BUSY before. The file is the package
   * exactly when nothing was stored behind it, its last chunk was stored and
   * the chunks not stored are all zeros. In READY every chunk was stored
   * exactly when no number was counted twice and none that is of no chunk.
   */
  lemma ReadyExactly(
    w: Wum, p: seq<byte>, major: nat, minor: nat, revision: nat, first: Environment,
    ms: seq<WumMessage>, envs: seq<Environment>)
    requires 0 < |p| < 0x8000_0000 && w.state == WAIT && NewerVersion(major, minor, revision)
    requires first.freeSpace && first.opens && AllPlausible(p, ms) && AllServed(envs, ms)
    ensures forall j :: 0 <= j < |ms| ==> CarriesWum(Wires(ms)[j])
    ensures var (busy, accepted) := Handle(w, UpdateRequest(major, minor, revision, |p|), first);
      var after := After(busy, Parsed(Wires(ms)), envs);
      var (n, counted) := (ChunkCount(p), Counted(p, ms));
      && accepted
      && after.state == (if |counted| == n then READY else BUSY)
      && (after.file == p <==> NoneBehind(p, counted) && n - 1 in Numbers(counted) && GapsAreZero(p, Numbers(counted)))
      && (after.state == READY ==>
            ((forall k: nat :: k in Below(n) ==> k in Numbers(counted))
             <==> NoRepeat(Numbers(counted)) && n !in Numbers(counted)))
  {
    hide Handle, After, PayloadAt, Chunk, FileAfter, GapsAreZero, NoRepeat, NoneBehind, Numbers, Counted, AllPlausible;
    Announced(w, p, major, minor, revision, first);
    MessagesArrive(p, ms);
    var busy := Handle(w, UpdateRequest(major, minor, revision, |p|), first).0;
    ChunksGather(busy, p, ms, envs);
    var counted := Counted(p, ms);
    WholeAfterExactly(After(busy, ms, envs).file, p, counted);
    if |counted| == ChunkCount(p) {
      forall j | 0 <= j < |counted| ensures Numbers(counted)[j] <= ChunkCount(p) {
        CountedInRange(p, ms, j);
      }
      AllStoredExactly(Numbers(counted), ChunkCount(p));
    }
  }

  lemma {:induction false} CountedInRange(p: seq<byte>, ms: seq<WumMessage>, j: nat)
    requires j < |Counted(p, ms)|
    ensures InRange(p, Counted(p, ms)[j]) && Numbers(Counted(p, ms))[j] <= ChunkCount(p)
  {
    var n := |ms| - 1;
    if j < |Counted(p, ms[..n])| {
      CountedInRange(p, ms[..n], j);
    }
  }

  /** The chunks of p in the given order. */
  function Chunks(p: seq<byte>, order: seq<nat>): (ms: seq<WumMessage>)
    requires forall j :: 0 <= j < |order| ==> order[j] < ChunkCount(p)
    ensures |ms| == |order|
  {
    seq(|order|, j requires 0 <= j < |order| => CupFragment(order[j], Chunk(p, order[j])))
  }

  /** The AC's chunks are plausible, and all of them are counted. */
  lemma ChunksCounted(p: seq<byte>, order: seq<nat>)
    requires |p| < 0x8000_0000 && |order| <= ChunkCount(p)
    requires forall j :: 0 <= j < |order| ==> order[j] < ChunkCount(p)
    ensures var ms := Chunks(p, order);
      && AllPlausible(p, ms) && Counted(p, ms) == ms
      && Numbers(ms) == order && NoneBehind(p, ms)
  {
    hide Chunk, Counted;
    var ms := Chunks(p, order);
    forall j | 0 <= j < |ms| ensures InRange(p, ms[j]) {
      ChunkStart(p, order[j]);
    }
    AllCounted(p, ms);
  }

  lemma ChunkStart(p: seq<byte>, k: nat)
    requires k < ChunkCount(p)
    ensures k * CUP_FRAGMENT_SIZE < |p|
  {
  }

  lemma {:induction false} AllCounted(p: seq<byte>, ms: seq<WumMessage>)
    requires |ms| <= ChunkCount(p) && forall j :: 0 <= j < |ms| ==> InRange(p, ms[j])
    ensures Counted(p, ms) == ms
  {
    hide InRange;
    if ms != [] {
      AllCounted(p, ms[..|ms| - 1]);
    }
  }

  /**
   * Firmware assembly. Any package whose chunks are each stored once, in any
   * order, leaves READY at the last one with the file holding it byte for byte.
   */
  lemma PackageAssembled(
    w: Wum, p: seq<byte>, major: nat, minor: nat, revision: nat, first: Environment,
    order: seq<nat>, envs: seq<Environment>)
    requires 0 < |p| < 0x8000_0000 && w.state == WAIT && NewerVersion(major, minor, revision)
    requires first.freeSpace && first.opens
    requires EachOnce(order, ChunkCount(p)) && AllServed(envs, Chunks(p, order))
    ensures forall j :: 0 <= j < |order| ==> CarriesWum(Wires(Chunks(p, order))[j])
    ensures var (busy, accepted) := Handle(w, UpdateRequest(major, minor, revision, |p|), first);
      var ms := Parsed(Wires(Chunks(p, order)));
      && accepted
      && (forall j :: 0 <= j < |order| ==> After(busy, ms[..j], envs[..j]).state == BUSY)
      && After(busy, ms, envs).state == READY
      && After(busy, ms, envs).file == p
  {
    hide Handle, After, PayloadAt, NoRepeat, ZeroChunk, Counted, Numbers, NoneBehind, Chunk, Plausible;
    var ms := Chunks(p, order);
    ChunksCounted(p, order);
    ReadyExactly(w, p, major, minor, revision, first, ms, envs);
    MessagesArrive(p, ms);
    assert ChunkCount(p) - 1 in Below(ChunkCount(p));
    AllStoredExactly(order, ChunkCount(p));
    forall j | 0 <= j < |order|
      ensures After(Handle(w, UpdateRequest(major, minor, revision, |p|), first).0, ms[..j], envs[..j]).state == BUSY
    {
      assert ms[..j] == Chunks(p, order[..j]);
      ChunksCounted(p, order[..j]);
      Announced(w, p, major, minor, revision, first);
      ChunksGather(Wum(BUSY, true, [], |p|, ChunkCount(p), 0), p, ms[..j], envs[..j]);
    }
  }

  /**
   * A cancel makes room for the next package. Whatever has been received
   * before, in whatever environment: after a cancel any newer package is
   * accepted and, its chunks stored once each in any order, is what the file
   * of the READY receiver holds.
   */
  lemma CancelRestarts(
    ms: seq<WumMessage>, before: seq<Environment>, cancel: Environment,
    p: seq<byte>, major: nat, minor: nat, revision: nat, first: Environment,
    order: seq<nat>, envs: seq<Environment>)
    requires |before| == |ms|
    requires 0 < |p| < 0x8000_0000 && NewerVersion(major, minor, revision) && first.freeSpace && first.opens
    requires EachOnce(order, ChunkCount(p)) && AllServed(envs, Chunks(p, order))
    ensures forall j :: 0 <= j < |order| ==> CarriesWum(Wires(Chunks(p, order))[j])
    ensures var waiting := Handle(After(START, ms, before), CancelUpdateRequest, cancel).0;
      var (busy, accepted) := Handle(waiting, UpdateRequest(major, minor, revision, |p|), first);
      var ready := After(busy, Parsed(Wires(Chunks(p, order))), envs);
      accepted && ready.state == READY && ready.file == p
  {
    hide After, PayloadAt, EachOnce, AllServed, Chunks, NewerVersion, ToSigned, TotalFragments, Store;
    var waiting := Handle(After(START, ms, before), CancelUpdateRequest, cancel).0;
    PackageAssembled(waiting, p, major, minor, revision, first, order, envs);
  }

  /**
   * Without "once" the claim is false: arrivals are counted, not chunk
   * numbers. For any package of two chunks, sending the first one twice makes
   * the receiver READY with the second part missing.
   */
  lemma RepeatCompletesEarly(w: Wum, p: seq<byte>, env: Environment)
    requires |p| < 0x8000_0000 && ChunkCount(p) == 2 && w == Wum(BUSY, true, [], |p|, 2, 0)
    requires Serves(env, CupFragment(0, Chunk(p, 0)))
    ensures var m := CupFragment(0, Chunk(p, 0));
      var after := After(w, [m, m], [env, env]);
      after.state == READY && after.file == p[..CUP_FRAGMENT_SIZE] && after.file != p
  {
    hide FileWrite;
    var m := CupFragment(0, Chunk(p, 0));
    var c := Chunk(p, 0);
    AfterTwo(w, m, m, env);
    assert FileWrite([], 0, c) == c && FileWrite(c, 0, c) == c;
  }

  lemma AfterTwo(w: Wum, m: WumMessage, next: WumMessage, env: Environment)
    ensures After(w, [m, next], [env, env]) == Handle(Handle(w, m, env).0, next, env).0
  {
    hide Handle;
    assert [m, next][..1] == [m] && [env, env][..1] == [env];
    assert After(w, [m], [env]) == Handle(After(w, [], []), m, env).0;
  }

  /**
   * Nor is a missing chunk always told by a repeat: the number after the last
   * chunk passes the range test and is counted. For any package of two chunks,
   * one of them and any bytes numbered 2 make the receiver READY, with no
   * number repeated, the other chunk never stored and a file longer than the
   * package, also if the missing chunk is the first and all zeros.
   */
  lemma StrayCompletesEarly(w: Wum, p: seq<byte>, k: nat, cup: seq<byte>, env: Environment)
    requires |p| < 0x8000_0000 && ChunkCount(p) == 2 && w == Wum(BUSY, true, [], |p|, 2, 0) && k < 2
    requires 0 < |cup| < 0x8000_0000 && Serves(env, CupFragment(k, Chunk(p, k))) && Serves(env, CupFragment(2, cup))
    ensures var after := After(w, [CupFragment(k, Chunk(p, k)), CupFragment(2, cup)], [env, env]);
      after.state == READY && NoRepeat([k, 2]) && 1 - k !in [k, 2] && |after.file| > |p|
    ensures k == 1 && ZeroChunk(p, 0) ==> ChunkCount(p) - 1 in [k, 2] && GapsAreZero(p, [k, 2])
  {
    hide FileWrite, ZeroChunk, Chunk, Handle;
    var m, stray := CupFragment(k, Chunk(p, k)), CupFragment(2, cup);
    AfterTwo(w, m, stray, env);
    CountedUp(w, m, env);
    CountedUp(Handle(w, m, env).0, stray, env);
  }

  /** A fragment in range is written and counted. */
  lemma CountedUp(w: Wum, m: WumMessage, env: Environment)
    requires w.state == BUSY && m.CupFragment? && Serves(env, m)
    requires m.seqNum <= w.totalFragments < 0x1_0000 && w.receivedFragments < w.totalFragments
    ensures var after := Handle(w, m, env).0;
      && after.file == FileWrite(w.file, m.seqNum * CUP_FRAGMENT_SIZE, m.cup)
      && after.receivedFragments == w.receivedFragments + 1 && after.totalFragments == w.totalFragments
      && after.state == if after.receivedFragments == after.totalFragments then READY else BUSY
  {
    hide FileWrite;
  }

  /** n numbers up to n are all those below n exactly when none is repeated and none is n. */
  lemma AllStoredExactly(order: seq<nat>, n: nat)
    requires |order| == n && forall j :: 0 <= j < n ==> order[j] <= n
    ensures (forall k: nat :: k in Below(n) ==> k in order) <==> NoRepeat(order) && n !in order
  {
    hide NoRepeat;
    MembersSize(order);
    if NoRepeat(order) && n !in order {
      SubsetOfSameSize(Members(order), Below(n));
    }
    if forall k: nat :: k in Below(n) ==> k in order {
      SubsetSize(Below(n), Members(order));
      SubsetOfSameSize(Below(n), Members(order));
    }
  }

  ghost function Members(order: seq<nat>): (r: set<nat>)
    ensures forall k: nat :: k in r <==> k in order
  {
    if order == [] then {} else Members(order[..|order| - 1]) + {order[|order| - 1]}
  }

  lemma {:induction false} MembersSize(order: seq<nat>)
    ensures |Members(order)| <= |order|
    ensures |Members(order)| == |order| <==> NoRepeat(order)
  {
    hide NoRepeat;
    RepeatStep(order);
    if order != [] {
      var n := |order| - 1;
      MembersSize(order[..n]);
      if order[n] in order[..n] {
        assert Members(order) == Members(order[..n]);
      }
    }
  }

  lemma RepeatStep(order: seq<nat>)
    ensures NoRepeat(order) <==>
      order == [] || (NoRepeat(order[..|order| - 1]) && order[|order| - 1] !in order[..|order| - 1])
  {
    if order != [] {
      var n := |order| - 1;
      var init := order[..n];
      if NoRepeat(order) {
        assert forall j, k :: 0 <= j < k < n ==> init[j] == order[j] && init[k] == order[k];
      }
      if NoRepeat(init) && order[n] !in init {
        forall j, k | 0 <= j < k < |order| ensures order[j] != order[k] {
          assert init[j] == order[j];
          assert k < n ==> init[k] == order[k];
        }
      }
    }
  }

  lemma SubsetOfSameSize(a: set<nat>, b: set<nat>)
    requires a <= b && |a| == |b|
    ensures a == b
  {
    if a != b {
      var x :| x in b && x !in a;
      assert a <= b - {x};
      SubsetSize(a, b - {x});
    }
  }

  lemma {:induction false} SubsetSize(a: set<nat>, b: set<nat>)
    requires a <= b
    ensures |a| <= |b|
  {
    if a != {} {
      var x :| x in a;
      SubsetSize(a - {x}, b - {x});
    }
  }
}
