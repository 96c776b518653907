/**
 * How the senders cut a message: the arithmetic shared by CWAssembleMessage
 * (CWProtocol.c) and CWAssembleDataMessage (CWBinding.c), and the datagrams
 * they put on the wire.
 */
module Fragmentation {
  import opened Wire
  import opened TransportHeader
  import BitFields

  const MAX_DTLS_HEADER_SIZE := 25
  const MAX_CAPWAP_HEADER_SIZE := 8

  /** Payload bytes per fragment: what the PMTU leaves, in groups of 8; 0 means "don't fragment". */
  function Room(pmtu: int, overhead: nat): (room: nat)
    ensures room % 8 == 0
  {
    if pmtu - overhead > 0 then (pmtu - overhead) / 8 * 8 else 0
  }

  /** The count both senders compute. */
  function FragmentsNum(size: nat, room: nat): nat {
    if room == 0 then 1 else size / room + (if size % room != 0 then 1 else 0)
  }

  /** How many pieces of at most `room` bytes it takes: peel them off one by one. */
  function Pieces(size: nat, room: nat): nat
    decreases size
  {
    if room == 0 then 1
    else if size <= room then (if size == 0 then 0 else 1)
    else 1 + Pieces(size - room, room)
  }

  /** Where piece i starts. */
  function Start(room: nat, i: nat): nat {
    if i == 0 then 0 else Start(room, i - 1) + room
  }

  lemma {:induction false} StartIsProduct(room: nat, i: nat)
    ensures Start(room, i) == i * room
  {
    if i > 0 {
      StartIsProduct(room, i - 1);
    }
  }

  /** The computed count is the number of pieces it takes. */
  lemma {:induction false} CountIsPieces(size: nat, room: nat)
    ensures FragmentsNum(size, room) == Pieces(size, room)
    decreases size
  {
    if room > 0 && size > room {
      CountIsPieces(size - room, room);
      QuotientStep(size, room);
    } else if size == room > 0 {
      QuotientStep(size, room);
      assert (size - room) / room == 0;
    }
  }

  lemma QuotientStep(size: int, room: int)
    requires 0 < room <= size
    ensures size / room == (size - room) / room + 1 && size % room == (size - room) % room
  {
    var q, r := (size - room) / room, (size - room) % room;
    assert size - room == q * room + r;
    assert size == (q + 1) * room + r;
    BitFields.DivModUnique(size, room, q + 1, r);
  }

  lemma {:induction false} StartMonotonic(room: nat, i: nat, j: nat)
    requires i <= j
    ensures Start(room, i) <= Start(room, j)
    ensures i < j ==> Start(room, i) + room <= Start(room, j)
  {
    if i < j {
      StartMonotonic(room, i, j - 1);
    }
  }

  /** Pieces of whole groups of 8 bytes start at whole groups. */
  lemma {:induction false} StartAligned(room: nat, i: nat)
    requires room % 8 == 0
    ensures Start(room, i) % 8 == 0
  {
    if i > 0 {
      StartAligned(room, i - 1);
    }
  }

  /** The last piece starts inside the message and reaches its end. */
  lemma {:induction false} PiecesReachEnd(size: nat, room: nat)
    requires room > 0 && size > 0
    ensures var n := Pieces(size, room); n >= 1 && Start(room, n - 1) < size <= Start(room, n)
    decreases size
  {
    if size > room {
      PiecesReachEnd(size - room, room);
    } else {
      assert Start(room, 1) == Start(room, 0) + room;
    }
  }

  /** One message as handed to a sender, with everything that shapes its datagrams. */
  datatype Transmission = Transmission(
    payload: seq<byte>, room: nat, fragmentID: int, payloadType: int, binding: Option<BindingValues>)
  {
    function Num(): nat {
      Pieces(|payload|, room)
    }

    predicate Fragmented() {
      Num() > 1
    }

    /** Where fragment i starts and ends in the payload. */
    function Begin(i: nat): nat {
      Start(room, i)
    }

    function End(i: nat): nat {
      if i + 1 == Num() then |payload| else Start(room, i + 1)
    }

    /** The payload bytes of fragment i. */
    function Chunk(i: nat): seq<byte>
      requires i < Num()
    {
      ChunkBounds(this, i);
      payload[Begin(i)..End(i)]
    }

    function Header(i: nat): HeaderValues {
      if Num() == 1 then HeaderValues(payloadType, 0, 0, 0, 0, binding)
      else HeaderValues(payloadType, 1, if i + 1 == Num() then 1 else 0, fragmentID, Begin(i) / 8, binding)
    }

    function Datagram(i: nat): seq<byte>
      requires i < Num()
    {
      HeaderBytes(Header(i)) + Chunk(i)
    }

    /** What goes on the wire. */
    function Datagrams(): seq<seq<byte>> {
      seq(Num(), i requires 0 <= i < Num() => Datagram(i))
    }
  }

  lemma ChunkBounds(t: Transmission, i: nat)
    requires i < t.Num()
    ensures t.Begin(i) <= t.End(i) <= |t.payload|
    ensures t.Num() > 1 ==> t.Begin(i) < t.End(i)
    ensures t.Num() == 1 ==> t.Begin(i) == 0 && t.End(i) == |t.payload|
    ensures i + 1 < t.Num() ==> t.End(i) == t.Begin(i) + t.room == t.Begin(i + 1)
    ensures t.room > 0 ==> t.End(i) <= t.Begin(i) + t.room
  {
    if t.room > 0 && t.payload != [] {
      PiecesReachEnd(|t.payload|, t.room);
      StartMonotonic(t.room, i, t.Num() - 1);
      if i + 1 < t.Num() {
        StartMonotonic(t.room, i + 1, t.Num() - 1);
      }
    }
  }

  function Concat(ss: seq<seq<byte>>): seq<byte> {
    if ss == [] then [] else Concat(ss[..|ss| - 1]) + ss[|ss| - 1]
  }

  function Chunks(t: Transmission, n: nat): (cs: seq<seq<byte>>)
    requires n <= t.Num()
    ensures |cs| == n
  {
    seq(n, i requires 0 <= i < n => t.Chunk(i))
  }

  /** The first n chunks put together are the payload up to where chunk n - 1 ends. */
  lemma {:induction false} ChunksArePrefix(t: Transmission, n: nat)
    requires n <= t.Num()
    ensures n > 0 ==> t.End(n - 1) <= |t.payload| && Concat(Chunks(t, n)) == t.payload[..t.End(n - 1)]
    ensures n == 0 ==> Concat(Chunks(t, n)) == []
  {
    if n > 0 {
      ChunkBounds(t, n - 1);
      ChunksArePrefix(t, n - 1);
      assert Chunks(t, n)[..n - 1] == Chunks(t, n - 1);
      if n > 1 {
        ChunkBounds(t, n - 2);
      }
    }
  }

  /**
   * Cutting is exact: every fragment but the last carries `room` bytes, the
   * last one the rest, none is empty, and together they are the payload.
   */
  lemma CutIsExact(t: Transmission)
    requires t.payload != []
    ensures t.Num() >= 1
    ensures forall i :: 0 <= i < t.Num() - 1 ==> |t.Chunk(i)| == t.room
    ensures forall i :: 0 <= i < t.Num() ==> 0 < |t.Chunk(i)| && (t.room > 0 ==> |t.Chunk(i)| <= t.room)
    ensures Concat(Chunks(t, t.Num())) == t.payload
  {
    if t.room > 0 {
      PiecesReachEnd(|t.payload|, t.room);
    }
    forall i | 0 <= i < t.Num()
      ensures 0 < |t.Chunk(i)| && (t.room > 0 ==> |t.Chunk(i)| <= t.room)
      ensures i < t.Num() - 1 ==> |t.Chunk(i)| == t.room
    {
      ChunkBounds(t, i);
    }
    ChunksArePrefix(t, t.Num());
  }

  /** The room a PMTU leaves. */
  lemma RoomExactly(pmtu: int, overhead: nat)
    ensures pmtu >= overhead + 8 ==> Room(pmtu, overhead) == 8 * ((pmtu - overhead) / 8) && Room(pmtu, overhead) >= 8
    ensures pmtu < overhead + 8 ==> Room(pmtu, overhead) == 0
    ensures pmtu >= overhead ==> Room(pmtu, overhead) <= pmtu - overhead
  {
  }

  lemma OneDatagram(t: Transmission)
    requires t.room == 0
    ensures t.Num() == 1 && t.Chunk(0) == t.payload
  {
    ChunkBounds(t, 0);
  }

  lemma DatagramLength(t: Transmission, i: nat)
    requires t.room > 0 && i < t.Num()
    ensures |t.Datagram(i)| <= t.room + (if t.binding.Some? then HEADER_SIZE_BINDING else HEADER_SIZE)
  {
    hide HeaderBytes;
    ChunkBounds(t, i);
  }

  /** The F and L bits and the offset of a datagram's header. */
  lemma HeaderFields(t: Transmission, i: nat)
    requires t.room % 8 == 0 && i < t.Num()
    ensures t.Num() == 1 ==> t.Header(i).isFragment == 0
    ensures t.Num() > 1 ==>
      && t.Header(i).isFragment == 1
      && t.Header(i).last == (if i == t.Num() - 1 then 1 else 0)
      && t.Header(i).fragmentOffset * 8 == i * t.room
  {
    hide Start, Pieces;
    StartIsProduct(t.room, i);
    StartAligned(t.room, i);
  }

  /**
   * Sizes and headers on the wire. Once the PMTU leaves room for 8 bytes
   * beyond what a sender sets aside, a datagram is at most the PMTU less that
   * overhead plus the CAPWAP header; with less room there is one datagram.
   * Fragments carry F, their byte offset in groups of 8 exactly, and L on the
   * last; a message in one piece carries neither.
   */
  lemma DatagramsFit(t: Transmission, pmtu: int, overhead: nat, i: nat)
    requires t.payload != [] && t.room == Room(pmtu, overhead) && i < t.Num()
    ensures t.Num() == FragmentsNum(|t.payload|, t.room)
    ensures pmtu >= overhead + 8 ==>
      && t.room == 8 * ((pmtu - overhead) / 8) > 0
      && |t.Datagram(i)| <= pmtu - overhead + (if t.binding.Some? then HEADER_SIZE_BINDING else HEADER_SIZE)
    ensures pmtu < overhead + 8 ==> t.Num() == 1 && t.Chunk(0) == t.payload
    ensures t.Num() == 1 ==> t.Header(i).isFragment == 0
    ensures t.Num() > 1 ==>
      && t.Header(i).isFragment == 1
      && t.Header(i).last == (if i == t.Num() - 1 then 1 else 0)
      && t.Header(i).fragmentOffset * 8 == i * t.room
  {
    hide Room, Pieces, Start, HeaderBytes, FragmentsNum;
    CountIsPieces(|t.payload|, t.room);
    RoomExactly(pmtu, overhead);
    HeaderFields(t, i);
    if t.room == 0 {
      OneDatagram(t);
    } else {
      DatagramLength(t, i);
    }
  }

  /**
   * The 13-bit offset field holds the offsets of all fragments exactly when
   * the last one starts below 65536 bytes.
   */
  lemma OffsetsFitExactly(t: Transmission)
    requires t.room % 8 == 0 && t.Fragmented()
    ensures (forall i :: 0 <= i < t.Num() ==> Received(t.Header(i)).fragmentOffset * 8 == t.Begin(i))
       <==> t.Begin(t.Num() - 1) < 0x1_0000
  {
    var n := t.Num();
    if t.Begin(n - 1) < 0x1_0000 {
      forall i | 0 <= i < n
        ensures Received(t.Header(i)).fragmentOffset * 8 == t.Begin(i)
      {
        StartMonotonic(t.room, i, n - 1);
        StartAligned(t.room, i);
      }
    } else {
      assert Received(t.Header(n - 1)).fragmentOffset * 8 < 0x1_0000;
    }
  }

  /** They do not for 65544 bytes in pieces of 8: the last offset wraps to that of the first. */
  lemma OffsetWraps(t: Transmission)
    requires t.room == 8 && |t.payload| == 65544
    ensures t.Num() == 8193
    ensures Received(t.Header(8192)).fragmentOffset == Received(t.Header(0)).fragmentOffset == 0
  {
    CountIsPieces(65544, 8);
    StartIsProduct(8, 8192);
  }

  /** They do for every message of at most 65536 bytes. */
  lemma OffsetsFitUpTo64K(t: Transmission)
    requires t.room % 8 == 0 && t.Fragmented() && |t.payload| <= 0x1_0000
    ensures t.Begin(t.Num() - 1) < 0x1_0000
  {
    ChunkBounds(t, t.Num() - 1);
  }
}
