/**
 * Whole runs of the receiver against the senders: integrity under loss,
 * duplication, reordering and interleaving, and completeness.
 */
module Integrity {
  import opened Wire
  import opened TransportHeader
  import opened Fragmentation
  import opened Reassembly

  // ---------- runs ----------

  /** The lists after, and the outcomes of, receiving the datagrams of a trace in order. */
  function Run(fs: seq<Fragment>, trace: seq<seq<byte>>): (r: (seq<Fragment>, seq<Outcome>))
    requires forall k :: 0 <= k < |trace| ==> HasHeader(trace[k])
    ensures |r.1| == |trace|
  {
    if trace == [] then (fs, [])
    else
      var n := |trace| - 1;
      var (before, outcomes) := Run(fs, trace[..n]);
      var (after, outcome) := Receive(before, trace[n]);
      (after, outcomes + [outcome])
  }

  /** The list invariant holds after any run of arbitrary datagrams whose calls all returned. */
  lemma {:induction false} RunKeepsInvariant(fs: seq<Fragment>, trace: seq<seq<byte>>)
    requires forall k :: 0 <= k < |trace| ==> HasHeader(trace[k])
    requires ListInvariant(fs)
    requires Stalled !in Run(fs, trace).1
    ensures ListInvariant(Run(fs, trace).0)
  {
    if trace != [] {
      var n := |trace| - 1;
      var outcomes := Run(fs, trace).1;
      assert outcomes[n] in outcomes;
      forall o | o in Run(fs, trace[..n]).1 ensures o in outcomes {
        var k :| 0 <= k < n && Run(fs, trace[..n]).1[k] == o;
        assert outcomes[k] == o;
      }
      RunKeepsInvariant(fs, trace[..n]);
      ReceiveKeepsInvariant(Run(fs, trace[..n]).0, trace[n]);
    }
  }

  // ---------- three datagrams that stall the receiver ----------

  /** A fragment of a message no sender of the repository cuts: short, though not the last. */
  function StallingDatagram(fragmentOffset: nat, last: nat, payload: seq<byte>): seq<byte> {
    HeaderBytes(HeaderValues(PACKET_PLAIN, 1, last, 7, fragmentOffset, None)) + payload
  }

  lemma StallingFragment(fs: seq<Fragment>, fragmentOffset: nat, last: nat, payload: seq<byte>)
    requires fragmentOffset < 0x2000 && last < 2
    ensures var d := StallingDatagram(fragmentOffset, last, payload);
      && HasHeader(d)
      && Receive(fs, d)
         == var f := Fragment(7, fragmentOffset, last == 1, payload);
            if IsCopy(fs, f) then (fs, NeedResource) else Settle(Insert(fs, f), Unset)
  {
    var h := HeaderValues(PACKET_PLAIN, 1, last, 7, fragmentOffset, None);
    hide HeaderBytes, ParseHeader, HasHeader, HeaderLength, IsCopy, Insert, Settle;
    ParseInvertsAssemble(h, payload);
    ReceiveParsed(fs, StallingDatagram(fragmentOffset, last, payload), Received(h));
  }

  const SHORT: seq<byte> := [0, 0, 0, 0]

  function StallingTrace(): (trace: seq<seq<byte>>)
    ensures |trace| == 3
    ensures trace[0] == StallingDatagram(0, 0, SHORT) && trace[1] == StallingDatagram(5, 0, SHORT)
    ensures trace[2] == StallingDatagram(1, 1, [0])
  {
    [StallingDatagram(0, 0, SHORT), StallingDatagram(5, 0, SHORT), StallingDatagram(1, 1, [0])]
  }

  lemma StallingHeaders()
    ensures forall k :: 0 <= k < |StallingTrace()| ==> HasHeader(StallingTrace()[k])
  {
    hide StallingDatagram, HasHeader, Receive, StallingTrace, IsCopy, Settle, Insert;
    StallingFragment([], 0, 0, SHORT);
    StallingFragment([], 5, 0, SHORT);
    StallingFragment([], 1, 1, [0]);
    forall k | 0 <= k < |StallingTrace()| ensures HasHeader(StallingTrace()[k]) {
      if k == 0 {
      } else if k == 1 {
      } else {
        assert k == 2;
      }
    }
  }

  /**
   * The receiver, starting with an empty list, asks for more after the first
   * two datagrams and never returns from the third.
   */
  lemma DatagramsStall()
    ensures forall k :: 0 <= k < |StallingTrace()| ==> HasHeader(StallingTrace()[k])
    ensures Run([], StallingTrace()).1[0] == NeedResource
    ensures Run([], StallingTrace()).1[1] == NeedResource
    ensures Run([], StallingTrace()).1[2] == Stalled
  {
    hide StallingDatagram, StallingTrace, HasHeader, Receive, Run, IsCopy, Insert, Settle;
    var a, b, c := Fragment(7, 0, false, SHORT), Fragment(7, 5, false, SHORT), Fragment(7, 1, true, [0]);
    StallingHeaders();
    StallingFragment([], 0, 0, SHORT);
    StallingFragment([a], 5, 0, SHORT);
    StallingFragment([b, a], 1, 1, [0]);
    StallingLists(a, b, c);
    NoLastWaits(a, b);
    StallExample();
    RunThree(StallingTrace(), [a], [b, a]);
  }

  lemma StallingLists(a: Fragment, b: Fragment, c: Fragment)
    requires a.id == b.id == c.id && a.offset != b.offset && a.offset != c.offset && b.offset != c.offset
    ensures !IsCopy([], a) && !IsCopy([a], b) && !IsCopy([b, a], c)
    ensures Insert([], a) == [a] && Insert([a], b) == [b, a] && Insert([b, a], c) == [c, b, a]
  {
  }

  lemma RunThree(trace: seq<seq<byte>>, fs1: seq<Fragment>, fs2: seq<Fragment>)
    requires |trace| == 3 && forall k :: 0 <= k < |trace| ==> HasHeader(trace[k])
    requires Receive([], trace[0]).0 == fs1 && Receive(fs1, trace[1]).0 == fs2
    ensures Run([], trace).1
         == [Receive([], trace[0]).1, Receive(fs1, trace[1]).1, Receive(fs2, trace[2]).1]
  {
    hide Receive, HasHeader, Run;
    var one, two := trace[..1], trace[..2];
    assert two[..1] == one;
    RunNothing([], one);
    RunLast([], one);
    RunLast([], two);
    RunLast([], trace);
  }

  lemma RunNothing(fs: seq<Fragment>, trace: seq<seq<byte>>)
    ensures Run(fs, trace[..0]) == (fs, [])
  {
  }

  /** Without a last fragment the receiver waits. */
  lemma NoLastWaits(a: Fragment, b: Fragment)
    requires !a.last && !b.last
    ensures Settle([a], Unset) == ([a], NeedResource) && Settle([b, a], Unset) == ([b, a], NeedResource)
  {
    assert [a][..0] == [] && [b, a][..1] == [b] && [b][..0] == [];
    assert TotalSize([a]) == 0 && TotalSize([b]) == 0 && TotalSize([b, a]) == 0;
  }

  // ---------- one message ----------

  /** A message whose fragments the header fields can describe. */
  ghost predicate Sendable(t: Transmission) {
    && t.payload != []
    && t.room % 8 == 0
    && (t.Fragmented() ==> t.Begin(t.Num() - 1) < 0x1_0000)
  }

  function WireId(t: Transmission): nat {
    t.fragmentID % 0x1_0000
  }

  /** The kind of data every datagram of t announces. */
  function KindOf(t: Transmission): DataKind {
    Received(t.Header(0)).kind
  }

  /** Fragment i of t as the receiver keeps it. */
  function Piece(t: Transmission, i: nat): Fragment
    requires i < t.Num()
  {
    Fragment(WireId(t), t.Begin(i) / 8, i + 1 == t.Num(), t.Chunk(i))
  }

  lemma PieceOffset(t: Transmission, i: nat)
    requires Sendable(t) && t.Fragmented() && i < t.Num()
    ensures t.Begin(i) / 8 * 8 == t.Begin(i)
    ensures t.Begin(i) / 8 < 0x2000
    ensures t.room >= 8
  {
    StartAligned(t.room, i);
    StartMonotonic(t.room, i, t.Num() - 1);
    ChunkBounds(t, 0);
  }

  lemma PiecesApart(t: Transmission, i: nat, j: nat)
    requires Sendable(t) && t.Fragmented() && i < j < t.Num()
    ensures t.Begin(i) / 8 < t.Begin(j) / 8
  {
    PieceOffset(t, i);
    PieceOffset(t, j);
    StartMonotonic(t.room, i, j);
  }

  /** What the header parser makes of a datagram of t. */
  lemma ParseDatagram(t: Transmission, i: nat)
    requires i < t.Num()
    ensures HasHeader(t.Datagram(i))
    ensures ParseHeader(t.Datagram(i)) == Some(Received(t.Header(i)))
    ensures t.Datagram(i)[HeaderLength(t.Datagram(i))..] == t.Chunk(i)
  {
    ParseInvertsAssemble(t.Header(i), t.Chunk(i));
  }

  /**
   * What is on the wire: the parsed header of every datagram has the type and
   * the binding of its message, and of a message that is cut its ID, its byte
   * offset in groups of 8, and L on the last; and behind it lies the stretch of
   * the message that starts there.
   */
  lemma OnTheWire(t: Transmission, i: nat, begin: nat, end: nat)
    requires t.room % 8 == 0 && i < t.Num()
    requires begin == i * t.room && end == if i == t.Num() - 1 then |t.payload| else begin + t.room
    ensures HasHeader(t.Datagram(i)) && ParseHeader(t.Datagram(i)).Some?
    ensures var (h, cut) := (ParseHeader(t.Datagram(i)).value, t.Num() > 1);
      && h.payloadType == (if t.payloadType == PACKET_PLAIN then 0 else 1)
      && h.binding == (if t.binding == None then None else Some(Narrowed(t.binding.value)))
      && h.isFragment == (if cut then 1 else 0)
      && h.last == (if cut && i == t.Num() - 1 then 1 else 0)
      && h.fragmentID == (if cut then t.fragmentID % 0x1_0000 else 0)
      && h.fragmentOffset == (if cut then begin / 8 % 0x2000 else 0)
      && h.tType == 1 && h.keepAlive == 0
    ensures begin <= end <= |t.payload|
    ensures t.Datagram(i)[HeaderLength(t.Datagram(i))..] == t.payload[begin..end]
  {
    hide Pieces, Start, HasHeader, ParseHeader, HeaderLength, HeaderBytes;
    ParseDatagram(t, i);
    ChunkBounds(t, i);
    StartIsProduct(t.room, i);
  }

  /** The parsed header of a fragment describes the piece it carries. */
  lemma ReceivedPiece(t: Transmission, i: nat)
    requires Sendable(t) && i < t.Num()
    ensures Received(t.Header(i)).kind == KindOf(t)
    ensures !t.Fragmented() ==> Received(t.Header(i)).isFragment == 0 && t.Chunk(i) == t.payload
    ensures t.Fragmented() ==>
      var h := Received(t.Header(i));
      h.isFragment == 1 && Fragment(h.fragmentID, h.fragmentOffset, h.last == 1, t.Chunk(i)) == Piece(t, i)
  {
    CutIsExact(t);
    if t.Fragmented() {
      PieceOffset(t, i);
    } else {
      ChunkBounds(t, i);
    }
  }

  /** What one call makes of a datagram of t. */
  lemma ReceiveDatagram(fs: seq<Fragment>, t: Transmission, i: nat)
    requires Sendable(t) && i < t.Num()
    ensures HasHeader(t.Datagram(i))
    ensures !t.Fragmented() ==> Receive(fs, t.Datagram(i)) == (fs, Reassembled(t.payload, KindOf(t)))
    ensures t.Fragmented() ==>
      Receive(fs, t.Datagram(i))
      == if IsCopy(fs, Piece(t, i)) then (fs, NeedResource) else Settle(Insert(fs, Piece(t, i)), KindOf(t))
  {
    ParseDatagram(t, i);
    ReceivedPiece(t, i);
    ReceiveParsed(fs, t.Datagram(i), Received(t.Header(i)));
  }

  lemma ReceiveParsed(fs: seq<Fragment>, d: seq<byte>, h: ParsedHeader)
    requires HasHeader(d) && ParseHeader(d) == Some(h)
    ensures h.isFragment == 0 ==> Receive(fs, d) == (fs, Reassembled(d[HeaderLength(d)..], h.kind))
    ensures h.isFragment != 0 ==>
      Receive(fs, d)
      == var f := Fragment(h.fragmentID, h.fragmentOffset, h.last == 1, d[HeaderLength(d)..]);
         if IsCopy(fs, f) then (fs, NeedResource) else Settle(Insert(fs, f), h.kind)
  {
  }

  // ---------- what a list of pieces of one message adds up to ----------

  /** fs holds fragments of t only, none twice. */
  ghost predicate PiecesOf(t: Transmission, fs: seq<Fragment>) {
    && (forall k :: 0 <= k < |fs| ==> IsPiece(t, fs[k]))
    && DistinctOffsets(fs)
  }

  ghost predicate IsPiece(t: Transmission, f: Fragment) {
    exists i :: 0 <= i < t.Num() && f == Piece(t, i)
  }

  ghost predicate Has(t: Transmission, fs: seq<Fragment>, i: nat)
    requires i < t.Num()
  {
    exists k :: 0 <= k < |fs| && fs[k] == Piece(t, i)
  }

  ghost predicate HasAll(t: Transmission, fs: seq<Fragment>) {
    forall i :: 0 <= i < t.Num() ==> Has(t, fs, i)
  }

  /** Bytes of the first n pieces of t that fs holds. */
  ghost function HeldSize(t: Transmission, fs: seq<Fragment>, n: nat): nat
    requires n <= t.Num()
  {
    if n == 0 then 0
    else HeldSize(t, fs, n - 1) + (if Has(t, fs, n - 1) then |t.Chunk(n - 1)| else 0)
  }

  /** Adding a new piece adds its length. */
  lemma {:induction false} HeldSizeAppend(t: Transmission, fs: seq<Fragment>, i: nat, n: nat)
    requires Sendable(t) && t.Fragmented() && i < t.Num() && n <= t.Num() && !Has(t, fs, i)
    ensures HeldSize(t, fs + [Piece(t, i)], n) == HeldSize(t, fs, n) + (if i < n then |t.Chunk(i)| else 0)
  {
    hide Pieces, Start;
    var gs := fs + [Piece(t, i)];
    if n > 0 {
      HeldSizeAppend(t, fs, i, n - 1);
      var m := n - 1;
      if m == i {
        assert gs[|fs|] == Piece(t, i);
      } else {
        if m < i { PiecesApart(t, m, i); } else { PiecesApart(t, i, m); }
        if Has(t, fs, m) {
          var k :| 0 <= k < |fs| && fs[k] == Piece(t, m);
          assert gs[k] == Piece(t, m);
        }
      }
    }
  }

  lemma {:induction false} HeldSizeEmpty(t: Transmission, n: nat)
    requires n <= t.Num()
    ensures HeldSize(t, [], n) == 0
  {
    if n > 0 {
      HeldSizeEmpty(t, n - 1);
    }
  }

  /** currentSize of a list of pieces is what it holds of the message. */
  lemma {:induction false} CurrentSizeOfPieces(t: Transmission, fs: seq<Fragment>)
    requires Sendable(t) && t.Fragmented() && PiecesOf(t, fs)
    ensures CurrentSize(fs) == HeldSize(t, fs, t.Num())
  {
    hide Pieces, Start;
    if fs == [] {
      HeldSizeEmpty(t, t.Num());
    } else {
      var n := |fs| - 1;
      var init := fs[..n];
      assert IsPiece(t, fs[n]);
      var i :| 0 <= i < t.Num() && fs[n] == Piece(t, i);
      assert PiecesOf(t, init) by {
        forall k | 0 <= k < n ensures IsPiece(t, init[k]) { assert IsPiece(t, fs[k]); }
      }
      CurrentSizeOfPieces(t, init);
      assert !Has(t, init, i);
      HeldSizeAppend(t, init, i, t.Num());
      assert fs == init + [Piece(t, i)];
    }
  }

  /** Holding the first n pieces is holding the bytes up to where they end. */
  lemma {:induction false} HeldSizeBound(t: Transmission, fs: seq<Fragment>, n: nat)
    requires Sendable(t) && t.Fragmented() && n <= t.Num()
    ensures HeldSize(t, fs, n) <= (if n == 0 then 0 else t.End(n - 1))
    ensures n > 0 ==> (HeldSize(t, fs, n) == t.End(n - 1) <==> forall i :: 0 <= i < n ==> Has(t, fs, i))
  {
    hide Has, Pieces, Sendable;
    if n > 0 {
      HeldSizeBound(t, fs, n - 1);
      ChunkBounds(t, n - 1);
      if n > 1 {
        ChunkBounds(t, n - 2);
      }
    }
  }

  /** totalSize is the message size once the last piece is there, 0 before. */
  lemma {:induction false} TotalSizeOfPieces(t: Transmission, fs: seq<Fragment>)
    requires Sendable(t) && t.Fragmented() && PiecesOf(t, fs)
    ensures TotalSize(fs) == if Has(t, fs, t.Num() - 1) then |t.payload| else 0
  {
    hide Pieces, Start, Has, Sendable;
    if fs != [] {
      var n := |fs| - 1;
      var init := fs[..n];
      assert IsPiece(t, fs[n]);
      forall k | 0 <= k < n ensures IsPiece(t, init[k]) { assert IsPiece(t, fs[k]); }
      TotalSizeOfPieces(t, init);
      LastPiece(t, fs);
    } else {
      HasNothing(t);
    }
  }

  lemma HasNothing(t: Transmission)
    requires t.Num() > 0
    ensures !Has(t, [], t.Num() - 1)
  {
  }

  /** The last piece is the one with the L bit, and ends where the message ends. */
  lemma LastPiece(t: Transmission, fs: seq<Fragment>)
    requires Sendable(t) && t.Fragmented() && fs != [] && IsPiece(t, fs[|fs| - 1])
    ensures var f := fs[|fs| - 1];
      && (f.last ==> Has(t, fs, t.Num() - 1) && 8 * f.offset + |f.data| == |t.payload|)
      && (!f.last ==> (Has(t, fs, t.Num() - 1) <==> Has(t, fs[..|fs| - 1], t.Num() - 1)))
  {
    hide Pieces, Start, Sendable;
    var n := |fs| - 1;
    var i :| 0 <= i < t.Num() && fs[n] == Piece(t, i);
    if fs[n].last {
      PieceOffset(t, i);
      ChunkBounds(t, i);
    } else if Has(t, fs[..n], t.Num() - 1) {
      var k :| 0 <= k < n && fs[..n][k] == Piece(t, t.Num() - 1);
      assert fs[k] == Piece(t, t.Num() - 1);
    }
  }

  /** The completeness test succeeds exactly when no piece is missing. */
  lemma CompleteExactlyWhenAllHeld(t: Transmission, fs: seq<Fragment>)
    requires Sendable(t) && t.Fragmented() && PiecesOf(t, fs)
    ensures PassesSizeTest(fs) <==> HasAll(t, fs)
  {
    CurrentSizeOfPieces(t, fs);
    TotalSizeOfPieces(t, fs);
    HeldSizeBound(t, fs, t.Num());
  }

  /** From piece i on, the walk over all the pieces copies the rest of the message. */
  lemma {:induction false} WalkCopiesRest(t: Transmission, fs: seq<Fragment>, i: nat)
    requires Sendable(t) && t.Fragmented() && PiecesOf(t, fs) && HasAll(t, fs)
    requires i < t.Num()
    ensures t.Begin(i) <= |t.payload|
    ensures Walk(fs, t.Begin(i) / 8) == WalkResult.Complete(t.payload[t.Begin(i)..])
    decreases t.Num() - i
  {
    hide Walk, Find, Pieces, Start;
    var k := FindPiece(t, fs, i);
    PieceOffset(t, i);
    ChunkBounds(t, i);
    if i + 1 == t.Num() {
      WalkLast(fs, t.Begin(i) / 8, t.payload[t.Begin(i)..]);
    } else {
      PieceOffset(t, i + 1);
      WalkCopiesRest(t, fs, i + 1);
      WalkCopiesStep(fs, t.payload, k, t.Begin(i), t.Begin(i + 1));
    }
  }

  lemma WalkCopiesStep(fs: seq<Fragment>, payload: seq<byte>, k: nat, lo: nat, hi: nat)
    requires lo % 8 == 0 && hi % 8 == 0 && lo < hi <= |payload|
    requires k == Find(fs, lo / 8) < |fs| && !fs[k].last && fs[k].data == payload[lo..hi]
    requires Walk(fs, hi / 8) == WalkResult.Complete(payload[hi..])
    ensures Walk(fs, lo / 8) == WalkResult.Complete(payload[lo..])
  {
    WalkStep(fs, lo / 8, k, hi / 8, payload[hi..]);
    TailAfter(payload, lo, fs[k].data);
  }

  lemma FindPiece(t: Transmission, fs: seq<Fragment>, i: nat) returns (k: nat)
    requires PiecesOf(t, fs) && i < t.Num() && Has(t, fs, i)
    ensures k == Find(fs, t.Begin(i) / 8) < |fs| && fs[k] == Piece(t, i)
  {
    k :| 0 <= k < |fs| && fs[k] == Piece(t, i);
    assert Find(fs, t.Begin(i) / 8) == k;
  }

  /** Settling a list of pieces waits for the missing ones, then yields the message. */
  lemma SettlePieces(t: Transmission, fs: seq<Fragment>, kind: DataKind)
    requires Sendable(t) && t.Fragmented() && PiecesOf(t, fs)
    ensures Settle(fs, kind) == if HasAll(t, fs) then ([], Reassembled(t.payload, kind)) else (fs, NeedResource)
  {
    CompleteExactlyWhenAllHeld(t, fs);
    if HasAll(t, fs) {
      WalkCopiesRest(t, fs, 0);
      assert t.payload[0..] == t.payload;
    }
  }

  // ---------- integrity ----------

  /** What the list holds between calls when only the transmissions ts are on the wire. */
  ghost predicate GenuineList(ts: seq<Transmission>, fs: seq<Fragment>) {
    fs == [] || exists m :: 0 <= m < |ts| && HoldsPartOf(ts[m], fs)
  }

  ghost predicate HoldsPartOf(t: Transmission, fs: seq<Fragment>) {
    Sendable(t) && t.Fragmented() && PiecesOf(t, fs) && !HasAll(t, fs)
  }

  /** Fragmented messages carry pairwise distinct wire IDs. */
  ghost predicate DistinctIds(ts: seq<Transmission>) {
    forall m, n :: 0 <= m < n < |ts| && ts[m].Fragmented() && ts[n].Fragmented() ==> WireId(ts[m]) != WireId(ts[n])
  }

  /** Inserting a piece of t into a genuine list leaves pieces of t only. */
  lemma InsertPiece(ts: seq<Transmission>, fs: seq<Fragment>, m: nat, i: nat)
    requires (forall n :: 0 <= n < |ts| ==> Sendable(ts[n])) && DistinctIds(ts) && GenuineList(ts, fs)
    requires m < |ts| && ts[m].Fragmented() && i < ts[m].Num()
    ensures IsCopy(fs, Piece(ts[m], i)) ==> HoldsPartOf(ts[m], fs)
    ensures PiecesOf(ts[m], Insert(fs, Piece(ts[m], i)))
    ensures !IsCopy(fs, Piece(ts[m], i)) ==> Insert(fs, Piece(ts[m], i)) != []
  {
    var t, f := ts[m], Piece(ts[m], i);
    assert IsPiece(t, f);
    if fs != [] {
      var n :| 0 <= n < |ts| && HoldsPartOf(ts[n], fs);
      assert IsPiece(ts[n], fs[0]);
      if fs[0].id == f.id {
        assert n == m;
        InsertKeepsPieces(t, fs, f);
      }
    }
  }

  lemma InsertKeepsPieces(t: Transmission, fs: seq<Fragment>, f: Fragment)
    requires PiecesOf(t, fs) && fs != [] && fs[0].id == f.id && IsPiece(t, f)
    ensures PiecesOf(t, Insert(fs, f))
  {
    if !IsCopy(fs, f) {
      var gs := Insert(fs, f);
      assert gs == [f] + fs;
      forall k | 0 <= k < |gs| ensures IsPiece(t, gs[k]) {
        if k > 0 { assert IsPiece(t, fs[k - 1]); }
      }
      forall k | 0 <= k < |fs| ensures fs[k].offset != f.offset {
        assert IsPiece(t, fs[k]) && !SamePlace(f, fs[k]);
      }
    }
  }

  /** A call that waits, or delivers exactly the message t. */
  ghost predicate Faithful(t: Transmission, o: Outcome) {
    o == NeedResource || o == Reassembled(t.payload, KindOf(t))
  }

  /** One genuine datagram: the outcome is the message it belongs to, or a wait. */
  lemma GenuineStep(ts: seq<Transmission>, fs: seq<Fragment>, m: nat, i: nat)
    requires (forall n :: 0 <= n < |ts| ==> Sendable(ts[n])) && DistinctIds(ts) && GenuineList(ts, fs)
    requires m < |ts| && i < ts[m].Num()
    ensures var d := ts[m].Datagram(i);
      && HasHeader(d)
      && GenuineList(ts, Receive(fs, d).0)
      && Faithful(ts[m], Receive(fs, d).1)
  {
    var t := ts[m];
    ReceiveDatagram(fs, t, i);
    if t.Fragmented() && !IsCopy(fs, Piece(t, i)) {
      InsertPiece(ts, fs, m, i);
      SettlePieces(t, Insert(fs, Piece(t, i)), KindOf(t));
    }
  }

  /** Each datagram of the trace is one of those of the transmission named by `from`. */
  ghost predicate Genuine(ts: seq<Transmission>, trace: seq<seq<byte>>, from: seq<nat>) {
    |from| == |trace| && forall k :: 0 <= k < |trace| ==> from[k] < |ts| && trace[k] in ts[from[k]].Datagrams()
  }

  lemma GenuineHeaders(ts: seq<Transmission>, trace: seq<seq<byte>>, from: seq<nat>)
    requires Genuine(ts, trace, from)
    ensures forall k :: 0 <= k < |trace| ==> HasHeader(trace[k])
  {
    forall k | 0 <= k < |trace| ensures HasHeader(trace[k]) {
      var i := PickOf(ts, trace, from, k);
      ParseDatagram(ts[from[k]], i);
    }
  }

  lemma PickOf(ts: seq<Transmission>, trace: seq<seq<byte>>, from: seq<nat>, k: nat) returns (i: nat)
    requires Genuine(ts, trace, from) && k < |trace|
    ensures i < ts[from[k]].Num() && trace[k] == ts[from[k]].Datagram(i)
  {
    var ds := ts[from[k]].Datagrams();
    i :| 0 <= i < |ds| && ds[i] == trace[k];
  }

  lemma GenuinePrefix(ts: seq<Transmission>, trace: seq<seq<byte>>, from: seq<nat>, n: nat)
    requires Genuine(ts, trace, from) && n <= |trace|
    ensures |from| == |trace| && Genuine(ts, trace[..n], from[..n])
    ensures forall k :: 0 <= k < |trace| ==> from[k] < |ts|
  {
  }

  lemma {:induction false} IntegrityFrom(
    ts: seq<Transmission>, fs: seq<Fragment>, trace: seq<seq<byte>>, from: seq<nat>)
    requires (forall n :: 0 <= n < |ts| ==> Sendable(ts[n])) && DistinctIds(ts) && GenuineList(ts, fs)
    requires Genuine(ts, trace, from)
    requires forall k :: 0 <= k < |trace| ==> HasHeader(trace[k])
    ensures GenuineList(ts, Run(fs, trace).0)
    ensures forall k :: 0 <= k < |trace| ==> Faithful(ts[from[k]], Run(fs, trace).1[k])
  {
    hide Receive, Run, Sendable, DistinctIds, GenuineList, Genuine, Faithful, HasHeader;
    if trace == [] {
      RunNothing(fs, trace);
      assert trace[..0] == trace;
    } else {
      var n := |trace| - 1;
      var i := PickOf(ts, trace, from, n);
      GenuinePrefix(ts, trace, from, n);
      IntegrityFrom(ts, fs, trace[..n], from[..n]);
      GenuineStep(ts, Run(fs, trace[..n]).0, from[n], i);
      RunLast(fs, trace);
      forall k | 0 <= k < |trace| ensures Faithful(ts[from[k]], Run(fs, trace).1[k]) {
        if k < n {
          assert from[..n][k] == from[k] && Run(fs, trace).1[k] == Run(fs, trace[..n]).1[k];
        }
      }
    }
  }

  /** The last call of a run. */
  lemma RunLast(fs: seq<Fragment>, trace: seq<seq<byte>>)
    requires trace != [] && forall k :: 0 <= k < |trace| ==> HasHeader(trace[k])
    ensures var n := |trace| - 1;
      var (before, outcomes) := Run(fs, trace[..n]);
      Run(fs, trace) == (Receive(before, trace[n]).0, outcomes + [Receive(before, trace[n]).1])
  {
  }

  /**
   * Integrity. Let the datagrams of any number of messages, control or data,
   * fragmented or not, the fragmented ones with pairwise distinct wire IDs,
   * be lost, duplicated, reordered and interleaved in any way: a trace is any
   * sequence of them. Then every call asks for more or returns, byte for
   * byte, the message the datagram just received belongs to, with its kind.
   */
  lemma Integrity(ts: seq<Transmission>, trace: seq<seq<byte>>, from: seq<nat>)
    requires (forall n :: 0 <= n < |ts| ==> Sendable(ts[n])) && DistinctIds(ts)
    requires Genuine(ts, trace, from)
    ensures forall k :: 0 <= k < |trace| ==> HasHeader(trace[k])
    ensures forall k :: 0 <= k < |trace| ==> Faithful(ts[from[k]], Run([], trace).1[k])
  {
    GenuineHeaders(ts, trace, from);
    IntegrityFrom(ts, [], trace, from);
  }

  /**
   * Without distinct wire IDs integrity fails: for any two messages of two
   * fragments that share a wire ID and a fragment size, the first fragment of
   * one and the second of the other are returned as a message.
   */
  lemma ReusedIdMixes(t: Transmission, u: Transmission)
    requires Sendable(t) && Sendable(u) && t.Num() == u.Num() == 2 && t.room == u.room && WireId(t) == WireId(u)
    ensures var trace := [t.Datagram(0), u.Datagram(1)];
      && (forall k :: 0 <= k < |trace| ==> HasHeader(trace[k]))
      && Run([], trace).1 == [NeedResource, Reassembled(t.Chunk(0) + u.Chunk(1), KindOf(u))]
  {
    hide Pieces, Start, Receive, HasHeader, Run, Settle, Insert, IsCopy, KindOf;
    var trace := [t.Datagram(0), u.Datagram(1)];
    var a, b := Piece(t, 0), Piece(u, 1);
    ReceiveDatagram([], t, 0);
    ReceiveDatagram([a], u, 1);
    SecondPiece(t, u);
    TwoPieces(a, b, KindOf(t), KindOf(u));
    assert trace[..1] == [t.Datagram(0)];
    RunNothing([], trace[..1]);
    RunLast([], trace[..1]);
    RunLast([], trace);
  }

  lemma SecondPiece(t: Transmission, u: Transmission)
    requires Sendable(t) && Sendable(u) && t.Num() == u.Num() == 2 && t.room == u.room
    ensures Piece(t, 0).offset == 0 && |t.Chunk(0)| == t.room >= 8 && t.room % 8 == 0
    ensures Piece(u, 1).offset * 8 == u.room && u.Chunk(1) != []
  {
    hide Pieces;
    ChunkBounds(t, 0);
    ChunkBounds(u, 0);
    ChunkBounds(u, 1);
    PieceOffset(t, 0);
    PieceOffset(u, 1);
  }

  lemma SizesOfTwo(a: Fragment, b: Fragment)
    requires !a.last && b.last
    ensures TotalSize([a]) == 0 && TotalSize([b, a]) == b.offset * 8 + |b.data|
    ensures CurrentSize([b, a]) == |b.data| + |a.data|
  {
    assert [a][..0] == [] && [b, a][..1] == [b] && [b][..0] == [];
    assert CurrentSize([b][..0]) == 0;
    assert CurrentSize([b]) == |b.data|;
    assert CurrentSize([b, a]) == CurrentSize([b, a][..1]) + |[b, a][1].data|;
    assert TotalSize([a]) == TotalSize([a][..0]);
    assert TotalSize([b, a]) == TotalSize([b, a][..1]);
  }

  /** Two fragments that fit together, whatever they come from. */
  lemma TwoPieces(a: Fragment, b: Fragment, first: DataKind, second: DataKind)
    requires a.id == b.id && a.offset == 0 && !a.last && b.last && b.offset * 8 == |a.data| >= 8
    ensures !IsCopy([], a) && !IsCopy([a], b) && Insert([], a) == [a] && Insert([a], b) == [b, a]
    ensures Settle([a], first) == ([a], NeedResource)
    ensures Settle([b, a], second) == ([], Reassembled(a.data + b.data, second))
  {
    SizesOfTwo(a, b);
    assert [b, a][1..] == [a];
    assert Find([a], 0) == 0 && Find([b, a], 0) == 1 && Find([b, a], b.offset) == 0;
    WalkLast([b, a], b.offset, b.data);
    WalkStep([b, a], 0, 1, b.offset, b.data);
  }

  // ---------- completeness ----------

  /** The datagrams of t in the order given, repetitions included. */
  function Deliveries(t: Transmission, order: seq<nat>): (ds: seq<seq<byte>>)
    requires forall k :: 0 <= k < |order| ==> order[k] < t.Num()
    ensures |ds| == |order|
    ensures forall k :: 0 <= k < |order| ==> ds[k] == t.Datagram(order[k])
  {
    seq(|order|, k requires 0 <= k < |order| => t.Datagram(order[k]))
  }

  lemma SameOffsetSamePiece(t: Transmission, i: nat, j: nat)
    requires Sendable(t) && t.Fragmented() && i < t.Num() && j < t.Num()
    ensures SamePlace(Piece(t, i), Piece(t, j)) <==> i == j
  {
    if i < j { PiecesApart(t, i, j); }
    if j < i { PiecesApart(t, j, i); }
  }

  /** A piece counts as a copy exactly when it is held already. */
  lemma CopyExactlyWhenHeld(t: Transmission, fs: seq<Fragment>, i: nat)
    requires Sendable(t) && t.Fragmented() && PiecesOf(t, fs) && i < t.Num()
    ensures IsCopy(fs, Piece(t, i)) <==> Has(t, fs, i)
  {
    hide Pieces, Start;
    var f := Piece(t, i);
    if fs != [] {
      assert IsPiece(t, fs[0]);
    }
    if IsCopy(fs, f) {
      var k :| 0 <= k < |fs| && SamePlace(f, fs[k]);
      assert IsPiece(t, fs[k]);
      var j :| 0 <= j < t.Num() && fs[k] == Piece(t, j);
      SameOffsetSamePiece(t, i, j);
    }
    if Has(t, fs, i) {
      var k :| 0 <= k < |fs| && fs[k] == f;
      assert SamePlace(f, fs[k]);
    }
  }

  /** The list fs holds exactly the pieces of t delivered by `order`. */
  ghost predicate HoldsExactly(t: Transmission, fs: seq<Fragment>, order: seq<nat>) {
    PiecesOf(t, fs) && forall i :: 0 <= i < t.Num() ==> (Has(t, fs, i) <==> i in order)
  }

  /** A list that has nothing to do with t: empty, or collecting another wire ID. */
  ghost predicate Unrelated(t: Transmission, fs: seq<Fragment>) {
    fs == [] || fs[0].id != WireId(t)
  }

  /** The list after inserting piece i holds exactly one delivery more. */
  lemma InsertDelivery(t: Transmission, fs: seq<Fragment>, order: seq<nat>, i: nat)
    requires Sendable(t) && t.Fragmented() && i < t.Num()
    requires if order == [] then Unrelated(t, fs) else HoldsExactly(t, fs, order)
    ensures IsCopy(fs, Piece(t, i)) <==> order != [] && i in order
    ensures HoldsExactly(t, if IsCopy(fs, Piece(t, i)) then fs else Insert(fs, Piece(t, i)), order + [i])
  {
    hide Pieces, Start;
    var f := Piece(t, i);
    if order == [] {
      SingletonHolds(t, i);
    } else {
      CopyExactlyWhenHeld(t, fs, i);
      var j := order[0];
      if i !in order {
        GrowHolds(t, fs, order, i);
      }
    }
  }

  lemma SingletonHolds(t: Transmission, i: nat)
    requires Sendable(t) && t.Fragmented() && i < t.Num()
    ensures HoldsExactly(t, [Piece(t, i)], [i])
  {
    var gs := [Piece(t, i)];
    assert gs[0] == Piece(t, i);
    assert IsPiece(t, gs[0]);
    forall j | 0 <= j < t.Num() ensures Has(t, gs, j) <==> j in [i] {
      SameOffsetSamePiece(t, i, j);
    }
  }

  lemma GrowHolds(t: Transmission, fs: seq<Fragment>, order: seq<nat>, i: nat)
    requires Sendable(t) && t.Fragmented() && i < t.Num() && HoldsExactly(t, fs, order)
    requires i !in order
    ensures HoldsExactly(t, [Piece(t, i)] + fs, order + [i])
  {
    hide Pieces, Start;
    var gs := [Piece(t, i)] + fs;
    assert IsPiece(t, Piece(t, i));
    forall k | 0 <= k < |gs| ensures IsPiece(t, gs[k]) {
      if k > 0 { assert IsPiece(t, fs[k - 1]); }
    }
    forall k | 0 <= k < |fs| ensures fs[k].offset != Piece(t, i).offset {
      assert IsPiece(t, fs[k]);
      var j :| 0 <= j < t.Num() && fs[k] == Piece(t, j);
      assert Has(t, fs, j);
      SameOffsetSamePiece(t, i, j);
    }
    forall j | 0 <= j < t.Num() ensures Has(t, gs, j) <==> j in order + [i] {
      if Has(t, fs, j) {
        var k :| 0 <= k < |fs| && fs[k] == Piece(t, j);
        assert gs[k + 1] == Piece(t, j);
      }
      if Has(t, gs, j) && j != i {
        var k :| 0 <= k < |gs| && gs[k] == Piece(t, j);
        SameOffsetSamePiece(t, i, j);
        assert fs[k - 1] == Piece(t, j);
      }
      if j == i {
        assert gs[0] == Piece(t, i);
      }
    }
  }

  lemma DeliveryHeaders(t: Transmission, order: seq<nat>)
    requires Sendable(t) && forall k :: 0 <= k < |order| ==> order[k] < t.Num()
    ensures forall k :: 0 <= k < |order| ==> HasHeader(Deliveries(t, order)[k])
  {
    forall k | 0 <= k < |order| ensures HasHeader(Deliveries(t, order)[k]) {
      ParseDatagram(t, order[k]);
    }
  }

  lemma DeliveriesPrefix(t: Transmission, order: seq<nat>)
    requires forall k :: 0 <= k < |order| ==> order[k] < t.Num()
    ensures order != [] ==>
      var n := |order| - 1;
      Deliveries(t, order)[..n] == Deliveries(t, order[..n]) && order == order[..n] + [order[n]]
  {
  }

  /** While a piece is missing every call waits, and the list holds what was delivered. */
  lemma {:induction false} Waiting(t: Transmission, fs: seq<Fragment>, order: seq<nat>, missing: nat)
    requires Sendable(t) && t.Fragmented() && Unrelated(t, fs)
    requires forall k :: 0 <= k < |order| ==> order[k] < t.Num()
    requires missing < t.Num() && missing !in order
    requires forall k :: 0 <= k < |order| ==> HasHeader(Deliveries(t, order)[k])
    ensures forall k :: 0 <= k < |order| ==> Run(fs, Deliveries(t, order)).1[k] == NeedResource
    ensures order == [] ==> Run(fs, Deliveries(t, order)).0 == fs
    ensures order != [] ==> HoldsExactly(t, Run(fs, Deliveries(t, order)).0, order)
  {
    hide Pieces, Start, Receive, Run, Sendable, Unrelated, HoldsExactly, HasHeader, Deliveries;
    DeliveriesPrefix(t, order);
    if order == [] {
      RunNothing(fs, Deliveries(t, order));
      assert Deliveries(t, order)[..0] == Deliveries(t, order);
    } else {
      var n := |order| - 1;
      var trace := Deliveries(t, order);
      Waiting(t, fs, order[..n], missing);
      var before := Run(fs, trace[..n]).0;
      DeliveryStep(t, before, order[..n], order[n]);
      RunLast(fs, trace);
    }
  }

  /** One delivery: wait while a piece is missing, and yield the message once none is. */
  lemma DeliveryStep(t: Transmission, fs: seq<Fragment>, order: seq<nat>, i: nat)
    requires Sendable(t) && t.Fragmented() && i < t.Num()
    requires if order == [] then Unrelated(t, fs) else HoldsExactly(t, fs, order)
    requires order != [] ==> exists j :: 0 <= j < t.Num() && j !in order
    ensures HasHeader(t.Datagram(i))
    ensures var (after, outcome) := Receive(fs, t.Datagram(i));
      if forall j :: 0 <= j < t.Num() ==> j in order + [i]
      then after == [] && outcome == Reassembled(t.payload, KindOf(t))
      else outcome == NeedResource && HoldsExactly(t, after, order + [i])
  {
    hide Pieces, Start, Settle;
    ReceiveDatagram(fs, t, i);
    InsertDelivery(t, fs, order, i);
    var f := Piece(t, i);
    if IsCopy(fs, f) {
      var j :| 0 <= j < t.Num() && j !in order;
      assert j !in order + [i];
    } else {
      SettlePieces(t, Insert(fs, f), KindOf(t));
      assert HasAll(t, Insert(fs, f)) <==> forall j :: 0 <= j < t.Num() ==> j in order + [i];
    }
  }

  /**
   * Completeness. Start from an empty list, or any list collecting another
   * wire ID. Deliver the fragments of one message in any order, with any
   * repetitions, until the last missing one arrives: every call but the last
   * asks for more, and the last returns the exact message and empties the list.
   */
  lemma Completeness(t: Transmission, fs: seq<Fragment>, order: seq<nat>)
    requires Sendable(t) && t.Fragmented() && Unrelated(t, fs)
    requires forall k :: 0 <= k < |order| ==> order[k] < t.Num()
    requires forall i :: 0 <= i < t.Num() ==> i in order
    requires order != [] && order[|order| - 1] !in order[..|order| - 1]
    ensures forall k :: 0 <= k < |order| ==> HasHeader(Deliveries(t, order)[k])
    ensures var (after, outcomes) := Run(fs, Deliveries(t, order));
      && after == []
      && outcomes[|order| - 1] == Reassembled(t.payload, KindOf(t))
      && forall k :: 0 <= k < |order| - 1 ==> outcomes[k] == NeedResource
  {
    hide Pieces, Start, Receive, Run, Sendable, Unrelated, HoldsExactly, HasHeader, Deliveries;
    DeliveryHeaders(t, order);
    DeliveriesPrefix(t, order);
    var n := |order| - 1;
    var trace := Deliveries(t, order);
    Waiting(t, fs, order[..n], order[n]);
    DeliveryStep(t, Run(fs, trace[..n]).0, order[..n], order[n]);
    RunLast(fs, trace);
  }
}
