/**
 * Reassembly as a function of the fragments held: what one call of
 * CWProtocolParseFragment (CWProtocol.c) returns and leaves in its list.
 * Receiver.dfy proves that the list-walking code computes this function.
 */
module Reassembly {
  import opened Wire
  import opened TransportHeader

  /** CWProtocolFragment, with the header values the receiver keeps. */
  datatype Fragment = Fragment(id: nat, offset: nat, last: bool, data: seq<byte>)

  datatype Outcome =
    | Reassembled(bytes: seq<byte>, kind: DataKind)  // CW_TRUE
    | NeedResource                                   // CW_ERROR_NEED_RESOURCE
    | InvalidFormat                                  // CW_ERROR_INVALID_FORMAT
    | Stalled                                        // the offset walk would never end

  // ---------- the three loops ----------

  /**
   * totalSize: the loop visits the whole list, so the last fragment met with
   * the L bit decides.
   */
  function TotalSize(fs: seq<Fragment>): nat {
    if fs == [] then 0
    else
      var f := fs[|fs| - 1];
      if f.last then f.offset * 8 + |f.data| else TotalSize(fs[..|fs| - 1])
  }

  /** currentSize */
  function CurrentSize(fs: seq<Fragment>): nat {
    if fs == [] then 0 else CurrentSize(fs[..|fs| - 1]) + |fs[|fs| - 1].data|
  }

  /** The first fragment with the given offset, or |fs|. */
  function Find(fs: seq<Fragment>, offset: nat): (i: nat)
    ensures i <= |fs|
    ensures i < |fs| ==> fs[i].offset == offset
    ensures forall k :: 0 <= k < i ==> fs[k].offset != offset
  {
    if fs == [] then 0
    else if fs[0].offset == offset then 0
    else 1 + Find(fs[1..], offset)
  }

  datatype WalkResult = Complete(bytes: seq<byte>) | Hole | Endless {
    function Prepend(pre: seq<byte>): WalkResult {
      match this
      case Complete(bytes) => Complete(pre + bytes)
      case _ => this
    }
  }

  /** Bytes held in fragments that start at or after the given offset. */
  function SizeFrom(fs: seq<Fragment>, offset: nat): (n: nat) {
    if fs == [] then 0
    else SizeFrom(fs[..|fs| - 1], offset) + (if fs[|fs| - 1].offset >= offset then |fs[|fs| - 1].data| else 0)
  }

  function MaxOffset(fs: seq<Fragment>): (m: nat)
    ensures forall k :: 0 <= k < |fs| ==> fs[k].offset <= m
  {
    if fs == [] then 0
    else
      var m := MaxOffset(fs[1..]);
      if fs[0].offset > m then fs[0].offset else m
  }

  /**
   * The offset walk: copy the fragment at the current offset, stop if it has
   * the L bit, else advance by its length in groups of 8. A non-last fragment
   * of fewer than 8 bytes does not advance, and the walk would repeat forever.
   */
  function Walk(fs: seq<Fragment>, offset: nat): (r: WalkResult)
    decreases MaxOffset(fs) + 1 - offset
  {
    var i := Find(fs, offset);
    if i == |fs| then Hole
    else if fs[i].last then Complete(fs[i].data)
    else if |fs[i].data| < 8 then Endless
    else Walk(fs, offset + |fs[i].data| / 8).Prepend(fs[i].data)
  }

  // ---------- one call ----------

  /** CWCompareFragment */
  predicate SamePlace(f: Fragment, g: Fragment) {
    f.id == g.id && f.offset == g.offset
  }

  /** The list after a fragment is added; unchanged when it is a copy of one held. */
  function Insert(fs: seq<Fragment>, f: Fragment): seq<Fragment> {
    if fs == [] || fs[0].id == f.id then
      if exists k :: 0 <= k < |fs| && SamePlace(f, fs[k]) then fs else [f] + fs
    else [f]
  }

  predicate IsCopy(fs: seq<Fragment>, f: Fragment) {
    fs != [] && fs[0].id == f.id && exists k :: 0 <= k < |fs| && SamePlace(f, fs[k])
  }

  /** The completeness test. */
  predicate PassesSizeTest(fs: seq<Fragment>) {
    TotalSize(fs) != 0 && CurrentSize(fs) == TotalSize(fs)
  }

  /** The test and the walk that follow the insertion. */
  function Settle(fs: seq<Fragment>, kind: DataKind): (seq<Fragment>, Outcome) {
    if !PassesSizeTest(fs) then (fs, NeedResource)
    else
      match Walk(fs, 0)
      case Complete(bytes) => ([], Reassembled(bytes, kind))
      case Hole => ([], InvalidFormat)
      case Endless => (fs, Stalled)
  }

  /** The fragment carried by a datagram whose header parsed to h. */
  function FragmentOf(d: seq<byte>, h: ParsedHeader): Fragment
    requires HasHeader(d)
  {
    Fragment(h.fragmentID, h.fragmentOffset, h.last == 1, d[HeaderLength(d)..])
  }

  /** CWProtocolParseFragment on datagram d with list fs. */
  function Receive(fs: seq<Fragment>, d: seq<byte>): (seq<Fragment>, Outcome)
    requires HasHeader(d)
  {
    match ParseHeader(d)
    case None => (fs, InvalidFormat)
    case Some(h) =>
      if h.isFragment == 0 then (fs, Reassembled(d[HeaderLength(d)..], h.kind))
      else
        var f := FragmentOf(d, h);
        if IsCopy(fs, f) then (fs, NeedResource)
        else Settle(Insert(fs, f), h.kind)
  }

  // ---------- the receiver's list invariant ----------

  ghost predicate OneId(fs: seq<Fragment>) {
    forall i, j :: 0 <= i < |fs| && 0 <= j < |fs| ==> fs[i].id == fs[j].id
  }

  ghost predicate DistinctOffsets(fs: seq<Fragment>) {
    forall i, j :: 0 <= i < j < |fs| ==> fs[i].offset != fs[j].offset
  }

  ghost predicate ListInvariant(fs: seq<Fragment>) {
    OneId(fs) && DistinctOffsets(fs) && !PassesSizeTest(fs)
  }

  /**
   * Whatever arrives, a call that returns leaves a list with one fragment ID,
   * no two fragments at one offset, and either nothing or an incomplete set.
   */
  lemma ReceiveKeepsInvariant(fs: seq<Fragment>, d: seq<byte>)
    requires ListInvariant(fs) && HasHeader(d)
    ensures Receive(fs, d).1 != Stalled ==> ListInvariant(Receive(fs, d).0)
  {
    match ParseHeader(d)
    case None =>
    case Some(h) =>
      var f := FragmentOf(d, h);
      InsertKeepsShape(fs, f);
  }

  lemma InsertKeepsShape(fs: seq<Fragment>, f: Fragment)
    requires OneId(fs) && DistinctOffsets(fs)
    ensures OneId(Insert(fs, f)) && DistinctOffsets(Insert(fs, f))
    ensures Insert(fs, f) != [] && Insert(fs, f)[0].id == f.id
  {
    if fs != [] && fs[0].id == f.id && !IsCopy(fs, f) {
      assert forall k :: 0 <= k < |fs| ==> !SamePlace(f, fs[k]);
    }
  }

  /** A copy of a fragment held changes nothing and asks for more. */
  lemma DuplicateIgnored(fs: seq<Fragment>, d: seq<byte>, k: nat)
    requires ListInvariant(fs) && HasHeader(d)
    requires ParseHeader(d).Some? && ParseHeader(d).value.isFragment != 0
    requires k < |fs| && SamePlace(FragmentOf(d, ParseHeader(d).value), fs[k])
    ensures Receive(fs, d) == (fs, NeedResource)
  {
    assert fs[0].id == fs[k].id;
  }

  // ---------- the walk stays within its buffer ----------

  /** A fragment at `offset` and everything from beyond it fit in what lies from `offset` on. */
  lemma {:induction false} SizeFromSplits(fs: seq<Fragment>, offset: nat, next: nat, i: nat)
    requires i < |fs| && offset <= fs[i].offset < next
    ensures SizeFrom(fs, offset) >= |fs[i].data| + SizeFrom(fs, next)
  {
    var n := |fs| - 1;
    if i == n {
      SizeFromMonotonic(fs[..n], offset, next);
    } else {
      SizeFromSplits(fs[..n], offset, next, i);
    }
  }

  lemma {:induction false} SizeFromMonotonic(fs: seq<Fragment>, offset: nat, next: nat)
    requires offset <= next
    ensures SizeFrom(fs, offset) >= SizeFrom(fs, next)
  {
    if fs != [] {
      SizeFromMonotonic(fs[..|fs| - 1], offset, next);
    }
  }

  lemma {:induction false} SizeFromZero(fs: seq<Fragment>)
    ensures SizeFrom(fs, 0) == CurrentSize(fs)
  {
    if fs != [] {
      SizeFromZero(fs[..|fs| - 1]);
    }
  }

  /** What a terminating walk copies is at most what the list holds from there on. */
  lemma {:induction false} WalkBounded(fs: seq<Fragment>, offset: nat)
    requires Walk(fs, offset).Complete?
    ensures |Walk(fs, offset).bytes| <= SizeFrom(fs, offset)
    decreases MaxOffset(fs) + 1 - offset
  {
    var i := Find(fs, offset);
    var f := fs[i];
    if f.last {
      SizeFromSplits(fs, offset, offset + 1, i);
    } else {
      var next := offset + |f.data| / 8;
      WalkBounded(fs, next);
      SizeFromSplits(fs, offset, next, i);
    }
  }

  // ---------- when the walk ends ----------

  /**
   * The loop itself, without Walk's shortcut: currentOffset after n rounds
   * starting from `offset`, or None once the loop has been left.
   */
  function PositionAfter(fs: seq<Fragment>, offset: nat, n: nat): Option<nat>
    decreases n
  {
    if n == 0 then Some(offset)
    else
      var i := Find(fs, offset);
      if i == |fs| || fs[i].last then None
      else PositionAfter(fs, offset + |fs[i].data| / 8, n - 1)
  }

  lemma {:induction false} EndlessKeepsRunning(fs: seq<Fragment>, offset: nat, n: nat)
    requires Walk(fs, offset) == Endless
    ensures PositionAfter(fs, offset, n).Some?
    decreases n
  {
    if n > 0 {
      EndlessKeepsRunning(fs, offset + |fs[Find(fs, offset)].data| / 8, n - 1);
    }
  }

  lemma {:induction false} OthersStop(fs: seq<Fragment>, offset: nat) returns (n: nat)
    requires Walk(fs, offset) != Endless
    ensures PositionAfter(fs, offset, n).None?
    decreases MaxOffset(fs) + 1 - offset
  {
    var i := Find(fs, offset);
    if i == |fs| || fs[i].last {
      n := 1;
    } else {
      n := OthersStop(fs, offset + |fs[i].data| / 8);
      n := n + 1;
    }
  }

  /** Walk says Endless exactly when the loop of the source never ends. */
  lemma EndlessExactly(fs: seq<Fragment>, offset: nat)
    ensures Walk(fs, offset) == Endless <==> forall n: nat :: PositionAfter(fs, offset, n).Some?
  {
    if Walk(fs, offset) == Endless {
      forall n: nat ensures PositionAfter(fs, offset, n).Some? {
        EndlessKeepsRunning(fs, offset, n);
      }
    } else {
      var n := OthersStop(fs, offset);
      assert PositionAfter(fs, offset, n).None?;
    }
  }

  /** A fragment the walk cannot step over. */
  predicate Short(f: Fragment) {
    !f.last && |f.data| < 8
  }

  /** The walk from `offset` comes to stand on a short fragment after n rounds. */
  predicate MeetsShort(fs: seq<Fragment>, offset: nat, n: nat) {
    var p := PositionAfter(fs, offset, n);
    p.Some? && Find(fs, p.value) < |fs| && Short(fs[Find(fs, p.value)])
  }

  /** The walk never ends exactly when it comes to stand on a short fragment. */
  lemma {:induction false} StallsExactly(fs: seq<Fragment>, offset: nat)
    ensures Walk(fs, offset) == Endless <==> exists n: nat :: MeetsShort(fs, offset, n)
    decreases MaxOffset(fs) + 1 - offset
  {
    var i := Find(fs, offset);
    if i < |fs| && !fs[i].last {
      if Short(fs[i]) {
        assert MeetsShort(fs, offset, 0);
      } else {
        var next := offset + |fs[i].data| / 8;
        StallsExactly(fs, next);
        forall n: nat | MeetsShort(fs, next, n) ensures MeetsShort(fs, offset, n + 1) {}
        forall n: nat | MeetsShort(fs, offset, n) ensures n > 0 && MeetsShort(fs, next, n - 1) {}
      }
    } else {
      forall n: nat ensures !MeetsShort(fs, offset, n) {}
    }
  }

  /** So it ends whenever no fragment held is short; the senders cut none. */
  lemma {:induction false} WalkEnds(fs: seq<Fragment>, offset: nat)
    requires forall k :: 0 <= k < |fs| ==> !Short(fs[k])
    ensures Walk(fs, offset) != Endless
    decreases MaxOffset(fs) + 1 - offset
  {
    var i := Find(fs, offset);
    if i < |fs| && !fs[i].last {
      WalkEnds(fs, offset + |fs[i].data| / 8);
    }
  }

  /** How many bytes the loop has copied after n rounds. */
  function CopiedAfter(fs: seq<Fragment>, offset: nat, n: nat): nat
    decreases n
  {
    var i := Find(fs, offset);
    if n == 0 || i == |fs| then 0
    else if fs[i].last then |fs[i].data|
    else |fs[i].data| + CopiedAfter(fs, offset + |fs[i].data| / 8, n - 1)
  }

  /** The fragment the walk comes to stand on after n rounds has bytes to copy. */
  predicate StandsOnBytes(fs: seq<Fragment>, offset: nat, n: nat) {
    MeetsShort(fs, offset, n) && fs[Find(fs, PositionAfter(fs, offset, n).value)].data != []
  }

  /** Otherwise the loop, finished or not, copies at most what the list holds from its start on. */
  lemma {:induction false} CopiesBounded(fs: seq<Fragment>, offset: nat, n: nat)
    requires forall m: nat :: !StandsOnBytes(fs, offset, m)
    ensures CopiedAfter(fs, offset, n) <= SizeFrom(fs, offset)
    decreases n
  {
    hide SizeFrom;
    var i := Find(fs, offset);
    if n > 0 && i < |fs| {
      var next := offset + |fs[i].data| / 8;
      if fs[i].last {
        SizeFromSplits(fs, offset, offset + 1, i);
      } else {
        assert !StandsOnBytes(fs, offset, 0);
        forall m: nat ensures !StandsOnBytes(fs, next, m) {
          assert !StandsOnBytes(fs, offset, m + 1);
        }
        CopiesBounded(fs, next, n - 1);
        if |fs[i].data| >= 8 {
          SizeFromSplits(fs, offset, next, i);
        }
      }
    }
  }

  /** Standing on bytes, it copies them again in every round. */
  lemma {:induction false} CopiesGrow(fs: seq<Fragment>, offset: nat, m: nat, n: nat)
    requires StandsOnBytes(fs, offset, m)
    ensures CopiedAfter(fs, offset, m + n) >= n
    decreases m + n
  {
    var next := offset + |fs[Find(fs, offset)].data| / 8;
    if m > 0 {
      CopiesGrow(fs, next, m - 1, n);
    } else if n > 0 {
      CopiesGrow(fs, offset, 0, n - 1);
    }
  }

  /**
   * After a successful completeness test the loop stays within the totalSize
   * bytes allocated for it, in every round and whatever it ends in, exactly
   * when it never comes to stand on a short fragment that has bytes.
   */
  lemma WalkFitsBuffer(fs: seq<Fragment>)
    requires PassesSizeTest(fs)
    ensures (forall n: nat :: CopiedAfter(fs, 0, n) <= TotalSize(fs)) <==> forall m: nat :: !StandsOnBytes(fs, 0, m)
    ensures Walk(fs, 0).Complete? ==> |Walk(fs, 0).bytes| <= TotalSize(fs)
  {
    hide StandsOnBytes, Walk;
    SizeFromZero(fs);
    if forall m: nat :: !StandsOnBytes(fs, 0, m) {
      forall n: nat ensures CopiedAfter(fs, 0, n) <= TotalSize(fs) {
        CopiesBounded(fs, 0, n);
      }
    } else {
      var m: nat :| StandsOnBytes(fs, 0, m);
      CopiesGrow(fs, 0, m, TotalSize(fs) + 1);
    }
    if Walk(fs, 0).Complete? {
      WalkBounded(fs, 0);
    }
  }

  /** Three fragments that pass the completeness test and make the walk stand still. */
  lemma StallExample()
    ensures var short := [0, 0, 0, 0];
      var fs := [Fragment(7, 1, true, [0]), Fragment(7, 5, false, short), Fragment(7, 0, false, short)];
      OneId(fs) && DistinctOffsets(fs) && PassesSizeTest(fs) && Settle(fs, Unset).1 == Stalled
  {
    var a, b, c := Fragment(7, 1, true, [0]), Fragment(7, 5, false, [0, 0, 0, 0]), Fragment(7, 0, false, [0, 0, 0, 0]);
    var fs := [a, b, c];
    assert fs[..2] == [a, b] && [a, b][..1] == [a] && [a][..0] == [];
    assert TotalSize([a]) == 9 && TotalSize([a, b]) == 9 && TotalSize(fs) == 9;
    assert CurrentSize([a]) == 1 && CurrentSize([a, b]) == 5 && CurrentSize(fs) == 9;
    assert fs[1..] == [b, c] && [b, c][1..] == [c];
    assert Find([c], 0) == 0 && Find([b, c], 0) == 1 && Find(fs, 0) == 2;
  }

  // ---------- the completeness test is sound, and exact ----------

  /** What the senders guarantee of the fragments of one message. */
  ghost predicate WellCut(fs: seq<Fragment>) {
    && DistinctOffsets(fs)
    && (forall k :: 0 <= k < |fs| ==> |fs[k].data| > 0)
    && (forall k :: 0 <= k < |fs| && !fs[k].last ==> |fs[k].data| % 8 == 0)
    && (forall j, k :: 0 <= j < |fs| && 0 <= k < |fs| && fs[j].last && fs[k].last ==> j == k)
  }

  /** Fragment f lies in out, shifted by `base` groups of 8 bytes. */
  ghost predicate Lies(f: Fragment, out: seq<byte>, base: nat)
    requires f.offset >= base
  {
    var lo := 8 * (f.offset - base);
    lo + |f.data| <= |out| && out[lo..lo + |f.data|] == f.data
  }

  ghost predicate Disjoint(f: Fragment, g: Fragment) {
    8 * f.offset + |f.data| <= 8 * g.offset || 8 * g.offset + |g.data| <= 8 * f.offset
  }

  ghost predicate Covers(f: Fragment, p: int) {
    8 * f.offset <= p < 8 * f.offset + |f.data|
  }

  /** Some fragment starting at or after `base` holds byte p. */
  ghost predicate Covered(fs: seq<Fragment>, base: nat, p: int) {
    exists k :: 0 <= k < |fs| && fs[k].offset >= base && Covers(fs[k], p)
  }

  /** The fragments starting at or after `base` tile out exactly, each used once. */
  ghost predicate TileFrom(fs: seq<Fragment>, out: seq<byte>, base: nat) {
    && (forall k :: 0 <= k < |fs| && fs[k].offset >= base ==> Lies(fs[k], out, base))
    && (forall j, k :: 0 <= j < k < |fs| && fs[j].offset >= base && fs[k].offset >= base ==> Disjoint(fs[j], fs[k]))
    && (forall p :: 8 * base <= p < 8 * base + |out| ==> Covered(fs, base, p))
  }

  /** Every byte of out comes from exactly one fragment, at the place its offset names. */
  ghost predicate Tiles(fs: seq<Fragment>, out: seq<byte>) {
    TileFrom(fs, out, 0)
  }

  lemma {:induction false} TwoSplit(fs: seq<Fragment>, offset: nat, next: nat, i: nat, k: nat)
    requires i < |fs| && k < |fs| && i != k && offset <= fs[i].offset < next && offset <= fs[k].offset < next
    ensures SizeFrom(fs, offset) >= |fs[i].data| + |fs[k].data| + SizeFrom(fs, next)
  {
    var n := |fs| - 1;
    if i == n {
      SizeFromSplits(fs[..n], offset, next, k);
    } else if k == n {
      SizeFromSplits(fs[..n], offset, next, i);
    } else {
      TwoSplit(fs[..n], offset, next, i, k);
    }
  }

  lemma {:induction false} TotalSizeOfLast(fs: seq<Fragment>, i: nat)
    requires WellCut(fs) && i < |fs| && fs[i].last
    ensures TotalSize(fs) == 8 * fs[i].offset + |fs[i].data|
  {
    var n := |fs| - 1;
    if i < n {
      assert !fs[n].last;
      TotalSizeOfLast(fs[..n], i);
    }
  }

  /** A walk ends where the last fragment ends. */
  lemma {:induction false} WalkLength(fs: seq<Fragment>, offset: nat)
    requires WellCut(fs) && Walk(fs, offset).Complete?
    ensures 8 * offset + |Walk(fs, offset).bytes| == TotalSize(fs)
    decreases MaxOffset(fs) + 1 - offset
  {
    var i := Find(fs, offset);
    if fs[i].last {
      TotalSizeOfLast(fs, i);
    } else {
      WalkLength(fs, offset + |fs[i].data| / 8);
    }
  }

  /** Only the fragment the walk stands on starts in what it copies. */
  lemma NothingBetween(fs: seq<Fragment>, offset: nat, next: nat, i: nat)
    requires WellCut(fs) && i < |fs| && fs[i].offset == offset < next
    requires SizeFrom(fs, offset) <= |fs[i].data| + SizeFrom(fs, next)
    ensures forall k :: 0 <= k < |fs| && k != i && fs[k].offset >= offset ==> fs[k].offset >= next
  {
    forall k | 0 <= k < |fs| && k != i && fs[k].offset >= offset
      ensures fs[k].offset >= next
    {
      if fs[k].offset < next {
        TwoSplit(fs, offset, next, i, k);
      }
    }
  }

  lemma TileOne(fs: seq<Fragment>, offset: nat, i: nat)
    requires i < |fs| && fs[i].offset == offset
    requires forall k :: 0 <= k < |fs| && k != i ==> fs[k].offset < offset
    ensures TileFrom(fs, fs[i].data, offset)
  {
    forall p | 8 * offset <= p < 8 * offset + |fs[i].data|
      ensures Covered(fs, offset, p)
    {
      assert Covers(fs[i], p);
    }
  }

  lemma TileMore(fs: seq<Fragment>, offset: nat, next: nat, i: nat, rest: seq<byte>)
    requires i < |fs| && fs[i].offset == offset < next && 8 * (next - offset) == |fs[i].data|
    requires forall k :: 0 <= k < |fs| && k != i && fs[k].offset >= offset ==> fs[k].offset >= next
    requires TileFrom(fs, rest, next)
    ensures TileFrom(fs, fs[i].data + rest, offset)
  {
    var out := fs[i].data + rest;
    forall k | 0 <= k < |fs| && fs[k].offset >= offset
      ensures Lies(fs[k], out, offset)
    {
      if k != i {
        assert Lies(fs[k], rest, next);
        var lo := 8 * (fs[k].offset - next);
        assert out[lo + |fs[i].data|..lo + |fs[i].data| + |fs[k].data|] == rest[lo..lo + |fs[k].data|];
      }
    }
    forall p | 8 * offset <= p < 8 * offset + |out|
      ensures Covered(fs, offset, p)
    {
      if p < 8 * next {
        assert Covers(fs[i], p);
      } else {
        assert Covered(fs, next, p);
        var k :| 0 <= k < |fs| && fs[k].offset >= next && Covers(fs[k], p);
        assert fs[k].offset >= offset;
      }
    }
  }

  lemma {:induction false} WalkTiles(fs: seq<Fragment>, offset: nat)
    requires WellCut(fs) && Walk(fs, offset).Complete?
    requires |Walk(fs, offset).bytes| == SizeFrom(fs, offset)
    ensures TileFrom(fs, Walk(fs, offset).bytes, offset)
    decreases MaxOffset(fs) + 1 - offset
  {
    hide TileFrom;
    var i := Find(fs, offset);
    var f := fs[i];
    if f.last {
      var next := MaxOffset(fs) + 1;
      NothingBetween(fs, offset, next, i);
      TileOne(fs, offset, i);
    } else {
      var next := offset + |f.data| / 8;
      WalkBounded(fs, next);
      SizeFromSplits(fs, offset, next, i);
      NothingBetween(fs, offset, next, i);
      WalkTiles(fs, next);
      TileMore(fs, offset, next, i, Walk(fs, next).bytes);
    }
  }

  /** After a tile that is not the last there is another one, starting where it ends. */
  lemma NextTile(fs: seq<Fragment>, out: seq<byte>, i: nat) returns (k: nat)
    requires WellCut(fs) && Tiles(fs, out) && TotalSize(fs) == |out|
    requires i < |fs| && !fs[i].last
    requires exists z :: 0 <= z < |fs| && fs[z].last
    ensures k < |fs| && fs[k].offset == fs[i].offset + |fs[i].data| / 8
    ensures 8 * fs[k].offset < |out|
  {
    var end := 8 * fs[i].offset + |fs[i].data|;
    var z :| 0 <= z < |fs| && fs[z].last;
    TotalSizeOfLast(fs, z);
    assert Apart(fs, i, z) && Lies(fs[i], out, 0);
    assert end < |out|;
    assert Covered(fs, 0, end);
    k :| 0 <= k < |fs| && fs[k].offset >= 0 && Covers(fs[k], end);
    assert Apart(fs, i, k);
  }

  /** Standing where a tile starts, the walk copies the rest of what is tiled. */
  lemma {:induction false} TiledWalk(fs: seq<Fragment>, out: seq<byte>, offset: nat, i: nat)
    requires WellCut(fs) && Tiles(fs, out) && TotalSize(fs) == |out|
    requires i < |fs| && fs[i].offset == offset && 8 * offset < |out|
    requires exists z :: 0 <= z < |fs| && fs[z].last
    ensures Walk(fs, offset) == WalkResult.Complete(out[8 * offset..])
    decreases MaxOffset(fs) + 1 - offset
  {
    hide Walk, MaxOffset, TotalSize, Find, TileFrom;
    var f := fs[i];
    TileFound(fs, out, offset, i);
    TailAfter(out, 8 * offset, f.data);
    if f.last {
      TotalSizeOfLast(fs, i);
      WalkLast(fs, offset, out[8 * offset..]);
    } else {
      var k := NextTile(fs, out, i);
      var next := fs[k].offset;
      OffsetBound(fs, i);
      TiledWalk(fs, out, next, k);
      WalkStep(fs, offset, i, next, out[8 * next..]);
    }
  }

  lemma OffsetBound(fs: seq<Fragment>, i: nat)
    requires i < |fs|
    ensures fs[i].offset <= MaxOffset(fs)
  {
  }

  lemma TileFound(fs: seq<Fragment>, out: seq<byte>, offset: nat, i: nat)
    requires WellCut(fs) && Tiles(fs, out) && i < |fs| && fs[i].offset == offset
    ensures Find(fs, offset) == i
    ensures 8 * offset + |fs[i].data| <= |out| && out[8 * offset..8 * offset + |fs[i].data|] == fs[i].data
  {
    hide Walk, MaxOffset, TotalSize;
    assert Lies(fs[i], out, 0);
  }

  lemma TailAfter(out: seq<byte>, lo: nat, data: seq<byte>)
    requires lo + |data| <= |out| && out[lo..lo + |data|] == data
    ensures out[lo..] == data + out[lo + |data|..]
  {
    assert out[lo..] == out[lo..lo + |data|] + out[lo + |data|..];
  }

  lemma WalkLast(fs: seq<Fragment>, offset: nat, rest: seq<byte>)
    requires var i := Find(fs, offset); i < |fs| && fs[i].last && fs[i].data == rest
    ensures Walk(fs, offset) == WalkResult.Complete(rest)
  {
  }

  lemma WalkStep(fs: seq<Fragment>, offset: nat, i: nat, next: nat, rest: seq<byte>)
    requires i == Find(fs, offset) < |fs| && !fs[i].last
    requires offset < next == offset + |fs[i].data| / 8
    requires Walk(fs, next) == WalkResult.Complete(rest)
    ensures Walk(fs, offset) == WalkResult.Complete(fs[i].data + rest)
  {
  }

  ghost predicate Apart(fs: seq<Fragment>, i: nat, k: nat)
    requires i < |fs| && k < |fs|
  {
    i == k || Disjoint(fs[i], fs[k]) || Disjoint(fs[k], fs[i])
  }

  /**
   * For well-cut fragments that pass the completeness test the walk returns
   * `out` exactly when the fragments tile it and it is totalSize long; when
   * they tile nothing it reports INVALID_FORMAT and empties the list.
   */
  lemma CompletenessTestExact(fs: seq<Fragment>, kind: DataKind)
    requires WellCut(fs) && PassesSizeTest(fs)
    ensures forall out :: Settle(fs, kind) == ([], Reassembled(out, kind)) <==> |out| == TotalSize(fs) && Tiles(fs, out)
    ensures (forall out :: |out| == TotalSize(fs) ==> !Tiles(fs, out)) ==> Settle(fs, kind) == ([], InvalidFormat)
  {
    WalkEnds(fs, 0);
    if Walk(fs, 0).Complete? {
      WalkLength(fs, 0);
      SizeFromZero(fs);
      WalkTiles(fs, 0);
    }
    forall out | |out| == TotalSize(fs) && Tiles(fs, out)
      ensures Walk(fs, 0) == WalkResult.Complete(out)
    {
      assert Covered(fs, 0, 0);
      var k :| 0 <= k < |fs| && fs[k].offset >= 0 && Covers(fs[k], 0);
      SomeLast(fs);
      TiledWalk(fs, out, 0, k);
    }
  }

  lemma {:induction false} SomeLast(fs: seq<Fragment>)
    requires TotalSize(fs) != 0
    ensures exists k :: 0 <= k < |fs| && fs[k].last
  {
    var n := |fs| - 1;
    if !fs[n].last {
      SomeLast(fs[..n]);
      var k :| 0 <= k < n && fs[..n][k].last;
      assert fs[k].last;
    }
  }
}
