/** Network-order encoding and the CWProtocolMessage buffer of CWProtocol.c. */
module Wire {

  type byte = x: int | 0 <= x < 256

  datatype Option<+T> = None | Some(value: T)

  /**
   * What a parser makes of a buffer: a value, INVALID_FORMAT, or a read
   * outside the buffer, which the source does not check for and about which
   * nothing more is said.
   */
  datatype Reading<+T> = Read(value: T) | Malformed | Outside

  // ---------- network-order words ----------

  /** What htons leaves in memory for the low 16 bits of v. */
  function Bytes16(v: int): (b: seq<byte>)
    ensures |b| == 2
  {
    [v / 0x100 % 0x100, v % 0x100]
  }

  /** What htonl leaves in memory for the low 32 bits of v. */
  function Bytes32(v: int): (b: seq<byte>)
    ensures |b| == 4
  {
    Bytes16(v / 0x1_0000) + Bytes16(v)
  }

  function Word16(s: seq<byte>, at: nat): (v: int)
    requires at + 2 <= |s|
    ensures 0 <= v < 0x1_0000
  {
    s[at] as int * 0x100 + s[at + 1] as int
  }

  function Word32(s: seq<byte>, at: nat): (v: int)
    requires at + 4 <= |s|
    ensures 0 <= v < 0x1_0000_0000
  {
    Word16(s, at) * 0x1_0000 + Word16(s, at + 2)
  }

  /** A stored 16-bit word is read back modulo 2^16, wherever it sits. */
  lemma Word16OfBytes16(s: seq<byte>, at: nat, v: int)
    requires at + 2 <= |s| && s[at..at + 2] == Bytes16(v)
    ensures Word16(s, at) == v % 0x1_0000
  {
    assert s[at] == s[at..at + 2][0] && s[at + 1] == s[at..at + 2][1];
  }

  /** The halves of a 32-bit word. */
  lemma SplitModulus(v: int)
    ensures v / 0x1_0000 % 0x1_0000 * 0x1_0000 + v % 0x1_0000 == v % 0x1_0000_0000
  {
    var high := v / 0x1_0000;
    assert v == high / 0x1_0000 * 0x1_0000_0000 + (high % 0x1_0000 * 0x1_0000 + v % 0x1_0000);
  }

  /** A stored 32-bit word is read back modulo 2^32, wherever it sits. */
  lemma Word32OfBytes32(s: seq<byte>, at: nat, v: int)
    requires at + 4 <= |s| && s[at..at + 4] == Bytes32(v)
    ensures Word32(s, at) == v % 0x1_0000_0000
  {
    assert s[at..at + 2] == s[at..at + 4][..2] && s[at + 2..at + 4] == s[at..at + 4][2..];
    Word16OfBytes16(s, at, v / 0x1_0000);
    Word16OfBytes16(s, at + 2, v);
    SplitModulus(v);
  }

  /** A slice of a slice. */
  lemma SubSlice(s: seq<byte>, at: nat, b: seq<byte>, i: nat, j: nat)
    requires at + |b| <= |s| && s[at..at + |b|] == b && i <= j <= |b|
    ensures s[at + i..at + j] == b[i..j]
  {
    assert forall k :: 0 <= k < |b| ==> s[at + k] == b[k];
  }

  /** A word read is stored as the bytes it was read from. */
  lemma BytesOfWord16(s: seq<byte>, at: nat)
    requires at + 2 <= |s|
    ensures Bytes16(Word16(s, at)) == s[at..at + 2]
  {
    BytesOfNumber(s[at], s[at + 1]);
  }

  /** The two bytes of a number below 2^16. */
  lemma BytesOfNumber(high: byte, low: byte)
    ensures Bytes16(high as int * 0x100 + low as int) == [high, low]
  {
    var v := high as int * 0x100 + low as int;
    assert v / 0x100 == high as int && v % 0x100 == low as int;
  }

  lemma BytesOfWord32(s: seq<byte>, at: nat)
    requires at + 4 <= |s|
    ensures Bytes32(Word32(s, at)) == s[at..at + 4]
  {
    hide Bytes16, Word16;
    var high, low := Word16(s, at), Word16(s, at + 2);
    var v := Word32(s, at);
    assert v / 0x1_0000 == high && v == high * 0x1_0000 + low;
    LowHalf(v, high, low);
    BytesOfWord16(s, at);
    BytesOfWord16(s, at + 2);
    assert s[at..at + 4] == s[at..at + 2] + s[at + 2..at + 4];
  }

  /** The low half of a word decides its low two bytes. */
  lemma LowHalf(v: int, high: int, low: nat)
    requires v == high * 0x1_0000 + low
    ensures Bytes16(v) == Bytes16(low)
  {
    var q := low / 0x100;
    assert v == (high * 0x100 + q) * 0x100 + low % 0x100;
    assert v / 0x100 == high * 0x100 + q;
  }

  /** Two neighbouring slices. */
  lemma Join(s: seq<byte>, i: nat, j: nat, k: nat)
    requires i <= j <= k <= |s|
    ensures s[i..j] + s[j..k] == s[i..k]
  {
  }

  // ---------- the message buffer ----------

  /**
   * CWProtocolMessage: a heap buffer and the offset every Store* and
   * Retrieve* advances. While a message is being built the bytes below the
   * offset are its contents; while it is parsed they are what has been read.
   */
  class ProtocolMessage {
    var msg: array<byte>
    var offset: nat

    ghost predicate Valid()
      reads this
    {
      offset <= msg.Length
    }

    /** The bytes stored so far. */
    ghost function Stored(): seq<byte>
      requires Valid()
      reads this, msg
    {
      msg[..offset]
    }

    /** CW_CREATE_PROTOCOL_MESSAGE: a zeroed buffer with the offset at its start. */
    constructor (size: nat)
      ensures Valid() && fresh(msg) && msg.Length == size
      ensures offset == 0 && Stored() == []
    {
      msg := new byte[size](_ => 0);
      offset := 0;
    }

    /** Wraps a buffer that is already filled, as the parsers do. */
    constructor Over(buf: array<byte>)
      ensures Valid() && msg == buf && offset == 0
    {
      msg := buf;
      offset := 0;
    }

    method Store8(val: int)
      requires Valid() && offset + 1 <= msg.Length
      modifies this`offset, msg
      ensures Valid() && msg == old(msg) && offset == old(offset) + 1
      ensures Stored() == old(Stored()) + [val % 0x100]
    {
      msg[offset] := val % 0x100;
      offset := offset + 1;
    }

    method StoreRawBytes(bytes: seq<byte>)
      requires Valid() && offset + |bytes| <= msg.Length
      modifies this`offset, msg
      ensures Valid() && msg == old(msg) && offset == old(offset) + |bytes|
      ensures Stored() == old(Stored()) + bytes
    {
      forall k | 0 <= k < |bytes| {
        msg[offset + k] := bytes[k];
      }
      offset := offset + |bytes|;
    }

    method Store16(val: int)
      requires Valid() && offset + 2 <= msg.Length
      modifies this`offset, msg
      ensures Valid() && msg == old(msg) && offset == old(offset) + 2
      ensures Stored() == old(Stored()) + Bytes16(val)
    {
      StoreRawBytes(Bytes16(val));
    }

    method Store32(val: int)
      requires Valid() && offset + 4 <= msg.Length
      modifies this`offset, msg
      ensures Valid() && msg == old(msg) && offset == old(offset) + 4
      ensures Stored() == old(Stored()) + Bytes32(val)
    {
      StoreRawBytes(Bytes32(val));
    }

    method StoreMessage(m: ProtocolMessage)
      requires Valid() && m.Valid() && offset + m.offset <= msg.Length
      modifies this`offset, msg
      ensures Valid() && msg == old(msg) && offset == old(offset) + old(m.offset)
      ensures Stored() == old(Stored()) + old(m.Stored())
    {
      StoreRawBytes(m.msg[..m.offset]);
    }

    method Retrieve8() returns (val: byte)
      requires offset + 1 <= msg.Length
      modifies this`offset
      ensures offset == old(offset) + 1 && val == msg[old(offset)]
    {
      val := msg[offset];
      offset := offset + 1;
    }

    method Retrieve16() returns (val: nat)
      requires offset + 2 <= msg.Length
      modifies this`offset
      ensures offset == old(offset) + 2 && val == Word16(msg[..], old(offset))
    {
      val := msg[offset] as int * 0x100 + msg[offset + 1] as int;
      offset := offset + 2;
    }

    method Retrieve32() returns (val: nat)
      requires offset + 4 <= msg.Length
      modifies this`offset
      ensures offset == old(offset) + 4 && val == Word32(msg[..], old(offset))
    {
      val := Word32(msg[..], offset);
      offset := offset + 4;
    }

    method RetrieveRawBytes(len: nat) returns (bytes: seq<byte>)
      requires offset + len <= msg.Length
      modifies this`offset
      ensures offset == old(offset) + len && bytes == msg[old(offset)..old(offset) + len]
    {
      bytes := msg[offset..offset + len];
      offset := offset + len;
    }
  }
}
