/** The packet builder: appends typed values to an outgoing message and cuts
    the message into protocol packets on the fly. */
module Builders {
  import opened Wire
  import opened Framing
  import opened Buffers

  /** The largest payload one packet carries (`TRILOGY_MAX_PACKET_LEN`). */
  const MAX_PACKET_LEN: nat := 0xFF_FFFF

  /** The length of a C string: the index of its first NUL byte. */
  function Strlen(s: seq<uint8>): (n: nat)
    requires 0 in s
    ensures n < |s| && s[n] == 0
    ensures forall i :: 0 <= i < n ==> s[i] != 0
  {
    if s[0] == 0 then 0 else 1 + Strlen(s[1..])
  }


  /** What appending `d` to the open packet does to the four quantities a
      builder keeps (its bytes, the open header's offset, the open packet's
      length and the next sequence byte), as long as the packet does not
      overflow. Below the maximum the bytes are appended; at the maximum the
      open header gets the sentinel and a header with `sq` follows. */
  lemma AppendStep(s0: uint8, s: seq<uint8>, d: seq<uint8>, bytes: seq<uint8>, ho: nat, fl: nat, sq: uint8)
    requires bytes == Framed(MAX_PACKET_LEN, s0, s)
    requires ho == HeaderOffset(MAX_PACKET_LEN, |s|) && fl == Rest(MAX_PACKET_LEN, |s|)
    requires sq == SeqAt(s0, Full(MAX_PACKET_LEN, |s|) + 1)
    requires fl + |d| <= MAX_PACKET_LEN
    ensures ho + 4 + fl == |bytes|
    ensures fl + |d| < MAX_PACKET_LEN ==>
              && bytes + d == Framed(MAX_PACKET_LEN, s0, s + d)
              && ho == HeaderOffset(MAX_PACKET_LEN, |s + d|)
              && fl + |d| == Rest(MAX_PACKET_LEN, |s + d|)
              && sq == SeqAt(s0, Full(MAX_PACKET_LEN, |s + d|) + 1)
    ensures fl + |d| == MAX_PACKET_LEN ==>
              && Patch24(bytes + d, ho, SENTINEL) + Header(0, sq) == Framed(MAX_PACKET_LEN, s0, s + d)
              && |bytes| + |d| == HeaderOffset(MAX_PACKET_LEN, |s + d|)
              && 0 == Rest(MAX_PACKET_LEN, |s + d|)
              && Next(sq) == SeqAt(s0, Full(MAX_PACKET_LEN, |s + d|) + 1)
  {
    FramedAppend(MAX_PACKET_LEN, s0, s, d);
    SeqAtSucc(s0, Full(MAX_PACKET_LEN, |s|) + 1);
  }

  /** A valid builder's buffer and counters are fixed by the payload written
      and the first sequence byte alone. So any two ways of writing the same
      bytes, for instance one `WriteBuffer` and as many `WriteUint8` calls,
      leave the same buffer behind. */
  lemma ValidDetermined(a: Builder, b: Builder)
    requires a.Valid() && b.Valid()
    requires a.Seq0 == b.Seq0 && a.Stream == b.Stream
    ensures a.buffer.Bytes() == b.buffer.Bytes()
    ensures a.headerOffset == b.headerOffset && a.fragmentLength == b.fragmentLength
    ensures a.sequence == b.sequence
  {
  }

  /** Writing `bytes` after `before` stopped part-way: `now` is `before`
      followed by some prefix of `bytes`. */
  ghost predicate Partial(before: seq<uint8>, bytes: seq<uint8>, now: seq<uint8>)
  {
    |before| <= |now| <= |before| + |bytes| && now == before + bytes[..|now| - |before|]
  }

  /** A write of `bytes` after `before` that failed while writing byte `k`
      left a prefix of `bytes` behind, with or without that byte. */
  lemma PartialWrite(before: seq<uint8>, bytes: seq<uint8>, k: nat, now: seq<uint8>)
    requires k < |bytes|
    requires now == before + bytes[..k] || now == before + bytes[..k] + [bytes[k]]
    ensures Partial(before, bytes, now)
  {
    assert bytes[..k + 1] == bytes[..k] + [bytes[k]];
  }

  /** A write that stopped inside `x` stopped inside `x + bytes`. */
  lemma PartialPrefix(before: seq<uint8>, x: seq<uint8>, bytes: seq<uint8>, now: seq<uint8>)
    requires Partial(before, x, now)
    ensures Partial(before, x + bytes, now)
  {
    var k := |now| - |before|;
    assert (x + bytes)[..k] == x[..k];
  }

  /** A write that stopped inside `bytes` after `x` was written stopped inside
      `x + bytes`. */
  lemma PartialAfter(before: seq<uint8>, x: seq<uint8>, bytes: seq<uint8>, now: seq<uint8>)
    requires Partial(before + x, bytes, now)
    ensures Partial(before, x + bytes, now)
  {
    var k := |now| - |before + x|;
    assert (x + bytes)[..|x| + k] == x + bytes[..k];
  }

  /** One more byte of `bytes` written after `before`. */
  lemma PrefixStep(before: seq<uint8>, bytes: seq<uint8>, k: nat, now: seq<uint8>)
    requires k < |bytes| && now == before + bytes[..k] + [bytes[k]]
    ensures now == before + bytes[..k + 1]
  {
    assert bytes[..k + 1] == bytes[..k] + [bytes[k]];
  }

  /** Nothing of `bytes` written yet. */
  lemma PartialNone(before: seq<uint8>, bytes: seq<uint8>)
    ensures Partial(before, bytes, before)
  {
    assert bytes[..0] == [];
  }

  /** Writing the chunk `data[i..j]` after `data[..i]` extends the prefix. */
  lemma PrefixChunk(before: seq<uint8>, data: seq<uint8>, i: nat, j: nat)
    requires i <= j <= |data|
    ensures before + data[..i] + data[i..j] == before + data[..j]
  {
    assert data[..i] + data[i..j] == data[..j];
  }

  /** A write of `data` that stopped with `data[..i]` written, or with the
      chunk `data[i..j]` written after it, stopped part-way through `data`. */
  lemma PartialChunk(before: seq<uint8>, data: seq<uint8>, i: nat, j: nat, now: seq<uint8>)
    requires i <= j <= |data|
    requires now == before + data[..i] || now == before + data[..i] + data[i..j]
    ensures Partial(before, data, now)
  {
    PrefixChunk(before, data, i, j);
  }

  /** A builder of one message. `buffer` holds the packets built so far;
      `headerOffset` is where the header of the open (last) packet starts,
      `fragmentLength` how many payload bytes that packet holds, `sequence`
      the sequence byte the next packet gets. `Stream` is the payload written
      since `Init` and `Seq0` the sequence byte of the first packet. */
  class Builder {
    var buffer: Buffer
    var headerOffset: nat
    var fragmentLength: nat
    var sequence: uint8
    ghost var Stream: seq<uint8>
    ghost var Seq0: uint8

    /** The buffer holds exactly the packets of `Stream`, the open packet
        still with the placeholder length, and the counters agree with it. */
    ghost predicate Valid()
      reads this, buffer, buffer.buff
    {
      && buffer.Valid()
      && buffer.Bytes() == Framed(MAX_PACKET_LEN, Seq0, Stream)
      && headerOffset == HeaderOffset(MAX_PACKET_LEN, |Stream|)
      && fragmentLength == Rest(MAX_PACKET_LEN, |Stream|)
      && sequence == SeqAt(Seq0, Full(MAX_PACKET_LEN, |Stream|) + 1)
    }

    /** The state left when a packet became full but no room could be found
        for the next header: the full packet is marked with the sentinel, the
        next header is missing and `fragmentLength` equals the maximum. */
    ghost predicate Torn()
      reads this, buffer, buffer.buff
    {
      && buffer.Valid()
      && |Stream| > 0
      && Rest(MAX_PACKET_LEN, |Stream|) == 0
      && fragmentLength == MAX_PACKET_LEN
      && headerOffset + 4 + MAX_PACKET_LEN == buffer.len
      && buffer.Bytes() + Header(0, sequence) == Framed(MAX_PACKET_LEN, Seq0, Stream)
    }

    /** Storage for a builder that will write into `buf`; `Init` starts it. */
    constructor (buf: Buffer)
      ensures buffer == buf && Stream == []
    {
      buffer := buf;
      headerOffset, fragmentLength, sequence := 0, 0, 0;
      Stream, Seq0 := [], 0;
    }

    /** Shape of a valid builder: the open packet is never full, it ends the
        buffer, and its header holds length 0 and the sequence byte of the
        `Full`-th packet. The open packet holds the last `|Stream| % MAX`
        payload bytes, so after a write that ends exactly on a packet boundary
        it is empty. */
    lemma ValidLayout()
      requires Valid()
      ensures fragmentLength < MAX_PACKET_LEN
      ensures headerOffset + 4 + fragmentLength == buffer.len
      ensures buffer.Bytes()[headerOffset..headerOffset + 4]
           == Header(0, SeqAt(Seq0, Full(MAX_PACKET_LEN, |Stream|)))
      ensures sequence == Next(buffer.Bytes()[headerOffset + 3])
      ensures fragmentLength == |Stream| % MAX_PACKET_LEN
      ensures headerOffset == (|Stream| / MAX_PACKET_LEN) * (MAX_PACKET_LEN + 4)
      ensures buffer.Bytes()[headerOffset + 4..] == Stream[|Stream| - fragmentLength..]
    {
      FramedLayout(MAX_PACKET_LEN, Seq0, Stream);
      SeqAtSucc(Seq0, Full(MAX_PACKET_LEN, |Stream|));
      FullRestDivMod(MAX_PACKET_LEN, |Stream|);
    }

    /** Reserves 4 bytes and appends a header with length 0 and the current
        sequence byte, which then goes up by one; the new header is the open
        packet's. On failure nothing changes. */
    method WriteHeader() returns (rc: int)
      requires buffer.Valid()
      modifies this, buffer, buffer.buff
      ensures buffer == old(buffer) && Stream == old(Stream) && Seq0 == old(Seq0)
      ensures buffer.buff == old(buffer.buff) || fresh(buffer.buff)
      ensures buffer.Valid()
      ensures rc == OK || rc < 0
      ensures rc == OK ==>
                && buffer.Bytes() == old(buffer.Bytes()) + Header(0, old(sequence))
                && headerOffset == old(buffer.len)
                && fragmentLength == 0
                && sequence == Next(old(sequence))
      ensures rc != OK ==>
                && buffer.Bytes() == old(buffer.Bytes())
                && headerOffset == old(headerOffset)
                && fragmentLength == old(fragmentLength)
                && sequence == old(sequence)
    {
      rc := buffer.Expand(4);
      if rc < 0 {
        return;
      }
      headerOffset := buffer.len;
      fragmentLength := 0;
      assert Header(0, sequence) == [0, 0, 0, sequence];
      buffer.Write([0, 0, 0, sequence]);
      sequence := Next(sequence);
    }

    /** Marks the open packet as full (its length field becomes 0xFFFFFF) and
        opens a new one with `WriteHeader`. The mark stays even when the new
        header cannot be written. */
    method WriteContinuationHeader() returns (rc: int)
      requires buffer.Valid() && headerOffset + 3 <= buffer.len
      modifies this, buffer, buffer.buff
      ensures buffer == old(buffer) && Stream == old(Stream) && Seq0 == old(Seq0)
      ensures buffer.buff == old(buffer.buff) || fresh(buffer.buff)
      ensures buffer.Valid()
      ensures rc == OK || rc < 0
      ensures rc == OK ==>
                && buffer.Bytes()
                   == Patch24(old(buffer.Bytes()), old(headerOffset), SENTINEL) + Header(0, old(sequence))
                && headerOffset == old(buffer.len)
                && fragmentLength == 0
                && sequence == Next(old(sequence))
      ensures rc != OK ==>
                && buffer.Bytes() == Patch24(old(buffer.Bytes()), old(headerOffset), SENTINEL)
                && headerOffset == old(headerOffset)
                && fragmentLength == old(fragmentLength)
                && sequence == old(sequence)
    {
      ghost var before := buffer.Bytes();
      buffer.buff[headerOffset] := 0xFF;
      buffer.buff[headerOffset + 1] := 0xFF;
      buffer.buff[headerOffset + 2] := 0xFF;
      assert LE(SENTINEL, 3) == [0xFF, 0xFF, 0xFF];
      assert buffer.Bytes() == Patch24(before, headerOffset, SENTINEL);
      rc := WriteHeader();
    }

    /** The step shared by the writers once the open packet holds exactly the
        maximum: marks it full and opens the next one. On success the builder
        is valid again; on failure it is left torn. */
    method Rollover() returns (rc: int)
      requires buffer.Valid() && fragmentLength == MAX_PACKET_LEN
      requires buffer.len == headerOffset + 4 + MAX_PACKET_LEN
      requires buffer.len == HeaderOffset(MAX_PACKET_LEN, |Stream|)
      requires |Stream| > 0 && Rest(MAX_PACKET_LEN, |Stream|) == 0
      requires Patch24(buffer.Bytes(), headerOffset, SENTINEL) + Header(0, sequence)
               == Framed(MAX_PACKET_LEN, Seq0, Stream)
      requires Next(sequence) == SeqAt(Seq0, Full(MAX_PACKET_LEN, |Stream|) + 1)
      modifies this, buffer, buffer.buff
      ensures buffer == old(buffer) && Stream == old(Stream) && Seq0 == old(Seq0)
      ensures buffer.buff == old(buffer.buff) || fresh(buffer.buff)
      ensures rc == OK || rc < 0
      ensures rc == OK ==> Valid()
      ensures rc != OK ==> Torn()
    {
      rc := WriteContinuationHeader();
    }

    /** `trilogy_builder_init`: binds the builder to `buf`, empties it and
        opens the first packet with sequence byte `seq0`. */
    method Init(buf: Buffer, seq0: uint8) returns (rc: int)
      requires buf.Valid()
      modifies this, buf, buf.buff
      ensures buffer == buf && Seq0 == seq0 && Stream == []
      ensures buf.buff == old(buf.buff) || fresh(buf.buff)
      ensures rc == OK || rc < 0
      ensures rc == OK ==>
                && Valid()
                && buf.Bytes() == [0, 0, 0, seq0]
                && headerOffset == 0 && fragmentLength == 0 && sequence == Next(seq0)
      ensures rc != OK ==> buf.Valid() && buf.len == 0 && sequence == seq0
    {
      buffer := buf;
      buffer.len := 0;
      sequence := seq0;
      Stream, Seq0 := [], seq0;
      rc := WriteHeader();
      if rc == OK {
        assert Framed(MAX_PACKET_LEN, seq0, []) == Header(0, seq0);
        assert Full(MAX_PACKET_LEN, 0) == 0 && Rest(MAX_PACKET_LEN, 0) == 0;
      }
    }

    /** `trilogy_builder_finalize`: writes the open packet's payload length,
        as 24 bits little-endian, into its header. No other byte and no field
        changes. Applied to a valid builder it yields the finished message. */
    method Finalize()
      requires buffer.Valid() && headerOffset + 3 <= buffer.len
      modifies buffer.buff
      ensures buffer.Valid()
      ensures buffer.Bytes() == Patch24(old(buffer.Bytes()), headerOffset, fragmentLength)
      ensures old(Valid()) ==> buffer.Bytes() == Finalized(MAX_PACKET_LEN, Seq0, Stream)
    {
      ghost var before := buffer.Bytes();
      buffer.buff[headerOffset] := fragmentLength % 0x100;
      buffer.buff[headerOffset + 1] := (fragmentLength / 0x100) % 0x100;
      buffer.buff[headerOffset + 2] := (fragmentLength / 0x1_0000) % 0x100;
      LEAt(fragmentLength, 3, 0);
      LEAt(fragmentLength, 3, 1);
      LEAt(fragmentLength, 3, 2);
      assert LE(fragmentLength, 3)
          == [fragmentLength % 0x100, (fragmentLength / 0x100) % 0x100, (fragmentLength / 0x1_0000) % 0x100];
      assert buffer.Bytes() == Patch24(before, headerOffset, fragmentLength);
      if old(Valid()) {
        FinalizedIsPatched(MAX_PACKET_LEN, Seq0, Stream);
      }
    }

    /** `trilogy_builder_write_uint8`: appends one payload byte; when that
        fills the open packet, marks it full and opens the next one. */
    method WriteUint8(v: uint8) returns (rc: int)
      requires Valid()
      modifies this, buffer, buffer.buff
      ensures buffer == old(buffer) && Seq0 == old(Seq0)
      ensures buffer.buff == old(buffer.buff) || fresh(buffer.buff)
      ensures rc == OK || rc < 0
      ensures rc == OK ==> Valid() && Stream == old(Stream) + [v]
      ensures rc != OK ==>
                || (Valid() && Stream == old(Stream))
                || (Torn() && Stream == old(Stream) + [v])
      ensures rc != OK && Stream == old(Stream) ==>
                && buffer.Bytes() == old(buffer.Bytes())
                && headerOffset == old(headerOffset)
                && fragmentLength == old(fragmentLength)
                && sequence == old(sequence)
    {
      rc := buffer.Expand(1);
      if rc != OK {
        return;
      }
      AppendStep(Seq0, Stream, [v], buffer.Bytes(), headerOffset, fragmentLength, sequence);
      buffer.Push(v);
      fragmentLength := fragmentLength + 1;
      Stream := Stream + [v];
      if fragmentLength == MAX_PACKET_LEN {
        rc := Rollover();
      }
    }

    /** The shared body of the fixed-width writers: `n` calls of
        `WriteUint8`, the `k`-th with `(v >> 8*k) & 0xff`, stopping at the
        first failure. */
    method WriteLE(v: nat, n: nat) returns (rc: int)
      requires Valid()
      modifies this, buffer, buffer.buff
      ensures buffer == old(buffer) && Seq0 == old(Seq0)
      ensures buffer.buff == old(buffer.buff) || fresh(buffer.buff)
      ensures rc == OK || rc < 0
      ensures rc == OK ==> Valid() && Stream == old(Stream) + LE(v, n)
      ensures rc != OK ==> (Valid() || Torn()) && Partial(old(Stream), LE(v, n), Stream)
    {
      ghost var s, bytes := Stream, LE(v, n);
      var k := 0;
      while k < n
        invariant k <= n && Valid() && Stream == s + bytes[..k]
        invariant buffer == old(buffer) && Seq0 == old(Seq0)
        invariant buffer.buff == old(buffer.buff) || fresh(buffer.buff)
      {
        LEAt(v, n, k);
        rc := WriteUint8((v / Pow256(k)) % 0x100);
        if rc != OK {
          PartialWrite(s, bytes, k, Stream);
          return;
        }
        PrefixStep(s, bytes, k, Stream);
        k := k + 1;
      }
      assert bytes[..n] == bytes;
      rc := OK;
    }

    /** `trilogy_builder_write_uint16`: appends the 2 bytes of `v`, least significant first. */
    method WriteUint16(v: nat) returns (rc: int)
      requires Valid() && v < 0x1_0000
      modifies this, buffer, buffer.buff
      ensures buffer == old(buffer) && Seq0 == old(Seq0)
      ensures buffer.buff == old(buffer.buff) || fresh(buffer.buff)
      ensures rc == OK || rc < 0
      ensures rc == OK ==> Valid() && Stream == old(Stream) + LE(v, 2)
      ensures rc != OK ==> (Valid() || Torn()) && Partial(old(Stream), LE(v, 2), Stream)
    {
      rc := WriteLE(v, 2);
    }

    /** `trilogy_builder_write_uint24`: appends the low 3 bytes of the 32-bit `v`, least
        significant first; the top byte is dropped. */
    method WriteUint24(v: nat) returns (rc: int)
      requires Valid() && v < 0x1_0000_0000
      modifies this, buffer, buffer.buff
      ensures buffer == old(buffer) && Seq0 == old(Seq0)
      ensures buffer.buff == old(buffer.buff) || fresh(buffer.buff)
      ensures rc == OK || rc < 0
      ensures rc == OK ==> Valid() && Stream == old(Stream) + LE(v, 3)
      ensures rc != OK ==> (Valid() || Torn()) && Partial(old(Stream), LE(v, 3), Stream)
    {
      rc := WriteLE(v, 3);
    }

    /** `trilogy_builder_write_uint32`: appends the 4 bytes of `v`, least significant first. */
    method WriteUint32(v: nat) returns (rc: int)
      requires Valid() && v < 0x1_0000_0000
      modifies this, buffer, buffer.buff
      ensures buffer == old(buffer) && Seq0 == old(Seq0)
      ensures buffer.buff == old(buffer.buff) || fresh(buffer.buff)
      ensures rc == OK || rc < 0
      ensures rc == OK ==> Valid() && Stream == old(Stream) + LE(v, 4)
      ensures rc != OK ==> (Valid() || Torn()) && Partial(old(Stream), LE(v, 4), Stream)
    {
      rc := WriteLE(v, 4);
    }

    /** `trilogy_builder_write_uint64`: appends the 8 bytes of `v`, least significant first. */
    method WriteUint64(v: nat) returns (rc: int)
      requires Valid() && v < UINT64_LIMIT
      modifies this, buffer, buffer.buff
      ensures buffer == old(buffer) && Seq0 == old(Seq0)
      ensures buffer.buff == old(buffer.buff) || fresh(buffer.buff)
      ensures rc == OK || rc < 0
      ensures rc == OK ==> Valid() && Stream == old(Stream) + LE(v, 8)
      ensures rc != OK ==> (Valid() || Torn()) && Partial(old(Stream), LE(v, 8), Stream)
    {
      rc := WriteLE(v, 8);
    }

    /** One wide branch of `trilogy_builder_write_lenenc`: the prefix byte,
        then `v` in `n` little-endian bytes (`write_uint16`, `write_uint24` or
        `write_uint64`), stopping at the first failure. */
    method WritePrefixed(prefix: uint8, v: nat, n: nat) returns (rc: int)
      requires Valid()
      modifies this, buffer, buffer.buff
      ensures buffer == old(buffer) && Seq0 == old(Seq0)
      ensures buffer.buff == old(buffer.buff) || fresh(buffer.buff)
      ensures rc == OK || rc < 0
      ensures rc == OK ==> Valid() && Stream == old(Stream) + ([prefix] + LE(v, n))
      ensures rc != OK ==> (Valid() || Torn()) && Partial(old(Stream), [prefix] + LE(v, n), Stream)
    {
      ghost var s := Stream;
      rc := WriteUint8(prefix);
      if rc != OK {
        PartialWrite(s, [prefix] + LE(v, n), 0, Stream);
        return;
      }
      rc := WriteLE(v, n);
      if rc != OK {
        PartialAfter(s, [prefix], LE(v, n), Stream);
      }
    }

    /** `trilogy_builder_write_lenenc`: appends `v` as a length-encoded
        integer: one byte below 251, otherwise the prefix 0xFC, 0xFD or 0xFE
        followed by 2, 3 or 8 bytes of `v`. */
    method WriteLenenc(v: nat) returns (rc: int)
      requires Valid() && v < UINT64_LIMIT
      modifies this, buffer, buffer.buff
      ensures buffer == old(buffer) && Seq0 == old(Seq0)
      ensures buffer.buff == old(buffer.buff) || fresh(buffer.buff)
      ensures rc == OK || rc < 0
      ensures rc == OK ==> Valid() && Stream == old(Stream) + Lenenc(v)
      ensures rc != OK ==> (Valid() || Torn()) && Partial(old(Stream), Lenenc(v), Stream)
    {
      if v < 251 {
        ghost var s := Stream;
        rc := WriteUint8(v);
        if rc != OK {
          PartialWrite(s, Lenenc(v), 0, Stream);
        }
      } else if v <= 0xFFFF {
        rc := WritePrefixed(0xFC, v, 2);
      } else if v <= 0xFF_FFFF {
        rc := WritePrefixed(0xFD, v, 3);
      } else {
        rc := WritePrefixed(0xFE, v, 8);
      }
    }

    /** Appends `chunk` to the open packet without looking at its length:
        reserves room, copies the bytes in, and advances the buffer length and
        `fragmentLength`. On failure nothing changes. */
    method CopyIn(chunk: seq<uint8>) returns (rc: int)
      requires buffer.Valid()
      modifies this, buffer, buffer.buff
      ensures buffer == old(buffer) && Stream == old(Stream) && Seq0 == old(Seq0)
      ensures headerOffset == old(headerOffset) && sequence == old(sequence)
      ensures buffer.buff == old(buffer.buff) || fresh(buffer.buff)
      ensures buffer.Valid()
      ensures rc == OK || rc < 0
      ensures rc == OK ==>
                && buffer.Bytes() == old(buffer.Bytes()) + chunk
                && fragmentLength == old(fragmentLength) + |chunk|
      ensures rc != OK ==>
                && buffer.Bytes() == old(buffer.Bytes())
                && fragmentLength == old(fragmentLength)
    {
      rc := buffer.Expand(|chunk|);
      if rc != OK {
        return;
      }
      buffer.Write(chunk);
      fragmentLength := fragmentLength + |chunk|;
    }

    /** One chunk step of `trilogy_builder_write_buffer`: copies `chunk`,
        which must fit in the open packet, into it and, when that makes the
        packet full, marks it full and opens the next one. A failure while
        reserving room changes nothing; a failure while opening the next
        packet leaves the builder torn with the chunk written. */
    method Append(chunk: seq<uint8>) returns (rc: int)
      requires Valid() && fragmentLength + |chunk| <= MAX_PACKET_LEN
      modifies this, buffer, buffer.buff
      ensures buffer == old(buffer) && Seq0 == old(Seq0)
      ensures buffer.buff == old(buffer.buff) || fresh(buffer.buff)
      ensures rc == OK || rc < 0
      ensures rc == OK ==> Valid() && Stream == old(Stream) + chunk
      ensures rc == OK ==>
                fragmentLength == if old(fragmentLength) + |chunk| == MAX_PACKET_LEN then 0
                                  else old(fragmentLength) + |chunk|
      ensures rc != OK ==>
                || (Valid() && Stream == old(Stream))
                || (Torn() && Stream == old(Stream) + chunk)
      ensures rc != OK && old(fragmentLength) + |chunk| < MAX_PACKET_LEN ==>
                Valid() && Stream == old(Stream)
    {
      AppendStep(Seq0, Stream, chunk, buffer.Bytes(), headerOffset, fragmentLength, sequence);
      rc := CopyIn(chunk);
      if rc != OK {
        return;
      }
      Stream := Stream + chunk;
      if fragmentLength == MAX_PACKET_LEN {
        rc := Rollover();
      }
    }

    /** `trilogy_builder_write_buffer`: appends `data`. When it fits in the
        open packet with room to spare it is copied in one piece; otherwise
        the open packet is filled up, marked full and followed by a new one,
        as often as needed, and what is left goes into the last packet. */
    method WriteBuffer(data: seq<uint8>) returns (rc: int)
      requires Valid()
      modifies this, buffer, buffer.buff
      ensures buffer == old(buffer) && Seq0 == old(Seq0)
      ensures buffer.buff == old(buffer.buff) || fresh(buffer.buff)
      ensures rc == OK || rc < 0
      ensures rc == OK ==> Valid() && Stream == old(Stream) + data
      ensures rc != OK ==> (Valid() || Torn()) && Partial(old(Stream), data, Stream)
      ensures rc != OK && |data| < MAX_PACKET_LEN - old(fragmentLength) ==>
                Valid() && Stream == old(Stream)
    {
      ghost var s := Stream;
      var remaining := MAX_PACKET_LEN - fragmentLength;
      if |data| < remaining {
        rc := Append(data);
        if rc != OK {
          PartialNone(s, data);
        }
        return;
      }
      var off := 0;
      while |data| - off >= remaining
        invariant off <= |data| && 0 < remaining
        invariant Valid() && Stream == s + data[..off]
        invariant remaining == MAX_PACKET_LEN - fragmentLength
        invariant buffer == old(buffer) && Seq0 == old(Seq0)
        invariant buffer.buff == old(buffer.buff) || fresh(buffer.buff)
        decreases |data| - off
      {
        rc := Append(data[off..off + remaining]);
        if rc != OK {
          PartialChunk(s, data, off, off + remaining, Stream);
          return;
        }
        PrefixChunk(s, data, off, off + remaining);
        off := off + remaining;
        remaining := MAX_PACKET_LEN;
      }
      if off < |data| {
        rc := Append(data[off..]);
        if rc != OK {
          PartialChunk(s, data, off, |data|, Stream);
          return;
        }
        PrefixChunk(s, data, off, |data|);
      }
      assert data[..|data|] == data;
      rc := OK;
    }

    /** `trilogy_builder_write_lenenc_buffer`: appends the length of `data`
        as a length-encoded integer, then `data`. */
    method WriteLenencBuffer(data: seq<uint8>) returns (rc: int)
      requires Valid() && |data| < UINT64_LIMIT
      modifies this, buffer, buffer.buff
      ensures buffer == old(buffer) && Seq0 == old(Seq0)
      ensures buffer.buff == old(buffer.buff) || fresh(buffer.buff)
      ensures rc == OK || rc < 0
      ensures rc == OK ==> Valid() && Stream == old(Stream) + Lenenc(|data|) + data
      ensures rc != OK ==> (Valid() || Torn()) && Partial(old(Stream), Lenenc(|data|) + data, Stream)
    {
      ghost var s := Stream;
      rc := WriteLenenc(|data|);
      if rc != OK {
        PartialPrefix(s, Lenenc(|data|), data, Stream);
        return;
      }
      rc := WriteBuffer(data);
      if rc != OK {
        PartialAfter(s, Lenenc(|data|), data, Stream);
      }
    }

    /** `trilogy_builder_write_string`: appends the C string `cstr` up to its
        first NUL byte, then that NUL byte. */
    method WriteString(cstr: seq<uint8>) returns (rc: int)
      requires Valid() && 0 in cstr
      modifies this, buffer, buffer.buff
      ensures buffer == old(buffer) && Seq0 == old(Seq0)
      ensures buffer.buff == old(buffer.buff) || fresh(buffer.buff)
      ensures rc == OK || rc < 0
      ensures rc == OK ==> Valid() && Stream == old(Stream) + cstr[..Strlen(cstr) + 1]
      ensures rc != OK ==> (Valid() || Torn()) && Partial(old(Stream), cstr[..Strlen(cstr) + 1], Stream)
    {
      ghost var s := Stream;
      var n := Strlen(cstr);
      ghost var whole := cstr[..n + 1];
      assert whole == cstr[..n] + [0];
      rc := WriteBuffer(cstr[..n]);
      if rc != OK {
        PartialPrefix(s, cstr[..n], [0], Stream);
        return;
      }
      rc := WriteUint8(0);
      if rc != OK {
        PartialWrite(s, whole, n, Stream);
      }
    }
  }
}
