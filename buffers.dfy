/** The growable byte buffer the builder writes into. Only the part the
    builder relies on is modelled: a byte array `buff` with `len` bytes in use,
    and `Expand`, which reserves room for more bytes or reports an error. */
module Buffers {
  import opened Wire

  /** Return code of a call that succeeded; every error code is negative. */
  const OK: int := 0

  class Buffer {
    var buff: array<uint8>
    var len: nat

    ghost predicate Valid()
      reads this
    {
      len <= buff.Length
    }

    /** The bytes written so far. */
    ghost function Bytes(): seq<uint8>
      reads this, buff
      requires Valid()
    {
      buff[..len]
    }

    constructor ()
      ensures Valid() && fresh(buff) && len == 0
    {
      buff := new uint8[0];
      len := 0;
    }

    /** Makes room for `needed` more bytes after the `len` in use, growing the
        array if it is too small, or fails with a negative code and changes
        nothing. Whether and how an allocation fails is outside the model: any
        call may fail. */
    method Expand(needed: nat) returns (rc: int)
      requires Valid()
      modifies this
      ensures Valid() && len == old(len) && Bytes() == old(Bytes())
      ensures buff == old(buff) || fresh(buff)
      ensures rc == OK || rc < 0
      ensures rc == OK ==> len + needed <= buff.Length
      ensures rc != OK ==> buff == old(buff)
    {
      var failed: bool := *;
      if failed {
        rc := -1;
        return;
      }
      if len + needed > buff.Length {
        var grown := new uint8[len + needed];
        forall i | 0 <= i < len {
          grown[i] := buff[i];
        }
        buff := grown;
      }
      rc := OK;
    }

    /** `buff[len++] = v`: stores one byte in reserved room. */
    method Push(v: uint8)
      requires Valid() && len < buff.Length
      modifies this, buff
      ensures Valid() && buff == old(buff) && len == old(len) + 1
      ensures Bytes() == old(Bytes()) + [v]
    {
      buff[len] := v;
      len := len + 1;
      assert buff[..len - 1] == old(Bytes());
    }

    /** `memcpy(buff + len, bytes, |bytes|); len += |bytes|`: appends `bytes`
        in reserved room. */
    method Write(bytes: seq<uint8>)
      requires Valid() && len + |bytes| <= buff.Length
      modifies this, buff
      ensures Valid() && buff == old(buff) && len == old(len) + |bytes|
      ensures Bytes() == old(Bytes()) + bytes
    {
      var at := len;
      MemCopy(buff, at, bytes);
      len := at + |bytes|;
      assert buff[..at] == old(Bytes());
      assert buff[..len] == buff[..at] + buff[at..len];
    }
  }

  /** `memcpy(dst + at, src, |src|)`: copies `src` into `dst` from index `at`
      on and leaves every other element alone. */
  method MemCopy(dst: array<uint8>, at: nat, src: seq<uint8>)
    requires at + |src| <= dst.Length
    modifies dst
    ensures dst[..at] == old(dst[..at])
    ensures dst[at..at + |src|] == src
    ensures dst[at + |src|..] == old(dst[at + |src|..])
  {
    forall i | 0 <= i < |src| {
      dst[at + i] := src[i];
    }
  }
}
