/** The packet framing of the MySQL client/server protocol, as pure functions.
    A message (a stream of payload bytes) is cut into packets of at most `cap`
    payload bytes. Each packet starts with a 4-byte header: a 24-bit
    little-endian length, then a sequence byte that goes up by one (mod 256)
    from packet to packet. A full packet carries the length 0xFFFFFF, meaning
    "full, another packet follows"; the message ends with the first packet that
    is not full, which may be empty. */
module Framing {
  import opened Wire

  /** Length field of a full packet. */
  const SENTINEL: nat := 0xFF_FFFF

  /** The sequence byte after `s`: a C `uint8_t` incremented with wrap-around. */
  function Next(s: uint8): uint8
  {
    (s + 1) % 256
  }

  /** The sequence byte of packet `i` of a message whose first packet has `s0`. */
  function SeqAt(s0: uint8, i: nat): uint8
    decreases i
  {
    if i == 0 then s0 else SeqAt(Next(s0), i - 1)
  }

  lemma {:induction false} SeqAtMod(s0: uint8, i: nat)
    ensures SeqAt(s0, i) == (s0 + i) % 256
    decreases i
  {
    if i > 0 {
      SeqAtMod(Next(s0), i - 1);
      if s0 < 255 {
        assert Next(s0) + (i - 1) == s0 + i;
      } else {
        var q, r := (i - 1) / 256, (i - 1) % 256;
        assert 255 + i == 256 * (q + 1) + r;
        DivModUnique(255 + i, 256, q + 1, r);
      }
    }
  }

  lemma SeqAtUnfold(s0: uint8, i: nat, k: nat)
    requires i == k + 1
    ensures SeqAt(s0, i) == SeqAt(Next(s0), k)
  {
  }

  /** Consecutive packets carry consecutive sequence bytes. */
  lemma {:induction false} SeqAtSucc(s0: uint8, i: nat)
    ensures SeqAt(s0, i + 1) == Next(SeqAt(s0, i))
    decreases i
  {
    if i > 0 {
      SeqAtSucc(Next(s0), i - 1);
    }
  }

  /** A packet header: 24-bit little-endian length, then the sequence byte. */
  function Header(length: nat, s: uint8): (r: seq<uint8>)
    ensures |r| == 4 && r[3] == s
  {
    LE(length, 3) + [s]
  }

  /** The header of a full packet: three 0xFF bytes, then the sequence byte. */
  lemma SentinelHeader(s: uint8)
    ensures Header(SENTINEL, s) == [0xFF, 0xFF, 0xFF, s]
  {
    assert LE(SENTINEL, 3) == [0xFF, 0xFF, 0xFF];
  }

  /** Number of full packets a stream of `n` payload bytes fills. */
  function Full(cap: nat, n: nat): nat
    requires 0 < cap
    decreases n
  {
    if n < cap then 0 else 1 + Full(cap, n - cap)
  }

  /** Payload bytes in the last, open packet of a stream of `n` bytes. */
  function Rest(cap: nat, n: nat): (r: nat)
    requires 0 < cap
    ensures r < cap
    decreases n
  {
    if n < cap then n else Rest(cap, n - cap)
  }

  /** Offset of the last packet's header in the framed stream of `n` bytes. */
  function HeaderOffset(cap: nat, n: nat): nat
    requires 0 < cap
    decreases n
  {
    if n < cap then 0 else cap + 4 + HeaderOffset(cap, n - cap)
  }

  /** One packet further into the stream. */
  lemma CountersStep(cap: nat, n: nat, m: nat)
    requires 0 < cap && n == m + cap
    ensures Full(cap, n) == 1 + Full(cap, m)
    ensures Rest(cap, n) == Rest(cap, m)
    ensures HeaderOffset(cap, n) == cap + 4 + HeaderOffset(cap, m)
  {
  }

  /** The counters agree with plain division: `n` bytes fill `n / cap` packets,
      leave `n % cap` bytes in the last one, whose header sits after
      `n / cap` full packets of `cap + 4` bytes each. */
  lemma {:induction false} FullRestDivMod(cap: nat, n: nat)
    requires 0 < cap
    ensures Full(cap, n) == n / cap && Rest(cap, n) == n % cap
    ensures HeaderOffset(cap, n) == (n / cap) * (cap + 4)
    decreases n
  {
    if n < cap {
      DivModUnique(n, cap, 0, n);
    } else {
      var m := n - cap;
      FullRestDivMod(cap, m);
      CountersStep(cap, n, m);
      DivStep(cap, n, m);
      var q := m / cap;
      assert (q + 1) * (cap + 4) == q * (cap + 4) + cap + 4;
    }
  }

  /** Dividing one more `cap` adds one to the quotient and keeps the remainder. */
  lemma DivStep(cap: nat, n: nat, m: nat)
    requires 0 < cap && n == m + cap
    ensures n / cap == m / cap + 1 && n % cap == m % cap
  {
    var q, r := m / cap, m % cap;
    assert cap * (q + 1) == cap * q + cap;
    DivModUnique(n, cap, q + 1, r);
  }

  /** `bytes` with the three bytes at `at` replaced by `v` as a 24-bit
      little-endian integer: the backpatching of a length field. */
  function Patch24(bytes: seq<uint8>, at: nat, v: nat): (r: seq<uint8>)
    requires at + 3 <= |bytes|
    ensures |r| == |bytes|
    ensures r[..at] == bytes[..at] && r[at + 3..] == bytes[at + 3..]
  {
    bytes[..at] + LE(v, 3) + bytes[at + 3..]
  }

  /** The patched field reads back as `v` truncated to 24 bits. */
  lemma PatchReadBack(bytes: seq<uint8>, at: nat, v: nat)
    requires at + 3 <= |bytes|
    ensures FromLE(Patch24(bytes, at, v)[at..at + 3]) == v % 0x100_0000
  {
    assert Patch24(bytes, at, v)[at..at + 3] == LE(v, 3);
    LERoundTrip(v, 3);
  }

  /** Patching inside a suffix is patching the whole, shifted by the prefix. */
  lemma PatchShift(p: seq<uint8>, x: seq<uint8>, at: nat, v: nat)
    requires at + 3 <= |x|
    ensures Patch24(p + x, |p| + at, v) == p + Patch24(x, at, v)
  {
    assert (p + x)[..|p| + at] == p + x[..at];
    assert (p + x)[|p| + at + 3..] == x[at + 3..];
  }

  /** Patching before an appended tail leaves the tail alone. */
  lemma PatchAppend(x: seq<uint8>, d: seq<uint8>, at: nat, v: nat)
    requires at + 3 <= |x|
    ensures Patch24(x + d, at, v) == Patch24(x, at, v) + d
  {
    assert (x + d)[..at] == x[..at];
    assert (x + d)[at + 3..] == x[at + 3..] + d;
  }

  /** The bytes a builder holds while the message `s` is still open: full
      packets already carry the sentinel, the last packet's length field is
      still the placeholder 0. */
  function Framed(cap: nat, s0: uint8, s: seq<uint8>): seq<uint8>
    requires 0 < cap
    decreases |s|
  {
    if |s| < cap then Header(0, s0) + s
    else Header(SENTINEL, s0) + s[..cap] + Framed(cap, Next(s0), s[cap..])
  }

  /** The bytes of the finished message `s`: the last packet's length field
      holds its true length. */
  function Finalized(cap: nat, s0: uint8, s: seq<uint8>): seq<uint8>
    requires 0 < cap
    decreases |s|
  {
    if |s| < cap then Header(|s|, s0) + s
    else Header(SENTINEL, s0) + s[..cap] + Finalized(cap, Next(s0), s[cap..])
  }

  lemma {:induction false} FramedLength(cap: nat, s0: uint8, s: seq<uint8>)
    requires 0 < cap
    ensures |Framed(cap, s0, s)| == HeaderOffset(cap, |s|) + 4 + Rest(cap, |s|)
    decreases |s|
  {
    if |s| >= cap {
      FramedLength(cap, Next(s0), s[cap..]);
    }
  }

  /** Slicing past a prefix `p` is slicing what follows it. */
  lemma DropAfter(p: seq<uint8>, f: seq<uint8>, k: nat)
    requires k <= |f|
    ensures (p + f)[|p| + k..] == f[k..]
  {
  }

  /** Equal suffixes stay equal behind prefixes `p` and `x`. */
  lemma TailShift(p: seq<uint8>, f: seq<uint8>, x: seq<uint8>, t: seq<uint8>, h: nat, r: nat)
    requires h <= |f| && r <= |t| && f[h..] == t[|t| - r..]
    ensures (p + f)[|p| + h..] == (x + t)[|x| + |t| - r..]
  {
    DropAfter(p, f, h);
    DropAfter(x, t, |t| - r);
  }

  lemma WindowAfter(p: seq<uint8>, f: seq<uint8>, k: nat, n: nat)
    requires k + n <= |f|
    ensures (p + f)[|p| + k..|p| + k + n] == f[k..k + n]
  {
  }

  /** The open packet's header sits at `HeaderOffset` and holds length 0 and
      the sequence byte of packet `Full(cap, |s|)`. */
  lemma {:induction false} FramedHeaderAt(cap: nat, s0: uint8, s: seq<uint8>)
    requires 0 < cap
    ensures HeaderOffset(cap, |s|) + 4 <= |Framed(cap, s0, s)|
    ensures Framed(cap, s0, s)[HeaderOffset(cap, |s|)..HeaderOffset(cap, |s|) + 4]
         == Header(0, SeqAt(s0, Full(cap, |s|)))
    decreases |s|, 1
  {
    FramedLength(cap, s0, s);
    if |s| < cap {
      var h := Header(0, s0);
      assert Framed(cap, s0, s) == h + s;
      assert (h + s)[0..4] == h;
    } else {
      FramedHeaderStep(cap, s0, s);
    }
  }

  /** The inductive step of `FramedHeaderAt`. */
  lemma {:induction false} FramedHeaderStep(cap: nat, s0: uint8, s: seq<uint8>)
    requires 0 < cap <= |s|
    ensures HeaderOffset(cap, |s|) + 4 <= |Framed(cap, s0, s)|
    ensures Framed(cap, s0, s)[HeaderOffset(cap, |s|)..HeaderOffset(cap, |s|) + 4]
         == Header(0, SeqAt(s0, Full(cap, |s|)))
    decreases |s|, 0
  {
    var t := s[cap..];
    FramedHeaderAt(cap, Next(s0), t);
    var p := Header(SENTINEL, s0) + s[..cap];
    var f := Framed(cap, Next(s0), t);
    var h := HeaderOffset(cap, |t|);
    assert Framed(cap, s0, s) == p + f;
    CountersStep(cap, |s|, |t|);
    SeqAtUnfold(s0, Full(cap, |s|), Full(cap, |t|));
    assert |p| == cap + 4;
    WindowAfter(p, f, h, 4);
  }

  /** After the open packet's header come the last `Rest(cap, |s|)` bytes of `s`. */
  lemma {:induction false} FramedTail(cap: nat, s0: uint8, s: seq<uint8>)
    requires 0 < cap
    ensures HeaderOffset(cap, |s|) + 4 <= |Framed(cap, s0, s)|
    ensures Framed(cap, s0, s)[HeaderOffset(cap, |s|) + 4..] == s[|s| - Rest(cap, |s|)..]
    decreases |s|, 1
  {
    FramedLength(cap, s0, s);
    if |s| < cap {
      var h := Header(0, s0);
      assert Framed(cap, s0, s) == h + s;
      assert HeaderOffset(cap, |s|) == 0 && Rest(cap, |s|) == |s|;
      assert (h + s)[4..] == s == s[0..];
    } else {
      FramedTailStep(cap, s0, s);
    }
  }

  /** The inductive step of `FramedTail`. */
  lemma {:induction false} FramedTailStep(cap: nat, s0: uint8, s: seq<uint8>)
    requires 0 < cap <= |s|
    ensures HeaderOffset(cap, |s|) + 4 <= |Framed(cap, s0, s)|
    ensures Framed(cap, s0, s)[HeaderOffset(cap, |s|) + 4..] == s[|s| - Rest(cap, |s|)..]
    decreases |s|, 0
  {
    var t := s[cap..];
    FramedTail(cap, Next(s0), t);
    var p := Header(SENTINEL, s0) + s[..cap];
    var f := Framed(cap, Next(s0), t);
    var h := HeaderOffset(cap, |t|);
    var r := Rest(cap, |t|);
    var x := s[..cap];
    assert Framed(cap, s0, s) == p + f;
    CountersStep(cap, |s|, |t|);
    assert |p| == cap + 4;
    assert x + t == s;
    TailShift(p, f, x, t, h + 4, r);
  }

  /** Where the open packet lies in the framed stream: its header is at
      `HeaderOffset`, holds length 0 and the sequence byte of packet
      `Full(cap, |s|)`, and is followed by the `Rest(cap, |s|)` last bytes of `s`. */
  lemma FramedLayout(cap: nat, s0: uint8, s: seq<uint8>)
    requires 0 < cap
    ensures |Framed(cap, s0, s)| == HeaderOffset(cap, |s|) + 4 + Rest(cap, |s|)
    ensures Framed(cap, s0, s)[HeaderOffset(cap, |s|)..HeaderOffset(cap, |s|) + 4]
         == Header(0, SeqAt(s0, Full(cap, |s|)))
    ensures Framed(cap, s0, s)[HeaderOffset(cap, |s|) + 4..] == s[|s| - Rest(cap, |s|)..]
  {
    FramedLength(cap, s0, s);
    FramedHeaderAt(cap, s0, s);
    FramedTail(cap, s0, s);
  }

  /** How the counters move when `k` bytes are appended without passing the
      end of the open packet. */
  lemma {:induction false} CountersAppend(cap: nat, n: nat, k: nat)
    requires 0 < cap && Rest(cap, n) + k <= cap
    ensures Rest(cap, n) + k < cap ==>
              && HeaderOffset(cap, n + k) == HeaderOffset(cap, n)
              && Rest(cap, n + k) == Rest(cap, n) + k
              && Full(cap, n + k) == Full(cap, n)
    ensures Rest(cap, n) + k == cap ==>
              && HeaderOffset(cap, n + k) == HeaderOffset(cap, n) + cap + 4
              && Rest(cap, n + k) == 0
              && Full(cap, n + k) == Full(cap, n) + 1
    decreases n
  {
    if n >= cap {
      CountersAppend(cap, n - cap, k);
      assert n + k - cap == (n - cap) + k;
    } else if n + k == cap {
      assert Rest(cap, 0) == 0 && HeaderOffset(cap, 0) == 0 && Full(cap, 0) == 0;
    }
  }

  /** Appending bytes that leave the open packet short of full appends them
      to the framed stream. */
  lemma {:induction false} FramedAppendPartial(cap: nat, s0: uint8, s: seq<uint8>, d: seq<uint8>)
    requires 0 < cap && Rest(cap, |s|) + |d| < cap
    ensures Framed(cap, s0, s + d) == Framed(cap, s0, s) + d
    decreases |s|
  {
    var sd := s + d;
    if |s| < cap {
      var h := Header(0, s0);
      assert Framed(cap, s0, s) == h + s;
      assert Framed(cap, s0, sd) == h + sd;
    } else {
      var t := s[cap..];
      var p := Header(SENTINEL, s0) + s[..cap];
      assert sd[..cap] == s[..cap];
      assert sd[cap..] == t + d;
      FramedAppendPartial(cap, Next(s0), t, d);
      assert Framed(cap, s0, s) == p + Framed(cap, Next(s0), t);
      assert Framed(cap, s0, sd) == p + Framed(cap, Next(s0), t + d);
    }
  }

  /** Patching the length field of a header at the front. */
  lemma PatchHeader(length: nat, s0: uint8, x: seq<uint8>, v: nat)
    ensures Patch24(Header(length, s0) + x, 0, v) == Header(v, s0) + x
  {
    assert (Header(length, s0) + x)[3..] == [s0] + x;
  }

  /** `FramedAppendFill` while the stream is still in its first packet. */
  lemma FillFirstPacket(cap: nat, s0: uint8, s: seq<uint8>, d: seq<uint8>)
    requires 0 < cap && |s| + |d| == cap && |s| < cap
    ensures Framed(cap, s0, s) + d == Header(0, s0) + (s + d)
    ensures Framed(cap, s0, s + d) == Patch24(Framed(cap, s0, s) + d, 0, SENTINEL) + Header(0, Next(s0))
  {
    var sd := s + d;
    assert sd[..cap] == sd && sd[cap..] == [];
    assert Framed(cap, s0, sd) == Header(SENTINEL, s0) + sd + Header(0, Next(s0));
    PatchHeader(0, s0, sd, SENTINEL);
  }

  /** Past the first packet, appending to the stream appends to the rest of
      the stream after the first, full, packet. */
  lemma FramedUnfold(cap: nat, s0: uint8, s: seq<uint8>, d: seq<uint8>)
    requires 0 < cap <= |s|
    ensures Framed(cap, s0, s + d)
         == Header(SENTINEL, s0) + s[..cap] + Framed(cap, Next(s0), s[cap..] + d)
  {
    var sd := s + d;
    assert sd[..cap] == s[..cap];
    assert sd[cap..] == s[cap..] + d;
  }

  /** Patching after a prefix `p`, then appending `next`, regrouped. */
  lemma PatchRegroup(p: seq<uint8>, f: seq<uint8>, d: seq<uint8>, h: nat, v: nat, next: seq<uint8>)
    requires h + 3 <= |f|
    ensures p + (Patch24(f + d, h, v) + next) == Patch24((p + f) + d, |p| + h, v) + next
  {
    PatchShift(p, f + d, h, v);
    assert (p + f) + d == p + (f + d);
  }

  /** The inductive step of `FramedAppendFill`: the property for the stream
      after the first, full, packet gives it for the whole stream. */
  lemma {:induction false} FillStep(cap: nat, s0: uint8, s: seq<uint8>, d: seq<uint8>)
    requires 0 < cap <= |s| && Rest(cap, |s|) + |d| == cap
    ensures HeaderOffset(cap, |s|) + 3 <= |Framed(cap, s0, s) + d|
    ensures Framed(cap, s0, s + d)
         == Patch24(Framed(cap, s0, s) + d, HeaderOffset(cap, |s|), SENTINEL)
            + Header(0, SeqAt(s0, Full(cap, |s|) + 1))
    decreases |s|, 0
  {
    var t := s[cap..];
    CountersStep(cap, |s|, |t|);
    FramedAppendFill(cap, Next(s0), t, d);
    var p := Header(SENTINEL, s0) + s[..cap];
    var f := Framed(cap, Next(s0), t);
    var h := HeaderOffset(cap, |t|);
    var next := Header(0, SeqAt(Next(s0), Full(cap, |t|) + 1));
    FramedUnfold(cap, s0, s, d);
    assert Framed(cap, s0, s + d) == p + (Patch24(f + d, h, SENTINEL) + next);
    PatchRegroup(p, f, d, h, SENTINEL, next);
    assert Framed(cap, s0, s) == p + f;
    assert |p| == cap + 4;
    assert HeaderOffset(cap, |s|) == |p| + h;
    assert Patch24(Framed(cap, s0, s) + d, HeaderOffset(cap, |s|), SENTINEL)
        == Patch24((p + f) + d, |p| + h, SENTINEL);
    SeqAtUnfold(s0, Full(cap, |s|) + 1, Full(cap, |t|) + 1);
  }

  /** Appending bytes that fill the open packet exactly: the old header's
      length becomes the sentinel and an empty packet with the next sequence
      byte follows; every other byte is kept. */
  lemma {:induction false} FramedAppendFill(cap: nat, s0: uint8, s: seq<uint8>, d: seq<uint8>)
    requires 0 < cap && Rest(cap, |s|) + |d| == cap
    ensures |Framed(cap, s0, s)| == HeaderOffset(cap, |s|) + 4 + Rest(cap, |s|)
    ensures Framed(cap, s0, s + d)
         == Patch24(Framed(cap, s0, s) + d, HeaderOffset(cap, |s|), SENTINEL)
            + Header(0, SeqAt(s0, Full(cap, |s|) + 1))
    decreases |s|, 1
  {
    FramedLength(cap, s0, s);
    if |s| < cap {
      FillFirstPacket(cap, s0, s, d);
    } else {
      FillStep(cap, s0, s, d);
    }
  }

  /** Appending `d` to the open packet, without passing its end. When the
      packet does not become full the bytes are simply appended. When it
      becomes exactly full, the old header's length turns into the sentinel and
      a fresh empty packet is opened with the next sequence byte; every other
      byte is kept. */
  lemma FramedAppend(cap: nat, s0: uint8, s: seq<uint8>, d: seq<uint8>)
    requires 0 < cap && Rest(cap, |s|) + |d| <= cap
    ensures |Framed(cap, s0, s)| == HeaderOffset(cap, |s|) + 4 + Rest(cap, |s|)
    ensures Rest(cap, |s|) + |d| < cap ==>
              && Framed(cap, s0, s + d) == Framed(cap, s0, s) + d
              && HeaderOffset(cap, |s + d|) == HeaderOffset(cap, |s|)
              && Rest(cap, |s + d|) == Rest(cap, |s|) + |d|
              && Full(cap, |s + d|) == Full(cap, |s|)
    ensures Rest(cap, |s|) + |d| == cap ==>
              && Framed(cap, s0, s + d)
                 == Patch24(Framed(cap, s0, s) + d, HeaderOffset(cap, |s|), SENTINEL)
                    + Header(0, SeqAt(s0, Full(cap, |s|) + 1))
              && HeaderOffset(cap, |s + d|) == |Framed(cap, s0, s)| + |d|
              && Rest(cap, |s + d|) == 0
              && Full(cap, |s + d|) == Full(cap, |s|) + 1
  {
    FramedLayout(cap, s0, s);
    CountersAppend(cap, |s|, |d|);
    if Rest(cap, |s|) + |d| < cap {
      FramedAppendPartial(cap, s0, s, d);
    } else {
      FramedAppendFill(cap, s0, s, d);
    }
  }

  /** Backpatching the open packet's header with its true length turns the
      open stream into the finished message. */
  lemma {:induction false} FinalizedIsPatched(cap: nat, s0: uint8, s: seq<uint8>)
    requires 0 < cap
    ensures |Framed(cap, s0, s)| == HeaderOffset(cap, |s|) + 4 + Rest(cap, |s|)
    ensures Patch24(Framed(cap, s0, s), HeaderOffset(cap, |s|), Rest(cap, |s|))
         == Finalized(cap, s0, s)
    decreases |s|
  {
    FramedLength(cap, s0, s);
    if |s| < cap {
      PatchHeader(0, s0, s, |s|);
    } else {
      var t := s[cap..];
      var p := Header(SENTINEL, s0) + s[..cap];
      var f := Framed(cap, Next(s0), t);
      FinalizedIsPatched(cap, Next(s0), t);
      assert Framed(cap, s0, s) == p + f;
      CountersStep(cap, |s|, |t|);
      PatchShift(p, f, HeaderOffset(cap, |t|), Rest(cap, |t|));
    }
  }

  /** One packet as a reader sees it: its length field, sequence byte and
      payload. */
  datatype Packet = Packet(length: nat, sequence: uint8, payload: seq<uint8>)

  /** Spec-level reader of a whole message: splits `bytes` into packets. A
      packet whose length field is the sentinel holds `cap` bytes and is
      followed by another; the first packet with any other length ends the
      message, which must end the input too. */
  function Deframe(cap: nat, bytes: seq<uint8>): Option<seq<Packet>>
    decreases |bytes|
  {
    if |bytes| < 4 then None
    else
      var length := FromLE(bytes[..3]);
      var n := if length == SENTINEL then cap else length;
      if |bytes| < 4 + n then None
      else
        var p := Packet(length, bytes[3], bytes[4..4 + n]);
        if length != SENTINEL then
          (if |bytes| == 4 + n then Some([p]) else None)
        else
          match Deframe(cap, bytes[4 + n..])
          case None => None
          case Some(ps) => Some([p] + ps)
  }

  /** The payload bytes of a list of packets, headers stripped. */
  function Concat(ps: seq<Packet>): seq<uint8>
  {
    if ps == [] then [] else ps[0].payload + Concat(ps[1..])
  }

  /** The logical payload stream of a message on the wire, headers stripped. */
  function Payload(cap: nat, bytes: seq<uint8>): Option<seq<uint8>>
  {
    match Deframe(cap, bytes)
    case None => None
    case Some(ps) => Some(Concat(ps))
  }

  /** The packets the message `s` is cut into. */
  function Chunked(cap: nat, s0: uint8, s: seq<uint8>): seq<Packet>
    requires 0 < cap
    decreases |s|
  {
    if |s| < cap then [Packet(|s|, s0, s)]
    else [Packet(SENTINEL, s0, s[..cap])] + Chunked(cap, Next(s0), s[cap..])
  }

  /** Reading a finished message yields exactly its packets. */
  lemma {:induction false} DeframeFinalized(cap: nat, s0: uint8, s: seq<uint8>)
    requires 0 < cap <= SENTINEL
    ensures Deframe(cap, Finalized(cap, s0, s)) == Some(Chunked(cap, s0, s))
    decreases |s|
  {
    var bytes := Finalized(cap, s0, s);
    if |s| < cap {
      assert bytes[..3] == LE(|s|, 3);
      LEDecode(|s|, 3);
      assert bytes[4..4 + |s|] == s;
    } else {
      var t := s[cap..];
      assert bytes[..3] == LE(SENTINEL, 3);
      LEDecode(SENTINEL, 3);
      assert bytes[4..4 + cap] == s[..cap];
      assert bytes[4 + cap..] == Finalized(cap, Next(s0), t);
      DeframeFinalized(cap, Next(s0), t);
    }
  }

  /** The packets of `s`: `Full(cap, |s|)` full ones, each marked with the
      sentinel, then one that holds the rest (possibly nothing); packet `i`
      carries sequence byte `SeqAt(s0, i)`. */
  lemma {:induction false} ChunkedHeaders(cap: nat, s0: uint8, s: seq<uint8>)
    requires 0 < cap
    ensures |Chunked(cap, s0, s)| == Full(cap, |s|) + 1
    ensures forall i :: 0 <= i < |Chunked(cap, s0, s)| ==> Chunked(cap, s0, s)[i].sequence == SeqAt(s0, i)
    ensures forall i :: 0 <= i < |Chunked(cap, s0, s)| - 1 ==>
              Chunked(cap, s0, s)[i].length == SENTINEL && |Chunked(cap, s0, s)[i].payload| == cap
    ensures Chunked(cap, s0, s)[Full(cap, |s|)].length == Rest(cap, |s|)
    ensures |Chunked(cap, s0, s)[Full(cap, |s|)].payload| == Rest(cap, |s|)
    decreases |s|
  {
    if |s| >= cap {
      var t := s[cap..];
      var ps := Chunked(cap, s0, s);
      var qs := Chunked(cap, Next(s0), t);
      ChunkedHeaders(cap, Next(s0), t);
      assert ps == [Packet(SENTINEL, s0, s[..cap])] + qs;
      forall i | 0 <= i < |ps|
        ensures ps[i].sequence == SeqAt(s0, i)
      {
        if i > 0 {
          assert ps[i] == qs[i - 1];
        }
      }
      CountersStep(cap, |s|, |t|);
      assert ps[Full(cap, |s|)] == qs[Full(cap, |t|)];
    }
  }

  /** Together the packets of `s` hold exactly `s`. */
  lemma {:induction false} ChunkedConcat(cap: nat, s0: uint8, s: seq<uint8>)
    requires 0 < cap
    ensures Concat(Chunked(cap, s0, s)) == s
    decreases |s|
  {
    if |s| >= cap {
      var t := s[cap..];
      var ps := Chunked(cap, s0, s);
      var qs := Chunked(cap, Next(s0), t);
      ChunkedConcat(cap, Next(s0), t);
      assert ps == [Packet(SENTINEL, s0, s[..cap])] + qs;
      assert ps[1..] == qs;
      assert s == s[..cap] + t;
    }
  }

  /** The shape of `Chunked` in one statement: the headers of its packets and
      the payload they carry together. */
  lemma ChunkedShape(cap: nat, s0: uint8, s: seq<uint8>)
    requires 0 < cap
    ensures |Chunked(cap, s0, s)| == Full(cap, |s|) + 1
    ensures forall i :: 0 <= i < |Chunked(cap, s0, s)| ==> Chunked(cap, s0, s)[i].sequence == SeqAt(s0, i)
    ensures forall i :: 0 <= i < |Chunked(cap, s0, s)| - 1 ==>
              Chunked(cap, s0, s)[i].length == SENTINEL && |Chunked(cap, s0, s)[i].payload| == cap
    ensures Chunked(cap, s0, s)[Full(cap, |s|)].length == Rest(cap, |s|)
    ensures |Chunked(cap, s0, s)[Full(cap, |s|)].payload| == Rest(cap, |s|)
    ensures Concat(Chunked(cap, s0, s)) == s
  {
    ChunkedHeaders(cap, s0, s);
    ChunkedConcat(cap, s0, s);
  }

  /** Round trip: the payload read back from a finished message is the
      message written. */
  lemma PayloadRoundTrip(cap: nat, s0: uint8, s: seq<uint8>)
    requires 0 < cap <= SENTINEL
    ensures Payload(cap, Finalized(cap, s0, s)) == Some(s)
  {
    DeframeFinalized(cap, s0, s);
    ChunkedShape(cap, s0, s);
  }

  /** A message of `n` bytes takes `n / cap + 1` packets: `ceil(n / cap)` when
      `n` is not a multiple of `cap`, and one more, empty, packet when it is. */
  lemma PacketCount(cap: nat, s0: uint8, s: seq<uint8>)
    requires 0 < cap
    ensures |Chunked(cap, s0, s)| == |s| / cap + 1
    ensures |s| % cap == 0 <==> Chunked(cap, s0, s)[|s| / cap].payload == []
  {
    ChunkedShape(cap, s0, s);
    FullRestDivMod(cap, |s|);
  }

  /** Five bytes with a cap of 4 and first sequence byte 7: a full packet
      marked with the sentinel, then a packet of one byte with sequence 8. */
  lemma FiveBytesCapFour()
    ensures Finalized(4, 7, [1, 2, 3, 4, 5])
         == [0xFF, 0xFF, 0xFF, 7, 1, 2, 3, 4, 1, 0, 0, 8, 5]
  {
    var s: seq<uint8> := [1, 2, 3, 4, 5];
    assert s[..4] == [1, 2, 3, 4] && s[4..] == [5];
    assert Finalized(4, 7, s) == Header(SENTINEL, 7) + [1, 2, 3, 4] + Finalized(4, 8, [5]);
    SentinelHeader(7);
    OneByteTail();
  }

  /** The last packet of that message on its own. */
  lemma OneByteTail()
    ensures Finalized(4, 8, [5]) == [1, 0, 0, 8, 5]
  {
    assert LE(1, 3) == [1, 0, 0];
  }

  /** The same message read back: two packets, the first full. */
  lemma FiveBytesPackets()
    ensures Deframe(4, [0xFF, 0xFF, 0xFF, 7, 1, 2, 3, 4, 1, 0, 0, 8, 5])
         == Some([Packet(SENTINEL, 7, [1, 2, 3, 4]), Packet(1, 8, [5])])
  {
    FiveBytesCapFour();
    DeframeFinalized(4, 7, [1, 2, 3, 4, 5]);
    assert [1, 2, 3, 4, 5][..4] == [1, 2, 3, 4];
    assert [1, 2, 3, 4, 5][4..] == [5];
    assert Next(7) == 8;
    assert Chunked(4, 8, [5]) == [Packet(1, 8, [5])];
    assert Chunked(4, 7, [1, 2, 3, 4, 5]) == [Packet(SENTINEL, 7, [1, 2, 3, 4])] + Chunked(4, 8, [5]);
    assert Chunked(4, 7, [1, 2, 3, 4, 5]) == [Packet(SENTINEL, 7, [1, 2, 3, 4]), Packet(1, 8, [5])];
  }

  /** Four bytes with a cap of 4: the full packet is followed by an empty one. */
  lemma ExactMultipleCapFour()
    ensures Finalized(4, 7, [1, 2, 3, 4])
         == [0xFF, 0xFF, 0xFF, 7, 1, 2, 3, 4, 0, 0, 0, 8]
  {
    assert [1, 2, 3, 4][4..] == [];
  }
}
