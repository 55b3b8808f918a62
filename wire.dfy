/** Byte-level encodings used on the wire of the MySQL client/server protocol:
    fixed-width little-endian integers and length-encoded ("lenenc") integers,
    together with spec-level decoders for them. */
module Wire {

  /** An unsigned 8-bit value (C `uint8_t`). */
  type uint8 = x: int | 0 <= x < 0x100

  datatype Option<T> = None | Some(value: T)

  /** Exclusive upper bound of a C `uint64_t`. */
  const UINT64_LIMIT: nat := 0x1_0000_0000_0000_0000

  function Pow256(n: nat): (p: nat)
    ensures p > 0
  {
    if n == 0 then 1 else 256 * Pow256(n - 1)
  }

  /** The `n` low-order bytes of `v`, least significant first. Bytes above the
      `n`-th are dropped, as `(v >> 8*i) & 0xff` for `i < n` drops them. */
  function LE(v: nat, n: nat): (r: seq<uint8>)
    ensures |r| == n
  {
    if n == 0 then [] else [v % 256] + LE(v / 256, n - 1)
  }

  /** Reads a little-endian unsigned integer. */
  function FromLE(bs: seq<uint8>): nat
  {
    if bs == [] then 0 else bs[0] + 256 * FromLE(bs[1..])
  }

  lemma {:induction false} MulAtLeast(d: nat, k: nat)
    requires 1 <= k
    ensures d * k >= d
  {
    if k > 1 {
      MulAtLeast(d, k - 1);
      assert d * k == d * (k - 1) + d;
    }
  }

  lemma DivModUnique(a: int, d: int, q: int, r: int)
    requires 0 < d && 0 <= r < d && a == d * q + r
    ensures q == a / d && r == a % d
  {
    var m, s := a / d, a % d;
    assert a == d * m + s;
    if q > m {
      MulAtLeast(d, q - m);
    } else if q < m {
      MulAtLeast(d, m - q);
    }
  }

  /** Splitting a division into two stages. */
  lemma DivDiv(a: nat, b: nat, c: nat)
    requires 0 < b && 0 < c
    ensures a / b / c == a / (b * c)
    ensures a % (b * c) == a % b + b * ((a / b) % c)
  {
    var q, r := a / b, a % b;
    var q2, r2 := q / c, q % c;
    assert a == b * (c * q2 + r2) + r;
    assert b * (c * q2 + r2) == (b * c) * q2 + b * r2;
    assert b * r2 + r < b * c by {
      assert r2 <= c - 1;
      assert b * r2 <= b * (c - 1);
      assert b * (c - 1) == b * c - b;
    }
    assert 0 <= b * r2;
    DivModUnique(a, b * c, q2, b * r2 + r);
  }

  /** Byte `i` of `LE(v, n)` is `(v >> 8*i) & 0xff`. */
  lemma {:induction false} LEAt(v: nat, n: nat, i: nat)
    requires i < n
    ensures LE(v, n)[i] == (v / Pow256(i)) % 256
  {
    if i > 0 {
      LEAt(v / 256, n - 1, i - 1);
      DivDiv(v, 256, Pow256(i - 1));
    }
  }

  /** The bytes of `v` as the shifts and masks `(v >> 8*i) & 0xff` pick them. */
  lemma LEBytes(v: nat)
    ensures LE(v, 2) == [v % 0x100, (v / 0x100) % 0x100]
    ensures LE(v, 3) == [v % 0x100, (v / 0x100) % 0x100, (v / 0x1_0000) % 0x100]
    ensures LE(v, 4) == [v % 0x100, (v / 0x100) % 0x100, (v / 0x1_0000) % 0x100, (v / 0x100_0000) % 0x100]
    ensures LE(v, 8) == [v % 0x100, (v / 0x100) % 0x100, (v / 0x1_0000) % 0x100, (v / 0x100_0000) % 0x100,
                         (v / 0x1_0000_0000) % 0x100, (v / 0x100_0000_0000) % 0x100,
                         (v / 0x1_0000_0000_0000) % 0x100, (v / 0x100_0000_0000_0000) % 0x100]
  {
    forall n: nat, i: nat | i < n <= 8
      ensures LE(v, n)[i] == (v / Pow256(i)) % 256
    {
      LEAt(v, n, i);
    }
    assert Pow256(1) == 0x100 && Pow256(2) == 0x1_0000 && Pow256(3) == 0x100_0000;
    assert Pow256(4) == 0x1_0000_0000 && Pow256(5) == 0x100_0000_0000;
    assert Pow256(6) == 0x1_0000_0000_0000 && Pow256(7) == 0x100_0000_0000_0000;
  }

  /** Decoding `LE(v, n)` gives `v` modulo `256^n`: the encoding truncates to
      `n` bytes and loses nothing else. */
  lemma {:induction false} LERoundTrip(v: nat, n: nat)
    ensures FromLE(LE(v, n)) == v % Pow256(n)
  {
    if n > 0 {
      var bs := LE(v, n);
      assert bs[1..] == LE(v / 256, n - 1);
      LERoundTrip(v / 256, n - 1);
      DivDiv(v, 256, Pow256(n - 1));
    }
  }

  /** A value that fits in `n` bytes survives encoding and decoding. */
  lemma LEDecode(v: nat, n: nat)
    requires v < Pow256(n)
    ensures FromLE(LE(v, n)) == v
  {
    LERoundTrip(v, n);
  }

  /** The MySQL length-encoded integer for `v`: one byte below 251, otherwise
      a prefix 0xFC, 0xFD or 0xFE followed by 2, 3 or 8 little-endian bytes. */
  function Lenenc(v: nat): (r: seq<uint8>)
    requires v < UINT64_LIMIT
    ensures |r| == 1 || |r| == 3 || |r| == 4 || |r| == 9
    ensures r[0] != 0xFB && r[0] != 0xFF
    ensures (|r| == 1) == (v < 251)
  {
    if v < 251 then [v]
    else if v <= 0xFFFF then [0xFC] + LE(v, 2)
    else if v <= 0xFF_FFFF then [0xFD] + LE(v, 3)
    else [0xFE] + LE(v, 8)
  }

  /** Spec-level reader of a length-encoded integer: the value and the number
      of bytes it occupies. The reserved first bytes 0xFB (NULL) and 0xFF
      (error packet) and a truncated input are not integers. */
  function DecodeLenenc(bs: seq<uint8>): Option<(nat, nat)>
  {
    if |bs| == 0 then None
    else if bs[0] < 251 then Some((bs[0], 1))
    else if bs[0] == 0xFC && |bs| >= 3 then Some((FromLE(bs[1..3]), 3))
    else if bs[0] == 0xFD && |bs| >= 4 then Some((FromLE(bs[1..4]), 4))
    else if bs[0] == 0xFE && |bs| >= 9 then Some((FromLE(bs[1..9]), 9))
    else None
  }

  /** Length and prefix of the encoding follow the range table of the protocol. */
  lemma LenencTable(v: nat)
    requires v < UINT64_LIMIT
    ensures v < 251 ==> Lenenc(v) == [v]
    ensures 251 <= v <= 0xFFFF ==> |Lenenc(v)| == 3 && Lenenc(v)[0] == 0xFC
    ensures 0x1_0000 <= v <= 0xFF_FFFF ==> |Lenenc(v)| == 4 && Lenenc(v)[0] == 0xFD
    ensures 0xFF_FFFF < v ==> |Lenenc(v)| == 9 && Lenenc(v)[0] == 0xFE
  {
  }

  /** Reading back the encoding of `v`, whatever follows it, yields `v` and
      consumes exactly the encoding. */
  lemma LenencRoundTrip(v: nat, rest: seq<uint8>)
    requires v < UINT64_LIMIT
    ensures DecodeLenenc(Lenenc(v) + rest) == Some((v, |Lenenc(v)|))
  {
    var e := Lenenc(v);
    var bs := e + rest;
    if v < 251 {
    } else if v <= 0xFFFF {
      assert bs[1..3] == LE(v, 2);
      LEDecode(v, 2);
    } else if v <= 0xFF_FFFF {
      assert bs[1..4] == LE(v, 3);
      LEDecode(v, 3);
    } else {
      assert bs[1..9] == LE(v, 8);
      assert Pow256(8) == UINT64_LIMIT;
      LEDecode(v, 8);
    }
  }
}
