/**
 * Fixed-width unsigned integers and their little-endian byte encoding.
 *
 * The firmware runs on a little-endian Cortex-M3: the packed wire structs, the
 * metadata words read from memory-mapped flash and the host's `struct.pack('<...')`
 * all use the encoding defined here.
 */
module ByteCodec {

  type byte = b: int | 0 <= b < 256
  type u16 = x: int | 0 <= x < 0x1_0000
  type u32 = x: int | 0 <= x < 0x1_0000_0000

  const U32_LIMIT: nat := 0x1_0000_0000

  /** 256 to the power n: the number of distinct n-byte values. */
  function Pow256(n: nat): (p: nat)
    ensures p >= 1
  {
    if n == 0 then 1 else 256 * Pow256(n - 1)
  }

  /** The n-byte little-endian encoding of x. */
  function LE(x: nat, n: nat): (r: seq<byte>)
    requires x < Pow256(n)
    ensures |r| == n
    ensures n > 0 ==> r[0] == x % 256
  {
    if n == 0 then [] else [x % 256] + LE(x / 256, n - 1)
  }

  /** The value of a little-endian byte string. */
  function FromLE(s: seq<byte>): (x: nat)
    ensures x < Pow256(|s|)
  {
    if s == [] then 0 else s[0] + 256 * FromLE(s[1..])
  }

  /** Decoding undoes encoding. */
  lemma {:induction false} FromLEOfLE(x: nat, n: nat)
    requires x < Pow256(n)
    ensures FromLE(LE(x, n)) == x
  {
    if n > 0 {
      FromLEOfLE(x / 256, n - 1);
      assert LE(x, n)[1..] == LE(x / 256, n - 1);
    }
  }

  /** Encoding undoes decoding: every byte string is the encoding of its value. */
  lemma {:induction false} LEOfFromLE(s: seq<byte>)
    ensures LE(FromLE(s), |s|) == s
  {
    if s != [] {
      LEOfFromLE(s[1..]);
      var x := FromLE(s);
      assert x % 256 == s[0] && x / 256 == FromLE(s[1..]);
    }
  }

  /** A word whose four bytes are all ones (erased flash) reads as 0xFFFF_FFFF. */
  lemma {:induction false} AllOnesWord(s: seq<byte>)
    requires |s| == 4 && forall k :: 0 <= k < 4 ==> s[k] == 0xFF
    ensures FromLE(s) == 0xFFFF_FFFF
  {
    var t := s[1..];
    var u := t[1..];
    var v := u[1..];
    assert v[1..] == [];
    assert FromLE(v) == 0xFF;
    assert FromLE(u) == 0xFF + 256 * 0xFF;
    assert FromLE(t) == 0xFF + 256 * (0xFF + 256 * 0xFF);
  }

  /** The widths used by the model: two and four bytes. */
  lemma {:induction false} WidthLimits()
    ensures Pow256(1) == 0x100 && Pow256(2) == 0x1_0000 && Pow256(4) == U32_LIMIT
  {
    assert Pow256(3) == 0x100_0000;
  }

  /** A 32-bit value decoded from four little-endian bytes. */
  function U32At(s: seq<byte>, at: nat): (x: u32)
    requires at + 4 <= |s|
  {
    var b0, b1, b2, b3 := s[at] as int, s[at + 1] as int, s[at + 2] as int, s[at + 3] as int;
    b0 + 0x100 * b1 + 0x1_0000 * b2 + 0x100_0000 * b3
  }

  /** The four bytes of a 32-bit word as the little-endian target stores it; reading them back gives x. */
  function U32Bytes(x: u32): (r: seq<byte>)
    ensures |r| == 4 && U32At(r, 0) == x
  {
    WidthLimits();
    var r := LE(x, 4);
    FromLEOfLE(x, 4);
    FixedWidthIsFromLE(r, 0);
    assert r[0..4] == r;
    r
  }

  /** A 16-bit value decoded from two little-endian bytes. */
  function U16At(s: seq<byte>, at: nat): (x: u16)
    requires at + 2 <= |s|
  {
    var b0, b1 := s[at] as int, s[at + 1] as int;
    b0 + 0x100 * b1
  }

  /** The two bytes of a 16-bit value in little-endian order; reading them back gives x. */
  function U16Bytes(x: u16): (r: seq<byte>)
    ensures |r| == 2 && U16At(r, 0) == x
  {
    WidthLimits();
    var r := LE(x, 2);
    FromLEOfLE(x, 2);
    assert r[1..][1..] == [];
    r
  }

  /** The fixed-width readers agree with the general decoding. */
  lemma {:induction false} FixedWidthIsFromLE(s: seq<byte>, at: nat)
    requires at + 4 <= |s|
    ensures U32At(s, at) == FromLE(s[at..at + 4])
    ensures U16At(s, at) == FromLE(s[at..at + 2])
  {
    var w := s[at..at + 4];
    assert FromLE(w[3..]) == s[at + 3] by {
      assert w[3..][1..] == [];
    }
    assert FromLE(w[2..]) == s[at + 2] as int + 0x100 * (s[at + 3] as int) by {
      assert w[2..][1..] == w[3..];
    }
    assert FromLE(w[1..]) == s[at + 1] as int + 0x100 * (s[at + 2] as int + 0x100 * (s[at + 3] as int)) by {
      assert w[1..][1..] == w[2..];
    }
    var h := s[at..at + 2];
    assert FromLE(h[1..]) == s[at + 1] by {
      assert h[1..][1..] == [];
    }
  }

  /** Multiplying by a positive factor keeps strict order, read backwards. */
  lemma {:induction false} MulStrict(x: nat, y: nat, ss: nat)
    requires ss > 0
    ensures x * ss < y * ss ==> x < y
  {
    if y <= x {
      assert x * ss == y * ss + (x - y) * ss;
    }
  }

  /** Euclidean division is determined by the bounds on the quotient. */
  lemma {:induction false} DivUnique(a: nat, ss: nat, n: nat)
    requires ss > 0 && n * ss <= a < n * ss + ss
    ensures a / ss == n && a % ss == a - n * ss
  {
    var q, r := a / ss, a % ss;
    assert a == q * ss + r && 0 <= r < ss;
    assert (n + 1) * ss == n * ss + ss && (q + 1) * ss == q * ss + ss;
    MulStrict(q, n + 1, ss);
    MulStrict(n, q + 1, ss);
  }
}
