/** Fixed-width little-endian integers, as encoding/binary writes them. */
module Encoding {
  import opened GoStrings

  function Pow256(w: nat): (p: nat)
    ensures p > 0
  {
    if w == 0 then 1 else 256 * Pow256(w - 1)
  }

  /** The low `w` bytes of `n`, least significant first. */
  function LittleEndian(n: nat, w: nat): (bytes: Str)
    ensures |bytes| == w
  {
    if w == 0 then [] else [n % 256] + LittleEndian(n / 256, w - 1)
  }

  function FromLittleEndian(bytes: Str): (n: nat) {
    if bytes == [] then 0 else bytes[0] + 256 * FromLittleEndian(bytes[1..])
  }

  /** Byte `i` holds the bits from 8 `i` on. */
  lemma {:induction false} LittleEndianBytes(n: nat, w: nat, i: nat)
    requires i < w
    ensures LittleEndian(n, w)[i] == n / Pow256(i) % 256
  {
    if i > 0 {
      LittleEndianBytes(n / 256, w - 1, i - 1);
      DivTwice(n, Pow256(i - 1));
    }
  }

  lemma DivTwice(n: nat, p: nat)
    requires p > 0
    ensures n / 256 / p == n / (256 * p)
  {
    var q, r := n / 256 / p, n / 256 % p;
    assert n / 256 == q * p + r;
    assert n == 256 * (q * p + r) + n % 256 == q * (256 * p) + (256 * r + n % 256);
    Quotient(n, 256 * p, q, 256 * r + n % 256);
  }

  lemma Times(a: nat, b: nat, d: nat)
    requires a <= b
    ensures a * d <= b * d
  {
    assert b * d == a * d + (b - a) * d;
  }

  lemma Quotient(n: nat, d: nat, q: nat, r: nat)
    requires d > 0 && r < d && n == q * d + r
    ensures n / d == q
  {
    var q' := n / d;
    assert q' * d <= n < q' * d + d;
    if q' < q {
      Times(q' + 1, q, d);
    } else if q < q' {
      Times(q + 1, q', d);
    }
  }

  lemma {:induction false} LittleEndianRoundTrip(n: nat, w: nat)
    requires n < Pow256(w)
    ensures FromLittleEndian(LittleEndian(n, w)) == n
  {
    if w > 0 {
      LittleEndianRoundTrip(n / 256, w - 1);
      assert LittleEndian(n, w)[1..] == LittleEndian(n / 256, w - 1);
    }
  }

  lemma {:induction false} FromLittleEndianBound(bytes: Str)
    ensures FromLittleEndian(bytes) < Pow256(|bytes|)
  {
    if bytes != [] { FromLittleEndianBound(bytes[1..]); }
  }

  const TWO_32 := 0x1_0000_0000
  const TWO_64 := 0x1_0000_0000_0000_0000

  type Uint64 = n: int | 0 <= n < TWO_64

  lemma Widths()
    ensures Pow256(4) == TWO_32 && Pow256(8) == TWO_64
  {
    assert Pow256(2) == 65536;
    assert Pow256(6) == 65536 * Pow256(4);
    assert Pow256(3) == 256 * Pow256(2) && Pow256(4) == 256 * Pow256(3);
    assert Pow256(5) == 256 * Pow256(4) && Pow256(6) == 256 * Pow256(5);
    assert Pow256(7) == 256 * Pow256(6) && Pow256(8) == 256 * Pow256(7);
  }

  /** int32(n): two's complement truncation. */
  function ToInt32(n: int): (r: int)
    ensures -0x8000_0000 <= r < 0x8000_0000
    ensures 0 <= n < 0x8000_0000 ==> r == n
  {
    var u := n % TWO_32;
    if u < 0x8000_0000 then u else u - TWO_32
  }

  /** A signed or unsigned 32-bit value on disk. */
  function Put32(n: int): (bytes: Str)
    ensures |bytes| == 4
  {
    LittleEndian(n % TWO_32, 4)
  }

  function Put64(n: int): (bytes: Str)
    ensures |bytes| == 8
  {
    LittleEndian(n % TWO_64, 8)
  }

  function GetUint32(bytes: Str): (n: nat)
    requires |bytes| == 4
  {
    FromLittleEndian(bytes)
  }

  function GetInt32(bytes: Str): (n: int)
    requires |bytes| == 4
  {
    ToInt32(FromLittleEndian(bytes))
  }

  function GetUint64(bytes: Str): (n: nat)
    requires |bytes| == 8
  {
    FromLittleEndian(bytes)
  }

  function GetInt64(bytes: Str): (n: int)
    requires |bytes| == 8
  {
    var u := FromLittleEndian(bytes);
    if u < 0x8000_0000_0000_0000 then u else u - TWO_64
  }

  /** Every value in range comes back. */
  lemma RoundTrip32(n: int)
    ensures 0 <= n < TWO_32 ==> GetUint32(Put32(n)) == n
    ensures -0x8000_0000 <= n < 0x8000_0000 ==> GetInt32(Put32(n)) == n
  {
    Widths();
    LittleEndianRoundTrip(n % TWO_32, 4);
  }

  lemma RoundTrip64(n: int)
    ensures 0 <= n < TWO_64 ==> GetUint64(Put64(n)) == n
    ensures -0x8000_0000_0000_0000 <= n < 0x8000_0000_0000_0000 ==> GetInt64(Put64(n)) == n
  {
    Widths();
    LittleEndianRoundTrip(n % TWO_64, 8);
  }
}
