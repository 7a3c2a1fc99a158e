/** The bloom filter guarding each SSTable, and its file. */
module Bloom {
  import opened GoStrings
  import opened Encoding

  const SALT: Str := [115, 97, 108, 116]    // "salt"

  /** The `i`-th bit position of a key: double hashing in 64-bit arithmetic, then modulo the size. */
  function Position(fnv: Str -> nat, key: Str, i: nat, size: nat): (p: nat)
    requires size > 0
    ensures p < size
  {
    ((fnv(key) + i * fnv(key + SALT)) % TWO_64) % size
  }

  /** The hash at step `i`: from the key's hash on, each step adds that of the key with "salt" after it
      and drops what does not fit 64 bits. */
  ghost function Stepped(fnv: Str -> nat, key: Str, i: nat): (h: nat) {
    if i == 0 then fnv(key) % 0x1_0000_0000_0000_0000
    else (Stepped(fnv, key, i - 1) + fnv(key + [115, 97, 108, 116])) % 0x1_0000_0000_0000_0000
  }

  lemma {:induction false} PositionIsStepped(fnv: Str -> nat, key: Str, i: nat, size: nat)
    requires size > 0
    ensures Position(fnv, key, i, size) == Stepped(fnv, key, i) % size
  {
    StepsAdd(fnv, key, i);
  }

  lemma {:induction false} StepsAdd(fnv: Str -> nat, key: Str, i: nat)
    ensures Stepped(fnv, key, i) == (fnv(key) + i * fnv(key + SALT)) % TWO_64
  {
    if i > 0 {
      StepsAdd(fnv, key, i - 1);
      var a, b := fnv(key) + (i - 1) * fnv(key + SALT), fnv(key + SALT);
      assert fnv(key) + i * b == a + b;
      AddWrapped(a, b);
    }
  }

  lemma AddWrapped(a: nat, b: nat)
    ensures (a % TWO_64 + b) % TWO_64 == (a + b) % TWO_64
  {
  }

  /** All of a key's bits are set. */
  ghost predicate Marked(fnv: Str -> nat, hashCount: nat, bits: seq<bool>, key: Str)
    requires |bits| > 0
  {
    forall i :: 0 <= i < hashCount ==> bits[Position(fnv, key, i, |bits|)]
  }

  /** The bits after setting the first `n` of a key's positions. */
  ghost function SetFirst(fnv: Str -> nat, bits: seq<bool>, key: Str, n: nat): (r: seq<bool>)
    requires |bits| > 0
    ensures |r| == |bits|
  {
    if n == 0 then bits else SetFirst(fnv, bits, key, n - 1)[Position(fnv, key, n - 1, |bits|) := true]
  }

  ghost function AddAll(fnv: Str -> nat, hashCount: nat, bits: seq<bool>, keys: seq<Str>): (r: seq<bool>)
    requires |bits| > 0
    ensures |r| == |bits|
  {
    if keys == [] then bits
    else SetFirst(fnv, AddAll(fnv, hashCount, bits, keys[..|keys| - 1]), keys[|keys| - 1], hashCount)
  }

  lemma {:induction false} SetFirstEffect(fnv: Str -> nat, bits: seq<bool>, key: Str, n: nat)
    requires |bits| > 0
    ensures forall p :: 0 <= p < |bits| && bits[p] ==> SetFirst(fnv, bits, key, n)[p]
    ensures forall i :: 0 <= i < n ==> SetFirst(fnv, bits, key, n)[Position(fnv, key, i, |bits|)]
  {
    hide Position;
    if n > 0 { SetFirstEffect(fnv, bits, key, n - 1); }
  }

  /** `p` is one of the key's first `n` positions. */
  ghost predicate IsPosition(fnv: Str -> nat, key: Str, n: nat, size: nat, p: nat)
    requires size > 0
  {
    exists i :: 0 <= i < n && p == Position(fnv, key, i, size)
  }

  lemma {:induction false} SetFirstExact(fnv: Str -> nat, bits: seq<bool>, key: Str, n: nat, p: nat)
    requires |bits| > 0 && p < |bits|
    ensures SetFirst(fnv, bits, key, n)[p] <==> bits[p] || IsPosition(fnv, key, n, |bits|, p)
  {
    hide Position;
    if n > 0 { SetFirstExact(fnv, bits, key, n - 1, p); }
  }

  /** Just the positions of added keys get set. */
  lemma {:induction false} AddAllExact(fnv: Str -> nat, hashCount: nat, bits: seq<bool>, keys: seq<Str>, p: nat)
    requires |bits| > 0 && p < |bits|
    ensures AddAll(fnv, hashCount, bits, keys)[p] <==>
        bits[p] || exists k :: k in keys && IsPosition(fnv, k, hashCount, |bits|, p)
  {
    hide Position, IsPosition;
    if keys != [] {
      var init, last := keys[..|keys| - 1], keys[|keys| - 1];
      AddAllExact(fnv, hashCount, bits, init, p);
      SetFirstExact(fnv, AddAll(fnv, hashCount, bits, init), last, hashCount, p);
      assert keys == init + [last];
    }
  }

  /** No false negatives: after any sequence of additions every added key is reported. */
  lemma {:induction false} NoFalseNegatives(fnv: Str -> nat, hashCount: nat, bits: seq<bool>, keys: seq<Str>)
    requires |bits| > 0
    ensures forall k :: k in keys ==> Marked(fnv, hashCount, AddAll(fnv, hashCount, bits, keys), k)
  {
    hide Position;
    if keys != [] {
      var init, last := keys[..|keys| - 1], keys[|keys| - 1];
      NoFalseNegatives(fnv, hashCount, bits, init);
      SetFirstEffect(fnv, AddAll(fnv, hashCount, bits, init), last, hashCount);
      assert keys == init + [last];
    }
  }

  // ---------- packing bits into bytes ----------

  /** b & (1 << j) != 0. */
  predicate BitSet(b: nat, j: nat) {
    if j == 0 then b % 2 == 1 else BitSet(b / 2, j - 1)
  }

  /** b | (1 << j). */
  function SetBit(b: nat, j: nat): (r: nat) {
    if j == 0 then (if b % 2 == 1 then b else b + 1) else 2 * SetBit(b / 2, j - 1) + b % 2
  }

  function Pow2(k: nat): (p: nat) {
    if k == 0 then 1 else 2 * Pow2(k - 1)
  }

  /** Setting a bit sets that bit and no other, and a `k`-bit number stays one. */
  lemma {:induction false} SetBitEffect(b: nat, j: nat, i: nat, k: nat)
    requires b < Pow2(k) && j < k
    ensures SetBit(b, j) < Pow2(k)
    ensures BitSet(SetBit(b, j), i) <==> i == j || BitSet(b, i)
  {
    if j > 0 && i > 0 {
      SetBitEffect(b / 2, j - 1, i - 1, k - 1);
      assert SetBit(b, j) / 2 == SetBit(b / 2, j - 1);
    } else if j > 0 {
      SetBitEffect(b / 2, j - 1, 0, k - 1);
    }
  }

  lemma ByteWidth()
    ensures Pow2(8) == 256
  {
    assert Pow2(2) == 4;
    assert Pow2(4) == 16;
    assert Pow2(6) == 64;
  }

  lemma {:induction false} ZeroHasNoBits(j: nat)
    ensures !BitSet(0, j)
  {
    if j > 0 { ZeroHasNoBits(j - 1); }
  }

  // ---------- the filter and its file ----------

  /** What a bloom file says: its size, its hash count and its bits. */
  datatype Image = Image(size: nat, hashCount: nat, bits: seq<bool>)

  /** The packed bits of `img`, as a byte sequence. */
  ghost predicate Packs(bytes: Str, bits: seq<bool>) {
    && |bytes| == (|bits| + 7) / 8
    && forall i :: 0 <= i < |bits| ==> (BitSet(bytes[i / 8], i % 8) <==> bits[i])
  }

  /** A bloom file: two 64-bit counts, then the packed bits. */
  ghost predicate Encodes(file: Str, img: Image) {
    && img.size == |img.bits| && 0 < img.size < TWO_64 && img.hashCount < TWO_64
    && |file| == 16 + (img.size + 7) / 8
    && file[..8] == Put64(img.size) && file[8..16] == Put64(img.hashCount)
    && Packs(file[16..], img.bits)
  }

  class BloomFilter {
    const fnv: Str -> nat
    const size: nat
    const hashCount: nat
    const bits: array<bool>

    ghost predicate Valid() {
      bits.Length == size && 0 < size < TWO_64 && hashCount < TWO_64
    }

    /** NewBloomFilter, for whatever size and hash count the two rates give. */
    constructor (fnv: Str -> nat, size: nat, hashCount: nat)
      requires 0 < size < TWO_64 && hashCount < TWO_64
      ensures Valid() && fresh(bits)
      ensures this.fnv == fnv && this.size == size && this.hashCount == hashCount
      ensures forall i :: 0 <= i < size ==> !bits[i]
    {
      this.fnv, this.size, this.hashCount := fnv, size, hashCount;
      bits := new bool[size](_ => false);
    }

    method Add(key: Str)
      requires Valid()
      modifies bits
      ensures bits[..] == SetFirst(fnv, old(bits[..]), key, hashCount)
    {
      for i := 0 to hashCount
        invariant bits[..] == SetFirst(fnv, old(bits[..]), key, i)
      {
        bits[Position(fnv, key, i, size)] := true;
      }
    }

    method MayContain(key: Str) returns (b: bool)
      requires Valid()
      ensures b <==> Marked(fnv, hashCount, bits[..], key)
    {
      for i := 0 to hashCount
        invariant forall j :: 0 <= j < i ==> bits[Position(fnv, key, j, size)]
      {
        if !bits[Position(fnv, key, i, size)] {
          assert !bits[..][Position(fnv, key, i, size)];
          return false;
        }
      }
      return true;
    }

    /** WriteTo. */
    method WriteTo() returns (file: Str)
      requires Valid()
      ensures Encodes(file, Image(size, hashCount, bits[..]))
    {
      var bytes := Pack(bits[..]);
      file := Put64(size) + Put64(hashCount) + bytes;
      assert file[16..] == bytes;
    }
  }

  /** The packing loop of WriteTo. */
  method Pack(bits: seq<bool>) returns (bytes: Str)
    ensures Packs(bytes, bits)
  {
    var n := (|bits| + 7) / 8;
    bytes := seq(n, _ => 0);
    forall j { ZeroHasNoBits(j); }
    for i := 0 to |bits|
      invariant |bytes| == n
      invariant forall j :: 0 <= j < i ==> (BitSet(bytes[j / 8], j % 8) <==> bits[j])
      invariant forall j :: i <= j < |bits| ==> !BitSet(bytes[j / 8], j % 8)
    {
      if bits[i] {
        var byteIndex, bitIndex := i / 8, i % 8;
        ghost var before := bytes;
        ByteWidth();
        forall j
          ensures SetBit(bytes[byteIndex], bitIndex) < 256
          ensures BitSet(SetBit(bytes[byteIndex], bitIndex), j) <==> j == bitIndex || BitSet(bytes[byteIndex], j)
        {
          SetBitEffect(bytes[byteIndex], bitIndex, j, 8);
        }
        bytes := bytes[byteIndex := SetBit(bytes[byteIndex], bitIndex)];
      }
    }
  }

  /** LoadBloomFilter: the counts, then as many bytes as the size calls for. A stored size of 0,
      on which every later lookup would divide by zero, counts as unreadable. */
  method Load(fnv: Str -> nat, file: Str) returns (r: Option<BloomFilter>)
    ensures r.Some? ==> r.value.fnv == fnv && r.value.Valid()
    ensures r.Some? <==>
        |file| >= 16 && GetUint64(file[..8]) > 0 && |file| >= 16 + (GetUint64(file[..8]) + 7) / 8
    ensures r.Some? ==>
        && r.value.size == GetUint64(file[..8]) && r.value.hashCount == GetUint64(file[8..16])
        && Packs(file[16..16 + (r.value.size + 7) / 8], r.value.bits[..])
    ensures forall img :: Encodes(file, img) ==>
                            r.Some? && Image(r.value.size, r.value.hashCount, r.value.bits[..]) == img
  {
    if |file| < 16 {
      return None;
    }
    var size := GetUint64(file[..8]);
    var hashCount := GetUint64(file[8..16]);
    RoundTrip64s();
    var byteCount := (size + 7) / 8;
    if |file| < 16 + byteCount || size == 0 {
      return None;
    }
    FromLittleEndianBound(file[..8]);
    FromLittleEndianBound(file[8..16]);
    Widths();
    var bf := new BloomFilter(fnv, size, hashCount);
    var bytes := file[16..16 + byteCount];
    for i := 0 to size
      invariant forall j :: 0 <= j < i ==> bf.bits[j] == BitSet(bytes[j / 8], j % 8)
    {
      bf.bits[i] := BitSet(bytes[i / 8], i % 8);
    }
    r := Some(bf);
    forall img | Encodes(file, img) ensures bf.bits[..] == img.bits {
      assert file[16..] == bytes;
    }
  }

  lemma RoundTrip64s()
    ensures forall n: nat :: n < TWO_64 ==> GetUint64(Put64(n)) == n
  {
    forall n: nat | n < TWO_64 ensures GetUint64(Put64(n)) == n { RoundTrip64(n); }
  }
}
