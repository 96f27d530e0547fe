/** Numbers and bit sets as bytes: what `memcpy` of a little-endian integer and the shifts on bitmaps do. */
module ByteCodec {

  type Byte = x: int | 0 <= x < 256
  type Bytes = seq<Byte>

  const TWO31: int := 0x8000_0000
  const TWO32: int := 0x1_0000_0000
  const TWO64: int := 0x1_0000_0000_0000_0000

  // ---- integers ----

  function Pow256(w: nat): nat { if w == 0 then 1 else 256 * Pow256(w - 1) }

  function Store(v: nat, w: nat): (bs: Bytes)
    ensures |bs| == w
  {
    if w == 0 then [] else [v % 256] + Store(v / 256, w - 1)
  }

  function Load(bs: Bytes): nat {
    if bs == [] then 0 else bs[0] + 256 * Load(bs[1..])
  }

  lemma {:induction false} LoadStore(v: nat, w: nat)
    requires v < Pow256(w)
    ensures Load(Store(v, w)) == v
  {
    if w > 0 {
      LoadStore(v / 256, w - 1);
      assert Store(v, w)[1..] == Store(v / 256, w - 1);
    }
  }

  lemma {:induction false} LoadBound(bs: Bytes)
    ensures Load(bs) < Pow256(|bs|)
  {
    if bs != [] { LoadBound(bs[1..]); }
  }

  lemma Widths()
    ensures Pow256(1) == 0x100 && Pow256(2) == 0x1_0000 && Pow256(4) == TWO32 && Pow256(8) == TWO64
  {
    assert Pow256(3) == 0x100_0000;
    assert Pow256(5) == 0x100_0000_0000;
    assert Pow256(6) == 0x1_0000_0000_0000;
    assert Pow256(7) == 0x100_0000_0000_0000;
  }

  // Little-endian numbers of two, four and eight bytes.
  function Half(bs: Bytes, off: nat): nat
    requires off + 2 <= |bs|
  {
    0x100 * bs[off + 1] as int + bs[off] as int
  }

  function Word(bs: Bytes, off: nat): nat
    requires off + 4 <= |bs|
  {
    Half(bs, off) + 0x1_0000 * Half(bs, off + 2)
  }

  function Long(bs: Bytes, off: nat): nat
    requires off + 8 <= |bs|
  {
    Word(bs, off) + 0x1_0000_0000 * Word(bs, off + 4)
  }

  lemma LoadOne(bs: Bytes)
    requires |bs| == 1
    ensures Load(bs) == bs[0]
  {
    assert Load(bs[1..]) == 0;
  }

  lemma LoadHalf(bs: Bytes)
    requires |bs| == 2
    ensures Load(bs) == Half(bs, 0)
  {
    LoadOne(bs[1..]);
  }

  lemma LoadWord(bs: Bytes)
    requires |bs| == 4
    ensures Load(bs) == Word(bs, 0)
  {
    var t := bs[1..];
    assert Load(t) == t[0] + 0x100 * Load(t[1..]);
    assert t[1..] == bs[2..];
    LoadHalf(bs[2..]);
  }

  lemma LoadLong(bs: Bytes)
    requires |bs| == 8
    ensures Load(bs) == Long(bs, 0)
  {
    LoadTail(bs);
    LoadWord(bs[4..]);
    LoadWord(bs[..4]);
  }

  lemma LoadTail(bs: Bytes)
    requires |bs| == 8
    ensures Load(bs) == Load(bs[..4]) + 0x1_0000_0000 * Load(bs[4..])
  {
    var a, b := bs[1..], bs[2..];
    var c, d := bs[3..], bs[4..];
    assert a[1..] == b && b[1..] == c && c[1..] == d;
    assert Load(bs) == bs[0] + 256 * (bs[1] + 256 * (bs[2] + 256 * (bs[3] + 256 * Load(d))));
    LoadWord(bs[..4]);
  }

  predicate IsInt32(v: int) { -TWO31 <= v < TWO31 }

  /** The bit pattern of the cast to `int32_t`, and the value of such a pattern. */
  function Pattern32(v: int): (n: nat)
    ensures n < TWO32
  {
    v % TWO32
  }

  function Signed32(n: nat): int { if n < TWO31 then n else n - TWO32 }

  lemma Signed32Pattern(v: int)
    ensures IsInt32(Signed32(Pattern32(v)))
    ensures IsInt32(v) ==> Signed32(Pattern32(v)) == v
    ensures Load(Store(Pattern32(v), 4)) == Pattern32(v)
  {
    Widths();
    LoadStore(Pattern32(v), 4);
  }

  // ---- bits ----

  /** `(b >> i) & 1`. */
  predicate Bit(b: nat, i: nat) {
    if i == 0 then b % 2 == 1 else Bit(b / 2, i - 1)
  }

  /** `b & ~(1 << i)`. */
  function Clear(b: nat, i: nat): (r: nat)
    ensures r <= b
  {
    if i == 0 then b - b % 2 else 2 * Clear(b / 2, i - 1) + b % 2
  }

  lemma {:induction false} ClearBit(b: nat, i: nat, j: nat)
    ensures Bit(Clear(b, i), j) <==> Bit(b, j) && i != j
  {
    if i > 0 && j > 0 {
      ClearBit(b / 2, i - 1, j - 1);
      assert Clear(b, i) / 2 == Clear(b / 2, i - 1);
    } else if i == 0 && j > 0 {
      assert Clear(b, 0) / 2 == b / 2;
    } else if j == 0 && i > 0 {
      assert Clear(b, i) % 2 == b % 2;
    }
  }

  function Pow2(i: nat): nat { if i == 0 then 1 else 2 * Pow2(i - 1) }

  /** Clearing bit i takes 2^i off the number exactly if the bit was set. */
  lemma {:induction false} ClearValue(b: nat, i: nat)
    ensures Clear(b, i) == b - if Bit(b, i) then Pow2(i) else 0
  {
    if i > 0 { ClearValue(b / 2, i - 1); }
  }

  function BitmapBytes(n: nat): nat { (n + 7) / 8 }

  predicate BitAt(bits: Bytes, r: nat)
    requires r < 8 * |bits|
  {
    Bit(bits[r / 8], r % 8)
  }

  lemma {:induction false} Ones(b: nat, n: nat, i: nat)
    requires i < n && b == Low(n)
    ensures Bit(b, i)
  {
    if i > 0 { Ones(b / 2, n - 1, i - 1); }
  }

  function Low(n: nat): nat { if n == 0 then 0 else 2 * Low(n - 1) + 1 }

  lemma AllSet(bits: Bytes, r: nat)
    requires r < 8 * |bits| && forall i :: 0 <= i < |bits| ==> bits[i] == 0xFF
    ensures BitAt(bits, r)
  {
    Ones(0xFF, 8, r % 8);
  }

  /** Clearing the bit of row r in a bitmap changes the bit of no other row. */
  lemma ClearAt(bits: Bytes, r: nat, k: nat)
    requires r < 8 * |bits| && k < 8 * |bits|
    ensures BitAt(bits[r / 8 := Clear(bits[r / 8], r % 8)], k) <==> BitAt(bits, k) && k != r
  {
    if k / 8 == r / 8 { ClearBit(bits[r / 8], r % 8, k % 8); }
  }

  // ---- blocks one after the other ----

  function Flat(parts: seq<Bytes>): Bytes {
    if parts == [] then [] else Flat(parts[..|parts| - 1]) + parts[|parts| - 1]
  }

  /** Where block i starts. */
  function Start(parts: seq<Bytes>, i: nat): nat
    requires i <= |parts|
  {
    |Flat(parts[..i])|
  }

  lemma StartZero(parts: seq<Bytes>)
    ensures Start(parts, 0) == 0 && Flat(parts[..0]) == []
  {
  }

  lemma StartStep(parts: seq<Bytes>, i: nat)
    requires i < |parts|
    ensures Start(parts, i + 1) == Start(parts, i) + |parts[i]|
    ensures Flat(parts[..i + 1]) == Flat(parts[..i]) + parts[i]
  {
    assert parts[..i + 1][..i] == parts[..i];
  }

  lemma {:induction false} FlatPart(parts: seq<Bytes>, i: nat)
    requires i < |parts|
    ensures Start(parts, i) + |parts[i]| <= |Flat(parts)|
    ensures Flat(parts)[Start(parts, i)..Start(parts, i) + |parts[i]|] == parts[i]
  {
    var n := |parts| - 1;
    if i < n {
      FlatPart(parts[..n], i);
      assert parts[..n][..i] == parts[..i];
    }
  }

  lemma {:induction false} StartMono(parts: seq<Bytes>, i: nat, j: nat)
    requires i <= j <= |parts|
    ensures Start(parts, i) <= Start(parts, j) <= |Flat(parts)|
    decreases |parts| - i
  {
    assert parts[..|parts|] == parts;
    if i < |parts| {
      StartStep(parts, i);
      if i < j { StartMono(parts, i + 1, j); } else { StartMono(parts, i + 1, i + 1); }
    }
  }

  lemma {:induction false} FlatUniform(parts: seq<Bytes>, w: nat)
    requires forall i :: 0 <= i < |parts| ==> |parts[i]| == w
    ensures |Flat(parts)| == w * |parts|
  {
    if parts != [] { FlatUniform(parts[..|parts| - 1], w); }
  }

  lemma StartUniform(parts: seq<Bytes>, w: nat, i: nat)
    requires i <= |parts| && forall k :: 0 <= k < |parts| ==> |parts[k]| == w
    ensures Start(parts, i) == w * i
  {
    FlatUniform(parts[..i], w);
  }

  // ---- memory ----

  /** `memcpy` into a buffer. */
  method CopyInto(a: array<Byte>, off: nat, bs: Bytes)
    requires off + |bs| <= a.Length
    modifies a
    ensures a[..off + |bs|] == old(a[..off]) + bs && a[off + |bs|..] == old(a[off + |bs|..])
  {
    forall i | 0 <= i < |bs| {
      a[off + i] := bs[i];
    }
  }
}
