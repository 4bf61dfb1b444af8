/** Bin numbers of the heap's bitmaps (trivial/bitmap.cpp), in their portable
    shift-and-mask form. */
module TreeIndex {
  import opened Bits

  const WORD: int := 0x1_0000_0000

  /** The bit of weight w of v, in place: `v & w` for a power of two w. */
  function Masked(v: nat, w: nat): nat
    requires w > 0
  {
    v / w % 2 * w
  }

  /** `((y - t) >> 16) & w` on 32-bit words: the borrow of y - t. */
  function Borrow(y: nat, t: nat, w: nat): nat
    requires w > 0
  {
    Masked((y - t) % WORD / 0x1_0000, w)
  }

  /** `y << n` on 32-bit words. */
  function ShiftLeft(y: nat, n: nat): nat {
    y * Pow2(n) % WORD
  }

  /** The portable form of the bit scan: three normalising shifts, then the top bit. */
  function ScanReverse(x: nat): int {
    var n0 := Borrow(x, 0x100, 8);
    var y0 := ShiftLeft(x, n0);
    var k1 := Borrow(y0, 0x1000, 4);
    var y1 := ShiftLeft(y0, k1);
    var k2 := Borrow(y1, 0x4000, 2);
    var y2 := ShiftLeft(y1, k2);
    14 - (n0 + k1 + k2) + y2 / 0x8000
  }

  lemma BorrowIs(y: nat)
    requires y < 0x1_0000
    ensures Borrow(y, 0x100, 8) == if y < 0x100 then 8 else 0
    ensures Borrow(y, 0x1000, 4) == if y < 0x1000 then 4 else 0
    ensures Borrow(y, 0x4000, 2) == if y < 0x4000 then 2 else 0
  {
    assert y < 0x100 ==> (y - 0x100) % WORD == y - 0x100 + WORD;
    assert y < 0x1000 ==> (y - 0x1000) % WORD == y - 0x1000 + WORD;
    assert y < 0x4000 ==> (y - 0x4000) % WORD == y - 0x4000 + WORD;
  }

  lemma {:induction false} ShiftLeftIs(y: nat)
    requires y < 0x1_0000
    ensures ShiftLeft(y, 0) == y && ShiftLeft(y, 2) == 4 * y
    ensures ShiftLeft(y, 4) == 16 * y && ShiftLeft(y, 8) == 256 * y
  {
    Pow2Values();
    assert Pow2(0) == 1 && Pow2(2) == 4 && Pow2(4) == 16 && Pow2(8) == 256;
  }

  /** The three shifts bring x to the range from 0x4000 to 0xFFFF. */
  lemma {:induction false} Normalised(x: nat) returns (n0: nat, k1: nat, k2: nat, y: nat)
    requires 1 <= x <= 0xFFFF
    ensures n0 in {0, 8} && k1 in {0, 4} && k2 in {0, 2}
    ensures ScanReverse(x) == 14 - (n0 + k1 + k2) + y / 0x8000
    ensures 0x4000 <= y <= 0xFFFF
    ensures y == (if n0 == 8 then 256 else 1) * ((if k1 == 4 then 16 else 1) * ((if k2 == 2 then 4 else 1) * x))
  {
    hide Borrow, ShiftLeft;
    BorrowIs(x);
    ShiftLeftIs(x);
    n0 := Borrow(x, 0x100, 8);
    var y0 := ShiftLeft(x, n0);
    BorrowIs(y0);
    ShiftLeftIs(y0);
    k1 := Borrow(y0, 0x1000, 4);
    var y1 := ShiftLeft(y0, k1);
    BorrowIs(y1);
    ShiftLeftIs(y1);
    k2 := Borrow(y1, 0x4000, 2);
    y := ShiftLeft(y1, k2);
  }

  /** The bit scan computes floor(log2 x). */
  lemma {:induction false} ScanReverseExact(x: nat)
    requires 1 <= x <= 0xFFFF
    ensures 0 <= ScanReverse(x) <= 15
    ensures Pow2(ScanReverse(x)) <= x < Pow2(ScanReverse(x) + 1)
  {
    hide ScanReverse, Pow2;
    var n0, k1, k2, y := Normalised(x);
    PowersAre();
  }

  lemma PowersAre()
    ensures Pow2(0) == 1 && Pow2(1) == 2 && Pow2(2) == 4 && Pow2(3) == 8
    ensures Pow2(4) == 16 && Pow2(5) == 32 && Pow2(6) == 64 && Pow2(7) == 128
    ensures Pow2(8) == 256 && Pow2(9) == 512 && Pow2(10) == 1024 && Pow2(11) == 2048
    ensures Pow2(12) == 4096 && Pow2(13) == 8192 && Pow2(14) == 16384 && Pow2(15) == 32768
    ensures Pow2(16) == 65536
  {
  }

  /** `computeTreeIndex`. */
  function Index(size: nat): int {
    var x := size / 256;
    if x == 0 then 0
    else if x > 0xFFFF then 31
    else
      ScanReverseExact(x);
      var k := ScanReverse(x);
      2 * k + size / Pow2(k + 7) % 2
  }

  /** The least size of bin i: the powers of two from 256 up, and half as much
      again. Sizes below 256 share bin 0. */
  function Least(i: nat): nat {
    if i == 0 then 0 else Pow2(i / 2 + 8) + i % 2 * Pow2(i / 2 + 7)
  }

  lemma {:induction false} HalfBit(size: nat, d: nat)
    requires d >= 1 && 2 * d <= size < 4 * d
    ensures size / d % 2 == if size < 3 * d then 0 else 1
  {
    if size < 3 * d {
      QuotientIs(size, d, 2);
    } else {
      QuotientIs(size, d, 3);
    }
  }

  lemma {:induction false} QuotientIs(size: nat, d: nat, q: nat)
    requires d >= 1 && q * d <= size < q * d + d
    ensures size / d == q
  {
    var a := size / d;
    assert size == a * d + size % d;
    if a < q {
      ProductGrows(a + 1, q, d);
    } else if q < a {
      ProductGrows(q + 1, a, d);
    }
  }

  lemma {:induction false} ProductGrows(a: nat, b: nat, d: nat)
    requires a <= b
    ensures a * d <= b * d
  {
  }

  lemma {:induction false} Pow2Scale(k: nat)
    ensures Pow2(k + 7) == 128 * Pow2(k) && Pow2(k + 8) == 256 * Pow2(k) && Pow2(k + 9) == 512 * Pow2(k)
    ensures Pow2(k + 1) == 2 * Pow2(k)
  {
    Pow2Next(k);
    Pow2Next(k + 1);
    Pow2Next(k + 2);
    Pow2Next(k + 3);
    Pow2Next(k + 4);
    Pow2Next(k + 5);
    Pow2Next(k + 6);
    Pow2Next(k + 7);
    Pow2Next(k + 8);
    hide Pow2;
  }

  lemma {:induction false} Pow2Next(k: nat)
    ensures Pow2(k + 1) == 2 * Pow2(k)
  {
  }

  lemma {:induction false} LeastIs(k: nat)
    ensures Least(2 * k) == if k == 0 then 0 else 256 * Pow2(k)
    ensures Least(2 * k + 1) == 384 * Pow2(k)
  {
    Pow2Scale(k);
  }

  lemma {:induction false} LeastStep(i: nat)
    ensures Least(i) < Least(i + 1)
  {
    hide Pow2, Least;
    var k := i / 2;
    assert i == 2 * k || i == 2 * k + 1;
    LeastIs(k);
    LeastIs(k + 1);
    Pow2Scale(k);
  }

  lemma {:induction false} LeastRises(i: nat, j: nat)
    requires i < j
    ensures Least(i) < Least(j)
    decreases j
  {
    hide Least;
    LeastStep(j - 1);
    if i + 1 < j {
      LeastRises(i, j - 1);
    }
  }

  lemma {:induction false} InsideMiddle(size: nat, k: nat)
    requires Pow2(k) <= size / 256 < Pow2(k + 1)
    ensures var i := 2 * k + size / Pow2(k + 7) % 2;
            Least(i) <= size < Least(i + 1)
  {
    hide Pow2, Least;
    Pow2Scale(k);
    HalfBit(size, Pow2(k + 7));
    LeastIs(k);
    LeastIs(k + 1);
  }

  lemma {:induction false} InsideBin(size: nat)
    ensures 0 <= Index(size) <= 31 && Least(Index(size)) <= size
    ensures Index(size) < 31 ==> size < Least(Index(size) + 1)
  {
    hide Pow2, Least, ScanReverse;
    var x := size / 256;
    PowersAre();
    LeastIs(0);
    LeastIs(15);
    if 1 <= x <= 0xFFFF {
      ScanReverseExact(x);
      InsideMiddle(size, ScanReverse(x));
    }
  }

  /** A bin holds the sizes from its own least size up to that of the next bin;
      the last bin holds everything above. */
  lemma {:induction false} BinExact(size: nat, i: nat)
    requires i <= 31
    ensures Index(size) == i <==> Least(i) <= size && (i < 31 ==> size < Least(i + 1))
  {
    InsideBin(size);
    hide Index, Least;
    var b := Index(size);
    if b < i {
      if b + 1 < i { LeastRises(b + 1, i); }
    } else if i < b {
      if i + 1 < b { LeastRises(i + 1, b); }
    }
  }

  /** Larger sizes never go to a lower bin. */
  lemma {:induction false} IndexMonotone(size: nat, size': nat)
    requires size <= size'
    ensures Index(size) <= Index(size')
  {
    InsideBin(size);
    InsideBin(size');
    hide Index, Least;
    var b, b' := Index(size), Index(size');
    if b' + 1 < b {
      LeastRises(b' + 1, b);
    }
  }

  /* ---- bit2idx ---- */

  /** The portable `bit2idx`: the bits below the lowest one set are counted in
      parallel. */
  function BitToIndex(bit: bv32): bv32 {
    var x0 := bit - 1;
    var x1 := x0 - ((x0 >> 1) & 0x5555_5555);
    var x2 := ((x1 >> 2) & 0x3333_3333) + (x1 & 0x3333_3333);
    var x3 := ((x2 >> 4) + x2) & 0x0f0f_0f0f;
    var x4 := x3 + (x3 >> 8);
    var x5 := x4 + (x4 >> 16);
    x5 & 0x3f
  }

  /** On a single bit it returns the position of that bit. */
  lemma BitToIndexExact(i: bv32)
    requires i < 32
    ensures BitToIndex(1 << i) == i
  {
  }
}
