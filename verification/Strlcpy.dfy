/** `details::strlcpy` of socket/monitor/util.cpp: a bounded string copy that goes
    a machine word at a time where source and destination are equally aligned. */
module Strlcpy {

  const WORD: nat := 8

  /** HASZERO, the expression that is tested for being non-zero. */
  function HasZero(x: bv64): bv64 {
    (x - 0x0101_0101_0101_0101) & !x & 0x8080_8080_8080_8080
  }

  /** The word at an aligned address, least significant byte first. */
  function Load(b: seq<bv8>): bv64
    requires |b| == WORD
  {
    Pack(b[0], b[1], b[2], b[3], b[4], b[5], b[6], b[7])
  }

  function Pack(b0: bv8, b1: bv8, b2: bv8, b3: bv8, b4: bv8, b5: bv8, b6: bv8, b7: bv8): bv64 {
    (b0 as bv64) | ((b1 as bv64) << 8) | ((b2 as bv64) << 16) | ((b3 as bv64) << 24) |
    ((b4 as bv64) << 32) | ((b5 as bv64) << 40) | ((b6 as bv64) << 48) | ((b7 as bv64) << 56)
  }

  /** The byte of a word that is stored at offset k. */
  function ByteOf(x: bv64, k: nat): bv8
    requires k < WORD
  {
    if k == 0 then (x & 0xff) as bv8
    else if k == 1 then ((x >> 8) & 0xff) as bv8
    else if k == 2 then ((x >> 16) & 0xff) as bv8
    else if k == 3 then ((x >> 24) & 0xff) as bv8
    else if k == 4 then ((x >> 32) & 0xff) as bv8
    else if k == 5 then ((x >> 40) & 0xff) as bv8
    else if k == 6 then ((x >> 48) & 0xff) as bv8
    else ((x >> 56) & 0xff) as bv8
  }

  lemma PackLow(b0: bv8, b1: bv8, b2: bv8, b3: bv8, b4: bv8, b5: bv8, b6: bv8, b7: bv8)
    ensures var x := Pack(b0, b1, b2, b3, b4, b5, b6, b7);
            ByteOf(x, 0) == b0 && ByteOf(x, 1) == b1 && ByteOf(x, 2) == b2 && ByteOf(x, 3) == b3
  {
  }

  lemma PackHigh(b0: bv8, b1: bv8, b2: bv8, b3: bv8, b4: bv8, b5: bv8, b6: bv8, b7: bv8)
    ensures var x := Pack(b0, b1, b2, b3, b4, b5, b6, b7);
            ByteOf(x, 4) == b4 && ByteOf(x, 5) == b5 && ByteOf(x, 6) == b6 && ByteOf(x, 7) == b7
  {
  }

  /** Storing a loaded word writes the bytes it was loaded from. */
  lemma LoadStore(b: seq<bv8>, k: nat)
    requires |b| == WORD && k < WORD
    ensures ByteOf(Load(b), k) == b[k]
  {
    PackLow(b[0], b[1], b[2], b[3], b[4], b[5], b[6], b[7]);
    PackHigh(b[0], b[1], b[2], b[3], b[4], b[5], b[6], b[7]);
  }

  predicate EveryByteSet(x: bv64) {
    && x & 0xff != 0 && x & 0xff00 != 0 && x & 0xff_0000 != 0 && x & 0xff00_0000 != 0
    && x & 0xff_0000_0000 != 0 && x & 0xff00_0000_0000 != 0
    && x & 0xff_0000_0000_0000 != 0 && x & 0xff00_0000_0000_0000 != 0
  }

  lemma HasZeroMissesNothing(x: bv64)
    requires HasZero(x) == 0
    ensures EveryByteSet(x)
  {
  }

  lemma HasZeroNoFalseAlarm(x: bv64)
    requires EveryByteSet(x)
    ensures HasZero(x) == 0
  {
  }

  lemma BytesSetLow(b0: bv8, b1: bv8, b2: bv8, b3: bv8, b4: bv8, b5: bv8, b6: bv8, b7: bv8)
    ensures var x := Pack(b0, b1, b2, b3, b4, b5, b6, b7);
            && (x & 0xff != 0 <==> b0 != 0) && (x & 0xff00 != 0 <==> b1 != 0)
            && (x & 0xff_0000 != 0 <==> b2 != 0) && (x & 0xff00_0000 != 0 <==> b3 != 0)
  {
  }

  lemma BytesSetHigh(b0: bv8, b1: bv8, b2: bv8, b3: bv8, b4: bv8, b5: bv8, b6: bv8, b7: bv8)
    ensures var x := Pack(b0, b1, b2, b3, b4, b5, b6, b7);
            && (x & 0xff_0000_0000 != 0 <==> b4 != 0) && (x & 0xff00_0000_0000 != 0 <==> b5 != 0)
            && (x & 0xff_0000_0000_0000 != 0 <==> b6 != 0) && (x & 0xff00_0000_0000_0000 != 0 <==> b7 != 0)
  {
  }

  lemma HasZeroOnBytes(b0: bv8, b1: bv8, b2: bv8, b3: bv8, b4: bv8, b5: bv8, b6: bv8, b7: bv8)
    ensures HasZero(Pack(b0, b1, b2, b3, b4, b5, b6, b7)) == 0 <==>
            b0 != 0 && b1 != 0 && b2 != 0 && b3 != 0 && b4 != 0 && b5 != 0 && b6 != 0 && b7 != 0
  {
    var x := Pack(b0, b1, b2, b3, b4, b5, b6, b7);
    assert EveryByteSet(x) <==>
           b0 != 0 && b1 != 0 && b2 != 0 && b3 != 0 && b4 != 0 && b5 != 0 && b6 != 0 && b7 != 0
    by {
      BytesSetLow(b0, b1, b2, b3, b4, b5, b6, b7);
      BytesSetHigh(b0, b1, b2, b3, b4, b5, b6, b7);
    }
    HasZeroIffBytes(x);
  }

  lemma HasZeroIffBytes(x: bv64)
    ensures HasZero(x) == 0 <==> EveryByteSet(x)
  {
    if HasZero(x) == 0 { HasZeroMissesNothing(x); }
    if EveryByteSet(x) { HasZeroNoFalseAlarm(x); }
  }

  /** HASZERO is non-zero exactly when one of the eight bytes is zero. */
  lemma HasZeroExact(b: seq<bv8>)
    requires |b| == WORD
    ensures HasZero(Load(b)) != 0 <==> exists k :: 0 <= k < WORD && b[k] == 0
  {
    HasZeroOnBytes(b[0], b[1], b[2], b[3], b[4], b[5], b[6], b[7]);
  }

  /** The position of the terminator. */
  predicate IsStrlen(src: seq<bv8>, z: nat) {
    z < |src| && src[z] == 0 && forall i :: 0 <= i < z ==> src[i] != 0
  }

  function Min(a: nat, b: nat): nat { if a < b then a else b }

  /** A word store. */
  method StoreWord(dst: array<bv8>, at: nat, x: bv64)
    requires at + WORD <= dst.Length
    modifies dst
    ensures forall k :: 0 <= k < WORD ==> dst[at + k] == ByteOf(x, k)
    ensures forall i :: 0 <= i < dst.Length && !(at <= i < at + WORD) ==> dst[i] == old(dst[i])
  {
    for k := 0 to WORD
      invariant forall j :: 0 <= j < k ==> dst[at + j] == ByteOf(x, j)
      invariant forall i :: 0 <= i < dst.Length && !(at <= i < at + k) ==> dst[i] == old(dst[i])
    {
      dst[at + k] := ByteOf(x, k);
    }
  }

  /** `for (; stop && n && (*d = *s); --n, ++s, ++d)`: the byte loop, which also
      writes the terminator it stops at. It runs to the next aligned address of
      the source, or without that bound. */
  method CopyBytes(dst: array<bv8>, src: seq<bv8>, ghost z: nat, sAddr: nat, start: nat, room: nat, align: bool)
    returns (i: nat, n: nat)
    requires IsStrlen(src, z) && start <= z
    requires dst.Length > Min(z, start + room)
    modifies dst
    ensures start <= i <= Min(z, start + room) && n == start + room - i
    ensures n == 0 || src[i] == 0 || (align && (sAddr + i) % WORD == 0)
    ensures forall k :: start <= k < i ==> dst[k] == src[k]
    ensures forall k :: 0 <= k < dst.Length && !(start <= k <= i) ==> dst[k] == old(dst[k])
  {
    i, n := start, room;
    var more := (!align || (sAddr + i) % WORD != 0) && n != 0;
    while more
      invariant start <= i <= Min(z, start + room) && n == start + room - i
      invariant more ==> n != 0
      invariant !more ==> n == 0 || src[i] == 0 || (align && (sAddr + i) % WORD == 0)
      invariant forall k :: start <= k < i ==> dst[k] == src[k]
      invariant forall k :: 0 <= k < dst.Length && !(start <= k <= i) ==> dst[k] == old(dst[k])
      decreases n, more
    {
      dst[i] := src[i];
      if dst[i] != 0 {
        n, i := n - 1, i + 1;
        more := (!align || (sAddr + i) % WORD != 0) && n != 0;
      } else {
        more := false;
      }
    }
  }

  /** The word loop. Reading a word that holds the terminator reads on to the end
      of that word, and no further. */
  method CopyWords(dst: array<bv8>, src: seq<bv8>, ghost z: nat, sAddr: nat, start: nat, room: nat)
    returns (i: nat, n: nat)
    requires IsStrlen(src, z) && start <= z
    requires (sAddr + start) % WORD == 0 && (sAddr + |src|) % WORD == 0
    requires dst.Length > Min(z, start + room)
    modifies dst
    ensures start <= i <= Min(z, start + room) && n == start + room - i
    ensures forall k :: start <= k < i ==> dst[k] == src[k]
    ensures forall k :: 0 <= k < dst.Length && !(start <= k < i) ==> dst[k] == old(dst[k])
  {
    i, n := start, room;
    while n >= WORD && HasZero(Load(WordAt(src, sAddr, i))) == 0
      invariant start <= i <= Min(z, start + room) && n == start + room - i
      invariant (sAddr + i) % WORD == 0
      invariant forall k :: start <= k < i ==> dst[k] == src[k]
      invariant forall k :: 0 <= k < dst.Length && !(start <= k < i) ==> dst[k] == old(dst[k])
      decreases n
    {
      var b := WordAt(src, sAddr, i);
      HasZeroExact(b);
      forall j | i <= j < i + WORD ensures src[j] != 0 { assert b[j - i] == src[j]; }
      StoreWord(dst, i, Load(b));
      forall j | i <= j < i + WORD ensures dst[j] == src[j] {
        LoadStore(b, j - i);
        assert dst[i + (j - i)] == ByteOf(Load(b), j - i);
      }
      n, i := n - WORD, i + WORD;
    }
  }

  /** The aligned word that starts at offset i lies inside memory given in whole words. */
  function WordAt(src: seq<bv8>, sAddr: nat, i: nat): (b: seq<bv8>)
    requires i < |src| && (sAddr + i) % WORD == 0 && (sAddr + |src|) % WORD == 0
    ensures |b| == WORD
  {
    assert i + WORD <= |src|;
    src[i..i + WORD]
  }

  /** For every pair of alignments the copy takes exactly the first
      min(strlen, n) bytes, terminates them, and touches nothing behind. */
  method Copy(dst: array<bv8>, dAddr: nat, src: seq<bv8>, sAddr: nat, n: nat, ghost z: nat) returns (count: nat)
    requires IsStrlen(src, z) && (sAddr + |src|) % WORD == 0
    requires dst.Length > Min(z, n)
    modifies dst
    ensures count == Min(z, n)
    ensures dst[..count] == src[..count] && dst[count] == 0
    ensures forall k :: count < k < dst.Length ==> dst[k] == old(dst[k])
  {
    var i, room := 0, n;
    if sAddr % WORD == dAddr % WORD {
      i, room := CopyBytes(dst, src, z, sAddr, i, room, true);
      if room != 0 && src[i] != 0 {
        i, room := CopyWords(dst, src, z, sAddr, i, room);
      }
    }
    i, room := CopyBytes(dst, src, z, sAddr, i, room, false);
    dst[i] := 0;
    count := i;
  }
}
