/** The base64 codec of codec/base64.c. A C string is the sequence of its bytes
    without the terminator. */
module Base64 {
  import opened Bits

  type sextet = x: int | 0 <= x < 64

  const PAD: byte := 61

  /** What decoding does: it returns nothing, or a text, or stores behind an
      allocation of `size` bytes. */
  datatype Result = Refused | Decoded(text: array<byte>) | Overrun(size: nat)

  /* ---- section 4 of RFC 4648: the alphabet and the 24-bit group, as numbers ---- */

  function Alphabet(x: sextet): byte {
    if x < 26 then 65 + x
    else if x < 52 then 97 + (x - 26)
    else if x < 62 then 48 + (x - 52)
    else if x == 62 then 43
    else 47
  }

  /** What a character counts for when decoding; all others count as zero. */
  function Ordinal(c: byte): sextet {
    if 65 <= c < 91 then c - 65
    else if 97 <= c < 123 then c - 97 + 26
    else if 48 <= c < 58 then c - 48 + 52
    else if c == 43 then 62
    else if c == 47 then 63
    else 0
  }

  /** The four characters that stand for a group of n bytes, of three: the bits
      of the bytes side by side, six at a time. */
  function Quad(b0: byte, b1: byte, b2: byte, n: nat): (r: seq<byte>)
    ensures |r| == 4
  {
    [Alphabet(b0 / 4), Alphabet(b0 % 4 * 16 + b1 / 16),
     if n < 2 then PAD else Alphabet(b1 % 16 * 4 + b2 / 64), if n < 3 then PAD else Alphabet(b2 % 64)]
  }

  function Encoding(s: seq<byte>): seq<byte> {
    if |s| == 0 then []
    else if |s| == 1 then Quad(s[0], 0, 0, 1)
    else if |s| == 2 then Quad(s[0], s[1], 0, 2)
    else Quad(s[0], s[1], s[2], 3) + Encoding(s[3..])
  }

  /** The three bytes that four characters stand for. */
  function Triple(c0: byte, c1: byte, c2: byte, c3: byte): (r: seq<byte>)
    ensures |r| == 3
  {
    var x0: int, x1: int, x2: int, x3: int := Ordinal(c0), Ordinal(c1), Ordinal(c2), Ordinal(c3);
    [x0 * 4 + x1 / 16, x1 % 16 * 16 + x2 / 4, x2 % 4 * 64 + x3]
  }

  /** The decoding of the whole groups. */
  function Decoding(t: seq<byte>): seq<byte> {
    if |t| < 4 then [] else Triple(t[0], t[1], t[2], t[3]) + Decoding(t[4..])
  }

  /* ---- the group as a 24-bit number ---- */

  function Number(b0: byte, b1: byte, b2: byte): nat {
    b0 * 65536 + b1 * 256 + b2
  }

  /** The six-bit groups are the base-64 digits of the number the bytes make. */
  lemma {:induction false} QuadIsRadix64(b0: byte, b1: byte, b2: byte)
    ensures var v := Number(b0, b1, b2);
            Quad(b0, b1, b2, 3) ==
            [Alphabet(v / 262144 % 64), Alphabet(v / 4096 % 64), Alphabet(v / 64 % 64), Alphabet(v % 64)]
  {
    Radix64(b0 / 4, b0 % 4 * 16 + b1 / 16, b1 % 16 * 4 + b2 / 64, b2 % 64, Number(b0, b1, b2));
  }

  lemma {:induction false} Radix64(d0: sextet, d1: sextet, d2: sextet, d3: sextet, v: nat)
    requires v == d0 * 262144 + d1 * 4096 + d2 * 64 + d3
    ensures v / 262144 % 64 == d0 && v / 4096 % 64 == d1 && v / 64 % 64 == d2 && v % 64 == d3
  {
    assert v / 64 == d0 * 4096 + d1 * 64 + d2;
    assert v / 4096 == d0 * 64 + d1;
    assert v / 262144 == d0;
  }

  lemma {:induction false} OrdinalOf(c: byte, x: sextet)
    requires c == Alphabet(x)
    ensures Ordinal(c) == x
  {
  }

  /** Four characters give back the bytes they were made from; where the padding
      stands, the byte was zero. */
  lemma {:induction false} TripleInverts(b0: byte, b1: byte, b2: byte, n: nat)
    requires (n < 2 ==> b1 == 0) && (n < 3 ==> b2 == 0)
    ensures var q := Quad(b0, b1, b2, n); Triple(q[0], q[1], q[2], q[3]) == [b0, b1, b2]
  {
    var q := Quad(b0, b1, b2, n);
    OrdinalOf(q[0], b0 / 4);
    OrdinalOf(q[1], b0 % 4 * 16 + b1 / 16);
    if n >= 2 { OrdinalOf(q[2], b1 % 16 * 4 + b2 / 64); }
    if n >= 3 { OrdinalOf(q[3], b2 % 64); }
    DigitsMeet(b0, b1, b2);
  }

  lemma {:induction false} DigitsMeet(b0: byte, b1: byte, b2: byte)
    ensures b0 / 4 * 4 + (b0 % 4 * 16 + b1 / 16) / 16 == b0
    ensures (b0 % 4 * 16 + b1 / 16) % 16 * 16 + (b1 % 16 * 4 + b2 / 64) / 4 == b1
    ensures (b1 % 16 * 4 + b2 / 64) % 4 * 64 + b2 % 64 == b2
  {
  }

  /* ---- the round trip ---- */

  predicate NulFree(s: seq<byte>) { forall k :: 0 <= k < |s| ==> s[k] != 0 }

  /** How many zero bytes fill up the last group. */
  function Fill(s: seq<byte>): seq<byte> {
    if |s| % 3 == 0 then [] else if |s| % 3 == 1 then [0, 0] else [0]
  }

  lemma {:induction false} EncodingLength(s: seq<byte>)
    ensures |Encoding(s)| == (|s| + 2) / 3 * 4
    decreases |s|
  {
    if |s| >= 3 {
      EncodingLength(s[3..]);
    }
  }

  lemma {:induction false} ShortDecodes(s: seq<byte>)
    requires |s| < 3
    ensures Decoding(Encoding(s)) == s + Fill(s)
  {
    if |s| == 2 {
      LastGroup(s[0], s[1], 2);
      assert s + [0] == [s[0], s[1], 0];
    } else if |s| == 1 {
      LastGroup(s[0], 0, 1);
      assert s + [0, 0] == [s[0], 0, 0];
    }
  }

  lemma {:induction false} LastGroup(b0: byte, b1: byte, n: nat)
    requires n < 3 && (n < 2 ==> b1 == 0)
    ensures Decoding(Quad(b0, b1, 0, n)) == [b0, b1, 0]
  {
    DecodeGroup(b0, b1, 0, n, []);
    assert Quad(b0, b1, 0, n) + [] == Quad(b0, b1, 0, n);
    assert Decoding([]) == [];
  }

  lemma {:induction false} LongDecodes(s: seq<byte>, rest: seq<byte>, back: seq<byte>)
    requires |s| >= 3 && Decoding(rest) == back
    ensures Decoding(Quad(s[0], s[1], s[2], 3) + rest) == [s[0], s[1], s[2]] + back
  {
    DecodeGroup(s[0], s[1], s[2], 3, rest);
  }

  lemma {:induction false} DecodeEncode(s: seq<byte>)
    ensures Decoding(Encoding(s)) == s + Fill(s)
    decreases |s|
  {
    if |s| < 3 {
      ShortDecodes(s);
    } else {
      DecodeEncode(s[3..]);
      LongDecodes(s, Encoding(s[3..]), s[3..] + Fill(s[3..]));
      FillSlides(s);
    }
  }

  lemma {:induction false} FillSlides(s: seq<byte>)
    requires |s| >= 3
    ensures s + Fill(s) == [s[0], s[1], s[2]] + (s[3..] + Fill(s[3..]))
  {
    assert s == [s[0], s[1], s[2]] + s[3..];
  }

  lemma {:induction false} DecodeGroup(b0: byte, b1: byte, b2: byte, n: nat, rest: seq<byte>)
    requires (n < 2 ==> b1 == 0) && (n < 3 ==> b2 == 0)
    ensures Decoding(Quad(b0, b1, b2, n) + rest) == [b0, b1, b2] + Decoding(rest)
  {
    TripleInverts(b0, b1, b2, n);
    DecodeFirst(Quad(b0, b1, b2, n), rest);
  }

  lemma {:induction false} DecodeFirst(q: seq<byte>, rest: seq<byte>)
    requires |q| == 4
    ensures Decoding(q + rest) == Triple(q[0], q[1], q[2], q[3]) + Decoding(rest)
  {
    assert (q + rest)[4..] == rest;
  }

  /** The C string at the start of a buffer. */
  function CString(buf: seq<byte>): seq<byte> {
    if buf == [] || buf[0] == 0 then [] else [buf[0]] + CString(buf[1..])
  }

  lemma {:induction false} CStringOf(s: seq<byte>, tail: seq<byte>)
    requires NulFree(s) && tail != [] && tail[0] == 0
    ensures CString(s + tail) == s
    decreases |s|
  {
    if s == [] {
      assert s + tail == tail;
    } else {
      assert (s + tail)[1..] == s[1..] + tail;
      CStringOf(s[1..], tail);
    }
  }

  /** Decoding an encoded string gives the string with zero bytes up to a multiple
      of three, which is the same C string; the encoding has four characters for
      every three bytes or part of them. */
  lemma {:induction false} RoundTrip(s: seq<byte>)
    requires NulFree(s)
    ensures |Encoding(s)| == (|s| + 2) / 3 * 4
    ensures Decoding(Encoding(s)) == s + Fill(s)
    ensures CString(Decoding(Encoding(s)) + [0]) == s
  {
    EncodingLength(s);
    DecodeEncode(s);
    assert s + Fill(s) + [0] == s + (Fill(s) + [0]);
    CStringOf(s, Fill(s) + [0]);
  }

  /** An encoding is itself a C string of whole groups, which the decoder accepts. */
  lemma {:induction false} EncodingDecodable(s: seq<byte>)
    ensures NulFree(Encoding(s)) && |Encoding(s)| % 4 == 0 && (s != [] ==> Encoding(s) != [])
    decreases |s|
  {
    EncodingLength(s);
    if |s| >= 3 {
      EncodingDecodable(s[3..]);
      QuadNulFree(s[0], s[1], s[2], 3);
      hide Quad;
      assert NulFree(Quad(s[0], s[1], s[2], 3) + Encoding(s[3..]));
    } else if |s| == 2 {
      QuadNulFree(s[0], s[1], 0, 2);
    } else if |s| == 1 {
      QuadNulFree(s[0], 0, 0, 1);
    }
  }

  lemma {:induction false} QuadNulFree(b0: byte, b1: byte, b2: byte, n: nat)
    ensures NulFree(Quad(b0, b1, b2, n))
  {
  }

  /* ---- the bit operations of the source ---- */

  lemma {:induction false} OrParts(x0: sextet, x1: sextet, x2: sextet, x3: sextet)
    ensures BitOr(x0 * 4, x1 / 16) == x0 * 4 + x1 / 16
    ensures BitOr(x1 % 16 * 16, x2 / 4) == x1 % 16 * 16 + x2 / 4
    ensures BitOr(x2 % 4 * 64, x3) == x2 % 4 * 64 + x3
  {
    Pow2Values();
    OrIsSum(x0, x1 / 16, 2);
    OrIsSum(x1 % 16, x2 / 4, 4);
    OrIsSum(x2 % 4, x3, 6);
  }

  /** The three bytes of a group, or-ed together from table entries. */
  method Join(x0: sextet, x1: sextet, x2: sextet, x3: sextet) returns (b0: byte, b1: byte, b2: byte)
    ensures b0 == x0 * 4 + x1 / 16 && b1 == x1 % 16 * 16 + x2 / 4 && b2 == x2 % 4 * 64 + x3
  {
    OrParts(x0, x1, x2, x3);
    var g0, g1, g2 := BitOr(0, x0 * 4), BitOr(0, x1 % 16 * 16), BitOr(0, x2 % 4 * 64);
    b0 := BitOr(g0, x1 / 16);
    b1 := BitOr(g1, x2 / 4);
    b2 := BitOr(g2, x3);
  }

  /* ---- the loops ---- */

  predicate TablesRight(table: array<byte>, rtable: array<byte>)
    reads table, rtable
  {
    && table.Length == 256 && rtable.Length == 256
    && (forall x :: 0 <= x < 64 ==> table[x] == Alphabet(x))
    && (forall c :: 0 <= c < 256 ==> rtable[c] == Ordinal(c))
  }

  /** One ASSIGN. */
  method Assign(table: array<byte>, rtable: array<byte>, x: byte, y: byte)
    requires table.Length == 256 && rtable.Length == 256 && table != rtable
    modifies table, rtable
    ensures table[..] == old(table[..])[x := y]
    ensures rtable[..] == old(rtable[..])[y := x]
  {
    table[x] := y;
    rtable[y] := x;
  }

  /** What the reverse table holds once the first `n` letters and `m` digits have
      been entered. */
  function Partial(c: byte, n: nat, m: nat): byte {
    if 65 <= c < 91 && c < 65 + n then c - 65
    else if 97 <= c < 123 && c < 97 + n then c - 97 + 26
    else if 48 <= c < 58 && c < 48 + m then c - 48 + 52
    else 0
  }

  method InitTables() returns (table: array<byte>, rtable: array<byte>)
    ensures TablesRight(table, rtable)
  {
    table := new byte[256](_ => 0);
    rtable := new byte[256](_ => 0);
    for i := 0 to 26
      invariant fresh(table) && fresh(rtable)
      invariant forall x :: 0 <= x < i ==> table[x] == Alphabet(x)
      invariant forall x :: 26 <= x < 26 + i ==> table[x] == Alphabet(x)
      invariant forall c :: 0 <= c < 256 ==> rtable[c] == Partial(c, i, 0)
    {
      Assign(table, rtable, i, 65 + i);
      Assign(table, rtable, i + 26, 97 + i);
    }
    for i := 0 to 10
      invariant fresh(table) && fresh(rtable)
      invariant forall x :: 0 <= x < 52 + i ==> table[x] == Alphabet(x)
      invariant forall c :: 0 <= c < 256 ==> rtable[c] == Partial(c, 26, i)
    {
      Assign(table, rtable, i + 52, 48 + i);
    }
    Assign(table, rtable, 62, 43);
    Assign(table, rtable, 63, 47);
    rtable[61] := 0;
  }

  /** The four extractors: shifts and masks, as quotients and remainders. */
  function Byte0(b0: byte): sextet { b0 / 4 }

  function Byte1(b0: byte, b1: byte): sextet { b0 % 4 * 16 + b1 / 16 }

  function Byte2(b1: byte, b2: byte): sextet { b1 % 16 * 4 + b2 / 64 }

  function Byte3(b2: byte): sextet { b2 % 64 }

  /** The four characters of one group. */
  method GroupChars(table: array<byte>, rtable: array<byte>, b: seq<byte>, n: nat) returns (q: seq<byte>)
    requires TablesRight(table, rtable) && |b| == 3 && 0 < n <= 3
    ensures q == Quad(b[0], b[1], b[2], n)
  {
    q := [table[Byte0(b[0])], table[Byte1(b[0], b[1])],
          if n < 2 then PAD else table[Byte2(b[1], b[2])], if n < 3 then PAD else table[Byte3(b[2])]];
  }

  function At(s: seq<byte>, i: nat): byte {
    if i < |s| then s[i] else 0
  }

  /** The inner loop of the encoder: up to three bytes, the rest zero. */
  method ReadGroup(src: seq<byte>, start: nat) returns (b: seq<byte>, n: nat, done: bool)
    requires NulFree(src) && start <= |src|
    ensures n == if start + 3 <= |src| then 3 else |src| - start
    ensures b == [At(src, start), At(src, start + 1), At(src, start + 2)]
    ensures done == (n < 3)
  {
    b, n, done := [0, 0, 0], 0, false;
    while n < 3 && !done
      invariant n <= 3 && start + n <= |src| && |b| == 3
      invariant forall k :: 0 <= k < 3 ==> b[k] == if k < n then src[start + k] else 0
      invariant done ==> n < 3 && start + n == |src|
      decreases 3 - n, !done
    {
      if At(src, start + n) == 0 {
        done := true;
      } else {
        b := b[n := src[start + n]];
        n := n + 1;
      }
    }
  }

  lemma {:induction false} EncodingStep(src: seq<byte>, start: nat, n: nat)
    requires start <= |src| && n == (if start + 3 <= |src| then 3 else |src| - start) && n > 0
    ensures Encoding(src[start..]) ==
            Quad(At(src, start), At(src, start + 1), At(src, start + 2), n) + Encoding(src[start + n..])
  {
    if n == 3 {
      assert src[start..][3..] == src[start + 3..];
    }
  }

  /** `base64_encode`. */
  method Encode(table: array<byte>, rtable: array<byte>, src: seq<byte>) returns (dst: array<byte>)
    requires TablesRight(table, rtable) && NulFree(src)
    ensures dst.Length == (|src| + 2) / 3 * 4 + 1
    ensures dst[..] == Encoding(src) + [0]
  {
    dst := new byte[(|src| + 2) / 3 * 4 + 1];
    EncodingLength(src);
    var i, p, done := 0, 0, false;
    assert src[0..] == src;
    while !done
      invariant 0 <= i <= |src| && 0 <= p < dst.Length && (done ==> i == |src|)
      invariant TablesRight(table, rtable)
      invariant dst[..p] + Encoding(src[i..]) == Encoding(src)
      decreases |src| - i, !done
    {
      var b, n, last := ReadGroup(src, i);
      done := last;
      if n > 0 {
        var q := GroupChars(table, rtable, b, n);
        EncodingStep(src, i, n);
        PutGroup(dst, p, q, Encoding(src[i + n..]), Encoding(src));
        p, i := p + 4, i + n;
      }
    }
    dst[p] := 0;
  }

  /** Four stores, within the allocation as long as the whole output is. */
  method PutGroup(dst: array<byte>, p: nat, q: seq<byte>, ghost rest: seq<byte>, ghost all: seq<byte>)
    requires |q| == 4 && p < dst.Length && dst[..p] + (q + rest) == all && |all| + 1 == dst.Length
    modifies dst
    ensures p + 4 < dst.Length && dst[..p + 4] + rest == all
  {
    assert |all| == p + 4 + |rest|;
    dst[p], dst[p + 1], dst[p + 2], dst[p + 3] := q[0], q[1], q[2], q[3];
    assert dst[..p + 4] == old(dst[..p]) + q;
  }

  lemma {:induction false} DecodingLength(t: seq<byte>)
    ensures |Decoding(t)| == |t| / 4 * 3
    decreases |t|
  {
    if |t| >= 4 {
      DecodingLength(t[4..]);
      assert |Decoding(t)| == 3 + |Decoding(t[4..])|;
      hide Decoding;
      assert (|t| - 4) / 4 == |t| / 4 - 1;
    }
  }

  method GroupBytes(table: array<byte>, rtable: array<byte>, c0: byte, c1: byte, c2: byte, c3: byte)
    returns (g: seq<byte>)
    requires TablesRight(table, rtable)
    ensures g == Triple(c0, c1, c2, c3)
  {
    var b0, b1, b2 := Join(rtable[c0], rtable[c1], rtable[c2], rtable[c3]);
    g := [b0, b1, b2];
  }

  lemma {:induction false} DecodingStep(src: seq<byte>, q: nat, g: seq<byte>)
    requires q + 4 <= |src| && g == Triple(src[q], src[q + 1], src[q + 2], src[q + 3])
    ensures Decoding(src[q..]) == g + Decoding(src[q + 4..])
  {
    assert src[q..][4..] == src[q + 4..];
  }

  /** The three bytes of one group. */
  method PutTriple(dst: array<byte>, p: nat, g: seq<byte>, ghost rest: seq<byte>, ghost all: seq<byte>)
    requires |g| == 3 && p + 3 <= dst.Length && dst[..p] + (g + rest) == all
    modifies dst
    ensures dst[..p + 3] + rest == all
  {
    dst[p], dst[p + 1], dst[p + 2] := g[0], g[1], g[2];
    assert dst[..p + 3] == old(dst[..p]) + g;
  }

  /** The loop of `base64_decode` on an allocation for `groups` groups. */
  method DecodeGroups(table: array<byte>, rtable: array<byte>, src: seq<byte>, dst: array<byte>, ghost groups: nat)
    returns (p: nat, inside: bool)
    requires TablesRight(table, rtable) && NulFree(src) && |src| % 4 == 0
    requires dst != table && dst != rtable && dst.Length == 3 * groups + 1 && 4 * groups <= |src|
    modifies dst
    ensures inside <==> 4 * groups == |src|
    ensures inside ==> p + 1 == dst.Length && dst[..p] == Decoding(src)
  {
    hide TablesRight, Decoding;
    var q := 0;
    p := 0;
    ghost var done := 0;
    assert src[0..] == src;
    while At(src, q) != 0
      invariant done <= groups && q == 4 * done && p == 3 * done
      invariant TablesRight(table, rtable)
      invariant dst[..p] + Decoding(src[q..]) == Decoding(src)
      decreases |src| - q
    {
      var g := GroupBytes(table, rtable, src[q], src[q + 1], src[q + 2], src[q + 3]);
      DecodingStep(src, q, g);
      if p + 3 > dst.Length {
        return p, false;
      }
      PutTriple(dst, p, g, Decoding(src[q + 4..]), Decoding(src));
      p, q, done := p + 3, q + 4, done + 1;
    }
    NothingLeft(src, q);
    inside := true;
  }

  lemma NothingLeft(src: seq<byte>, q: nat)
    requires NulFree(src) && q <= |src| && At(src, q) == 0
    ensures q == |src| && Decoding(src[q..]) == []
  {
  }

  /** `base64_decode`. The length is converted to `int`, and a negative one asks for
      more memory than there is. The text fills the allocation exactly for whole
      groups of less than 2^31 characters; beyond that a length that wraps to a
      smaller one makes the stores leave the allocation. */
  method Decode(table: array<byte>, rtable: array<byte>, src: seq<byte>) returns (r: Result)
    requires TablesRight(table, rtable) && NulFree(src)
    ensures r.Decoded? <==> src != [] && |src| % 4 == 0 && |src| < TWO31
    ensures r.Decoded? ==> r.text[..] == Decoding(src) + [0]
    ensures r.Overrun? <==> |src| % 4 == 0 && |src| >= TWO31 && ToI32(|src|) >= 0
    ensures r.Overrun? ==> r.size == ToI32(|src|) / 4 * 3 + 1 < |Decoding(src)| + 1
  {
    hide Decoding;
    if src == [] {
      return Refused;
    }
    var sz := ToI32(|src|);
    WrapKeepsGroups(|src|);
    if sz % 4 != 0 || sz < 0 {
      return Refused;
    }
    var dst := new byte[sz / 4 * 3 + 1];
    assert TablesRight(table, rtable);
    var p, inside := DecodeGroups(table, rtable, src, dst, sz / 4);
    DecodingLength(src);
    if !inside {
      return Overrun(dst.Length);
    }
    dst[p] := 0;
    assert dst[..] == dst[..p] + [0];
    r := Decoded(dst);
  }

  lemma {:induction false} WrapKeepsGroups(n: nat)
    ensures ToI32(n) % 4 == n % 4
    ensures ToI32(n) == n <==> n < TWO31
  {
    var k, r := n / 0x1_0000_0000, ToI32(n);
    assert n == 0x1_0000_0000 * k + n % 0x1_0000_0000;
    hide ToI32;
    var b := 0x4000_0000 * k + if r < 0 then 0x4000_0000 else 0;
    assert n == r + 4 * b;
    ModFour(r, b);
  }

  lemma ModFour(a: int, b: int)
    ensures (a + 4 * b) % 4 == a % 4
  {
  }

  /** Lengths at which the two failures happen: 2^31 characters are refused, and
      for 2^32 + 4 of them four bytes are allocated. */
  lemma FailingLengths(src: seq<byte>)
    ensures ToI32(TWO31) == -TWO31
    ensures |src| == TWO32 + 4 ==> ToI32(|src|) / 4 * 3 + 1 == 4 && |Decoding(src)| == 0xC000_0003
  {
    DecodingLength(src);
  }

  /** Both directions in a row, on fresh tables: a string comes back exactly when
      its encoding is shorter than 2^31 characters. */
  method EncodeThenDecode(src: seq<byte>) returns (back: seq<byte>, ok: bool)
    requires NulFree(src) && src != []
    ensures ok <==> (|src| + 2) / 3 * 4 < TWO31
    ensures ok ==> back == src
  {
    var table, rtable := InitTables();
    var text := Encode(table, rtable, src);
    EncodingDecodable(src);
    RoundTrip(src);
    assert text[..text.Length - 1] == Encoding(src);
    var r := Decode(table, rtable, text[..text.Length - 1]);
    ok := r.Decoded?;
    back := if ok then CString(r.text[..]) else [];
  }
}
