/** The UTF-8 codec of trivial/name_codec.c. Bytes and code points are unsigned
    numbers, on which shifts are divisions and multiplications by powers of two. */
module Utf8 {
  import opened Bits

  datatype Decoded = Bad | Good(size: nat, value: nat)

  /* ---- section 3 of RFC 3629: the octet sequences ---- */

  function Octets(x: nat): (r: seq<byte>)
    requires x < 0x20_0000
    ensures 1 <= |r| <= 4
  {
    if x < 0x80 then [x]
    else if x < 0x800 then [192 + x / 64, 128 + x % 64]
    else if x < 0x1_0000 then [224 + x / 4096, 128 + x / 64 % 64, 128 + x % 64]
    else [240 + x / 262144, 128 + x / 4096 % 64, 128 + x / 64 % 64, 128 + x % 64]
  }

  /* ---- decoding ---- */

  /** How many bytes follow a lead byte, or 4 for a byte that leads nothing. */
  function Following(b: byte): nat {
    if b / 128 == 0 then 0
    else if b / 32 == 0x6 then 1
    else if b / 16 == 0xe then 2
    else if b / 8 == 0x1e then 3
    else 4
  }

  function LeadBits(b: byte): nat {
    match Following(b)
    case 0 => b
    case 1 => b % 32
    case 2 => b % 16
    case _ => b % 8
  }

  /** The value of the lead bits u and c continuation bytes from position p. */
  function Continued(data: seq<byte>, p: nat, c: nat, u: nat): Decoded
    requires p + c <= |data|
    decreases c
  {
    if c == 0 then Good(0, u)
    else if data[p] / 64 != 0x2 then Bad
    else
      match Continued(data, p + 1, c - 1, u * 64 + data[p] % 64)
      case Bad => Bad
      case Good(size, value) => Good(size + 1, value)
  }

  function DecodeAt(data: seq<byte>, p: nat): Decoded
    requires p < |data|
  {
    var c := Following(data[p]);
    if c == 4 || p + c >= |data| then Bad
    else
      match Continued(data, p + 1, c, LeadBits(data[p]))
      case Bad => Bad
      case Good(size, value) => Good(size + 1, value)
  }

  /* ---- one code point ---- */

  lemma {:induction false} ContinuedOne(data: seq<byte>, p: nat, u: nat, d: nat)
    requires p + 1 <= |data| && d < 64 && data[p] == 128 + d
    ensures Continued(data, p, 1, u) == Good(1, u * 64 + d)
  {
    assert Continued(data, p + 1, 0, u * 64 + d) == Good(0, u * 64 + d);
  }

  lemma {:induction false} ContinuedTwo(data: seq<byte>, p: nat, u: nat, d1: nat, d2: nat)
    requires p + 2 <= |data| && d1 < 64 && d2 < 64 && data[p] == 128 + d1 && data[p + 1] == 128 + d2
    ensures Continued(data, p, 2, u) == Good(2, (u * 64 + d1) * 64 + d2)
  {
    ContinuedOne(data, p + 1, u * 64 + d1, d2);
  }

  lemma {:induction false} ContinuedThree(data: seq<byte>, p: nat, u: nat, d1: nat, d2: nat, d3: nat)
    requires p + 3 <= |data| && d1 < 64 && d2 < 64 && d3 < 64
    requires data[p] == 128 + d1 && data[p + 1] == 128 + d2 && data[p + 2] == 128 + d3
    ensures Continued(data, p, 3, u) == Good(3, ((u * 64 + d1) * 64 + d2) * 64 + d3)
  {
    ContinuedTwo(data, p + 1, u * 64 + d1, d2, d3);
  }

  lemma {:induction false} Leads(h: nat)
    ensures h < 32 ==> Following(192 + h) == 1 && LeadBits(192 + h) == h
    ensures h < 16 ==> Following(224 + h) == 2 && LeadBits(224 + h) == h
    ensures h < 8 ==> Following(240 + h) == 3 && LeadBits(240 + h) == h
  {
  }

  lemma {:induction false} Digits(x: nat)
    ensures x / 64 * 64 + x % 64 == x
    ensures (x / 4096 * 64 + x / 64 % 64) * 64 + x % 64 == x
    ensures ((x / 262144 * 64 + x / 4096 % 64) * 64 + x / 64 % 64) * 64 + x % 64 == x
  {
    var y := x / 64;
    assert x / 4096 == y / 64 && x / 262144 == y / 64 / 64;
    assert y / 64 * 64 + y % 64 == y;
  }

  /** The octets of x stand at position p. */
  predicate StandsAt(data: seq<byte>, p: nat, x: nat)
    requires x < 0x20_0000
  {
    var o := Octets(x);
    p + |o| <= |data| && forall k :: 0 <= k < |o| ==> data[p + k] == o[k]
  }

  lemma {:induction false} DecodesTwo(data: seq<byte>, p: nat, x: nat)
    requires 0x80 <= x < 0x800 && StandsAt(data, p, x)
    ensures DecodeAt(data, p) == Good(2, x)
  {
    var o := Octets(x);
    assert data[p + 0] == o[0] && data[p + 1] == o[1];
    Leads(x / 64);
    ContinuedOne(data, p + 1, x / 64, x % 64);
    Digits(x);
  }

  lemma {:induction false} DecodesThree(data: seq<byte>, p: nat, x: nat)
    requires 0x800 <= x < 0x1_0000 && StandsAt(data, p, x)
    ensures DecodeAt(data, p) == Good(3, x)
  {
    var o := Octets(x);
    assert data[p + 0] == o[0] && data[p + 1] == o[1] && data[p + 2] == o[2];
    Leads(x / 4096);
    ContinuedTwo(data, p + 1, x / 4096, x / 64 % 64, x % 64);
    Digits(x);
  }

  lemma {:induction false} DecodesFour(data: seq<byte>, p: nat, x: nat)
    requires 0x1_0000 <= x < 0x20_0000 && StandsAt(data, p, x)
    ensures DecodeAt(data, p) == Good(4, x)
  {
    var o := Octets(x);
    assert data[p + 0] == o[0] && data[p + 1] == o[1] && data[p + 2] == o[2] && data[p + 3] == o[3];
    Leads(x / 262144);
    ContinuedThree(data, p + 1, x / 262144, x / 4096 % 64, x / 64 % 64, x % 64);
    Digits(x);
  }

  /** An encoded code point, anywhere in the data, decodes to itself with its size. */
  lemma {:induction false} DecodesBack(data: seq<byte>, p: nat, x: nat)
    requires x < 0x20_0000 && StandsAt(data, p, x)
    ensures DecodeAt(data, p) == Good(|Octets(x)|, x)
  {
    if x < 0x80 {
      assert data[p + 0] == Octets(x)[0];
    } else if x < 0x800 {
      DecodesTwo(data, p, x);
    } else if x < 0x1_0000 {
      DecodesThree(data, p, x);
    } else {
      DecodesFour(data, p, x);
    }
  }

  /* ---- shortest forms ---- */

  /** Octets that begin a longer form than their code point needs. */
  predicate Overlong(data: seq<byte>, p: nat)
    requires p < |data|
  {
    || data[p] == 0xC0 || data[p] == 0xC1
    || (data[p] == 0xE0 && p + 1 < |data| && data[p + 1] < 0xA0)
    || (data[p] == 0xF0 && p + 1 < |data| && data[p + 1] < 0x90)
  }

  /** What a run of continuation bytes that was accepted looks like. */
  lemma {:induction false} ContinuedParts(data: seq<byte>, p: nat, u: nat)
    ensures p + 1 <= |data| && Continued(data, p, 1, u).Good? ==>
              data[p] / 64 == 2 && Continued(data, p, 1, u) == Good(1, u * 64 + data[p] % 64)
    ensures p + 2 <= |data| && Continued(data, p, 2, u).Good? ==>
              data[p] / 64 == 2 && data[p + 1] / 64 == 2 &&
              Continued(data, p, 2, u) == Good(2, (u * 64 + data[p] % 64) * 64 + data[p + 1] % 64)
  {
    if p + 1 <= |data| {
      assert Continued(data, p + 1, 0, u * 64 + data[p] % 64) == Good(0, u * 64 + data[p] % 64);
    }
    if p + 2 <= |data| {
      var v := (u * 64 + data[p] % 64) * 64 + data[p + 1] % 64;
      assert Continued(data, p + 2, 0, v) == Good(0, v);
    }
  }

  lemma {:induction false} ContinuedThreeParts(data: seq<byte>, p: nat, u: nat)
    requires p + 3 <= |data| && Continued(data, p, 3, u).Good?
    ensures data[p] / 64 == 2 && data[p + 1] / 64 == 2 && data[p + 2] / 64 == 2
    ensures Continued(data, p, 3, u) ==
            Good(3, ((u * 64 + data[p] % 64) * 64 + data[p + 1] % 64) * 64 + data[p + 2] % 64)
  {
    ContinuedParts(data, p + 1, u * 64 + data[p] % 64);
  }

  lemma {:induction false} ReencodesTwo(data: seq<byte>, p: nat)
    requires p < |data| && Following(data[p]) == 1 && DecodeAt(data, p).Good?
    ensures DecodeAt(data, p).size == 2 && DecodeAt(data, p).value < 0x800
    ensures StandsAt(data, p, DecodeAt(data, p).value) <==> !Overlong(data, p)
  {
    var h: nat, d: nat := data[p] % 32, data[p + 1] % 64;
    ContinuedParts(data, p + 1, h);
    var v := h * 64 + d;
    assert DecodeAt(data, p) == Good(2, v);
    hide Continued, DecodeAt, Following, LeadBits;
    TwoDigits(h, d);
    assert data[p] == 192 + h && data[p + 1] == 128 + d;
    if v < 0x80 { assert Octets(v)[0] != data[p + 0]; }
  }

  lemma {:induction false} ReencodesThree(data: seq<byte>, p: nat)
    requires p < |data| && Following(data[p]) == 2 && DecodeAt(data, p).Good?
    ensures DecodeAt(data, p).size == 3 && DecodeAt(data, p).value < 0x1_0000
    ensures StandsAt(data, p, DecodeAt(data, p).value) <==> !Overlong(data, p)
  {
    var h: nat, d1: nat, d2: nat := data[p] % 16, data[p + 1] % 64, data[p + 2] % 64;
    ContinuedParts(data, p + 1, h);
    var v := (h * 64 + d1) * 64 + d2;
    assert DecodeAt(data, p) == Good(3, v);
    hide Continued, DecodeAt, Following, LeadBits;
    ThreeDigits(h, d1, d2);
    assert data[p] == 224 + h && data[p + 1] == 128 + d1 && data[p + 2] == 128 + d2;
    if v < 0x800 { assert Octets(v)[0] != data[p + 0]; }
  }

  lemma {:induction false} ReencodesFour(data: seq<byte>, p: nat)
    requires p < |data| && Following(data[p]) == 3 && DecodeAt(data, p).Good?
    ensures DecodeAt(data, p).size == 4 && DecodeAt(data, p).value < 0x20_0000
    ensures StandsAt(data, p, DecodeAt(data, p).value) <==> !Overlong(data, p)
  {
    var h: nat, d1: nat, d2: nat, d3: nat := data[p] % 8, data[p + 1] % 64, data[p + 2] % 64, data[p + 3] % 64;
    ContinuedThreeParts(data, p + 1, h);
    var v := ((h * 64 + d1) * 64 + d2) * 64 + d3;
    assert DecodeAt(data, p) == Good(4, v);
    hide Continued, DecodeAt, Following, LeadBits;
    FourDigits(h, d1, d2, d3);
    assert data[p] == 240 + h && data[p + 1] == 128 + d1 && data[p + 2] == 128 + d2 && data[p + 3] == 128 + d3;
    if v < 0x1_0000 { assert Octets(v)[0] != data[p + 0]; }
  }

  lemma {:induction false} TwoDigits(h: nat, d: nat)
    requires d < 64
    ensures (h * 64 + d) / 64 == h && (h * 64 + d) % 64 == d
  {
  }

  lemma {:induction false} ThreeDigits(h: nat, d1: nat, d2: nat)
    requires d1 < 64 && d2 < 64
    ensures var v := (h * 64 + d1) * 64 + d2;
            v / 4096 == h && v / 64 == h * 64 + d1 && v / 64 % 64 == d1 && v % 64 == d2
  {
    TwoDigits(h * 64 + d1, d2);
    TwoDigits(h, d1);
    var v := (h * 64 + d1) * 64 + d2;
    assert v == h * 4096 + (d1 * 64 + d2);
  }

  lemma {:induction false} FourDigits(h: nat, d1: nat, d2: nat, d3: nat)
    requires d1 < 64 && d2 < 64 && d3 < 64
    ensures var v := ((h * 64 + d1) * 64 + d2) * 64 + d3;
            v / 262144 == h && v / 4096 % 64 == d1 && v / 64 % 64 == d2 && v % 64 == d3
  {
    var u, v := (h * 64 + d1) * 64 + d2, ((h * 64 + d1) * 64 + d2) * 64 + d3;
    ThreeDigits(h, d1, d2);
    ThreeDigits(h * 64 + d1, d2, d3);
    TwoDigits(h, d1);
    assert v == h * 262144 + (d1 * 4096 + d2 * 64 + d3);
  }

  /** Decoding accepts more than encoding produces: what was decoded encodes to
      the same bytes exactly when these do not begin an overlong form. */
  lemma {:induction false} ReencodesExactly(data: seq<byte>, p: nat)
    requires p < |data| && DecodeAt(data, p).Good?
    ensures var o := DecodeAt(data, p);
            && 1 <= o.size <= 4 && o.value < 0x20_0000
            && (StandsAt(data, p, o.value) <==> !Overlong(data, p))
  {
    match Following(data[p])
    case 0 =>
      var v: nat := data[p];
      assert DecodeAt(data, p) == Good(1, v) by { assert Continued(data, p + 1, 0, v) == Good(0, v); }
      assert Octets(v) == [v];
    case 1 => ReencodesTwo(data, p);
    case 2 => ReencodesThree(data, p);
    case _ => ReencodesFour(data, p);
  }

  /** Overlong forms of zero, in two, three and four bytes, are decoded. */
  lemma OverlongDecoded()
    ensures DecodeAt([0xC0, 0x80], 0) == Good(2, 0)
    ensures DecodeAt([0xE0, 0x80, 0x80], 0) == Good(3, 0)
    ensures DecodeAt([0xF0, 0x80, 0x80, 0x80], 0) == Good(4, 0)
  {
    ContinuedOne([0xC0, 0x80], 1, 0, 0);
    ContinuedTwo([0xE0, 0x80, 0x80], 1, 0, 0, 0);
    ContinuedThree([0xF0, 0x80, 0x80, 0x80], 1, 0, 0, 0, 0);
  }

  /* ---- streams ---- */

  function EncodeAll(xs: seq<nat>): seq<byte>
    requires forall k :: 0 <= k < |xs| ==> xs[k] < 0x20_0000
  {
    if xs == [] then [] else Octets(xs[0]) + EncodeAll(xs[1..])
  }

  /** Calling `utf8_stream_next` until it returns -1: the code points and sizes. */
  function ReadAll(data: seq<byte>, p: nat): seq<(nat, nat)>
    requires p <= |data|
    decreases |data| - p
  {
    if p == |data| then []
    else
      match DecodeAt(data, p)
      case Bad => []
      case Good(size, value) =>
        ReencodesExactly(data, p);
        if p + size > |data| then [] else [(value, size)] + ReadAll(data, p + size)
  }

  function Sized(xs: seq<nat>): seq<(nat, nat)>
    requires forall k :: 0 <= k < |xs| ==> xs[k] < 0x20_0000
  {
    if xs == [] then [] else [(xs[0], |Octets(xs[0])|)] + Sized(xs[1..])
  }

  lemma {:induction false} StandsInside(pre: seq<byte>, x: nat, rest: seq<byte>)
    requires x < 0x20_0000
    ensures StandsAt(pre + Octets(x) + rest, |pre|, x)
  {
  }

  lemma {:induction false} ReadNext(data: seq<byte>, p: nat, x: nat, size: nat)
    requires p < |data| && DecodeAt(data, p) == Good(size, x) && 0 < size && p + size <= |data|
    ensures ReadAll(data, p) == [(x, size)] + ReadAll(data, p + size)
  {
  }

  lemma {:induction false} StepReads(pre: seq<byte>, x: nat, rest: seq<byte>)
    requires x < 0x20_0000
    ensures var o := Octets(x);
            ReadAll(pre + (o + rest), |pre|) == [(x, |o|)] + ReadAll(pre + o + rest, |pre + o|)
  {
    var o := Octets(x);
    assert pre + (o + rest) == pre + o + rest;
    StandsInside(pre, x, rest);
    DecodesBack(pre + o + rest, |pre|, x);
    ReadNext(pre + o + rest, |pre|, x, |o|);
  }

  /** The stream over the concatenated encodings returns the code points with
      their sizes, and then ends. */
  lemma {:induction false} StreamRoundTrip(pre: seq<byte>, xs: seq<nat>)
    requires forall k :: 0 <= k < |xs| ==> xs[k] < 0x20_0000
    ensures ReadAll(pre + EncodeAll(xs), |pre|) == Sized(xs)
    decreases |xs|
  {
    if xs != [] {
      StepReads(pre, xs[0], EncodeAll(xs[1..]));
      StreamRoundTrip(pre + Octets(xs[0]), xs[1..]);
    }
  }

  /* ---- the source's own form ---- */

  /** The continuation byte with the i-th six bits of x. */
  function SuffixByte(x: nat, i: nat): byte {
    128 + x / Pow2(6 * i) % 64
  }

  /** The last c continuation bytes of x. */
  function Suffixes(x: nat, c: nat): (r: seq<byte>)
    ensures |r| == c
  {
    if c == 0 then [] else [SuffixByte(x, c - 1)] + Suffixes(x, c - 1)
  }

  function LeadByte(x: nat): byte
    requires x < 0x20_0000
  {
    if x < 0x80 then x
    else if x < 0x800 then 192 + x / 64
    else if x < 0x1_0000 then 224 + x / 4096
    else 240 + x / 262144
  }

  function More(x: nat): nat {
    if x < 0x80 then 0 else if x < 0x800 then 1 else if x < 0x1_0000 then 2 else 3
  }

  lemma {:induction false} SuffixBytes(x: nat)
    ensures SuffixByte(x, 0) == 128 + x % 64
    ensures SuffixByte(x, 1) == 128 + x / 64 % 64
    ensures SuffixByte(x, 2) == 128 + x / 4096 % 64
  {
    Powers();
  }

  lemma {:induction false} OctetsSplit(x: nat)
    requires x < 0x20_0000
    ensures Octets(x) == [LeadByte(x)] + Suffixes(x, More(x))
  {
    SuffixBytes(x);
    assert Suffixes(x, 0) == [];
    assert Suffixes(x, 1) == [SuffixByte(x, 0)] + Suffixes(x, 0);
    assert Suffixes(x, 2) == [SuffixByte(x, 1)] + Suffixes(x, 1);
    assert Suffixes(x, 3) == [SuffixByte(x, 2)] + Suffixes(x, 2);
  }

  /** The lead byte and the number of bytes to follow; no lead byte beyond 21 bits. */
  method Lead(x: nat) returns (more: nat, lead: seq<byte>)
    requires 1 <= x
    ensures x < 0x20_0000 ==> lead == [LeadByte(x)] && more == More(x)
    ensures x >= 0x20_0000 ==> lead == [] && more == 0
  {
    var n := BitLength(x);
    Thresholds(x);
    more, lead := 0, [];
    if n < 8 {
      lead := [x % 256];
    } else if n < 12 {
      LeadOr(x / 64, 32, 5, 6);
      more, lead := 1, [BitOr(x / 64 % 256, 0xc0)];
    } else if n < 17 {
      LeadOr(x / 4096, 16, 4, 14);
      more, lead := 2, [BitOr(x / 4096 % 256, 0xe0)];
    } else if n < 22 {
      LeadOr(x / 262144, 8, 3, 30);
      more, lead := 3, [BitOr(x / 262144 % 256, 0xf0)];
    }
  }

  method Suffix(x: nat, i: nat) returns (b: byte)
    ensures b == SuffixByte(x, i)
  {
    SuffixOr(x / Pow2(6 * i) % 64);
    b := BitOr(x / Pow2(6 * i) % 64, 0x80);
  }

  /** The loop that appends the continuation bytes behind p. */
  method PutSuffixes(buf: array<byte>, p: nat, more: nat, x: nat)
    requires p + more < buf.Length
    modifies buf
    ensures buf[p + 1..p + 1 + more] == Suffixes(x, more)
    ensures forall k :: 0 <= k < buf.Length && !(p < k <= p + more) ==> buf[k] == old(buf[k])
  {
    var q, i := p, more;
    while i > 0
      invariant 0 <= i <= more && q == p + more - i
      invariant buf[p + 1..q + 1] + Suffixes(x, i) == Suffixes(x, more)
      invariant forall k :: 0 <= k < buf.Length && !(p < k <= q) ==> buf[k] == old(buf[k])
    {
      ghost var done := buf[p + 1..q + 1];
      i := i - 1;
      q := q + 1;
      buf[q] := Suffix(x, i);
      assert buf[p + 1..q + 1] == done + [SuffixByte(x, i)];
    }
  }

  /** `utf8_encode` into buf[p..e]. The lead byte is written before the room is
      checked; a number of more than 21 bits writes nothing. */
  method Encode(buf: array<byte>, p: nat, e: nat, x: nat) returns (c: nat)
    requires 1 <= x && p < buf.Length && e <= buf.Length
    modifies buf
    ensures x < 0x20_0000 ==> c == if p + |Octets(x)| <= e then |Octets(x)| else 0
    ensures x < 0x20_0000 && c > 0 ==> buf[p..p + c] == Octets(x)
    ensures x >= 0x20_0000 ==> c == (if p < e then 1 else 0) && buf[..] == old(buf[..])
    ensures forall k :: 0 <= k < buf.Length && !(p <= k < p + c) && k != p ==> buf[k] == old(buf[k])
  {
    if x < 0x20_0000 { OctetsSplit(x); }
    var more, lead := Lead(x);
    if lead != [] {
      buf[p] := lead[0];
    }
    if p + more >= e {
      return 0;
    }
    ghost var head := buf[p];
    PutSuffixes(buf, p, more, x);
    c := more + 1;
    assert buf[p..p + c] == [head] + buf[p + 1..p + 1 + more];
  }

  /** The branches on the bit length are the ranges of the standard. */
  lemma {:induction false} Thresholds(x: nat)
    ensures BitLength(x) < 8 <==> x < 0x80
    ensures BitLength(x) < 12 <==> x < 0x800
    ensures BitLength(x) < 17 <==> x < 0x1_0000
    ensures BitLength(x) < 22 <==> x < 0x20_0000
  {
    BitLengthBelow(x, 7);
    BitLengthBelow(x, 11);
    BitLengthBelow(x, 16);
    BitLengthBelow(x, 21);
    PowerRanges();
  }

  lemma PowerRanges()
    ensures Pow2(7) == 0x80 && Pow2(11) == 0x800 && Pow2(16) == 0x1_0000 && Pow2(21) == 0x20_0000
  {
    Pow2Values();
    assert Pow2(7) == 2 * Pow2(6);
    assert Pow2(9) == 4 * Pow2(7);
    assert Pow2(11) == 4 * Pow2(9);
    assert Pow2(13) == 4 * Pow2(11);
    assert Pow2(15) == 4 * Pow2(13);
    assert Pow2(16) == 2 * Pow2(15);
    assert Pow2(18) == 4 * Pow2(16);
    assert Pow2(20) == 4 * Pow2(18);
    assert Pow2(21) == 2 * Pow2(20);
  }

  lemma Powers()
    ensures Pow2(0) == 1 && Pow2(6) == 64 && Pow2(12) == 4096
  {
    Pow2Values();
    PowerRanges();
    assert Pow2(12) == 2 * Pow2(11);
  }

  /** Or-ing the lead mask on top of fewer bits adds it. */
  lemma {:induction false} LeadOr(h: nat, bound: nat, k: nat, mask: nat)
    requires (bound, k, mask) == (32, 5, 6) || (bound, k, mask) == (16, 4, 14) || (bound, k, mask) == (8, 3, 30)
    requires h < bound
    ensures BitOr(h % 256, mask * bound) == mask * bound + h
  {
    Pow2Values();
    assert Pow2(3) == 2 * Pow2(2) && Pow2(5) == 2 * Pow2(4);
    OrIsSum(mask, h, k);
    OrCommutes(mask * bound, h);
  }

  lemma {:induction false} SuffixOr(d: nat)
    requires d < 64
    ensures BitOr(d, 0x80) == 128 + d
  {
    Pow2Values();
    OrIsSum(2, d, 6);
    OrCommutes(0x80, d);
  }

  /** `utf8_decode` of data[p..]. */
  method Decode(data: seq<byte>, p: nat) returns (c: nat, x: nat)
    requires p < |data|
    ensures c == if DecodeAt(data, p).Good? then DecodeAt(data, p).size else 0
    ensures DecodeAt(data, p).Good? ==> x == DecodeAt(data, p).value
  {
    var more := Following(data[p]);
    x := 0;
    if more == 4 || p + more >= |data| {
      return 0, 0;
    }
    var u := LeadBits(data[p]);
    var q, i := p, 0;
    while i < more
      invariant 0 <= i <= more && q == p + i
      invariant var o := Continued(data, p + 1, more, LeadBits(data[p]));
                var rest := Continued(data, q + 1, more - i, u);
                o == if rest.Good? then Good(rest.size + i, rest.value) else Bad
    {
      q := q + 1;
      if data[q] / 64 != 0x2 {
        return 0, 0;
      }
      AppendSextet(u, data[q] % 64);
      u := BitOr(u * 64, data[q] % 64);
      i := i + 1;
    }
    x := u;
    c := more + 1;
  }

  lemma {:induction false} AppendSextet(u: nat, d: nat)
    requires d < 64
    ensures BitOr(u * 64, d) == u * 64 + d
  {
    Pow2Values();
    OrIsSum(u, d, 6);
  }

  const END: nat := 0xffff_ffff

  class Stream {
    const data: seq<byte>
    var p: nat

    constructor (data: seq<byte>)
      ensures this.data == data && p == 0
    {
      this.data, p := data, 0;
    }

    /** `utf8_stream_next`: the next code point, or -1 at the end or on bytes that
        do not decode, which leave the position alone. */
    method Next() returns (u: nat, size: nat)
      requires p <= |data|
      modifies this
      ensures p <= |data|
      ensures var r := ReadAll(data, old(p));
              if r == [] then u == END && p == old(p)
              else (u, size) == r[0] && p == old(p) + size && ReadAll(data, p) == r[1..]
    {
      size := 0;
      if p < |data| {
        var c, x := Decode(data, p);
        if c != 0 {
          DecodedInside(data, p);
          ReadNext(data, p, x, c);
          assert ([(x, c)] + ReadAll(data, p + c))[1..] == ReadAll(data, p + c);
          p := p + c;
          return x, c;
        }
      }
      u := END;
    }
  }

  /** Decoding never reads past the end. */
  lemma {:induction false} DecodedInside(data: seq<byte>, p: nat)
    requires p < |data| && DecodeAt(data, p).Good?
    ensures p + DecodeAt(data, p).size <= |data|
  {
    ContinuedSize(data, p + 1, Following(data[p]), LeadBits(data[p]));
  }

  lemma {:induction false} ContinuedSize(data: seq<byte>, p: nat, c: nat, u: nat)
    requires p + c <= |data| && Continued(data, p, c, u).Good?
    ensures Continued(data, p, c, u).size == c
    decreases c
  {
    if c > 0 {
      ContinuedSize(data, p + 1, c - 1, u * 64 + data[p] % 64);
    }
  }
}
