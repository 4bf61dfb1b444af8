/** Domain names in DNS messages (socket/dns-demo.c): the two encoders, the
    in-place decoder and the two readers that follow compression pointers,
    against the label lists of sections 3.1 and 4.1.4 of RFC 1035. */
module Dns {
  import opened Bits
  import opened Slices

  type Label = seq<byte>

  const DOT: byte := 46

  /* ---- names as label lists ---- */

  /** Where the first dot at or behind i stands; |s| if there is none. */
  function DotFrom(s: seq<byte>, i: nat): (k: nat)
    requires i <= |s|
    ensures i <= k <= |s|
    ensures forall j :: i <= j < k ==> s[j] != DOT
    ensures k < |s| ==> s[k] == DOT
    decreases |s| - i
  {
    if i == |s| || s[i] == DOT then i else DotFrom(s, i + 1)
  }

  function FirstDot(s: seq<byte>): nat {
    DotFrom(s, 0)
  }

  /** The labels of a dotted host name: one more than it has dots. */
  function Split(s: seq<byte>): (ls: seq<Label>)
    ensures ls != []
    decreases |s|
  {
    var k := FirstDot(s);
    if k == |s| then [s] else [s[..k]] + Split(s[k + 1..])
  }

  /** Every label with a dot before it. */
  function Tail(ls: seq<Label>): seq<byte> {
    if ls == [] then [] else [DOT] + ls[0] + Tail(ls[1..])
  }

  /** The labels joined by dots. */
  function Dotted(ls: seq<Label>): seq<byte>
    requires ls != []
  {
    ls[0] + Tail(ls[1..])
  }

  /** The octets of an uncompressed name: a length octet before each label, a
      zero octet at the end. A length octet holds the length modulo 256. */
  function Wire(ls: seq<Label>): (w: seq<byte>)
    ensures w != []
  {
    if ls == [] then [0] else [|ls[0]| % 256] + ls[0] + Wire(ls[1..])
  }

  predicate DotFree(ls: seq<Label>) {
    forall i :: 0 <= i < |ls| ==> DOT !in ls[i]
  }

  lemma {:induction false} FirstDotIs(s: seq<byte>, k: nat)
    requires k <= |s| && (forall j :: 0 <= j < k ==> s[j] != DOT)
    requires k < |s| ==> s[k] == DOT
    ensures FirstDot(s) == k
  {
  }

  lemma {:induction false} DottedCons(l: Label, ls: seq<Label>)
    ensures ls == [] ==> Dotted([l] + ls) == l
    ensures ls != [] ==> Dotted([l] + ls) == l + ([DOT] + Dotted(ls))
  {
    assert ([l] + ls)[1..] == ls;
  }

  /** Splitting loses nothing: joining the labels gives the name back. */
  lemma {:induction false} SplitJoins(s: seq<byte>)
    ensures Dotted(Split(s)) == s
    decreases |s|
  {
    var k := FirstDot(s);
    if k < |s| {
      SplitJoins(s[k + 1..]);
      DottedCons(s[..k], Split(s[k + 1..]));
      assert s == s[..k] + ([DOT] + s[k + 1..]);
    } else {
      DottedCons(s, []);
      assert [s] + [] == [s];
    }
  }

  lemma {:induction false} SplitDotFree(s: seq<byte>)
    ensures DotFree(Split(s))
    decreases |s|
  {
    var k := FirstDot(s);
    if k < |s| {
      SplitDotFree(s[k + 1..]);
    }
  }

  lemma {:induction false} SplitCons(l: Label, rest: seq<byte>)
    requires DOT !in l
    ensures Split(l) == [l]
    ensures Split(l + ([DOT] + rest)) == [l] + Split(rest)
  {
    var s := l + ([DOT] + rest);
    FirstDotIs(l, |l|);
    FirstDotIs(s, |l|);
    assert s[..|l|] == l && s[|l| + 1..] == rest;
  }

  /** Every list of dot-free labels is found again by splitting what it joins to. */
  lemma {:induction false} JoinSplits(ls: seq<Label>)
    requires ls != [] && DotFree(ls)
    ensures Split(Dotted(ls)) == ls
    decreases |ls|
  {
    var l, rest := ls[0], ls[1..];
    assert ls == [l] + rest;
    DottedCons(l, rest);
    if rest == [] {
      SplitCons(l, []);
    } else {
      JoinSplits(rest);
      SplitCons(l, Dotted(rest));
    }
  }

  /** One step of encoding the rest s of a host name. */
  lemma {:induction false} WireSplit(s: seq<byte>)
    ensures var k := FirstDot(s);
            Wire(Split(s)) == [k % 256] + s[..k] + (if k == |s| then [0] else Wire(Split(s[k + 1..])))
    decreases |s|
  {
    var k := FirstDot(s);
    if k < |s| {
      assert Split(s)[1..] == Split(s[k + 1..]);
    } else {
      assert s[..k] == s;
      assert Split(s)[1..] == [];
    }
  }

  lemma {:induction false} WireLength(s: seq<byte>)
    ensures |Wire(Split(s))| == |s| + 2
    decreases |s|
  {
    WireSplit(s);
    var k := FirstDot(s);
    if k < |s| {
      WireLength(s[k + 1..]);
    }
  }

  /* ---- encoding ---- */

  /** `strchr(q, '.')` inside the string that ends at e. */
  method FindDot(buf: array<byte>, q: nat, e: nat) returns (k: nat)
    requires q <= e < buf.Length
    ensures q <= k <= e && k == q + FirstDot(buf[q..e])
  {
    k := q;
    while k < e && buf[k] != DOT
      invariant q <= k <= e
      invariant forall j :: q <= j < k ==> buf[j] != DOT
    {
      k := k + 1;
    }
    FirstDotIs(buf[q..e], k - q);
  }

  /** The buffer a of `name_encode` when the length octet at q is to be written:
      src stands one place to the right from there on. */
  ghost predicate Pending(a: seq<byte>, src: seq<byte>, q: nat) {
    && q <= |src| && |src| + 2 <= |a|
    && a[q + 1..|src| + 1] == src[q..] && a[|src| + 1] == 0
    && a[..q] + Wire(Split(src[q..])) == Wire(Split(src))
  }

  /** The octets of the label at p stand behind those before it, and the rest of
      src still stands one place to the right. */
  lemma {:induction false} LabelPlaced(a: seq<byte>, src: seq<byte>, p: nat, k: nat, rest: seq<byte>)
    requires p + k <= |src| && |src| + 2 <= |a| && a[p + 1..|src| + 1] == src[p..]
    ensures var b := a[p := k % 256];
            && b[..p + 1 + k] + rest == a[..p] + ([k % 256] + src[p..][..k] + rest)
            && (p + k < |src| ==> b[p + k + 2..|src| + 1] == src[p + k + 1..])
  {
    var b := a[p := k % 256];
    assert b[p + 1..p + 1 + k] == a[p + 1..|src| + 1][..k];
    assert b[..p + 1 + k] == a[..p] + ([k % 256] + src[p..][..k]);
    if p + k < |src| {
      assert b[p + k + 2..|src| + 1] == a[p + 1..|src| + 1][k + 1..];
    }
  }

  lemma {:induction false} LabelEncoded(a: seq<byte>, src: seq<byte>, p: nat, k: nat)
    requires Pending(a, src, p) && k == FirstDot(src[p..])
    ensures p + k < |src| ==> Pending(a[p := k % 256], src, p + 1 + k)
    ensures p + k == |src| ==> a[p := k % 256][..|src| + 2] == Wire(Split(src))
  {
    var b := a[p := k % 256];
    WireSplit(src[p..]);
    if p + k < |src| {
      assert src[p..][k + 1..] == src[p + k + 1..];
      LabelPlaced(a, src, p, k, Wire(Split(src[p + k + 1..])));
    } else {
      LabelPlaced(a, src, p, k, [0]);
      assert b[..|src| + 2] == b[..|src| + 1] + [0];
    }
  }

  /** `memcpy(dst + 1, src, N + 1)`. */
  method CopyBehind(dst: array<byte>, src: seq<byte>)
    requires |src| + 2 <= dst.Length
    modifies dst
    ensures dst[1..|src| + 1] == src && dst[|src| + 1] == 0
    ensures dst[|src| + 2..] == old(dst[|src| + 2..])
  {
    forall k | 0 <= k <= |src| {
      dst[k + 1] := if k < |src| then src[k] else 0;
    }
  }

  /** One pass of the loop of `name_encode`: the octet at p gets the distance to
      the next dot, or to the end. */
  method EncodeLabel(dst: array<byte>, src: seq<byte>, p: nat) returns (q: nat, more: bool)
    requires Pending(dst[..], src, p)
    modifies dst
    ensures p < q && more == (q <= |src|)
    ensures more ==> Pending(dst[..], src, q)
    ensures !more ==> dst[..][..|src| + 2] == Wire(Split(src))
    ensures forall k :: 0 <= k < dst.Length && k != p ==> dst[k] == old(dst[k])
  {
    hide Split, Wire, FirstDot;
    var n := |src|;
    ghost var a := dst[..];
    assert dst[p + 1..n + 1] == a[p + 1..n + 1];
    q := FindDot(dst, p + 1, n + 1);
    LabelEncoded(a, src, p, q - p - 1);
    more := q <= n;
    var length := if more then q - p - 1 else n - p;
    dst[p] := length % 256;
    assert dst[..] == a[p := length % 256];
  }

  /** `name_encode`: copy behind the first octet, then overwrite the dots with
      the length octets. */
  method NameEncode(dst: array<byte>, src: seq<byte>)
    requires |src| + 2 <= dst.Length
    modifies dst
    ensures dst[..|src| + 2] == Wire(Split(src))
    ensures dst[|src| + 2..] == old(dst[|src| + 2..])
  {
    var n := |src|;
    CopyBehind(dst, src);
    assert src[0..] == src && dst[..][..0] == [];
    var q := 0;
    var more := true;
    while more
      invariant if more then Pending(dst[..], src, q) else dst[..][..n + 2] == Wire(Split(src))
      invariant dst[n + 2..] == old(dst[n + 2..])
      decreases if more then n + 1 - q else 0
    {
      q, more := EncodeLabel(dst, src, q);
    }
  }

  /** What is done of h when its labels before lock are written; beyond the end
      of h only the zero octet is missing. */
  ghost predicate Written(done: seq<byte>, h: seq<byte>, lock: nat) {
    if lock <= |h| then done + Wire(Split(h[lock..])) == Wire(Split(h))
    else done + [0] == Wire(Split(h))
  }

  lemma {:induction false} LabelWritten(h: seq<byte>, lock: nat, k: nat, done: seq<byte>)
    requires lock <= |h| && k == FirstDot(h[lock..]) && Written(done, h, lock)
    ensures Written(done + ([k % 256] + h[lock..][..k]), h, lock + k + 1)
  {
    WireSplit(h[lock..]);
    var head := [k % 256] + h[lock..][..k];
    if lock + k < |h| {
      assert h[lock..][k + 1..] == h[lock + k + 1..];
      Regroup(done, head, Wire(Split(h[lock + k + 1..])));
    } else {
      Regroup(done, head, [0]);
    }
  }

  lemma Regroup(a: seq<byte>, b: seq<byte>, c: seq<byte>)
    ensures a + (b + c) == (a + b) + c
  {
  }

  /** The inner part of `ChangetoDnsNameFormat`: the length octet and the label
      host[lock..i] go to dns[d..]. */
  method WriteLabel(dns: array<byte>, d: nat, host: array<byte>, lock: nat, i: nat)
    requires dns != host && lock <= i <= host.Length && d + 1 + (i - lock) <= dns.Length
    modifies dns
    ensures dns[..d + 1 + (i - lock)] == old(dns[..d]) + ([(i - lock) % 256] + host[lock..i])
    ensures forall k :: d + 1 + (i - lock) <= k < dns.Length ==> dns[k] == old(dns[k])
  {
    dns[d] := (i - lock) % 256;
    var e, l := d + 1, lock;
    while l < i
      invariant lock <= l <= i && e == d + 1 + (l - lock)
      invariant dns[..e] == old(dns[..d]) + ([(i - lock) % 256] + host[lock..l])
      invariant forall k :: e <= k < dns.Length ==> dns[k] == old(dns[k])
    {
      dns[e] := host[l];
      assert host[lock..l + 1] == host[lock..l] + [host[l]];
      assert dns[..e + 1] == dns[..e] + [host[l]];
      e, l := e + 1, l + 1;
    }
  }

  lemma {:induction false} LabelEnds(h: seq<byte>, lock: nat, i: nat)
    requires lock <= i <= |h| && (forall j :: lock <= j < i ==> h[j] != DOT)
    requires i < |h| ==> h[i] == DOT
    ensures FirstDot(h[lock..]) == i - lock
  {
    forall j | 0 <= j < i - lock
      ensures h[lock..][j] != DOT
    {
      assert h[lock..][j] == h[lock + j];
    }
    FirstDotIs(h[lock..], i - lock);
  }

  /** host holds the name h and the dot behind it. */
  ghost predicate Holds(host: array<byte>, h: seq<byte>)
    reads host
  {
    |h| < host.Length && host[|h|] == DOT && forall k :: 0 <= k < |h| ==> host[k] == h[k]
  }

  /** The pass of the loop that meets a dot at i. As many octets are written as
      host was read. */
  method CloseLabel(dns: array<byte>, host: array<byte>, lock: nat, i: nat, ghost h: seq<byte>)
    requires dns != host && Holds(host, h) && lock <= i <= |h| && i < dns.Length
    requires FirstDot(h[lock..]) == i - lock
    requires Written(dns[..lock], h, lock)
    modifies dns
    ensures Written(dns[..i + 1], h, i + 1)
    ensures forall k :: i + 1 <= k < dns.Length ==> dns[k] == old(dns[k])
  {
    hide Split, Wire, FirstDot;
    assert host[lock..i] == h[lock..][..i - lock];
    LabelWritten(h, lock, i - lock, dns[..lock]);
    WriteLabel(dns, lock, host, lock, i);
  }

  /** The loop of `ChangetoDnsNameFormat` over the n + 1 octets of host. */
  method ConvertLabels(dns: array<byte>, host: array<byte>, n: nat, ghost h: seq<byte>)
    requires dns != host && Holds(host, h) && |h| == n && n < dns.Length
    modifies dns
    ensures Written(dns[..n + 1], h, n + 1)
    ensures forall k :: n + 1 <= k < dns.Length ==> dns[k] == old(dns[k])
  {
    hide Split, Wire;
    var lock, i := 0, 0;
    assert h[0..] == h;
    while i < n + 1
      invariant lock <= i <= n + 1 && (i == n + 1 ==> lock == i)
      invariant forall j :: lock <= j < i && j < n ==> h[j] != DOT
      invariant Written(dns[..lock], h, lock)
      invariant forall k :: n + 1 <= k < dns.Length ==> dns[k] == old(dns[k])
    {
      if host[i] == DOT {
        LabelEnds(h, lock, i);
        CloseLabel(dns, host, lock, i, h);
        lock := i + 1;
      }
      i := i + 1;
    }
  }

  /** `ChangetoDnsNameFormat` of the string host[..n]: a dot is appended to host,
      and every dot makes a label of what stands before it. */
  method ChangeToDnsNameFormat(dns: array<byte>, host: array<byte>, n: nat)
    requires dns != host && n + 2 <= host.Length && n + 2 <= dns.Length
    modifies dns, host
    ensures dns[..n + 2] == Wire(Split(old(host[..n])))
    ensures host[..n + 2] == old(host[..n]) + [DOT, 0]
    ensures forall k :: n + 2 <= k < dns.Length ==> dns[k] == old(dns[k])
  {
    ghost var h := host[..n];
    host[n], host[n + 1] := DOT, 0;
    ConvertLabels(dns, host, n, h);
    dns[n + 1] := 0;
    assert dns[..n + 2] == dns[..n + 1] + [0];
  }

  /* ---- decoding ---- */

  /** Labels that `name_decode` can walk over: not empty, without a zero octet and
      with a length whose successor is still an octet. */
  predicate Decodable(ls: seq<Label>) {
    forall i :: 0 <= i < |ls| ==> 1 <= |ls[i]| <= 254 && 0 !in ls[i]
  }

  /** Only the last octet of a wire form is zero, so the wire form is a C string. */
  lemma {:induction false} WireIsString(ls: seq<Label>)
    requires Decodable(ls)
    ensures var w := Wire(ls);
            w[|w| - 1] == 0 && forall k :: 0 <= k < |w| - 1 ==> w[k] != 0
  {
    if ls != [] {
      WireIsString(ls[1..]);
      var w, r, o := Wire(ls), Wire(ls[1..]), 1 + |ls[0]|;
      forall k | 0 <= k < |w| - 1
        ensures w[k] != 0
      {
        if 1 <= k < o {
          assert w[k] == ls[0][k - 1];
        } else if o <= k {
          assert w[k] == r[k - o];
        }
      }
    }
  }

  method Strlen(s: array<byte>, ghost e: nat) returns (n: nat)
    requires e < s.Length && s[e] == 0 && forall k :: 0 <= k < e ==> s[k] != 0
    ensures n == e
  {
    n := 0;
    while s[n] != 0
      invariant n <= e
      decreases e - n
    {
      n := n + 1;
    }
  }

  lemma WireHead(ls: seq<Label>)
    requires Decodable(ls)
    ensures Wire(ls)[0] == 0 <==> ls == []
    ensures ls != [] ==> Wire(ls)[0] == |ls[0]|
  {
  }

  /** A decoder whose p + n is at offset o of a: the labels before o are joined
      by dots, the others are still in wire form. */
  ghost predicate Decoding(a: seq<byte>, ls: seq<Label>, o: nat, rest: seq<Label>) {
    && ls != [] && Decodable(rest) && 1 <= o < |Wire(ls)| <= |a|
    && a[o..|Wire(ls)|] == Wire(rest)
    && a[1..o] + Tail(rest) == Dotted(ls)
  }

  lemma {:induction false} DecodingStarts(a: seq<byte>, ls: seq<Label>)
    requires ls != [] && Decodable(ls)
    requires |Wire(ls)| <= |a| && a[..|Wire(ls)|] == Wire(ls)
    ensures Decoding(a, ls, 1 + |ls[0]|, ls[1..])
  {
    var w, o := Wire(ls), 1 + |ls[0]|;
    assert a[1..o] == w[1..o] == ls[0];
    assert a[o..|w|] == w[o..] == Wire(ls[1..]);
  }

  lemma {:induction false} DecodingStep(a: seq<byte>, ls: seq<Label>, o: nat, rest: seq<Label>)
    requires Decoding(a, ls, o, rest) && rest != []
    ensures a[o] == |rest[0]| <= 254
    ensures Decoding(a[o := DOT], ls, o + 1 + |rest[0]|, rest[1..])
  {
    var b, e, o' := a[o := DOT], |Wire(ls)|, o + 1 + |rest[0]|;
    var w, n := Wire(rest), |rest[0]|;
    assert a[o..e][0] == a[o];
    SliceOfSlice(a, o, e, 1, 1 + n);
    assert w[1..1 + n] == rest[0] && w[1 + n..] == Wire(rest[1..]);
    SliceOfSlice(a, o, e, 1 + n, |w|);
    assert a[o'..e] == b[o'..e];
    assert b[1..o'] == a[1..o] + ([DOT] + rest[0]);
  }

  lemma {:induction false} DecodingEnds(a: seq<byte>, ls: seq<Label>, o: nat)
    requires Decoding(a, ls, o, [])
    ensures o == |Wire(ls)| - 1 && a[o] == 0
    ensures a[1..o + 1] == Dotted(ls) + [0]
  {
    assert a[o..|Wire(ls)|][0] == a[o];
    assert a[1..o + 1] == a[1..o] + [0];
  }

  /** How the loop of `name_decode` ends on a string a with its terminator: with
      the string it made, with a read behind the terminator, or never, once the
      eight-bit step has wrapped to zero. */
  datatype Walk = Done(octets: seq<byte>) | Outside | Stuck

  /** The loop from p with the step n. */
  function WalkFrom(a: seq<byte>, p: nat, n: nat): Walk
    requires n >= 1
    decreases |a| - p
  {
    if p + n >= |a| then Outside
    else
      var b, p', n' := a[p + n := DOT], p + n, (a[p + n] as int + 1) % 256;
      if n' == 0 then Stuck
      else if p' + n' >= |a| then Outside
      else if b[p' + n'] == 0 then Done(b)
      else WalkFrom(b, p', n')
  }

  lemma WalkPass(a: seq<byte>, p: nat, n: nat)
    requires n >= 1 && p + n < |a| && a[p + n] <= 254 && p + n + 1 + a[p + n] < |a|
    ensures var b, p', n' := a[p + n := DOT], p + n, 1 + a[p + n];
            WalkFrom(a, p, n) == if b[p' + n'] == 0 then Done(b) else WalkFrom(b, p', n')
  {
  }

  lemma {:induction false} WalkDecodes(a: seq<byte>, ls: seq<Label>, p: nat, n: nat, rest: seq<Label>)
    requires Decoding(a, ls, p + n, rest) && rest != [] && n >= 1 && |a| == |Wire(ls)|
    ensures WalkFrom(a, p, n).Done?
    ensures var b := WalkFrom(a, p, n).octets;
            |b| == |a| && b[0] == a[0] && Decoding(b, ls, |a| - 1, [])
    decreases |rest|
  {
    hide Wire, Tail, Dotted, Decodable, WalkFrom;
    DecodingStep(a, ls, p + n, rest);
    var b, p', n', tail := a[p + n := DOT], p + n, 1 + |rest[0]|, rest[1..];
    WalkTest(b, ls, p' + n', tail);
    WalkPass(a, p, n);
    if tail == [] {
      DecodingEnds(b, ls, p' + n');
    } else {
      WalkDecodes(b, ls, p', n', tail);
    }
  }

  /** The test of the loop is false exactly when no label is left. */
  lemma {:induction false} WalkTest(a: seq<byte>, ls: seq<Label>, o: nat, rest: seq<Label>)
    requires Decoding(a, ls, o, rest)
    ensures a[o] == 0 <==> rest == []
  {
    WireHead(rest);
    assert a[o] == a[o..|Wire(ls)|][0];
  }

  /** The loop stays inside the string if and only if there are two labels or more;
      the only label of a shorter name is followed by a read behind it. */
  lemma {:induction false} WalkExactly(ls: seq<Label>)
    requires ls != [] && Decodable(ls)
    ensures WalkFrom(Wire(ls), 0, 1 + |ls[0]|) ==
            if |ls| >= 2 then Done([|ls[0]|] + (Dotted(ls) + [0])) else Outside
  {
    hide Wire, Tail, Dotted, Decodable, WalkFrom;
    var w, n := Wire(ls), 1 + |ls[0]|;
    DecodingStarts(w, ls);
    WireHead(ls);
    if |ls| >= 2 {
      WalkDecodes(w, ls, 0, n, ls[1..]);
      var b := WalkFrom(w, 0, n).octets;
      DecodingEnds(b, ls, |w| - 1);
      assert b == [b[0]] + b[1..|w|];
    } else {
      DecodingEnds(w, ls, n);
      WalkLeaves(w, n);
    }
  }

  lemma WalkLeaves(a: seq<byte>, n: nat)
    requires n >= 1 && |a| == n + 1 && a[n] == 0
    ensures WalkFrom(a, 0, n) == Outside
  {
  }

  /** The loop of `name_decode` from the first length octet on: p walks from
      length octet to length octet and overwrites the next one with a dot. */
  method JoinLabels(dst: array<byte>, ghost ls: seq<Label>)
    requires |ls| >= 2 && Decodable(ls)
    requires |Wire(ls)| <= dst.Length && dst[..|Wire(ls)|] == Wire(ls)
    modifies dst
    ensures Decoding(dst[..], ls, |Wire(ls)| - 1, [])
    ensures forall k :: |Wire(ls)| <= k < dst.Length ==> dst[k] == old(dst[k])
  {
    var p: nat := 0;
    ghost var rest, e := ls[1..], |Wire(ls)|;
    DecodingStarts(dst[..], ls);
    WireHead(ls);
    assert dst[0] == dst[..e][0];
    var n: byte := (dst[0] + 1) % 256;
    var more := true;
    while more
      invariant Decoding(dst[..], ls, p + n, rest)
      invariant more <==> rest != []
      invariant forall k :: e <= k < dst.Length ==> dst[k] == old(dst[k])
      decreases |rest|
    {
      DecodingStep(dst[..], ls, p + n, rest);
      p, n, more := JoinNext(dst, p, n, ls, rest);
      rest := rest[1..];
    }
    DecodingEnds(dst[..], ls, p + n);
  }

  /** One pass of the loop of `name_decode`. */
  method JoinNext(dst: array<byte>, p: nat, n: byte, ghost ls: seq<Label>, ghost rest: seq<Label>)
    returns (p': nat, n': byte, more: bool)
    requires Decoding(dst[..], ls, p + n, rest) && rest != []
    modifies dst
    ensures Decoding(dst[..], ls, p' + n', rest[1..])
    ensures more <==> rest[1..] != []
    ensures forall k :: |Wire(ls)| <= k < dst.Length ==> dst[k] == old(dst[k])
  {
    hide Wire, Tail, Dotted, Decodable;
    ghost var a := dst[..];
    DecodingStep(a, ls, p + n, rest);
    var m := dst[p + n];
    dst[p + n] := DOT;
    assert dst[..] == a[p + n := DOT];
    p' := p + n;
    n' := (m + 1) % 256;
    WalkTest(dst[..], ls, p' + n', rest[1..]);
    more := dst[p' + n'] != 0;
  }

  /** The copy that `name_decode` makes unless it works in place. */
  method CopyIn(dst: array<byte>, src: array<byte>, n: nat)
    requires n <= dst.Length && n <= src.Length
    modifies dst
    ensures dst[..n] == old(src[..n])
    ensures forall k :: n <= k < dst.Length ==> dst[k] == old(dst[k])
  {
    if dst != src {
      forall k | 0 <= k < n {
        dst[k] := src[k];
      }
    }
  }

  /** `name_decode`, also in place (dst == src): the wire form of two labels or
      more becomes the dotted name, a zero octet behind it. */
  method NameDecode(dst: array<byte>, src: array<byte>, ghost ls: seq<Label>)
    requires |ls| >= 2 && Decodable(ls)
    requires |Wire(ls)| <= src.Length && |Wire(ls)| <= dst.Length
    requires src[..|Wire(ls)|] == Wire(ls)
    modifies dst
    ensures dst[..|Wire(ls)| - 1] == Dotted(ls) + [0]
    ensures forall k :: |Wire(ls)| <= k < dst.Length ==> dst[k] == old(dst[k])
  {
    hide Tail, Dotted, Wire, Decodable;
    ghost var e := |Wire(ls)|;
    WireIsString(ls);
    assert forall k :: 0 <= k < e ==> src[k] == src[..e][k];
    var n := Strlen(src, e - 1);
    CopyIn(dst, src, n + 1);
    JoinLabels(dst, ls);
    DecodingEnds(dst[..], ls, n);
    MoveDown(dst, n);
  }

  /** `memmove(dst, dst + 1, n)`. */
  method MoveDown(dst: array<byte>, n: nat)
    requires n < dst.Length
    modifies dst
    ensures dst[..n] == old(dst[..][1..n + 1])
    ensures forall k :: n <= k < dst.Length ==> dst[k] == old(dst[k])
  {
    forall k | 0 <= k < n {
      dst[k] := dst[k + 1];
    }
  }

  /** What `name_encode` writes, `name_decode` turns back into the host name. */
  method EncodeThenDecode(dst: array<byte>, host: seq<byte>)
    requires |host| + 2 <= dst.Length
    requires |Split(host)| >= 2 && Decodable(Split(host))
    modifies dst
    ensures dst[..|host| + 1] == host + [0]
  {
    NameEncode(dst, host);
    SplitJoins(host);
    WireLength(host);
    NameDecode(dst, dst, Split(host));
  }
}
