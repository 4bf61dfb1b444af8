/** The message codec of socket/monitor/message.h and message.cpp: the packer, the
    unpacking cursor, the three two-way messages, and frames on a stream. An
    `int` travels as four bytes, least significant first; a `double` as the eight
    bytes of its representation. */
module Message {
  import opened Bits
  import opened Slices


  type Bytes = seq<byte>

  type Double = b: Bytes | |b| == 8 witness [0, 0, 0, 0, 0, 0, 0, 0]

  datatype Request = Request(op: i32, arg: i32)

  datatype Response = Response(r1: Bytes, r2: Bytes)

  datatype Frame = Frame(kind: i32, payload: Bytes)

  /** What unpacking does: a value and the cursor behind it, a refusal or an
      exception on a negative length with the cursor where it stopped, or the
      overflow of the `int` by which the cursor moves, which C++ leaves undefined. */
  datatype Outcome<+T> = Ok(value: T, next: nat) | Fail(next: nat) | Throw(next: nat) | Overflow

  /* ---- numbers ---- */

  /** The low n bytes of u, least significant first. */
  function LittleEndian(u: nat, n: nat): (b: Bytes)
    ensures |b| == n
  {
    if n == 0 then [] else [u % 256] + LittleEndian(u / 256, n - 1)
  }

  function Value(b: Bytes): nat {
    if b == [] then 0 else
      var low: int := b[0];
      low + 256 * Value(b[1..])
  }

  lemma {:induction false} Pow2Byte(k: nat)
    ensures Pow2(k + 8) == 256 * Pow2(k)
  {
    assert Pow2(k + 1) == 2 * Pow2(k);
    assert Pow2(k + 2) == 2 * Pow2(k + 1);
    assert Pow2(k + 3) == 2 * Pow2(k + 2);
    assert Pow2(k + 4) == 2 * Pow2(k + 3);
    assert Pow2(k + 5) == 2 * Pow2(k + 4);
    assert Pow2(k + 6) == 2 * Pow2(k + 5);
    assert Pow2(k + 7) == 2 * Pow2(k + 6);
  }

  lemma Pow2Word()
    ensures Pow2(32) == TWO32
  {
    Pow2Byte(0);
    Pow2Byte(8);
    Pow2Byte(16);
    Pow2Byte(24);
    hide Pow2;
  }

  lemma {:induction false} ValueInverts(u: nat, n: nat)
    requires u < Pow2(8 * n)
    ensures Value(LittleEndian(u, n)) == u
    decreases n
  {
    if n > 0 {
      Pow2Byte(8 * (n - 1));
      ValueInverts(u / 256, n - 1);
      assert LittleEndian(u, n)[1..] == LittleEndian(u / 256, n - 1);
    }
  }

  function PackInt(v: i32): (b: Bytes)
    ensures |b| == 4
  {
    LittleEndian(if v < 0 then v + TWO32 else v, 4)
  }

  function IntAt(b: Bytes): i32
    requires |b| == 4
  {
    var u := Value(b) % TWO32;
    if u < TWO31 then u else u - TWO32
  }

  lemma IntRoundTrip(v: i32)
    ensures IntAt(PackInt(v)) == v
  {
    hide LittleEndian, Value;
    Pow2Word();
    ValueInverts(if v < 0 then v + TWO32 else v, 4);
  }

  /* ---- packing ---- */

  function PackString(s: Bytes): Bytes {
    if s == [] then PackInt(0) else PackInt(ToI32(|s|)) + s + [0]
  }

  function PackVector(s: Bytes): Bytes {
    if s == [] then PackInt(0) else PackInt(ToI32(|s|)) + s
  }

  function PackRequest(m: Request): Bytes { PackInt(m.op) + PackInt(m.arg) }

  function PackResponse(m: Response): Bytes { PackString(m.r1) + PackVector(m.r2) }

  /* ---- unpacking at a cursor ---- */

  function TakeBytes(data: Bytes, at: nat, n: nat): Outcome<Bytes>
    requires at <= |data|
  {
    if at + n > |data| then Fail(at) else Ok(data[at..at + n], at + n)
  }

  function TakeInt(data: Bytes, at: nat): Outcome<i32>
    requires at <= |data|
  {
    if at + 4 > |data| then Fail(at) else Ok(IntAt(data[at..at + 4]), at + 4)
  }

  /** Unpacking a string or a vector into `target`; `tail` is 1 for the terminator of
      a string and 0 for a vector. A length of zero leaves `target` as it was. */
  function TakeSized(data: Bytes, at: nat, target: Bytes, tail: nat): (o: Outcome<Bytes>)
    requires at <= |data| && tail <= 1
    ensures o.Ok? || o.Throw? ==> at + 4 <= o.next <= |data|
    ensures o.Fail? ==> at <= o.next <= |data|
  {
    match TakeInt(data, at)
    case Fail(next) => Fail(next)
    case Throw(next) => Throw(next)
    case Overflow => Overflow
    case Ok(l, next) =>
      if l == 0 then Ok(target, next)
      else if l < 0 then Throw(next)
      else if next + l + tail > |data| then Fail(next)
      else if l + tail >= TWO31 then Overflow
      else Ok(data[next..next + l], next + l + tail)
  }

  function TakeRequest(data: Bytes, at: nat): Outcome<Request>
    requires at <= |data|
  {
    match TakeInt(data, at)
    case Fail(next) => Fail(next)
    case Throw(next) => Throw(next)
    case Overflow => Overflow
    case Ok(op, next) =>
      match TakeInt(data, next)
      case Fail(q) => Fail(q)
      case Throw(q) => Throw(q)
      case Overflow => Overflow
      case Ok(arg, q) => Ok(Request(op, arg), q)
  }

  function TakeResponse(data: Bytes, at: nat): (o: Outcome<Response>)
    requires at <= |data|
    ensures o.Ok? || o.Throw? ==> o.next <= |data|
  {
    match TakeSized(data, at, [], 1)
    case Fail(next) => Fail(next)
    case Throw(next) => Throw(next)
    case Overflow => Overflow
    case Ok(r1, next) =>
      match TakeSized(data, next, [], 0)
      case Fail(q) => Fail(q)
      case Throw(q) => Throw(q)
      case Overflow => Overflow
      case Ok(r2, q) => Ok(Response(r1, r2), q)
  }

  /* ---- unpacking with a cursor of one's own ---- */

  /** What a cursor of one's own sees: the length of the rest of the data is
      converted to `int`, and a negative one leaves nothing. */
  function OwnData(data: Bytes, at: nat): Bytes
    requires at <= |data|
  {
    var n := ToI32(|data| - at);
    if n < 0 then [] else data[at..at + n]
  }

  /** The outer cursor moves by what the inner one consumed, or stays. */
  function Back<T>(o: Outcome<T>, at: nat): Outcome<T> {
    match o
    case Ok(v, next) => Ok(v, at + next)
    case Fail(_) => Fail(at)
    case Throw(_) => Throw(at)
    case Overflow => Overflow
  }

  function OwnRequest(data: Bytes, at: nat): Outcome<Request>
    requires at <= |data|
  {
    Back(TakeRequest(OwnData(data, at), 0), at)
  }

  function OwnResponse(data: Bytes, at: nat): Outcome<Response>
    requires at <= |data|
  {
    Back(TakeResponse(OwnData(data, at), 0), at)
  }

  function OwnHeartbeat(data: Bytes, at: nat): Outcome<Bytes>
    requires at <= |data|
  {
    Back(TakeBytes(OwnData(data, at), 0, 8), at)
  }

  /** The same answer; where the cursor stays after a refusal does not matter. */
  predicate SameAnswer<T(==)>(a: Outcome<T>, b: Outcome<T>) {
    match a
    case Ok(_, _) => a == b
    case Fail(_) => b.Fail?
    case Throw(_) => b.Throw?
    case Overflow => b.Overflow?
  }

  /* ---- inverses ---- */

  lemma TakeIntInverts(pre: Bytes, v: i32, rest: Bytes)
    ensures TakeInt(pre + PackInt(v) + rest, |pre|) == Ok(v, |pre| + 4)
  {
    assert (pre + PackInt(v) + rest)[|pre|..|pre| + 4] == PackInt(v);
    IntRoundTrip(v);
  }

  /** A string or vector packed anywhere in the data unpacks to itself. */
  lemma SizedInverts(pre: Bytes, s: Bytes, tail: Bytes, rest: Bytes)
    requires 0 < |s| && |s| + |tail| < TWO31 && |tail| <= 1
    ensures TakeSized(pre + (PackInt(ToI32(|s|)) + s + tail) + rest, |pre|, [], |tail|) ==
            Ok(s, |pre| + 4 + |s| + |tail|)
  {
    var l := PackInt(ToI32(|s|));
    var data := pre + (l + s + tail) + rest;
    assert data == pre + l + (s + tail + rest);
    TakeIntInverts(pre, ToI32(|s|), s + tail + rest);
    assert data[|pre| + 4..|pre| + 4 + |s|] == s;
  }

  lemma EmptyInverts(pre: Bytes, rest: Bytes, tail: nat)
    requires tail <= 1
    ensures TakeSized(pre + PackInt(0) + rest, |pre|, [], tail) == Ok([], |pre| + 4)
  {
    TakeIntInverts(pre, 0, rest);
  }

  lemma StringInverts(pre: Bytes, s: Bytes, rest: Bytes)
    requires |s| + 1 < TWO31
    ensures TakeSized(pre + PackString(s) + rest, |pre|, [], 1) == Ok(s, |pre| + |PackString(s)|)
  {
    if s == [] { EmptyInverts(pre, rest, 1); } else { SizedInverts(pre, s, [0], rest); }
  }

  lemma VectorInverts(pre: Bytes, s: Bytes, rest: Bytes)
    requires |s| < TWO31
    ensures TakeSized(pre + PackVector(s) + rest, |pre|, [], 0) == Ok(s, |pre| + |PackVector(s)|)
  {
    if s == [] {
      EmptyInverts(pre, rest, 0);
    } else {
      assert PackInt(ToI32(|s|)) + s + [] == PackVector(s);
      SizedInverts(pre, s, [], rest);
    }
  }

  /** Unpacking inverts packing for every request, wherever it stands, and
      consumes exactly the packed bytes. */
  lemma RequestInverts(pre: Bytes, m: Request, rest: Bytes)
    ensures TakeRequest(pre + PackRequest(m) + rest, |pre|) == Ok(m, |pre| + |PackRequest(m)|)
  {
    var data := pre + PackRequest(m) + rest;
    assert data == pre + PackInt(m.op) + (PackInt(m.arg) + rest);
    TakeIntInverts(pre, m.op, PackInt(m.arg) + rest);
    assert data == (pre + PackInt(m.op)) + PackInt(m.arg) + rest;
    TakeIntInverts(pre + PackInt(m.op), m.arg, rest);
  }

  /** Lengths that fit an `int`, that of the string with its terminator. */
  predicate Packable(m: Response) { |m.r1| + 1 < TWO31 && |m.r2| < TWO31 }

  lemma ResponseInverts(pre: Bytes, m: Response, rest: Bytes)
    requires Packable(m)
    ensures TakeResponse(pre + PackResponse(m) + rest, |pre|) == Ok(m, |pre| + |PackResponse(m)|)
  {
    hide TakeSized, PackString, PackVector;
    var data := pre + PackResponse(m) + rest;
    assert data == pre + PackString(m.r1) + (PackVector(m.r2) + rest);
    StringInverts(pre, m.r1, PackVector(m.r2) + rest);
    assert data == (pre + PackString(m.r1)) + PackVector(m.r2) + rest;
    VectorInverts(pre + PackString(m.r1), m.r2, rest);
  }

  lemma HeartbeatInverts(pre: Bytes, timestamp: Double, rest: Bytes)
    ensures TakeBytes(pre + timestamp + rest, |pre|, 8) == Ok(timestamp, |pre| + 8)
  {
    assert (pre + timestamp + rest)[|pre|..|pre| + 8] == timestamp;
  }

  /** What becomes of a length v with `rest` behind it, in a message that holds
      `target`: zero keeps what was there, a negative one throws, one that asks for
      more than there is leaves the cursor behind the length. */
  lemma SizedExactly(pre: Bytes, v: i32, rest: Bytes, target: Bytes, tail: nat)
    requires tail <= 1
    ensures var next := |pre| + 4;
            TakeSized(pre + PackInt(v) + rest, |pre|, target, tail) ==
            if v == 0 then Ok(target, next)
            else if v < 0 then Throw(next)
            else if v + tail > |rest| then Fail(next)
            else if v + tail >= TWO31 then Overflow
            else Ok(rest[..v], next + v + tail)
  {
    hide PackInt, IntAt;
    var data, next := pre + PackInt(v) + rest, |pre| + 4;
    TakeIntInverts(pre, v, rest);
    assert data[next..] == rest;
    if 0 < v <= |rest| {
      assert data[next..next + v] == rest[..v];
    }
  }

  /** Data that ends within the length leaves the cursor where it was. */
  lemma CutLengthRefused(pre: Bytes, rest: Bytes, target: Bytes, tail: nat)
    requires tail <= 1 && |rest| < 4
    ensures TakeSized(pre + rest, |pre|, target, tail) == Fail(|pre|)
    ensures TakeInt(pre + rest, |pre|) == Fail(|pre|)
  {
  }

  /** Unpacking a packed string into a message in use gives the string exactly if it
      is not empty or there was none. */
  lemma IntoUsedMessage(pre: Bytes, s: Bytes, rest: Bytes, target: Bytes)
    requires |s| + 1 < TWO31
    ensures TakeSized(pre + PackString(s) + rest, |pre|, target, 1) == Ok(s, |pre| + |PackString(s)|) <==>
            s != [] || target == []
  {
    hide PackInt, IntAt, TakeSized;
    if s == [] {
      SizedExactly(pre, 0, rest, target, 1);
    } else {
      var more := s + [0] + rest;
      assert pre + PackString(s) + rest == pre + PackInt(ToI32(|s|)) + more;
      SizedExactly(pre, ToI32(|s|), more, target, 1);
      assert more[..|s|] == s;
    }
  }

  /** What a successful unpack returns is never longer than an `int` can say. */
  lemma TakenFits(data: Bytes, at: nat, tail: nat)
    requires at <= |data| && tail <= 1 && TakeSized(data, at, [], tail).Ok?
    ensures |TakeSized(data, at, [], tail).value| + tail < TWO31
  {
  }

  /** A response comes back exactly when both lengths fit an `int`, that of the
      string with its terminator. */
  lemma ResponseRoundTripExactly(m: Response)
    ensures TakeResponse(PackResponse(m), 0) == Ok(m, |PackResponse(m)|) <==> Packable(m)
  {
    if Packable(m) {
      ResponseInverts([], m, []);
      assert [] + PackResponse(m) + [] == PackResponse(m);
    } else if TakeResponse(PackResponse(m), 0) == Ok(m, |PackResponse(m)|) {
      var next := TakeSized(PackResponse(m), 0, [], 1).next;
      TakenFits(PackResponse(m), 0, 1);
      TakenFits(PackResponse(m), next, 0);
    }
  }

  /** The longest string whose length fits an `int` overflows the cursor's step. */
  lemma LongestOverflows(pre: Bytes, m: Response, rest: Bytes)
    requires |m.r1| == TWO31 - 1
    ensures TakeResponse(pre + PackResponse(m) + rest, |pre|) == Overflow
  {
    var l, more := PackInt(ToI32(|m.r1|)), m.r1 + [0] + PackVector(m.r2) + rest;
    assert pre + PackResponse(m) + rest == pre + l + more;
    TakeIntInverts(pre, ToI32(|m.r1|), more);
  }

  /* ---- strict prefixes ---- */

  lemma IntTruncated(data: Bytes, at: nat, k: nat)
    requires at <= k <= |data| && TakeInt(data, at).Ok?
    ensures TakeInt(data[..k], at) == if k < at + 4 then Fail(at) else TakeInt(data, at)
  {
    if k >= at + 4 {
      assert data[..k][at..at + 4] == data[at..at + 4];
    }
  }

  lemma SizedTruncated(data: Bytes, at: nat, tail: nat, k: nat)
    requires at <= k <= |data| && tail <= 1 && TakeSized(data, at, [], tail).Ok?
    ensures k < TakeSized(data, at, [], tail).next ==> TakeSized(data[..k], at, [], tail).Fail?
    ensures k >= TakeSized(data, at, [], tail).next ==>
              TakeSized(data[..k], at, [], tail) == TakeSized(data, at, [], tail)
  {
    IntTruncated(data, at, k);
    var next, l := at + 4, TakeInt(data, at).value;
    if k >= next && 0 < l && next + l + tail <= k {
      assert data[..k][next..next + l] == data[next..next + l];
    }
  }

  /** Every strict prefix of a packed request is refused. */
  lemma RequestPrefixRefused(m: Request, k: nat)
    requires k < |PackRequest(m)|
    ensures TakeRequest(PackRequest(m)[..k], 0).Fail?
  {
    RequestInverts([], m, []);
    var data := PackRequest(m);
    assert [] + data + [] == data;
    IntTruncated(data, 0, k);
    if k >= 4 { IntTruncated(data, 4, k); }
  }

  /** A strict prefix of a packed response is never taken for a response. It is
      refused, unless the string overflows the cursor's step and is there whole. */
  lemma ResponsePrefixRefused(m: Response, k: nat)
    requires |m.r1| < TWO31 && |m.r2| < TWO31 && k < |PackResponse(m)|
    ensures TakeResponse(PackResponse(m)[..k], 0).Fail? <==> Packable(m) || k < |PackString(m.r1)|
    ensures !TakeResponse(PackResponse(m)[..k], 0).Ok?
  {
    hide PackInt, IntAt, ToI32, PackString, PackVector, TakeResponse;
    if Packable(m) {
      PrefixRefused(m, k);
    } else if k < |PackString(m.r1)| {
      LongestTruncated(m, k);
    } else {
      LongestWhole(m, k);
    }
  }

  lemma LongestWhole(m: Response, k: nat)
    requires |m.r1| == TWO31 - 1 && |PackString(m.r1)| <= k <= |PackResponse(m)|
    ensures TakeResponse(PackResponse(m)[..k], 0) == Overflow
  {
    hide PackInt, IntAt, ToI32, PackVector;
    var rest := PackVector(m.r2)[..k - |PackString(m.r1)|];
    var l, more := PackInt(ToI32(|m.r1|)), m.r1 + [0] + rest;
    assert PackResponse(m)[..k] == [] + l + more;
    TakeIntInverts([], ToI32(|m.r1|), more);
  }

  lemma PrefixRefused(m: Response, k: nat)
    requires Packable(m) && k < |PackResponse(m)|
    ensures TakeResponse(PackResponse(m)[..k], 0).Fail?
  {
    hide TakeSized, PackString, PackVector;
    ResponseInverts([], m, []);
    var data := PackResponse(m);
    assert [] + data + [] == data;
    SizedTruncated(data, 0, 1, k);
    var next := TakeSized(data, 0, [], 1).next;
    if k >= next { SizedTruncated(data, next, 0, k); }
  }

  lemma LongestTruncated(m: Response, k: nat)
    requires |m.r1| == TWO31 - 1 && k < |PackString(m.r1)|
    ensures TakeResponse(PackResponse(m)[..k], 0).Fail?
  {
    hide PackInt, IntAt, ToI32, PackVector;
    var data := PackResponse(m);
    var l, more := PackInt(ToI32(|m.r1|)), m.r1 + [0] + PackVector(m.r2);
    assert data == [] + l + more;
    TakeIntInverts([], ToI32(|m.r1|), more);
    IntTruncated(data, 0, k);
  }

  lemma HeartbeatPrefixRefused(timestamp: Double, k: nat)
    requires k < 8
    ensures TakeBytes(timestamp[..k], 0, 8).Fail?
  {
  }

  /* ---- when the two forms agree ---- */

  lemma IntWindow(data: Bytes, at: nat, n: nat, i: nat)
    requires i <= n && at + n <= |data|
    ensures i + 4 <= n ==> TakeInt(data[at..at + n], i) == Ok(TakeInt(data, at + i).value, i + 4)
    ensures i + 4 <= n ==> TakeInt(data, at + i) == Ok(TakeInt(data, at + i).value, at + i + 4)
    ensures i + 4 > n ==> TakeInt(data[at..at + n], i) == Fail(i)
  {
    if i + 4 <= n {
      SliceOfSlice(data, at, at + n, i, i + 4);
    }
  }

  /** The two forms of unpacking a request agree exactly when the converted length
      of the rest shows eight bytes if they are there. */
  lemma RequestFormsAgreeExactly(data: Bytes, at: nat)
    requires at <= |data|
    ensures var m := |data| - at;
            SameAnswer(TakeRequest(data, at), OwnRequest(data, at)) <==> m < 8 || ToI32(m) >= 8
  {
    var n := ToI32(|data| - at);
    if n >= 0 {
      IntWindow(data, at, n, 0);
      if n >= 4 { IntWindow(data, at, n, 4); }
    }
  }

  lemma HeartbeatFormsAgreeExactly(data: Bytes, at: nat)
    requires at <= |data|
    ensures var m := |data| - at;
            SameAnswer(TakeBytes(data, at, 8), OwnHeartbeat(data, at)) <==> m < 8 || ToI32(m) >= 8
  {
    var n := ToI32(|data| - at);
    if n >= 8 {
      SliceOfSlice(data, at, at + n, 0, 8);
    }
  }

  /** With 2^31 bytes left the one form takes what the other refuses. */
  lemma FormsDisagree(data: Bytes, at: nat)
    requires at <= |data| && |data| - at == TWO31
    ensures TakeRequest(data, at).Ok? && OwnRequest(data, at) == Fail(at)
    ensures TakeBytes(data, at, 8).Ok? && OwnHeartbeat(data, at) == Fail(at)
    ensures OwnResponse(data, at) == Fail(at)
  {
  }

  /** A string or vector seen through a window of n bytes. */
  lemma SizedWindow(data: Bytes, at: nat, n: nat, i: nat, tail: nat)
    requires i <= n < TWO31 && at + n <= |data| && tail <= 1
    ensures var o := TakeSized(data, at + i, [], tail); var w := TakeSized(data[at..at + n], i, [], tail);
            match o
            case Ok(v, next) => if next <= at + n then w == Ok(v, next - at) else w.Fail?
            case Throw(next) => if next <= at + n then w == Throw(next - at) else w.Fail?
            case Fail(_) => w.Fail?
            case Overflow => w.Fail?
  {
    IntWindow(data, at, n, i);
    if i + 4 <= n {
      var l, next := TakeInt(data, at + i).value, at + i + 4;
      if 0 < l && next + l + tail <= at + n {
        SliceOfSlice(data, at, at + n, next - at, next - at + l);
      }
    }
  }

  /** The two forms of unpacking a response agree exactly when the one at the cursor
      refuses, or stays within the converted length and its step does not overflow. */
  lemma ResponseFormsAgreeExactly(data: Bytes, at: nat)
    requires at <= |data|
    ensures var o := TakeResponse(data, at);
            SameAnswer(o, OwnResponse(data, at)) <==>
            o.Fail? || ((o.Ok? || o.Throw?) && o.next - at <= ToI32(|data| - at))
  {
    hide TakeSized, TakeInt, ToI32;
    var n := ToI32(|data| - at);
    if n < 0 {
      NothingRefused();
    } else {
      SizedWindow(data, at, n, 0, 1);
      var o := TakeSized(data, at, [], 1);
      if o.Ok? && o.next <= at + n {
        SizedWindow(data, at, n, o.next - at, 0);
      }
    }
  }

  lemma NothingRefused()
    ensures TakeResponse([], 0).Fail?
  {
  }

  /** The rest of the data is shorter than 2^31 bytes exactly when the two forms
      agree on every response it may hold. */
  lemma ResponseFormsAgreeUpTo(m: nat)
    ensures m < TWO31 <==>
            forall data: Bytes, at: nat :: at <= |data| && |data| - at == m ==>
              SameAnswer(TakeResponse(data, at), OwnResponse(data, at))
  {
    if m < TWO31 {
      forall data: Bytes, at: nat | at <= |data| && |data| - at == m
        ensures SameAnswer(TakeResponse(data, at), OwnResponse(data, at))
      {
        ResponseFormsAgreeExactly(data, at);
        NoOverflow(data, at);
      }
    } else {
      var data := ResponsesDiffer(m);
    }
  }

  lemma NoOverflow(data: Bytes, at: nat)
    requires at <= |data| && |data| - at < TWO31
    ensures !TakeResponse(data, at).Overflow?
  {
  }

  function Zeros(n: nat): Bytes { seq(n, _ => 0) }

  /** Data of that length which the form at the cursor takes and the other refuses. */
  lemma ResponsesDiffer(m: nat) returns (data: Bytes)
    requires m >= TWO31
    ensures |data| == m && !SameAnswer(TakeResponse(data, 0), OwnResponse(data, 0))
  {
    var n := ToI32(m);
    var r := Response([], Zeros(if n < 8 then 0 else n - 7));
    var rest := Zeros(m - |PackResponse(r)|);
    data := [] + PackResponse(r) + rest;
    ResponseInverts([], r, rest);
    ResponseFormsAgreeExactly(data, 0);
  }

  /* ---- frames ---- */

  function WriteFrame(f: Frame): Bytes {
    PackInt(f.kind) + PackInt(ToI32(|f.payload|)) + f.payload
  }

  /** `MsgRaw::write` to a stream that takes all of it. The length compared with
      what was written is an `int`. */
  method WriteRaw(stream: Bytes, f: Frame) returns (stream': Bytes, ok: bool)
    ensures stream' == stream + WriteFrame(f)
    ensures ok <==> |f.payload| + 8 < TWO31
  {
    var header := PackInt(f.kind) + PackInt(ToI32(|f.payload|));
    stream' := stream + header + f.payload;
    ok := |stream'| - |stream| == ToI32(|header| + |f.payload|);
  }

  /** `MsgRaw::read` into a fresh frame, from a stream that ends. */
  function ReadFrame(stream: Bytes, at: nat): (o: Outcome<Frame>)
    requires at <= |stream|
    ensures o.Ok? ==> at + 8 <= o.next <= |stream|
  {
    if at + 8 > |stream| then Fail(at)
    else
      var kind, l := IntAt(stream[at..at + 4]), IntAt(stream[at + 4..at + 8]);
      if l <= 0 then Ok(Frame(kind, []), at + 8)
      else if at + 8 + l > |stream| then Fail(at + 8)
      else Ok(Frame(kind, stream[at + 8..at + 8 + l]), at + 8 + l)
  }

  function WriteAll(frames: seq<Frame>): Bytes {
    if frames == [] then [] else WriteFrame(frames[0]) + WriteAll(frames[1..])
  }

  /** Reading frames until one is refused. */
  function ReadAll(stream: Bytes, at: nat): seq<Frame>
    requires at <= |stream|
    decreases |stream| - at
  {
    match ReadFrame(stream, at)
    case Ok(f, next) => [f] + ReadAll(stream, next)
    case _ => []
  }

  predicate AllFit(frames: seq<Frame>) {
    forall i :: 0 <= i < |frames| ==> |frames[i].payload| < TWO31
  }

  lemma FrameInverts(pre: Bytes, f: Frame, rest: Bytes)
    requires |f.payload| < TWO31
    ensures ReadFrame(pre + WriteFrame(f) + rest, |pre|) == Ok(f, |pre| + |WriteFrame(f)|)
  {
    var stream, at := pre + WriteFrame(f) + rest, |pre|;
    assert stream[at..at + 4] == PackInt(f.kind);
    assert stream[at + 4..at + 8] == PackInt(ToI32(|f.payload|));
    IntRoundTrip(f.kind);
    IntRoundTrip(ToI32(|f.payload|));
    assert stream[at + 8..at + 8 + |f.payload|] == f.payload;
  }

  /** What is read of a header and what follows: no payload for a length that is not
      positive, a refusal behind the header if the payload is cut. */
  lemma FrameExactly(pre: Bytes, kind: i32, l: i32, rest: Bytes)
    ensures var next := |pre| + 8;
            ReadFrame(pre + (PackInt(kind) + PackInt(l)) + rest, |pre|) ==
            if l <= 0 then Ok(Frame(kind, []), next)
            else if l > |rest| then Fail(next)
            else Ok(Frame(kind, rest[..l]), next + l)
  {
    hide PackInt, IntAt;
    var stream, at := pre + (PackInt(kind) + PackInt(l)) + rest, |pre|;
    assert stream[at..at + 4] == PackInt(kind) && stream[at + 4..at + 8] == PackInt(l);
    IntRoundTrip(kind);
    IntRoundTrip(l);
    if 0 < l <= |rest| {
      assert stream[at + 8..at + 8 + l] == rest[..l];
    }
  }

  /** A frame comes back exactly when the length of its payload fits an `int`. */
  lemma FrameRoundTripExactly(f: Frame)
    ensures ReadFrame(WriteFrame(f), 0) == Ok(f, |WriteFrame(f)|) <==> |f.payload| < TWO31
  {
    if |f.payload| < TWO31 {
      FrameInverts([], f, []);
      assert [] + WriteFrame(f) + [] == WriteFrame(f);
    }
  }

  /** How many of the frames lie wholly within the first k bytes. */
  function Whole(frames: seq<Frame>, k: nat): (n: nat)
    ensures n <= |frames|
  {
    if frames == [] || k < |WriteFrame(frames[0])| then 0
    else 1 + Whole(frames[1..], k - |WriteFrame(frames[0])|)
  }

  lemma FrameTruncated(pre: Bytes, f: Frame, part: Bytes)
    requires |f.payload| < TWO31 && |part| < |WriteFrame(f)| && part == WriteFrame(f)[..|part|]
    ensures ReadFrame(pre + part, |pre|).Fail?
  {
    var stream, at := pre + part, |pre|;
    if |part| >= 8 {
      assert stream[at + 4..at + 8] == part[4..8] == WriteFrame(f)[4..8] == PackInt(ToI32(|f.payload|));
      IntRoundTrip(ToI32(|f.payload|));
      }
  }

  /** Reading on after one frame, or stopping inside it. */
  lemma ReadOn(stream: Bytes, at: nat)
    requires at <= |stream|
    ensures var o := ReadFrame(stream, at);
            ReadAll(stream, at) == if o.Ok? then [o.value] + ReadAll(stream, o.next) else []
  {
  }

  lemma PrefixGrows(f: Frame, rest: seq<Frame>, n: nat)
    requires n <= |rest|
    ensures ([f] + rest)[..1 + n] == [f] + rest[..n]
  {
  }

  lemma FrameCut(pre: Bytes, f: Frame, tail: Bytes, k: nat)
    requires |f.payload| < TWO31 && k <= |WriteFrame(f) + tail|
    ensures var w := WriteFrame(f); var stream := pre + (w + tail)[..k];
            ReadFrame(stream, |pre|) == if k < |w| then ReadFrame(pre + w[..k], |pre|) else Ok(f, |pre + w|)
    ensures k < |WriteFrame(f)| ==> ReadFrame(pre + WriteFrame(f)[..k], |pre|).Fail?
  {
    var w := WriteFrame(f);
    CutSplits(pre, w, tail, k);
    if k < |w| {
      FrameTruncated(pre, f, w[..k]);
    } else {
      FrameInverts(pre, f, tail[..k - |w|]);
    }
  }

  /** A stream cut off after k bytes yields exactly the frames written wholly
      before the cut. */
  lemma {:induction false} CutStreamReads(pre: Bytes, frames: seq<Frame>, k: nat)
    requires AllFit(frames) && k <= |WriteAll(frames)|
    ensures ReadAll(pre + WriteAll(frames)[..k], |pre|) == frames[..Whole(frames, k)]
    decreases |frames|
  {
    ReadOn(pre + WriteAll(frames)[..k], |pre|);
    if frames != [] {
      var f, rest := frames[0], frames[1..];
      var w, tail := WriteFrame(f), WriteAll(rest);
      FrameCut(pre, f, tail, k);
      if k >= |w| {
        CutSplits(pre, w, tail, k);
        CutStreamReads(pre + w, rest, k - |w|);
        assert frames == [f] + rest;
        PrefixGrows(f, rest, Whole(rest, k - |w|));
      }
    }
  }

  lemma CutSplits(pre: Bytes, w: Bytes, tail: Bytes, k: nat)
    requires k <= |w + tail|
    ensures k < |w| ==> pre + (w + tail)[..k] == pre + w[..k]
    ensures k >= |w| ==> pre + (w + tail)[..k] == pre + w + tail[..k - |w|]
  {
    if k < |w| {
      assert (w + tail)[..k] == w[..k];
    } else {
      assert (w + tail)[..k] == w + tail[..k - |w|];
    }
  }

  lemma {:induction false} WholeOfAll(frames: seq<Frame>)
    ensures Whole(frames, |WriteAll(frames)|) == |frames|
    decreases |frames|
  {
    if frames != [] {
      WholeOfAll(frames[1..]);
    }
  }

  /** Any list of frames written to a stream reads back as the same list. */
  lemma StreamRoundTrip(frames: seq<Frame>)
    requires AllFit(frames)
    ensures ReadAll(WriteAll(frames), 0) == frames
  {
    var all := WriteAll(frames);
    CutStreamReads([], frames, |all|);
    WholeOfAll(frames);
    assert [] + all[..|all|] == all && frames[..|frames|] == frames;
  }

  /* ---- the objects ---- */

  class Packer {
    var stream: Bytes

    constructor ()
      ensures stream == []
    {
      stream := [];
    }

    /** The four bytes of v in memory, one after the other: read as an `int` they
        are v again. */
    method AddInt(v: i32)
      modifies this
      ensures stream == old(stream) + PackInt(v)
      ensures |stream| == |old(stream)| + 4 && IntAt(stream[|old(stream)|..]) == v
    {
      var u: nat := if v < 0 then v + TWO32 else v;
      ghost var whole := u;
      var i := 0;
      while i < 4
        invariant 0 <= i <= 4
        invariant stream + LittleEndian(u, 4 - i) == old(stream) + LittleEndian(whole, 4)
      {
        stream := stream + [u % 256];
        u := u / 256;
        i := i + 1;
      }
      IntRoundTrip(v);
      assert (old(stream) + PackInt(v))[|old(stream)|..] == PackInt(v);
    }

    method AddString(s: Bytes)
      modifies this
      ensures stream == old(stream) + PackString(s)
    {
      hide PackInt, IntAt, ToI32;
      if s == [] {
        AddInt(0);
      } else {
        AddInt(ToI32(|s|));
        stream := stream + s;
        stream := stream + [0];
      }
    }

    method AddVector(s: Bytes)
      modifies this
      ensures stream == old(stream) + PackVector(s)
    {
      hide PackInt, IntAt, ToI32;
      if s == [] {
        AddInt(0);
      } else {
        AddInt(ToI32(|s|));
        stream := stream + s;
      }
    }
  }

  method SerializeResponse(m: Response) returns (b: Bytes)
    ensures b == PackResponse(m)
  {
    var w := new Packer();
    w.AddString(m.r1);
    w.AddVector(m.r2);
    b := w.stream;
  }

  class Unpacker {
    const data: Bytes
    var at: nat

    ghost predicate Valid()
      reads this
    {
      at <= |data|
    }

    constructor (data: Bytes)
      ensures Valid() && this.data == data && at == 0
    {
      this.data, at := data, 0;
    }

    method NextInt() returns (o: Outcome<i32>)
      requires Valid()
      modifies this
      ensures Valid() && o == TakeInt(data, old(at))
      ensures (o.Ok? || o.Fail?) && at == o.next
    {
      if at + 4 > |data| {
        return Fail(at);
      }
      o := Ok(IntAt(data[at..at + 4]), at + 4);
      at := at + 4;
    }

    /** Unpacks a string (`tail` 1) or a vector (`tail` 0) into `target`. */
    method NextSized(target: Bytes, tail: nat) returns (o: Outcome<Bytes>)
      requires Valid() && tail <= 1
      modifies this
      ensures Valid() && o == TakeSized(data, old(at), target, tail)
      ensures !o.Overflow? ==> at == o.next
    {
      var l := NextInt();
      if l.Fail? {
        return Fail(at);
      }
      if l.value == 0 {
        return Ok(target, at);
      }
      if l.value < 0 {
        return Throw(at);
      }
      if at + l.value + tail > |data| {
        return Fail(at);
      }
      var s := data[at..at + l.value];
      if l.value + tail >= TWO31 {
        return Overflow;
      }
      at := at + l.value + tail;
      o := Ok(s, at);
    }

    method NextResponse() returns (o: Outcome<Response>)
      requires Valid()
      modifies this
      ensures Valid() && o == TakeResponse(data, old(at))
      ensures !o.Overflow? ==> at == o.next
    {
      var r1 := NextSized([], 1);
      match r1 {
        case Fail(next) => return Fail(next);
        case Throw(next) => return Throw(next);
        case Overflow => return Overflow;
        case Ok(_, _) =>
      }
      var r2 := NextSized([], 0);
      match r2 {
        case Fail(next) => return Fail(next);
        case Throw(next) => return Throw(next);
        case Overflow => return Overflow;
        case Ok(_, next) => return Ok(Response(r1.value, r2.value), next);
      }
    }

    /** The form that starts a cursor of its own on the rest of the data. */
    method NextOwnResponse() returns (o: Outcome<Response>)
      requires Valid()
      modifies this
      ensures Valid() && o == OwnResponse(data, old(at))
      ensures at == if o.Ok? then o.next else old(at)
    {
      hide TakeResponse, ToI32;
      var n := ToI32(|data| - at);
      var inner := new Unpacker(if n < 0 then [] else data[at..at + n]);
      var r := inner.NextResponse();
      o := Back(r, at);
      if o.Ok? {
        at := at + inner.at;
      }
    }
  }
}
