/** Reading a name out of a DNS message (socket/dns-demo.c): `read_name` and the
    older `ReadName` go octet by octet and follow compression pointers; the
    reference goes label by label, as section 4.1.4 of RFC 1035 describes. */
module DnsReader {
  import opened Bits
  import opened Dns

  datatype Expansion = Labels(labels: seq<Label>) | Malformed

  /* ---- the reference ---- */

  function Target(buf: seq<byte>, r: nat): nat
    requires r + 1 < |buf| && buf[r] >= 192
  {
    256 * (buf[r] as int - 192) + buf[r + 1]
  }

  /** The labels of the name at r, in a segment that starts at seg. A pointer ends
      its segment and has to lead below the start of it. */
  function Expand(buf: seq<byte>, r: nat, seg: nat): Expansion
    requires seg <= r
    decreases seg, |buf| - r
  {
    if r >= |buf| then Malformed
    else if buf[r] == 0 then Labels([])
    else if buf[r] >= 192 then
      if r + 1 < |buf| && Target(buf, r) < seg then Expand(buf, Target(buf, r), Target(buf, r))
      else Malformed
    else if buf[r] <= 63 && r + 1 + buf[r] <= |buf| then
      Before(buf[r + 1..r + 1 + buf[r]], Expand(buf, r + 1 + buf[r], seg))
    else Malformed
  }

  function Before(l: Label, e: Expansion): Expansion {
    if e.Labels? then Labels([l] + e.labels) else Malformed
  }

  /** The octets that the name at r occupies in place: to its zero octet, or to
      the end of its first pointer. */
  function Span(buf: seq<byte>, r: nat): nat
    decreases |buf| - r
  {
    if r >= |buf| then 0
    else if buf[r] == 0 then 1
    else if buf[r] >= 192 then 2
    else 1 + buf[r] + Span(buf, r + 1 + buf[r])
  }

  /** Labels without octets that an octet-wise reader takes for an end or a pointer. */
  predicate Plain(ls: seq<Label>) {
    forall i, k :: 0 <= i < |ls| && 0 <= k < |ls[i]| ==> 1 <= ls[i][k] < 192
  }

  predicate Short(ls: seq<Label>) {
    forall i :: 0 <= i < |ls| ==> 1 <= |ls[i]| <= 63
  }

  ghost predicate Stands(buf: seq<byte>, r: nat, x: seq<byte>) {
    r + |x| <= |buf| && buf[r..r + |x|] == x
  }

  lemma {:induction false} StandsSplit(buf: seq<byte>, r: nat, x: seq<byte>, y: seq<byte>)
    requires Stands(buf, r, x + y)
    ensures Stands(buf, r, x) && Stands(buf, r + |x|, y)
    ensures x != [] ==> buf[r] == x[0]
  {
    var z := buf[r..r + |x + y|];
    assert z[..|x|] == x && z[|x|..] == y;
    assert buf[r..r + |x|] == z[..|x|];
    assert buf[r + |x|..r + |x| + |y|] == z[|x|..];
    assert x != [] ==> z[0] == buf[r];
  }

  lemma {:induction false} LabelStands(buf: seq<byte>, r: nat, seg: nat, l: Label, rest: seq<byte>)
    requires seg <= r && 1 <= |l| <= 63 && Stands(buf, r, [|l|] + l + rest)
    ensures Stands(buf, r + 1 + |l|, rest)
    ensures Expand(buf, r, seg) == Before(l, Expand(buf, r + 1 + |l|, seg))
    ensures Span(buf, r) == 1 + |l| + Span(buf, r + 1 + |l|)
  {
    StandsSplit(buf, r, [|l|] + l, rest);
    StandsSplit(buf, r, [|l|], l);
  }

  lemma {:induction false} EndStands(buf: seq<byte>, r: nat, seg: nat)
    requires seg <= r && Stands(buf, r, [0])
    ensures Expand(buf, r, seg) == Labels([]) && Span(buf, r) == 1
  {
    assert buf[r..r + 1][0] == buf[r];
  }

  lemma {:induction false} PointerStands(buf: seq<byte>, r: nat, seg: nat, t: nat)
    requires t < seg <= r && t < 0x4000 && Stands(buf, r, [192 + t / 256, t % 256])
    ensures Expand(buf, r, seg) == Expand(buf, t, t) && Span(buf, r) == 2
  {
    assert buf[r..r + 2][0] == buf[r] && buf[r..r + 2][1] == buf[r + 1];
    assert Target(buf, r) == t;
  }

  /** Reading an uncompressed name gives the labels it was written from, wherever
      in a message it stands. */
  lemma {:induction false} ReadsWire(buf: seq<byte>, r: nat, seg: nat, ls: seq<Label>)
    requires seg <= r && Short(ls) && Stands(buf, r, Wire(ls))
    ensures Expand(buf, r, seg) == Labels(ls)
    ensures Span(buf, r) == |Wire(ls)|
    decreases |ls|
  {
    hide Expand, Span, Stands;
    if ls == [] {
      EndStands(buf, r, seg);
    } else {
      LabelStands(buf, r, seg, ls[0], Wire(ls[1..]));
      ReadsWire(buf, r + 1 + |ls[0]|, seg, ls[1..]);
      assert ls == [ls[0]] + ls[1..];
    }
  }

  /** The octets of the labels, without the zero octet. */
  function Body(ls: seq<Label>): seq<byte> {
    if ls == [] then [] else [|ls[0]| % 256] + ls[0] + Body(ls[1..])
  }

  /** Compression is transparent: labels that end in a pointer read as those
      labels followed by the name the pointer leads to, and occupy two octets
      beyond the labels. */
  lemma {:induction false} ReadsCompressed(buf: seq<byte>, r: nat, seg: nat, ls: seq<Label>, t: nat)
    requires seg <= r && Short(ls) && t < seg && t < 0x4000
    requires Stands(buf, r, Body(ls) + [192 + t / 256, t % 256])
    ensures Span(buf, r) == |Body(ls)| + 2
    ensures var tail := Expand(buf, t, t);
            Expand(buf, r, seg) == if tail.Labels? then Labels(ls + tail.labels) else Malformed
    decreases |ls|
  {
    hide Expand, Span, Stands;
    var pointer: seq<byte> := [192 + t / 256, t % 256];
    if ls == [] {
      assert Body(ls) + pointer == pointer;
      PointerStands(buf, r, seg, t);
    } else {
      var l, rest := ls[0], ls[1..];
      assert Body(ls) + pointer == [|l|] + l + (Body(rest) + pointer);
      LabelStands(buf, r, seg, l, Body(rest) + pointer);
      ReadsCompressed(buf, r + 1 + |l|, seg, rest, t);
      assert ls == [l] + rest;
    }
  }

  /* ---- the octet-wise loop ---- */

  /** Where an octet-wise reader is: at r, with `left` octets of a label to come,
      in the segment that starts at seg, and the labels `rest` after that. */
  datatype Cursor = Cursor(r: nat, left: nat, seg: nat, rest: seq<Label>)

  /** The octets copied so far and those still to come make up the whole name. */
  ghost predicate Reading(buf: seq<byte>, out: seq<byte>, ls: seq<Label>, c: Cursor) {
    && c.seg <= c.r && c.r + c.left < |buf|
    && Expand(buf, c.r + c.left, c.seg) == Labels(c.rest)
    && Plain(c.rest) && (forall k :: c.r <= k < c.r + c.left ==> 1 <= buf[k] < 192)
    && out + (buf[c.r..c.r + c.left] + Wire(c.rest)) == Wire(ls)
  }

  /** The cursor after one pass over an octet that is not zero. */
  ghost function Next(buf: seq<byte>, c: Cursor): Cursor
    requires c.r + 1 < |buf|
  {
    if c.left > 0 then Cursor(c.r + 1, c.left - 1, c.seg, c.rest)
    else if buf[c.r] >= 192 then Cursor(Target(buf, c.r), 0, Target(buf, c.r), c.rest)
    else Cursor(c.r + 1, buf[c.r], c.seg, if c.rest == [] then [] else c.rest[1..])
  }

  lemma {:induction false} PassInside(buf: seq<byte>, out: seq<byte>, ls: seq<Label>, c: Cursor)
    requires Reading(buf, out, ls, c) && c.left > 0
    ensures 1 <= buf[c.r] < 192
    ensures Reading(buf, out + [buf[c.r]], ls, Next(buf, c))
  {
    hide Expand, Wire, Plain;
    var e := c.r + c.left;
    assert buf[c.r..e] == [buf[c.r]] + buf[c.r + 1..e];
    assert out + (buf[c.r..e] + Wire(c.rest))
        == (out + [buf[c.r]]) + (buf[c.r + 1..e] + Wire(c.rest));
  }

  lemma {:induction false} PassPointer(buf: seq<byte>, out: seq<byte>, ls: seq<Label>, c: Cursor)
    requires Reading(buf, out, ls, c) && c.left == 0 && buf[c.r] >= 192
    ensures c.r + 1 < |buf| && Target(buf, c.r) < c.seg
    ensures Reading(buf, out, ls, Next(buf, c))
  {
    var t := Target(buf, c.r);
    assert buf[t..t + 0] == [] && buf[c.r..c.r + 0] == [];
  }

  lemma {:induction false} ExpandLabel(buf: seq<byte>, r: nat, seg: nat, ls: seq<Label>)
    requires seg <= r < |buf| && 0 < buf[r] < 192 && Expand(buf, r, seg) == Labels(ls)
    ensures var o := r + 1 + buf[r];
            && o < |buf| && Expand(buf, o, seg).Labels?
            && ls == [buf[r + 1..o]] + Expand(buf, o, seg).labels
  {
    assert Expand(buf, r, seg) == Before(buf[r + 1..r + 1 + buf[r]], Expand(buf, r + 1 + buf[r], seg));
  }

  lemma {:induction false} PassLabel(buf: seq<byte>, out: seq<byte>, ls: seq<Label>, c: Cursor)
    requires Reading(buf, out, ls, c) && c.left == 0 && 0 < buf[c.r] < 192
    ensures c.r + 1 < |buf|
    ensures Reading(buf, out + [buf[c.r]], ls, Next(buf, c))
  {
    hide Expand;
    ExpandLabel(buf, c.r, c.seg, c.rest);
    var n := buf[c.r];
    var o := c.r + 1 + n;
    var l, rest := buf[c.r + 1..o], Expand(buf, o, c.seg).labels;
    assert c.rest[0] == l && c.rest[1..] == rest;
    forall k | c.r + 1 <= k < o
      ensures 1 <= buf[k] < 192
    {
      assert buf[k] == c.rest[0][k - (c.r + 1)];
    }
    assert buf[c.r..c.r + 0] == [];
    assert out + ([] + ([n] + l + Wire(rest))) == (out + [n]) + (l + Wire(rest));
  }

  /** One pass of either reader: an octet below 192 is copied, any other one is
      the start of a pointer, which leads strictly down. */
  lemma {:induction false} Pass(buf: seq<byte>, out: seq<byte>, ls: seq<Label>, c: Cursor)
    requires Reading(buf, out, ls, c) && buf[c.r] != 0
    ensures c.r + 1 < |buf|
    ensures buf[c.r] < 192 ==>
              && Reading(buf, out + [buf[c.r]], ls, Next(buf, c))
              && Next(buf, c).r == c.r + 1 && Next(buf, c).seg == c.seg && |out| + 1 < |Wire(ls)|
    ensures buf[c.r] >= 192 ==>
              && Reading(buf, out, ls, Next(buf, c))
              && c.left == 0 && Next(buf, c).r == Next(buf, c).seg == Target(buf, c.r) < c.seg
  {
    hide Expand, Wire, Plain;
    if c.left > 0 {
      PassInside(buf, out, ls, c);
    } else if buf[c.r] >= 192 {
      PassPointer(buf, out, ls, c);
    } else {
      PassLabel(buf, out, ls, c);
    }
  }

  /* ---- when going octet by octet is right ---- */

  /** What an octet-wise reader has copied when it meets a zero octet. */
  datatype Copy = Copied(octets: seq<byte>) | Unfinished

  /** The reader at r, given n passes. */
  function CopyFrom(buf: seq<byte>, r: nat, n: nat): Copy
    decreases n
  {
    if r >= |buf| then Unfinished
    else if buf[r] == 0 then Copied([])
    else if n == 0 then Unfinished
    else if buf[r] >= 192 then
      if r + 1 < |buf| then CopyFrom(buf, Target(buf, r), n - 1) else Unfinished
    else
      match CopyFrom(buf, r + 1, n - 1)
      case Copied(o) => Copied([buf[r]] + o)
      case Unfinished => Unfinished
  }

  lemma {:induction false} CopiedOctets(buf: seq<byte>, r: nat, n: nat)
    requires CopyFrom(buf, r, n).Copied?
    ensures var o := CopyFrom(buf, r, n).octets; forall k :: 0 <= k < |o| ==> 1 <= o[k] < 192
    decreases n
  {
    if buf[r] >= 192 {
      CopiedOctets(buf, Target(buf, r), n - 1);
    } else if buf[r] > 0 {
      CopiedOctets(buf, r + 1, n - 1);
    }
  }

  lemma {:induction false} CopiesRest(buf: seq<byte>, out: seq<byte>, ls: seq<Label>, c: Cursor) returns (n: nat)
    requires Reading(buf, out, ls, c)
    ensures CopyFrom(buf, c.r, n).Copied? && out + CopyFrom(buf, c.r, n).octets + [0] == Wire(ls)
    decreases c.seg, |buf| - c.r
  {
    hide Expand, Plain, Wire, CopyFrom;
    if buf[c.r] == 0 {
      ReadingEnds(buf, out, ls, c);
      n := 0;
      CopyEnds(buf, c.r);
      assert out + [] == out;
    } else {
      Pass(buf, out, ls, c);
      var c' := Next(buf, c);
      hide Reading;
      var m := CopiesRest(buf, if buf[c.r] >= 192 then out else out + [buf[c.r]], ls, c');
      n := 1 + m;
      CopyPasses(buf, c.r, m);
      if buf[c.r] < 192 {
        var o := CopyFrom(buf, c.r + 1, m).octets;
        assert out + [buf[c.r]] + o == out + ([buf[c.r]] + o);
      }
    }
  }

  lemma CopyEnds(buf: seq<byte>, r: nat)
    requires r < |buf| && buf[r] == 0
    ensures CopyFrom(buf, r, 0) == Copied([])
  {
  }

  lemma CopyPasses(buf: seq<byte>, r: nat, m: nat)
    requires r + 1 < |buf| && buf[r] != 0
    ensures buf[r] >= 192 ==> CopyFrom(buf, r, 1 + m) == CopyFrom(buf, Target(buf, r), m)
    ensures buf[r] < 192 && CopyFrom(buf, r + 1, m).Copied? ==>
              CopyFrom(buf, r, 1 + m) == Copied([buf[r]] + CopyFrom(buf, r + 1, m).octets)
  {
  }

  lemma {:induction false} BodyPlain(ls: seq<Label>)
    requires forall k :: 0 <= k < |Body(ls)| ==> 1 <= Body(ls)[k] < 192
    ensures Plain(ls)
    decreases |ls|
  {
    if ls != [] {
      var b, rest, o := Body(ls), Body(ls[1..]), 1 + |ls[0]|;
      forall k | 0 <= k < |rest|
        ensures 1 <= rest[k] < 192
      {
        assert rest[k] == b[o + k];
      }
      BodyPlain(ls[1..]);
      forall k | 0 <= k < |ls[0]|
        ensures 1 <= ls[0][k] < 192
      {
        assert ls[0][k] == b[1 + k];
      }
      assert forall i :: 1 <= i < |ls| ==> ls[i] == ls[1..][i - 1];
    }
  }

  lemma {:induction false} WireIsBody(ls: seq<Label>)
    ensures Wire(ls) == Body(ls) + [0]
  {
    if ls != [] {
      WireIsBody(ls[1..]);
    }
  }

  /** Going octet by octet finds the octets of a name exactly when no octet of a
      label looks like an end or a pointer. */
  lemma {:induction false} OctetWiseExactly(buf: seq<byte>, r: nat, ls: seq<Label>)
    requires Expand(buf, r, r) == Labels(ls)
    ensures (exists n: nat :: CopyFrom(buf, r, n) == Copied(Body(ls))) <==> Plain(ls)
  {
    hide CopyFrom, Expand, Body, Wire;
    if n: nat :| CopyFrom(buf, r, n) == Copied(Body(ls)) {
      CopiedOctets(buf, r, n);
      BodyPlain(ls);
    }
    if Plain(ls) {
      ReadingStarts(buf, r, ls);
      var n := CopiesRest(buf, [], ls, Cursor(r, 0, r, ls));
      WireIsBody(ls);
      var o := CopyFrom(buf, r, n).octets;
      assert [] + o + [0] == o + [0];
      assert (o + [0])[..|o|] == o && (Body(ls) + [0])[..|Body(ls)|] == Body(ls);
    }
  }

  lemma {:induction false} ReadingStarts(buf: seq<byte>, r: nat, ls: seq<Label>)
    requires Expand(buf, r, r) == Labels(ls) && Plain(ls)
    ensures Reading(buf, [], ls, Cursor(r, 0, r, ls))
  {
    assert buf[r..r + 0] == [];
  }

  lemma {:induction false} ReadingEnds(buf: seq<byte>, out: seq<byte>, ls: seq<Label>, c: Cursor)
    requires Reading(buf, out, ls, c) && buf[c.r] == 0
    ensures c.left == 0 && out + [0] == Wire(ls)
  {
    assert c.left == 0;
    assert buf[c.r..c.r + 0] == [];
  }

  /** What n counts: the octets up to the cursor and one more, until a pointer
      was followed; from then on all but one of those occupied in place. */
  ghost predicate Counted(buf: seq<byte>, r0: nat, c: Cursor, jumped: bool, n: nat) {
    if jumped then n + 1 == Span(buf, r0)
    else
      && r0 <= c.r && n == 1 + (c.r - r0)
      && Span(buf, r0) == (c.r - r0) + c.left + Span(buf, c.r + c.left)
  }

  lemma {:induction false} CountPass(buf: seq<byte>, r0: nat, c: Cursor, jumped: bool, n: nat)
    requires c.r + 1 < |buf| && buf[c.r] != 0 && (c.left > 0 ==> buf[c.r] < 192)
    requires Counted(buf, r0, c, jumped, n)
    ensures var jumped' := jumped || buf[c.r] >= 192;
            Counted(buf, r0, Next(buf, c), jumped', if jumped' then n else n + 1)
  {
  }

  /** Short and plain labels are what the in-place decoders accept. */
  lemma {:induction false} ExpandShort(buf: seq<byte>, r: nat, seg: nat, ls: seq<Label>)
    requires seg <= r && Expand(buf, r, seg) == Labels(ls)
    ensures Short(ls)
    decreases seg, |buf| - r
  {
    if buf[r] >= 192 {
      ExpandShort(buf, Target(buf, r), Target(buf, r), ls);
    } else if buf[r] > 0 {
      ExpandLabel(buf, r, seg, ls);
      var o := r + 1 + buf[r];
      ExpandShort(buf, o, seg, Expand(buf, o, seg).labels);
    }
  }

  lemma PlainDecodable(ls: seq<Label>)
    requires Plain(ls) && Short(ls)
    ensures Decodable(ls)
  {
    forall i | 0 <= i < |ls|
      ensures 0 !in ls[i]
    {
    }
  }

  /** The loop of `read_name`: the name at r goes to `name` in wire form. */
  method Follow(buf: seq<byte>, r0: nat, name: array<byte>, ghost ls: seq<Label>)
    returns (p: nat, count: nat)
    requires Expand(buf, r0, r0) == Labels(ls) && Plain(ls) && |Wire(ls)| <= name.Length
    modifies name
    ensures p + 1 == |Wire(ls)| && name[..p + 1] == Wire(ls)
    ensures count == Span(buf, r0)
    ensures forall k :: |Wire(ls)| <= k < name.Length ==> name[k] == old(name[k])
  {
    hide Expand, Span, Wire, Plain;
    var r, jump, n := r0, 0, 1;
    p := 0;
    ghost var c := Cursor(r0, 0, r0, ls);
    ReadingStarts(buf, r0, ls);
    while buf[r] != 0
      invariant c.r == r && p <= name.Length && 0 <= jump <= 1
      invariant Reading(buf, name[..p], ls, c)
      invariant Counted(buf, r0, c, jump == 1, n)
      invariant forall k :: |Wire(ls)| <= k < name.Length ==> name[k] == old(name[k])
      decreases c.seg, |buf| - r
    {
      Pass(buf, name[..p], ls, c);
      CountPass(buf, r0, c, jump == 1, n);
      if buf[r] >= 192 {
        r := 256 * (buf[r] as int) + buf[r + 1] - 0xc000;
        jump := 1;
      } else {
        name[p] := buf[r];
        assert name[..p + 1] == name[..p] + [buf[r]];
        p, r := p + 1, r + 1;
      }
      if jump == 0 {
        n := n + 1;
      }
      c := Next(buf, c);
    }
    ReadingEnds(buf, name[..p], ls, c);
    name[p] := 0;
    assert name[..p + 1] == name[..p] + [0];
    count := n + jump;
    EndSpan(buf, c.r);
  }

  lemma EndSpan(buf: seq<byte>, r: nat)
    requires r < |buf| && buf[r] == 0
    ensures Span(buf, r) == 1
  {
  }

  /** `read_name`: the dotted name, and the octets it occupies in place. */
  method ReadName(buf: seq<byte>, r: nat, name: array<byte>, ghost ls: seq<Label>) returns (count: nat)
    requires Expand(buf, r, r) == Labels(ls) && Plain(ls) && |ls| >= 2
    requires |Wire(ls)| <= name.Length
    modifies name
    ensures name[..|Wire(ls)| - 1] == Dotted(ls) + [0]
    ensures count == Span(buf, r)
  {
    hide Expand, Span, Wire, Plain, Dotted;
    var p;
    p, count := Follow(buf, r, name, ls);
    ExpandShort(buf, r, r, ls);
    PlainDecodable(ls);
    NameDecode(name, name, ls);
  }

  /* ---- the older reader ---- */

  /** Every label with a dot behind it. */
  function Ended(ls: seq<Label>): seq<byte> {
    if ls == [] then [] else ls[0] + [DOT] + Ended(ls[1..])
  }

  lemma {:induction false} EndedIsTail(ls: seq<Label>)
    ensures [DOT] + Ended(ls) == Tail(ls) + [DOT]
  {
    if ls != [] {
      EndedIsTail(ls[1..]);
      assert Tail(ls) + [DOT] == [DOT] + ls[0] + (Tail(ls[1..]) + [DOT]);
    }
  }

  lemma {:induction false} EndedIsDotted(ls: seq<Label>)
    requires ls != []
    ensures Ended(ls) == Dotted(ls) + [DOT]
  {
    EndedIsTail(ls[1..]);
    assert Ended(ls) == ls[0] + ([DOT] + Ended(ls[1..]));
  }

  /** The buffer of `ReadName` when its decoding loop is at i: the labels before i
      each have their dot, the others are still in wire form. */
  ghost predicate Dotting(a: seq<byte>, ls: seq<Label>, i: nat, rest: seq<Label>) {
    && Decodable(rest) && i < |Wire(ls)| <= |a|
    && a[i..|Wire(ls)|] == Wire(rest)
    && a[..i] + Ended(rest) == Ended(ls)
  }

  /** b is a with the length octet at i squeezed out and a dot behind the label. */
  ghost predicate Shifted(a: seq<byte>, b: seq<byte>, i: nat, n: nat) {
    && |a| == |b| && i + n < |a|
    && (forall k :: i <= k < i + n ==> b[k] == a[k + 1])
    && b[i + n] == DOT
    && (forall k :: 0 <= k < |a| && !(i <= k <= i + n) ==> b[k] == a[k])
  }

  lemma {:induction false} DottingHead(a: seq<byte>, ls: seq<Label>, i: nat, rest: seq<Label>)
    requires Dotting(a, ls, i, rest) && rest != []
    ensures a[i] == |rest[0]| && i + 1 + |rest[0]| < |Wire(ls)| <= |a|
    ensures a[i + 1..i + 1 + |rest[0]|] == rest[0]
    ensures a[i + 1 + |rest[0]|..|Wire(ls)|] == Wire(rest[1..])
  {
    var l := rest[0];
    assert Wire(rest) == [|l|] + l + Wire(rest[1..]);
    hide Wire;
    StandsSplit(a, i, [|l|] + l, Wire(rest[1..]));
    StandsSplit(a, i, [|l|], l);
  }

  lemma EndedCons(ls: seq<Label>)
    requires ls != []
    ensures Ended(ls) == (ls[0] + [DOT]) + Ended(ls[1..])
  {
  }

  lemma {:induction false} ShiftedLabel(a: seq<byte>, b: seq<byte>, i: nat, l: Label, e: nat)
    requires Shifted(a, b, i, |l|) && i + 1 + |l| <= e <= |a| && a[i + 1..i + 1 + |l|] == l
    ensures |b| == |a| && b[..i + 1 + |l|] == a[..i] + (l + [DOT])
    ensures b[i + 1 + |l|..e] == a[i + 1 + |l|..e]
  {
    assert b[i..i + |l|] == a[i + 1..i + 1 + |l|];
  }

  lemma {:induction false} DottingStep(a: seq<byte>, b: seq<byte>, ls: seq<Label>, i: nat, rest: seq<Label>)
    requires Dotting(a, ls, i, rest) && rest != [] && Shifted(a, b, i, |rest[0]|)
    ensures Dotting(b, ls, i + 1 + |rest[0]|, rest[1..])
  {
    hide Wire, Shifted, Ended;
    DottingHead(a, ls, i, rest);
    ShiftedLabel(a, b, i, rest[0], |Wire(ls)|);
    EndedCons(rest);
    Regroup(a[..i], rest[0] + [DOT], Ended(rest[1..]));
  }

  /** The inner loop of `ReadName`: one label moves down by one octet. */
  method ShiftLabel(name: array<byte>, i0: nat) returns (i: nat)
    requires i0 < name.Length && i0 + name[i0] < name.Length
    modifies name
    ensures i == i0 + old(name[i0])
    ensures Shifted(old(name[..]), name[..], i0, i - i0)
  {
    i := i0;
    var p := name[i0];
    var j := 0;
    while j < p
      invariant 0 <= j <= p && i == i0 + j
      invariant forall k :: i0 <= k < i ==> name[k] == old(name[k + 1])
      invariant forall k :: 0 <= k < name.Length && !(i0 <= k < i) ==> name[k] == old(name[k])
    {
      name[i] := name[i + 1];
      i, j := i + 1, j + 1;
    }
    name[i] := DOT;
  }

  ghost predicate CString(a: seq<byte>, e: nat) {
    e < |a| && a[e] == 0 && forall k :: 0 <= k < e ==> a[k] != 0
  }

  lemma {:induction false} ShiftedString(a: seq<byte>, b: seq<byte>, i: nat, n: nat, e: nat)
    requires Shifted(a, b, i, n) && i + n < e && CString(a, e)
    ensures CString(b, e)
  {
  }

  /** One pass of the decoding loop of `ReadName`. */
  method DotOne(name: array<byte>, i: nat, ghost ls: seq<Label>, ghost rest: seq<Label>) returns (i': nat)
    requires Dotting(name[..], ls, i, rest) && rest != [] && CString(name[..], |Wire(ls)| - 1)
    modifies name
    ensures Dotting(name[..], ls, i', rest[1..]) && CString(name[..], |Wire(ls)| - 1)
    ensures i' < |Wire(ls)| - 1 <==> rest[1..] != []
  {
    hide Wire, Dotting, CString, Shifted;
    ghost var a := name[..];
    DottingHead(a, ls, i, rest);
    i' := ShiftLabel(name, i);
    ShiftedString(a, name[..], i, |rest[0]|, |Wire(ls)| - 1);
    DottingStep(a, name[..], ls, i, rest);
    i' := i' + 1;
    DottingAt(name[..], ls, i', rest[1..]);
  }

  /** The decoding loop of `ReadName`, in place. */
  method DotLabels(name: array<byte>, ghost ls: seq<Label>)
    requires ls != [] && Decodable(ls)
    requires |Wire(ls)| <= name.Length && name[..|Wire(ls)|] == Wire(ls)
    modifies name
    ensures name[..|Wire(ls)| - 1] == Dotted(ls) + [0]
  {
    ghost var e, rest := |Wire(ls)| - 1, ls;
    WireIsString(ls);
    assert forall k :: 0 <= k <= e ==> name[k] == name[..e + 1][k];
    DottingStarts(name[..], ls);
    hide Wire, Ended, Dotted, Dotting;
    var i: nat := 0;
    var n := Strlen(name, e);
    while i < n
      invariant Dotting(name[..], ls, i, rest) && n == e && CString(name[..], e)
      invariant i < n <==> rest != []
      decreases |rest|
    {
      i := DotOne(name, i, ls, rest);
      rest := rest[1..];
      n := Strlen(name, e);
    }
    DottingEnds(name[..], ls, i);
    name[i - 1] := 0;
  }

  lemma {:induction false} DottingStarts(a: seq<byte>, ls: seq<Label>)
    requires Decodable(ls) && |Wire(ls)| <= |a| && a[..|Wire(ls)|] == Wire(ls)
    ensures Dotting(a, ls, 0, ls)
    ensures 0 < |Wire(ls)| - 1 <==> ls != []
  {
    assert a[0..|Wire(ls)|] == a[..|Wire(ls)|];
    assert a[..0] + Ended(ls) == Ended(ls);
  }

  lemma {:induction false} DottingAt(a: seq<byte>, ls: seq<Label>, i: nat, rest: seq<Label>)
    requires Dotting(a, ls, i, rest)
    ensures i < |Wire(ls)| - 1 <==> rest != []
  {
  }

  lemma {:induction false} DottingEnds(a: seq<byte>, ls: seq<Label>, i: nat)
    requires ls != [] && Dotting(a, ls, i, [])
    ensures i == |Wire(ls)| - 1 == |Dotted(ls)| + 1 && a[..i] == Dotted(ls) + [DOT]
  {
    EndedIsDotted(ls);
  }

  /** The reading loop of `ReadName`: a pointer sends the reader to the octet
      before its target, and every pass moves it on by one. */
  method FollowOlder(buf: seq<byte>, r0: nat, name: array<byte>, ghost ls: seq<Label>)
    returns (p: nat, count: nat)
    requires Expand(buf, r0, r0) == Labels(ls) && Plain(ls) && |Wire(ls)| <= name.Length
    modifies name
    ensures p + 1 == |Wire(ls)| && name[..p + 1] == Wire(ls)
    ensures count == Span(buf, r0)
  {
    hide Expand, Span, Wire, Plain;
    var r: int, jumped := r0, 0;
    p, count := 0, 1;
    name[0] := 0;
    ghost var c := Cursor(r0, 0, r0, ls);
    ReadingStarts(buf, r0, ls);
    while buf[r] != 0
      invariant c.r == r && p <= name.Length && 0 <= jumped <= 1
      invariant Reading(buf, name[..p], ls, c)
      invariant Counted(buf, r0, c, jumped == 1, count)
      decreases c.seg, |buf| - r
    {
      Pass(buf, name[..p], ls, c);
      CountPass(buf, r0, c, jumped == 1, count);
      if buf[r] >= 192 {
        r := 256 * (buf[r] as int) + buf[r + 1] - 49152 - 1;
        jumped := 1;
      } else {
        name[p] := buf[r];
        assert name[..p + 1] == name[..p] + [buf[r]];
        p := p + 1;
      }
      r := r + 1;
      if jumped == 0 {
        count := count + 1;
      }
      c := Next(buf, c);
    }
    ReadingEnds(buf, name[..p], ls, c);
    name[p] := 0;
    assert name[..p + 1] == name[..p] + [0];
    if jumped == 1 {
      count := count + 1;
    }
    EndSpan(buf, c.r);
  }

  /** `ReadName`, for one label or more. */
  method ReadNameOlder(buf: seq<byte>, r: nat, ghost ls: seq<Label>) returns (name: array<byte>, count: nat)
    requires Expand(buf, r, r) == Labels(ls) && Plain(ls) && ls != [] && |Wire(ls)| <= 256
    ensures fresh(name) && name.Length == 256
    ensures name[..|Wire(ls)| - 1] == Dotted(ls) + [0]
    ensures count == Span(buf, r)
  {
    hide Expand, Span, Wire, Plain, Dotted;
    name := new byte[256];
    var p;
    p, count := FollowOlder(buf, r, name, ls);
    ExpandShort(buf, r, r, ls);
    PlainDecodable(ls);
    DotLabels(name, ls);
  }

  ghost predicate SameString(a: seq<byte>, b: seq<byte>) {
    exists e :: 0 <= e < |a| && e < |b| && a[e] == b[e] == 0 && a[..e] == b[..e]
  }

  /** Both readers return the same string and the same count. */
  method ReadersAgree(buf: seq<byte>, r: nat, name: array<byte>)
    returns (older: array<byte>, count: nat, countOlder: nat)
    requires Expand(buf, r, r).Labels?
    requires var ls := Expand(buf, r, r).labels;
             Plain(ls) && |ls| >= 2 && |Wire(ls)| <= 256 <= name.Length
    modifies name
    ensures fresh(older) && count == countOlder
    ensures SameString(name[..], older[..])
  {
    hide Expand, Span, Wire, Plain, Dotted;
    ghost var ls := Expand(buf, r, r).labels;
    count := ReadName(buf, r, name, ls);
    older, countOlder := ReadNameOlder(buf, r, ls);
    ghost var e := |Wire(ls)| - 2;
    assert name[..e + 1][..e] == name[..e] && older[..e + 1][..e] == older[..e];
    assert name[e] == name[..e + 1][e] && older[e] == older[..e + 1][e];
    assert older[..][e] == 0;
  }
}
