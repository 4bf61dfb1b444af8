/** The block pool `sun::Pool` of socket/collector.h: N blocks carved from one
    allocation, handed out from a stack, with the general allocator behind it. */
module Pool {
  import opened Tally

  const ADDRESS_SIZE: nat := 8

  /** Rounding a block size up to the pointer size, as the constructor does:
      masking with the pointer size less one takes the remainder. */
  function RoundUp(block: nat): (size: nat)
  {
    if block % ADDRESS_SIZE != 0 then block - block % ADDRESS_SIZE + ADDRESS_SIZE else block
  }

  /** The rounded size is the least multiple of the pointer size not below the
      block size, and positive unless that is zero. */
  lemma RoundUpLeast(block: nat, other: nat)
    ensures RoundUp(block) % ADDRESS_SIZE == 0 && block <= RoundUp(block)
    ensures other % ADDRESS_SIZE == 0 && block <= other ==> RoundUp(block) <= other
    ensures block > 0 ==> RoundUp(block) > 0
  {
    var q := block / ADDRESS_SIZE;
    assert block == ADDRESS_SIZE * q + block % ADDRESS_SIZE;
    assert block % ADDRESS_SIZE != 0 ==> RoundUp(block) == ADDRESS_SIZE * (q + 1);
    if other % ADDRESS_SIZE == 0 && block <= other {
      assert other == ADDRESS_SIZE * (other / ADDRESS_SIZE);
    }
  }

  /** A block in use: where it is, and whether it came from the pool. */
  datatype Block = Block(addr: int, pooled: bool)

  datatype State = State(data: int, n: nat, size: nat, stack: seq<int>, live: seq<Block>)

  datatype Step = Acquire(elsewhere: int) | Release(k: nat)

  function Slot(s: State, i: nat): int {
    s.data + i * s.size
  }

  function Init(data: int, n: nat, size: nat): State {
    State(data, n, size, seq(n, i requires 0 <= i => data + i * size), [])
  }

  predicate Apart(a: int, b: int, size: nat) {
    a + size <= b || b + size <= a
  }

  /** What `malloc` promises of a fresh block: it overlaps neither the pool's own
      allocation nor another block in use. */
  predicate FreshBlock(s: State, addr: int) {
    && (addr + s.size <= s.data || s.data + s.n * s.size <= addr)
    && (forall b :: b in s.live ==> Apart(addr, b.addr, s.size))
  }

  predicate Enabled(s: State, step: Step) {
    match step
    case Acquire(elsewhere) => s.stack == [] ==> FreshBlock(s, elsewhere)
    case Release(k) => k < |s.live|
  }

  function Apply(s: State, step: Step): State
    requires Enabled(s, step)
  {
    match step
    case Acquire(elsewhere) =>
      if s.stack != [] then
        s.(stack := s.stack[..|s.stack| - 1], live := s.live + [Block(s.stack[|s.stack| - 1], true)])
      else
        s.(live := s.live + [Block(elsewhere, false)])
    case Release(k) =>
      s.(stack := if s.live[k].pooled then s.stack + [s.live[k].addr] else s.stack,
         live := s.live[..k] + s.live[k + 1..])
  }

  predicate ValidRun(s: State, steps: seq<Step>)
    decreases |steps|
  {
    steps != [] ==> Enabled(s, steps[0]) && ValidRun(Apply(s, steps[0]), steps[1..])
  }

  function Exec(s: State, steps: seq<Step>): State
    requires ValidRun(s, steps)
    decreases |steps|
  {
    if steps == [] then s else Exec(Apply(s, steps[0]), steps[1..])
  }

  /* ---- invariants ---- */

  /** The addresses of the pool blocks in use. */
  function Lent(live: seq<Block>): seq<int> {
    if live == [] then []
    else
      var rest, b := Lent(live[..|live| - 1]), live[|live| - 1];
      if b.pooled then rest + [b.addr] else rest
  }

  function Places(s: State, addr: int): nat {
    Times(s.stack, addr) + Times(Lent(s.live), addr)
  }

  predicate IsSlot(s: State, addr: int) {
    exists i :: 0 <= i < s.n && addr == Slot(s, i)
  }

  /** Every slot of the pool is free or lent, exactly one of them; nothing else is. */
  ghost predicate Partition(s: State) {
    forall addr: int {:trigger Places(s, addr)} :: Places(s, addr) == if IsSlot(s, addr) then 1 else 0
  }

  /** Blocks taken from elsewhere lie outside the pool. */
  predicate Outside(s: State) {
    forall b :: b in s.live && !b.pooled ==> b.addr + s.size <= s.data || s.data + s.n * s.size <= b.addr
  }

  predicate NoOverlap(s: State) {
    forall i, j :: 0 <= i < j < |s.live| ==> Apart(s.live[i].addr, s.live[j].addr, s.size)
  }

  ghost predicate Inv(s: State) {
    s.size > 0 && Partition(s) && Outside(s) && NoOverlap(s)
  }

  lemma LentPush(live: seq<Block>, b: Block)
    ensures Lent(live + [b]) == if b.pooled then Lent(live) + [b.addr] else Lent(live)
  {
    assert (live + [b])[..|live|] == live;
  }

  lemma {:induction false} LentConcat(a: seq<Block>, b: seq<Block>)
    ensures Lent(a + b) == Lent(a) + Lent(b)
    decreases |b|
  {
    if b == [] {
      assert a + b == a;
    } else {
      assert (a + b)[..|a + b| - 1] == a + b[..|b| - 1];
      LentConcat(a, b[..|b| - 1]);
    }
  }

  lemma LentWithout(live: seq<Block>, k: nat, addr: int)
    requires k < |live|
    ensures Times(Lent(live), addr) ==
            Times(Lent(live[..k] + live[k + 1..]), addr) + if live[k].pooled && live[k].addr == addr then 1 else 0
  {
    assert live == live[..k] + [live[k]] + live[k + 1..];
    LentConcat(live[..k] + [live[k]], live[k + 1..]);
    LentPush(live[..k], live[k]);
    LentConcat(live[..k], live[k + 1..]);
    TimesConcat(Lent(live[..k] + [live[k]]), Lent(live[k + 1..]), addr);
    TimesConcat(Lent(live[..k]), Lent(live[k + 1..]), addr);
    TimesPush(Lent(live[..k]), live[k].addr, addr);
  }

  lemma PlacesKept(s: State, step: Step, addr: int)
    requires Enabled(s, step)
    ensures Places(Apply(s, step), addr) == Places(s, addr)
  {
    if step.Release? {
      LentWithout(s.live, step.k, addr);
      TimesPush(s.stack, s.live[step.k].addr, addr);
    } else if s.stack != [] {
      var top := s.stack[|s.stack| - 1];
      LentPush(s.live, Block(top, true));
      TimesPush(Lent(s.live), top, addr);
    } else {
      LentPush(s.live, Block(step.elsewhere, false));
    }
  }

  lemma PartitionKept(s: State, step: Step)
    requires Enabled(s, step) && Partition(s)
    ensures Partition(Apply(s, step))
  {
    var s' := Apply(s, step);
    forall addr: int ensures Places(s', addr) == if IsSlot(s', addr) then 1 else 0 {
      PlacesKept(s, step, addr);
      assert Places(s, addr) == if IsSlot(s, addr) then 1 else 0;
      assert IsSlot(s', addr) <==> IsSlot(s, addr) by {
        assert forall i: nat :: Slot(s', i) == Slot(s, i);
      }
    }
  }

  lemma Stride(i: nat, j: nat, size: nat)
    requires i < j
    ensures i * size + size <= j * size
  {
    if i + 1 < j {
      Stride(i, j - 1, size);
    }
    assert j * size == (j - 1) * size + size;
  }

  lemma SlotsApart(s: State, a: int, b: int)
    requires IsSlot(s, a) && IsSlot(s, b) && a != b
    ensures Apart(a, b, s.size)
  {
    var i :| 0 <= i < s.n && a == Slot(s, i);
    var j :| 0 <= j < s.n && b == Slot(s, j);
    if i < j { Stride(i, j, s.size); } else { Stride(j, i, s.size); }
  }

  lemma SlotInside(s: State, a: int)
    requires IsSlot(s, a)
    ensures s.data <= a && a + s.size <= s.data + s.n * s.size
  {
    var i :| 0 <= i < s.n && a == Slot(s, i);
    Stride(i, s.n, s.size);
  }

  /** A block just taken from the stack lies apart from every block in use. */
  lemma TakenApart(s: State, b: Block)
    requires Inv(s) && s.stack != [] && b in s.live
    ensures Apart(b.addr, s.stack[|s.stack| - 1], s.size)
  {
    var top := s.stack[|s.stack| - 1];
    TimesMember(s.stack, top);
    assert Places(s, top) == 1;
    SlotInside(s, top);
    if b.pooled {
      var k :| 0 <= k < |s.live| && s.live[k] == b;
      LentWithout(s.live, k, b.addr);
      assert Places(s, b.addr) == 1;
      SlotsApart(s, b.addr, top);
    }
  }

  lemma InvKept(s: State, step: Step)
    requires Enabled(s, step) && Inv(s)
    ensures Inv(Apply(s, step))
  {
    var s' := Apply(s, step);
    PartitionKept(s, step);
    if step.Acquire? && s.stack != [] {
      forall b | b in s.live ensures Apart(b.addr, s.stack[|s.stack| - 1], s.size) { TakenApart(s, b); }
    }
    assert step.Release? ==> forall b :: b in s'.live ==> b in s.live;
    assert step.Acquire? ==> forall b :: b in s'.live ==> b in s.live || b == s'.live[|s.live|];
  }

  lemma {:induction false} InvHolds(s: State, steps: seq<Step>)
    requires Inv(s) && ValidRun(s, steps)
    ensures Inv(Exec(s, steps))
    decreases |steps|
  {
    if steps != [] {
      InvKept(s, steps[0]);
      InvHolds(Apply(s, steps[0]), steps[1..]);
    }
  }

  lemma InitInv(data: int, n: nat, size: nat)
    requires size > 0
    ensures Inv(Init(data, n, size))
  {
    var s := Init(data, n, size);
    forall addr: int ensures Places(s, addr) == if IsSlot(s, addr) then 1 else 0 {
      TimesMember(s.stack, addr);
      if addr in s.stack {
        var i :| 0 <= i < |s.stack| && s.stack[i] == addr;
        assert addr == Slot(s, i);
      }
      if IsSlot(s, addr) {
        var i :| 0 <= i < n && addr == Slot(s, i);
        assert s.stack[i] == addr;
        InitTimes(s.stack, data, size, addr);
      }
    }
  }

  lemma {:induction false} InitTimes(stack: seq<int>, data: int, size: nat, addr: int)
    requires size > 0 && forall i :: 0 <= i < |stack| ==> stack[i] == data + i * size
    ensures Times(stack, addr) <= 1
    decreases |stack|
  {
    if stack != [] {
      var m := |stack| - 1;
      InitTimes(stack[..m], data, size, addr);
      TimesMember(stack[..m], stack[m]);
      forall i | 0 <= i < m ensures stack[..m][i] != stack[m] {
        Stride(i, m, size);
      }
    }
  }

  /** After every sequence of acquires and releases of blocks of at least one
      byte, the free stack and the pool blocks in use partition the N slots, no
      two blocks in use overlap, and nothing from elsewhere is on the stack. */
  lemma PoolSound(data: int, n: nat, block: nat, steps: seq<Step>, addr: int)
    requires block >= 1 && ValidRun(Init(data, n, RoundUp(block)), steps)
    ensures var s := Exec(Init(data, n, RoundUp(block)), steps);
            && Times(s.stack, addr) + Times(Lent(s.live), addr) == (if IsSlot(s, addr) then 1 else 0)
            && NoOverlap(s)
            && (addr in s.stack ==> IsSlot(s, addr))
  {
    RoundUpLeast(block, block);
    InitInv(data, n, RoundUp(block));
    InvHolds(Init(data, n, RoundUp(block)), steps);
    var s := Exec(Init(data, n, RoundUp(block)), steps);
    assert Places(s, addr) == if IsSlot(s, addr) then 1 else 0;
    TimesMember(s.stack, addr);
  }

  /* ---- the object ---- */

  /** Free and lent slots together are as many as the pool has. */
  ghost predicate Sized(s: State) {
    |s.stack| + |Lent(s.live)| == s.n
  }

  lemma {:induction false} LentShrinks(live: seq<Block>, k: nat)
    requires k < |live|
    ensures |Lent(live)| == |Lent(live[..k] + live[k + 1..])| + if live[k].pooled then 1 else 0
  {
    var b := live[k];
    assert live == live[..k] + [b] + live[k + 1..];
    LentConcat(live[..k] + [b], live[k + 1..]);
    LentPush(live[..k], b);
    LentConcat(live[..k], live[k + 1..]);
  }

  lemma SizedKept(s: State, step: Step)
    requires Enabled(s, step) && Sized(s)
    ensures Sized(Apply(s, step)) && Apply(s, step).n == s.n
  {
    hide Lent;
    if step.Release? {
      LentShrinks(s.live, step.k);
    } else if s.stack != [] {
      LentPush(s.live, Block(s.stack[|s.stack| - 1], true));
    } else {
      LentPush(s.live, Block(step.elsewhere, false));
    }
  }

  lemma {:induction false} SizedHolds(s: State, steps: seq<Step>)
    requires Sized(s) && ValidRun(s, steps)
    ensures Sized(Exec(s, steps)) && Exec(s, steps).n == s.n
    decreases |steps|
  {
    hide Enabled, Apply, Sized;
    if steps != [] {
      SizedKept(s, steps[0]);
      SizedHolds(Apply(s, steps[0]), steps[1..]);
    }
  }

  /** An acquisition adds one block to those in use: a slot of the pool exactly if
      fewer than N are lent, and the block from elsewhere otherwise. */
  lemma AcquireExactly(data: int, n: nat, block: nat, steps: seq<Step>, elsewhere: int)
    requires block >= 1 && ValidRun(Init(data, n, RoundUp(block)), steps)
    requires Enabled(Exec(Init(data, n, RoundUp(block)), steps), Acquire(elsewhere))
    ensures var s := Exec(Init(data, n, RoundUp(block)), steps); var s' := Apply(s, Acquire(elsewhere));
            && |s'.live| == |s.live| + 1 && s'.live[..|s.live|] == s.live
            && (var b := s'.live[|s.live|];
                if |Lent(s.live)| < n then b.pooled && IsSlot(s, b.addr) else b == Block(elsewhere, false))
  {
    var s0 := Init(data, n, RoundUp(block));
    RoundUpLeast(block, 0);
    InitInv(data, n, RoundUp(block));
    InvHolds(s0, steps);
    SizedHolds(s0, steps);
    hide Exec, ValidRun, Lent;
    var s := Exec(s0, steps);
    if s.stack != [] {
      var top := s.stack[|s.stack| - 1];
      TimesMember(s.stack, top);
      assert Places(s, top) == if IsSlot(s, top) then 1 else 0;
    }
  }

  /** A release takes that block, and no other, out of use; a slot given back is
      the next one to be handed out. */
  lemma ReleaseExactly(s: State, k: nat, elsewhere: int)
    requires k < |s.live|
    ensures var s' := Apply(s, Release(k));
            && |s'.live| == |s.live| - 1
            && (forall i :: 0 <= i < |s'.live| ==> s'.live[i] == s.live[if i < k then i else i + 1])
            && (!s.live[k].pooled ==> s'.stack == s.stack)
            && (s.live[k].pooled ==>
                  && Enabled(s', Acquire(elsewhere))
                  && Apply(s', Acquire(elsewhere)).live == s'.live + [s.live[k]]
                  && Apply(s', Acquire(elsewhere)).stack == s.stack)
  {
    var s' := Apply(s, Release(k));
    if s.live[k].pooled {
      assert s'.stack[..|s.stack|] == s.stack;
    }
  }

  class BlockPool {
    const data: int
    const n: nat
    const size: nat
    var stack: seq<int>
    ghost var live: seq<Block>

    ghost function Abs(): State
      reads this
    {
      State(data, n, size, stack, live)
    }

    constructor (data: int, n: nat, block: nat)
      ensures Abs() == Init(data, n, RoundUp(block))
    {
      this.data, this.n, this.size := data, n, RoundUp(block);
      stack, live := [], [];
      new;
      for i := 0 to n
        invariant |stack| == i && live == []
        invariant forall k :: 0 <= k < i ==> stack[k] == data + k * size
      {
        stack := stack + [data + i * size];
      }
    }

    method AcquireBlock(elsewhere: int) returns (b: Block)
      requires Enabled(Abs(), Acquire(elsewhere))
      modifies this
      ensures Abs() == Apply(old(Abs()), Acquire(elsewhere))
      ensures b == live[|live| - 1]
    {
      if stack != [] {
        b := Block(stack[|stack| - 1], true);
        stack := stack[..|stack| - 1];
      } else {
        b := Block(elsewhere, false);
      }
      live := live + [b];
    }

    method ReleaseBlock(b: Block, ghost k: nat)
      requires k < |live| && live[k] == b
      modifies this
      ensures Abs() == Apply(old(Abs()), Release(k))
    {
      if b.pooled {
        stack := stack + [b.addr];
      }
      live := live[..k] + live[k + 1..];
    }
  }
}
