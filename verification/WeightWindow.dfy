/** The sliding window of weights (trivial/ring_buffer.c): a ring of slots, and a
    running sum that gains the new weight and loses the one it overwrites. */
module WeightWindow {

  function Sum(ws: seq<int>): int {
    if ws == [] then 0 else Sum(ws[..|ws| - 1]) + ws[|ws| - 1]
  }

  /** The last `length` weights, or all of them while there are fewer. */
  function Last(ws: seq<int>, length: nat): seq<int> {
    if |ws| <= length then ws else ws[|ws| - length..]
  }

  lemma {:induction false} SumDropsFirst(ws: seq<int>)
    requires ws != []
    ensures Sum(ws) == ws[0] + Sum(ws[1..])
    decreases |ws|
  {
    if |ws| > 1 {
      var front := ws[..|ws| - 1];
      SumDropsFirst(front);
      assert front[1..] == ws[1..][..|ws| - 2];
    } else {
      assert ws[..0] == [] && ws[1..] == [];
    }
  }

  /** One more weight slides the window: the new one comes in, and once the
      window is full the oldest one goes out. */
  lemma {:induction false} WindowSlides(ws: seq<int>, w: int, length: nat)
    requires length >= 1
    ensures Sum(Last(ws + [w], length))
         == Sum(Last(ws, length)) + w - (if |ws| < length then 0 else ws[|ws| - length])
  {
    var next := Last(ws + [w], length);
    if |ws| < length {
      assert next[..|ws|] == ws;
    } else {
      var old' := Last(ws, length);
      assert old' + [w] == [ws[|ws| - length]] + next;
      assert (old' + [w])[..length] == old' && ([old'[0]] + next)[1..] == next;
      SumDropsFirst(old' + [w]);
    }
  }

  /** The slots in the order they were filled, when the next one to fill is at
      `size`. */
  function Ring(data: seq<int>, size: nat, full: bool): seq<int>
    requires size <= |data|
  {
    if full then data[size..] + data[..size] else data[..size]
  }

  /** Filling a slot slides the ring. */
  lemma {:induction false} RingSlides(ws: seq<int>, data: seq<int>, size: nat, full: bool, w: int)
    requires size < |data| && (full <==> |ws| >= |data|)
    requires Ring(data, size, full) == Last(ws, |data|)
    ensures full ==> data[size] == ws[|ws| - |data|]
    ensures !full ==> size == |ws|
    ensures var size' := if size + 1 == |data| then 0 else size + 1;
            Ring(data[size := w], size', full || size' == 0) == Last(ws + [w], |data|)
  {
    var data', n := data[size := w], |data|;
    if full {
      assert Ring(data, size, full)[0] == data[size];
      assert Last(ws + [w], n) == Last(ws, n)[1..] + [w];
      assert Ring(data, size, full)[1..] == data[size + 1..] + data[..size];
      assert data'[size + 1..] == data[size + 1..] && data'[..size] == data[..size];
      assert data'[..size + 1] == data[..size] + [w];
    } else {
      assert data'[..size + 1] == ws + [w];
      assert data'[0..] + data'[..0] == data';
    }
  }

  class Window {
    var sum: int
    var full: bool
    var size: nat
    const data: array<int>
    ghost var history: seq<int>

    /** The slots hold the last weights, and sum is their sum. */
    ghost predicate Valid()
      reads this, data
    {
      && size < data.Length && (full <==> |history| >= data.Length)
      && sum == Sum(Last(history, data.Length))
      && Ring(data[..], size, full) == Last(history, data.Length)
    }

    constructor (length: nat)
      requires length >= 1
      ensures Valid() && data.Length == length && fresh(data) && history == []
    {
      sum, full, size, history := 0, false, 0, [];
      data := new int[length];
    }

    /** `ring_buffer_get`: the slot to fill next. */
    method Get() returns (p: nat)
      requires size < data.Length
      modifies `size
      ensures p == old(size)
      ensures size == if p + 1 == data.Length then 0 else p + 1
    {
      p := size;
      size := size + 1;
      if size == data.Length {
        size := 0;
      }
    }

    /** `weight_window_add_weight`. */
    method AddWeight(weight: int)
      requires Valid()
      modifies this, data
      ensures Valid() && history == old(history) + [weight]
    {
      hide Sum, Last, Ring;
      ghost var slots := data[..];
      WindowSlides(history, weight, data.Length);
      RingSlides(history, slots, size, full, weight);
      var p := Get();
      sum := sum + weight;
      if full {
        sum := sum - data[p];
      } else {
        full := size == 0;
      }
      data[p] := weight;
      assert data[..] == slots[p := weight];
      history := history + [weight];
    }

    /** `weight_window_average`: C division truncates towards zero. */
    method Average() returns (a: int)
      requires Valid()
      ensures a == Truncated(Sum(Last(history, data.Length)), data.Length)
    {
      a := Truncated(sum, data.Length);
    }
  }

  /** The quotient of C: the remainder is smaller than b and has the sign of a. */
  function Truncated(a: int, b: nat): (q: int)
    requires b >= 1
    ensures a >= 0 ==> 0 <= a - q * b < b
    ensures a <= 0 ==> 0 <= q * b - a < b
  {
    if a >= 0 then a / b else -(-a / b)
  }
}
