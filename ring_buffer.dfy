/**
 * RingBuffer<tElement> (RingBuffer.h): a power-of-two array of elements
 * addressed by an ever-growing write head.  The element written at
 * position p lives in slot p mod capacity until a later write reaches the
 * same slot.
 */
module Ring {
  import opened Bits

  /**
   * log2 of the capacity chosen for a request of `n` elements,
   * g_bit_nth_msf (n, 32) + 1: the smallest k with n < 2^k.
   */
  function CapacityBits(n: nat): (k: nat)
    ensures n < Pow2(k)
    ensures forall j: nat :: n < Pow2(j) ==> k <= j
  {
    HighestSetBitMinimal(n);
    HighestSetBit(n) + 1
  }

  /** One above the highest set bit is the smallest exponent whose power exceeds n. */
  lemma HighestSetBitMinimal(n: nat)
    ensures n < Pow2(HighestSetBit(n) + 1)
    ensures forall j: nat :: n < Pow2(j) ==> HighestSetBit(n) + 1 <= j
  {
    var k := HighestSetBit(n) + 1;
    if n > 0 {
      HighestSetBitBounds(n);
      forall j: nat | n < Pow2(j) ensures k <= j {
        if j < k {
          Pow2Monotone(j, k - 1);
        }
      }
    }
  }

  /** 1 << (g_bit_nth_msf (n, 32) + 1) */
  function Capacity(n: nat): nat
  {
    Pow2(CapacityBits(n))
  }

  /**
   * The capacity is a power of two strictly greater than the request, and
   * the smallest one: an exact power of two is doubled and 0 gives 1.
   */
  lemma CapacityBounds(n: nat)
    ensures n < Capacity(n)
    ensures n == 0 ==> Capacity(n) == 1
    ensures n > 0 ==> Capacity(n) <= 2 * n
  {
    var k := CapacityBits(n);
    if n > 0 {
      assert !(n < Pow2(k - 1));
    }
  }

  /** Requests below 2^30 get a capacity of at most 2^30, which still fits a gint. */
  lemma CapacityBitsBound(n: nat)
    requires n < 0x4000_0000
    ensures CapacityBits(n) <= 30
  {
    Pow2Values();
    assert Pow2(30) == 0x4000_0000;
  }

  /**
   * The contents of `cap` slots that all held `fill` after the elements
   * of `h` have been written in order, element i into slot i mod cap.
   */
  function Slots<T>(fill: T, cap: nat, h: seq<T>): (s: seq<T>)
    requires cap >= 1
    ensures |s| == cap
    decreases |h|
  {
    if h == [] then seq(cap, _ => fill)
    else Slots(fill, cap, h[..|h| - 1])[(|h| - 1) % cap := h[|h| - 1]]
  }

  /** How many positions after `start` the next write into slot `s` happens. */
  function Offset(cap: nat, start: nat, s: nat): (i: nat)
    requires cap >= 1
    ensures i < cap && (start + i) % cap == s % cap
  {
    var i := (s - start) % cap;
    DivModUnique(s - start, cap, (s - start) / cap, i);
    ModShift(start + i, cap, (s - start) / cap);
    i
  }

  /** Adding a multiple of c does not change a residue modulo c. */
  lemma ModShift(a: int, c: int, t: int)
    requires c >= 1
    ensures (a + c * t) % c == a % c
  {
    DivModUnique(a + c * t, c, a / c + t, a % c);
  }

  /** Position start + i lands in slot s exactly when s is i positions after start. */
  lemma OffsetSlot(cap: nat, start: nat, s: nat, i: nat)
    requires cap >= 1 && s < cap && i < cap
    ensures (start + i) % cap == s <==> Offset(cap, start, s) == i
  {
    var o := Offset(cap, start, s);
    DivModUnique(s, cap, 0, s);
    if (start + i) % cap == s {
      SameResidue(start + i, start + o, cap);
    }
  }

  /** Two numbers less than c apart with the same residue modulo c are equal. */
  lemma SameResidue(a: int, b: int, c: int)
    requires c >= 1 && a % c == b % c && -c < a - b < c
    ensures a == b
  {
    assert a == c * (a / c) + a % c;
    assert b == c * (b / c) + b % c;
    assert c * (a / c - b / c) == a - b;
    MulSmall(c, a / c - b / c);
  }

  /**
   * Appending at most `cap` elements to the history: slot s holds the
   * element written Offset(s) positions after the old write head when the
   * write reached it, and keeps its old content otherwise.
   */
  lemma {:induction false} SlotsAppend<T>(fill: T, cap: nat, h: seq<T>, data: seq<T>)
    requires cap >= 1 && |data| <= cap
    ensures forall s :: 0 <= s < cap ==>
      Slots(fill, cap, h + data)[s] ==
        if Offset(cap, |h|, s) < |data| then data[Offset(cap, |h|, s)] else Slots(fill, cap, h)[s]
    decreases |data|
  {
    if data == [] {
      assert h + data == h;
    } else {
      var d := data[..|data| - 1];
      var x := data[|data| - 1];
      SlotsAppend(fill, cap, h, d);
      assert (h + data)[..|h + data| - 1] == h + d;
      forall s | 0 <= s < cap
        ensures Slots(fill, cap, h + data)[s] ==
          if Offset(cap, |h|, s) < |data| then data[Offset(cap, |h|, s)] else Slots(fill, cap, h)[s]
      {
        OffsetSlot(cap, |h|, s, |d|);
      }
    }
  }

  /** One step of an in-place copy that does not wrap: element i goes to slot |h| mod cap + i. */
  lemma SlotsWriteStep<T>(fill: T, cap: nat, h: seq<T>, data: seq<T>, i: nat)
    requires cap >= 1 && i < |data| && |h| % cap + i < cap
    ensures Slots(fill, cap, h + data[..i + 1]) == Slots(fill, cap, h + data[..i])[|h| % cap + i := data[i]]
  {
    var h' := h + data[..i + 1];
    assert h'[..|h'| - 1] == h + data[..i];
    assert |h| == cap * (|h| / cap) + |h| % cap;
    DivModUnique(|h| + i, cap, |h| / cap, |h| % cap + i);
  }

  /** The last `cap` elements written can all be read back from their slots. */
  lemma SlotsRecent<T>(fill: T, cap: nat, h: seq<T>, p: nat)
    requires cap >= 1 && p < |h| <= p + cap
    ensures Slots(fill, cap, h)[p % cap] == h[p]
  {
    var m := if |h| < cap then |h| else cap;
    var start := |h| - m;
    assert h == h[..start] + h[start..];
    SlotsAppend(fill, cap, h[..start], h[start..]);
    OffsetSlot(cap, start, p % cap, p - start);
    assert (start + (p - start)) % cap == p % cap;
  }

  /** After exactly `cap` writes, slot i holds element i. */
  lemma SlotsFull<T>(fill: T, cap: nat, h: seq<T>)
    requires cap >= 1 && |h| == cap
    ensures Slots(fill, cap, h) == h
  {
    forall p | 0 <= p < cap
      ensures Slots(fill, cap, h)[p] == h[p]
    {
      SlotsRecent(fill, cap, h, p);
      DivModUnique(p, cap, 0, p);
    }
  }

  /** Every slot holds either the initial element or an element of the history. */
  lemma {:induction false} SlotsFrom<T>(fill: T, cap: nat, h: seq<T>, s: nat)
    requires cap >= 1 && s < cap
    ensures Slots(fill, cap, h)[s] == fill || Slots(fill, cap, h)[s] in h
    decreases |h|
  {
    if h != [] {
      SlotsFrom(fill, cap, h[..|h| - 1], s);
    }
  }

  /** A slot that no position of the history maps to still holds the initial element. */
  lemma SlotsUnwritten<T>(fill: T, cap: nat, h: seq<T>, s: nat)
    requires cap >= 1 && |h| <= s < cap
    ensures Slots(fill, cap, h)[s] == fill
  {
    SlotsAppend(fill, cap, [], h);
    assert [] + h == h;
    OffsetSlot(cap, 0, s, s);
    DivModUnique(s, cap, 0, s);
  }

  class RingBuffer<T> {
    /** m_buffer */
    const buffer: array<T>
    /** m_writeHead: the number of elements ever written */
    var writeHead: nat
    /** log2 of the capacity */
    ghost const bits: nat
    /** The value-initialised element every slot holds before it is first written. */
    ghost const fill: T
    /** Every element ever written, oldest first. */
    ghost var history: seq<T>

    ghost predicate Valid()
      reads this, buffer
    {
      && bits <= 30
      && buffer.Length == Pow2(bits)
      && writeHead == |history|
      && buffer[..] == Slots(fill, buffer.Length, history)
    }

    /** RingBuffer (numElements): capacity 1 << (g_bit_nth_msf (numElements, 32) + 1), nothing written. */
    constructor (numElements: nat, fill: T)
      requires numElements < 0x4000_0000
      ensures Valid() && fresh(buffer)
      ensures buffer.Length == Capacity(numElements)
      ensures history == [] && this.fill == fill
    {
      var k := CapacityBits(numElements);
      CapacityBitsBound(numElements);
      var size := Pow2(k);
      buffer := new T[size](_ => fill);
      writeHead := 0;
      bits := k;
      this.fill := fill;
      history := [];
      new;
      assert buffer[..] == Slots(fill, size, []);
    }

    /**
     * peek: the slot the read head selects through the mask capacity - 1.
     * Any of the last `capacity` positions written reads back its element.
     */
    function Peek(readHead: nat): (e: T)
      reads this, buffer
      requires Valid()
      ensures e == buffer[readHead % buffer.Length]
      ensures readHead < |history| <= readHead + buffer.Length ==> e == history[readHead]
    {
      AndLowMask(readHead, bits);
      if readHead < writeHead <= readHead + buffer.Length then
        SlotsRecent(fill, buffer.Length, history, readHead);
        buffer[BitAnd(readHead, buffer.Length - 1)]
      else
        buffer[BitAnd(readHead, buffer.Length - 1)]
    }

    /** getWriteHead */
    function GetWriteHead(): (n: nat)
      reads this, buffer
      requires Valid()
      ensures n == |history|
    {
      writeHead
    }

    /**
     * write: copies `data` behind the write head, splitting the copy at
     * the end of the array, and advances the write head by |data|.
     */
    method Write(data: seq<T>)
      requires Valid()
      modifies this, buffer
      ensures Valid()
      ensures history == old(history) + data
      ensures writeHead == old(writeHead) + |data|
      ensures data == [] ==> unchanged(buffer)
      decreases |data|
    {
      if |data| > 0 {
        var writeHeadIdx := BitAnd(writeHead, buffer.Length - 1);
        AndLowMask(writeHead, bits);
        if writeHeadIdx + |data| <= buffer.Length {
          CopyIn(writeHeadIdx, data);
        } else {
          var numFittingElements := buffer.Length - writeHeadIdx;
          Write(data[..numFittingElements]);
          Write(data[numFittingElements..]);
          assert data[..numFittingElements] + data[numFittingElements..] == data;
        }
      }
    }

    /** The copy loop of write, for a write that does not reach the end of the array. */
    method CopyIn(writeHeadIdx: nat, data: seq<T>)
      requires Valid()
      requires writeHeadIdx == writeHead % buffer.Length && writeHeadIdx + |data| <= buffer.Length
      modifies this, buffer
      ensures Valid()
      ensures history == old(history) + data && writeHead == old(writeHead) + |data|
    {
      assert history + data[..0] == history;
      for i := 0 to |data|
        modifies buffer
        invariant buffer[..] == Slots(fill, buffer.Length, history + data[..i])
      {
        SlotsWriteStep(fill, buffer.Length, history, data, i);
        buffer[writeHeadIdx + i] := data[i];
      }
      assert data[..|data|] == data;
      writeHead := writeHead + |data|;
      history := history + data;
    }
  }
}
