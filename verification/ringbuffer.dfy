/**
 * The fixed-size ring buffer: `N` slots, a read index and a write index.
 * One slot always stays free, so it holds at most `N - 1` elements; the
 * stored elements are the slots from the read index up to, not including,
 * the write index, wrapping at `N`.
 */
module RingBuffers {
  import opened Wrappers

  datatype RingBufferError = BufferFull | BufferEmpty

  /** `buf` holds the `N` slots; `N` is `|buf|`. */
  datatype RingBuffer<T> = RingBuffer(readIdx: nat, writeIdx: nat, buf: seq<T>)

  /** A buffer with at least one slot whose indices point into it. */
  predicate Valid<T>(b: RingBuffer<T>) {
    0 < |b.buf| && b.readIdx < |b.buf| && b.writeIdx < |b.buf|
  }

  /** The index after `i`, wrapping at `n`. */
  function Next(i: nat, n: nat): (j: nat)
    requires i < n
    ensures j < n
    ensures j == if i + 1 < n then i + 1 else 0
  {
    ModSmall(i + 1, n);
    (i + 1) % n
  }

  /** `k % n` for `k` below `2n`, without a division. */
  lemma ModSmall(k: nat, n: nat)
    requires 0 < n && k <= n
    ensures k % n == if k < n then k else 0
  {
  }

  /** The slot `i` places after `from`, wrapping at `n`. */
  function SlotAfter(from: nat, i: nat, n: nat): (j: nat)
    requires from < n && i < n
    ensures j < n
    ensures j == if from + i < n then from + i else from + i - n
  {
    if from + i < n then from + i else from + i - n
  }

  /** The number of stored elements: the distance from the read to the write index. */
  function Count<T>(b: RingBuffer<T>): (c: nat)
    requires Valid(b)
    ensures c < |b.buf|
    ensures SlotAfter(b.readIdx, c, |b.buf|) == b.writeIdx
  {
    if b.readIdx <= b.writeIdx then b.writeIdx - b.readIdx
    else b.writeIdx + |b.buf| - b.readIdx
  }

  /** The stored elements, oldest first. */
  function Contents<T>(b: RingBuffer<T>): (xs: seq<T>)
    requires Valid(b)
    ensures |xs| == Count(b)
  {
    seq(Count(b), i requires 0 <= i < Count(b) => b.buf[SlotAfter(b.readIdx, i, |b.buf|)])
  }

  /** `new`: both indices at 0, every slot holding the default value. */
  function New<T>(n: nat, default: T): (b: RingBuffer<T>)
    requires 0 < n
    ensures Valid(b) && Contents(b) == [] && |b.buf| == n
  {
    RingBuffer(0, 0, seq(n, _ => default))
  }

  /** `is_full`: the slot after the write index is the read index. */
  function IsFull<T>(b: RingBuffer<T>): (r: bool)
    requires Valid(b)
    ensures r <==> |Contents(b)| == |b.buf| - 1
  {
    Next(b.writeIdx, |b.buf|) == b.readIdx
  }

  /** `is_empty`: the indices are equal. */
  function IsEmpty<T>(b: RingBuffer<T>): (r: bool)
    requires Valid(b)
    ensures r <==> Contents(b) == []
  {
    b.writeIdx == b.readIdx
  }

  /** `put`: store `x` at the write index and advance it, unless the buffer is full. */
  function Put<T>(b: RingBuffer<T>, x: T): (res: (RingBuffer<T>, Result<(), RingBufferError>))
    requires Valid(b)
    ensures Valid(res.0) && |res.0.buf| == |b.buf|
    ensures res.1.Err? <==> |Contents(b)| == |b.buf| - 1
    ensures res.1.Err? ==> res.1.error == BufferFull && res.0 == b
    ensures res.1.Ok? ==> Contents(res.0) == Contents(b) + [x]
  {
    if IsFull(b) then (b, Err(BufferFull))
    else
      var b' := RingBuffer(b.readIdx, Next(b.writeIdx, |b.buf|), b.buf[b.writeIdx := x]);
      PutContents(b, x, b');
      (b', Ok(()))
  }

  lemma PutContents<T>(b: RingBuffer<T>, x: T, b': RingBuffer<T>)
    requires Valid(b) && !IsFull(b)
    requires b' == RingBuffer(b.readIdx, Next(b.writeIdx, |b.buf|), b.buf[b.writeIdx := x])
    ensures Valid(b') && Contents(b') == Contents(b) + [x]
  {
    var n := |b.buf|;
    assert Count(b') == Count(b) + 1;
    forall i | 0 <= i < Count(b)
      ensures SlotAfter(b.readIdx, i, n) != b.writeIdx
    {
    }
  }

  /** `get`: take the element at the read index and advance it, unless the buffer is empty. */
  function Get<T>(b: RingBuffer<T>): (res: (RingBuffer<T>, Result<T, RingBufferError>))
    requires Valid(b)
    ensures Valid(res.0) && res.0.buf == b.buf
    ensures res.1.Err? <==> Contents(b) == []
    ensures res.1.Err? ==> res.1.error == BufferEmpty && res.0 == b
    ensures res.1.Ok? ==> Contents(b) == [res.1.value] + Contents(res.0)
  {
    if IsEmpty(b) then (b, Err(BufferEmpty))
    else
      var b' := b.(readIdx := Next(b.readIdx, |b.buf|));
      GetContents(b, b');
      (b', Ok(b.buf[b.readIdx]))
  }

  lemma GetContents<T>(b: RingBuffer<T>, b': RingBuffer<T>)
    requires Valid(b) && !IsEmpty(b)
    requires b' == b.(readIdx := Next(b.readIdx, |b.buf|))
    ensures Valid(b') && Contents(b) == [b.buf[b.readIdx]] + Contents(b')
  {
    var n := |b.buf|;
    assert Count(b') + 1 == Count(b);
    forall i | 0 <= i < Count(b')
      ensures SlotAfter(b'.readIdx, i, n) == SlotAfter(b.readIdx, i + 1, n)
    {
    }
  }

  /** `index`: the slot `idx % N`, whatever it holds. */
  function At<T>(b: RingBuffer<T>, idx: nat): T
    requires Valid(b)
  {
    b.buf[idx % |b.buf|]
  }

  /** Indexing from the read index reaches the stored elements in order. */
  lemma AtReadsContents<T>(b: RingBuffer<T>, i: nat)
    requires Valid(b) && i < Count(b)
    ensures At(b, b.readIdx + i) == Contents(b)[i]
  {
    ModSmall(b.readIdx + i - (if b.readIdx + i < |b.buf| then 0 else |b.buf|), |b.buf|);
    if b.readIdx + i >= |b.buf| {
      ModShift(b.readIdx + i - |b.buf|, |b.buf|);
    }
  }

  lemma ModShift(k: nat, n: nat)
    requires 0 < n && k < n
    ensures (k + n) % n == k
  {
  }

  /**
   * The iterator: from the read index, yield slots until the write index
   * is reached. It yields exactly the stored elements, oldest first, and
   * leaves the buffer as it is.
   */
  method Iter<T>(b: RingBuffer<T>) returns (xs: seq<T>)
    requires Valid(b)
    ensures xs == Contents(b)
  {
    var n := |b.buf|;
    var idx := b.readIdx;
    xs := [];
    while idx != b.writeIdx
      invariant idx < n && |xs| <= Count(b)
      invariant idx == SlotAfter(b.readIdx, |xs|, n)
      invariant xs == Contents(b)[..|xs|]
      decreases Count(b) - |xs|
    {
      if |xs| == Count(b) {
        assert false;
      }
      ModSmall(idx, n);
      ModSmall(idx + 1, n);
      xs := xs + [b.buf[idx % n]];
      idx := (idx + 1) % n;
    }
    assert |xs| == Count(b);
  }

  // ---------------------------------------------------------------------------
  // Sequences of operations

  /** Put every element of `xs` in turn, stopping at the first failure. */
  function PutAll<T>(b: RingBuffer<T>, xs: seq<T>): (res: (RingBuffer<T>, bool))
    requires Valid(b)
    ensures Valid(res.0) && |res.0.buf| == |b.buf|
    decreases |xs|
  {
    if xs == [] then (b, true)
    else
      var (b', r) := Put(b, xs[0]);
      if r.Err? then (b', false) else PutAll(b', xs[1..])
  }

  /** Get `k` elements in turn; `None` if some get fails. */
  function GetAll<T>(b: RingBuffer<T>, k: nat): (res: (RingBuffer<T>, Option<seq<T>>))
    requires Valid(b)
    ensures Valid(res.0)
    decreases k
  {
    if k == 0 then (b, Some([]))
    else
      var (b', r) := Get(b);
      if r.Err? then (b', None)
      else
        var (b'', rest) := GetAll(b', k - 1);
        if rest.None? then (b'', None) else (b'', Some([r.value] + rest.value))
  }

  /** Puts that fit append in order. */
  lemma {:induction false} PutAllAppends<T>(b: RingBuffer<T>, xs: seq<T>)
    requires Valid(b) && |Contents(b)| + |xs| < |b.buf|
    ensures PutAll(b, xs).1 && Contents(PutAll(b, xs).0) == Contents(b) + xs
    decreases |xs|
  {
    if xs != [] {
      var (b', r) := Put(b, xs[0]);
      PutAllAppends(b', xs[1..]);
      assert Contents(b) + [xs[0]] + xs[1..] == Contents(b) + xs;
    }
  }

  /** Gets return the oldest elements in order and leave the rest. */
  lemma {:induction false} GetAllTakes<T>(b: RingBuffer<T>, k: nat)
    requires Valid(b) && k <= |Contents(b)|
    ensures GetAll(b, k).1 == Some(Contents(b)[..k])
    ensures Contents(GetAll(b, k).0) == Contents(b)[k..]
    decreases k
  {
    if k > 0 {
      var (b', r) := Get(b);
      GetAllTakes(b', k - 1);
      assert Contents(b)[..k] == [r.value] + Contents(b')[..k - 1];
    }
  }

  /** FIFO: elements put into a buffer with room come back out in put order. */
  lemma Fifo<T>(b: RingBuffer<T>, xs: seq<T>)
    requires Valid(b) && Contents(b) == [] && |xs| < |b.buf|
    ensures PutAll(b, xs).1
    ensures GetAll(PutAll(b, xs).0, |xs|).1 == Some(xs)
    ensures IsEmpty(GetAll(PutAll(b, xs).0, |xs|).0)
  {
    PutAllAppends(b, xs);
    var b1 := PutAll(b, xs).0;
    assert Contents(b1) == xs;
    GetAllTakes(b1, |xs|);
    assert Contents(b1)[..|xs|] == xs;
  }

  /**
   * Capacity is `N - 1`: a new buffer accepts `N - 1` puts, is then full
   * and not empty, and refuses the next put without changing.
   */
  lemma CapacityIsNMinusOne<T>(n: nat, default: T, xs: seq<T>, y: T)
    requires 0 < n && |xs| == n - 1
    ensures PutAll(New(n, default), xs).1
    ensures var b := PutAll(New(n, default), xs).0;
            IsFull(b) && (n > 1 ==> !IsEmpty(b)) && Put(b, y) == (b, Err(BufferFull))
  {
    PutAllAppends(New(n, default), xs);
  }
}
