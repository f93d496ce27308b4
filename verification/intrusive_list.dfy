/**
 * The intrusive doubly linked list: the list holds only the head, the tail
 * and a length; each node carries its own `next` and `prev` links. Nodes are
 * numbers and the links of every node live in a heap map (a node without an
 * entry is unlinked). The list is well formed when it represents a sequence
 * of distinct nodes: head and tail are its ends and each node links to its
 * neighbours in the sequence. A failed `assert`, a failed `debug_assert` and
 * a `len -= 1` below zero all panic.
 */
module IntrusiveLists {
  import opened Wrappers

  type Node = nat

  datatype Links = Links(next: Option<Node>, prev: Option<Node>)

  const UNLINKED := Links(Option.None, Option.None)

  type Heap = map<Node, Links>

  datatype List = List(head: Option<Node>, tail: Option<Node>, len: nat)

  /** A panic, or the list and heap afterwards and the node handed back, if any. */
  datatype Outcome = Panicked | Done(list: List, heap: Heap, item: Option<Node>)

  function LinksOf(h: Heap, n: Node): Links {
    if n in h then h[n] else UNLINKED
  }

  function SetNext(h: Heap, n: Node, v: Option<Node>): Heap {
    h[n := LinksOf(h, n).(next := v)]
  }

  function SetPrev(h: Heap, n: Node, v: Option<Node>): Heap {
    h[n := LinksOf(h, n).(prev := v)]
  }

  predicate Distinct(xs: seq<Node>) {
    forall i, j :: 0 <= i < j < |xs| ==> xs[i] != xs[j]
  }

  function First(xs: seq<Node>): Option<Node> {
    if xs == [] then Option.None else Some(xs[0])
  }

  function Last(xs: seq<Node>): Option<Node> {
    if xs == [] then Option.None else Some(xs[|xs| - 1])
  }

  /** The links node `xs[i]` has in a well-formed list of the nodes `xs`. */
  function Expected(xs: seq<Node>, i: nat): Links
    requires i < |xs|
  {
    Links(if i + 1 < |xs| then Some(xs[i + 1]) else Option.None,
          if i > 0 then Some(xs[i - 1]) else Option.None)
  }

  /** `l` in heap `h` is the list of the distinct nodes `xs`, head first. */
  ghost predicate Represents(l: List, h: Heap, xs: seq<Node>) {
    l.len == |xs| && Distinct(xs)
    && l.head == First(xs) && l.tail == Last(xs)
    && forall i :: 0 <= i < |xs| ==> LinksOf(h, xs[i]) == Expected(xs, i)
  }

  /** `new`: no head, no tail, length 0. */
  function New(): (l: List)
    ensures forall h: Heap :: Represents(l, h, [])
  {
    List(Option.None, Option.None, 0)
  }

  // ---------------------------------------------------------------------------
  // Pushing

  /** `push_back`: asserts `x` is not the tail, then links it after the tail. */
  function PushBack(l: List, h: Heap, x: Node): (o: Outcome)
    ensures o.Panicked? <==> l.tail == Some(x)
    ensures o.Done? ==> o.list.len == l.len + 1 && o.list.tail == Some(x) && o.item.None?
  {
    if l.tail == Some(x) then Panicked
    else
      var h1 := h[x := Links(Option.None, l.tail)];
      var h2 := if l.tail.Some? then SetNext(h1, l.tail.value, Some(x)) else h1;
      Done(List(if l.head.None? then Some(x) else l.head, Some(x), l.len + 1), h2, Option.None)
  }

  /**
   * Pushing a node that is not in the list appends it: the result represents
   * `xs + [x]` and no other node's links change. Pushing the current tail
   * panics.
   */
  lemma PushBackSpec(l: List, h: Heap, xs: seq<Node>, x: Node)
    requires Represents(l, h, xs) && x !in xs
    ensures PushBack(l, h, x).Done?
    ensures Represents(PushBack(l, h, x).list, PushBack(l, h, x).heap, xs + [x])
    ensures forall n: Node :: n !in xs && n != x ==> LinksOf(PushBack(l, h, x).heap, n) == LinksOf(h, n)
  {
    var o := PushBack(l, h, x);
    var ys := xs + [x];
    var n := |xs|;
    forall i | 0 <= i < |ys|
      ensures LinksOf(o.heap, ys[i]) == Expected(ys, i)
    {
      if i == n {
        assert ys[i] == x;
        if n > 0 {
          assert ys[i - 1] == xs[n - 1];
        }
      } else {
        assert ys[i] == xs[i] && ys[i] != x;
        assert LinksOf(h, xs[i]) == Expected(xs, i);
        if i + 1 < n {
          assert xs[i] != xs[n - 1];
          assert ys[i + 1] == xs[i + 1];
        }
        if i > 0 {
          assert ys[i - 1] == xs[i - 1];
        }
      }
    }
  }

  /** `push_front`: asserts `x` is not the head, then links it before the head. */
  function PushFront(l: List, h: Heap, x: Node): (o: Outcome)
    ensures o.Panicked? <==> l.head == Some(x)
    ensures o.Done? ==> o.list.len == l.len + 1 && o.list.head == Some(x) && o.item.None?
  {
    if l.head == Some(x) then Panicked
    else
      var h1 := h[x := Links(l.head, Option.None)];
      var h2 := if l.head.Some? then SetPrev(h1, l.head.value, Some(x)) else h1;
      Done(List(Some(x), if l.tail.None? then Some(x) else l.tail, l.len + 1), h2, Option.None)
  }

  /** Pushing a node that is not in the list at the front prepends it; no other node's links change. */
  lemma PushFrontSpec(l: List, h: Heap, xs: seq<Node>, x: Node)
    requires Represents(l, h, xs) && x !in xs
    ensures PushFront(l, h, x).Done?
    ensures Represents(PushFront(l, h, x).list, PushFront(l, h, x).heap, [x] + xs)
    ensures forall n: Node :: n !in xs && n != x ==> LinksOf(PushFront(l, h, x).heap, n) == LinksOf(h, n)
  {
    var o := PushFront(l, h, x);
    var ys := [x] + xs;
    forall i | 0 <= i < |ys|
      ensures LinksOf(o.heap, ys[i]) == Expected(ys, i)
    {
      if i == 0 {
        assert ys[i] == x;
        if xs != [] {
          assert ys[1] == xs[0];
        }
      } else {
        assert ys[i] == xs[i - 1] && ys[i] != x;
        assert LinksOf(h, xs[i - 1]) == Expected(xs, i - 1);
        if i > 1 {
          assert xs[i - 1] != xs[0];
          assert ys[i - 1] == xs[i - 2];
        }
        if i + 1 < |ys| {
          assert ys[i + 1] == xs[i];
        }
      }
    }
  }

  // ---------------------------------------------------------------------------
  // Popping

  /**
   * `pop_back`: nothing on an empty list; otherwise the tail's `prev`
   * becomes the tail (or the list empties), and the old tail is unlinked
   * and handed back. The tail having a `next` link fails a `debug_assert`.
   */
  function PopBack(l: List, h: Heap): (o: Outcome)
    ensures l.tail.None? ==> o == Done(l, h, Option.None)
    ensures o.Done? && o.item.Some? ==> o.item == l.tail && o.list.len + 1 == l.len
                                        && LinksOf(o.heap, o.item.value) == UNLINKED
  {
    match l.tail
    case None => Done(l, h, Option.None)
    case Some(t) =>
      if l.len == 0 then Panicked
      else
        var tl := LinksOf(h, t);
        if tl.next.Some? then Panicked
        else
          var h1 := if tl.prev.Some? then SetNext(h, tl.prev.value, Option.None) else h;
          var head := if tl.prev.Some? then l.head else Option.None;
          Done(List(head, tl.prev, l.len - 1), h1[t := UNLINKED], Some(t))
  }

  /**
   * On a well-formed list `pop_back` never panics: an empty list is left
   * as it is and nothing is returned; otherwise the last node comes back
   * unlinked and the rest is the list.
   */
  lemma PopBackSpec(l: List, h: Heap, xs: seq<Node>)
    requires Represents(l, h, xs)
    ensures var o := PopBack(l, h);
            o.Done?
            && (xs == [] ==> o == Done(l, h, Option.None))
            && (xs != [] ==>
                  o.item == Some(xs[|xs| - 1])
                  && Represents(o.list, o.heap, xs[..|xs| - 1])
                  && LinksOf(o.heap, xs[|xs| - 1]) == UNLINKED)
  {
    if xs != [] {
      var o := PopBack(l, h);
      var n := |xs|;
      var t := xs[n - 1];
      assert LinksOf(h, t) == Expected(xs, n - 1);
      var ys := xs[..n - 1];
      forall i | 0 <= i < |ys|
        ensures LinksOf(o.heap, ys[i]) == Expected(ys, i)
      {
        assert ys[i] == xs[i] && xs[i] != t;
        assert LinksOf(h, xs[i]) == Expected(xs, i);
        if i + 1 < |ys| {
          assert xs[i] != xs[n - 2];
        }
      }
    }
  }

  /** `pop_front`: the mirror of `pop_back` at the head. */
  function PopFront(l: List, h: Heap): (o: Outcome)
    ensures l.head.None? ==> o == Done(l, h, Option.None)
    ensures o.Done? && o.item.Some? ==> o.item == l.head && o.list.len + 1 == l.len
                                        && LinksOf(o.heap, o.item.value) == UNLINKED
  {
    match l.head
    case None => Done(l, h, Option.None)
    case Some(hd) =>
      if l.len == 0 then Panicked
      else
        var hl := LinksOf(h, hd);
        var h1 := if hl.next.Some? then SetPrev(h, hl.next.value, Option.None) else h;
        var tail := if hl.next.Some? then l.tail else Option.None;
        Done(List(hl.next, tail, l.len - 1), h1[hd := UNLINKED], Some(hd))
  }

  /**
   * On a well-formed list `pop_front` never panics: an empty list is left
   * as it is; otherwise the first node comes back unlinked, the rest is the
   * list, and no other node's links change.
   */
  lemma PopFrontSpec(l: List, h: Heap, xs: seq<Node>)
    requires Represents(l, h, xs)
    ensures var o := PopFront(l, h);
            o.Done?
            && (xs == [] ==> o == Done(l, h, Option.None))
            && (xs != [] ==>
                  o.item == Some(xs[0])
                  && Represents(o.list, o.heap, xs[1..])
                  && LinksOf(o.heap, xs[0]) == UNLINKED)
  {
    if xs != [] {
      var o := PopFront(l, h);
      var hd := xs[0];
      assert LinksOf(h, hd) == Expected(xs, 0);
      var ys := xs[1..];
      forall i | 0 <= i < |ys|
        ensures LinksOf(o.heap, ys[i]) == Expected(ys, i)
      {
        assert ys[i] == xs[i + 1] && xs[i + 1] != hd;
        assert LinksOf(h, xs[i + 1]) == Expected(xs, i + 1);
        if i > 0 {
          assert xs[i + 1] != xs[1];
        }
      }
    }
  }

  /** Popping from either end changes the links of no node outside the list. */
  lemma PopFrame(l: List, h: Heap, xs: seq<Node>)
    requires Represents(l, h, xs)
    ensures forall n: Node :: n !in xs ==> LinksOf(PopFront(l, h).heap, n) == LinksOf(h, n)
    ensures forall n: Node :: n !in xs ==> LinksOf(PopBack(l, h).heap, n) == LinksOf(h, n)
  {
    if xs != [] {
      assert LinksOf(h, xs[0]) == Expected(xs, 0);
      assert LinksOf(h, xs[|xs| - 1]) == Expected(xs, |xs| - 1);
      if |xs| > 1 {
        assert xs[1] in xs && xs[|xs| - 2] in xs;
      }
    }
  }

  // ---------------------------------------------------------------------------
  // Queries

  /** `front` */
  function Front(l: List): Option<Node> {
    l.head
  }

  /** `back` */
  function Back(l: List): Option<Node> {
    l.tail
  }

  /** `is_empty`: the head is absent. */
  function IsEmpty(l: List): bool {
    l.head.None?
  }

  /** `len` */
  function Len(l: List): nat {
    l.len
  }

  /**
   * On a well-formed list front and back are the first and last node,
   * `is_empty` holds exactly when there are no nodes, which is exactly when
   * `len` is 0, and with one node front and back are the same node.
   */
  lemma QueriesSpec(l: List, h: Heap, xs: seq<Node>)
    requires Represents(l, h, xs)
    ensures Front(l) == First(xs) && Back(l) == Last(xs)
    ensures IsEmpty(l) <==> xs == []
    ensures IsEmpty(l) <==> Len(l) == 0
    ensures Len(l) == |xs|
    ensures Len(l) == 1 ==> Front(l) == Back(l) && Front(l).Some?
  {
  }

  /**
   * What the iterator yields: from `cur`, at most `n` nodes, following
   * `next` links and stopping early at a missing link.
   */
  function Walk(h: Heap, cur: Option<Node>, n: nat): (xs: seq<Node>)
    ensures |xs| <= n
    decreases n
  {
    if n == 0 then []
    else match cur
      case None => []
      case Some(c) => [c] + Walk(h, LinksOf(h, c).next, n - 1)
  }

  /** `iter`: from the head, `len` nodes. */
  function Iter(l: List, h: Heap): seq<Node> {
    Walk(h, l.head, l.len)
  }

  /** Walking a well-formed list from its `i`-th node yields the rest of it. */
  lemma WalkFrom(l: List, h: Heap, xs: seq<Node>, i: nat)
    requires Represents(l, h, xs) && i <= |xs|
    ensures Walk(h, if i < |xs| then Some(xs[i]) else Option.None, |xs| - i) == xs[i..]
  {
    WalkLinked(h, xs, i);
  }

  /** `WalkFrom`, knowing only that every node links to its neighbours. */
  lemma {:induction false} WalkLinked(h: Heap, xs: seq<Node>, i: nat)
    requires i <= |xs|
    requires forall k :: 0 <= k < |xs| ==> LinksOf(h, xs[k]) == Expected(xs, k)
    ensures Walk(h, if i < |xs| then Some(xs[i]) else Option.None, |xs| - i) == xs[i..]
    decreases |xs| - i
  {
    if i < |xs| {
      var next := if i + 1 < |xs| then Some(xs[i + 1]) else Option.None;
      assert LinksOf(h, xs[i]).next == next by {
        assert LinksOf(h, xs[i]) == Expected(xs, i);
      }
      WalkLinked(h, xs, i + 1);
      assert xs[i..] == [xs[i]] + xs[i + 1..];
    }
  }

  /** The iterator yields the list's nodes, head first. */
  lemma IterSpec(l: List, h: Heap, xs: seq<Node>)
    requires Represents(l, h, xs)
    ensures Iter(l, h) == xs
  {
    WalkFrom(l, h, xs, 0);
  }

  /** `contains`: walks the list comparing each node with `x`. */
  method Contains(l: List, h: Heap, x: Node) returns (r: bool)
    ensures r <==> x in Iter(l, h)
  {
    var cur := l.head;
    var n := l.len;
    var seen: seq<Node> := [];
    while n > 0
      invariant Iter(l, h) == seen + Walk(h, cur, n)
      invariant x !in seen
      decreases n
    {
      if cur.None? {
        assert Walk(h, cur, n) == [];
        return false;
      }
      var c := cur.value;
      assert Walk(h, cur, n) == [c] + Walk(h, LinksOf(h, c).next, n - 1);
      if c == x {
        return true;
      }
      seen := seen + [c];
      cur := LinksOf(h, c).next;
      n := n - 1;
    }
    assert Iter(l, h) == seen;
    return false;
  }

  /** `contains` on a well-formed list: membership. */
  lemma ContainsSpec(l: List, h: Heap, xs: seq<Node>, x: Node)
    requires Represents(l, h, xs)
    ensures x in Iter(l, h) <==> x in xs
  {
    IterSpec(l, h, xs);
  }

  // ---------------------------------------------------------------------------
  // Removing

  /**
   * The unsafe `remove`: clear `x`'s links, then splice its neighbours
   * together. A missing `prev` on a node that is not the head, or a missing
   * `next` on a node that is not the tail, returns nothing (with the links
   * already changed); a node linked to itself fails an `assert`, and so
   * does `len -= 1` on a zero length.
   */
  function Remove(l: List, h: Heap, x: Node): (o: Outcome)
    ensures o.Done? && o.item.Some? ==> o.item == Some(x) && o.list.len + 1 == l.len
    ensures var prev := LinksOf(h, x).prev;
            var next := LinksOf(h, x).next;
            o.Panicked? <==>
              (prev.None? && l.head == Some(x) && next == Some(x))
              || ((prev.Some? || l.head == Some(x))
                  && ((next.Some? && l.len == 0)
                      || (next.None? && l.tail == Some(x) && (prev == Some(x) || l.len == 0))))
  {
    var prev := LinksOf(h, x).prev;
    var next := LinksOf(h, x).next;
    var h1 := h[x := UNLINKED];
    if prev.Some? then
      RemoveAfterPrev(l, SetNext(h1, prev.value, next), x, prev, next)
    else if l.head != Some(x) then Done(l, h1, Option.None)
    else if next == Some(x) then Panicked
    else RemoveAfterPrev(l.(head := next), h1, x, prev, next)
  }

  /** The second half of `remove`: the `next` side, then `len -= 1`. */
  function RemoveAfterPrev(l: List, h: Heap, x: Node, prev: Option<Node>, next: Option<Node>): (o: Outcome)
    ensures o.Done? && o.item.Some? ==> o.item == Some(x) && o.list.len + 1 == l.len
  {
    if next.Some? then
      var h2 := SetPrev(h, next.value, prev);
      if l.len == 0 then Panicked else Done(l.(len := l.len - 1), h2, Some(x))
    else if l.tail != Some(x) then Done(l, h, Option.None)
    else if prev == Some(x) then Panicked
    else if l.len == 0 then Panicked
    else Done(List(l.head, prev, l.len - 1), h, Some(x))
  }

  /**
   * A tail whose `prev` is itself fails the self-link `assert`, although
   * the node is not the head and has no `next`.
   */
  lemma RemoveSelfLinkedTail()
    ensures Remove(List(Option.None, Some(5), 1), map[5 := Links(Option.None, Some(5))], 5).Panicked?
  {
  }

  /** `xs` without its `i`-th node. */
  function Delete(xs: seq<Node>, i: nat): (ys: seq<Node>)
    requires i < |xs|
    ensures |ys| + 1 == |xs|
    ensures forall j :: 0 <= j < |ys| ==> ys[j] == xs[if j < i then j else j + 1]
  {
    xs[..i] + xs[i + 1..]
  }

  lemma DeleteDistinct(xs: seq<Node>, i: nat)
    requires Distinct(xs) && i < |xs|
    ensures Distinct(Delete(xs, i))
    ensures forall j :: 0 <= j < |Delete(xs, i)| ==> Delete(xs, i)[j] != xs[i]
  {
  }

  /** The neighbours of the `i`-th node. */
  function PrevOf(xs: seq<Node>, i: nat): Option<Node>
    requires i < |xs|
  {
    if i > 0 then Some(xs[i - 1]) else Option.None
  }

  function NextOf(xs: seq<Node>, i: nat): Option<Node>
    requires i < |xs|
  {
    if i + 1 < |xs| then Some(xs[i + 1]) else Option.None
  }

  /** The heap after splicing out `x`, whose neighbours are `prev` and `next`. */
  function Spliced(h: Heap, x: Node, prev: Option<Node>, next: Option<Node>): Heap {
    var h1 := h[x := UNLINKED];
    var h2 := if prev.Some? then SetNext(h1, prev.value, next) else h1;
    if next.Some? then SetPrev(h2, next.value, prev) else h2
  }

  /** What `remove` does to the `i`-th node of a well-formed list. */
  lemma RemoveShape(l: List, h: Heap, xs: seq<Node>, i: nat)
    requires Represents(l, h, xs) && i < |xs|
    ensures Remove(l, h, xs[i])
            == Done(List(if i == 0 then NextOf(xs, i) else l.head,
                         if i + 1 == |xs| then PrevOf(xs, i) else l.tail,
                         l.len - 1),
                    Spliced(h, xs[i], PrevOf(xs, i), NextOf(xs, i)), Some(xs[i]))
  {
    var x := xs[i];
    assert LinksOf(h, x) == Links(NextOf(xs, i), PrevOf(xs, i));
    assert PrevOf(xs, i) != Some(x) by {
      if i > 0 {
        assert xs[i - 1] != x;
      }
    }
    assert NextOf(xs, i) != Some(x) by {
      if i + 1 < |xs| {
        assert xs[i + 1] != x;
      }
    }
    assert l.head == Some(x) <==> i == 0;
    assert l.tail == Some(x) <==> i + 1 == |xs|;
  }

  /** After the splice, every other node of the list has the links it should have without the `i`-th. */
  lemma SplicedLinks(h: Heap, xs: seq<Node>, i: nat, j: nat)
    requires Distinct(xs) && i < |xs| && j < |Delete(xs, i)|
    requires forall k :: 0 <= k < |xs| ==> LinksOf(h, xs[k]) == Expected(xs, k)
    ensures LinksOf(Spliced(h, xs[i], PrevOf(xs, i), NextOf(xs, i)), Delete(xs, i)[j]) == Expected(Delete(xs, i), j)
  {
    var ys := Delete(xs, i);
    var prev, next := PrevOf(xs, i), NextOf(xs, i);
    var k := if j < i then j else j + 1;
    var n := xs[k];
    assert ys[j] == n && n != xs[i];
    assert prev != next || prev.None? by {
      if i > 0 && i + 1 < |xs| {
        assert xs[i - 1] != xs[i + 1];
      }
    }
    var before := Expected(xs, k);
    assert LinksOf(h, n) == before;
    assert prev == Some(n) <==> k + 1 == i by {
      if i > 0 && k != i - 1 {
        assert xs[k] != xs[i - 1];
      }
    }
    assert next == Some(n) <==> k == i + 1 by {
      if i + 1 < |xs| && k != i + 1 {
        assert xs[k] != xs[i + 1];
      }
    }
    SplicedAt(h, xs[i], prev, next, n);
    SplicedNeighbours(xs, i, j, LinksOf(Spliced(h, xs[i], prev, next), n));
  }

  /** The links the splice leaves on the `j`-th remaining node are those it has in the shorter list. */
  lemma SplicedNeighbours(xs: seq<Node>, i: nat, j: nat, l: Links)
    requires i < |xs| && j + 1 < |xs|
    requires var k := if j < i then j else j + 1;
             l == Links(if k + 1 == i then NextOf(xs, i) else Expected(xs, k).next,
                        if k == i + 1 then PrevOf(xs, i) else Expected(xs, k).prev)
    ensures l == Expected(Delete(xs, i), j)
  {
    var ys := Delete(xs, i);
    if j + 1 < |ys| {
      assert ys[j + 1] == xs[if j + 1 < i then j + 1 else j + 2];
    }
    if j > 0 {
      assert ys[j - 1] == xs[if j - 1 < i then j - 1 else j];
    }
  }

  /** The links of a node other than `x` after the splice. */
  lemma SplicedAt(h: Heap, x: Node, prev: Option<Node>, next: Option<Node>, n: Node)
    requires n != x && (prev != next || prev.None?)
    ensures LinksOf(Spliced(h, x, prev, next), n)
            == Links(if prev == Some(n) then next else LinksOf(h, n).next,
                     if next == Some(n) then prev else LinksOf(h, n).prev)
  {
  }

  /** The splice clears `x` and changes no node other than `x` and its neighbours. */
  lemma SplicedFrame(h: Heap, x: Node, prev: Option<Node>, next: Option<Node>, n: Node)
    requires prev != Some(n) && next != Some(n)
    ensures LinksOf(Spliced(h, x, prev, next), n) == if n == x then UNLINKED else LinksOf(h, n)
  {
  }

  /**
   * Removing the `i`-th node of a well-formed list never panics: it hands
   * the node back unlinked, the other nodes stay in order, and no node
   * outside the list changes its links.
   */
  lemma RemoveSpec(l: List, h: Heap, xs: seq<Node>, i: nat)
    requires Represents(l, h, xs) && i < |xs|
    ensures var o := Remove(l, h, xs[i]);
            o.Done? && o.item == Some(xs[i])
            && Represents(o.list, o.heap, Delete(xs, i))
            && LinksOf(o.heap, xs[i]) == UNLINKED
    ensures forall n: Node :: n !in xs ==> LinksOf(Remove(l, h, xs[i]).heap, n) == LinksOf(h, n)
  {
    RemoveShape(l, h, xs, i);
    var x := xs[i];
    var prev, next := PrevOf(xs, i), NextOf(xs, i);
    var h' := Spliced(h, x, prev, next);
    var l' := List(if i == 0 then next else l.head, if i + 1 == |xs| then prev else l.tail, l.len - 1);
    SplicedRepresents(l, h, xs, i, l');
    assert prev != Some(x) && next != Some(x) by {
      if i > 0 {
        assert xs[i - 1] != x;
      }
      if i + 1 < |xs| {
        assert xs[i + 1] != x;
      }
    }
    SplicedFrame(h, x, prev, next, x);
    forall n: Node | n !in xs
      ensures LinksOf(h', n) == LinksOf(h, n)
    {
      if i > 0 {
        assert xs[i - 1] in xs;
      }
      if i + 1 < |xs| {
        assert xs[i + 1] in xs;
      }
      SplicedFrame(h, x, prev, next, n);
    }
  }

  /** The list left after splicing out the `i`-th node represents the others. */
  lemma SplicedRepresents(l: List, h: Heap, xs: seq<Node>, i: nat, l': List)
    requires Represents(l, h, xs) && i < |xs|
    requires l' == List(if i == 0 then NextOf(xs, i) else l.head, if i + 1 == |xs| then PrevOf(xs, i) else l.tail, l.len - 1)
    ensures Represents(l', Spliced(h, xs[i], PrevOf(xs, i), NextOf(xs, i)), Delete(xs, i))
  {
    DeleteDistinct(xs, i);
    var ys := Delete(xs, i);
    var h' := Spliced(h, xs[i], PrevOf(xs, i), NextOf(xs, i));
    forall j | 0 <= j < |ys|
      ensures LinksOf(h', ys[j]) == Expected(ys, j)
    {
      SplicedLinks(h, xs, i, j);
    }
    if ys != [] {
      assert ys[0] == xs[if i == 0 then 1 else 0];
      assert ys[|ys| - 1] == xs[if i + 1 == |xs| then |xs| - 2 else |xs| - 1];
    }
  }

  /** `remove_checked`: nothing for a node the list does not contain, otherwise `remove`. */
  function RemoveChecked(l: List, h: Heap, x: Node): (o: Outcome)
    ensures x !in Iter(l, h) ==> o == Done(l, h, Option.None)
  {
    if x !in Iter(l, h) then Done(l, h, Option.None) else Remove(l, h, x)
  }

  /**
   * On a well-formed list, `remove_checked` leaves everything unchanged and
   * returns nothing for a node that is not in the list; for the `i`-th node
   * it hands that node back unlinked and the list keeps the others in order,
   * one shorter.
   */
  lemma RemoveCheckedSpec(l: List, h: Heap, xs: seq<Node>, x: Node)
    requires Represents(l, h, xs)
    ensures x !in xs ==> RemoveChecked(l, h, x) == Done(l, h, Option.None)
    ensures forall i :: 0 <= i < |xs| && xs[i] == x ==>
              var o := RemoveChecked(l, h, x);
              o.Done? && o.item == Some(x) && o.list.len + 1 == l.len
              && Represents(o.list, o.heap, Delete(xs, i))
              && LinksOf(o.heap, x) == UNLINKED
  {
    IterSpec(l, h, xs);
    forall i | 0 <= i < |xs| && xs[i] == x
      ensures var o := RemoveChecked(l, h, x);
              o.Done? && o.item == Some(x) && o.list.len + 1 == l.len
              && Represents(o.list, o.heap, Delete(xs, i))
              && LinksOf(o.heap, x) == UNLINKED
    {
      RemoveSpec(l, h, xs, i);
    }
  }

  // ---------------------------------------------------------------------------
  // Sequences of operations

  /** Push every node of `ys` at the back, in order; `Panicked` if one push panics. */
  function PushBackAll(l: List, h: Heap, ys: seq<Node>): (o: Outcome)
    decreases |ys|
  {
    if ys == [] then Done(l, h, Option.None)
    else match PushBack(l, h, ys[0])
      case Panicked => Panicked
      case Done(l1, h1, _) => PushBackAll(l1, h1, ys[1..])
  }

  /** Pop `k` nodes from the front; the nodes popped, or `None` if a pop panicked or came back empty. */
  function PopFrontAll(l: List, h: Heap, k: nat): (r: (List, Heap, Option<seq<Node>>))
    decreases k
  {
    if k == 0 then (l, h, Some([]))
    else
      var o := PopFront(l, h);
      if o.Panicked? || o.item.None? then (l, h, Option.None)
      else
        var r := PopFrontAll(o.list, o.heap, k - 1);
        (r.0, r.1, if r.2.None? then Option.None else Some([o.item.value] + r.2.value))
  }

  /** Pushing distinct new nodes at the back appends them in order. */
  lemma {:induction false} PushBackAllAppends(l: List, h: Heap, xs: seq<Node>, ys: seq<Node>)
    requires Represents(l, h, xs) && Distinct(xs + ys)
    ensures PushBackAll(l, h, ys).Done?
    ensures Represents(PushBackAll(l, h, ys).list, PushBackAll(l, h, ys).heap, xs + ys)
    decreases |ys|
  {
    if ys == [] {
      assert xs + ys == xs;
    } else {
      assert (xs + ys)[|xs|] == ys[0];
      assert ys[0] !in xs by {
        forall j | 0 <= j < |xs|
          ensures xs[j] != ys[0]
        {
          assert (xs + ys)[j] == xs[j];
        }
      }
      PushBackSpec(l, h, xs, ys[0]);
      var o := PushBack(l, h, ys[0]);
      assert xs + [ys[0]] + ys[1..] == xs + ys;
      PushBackAllAppends(o.list, o.heap, xs + [ys[0]], ys[1..]);
    }
  }

  /** Popping `k` nodes from the front of a well-formed list returns its first `k` nodes and leaves the rest. */
  lemma {:induction false} PopFrontAllTakes(l: List, h: Heap, xs: seq<Node>, k: nat)
    requires Represents(l, h, xs) && k <= |xs|
    ensures var r := PopFrontAll(l, h, k);
            r.2 == Some(xs[..k]) && Represents(r.0, r.1, xs[k..])
    decreases k
  {
    if k > 0 {
      PopFrontSpec(l, h, xs);
      var o := PopFront(l, h);
      PopFrontAllTakesStep(o.list, o.heap, xs, k);
      PopFrontAllStep(l, h, k);
    }
  }

  /** The inductive step of `PopFrontAllTakes`, from the list without its first node. */
  lemma {:induction false} PopFrontAllTakesStep(l1: List, h1: Heap, xs: seq<Node>, k: nat)
    requires 0 < k <= |xs| && Represents(l1, h1, xs[1..])
    ensures var r := PopFrontAll(l1, h1, k - 1);
            r.2.Some? && [xs[0]] + r.2.value == xs[..k] && Represents(r.0, r.1, xs[k..])
    decreases k, 0
  {
    var ys := xs[1..];
    PopFrontAllTakes(l1, h1, ys, k - 1);
    assert xs[..k] == [xs[0]] + ys[..k - 1];
    assert ys[k - 1..] == xs[k..];
  }

  /** One step of `PopFrontAll` after a pop that returned a node. */
  lemma PopFrontAllStep(l: List, h: Heap, k: nat)
    requires k > 0 && PopFront(l, h).Done? && PopFront(l, h).item.Some?
    requires PopFrontAll(PopFront(l, h).list, PopFront(l, h).heap, k - 1).2.Some?
    ensures var o := PopFront(l, h);
            var r := PopFrontAll(o.list, o.heap, k - 1);
            PopFrontAll(l, h, k) == (r.0, r.1, Some([o.item.value] + r.2.value))
  {
  }

  /**
   * FIFO: distinct nodes pushed at the back of a new list come out of the
   * front in push order, `len` counts them, and the list is then empty.
   */
  lemma Fifo(h: Heap, ys: seq<Node>)
    requires Distinct(ys)
    ensures PushBackAll(New(), h, ys).Done?
    ensures Len(PushBackAll(New(), h, ys).list) == |ys|
    ensures var o := PushBackAll(New(), h, ys);
            var r := PopFrontAll(o.list, o.heap, |ys|);
            r.2 == Some(ys) && IsEmpty(r.0)
  {
    assert [] + ys == ys;
    PushBackAllAppends(New(), h, [], ys);
    var o := PushBackAll(New(), h, ys);
    PopFrontAllTakes(o.list, o.heap, ys, |ys|);
    assert ys[..|ys|] == ys;
  }

  /**
   * The mirror operations: on a one-node list front and back agree; pushing
   * another node at the front, `pop_back` returns the first node and then
   * `pop_front` the second, leaving the list empty.
   */
  lemma Mirror(h: Heap, a: Node, b: Node)
    requires a != b
    ensures var o1 := PushBack(New(), h, a);
            o1.Done? && Front(o1.list) == Back(o1.list) == Some(a)
            && var o2 := PushFront(o1.list, o1.heap, b);
               o2.Done?
               && var o3 := PopBack(o2.list, o2.heap);
                  o3.Done? && o3.item == Some(a)
                  && var o4 := PopFront(o3.list, o3.heap);
                     o4.Done? && o4.item == Some(b) && IsEmpty(o4.list)
  {
    PushBackSpec(New(), h, [], a);
    var o1 := PushBack(New(), h, a);
    assert [] + [a] == [a];
    PushFrontSpec(o1.list, o1.heap, [a], b);
    var o2 := PushFront(o1.list, o1.heap, b);
    PopBackSpec(o2.list, o2.heap, [b, a]);
    var o3 := PopBack(o2.list, o2.heap);
    assert [b, a][..1] == [b];
    PopFrontSpec(o3.list, o3.heap, [b]);
  }
}
