/**
 The singly linked list of the engine's utilities.

 A list header holds the length, the element size in bytes and a pointer to
 the first node; each node holds its own copy of one element and a pointer to
 the next node. The model keeps the heap explicit: nodes live at addresses in
 a map, `free` is the next address the allocator hands out, and a list is
 read through its spine, the addresses of its nodes from `begin` to NULL.
 The operations return the new heap and header, with the spine as a ghost
 companion, and their contracts state the effect on the sequence of elements.
 */
module LinkedList {
  datatype Ptr = Null | Addr(a: nat)

  /** `cbListElement`: the element's bytes and the next pointer. */
  datatype Node = Node(data: seq<int>, next: Ptr)

  /** The allocator's memory: live nodes by address, and the next address to hand out. */
  datatype Heap = Heap(nodes: map<nat, Node>, free: nat)

  /** `cbList`. */
  datatype List = List(length: int, elementSize: int, begin: Ptr)

  /** Every live address is below the next one to be handed out. */
  predicate HeapOk(h: Heap) {
    forall a :: a in h.nodes ==> a < h.free
  }

  /** Following next pointers from `p` visits exactly the addresses `s`, and then reaches `q`. */
  predicate Path(h: Heap, p: Ptr, s: seq<nat>, q: Ptr)
    decreases |s|
  {
    if |s| == 0 then p == q
    else p == Addr(s[0]) && s[0] in h.nodes && Path(h, h.nodes[s[0]].next, s[1..], q)
  }

  /** The pointer to the k-th node of the path, or the path's end past its last node. */
  function At(s: seq<nat>, k: int, end: Ptr): Ptr {
    if 0 <= k < |s| then Addr(s[k]) else end
  }

  predicate InHeap(h: Heap, s: seq<nat>) {
    forall k :: 0 <= k < |s| ==> s[k] in h.nodes
  }

  /** The elements stored along a spine, in order. */
  function Contents(h: Heap, s: seq<nat>): seq<seq<int>>
    requires InHeap(h, s)
  {
    seq(|s|, k requires 0 <= k < |s| => h.nodes[s[k]].data)
  }

  /**
   The list invariant: the nodes reachable from `begin` are the spine and end
   in NULL, the length field counts them, and every node holds one element.
   */
  predicate Valid(h: Heap, l: List, spine: seq<nat>) {
    && HeapOk(h) && 0 <= l.elementSize
    && Path(h, l.begin, spine, Null) && InHeap(h, spine)
    && l.length == |spine|
    && forall k :: 0 <= k < |spine| ==> |h.nodes[spine[k]].data| == l.elementSize
  }

  /** Memory off the spine is left as it was. */
  predicate Untouched(h: Heap, h': Heap, spine: seq<nat>) {
    forall a :: a in h.nodes && a !in spine ==> a in h'.nodes && h'.nodes[a] == h.nodes[a]
  }

  // ---------------------------------------------------------------------------
  // Paths.

  lemma {:induction false} PathInHeap(h: Heap, p: Ptr, s: seq<nat>, q: Ptr)
    requires Path(h, p, s, q)
    ensures InHeap(h, s)
    decreases |s|
  {
    if |s| > 0 {
      PathInHeap(h, h.nodes[s[0]].next, s[1..], q);
      assert forall k :: 1 <= k < |s| ==> s[k] == s[1..][k - 1];
    }
  }

  /** A path cut after k nodes: the first part ends where the second begins. */
  lemma {:induction false} PathSplit(h: Heap, p: Ptr, s: seq<nat>, q: Ptr, k: int)
    requires Path(h, p, s, q) && 0 <= k <= |s|
    ensures Path(h, p, s[..k], At(s, k, q)) && Path(h, At(s, k, q), s[k..], q)
    decreases k
  {
    if k == 0 {
      assert s[..0] == [] && s[0..] == s;
    } else {
      PathSplit(h, h.nodes[s[0]].next, s[1..], q, k - 1);
      assert s[..k][1..] == s[1..][..k - 1];
      assert s[1..][k - 1..] == s[k..];
    }
  }

  /** Two paths joined where the first ends. */
  lemma {:induction false} PathAppend(h: Heap, p: Ptr, a: seq<nat>, q: Ptr, b: seq<nat>, r: Ptr)
    requires Path(h, p, a, q) && Path(h, q, b, r)
    ensures Path(h, p, a + b, r)
    decreases |a|
  {
    if |a| == 0 {
      assert a + b == b;
    } else {
      PathAppend(h, h.nodes[a[0]].next, a[1..], q, b, r);
      assert (a + b)[1..] == a[1..] + b;
    }
  }

  /** A path survives any change that keeps its nodes and their next pointers. */
  lemma {:induction false} PathFrame(h: Heap, h': Heap, p: Ptr, s: seq<nat>, q: Ptr)
    requires Path(h, p, s, q)
    requires forall k :: 0 <= k < |s| ==>
      s[k] in h.nodes && s[k] in h'.nodes && h'.nodes[s[k]].next == h.nodes[s[k]].next
    ensures Path(h', p, s, q)
    decreases |s|
  {
    if |s| > 0 {
      assert forall k :: 0 <= k < |s| - 1 ==> s[1..][k] == s[k + 1];
      PathFrame(h, h', h.nodes[s[0]].next, s[1..], q);
    }
  }

  /** A path survives a write to a node off the path. */
  lemma PathUpdate(h: Heap, h': Heap, p: Ptr, s: seq<nat>, q: Ptr, a: nat, n: Node)
    requires Path(h, p, s, q) && a !in s && h'.nodes == h.nodes[a := n]
    ensures Path(h', p, s, q)
  {
    PathInHeap(h, p, s, q);
    PathFrame(h, h', p, s, q);
  }

  /** A path survives freeing a node off the path. */
  lemma PathDelete(h: Heap, h': Heap, p: Ptr, s: seq<nat>, q: Ptr, a: nat)
    requires Path(h, p, s, q) && a !in s && h'.nodes == h.nodes - {a}
    ensures Path(h', p, s, q)
  {
    PathInHeap(h, p, s, q);
    PathFrame(h, h', p, s, q);
  }

  /** The node after the i-th on a path is the (i+1)-th, or the path's end. */
  lemma NextOnPath(h: Heap, p: Ptr, s: seq<nat>, q: Ptr, i: int)
    requires Path(h, p, s, q) && 0 <= i < |s|
    ensures s[i] in h.nodes && h.nodes[s[i]].next == At(s, i + 1, q)
  {
    PathSplit(h, p, s, q, i);
    assert s[i..][1..] == s[i + 1..];
    if i + 1 < |s| {
      assert s[i + 1..][0] == s[i + 1];
    }
  }

  /** From a given pointer there is only one path to NULL. */
  lemma {:induction false} PathDeterministic(h: Heap, p: Ptr, s1: seq<nat>, s2: seq<nat>)
    requires Path(h, p, s1, Null) && Path(h, p, s2, Null)
    ensures s1 == s2
    decreases |s1|
  {
    if |s1| > 0 && |s2| > 0 {
      PathDeterministic(h, h.nodes[s1[0]].next, s1[1..], s2[1..]);
      assert s1 == [s1[0]] + s1[1..] && s2 == [s2[0]] + s2[1..];
    }
  }

  /** A path to NULL visits no node twice: a list has no cycle. */
  lemma PathDistinct(h: Heap, p: Ptr, s: seq<nat>)
    requires Path(h, p, s, Null)
    ensures forall i, j :: 0 <= i < j < |s| ==> s[i] != s[j]
  {
    forall i, j | 0 <= i < j < |s| ensures s[i] != s[j] {
      PathSplit(h, p, s, Null, i);
      PathSplit(h, p, s, Null, j);
      if s[i] == s[j] {
        PathDeterministic(h, Addr(s[i]), s[i..], s[j..]);
        assert false;
      }
    }
  }

  /** A list in a heap has exactly one spine, so its contents are determined by the heap and the header. */
  lemma SpineUnique(h: Heap, l: List, s1: seq<nat>, s2: seq<nat>)
    requires Valid(h, l, s1) && Valid(h, l, s2)
    ensures s1 == s2
  {
    PathDeterministic(h, l.begin, s1, s2);
  }

  // ---------------------------------------------------------------------------
  // Contents.

  lemma ContentsSlice(h: Heap, s: seq<nat>, i: int, j: int)
    requires InHeap(h, s) && 0 <= i <= j <= |s|
    ensures InHeap(h, s[i..j]) && Contents(h, s[i..j]) == Contents(h, s)[i..j]
  {
  }

  lemma ContentsAppend(h: Heap, a: seq<nat>, b: seq<nat>)
    requires InHeap(h, a) && InHeap(h, b)
    ensures InHeap(h, a + b) && Contents(h, a + b) == Contents(h, a) + Contents(h, b)
  {
  }

  /** Contents read through a spine whose nodes kept their data. */
  lemma ContentsFrame(h: Heap, h': Heap, s: seq<nat>)
    requires InHeap(h, s)
    requires forall k :: 0 <= k < |s| ==> s[k] in h'.nodes && h'.nodes[s[k]].data == h.nodes[s[k]].data
    ensures InHeap(h', s) && Contents(h', s) == Contents(h, s)
  {
  }

  // ---------------------------------------------------------------------------
  // Operations.

  /** `cbNewList`: an empty list of elements of the given size. */
  function NewList(elementSize: int): (l: List)
    ensures forall h: Heap :: HeapOk(h) && 0 <= elementSize ==> Valid(h, l, [])
    ensures l.length == 0 && l.begin == Null && l.elementSize == elementSize
  {
    List(0, elementSize, Null)
  }

  /**
   `cbListGet`: walk from `begin` counting nodes and return the element of
   the at-th one.
   */
  method Get(h: Heap, l: List, ghost spine: seq<nat>, at: int) returns (data: seq<int>)
    requires Valid(h, l, spine) && 0 <= at < l.length
    ensures data == Contents(h, spine)[at]
    ensures |data| == l.elementSize
  {
    var i := 0;
    var iter := l.begin;
    while iter != Null
      invariant 0 <= i <= at && iter == At(spine, i, Null)
      decreases |spine| - i
    {
      NextOnPath(h, l.begin, spine, Null, i);
      if i == at {
        return h.nodes[iter.a].data;
      }
      i := i + 1;
      iter := h.nodes[iter.a].next;
    }
    assert false;
    return [];
  }

  // ---------------------------------------------------------------------------
  // Relinking.

  /** A fresh node holding `x` linked in front of the list. */
  lemma LinkFront(h: Heap, l: List, spine: seq<nat>, x: seq<int>, h': Heap)
    requires Valid(h, l, spine) && |x| == l.elementSize
    requires h'.nodes == h.nodes[h.free := Node(x, l.begin)] && h'.free == h.free + 1
    ensures Valid(h', List(l.length + 1, l.elementSize, Addr(h.free)), [h.free] + spine)
    ensures Contents(h', [h.free] + spine) == [x] + Contents(h, spine)
    ensures Untouched(h, h', spine)
  {
    var e := h.free;
    PathFrame(h, h', l.begin, spine, Null);
    assert Path(h', Addr(e), [e], l.begin) by {
      assert [e][1..] == [];
    }
    PathAppend(h', Addr(e), [e], l.begin, spine, Null);
    ContentsFrame(h, h', spine);
    ContentsAppend(h', [e], spine);
  }

  /** A fresh node holding `x` linked in after the (at-1)-th node, before the at-th. */
  lemma LinkAfter(h: Heap, l: List, spine: seq<nat>, x: seq<int>, at: int, h': Heap)
    requires Valid(h, l, spine) && |x| == l.elementSize && 0 < at <= |spine|
    requires h'.nodes == h.nodes[spine[at - 1] := h.nodes[spine[at - 1]].(next := Addr(h.free))]
                                [h.free := Node(x, At(spine, at, Null))]
    requires h'.free == h.free + 1
    ensures Valid(h', l.(length := l.length + 1), spine[..at] + [h.free] + spine[at..])
    ensures Contents(h', spine[..at] + [h.free] + spine[at..])
      == Contents(h, spine)[..at] + [x] + Contents(h, spine)[at..]
    ensures Untouched(h, h', spine)
  {
    LinkAfterPath(h, l, spine, x, at, h');
    LinkAfterContents(h, l, spine, x, at, h');
  }

  lemma LinkAfterPath(h: Heap, l: List, spine: seq<nat>, x: seq<int>, at: int, h': Heap)
    requires HeapOk(h) && Path(h, l.begin, spine, Null) && InHeap(h, spine) && 0 < at <= |spine|
    requires h'.nodes == h.nodes[spine[at - 1] := h.nodes[spine[at - 1]].(next := Addr(h.free))]
                                [h.free := Node(x, At(spine, at, Null))]
    ensures Path(h', l.begin, spine[..at] + [h.free] + spine[at..], Null)
  {
    var e, b := h.free, spine[at - 1];
    var front, back := spine[..at - 1], spine[at..];
    LinkAfterPieces(h, l, spine, x, at, h');
    PathAppend(h', Addr(e), [e], At(spine, at, Null), back, Null);
    PathAppend(h', Addr(b), [b], Addr(e), [e] + back, Null);
    PathAppend(h', l.begin, front, Addr(b), [b] + ([e] + back), Null);
    assert front + ([b] + ([e] + back)) == spine[..at] + [e] + spine[at..] by {
      assert spine[..at] == front + [b];
    }
  }

  /** The four pieces of the new chain: the nodes before, the (at-1)-th, the new one, the nodes after. */
  lemma LinkAfterPieces(h: Heap, l: List, spine: seq<nat>, x: seq<int>, at: int, h': Heap)
    requires HeapOk(h) && Path(h, l.begin, spine, Null) && InHeap(h, spine) && 0 < at <= |spine|
    requires h'.nodes == h.nodes[spine[at - 1] := h.nodes[spine[at - 1]].(next := Addr(h.free))]
                                [h.free := Node(x, At(spine, at, Null))]
    ensures Path(h', l.begin, spine[..at - 1], Addr(spine[at - 1]))
    ensures Path(h', Addr(spine[at - 1]), [spine[at - 1]], Addr(h.free))
    ensures Path(h', Addr(h.free), [h.free], At(spine, at, Null))
    ensures Path(h', At(spine, at, Null), spine[at..], Null)
  {
    var e, b := h.free, spine[at - 1];
    var front, back := spine[..at - 1], spine[at..];
    var nb, ne := h.nodes[b].(next := Addr(e)), Node(x, At(spine, at, Null));
    var h1 := Heap(h.nodes[b := nb], h.free);
    PathDistinct(h, l.begin, spine);
    assert b !in front && b !in back;
    assert e !in spine;
    PathSplit(h, l.begin, spine, Null, at - 1);
    PathSplit(h, l.begin, spine, Null, at);
    PathUpdate(h, h1, l.begin, front, Addr(b), b, nb);
    PathUpdate(h1, h', l.begin, front, Addr(b), e, ne);
    PathUpdate(h, h1, At(spine, at, Null), back, Null, b, nb);
    PathUpdate(h1, h', At(spine, at, Null), back, Null, e, ne);
    assert [b][1..] == [] && [e][1..] == [];
  }

  lemma LinkAfterContents(h: Heap, l: List, spine: seq<nat>, x: seq<int>, at: int, h': Heap)
    requires HeapOk(h) && InHeap(h, spine) && 0 < at <= |spine|
    requires h'.nodes == h.nodes[spine[at - 1] := h.nodes[spine[at - 1]].(next := Addr(h.free))]
                                [h.free := Node(x, At(spine, at, Null))]
    ensures InHeap(h', spine[..at] + [h.free] + spine[at..])
    ensures Contents(h', spine[..at] + [h.free] + spine[at..])
      == Contents(h, spine)[..at] + [x] + Contents(h, spine)[at..]
    ensures Untouched(h, h', spine)
  {
    var e := h.free;
    ContentsFrame(h, h', spine);
    ContentsSlice(h', spine, 0, at);
    ContentsSlice(h', spine, at, |spine|);
    ContentsAppend(h', spine[..at], [e]);
    ContentsAppend(h', spine[..at] + [e], spine[at..]);
  }

  /** The first node unlinked and freed. */
  lemma UnlinkFront(h: Heap, l: List, spine: seq<nat>, h': Heap)
    requires Valid(h, l, spine) && 0 < |spine|
    requires h'.nodes == h.nodes - {spine[0]} && h'.free == h.free
    ensures Valid(h', List(l.length - 1, l.elementSize, At(spine, 1, Null)), spine[1..])
    ensures Contents(h', spine[1..]) == Contents(h, spine)[1..]
    ensures Untouched(h, h', spine)
  {
    PathDistinct(h, l.begin, spine);
    PathSplit(h, l.begin, spine, Null, 1);
    PathFrame(h, h', At(spine, 1, Null), spine[1..], Null);
    ContentsFrame(h, h', spine[1..]);
    ContentsSlice(h, spine, 1, |spine|);
  }

  /** The at-th node unlinked from the (at-1)-th and freed. */
  lemma UnlinkAfter(h: Heap, l: List, spine: seq<nat>, at: int, h': Heap)
    requires Valid(h, l, spine) && 0 < at < |spine|
    requires h'.nodes == (h.nodes - {spine[at]})[spine[at - 1] := h.nodes[spine[at - 1]].(next := At(spine, at + 1, Null))]
    requires h'.free == h.free
    ensures Valid(h', l.(length := l.length - 1), spine[..at] + spine[at + 1..])
    ensures Contents(h', spine[..at] + spine[at + 1..]) == Contents(h, spine)[..at] + Contents(h, spine)[at + 1..]
    ensures Untouched(h, h', spine) && spine[at] !in h'.nodes
  {
    PathDistinct(h, l.begin, spine);
    UnlinkAfterPath(h, l, spine, at, h');
    UnlinkAfterContents(h, l, spine, at, h');
    assert forall k :: 0 <= k < |spine| && k != at ==> spine[k] != spine[at];
  }

  lemma UnlinkAfterPath(h: Heap, l: List, spine: seq<nat>, at: int, h': Heap)
    requires HeapOk(h) && Path(h, l.begin, spine, Null) && InHeap(h, spine) && 0 < at < |spine|
    requires h'.nodes == (h.nodes - {spine[at]})[spine[at - 1] := h.nodes[spine[at - 1]].(next := At(spine, at + 1, Null))]
    ensures Path(h', l.begin, spine[..at] + spine[at + 1..], Null)
  {
    var b := spine[at - 1];
    var front, back := spine[..at - 1], spine[at + 1..];
    UnlinkAfterPieces(h, l, spine, at, h');
    PathAppend(h', Addr(b), [b], At(spine, at + 1, Null), back, Null);
    PathAppend(h', l.begin, front, Addr(b), [b] + back, Null);
    assert front + ([b] + back) == spine[..at] + back by {
      assert spine[..at] == front + [b];
    }
  }

  /** The three pieces of the shortened chain: the nodes before, the (at-1)-th, the nodes after. */
  lemma UnlinkAfterPieces(h: Heap, l: List, spine: seq<nat>, at: int, h': Heap)
    requires HeapOk(h) && Path(h, l.begin, spine, Null) && InHeap(h, spine) && 0 < at < |spine|
    requires h'.nodes == (h.nodes - {spine[at]})[spine[at - 1] := h.nodes[spine[at - 1]].(next := At(spine, at + 1, Null))]
    ensures Path(h', l.begin, spine[..at - 1], Addr(spine[at - 1]))
    ensures Path(h', Addr(spine[at - 1]), [spine[at - 1]], At(spine, at + 1, Null))
    ensures Path(h', At(spine, at + 1, Null), spine[at + 1..], Null)
  {
    var b, d := spine[at - 1], spine[at];
    var front, back := spine[..at - 1], spine[at + 1..];
    var nb := h.nodes[b].(next := At(spine, at + 1, Null));
    var h1 := Heap(h.nodes - {d}, h.free);
    PathDistinct(h, l.begin, spine);
    assert b !in front && b !in back && d !in front && d !in back;
    PathSplit(h, l.begin, spine, Null, at - 1);
    PathSplit(h, l.begin, spine, Null, at + 1);
    PathDelete(h, h1, l.begin, front, Addr(b), d);
    PathUpdate(h1, h', l.begin, front, Addr(b), b, nb);
    PathDelete(h, h1, At(spine, at + 1, Null), back, Null, d);
    PathUpdate(h1, h', At(spine, at + 1, Null), back, Null, b, nb);
    assert [b][1..] == [];
  }

  lemma UnlinkAfterContents(h: Heap, l: List, spine: seq<nat>, at: int, h': Heap)
    requires InHeap(h, spine) && 0 < at < |spine|
    requires forall i, j :: 0 <= i < j < |spine| ==> spine[i] != spine[j]
    requires h'.nodes == (h.nodes - {spine[at]})[spine[at - 1] := h.nodes[spine[at - 1]].(next := At(spine, at + 1, Null))]
    ensures InHeap(h', spine[..at] + spine[at + 1..])
    ensures Contents(h', spine[..at] + spine[at + 1..]) == Contents(h, spine)[..at] + Contents(h, spine)[at + 1..]
    ensures Untouched(h, h', spine)
  {
    ContentsFrame(h, h', spine[..at]);
    ContentsFrame(h, h', spine[at + 1..]);
    ContentsSlice(h, spine, 0, at);
    ContentsSlice(h, spine, at + 1, |spine|);
    ContentsAppend(h', spine[..at], spine[at + 1..]);
  }

  // ---------------------------------------------------------------------------
  // Insertion and removal.

  /**
   `cbListInsert`: a fresh node holding a copy of the caller's element is
   linked in before the at-th node (at the end when `at` is the length). The
   elements become `old[..at] + [x] + old[at..]`; no other memory changes.
   */
  method Insert(h: Heap, l: List, ghost spine: seq<nat>, data: seq<int>, at: int)
    returns (h': Heap, l': List, ghost spine': seq<nat>)
    requires Valid(h, l, spine) && 0 <= at <= l.length && |data| >= l.elementSize
    ensures Valid(h', l', spine')
    ensures spine' == spine[..at] + [h.free] + spine[at..]
    ensures Contents(h', spine') == Contents(h, spine)[..at] + [data[..l.elementSize]] + Contents(h, spine)[at..]
    ensures l'.length == l.length + 1 && l'.elementSize == l.elementSize
    ensures Untouched(h, h', spine) && h'.free == h.free + 1
  {
    // the new node, with its own copy of the element
    var e := h.free;
    var x := data[..l.elementSize];
    var nodes := h.nodes[e := Node(x, Null)];
    var length := l.length + 1;

    // find the nodes before and after the insertion point
    var before, after := Null, Null;
    var iter := l.begin;
    var i := 0;
    while iter != Null
      invariant 0 <= i <= at && iter == At(spine, i, Null)
      invariant before == (if 0 < at <= i then Addr(spine[at - 1]) else Null)
      invariant after == Null
      decreases |spine| - i
    {
      NextOnPath(h, l.begin, spine, Null, i);
      if i == at - 1 {
        before := iter;
      }
      if i == at {
        after := iter;
        break;
      }
      i := i + 1;
      iter := nodes[iter.a].next;
    }
    assert before == (if 0 < at then Addr(spine[at - 1]) else Null);
    assert after == At(spine, at, Null);

    if before == Null {
      // insert at the beginning
      nodes := nodes[e := nodes[e].(next := l.begin)];
      h', l', spine' := Heap(nodes, e + 1), List(length, l.elementSize, Addr(e)), [e] + spine;
      assert nodes == h.nodes[e := Node(x, l.begin)];
      LinkFront(h, l, spine, x, h');
      return;
    }

    // insert in the middle or at the end
    nodes := nodes[before.a := nodes[before.a].(next := Addr(e))];
    nodes := nodes[e := nodes[e].(next := after)];
    h', l', spine' := Heap(nodes, e + 1), l.(length := length), spine[..at] + [e] + spine[at..];
    assert spine[at - 1] in h.nodes && spine[at - 1] != e;
    assert nodes == h.nodes[spine[at - 1] := h.nodes[spine[at - 1]].(next := Addr(e))][e := Node(x, after)];
    LinkAfter(h, l, spine, x, at, h');
  }

  /** `cbListAppend`: insertion at the length, so the element becomes the last. */
  method Append(h: Heap, l: List, ghost spine: seq<nat>, data: seq<int>)
    returns (h': Heap, l': List, ghost spine': seq<nat>)
    requires Valid(h, l, spine) && |data| >= l.elementSize
    ensures Valid(h', l', spine') && spine' == spine + [h.free]
    ensures Contents(h', spine') == Contents(h, spine) + [data[..l.elementSize]]
    ensures Untouched(h, h', spine)
  {
    h', l', spine' := Insert(h, l, spine, data, l.length);
    assert spine[..l.length] == spine && spine[l.length..] == [];
    assert Contents(h, spine)[..l.length] == Contents(h, spine);
  }

  /** `cbListPrepend`: insertion at 0, so the element becomes the first. */
  method Prepend(h: Heap, l: List, ghost spine: seq<nat>, data: seq<int>)
    returns (h': Heap, l': List, ghost spine': seq<nat>)
    requires Valid(h, l, spine) && |data| >= l.elementSize
    ensures Valid(h', l', spine') && spine' == [h.free] + spine
    ensures Contents(h', spine') == [data[..l.elementSize]] + Contents(h, spine)
    ensures Untouched(h, h', spine)
  {
    h', l', spine' := Insert(h, l, spine, data, 0);
    assert spine[..0] == [] && spine[0..] == spine;
    assert Contents(h, spine)[0..] == Contents(h, spine);
  }

  /**
   `cbListRemove`: the at-th node is unlinked and freed. The elements become
   `old[..at] + old[at+1..]`, removing the only element leaves `begin` NULL,
   and no other memory changes.
   */
  method Remove(h: Heap, l: List, ghost spine: seq<nat>, at: int)
    returns (h': Heap, l': List, ghost spine': seq<nat>)
    requires Valid(h, l, spine) && 0 <= at < l.length
    ensures Valid(h', l', spine')
    ensures spine' == spine[..at] + spine[at + 1..]
    ensures Contents(h', spine') == Contents(h, spine)[..at] + Contents(h, spine)[at + 1..]
    ensures l'.length == l.length - 1 && l'.elementSize == l.elementSize
    ensures spine[at] !in h'.nodes && h'.free == h.free
    ensures Untouched(h, h', spine)
    ensures l.length == 1 ==> l'.begin == Null
  {
    var length := l.length - 1;

    // find the nodes before, at and after the position
    var before, after, element := Null, Null, Null;
    var iter := l.begin;
    var i := 0;
    while iter != Null
      invariant 0 <= i <= at + 1 && i <= |spine| && iter == At(spine, i, Null)
      invariant before == (if 0 < at <= i then Addr(spine[at - 1]) else Null)
      invariant element == (if at < i then Addr(spine[at]) else Null)
      invariant after == Null
      decreases |spine| - i
    {
      NextOnPath(h, l.begin, spine, Null, i);
      if i == at - 1 {
        before := iter;
      }
      if i == at {
        element := iter;
      }
      if i == at + 1 {
        after := iter;
        break;
      }
      i := i + 1;
      iter := h.nodes[iter.a].next;
    }
    assert before == (if 0 < at then Addr(spine[at - 1]) else Null);
    assert element == Addr(spine[at]);
    assert after == At(spine, at + 1, Null);

    if before == Null && after == Null {
      // remove the whole list
      h', l', spine' := Heap(h.nodes - {element.a}, h.free), List(length, l.elementSize, Null), [];
      UnlinkFront(h, l, spine, h');
      assert spine[at + 1..] == [] && spine[1..] == [];
      return;
    }

    if before == Null {
      // remove at the beginning
      h', l', spine' := Heap(h.nodes - {element.a}, h.free), List(length, l.elementSize, after), spine[1..];
      UnlinkFront(h, l, spine, h');
      assert spine[..at] + spine[at + 1..] == spine[1..];
      return;
    }

    // remove in the middle or at the end
    var nodes := h.nodes - {element.a};
    nodes := nodes[before.a := h.nodes[before.a].(next := after)];
    h', l', spine' := Heap(nodes, h.free), l.(length := length), spine[..at] + spine[at + 1..];
    UnlinkAfter(h, l, spine, at, h');
  }
}
