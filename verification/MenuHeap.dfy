/** Menu entries linked by `next`, `list` and `parent` pointers, and the trees they stand for. */
module MenuHeap {
  import opened MenuForest

  datatype Ptr = Null | To(id: Id)

  /** The three link fields of every struct menu. */
  datatype Heap = Heap(next: map<Id, Ptr>, list: map<Id, Ptr>, parent: map<Id, Ptr>)

  predicate IsEntry(h: Heap, x: Id) { x in h.next && x in h.list && x in h.parent }

  /**
   Following `next` from `first` to `end` gives the entries of `ts` in order, each with parent `up`
   and with its sub-entries below `list`.
   */
  ghost predicate Seg(h: Heap, first: Ptr, up: Ptr, ts: seq<Tree>, end: Ptr)
    decreases SizeAll(ts)
  {
    if ts == [] then first == end
    else
      var x := ts[0].id;
      assert SizeAll(ts) == Size(ts[0]) + SizeAll(ts[1..]) && Size(ts[0]) == 1 + SizeAll(ts[0].kids);
      && first == To(x) && IsEntry(h, x) && h.parent[x] == up
      && Seg(h, h.list[x], To(x), ts[0].kids, Null)
      && Seg(h, h.next[x], up, ts[1..], end)
  }

  /** The entries of a forest. */
  function Ids(ts: seq<Tree>): set<Id> {
    if ts == [] then {} else {ts[0].id} + Ids(ts[0].kids) + Ids(ts[1..])
  }

  lemma {:induction false} IdsInOrder(ts: seq<Tree>, x: Id)
    ensures x in Ids(ts) <==> x in PreorderAll(ts)
  {
    if ts != [] {
      IdsInOrder(ts[0].kids, x);
      IdsInOrder(ts[1..], x);
      assert PreorderAll(ts) == [ts[0].id] + PreorderAll(ts[0].kids) + PreorderAll(ts[1..]);
    }
  }

  predicate Unique(s: seq<Id>) { s == [] || (s[0] !in s[1..] && Unique(s[1..])) }

  lemma {:induction false} UniqueParts(a: seq<Id>, b: seq<Id>)
    requires Unique(a + b)
    ensures Unique(a) && Unique(b)
    ensures forall x :: x in a ==> x !in b
  {
    if a == [] {
      assert a + b == b;
    } else {
      assert (a + b)[1..] == a[1..] + b;
      UniqueParts(a[1..], b);
    }
  }

  /** Two forests with different entries throughout. */
  lemma Separate(a: seq<Tree>, b: seq<Tree>)
    requires Unique(PreorderAll(a) + PreorderAll(b))
    ensures Unique(PreorderAll(a)) && Unique(PreorderAll(b)) && Ids(a) !! Ids(b)
  {
    UniqueParts(PreorderAll(a), PreorderAll(b));
    forall x
      ensures x !in Ids(a) || x !in Ids(b)
    {
      IdsInOrder(a, x);
      IdsInOrder(b, x);
    }
  }

  /** The first entry's id, those of its sub-entries and those of the other entries are all different. */
  lemma UniqueFirst(ts: seq<Tree>)
    requires ts != [] && Unique(PreorderAll(ts))
    ensures Unique(PreorderAll(ts[0].kids)) && Unique(PreorderAll(ts[1..]))
    ensures ts[0].id !in Ids(ts[0].kids) && ts[0].id !in Ids(ts[1..]) && Ids(ts[0].kids) !! Ids(ts[1..])
  {
    var x, k, r := ts[0].id, PreorderAll(ts[0].kids), PreorderAll(ts[1..]);
    PreorderFirst(ts);
    UniqueCons(x, k + r);
    Separate(ts[0].kids, ts[1..]);
    IdsInOrder(ts[0].kids, x);
    IdsInOrder(ts[1..], x);
  }

  lemma PreorderFirst(ts: seq<Tree>)
    requires ts != []
    ensures PreorderAll(ts) == [ts[0].id] + (PreorderAll(ts[0].kids) + PreorderAll(ts[1..]))
  {}

  lemma UniqueCons(x: Id, s: seq<Id>)
    requires Unique([x] + s)
    ensures x !in s && Unique(s)
  {
    assert ([x] + s)[1..] == s;
  }

  lemma SameOrderSameIds(a: seq<Tree>, b: seq<Tree>)
    requires PreorderAll(a) == PreorderAll(b)
    ensures Ids(a) == Ids(b)
  {
    forall x
      ensures x in Ids(a) <==> x in Ids(b)
    {
      IdsInOrder(a, x);
      IdsInOrder(b, x);
    }
  }

  lemma {:induction false} IdsAppend(a: seq<Tree>, b: seq<Tree>)
    ensures Ids(a + b) == Ids(a) + Ids(b)
  {
    if a == [] {
      assert a + b == b;
    } else {
      assert (a + b)[1..] == a[1..] + b;
      IdsAppend(a[1..], b);
    }
  }

  lemma UniqueAppend(a: seq<Tree>, b: seq<Tree>)
    requires Unique(PreorderAll(a + b))
    ensures Unique(PreorderAll(a)) && Unique(PreorderAll(b)) && Ids(a) !! Ids(b)
  {
    PreorderAllAppend(a, b);
    Separate(a, b);
  }

  /** Forests with the same entries in order have the same set of entries. */
  lemma SameIds(a: seq<Tree>, b: seq<Tree>, c: seq<Tree>)
    requires PreorderAll(a) + PreorderAll(b) == PreorderAll(c)
    ensures Ids(c) == Ids(a) + Ids(b)
  {
    forall x
      ensures x in Ids(c) <==> x in Ids(a) || x in Ids(b)
    {
      IdsInOrder(a, x);
      IdsInOrder(b, x);
      IdsInOrder(c, x);
    }
  }

  /** The heaps have the same entries and differ at most at those in `ids`. */
  ghost predicate SameOutside(h: Heap, h': Heap, ids: set<Id>) {
    && h'.next.Keys == h.next.Keys && h'.list.Keys == h.list.Keys && h'.parent.Keys == h.parent.Keys
    && (forall x {:trigger h'.next[x]} :: x in h.next && x !in ids ==> h'.next[x] == h.next[x])
    && (forall x {:trigger h'.list[x]} :: x in h.list && x !in ids ==> h'.list[x] == h.list[x])
    && (forall x {:trigger h'.parent[x]} :: x in h.parent && x !in ids ==> h'.parent[x] == h.parent[x])
  }

  lemma SameOutsideTransitive(h: Heap, h': Heap, h'': Heap, ids: set<Id>, ids': set<Id>)
    requires SameOutside(h, h', ids) && SameOutside(h', h'', ids') && ids' <= ids
    ensures SameOutside(h, h'', ids)
  {}

  lemma {:induction false} SegFrame(h: Heap, h': Heap, first: Ptr, up: Ptr, ts: seq<Tree>, end: Ptr, ids: set<Id>)
    requires Seg(h, first, up, ts, end) && SameOutside(h, h', ids) && Ids(ts) !! ids
    ensures Seg(h', first, up, ts, end)
    decreases SizeAll(ts)
  {
    if ts != [] {
      var x := ts[0].id;
      assert Size(ts[0]) >= 1;
      SegFrame(h, h', h.list[x], To(x), ts[0].kids, Null, ids);
      SegFrame(h, h', h.next[x], up, ts[1..], end, ids);
    }
  }

  /** Segments join where one ends and the next begins. */
  lemma {:induction false} SegJoin(h: Heap, first: Ptr, up: Ptr, a: seq<Tree>, mid: Ptr, b: seq<Tree>, end: Ptr)
    requires Seg(h, first, up, a, mid) && Seg(h, mid, up, b, end)
    ensures Seg(h, first, up, a + b, end)
    decreases |a|
  {
    if a == [] {
      assert a + b == b;
    } else {
      assert (a + b)[1..] == a[1..] + b;
      SegJoin(h, h.next[a[0].id], up, a[1..], mid, b, end);
    }
  }

  /** The first entry on its own. */
  lemma SegFirst(h: Heap, first: Ptr, up: Ptr, ts: seq<Tree>, end: Ptr)
    requires Seg(h, first, up, ts, end) && ts != []
    ensures Seg(h, first, up, [ts[0]], h.next[ts[0].id]) && Seg(h, h.next[ts[0].id], up, ts[1..], end)
  {
    assert [ts[0]][1..] == [];
  }

  /** Every entry of a segment is in the heap. */
  lemma {:induction false} SegEntries(h: Heap, first: Ptr, up: Ptr, ts: seq<Tree>, end: Ptr, x: Id)
    requires Seg(h, first, up, ts, end) && x in Ids(ts)
    ensures IsEntry(h, x)
    decreases SizeAll(ts)
  {
    assert Size(ts[0]) >= 1;
    if x in Ids(ts[0].kids) {
      SegEntries(h, h.list[ts[0].id], To(ts[0].id), ts[0].kids, Null, x);
    } else if x != ts[0].id {
      SegEntries(h, h.next[ts[0].id], up, ts[1..], end, x);
    }
  }

  /** Moving the end of a segment: the last entry is made to point elsewhere. */
  lemma {:induction false} SegRetarget(h: Heap, first: Ptr, up: Ptr, ts: seq<Tree>, end: Ptr, end': Ptr)
    requires Seg(h, first, up, ts, end) && ts != [] && Unique(PreorderAll(ts))
    ensures ts[|ts| - 1].id in h.next
    ensures Seg(h.(next := h.next[ts[|ts| - 1].id := end']), first, up, ts, end')
    decreases |ts|
  {
    var last := ts[|ts| - 1].id;
    UniqueFirst(ts);
    var x := ts[0].id;
    if |ts| == 1 {
      var h' := h.(next := h.next[x := end']);
      SegFrame(h, h', h.list[x], To(x), ts[0].kids, Null, {x});
    } else {
      assert ts[1..][|ts[1..]| - 1] == ts[|ts| - 1];
      SegRetarget(h, h.next[x], up, ts[1..], end, end');
      var h' := h.(next := h.next[last := end']);
      LastId(ts[1..]);
      SegFrame(h, h', h.list[x], To(x), ts[0].kids, Null, {last});
    }
  }

  lemma {:induction false} LastId(ts: seq<Tree>)
    requires ts != []
    ensures ts[|ts| - 1].id in Ids(ts)
    decreases |ts|
  {
    if |ts| > 1 {
      LastId(ts[1..]);
    }
  }

  /** A new parent for the first entry. */
  lemma SegReparent(h: Heap, first: Ptr, up: Ptr, t: Tree, end: Ptr, up': Ptr)
    requires Seg(h, first, up, [t], end) && Unique(PreorderAll([t]))
    ensures t.id in h.parent && Seg(h.(parent := h.parent[t.id := up']), first, up', [t], end)
  {
    UniqueFirst([t]);
    assert [t][1..] == [];
    SegFrame(h, h.(parent := h.parent[t.id := up']), h.list[t.id], To(t.id), t.kids, Null, {t.id});
  }

  lemma SegHead(h: Heap, first: Ptr, up: Ptr, ts: seq<Tree>, end: Ptr)
    requires Seg(h, first, up, ts, end) && ts != []
    ensures IsEntry(h, ts[0].id) && h.parent[ts[0].id] == up && Seg(h, h.list[ts[0].id], To(ts[0].id), ts[0].kids, Null)
    ensures h.list[ts[0].id] == Null <==> ts[0].kids == []
  {}
}
