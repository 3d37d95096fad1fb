/** menu_finalize (support/kconfig/menu.c) on linked entries. */
module MenuFinalize {
  import opened MenuForest
  import opened MenuHeap

  /** The loop over sub-entries: those in `done` are final, `menu` points to the first of `todo`. */
  ghost predicate KidsDone(f: Facts, h0: Heap, h: Heap, p: Id, kids: seq<Tree>, done: seq<Tree>, todo: seq<Tree>,
                           menu: Ptr) {
    && IsEntry(h, p) && p !in Ids(kids) && Unique(PreorderAll(kids)) && SameOutside(h0, h, Ids(kids))
    && Seg(h, h.list[p], To(p), done, menu) && Seg(h, menu, To(p), todo, Null)
    && PreorderAll(done) + PreorderAll(todo) == PreorderAll(kids)
    && FinalizeAll(f, kids) == done + FinalizeAll(f, todo)
    && SizeAll(todo) <= SizeAll(kids)
  }

  /** The links after an entry has been finalized: one more entry is done. */
  lemma SegStep(h: Heap, h': Heap, first: Ptr, up: Ptr, done: seq<Tree>, menu: Ptr, ids: set<Id>, entry: Tree,
                left: seq<Tree>)
    requires Seg(h, first, up, done, menu) && SameOutside(h, h', ids) && Ids(done) !! ids
    requires Seg(h', menu, up, [entry] + left, Null)
    ensures menu == To(entry.id) && entry.id in h'.next
    ensures Seg(h', first, up, done + [entry], h'.next[entry.id]) && Seg(h', h'.next[entry.id], up, left, Null)
  {
    SegFrame(h, h', first, up, done, menu, ids);
    assert ([entry] + left)[1..] == left;
    SegFirst(h', menu, up, [entry] + left, Null);
    SegJoin(h', first, up, done, menu, [entry], h'.next[entry.id]);
  }

  lemma KidsStep(f: Facts, h0: Heap, h: Heap, h': Heap, p: Id, kids: seq<Tree>, done: seq<Tree>, todo: seq<Tree>,
                 menu: Ptr)
    requires KidsDone(f, h0, h, p, kids, done, todo, menu) && todo != [] && SameOutside(h, h', Ids(todo))
    requires var r := Finalize(f, todo[0], todo[1..]); Seg(h', menu, To(p), [r.entry] + r.left, Null)
    ensures var r := Finalize(f, todo[0], todo[1..]);
            KidsDone(f, h0, h', p, kids, done + [r.entry], r.left, h'.next[menu.id])
  {
    var r := Finalize(f, todo[0], todo[1..]);
    Separate(done, todo);
    SegStep(h, h', h.list[p], To(p), done, menu, Ids(todo), r.entry, r.left);
    OrderStep(f, done, todo);
    SameIds(done, todo, kids);
    SameOutsideTransitive(h0, h, h', Ids(kids), Ids(todo));
  }

  lemma OrderStep(f: Facts, done: seq<Tree>, todo: seq<Tree>)
    requires todo != []
    ensures var r := Finalize(f, todo[0], todo[1..]);
            && PreorderAll(done + [r.entry]) + PreorderAll(r.left) == PreorderAll(done) + PreorderAll(todo)
            && SizeAll(r.left) < SizeAll(todo)
            && done + FinalizeAll(f, todo) == (done + [r.entry]) + FinalizeAll(f, r.left)
  {
    var r := Finalize(f, todo[0], todo[1..]);
    FinalizeKeepsOrder(f, todo[0], todo[1..]);
    OrderJoin(done, r.entry, r.left, todo);
    assert Size(todo[0]) >= 1;
    assert FinalizeAll(f, todo) == [r.entry] + FinalizeAll(f, r.left);
    Concat(done, [r.entry], FinalizeAll(f, r.left));
  }

  /** Moving an entry from one list to the end of another keeps the order. */
  lemma OrderJoin(done: seq<Tree>, entry: Tree, left: seq<Tree>, todo: seq<Tree>)
    requires Preorder(entry) + PreorderAll(left) == PreorderAll(todo)
    ensures PreorderAll(done + [entry]) + PreorderAll(left) == PreorderAll(done) + PreorderAll(todo)
  {
    PreorderAllAppend(done, [entry]);
    PreorderOne(entry);
    Concat(PreorderAll(done), Preorder(entry), PreorderAll(left));
  }

  /** The loop over the following siblings: those in `taken` are final and have the parent `p`. */
  ghost predicate Absorbing(f: Facts, h0: Heap, h: Heap, p: Id, rest: seq<Tree>, up: Ptr,
                            taken: seq<Tree>, todo: seq<Tree>, menu: Ptr)
  {
    && IsEntry(h, p) && p !in Ids(rest) && Unique(PreorderAll(rest)) && SameOutside(h0, h, Ids(rest))
    && Seg(h, h.next[p], To(p), taken, menu) && Seg(h, menu, up, todo, Null)
    && PreorderAll(taken) + PreorderAll(todo) == PreorderAll(rest)
    && Absorb(f, p, rest) == Parted(taken + Absorb(f, p, todo).taken, Absorb(f, p, todo).left)
    && SizeAll(todo) <= SizeAll(rest)
  }

  /** The loop ends with the whole list or at an entry that does not belong below `p`. */
  lemma AbsorbEnd(f: Facts, h0: Heap, h: Heap, p: Id, rest: seq<Tree>, up: Ptr, taken: seq<Tree>, todo: seq<Tree>,
                  menu: Ptr)
    requires Absorbing(f, h0, h, p, rest, up, taken, todo, menu) && (menu == Null || !f.belongs(p, menu.id))
    ensures Absorb(f, p, rest) == Parted(taken, todo)
  {
    assert taken + [] == taken;
  }

  lemma AbsorbStart(f: Facts, h: Heap, p: Id, rest: seq<Tree>, up: Ptr)
    requires IsEntry(h, p) && Seg(h, h.next[p], up, rest, Null) && Unique(PreorderAll(rest)) && p !in Ids(rest)
    ensures Absorbing(f, h, h, p, rest, up, [], rest, h.next[p])
  {
    var a := Absorb(f, p, rest);
    assert [] + a.taken == a.taken && PreorderAll([]) + PreorderAll(rest) == PreorderAll(rest);
  }

  /** Finalizing an entry of the list `todo` and giving it the parent `p`. */
  lemma SegStepUp(h: Heap, h': Heap, first: Ptr, p: Id, up: Ptr, taken: seq<Tree>, menu: Ptr, ids: set<Id>, entry: Tree,
                  left: seq<Tree>)
    requires Seg(h, first, To(p), taken, menu) && SameOutside(h, h', ids) && Ids(taken) !! ids
    requires Seg(h', menu, up, [entry] + left, Null) && Unique(PreorderAll([entry] + left)) &&
             Ids([entry] + left) <= ids
    ensures entry.id in h'.parent && entry.id in h'.next
    ensures var h'' := h'.(parent := h'.parent[entry.id := To(p)]);
            && Seg(h'', first, To(p), taken + [entry], h'.next[entry.id])
            && Seg(h'', h'.next[entry.id], up, left, Null)
            && SameOutside(h, h'', ids)
  {
    var nx := h'.next[entry.id];
    var h'' := h'.(parent := h'.parent[entry.id := To(p)]);
    assert ([entry] + left)[1..] == left && ([entry] + left)[0] == entry;
    UniqueFirst([entry] + left);
    UniqueAppend([entry], left);
    SegFirst(h', menu, up, [entry] + left, Null);
    SegReparent(h', menu, up, entry, nx, To(p));
    SegFrame(h', h'', nx, up, left, Null, {entry.id});
    SegFrame(h, h'', first, To(p), taken, menu, ids);
    SegJoin(h'', first, To(p), taken, menu, [entry], nx);
  }

  lemma AbsorbStep(f: Facts, h0: Heap, h: Heap, h': Heap, p: Id, rest: seq<Tree>, up: Ptr,
                   taken: seq<Tree>, todo: seq<Tree>, menu: Ptr)
    requires Absorbing(f, h0, h, p, rest, up, taken, todo, menu) && todo != [] && f.belongs(p, todo[0].id)
    requires SameOutside(h, h', Ids(todo))
    requires var r := Finalize(f, todo[0], todo[1..]); Seg(h', menu, up, [r.entry] + r.left, Null)
    ensures menu == To(todo[0].id) && menu.id in h'.parent && menu.id in h'.next
    ensures var r := Finalize(f, todo[0], todo[1..]);
            Absorbing(f, h0, h'.(parent := h'.parent[menu.id := To(p)]), p, rest, up, taken + [r.entry], r.left,
              h'.next[menu.id])
  {
    var r := Finalize(f, todo[0], todo[1..]);
    Separate(taken, todo);
    FinalizeKeepsOrder(f, todo[0], todo[1..]);
    FirstAndRest(todo);
    PreorderAllAppend([r.entry], r.left);
    PreorderOne(r.entry);
    SameOrderSameIds([r.entry] + r.left, todo);
    SegStepUp(h, h', h.next[p], p, up, taken, menu, Ids(todo), r.entry, r.left);
    AbsorbOrderStep(f, p, taken, todo);
    SameIds(taken, todo, rest);
    SameOutsideTransitive(h0, h, h'.(parent := h'.parent[menu.id := To(p)]), Ids(rest), Ids(todo));
  }

  lemma PreorderOne(t: Tree)
    ensures PreorderAll([t]) == Preorder(t)
  {
    assert [t][1..] == [];
  }

  lemma AbsorbOrderStep(f: Facts, p: Id, taken: seq<Tree>, todo: seq<Tree>)
    requires todo != [] && f.belongs(p, todo[0].id)
    ensures var r := Finalize(f, todo[0], todo[1..]);
            && PreorderAll(taken + [r.entry]) + PreorderAll(r.left) == PreorderAll(taken) + PreorderAll(todo)
            && SizeAll(r.left) < SizeAll(todo)
            && taken + Absorb(f, p, todo).taken == (taken + [r.entry]) + Absorb(f, p, r.left).taken
            && Absorb(f, p, todo).left == Absorb(f, p, r.left).left
  {
    var r := Finalize(f, todo[0], todo[1..]);
    FinalizeKeepsOrder(f, todo[0], todo[1..]);
    OrderJoin(taken, r.entry, r.left, todo);
    assert Size(todo[0]) >= 1;
    Concat(taken, [r.entry], Absorb(f, p, r.left).taken);
  }

  /** Cutting the taken entries off the list of `p`'s siblings and hanging them below `p`. */
  lemma CutOff(h: Heap, p: Id, up: Ptr, taken: seq<Tree>, left: seq<Tree>, menu: Ptr)
    requires IsEntry(h, p) && p !in Ids(taken) && p !in Ids(left) && taken != []
    requires Seg(h, h.next[p], To(p), taken, menu) && Seg(h, menu, up, left, Null)
    requires Unique(PreorderAll(taken)) && Ids(taken) !! Ids(left)
    ensures var last := taken[|taken| - 1].id;
            && last in h.next && last in Ids(taken)
            && var h' := h.(list := h.list[p := h.next[p]], next := h.next[p := h.next[last]][last := Null]);
               && h.next[last] == menu
               && Seg(h', h'.list[p], To(p), taken, Null) && Seg(h', h'.next[p], up, left, Null)
  {
    var last := taken[|taken| - 1].id;
    LastId(taken);
    SegRetarget(h, h.next[p], To(p), taken, menu, Null);
    SegLast(h, h.next[p], To(p), taken, menu);
    var h1 := h.(next := h.next[last := Null]);
    var h' := h.(list := h.list[p := h.next[p]], next := h.next[p := h.next[last]][last := Null]);
    SegFrame(h1, h', h.next[p], To(p), taken, Null, {p});
    SegFrame(h, h', menu, up, left, Null, {p, last});
  }

  /** The links once the loop over the siblings is over and, where some were taken, the list is cut. */
  lemma Absorbed(f: Facts, h0: Heap, h: Heap, p: Id, rest: seq<Tree>, up: Ptr, taken: seq<Tree>, todo: seq<Tree>,
                 menu: Ptr)
    requires Absorbing(f, h0, h, p, rest, up, taken, todo, menu)
    ensures taken == [] ==> h.next[p] == menu && SameOutside(h0, h, Ids(rest) + {p})
    ensures taken != [] ==>
              var last := taken[|taken| - 1].id;
              && last in h.next && p in h.list
              && var h' := h.(list := h.list[p := h.next[p]], next := h.next[p := h.next[last]][last := Null]);
                 && Seg(h', h'.list[p], To(p), taken, Null) && Seg(h', h'.next[p], up, todo, Null)
                 && SameOutside(h0, h', Ids(rest) + {p})
  {
    SameIds(taken, todo, rest);
    if taken != [] {
      Separate(taken, todo);
      CutOff(h, p, up, taken, todo, menu);
    }
  }

  lemma {:induction false} SegLast(h: Heap, first: Ptr, up: Ptr, ts: seq<Tree>, end: Ptr)
    requires Seg(h, first, up, ts, end) && ts != []
    ensures ts[|ts| - 1].id in h.next && h.next[ts[|ts| - 1].id] == end
    decreases |ts|
  {
    if |ts| > 1 {
      SegLast(h, h.next[ts[0].id], up, ts[1..], end);
    }
  }

  /** The loop that gives all entries of a list the new parent `p`. */
  ghost predicate Reparenting(h0: Heap, h: Heap, first: Ptr, m: Id, p: Id, kids: seq<Tree>, done: seq<Tree>,
                              todo: seq<Tree>, last: Id) {
    && kids == done + todo && todo != [] && Unique(PreorderAll(kids))
    && h.next == h0.next && h.list == h0.list && SameOutside(h0, h, Ids(kids))
    && Seg(h, first, To(p), done, To(last)) && Seg(h, To(last), To(m), todo, Null)
  }

  lemma ReparentStep(h0: Heap, h: Heap, first: Ptr, m: Id, p: Id, kids: seq<Tree>, done: seq<Tree>, todo: seq<Tree>,
                     last: Id)
    requires Reparenting(h0, h, first, m, p, kids, done, todo, last)
    ensures todo[0].id == last && last in h.parent && last in h.next
    ensures var h' := h.(parent := h.parent[last := To(p)]);
            && SameOutside(h0, h', Ids(kids))
            && Seg(h', first, To(p), done + [todo[0]], h.next[last]) && Seg(h', h.next[last], To(m), todo[1..], Null)
    ensures kids == (done + [todo[0]]) + todo[1..]
  {
    FirstAndRest(todo);
    UniqueAppend(done, todo);
    IdsAppend(done, todo);
    UniqueFirst(todo);
    SameOutsideSelf(h, Ids(todo));
    SegStepUp(h, h, first, p, To(m), done, To(last), Ids(todo), todo[0], todo[1..]);
    SameOutsideTransitive(h0, h, h.(parent := h.parent[last := To(p)]), Ids(kids), Ids(todo));
  }

  lemma SameOutsideSelf(h: Heap, ids: set<Id>)
    ensures SameOutside(h, h, ids)
  {}

  /** The last loop of menu_finalize: no entry of `done` has sub-entries without a prompt. */
  ghost predicate Promoting(f: Facts, h0: Heap, h: Heap, p: Id, kids: seq<Tree>, done: seq<Tree>, todo: seq<Tree>,
                            menu: Ptr) {
    && IsEntry(h, p) && p !in Ids(kids) && Unique(PreorderAll(kids)) && SameOutside(h0, h, Ids(kids))
    && Seg(h, h.list[p], To(p), done, menu) && Seg(h, menu, To(p), todo, Null)
    && PreorderAll(done) + PreorderAll(todo) == PreorderAll(kids)
    && Promote(f, kids) == done + Promote(f, todo)
  }

  lemma PromotePass(f: Facts, h0: Heap, h: Heap, p: Id, kids: seq<Tree>, done: seq<Tree>, todo: seq<Tree>, menu: Ptr)
    requires Promoting(f, h0, h, p, kids, done, todo, menu) && todo != []
    requires todo[0].kids == [] || f.hasText(todo[0].id)
    ensures menu == To(todo[0].id) && menu.id in h.next
    ensures Promoting(f, h0, h, p, kids, done + [todo[0]], todo[1..], h.next[menu.id])
    ensures SizeAll(todo[1..]) < SizeAll(todo)
  {
    SegFirst(h, menu, To(p), todo, Null);
    SegJoin(h, h.list[p], To(p), done, menu, [todo[0]], h.next[menu.id]);
    PassFacts(f, done, todo);
  }

  lemma PassFacts(f: Facts, done: seq<Tree>, todo: seq<Tree>)
    requires todo != [] && (todo[0].kids == [] || f.hasText(todo[0].id))
    ensures PreorderAll(done + [todo[0]]) + PreorderAll(todo[1..]) == PreorderAll(done) + PreorderAll(todo)
    ensures done + Promote(f, todo) == (done + [todo[0]]) + Promote(f, todo[1..])
    ensures SizeAll(todo[1..]) < SizeAll(todo)
  {
    PreorderAllAppend(done, [todo[0]]);
    PreorderOne(todo[0]);
    Concat(PreorderAll(done), Preorder(todo[0]), PreorderAll(todo[1..]));
    assert Promote(f, todo) == [todo[0]] + Promote(f, todo[1..]);
    Concat(done, [todo[0]], Promote(f, todo[1..]));
    assert Size(todo[0]) >= 1;
  }

  lemma Concat<T>(a: seq<T>, b: seq<T>, c: seq<T>)
    ensures (a + b) + c == a + (b + c)
  {}

  /** What the list looks like after the sub-entries of its first entry have moved up. */
  function Raised(todo: seq<Tree>): seq<Tree>
    requires todo != []
  {
    todo[0].kids + todo[1..]
  }

  lemma RaisedOrder(done: seq<Tree>, todo: seq<Tree>, top: Tree)
    requires todo != [] && top == Node(todo[0].id, [])
    ensures PreorderAll(done + [top]) + PreorderAll(Raised(todo)) == PreorderAll(done) + PreorderAll(todo)
  {
    PreorderAllAppend(done, [top]);
    PreorderOne(top);
    assert Preorder(top) == [top.id];
    PreorderAllAppend(todo[0].kids, todo[1..]);
    PreorderFirst(todo);
    Concat(PreorderAll(done), [top.id], PreorderAll(Raised(todo)));
  }

  lemma RaisedSize(todo: seq<Tree>)
    requires todo != []
    ensures SizeAll(Raised(todo)) < SizeAll(todo)
  {
    SizeAllAppend(todo[0].kids, todo[1..]);
    assert Size(todo[0]) == 1 + SizeAll(todo[0].kids);
  }

  lemma RaisedFacts(f: Facts, done: seq<Tree>, todo: seq<Tree>)
    requires todo != [] && todo[0].kids != [] && !f.hasText(todo[0].id)
    ensures var top := Node(todo[0].id, []);
            && PreorderAll(done + [top]) + PreorderAll(Raised(todo)) == PreorderAll(done) + PreorderAll(todo)
            && done + Promote(f, todo) == (done + [top]) + Promote(f, Raised(todo))
            && SizeAll(Raised(todo)) < SizeAll(todo)
  {
    var top := Node(todo[0].id, []);
    RaisedOrder(done, todo, top);
    RaisedSize(todo);
    Concat(done, [top], Promote(f, Raised(todo)));
  }

  /** Linking the reparented sub-entries `kids` of `m` between `m` and its successor. */
  lemma SpliceIn(h: Heap, p: Id, m: Id, kids: seq<Tree>, left: seq<Tree>)
    requires IsEntry(h, m) && kids != [] && h.parent[m] == To(p)
    requires Seg(h, h.list[m], To(p), kids, Null) && Seg(h, h.next[m], To(p), left, Null)
    requires Unique(PreorderAll(kids)) && m !in Ids(kids) && m !in Ids(left) && Ids(kids) !! Ids(left)
    ensures var last := kids[|kids| - 1].id;
            && last in h.next && last in Ids(kids)
            && var h' := h.(next := h.next[last := h.next[m]][m := h.list[m]], list := h.list[m := Null]);
               && Seg(h', To(m), To(p), [Node(m, [])], h.list[m])
               && Seg(h', h.list[m], To(p), kids + left, Null)
  {
    var last := kids[|kids| - 1].id;
    LastId(kids);
    SegRetarget(h, h.list[m], To(p), kids, Null, h.next[m]);
    var h1 := h.(next := h.next[last := h.next[m]]);
    var h' := h.(next := h.next[last := h.next[m]][m := h.list[m]], list := h.list[m := Null]);
    SegFrame(h1, h', h.list[m], To(p), kids, h.next[m], {m});
    SegFrame(h, h', h.next[m], To(p), left, Null, {m, last});
    SegJoin(h', h.list[m], To(p), kids, h.next[m], left, Null);
    assert [Node(m, [])][1..] == [];
  }

  /** The links of the list of `p` after the splice. */
  lemma PromoteLinks(h: Heap, h1: Heap, p: Id, done: seq<Tree>, todo: seq<Tree>, m: Id)
    requires IsEntry(h, p) && Seg(h, h.list[p], To(p), done, To(m)) && Seg(h, To(m), To(p), todo, Null) &&
             p !in Ids(todo)
    requires todo != [] && todo[0].kids != [] && Unique(PreorderAll(todo)) && Ids(done) !! Ids(todo)
    requires SameOutside(h, h1, Ids(todo[0].kids)) && Seg(h1, h.list[m], To(p), todo[0].kids, Null)
    requires h1.next == h.next && h1.list == h.list
    ensures var last := todo[0].kids[|todo[0].kids| - 1].id;
            && last in h.next && m in h.next && m in h.list
            && var h' := h1.(next := h.next[last := h.next[m]][m := h.list[m]], list := h.list[m := Null]);
               && Seg(h', h'.list[p], To(p), done + [Node(m, [])], h'.next[m]) &&
                  Seg(h', h'.next[m], To(p), Raised(todo), Null)
               && SameOutside(h, h', Ids(todo)) && h'.list[p] == h.list[p]
  {
    var top, moved, left := Node(m, []), todo[0].kids, todo[1..];
    var last := moved[|moved| - 1].id;
    UniqueFirst(todo);
    SegFrame(h, h1, h.next[m], To(p), left, Null, Ids(moved));
    SpliceIn(h1, p, m, moved, left);
    var h' := h1.(next := h.next[last := h.next[m]][m := h.list[m]], list := h.list[m := Null]);
    SplicedOutside(h, h1, m, moved, todo);
    SegFrame(h, h', h.list[p], To(p), done, To(m), Ids(todo));
    SegJoin(h', h.list[p], To(p), done, To(m), [top], h.list[m]);
  }

  /** What a round of the last loop finds at an entry whose sub-entries are to move up. */
  lemma PromoteReady(f: Facts, h0: Heap, h: Heap, p: Id, kids: seq<Tree>, done: seq<Tree>, todo: seq<Tree>, m: Id)
    requires Promoting(f, h0, h, p, kids, done, todo, To(m)) && m in h.list && h.list[m] != Null && !f.hasText(m)
    ensures todo != [] && todo[0].id == m && todo[0].kids != [] && IsEntry(h, m) &&
            SizeAll(Raised(todo)) < SizeAll(todo)
    ensures Seg(h, h.list[m], To(m), todo[0].kids, Null) && Unique(PreorderAll(todo[0].kids))
  {
    Separate(done, todo);
    SegHead(h, To(m), To(p), todo, Null);
    UniqueFirst(todo);
    RaisedFacts(f, done, todo);
  }

  /**
   `h1` is the heap with the sub-entries of the first entry of `todo` reparented, `h'` the one with them linked in.
   */
  lemma PromoteStep(f: Facts, h0: Heap, h: Heap, h1: Heap, p: Id, kids: seq<Tree>, done: seq<Tree>, todo: seq<Tree>,
                    m: Id)
    requires Promoting(f, h0, h, p, kids, done, todo, To(m)) && todo != [] && todo[0].kids != [] && !f.hasText(m)
    requires SameOutside(h, h1, Ids(todo[0].kids)) && Seg(h1, h.list[m], To(p), todo[0].kids, Null)
    requires h1.next == h.next && h1.list == h.list
    ensures var last := todo[0].kids[|todo[0].kids| - 1].id;
            && last in h.next && m in h.next && m in h.list
            && var h' := h1.(next := h.next[last := h.next[m]][m := h.list[m]], list := h.list[m := Null]);
               Promoting(f, h0, h', p, kids, done + [Node(m, [])], Raised(todo), h'.next[m])
  {
    Separate(done, todo);
    SameIds(done, todo, kids);
    PromoteLinks(h, h1, p, done, todo, m);
    RaisedFacts(f, done, todo);
    var last := todo[0].kids[|todo[0].kids| - 1].id;
    var h' := h1.(next := h.next[last := h.next[m]][m := h.list[m]], list := h.list[m := Null]);
    SameOutsideTransitive(h0, h, h', Ids(kids), Ids(todo));
  }

  lemma SplicedOutside(h: Heap, h1: Heap, m: Id, moved: seq<Tree>, todo: seq<Tree>)
    requires todo != [] && todo[0] == Node(m, moved) && moved != [] && Unique(PreorderAll(todo))
    requires m in h.next && m in h.list && SameOutside(h, h1, Ids(moved)) && h1.next == h.next && h1.list == h.list
    requires moved[|moved| - 1].id in h.next
    ensures var last := moved[|moved| - 1].id;
            SameOutside(h, h1.(next := h.next[last := h.next[m]][m := h.list[m]], list := h.list[m := Null]), Ids(todo))
  {
    UniqueFirst(todo);
    LastId(moved);
  }

  /** An entry whose sub-entries have been rearranged, with the siblings it has left. */
  lemma EntryDone(h: Heap, h': Heap, p: Id, up: Ptr, kids: seq<Tree>, final: seq<Tree>, left: seq<Tree>)
    requires IsEntry(h, p) && h.parent[p] == up && p !in Ids(kids) && Ids(kids) !! Ids(left)
    requires Seg(h, h.next[p], up, left, Null) && SameOutside(h, h', Ids(kids))
    requires Seg(h', h.list[p], To(p), final, Null)
    ensures Seg(h', To(p), up, [Node(p, final)] + left, Null)
  {
    SegFrame(h, h', h.next[p], up, left, Null, Ids(kids));
    assert ([Node(p, final)] + left)[1..] == left;
  }

  lemma FirstAndRest(ts: seq<Tree>)
    requires ts != []
    ensures [ts[0]] + ts[1..] == ts
  {}

  class MenuTable {
    const f: Facts
    var next: map<Id, Ptr>
    var list: map<Id, Ptr>
    var parent: map<Id, Ptr>

    ghost function H(): Heap
      reads this
    {
      Heap(next, list, parent)
    }

    /** The loop that finalizes the sub-entries of `p`; an entry may take over its successors meanwhile. */
    method FinalizeKids(p: Id, ghost kids: seq<Tree>)
      requires IsEntry(H(), p) && Seg(H(), list[p], To(p), kids, Null)
      requires Unique(PreorderAll(kids)) && p !in Ids(kids)
      modifies this
      ensures SameOutside(old(H()), H(), Ids(kids))
      ensures Seg(H(), list[p], To(p), MenuForest.FinalizeAll(f, kids), Null)
      decreases SizeAll(kids), 2
    {
      var menu := list[p];
      ghost var done, todo: seq<Tree> := [], kids;
      while menu != Null
        invariant KidsDone(f, old(H()), H(), p, kids, done, todo, menu)
        decreases SizeAll(todo)
      {
        ghost var h := H();
        Separate(done, todo);
        FirstAndRest(todo);
        OrderStep(f, done, todo);
        FinalizeEntry(menu.id, todo[0], todo[1..], To(p));
        KidsStep(f, old(H()), h, H(), p, kids, done, todo, menu);
        ghost var r := MenuForest.Finalize(f, todo[0], todo[1..]);
        menu := next[menu.id];
        done, todo := done + [r.entry], r.left;
      }
      assert done + [] == done;
    }

    /** One round of the loop over the siblings after `p`: the entry at `menu` is finalized and taken over. */
    method AbsorbOne(p: Id, menu: Id, ghost h0: Heap, ghost rest: seq<Tree>, ghost up: Ptr, ghost taken: seq<Tree>,
                     ghost todo: seq<Tree>)
      requires Absorbing(f, h0, H(), p, rest, up, taken, todo, To(menu)) && f.belongs(p, menu)
      modifies this
      ensures todo != [] && menu in next
      ensures var r := Finalize(f, todo[0], todo[1..]);
              Absorbing(f, h0, H(), p, rest, up, taken + [r.entry], r.left, next[menu]) && r.entry.id == menu
      ensures SizeAll(Finalize(f, todo[0], todo[1..]).left) < SizeAll(todo)
      decreases SizeAll(todo), 2
    {
      ghost var h := H();
      Separate(taken, todo);
      FirstAndRest(todo);
      AbsorbOrderStep(f, p, taken, todo);
      FinalizeEntry(menu, todo[0], todo[1..], up);
      AbsorbStep(f, h0, h, H(), p, rest, up, taken, todo, To(menu));
      parent := parent[menu := To(p)];
    }

    /** The loop over the siblings after `p`; `last` is the last entry taken over. */
    method AbsorbLoop(p: Id, ghost rest: seq<Tree>, ghost up: Ptr)
      returns (last: Ptr, menu: Ptr, ghost taken: seq<Tree>, ghost todo: seq<Tree>)
      requires IsEntry(H(), p) && Seg(H(), next[p], up, rest, Null)
      requires Unique(PreorderAll(rest)) && p !in Ids(rest)
      modifies this
      ensures Absorbing(f, old(H()), H(), p, rest, up, taken, todo, menu)
      ensures Absorb(f, p, rest) == Parted(taken, todo)
      ensures last == if taken == [] then Null else To(taken[|taken| - 1].id)
      decreases SizeAll(rest), 3
    {
      last, menu, taken, todo := Null, next[p], [], rest;
      AbsorbStart(f, H(), p, rest, up);
      while menu != Null
        invariant Absorbing(f, old(H()), H(), p, rest, up, taken, todo, menu)
        invariant last == if taken == [] then Null else To(taken[|taken| - 1].id)
        decreases SizeAll(todo)
      {
        if !f.belongs(p, menu.id) {
          break;
        }
        AbsorbOne(p, menu.id, old(H()), rest, up, taken, todo);
        ghost var r := Finalize(f, todo[0], todo[1..]);
        last := menu;
        menu := next[menu.id];
        taken, todo := taken + [r.entry], r.left;
      }
      AbsorbEnd(f, old(H()), H(), p, rest, up, taken, todo, menu);
    }

    /** The auto-submenu part of menu_finalize: `p` has a symbol and no sub-entries yet. */
    method AbsorbSiblings(p: Id, ghost rest: seq<Tree>, ghost up: Ptr)
      requires IsEntry(H(), p) && list[p] == Null && Seg(H(), next[p], up, rest, Null)
      requires Unique(PreorderAll(rest)) && p !in Ids(rest)
      modifies this
      ensures SameOutside(old(H()), H(), Ids(rest) + {p}) && parent[p] == old(parent[p])
      ensures var a := Absorb(f, p, rest);
              Seg(H(), list[p], To(p), a.taken, Null) && Seg(H(), next[p], up, a.left, Null)
      decreases SizeAll(rest), 4
    {
      var last, menu;
      ghost var taken, todo;
      last, menu, taken, todo := AbsorbLoop(p, rest, up);
      Absorbed(f, old(H()), H(), p, rest, up, taken, todo, menu);
      if last != Null {
        list := list[p := next[p]];
        next := next[p := next[last.id]];
        next := next[last.id := Null];
      }
    }

    /** The loop over the sub-entries of `m` that makes `p` their parent and finds the last of them. */
    method Reparent(m: Id, p: Id, ghost kids: seq<Tree>) returns (last: Id)
      requires IsEntry(H(), m) && kids != [] && Seg(H(), list[m], To(m), kids, Null) && Unique(PreorderAll(kids))
      modifies this`parent
      ensures SameOutside(old(H()), H(), Ids(kids)) && last == kids[|kids| - 1].id
      ensures Seg(H(), list[m], To(p), kids, Null)
    {
      last := list[m].id;
      ghost var done, todo: seq<Tree> := [], kids;
      while true
        invariant Reparenting(old(H()), H(), list[m], m, p, kids, done, todo, last)
        decreases |todo|
      {
        ReparentStep(old(H()), H(), list[m], m, p, kids, done, todo, last);
        parent := parent[last := To(p)];
        done, todo := done + [todo[0]], todo[1..];
        if next[last] == Null {
          break;
        }
        last := next[last].id;
      }
      assert done + [] == done;
    }

    /** One round of the last loop of menu_finalize, at an entry with sub-entries and no prompt text. */
    method PromoteOne(p: Id, menu: Id, ghost h0: Heap, ghost kids: seq<Tree>, ghost done: seq<Tree>,
                      ghost todo: seq<Tree>)
      requires Promoting(f, h0, H(), p, kids, done, todo, To(menu))
      requires menu in list && list[menu] != Null && !f.hasText(menu)
      modifies this
      ensures todo != [] && menu in next && SizeAll(Raised(todo)) < SizeAll(todo)
      ensures Promoting(f, h0, H(), p, kids, done + [Node(menu, [])], Raised(todo), next[menu])
    {
      ghost var h := H();
      PromoteReady(f, h0, h, p, kids, done, todo, menu);
      var last := Reparent(menu, p, todo[0].kids);
      PromoteStep(f, h0, h, H(), p, kids, done, todo, menu);
      next := next[last := next[menu]];
      next := next[menu := list[menu]];
      list := list[menu := Null];
    }

    /** The last loop of menu_finalize. */
    method PromoteKids(p: Id, ghost kids: seq<Tree>)
      requires IsEntry(H(), p) && Seg(H(), list[p], To(p), kids, Null)
      requires Unique(PreorderAll(kids)) && p !in Ids(kids)
      modifies this
      ensures SameOutside(old(H()), H(), Ids(kids))
      ensures Seg(H(), list[p], To(p), Promote(f, kids), Null)
    {
      var menu := list[p];
      ghost var done, todo: seq<Tree> := [], kids;
      while menu != Null
        invariant Promoting(f, old(H()), H(), p, kids, done, todo, menu)
        decreases SizeAll(todo)
      {
        if list[menu.id] != Null && !f.hasText(menu.id) {
          PromoteOne(p, menu.id, old(H()), kids, done, todo);
          done, todo := done + [Node(menu.id, [])], Raised(todo);
        } else {
          SegHead(H(), menu, To(p), todo, Null);
          PromotePass(f, old(H()), H(), p, kids, done, todo, menu);
          done, todo := done + [todo[0]], todo[1..];
        }
        menu := next[menu.id];
      }
      assert done + [] == done;
    }

    /** The first part of menu_finalize: the sub-entries of `p`, those it has or those it takes over, are final. */
    method Gather(p: Id, ghost t: Tree, ghost rest: seq<Tree>, ghost up: Ptr)
      returns (ghost kids: seq<Tree>, ghost left: seq<Tree>)
      requires t.id == p && IsEntry(H(), p) && parent[p] == up && (list[p] == Null <==> t.kids == [])
      requires Seg(H(), list[p], To(p), t.kids, Null) && Seg(H(), next[p], up, rest, Null)
      requires Unique(PreorderAll(t.kids)) && Unique(PreorderAll(rest)) && p !in Ids(t.kids) && p !in Ids(rest) &&
               Ids(t.kids) !! Ids(rest)
      modifies this
      ensures SameOutside(old(H()), H(), {p} + Ids(t.kids) + Ids(rest)) && IsEntry(H(), p) && parent[p] == up
      ensures Seg(H(), list[p], To(p), kids, Null) && Seg(H(), next[p], up, left, Null)
      ensures Unique(PreorderAll(kids)) && p !in Ids(kids) && p !in Ids(left) && Ids(kids) !! Ids(left)
      ensures Ids(kids) + Ids(left) <= Ids(t.kids) + Ids(rest)
      ensures Finalize(f, t, rest) == Finished(Node(p, Promote(f, kids)), left)
      decreases Size(t) + SizeAll(rest), 0
    {
      kids, left := t.kids, rest;
      if list[p] != Null {
        ghost var h0 := H();
        FinalizeKids(p, t.kids);
        SegFrame(h0, H(), h0.next[p], up, rest, Null, Ids(t.kids));
        kids := FinalizeAll(f, t.kids);
        FinalizeAllKeepsOrder(f, t.kids);
        SameOrderSameIds(kids, t.kids);
      } else if f.hasSym(p) {
        AbsorbSiblings(p, rest, up);
        kids, left := Absorb(f, p, rest).taken, Absorb(f, p, rest).left;
        AbsorbKeepsOrder(f, p, rest);
        Separate(kids, left);
        SameIds(kids, left, rest);
      }
    }

    /** menu_finalize */
    method FinalizeEntry(p: Id, ghost t: Tree, ghost rest: seq<Tree>, ghost up: Ptr)
      requires Seg(H(), To(p), up, [t] + rest, Null) && Unique(PreorderAll([t] + rest))
      modifies this
      ensures SameOutside(old(H()), H(), Ids([t] + rest))
      ensures var r := Finalize(f, t, rest); Seg(H(), To(p), up, [r.entry] + r.left, Null)
      decreases Size(t) + SizeAll(rest), 1
    {
      assert ([t] + rest)[0] == t && ([t] + rest)[1..] == rest;
      SegHead(H(), To(p), up, [t] + rest, Null);
      UniqueFirst([t] + rest);
      ghost var kids, left := Gather(p, t, rest, up);
      ghost var h := H();
      PromoteKids(p, kids);
      EntryDone(h, H(), p, up, kids, Promote(f, kids), left);
    }
  }
}
