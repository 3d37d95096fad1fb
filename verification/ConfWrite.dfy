/**
 Writing the configuration (support/kconfig/confdata.c: the walk in conf_write). The menu tree is
 walked without a stack, by `list`, `next` and by climbing `parent`.
 */
module ConfWrite {
  import opened Expressions
  import opened MenuForest
  import opened MenuHeap

  /** What the walk has still to do above the current list: the siblings after each entry that was gone into. */
  datatype Above = Top | Below(owner: Id, rest: seq<Tree>, above: Above)

  /** `up` is the parent of the current list, and the pending siblings are linked as `z` says. */
  ghost predicate Zipped(h: Heap, root: Id, up: Ptr, z: Above)
    decreases z
  {
    match z
    case Top => up == To(root)
    case Below(owner, rest, above) =>
      && up == To(owner) && IsEntry(h, owner)
      && Seg(h, h.next[owner], h.parent[owner], rest, Null) && Zipped(h, root, h.parent[owner], above)
  }

  function Pending(z: Above): seq<Id> {
    match z
    case Top => []
    case Below(_, rest, above) => PreorderAll(rest) + Pending(above)
  }

  function Depth(z: Above): nat {
    match z
    case Top => 0
    case Below(_, _, above) => 1 + Depth(above)
  }

  /** The symbols printed when the entries `ids` are met in this order; printing a symbol clears its flag. */
  function Printed(ids: seq<Id>, sym: map<Id, Symbol>, flagged: set<Symbol>): seq<Symbol> {
    if ids == [] then []
    else if ids[0] in sym && sym[ids[0]] in flagged then
      [sym[ids[0]]] + Printed(ids[1..], sym, flagged - {sym[ids[0]]})
    else Printed(ids[1..], sym, flagged)
  }

  predicate NoRepeats(out: seq<Symbol>) { forall i, j :: 0 <= i < j < |out| ==> out[i] != out[j] }

  /** Each symbol is printed at most once, and those printed are the flagged symbols that occur. */
  lemma {:induction false} PrintedOnce(ids: seq<Id>, sym: map<Id, Symbol>, flagged: set<Symbol>)
    ensures var out := Printed(ids, sym, flagged);
            && NoRepeats(out)
            && (forall s :: s in out <==> s in flagged && exists x :: x in ids && x in sym && sym[x] == s)
  {
    if ids != [] {
      var x := ids[0];
      if x in sym && sym[x] in flagged {
        PrintedOnce(ids[1..], sym, flagged - {sym[x]});
      } else {
        PrintedOnce(ids[1..], sym, flagged);
        assert Printed(ids, sym, flagged) == Printed(ids[1..], sym, flagged);
      }
    }
  }

  /** Looking at the entries of `a`, then at those of `b`. */
  lemma {:induction false} PrintedAppend(a: seq<Id>, b: seq<Id>, sym: map<Id, Symbol>, flagged: set<Symbol>)
    ensures Printed(a + b, sym, flagged) == Printed(a, sym, flagged) + Printed(b, sym, Unprinted(a, sym, flagged))
  {
    if a == [] {
      assert a + b == b;
    } else {
      assert (a + b)[1..] == a[1..] + b;
      PrintedAppend(a[1..], b, sym, if a[0] in sym then flagged - {sym[a[0]]} else flagged);
      assert a[0] in sym && sym[a[0]] !in flagged ==> flagged - {sym[a[0]]} == flagged;
    }
  }

  function Unprinted(ids: seq<Id>, sym: map<Id, Symbol>, flagged: set<Symbol>): set<Symbol> {
    if ids == [] then flagged
    else Unprinted(ids[1..], sym, if ids[0] in sym then flagged - {sym[ids[0]]} else flagged)
  }

  lemma {:induction false} UnprintedAppend(ids: seq<Id>, x: Id, sym: map<Id, Symbol>, flagged: set<Symbol>)
    ensures var left := Unprinted(ids, sym, flagged);
            Unprinted(ids + [x], sym, flagged) == if x in sym then left - {sym[x]} else left
  {
    if ids == [] {
      assert [x][1..] == [];
    } else {
      assert (ids + [x])[1..] == ids[1..] + [x];
      UnprintedAppend(ids[1..], x, sym, if ids[0] in sym then flagged - {sym[ids[0]]} else flagged);
    }
  }

  /** The position of the walk: `ts` starts with the entry to visit next. */
  ghost predicate AtEntry(h: Heap, root: Id, all: seq<Id>, visited: seq<Id>, menu: Ptr, up: Ptr, ts: seq<Tree>,
                          z: Above) {
    && menu != Null && Seg(h, menu, up, ts, Null) && Zipped(h, root, up, z)
    && visited + (PreorderAll(ts) + Pending(z)) == all
  }

  lemma GoDown(h: Heap, root: Id, all: seq<Id>, visited: seq<Id>, menu: Ptr, up: Ptr, ts: seq<Tree>, z: Above)
    requires AtEntry(h, root, all, visited, menu, up, ts, z)
    ensures ts != [] && menu.id == ts[0].id && IsEntry(h, menu.id)
    ensures h.list[menu.id] != Null ==>
              AtEntry(h, root, all, visited + [menu.id], h.list[menu.id], menu, ts[0].kids, Below(menu.id, ts[1..], z))
    ensures h.list[menu.id] == Null && h.next[menu.id] != Null ==>
              AtEntry(h, root, all, visited + [menu.id], h.next[menu.id], up, ts[1..], z)
    ensures h.list[menu.id] == Null && h.next[menu.id] == Null ==>
              h.parent[menu.id] == up && visited + [menu.id] + Pending(z) == all
  {
    SegHead(h, menu, up, ts, Null);
    PreorderFirst(ts);
    var x, k, r, p := menu.id, PreorderAll(ts[0].kids), PreorderAll(ts[1..]), Pending(z);
    assert visited + (([x] + (k + r)) + p) == (visited + [x]) + (k + (r + p));
    if h.list[x] == Null {
      assert k == [] && k + r == r;
      if h.next[x] == Null {
        assert Seg(h, Null, up, ts[1..], Null) && ts[1..] == [];
        assert (visited + [x]) + (k + (r + p)) == visited + [x] + p;
      } else {
        assert (visited + [x]) + (k + (r + p)) == (visited + [x]) + (r + p);
      }
    }
  }

  class Writer {
    const h: Heap
    /** The symbol of an entry; entries without one and choices are not in the map. */
    const sym: map<Id, Symbol>
    /** The symbols sym_calc_value sets SYMBOL_WRITE for. */
    const wanted: set<Symbol>
    /** The symbols evaluated while an entry is looked at. */
    const touched: map<Id, set<Symbol>>
    var valid: set<Symbol>
    var write: set<Symbol>
    var out: seq<Symbol>

    /** The symbols that will be found flagged when they are looked at. */
    ghost function Flagged(): set<Symbol>
      reads this
    {
      write * valid + (wanted - valid)
    }

    /** The body of the loop for one entry: evaluate, and print a symbol with SYMBOL_WRITE set. */
    method Visit(x: Id)
      requires x in sym ==> x in touched && sym[x] in touched[x]
      modifies this
      ensures valid >= old(valid)
      ensures out == old(out) + (if x in sym && sym[x] in old(Flagged()) then [sym[x]] else [])
      ensures Flagged() == if x in sym then old(Flagged()) - {sym[x]} else old(Flagged())
    {
      if x in touched {
        // sym_calc_value does nothing for a valid symbol
        write := write + (touched[x] - valid) * wanted - ((touched[x] - valid) - wanted);
        valid := valid + touched[x];
      }
      if x in sym && sym[x] in write {
        write := write - {sym[x]};
        out := out + [sym[x]];
      }
    }

    /** Climbing from an entry without successor: to the next entry to visit, or to the end. */
    method Climb(x: Id, root: Id, ghost all: seq<Id>, ghost visited: seq<Id>, ghost up: Ptr, ghost z: Above)
      returns (menu: Ptr, ghost up': Ptr, ghost ts: seq<Tree>, ghost z': Above)
      requires IsEntry(h, root) && h.parent[root] == Null && h.next[root] == Null
      requires x in h.parent && h.parent[x] == up && Zipped(h, root, up, z) && visited + Pending(z) == all
      ensures menu == Null ==> visited == all
      ensures menu != Null ==> AtEntry(h, root, all, visited, menu, up', ts, z')
    {
      menu, up', ts, z' := h.parent[x], up, [], z;
      while menu != Null
        invariant menu == Null ==> visited == all
        invariant menu != Null ==> menu == up' && Zipped(h, root, up', z') && visited + Pending(z') == all
        decreases menu != Null, Depth(z')
      {
        var next := h.next[menu.id];
        if next != Null {
          ts, up', z' := z'.rest, h.parent[menu.id], z'.above;
          menu := next;
          return;
        }
        menu := h.parent[menu.id];
        match z' {
          case Top =>
          case Below(_, rest, above) =>
            assert rest == [] && PreorderAll(rest) + Pending(above) == Pending(above);
            up', z' := menu, above;
        }
      }
    }

    /** The walk of conf_write over the entries below `root`. */
    method Write(root: Id, ghost kids: seq<Tree>) returns (ghost visited: seq<Id>)
      requires IsEntry(h, root) && h.parent[root] == Null && h.next[root] == Null
      requires Seg(h, h.list[root], To(root), kids, Null)
      requires forall x :: x in sym ==> x in touched && sym[x] in touched[x]
      requires out == []
      modifies this
      ensures visited == PreorderAll(kids)
      ensures out == Printed(visited, sym, old(Flagged()))
    {
      ghost var all := PreorderAll(kids);
      ghost var flags := Flagged();
      var menu := h.list[root];
      ghost var up, ts, z := To(root), kids, Top;
      visited := [];
      assert PreorderAll(kids) + Pending(Top) == all && [] + all == all;
      while menu != Null
        invariant menu != Null ==> AtEntry(h, root, all, visited, menu, up, ts, z)
        invariant menu == Null ==> visited == all
        invariant out == Printed(visited, sym, flags) && Flagged() == Unprinted(visited, sym, flags)
        decreases if menu == Null then 0 else |all| - |visited|
      {
        GoDown(h, root, all, visited, menu, up, ts, z);
        PrintedAppend(visited, [menu.id], sym, flags);
        UnprintedAppend(visited, menu.id, sym, flags);
        Visit(menu.id);
        visited := visited + [menu.id];
        if h.list[menu.id] != Null {
          ts, z, up := ts[0].kids, Below(menu.id, ts[1..], z), menu;
          menu := h.list[menu.id];
        } else if h.next[menu.id] != Null {
          ts := ts[1..];
          menu := h.next[menu.id];
        } else {
          menu, up, ts, z := Climb(menu.id, root, all, visited, up, z);
        }
      }
    }
  }
}
