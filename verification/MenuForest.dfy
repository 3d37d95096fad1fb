/**
 The shape menu_finalize (support/kconfig/menu.c) gives to the menu tree: an entry with a symbol
 takes over the entries after it that depend on it, and the children of an entry without a prompt
 move up beside it.
 */
module MenuForest {

  type Id = nat

  /** A menu entry with its sub-entries. */
  datatype Tree = Node(id: Id, kids: seq<Tree>)

  /** What menu_finalize asks of entries: has a symbol, has a prompt text, `second` belongs below `first`. */
  datatype Facts = Facts(hasSym: Id -> bool, hasText: Id -> bool, belongs: (Id, Id) -> bool)

  function Size(t: Tree): nat { 1 + SizeAll(t.kids) }

  function SizeAll(ts: seq<Tree>): nat { if ts == [] then 0 else Size(ts[0]) + SizeAll(ts[1..]) }

  /** The entries in the order of the configuration file. */
  function Preorder(t: Tree): seq<Id> { [t.id] + PreorderAll(t.kids) }

  function PreorderAll(ts: seq<Tree>): seq<Id> { if ts == [] then [] else Preorder(ts[0]) + PreorderAll(ts[1..]) }

  lemma {:induction false} SizeAllAppend(a: seq<Tree>, b: seq<Tree>)
    ensures SizeAll(a + b) == SizeAll(a) + SizeAll(b)
  {
    if a == [] {
      assert a + b == b;
    } else {
      assert (a + b)[1..] == a[1..] + b;
      SizeAllAppend(a[1..], b);
    }
  }

  lemma {:induction false} PreorderAllAppend(a: seq<Tree>, b: seq<Tree>)
    ensures PreorderAll(a + b) == PreorderAll(a) + PreorderAll(b)
  {
    if a == [] {
      assert a + b == b;
    } else {
      assert (a + b)[1..] == a[1..] + b;
      PreorderAllAppend(a[1..], b);
    }
  }

  /** Siblings taken over by an entry, and those left to its parent. */
  datatype Parted = Parted(taken: seq<Tree>, left: seq<Tree>)

  /** An entry with its final sub-entries, and the siblings it leaves alone. */
  datatype Finished = Finished(entry: Tree, left: seq<Tree>)

  /** The children of entries without a prompt text take their place after them. */
  function Promote(f: Facts, ts: seq<Tree>): seq<Tree>
    decreases SizeAll(ts)
  {
    if ts == [] then []
    else if assert Size(ts[0]) >= 1; ts[0].kids != [] && !f.hasText(ts[0].id) then
      SizeAllAppend(ts[0].kids, ts[1..]);
      [Node(ts[0].id, [])] + Promote(f, ts[0].kids + ts[1..])
    else [ts[0]] + Promote(f, ts[1..])
  }

  /** menu_finalize on an entry followed by the siblings `rest` */
  function Finalize(f: Facts, t: Tree, rest: seq<Tree>): (r: Finished)
    ensures SizeAll(r.left) <= SizeAll(rest) && r.entry.id == t.id
    decreases Size(t) + SizeAll(rest), 0
  {
    if t.kids != [] then Finished(Node(t.id, Promote(f, FinalizeAll(f, t.kids))), rest)
    else if f.hasSym(t.id) then
      var a := Absorb(f, t.id, rest);
      Finished(Node(t.id, Promote(f, a.taken)), a.left)
    else Finished(t, rest)
  }

  function FinalizeAll(f: Facts, ts: seq<Tree>): seq<Tree>
    decreases SizeAll(ts), 1
  {
    if ts == [] then []
    else
      var r := Finalize(f, ts[0], ts[1..]);
      [r.entry] + FinalizeAll(f, r.left)
  }

  /** The loop over the following siblings: they are finalized and taken over while they belong to `p`. */
  function Absorb(f: Facts, p: Id, ts: seq<Tree>): (a: Parted)
    ensures SizeAll(a.left) <= SizeAll(ts)
    decreases SizeAll(ts), 1
  {
    if ts == [] || !f.belongs(p, ts[0].id) then Parted([], ts)
    else
      var r := Finalize(f, ts[0], ts[1..]);
      var a := Absorb(f, p, r.left);
      Parted([r.entry] + a.taken, a.left)
  }

  // ----- the order of entries is kept -----

  lemma {:induction false} PromoteKeepsOrder(f: Facts, ts: seq<Tree>)
    ensures PreorderAll(Promote(f, ts)) == PreorderAll(ts)
    decreases SizeAll(ts)
  {
    if ts != [] {
      assert Size(ts[0]) >= 1;
      if ts[0].kids != [] && !f.hasText(ts[0].id) {
        SizeAllAppend(ts[0].kids, ts[1..]);
        PromoteKeepsOrder(f, ts[0].kids + ts[1..]);
        PreorderAllAppend(ts[0].kids, ts[1..]);
        var top := [Node(ts[0].id, [])];
        PreorderAllAppend(top, Promote(f, ts[0].kids + ts[1..]));
        assert PreorderAll(top) == [ts[0].id];
      } else {
        PromoteKeepsOrder(f, ts[1..]);
      }
    }
  }

  lemma {:induction false} FinalizeKeepsOrder(f: Facts, t: Tree, rest: seq<Tree>)
    ensures var r := Finalize(f, t, rest); Preorder(r.entry) + PreorderAll(r.left) == Preorder(t) + PreorderAll(rest)
    decreases Size(t) + SizeAll(rest), 0
  {
    if t.kids != [] {
      FinalizeAllKeepsOrder(f, t.kids);
      PromoteKeepsOrder(f, FinalizeAll(f, t.kids));
    } else if f.hasSym(t.id) {
      var a := Absorb(f, t.id, rest);
      AbsorbKeepsOrder(f, t.id, rest);
      PromoteKeepsOrder(f, a.taken);
    }
  }

  lemma {:induction false} FinalizeAllKeepsOrder(f: Facts, ts: seq<Tree>)
    ensures PreorderAll(FinalizeAll(f, ts)) == PreorderAll(ts)
    decreases SizeAll(ts), 1
  {
    if ts != [] {
      FinalizeKeepsOrder(f, ts[0], ts[1..]);
      FinalizeAllKeepsOrder(f, Finalize(f, ts[0], ts[1..]).left);
    }
  }

  lemma {:induction false} AbsorbKeepsOrder(f: Facts, p: Id, ts: seq<Tree>)
    ensures var a := Absorb(f, p, ts); PreorderAll(a.taken) + PreorderAll(a.left) == PreorderAll(ts)
    decreases SizeAll(ts), 1
  {
    if ts != [] && f.belongs(p, ts[0].id) {
      var r := Finalize(f, ts[0], ts[1..]);
      FinalizeKeepsOrder(f, ts[0], ts[1..]);
      AbsorbKeepsOrder(f, p, r.left);
      assert Absorb(f, p, ts).taken[1..] == Absorb(f, p, r.left).taken;
    }
  }

  // ----- no sub-entries without a prompt -----

  /** Every entry with sub-entries has a prompt text. */
  predicate Prompted(f: Facts, t: Tree) { (t.kids != [] ==> f.hasText(t.id)) && PromptedAll(f, t.kids) }

  predicate PromptedAll(f: Facts, ts: seq<Tree>) {
    ts == [] || (Prompted(f, ts[0]) && PromptedAll(f, ts[1..]))
  }

  /** As above, except for the entries at the top. */
  predicate PromptedBelow(f: Facts, ts: seq<Tree>) {
    ts == [] || (PromptedAll(f, ts[0].kids) && PromptedBelow(f, ts[1..]))
  }

  lemma {:induction false} PromptedBelowAppend(f: Facts, a: seq<Tree>, b: seq<Tree>)
    requires PromptedAll(f, a) && PromptedBelow(f, b)
    ensures PromptedBelow(f, a + b)
  {
    if a == [] {
      assert a + b == b;
    } else {
      assert (a + b)[1..] == a[1..] + b;
      PromptedBelowAppend(f, a[1..], b);
    }
  }

  lemma {:induction false} PromotePrompts(f: Facts, ts: seq<Tree>)
    requires PromptedBelow(f, ts)
    ensures PromptedAll(f, Promote(f, ts))
    decreases SizeAll(ts)
  {
    if ts != [] {
      assert Size(ts[0]) >= 1;
      if ts[0].kids != [] && !f.hasText(ts[0].id) {
        SizeAllAppend(ts[0].kids, ts[1..]);
        PromptedBelowAppend(f, ts[0].kids, ts[1..]);
        PromotePrompts(f, ts[0].kids + ts[1..]);
      } else {
        PromotePrompts(f, ts[1..]);
      }
    }
  }

  /** After menu_finalize no proper descendant has sub-entries but no prompt text, whatever the tree was before. */
  lemma {:induction false} FinalizePrompts(f: Facts, t: Tree, rest: seq<Tree>)
    ensures PromptedAll(f, Finalize(f, t, rest).entry.kids)
    decreases Size(t) + SizeAll(rest), 0
  {
    if t.kids != [] {
      FinalizeAllPrompts(f, t.kids);
      PromotePrompts(f, FinalizeAll(f, t.kids));
    } else if f.hasSym(t.id) {
      AbsorbPrompts(f, t.id, rest);
      PromotePrompts(f, Absorb(f, t.id, rest).taken);
    }
  }

  lemma {:induction false} FinalizeAllPrompts(f: Facts, ts: seq<Tree>)
    ensures PromptedBelow(f, FinalizeAll(f, ts))
    decreases SizeAll(ts), 1
  {
    if ts != [] {
      FinalizePrompts(f, ts[0], ts[1..]);
      FinalizeAllPrompts(f, Finalize(f, ts[0], ts[1..]).left);
    }
  }

  lemma {:induction false} AbsorbPrompts(f: Facts, p: Id, ts: seq<Tree>)
    ensures PromptedBelow(f, Absorb(f, p, ts).taken)
    decreases SizeAll(ts), 1
  {
    if ts != [] && f.belongs(p, ts[0].id) {
      var r := Finalize(f, ts[0], ts[1..]);
      FinalizePrompts(f, ts[0], ts[1..]);
      AbsorbPrompts(f, p, r.left);
    }
  }

  /** Finalizing the root of the tree keeps the order of everything below it. */
  lemma RootKeepsOrder(f: Facts, t: Tree)
    ensures PreorderAll(Finalize(f, t, []).entry.kids) == PreorderAll(t.kids)
  {
    var r := Finalize(f, t, []);
    FinalizeKeepsOrder(f, t, []);
    assert SizeAll(r.left) == 0 && r.left == [];
    assert Preorder(r.entry) + [] == Preorder(r.entry) && Preorder(t) + [] == Preorder(t);
    assert Preorder(r.entry)[1..] == PreorderAll(r.entry.kids) && Preorder(t)[1..] == PreorderAll(t.kids);
  }
}
