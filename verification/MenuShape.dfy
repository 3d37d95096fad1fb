/**
 Where menu_finalize (support/kconfig/menu.c) puts each entry: a single pass over the entries of the configuration file
 that keeps a stack of the entries still open, instead of taking entries over and moving them up again.
 */
module MenuShape {
  import opened MenuForest
  import opened ChoiceScan

  datatype Link = Link(entry: Id, parent: Id)

  /** Every entry of a forest below `p` with its parent, in the order of the file. */
  function Links(p: Id, ts: seq<Tree>): seq<Link>
    decreases ts
  {
    if ts == [] then [] else [Link(ts[0].id, p)] + Links(ts[0].id, ts[0].kids) + Links(p, ts[1..])
  }

  /** The innermost open entry that has a prompt text, or the entry `base` around them all. */
  function Above(f: Facts, base: Id, stack: seq<Id>): Id {
    if stack == [] then base
    else if f.hasText(stack[|stack| - 1]) then stack[|stack| - 1]
    else Above(f, base, stack[..|stack| - 1])
  }

  /** The parents of siblings and of all below them; siblings that the next one does not belong to are closed. */
  function Placed(f: Facts, base: Id, stack: seq<Id>, ts: seq<Tree>): seq<Link>
    decreases SizeAll(ts), 1
  {
    if ts == [] then [] else PlacedAt(f, base, PopTo(f, stack, ts[0].id), ts[0], ts[1..])
  }

  /** The same with `x` next and all open entries having it below them; `x` is opened if it has a symbol and no list. */
  function PlacedAt(f: Facts, base: Id, open: seq<Id>, x: Tree, rest: seq<Tree>): seq<Link>
    decreases Size(x) + SizeAll(rest), 0
  {
    var up := Above(f, base, open);
    [Link(x.id, up)] + Placed(f, if f.hasText(x.id) then x.id else up, [], x.kids) +
    Placed(f, base, if x.kids == [] && f.hasSym(x.id) then open + [x.id] else open, rest)
  }

  // ----- sequences of links -----

  lemma Assoc(a: seq<Link>, b: seq<Link>, c: seq<Link>)
    ensures a + b + c == a + (b + c)
  {}

  lemma Assoc4(a: seq<Link>, b: seq<Link>, c: seq<Link>, d: seq<Link>)
    ensures a + b + (c + d) == a + (b + c) + d
    ensures a + b + c + d == a + b + (c + d)
  {}

  lemma LinksCons(p: Id, t: Tree, ts: seq<Tree>)
    ensures Links(p, [t] + ts) == [Link(t.id, p)] + Links(t.id, t.kids) + Links(p, ts)
  {
    assert ([t] + ts)[0] == t && ([t] + ts)[1..] == ts;
  }

  lemma {:induction false} LinksAppend(p: Id, a: seq<Tree>, b: seq<Tree>)
    ensures Links(p, a + b) == Links(p, a) + Links(p, b)
  {
    if a == [] {
      assert a + b == b;
    } else {
      assert a + b == [a[0]] + (a[1..] + b);
      LinksCons(p, a[0], a[1..] + b);
      LinksAppend(p, a[1..], b);
      Assoc([Link(a[0].id, p)] + Links(a[0].id, a[0].kids), Links(p, a[1..]), Links(p, b));
    }
  }

  // ----- moving up -----

  /** The links of entries whose sub-entries are final, once those of entries without a prompt text have moved up. */
  function Lifted(f: Facts, p: Id, ts: seq<Tree>): seq<Link> {
    if ts == [] then []
    else [Link(ts[0].id, p)] + Links(if f.hasText(ts[0].id) then ts[0].id else p, ts[0].kids) + Lifted(f, p, ts[1..])
  }

  lemma LiftedCons(f: Facts, p: Id, t: Tree, ts: seq<Tree>)
    ensures Lifted(f, p, [t] + ts) ==
            [Link(t.id, p)] + Links(if f.hasText(t.id) then t.id else p, t.kids) + Lifted(f, p, ts)
  {
    assert ([t] + ts)[0] == t && ([t] + ts)[1..] == ts;
  }

  lemma {:induction false} PromptedStay(f: Facts, ts: seq<Tree>)
    requires PromptedAll(f, ts)
    ensures NothingToPromote(f, ts)
  {
    if ts != [] { PromptedStay(f, ts[1..]); }
  }

  /** The last loop of menu_finalize moves exactly the sub-entries of entries without a prompt text. */
  lemma {:induction false} PromoteLinks(f: Facts, p: Id, ts: seq<Tree>)
    requires PromptedBelow(f, ts)
    ensures Links(p, Promote(f, ts)) == Lifted(f, p, ts)
    decreases ts
  {
    if ts != [] {
      var t, rest := ts[0], ts[1..];
      assert ts == [t] + rest;
      PromoteLinks(f, p, rest);
      if t.kids != [] && !f.hasText(t.id) {
        PromptedStay(f, t.kids);
        PromoteRaise(f, t, rest);
        LinksCons(p, Node(t.id, []), t.kids + Promote(f, rest));
        LinksAppend(p, t.kids, Promote(f, rest));
        Assoc([Link(t.id, p)], Links(p, t.kids), Links(p, Promote(f, rest)));
        assert Links(t.id, []) == [] && [Link(t.id, p)] + [] == [Link(t.id, p)];
      } else {
        PromoteKeep(f, t, rest);
        LinksCons(p, t, Promote(f, rest));
      }
    }
  }

  // ----- taking over -----

  lemma AboveOpen(f: Facts, base: Id, open: seq<Id>, x: Id)
    ensures Above(f, base, open + [x]) == if f.hasText(x) then x else Above(f, base, open)
    ensures forall y :: PopTo(f, open + [x], y) == if f.belongs(x, y) then open + [x] else PopTo(f, open, y)
  {
    assert (open + [x])[..|open + [x]| - 1] == open;
  }

  /** The next sibling finds the last open entry as it belongs to it or not. */
  lemma PlacedNext(f: Facts, base: Id, open: seq<Id>, x: Id, ts: seq<Tree>)
    ensures Placed(f, base, open + [x], ts) ==
            if ts == [] || !f.belongs(x, ts[0].id) then Placed(f, base, open, ts)
            else PlacedAt(f, base, open + [x], ts[0], ts[1..])
  {
    AboveOpen(f, base, open, x);
  }

  lemma LiftedSplit(f: Facts, p: Id, t: Tree, ts: seq<Tree>, more: seq<Link>)
    ensures Lifted(f, p, [t] + ts) + more == Lifted(f, p, [t]) + (Lifted(f, p, ts) + more)
  {
    LiftedCons(f, p, t, ts);
    LiftedCons(f, p, t, []);
    assert [t] + [] == [t];
    Assoc(Lifted(f, p, [t]), Lifted(f, p, ts), more);
  }

  /** An entry that is finalized where `open` is open, followed by the siblings it leaves. */
  lemma {:induction false} FinalizePlaces(f: Facts, base: Id, open: seq<Id>, t: Tree, rest: seq<Tree>)
    ensures var r := Finalize(f, t, rest);
            PlacedAt(f, base, open, t, rest) ==
            Lifted(f, Above(f, base, open), [r.entry]) + Placed(f, base, open, r.left)
    decreases Size(t) + SizeAll(rest), 0
  {
    var r, up := Finalize(f, t, rest), Above(f, base, open);
    var own := if f.hasText(t.id) then t.id else up;
    LiftedCons(f, up, r.entry, []);
    assert [r.entry] + [] == [r.entry];
    assert Lifted(f, up, [r.entry]) == [Link(t.id, up)] + Links(own, r.entry.kids);
    if t.kids != [] {
      FinalizeAllPlaces(f, own, t.kids);
    } else if f.hasSym(t.id) {
      var a := Absorb(f, t.id, rest);
      AboveOpen(f, base, open, t.id);
      AbsorbPlaces(f, base, open, t.id, rest);
      AbsorbPrompts(f, t.id, rest);
      PromoteLinks(f, own, a.taken);
      assert Placed(f, own, [], t.kids) == [] && [Link(t.id, up)] + [] == [Link(t.id, up)];
      Assoc([Link(t.id, up)], Lifted(f, own, a.taken), Placed(f, base, open, a.left));
    }
  }

  /** The whole list of sub-entries of an entry. */
  lemma {:induction false} FinalizeAllPlaces(f: Facts, p: Id, ts: seq<Tree>)
    ensures Links(p, Promote(f, FinalizeAll(f, ts))) == Placed(f, p, [], ts)
    decreases SizeAll(ts), 2
  {
    FinalizeAllPrompts(f, ts);
    PromoteLinks(f, p, FinalizeAll(f, ts));
    FinalizeAllLifts(f, p, ts);
  }

  lemma {:induction false} FinalizeAllLifts(f: Facts, p: Id, ts: seq<Tree>)
    ensures Lifted(f, p, FinalizeAll(f, ts)) == Placed(f, p, [], ts)
    decreases SizeAll(ts), 1
  {
    if ts != [] {
      var r := Finalize(f, ts[0], ts[1..]);
      FinalizePlaces(f, p, [], ts[0], ts[1..]);
      FinalizeAllLifts(f, p, r.left);
      LiftedCons(f, p, r.entry, FinalizeAll(f, r.left));
      LiftedCons(f, p, r.entry, []);
      assert [r.entry] + [] == [r.entry];
    }
  }

  /** What `x` takes over ends up below it, or beside it if it has no prompt text; the others find it closed. */
  lemma {:induction false} AbsorbPlaces(f: Facts, base: Id, open: seq<Id>, x: Id, ts: seq<Tree>)
    ensures var a := Absorb(f, x, ts);
            Placed(f, base, open + [x], ts) ==
            Lifted(f, Above(f, base, open + [x]), a.taken) + Placed(f, base, open, a.left)
    decreases SizeAll(ts), 1
  {
    PlacedNext(f, base, open, x, ts);
    if ts != [] && f.belongs(x, ts[0].id) {
      var r := Finalize(f, ts[0], ts[1..]);
      var a := Absorb(f, x, r.left);
      FinalizePlaces(f, base, open + [x], ts[0], ts[1..]);
      AbsorbPlaces(f, base, open, x, r.left);
      LiftedSplit(f, Above(f, base, open + [x]), r.entry, a.taken, Placed(f, base, open, a.left));
    }
  }

  /** The parent of every entry of the finalized tree, and the order of all entries. */
  lemma RootPlaces(f: Facts, t: Tree)
    ensures Links(t.id, Finalize(f, t, []).entry.kids) == Placed(f, t.id, [], t.kids)
  {
    FinalizeAllPlaces(f, t.id, t.kids);
  }

  // ----- which siblings are taken over -----

  /** A sibling that can take over others. */
  predicate Opens(f: Facts, t: Tree) { t.kids == [] && f.hasSym(t.id) }

  /** Sibling `i` belongs to the entry or to an earlier one that can take over others. */
  ghost predicate Led(f: Facts, p: Id, ts: seq<Tree>, i: nat)
    requires i < |ts|
  {
    f.belongs(p, ts[i].id) || exists j :: 0 <= j < i && Opens(f, ts[j]) && f.belongs(ts[j].id, ts[i].id)
  }

  /** The first `n` siblings are led there, and the next one does not belong to the entry. */
  ghost predicate TakesFirst(f: Facts, p: Id, ts: seq<Tree>, left: seq<Tree>) {
    && |left| <= |ts| && left == ts[|ts| - |left|..]
    && (forall i :: 0 <= i < |ts| - |left| ==> Led(f, p, ts, i))
    && (left == [] || !f.belongs(p, left[0].id))
  }

  lemma LedLater(f: Facts, p: Id, ts: seq<Tree>, k: nat, i: nat)
    requires k <= i < |ts| && Led(f, p, ts[k..], i - k)
    ensures Led(f, p, ts, i)
  {
    var us := ts[k..];
    assert us[i - k] == ts[i];
    if !f.belongs(p, ts[i].id) {
      var j :| 0 <= j < i - k && Opens(f, us[j]) && f.belongs(us[j].id, us[i - k].id);
      assert us[j] == ts[j + k];
    }
  }

  lemma LedByFirst(f: Facts, p: Id, ts: seq<Tree>, i: nat)
    requires 0 < i < |ts| && Opens(f, ts[0]) && Led(f, ts[0].id, ts[1..], i - 1)
    ensures Led(f, p, ts, i)
  {
    var us := ts[1..];
    assert us[i - 1] == ts[i];
    if !f.belongs(ts[0].id, ts[i].id) {
      var j :| 0 <= j < i - 1 && Opens(f, us[j]) && f.belongs(us[j].id, us[i - 1].id);
      assert us[j] == ts[j + 1];
    }
  }

  /** What the first sibling takes over is led to the entry. */
  lemma FirstLeads(f: Facts, p: Id, ts: seq<Tree>, mid: seq<Tree>)
    requires ts != [] && Opens(f, ts[0]) && TakesFirst(f, ts[0].id, ts[1..], mid)
    ensures mid == ts[|ts| - |mid|..] && forall i :: 1 <= i < |ts| - |mid| ==> Led(f, p, ts, i)
  {
    forall i | 1 <= i < |ts| - |mid|
      ensures Led(f, p, ts, i)
    {
      LedByFirst(f, p, ts, i);
    }
  }

  /** Then the entry takes over what follows. */
  lemma TakesThen(f: Facts, p: Id, ts: seq<Tree>, k: nat, left: seq<Tree>)
    requires 1 <= k <= |ts| && f.belongs(p, ts[0].id) && TakesFirst(f, p, ts[k..], left)
    requires forall i :: 1 <= i < k ==> Led(f, p, ts, i)
    ensures TakesFirst(f, p, ts, left)
  {
    forall i | k <= i < |ts| - |left|
      ensures Led(f, p, ts, i)
    {
      LedLater(f, p, ts, k, i);
    }
    assert left == ts[|ts| - |left|..];
  }

  lemma {:induction false} AbsorbTakes(f: Facts, p: Id, ts: seq<Tree>)
    ensures TakesFirst(f, p, ts, Absorb(f, p, ts).left)
    decreases SizeAll(ts), 1
  {
    if ts != [] && f.belongs(p, ts[0].id) {
      var r := Finalize(f, ts[0], ts[1..]);
      FinalizeTakes(f, ts[0], ts[1..]);
      AbsorbTakes(f, p, r.left);
      if Opens(f, ts[0]) {
        FirstLeads(f, p, ts, r.left);
      }
      TakesThen(f, p, ts, |ts| - |r.left|, Absorb(f, p, r.left).left);
    }
  }

  /**
   An entry with a symbol and no sub-entries takes over the siblings led to it, up to the first that does not belong to
   it; any other entry takes over none.
   */
  lemma {:induction false} FinalizeTakes(f: Facts, t: Tree, rest: seq<Tree>)
    ensures Opens(f, t) ==> TakesFirst(f, t.id, rest, Finalize(f, t, rest).left)
    ensures !Opens(f, t) ==> Finalize(f, t, rest).left == rest
    decreases Size(t) + SizeAll(rest), 0
  {
    if Opens(f, t) {
      AbsorbTakes(f, t.id, rest);
    }
  }
}
