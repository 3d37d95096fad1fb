/**
 Which entries of a choice are its members. Kconfiglib finds them with one scan and a stack
 (support/scripts/kconfiglib.py: Choice._determine_actual_symbols); the C tools find them as the
 entries that menu_finalize leaves directly below the choice (support/kconfig/menu.c).
 */
module ChoiceScan {
  import opened MenuForest

  /** Entries that have no sub-entries yet, as they come from the parser. */
  function Leaves(items: seq<Id>): seq<Tree> {
    if items == [] then [] else [Node(items[0], [])] + Leaves(items[1..])
  }

  /** The symbols among the top entries. */
  function Members(f: Facts, ts: seq<Tree>): seq<Id> {
    if ts == [] then []
    else (if f.hasSym(ts[0].id) then [ts[0].id] else []) + Members(f, ts[1..])
  }

  /** Pop the stack until its top is an entry that `x` belongs to. */
  function PopTo(f: Facts, stack: seq<Id>, x: Id): seq<Id> {
    if stack == [] || f.belongs(stack[|stack| - 1], x) then stack else PopTo(f, stack[..|stack| - 1], x)
  }

  /** The members the scan finds from here on. */
  function Scan(f: Facts, stack: seq<Id>, items: seq<Id>): seq<Id>
    decreases |items|
  {
    if items == [] then []
    else
      var x := items[0];
      if !f.hasSym(x) then Scan(f, [], items[1..])
      else
        var s := PopTo(f, stack, x);
        (if s == [] then [x] else []) + Scan(f, s + [x], items[1..])
  }

  /** Choice._determine_actual_symbols */
  method DetermineActual(f: Facts, items: seq<Id>) returns (actual: seq<Id>)
    ensures actual == Scan(f, [], items)
  {
    actual := [];
    var stack := [];
    for i := 0 to |items|
      invariant actual + Scan(f, stack, items[i..]) == Scan(f, [], items)
    {
      var item := items[i];
      assert items[i..][0] == item && items[i..][1..] == items[i + 1..];
      if !f.hasSym(item) {
        stack := [];
        continue;
      }
      ghost var before := stack;
      var nested := false;
      while stack != []
        invariant PopTo(f, before, item) == PopTo(f, stack, item)
        invariant !nested
      {
        if f.belongs(stack[|stack| - 1], item) {
          nested := true;
          break;
        }
        stack := stack[..|stack| - 1];
      }
      assert stack == PopTo(f, before, item);
      stack := stack + [item];
      if !nested {
        actual := actual + [item];
      }
    }
    assert items[|items|..] == [];
  }

  // ----- how entries nest, before any promotion -----

  datatype Taken = Taken(taken: seq<Tree>, left: seq<Id>)

  /** The entries at the start that `p` takes over, each with what it takes over itself, and the others. */
  function Take(f: Facts, p: Id, items: seq<Id>): (r: Taken)
    ensures |r.left| <= |items|
    decreases |items|
  {
    if items == [] || !f.belongs(p, items[0]) then Taken([], items)
    else
      var k := if f.hasSym(items[0]) then Take(f, items[0], items[1..]) else Taken([], items[1..]);
      var a := Take(f, p, k.left);
      Taken([Node(items[0], k.taken)] + a.taken, a.left)
  }

  function NestAll(f: Facts, items: seq<Id>): seq<Tree>
    decreases |items|
  {
    if items == [] then []
    else
      var k := if f.hasSym(items[0]) then Take(f, items[0], items[1..]) else Taken([], items[1..]);
      [Node(items[0], k.taken)] + NestAll(f, k.left)
  }

  // ----- the C tools -----

  /** An entry and all below it once the children of entries without a prompt text have moved up. */
  function Flat(f: Facts, t: Tree): Tree { Node(t.id, Promote(f, FlatAll(f, t.kids))) }

  function FlatAll(f: Facts, ts: seq<Tree>): seq<Tree> {
    if ts == [] then [] else [Flat(f, ts[0])] + FlatAll(f, ts[1..])
  }

  lemma {:induction false} AbsorbIsTake(f: Facts, p: Id, items: seq<Id>)
    ensures var r := Take(f, p, items); Absorb(f, p, Leaves(items)) == Parted(FlatAll(f, r.taken), Leaves(r.left))
    decreases |items|
  {
    if items != [] && f.belongs(p, items[0]) {
      var x, rest := items[0], items[1..];
      assert Leaves(items)[1..] == Leaves(rest) && Leaves(items)[0] == Node(x, []);
      var k := if f.hasSym(x) then Take(f, x, rest) else Taken([], rest);
      if f.hasSym(x) {
        AbsorbIsTake(f, x, rest);
      }
      FinalizeLeaf(f, x, rest);
      AbsorbIsTake(f, p, k.left);
      var r := Take(f, p, items);
      assert r.taken[0] == Node(x, k.taken) && r.taken[1..] == Take(f, p, k.left).taken;
    }
  }

  lemma FinalizeLeaf(f: Facts, x: Id, rest: seq<Id>)
    requires f.hasSym(x) ==>
             Absorb(f, x, Leaves(rest)) == Parted(FlatAll(f, Take(f, x, rest).taken), Leaves(Take(f, x, rest).left))
    ensures var k := if f.hasSym(x) then Take(f, x, rest) else Taken([], rest);
            Finalize(f, Node(x, []), Leaves(rest)) == Finished(Flat(f, Node(x, k.taken)), Leaves(k.left))
  {}

  lemma {:induction false} FinalizeIsNest(f: Facts, items: seq<Id>)
    ensures FinalizeAll(f, Leaves(items)) == FlatAll(f, NestAll(f, items))
    decreases |items|
  {
    if items != [] {
      var x, rest := items[0], items[1..];
      assert Leaves(items)[1..] == Leaves(rest) && Leaves(items)[0] == Node(x, []);
      var k := if f.hasSym(x) then Take(f, x, rest) else Taken([], rest);
      if f.hasSym(x) {
        AbsorbIsTake(f, x, rest);
      }
      FinalizeLeaf(f, x, rest);
      FinalizeIsNest(f, k.left);
      assert NestAll(f, items)[1..] == NestAll(f, k.left);
    }
  }

  /** The symbols whose ancestors all lack a prompt text. */
  function Raised(f: Facts, ts: seq<Tree>): seq<Id> {
    if ts == [] then []
    else
      (if f.hasSym(ts[0].id) then [ts[0].id] else []) +
      (if f.hasText(ts[0].id) then [] else Raised(f, ts[0].kids)) + Raised(f, ts[1..])
  }

  /** No entry without a prompt text has entries below it. */
  predicate NothingToPromote(f: Facts, ts: seq<Tree>) {
    ts == [] || ((ts[0].kids == [] || f.hasText(ts[0].id)) && NothingToPromote(f, ts[1..]))
  }

  lemma {:induction false} PromoteSettles(f: Facts, ts: seq<Tree>)
    ensures NothingToPromote(f, Promote(f, ts))
    decreases SizeAll(ts)
  {
    if ts != [] {
      assert Size(ts[0]) >= 1;
      if ts[0].kids != [] && !f.hasText(ts[0].id) {
        SizeAllAppend(ts[0].kids, ts[1..]);
        PromoteSettles(f, ts[0].kids + ts[1..]);
        assert Promote(f, ts)[1..] == Promote(f, ts[0].kids + ts[1..]);
      } else {
        PromoteSettles(f, ts[1..]);
        assert Promote(f, ts)[1..] == Promote(f, ts[1..]);
      }
    }
  }

  lemma {:induction false} PromoteSettled(f: Facts, a: seq<Tree>, b: seq<Tree>)
    requires NothingToPromote(f, a)
    ensures Promote(f, a + b) == a + Promote(f, b)
  {
    if a == [] {
      assert a + b == b;
    } else {
      PromoteSettled(f, a[1..], b);
      PromoteKeep(f, a[0], a[1..] + b);
      assert a + b == [a[0]] + (a[1..] + b);
      assert a + Promote(f, b) == [a[0]] + (a[1..] + Promote(f, b));
    }
  }

  lemma {:induction false} MembersAppend(f: Facts, a: seq<Tree>, b: seq<Tree>)
    ensures Members(f, a + b) == Members(f, a) + Members(f, b)
  {
    if a == [] {
      assert a + b == b;
    } else {
      assert (a + b)[1..] == a[1..] + b && (a + b)[0] == a[0];
      MembersAppend(f, a[1..], b);
    }
  }

  function OwnMember(f: Facts, x: Id): seq<Id> { if f.hasSym(x) then [x] else [] }

  lemma MembersOne(f: Facts, t: Tree, ts: seq<Tree>)
    ensures Members(f, [t] + ts) == OwnMember(f, t.id) + Members(f, ts)
  {
    assert ([t] + ts)[0] == t && ([t] + ts)[1..] == ts;
  }

  lemma PromoteKeep(f: Facts, t: Tree, rest: seq<Tree>)
    requires t.kids == [] || f.hasText(t.id)
    ensures Promote(f, [t] + rest) == [t] + Promote(f, rest)
  {
    assert ([t] + rest)[0] == t && ([t] + rest)[1..] == rest;
  }

  lemma PromoteRaise(f: Facts, t: Tree, rest: seq<Tree>)
    requires t.kids != [] && !f.hasText(t.id) && NothingToPromote(f, t.kids)
    ensures Promote(f, [t] + rest) == [Node(t.id, [])] + (t.kids + Promote(f, rest))
  {
    assert ([t] + rest)[0] == t && ([t] + rest)[1..] == rest;
    PromoteSettled(f, t.kids, rest);
  }

  lemma AssocIds(a: seq<Id>, b: seq<Id>, c: seq<Id>)
    ensures a + b + c == a + (b + c)
  {}

  /** What becomes of an entry whose sub-entries are promoted themselves. */
  lemma PromotedFirst(f: Facts, t: Tree, rest: seq<Tree>)
    requires NothingToPromote(f, t.kids)
    ensures Members(f, Promote(f, [t] + rest)) ==
            OwnMember(f, t.id) + (if f.hasText(t.id) then [] else Members(f, t.kids)) + Members(f, Promote(f, rest))
  {
    if t.kids != [] && !f.hasText(t.id) {
      PromoteRaise(f, t, rest);
      MembersOne(f, Node(t.id, []), t.kids + Promote(f, rest));
      MembersAppend(f, t.kids, Promote(f, rest));
      AssocIds(OwnMember(f, t.id), Members(f, t.kids), Members(f, Promote(f, rest)));
    } else {
      PromoteKeep(f, t, rest);
      MembersOne(f, t, Promote(f, rest));
      assert OwnMember(f, t.id) + [] == OwnMember(f, t.id);
    }
  }

  lemma {:induction false} PromotedAreRaised(f: Facts, ts: seq<Tree>)
    ensures Members(f, Promote(f, FlatAll(f, ts))) == Raised(f, ts)
    decreases ts
  {
    if ts != [] {
      var t, kids := ts[0], Promote(f, FlatAll(f, ts[0].kids));
      PromotedAreRaised(f, t.kids);
      PromotedAreRaised(f, ts[1..]);
      PromoteSettles(f, FlatAll(f, t.kids));
      PromotedFirst(f, Node(t.id, kids), FlatAll(f, ts[1..]));
      assert FlatAll(f, ts) == [Node(t.id, kids)] + FlatAll(f, ts[1..]);
    }
  }

  /** The members the C tools count: symbols at the top, and symbols below entries without a prompt text. */
  lemma PromotedMembers(f: Facts, items: seq<Id>)
    ensures Members(f, Promote(f, FinalizeAll(f, Leaves(items)))) == Raised(f, NestAll(f, items))
  {
    FinalizeIsNest(f, items);
    PromotedAreRaised(f, NestAll(f, items));
  }

  // ----- Kconfiglib -----

  datatype Seen = Seen(members: seq<Id>, cleared: bool)

  /**
   The members the scan finds among `ts`, when the stack was cleared since the entry above them (`cleared`), and whether
   it is afterwards. An entry that is no symbol clears the stack, so symbols after it do not count as nested.
   */
  function Found(f: Facts, ts: seq<Tree>, cleared: bool): Seen {
    if ts == [] then Seen([], cleared)
    else if !f.hasSym(ts[0].id) then Found(f, ts[1..], true)
    else
      var k := Found(f, ts[0].kids, false);
      var r := Found(f, ts[1..], cleared || k.cleared);
      Seen((if cleared then [ts[0].id] else []) + k.members + r.members, r.cleared)
  }

  lemma {:induction false} FoundCleared(f: Facts, ts: seq<Tree>)
    ensures Found(f, ts, true).cleared
  {
    if ts != [] { FoundCleared(f, ts[1..]); }
  }

  lemma FoundCons(f: Facts, t: Tree, ts: seq<Tree>, cleared: bool)
    ensures !f.hasSym(t.id) ==> Found(f, [t] + ts, cleared) == Found(f, ts, true)
    ensures f.hasSym(t.id) ==>
              var k := Found(f, t.kids, false);
              var r := Found(f, ts, cleared || k.cleared);
              Found(f, [t] + ts, cleared) == Seen((if cleared then [t.id] else []) + k.members + r.members, r.cleared)
  {
    assert ([t] + ts)[0] == t && ([t] + ts)[1..] == ts;
  }

  lemma Regroup(a: seq<Id>, b: seq<Id>, c: seq<Id>)
    ensures [] + a + b + c == a + (b + c)
  {
    assert [] + a == a;
  }

  lemma AssocOne(x: Id, a: seq<Id>, b: seq<Id>)
    ensures [x] + a + b == [x] + (a + b)
  {}

  lemma AssocFour(x: Id, a: seq<Id>, b: seq<Id>, c: seq<Id>)
    ensures [x] + a + b + c == [x] + (a + (b + c))
  {
    AssocIds(a, b, c);
    AssocIds([x], a, b);
    AssocIds([x], a + b, c);
  }

  /** With the stack cleared, the scan goes through what `p` takes over as through entries at the top. */
  lemma {:induction false} ScanCleared(f: Facts, p: Id, items: seq<Id>)
    ensures var r := Take(f, p, items); Scan(f, [], items) == Found(f, r.taken, true).members + Scan(f, [], r.left)
    decreases |items|, 0
  {
    if items != [] && f.belongs(p, items[0]) {
      var x, rest := items[0], items[1..];
      var k := if f.hasSym(x) then Take(f, x, rest) else Taken([], rest);
      var a := Take(f, p, k.left);
      FoundCons(f, Node(x, k.taken), a.taken, true);
      ScanCleared(f, p, k.left);
      if f.hasSym(x) {
        ScanTaken(f, [], x, rest);
        assert [] + [x] == [x];
        AssocFour(x, Found(f, k.taken, false).members, Found(f, a.taken, true).members, Scan(f, [], a.left));
      }
    }
  }

  /** An entry on the stack that nothing more belongs to makes no difference. */
  lemma ScanPops(f: Facts, stack: seq<Id>, p: Id, items: seq<Id>)
    requires items == [] || !f.belongs(p, items[0])
    ensures Scan(f, stack + [p], items) == Scan(f, stack, items)
  {
    assert (stack + [p])[..|stack + [p]| - 1] == stack;
  }

  lemma ScanNested(f: Facts, stack: seq<Id>, p: Id, x: Id, rest: seq<Id>)
    requires f.belongs(p, x) && f.hasSym(x)
    ensures Scan(f, stack + [p], [x] + rest) == Scan(f, stack + [p] + [x], rest)
  {
    assert ([x] + rest)[0] == x && ([x] + rest)[1..] == rest;
    assert PopTo(f, stack + [p], x) == stack + [p];
  }

  /** The scan with `p` on top of the stack: what it finds among the entries `p` takes over, and what it finds then. */
  predicate Passes(f: Facts, stack: seq<Id>, p: Id, items: seq<Id>, r: Taken) {
    var found := Found(f, r.taken, false);
    Scan(f, stack + [p], items) == found.members + Scan(f, if found.cleared then [] else stack, r.left)
  }

  lemma {:induction false} PassesSymbol(f: Facts, stack: seq<Id>, p: Id, x: Id, rest: seq<Id>)
    requires f.belongs(p, x) && f.hasSym(x)
    ensures var k := Take(f, x, rest);
            var a := Take(f, p, k.left);
            Passes(f, stack, p, [x] + rest, Taken([Node(x, k.taken)] + a.taken, a.left))
    decreases |rest|, 2
  {
    var k := Take(f, x, rest);
    var a := Take(f, p, k.left);
    FoundCons(f, Node(x, k.taken), a.taken, false);
    FoundCleared(f, a.taken);
    ScanNested(f, stack, p, x, rest);
    ScanTaken(f, stack + [p], x, rest);
    var inner, outer := Found(f, k.taken, false), Found(f, a.taken, Found(f, k.taken, false).cleared);
    if inner.cleared {
      ScanCleared(f, p, k.left);
    } else {
      ScanTaken(f, stack, p, k.left);
    }
    Regroup(inner.members, outer.members, Scan(f, if outer.cleared then [] else stack, a.left));
  }

  /** With `p` on top of the stack, the scan passes over what `p` takes over, except after the stack is cleared. */
  lemma {:induction false} ScanTaken(f: Facts, stack: seq<Id>, p: Id, items: seq<Id>)
    ensures Passes(f, stack, p, items, Take(f, p, items))
    decreases |items|, 1
  {
    if items == [] || !f.belongs(p, items[0]) {
      ScanPops(f, stack, p, items);
    } else if f.hasSym(items[0]) {
      PassesSymbol(f, stack, p, items[0], items[1..]);
      assert items == [items[0]] + items[1..];
    } else {
      var a := Take(f, p, items[1..]);
      FoundCons(f, Node(items[0], []), a.taken, false);
      FoundCleared(f, a.taken);
      ScanCleared(f, p, items[1..]);
    }
  }

  /** What the scan of the whole choice finds. */
  lemma {:induction false} ScanFinds(f: Facts, items: seq<Id>)
    ensures Scan(f, [], items) == Found(f, NestAll(f, items), true).members
    decreases |items|
  {
    if items != [] {
      var x, rest := items[0], items[1..];
      var k := if f.hasSym(x) then Take(f, x, rest) else Taken([], rest);
      FoundCons(f, Node(x, k.taken), NestAll(f, k.left), true);
      ScanFinds(f, k.left);
      if f.hasSym(x) {
        ScanTaken(f, [], x, rest);
        assert [] + [x] == [x];
        AssocOne(x, Found(f, k.taken, false).members, Scan(f, [], k.left));
        FoundCleared(f, NestAll(f, k.left));
      }
    }
  }

  // ----- when both see the same members -----

  function Ids(ts: seq<Tree>): set<Id> { if ts == [] then {} else {ts[0].id} + Ids(ts[0].kids) + Ids(ts[1..]) }

  /** No entry occurs twice. */
  predicate Unique(ts: seq<Tree>) {
    ts == [] ||
    (&& ts[0].id !in Ids(ts[0].kids) + Ids(ts[1..]) && Ids(ts[0].kids) !! Ids(ts[1..])
     && Unique(ts[0].kids) && Unique(ts[1..]))
  }

  predicate Distinct(items: seq<Id>) { forall i, j :: 0 <= i < j < |items| ==> items[i] != items[j] }

  /** An entry that is no symbol takes over nothing. */
  predicate SymbolsTake(f: Facts, ts: seq<Tree>) {
    ts == [] || ((f.hasSym(ts[0].id) || ts[0].kids == []) && SymbolsTake(f, ts[0].kids) && SymbolsTake(f, ts[1..]))
  }

  /**
   Each symbol is a member for both tools or for neither. For the C tools it is when all entries above it lack a prompt
   text (`up`); for Kconfiglib it is when an entry that is no symbol came between it and each entry above (`cleared`).
   */
  predicate SameStanding(f: Facts, ts: seq<Tree>, up: bool, cleared: bool) {
    ts == [] ||
    if !f.hasSym(ts[0].id) then SameStanding(f, ts[1..], up, true)
    else
      && up == cleared
      && SameStanding(f, ts[0].kids, up && !f.hasText(ts[0].id), false)
      && SameStanding(f, ts[1..], up, cleared || Found(f, ts[0].kids, false).cleared)
  }

  function RaisedIf(f: Facts, ts: seq<Tree>, up: bool): seq<Id> { if up then Raised(f, ts) else [] }

  lemma {:induction false} MembersAreIds(f: Facts, ts: seq<Tree>, cleared: bool)
    ensures forall x :: x in Raised(f, ts) || x in Found(f, ts, cleared).members ==> x in Ids(ts)
  {
    if ts != [] {
      MembersAreIds(f, ts[0].kids, false);
      MembersAreIds(f, ts[1..], true);
      MembersAreIds(f, ts[1..], cleared || Found(f, ts[0].kids, false).cleared);
    }
  }

  /** The elements that are in `x`. */
  function Only(s: seq<Id>, x: set<Id>): seq<Id> {
    if s == [] then [] else (if s[0] in x then [s[0]] else []) + Only(s[1..], x)
  }

  lemma {:induction false} OnlyAppend(a: seq<Id>, b: seq<Id>, x: set<Id>)
    requires (forall i :: i in a ==> i in x) && forall i :: i in b ==> i !in x
    ensures Only(a + b, x) == a
  {
    if a != [] {
      assert (a + b)[0] == a[0] && (a + b)[1..] == a[1..] + b;
      OnlyAppend(a[1..], b, x);
    } else if b != [] {
      assert a + b == b && b[0] in b;
      OnlyAppend([], b[1..], x);
      assert [] + b[1..] == b[1..];
    }
  }

  lemma SplitOnce(a: seq<Id>, b: seq<Id>, c: seq<Id>, d: seq<Id>, x: set<Id>, y: set<Id>)
    requires x !! y && (forall i :: i in a || i in c ==> i in x) && (forall i :: i in b || i in d ==> i in y)
    ensures a + b == c + d <==> a == c && b == d
  {
    OnlyAppend(a, b, x);
    OnlyAppend(c, d, x);
    assert b == (a + b)[|a|..] && d == (c + d)[|c|..];
  }

  lemma SplitTwice(a0: seq<Id>, a1: seq<Id>, a2: seq<Id>, b0: seq<Id>, b1: seq<Id>, b2: seq<Id>, i: Id, x: set<Id>,
                   y: set<Id>)
    requires i !in x + y && x !! y && a0 <= [i] && b0 <= [i]
    requires (forall k :: k in a1 || k in b1 ==> k in x) && (forall k :: k in a2 || k in b2 ==> k in y)
    ensures a0 + a1 + a2 == b0 + b1 + b2 <==> a0 == b0 && a1 == b1 && a2 == b2
  {
    assert a0 + a1 + a2 == a0 + (a1 + a2) && b0 + b1 + b2 == b0 + (b1 + b2);
    SplitOnce(a0, a1 + a2, b0, b1 + b2, {i}, x + y);
    SplitOnce(a1, a2, b1, b2, x, y);
  }

  lemma {:induction false} StandingDecides(f: Facts, ts: seq<Tree>, up: bool, cleared: bool)
    requires Unique(ts) && SymbolsTake(f, ts)
    ensures RaisedIf(f, ts, up) == Found(f, ts, cleared).members <==> SameStanding(f, ts, up, cleared)
  {
    if ts != [] {
      var t, rest := ts[0], ts[1..];
      if !f.hasSym(t.id) {
        assert Raised(f, ts) == Raised(f, rest);
        StandingDecides(f, rest, up, true);
      } else {
        var k := Found(f, t.kids, false);
        var after := cleared || k.cleared;
        StandingDecides(f, t.kids, up && !f.hasText(t.id), false);
        StandingDecides(f, rest, up, after);
        MembersAreIds(f, t.kids, false);
        MembersAreIds(f, rest, after);
        SplitTwice(if up then [t.id] else [], RaisedIf(f, t.kids, up && !f.hasText(t.id)), RaisedIf(f, rest, up),
                   if cleared then [t.id] else [], k.members, Found(f, rest, after).members,
                   t.id, Ids(t.kids), Ids(rest));
      }
    }
  }

  lemma OrderCons(f: Facts, t: Tree, ts: seq<Tree>)
    ensures PreorderAll([t] + ts) == [t.id] + PreorderAll(t.kids) + PreorderAll(ts)
    ensures SymbolsTake(f, [t] + ts) <==>
            (f.hasSym(t.id) || t.kids == []) && SymbolsTake(f, t.kids) && SymbolsTake(f, ts)
  {
    assert ([t] + ts)[0] == t && ([t] + ts)[1..] == ts;
  }

  /** `r` holds the entries of `items` in their order. */
  predicate InOrder(f: Facts, items: seq<Id>, r: Taken) {
    PreorderAll(r.taken) + r.left == items && SymbolsTake(f, r.taken)
  }

  lemma OrderStep(f: Facts, x: Id, rest: seq<Id>, k: Taken, a: Taken)
    requires InOrder(f, rest, k) && InOrder(f, k.left, a) && (f.hasSym(x) || k.taken == [])
    ensures InOrder(f, [x] + rest, Taken([Node(x, k.taken)] + a.taken, a.left))
  {
    OrderCons(f, Node(x, k.taken), a.taken);
    assert [x] + PreorderAll(k.taken) + PreorderAll(a.taken) + a.left == [x] + (PreorderAll(k.taken) + k.left);
  }

  lemma {:induction false} TakeOrder(f: Facts, p: Id, items: seq<Id>)
    ensures InOrder(f, items, Take(f, p, items))
    decreases |items|
  {
    if items != [] && f.belongs(p, items[0]) {
      var k := if f.hasSym(items[0]) then Take(f, items[0], items[1..]) else Taken([], items[1..]);
      if f.hasSym(items[0]) {
        TakeOrder(f, items[0], items[1..]);
      }
      TakeOrder(f, p, k.left);
      OrderStep(f, items[0], items[1..], k, Take(f, p, k.left));
      assert items == [items[0]] + items[1..];
    }
  }

  lemma {:induction false} NestOrder(f: Facts, items: seq<Id>)
    ensures PreorderAll(NestAll(f, items)) == items && SymbolsTake(f, NestAll(f, items))
    decreases |items|
  {
    if items != [] {
      var k := if f.hasSym(items[0]) then Take(f, items[0], items[1..]) else Taken([], items[1..]);
      if f.hasSym(items[0]) {
        TakeOrder(f, items[0], items[1..]);
      }
      NestOrder(f, k.left);
      OrderStep(f, items[0], items[1..], k, Taken(NestAll(f, k.left), []));
      assert items == [items[0]] + items[1..];
    }
  }

  lemma {:induction false} IdsInOrder(ts: seq<Tree>)
    ensures forall x :: x in Ids(ts) <==> x in PreorderAll(ts)
  {
    if ts != [] {
      IdsInOrder(ts[0].kids);
      IdsInOrder(ts[1..]);
    }
  }

  lemma DistinctParts(a: seq<Id>, b: seq<Id>)
    requires Distinct(a + b)
    ensures Distinct(a) && Distinct(b) && forall x :: x in a ==> x !in b
  {
    forall i, j | 0 <= i < j < |b|
      ensures b[i] != b[j]
    {
      assert (a + b)[|a| + i] == b[i] && (a + b)[|a| + j] == b[j];
    }
    forall i, j | 0 <= i < j < |a|
      ensures a[i] != a[j]
    {
      assert (a + b)[i] == a[i] && (a + b)[j] == a[j];
    }
    forall x | x in a
      ensures x !in b
    {
      var i :| 0 <= i < |a| && a[i] == x;
      assert forall j :: 0 <= j < |b| ==> (a + b)[|a| + j] == b[j] && (a + b)[i] == x;
    }
  }

  lemma {:induction false} DistinctUnique(ts: seq<Tree>)
    requires Distinct(PreorderAll(ts))
    ensures Unique(ts)
  {
    if ts != [] {
      DistinctParts(Preorder(ts[0]), PreorderAll(ts[1..]));
      DistinctParts([ts[0].id], PreorderAll(ts[0].kids));
      DistinctUnique(ts[0].kids);
      DistinctUnique(ts[1..]);
      IdsInOrder(ts[0].kids);
      IdsInOrder(ts[1..]);
      assert ts[0].id in Preorder(ts[0]) && ts[0].id in [ts[0].id];
    }
  }

  /** The two tools see the same members exactly if every symbol has the same standing with both. */
  lemma ToolsAgree(f: Facts, items: seq<Id>)
    requires Distinct(items)
    ensures Members(f, Promote(f, FinalizeAll(f, Leaves(items)))) == Scan(f, [], items) <==>
            SameStanding(f, NestAll(f, items), true, true)
  {
    PromotedMembers(f, items);
    ScanFinds(f, items);
    NestOrder(f, items);
    DistinctUnique(NestAll(f, items));
    StandingDecides(f, NestAll(f, items), true, true);
  }

  // ----- symbols only -----

  lemma {:induction false} NeverCleared(f: Facts, ts: seq<Tree>)
    requires forall x :: x in Ids(ts) ==> f.hasSym(x)
    ensures !Found(f, ts, false).cleared && SameStanding(f, ts, false, false)
  {
    if ts != [] {
      NeverCleared(f, ts[0].kids);
      NeverCleared(f, ts[1..]);
    }
  }

  lemma {:induction false} SymbolsStanding(f: Facts, ts: seq<Tree>)
    requires forall x :: x in Ids(ts) ==> f.hasSym(x)
    ensures SameStanding(f, ts, true, true) <==> NothingToPromote(f, ts)
  {
    if ts != [] {
      NeverCleared(f, ts[0].kids);
      SymbolsStanding(f, ts[1..]);
    }
  }

  /** Where all entries are symbols, that is: no member without a prompt takes over another. */
  lemma SymbolsAgree(f: Facts, items: seq<Id>)
    requires Distinct(items) && forall x :: x in items ==> f.hasSym(x)
    ensures Members(f, Promote(f, FinalizeAll(f, Leaves(items)))) == Scan(f, [], items) <==>
            NothingToPromote(f, NestAll(f, items))
  {
    ToolsAgree(f, items);
    NestOrder(f, items);
    IdsInOrder(NestAll(f, items));
    SymbolsStanding(f, NestAll(f, items));
  }

  // ----- the two ways to differ -----

  /** A promptless symbol followed by one that depends on it: Kconfiglib sees one member, the C tools see two. */
  lemma PromptlessMember(f: Facts, a: Id, b: Id)
    requires f.hasSym(a) && f.hasSym(b) && f.belongs(a, b) && !f.hasText(a)
    ensures Scan(f, [], [a, b]) == [a]
    ensures Members(f, Promote(f, FinalizeAll(f, Leaves([a, b])))) == [a, b]
  {
    var ts := [Node(a, [Node(b, [])])];
    assert [a, b][1..] == [b] && [b][1..] == [];
    assert Take(f, a, [b]) == Taken([Node(b, [])], []);
    assert NestAll(f, [a, b]) == ts;
    PromotedMembers(f, [a, b]);
    ScanFinds(f, [a, b]);
    assert [Node(b, [])][1..] == [] && ts[1..] == [];
    assert Raised(f, [Node(b, [])]) == [b] && Found(f, [Node(b, [])], false) == Seen([], false);
  }

  /**
   A symbol, a comment and another symbol that both depend on it, all with prompts: the comment makes Kconfiglib
   forget the first symbol, so it sees two members; the C tools see one.
   */
  lemma CommentBetween(f: Facts, a: Id, c: Id, b: Id)
    requires f.hasSym(a) && !f.hasSym(c) && f.hasSym(b) && f.belongs(a, c) && f.belongs(a, b) && f.hasText(a)
    ensures Scan(f, [], [a, c, b]) == [a, b]
    ensures Members(f, Promote(f, FinalizeAll(f, Leaves([a, c, b])))) == [a]
  {
    var kids := [Node(c, []), Node(b, [])];
    var ts := [Node(a, kids)];
    assert [a, c, b][1..] == [c, b] && [c, b][1..] == [b] && [b][1..] == [];
    assert Take(f, a, [b]) == Taken([Node(b, [])], []);
    assert Take(f, a, [c, b]) == Taken(kids, []);
    assert NestAll(f, [a, c, b]) == ts;
    PromotedMembers(f, [a, c, b]);
    ScanFinds(f, [a, c, b]);
    assert kids[1..] == [Node(b, [])] && [Node(b, [])][1..] == [] && ts[1..] == [];
    assert Found(f, [Node(b, [])], true) == Seen([b], true);
    assert Found(f, kids, false) == Seen([b], true);
  }
}
