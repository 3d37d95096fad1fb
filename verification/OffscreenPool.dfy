/**
 The off-screen memory manager of the Linux frame buffer driver (package/qt/qscreenlinuxfb_qws_wz.cpp:
 insert_entry, delete_entry, cache, deleteEntry, clearCache, setupOffScreen). Blocks are handed out from
 the top of video memory downwards; the table that lists them grows upwards from below.
 */
module OffscreenPool {
  /** A block [start, end) and the client that holds it. */
  datatype Entry = Entry(start: int, end: int, client: int)

  datatype Option<+T> = None | Some(value: T)

  /** Three 32-bit words. */
  const ENTRY_SIZE := 12

  // ----- the table as a sequence -----

  /** Blocks below `top` in descending order, none but the first empty. */
  ghost predicate Descending(ts: seq<Entry>, top: int) {
    && (ts != [] ==> ts[0].start <= ts[0].end <= top)
    && forall i :: 1 <= i < |ts| ==> Below(ts, i)
  }

  /** The first entry is the one initDevice makes to mark the top of memory. */
  predicate HasDummy(ts: seq<Entry>, top: int) { ts != [] && ts[0].start == top && ts[0].end == top }

  /** Block `i` is not empty and lies below the one before it. */
  predicate Below(ts: seq<Entry>, i: nat)
    requires 1 <= i < |ts|
  {
    ts[i].start < ts[i].end <= ts[i - 1].start
  }

  function Lowest(ts: seq<Entry>): int
    requires ts != []
  {
    ts[|ts| - 1].start
  }

  /** Any two blocks are disjoint, and each lies between the lowest start and the top. */
  lemma {:induction false} BlocksDisjoint(ts: seq<Entry>, top: int, i: nat, j: nat)
    requires Descending(ts, top) && i < j < |ts|
    ensures ts[j].start < ts[j].end <= ts[i].start <= ts[i].end <= top
    decreases i + j
  {
    assert Below(ts, j);
    if i + 1 < j {
      BlocksDisjoint(ts, top, i, j - 1);
    }
    if i > 0 {
      BlocksDisjoint(ts, top, 0, i);
    }
  }

  // ----- alignment -----

  function RoundUp(x: int, align: int): int
    requires align > 0
  {
    if x % align == 0 then x else x - x % align + align
  }

  function RoundDown(x: int, align: int): int
    requires align > 0
  {
    x - x % align
  }

  lemma Aligned(x: int, align: int)
    requires align > 0
    ensures RoundDown(x, align) % align == 0 && RoundUp(x, align) % align == 0
    ensures RoundDown(x, align) <= x < RoundDown(x, align) + align && x <= RoundUp(x, align) < x + align
  {
    var q := x / align;
    assert x - x % align == align * q;
    Multiple(align, q);
    Multiple(align, q + 1);
    assert align * (q + 1) == align * q + align;
  }

  lemma {:induction false} ProductGrows(a: int, k: int)
    requires a > 0
    ensures (k >= 1 ==> a * k >= a) && (k <= -1 ==> a * k <= -a)
    decreases if k < 0 then -k else k
  {
    if k > 1 {
      ProductGrows(a, k - 1);
      assert a * k == a * (k - 1) + a;
    } else if k < -1 {
      ProductGrows(a, k + 1);
      assert a * k == a * (k + 1) - a;
    }
  }

  /** Two multiples less than `a` apart are equal. */
  lemma CloseProducts(a: int, p: int, q: int)
    requires a > 0 && -a < a * p - a * q < a
    ensures p == q
  {
    assert a * (p - q) == a * p - a * q;
    ProductGrows(a, p - q);
  }

  lemma Multiple(a: int, q: int)
    requires a > 0
    ensures (a * q) % a == 0
  {
    var x := a * q;
    assert x == a * (x / a) + x % a;
    CloseProducts(a, q, x / a);
  }

  lemma CloseMultiples(m: int, n: int, align: int)
    requires align > 0 && m % align == 0 && n % align == 0 && m - align < n < m + align
    ensures m == n
  {
    assert m == align * (m / align) && n == align * (n / align);
    CloseProducts(align, m / align, n / align);
  }

  /** Going one step below an unaligned address and then up ends at the multiple below it. */
  lemma DownThenUp(x: int, align: int)
    requires align > 0 && x % align != 0
    ensures RoundUp(x - align, align) == RoundDown(x, align)
  {
    Aligned(x, align);
    Aligned(x - align, align);
    CloseMultiples(RoundUp(x - align, align), RoundDown(x, align), align);
  }

  // ----- what the operations do to the table -----

  function Inserted(ts: seq<Entry>, k: nat, e: Entry): seq<Entry>
    requires k <= |ts|
  {
    ts[..k] + [e] + ts[k..]
  }

  function Removed(ts: seq<Entry>, k: nat): seq<Entry>
    requires k < |ts|
  {
    ts[..k] + ts[k + 1..]
  }

  lemma IsInserted(ts: seq<Entry>, k: nat, e: Entry, r: seq<Entry>)
    requires k <= |ts| && |r| == |ts| + 1 && r[k] == e
    requires forall i {:trigger r[i]} :: 0 <= i < |r| && i != k ==> r[i] == ts[if i < k then i else i - 1]
    ensures r == Inserted(ts, k, e)
  {}

  lemma IsRemoved(ts: seq<Entry>, k: nat, r: seq<Entry>)
    requires k < |ts| && |r| == |ts| - 1
    requires forall i {:trigger r[i]} :: 0 <= i < |r| ==> r[i] == ts[if i < k then i else i + 1]
    ensures r == Removed(ts, k)
  {}

  /** The first index from `i` on of a block that starts at `p`. */
  function IndexOf(ts: seq<Entry>, p: int, i: nat): (k: nat)
    requires i <= |ts|
    ensures i <= k <= |ts| && (k < |ts| ==> ts[k].start == p)
    ensures forall j {:trigger ts[j]} :: i <= j < k ==> ts[j].start != p
    decreases |ts| - i
  {
    if i == |ts| || ts[i].start == p then i else IndexOf(ts, p, i + 1)
  }

  /** The table once `client` has given back the block at `p`; other requests are ignored. */
  function Freed(ts: seq<Entry>, p: int, client: int): seq<Entry> {
    if ts == [] then []
    else
      var k := IndexOf(ts, p, 1);
      if k < |ts| && ts[k].client == client then Removed(ts, k) else ts
  }

  /** The entries of all other clients, in order. */
  function Kept(ts: seq<Entry>, client: int): seq<Entry> {
    if ts == [] then []
    else if ts[|ts| - 1].client == client then Kept(ts[..|ts| - 1], client)
    else Kept(ts[..|ts| - 1], client) + [ts[|ts| - 1]]
  }

  lemma InsertDescending(ts: seq<Entry>, top: int, k: nat, e: Entry)
    requires Descending(ts, top) && k <= |ts| && e.start < e.end && (k < |ts| ==> 1 <= k && ts[k].end <= e.start)
    requires e.end <= if k == 0 then top else ts[k - 1].start
    ensures Descending(Inserted(ts, k, e), top)
    ensures Lowest(Inserted(ts, k, e)) == if k < |ts| then Lowest(ts) else e.start
  {
    var r := Inserted(ts, k, e);
    forall i | 1 <= i < |r|
      ensures Below(r, i)
    {
      if i < k {
        assert Below(ts, i);
      } else if i > k + 1 {
        assert Below(ts, i - 1);
      } else if i == k + 1 {
        assert Below(ts, k);
      }
    }
  }

  /** An empty block, as a request for nothing can get, is not accounted for. */
  lemma EmptyBlockBreaks(ts: seq<Entry>, top: int, k: nat, e: Entry)
    requires 1 <= k <= |ts| && e.start >= e.end
    ensures !Descending(Inserted(ts, k, e), top)
  {
    var r := Inserted(ts, k, e);
    assert r[k] == e && !Below(r, k);
  }

  lemma RemoveDescending(ts: seq<Entry>, top: int, k: nat)
    requires Descending(ts, top) && k < |ts|
    ensures Descending(Removed(ts, k), top)
    ensures |ts| > 1 ==> Lowest(Removed(ts, k)) == if k == |ts| - 1 then ts[k - 1].start else Lowest(ts)
  {
    var r := Removed(ts, k);
    if k + 1 < |ts| {
      assert Below(ts, k + 1);
    }
    forall i | 1 <= i < |r|
      ensures Below(r, i)
    {
      assert Below(ts, if i < k then i else i + 1);
      if i == k {
        assert Below(ts, k);
      }
    }
  }

  /**
   Giving back a block that was just handed out restores the table and, with it, the lowest start, exactly if it is not
   the first entry; a block handed out from an empty table is never given back.
   */
  lemma UncacheRestores(ts: seq<Entry>, top: int, k: nat, e: Entry)
    requires k <= |ts| && Descending(Inserted(ts, k, e), top)
    ensures Freed(Inserted(ts, k, e), e.start, e.client) == ts <==> k >= 1
    ensures ts == [] ==> Freed(Inserted(ts, k, e), e.start, e.client) == [e]
  {
    var r := Inserted(ts, k, e);
    assert r[k] == e;
    if k >= 1 {
      forall j | 1 <= j < k
        ensures r[j].start != e.start
      {
        BlocksDisjoint(r, top, j, k);
      }
      assert IndexOf(r, e.start, 1) == k;
      assert r[..k] == ts[..k] && r[k + 1..] == ts[k..];
    } else {
      forall j | 1 <= j < |r|
        ensures r[j].start != e.start
      {
        BlocksDisjoint(r, top, 0, j);
      }
      assert IndexOf(r, e.start, 1) == |r|;
    }
  }

  lemma {:induction false} FirstIndex(ts: seq<Entry>, p: int, i: nat, j: nat)
    requires i <= j < |ts| && ts[j].start == p && forall l :: i <= l < j ==> ts[l].start != p
    ensures IndexOf(ts, p, i) == j
  {}

  /** A block goes exactly if the client who holds it gives it back and it is not the first entry. */
  lemma FreedExactly(ts: seq<Entry>, top: int, p: int, client: int, j: nat)
    requires Descending(ts, top) && j < |ts|
    ensures ts[j] in Freed(ts, p, client) <==> !(j >= 1 && ts[j].start == p && ts[j].client == client)
    ensures forall e :: e in Freed(ts, p, client) ==> e in ts
  {
    var k := IndexOf(ts, p, 1);
    if j >= 1 && ts[j].start == p {
      forall l | 1 <= l < j
        ensures ts[l].start != p
      {
        BlocksDisjoint(ts, top, l, j);
      }
      FirstIndex(ts, p, 1, j);
    }
    if k < |ts| && ts[k].client == client {
      var r := Removed(ts, k);
      if j != k {
        assert r[if j < k then j else j - 1] == ts[j];
      } else {
        forall i | 0 <= i < |r|
          ensures r[i] != ts[k]
        {
          if i < k {
            BlocksDisjoint(ts, top, i, k);
          } else {
            BlocksDisjoint(ts, top, k, i + 1);
          }
        }
      }
    }
  }

  lemma InitDescending(ts: seq<Entry>, top: int)
    requires Descending(ts, top) && ts != []
    ensures Descending(ts[..|ts| - 1], top)
  {
    var init := ts[..|ts| - 1];
    forall i | 1 <= i < |init|
      ensures Below(init, i)
    {
      assert Below(ts, i);
    }
  }

  lemma AppendDescending(ts: seq<Entry>, top: int, e: Entry)
    requires Descending(ts, top) && ts != [] && e.start < e.end <= Lowest(ts)
    ensures Descending(ts + [e], top)
  {
    assert Inserted(ts, |ts|, e) == ts + [e];
    InsertDescending(ts, top, |ts|, e);
  }

  /** Whoever is cleared, the entries that are left are in order, and nothing is lower than before. */
  lemma {:induction false} KeptDescending(ts: seq<Entry>, top: int, client: int)
    requires Descending(ts, top)
    ensures Descending(Kept(ts, client), top)
    ensures Kept(ts, client) != [] ==> Lowest(ts) <= Lowest(Kept(ts, client))
    decreases |ts|
  {
    if ts != [] {
      var init, last := ts[..|ts| - 1], ts[|ts| - 1];
      InitDescending(ts, top);
      KeptDescending(init, top, client);
      if |ts| > 1 {
        assert Below(ts, |ts| - 1);
        BlocksDisjoint(ts, top, 0, |ts| - 1);
      }
      if last.client != client && Kept(init, client) != [] {
        AppendDescending(Kept(init, client), top, last);
      }
    }
  }

  lemma {:induction false} KeptNonEmpty(ts: seq<Entry>, top: int, client: int)
    requires Descending(ts, top) && ts != [] && ts[0].client == client
    ensures forall i {:trigger Kept(ts, client)[i]} :: 0 <= i < |Kept(ts, client)| ==>
            Kept(ts, client)[i].start < Kept(ts, client)[i].end
    decreases |ts|
  {
    if |ts| == 1 {
      assert Kept(ts[..0], client) == [];
    } else {
      InitDescending(ts, top);
      KeptNonEmpty(ts[..|ts| - 1], top, client);
      assert Below(ts, |ts| - 1);
    }
  }

  lemma {:induction false} KeptFirst(ts: seq<Entry>, client: int)
    requires ts != [] && ts[0].client != client
    ensures Kept(ts, client) != [] && Kept(ts, client)[0] == ts[0]
    decreases |ts|
  {
    if |ts| > 1 {
      KeptFirst(ts[..|ts| - 1], client);
    } else {
      assert ts[..0] == [];
    }
  }

  /** Every entry of another client is kept as often as it occurs, and no other. */
  lemma {:induction false} KeptExactly(ts: seq<Entry>, client: int, e: Entry)
    ensures multiset(Kept(ts, client))[e] == if e.client == client then 0 else multiset(ts)[e]
    decreases |ts|
  {
    if ts != [] {
      var init, last := ts[..|ts| - 1], ts[|ts| - 1];
      assert ts == init + [last];
      KeptExactly(init, client, e);
      assert multiset(ts) == multiset(init) + multiset{last};
      assert multiset(Kept(init, client) + [last]) == multiset(Kept(init, client)) + multiset{last};
    }
  }

  /** The mark at the top of memory survives exactly if it is not the cleared client that holds it. */
  lemma ClearKeepsDummy(ts: seq<Entry>, top: int, client: int)
    requires Descending(ts, top) && HasDummy(ts, top)
    ensures HasDummy(Kept(ts, client), top) <==> ts[0].client != client
  {
    if ts[0].client != client {
      KeptFirst(ts, client);
    } else {
      KeptNonEmpty(ts, top, client);
      assert Kept(ts, client) != [] ==> Kept(ts, client)[0].start < Kept(ts, client)[0].end;
    }
  }

  // ----- the memory that can still be handed out -----

  /** Everything handed out from now on ends at most here. */
  function Ceiling(ts: seq<Entry>, low: int): int { if ts == [] then low else ts[0].end }

  lemma {:induction false} KeptFirstLower(ts: seq<Entry>, top: int, client: int)
    requires Descending(ts, top) && Kept(ts, client) != []
    ensures Kept(ts, client)[0].end <= ts[0].end
    decreases |ts|
  {
    var init := ts[..|ts| - 1];
    if |ts| > 1 {
      BlocksDisjoint(ts, top, 0, |ts| - 1);
      InitDescending(ts, top);
      if Kept(init, client) != [] {
        KeptFirstLower(init, top, client);
      }
    } else {
      assert init == [];
    }
  }

  /**
   Clearing the client that holds the mark loses memory, unless there are no blocks or the first kept one ends at the
   top.
   */
  lemma ClearLoses(ts: seq<Entry>, top: int, client: int)
    requires Descending(ts, top) && HasDummy(ts, top) && ts[0].client == client
    ensures Ceiling(Kept(ts, client), Lowest(ts)) == top <==>
            |ts| == 1 || (Kept(ts, client) != [] && Kept(ts, client)[0].end == top)
  {
    if |ts| == 1 {
      assert Kept(ts[..0], client) == [];
    } else {
      BlocksDisjoint(ts, top, 0, |ts| - 1);
    }
  }

  // ----- which block is handed out -----

  /** The gap below block `i` has room for `amount` bytes at an aligned address. */
  predicate GapFits(ts: seq<Entry>, align: int, amount: int, i: nat)
    requires align > 0 && i + 1 < |ts|
  {
    ts[i + 1].end != ts[i].start && ts[i].start - RoundUp(ts[i + 1].end, align) >= amount
  }

  /** A gap fits exactly if it holds an aligned block of that size; the one chosen is the lowest. */
  lemma GapFitsIff(ts: seq<Entry>, align: int, amount: int, i: nat)
    requires align > 0 && i + 1 < |ts| && ts[i + 1].end != ts[i].start
    ensures GapFits(ts, align, amount, i) <==>
            exists x :: x % align == 0 && ts[i + 1].end <= x && x + amount <= ts[i].start
    ensures forall x :: x % align == 0 && ts[i + 1].end <= x ==> RoundUp(ts[i + 1].end, align) <= x
  {
    var low := RoundUp(ts[i + 1].end, align);
    Aligned(ts[i + 1].end, align);
    forall x | x % align == 0 && ts[i + 1].end <= x
      ensures low <= x
    {
      if x < low {
        CloseMultiples(low, x, align);
      }
    }
  }

  /** The memory below `low` and above `limit` holds an aligned block exactly if the one chosen there fits. */
  lemma BottomFitsIff(low: int, limit: int, align: int, amount: int)
    requires align > 0
    ensures limit < RoundDown(low - amount, align) <==>
            exists x :: x % align == 0 && limit < x && x + amount <= low
  {
    var best := RoundDown(low - amount, align);
    Aligned(low - amount, align);
    if x :| x % align == 0 && limit < x && x + amount <= low {
      if best < x {
        CloseMultiples(best, x, align);
      }
    }
  }

  ghost predicate NoGap(ts: seq<Entry>, align: int, amount: int, n: nat)
    requires align > 0
  {
    forall i {:trigger GapFits(ts, align, amount, i)} :: 0 <= i < n && i + 1 < |ts| ==> !GapFits(ts, align, amount, i)
  }

  /** With one more entry the table would end at `limit`: there is no room for it, or for a block of `amount` bytes. */
  ghost predicate Full(ts: seq<Entry>, low: int, limit: int, align: int, amount: int)
    requires align > 0
  {
    limit >= low || (NoGap(ts, align, amount, |ts|) && limit >= RoundDown(low - amount, align))
  }

  /** The block `e` at index `k` is the first gap that fits or, without one, lies directly below `low`. */
  ghost predicate FirstFit(ts: seq<Entry>, low: int, align: int, amount: int, k: nat, e: Entry)
    requires align > 0
  {
    if k < |ts| then
      k >= 1 && NoGap(ts, align, amount, k - 1) && GapFits(ts, align, amount, k - 1) &&
        e.start == RoundUp(ts[k].end, align) && e.end == e.start + amount
    else
      k == |ts| && NoGap(ts, align, amount, k) && e.start == RoundDown(low - amount, align) && e.end == low
  }

  /** The lowest start, which outlives the entry it comes from when the table is cleared. */
  ghost predicate LowOk(ts: seq<Entry>, top: int, low: int) { low <= top && (ts != [] ==> low == Lowest(ts)) }

  /** A block so chosen is aligned and, if it is not empty, in free memory below the ceiling. */
  lemma FirstFitFree(ts: seq<Entry>, top: int, low: int, align: int, amount: int, k: nat, e: Entry)
    requires align > 0 && Descending(ts, top) && LowOk(ts, top, low) && FirstFit(ts, low, align, amount, k, e) &&
             e.start < e.end
    ensures e.start % align == 0 && e.end - e.start >= amount && e.end <= Ceiling(ts, low)
    ensures (k > 0 ==> e.end <= ts[k - 1].start) && (k < |ts| ==> ts[k].end <= e.start)
    ensures Descending(Inserted(ts, k, e), top)
    ensures LowOk(Inserted(ts, k, e), top, if e.start < low then e.start else low)
    ensures e.start < low <==> k == |ts|
  {
    if k < |ts| {
      Aligned(ts[k].end, align);
      assert GapFits(ts, align, amount, k - 1) && Below(ts, k);
      LowestFirst(ts, top, k);
    } else {
      Aligned(low - amount, align);
    }
    if k > 1 {
      BlocksDisjoint(ts, top, 0, k - 1);
    }
    InsertDescending(ts, top, k, e);
  }

  lemma LowestFirst(ts: seq<Entry>, top: int, k: nat)
    requires Descending(ts, top) && k < |ts|
    ensures Lowest(ts) <= ts[k].start
  {
    if k < |ts| - 1 {
      BlocksDisjoint(ts, top, k, |ts| - 1);
    }
  }

  lemma StartBelowTop(ts: seq<Entry>, top: int, k: nat)
    requires Descending(ts, top) && k < |ts|
    ensures ts[k].start <= top
  {
    if k > 0 {
      BlocksDisjoint(ts, top, 0, k);
    }
  }

  /** A request for at least one byte never gets an empty block; any other gets one unless alignment leaves a rest. */
  lemma BlockNotEmpty(ts: seq<Entry>, low: int, align: int, amount: int, k: nat, e: Entry)
    requires align > 0 && FirstFit(ts, low, align, amount, k, e)
    ensures amount > 0 ==> e.start < e.end
    ensures amount <= 0 ==> (e.start < e.end <==> k == |ts| && RoundDown(low - amount, align) < low)
  {
    Aligned(low - amount, align);
  }

  /** What clients ask of the pool. */
  datatype Request = Alloc(amount: int, client: int) | Free(p: int, client: int) | Clear(client: int)

  /** No block of the table shares memory with the one from `start` to `end`. */
  ghost predicate Apart(ts: seq<Entry>, start: int, end: int) {
    forall i {:trigger ts[i]} :: 0 <= i < |ts| ==> ts[i].end <= start || end <= ts[i].start
  }

  /** None of the first `n` requests comes from the client. */
  predicate Silent(reqs: seq<Request>, n: nat, client: int)
    requires n <= |reqs|
  {
    forall i :: 0 <= i < n ==> reqs[i].client != client
  }

  /** The blocks of the other clients are still there. */
  ghost predicate OthersKept(ts: seq<Entry>, client: int, ts': seq<Entry>) {
    forall e :: e in ts && e.client != client ==> e in ts'
  }

  lemma FreedKeepsOthers(ts: seq<Entry>, top: int, p: int, client: int)
    requires Descending(ts, top)
    ensures OthersKept(ts, client, Freed(ts, p, client))
  {
    forall e | e in ts && e.client != client
      ensures e in Freed(ts, p, client)
    {
      var j :| 0 <= j < |ts| && ts[j] == e;
      FreedExactly(ts, top, p, client, j);
    }
  }

  lemma KeptKeepsOthers(ts: seq<Entry>, client: int)
    ensures OthersKept(ts, client, Kept(ts, client))
  {
    forall e | e in ts && e.client != client
      ensures e in Kept(ts, client)
    {
      KeptExactly(ts, client, e);
      assert multiset(ts)[e] > 0;
    }
  }

  lemma InsertedKeepsAll(ts: seq<Entry>, k: nat, e: Entry)
    requires k <= |ts|
    ensures e in Inserted(ts, k, e) && forall x :: x in ts ==> x in Inserted(ts, k, e)
  {
    assert ts == ts[..k] + ts[k..];
  }

  lemma FitApart(ts: seq<Entry>, top: int, k: nat, e: Entry)
    requires k <= |ts| && e.start < e.end && Descending(Inserted(ts, k, e), top)
    ensures Apart(ts, e.start, e.end)
  {
    var r := Inserted(ts, k, e);
    assert r[k] == e;
    forall i {:trigger ts[i]} | 0 <= i < |ts|
      ensures ts[i].end <= e.start || e.end <= ts[i].start
    {
      if i < k {
        assert r[i] == ts[i];
        BlocksDisjoint(r, top, i, k);
      } else {
        assert r[i + 1] == ts[i];
        BlocksDisjoint(r, top, k, i + 1);
      }
    }
  }

  class Pool {
    const mapsize: int
    const base: int
    const align: int
    const canaccel: bool
    const entries: array<Entry>
    var entryp: int
    var lowest: int

    /** setupOffScreen, useOffscreen and the dummy entry made by initDevice */
    constructor (size: int, mapsize: int, align: int, client: int)
      requires 0 <= size && align > 0
      ensures Valid() && fresh(entries) && this.mapsize == mapsize && this.align == align
      ensures canaccel <==> mapsize - size >= 16 * 1024
      ensures canaccel ==>
              Table() == [Entry(mapsize, mapsize, client)] && HasDummy(Table(), mapsize) && lowest == mapsize
    {
      this.mapsize, this.align := mapsize, align;
      canaccel := mapsize - size >= 16 * 1024;
      base := (size + 4096 + 8) / 8 * 8 + 16;
      var room := if mapsize > 0 then mapsize / ENTRY_SIZE + 1 else 1;
      entries := new Entry[room](i => Entry(0, 0, 0));
      entryp := 0;
      lowest := mapsize;
      new;
      if canaccel {
        InsertEntry(0, lowest, lowest, client);
      }
    }

    ghost predicate InBounds()
      reads this
    {
      0 <= entryp <= entries.Length && align > 0 && base >= 16 && base + entries.Length * ENTRY_SIZE > mapsize
    }

    function Table(): seq<Entry>
      requires InBounds()
      reads this, entries
    {
      entries[..entryp]
    }

    /**
     The table lists the blocks in order, `lowest` is the lowest start if there is any, and the table ends below it.
     */
    ghost predicate Valid()
      reads this, entries
    {
      InBounds() && (canaccel ==>
        Descending(Table(), mapsize) && LowOk(Table(), mapsize, lowest) && base + entryp * ENTRY_SIZE <= lowest)
    }

    method InsertEntry(pos: int, start: int, end: int, client: int)
      requires InBounds() && 0 <= pos && entryp < entries.Length
      modifies this`entryp, this`lowest, entries
      ensures InBounds()
      ensures if pos > old(entryp) then Table() == old(Table()) && lowest == old(lowest)
              else && Table() == Inserted(old(Table()), pos, Entry(start, end, client))
                   && lowest == (if start < old(lowest) then start else old(lowest))
    {
      if pos > entryp {
        return;
      }
      if start < lowest {
        lowest := start;
      }
      ghost var ts := Table();
      if pos == entryp {
        entries[pos] := Entry(start, end, client);
        entryp := entryp + 1;
      } else {
        forall i | pos < i <= entryp {
          entries[i] := entries[i - 1];
        }
        entries[pos] := Entry(start, end, client);
        entryp := entryp + 1;
      }
      IsInserted(ts, pos, Entry(start, end, client), Table());
    }

    /** The start of an entry; the word at the start of the slot before entry 0 is `lowest` itself (setupOffScreen). */
    method StartOf(i: int) returns (x: int)
      requires InBounds() && -1 <= i < entries.Length
      ensures x == if i == -1 then lowest else entries[i].start
    {
      x := if i == -1 then lowest else entries[i].start;
    }

    /** delete_entry */
    method RemoveEntry(pos: int)
      requires InBounds() && pos != entryp
      modifies this`entryp, this`lowest, entries
      ensures InBounds()
      ensures if 0 <= pos < old(entryp)
              then Table() == Removed(old(Table()), pos) &&
                   lowest == (if old(entries[pos]).start <= old(lowest) &&
                     pos > 0 then old(entries[pos - 1]).start else old(lowest))
              else Table() == old(Table()) && lowest == old(lowest)
    {
      if pos > entryp || pos < 0 {
        return;
      }
      if entries[pos].start <= lowest {
        lowest := StartOf(pos - 1);
      }
      ghost var ts := Table();
      entryp := entryp - 1;
      if pos == entryp {
        return;
      }
      forall i | pos <= i < entryp {
        entries[i] := entries[i + 1];
      }
      IsRemoved(ts, pos, Table());
    }

    /** Removing an entry of a table that is in order. */
    method RemoveInOrder(pos: nat)
      requires Valid() && canaccel && pos < entryp
      modifies this`entryp, this`lowest, entries
      ensures Valid() && Table() == Removed(old(Table()), pos) && (pos == 0 ==> lowest == old(lowest))
    {
      RemoveDescending(Table(), mapsize, pos);
      if pos > 0 {
        LowestFirst(Table(), mapsize, pos - 1);
        StartBelowTop(Table(), mapsize, pos - 1);
      }
      LowestLast(Table(), mapsize, pos);
      RemoveEntry(pos);
    }

    /** The loop that moves an address up to a multiple of the alignment. */
    method AlignUp(x: int) returns (r: int)
      requires align > 0
      ensures r == RoundUp(x, align)
    {
      Aligned(x, align);
      r := x;
      while r % align != 0
        invariant x <= r <= RoundUp(x, align)
        decreases RoundUp(x, align) - r
      {
        r := r + 1;
      }
      CloseMultiples(r, RoundUp(x, align), align);
    }

    /** The search for a gap; `k` is the index for the new block, or -1. */
    method FindGap(amount: int) returns (k: int, start: int)
      requires Valid() && canaccel
      ensures k == -1 ==> NoGap(Table(), align, amount, entryp)
      ensures k != -1 ==>
              1 <= k < entryp && NoGap(Table(), align, amount, k - 1) && GapFits(Table(), align, amount, k - 1)
      ensures k != -1 ==> start == RoundUp(Table()[k].end, align)
    {
      if entryp > 1 {
        for i := 0 to entryp - 1
          invariant NoGap(Table(), align, amount, i)
        {
          start := entries[i + 1].end;
          if start != entries[i].start {
            start := AlignUp(start);
            if entries[i].start - start >= amount {
              return i + 1, start;
            }
          }
        }
      }
      return -1, 0;
    }

    /** The address for a block below all others. */
    method BottomStart(amount: int) returns (r: int)
      requires align > 0
      ensures r == RoundDown(lowest - amount, align)
    {
      r := lowest - amount;
      if r % align != 0 {
        DownThenUp(r, align);
        r := r - align;
        r := AlignUp(r);
      }
    }

    /** Where `cache` puts a block when the table may grow up to `limit`. */
    method Choose(amount: int, limit: int, client: int) returns (ok: bool, k: int, e: Entry)
      requires Valid() && canaccel
      ensures ok <==> !Full(Table(), lowest, limit, align, amount)
      ensures ok ==> 0 <= k <= entryp && FirstFit(Table(), lowest, align, amount, k, e) && e.client == client
      ensures ok ==> limit < lowest && (k == entryp ==> limit < e.start)
    {
      ok, k, e := false, 0, Entry(0, 0, client);
      if limit >= lowest {
        return;
      }
      var pos, start := FindGap(amount);
      if pos != -1 {
        return true, pos, Entry(start, start + amount, client);
      }
      start := BottomStart(amount);
      if limit >= start {
        return;
      }
      return true, entryp, Entry(start, lowest, client);
    }

    /** cache: the first gap that fits, else the space below all blocks, else nothing */
    method Cache(amount: int, client: int) returns (r: Option<int>, ghost k: nat, ghost e: Entry)
      requires Valid()
      modifies this`entryp, this`lowest, entries
      ensures InBounds() && (r.None? || e.start < e.end ==> Valid())
      ensures r.Some? ==>
              canaccel && FirstFit(old(Table()), old(lowest), align, amount, k, e) && e.client == client &&
              r.value == e.start
      ensures r.Some? ==> k <= |old(Table())| && Table() == Inserted(old(Table()), k, e)
      ensures r.None? ==> Table() == old(Table()) && lowest == old(lowest)
      ensures r.None? <==>
              !canaccel || Full(old(Table()), old(lowest), base + (old(entryp) + 2) * ENTRY_SIZE, align, amount)
    {
      r, k, e := None, 0, Entry(0, 0, 0);
      if !canaccel {
        return;
      }
      var startp := base + ENTRY_SIZE + (entryp + 1) * ENTRY_SIZE;
      var ok, pos, block := Choose(amount, startp, client);
      if !ok {
        return;
      }
      if block.start < block.end {
        FirstFitFree(Table(), mapsize, lowest, align, amount, pos, block);
      }
      k, e := pos, block;
      InsertEntry(pos, block.start, block.end, client);
      r := Some(block.start);
    }

    /** deleteEntry; the search starts at entry 1 */
    method DeleteEntry(p: int, client: int)
      requires Valid() && canaccel
      modifies this`entryp, this`lowest, entries
      ensures Valid() && Table() == Freed(old(Table()), p, client)
      ensures Table() == [] ==> lowest == old(lowest)
    {
      var i, hold := 1, entryp;
      while i < hold
        invariant unchanged(this) && unchanged(entries) && 1 <= i
        invariant hold > 0 ==> i <= hold && IndexOf(Table(), p, 1) == IndexOf(Table(), p, i)
      {
        if entries[i].start == p {
          if entries[i].client == client {
            RemoveInOrder(i);
          }
          return;
        }
        i := i + 1;
      }
    }

    /** One round of the loop in clearCache. */
    method ClearAt(i: nat, client: int) returns (removed: bool)
      requires Valid() && canaccel && i < entryp && Kept(Table()[..i], client) == Table()[..i]
      modifies this`entryp, this`lowest, entries
      ensures Valid() && Kept(Table(), client) == Kept(old(Table()), client)
      ensures if removed then |Table()| == |old(Table())| - 1 && (i == 0 ==> lowest == old(lowest))
              else Table() == old(Table()) && lowest == old(lowest)
      ensures var n := if removed then i else i + 1; Kept(Table()[..n], client) == Table()[..n]
    {
      KeptStep(Table(), i, client);
      removed := entries[i].client == client;
      if removed {
        RemoveInOrder(i);
      }
    }

    /** clearCache: exactly the entries of other clients are left; without any, `lowest` stays where it was */
    method ClearCache(client: int)
      requires Valid()
      modifies this`entryp, this`lowest, entries
      ensures Valid() && Table() == if canaccel then Kept(old(Table()), client) else old(Table())
      ensures Table() == [] ==> lowest == old(lowest)
    {
      if !canaccel {
        return;
      }
      var i := 0;
      assert Table()[..0] == [];
      while i < entryp
        invariant Valid() && 0 <= i <= entryp
        invariant Kept(Table()[..i], client) == Table()[..i] && Kept(Table(), client) == Kept(old(Table()), client)
        invariant i == 0 ==> lowest == old(lowest)
        decreases entryp - i
      {
        var removed := ClearAt(i, client);
        if removed {
          i := i - 1;
        }
        i := i + 1;
      }
      assert Table()[..i] == Table();
    }

    ghost function Top(): int
      requires InBounds()
      reads this, entries
    {
      Ceiling(Table(), lowest)
    }

    /** One request: a block that is handed out is free, large enough and below the ceiling, which never rises. */
    method Serve(req: Request) returns (r: Option<int>)
      requires Valid() && canaccel && (req.Alloc? ==> req.amount > 0)
      modifies this`entryp, this`lowest, entries
      ensures Valid() && Top() <= old(Top())
      ensures r.Some? ==> req.Alloc? && r.value % align == 0 && r.value + req.amount <= old(Top())
      ensures r.Some? ==> Apart(old(Table()), r.value, r.value + req.amount)
      ensures r.Some? ==>
              exists end :: end >= r.value + req.amount && Entry(r.value, end, req.client) in Table()
      ensures OthersKept(old(Table()), req.client, Table())
    {
      r := None;
      ghost var ts := Table();
      match req
      case Alloc(amount, client) =>
        ghost var low := lowest;
        ghost var k: nat;
        ghost var e: Entry;
        r, k, e := Cache(amount, client);
        if r.Some? {
          BlockNotEmpty(ts, low, align, amount, k, e);
          FirstFitFree(ts, mapsize, low, align, amount, k, e);
          FitApart(ts, mapsize, k, e);
          assert k > 0 ==> Inserted(ts, k, e)[0] == ts[0];
          InsertedKeepsAll(ts, k, e);
        }
      case Free(p, client) =>
        FreedKeepsOthers(ts, mapsize, p, client);
        DeleteEntry(p, client);
      case Clear(client) =>
        KeptKeepsOthers(ts, client);
        if Kept(ts, client) != [] {
          KeptFirstLower(ts, mapsize, client);
        }
        LowBelowCeiling(ts, mapsize, lowest);
        ClearCache(client);
    }

    /**
     Whatever is asked for, memory above the ceiling is never handed out again, and clients who ask for nothing keep
     their blocks.
     */
    method ServeAll(reqs: seq<Request>) returns (out: seq<Option<int>>)
      requires Valid() && canaccel && forall i {:trigger reqs[i]} :: 0 <= i < |reqs| && reqs[i].Alloc? ==>
               reqs[i].amount > 0
      modifies this`entryp, this`lowest, entries
      ensures Valid() && Top() <= old(Top()) && |out| == |reqs|
      ensures forall i {:trigger out[i]} :: 0 <= i < |out| && out[i].Some? ==>
              reqs[i].Alloc? && out[i].value + reqs[i].amount <= old(Top())
      ensures forall e :: e in old(Table()) && Silent(reqs, |reqs|, e.client) ==> e in Table()
    {
      out := [];
      for j := 0 to |reqs|
        invariant Valid() && Top() <= old(Top()) && |out| == j
        invariant forall i {:trigger out[i]} :: 0 <= i < |out| && out[i].Some? ==>
                  reqs[i].Alloc? && out[i].value + reqs[i].amount <= old(Top())
        invariant forall e :: e in old(Table()) && Silent(reqs, j, e.client) ==> e in Table()
      {
        var r := Serve(reqs[j]);
        out := out + [r];
      }
    }
  }

  lemma LowBelowCeiling(ts: seq<Entry>, top: int, low: int)
    requires Descending(ts, top) && LowOk(ts, top, low)
    ensures low <= Ceiling(ts, low)
  {
    if |ts| > 1 {
      BlocksDisjoint(ts, top, 0, |ts| - 1);
    }
  }

  /** Only the last block starts at the lowest address. */
  lemma LowestLast(ts: seq<Entry>, top: int, i: nat)
    requires Descending(ts, top) && i < |ts|
    ensures ts[i].start <= Lowest(ts) <==> i == |ts| - 1
  {
    if i < |ts| - 1 {
      BlocksDisjoint(ts, top, i, |ts| - 1);
    }
  }

  lemma {:induction false} KeptJoin(a: seq<Entry>, b: seq<Entry>, client: int)
    ensures Kept(a + b, client) == Kept(a, client) + Kept(b, client)
    decreases |b|
  {
    if b == [] {
      assert a + b == a;
    } else {
      assert (a + b)[..|a + b| - 1] == a + b[..|b| - 1];
      KeptJoin(a, b[..|b| - 1], client);
    }
  }

  lemma KeptStep(ts: seq<Entry>, i: nat, client: int)
    requires i < |ts| && Kept(ts[..i], client) == ts[..i]
    ensures ts[i].client == client ==>
            Kept(Removed(ts, i), client) == Kept(ts, client) && Removed(ts, i)[..i] == ts[..i]
    ensures ts[i].client != client ==> Kept(ts[..i + 1], client) == ts[..i + 1]
  {
    assert ts[..i + 1][..i] == ts[..i] && ts[..i + 1] + ts[i + 1..] == ts;
    KeptJoin(ts[..i + 1], ts[i + 1..], client);
    KeptJoin(ts[..i], ts[i + 1..], client);
  }
}
