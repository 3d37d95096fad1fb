/**
 Passing boot timings on through memory (sunmi/x2600/u-boot/common/bootstage.c: append_data,
 bootstage_stash, bootstage_unstash, get_record_name). Words are stored with the low byte first; a record
 takes five of them.
 */
module BootStage {
  type Byte = x: int | 0 <= x < 256
  type Word = x: int | 0 <= x < 0x1_0000_0000

  datatype Option<+T> = None | Some(value: T)

  /** Names are C strings: no zero byte. */
  datatype Record = Record(time: Word, start: Word, name: Option<seq<Byte>>, flags: Word, id: Word)

  const MAGIC: Word := 0xb00757a3
  const VERSION: Word := 0
  const HEADER := 16

  /** Where record `i` of a stash begins; a record takes 20 bytes. */
  function RecordPos(i: nat): nat { 16 + 20 * i }

  // ----- words -----

  /** The low `n` bytes of a number. */
  function Bytes(v: nat, n: nat): (b: seq<Byte>)
    ensures |b| == n
  {
    if n == 0 then [] else [v % 256] + Bytes(v / 256, n - 1)
  }

  function ValueAt(b: seq<Byte>, i: nat, n: nat): nat
    requires i + n <= |b|
    decreases n
  {
    if n == 0 then 0 else b[i] + 256 * ValueAt(b, i + 1, n - 1)
  }

  function Limit(n: nat): nat { if n == 0 then 1 else 256 * Limit(n - 1) }

  function WordBytes(v: Word): (b: seq<Byte>)
    ensures |b| == 4
  {
    Bytes(v, 4)
  }

  lemma {:induction false} ValueBound(b: seq<Byte>, i: nat, n: nat)
    requires i + n <= |b|
    ensures ValueAt(b, i, n) < Limit(n)
    decreases n
  {
    if n > 0 {
      ValueBound(b, i + 1, n - 1);
    }
  }

  lemma FourBytes()
    ensures Limit(4) == 0x1_0000_0000
  {
    assert Limit(2) == 65536;
  }

  function WordAt(b: seq<Byte>, i: nat): Word
    requires i + 4 <= |b|
  {
    ValueBound(b, i, 4);
    FourBytes();
    ValueAt(b, i, 4)
  }

  lemma {:induction false} BytesReadBack(b: seq<Byte>, i: nat, v: nat, n: nat)
    requires Holds(b, i, Bytes(v, n)) && v < Limit(n)
    ensures ValueAt(b, i, n) == v
    decreases n
  {
    if n > 0 {
      var w, rest := Bytes(v, n), Bytes(v / 256, n - 1);
      assert b[i + 0] == w[0];
      forall k | 0 <= k < |rest|
        ensures b[i + 1 + k] == rest[k]
      {
        assert b[i + (k + 1)] == w[k + 1];
      }
      BytesReadBack(b, i + 1, v / 256, n - 1);
    }
  }

  lemma WordReadBack(b: seq<Byte>, i: nat, v: Word)
    requires Holds(b, i, WordBytes(v))
    ensures WordAt(b, i) == v
  {
    FourBytes();
    BytesReadBack(b, i, v, 4);
  }

  // ----- records -----

  function Digits(n: nat): seq<Byte> {
    if n < 10 then [48 + n] else Digits(n / 10) + [48 + n % 10]
  }

  /** A word printed as an int. */
  function IntText(w: Word): seq<Byte> { if w < 0x8000_0000 then Digits(w) else [45] + Digits(0x1_0000_0000 - w) }

  /** get_record_name, for the first identifier free for users */
  function NameOf(r: Record, user: Word): seq<Byte> {
    match r.name
    case Some(n) => n
    case None =>
      if r.id >= user then [117, 115, 101, 114, 95] + IntText(r.id - user) else [105, 100, 61] + IntText(r.id)
  }

  /** A record in memory; the address of its name, which means nothing to a later reader, is the word `addr`. */
  function Image(r: Record, addr: Word): (b: seq<Byte>)
    ensures |b| == 20
  {
    WordBytes(r.time) + WordBytes(r.start) + WordBytes(addr) + WordBytes(r.flags) + WordBytes(r.id)
  }

  /** The records with a time. */
  function Live(rs: seq<Record>): (live: seq<Record>)
    ensures |live| <= |rs|
  {
    if rs == [] then []
    else Live(rs[..|rs| - 1]) + (if rs[|rs| - 1].time != 0 then [rs[|rs| - 1]] else [])
  }

  function Images(rs: seq<Record>, addr: Word): (b: seq<Byte>)
    ensures |b| == 20 * |rs|
  {
    if rs == [] then [] else Images(rs[..|rs| - 1], addr) + Image(rs[|rs| - 1], addr)
  }

  /** The names, each with its terminator. */
  function Names(rs: seq<Record>, nm: Record -> seq<Byte>): seq<Byte> {
    if rs == [] then [] else Names(rs[..|rs| - 1], nm) + (nm(rs[|rs| - 1]) + [0])
  }

  function HeaderBytes(count: Word, size: Word): (b: seq<Byte>)
    ensures |b| == HEADER
  {
    WordBytes(VERSION) + WordBytes(count) + WordBytes(size) + WordBytes(MAGIC)
  }

  /** What the stash holds behind its header. */
  function Payload(live: seq<Record>, addr: Word, nm: Record -> seq<Byte>): seq<Byte> {
    Images(live, addr) + Names(live, nm)
  }

  // ----- reading -----

  function NulFrom(b: seq<Byte>, i: nat): (k: nat)
    requires i <= |b|
    ensures i <= k <= |b|
    decreases |b| - i
  {
    if i == |b| || b[i] == 0 then i else NulFrom(b, i + 1)
  }

  /** It is the first one. */
  lemma {:induction false} NulFromIs(b: seq<Byte>, i: nat, k: nat)
    requires i <= k < |b| && b[k] == 0 && forall j {:trigger b[j]} :: i <= j < k ==> b[j] != 0
    ensures NulFrom(b, i) == k
    decreases k - i
  {
    if i < k {
      NulFromIs(b, i + 1, k);
    }
  }

  lemma {:induction false} NoNulBefore(b: seq<Byte>, i: nat, j: nat)
    requires i <= |b| && i <= j < NulFrom(b, i)
    ensures b[j] != 0
    decreases j - i
  {
    if i < j {
      NoNulBefore(b, i + 1, j);
    }
  }

  /** Where the name of record `i` begins; beyond the end if a terminator is missing. */
  function NamePos(b: seq<Byte>, count: nat, i: nat): nat {
    if i == 0 then RecordPos(count)
    else var p := NamePos(b, count, i - 1); if p <= |b| then NulFrom(b, p) + 1 else p
  }

  /** Record `i` of a stash, without its name. */
  function FieldsAt(b: seq<Byte>, i: nat): Record
    requires RecordPos(i + 1) <= |b|
  {
    var o := RecordPos(i);
    Record(WordAt(b, o), WordAt(b, o + 4), None, WordAt(b, o + 12), WordAt(b, o + 16))
  }

  /** Record `i` of a stash of `count` records. */
  function Restored(b: seq<Byte>, count: nat, i: nat): Record
    requires i < count && NamePos(b, count, i + 1) <= |b| && RecordPos(count) <= |b|
  {
    var p := NamePos(b, count, i);
    FieldsAt(b, i).(name := Some(b[p..NulFrom(b, p)]))
  }

  // ----- what was written is what is read -----

  ghost predicate NoNul(b: seq<Byte>) { forall i :: 0 <= i < |b| ==> b[i] != 0 }

  ghost predicate CStrings(rs: seq<Record>) {
    forall i {:trigger rs[i]} :: 0 <= i < |rs| && rs[i].name.Some? ==> NoNul(rs[i].name.value)
  }

  lemma {:induction false} DigitsNoNul(n: nat)
    ensures NoNul(Digits(n))
  {
    if n >= 10 {
      DigitsNoNul(n / 10);
    }
  }

  lemma IntNoNul(w: Word)
    ensures NoNul(IntText(w))
  {
    DigitsNoNul(w);
    if w >= 0x8000_0000 {
      DigitsNoNul(0x1_0000_0000 - w);
    }
  }

  // ----- printable names -----

  /** The number that decimal digits stand for. */
  function Number(b: seq<Byte>): int { if b == [] then 0 else 10 * Number(b[..|b| - 1]) + b[|b| - 1] - 48 }

  /** Decimal digits without leading zeros that stand for `n`. */
  ghost predicate Decimal(b: seq<Byte>, n: int) {
    b != [] && (forall i :: 0 <= i < |b| ==> 48 <= b[i] <= 57) && (b[0] == 48 ==> |b| == 1) && Number(b) == n
  }

  /** The same with a sign. */
  ghost predicate SignedDecimal(b: seq<Byte>, n: int) {
    if n >= 0 then Decimal(b, n) else b != [] && b[0] == 45 && Decimal(b[1..], -n)
  }

  /** A word as an int. */
  function Signed(w: Word): int { if w < 0x8000_0000 then w else w - 0x1_0000_0000 }

  lemma {:induction false} DigitsDecimal(n: nat)
    ensures Decimal(Digits(n), n) && (Digits(n)[0] == 48 ==> n == 0)
  {
    if n >= 10 {
      var d := Digits(n / 10);
      DigitsDecimal(n / 10);
      assert Digits(n)[..|d|] == d && Digits(n)[0] == d[0];
    } else {
      assert Number([48 + n][..0]) == 0;
    }
  }

  lemma {:induction false} NumberPositive(b: seq<Byte>)
    requires b != [] && (forall i :: 0 <= i < |b| ==> 48 <= b[i] <= 57) && b[0] != 48
    ensures Number(b) >= 1
  {
    if |b| == 1 {
      assert Number(b[..0]) == 0;
    } else {
      NumberPositive(b[..|b| - 1]);
    }
  }

  lemma LastDigit(x: int, d: int, n: int)
    requires n == 10 * x + d && 0 <= d < 10
    ensures n / 10 == x && n % 10 == d
  {}

  lemma {:induction false} DecimalOnly(b: seq<Byte>, n: nat)
    requires Decimal(b, n)
    ensures b == Digits(n)
    decreases |b|
  {
    var init, d := b[..|b| - 1], b[|b| - 1];
    assert b == init + [d];
    LastDigit(Number(init), d - 48, n);
    if init != [] {
      NumberPositive(init);
      DecimalOnly(init, n / 10);
    }
  }

  /** There is one way to write a number. */
  lemma DecimalIs(b: seq<Byte>, n: nat)
    ensures Decimal(b, n) <==> b == Digits(n)
  {
    DigitsDecimal(n);
    if Decimal(b, n) {
      DecimalOnly(b, n);
    }
  }

  lemma {:induction false} DigitsLength(n: nat, k: nat)
    requires n < Power10(k) && k > 0
    ensures |Digits(n)| <= k
  {
    if n >= 10 { DigitsLength(n / 10, k - 1); }
  }

  function Power10(k: nat): nat { if k == 0 then 1 else 10 * Power10(k - 1) }

  lemma IntDecimal(w: Word)
    ensures SignedDecimal(IntText(w), Signed(w)) && 1 <= |IntText(w)| <= 11
  {
    assert Power10(10) == 10_000_000_000 by {
      assert Power10(5) == 100_000;
      assert Power10(8) == 100_000_000;
    }
    if w < 0x8000_0000 {
      DigitsDecimal(w);
      DigitsLength(w, 10);
    } else {
      var n := 0x1_0000_0000 - w;
      DigitsDecimal(n);
      DigitsLength(n, 10);
      assert IntText(w)[1..] == Digits(n);
    }
  }

  const userPrefix: seq<Byte> := [117, 115, 101, 114, 95]  // user_
  const idPrefix: seq<Byte> := [105, 100, 61]              // id=

  /** A record keeps the name it has; one without is named by its number, counted from the first for users. */
  ghost predicate NameMeans(r: Record, user: Word, name: seq<Byte>) {
    match r.name
    case Some(n) => name == n
    case None =>
      && (userPrefix <= name <==> r.id >= user) && (idPrefix <= name <==> r.id < user)
      && (r.id >= user ==> SignedDecimal(name[5..], Signed(r.id - user)))
      && (r.id < user ==> SignedDecimal(name[3..], Signed(r.id)))
  }

  /** get_record_name; a name that is made up fits the 20 bytes it is printed to. */
  lemma NameIs(r: Record, user: Word)
    ensures NameMeans(r, user, NameOf(r, user))
    ensures r.name.None? ==> |NameOf(r, user)| < 20
  {
    if r.name.None? {
      var w := if r.id >= user then r.id - user else r.id;
      var p := if r.id >= user then userPrefix else idPrefix;
      var name := NameOf(r, user);
      IntDecimal(w);
      assert name == p + IntText(w) && name[|p|..] == IntText(w) && name[0] == p[0];
    }
  }

  /** get_record_name, as a function of the record */
  function Namer(user: Word): Record -> seq<Byte> { r => NameOf(r, user) }

  ghost predicate Clean(rs: seq<Record>, nm: Record -> seq<Byte>) {
    forall i {:trigger rs[i]} :: 0 <= i < |rs| ==> NoNul(nm(rs[i]))
  }

  /** Printable names are C strings if the names given are. */
  lemma CleanNames(rs: seq<Record>, user: Word)
    requires CStrings(rs)
    ensures Clean(rs, Namer(user))
  {
    forall i | 0 <= i < |rs|
      ensures NoNul(Namer(user)(rs[i]))
    {
      NameNoNul(rs[i], user);
    }
  }

  lemma NameNoNul(r: Record, user: Word)
    requires r.name.Some? ==> NoNul(r.name.value)
    ensures NoNul(NameOf(r, user))
  {
    IntNoNul(r.id);
    if r.id >= user {
      IntNoNul(r.id - user);
    }
  }

  /** The bytes `b` hold `x` at offset `o`. */
  ghost predicate Holds(b: seq<Byte>, o: nat, x: seq<Byte>) {
    o + |x| <= |b| && forall k {:trigger x[k]} :: 0 <= k < |x| ==> b[o + k] == x[k]
  }

  lemma HoldsSplit(b: seq<Byte>, o: nat, x: seq<Byte>, y: seq<Byte>)
    ensures Holds(b, o, x + y) <==> Holds(b, o, x) && Holds(b, o + |x|, y)
  {
    var z := x + y;
    if Holds(b, o, z) {
      assert forall k :: 0 <= k < |x| ==> x[k] == z[k];
      assert forall k :: 0 <= k < |y| ==> y[k] == z[|x| + k];
    }
  }

  lemma HeldWord(b: seq<Byte>, o: nat, v: Word, rest: seq<Byte>)
    requires Holds(b, o, WordBytes(v) + rest)
    ensures o + 4 <= |b| && WordAt(b, o) == v && Holds(b, o + 4, rest)
  {
    HoldsSplit(b, o, WordBytes(v), rest);
    WordReadBack(b, o, v);
  }

  lemma {:induction false} ImageAt(b: seq<Byte>, o: nat, rs: seq<Record>, addr: Word, i: nat)
    requires Holds(b, o, Images(rs, addr)) && i < |rs|
    ensures Holds(b, o + 20 * i, Image(rs[i], addr))
    decreases |rs|
  {
    var init := rs[..|rs| - 1];
    HoldsSplit(b, o, Images(init, addr), Image(rs[|rs| - 1], addr));
    if i < |rs| - 1 {
      ImageAt(b, o, init, addr, i);
    }
  }

  lemma ImageFields(b: seq<Byte>, o: nat, r: Record, addr: Word)
    requires Holds(b, o, Image(r, addr))
    ensures o + 20 <= |b|
    ensures WordAt(b, o) == r.time && WordAt(b, o + 4) == r.start && WordAt(b, o + 12) == r.flags &&
            WordAt(b, o + 16) == r.id
  {
    var w4 := WordBytes(r.id) + [];
    var w3 := WordBytes(r.flags) + w4;
    var w2 := WordBytes(addr) + w3;
    var w1 := WordBytes(r.start) + w2;
    assert Image(r, addr) == WordBytes(r.time) + w1;
    HeldWord(b, o, r.time, w1);
    HeldWord(b, o + 4, r.start, w2);
    HeldWord(b, o + 8, addr, w3);
    HeldWord(b, o + 12, r.flags, w4);
    HeldWord(b, o + 16, r.id, []);
  }

  lemma {:induction false} NameHeld(b: seq<Byte>, o: nat, rs: seq<Record>, nm: Record -> seq<Byte>, i: nat)
    requires Holds(b, o, Names(rs, nm)) && i < |rs|
    ensures Holds(b, o + |Names(rs[..i], nm)|, nm(rs[i]) + [0])
    decreases |rs|
  {
    var init := rs[..|rs| - 1];
    HoldsSplit(b, o, Names(init, nm), nm(rs[|rs| - 1]) + [0]);
    if i < |rs| - 1 {
      NameHeld(b, o, init, nm, i);
      assert init[..i] == rs[..i];
    }
  }

  /** A terminated string ends where it should. */
  lemma StringEnds(b: seq<Byte>, p: nat, name: seq<Byte>)
    requires Holds(b, p, name + [0]) && NoNul(name)
    ensures p + |name| < |b| && b[p..p + |name|] == name && NulFrom(b, p) == p + |name|
  {
    var w := name + [0];
    assert b[p + |name|] == w[|name|];
    forall j | p <= j < p + |name|
      ensures b[j] == name[j - p]
    {
      assert b[p + (j - p)] == w[j - p];
    }
    assert b[p..p + |name|] == name;
    NulFromIs(b, p, p + |name|);
  }

  lemma NamesStep(rs: seq<Record>, nm: Record -> seq<Byte>, i: nat)
    requires i < |rs|
    ensures |Names(rs[..i + 1], nm)| == |Names(rs[..i], nm)| + |nm(rs[i])| + 1
  {
    assert rs[..i + 1][..i] == rs[..i];
  }

  /** Where the name of record `i` begins and ends. */
  lemma NameEnds(b: seq<Byte>, o: nat, rs: seq<Record>, nm: Record -> seq<Byte>, i: nat, p: nat)
    requires Holds(b, o, Names(rs, nm)) && Clean(rs, nm) && i < |rs| && p == o + |Names(rs[..i], nm)|
    ensures p + |nm(rs[i])| < |b| && NulFrom(b, p) == p + |nm(rs[i])|
    ensures b[p..NulFrom(b, p)] == nm(rs[i])
    ensures NulFrom(b, p) + 1 == o + |Names(rs[..i + 1], nm)|
  {
    NameHeld(b, o, rs, nm, i);
    StringEnds(b, p, nm(rs[i]));
    NamesStep(rs, nm, i);
  }

  lemma {:induction false} NamePosAt(b: seq<Byte>, o: nat, rs: seq<Record>, nm: Record -> seq<Byte>, i: nat)
    requires o == RecordPos(|rs|) && Holds(b, o, Names(rs, nm)) && Clean(rs, nm) && i <= |rs|
    ensures NamePos(b, |rs|, i) == o + |Names(rs[..i], nm)| <= |b|
    decreases i
  {
    if i > 0 {
      NamePosAt(b, o, rs, nm, i - 1);
      NameEnds(b, o, rs, nm, i - 1, NamePos(b, |rs|, i - 1));
    }
  }

  /** A stash of the records `live`, with anything behind it. */
  ghost predicate IsStash(b: seq<Byte>, live: seq<Record>, addr: Word, nm: Record -> seq<Byte>) {
    var n := HEADER + |Payload(live, addr, nm)|;
    |live| < 0x1_0000_0000 && n < 0x1_0000_0000 && Holds(b, 0, HeaderBytes(|live|, n)) &&
      Holds(b, HEADER, Payload(live, addr, nm))
  }

  lemma StashParts(b: seq<Byte>, live: seq<Record>, addr: Word, nm: Record -> seq<Byte>)
    requires Holds(b, HEADER, Payload(live, addr, nm))
    ensures RecordPos(|live|) <= |b| && Holds(b, HEADER, Images(live, addr)) &&
            Holds(b, RecordPos(|live|), Names(live, nm))
  {
    ImagesEnd(live, addr);
    HoldsSplit(b, HEADER, Images(live, addr), Names(live, nm));
  }

  lemma ImagesEnd(live: seq<Record>, addr: Word)
    ensures HEADER + |Images(live, addr)| == RecordPos(|live|)
  {}

  lemma NameRestored(b: seq<Byte>, rs: seq<Record>, nm: Record -> seq<Byte>, i: nat)
    requires Holds(b, RecordPos(|rs|), Names(rs, nm)) && Clean(rs, nm) && i < |rs|
    ensures NamePos(b, |rs|, i + 1) <= |b| && NamePos(b, |rs|, i) <= |b|
    ensures b[NamePos(b, |rs|, i)..NulFrom(b, NamePos(b, |rs|, i))] == nm(rs[i])
  {
    NamePosAt(b, RecordPos(|rs|), rs, nm, i);
    NamePosAt(b, RecordPos(|rs|), rs, nm, i + 1);
    NameEnds(b, RecordPos(|rs|), rs, nm, i, NamePos(b, |rs|, i));
  }

  lemma FieldsRestored(b: seq<Byte>, i: nat, r: Record, addr: Word)
    requires Holds(b, RecordPos(i), Image(r, addr))
    ensures RecordPos(i + 1) <= |b| && FieldsAt(b, i) == r.(name := None)
  {
    ImageFields(b, RecordPos(i), r, addr);
  }

  /** Each record of a stash comes back as it was, with its printable name. */
  lemma StashRestores(b: seq<Byte>, live: seq<Record>, addr: Word, nm: Record -> seq<Byte>, i: nat)
    requires IsStash(b, live, addr, nm) && Clean(live, nm) && i < |live|
    ensures NamePos(b, |live|, i + 1) <= |b| && RecordPos(|live|) <= |b|
    ensures Restored(b, |live|, i) == live[i].(name := Some(nm(live[i])))
  {
    StashParts(b, live, addr, nm);
    NameRestored(b, live, nm, i);
    ImageAt(b, HEADER, live, addr, i);
    FieldsRestored(b, i, live[i], addr);
  }

  // ----- the header -----

  /** The checks of bootstage_unstash, with room for `room` more records. */
  predicate Accepted(b: seq<Byte>, room: int) {
    HEADER <= |b| &&
    WordAt(b, 12) == MAGIC && WordAt(b, 8) <= |b| && WordAt(b, 4) * 20 <= WordAt(b, 8) && WordAt(b, 0) == VERSION &&
      WordAt(b, 4) <= room
  }

  lemma HeaderFields(b: seq<Byte>, count: Word, size: Word)
    requires Holds(b, 0, HeaderBytes(count, size))
    ensures HEADER <= |b| && WordAt(b, 0) == VERSION && WordAt(b, 4) == count && WordAt(b, 8) == size &&
            WordAt(b, 12) == MAGIC
  {
    var w3 := WordBytes(MAGIC) + [];
    var w2 := WordBytes(size) + w3;
    var w1 := WordBytes(count) + w2;
    assert HeaderBytes(count, size) == WordBytes(VERSION) + w1;
    HeldWord(b, 0, VERSION, w1);
    HeldWord(b, 4, count, w2);
    HeldWord(b, 8, size, w3);
    HeldWord(b, 12, MAGIC, []);
  }

  /** What any other reader has to look for: magic number and version as such, and counts that fit. */
  lemma AcceptedHeader(b: seq<Byte>, room: int)
    ensures Accepted(b, room) <==>
            && |b| >= 16
            && b[12..16] == [0xa3, 0x57, 0x07, 0xb0] && b[0..4] == [0, 0, 0, 0]
            && 20 * WordAt(b, 4) <= WordAt(b, 8) <= |b| && WordAt(b, 4) <= room
  {
    if |b| >= 16 {
      WordIs(b, 0);
      WordIs(b, 12);
    }
  }

  /** The low byte comes first. */
  lemma WordIs(b: seq<Byte>, i: nat)
    requires i + 4 <= |b|
    ensures var b0: int, b1: int, b2: int, b3: int := b[i], b[i + 1], b[i + 2], b[i + 3];
            WordAt(b, i) == b0 + 0x100 * b1 + 0x1_0000 * b2 + 0x100_0000 * b3
  {
    assert ValueAt(b, i + 4, 0) == 0;
    assert ValueAt(b, i + 3, 1) == b[i + 3] + 256 * ValueAt(b, i + 4, 0);
    assert ValueAt(b, i + 2, 2) == b[i + 2] + 256 * ValueAt(b, i + 3, 1);
    assert ValueAt(b, i + 1, 3) == b[i + 1] + 256 * ValueAt(b, i + 2, 2);
  }

  /** A stash is accepted exactly when its records fit. */
  lemma StashAccepted(b: seq<Byte>, live: seq<Record>, addr: Word, nm: Record -> seq<Byte>, room: int)
    requires IsStash(b, live, addr, nm)
    ensures Accepted(b, room) <==> |live| <= room
  {
    HeaderFields(b, |live|, HEADER + |Payload(live, addr, nm)|);
  }

  /** What a stash that ran out of space leaves behind is never accepted. */
  lemma FailedStashRejected(b: seq<Byte>, count: Word, room: int)
    requires Holds(b, 0, HeaderBytes(count, 0)) && count > 0
    ensures !Accepted(b, room)
  {
    HeaderFields(b, count, 0);
  }

  // ----- the code -----

  /** `b'` is `b` with `data` written at `ptr`, or `b` itself where that does not fit. */
  ghost predicate Overlaid(b: seq<Byte>, ptr: nat, data: seq<Byte>, b': seq<Byte>) {
    |b'| == |b| && forall i {:trigger b'[i]} :: 0 <= i < |b| ==>
      b'[i] == if ptr + |data| <= |b| && ptr <= i < ptr + |data| then data[i - ptr] else b[i]
  }

  lemma OverlaidNext(b: seq<Byte>, before: seq<Byte>, data: seq<Byte>, b': seq<Byte>)
    requires Holds(b, 0, before) && |before| + |data| <= |b| && Overlaid(b, |before|, data, b')
    ensures Holds(b', 0, before + data)
  {
    var z := before + data;
    forall k {:trigger z[k]} | 0 <= k < |z|
      ensures b'[k] == z[k]
    {
      assert k < |before| ==> z[k] == before[k];
    }
  }

  /** The cursor stands behind the header and `data`; as long as that fits, it has been written. */
  ghost predicate Written(b: seq<Byte>, ptr: nat, header: seq<Byte>, data: seq<Byte>) {
    |header| == HEADER && ptr == HEADER + |data| && Holds(b, 0, header) && (ptr <= |b| ==> Holds(b, HEADER, data))
  }

  lemma Appended(b: seq<Byte>, ptr: nat, header: seq<Byte>, data: seq<Byte>, more: seq<Byte>, b': seq<Byte>)
    requires Written(b, ptr, header, data) && Overlaid(b, ptr, more, b')
    ensures Written(b', ptr + |more|, header, data + more)
  {
    if ptr + |more| <= |b| {
      assert Holds(b', ptr, more);
      HoldsSplit(b', HEADER, data, more);
    }
  }

  lemma Joined3(x: seq<Byte>, y: seq<Byte>, z: seq<Byte>)
    ensures x + y + z == x + (y + z)
  {}

  lemma SizeSet(b: seq<Byte>, count: Word, size: Word, data: seq<Byte>, b': seq<Byte>)
    requires Holds(b, 0, HeaderBytes(count, 0)) && Holds(b, HEADER, data) && Overlaid(b, 8, WordBytes(size), b')
    ensures Holds(b', 0, HeaderBytes(count, size)) && Holds(b', HEADER, data)
  {
    var w0, w1, w3 := WordBytes(VERSION), WordBytes(count), WordBytes(MAGIC);
    HoldsSplit(b, 0, w0 + w1 + WordBytes(0), w3);
    HoldsSplit(b, 0, w0 + w1, WordBytes(0));
    HoldsSplit(b', 0, w0 + w1, WordBytes(size));
    HoldsSplit(b', 0, w0 + w1 + WordBytes(size), w3);
  }

  /** All `count` records and their terminated names lie within `b`. */
  ghost predicate NamesPresent(b: seq<Byte>, count: nat) {
    RecordPos(count) <= |b| && forall i :: 0 <= i <= count ==> NameFits(b, count, i)
  }

  predicate NameFits(b: seq<Byte>, count: nat, i: nat) { NamePos(b, count, i) <= |b| }

  // ----- when the reader stays inside the buffer -----

  /** The zero bytes from index `i` on. */
  function Zeros(b: seq<Byte>, i: nat): nat
    decreases |b| - i
  {
    if i >= |b| then 0 else (if b[i] == 0 then 1 else 0) + Zeros(b, i + 1)
  }

  lemma {:induction false} ZerosToNul(b: seq<Byte>, i: nat)
    requires i <= |b|
    ensures var k := NulFrom(b, i); Zeros(b, i) == if k < |b| then 1 + Zeros(b, k + 1) else 0
    decreases |b| - i
  {
    if i < |b| && b[i] != 0 {
      ZerosToNul(b, i + 1);
    }
  }

  /** The name of record `i` begins inside the buffer exactly if there are zero bytes enough to end those before it. */
  lemma {:induction false} NameFitsIff(b: seq<Byte>, count: nat, i: nat)
    requires RecordPos(count) <= |b|
    ensures NameFits(b, count, i) <==> Zeros(b, RecordPos(count)) >= i
    ensures NameFits(b, count, i) ==> Zeros(b, NamePos(b, count, i)) == Zeros(b, RecordPos(count)) - i
  {
    if i > 0 {
      NameFitsIff(b, count, i - 1);
      if NameFits(b, count, i - 1) {
        ZerosToNul(b, NamePos(b, count, i - 1));
      }
    }
  }

  /** bootstage_unstash reads inside the buffer exactly if the records are, and as many zero bytes behind them. */
  lemma NamesPresentIff(b: seq<Byte>, count: nat)
    ensures NamesPresent(b, count) <==> RecordPos(count) <= |b| && Zeros(b, RecordPos(count)) >= count
  {
    if RecordPos(count) <= |b| {
      forall i | 0 <= i <= count
        ensures NameFits(b, count, i) <==> Zeros(b, RecordPos(count)) >= i
      {
        NameFitsIff(b, count, i);
      }
      assert NamesPresent(b, count) ==> NameFits(b, count, count);
    }
  }

  /** The check of the size forgets the header: a buffer of 20 bytes that announces one record is accepted. */
  lemma ShortStashAccepted(b: seq<Byte>, room: int)
    requires |b| == 20 && Holds(b, 0, HeaderBytes(1, 20)) && room >= 1
    ensures Accepted(b, room) && RecordPos(WordAt(b, 4)) == 36 && !NamesPresent(b, WordAt(b, 4))
  {
    HeaderFields(b, 1, 20);
  }

  lemma NamedStep(rs: seq<Record>, next: nat, b: seq<Byte>, count: nat, i: nat, rs': seq<Record>)
    returns (after: seq<Record>)
    requires NamesPresent(b, count) && i < count && next + count <= |rs| && Named(rs, next, b, count, i, rs')
    ensures NamePos(b, count, i) <= |b| && NulFrom(b, NamePos(b, count, i)) < |b|
    ensures NamePos(b, count, i + 1) == NulFrom(b, NamePos(b, count, i)) + 1
    ensures |rs'| == |rs|
    ensures var p := NamePos(b, count, i);
            after == rs'[next + i := rs'[next + i].(name := Some(b[p..NulFrom(b, p)]))]
    ensures Named(rs, next, b, count, i + 1, after)
  {
    assert NameFits(b, count, i) && NameFits(b, count, i + 1);
    assert rs'[next + i] == FieldsAt(b, i);
    after := rs'[next + i := rs'[next + i].(name := Some(b[NamePos(b, count, i)..NulFrom(b, NamePos(b, count, i))]))];
  }

  /** The record array once the first `done` of `count` new records at `next` have their names. */
  ghost predicate Named(rs: seq<Record>, next: nat, b: seq<Byte>, count: nat, done: nat, rs': seq<Record>)
    requires NamesPresent(b, count) && done <= count
  {
    |rs'| == |rs| && forall i {:trigger rs'[i]} :: 0 <= i < |rs| ==>
      rs'[i] == if next <= i < next + done then (assert NameFits(b, count, i - next + 1); Restored(b, count, i - next))
                else if next <= i < next + count then FieldsAt(b, i - next) else rs[i]
  }

  lemma NamedStrings(rs: seq<Record>, next: nat, b: seq<Byte>, count: nat, rs': seq<Record>)
    requires NamesPresent(b, count) && CStrings(rs) && next + count <= |rs| && Named(rs, next, b, count, count, rs')
    ensures CStrings(rs')
  {
    forall i | 0 <= i < |rs'| && rs'[i].name.Some?
      ensures NoNul(rs'[i].name.value)
    {
      if next <= i < next + count {
        assert NameFits(b, count, i - next);
        var p := NamePos(b, count, i - next);
        forall j | 0 <= j < NulFrom(b, p) - p
          ensures b[p..NulFrom(b, p)][j] != 0
        {
          NoNulBefore(b, p, p + j);
        }
      } else {
        assert rs'[i] == rs[i];
      }
    }
  }

  lemma LiveStep(rs: seq<Record>, i: nat)
    requires i < |rs|
    ensures Live(rs[..i + 1]) == if rs[i].time != 0 then Live(rs[..i]) + [rs[i]] else Live(rs[..i])
  {
    assert rs[..i + 1][..i] == rs[..i] && Live(rs[..i]) + [] == Live(rs[..i]);
  }

  /** Exactly the records with a time count, each as often as it occurs. */
  lemma {:induction false} LiveExactly(rs: seq<Record>, r: Record)
    ensures multiset(Live(rs))[r] == if r.time != 0 then multiset(rs)[r] else 0
    decreases |rs|
  {
    if rs != [] {
      var init, last := rs[..|rs| - 1], rs[|rs| - 1];
      assert rs == init + [last];
      LiveExactly(init, r);
      assert multiset(rs) == multiset(init) + multiset{last};
      assert multiset(Live(init) + [last]) == multiset(Live(init)) + multiset{last};
      assert Live(init) + [] == Live(init);
    }
  }

  /** They come in the order of the table. */
  lemma LiveInOrder(a: seq<Record>, b: seq<Record>)
    ensures Live(a + b) == Live(a) + Live(b)
    decreases |b|
  {
    if b == [] {
      assert a + b == a;
    } else {
      assert (a + b)[..|a + b| - 1] == a + b[..|b| - 1];
      LiveInOrder(a, b[..|b| - 1]);
    }
  }

  lemma OneMore(rs: seq<Record>, r: Record, addr: Word, nm: Record -> seq<Byte>)
    ensures Images(rs + [r], addr) == Images(rs, addr) + Image(r, addr)
    ensures Names(rs + [r], nm) == Names(rs, nm) + (nm(r) + [0])
  {
    assert (rs + [r])[..|rs|] == rs;
  }

  lemma {:induction false} LiveStrings(rs: seq<Record>)
    requires CStrings(rs)
    ensures CStrings(Live(rs))
  {
    if rs != [] {
      LiveStrings(rs[..|rs| - 1]);
    }
  }

  class Stage {
    const user: Word
    const addr: Word
    const record: array<Record>
    var nextId: nat

    ghost predicate Valid()
      reads this, record
    {
      nextId <= record.Length < 0x1_0000_0000 && CStrings(record[..])
    }

    ghost function Stashed(): seq<Byte>
      reads record
    {
      Payload(Live(record[..]), addr, Namer(user))
    }

    /** append_data: the cursor advances even when there is no room */
    method AppendData(a: array<Byte>, ptr: nat, data: seq<Byte>) returns (next: nat)
      modifies a
      ensures next == ptr + |data| && Overlaid(old(a[..]), ptr, data, a[..])
    {
      next := ptr + |data|;
      if next > a.Length {
        return;
      }
      forall i | 0 <= i < |data| {
        a[ptr + i] := data[i];
      }
    }

    /** Appending to a stash under way. */
    method Append(a: array<Byte>, ptr: nat, data: seq<Byte>, ghost header: seq<Byte>, ghost before: seq<Byte>)
      returns (next: nat)
      requires Written(a[..], ptr, header, before)
      modifies a
      ensures Written(a[..], next, header, before + data)
    {
      ghost var b := a[..];
      next := AppendData(a, ptr, data);
      Appended(b, ptr, header, before, data, a[..]);
    }

    method CountLive() returns (count: nat)
      ensures count == |Live(record[..])|
    {
      count := 0;
      for i := 0 to record.Length
        invariant count == |Live(record[..i])|
      {
        LiveStep(record[..], i);
        assert record[..][..i] == record[..i] && record[..][..i + 1] == record[..i + 1];
        if record[i].time != 0 {
          count := count + 1;
        }
      }
      assert record[..record.Length] == record[..];
    }

    method AppendRecords(a: array<Byte>, start: nat, ghost header: seq<Byte>) returns (ptr: nat)
      requires Written(a[..], start, header, [])
      modifies a
      ensures Written(a[..], ptr, header, Images(Live(record[..]), addr))
    {
      ptr := start;
      ghost var rs := record[..];
      for i := 0 to record.Length
        invariant record[..] == rs && Written(a[..], ptr, header, Images(Live(rs[..i]), addr))
      {
        LiveStep(rs, i);
        OneMore(Live(rs[..i]), rs[i], addr, Namer(user));
        if record[i].time != 0 {
          ptr := Append(a, ptr, Image(record[i], addr), header, Images(Live(rs[..i]), addr));
        }
      }
      assert rs[..|rs|] == rs;
    }

    method AppendNames(a: array<Byte>, start: nat, ghost header: seq<Byte>, ghost images: seq<Byte>) returns (ptr: nat)
      requires Written(a[..], start, header, images)
      modifies a
      ensures Written(a[..], ptr, header, images + Names(Live(record[..]), Namer(user)))
    {
      ptr := start;
      ghost var rs := record[..];
      assert images + [] == images;
      for i := 0 to record.Length
        invariant record[..] == rs && Written(a[..], ptr, header, images + Names(Live(rs[..i]), Namer(user)))
      {
        LiveStep(rs, i);
        OneMore(Live(rs[..i]), rs[i], addr, Namer(user));
        if record[i].time != 0 {
          Joined3(images, Names(Live(rs[..i]), Namer(user)), Namer(user)(rs[i]) + [0]);
          ptr := Append(a, ptr, NameOf(record[i], user) + [0], header, images + Names(Live(rs[..i]), Namer(user)));
        }
      }
      assert rs[..|rs|] == rs;
    }

    /** A word of the header. */
    method PutWord(a: array<Byte>, o: nat, v: Word)
      requires o + 4 <= a.Length
      modifies a
      ensures Overlaid(old(a[..]), o, WordBytes(v), a[..])
    {
      var w := WordBytes(v);
      a[o], a[o + 1], a[o + 2], a[o + 3] := w[0], w[1], w[2], w[3];
    }

    /** The next word of the header. */
    method PutNext(a: array<Byte>, o: nat, v: Word, ghost before: seq<Byte>)
      requires o + 4 <= a.Length && |before| == o && Holds(a[..], 0, before)
      modifies a
      ensures Holds(a[..], 0, before + WordBytes(v))
    {
      ghost var b := a[..];
      PutWord(a, o, v);
      OverlaidNext(b, before, WordBytes(v), a[..]);
    }

    method PutHeader(a: array<Byte>, count: Word)
      requires HEADER <= a.Length
      modifies a
      ensures Holds(a[..], 0, HeaderBytes(count, 0))
    {
      ghost var w0, w1, w2 := WordBytes(VERSION), WordBytes(count), WordBytes(0);
      PutNext(a, 0, VERSION, []);
      assert [] + w0 == w0;
      PutNext(a, 4, count, w0);
      PutNext(a, 8, 0, w0 + w1);
      PutNext(a, 12, MAGIC, w0 + w1 + w2);
      assert w0 + w1 + w2 + WordBytes(MAGIC) == HeaderBytes(count, 0);
    }

    /** The header, with no size yet, the records and the names. */
    method WriteAll(a: array<Byte>, count: nat) returns (ptr: nat)
      requires HEADER <= a.Length && count < 0x1_0000_0000
      modifies a
      ensures Written(a[..], ptr, HeaderBytes(count, 0), Stashed())
    {
      PutHeader(a, count);
      ghost var header := HeaderBytes(count, 0);
      ptr := AppendRecords(a, HEADER, header);
      ptr := AppendNames(a, ptr, header, Images(Live(record[..]), addr));
    }

    /**
     bootstage_stash: once the header fits, it fails exactly when the whole does not fit. A failure leaves a
     header that says so.
     */
    method Stash(a: array<Byte>) returns (r: int)
      requires Valid() && a.Length < 0x8000_0000
      modifies a
      ensures a.Length < HEADER ==> r == -1 && a[..] == old(a[..])
      ensures a.Length >= HEADER ==> (r == 0 <==> HEADER + |Stashed()| <= a.Length)
      ensures r == 0 ==> a.Length >= HEADER && IsStash(a[..], Live(record[..]), addr, Namer(user))
      ensures r != 0 && a.Length >= HEADER ==>
              |Live(record[..])| > 0 && Holds(a[..], 0, HeaderBytes(|Live(record[..])|, 0))
    {
      if HEADER > a.Length {
        return -1;
      }
      var count := CountLive();
      var ptr := WriteAll(a, count);
      if ptr > a.Length {
        return -1;
      }
      ghost var b := a[..];
      PutWord(a, 8, ptr);
      SizeSet(b, count, ptr, Stashed(), a[..]);
      return 0;
    }

    /** What bootstage_unstash relies on: the records and the terminated names of an accepted stash are there. */
    ghost predicate Intact(b: seq<Byte>)
      reads this
    {
      Accepted(b, record.Length - nextId) ==> NamesPresent(b, WordAt(b, 4))
    }

    /** The copy of the records; their names are still to be set. */
    method CopyRecords(b: seq<Byte>, count: nat)
      requires nextId + count <= record.Length && NamesPresent(b, count)
      modifies record
      ensures Named(old(record[..]), nextId, b, count, 0, record[..])
    {
      forall i | nextId <= i < nextId + count {
        record[i] := FieldsAt(b, i - nextId);
      }
    }

    /** strlen, as the index of the terminator */
    method FindNul(b: seq<Byte>, p: nat) returns (q: nat)
      requires p <= |b| && NulFrom(b, p) < |b|
      ensures q == NulFrom(b, p)
    {
      q := p;
      while b[q] != 0
        invariant p <= q < |b| && NulFrom(b, p) == NulFrom(b, q)
        decreases |b| - q
      {
        q := q + 1;
      }
    }

    method SetName(b: seq<Byte>, ghost count: nat, i: nat, ptr: nat, ghost rs: seq<Record>) returns (next: nat)
      requires nextId + count <= record.Length && NamesPresent(b, count) && i < count
      requires ptr == NamePos(b, count, i) && Named(rs, nextId, b, count, i, record[..])
      modifies record
      ensures next == NamePos(b, count, i + 1) && Named(rs, nextId, b, count, i + 1, record[..])
    {
      ghost var before := record[..];
      ghost var after := NamedStep(rs, nextId, b, count, i, before);
      var q := FindNul(b, ptr);
      Rename(nextId + i, b[ptr..q], before);
      assert record[..] == after;
      next := q + 1;
    }

    method Rename(k: nat, name: seq<Byte>, ghost before: seq<Record>)
      requires k < record.Length && record[..] == before
      modifies record
      ensures record[..] == before[k := before[k].(name := Some(name))]
    {
      record[k] := record[k].(name := Some(name));
    }

    /** The loop that lets each record's name be the next string. */
    method SetNames(b: seq<Byte>, count: nat, ghost rs: seq<Record>)
      requires nextId + count <= record.Length && NamesPresent(b, count)
      requires Named(rs, nextId, b, count, 0, record[..])
      modifies record
      ensures Named(rs, nextId, b, count, count, record[..])
    {
      var ptr := RecordPos(count);
      for i := 0 to count
        invariant ptr == NamePos(b, count, i) && Named(rs, nextId, b, count, i, record[..])
      {
        ptr := SetName(b, count, i, ptr, rs);
      }
    }

    /** bootstage_unstash: an accepted stash is appended to the records, any other changes nothing */
    method Unstash(b: seq<Byte>) returns (r: int)
      requires Valid() && Intact(b)
      modifies record, this`nextId
      ensures Valid() && (r == 0 <==> Accepted(b, old(record.Length - nextId)))
      ensures r != 0 ==> record[..] == old(record[..]) && nextId == old(nextId)
      ensures r == 0 ==> nextId == old(nextId) + WordAt(b, 4) <= record.Length
      ensures r == 0 ==>
              old(Intact(b)) && Named(old(record[..]), old(nextId), b, WordAt(b, 4), WordAt(b, 4), record[..])
    {
      if HEADER > |b| || WordAt(b, 12) != MAGIC {
        return -1;
      }
      var size, count := WordAt(b, 8), WordAt(b, 4);
      if size > |b| || count * 20 > size || WordAt(b, 0) != VERSION || nextId + count > record.Length {
        return -1;
      }
      ghost var rs := record[..];
      CopyRecords(b, count);
      SetNames(b, count, rs);
      NamedStrings(rs, nextId, b, count, record[..]);
      nextId := nextId + count;
      return 0;
    }
  }

  /** Unstashing what was stashed appends exactly the records with a time, in order, with their printable names. */
  lemma RoundTrip(b: seq<Byte>, live: seq<Record>, addr: Word, nm: Record -> seq<Byte>, rs: seq<Record>, next: nat,
                  rs': seq<Record>)
    requires IsStash(b, live, addr, nm) && Clean(live, nm) && next + |live| <= |rs|
    requires NamesPresent(b, |live|) && Named(rs, next, b, |live|, |live|, rs')
    ensures |rs'| == |rs| && rs'[..next] == rs[..next] && rs'[next + |live|..] == rs[next + |live|..]
    ensures forall i {:trigger live[i]} :: 0 <= i < |live| ==> rs'[next + i] == live[i].(name := Some(nm(live[i])))
  {
    forall i {:trigger live[i]} | 0 <= i < |live|
      ensures rs'[next + i] == live[i].(name := Some(nm(live[i])))
    {
      StashRestores(b, live, addr, nm, i);
    }
  }

  /** A stash is in the state that bootstage_unstash relies on. */
  lemma StashIntact(b: seq<Byte>, live: seq<Record>, addr: Word, nm: Record -> seq<Byte>)
    requires IsStash(b, live, addr, nm) && Clean(live, nm)
    ensures NamesPresent(b, |live|)
  {
    StashParts(b, live, addr, nm);
    forall i | 0 <= i <= |live|
      ensures NameFits(b, |live|, i)
    {
      NamePosAt(b, RecordPos(|live|), live, nm, i);
    }
  }

  /** `rs'` is `rs` with the records `live` from index `next` on, each with its printable name. */
  ghost predicate Extended(rs: seq<Record>, next: nat, live: seq<Record>, nm: Record -> seq<Byte>, rs': seq<Record>) {
    && next + |live| <= |rs| == |rs'| && rs'[..next] == rs[..next] && rs'[next + |live|..] == rs[next + |live|..]
    && forall i {:trigger live[i]} :: 0 <= i < |live| ==> rs'[next + i] == live[i].(name := Some(nm(live[i])))
  }

  /** The records from `next` on have the printable names of `live`. */
  ghost predicate NamesMean(live: seq<Record>, user: Word, next: nat, rs: seq<Record>) {
    next + |live| <= |rs| && forall i :: 0 <= i < |live| ==> HasName(rs[next + i], live[i], user)
  }

  ghost predicate HasName(r: Record, from: Record, user: Word) {
    r.name.Some? && NameMeans(from, user, r.name.value)
  }

  lemma ExtendedMeans(rs: seq<Record>, next: nat, live: seq<Record>, user: Word, rs': seq<Record>)
    requires Extended(rs, next, live, Namer(user), rs')
    ensures NamesMean(live, user, next, rs')
  {
    forall i | 0 <= i < |live|
      ensures HasName(rs'[next + i], live[i], user)
    {
      NameIs(live[i], user);
      assert rs'[next + i] == live[i].(name := Some(NameOf(live[i], user)));
    }
  }

  /** bootstage_unstash on a stash: it is accepted exactly if there is room, and appends the records in it */
  method UnstashStash(dst: Stage, b: seq<Byte>, ghost live: seq<Record>, ghost addr: Word,
                      ghost nm: Record -> seq<Byte>) returns (ok: bool)
    requires dst.Valid() && IsStash(b, live, addr, nm) && Clean(live, nm)
    modifies dst.record, dst`nextId
    ensures dst.Valid() && (ok <==> |live| <= old(dst.record.Length - dst.nextId))
    ensures !ok ==> dst.record[..] == old(dst.record[..]) && dst.nextId == old(dst.nextId)
    ensures ok ==>
            dst.nextId == old(dst.nextId) + |live| &&
            Extended(old(dst.record[..]), old(dst.nextId), live, nm, dst.record[..])
  {
    ghost var rs, next := dst.record[..], dst.nextId;
    StashAccepted(b, live, addr, nm, dst.record.Length - next);
    HeaderFields(b, |live|, HEADER + |Payload(live, addr, nm)|);
    StashIntact(b, live, addr, nm);
    var r := dst.Unstash(b);
    ok := r == 0;
    if ok {
      RoundTrip(b, live, addr, nm, rs, next, dst.record[..]);
    }
  }

  /**
   bootstage_stash and then bootstage_unstash: as long as there is room in the buffer and among the records, exactly the
   records with a time are appended, in order, with their printable names.
   */
  method StashAndUnstash(src: Stage, dst: Stage, a: array<Byte>) returns (ok: bool)
    requires src != dst && src.record != dst.record && src.Valid() && dst.Valid() && HEADER <= a.Length < 0x8000_0000
    modifies a, dst.record, dst`nextId
    ensures dst.Valid()
    ensures ok <==>
            HEADER + |old(src.Stashed())| <= a.Length &&
            |Live(old(src.record[..]))| <= old(dst.record.Length - dst.nextId)
    ensures !ok ==> dst.record[..] == old(dst.record[..]) && dst.nextId == old(dst.nextId)
    ensures ok ==> dst.nextId == old(dst.nextId) + |Live(old(src.record[..]))|
    ensures ok ==>
            Extended(old(dst.record[..]), old(dst.nextId), Live(old(src.record[..])), Namer(src.user), dst.record[..])
    ensures ok ==> NamesMean(Live(old(src.record[..])), src.user, old(dst.nextId), dst.record[..])
  {
    LiveStrings(src.record[..]);
    CleanNames(Live(src.record[..]), src.user);
    var r := src.Stash(a);
    if r != 0 {
      return false;
    }
    ok := UnstashStash(dst, a[..], Live(src.record[..]), src.addr, Namer(src.user));
    if ok {
      ExtendedMeans(old(dst.record[..]), old(dst.nextId), Live(old(src.record[..])), src.user, dst.record[..]);
    }
  }
}
