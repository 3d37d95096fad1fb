/**
 Which texts a user can give to a string, int or hex symbol, and when such a text becomes the value
 (support/kconfig/symbol.c: sym_string_valid, sym_string_within_range, sym_set_string_value).
 */
module Texts {
  import opened Tristates
  import opened Expressions
  import opened Config
  import opened Meaning

  predicate IsDigit(c: char) { '0' <= c <= '9' }
  predicate IsHexDigit(c: char) { IsDigit(c) || 'a' <= c <= 'f' || 'A' <= c <= 'F' }

  /** The text begins with 0x. */
  predicate Prefixed(t: string) { |t| >= 2 && t[0] == '0' && (t[1] == 'x' || t[1] == 'X') }

  predicate Decimal(t: string) { t != "" && forall i :: 0 <= i < |t| ==> IsDigit(t[i]) }
  predicate Hexadecimal(t: string) { t != "" && forall i :: 0 <= i < |t| ==> IsHexDigit(t[i]) }

  /** Decimal digits after an optional sign, without leading zeros. */
  predicate ValidInt(t: string) {
    if t != "" && t[0] == '-' then Decimal(t[1..]) && (t[1] == '0' ==> |t| == 2)
    else Decimal(t) && (t[0] == '0' ==> |t| == 1)
  }

  /** Hexadecimal digits after an optional 0x. */
  predicate ValidHex(t: string) { Hexadecimal(if Prefixed(t) then t[2..] else t) }

  predicate ValidText(typ: SymbolType, t: string) {
    match typ
    case Str => true
    case Int => ValidInt(t)
    case Hex => ValidHex(t)
    case _ => false
  }

  /** All characters from index `i` on are digits of the base. */
  method AllDigits(t: string, i: nat, hex: bool) returns (b: bool)
    requires i <= |t|
    ensures b <==> forall j :: i <= j < |t| ==> if hex then IsHexDigit(t[j]) else IsDigit(t[j])
  {
    for j := i to |t|
      invariant forall l :: i <= l < j ==> if hex then IsHexDigit(t[l]) else IsDigit(t[l])
    {
      if if hex then !IsHexDigit(t[j]) else !IsDigit(t[j]) {
        return false;
      }
    }
    return true;
  }

  /** sym_string_valid for symbols that are no booleans and tristates */
  method StringValid(typ: SymbolType, t: string) returns (b: bool)
    requires !IsTruthType(typ)
    ensures b == ValidText(typ, t)
  {
    if typ == Str {
      return true;
    } else if typ == Int {
      var i := if t != "" && t[0] == '-' then 1 else 0;
      assert t[0..] == t && (i < |t| ==> t[i..][0] == t[i]);
      if i == |t| || !IsDigit(t[i]) || (t[i] == '0' && i + 1 != |t|) {
        return false;
      }
      b := AllDigits(t, i, false);
    } else if typ == Hex {
      var i := if Prefixed(t) then 2 else 0;
      if i == |t| {
        return false;
      }
      b := AllDigits(t, i, true);
    } else {
      b := false;
    }
  }

  /** What is kept of the text: a hex number gets its prefix. */
  function Stored(typ: SymbolType, t: string): string { if typ == Hex && !Prefixed(t) then "0x" + t else t }

  /** The configuration after the user has given `s` a text. */
  function AssignedText(m: Model, s: Symbol, t: string): Model {
    WithUser(m, s, SymbolValue(Stored(s.typ, t), if s in m.user then m.user[s].tri else NO))
  }

  /** The text has the form the type asks for, and lies within the first active range. */
  ghost predicate AcceptsText(m: Model, a: Assignment, s: Symbol, t: string)
    requires s in m.cfg
  {
    && ValidText(s.typ, t)
    && (s.typ != Str ==> forall p :: IsFirst(m.cfg[s].props, Range, ValuationOf(m, a), p) && p.body.Bounds? ==>
          var base := BaseOf(s.typ, 0);
          BoundOf(m, a, p.body.low, base) <= m.strtoll(t, base) <= BoundOf(m, a, p.body.high, base))
  }

  /** In base 16 strtoll passes over a prefix. */
  ghost predicate PrefixIgnored(m: Model) {
    forall t {:trigger m.strtoll("0x" + t, 16)} :: !Prefixed(t) ==> m.strtoll("0x" + t, 16) == m.strtoll(t, 16)
  }

  lemma StoredReads(m: Model, s: Symbol, t: string)
    requires PrefixIgnored(m)
    ensures m.strtoll(Stored(s.typ, t), BaseOf(s.typ, 0)) == m.strtoll(t, BaseOf(s.typ, 0))
  {
    assert !Prefixed(t) ==> m.strtoll("0x" + t, 16) == m.strtoll(t, 16);
  }

  /** An accepted text is left alone by sym_validate_range. */
  lemma AcceptedInRange(m: Model, a: Assignment, s: Symbol, t: string)
    requires Closed(m.cfg) && s in m.cfg && IsTextType(s.typ) && PrefixIgnored(m) && AcceptsText(m, a, s, t)
    ensures InRange(m, a, s, Stored(s.typ, t)) == Stored(s.typ, t)
  {
    StoredReads(m, s, t);
    ActiveIs(m, ValuationOf(m, a), s, Range);
  }

  /** The assignment does not change what the symbol reads. */
  lemma AssignedReads(m: Model, rank: Symbol -> nat, a: Assignment, a': Assignment, s: Symbol, x: SymbolValue)
    requires Closed(m.cfg) && Ordered(m.cfg, rank) && s in m.cfg
    requires Solution(m, a) && Solution(WithUser(m, s, x), a')
    ensures AgreeOn(a, a', Reads(m.cfg[s]))
  {
    forall u | u in Reads(m.cfg[s])
      ensures u in a && u in a' && a[u] == a'[u]
    {
      AssignedFrame(m, rank, a, a', s, x, u);
    }
  }

  /** Hidden symbols do not notice what the user says. */
  lemma HiddenUser(m: Model, a: Assignment, s: Symbol, x: SymbolValue)
    requires s in m.cfg && IsTextType(s.typ) && VisibleOf(m, ValuationOf(m, a), s) == NO
    ensures ValueFor(WithUser(m, s, x), a, s) == ValueFor(m, a, s)
  {
    var m' := WithUser(m, s, x);
    assert ValuationOf(m', a) == ValuationOf(m, a);
    assert TextOf(m', a, s) == TextOf(m, a, s);
    assert InRange(m', a, s, TextOf(m, a, s)) == InRange(m, a, s, TextOf(m, a, s));
  }

  lemma ShownUser(m: Model, a: Assignment, s: Symbol, x: SymbolValue)
    requires s in m.cfg && IsTextType(s.typ) && VisibleOf(m, ValuationOf(m, a), s) != NO
    ensures ValueFor(WithUser(m, s, x), a, s).str == InRange(m, a, s, x.str)
  {
    var m' := WithUser(m, s, x);
    assert ValuationOf(m', a) == ValuationOf(m, a);
    assert TextOf(m', a, s) == x.str;
    assert InRange(m', a, s, x.str) == InRange(m, a, s, x.str);
  }

  /**
   Whether a symbol is shown plays no part in accepting a text. An accepted text is the value from then on exactly if
   a prompt of the symbol is shown or the symbol had that value before.
   */
  lemma AcceptedTextSticks(m: Model, rank: Symbol -> nat, a: Assignment, a': Assignment, s: Symbol, t: string)
    requires Closed(m.cfg) && Ordered(m.cfg, rank) && s in m.cfg && IsTextType(s.typ) && PrefixIgnored(m)
    requires Solution(m, a) && Solution(AssignedText(m, s, t), a') && AcceptsText(m, a, s, t)
    ensures a'[s].str == Stored(s.typ, t) <==>
            PromptAt(m.cfg[s].props, ValuationOf(m, a), MOD) || a[s].str == Stored(s.typ, t)
  {
    var m' := AssignedText(m, s, t);
    var x := m'.user[s];
    AssignedReads(m, rank, a, a', s, x);
    ValueLocal(m', a, a', s);
    assert a'[s] == ValueFor(m', a', s) && a[s] == ValueFor(m, a, s);
    VisibleIs(m, ValuationOf(m, a), s);
    if VisibleOf(m, ValuationOf(m, a), s) == NO {
      HiddenUser(m, a, s, x);
    } else {
      ShownUser(m, a, s, x);
      AcceptedInRange(m, a, s, t);
    }
  }
}
