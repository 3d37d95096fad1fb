/**
 String values in .config files: the C writer and its in-place reader (support/kconfig/symbol.c:
 sym_escape_string_value; support/kconfig/confdata.c: conf_set_sym_val) and the two-pass replacements of
 Kconfiglib (support/scripts/kconfiglib.py).
 */
module Escape {
  datatype Option<+T> = None | Some(value: T)

  predicate Special(c: char) { c == '"' || c == '\\' }

  /** Every quote and backslash gets a backslash in front. */
  function Escaped(s: string): string {
    if s == "" then "" else (if Special(s[0]) then ['\\', s[0]] else [s[0]]) + Escaped(s[1..])
  }

  /** The text up to the closing quote, with escapes undone; None without a closing quote. */
  function Unquoted(t: string): Option<string> {
    if t == "" then None
    else if t[0] == '"' then Some("")
    else if t[0] == '\\' then (if |t| == 1 then None else Prefixed([t[1]], Unquoted(t[2..])))
    else Prefixed([t[0]], Unquoted(t[1..]))
  }

  function Prefixed(p: string, r: Option<string>): Option<string> {
    if r.None? then None else Some(p + r.value)
  }

  lemma PrefixedEmpty(p: string, r: Option<string>)
    ensures Prefixed("", r) == r && Prefixed(p, Some("")) == Some(p)
  {
    assert p + "" == p;
    if r.Some? {
      assert "" + r.value == r.value;
    }
  }

  lemma PrefixedTwice(p: string, q: string, r: Option<string>)
    ensures Prefixed(p, Prefixed(q, r)) == Prefixed(p + q, r)
  {
    if r.Some? {
      assert p + (q + r.value) == p + q + r.value;
    }
  }

  /** Reading what was written gives the string back, whatever follows on the line. */
  lemma {:induction false} UnquotedEscaped(s: string, rest: string)
    ensures Unquoted(Escaped(s) + ['"'] + rest) == Some(s)
  {
    var t := Escaped(s) + ['"'] + rest;
    if s != "" {
      UnquotedEscaped(s[1..], rest);
      assert t[if Special(s[0]) then 2 else 1..] == Escaped(s[1..]) + ['"'] + rest;
      assert [s[0]] + s[1..] == s;
    }
  }

  function Specials(s: string): nat {
    if s == "" then 0 else (if Special(s[0]) then 1 else 0) + Specials(s[1..])
  }

  lemma {:induction false} EscapedLength(s: string)
    ensures |Escaped(s)| == |s| + Specials(s)
  {
    if s != "" {
      EscapedLength(s[1..]);
    }
  }

  lemma {:induction false} EscapedJoin(s: string, t: string)
    ensures Escaped(s + t) == Escaped(s) + Escaped(t) && Specials(s + t) == Specials(s) + Specials(t)
  {
    if s == "" {
      assert s + t == t;
    } else {
      assert (s + t)[1..] == s[1..] + t;
      EscapedJoin(s[1..], t);
    }
  }

  lemma {:induction false} PlainIsKept(s: string)
    requires forall i :: 0 <= i < |s| ==> !Special(s[i])
    ensures Escaped(s) == s && Specials(s) == 0
  {
    if s != "" {
      PlainIsKept(s[1..]);
      assert [s[0]] + s[1..] == s;
    }
  }

  /** strcspn(s + from, "\"\\") */
  method PlainSpan(s: string, from: nat) returns (l: nat)
    requires from <= |s|
    ensures from + l <= |s| && (from + l < |s| ==> Special(s[from + l]))
    ensures forall i :: from <= i < from + l ==> !Special(s[i])
  {
    l := 0;
    while from + l < |s| && !Special(s[from + l])
      invariant from + l <= |s| && forall i :: from <= i < from + l ==> !Special(s[i])
    {
      l := l + 1;
    }
  }

  /** Passing a plain span and one special character. */
  lemma SpanStep(s: string, p: nat, q: nat)
    requires p <= q <= |s| && forall i :: p <= i < q ==> !Special(s[i])
    ensures Escaped(s[..q]) == Escaped(s[..p]) + s[p..q] && Specials(s[..q]) == Specials(s[..p])
    ensures q < |s| && Special(s[q]) ==>
      Escaped(s[..q + 1]) == Escaped(s[..p]) + s[p..q] + ['\\', s[q]] && Specials(s[..q + 1]) == Specials(s[..p]) + 1
  {
    assert s[..q] == s[..p] + s[p..q];
    EscapedJoin(s[..p], s[p..q]);
    PlainIsKept(s[p..q]);
    if q < |s| && Special(s[q]) {
      assert s[..q + 1] == s[..q] + [s[q]];
      EscapedJoin(s[..q], [s[q]]);
      assert [s[q]][1..] == "";
    }
  }

  /** The first pass: the size of the buffer, with its terminator. */
  method CountEscaped(s: string) returns (reslen: nat)
    ensures reslen == |s| + 3 + Specials(s)
  {
    reslen := |s| + 2 + 1;
    var p := 0;
    while true
      invariant p <= |s| && reslen == |s| + 3 + Specials(s[..p])
      decreases |s| - p
    {
      var l := PlainSpan(s, p);
      SpanStep(s, p, p + l);
      p := p + l;
      if p == |s| {
        break;
      }
      reslen := reslen + 1;
      p := p + 1;
    }
    assert s[..p] == s;
  }

  lemma Appended(q: string, a: string, b: string, c: string)
    ensures q + a + b == q + (a + b) && q + a + b + c == q + (a + b + c)
  {}

  /** The second pass. */
  method WriteEscaped(s: string) returns (res: string)
    ensures res == ['"'] + Escaped(s) + ['"']
  {
    res := ['"'];
    var p := 0;
    while true
      invariant p <= |s| && res == ['"'] + Escaped(s[..p])
      decreases |s| - p
    {
      var l := PlainSpan(s, p);
      SpanStep(s, p, p + l);
      Appended(['"'], Escaped(s[..p]), s[p..p + l], if p + l < |s| then ['\\', s[p + l]] else []);
      res := res + s[p..p + l];
      p := p + l;
      if p == |s| {
        break;
      }
      res := res + ['\\', s[p]];
      p := p + 1;
    }
    assert s[..p] == s;
    res := res + ['"'];
  }

  /** sym_escape_string_value: the buffer counted first exactly holds what is written then */
  method EscapeString(s: string) returns (res: string, reslen: nat)
    ensures res == ['"'] + Escaped(s) + ['"'] && reslen == |res| + 1
  {
    reslen := CountEscaped(s);
    res := WriteEscaped(s);
    EscapedLength(s);
  }

  // ----- the in-place reader -----

  lemma {:induction false} UnquotedSpan(x: string, t: string)
    requires forall i :: 0 <= i < |x| ==> !Special(x[i])
    ensures Unquoted(x + t) == Prefixed(x, Unquoted(t))
  {
    if x == "" {
      assert x + t == t;
      PrefixedEmpty("", Unquoted(t));
    } else {
      assert (x + t)[1..] == x[1..] + t;
      UnquotedSpan(x[1..], t);
      PrefixedTwice([x[0]], x[1..], Unquoted(t));
      assert [x[0]] + x[1..] == x;
    }
  }

  /** The text in `a` from `p` to the terminator at `n`. */
  ghost predicate Terminated(a: seq<char>, p: nat, n: nat) {
    p <= n < |a| && a[n] == '\0' && forall i :: p <= i < n ==> a[i] != '\0'
  }

  /** In `b` the characters of `a` behind index `q`, up to the terminator at `m`, have moved one place down. */
  ghost predicate CharDropped(a: seq<char>, q: nat, m: nat, b: seq<char>) {
    q < m < |a| == |b| && forall i {:trigger b[i]} :: 0 <= i < |b| ==> b[i] == a[if q <= i < m then i + 1 else i]
  }

  /** The reader passes a plain span. */
  lemma ReadSpan(t: string, a: seq<char>, p: nat, p2: nat, q: nat, m: nat)
    requires p <= p2 <= q <= m <= |a| && Unquoted(t) == Prefixed(a[p..p2], Unquoted(a[p2..m]))
    requires forall i :: p2 <= i < q ==> !Special(a[i])
    ensures Unquoted(t) == Prefixed(a[p..q], Unquoted(a[q..m]))
    ensures q < m && a[q] == '"' ==> Unquoted(t) == Some(a[p..q])
  {
    PrefixedEmpty(a[p..q], None);
    assert a[p2..m] == a[p2..q] + a[q..m] && a[p..q] == a[p..p2] + a[p2..q];
    UnquotedSpan(a[p2..q], a[q..m]);
    PrefixedTwice(a[p..p2], a[p2..q], Unquoted(a[q..m]));
  }

  /** The reader passes a backslash and the character behind it, which has taken its place in `b`. */
  lemma ReadEscape(t: string, a: seq<char>, p: nat, q: nat, m: nat, b: seq<char>)
    requires p <= q < m && Terminated(a, q, m) && a[q] == '\\' && Unquoted(t) == Prefixed(a[p..q], Unquoted(a[q..m]))
    requires CharDropped(a, q, m, b)
    ensures Terminated(b, q + 1, if q + 1 == m then m else m - 1)
    ensures q + 1 == m ==> Unquoted(t) == None
    ensures q + 1 < m ==> Unquoted(t) == Prefixed(b[p..q + 1], Unquoted(b[q + 1..m - 1]))
  {
    if q + 1 < m {
      assert b[p..q + 1] == a[p..q] + [a[q + 1]];
      assert b[q + 1..m - 1] == a[q + 2..m];
      assert a[q..m][2..] == a[q + 2..m];
      PrefixedTwice(a[p..q], [a[q + 1]], Unquoted(a[q + 2..m]));
    }
  }

  /** strpbrk(a + from, "\"\\"), as an index; the terminator stands for a null result */
  method FindSpecial(a: array<char>, from: nat, ghost n: nat) returns (q: nat)
    requires Terminated(a[..], from, n)
    ensures from <= q <= n && (q < n ==> Special(a[q])) && forall i :: from <= i < q ==> !Special(a[i])
  {
    q := from;
    while a[q] != '\0' && !Special(a[q])
      invariant from <= q <= n && forall i :: from <= i < q ==> !Special(a[i])
      decreases n - q
    {
      q := q + 1;
    }
  }

  /** memmove(a + q, a + q + 1, strlen(a + q)) */
  method DropChar(a: array<char>, q: nat, ghost n: nat)
    requires Terminated(a[..], q, n) && q < n
    modifies a
    ensures CharDropped(old(a[..]), q, n, a[..])
  {
    var end := q;
    while a[end] != '\0'
      invariant q <= end <= n
      decreases n - end
    {
      end := end + 1;
    }
    forall i | q <= i < end {
      a[i] := a[i + 1];
    }
  }

  /**
   The string case of conf_set_sym_val, from behind the opening quote at `p`. The result is where the
   string now ends. After a backslash at the very end the search goes on behind the terminator, where the
   one that was moved still stands.
   */
  method ReadQuoted(a: array<char>, p: nat, n: nat) returns (r: Option<nat>)
    requires Terminated(a[..], p, n)
    modifies a
    ensures r.None? <==> Unquoted(old(a[p..n])).None?
    ensures r.Some? ==> p <= r.value <= n && a[r.value] == '\0' && Unquoted(old(a[p..n])) == Some(a[p..r.value])
  {
    ghost var t := a[p..n];
    var p2 := p;
    ghost var m: nat := n;
    assert a[p..p2] == "";
    PrefixedEmpty("", Unquoted(t));
    while true
      invariant p <= p2 && Terminated(a[..], p2, m) && m <= n
      invariant Unquoted(t) == Prefixed(a[p..p2], Unquoted(a[p2..m]))
      decreases m - p2
    {
      ghost var before := a[..];
      var q := FindSpecial(a, p2, m);
      ReadSpan(t, before, p, p2, q, m);
      if a[q] == '\0' {
        return None;
      }
      if a[q] == '"' {
        a[q] := '\0';
        return Some(q);
      }
      DropChar(a, q, m);
      ReadEscape(t, before, p, q, m, a[..]);
      p2, m := q + 1, if q + 1 == m then m else m - 1;
    }
  }

  /** A string value that is written and read back, with anything but a terminator behind it, is what it was. */
  method WriteAndRead(s: string, rest: string) returns (r: Option<string>)
    requires '\0' !in s && '\0' !in rest
    ensures r == Some(s)
  {
    var line, reslen := EscapeString(s);
    var text := line[1..] + rest + ['\0'];
    var a := new char[|text|](i requires 0 <= i < |text| => text[i]);
    assert a[..] == text;
    var n := |text| - 1;
    EscapedNoNul(s);
    assert a[0..n] == Escaped(s) + ['"'] + rest;
    UnquotedEscaped(s, rest);
    var end := ReadQuoted(a, 0, n);
    r := if end.None? then None else Some(a[..end.value]);
    assert a[0..end.value] == a[..end.value];
  }

  lemma {:induction false} EscapedNoNul(s: string)
    requires '\0' !in s
    ensures '\0' !in Escaped(s)
  {
    if s != "" {
      EscapedNoNul(s[1..]);
    }
  }

  // ----- the replacements of Kconfiglib -----

  /** str.replace: occurrences are found from the left and do not overlap */
  function Replace(s: string, pat: string, rep: string): string
    requires pat != ""
  {
    if s == "" then ""
    else if pat <= s then rep + Replace(s[|pat|..], pat, rep)
    else [s[0]] + Replace(s[1..], pat, rep)
  }

  lemma ReplaceHit(o: string, s: string, n: string)
    requires o != ""
    ensures Replace(o + s, o, n) == n + Replace(s, o, n)
  {
    assert (o + s)[|o|..] == s && o <= o + s;
  }

  lemma ReplaceMiss(c: char, s: string, o: string, n: string)
    requires o != "" && (c != o[0] || |s| + 1 < |o| || (|o| > 1 && s[0] != o[1]))
    ensures Replace([c] + s, o, n) == [c] + Replace(s, o, n)
  {
    var t := [c] + s;
    assert t[1..] == s;
    assert t[0] == c && (|t| > 1 ==> t[1] == s[0]);
  }

  /** Every backslash twice, quotes as they are. */
  function Doubled(s: string): string {
    if s == "" then "" else (if s[0] == '\\' then "\\\\" else [s[0]]) + Doubled(s[1..])
  }

  lemma {:induction false} ReplaceBackslashes(s: string)
    ensures Replace(s, "\\", "\\\\") == Doubled(s)
  {
    if s != "" {
      ReplaceBackslashes(s[1..]);
    }
  }

  lemma {:induction false} ReplaceQuotes(s: string)
    ensures Replace(Doubled(s), "\"", "\\\"") == Escaped(s)
  {
    if s != "" {
      var rest := Doubled(s[1..]);
      ReplaceQuotes(s[1..]);
      if s[0] == '"' {
        ReplaceHit("\"", rest, "\\\"");
      } else {
        ReplaceMiss(s[0], rest, "\"", "\\\"");
        ReplaceMiss('\\', ['\\'] + rest, "\"", "\\\"");
        assert "\\\\" + rest == ['\\'] + (['\\'] + rest);
      }
    }
  }

  /** The writer of Kconfiglib gives the same text as the C one. */
  lemma WritersAgree(s: string)
    ensures Replace(Replace(s, "\\", "\\\\"), "\"", "\\\"") == Escaped(s)
  {
    ReplaceBackslashes(s);
    ReplaceQuotes(s);
  }

  lemma EscapedStart(s: string)
    ensures Escaped(s) != "" ==> Escaped(s)[0] != '"'
  {}

  lemma {:induction false} UndoQuotes(s: string)
    ensures Replace(Escaped(s), "\\\"", "\"") == Doubled(s)
  {
    if s != "" {
      var rest := Escaped(s[1..]);
      UndoQuotes(s[1..]);
      EscapedStart(s[1..]);
      if s[0] == '"' {
        ReplaceHit("\\\"", rest, "\"");
      } else {
        ReplaceMiss(s[0], rest, "\\\"", "\"");
        ReplaceMiss('\\', ['\\'] + rest, "\\\"", "\"");
        assert ['\\', '\\'] + rest == ['\\'] + (['\\'] + rest);
      }
    }
  }

  lemma {:induction false} UndoBackslashes(s: string)
    ensures Replace(Doubled(s), "\\\\", "\\") == s
  {
    if s != "" {
      var rest := Doubled(s[1..]);
      UndoBackslashes(s[1..]);
      assert [s[0]] + s[1..] == s;
      if s[0] == '\\' {
        ReplaceHit("\\\\", rest, "\\");
      } else {
        ReplaceMiss(s[0], rest, "\\\\", "\\");
      }
    }
  }

  /** The reader of Kconfiglib, which undoes quotes first, gives back every string that was written. */
  lemma ReadBack(s: string)
    ensures Replace(Replace(Escaped(s), "\\\"", "\""), "\\\\", "\\") == s
  {
    UndoQuotes(s);
    UndoBackslashes(s);
  }
}
