/** The string operations of JavaScript that the query pipeline relies on. */
module JsStrings {
  import opened Wrappers

  /** White space and line terminators as `String.prototype.trim` removes them. */
  predicate IsSpace(c: char) {
    c == ' ' || c == '\t' || c == '\n' || c == '\r' || c == '\U{000B}' || c == '\U{000C}'
    || c == '\U{00A0}' || c == '\U{1680}' || ('\U{2000}' <= c <= '\U{200A}')
    || c == '\U{2028}' || c == '\U{2029}' || c == '\U{202F}' || c == '\U{205F}'
    || c == '\U{3000}' || c == '\U{FEFF}'
  }

  function TrimStart(s: string): (r: string)
    ensures |r| <= |s| && r == s[|s| - |r|..]
    ensures r == [] || !IsSpace(r[0])
    ensures forall i :: 0 <= i < |s| - |r| ==> IsSpace(s[i])
  {
    if s != [] && IsSpace(s[0]) then TrimStart(s[1..]) else s
  }

  function TrimEnd(s: string): (r: string)
    ensures |r| <= |s| && r == s[..|r|]
    ensures r == [] || !IsSpace(r[|r| - 1])
    ensures forall i :: |r| <= i < |s| ==> IsSpace(s[i])
  {
    if s != [] && IsSpace(s[|s| - 1]) then TrimEnd(s[..|s| - 1]) else s
  }

  /** `s.trim()` */
  function Trim(s: string): string {
    TrimEnd(TrimStart(s))
  }

  /** Where `Trim` cuts: before `a` and from `b` on there is only white space. */
  lemma TrimCuts(s: string) returns (a: nat, b: nat)
    ensures a <= b <= |s| && Trim(s) == s[a..b]
    ensures forall i :: 0 <= i < a ==> IsSpace(s[i])
    ensures forall i :: b <= i < |s| ==> IsSpace(s[i])
  {
    var t := TrimStart(s);
    a := |s| - |t|;
    var e := TrimEnd(t);
    b := a + |e|;
    assert t == s[a..];
    assert e == t[..|e|];
    forall i | b <= i < |s| ensures IsSpace(s[i]) {
      assert s[i] == t[i - a];
    }
  }

  /** Trimming keeps a contiguous part of the string, bounded by non-space characters,
      and drops only white space around it. */
  lemma TrimIsInfix(s: string)
    ensures exists a, b :: 0 <= a <= b <= |s| && Trim(s) == s[a..b]
                           && (forall i :: 0 <= i < a ==> IsSpace(s[i]))
                           && (forall i :: b <= i < |s| ==> IsSpace(s[i]))
    ensures Trim(s) == [] || (!IsSpace(Trim(s)[0]) && !IsSpace(Trim(s)[|Trim(s)| - 1]))
  {
    var a, b := TrimCuts(s);
    var e := TrimEnd(TrimStart(s));
    assert e == [] || !IsSpace(e[0]) by {
      var t := TrimStart(s);
      if e != [] {
        assert e[0] == t[0];
      }
    }
  }

  /** A string is blank exactly when every character of it is white space;
      in particular a non-blank string is non-empty (truthy). */
  lemma BlankIffAllSpace(s: string)
    ensures Trim(s) == [] <==> forall i :: 0 <= i < |s| ==> IsSpace(s[i])
    ensures Trim(s) != [] ==> s != []
  {
    var t := TrimStart(s);
    if t != [] {
      assert !IsSpace(t[0]) && t[0] == s[|s| - |t|];
      var e := TrimEnd(t);
      assert e != [];
    }
  }

  /** `c.toLowerCase()` for the ASCII letters; other characters are kept. */
  function LowerChar(c: char): char {
    if 'A' <= c <= 'Z' then (c as int + 32) as char else c
  }

  /** `s.toLowerCase()`, for ASCII letters. */
  function Lower(s: string): (r: string)
    ensures |r| == |s|
    ensures forall i :: 0 <= i < |s| ==> r[i] == LowerChar(s[i])
  {
    if s == [] then [] else [LowerChar(s[0])] + Lower(s[1..])
  }

  /** `s.includes(t)`: `t` occurs in `s` as a contiguous substring. */
  function Contains(s: string, t: string): bool {
    t <= s || (s != [] && Contains(s[1..], t))
  }

  /** `t` occurs in `s` starting at index `i`. */
  predicate OccursAt(s: string, t: string, i: int) {
    0 <= i && i + |t| <= |s| && s[i..i + |t|] == t
  }

  lemma PrefixOccurs(s: string, t: string)
    ensures OccursAt(s, t, 0) <==> t <= s
  {
  }

  lemma {:induction false} ContainsMeansOccurs(s: string, t: string)
    ensures Contains(s, t) <==> exists i :: OccursAt(s, t, i)
  {
    PrefixOccurs(s, t);
    if t <= s {
      assert OccursAt(s, t, 0);
    } else if s == [] {
      assert forall i :: !OccursAt(s, t, i);
    } else {
      ContainsMeansOccurs(s[1..], t);
      if Contains(s[1..], t) {
        var i :| OccursAt(s[1..], t, i);
        assert s[i + 1..i + 1 + |t|] == s[1..][i..i + |t|];
        assert OccursAt(s, t, i + 1);
      }
      if exists i :: OccursAt(s, t, i) {
        var i :| OccursAt(s, t, i);
        assert s[1..][i - 1..i - 1 + |t|] == s[i..i + |t|];
        assert OccursAt(s[1..], t, i - 1);
      }
    }
  }

  /** Every string contains the empty string; so an empty search term matches anything. */
  lemma ContainsEmpty(s: string)
    ensures Contains(s, "")
  {
  }

  function DigitChar(d: nat): char
    requires d < 10
  {
    ('0' as int + d) as char
  }

  /** The number a string of decimal digits denotes. */
  function DecimalValue(s: string): nat
    requires forall i :: 0 <= i < |s| ==> '0' <= s[i] <= '9'
  {
    if s == [] then 0 else DecimalValue(s[..|s| - 1]) * 10 + (s[|s| - 1] as int - '0' as int)
  }

  function NatToString(n: nat): (r: string)
    ensures |r| >= 1
    ensures forall i :: 0 <= i < |r| ==> '0' <= r[i] <= '9'
  {
    if n < 10 then [DigitChar(n)] else NatToString(n / 10) + [DigitChar(n % 10)]
  }

  /** The decimal form of `n` reads back as `n`. */
  lemma {:induction false} NatToStringReadsBack(n: nat)
    ensures DecimalValue(NatToString(n)) == n
  {
    if n >= 10 {
      NatToStringReadsBack(n / 10);
      var r := NatToString(n);
      assert r[..|r| - 1] == NatToString(n / 10);
    }
  }

  /** `n.toString()` for an integer number. */
  function IntToString(n: int): string {
    if n < 0 then "-" + NatToString(-n) else NatToString(n)
  }

  /** The part of `s` before the first `sep`, and what follows that `sep` (if any). */
  function SplitOnce(s: string, sep: char): (string, Option<string>) {
    if s == [] then ("", None)
    else if s[0] == sep then ("", Some(s[1..]))
    else var (head, tail) := SplitOnce(s[1..], sep); ([s[0]] + head, tail)
  }

  /** `s.split(sep)`: the maximal pieces of `s` between occurrences of `sep`. */
  function Split(s: string, sep: char): (parts: seq<string>)
    ensures |parts| >= 1
    decreases |s|
  {
    var (head, tail) := SplitOnce(s, sep);
    match tail
    case None => [head]
    case Some(rest) => SplitOnceShorter(s, sep); [head] + Split(rest, sep)
  }

  lemma {:induction false} SplitOnceShorter(s: string, sep: char)
    ensures SplitOnce(s, sep).1.Some? ==> |SplitOnce(s, sep).1.value| < |s|
  {
    if s != [] && s[0] != sep { SplitOnceShorter(s[1..], sep); }
  }

  /** Splitting undoes joining: a piece without `sep` comes back out whole. */
  lemma {:induction false} SplitOnceJoined(a: string, b: string, sep: char)
    requires forall i :: 0 <= i < |a| ==> a[i] != sep
    ensures SplitOnce(a + [sep] + b, sep) == (a, Some(b))
  {
    if a == [] {
      assert a + [sep] + b == [sep] + b;
    } else {
      assert (a + [sep] + b)[1..] == a[1..] + [sep] + b;
      SplitOnceJoined(a[1..], b, sep);
      assert [a[0]] + a[1..] == a;
    }
  }

  lemma {:induction false} SplitOnceWithout(a: string, sep: char)
    requires forall i :: 0 <= i < |a| ==> a[i] != sep
    ensures SplitOnce(a, sep) == (a, None)
  {
    if a != [] {
      SplitOnceWithout(a[1..], sep);
      assert [a[0]] + a[1..] == a;
    }
  }

  /** `parts.join(sep)` */
  function Join(parts: seq<string>, sep: char): string {
    if parts == [] then "" else if |parts| == 1 then parts[0] else parts[0] + [sep] + Join(parts[1..], sep)
  }

  /** `SplitOnce` cuts `s` at its first `sep`, and the part before it holds no `sep`. */
  lemma {:induction false} SplitOnceCuts(s: string, sep: char)
    ensures var (head, tail) := SplitOnce(s, sep);
            (forall i :: 0 <= i < |head| ==> head[i] != sep)
            && (tail.None? ==> head == s)
            && (tail.Some? ==> s == head + [sep] + tail.value)
  {
    if s != [] && s[0] != sep {
      SplitOnceCuts(s[1..], sep);
      var (head, tail) := SplitOnce(s[1..], sep);
      assert SplitOnce(s, sep) == ([s[0]] + head, tail);
      assert s == [s[0]] + s[1..];
    }
  }

  /** `split` and `join` are inverse: the pieces hold no `sep`, and joining them with `sep`
      gives back the string. */
  lemma {:induction false} SplitJoins(s: string, sep: char)
    ensures Join(Split(s, sep), sep) == s
    ensures forall j, i :: 0 <= j < |Split(s, sep)| && 0 <= i < |Split(s, sep)[j]| ==> Split(s, sep)[j][i] != sep
    decreases |s|
  {
    SplitOnceCuts(s, sep);
    var (head, tail) := SplitOnce(s, sep);
    if tail.Some? {
      SplitOnceShorter(s, sep);
      SplitJoins(tail.value, sep);
      var rest := Split(tail.value, sep);
      assert Split(s, sep) == [head] + rest;
      assert ([head] + rest)[1..] == rest;
    }
  }

  /** `(a + ":" + b).split(":")` is `[a, b]` when neither contains `":"`. */
  lemma SplitJoinedPair(a: string, b: string, sep: char)
    requires forall i :: 0 <= i < |a| ==> a[i] != sep
    requires forall i :: 0 <= i < |b| ==> b[i] != sep
    ensures Split(a + [sep] + b, sep) == [a, b]
  {
    SplitOnceJoined(a, b, sep);
    SplitOnceWithout(b, sep);
  }
}
