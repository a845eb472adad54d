/** The JavaScript built-ins the bookshelf script relies on, on `string`
    (a sequence of characters) and on sequences: String.prototype.trim,
    toLowerCase (ASCII letters only), includes, replace with a string pattern
    and an empty replacement, the decimal text of an integer, parseInt(s, 10),
    and Array.prototype.filter. */
module Builtins {

  datatype Option<T> = None | Some(value: T)

  // ---------------------------------------------------------------------
  // White space and trim

  /** WhiteSpace and LineTerminator code points (sections 12.2 and 12.3 of
      ECMA-262), the set that trim and parseInt skip. */
  predicate IsSpace(c: char) {
    c == '\t' || c == '\n' || c == '\U{000B}' || c == '\U{000C}' || c == '\r' || c == ' '
    || c == '\U{00A0}' || c == '\U{1680}' || ('\U{2000}' <= c <= '\U{200A}')
    || c == '\U{2028}' || c == '\U{2029}' || c == '\U{202F}' || c == '\U{205F}'
    || c == '\U{3000}' || c == '\U{FEFF}'
  }

  predicate AllSpace(s: string) {
    forall i :: 0 <= i < |s| ==> IsSpace(s[i])
  }

  /** s with its leading white space removed. */
  function TrimStart(s: string): string {
    if s != [] && IsSpace(s[0]) then TrimStart(s[1..]) else s
  }

  /** s with its trailing white space removed. */
  function TrimEnd(s: string): string {
    if s != [] && IsSpace(s[|s| - 1]) then TrimEnd(s[..|s| - 1]) else s
  }

  /** s.trim() */
  function Trim(s: string): string {
    TrimEnd(TrimStart(s))
  }

  /** TrimStart leaves a suffix of s, all it drops is white space, and what is
      left does not start with white space. */
  lemma {:induction false} TrimStartSpec(s: string)
    ensures |TrimStart(s)| <= |s| && TrimStart(s) == s[|s| - |TrimStart(s)|..]
    ensures AllSpace(s[..|s| - |TrimStart(s)|])
    ensures TrimStart(s) == [] || !IsSpace(TrimStart(s)[0])
  {
    if s != [] && IsSpace(s[0]) {
      TrimStartSpec(s[1..]);
      var k := |s| - |TrimStart(s)|;
      assert s[..k] == [s[0]] + s[1..][..k - 1];
    }
  }

  /** TrimEnd leaves a prefix of s, all it drops is white space, and what is left
      does not end with white space. */
  lemma {:induction false} TrimEndSpec(s: string)
    ensures |TrimEnd(s)| <= |s| && TrimEnd(s) == s[..|TrimEnd(s)|]
    ensures AllSpace(s[|TrimEnd(s)|..])
    ensures TrimEnd(s) == [] || !IsSpace(TrimEnd(s)[|TrimEnd(s)| - 1])
  {
    if s != [] && IsSpace(s[|s| - 1]) {
      var s' := s[..|s| - 1];
      TrimEndSpec(s');
      var k := |TrimEnd(s)|;
      assert s[k..] == s'[k..] + [s[|s| - 1]];
    }
  }

  /** s.trim() is empty exactly when s is all white space; otherwise neither end
      of it is white space. */
  lemma TrimSpec(s: string)
    ensures Trim(s) == [] <==> AllSpace(s)
    ensures Trim(s) != [] ==> !IsSpace(Trim(s)[0]) && !IsSpace(Trim(s)[|Trim(s)| - 1])
  {
    var t := TrimStart(s);
    var r := TrimEnd(t);
    TrimStartSpec(s);
    TrimEndSpec(t);
    if t != [] {
      assert r != [] && t[0] == r[0] by {
        assert !IsSpace(t[0]);
        assert t[0..][0] == t[0];
      }
      assert !AllSpace(s) by { assert s[|s| - |t|] == t[0]; }
    } else {
      assert s[..|s|] == s;
    }
  }

  // ---------------------------------------------------------------------
  // Lower case

  predicate IsUpper(c: char) {
    'A' <= c <= 'Z'
  }

  function LowerChar(c: char): char {
    if IsUpper(c) then (c as int + 32) as char else c
  }

  /** s.toLowerCase() on ASCII letters: the same length, each character mapped. */
  function Lower(s: string): (r: string)
    ensures |r| == |s|
    ensures forall i :: 0 <= i < |s| ==> r[i] == LowerChar(s[i])
  {
    if s == [] then [] else [LowerChar(s[0])] + Lower(s[1..])
  }

  /** Lower-casing twice is lower-casing once, and nothing upper-case is left. */
  lemma LowerIdempotent(s: string)
    ensures Lower(Lower(s)) == Lower(s)
    ensures forall i :: 0 <= i < |s| ==> !IsUpper(Lower(s)[i])
  {
  }

  // ---------------------------------------------------------------------
  // includes and replace

  predicate OccursAt(s: string, q: string, i: nat) {
    i + |q| <= |s| && s[i..i + |q|] == q
  }

  /** s.includes(q) */
  predicate Contains(s: string, q: string)
    decreases |s|
  {
    q <= s || (s != [] && Contains(s[1..], q))
  }

  /** Dropping the first character shifts every occurrence one place left. */
  lemma OccursShift(s: string, q: string, i: nat)
    requires s != []
    ensures OccursAt(s[1..], q, i) <==> OccursAt(s, q, i + 1)
  {
    if i + 1 + |q| <= |s| {
      assert s[1..][i..i + |q|] == s[i + 1..i + 1 + |q|];
    }
  }

  /** includes holds exactly when q occurs at some position of s. */
  lemma {:induction false} ContainsIffOccurs(s: string, q: string)
    ensures Contains(s, q) <==> exists i: nat :: OccursAt(s, q, i)
    decreases |s|
  {
    if q <= s {
      assert OccursAt(s, q, 0);
    } else if s == [] {
      assert forall i: nat :: !OccursAt(s, q, i);
    } else {
      ContainsIffOccurs(s[1..], q);
      if Contains(s[1..], q) {
        var i: nat :| OccursAt(s[1..], q, i);
        OccursShift(s, q, i);
      }
      if exists i: nat :: OccursAt(s, q, i) {
        var i: nat :| OccursAt(s, q, i);
        assert i != 0;
        OccursShift(s, q, i - 1);
      }
    }
  }

  /** s.replace(p, ''): the first occurrence of p is cut out; when p does not
      occur, s is returned as it is. */
  function RemoveFirst(s: string, p: string): string
    decreases |s|
  {
    if p <= s then s[|p|..]
    else if s == [] then s
    else [s[0]] + RemoveFirst(s[1..], p)
  }

  /** k is the position of the first occurrence of q in s. */
  predicate FirstAt(s: string, q: string, k: nat) {
    OccursAt(s, q, k) && forall j: nat :: j < k ==> !OccursAt(s, q, j)
  }

  /** An occurrence that is first in s[1..] is first in s when p is not a prefix of s. */
  lemma FirstAtShift(s: string, p: string, k: nat)
    requires s != [] && !(p <= s) && FirstAt(s[1..], p, k)
    ensures FirstAt(s, p, k + 1)
  {
    OccursShift(s, p, k);
    forall j: nat | j < k + 1
      ensures !OccursAt(s, p, j)
    {
      if j == 0 {
        assert !(p <= s);
      } else {
        OccursShift(s, p, j - 1);
      }
    }
  }

  /** Cutting p at k out of s[1..] is cutting it at k + 1 out of s. */
  lemma RemoveFirstShift(s: string, p: string, k: nat)
    requires s != [] && !(p <= s) && k + |p| <= |s| - 1
    requires RemoveFirst(s[1..], p) == s[1..][..k] + s[1..][k + |p|..]
    ensures RemoveFirst(s, p) == s[..k + 1] + s[k + 1 + |p|..]
  {
    var r1 := RemoveFirst(s[1..], p);
    assert RemoveFirst(s, p) == [s[0]] + r1 by {
      RemoveFirstCons(s, p);
    }
    assert [s[0]] + r1 == s[..k + 1] + s[k + 1 + |p|..] by {
      ConsCut(s[0], s[1..], k, k + |p|);
      assert [s[0]] + s[1..] == s;
    }
  }

  lemma RemoveFirstCons(s: string, p: string)
    requires s != [] && !(p <= s)
    ensures RemoveFirst(s, p) == [s[0]] + RemoveFirst(s[1..], p)
  {
  }

  lemma ConsCut(c: char, t: string, k: nat, m: nat)
    requires k <= m <= |t|
    ensures [c] + (t[..k] + t[m..]) == ([c] + t)[..k + 1] + ([c] + t)[m + 1..]
  {
    assert ([c] + t)[..k + 1] == [c] + t[..k];
    assert ([c] + t)[m + 1..] == t[m..];
  }

  /** replace cuts out exactly the first occurrence of p when there is one, and
      returns s unchanged when there is none. */
  lemma {:induction false} RemoveFirstSpec(s: string, p: string)
    ensures Contains(s, p) ==> exists k: nat :: FirstAt(s, p, k) && RemoveFirst(s, p) == s[..k] + s[k + |p|..]
    ensures !Contains(s, p) ==> RemoveFirst(s, p) == s
    decreases |s|
  {
    if p <= s {
      assert OccursAt(s, p, 0);
      assert FirstAt(s, p, 0) && RemoveFirst(s, p) == s[..0] + s[0 + |p|..];
    } else if s != [] {
      RemoveFirstSpec(s[1..], p);
      if Contains(s[1..], p) {
        var k: nat :| FirstAt(s[1..], p, k) && RemoveFirst(s[1..], p) == s[1..][..k] + s[1..][k + |p|..];
        FirstAtShift(s, p, k);
        RemoveFirstShift(s, p, k);
      } else {
        assert [s[0]] + s[1..] == s;
      }
    }
  }

  /** Cutting the first p out of p + a gives a back. */
  lemma RemoveFirstOfPrefixed(p: string, a: string)
    ensures RemoveFirst(p + a, p) == a
  {
    assert p <= p + a;
  }

  // ---------------------------------------------------------------------
  // Decimal text and parseInt

  predicate IsDigit(c: char) {
    '0' <= c <= '9'
  }

  predicate AllDigits(s: string) {
    forall i :: 0 <= i < |s| ==> IsDigit(s[i])
  }

  function DigitChar(d: nat): char
    requires d < 10
  {
    ('0' as int + d) as char
  }

  function DigitValue(c: char): nat
    requires IsDigit(c)
  {
    c as int - '0' as int
  }

  /** The number a run of decimal digits denotes. */
  function DigitsValue(ds: string): nat
    requires AllDigits(ds)
  {
    if ds == [] then 0 else DigitsValue(ds[..|ds| - 1]) * 10 + DigitValue(ds[|ds| - 1])
  }

  /** The decimal text of n (Number.prototype.toString for an integer): a
      non-empty run of digits with no leading zero that denotes n. */
  function NatText(n: nat): (r: string)
    ensures r != [] && AllDigits(r)
    ensures DigitsValue(r) == n
    ensures r[0] == '0' ==> n == 0
  {
    if n < 10 then [DigitChar(n)]
    else
      var r := NatText(n / 10) + [DigitChar(n % 10)];
      assert r[..|r| - 1] == NatText(n / 10);
      r
  }

  /** The decimal text of an integer, with a minus sign when it is negative. */
  function IntText(n: int): string {
    if n < 0 then "-" + NatText(-n) else NatText(n)
  }

  /** The longest run of digits at the start of s. */
  function LeadingDigits(s: string): (r: string)
    ensures r <= s && AllDigits(r)
    ensures |r| < |s| ==> !IsDigit(s[|r|])
  {
    if s != [] && IsDigit(s[0]) then [s[0]] + LeadingDigits(s[1..]) else []
  }

  /** parseInt(s, 10): skip leading white space, then an optional sign, then read
      the longest run of digits; NaN (here None) when there is no digit. */
  function ParseInt(s: string): Option<int> {
    ParseSigned(TrimStart(s))
  }

  function ParseSigned(t: string): Option<int> {
    if t != [] && t[0] == '-' then Negate(ParseDigits(t[1..]))
    else if t != [] && t[0] == '+' then ParseDigits(t[1..])
    else ParseDigits(t)
  }

  function Negate(v: Option<int>): Option<int> {
    if v.Some? then Some(-v.value) else None
  }

  function ParseDigits(u: string): Option<int> {
    var ds := LeadingDigits(u);
    if ds == [] then None else Some(DigitsValue(ds) as int)
  }

  lemma {:induction false} LeadingDigitsOfRun(ds: string, rest: string)
    requires AllDigits(ds)
    requires rest == [] || !IsDigit(rest[0])
    ensures LeadingDigits(ds + rest) == ds
  {
    if ds != [] {
      assert (ds + rest)[1..] == ds[1..] + rest;
      LeadingDigitsOfRun(ds[1..], rest);
    } else {
      assert ds + rest == rest;
    }
  }

  /** parseInt reads back the decimal text of every integer, whatever follows it
      that is not a digit; in particular parseInt(String(n)) == n. */
  lemma ParseIntOfText(n: int, rest: string)
    requires rest == [] || !IsDigit(rest[0])
    ensures ParseInt(IntText(n) + rest) == Some(n)
  {
    if n < 0 {
      var m: nat := -n;
      ParseIntOfNatText(['-'], m, rest);
      assert IntText(n) == ['-'] + NatText(m);
    } else {
      var m: nat := n;
      ParseIntOfNatText([], m, rest);
      assert IntText(n) == [] + NatText(m);
    }
  }

  lemma ParseIntOfNatText(sign: string, m: nat, rest: string)
    requires sign == [] || sign == ['-']
    requires rest == [] || !IsDigit(rest[0])
    ensures ParseInt(sign + NatText(m) + rest) == Some(if sign == [] then m as int else -(m as int))
  {
    var ds := NatText(m);
    LeadingDigitsOfRun(ds, rest);
    ParseIntOfDigits(sign, ds, rest);
  }

  /** parseInt of an optional minus sign, a run of digits and a non-digit tail. */
  lemma ParseIntOfDigits(sign: string, ds: string, rest: string)
    requires sign == [] || sign == ['-']
    requires ds != [] && AllDigits(ds)
    requires LeadingDigits(ds + rest) == ds
    ensures ParseInt(sign + ds + rest) == Some(if sign == [] then DigitsValue(ds) as int else -(DigitsValue(ds) as int))
  {
    var s := sign + ds + rest;
    assert s[0] == '-' || IsDigit(s[0]);
    assert !IsSpace(s[0]);
    assert TrimStart(s) == s;
    if sign == [] {
      assert s == ds + rest;
    } else {
      assert s[1..] == ds + rest;
    }
  }

  /** parseInt yields NaN on a text that, after white space and a sign, does not
      start with a digit. */
  lemma ParseIntRejects(s: string)
    requires s != [] && !IsSpace(s[0]) && !IsDigit(s[0]) && s[0] != '-' && s[0] != '+'
    ensures ParseInt(s) == None
  {
  }

  // ---------------------------------------------------------------------
  // Array.prototype.filter

  /** s.filter(p): the elements that satisfy p. */
  function Filter<T>(s: seq<T>, p: T -> bool): (r: seq<T>)
    ensures |r| <= |s|
    ensures forall i :: 0 <= i < |r| ==> p(r[i])
  {
    if s == [] then []
    else Filter(s[..|s| - 1], p) + (if p(s[|s| - 1]) then [s[|s| - 1]] else [])
  }

  /** filter keeps the order: filtering a concatenation concatenates the filtered parts. */
  lemma {:induction false} FilterAppend<T>(a: seq<T>, b: seq<T>, p: T -> bool)
    ensures Filter(a + b, p) == Filter(a, p) + Filter(b, p)
    decreases |b|
  {
    if b == [] {
      assert a + b == a;
    } else {
      var b' := b[..|b| - 1];
      assert (a + b)[..|a + b| - 1] == a + b';
      FilterAppend(a, b', p);
    }
  }

  /** filter keeps exactly the elements that satisfy p. */
  lemma {:induction false} FilterMembers<T>(s: seq<T>, p: T -> bool, x: T)
    ensures x in Filter(s, p) <==> x in s && p(x)
  {
    if s != [] {
      var s' := s[..|s| - 1];
      FilterMembers(s', p, x);
      assert s == s' + [s[|s| - 1]];
    }
  }

  /** Filtering with a test every element passes changes nothing. */
  lemma {:induction false} FilterAll<T>(s: seq<T>, p: T -> bool)
    requires forall i :: 0 <= i < |s| ==> p(s[i])
    ensures Filter(s, p) == s
  {
    if s != [] {
      FilterAll(s[..|s| - 1], p);
    }
  }

  /** Filtering with a test no element passes leaves nothing. */
  lemma {:induction false} FilterNone<T>(s: seq<T>, p: T -> bool)
    requires forall i :: 0 <= i < |s| ==> !p(s[i])
    ensures Filter(s, p) == []
  {
    if s != [] {
      FilterNone(s[..|s| - 1], p);
    }
  }
}
