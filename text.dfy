/** Python string semantics that the pipeline relies on: character classes, `strip`,
    `lower`, substring search, `join`/`split`, lexicographic order and decimal
    conversion (`str(int)` and `int(str)`). */
module Text {
  import opened Wrappers

  /** Python's `str.isspace()`, which is also what the regular-expression class `\s`
      and the argument-less `strip()` use: the complete list of whitespace code points. */
  predicate IsSpace(c: char) {
    || c == ' ' || ('\t' <= c <= '\r') || ('\U{1C}' <= c <= '\U{1F}')
    || c == '\U{85}' || c == '\U{A0}' || c == '\U{1680}' || ('\U{2000}' <= c <= '\U{200A}')
    || c == '\U{2028}' || c == '\U{2029}' || c == '\U{202F}' || c == '\U{205F}' || c == '\U{3000}'
  }

  /** The regular-expression class `\d`, restricted to ASCII digits. */
  predicate IsDigit(c: char) { '0' <= c <= '9' }

  /** The regular-expression class `[A-Z]`. */
  predicate IsUpper(c: char) { 'A' <= c <= 'Z' }

  /** The regular-expression class `\w`, restricted to ASCII. */
  predicate IsWordChar(c: char) { IsDigit(c) || IsUpper(c) || ('a' <= c <= 'z') || c == '_' }

  /** Python's `str.lower()` on one character, restricted to ASCII letters. */
  function LowerChar(c: char): char {
    if IsUpper(c) then (c as int + 32) as char else c
  }

  function Lower(s: string): (r: string)
    ensures |r| == |s|
    ensures forall i :: 0 <= i < |s| ==> r[i] == LowerChar(s[i])
  {
    if s == [] then [] else [LowerChar(s[0])] + Lower(s[1..])
  }

  /** `not s.strip()`: the string holds whitespace only. */
  predicate IsBlank(s: string) {
    forall i :: 0 <= i < |s| ==> IsSpace(s[i])
  }

  /** Python's `s.lstrip()`. */
  function LStrip(s: string): string
    decreases |s|
  {
    if s != [] && IsSpace(s[0]) then LStrip(s[1..]) else s
  }

  /** `lstrip` removes exactly the leading whitespace: a suffix is left that does not
      start with whitespace, and everything before it is whitespace. */
  lemma {:induction false} LStripSpec(s: string)
    ensures var r := LStrip(s);
      && |r| <= |s| && r == s[|s| - |r|..]
      && (forall i :: 0 <= i < |s| - |r| ==> IsSpace(s[i]))
      && (r != [] ==> !IsSpace(r[0]))
    decreases |s|
  {
    if s != [] && IsSpace(s[0]) {
      LStripSpec(s[1..]);
      var r := LStrip(s[1..]);
      assert s[1..][|s| - 1 - |r|..] == s[|s| - |r|..];
      forall i | 0 <= i < |s| - |r| ensures IsSpace(s[i]) {
        if i > 0 { assert s[i] == s[1..][i - 1]; }
      }
    }
  }

  /** Python's `s.rstrip()`. */
  function RStrip(s: string): string
    decreases |s|
  {
    if s != [] && IsSpace(s[|s| - 1]) then RStrip(s[..|s| - 1]) else s
  }

  /** `rstrip` removes exactly the trailing whitespace. */
  lemma {:induction false} RStripSpec(s: string)
    ensures var r := RStrip(s);
      && |r| <= |s| && r == s[..|r|]
      && (forall i :: |r| <= i < |s| ==> IsSpace(s[i]))
      && (r != [] ==> !IsSpace(r[|r| - 1]))
    decreases |s|
  {
    if s != [] && IsSpace(s[|s| - 1]) {
      var t := s[..|s| - 1];
      RStripSpec(t);
      var r := RStrip(t);
      assert t[..|r|] == s[..|r|];
      forall i | |r| <= i < |s| ensures IsSpace(s[i]) {
        if i < |s| - 1 { assert s[i] == t[i]; }
      }
    }
  }

  /** Python's `s.strip()`. */
  function Strip(s: string): string {
    RStrip(LStrip(s))
  }

  /** What `strip` leaves: nothing exactly for blank text; otherwise a slice of `s` with
      no whitespace at either edge, surrounded by blank text. */
  lemma StripShape(s: string)
    ensures Strip(s) == [] <==> IsBlank(s)
    ensures Strip(s) != [] ==> !IsSpace(Strip(s)[0]) && !IsSpace(Strip(s)[|Strip(s)| - 1])
    ensures |LStrip(s)| <= |s|
    ensures var k := |s| - |LStrip(s)|;
      && k + |Strip(s)| <= |s| && s[k..k + |Strip(s)|] == Strip(s)
      && IsBlank(s[..k]) && IsBlank(s[k + |Strip(s)|..])
  {
    var l := LStrip(s);
    var k := |s| - |l|;
    LStripSpec(s);
    RStripSpec(l);
    StripEmpty(s, l, RStrip(l), k);
    StripEdges(s);
    StripSlice(s);
  }

  lemma StripEdges(s: string)
    ensures Strip(s) != [] ==> !IsSpace(Strip(s)[0]) && !IsSpace(Strip(s)[|Strip(s)| - 1])
  {
    var l := LStrip(s);
    var r := RStrip(l);
    LStripSpec(s);
    RStripSpec(l);
    if r != [] {
      assert r[0] == l[0];
    }
  }

  lemma StripSlice(s: string)
    ensures |LStrip(s)| <= |s|
    ensures var k := |s| - |LStrip(s)|;
      && k + |Strip(s)| <= |s| && s[k..k + |Strip(s)|] == Strip(s)
      && IsBlank(s[..k]) && IsBlank(s[k + |Strip(s)|..])
  {
    var l := LStrip(s);
    var r := RStrip(l);
    var k := |s| - |l|;
    LStripSpec(s);
    RStripSpec(l);
    assert s[k..] == l;
    assert s[k..k + |r|] == l[..|r|];
    BlankPrefix(s, k);
    BlankSuffix(s, l, k, |r|);
  }

  lemma StripEmpty(s: string, l: string, r: string, k: nat)
    requires k <= |s| && s[k..] == l && r == RStrip(l)
    requires forall i :: 0 <= i < k ==> IsSpace(s[i])
    requires l != [] ==> !IsSpace(l[0])
    ensures r == [] <==> IsBlank(s)
  {
    RStripSpec(l);
    if r == [] {
      BlankJoin(s, k);
    } else {
      assert r[0] == l[0] == s[k];
    }
  }

  lemma SliceOfSuffix(s: string, k: nat, n: nat)
    requires k + n <= |s|
    ensures s[k..k + n] == s[k..][..n]
  {
  }

  lemma BlankPrefix(s: string, k: nat)
    requires k <= |s| && forall i :: 0 <= i < k ==> IsSpace(s[i])
    ensures IsBlank(s[..k])
  {
  }

  lemma BlankSuffix(s: string, l: string, k: nat, n: nat)
    requires k <= |s| && s[k..] == l && n <= |l|
    requires forall i :: n <= i < |l| ==> IsSpace(l[i])
    ensures IsBlank(s[k + n..])
  {
    assert s[k + n..] == l[n..];
  }

  lemma BlankJoin(s: string, k: nat)
    requires k <= |s| && forall i :: 0 <= i < k ==> IsSpace(s[i])
    requires IsBlank(s[k..])
    ensures IsBlank(s)
  {
    forall i | 0 <= i < |s| ensures IsSpace(s[i]) {
      if i >= k { assert s[i] == s[k..][i - k]; }
    }
  }

  /** Python's `s.lstrip(c)`. */
  function LStripChar(s: string, c: char): string
    decreases |s|
  {
    if s != [] && s[0] == c then LStripChar(s[1..], c) else s
  }

  /** Python's `s.rstrip(c)`. */
  function RStripChar(s: string, c: char): string
    decreases |s|
  {
    if s != [] && s[|s| - 1] == c then RStripChar(s[..|s| - 1], c) else s
  }

  /** Python's `s.strip(c)`. */
  function StripChar(s: string, c: char): string {
    RStripChar(LStripChar(s, c), c)
  }

  /** `lstrip(c)` removes the leading run of `c` and nothing else. */
  lemma {:induction false} LStripCharSpec(s: string, c: char)
    ensures var r := LStripChar(s, c);
      && |r| <= |s| && r == s[|s| - |r|..]
      && (forall i :: 0 <= i < |s| - |r| ==> s[i] == c)
      && (r != [] ==> r[0] != c)
    decreases |s|
  {
    if s != [] && s[0] == c {
      LStripCharSpec(s[1..], c);
    }
  }

  /** `rstrip(c)` removes the trailing run of `c` and nothing else. */
  lemma {:induction false} RStripCharSpec(s: string, c: char)
    ensures var r := RStripChar(s, c);
      && |r| <= |s| && r == s[..|r|]
      && (forall i :: |r| <= i < |s| ==> s[i] == c)
      && (r != [] ==> r[|r| - 1] != c)
    decreases |s|
  {
    if s != [] && s[|s| - 1] == c {
      RStripCharSpec(s[..|s| - 1], c);
    }
  }

  /** A text that neither starts nor ends with `c` is left as it is by `strip(c)`. */
  lemma StripCharNoop(s: string, c: char)
    requires s == [] || (s[0] != c && s[|s| - 1] != c)
    ensures StripChar(s, c) == s
  {
  }

  /** `strip(c)` of `c` + `t` + `c`, where `t` neither starts nor ends with `c`, is `t`. */
  lemma StripCharFrame(t: string, c: char)
    requires t != [] && t[0] != c && t[|t| - 1] != c
    ensures StripChar([c] + t + [c], c) == t
  {
    var s := [c] + t + [c];
    assert s[1..] == t + [c];
    assert LStripChar(s, c) == t + [c];
    assert (t + [c])[..|t|] == t;
    assert RStripChar(t + [c], c) == RStripChar(t, c);
  }

  /** Python's `s.startswith(p)`. */
  predicate StartsWith(s: string, p: string) {
    |p| <= |s| && s[..|p|] == p
  }

  /** A prefix stays a prefix when more text is appended. */
  lemma StartsWithAppend(s: string, t: string, p: string)
    requires StartsWith(s, p)
    ensures StartsWith(s + t, p)
  {
    assert (s + t)[..|p|] == s[..|p|];
  }

  /** Python's `s.endswith(p)`. */
  predicate EndsWith(s: string, p: string) {
    |p| <= |s| && s[|s| - |p|..] == p
  }

  /** `a` occurs in `b` starting at index `i`. */
  predicate OccursAt(a: string, b: string, i: nat) {
    i + |a| <= |b| && b[i..i + |a|] == a
  }

  /** Python's `a in b` for strings. */
  predicate IsInfix(a: string, b: string)
    decreases |b|
  {
    |a| <= |b| && (a == b[..|a|] || IsInfix(a, b[1..]))
  }

  lemma {:induction false} IsInfixIff(a: string, b: string)
    ensures IsInfix(a, b) <==> exists i: nat :: OccursAt(a, b, i)
    decreases |b|
  {
    if |a| <= |b| {
      if a == b[..|a|] {
        assert OccursAt(a, b, 0);
      } else {
        IsInfixIff(a, b[1..]);
        if IsInfix(a, b[1..]) {
          var i: nat :| OccursAt(a, b[1..], i);
          assert b[1..][i..i + |a|] == b[i + 1..i + 1 + |a|];
          assert OccursAt(a, b, i + 1);
        }
        if i: nat :| OccursAt(a, b, i) {
          assert i != 0;
          assert b[1..][i - 1..i - 1 + |a|] == b[i..i + |a|];
          assert OccursAt(a, b[1..], i - 1);
        }
      }
    }
  }

  /** Python's `s.find(needle, start)` for `start >= 0`: the lowest index at or after
      `start` where `needle` occurs, or -1. */
  function Find(s: string, needle: string, start: nat): int
    decreases |s| - start
  {
    if start + |needle| > |s| then -1
    else if OccursAt(needle, s, start) then start
    else Find(s, needle, start + 1)
  }

  /** `find` returns the first occurrence at or after `start`, or -1 when there is none. */
  lemma {:induction false} FindSpec(s: string, needle: string, start: nat)
    ensures var r := Find(s, needle, start);
      && (r == -1 || (start <= r && OccursAt(needle, s, r)))
      && (r == -1 ==> forall i: nat :: start <= i ==> !OccursAt(needle, s, i))
      && (r >= 0 ==> forall i: nat :: start <= i < r ==> !OccursAt(needle, s, i))
    decreases |s| - start
  {
    if start + |needle| <= |s| && !OccursAt(needle, s, start) {
      FindSpec(s, needle, start + 1);
    }
  }

  /** Python's `sep.join(parts)`. */
  function Join(parts: seq<string>, sep: string): string {
    if parts == [] then []
    else if |parts| == 1 then parts[0]
    else parts[0] + sep + Join(parts[1..], sep)
  }

  /** Python's `s[:n]` for `n >= 0`. */
  function Take(s: string, n: nat): (r: string)
    ensures |r| == if n < |s| then n else |s|
    ensures r == s[..|r|]
  {
    if n < |s| then s[..n] else s
  }

  /** Index of the first `c` in `s`. */
  function IndexOf(s: string, c: char): (i: nat)
    requires c in s
    ensures i < |s| && s[i] == c && c !in s[..i]
  {
    if s[0] == c then 0 else IndexOf(s[1..], c) + 1
  }

  /** Python's `s.split(c)` for a one-character separator. */
  function Split(s: string, c: char): (r: seq<string>)
    ensures |r| >= 1
    decreases |s|
  {
    if c !in s then [s]
    else
      var i := IndexOf(s, c);
      [s[..i]] + Split(s[i + 1..], c)
  }

  /** The parts hold no separator, and joining them with it gives the text back. */
  lemma SplitParts(s: string, c: char)
    ensures forall k :: 0 <= k < |Split(s, c)| ==> c !in Split(s, c)[k]
    ensures Join(Split(s, c), [c]) == s
  {
    SplitNoSeparator(s, c);
    SplitJoinBack(s, c);
  }

  lemma {:induction false} SplitNoSeparator(s: string, c: char)
    ensures forall k :: 0 <= k < |Split(s, c)| ==> c !in Split(s, c)[k]
    decreases |s|
  {
    if c in s {
      var i := IndexOf(s, c);
      var rest := Split(s[i + 1..], c);
      SplitNoSeparator(s[i + 1..], c);
      var r := [s[..i]] + rest;
      assert Split(s, c) == r;
      forall k | 0 <= k < |r| ensures c !in r[k] {
        if k > 0 { assert r[k] == rest[k - 1]; }
      }
    }
  }

  lemma {:induction false} SplitJoinBack(s: string, c: char)
    ensures Join(Split(s, c), [c]) == s
    decreases |s|
  {
    if c in s {
      var i := IndexOf(s, c);
      var rest := Split(s[i + 1..], c);
      SplitJoinBack(s[i + 1..], c);
      assert Split(s, c) == [s[..i]] + rest;
      JoinCons(s[..i], rest, [c]);
      Around(s, i);
    }
  }

  lemma JoinCons(a: string, rest: seq<string>, d: string)
    requires |rest| >= 1
    ensures Join([a] + rest, d) == a + d + Join(rest, d)
  {
    assert ([a] + rest)[1..] == rest;
  }

  lemma Around(s: string, i: nat)
    requires i < |s|
    ensures s == s[..i] + [s[i]] + s[i + 1..]
  {
  }

  /** Python's `<` on strings: lexicographic order of code points. */
  predicate StrLess(a: string, b: string)
    decreases |a|
  {
    b != [] && (a == [] || a[0] < b[0] || (a[0] == b[0] && StrLess(a[1..], b[1..])))
  }

  lemma {:induction false} StrLessIrreflexive(a: string)
    ensures !StrLess(a, a)
    decreases |a|
  {
    if a != [] { StrLessIrreflexive(a[1..]); }
  }

  lemma {:induction false} StrLessTransitive(a: string, b: string, c: string)
    requires StrLess(a, b) && StrLess(b, c)
    ensures StrLess(a, c)
    decreases |a|
  {
    if a != [] && a[0] == b[0] && b[0] == c[0] {
      StrLessTransitive(a[1..], b[1..], c[1..]);
    }
  }

  lemma {:induction false} StrLessTotal(a: string, b: string)
    ensures a == b || StrLess(a, b) || StrLess(b, a)
    decreases |a|
  {
    if a != [] && b != [] && a[0] == b[0] {
      StrLessTotal(a[1..], b[1..]);
      if a[1..] == b[1..] { assert a == [a[0]] + a[1..] && b == [b[0]] + b[1..]; }
    }
  }

  function DigitChar(d: nat): (c: char)
    requires d < 10
    ensures IsDigit(c)
  {
    ('0' as int + d) as char
  }

  function DigitValue(c: char): (d: nat)
    requires IsDigit(c)
    ensures d < 10
  {
    c as int - '0' as int
  }

  /** Python's `str(n)` for a natural number. */
  function NatToString(n: nat): (r: string)
    ensures |r| >= 1 && IsDigit(r[0]) && IsDigit(r[|r| - 1])
    ensures forall i :: 0 <= i < |r| ==> IsDigit(r[i])
  {
    if n < 10 then [DigitChar(n)] else NatToString(n / 10) + [DigitChar(n % 10)]
  }

  /** Python's `str(n)` for an integer. */
  function IntToString(n: int): string {
    if n < 0 then "-" + NatToString(-n) else NatToString(n)
  }

  predicate DigitsOrUnderscores(s: string) {
    forall i :: 0 <= i < |s| ==> IsDigit(s[i]) || s[i] == '_'
  }

  /** The digits of an integer literal, as Python's `int()` accepts them: digits,
      single underscores between digits. */
  predicate IsDigitGroups(s: string) {
    && |s| >= 1 && IsDigit(s[0]) && IsDigit(s[|s| - 1]) && DigitsOrUnderscores(s)
    && forall i :: 0 <= i < |s| - 1 ==> !(s[i] == '_' && s[i + 1] == '_')
  }

  /** The value of a digit string, skipping underscores. */
  function DigitsValue(s: string): nat
    requires DigitsOrUnderscores(s)
  {
    if s == [] then 0
    else if s[|s| - 1] == '_' then DigitsValue(s[..|s| - 1])
    else 10 * DigitsValue(s[..|s| - 1]) + DigitValue(s[|s| - 1])
  }

  /** Python's `int(s)` in base 10: surrounding whitespace, an optional sign, then digit
      groups; `None` stands for the `ValueError` it raises otherwise. */
  function ParseInt(s: string): Option<int> {
    ParseStripped(Strip(s))
  }

  /** `int()` on text with no surrounding whitespace. */
  function ParseStripped(t: string): Option<int> {
    if |t| > 0 && (t[0] == '+' || t[0] == '-') then
      if IsDigitGroups(t[1..]) then
        var v: int := DigitsValue(t[1..]);
        Some(if t[0] == '-' then -v else v)
      else None
    else if IsDigitGroups(t) then Some(DigitsValue(t))
    else None
  }

  lemma {:induction false} DigitsOfNat(n: nat)
    ensures DigitsOrUnderscores(NatToString(n)) && DigitsValue(NatToString(n)) == n
  {
    var s := NatToString(n);
    if n >= 10 {
      DigitsOfNat(n / 10);
      assert s[..|s| - 1] == NatToString(n / 10);
    }
  }

  lemma StripNoEdgeSpace(s: string)
    requires s != [] && !IsSpace(s[0]) && !IsSpace(s[|s| - 1])
    ensures Strip(s) == s
  {
  }

  lemma NatStringIsDigitGroups(n: nat)
    ensures IsDigitGroups(NatToString(n))
  {
    var d := NatToString(n);
    assert forall i :: 0 <= i < |d| - 1 ==> IsDigit(d[i]);
  }

  lemma ParseDigits(d: string)
    requires IsDigitGroups(d)
    ensures ParseInt(d) == Some(DigitsValue(d) as int)
  {
    StripNoEdgeSpace(d);
    assert ParseInt(d) == ParseStripped(d);
  }

  lemma ParseNegatedDigits(d: string)
    requires IsDigitGroups(d)
    ensures ParseInt("-" + d) == Some(-(DigitsValue(d) as int))
  {
    var s := "-" + d;
    assert s[|s| - 1] == d[|d| - 1];
    StripNoEdgeSpace(s);
    assert ParseInt(s) == ParseStripped(s);
    assert s[1..] == d;
  }

  /** `int(str(n)) == n`: the decimal form the model writes is read back unchanged. */
  lemma ParseIntRoundTrip(n: int)
    ensures ParseInt(IntToString(n)) == Some(n)
  {
    var m: nat := if n < 0 then -n else n;
    DigitsOfNat(m);
    NatStringIsDigitGroups(m);
    if n < 0 {
      ParseNegatedDigits(NatToString(m));
    } else {
      ParseDigits(NatToString(m));
    }
  }
}
