/** Decimal text: `str(n)` for a natural number, and Python's `int(b)` on a byte string. */
module Decimal {
  import opened Bytes

  const UNDERSCORE: byte := 95
  const PLUS: byte := 43
  const MINUS: byte := 45
  // CPython refuses to convert longer digit strings (sys.int_info.default_max_str_digits).
  const MAX_STR_DIGITS := 4300

  predicate IsDigit(c: byte) {
    48 <= c <= 57
  }

  // Py_ISSPACE: tab, LF, VT, FF, CR and blank.
  predicate IsSpace(c: byte) {
    9 <= c <= 13 || c == 32
  }

  /** `str(n)` */
  function Print(n: nat): (r: bytes)
    ensures |r| >= 1
    ensures forall c :: c in r ==> IsDigit(c)
  {
    if n < 10 then [48 + n] else Print(n / 10) + [48 + n % 10]
  }

  function DigitValue(c: byte): nat
    requires IsDigit(c)
  {
    c - 48
  }

  /** The number written by a string of digits and digit-group underscores. */
  function Value(d: bytes): nat
    requires forall c :: c in d ==> IsDigit(c) || c == UNDERSCORE
  {
    if d == [] then 0
    else if d[|d| - 1] == UNDERSCORE then Value(d[..|d| - 1])
    else 10 * Value(d[..|d| - 1]) + DigitValue(d[|d| - 1])
  }

  function DigitCount(d: bytes): (n: nat)
    ensures n <= |d|
  {
    if d == [] then 0 else DigitCount(d[..|d| - 1]) + if IsDigit(d[|d| - 1]) then 1 else 0
  }

  predicate NoDoubleUnderscore(d: bytes, i: int)
    requires 0 < i < |d|
  {
    IsDigit(d[i]) || IsDigit(d[i - 1])
  }

  /** Digits with single underscores between them. */
  predicate DigitGroups(d: bytes) {
    && |d| > 0 && IsDigit(d[0]) && IsDigit(d[|d| - 1])
    && (forall c :: c in d ==> IsDigit(c) || c == UNDERSCORE)
    && (forall i :: 0 < i < |d| ==> NoDoubleUnderscore(d, i))
  }

  function TrimLeft(b: bytes): bytes {
    if b != [] && IsSpace(b[0]) then TrimLeft(b[1..]) else b
  }

  function TrimRight(b: bytes): bytes {
    if b != [] && IsSpace(b[|b| - 1]) then TrimRight(b[..|b| - 1]) else b
  }

  /** `int(b)`; None stands for the ValueError. */
  function ParseInt(b: bytes): Option<int> {
    var t := TrimRight(TrimLeft(b));
    var signed := t != [] && (t[0] == PLUS || t[0] == MINUS);
    var d := if signed then t[1..] else t;
    if !DigitGroups(d) || DigitCount(d) > MAX_STR_DIGITS then None
    else Some(if signed && t[0] == MINUS then 0 - Value(d) else Value(d))
  }

  lemma {:induction false} ValueOfPrint(n: nat)
    ensures Value(Print(n)) == n
  {
    if n >= 10 {
      ValueOfPrint(n / 10);
      assert Print(n)[..|Print(n)| - 1] == Print(n / 10);
    } else {
      assert Print(n)[..0] == [];
    }
  }

  /** `int(str(n)) == n` within the interpreter's digit limit. */
  lemma ParseIntOfPrint(n: nat)
    requires |Print(n)| <= MAX_STR_DIGITS
    ensures ParseInt(Print(n)) == Some(n)
  {
    ValueOfPrint(n);
    hide Print, Value;
    PlainDigits(Print(n));
  }

  /** Digits alone are neither trimmed nor signed. */
  lemma PlainDigits(p: bytes)
    requires |p| > 0 && forall c :: c in p ==> IsDigit(c)
    ensures TrimRight(TrimLeft(p)) == p && p[0] != PLUS && p[0] != MINUS && DigitGroups(p)
  {
    assert p[0] in p && p[|p| - 1] in p;
    forall i | 0 < i < |p| ensures NoDoubleUnderscore(p, i) {
      assert p[i] in p;
    }
  }

  lemma PrintInjective(m: nat, n: nat)
    requires Print(m) == Print(n)
    ensures m == n
  {
    ValueOfPrint(m);
    ValueOfPrint(n);
  }

  /** Text that starts with anything but a blank, a sign or a digit is no number. */
  lemma ParseIntRejects(b: bytes)
    requires b != [] && !IsDigit(b[0]) && !IsSpace(b[0]) && b[0] != PLUS && b[0] != MINUS
    ensures ParseInt(b) == None
  {
    TrimRightKeepsHead(b);
  }

  lemma {:induction false} TrimRightKeepsHead(b: bytes)
    requires b != [] && !IsSpace(b[0])
    ensures TrimRight(b) != [] && TrimRight(b)[0] == b[0]
  {
    if IsSpace(b[|b| - 1]) {
      TrimRightKeepsHead(b[..|b| - 1]);
    }
  }

  // ---- the forms that `int()` accepts ---------------------------------------------------

  predicate Spaces(b: bytes) {
    forall c :: c in b ==> c in {9, 10, 11, 12, 13, 32}
  }

  lemma {:induction false} TrimLeftSpaces(pre: bytes, b: bytes)
    requires Spaces(pre)
    ensures TrimLeft(pre + b) == TrimLeft(b)
  {
    if pre == [] {
      assert pre + b == b;
    } else {
      assert pre[0] in pre && (pre + b)[1..] == pre[1..] + b;
      assert forall c :: c in pre[1..] ==> c in pre;
      TrimLeftSpaces(pre[1..], b);
    }
  }

  lemma {:induction false} TrimRightSpaces(b: bytes, post: bytes)
    requires Spaces(post)
    ensures TrimRight(b + post) == TrimRight(b)
    decreases |post|
  {
    if post == [] {
      assert b + post == b;
    } else {
      var init := post[..|post| - 1];
      assert post[|post| - 1] in post && (b + post)[..|b + post| - 1] == b + init;
      forall c | c in init ensures c in {9, 10, 11, 12, 13, 32} {
        assert c in post;
      }
      TrimRightSpaces(b, init);
    }
  }

  lemma TrimsTo(pre: bytes, b: bytes, post: bytes)
    requires Spaces(pre) && Spaces(post) && b != [] && !IsSpace(b[0]) && !IsSpace(b[|b| - 1])
    ensures TrimRight(TrimLeft(pre + b + post)) == b
  {
    assert pre + b + post == pre + (b + post);
    TrimLeftSpaces(pre, b + post);
    TrimRightSpaces(b, post);
  }

  /** Digits may be signed and have blanks around them; more than 4300 of them are refused. */
  lemma ParseIntForms(pre: bytes, n: nat, post: bytes)
    requires Spaces(pre) && Spaces(post)
    ensures var (d, fits) := (Print(n), |Print(n)| <= 4300);
      && ParseInt(pre + d + post) == (if fits then Some(n) else None)
      && ParseInt(pre + ([43] + d) + post) == (if fits then Some(n) else None)
      && ParseInt(pre + ([45] + d) + post) == (if fits then Some(0 - n) else None)
  {
    var d := Print(n);
    ValueOfPrint(n);
    hide Print, Value, TrimLeft, TrimRight, Spaces;
    PlainDigits(d);
    AllDigits(d);
    assert d[0] in d && d[|d| - 1] in d;
    TrimsTo(pre, d, post);
    SignedDigits(d, 43);
    SignedDigits(d, 45);
    TrimsTo(pre, [43] + d, post);
    TrimsTo(pre, [45] + d, post);
  }

  lemma SignedDigits(d: bytes, sign: byte)
    requires |d| > 0 && forall c :: c in d ==> IsDigit(c)
    ensures ([sign] + d)[1..] == d && !IsSpace(([sign] + d)[|d|])
  {
    assert ([sign] + d)[|d|] == d[|d| - 1] && d[|d| - 1] in d;
  }

  lemma {:induction false} AllDigits(d: bytes)
    requires forall c :: c in d ==> IsDigit(c)
    ensures DigitCount(d) == |d|
  {
    if d == [] {
    } else {
      assert d[|d| - 1] in d;
      AllDigits(d[..|d| - 1]);
    }
  }

  /** Single underscores may stand between digits, and nothing else. */
  lemma Underscores(a: byte, b: byte)
    requires IsDigit(a) && IsDigit(b)
    ensures ParseInt([a, 95, b]) == Some(10 * (a - 48) + (b - 48))
    ensures ParseInt([a, 95, 95, b]) == None
    ensures ParseInt([a, 46, b]) == None
  {
    TwoDigits(a, b);
    assert [] + [a, 95, b] + [] == [a, 95, b] && [] + [a, 46, b] + [] == [a, 46, b];
    assert [] + [a, 95, 95, b] + [] == [a, 95, 95, b];
    TrimsTo([], [a, 95, b], []);
    TrimsTo([], [a, 95, 95, b], []);
    TrimsTo([], [a, 46, b], []);
    hide TrimLeft, TrimRight, Value, DigitCount;
    assert !NoDoubleUnderscore([a, 95, 95, b], 2);
    assert [a, 46, b][1] in [a, 46, b];
  }

  lemma TwoDigits(a: byte, b: byte)
    requires IsDigit(a) && IsDigit(b)
    ensures DigitGroups([a, 95, b]) && Value([a, 95, b]) == 10 * (a - 48) + (b - 48) && DigitCount([a, 95, b]) == 2
  {
    var d: bytes := [a, 95, b];
    var e: bytes := [a, 95];
    var f: bytes := [a];
    assert f[..|f| - 1] == [] && e[..1] == f && d[..2] == e;
    assert Value(f) == a - 48 && DigitCount(f) == 1;
    assert Value(e) == Value(f) && DigitCount(e) == DigitCount(f);
  }
}
