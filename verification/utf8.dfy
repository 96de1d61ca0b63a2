/** UTF-8 text, whose length in characters is what Python's `len` counts. */
module Utf8 {
  import opened Bytes

  type Rune = c: int | 0 <= c <= 0x10FFFF && !(0xD800 <= c <= 0xDFFF)

  /** `chr(c).encode()` */
  function EncodeRune(c: Rune): (r: bytes)
    ensures 1 <= |r| <= 4
  {
    if c < 0x80 then [c]
    else if c < 0x800 then [0xC0 + c / 0x40, 0x80 + c % 0x40]
    else if c < 0x1_0000 then [0xE0 + c / 0x1000, 0x80 + c / 0x40 % 0x40, 0x80 + c % 0x40]
    else [0xF0 + c / 0x4_0000, 0x80 + c / 0x1000 % 0x40, 0x80 + c / 0x40 % 0x40, 0x80 + c % 0x40]
  }

  /** `text.encode()` */
  function EncodeText(text: seq<Rune>): bytes {
    if text == [] then [] else EncodeText(text[..|text| - 1]) + EncodeRune(text[|text| - 1])
  }

  ghost predicate IsText(b: bytes) {
    exists text :: EncodeText(text) == b
  }

  predicate IsContinuation(c: byte) {
    0x80 <= c < 0xC0
  }

  predicate IsAscii(b: bytes) {
    forall c :: c in b ==> c < 0x80
  }

  /** The bytes that start a character. */
  function CharCount(b: bytes): (n: nat)
    ensures n <= |b|
  {
    if b == [] then 0 else CharCount(b[..|b| - 1]) + if IsContinuation(b[|b| - 1]) then 0 else 1
  }

  lemma {:induction false} CharCountConcat(a: bytes, b: bytes)
    ensures CharCount(a + b) == CharCount(a) + CharCount(b)
    decreases |b|
  {
    if b == [] {
      assert a + b == a;
    } else {
      assert (a + b)[..|a + b| - 1] == a + b[..|b| - 1];
      CharCountConcat(a, b[..|b| - 1]);
    }
  }

  lemma RuneCount(c: Rune)
    ensures CharCount(EncodeRune(c)) == 1
    ensures IsAscii(EncodeRune(c)) <==> |EncodeRune(c)| == 1
  {
    var r := EncodeRune(c);
    assert r[0] in r;
    CharCountConcat([r[0]], r[1..]);
    assert [r[0]] + r[1..] == r;
    AllContinuation(r[1..]);
    assert CharCount([r[0]]) == 1 by { assert [r[0]][..0] == []; }
  }

  lemma {:induction false} AllContinuation(b: bytes)
    requires forall c :: c in b ==> IsContinuation(c)
    ensures CharCount(b) == 0
  {
    if b == [] {
    } else {
      assert b[|b| - 1] in b;
      AllContinuation(b[..|b| - 1]);
    }
  }

  /** Counting the bytes that start a character gives `len(text)`; it is the number of bytes exactly
      for ASCII text. */
  lemma {:induction false} TextCount(text: seq<Rune>)
    ensures CharCount(EncodeText(text)) == |text|
    ensures |text| == |EncodeText(text)| <==> IsAscii(EncodeText(text))
  {
    hide EncodeRune;
    if text == [] {
    } else {
      var init, c := text[..|text| - 1], text[|text| - 1];
      TextCount(init);
      RuneCount(c);
      CharCountConcat(EncodeText(init), EncodeRune(c));
      assert forall b :: b in EncodeText(text) <==> b in EncodeText(init) || b in EncodeRune(c);
    }
  }

  lemma {:induction false} AsciiCount(b: bytes)
    requires IsAscii(b)
    ensures CharCount(b) == |b|
  {
    if b == [] {
    } else {
      var init := b[..|b| - 1];
      assert b[|b| - 1] in b && forall c :: c in init ==> c in b;
      AsciiCount(init);
    }
  }

  lemma TextIsAsciiIff(b: bytes)
    requires IsText(b)
    ensures CharCount(b) == |b| <==> IsAscii(b)
  {
    var text :| EncodeText(text) == b;
    TextCount(text);
  }

  // ---- characters ----------------------------------------------------------------------

  /** The length of the first character; an ill-formed start counts up to the byte that breaks it, which
      is what one replacement character stands for. */
  function CharLength(b: bytes): (n: nat)
    requires b != []
    ensures 1 <= n <= |b| && n <= 4
  {
    if |b| == 1 || !SecondFits(b[0], b[1]) then 1
    else if b[0] < 0xE0 || |b| == 2 || !IsContinuation(b[2]) then 2
    else if b[0] < 0xF0 || |b| == 3 || !IsContinuation(b[3]) then 3
    else 4
  }

  /** The second bytes that a lead byte admits. */
  predicate SecondFits(lead: byte, second: byte) {
    if lead == 0xE0 then 0xA0 <= second < 0xC0
    else if lead == 0xED then 0x80 <= second < 0xA0
    else if lead == 0xF0 then 0x90 <= second < 0xC0
    else if lead == 0xF4 then 0x80 <= second < 0x90
    else 0xC2 <= lead < 0xF4 && IsContinuation(second)
  }

  /** `text[:n]`, as bytes. */
  function TakeChars(b: bytes, n: nat): (r: bytes)
    ensures r <= b
    decreases n
  {
    if n == 0 || b == [] then []
    else
      var k := CharLength(b);
      assert b == b[..k] + b[k..];
      b[..k] + TakeChars(b[k..], n - 1)
  }

  lemma FirstRune(c: Rune, rest: bytes)
    ensures CharLength(EncodeRune(c) + rest) == |EncodeRune(c)|
  {
    var r := EncodeRune(c);
    RunePrefix(r, rest);
    RuneBytes(c);
  }

  lemma RunePrefix(r: bytes, rest: bytes)
    ensures forall i :: 0 <= i < |r| ==> (r + rest)[i] == r[i]
  {
  }

  /** The bytes of a character fit one another. */
  lemma RuneBytes(c: Rune)
    ensures var r := EncodeRune(c);
      && (|r| == 1 ==> r[0] < 0x80)
      && (|r| > 1 ==> SecondFits(r[0], r[1]))
      && (|r| == 2 ==> r[0] < 0xE0)
      && (|r| > 2 ==> r[0] >= 0xE0 && IsContinuation(r[2]))
      && (|r| == 3 ==> r[0] < 0xF0)
      && (|r| > 3 ==> r[0] >= 0xF0 && IsContinuation(r[3]))
  {
    hide SecondFits;
    if 0x80 <= c < 0x800 {
      LeadOfTwo(c);
    } else if 0x800 <= c < 0x1_0000 {
      LeadOfThree(c);
    } else if c >= 0x1_0000 {
      LeadOfFour(c);
    }
  }

  lemma LeadOfTwo(c: Rune)
    requires 0x80 <= c < 0x800
    ensures SecondFits(0xC0 + c / 0x40, 0x80 + c % 0x40)
  {
  }

  lemma LeadOfThree(c: Rune)
    requires 0x800 <= c < 0x1_0000
    ensures SecondFits(0xE0 + c / 0x1000, 0x80 + c / 0x40 % 0x40)
  {
    assert c / 0x1000 == c / 0x40 / 0x40;
  }

  lemma LeadOfFour(c: Rune)
    requires 0x1_0000 <= c
    ensures SecondFits(0xF0 + c / 0x4_0000, 0x80 + c / 0x1000 % 0x40)
  {
    assert c / 0x4_0000 == c / 0x1000 / 0x40;
  }

  lemma EncodeLast(text: seq<Rune>, c: Rune)
    ensures EncodeText(text + [c]) == EncodeText(text) + EncodeRune(c)
  {
    hide EncodeRune;
    assert (text + [c])[..|text|] == text;
  }

  lemma {:induction false} EncodeFirst(c: Rune, text: seq<Rune>)
    ensures EncodeText([c] + text) == EncodeRune(c) + EncodeText(text)
  {
    hide EncodeRune, EncodeText;
    if text == [] {
      EncodeOne(c);
      assert [c] + text == [c];
    } else {
      var init, last := text[..|text| - 1], text[|text| - 1];
      var head := [c] + init;
      EncodeFirst(c, init);
      EncodeLast(init, last);
      EncodeLast(head, last);
      assert text == init + [last] && [c] + text == head + [last];
    }
  }

  lemma EncodeOne(c: Rune)
    ensures EncodeText([c]) == EncodeRune(c) + EncodeText([])
  {
    hide EncodeRune;
    assert [c][..0] == [];
    assert EncodeText([]) == [];
  }

  /** Taking characters takes characters of the text. */
  lemma {:induction false} TakeCharsOfText(text: seq<Rune>, n: nat)
    ensures TakeChars(EncodeText(text), n) == EncodeText(if n < |text| then text[..n] else text)
    decreases n
  {
    hide EncodeRune, CharLength;
    if n == 0 || text == [] {
      TakeNothing(text, n);
    } else {
      hide EncodeText, TakeChars;
      var c, rest := text[0], text[1..];
      TextHead(text);
      FirstRune(c, EncodeText(rest));
      TakeFirst(EncodeRune(c), EncodeText(rest), n);
      TakeCharsOfText(rest, n - 1);
      if n < |text| {
        TextHead(text[..n]);
        assert text[..n][1..] == rest[..n - 1];
      }
    }
  }

  lemma TextHead(text: seq<Rune>)
    requires text != []
    ensures EncodeText(text) == EncodeRune(text[0]) + EncodeText(text[1..])
  {
    hide EncodeText, EncodeRune;
    assert text == [text[0]] + text[1..];
    EncodeFirst(text[0], text[1..]);
  }

  lemma TakeNothing(text: seq<Rune>, n: nat)
    requires n == 0 || text == []
    ensures TakeChars(EncodeText(text), n) == EncodeText(if n < |text| then text[..n] else text)
  {
    assert EncodeText([]) == [];
    assert n < |text| ==> text[..n] == [];
  }

  lemma TakeFirst(first: bytes, rest: bytes, n: nat)
    requires n > 0 && first != [] && CharLength(first + rest) == |first|
    ensures TakeChars(first + rest, n) == first + TakeChars(rest, n - 1)
  {
    hide CharLength;
    var b := first + rest;
    assert b[..|first|] == first && b[|first|..] == rest;
  }

  lemma {:induction false} TakeAscii(b: bytes, n: nat)
    requires IsAscii(b)
    ensures TakeChars(b, n) == if n < |b| then b[..n] else b
    decreases n
  {
    if n == 0 || b == [] {
    } else {
      AsciiParts(b);
      hide TakeChars, IsAscii;
      var rest := b[1..];
      assert b == [b[0]] + rest;
      TakeFirst([b[0]], rest, n);
      TakeAscii(rest, n - 1);
      if n < |b| {
        assert b[..n] == [b[0]] + rest[..n - 1];
      }
    }
  }

  lemma AsciiParts(b: bytes)
    requires IsAscii(b) && b != []
    ensures IsAscii(b[1..]) && CharLength(b) == 1
  {
    assert b[0] in b && forall c :: c in b[1..] ==> c in b;
  }

  // ---- blanks --------------------------------------------------------------------------------

  /** The characters that `str.isspace` accepts. */
  predicate IsSpaceRune(c: Rune) {
    || 9 <= c <= 13 || 28 <= c <= 32 || c in {0x85, 0xA0, 0x1680, 0x2028, 0x2029, 0x202F, 0x205F, 0x3000}
    || 0x2000 <= c <= 0x200A
  }

  /** The length of the blank that `b` starts with, or 0. A lead byte never continues a character, so that
      these bytes are a blank wherever they stand. */
  function BlankLength(b: bytes): (n: nat)
    ensures n <= |b| && n <= 3
  {
    if b == [] then 0
    else if IsBlank(b[0]) then 1
    else if |b| >= 2 && b[0] == 0xC2 && b[1] in {0x85, 0xA0} then 2
    else if |b| >= 3 && IsLongBlank(b[0], b[1], b[2]) then 3
    else 0
  }

  predicate IsLongBlank(b0: byte, b1: byte, b2: byte) {
    || (b0 == 0xE1 && b1 == 0x9A && b2 == 0x80)
    || (b0 == 0xE2 && b1 == 0x80 && (0x80 <= b2 <= 0x8A || b2 in {0xA8, 0xA9, 0xAF}))
    || (b0 == 0xE2 && b1 == 0x81 && b2 == 0x9F)
    || (b0 == 0xE3 && b1 == 0x80 && b2 == 0x80)
  }

  /** A text starts with a blank exactly when its first character is one. */
  lemma BlankRune(c: Rune, rest: bytes)
    ensures BlankLength(EncodeRune(c) + rest) == if IsSpaceRune(c) then |EncodeRune(c)| else 0
  {
    var b := EncodeRune(c) + rest;
    assert forall i :: 0 <= i < |EncodeRune(c)| ==> b[i] == EncodeRune(c)[i];
  }

  /** The length of the blank that `b` ends with, or 0. */
  function BlankTail(b: bytes): (n: nat)
    ensures n <= |b|
  {
    if |b| >= 1 && BlankLength(b[|b| - 1..]) == 1 then 1
    else if |b| >= 2 && BlankLength(b[|b| - 2..]) == 2 then 2
    else if |b| >= 3 && BlankLength(b[|b| - 3..]) == 3 then 3
    else 0
  }

  function StripLeft(b: bytes): bytes
    decreases |b|
  {
    if BlankLength(b) > 0 then StripLeft(b[BlankLength(b)..]) else b
  }

  function StripRight(b: bytes): bytes
    decreases |b|
  {
    if BlankTail(b) > 0 then StripRight(b[..|b| - BlankTail(b)]) else b
  }

  /** `text.strip()` */
  function Strip(b: bytes): bytes {
    StripRight(StripLeft(b))
  }

  // ---- case ------------------------------------------------------------------------------------

  /** `text.upper()` as far as it is ASCII: ten characters become ASCII letters, all others beyond ASCII
      stay beyond ASCII and are left as they are. */
  function Upper(b: bytes): bytes
    decreases |b|
  {
    if b == [] then []
    else
      var (letters, n) := UpperFirst(b);
      letters + Upper(b[n..])
  }

  /** The first character in upper case, and its length. */
  function UpperFirst(b: bytes): (r: (bytes, nat))
    requires b != []
    ensures 1 <= r.1 <= |b|
  {
    if |b| >= 2 && b[0] == 0xC4 && b[1] == 0xB1 then ([73], 2)           // dotless i
    else if |b| >= 2 && b[0] == 0xC5 && b[1] == 0xBF then ([83], 2)      // long s
    else if |b| >= 2 && b[0] == 0xC3 && b[1] == 0x9F then ([83, 83], 2)  // sharp s
    else if |b| >= 3 && b[0] == 0xEF && b[1] == 0xAC && 0x80 <= b[2] <= 0x86 then (Ligature(b[2]), 3)
    else ([if 97 <= b[0] <= 122 then b[0] - 32 else b[0]], 1)
  }

  /** U+FB00 to U+FB06 */
  function Ligature(last: byte): bytes {
    match last
    case 0x80 => [70, 70]
    case 0x81 => [70, 73]
    case 0x82 => [70, 76]
    case 0x83 => [70, 70, 73]
    case 0x84 => [70, 70, 76]
    case _ => [83, 84]
  }

  /** The ASCII upper case of a character, if it has one. */
  function UpperRune(c: Rune): Option<bytes> {
    if 97 <= c <= 122 then Some([c - 32])
    else if c < 0x80 then Some([c])
    else if c == 0x131 then Some([73])
    else if c == 0x17F then Some([83])
    else if c == 0xDF then Some([83, 83])
    else if 0xFB00 <= c <= 0xFB06 then Some(Ligature(c - 0xFB00 + 0x80))
    else None
  }

  /** Upper-casing the bytes of a text upper-cases its first character. */
  lemma UpperOfRune(c: Rune, rest: bytes)
    ensures UpperRune(c).Some? ==>
      Upper(EncodeRune(c) + rest) == UpperRune(c).value + Upper(rest)
    ensures UpperRune(c).None? ==> UpperFirst(EncodeRune(c) + rest) == ([EncodeRune(c)[0]], 1) && EncodeRune(c)[0] >= 0x80
  {
    var b := EncodeRune(c) + rest;
    FirstUpper(c, rest);
    assert b[|EncodeRune(c)|..] == rest;
    hide EncodeRune, UpperFirst, UpperRune;
  }

  lemma FirstUpper(c: Rune, rest: bytes)
    ensures UpperFirst(EncodeRune(c) + rest) ==
      if UpperRune(c).Some? then (UpperRune(c).value, |EncodeRune(c)|) else ([EncodeRune(c)[0]], 1)
    ensures UpperRune(c).None? ==> EncodeRune(c)[0] >= 0x80
  {
    RunePrefix(EncodeRune(c), rest);
    RuneBytes(c);
    hide SecondFits;
    if 0x80 <= c < 0x800 {
      UpperOfTwo(c);
    } else if 0x800 <= c < 0x1_0000 {
      UpperOfThree(c);
    }
  }

  lemma UpperOfTwo(c: Rune)
    requires 0x80 <= c < 0x800
    ensures var (lead, last) := (0xC0 + c / 0x40, 0x80 + c % 0x40);
      && (c == 0x131 <==> lead == 0xC4 && last == 0xB1)
      && (c == 0x17F <==> lead == 0xC5 && last == 0xBF)
      && (c == 0xDF <==> lead == 0xC3 && last == 0x9F)
  {
  }

  lemma UpperOfThree(c: Rune)
    requires 0x800 <= c < 0x1_0000
    ensures var (lead, second, last) := (0xE0 + c / 0x1000, 0x80 + c / 0x40 % 0x40, 0x80 + c % 0x40);
      && (0xFB00 <= c <= 0xFB06 <==> lead == 0xEF && second == 0xAC && 0x80 <= last <= 0x86)
      && (0xFB00 <= c <= 0xFB06 ==> last == c - 0xFB00 + 0x80)
  {
    assert c / 0x1000 == c / 0x40 / 0x40;
  }

  // ---- what stripping removes -------------------------------------------------------------

  /** Blanks, one behind the other. */
  predicate AllBlank(b: bytes)
    decreases |b|
  {
    b == [] || (BlankLength(b) > 0 && AllBlank(b[BlankLength(b)..]))
  }

  /** What follows a blank does not change it. */
  lemma BlankStays(b: bytes, more: bytes)
    ensures BlankLength(b) > 0 ==> BlankLength(b + more) == BlankLength(b)
  {
  }

  lemma {:induction false} AllBlankAdd(a: bytes, b: bytes)
    requires AllBlank(a) && AllBlank(b)
    ensures AllBlank(a + b)
    decreases |a|
  {
    hide BlankLength;
    if a == [] {
      assert a + b == b;
    } else {
      var n := BlankLength(a);
      BlankStays(a, b);
      assert (a + b)[n..] == a[n..] + b;
      AllBlankAdd(a[n..], b);
    }
  }

  lemma TailIsBlank(b: bytes)
    requires BlankTail(b) > 0
    ensures AllBlank(b[|b| - BlankTail(b)..])
  {
    var t := b[|b| - BlankTail(b)..];
    assert BlankLength(t) == |t|;
    assert t[|t|..] == [];
  }

  lemma {:induction false} StripLeftSplits(b: bytes) returns (pre: bytes)
    ensures b == pre + StripLeft(b) && AllBlank(pre) && BlankLength(StripLeft(b)) == 0
    decreases |b|
  {
    hide BlankLength, AllBlank;
    assert AllBlank([]) by { NothingIsBlank(); }
    var n := BlankLength(b);
    if n > 0 {
      var rest := StripLeftSplits(b[n..]);
      pre := b[..n] + rest;
      FirstIsBlank(b);
      AllBlankAdd(b[..n], rest);
    } else {
      pre := [];
    }
  }

  lemma NothingIsBlank()
    ensures AllBlank([])
  {
  }

  lemma FirstIsBlank(b: bytes)
    requires BlankLength(b) > 0
    ensures AllBlank(b[..BlankLength(b)])
  {
    var t := b[..BlankLength(b)];
    assert BlankLength(t) == |t| && t[|t|..] == [];
  }

  lemma {:induction false} StripRightSplits(b: bytes) returns (post: bytes)
    ensures b == StripRight(b) + post && AllBlank(post) && BlankTail(StripRight(b)) == 0
    decreases |b|
  {
    hide BlankTail, AllBlank;
    assert AllBlank([]) by { NothingIsBlank(); }
    var n := |b| - BlankTail(b);
    if n < |b| {
      var rest := StripRightSplits(b[..n]);
      post := rest + b[n..];
      TailIsBlank(b);
      AllBlankAdd(rest, b[n..]);
    } else {
      post := [];
    }
  }

  /** Stripping removes blanks at both ends, and all of them. */
  lemma StripSplits(b: bytes) returns (pre: bytes, post: bytes)
    ensures b == pre + Strip(b) + post && AllBlank(pre) && AllBlank(post)
    ensures BlankLength(Strip(b)) == 0 && BlankTail(Strip(b)) == 0
  {
    hide AllBlank, BlankTail, StripLeft, StripRight;
    pre := StripLeftSplits(b);
    post := StripRightSplits(StripLeft(b));
    if BlankLength(Strip(b)) > 0 {
      BlankStays(Strip(b), post);
    }
  }
}
