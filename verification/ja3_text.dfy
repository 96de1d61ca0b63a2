/** The JA3 string (services/http/ja3.py, lines 163-169) and a decoder that undoes it. */
module Ja3Text {
  import opened Bytes
  import opened Ja3
  import Decimal

  const COMMA: byte := 44
  const DASH: byte := 45

  /** `sep.join(parts)` */
  function Join(parts: seq<bytes>, sep: byte): bytes {
    if parts == [] then []
    else if |parts| == 1 then parts[0]
    else parts[0] + [sep] + Join(parts[1..], sep)
  }

  function Numbers(values: seq<nat>): (r: seq<bytes>)
    ensures |r| == |values|
  {
    seq(|values|, i requires 0 <= i < |values| => Decimal.Print(values[i]))
  }

  function Dashed(values: seq<nat>): bytes {
    Join(Numbers(values), DASH)
  }

  function Ja3String(j: Ja3): bytes {
    Join([Decimal.Print(j.version), Dashed(j.ciphers), Dashed(j.extensions), Dashed(j.curves), Dashed(j.formats)], COMMA)
  }

  // ---- decoding --------------------------------------------------------------------

  /** `b.split(sep)`: the pieces between the separators, at least one. */
  function Split(b: bytes, sep: byte): (r: seq<bytes>)
    ensures |r| >= 1
  {
    if b == [] then [[]]
    else
      var rest := Split(b[1..], sep);
      if b[0] == sep then [[]] + rest else [[b[0]] + rest[0]] + rest[1..]
  }

  function ReadNumber(b: bytes): nat {
    if forall c :: c in b ==> Decimal.IsDigit(c) then Decimal.Value(b) else 0
  }

  function ReadNumbers(parts: seq<bytes>): (r: seq<nat>)
    ensures |r| == |parts|
  {
    seq(|parts|, i requires 0 <= i < |parts| => ReadNumber(parts[i]))
  }

  function ReadDashed(b: bytes): seq<nat> {
    if b == [] then [] else ReadNumbers(Split(b, DASH))
  }

  function Decode(b: bytes): Option<Ja3> {
    var fields := Split(b, COMMA);
    if |fields| != 5 then None
    else Some(Ja3(ReadNumber(fields[0]), ReadDashed(fields[1]), ReadDashed(fields[2]),
                  ReadDashed(fields[3]), ReadDashed(fields[4])))
  }

  // ---- the decoder undoes the printer --------------------------------------------------

  predicate Free(b: bytes, sep: byte) {
    forall c :: c in b ==> c != sep
  }

  lemma {:induction false} SplitHead(x: bytes, sep: byte, y: bytes)
    requires Free(x, sep)
    ensures Split(x + [sep] + y, sep) == [x] + Split(y, sep)
  {
    if x == [] {
      assert (x + [sep] + y)[1..] == y;
    } else {
      assert x[0] in x && forall c :: c in x[1..] ==> c in x;
      assert (x + [sep] + y)[1..] == x[1..] + [sep] + y;
      SplitHead(x[1..], sep, y);
      assert [x[0]] + x[1..] == x;
    }
  }

  lemma {:induction false} SplitWhole(x: bytes, sep: byte)
    requires Free(x, sep)
    ensures Split(x, sep) == [x]
  {
    if x == [] {
    } else {
      assert x[0] in x && forall c :: c in x[1..] ==> c in x;
      SplitWhole(x[1..], sep);
      assert [x[0]] + x[1..] == x;
    }
  }

  lemma {:induction false} SplitJoin(parts: seq<bytes>, sep: byte)
    requires parts != [] && forall p :: p in parts ==> Free(p, sep)
    ensures Split(Join(parts, sep), sep) == parts
    decreases |parts|
  {
    hide Split, Free;
    assert parts[0] in parts;
    if |parts| == 1 {
      SplitWhole(parts[0], sep);
    } else {
      SplitHead(parts[0], sep, Join(parts[1..], sep));
      SplitJoin(parts[1..], sep);
    }
  }

  lemma {:induction false} JoinFree(parts: seq<bytes>, sep: byte, other: byte)
    requires sep != other && forall p :: p in parts ==> Free(p, other)
    ensures Free(Join(parts, sep), other)
    decreases |parts|
  {
    if parts == [] {
    } else {
      assert parts[0] in parts;
      if |parts| > 1 {
        JoinFree(parts[1..], sep, other);
      }
    }
  }

  lemma NumberFree(n: nat, sep: byte)
    requires !Decimal.IsDigit(sep)
    ensures Free(Decimal.Print(n), sep)
  {
  }

  lemma NumbersFree(values: seq<nat>, sep: byte)
    requires !Decimal.IsDigit(sep)
    ensures forall p :: p in Numbers(values) ==> Free(p, sep)
  {
    hide Free, Decimal.Print;
    forall i | 0 <= i < |values| ensures Free(Numbers(values)[i], sep) {
      NumberFree(values[i], sep);
    }
  }

  lemma ReadPrinted(n: nat)
    ensures ReadNumber(Decimal.Print(n)) == n
  {
    Decimal.ValueOfPrint(n);
  }

  lemma DashedFree(values: seq<nat>)
    ensures Free(Dashed(values), COMMA)
  {
    hide Free, Join;
    NumbersFree(values, COMMA);
    JoinFree(Numbers(values), DASH, COMMA);
  }

  lemma JoinNonEmpty(parts: seq<bytes>, sep: byte)
    requires parts != [] && parts[0] != []
    ensures Join(parts, sep) != []
  {
  }

  lemma ReadDashedList(values: seq<nat>)
    ensures ReadDashed(Dashed(values)) == values
  {
    hide Join, Split, Free, ReadNumber, Decimal.Print;
    if values == [] {
      assert Dashed(values) == [] by { JoinOfNone(DASH); }
    } else {
      NumbersFree(values, DASH);
      SplitJoin(Numbers(values), DASH);
      JoinNonEmpty(Numbers(values), DASH);
      forall i | 0 <= i < |values| ensures ReadNumbers(Numbers(values))[i] == values[i] {
        ReadPrinted(values[i]);
      }
    }
  }

  lemma JoinOfNone(sep: byte)
    ensures Join([], sep) == [] && Numbers([]) == []
  {
  }

  lemma DecodeString(j: Ja3)
    ensures Decode(Ja3String(j)) == Some(j)
  {
    hide Join, Split, Free, ReadNumber, ReadDashed, Dashed, Decimal.Print;
    var fields := [Decimal.Print(j.version), Dashed(j.ciphers), Dashed(j.extensions), Dashed(j.curves), Dashed(j.formats)];
    NumberFree(j.version, COMMA);
    DashedFree(j.ciphers);
    DashedFree(j.extensions);
    DashedFree(j.curves);
    DashedFree(j.formats);
    SplitJoin(fields, COMMA);
    ReadPrinted(j.version);
    ReadDashedList(j.ciphers);
    ReadDashedList(j.extensions);
    ReadDashedList(j.curves);
    ReadDashedList(j.formats);
  }

  /** The string identifies the fingerprint: empty lists, and which list a number is in, included. */
  lemma Ja3StringInjective(a: Ja3, b: Ja3)
    ensures Ja3String(a) == Ja3String(b) <==> a == b
  {
    hide Ja3String, Decode;
    DecodeString(a);
    DecodeString(b);
  }

  // ---- the characters of the string -----------------------------------------------------

  function Occurrences(b: bytes, c: byte): nat {
    if b == [] then 0 else Occurrences(b[..|b| - 1], c) + if b[|b| - 1] == c then 1 else 0
  }

  lemma {:induction false} OccurrencesConcat(a: bytes, b: bytes, c: byte)
    ensures Occurrences(a + b, c) == Occurrences(a, c) + Occurrences(b, c)
    decreases |b|
  {
    if b == [] {
      assert a + b == a;
    } else {
      assert (a + b)[..|a + b| - 1] == a + b[..|b| - 1];
      OccurrencesConcat(a, b[..|b| - 1], c);
    }
  }

  lemma {:induction false} NoOccurrence(b: bytes, c: byte)
    requires Free(b, c)
    ensures Occurrences(b, c) == 0
  {
    if b == [] {
    } else {
      var init := b[..|b| - 1];
      forall x | x in init ensures x != c {
        assert x in b;
      }
      assert b[|b| - 1] in b;
      NoOccurrence(init, c);
    }
  }

  lemma OneOccurrence(sep: byte, c: byte)
    ensures Occurrences([sep], c) == if sep == c then 1 else 0
  {
    assert [sep][..0] == [];
  }

  /** Between parts that hold no `c` only the separators can. */
  lemma {:induction false} JoinOccurrences(parts: seq<bytes>, sep: byte, c: byte)
    requires parts != [] && forall p :: p in parts ==> Free(p, c)
    ensures Occurrences(Join(parts, sep), c) == if sep == c then |parts| - 1 else 0
    decreases |parts|
  {
    hide Occurrences, Free;
    assert parts[0] in parts;
    NoOccurrence(parts[0], c);
    if |parts| > 1 {
      JoinOccurrences(parts[1..], sep, c);
      OneOccurrence(sep, c);
      OccurrencesConcat(parts[0] + [sep], Join(parts[1..], sep), c);
      OccurrencesConcat(parts[0], [sep], c);
    }
  }

  lemma DashedOccurrences(values: seq<nat>, c: byte)
    requires !Decimal.IsDigit(c)
    ensures Occurrences(Dashed(values), c) == if c == 45 && |values| > 1 then |values| - 1 else 0
  {
    hide Occurrences, Join, Free;
    NumbersFree(values, c);
    if values == [] {
      JoinOfNone(DASH);
      assert Occurrences([], c) == 0 by { NoOccurrence([], c); }
    } else {
      JoinOccurrences(Numbers(values), DASH, c);
    }
  }

  function Links(values: seq<nat>): nat {
    if |values| > 1 then |values| - 1 else 0
  }

  /** The string holds four commas, a dash between any two numbers of a list, and digits. */
  lemma StringCharacters(j: Ja3, c: byte)
    requires !Decimal.IsDigit(c)
    ensures Occurrences(Ja3String(j), c) ==
      if c == 44 then 4
      else if c == 45 then Links(j.ciphers) + Links(j.extensions) + Links(j.curves) + Links(j.formats) else 0
  {
    hide Occurrences, Join, Free, Dashed, Decimal.Print;
    var fields := [Decimal.Print(j.version), Dashed(j.ciphers), Dashed(j.extensions), Dashed(j.curves), Dashed(j.formats)];
    NumberFree(j.version, c);
    NoOccurrence(Decimal.Print(j.version), c);
    DashedOccurrences(j.ciphers, c);
    DashedOccurrences(j.extensions, c);
    DashedOccurrences(j.curves, c);
    DashedOccurrences(j.formats, c);
    OneOccurrence(COMMA, c);
    FiveJoined(fields, COMMA, c);
  }

  lemma FiveJoined(f: seq<bytes>, sep: byte, c: byte)
    requires |f| == 5
    ensures Occurrences(Join(f, sep), c) ==
      Occurrences(f[0], c) + Occurrences(f[1], c) + Occurrences(f[2], c) + Occurrences(f[3], c) + Occurrences(f[4], c)
      + 4 * Occurrences([sep], c)
  {
    hide Occurrences;
    JoinTwo(f, sep, c);
    JoinTwo(f[1..], sep, c);
    JoinTwo(f[2..], sep, c);
    JoinTwo(f[3..], sep, c);
    assert f[4..] == [f[4]] && Join([f[4]], sep) == f[4];
    assert f[1..][1..] == f[2..] && f[2..][1..] == f[3..] && f[3..][1..] == f[4..];
    hide Join;
  }

  lemma JoinTwo(f: seq<bytes>, sep: byte, c: byte)
    requires |f| > 1
    ensures Occurrences(Join(f, sep), c) == Occurrences(f[0], c) + Occurrences([sep], c) + Occurrences(Join(f[1..], sep), c)
  {
    hide Occurrences;
    OccurrencesConcat(f[0] + [sep], Join(f[1..], sep), c);
    OccurrencesConcat(f[0], [sep], c);
  }
}
