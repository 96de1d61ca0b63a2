/** A printer for ClientHello records, against which the JA3 parser is proved: section 7.4.1.2 of
    RFC 5246, sections 5.1.1 and 5.1.2 of RFC 8422, section 3 of RFC 6066. */
module ClientHello {
  import opened Bytes
  import opened Ja3

  type u16 = n: nat | n < 65536

  datatype Extension =
    | Groups(curves: seq<u16>)
    | Formats(formats: seq<byte>)
    | ServerName(name: bytes)
    | Opaque(kind: u16, payload: bytes)

  datatype Hello = Hello(
    recordVersion: bytes, version: u16, random: bytes, sessionId: bytes,
    ciphers: seq<u16>, compression: bytes, extensions: Option<seq<Extension>>)

  // ---- printing ------------------------------------------------------------------

  function U8(n: nat): bytes
    requires n < 256
  {
    [n]
  }

  function U16(n: nat): (r: bytes)
    requires n < 65536
    ensures |r| == 2
  {
    [n / 256, n % 256]
  }

  function PrintU16s(values: seq<u16>): (r: bytes)
    ensures |r| == 2 * |values|
  {
    if values == [] then [] else PrintU16s(values[..|values| - 1]) + U16(values[|values| - 1])
  }

  function Kind(e: Extension): u16 {
    match e
    case Groups(_) => 10
    case Formats(_) => 11
    case ServerName(_) => 0
    case Opaque(kind, _) => kind
  }

  /** Every length fits its field, and an opaque extension is none of the three kinds above. */
  predicate Printable(e: Extension) {
    match e
    case Groups(curves) => 2 * |curves| + 2 < 65536
    case Formats(formats) => |formats| < 256
    case ServerName(name) => |name| + 5 < 65536
    case Opaque(kind, payload) => |payload| < 65536 && kind !in {0, 10, 11}
  }

  function Payload(e: Extension): (r: bytes)
    requires Printable(e)
    ensures |r| < 65536
  {
    match e
    case Groups(curves) => U16(2 * |curves|) + PrintU16s(curves)
    case Formats(formats) => U8(|formats|) + formats
    case ServerName(name) => U16(|name| + 3) + U8(0) + U16(|name|) + name
    case Opaque(_, payload) => payload
  }

  function PrintExtension(e: Extension): bytes
    requires Printable(e)
  {
    U16(Kind(e)) + U16(|Payload(e)|) + Payload(e)
  }

  predicate AllPrintable(es: seq<Extension>) {
    forall e :: e in es ==> Printable(e)
  }

  function PrintExtensions(es: seq<Extension>): bytes
    requires AllPrintable(es)
  {
    if es == [] then [] else PrintExtension(es[0]) + PrintExtensions(es[1..])
  }

  predicate BlockPrintable(es: Option<seq<Extension>>) {
    es.Some? ==> AllPrintable(es.value) && |PrintExtensions(es.value)| < 65536
  }

  function PrintBlock(es: Option<seq<Extension>>): bytes
    requires BlockPrintable(es)
  {
    match es
    case None => []
    case Some(list) => U16(|PrintExtensions(list)|) + PrintExtensions(list)
  }

  predicate WellFormed(h: Hello) {
    && |h.recordVersion| == 2 && |h.random| == 32 && |h.sessionId| < 256 && |h.compression| < 256
    && 2 * |h.ciphers| < 65536 && BlockPrintable(h.extensions) && 4 + |PrintBody(h)| < 65536
  }

  function PrintTail(h: Hello): bytes
    requires |h.compression| < 256 && BlockPrintable(h.extensions)
  {
    U8(|h.compression|) + h.compression + PrintBlock(h.extensions)
  }

  function PrintBody(h: Hello): bytes
    requires |h.sessionId| < 256 && |h.compression| < 256 && 2 * |h.ciphers| < 65536 && BlockPrintable(h.extensions)
  {
    U16(h.version) + h.random + U8(|h.sessionId|) + h.sessionId
      + U16(2 * |h.ciphers|) + PrintU16s(h.ciphers) + PrintTail(h)
  }

  /** The record: its header, the handshake header and the ClientHello. */
  function Print(h: Hello): bytes
    requires WellFormed(h)
  {
    var body := PrintBody(h);
    U8(0x16) + h.recordVersion + U16(4 + |body|) + U8(0x01) + U8(0) + U16(|body|) + body
  }

  // ---- what the fingerprint should say ----------------------------------------------

  /** Later extensions of a kind override earlier ones; an empty server name counts as none. */
  function Collect(seen: Seen, es: seq<Extension>): Seen
    decreases |es|
  {
    if es == [] then seen else Collect(CollectOne(seen, es[0]), es[1..])
  }

  function CollectOne(seen: Seen, e: Extension): Seen {
    var s := seen.(extensions := seen.extensions + [Kind(e)]);
    match e
    case Groups(curves) => s.(curves := curves)
    case Formats(formats) => s.(formats := formats)
    case ServerName(name) => s.(sni := if name == [] then None else Some(name))
    case Opaque(_, _) => s
  }

  function Listed(h: Hello): seq<Extension> {
    if h.extensions.Some? then h.extensions.value else []
  }

  function Expected(h: Hello): Outcome {
    Finish(h.version, h.ciphers, Some(Collect(NOTHING, Listed(h))))
  }

  // ---- reading back what was printed ---------------------------------------------------

  /** `x` stands in `b` at `pos`. */
  predicate At(b: bytes, pos: nat, x: bytes) {
    pos + |x| <= |b| && b[pos..pos + |x|] == x
  }

  lemma AtSplit(b: bytes, pos: nat, x: bytes, y: bytes)
    requires At(b, pos, x + y)
    ensures At(b, pos, x) && At(b, pos + |x|, y)
  {
    assert b[pos..pos + |x + y|][..|x|] == x;
    assert b[pos..pos + |x + y|][|x|..] == y;
  }

  lemma AtU8(b: bytes, pos: nat, n: nat)
    requires n < 256 && At(b, pos, U8(n))
    ensures U8At(b, pos) == n
  {
    assert b[pos..pos + 1][0] == n;
  }

  lemma AtU16(b: bytes, pos: nat, n: nat)
    requires n < 65536 && At(b, pos, U16(n))
    ensures U16At(b, pos) == n
  {
    assert b[pos..pos + 2][0] == n / 256 && b[pos..pos + 2][1] == n % 256;
  }

  lemma {:induction false} AtU16s(b: bytes, pos: nat, values: seq<u16>)
    requires At(b, pos, PrintU16s(values))
    ensures U16s(b, pos, |values|) == values
  {
    hide U16, U16At, At;
    if values == [] {
      AtEnds(b, pos, PrintU16s(values));
    } else {
      var init, v := values[..|values| - 1], values[|values| - 1];
      AtSplit(b, pos, PrintU16s(init), U16(v));
      AtEnds(b, pos, PrintU16s(values));
      AtU16s(b, pos, init);
      AtU16(b, pos + 2 * |init|, v);
    }
  }

  lemma AtEnds(b: bytes, pos: nat, x: bytes)
    requires At(b, pos, x)
    ensures pos + |x| <= |b|
  {
  }

  lemma AtSlice(b: bytes, pos: nat, x: bytes)
    requires At(b, pos, x)
    ensures Slice(b, pos, pos + |x|) == x
  {
  }

  lemma AtWhole(x: bytes, rest: bytes)
    ensures At(x, 0, x) && At(x + rest, 0, x)
  {
  }

  lemma GroupsPrinted(curves: seq<u16>)
    requires 2 * |curves| + 2 < 65536
    ensures var data := U16(2 * |curves|) + PrintU16s(curves);
      && U16At(data, 0) == 2 * |curves| && !GroupsOverrun(data) && U16s(data, 2, |curves|) == curves
  {
    hide U16, PrintU16s, At, U16At, U16s, GroupsOverrun;
    var data := U16(2 * |curves|) + PrintU16s(curves);
    AtWhole(data, []);
    AtSplit(data, 0, U16(2 * |curves|), PrintU16s(curves));
    AtU16(data, 0, 2 * |curves|);
    AtU16s(data, 2, curves);
    GroupsFit(data, |curves|);
  }

  lemma GroupsFit(data: bytes, n: nat)
    requires |data| == 2 + 2 * n && U16At(data, 0) == 2 * n
    ensures !GroupsOverrun(data)
  {
    hide U16At;
    assert (2 * n + 1) / 2 == n;
  }

  lemma FormatsPrinted(formats: seq<byte>)
    requires |formats| < 256
    ensures var data := U8(|formats|) + formats; U8At(data, 0) == |formats| && Slice(data, 1, 1 + |formats|) == formats
  {
    var data := U8(|formats|) + formats;
    AtWhole(data, []);
    AtSplit(data, 0, U8(|formats|), formats);
    AtSlice(data, 1, formats);
  }

  lemma NamePrinted(name: bytes)
    requires |name| + 5 < 65536
    ensures var data := U16(|name| + 3) + U8(0) + U16(|name|) + name;
      U16At(data, 3) == |name| && Slice(data, 5, 5 + |name|) == name
  {
    hide U16, At, U16At, Slice;
    var head := U16(|name| + 3) + U8(0);
    var data := head + U16(|name|) + name;
    AtWhole(data, []);
    AtSplit(data, 0, head + U16(|name|), name);
    AtSplit(data, 0, head, U16(|name|));
    AtU16(data, 3, |name|);
    AtSlice(data, 5, name);
  }

  lemma NotePrinted(e: Extension, seen: Seen)
    requires Printable(e)
    ensures Note(Kind(e), Payload(e), seen) == Some(CollectOne(seen, e))
  {
    hide U16, U16At, PrintU16s, U16s, Slice, GroupsOverrun;
    match e {
      case Groups(curves) => GroupsPrinted(curves);
      case Formats(formats) => FormatsPrinted(formats);
      case ServerName(name) => NamePrinted(name);
      case Opaque(_, _) =>
    }
  }

  lemma WalkPrintedOne(b: bytes, pos: nat, extEnd: nat, e: Extension, seen: Seen)
    requires Printable(e) && At(b, pos, PrintExtension(e)) && pos + |PrintExtension(e)| <= extEnd <= |b|
    ensures Walk(b, pos, extEnd, seen) == Walk(b, pos + |PrintExtension(e)|, extEnd, CollectOne(seen, e))
  {
    hide U16, U16At, Payload, Note, Slice;
    AtSplit(b, pos, U16(Kind(e)) + U16(|Payload(e)|), Payload(e));
    AtSplit(b, pos, U16(Kind(e)), U16(|Payload(e)|));
    AtU16(b, pos, Kind(e));
    AtU16(b, pos + 2, |Payload(e)|);
    AtSlice(b, pos + 4, Payload(e));
    NotePrinted(e, seen);
  }

  lemma {:induction false} WalkPrinted(b: bytes, pos: nat, es: seq<Extension>, seen: Seen)
    requires AllPrintable(es) && At(b, pos, PrintExtensions(es))
    ensures pos + |PrintExtensions(es)| <= |b|
    ensures Walk(b, pos, pos + |PrintExtensions(es)|, seen) == Some(Collect(seen, es))
    decreases |es|
  {
    hide PrintExtension, Printable, At, Note, U16At, Slice, CollectOne;
    AtEnds(b, pos, PrintExtensions(es));
    if es == [] {
    } else {
      AtSplit(b, pos, PrintExtension(es[0]), PrintExtensions(es[1..]));
      WalkPrintedOne(b, pos, pos + |PrintExtensions(es)|, es[0], seen);
      WalkPrinted(b, pos + |PrintExtension(es[0])|, es[1..], CollectOne(seen, es[0]));
    }
  }

  lemma BlockPrinted(b: bytes, pos: nat, es: Option<seq<Extension>>)
    requires BlockPrintable(es) && At(b, pos, PrintBlock(es))
    ensures var end := pos + |PrintBlock(es)|;
      end <= |b| && WalkBlock(b, pos, end) == Some(Collect(NOTHING, if es.Some? then es.value else []))
  {
    hide U16, Walk, At, PrintExtensions, AllPrintable;
    AtEnds(b, pos, PrintBlock(es));
    if es.Some? {
      AtSplit(b, pos, U16(|PrintExtensions(es.value)|), PrintExtensions(es.value));
      AtU16(b, pos, |PrintExtensions(es.value)|);
      WalkPrinted(b, pos + 2, es.value, NOTHING);
    }
  }

  lemma CiphersPrinted(b: bytes, pos: nat, h: Hello)
    requires WellFormed(h)
    requires At(b, pos, U16(2 * |h.ciphers|) + PrintU16s(h.ciphers) + PrintTail(h))
    ensures var end := pos + 2 + 2 * |h.ciphers| + |PrintTail(h)|;
      end <= |b| && ParseCiphers(b, pos, end, h.version) == Expected(h)
  {
    hide U16, U16At, U16s, PrintU16s, PrintBlock, WalkBlock, At, BlockPrintable, Finish, PrintBody;
    var n := |h.ciphers|;
    AtSplit(b, pos, U16(2 * n) + PrintU16s(h.ciphers), PrintTail(h));
    AtSplit(b, pos, U16(2 * n), PrintU16s(h.ciphers));
    AtU16(b, pos, 2 * n);
    AtU16s(b, pos + 2, h.ciphers);
    var comp := pos + 2 + 2 * n;
    AtSplit(b, comp, U8(|h.compression|) + h.compression, PrintBlock(h.extensions));
    AtSplit(b, comp, U8(|h.compression|), h.compression);
    AtU8(b, comp, |h.compression|);
    BlockPrinted(b, comp + 1 + |h.compression|, h.extensions);
  }

  /** The record's fields stand where the parser looks for them. */
  lemma HeadPrinted(b: bytes, h: Hello)
    requires WellFormed(h) && At(b, 0, Print(h))
    ensures |b| >= |Print(h)| == 9 + |PrintBody(h)|
    ensures b[0] == HANDSHAKE_RECORD && b[5] == CLIENT_HELLO && U16At(b, 3) == 4 + |PrintBody(h)|
    ensures At(b, 9, PrintBody(h))
  {
    hide U16, PrintBody, At;
    var body := PrintBody(h);
    var fields := U8(0x16) + h.recordVersion + U16(4 + |body|) + U8(0x01) + U8(0) + U16(|body|);
    AtEnds(b, 0, Print(h));
    AtSplit(b, 0, fields, body);
    AtSplit(b, 0, U8(0x16) + h.recordVersion + U16(4 + |body|) + U8(0x01) + U8(0), U16(|body|));
    AtSplit(b, 0, U8(0x16) + h.recordVersion + U16(4 + |body|) + U8(0x01), U8(0));
    AtSplit(b, 0, U8(0x16) + h.recordVersion + U16(4 + |body|), U8(0x01));
    AtSplit(b, 0, U8(0x16) + h.recordVersion, U16(4 + |body|));
    AtSplit(b, 0, U8(0x16), h.recordVersion);
    AtU8(b, 0, 0x16);
    AtU16(b, 3, 4 + |body|);
    AtU8(b, 5, 0x01);
  }

  lemma BodyPrinted(b: bytes, h: Hello)
    requires WellFormed(h) && At(b, 9, PrintBody(h))
    ensures |b| >= 9 + |PrintBody(h)| >= 44 && U16At(b, 9) == h.version && U8At(b, 43) == |h.sessionId|
    ensures ParseCiphers(b, 44 + |h.sessionId|, 9 + |PrintBody(h)|, h.version) == Expected(h)
  {
    hide U16, At, PrintU16s, PrintTail, ParseCiphers, BlockPrintable, Expected;
    var suites := U16(2 * |h.ciphers|) + PrintU16s(h.ciphers) + PrintTail(h);
    var head := U16(h.version) + h.random + U8(|h.sessionId|) + h.sessionId;
    AtEnds(b, 9, PrintBody(h));
    assert PrintBody(h) == head + suites;
    AtSplit(b, 9, head, suites);
    AtSplit(b, 9, U16(h.version) + h.random + U8(|h.sessionId|), h.sessionId);
    AtSplit(b, 9, U16(h.version) + h.random, U8(|h.sessionId|));
    AtSplit(b, 9, U16(h.version), h.random);
    AtU16(b, 9, h.version);
    AtU8(b, 43, |h.sessionId|);
    CiphersPrinted(b, 44 + |h.sessionId|, h);
  }

  /** Every well-formed record, whatever follows it on the wire, parses to its version, server name
      and point formats and to its cipher suites, extension types and groups without GREASE. */
  lemma RoundTrip(h: Hello, trailing: bytes)
    requires WellFormed(h)
    ensures Parse(Print(h) + trailing) == Expected(h)
  {
    hide Print, PrintBody, At, WellFormed, ParseCiphers, Expected;
    var b := Print(h) + trailing;
    AtWhole(Print(h), trailing);
    HeadPrinted(b, h);
    BodyPrinted(b, h);
  }

  // ---- GREASE does not show --------------------------------------------------------------

  predicate IsGrease(e: Extension) {
    Kind(e) in GREASE
  }

  function Plain(e: Extension): Extension {
    if e.Groups? then Groups(StripGrease(e.curves)) else e
  }

  /** The extensions without the GREASE among them and without the GREASE groups. */
  function WithoutGrease(es: seq<Extension>): seq<Extension> {
    if es == [] then []
    else
      var rest := WithoutGrease(es[1..]);
      if IsGrease(es[0]) then rest
      else [Plain(es[0])] + rest
  }

  function Visible(s: Seen): Seen {
    s.(extensions := StripGrease(s.extensions), curves := StripGrease(s.curves))
  }

  lemma StripOnce(values: seq<nat>, v: nat)
    ensures StripGrease(values + [v]) == if v in GREASE then StripGrease(values) else StripGrease(values) + [v]
  {
    assert (values + [v])[..|values|] == values;
  }

  lemma {:induction false} StripTwice(values: seq<nat>)
    ensures StripGrease(StripGrease(values)) == StripGrease(values)
  {
    if values == [] {
    } else {
      StripTwice(values[..|values| - 1]);
      StripOnce(StripGrease(values[..|values| - 1]), values[|values| - 1]);
    }
  }

  lemma CollectVisible(a: Seen, b: Seen, e: Extension)
    requires Visible(a) == Visible(b)
    ensures IsGrease(e) ==> Visible(CollectOne(a, e)) == Visible(b)
    ensures !IsGrease(e) ==> Visible(CollectOne(a, e)) == Visible(CollectOne(b, Plain(e)))
  {
    hide StripGrease;
    StripOnce(a.extensions, Kind(e));
    StripOnce(b.extensions, Kind(e));
    if e.Groups? {
      StripTwice(e.curves);
    }
  }

  lemma {:induction false} CollectWithoutGrease(es: seq<Extension>, a: Seen, b: Seen)
    requires Visible(a) == Visible(b)
    ensures Visible(Collect(a, es)) == Visible(Collect(b, WithoutGrease(es)))
    decreases |es|
  {
    hide Visible, CollectOne, IsGrease, Plain;
    if es == [] {
    } else {
      CollectVisible(a, b, es[0]);
      if IsGrease(es[0]) {
        CollectWithoutGrease(es[1..], CollectOne(a, es[0]), b);
      } else {
        assert WithoutGrease(es) == [Plain(es[0])] + WithoutGrease(es[1..]);
        CollectWithoutGrease(es[1..], CollectOne(a, es[0]), CollectOne(b, Plain(es[0])));
      }
    }
  }

  /** Two records that differ only in GREASE cipher suites, groups and extensions, wherever these
      are inserted and whatever they carry, have the same fingerprint. */
  lemma GreaseInvariance(h: Hello, h': Hello, trailing: bytes, trailing': bytes)
    requires WellFormed(h) && WellFormed(h') && h.version == h'.version
    requires StripGrease(h.ciphers) == StripGrease(h'.ciphers)
    requires WithoutGrease(Listed(h)) == WithoutGrease(Listed(h'))
    ensures Parse(Print(h) + trailing) == Parse(Print(h') + trailing')
  {
    hide WellFormed, Print, Parse, StripGrease, Collect, WithoutGrease;
    RoundTrip(h, trailing);
    RoundTrip(h', trailing');
    CollectWithoutGrease(Listed(h), NOTHING, NOTHING);
    CollectWithoutGrease(Listed(h'), NOTHING, NOTHING);
  }
}
